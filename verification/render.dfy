/**
 * Projection of one game-state frame onto a character grid and the
 * per-row glyph mapping of the terminal renderer
 * (crates/common/src/render.rs).
 *
 * The grid is an `Array2D` built with `filled_with(_, width, height)`,
 * whose arguments are (rows, columns), and written with `set(x, y, _)`,
 * whose arguments are (row, column): the grid has `width` rows indexed
 * by `x`, and the renderer prints one text line per `x`.
 */
module Render {
  import S = Stream

  datatype Direction = Up | Right | Down | Left

  /** `From<StreamDirection> for Direction`: each direction maps to the one of the same name. */
  function FromStream(value: S.Direction): (r: Direction)
    ensures r.Up? <==> value.Up?
    ensures r.Right? <==> value.Right?
    ensures r.Down? <==> value.Down?
    ensures r.Left? <==> value.Left?
  {
    match value
    case Up => Up
    case Down => Down
    case Left => Left
    case Right => Right
  }

  /** The direction mapping never merges two stream directions. */
  lemma FromStreamInjective(a: S.Direction, b: S.Direction)
    ensures FromStream(a) == FromStream(b) <==> a == b
  {
  }

  datatype Point = Head(direction: Direction) | Tail | Fruit | Nothing

  /** 2^64: `usize` is taken to be 64 bits wide. */
  const UsizeModulus: int := 0x1_0000_0000_0000_0000

  /**
   * `v as usize` for an `i32`: the value modulo 2^64, so that a negative
   * coordinate becomes a very large index instead of an error.
   */
  function AsUsize(v: S.i32): (r: nat)
    ensures r < UsizeModulus
    ensures (r - v as int) % UsizeModulus == 0
  {
    if v < 0 then v as int + UsizeModulus else v as int
  }

  /** A negative coordinate, once cast, is beyond every row and column a `u32`-sized grid has. */
  lemma NegativeCastOutOfRange(v: S.i32)
    requires v < 0
    ensures AsUsize(v) >= 0x1_0000_0000
  {
  }

  /** One `RenderGrid::set` call issued by `prepare_grid`, with its coordinates already cast. */
  datatype Write = Write(x: nat, y: nat, point: Point)

  predicate Lands(w: Write, i: nat, j: nat)
  {
    w.x == i && w.y == j
  }

  function PositionWrite(p: S.Position, point: Point): Write
  {
    Write(AsUsize(p.x), AsUsize(p.y), point)
  }

  /** The writes `prepare_grid` issues, in order: the head, every tail segment, the fruit. */
  function Writes(g: S.GameState): (ws: seq<Write>)
    ensures |ws| == |g.snake.tail| + 2
    ensures ws[0] == PositionWrite(g.snake.head, Head(FromStream(g.snake.direction)))
    ensures forall k :: 0 <= k < |g.snake.tail| ==> ws[k + 1] == PositionWrite(g.snake.tail[k], Tail)
    ensures ws[|ws| - 1] == PositionWrite(g.fruit, Fruit)
  {
    var tail := g.snake.tail;
    [PositionWrite(g.snake.head, Head(FromStream(g.snake.direction)))]
    + seq(|tail|, k requires 0 <= k < |tail| => PositionWrite(tail[k], Tail))
    + [PositionWrite(g.fruit, Fruit)]
  }

  /** The content of cell (i, j) after the writes `ws` on a cell that held `base`. */
  function Overlay(ws: seq<Write>, base: Point, i: nat, j: nat): Point
  {
    if ws == [] then base
    else if Lands(ws[|ws| - 1], i, j) then ws[|ws| - 1].point
    else Overlay(ws[..|ws| - 1], base, i, j)
  }

  /** A cell no write lands on keeps its content. */
  lemma {:induction false} OverlayUntouched(ws: seq<Write>, base: Point, i: nat, j: nat)
    requires forall m :: 0 <= m < |ws| ==> !Lands(ws[m], i, j)
    ensures Overlay(ws, base, i, j) == base
  {
    if ws != [] {
      OverlayUntouched(ws[..|ws| - 1], base, i, j);
    }
  }

  /** The last write landing on a cell decides its content; earlier writes to it are overwritten. */
  lemma {:induction false} OverlayLastWins(ws: seq<Write>, base: Point, i: nat, j: nat, k: nat)
    requires k < |ws| && Lands(ws[k], i, j)
    ensures exists m ::
              && k <= m < |ws| && Lands(ws[m], i, j) && Overlay(ws, base, i, j) == ws[m].point
              && forall m' :: m < m' < |ws| ==> !Lands(ws[m'], i, j)
  {
    var n := |ws|;
    if !Lands(ws[n - 1], i, j) {
      var front := ws[..n - 1];
      assert front[k] == ws[k];
      OverlayLastWins(front, base, i, j, k);
      var m :|
        && k <= m < |front| && Lands(front[m], i, j) && Overlay(front, base, i, j) == front[m].point
        && forall m' :: m < m' < |front| ==> !Lands(front[m'], i, j);
      assert ws[m] == front[m];
      forall m' | m < m' < n ensures !Lands(ws[m'], i, j) {
        if m' < n - 1 { assert ws[m'] == front[m']; }
      }
    }
  }

  predicate HeadAt(g: S.GameState, i: nat, j: nat)
  {
    AsUsize(g.snake.head.x) == i && AsUsize(g.snake.head.y) == j
  }

  predicate TailAt(g: S.GameState, i: nat, j: nat)
  {
    exists k :: 0 <= k < |g.snake.tail| && AsUsize(g.snake.tail[k].x) == i && AsUsize(g.snake.tail[k].y) == j
  }

  predicate FruitAt(g: S.GameState, i: nat, j: nat)
  {
    AsUsize(g.fruit.x) == i && AsUsize(g.fruit.y) == j
  }

  /**
   * Write precedence of `prepare_grid`: the fruit beats the tail, the tail
   * beats the head, and a cell none of them lands on keeps its content.
   */
  lemma WritePrecedence(g: S.GameState, base: Point, i: nat, j: nat)
    ensures Overlay(Writes(g), base, i, j) ==
      if FruitAt(g, i, j) then Fruit
      else if TailAt(g, i, j) then Tail
      else if HeadAt(g, i, j) then Head(FromStream(g.snake.direction))
      else base
  {
    var ws := Writes(g);
    var n := |g.snake.tail|;
    if FruitAt(g, i, j) {
      OverlayLastWins(ws, base, i, j, n + 1);
    } else if TailAt(g, i, j) {
      var k :| 0 <= k < n && AsUsize(g.snake.tail[k].x) == i && AsUsize(g.snake.tail[k].y) == j;
      assert Lands(ws[k + 1], i, j);
      OverlayLastWins(ws, base, i, j, k + 1);
      var m :| k + 1 <= m < |ws| && Lands(ws[m], i, j) && Overlay(ws, base, i, j) == ws[m].point;
      assert m != n + 1;
      assert ws[m] == PositionWrite(g.snake.tail[m - 1], Tail);
    } else if HeadAt(g, i, j) {
      forall m | 0 < m < |ws| ensures !Lands(ws[m], i, j) {
        if m <= n { assert ws[m] == PositionWrite(g.snake.tail[m - 1], Tail); }
      }
      OverlayLastWins(ws, base, i, j, 0);
    } else {
      forall m | 0 <= m < |ws| ensures !Lands(ws[m], i, j) {
        if 0 < m <= n { assert ws[m] == PositionWrite(g.snake.tail[m - 1], Tail); }
      }
      OverlayUntouched(ws, base, i, j);
    }
  }

  /**
   * On a fresh grid, the cells that are not `Nothing` after `prepare_grid`
   * are exactly those that the head, a tail segment or the fruit lands on.
   */
  lemma FreshGridCells(g: S.GameState, i: nat, j: nat)
    ensures Overlay(Writes(g), Nothing, i, j) != Nothing <==> HeadAt(g, i, j) || TailAt(g, i, j) || FruitAt(g, i, j)
  {
    WritePrecedence(g, Nothing, i, j);
  }

  /** A position with a negative coordinate lands on no cell of a grid sized by `u32` dimensions. */
  lemma NegativePositionIgnored(p: S.Position, point: Point, i: nat, j: nat)
    requires p.x < 0 || p.y < 0
    requires i < 0x1_0000_0000 && j < 0x1_0000_0000
    ensures !Lands(PositionWrite(p, point), i, j)
  {
    if p.x < 0 { NegativeCastOutOfRange(p.x); } else { NegativeCastOutOfRange(p.y); }
  }

  /**
   * A head with a negative coordinate is written nowhere on a `u32`-sized
   * grid: each cell is as the tail segments and the fruit alone leave it.
   */
  lemma NegativeHeadNoEffect(g: S.GameState, base: Point, i: nat, j: nat)
    requires g.snake.head.x < 0 || g.snake.head.y < 0
    requires i < 0x1_0000_0000 && j < 0x1_0000_0000
    ensures Overlay(Writes(g), base, i, j) ==
      if FruitAt(g, i, j) then Fruit
      else if TailAt(g, i, j) then Tail
      else base
  {
    WritePrecedence(g, base, i, j);
    NegativePositionIgnored(g.snake.head, Head(FromStream(g.snake.direction)), i, j);
  }

  /**
   * A fruit with a negative coordinate is written nowhere on a `u32`-sized
   * grid: each cell is as the head and the tail segments alone leave it.
   */
  lemma NegativeFruitNoEffect(g: S.GameState, base: Point, i: nat, j: nat)
    requires g.fruit.x < 0 || g.fruit.y < 0
    requires i < 0x1_0000_0000 && j < 0x1_0000_0000
    ensures Overlay(Writes(g), base, i, j) ==
      if TailAt(g, i, j) then Tail
      else if HeadAt(g, i, j) then Head(FromStream(g.snake.direction))
      else base
  {
    WritePrecedence(g, base, i, j);
    NegativePositionIgnored(g.fruit, Fruit, i, j);
  }

  /** `RenderGrid`: the cells of one frame, `width` rows by `height` columns. */
  class RenderGrid {
    var data: array2<Point>

    /** The dimensions came from `u32` values. */
    ghost predicate Valid()
      reads this
    {
      data.Length0 < 0x1_0000_0000 && data.Length1 < 0x1_0000_0000
    }

    /** `RenderGrid::new`: `width` rows and `height` columns, every cell `Nothing`. */
    constructor (width: S.u32, height: S.u32)
      ensures Valid() && fresh(data)
      ensures data.Length0 == width as int && data.Length1 == height as int
      ensures forall i, j :: 0 <= i < data.Length0 && 0 <= j < data.Length1 ==> data[i, j] == Nothing
    {
      data := new Point[width as int, height as int]((i, j) => Nothing);
    }

    /**
     * `RenderGrid::set`: cell (x, y) becomes `point` when it exists; an
     * out-of-range write changes nothing and reports nothing.
     */
    method Set(x: nat, y: nat, point: Point)
      requires Valid()
      modifies data
      ensures Valid()
      ensures forall i, j :: 0 <= i < data.Length0 && 0 <= j < data.Length1 ==>
        data[i, j] == if i == x && j == y then point else old(data[i, j])
      ensures !(x < data.Length0 && y < data.Length1) ==>
        forall i, j :: 0 <= i < data.Length0 && 0 <= j < data.Length1 ==> data[i, j] == old(data[i, j])
    {
      if x < data.Length0 && y < data.Length1 {
        data[x, y] := point;
      }
    }
  }

  /**
   * `prepare_grid`: every cell ends up as the writes of `Writes(gameState)`
   * leave it, so the last write landing on a cell wins (see WritePrecedence).
   * Since the grid's dimensions are `u32` values, a head with a negative
   * coordinate shows nowhere (see NegativeHeadNoEffect).
   */
  method PrepareGrid(grid: RenderGrid, gameState: S.GameState)
    requires grid.Valid()
    modifies grid.data
    ensures grid.Valid()
    ensures forall i, j :: 0 <= i < grid.data.Length0 && 0 <= j < grid.data.Length1 ==>
      grid.data[i, j] == Overlay(Writes(gameState), old(grid.data[i, j]), i, j)
    ensures gameState.snake.head.x < 0 || gameState.snake.head.y < 0 ==>
      forall i, j :: 0 <= i < grid.data.Length0 && 0 <= j < grid.data.Length1 ==>
        grid.data[i, j] ==
          if FruitAt(gameState, i, j) then Fruit
          else if TailAt(gameState, i, j) then Tail
          else old(grid.data[i, j])
  {
    ghost var ws := Writes(gameState);
    var direction := FromStream(gameState.snake.direction);
    grid.Set(AsUsize(gameState.snake.head.x), AsUsize(gameState.snake.head.y), Head(direction));
    assert ws[..1] == [ws[0]];
    var tail := gameState.snake.tail;
    for k := 0 to |tail|
      invariant forall i, j :: 0 <= i < grid.data.Length0 && 0 <= j < grid.data.Length1 ==>
        grid.data[i, j] == Overlay(ws[..k + 1], old(grid.data[i, j]), i, j)
    {
      grid.Set(AsUsize(tail[k].x), AsUsize(tail[k].y), Tail);
      assert ws[..k + 2][..k + 1] == ws[..k + 1];
      assert ws[..k + 2][k + 1] == PositionWrite(tail[k], Tail);
    }
    grid.Set(AsUsize(gameState.fruit.x), AsUsize(gameState.fruit.y), Fruit);
    assert ws[..|ws|] == ws;
    assert ws[..|tail| + 2][..|tail| + 1] == ws[..|tail| + 1];
    if gameState.snake.head.x < 0 || gameState.snake.head.y < 0 {
      forall i, j | 0 <= i < grid.data.Length0 && 0 <= j < grid.data.Length1
        ensures grid.data[i, j] ==
          if FruitAt(gameState, i, j) then Fruit
          else if TailAt(gameState, i, j) then Tail
          else old(grid.data[i, j])
      {
        NegativeHeadNoEffect(gameState, old(grid.data[i, j]), i, j);
      }
    }
  }

  /** The character `render_frame` prints for a cell, whatever the head's direction. */
  function Glyph(p: Point): (c: char)
    ensures c == 'F' <==> p.Fruit?
    ensures c == 'H' <==> p.Head?
    ensures c == ' ' <==> p.Nothing?
    ensures c == 'T' <==> p.Tail?
  {
    match p
    case Fruit => 'F'
    case Head(_) => 'H'
    case Nothing => ' '
    case Tail => 'T'
  }

  /** Two cells print the same glyph exactly when they are of the same kind. */
  lemma GlyphDistinguishesKinds(p: Point, q: Point)
    ensures Glyph(p) == Glyph(q) <==> (p.Head? && q.Head?) || p == q
  {
  }

  /** The `fold` of one row: `acc` followed by one glyph per cell, in order. */
  function RowFold(acc: string, cells: seq<Point>): (s: string)
    ensures |s| == |acc| + |cells|
    ensures s[..|acc|] == acc
    ensures forall k :: 0 <= k < |cells| ==> s[|acc| + k] == Glyph(cells[k])
    decreases cells
  {
    if cells == [] then acc
    else RowFold(acc + [Glyph(cells[0])], cells[1..])
  }

  /** The text lines `render_frame` prints: one per grid row `x`, one character per cell. */
  method FrameRows(grid: RenderGrid) returns (rows: seq<string>)
    ensures |rows| == grid.data.Length0
    ensures forall x :: 0 <= x < |rows| ==> |rows[x]| == grid.data.Length1
    ensures forall x, y :: 0 <= x < |rows| && 0 <= y < grid.data.Length1 ==> rows[x][y] == Glyph(grid.data[x, y])
  {
    var data := grid.data;
    rows := [];
    for x := 0 to data.Length0
      invariant |rows| == x
      invariant forall x' :: 0 <= x' < x ==> |rows[x']| == data.Length1
      invariant forall x', y :: 0 <= x' < x && 0 <= y < data.Length1 ==> rows[x'][y] == Glyph(data[x', y])
    {
      var row := seq(data.Length1, y requires 0 <= y < data.Length1 reads data => data[x, y]);
      var text := RowFold("", row);
      assert forall y :: 0 <= y < data.Length1 ==> text[y] == Glyph(row[y]);
      rows := rows + [text];
    }
  }

  /** The text of one frame drawn on a fresh `width` by `height` grid. */
  function Screen(width: nat, height: nat, g: S.GameState): seq<string>
  {
    seq(width, x requires 0 <= x < width => seq(height, y requires 0 <= y < height => Glyph(Overlay(Writes(g), Nothing, x, y))))
  }

  /**
   * The frame loop of `run`: every frame is drawn on a grid built afresh
   * from the options, so nothing of an earlier frame shows in a later one.
   */
  method Run(stream: S.Stream, decodeState: string -> S.Option<S.GameState>) returns (screens: seq<seq<string>>)
    requires S.AllDecode(stream.pending, decodeState)
    ensures |screens| == S.CountLines(stream.pending)
    ensures forall k :: 0 <= k < |screens| ==>
      screens[k] == Screen(stream.options.size.width as int, stream.options.size.height as int,
                           S.Frames(stream.pending, decodeState)[k])
  {
    var frames := S.Frames(stream.pending, decodeState);
    var width, height := stream.options.size.width, stream.options.size.height;
    screens := [];
    for k := 0 to |frames|
      invariant |screens| == k
      invariant forall k' :: 0 <= k' < k ==> screens[k'] == Screen(width as int, height as int, frames[k'])
    {
      var grid := new RenderGrid(width, height);
      PrepareGrid(grid, frames[k]);
      var rows := FrameRows(grid);
      ghost var expected := Screen(width as int, height as int, frames[k]);
      forall x | 0 <= x < |rows| ensures rows[x] == expected[x] {
        forall y | 0 <= y < height as int ensures rows[x][y] == expected[x][y] {
          assert grid.data[x, y] == Overlay(Writes(frames[k]), Nothing, x, y);
        }
      }
      screens := screens + [rows];
    }
  }
}
