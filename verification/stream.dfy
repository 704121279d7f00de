/**
 * The line protocol read from the game process's standard output
 * (crates/common/src/stream.rs): the first line is the options record,
 * every later line one game-state frame.
 *
 * JSON decoding is not modelled: the decoders are passed in as functions
 * that either yield a record or fail.
 */
module Stream {

  /** Rust's `u32` and `i32`. */
  newtype u32 = x: int | 0 <= x < 0x1_0000_0000
  newtype i32 = x: int | -0x8000_0000 <= x < 0x8000_0000

  datatype Option<T> = None | Some(value: T)

  // options

  datatype SizeOption = SizeOption(width: u32, height: u32)

  datatype InitOptions = InitOptions(frameDuration: u32, size: SizeOption)

  // gamestate

  datatype Direction = Up | Right | Down | Left

  datatype Position = Position(x: i32, y: i32)

  datatype Snake = Snake(direction: Direction, head: Position, tail: seq<Position>)

  datatype GameState = GameState(snake: Snake, fruit: Position, score: u32, over: bool, paused: bool)

  /** One item of `BufRead::lines()`: a line, or an I/O error while reading it. */
  datatype LineRead = Line(text: string) | ReadError

  /** The two ways the boxed error of `Stream::new` can arise. */
  datatype StreamError = IoError | JsonError

  datatype Result<T> = Ok(value: T) | Err(error: StreamError)

  /**
   * What `Stream::new` returns: the decoded options and the line source
   * not yet consumed. Frames are decoded lazily, when `pending` is drained
   * (see Frames and Drain).
   */
  datatype Stream = Stream(options: InitOptions, pending: seq<LineRead>)

  /** Number of lines that were read successfully. */
  function CountLines(p: seq<LineRead>): nat
  {
    if p == [] then 0 else (if p[0].Line? then 1 else 0) + CountLines(p[1..])
  }

  /** The texts of the lines read successfully, in input order. */
  function LineTexts(p: seq<LineRead>): seq<string>
  {
    if p == [] then [] else (if p[0].Line? then [p[0].text] else []) + LineTexts(p[1..])
  }

  /**
   * Every line that was read successfully decodes as a game state. When
   * this fails, draining the stream panics at the first such line.
   */
  ghost predicate AllDecode(p: seq<LineRead>, decodeState: string -> Option<GameState>)
  {
    forall k :: 0 <= k < |p| && p[k].Line? ==> decodeState(p[k].text).Some?
  }

  /** Unfolds AllDecode by one line. */
  lemma AllDecodeTail(p: seq<LineRead>, decodeState: string -> Option<GameState>)
    requires p != []
    ensures AllDecode(p, decodeState) <==>
      (p[0].Line? ==> decodeState(p[0].text).Some?) && AllDecode(p[1..], decodeState)
  {
  }

  /**
   * `Stream::new`. An empty line source panics on `lines.next().unwrap()`,
   * hence the precondition. A read error on the first line and a first
   * line that does not decode as options are both returned as errors; the
   * rest of the source is kept, undecoded, for later consumption.
   */
  function StreamNew(lines: seq<LineRead>, decodeOptions: string -> Option<InitOptions>): (r: Result<Stream>)
    requires |lines| > 0
    ensures r == Err(IoError) <==> lines[0].ReadError?
    ensures r == Err(JsonError) <==> lines[0].Line? && decodeOptions(lines[0].text).None?
    ensures r.Ok? ==> lines[0].Line? && Some(r.value.options) == decodeOptions(lines[0].text)
    ensures r.Ok? ==> r.value.pending == lines[1..]
  {
    match lines[0]
    case ReadError => Err(IoError)
    case Line(first) =>
      match decodeOptions(first)
      case None => Err(JsonError)
      case Some(options) => Ok(Stream(options, lines[1..]))
  }

  /**
   * The frames produced by the `flat_map` over the remaining lines, when
   * every successfully read line decodes: read errors yield no frame, each
   * line exactly one.
   */
  function Frames(p: seq<LineRead>, decodeState: string -> Option<GameState>): (r: seq<GameState>)
    requires AllDecode(p, decodeState)
    ensures |r| == CountLines(p)
  {
    if p == [] then []
    else
      AllDecodeTail(p, decodeState);
      match p[0]
      case ReadError => Frames(p[1..], decodeState)
      case Line(text) => [decodeState(text).value] + Frames(p[1..], decodeState)
  }

  /** What a consumer of the lazy frame iterator sees: the frames it received and whether it panicked. */
  datatype Drained = Drained(frames: seq<GameState>, panicked: bool)

  /**
   * Iterating the frames to the end. A successfully read line that does
   * not decode panics on `unwrap`, after the frames before it have been
   * delivered; it is not skipped.
   */
  function Drain(p: seq<LineRead>, decodeState: string -> Option<GameState>): (d: Drained)
    ensures d.panicked <==> !AllDecode(p, decodeState)
    ensures |d.frames| <= CountLines(p)
  {
    if p == [] then Drained([], false)
    else
      var rest := Drain(p[1..], decodeState);
      AllDecodeTail(p, decodeState);
      match p[0]
      case ReadError => rest
      case Line(text) =>
        match decodeState(text)
        case None => Drained([], true)
        case Some(g) => Drained([g] + rest.frames, rest.panicked)
  }

  /** Each frame is the decoding of the successfully read line at the same position, in input order. */
  lemma {:induction false} FramesInOrder(p: seq<LineRead>, decodeState: string -> Option<GameState>)
    requires AllDecode(p, decodeState)
    ensures |LineTexts(p)| == |Frames(p, decodeState)|
    ensures forall k :: 0 <= k < |LineTexts(p)| ==>
      decodeState(LineTexts(p)[k]) == Some(Frames(p, decodeState)[k])
  {
    if p != [] {
      AllDecodeTail(p, decodeState);
      FramesInOrder(p[1..], decodeState);
      var texts, frames := LineTexts(p[1..]), Frames(p[1..], decodeState);
      if p[0].Line? {
        assert LineTexts(p) == [p[0].text] + texts;
        assert Frames(p, decodeState) == [decodeState(p[0].text).value] + frames;
        forall k | 0 < k < |LineTexts(p)|
          ensures decodeState(LineTexts(p)[k]) == Some(Frames(p, decodeState)[k])
        {
          assert LineTexts(p)[k] == texts[k - 1];
          assert Frames(p, decodeState)[k] == frames[k - 1];
        }
      } else {
        assert LineTexts(p) == texts;
        assert Frames(p, decodeState) == frames;
      }
    }
  }

  /** Framing is incremental: the frames of two consecutive pieces of input are the frames of each, concatenated. */
  lemma {:induction false} FramesAppend(a: seq<LineRead>, b: seq<LineRead>, decodeState: string -> Option<GameState>)
    requires AllDecode(a, decodeState) && AllDecode(b, decodeState)
    ensures AllDecode(a + b, decodeState)
    ensures Frames(a + b, decodeState) == Frames(a, decodeState) + Frames(b, decodeState)
  {
    assert AllDecode(a + b, decodeState) by {
      forall k | 0 <= k < |a + b| && (a + b)[k].Line? ensures decodeState((a + b)[k].text).Some? {
        if k < |a| { assert (a + b)[k] == a[k]; } else { assert (a + b)[k] == b[k - |a|]; }
      }
    }
    if a != [] {
      assert (a + b)[1..] == a[1..] + b;
      assert (a + b)[0] == a[0];
      AllDecodeTail(a, decodeState);
      FramesAppend(a[1..], b, decodeState);
      if a[0].Line? {
        calc {
          Frames(a + b, decodeState);
          [decodeState(a[0].text).value] + Frames(a[1..] + b, decodeState);
          [decodeState(a[0].text).value] + (Frames(a[1..], decodeState) + Frames(b, decodeState));
          ([decodeState(a[0].text).value] + Frames(a[1..], decodeState)) + Frames(b, decodeState);
        }
      } else {
        assert Frames(a + b, decodeState) == Frames(a[1..] + b, decodeState);
      }
    } else {
      assert a + b == b;
    }
  }

  /** A read error in the middle of the input produces no frame and does not disturb the others. */
  lemma ReadErrorDropped(a: seq<LineRead>, b: seq<LineRead>, decodeState: string -> Option<GameState>)
    requires AllDecode(a, decodeState) && AllDecode(b, decodeState)
    ensures AllDecode(a + [ReadError] + b, decodeState)
    ensures Frames(a + [ReadError] + b, decodeState) == Frames(a + b, decodeState)
  {
    var e: seq<LineRead> := [ReadError];
    assert AllDecode(e, decodeState);
    FramesAppend(a, e, decodeState);
    FramesAppend(a + e, b, decodeState);
    FramesAppend(a, b, decodeState);
    assert Frames(e, decodeState) == [];
  }

  /**
   * The first line is consumed as the options and never becomes a frame:
   * the frames of a well-formed stream are those of the later lines, one
   * per successfully read later line.
   */
  lemma FirstLineIsNotAFrame(lines: seq<LineRead>, decodeOptions: string -> Option<InitOptions>,
                             decodeState: string -> Option<GameState>)
    requires |lines| > 0 && StreamNew(lines, decodeOptions).Ok?
    requires AllDecode(lines[1..], decodeState)
    ensures var s := StreamNew(lines, decodeOptions).value;
      |Frames(s.pending, decodeState)| == CountLines(lines) - 1
  {
    assert lines == [lines[0]] + lines[1..];
  }

  /** When every line decodes, draining delivers exactly the frames and never panics. */
  lemma {:induction false} DrainWithoutPanic(p: seq<LineRead>, decodeState: string -> Option<GameState>)
    requires AllDecode(p, decodeState)
    ensures Drain(p, decodeState) == Drained(Frames(p, decodeState), false)
  {
    if p != [] {
      AllDecodeTail(p, decodeState);
      DrainWithoutPanic(p[1..], decodeState);
    }
  }

  /**
   * A successfully read line that does not decode stops the stream: the
   * consumer has received the frames of every line before it and then
   * panics; nothing after it is delivered.
   */
  lemma {:induction false} DrainPanicsAtBadLine(p: seq<LineRead>, k: nat, decodeState: string -> Option<GameState>)
    requires k < |p| && p[k].Line? && decodeState(p[k].text).None?
    requires AllDecode(p[..k], decodeState)
    ensures Drain(p, decodeState) == Drained(Frames(p[..k], decodeState), true)
  {
    if k > 0 {
      assert p[1..][..k - 1] == p[..k][1..];
      AllDecodeTail(p[..k], decodeState);
      DrainPanicsAtBadLine(p[1..], k - 1, decodeState);
    }
  }
}
