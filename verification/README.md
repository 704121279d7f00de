# snake-pipe core, modelled in Dafny

This project models three sequential pieces of snake-pipe, a tool that
streams snake-game states from one process to a renderer.

- **Line framing** (`crates/common/src/stream.rs`, module `Stream`). The
  first input line is decoded as the options record: frame duration and
  grid size. Every later line is decoded lazily as one game-state frame.
  A read error on a later line yields no frame. A later line that reads
  fine but does not decode makes the consumer panic at that line.
- **Grid projection and glyphs** (`crates/common/src/render.rs`, module
  `Render`). `RenderGrid` is a class over a 2-D array with `width` rows
  (indexed by `x`) and `height` columns (indexed by `y`). `PrepareGrid`
  writes the head, then each tail segment, then the fruit. An
  out-of-range write is dropped without error. The glyph fold turns each
  row into one line of text, using `F`, `H`, space and `T`.
- **Version banner** (`src/common.rs`, modules `Versions` and `Strings`).
  `ExtractVersionsWithFeatures` inverts a feature → version map into
  version → sorted feature list. `FormatVersionWithFeatures` prints that
  grouping.

JSON decoding is abstract. The decoders are function parameters that
return `Some(record)` or `None`.

Three behaviours of the code matter for what the model states:

- Write order: `prepare_grid` writes the head first, then each tail
  segment, then the fruit (render.rs:72-84). A tail segment or the fruit
  on the head's cell therefore overwrites the head.
- Out-of-range coordinates: `RenderGrid::set` drops the `Result` of
  `Array2D::set` with `let _ =` (render.rs:46), so an out-of-range write
  is discarded without any error. A negative `i32` cast to `usize` also
  lands out of range and is discarded the same way.
- Malformed frames: a later line that reads fine but does not decode is
  `unwrap`ped (stream.rs:70). The consumer panics at that line; the line
  is not skipped.

## Model

| member | source | states |
|---|---|---|
| `Stream.StreamNew` | crates/common/src/stream.rs:62-79 | A read error on the first line gives `Err(IoError)`. A first line that does not decode as options gives `Err(JsonError)`. Otherwise the result holds the decoded options, and the undecoded remainder is exactly the lines after the first. Empty input panics, so it is a precondition. |
| `Stream.Frames` | crates/common/src/stream.rs:68-74 | When every later line that was read decodes, the `flat_map` yields one frame per successfully read line. Read errors yield none. |
| `Stream.FramesInOrder` | crates/common/src/stream.rs:68-74 | Frame k is the decoding of the k-th successfully read line, so frames keep input order. |
| `Stream.FramesAppend` | crates/common/src/stream.rs:68-74 | Framing is incremental: the frames of `a + b` are the frames of `a` followed by the frames of `b`. |
| `Stream.ReadErrorDropped` | crates/common/src/stream.rs:73 | A read error inserted anywhere adds no frame and changes no other frame. |
| `Stream.FirstLineIsNotAFrame` | crates/common/src/stream.rs:65-68 | After a successful `Stream::new`, the frame count is the number of successfully read lines minus the first. The options line never becomes a frame. |
| `Stream.Drain` | crates/common/src/stream.rs:68-74 | Consuming the lazy iterator panics exactly when some successfully read later line does not decode. It never delivers more frames than there are read lines. |
| `Stream.DrainWithoutPanic` | crates/common/src/stream.rs:68-74 | When every line decodes, the consumer receives exactly `Frames` and does not panic. |
| `Stream.DrainPanicsAtBadLine` | crates/common/src/stream.rs:70 | Take the first read line that does not decode. The consumer receives the frames of every line before it, then panics. The bad line is not skipped. |
| `Render.FromStream` | crates/common/src/render.rs:15-24 | Each stream direction maps to the render direction of the same name. |
| `Render.FromStreamInjective` | crates/common/src/render.rs:15-24 | Two stream directions map to the same render direction only if they are equal. |
| `Render.AsUsize` | crates/common/src/render.rs:73-74 | `i32 as usize` gives a value below 2^64 that agrees with the input modulo 2^64. |
| `Render.NegativeCastOutOfRange` | crates/common/src/render.rs:73-74 | A negative coordinate casts to at least 2^32. That is beyond every row and column of a grid with `u32` dimensions. |
| `Render.NegativePositionIgnored` | crates/common/src/render.rs:72-84 | A head, tail or fruit position with a negative coordinate lands on no cell of such a grid. |
| `Render.Writes` | crates/common/src/render.rs:70-85 | `prepare_grid` issues its writes in this order: the head (with its converted direction), each tail segment in order, the fruit. |
| `Render.OverlayUntouched` | crates/common/src/render.rs:70-85 | A cell that no write lands on keeps its previous content. |
| `Render.OverlayLastWins` | crates/common/src/render.rs:72-84 | A cell's final content is the point of the last write that lands on it. Later writes overwrite earlier ones, including one tail segment over another. |
| `Render.WritePrecedence` | crates/common/src/render.rs:70-85 | Each cell ends up as Fruit if the fruit lands there. Otherwise it is Tail if a tail segment does. Otherwise it is Head(direction) if the head does. Otherwise it keeps its previous content. |
| `Render.FreshGridCells` | crates/common/src/render.rs:70-85 | On a fresh grid, a cell is not `Nothing` exactly when the head, a tail segment or the fruit lands on it. |
| `Render.RenderGrid.constructor` | crates/common/src/render.rs:40-43 | `RenderGrid::new(width, height)` gives `width` rows and `height` columns, every cell `Nothing`. |
| `Render.RenderGrid.Set` | crates/common/src/render.rs:45-47 | An in-range write changes exactly cell (x, y). Every other cell keeps its value. An out-of-range write changes nothing and reports nothing. The grid keeps its `u32`-bounded dimensions. |
| `Render.PrepareGrid` | crates/common/src/render.rs:70-85 | Each cell of the grid ends up as the head, tail and fruit writes leave it, applied in order to its previous content. On a grid with `u32` dimensions, a head with a negative coordinate shows nowhere: each cell is Fruit where the fruit lands, else Tail where a segment lands, else unchanged. |
| `Render.NegativeHeadNoEffect` | crates/common/src/render.rs:72-76 | A head with a negative coordinate is written to no cell of a `u32`-sized grid. Each cell is Fruit where the fruit lands, else Tail where a segment lands, else keeps its content. |
| `Render.NegativeFruitNoEffect` | crates/common/src/render.rs:80-84 | A fruit with a negative coordinate is written to no cell of a `u32`-sized grid. Each cell is Tail where a segment lands, else Head where the head lands, else keeps its content. |
| `Render.Glyph` | crates/common/src/render.rs:98-103 | A cell prints `F` exactly when it holds the fruit, `H` exactly when it holds the head (in any direction), a space exactly when it is empty, and `T` exactly when it holds a tail segment. |
| `Render.GlyphDistinguishesKinds` | crates/common/src/render.rs:98-103 | Two cells print the same glyph exactly when they are of the same kind. A head prints the same whatever its direction. |
| `Render.RowFold` | crates/common/src/render.rs:97-105 | The row fold appends exactly one glyph per cell, in cell order, after the accumulator. |
| `Render.FrameRows` | crates/common/src/render.rs:96-113 | One text line per grid row `x`. Each line has one character per cell, and character y of line x is the glyph of cell (x, y). |
| `Render.Run` | crates/common/src/render.rs:54-62 | There is one screen per frame. Screen k is frame k drawn on a freshly built grid, so nothing of an earlier frame shows in it. |
| `Strings.Sort` | src/common.rs:40-42 | `sort` returns the same strings in ascending `String` order. |
| `Strings.StrictlySortedUnique` | src/common.rs:40-42 | Two strictly ascending lists of the same strings are equal. So a sorted list of distinct features is determined by its set of features. |
| `Versions.GroupByVersion` | src/common.rs:31-39 | After the insert/push loop, the keys are exactly the versions that occur. Each version lists exactly its own features, with no repetition, whatever the iteration order. |
| `Versions.SortLists` | src/common.rs:40-42 | Sorting every value keeps the keys. Each list becomes ascending and holds the same features. |
| `Versions.ExtractVersionsWithFeatures` | src/common.rs:27-44 | The result's keys are exactly the distinct versions. Each list is strictly ascending. A feature is in a version's list exactly when that is its version. |
| `Versions.GroupedUnique` | src/common.rs:27-44 | The grouping is determined by the input, so the hash map's iteration order cannot show in it. |
| `Versions.GroupedTotalLength` | src/common.rs:31-39 | The lists together are as long as the input has entries. Every feature appears exactly once. |
| `Versions.SingleVersion` | src/common.rs:80-96 | When all features share one version, the result has that single key, listing every feature in ascending order. |
| `Versions.ExtractTwoVersionsExample` | src/common.rs:98-114 | For the unit test's input, the result is exactly `{rust: [gamestate, render], node: [throttle]}`. |
| `Versions.FormatVersionWithFeatures` | src/common.rs:58-72 | Zero entries give "". Exactly one entry gives the bare version. Two or more give the first `version: f1/f2` segment, then " - ", then the rest of the segments joined by " - ". The "Unknown version" branch is unreachable. |
| `Versions.Join` | src/common.rs:69-71 | `join` of no parts is empty. Otherwise the result starts with the first part, and its length is the parts' total length plus one separator per gap between two parts. |
| `Versions.Segment` | src/common.rs:69 | A `version: f1/f2` segment starts with the version and ": ", followed by the features joined by "/", so its length is that of the version, plus 2, plus the features' total length, plus one per gap between two features. |
| `Versions.Segments` | src/common.rs:67-70 | The `map` over the entries gives one segment per entry, in entry order: segment k is entry k's version and its features. |
| `Versions.JoinSplit` | src/common.rs:67-71 | `join` splits at any part boundary into the join of the parts before it, the separator, and the join of the parts after it. |
| `Versions.FormatStartsWithFirstSegment` | src/common.rs:67-71 | With two or more entries, the banner starts with the first entry's segment followed by " - ". |
| `Versions.FormatConcat` | src/common.rs:67-71 | With at least two entries on each side, the banner of `a + b` is the banner of `a`, then " - ", then the banner of `b`. Segments keep map order. |
| `Versions.FormatOneVersionExample` | src/common.rs:116-132 | A single entry prints as its bare version, however many features it lists. |
| `Versions.FormatTwoVersionsExample` | src/common.rs:134-150 | Two entries print as `v1: f1/f2 - v2: f3`. |

## Left out

- src/render_browser/server.rs is not part of this model. It holds the HTTP handlers, the broadcast task, the shutdown flag, signal handling and the task join. That is concurrency and network I/O.
- Terminal output is not modelled. This covers the `queue!` calls for clear screen, cursor hide and move, and print in `render_frame`; the stdout flush; `print_frame`; and `run`'s `println!` of the options and of a parse error. `FrameRows` gives the text lines that `render_frame` prints.
- `parse_gamestate` reading standard input, and serde JSON decoding, are not modelled. The line source is a `seq<LineRead>`, and the decoders are function parameters.
- `format_version_to_display` is left out. It only expands the `crate_version!` build macro.
- The frame iterator is lazy and may be unbounded. The model takes the line source as a finite sequence.
- `usize` is taken to be 64 bits wide when casting a negative `i32`.
- `Strings.Sort` is an insertion sort, not Rust's stable merge sort. Both return the unique ascending arrangement of the strings, so the results agree.
- Glyphs are `char`s. The source builds one-character `&str` values.
- `Render.Run` requires that every later line decodes. Without that, the run loop panics at the first line that does not decode. `Stream.DrainPanicsAtBadLine` states that case.
- `Versions.ExtractVersionsWithFeatures` returns a `map` and does not give the `IndexMap`'s key order. That order follows the `HashMap` iteration order, which is unspecified. `FormatVersionWithFeatures` takes the entries in their `IndexMap` order.
