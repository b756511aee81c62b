# asciirender core in Dafny

asciirender turns a video into ASCII-art text frames and stores them in a
plain text file. It later replays that file in a terminal. This project models
the program's own logic in `src/main.rs`: the parts that are not ffmpeg,
`image`, termion or clap glue. Everything is written as pure functions over
sequences, plus three loop-based methods that follow the source's loops.

- **Glyph mapper** (`glyph.dfy`, module `Glyph`). The ramp is `"@%#*+=-:. "`.
  A pixel's brightness is the truncated mean `(r+g+b)/3` of its channels. That
  brightness selects ramp entry `brightness*9/255`. The index always lies in
  the ramp, so no clamping is needed. It is monotone in brightness, black maps
  to `'@'`, white maps to `' '`, and every glyph is reachable.
- **Text rasteriser** (`raster.dfy`, module `Raster`). It walks an
  already-resized `width x height` grid (`pixels.dfy`, module `Pixels`). It
  emits `width` glyphs and a line break per row. The text has
  `height*(width+1)` characters and exactly `height` line breaks, and row `y`
  sits at offset `y*(width+1)`.
- **Pixel extraction** (`extract.dfy`, module `Extract`). It is
  `chunks(stride).take(height)` over the flat RGB24 plane. A pixel is copied
  only when `3x+2` lies inside its chunk, and every other pixel stays black.
  This is proved equal to a direct reading of the flat buffer at
  `y*stride + 3x`.
- **Frame store** (`store.dfy`, module `FrameStore`; `lines.dfy`, module
  `Lines`).
  - The writer emits `FRAME_START`, the frame text, and one extra line break
    per frame.
  - `BufRead::lines` is modelled with its line-break and carriage-return
    trimming.
  - The reader is a fold: `Step`/`Feed`/`Finish`. The imperative loader
    `LoadFrames` is proved to compute the same fold.
  - `runs.dfy` (module `FrameRuns`) gives an independent reference reading:
    split the lines at markers, drop empty runs, and join each run. The fold
    is proved equal to this reference reading.
- **Round trip** (`roundtrip.dfy`, module `RoundTrip`). Loading the store
  written for `n` rasterised frames yields exactly `n` frames, in order. Each
  frame is the original text plus one extra `"\n"`, because the blank
  separator line is read into the frame it follows. So the round trip is not
  lossless, and this model states the extra line break rather than an exact
  round trip. A zero-row frame comes back as a single `"\n"`.

The resized grid's dimensions are inputs. They are not computed from the
`f32` aspect-ratio arithmetic. The code does not clamp the glyph index, and
`Glyph.GlyphIndex` proves that no clamp is needed.

## Model

| member | source | states |
|---|---|---|
| `Glyph.Brightness` | src/main.rs:32 | the `u32` mean of three bytes is at most 255 and is the floor of their average (`3v <= r+g+b < 3v+3`) |
| `Glyph.GlyphIndex` | src/main.rs:33 | `brightness*(len-1)/255` is a valid ramp index for every brightness in `[0,255]` and lies in the band `255i <= 9b < 255(i+1)` |
| `Glyph.GlyphOf` | src/main.rs:34 | indexing `ASCII_CHARS` never goes out of bounds and always yields a ramp glyph |
| `Glyph.GlyphIndexBand` | src/main.rs:33 | index `i` is selected if and only if `9b` falls in `[255i, 255(i+1))` |
| `Glyph.GlyphIndexMonotone` | src/main.rs:33 | a brighter pixel never selects an earlier (denser) glyph |
| `Glyph.GlyphExtremes` | src/main.rs:10-34 | brightness 0 gives the first entry `'@'` and brightness 255 gives the last entry `' '` |
| `Glyph.EveryGlyphReachable` | src/main.rs:33-34 | each of the ten ramp entries is selected by some brightness |
| `Pixels.BlankImage` | src/main.rs:114 | a fresh image buffer is `width x height` and entirely black |
| `Raster.Rasterise` | src/main.rs:26-39 | the definition of a frame's text: each row's glyphs followed by a break; `Raster.RasteriseLayout` fixes every character of it |
| `Raster.FrameToAscii` | src/main.rs:26-39 | the nested push loop builds exactly the rows-with-breaks text, of length `height*(width+1)` |
| `Raster.RowStartProduct` | src/main.rs:27 | row `y` starts at `y*(width+1)`, the per-row size the output buffer is reserved for |
| `Raster.JoinRowsStep` | src/main.rs:29-37 | after row `y`, the text is the previous rows' text followed by row `y` and a break |
| `Raster.RasteriseLength` | src/main.rs:26-37 | a text frame has `height * (width + 1)` characters, the capacity reserved up front |
| `Raster.JoinLength` | src/main.rs:29-37 | joining rows of `w` glyphs each, every row followed by its break, gives `w + 1` characters per row |
| `Raster.JoinCell` | src/main.rs:29-37 | in such a join, offset `x` of block `y` is column `x` of row `y`, or the row's break when `x == w` |
| `Raster.RasteriseLayout` | src/main.rs:26-37 | the text has `RowStart(width, height)` characters; the glyph of pixel `(x,y)` is at `RowStart(width, y)+x`, and a break is at `RowStart(width, y)+width`; `RowStart(width, y)` is `y*(width+1)` by `Raster.RowStartProduct` |
| `Raster.WhiteFrameIsBlank` | src/main.rs:32-34 | in a solid white frame every glyph position holds the sparsest glyph `' '`; the row breaks stay |
| `Raster.RasteriseBreaks` | src/main.rs:29-37 | the text contains exactly `height` line breaks |
| `Raster.RasteriseAlphabet` | src/main.rs:29-37 | every character of the text is a ramp glyph or a line break |
| `Extract.Chunks` | src/main.rs:117 | every chunk is non-empty and at most `stride` bytes |
| `Pixels.OffsetProduct` | src/main.rs:117 | block `k` of `step`-sized blocks starts at `k*step`: chunk `k` at byte `k*stride`, and, through `Raster.RowStart`, text row `y` at `y*(width+1)` |
| `Extract.ChunkAt` | src/main.rs:116-119 | chunk `k` exists if and only if `k*stride` is inside the buffer, and it runs to the next chunk start or the buffer's end |
| `Extract.ChunkPixel` | src/main.rs:121-126 | the copy guard `3x+2 < row.len()` on chunk `y` is the same as reading bytes `y*stride+3x..+2` when inside row and buffer, otherwise black |
| `Extract.FrameToImage` | src/main.rs:108-131 | the result is always `width x height`; pixel `(x,y)` holds the three bytes at `y*stride+3x` when they lie inside row `y` and the buffer, and black otherwise; needs `stride > 0` |
| `Lines.JoinAppend` | src/main.rs:88-89 | writing line sequences one after the other produces the concatenation of their texts |
| `Lines.JoinEndsWithBreak` | src/main.rs:88-89 | text written as one or more lines is non-empty and ends with a line break |
| `Lines.LineEnd` | src/main.rs:142 | the split point is the first line break, or the end when there is none |
| `Lines.TrimCarriageReturn` | src/main.rs:142 | at most one trailing carriage return is removed, and it is removed when present |
| `Lines.SplitLines` | src/main.rs:142-143 | no line read from a file contains a line break, and a non-empty file yields at least one line |
| `Lines.FirstLine` | src/main.rs:142-143 | the first line of a carriage-return-free text that ends in a break is everything up to the first break, read unchanged |
| `Lines.SplitJoin` | src/main.rs:142-143 | reading back written plain lines yields the same lines |
| `Lines.JoinSplit` | src/main.rs:142-143 | rewriting the lines read from a carriage-return-free text that ends in a break restores it |
| `Lines.JoinCountBreaks` | src/main.rs:36 | break-free lines written one per line give exactly one break per line |
| `FrameStore.WriteFrame` | src/main.rs:88-89 | the definition of one frame's record: the marker line, then the frame text and one more break; `FrameStore.SerializeLines` gives its lines |
| `FrameStore.Serialize` | src/main.rs:86-102 | the definition of the store: every frame's record in decode order, from the main loop and the drain after `send_eof`; `FrameStore.SerializeLines` gives its lines |
| `FrameStore.SerializeLines` | src/main.rs:88-89 | the store written for frames is, for each frame in order, the lines `FRAME_START`, its rows, and one empty line |
| `FrameStore.Step` | src/main.rs:144-152 | the definition of one loop iteration: a marker pushes a non-empty accumulator and clears it, any other line is appended with a break; `FrameStore.FeedContent` (content lines), `FrameStore.LeadingContent` (a marker after accumulated text pushes that text as a frame) and `FrameStore.MarkerOnEmpty` (a marker on an empty accumulator adds nothing) describe its effect |
| `FrameStore.Feed` | src/main.rs:142-153 | the definition of the loop over all lines; `FrameStore.FeedAppend` and `FrameStore.FeedWellFormed` describe it |
| `FrameStore.Finish` | src/main.rs:154-156 | the definition of the final flush of a non-empty accumulator; `FrameStore.TrailingMarker` and `FrameStore.ParseWellFormed` describe it |
| `FrameStore.Parse` | src/main.rs:139-156 | the definition of the reader; `FrameRuns.ParseIsReference` proves it equal to an independent split-filter-join reading |
| `FrameStore.FeedAppend` | src/main.rs:142-153 | reading two pieces of a file one after the other is the same as reading the whole file |
| `FrameStore.LoadFrames` | src/main.rs:139-156 | the loader loop computes the line fold, and every frame it returns is non-empty and ends with a break |
| `FrameStore.FeedWellFormed` | src/main.rs:142-153 | the fold keeps every stored frame non-empty and ending in a break, and the accumulator empty or ending in a break |
| `FrameStore.ParseWellFormed` | src/main.rs:142-156 | every frame read from any line sequence is non-empty and ends with a line break |
| `FrameStore.ParseEmpty` | src/main.rs:139-156 | a file with no lines yields no frames |
| `FrameStore.ParseContent` | src/main.rs:142-156 | a file without marker lines is one frame holding all its lines, or no frame when it is empty |
| `FrameStore.FeedContent` | src/main.rs:149-152 | a run of non-marker lines only extends the accumulator, each line followed by a break |
| `FrameStore.FeedPrefix` | src/main.rs:142-156 | frames already pushed stay in front of everything read later |
| `FrameStore.LeadingContent` | src/main.rs:142-156 | content lines before the first marker form a frame of their own |
| `FrameStore.MarkerOnEmpty` | src/main.rs:144-148 | a marker with an empty accumulator adds no frame: a leading marker, or a second of two consecutive markers, changes nothing |
| `FrameStore.TrailingMarker` | src/main.rs:144-156 | a marker at the end of the file adds no frame |
| `FrameRuns.Runs` | src/main.rs:142-153 | cutting the lines at markers always gives at least one run |
| `FrameRuns.NonEmpty` | src/main.rs:145 | every kept run is non-empty, and there are no more kept runs than runs |
| `FrameRuns.NonEmptyKept` | src/main.rs:145 | dropping empty runs invents nothing: every kept run is one of the given runs |
| `FrameRuns.RunsCount` | src/main.rs:144 | `k` marker lines cut the file into `k+1` runs |
| `FrameRuns.RunsMarkerFree` | src/main.rs:144-152 | no run contains a marker line |
| `FrameRuns.RunsFlatten` | src/main.rs:149-152 | the runs laid end to end are exactly the non-marker lines, in order |
| `FrameRuns.FirstMarker` | src/main.rs:144 | the position found is the first marker line, or the end when the file has none |
| `FrameRuns.RunsOfContent` | src/main.rs:149-152 | marker-free lines form a single run |
| `FrameRuns.RunsOfBlock` | src/main.rs:144-152 | the lines before the first marker form the first run, and the runs of the rest follow |
| `FrameRuns.NonEmptyMarkerFree` | src/main.rs:145 | dropping empty runs cannot bring in a marker line |
| `FrameRuns.ParseIsReference` | src/main.rs:142-156 | the reader's fold equals the reference reading (split at markers, drop empty runs, join each) on every line sequence |
| `FrameRuns.ParseCount` | src/main.rs:144-156 | a file yields at most one frame more than it has marker lines |
| `FrameRuns.ParseFramesAreRuns` | src/main.rs:142-156 | frame `i` is the joined text of a non-empty run of lines none of which is `FRAME_START` |
| `FrameRuns.ConcatTexts` | src/main.rs:149-152 | the joined runs laid end to end are the joined lines of all runs |
| `FrameRuns.ConcatNonEmpty` | src/main.rs:145 | dropping empty runs loses no text |
| `FrameRuns.ParseKeepsContent` | src/main.rs:142-156 | the frames laid end to end are exactly the non-marker lines, each followed by a break: nothing lost, nothing invented, order kept |
| `RoundTrip.ParseStore` | src/main.rs:142-156 | reading the lines of a written store yields each frame's text plus one break, in order |
| `RoundTrip.RecordMarkerFree` | src/main.rs:88-89 | a frame record's rows and blank separator hold no marker line |
| `RoundTrip.StoreLinesPlain` | src/main.rs:88-89 | a store written from plain rows consists of plain lines |
| `RoundTrip.WrittenLines` | src/main.rs:88-89 | the lines read back from a written store are marker, rows and blank line for each frame, in order |
| `RoundTrip.ReadWrittenRows` | src/main.rs:88-156 | writing frames of plain non-marker rows and loading them gives the same number of frames, each with one extra break |
| `RoundTrip.GlyphRowStorable` | src/main.rs:10 | a row of ramp glyphs has no line break, no trailing carriage return, and is never `FRAME_START` |
| `RoundTrip.StoreRoundTrip` | src/main.rs:88-156 | loading the store written for `n` rasterised frames yields `n` frames, frame `i` being frame text `i` plus `"\n"`, so it is never the identity on a non-empty video |
| `RoundTrip.ZeroRowFrame` | src/main.rs:88-156 | a frame with no pixel rows comes back as a single line break |

## Left out

- ffmpeg demuxing, stream selection, `send_packet`/`receive_frame`/`send_eof` draining and the `scaler` pixel-format conversion (src/main.rs:48-84, 94-97) are foreign library calls. The decoded RGB24 plane (bytes, width, height, stride) is an input of `Extract.FrameToImage`. A decode error ends conversion with an error, and the model does not show that.
- The `f32` aspect-ratio geometry (src/main.rs:14-18) and `resize_exact` with nearest filtering (src/main.rs:20-24) are left out. Floating point and a library call are outside the model. The rasteriser takes the resized grid as its input, and only its exact dimensions are relied on.
- Raster.FrameToAscii: the `String::with_capacity((width * height + height) as usize)` reservation is not modelled. It does not affect the text. In a debug build its `u32` product can overflow and panic when `width * height + height >= 2^32`. The model uses unbounded naturals and does not show that panic.
- Extract.FrameToImage: takes `stride` as a positive natural. `chunks(0)` panics, and frame strides are not negative here.
- Lines.SplitLines: models characters, not bytes. Invalid UTF-8 and read errors, which `lines()` reports through `?`, are not modelled.
- File create/open and write errors in the store writer (src/main.rs:75, 88-89) are not modelled. The store is the written text itself.
- Playback (src/main.rs:135, 158-173) is left out: the `f32` frame duration, terminal clear/home escapes, flushing stdout, `Instant` and `sleep`. These are timing and terminal I/O. The loop also does not terminate when `loop_playback` is set, and it spins forever with zero frames, so no termination is claimed.
- Command-line parsing with clap and `main` (src/main.rs:179-241) are argument glue.
