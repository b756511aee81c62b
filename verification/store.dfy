/**
 * The frame store: a text file in which every frame is written as a marker
 * line, the frame's text, and one blank separator line; and the reader that
 * folds the file's lines back into frames.
 */
module FrameStore {
  import opened Lines

  /** The marker line that opens every frame. */
  const Marker: string := "FRAME_START"

  // ---------------------------------------------------------------- writer

  /** `writeln!(out, "FRAME_START")` followed by `writeln!(out, "{}", text)`. */
  function WriteFrame(text: string): string
  {
    Marker + "\n" + text + "\n"
  }

  /** The whole store: every frame's record, in the order the frames were decoded. */
  function Serialize(texts: seq<string>): string
  {
    if |texts| == 0 then "" else WriteFrame(texts[0]) + Serialize(texts[1..])
  }

  /** The lines of a store holding frames with the given rows. */
  function StoreLines(frames: seq<seq<string>>): seq<string>
  {
    if |frames| == 0 then [] else [Marker] + frames[0] + [""] + StoreLines(frames[1..])
  }

  /** The text of each frame, given its rows. */
  function Texts(frames: seq<seq<string>>): seq<string>
  {
    seq(|frames|, i requires 0 <= i < |frames| => Join(frames[i]))
  }

  /**
   * Writing frames made of rows produces, for each frame in order, the marker
   * line, the frame's rows and one empty line.
   */
  lemma {:induction false} SerializeLines(frames: seq<seq<string>>)
    ensures Serialize(Texts(frames)) == Join(StoreLines(frames))
  {
    if |frames| > 0 {
      var f := frames[0];
      SerializeLines(frames[1..]);
      assert Texts(frames)[1..] == Texts(frames[1..]);
      JoinAppend([Marker] + f + [""], StoreLines(frames[1..]));
      JoinAppend([Marker] + f, [""]);
      JoinAppend([Marker], f);
    }
  }

  // ---------------------------------------------------------------- reader

  /** The reader's state: the frames completed so far and the text being accumulated. */
  datatype Reader = Reader(frames: seq<string>, current: string)

  const Start: Reader := Reader([], "")

  /** Appends the accumulated text as a frame when there is any. */
  function Flush(frames: seq<string>, current: string): seq<string>
  {
    if current != "" then frames + [current] else frames
  }

  /** One line of the file: a marker flushes, any other line is accumulated with its break. */
  function Step(r: Reader, line: string): Reader
  {
    if line == Marker then Reader(Flush(r.frames, r.current), "")
    else Reader(r.frames, r.current + line + "\n")
  }

  /** Feeds the lines to the reader, first to last. */
  function Feed(r: Reader, lines: seq<string>): Reader
    decreases |lines|
  {
    if |lines| == 0 then r else Feed(Step(r, lines[0]), lines[1..])
  }

  /** What the reader holds once the input is exhausted. */
  function Finish(r: Reader): seq<string>
  {
    Flush(r.frames, r.current)
  }

  /** The frames read from a file's lines. */
  function Parse(lines: seq<string>): seq<string>
  {
    Finish(Feed(Start, lines))
  }

  /** Feeding two pieces is feeding their concatenation. */
  lemma {:induction false} FeedAppend(r: Reader, a: seq<string>, b: seq<string>)
    ensures Feed(r, a + b) == Feed(Feed(r, a), b)
    decreases |a|
  {
    if |a| > 0 {
      assert (a + b)[0] == a[0];
      assert (a + b)[1..] == a[1..] + b;
      FeedAppend(Step(r, a[0]), a[1..], b);
    } else {
      assert a + b == b;
    }
  }

  /**
   * The loop of `play_ascii_video` that loads the store: one pass over the
   * lines with a mutable frame list and accumulator, and a final flush.
   */
  method LoadFrames(lines: seq<string>) returns (frames: seq<string>)
    ensures frames == Parse(lines)
    ensures forall i :: 0 <= i < |frames| ==> |frames[i]| > 0 && frames[i][|frames[i]| - 1] == '\n'
  {
    frames := [];
    var current := "";
    for i := 0 to |lines|
      invariant Feed(Reader(frames, current), lines[i..]) == Feed(Start, lines)
      invariant WellFormed(Reader(frames, current))
    {
      assert lines[i..][1..] == lines[i + 1..];
      if lines[i] == Marker {
        if current != "" {
          frames := frames + [current];
          current := "";
        }
      } else {
        current := current + lines[i] + "\n";
      }
    }
    if current != "" {
      frames := frames + [current];
    }
  }

  // ------------------------------------------------------------ properties

  /** Every completed frame is non-empty and ends with a line break, and so does a non-empty accumulator. */
  predicate WellFormed(r: Reader) {
    && (forall i :: 0 <= i < |r.frames| ==> |r.frames[i]| > 0 && r.frames[i][|r.frames[i]| - 1] == '\n')
    && (r.current == "" || r.current[|r.current| - 1] == '\n')
  }

  lemma {:induction false} FeedWellFormed(r: Reader, lines: seq<string>)
    requires WellFormed(r)
    ensures WellFormed(Feed(r, lines))
    decreases |lines|
  {
    if |lines| > 0 {
      FeedWellFormed(Step(r, lines[0]), lines[1..]);
    }
  }

  /** Every frame read from any file is non-empty and ends with a line break. */
  lemma ParseWellFormed(lines: seq<string>)
    ensures forall i :: 0 <= i < |Parse(lines)| ==>
              |Parse(lines)[i]| > 0 && Parse(lines)[i][|Parse(lines)[i]| - 1] == '\n'
  {
    FeedWellFormed(Start, lines);
  }

  /** A file without lines holds no frame. */
  lemma ParseEmpty()
    ensures Parse([]) == []
  {
  }

  /** A run of non-marker lines only extends the accumulator, one line and break at a time. */
  lemma {:induction false} FeedContent(r: Reader, run: seq<string>)
    requires Marker !in run
    ensures Feed(r, run) == Reader(r.frames, r.current + Join(run))
    decreases |run|
  {
    if |run| > 0 {
      FeedContent(Step(r, run[0]), run[1..]);
    }
  }

  /** A file without marker lines is one frame holding all its lines, or no frame when it is empty. */
  lemma ParseContent(run: seq<string>)
    requires Marker !in run
    ensures Parse(run) == if run == [] then [] else [Join(run)]
  {
    FeedContent(Start, run);
    assert "" + Join(run) == Join(run);
    if run != [] {
      JoinEndsWithBreak(run);
    }
  }

  /**
   * Content lines before the first marker form a frame of their own, and the
   * rest of the file is read as if it stood alone.
   */
  lemma LeadingContent(run: seq<string>, rest: seq<string>)
    requires Marker !in run && |run| > 0
    ensures Parse(run + [Marker] + rest) == [Join(run)] + Parse(rest)
  {
    var text := Join(run);
    FeedAppend(Start, run + [Marker], rest);
    FeedAppend(Start, run, [Marker]);
    FeedContent(Start, run);
    assert Feed(Start, run) == Reader([], text);
    JoinEndsWithBreak(run);
    assert Step(Reader([], text), Marker) == Reader([text], "");
    assert Feed(Start, run + [Marker]) == Reader([text], "");
    FeedPrefix(Reader([text], ""), rest);
  }

  /** Frames completed before a fold starts stay in front of everything it produces. */
  lemma {:induction false} FeedPrefix(r: Reader, lines: seq<string>)
    ensures Finish(Feed(r, lines)) == r.frames + Finish(Feed(Reader([], r.current), lines))
    decreases |lines|
  {
    if |lines| > 0 {
      var l := lines[0];
      var s := Step(r, l);
      var s0 := Step(Reader([], r.current), l);
      FeedPrefix(s, lines[1..]);
      FeedPrefix(s0, lines[1..]);
      assert s.frames == r.frames + s0.frames;
    }
  }

  /** A marker read while nothing is accumulated changes nothing: leading and repeated markers yield no frame. */
  lemma MarkerOnEmpty(a: seq<string>, b: seq<string>)
    ensures Parse([Marker] + b) == Parse(b)
    ensures Parse(a + [Marker, Marker] + b) == Parse(a + [Marker] + b)
  {
    assert ([Marker] + b)[1..] == b;
    FeedAppend(Start, a + [Marker], [Marker] + b);
    FeedAppend(Start, a, [Marker]);
    assert a + [Marker, Marker] + b == (a + [Marker]) + ([Marker] + b);
    FeedAppend(Start, a + [Marker], b);
  }

  /** A marker at the very end of the file adds no frame. */
  lemma TrailingMarker(lines: seq<string>)
    ensures Parse(lines + [Marker]) == Parse(lines)
  {
    FeedAppend(Start, lines, [Marker]);
  }
}
