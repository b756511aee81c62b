/**
 * Conversion followed by playback loading: rasterised frames written to the
 * store and read back come back in the same number and order, each with one
 * extra line break, because the blank separator line is read as part of the
 * frame it follows.
 */
module RoundTrip {
  import opened Pixels
  import opened Glyph
  import opened Lines
  import opened Raster
  import opened FrameStore

  /** Every image is a well-formed grid. */
  predicate AllValid(imgs: seq<Image>) {
    forall i :: 0 <= i < |imgs| ==> imgs[i].Valid()
  }

  /** The text frame of each image, in decode order. */
  function Frames(imgs: seq<Image>): seq<string>
    requires AllValid(imgs)
  {
    seq(|imgs|, i requires 0 <= i < |imgs| => Rasterise(imgs[i]))
  }

  /** The store file the conversion writes for a sequence of resized frames. */
  function WriteStore(imgs: seq<Image>): string
    requires AllValid(imgs)
  {
    Serialize(Frames(imgs))
  }

  /** The frames playback loads from a store file. */
  function LoadStore(file: string): seq<string>
  {
    Parse(SplitLines(file))
  }

  /** Each text with the separator's line break the reader keeps. */
  function WithSeparator(texts: seq<string>): seq<string>
  {
    seq(|texts|, i requires 0 <= i < |texts| => texts[i] + "\n")
  }

  /** Rows a store can carry through unchanged: plain lines that are not the marker. */
  predicate StorableRows(frames: seq<seq<string>>) {
    forall i, j :: 0 <= i < |frames| && 0 <= j < |frames[i]| ==>
      Plain(frames[i][j]) && frames[i][j] != Marker
  }

  /** Reading the lines of a store yields each frame's text plus one break, in order. */
  lemma {:induction false} ParseStore(frames: seq<seq<string>>)
    requires StorableRows(frames)
    ensures Parse(StoreLines(frames)) == WithSeparator(Texts(frames))
    decreases |frames|
  {
    if |frames| > 0 {
      var record := frames[0] + [""];
      var rest := StoreLines(frames[1..]);
      assert StoreLines(frames) == [Marker] + (record + rest);
      MarkerOnEmpty([], record + rest);
      assert [] + [Marker] + (record + rest) == [Marker] + (record + rest);
      RecordMarkerFree(frames);
      StorableTail(frames);
      ParseStore(frames[1..]);
      JoinAppend(frames[0], [""]);
      assert Join(record) == Join(frames[0]) + "\n";
      if |frames| == 1 {
        assert record + rest == record;
        ParseContent(record);
      } else {
        var after := StoreLines(frames[2..]);
        assert rest == [Marker] + (frames[1] + [""] + after);
        MarkerOnEmpty([], frames[1] + [""] + after);
        assert [] + [Marker] + (frames[1] + [""] + after) == rest;
        assert record + rest == record + [Marker] + (frames[1] + [""] + after);
        LeadingContent(record, frames[1] + [""] + after);
      }
      assert WithSeparator(Texts(frames)) == [Join(frames[0]) + "\n"] + WithSeparator(Texts(frames[1..]));
    }
  }

  /** The first frame's rows and the blank separator contain no marker line. */
  lemma RecordMarkerFree(frames: seq<seq<string>>)
    requires StorableRows(frames) && |frames| > 0
    ensures Marker !in frames[0] + [""]
  {
    forall j | 0 <= j < |frames[0]| ensures frames[0][j] != Marker {
    }
  }

  /** The frames after the first are storable too. */
  lemma StorableTail(frames: seq<seq<string>>)
    requires StorableRows(frames) && |frames| > 0
    ensures StorableRows(frames[1..])
  {
    forall i, j | 0 <= i < |frames[1..]| && 0 <= j < |frames[1..][i]|
      ensures Plain(frames[1..][i][j]) && frames[1..][i][j] != Marker
    {
      assert frames[1..][i] == frames[i + 1];
    }
  }

  /** The line sequence of a store holds only plain lines when the rows are plain. */
  lemma {:induction false} StoreLinesPlain(frames: seq<seq<string>>)
    requires StorableRows(frames)
    ensures forall k :: 0 <= k < |StoreLines(frames)| ==> Plain(StoreLines(frames)[k])
    decreases |frames|
  {
    if |frames| > 0 {
      StorableTail(frames);
      StoreLinesPlain(frames[1..]);
      var ls := StoreLines(frames);
      var rest := StoreLines(frames[1..]);
      assert ls == [Marker] + frames[0] + [""] + rest;
      forall k | 0 <= k < |ls| ensures Plain(ls[k]) {
        if 1 <= k <= |frames[0]| {
          assert ls[k] == frames[0][k - 1];
        } else if k > |frames[0]| + 1 {
          assert ls[k] == rest[k - |frames[0]| - 2];
        }
      }
    }
  }

  /**
   * Writing frames whose rows are plain, non-marker lines and reading the
   * file back gives, in order, the lines marker, rows, blank for each frame.
   */
  lemma WrittenLines(frames: seq<seq<string>>)
    requires StorableRows(frames)
    ensures SplitLines(Serialize(Texts(frames))) == StoreLines(frames)
  {
    SerializeLines(frames);
    StoreLinesPlain(frames);
    SplitJoin(StoreLines(frames));
  }

  /** Store round trip for frames given by rows: same count and order, one extra break each. */
  lemma ReadWrittenRows(frames: seq<seq<string>>)
    requires StorableRows(frames)
    ensures LoadStore(Serialize(Texts(frames))) == WithSeparator(Texts(frames))
  {
    WrittenLines(frames);
    ParseStore(frames);
  }

  /** A glyph row is never the marker and never holds a break or carriage return. */
  lemma GlyphRowStorable(row: string)
    requires GlyphRow(row)
    ensures Plain(row) && row != Marker
  {
    if |row| > 0 {
      assert IsGlyph(row[|row| - 1]);
    }
  }

  /**
   * The conversion/playback round trip: loading the store written for `n`
   * frames yields exactly `n` frames, frame `i` being the text of image `i`
   * followed by one extra line break; so it is never the identity on a
   * non-empty video. A zero-row frame comes back as a single line break.
   */
  lemma StoreRoundTrip(imgs: seq<Image>)
    requires AllValid(imgs)
    ensures |LoadStore(WriteStore(imgs))| == |imgs|
    ensures forall i :: 0 <= i < |imgs| ==> LoadStore(WriteStore(imgs))[i] == Rasterise(imgs[i]) + "\n"
    ensures |imgs| > 0 ==> LoadStore(WriteStore(imgs)) != Frames(imgs)
  {
    var frames := seq(|imgs|, i requires 0 <= i < |imgs| => Rows(imgs[i]));
    assert Texts(frames) == Frames(imgs);
    assert StorableRows(frames) by {
      forall i, j | 0 <= i < |frames| && 0 <= j < |frames[i]|
        ensures Plain(frames[i][j]) && frames[i][j] != Marker
      {
        RowsAreGlyphRows(imgs[i]);
        GlyphRowStorable(frames[i][j]);
      }
    }
    ReadWrittenRows(frames);
    if |imgs| > 0 {
      assert |LoadStore(WriteStore(imgs))[0]| != |Frames(imgs)[0]|;
    }
  }

  /** A frame with no pixel rows is written as the empty text and read back as a single line break. */
  lemma ZeroRowFrame(img: Image)
    requires img.Valid() && img.height == 0
    ensures LoadStore(WriteStore([img])) == ["\n"]
  {
    StoreRoundTrip([img]);
    assert Rows(img) == [];
    assert Rasterise(img) == "";
    var loaded := LoadStore(WriteStore([img]));
    assert |loaded| == 1 && loaded[0] == "" + "\n";
    assert loaded[0] == "\n";
    assert loaded == [loaded[0]];
  }
}
