/**
 * A second, independent reading of the store: cut the lines at every marker
 * into runs (as a string split would), drop the empty runs, and join each
 * remaining run. The reader's fold is proved to agree with it, which yields
 * its count bound, its marker-freedom and its content preservation.
 */
module FrameRuns {
  import opened Lines
  import opened FrameStore

  /** The runs of lines between markers, first to last; `k` markers give `k + 1` runs. */
  function Runs(lines: seq<string>): (runs: seq<seq<string>>)
    ensures |runs| > 0
  {
    if |lines| == 0 then [[]]
    else
      var rest := Runs(lines[1..]);
      if lines[0] == Marker then [[]] + rest
      else [[lines[0]] + rest[0]] + rest[1..]
  }

  /** The runs that hold at least one line. */
  function NonEmpty(runs: seq<seq<string>>): (kept: seq<seq<string>>)
    ensures |kept| <= |runs|
    ensures forall i :: 0 <= i < |kept| ==> kept[i] != []
  {
    if |runs| == 0 then []
    else (if runs[0] == [] then [] else [runs[0]]) + NonEmpty(runs[1..])
  }

  /** Dropping empty runs invents nothing: every kept run is one of the given runs. */
  lemma {:induction false} NonEmptyKept(runs: seq<seq<string>>)
    ensures forall i :: 0 <= i < |NonEmpty(runs)| ==> NonEmpty(runs)[i] in runs
  {
    if |runs| > 0 {
      NonEmptyKept(runs[1..]);
      var head := if runs[0] == [] then [] else [runs[0]];
      var tail := NonEmpty(runs[1..]);
      assert NonEmpty(runs) == head + tail;
      forall i | 0 <= i < |NonEmpty(runs)|
        ensures NonEmpty(runs)[i] in runs
      {
        if i < |head| {
          assert NonEmpty(runs)[i] == runs[0];
        } else {
          assert NonEmpty(runs)[i] == tail[i - |head|];
          assert tail[i - |head|] in runs[1..];
          assert runs == [runs[0]] + runs[1..];
        }
      }
    }
  }

  /** Dropping empty runs keeps every kept run free of markers when all runs were. */
  lemma {:induction false} NonEmptyMarkerFree(runs: seq<seq<string>>)
    requires forall i :: 0 <= i < |runs| ==> Marker !in runs[i]
    ensures forall i :: 0 <= i < |NonEmpty(runs)| ==> Marker !in NonEmpty(runs)[i]
  {
    if |runs| > 0 {
      NonEmptyMarkerFree(runs[1..]);
      var head := if runs[0] == [] then [] else [runs[0]];
      assert NonEmpty(runs) == head + NonEmpty(runs[1..]);
    }
  }

  /** The frames the reference reading yields. */
  function Reference(lines: seq<string>): seq<string>
  {
    Texts(NonEmpty(Runs(lines)))
  }

  /** Number of marker lines. */
  function MarkerCount(lines: seq<string>): nat
  {
    if |lines| == 0 then 0 else (if lines[0] == Marker then 1 else 0) + MarkerCount(lines[1..])
  }

  /** The lines that are not markers, in order. */
  function Content(lines: seq<string>): seq<string>
  {
    if |lines| == 0 then []
    else (if lines[0] == Marker then [] else [lines[0]]) + Content(lines[1..])
  }

  /** All runs laid end to end. */
  function Flatten(runs: seq<seq<string>>): seq<string>
  {
    if |runs| == 0 then [] else runs[0] + Flatten(runs[1..])
  }

  /** All texts laid end to end. */
  function Concat(texts: seq<string>): string
  {
    if |texts| == 0 then "" else texts[0] + Concat(texts[1..])
  }

  // ------------------------------------------------------------ runs

  lemma {:induction false} RunsCount(lines: seq<string>)
    ensures |Runs(lines)| == MarkerCount(lines) + 1
  {
    if |lines| > 0 {
      RunsCount(lines[1..]);
    }
  }

  lemma {:induction false} RunsMarkerFree(lines: seq<string>)
    ensures forall i :: 0 <= i < |Runs(lines)| ==> Marker !in Runs(lines)[i]
  {
    if |lines| > 0 {
      RunsMarkerFree(lines[1..]);
    }
  }

  lemma {:induction false} RunsFlatten(lines: seq<string>)
    ensures Flatten(Runs(lines)) == Content(lines)
  {
    if |lines| > 0 {
      var rest := Runs(lines[1..]);
      RunsFlatten(lines[1..]);
      assert Flatten(rest) == rest[0] + Flatten(rest[1..]);
      if lines[0] == Marker {
        assert Flatten([[]] + rest) == [] + Flatten(rest);
      } else {
        var runs := Runs(lines);
        assert runs[1..] == rest[1..];
        assert Flatten(runs) == [lines[0]] + rest[0] + Flatten(rest[1..]);
      }
    }
  }

  // ------------------------------------------------------------ joining runs

  lemma TextsAppend(a: seq<seq<string>>, b: seq<seq<string>>)
    ensures Texts(a + b) == Texts(a) + Texts(b)
  {
  }

  /** Position of the first marker line, or `|lines|` when there is none. */
  function FirstMarker(lines: seq<string>): (k: nat)
    ensures k <= |lines|
    ensures forall j :: 0 <= j < k ==> lines[j] != Marker
    ensures k < |lines| ==> lines[k] == Marker
  {
    if |lines| == 0 || lines[0] == Marker then 0 else 1 + FirstMarker(lines[1..])
  }

  /** Marker-free lines form a single run. */
  lemma {:induction false} RunsOfContent(run: seq<string>)
    requires Marker !in run
    ensures Runs(run) == [run]
  {
    if |run| > 0 {
      RunsOfContent(run[1..]);
      assert [run[0]] + run[1..] == run;
    }
  }

  /** Lines up to the first marker form the first run; the runs of the rest follow. */
  lemma {:induction false} RunsOfBlock(run: seq<string>, rest: seq<string>)
    requires Marker !in run
    ensures Runs(run + [Marker] + rest) == [run] + Runs(rest)
  {
    if |run| == 0 {
      assert run + [Marker] + rest == [Marker] + rest;
      assert ([Marker] + rest)[1..] == rest;
    } else {
      var lines := run + [Marker] + rest;
      assert lines[1..] == run[1..] + [Marker] + rest;
      RunsOfBlock(run[1..], rest);
      assert [run[0]] + run[1..] == run;
    }
  }

  /** Non-empty runs of a run followed by more runs. */
  lemma NonEmptyCons(run: seq<string>, runs: seq<seq<string>>)
    ensures NonEmpty([run] + runs) == (if run == [] then [] else [run]) + NonEmpty(runs)
  {
    assert ([run] + runs)[1..] == runs;
  }

  /** The reader's fold and the reference reading agree on every file. */
  lemma {:induction false} ParseIsReference(lines: seq<string>)
    ensures Parse(lines) == Reference(lines)
    decreases |lines|
  {
    var k := FirstMarker(lines);
    var run := lines[..k];
    if k == |lines| {
      assert run == lines;
      RunsOfContent(lines);
      ParseContent(lines);
      NonEmptyCons(lines, []);
    } else {
      var rest := lines[k + 1..];
      assert lines == run + [Marker] + rest;
      ParseIsReference(rest);
      ParseBlock(run, rest);
    }
  }

  /** The step of `ParseIsReference`: a marker-free block and a marker in front of a file both readings agree on. */
  lemma ParseBlock(run: seq<string>, rest: seq<string>)
    requires Marker !in run
    requires Parse(rest) == Reference(rest)
    ensures Parse(run + [Marker] + rest) == Reference(run + [Marker] + rest)
  {
    var head: seq<seq<string>> := if run == [] then [] else [run];
    RunsOfBlock(run, rest);
    NonEmptyCons(run, Runs(rest));
    TextsAppend(head, NonEmpty(Runs(rest)));
    assert Reference(run + [Marker] + rest) == Texts(head) + Reference(rest);
    if run == [] {
      assert run + [Marker] + rest == [Marker] + rest;
      MarkerOnEmpty([], rest);
    } else {
      LeadingContent(run, rest);
    }
  }

  // ------------------------------------------------------------ consequences

  /** At most one frame more than there are marker lines. */
  lemma ParseCount(lines: seq<string>)
    ensures |Parse(lines)| <= MarkerCount(lines) + 1
  {
    ParseIsReference(lines);
    RunsCount(lines);
  }

  /**
   * Frame `i` is the join of a non-empty run of lines none of which is a
   * marker, so no frame carries a marker line.
   */
  lemma ParseFramesAreRuns(lines: seq<string>)
    ensures |NonEmpty(Runs(lines))| == |Parse(lines)|
    ensures forall i :: 0 <= i < |Parse(lines)| ==>
              && NonEmpty(Runs(lines))[i] != []
              && Marker !in NonEmpty(Runs(lines))[i]
              && Parse(lines)[i] == Join(NonEmpty(Runs(lines))[i])
  {
    ParseIsReference(lines);
    RunsMarkerFree(lines);
    NonEmptyMarkerFree(Runs(lines));
  }

  lemma {:induction false} ConcatTexts(runs: seq<seq<string>>)
    ensures Concat(Texts(runs)) == Join(Flatten(runs))
  {
    if |runs| > 0 {
      assert Texts(runs)[1..] == Texts(runs[1..]);
      ConcatTexts(runs[1..]);
      JoinAppend(runs[0], Flatten(runs[1..]));
    }
  }

  lemma {:induction false} ConcatNonEmpty(runs: seq<seq<string>>)
    ensures Concat(Texts(NonEmpty(runs))) == Concat(Texts(runs))
  {
    if |runs| > 0 {
      var head := if runs[0] == [] then [] else [runs[0]];
      ConcatNonEmpty(runs[1..]);
      TextsAppend(head, NonEmpty(runs[1..]));
      ConcatAppend(Texts(head), Texts(NonEmpty(runs[1..])));
      assert Texts(runs)[1..] == Texts(runs[1..]);
    }
  }

  lemma {:induction false} ConcatAppend(a: seq<string>, b: seq<string>)
    ensures Concat(a + b) == Concat(a) + Concat(b)
  {
    if |a| == 0 {
      assert a + b == b;
    } else {
      assert (a + b)[1..] == a[1..] + b;
      ConcatAppend(a[1..], b);
    }
  }

  /**
   * Nothing is lost or invented: the frames laid end to end are exactly the
   * non-marker lines of the file, in order, each followed by a line break.
   */
  lemma ParseKeepsContent(lines: seq<string>)
    ensures Concat(Parse(lines)) == Join(Content(lines))
  {
    ParseIsReference(lines);
    ConcatNonEmpty(Runs(lines));
    ConcatTexts(Runs(lines));
    RunsFlatten(lines);
  }
}
