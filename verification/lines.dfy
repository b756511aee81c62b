/**
 * Line-oriented text: what a sequence of `writeln!` calls produces, and how
 * `BufRead::lines` cuts a file back into lines (the line break is dropped, and
 * a carriage return just before it is dropped too).
 */
module Lines {

  /** Each line followed by its line break. */
  function Join(lines: seq<string>): (s: string)
  {
    if |lines| == 0 then "" else lines[0] + "\n" + Join(lines[1..])
  }

  /** Joining distributes over concatenation of the line sequences. */
  lemma {:induction false} JoinAppend(a: seq<string>, b: seq<string>)
    ensures Join(a + b) == Join(a) + Join(b)
  {
    if |a| == 0 {
      assert a + b == b;
    } else {
      assert (a + b)[1..] == a[1..] + b;
      JoinAppend(a[1..], b);
    }
  }

  /** Joining a non-empty sequence yields non-empty text ending in a line break. */
  lemma {:induction false} JoinEndsWithBreak(lines: seq<string>)
    requires |lines| > 0
    ensures |Join(lines)| > 0 && Join(lines)[|Join(lines)| - 1] == '\n'
  {
    if |lines| > 1 {
      JoinEndsWithBreak(lines[1..]);
    }
  }

  /** A line a reader hands back unchanged: no line break, no trailing carriage return. */
  predicate Plain(line: string) {
    && '\n' !in line
    && (|line| == 0 || line[|line| - 1] != '\r')
  }

  /** Position of the first line break in `s`, or `|s|` when there is none. */
  function LineEnd(s: string): (i: nat)
    ensures i <= |s|
    ensures forall j :: 0 <= j < i ==> s[j] != '\n'
    ensures i < |s| ==> s[i] == '\n'
  {
    if |s| == 0 || s[0] == '\n' then 0 else 1 + LineEnd(s[1..])
  }

  /** Drops one carriage return at the end of a line whose line break was just removed. */
  function TrimCarriageReturn(line: string): (t: string)
    ensures line == t || line == t + "\r"
    ensures |line| > 0 && line[|line| - 1] == '\r' ==> t + "\r" == line
  {
    if |line| > 0 && line[|line| - 1] == '\r' then line[..|line| - 1] else line
  }

  /**
   * `BufRead::lines`: a line ends at a line break, which is removed together
   * with one carriage return right before it; a final piece without a line
   * break is a line as it stands; nothing after a final line break is a line.
   */
  function SplitLines(s: string): (lines: seq<string>)
    ensures forall k :: 0 <= k < |lines| ==> '\n' !in lines[k]
    ensures |s| > 0 <==> |lines| > 0
    decreases |s|
  {
    if |s| == 0 then []
    else
      var i := LineEnd(s);
      if i == |s| then [s]
      else [TrimCarriageReturn(s[..i])] + SplitLines(s[i + 1..])
  }

  /** The first line of `line + "\n" + rest` ends right after `line`. */
  lemma LineEndAfter(line: string, rest: string)
    requires '\n' !in line
    ensures LineEnd(line + "\n" + rest) == |line|
  {
    var s := line + "\n" + rest;
    var i := LineEnd(s);
    assert s[|line|] == '\n';
  }

  /** Reading back joined plain lines gives the same lines. */
  lemma {:induction false} SplitJoin(lines: seq<string>)
    requires forall k :: 0 <= k < |lines| ==> Plain(lines[k])
    ensures SplitLines(Join(lines)) == lines
  {
    if |lines| > 0 {
      var s := Join(lines);
      LineEndAfter(lines[0], Join(lines[1..]));
      assert s[..|lines[0]|] == lines[0];
      assert s[|lines[0]| + 1..] == Join(lines[1..]);
      SplitJoin(lines[1..]);
    }
  }

  /**
   * Joining what was read back restores a text that holds no carriage return
   * and is empty or ends with a line break.
   */
  lemma {:induction false} JoinSplit(s: string)
    requires '\r' !in s
    requires |s| == 0 || s[|s| - 1] == '\n'
    ensures Join(SplitLines(s)) == s
    decreases |s|
  {
    if |s| > 0 {
      var i := LineEnd(s);
      var line, rest := s[..i], s[i + 1..];
      FirstLine(s);
      JoinSplit(rest);
      assert Join(SplitLines(s)) == line + "\n" + Join(SplitLines(rest));
    }
  }

  /** The first line of a carriage-return-free text ending in a break, and what follows it. */
  lemma FirstLine(s: string)
    requires '\r' !in s
    requires |s| > 0 && s[|s| - 1] == '\n'
    ensures LineEnd(s) < |s|
    ensures SplitLines(s) == [s[..LineEnd(s)]] + SplitLines(s[LineEnd(s) + 1..])
    ensures s == s[..LineEnd(s)] + "\n" + s[LineEnd(s) + 1..]
    ensures '\r' !in s[LineEnd(s) + 1..]
  {
    var i := LineEnd(s);
    assert s[|s| - 1] == '\n';
    var line := s[..i];
    assert '\r' !in line by {
      SliceChars(s, 0, i, '\r');
    }
    assert TrimCarriageReturn(line) == line;
    SliceChars(s, i + 1, |s|, '\r');
    CutAt(s, i);
  }

  /** A text is its part before position `i`, the character at `i`, and the rest. */
  lemma CutAt(s: string, i: nat)
    requires i < |s|
    ensures s == s[..i] + [s[i]] + s[i + 1..]
  {
  }

  /** A character absent from a text is absent from each of its slices. */
  lemma SliceChars(s: string, lo: nat, hi: nat, c: char)
    requires lo <= hi <= |s|
    requires c !in s
    ensures c !in s[lo..hi]
  {
  }

  /** Number of occurrences of `c` in `s`. */
  function Count(s: string, c: char): (n: nat)
    ensures n <= |s|
    ensures n == 0 <==> c !in s
  {
    if |s| == 0 then 0 else (if s[0] == c then 1 else 0) + Count(s[1..], c)
  }

  /** Counting distributes over concatenation. */
  lemma {:induction false} CountAppend(a: string, b: string, c: char)
    ensures Count(a + b, c) == Count(a, c) + Count(b, c)
  {
    if |a| == 0 {
      assert a + b == b;
    } else {
      assert (a + b)[1..] == a[1..] + b;
      CountAppend(a[1..], b, c);
    }
  }

  /** Joined break-free lines hold exactly one line break per line. */
  lemma {:induction false} JoinCountBreaks(lines: seq<string>)
    requires forall k :: 0 <= k < |lines| ==> '\n' !in lines[k]
    ensures Count(Join(lines), '\n') == |lines|
  {
    if |lines| > 0 {
      JoinCountBreaks(lines[1..]);
      CountAppend(lines[0] + "\n", Join(lines[1..]), '\n');
      CountAppend(lines[0], "\n", '\n');
    }
  }
}
