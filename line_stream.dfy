/**
 * An input file stream read with `std::getline(file, line)`. The file is
 * its text; the stream keeps a read position and whether it is still good,
 * and `line` is the caller's string variable, which survives between calls.
 */
module LineStream {

  datatype Source = Source(text: string, pos: nat, good: bool, line: string)

  predicate NoNewline(s: string) { forall k :: 0 <= k < |s| ==> s[k] != '\n' }

  /** A stream just opened on `text`, with `line` still empty. */
  function Open(text: string): Source
  {
    Source(text, 0, true, "")
  }

  /**
   * The characters `getline` extracts from position i on: every one up to
   * the next '\n', or to the end of s when there is none.
   */
  function LineFrom(s: string, i: nat): (l: string)
    requires i <= |s|
    ensures i + |l| <= |s|
    decreases |s| - i
  {
    if i == |s| || s[i] == '\n' then "" else [s[i]] + LineFrom(s, i + 1)
  }

  /** When s[i..j] holds no '\n' and a '\n' or the end of s follows it, that stretch is the extracted line. */
  lemma {:induction false} LineFromUpTo(s: string, i: nat, j: nat)
    requires i <= j <= |s| && NoNewline(s[i..j]) && (j == |s| || s[j] == '\n')
    ensures LineFrom(s, i) == s[i..j]
    decreases j - i
  {
    if i < j {
      assert s[i] == s[i..j][0];
      var t := s[i + 1..j];
      forall k | 0 <= k < |t| ensures t[k] != '\n' {
        assert t[k] == s[i..j][k + 1];
      }
      LineFromUpTo(s, i + 1, j);
      assert s[i..j] == [s[i]] + s[i + 1..j];
    }
  }

  /**
   * `getline(file, line)`. A stream that is no longer good fails at once and
   * leaves `line` as it was (the sentry fails before the string is erased).
   * Otherwise `line` is erased and receives the characters up to the next
   * '\n', which is consumed; when the text ends first, the stream is no
   * longer good (eofbit, plus failbit if nothing was read).
   */
  function GetLine(f: Source): (g: Source)
    requires f.pos <= |f.text|
    ensures g.text == f.text && f.pos <= g.pos <= |g.text|
  {
    if !f.good then f
    else if f.pos == |f.text| then f.(good := false, line := "")
    else
      var l := LineFrom(f.text, f.pos);
      var j := f.pos + |l|;
      if j < |f.text| then f.(pos := j + 1, line := l)
      else f.(pos := j, good := false, line := l)
  }

  /** The stream after n calls of `getline` on a file with contents `text`. */
  function GetLines(text: string, n: nat): (f: Source)
    ensures f.text == text && f.pos <= |text|
    decreases n, text
  {
    if n == 0 then Open(text) else GetLine(GetLines(text, n - 1))
  }

  /** The text of the lines ls, each followed by '\n'. */
  function LinesText(ls: seq<string>): string
  {
    if ls == [] then "" else LinesText(ls[..|ls| - 1]) + ls[|ls| - 1] + "\n"
  }

  /** The line a call of `getline` reads when the file is ls, each terminated, then tail with no '\n'. */
  function LineAt(ls: seq<string>, tail: string, n: nat): string
  {
    if n < |ls| then ls[n] else tail
  }

  lemma {:induction false} LinesTextAppend(a: seq<string>, b: seq<string>)
    ensures LinesText(a + b) == LinesText(a) + LinesText(b)
    decreases |b|
  {
    if b != [] {
      var b' := b[..|b| - 1];
      assert (a + b)[..|a + b| - 1] == a + b';
      LinesTextAppend(a, b');
    } else {
      assert a + b == a;
    }
  }

  /**
   * The n-th `getline` (from 0) on a file made of the terminated lines ls
   * and a final unterminated tail reads ls[n]; once the lines run out, every
   * further call yields tail: an empty tail gives "", and a non-empty tail,
   * read up to the end of the file, is kept in `line` by all later calls.
   */
  lemma {:induction false} GetLinesOf(ls: seq<string>, tail: string, n: nat)
    requires forall i :: 0 <= i < |ls| ==> NoNewline(ls[i])
    requires NoNewline(tail)
    ensures GetLines(LinesText(ls) + tail, n + 1).line == LineAt(ls, tail, n)
  {
    if n < |ls| {
      GetLineOfWithin(ls, tail, n);
    } else {
      GetLineOfBeyond(ls, tail, n);
    }
  }

  lemma {:induction false} GetLineOfWithin(ls: seq<string>, tail: string, n: nat)
    requires forall i :: 0 <= i < |ls| ==> NoNewline(ls[i])
    requires n < |ls|
    ensures GetLines(LinesText(ls) + tail, n + 1).line == ls[n]
  {
    GetLinesWithin(ls, tail, n + 1);
  }

  lemma {:induction false} GetLineOfBeyond(ls: seq<string>, tail: string, n: nat)
    requires forall i :: 0 <= i < |ls| ==> NoNewline(ls[i])
    requires NoNewline(tail)
    requires n >= |ls|
    ensures GetLines(LinesText(ls) + tail, n + 1).line == tail
  {
    GetLinesBeyond(ls, tail, n + 1);
  }

  /** One `getline` on a good stream positioned just before a line l that is terminated by '\n'. */
  lemma {:induction false} GetLineTerminated(f: Source, before: string, l: string, rest: string)
    requires f.good && f.text == before + l + "\n" + rest && f.pos == |before| && NoNewline(l)
    ensures GetLine(f) == f.(pos := |before| + |l| + 1, line := l)
  {
    var p := |before|;
    assert f.text[p..p + |l|] == l;
    assert f.text[p + |l|] == '\n';
    LineFromUpTo(f.text, p, p + |l|);
  }

  /** One `getline` on a good stream positioned at a last line that has no '\n'. */
  lemma {:induction false} GetLineUnterminated(f: Source)
    requires f.good && f.pos <= |f.text| && NoNewline(f.text[f.pos..])
    ensures GetLine(f) == f.(pos := |f.text|, good := false, line := f.text[f.pos..])
  {
    assert f.text[f.pos..|f.text|] == f.text[f.pos..];
    LineFromUpTo(f.text, f.pos, |f.text|);
  }

  lemma {:induction false} LinesTextSnoc(ls: seq<string>, n: nat)
    requires n < |ls|
    ensures LinesText(ls[..n + 1]) == LinesText(ls[..n]) + ls[n] + "\n"
  {
    assert ls[..n + 1][..n] == ls[..n];
  }

  /** Line n - 1 of ls as it sits in the text of ls. */
  lemma {:induction false} LinesTextAt(ls: seq<string>, n: nat, tail: string)
    requires 0 < n <= |ls|
    ensures |LinesText(ls[..n])| == |LinesText(ls[..n - 1])| + |ls[n - 1]| + 1
    ensures LinesText(ls) + tail == LinesText(ls[..n - 1]) + ls[n - 1] + "\n" + (LinesText(ls[n..]) + tail)
  {
    assert ls[..n][..n - 1] == ls[..n - 1];
    assert ls == ls[..n] + ls[n..];
    LinesTextAppend(ls[..n], ls[n..]);
  }

  /** The n-th `getline`, from a good stream positioned before a terminated line l. */
  lemma {:induction false} GetLinesStep(text: string, before: string, l: string, rest: string, n: nat, previous: string)
    requires n > 0 && text == before + l + "\n" + rest && NoNewline(l)
    requires GetLines(text, n - 1) == Source(text, |before|, true, previous)
    ensures GetLines(text, n) == Source(text, |before| + |l| + 1, true, l)
  {
    GetLineTerminated(GetLines(text, n - 1), before, l, rest);
  }

  lemma {:induction false} GetLinesWithin(ls: seq<string>, tail: string, n: nat)
    requires forall i :: 0 <= i < |ls| ==> NoNewline(ls[i])
    requires n <= |ls|
    ensures GetLines(LinesText(ls) + tail, n)
         == Source(LinesText(ls) + tail, |LinesText(ls[..n])|, true, if n == 0 then "" else ls[n - 1])
  {
    if n > 0 {
      GetLinesWithin(ls, tail, n - 1);
      LinesTextAt(ls, n, tail);
      GetLinesStep(LinesText(ls) + tail, LinesText(ls[..n - 1]), ls[n - 1], LinesText(ls[n..]) + tail, n,
                   if n == 1 then "" else ls[n - 2]);
    }
  }

  lemma {:induction false} GetLinesBeyond(ls: seq<string>, tail: string, n: nat)
    requires forall i :: 0 <= i < |ls| ==> NoNewline(ls[i])
    requires NoNewline(tail)
    requires n > |ls|
    ensures GetLines(LinesText(ls) + tail, n) == Source(LinesText(ls) + tail, |LinesText(ls) + tail|, false, tail)
    decreases n
  {
    var text := LinesText(ls) + tail;
    if n == |ls| + 1 {
      GetLinesWithin(ls, tail, |ls|);
      assert ls[..|ls|] == ls;
      var p := |LinesText(ls)|;
      assert text[p..] == tail;
      if tail != [] {
        GetLineUnterminated(GetLines(text, |ls|));
      }
    } else {
      GetLinesBeyond(ls, tail, n - 1);
    }
  }
}
