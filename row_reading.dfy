/**
 * Reading back a row that `toString` wrote: the `ss >> value` reads of
 * `importMaze` on a line that starts with the text of a row yield that
 * row's values, and a line that holds too few numbers does not read as a
 * row.
 */
module RowReading {
  import opened Options
  import opened IntStream
  import opened MazeFormat
  import opened MazeProperties

  /** Where the text of value j begins on the row's line: after each value before it and a space. */
  function Start(row: seq<int32>, j: nat): nat
    requires j < |row|
    decreases j
  {
    if j == 0 then 0 else Start(row, j - 1) + |Format(row[j - 1])| + 1
  }

  /** Just after the text of value j. */
  function End(row: seq<int32>, j: nat): nat
    requires j < |row|
  {
    Start(row, j) + |Format(row[j])|
  }

  /** Where the reads stand once the first k values have been read: just after value k - 1, or 0. */
  function ReadEnd(row: seq<int32>, k: nat): nat
    requires k <= |row|
  {
    if k == 0 then 0 else End(row, k - 1)
  }

  /**
   * The first k values of the row are written on line where `toString`
   * puts them: value j at Start(row, j), with a space between neighbours.
   */
  ghost predicate ValuesAt(line: string, row: seq<int32>, k: nat)
    requires k <= |row|
    decreases k
  {
    k == 0 ||
    (ValuesAt(line, row, k - 1) && WrittenAt(line, Start(row, k - 1), Format(row[k - 1])) &&
     (k > 1 ==> End(row, k - 2) < |line| && line[End(row, k - 2)] == ' '))
  }

  /** Value j of the row starts where the text of the values before it ends. */
  lemma {:induction false} StartLength(row: seq<int32>, j: nat)
    requires j < |row|
    ensures Start(row, j) == |RowUpTo(row, j)|
    decreases j
  {
    if j > 0 {
      StartLength(row, j - 1);
    }
  }

  /** The text of the row ends just after its last value. */
  lemma {:induction false} ReadEndWhole(row: seq<int32>)
    ensures ReadEnd(row, |row|) == |JoinSpaces(row)|
  {
    if |row| > 0 {
      StartLength(row, |row| - 1);
      LastValueEnd(row);
    }
  }

  /** The text of a non-empty row ends just after its last value. */
  lemma {:induction false} LastValueEnd(row: seq<int32>)
    requires |row| > 0
    ensures |JoinSpaces(row)| == |RowUpTo(row, |row| - 1)| + |Format(row[|row| - 1])|
  {
  }

  /** What is written at q as a + b is a at q, then b. */
  lemma {:induction false} WrittenSplit(s: string, q: nat, a: string, b: string)
    requires WrittenAt(s, q, a + b)
    ensures WrittenAt(s, q, a) && WrittenAt(s, q + |a|, b)
  {
    forall k | q <= k < q + |a| ensures s[k] == a[k - q] {
      assert (a + b)[k - q] == a[k - q];
    }
    forall k | q + |a| <= k < q + |a| + |b| ensures s[k] == b[k - (q + |a|)] {
      assert (a + b)[k - q] == b[k - (q + |a|)];
    }
  }

  /** What is written at the start of line as b + f + sp is b, then f at |b|, then sp's first character. */
  lemma {:induction false} PartsAt(line: string, b: string, f: string, sp: string)
    requires WrittenAt(line, 0, b + f + sp)
    ensures WrittenAt(line, 0, b) && WrittenAt(line, |b|, f)
    ensures sp != [] ==> |b| + |f| < |line| && line[|b| + |f|] == sp[0]
  {
    WrittenSplit(line, 0, b + f, sp);
    WrittenSplit(line, 0, b, f);
  }

  /**
   * The text of the first k > 0 values, written at the start of line: the
   * first k - 1 values, then value k - 1, then a space unless it is the last.
   */
  lemma {:induction false} RowTextParts(row: seq<int32>, k: nat, line: string)
    requires 0 < k <= |row| && WrittenAt(line, 0, RowUpTo(row, k))
    ensures WrittenAt(line, 0, RowUpTo(row, k - 1))
    ensures WrittenAt(line, |RowUpTo(row, k - 1)|, Format(row[k - 1]))
    ensures k < |row| ==> |RowUpTo(row, k - 1)| + |Format(row[k - 1])| < |line|
    ensures k < |row| ==> line[|RowUpTo(row, k - 1)| + |Format(row[k - 1])|] == ' '
  {
    PartsAt(line, RowUpTo(row, k - 1), Format(row[k - 1]), if k < |row| then " " else "");
  }

  /** On a line that starts with the text of the first k > 0 values, value k - 1 is written at its start. */
  lemma {:induction false} LastValueWritten(row: seq<int32>, k: nat, line: string)
    requires 0 < k <= |row| && WrittenAt(line, 0, RowUpTo(row, k))
    ensures WrittenAt(line, 0, RowUpTo(row, k - 1))
    ensures WrittenAt(line, Start(row, k - 1), Format(row[k - 1]))
  {
    RowTextParts(row, k, line);
    StartLength(row, k - 1);
    assert Start(row, k - 1) == |RowUpTo(row, k - 1)|;
  }

  /** On a line that starts with the text of the first k - 1 values, k > 1, a space follows value k - 2. */
  lemma {:induction false} SpaceWritten(row: seq<int32>, k: nat, line: string)
    requires 1 < k <= |row| && WrittenAt(line, 0, RowUpTo(row, k - 1))
    ensures End(row, k - 2) < |line| && line[End(row, k - 2)] == ' '
  {
    RowTextParts(row, k - 1, line);
    StartLength(row, k - 2);
    assert End(row, k - 2) == |RowUpTo(row, k - 2)| + |Format(row[k - 2])|;
  }

  /** A line that starts with the text of the first k values holds them where `toString` puts them. */
  lemma {:induction false} RowValuesAt(row: seq<int32>, k: nat, line: string)
    requires k <= |row| && WrittenAt(line, 0, RowUpTo(row, k))
    ensures ValuesAt(line, row, k)
    decreases k
  {
    if k > 0 {
      LastValueWritten(row, k, line);
      RowValuesAt(row, k - 1, line);
      if k > 1 {
        SpaceWritten(row, k, line);
      }
    }
  }

  /** One `ss >> value` from p, where p is q or a space just before q and n is written at q with no digit after it, reads n. */
  lemma {:induction false} ReadAt(line: string, p: nat, q: nat, n: int32)
    requires WrittenAt(line, q, Format(n)) && p <= q && (p < q ==> p + 1 == q && line[p] == ' ')
    requires NoDigitAt(line, q + |Format(n)|)
    ensures ReadInt(line, p) == Some((n, q + |Format(n)|))
  {
    ReadFormatted(line, p, q, n);
  }

  /**
   * Read k - 1, from just after value k - 2, on a line that holds the first
   * k values of the row with no digit after value k - 1, reads value k - 1;
   * no digit follows value k - 2 either.
   */
  lemma {:induction false} ReadStep(row: seq<int32>, k: nat, line: string)
    requires 0 < k <= |row| && ValuesAt(line, row, k) && NoDigitAt(line, ReadEnd(row, k))
    ensures ReadEnd(row, k - 1) <= |line|
    ensures ReadInt(line, ReadEnd(row, k - 1)) == Some((row[k - 1], ReadEnd(row, k)))
    ensures k > 1 ==> NoDigitAt(line, ReadEnd(row, k - 1))
  {
    ReadAt(line, ReadEnd(row, k - 1), Start(row, k - 1), row[k - 1]);
  }

  /** The first k values are the first k - 1 and then value k - 1. */
  lemma {:induction false} TakeLast(row: seq<int32>, k: nat)
    requires 0 < k <= |row|
    ensures row[..k - 1] + [row[k - 1]] == row[..k]
  {
  }

  /**
   * The first k reads on a line that holds the first k values of the row
   * where `toString` puts them, with no digit after value k - 1, yield those
   * k values and stop just after the k-th.
   */
  lemma {:induction false} ReadRowPrefix(row: seq<int32>, k: nat, line: string)
    requires k <= |row| && ValuesAt(line, row, k)
    requires k > 0 ==> NoDigitAt(line, ReadEnd(row, k))
    ensures ReadUpTo(line, k) == Reads(row[..k], ReadEnd(row, k), true)
    decreases k
  {
    if k > 0 {
      ValuesBefore(row, k, line);
      ReadRowPrefix(row, k - 1, line);
      ReadNext(row, k, line);
    }
  }

  /** What a line holding the first k > 0 values holds of the first k - 1. */
  lemma {:induction false} ValuesBefore(row: seq<int32>, k: nat, line: string)
    requires 0 < k <= |row| && ValuesAt(line, row, k) && NoDigitAt(line, ReadEnd(row, k))
    ensures ValuesAt(line, row, k - 1)
    ensures k - 1 > 0 ==> NoDigitAt(line, ReadEnd(row, k - 1))
  {
    ReadStep(row, k, line);
  }

  /** Once k - 1 values have been read, read k - 1 reads the next value of the row. */
  lemma {:induction false} ReadNext(row: seq<int32>, k: nat, line: string)
    requires 0 < k <= |row| && ValuesAt(line, row, k) && NoDigitAt(line, ReadEnd(row, k))
    requires ReadUpTo(line, k - 1) == Reads(row[..k - 1], ReadEnd(row, k - 1), true)
    ensures ReadUpTo(line, k) == Reads(row[..k], ReadEnd(row, k), true)
  {
    TakeLast(row, k);
    ReadStep(row, k, line);
    ReadUpToNext(line, k - 1, row[..k - 1], ReadEnd(row, k - 1), row[k - 1], ReadEnd(row, k));
  }

  /** The row's text followed by tail holds the row's values where `toString` puts them, and the text ends where tail begins. */
  lemma {:induction false} JoinedAt(row: seq<int32>, tail: string)
    ensures ValuesAt(JoinSpaces(row) + tail, row, |row|)
    ensures ReadEnd(row, |row|) == |JoinSpaces(row)|
    ensures tail != [] ==> (JoinSpaces(row) + tail)[|JoinSpaces(row)|] == tail[0]
  {
    var j := JoinSpaces(row);
    forall k | 0 <= k < |j| ensures (j + tail)[k] == j[k - 0] {
    }
    RowValuesAt(row, |row|, j + tail);
    ReadEndWhole(row);
  }

  /** A row of ZSize values, as written, reads back as those values; what follows a non-digit after them is not read. */
  lemma {:induction false} ReadRowJoined(row: seq<int32>, tail: string)
    requires |row| == ZSize
    requires tail == [] || !IsDigit(tail[0])
    ensures ReadRow(JoinSpaces(row) + tail) == Some(row)
  {
    JoinedAt(row, tail);
    ReadRowPrefix(row, ZSize, JoinSpaces(row) + tail);
    assert row[..ZSize] == row;
  }

  /** A line on which read k, for k < ZSize, fails does not read as a row. */
  lemma {:induction false} ReadRowFailsAt(line: string, k: nat)
    requires k < ZSize && ReadUpTo(line, k).good && ReadInt(line, ReadUpTo(line, k).pos).None?
    ensures ReadRow(line).None?
  {
    ReadUpToStaysFailed(line, k + 1, ZSize);
  }

  /** A row line with fewer than ZSize values (possibly none) makes the reads fail. */
  lemma {:induction false} ReadRowShort(row: seq<int32>)
    requires |row| < ZSize
    ensures ReadRow(JoinSpaces(row)).None?
  {
    var line := JoinSpaces(row);
    JoinedAt(row, []);
    assert line + [] == line;
    ReadRowPrefix(row, |row|, line);
    ReadRowFailsAt(line, |row|);
  }

  /**
   * A row line holding fewer than ZSize values, then whitespace, then a
   * token that is not a number (no digit after an optional sign) does not
   * read as a row.
   */
  lemma {:induction false} ReadRowBadToken(row: seq<int32>, gap: string, bad: string)
    requires |row| < ZSize
    requires forall i :: 0 <= i < |gap| ==> IsSpace(gap[i])
    requires bad != [] && !IsSpace(bad[0]) && !IsDigit(bad[0])
    requires bad[0] == '+' || bad[0] == '-' ==> |bad| == 1 || !IsDigit(bad[1])
    ensures ReadRow(JoinSpaces(row) + gap + bad).None?
  {
    var j := JoinSpaces(row);
    var line := j + (gap + bad);
    assert j + gap + bad == line;
    JoinedAt(row, gap + bad);
    if gap != [] {
      assert (gap + bad)[0] == gap[0];
    } else {
      assert (gap + bad)[0] == bad[0];
    }
    ReadRowPrefix(row, |row|, line);
    BadTokenAfter(j, gap, bad);
    ReadRowFailsAt(line, |row|);
  }

  /** Reading from the end of j, over whitespace gap, a token bad that is not a number fails. */
  lemma {:induction false} BadTokenAfter(j: string, gap: string, bad: string)
    requires forall i :: 0 <= i < |gap| ==> IsSpace(gap[i])
    requires bad != [] && !IsSpace(bad[0]) && !IsDigit(bad[0])
    requires bad[0] == '+' || bad[0] == '-' ==> |bad| == 1 || !IsDigit(bad[1])
    ensures ReadInt(j + (gap + bad), |j|) == None
  {
    var s := j + (gap + bad);
    var q := |j| + |gap|;
    forall k | |j| <= k < q ensures IsSpace(s[k]) {
      assert s[k] == gap[k - |j|];
    }
    assert s[q] == bad[0];
    if |bad| > 1 {
      assert s[q + 1] == bad[1];
    }
    ReadNotANumber(s, |j|, q);
  }
}
