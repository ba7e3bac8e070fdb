/**
 * Decimal integer text as a C++ stream writes it (`out << n`) and reads it
 * back (`in >> n`), for the 32-bit `int` the maze cells hold.
 */
module IntStream {
  import opened Options

  /** The C++ `int` of a maze cell: 32 bits, two's complement. */
  newtype int32 = x: int | -0x8000_0000 <= x < 0x8000_0000

  predicate IsDigit(c: char) { '0' <= c <= '9' }

  /** Whitespace as `isspace` sees it in the "C" locale: ' ', '\t', '\n', '\v', '\f', '\r'. */
  predicate IsSpace(c: char) { c == ' ' || '\t' <= c <= '\r' }

  predicate AllDigits(s: string) { forall i :: 0 <= i < |s| ==> IsDigit(s[i]) }

  function DigitChar(d: nat): (c: char)
    requires d < 10
    ensures IsDigit(c)
  {
    ('0' as int + d) as char
  }

  function DigitValue(c: char): (d: nat)
    requires IsDigit(c)
    ensures d < 10 && DigitChar(d) == c
  {
    c as int - '0' as int
  }

  /** The decimal digits of n, most significant first, with no leading zeros. */
  function Digits(n: nat): (s: string)
    ensures |s| > 0 && IsDigit(s[0]) && IsDigit(s[|s| - 1])
    decreases n
  {
    if n < 10 then [DigitChar(n)] else Digits(n / 10) + [DigitChar(n % 10)]
  }

  /** Digits writes nothing but decimal digits. */
  lemma {:induction false} DigitsAreDigits(n: nat)
    ensures AllDigits(Digits(n))
    decreases n
  {
    if n >= 10 {
      DigitsAreDigits(n / 10);
      var s := Digits(n);
      forall i | 0 <= i < |s| ensures IsDigit(s[i]) {
        if i < |s| - 1 {
          assert s[i] == Digits(n / 10)[i];
        }
      }
    }
  }

  /** The number a string of decimal digits denotes. */
  function DigitsValue(s: string): nat
    requires AllDigits(s)
  {
    if s == [] then 0 else 10 * DigitsValue(s[..|s| - 1]) + DigitValue(s[|s| - 1])
  }

  lemma {:induction false} DigitsRoundTrip(n: nat)
    ensures AllDigits(Digits(n)) && DigitsValue(Digits(n)) == n
    decreases n
  {
    var s := Digits(n);
    DigitsAreDigits(n);
    if n >= 10 {
      DigitsRoundTrip(n / 10);
      assert s[..|s| - 1] == Digits(n / 10);
    }
  }

  /** `out << n`: the decimal digits of |n|, after a '-' when n is negative. */
  function Format(n: int32): (s: string)
    ensures |s| > 0 && IsDigit(s[|s| - 1])
    ensures (s[0] == '-') == (n < 0)
    ensures n < 0 ==> |s| > 1 && IsDigit(s[1])
  {
    (if n < 0 then "-" else "") + Digits(Magnitude(n))
  }

  /** |n|, which for the smallest `int` lies outside the `int` range. */
  function Magnitude(n: int32): nat
  {
    if n < 0 then -(n as int) else n as int
  }

  /** The text of a number holds no whitespace (so no newline) and ends in a digit. */
  lemma {:induction false} FormatShape(n: int32)
    ensures forall i :: 0 <= i < |Format(n)| ==> !IsSpace(Format(n)[i]) && Format(n)[i] != '\n'
    ensures IsDigit(Format(n)[|Format(n)| - 1])
  {
    var s := Format(n);
    var d := Digits(Magnitude(n));
    DigitsAreDigits(Magnitude(n));
    forall i | 0 <= i < |s| ensures !IsSpace(s[i]) && s[i] != '\n' {
      if n < 0 && i > 0 {
        assert s[i] == d[i - 1];
      }
    }
  }

  /** The first position at or after i that does not hold whitespace. */
  function SkipSpaces(s: string, i: nat): (j: nat)
    requires i <= |s|
    ensures i <= j <= |s| && (j == |s| || !IsSpace(s[j]))
    decreases |s| - i
  {
    if i < |s| && IsSpace(s[i]) then SkipSpaces(s, i + 1) else i
  }

  /** Everything SkipSpaces passes over is whitespace. */
  lemma {:induction false} SkipSpacesSkipped(s: string, i: nat)
    requires i <= |s|
    ensures forall k :: i <= k < SkipSpaces(s, i) ==> IsSpace(s[k])
    decreases |s| - i
  {
    if i < |s| && IsSpace(s[i]) {
      SkipSpacesSkipped(s, i + 1);
    }
  }

  /**
   * The digits extraction of `in >> n`: take decimal digits from i on while
   * there are any, each one multiplying the value so far (acc) by ten and
   * adding the digit. The position after the last digit, and the value.
   */
  function ScanDigits(s: string, i: nat, acc: nat): (r: (nat, nat))
    requires i <= |s|
    ensures i <= r.0 <= |s| && (r.0 == |s| || !IsDigit(s[r.0]))
    ensures r.0 > i ==> IsDigit(s[r.0 - 1])
    decreases |s| - i
  {
    if i < |s| && IsDigit(s[i]) then ScanDigits(s, i + 1, 10 * acc + DigitValue(s[i])) else (i, acc)
  }

  predicate InInt32(v: int) { -0x8000_0000 <= v < 0x8000_0000 }

  /**
   * The last step of `in >> n`: the value read, negated after a '-', must
   * fit in an `int`, or the stream fails (C++11 sets failbit on overflow).
   * On success, the value and the position just after the digits.
   */
  function Narrow(negative: bool, magnitude: nat, end: nat): Option<(int32, nat)>
  {
    var v: int := if negative then -(magnitude as int) else magnitude;
    if InInt32(v) then Some((v as int32, end)) else None
  }

  /**
   * `in >> n` from position i, once whitespace is skipped: an optional '+'
   * or '-', then the longest run of decimal digits, of which there must be
   * at least one.
   */
  function ReadNumber(s: string, i: nat): (r: Option<(int32, nat)>)
    requires i <= |s|
    ensures r.Some? ==> i < r.value.1 <= |s| && IsDigit(s[r.value.1 - 1])
    ensures r.Some? ==> r.value.1 == |s| || !IsDigit(s[r.value.1])
    ensures i == |s| ==> r.None?
  {
    var signed := i < |s| && (s[i] == '-' || s[i] == '+');
    var start := if signed then i + 1 else i;
    var (end, magnitude) := ScanDigits(s, start, 0);
    if end == start then None else Narrow(signed && s[i] == '-', magnitude, end)
  }

  /**
   * `in >> n` on a string stream over s whose read position is p: skip
   * whitespace, then read a number. The stream fails (None) when there is
   * no digit, or when the number does not fit in an `int`. On success the
   * result is the value and the position just after its last digit.
   *
   * A stream that reached its end during a successful read has eofbit set
   * and fails its next read; here that next read starts at |s| and finds no
   * digit, which is the same outcome.
   */
  function ReadInt(s: string, p: nat): (r: Option<(int32, nat)>)
    requires p <= |s|
    ensures r.Some? ==> p < r.value.1 <= |s| && IsDigit(s[r.value.1 - 1])
    ensures r.Some? ==> r.value.1 == |s| || !IsDigit(s[r.value.1])
    ensures SkipSpaces(s, p) == |s| ==> r.None?
  {
    ReadNumber(s, SkipSpaces(s, p))
  }

  /** Skipping whitespace from p stops at q when only whitespace lies between them and s[q] is not whitespace. */
  lemma {:induction false} SkipSpacesTo(s: string, p: nat, q: nat)
    requires p <= q <= |s| && (q == |s| || !IsSpace(s[q]))
    requires forall k :: p <= k < q ==> IsSpace(s[k])
    ensures SkipSpaces(s, p) == q
    decreases q - p
  {
    if p < q {
      SkipSpacesTo(s, p + 1, q);
    }
  }

  /** Scanning a run of digits that ends at e: the digits from i to j scanned, the rest still to come. */
  lemma {:induction false} ScanDigitsPart(s: string, i: nat, j: nat)
    requires i <= j <= |s| && AllDigits(s[i..j])
    ensures ScanDigits(s, i, 0) == ScanDigits(s, j, DigitsValue(s[i..j]))
    decreases j - i
  {
    if i < j {
      var d, d' := s[i..j], s[i..j - 1];
      assert d' == d[..|d| - 1];
      forall k | 0 <= k < |d'| ensures IsDigit(d'[k]) {
        assert d'[k] == d[k];
      }
      assert s[j - 1] == d[|d| - 1];
      ScanDigitsPart(s, i, j - 1);
      assert DigitsValue(d) == 10 * DigitsValue(d') + DigitValue(s[j - 1]);
    }
  }

  /** Scanning the whole run of digits s[i..e] yields its end and the number it denotes. */
  lemma {:induction false} ScanDigitsRun(s: string, i: nat, e: nat)
    requires i <= e <= |s| && AllDigits(s[i..e])
    requires e == |s| || !IsDigit(s[e])
    ensures ScanDigits(s, i, 0) == (e, DigitsValue(s[i..e]))
  {
    ScanDigitsPart(s, i, e);
  }

  /** The text w sits in s from position q on. */
  predicate WrittenAt(s: string, q: nat, w: string)
  {
    q + |w| <= |s| && forall k :: q <= k < q + |w| ==> s[k] == w[k - q]
  }

  /** No digit sits at position e of s; the end of s counts as none. */
  predicate NoDigitAt(s: string, e: nat)
  {
    e < |s| ==> !IsDigit(s[e])
  }

  /** The digits d written at t, followed by no further digit, scan as their value. */
  lemma {:induction false} ScanDigitsOf(s: string, t: nat, d: string)
    requires AllDigits(d) && WrittenAt(s, t, d)
    requires t + |d| == |s| || !IsDigit(s[t + |d|])
    ensures ScanDigits(s, t, 0) == (t + |d|, DigitsValue(d))
  {
    assert s[t..t + |d|] == d;
    ScanDigitsRun(s, t, t + |d|);
  }

  /** An optional '+' or '-' in front of a number. */
  predicate IsSign(sign: string)
  {
    |sign| <= 1 && (sign != [] ==> sign[0] == '+' || sign[0] == '-')
  }

  predicate Negative(sign: string)
  {
    sign != [] && sign[0] == '-'
  }

  /** Where a sign and the digits d are written at q: what the sign test of `in >> n` sees, and where the digits lie. */
  lemma {:induction false} SignedDigitsAt(s: string, q: nat, sign: string, d: string)
    requires IsSign(sign) && d != [] && AllDigits(d) && WrittenAt(s, q, sign + d)
    ensures q < |s| && !IsSpace(s[q])
    ensures (if s[q] == '-' || s[q] == '+' then q + 1 else q) == q + |sign|
    ensures ((s[q] == '-' || s[q] == '+') && s[q] == '-') == Negative(sign)
    ensures WrittenAt(s, q + |sign|, d)
  {
    assert s[q + 0] == (sign + d)[0];
    forall k | 0 <= k < |d| ensures s[q + |sign| + k] == d[k] {
      assert s[q + (|sign| + k)] == (sign + d)[|sign| + k];
    }
  }

  /** Reading back what `Format` wrote, after any whitespace, gives the same number. */
  lemma {:induction false} ReadFormatted(s: string, p: nat, q: nat, n: int32)
    requires p <= q && WrittenAt(s, q, Format(n))
    requires forall k :: p <= k < q ==> IsSpace(s[k])
    requires q + |Format(n)| == |s| || !IsDigit(s[q + |Format(n)|])
    ensures ReadInt(s, p) == Some((n, q + |Format(n)|))
  {
    var m := Magnitude(n);
    var sign := if n < 0 then "-" else "";
    assert Format(n) == sign + Digits(m);
    DigitsRoundTrip(m);
    ReadSigned(s, p, q, sign, Digits(m));
  }

  /**
   * `in >> n` on whitespace, then a sign and the digits d, then no further
   * digit: the value of d, negated after '-', or a failure when that does
   * not fit in an `int`.
   */
  lemma {:induction false} ReadSigned(s: string, p: nat, q: nat, sign: string, d: string)
    requires IsSign(sign) && d != [] && AllDigits(d)
    requires p <= q && WrittenAt(s, q, sign + d)
    requires forall k :: p <= k < q ==> IsSpace(s[k])
    requires q + |sign| + |d| == |s| || !IsDigit(s[q + |sign| + |d|])
    ensures ReadInt(s, p) == Narrow(Negative(sign), DigitsValue(d), q + |sign| + |d|)
  {
    SignedDigitsAt(s, q, sign, d);
    SkipSpacesTo(s, p, q);
    ScanDigitsOf(s, q + |sign|, d);
    ReadNumberSteps(s, q, q + |sign|, q + |sign| + |d|, DigitsValue(d), Negative(sign));
  }

  /** ReadNumber in terms of its steps: where the digits start and end, their value, and the sign. */
  lemma {:induction false} ReadNumberSteps(s: string, q: nat, t: nat, e: nat, m: nat, negative: bool)
    requires q < |s| && (if s[q] == '-' || s[q] == '+' then q + 1 else q) == t
    requires ((s[q] == '-' || s[q] == '+') && s[q] == '-') == negative
    requires t < e <= |s| && ScanDigits(s, t, 0) == (e, m)
    ensures ReadNumber(s, q) == Narrow(negative, m, e)
  {
  }

  /**
   * A number outside the range of an `int` makes the read fail, as C++11
   * streams set failbit on overflow: digits d denoting more than 2^31 after
   * '-', or at least 2^31 after '+' or no sign. Leading zeros do not matter.
   */
  lemma {:induction false} ReadOutOfRange(s: string, p: nat, q: nat, sign: string, d: string)
    requires IsSign(sign) && d != [] && AllDigits(d)
    requires if Negative(sign) then DigitsValue(d) > 0x8000_0000 else DigitsValue(d) >= 0x8000_0000
    requires p <= q && WrittenAt(s, q, sign + d)
    requires forall k :: p <= k < q ==> IsSpace(s[k])
    requires q + |sign| + |d| == |s| || !IsDigit(s[q + |sign| + |d|])
    ensures ReadInt(s, p) == None
  {
    ReadSigned(s, p, q, sign, d);
  }

  /**
   * A token that does not start with a digit, after an optional sign, is
   * not a number: the read fails.
   */
  lemma {:induction false} ReadNotANumber(s: string, p: nat, q: nat)
    requires p <= q < |s| && forall k :: p <= k < q ==> IsSpace(s[k])
    requires !IsSpace(s[q]) && !IsDigit(s[q])
    requires s[q] == '+' || s[q] == '-' ==> q + 1 == |s| || !IsDigit(s[q + 1])
    ensures ReadInt(s, p) == None
  {
    SkipSpacesTo(s, p, q);
  }
}
