/** The parts of Go's `strconv` package the server uses: `Itoa` for the
    Content-Length it writes and `Atoi` for the Content-Length it reads,
    on a 64-bit platform (`int` is 64 bits wide). */
module GoStrconv {

  const MaxUint64: nat := 0xFFFF_FFFF_FFFF_FFFF
  const MaxInt64: int := 0x7FFF_FFFF_FFFF_FFFF
  const MinInt64: int := -0x8000_0000_0000_0000
  /** The first accumulator value whose multiplication by 10 overflows 64 bits. */
  const UintCutoff: nat := MaxUint64 / 10 + 1

  predicate IsDigit(c: char)
  {
    '0' <= c <= '9'
  }

  predicate AllDigits(s: string)
  {
    forall k :: 0 <= k < |s| ==> IsDigit(s[k])
  }

  function DigitValue(c: char): nat
    requires IsDigit(c)
  {
    c as int - '0' as int
  }

  function DigitChar(d: nat): char
    requires d < 10
  {
    ('0' as int + d) as char
  }

  function Pow10(k: nat): nat
  {
    if k == 0 then 1 else 10 * Pow10(k - 1)
  }

  /** The decimal value of the digits `s`, read left to right onto `acc`. */
  function Horner(s: string, acc: nat): nat
    requires AllDigits(s)
    decreases |s|
  {
    if |s| == 0 then acc else Horner(s[1..], acc * 10 + DigitValue(s[0]))
  }

  /** The decimal value of a digit string. */
  function DecimalValue(s: string): nat
    requires AllDigits(s)
  {
    Horner(s, 0)
  }

  /** `strconv.Itoa` on a non-negative number. */
  function Itoa(n: nat): (s: string)
    ensures |s| >= 1 && AllDigits(s)
    ensures s[0] == '0' ==> s == "0"
  {
    if n < 10 then [DigitChar(n)] else Itoa(n / 10) + [DigitChar(n % 10)]
  }

  /** Outcome of Go's `ParseUint(s, 10, 64)`. */
  datatype UintScan = Parsed(n: nat) | SyntaxError | RangeError

  /** The digit loop of `ParseUint`: it stops at the first non-digit with a
      syntax error and at the first digit that overflows 64 bits with a range
      error, whichever comes first. */
  function ScanUint(s: string, acc: nat): UintScan
    decreases |s|
  {
    if |s| == 0 then Parsed(acc)
    else if !IsDigit(s[0]) then SyntaxError
    else if acc >= UintCutoff then RangeError
    else if acc * 10 + DigitValue(s[0]) > MaxUint64 then RangeError
    else ScanUint(s[1..], acc * 10 + DigitValue(s[0]))
  }

  function ParseUint(s: string): UintScan
  {
    if |s| == 0 then SyntaxError else ScanUint(s, 0)
  }

  /** `s` without its leading sign, if any. */
  function Unsigned(s: string): string
  {
    if |s| > 0 && (s[0] == '+' || s[0] == '-') then s[1..] else s
  }

  predicate Negative(s: string)
  {
    |s| > 0 && s[0] == '-'
  }

  /** `strconv.ParseInt(s, 10, 0)` with its error dropped: 0 on a syntax
      error, the saturated bound on a range error. */
  function ParseInt(s: string): int
  {
    if |s| == 0 then 0
    else
      match ParseUint(Unsigned(s))
      case SyntaxError => 0
      case RangeError => if Negative(s) then MinInt64 else MaxInt64
      case Parsed(v) =>
        if !Negative(s) && v > MaxInt64 then MaxInt64
        else if Negative(s) && v > -MinInt64 then MinInt64
        else if Negative(s) then -(v as int)
        else v
  }

  /** The fast path `strconv.Atoi` takes for strings of 1 to 18 bytes. */
  function FastAtoi(s: string): int
    requires 0 < |s| < 19
  {
    var digits := Unsigned(s);
    if |digits| == 0 || !AllDigits(digits) then 0
    else if Negative(s) then -(DecimalValue(digits) as int)
    else DecimalValue(digits)
  }

  /** `strconv.Atoi` with its error dropped (`n, _ := strconv.Atoi(s)`). */
  function Atoi(s: string): (n: int)
    ensures MinInt64 <= n <= MaxInt64
  {
    if 0 < |s| < 19 then
      FastPathAgrees(s);
      FastAtoi(s)
    else ParseInt(s)
  }

  // ---------------------------------------------------------------------
  // Lemmas
  // ---------------------------------------------------------------------

  /** Appending a digit multiplies the value by ten and adds the digit. */
  lemma {:induction false} HornerSnoc(s: string, c: char, acc: nat)
    requires AllDigits(s) && IsDigit(c)
    ensures AllDigits(s + [c])
    ensures Horner(s + [c], acc) == Horner(s, acc) * 10 + DigitValue(c)
    decreases |s|
  {
    if |s| > 0 {
      assert (s + [c])[1..] == s[1..] + [c];
      HornerSnoc(s[1..], c, acc * 10 + DigitValue(s[0]));
    }
  }

  /** The value never shrinks while digits are read. */
  lemma {:induction false} HornerGrows(s: string, acc: nat)
    requires AllDigits(s)
    ensures acc <= Horner(s, acc)
    ensures |s| > 0 ==> acc * 10 + DigitValue(s[0]) <= Horner(s, acc)
    decreases |s|
  {
    if |s| > 0 {
      HornerGrows(s[1..], acc * 10 + DigitValue(s[0]));
    }
  }

  /** A value read from `k` digits stays below `(acc + 1) * 10^k`. */
  lemma {:induction false} HornerBound(s: string, acc: nat)
    requires AllDigits(s)
    ensures Horner(s, acc) < (acc + 1) * Pow10(|s|)
    decreases |s|
  {
    if |s| > 0 {
      var next := acc * 10 + DigitValue(s[0]);
      HornerBound(s[1..], next);
      assert next + 1 <= (acc + 1) * 10;
      calc {
        Horner(s, acc);
      <
        (next + 1) * Pow10(|s| - 1);
      <= { MulMonotone(next + 1, (acc + 1) * 10, Pow10(|s| - 1)); }
        (acc + 1) * 10 * Pow10(|s| - 1);
      ==
        (acc + 1) * Pow10(|s|);
      }
    }
  }

  lemma MulMonotone(a: nat, b: nat, c: nat)
    requires a <= b
    ensures a * c <= b * c
  {
  }

  /** Itoa writes the decimal digits of its argument. */
  lemma {:induction false} ItoaValue(n: nat)
    ensures DecimalValue(Itoa(n)) == n
  {
    if n >= 10 {
      ItoaValue(n / 10);
      HornerSnoc(Itoa(n / 10), DigitChar(n % 10), 0);
      assert Itoa(n) == Itoa(n / 10) + [DigitChar(n % 10)];
      assert DigitValue(DigitChar(n % 10)) == n % 10;
    } else {
      assert Itoa(n) == [DigitChar(n)];
      assert DigitValue(DigitChar(n)) == n;
      assert Horner([DigitChar(n)], 0) == Horner([], n);
    }
  }

  /** On a digit string the scan yields the decimal value unless that value
      exceeds 64 bits, in which case it reports a range error. */
  lemma {:induction false} ScanDigits(s: string, acc: nat)
    requires AllDigits(s) && acc <= MaxUint64
    ensures ScanUint(s, acc) == if Horner(s, acc) <= MaxUint64 then Parsed(Horner(s, acc)) else RangeError
    decreases |s|
  {
    if |s| > 0 {
      var next := acc * 10 + DigitValue(s[0]);
      HornerGrows(s, acc);
      assert Horner(s, acc) == Horner(s[1..], next);
      if acc >= UintCutoff {
        assert UintCutoff == 1844674407370955162;
        MulMonotone(UintCutoff, acc, 10);
      } else if next <= MaxUint64 {
        ScanDigits(s[1..], next);
      }
    }
  }

  /** A non-digit reached before any overflow gives a syntax error. */
  lemma {:induction false} ScanStopsAtNonDigit(s: string, acc: nat, k: nat)
    requires k < |s| && !IsDigit(s[k]) && AllDigits(s[..k])
    requires Horner(s[..k], acc) <= MaxUint64
    ensures ScanUint(s, acc) == SyntaxError
    decreases k
  {
    if k > 0 {
      var next := acc * 10 + DigitValue(s[0]);
      HornerGrows(s[..k], acc);
      assert s[..k][0] == s[0];
      assert s[..k][1..] == s[1..][..k - 1];
      ScanStopsAtNonDigit(s[1..], next, k - 1);
    }
  }

  /** For 1 to 18 bytes the fast path of Atoi computes what ParseInt does. */
  lemma FastPathAgrees(s: string)
    requires 0 < |s| < 19
    ensures FastAtoi(s) == ParseInt(s)
    ensures MinInt64 <= FastAtoi(s) <= MaxInt64
  {
    var digits := Unsigned(s);
    if |digits| > 0 && AllDigits(digits) {
      ShortDigitsFit(digits);
      ScanDigits(digits, 0);
    } else if |digits| > 0 {
      ShortNonDigitsRejected(digits);
    }
  }

  /** At most 18 digits never overflow. */
  lemma ShortDigitsFit(digits: string)
    requires |digits| <= 18 && AllDigits(digits)
    ensures DecimalValue(digits) < 1_000_000_000_000_000_000
  {
    HornerBound(digits, 0);
    assert DecimalValue(digits) < Pow10(|digits|);
    Pow10Bound(|digits|);
  }

  /** At most 18 bytes with a non-digit among them give a syntax error. */
  lemma ShortNonDigitsRejected(digits: string)
    requires 0 < |digits| <= 18 && !AllDigits(digits)
    ensures ScanUint(digits, 0) == SyntaxError
  {
    var k :| 0 <= k < |digits| && !IsDigit(digits[k]);
    FirstNonDigit(digits, k);
    var j :| 0 <= j <= k && !IsDigit(digits[j]) && AllDigits(digits[..j]);
    ShortDigitsFit(digits[..j]);
    ScanStopsAtNonDigit(digits, 0, j);
  }

  /** If some byte is not a digit, there is a first one. */
  lemma {:induction false} FirstNonDigit(s: string, k: nat)
    requires k < |s| && !IsDigit(s[k])
    ensures exists j :: 0 <= j <= k && !IsDigit(s[j]) && AllDigits(s[..j])
    decreases k
  {
    if AllDigits(s[..k]) {
    } else {
      var i :| 0 <= i < k && !IsDigit(s[..k][i]);
      FirstNonDigit(s, i);
    }
  }

  lemma Pow10Bound(k: nat)
    requires k <= 18
    ensures Pow10(k) <= 1_000_000_000_000_000_000
    decreases 18 - k
  {
    assert Pow10(1) == 10;
    assert Pow10(2) == 100;
    assert Pow10(3) == 1000;
    assert Pow10(4) == 10000;
    assert Pow10(5) == 100000;
    assert Pow10(6) == 1000000;
    assert Pow10(7) == 10000000;
    assert Pow10(8) == 100000000;
    assert Pow10(9) == 1000000000;
    assert Pow10(10) == 10000000000;
    assert Pow10(11) == 100000000000;
    assert Pow10(12) == 1000000000000;
    assert Pow10(13) == 10000000000000;
    assert Pow10(14) == 100000000000000;
    assert Pow10(15) == 1000000000000000;
    assert Pow10(16) == 10000000000000000;
    assert Pow10(17) == 100000000000000000;
    assert Pow10(18) == 1000000000000000000;
    if k < 18 {
      Pow10Bound(k + 1);
    }
  }

  /** Atoi of a signed digit string is its value, saturated to 64 bits. */
  lemma AtoiOfDigits(s: string)
    requires |Unsigned(s)| > 0 && AllDigits(Unsigned(s))
    ensures var v := DecimalValue(Unsigned(s));
      Atoi(s) == if Negative(s) then (if v > -MinInt64 then MinInt64 else -(v as int))
                 else (if v > MaxInt64 then MaxInt64 else v)
  {
    ScanDigits(Unsigned(s), 0);
    if 0 < |s| < 19 {
      FastPathAgrees(s);
    }
  }

  /** Atoi of anything but a signed digit string is 0, unless the digits in
      front of the first bad byte already overflow 64 bits. */
  lemma AtoiRejects(s: string)
    requires |Unsigned(s)| == 0 || !AllDigits(Unsigned(s))
    requires forall k :: 0 <= k < |Unsigned(s)| && AllDigits(Unsigned(s)[..k]) ==> DecimalValue(Unsigned(s)[..k]) <= MaxUint64
    ensures Atoi(s) == 0
  {
    var digits := Unsigned(s);
    if |digits| > 0 {
      var k :| 0 <= k < |digits| && !IsDigit(digits[k]);
      FirstNonDigit(digits, k);
      var j :| 0 <= j <= k && !IsDigit(digits[j]) && AllDigits(digits[..j]);
      ScanStopsAtNonDigit(digits, 0, j);
    }
    if 0 < |s| < 19 {
      FastPathAgrees(s);
    }
  }

  /** Atoi reads back what Itoa writes. */
  lemma AtoiItoa(n: nat)
    requires n <= MaxInt64
    ensures Atoi(Itoa(n)) == n
  {
    var s := Itoa(n);
    assert Unsigned(s) == s && !Negative(s);
    ItoaValue(n);
    AtoiOfDigits(s);
  }
}
