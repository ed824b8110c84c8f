/** The names given to output records: `f"{idx:06d}"`, the decimal digits of the
    record index left-padded with '0' to at least six characters. */
module ImageNames {
  import opened NameOrder

  function DigitChar(d: nat): char
    requires d < 10
  {
    (48 + d) as char
  }

  function DigitValue(c: char): int {
    c as int - 48
  }

  predicate IsDigit(c: char) {
    '0' <= c <= '9'
  }

  predicate AllDigits(s: string) {
    forall k :: 0 <= k < |s| ==> IsDigit(s[k])
  }

  function Pow10(w: nat): nat {
    if w == 0 then 1 else 10 * Pow10(w - 1)
  }

  /** `str(n)`: the digits of `n`, most significant first, without leading zeros. */
  function Decimal(n: nat): string
    decreases n
  {
    if n < 10 then [DigitChar(n)] else Decimal(n / 10) + [DigitChar(n % 10)]
  }

  function Zeros(k: nat): (z: string)
    ensures |z| == k
  {
    seq(k, _ => '0')
  }

  /** `f"{n:06d}"`: `str(n)` padded on the left with zeros to width 6; a number of
      seven or more digits is written in full. */
  function Format06(n: nat): string {
    var d := Decimal(n);
    if |d| < 6 then Zeros(6 - |d|) + d else d
  }

  /** `int(s)` for a string of decimal digits. */
  function ParseDecimal(s: string): int
    decreases |s|
  {
    if s == [] then 0 else ParseDecimal(s[..|s| - 1]) * 10 + DigitValue(s[|s| - 1])
  }

  /** Reference form: the last `w` decimal digits of `n`, most significant first. */
  function Fixed(n: nat, w: nat): (s: string)
    ensures |s| == w
    decreases w
  {
    if w == 0 then [] else Fixed(n / 10, w - 1) + [DigitChar(n % 10)]
  }

  lemma {:induction false} DecimalRoundTrip(n: nat)
    ensures AllDigits(Decimal(n))
    ensures ParseDecimal(Decimal(n)) == n
    decreases n
  {
    if n >= 10 {
      DecimalRoundTrip(n / 10);
      var d := Decimal(n);
      assert d[..|d| - 1] == Decimal(n / 10);
    }
  }

  /** `str(n)` has at most `w` digits exactly when `n < 10^w`. */
  lemma {:induction false} DecimalLength(n: nat, w: nat)
    requires w >= 1
    ensures |Decimal(n)| <= w <==> n < Pow10(w)
    decreases n
  {
    if n >= 10 {
      if w == 1 {
        assert Pow10(1) == 10;
        DecimalLength(n / 10, 1);
      } else {
        DecimalLength(n / 10, w - 1);
      }
    } else if w > 1 {
      Pow10Positive(w - 1);
    }
  }

  lemma {:induction false} Pow10Positive(w: nat)
    ensures Pow10(w) >= 1
    decreases w
  {
    if w > 0 {
      Pow10Positive(w - 1);
    }
  }

  /** Leading zeros do not change the parsed value. */
  lemma {:induction false} ParseZeros(k: nat, s: string)
    ensures ParseDecimal(Zeros(k) + s) == ParseDecimal(s)
    decreases |s|, k
  {
    if s == [] {
      assert Zeros(k) + s == Zeros(k);
      if k > 0 {
        assert Zeros(k)[..k - 1] == Zeros(k - 1);
        ParseZeros(k - 1, []);
        assert Zeros(k - 1) + [] == Zeros(k - 1);
      }
    } else {
      var t := Zeros(k) + s;
      assert t[..|t| - 1] == Zeros(k) + s[..|s| - 1];
      ParseZeros(k, s[..|s| - 1]);
    }
  }

  /** Every record name parses back to its index. */
  lemma Format06RoundTrip(n: nat)
    ensures AllDigits(Format06(n))
    ensures ParseDecimal(Format06(n)) == n
  {
    var d := Decimal(n);
    DecimalRoundTrip(n);
    if |d| < 6 {
      ParseZeros(6 - |d|, d);
      var f := Zeros(6 - |d|) + d;
      forall k | 0 <= k < |f| ensures IsDigit(f[k]) {
        if k >= 6 - |d| {
          assert f[k] == d[k - (6 - |d|)];
        }
      }
    }
  }

  /** Below one million every name is exactly six characters; from one million on
      the name is longer. */
  lemma Format06Width(n: nat)
    ensures n < 1000000 ==> |Format06(n)| == 6
    ensures n >= 1000000 ==> |Format06(n)| > 6
  {
    assert Pow10(6) == 1000000;
    DecimalLength(n, 6);
  }

  lemma {:induction false} FixedZero(w: nat)
    ensures Fixed(0, w) == Zeros(w)
    decreases w
  {
    if w > 0 {
      FixedZero(w - 1);
      assert Zeros(w) == Zeros(w - 1) + ['0'];
    }
  }

  /** Padding `str(n)` to width `w` gives the `w`-digit reference form when `n < 10^w`. */
  lemma {:induction false} PaddedIsFixed(n: nat, w: nat)
    requires w >= 1 && n < Pow10(w)
    ensures |Decimal(n)| <= w
    ensures Zeros(w - |Decimal(n)|) + Decimal(n) == Fixed(n, w)
    decreases w
  {
    DecimalLength(n, w);
    if n < 10 {
      FixedZero(w - 1);
      assert Fixed(n, w) == Fixed(0, w - 1) + [DigitChar(n)];
    } else {
      assert Pow10(1) == 10;
      assert w > 1;
      PaddedIsFixed(n / 10, w - 1);
      assert Zeros(w - |Decimal(n)|) + Decimal(n)
          == (Zeros((w - 1) - |Decimal(n / 10)|) + Decimal(n / 10)) + [DigitChar(n % 10)];
    }
  }

  /** Fixed-width digit strings sort in numeric order. */
  lemma {:induction false} FixedAscending(i: nat, j: nat, w: nat)
    requires i < j < Pow10(w)
    ensures Less(Fixed(i, w), Fixed(j, w))
    decreases w
  {
    if w == 0 {
      assert false;
    }
    var a, b := Fixed(i / 10, w - 1), Fixed(j / 10, w - 1);
    LessAppend(a, b, DigitChar(i % 10), DigitChar(j % 10));
    if i / 10 < j / 10 {
      FixedAscending(i / 10, j / 10, w - 1);
    }
  }

  /** The names of records 0 .. 999999 sort in the order of their indices, so
      reading the output back through the loader keeps the playback order. */
  lemma Format06Ascending(i: nat, j: nat)
    requires i < j < 1000000
    ensures Less(Format06(i), Format06(j))
  {
    assert Pow10(6) == 1000000;
    PaddedIsFixed(i, 6);
    PaddedIsFixed(j, 6);
    DecimalLength(i, 5);
    DecimalLength(j, 5);
    assert Pow10(5) == 100000;
    if |Decimal(i)| == 6 {
      assert Format06(i) == Zeros(0) + Decimal(i);
    }
    if |Decimal(j)| == 6 {
      assert Format06(j) == Zeros(0) + Decimal(j);
    }
    FixedAscending(i, j, 6);
  }

  /** From one million on the width is no longer fixed and the order breaks:
      record 1000000 is named "1000000", which sorts before "999999". */
  lemma MillionSortsFirst()
    ensures Less(Format06(1000000), Format06(999999))
  {
    assert Decimal(1000000) == "1000000";
    assert Decimal(999999) == "999999";
  }
}
