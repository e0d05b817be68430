/** Decimal text of natural numbers as Python's format specification `04d` writes
    it (canonical digits, left-padded with zeros to at least four characters), and
    the order Python's `<` puts on such strings. */
module DecimalText {

  predicate IsDigit(c: char) {
    '0' <= c <= '9'
  }

  predicate AllDigits(s: string) {
    forall i :: 0 <= i < |s| ==> IsDigit(s[i])
  }

  function DigitValue(c: char): (d: nat)
    requires IsDigit(c)
    ensures d < 10
  {
    c as int - '0' as int
  }

  function DigitChar(d: nat): (c: char)
    requires d < 10
    ensures IsDigit(c) && DigitValue(c) == d
  {
    (d + '0' as int) as char
  }

  function Pow10(k: nat): (p: nat)
    ensures p >= 1
  {
    if k == 0 then 1 else 10 * Pow10(k - 1)
  }

  /** The numeral a digit string denotes; leading zeros are allowed and add nothing. */
  function Value(s: string): (v: nat)
    requires AllDigits(s)
    ensures v < Pow10(|s|)
    decreases |s|
  {
    if s == [] then 0 else Value(s[..|s| - 1]) * 10 + DigitValue(s[|s| - 1])
  }

  /** Canonical decimal numeral of `n`: no sign, and no leading zero unless `n` is 0. */
  function Digits(n: nat): (s: string)
    ensures 1 <= |s| && AllDigits(s)
    ensures s[0] == '0' ==> n == 0
    decreases n
  {
    if n < 10 then [DigitChar(n)] else Digits(n / 10) + [DigitChar(n % 10)]
  }

  function Zeros(k: nat): (z: string)
    ensures |z| == k && AllDigits(z)
  {
    seq(k, _ => '0')
  }

  /** Python's `f"{n:04d}"` for a non-negative `n`: the canonical numeral, left-padded
      with zeros to four characters when it is shorter, and untouched otherwise. */
  function Format04d(n: nat): (s: string)
    ensures AllDigits(s) && Value(s) == n
    ensures |s| == if |Digits(n)| < 4 then 4 else |Digits(n)|
    ensures |s| > 4 ==> s[0] != '0'
    ensures n < 10000 <==> |s| == 4
  {
    DigitsValue(n);
    DigitsLength(n);
    var d := Digits(n);
    if |d| >= 4 then d
    else
      LeadingZeros(4 - |d|, d);
      Zeros(4 - |d|) + d
  }

  lemma {:induction false} DigitsValue(n: nat)
    ensures Value(Digits(n)) == n
    decreases n
  {
    if n >= 10 {
      DigitsValue(n / 10);
      var s := Digits(n);
      assert s[..|s| - 1] == Digits(n / 10);
    }
  }

  /** The numeral of `n` is at most four characters long exactly when `n` has at most
      four decimal digits. */
  lemma {:induction false} DigitsLength(n: nat)
    ensures |Digits(n)| <= 4 <==> n < 10000
  {
    assert Pow10(4) == 10000;
    if n < 10000 {
      DigitsBound(n, 4);
    } else {
      DigitsAtLeast(n, 5);
    }
  }

  lemma {:induction false} DigitsBound(n: nat, k: nat)
    requires 1 <= k && n < Pow10(k)
    ensures |Digits(n)| <= k
    decreases n
  {
    if n >= 10 {
      assert k >= 2;
      DigitsBound(n / 10, k - 1);
    }
  }

  lemma {:induction false} DigitsAtLeast(n: nat, k: nat)
    requires 1 <= k
    requires Pow10(k - 1) <= n
    ensures k <= |Digits(n)|
    decreases n
  {
    if k > 1 {
      assert n >= 10;
      DigitsAtLeast(n / 10, k - 1);
    }
  }

  /** Zeros prepended to a numeral leave its value unchanged. */
  lemma {:induction false} LeadingZeros(k: nat, s: string)
    requires AllDigits(s)
    ensures AllDigits(Zeros(k) + s) && Value(Zeros(k) + s) == Value(s)
    decreases |s|
  {
    var z := Zeros(k) + s;
    if s == [] {
      assert z == Zeros(k);
      ZerosValue(k);
    } else {
      LeadingZeros(k, s[..|s| - 1]);
      assert z[..|z| - 1] == Zeros(k) + s[..|s| - 1];
    }
  }

  lemma {:induction false} ZerosValue(k: nat)
    ensures Value(Zeros(k)) == 0
  {
    if k > 0 {
      ZerosValue(k - 1);
      assert Zeros(k)[..k - 1] == Zeros(k - 1);
    }
  }

  /** Reading a numeral from the front: the first digit weighs `10^(|s|-1)`. */
  lemma {:induction false} ValueFront(s: string)
    requires 1 <= |s| && AllDigits(s)
    ensures Value(s) == DigitValue(s[0]) * Pow10(|s| - 1) + Value(s[1..])
    decreases |s|
  {
    var n := |s|;
    if n == 1 {
      assert s[..0] == [] && s[1..] == [];
    } else {
      var init, tail := s[..n - 1], s[1..];
      ValueFront(init);
      assert init[0] == s[0];
      assert init[1..] == tail[..n - 2];
      assert tail[n - 2] == s[n - 1];
      var d, last := DigitValue(s[0]), DigitValue(s[n - 1]);
      var head, rest := d * Pow10(n - 2), Value(init[1..]);
      assert Value(s) == (head + rest) * 10 + last;
      assert Value(tail) == rest * 10 + last;
      ScaleByTen(d, n - 2);
    }
  }

  /** A smaller leading digit outweighs anything that follows it. */
  lemma {:induction false} SmallerLeadingDigit(a: nat, b: nat, p: nat)
    requires a < b
    ensures a * p + p <= b * p
    decreases b - a
  {
    if b > a + 1 {
      SmallerLeadingDigit(a, b - 1, p);
    }
    assert b * p == (b - 1) * p + p;
  }

  lemma ScaleByTen(d: nat, k: nat)
    ensures d * Pow10(k) * 10 == d * Pow10(k + 1)
  {
    assert Pow10(k + 1) == 10 * Pow10(k);
  }

  /** Python's `<` on `str`: lexicographic order of code points, a proper prefix
      coming first. */
  predicate LexLess(s: string, t: string)
    decreases |s|
  {
    if s == [] then t != []
    else if t == [] then false
    else if s[0] != t[0] then s[0] < t[0]
    else LexLess(s[1..], t[1..])
  }

  lemma {:induction false} LexLessIrreflexive(s: string)
    ensures !LexLess(s, s)
    decreases |s|
  {
    if s != [] {
      LexLessIrreflexive(s[1..]);
    }
  }

  /** A common prefix does not change the order. */
  lemma {:induction false} LexLessCommonPrefix(p: string, s: string, t: string)
    ensures LexLess(p + s, p + t) <==> LexLess(s, t)
    decreases |p|
  {
    if p != [] {
      assert (p + s)[0] == p[0] == (p + t)[0];
      assert (p + s)[1..] == p[1..] + s;
      assert (p + t)[1..] == p[1..] + t;
      LexLessCommonPrefix(p[1..], s, t);
    } else {
      assert p + s == s && p + t == t;
    }
  }

  /** Two strings starting with equal-length heads are ordered by their heads, and by
      what follows only when the heads agree. */
  lemma {:induction false} LexLessSameLengthHeads(x: string, y: string, q: string, r: string)
    requires |x| == |y|
    ensures LexLess(x + q, y + r) <==> LexLess(x, y) || (x == y && LexLess(q, r))
    decreases |x|
  {
    if x == [] {
      assert x + q == q && y + r == r;
    } else {
      assert (x + q)[1..] == x[1..] + q;
      assert (y + r)[1..] == y[1..] + r;
      LexLessSameLengthHeads(x[1..], y[1..], q, r);
      if x[0] == y[0] && x[1..] == y[1..] {
        assert x == y;
      }
    }
  }

  /** For digit strings of one length, string order is numeric order. */
  lemma {:induction false} LexLessIsNumericOrder(s: string, t: string)
    requires AllDigits(s) && AllDigits(t) && |s| == |t|
    ensures LexLess(s, t) <==> Value(s) < Value(t)
    decreases |s|
  {
    if s != [] {
      var n := |s|;
      ValueFront(s);
      ValueFront(t);
      LexLessIsNumericOrder(s[1..], t[1..]);
      var ds, dt, p := DigitValue(s[0]), DigitValue(t[0]), Pow10(n - 1);
      if ds < dt {
        SmallerLeadingDigit(ds, dt, p);
      } else if dt < ds {
        SmallerLeadingDigit(dt, ds, p);
      }
    }
  }

  /** Of two different strings of one length, one comes first. */
  lemma {:induction false} LexLessTotal(s: string, t: string)
    requires |s| == |t| && s != t
    ensures LexLess(s, t) || LexLess(t, s)
    decreases |s|
  {
    if s[0] == t[0] {
      LexLessTotal(s[1..], t[1..]);
    }
  }

  /** A numeral of a given length is determined by its value. */
  lemma SameValueSameDigits(s: string, t: string)
    requires AllDigits(s) && AllDigits(t) && |s| == |t|
    requires Value(s) == Value(t)
    ensures s == t
  {
    if s != t {
      LexLessTotal(s, t);
      LexLessIsNumericOrder(s, t);
      LexLessIsNumericOrder(t, s);
    }
  }

  /** `04d` output is recognised exactly: a digit string of at least four characters
      that has no leading zero beyond the fourth position from the end is what
      `Format04d` writes for its value. */
  lemma Format04dCanonical(m: string)
    requires AllDigits(m) && |m| >= 4
    requires |m| > 4 ==> m[0] != '0'
    ensures Format04d(Value(m)) == m
  {
    var n := Value(m);
    Format04dLength(m);
    SameValueSameDigits(Format04d(n), m);
  }

  lemma Format04dLength(m: string)
    requires AllDigits(m) && |m| >= 4
    requires |m| > 4 ==> m[0] != '0'
    ensures |Format04d(Value(m))| == |m|
  {
    var n, k := Value(m), |m|;
    if k > 4 {
      LeadingDigitBound(m);
      DigitsAtLeast(n, k);
      DigitsBound(n, k);
    } else {
      assert Pow10(4) == 10000;
    }
  }

  /** A numeral whose first digit is not zero is at least `10^(|s|-1)`. */
  lemma LeadingDigitBound(s: string)
    requires AllDigits(s) && 1 <= |s| && s[0] != '0'
    ensures Pow10(|s| - 1) <= Value(s)
  {
    ValueFront(s);
    SmallerLeadingDigit(0, DigitValue(s[0]), Pow10(|s| - 1));
  }
}
