/** Positional notation, most significant digit first, for any base. */
module Numerals {

  /** A digit to base 256. */
  type byte = x: nat | x < 256

  function Pow(base: nat, e: nat): nat
  {
    if e == 0 then 1 else base * Pow(base, e - 1)
  }

  ghost predicate IsNumeral(ds: seq<nat>, base: nat)
  {
    forall i :: 0 <= i < |ds| ==> ds[i] < base
  }

  /** The number a digit sequence denotes, by Horner's rule. */
  function Value(ds: seq<nat>, base: nat): nat
  {
    if ds == [] then 0 else Value(ds[..|ds| - 1], base) * base + ds[|ds| - 1]
  }

  /** The digits of a number without leading zeros; zero has none. */
  function Digits(n: nat, base: nat): seq<nat>
    requires base >= 2
  {
    if n == 0 then []
    else
      DivShrinks(n, base);
      Digits(n / base, base) + [n % base]
  }

  /** The sequence without its leading zeros, whatever stands for zero. */
  function Strip<T(==)>(s: seq<T>, zero: T): seq<T>
  {
    if s != [] && s[0] == zero then Strip(s[1..], zero) else s
  }

  ghost predicate Canonical(ds: seq<nat>)
  {
    ds != [] ==> ds[0] != 0
  }

  /** Shorter first, then the first differing digit decides. */
  predicate ShortLex(a: seq<nat>, b: seq<nat>)
  {
    |a| < |b| || (|a| == |b| && DigitsLess(a, b))
  }

  predicate DigitsLess(a: seq<nat>, b: seq<nat>)
    requires |a| == |b|
  {
    a != [] && (a[0] < b[0] || (a[0] == b[0] && DigitsLess(a[1..], b[1..])))
  }

  lemma DivModIdentity(n: nat, base: nat)
    requires base > 0
    ensures n == base * (n / base) + n % base && n % base < base
  {
  }

  lemma DivShrinks(n: nat, base: nat)
    requires base >= 2 && n > 0
    ensures 0 <= n / base < n
    ensures n / base == 0 ==> n % base == n
  {
    DivModIdentity(n, base);
    var q := n / base;
    if q < 0 {
      MulNegative(base, q);
    } else if q > 0 {
      MulDoubles(base, q);
    }
  }

  lemma MulNegative(base: nat, q: int)
    requires base > 0 && q < 0
    ensures base * q + base <= 0
  {
    MulAtLeast(-q, base);
    assert base * q + (-q) * base == 0;
  }

  lemma MulDoubles(base: nat, q: nat)
    requires base >= 2
    ensures base * q >= 2 * q
  {
    assert base * q == (base - 2) * q + 2 * q;
    MulNonNegative(base - 2, q);
  }

  lemma MulNonNegative(x: nat, y: nat)
    ensures x * y >= 0
  {
  }

  lemma MulStrict(x: nat, y: nat, b: nat)
    requires x < y && 0 < b
    ensures x * b + b <= y * b
  {
    MulAtLeast(y - x, b);
    assert y * b == x * b + (y - x) * b;
  }

  lemma {:induction false} MulAtLeast(x: nat, p: nat)
    requires x >= 1
    ensures x * p >= p
  {
    if x > 1 {
      MulAtLeast(x - 1, p);
      assert x * p == (x - 1) * p + p;
    }
  }

  lemma ValueSnoc(ds: seq<nat>, d: nat, base: nat)
    ensures Value(ds + [d], base) == Value(ds, base) * base + d
  {
    assert (ds + [d])[..|ds|] == ds;
  }

  lemma {:induction false} DivModUnique(q: nat, r: nat, base: nat)
    requires r < base
    ensures (q * base + r) / base == q && (q * base + r) % base == r
  {
    var n := q * base + r;
    var q', r' := n / base, n % base;
    assert n == q' * base + r';
    if q < q' {
      MulStrict(q, q', base);
    } else if q' < q {
      MulStrict(q', q, base);
    }
  }

  lemma {:induction false} PowAdd(base: nat, j: nat, k: nat)
    ensures Pow(base, j + k) == Pow(base, j) * Pow(base, k)
  {
    if j != 0 {
      PowAdd(base, j - 1, k);
      assert base * (Pow(base, j - 1) * Pow(base, k)) == (base * Pow(base, j - 1)) * Pow(base, k);
    }
  }

  lemma {:induction false} PowPositive(base: nat, e: nat)
    requires base > 0
    ensures Pow(base, e) >= 1
  {
    if e != 0 {
      PowPositive(base, e - 1);
    }
  }

  lemma {:induction false} PowGrows(base: nat, j: nat, k: nat)
    requires base > 0 && j <= k
    ensures Pow(base, j) <= Pow(base, k)
    decreases k - j
  {
    if j < k {
      PowGrows(base, j, k - 1);
      PowPositive(base, k - 1);
      MulAtLeast(base, Pow(base, k - 1));
    }
  }

  lemma NumeralSnoc(ds: seq<nat>, r: nat, base: nat)
    requires IsNumeral(ds, base) && Canonical(ds) && r < base && (ds == [] ==> r != 0)
    ensures IsNumeral(ds + [r], base) && Canonical(ds + [r])
  {
  }

  lemma DigitsStep(n: nat, base: nat)
    requires base >= 2 && n > 0
    ensures 0 <= n / base < n
    ensures Digits(n, base) == Digits(n / base, base) + [n % base]
  {
    DivShrinks(n, base);
  }

  /** Writing a number down and reading it back. */
  lemma {:induction false} ValueOfDigits(n: nat, base: nat)
    requires base >= 2
    ensures Value(Digits(n, base), base) == n
    ensures IsNumeral(Digits(n, base), base) && Canonical(Digits(n, base))
    decreases n
  {
    hide Value;
    if n == 0 {
      EmptyValueIsZero(base);
    } else {
      DigitsStep(n, base);
      hide Digits;
      DivModIdentity(n, base);
      var q, r := n / base, n % base;
      ValueOfDigits(q, base);
      assert base * q == q * base;
      DigitsExtend(Digits(q, base), r, base, n);
    }
  }

  lemma DigitsExtend(ds: seq<nat>, r: nat, base: nat, n: nat)
    requires r < base && n == Value(ds, base) * base + r && n > 0
    requires IsNumeral(ds, base) && Canonical(ds)
    ensures Value(ds + [r], base) == n && IsNumeral(ds + [r], base) && Canonical(ds + [r])
  {
    ValueSnoc(ds, r, base);
    hide Value;
    if ds == [] {
      EmptyValue(base);
    }
    NumeralSnoc(ds, r, base);
  }

  lemma EmptyValueIsZero(base: nat)
    ensures Value([], base) == 0
  {
  }

  lemma EmptyValue(base: nat)
    ensures Value([], base) * base == 0
  {
  }

  lemma {:induction false} ValueBound(ds: seq<nat>, base: nat)
    requires base >= 2 && IsNumeral(ds, base)
    ensures Value(ds, base) < Pow(base, |ds|)
  {
    if ds != [] {
      var n := |ds| - 1;
      ValueBound(ds[..n], base);
      MulStrict(Value(ds[..n], base), Pow(base, n), base);
      assert Pow(base, |ds|) == base * Pow(base, n);
    }
  }

  lemma Shuffle(v: nat, p: nat, w: nat, base: nat)
    ensures (v * p + w) * base == v * (base * p) + w * base
  {
    assert (v * p + w) * base == (v * p) * base + w * base;
    assert (v * p) * base == v * (p * base);
  }

  /** The value splits at the first digit. */
  lemma {:induction false} ValueHead(ds: seq<nat>, base: nat)
    requires ds != []
    ensures Value(ds, base) == ds[0] * Pow(base, |ds| - 1) + Value(ds[1..], base)
  {
    var n := |ds| - 1;
    if n == 0 {
      assert ds[..0] == [] && ds[1..] == [];
    } else {
      ValueHead(ds[..n], base);
      assert ds[..n][1..] == ds[1..][..n - 1];
      Shuffle(ds[0], Pow(base, n - 1), Value(ds[1..n], base), base);
      assert ds[..n][1..] == ds[1..n];
    }
  }

  /** The value of a concatenation. */
  lemma {:induction false} ValueConcat(a: seq<nat>, b: seq<nat>, base: nat)
    ensures Value(a + b, base) == Value(a, base) * Pow(base, |b|) + Value(b, base)
  {
    if b == [] {
      assert a + b == a;
    } else {
      var n := |b| - 1;
      ValueConcat(a, b[..n], base);
      assert a + b == (a + b[..n]) + [b[n]];
      ValueSnoc(a + b[..n], b[n], base);
      Shuffle(Value(a, base), Pow(base, n), Value(b[..n], base), base);
    }
  }

  lemma {:induction false} StripKeepsValue(ds: seq<nat>, base: nat)
    ensures Value(Strip<nat>(ds, 0), base) == Value(ds, base) && Canonical(Strip<nat>(ds, 0))
    ensures |Strip<nat>(ds, 0)| <= |ds| && Strip<nat>(ds, 0) == ds[|ds| - |Strip<nat>(ds, 0)|..]
  {
    if ds != [] && ds[0] == 0 {
      StripKeepsValue(ds[1..], base);
      ValueHead(ds, base);
    }
  }

  /** Reading a canonical numeral and writing it down again. */
  lemma {:induction false} DigitsOfValue(ds: seq<nat>, base: nat)
    requires base >= 2 && IsNumeral(ds, base) && Canonical(ds)
    ensures Digits(Value(ds, base), base) == ds
  {
    if ds != [] {
      var n := |ds| - 1;
      var q := Value(ds[..n], base);
      DigitsOfValue(ds[..n], base);
      DivModUnique(q, ds[n], base);
      assert ds == ds[..n] + [ds[n]];
      if q == 0 {
        assert ds[..n] == Digits(0, base) == [];
      }
      assert Value(ds, base) > 0;
    }
  }

  /** Reading any numeral and writing it down loses its leading zeros and nothing else. */
  lemma {:induction false} DigitsOfAnyValue(ds: seq<nat>, base: nat)
    requires base >= 2 && IsNumeral(ds, base)
    ensures Digits(Value(ds, base), base) == Strip<nat>(ds, 0)
  {
    StripKeepsValue(ds, base);
    DigitsOfValue(Strip<nat>(ds, 0), base);
  }

  /** The number of digits is the logarithm. */
  lemma {:induction false} DigitCount(n: nat, base: nat)
    requires base >= 2 && n > 0
    ensures var k := |Digits(n, base)|; k > 0 && Pow(base, k - 1) <= n < Pow(base, k)
  {
    var ds := Digits(n, base);
    ValueOfDigits(n, base);
    ValueBound(ds, base);
    assert ds != [];
    ValueHead(ds, base);
    MulAtLeast(ds[0], Pow(base, |ds| - 1));
  }

  lemma {:induction false} DigitsLessIsValueLess(a: seq<nat>, b: seq<nat>, base: nat)
    requires base >= 2 && IsNumeral(a, base) && IsNumeral(b, base) && |a| == |b|
    ensures DigitsLess(a, b) <==> Value(a, base) < Value(b, base)
  {
    if a != [] {
      var p := Pow(base, |a| - 1);
      ValueHead(a, base);
      ValueHead(b, base);
      ValueBound(a[1..], base);
      ValueBound(b[1..], base);
      DigitsLessIsValueLess(a[1..], b[1..], base);
      if a[0] < b[0] {
        MulStrict(a[0], b[0], p);
      } else if b[0] < a[0] {
        MulStrict(b[0], a[0], p);
      }
    }
  }

  /** Numeric order is exactly shortlex order of the digit sequences. */
  lemma {:induction false} OrderOfDigits(m: nat, n: nat, base: nat)
    requires base >= 2
    ensures m < n <==> ShortLex(Digits(m, base), Digits(n, base))
  {
    var a, b := Digits(m, base), Digits(n, base);
    ValueOfDigits(m, base);
    ValueOfDigits(n, base);
    if |a| == |b| {
      DigitsLessIsValueLess(a, b, base);
    } else if |a| < |b| {
      LongerIsLarger(a, b, base);
    } else {
      LongerIsLarger(b, a, base);
    }
  }

  lemma {:induction false} LongerIsLarger(a: seq<nat>, b: seq<nat>, base: nat)
    requires base >= 2 && IsNumeral(a, base) && IsNumeral(b, base) && Canonical(b) && |a| < |b|
    ensures Value(a, base) < Value(b, base)
  {
    ValueBound(a, base);
    PowGrows(base, |a|, |b| - 1);
    ValueHead(b, base);
    MulAtLeast(b[0], Pow(base, |b| - 1));
  }
}
