/** Numbers written as big-endian digits in any base. */
module Radix {

  function Pow(b: nat, e: nat): nat {
    if e == 0 then 1 else b * Pow(b, e - 1)
  }

  lemma {:induction false} PowPositive(b: nat, e: nat)
    requires b > 0
    ensures Pow(b, e) >= 1
  {
    if e > 0 {
      PowPositive(b, e - 1);
    }
  }

  function Pow2(e: nat): (p: nat)
    ensures p >= 1
  {
    PowPositive(2, e);
    Pow(2, e)
  }

  lemma Pow2Next(e: nat)
    ensures Pow2(0) == 1 && Pow2(e + 1) == 2 * Pow2(e)
  {
  }

  lemma Regroup(x: int, y: int, z: int)
    ensures (x * y) * z == x * (y * z)
  {
  }

  lemma {:induction false} PowAdd(b: nat, e: nat, f: nat)
    ensures Pow(b, e + f) == Pow(b, e) * Pow(b, f)
  {
    if e > 0 {
      PowAdd(b, e - 1, f);
      PowStep(b, e);
      PowStep(b, e + f);
      hide Pow;
      Regroup(b, Pow(b, e - 1), Pow(b, f));
    }
  }

  lemma PowStep(b: nat, e: nat)
    requires e > 0
    ensures Pow(b, e) == b * Pow(b, e - 1)
  {
  }

  lemma {:induction false} PowMul(b: nat, e: nat, f: nat)
    ensures Pow(b, e * f) == Pow(Pow(b, e), f)
  {
    if f > 0 {
      PowMul(b, e, f - 1);
      assert e * f == e + e * (f - 1);
      PowAdd(b, e, e * (f - 1));
    } else {
      assert e * f == 0;
    }
  }

  lemma MulMono(a: nat, b: nat, c: nat, d: nat)
    requires a <= b && c <= d
    ensures a * c <= b * d
  {
    assert a * c <= b * c <= b * d;
  }

  /** Multiplication by c keeps the order, and each step of a factor counts c. */
  lemma Steps(a: int, b: int, c: int)
    requires c >= 0
    ensures a <= b ==> a * c <= b * c
    ensures a < b ==> a * c + c <= b * c
    ensures b <= a ==> b * c <= a * c
    ensures b < a ==> b * c + c <= a * c
  {
    var d := b - a;
    assert b * c == a * c + d * c;
    assert d > 0 ==> d * c >= c;
    assert d < 0 ==> d * c <= -c;
  }

  /** Powers grow with the base. */
  lemma {:induction false} PowMonoBase(a: nat, b: nat, e: nat)
    requires a <= b
    ensures Pow(a, e) <= Pow(b, e)
  {
    if e > 0 {
      PowMonoBase(a, b, e - 1);
      MulMono(a, b, Pow(a, e - 1), Pow(b, e - 1));
    }
  }

  /** Powers grow strictly with the exponent. */
  lemma {:induction false} PowMonoExp(b: nat, e: nat, f: nat)
    requires b >= 2 && e < f
    ensures Pow(b, e) < Pow(b, f)
    decreases f
  {
    PowPositive(b, f - 1);
    MulMono(2, b, Pow(b, f - 1), Pow(b, f - 1));
    if e < f - 1 {
      PowMonoExp(b, e, f - 1);
    }
  }

  /** If b^k <= c^m, then n digits of base b fit into `size` digits of base c as soon
      as n*m < size*k; the products come in as e and f. */
  lemma Fits(b: nat, c: nat, k: nat, m: nat, n: nat, size: nat, e: nat, f: nat)
    requires c >= 2 && Pow(b, k) <= Pow(c, m)
    requires Pow(c, e) == Pow(Pow(c, n), m) && Pow(c, f) == Pow(Pow(c, size), k) && e < f
    ensures Pow(b, n) < Pow(c, size)
  {
    hide Pow;
    PowSwap(b, n, k);
    PowSwap(c, m, n);
    PowMonoBase(Pow(b, k), Pow(c, m), n);
    PowMonoExp(c, e, f);
    RootOrder(Pow(b, n), Pow(c, size), k);
  }

  lemma PowSwap(b: nat, e: nat, f: nat)
    ensures Pow(Pow(b, e), f) == Pow(Pow(b, f), e)
  {
    PowMul(b, e, f);
    PowMul(b, f, e);
    assert e * f == f * e;
  }

  lemma RootOrder(x: nat, y: nat, k: nat)
    requires Pow(x, k) < Pow(y, k)
    ensures x < y
  {
    if y <= x {
      PowMonoBase(y, x, k);
    }
  }

  // ------------------------------------------------------------------- digits

  ghost predicate Digits(b: nat, d: seq<int>) {
    forall i | 0 <= i < |d| :: 0 <= d[i] < b
  }

  function Value(b: nat, d: seq<int>): int {
    if d == [] then 0 else Value(b, d[..|d| - 1]) * b + d[|d| - 1]
  }

  lemma {:induction false} ValueConcat(b: nat, x: seq<int>, y: seq<int>)
    ensures Value(b, x + y) == Value(b, x) * Pow(b, |y|) + Value(b, y)
    decreases |y|
  {
    if y == [] {
      assert x + y == x;
    } else {
      var n := |y| - 1;
      ValueConcat(b, x, y[..n]);
      assert (x + y)[..|x + y| - 1] == x + y[..n];
      var v, p := Value(b, x), Pow(b, n);
      assert (v * p) * b == v * (b * p);
    }
  }

  lemma {:induction false} ValueBound(b: nat, d: seq<int>)
    requires b > 0 && Digits(b, d)
    ensures 0 <= Value(b, d) < Pow(b, |d|)
    decreases |d|
  {
    if d != [] {
      var n := |d| - 1;
      ValueBound(b, d[..n]);
      MulMono(Value(b, d[..n]) + 1, Pow(b, n), b, b);
      assert (Value(b, d[..n]) + 1) * b == Value(b, d[..n]) * b + b;
      assert Value(b, d[..n]) * b >= 0;
    }
  }

  /** The digits of a number, without leading zeros. */
  function ToDigits(b: nat, v: nat): (d: seq<int>)
    requires b >= 2
    decreases v
  {
    if v == 0 then [] else
      QuotientSmaller(b, v);
      ToDigits(b, v / b) + [v % b]
  }

  lemma QuotientSmaller(b: nat, v: nat)
    requires b >= 2 && v > 0
    ensures 0 <= v / b < v
  {
    assert v == b * (v / b) + v % b;
    Steps(2, b, v / b);
  }

  lemma ValueOfLast(b: nat, d: seq<int>, x: int)
    ensures Value(b, d + [x]) == Value(b, d) * b + x
  {
    assert (d + [x])[..|d|] == d;
  }

  lemma ToDigitsStep(b: nat, v: nat)
    requires b >= 2 && v > 0
    ensures 0 <= v / b < v && ToDigits(b, v) == ToDigits(b, v / b) + [v % b]
    ensures v / b == 0 ==> v % b != 0
    ensures v / b * b + v % b == v
  {
    QuotientAndRest(b, v);
    var q := v / b;
    assert ToDigits(b, v) == ToDigits(b, q) + [v % b];
    hide ToDigits;
  }

  lemma QuotientAndRest(b: nat, v: nat)
    requires b >= 2 && v > 0
    ensures 0 <= v / b < v && v / b * b + v % b == v
    ensures v / b == 0 ==> v % b != 0
  {
    QuotientSmaller(b, v);
    var q, x := v / b, v % b;
    assert v == b * q + x;
  }

  lemma ToDigitsZero(b: nat, v: nat)
    requires b >= 2
    ensures ToDigits(b, v) == [] <==> v == 0
    ensures Value(b, []) == 0
  {
    if v > 0 {
      ToDigitsStep(b, v);
    }
  }

  /** Reading the digits back gives the number; the first one is not zero. */
  lemma {:induction false} ToDigitsMeaning(b: nat, v: nat)
    requires b >= 2
    ensures Digits(b, ToDigits(b, v)) && Value(b, ToDigits(b, v)) == v
    ensures ToDigits(b, v) != [] ==> ToDigits(b, v)[0] != 0
    decreases v
  {
    hide ToDigits, Value;
    ToDigitsZero(b, v);
    if v > 0 {
      ToDigitsStep(b, v);
      var q, x := v / b, v % b;
      ToDigitsMeaning(b, q);
      ToDigitsZero(b, q);
      ValueOfLast(b, ToDigits(b, q), x);
    }
  }

  /** Digits without a leading zero are the digits of their value. */
  lemma {:induction false} ToDigitsUnique(b: nat, d: seq<int>)
    requires b >= 2 && Digits(b, d) && (d == [] || d[0] != 0)
    ensures Value(b, d) >= 0 && ToDigits(b, Value(b, d)) == d
    ensures d != [] ==> Value(b, d) > 0
    decreases |d|
  {
    if d != [] {
      var n := |d| - 1;
      var front, last := d[..n], d[n];
      ToDigitsUnique(b, front);
      var q := Value(b, front);
      DivideBack(b, q, last);
      if n > 0 {
        MulMono(1, q, 1, b);
      }
      assert d == front + [last];
    }
  }

  lemma DivideBack(b: nat, q: nat, r: int)
    requires 0 <= r < b
    ensures (q * b + r) / b == q && (q * b + r) % b == r
  {
    var v := q * b + r;
    assert v == v / b * b + v % b;
    Steps(v / b, q, b);
  }

  /** Digits without their leading zeros. */
  function Strip(d: seq<int>): (s: seq<int>)
    ensures s == [] || s[0] != 0
  {
    if d == [] || d[0] != 0 then d else Strip(d[1..])
  }

  lemma ZeroInFront(b: nat, d: seq<int>)
    ensures Value(b, [0] + d) == Value(b, d)
  {
    ValueConcat(b, [0], d);
    assert [0][..0] == [];
    assert Value(b, [0]) == 0 * b + 0;
    var p := Pow(b, |d|);
    assert 0 * p == 0;
  }

  lemma {:induction false} StripKeepsValue(b: nat, d: seq<int>)
    requires Digits(b, d)
    ensures Value(b, Strip(d)) == Value(b, d) && Digits(b, Strip(d))
    decreases |d|
  {
    hide Value;
    if d != [] && d[0] == 0 {
      StripKeepsValue(b, d[1..]);
      ZeroInFront(b, d[1..]);
      assert d == [0] + d[1..];
    }
  }

  /** Stripping leading zeros leaves the digits of the value. */
  lemma StripIsToDigits(b: nat, d: seq<int>)
    requires b >= 2 && Digits(b, d)
    ensures Value(b, d) >= 0 && Strip(d) == ToDigits(b, Value(b, d))
  {
    StripKeepsValue(b, d);
    ToDigitsUnique(b, Strip(d));
  }

  // ------------------------------------------------- conversion between bases

  /** The number of leading zeros. */
  function Zeros(d: seq<int>): (k: nat)
    ensures k <= |d|
  {
    if d == [] || d[0] != 0 then 0 else 1 + Zeros(d[1..])
  }

  function ZeroDigits(k: nat): seq<int> {
    seq(k, _ => 0)
  }

  /** The number written in another base, keeping every leading zero as one zero. */
  function Convert(b: nat, c: nat, d: seq<int>): seq<int>
    requires b >= 1 && c >= 2 && Digits(b, d)
  {
    ValueBound(b, d);
    ZeroDigits(Zeros(d)) + ToDigits(c, Value(b, d))
  }

  lemma {:induction false} SplitZeros(d: seq<int>)
    ensures d == ZeroDigits(Zeros(d)) + Strip(d)
    decreases |d|
  {
    if d != [] && d[0] == 0 {
      SplitZeros(d[1..]);
      assert d == [0] + d[1..];
    }
  }

  lemma {:induction false} PadZeros(b: nat, k: nat, d: seq<int>)
    requires d == [] || d[0] != 0
    ensures Zeros(ZeroDigits(k) + d) == k
    ensures Value(b, ZeroDigits(k) + d) == Value(b, d)
    decreases k
  {
    hide Value;
    if k == 0 {
      assert ZeroDigits(k) + d == d;
    } else {
      PadZeros(b, k - 1, d);
      ZeroInFront(b, ZeroDigits(k - 1) + d);
      assert ZeroDigits(k) + d == [0] + (ZeroDigits(k - 1) + d);
      assert ([0] + (ZeroDigits(k - 1) + d))[1..] == ZeroDigits(k - 1) + d;
    }
  }

  lemma ConvertDigits(b: nat, c: nat, d: seq<int>)
    requires b >= 2 && c >= 2 && Digits(b, d)
    ensures Digits(c, Convert(b, c, d))
  {
    ValueBound(b, d);
    ToDigitsMeaning(c, Value(b, d));
  }

  /** Converting back undoes a conversion, whatever the two bases. */
  lemma ConvertBack(b: nat, c: nat, d: seq<int>)
    requires b >= 2 && c >= 2 && Digits(b, d)
    ensures Digits(c, Convert(b, c, d)) && Convert(c, b, Convert(b, c, d)) == d
  {
    ConvertDigits(b, c, d);
    ValueBound(b, d);
    var v := Value(b, d);
    ToDigitsMeaning(c, v);
    StripIsToDigits(b, d);
    SplitZeros(d);
    PadZeros(c, Zeros(d), ToDigits(c, v));
  }
}
