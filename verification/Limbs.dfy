/** Numbers as little-endian sequences of 32-bit limbs. */
module Limbs {
  import opened Radix

  const B: nat := 0x1_0000_0000

  type Word = w: int | 0 <= w < 0x1_0000_0000

  lemma TwoAdd(e: nat, f: nat)
    ensures Pow2(e + f) == Pow2(e) * Pow2(f)
  {
    PowAdd(2, e, f);
  }

  /** The weight of limb i. */
  function W(i: nat): (w: nat)
    ensures w >= 1
  {
    Pow2(32 * i)
  }

  function Num(s: seq<int>): int {
    if s == [] then 0 else Num(s[..|s| - 1]) + s[|s| - 1] * W(|s| - 1)
  }

  lemma Power32()
    ensures Pow2(32) == B
  {
    hide Pow2;
    Power8();
    TwoAdd(8, 8);
    TwoAdd(16, 16);
  }

  lemma Power8()
    ensures Pow2(0) == 1 && Pow2(1) == 2 && Pow2(7) == 128 && Pow2(8) == 256
  {
    assert Pow(2, 3) == 2 * (2 * 2);
    assert Pow(2, 5) == 2 * (2 * Pow(2, 3));
    assert Pow(2, 7) == 2 * (2 * Pow(2, 5));
  }

  lemma WNext(i: nat)
    ensures W(i + 1) == B * W(i) && W(0) == 1 && W(i) >= 1
  {
    hide Pow2;
    Power8();
    Power32();
    TwoAdd(32, 32 * i);
  }

  lemma WAdd(i: nat, j: nat)
    ensures W(i + j) == W(i) * W(j)
  {
    TwoAdd(32 * i, 32 * j);
  }

  lemma {:induction false} NumUpdate(s: seq<int>, i: nat, v: int)
    requires i < |s|
    ensures Num(s[i := v]) == Num(s) + (v - s[i]) * W(i)
    decreases |s|
  {
    hide W;
    var n, t := |s| - 1, s[i := v];
    if i == n {
      assert t[..n] == s[..n];
    } else {
      assert t[..n] == s[..n][i := v];
      NumUpdate(s[..n], i, v);
    }
  }

  lemma NumPrefix(s: seq<int>, i: nat)
    requires i < |s|
    ensures Num(s[..i + 1]) == Num(s[..i]) + s[i] * W(i)
  {
    assert s[..i + 1][..i] == s[..i];
  }

  lemma {:induction false} NumZero(s: seq<int>)
    requires forall i | 0 <= i < |s| :: s[i] == 0
    ensures Num(s) == 0
    decreases |s|
  {
    hide W;
    if s != [] {
      NumZero(s[..|s| - 1]);
    }
  }

  lemma {:induction false} NumBound(s: seq<Word>)
    ensures 0 <= Num(s) < W(|s|)
    decreases |s|
  {
    hide W;
    WNext(0);
    if s != [] {
      var n := |s| - 1;
      NumBound(s[..n]);
      WNext(n);
      var top: int := s[n];
      MulMono(0, top, 0, W(n));
      MulMono(top + 1, B, W(n), W(n));
      assert (top + 1) * W(n) == top * W(n) + W(n);
    }
  }

  /** The low limbs and the high ones. */
  lemma {:induction false} NumSplit(s: seq<int>, i: nat)
    requires i <= |s|
    ensures Num(s) == Num(s[..i]) + Num(s[i..]) * W(i)
    decreases |s|
  {
    if i == |s| {
      assert s[..i] == s;
    } else {
      var n := |s| - 1;
      NumSplit(s[..n], i);
      assert s[..n][..i] == s[..i];
      assert s[..n][i..] == s[i..][..n - i];
      TwoAdd(32 * (n - i), 32 * i);
      SplitStep(Num(s[i..][..n - i]), s[n], W(n - i), W(i), W(n));
    }
  }

  lemma SplitStep(h: int, d: int, p: int, q: int, r: int)
    requires r == p * q
    ensures (h + d * p) * q == h * q + d * r
  {
    assert d * (p * q) == (d * p) * q;
  }

  /** A number below n that differs from v by a multiple of n is v modulo n. */
  lemma Wrap(x: int, q: int, n: int, v: int)
    requires 0 <= x < n && x + q * n == v
    ensures x == v % n
  {
    assert v == v / n * n + v % n;
    Steps(v / n, q, n);
  }

  // ---------------------------------------------------------------- bitwise or

  function Or(x: nat, y: nat): nat
    decreases x + y
  {
    if x == 0 && y == 0 then 0
    else 2 * Or(x / 2, y / 2) + (if x % 2 == 1 || y % 2 == 1 then 1 else 0)
  }

  lemma {:induction false} OrZero(y: nat)
    ensures Or(0, y) == y && Or(y, 0) == y
  {
    if y > 0 {
      OrZero(y / 2);
    }
  }

  /** On bits that do not meet, or is addition. */
  lemma {:induction false} OrDisjoint(x: nat, y: nat, k: nat)
    requires x < Pow2(k) && y % Pow2(k) == 0
    ensures Or(x, y) == x + y && Or(y, x) == x + y
    decreases k
  {
    if k == 0 {
      OrZero(y);
    } else {
      HalfMultiple(y, Pow2(k - 1));
      OrDisjoint(x / 2, y / 2, k - 1);
    }
  }

  lemma HalfMultiple(y: nat, p: nat)
    requires p > 0 && y % (2 * p) == 0
    ensures y % 2 == 0 && (y / 2) % p == 0
  {
    var q := y / (2 * p);
    assert y == 2 * (p * q);
    assert y / 2 == p * q;
    Wrap(0, q, p, p * q);
  }
}
