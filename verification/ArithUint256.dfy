/** 256-bit unsigned integers in eight 32-bit limbs, updated in place. */
module ArithUint256 {
  import opened Radix
  import opened Limbs

  const WIDTH: nat := 8

  /** Writing n % B over x and carrying n / B changes the number by n - x at that place. */
  lemma Carry(n: int, x: int, w: int, w': int)
    requires w' == B * w
    ensures (n % B - x) * w + n / B * w' == (n - x) * w
  {
    var q, r := n / B, n % B;
    assert n == B * q + r;
    assert q * (B * w) == (B * q) * w;
    assert (r - x) * w + (B * q) * w == (r - x + B * q) * w;
  }

  method Copy(b: array<Word>) returns (a: array<Word>)
    requires b.Length == WIDTH
    ensures fresh(a) && a[..] == b[..]
  {
    a := new Word[WIDTH](i requires 0 <= i < b.Length reads b => b[i]);
  }

  /** The limbs of a 64-bit number. */
  ghost function Small(b: nat): (s: seq<Word>)
    requires b < B * B
    ensures |s| == WIDTH
  {
    [b % B, b / B, 0, 0, 0, 0, 0, 0]
  }

  lemma SmallNum(b: nat)
    requires b < B * B
    ensures Num(Small(b)) == b
  {
    hide Num, W;
    var s: seq<int> := Small(b);
    NumSplit(s, 2);
    NumZero(s[2..]);
    NumPrefix(s, 1);
    NumPrefix(s, 0);
    NumZero(s[..0]);
    WNext(0);
  }

  method Assign(a: array<Word>, b: nat)
    requires a.Length == WIDTH && b < B * B
    modifies a
    ensures Num(a[..]) == b && (b == 0 ==> AllZero(a[..]))
  {
    hide Num, W;
    a[0] := b % B;
    a[1] := b / B;
    for i := 2 to WIDTH
      invariant a[0] == b % B && a[1] == b / B && forall k | 2 <= k < i :: a[k] == 0
    {
      a[i] := 0;
    }
    assert a[..] == Small(b);
    SmallNum(b);
  }

  method FromUint64(b: nat) returns (a: array<Word>)
    requires b < B * B
    ensures fresh(a) && a.Length == WIDTH && Num(a[..]) == b
  {
    a := new Word[WIDTH](_ => 0);
    Assign(a, b);
  }

  // ------------------------------------------------------ addition, subtraction

  lemma SumTimes(c: int, d: int, w: int)
    ensures (c + d) * w == c * w + d * w
  {
  }

  method AddAssign(a: array<Word>, b: array<Word>)
    requires a.Length == b.Length == WIDTH
    modifies a
    ensures Num(a[..]) == (old(Num(a[..])) + old(Num(b[..]))) % W(WIDTH)
  {
    hide Num, W;
    ghost var x: seq<int>, y: seq<int> := a[..], b[..];
    var carry := 0;
    WNext(0);
    NumZero(y[..0]);
    for i := 0 to WIDTH
      invariant 0 <= carry <= 1
      invariant forall k | i <= k < WIDTH :: a[k] == x[k] && b[k] == y[k]
      invariant Num(a[..]) + carry * W(i) == Num(x) + Num(y[..i])
    {
      var n := carry + a[i] + b[i];
      ghost var s: seq<int>, c := a[..], carry;
      NumUpdate(s, i, n % B);
      NumPrefix(y, i);
      WNext(i);
      Carry(n, a[i], W(i), W(i + 1));
      a[i] := n % B;
      carry := n / B;
      assert a[..] == s[i := n % B];
      SumTimes(c, y[i], W(i));
    }
    assert y[..WIDTH] == y;
    NumBound(a[..]);
    Wrap(Num(a[..]), carry, W(WIDTH), Num(x) + Num(y));
  }

  method Complement(b: array<Word>) returns (a: array<Word>)
    requires b.Length == WIDTH
    ensures fresh(a) && a.Length == WIDTH && Num(a[..]) == W(WIDTH) - 1 - Num(b[..])
  {
    hide Num, W;
    a := new Word[WIDTH](_ => 0);
    WNext(0);
    NumZero(b[..0]);
    NumZero(a[..]);
    for i := 0 to WIDTH
      invariant forall k | i <= k < WIDTH :: a[k] == 0
      invariant Num(a[..]) == W(i) - 1 - Num(b[..i])
    {
      ghost var s: seq<int> := a[..];
      var n := B - 1 - b[i];
      NumUpdate(s, i, n);
      NumPrefix(b[..], i);
      assert b[..][..i + 1] == b[..i + 1] && b[..][..i] == b[..i];
      WNext(i);
      a[i] := n;
      assert a[..] == s[i := n];
      assert (B - 1 - b[i]) * W(i) == B * W(i) - W(i) - b[i] * W(i);
    }
    assert b[..WIDTH] == b[..];
  }

  method Increment(a: array<Word>)
    requires a.Length == WIDTH
    modifies a
    ensures Num(a[..]) == (old(Num(a[..])) + 1) % W(WIDTH)
  {
    hide Num, W;
    ghost var x := Num(a[..]);
    WNext(0);
    var i := 0;
    var carried := true;
    NumBound(a[..]);
    Wrap(x, 0, W(WIDTH), x);
    while carried
      invariant 0 <= i <= WIDTH && (carried ==> i < WIDTH)
      invariant carried ==> Num(a[..]) + W(i) == x + 1
      invariant !carried ==> Num(a[..]) == (x + 1) % W(WIDTH)
      decreases carried, WIDTH - i
    {
      ghost var s: seq<int> := a[..];
      ghost var y := Num(s);
      var n := (a[i] + 1) % B;
      NumUpdate(s, i, n);
      WNext(i);
      a[i] := n;
      assert a[..] == s[i := n];
      NumBound(a[..]);
      carried := n == 0 && i < WIDTH - 1;
      if n == 0 {
        assert (n - s[i]) * W(i) == W(i) - B * W(i);
        if i == WIDTH - 1 {
          Wrap(Num(a[..]), 1, W(WIDTH), x + 1);
        }
      } else {
        assert (n - s[i]) * W(i) == W(i);
        Wrap(Num(a[..]), 0, W(WIDTH), x + 1);
      }
      i := i + 1;
    }
  }

  method Negate(b: array<Word>) returns (a: array<Word>)
    requires b.Length == WIDTH
    ensures fresh(a) && a.Length == WIDTH && Num(a[..]) == (W(WIDTH) - Num(b[..])) % W(WIDTH)
  {
    hide Num, W;
    a := Complement(b);
    Increment(a);
  }

  method SubAssign(a: array<Word>, b: array<Word>)
    requires a.Length == b.Length == WIDTH
    modifies a
    ensures Num(a[..]) == (old(Num(a[..])) - old(Num(b[..]))) % W(WIDTH)
  {
    hide Num, W;
    ghost var x, y := Num(a[..]), Num(b[..]);
    NumBound(b[..]);
    var c := Negate(b);
    AddAssign(a, c);
    Borrow(x, y, W(WIDTH));
  }

  lemma Borrow(x: int, y: int, n: int)
    requires 0 <= y < n
    ensures (x + (n - y) % n) % n == (x - y) % n
  {
    var r := (x + (n - y) % n) % n;
    var q := (x + (n - y) % n) / n;
    assert x + (n - y) % n == q * n + r;
    if y == 0 {
      Wrap(0, 1, n, n);
      Wrap(r, q, n, x - y);
    } else {
      Wrap(n - y, 0, n, n - y);
      assert (q - 1) * n == q * n - n;
      Wrap(r, q - 1, n, x - y);
    }
  }

  // -------------------------------------------------------------- multiplication

  /** The product with a 32-bit number. */
  method MulAssign32(a: array<Word>, b32: Word)
    requires a.Length == WIDTH
    modifies a
    ensures Num(a[..]) == (old(Num(a[..])) * b32) % W(WIDTH)
  {
    hide Num, W;
    ghost var x: seq<int> := a[..];
    var carry := 0;
    WNext(0);
    NumZero(x[..0]);
    for i := 0 to WIDTH
      invariant 0 <= carry < B
      invariant forall k | i <= k < WIDTH :: a[k] == x[k]
      invariant Num(a[..]) + carry * W(i) == Num(x) + (b32 - 1) * Num(x[..i])
    {
      var n := carry + b32 * a[i];
      ghost var s: seq<int>, c := a[..], carry;
      SmallProduct(carry, 0, b32, a[i]);
      NumUpdate(s, i, n % B);
      NumPrefix(x, i);
      WNext(i);
      Carry(n, a[i], W(i), W(i + 1));
      a[i] := n % B;
      carry := n / B;
      assert a[..] == s[i := n % B];
      Mul32Step(c, b32, x[i], W(i), Num(x[..i]));
    }
    assert x[..WIDTH] == x;
    NumBound(a[..]);
    assert (b32 - 1) * Num(x) == b32 * Num(x) - Num(x);
    Wrap(Num(a[..]), carry, W(WIDTH), Num(x) * b32);
  }

  /** A 64-bit accumulator holds carry + limb + limb * limb. */
  lemma SmallProduct(carry: Word, z: Word, x: Word, y: Word)
    ensures 0 <= carry + z + x * y < B * B
    ensures 0 <= (carry + z + x * y) / B < B
  {
    MulMono(x, B - 1, y, B - 1);
    MulMono(0, x, 0, y);
  }

  lemma Mul32Step(c: int, b: int, x: int, w: int, v: int)
    ensures (c + b * x - x) * w + (b - 1) * v == c * w + (b - 1) * (v + x * w)
  {
    assert (b * x - x) * w == (b - 1) * (x * w);
  }

  predicate AllZero(s: seq<int>) {
    forall k | 0 <= k < |s| :: s[k] == 0
  }

  /** Adds aj * b, moved up by j limbs; what leaves the top is the carry. */
  method MulRow(p: array<Word>, aj: Word, b: array<Word>, j: nat) returns (ghost carry': int)
    requires p.Length == b.Length == WIDTH && j < WIDTH && (p == b ==> AllZero(p[..]))
    modifies p
    ensures p != b ==> Num(p[..]) + carry' * W(WIDTH) == old(Num(p[..])) + (aj * Num(b[..WIDTH - j])) * W(j)
    ensures p == b ==> AllZero(p[..])
  {
    hide Num, W;
    ghost var x := Num(p[..]);
    var carry := 0;
    NumZero(b[..0]);
    assert (aj * 0) * W(j) == 0;
    for i := 0 to WIDTH - j
      invariant 0 <= carry < B
      invariant p != b ==> Num(p[..]) + carry * W(i + j) == x + (aj * Num(b[..i])) * W(j)
      invariant p == b ==> carry == 0 && AllZero(p[..])
    {
      var n := carry + p[i + j] + aj * b[i];
      ghost var s: seq<int>, c := p[..], carry;
      SmallProduct(carry, p[i + j], aj, b[i]);
      NumUpdate(s, i + j, n % B);
      NumPrefix(b[..], i);
      assert b[..][..i + 1] == b[..i + 1] && b[..][..i] == b[..i];
      WNext(i + j);
      WAdd(i, j);
      Carry(n, p[i + j], W(i + j), W(i + j + 1));
      p[i + j] := n % B;
      carry := n / B;
      assert p[..] == s[i + j := n % B];
      RowStep(c, aj, b[i], W(i), W(j), Num(b[..i]));
    }
    carry' := carry;
  }

  lemma RowStep(c: int, a: int, d: int, w: int, w': int, v: int)
    ensures (c + a * d) * (w * w') + (a * v) * w' == c * (w * w') + (a * (v + d * w)) * w'
  {
    assert (a * d) * (w * w') == (a * (d * w)) * w';
    assert (a * (v + d * w)) * w' == (a * v) * w' + (a * (d * w)) * w';
  }

  /** One more row of the product. */
  lemma MulRows(x: seq<int>, y: seq<int>, j: nat, before: int, after: int, c: int, q: int) returns (q': int)
    requires j < |x| && |y| == WIDTH && j < WIDTH && before + q * W(WIDTH) == Num(x[..j]) * Num(y)
    requires after + c * W(WIDTH) == before + (x[j] * Num(y[..WIDTH - j])) * W(j)
    ensures after + q' * W(WIDTH) == Num(x[..j + 1]) * Num(y)
  {
    hide Num, W;
    NumSplit(y, WIDTH - j);
    NumPrefix(x, j);
    WAdd(WIDTH - j, j);
    MulStep(x[j], Num(y[..WIDTH - j]), Num(y[WIDTH - j..]), W(WIDTH - j), W(j), Num(x[..j]));
    var high := x[j] * Num(y[WIDTH - j..]);
    assert (q + c + high) * W(WIDTH) == q * W(WIDTH) + c * W(WIDTH) + high * W(WIDTH);
    q' := q + c + high;
  }

  /** The product. An operand that is the target itself is gone once the target has been
      cleared, and the product comes out as zero. */
  method MulAssign(p: array<Word>, b: array<Word>)
    requires p.Length == b.Length == WIDTH
    modifies p
    ensures Num(p[..]) == if p == b then 0 else old(Num(p[..])) * Num(b[..]) % W(WIDTH)
  {
    hide Num, W;
    var a := Copy(p);
    ghost var x: seq<int>, y: seq<int> := a[..], b[..];
    Assign(p, 0);
    ghost var q := 0;
    NumZero(x[..0]);
    for j := 0 to WIDTH
      invariant a[..] == x
      invariant p == b ==> AllZero(p[..])
      invariant p != b ==> b[..] == y && Num(p[..]) + q * W(WIDTH) == Num(x[..j]) * Num(y)
    {
      ghost var before := Num(p[..]);
      ghost var c := MulRow(p, a[j], b, j);
      if p != b {
        assert b[..WIDTH - j] == y[..WIDTH - j];
        q := MulRows(x, y, j, before, Num(p[..]), c, q);
      }
    }
    if p == b {
      NumZero(p[..]);
    } else {
      assert x[..WIDTH] == x;
      NumBound(p[..]);
      Wrap(Num(p[..]), q, W(WIDTH), Num(x) * Num(y));
    }
  }

  lemma MulStep(d: int, low: int, high: int, w: int, w': int, v: int)
    ensures (v + d * w') * (low + high * w) == v * (low + high * w) + (d * low) * w' + (d * high) * (w * w')
  {
    assert (d * w') * (low + high * w) == (d * w') * low + (d * w') * (high * w);
    assert (d * w') * low == (d * low) * w';
    assert (d * w') * (high * w) == (d * high) * (w * w');
  }

  // ---------------------------------------------------------------------- shifts

  /** A limb moved up by s < 32 bits, cut at the limb's edge. */
  lemma Halves(d: Word, s: nat)
    requires s < 32
    ensures Pow2(s) * Pow2(32 - s) == B
    ensures d * Pow2(s) == d / Pow2(32 - s) * B + d * Pow2(s) % B
    ensures 0 <= d / Pow2(32 - s) < Pow2(s) && (s == 0 ==> d / Pow2(32 - s) == 0)
    ensures d * Pow2(s) % B <= B - Pow2(s) && (d * Pow2(s) % B) % Pow2(s) == 0
  {
    hide Pow2;
    TwoAdd(s, 32 - s);
    Power8();
    Power32();
    HalvesOf(d, Pow2(s), Pow2(32 - s));
  }

  lemma HalvesOf(d: Word, p: nat, r: nat)
    requires p >= 1 && r >= 1 && p * r == B
    ensures d * p == d / r * B + d * p % B
    ensures 0 <= d / r < p
    ensures d * p % B <= B - p && (d * p % B) % p == 0
  {
    var h, l := d / r, d % r;
    assert d == r * h + l;
    assert (r * h + l) * p == h * (p * r) + l * p;
    MulMono(l, r - 1, p, p);
    assert (r - 1) * p == p * r - p;
    MulMono(0, l, 0, p);
    Wrap(l * p, h, B, d * p);
    Wrap(0, l, p, l * p);
    Steps(p, h, r);
  }

  /** pn[m] |= v, on bits that do not meet. */
  method OrLimb(pn: array<Word>, m: nat, v: Word, ghost t: nat)
    requires pn.Length == WIDTH && m < WIDTH && pn[m] + v < B
    requires (pn[m] < Pow2(t) && v % Pow2(t) == 0) || (v < Pow2(t) && pn[m] % Pow2(t) == 0)
    modifies pn
    ensures pn[..] == old(pn[..])[m := old(pn[m]) + v]
    ensures Num(pn[..]) == old(Num(pn[..])) + v * W(m)
  {
    hide Num, W, Pow2;
    ghost var before: seq<int> := pn[..];
    if pn[m] < Pow2(t) && v % Pow2(t) == 0 {
      OrDisjoint(pn[m], v, t);
    } else {
      OrDisjoint(v, pn[m], t);
    }
    NumUpdate(before, m, before[m] + v);
    pn[m] := Or(pn[m], v);
    assert pn[..] == before[m := before[m] + v];
  }

  /** One limb of a left shift; `lost` counts what leaves the top. */
  method LeftLimb(pn: array<Word>, d: Word, i: nat, k: nat, s: nat) returns (ghost lost: int)
    requires pn.Length == WIDTH && s < 32
    requires forall m | i + k < m < WIDTH :: pn[m] == 0
    requires i + k < WIDTH ==> pn[i + k] < Pow2(s)
    modifies pn
    ensures forall m | i + k + 1 < m < WIDTH :: pn[m] == 0
    ensures i + k + 1 < WIDTH ==> pn[i + k + 1] < Pow2(s)
    ensures Num(pn[..]) + lost * W(WIDTH) == old(Num(pn[..])) + (d * Pow2(s)) * W(i + k)
  {
    hide Num, W, Pow2;
    ghost var hi, lo := d / Pow2(32 - s), d * Pow2(s) % B;
    Halves(d, s);
    WNext(i + k);
    Spread(d * Pow2(s), hi, lo, W(i + k));
    if i + k >= WIDTH {
      TopLossIs(d * Pow2(s), hi, i + k);
    }
    if i + k + 1 < WIDTH && s != 0 {
      assert 0 % Pow2(s) == 0;
      OrLimb(pn, i + k + 1, d / Pow2(32 - s), s);
    }
    if i + k < WIDTH {
      OrLimb(pn, i + k, d * Pow2(s) % B, s);
    }
    lost := TopLoss(d * Pow2(s), hi, i + k);
  }

  /** What a limb that lands at place m loses beyond the top. */
  ghost function TopLoss(x: int, hi: int, m: nat): int {
    if m >= WIDTH then x * W(m - WIDTH) else if m == WIDTH - 1 then hi else 0
  }

  lemma TopLossIs(x: int, hi: int, m: nat)
    requires m >= WIDTH
    ensures TopLoss(x, hi, m) * W(WIDTH) == x * W(m)
  {
    hide W;
    WAdd(m - WIDTH, WIDTH);
    Regroup(x, W(m - WIDTH), W(WIDTH));
  }

  lemma Spread(x: int, hi: int, lo: int, w: int)
    requires x == hi * B + lo
    ensures x * w == lo * w + hi * (B * w)
  {
    assert (hi * B + lo) * w == (hi * B) * w + lo * w;
  }

  method ShiftLeft(pn: array<Word>, shift: nat)
    requires pn.Length == WIDTH
    modifies pn
    ensures Num(pn[..]) == (old(Num(pn[..])) * Pow2(shift)) % W(WIDTH)
  {
    hide Num, W, Pow2;
    var a := Copy(pn);
    ghost var x: seq<int> := a[..];
    Clear(pn);
    var k, s := shift / 32, shift % 32;
    ghost var p := Pow2(s);
    ghost var q := 0;
    NumZero(x[..0]);
    Halves(0, s);
    for i := 0 to WIDTH
      invariant a[..] == x
      invariant forall m | i + k < m < WIDTH :: pn[m] == 0
      invariant i + k < WIDTH ==> pn[i + k] < p
      invariant Num(pn[..]) + q * W(WIDTH) == (Num(x[..i]) * p) * W(k)
    {
      ghost var lost := LeftLimb(pn, a[i], i, k, s);
      NumPrefix(x, i);
      WAdd(i, k);
      LeftStep(Num(x[..i]), x[i], p, W(i), W(k));
      assert (q + lost) * W(WIDTH) == q * W(WIDTH) + lost * W(WIDTH);
      q := q + lost;
    }
    assert x[..WIDTH] == x;
    NumBound(pn[..]);
    Wrap(Num(pn[..]), q, W(WIDTH), (Num(x) * p) * W(k));
    PowerOfShift(shift);
    Regroup(Num(x), p, W(k));
  }

  lemma LeftStep(v: int, d: int, p: int, w: int, w': int)
    ensures ((v + d * w) * p) * w' == (v * p) * w' + (d * p) * (w * w')
  {
    assert (v + d * w) * p == v * p + (d * p) * w;
    assert (v * p + (d * p) * w) * w' == (v * p) * w' + ((d * p) * w) * w';
  }

  /** One limb of a right shift; what falls out at the bottom is at most one part of a limb. */
  method RightLimb(pn: array<Word>, d: Word, i: nat, k: nat, s: nat)
    requires pn.Length == WIDTH && s < 32 && i < WIDTH
    requires forall m | 0 <= m < WIDTH && m >= i - k :: pn[m] == 0
    requires i > k ==> pn[i - k - 1] < Pow2(32 - s)
    modifies pn
    ensures forall m | 0 <= m < WIDTH && m >= i + 1 - k :: pn[m] == 0
    ensures i >= k ==> pn[i - k] < Pow2(32 - s)
    ensures i < k ==> Num(pn[..]) == old(Num(pn[..]))
    ensures i == k ==> Num(pn[..]) == old(Num(pn[..])) + d / Pow2(s)
    ensures i > k ==> Num(pn[..]) == old(Num(pn[..])) + (d * Pow2(32 - s)) * W(i - k - 1)
  {
    hide Num, W, Pow2;
    HalvesDown(d, s);
    WNext(0);
    if i > k {
      WNext(i - k - 1);
      Spread(d * Pow2(32 - s), d / Pow2(s), d * Pow2(32 - s) % B, W(i - k - 1));
    }
    if i - k - 1 >= 0 && s != 0 {
      OrLimb(pn, i - k - 1, d * Pow2(32 - s) % B, 32 - s);
    }
    if i - k >= 0 {
      assert 0 % Pow2(32 - s) == 0;
      OrLimb(pn, i - k, d / Pow2(s), 32 - s);
    }
  }

  lemma HalvesDown(d: Word, s: nat)
    requires s < 32
    ensures Pow2(s) * Pow2(32 - s) == B
    ensures d * Pow2(32 - s) == d / Pow2(s) * B + d * Pow2(32 - s) % B
    ensures 0 <= d / Pow2(s) < Pow2(32 - s)
    ensures d * Pow2(32 - s) % B <= B - Pow2(32 - s) && (d * Pow2(32 - s) % B) % Pow2(32 - s) == 0
    ensures s == 0 ==> d * Pow2(32 - s) % B == 0
  {
    hide Pow2;
    TwoAdd(s, 32 - s);
    Power8();
    Power32();
    HalvesOf(d, Pow2(32 - s), Pow2(s));
    if s == 0 {
      Wrap(0, d, B, d * B);
    }
  }

  method ShiftRight(pn: array<Word>, shift: nat)
    requires pn.Length == WIDTH
    modifies pn
    ensures Pow2(shift) >= 1
    ensures Num(pn[..]) == old(Num(pn[..])) / Pow2(shift)
  {
    hide Num, W, Pow2;
    var a := Copy(pn);
    ghost var x: seq<int> := a[..];
    Clear(pn);
    var k, s := shift / 32, shift % 32;
    ghost var p := Pow2(s);
    ghost var rem := 0;
    NumZero(x[..0]);
    HalvesDown(0, s);
    for i := 0 to WIDTH
      invariant a[..] == x
      invariant forall m | 0 <= m < WIDTH && m >= i - k :: pn[m] == 0
      invariant i > k ==> pn[i - k - 1] < Pow2(32 - s)
      invariant (Num(pn[..]) * p) * W(k) + rem == Num(x[..i])
      invariant i <= k ==> Num(pn[..]) == 0 && 0 <= rem < W(i)
      invariant i > k ==> 0 <= rem < p * W(k)
    {
      ghost var v := Num(pn[..]);
      RightLimb(pn, a[i], i, k, s);
      NumPrefix(x, i);
      NumBound(a[..i + 1]);
      assert a[..i + 1] == x[..i + 1];
      if i < k {
        assert (0 * p) * W(k) == 0;
        rem := Num(x[..i + 1]);
      } else if i == k {
        RightFirst(x[i], p, W(k), rem);
        rem := rem + x[i] % p * W(k);
      } else {
        WAdd(i - k, k);
        WNext(i - k - 1);
        RightStep(v, x[i], p, Pow2(32 - s), W(i - k - 1), W(k));
      }
    }
    assert x[..WIDTH] == x;
    PowerOfShift(shift);
    Regroup(Num(pn[..]), p, W(k));
    if WIDTH <= k {
      WLarger(WIDTH, k);
      MulMono(1, p, W(k), W(k));
    }
    Quotient(Num(x), Num(pn[..]), rem, p * W(k));
  }

  lemma WLarger(i: nat, j: nat)
    requires i <= j
    ensures W(i) <= W(j)
  {
    if i < j {
      TwoGrows(32 * i, 32 * j);
    }
  }

  lemma RightFirst(d: int, p: int, w: int, rem: int)
    requires p >= 1 && 0 <= rem < w && d >= 0
    ensures (d / p * p) * w + (rem + d % p * w) == rem + d * w
    ensures 0 <= rem + d % p * w < p * w
  {
    assert d == d / p * p + d % p;
    assert (d / p * p + d % p) * w == (d / p * p) * w + d % p * w;
    MulMono(d % p, p - 1, w, w);
    MulMono(0, d % p, 0, w);
    assert (p - 1) * w == p * w - w;
  }

  lemma RightStep(v: int, d: int, p: int, r: int, w: int, w': int)
    requires p * r == B
    ensures ((v + (d * r) * w) * p) * w' == (v * p) * w' + d * ((B * w) * w')
  {
    assert ((d * r) * w) * p == d * ((p * r) * w);
    assert (v + (d * r) * w) * p == v * p + d * (B * w);
    assert (v * p + d * (B * w)) * w' == (v * p) * w' + (d * (B * w)) * w';
  }

  /** A quotient is known by its remainder. */
  lemma Quotient(v: int, q: int, r: int, n: int)
    requires 0 <= r < n && q * n + r == v
    ensures q == v / n && r == v % n
  {
    Wrap(r, q, n, v);
    assert v == v / n * n + v % n;
    assert (v / n - q) * n == 0;
  }

  lemma PowerOfShift(shift: nat)
    ensures Pow2(shift) == Pow2(shift % 32) * W(shift / 32)
  {
    TwoAdd(shift % 32, 32 * (shift / 32));
  }

  method Clear(pn: array<Word>)
    requires pn.Length == WIDTH
    modifies pn
    ensures Num(pn[..]) == 0 && forall i | 0 <= i < WIDTH :: pn[i] == 0
  {
    for i := 0 to WIDTH
      invariant forall m | 0 <= m < i :: pn[m] == 0
    {
      pn[i] := 0;
    }
    NumZero(pn[..]);
  }

  // ------------------------------------------------------------------ comparison

  /** The highest limb that differs decides. */
  lemma TopLimbDecides(s: seq<Word>, t: seq<Word>, i: nat)
    requires |s| == |t| && i < |s| && s[i + 1..] == t[i + 1..] && s[i] < t[i]
    ensures Num(s) < Num(t)
  {
    hide Num, W;
    NumSplit(s, i + 1);
    NumSplit(t, i + 1);
    NumPrefix(s, i);
    NumPrefix(t, i);
    NumBound(s[..i]);
    NumBound(t[..i]);
    var x: int, y: int := s[i], t[i];
    MulMono(x + 1, y, W(i), W(i));
    assert (x + 1) * W(i) == x * W(i) + W(i);
  }

  method CompareTo(a: array<Word>, b: array<Word>) returns (r: int)
    requires a.Length == b.Length == WIDTH
    ensures r == if Num(a[..]) < Num(b[..]) then -1 else if Num(a[..]) > Num(b[..]) then 1 else 0
  {
    hide Num, W;
    for i := WIDTH downto 0
      invariant a[i..] == b[i..]
    {
      if a[i] < b[i] {
        TopLimbDecides(a[..], b[..], i);
        return -1;
      }
      if a[i] > b[i] {
        TopLimbDecides(b[..], a[..], i);
        return 1;
      }
      assert a[i..] == [a[i]] + a[i + 1..];
      assert b[i..] == [b[i]] + b[i + 1..];
    }
    assert a[..] == b[..];
    return 0;
  }

  lemma {:induction false} NumInjective(s: seq<Word>, t: seq<Word>, i: nat)
    requires |s| == |t| && i <= |s| && s[i..] == t[i..] && s != t
    ensures Num(s) != Num(t)
    decreases i
  {
    hide Num;
    if i == 0 {
      assert false;
    } else if s[i - 1] == t[i - 1] {
      assert s[i - 1..] == [s[i - 1]] + s[i..];
      assert t[i - 1..] == [t[i - 1]] + t[i..];
      NumInjective(s, t, i - 1);
    } else if s[i - 1] < t[i - 1] {
      TopLimbDecides(s, t, i - 1);
    } else {
      TopLimbDecides(t, s, i - 1);
    }
  }

  method EqualTo(a: array<Word>, b: nat) returns (r: bool)
    requires a.Length == WIDTH && b < B * B
    ensures r <==> Num(a[..]) == b
  {
    hide Num, W;
    SmallNum(b);
    if a[..] != Small(b) {
      NumInjective(a[..], Small(b), WIDTH);
    }
    for i := WIDTH downto 2
      invariant forall k | i <= k < WIDTH :: a[k] == 0
    {
      if a[i] != 0 {
        assert a[..][i] != Small(b)[i];
        return false;
      }
    }
    if a[1] != b / B {
      assert a[..][1] != Small(b)[1];
      return false;
    }
    if a[0] != b % B {
      assert a[..][0] != Small(b)[0];
      return false;
    }
    assert a[..] == Small(b);
    return true;
  }

  method GetLow64(a: array<Word>) returns (r: nat)
    requires a.Length == WIDTH
    ensures r == Num(a[..]) % W(2)
  {
    hide Num, W, Pow2;
    Power32();
    Wrap(0, a[1], B, a[1] * B);
    OrDisjoint(a[0], a[1] * B, 32);
    r := Or(a[0], a[1] * B);
    ghost var s: seq<int> := a[..];
    NumSplit(s, 2);
    NumPrefix(s, 1);
    NumPrefix(s, 0);
    NumZero(s[..0]);
    WNext(0);
    NumBound(a[..2]);
    assert a[..2] == s[..2];
    Wrap(r, Num(s[2..]), W(2), Num(s));
  }

  // ------------------------------------------------------- position of the top bit

  /** A word below 2^(bits+1) has bit `bits` set exactly when it is at least 2^bits. */
  lemma TopBit(w: nat, bits: nat)
    requires w < Pow2(bits + 1)
    ensures w / Pow2(bits) % 2 == 1 <==> w >= Pow2(bits)
  {
    Power8();
    TwoAdd(bits, 1);
    hide Pow2;
    var p := Pow2(bits);
    if w < p {
      Quotient(w, 0, w, p);
    } else {
      Quotient(w, 1, w - p, p);
    }
  }

  method Bits(a: array<Word>) returns (n: nat)
    requires a.Length == WIDTH
    ensures n <= 256 && Num(a[..]) < Pow2(n)
    ensures n > 0 ==> Pow2(n - 1) <= Num(a[..])
    ensures n == 0 ==> Num(a[..]) == 0
  {
    hide Num, W, Pow2;
    for pos := WIDTH downto 0
      invariant forall k | pos <= k < WIDTH :: a[k] == 0
    {
      if a[pos] != 0 {
        Power8();
        Power32();
        for bits := 32 downto 1
          invariant a[pos] < Pow2(bits)
        {
          TopBit(a[pos], bits);
          if a[pos] / Pow2(bits) % 2 == 1 {
            TopLimb(a[..], pos, bits);
            return 32 * pos + bits + 1;
          }
        }
        TopLimb(a[..], pos, 0);
        return 32 * pos + 1;
      }
    }
    NumZero(a[..]);
    Power8();
    return 0;
  }

  lemma TopLimb(s: seq<Word>, pos: nat, bits: nat)
    requires pos < |s| && (forall k | pos < k < |s| :: s[k] == 0)
    requires Pow2(bits) <= s[pos] < Pow2(bits + 1)
    ensures Pow2(32 * pos + bits) <= Num(s) < Pow2(32 * pos + bits + 1)
  {
    hide *;
    TopLimbNum(s, pos);
    TwoAdd(bits, 32 * pos);
    TwoAdd(bits + 1, 32 * pos);
    Bracket(s[pos], Num(s[..pos]), Pow2(32 * pos), Pow2(bits), Pow2(bits + 1));
  }

  lemma TopLimbNum(s: seq<Word>, pos: nat)
    requires pos < |s| && (forall k | pos < k < |s| :: s[k] == 0)
    ensures Num(s) == Num(s[..pos]) + s[pos] * Pow2(32 * pos) && 0 <= Num(s[..pos]) < Pow2(32 * pos)
  {
    hide Num, Pow2;
    NumSplit(s, pos + 1);
    NumZero(s[pos + 1..]);
    NumPrefix(s, pos);
    NumBound(s[..pos]);
  }

  lemma Bracket(x: int, low: int, w: int, p: int, p': int)
    requires 0 <= p <= x < p' && 0 <= low < w
    ensures p * w <= low + x * w < p' * w
  {
    Steps(p, x, w);
    Steps(x, p', w);
  }

  // -------------------------------------------------------------------- division

  /** The low t bits are zero. */
  ghost predicate LowClear(s: seq<Word>, t: nat) {
    && (forall m | 0 <= m < t / 32 && m < |s| :: s[m] == 0)
    && (t / 32 < |s| ==> s[t / 32] % Pow2(t % 32) == 0)
  }

  /** Before bit t is set, its limb is clear up to and including that bit. */
  lemma ClearAbove(s: seq<Word>, t: nat)
    requires t / 32 < |s| && LowClear(s, t + 1)
    ensures s[t / 32] % Pow2(t % 32 + 1) == 0
    ensures s[t / 32] + Pow2(t % 32) < B && (s[t / 32] + Pow2(t % 32)) % Pow2(t % 32) == 0
    ensures LowClear(s, t)
    ensures Pow2(t) == Pow2(t % 32) * W(t / 32) && Pow2(t % 32) < Pow2(t % 32 + 1)
  {
    PowerOfShift(t);
    var b := t % 32;
    if b == 31 {
      assert (t + 1) / 32 == t / 32 + 1;
    } else {
      assert (t + 1) / 32 == t / 32 && (t + 1) % 32 == b + 1;
    }
    TwoAdd(b, 1);
    TwoAdd(b + 1, 31 - b);
    Power8();
    Power32();
    hide Pow2, W;
    RoomForBit(s[t / 32], Pow2(b), Pow2(31 - b));
  }

  lemma RoomForBit(x: Word, p: nat, r: nat)
    requires p >= 1 && x % (p * 2) == 0 && (p * 2) * r == B
    ensures x + p < B && x % p == 0 && (x + p) % p == 0
  {
    var q := x / (p * 2);
    assert x == (p * 2) * q;
    Steps(q, r, p * 2);
    assert (p * 2) * q == (2 * q) * p;
    Wrap(0, 2 * q, p, x);
    Wrap(0, 2 * q + 1, p, x + p);
  }

  /** One round: if the shifted divisor fits, take it away and set the quotient's bit. */
  method DivStep(a: array<Word>, num: array<Word>, div: array<Word>, shift: nat, ghost d: int)
    requires a.Length == num.Length == div.Length == WIDTH && a != num && a != div && num != div
    requires shift < 256 && LowClear(a[..], shift + 1)
    requires Num(div[..]) == d * Pow2(shift)
    modifies a, num
    ensures LowClear(a[..], shift)
    ensures Num(a[..]) * d + Num(num[..]) == old(Num(a[..]) * d + Num(num[..]))
    ensures old(Num(num[..])) < 2 * Num(div[..]) ==> Num(num[..]) < Num(div[..])
  {
    hide Num, W, Pow2;
    ghost var q, n := Num(a[..]), Num(num[..]);
    ClearAbove(a[..], shift);
    NumBound(num[..]);
    NumBound(div[..]);
    var c := CompareTo(num, div);
    if c >= 0 {
      SubAssign(num, div);
      Wrap(n - d * Pow2(shift), 0, W(WIDTH), n - d * Pow2(shift));
      OrLimb(a, shift / 32, Pow2(shift % 32), shift % 32 + 1);
      assert (q + Pow2(shift)) * d == q * d + d * Pow2(shift);
    }
  }

  lemma TwoGrows(e: nat, f: nat)
    requires e <= f
    ensures Pow2(e) <= Pow2(f)
  {
    if e < f {
      PowMonoExp(2, e, f);
    }
  }

  /** Aligned with the numerator the divisor still fits, and twice it is larger. */
  lemma Align(n: int, d: int, numBits: nat, divBits: nat)
    requires 0 < divBits <= numBits <= 256
    requires n < Pow2(numBits) && Pow2(divBits - 1) <= d < Pow2(divBits)
    ensures (d * Pow2(numBits - divBits)) % W(WIDTH) == d * Pow2(numBits - divBits)
    ensures n < d * Pow2(numBits - divBits + 1)
  {
    var shift := numBits - divBits;
    TwoGrows(numBits, 256);
    TwoAdd(divBits, shift);
    TwoAdd(divBits - 1, shift + 1);
    assert W(WIDTH) == Pow2(256);
    hide Pow2, W;
    AlignProducts(d, Pow2(divBits - 1), Pow2(divBits), Pow2(shift), Pow2(shift + 1));
    Wrap(d * Pow2(shift), 0, W(WIDTH), d * Pow2(shift));
  }

  lemma AlignProducts(d: int, lo: int, hi: int, p: int, p': int)
    requires 0 <= lo <= d < hi && p >= 1 && p' >= 0
    ensures 0 <= d * p < hi * p && lo * p' <= d * p'
  {
    MulMono(d + 1, hi, p, p);
    assert (d + 1) * p == d * p + p;
    MulMono(0, d, 0, p);
    MulMono(lo, d, p', p');
  }

  lemma TwoHalf(d: int, shift: nat)
    ensures d * Pow2(shift + 1) == 2 * (d * Pow2(shift))
    ensures shift >= 1 ==> d * Pow2(shift) / Pow2(1) == d * Pow2(shift - 1)
  {
    TwoAdd(shift, 1);
    Power8();
    if shift >= 1 {
      TwoAdd(shift - 1, 1);
      assert d * (Pow2(shift - 1) * 2) == 2 * (d * Pow2(shift - 1));
    }
  }

  /** Division by zero throws. */
  method DivAssign(a: array<Word>, b: array<Word>) returns (ok: bool)
    requires a.Length == b.Length == WIDTH
    modifies a
    ensures ok <==> old(Num(b[..])) != 0
    ensures Num(a[..]) == if ok then old(Num(a[..])) / old(Num(b[..])) else 0
  {
    hide Num, W, Pow2, LowClear;
    ghost var n, d := Num(a[..]), Num(b[..]);
    NumBound(a[..]);
    NumBound(b[..]);
    var div := Copy(b);
    var num := Copy(a);
    Clear(a);
    var numBits := Bits(num);
    var divBits := Bits(div);
    if divBits == 0 {
      return false;
    }
    ok := true;
    if divBits > numBits {
      TwoGrows(numBits, divBits - 1);
      Quotient(n, 0, n, d);
      return;
    }
    var shift: int := numBits - divBits;
    Align(n, d, numBits, divBits);
    ShiftLeft(div, shift);
    AllClear(a[..], shift + 1);
    while shift >= 0
      invariant -1 <= shift < 256 && a != num && a != div && num != div && fresh(num) && fresh(div)
      invariant num.Length == div.Length == WIDTH
      invariant 0 <= Num(num[..]) < d * Pow2(shift + 1)
      invariant shift >= 0 ==> Num(div[..]) == d * Pow2(shift)
      invariant Num(a[..]) * d + Num(num[..]) == n
      invariant LowClear(a[..], shift + 1)
    {
      TwoHalf(d, shift);
      DivStep(a, num, div, shift, d);
      NumBound(num[..]);
      ShiftRight(div, 1);
      shift := shift - 1;
    }
    Power8();
    Quotient(n, Num(a[..]), Num(num[..]), d);
  }

  lemma AllClear(s: seq<Word>, t: nat)
    requires forall m | 0 <= m < |s| :: s[m] == 0
    ensures LowClear(s, t)
  {
  }
}
