/** The compact form of 256-bit targets: an exponent byte, a sign bit and 23 bits of mantissa. */
module Compact {
  import opened Radix
  import opened Limbs
  import opened ArithUint256

  function Mantissa(n: Word): nat {
    n % 0x80_0000
  }

  function Exponent(n: Word): nat {
    n / 0x100_0000
  }

  predicate SignBit(n: Word) {
    n / 0x80_0000 % 2 == 1
  }

  /** The magnitude a compact number stands for: mantissa * 256^(exponent - 3), rounded down. */
  function Expand(n: Word): nat {
    if Exponent(n) <= 3 then Mantissa(n) / Pow2(8 * (3 - Exponent(n)))
    else Mantissa(n) * Pow2(8 * (Exponent(n) - 3))
  }

  /** How many bytes a number takes when the top bit of the first one stays clear. */
  function Size(v: nat): nat {
    if v == 0 then 0 else if v < 128 then 1 else if v < 256 then 2 else 1 + Size(v / 256)
  }

  /** The compact form of a number: its size, and its three leading bytes. */
  function CompactOf(v: nat): nat {
    var k := Size(v);
    k * 0x100_0000 + (if k <= 3 then v * Pow2(8 * (3 - k)) else v / Pow2(8 * (k - 3)))
  }

  // ---------------------------------------------------------------------- sizes

  /** k bytes are needed and enough. */
  ghost predicate Sized(v: nat, k: nat) {
    && (k == 0 <==> v == 0)
    && (k >= 1 ==> v < Pow2(8 * k - 1))
    && (k >= 2 ==> v >= Pow2(8 * k - 9))
  }

  lemma {:induction false} SizeMeaning(v: nat)
    ensures Sized(v, Size(v))
    decreases v
  {
    Power8();
    TwoAdd(8, 7);
    if v >= 256 {
      SizeMeaning(v / 256);
      var k := Size(v / 256);
      TwoAdd(8, 8 * k - 1);
      if k >= 2 {
        TwoAdd(8, 8 * k - 9);
      }
    }
  }

  lemma SizeUnique(v: nat, k: nat)
    requires Sized(v, k)
    ensures k == Size(v)
  {
    SizeMeaning(v);
    var j := Size(v);
    if j < k && j >= 1 {
      TwoGrows(8 * j - 1, 8 * k - 9);
    } else if k < j && k >= 1 {
      TwoGrows(8 * k - 1, 8 * j - 9);
    }
  }

  lemma {:induction false} SizeBound(v: nat)
    requires v < W(WIDTH)
    ensures Size(v) <= 33
  {
    SizeMeaning(v);
    if Size(v) > 33 {
      TwoGrows(256, 8 * Size(v) - 9);
    }
  }

  // ------------------------------------------------------------------- rounding

  /** The unit in the last place kept: 256^(size - 3). */
  function Unit(v: nat): (u: nat)
    ensures u >= 1
  {
    if Size(v) <= 3 then 1 else Pow2(8 * (Size(v) - 3))
  }

  lemma LeadingLong(v: nat)
    requires Size(v) > 3
    ensures 0x8000 <= v / Pow2(8 * (Size(v) - 3)) < 0x80_0000 && Pow2(8 * (Size(v) - 3)) >= 256
  {
    hide Pow2, Size;
    var k := Size(v);
    SizeMeaning(v);
    Power23();
    Power8();
    TwoAdd(23, 8 * (k - 3));
    TwoAdd(15, 8 * (k - 3));
    TwoGrows(8, 8 * (k - 3));
    Within(v, Pow2(8 * (k - 3)), 0x8000, 0x80_0000);
  }

  lemma LeadingShort(v: nat)
    requires Size(v) <= 3
    ensures v < 0x80_0000 && v * Pow2(8 * (3 - Size(v))) < 0x80_0000
  {
    hide Pow2, Size;
    var k := Size(v);
    SizeMeaning(v);
    Power23();
    if k == 0 {
      assert v * Pow2(24) == 0;
    } else {
      TwoAdd(8 * k - 1, 8 * (3 - k));
      TwoGrows(8 * k - 1, 23);
      Steps(v, Pow2(8 * k - 1), Pow2(8 * (3 - k)));
    }
  }

  /** The leading part: at most 23 bits, and at least 16 of them used when bytes are dropped. */
  lemma Leading(v: nat)
    ensures v / Unit(v) < 0x80_0000
    ensures Unit(v) > 1 ==> v / Unit(v) >= 0x8000 && Unit(v) >= 256
    ensures Size(v) <= 3 ==> v * Pow2(8 * (3 - Size(v))) < 0x80_0000
  {
    hide Pow2, Size;
    if Size(v) > 3 {
      LeadingLong(v);
    } else {
      LeadingShort(v);
    }
  }

  lemma Power23()
    ensures Pow2(15) == 0x8000 && Pow2(23) == 0x80_0000 && Pow2(24) == 0x100_0000
  {
    Power8();
    TwoAdd(8, 7);
    TwoAdd(8, 15);
    TwoAdd(8, 16);
    TwoAdd(8, 8);
  }

  lemma Within(v: nat, u: nat, lo: nat, hi: nat)
    requires u >= 1 && lo * u <= v < hi * u
    ensures lo <= v / u < hi
  {
    assert v == v / u * u + v % u;
    Steps(v / u, hi, u);
    Steps(lo, v / u, u);
  }

  /** Unpacking a packed size and mantissa. */
  lemma Unpack(k: nat, c: nat)
    requires k < 256 && c < 0x80_0000
    ensures k * 0x100_0000 + c < B
    ensures Mantissa(k * 0x100_0000 + c) == c && Exponent(k * 0x100_0000 + c) == k && !SignBit(k * 0x100_0000 + c)
  {
  }

  lemma UnitIs(v: nat)
    ensures Size(v) <= 3 ==> Unit(v) == 1
    ensures Size(v) > 3 ==> Unit(v) == Pow2(8 * (Size(v) - 3))
  {
  }

  /** The compact form rounds down to a multiple of the unit, and is never negative. */
  lemma RoundsDown(v: nat)
    requires v < W(WIDTH)
    ensures CompactOf(v) < B && !SignBit(CompactOf(v)) && Exponent(CompactOf(v)) == Size(v)
    ensures Expand(CompactOf(v)) == v / Unit(v) * Unit(v)
  {
    hide Pow2, Size, Unit, W, SignBit, Mantissa, Exponent;
    SizeBound(v);
    Leading(v);
    UnitIs(v);
    var k := Size(v);
    if k <= 3 {
      var c := v * Pow2(8 * (3 - k));
      Unpack(k, c);
      Quotient(c, v, 0, Pow2(8 * (3 - k)));
    } else {
      Unpack(k, v / Unit(v));
    }
  }

  /** Less than one part in 2^15 is lost. */
  lemma LosesLittle(v: nat)
    requires 0 < v < W(WIDTH)
    ensures CompactOf(v) < B && Expand(CompactOf(v)) <= v
    ensures (v - Expand(CompactOf(v))) * 0x8000 < v
  {
    hide *;
    RoundsDown(v);
    Leading(v);
    Loss(v, Unit(v));
  }

  lemma Loss(v: nat, u: nat)
    requires v > 0 && u >= 1 && (u > 1 ==> v / u >= 0x8000)
    ensures 0 <= v - v / u * u && (v - v / u * u) * 0x8000 < v
  {
    var q := v / u;
    assert v == q * u + v % u;
    if u > 1 {
      MulMono(0x8000, q, u, u);
    }
  }

  /** Nothing representable lies strictly between the rounded value and the number. */
  lemma GreatestBelow(v: nat, n: Word)
    requires v < W(WIDTH) && Expand(n) <= v
    ensures CompactOf(v) < B && Expand(n) <= Expand(CompactOf(v)) <= v
  {
    hide *;
    RoundsDown(v);
    Leading(v);
    UnitIs(v);
    var u, q := Unit(v), v / Unit(v);
    Loss(v + 1, 1);
    assert v == q * u + v % u;
    if u > 1 && Exponent(n) <= 3 {
      ShortValue(n);
      MulMono(0x8000, q, 256, u);
    } else if u > 1 && Exponent(n) < Size(v) {
      FinerGrid(n, Size(v));
      MulMono(0x8000, q, u, u);
    } else if u > 1 {
      CoarserGrid(n, Size(v));
      Multiple(v, Mantissa(n) * Pow2(8 * (Exponent(n) - Size(v))), u);
    }
  }

  lemma CoarserGrid(n: Word, k: nat)
    requires 3 < k <= Exponent(n)
    ensures Expand(n) == (Mantissa(n) * Pow2(8 * (Exponent(n) - k))) * Pow2(8 * (k - 3))
  {
    var e := Exponent(n);
    hide Pow2;
    TwoAdd(8 * (e - k), 8 * (k - 3));
    Regroup(Mantissa(n), Pow2(8 * (e - k)), Pow2(8 * (k - 3)));
  }

  lemma ShortValue(n: Word)
    requires Exponent(n) <= 3
    ensures Expand(n) < 0x80_0000
  {
    var m, p := Mantissa(n), Pow2(8 * (3 - Exponent(n)));
    hide Pow2;
    assert m == m / p * p + m % p;
    MulMono(m / p, m / p, 1, p);
  }

  lemma FinerGrid(n: Word, k: nat)
    requires 3 < Exponent(n) < k
    ensures Expand(n) <= 0x8000 * Pow2(8 * (k - 3))
  {
    var e := Exponent(n);
    TwoAdd(8, 8 * (e - 3));
    TwoGrows(8 * (e - 2), 8 * (k - 3));
    Power8();
    hide Pow2;
    MulMono(Mantissa(n), 0x80_0000, Pow2(8 * (e - 3)), Pow2(8 * (e - 3)));
  }

  /** A multiple of u that is at most v is at most v rounded down to such a multiple. */
  lemma Multiple(v: nat, m: nat, u: nat)
    requires u >= 1 && m * u <= v
    ensures m * u <= v / u * u
  {
    assert v == v / u * u + v % u;
    Steps(m, v / u, u);
  }

  /** Compacting is monotone. */
  lemma Monotone(v: nat, v': nat)
    requires v <= v' < W(WIDTH)
    ensures CompactOf(v) < B && CompactOf(v') < B
    ensures Expand(CompactOf(v)) <= Expand(CompactOf(v'))
  {
    RoundsDown(v);
    RoundsDown(v');
    GreatestBelow(v, 0);
    GreatestBelow(v', CompactOf(v));
  }

  /** A value that came from a compact form is not changed by compacting it. */
  lemma ExpandedIsExact(n: Word)
    requires Expand(n) < W(WIDTH)
    ensures CompactOf(Expand(n)) < B && Expand(CompactOf(Expand(n))) == Expand(n)
  {
    GreatestBelow(Expand(n), n);
  }

  /** Compacting twice is compacting once. */
  lemma Idempotent(v: nat)
    requires v < W(WIDTH)
    ensures CompactOf(v) < B && CompactOf(Expand(CompactOf(v))) == CompactOf(v)
  {
    hide Pow2, Size, Unit, W, SignBit, Mantissa, Exponent, Expand, Sized;
    RoundsDown(v);
    Leading(v);
    UnitIs(v);
    if Unit(v) > 1 {
      RoundedSize(v);
    }
  }

  lemma RoundedSize(v: nat)
    requires Unit(v) > 1
    ensures Size(v) > 3 && Size(v / Unit(v) * Unit(v)) == Size(v)
    ensures v / Unit(v) * Unit(v) / Unit(v) == v / Unit(v)
  {
    hide Pow2, Size, Unit;
    Leading(v);
    UnitIs(v);
    SizeMeaning(v);
    Power23();
    var u, q, k := Unit(v), v / Unit(v), Size(v);
    TwoAdd(15, 8 * (k - 3));
    assert v == q * u + v % u;
    MulMono(0x8000, q, u, u);
    SizeUnique(q * u, k);
    Quotient(q * u, q, 0, u);
  }

  /** A number beyond three bytes whose leading byte is needed is the compact form of its value. */
  lemma Canonical(n: Word)
    requires Exponent(n) > 3 && Mantissa(n) >= 0x8000 && !SignBit(n)
    ensures CompactOf(Expand(n)) == n
  {
    hide Pow2, Size, Sized;
    var m, e := Mantissa(n), Exponent(n);
    SizedProduct(m, e);
    SizeUnique(m * Pow2(8 * (e - 3)), e);
    Quotient(m * Pow2(8 * (e - 3)), m, 0, Pow2(8 * (e - 3)));
    assert n == e * 0x100_0000 + m;
  }

  lemma SizedProduct(m: nat, e: nat)
    requires e > 3 && 0x8000 <= m < 0x80_0000
    ensures Sized(m * Pow2(8 * (e - 3)), e)
  {
    hide Pow2;
    var p := Pow2(8 * (e - 3));
    Power23();
    TwoAdd(23, 8 * (e - 3));
    TwoAdd(15, 8 * (e - 3));
    Steps(0x8000, m, p);
    Steps(m, 0x80_0000, p);
  }

  // -------------------------------------------------------------- the conversions

  lemma TopWeight()
    ensures W(WIDTH) == Pow2(256)
  {
  }

  lemma FitsIfShort(m: nat, e: nat)
    requires m < 0x80_0000 && 3 < e <= 32
    ensures m * Pow2(8 * (e - 3)) < Pow2(256)
  {
    hide Pow2;
    Power23();
    TwoAdd(23, 8 * (e - 3));
    TwoGrows(8 * e - 1, 256);
    Steps(m, 0x80_0000, Pow2(8 * (e - 3)));
  }

  lemma NeverFits(m: nat, e: nat)
    requires m > 0 && e > 34
    ensures m * Pow2(8 * (e - 3)) >= Pow2(256)
  {
    hide Pow2;
    TwoGrows(256, 8 * (e - 3));
    MulMono(1, m, Pow2(8 * (e - 3)), Pow2(8 * (e - 3)));
  }

  /** The three tests of the overflow flag: the value does not fit 256 bits. */
  lemma OverflowIs(n: Word)
    requires Exponent(n) > 3
    ensures var m, e := Mantissa(n), Exponent(n);
            Expand(n) >= W(WIDTH) <==>
              m != 0 && (e > 34 || (m > 0xff && e > 33) || (m > 0xffff && e > 32))
  {
    hide Pow2, W;
    var m, e := Mantissa(n), Exponent(n);
    TopWeight();
    Power8();
    TwoAdd(8, 8);
    if e <= 32 {
      FitsIfShort(m, e);
    } else if e == 33 {
      TwoAdd(16, 240);
      Threshold(m, 0x1_0000, Pow2(240));
    } else if e == 34 {
      TwoAdd(8, 248);
      Threshold(m, 0x100, Pow2(248));
    } else if m > 0 {
      NeverFits(m, e);
    } else {
      assert m * Pow2(8 * (e - 3)) == 0;
    }
  }

  lemma Threshold(m: nat, t: nat, p: nat)
    requires p >= 1
    ensures m * p >= t * p <==> m >= t
  {
    Steps(m, t, p);
  }

  lemma NotZero(n: Word)
    requires Exponent(n) > 3
    ensures Expand(n) == 0 <==> Mantissa(n) == 0
  {
    hide Pow2;
    Threshold(Mantissa(n), 1, Pow2(8 * (Exponent(n) - 3)));
  }

  method SetCompact(a: array<Word>, nCompact: Word) returns (fNegative: bool, fOverflow: bool)
    requires a.Length == WIDTH
    modifies a
    ensures Num(a[..]) == Expand(nCompact) % W(WIDTH)
    ensures fNegative <==> Expand(nCompact) != 0 && SignBit(nCompact)
    ensures fOverflow <==> Expand(nCompact) >= W(WIDTH)
  {
    hide Num, W, Pow2, SignBit;
    var nSize := nCompact / 0x100_0000;
    var nWord := nCompact % 0x80_0000;
    if nSize <= 3 {
      ShortValue(nCompact);
      nWord := nWord / Pow2(8 * (3 - nSize));
      Assign(a, nWord);
      NumBound(a[..]);
      Small24();
      Wrap(nWord, 0, W(WIDTH), nWord);
    } else {
      Assign(a, nWord);
      ShiftLeft(a, 8 * (nSize - 3));
      OverflowIs(nCompact);
      NotZero(nCompact);
    }
    fNegative := nWord != 0 && SignBit(nCompact);
    fOverflow := nWord != 0 && (nSize > 34 || (nWord > 0xff && nSize > 33) || (nWord > 0xffff && nSize > 32));
  }

  lemma Small24()
    ensures 0x100_0000 < W(WIDTH)
  {
    Power23();
    TwoGrows(25, 256);
    TwoAdd(24, 1);
    Power8();
  }

  /** The byte count and the three leading bytes, before room is made for the sign. */
  lemma ThreeBytes(v: nat, bits: nat)
    requires v < Pow2(bits) && (bits > 0 ==> Pow2(bits - 1) <= v) && (bits == 0 ==> v == 0)
    ensures var s := (bits + 7) / 8;
            && (s == 0 <==> v == 0) && v < Pow2(8 * s) && (s >= 1 ==> Pow2(8 * s - 8) <= v)
  {
    var s := (bits + 7) / 8;
    TwoGrows(bits, 8 * s);
    if s >= 1 {
      TwoGrows(8 * s - 8, bits - 1);
    }
  }

  /** With s <= 3 bytes nothing is dropped; the sign's place is taken when the top bit is set. */
  lemma FewBytes(v: nat, s: nat)
    requires s <= 3 && v < Pow2(8 * s) && (s >= 1 ==> Pow2(8 * s - 8) <= v) && (s == 0 <==> v == 0)
    ensures v * Pow2(8 * (3 - s)) < 0x100_0000
    ensures v * Pow2(8 * (3 - s)) < 0x80_0000 ==> s == Size(v)
    ensures v * Pow2(8 * (3 - s)) >= 0x80_0000 ==> s + 1 == Size(v)
    ensures v * Pow2(8 * (3 - s)) >= 0x80_0000 && s == 3 ==> v * Pow2(8 * (3 - s)) / 256 == v / Pow2(8)
    ensures v * Pow2(8 * (3 - s)) >= 0x80_0000 && s < 3 ==> v * Pow2(8 * (3 - s)) / 256 == v * Pow2(8 * (2 - s))
  {
    Power8();
    Power23();
    TwoAdd(8 * s, 8 * (3 - s));
    var p := Pow2(8 * (3 - s));
    if s >= 1 {
      TwoAdd(8 * s - 1, 8 * (3 - s));
    }
    if s < 3 {
      TwoAdd(8 * (2 - s), 8);
    }
    hide Pow2, Size;
    MulMono(v + 1, Pow2(8 * s), p, p);
    assert (v + 1) * p == v * p + p;
    if s == 0 {
      SizeMeaning(v);
    } else {
      Threshold(v, Pow2(8 * s - 1), p);
      MadeRoom(v, s);
    }
    if s < 3 {
      Quotient(v * p, v * Pow2(8 * (2 - s)), 0, 256);
    }
  }

  lemma MadeRoom(v: nat, s: nat)
    requires s >= 1 && Pow2(8 * s - 8) <= v < Pow2(8 * s)
    ensures Size(v) == if v >= Pow2(8 * s - 1) then s + 1 else s
  {
    TwoGrows(8 * s, 8 * s + 7);
    if s >= 2 {
      TwoGrows(8 * s - 9, 8 * s - 8);
    }
    hide Pow2, Size;
    if v >= Pow2(8 * s - 1) {
      SizeUnique(v, s + 1);
    } else {
      SizeUnique(v, s);
    }
  }

  lemma ManyBytes(v: nat, s: nat)
    requires s > 3 && Pow2(8 * s - 8) <= v < Pow2(8 * s)
    ensures v / Pow2(8 * (s - 3)) < 0x100_0000
    ensures v / Pow2(8 * (s - 3)) < 0x80_0000 ==> s == Size(v)
    ensures v / Pow2(8 * (s - 3)) >= 0x80_0000 ==> s + 1 == Size(v)
    ensures v / Pow2(8 * (s - 3)) / 256 == v / Pow2(8 * (s - 2))
  {
    Power8();
    Power23();
    var u := Pow2(8 * (s - 3));
    TwoAdd(24, 8 * (s - 3));
    TwoAdd(23, 8 * (s - 3));
    TwoAdd(8, 8 * (s - 3));
    MadeRoom(v, s);
    hide Pow2, Size;
    Within(v, u, 0, 0x100_0000);
    if v >= Pow2(8 * s - 1) {
      Within(v, u, 0x80_0000, 0x100_0000);
    } else {
      Within(v, u, 0, 0x80_0000);
    }
    DivideTwice(v, u);
  }

  lemma DivideTwice(v: nat, u: nat)
    requires u >= 1
    ensures v / u / 256 == v / (256 * u)
  {
    var q, r := v / u, v % u;
    var h, l := q / 256, q % 256;
    assert v == q * u + r;
    assert (h * 256 + l) * u == h * (256 * u) + l * u;
    MulMono(l, 255, u, u);
    MulMono(0, l, 0, u);
    Quotient(v, h, l * u + r, 256 * u);
  }

  /** s bytes and the three leading ones, from which the compact form is put together. */
  ghost predicate Leads(v: nat, s: nat, low: nat) {
    && low < 0x100_0000
    && CompactOf(v) == if low < 0x80_0000 then s * 0x100_0000 + low else (s + 1) * 0x100_0000 + low / 256
  }

  /** The three leading bytes of a number of s bytes. */
  function Lead(v: nat, s: nat): nat {
    if s <= 3 then Product(v, Pow2(8 * (3 - s))) else v / Pow2(8 * (s - 3))
  }

  function Product(x: nat, y: nat): (p: nat)
    ensures p == x * y
  {
    x * y
  }

  lemma LeadBytes(v: nat, bits: nat)
    requires v < Pow2(bits) && (bits > 0 ==> Pow2(bits - 1) <= v) && (bits == 0 ==> v == 0)
    ensures var s := (bits + 7) / 8;
            Leads(v, s, Lead(v, s)) && (s <= 3 ==> v < 0x100_0000)
  {
    hide Pow2, Size;
    var s := (bits + 7) / 8;
    ThreeBytes(v, bits);
    if s <= 3 {
      FewBytes(v, s);
      MulMono(v, v, 1, Pow2(8 * (3 - s)));
    } else {
      ManyBytes(v, s);
    }
  }

  lemma LeadIs(v: nat, s: nat)
    ensures s <= 3 ==> Lead(v, s) == v * Pow2(8 * (3 - s))
    ensures s > 3 ==> Lead(v, s) == v / Pow2(8 * (s - 3))
  {
  }

  lemma LeadsBound(v: nat, s: nat, low: nat)
    requires Leads(v, s, low)
    ensures low < 0x100_0000
  {
  }

  method LeadingBytes(a: array<Word>) returns (nSize: nat, low: nat)
    requires a.Length == WIDTH
    ensures Num(a[..]) >= 0 && nSize <= 32 && Leads(Num(a[..]), nSize, low)
  {
    hide *;
    ghost var v := Num(a[..]);
    NumBound(a[..]);
    var bits := Bits(a);
    LeadBytes(v, bits);
    nSize := (bits + 7) / 8;
    LeadIs(v, nSize);
    LeadsBound(v, nSize, Lead(v, nSize));
    if nSize <= 3 {
      LowIsAll(v);
      low := GetLow64(a);
      low := Product(low, Pow2(8 * (3 - nSize)));
    } else {
      LowIsAll(Lead(v, nSize));
      low := ShiftedLow64(a, 8 * (nSize - 3));
    }
  }

  method ShiftedLow64(a: array<Word>, shift: nat) returns (low: nat)
    requires a.Length == WIDTH
    ensures low == Num(a[..]) / Pow2(shift) % W(2)
  {
    hide *;
    var bn := Copy(a);
    ShiftRight(bn, shift);
    low := GetLow64(bn);
  }

  /** The sign is set only on request and never on a zero mantissa. */
  method GetCompact(a: array<Word>, fNegative: bool) returns (nCompact: Word)
    requires a.Length == WIDTH
    ensures Num(a[..]) >= 0 && CompactOf(Num(a[..])) < B
    ensures var n := CompactOf(Num(a[..])); nCompact == n + if fNegative && Mantissa(n) != 0 then 0x80_0000 else 0
  {
    hide Num, Or, Mantissa, CompactOf;
    var nSize, low := LeadingBytes(a);
    SignTaken(low);
    if low / 0x80_0000 % 2 == 1 {
      low := low / 256;
      nSize := nSize + 1;
    }
    assert low < 0x80_0000 && nSize < 256;
    Pack(nSize, low);
    nCompact := Or(low, nSize * 0x100_0000);
    if fNegative && nCompact % 0x80_0000 != 0 {
      nCompact := Or(nCompact, 0x80_0000);
    }
  }

  lemma LowIsAll(v: nat)
    requires v < 0x100_0000
    ensures v % W(2) == v
  {
    Power23();
    TwoGrows(24, 64);
    hide W;
    Wrap(v, 0, W(2), v);
  }

  lemma SignTaken(low: nat)
    requires low < 0x100_0000
    ensures low / 0x80_0000 % 2 == 1 <==> low >= 0x80_0000
    ensures low / 256 < 0x80_0000
  {
  }

  /** Size, mantissa and sign take different bits, so the ors put them side by side. */
  lemma Pack(k: nat, c: nat)
    requires k < 256 && c < 0x80_0000
    ensures var n := k * 0x100_0000 + c;
            && n + 0x80_0000 < B && Mantissa(n) == n % 0x80_0000
            && Or(c, k * 0x100_0000) == n && Or(n, 0x80_0000) == n + 0x80_0000
  {
    Power8();
    Power23();
    hide Pow2, Or;
    assert k * 0x100_0000 % 0x80_0000 == 0;
    OrDisjoint(c, k * 0x100_0000, 23);
    OrHigh(2 * k, 1, c, 23);
    OrDisjoint(1, 2 * k, 1);
  }

  lemma {:induction false} OrHigh(x: nat, y: nat, c: nat, k: nat)
    requires c < Pow2(k)
    ensures Or(x * Pow2(k) + c, y * Pow2(k)) == Or(x, y) * Pow2(k) + c
    decreases k
  {
    hide Pow2, Or;
    Power8();
    if k > 0 {
      TwoAdd(k - 1, 1);
      var p := Pow2(k - 1);
      OrHigh(x, y, c / 2, k - 1);
      OrHalves(x * p + c / 2, c % 2, y * p);
      Doubled(x, p);
      Doubled(y, p);
      Doubled(Or(x, y), p);
    }
  }

  lemma Doubled(x: int, p: int)
    ensures x * (p * 2) == 2 * (x * p)
  {
  }

  lemma OrHalves(x: nat, b: nat, y: nat)
    requires b <= 1
    ensures Or(2 * x + b, 2 * y) == 2 * Or(x, y) + b
  {
    OrZero(0);
  }
}
