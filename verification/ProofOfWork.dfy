/** Work of a block, the target test, and the target of the next block. */
module ProofOfWork {
  import opened Radix
  import opened Limbs
  import opened ArithUint256
  import opened Compact

  /** Targets that fit are even beyond three bytes, so adding one to them does not wrap. */
  lemma TargetNotMax(n: Word)
    requires Expand(n) < W(WIDTH)
    ensures Expand(n) + 1 < W(WIDTH)
  {
    hide Pow2;
    Small24();
    if Exponent(n) <= 3 {
      ShortValue(n);
    } else {
      Power8();
      TwoAdd(8 * (Exponent(n) - 3) - 1, 1);
      TwoAdd(255, 1);
      Doubled(Mantissa(n), Pow2(8 * (Exponent(n) - 3) - 1));
    }
  }

  /** 2^256 / (t + 1), without ever holding 2^256. */
  lemma WorkIs(t: nat, m: nat)
    requires t + 1 < m
    ensures (m - 1 - t) / (t + 1) + 1 == m / (t + 1) < m || t == 0
    ensures (m - 1 - t) / (t + 1) + 1 == m / (t + 1) <= m
  {
    var q, r := (m - 1 - t) / (t + 1), (m - 1 - t) % (t + 1);
    assert m - 1 - t == q * (t + 1) + r;
    assert (q + 1) * (t + 1) == q * (t + 1) + (t + 1);
    Quotient(m, q + 1, r, t + 1);
    MulMono(q + 1, q + 1, 1, t + 1);
    if t > 0 {
      MulMono(q + 1, q + 1, 2, t + 1);
    }
  }

  /** The expected number of hashes: 2^256 / (target + 1), and nothing for a bad target. */
  method GetBlockProof(nBits: Word) returns (work: array<Word>)
    ensures fresh(work) && work.Length == WIDTH
    ensures var t := Expand(nBits);
            Num(work[..]) == if t == 0 || SignBit(nBits) || t >= W(WIDTH) then 0 else W(WIDTH) / (t + 1)
  {
    hide Num, W, Expand, SignBit;
    ghost var t := Expand(nBits);
    var bnTarget := FromUint64(0);
    var fNegative, fOverflow := SetCompact(bnTarget, nBits);
    var isZero := EqualTo(bnTarget, 0);
    if fNegative || fOverflow || isZero {
      work := FromUint64(0);
      SmallModulus(t);
      return;
    }
    Wrap(t, 0, W(WIDTH), t);
    TargetNotMax(nBits);
    WorkIs(t, W(WIDTH));
    work := Complement(bnTarget);
    var one := FromUint64(1);
    AddAssign(bnTarget, one);
    Wrap(t + 1, 0, W(WIDTH), t + 1);
    var ok := DivAssign(work, bnTarget);
    assert ok;
    AddAssign(work, one);
    Wrap(W(WIDTH) / (t + 1), 0, W(WIDTH), W(WIDTH) / (t + 1));
  }

  lemma SmallModulus(t: nat)
    ensures t < W(WIDTH) ==> t % W(WIDTH) == t
  {
    hide *;
    if t < W(WIDTH) {
      Wrap(t, 0, W(WIDTH), t);
    }
  }

  /** A hash passes exactly when it is the genesis block's, or is at most a target that is
      positive, fits 256 bits and is within the limit. */
  method CheckProofOfWork(hash: array<Word>, isGenesis: bool, nBits: Word, powLimit: array<Word>) returns (ok: bool)
    requires hash.Length == powLimit.Length == WIDTH
    ensures var t := Expand(nBits);
            ok <==> isGenesis || (0 < t < W(WIDTH) && !SignBit(nBits) && t <= Num(powLimit[..]) && Num(hash[..]) <= t)
  {
    hide Num, W, Expand, SignBit;
    if isGenesis {
      return true;
    }
    var bnTarget := FromUint64(0);
    var fNegative, fOverflow := SetCompact(bnTarget, nBits);
    SmallModulus(Expand(nBits));
    var isZero := EqualTo(bnTarget, 0);
    var c := CompareTo(bnTarget, powLimit);
    if fNegative || isZero || fOverflow || c > 0 {
      return false;
    }
    c := CompareTo(hash, bnTarget);
    return c <= 0;
  }

  // ------------------------------------------------------------------ retargeting

  const SERVICE_UPGRADE_HARDFORK := 1525478400

  datatype BlockIndex = BlockIndex(nBits: Word, nTime: int, nMedianTimePast: int, isProofOfStake: bool)

  datatype Consensus = Consensus(
    powLimit: seq<Word>,
    posLimit: seq<Word>,
    nTargetTimespan: int,
    nTargetSpacing: int,
    fPowNoRetargeting: bool)
  {
    /** The constants are positive, and no 64-bit computation with them overflows. */
    ghost predicate Valid() {
      && |powLimit| == |posLimit| == WIDTH
      && 0 < nTargetSpacing < 0x8000_0000 && 0 < nTargetTimespan < 0x2000_0000_0000_0000
    }

    function Limit(fProofOfStake: bool): seq<Word> {
      if fProofOfStake then posLimit else powLimit
    }
  }

  /** The last block of the wanted kind at or below place i, or the first block of the chain. */
  method GetLastBlockIndex(chain: seq<BlockIndex>, i: nat, fProofOfStake: bool) returns (j: nat)
    requires i < |chain|
    ensures j == LastOf(chain, i, fProofOfStake)
  {
    j := i;
    while j > 0 && chain[j].isProofOfStake != fProofOfStake
      invariant j <= i && LastOf(chain, i, fProofOfStake) == LastOf(chain, j, fProofOfStake)
    {
      j := j - 1;
    }
  }

  function LastOf(chain: seq<BlockIndex>, i: nat, fProofOfStake: bool): (j: nat)
    requires i < |chain|
    ensures j <= i && (j == 0 || chain[j].isProofOfStake == fProofOfStake)
    ensures forall k | j < k <= i :: chain[k].isProofOfStake != fProofOfStake
  {
    if i == 0 || chain[i].isProofOfStake == fProofOfStake then i else LastOf(chain, i - 1, fProofOfStake)
  }

  /** The time between two blocks as it enters the formula. */
  function Clamp(spacing: int, timespan: int): int {
    if spacing < 0 then 1 else if spacing > timespan then timespan else spacing
  }

  /** The factor a target is multiplied by, and the divisor. */
  function Factor(timespan: int, spacing: int, actual: int): int
    requires spacing > 0
  {
    (timespan / spacing - 1) * spacing + actual + actual
  }

  function Divisor(timespan: int, spacing: int): int
    requires spacing > 0
  {
    (timespan / spacing + 1) * spacing
  }

  /** The target scaled: both the 32-bit factor and the 256-bit product may wrap. */
  function Scaled(target: nat, timespan: int, spacing: int, actual: int): nat
    requires spacing > 0 && timespan > 0
  {
    DivisorBounds(timespan, spacing);
    CutScale(target, Factor(timespan, spacing, actual), Divisor(timespan, spacing), W(WIDTH))
  }

  /** target * f / d with f cut to 32 bits and the product cut at w. */
  function CutScale(target: nat, f: int, d: nat, w: nat): nat
    requires d > 0 && w > 0
  {
    target % w * (f % B) % w / d
  }

  function NewTarget(limit: nat, target: nat, timespan: int, spacing: int, actual: int): (t: int)
    requires spacing > 0 && timespan > 0
    ensures 0 <= t <= limit
  {
    var t := Scaled(target, timespan, spacing, actual);
    if t > limit then limit else t
  }

  lemma DivisorBounds(timespan: int, spacing: int)
    requires spacing > 0 && timespan > 0
    ensures 0 < Divisor(timespan, spacing) <= timespan + spacing
    ensures Divisor(timespan, spacing) == timespan - timespan % spacing + spacing
  {
    var q := timespan / spacing;
    assert timespan == q * spacing + timespan % spacing;
    assert (q + 1) * spacing == q * spacing + spacing;
  }

  /** The spacing aimed at; proof-of-work blocks may have up to three times as long. */
  function AimedSpacing(c: Consensus, fProofOfStake: bool, nMedianTimePast: int, heightGap: nat): (s: int)
    requires c.nTargetSpacing > 0
    ensures 0 < s && (s <= 3 * c.nTargetSpacing || s <= 450)
  {
    var t := if nMedianTimePast > SERVICE_UPGRADE_HARDFORK then 150 else c.nTargetSpacing;
    if fProofOfStake then t
    else
      MulMono(1, 1 + heightGap, t, t);
      if 3 * t < t * (1 + heightGap) then 3 * t else t * (1 + heightGap)
  }

  /** The spacing aimed at is 150 seconds after the hard fork and the network's before; for stake
      once that, and for work once, twice or three times, as none, one or more blocks have come
      since the last one. */
  lemma SpacingIs(c: Consensus, fProofOfStake: bool, nMedianTimePast: int, heightGap: nat)
    requires c.nTargetSpacing > 0
    ensures var base := if nMedianTimePast > 1525478400 then 150 else c.nTargetSpacing;
            var s := AimedSpacing(c, fProofOfStake, nMedianTimePast, heightGap);
            && (fProofOfStake || heightGap == 0 ==> s == base)
            && (!fProofOfStake && heightGap == 1 ==> s == 2 * base)
            && (!fProofOfStake && heightGap >= 2 ==> s == 3 * base)
  {
    var base := if nMedianTimePast > 1525478400 then 150 else c.nTargetSpacing;
    if heightGap >= 2 {
      MulMono(3, 1 + heightGap, base, base);
    }
  }

  /** The limit as a number. */
  function LimitOf(c: Consensus, fProofOfStake: bool): (limit: nat)
    requires c.Valid()
    ensures limit < W(WIDTH)
  {
    NumBound(c.Limit(fProofOfStake));
    Num(c.Limit(fProofOfStake))
  }

  /** The next target in compact form, from the last block of its kind and the one before. */
  function Retargeted(chain: seq<BlockIndex>, fProofOfStake: bool, c: Consensus, i: nat, j: nat): nat
    requires j < i < |chain| && c.Valid()
  {
    var spacing := AimedSpacing(c, fProofOfStake, chain[i].nMedianTimePast, |chain| - 1 - i);
    var actual := Clamp(chain[i].nTime - chain[j].nTime, c.nTargetTimespan);
    CompactOf(NewTarget(LimitOf(c, fProofOfStake), Expand(chain[i].nBits), c.nTargetTimespan, spacing, actual))
  }

  /** The compact target of the block after a chain. */
  function NextBits(chain: seq<BlockIndex>, fProofOfStake: bool, c: Consensus): nat
    requires c.Valid()
  {
    if chain == [] then CompactOf(LimitOf(c, fProofOfStake))
    else
      var i := LastOf(chain, |chain| - 1, fProofOfStake);
      if c.fPowNoRetargeting then chain[i].nBits
      else if i == 0 || LastOf(chain, i - 1, fProofOfStake) == 0 then CompactOf(LimitOf(c, fProofOfStake))
      else Retargeted(chain, fProofOfStake, c, i, LastOf(chain, i - 1, fProofOfStake))
  }

  lemma NewTargetOfRest(limit: nat, target: nat, timespan: int, spacing: int, actual: int)
    requires spacing > 0 && timespan > 0
    ensures NewTarget(limit, target % W(WIDTH), timespan, spacing, actual) ==
              NewTarget(limit, target, timespan, spacing, actual)
  {
    hide W, Factor, Divisor;
    SmallModulus(target % W(WIDTH));
  }

  method ToArith(limbs: seq<Word>) returns (a: array<Word>)
    requires |limbs| == WIDTH
    ensures fresh(a) && a[..] == limbs
  {
    a := new Word[WIDTH](i requires 0 <= i < |limbs| => limbs[i]);
  }

  /** target * factor / divisor, cut at the limit, in place. */
  method Scale(bnNew: array<Word>, bnTargetLimit: array<Word>, timespan: int, spacing: int, actual: int)
    requires bnNew.Length == bnTargetLimit.Length == WIDTH && bnNew != bnTargetLimit
    requires 0 < spacing < 0x2_0000_0000 && 0 < timespan < 0x2000_0000_0000_0000
    requires Num(bnNew[..]) >= 0 && Num(bnTargetLimit[..]) >= 0
    modifies bnNew
    ensures Num(bnNew[..]) == NewTarget(Num(bnTargetLimit[..]), old(Num(bnNew[..])), timespan, spacing, actual)
  {
    hide Num, W, Factor, Divisor;
    NumBound(bnNew[..]);
    SmallModulus(Num(bnNew[..]));
    DivisorBounds(timespan, spacing);
    MulAssign32(bnNew, Factor(timespan, spacing, actual) % B);
    var d := FromUint64(Divisor(timespan, spacing));
    var ok := DivAssign(bnNew, d);
    assert ok;
    var c := CompareTo(bnNew, bnTargetLimit);
    if c > 0 {
      for i := 0 to WIDTH
        invariant forall k | 0 <= k < i :: bnNew[k] == bnTargetLimit[k]
      {
        bnNew[i] := bnTargetLimit[i];
      }
      assert bnNew[..] == bnTargetLimit[..];
    }
  }

  method Spacing(c: Consensus, fProofOfStake: bool, nMedianTimePast: int, heightGap: nat) returns (spacing: int)
    requires c.nTargetSpacing > 0
    ensures spacing == AimedSpacing(c, fProofOfStake, nMedianTimePast, heightGap)
  {
    var targetSpacing := c.nTargetSpacing;
    if nMedianTimePast > SERVICE_UPGRADE_HARDFORK {
      targetSpacing := 150;
    }
    if fProofOfStake {
      spacing := targetSpacing;
    } else {
      spacing := targetSpacing * (1 + heightGap);
      if 3 * targetSpacing < spacing {
        spacing := 3 * targetSpacing;
      }
    }
  }

  method GetNextTargetRequired(chain: seq<BlockIndex>, fProofOfStake: bool, c: Consensus) returns (nBits: Word)
    requires c.Valid()
    ensures nBits == NextBits(chain, fProofOfStake, c)
  {
    hide Num, CompactOf, Expand, NewTarget, AimedSpacing, W;
    var bnTargetLimit := ToArith(c.powLimit);
    if fProofOfStake {
      bnTargetLimit := ToArith(c.posLimit);
    }
    NumBound(bnTargetLimit[..]);
    if chain == [] {
      nBits := GetCompact(bnTargetLimit, false);
      return;
    }
    var i := GetLastBlockIndex(chain, |chain| - 1, fProofOfStake);
    if c.fPowNoRetargeting {
      return chain[i].nBits;
    }
    if i == 0 {
      nBits := GetCompact(bnTargetLimit, false);
      return;
    }
    var j := GetLastBlockIndex(chain, i - 1, fProofOfStake);
    if j == 0 {
      nBits := GetCompact(bnTargetLimit, false);
      return;
    }
    var actual := chain[i].nTime - chain[j].nTime;
    if actual < 0 {
      actual := 1;
    } else if actual > c.nTargetTimespan {
      actual := c.nTargetTimespan;
    }
    var bnNew := FromUint64(0);
    var _, _ := SetCompact(bnNew, chain[i].nBits);
    NumBound(bnNew[..]);
    var spacing := Spacing(c, fProofOfStake, chain[i].nMedianTimePast, |chain| - 1 - i);
    Scale(bnNew, bnTargetLimit, c.nTargetTimespan, spacing, actual);
    NewTargetOfRest(Num(bnTargetLimit[..]), Expand(chain[i].nBits), c.nTargetTimespan, spacing, actual);
    nBits := GetCompact(bnNew, false);
  }

  // ------------------------------------------------- what the retargeting achieves

  /** The next target is never above the limit. */
  lemma WithinLimit(limit: nat, target: nat, timespan: int, spacing: int, actual: int)
    requires spacing > 0 && timespan > 0 && limit < W(WIDTH)
    ensures var t := NewTarget(limit, target, timespan, spacing, actual);
            CompactOf(t) < B && !SignBit(CompactOf(t)) && Expand(CompactOf(t)) <= limit
  {
    hide W, Expand, CompactOf, SignBit, NewTarget;
    var t := NewTarget(limit, target, timespan, spacing, actual);
    RoundsDown(t);
    if t > 0 {
      LosesLittle(t);
    } else {
      Idempotent(0);
    }
  }

  /** The factor is negative exactly if the spacing aimed at is beyond the timespan and more
      than twice the actual one. It is never too large for 32 bits. */
  lemma FactorBounds(timespan: int, spacing: int, actual: int)
    requires 0 < spacing && 0 < timespan < 0x4000_0000 && 0 <= actual <= timespan
    ensures Factor(timespan, spacing, actual) < B
    ensures Factor(timespan, spacing, actual) >= 0 <==> spacing <= timespan || 2 * actual >= spacing
    ensures Factor(timespan, spacing, actual) % B == Factor(timespan, spacing, actual) <==>
            spacing <= timespan || 2 * actual >= spacing
    ensures actual == spacing ==> Factor(timespan, spacing, actual) == Divisor(timespan, spacing)
  {
    var q := timespan / spacing;
    assert timespan == q * spacing + timespan % spacing;
    assert (q - 1) * spacing == q * spacing - spacing;
    assert (q + 1) * spacing == q * spacing + spacing;
    if spacing <= timespan {
      assert q >= 1 by { Within(timespan, spacing, 1, timespan + 1); }
      MulMono(0, q - 1, 0, spacing);
    } else {
      Quotient(timespan, 0, timespan, spacing);
    }
  }

  lemma NegativeQuotient(x: int, d: int)
    requires x < 0 && d > 0
    ensures x / d < 0
  {
    assert x == x / d * d + x % d;
    Steps(0, x / d, d);
  }

  /** A product cut at m loses at least one in the quotient. */
  lemma CutQuotient(x: nat, m: nat, d: nat)
    requires 0 < d <= m <= x
    ensures x % m / d < x / d
  {
    CutRest(x, m);
    OneLess(x, d);
    DivideMono(x % m, x - d, d);
  }

  lemma CutRest(x: nat, m: nat)
    requires 0 < m <= x
    ensures x % m <= x - m
  {
    assert x == x / m * m + x % m;
    Steps(x / m, 1, m);
  }

  lemma OneLess(x: nat, d: nat)
    requires d > 0
    ensures (x - d) / d == x / d - 1
  {
    assert x == x / d * d + x % d;
    assert (x / d - 1) * d == x / d * d - d;
    Quotient(x - d, x / d - 1, x % d, d);
  }

  lemma CutScaleExactly(target: nat, f: int, d: nat, w: nat)
    requires 0 < target < w && f < B && 0 < d <= w
    ensures CutScale(target, f, d, w) == target * f / d <==> f >= 0 && target * f < w
  {
    Wrap(target, 0, w, target);
    if f < 0 {
      NegativeProduct(target, f);
      NegativeQuotient(target * f, d);
      hide CutScale;
    } else {
      Wrap(f, 0, B, f);
      MulMono(0, target, 0, f);
      CutProduct(target * f, w, d);
    }
  }

  lemma CutScaleFits(target: nat, f: int, d: nat, w: nat)
    requires target < w && 0 <= f < B && target * f < w && d > 0
    ensures CutScale(target, f, d, w) == target * f / d
  {
    Wrap(target, 0, w, target);
    Wrap(f, 0, B, f);
    MulMono(0, target, 0, f);
    Wrap(target * f, 0, w, target * f);
  }

  lemma NegativeProduct(x: int, y: int)
    requires x > 0 && y < 0
    ensures x * y < 0
  {
  }

  lemma CutProduct(x: nat, m: nat, d: nat)
    requires 0 < d <= m
    ensures x % m / d == x / d <==> x < m
  {
    if x < m {
      Wrap(x, 0, m, x);
    } else {
      CutQuotient(x, m, d);
    }
  }

  /** Scaling gives the exact quotient if and only if the factor is not negative and the
      product fits 256 bits. */
  lemma ScaledExactly(target: nat, timespan: int, spacing: int, actual: int)
    requires 0 < target < W(WIDTH)
    requires 0 < spacing < 0x2_0000_0000 && 0 < timespan < 0x4000_0000 && 0 <= actual <= timespan
    ensures Divisor(timespan, spacing) > 0
    ensures Scaled(target, timespan, spacing, actual) ==
              target * Factor(timespan, spacing, actual) / Divisor(timespan, spacing) <==>
            && (spacing <= timespan || 2 * actual >= spacing)
            && target * Factor(timespan, spacing, actual) < W(WIDTH)
  {
    hide W, Factor, Divisor, CutScale;
    FactorBounds(timespan, spacing, actual);
    DivisorBounds(timespan, spacing);
    Wide();
    CutScaleExactly(target, Factor(timespan, spacing, actual), Divisor(timespan, spacing), W(WIDTH));
  }

  lemma Wide()
    ensures W(WIDTH) >= 0x1_0000_0000_0000_0000
  {
    hide W;
    WNext(0);
    WNext(1);
    WAdd(2, 6);
    MulMono(W(2), W(2), 1, W(6));
  }

  /** With a factor that is not negative and a product that fits, nothing wraps. */
  lemma NothingWraps(limit: nat, target: nat, timespan: int, spacing: int, actual: int)
    requires 0 < spacing < 0x2_0000_0000 && 0 < timespan < 0x4000_0000 && 0 <= actual <= timespan
    requires spacing <= timespan || 2 * actual >= spacing
    requires target < W(WIDTH) && target * Factor(timespan, spacing, actual) < W(WIDTH)
    ensures Divisor(timespan, spacing) > 0
    ensures var t := target * Factor(timespan, spacing, actual) / Divisor(timespan, spacing);
            NewTarget(limit, target, timespan, spacing, actual) == if t > limit then limit else t
  {
    hide W, Factor, Divisor, CutScale;
    FactorBounds(timespan, spacing, actual);
    DivisorBounds(timespan, spacing);
    CutScaleFits(target, Factor(timespan, spacing, actual), Divisor(timespan, spacing), W(WIDTH));
  }

  /** With a timespan of 100 and a spacing of 450 the factor wraps, and two blocks in the same
      second, far too fast, make the target millions of times larger. */
  lemma NegativeFactorRaises(limit: nat)
    requires limit >= 9544370768
    ensures Factor(100, 450, 0) == -450 && NewTarget(limit, 1000, 100, 450, 0) == 9544370768
  {
    hide W;
    Wide();
    SmallModulus(1000);
    SmallModulus(4294966846000);
    assert Factor(100, 450, 0) % B == 4294966846 && Divisor(100, 450) == 450;
  }

  /** On the main network, where the limit is 2^236 - 1, the factor never wraps, nor does the
      product for any target within the limit. */
  lemma MainNetNeverWraps(c: Consensus, fProofOfStake: bool, nMedianTimePast: int, heightGap: nat, between: int,
                          limit: nat, target: nat)
    requires c.nTargetTimespan == 30 * 45 && c.nTargetSpacing == 45
    requires target <= limit < Pow2(236)
    ensures var spacing := AimedSpacing(c, fProofOfStake, nMedianTimePast, heightGap);
            var actual := Clamp(between, c.nTargetTimespan);
            && Divisor(c.nTargetTimespan, spacing) > 0
            && var t := target * Factor(c.nTargetTimespan, spacing, actual) / Divisor(c.nTargetTimespan, spacing);
            NewTarget(limit, target, c.nTargetTimespan, spacing, actual) == if t > limit then limit else t
  {
    hide W, Divisor, Pow2;
    MainNetLimit(limit);
    var spacing := AimedSpacing(c, fProofOfStake, nMedianTimePast, heightGap);
    var actual := Clamp(between, c.nTargetTimespan);
    FactorBounds(c.nTargetTimespan, spacing, actual);
    MainNetFactor(spacing, actual);
    MulMono(target, limit, Factor(c.nTargetTimespan, spacing, actual), 4096);
    hide Factor, AimedSpacing, Clamp;
    NothingWraps(limit, target, c.nTargetTimespan, spacing, actual);
  }

  lemma MainNetLimit(limit: nat)
    requires limit < Pow2(236)
    ensures 4096 * limit < W(WIDTH)
  {
    hide Pow2;
    TopWeight();
    TwoAdd(236, 20);
    TwoGrows(13, 20);
    Power13();
    MulMono(limit, Pow2(236), 4096, Pow2(20));
  }

  lemma Power13()
    ensures Pow2(13) >= 4096
  {
    hide Pow2;
    Power8();
    TwoAdd(1, 1);
    TwoAdd(2, 2);
    TwoAdd(4, 1);
    TwoAdd(8, 5);
  }

  lemma MainNetFactor(spacing: int, actual: int)
    requires 0 < spacing <= 1350 && 0 <= actual <= 1350
    ensures Factor(1350, spacing, actual) <= 4096
  {
    var q := 1350 / spacing;
    assert 1350 == q * spacing + 1350 % spacing;
    assert (q - 1) * spacing == q * spacing - spacing;
  }

  /** Clamping keeps the order of two spacings, except that a negative one counts as more
      than none. */
  lemma ClampOrder(a: int, b: int, timespan: int)
    requires a <= b && timespan > 0
    ensures Clamp(a, timespan) <= Clamp(b, timespan) <==> !(a < 0 && b == 0)
  {
  }

  /** Slower blocks never make the next target smaller. */
  lemma MonotoneInSpacing(limit: nat, target: nat, timespan: int, spacing: int, a: int, b: int)
    requires 0 < spacing <= timespan < 0x4000_0000 && a <= b && !(a < 0 && b == 0)
    requires limit < W(WIDTH) && target < W(WIDTH)
    requires target * Factor(timespan, spacing, Clamp(b, timespan)) < W(WIDTH)
    ensures var t := NewTarget(limit, target, timespan, spacing, Clamp(a, timespan));
            var t' := NewTarget(limit, target, timespan, spacing, Clamp(b, timespan));
            CompactOf(t) < B && CompactOf(t') < B && Expand(CompactOf(t)) <= Expand(CompactOf(t'))
  {
    ClampOrder(a, b, timespan);
    var x, y := Clamp(a, timespan), Clamp(b, timespan);
    assert Factor(timespan, spacing, x) <= Factor(timespan, spacing, y);
    hide W, Expand, CompactOf, NewTarget, Factor, Divisor, Clamp;
    FactorBounds(timespan, spacing, x);
    FactorBounds(timespan, spacing, y);
    MulMono(target, target, Factor(timespan, spacing, x), Factor(timespan, spacing, y));
    NothingWraps(limit, target, timespan, spacing, x);
    NothingWraps(limit, target, timespan, spacing, y);
    MulMono(0, target, 0, Factor(timespan, spacing, x));
    var d := Divisor(timespan, spacing);
    DivideMono(target * Factor(timespan, spacing, x), target * Factor(timespan, spacing, y), d);
    Monotone(NewTarget(limit, target, timespan, spacing, x), NewTarget(limit, target, timespan, spacing, y));
  }

  lemma DivideMono(x: nat, y: nat, d: int)
    requires x <= y && d > 0
    ensures x / d <= y / d
  {
    assert x == x / d * d + x % d && y == y / d * d + y % d;
    Steps(x / d, y / d, d);
  }

  /** Blocks found exactly at the aimed spacing leave a canonical target alone, if and only if
      the product fits 256 bits. */
  lemma SteadyState(limit: nat, nBits: Word, timespan: int, spacing: int)
    requires 0 < spacing <= timespan < 0x4000_0000
    requires 0 < Expand(nBits) <= limit < W(WIDTH) && CompactOf(Expand(nBits)) == nBits
    ensures CompactOf(NewTarget(limit, Expand(nBits), timespan, spacing, Clamp(spacing, timespan))) == nBits <==>
            Expand(nBits) * Divisor(timespan, spacing) < W(WIDTH)
  {
    hide W, Expand, CompactOf, Factor, Divisor, Scaled;
    var target, d := Expand(nBits), Divisor(timespan, spacing);
    FactorBounds(timespan, spacing, spacing);
    DivisorBounds(timespan, spacing);
    ScaledExactly(target, timespan, spacing, spacing);
    Quotient(target * d, target, 0, d);
    if target * d >= W(WIDTH) {
      ScaledBelow(target, timespan, spacing);
      RoundsDown(Scaled(target, timespan, spacing, spacing));
    }
  }

  lemma ScaledBelow(target: nat, timespan: int, spacing: int)
    requires 0 < spacing <= timespan < 0x4000_0000 && 0 < target < W(WIDTH)
    requires target * Divisor(timespan, spacing) >= W(WIDTH)
    ensures Scaled(target, timespan, spacing, spacing) < target
  {
    hide W, Factor, Divisor;
    var d := Divisor(timespan, spacing);
    FactorBounds(timespan, spacing, spacing);
    DivisorBounds(timespan, spacing);
    SmallModulus(target);
    Wide();
    CutQuotient(target * d, W(WIDTH), d);
    Quotient(target * d, target, 0, d);
  }

  /** On a network that retargets with a limit of 2^255 - 1, the highest target would not
      survive blocks that come exactly as aimed: the product wraps. */
  lemma HighLimitDrifts(limit: nat)
    requires Expand(0x207fffff) <= limit < W(WIDTH)
    ensures CompactOf(NewTarget(limit, Expand(0x207fffff), 1350, 45, 45)) != 0x207fffff
  {
    hide W, CompactOf, NewTarget;
    HighestTarget();
    var target := Expand(0x207fffff);
    hide Expand;
    MulMono(target, target, 4, 1395);
    SteadyState(limit, 0x207fffff, 1350, 45);
  }

  lemma HighestTarget()
    ensures Expand(0x207fffff) > 0 && 4 * Expand(0x207fffff) >= W(WIDTH) && CompactOf(Expand(0x207fffff)) == 0x207fffff
  {
    hide Pow2, CompactOf;
    Canonical(0x207fffff);
    Power23();
    TwoAdd(24, 232);
    MulMono(1, 0x7fffff, 1, Pow2(232));
  }

  /** A block stamped before its predecessor raises the target above what a block with the
      same stamp gives. */
  lemma NegativeSpacingIsNotLess()
    ensures NewTarget(0xffff, 1395, 1350, 45, Clamp(-1, 1350)) == 1307
    ensures NewTarget(0xffff, 1395, 1350, 45, Clamp(0, 1350)) == 1305
  {
    Small24();
    hide W, NewTarget;
    NothingWraps(0xffff, 1395, 1350, 45, 1);
    NothingWraps(0xffff, 1395, 1350, 45, 0);
  }
}
