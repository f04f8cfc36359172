/** Whole chains of targets on the networks there are. */
module TargetChains {
  import opened Radix
  import opened Limbs
  import opened ArithUint256
  import opened Compact
  import opened ProofOfWork

  const ONES := 0xffff_ffff

  /** Seven limbs of ones and a top limb. */
  function Limbs7(top: Word): seq<Word> { [ONES, ONES, ONES, ONES, ONES, ONES, ONES, top] }

  const MAIN_NET := Consensus(Limbs7(0xfff), Limbs7(0xfff), 30 * 45, 45, false)
  const TEST_NET := Consensus(Limbs7(0x7fff_ffff), Limbs7(0x7fff_ffff), 30 * 45, 45, true)
  const REG_TEST := Consensus(Limbs7(0x7fff_ffff), Limbs7(0x7fff_ffff), 30 * 45, 45, true)

  lemma {:induction false} NumOnes(s: seq<int>)
    requires forall i | 0 <= i < |s| :: s[i] == ONES
    ensures Num(s) == W(|s|) - 1
  {
    hide W;
    WNext(0);
    if s != [] {
      NumOnes(s[..|s| - 1]);
      WNext(|s| - 1);
    }
  }

  /** The main network's limit. */
  lemma MainNetLimitIs(fProofOfStake: bool)
    ensures MAIN_NET.Valid() && LimitOf(MAIN_NET, fProofOfStake) == Pow2(236) - 1
  {
    var s: seq<int> := Limbs7(0xfff);
    assert s[..7] == [ONES, ONES, ONES, ONES, ONES, ONES, ONES];
    assert Num(s) == Num(s[..7]) + 0xfff * W(7);
    NumOnes(s[..7]);
    TopOf236();
    hide Num, W, Pow2;
  }

  lemma TopOf236()
    ensures 0x1000 * W(7) == Pow2(236)
  {
    assert W(7) == Pow2(224);
    hide Pow2, W;
    Power8();
    TwoAdd(1, 1);
    TwoAdd(2, 2);
    TwoAdd(8, 4);
    TwoAdd(12, 224);
  }

  /** Every block but the first carries what the blocks before it ask for. */
  ghost predicate Follows(chain: seq<BlockIndex>, c: Consensus)
    requires c.Valid()
  {
    forall k | 1 <= k < |chain| :: chain[k].nBits == NextBits(chain[..k], chain[k].isProofOfStake, c)
  }

  lemma LimitRoundsDown(limit: nat)
    requires limit < W(WIDTH)
    ensures CompactOf(limit) < B && !SignBit(CompactOf(limit)) && Expand(CompactOf(limit)) <= limit
  {
    hide W, Expand, CompactOf, SignBit;
    RoundsDown(limit);
    if limit > 0 {
      LosesLittle(limit);
    } else {
      Idempotent(0);
    }
  }

  /** What a network that retargets asks for is within its limit, and not negative. */
  lemma AskedWithinLimit(chain: seq<BlockIndex>, fProofOfStake: bool, c: Consensus)
    requires c.Valid() && !c.fPowNoRetargeting
    ensures var n := NextBits(chain, fProofOfStake, c);
            n < B && !SignBit(n) && Expand(n) <= LimitOf(c, fProofOfStake)
  {
    hide Num, W, Expand, CompactOf, SignBit, NewTarget, AimedSpacing, LimitOf;
    var limit := LimitOf(c, fProofOfStake);
    LimitRoundsDown(limit);
    if chain != [] {
      var i := LastOf(chain, |chain| - 1, fProofOfStake);
      if i > 0 {
        var j := LastOf(chain, i - 1, fProofOfStake);
        var spacing := AimedSpacing(c, fProofOfStake, chain[i].nMedianTimePast, |chain| - 1 - i);
        var actual := Clamp(chain[i].nTime - chain[j].nTime, c.nTargetTimespan);
        WithinLimit(limit, Expand(chain[i].nBits), c.nTargetTimespan, spacing, actual);
      }
    }
  }

  /** So is every target of such a chain, after the first. */
  lemma TargetsWithinLimit(chain: seq<BlockIndex>, c: Consensus, k: nat)
    requires c.Valid() && !c.fPowNoRetargeting && Follows(chain, c) && 1 <= k < |chain|
    ensures !SignBit(chain[k].nBits) && Expand(chain[k].nBits) <= LimitOf(c, chain[k].isProofOfStake)
  {
    hide NextBits, LimitOf, Expand, SignBit;
    AskedWithinLimit(chain[..k], chain[k].isProofOfStake, c);
  }

  /** The target asked for, computed with integers of any size. */
  ghost function ExactBits(chain: seq<BlockIndex>, fProofOfStake: bool, c: Consensus, i: nat, j: nat): nat
    requires j < i < |chain| && c.Valid()
  {
    var spacing := AimedSpacing(c, fProofOfStake, chain[i].nMedianTimePast, |chain| - 1 - i);
    var actual := Clamp(chain[i].nTime - chain[j].nTime, c.nTargetTimespan);
    DivisorBounds(c.nTargetTimespan, spacing);
    var limit, t := LimitOf(c, fProofOfStake), Expand(chain[i].nBits) * Factor(c.nTargetTimespan, spacing, actual);
    var q := t / Divisor(c.nTargetTimespan, spacing);
    CompactOf(if q > limit then limit else if q < 0 then 0 else q)
  }

  lemma ExactStep(chain: seq<BlockIndex>, fProofOfStake: bool, i: nat, j: nat)
    requires MAIN_NET.Valid() && j < i < |chain| && Expand(chain[i].nBits) <= LimitOf(MAIN_NET, fProofOfStake)
    ensures Retargeted(chain, fProofOfStake, MAIN_NET, i, j) == ExactBits(chain, fProofOfStake, MAIN_NET, i, j)
  {
    hide Num, W, Expand, CompactOf, NewTarget, AimedSpacing, LimitOf, Factor, Divisor, Clamp, Pow2;
    MainNetLimitIs(fProofOfStake);
    var limit, target := LimitOf(MAIN_NET, fProofOfStake), Expand(chain[i].nBits);
    var median, gap, between := chain[i].nMedianTimePast, |chain| - 1 - i, chain[i].nTime - chain[j].nTime;
    MainNetNeverWraps(MAIN_NET, fProofOfStake, median, gap, between, limit, target);
  }

  lemma LastAsked(chain: seq<BlockIndex>, fProofOfStake: bool, c: Consensus)
    requires c.Valid() && c.fPowNoRetargeting && chain != []
    ensures NextBits(chain, fProofOfStake, c) == chain[LastOf(chain, |chain| - 1, fProofOfStake)].nBits
  {
    hide CompactOf, LimitOf, Retargeted, LastOf;
  }

  /** Where nothing is retargeted every block carries what the first one does. */
  lemma {:induction false} NeverRetargeted(chain: seq<BlockIndex>, c: Consensus, k: nat)
    requires c.Valid() && c.fPowNoRetargeting && Follows(chain, c) && k < |chain|
    ensures chain[k].nBits == chain[0].nBits
    decreases k
  {
    hide NextBits, LastOf, Consensus.Valid;
    if k > 0 {
      var i := LastOf(chain[..k], k - 1, chain[k].isProofOfStake);
      LastAsked(chain[..k], chain[k].isProofOfStake, c);
      assert chain[..k][i] == chain[i];
      NeverRetargeted(chain, c, i);
    }
  }

  /** On each of the three networks the next target after a chain that follows the rules is, in
      this order: the first block's where nothing is retargeted; the limit while there are not
      two blocks of the kind to compare; and otherwise the exact quotient. Nothing wraps. */
  lemma NothingWrapsAnywhere(chain: seq<BlockIndex>, fProofOfStake: bool, c: Consensus)
    requires c == MAIN_NET || c == TEST_NET || c == REG_TEST
    requires c.Valid() && Follows(chain, c) && chain != []
    ensures var n, i := NextBits(chain, fProofOfStake, c), LastOf(chain, |chain| - 1, fProofOfStake);
            if c.fPowNoRetargeting then n == chain[i].nBits == chain[0].nBits
            else if i == 0 || LastOf(chain, i - 1, fProofOfStake) == 0 then n == CompactOf(LimitOf(c, fProofOfStake))
            else n == ExactBits(chain, fProofOfStake, c, i, LastOf(chain, i - 1, fProofOfStake))
  {
    hide Num, W, Expand, CompactOf, LimitOf, Follows, ExactBits, Retargeted;
    var i := LastOf(chain, |chain| - 1, fProofOfStake);
    if c.fPowNoRetargeting {
      NeverRetargeted(chain, c, i);
    } else if i > 0 {
      TargetsWithinLimit(chain, c, i);
      ExactStep(chain, fProofOfStake, i, LastOf(chain, i - 1, fProofOfStake));
    }
  }

  // --------------------------------------------------------- the main network in numbers

  /** What a target is multiplied by, besides twice the time between the last two blocks of its
      kind, and divided by, on the main network: before and after the hard fork, and for work as
      none, one or more blocks have come since the last one. */
  function Weights(afterFork: bool, fProofOfStake: bool, gap: nat): (w: (nat, nat))
    ensures w.1 > 0
  {
    if fProofOfStake || gap == 0 then (if afterFork then (1200, 1500) else (1305, 1395))
    else if gap == 1 then (if afterFork then (900, 1500) else (1260, 1440))
    else (if afterFork then (900, 1800) else (1215, 1485))
  }

  /** The time between two blocks counts as one second if it is negative and 1350 at most. */
  function Between(time: int): nat {
    if time < 0 then 1 else if time > 1350 then 1350 else time
  }

  lemma ScaledNonNegative(target: nat, f: nat, d: nat)
    requires d > 0
    ensures target * f / d >= 0
  {
    MulMono(0, target, 0, f);
    hide *;
    QuotientNonNegative(target * f, d);
  }

  lemma QuotientNonNegative(x: nat, d: nat)
    requires d > 0
    ensures x / d >= 0
  {
  }

  /** A target scaled, up to the limit of 2^236 - 1. */
  ghost function UpToLimit(target: nat, f: nat, d: nat): (t: nat)
    requires d > 0
  {
    ScaledNonNegative(target, f, d);
    if target * f / d < Pow2(236) then target * f / d else Pow2(236) - 1
  }

  lemma WeightsAre(fProofOfStake: bool, nMedianTimePast: int, gap: nat, time: int)
    ensures var (f, d) := Weights(nMedianTimePast > 1525478400, fProofOfStake, gap);
            var spacing := AimedSpacing(MAIN_NET, fProofOfStake, nMedianTimePast, gap);
            && Divisor(1350, spacing) == d
            && Factor(1350, spacing, Clamp(time, 1350)) == f + 2 * Between(time)
  {
    SpacingIs(MAIN_NET, fProofOfStake, nMedianTimePast, gap);
    hide AimedSpacing;
  }

  /** The last target of the kind scaled by the weights, in compact form. */
  ghost function Weighed(chain: seq<BlockIndex>, fProofOfStake: bool, i: nat, j: nat): nat
    requires i < |chain| && j < |chain|
  {
    var (f, d) := Weights(chain[i].nMedianTimePast > 1525478400, fProofOfStake, |chain| - 1 - i);
    CompactOf(UpToLimit(Expand(chain[i].nBits), f + 2 * Between(chain[i].nTime - chain[j].nTime), d))
  }

  lemma MainNetRetargets()
    ensures !MAIN_NET.fPowNoRetargeting
  {
  }

  /** The next target of the main network after a chain that follows the rules, if i and j
      are the last two places of blocks of the kind, neither of them the first of the chain. */
  lemma MainNetTarget(chain: seq<BlockIndex>, fProofOfStake: bool, i: nat, j: nat)
    requires MAIN_NET.Valid() && Follows(chain, MAIN_NET) && 0 < j < i < |chain|
    requires chain[i].isProofOfStake == chain[j].isProofOfStake == fProofOfStake
    requires forall k | j < k < |chain| && k != i :: chain[k].isProofOfStake != fProofOfStake
    ensures NextBits(chain, fProofOfStake, MAIN_NET) == Weighed(chain, fProofOfStake, i, j)
  {
    hide *;
    MainNetRetargets();
    LastIs(chain, |chain| - 1, fProofOfStake, i);
    LastIs(chain, i - 1, fProofOfStake, j);
    NothingWrapsAnywhere(chain, fProofOfStake, MAIN_NET);
    ExactIsWeighed(chain, fProofOfStake, i, j);
  }

  lemma ExactIsWeighed(chain: seq<BlockIndex>, fProofOfStake: bool, i: nat, j: nat)
    requires MAIN_NET.Valid() && j < i < |chain|
    ensures ExactBits(chain, fProofOfStake, MAIN_NET, i, j) == Weighed(chain, fProofOfStake, i, j)
  {
    hide Num, W, Expand, CompactOf, LimitOf, Weights, Between, Pow2, Factor, Divisor, Clamp, AimedSpacing;
    MainNetLimitIs(fProofOfStake);
    WeightsAre(fProofOfStake, chain[i].nMedianTimePast, |chain| - 1 - i, chain[i].nTime - chain[j].nTime);
    var (f, d) := Weights(chain[i].nMedianTimePast > 1525478400, fProofOfStake, |chain| - 1 - i);
    ScaledNonNegative(Expand(chain[i].nBits), f + 2 * Between(chain[i].nTime - chain[j].nTime), d);
  }

  /** The last block of a kind, said without looking for it. */
  lemma {:induction false} LastIs(chain: seq<BlockIndex>, n: nat, fProofOfStake: bool, i: nat)
    requires 0 < i <= n < |chain| && chain[i].isProofOfStake == fProofOfStake
    requires forall k | i < k <= n :: chain[k].isProofOfStake != fProofOfStake
    ensures LastOf(chain, n, fProofOfStake) == i
  {
    if n > i {
      LastIs(chain, n - 1, fProofOfStake, i);
    }
  }
}
