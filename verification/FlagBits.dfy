/** How many flag bits a proof takes, and when the documented bound holds. */
module FlagBits {
  import opened Radix
  import opened Merkle
  import opened PartialMerkleTree

  /** The nodes below which the encoder descends although they have one child only. */
  function Singles(matches: seq<bool>, height: nat, pos: nat): nat
    requires pos < CalcTreeWidth(|matches|, height)
    decreases height
  {
    if height == 0 || !ParentOfMatch(matches, height, pos) then 0
    else
      Children(|matches|, height, pos);
      var left := Singles(matches, height - 1, 2 * pos);
      if 2 * pos + 1 < CalcTreeWidth(|matches|, height - 1) then left + Singles(matches, height - 1, 2 * pos + 1)
      else left + 1
  }

  /** Two bits per hash less one, and one more for each of those nodes. */
  lemma {:induction false} BitCount(H: PairHash, ids: seq<Hash>, matches: seq<bool>, height: nat, pos: nat)
    requires |matches| == |ids| && pos < CalcTreeWidth(|ids|, height)
    ensures var e := Build(H, ids, matches, height, pos);
            |e.bits| == 2 * |e.hashes| - 1 + Singles(matches, height, pos)
    decreases height
  {
    hide Build, CalcTreeWidth, ParentOfMatch, CalcHash;
    BuildStep(H, ids, matches, height, pos);
    if height > 0 && ParentOfMatch(matches, height, pos) {
      BitCount(H, ids, matches, height - 1, 2 * pos);
      if 2 * pos + 1 < CalcTreeWidth(|ids|, height - 1) {
        BitCount(H, ids, matches, height - 1, 2 * pos + 1);
      }
    }
  }

  // ------------------------------------------------------------ the right edge

  /** Above an odd number of nodes the last node has one child, otherwise all have two. */
  lemma Halves(n: nat, height: nat)
    requires n >= 1 && height >= 1
    ensures var w, below := CalcTreeWidth(n, height), CalcTreeWidth(n, height - 1);
            w >= 1 && (below == 2 * w - 1 || below == 2 * w)
  {
    WidthMeaning(n, height, 0);
    var w := CalcTreeWidth(n, height);
    WidthMeaning(n, height, w);
    WidthMeaning(n, height - 1, 2 * w);
    Pow2Next(height - 1);
    assert w * (2 * Pow2(height - 1)) == (2 * w) * Pow2(height - 1);
    hide CalcTreeWidth, Pow2;
    Children(n, height, w - 1);
  }

  /** A match lies under the last node of a height, and that node has one child. */
  predicate OddEdge(matches: seq<bool>, height: nat)
    requires matches != [] && height >= 1
  {
    && CalcTreeWidth(|matches|, height - 1) % 2 == 1
    && AnyMatch(matches, First(height, CalcTreeWidth(|matches|, height) - 1), |matches|)
  }

  predicate NoOddEdge(matches: seq<bool>, height: nat)
    requires matches != []
  {
    forall h | 1 <= h <= height :: !OddEdge(matches, h)
  }

  /** Everything after the first leaf of the last node is below it. */
  lemma LastNode(n: nat, height: nat)
    requires n >= 1
    ensures CalcTreeWidth(n, height) >= 1
    ensures var last := CalcTreeWidth(n, height) - 1;
            First(height, last) < n && End(n, height, last) == n
  {
    WidthMeaning(n, height, 0);
    var w := CalcTreeWidth(n, height);
    WidthMeaning(n, height, w);
    WidthMeaning(n, height, w - 1);
  }

  /** The last nodes cover less and less on the way down. */
  lemma LastShrinks(n: nat, height: nat)
    requires n >= 1 && height >= 1
    ensures CalcTreeWidth(n, height) >= 1 && CalcTreeWidth(n, height - 1) >= 1
    ensures First(height - 1, CalcTreeWidth(n, height - 1) - 1) >= First(height, CalcTreeWidth(n, height) - 1)
  {
    Halves(n, height);
    var w := CalcTreeWidth(n, height);
    Children(n, height, w - 1);
    Pow2Next(height - 1);
    hide CalcTreeWidth, Pow2;
    MulOrder(2 * (w - 1), CalcTreeWidth(n, height - 1) - 1, Pow2(height - 1));
  }

  lemma {:induction false} NoEdgeBelow(matches: seq<bool>, height: nat)
    requires matches != [] && CalcTreeWidth(|matches|, height) >= 1
    requires !AnyMatch(matches, First(height, CalcTreeWidth(|matches|, height) - 1), |matches|)
    ensures NoOddEdge(matches, height)
  {
    if height > 0 {
      LastShrinks(|matches|, height);
      hide First, CalcTreeWidth;
      NoEdgeBelow(matches, height - 1);
    }
  }

  /** Away from the right edge every node that is descended into has two children. */
  lemma {:induction false} InnerSingles(matches: seq<bool>, height: nat, pos: nat)
    requires pos + 1 < CalcTreeWidth(|matches|, height)
    ensures Singles(matches, height, pos) == 0
    decreases height
  {
    if height > 0 {
      WidthMeaning(|matches|, height, 0);
      Halves(|matches|, height);
      hide CalcTreeWidth, ParentOfMatch;
      InnerSingles(matches, height - 1, 2 * pos);
      InnerSingles(matches, height - 1, 2 * pos + 1);
    }
  }

  /** The last node of a height is descended into if any match lies after its first leaf. */
  lemma EdgeMatched(matches: seq<bool>, height: nat)
    requires matches != []
    ensures CalcTreeWidth(|matches|, height) >= 1
    ensures var last := CalcTreeWidth(|matches|, height) - 1;
            ParentOfMatch(matches, height, last) == AnyMatch(matches, First(height, last), |matches|)
  {
    LastNode(|matches|, height);
    hide CalcTreeWidth, First, AnyMatch;
  }

  lemma EdgeStep(matches: seq<bool>, height: nat)
    requires matches != [] && height >= 1
    ensures CalcTreeWidth(|matches|, height) >= 1 && CalcTreeWidth(|matches|, height - 1) >= 1
    ensures var last, below := CalcTreeWidth(|matches|, height) - 1, CalcTreeWidth(|matches|, height - 1) - 1;
            Singles(matches, height, last) ==
              if !ParentOfMatch(matches, height, last) then 0
              else Singles(matches, height - 1, below) + if (below + 1) % 2 == 1 then 1 else 0
  {
    hide CalcTreeWidth, ParentOfMatch;
    Halves(|matches|, height);
    var last := CalcTreeWidth(|matches|, height) - 1;
    if 2 * last + 1 < CalcTreeWidth(|matches|, height - 1) {
      InnerSingles(matches, height - 1, 2 * last);
    }
  }

  /** On the right edge there is one for each height at which the edge is odd and matched. */
  lemma {:induction false} EdgeSingles(matches: seq<bool>, height: nat)
    requires matches != []
    ensures CalcTreeWidth(|matches|, height) >= 1
    ensures Singles(matches, height, CalcTreeWidth(|matches|, height) - 1) <= height
    ensures Singles(matches, height, CalcTreeWidth(|matches|, height) - 1) == 0 <==> NoOddEdge(matches, height)
  {
    hide *;
    EdgeMatched(matches, height);
    if height == 0 {
      NoEdgeAtLeaves(matches);
    } else {
      EdgeStep(matches, height);
      EdgeAbove(matches, height);
      if ParentOfMatch(matches, height, CalcTreeWidth(|matches|, height) - 1) {
        EdgeSingles(matches, height - 1);
        EdgeIs(matches, height);
      } else {
        NoEdgeBelow(matches, height);
      }
    }
  }

  lemma NoEdgeAtLeaves(matches: seq<bool>)
    requires CalcTreeWidth(|matches|, 0) >= 1
    ensures matches != [] ==> NoOddEdge(matches, 0)
    ensures Singles(matches, 0, CalcTreeWidth(|matches|, 0) - 1) == 0
  {
  }

  lemma EdgeAbove(matches: seq<bool>, height: nat)
    requires matches != [] && height >= 1
    ensures NoOddEdge(matches, height) <==> NoOddEdge(matches, height - 1) && !OddEdge(matches, height)
  {
    hide OddEdge;
  }

  lemma EdgeIs(matches: seq<bool>, height: nat)
    requires matches != [] && height >= 1 && CalcTreeWidth(|matches|, height) >= 1
    requires AnyMatch(matches, First(height, CalcTreeWidth(|matches|, height) - 1), |matches|)
    ensures OddEdge(matches, height) <==> CalcTreeWidth(|matches|, height - 1) % 2 == 1
  {
  }

  // ------------------------------------------------------------- whole proofs

  /** A proof keeps to the documented 2N - 1 flag bits for N hashes exactly when no height of the
      tree has both an odd number of nodes below it and a match under its last node; beyond that
      it never takes more than one bit per height. */
  lemma BitsWithinBoundIff(H: PairHash, ids: seq<Hash>, matches: seq<bool>)
    requires ids != [] && |matches| == |ids|
    ensures var p := Proof(H, ids, matches);
            && |p.bits| <= 2 * |p.hashes| - 1 + TreeHeight(|ids|, 0)
            && (|p.bits| <= 2 * |p.hashes| - 1 <==> NoOddEdge(matches, TreeHeight(|ids|, 0)))
  {
    hide Build, CalcTreeWidth, Singles, NoOddEdge;
    BitCount(H, ids, matches, TreeHeight(|ids|, 0), 0);
    EdgeSingles(matches, TreeHeight(|ids|, 0));
  }

  lemma SmallPowers()
    ensures Pow2(0) == 1 && Pow2(1) == 2 && Pow2(2) == 4
  {
    Pow2Next(0);
    Pow2Next(1);
  }

  lemma ThreeWidths()
    ensures CalcTreeWidth(3, 0) == 3 && CalcTreeWidth(3, 1) == 2 && CalcTreeWidth(3, 2) == 1
  {
    SmallPowers();
    hide Pow2;
  }

  lemma ThreeLeaves()
    ensures CalcTreeWidth(3, 0) == 3 && CalcTreeWidth(3, 1) == 2 && CalcTreeWidth(3, 2) == 1
    ensures First(2, 0) == 0 && First(1, 0) == 0 && First(1, 1) == 2 && First(0, 2) == 2
    ensures End(3, 2, 0) == 3 && End(3, 1, 0) == 2 && End(3, 1, 1) == 3 && End(3, 0, 2) == 3
    ensures TreeHeight(3, 0) == 2
  {
    SmallPowers();
    ThreeWidths();
    hide Pow2, CalcTreeWidth;
  }

  /** Of three transactions the third alone is proved with two hashes but four flag bits. */
  lemma OneBitTooMany(H: PairHash, a: Hash, b: Hash, c: Hash)
    ensures var p := Proof(H, [a, b, c], [false, false, true]);
            |p.hashes| == 2 && |p.bits| == 4 > 2 * |p.hashes| - 1
  {
    var ids, matches := [a, b, c], [false, false, true];
    ThreeLeaves();
    hide CalcTreeWidth, First, End, TreeHeight, CalcHash;
    assert matches[2];
    BuildStep(H, ids, matches, 2, 0);
    BuildStep(H, ids, matches, 1, 0);
    BuildStep(H, ids, matches, 1, 1);
    BuildStep(H, ids, matches, 0, 2);
  }
}
