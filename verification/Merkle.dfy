/** Partial Merkle trees: the recursive encoder and decoder of BIP 37, section
    "Partial Merkle branch format", over an arbitrary pair hash. */
module Merkle {
  import opened Radix
  import opened Sequences

  type Hash = nat

  /** The null hash, which stands for failure. */
  const NULL_HASH: Hash := 0

  const MAX_BLOCK_SIZE := 1_000_000

  type PairHash = (Hash, Hash) -> Hash

  ghost predicate Injective(H: PairHash) {
    forall a, b, c, d :: H(a, b) == H(c, d) ==> a == c && b == d
  }

  lemma InjectiveAt(H: PairHash, a: Hash, b: Hash, c: Hash, d: Hash)
    requires Injective(H) && H(a, b) == H(c, d)
    ensures a == c && b == d
  {
  }

  // ------------------------------------------------------------ tree geometry

  /** The number of nodes at a height above `n` leaves. */
  function CalcTreeWidth(n: nat, height: nat): nat {
    (n + Pow2(height) - 1) / Pow2(height)
  }

  /** The first leaf below a node, and the end of the leaves below it. */
  function First(height: nat, pos: nat): nat { pos * Pow2(height) }

  function End(n: nat, height: nat, pos: nat): nat {
    if (pos + 1) * Pow2(height) < n then (pos + 1) * Pow2(height) else n
  }

  /** A node exists exactly if there is a leaf below it. */
  lemma WidthMeaning(n: nat, height: nat, pos: nat)
    ensures pos < CalcTreeWidth(n, height) <==> First(height, pos) < n
  {
    var w := Pow2(height);
    CeilingDivision(n, w, pos);
  }

  lemma CeilingDivision(n: nat, w: nat, pos: nat)
    requires w >= 1
    ensures pos < (n + w - 1) / w <==> pos * w < n
  {
    var q := (n + w - 1) / w;
    assert w * q <= n + w - 1 < w * q + w;
    if pos < q {
      MulOrder(pos + 1, q, w);
    } else {
      MulOrder(q, pos, w);
    }
  }

  lemma {:induction false} MulOrder(a: int, b: int, w: nat)
    requires a <= b
    ensures a * w <= b * w
    decreases w
  {
    if w > 0 {
      MulOrder(a, b, w - 1);
      assert a * w == a * (w - 1) + a && b * w == b * (w - 1) + b;
    }
  }

  /** The leaves below a node are those below its left child followed by those
      below its right child; the right child exists if there are any. */
  lemma Children(n: nat, height: nat, pos: nat)
    requires height > 0 && pos < CalcTreeWidth(n, height)
    ensures 2 * pos < CalcTreeWidth(n, height - 1)
    ensures First(height - 1, 2 * pos) == First(height, pos) < n
    ensures 2 * pos + 1 < CalcTreeWidth(n, height - 1) ==>
              && End(n, height - 1, 2 * pos) == First(height - 1, 2 * pos + 1) < n
              && End(n, height - 1, 2 * pos + 1) == End(n, height, pos)
    ensures 2 * pos + 1 >= CalcTreeWidth(n, height - 1) ==> End(n, height - 1, 2 * pos) == End(n, height, pos)
  {
    WidthMeaning(n, height, pos);
    WidthMeaning(n, height - 1, 2 * pos);
    WidthMeaning(n, height - 1, 2 * pos + 1);
    var w := Pow2(height - 1);
    Pow2Next(height - 1);
    assert pos * (2 * w) == 2 * pos * w;
    assert (2 * pos + 1) * w == 2 * pos * w + w;
    assert (2 * pos + 2) * w == 2 * pos * w + 2 * w == (pos + 1) * (2 * w);
  }

  lemma NodeHasLeaves(n: nat, height: nat, pos: nat)
    requires pos < CalcTreeWidth(n, height)
    ensures First(height, pos) < End(n, height, pos) <= n
  {
    WidthMeaning(n, height, pos);
    assert (pos + 1) * Pow2(height) == pos * Pow2(height) + Pow2(height);
  }

  lemma LeafRange(n: nat, pos: nat)
    requires pos < CalcTreeWidth(n, 0)
    ensures First(0, pos) == pos < n && End(n, 0, pos) == pos + 1
  {
    WidthMeaning(n, 0, pos);
  }

  /** The height of the tree: the lowest with a single node. */
  function TreeHeight(n: nat, from: nat): (height: nat)
    requires n >= 1
    ensures height >= from && CalcTreeWidth(n, height) == 1
    ensures forall h | from <= h < height :: CalcTreeWidth(n, h) > 1
    decreases if CalcTreeWidth(n, from) > 1 then n - from + 1 else 0
  {
    WidthMeaning(n, from, 0);
    if CalcTreeWidth(n, from) > 1 then
      PowerGrows(from);
      WidthMeaning(n, from, 1);
      TreeHeight(n, from + 1)
    else from
  }

  lemma {:induction false} PowerGrows(h: nat)
    ensures Pow2(h) >= h + 1
  {
    if h > 0 {
      PowerGrows(h - 1);
    }
  }

  // ------------------------------------------------------- hashing and encoding

  /** The hash of a node; at height 0 the transaction ids themselves. */
  function CalcHash(H: PairHash, ids: seq<Hash>, height: nat, pos: nat): Hash
    requires pos < CalcTreeWidth(|ids|, height)
    decreases height
  {
    if height == 0 then ids[pos]
    else
      Children(|ids|, height, pos);
      var left := CalcHash(H, ids, height - 1, 2 * pos);
      if 2 * pos + 1 < CalcTreeWidth(|ids|, height - 1) then H(left, CalcHash(H, ids, height - 1, 2 * pos + 1))
      else H(left, left)
  }

  /** Whether one of the leaves in [from, to) is selected. */
  predicate AnyMatch(matches: seq<bool>, from: nat, end: nat)
    requires end <= |matches|
  {
    exists p | from <= p < end :: matches[p]
  }

  predicate ParentOfMatch(matches: seq<bool>, height: nat, pos: nat) {
    AnyMatch(matches, First(height, pos), End(|matches|, height, pos))
  }

  /** The flag bits and hashes that the encoder writes for the subtree at a node. */
  datatype Encoded = Encoded(bits: seq<bool>, hashes: seq<Hash>)

  function Build(H: PairHash, ids: seq<Hash>, matches: seq<bool>, height: nat, pos: nat): Encoded
    requires |matches| == |ids| && pos < CalcTreeWidth(|ids|, height)
    decreases height
  {
    var parent := ParentOfMatch(matches, height, pos);
    if height == 0 || !parent then Encoded([parent], [CalcHash(H, ids, height, pos)])
    else
      Children(|ids|, height, pos);
      var left := Build(H, ids, matches, height - 1, 2 * pos);
      if 2 * pos + 1 < CalcTreeWidth(|ids|, height - 1) then
        var right := Build(H, ids, matches, height - 1, 2 * pos + 1);
        Encoded([parent] + left.bits + right.bits, left.hashes + right.hashes)
      else Encoded([parent] + left.bits, left.hashes)
  }

  /** The selected ids among the leaves in [from, to), in order. */
  function Selected(ids: seq<Hash>, matches: seq<bool>, from: nat, end: nat): seq<Hash>
    requires |matches| == |ids| && from <= end <= |ids|
  {
    if from == end then []
    else Selected(ids, matches, from, end - 1) + (if matches[end - 1] then [ids[end - 1]] else [])
  }

  lemma {:induction false} SelectedSplit(ids: seq<Hash>, matches: seq<bool>, from: nat, mid: nat, end: nat)
    requires |matches| == |ids| && from <= mid <= end <= |ids|
    ensures Selected(ids, matches, from, end) == Selected(ids, matches, from, mid) + Selected(ids, matches, mid, end)
    decreases end - mid
  {
    if mid < end {
      SelectedSplit(ids, matches, from, mid, end - 1);
    }
  }

  lemma {:induction false} SelectedNone(ids: seq<Hash>, matches: seq<bool>, from: nat, end: nat)
    requires |matches| == |ids| && from <= end <= |ids| && !AnyMatch(matches, from, end)
    ensures Selected(ids, matches, from, end) == []
    decreases end - from
  {
    if from < end {
      assert !AnyMatch(matches, from, end - 1);
      SelectedNone(ids, matches, from, end - 1);
    }
  }

  lemma SelectedOne(ids: seq<Hash>, matches: seq<bool>, p: nat)
    requires |matches| == |ids| && p < |ids| && AnyMatch(matches, p, p + 1)
    ensures Selected(ids, matches, p, p + 1) == [ids[p]]
  {
    assert Selected(ids, matches, p, p) == [];
  }

  lemma {:induction false} SelectedCount(ids: seq<Hash>, matches: seq<bool>, from: nat, end: nat)
    requires |matches| == |ids| && from <= end <= |ids|
    ensures |Selected(ids, matches, from, end)| == CountMatches(matches, from, end)
    decreases end - from
  {
    if from < end {
      SelectedCount(ids, matches, from, end - 1);
    }
  }

  // ----------------------------------------------------------------- decoding

  /** What decoding a subtree leaves behind: its hash, the unread bits and hashes,
      the matched ids, and whether anything was wrong. */
  datatype Decoded = Decoded(hash: Hash, bits: seq<bool>, hashes: seq<Hash>, matched: seq<Hash>, fBad: bool)

  function Extract(H: PairHash, n: nat, bits: seq<bool>, hashes: seq<Hash>, height: nat, pos: nat): Decoded
    decreases height
  {
    if bits == [] then Decoded(NULL_HASH, bits, hashes, [], true)
    else if height == 0 || !bits[0] then
      if hashes == [] then Decoded(NULL_HASH, bits[1..], hashes, [], true)
      else Decoded(hashes[0], bits[1..], hashes[1..], if height == 0 && bits[0] then [hashes[0]] else [], false)
    else
      var left := Extract(H, n, bits[1..], hashes, height - 1, 2 * pos);
      if 2 * pos + 1 < CalcTreeWidth(n, height - 1) then
        var right := Extract(H, n, left.bits, left.hashes, height - 1, 2 * pos + 1);
        Decoded(H(left.hash, right.hash), right.bits, right.hashes, left.matched + right.matched,
                left.fBad || right.fBad || right.hash == left.hash)
      else Decoded(H(left.hash, left.hash), left.bits, left.hashes, left.matched, left.fBad)
  }

  /** Decoding at an inner node whose bit is set. */
  lemma ExtractInner(H: PairHash, n: nat, bits: seq<bool>, hashes: seq<Hash>, height: nat, pos: nat)
    requires height > 0
    ensures var left := Extract(H, n, bits, hashes, height - 1, 2 * pos);
            Extract(H, n, [true] + bits, hashes, height, pos)
            == if 2 * pos + 1 < CalcTreeWidth(n, height - 1) then
                 var right := Extract(H, n, left.bits, left.hashes, height - 1, 2 * pos + 1);
                 Decoded(H(left.hash, right.hash), right.bits, right.hashes, left.matched + right.matched,
                         left.fBad || right.fBad || right.hash == left.hash)
               else Decoded(H(left.hash, left.hash), left.bits, left.hashes, left.matched, left.fBad)
  {
    assert ([true] + bits)[1..] == bits;
  }

  /** Decoding where the encoder stored a hash, or where it ran out. */
  lemma ExtractStored(H: PairHash, n: nat, bits: seq<bool>, hashes: seq<Hash>, height: nat, pos: nat)
    requires bits == [] || height == 0 || !bits[0]
    ensures Extract(H, n, bits, hashes, height, pos)
            == if bits == [] then Decoded(NULL_HASH, bits, hashes, [], true)
               else if hashes == [] then Decoded(NULL_HASH, bits[1..], hashes, [], true)
               else
                 var matched := if height == 0 && bits[0] then [hashes[0]] else [];
                 Decoded(hashes[0], bits[1..], hashes[1..], matched, false)
  {
  }

  /** Bits and hashes behind those that are read stay unread. */
  lemma {:induction false} ExtractMore(H: PairHash, n: nat, bits: seq<bool>, hashes: seq<Hash>, height: nat, pos: nat,
                                       moreBits: seq<bool>, moreHashes: seq<Hash>)
    requires !Extract(H, n, bits, hashes, height, pos).fBad
    ensures var r := Extract(H, n, bits, hashes, height, pos);
            Extract(H, n, bits + moreBits, hashes + moreHashes, height, pos)
            == r.(bits := r.bits + moreBits, hashes := r.hashes + moreHashes)
    decreases height
  {
    hide CalcTreeWidth;
    assert (bits + moreBits)[1..] == bits[1..] + moreBits;
    if height == 0 || !bits[0] {
      assert (hashes + moreHashes)[1..] == hashes[1..] + moreHashes;
    } else {
      var left := Extract(H, n, bits[1..], hashes, height - 1, 2 * pos);
      ExtractMore(H, n, bits[1..], hashes, height - 1, 2 * pos, moreBits, moreHashes);
      if 2 * pos + 1 < CalcTreeWidth(n, height - 1) {
        ExtractMore(H, n, left.bits, left.hashes, height - 1, 2 * pos + 1, moreBits, moreHashes);
      }
    }
  }

  /** What the encoder writes, node by node. */
  lemma BuildStep(H: PairHash, ids: seq<Hash>, matches: seq<bool>, height: nat, pos: nat)
    requires |matches| == |ids| && pos < CalcTreeWidth(|ids|, height)
    ensures var parent := ParentOfMatch(matches, height, pos);
            if height == 0 || !parent then
              Build(H, ids, matches, height, pos) == Encoded([parent], [CalcHash(H, ids, height, pos)])
            else
              && 2 * pos < CalcTreeWidth(|ids|, height - 1)
              && var left := Build(H, ids, matches, height - 1, 2 * pos);
              if 2 * pos + 1 < CalcTreeWidth(|ids|, height - 1) then
                var right := Build(H, ids, matches, height - 1, 2 * pos + 1);
                var e := Encoded([true] + left.bits + right.bits, left.hashes + right.hashes);
                Build(H, ids, matches, height, pos) == e
              else
                Build(H, ids, matches, height, pos) == Encoded([true] + left.bits, left.hashes)
  {
    if height > 0 {
      Children(|ids|, height, pos);
    }
  }

  // ------------------------------------------------------------- completeness

  /** Under an injective hash, nodes over different leaves hash differently: the
      leftmost leaf can be read off the hash. */
  lemma {:induction false} SiblingsDiffer(H: PairHash, ids: seq<Hash>, height: nat, pos: nat, other: nat)
    requires Injective(H) && Distinct(ids)
    requires pos < other < CalcTreeWidth(|ids|, height)
    ensures CalcHash(H, ids, height, pos) != CalcHash(H, ids, height, other)
    decreases height
  {
    if height == 0 {
      WidthMeaning(|ids|, 0, other);
    } else {
      Children(|ids|, height, pos);
      Children(|ids|, height, other);
      SiblingsDiffer(H, ids, height - 1, 2 * pos, 2 * other);
    }
  }

  /** Decoding what was encoded for a subtree, with anything after it, gives back
      the subtree's hash and exactly its selected ids, and reads exactly that much. */
  lemma {:induction false} ExtractBuild(H: PairHash, ids: seq<Hash>, matches: seq<bool>, height: nat, pos: nat,
                                        moreBits: seq<bool>, moreHashes: seq<Hash>)
    requires Injective(H) && Distinct(ids) && |matches| == |ids| && pos < CalcTreeWidth(|ids|, height)
    ensures First(height, pos) <= End(|ids|, height, pos) <= |ids|
    ensures var e := Build(H, ids, matches, height, pos);
            Extract(H, |ids|, e.bits + moreBits, e.hashes + moreHashes, height, pos)
            == Decoded(CalcHash(H, ids, height, pos), moreBits, moreHashes,
                       Selected(ids, matches, First(height, pos), End(|ids|, height, pos)), false)
    decreases height, 1
  {
    hide First, End, CalcTreeWidth, Injective, Distinct, AnyMatch;
    NodeHasLeaves(|ids|, height, pos);
    var e := Build(H, ids, matches, height, pos);
    var from, end := First(height, pos), End(|ids|, height, pos);
    var bits, hashes := e.bits + moreBits, e.hashes + moreHashes;
    if !ParentOfMatch(matches, height, pos) {
      SelectedNone(ids, matches, from, end);
      assert bits[1..] == moreBits && hashes[1..] == moreHashes;
    } else if height == 0 {
      LeafRange(|ids|, pos);
      SelectedOne(ids, matches, pos);
      assert bits[1..] == moreBits && hashes[1..] == moreHashes;
    } else {
      ExtractBuildInner(H, ids, matches, height, pos, moreBits, moreHashes);
    }
  }

  /** ... at an inner node above a selected leaf. */
  lemma {:induction false} ExtractBuildInner(H: PairHash, ids: seq<Hash>, matches: seq<bool>, height: nat, pos: nat,
                                             moreBits: seq<bool>, moreHashes: seq<Hash>)
    requires Injective(H) && Distinct(ids) && |matches| == |ids| && pos < CalcTreeWidth(|ids|, height)
    requires height > 0 && ParentOfMatch(matches, height, pos)
    ensures First(height, pos) <= End(|ids|, height, pos) <= |ids|
    ensures var e := Build(H, ids, matches, height, pos);
            Extract(H, |ids|, e.bits + moreBits, e.hashes + moreHashes, height, pos)
            == Decoded(CalcHash(H, ids, height, pos), moreBits, moreHashes,
                       Selected(ids, matches, First(height, pos), End(|ids|, height, pos)), false)
    decreases height, 0
  {
    hide First, End, CalcTreeWidth, Injective, Distinct, ParentOfMatch, Extract, Selected;
    NodeHasLeaves(|ids|, height, pos);
    Children(|ids|, height, pos);
    var e := Build(H, ids, matches, height, pos);
    var from, end := First(height, pos), End(|ids|, height, pos);
    var left := Build(H, ids, matches, height - 1, 2 * pos);
    if 2 * pos + 1 < CalcTreeWidth(|ids|, height - 1) {
      var right := Build(H, ids, matches, height - 1, 2 * pos + 1);
      var rest := right.bits + moreBits;
      assert e.bits + moreBits == [true] + (left.bits + rest);
      assert e.hashes + moreHashes == left.hashes + (right.hashes + moreHashes);
      ExtractInner(H, |ids|, left.bits + rest, e.hashes + moreHashes, height, pos);
      ExtractBuild(H, ids, matches, height - 1, 2 * pos, rest, right.hashes + moreHashes);
      ExtractBuild(H, ids, matches, height - 1, 2 * pos + 1, moreBits, moreHashes);
      SiblingsDiffer(H, ids, height - 1, 2 * pos, 2 * pos + 1);
      SelectedSplit(ids, matches, from, End(|ids|, height - 1, 2 * pos), end);
    } else {
      assert e.bits + moreBits == [true] + (left.bits + moreBits);
      ExtractInner(H, |ids|, left.bits + moreBits, e.hashes + moreHashes, height, pos);
      ExtractBuild(H, ids, matches, height - 1, 2 * pos, moreBits, moreHashes);
    }
  }

  // ---------------------------------------------------------------- soundness

  /** `at` are positions of leaves in [from, to), in order, whose ids are `matched`. */
  ghost predicate RealIds(ids: seq<Hash>, matched: seq<Hash>, at: seq<nat>, from: nat, end: nat) {
    && |at| == |matched|
    && (forall i | 0 <= i < |at| :: from <= at[i] < end && at[i] < |ids| && matched[i] == ids[at[i]])
    && (forall i, j | 0 <= i < j < |at| :: at[i] < at[j])
  }

  lemma RealConcat(ids: seq<Hash>, a: seq<Hash>, at: seq<nat>, b: seq<Hash>, more: seq<nat>, from: nat, mid: nat,
                   end: nat)
    requires from <= mid <= end && RealIds(ids, a, at, from, mid) && RealIds(ids, b, more, mid, end)
    ensures RealIds(ids, a + b, at + more, from, end)
  {
  }

  lemma LeafSound(H: PairHash, ids: seq<Hash>, bits: seq<bool>, hashes: seq<Hash>, height: nat, pos: nat)
    returns (at: seq<nat>)
    requires pos < CalcTreeWidth(|ids|, height)
    requires bits != [] && hashes != [] && (height == 0 || !bits[0])
    requires Extract(H, |ids|, bits, hashes, height, pos).hash == CalcHash(H, ids, height, pos)
    ensures var matched := Extract(H, |ids|, bits, hashes, height, pos).matched;
            RealIds(ids, matched, at, First(height, pos), End(|ids|, height, pos))
  {
    at := [];
    if height == 0 {
      LeafRange(|ids|, pos);
      at := if bits[0] then [pos] else [];
    }
  }

  /** Whatever the bits and hashes: if decoding a subtree raises no alarm and yields
      the true hash, then every id it reports is a real id below that node, in order. */
  lemma {:induction false} ExtractSound(H: PairHash, ids: seq<Hash>, bits: seq<bool>, hashes: seq<Hash>, height: nat,
                                        pos: nat)
    returns (at: seq<nat>)
    requires Injective(H) && pos < CalcTreeWidth(|ids|, height)
    requires var r := Extract(H, |ids|, bits, hashes, height, pos);
             !r.fBad && r.hash == CalcHash(H, ids, height, pos)
    ensures var matched := Extract(H, |ids|, bits, hashes, height, pos).matched;
            RealIds(ids, matched, at, First(height, pos), End(|ids|, height, pos))
    decreases height
  {
    hide First, End, CalcTreeWidth, Injective, RealIds;
    NodeHasLeaves(|ids|, height, pos);
    if height == 0 || !bits[0] {
      at := LeafSound(H, ids, bits, hashes, height, pos);
    } else {
      Children(|ids|, height, pos);
      var left := Extract(H, |ids|, bits[1..], hashes, height - 1, 2 * pos);
      var l := CalcHash(H, ids, height - 1, 2 * pos);
      if 2 * pos + 1 >= CalcTreeWidth(|ids|, height - 1) {
        InjectiveAt(H, left.hash, left.hash, l, l);
        at := ExtractSound(H, ids, bits[1..], hashes, height - 1, 2 * pos);
      } else {
        var right := Extract(H, |ids|, left.bits, left.hashes, height - 1, 2 * pos + 1);
        InjectiveAt(H, left.hash, right.hash, l, CalcHash(H, ids, height - 1, 2 * pos + 1));
        at := ExtractSound(H, ids, bits[1..], hashes, height - 1, 2 * pos);
        NodeHasLeaves(|ids|, height - 1, 2 * pos);
        NodeHasLeaves(|ids|, height - 1, 2 * pos + 1);
        var more := ExtractSound(H, ids, left.bits, left.hashes, height - 1, 2 * pos + 1);
        RealConcat(ids, left.matched, at, right.matched, more,
                   First(height, pos), First(height - 1, 2 * pos + 1), End(|ids|, height, pos));
        at := at + more;
      }
    }
  }

  // --------------------------------------------------------------- size bounds

  function CountMatches(matches: seq<bool>, from: nat, end: nat): nat
    requires from <= end <= |matches|
  {
    if from == end then 0 else CountMatches(matches, from, end - 1) + (if matches[end - 1] then 1 else 0)
  }

  lemma {:induction false} CountSplit(matches: seq<bool>, from: nat, mid: nat, end: nat)
    requires from <= mid <= end <= |matches|
    ensures CountMatches(matches, from, end) == CountMatches(matches, from, mid) + CountMatches(matches, mid, end)
    decreases end - mid
  {
    if mid < end {
      CountSplit(matches, from, mid, end - 1);
    }
  }

  lemma {:induction false} CountSome(matches: seq<bool>, from: nat, end: nat)
    requires from <= end <= |matches| && AnyMatch(matches, from, end)
    ensures CountMatches(matches, from, end) >= 1
    decreases end - from
  {
    if !matches[end - 1] {
      assert AnyMatch(matches, from, end - 1);
      CountSome(matches, from, end - 1);
    }
  }

  lemma TwoSubtrees(hl: int, hr: int, l: nat, r: nat, height: nat)
    requires height > 0 && l + r >= 1 && hl <= 1 + l * (height - 1) && hr <= 1 + r * (height - 1)
    ensures hl + hr <= 1 + (l + r) * height && hl <= 1 + (l + r) * height
  {
    assert l * height == l * (height - 1) + l && r * height == r * (height - 1) + r;
    assert (l + r) * height == l * height + r * height;
    assert r * (height - 1) >= 0;
  }

  /** A subtree needs at most one hash per leaf, at most one more than matches times
      height, and at least as many bits as hashes. */
  lemma {:induction false} HashBounds(H: PairHash, ids: seq<Hash>, matches: seq<bool>, height: nat, pos: nat)
    requires |matches| == |ids| && pos < CalcTreeWidth(|ids|, height)
    ensures First(height, pos) <= End(|ids|, height, pos) <= |ids|
    ensures var e := Build(H, ids, matches, height, pos);
            var from, end := First(height, pos), End(|ids|, height, pos);
            && |e.hashes| <= end - from
            && |e.hashes| <= 1 + CountMatches(matches, from, end) * height
            && |e.hashes| <= |e.bits|
    decreases height
  {
    hide Build, CountMatches, CalcTreeWidth, First, End, AnyMatch;
    NodeHasLeaves(|ids|, height, pos);
    BuildStep(H, ids, matches, height, pos);
    var from, end := First(height, pos), End(|ids|, height, pos);
    if height == 0 || !ParentOfMatch(matches, height, pos) {
      assert CountMatches(matches, from, end) * height >= 0;
    } else {
      Children(|ids|, height, pos);
      var mid := End(|ids|, height - 1, 2 * pos);
      HashBounds(H, ids, matches, height - 1, 2 * pos);
      CountSome(matches, from, end);
      if 2 * pos + 1 < CalcTreeWidth(|ids|, height - 1) {
        HashBounds(H, ids, matches, height - 1, 2 * pos + 1);
      }
      CountSplit(matches, from, mid, end);
      var l, r := CountMatches(matches, from, mid), CountMatches(matches, mid, end);
      var hl := |Build(H, ids, matches, height - 1, 2 * pos).hashes|;
      if 2 * pos + 1 < CalcTreeWidth(|ids|, height - 1) {
        TwoSubtrees(hl, |Build(H, ids, matches, height - 1, 2 * pos + 1).hashes|, l, r, height);
      } else {
        TwoSubtrees(hl, 0, l, r, height);
      }
    }
  }
}
