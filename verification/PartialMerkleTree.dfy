/** The partial Merkle tree object, its checks and its bit packing. */
module PartialMerkleTree {
  import opened ByteBits
  import opened Merkle
  import opened Sequences

  // ------------------------------------------------------------- bit packing

  /** The bits with the zeros that fill the last byte. */
  function Padded(bits: seq<bool>): seq<bool> {
    bits + seq((|bits| + 7) / 8 * 8 - |bits|, _ => false)
  }

  method PackBits(vBits: seq<bool>) returns (vBytes: seq<bv8>)
    ensures |vBytes| == (|vBits| + 7) / 8
    ensures forall p | 0 <= p < 8 * |vBytes| :: Bit(vBytes[p / 8], p % 8) == (p < |vBits| && vBits[p])
  {
    vBytes := seq((|vBits| + 7) / 8, _ => 0);
    for p := 0 to |vBits|
      invariant |vBytes| == (|vBits| + 7) / 8
      invariant forall q | 0 <= q < 8 * |vBytes| :: Bit(vBytes[q / 8], q % 8) == (q < p && vBits[q])
    {
      if vBits[p] {
        forall k | 0 <= k < 8 { SetBit(vBytes[p / 8], p % 8, k); }
        vBytes := vBytes[p / 8 := vBytes[p / 8] | Mask(p % 8)];
      }
    }
  }

  method UnpackBits(vBytes: seq<bv8>) returns (vBits: seq<bool>)
    ensures |vBits| == 8 * |vBytes|
    ensures forall p | 0 <= p < |vBits| :: vBits[p] == Bit(vBytes[p / 8], p % 8)
  {
    vBits := [];
    for p := 0 to 8 * |vBytes|
      invariant |vBits| == p
      invariant forall q | 0 <= q < p :: vBits[q] == Bit(vBytes[q / 8], q % 8)
    {
      vBits := vBits + [vBytes[p / 8] & Mask(p % 8) != 0];
    }
  }

  /** Unpacking what was packed gives the bits back, with padding. */
  method PackRoundTrip(vBits: seq<bool>) returns (back: seq<bool>)
    ensures back == Padded(vBits)
  {
    var vBytes := PackBits(vBits);
    back := UnpackBits(vBytes);
  }

  // --------------------------------------------------------- whole-tree results

  /** The true Merkle root of a block. */
  function Root(H: PairHash, ids: seq<Hash>): Hash
    requires ids != []
  {
    CalcHash(H, ids, TreeHeight(|ids|, 0), 0)
  }

  /** What the encoder stores for a block and a selection. */
  function Proof(H: PairHash, ids: seq<Hash>, matches: seq<bool>): Encoded
    requires ids != [] && |matches| == |ids|
  {
    Build(H, ids, matches, TreeHeight(|ids|, 0), 0)
  }

  /** What ExtractMatches answers: the root, or the null hash on any failure, and
      the ids it collected. */
  function Answer(H: PairHash, n: nat, bits: seq<bool>, hashes: seq<Hash>): (Hash, seq<Hash>) {
    if n == 0 || n > MAX_BLOCK_SIZE / 60 || |hashes| > n || |bits| < |hashes| then (NULL_HASH, [])
    else
      var r := Extract(H, n, bits, hashes, TreeHeight(n, 0), 0);
      if r.fBad || (|bits| - |r.bits| + 7) / 8 != (|bits| + 7) / 8 || |r.hashes| != 0 then (NULL_HASH, r.matched)
      else (r.hash, r.matched)
  }

  /** A proof that is accepted has nothing to spare: with another hash, or another byte of bits,
      it is refused. */
  lemma NothingToSpare(H: PairHash, n: nat, bits: seq<bool>, hashes: seq<Hash>, moreBits: seq<bool>,
                       moreHashes: seq<Hash>)
    requires Answer(H, n, bits, hashes).0 != NULL_HASH && (moreHashes != [] || |moreBits| >= 8)
    ensures Answer(H, n, bits + moreBits, hashes + moreHashes).0 == NULL_HASH
  {
    hide Extract;
    ExtractMore(H, n, bits, hashes, TreeHeight(n, 0), 0, moreBits, moreHashes);
  }

  lemma WholeTree(n: nat)
    requires n >= 1
    ensures First(TreeHeight(n, 0), 0) == 0 && End(n, TreeHeight(n, 0), 0) == n
  {
    WidthMeaning(n, TreeHeight(n, 0), 1);
  }

  /** Completeness: for every block of distinct ids within the limit and every
      selection, the stored proof, packed into bytes and unpacked again, yields the
      Merkle root and exactly the selected ids in order. */
  lemma Complete(H: PairHash, ids: seq<Hash>, matches: seq<bool>)
    requires Injective(H) && Distinct(ids) && |matches| == |ids|
    requires 1 <= |ids| <= MAX_BLOCK_SIZE / 60
    ensures var p := Proof(H, ids, matches);
            Answer(H, |ids|, Padded(p.bits), p.hashes) == (Root(H, ids), Selected(ids, matches, 0, |ids|))
  {
    hide Extract, Build, First, End, CalcTreeWidth, Selected, CalcHash, Injective, Distinct, CountMatches;
    var p, height := Proof(H, ids, matches), TreeHeight(|ids|, 0);
    var padding := seq((|p.bits| + 7) / 8 * 8 - |p.bits|, _ => false);
    WholeTree(|ids|);
    HashBounds(H, ids, matches, height, 0);
    ExtractBuild(H, ids, matches, height, 0, padding, []);
    assert p.hashes + [] == p.hashes;
  }

  /** The stored proof stays within the documented number of hashes. */
  lemma ProofSize(H: PairHash, ids: seq<Hash>, matches: seq<bool>)
    requires ids != [] && |matches| == |ids|
    ensures |Proof(H, ids, matches).hashes| <= |ids|
    ensures |Proof(H, ids, matches).hashes| <= 1 + CountMatches(matches, 0, |ids|) * TreeHeight(|ids|, 0)
  {
    WholeTree(|ids|);
    HashBounds(H, ids, matches, TreeHeight(|ids|, 0), 0);
  }

  /** Soundness: whatever bits and hashes a proof holds, if it is accepted with the
      true root for the same number of transactions, then every id it yields is a
      transaction id of the block, and they come in block order. */
  lemma Sound(H: PairHash, ids: seq<Hash>, bits: seq<bool>, hashes: seq<Hash>) returns (at: seq<nat>)
    requires Injective(H) && ids != [] && Root(H, ids) != NULL_HASH
    requires Answer(H, |ids|, bits, hashes).0 == Root(H, ids)
    ensures RealIds(ids, Answer(H, |ids|, bits, hashes).1, at, 0, |ids|)
  {
    WholeTree(|ids|);
    at := ExtractSound(H, ids, bits, hashes, TreeHeight(|ids|, 0), 0);
  }

  // ---------------------------------------------------------------- the object

  class PartialTree {
    const H: PairHash
    var nTransactions: nat
    var vBits: seq<bool>
    var vHash: seq<Hash>
    var fBad: bool

    /** Encodes a selection of a block's transactions. */
    constructor (H: PairHash, vTxid: seq<Hash>, vMatch: seq<bool>)
      requires vTxid != [] && |vMatch| == |vTxid|
      ensures this.H == H && nTransactions == |vTxid| && !fBad
      ensures Encoded(vBits, vHash) == Proof(H, vTxid, vMatch)
    {
      this.H, nTransactions, vBits, vHash, fBad := H, |vTxid|, [], [], false;
      new;
      var nHeight := CalcHeight();
      TraverseAndBuild(nHeight, 0, vTxid, vMatch);
    }

    /** A tree as it is read from a message. */
    constructor Deserialize(H: PairHash, nTransactions: nat, vHash: seq<Hash>, vBytes: seq<bv8>)
      ensures this.H == H && this.nTransactions == nTransactions && this.vHash == vHash && !fBad
      ensures |vBits| == 8 * |vBytes|
      ensures forall p | 0 <= p < |vBits| :: vBits[p] == Bit(vBytes[p / 8], p % 8)
    {
      var bits := UnpackBits(vBytes);
      this.H, this.nTransactions, this.vHash, vBits, fBad := H, nTransactions, vHash, bits, false;
    }

    method CalcHeight() returns (nHeight: nat)
      requires nTransactions >= 1
      ensures nHeight == TreeHeight(nTransactions, 0)
    {
      nHeight := 0;
      while CalcTreeWidth(nTransactions, nHeight) > 1
        invariant TreeHeight(nTransactions, 0) == TreeHeight(nTransactions, nHeight)
        decreases TreeHeight(nTransactions, 0) - nHeight
      {
        nHeight := nHeight + 1;
      }
    }

    method TraverseAndBuild(height: nat, pos: nat, vTxid: seq<Hash>, vMatch: seq<bool>)
      requires |vMatch| == |vTxid| == nTransactions && pos < CalcTreeWidth(|vTxid|, height)
      modifies this`vBits, this`vHash
      ensures var e := Build(H, vTxid, vMatch, height, pos);
              vBits == old(vBits) + e.bits && vHash == old(vHash) + e.hashes
      decreases height
    {
      hide First, End, AnyMatch, CalcTreeWidth, Build, CalcHash;
      var fParentOfMatch := IsParentOfMatch(height, pos, vMatch);
      BuildStep(H, vTxid, vMatch, height, pos);
      vBits := vBits + [fParentOfMatch];
      if height == 0 || !fParentOfMatch {
        vHash := vHash + [CalcHash(H, vTxid, height, pos)];
      } else {
        TraverseAndBuild(height - 1, 2 * pos, vTxid, vMatch);
        if 2 * pos + 1 < CalcTreeWidth(nTransactions, height - 1) {
          TraverseAndBuild(height - 1, 2 * pos + 1, vTxid, vMatch);
        }
      }
    }

    /** TraverseAndBuild's loop over the leaves below a node. */
    method IsParentOfMatch(height: nat, pos: nat, vMatch: seq<bool>) returns (fParentOfMatch: bool)
      requires |vMatch| == nTransactions && pos < CalcTreeWidth(nTransactions, height)
      ensures fParentOfMatch == ParentOfMatch(vMatch, height, pos)
    {
      fParentOfMatch := false;
      var p := First(height, pos);
      NodeHasLeaves(nTransactions, height, pos);
      ghost var from, end := First(height, pos), End(nTransactions, height, pos);
      while p < First(height, pos + 1) && p < nTransactions
        invariant from <= p <= end
        invariant fParentOfMatch == AnyMatch(vMatch, from, p)
      {
        fParentOfMatch := fParentOfMatch || vMatch[p];
        p := p + 1;
      }
    }

    method TraverseAndExtract(height: nat, pos: nat, nBitsUsed: nat, nHashUsed: nat, vMatch: seq<Hash>)
      returns (hash: Hash, nBitsAfter: nat, nHashAfter: nat, vMatchAfter: seq<Hash>)
      requires nBitsUsed <= |vBits| && nHashUsed <= |vHash|
      modifies this`fBad
      ensures nBitsAfter <= |vBits| && nHashAfter <= |vHash|
      ensures var r := Extract(H, nTransactions, vBits[nBitsUsed..], vHash[nHashUsed..], height, pos);
              && hash == r.hash && vBits[nBitsAfter..] == r.bits && vHash[nHashAfter..] == r.hashes
              && vMatchAfter == vMatch + r.matched && fBad == (old(fBad) || r.fBad)
      decreases height
    {
      hide Extract, CalcTreeWidth;
      hash, nBitsAfter, nHashAfter, vMatchAfter := NULL_HASH, nBitsUsed, nHashUsed, vMatch;
      ghost var bits, hashes := vBits[nBitsUsed..], vHash[nHashUsed..];
      if nBitsUsed >= |vBits| {
        ExtractStored(H, nTransactions, bits, hashes, height, pos);
        fBad := true;
        return;
      }
      var fParentOfMatch := vBits[nBitsUsed];
      nBitsAfter := nBitsUsed + 1;
      assert bits[1..] == vBits[nBitsAfter..];
      if height == 0 || !fParentOfMatch {
        ExtractStored(H, nTransactions, bits, hashes, height, pos);
        if nHashUsed >= |vHash| {
          fBad := true;
          return;
        }
        hash := vHash[nHashUsed];
        nHashAfter := nHashUsed + 1;
        if height == 0 && fParentOfMatch {
          vMatchAfter := vMatch + [hash];
        }
      } else {
        assert bits == [true] + vBits[nBitsAfter..];
        ExtractInner(H, nTransactions, vBits[nBitsAfter..], hashes, height, pos);
        var left, right;
        left, nBitsAfter, nHashAfter, vMatchAfter :=
          TraverseAndExtract(height - 1, 2 * pos, nBitsAfter, nHashAfter, vMatch);
        if 2 * pos + 1 < CalcTreeWidth(nTransactions, height - 1) {
          right, nBitsAfter, nHashAfter, vMatchAfter :=
            TraverseAndExtract(height - 1, 2 * pos + 1, nBitsAfter, nHashAfter, vMatchAfter);
          if right == left {
            fBad := true;
          }
        } else {
          right := left;
        }
        hash := H(left, right);
      }
    }

    /** Returns the Merkle root and the matched ids, or the null hash on failure. */
    method ExtractMatches() returns (root: Hash, vMatch: seq<Hash>)
      modifies this`fBad
      ensures !old(fBad) ==> (root, vMatch) == Answer(H, nTransactions, vBits, vHash)
      ensures old(fBad) ==> root == NULL_HASH
    {
      hide Extract;
      vMatch := [];
      if nTransactions == 0 {
        return NULL_HASH, vMatch;
      }
      if nTransactions > MAX_BLOCK_SIZE / 60 {
        return NULL_HASH, vMatch;
      }
      if |vHash| > nTransactions {
        return NULL_HASH, vMatch;
      }
      if |vBits| < |vHash| {
        return NULL_HASH, vMatch;
      }
      var nHeight := CalcHeight();
      var hashMerkleRoot, nBitsUsed, nHashUsed;
      hashMerkleRoot, nBitsUsed, nHashUsed, vMatch := TraverseAndExtract(nHeight, 0, 0, 0, vMatch);
      assert vBits[0..] == vBits && vHash[0..] == vHash;
      ghost var r := Extract(H, nTransactions, vBits, vHash, nHeight, 0);
      assert vMatch == r.matched && |r.bits| == |vBits| - nBitsUsed && |r.hashes| == |vHash| - nHashUsed;
      if fBad {
        return NULL_HASH, vMatch;
      }
      if (nBitsUsed + 7) / 8 != (|vBits| + 7) / 8 {
        return NULL_HASH, vMatch;
      }
      if nHashUsed != |vHash| {
        return NULL_HASH, vMatch;
      }
      return hashMerkleRoot, vMatch;
    }
  }

  /** The whole journey of a proof, from a block through a message to an answer. */
  method ProveAndVerify(H: PairHash, ids: seq<Hash>, matches: seq<bool>) returns (root: Hash, matched: seq<Hash>)
    requires Injective(H) && Distinct(ids) && |matches| == |ids| && 1 <= |ids| <= MAX_BLOCK_SIZE / 60
    ensures root == Root(H, ids) && matched == Selected(ids, matches, 0, |ids|)
  {
    var tree := new PartialTree(H, ids, matches);
    var vBytes := PackBits(tree.vBits);
    var received := new PartialTree.Deserialize(H, tree.nTransactions, tree.vHash, vBytes);
    assert received.vBits == Padded(tree.vBits);
    root, matched := received.ExtractMatches();
    Complete(H, ids, matches);
  }
}
