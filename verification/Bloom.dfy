/** Bloom filters, and the pair of them that remembers the most recent insertions. */
module Bloom {
  import opened Bytes
  import opened ByteBits
  import Radix

  type Key = seq<Byte>

  /** The hash functions of a filter: a seeded hash, the random tweak, and how many places and
      functions there are. */
  datatype Hasher = Hasher(murmur: (nat, Key) -> nat, nTweak: nat, bits: nat, nHashFuncs: nat) {
    ghost predicate Valid() {
      nHashFuncs > 0 ==> bits > 0
    }

    function Index(i: nat, key: Key): (b: nat)
      requires bits > 0
      ensures b < bits
    {
      murmur((i * 0xFBA4C795 + nTweak) % 0x1_0000_0000, key) % bits
    }

    /** One of the first n hash functions sends the key to place b. */
    ghost predicate Hits(key: Key, n: nat, b: nat)
      requires bits > 0
    {
      n > 0 && (Index(n - 1, key) == b || Hits(key, n - 1, b))
    }

    /** Some item set place b. */
    ghost predicate Marked(items: seq<Key>, b: nat)
      requires bits > 0
    {
      items != [] && (Hits(items[|items| - 1], nHashFuncs, b) || Marked(items[..|items| - 1], b))
    }

    /** Every place of the key was set by some item: what a filter can tell of membership. */
    ghost predicate Covered(items: seq<Key>, key: Key)
      requires Valid()
    {
      forall i | 0 <= i < nHashFuncs :: Marked(items, Index(i, key))
    }

    lemma {:induction false} HitsAt(key: Key, n: nat, i: nat)
      requires bits > 0 && i < n
      ensures Hits(key, n, Index(i, key))
    {
      if i < n - 1 {
        HitsAt(key, n - 1, i);
      }
    }

    lemma {:induction false} MarkedBy(items: seq<Key>, k: nat, i: nat)
      requires bits > 0 && k < |items| && i < nHashFuncs
      ensures Marked(items, Index(i, items[k]))
      decreases |items|
    {
      if k == |items| - 1 {
        HitsAt(items[k], nHashFuncs, i);
      } else {
        MarkedBy(items[..|items| - 1], k, i);
      }
    }

    /** What was inserted is covered. */
    lemma NoFalseNegative(items: seq<Key>, key: Key)
      requires Valid() && key in items
      ensures Covered(items, key)
    {
      var k :| 0 <= k < |items| && items[k] == key;
      forall i | 0 <= i < nHashFuncs
        ensures Marked(items, Index(i, key))
      {
        MarkedBy(items, k, i);
      }
    }
  }

  /** Place b of the bytes. */
  ghost predicate BitSet(data: seq<bv8>, b: nat)
    requires b < 8 * |data|
  {
    Bit(data[b / 8], b % 8)
  }

  class BloomFilter {
    const vData: array<bv8>
    var isFull: bool
    var isEmpty: bool
    var hasher: Hasher
    ghost var items: seq<Key>

    ghost predicate Valid()
      reads this, vData
    {
      && hasher.Valid() && hasher.bits == 8 * vData.Length
      && (isEmpty ==> items == [])
      && (!isFull ==> forall b | 0 <= b < hasher.bits :: BitSet(vData[..], b) <==> hasher.Marked(items, b))
    }

    /** A filter without elements, as the rolling filter makes them. */
    constructor (size: nat, nHashFuncs: nat, murmur: (nat, Key) -> nat, nTweak: nat)
      requires nHashFuncs > 0 ==> size > 0
      ensures Valid() && fresh(vData) && items == [] && isEmpty && !isFull
      ensures hasher == Hasher(murmur, nTweak, 8 * size, nHashFuncs)
    {
      vData := new bv8[size](_ => 0);
      isFull, isEmpty := false, true;
      hasher := Hasher(murmur, nTweak, 8 * size, nHashFuncs);
      items := [];
      new;
      NothingSet();
    }

    lemma NothingSet()
      requires forall i | 0 <= i < vData.Length :: vData[i] == 0
      ensures forall b | 0 <= b < 8 * vData.Length :: !BitSet(vData[..], b)
    {
    }

    /** The place of a key under one of the hash functions. */
    method Hash(nHashNum: nat, vDataToHash: Key) returns (nIndex: nat)
      requires hasher.bits == 8 * vData.Length > 0
      ensures nIndex == hasher.Index(nHashNum, vDataToHash)
    {
      var seed := (nHashNum * 0xFBA4C795 + hasher.nTweak) % 0x1_0000_0000;
      nIndex := hasher.murmur(seed, vDataToHash) % (vData.Length * 8);
    }

    method Insert(vKey: Key)
      requires Valid()
      modifies this`isEmpty, this`items, vData
      ensures Valid() && isEmpty == (isFull && old(isEmpty))
      ensures items == if isFull then old(items) else old(items) + [vKey]
    {
      if isFull {
        return;
      }
      ghost var was := vData[..];
      var i := 0;
      while i < hasher.nHashFuncs
        invariant 0 <= i <= hasher.nHashFuncs && items == old(items)
        invariant forall b | 0 <= b < hasher.bits :: BitSet(vData[..], b) <==> BitSet(was, b) || hasher.Hits(vKey, i, b)
      {
        var nIndex := Hash(i, vKey);
        SetPlace(vData[..], nIndex);
        vData[nIndex / 8] := vData[nIndex / 8] | Mask(nIndex % 8);
        i := i + 1;
      }
      isEmpty := false;
      items := items + [vKey];
      assert items[..|items| - 1] == old(items);
    }

    method Contains(vKey: Key) returns (r: bool)
      requires Valid()
      ensures r <==> isFull || (!isEmpty && hasher.Covered(items, vKey))
    {
      if isFull {
        return true;
      }
      if isEmpty {
        return false;
      }
      var i := 0;
      while i < hasher.nHashFuncs
        invariant 0 <= i <= hasher.nHashFuncs
        invariant forall j | 0 <= j < i :: hasher.Marked(items, hasher.Index(j, vKey))
      {
        var nIndex := Hash(i, vKey);
        assert BitSet(vData[..], nIndex) <==> hasher.Marked(items, nIndex);
        if vData[nIndex / 8] & Mask(nIndex % 8) == 0 {
          return false;
        }
        i := i + 1;
      }
      return true;
    }

    method Clear()
      requires Valid()
      modifies this`isFull, this`isEmpty, this`items, vData
      ensures Valid() && items == [] && isEmpty && !isFull
    {
      forall i | 0 <= i < vData.Length {
        vData[i] := 0;
      }
      isFull, isEmpty, items := false, true, [];
      NothingSet();
    }

    method Reset(nNewTweak: nat)
      requires Valid()
      modifies this, vData
      ensures Valid() && items == [] && isEmpty && !isFull && hasher == old(hasher).(nTweak := nNewTweak)
    {
      Clear();
      hasher := hasher.(nTweak := nNewTweak);
    }
  }

  lemma SetPlace(data: seq<bv8>, b: nat)
    requires b < 8 * |data|
    ensures var after := data[b / 8 := data[b / 8] | Mask(b % 8)];
            forall c | 0 <= c < 8 * |data| :: BitSet(after, c) <==> c == b || BitSet(data, c)
  {
    hide Bit, Mask;
    forall c | 0 <= c < 8 * |data|
      ensures BitSet(data[b / 8 := data[b / 8] | Mask(b % 8)], c) <==> c == b || BitSet(data, c)
    {
      SetBit(data[b / 8], b % 8, c % 8);
    }
  }

  // -------------------------------------------------------------- the rolling filter

  /** How many of the latest insertions the first filter holds, with k insertions in the
      current round of 2 n and `total` in all. */
  function Held1(n: nat, k: nat, total: nat): nat {
    if k == 0 && total > 0 then 2 * n else k
  }

  function Held2(n: nat, k: nat, total: nat): nat {
    if total <= n then total else if k <= n then n + k else k - n
  }

  function Last<T>(s: seq<T>, n: nat): (r: seq<T>)
    requires n <= |s|
    ensures |r| == n
  {
    s[|s| - n..]
  }

  class RollingBloomFilter {
    const b1: BloomFilter
    const b2: BloomFilter
    const nElements: nat
    var nBloomSize: nat
    var nInsertions: nat
    ghost var inserted: seq<Key>

    ghost predicate Separate()
      reads this
    {
      b1 != b2 && b1.vData != b2.vData
    }

    ghost predicate Valid()
      reads this, b1, b2, b1.vData, b2.vData
    {
      && Separate() && b1.Valid() && b2.Valid() && b1.hasher == b2.hasher
      && nElements > 0 && nBloomSize == 2 * nElements
      && nInsertions == |inserted| % nBloomSize
      && Holds(b1, Held1(nElements, nInsertions, |inserted|), inserted)
      && Holds(b2, Held2(nElements, nInsertions, |inserted|), inserted)
    }

    constructor (nElements: nat, size: nat, nHashFuncs: nat, murmur: (nat, Key) -> nat, random: nat)
      requires nElements > 0 && (nHashFuncs > 0 ==> size > 0)
      ensures Valid() && inserted == [] && this.nElements == nElements
      ensures fresh(b1) && fresh(b2) && fresh(b1.vData) && fresh(b2.vData)
    {
      b1 := new BloomFilter(size, nHashFuncs, murmur, 0);
      b2 := new BloomFilter(size, nHashFuncs, murmur, 0);
      this.nElements := nElements;
      nInsertions := 0;
      nBloomSize := nElements * 2;
      inserted := [];
      new;
      Reset(random);
    }

    method Reset(random: nat)
      requires Separate() && b1.Valid() && b2.Valid() && nElements > 0 && nBloomSize == 2 * nElements
      requires b1.hasher == b2.hasher
      modifies this`nInsertions, this`inserted, b1, b2, b1.vData, b2.vData
      ensures Valid() && inserted == [] && b1.hasher == old(b1.hasher).(nTweak := random)
    {
      b1.Reset(random);
      b2.Reset(random);
      nInsertions := 0;
      inserted := [];
    }

    method Insert(vKey: Key)
      requires Valid()
      modifies this`nInsertions, this`inserted, b1, b2, b1.vData, b2.vData
      ensures Valid() && inserted == old(inserted) + [vKey]
    {
      hide Held1, Held2, Last, BloomFilter.Valid;
      Advance(nElements, nInsertions, |inserted|);
      if nInsertions == 0 {
        b1.Clear();
        LastNone(inserted);
      } else if nInsertions == nBloomSize / 2 {
        b2.Clear();
        LastNone(inserted);
      }
      LastMore(inserted, |b1.items|, vKey);
      LastMore(inserted, |b2.items|, vKey);
      b1.Insert(vKey);
      b2.Insert(vKey);
      nInsertions := nInsertions + 1;
      if nInsertions == nBloomSize {
        nInsertions := 0;
      }
      inserted := inserted + [vKey];
    }

    /** How many of the latest insertions the answers are drawn from. */
    ghost function Window(): nat
      reads this
    {
      if nInsertions < nBloomSize / 2 then Held2(nElements, nInsertions, |inserted|)
      else Held1(nElements, nInsertions, |inserted|)
    }

    /** At least the last nElements, and at most twice as many. */
    lemma WindowBounds()
      requires Valid()
      ensures Window() <= |inserted| && Window() <= 2 * nElements
      ensures Window() >= if |inserted| < nElements then |inserted| else nElements
    {
      Small(|inserted|, nBloomSize);
    }

    /** Answers from the filter that was not the last to be cleared. */
    method Contains(vKey: Key) returns (r: bool)
      requires Valid()
      ensures Window() <= |inserted|
      ensures r <==> Window() > 0 && b1.hasher.Covered(Last(inserted, Window()), vKey)
      ensures vKey in Last(inserted, if |inserted| < nElements then |inserted| else nElements) ==> r
    {
      WindowBounds();
      ghost var m := if |inserted| < nElements then |inserted| else nElements;
      WindowCovers(b1.hasher, inserted, Window(), m, vKey);
      hide Held1, Held2, Last, Hasher.Covered;
      if nInsertions < nBloomSize / 2 {
        r := b2.Contains(vKey);
      } else {
        r := b1.Contains(vKey);
      }
    }
  }

  /** What is among the last m is among the last w, and found there. */
  lemma WindowCovers(h: Hasher, inserted: seq<Key>, w: nat, m: nat, key: Key)
    requires h.Valid() && m <= w <= |inserted|
    ensures key in Last(inserted, m) ==> w > 0 && h.Covered(Last(inserted, w), key)
  {
    hide Hasher.Covered;
    if key in Last(inserted, m) {
      assert Last(inserted, w)[w - m..] == Last(inserted, m);
      h.NoFalseNegative(Last(inserted, w), key);
    }
  }

  /** A filter holds exactly the latest m insertions. */
  ghost predicate Holds(b: BloomFilter, m: nat, inserted: seq<Key>)
    reads b
  {
    !b.isFull && (b.isEmpty <==> b.items == []) && m <= |inserted| && b.items == Last(inserted, m)
  }

  lemma LastNone<T>(s: seq<T>)
    ensures Last(s, 0) == []
  {
  }

  lemma LastMore<T>(s: seq<T>, m: nat, x: T)
    requires m <= |s|
    ensures Last(s + [x], m + 1) == Last(s, m) + [x]
  {
  }

  lemma Small(total: nat, size: nat)
    requires size > 0
    ensures total < size ==> total % size == total
    ensures total % size <= total && total % size < size
    ensures (total + 1) % size == if total % size + 1 == size then 0 else total % size + 1
  {
    var q, k := total / size, total % size;
    assert total == q * size + k;
    if k + 1 == size {
      assert total + 1 == (q + 1) * size;
      Radix.DivideBack(size, q + 1, 0);
    } else {
      Radix.DivideBack(size, q, k + 1);
    }
    Radix.MulMono(0, q, 0, size);
    if total < size {
      Radix.DivideBack(size, 0, total);
    }
  }

  /** One more insertion: a cleared filter starts again at one, the other gains one. */
  lemma Advance(n: nat, k: nat, total: nat)
    requires n > 0 && k == total % (2 * n)
    ensures var k' := if k + 1 == 2 * n then 0 else k + 1;
            && (total + 1) % (2 * n) == k'
            && Held1(n, k', total + 1) == (if k == 0 then 1 else Held1(n, k, total) + 1)
            && Held2(n, k', total + 1) == (if k == n then 1 else Held2(n, k, total) + 1)
  {
    Small(total, 2 * n);
  }
}
