/** Linking blocks whose data arrives in any order into chains with complete data. */
module BlockLinking {
  import opened MapSums
  import opened Sequences

  class BlockIndex {
    const pprev: BlockIndex?
    const nHeight: nat
    var nTx: nat
    var nChainTx: nat
    var haveData: bool
    var nSequenceId: nat

    /** A header, of whose block nothing has been received. */
    constructor (pprev: BlockIndex?)
      ensures this.pprev == pprev && nHeight == (if pprev == null then 0 else pprev.nHeight + 1)
      ensures nTx == 0 && nChainTx == 0 && !haveData && nSequenceId == 0
    {
      this.pprev := pprev;
      nHeight := if pprev == null then 0 else pprev.nHeight + 1;
      nTx, nChainTx, haveData, nSequenceId := 0, 0, false, 0;
    }
  }

  /** The fields of a block that change. */
  datatype Fields = Fields(nTx: nat, nChainTx: nat, haveData: bool, nSequenceId: nat)

  type View = map<BlockIndex, Fields>

  type Waiting = map<BlockIndex, seq<BlockIndex>>

  ghost predicate Tree(v: View) {
    forall b | b in v && b.pprev != null :: b.pprev in v && b.nHeight == b.pprev.nHeight + 1
  }

  // --------------------------------------------------------------- what is promised

  /** The block and all its ancestors have been received. */
  ghost predicate Complete(v: View, b: BlockIndex)
    requires Tree(v) && b in v
    decreases b.nHeight
  {
    v[b].haveData && (b.pprev == null || Complete(v, b.pprev))
  }

  /** The number of transactions from the first block up to this one. */
  ghost function ChainTx(v: View, b: BlockIndex): nat
    requires Tree(v) && b in v
    decreases b.nHeight
  {
    v[b].nTx + (if b.pprev == null then 0 else ChainTx(v, b.pprev))
  }

  /** The block is filed under its parent. */
  ghost predicate Filed(u: Waiting, b: BlockIndex) {
    b.pprev != null && b.pprev in u && b in u[b.pprev]
  }

  ghost predicate Promised(v: View, u: Waiting, b: BlockIndex)
    requires Tree(v) && b in v
  {
    && (v[b].nChainTx != 0 <==> Complete(v, b))
    && (Complete(v, b) ==> v[b].nChainTx == ChainTx(v, b))
    && (Filed(u, b) <==> v[b].haveData && !Complete(v, b))
  }

  // -------------------------------------------------------------- how it is kept up

  ghost predicate Ready(v: View, b: BlockIndex)
    requires Tree(v) && b in v
  {
    b.pprev == null || v[b.pprev].nChainTx != 0
  }

  ghost predicate LinkedRight(v: View, next: nat, b: BlockIndex)
    requires Tree(v) && b in v
  {
    v[b].nChainTx != 0 ==>
      && v[b].haveData && Ready(v, b)
      && v[b].nChainTx == v[b].nTx + (if b.pprev == null then 0 else v[b.pprev].nChainTx)
      && v[b].nSequenceId < next
      && (b.pprev != null ==> v[b.pprev].nSequenceId < v[b].nSequenceId)
  }

  /** Received blocks that are not linked are queued or filed, as their parent is linked or not. */
  ghost predicate Placed(v: View, u: Waiting, b: BlockIndex, queue: seq<BlockIndex>)
    requires Tree(v) && b in v
  {
    && (b in queue <==> v[b].haveData && v[b].nChainTx == 0 && Ready(v, b))
    && (Filed(u, b) <==> v[b].haveData && v[b].nChainTx == 0 && !Ready(v, b))
    && (v[b].haveData ==> v[b].nTx > 0)
  }

  ghost predicate Files(v: View, u: Waiting, p: BlockIndex)
    requires p in u
  {
    && p in v && Distinct(u[p])
    && forall w | w in u[p] :: w in v && w.pprev == p
  }

  ghost predicate Consistent(v: View, u: Waiting, next: nat, queue: seq<BlockIndex>) {
    && Tree(v)
    && (forall b | b in v :: LinkedRight(v, next, b))
    && (forall b | b in v :: Placed(v, u, b, queue))
    && (forall p | p in u :: Files(v, u, p))
    && (forall b | b in queue :: b in v) && Distinct(queue)
  }

  /** What the bookkeeping keeps up from parent to child is what is promised of whole chains. */
  lemma {:induction false} KeepsPromise(v: View, u: Waiting, next: nat, b: BlockIndex)
    requires Consistent(v, u, next, []) && b in v
    ensures Promised(v, u, b)
    decreases b.nHeight
  {
    assert LinkedRight(v, next, b) && Placed(v, u, b, []);
    if b.pprev != null {
      KeepsPromise(v, u, next, b.pprev);
    }
  }

  /** Complete chains are numbered from the first block on. */
  lemma {:induction false} AncestorsFirst(v: View, u: Waiting, next: nat, a: BlockIndex, b: BlockIndex)
    requires Consistent(v, u, next, []) && a in v && b in v && Above(a, b) && Complete(v, b)
    ensures v[a].nSequenceId < v[b].nSequenceId
    decreases b.nHeight
  {
    KeepsPromise(v, u, next, b);
    assert LinkedRight(v, next, b);
    if a != b.pprev {
      AncestorsFirst(v, u, next, a, b.pprev);
    }
  }

  ghost predicate Above(a: BlockIndex, b: BlockIndex)
    decreases b.nHeight
  {
    b.pprev != null && b.pprev.nHeight < b.nHeight && (a == b.pprev || Above(a, b.pprev))
  }

  // -------------------------------------------------------------------------- steps

  /** The front of the queue linked. */
  ghost function Linked(v: View, next: nat, p: BlockIndex): View
    requires Tree(v) && p in v
  {
    v[p := v[p].(nChainTx := (if p.pprev == null then 0 else v[p.pprev].nChainTx) + v[p].nTx, nSequenceId := next)]
  }

  ghost function Released(u: Waiting, p: BlockIndex): seq<BlockIndex> {
    if p in u then u[p] else []
  }

  lemma LinkKeepsLinks(v: View, u: Waiting, next: nat, queue: seq<BlockIndex>, b: BlockIndex)
    requires Consistent(v, u, next, queue) && queue != [] && b in v
    ensures Tree(Linked(v, next, queue[0])) && LinkedRight(Linked(v, next, queue[0]), next + 1, b)
  {
    var p := queue[0];
    assert Placed(v, u, p, queue) && LinkedRight(v, next, b);
    if p.pprev != null {
      assert LinkedRight(v, next, p.pprev);
    }
  }

  lemma LinkKeepsPlaces(v: View, u: Waiting, next: nat, queue: seq<BlockIndex>, b: BlockIndex)
    requires Consistent(v, u, next, queue) && queue != [] && b in v
    ensures Tree(Linked(v, next, queue[0]))
    ensures Placed(Linked(v, next, queue[0]), u - {queue[0]}, b, queue[1..] + Released(u, queue[0]))
  {
    var p := queue[0];
    assert Placed(v, u, p, queue) && Placed(v, u, b, queue);
    assert queue == [p] + queue[1..];
    if p in u {
      assert Files(v, u, p);
    }
    if b == p {
      assert p !in queue[1..];
    }
  }

  lemma LinkKeepsQueue(v: View, u: Waiting, next: nat, queue: seq<BlockIndex>)
    requires Consistent(v, u, next, queue) && queue != []
    ensures Distinct(queue[1..] + Released(u, queue[0]))
    ensures forall b | b in queue[1..] + Released(u, queue[0]) :: b in v
  {
    var p := queue[0];
    if p in u {
      assert Files(v, u, p);
      forall w | w in u[p]
        ensures w !in queue[1..]
      {
        assert Placed(v, u, p, queue) && Placed(v, u, w, queue);
        assert w in queue[1..] ==> w in queue;
      }
      DistinctConcat(queue[1..], u[p]);
    }
  }

  lemma LinkKeeps(v: View, u: Waiting, next: nat, queue: seq<BlockIndex>)
    requires Consistent(v, u, next, queue) && queue != []
    ensures Consistent(Linked(v, next, queue[0]), u - {queue[0]}, next + 1, queue[1..] + Released(u, queue[0]))
  {
    hide LinkedRight, Placed, Distinct;
    var v', u', rest := Linked(v, next, queue[0]), u - {queue[0]}, queue[1..] + Released(u, queue[0]);
    forall b | b in v
      ensures Tree(v') && LinkedRight(v', next + 1, b) && Placed(v', u', b, rest)
    {
      LinkKeepsLinks(v, u, next, queue, b);
      LinkKeepsPlaces(v, u, next, queue, b);
    }
    LinkKeepsQueue(v, u, next, queue);
    forall p | p in u'
      ensures Files(v', u', p)
    {
      assert Files(v, u, p);
    }
  }

  /** A block with its data in. */
  ghost function Received(v: View, b: BlockIndex, n: nat): View
    requires b in v
  {
    v[b := v[b].(nTx := n, nChainTx := 0, haveData := true)]
  }

  ghost predicate HasLinkedChild(v: View, p: BlockIndex) {
    exists c | c in v :: c.pprev == p && v[c].nChainTx != 0
  }

  /** When the data of a block may be recorded: it is not empty; and if the parent is linked the
      block is new or nothing has been linked on it, otherwise it is new if the parent is valid,
      so that it is filed, and not new if it is not. */
  ghost predicate Recordable(v: View, p: BlockIndex, n: nat, parentValid: bool)
    requires Tree(v) && p in v
  {
    n > 0 && if Ready(v, p) then !v[p].haveData || !HasLinkedChild(v, p) else v[p].haveData != parentValid
  }

  lemma ReceiveReady(v: View, u: Waiting, next: nat, p: BlockIndex, n: nat)
    requires Consistent(v, u, next, []) && p in v && n > 0 && Ready(v, p)
    requires !v[p].haveData || !HasLinkedChild(v, p)
    ensures Consistent(Received(v, p, n), u, next, [p])
  {
    var v' := Received(v, p, n);
    assert LinkedRight(v, next, p) && Placed(v, u, p, []);
    forall b | b in v
      ensures LinkedRight(v', next, b) && Placed(v', u, b, [p])
    {
      assert LinkedRight(v, next, b) && Placed(v, u, b, []);
    }
    forall q | q in u
      ensures Files(v', u, q)
    {
      assert Files(v, u, q);
    }
  }

  /** A filed block whose parent has turned out invalid is not filed again. */
  lemma ReceiveAgainEarly(v: View, u: Waiting, next: nat, p: BlockIndex, n: nat)
    requires Consistent(v, u, next, []) && p in v && v[p].haveData && n > 0 && !Ready(v, p)
    ensures Consistent(Received(v, p, n), u, next, [])
  {
    var v' := Received(v, p, n);
    assert LinkedRight(v, next, p) && Placed(v, u, p, []);
    forall b | b in v
      ensures LinkedRight(v', next, b) && Placed(v', u, b, [])
    {
      assert LinkedRight(v, next, b) && Placed(v, u, b, []);
    }
    forall q | q in u
      ensures Files(v', u, q)
    {
      assert Files(v, u, q);
    }
  }

  /** A block is not filed that should be, or is filed twice. */
  lemma MisfiledEarly(v: View, u: Waiting, next: nat, p: BlockIndex, n: nat, parentValid: bool, after: nat)
    requires Consistent(v, u, next, []) && p in v && !Ready(v, p) && v[p].haveData == parentValid
    ensures var u' := if parentValid then u[p.pprev := Released(u, p.pprev) + [p]] else u;
            !Consistent(Received(v, p, n), u', after, [])
  {
    var v', u' := Received(v, p, n), if parentValid then u[p.pprev := Released(u, p.pprev) + [p]] else u;
    assert LinkedRight(v, next, p) && Placed(v, u, p, []);
    if parentValid {
      AppendedTwice(u[p.pprev], p);
      assert !Files(v', u', p.pprev);
    } else {
      assert !Placed(v', u', p, []);
    }
  }

  lemma AppendedTwice(list: seq<BlockIndex>, p: BlockIndex)
    requires p in list
    ensures !Distinct(list + [p])
  {
    var i :| 0 <= i < |list| && list[i] == p;
    assert (list + [p])[i] == (list + [p])[|list|];
  }

  // --------------------------------------------------------- whatever was received

  /** What holds while the queue is worked off, whether or not the block should have been
      recorded: nobody else's data changes, and what was linked stays as it was. */
  ghost predicate Roughly(v0: View, v: View, u: Waiting, queue: seq<BlockIndex>, p: BlockIndex, n: nat) {
    && p in v0 && Tree(v) && After(v0, v, p, n)
    && (forall b | b in queue :: b in v0 && (b == p || v0[b].nChainTx == 0))
    && (forall q | q in u :: Unlinked(v0, u[q], p))
  }

  ghost predicate Unlinked(v0: View, list: seq<BlockIndex>, p: BlockIndex) {
    forall w | w in list :: w in v0 && w != p && v0[w].nChainTx == 0
  }

  function Length(list: seq<BlockIndex>): int { |list| }

  /** How many blocks are still to be linked or left where they are. */
  ghost function Pending(u: Waiting, queue: seq<BlockIndex>): int {
    |queue| + Sum(u, Length)
  }

  lemma PendingFalls(u: Waiting, queue: seq<BlockIndex>)
    requires queue != []
    ensures 0 <= Pending(u - {queue[0]}, queue[1..] + Released(u, queue[0])) < Pending(u, queue)
  {
    hide Sum;
    SumNonNegative(u - {queue[0]}, Length);
    if queue[0] in u {
      SumSplit(u, Length, queue[0]);
    } else {
      assert u - {queue[0]} == u;
    }
  }

  lemma RoughStart(v: View, u: Waiting, next: nat, p: BlockIndex, n: nat)
    requires Consistent(v, u, next, []) && p in v && Ready(v, p)
    ensures Roughly(v, Received(v, p, n), u, [p], p, n)
  {
    forall q | q in u ensures Unlinked(v, u[q], p) {
      assert Files(v, u, q);
      forall w | w in u[q] ensures w != p && v[w].nChainTx == 0 {
        assert Filed(u, w) && Placed(v, u, w, []);
      }
    }
  }

  lemma RoughStep(v0: View, v: View, u: Waiting, next: nat, queue: seq<BlockIndex>, p: BlockIndex, n: nat)
    requires Roughly(v0, v, u, queue, p, n) && queue != [] && queue[0] in v
    ensures Roughly(v0, Linked(v, next, queue[0]), u - {queue[0]}, queue[1..] + Released(u, queue[0]), p, n)
    ensures p in queue[1..] + Released(u, queue[0]) ==> p in queue[1..]
  {
    if queue[0] in u {
      assert Unlinked(v0, u[queue[0]], p);
    }
    assert forall b | b in queue[1..] :: b in queue;
  }

  /** A block that should not have been recorded leaves the bookkeeping wrong. */
  lemma Unkept(v0: View, u0: Waiting, next0: nat, v: View, u: Waiting, next: nat, p: BlockIndex, n: nat)
    requires Consistent(v0, u0, next0, []) && Roughly(v0, v, u, [], p, n)
    requires n == 0 || (HasLinkedChild(v0, p) && v[p].nSequenceId >= next0)
    ensures !Consistent(v, u, next, [])
  {
    if n == 0 {
      assert !Placed(v, u, p, []);
    } else {
      var c :| c in v0 && c.pprev == p && v0[c].nChainTx != 0;
      assert LinkedRight(v0, next0, c) && c != p;
      assert !LinkedRight(v, next, c);
    }
  }

  lemma ReceiveEarly(v: View, u: Waiting, next: nat, p: BlockIndex, n: nat)
    requires Consistent(v, u, next, []) && p in v && !v[p].haveData && n > 0 && !Ready(v, p)
    ensures Consistent(Received(v, p, n), u[p.pprev := Released(u, p.pprev) + [p]], next, [])
  {
    var v', u' := Received(v, p, n), u[p.pprev := Released(u, p.pprev) + [p]];
    assert LinkedRight(v, next, p) && Placed(v, u, p, []);
    forall b | b in v
      ensures LinkedRight(v', next, b) && Placed(v', u', b, [])
    {
      assert LinkedRight(v, next, b) && Placed(v, u, b, []);
    }
    forall q | q in u'
      ensures Files(v', u', q)
    {
      assert q in u ==> Files(v, u, q);
    }
  }

  lemma HeaderKeeps(v: View, u: Waiting, next: nat, b: BlockIndex)
    requires Consistent(v, u, next, []) && b !in v
    requires b.pprev != null ==> b.pprev in v && b.nHeight == b.pprev.nHeight + 1
    ensures Consistent(v[b := Fields(0, 0, false, 0)], u, next, [])
  {
    var v' := v[b := Fields(0, 0, false, 0)];
    forall c | c in v
      ensures LinkedRight(v', next, c) && Placed(v', u, c, [])
    {
      assert LinkedRight(v, next, c) && Placed(v, u, c, []);
    }
    forall q | q in u
      ensures Files(v', u, q)
    {
      assert Files(v, u, q);
    }
  }

  // ------------------------------------------------------------------- the block map

  class BlockMap {
    ghost var blocks: set<BlockIndex>
    var mapBlocksUnlinked: map<BlockIndex, seq<BlockIndex>>
    var nBlockSequenceId: nat

    ghost function View(): View
      reads this`blocks, blocks
    {
      map b | b in blocks :: Fields(b.nTx, b.nChainTx, b.haveData, b.nSequenceId)
    }

    ghost predicate Valid()
      reads this, blocks
    {
      Consistent(View(), mapBlocksUnlinked, nBlockSequenceId, [])
    }

    constructor ()
      ensures Valid() && blocks == {} && mapBlocksUnlinked == map[] && nBlockSequenceId == 1
    {
      blocks, mapBlocksUnlinked, nBlockSequenceId := {}, map[], 1;
    }

    /** A new header joins the tree. */
    method AddHeader(pprev: BlockIndex?) returns (b: BlockIndex)
      requires Valid() && (pprev != null ==> pprev in blocks)
      modifies this`blocks
      ensures Valid() && fresh(b) && blocks == old(blocks) + {b} && b.pprev == pprev
      ensures View() == old(View())[b := Fields(0, 0, false, 0)]
    {
      hide Consistent;
      b := new BlockIndex(pprev);
      HeaderKeeps(View(), mapBlocksUnlinked, nBlockSequenceId, b);
      blocks := blocks + {b};
      assert View() == old(View())[b := Fields(0, 0, false, 0)];
    }

    /** Links the block at the front and queues the ones filed under it. */
    method Link(queue: seq<BlockIndex>) returns (rest: seq<BlockIndex>)
      requires Tree(View()) && queue != [] && queue[0] in blocks
      modifies this`mapBlocksUnlinked, this`nBlockSequenceId, blocks
      ensures nBlockSequenceId == old(nBlockSequenceId) + 1
      ensures View() == Linked(old(View()), old(nBlockSequenceId), queue[0])
      ensures mapBlocksUnlinked == old(mapBlocksUnlinked) - {queue[0]}
      ensures rest == queue[1..] + Released(old(mapBlocksUnlinked), queue[0])
    {
      hide Released;
      ghost var v, u := View(), mapBlocksUnlinked;
      var pindex := queue[0];
      rest := queue[1..];
      pindex.nChainTx := (if pindex.pprev != null then pindex.pprev.nChainTx else 0) + pindex.nTx;
      pindex.nSequenceId := nBlockSequenceId;
      nBlockSequenceId := nBlockSequenceId + 1;
      LinkedIs(v, View(), nBlockSequenceId - 1, pindex);
      ReleasedIs(u, pindex);
      if pindex in mapBlocksUnlinked {
        rest := rest + mapBlocksUnlinked[pindex];
        mapBlocksUnlinked := mapBlocksUnlinked - {pindex};
      } else {
        assert rest + [] == rest;
      }
    }

    /** Links the block that has come in and everything that was waiting for it. */
    method WorkOff(pindexNew: BlockIndex, vtxSize: nat, ghost v: View, ghost next: nat, ghost good: bool)
      requires Roughly(v, View(), mapBlocksUnlinked, [pindexNew], pindexNew, vtxSize)
      requires next == nBlockSequenceId && pindexNew in blocks
      requires good ==> Consistent(View(), mapBlocksUnlinked, nBlockSequenceId, [pindexNew])
      modifies this`mapBlocksUnlinked, this`nBlockSequenceId, blocks
      ensures Roughly(v, View(), mapBlocksUnlinked, [], pindexNew, vtxSize) && View()[pindexNew].nSequenceId >= next
      ensures good ==> Valid()
    {
      hide Consistent, Linked, Roughly;
      PendingNonNegative(mapBlocksUnlinked, [pindexNew]);
      var queue := [pindexNew];
      while queue != []
        invariant good ==> Consistent(View(), mapBlocksUnlinked, nBlockSequenceId, queue)
        invariant Roughly(v, View(), mapBlocksUnlinked, queue, pindexNew, vtxSize) && pindexNew in blocks
        invariant nBlockSequenceId >= next && Pending(mapBlocksUnlinked, queue) >= 0
        invariant queue == [pindexNew] || (pindexNew !in queue && View()[pindexNew].nSequenceId >= next)
        decreases Pending(mapBlocksUnlinked, queue)
      {
        RoughFront(v, View(), mapBlocksUnlinked, queue, pindexNew, vtxSize);
        RoughStep(v, View(), mapBlocksUnlinked, nBlockSequenceId, queue, pindexNew, vtxSize);
        PendingFalls(mapBlocksUnlinked, queue);
        if good {
          LinkKeeps(View(), mapBlocksUnlinked, nBlockSequenceId, queue);
        }
        LinkedNumber(View(), nBlockSequenceId, queue[0], pindexNew);
        queue := Link(queue);
      }
    }

    /** The data of a block has been received. The bookkeeping is kept exactly if the block may
        be recorded, which the caller has to see to; in any case the queue is worked off, only
        the block's own data is new, and whatever else was linked stays as it was. */
    method ReceivedBlockTransactions(pindexNew: BlockIndex, vtxSize: nat, parentValid: bool)
      requires Valid() && pindexNew in blocks
      modifies this`mapBlocksUnlinked, this`nBlockSequenceId, blocks
      ensures Tree(old(View())) && (Valid() <==> Recordable(old(View()), pindexNew, vtxSize, parentValid))
      ensures After(old(View()), View(), pindexNew, vtxSize)
    {
      hide Consistent, After, Linked, Received, Roughly, Recordable, HasLinkedChild;
      ghost var v, u, next := View(), mapBlocksUnlinked, nBlockSequenceId;
      TreeOf(v, u, next);
      pindexNew.nTx := vtxSize;
      pindexNew.nChainTx := 0;
      pindexNew.haveData := true;
      ReceivedIs(v, View(), pindexNew, vtxSize);
      RecordableIs(v, pindexNew, vtxSize, parentValid);
      if pindexNew.pprev == null || pindexNew.pprev.nChainTx != 0 {
        ghost var good := Recordable(v, pindexNew, vtxSize, parentValid);
        if good {
          ReceiveReady(v, u, next, pindexNew, vtxSize);
        }
        RoughStart(v, u, next, pindexNew, vtxSize);
        WorkOff(pindexNew, vtxSize, v, next, good);
        RoughMeans(v, View(), mapBlocksUnlinked, [], pindexNew, vtxSize);
        if !good {
          Unkept(v, u, next, View(), mapBlocksUnlinked, nBlockSequenceId, pindexNew, vtxSize);
        }
      } else {
        EarlyKept(v, u, next, pindexNew, vtxSize, parentValid);
        var p := pindexNew.pprev;
        if parentValid {
          var waiting := if p in mapBlocksUnlinked then mapBlocksUnlinked[p] else [];
          mapBlocksUnlinked := mapBlocksUnlinked[p := waiting + [pindexNew]];
        }
      }
    }
  }

  lemma TreeOf(v: View, u: Waiting, next: nat)
    requires Consistent(v, u, next, [])
    ensures Tree(v)
  {
  }

  lemma RecordableIs(v: View, p: BlockIndex, n: nat, parentValid: bool)
    requires Tree(v) && p in v
    ensures Ready(v, p) ==>
              (Recordable(v, p, n, parentValid) <==> n > 0 && (!v[p].haveData || !HasLinkedChild(v, p)))
    ensures !Ready(v, p) ==> (Recordable(v, p, n, parentValid) <==> n > 0 && v[p].haveData != parentValid)
  {
  }

  lemma PendingNonNegative(u: Waiting, queue: seq<BlockIndex>)
    ensures Pending(u, queue) >= 0
  {
    SumNonNegative(u, Length);
  }

  lemma RoughFront(v0: View, v: View, u: Waiting, queue: seq<BlockIndex>, p: BlockIndex, n: nat)
    requires Roughly(v0, v, u, queue, p, n) && queue != []
    ensures Tree(v) && queue[0] in v && p in v
  {
  }

  lemma RoughMeans(v0: View, v: View, u: Waiting, queue: seq<BlockIndex>, p: BlockIndex, n: nat)
    requires Roughly(v0, v, u, queue, p, n)
    ensures After(v0, v, p, n)
  {
  }

  lemma LinkedNumber(v: View, next: nat, front: BlockIndex, p: BlockIndex)
    requires Tree(v) && front in v && p in v
    ensures Linked(v, next, front)[p].nSequenceId == if p == front then next else v[p].nSequenceId
  {
  }

  /** The block comes before its parent has been linked. */
  lemma EarlyKept(v: View, u: Waiting, next: nat, p: BlockIndex, n: nat, parentValid: bool)
    requires Consistent(v, u, next, []) && Tree(v) && p in v && !Ready(v, p)
    ensures var u' := if parentValid then u[p.pprev := Released(u, p.pprev) + [p]] else u;
            Consistent(Received(v, p, n), u', next, []) <==> Recordable(v, p, n, parentValid)
    ensures After(v, Received(v, p, n), p, n)
  {
    hide Consistent, Received, After;
    ReceivedAfter(v, u, next, p, n);
    if v[p].haveData == parentValid {
      MisfiledEarly(v, u, next, p, n, parentValid, next);
    } else if n == 0 {
      EmptyUnplaced(v, if parentValid then u[p.pprev := Released(u, p.pprev) + [p]] else u, next, p);
    } else if parentValid {
      ReceiveEarly(v, u, next, p, n);
    } else {
      ReceiveAgainEarly(v, u, next, p, n);
    }
  }

  lemma EmptyUnplaced(v: View, u: Waiting, next: nat, p: BlockIndex)
    requires p in v
    ensures !Consistent(Received(v, p, 0), u, next, [])
  {
    var v' := Received(v, p, 0);
    if Tree(v') {
      assert !Placed(v', u, p, []);
    }
  }

  lemma ReceivedAfter(v: View, u: Waiting, next: nat, p: BlockIndex, n: nat)
    requires Consistent(v, u, next, []) && p in v
    ensures After(v, Received(v, p, n), p, n)
  {
  }

  lemma LinkedIs(v: View, v': View, next: nat, p: BlockIndex)
    requires Tree(v) && p in v && v'.Keys == v.Keys
    requires var before := if p.pprev == null then 0 else v[p.pprev].nChainTx;
             v'[p] == v[p].(nChainTx := before + v[p].nTx, nSequenceId := next)
    requires forall b | b in v && b != p :: v'[b] == v[b]
    ensures v' == Linked(v, next, p)
  {
  }

  lemma ReleasedIs(u: Waiting, p: BlockIndex)
    ensures p in u ==> Released(u, p) == u[p]
    ensures p !in u ==> Released(u, p) == [] && u - {p} == u
  {
  }

  lemma ReceivedIs(v: View, v': View, p: BlockIndex, n: nat)
    requires p in v && v'.Keys == v.Keys && v'[p] == v[p].(nTx := n, nChainTx := 0, haveData := true)
    requires forall b | b in v && b != p :: v'[b] == v[b]
    ensures v' == Received(v, p, n)
  {
  }

  /** Only the received block's own data is new, and whatever else was linked stays as it was. */
  ghost predicate After(v: View, v': View, p: BlockIndex, n: nat) {
    && v'.Keys == v.Keys
    && forall b | b in v ::
         && v'[b].haveData == (v[b].haveData || b == p)
         && v'[b].nTx == (if b == p then n else v[b].nTx)
         && (b != p && v[b].nChainTx != 0 ==> v'[b] == v[b])
  }

  // -------------------------------------------------------------------- whole runs

  /** A header on top of an earlier one (or a first block), or the data of one block. */
  datatype Arrival = Header(parent: int) | Data(block: nat, nTx: nat)

  /** Which headers there are, each with its parent's place, and which blocks have arrived. */
  datatype Arrived = Arrived(parents: seq<int>, got: map<nat, nat>) {
    ghost predicate Ordered() {
      && (forall i | 0 <= i < |parents| :: -1 <= parents[i] < i)
      && (forall i | i in got :: i < |parents| && got[i] > 0)
    }

    /** The block and all blocks below it have arrived. */
    ghost predicate Whole(i: nat)
      requires Ordered() && i < |parents|
    {
      i in got && (parents[i] < 0 || Whole(parents[i]))
    }

    ghost function Total(i: nat): nat
      requires Ordered() && i < |parents|
    {
      (if i in got then got[i] else 0) + (if parents[i] < 0 then 0 else Total(parents[i]))
    }

    predicate Accepts(a: Arrival) {
      match a
      case Header(p) => -1 <= p < |parents|
      case Data(b, n) => b < |parents| && b !in got && n > 0
    }

    function With(a: Arrival): Arrived
      requires Accepts(a)
    {
      match a
      case Header(p) => this.(parents := parents + [p])
      case Data(b, n) => this.(got := got[b := n])
    }
  }

  /** Arrivals one after the other; data that came before, or belongs to no header, is ignored. */
  ghost function Run(arrivals: seq<Arrival>): (m: Arrived)
    ensures m.Ordered()
  {
    if arrivals == [] then Arrived([], map[])
    else
      var m, a := Run(arrivals[..|arrivals| - 1]), arrivals[|arrivals| - 1];
      if m.Accepts(a) then m.With(a) else m
  }

  /** The objects stand for the headers, in order. */
  ghost predicate Shows(m: Arrived, v: View, index: seq<BlockIndex>)
    requires m.Ordered()
  {
    && |index| == |m.parents| && Distinct(index)
    && (forall b | b in v :: b in index) && (forall b | b in index :: b in v)
    && forall i | 0 <= i < |index| :: ShowsAt(m, v, index, i)
  }

  ghost predicate ShowsAt(m: Arrived, v: View, index: seq<BlockIndex>, i: nat)
    requires i < |index| == |m.parents| && m.Ordered()
  {
    && index[i] in v
    && index[i].pprev == (if m.parents[i] < 0 then null else index[m.parents[i]])
    && v[index[i]].haveData == (i in m.got)
    && v[index[i]].nTx == (if i in m.got then m.got[i] else 0)
  }

  lemma {:induction false} SameChains(m: Arrived, v: View, index: seq<BlockIndex>, i: nat)
    requires m.Ordered() && Tree(v) && Shows(m, v, index) && i < |index|
    ensures Complete(v, index[i]) <==> m.Whole(i)
    ensures ChainTx(v, index[i]) == m.Total(i)
    decreases i
  {
    assert ShowsAt(m, v, index, i);
    if m.parents[i] >= 0 {
      SameChains(m, v, index, m.parents[i]);
    }
  }

  lemma ShownAt(m: Arrived, v: View, index: seq<BlockIndex>, i: nat)
    requires m.Ordered() && Shows(m, v, index) && i < |index|
    ensures |index| == |m.parents| && ShowsAt(m, v, index, i)
  {
  }

  lemma ShowsHeader(m: Arrived, v: View, index: seq<BlockIndex>, p: int, b: BlockIndex)
    requires m.Ordered() && Shows(m, v, index) && m.Accepts(Header(p)) && b !in v
    requires b.pprev == if p < 0 then null else index[p]
    ensures m.With(Header(p)).Ordered() && Shows(m.With(Header(p)), v[b := Fields(0, 0, false, 0)], index + [b])
  {
    var m', v', index' := m.With(Header(p)), v[b := Fields(0, 0, false, 0)], index + [b];
    forall i | 0 <= i < |index'|
      ensures ShowsAt(m', v', index', i)
    {
      if i < |index| {
        assert ShowsAt(m, v, index, i);
      }
    }
  }

  lemma ShowsData(m: Arrived, v: View, v': View, index: seq<BlockIndex>, k: nat, n: nat)
    requires m.Ordered() && Shows(m, v, index) && m.Accepts(Data(k, n)) && After(v, v', index[k], n)
    ensures m.With(Data(k, n)).Ordered() && Shows(m.With(Data(k, n)), v', index)
  {
    var m' := m.With(Data(k, n));
    forall i | 0 <= i < |index|
      ensures ShowsAt(m', v', index, i)
    {
      assert ShowsAt(m, v, index, i);
      assert i != k ==> index[i] != index[k];
    }
  }

  lemma RunPromise(m: Arrived, v: View, u: Waiting, next: nat, index: seq<BlockIndex>)
    requires m.Ordered() && Shows(m, v, index) && Consistent(v, u, next, [])
    ensures forall i | 0 <= i < |index| :: RunPromiseAt(m, v, u, index, i)
  {
    forall i | 0 <= i < |index|
      ensures RunPromiseAt(m, v, u, index, i)
    {
      assert ShowsAt(m, v, index, i);
      SameChains(m, v, index, i);
      KeepsPromise(v, u, next, index[i]);
    }
  }

  /** A block carries its chain's transaction count if the whole chain has arrived, and is filed
      under its parent if it has arrived and something below it has not. */
  ghost predicate RunPromiseAt(m: Arrived, v: View, u: Waiting, index: seq<BlockIndex>, i: nat)
    requires m.Ordered() && i < |index| == |m.parents|
  {
    && index[i] in v
    && v[index[i]].nChainTx == (if m.Whole(i) then m.Total(i) else 0)
    && (Filed(u, index[i]) <==> i in m.got && !m.Whole(i))
  }

  /** One arrival, unless it is ignored. */
  method Arrive(m: BlockMap, index: seq<BlockIndex>, a: Arrival, ghost before: Arrived)
    returns (index': seq<BlockIndex>)
    requires m.Valid() && before.Ordered() && Shows(before, m.View(), index)
    modifies m, m.blocks
    ensures m.Valid() && fresh(m.blocks - old(m.blocks))
    ensures var after := if before.Accepts(a) then before.With(a) else before;
            after.Ordered() && Shows(after, m.View(), index')
  {
    hide Consistent, After;
    ghost var v := m.View();
    assert |index| == |before.parents|;
    hide Shows;
    index' := index;
    match a {
      case Header(p) =>
        if -1 <= p < |index| {
          if p >= 0 {
            ShownAt(before, v, index, p);
          }
          var b := m.AddHeader(if p < 0 then null else index[p]);
          ShowsHeader(before, v, index, p, b);
          index' := index + [b];
        }
      case Data(b, n) =>
        if b < |index| {
          ShownAt(before, v, index, b);
        }
        if b < |index| && !index[b].haveData && n > 0 {
          m.ReceivedBlockTransactions(index[b], n, true);
          ShowsData(before, v, m.View(), index, b, n);
        }
    }
  }

  /** Whatever arrives in whatever order, afterwards exactly the blocks whose whole chains have
      arrived carry their chain's transaction count, and exactly the others that have arrived
      are filed under their parents. */
  method Replay(arrivals: seq<Arrival>) returns (m: BlockMap, index: seq<BlockIndex>)
    ensures m.Valid() && Shows(Run(arrivals), m.View(), index)
    ensures forall i | 0 <= i < |index| :: RunPromiseAt(Run(arrivals), m.View(), m.mapBlocksUnlinked, index, i)
  {
    hide Consistent, RunPromiseAt;
    m := new BlockMap();
    index := [];
    var k := 0;
    while k < |arrivals|
      invariant k <= |arrivals| && m.Valid() && fresh(m) && fresh(m.blocks)
      invariant Shows(Run(arrivals[..k]), m.View(), index)
    {
      assert arrivals[..k + 1][..k] == arrivals[..k];
      index := Arrive(m, index, arrivals[k], Run(arrivals[..k]));
      k := k + 1;
    }
    assert arrivals[..k] == arrivals;
    RunPromise(Run(arrivals), m.View(), m.mapBlocksUnlinked, m.nBlockSequenceId, index);
  }

  // ------------------------------------------------------------ where promises end

  /** A first block and one on it. */
  method TwoHeaders() returns (m: BlockMap, parent: BlockIndex, child: BlockIndex)
    ensures fresh(m) && fresh(m.blocks) && m.Valid() && m.blocks == {parent, child}
    ensures parent.pprev == null && child.pprev == parent
    ensures m.View() == map[parent := Fields(0, 0, false, 0), child := Fields(0, 0, false, 0)]
  {
    hide Consistent;
    m := new BlockMap();
    parent := m.AddHeader(null);
    child := m.AddHeader(parent);
  }

  /** A received block whose parent is linked is linked. */
  lemma LinkedAtOnce(v: View, u: Waiting, next: nat, b: BlockIndex)
    requires Consistent(v, u, next, []) && b in v && v[b].haveData
    ensures Ready(v, b) ==> v[b].nChainTx != 0
  {
    assert Placed(v, u, b, []);
  }

  /** A block without transactions. */
  method EmptyReceived() returns (m: BlockMap)
    ensures !m.Valid()
  {
    hide Consistent, After;
    var parent, child;
    m, parent, child := TwoHeaders();
    m.ReceivedBlockTransactions(parent, 0, true);
  }

  /** A block that comes again after another has been linked on it. */
  method ReceivedAgain() returns (m: BlockMap)
    ensures !m.Valid()
  {
    hide Consistent;
    var parent, child;
    m, parent, child := TwoHeaders();
    m.ReceivedBlockTransactions(parent, 1, true);
    m.ReceivedBlockTransactions(child, 1, true);
    LinkedAtOnce(m.View(), m.mapBlocksUnlinked, m.nBlockSequenceId, parent);
    LinkedAtOnce(m.View(), m.mapBlocksUnlinked, m.nBlockSequenceId, child);
    assert HasLinkedChild(m.View(), parent);
    m.ReceivedBlockTransactions(parent, 1, true);
  }

  /** A block that comes twice before its parent. */
  method FiledTwice() returns (m: BlockMap)
    ensures !m.Valid()
  {
    hide Consistent;
    var parent, child;
    m, parent, child := TwoHeaders();
    m.ReceivedBlockTransactions(child, 1, true);
    KeepsPromise(m.View(), m.mapBlocksUnlinked, m.nBlockSequenceId, parent);
    m.ReceivedBlockTransactions(child, 1, true);
  }

  /** A block that comes before a parent that is not valid. */
  method NotFiled() returns (m: BlockMap)
    ensures !m.Valid()
  {
    hide Consistent, After;
    var parent, child;
    m, parent, child := TwoHeaders();
    m.ReceivedBlockTransactions(child, 1, false);
  }
}
