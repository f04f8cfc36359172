/** Loading the address manager's file into a newly made manager. */
module AddrLoad {
  import opened FiniteSets
  import opened AddrTables
  import opened AddrFile
  import opened AddrSound

  // ----------------------------------------------------------- the manager it came from

  /** The manager that was saved. */
  datatype Origin = Origin(
    infos: Infos, addrs: map<NetAddr, int>, order: seq<int>, nIdCount: nat, vvNew: Table, vvTried: Table, h: Hashes)
  {
    ghost predicate Ok() {
      IndexOk(infos, addrs, order, nIdCount) && TablesOk(infos, vvNew, vvTried, h, {})
    }

    ghost function News(): nat {
      |IdsBelow(infos, nIdCount, false)|
    }

    ghost function Trieds(): nat {
      |IdsBelow(infos, nIdCount, true)|
    }

    /** The id of the k-th entry of the file. */
    ghost function Old(k: nat): int
      requires k < News() + Trieds()
    {
      if k < News() then IdsBelow(infos, nIdCount, false)[k] else IdsBelow(infos, nIdCount, true)[k - News()]
    }

    /** The place in the file of the entry with an id. */
    ghost function Place(id: int): nat
      requires id in infos
    {
      if infos[id].fInTried then News() + Rank(infos, id, true) else Rank(infos, id, false)
    }

    lemma OldIs(k: nat)
      requires k < News() + Trieds()
      ensures Old(k) in infos && 0 <= Old(k) < nIdCount && Place(Old(k)) == k
      ensures infos[Old(k)].fInTried <==> k >= News()
    {
      if k < News() {
        IdsInside(infos, nIdCount, false, k);
      } else {
        IdsInside(infos, nIdCount, true, k - News());
      }
    }

    lemma PlaceIs(id: int)
      requires Ok() && id in infos
      ensures Place(id) < News() + Trieds() && Old(Place(id)) == id && id >= 0
      ensures infos[id].fInTried <==> Place(id) >= News()
    {
      assert EntryIndexed(id, infos[id], addrs, order, nIdCount);
      IdsComplete(infos, nIdCount, infos[id].fInTried, id);
    }

    lemma SameAddress(k: nat, j: nat)
      requires Ok() && k < News() + Trieds() && j < News() + Trieds()
      requires Old(k) in infos && Old(j) in infos && infos[Old(k)].svc.addr == infos[Old(j)].svc.addr
      ensures k == j
    {
      OldIs(k);
      OldIs(j);
      assert EntryIndexed(Old(k), infos[Old(k)], addrs, order, nIdCount);
      assert EntryIndexed(Old(j), infos[Old(j)], addrs, order, nIdCount);
    }
  }

  /** A loaded entry says what the saved one said, and is of the same kind. */
  ghost predicate CopyOf(o: Origin, e: Info, k: nat)
    requires k < o.News() + o.Trieds()
  {
    && o.Old(k) in o.infos && Alike(e, o.infos[o.Old(k)]) && Untouched(e)
    && (e.fInTried <==> k >= o.News())
  }

  /** The first k entries of the file are there, numbered as they come. */
  ghost predicate Copied(o: Origin, infos: Infos, k: nat) {
    && k <= o.News() + o.Trieds()
    && (forall j :: j in infos <==> 0 <= j < k)
    && (forall j | 0 <= j < k :: CopyOf(o, infos[j], j))
  }

  lemma FreshAddress(o: Origin, infos: Infos, addrs: map<NetAddr, int>, order: seq<int>, k: nat)
    requires o.Ok() && Copied(o, infos, k) && IndexOk(infos, addrs, order, k) && k < o.News() + o.Trieds()
    ensures o.Old(k) in o.infos && o.infos[o.Old(k)].svc.addr !in addrs
  {
    o.OldIs(k);
    var a := o.infos[o.Old(k)].svc.addr;
    if a in addrs {
      var j := addrs[a];
      assert j in infos && infos[j].svc.addr == a;
      assert CopyOf(o, infos[j], j);
      o.SameAddress(k, j);
    }
  }

  // ----------------------------------------------------------------------------- tables

  /** What stands in a slot of the tried table once k entries have been read. */
  ghost function TriedNow(o: Origin, id: int, k: nat): int {
    if id in o.infos && o.Place(id) < k then o.Place(id) else -1
  }

  ghost predicate TriedLoaded(o: Origin, vvTried: Table, k: nat) {
    && Shaped(vvTried, TRIED_BUCKET_COUNT) && Shaped(o.vvTried, TRIED_BUCKET_COUNT)
    && forall b, p | 0 <= b < TRIED_BUCKET_COUNT && 0 <= p < BUCKET_SIZE ::
         vvTried[b][p] == TriedNow(o, o.vvTried[b][p], k)
  }

  /** Whether a slot of the new table has been filled when n entries of bucket b have been read. */
  ghost predicate Reached(o: Origin, c: nat, q: nat, b: nat, n: nat)
    requires Shaped(o.vvNew, NEW_BUCKET_COUNT) && c < NEW_BUCKET_COUNT && q < BUCKET_SIZE
  {
    c < b || (c == b && |Occupied(o.infos, o.vvNew[c], q)| < n)
  }

  ghost predicate NewLoaded(o: Origin, vvNew: Table, b: nat, n: nat) {
    && Shaped(vvNew, NEW_BUCKET_COUNT) && Shaped(o.vvNew, NEW_BUCKET_COUNT)
    && forall c, q | 0 <= c < NEW_BUCKET_COUNT && 0 <= q < BUCKET_SIZE :: vvNew[c][q] == NewNow(o, c, q, b, n)
  }

  /** k entries have been read, and n indexes of bucket b. */
  ghost predicate Halfway(o: Origin, infos: Infos, addrs: map<NetAddr, int>, order: seq<int>, vvNew: Table,
                          vvTried: Table, k: nat, b: nat, n: nat) {
    && o.Ok() && Copied(o, infos, k)
    && IndexOk(infos, addrs, order, k)
    && TablesOk(infos, vvNew, vvTried, o.h, Below(o.News()))
    && TriedLoaded(o, vvTried, k)
    && NewLoaded(o, vvNew, b, n)
  }

  // ----------------------------------------------------------------------------- entries

  /** The next entry of the new kind. */
  lemma NewEntry(o: Origin, infos: Infos, addrs: map<NetAddr, int>, order: seq<int>, vvNew: Table, vvTried: Table,
                 k: nat)
    requires Halfway(o, infos, addrs, order, vvNew, vvTried, k, 0, 0) && k < o.News()
    ensures o.Old(k) in o.infos
    ensures var e := Load(Save(o.infos[o.Old(k)])).(nRandomPos := |order|);
            Halfway(o, infos[k := e], addrs[e.svc.addr := k], order + [k], vvNew, vvTried, k + 1, 0, 0)
  {
    hide TablesOk, IndexOk, NewLoaded;
    o.OldIs(k);
    FreshAddress(o, infos, addrs, order, k);
    var e := Load(Save(o.infos[o.Old(k)])).(nRandomPos := |order|);
    AppendKeepsIndex(infos, addrs, order, k, e);
    InsertEntry(infos, vvNew, vvTried, o.h, Below(o.News()), k, e);
    assert Below(o.News()) + {k} == Below(o.News());
    NoTriedYet(o, vvTried, k);
  }

  lemma NoTriedYet(o: Origin, vvTried: Table, k: nat)
    requires o.Ok() && TriedLoaded(o, vvTried, k) && k < o.News()
    ensures TriedLoaded(o, vvTried, k + 1)
  {
    forall b, p | 0 <= b < TRIED_BUCKET_COUNT && 0 <= p < BUCKET_SIZE
      ensures TriedNow(o, o.vvTried[b][p], k) == TriedNow(o, o.vvTried[b][p], k + 1)
    {
      var id := o.vvTried[b][p];
      if id in o.infos {
        o.PlaceIs(id);
        assert id >= 0 && id != -1;
        assert TriedSlotOk(o.infos, o.h, b, p, id);
      }
    }
  }

  /** The slot of the next tried entry is its own, and still empty. */
  lemma TriedSlotFree(o: Origin, vvTried: Table, k: nat)
    requires o.Ok() && TriedLoaded(o, vvTried, k) && o.News() <= k < o.News() + o.Trieds()
    ensures o.Old(k) in o.infos
    ensures var s := o.infos[o.Old(k)].svc;
            var b := o.h.TriedBucket(s);
            var p := o.h.Position(false, b, s);
            vvTried[b][p] == -1 && TriedLoaded(o, Put(vvTried, b, p, k), k + 1)
  {
    o.OldIs(k);
    var id := o.Old(k);
    var s := o.infos[id].svc;
    var b := o.h.TriedBucket(s);
    var p := o.h.Position(false, b, s);
    assert EntryPlaced(id, o.infos[id], o.vvNew, o.vvTried, o.h, {});
    assert o.vvTried[b][p] == id;
    forall c, q | 0 <= c < TRIED_BUCKET_COUNT && 0 <= q < BUCKET_SIZE
      ensures Put(vvTried, b, p, k)[c][q] == TriedNow(o, o.vvTried[c][q], k + 1)
    {
      var x := o.vvTried[c][q];
      if x in o.infos && o.Place(x) == k {
        o.PlaceIs(x);
        assert TriedSlotOk(o.infos, o.h, c, q, x);
      }
    }
  }

  /** The next entry of the tried kind. */
  lemma TriedEntry(o: Origin, infos: Infos, addrs: map<NetAddr, int>, order: seq<int>, vvNew: Table, vvTried: Table,
                   k: nat)
    requires Halfway(o, infos, addrs, order, vvNew, vvTried, k, 0, 0) && o.News() <= k < o.News() + o.Trieds()
    ensures o.Old(k) in o.infos
    ensures var e := Load(Save(o.infos[o.Old(k)])).(nRandomPos := |order|, fInTried := true);
            var b := o.h.TriedBucket(e.svc);
            var p := o.h.Position(false, b, e.svc);
            && vvTried[b][p] == -1
            && Halfway(o, infos[k := e], addrs[e.svc.addr := k], order + [k], vvNew, Put(vvTried, b, p, k), k + 1, 0, 0)
  {
    hide TablesOk, IndexOk, NewLoaded;
    o.OldIs(k);
    FreshAddress(o, infos, addrs, order, k);
    TriedSlotFree(o, vvTried, k);
    var e0 := Load(Save(o.infos[o.Old(k)])).(nRandomPos := |order|);
    var e := e0.(fInTried := true);
    AppendKeepsIndex(infos, addrs, order, k, e);
    InsertEntry(infos, vvNew, vvTried, o.h, Below(o.News()), k, e0);
    assert infos[k := e0][k := e] == infos[k := e];
    Promote(infos[k := e0], vvNew, vvTried, o.h, Below(o.News()) + {k}, k);
    assert Below(o.News()) + {k} - {k} == Below(o.News());
  }

  // ----------------------------------------------------------------------------- buckets

  /** The n-th index of a bucket belongs to the slot with n occupied slots before it. */
  lemma {:induction false} NthSlot(infos: Infos, row: seq<int>, len: nat, n: nat) returns (q: nat)
    requires len <= |row| && n < |Occupied(infos, row, len)|
    ensures q < len && row[q] != -1 && |Occupied(infos, row, q)| == n
    ensures Occupied(infos, row, len)[n] == Rank(infos, row[q], false)
    decreases len
  {
    if n < |Occupied(infos, row, len - 1)| {
      q := NthSlot(infos, row, len - 1, n);
    } else {
      q := len - 1;
    }
  }

  lemma {:induction false} OccupiedGrows(infos: Infos, row: seq<int>, p: nat, q: nat)
    requires p < q <= |row| && row[p] != -1
    ensures |Occupied(infos, row, p)| < |Occupied(infos, row, q)|
    decreases q
  {
    if p < q - 1 {
      OccupiedGrows(infos, row, p, q - 1);
    }
  }

  /** What stands in a slot of the new table once n indexes of bucket b have been read. */
  ghost function NewNow(o: Origin, c: nat, p: nat, b: nat, n: nat): int
    requires Shaped(o.vvNew, NEW_BUCKET_COUNT) && c < NEW_BUCKET_COUNT && p < BUCKET_SIZE
  {
    if o.vvNew[c][p] in o.infos && Reached(o, c, p, b, n) then o.Place(o.vvNew[c][p]) else -1
  }

  /** The n-th index of a bucket fills one slot and no other. */
  lemma SlotReached(o: Origin, b: nat, n: nat, q: nat, c: nat, p: nat)
    requires Shaped(o.vvNew, NEW_BUCKET_COUNT) && -1 !in o.infos
    requires b < NEW_BUCKET_COUNT && q < BUCKET_SIZE && c < NEW_BUCKET_COUNT && p < BUCKET_SIZE
    requires o.vvNew[b][q] in o.infos && |Occupied(o.infos, o.vvNew[b], q)| == n
    ensures NewNow(o, b, q, b, n) == -1
    ensures NewNow(o, c, p, b, n + 1) == if c == b && p == q then o.Place(o.vvNew[b][q]) else NewNow(o, c, p, b, n)
  {
    hide Occupied;
    if c == b && p != q && o.vvNew[c][p] in o.infos {
      if p < q {
        OccupiedGrows(o.infos, o.vvNew[b], p, q);
      } else {
        OccupiedGrows(o.infos, o.vvNew[b], q, p);
      }
    }
  }

  lemma OriginSlot(o: Origin, b: nat, q: nat)
    requires o.Ok() && b < NEW_BUCKET_COUNT && q < BUCKET_SIZE && o.vvNew[b][q] != -1
    ensures var id := o.vvNew[b][q];
            id in o.infos && !o.infos[id].fInTried && o.h.Position(true, b, o.infos[id].svc) == q
    ensures -1 !in o.infos
  {
    assert NewSlotOk(o.infos, o.h, b, q, o.vvNew[b][q]);
  }

  /** The next index is that of an entry with a free slot here. */
  lemma NewSlotFree(o: Origin, vvNew: Table, b: nat, n: nat, q: nat)
    requires o.Ok() && NewLoaded(o, vvNew, b, n) && b < NEW_BUCKET_COUNT && q < BUCKET_SIZE
    requires o.vvNew[b][q] != -1 && |Occupied(o.infos, o.vvNew[b], q)| == n
    ensures var id := o.vvNew[b][q];
            && id in o.infos && !o.infos[id].fInTried && o.h.Position(true, b, o.infos[id].svc) == q
            && vvNew[b][q] == -1
            && NewLoaded(o, Put(vvNew, b, q, o.Place(id)), b, n + 1)
  {
    OriginSlot(o, b, q);
    hide IndexOk, TablesOk, Occupied, NewNow;
    forall c, p | 0 <= c < NEW_BUCKET_COUNT && 0 <= p < BUCKET_SIZE
      ensures Put(vvNew, b, q, o.Place(o.vvNew[b][q]))[c][p] == NewNow(o, c, p, b, n + 1) && vvNew[b][q] == -1
    {
      SlotReached(o, b, n, q, c, p);
    }
    assert vvNew[b][q] == NewNow(o, b, q, b, n) by {
      SlotReached(o, b, n, q, b, q);
    }
    SlotReached(o, b, n, q, b, q);
  }

  /** Fewer slots than in the saved table have been given to an entry, so another one fits. */
  lemma RoomForReference(o: Origin, vvNew: Table, b: nat, n: nat, id: int)
    requires o.Ok() && NewLoaded(o, vvNew, b, n) && b < NEW_BUCKET_COUNT && id in o.infos && !o.infos[id].fInTried
    requires var q := o.h.Position(true, b, o.infos[id].svc); o.vvNew[b][q] == id && vvNew[b][q] == -1
    ensures |Slots(vvNew, o.h, o.infos[id].svc, o.Place(id))| < NEW_BUCKETS_PER_ADDRESS
  {
    var s := o.infos[id].svc;
    var now, full := Slots(vvNew, o.h, s, o.Place(id)), Slots(o.vvNew, o.h, s, id);
    assert EntryPlaced(id, o.infos[id], o.vvNew, o.vvTried, o.h, {});
    forall c | c in now
      ensures c in full - {b}
    {
      var q := o.h.Position(true, c, s);
      var x := o.vvNew[c][q];
      assert x in o.infos;
      o.PlaceIs(id);
      o.PlaceIs(x);
    }
    SubsetSize(now, full - {b});
    assert b in full;
  }

  /** One more index of a bucket gives its entry the slot it had. */
  lemma BucketIndex(o: Origin, infos: Infos, addrs: map<NetAddr, int>, order: seq<int>, vvNew: Table,
                    vvTried: Table, k: nat, b: nat, n: nat)
    requires Halfway(o, infos, addrs, order, vvNew, vvTried, k, b, n) && k == o.News() + o.Trieds()
    requires b < NEW_BUCKET_COUNT && n < |Occupied(o.infos, o.vvNew[b], BUCKET_SIZE)|
    ensures var j := Occupied(o.infos, o.vvNew[b], BUCKET_SIZE)[n];
            && 0 <= j < o.News() && j in infos && infos[j].nRefCount < NEW_BUCKETS_PER_ADDRESS
            && var p := o.h.Position(true, b, infos[j].svc);
            && vvNew[b][p] == -1
            && var after := infos[j := infos[j].(nRefCount := infos[j].nRefCount + 1)];
            Halfway(o, after, addrs, order, Put(vvNew, b, p, j), vvTried, k, b, n + 1)
  {
    hide IndexOk, NewLoaded, TriedLoaded, Occupied, Slots;
    assert Shaped(o.vvNew, NEW_BUCKET_COUNT) && Shaped(vvNew, NEW_BUCKET_COUNT);
    var q := NthSlot(o.infos, o.vvNew[b], BUCKET_SIZE, n);
    var id := o.vvNew[b][q];
    NewSlotFree(o, vvNew, b, n, q);
    o.PlaceIs(id);
    var j := o.Place(id);
    assert CopyOf(o, infos[j], j);
    RoomForReference(o, vvNew, b, n, id);
    assert EntryPlaced(j, infos[j], vvNew, vvTried, o.h, Below(o.News()));
    FillSlot(infos, vvNew, vvTried, o.h, Below(o.News()), b, j);
    var after := infos[j := infos[j].(nRefCount := infos[j].nRefCount + 1)];
    RestatKeepsIndex(infos, addrs, order, k, j, after[j]);
    LooserTables(after, Put(vvNew, b, q, j), vvTried, o.h, Below(o.News()) - {j}, Below(o.News()));
    CopiedStill(o, infos, k, j, after[j]);
  }

  lemma CopiedStill(o: Origin, infos: Infos, k: nat, j: nat, e: Info)
    requires Copied(o, infos, k) && j in infos && e == infos[j].(nRefCount := e.nRefCount)
    ensures Copied(o, infos[j := e], k)
  {
    assert CopyOf(o, infos[j], j);
  }

  /** A bucket whose indexes have all been read is complete. */
  lemma NextBucket(o: Origin, vvNew: Table, b: nat)
    requires o.Ok() && b < NEW_BUCKET_COUNT && NewLoaded(o, vvNew, b, |Occupied(o.infos, o.vvNew[b], BUCKET_SIZE)|)
    ensures NewLoaded(o, vvNew, b + 1, 0)
  {
    forall c, q | 0 <= c < NEW_BUCKET_COUNT && 0 <= q < BUCKET_SIZE && o.vvNew[c][q] in o.infos
      ensures Reached(o, c, q, b + 1, 0) <==> Reached(o, c, q, b, |Occupied(o.infos, o.vvNew[b], BUCKET_SIZE)|)
    {
      o.PlaceIs(o.vvNew[c][q]);
      if c == b {
        OccupiedGrows(o.infos, o.vvNew[c], q, BUCKET_SIZE);
      }
    }
  }

  // --------------------------------------------------------------------------- the result

  /** The loaded manager holds the saved entries under new numbers, each with its references, in
      the slots it had. */
  ghost predicate Restored(o: Origin, infos: Infos, vvNew: Table, vvTried: Table) {
    && Copied(o, infos, o.News() + o.Trieds())
    && (forall id | id in o.infos :: RestoredEntry(o, infos, id))
    && Renumbered(o, o.vvNew, vvNew, NEW_BUCKET_COUNT)
    && Renumbered(o, o.vvTried, vvTried, TRIED_BUCKET_COUNT)
  }

  ghost predicate RestoredEntry(o: Origin, infos: Infos, id: int)
    requires id in o.infos
  {
    && o.Place(id) in infos && Alike(infos[o.Place(id)], o.infos[id]) && Untouched(infos[o.Place(id)])
    && infos[o.Place(id)].fInTried == o.infos[id].fInTried
    && infos[o.Place(id)].nRefCount == o.infos[id].nRefCount
  }

  /** The same slots are taken, by the same entries. */
  ghost predicate Renumbered(o: Origin, saved: Table, loaded: Table, buckets: nat) {
    && Shaped(saved, buckets) && Shaped(loaded, buckets)
    && forall b, p | 0 <= b < buckets && 0 <= p < BUCKET_SIZE ::
      if saved[b][p] == -1 then loaded[b][p] == -1 else saved[b][p] in o.infos && loaded[b][p] == o.Place(saved[b][p])
  }

  lemma RestoredTables(o: Origin, vvNew: Table, vvTried: Table)
    requires o.Ok() && TriedLoaded(o, vvTried, o.News() + o.Trieds()) && NewLoaded(o, vvNew, NEW_BUCKET_COUNT, 0)
    ensures Renumbered(o, o.vvNew, vvNew, NEW_BUCKET_COUNT)
    ensures Renumbered(o, o.vvTried, vvTried, TRIED_BUCKET_COUNT)
  {
    forall b, p | 0 <= b < TRIED_BUCKET_COUNT && 0 <= p < BUCKET_SIZE && o.vvTried[b][p] != -1
      ensures o.vvTried[b][p] in o.infos && vvTried[b][p] == o.Place(o.vvTried[b][p])
    {
      assert TriedSlotOk(o.infos, o.h, b, p, o.vvTried[b][p]);
      o.PlaceIs(o.vvTried[b][p]);
    }
    forall b, p | 0 <= b < NEW_BUCKET_COUNT && 0 <= p < BUCKET_SIZE && o.vvNew[b][p] != -1
      ensures o.vvNew[b][p] in o.infos
    {
      assert NewSlotOk(o.infos, o.h, b, p, o.vvNew[b][p]);
    }
    forall id | id in o.infos
      ensures id != -1
    {
      o.PlaceIs(id);
    }
  }

  /** Every reference is back. */
  lemma ReferencesBack(o: Origin, infos: Infos, vvNew: Table, vvTried: Table, id: int)
    requires o.Ok() && Copied(o, infos, o.News() + o.Trieds()) && id in o.infos
    requires TablesOk(infos, vvNew, vvTried, o.h, Below(o.News())) && Renumbered(o, o.vvNew, vvNew, NEW_BUCKET_COUNT)
    ensures RestoredEntry(o, infos, id)
  {
    o.PlaceIs(id);
    var j := o.Place(id);
    assert CopyOf(o, infos[j], j);
    assert EntryPlaced(id, o.infos[id], o.vvNew, o.vvTried, o.h, {});
    assert EntryPlaced(j, infos[j], vvNew, vvTried, o.h, Below(o.News()));
    if !o.infos[id].fInTried {
      SameSlots(o, vvNew, id);
    }
  }

  lemma SameSlots(o: Origin, vvNew: Table, id: int)
    requires o.Ok() && id in o.infos && Renumbered(o, o.vvNew, vvNew, NEW_BUCKET_COUNT)
    ensures Slots(vvNew, o.h, o.infos[id].svc, o.Place(id)) == Slots(o.vvNew, o.h, o.infos[id].svc, id)
  {
    o.PlaceIs(id);
    forall b | 0 <= b < NEW_BUCKET_COUNT
      ensures var p := o.h.Position(true, b, o.infos[id].svc); vvNew[b][p] == o.Place(id) <==> o.vvNew[b][p] == id
    {
      var x := o.vvNew[b][o.h.Position(true, b, o.infos[id].svc)];
      if x in o.infos {
        o.PlaceIs(x);
      }
    }
  }

  lemma EntryBack(o: Origin, infos: Infos, j: int)
    requires o.Ok() && Copied(o, infos, o.News() + o.Trieds()) && j in infos
    requires forall id | id in o.infos :: RestoredEntry(o, infos, id)
    ensures infos[j].fInTried || infos[j].nRefCount != 0
  {
    hide IndexOk, TablesOk;
    o.OldIs(j);
    assert RestoredEntry(o, infos, o.Old(j));
    ReferencesCounted(o.infos, o.vvNew, o.vvTried, o.h, {}, o.Old(j));
  }

  /** When everything has been read, the manager is whole again. */
  lemma AllBack(o: Origin, infos: Infos, addrs: map<NetAddr, int>, order: seq<int>, vvNew: Table, vvTried: Table)
    requires Halfway(o, infos, addrs, order, vvNew, vvTried, o.News() + o.Trieds(), NEW_BUCKET_COUNT, 0)
    ensures Restored(o, infos, vvNew, vvTried)
    ensures TablesOk(infos, vvNew, vvTried, o.h, {})
    ensures |NewIds(infos)| == o.News() && |TriedIds(infos)| == o.Trieds()
  {
    hide TablesOk, IndexOk, Renumbered, NewLoaded, TriedLoaded, RestoredEntry, Copied, NewIds, TriedIds;
    RestoredTables(o, vvNew, vvTried);
    forall id | id in o.infos
      ensures RestoredEntry(o, infos, id)
    {
      ReferencesBack(o, infos, vvNew, vvTried, id);
    }
    forall j | j in infos ensures infos[j].fInTried || infos[j].nRefCount != 0 {
      EntryBack(o, infos, j);
    }
    Settled(infos, vvNew, vvTried, o.h, Below(o.News()));
    KindsCounted(o, infos);
  }

  /** Times that made sense before make sense again. */
  lemma StatsBack(o: Origin, infos: Infos, vvNew: Table, vvTried: Table)
    requires Restored(o, infos, vvNew, vvTried) && StatsOk(o.infos)
    ensures StatsOk(infos)
  {
    hide Renumbered, RestoredEntry;
    forall j | j in infos ensures SaneStats(infos[j]) {
      assert CopyOf(o, infos[j], j);
      o.OldIs(j);
      assert SaneStats(o.infos[o.Old(j)]);
    }
  }

  lemma KindsCounted(o: Origin, infos: Infos)
    requires Copied(o, infos, o.News() + o.Trieds())
    ensures |NewIds(infos)| == o.News() && |TriedIds(infos)| == o.Trieds()
  {
    var k, n := o.News() + o.Trieds(), o.News();
    forall j | j in infos
      ensures 0 <= j < k && (infos[j].fInTried <==> j >= n)
    {
      assert CopyOf(o, infos[j], j);
    }
    assert forall j :: j in infos <==> 0 <= j < k;
    hide Copied, Below;
    SplitKinds(infos, n, k);
  }

  lemma SplitKinds(infos: Infos, n: nat, k: nat)
    requires n <= k && (forall j :: j in infos <==> 0 <= j < k)
    requires forall j | j in infos :: infos[j].fInTried <==> j >= n
    ensures |NewIds(infos)| == n && |TriedIds(infos)| == k - n
  {
    hide Below;
    SameElements(NewIds(infos), Below(n));
    SameElements(infos.Keys, Below(k));
    SameElements(NewIds(infos) + TriedIds(infos), infos.Keys);
    BelowSize(n);
    BelowSize(k);
  }

  lemma SameElements(s: set<int>, t: set<int>)
    requires forall j :: j in s <==> j in t
    ensures s == t
  {
    if s - t != {} {
      var x := Any(s - t);
    }
    if t - s != {} {
      var x := Any(t - s);
    }
  }

  lemma {:induction false} BelowSize(k: nat)
    ensures |Below(k)| == k
  {
    if k > 0 {
      BelowSize(k - 1);
    }
  }
}
