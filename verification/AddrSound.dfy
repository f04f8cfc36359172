/** Loading an address manager's file from elsewhere: what holds whatever it says. */
module AddrSound {
  import opened FiniteSets
  import opened AddrTables
  import opened AddrFile

  ghost function Below(k: nat): (s: set<int>)
    ensures forall j :: j in s <==> 0 <= j < k
  {
    if k == 0 then {} else Below(k - 1) + {k - 1}
  }

  /** No two of the first n entries are about the same network address. */
  ghost predicate Distinct(entries: seq<Saved>, n: nat) {
    n <= |entries| && forall i, j | 0 <= i < j < n :: entries[i].svc.addr != entries[j].svc.addr
  }

  /** An entry is what the file says about it. Those of the new table keep their number. */
  ghost predicate FromFile(entries: seq<Saved>, news: nat, read: nat, id: int, e: Info)
    requires read <= |entries|
  {
    && Untouched(e)
    && if e.fInTried then exists j :: news <= j < read && Tells(entries[j], e)
       else 0 <= id < news && id < read && Tells(entries[id], e)
  }

  ghost predicate AllFromFile(entries: seq<Saved>, news: nat, read: nat, infos: Infos)
    requires read <= |entries|
  {
    forall id | id in infos :: FromFile(entries, news, read, id, infos[id])
  }

  /** The first n numbers belong to entries of the new table. */
  ghost predicate NewsThere(infos: Infos, n: nat) {
    forall j | 0 <= j < n :: j in infos && !infos[j].fInTried
  }

  // -------------------------------------------------------------------------- positions

  ghost predicate Positioned(id: int, e: Info, order: seq<int>, lo: int, hi: int) {
    lo <= id < hi && 0 <= e.nRandomPos < |order| && order[e.nRandomPos] == id
  }

  /** mapInfo and vRandom are indexes of one another, and the numbers are in a range. */
  ghost predicate PositionsOk(infos: Infos, order: seq<int>, lo: int, hi: int) {
    && (forall id | id in infos :: Positioned(id, infos[id], order, lo, hi))
    && (forall i | 0 <= i < |order| :: order[i] in infos && infos[order[i]].nRandomPos == i)
    && |order| == |infos|
  }

  lemma AppendPosition(infos: Infos, order: seq<int>, lo: int, hi: int, e: Info)
    requires PositionsOk(infos, order, lo, hi) && lo <= hi && e.nRandomPos == |order|
    ensures hi !in infos && PositionsOk(infos[hi := e], order + [hi], lo, hi + 1)
  {
    assert hi in infos ==> Positioned(hi, infos[hi], order, lo, hi);
    forall id | id in infos ensures Positioned(id, infos[id], order + [hi], lo, hi + 1) {
      assert Positioned(id, infos[id], order, lo, hi);
    }
    assert infos[hi := e].Keys == infos.Keys + {hi};
  }

  lemma RestatPosition(infos: Infos, order: seq<int>, lo: int, hi: int, id: int, e: Info)
    requires PositionsOk(infos, order, lo, hi) && id in infos && e.nRandomPos == infos[id].nRandomPos
    ensures PositionsOk(infos[id := e], order, lo, hi)
  {
    assert Positioned(id, infos[id], order, lo, hi);
    assert infos[id := e].Keys == infos.Keys;
  }

  /** The checks made while an entry is dropped succeed, and the positions stay. */
  lemma PrunePosition(infos: Infos, order: seq<int>, lo: int, hi: int, id: int)
    requires PositionsOk(infos, order, lo, hi) && id in infos
    ensures var pos, last := infos[id].nRandomPos, |order| - 1;
            && 0 <= pos <= last && order[pos] == id && order[last] in infos
            && var after := infos[order[last] := infos[order[last]].(nRandomPos := pos)] - {id};
            && PositionsOk(after, order[pos := order[last]][..last], lo, hi)
            && SameButOrder(infos - {id}, after)
  {
    assert Positioned(id, infos[id], order, lo, hi);
    var pos, last := infos[id].nRandomPos, |order| - 1;
    var other, rest := order[last], order[pos := order[last]][..last];
    var after := infos[other := infos[other].(nRandomPos := pos)] - {id};
    assert after.Keys == infos.Keys - {id};
    forall x | x in after ensures Positioned(x, after[x], rest, lo, hi) {
      assert Positioned(x, infos[x], order, lo, hi);
    }
    forall i | 0 <= i < last ensures rest[i] in after && after[rest[i]].nRandomPos == i {
      assert order[i] in infos && infos[order[i]].nRandomPos == i;
    }
  }

  // -------------------------------------------------------------------------- addresses

  /** Each address leads to the last entry about it, but those in `lost` lead nowhere. */
  ghost predicate LastOnes(infos: Infos, addrs: map<NetAddr, int>, lost: set<NetAddr>) {
    && (forall a | a in addrs :: a !in lost && addrs[a] in infos && infos[addrs[a]].svc.addr == a)
    && (forall id | id in infos :: LastOne(id, infos[id].svc.addr, addrs, lost))
  }

  ghost predicate LastOne(id: int, a: NetAddr, addrs: map<NetAddr, int>, lost: set<NetAddr>) {
    a in lost || (a in addrs && id <= addrs[a])
  }

  /** No entry is about an address in `lost`, or about the same one as another. */
  ghost predicate Unshared(infos: Infos, lost: set<NetAddr>) {
    forall id | id in infos ::
      infos[id].svc.addr !in lost && forall j | j in infos && j != id :: infos[j].svc.addr != infos[id].svc.addr
  }

  /** The addresses of those of the file's new entries that are not there. */
  ghost function Lost(entries: seq<Saved>, news: int, infos: Infos): set<NetAddr> {
    set j | 0 <= j < news && j < |entries| && j !in infos :: entries[j].svc.addr
  }

  /** The index of addresses is right exactly if no entry shares its address. */
  lemma IndexedIfUnshared(infos: Infos, addrs: map<NetAddr, int>, order: seq<int>, hi: int, lost: set<NetAddr>)
    requires PositionsOk(infos, order, 0, hi) && LastOnes(infos, addrs, lost)
    ensures IndexOk(infos, addrs, order, hi) <==> Unshared(infos, lost)
  {
    if IndexOk(infos, addrs, order, hi) {
      forall id | id in infos ensures infos[id].svc.addr !in lost {
        assert EntryIndexed(id, infos[id], addrs, order, hi);
      }
      forall id, j | id in infos && j in infos && j != id ensures infos[j].svc.addr != infos[id].svc.addr {
        assert EntryIndexed(id, infos[id], addrs, order, hi) && EntryIndexed(j, infos[j], addrs, order, hi);
      }
    }
    if Unshared(infos, lost) {
      forall id | id in infos ensures EntryIndexed(id, infos[id], addrs, order, hi) {
        assert Positioned(id, infos[id], order, 0, hi) && LastOne(id, infos[id].svc.addr, addrs, lost);
      }
    }
  }

  lemma AppendLast(infos: Infos, addrs: map<NetAddr, int>, order: seq<int>, hi: int, e: Info)
    requires PositionsOk(infos, order, 0, hi) && LastOnes(infos, addrs, {})
    ensures LastOnes(infos[hi := e], addrs[e.svc.addr := hi], {})
  {
    var after, addrs' := infos[hi := e], addrs[e.svc.addr := hi];
    assert hi in infos ==> Positioned(hi, infos[hi], order, 0, hi);
    forall id | id in after ensures LastOne(id, after[id].svc.addr, addrs', {}) {
      if id in infos {
        assert Positioned(id, infos[id], order, 0, hi) && LastOne(id, infos[id].svc.addr, addrs, {});
      }
    }
  }

  lemma RestatLast(infos: Infos, addrs: map<NetAddr, int>, lost: set<NetAddr>, id: int, e: Info)
    requires LastOnes(infos, addrs, lost) && id in infos && e.svc == infos[id].svc
    ensures LastOnes(infos[id := e], addrs, lost)
  {
  }

  lemma PruneLast(infos: Infos, addrs: map<NetAddr, int>, lost: set<NetAddr>, id: int, after: Infos)
    requires LastOnes(infos, addrs, lost) && id in infos && SameButOrder(infos - {id}, after)
    ensures LastOnes(after, addrs - {infos[id].svc.addr}, lost + {infos[id].svc.addr})
  {
    forall x | x in after ensures x in infos && after[x].svc == infos[x].svc {
      assert Core((infos - {id})[x]) == Core(after[x]);
    }
    forall x | x in after
      ensures LastOne(x, after[x].svc.addr, addrs - {infos[id].svc.addr}, lost + {infos[id].svc.addr})
    {
      assert LastOne(x, infos[x].svc.addr, addrs, lost);
    }
  }

  lemma LostMore(entries: seq<Saved>, news: nat, read: nat, infos: Infos, id: int, after: Infos)
    requires news <= read <= |entries| && AllFromFile(entries, news, read, infos)
    requires id in infos && !infos[id].fInTried && SameButOrder(infos - {id}, after)
    ensures Lost(entries, news, after) == Lost(entries, news, infos) + {infos[id].svc.addr}
  {
    assert FromFile(entries, news, read, id, infos[id]);
    assert forall j :: j in after <==> j in infos && j != id;
  }

  // -------------------------------------------------------------------- the tried slots

  ghost function TriedSlot(h: Hashes, s: Service): (nat, nat) {
    (h.TriedBucket(s), h.Position(false, h.TriedBucket(s), s))
  }

  /** Of the file's tried entries, the j-th is the first for its slot. */
  ghost predicate First(entries: seq<Saved>, news: nat, j: nat, h: Hashes)
    requires news <= j < |entries|
  {
    forall i | news <= i < j :: TriedSlot(h, entries[i].svc) != TriedSlot(h, entries[j].svc)
  }

  /** The slot of a tried entry holds it. */
  ghost predicate Holds(infos: Infos, vvTried: Table, h: Hashes, s: Saved)
    requires Shaped(vvTried, TRIED_BUCKET_COUNT)
  {
    var (b, p) := TriedSlot(h, s.svc);
    vvTried[b][p] in infos && infos[vvTried[b][p]].fInTried && Tells(s, infos[vvTried[b][p]])
  }

  /** Each tried slot holds the first entry for it. */
  ghost predicate FirstComers(entries: seq<Saved>, news: nat, read: nat, infos: Infos, vvTried: Table, h: Hashes)
    requires read <= |entries|
  {
    && Shaped(vvTried, TRIED_BUCKET_COUNT)
    && forall j | news <= j < read && First(entries, news, j, h) :: Holds(infos, vvTried, h, entries[j])
  }

  lemma FirstStill(entries: seq<Saved>, news: nat, read: nat, infos: Infos, after: Infos, vvTried: Table, h: Hashes)
    requires read <= |entries| && FirstComers(entries, news, read, infos, vvTried, h)
    requires forall id | id in infos && infos[id].fInTried ::
               id in after && after[id].fInTried && Alike(after[id], infos[id])
    ensures FirstComers(entries, news, read, after, vvTried, h)
  {
    forall j | news <= j < read && First(entries, news, j, h) ensures Holds(after, vvTried, h, entries[j]) {
      assert Holds(infos, vvTried, h, entries[j]);
      var (b, p) := TriedSlot(h, entries[j].svc);
      var id := vvTried[b][p];
      assert id in infos && infos[id].fInTried;
    }
  }

  lemma FirstTaken(entries: seq<Saved>, news: nat, read: nat, infos: Infos, vvTried: Table, h: Hashes, k: int, e: Info)
    requires news <= read < |entries| && FirstComers(entries, news, read, infos, vvTried, h) && -1 !in infos
    requires k !in infos && e.fInTried && Tells(entries[read], e)
    requires var (b, p) := TriedSlot(h, e.svc); vvTried[b][p] == -1
    ensures var (b, p) := TriedSlot(h, e.svc);
            FirstComers(entries, news, read + 1, infos[k := e], Put(vvTried, b, p, k), h)
  {
    var (b, p) := TriedSlot(h, e.svc);
    forall j | news <= j < read + 1 && First(entries, news, j, h)
      ensures Holds(infos[k := e], Put(vvTried, b, p, k), h, entries[j])
    {
      if j < read {
        assert Holds(infos, vvTried, h, entries[j]);
      }
    }
  }

  /** Who holds a tried slot came earlier in the file. */
  lemma TakenBefore(entries: seq<Saved>, news: nat, read: nat, infos: Infos, vvNew: Table, vvTried: Table, h: Hashes,
                    ex: set<int>, b: nat, p: nat) returns (i: nat)
    requires read <= |entries| && TablesOk(infos, vvNew, vvTried, h, ex) && AllFromFile(entries, news, read, infos)
    requires b < TRIED_BUCKET_COUNT && p < BUCKET_SIZE && vvTried[b][p] != -1
    ensures news <= i < read && TriedSlot(h, entries[i].svc) == (b, p)
  {
    hide EntryPlaced, NewSlotOk, Hashes.TriedBucket, Hashes.Position;
    var id := vvTried[b][p];
    assert TriedSlotOk(infos, h, b, p, id);
    assert FromFile(entries, news, read, id, infos[id]);
    i :| news <= i < read && Tells(entries[i], infos[id]);
  }

  lemma FirstSkipped(entries: seq<Saved>, news: nat, read: nat, infos: Infos, vvNew: Table, vvTried: Table, h: Hashes,
                     ex: set<int>)
    requires news <= read < |entries| && FirstComers(entries, news, read, infos, vvTried, h)
    requires TablesOk(infos, vvNew, vvTried, h, ex) && AllFromFile(entries, news, read, infos)
    requires var (b, p) := TriedSlot(h, entries[read].svc); vvTried[b][p] != -1
    ensures FirstComers(entries, news, read + 1, infos, vvTried, h)
  {
    hide TablesOk, AllFromFile, FirstComers, First;
    var (b, p) := TriedSlot(h, entries[read].svc);
    var i := TakenBefore(entries, news, read, infos, vvNew, vvTried, h, ex, b, p);
    NotFirst(entries, news, i, read, h);
    NoneMore(entries, news, read, infos, vvTried, h);
  }

  lemma NotFirst(entries: seq<Saved>, news: nat, i: nat, j: nat, h: Hashes)
    requires news <= i < j < |entries| && TriedSlot(h, entries[i].svc) == TriedSlot(h, entries[j].svc)
    ensures !First(entries, news, j, h)
  {
    hide TriedSlot;
  }

  lemma NoneMore(entries: seq<Saved>, news: nat, read: nat, infos: Infos, vvTried: Table, h: Hashes)
    requires read < |entries| && FirstComers(entries, news, read, infos, vvTried, h)
    requires news <= read ==> !First(entries, news, read, h)
    ensures FirstComers(entries, news, read + 1, infos, vvTried, h)
  {
    hide First, Holds;
  }

  // ---------------------------------------------------------------------------- reading

  /** The state once `read` entries have been read, `k` of which were kept. */
  ghost predicate Sound(entries: seq<Saved>, news: nat, read: nat, infos: Infos, addrs: map<NetAddr, int>,
                        vvNew: Table, vvTried: Table, h: Hashes, k: nat)
    requires read <= |entries|
  {
    && Shaped(vvNew, NEW_BUCKET_COUNT) && Shaped(vvTried, TRIED_BUCKET_COUNT)
    && TablesOk(infos, vvNew, vvTried, h, Below(news)) && LastOnes(infos, addrs, {})
    && AllFromFile(entries, news, read, infos) && FirstComers(entries, news, read, infos, vvTried, h)
    && NewsThere(infos, Min(read, news))
    && |NewIds(infos)| == Min(read, news) && |TriedIds(infos)| == k - Min(read, news)
  }

  lemma SoundStart(entries: seq<Saved>, news: nat, vvNew: Table, vvTried: Table, h: Hashes)
    requires EmptyTable(vvNew, NEW_BUCKET_COUNT) && EmptyTable(vvTried, TRIED_BUCKET_COUNT)
    ensures Sound(entries, news, 0, map[], map[], vvNew, vvTried, h, 0)
  {
  }

  lemma FromFileLater(entries: seq<Saved>, news: nat, read: nat, infos: Infos)
    requires read < |entries| && AllFromFile(entries, news, read, infos)
    ensures AllFromFile(entries, news, read + 1, infos)
  {
    forall id | id in infos ensures FromFile(entries, news, read + 1, id, infos[id]) {
      assert FromFile(entries, news, read, id, infos[id]);
    }
  }

  /** The entry that has just been read joins the others. */
  lemma FromFileAlso(entries: seq<Saved>, news: nat, read: nat, infos: Infos, id: int, e: Info)
    requires read < |entries| && AllFromFile(entries, news, read, infos)
    requires e == Load(entries[read]).(nRandomPos := e.nRandomPos, fInTried := read >= news)
    requires read < news ==> id == read
    ensures AllFromFile(entries, news, read + 1, infos[id := e])
  {
    FromFileLater(entries, news, read, infos);
    assert FromFile(entries, news, read + 1, id, e);
    hide FromFile;
  }

  lemma FromFileRestat(entries: seq<Saved>, news: nat, read: nat, infos: Infos, id: int, n: int)
    requires read <= |entries| && AllFromFile(entries, news, read, infos) && id in infos
    ensures AllFromFile(entries, news, read, infos[id := infos[id].(nRefCount := n)])
  {
    assert FromFile(entries, news, read, id, infos[id]);
  }

  lemma LooserTables(infos: Infos, vvNew: Table, vvTried: Table, h: Hashes, ex: set<int>, ex': set<int>)
    requires TablesOk(infos, vvNew, vvTried, h, ex) && ex <= ex'
    ensures TablesOk(infos, vvNew, vvTried, h, ex')
  {
    forall x | x in infos ensures EntryPlaced(x, infos[x], vvNew, vvTried, h, ex') {
      assert EntryPlaced(x, infos[x], vvNew, vvTried, h, ex);
    }
  }

  /** The next entry of the new table, not yet in a bucket. */
  lemma NewRead(entries: seq<Saved>, news: nat, n: nat, infos: Infos, addrs: map<NetAddr, int>, order: seq<int>,
                vvNew: Table, vvTried: Table, h: Hashes)
    requires n < news <= |entries| && PositionsOk(infos, order, 0, n)
    requires Sound(entries, news, n, infos, addrs, vvNew, vvTried, h, n)
    ensures var e := Load(entries[n]).(nRandomPos := |order|);
            Sound(entries, news, n + 1, infos[n := e], addrs[e.svc.addr := n], vvNew, vvTried, h, n + 1)
  {
    hide TablesOk, NewIds, TriedIds, LastOnes, AllFromFile, NewsThere, PositionsOk, FirstComers;
    var e := Load(entries[n]).(nRandomPos := |order|);
    AppendPosition(infos, order, 0, n, e);
    AppendLast(infos, addrs, order, n, e);
    InsertEntry(infos, vvNew, vvTried, h, Below(news), n, e);
    LooserTables(infos[n := e], vvNew, vvTried, h, Below(news) + {n}, Below(news));
    NewsGrow(infos, n, e);
    FromFileAlso(entries, news, n, infos, n, e);
    FirstStill(entries, news, n, infos, infos[n := e], vvTried, h);
    NoneMore(entries, news, n, infos[n := e], vvTried, h);
  }

  lemma NewsGrow(infos: Infos, n: nat, e: Info)
    requires NewsThere(infos, n) && !e.fInTried
    ensures NewsThere(infos[n := e], n + 1)
  {
  }

  lemma NewsKnown(infos: Infos, n: nat, id: int)
    requires NewsThere(infos, n) && 0 <= id < n
    ensures id in infos && !infos[id].fInTried
  {
  }

  lemma NewsStillThere(infos: Infos, n: nat, id: int, e: Info)
    requires NewsThere(infos, n) && (id !in infos || e.fInTried == infos[id].fInTried)
    ensures NewsThere(infos[id := e], n)
  {
  }

  /** The next entry of the tried table, if its slot is free. */
  lemma TriedRead(entries: seq<Saved>, news: nat, read: nat, infos: Infos, addrs: map<NetAddr, int>, order: seq<int>,
                  vvNew: Table, vvTried: Table, h: Hashes, k: nat)
    requires news <= read < |entries| && PositionsOk(infos, order, 0, k)
    requires Sound(entries, news, read, infos, addrs, vvNew, vvTried, h, k)
    requires var b := h.TriedBucket(entries[read].svc); vvTried[b][h.Position(false, b, entries[read].svc)] == -1
    ensures var e := Load(entries[read]).(nRandomPos := |order|, fInTried := true);
            var b := h.TriedBucket(e.svc);
            Sound(entries, news, read + 1, infos[k := e], addrs[e.svc.addr := k], vvNew,
                  Put(vvTried, b, h.Position(false, b, e.svc), k), h, k + 1)
  {
    hide TablesOk, NewIds, TriedIds, LastOnes, AllFromFile, Put, NewsThere, PositionsOk, FirstComers;
    var e0 := Load(entries[read]).(nRandomPos := |order|);
    var e := e0.(fInTried := true);
    AppendPosition(infos, order, 0, k, e);
    AppendLast(infos, addrs, order, k, e);
    InsertEntry(infos, vvNew, vvTried, h, Below(news), k, e0);
    assert infos[k := e0][k := e] == infos[k := e];
    Promote(infos[k := e0], vvNew, vvTried, h, Below(news) + {k}, k);
    var b := h.TriedBucket(e.svc);
    var tried := Put(vvTried, b, h.Position(false, b, e.svc), k);
    LooserTables(infos[k := e], vvNew, tried, h, Below(news) + {k} - {k}, Below(news));
    FromFileAlso(entries, news, read, infos, k, e);
    NewsStillThere(infos, news, k, e);
    NoneNegative(infos, order, k);
    FirstTaken(entries, news, read, infos, vvTried, h, k, e);
  }

  /** An entry of the tried table whose slot is taken is passed over. */
  lemma TriedSkipped(entries: seq<Saved>, news: nat, read: nat, infos: Infos, addrs: map<NetAddr, int>,
                     vvNew: Table, vvTried: Table, h: Hashes, k: nat)
    requires news <= read < |entries| && Sound(entries, news, read, infos, addrs, vvNew, vvTried, h, k)
    requires var b := h.TriedBucket(entries[read].svc); vvTried[b][h.Position(false, b, entries[read].svc)] != -1
    ensures Sound(entries, news, read + 1, infos, addrs, vvNew, vvTried, h, k)
  {
    hide TablesOk, NewIds, TriedIds, LastOnes, AllFromFile, NewsThere, FirstComers;
    FirstSkipped(entries, news, read, infos, vvNew, vvTried, h, Below(news));
    FromFileLater(entries, news, read, infos);
  }

  /** An entry of the new table gets a free slot that is its own. */
  lemma SlotRead(entries: seq<Saved>, news: nat, read: nat, infos: Infos, addrs: map<NetAddr, int>,
                 vvNew: Table, vvTried: Table, h: Hashes, k: nat, b: nat, id: int)
    requires read <= |entries| && Sound(entries, news, read, infos, addrs, vvNew, vvTried, h, k)
    requires b < NEW_BUCKET_COUNT && 0 <= id < news && id < read && id in infos
    requires infos[id].nRefCount < NEW_BUCKETS_PER_ADDRESS && vvNew[b][h.Position(true, b, infos[id].svc)] == -1
    ensures Sound(entries, news, read, infos[id := infos[id].(nRefCount := infos[id].nRefCount + 1)], addrs,
                  Put(vvNew, b, h.Position(true, b, infos[id].svc), id), vvTried, h, k)
  {
    NewsKnown(infos, Min(read, news), id);
    hide TablesOk, NewIds, TriedIds, LastOnes, AllFromFile, Put, NewsThere, FirstComers;
    var e := infos[id].(nRefCount := infos[id].nRefCount + 1);
    FillSlot(infos, vvNew, vvTried, h, Below(news), b, id);
    RestatLast(infos, addrs, {}, id, e);
    var untried := Put(vvNew, b, h.Position(true, b, e.svc), id);
    LooserTables(infos[id := e], untried, vvTried, h, Below(news) - {id}, Below(news));
    FromFileRestat(entries, news, read, infos, id, e.nRefCount);
    FirstStill(entries, news, read, infos, infos[id := e], vvTried, h);
    NewsStillThere(infos, Min(read, news), id, e);
  }

  // ------------------------------------------------------------------------------- pruning

  /** Every entry with a number below n is tried or referenced. */
  ghost predicate SettledBelow(infos: Infos, n: int) {
    forall id | id in infos && id < n :: infos[id].fInTried || infos[id].nRefCount != 0
  }

  lemma NoneNegative(infos: Infos, order: seq<int>, hi: int)
    requires PositionsOk(infos, order, 0, hi)
    ensures SettledBelow(infos, 0) && -1 !in infos
  {
    assert forall id | id in infos :: Positioned(id, infos[id], order, 0, hi);
  }

  lemma AllSettled(infos: Infos, order: seq<int>, hi: int, n: int)
    requires PositionsOk(infos, order, 0, hi) && hi <= n && SettledBelow(infos, n)
    ensures forall id | id in infos :: infos[id].fInTried || infos[id].nRefCount != 0
  {
    assert forall id | id in infos :: Positioned(id, infos[id], order, 0, hi);
  }

  lemma SettledStill(infos: Infos, after: Infos, id: int)
    requires SettledBelow(infos, id) && SameButOrder(infos - {id}, after)
    ensures SettledBelow(after, id + 1)
  {
    forall x | x in after && x < id + 1 ensures after[x].fInTried || after[x].nRefCount != 0 {
      assert x in infos - {id} && Core((infos - {id})[x]) == Core(after[x]);
    }
  }

  /** The state when everything has been read, with n new and t tried entries left. */
  ghost predicate Pruning(entries: seq<Saved>, news: nat, read: nat, infos: Infos, addrs: map<NetAddr, int>,
                          vvNew: Table, vvTried: Table, h: Hashes, ex: set<int>, n: int, t: int)
    requires read <= |entries|
  {
    && TablesOk(infos, vvNew, vvTried, h, ex) && LastOnes(infos, addrs, Lost(entries, news, infos))
    && AllFromFile(entries, news, read, infos) && FirstComers(entries, news, read, infos, vvTried, h)
    && |NewIds(infos)| == n && |TriedIds(infos)| == t
  }

  lemma PruningStarts(entries: seq<Saved>, news: nat, read: nat, infos: Infos, addrs: map<NetAddr, int>,
                      vvNew: Table, vvTried: Table, h: Hashes, k: nat)
    requires news <= read <= |entries| && Sound(entries, news, read, infos, addrs, vvNew, vvTried, h, k)
    ensures Pruning(entries, news, read, infos, addrs, vvNew, vvTried, h, Below(news), news, k - news)
  {
    hide TablesOk, NewIds, TriedIds, LastOnes, AllFromFile, FirstComers;
    assert Lost(entries, news, infos) == {};
  }

  /** An entry without references is dropped. */
  lemma PruneKeeps(entries: seq<Saved>, news: nat, read: nat, infos: Infos, addrs: map<NetAddr, int>,
                   vvNew: Table, vvTried: Table, h: Hashes, ex: set<int>, n: int, t: int, id: int, after: Infos)
    requires news <= read <= |entries|
    requires Pruning(entries, news, read, infos, addrs, vvNew, vvTried, h, ex, n, t)
    requires id in infos && !infos[id].fInTried && infos[id].nRefCount == 0 && SameButOrder(infos - {id}, after)
    ensures Pruning(entries, news, read, after, addrs - {infos[id].svc.addr}, vvNew, vvTried, h, ex, n - 1, t)
  {
    TriedKept(infos, id, after);
    hide TablesOk, NewIds, TriedIds, LastOnes, AllFromFile, FirstComers, SameButOrder, Lost;
    DropEntry(infos, vvNew, vvTried, h, ex, id);
    ReorderKeepsTables(infos - {id}, after, vvNew, vvTried, h, ex - {id});
    LooserTables(after, vvNew, vvTried, h, ex - {id}, ex);
    PruneLast(infos, addrs, Lost(entries, news, infos), id, after);
    LostMore(entries, news, read, infos, id, after);
    FromFileStill(entries, news, read, infos, after, id);
    FirstStill(entries, news, read, infos, after, vvTried, h);
  }

  lemma TriedKept(infos: Infos, id: int, after: Infos)
    requires id in infos && !infos[id].fInTried && SameButOrder(infos - {id}, after)
    ensures forall x | x in infos && infos[x].fInTried ::
              x in after && after[x].fInTried && Alike(after[x], infos[x])
  {
    forall x | x in infos && infos[x].fInTried
      ensures x in after && after[x].fInTried && Alike(after[x], infos[x])
    {
      assert x in infos - {id} && Core((infos - {id})[x]) == Core(after[x]);
    }
  }

  /** Once every entry has a place, no exemption is needed. */
  lemma Settled(infos: Infos, vvNew: Table, vvTried: Table, h: Hashes, ex: set<int>)
    requires TablesOk(infos, vvNew, vvTried, h, ex)
    requires forall id | id in infos :: infos[id].fInTried || infos[id].nRefCount != 0
    ensures TablesOk(infos, vvNew, vvTried, h, {})
  {
    forall x | x in infos ensures EntryPlaced(x, infos[x], vvNew, vvTried, h, {}) {
      assert EntryPlaced(x, infos[x], vvNew, vvTried, h, ex);
    }
  }

  lemma PruningEnds(entries: seq<Saved>, news: nat, read: nat, infos: Infos, addrs: map<NetAddr, int>,
                    vvNew: Table, vvTried: Table, h: Hashes, ex: set<int>, n: int, t: int)
    requires read <= |entries| && Pruning(entries, news, read, infos, addrs, vvNew, vvTried, h, ex, n, t)
    requires forall id | id in infos :: infos[id].fInTried || infos[id].nRefCount != 0
    ensures Pruning(entries, news, read, infos, addrs, vvNew, vvTried, h, {}, n, t)
  {
    hide TablesOk, LastOnes, AllFromFile, FirstComers, NewIds, TriedIds, Lost;
    Settled(infos, vvNew, vvTried, h, ex);
  }

  /** Dropping and reordering entries invents none. */
  lemma FromFileStill(entries: seq<Saved>, news: nat, read: nat, infos: Infos, after: Infos, id: int)
    requires read <= |entries| && AllFromFile(entries, news, read, infos) && SameButOrder(infos - {id}, after)
    ensures AllFromFile(entries, news, read, after)
  {
    forall x | x in after ensures FromFile(entries, news, read, x, after[x]) {
      assert x in infos - {id} && Core((infos - {id})[x]) == Core(after[x]);
      assert FromFile(entries, news, read, x, infos[x]);
    }
  }

  // -------------------------------------------------------------------------- the result

  /** A file without repeated addresses leaves none. */
  lemma DistinctUnshared(entries: seq<Saved>, news: nat, read: nat, infos: Infos, vvNew: Table, vvTried: Table,
                         h: Hashes, ex: set<int>)
    requires news <= read <= |entries| && Distinct(entries, read)
    requires AllFromFile(entries, news, read, infos) && TablesOk(infos, vvNew, vvTried, h, ex)
    ensures Unshared(infos, Lost(entries, news, infos))
  {
    hide AllFromFile, TablesOk;
    forall id | id in infos
      ensures infos[id].svc.addr !in Lost(entries, news, infos)
      ensures forall j | j in infos && j != id :: infos[j].svc.addr != infos[id].svc.addr
    {
      var i := Source(entries, news, read, infos, id);
      forall j | j in infos && j != id ensures infos[j].svc.addr != infos[id].svc.addr {
        SourcesDiffer(entries, news, read, infos, vvNew, vvTried, h, ex, id, j);
      }
    }
  }

  lemma SourcesDiffer(entries: seq<Saved>, news: nat, read: nat, infos: Infos, vvNew: Table, vvTried: Table,
                      h: Hashes, ex: set<int>, id: int, j: int)
    requires read <= |entries| && Distinct(entries, read) && id in infos && j in infos && id != j
    requires AllFromFile(entries, news, read, infos) && TablesOk(infos, vvNew, vvTried, h, ex)
    ensures infos[j].svc.addr != infos[id].svc.addr
  {
    hide AllFromFile, Slots;
    var i := Source(entries, news, read, infos, id);
    var i' := Source(entries, news, read, infos, j);
    assert EntryPlaced(id, infos[id], vvNew, vvTried, h, ex) && EntryPlaced(j, infos[j], vvNew, vvTried, h, ex);
  }

  /** The place of an entry in the file. */
  lemma Source(entries: seq<Saved>, news: nat, read: nat, infos: Infos, id: int) returns (i: nat)
    requires read <= |entries| && AllFromFile(entries, news, read, infos) && id in infos
    ensures i < read && Tells(entries[i], infos[id])
    ensures if infos[id].fInTried then news <= i else i == id < news
  {
    assert FromFile(entries, news, read, id, infos[id]);
    if infos[id].fInTried {
      i :| news <= i < read && Tells(entries[i], infos[id]);
    } else {
      i := id;
    }
  }

  /** Two tried entries about one address that both get their slot spoil the index. */
  lemma TwoPortsShare(entries: seq<Saved>, news: nat, read: nat, infos: Infos, vvTried: Table, h: Hashes,
                      lost: set<NetAddr>, i: nat, j: nat)
    requires news <= i < j < read <= |entries| && FirstComers(entries, news, read, infos, vvTried, h)
    requires First(entries, news, i, h) && First(entries, news, j, h) && entries[i].svc.addr == entries[j].svc.addr
    ensures !Unshared(infos, lost)
  {
    assert Holds(infos, vvTried, h, entries[i]) && Holds(infos, vvTried, h, entries[j]);
    var (b, p) := TriedSlot(h, entries[i].svc);
    var (c, q) := TriedSlot(h, entries[j].svc);
    assert vvTried[b][p] != vvTried[c][q];
  }
}
