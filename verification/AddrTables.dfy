/** The entries of the address manager and what its redundant tables promise
    about one another. */
module AddrTables {
  import opened FiniteSets

  const TRIED_BUCKET_COUNT := 256
  const NEW_BUCKET_COUNT := 1024
  const BUCKET_SIZE := 64
  const NEW_BUCKETS_PER_ADDRESS := 8
  const HORIZON_DAYS := 30
  const RETRIES := 3
  const MAX_FAILURES := 10
  const MIN_FAIL_DAYS := 7

  function Max0(x: int): nat { if x > 0 then x else 0 }

  function Min(a: nat, b: nat): nat { if a < b then a else b }

  /** A network address without its port. */
  type NetAddr = nat

  /** Address and port. */
  datatype Service = Service(addr: NetAddr, port: nat)

  /** Service flags: the numbers of the bits that are set. */
  type Services = set<nat>

  /** What peers announce: a service, its service bits and when it was last seen. */
  datatype Address = Address(svc: Service, nServices: Services, nTime: nat)

  datatype Info = Info(
    svc: Service, nServices: Services, nTime: int, source: NetAddr,
    nLastTry: int, nLastCountAttempt: int, nLastSuccess: int, nAttempts: int,
    nRefCount: int, fInTried: bool, nRandomPos: int)
  {
    /** Whether the statistics are bad enough for the entry to be dropped. */
    predicate IsTerrible(nNow: int) {
      if nLastTry != 0 && nLastTry >= nNow - 60 then false
      else if nTime > nNow + 10 * 60 then true
      else if nTime == 0 || nNow - nTime > HORIZON_DAYS * 24 * 60 * 60 then true
      else if nLastSuccess == 0 && nAttempts >= RETRIES then true
      else nNow - nLastSuccess > MIN_FAIL_DAYS * 24 * 60 * 60 && nAttempts >= MAX_FAILURES
    }
  }

  function NewInfo(addr: Address, source: NetAddr): Info {
    Info(addr.svc, addr.nServices, addr.nTime, source, 0, 0, 0, 0, 0, false, -1)
  }

  /** The keyed hashes that place entries, whatever they are. */
  datatype Hashes = Hashes(
    tried: (nat, Service) -> nat,
    untried: (nat, NetAddr, NetAddr) -> nat,
    position: (nat, bool, nat, Service) -> nat,
    key: nat)
  {
    function TriedBucket(s: Service): (b: nat)
      ensures b < TRIED_BUCKET_COUNT
    {
      tried(key, s) % TRIED_BUCKET_COUNT
    }

    function NewBucket(s: Service, source: NetAddr): (b: nat)
      ensures b < NEW_BUCKET_COUNT
    {
      untried(key, s.addr, source) % NEW_BUCKET_COUNT
    }

    function Position(fNew: bool, bucket: nat, s: Service): (p: nat)
      ensures p < BUCKET_SIZE
    {
      position(key, fNew, bucket, s) % BUCKET_SIZE
    }
  }

  type Infos = map<int, Info>

  /** A table of buckets; -1 marks an empty slot. */
  type Table = seq<seq<int>>

  predicate Shaped(t: Table, buckets: nat) {
    |t| == buckets && forall b | 0 <= b < |t| :: |t[b]| == BUCKET_SIZE
  }

  ghost predicate EmptyTable(t: Table, buckets: nat) {
    Shaped(t, buckets) && forall b, p | 0 <= b < buckets && 0 <= p < BUCKET_SIZE :: t[b][p] == -1
  }

  function Put(t: Table, b: nat, p: nat, v: int): (u: Table)
    requires b < |t| && |t[b]| == BUCKET_SIZE && p < BUCKET_SIZE
    ensures |u| == |t| && forall c | 0 <= c < |t| :: |u[c]| == |t[c]|
    ensures forall c, q | 0 <= c < |t| && 0 <= q < |t[c]| :: u[c][q] == if c == b && q == p then v else t[c][q]
  {
    t[b := t[b][p := v]]
  }

  lemma PutPut(t: Table, b: nat, p: nat, v: int, w: int)
    requires b < |t| && |t[b]| == BUCKET_SIZE && p < BUCKET_SIZE
    ensures Put(Put(t, b, p, v), b, p, w) == Put(t, b, p, w)
  {
    assert t[b][p := v][p := w] == t[b][p := w];
  }

  // ---------------------------------------------------------------- indexes

  /** Each entry is found by its address and by its position. */
  ghost predicate EntryIndexed(id: int, e: Info, addrs: map<NetAddr, int>, order: seq<int>, nIdCount: int) {
    && 0 <= id < nIdCount
    && e.svc.addr in addrs && addrs[e.svc.addr] == id
    && 0 <= e.nRandomPos < |order| && order[e.nRandomPos] == id
  }

  /** mapAddr, mapInfo and vRandom are indexes of one another. */
  ghost predicate IndexOk(infos: Infos, addrs: map<NetAddr, int>, order: seq<int>, nIdCount: int) {
    && (forall id | id in infos :: EntryIndexed(id, infos[id], addrs, order, nIdCount))
    && (forall a | a in addrs :: addrs[a] in infos && infos[addrs[a]].svc.addr == a)
    && (forall i | 0 <= i < |order| :: order[i] in infos && infos[order[i]].nRandomPos == i)
    && |order| == |infos|
  }

  // ----------------------------------------------------------------- tables

  /** The buckets in which an entry for `s` numbered `id` sits in the new table. */
  ghost function Slots(t: Table, h: Hashes, s: Service, id: int): set<int>
    requires Shaped(t, NEW_BUCKET_COUNT)
  {
    set b | 0 <= b < NEW_BUCKET_COUNT && t[b][h.Position(true, b, s)] == id
  }

  /** What the tables owe one entry. Entries in `ex` are on their way between
      tables and may be referenced from nowhere. */
  ghost predicate EntryPlaced(id: int, e: Info, untried: Table, tried: Table, h: Hashes, ex: set<int>)
    requires Shaped(untried, NEW_BUCKET_COUNT) && Shaped(tried, TRIED_BUCKET_COUNT)
  {
    if e.fInTried then
      && e.nRefCount == 0
      && var b := h.TriedBucket(e.svc); tried[b][h.Position(false, b, e.svc)] == id
    else
      && e.nRefCount == |Slots(untried, h, e.svc, id)| <= NEW_BUCKETS_PER_ADDRESS
      && (id !in ex ==> e.nRefCount >= 1)
  }

  ghost predicate NewSlotOk(infos: Infos, h: Hashes, b: nat, p: nat, id: int) {
    id in infos && !infos[id].fInTried && h.Position(true, b, infos[id].svc) == p
  }

  ghost predicate TriedSlotOk(infos: Infos, h: Hashes, b: nat, p: nat, id: int) {
    && id in infos && infos[id].fInTried
    && h.TriedBucket(infos[id].svc) == b && h.Position(false, b, infos[id].svc) == p
  }

  /** Every entry is placed, and every occupied slot is where its entry belongs. */
  ghost predicate TablesOk(infos: Infos, untried: Table, tried: Table, h: Hashes, ex: set<int>) {
    && Shaped(untried, NEW_BUCKET_COUNT) && Shaped(tried, TRIED_BUCKET_COUNT)
    && (forall id | id in infos :: id >= 0 && EntryPlaced(id, infos[id], untried, tried, h, ex))
    && (forall b, p | 0 <= b < NEW_BUCKET_COUNT && 0 <= p < BUCKET_SIZE && untried[b][p] != -1 ::
          NewSlotOk(infos, h, b, p, untried[b][p]))
    && (forall b, p | 0 <= b < TRIED_BUCKET_COUNT && 0 <= p < BUCKET_SIZE && tried[b][p] != -1 ::
          TriedSlotOk(infos, h, b, p, tried[b][p]))
  }

  // ----------------------------------------------------------------- counts

  ghost function TriedIds(infos: Infos): set<int> { set id | id in infos && infos[id].fInTried }

  ghost function NewIds(infos: Infos): set<int> { set id | id in infos && !infos[id].fInTried }

  /** An entry without its position in vRandom. */
  function Core(e: Info): Info { e.(nRandomPos := 0) }

  /** The same entries, perhaps at other positions of vRandom. */
  ghost predicate SameButOrder(a: Infos, b: Infos) {
    a.Keys == b.Keys && forall id | id in a :: Core(a[id]) == Core(b[id])
  }

  // ------------------------------------------------------------- statistics

  /** What every entry's statistics should satisfy; no table depends on it. */
  predicate SaneStats(e: Info) {
    e.nLastTry >= 0 && e.nLastSuccess >= 0 && (e.fInTried ==> e.nLastSuccess != 0)
  }

  ghost predicate StatsOk(infos: Infos) {
    forall id | id in infos :: SaneStats(infos[id])
  }

  /** What an entry says about its service, apart from its place in the tables. */
  function Data(e: Info): Info { e.(nRefCount := 0, nRandomPos := 0) }

  /** Outside `ex`, the entries that are left say what they said before. */
  ghost predicate Kept(before: Infos, after: Infos, ex: set<int>) {
    forall id | id in after && id !in ex :: id in before && Data(after[id]) == Data(before[id])
  }

  lemma StatsOf(infos: Infos, id: int)
    requires id in infos
    ensures StatsOk(infos) ==> SaneStats(infos[id])
  {
  }

  lemma KeptAt(before: Infos, after: Infos, id: int)
    requires Kept(before, after, {}) && id in after
    ensures id in before && Data(after[id]) == Data(before[id])
  {
  }

  /** Statistics stay sane exactly when those of the changed entries do. */
  lemma KeptStats(before: Infos, after: Infos, ex: set<int>)
    requires StatsOk(before) && Kept(before, after, ex)
    ensures StatsOk(after) <==> forall id | id in ex && id in after :: SaneStats(after[id])
  {
    forall id | id in after && id !in ex ensures SaneStats(after[id]) {
      assert Data(after[id]) == Data(before[id]) && SaneStats(before[id]);
    }
  }

  lemma RefsKept(before: Infos, after: Infos)
    requires after.Keys <= before.Keys
    requires forall id | id in after :: Core(after[id]) == Core(before[id]).(nRefCount := after[id].nRefCount)
    ensures Kept(before, after, {})
  {
    forall id | id in after ensures Data(after[id]) == Data(before[id]) {
      assert Core(after[id]) == Core(before[id]).(nRefCount := after[id].nRefCount);
    }
  }

  lemma ReorderKept(before: Infos, after: Infos)
    requires SameButOrder(before, after)
    ensures Kept(before, after, {})
  {
    forall id | id in after ensures Data(after[id]) == Data(before[id]) {
      assert Core(after[id]) == Core(before[id]);
    }
  }

  // ---------------------------------------------- one step at a time: tables

  /** Statistics and the position in vRandom are no business of the tables. */
  ghost predicate SamePlace(e: Info, f: Info) {
    f.svc == e.svc && f.nRefCount == e.nRefCount && f.fInTried == e.fInTried
  }

  lemma RestatKeepsTables(infos: Infos, after: Infos, untried: Table, tried: Table, h: Hashes, ex: set<int>)
    requires TablesOk(infos, untried, tried, h, ex)
    requires after.Keys == infos.Keys && forall id | id in infos :: SamePlace(infos[id], after[id])
    ensures TablesOk(after, untried, tried, h, ex)
    ensures NewIds(after) == NewIds(infos) && TriedIds(after) == TriedIds(infos)
  {
    assert forall id | id in infos :: after[id].fInTried == infos[id].fInTried;
  }

  lemma ReorderKeepsTables(infos: Infos, after: Infos, untried: Table, tried: Table, h: Hashes, ex: set<int>)
    requires TablesOk(infos, untried, tried, h, ex) && SameButOrder(infos, after)
    ensures TablesOk(after, untried, tried, h, ex)
    ensures NewIds(after) == NewIds(infos) && TriedIds(after) == TriedIds(infos)
  {
    forall id | id in infos ensures SamePlace(infos[id], after[id]) {
      assert Core(infos[id]) == Core(after[id]);
    }
    RestatKeepsTables(infos, after, untried, tried, h, ex);
  }

  lemma PutElsewhere(t: Table, h: Hashes, s: Service, id: int, b: nat, p: nat, v: int)
    requires Shaped(t, NEW_BUCKET_COUNT) && b < NEW_BUCKET_COUNT && p < BUCKET_SIZE
    requires id != v && id != t[b][p]
    ensures Slots(Put(t, b, p, v), h, s, id) == Slots(t, h, s, id)
  {
  }

  lemma ReferencesCounted(infos: Infos, untried: Table, tried: Table, h: Hashes, ex: set<int>, id: int)
    requires TablesOk(infos, untried, tried, h, ex) && id in infos
    ensures 0 <= infos[id].nRefCount <= NEW_BUCKETS_PER_ADDRESS
    ensures !infos[id].fInTried && id !in ex ==> infos[id].nRefCount >= 1
  {
    assert EntryPlaced(id, infos[id], untried, tried, h, ex);
  }

  /** In a bucket, only the slot an entry belongs in can hold it. */
  lemma OnlyOwnSlot(infos: Infos, untried: Table, tried: Table, h: Hashes, ex: set<int>, id: int, b: nat)
    requires TablesOk(infos, untried, tried, h, ex) && id in infos && b < NEW_BUCKET_COUNT
    ensures forall p | 0 <= p < BUCKET_SIZE && untried[b][p] == id :: p == h.Position(true, b, infos[id].svc)
  {
    forall p | 0 <= p < BUCKET_SIZE && untried[b][p] == id ensures p == h.Position(true, b, infos[id].svc) {
      assert id != -1 && NewSlotOk(infos, h, b, p, id);
    }
  }

  /** A new entry has a reference exactly when it is in some bucket. */
  lemma ReferencedSomewhere(infos: Infos, untried: Table, tried: Table, h: Hashes, ex: set<int>, id: int)
    requires TablesOk(infos, untried, tried, h, ex) && id in infos && !infos[id].fInTried
    ensures infos[id].nRefCount > 0 <==> exists b :: b in Slots(untried, h, infos[id].svc, id)
  {
    var slots := Slots(untried, h, infos[id].svc, id);
    assert EntryPlaced(id, infos[id], untried, tried, h, ex);
    if |slots| > 0 {
      assert Any(slots) in slots;
    }
  }

  /** An occupied slot of the new table is a reference. */
  lemma SlotHasReference(infos: Infos, untried: Table, tried: Table, h: Hashes, ex: set<int>, b: nat, p: nat)
    requires TablesOk(infos, untried, tried, h, ex) && b < NEW_BUCKET_COUNT && p < BUCKET_SIZE
    ensures var id := untried[b][p]; id != -1 ==> id in infos && !infos[id].fInTried && infos[id].nRefCount >= 1
  {
    if untried[b][p] != -1 {
      ClearSlot(infos, untried, tried, h, ex, b, p);
    }
  }

  lemma ClearOwn(t: Table, h: Hashes, s: Service, b: nat, id: int)
    requires Shaped(t, NEW_BUCKET_COUNT) && b < NEW_BUCKET_COUNT && id != -1 && t[b][h.Position(true, b, s)] == id
    ensures |Slots(Put(t, b, h.Position(true, b, s), -1), h, s, id)| == |Slots(t, h, s, id)| - 1
  {
    var u := Put(t, b, h.Position(true, b, s), -1);
    assert Slots(u, h, s, id) == Slots(t, h, s, id) - {b};
    assert b in Slots(t, h, s, id);
  }

  /** Emptying a slot of the new table takes one reference off its entry. */
  lemma ClearSlot(infos: Infos, untried: Table, tried: Table, h: Hashes, ex: set<int>, b: nat, p: nat)
    requires TablesOk(infos, untried, tried, h, ex)
    requires b < NEW_BUCKET_COUNT && p < BUCKET_SIZE && untried[b][p] != -1
    ensures var id := untried[b][p];
            && id in infos && !infos[id].fInTried && infos[id].nRefCount > 0
            && var after := infos[id := infos[id].(nRefCount := infos[id].nRefCount - 1)];
            && TablesOk(after, Put(untried, b, p, -1), tried, h, ex + {id})
            && (after[id].nRefCount > 0 ==> TablesOk(after, Put(untried, b, p, -1), tried, h, ex - {id}))
            && NewIds(after) == NewIds(infos) && TriedIds(after) == TriedIds(infos)
  {
    hide Slots;
    var id := untried[b][p];
    assert NewSlotOk(infos, h, b, p, id);
    var e := infos[id];
    var after, t := infos[id := e.(nRefCount := e.nRefCount - 1)], Put(untried, b, p, -1);
    assert EntryPlaced(id, e, untried, tried, h, ex);
    ClearOwn(untried, h, e.svc, b, id);
    forall x | x in after ensures EntryPlaced(x, after[x], t, tried, h, ex + {id}) {
      if x != id {
        assert EntryPlaced(x, infos[x], untried, tried, h, ex);
        PutElsewhere(untried, h, infos[x].svc, x, b, p, -1);
      }
    }
  }

  lemma FillOwn(t: Table, h: Hashes, s: Service, b: nat, id: int)
    requires Shaped(t, NEW_BUCKET_COUNT) && b < NEW_BUCKET_COUNT && id != -1 && t[b][h.Position(true, b, s)] == -1
    ensures |Slots(Put(t, b, h.Position(true, b, s), id), h, s, id)| == |Slots(t, h, s, id)| + 1
  {
    var u := Put(t, b, h.Position(true, b, s), id);
    assert Slots(u, h, s, id) == Slots(t, h, s, id) + {b};
    assert b !in Slots(t, h, s, id);
  }

  /** Filling an empty slot with an entry that belongs there adds one reference. */
  lemma FillSlot(infos: Infos, untried: Table, tried: Table, h: Hashes, ex: set<int>, b: nat, id: int)
    requires TablesOk(infos, untried, tried, h, ex)
    requires b < NEW_BUCKET_COUNT && id in infos && !infos[id].fInTried
    requires infos[id].nRefCount < NEW_BUCKETS_PER_ADDRESS
    requires untried[b][h.Position(true, b, infos[id].svc)] == -1
    ensures TablesOk(infos[id := infos[id].(nRefCount := infos[id].nRefCount + 1)],
                     Put(untried, b, h.Position(true, b, infos[id].svc), id), tried, h, ex - {id})
    ensures NewIds(infos[id := infos[id].(nRefCount := infos[id].nRefCount + 1)]) == NewIds(infos)
    ensures TriedIds(infos[id := infos[id].(nRefCount := infos[id].nRefCount + 1)]) == TriedIds(infos)
  {
    hide Slots;
    var e := infos[id];
    var p := h.Position(true, b, e.svc);
    var after, t := infos[id := e.(nRefCount := e.nRefCount + 1)], Put(untried, b, p, id);
    assert EntryPlaced(id, e, untried, tried, h, ex);
    FillOwn(untried, h, e.svc, b, id);
    forall x | x in after ensures EntryPlaced(x, after[x], t, tried, h, ex - {id}) {
      if x != id {
        assert EntryPlaced(x, infos[x], untried, tried, h, ex);
        PutElsewhere(untried, h, infos[x].svc, x, b, p, id);
      }
    }
    hide EntryPlaced, TriedSlotOk;
  }

  /** The exemption of an entry that is referenced, or of none, means nothing. */
  lemma LooseOnlyIfUsed(infos: Infos, untried: Table, tried: Table, h: Hashes, ex: set<int>, id: int)
    requires TablesOk(infos, untried, tried, h, ex) && (id in infos ==> infos[id].nRefCount >= 1)
    ensures TablesOk(infos, untried, tried, h, ex - {id})
  {
    forall x | x in infos ensures EntryPlaced(x, infos[x], untried, tried, h, ex - {id}) {
      assert EntryPlaced(x, infos[x], untried, tried, h, ex);
    }
  }

  /** An exemption never hurts. */
  lemma LooseAtWill(infos: Infos, untried: Table, tried: Table, h: Hashes, id: int)
    requires TablesOk(infos, untried, tried, h, {})
    ensures TablesOk(infos, untried, tried, h, {id})
  {
    forall x | x in infos ensures EntryPlaced(x, infos[x], untried, tried, h, {id}) {
      assert EntryPlaced(x, infos[x], untried, tried, h, {});
    }
  }

  /** An entry without references can be dropped. */
  lemma DropEntry(infos: Infos, untried: Table, tried: Table, h: Hashes, ex: set<int>, id: int)
    requires TablesOk(infos, untried, tried, h, ex)
    requires id in infos && !infos[id].fInTried && infos[id].nRefCount == 0
    ensures TablesOk(infos - {id}, untried, tried, h, ex - {id})
    ensures NewIds(infos - {id}) == NewIds(infos) - {id} && TriedIds(infos - {id}) == TriedIds(infos)
    ensures id in NewIds(infos)
  {
    assert EntryPlaced(id, infos[id], untried, tried, h, ex);
    assert Slots(untried, h, infos[id].svc, id) == {};
    forall b, p | 0 <= b < NEW_BUCKET_COUNT && 0 <= p < BUCKET_SIZE && untried[b][p] != -1
      ensures NewSlotOk(infos - {id}, h, b, p, untried[b][p])
    {
      assert NewSlotOk(infos, h, b, p, untried[b][p]) && b !in Slots(untried, h, infos[id].svc, id);
    }
    forall x | x in infos - {id} ensures EntryPlaced(x, infos[x], untried, tried, h, ex - {id}) {
      assert EntryPlaced(x, infos[x], untried, tried, h, ex);
    }
  }

  lemma NoSlotsFor(infos: Infos, untried: Table, tried: Table, h: Hashes, ex: set<int>, s: Service, id: int)
    requires TablesOk(infos, untried, tried, h, ex)
    requires id >= 0 && (id !in infos || infos[id].fInTried)
    ensures Slots(untried, h, s, id) == {}
  {
    forall b | 0 <= b < NEW_BUCKET_COUNT ensures untried[b][h.Position(true, b, s)] != id {
      var p := h.Position(true, b, s);
      if untried[b][p] != -1 {
        assert NewSlotOk(infos, h, b, p, untried[b][p]);
      }
    }
  }

  /** A newly created entry is referenced from nowhere. */
  lemma InsertEntry(infos: Infos, untried: Table, tried: Table, h: Hashes, ex: set<int>, id: int, e: Info)
    requires TablesOk(infos, untried, tried, h, ex)
    requires id >= 0 && id !in infos && !e.fInTried && e.nRefCount == 0
    ensures TablesOk(infos[id := e], untried, tried, h, ex + {id})
    ensures NewIds(infos[id := e]) == NewIds(infos) + {id} && TriedIds(infos[id := e]) == TriedIds(infos)
    ensures id !in NewIds(infos)
  {
    NoSlotsFor(infos, untried, tried, h, ex, e.svc, id);
    var after := infos[id := e];
    forall x | x in after ensures EntryPlaced(x, after[x], untried, tried, h, ex + {id}) {
      if x != id {
        assert EntryPlaced(x, infos[x], untried, tried, h, ex);
      }
    }
  }

  /** Taking an entry out of the tried table leaves it referenced from nowhere. */
  lemma Evict(infos: Infos, untried: Table, tried: Table, h: Hashes, ex: set<int>, b: nat, p: nat)
    requires TablesOk(infos, untried, tried, h, ex)
    requires b < TRIED_BUCKET_COUNT && p < BUCKET_SIZE && tried[b][p] != -1
    ensures var id := tried[b][p];
            && id in infos && infos[id].fInTried
            && TablesOk(infos[id := infos[id].(fInTried := false)], untried, Put(tried, b, p, -1), h, ex + {id})
            && NewIds(infos[id := infos[id].(fInTried := false)]) == NewIds(infos) + {id}
            && TriedIds(infos[id := infos[id].(fInTried := false)]) == TriedIds(infos) - {id}
            && id in TriedIds(infos) && id !in NewIds(infos)
  {
    var id := tried[b][p];
    assert TriedSlotOk(infos, h, b, p, id);
    NoSlotsFor(infos, untried, tried, h, ex, infos[id].svc, id);
    var after, t := infos[id := infos[id].(fInTried := false)], Put(tried, b, p, -1);
    forall x | x in after ensures EntryPlaced(x, after[x], untried, t, h, ex + {id}) {
      assert EntryPlaced(x, infos[x], untried, tried, h, ex);
    }
    forall c, q | 0 <= c < TRIED_BUCKET_COUNT && 0 <= q < BUCKET_SIZE && t[c][q] != -1
      ensures TriedSlotOk(after, h, c, q, t[c][q])
    {
      assert TriedSlotOk(infos, h, c, q, tried[c][q]);
    }
    forall c, q | 0 <= c < NEW_BUCKET_COUNT && 0 <= q < BUCKET_SIZE && untried[c][q] != -1
      ensures NewSlotOk(after, h, c, q, untried[c][q])
    {
      assert NewSlotOk(infos, h, c, q, untried[c][q]);
    }
  }

  /** Entering an unreferenced entry into its empty tried slot. */
  lemma Promote(infos: Infos, untried: Table, tried: Table, h: Hashes, ex: set<int>, id: int)
    requires TablesOk(infos, untried, tried, h, ex)
    requires id in infos && !infos[id].fInTried && infos[id].nRefCount == 0
    requires var b := h.TriedBucket(infos[id].svc); tried[b][h.Position(false, b, infos[id].svc)] == -1
    ensures var b := h.TriedBucket(infos[id].svc);
            var entered := Put(tried, b, h.Position(false, b, infos[id].svc), id);
            TablesOk(infos[id := infos[id].(fInTried := true)], untried, entered, h, ex - {id})
    ensures NewIds(infos[id := infos[id].(fInTried := true)]) == NewIds(infos) - {id}
    ensures TriedIds(infos[id := infos[id].(fInTried := true)]) == TriedIds(infos) + {id}
    ensures id in NewIds(infos) && id !in TriedIds(infos)
  {
    var e := infos[id];
    var b := h.TriedBucket(e.svc);
    var p := h.Position(false, b, e.svc);
    var after, t := infos[id := e.(fInTried := true)], Put(tried, b, p, id);
    assert EntryPlaced(id, e, untried, tried, h, ex);
    assert Slots(untried, h, e.svc, id) == {};
    forall x | x in after ensures EntryPlaced(x, after[x], untried, t, h, ex - {id}) {
      assert EntryPlaced(x, infos[x], untried, tried, h, ex);
    }
    forall c, q | 0 <= c < NEW_BUCKET_COUNT && 0 <= q < BUCKET_SIZE && untried[c][q] != -1
      ensures NewSlotOk(after, h, c, q, untried[c][q])
    {
      assert NewSlotOk(infos, h, c, q, untried[c][q]) && c !in Slots(untried, h, e.svc, id);
    }
  }

  // --------------------------------------------- one step at a time: indexes

  lemma IndexComplete(infos: Infos, addrs: map<NetAddr, int>, order: seq<int>, nIdCount: int, a: NetAddr)
    requires IndexOk(infos, addrs, order, nIdCount)
    ensures a in addrs ==> addrs[a] in infos && infos[addrs[a]].svc.addr == a
  {
  }

  /** An entry is where its position says, and a position's entry knows it. */
  lemma IndexAt(infos: Infos, addrs: map<NetAddr, int>, order: seq<int>, nIdCount: int, id: int)
    requires IndexOk(infos, addrs, order, nIdCount) && id in infos
    ensures 0 <= infos[id].nRandomPos < |order| && order[infos[id].nRandomPos] == id
  {
    assert EntryIndexed(id, infos[id], addrs, order, nIdCount);
  }

  lemma NextIsNew(infos: Infos, addrs: map<NetAddr, int>, order: seq<int>, nIdCount: int)
    requires IndexOk(infos, addrs, order, nIdCount)
    ensures nIdCount !in infos
  {
    assert forall id | id in infos :: EntryIndexed(id, infos[id], addrs, order, nIdCount);
  }

  lemma IndexFrom(infos: Infos, addrs: map<NetAddr, int>, order: seq<int>, nIdCount: int, i: nat)
    requires IndexOk(infos, addrs, order, nIdCount) && i < |order|
    ensures order[i] in infos && infos[order[i]].nRandomPos == i
  {
  }

  /** The entries after those at two positions have changed places. */
  ghost function Swapped(infos: Infos, order: seq<int>, i: nat, j: nat): Infos
    requires i < |order| && j < |order| && order[i] in infos && order[j] in infos
  {
    infos[order[i] := infos[order[i]].(nRandomPos := j)][order[j] := infos[order[j]].(nRandomPos := i)]
  }

  lemma SwapKeepsEntry(infos: Infos, addrs: map<NetAddr, int>, order: seq<int>, nIdCount: int, i: nat, j: nat, id: int)
    requires i < |order| && j < |order| && i != j && order[i] in infos && order[j] in infos && id in infos
    requires infos[order[i]].nRandomPos == i && infos[order[j]].nRandomPos == j
    requires EntryIndexed(id, infos[id], addrs, order, nIdCount)
    ensures EntryIndexed(id, Swapped(infos, order, i, j)[id], addrs, order[i := order[j]][j := order[i]], nIdCount)
  {
  }

  lemma SwapKeepsPlace(infos: Infos, order: seq<int>, i: nat, j: nat, k: nat)
    requires i < |order| && j < |order| && i != j && order[i] in infos && order[j] in infos
    requires infos[order[i]].nRandomPos == i && infos[order[j]].nRandomPos == j
    requires k < |order| && order[k] in infos && infos[order[k]].nRandomPos == k
    ensures var id := order[i := order[j]][j := order[i]][k];
            id in infos && Swapped(infos, order, i, j)[id].nRandomPos == k
  {
  }

  lemma SwapKeepsIndex(infos: Infos, addrs: map<NetAddr, int>, order: seq<int>, nIdCount: int, i: nat, j: nat)
    requires IndexOk(infos, addrs, order, nIdCount) && i < |order| && j < |order| && i != j
    ensures order[i] in infos && order[j] in infos && order[i] != order[j]
    ensures SameButOrder(infos, Swapped(infos, order, i, j))
    ensures IndexOk(Swapped(infos, order, i, j), addrs, order[i := order[j]][j := order[i]], nIdCount)
  {
    hide EntryIndexed;
    IndexFrom(infos, addrs, order, nIdCount, i);
    IndexFrom(infos, addrs, order, nIdCount, j);
    var after, swapped := Swapped(infos, order, i, j), order[i := order[j]][j := order[i]];
    assert SameButOrder(infos, after) && forall id | id in infos :: after[id].svc == infos[id].svc;
    hide Swapped, SameButOrder;
    forall id | id in after ensures EntryIndexed(id, after[id], addrs, swapped, nIdCount) {
      SwapKeepsEntry(infos, addrs, order, nIdCount, i, j, id);
    }
    forall k | 0 <= k < |swapped| ensures swapped[k] in after && after[swapped[k]].nRandomPos == k {
      SwapKeepsPlace(infos, order, i, j, k);
    }
  }

  lemma AppendKeepsIndex(infos: Infos, addrs: map<NetAddr, int>, order: seq<int>, nIdCount: int, e: Info)
    requires IndexOk(infos, addrs, order, nIdCount) && nIdCount >= 0
    requires e.svc.addr !in addrs && e.nRandomPos == |order|
    ensures nIdCount !in infos
    ensures IndexOk(infos[nIdCount := e], addrs[e.svc.addr := nIdCount], order + [nIdCount], nIdCount + 1)
  {
    assert infos[nIdCount := e].Keys == infos.Keys + {nIdCount};
  }

  lemma RemoveLastKeepsIndex(infos: Infos, addrs: map<NetAddr, int>, order: seq<int>, nIdCount: int, id: int)
    requires IndexOk(infos, addrs, order, nIdCount)
    requires id in infos && infos[id].nRandomPos == |order| - 1
    ensures IndexOk(infos - {id}, addrs - {infos[id].svc.addr}, order[..|order| - 1], nIdCount)
  {
    var after, rest, n := infos - {id}, addrs - {infos[id].svc.addr}, |order| - 1;
    assert after.Keys == infos.Keys - {id};
    forall x | x in after ensures EntryIndexed(x, after[x], rest, order[..n], nIdCount) {
      assert EntryIndexed(x, infos[x], addrs, order, nIdCount) && EntryIndexed(id, infos[id], addrs, order, nIdCount);
    }
    forall a | a in rest ensures rest[a] in after {
      assert addrs[a] in infos;
    }
    forall i | 0 <= i < n ensures order[..n][i] in after {
      assert order[i] in infos;
    }
  }

  /** Changing an entry's statistics, references or table keeps the indexes. */
  lemma RestatKeepsIndex(infos: Infos, addrs: map<NetAddr, int>, order: seq<int>, nIdCount: int, id: int, e: Info)
    requires IndexOk(infos, addrs, order, nIdCount)
    requires id in infos && e.svc == infos[id].svc && e.nRandomPos == infos[id].nRandomPos
    ensures IndexOk(infos[id := e], addrs, order, nIdCount)
  {
    assert infos[id := e].Keys == infos.Keys;
  }
}
