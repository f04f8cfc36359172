/** The address manager's own consistency check, proved to accept exactly the
    consistent states. */
module AddrCheck {
  import opened FiniteSets
  import opened AddrTables

  /** What the check asks of one entry by itself. */
  predicate EntryChecked(id: int, e: Info, addrs: map<NetAddr, int>, order: seq<int>) {
    && (if e.fInTried then e.nLastSuccess != 0 && e.nRefCount == 0
        else 1 <= e.nRefCount <= NEW_BUCKETS_PER_ADDRESS)
    && (if e.svc.addr in addrs then addrs[e.svc.addr] else 0) == id
    && 0 <= e.nRandomPos < |order| && order[e.nRandomPos] == id
    && e.nLastTry >= 0 && e.nLastSuccess >= 0
  }

  ghost function Home(h: Hashes, s: Service): (int, int) {
    (h.TriedBucket(s), h.Position(false, h.TriedBucket(s), s))
  }

  /** Slot (b, p) comes before (n, i) in the order of the scan. */
  predicate Before(b: int, p: int, n: int, i: int) {
    b < n || (b == n && p < i)
  }

  // ----------------------------------------------------------- what the codes mean

  /** What is wrong with an entry by itself. */
  ghost predicate EntryFault(err: int, id: int, e: Info, addrs: map<NetAddr, int>, order: seq<int>) {
    || (err == -1 && e.fInTried && e.nLastSuccess == 0)
    || (err == -2 && e.fInTried && e.nRefCount != 0)
    || (err == -3 && !e.fInTried && !(0 <= e.nRefCount <= 8))
    || (err == -4 && !e.fInTried && e.nRefCount == 0)
    || (err == -5 && (e.svc.addr in addrs ==> addrs[e.svc.addr] != id) && (e.svc.addr !in addrs ==> id != 0))
    || (err == -6 && e.nLastTry < 0)
    || (err == -8 && e.nLastSuccess < 0)
    || (err == -14 && !(0 <= e.nRandomPos < |order| && order[e.nRandomPos] == id))
  }

  /** What is wrong with an occupied slot of the tried table: it holds no tried entry or one that
      has been met at home, or one of another bucket, or of another position. */
  ghost predicate TriedFault(err: int, infos: Infos, tried: Table, h: Hashes, b: int, p: int)
    requires Shaped(tried, TRIED_BUCKET_COUNT) && 0 <= b < TRIED_BUCKET_COUNT && 0 <= p < BUCKET_SIZE
  {
    var id := tried[b][p];
    && id != -1
    && (|| (err == -11 && (id in TriedIds(infos) ==> Before(Home(h, infos[id].svc).0, Home(h, infos[id].svc).1, b, p)))
        || (err == -17 && id in TriedIds(infos) && h.TriedBucket(infos[id].svc) != b)
        || (err == -18 && id in TriedIds(infos) && h.TriedBucket(infos[id].svc) == b
            && h.Position(false, b, infos[id].svc) != p))
  }

  /** What is wrong with an occupied slot of the new table: it holds no new entry or one whose
      references have all been met, or one of another position. */
  ghost predicate NewFault(err: int, infos: Infos, t: Table, h: Hashes, b: int, p: int)
    requires Shaped(t, NEW_BUCKET_COUNT) && 0 <= b < NEW_BUCKET_COUNT && 0 <= p < BUCKET_SIZE
  {
    var id := t[b][p];
    && id != -1
    && (|| (err == -12 && (id in NewIds(infos) ==> Missing(infos, t, h, id, b, p) == 0))
        || (err == -19 && id in NewIds(infos) && h.Position(true, b, infos[id].svc) != p))
  }

  /** What is wrong with the whole. */
  ghost predicate Fault(err: int, infos: Infos, addrs: map<NetAddr, int>, order: seq<int>, nNew: int, nTried: int,
                        untried: Table, tried: Table, h: Hashes)
    requires Shaped(untried, NEW_BUCKET_COUNT) && Shaped(tried, TRIED_BUCKET_COUNT)
  {
    || (err == -7 && |order| != nTried + nNew)
    || (exists id | id in infos :: EntryFault(err, id, infos[id], addrs, order))
    || (err == -9 && |TriedIds(infos)| != nTried)
    || (err == -10 && |NewIds(infos)| != nNew)
    || (exists b, p | 0 <= b < TRIED_BUCKET_COUNT && 0 <= p < BUCKET_SIZE :: TriedFault(err, infos, tried, h, b, p))
    || (exists b, p | 0 <= b < NEW_BUCKET_COUNT && 0 <= p < BUCKET_SIZE :: NewFault(err, infos, untried, h, b, p))
    || (err == -13 && TriedLeft(infos, tried, h, TRIED_BUCKET_COUNT, 0) != {})
    || (err == -15 && !RefsExact(infos, untried, h))
    || (err == -16 && h.key == 0)
  }

  /** The first loop: every entry by itself, collecting the two kinds. */
  method CheckEntries(infos: Infos, addrs: map<NetAddr, int>, order: seq<int>)
    returns (err: int, setTried: set<int>, mapNew: map<int, int>)
    ensures err == 0 <==> forall id | id in infos :: EntryChecked(id, infos[id], addrs, order)
    ensures err != 0 ==> exists id | id in infos :: EntryFault(err, id, infos[id], addrs, order)
    ensures err == 0 ==> setTried == TriedIds(infos)
    ensures err == 0 ==> mapNew == map id | id in NewIds(infos) :: infos[id].nRefCount
  {
    err, setTried, mapNew := 0, {}, map[];
    var todo := infos.Keys;
    while todo != {}
      invariant todo <= infos.Keys
      invariant forall id | id in infos && id !in todo :: EntryChecked(id, infos[id], addrs, order)
      invariant setTried == set id | id in infos && id !in todo && infos[id].fInTried
      invariant mapNew == map id | id in infos && id !in todo && !infos[id].fInTried :: infos[id].nRefCount
      decreases todo
    {
      ghost var some := Any(todo);
      assert some in todo;
      var n :| n in todo;
      var info := infos[n];
      err := EntryError(n, info, addrs, order);
      if err != 0 {
        return;
      }
      if info.fInTried {
        setTried := setTried + {n};
      } else {
        mapNew := mapNew[n := info.nRefCount];
      }
      todo := todo - {n};
    }
  }

  /** The error code for one entry, 0 if there is none. */
  function EntryError(n: int, info: Info, addrs: map<NetAddr, int>, order: seq<int>): (err: int)
    ensures err == 0 <==> EntryChecked(n, info, addrs, order)
    ensures err != 0 ==> EntryFault(err, n, info, addrs, order)
  {
    if info.fInTried && info.nLastSuccess == 0 then -1
    else if info.fInTried && info.nRefCount != 0 then -2
    else if !info.fInTried && (info.nRefCount < 0 || info.nRefCount > NEW_BUCKETS_PER_ADDRESS) then -3
    else if !info.fInTried && info.nRefCount == 0 then -4
    else if (if info.svc.addr in addrs then addrs[info.svc.addr] else 0) != n then -5
    else if info.nRandomPos < 0 || info.nRandomPos >= |order| || order[info.nRandomPos] != n then -14
    else if info.nLastTry < 0 then -6
    else if info.nLastSuccess < 0 then -8
    else 0
  }

  /** The tried entries whose slot has not been passed by the scan. */
  ghost function TriedLeft(infos: Infos, tried: Table, h: Hashes, n: int, i: int): set<int>
    requires Shaped(tried, TRIED_BUCKET_COUNT)
  {
    set id | id in TriedIds(infos)
             && var home := Home(h, infos[id].svc);
             !(Before(home.0, home.1, n, i) && tried[home.0][home.1] == id)
  }

  ghost predicate TriedSlotsOk(infos: Infos, tried: Table, h: Hashes)
    requires Shaped(tried, TRIED_BUCKET_COUNT)
  {
    forall b, p | 0 <= b < TRIED_BUCKET_COUNT && 0 <= p < BUCKET_SIZE && tried[b][p] != -1 ::
      TriedSlotOk(infos, h, b, p, tried[b][p])
  }

  /** The scan of the tried table crosses off each entry it meets at home. */
  method ScanTried(infos: Infos, tried: Table, h: Hashes, setTried: set<int>) returns (err: int, left: set<int>)
    requires Shaped(tried, TRIED_BUCKET_COUNT) && setTried == TriedIds(infos) && -1 !in infos
    ensures err == 0 <==> TriedSlotsOk(infos, tried, h)
    ensures err != 0 ==> exists b, p | 0 <= b < TRIED_BUCKET_COUNT && 0 <= p < BUCKET_SIZE ::
                           TriedFault(err, infos, tried, h, b, p)
    ensures err == 0 ==> left == TriedLeft(infos, tried, h, TRIED_BUCKET_COUNT, 0)
  {
    err, left := 0, setTried;
    assert left == TriedLeft(infos, tried, h, 0, 0);
    var n := 0;
    while n < TRIED_BUCKET_COUNT
      invariant 0 <= n <= TRIED_BUCKET_COUNT
      invariant left == TriedLeft(infos, tried, h, n, 0)
      invariant forall b, p | 0 <= b < n && 0 <= p < BUCKET_SIZE && tried[b][p] != -1 ::
                  TriedSlotOk(infos, h, b, p, tried[b][p])
    {
      err, left := ScanTriedBucket(infos, tried, h, n, left);
      if err != 0 {
        return;
      }
      n := n + 1;
    }
  }

  method ScanTriedBucket(infos: Infos, tried: Table, h: Hashes, n: nat, setTried: set<int>)
    returns (err: int, left: set<int>)
    requires Shaped(tried, TRIED_BUCKET_COUNT) && n < TRIED_BUCKET_COUNT && -1 !in infos
    requires setTried == TriedLeft(infos, tried, h, n, 0)
    ensures err == 0 <==>
            forall p | 0 <= p < BUCKET_SIZE && tried[n][p] != -1 :: TriedSlotOk(infos, h, n, p, tried[n][p])
    ensures err != 0 ==> exists p | 0 <= p < BUCKET_SIZE :: TriedFault(err, infos, tried, h, n, p)
    ensures err == 0 ==> left == TriedLeft(infos, tried, h, n + 1, 0)
  {
    err, left := 0, setTried;
    var i := 0;
    while i < BUCKET_SIZE
      invariant 0 <= i <= BUCKET_SIZE
      invariant left == TriedLeft(infos, tried, h, n, i)
      invariant forall p | 0 <= p < i && tried[n][p] != -1 :: TriedSlotOk(infos, h, n, p, tried[n][p])
    {
      var id := tried[n][i];
      if id != -1 {
        if id !in left {
          err := -11;
          assert TriedFault(err, infos, tried, h, n, i);
          return;
        }
        if h.TriedBucket(infos[id].svc) != n {
          err := -17;
          assert TriedFault(err, infos, tried, h, n, i);
          return;
        }
        if h.Position(false, n, infos[id].svc) != i {
          err := -18;
          assert TriedFault(err, infos, tried, h, n, i);
          return;
        }
        left := left - {id};
      }
      TriedLeftStep(infos, tried, h, n, i);
      i := i + 1;
    }
    TriedLeftNext(infos, tried, h, n);
  }

  /** Passing slot (n, i) crosses off the entry that is at home there. */
  lemma TriedLeftStep(infos: Infos, tried: Table, h: Hashes, n: nat, i: nat)
    requires Shaped(tried, TRIED_BUCKET_COUNT) && n < TRIED_BUCKET_COUNT && i < BUCKET_SIZE
    requires tried[n][i] in infos ==> Home(h, infos[tried[n][i]].svc) == (n, i)
    ensures TriedLeft(infos, tried, h, n, i + 1) == TriedLeft(infos, tried, h, n, i) - {tried[n][i]}
  {
    forall id | id in TriedIds(infos)
      ensures id in TriedLeft(infos, tried, h, n, i + 1) <==>
              id in TriedLeft(infos, tried, h, n, i) && id != tried[n][i]
    {
      var home := Home(h, infos[id].svc);
      assert Before(home.0, home.1, n, i + 1) <==> Before(home.0, home.1, n, i) || home == (n, i);
    }
  }

  lemma TriedLeftNext(infos: Infos, tried: Table, h: Hashes, n: nat)
    requires Shaped(tried, TRIED_BUCKET_COUNT) && n < TRIED_BUCKET_COUNT
    ensures TriedLeft(infos, tried, h, n + 1, 0) == TriedLeft(infos, tried, h, n, BUCKET_SIZE)
  {
    forall id | id in TriedIds(infos)
      ensures id in TriedLeft(infos, tried, h, n + 1, 0) <==> id in TriedLeft(infos, tried, h, n, BUCKET_SIZE)
    {
      var home := Home(h, infos[id].svc);
      assert Before(home.0, home.1, n + 1, 0) <==> Before(home.0, home.1, n, BUCKET_SIZE);
    }
  }

  // -------------------------------------------------------- the new table

  /** The references of an entry that the scan has passed. */
  ghost function SlotsBefore(t: Table, h: Hashes, s: Service, id: int, n: int, i: int): set<int>
    requires Shaped(t, NEW_BUCKET_COUNT)
  {
    set b | 0 <= b < NEW_BUCKET_COUNT && Before(b, h.Position(true, b, s), n, i) && t[b][h.Position(true, b, s)] == id
  }

  /** How many references of a new entry are still to be found. */
  ghost function Missing(infos: Infos, t: Table, h: Hashes, id: int, n: int, i: int): int
    requires Shaped(t, NEW_BUCKET_COUNT) && id in infos
  {
    infos[id].nRefCount - |SlotsBefore(t, h, infos[id].svc, id, n, i)|
  }

  /** The running counts of the check: entries with references still to be found. */
  ghost predicate Counting(infos: Infos, t: Table, h: Hashes, n: int, i: int, mapNew: map<int, int>)
    requires Shaped(t, NEW_BUCKET_COUNT)
  {
    forall id ::
      && (id in mapNew <==> id in NewIds(infos) && Missing(infos, t, h, id, n, i) != 0)
      && (id in mapNew ==> mapNew[id] == Missing(infos, t, h, id, n, i) > 0)
  }

  /** No entry has more references than it counts. */
  ghost predicate NoSurplus(infos: Infos, t: Table, h: Hashes)
    requires Shaped(t, NEW_BUCKET_COUNT)
  {
    forall id | id in NewIds(infos) :: |Slots(t, h, infos[id].svc, id)| <= infos[id].nRefCount
  }

  ghost predicate RefsExact(infos: Infos, t: Table, h: Hashes)
    requires Shaped(t, NEW_BUCKET_COUNT)
  {
    forall id | id in NewIds(infos) :: infos[id].nRefCount == |Slots(t, h, infos[id].svc, id)|
  }

  ghost predicate NewSlotsOk(infos: Infos, t: Table, h: Hashes, from: int, to: int)
    requires Shaped(t, NEW_BUCKET_COUNT)
  {
    forall b, p | 0 <= b < NEW_BUCKET_COUNT && 0 <= p < BUCKET_SIZE && from <= b < to && t[b][p] != -1 ::
      NewSlotOk(infos, h, b, p, t[b][p])
  }

  /** Passing slot (n, i) finds a reference of exactly the entry that belongs there. */
  lemma PassSlot(infos: Infos, t: Table, h: Hashes, id: int, n: nat, i: nat)
    requires Shaped(t, NEW_BUCKET_COUNT) && n < NEW_BUCKET_COUNT && i < BUCKET_SIZE && id in infos
    ensures var here := t[n][i] == id && h.Position(true, n, infos[id].svc) == i;
            Missing(infos, t, h, id, n, i + 1) == Missing(infos, t, h, id, n, i) - if here then 1 else 0
    ensures |Slots(t, h, infos[id].svc, id)| >= infos[id].nRefCount - Missing(infos, t, h, id, n, i + 1)
  {
    var s := infos[id].svc;
    var found := t[n][i] == id && h.Position(true, n, s) == i;
    assert SlotsBefore(t, h, s, id, n, i + 1) == SlotsBefore(t, h, s, id, n, i) + (if found then {n} else {});
    assert found ==> n !in SlotsBefore(t, h, s, id, n, i);
    SubsetSize(SlotsBefore(t, h, s, id, n, i + 1), Slots(t, h, s, id));
  }

  /** One slot of the scan. */
  method CountSlot(infos: Infos, t: Table, h: Hashes, n: nat, i: nat, mapNew: map<int, int>)
    returns (err: int, left: map<int, int>)
    requires Shaped(t, NEW_BUCKET_COUNT) && n < NEW_BUCKET_COUNT && i < BUCKET_SIZE && -1 !in infos
    requires Counting(infos, t, h, n, i, mapNew)
    ensures err == 0 ==> Counting(infos, t, h, n, i + 1, left)
    ensures err == 0 ==> (t[n][i] != -1 ==> NewSlotOk(infos, h, n, i, t[n][i]))
    ensures err != 0 ==> t[n][i] != -1 && (!NewSlotOk(infos, h, n, i, t[n][i]) || !NoSurplus(infos, t, h))
    ensures err != 0 ==> NewFault(err, infos, t, h, n, i)
  {
    hide Missing, Slots;
    err, left := 0, mapNew;
    var id := t[n][i];
    forall x | x in NewIds(infos) { PassSlot(infos, t, h, x, n, i); }
    if id != -1 {
      if id !in left {
        err := -12;
        return;
      }
      if h.Position(true, n, infos[id].svc) != i {
        err := -19;
        return;
      }
      if left[id] - 1 == 0 {
        left := left - {id};
      } else {
        left := left[id := left[id] - 1];
      }
    }
  }

  method ScanNewBucket(infos: Infos, t: Table, h: Hashes, n: nat, mapNew: map<int, int>)
    returns (err: int, left: map<int, int>)
    requires Shaped(t, NEW_BUCKET_COUNT) && n < NEW_BUCKET_COUNT && -1 !in infos
    requires Counting(infos, t, h, n, 0, mapNew)
    ensures err == 0 ==> Counting(infos, t, h, n + 1, 0, left) && NewSlotsOk(infos, t, h, n, n + 1)
    ensures err != 0 ==> !NewSlotsOk(infos, t, h, n, n + 1) || !NoSurplus(infos, t, h)
    ensures err != 0 ==> exists p | 0 <= p < BUCKET_SIZE :: NewFault(err, infos, t, h, n, p)
  {
    err, left := 0, mapNew;
    for i := 0 to BUCKET_SIZE
      invariant Counting(infos, t, h, n, i, left)
      invariant forall p | 0 <= p < i && t[n][p] != -1 :: NewSlotOk(infos, h, n, p, t[n][p])
    {
      err, left := CountSlot(infos, t, h, n, i, left);
      if err != 0 {
        return;
      }
      err := 0;
    }
    err := 0;
    forall id | id in infos
      ensures SlotsBefore(t, h, infos[id].svc, id, n + 1, 0) == SlotsBefore(t, h, infos[id].svc, id, n, BUCKET_SIZE)
    {
    }
  }

  /** The scan of the new table counts the references of each entry down. */
  method ScanNew(infos: Infos, t: Table, h: Hashes, mapNew: map<int, int>) returns (err: int, left: map<int, int>)
    requires Shaped(t, NEW_BUCKET_COUNT) && -1 !in infos
    requires mapNew == map id | id in NewIds(infos) :: infos[id].nRefCount
    requires forall id | id in NewIds(infos) :: infos[id].nRefCount >= 1
    ensures err == 0 ==> NewSlotsOk(infos, t, h, 0, NEW_BUCKET_COUNT)
    ensures err == 0 ==> Counting(infos, t, h, NEW_BUCKET_COUNT, 0, left)
    ensures err != 0 ==> !NewSlotsOk(infos, t, h, 0, NEW_BUCKET_COUNT) || !NoSurplus(infos, t, h)
    ensures err != 0 ==> exists b, p | 0 <= b < NEW_BUCKET_COUNT && 0 <= p < BUCKET_SIZE ::
                           NewFault(err, infos, t, h, b, p)
  {
    err, left := 0, mapNew;
    forall id | id in infos ensures SlotsBefore(t, h, infos[id].svc, id, 0, 0) == {} { }
    for n := 0 to NEW_BUCKET_COUNT
      invariant Counting(infos, t, h, n, 0, left)
      invariant NewSlotsOk(infos, t, h, 0, n)
    {
      err, left := ScanNewBucket(infos, t, h, n, left);
      if err != 0 {
        return;
      }
    }
    err := 0;
  }

  /** At the end of the scan, nothing is left exactly if every count was right. */
  lemma NewSettled(infos: Infos, t: Table, h: Hashes, left: map<int, int>)
    requires Shaped(t, NEW_BUCKET_COUNT) && Counting(infos, t, h, NEW_BUCKET_COUNT, 0, left)
    ensures |left| == 0 <==> RefsExact(infos, t, h)
  {
    forall id | id in NewIds(infos)
      ensures Missing(infos, t, h, id, NEW_BUCKET_COUNT, 0) == infos[id].nRefCount - |Slots(t, h, infos[id].svc, id)|
    {
      assert SlotsBefore(t, h, infos[id].svc, id, NEW_BUCKET_COUNT, 0) == Slots(t, h, infos[id].svc, id);
    }
    if left.Keys != {} {
      var id := Any(left.Keys);
      assert id in NewIds(infos);
    }
  }

  /** The state the check describes: counts, entries and tables agree. */
  ghost predicate Agreeing(infos: Infos, addrs: map<NetAddr, int>, order: seq<int>, nNew: int, nTried: int,
                           untried: Table, tried: Table, h: Hashes) {
    && |order| == nTried + nNew
    && (forall id | id in infos :: EntryChecked(id, infos[id], addrs, order))
    && nTried == |TriedIds(infos)| && nNew == |NewIds(infos)|
    && TablesOk(infos, untried, tried, h, {})
    && h.key != 0
  }

  /** What the scans establish is what the tables owe one another. */
  lemma TablesSplit(infos: Infos, addrs: map<NetAddr, int>, order: seq<int>, untried: Table, tried: Table, h: Hashes)
    requires Shaped(untried, NEW_BUCKET_COUNT) && Shaped(tried, TRIED_BUCKET_COUNT)
    requires forall id | id in infos :: id >= 0 && EntryChecked(id, infos[id], addrs, order)
    ensures TablesOk(infos, untried, tried, h, {}) <==>
              && TriedSlotsOk(infos, tried, h) && TriedLeft(infos, tried, h, TRIED_BUCKET_COUNT, 0) == {}
              && NewSlotsOk(infos, untried, h, 0, NEW_BUCKET_COUNT) && RefsExact(infos, untried, h)
    ensures RefsExact(infos, untried, h) ==> NoSurplus(infos, untried, h)
  {
    forall id | id in TriedIds(infos)
      ensures EntryPlaced(id, infos[id], untried, tried, h, {}) <==>
              id !in TriedLeft(infos, tried, h, TRIED_BUCKET_COUNT, 0)
    {
      assert EntryChecked(id, infos[id], addrs, order);
    }
    forall id | id in NewIds(infos)
      ensures EntryPlaced(id, infos[id], untried, tried, h, {}) <==>
              infos[id].nRefCount == |Slots(untried, h, infos[id].svc, id)|
    {
      assert EntryChecked(id, infos[id], addrs, order);
    }
    assert forall id | id in infos :: id in TriedIds(infos) || id in NewIds(infos);
  }

  /** The whole check: it passes exactly on agreeing states, and otherwise says what is wrong. */
  method Check(infos: Infos, addrs: map<NetAddr, int>, order: seq<int>, nNew: int, nTried: int,
               untried: Table, tried: Table, h: Hashes)
    returns (err: int)
    requires Shaped(untried, NEW_BUCKET_COUNT) && Shaped(tried, TRIED_BUCKET_COUNT)
    requires forall id | id in infos :: id >= 0
    ensures err == 0 <==> Agreeing(infos, addrs, order, nNew, nTried, untried, tried, h)
    ensures err != 0 ==> Fault(err, infos, addrs, order, nNew, nTried, untried, tried, h)
  {
    if |order| != nTried + nNew {
      return -7;
    }
    var setTried, mapNew;
    err, setTried, mapNew := CheckEntries(infos, addrs, order);
    if err != 0 {
      return;
    }
    NewRefs(infos, addrs, order);
    TablesSplit(infos, addrs, order, untried, tried, h);
    hide TablesOk, TriedSlotsOk, TriedLeft, NewSlotsOk, RefsExact, NoSurplus, Counting, EntryChecked, TriedIds;
    hide EntryFault, TriedFault, NewFault;
    assert mapNew.Keys == NewIds(infos);
    if |setTried| != nTried {
      return -9;
    }
    if |mapNew| != nNew {
      return -10;
    }
    var triedLeft, newLeft;
    err, triedLeft := ScanTried(infos, tried, h, setTried);
    if err != 0 {
      return;
    }
    err, newLeft := ScanNew(infos, untried, h, mapNew);
    if err != 0 {
      return;
    }
    NewSettled(infos, untried, h, newLeft);
    if |triedLeft| != 0 {
      return -13;
    }
    if |newLeft| != 0 {
      return -15;
    }
    if h.key == 0 {
      return -16;
    }
    err := 0;
  }

  lemma NewRefs(infos: Infos, addrs: map<NetAddr, int>, order: seq<int>)
    requires forall id | id in infos :: EntryChecked(id, infos[id], addrs, order)
    ensures forall id | id in NewIds(infos) :: infos[id].nRefCount >= 1
  {
    forall id | id in NewIds(infos) ensures infos[id].nRefCount >= 1 {
      assert EntryChecked(id, infos[id], addrs, order);
    }
  }
}
