/** Saving the address manager and loading it again. */
module AddrRestart {
  import opened FiniteSets
  import opened AddrTables
  import opened AddrMan
  import opened AddrFile
  import opened AddrSound
  import opened AddrLoad

  // ------------------------------------------------------------------ the limits hold

  function Flat(t: Table, n: nat): seq<int>
    requires n <= |t|
  {
    if n == 0 then [] else Flat(t, n - 1) + t[n - 1]
  }

  lemma {:induction false} FlatSize(t: Table, buckets: nat, n: nat)
    requires Shaped(t, buckets) && n <= buckets
    ensures |Flat(t, n)| == n * BUCKET_SIZE
  {
    if n > 0 {
      FlatSize(t, buckets, n - 1);
    }
  }

  lemma {:induction false} FlatHolds(t: Table, buckets: nat, n: nat, b: nat, p: nat)
    requires Shaped(t, buckets) && b < n <= buckets && p < BUCKET_SIZE
    ensures t[b][p] in Flat(t, n)
    decreases n
  {
    if b == n - 1 {
      assert t[b][p] in t[b];
    } else {
      FlatHolds(t, buckets, n - 1, b, p);
    }
  }

  lemma {:induction false} ElementsSize(s: set<int>, xs: seq<int>)
    requires forall x | x in s :: x in xs
    ensures |s| <= |xs|
    decreases |xs|
  {
    if xs == [] {
      if s != {} {
        var x := Any(s);
      }
    } else {
      var last := xs[|xs| - 1];
      var rest := s - {last};
      ElementsSize(rest, xs[..|xs| - 1]);
      SubsetSize(s, rest + {last});
    }
  }

  /** A table has room for all the entries that are in it. */
  lemma WithinLimits(o: Origin)
    requires o.Ok()
    ensures o.News() <= NEW_BUCKET_COUNT * BUCKET_SIZE && o.Trieds() <= TRIED_BUCKET_COUNT * BUCKET_SIZE
  {
    CountsExact(o.infos, o.addrs, o.order, o.nIdCount, o.vvNew, o.vvTried, o.h);
    forall id | id in NewIds(o.infos)
      ensures id in Flat(o.vvNew, NEW_BUCKET_COUNT)
    {
      NewInTable(o, id);
    }
    forall id | id in TriedIds(o.infos)
      ensures id in Flat(o.vvTried, TRIED_BUCKET_COUNT)
    {
      assert EntryPlaced(id, o.infos[id], o.vvNew, o.vvTried, o.h, {});
      var b := o.h.TriedBucket(o.infos[id].svc);
      FlatHolds(o.vvTried, TRIED_BUCKET_COUNT, TRIED_BUCKET_COUNT, b, o.h.Position(false, b, o.infos[id].svc));
    }
    ElementsSize(NewIds(o.infos), Flat(o.vvNew, NEW_BUCKET_COUNT));
    ElementsSize(TriedIds(o.infos), Flat(o.vvTried, TRIED_BUCKET_COUNT));
    FlatSize(o.vvNew, NEW_BUCKET_COUNT, NEW_BUCKET_COUNT);
    FlatSize(o.vvTried, TRIED_BUCKET_COUNT, TRIED_BUCKET_COUNT);
  }

  lemma NewInTable(o: Origin, id: int)
    requires o.Ok() && id in NewIds(o.infos)
    ensures id in Flat(o.vvNew, NEW_BUCKET_COUNT)
  {
    assert EntryPlaced(id, o.infos[id], o.vvNew, o.vvTried, o.h, {});
    var slots := Slots(o.vvNew, o.h, o.infos[id].svc, id);
    var b := Any(slots);
    FlatHolds(o.vvNew, NEW_BUCKET_COUNT, NEW_BUCKET_COUNT, b, o.h.Position(true, b, o.infos[id].svc));
  }

  // -------------------------------------------------------------------- reading a file

  /** What the header of a file and its length must be like. */
  predicate Acceptable(f: File) {
    && f.nKeySize == 32
    && f.nNew <= NEW_BUCKET_COUNT * BUCKET_SIZE && f.nTried <= TRIED_BUCKET_COUNT * BUCKET_SIZE
    && Max0(f.nNew) + Max0(f.nTried) <= |f.entries| && Buckets(f) <= |f.buckets|
  }

  function Buckets(f: File): int { if f.nVersion != 0 then Flip30(f.nUBuckets) else f.nUBuckets }

  /** Its counts are counts. */
  predicate Counted(f: File) { f.nNew >= 0 && f.nTried >= 0 }

  /** And no network address is in it twice. */
  ghost predicate Clean(f: File) { Counted(f) && Distinct(f.entries, f.nNew + f.nTried) }

  /** The lowest number an entry may get. */
  function Lowest(f: File): int { if f.nNew < 0 then f.nNew else 0 }

  /** The file is what was written for `o`. */
  ghost predicate Written(o: Origin, f: File) {
    o.Ok() && f == FileOf(o.infos, o.nIdCount, o.vvNew, o.h.key)
  }

  /** k entries of the file written for `o` have been read, and n indexes of bucket b. */
  ghost predicate Restoring(m: AddrManager, f: File, o: Origin, k: nat, b: nat, n: nat)
    reads m
  {
    Written(o, f) && m.h == o.h && Halfway(o, m.mapInfo, m.mapAddr, m.vRandom, m.vvNew, m.vvTried, k, b, n)
  }

  /** `read` entries of any file have been read and k were kept. */
  ghost predicate Importing(m: AddrManager, f: File, read: int, k: int)
    reads m
  {
    && Counted(f) && 0 <= read <= f.nNew + f.nTried <= |f.entries| && k >= 0
    && Sound(f.entries, f.nNew, read, m.mapInfo, m.mapAddr, m.vvNew, m.vvTried, m.h, k)
  }

  /** Everything has been read; the entries in `ex` may have no slot. */
  ghost predicate Imported(m: AddrManager, f: File, ex: set<int>)
    reads m
  {
    && Counted(f) && f.nNew + f.nTried <= |f.entries| && m.nIdCount >= 0
    && PositionsOk(m.mapInfo, m.vRandom, 0, m.nIdCount)
    && Pruning(f.entries, f.nNew, f.nNew + f.nTried, m.mapInfo, m.mapAddr, m.vvNew, m.vvTried, m.h, ex, m.nNew,
               m.nTried)
  }

  lemma WrittenIs(o: Origin, f: File)
    requires Written(o, f)
    ensures o.Ok() && Shaped(o.vvNew, NEW_BUCKET_COUNT)
    ensures f.nNew == o.News() && f.nTried == o.Trieds() && |f.entries| == f.nNew + f.nTried
    ensures f.nVersion == 1 && f.nKeySize == 32 && Flip30(f.nUBuckets) == NEW_BUCKET_COUNT == |f.buckets|
    ensures forall b | 0 <= b < NEW_BUCKET_COUNT :: f.buckets[b] == Occupied(o.infos, o.vvNew[b], BUCKET_SIZE)
  {
    hide IdsBelow, Occupied, IndexOk, Entries;
  }

  lemma EntryAt(infos: Infos, n: nat, tried: bool, i: nat)
    requires i < |IdsBelow(infos, n, tried)|
    ensures var id := IdsBelow(infos, n, tried)[i]; id in infos && Entries(infos, n, tried)[i] == Save(infos[id])
  {
    IdsAllInside(infos, n, tried);
    hide IdsBelow;
  }

  lemma WrittenEntry(o: Origin, f: File, k: nat)
    requires Written(o, f) && k < o.News() + o.Trieds()
    ensures o.Old(k) in o.infos && k < |f.entries| && f.entries[k] == Save(o.infos[o.Old(k)])
  {
    hide IdsBelow, Occupied, IndexOk, TablesOk, Entries;
    if k < o.News() {
      EntryAt(o.infos, o.nIdCount, false, k);
    } else {
      EntryAt(o.infos, o.nIdCount, true, k - o.News());
    }
  }

  lemma NothingLoaded(o: Origin, vvNew: Table, vvTried: Table)
    requires Shaped(o.vvNew, NEW_BUCKET_COUNT) && Shaped(o.vvTried, TRIED_BUCKET_COUNT)
    requires EmptyTable(vvNew, NEW_BUCKET_COUNT) && EmptyTable(vvTried, TRIED_BUCKET_COUNT)
    ensures TriedLoaded(o, vvTried, 0) && NewLoaded(o, vvNew, 0, 0)
  {
    hide Occupied;
  }

  lemma Beginning(o: Origin, vvNew: Table, vvTried: Table)
    requires o.Ok() && EmptyTable(vvNew, NEW_BUCKET_COUNT) && EmptyTable(vvTried, TRIED_BUCKET_COUNT)
    ensures Halfway(o, map[], map[], [], vvNew, vvTried, 0, 0, 0)
  {
    OriginShaped(o);
    NothingLoaded(o, vvNew, vvTried);
    SoundStart([], o.News(), vvNew, vvTried, o.h);
    hide TablesOk, TriedLoaded, NewLoaded;
  }

  lemma OriginShaped(o: Origin)
    requires o.Ok()
    ensures Shaped(o.vvNew, NEW_BUCKET_COUNT) && Shaped(o.vvTried, TRIED_BUCKET_COUNT)
  {
  }

  /** Reads an entry of the new table; in a file from elsewhere it gets a slot if its own
      is free. */
  method ReadNewEntry(m: AddrManager, f: File, usable: bool, n: nat, ghost o: Origin, ghost canon: bool,
                      ghost counted: bool)
    requires n < f.nNew <= |f.entries| && Shaped(m.vvNew, NEW_BUCKET_COUNT) && PositionsOk(m.mapInfo, m.vRandom, 0, n)
    requires canon ==> usable && Restoring(m, f, o, n, 0, 0)
    requires counted ==> Importing(m, f, n, n)
    modifies m`mapInfo, m`mapAddr, m`vRandom, m`vvNew
    ensures m.mapInfo.Keys == old(m.mapInfo.Keys) + {n} && Shaped(m.vvNew, NEW_BUCKET_COUNT)
    ensures PositionsOk(m.mapInfo, m.vRandom, 0, n + 1)
    ensures canon ==> Restoring(m, f, o, n + 1, 0, 0)
    ensures counted ==> Importing(m, f, n + 1, n + 1)
  {
    hide Halfway, Sound, Written, IdsBelow, PositionsOk;
    if canon {
      WrittenIs(o, f);
      WrittenEntry(o, f, n);
      NewEntry(o, m.mapInfo, m.mapAddr, m.vRandom, m.vvNew, m.vvTried, n);
    }
    if counted {
      NewRead(f.entries, f.nNew, n, m.mapInfo, m.mapAddr, m.vRandom, m.vvNew, m.vvTried, m.h);
    }
    var info := Load(f.entries[n]);
    m.mapAddr := m.mapAddr[info.svc.addr := n];
    info := info.(nRandomPos := |m.vRandom|);
    AppendPosition(m.mapInfo, m.vRandom, 0, n, info);
    m.vRandom := m.vRandom + [n];
    m.mapInfo := m.mapInfo[n := info];
    if !usable {
      GiveHomeSlot(m, f, n, counted);
    }
  }

  /** Gives the entry just read the slot to which its source entitles it, if that is free. */
  method GiveHomeSlot(m: AddrManager, f: File, n: nat, ghost counted: bool)
    requires n < f.nNew <= |f.entries| && Shaped(m.vvNew, NEW_BUCKET_COUNT)
    requires n in m.mapInfo && m.mapInfo[n].nRefCount == 0 && PositionsOk(m.mapInfo, m.vRandom, 0, n + 1)
    requires counted ==> Importing(m, f, n + 1, n + 1)
    modifies m`mapInfo, m`vvNew
    ensures m.mapInfo.Keys == old(m.mapInfo.Keys) && Shaped(m.vvNew, NEW_BUCKET_COUNT)
    ensures PositionsOk(m.mapInfo, m.vRandom, 0, n + 1)
    ensures counted ==> Importing(m, f, n + 1, n + 1)
  {
    hide Sound, PositionsOk;
    var info := m.mapInfo[n];
    var nUBucket := m.h.NewBucket(info.svc, info.source);
    var nUBucketPos := m.h.Position(true, nUBucket, info.svc);
    if m.vvNew[nUBucket][nUBucketPos] == -1 {
      if counted {
        SlotRead(f.entries, f.nNew, n + 1, m.mapInfo, m.mapAddr, m.vvNew, m.vvTried, m.h, n + 1, nUBucket, n);
      }
      info := info.(nRefCount := info.nRefCount + 1);
      RestatPosition(m.mapInfo, m.vRandom, 0, n + 1, n, info);
      m.vvNew := Put(m.vvNew, nUBucket, nUBucketPos, n);
      m.mapInfo := m.mapInfo[n := info];
    }
  }

  /** Reads the entries of the new table. */
  method ReadNew(m: AddrManager, f: File, usable: bool, ghost o: Origin, ghost canon: bool, ghost counted: bool)
    requires m.mapInfo == map[] && m.mapAddr == map[] && m.vRandom == [] && f.nNew <= |f.entries|
    requires EmptyTable(m.vvNew, NEW_BUCKET_COUNT) && EmptyTable(m.vvTried, TRIED_BUCKET_COUNT)
    requires canon ==> Written(o, f) && usable && m.h == o.h
    requires counted ==> Counted(f) && f.nNew + f.nTried <= |f.entries|
    modifies m`mapInfo, m`mapAddr, m`vRandom, m`vvNew
    ensures Shaped(m.vvNew, NEW_BUCKET_COUNT) && forall n | 0 <= n < f.nNew :: n in m.mapInfo
    ensures PositionsOk(m.mapInfo, m.vRandom, Lowest(f), f.nNew)
    ensures canon ==> Restoring(m, f, o, o.News(), 0, 0)
    ensures counted ==> Importing(m, f, f.nNew, f.nNew)
  {
    hide EmptyTable, Shaped, Restoring, Importing, Written, IdsBelow, PositionsOk;
    var n := 0;
    ReadingStarts(m, f, o, canon, counted);
    while n < f.nNew
      invariant 0 <= n && (n <= f.nNew || n == 0) && Shaped(m.vvNew, NEW_BUCKET_COUNT)
      invariant PositionsOk(m.mapInfo, m.vRandom, 0, n)
      invariant forall k | 0 <= k < n :: k in m.mapInfo
      invariant canon ==> Restoring(m, f, o, n, 0, 0)
      invariant counted ==> Importing(m, f, n, n)
    {
      ReadNewEntry(m, f, usable, n, o, canon, counted);
      n := n + 1;
    }
    if f.nNew < 0 {
      AnyRange(m.mapInfo, m.vRandom, f.nNew, f.nNew);
    }
  }

  lemma ReadingStarts(m: AddrManager, f: File, o: Origin, canon: bool, counted: bool)
    requires m.mapInfo == map[] && m.mapAddr == map[] && m.vRandom == []
    requires EmptyTable(m.vvNew, NEW_BUCKET_COUNT) && EmptyTable(m.vvTried, TRIED_BUCKET_COUNT)
    requires canon ==> Written(o, f) && m.h == o.h
    requires counted ==> Counted(f) && f.nNew + f.nTried <= |f.entries|
    ensures PositionsOk(m.mapInfo, m.vRandom, 0, 0) && Shaped(m.vvNew, NEW_BUCKET_COUNT)
    ensures canon ==> Restoring(m, f, o, 0, 0, 0) && o.News() == f.nNew
    ensures counted ==> Importing(m, f, 0, 0)
  {
    hide Halfway, Sound, Written, IdsBelow;
    if canon {
      WrittenIs(o, f);
      Beginning(o, m.vvNew, m.vvTried);
    }
    if counted {
      SoundStart(f.entries, f.nNew, m.vvNew, m.vvTried, m.h);
    }
  }

  /** Where no number is in range, the range does not matter. */
  lemma AnyRange(infos: Infos, order: seq<int>, lo: int, hi: int)
    requires PositionsOk(infos, order, 0, 0)
    ensures PositionsOk(infos, order, lo, hi)
  {
    assert forall id :: id in infos ==> Positioned(id, infos[id], order, 0, 0);
    assert infos == map[];
  }

  /** Gives an entry its tried slot, unless that is taken. */
  method TakeTried(m: AddrManager, s: Saved) returns (taken: bool)
    requires Shaped(m.vvTried, TRIED_BUCKET_COUNT)
    modifies m`mapInfo, m`mapAddr, m`vRandom, m`vvTried, m`nIdCount
    ensures var b := m.h.TriedBucket(s.svc);
            var p := m.h.Position(false, b, s.svc);
            && taken == (old(m.vvTried)[b][p] == -1)
            && (taken ==>
                  var e := Load(s).(nRandomPos := |old(m.vRandom)|, fInTried := true);
                  && m.mapInfo == old(m.mapInfo)[old(m.nIdCount) := e]
                  && m.mapAddr == old(m.mapAddr)[s.svc.addr := old(m.nIdCount)]
                  && m.vRandom == old(m.vRandom) + [old(m.nIdCount)] && m.nIdCount == old(m.nIdCount) + 1
                  && m.vvTried == Put(old(m.vvTried), b, p, old(m.nIdCount)))
    ensures !taken ==> unchanged(m)
  {
    var info := Load(s);
    var nKBucket := m.h.TriedBucket(info.svc);
    var nKBucketPos := m.h.Position(false, nKBucket, info.svc);
    taken := m.vvTried[nKBucket][nKBucketPos] == -1;
    if taken {
      info := info.(nRandomPos := |m.vRandom|, fInTried := true);
      m.vRandom := m.vRandom + [m.nIdCount];
      m.mapInfo := m.mapInfo[m.nIdCount := info];
      m.mapAddr := m.mapAddr[info.svc.addr := m.nIdCount];
      m.vvTried := Put(m.vvTried, nKBucket, nKBucketPos, m.nIdCount);
      m.nIdCount := m.nIdCount + 1;
    }
  }

  /** Reads an entry of the tried table. */
  method ReadTriedEntry(m: AddrManager, f: File, read: nat, ghost o: Origin, ghost canon: bool, ghost counted: bool)
    returns (taken: bool)
    requires f.nNew <= read < |f.entries| && Shaped(m.vvTried, TRIED_BUCKET_COUNT)
    requires PositionsOk(m.mapInfo, m.vRandom, Lowest(f), m.nIdCount) && f.nNew <= m.nIdCount
    requires canon ==> m.nIdCount == read < o.News() + o.Trieds() && Restoring(m, f, o, read, 0, 0)
    requires counted ==> read < f.nNew + f.nTried && Importing(m, f, read, m.nIdCount)
    modifies m`mapInfo, m`mapAddr, m`vRandom, m`vvTried, m`nIdCount
    ensures m.mapInfo.Keys >= old(m.mapInfo.Keys) && Shaped(m.vvTried, TRIED_BUCKET_COUNT)
    ensures m.nIdCount == old(m.nIdCount) + if taken then 1 else 0
    ensures PositionsOk(m.mapInfo, m.vRandom, Lowest(f), m.nIdCount)
    ensures canon ==> taken && Restoring(m, f, o, read + 1, 0, 0)
    ensures counted ==> Importing(m, f, read + 1, m.nIdCount)
  {
    hide Halfway, Sound, Written, IdsBelow, PositionsOk;
    if canon {
      WrittenIs(o, f);
      WrittenEntry(o, f, read);
      TriedEntry(o, m.mapInfo, m.mapAddr, m.vRandom, m.vvNew, m.vvTried, read);
    }
    ghost var infos, addrs, order, vvTried, k := m.mapInfo, m.mapAddr, m.vRandom, m.vvTried, m.nIdCount;
    taken := TakeTried(m, f.entries[read]);
    if taken {
      AppendPosition(infos, order, Lowest(f), k, m.mapInfo[k]);
    }
    if counted {
      if taken {
        TriedRead(f.entries, f.nNew, read, infos, addrs, order, m.vvNew, vvTried, m.h, k);
      } else {
        TriedSkipped(f.entries, f.nNew, read, infos, addrs, m.vvNew, vvTried, m.h, k);
      }
    }
  }

  /** Reads the entries of the tried table; one whose slot is taken is lost. */
  method ReadTried(m: AddrManager, f: File, ghost o: Origin, ghost canon: bool, ghost counted: bool)
    returns (nLost: int)
    requires Max0(f.nNew) + f.nTried <= |f.entries| && m.nIdCount == f.nNew
    requires Shaped(m.vvNew, NEW_BUCKET_COUNT) && Shaped(m.vvTried, TRIED_BUCKET_COUNT)
    requires forall n | 0 <= n < f.nNew :: n in m.mapInfo
    requires PositionsOk(m.mapInfo, m.vRandom, Lowest(f), m.nIdCount)
    requires canon ==> Restoring(m, f, o, o.News(), 0, 0)
    requires counted ==> Importing(m, f, f.nNew, f.nNew)
    modifies m`mapInfo, m`mapAddr, m`vRandom, m`vvTried, m`nIdCount
    ensures forall n | 0 <= n < f.nNew :: n in m.mapInfo
    ensures PositionsOk(m.mapInfo, m.vRandom, Lowest(f), m.nIdCount) && nLost >= 0
    ensures canon ==> nLost == 0 && m.nIdCount == o.News() + o.Trieds()
    ensures canon ==> Restoring(m, f, o, o.News() + o.Trieds(), 0, 0)
    ensures counted ==> m.nIdCount == f.nNew + f.nTried - nLost >= 0
    ensures counted ==> Importing(m, f, f.nNew + f.nTried, m.nIdCount)
  {
    hide Halfway, Sound, Written, IdsBelow, PositionsOk;
    var first := Max0(f.nNew);
    nLost := 0;
    var n := 0;
    if canon {
      WrittenIs(o, f);
    }
    while n < f.nTried
      invariant 0 <= n && (n <= f.nTried || n == 0) && Shaped(m.vvTried, TRIED_BUCKET_COUNT)
      invariant forall k | 0 <= k < f.nNew :: k in m.mapInfo
      invariant m.nIdCount == f.nNew + n - nLost && 0 <= nLost <= n
      invariant PositionsOk(m.mapInfo, m.vRandom, Lowest(f), m.nIdCount)
      invariant canon ==> nLost == 0
      invariant canon ==> Restoring(m, f, o, o.News() + n, 0, 0)
      invariant counted ==> Importing(m, f, f.nNew + n, m.nIdCount)
    {
      var taken := ReadTriedEntry(m, f, first + n, o, canon, counted);
      if !taken {
        nLost := nLost + 1;
      }
      n := n + 1;
    }
  }

  /** Reads one index of a bucket of the new table. */
  method ReadIndex(m: AddrManager, f: File, usable: bool, bucket: nat, n: nat, ghost o: Origin, ghost canon: bool,
                   ghost counted: bool)
    requires bucket < |f.buckets| && n < |f.buckets[bucket]| && (usable ==> bucket < NEW_BUCKET_COUNT)
    requires Shaped(m.vvNew, NEW_BUCKET_COUNT) && forall n | 0 <= n < f.nNew :: n in m.mapInfo
    requires PositionsOk(m.mapInfo, m.vRandom, Lowest(f), m.nIdCount)
    requires canon ==> usable && Restoring(m, f, o, o.News() + o.Trieds(), bucket, n)
    requires counted ==> Importing(m, f, f.nNew + f.nTried, m.nIdCount)
    modifies m`mapInfo, m`vvNew
    ensures Shaped(m.vvNew, NEW_BUCKET_COUNT) && m.mapInfo.Keys == old(m.mapInfo.Keys)
    ensures PositionsOk(m.mapInfo, m.vRandom, Lowest(f), m.nIdCount)
    ensures canon ==> Restoring(m, f, o, o.News() + o.Trieds(), bucket, n + 1)
    ensures counted ==> Importing(m, f, f.nNew + f.nTried, m.nIdCount)
  {
    hide Halfway, Sound, Written, Occupied, Hashes.Position, IdsBelow, PositionsOk;
    if canon {
      WrittenIs(o, f);
      BucketIndex(o, m.mapInfo, m.mapAddr, m.vRandom, m.vvNew, m.vvTried, o.News() + o.Trieds(), bucket, n);
    }
    var nIndex := f.buckets[bucket][n];
    if 0 <= nIndex < f.nNew {
      var info := m.mapInfo[nIndex];
      var nUBucketPos := m.h.Position(true, bucket, info.svc);
      if usable && m.vvNew[bucket][nUBucketPos] == -1 && info.nRefCount < NEW_BUCKETS_PER_ADDRESS {
        if counted {
          SlotRead(f.entries, f.nNew, f.nNew + f.nTried, m.mapInfo, m.mapAddr, m.vvNew, m.vvTried, m.h, m.nIdCount,
                   bucket, nIndex);
        }
        info := info.(nRefCount := info.nRefCount + 1);
        RestatPosition(m.mapInfo, m.vRandom, Lowest(f), m.nIdCount, nIndex, info);
        m.mapInfo := m.mapInfo[nIndex := info];
        m.vvNew := Put(m.vvNew, bucket, nUBucketPos, nIndex);
      }
    }
  }

  /** Reads one bucket of the new table. */
  method ReadBucket(m: AddrManager, f: File, usable: bool, bucket: nat, ghost o: Origin, ghost canon: bool,
                    ghost counted: bool)
    requires bucket < |f.buckets| && (usable ==> bucket < NEW_BUCKET_COUNT)
    requires Shaped(m.vvNew, NEW_BUCKET_COUNT) && forall n | 0 <= n < f.nNew :: n in m.mapInfo
    requires PositionsOk(m.mapInfo, m.vRandom, Lowest(f), m.nIdCount)
    requires canon ==> usable && Restoring(m, f, o, o.News() + o.Trieds(), bucket, 0)
    requires counted ==> Importing(m, f, f.nNew + f.nTried, m.nIdCount)
    modifies m`mapInfo, m`vvNew
    ensures Shaped(m.vvNew, NEW_BUCKET_COUNT) && m.mapInfo.Keys == old(m.mapInfo.Keys)
    ensures PositionsOk(m.mapInfo, m.vRandom, Lowest(f), m.nIdCount)
    ensures canon ==> Restoring(m, f, o, o.News() + o.Trieds(), bucket + 1, 0)
    ensures counted ==> Importing(m, f, f.nNew + f.nTried, m.nIdCount)
  {
    hide Halfway, Sound, Written, Occupied, PositionsOk;
    var n := 0;
    while n < |f.buckets[bucket]|
      invariant n <= |f.buckets[bucket]|
      invariant Shaped(m.vvNew, NEW_BUCKET_COUNT) && m.mapInfo.Keys == old(m.mapInfo.Keys)
      invariant PositionsOk(m.mapInfo, m.vRandom, Lowest(f), m.nIdCount)
      invariant canon ==> Restoring(m, f, o, o.News() + o.Trieds(), bucket, n)
      invariant counted ==> Importing(m, f, f.nNew + f.nTried, m.nIdCount)
    {
      ReadIndex(m, f, usable, bucket, n, o, canon, counted);
      n := n + 1;
    }
    if canon {
      WrittenIs(o, f);
      BucketDone(o, m.mapInfo, m.mapAddr, m.vRandom, m.vvNew, m.vvTried, bucket);
    }
  }

  lemma BucketDone(o: Origin, infos: Infos, addrs: map<NetAddr, int>, order: seq<int>, vvNew: Table, vvTried: Table,
                   b: nat)
    requires b < NEW_BUCKET_COUNT && Shaped(o.vvNew, NEW_BUCKET_COUNT)
    requires var n := |Occupied(o.infos, o.vvNew[b], BUCKET_SIZE)|;
             Halfway(o, infos, addrs, order, vvNew, vvTried, o.News() + o.Trieds(), b, n)
    ensures Halfway(o, infos, addrs, order, vvNew, vvTried, o.News() + o.Trieds(), b + 1, 0)
  {
    hide NewLoaded, TablesOk, IndexOk, Occupied;
    NextBucket(o, vvNew, b);
  }

  /** Reads everything the file holds. */
  method Fill(m: AddrManager, f: File, usable: bool, nUBuckets: int, ghost o: Origin, ghost canon: bool,
              ghost counted: bool)
    requires m.mapInfo == map[] && m.mapAddr == map[] && m.vRandom == [] && nUBuckets <= |f.buckets|
    requires Max0(f.nNew) + Max0(f.nTried) <= |f.entries|
    requires EmptyTable(m.vvNew, NEW_BUCKET_COUNT) && EmptyTable(m.vvTried, TRIED_BUCKET_COUNT)
    requires usable ==> nUBuckets == NEW_BUCKET_COUNT
    requires canon ==> Written(o, f) && usable && m.h == o.h
    requires counted ==> Counted(f)
    modifies m
    ensures PositionsOk(m.mapInfo, m.vRandom, Lowest(f), m.nIdCount) && m.nNew == f.nNew && m.nTried <= f.nTried
    ensures canon ==> m.nIdCount == o.News() + o.Trieds() && m.nNew == o.News() && m.nTried == o.Trieds()
    ensures canon ==> Restoring(m, f, o, o.News() + o.Trieds(), NEW_BUCKET_COUNT, 0)
    ensures counted ==> Imported(m, f, Below(f.nNew))
  {
    hide Halfway, Sound, Written, IdsBelow, PositionsOk, Pruning;
    m.nNew, m.nTried := f.nNew, f.nTried;
    ReadNew(m, f, usable, o, canon, counted);
    m.nIdCount := f.nNew;
    var nLost := ReadTried(m, f, o, canon, counted);
    m.nTried := m.nTried - nLost;
    var bucket := 0;
    while bucket < nUBuckets
      invariant 0 <= bucket && (bucket <= nUBuckets || bucket == 0)
      invariant m.nNew == f.nNew && m.nTried == f.nTried - nLost
      invariant PositionsOk(m.mapInfo, m.vRandom, Lowest(f), m.nIdCount)
      invariant Shaped(m.vvNew, NEW_BUCKET_COUNT) && forall n | 0 <= n < f.nNew :: n in m.mapInfo
      invariant canon ==> m.nIdCount == o.News() + o.Trieds()
      invariant canon ==> Restoring(m, f, o, o.News() + o.Trieds(), bucket, 0)
      invariant counted ==> m.nIdCount == f.nNew + f.nTried - nLost >= 0
      invariant counted ==> Importing(m, f, f.nNew + f.nTried, m.nIdCount)
    {
      ReadBucket(m, f, usable, bucket, o, canon, counted);
      bucket := bucket + 1;
    }
    if canon {
      WrittenIs(o, f);
    }
    if counted {
      PruningStarts(f.entries, f.nNew, f.nNew + f.nTried, m.mapInfo, m.mapAddr, m.vvNew, m.vvTried, m.h, m.nIdCount);
    }
  }

  /** Drops an entry that lost all its slots. */
  method Prune(m: AddrManager, f: File, id: int, ghost ex: set<int>, ghost counted: bool)
    requires id in m.mapInfo && !m.mapInfo[id].fInTried && m.mapInfo[id].nRefCount == 0
    requires PositionsOk(m.mapInfo, m.vRandom, Lowest(f), m.nIdCount)
    requires counted ==> Imported(m, f, ex)
    modifies m`mapInfo, m`mapAddr, m`vRandom, m`nNew
    ensures PositionsOk(m.mapInfo, m.vRandom, Lowest(f), m.nIdCount) && m.nNew == old(m.nNew) - 1
    ensures counted ==> Imported(m, f, ex) && SameButOrder(old(m.mapInfo) - {id}, m.mapInfo)
  {
    hide PositionsOk, Pruning, SameButOrder;
    PrunePosition(m.mapInfo, m.vRandom, Lowest(f), m.nIdCount, id);
    var info, last := m.mapInfo[id], |m.vRandom| - 1;
    assert m.vRandom[info.nRandomPos] == id && m.vRandom[last] in m.mapInfo;
    var other := m.vRandom[last];
    ghost var infos, addrs := m.mapInfo, m.mapAddr;
    m.mapInfo := m.mapInfo[other := m.mapInfo[other].(nRandomPos := info.nRandomPos)];
    m.vRandom := m.vRandom[info.nRandomPos := other][..last];
    m.mapAddr := m.mapAddr - {info.svc.addr};
    m.mapInfo := m.mapInfo - {id};
    m.nNew := m.nNew - 1;
    if counted {
      PruneKeeps(f.entries, f.nNew, f.nNew + f.nTried, infos, addrs, m.vvNew, m.vvTried, m.h, ex, old(m.nNew), m.nTried,
                 id, m.mapInfo);
    }
  }

  /** Drops the entries that got no slot, of which a saved manager has none. */
  method DropLost(m: AddrManager, f: File, ghost o: Origin, ghost canon: bool, ghost counted: bool)
    requires PositionsOk(m.mapInfo, m.vRandom, Lowest(f), m.nIdCount) && m.nNew == f.nNew
    requires canon ==> m.nIdCount == o.News() + o.Trieds() && m.nNew == o.News() && m.nTried == o.Trieds()
    requires canon ==> Restoring(m, f, o, o.News() + o.Trieds(), NEW_BUCKET_COUNT, 0)
    requires counted ==> Counted(f) && Imported(m, f, Below(f.nNew))
    modifies m`mapInfo, m`mapAddr, m`vRandom, m`nNew
    ensures m.nNew <= f.nNew
    ensures canon ==> m.Valid() && m.nNew == o.News() && m.nTried == o.Trieds()
    ensures canon ==> Restored(o, m.mapInfo, m.vvNew, m.vvTried)
    ensures counted ==> Imported(m, f, {})
  {
    hide Halfway, Restored, IdsBelow, TablesOk, IndexOk, NewIds, TriedIds, Pruning, SameButOrder, PositionsOk;
    if canon {
      IndexBack(o, m.mapInfo, m.mapAddr, m.vRandom, m.vvNew, m.vvTried);
      AllBack(o, m.mapInfo, m.mapAddr, m.vRandom, m.vvNew, m.vvTried);
      KindByReferences(m.mapInfo, m.vvNew, m.vvTried, m.h);
    }
    ghost var infos, addrs, order := m.mapInfo, m.mapAddr, m.vRandom;
    var it := Lowest(f);
    if counted {
      NoneNegative(m.mapInfo, m.vRandom, m.nIdCount);
    }
    while it < m.nIdCount
      invariant PositionsOk(m.mapInfo, m.vRandom, Lowest(f), m.nIdCount) && m.nNew <= f.nNew
      invariant canon ==> m.mapInfo == infos && m.mapAddr == addrs && m.vRandom == order && m.nNew == o.News()
      invariant counted ==> it >= 0 && Imported(m, f, Below(f.nNew)) && SettledBelow(m.mapInfo, it)
    {
      if it in m.mapInfo && !m.mapInfo[it].fInTried && m.mapInfo[it].nRefCount == 0 {
        ghost var before := m.mapInfo;
        Prune(m, f, it, if counted then Below(f.nNew) else {}, counted);
        if counted {
          SettledStill(before, m.mapInfo, it);
        }
      }
      it := it + 1;
    }
    if counted {
      AllSettled(m.mapInfo, m.vRandom, m.nIdCount, it);
      PruningEnds(f.entries, f.nNew, f.nNew + f.nTried, m.mapInfo, m.mapAddr, m.vvNew, m.vvTried, m.h, Below(f.nNew),
                  m.nNew, m.nTried);
    }
  }

  lemma IndexBack(o: Origin, infos: Infos, addrs: map<NetAddr, int>, order: seq<int>, vvNew: Table, vvTried: Table)
    requires Halfway(o, infos, addrs, order, vvNew, vvTried, o.News() + o.Trieds(), NEW_BUCKET_COUNT, 0)
    ensures IndexOk(infos, addrs, order, o.News() + o.Trieds()) && -1 !in infos
    ensures Shaped(vvNew, NEW_BUCKET_COUNT) && Shaped(vvTried, TRIED_BUCKET_COUNT)
  {
  }

  /** The manager is valid exactly if no entry that was kept shares its address. */
  lemma ValidIfUnshared(m: AddrManager, f: File)
    requires Imported(m, f, {})
    ensures m.Valid() <==> Unshared(m.mapInfo, Lost(f.entries, f.nNew, m.mapInfo))
    ensures Clean(f) ==> m.Valid()
  {
    hide IndexOk, PositionsOk, LastOnes, Unshared, Lost, AllFromFile, FirstComers;
    NoneNegative(m.mapInfo, m.vRandom, m.nIdCount);
    IndexedIfUnshared(m.mapInfo, m.mapAddr, m.vRandom, m.nIdCount, Lost(f.entries, f.nNew, m.mapInfo));
    if Clean(f) {
      DistinctUnshared(f.entries, f.nNew, f.nNew + f.nTried, m.mapInfo, m.vvNew, m.vvTried, m.h, {});
    }
  }

  /** Reads a file into a newly made manager. Loading what was saved always succeeds, loses
      nothing and restores every slot and every reference. A file from elsewhere is refused
      exactly for what its header or length says. Whatever else is in it, the manager knows
      nothing that is not in the file and its tables are consistent, and so is its index of
      addresses exactly if no entry that was kept shares its address with another one. */
  method Unserialize(f: File, hashes: Hashes, ghost o: Origin) returns (ok: bool, m: AddrManager)
    ensures Written(o, f) && o.h == hashes.(key := f.nKey) ==>
              && ok && m.Valid() && m.h == o.h && m.nNew == o.News() && m.nTried == o.Trieds()
              && Restored(o, m.mapInfo, m.vvNew, m.vvTried)
    ensures ok <==> Acceptable(f)
    ensures m.h == hashes.(key := f.nKey)
    ensures ok && Counted(f) ==> Imported(m, f, {})
    ensures ok ==> (m.Valid() <==> Counted(f) && Unshared(m.mapInfo, Lost(f.entries, f.nNew, m.mapInfo)))
    ensures ok && Clean(f) ==> m.Valid()
  {
    hide Halfway, Written, Restored, IdsBelow, IndexOk, TablesOk, NewIds, TriedIds, Pruning, PositionsOk;
    hide Unshared, Lost;
    m := new AddrManager(hashes.(key := f.nKey));
    ok := false;
    ghost var canon := Written(o, f) && o.h == m.h;
    if canon {
      WrittenIs(o, f);
      WithinLimits(o);
    }
    if f.nKeySize != 32 {
      return;
    }
    var nUBuckets := if f.nVersion != 0 then Flip30(f.nUBuckets) else f.nUBuckets;
    if f.nNew > NEW_BUCKET_COUNT * BUCKET_SIZE || f.nTried > TRIED_BUCKET_COUNT * BUCKET_SIZE {
      return;
    }
    if |f.entries| < Max0(f.nNew) + Max0(f.nTried) || |f.buckets| < nUBuckets {
      return;
    }
    var usable := f.nVersion == 1 && nUBuckets == NEW_BUCKET_COUNT;
    Fill(m, f, usable, nUBuckets, o, canon, Counted(f));
    DropLost(m, f, o, canon, Counted(f));
    ok := true;
    if Counted(f) {
      ValidIfUnshared(m, f);
    }
  }

  // ------------------------------------------------------------- where promises end

  /** Hashes that give every service the first slot of the tried bucket with its port's number. */
  function ByPort(): Hashes {
    Hashes((_, s: Service) => s.port, (_, _, _) => 0, (_, _, _, _) => 0, 1)
  }

  /** Two tried services on one address. */
  function TwoPorts(): File {
    var a, b := Saved(Service(1, 0), {}, 1000, 9, 1000, 0), Saved(Service(1, 1), {}, 1000, 9, 1000, 0);
    File(0, 32, 1, 0, 2, 0, [a, b], [])
  }

  /** A file with one address twice is loaded, but the index of addresses is not what it should be. */
  method LoadedButInvalid() returns (ok: bool, m: AddrManager)
    ensures ok && !m.Valid()
  {
    TwoPortsMeet();
    hide Written, Restored, Imported, Unshared, Lost, TwoPorts, ByPort, First, Acceptable, Clean, Counted;
    ghost var o := Origin(map[], map[], [], 0, [], [], ByPort());
    ok, m := Unserialize(TwoPorts(), ByPort(), o);
    TwoPortsSpoil(m, TwoPorts(), 0, 1);
  }

  lemma TwoPortsMeet()
    ensures Acceptable(TwoPorts()) && Counted(TwoPorts()) && ByPort().(key := TwoPorts().nKey) == ByPort()
    ensures TwoPorts().nNew == 0 && TwoPorts().nTried == 2 == |TwoPorts().entries|
    ensures First(TwoPorts().entries, 0, 0, ByPort()) && First(TwoPorts().entries, 0, 1, ByPort())
    ensures TwoPorts().entries[0].svc.addr == TwoPorts().entries[1].svc.addr
  {
  }

  /** Two tried entries of the file that are about one address, each the first for its slot. */
  lemma TwoPortsSpoil(m: AddrManager, f: File, i: nat, j: nat)
    requires Imported(m, f, {}) && 0 <= f.nNew <= i < j < f.nNew + f.nTried <= |f.entries|
    requires First(f.entries, f.nNew, i, m.h) && First(f.entries, f.nNew, j, m.h)
    requires f.entries[i].svc.addr == f.entries[j].svc.addr
    ensures !Unshared(m.mapInfo, Lost(f.entries, f.nNew, m.mapInfo))
  {
    TwoPortsShare(f.entries, f.nNew, f.nNew + f.nTried, m.mapInfo, m.vvTried, m.h,
                  Lost(f.entries, f.nNew, m.mapInfo), i, j);
  }

  /** A restart: the manager is saved and a new one loads the file. */
  method Restart(m: AddrManager, hashes: Hashes) returns (n: AddrManager)
    requires m.Valid() && m.h == hashes.(key := m.h.key)
    ensures n.Valid() && n.h == m.h && n.nNew == m.nNew && n.nTried == m.nTried && (m.Sane() ==> n.Sane())
    ensures m.nIdCount >= 0
    ensures var o := Origin(m.mapInfo, m.mapAddr, m.vRandom, m.nIdCount, m.vvNew, m.vvTried, m.h);
            Restored(o, n.mapInfo, n.vvNew, n.vvTried)
  {
    hide IndexOk, TablesOk, NewIds, TriedIds, IdsBelow, Restored, FileOf, StatsOk;
    var f := Serialize(m);
    KeyOf(m.mapInfo, m.nIdCount, m.vvNew, m.h.key);
    ghost var o := Origin(m.mapInfo, m.mapAddr, m.vRandom, m.nIdCount, m.vvNew, m.vvTried, m.h);
    CountsExact(o.infos, o.addrs, o.order, o.nIdCount, o.vvNew, o.vvTried, o.h);
    var ok;
    ok, n := Unserialize(f, hashes, o);
    if m.Sane() {
      StatsBack(o, n.mapInfo, n.vvNew, n.vvTried);
    }
  }

  lemma KeyOf(infos: Infos, nIdCount: nat, vvNew: Table, key: nat)
    requires Shaped(vvNew, NEW_BUCKET_COUNT)
    ensures FileOf(infos, nIdCount, vvNew, key).nKey == key
  {
  }
}
