/** What the address manager writes to its file. */
module AddrFile {
  import opened AddrTables
  import opened AddrMan

  /** The part of an entry that is saved. */
  datatype Saved = Saved(
    svc: Service, nServices: Services, nTime: int, source: NetAddr, nLastSuccess: int, nAttempts: int)

  function Save(e: Info): Saved {
    Saved(e.svc, e.nServices, e.nTime, e.source, e.nLastSuccess, e.nAttempts)
  }

  /** A saved entry says what an entry says, field by field. */
  predicate Tells(s: Saved, e: Info) {
    && s.svc == e.svc && s.nServices == e.nServices && s.nTime == e.nTime && s.source == e.source
    && s.nLastSuccess == e.nLastSuccess && s.nAttempts == e.nAttempts
  }

  /** So do two entries, apart from attempts, which are forgotten, and from their place. */
  predicate Alike(e: Info, f: Info) {
    && e.svc == f.svc && e.nServices == f.nServices && e.nTime == f.nTime && e.source == f.source
    && e.nLastSuccess == f.nLastSuccess && e.nAttempts == f.nAttempts
  }

  /** No attempt is on record. */
  predicate Untouched(e: Info) { e.nLastTry == 0 && e.nLastCountAttempt == 0 }

  /** An entry as it is when it has just been read. */
  function Load(s: Saved): Info {
    Info(s.svc, s.nServices, s.nTime, s.source, 0, 0, s.nLastSuccess, s.nAttempts, 0, false, -1)
  }

  /** The fields of the file in the order they are written; a bucket's length stands before it. */
  datatype File = File(
    nVersion: int, nKeySize: int, nKey: nat, nNew: int, nTried: int, nUBuckets: int,
    entries: seq<Saved>, buckets: seq<seq<int>>)

  /** x with bit 30 inverted. */
  function Flip30(x: int): int {
    if x / 0x4000_0000 % 2 == 1 then x - 0x4000_0000 else x + 0x4000_0000
  }

  /** Of a 32-bit number, bit 30 changes and no other. */
  lemma Flip30Is(x: int)
    requires -0x8000_0000 <= x < 0x8000_0000
    ensures -0x8000_0000 <= Flip30(x) < 0x8000_0000 && Flip30(Flip30(x)) == x
    ensures Flip30(x) / 0x4000_0000 % 2 == 1 - x / 0x4000_0000 % 2
    ensures Flip30(x) % 0x4000_0000 == x % 0x4000_0000 && Flip30(x) / 0x8000_0000 == x / 0x8000_0000
  {
  }

  // --------------------------------------------------------------- entries in order

  /** The entries of one kind with ids below n, in ascending order. */
  function IdsBelow(infos: Infos, n: nat, tried: bool): seq<int> {
    if n == 0 then []
    else if n - 1 in infos && infos[n - 1].fInTried == tried then IdsBelow(infos, n - 1, tried) + [n - 1]
    else IdsBelow(infos, n - 1, tried)
  }

  /** How many entries of one kind come before an id. */
  function Rank(infos: Infos, id: int, tried: bool): nat {
    if id < 0 then 0 else |IdsBelow(infos, id, tried)|
  }

  lemma {:induction false} IdsInside(infos: Infos, n: nat, tried: bool, i: nat)
    requires i < |IdsBelow(infos, n, tried)|
    ensures var id := IdsBelow(infos, n, tried)[i];
            0 <= id < n && id in infos && infos[id].fInTried == tried && Rank(infos, id, tried) == i
    decreases n
  {
    if i < |IdsBelow(infos, n - 1, tried)| {
      IdsInside(infos, n - 1, tried, i);
    }
  }

  lemma {:induction false} IdsComplete(infos: Infos, n: nat, tried: bool, id: int)
    requires 0 <= id < n && id in infos && infos[id].fInTried == tried
    ensures var i := Rank(infos, id, tried);
            i < |IdsBelow(infos, n, tried)| && IdsBelow(infos, n, tried)[i] == id
    decreases n
  {
    if id < n - 1 {
      IdsComplete(infos, n - 1, tried, id);
    }
  }

  ghost function KindBelow(infos: Infos, n: int, tried: bool): set<int> {
    set id | id in infos && id < n && infos[id].fInTried == tried
  }

  lemma {:induction false} IdsCount(infos: Infos, n: nat, tried: bool)
    requires forall id | id in infos :: id >= 0
    ensures |IdsBelow(infos, n, tried)| == |KindBelow(infos, n, tried)|
    decreases n
  {
    if n == 0 {
      assert KindBelow(infos, n, tried) == {};
    } else {
      IdsCount(infos, n - 1, tried);
      if n - 1 in infos && infos[n - 1].fInTried == tried {
        assert KindBelow(infos, n, tried) == KindBelow(infos, n - 1, tried) + {n - 1};
      } else {
        assert KindBelow(infos, n, tried) == KindBelow(infos, n - 1, tried);
      }
    }
  }

  // ------------------------------------------------------------------------- a file

  function SaveAll(infos: Infos, ids: seq<int>): (s: seq<Saved>)
    requires forall i | 0 <= i < |ids| :: ids[i] in infos
  {
    seq(|ids|, i requires 0 <= i < |ids| => Save(infos[ids[i]]))
  }

  /** The occupied ones among the first n slots of a bucket, by the rank of their entry. */
  function Occupied(infos: Infos, row: seq<int>, n: nat): seq<int>
    requires n <= |row|
  {
    if n == 0 then []
    else if row[n - 1] != -1 then Occupied(infos, row, n - 1) + [Rank(infos, row[n - 1], false)]
    else Occupied(infos, row, n - 1)
  }

  lemma IdsAllInside(infos: Infos, n: nat, tried: bool)
    ensures forall i | 0 <= i < |IdsBelow(infos, n, tried)| :: IdsBelow(infos, n, tried)[i] in infos
  {
    forall i | 0 <= i < |IdsBelow(infos, n, tried)|
      ensures IdsBelow(infos, n, tried)[i] in infos
    {
      IdsInside(infos, n, tried, i);
    }
  }

  /** The saved entries of one kind. */
  ghost function Entries(infos: Infos, n: nat, tried: bool): (s: seq<Saved>)
    ensures |s| == |IdsBelow(infos, n, tried)|
  {
    IdsAllInside(infos, n, tried);
    SaveAll(infos, IdsBelow(infos, n, tried))
  }

  ghost function FileOf(infos: Infos, nIdCount: nat, vvNew: Table, key: nat): File
    requires Shaped(vvNew, NEW_BUCKET_COUNT)
  {
    var news, trieds := Entries(infos, nIdCount, false), Entries(infos, nIdCount, true);
    File(1, 32, key, |news|, |trieds|, Flip30(NEW_BUCKET_COUNT), news + trieds,
         seq(NEW_BUCKET_COUNT, b requires 0 <= b < NEW_BUCKET_COUNT => Occupied(infos, vvNew[b], BUCKET_SIZE)))
  }

  lemma CountsExact(infos: Infos, addrs: map<NetAddr, int>, order: seq<int>, nIdCount: nat, vvNew: Table,
                    vvTried: Table, h: Hashes)
    requires IndexOk(infos, addrs, order, nIdCount) && TablesOk(infos, vvNew, vvTried, h, {})
    ensures |IdsBelow(infos, nIdCount, false)| == |NewIds(infos)|
    ensures |IdsBelow(infos, nIdCount, true)| == |TriedIds(infos)|
  {
    forall id | id in infos
      ensures 0 <= id < nIdCount
    {
      assert EntryIndexed(id, infos[id], addrs, order, nIdCount);
    }
    IdsCount(infos, nIdCount, false);
    IdsCount(infos, nIdCount, true);
    assert KindBelow(infos, nIdCount, false) == NewIds(infos);
    assert KindBelow(infos, nIdCount, true) == TriedIds(infos);
  }

  lemma {:induction false} IdsMonotone(infos: Infos, m: nat, n: nat, tried: bool)
    requires m <= n
    ensures |IdsBelow(infos, m, tried)| <= |IdsBelow(infos, n, tried)|
    decreases n
  {
    if m < n {
      IdsMonotone(infos, m, n - 1, tried);
    }
  }

  /** All entries of one kind, in the order of their ids; each knows its place by `unk`. */
  method SaveKind(infos: Infos, nIdCount: nat, limit: int, tried: bool)
    returns (entries: seq<Saved>, unk: map<int, int>)
    requires forall id | id in infos :: infos[id].fInTried <==> infos[id].nRefCount == 0
    requires limit == |IdsBelow(infos, nIdCount, tried)|
    ensures entries == Entries(infos, nIdCount, tried)
    ensures forall id | id in infos && 0 <= id < nIdCount :: id in unk && unk[id] == Rank(infos, id, tried)
  {
    hide IdsBelow;
    entries, unk := [], map[];
    var nIds := 0;
    NoneBelow(infos, tried);
    for id := 0 to nIdCount
      invariant entries == Entries(infos, id, tried) && nIds == |entries|
      invariant forall x | x in infos && 0 <= x < id :: x in unk && unk[x] == Rank(infos, x, tried)
    {
      EntriesNext(infos, id, tried);
      IdsMonotone(infos, id + 1, nIdCount, tried);
      if id in infos {
        unk := unk[id := nIds];
        var info := infos[id];
        if (if tried then info.fInTried else info.nRefCount != 0) {
          assert nIds != limit;
          var s := Saved(info.svc, info.nServices, info.nTime, info.source, info.nLastSuccess, info.nAttempts);
          entries := entries + [s];
          nIds := nIds + 1;
        }
      }
    }
  }

  lemma NoneBelow(infos: Infos, tried: bool)
    ensures Entries(infos, 0, tried) == [] && IdsBelow(infos, 0, tried) == []
  {
  }

  lemma EntriesNext(infos: Infos, id: nat, tried: bool)
    ensures var more := if id in infos && infos[id].fInTried == tried then [Save(infos[id])] else [];
            Entries(infos, id + 1, tried) == Entries(infos, id, tried) + more
    ensures Rank(infos, id, tried) == |Entries(infos, id, tried)|
  {
    IdsAllInside(infos, id, tried);
    IdsAllInside(infos, id + 1, tried);
  }

  method SaveBucket(infos: Infos, row: seq<int>, unk: map<int, int>) returns (bucket: seq<int>)
    requires |row| == BUCKET_SIZE
    requires forall p | 0 <= p < |row| && row[p] != -1 :: row[p] in unk && unk[row[p]] == Rank(infos, row[p], false)
    ensures bucket == Occupied(infos, row, BUCKET_SIZE)
  {
    hide Rank;
    bucket := [];
    for i := 0 to BUCKET_SIZE
      invariant bucket == Occupied(infos, row, i)
    {
      if row[i] != -1 {
        bucket := bucket + [unk[row[i]]];
      }
    }
  }

  /** From place k on, the file tells about the entries of one kind in the order of their ids. */
  ghost predicate TellsFrom(entries: seq<Saved>, k: nat, infos: Infos, n: nat, tried: bool) {
    var ids := IdsBelow(infos, n, tried);
    k + |ids| <= |entries| && forall i | 0 <= i < |ids| :: ids[i] in infos && Tells(entries[k + i], infos[ids[i]])
  }

  lemma EntriesTell(infos: Infos, n: nat, front: seq<Saved>, back: seq<Saved>, tried: bool)
    ensures TellsFrom(front + Entries(infos, n, tried) + back, |front|, infos, n, tried)
  {
    IdsAllInside(infos, n, tried);
    hide IdsBelow;
    var ids, all := IdsBelow(infos, n, tried), front + Entries(infos, n, tried) + back;
    forall i | 0 <= i < |ids| ensures Tells(all[|front| + i], infos[ids[i]]) {
      assert all[|front| + i] == Entries(infos, n, tried)[i];
    }
  }

  lemma FileTells(infos: Infos, nIdCount: nat, vvNew: Table, key: nat)
    requires Shaped(vvNew, NEW_BUCKET_COUNT)
    ensures var f := FileOf(infos, nIdCount, vvNew, key);
            && f.nNew >= 0 && |f.entries| == f.nNew + f.nTried
            && TellsFrom(f.entries, 0, infos, nIdCount, false) && TellsFrom(f.entries, f.nNew, infos, nIdCount, true)
  {
    hide IdsBelow, Occupied, TellsFrom, SaveAll;
    var news, trieds := Entries(infos, nIdCount, false), Entries(infos, nIdCount, true);
    EntriesTell(infos, nIdCount, [], trieds, false);
    EntriesTell(infos, nIdCount, news, [], true);
    assert [] + news + trieds == news + trieds && news + trieds + [] == news + trieds;
  }

  /** Writes the new entries and then the tried ones, each with its six saved fields, and which
      slots of the new table they hold. */
  method Serialize(m: AddrManager) returns (f: File)
    requires m.Valid()
    ensures m.nIdCount >= 0 && f == FileOf(m.mapInfo, m.nIdCount, m.vvNew, m.h.key)
    ensures f.nVersion == 1 && f.nKeySize == 32 && f.nKey == m.h.key && f.nNew == m.nNew && f.nTried == m.nTried
    ensures TellsFrom(f.entries, 0, m.mapInfo, m.nIdCount, false) && |f.entries| == m.nNew + m.nTried
    ensures m.nNew >= 0 && TellsFrom(f.entries, m.nNew, m.mapInfo, m.nIdCount, true)
  {
    hide IdsBelow, Occupied, Rank, NewIds, TriedIds, TellsFrom;
    KindByReferences(m.mapInfo, m.vvNew, m.vvTried, m.h);
    CountsExact(m.mapInfo, m.mapAddr, m.vRandom, m.nIdCount, m.vvNew, m.vvTried, m.h);
    var news, mapUnkIds := SaveKind(m.mapInfo, m.nIdCount, m.nNew, false);
    var trieds, _ := SaveKind(m.mapInfo, m.nIdCount, m.nTried, true);
    var buckets := [];
    for bucket := 0 to NEW_BUCKET_COUNT
      invariant |buckets| == bucket
      invariant forall b | 0 <= b < bucket :: buckets[b] == Occupied(m.mapInfo, m.vvNew[b], BUCKET_SIZE)
    {
      SlotsKnown(m.mapInfo, m.mapAddr, m.vRandom, m.nIdCount, m.vvNew, m.vvTried, m.h, bucket);
      var row := SaveBucket(m.mapInfo, m.vvNew[bucket], mapUnkIds);
      buckets := buckets + [row];
    }
    f := File(1, 32, m.h.key, m.nNew, m.nTried, Flip30(NEW_BUCKET_COUNT), news + trieds, buckets);
    assert f.buckets == FileOf(m.mapInfo, m.nIdCount, m.vvNew, m.h.key).buckets;
    FileTells(m.mapInfo, m.nIdCount, m.vvNew, m.h.key);
  }

  lemma KindByReferences(infos: Infos, vvNew: Table, vvTried: Table, h: Hashes)
    requires TablesOk(infos, vvNew, vvTried, h, {})
    ensures forall id | id in infos :: infos[id].fInTried <==> infos[id].nRefCount == 0
  {
    forall id | id in infos
      ensures infos[id].fInTried <==> infos[id].nRefCount == 0
    {
      assert EntryPlaced(id, infos[id], vvNew, vvTried, h, {});
    }
  }

  lemma SlotsKnown(infos: Infos, addrs: map<NetAddr, int>, order: seq<int>, nIdCount: int, vvNew: Table,
                   vvTried: Table, h: Hashes, b: nat)
    requires IndexOk(infos, addrs, order, nIdCount) && TablesOk(infos, vvNew, vvTried, h, {}) && b < NEW_BUCKET_COUNT
    ensures forall p | 0 <= p < BUCKET_SIZE && vvNew[b][p] != -1 :: vvNew[b][p] in infos && 0 <= vvNew[b][p] < nIdCount
  {
    forall p | 0 <= p < BUCKET_SIZE && vvNew[b][p] != -1
      ensures vvNew[b][p] in infos && 0 <= vvNew[b][p] < nIdCount
    {
      var id := vvNew[b][p];
      assert NewSlotOk(infos, h, b, p, id);
      assert EntryIndexed(id, infos[id], addrs, order, nIdCount);
    }
  }
}
