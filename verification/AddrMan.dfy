/** The stochastic address manager. */
module AddrMan {
  import opened FiniteSets
  import opened AddrTables
  import opened AddrMoves
  import opened AddrCheck

  /** One call of a run, with the draws and clock readings it meets. */
  datatype Op =
    | Add(addr: Address, routable: bool, source: NetAddr, penalty: int, nNow: int, nLater: int, rnd: nat)
    | Good(svc: Service, nTime: int, nRnd: nat)
    | Attempt(svc: Service, fCountFailure: bool, nTime: int)
    | Connected(svc: Service, nTime: int)
    | SetServices(svc: Service, nServices: Services)
    | GetAddr(now: nat -> int, draw: nat -> nat)
  {
    /** Draws are in range. */
    predicate Legal() {
      Good? ==> nRnd < NEW_BUCKET_COUNT
    }

    /** The clock is not before the epoch. */
    predicate Timely() {
      (Good? ==> nTime > 0) && (Attempt? ==> nTime >= 0)
    }
  }

  class AddrManager {
    var nIdCount: int
    var mapInfo: Infos
    var mapAddr: map<NetAddr, int>
    var vRandom: seq<int>
    var nTried: int
    var vvTried: Table
    var nNew: int
    var vvNew: Table
    var nLastGood: int

    /** The bucket hashes together with the secret key. */
    const h: Hashes

    /** All tables agree, except that the entries in `ex` may be referenced from
        nowhere and `off` entries of the new kind are not yet counted. */
    ghost predicate Consistent(ex: set<int>, off: int)
      reads this
    {
      && nIdCount >= 0 && -1 !in mapInfo
      && IndexOk(mapInfo, mapAddr, vRandom, nIdCount)
      && Shaped(vvNew, NEW_BUCKET_COUNT) && Shaped(vvTried, TRIED_BUCKET_COUNT)
      && TablesOk(mapInfo, vvNew, vvTried, h, ex)
      && nNew == |NewIds(mapInfo)| - off
      && nTried == |TriedIds(mapInfo)|
    }

    ghost predicate Valid()
      reads this
    {
      Consistent({}, 0)
    }

    /** The times on record make sense. No table depends on this, only the
        manager's check of itself. */
    ghost predicate Sane()
      reads this
    {
      StatsOk(mapInfo)
    }

    constructor (hashes: Hashes)
      ensures Valid() && Sane() && h == hashes && nIdCount == 0 && nLastGood == 1
      ensures mapInfo == map[] && mapAddr == map[] && vRandom == []
      ensures EmptyTable(vvNew, NEW_BUCKET_COUNT) && EmptyTable(vvTried, TRIED_BUCKET_COUNT)
    {
      h := hashes;
      nIdCount, mapInfo, mapAddr, vRandom := 0, map[], map[], [];
      nTried, vvTried := 0, seq(TRIED_BUCKET_COUNT, _ => seq(BUCKET_SIZE, _ => -1));
      nNew, vvNew := 0, seq(NEW_BUCKET_COUNT, _ => seq(BUCKET_SIZE, _ => -1));
      nLastGood := 1;
    }

    method Find(addr: NetAddr) returns (found: bool, nId: int)
      ensures found <==> addr in mapAddr && mapAddr[addr] in mapInfo
      ensures found ==> nId == mapAddr[addr]
    {
      found, nId := false, -1;
      if addr in mapAddr {
        nId := mapAddr[addr];
        found := nId in mapInfo;
      }
    }

    method Create(addr: Address, addrSource: NetAddr, ghost ex: set<int>) returns (nId: int)
      requires Consistent(ex, 0) && addr.svc.addr !in mapAddr
      modifies this`nIdCount, this`mapInfo, this`mapAddr, this`vRandom
      ensures Consistent(ex + {nId}, 1)
      ensures nId == old(nIdCount) && nIdCount == nId + 1 && nId !in old(mapInfo)
      ensures mapInfo == old(mapInfo)[nId := NewInfo(addr, addrSource).(nRandomPos := |old(vRandom)|)]
      ensures mapAddr == old(mapAddr)[addr.svc.addr := nId]
      ensures vRandom == old(vRandom) + [nId]
    {
      hide IndexOk, TablesOk, NewIds, TriedIds;
      nId := nIdCount;
      var info := NewInfo(addr, addrSource).(nRandomPos := |vRandom|);
      AppendKeepsIndex(mapInfo, mapAddr, vRandom, nIdCount, info);
      InsertEntry(mapInfo, vvNew, vvTried, h, ex, nId, info);
      nIdCount := nIdCount + 1;
      mapInfo := mapInfo[nId := info];
      mapAddr := mapAddr[addr.svc.addr := nId];
      vRandom := vRandom + [nId];
    }

    method SwapRandom(nRndPos1: nat, nRndPos2: nat, ghost ex: set<int>, ghost off: int)
      requires Consistent(ex, off) && nRndPos1 < |vRandom| && nRndPos2 < |vRandom|
      modifies this`mapInfo, this`vRandom
      ensures Consistent(ex, off) && SameButOrder(old(mapInfo), mapInfo)
      ensures TriedIds(mapInfo) == TriedIds(old(mapInfo))
      ensures vRandom == old(vRandom)[nRndPos1 := old(vRandom)[nRndPos2]][nRndPos2 := old(vRandom)[nRndPos1]]
    {
      hide IndexOk, TablesOk, NewIds, TriedIds;
      if nRndPos1 == nRndPos2 {
        return;
      }
      var nId1, nId2 := vRandom[nRndPos1], vRandom[nRndPos2];
      SwapKeepsIndex(mapInfo, mapAddr, vRandom, nIdCount, nRndPos1, nRndPos2);
      assert nId1 in mapInfo && nId2 in mapInfo;
      ghost var before := mapInfo;
      mapInfo := mapInfo[nId1 := mapInfo[nId1].(nRandomPos := nRndPos2)];
      mapInfo := mapInfo[nId2 := mapInfo[nId2].(nRandomPos := nRndPos1)];
      vRandom := vRandom[nRndPos1 := nId2];
      vRandom := vRandom[nRndPos2 := nId1];
      ReorderKeepsTables(before, mapInfo, vvNew, vvTried, h, ex);
    }

    method Delete(nId: int, ghost ex: set<int>, ghost off: int)
      requires Consistent(ex, off) && nId in mapInfo && !mapInfo[nId].fInTried && mapInfo[nId].nRefCount == 0
      modifies this`mapInfo, this`mapAddr, this`vRandom, this`nNew
      ensures Consistent(ex - {nId}, off) && TriedIds(mapInfo) == TriedIds(old(mapInfo))
      ensures SameButOrder(old(mapInfo) - {nId}, mapInfo)
      ensures mapAddr == old(mapAddr) - {old(mapInfo)[nId].svc.addr}
    {
      hide IndexOk, TablesOk, NewIds, TriedIds, SameButOrder;
      IndexAt(mapInfo, mapAddr, vRandom, nIdCount, nId);
      var last := |vRandom| - 1;
      SwapRandom(mapInfo[nId].nRandomPos, last, ex, off);
      assert vRandom[last] == nId;
      OrderedWithout(old(mapInfo), mapInfo, nId);
      IndexFrom(mapInfo, mapAddr, vRandom, nIdCount, last);
      RemoveLastKeepsIndex(mapInfo, mapAddr, vRandom, nIdCount, nId);
      DropEntry(mapInfo, vvNew, vvTried, h, ex, nId);
      vRandom := vRandom[..last];
      mapAddr := mapAddr - {mapInfo[nId].svc.addr};
      mapInfo := mapInfo - {nId};
      nNew := nNew - 1;
    }

    method ClearNew(nUBucket: nat, nUBucketPos: nat, ghost ex: set<int>, ghost off: int)
      requires Consistent(ex, off) && nUBucket < NEW_BUCKET_COUNT && nUBucketPos < BUCKET_SIZE
      modifies this`mapInfo, this`mapAddr, this`vRandom, this`nNew, this`vvNew
      ensures Consistent(ex - {old(vvNew[nUBucket][nUBucketPos])}, off)
      ensures TriedIds(mapInfo) == TriedIds(old(mapInfo))
      ensures vvNew == Put(old(vvNew), nUBucket, nUBucketPos, -1)
      ensures var id := old(vvNew)[nUBucket][nUBucketPos];
              if id == -1 then mapInfo == old(mapInfo) && mapAddr == old(mapAddr)
              else
                && id in old(mapInfo) && !old(mapInfo)[id].fInTried
                && var n := old(mapInfo)[id].nRefCount - 1;
                if n == 0 then
                  && SameButOrder(old(mapInfo) - {id}, mapInfo)
                  && mapAddr == old(mapAddr) - {old(mapInfo)[id].svc.addr}
                else
                  mapInfo == old(mapInfo)[id := old(mapInfo)[id].(nRefCount := n)] && mapAddr == old(mapAddr)
    {
      hide IndexOk, NewIds, TriedIds, TablesOk, Info.IsTerrible;
      if vvNew[nUBucket][nUBucketPos] != -1 {
        var nIdDelete := vvNew[nUBucket][nUBucketPos];
        ClearSlot(mapInfo, vvNew, vvTried, h, ex, nUBucket, nUBucketPos);
        var info := mapInfo[nIdDelete].(nRefCount := mapInfo[nIdDelete].nRefCount - 1);
        RestatKeepsIndex(mapInfo, mapAddr, vRandom, nIdCount, nIdDelete, info);
        mapInfo := mapInfo[nIdDelete := info];
        vvNew := Put(vvNew, nUBucket, nUBucketPos, -1);
        if mapInfo[nIdDelete].nRefCount == 0 {
          Delete(nIdDelete, ex + {nIdDelete}, off);
          assert ex + {nIdDelete} - {nIdDelete} == ex - {nIdDelete};
        }
      } else {
        assert vvNew[nUBucket][nUBucketPos := -1] == vvNew[nUBucket];
        assert vvNew[nUBucket := vvNew[nUBucket]] == vvNew;
        LooseOnlyIfUsed(mapInfo, vvNew, vvTried, h, ex, -1);
      }
    }

    /** Clears a slot of the new table and gives it to an entry that belongs there.
        `lost` is the entry that was dropped on the way, or -1. */
    method Occupy(nId: int, nUBucket: nat, nUBucketPos: nat, ghost ex: set<int>, ghost off: int)
      returns (ghost lost: int)
      requires Consistent(ex, off) && nUBucket < NEW_BUCKET_COUNT
      requires nId in mapInfo && !mapInfo[nId].fInTried && mapInfo[nId].nRefCount < NEW_BUCKETS_PER_ADDRESS
      requires nUBucketPos == h.Position(true, nUBucket, mapInfo[nId].svc) && vvNew[nUBucket][nUBucketPos] != nId
      modifies this`mapInfo, this`mapAddr, this`vRandom, this`nNew, this`vvNew
      ensures Consistent(ex - {old(vvNew)[nUBucket][nUBucketPos]} - {nId}, off)
      ensures vvNew == Put(old(vvNew), nUBucket, nUBucketPos, nId)
      ensures TriedIds(mapInfo) == TriedIds(old(mapInfo))
      ensures Occupied(old(mapInfo), mapInfo, nId, old(vvNew)[nUBucket][nUBucketPos], lost)
      ensures lost == -1 ==> mapAddr == old(mapAddr)
      ensures lost != -1 ==> !old(mapInfo)[lost].fInTried && mapAddr == old(mapAddr) - {old(mapInfo)[lost].svc.addr}
    {
      hide IndexOk, NewIds, TriedIds, TablesOk;
      var info := mapInfo[nId];
      ghost var d := vvNew[nUBucket][nUBucketPos];
      lost := if d in mapInfo && mapInfo[d].nRefCount == 1 then d else -1;
      ClearNew(nUBucket, nUBucketPos, ex, off);
      assert Core(mapInfo[nId]) == Core(info);
      FillSlot(mapInfo, vvNew, vvTried, h, ex - {d}, nUBucket, nId);
      var filled := mapInfo[nId].(nRefCount := mapInfo[nId].nRefCount + 1);
      RestatKeepsIndex(mapInfo, mapAddr, vRandom, nIdCount, nId, filled);
      mapInfo := mapInfo[nId := filled];
      vvNew := Put(vvNew, nUBucket, nUBucketPos, nId);
      PutPut(old(vvNew), nUBucket, nUBucketPos, -1, nId);
    }

    /** MakeTried's first half: takes an entry out of every new bucket it is in. */
    method LeaveNew(nId: int)
      requires Valid() && nId in mapInfo && !mapInfo[nId].fInTried
      modifies this`mapInfo, this`vvNew
      ensures Consistent({nId}, 0)
      ensures mapInfo == old(mapInfo)[nId := old(mapInfo)[nId].(nRefCount := 0)]
      ensures TakenOut(old(vvNew), vvNew, nId)
    {
      hide IndexOk, TablesOk, NewIds, TriedIds;
      LooseAtWill(mapInfo, vvNew, vvTried, h, nId);
      for bucket := 0 to NEW_BUCKET_COUNT
        invariant Consistent({nId}, 0)
        invariant nId in mapInfo
        invariant mapInfo == old(mapInfo)[nId := old(mapInfo)[nId].(nRefCount := mapInfo[nId].nRefCount)]
        invariant forall b, p | 0 <= b < NEW_BUCKET_COUNT && 0 <= p < BUCKET_SIZE ::
                    vvNew[b][p] == if b < bucket && old(vvNew)[b][p] == nId then -1 else old(vvNew)[b][p]
      {
        var pos := h.Position(true, bucket, mapInfo[nId].svc);
        OnlyOwnSlot(mapInfo, vvNew, vvTried, h, {nId}, nId, bucket);
        if vvNew[bucket][pos] == nId {
          ClearOwnSlot(nId, bucket, pos);
        }
      }
      ReferencesCounted(mapInfo, vvNew, vvTried, h, {nId}, nId);
      ReferencedSomewhere(mapInfo, vvNew, vvTried, h, {nId}, nId);
    }

    /** One turn of that loop, for a bucket the entry is in. */
    method ClearOwnSlot(nId: int, bucket: nat, pos: nat)
      requires Consistent({nId}, 0) && bucket < NEW_BUCKET_COUNT && pos < BUCKET_SIZE
      requires vvNew[bucket][pos] == nId && nId in mapInfo
      modifies this`mapInfo, this`vvNew
      ensures Consistent({nId}, 0)
      ensures mapInfo == old(mapInfo)[nId := old(mapInfo)[nId].(nRefCount := old(mapInfo)[nId].nRefCount - 1)]
      ensures vvNew == Put(old(vvNew), bucket, pos, -1)
    {
      hide IndexOk, NewIds, TriedIds;
      ClearSlot(mapInfo, vvNew, vvTried, h, {nId}, bucket, pos);
      var info := mapInfo[nId].(nRefCount := mapInfo[nId].nRefCount - 1);
      RestatKeepsIndex(mapInfo, mapAddr, vRandom, nIdCount, nId, info);
      hide TablesOk;
      vvNew := Put(vvNew, bucket, pos, -1);
      mapInfo := mapInfo[nId := info];
      assert {nId} + {nId} == {nId};
    }

    /** Takes the entry in a tried slot out of the tried table. */
    method LeaveTried(nKBucket: nat, nKBucketPos: nat, ghost ex: set<int>, ghost off: int) returns (nIdEvict: int)
      requires Consistent(ex, off) && nKBucket < TRIED_BUCKET_COUNT && nKBucketPos < BUCKET_SIZE
      requires vvTried[nKBucket][nKBucketPos] != -1
      modifies this`mapInfo, this`nTried, this`vvTried
      ensures Consistent(ex + {nIdEvict}, off + 1)
      ensures nIdEvict == old(vvTried)[nKBucket][nKBucketPos] && nIdEvict in old(mapInfo)
      ensures old(mapInfo)[nIdEvict].fInTried && old(mapInfo)[nIdEvict].nRefCount == 0
      ensures mapInfo == old(mapInfo)[nIdEvict := old(mapInfo)[nIdEvict].(fInTried := false)]
      ensures TriedIds(mapInfo) == TriedIds(old(mapInfo)) - {nIdEvict}
      ensures vvTried == Put(old(vvTried), nKBucket, nKBucketPos, -1)
    {
      hide IndexOk, NewIds, TriedIds;
      nIdEvict := vvTried[nKBucket][nKBucketPos];
      Evict(mapInfo, vvNew, vvTried, h, ex, nKBucket, nKBucketPos);
      assert EntryPlaced(nIdEvict, mapInfo[nIdEvict], vvNew, vvTried, h, ex);
      hide TablesOk;
      var infoOld := mapInfo[nIdEvict].(fInTried := false);
      RestatKeepsIndex(mapInfo, mapAddr, vRandom, nIdCount, nIdEvict, infoOld);
      mapInfo := mapInfo[nIdEvict := infoOld];
      vvTried := Put(vvTried, nKBucket, nKBucketPos, -1);
      nTried := nTried - 1;
    }

    /** MakeTried's second half: moves the entry in a tried slot back to the new
        table, dropping whatever that displaces there. */
    method EvictTried(nKBucket: nat, nKBucketPos: nat, ghost nId: int) returns (ghost lost: int)
      requires Consistent({nId}, 1) && nKBucket < TRIED_BUCKET_COUNT && nKBucketPos < BUCKET_SIZE
      requires nId in mapInfo && mapInfo[nId].nRefCount == 0 && !mapInfo[nId].fInTried
      requires vvTried[nKBucket][nKBucketPos] != -1
      modifies this`mapInfo, this`mapAddr, this`vRandom, this`nNew, this`nTried, this`vvNew, this`vvTried
      ensures Consistent({nId}, 1) && vvTried == Put(old(vvTried), nKBucket, nKBucketPos, -1)
      ensures TriedIds(mapInfo) == TriedIds(old(mapInfo)) - {old(vvTried)[nKBucket][nKBucketPos]}
      ensures mapInfo.Keys == old(mapInfo).Keys - {lost} && lost != nId
      ensures Core(mapInfo[nId]) == Core(old(mapInfo)[nId])
      ensures lost in old(mapInfo) ==> !old(mapInfo)[lost].fInTried && old(mapInfo)[lost].nRefCount == 1
      ensures var e := old(vvTried)[nKBucket][nKBucketPos];
              && Reentered(old(mapInfo), old(vvNew), mapInfo, h, nId, e, lost)
              && vvNew == Housed(old(vvNew), h, old(mapInfo)[e], e)
    {
      hide IndexOk, NewIds, TriedIds, TablesOk, Put, Hashes.NewBucket, Hashes.Position, Info.IsTerrible, NewInfo;
      var nIdEvict := LeaveTried(nKBucket, nKBucketPos, {nId}, 1);
      lost := Reenter(nIdEvict, nId);
    }

    /** Puts an entry that has left the tried table into its slot of the new table. */
    method Reenter(nIdEvict: int, ghost nId: int) returns (ghost lost: int)
      requires Consistent({nId} + {nIdEvict}, 2) && nIdEvict != nId && nId in mapInfo && nIdEvict in mapInfo
      requires !mapInfo[nId].fInTried && mapInfo[nId].nRefCount == 0
      requires !mapInfo[nIdEvict].fInTried && mapInfo[nIdEvict].nRefCount == 0
      modifies this`mapInfo, this`mapAddr, this`vRandom, this`nNew, this`vvNew
      ensures Consistent({nId}, 1) && TriedIds(mapInfo) == TriedIds(old(mapInfo))
      ensures mapInfo.Keys == old(mapInfo).Keys - {lost} && lost != nId && lost != nIdEvict
      ensures Core(mapInfo[nId]) == Core(old(mapInfo)[nId])
      ensures lost in old(mapInfo) ==> !old(mapInfo)[lost].fInTried && old(mapInfo)[lost].nRefCount == 1
      ensures Reentered(old(mapInfo), old(vvNew), mapInfo, h, nId, nIdEvict, lost)
      ensures vvNew == Housed(old(vvNew), h, old(mapInfo)[nIdEvict], nIdEvict)
    {
      hide IndexOk, NewIds, TriedIds, TablesOk, Put, Hashes.NewBucket, Hashes.Position, Info.IsTerrible;
      var infoOld := mapInfo[nIdEvict];
      var nUBucket := h.NewBucket(infoOld.svc, infoOld.source);
      var nUBucketPos := h.Position(true, nUBucket, infoOld.svc);
      SlotHasReference(mapInfo, vvNew, vvTried, h, {nId} + {nIdEvict}, nUBucket, nUBucketPos);
      ghost var d := vvNew[nUBucket][nUBucketPos];
      OnlyOneLeft(nId, nIdEvict, d);
      lost := Occupy(nIdEvict, nUBucket, nUBucketPos, {nId} + {nIdEvict}, 2);
      nNew := nNew + 1;
    }

    /** Moves an entry from the new table to its slot of the tried table. Whoever
        held the slot becomes a new entry again; at most one new entry, down to
        its last reference, is lost to make room for it. */
    method MakeTried(nId: int) returns (ghost lost: int)
      requires Valid() && nId in mapInfo && !mapInfo[nId].fInTried
      modifies this`mapInfo, this`mapAddr, this`vRandom, this`nNew, this`nTried, this`vvNew, this`vvTried
      ensures Valid()
      ensures MadeTried(old(mapInfo), old(vvNew), old(vvTried), mapInfo, vvNew, vvTried, h, nId, lost)
      ensures lost in old(mapInfo) ==> !old(mapInfo)[lost].fInTried && old(mapInfo)[lost].nRefCount == 1
      ensures var b := h.TriedBucket(old(mapInfo)[nId].svc);
              var p := h.Position(false, b, old(mapInfo)[nId].svc);
              TriedIds(mapInfo) == TriedIds(old(mapInfo)) - {old(vvTried)[b][p]} + {nId}
    {
      hide IndexOk, NewIds, TriedIds, TablesOk, Put, MadeTried, Reentered, TakenOut;
      hide Hashes.TriedBucket, Hashes.Position;
      LeaveNew(nId);
      RestatTriedIds(old(mapInfo), mapInfo);
      nNew := nNew - 1;
      assert mapInfo[nId].nRefCount == 0;
      var nKBucket := h.TriedBucket(mapInfo[nId].svc);
      var nKBucketPos := h.Position(false, nKBucket, mapInfo[nId].svc);
      ghost var cleared := vvNew;
      lost := VacateTried(nKBucket, nKBucketPos, nId);
      MadeTriedBySteps(old(mapInfo), old(vvNew), old(vvTried), cleared, mapInfo, vvNew, h, nId, nKBucket, nKBucketPos,
                       lost);
      EnterTried(nId, nKBucket, nKBucketPos);
      PutPut(old(vvTried), nKBucket, nKBucketPos, -1, nId);
    }

    /** Empties a tried slot, if it is not empty already. */
    method VacateTried(nKBucket: nat, nKBucketPos: nat, ghost nId: int) returns (ghost lost: int)
      requires Consistent({nId}, 1) && nKBucket < TRIED_BUCKET_COUNT && nKBucketPos < BUCKET_SIZE
      requires nId in mapInfo && mapInfo[nId].nRefCount == 0 && !mapInfo[nId].fInTried
      modifies this`mapInfo, this`mapAddr, this`vRandom, this`nNew, this`nTried, this`vvNew, this`vvTried
      ensures Consistent({nId}, 1) && vvTried == Put(old(vvTried), nKBucket, nKBucketPos, -1)
      ensures TriedIds(mapInfo) == TriedIds(old(mapInfo)) - {old(vvTried)[nKBucket][nKBucketPos]}
      ensures mapInfo.Keys == old(mapInfo).Keys - {lost} && lost != nId
      ensures Core(mapInfo[nId]) == Core(old(mapInfo)[nId])
      ensures lost in old(mapInfo) ==> !old(mapInfo)[lost].fInTried && old(mapInfo)[lost].nRefCount == 1
      ensures var e := old(vvTried)[nKBucket][nKBucketPos];
              if e == -1 then lost == -1 && mapInfo == old(mapInfo) && vvNew == old(vvNew)
              else
                && Reentered(old(mapInfo), old(vvNew), mapInfo, h, nId, e, lost)
                && vvNew == Housed(old(vvNew), h, old(mapInfo)[e], e)
    {
      hide IndexOk, NewIds, TablesOk, Reentered;
      if vvTried[nKBucket][nKBucketPos] != -1 {
        lost := EvictTried(nKBucket, nKBucketPos, nId);
      } else {
        lost := -1;
        assert vvTried[nKBucket][nKBucketPos := -1] == vvTried[nKBucket];
        assert vvTried[nKBucket := vvTried[nKBucket]] == vvTried;
      }
    }

    /** MakeTried's last step. */
    method EnterTried(nId: int, nKBucket: nat, nKBucketPos: nat)
      requires Consistent({nId}, 1) && nId in mapInfo && !mapInfo[nId].fInTried
      requires mapInfo[nId].nRefCount == 0
      requires nKBucket == h.TriedBucket(mapInfo[nId].svc)
      requires nKBucketPos == h.Position(false, nKBucket, mapInfo[nId].svc)
      requires vvTried[nKBucket][nKBucketPos] == -1
      modifies this`mapInfo, this`nTried, this`vvTried
      ensures Valid() && vvTried == Put(old(vvTried), nKBucket, nKBucketPos, nId)
      ensures mapInfo == old(mapInfo)[nId := old(mapInfo)[nId].(fInTried := true)]
      ensures TriedIds(mapInfo) == TriedIds(old(mapInfo)) + {nId}
    {
      hide IndexOk, NewIds, TriedIds, TablesOk;
      Promote(mapInfo, vvNew, vvTried, h, {nId}, nId);
      RestatKeepsIndex(mapInfo, mapAddr, vRandom, nIdCount, nId, mapInfo[nId].(fInTried := true));
      assert {nId} - {nId} == {};
      vvTried := Put(vvTried, nKBucket, nKBucketPos, nId);
      nTried := nTried + 1;
      mapInfo := mapInfo[nId := mapInfo[nId].(fInTried := true)];
    }

    /** Replaces the statistics of one entry. */
    method Restat(nId: int, info: Info, ghost ex: set<int>)
      requires Consistent(ex, 0) && nId in mapInfo
      requires SamePlace(mapInfo[nId], info) && info.nRandomPos == mapInfo[nId].nRandomPos
      modifies this`mapInfo
      ensures Consistent(ex, 0) && mapInfo == old(mapInfo)[nId := info]
      ensures old(Sane()) ==> (Sane() <==> SaneStats(info))
    {
      hide IndexOk, TablesOk, NewIds, TriedIds;
      RestatKeepsIndex(mapInfo, mapAddr, vRandom, nIdCount, nId, info);
      ghost var before := mapInfo;
      mapInfo := mapInfo[nId := info];
      RestatKeepsTables(before, mapInfo, vvNew, vvTried, h, ex);
    }

    /** Marks an address as good. A known service that is not yet tried becomes
        tried; the search for one of its new buckets always succeeds. */
    method Good(addr: Service, nTime: int, nRnd: nat) returns (ghost lost: int)
      requires Valid() && nRnd < NEW_BUCKET_COUNT
      modifies this
      ensures Valid() && nLastGood == nTime
      ensures !Knows(old(mapAddr), old(mapInfo), addr) ==>
                lost == -1 && mapInfo == old(mapInfo) && vvNew == old(vvNew) && vvTried == old(vvTried)
      ensures Knows(old(mapAddr), old(mapInfo), addr) ==>
                var id := old(mapAddr)[addr.addr];
                var infos := old(mapInfo)[id := Succeeded(old(mapInfo)[id], nTime)];
                if infos[id].fInTried then
                  lost == -1 && mapInfo == infos && vvNew == old(vvNew) && vvTried == old(vvTried)
                else
                  MadeTried(infos, old(vvNew), old(vvTried), mapInfo, vvNew, vvTried, h, id, lost)
      ensures Knows(old(mapAddr), old(mapInfo), addr) ==>
                var id := old(mapAddr)[addr.addr];
                id in mapInfo && Proven(old(mapInfo)[id], mapInfo[id], nTime)
      ensures old(Sane()) ==> (Sane() <==> Knows(old(mapAddr), old(mapInfo), addr) ==> nTime > 0)
    {
      hide IndexOk, NewIds, TriedIds, TablesOk, Reentered, TakenOut, StatsOk, Put;
      lost := -1;
      nLastGood := nTime;
      var found, nId := Find(addr.addr);
      if !found {
        return;
      }
      if mapInfo[nId].svc != addr {
        return;
      }
      Restat(nId, mapInfo[nId].(nLastSuccess := nTime, nLastTry := nTime, nAttempts := 0), {});
      if mapInfo[nId].fInTried {
        return;
      }
      ghost var infos := mapInfo;
      var nUBucket := FindNewBucket(nId, nRnd);
      if nUBucket == -1 {
        assert false;
      }
      lost := MakeTried(nId);
      if StatsOk(infos) {
        MadeTriedStats(infos, old(vvNew), old(vvTried), mapInfo, vvNew, vvTried, h, nId, lost);
      } else {
        StatsOf(mapInfo, nId);
      }
    }

    /** Looks for a bucket the entry is in, starting anywhere. */
    method FindNewBucket(nId: int, nRnd: nat) returns (nUBucket: int)
      requires Valid() && nId in mapInfo && !mapInfo[nId].fInTried && nRnd < NEW_BUCKET_COUNT
      ensures 0 <= nUBucket < NEW_BUCKET_COUNT
      ensures vvNew[nUBucket][h.Position(true, nUBucket, mapInfo[nId].svc)] == nId
    {
      hide IndexOk, TablesOk, NewIds, TriedIds;
      nUBucket := -1;
      var n := 0;
      ghost var slots := Slots(vvNew, h, mapInfo[nId].svc, nId);
      ReferencesCounted(mapInfo, vvNew, vvTried, h, {}, nId);
      ReferencedSomewhere(mapInfo, vvNew, vvTried, h, {}, nId);
      ghost var somewhere :| somewhere in slots;
      while n < NEW_BUCKET_COUNT
        invariant 0 <= n <= NEW_BUCKET_COUNT
        invariant n <= if somewhere >= nRnd then somewhere - nRnd else somewhere - nRnd + NEW_BUCKET_COUNT
      {
        var nB := (n + nRnd) % NEW_BUCKET_COUNT;
        var nBpos := h.Position(true, nB, mapInfo[nId].svc);
        if vvNew[nB][nBpos] == nId {
          nUBucket := nB;
          return;
        }
        n := n + 1;
      }
      assert false;
    }

    /** Add's last part: gives the entry a slot chosen by the source, if that slot
        is free or can be taken over, and drops the entry if it ends up nowhere. */
    method Place(nId: int, source: NetAddr, nNow: int, ghost ex: set<int>) returns (ghost lost: int)
      requires Consistent(ex, 0) && ex <= {nId}
      requires nId in mapInfo && !mapInfo[nId].fInTried && mapInfo[nId].nRefCount < NEW_BUCKETS_PER_ADDRESS
      modifies this`mapInfo, this`mapAddr, this`vRandom, this`nNew, this`vvNew
      ensures Valid()
      ensures Placed(old(mapInfo), old(vvNew), mapInfo, vvNew, h, nId, source, nNow, lost)
    {
      hide IndexOk, NewIds, TriedIds, TablesOk, Placed, Occupied, Put, SameButOrder, Hashes.NewBucket, Hashes.Position;
      lost := -1;
      var nUBucket := h.NewBucket(mapInfo[nId].svc, source);
      var nUBucketPos := h.Position(true, nUBucket, mapInfo[nId].svc);
      SlotHasReference(mapInfo, vvNew, vvTried, h, ex, nUBucket, nUBucketPos);
      ReferencesCounted(mapInfo, vvNew, vvTried, h, ex, nId);
      ghost var infos, table, d := mapInfo, vvNew, vvNew[nUBucket][nUBucketPos];
      var fInsert := false;
      if vvNew[nUBucket][nUBucketPos] != nId {
        fInsert := vvNew[nUBucket][nUBucketPos] == -1;
        if !fInsert {
          var infoExisting := mapInfo[vvNew[nUBucket][nUBucketPos]];
          if infoExisting.IsTerrible(nNow) || (infoExisting.nRefCount > 1 && mapInfo[nId].nRefCount == 0) {
            fInsert := true;
          }
        }
        if fInsert {
          lost := Occupy(nId, nUBucket, nUBucketPos, ex, 0);
          assert ex - {d} - {nId} == {};
          PlacedTaking(infos, table, mapInfo, h, nId, source, nNow, nUBucket, nUBucketPos, lost);
        } else {
          if mapInfo[nId].nRefCount == 0 {
            lost := nId;
            Delete(nId, ex, 0);
          }
        }
      }
      if !fInsert {
        assert ex - {nId} == {};
        if lost == -1 {
          LooseOnlyIfUsed(mapInfo, vvNew, vvTried, h, ex, nId);
        }
        PlacedNowhere(infos, table, mapInfo, h, nId, source, nNow, nUBucket, nUBucketPos);
      }
    }

    /** Moves the time if it is old enough, and adds services. */
    method Update(known: Info, addr: Address, nTimePenalty: int, nNow: int) returns (info: Info)
      ensures info == Refreshed(known, addr, nTimePenalty, nNow) && SameHistory(known, info)
      ensures info == known.(nTime := info.nTime, nServices := info.nServices)
      ensures Updated(known, info, addr, nTimePenalty, nNow)
    {
      info := known;
      var fCurrentlyOnline := nNow - addr.nTime < 24 * 60 * 60;
      var nUpdateInterval := if fCurrentlyOnline then 60 * 60 else 24 * 60 * 60;
      if addr.nTime != 0 && (info.nTime == 0 || info.nTime < addr.nTime - nUpdateInterval - nTimePenalty) {
        info := info.(nTime := Max0(addr.nTime - nTimePenalty));
      }
      info := info.(nServices := info.nServices + addr.nServices);
      RefreshedIs(known, addr, nTimePenalty, nNow);
    }

    /** Add for a known address: refreshes its time and services, and decides by
        the given draw whether it may get one more reference. */
    method Refresh(nId: int, addr: Address, nTimePenalty: int, nNow: int, rnd: nat) returns (proceed: bool)
      requires Valid() && nId in mapInfo
      modifies this`mapInfo
      ensures Valid() && mapInfo == old(mapInfo)[nId := Refreshed(old(mapInfo)[nId], addr, nTimePenalty, nNow)]
      ensures old(Sane()) ==> Sane()
      ensures proceed <==> Eligible(mapInfo[nId], addr, rnd)
    {
      hide IndexOk, NewIds, TriedIds, TablesOk, Refreshed;
      ReferencesCounted(mapInfo, vvNew, vvTried, h, {}, nId);
      var info := Update(mapInfo[nId], addr, nTimePenalty, nNow);
      Restat(nId, info, {});
      proceed := false;
      if addr.nTime == 0 || (info.nTime != 0 && addr.nTime <= info.nTime) {
        return;
      }
      if info.fInTried {
        return;
      }
      if info.nRefCount == NEW_BUCKETS_PER_ADDRESS {
        return;
      }
      var nFactor := Factor(info.nRefCount);
      if nFactor > 1 && rnd % nFactor != 0 {
        return;
      }
      proceed := true;
    }

    /** Adds an address heard of from `source`. Returns true exactly for a routable
        address that was unknown, even if it then finds no place. An entry is lost
        only if it was terrible, in the new table, and down to one reference. */
    method Add(addr: Address, routable: bool, source: NetAddr, penalty: int, nNow: int, nLater: int, rnd: nat)
      returns (fNew: bool, ghost lost: int)
      requires Valid()
      modifies this`nIdCount, this`mapInfo, this`mapAddr, this`vRandom, this`nNew, this`vvNew
      ensures Valid() && (old(Sane()) ==> Sane())
      ensures fNew <==> routable && addr.svc.addr !in old(mapAddr)
      ensures !routable ==> unchanged(this)
      ensures lost in old(mapInfo) ==>
                && !old(mapInfo)[lost].fInTried && old(mapInfo)[lost].nRefCount == 1
                && old(mapInfo)[lost].IsTerrible(nLater)
      ensures routable && !fNew ==>
                var id := old(mapAddr)[addr.svc.addr];
                var nTimePenalty := if addr.svc.addr == source then 0 else penalty;
                && id in old(mapInfo)
                && Reannounced(old(mapInfo), old(vvNew), mapInfo, vvNew, h, id,
                               Refreshed(old(mapInfo)[id], addr, nTimePenalty, nNow), addr, source, nLater, rnd, lost)
                && id in mapInfo && Updated(old(mapInfo)[id], mapInfo[id], addr, nTimePenalty, nNow)
      ensures fNew ==>
                var nTimePenalty := if addr.svc.addr == source then 0 else penalty;
                && Entered(old(mapInfo), old(vvNew), mapInfo, vvNew, h, old(nIdCount),
                           NewInfo(addr, source).(nTime := Max0(addr.nTime - nTimePenalty)), nLater, lost)
                && (old(nIdCount) in mapInfo ==> Noted(mapInfo[old(nIdCount)], addr, source, nTimePenalty))
    {
      hide IndexOk, NewIds, TriedIds, TablesOk, Entered, Reannounced, Refreshed, Info.IsTerrible, StatsOk;
      hide Updated, Noted;
      fNew, lost := false, -1;
      if !routable {
        return;
      }
      var found, nId := Find(addr.svc.addr);
      var nTimePenalty := if addr.svc.addr == source then 0 else penalty;
      IndexComplete(mapInfo, mapAddr, vRandom, nIdCount, addr.svc.addr);
      if found {
        lost := AddKnown(nId, addr, source, nTimePenalty, nNow, nLater, rnd);
        ReannouncedIs(old(mapInfo), old(vvNew), mapInfo, vvNew, h, nId, addr, nTimePenalty, nNow, source, nLater, rnd,
                      lost);
      } else {
        fNew := true;
        NextIsNew(mapInfo, mapAddr, vRandom, nIdCount);
        lost := AddUnknown(addr, source, nTimePenalty, nLater);
        EnteredIs(old(mapInfo), old(vvNew), mapInfo, vvNew, h, old(nIdCount), addr, source, nTimePenalty, nLater, lost);
      }
    }

    /** Add for a known address. */
    method AddKnown(nId: int, addr: Address, source: NetAddr, nTimePenalty: int, nNow: int, nLater: int, rnd: nat)
      returns (ghost lost: int)
      requires Valid() && nId in mapInfo
      modifies this`mapInfo, this`mapAddr, this`vRandom, this`nNew, this`vvNew
      ensures Valid() && (old(Sane()) ==> Sane())
      ensures lost in old(mapInfo) ==>
                && !old(mapInfo)[lost].fInTried && old(mapInfo)[lost].nRefCount == 1
                && old(mapInfo)[lost].IsTerrible(nLater)
      ensures Reannounced(old(mapInfo), old(vvNew), mapInfo, vvNew, h, nId,
                          Refreshed(old(mapInfo)[nId], addr, nTimePenalty, nNow), addr, source, nLater, rnd, lost)
    {
      hide IndexOk, NewIds, TriedIds, TablesOk, Put, Hashes.NewBucket, Hashes.Position, Info.IsTerrible;
      hide Placed, Reannounced, Kept, StatsOk, Eligible, Refreshed;
      lost := -1;
      var proceed := Refresh(nId, addr, nTimePenalty, nNow, rnd);
      ghost var infos := mapInfo;
      ReferencesCounted(mapInfo, vvNew, vvTried, h, {}, nId);
      if proceed {
        EligibleIs(mapInfo[nId], addr, rnd);
        lost := Place(nId, source, nLater, {});
        PlacedKept(infos, old(vvNew), mapInfo, vvNew, h, nId, source, nLater, lost);
        if old(Sane()) {
          KeptStats(infos, mapInfo, {});
        }
      }
      ReannouncedBySteps(old(mapInfo), old(vvNew), mapInfo, vvNew, h, nId,
                         Refreshed(old(mapInfo)[nId], addr, nTimePenalty, nNow), addr, source, nLater, rnd, lost);
    }

    /** Makes an entry for an unknown address, not yet in any bucket. */
    method CreateNew(addr: Address, source: NetAddr, nTimePenalty: int) returns (nId: int)
      requires Valid() && addr.svc.addr !in mapAddr
      modifies this`nIdCount, this`mapInfo, this`mapAddr, this`vRandom, this`nNew
      ensures Consistent({nId}, 0) && nId == old(nIdCount) && nId !in old(mapInfo)
      ensures nId in mapInfo && mapInfo == old(mapInfo)[nId := mapInfo[nId]]
      ensures Core(mapInfo[nId]) == Core(NewInfo(addr, source).(nTime := Max0(addr.nTime - nTimePenalty)))
      ensures old(Sane()) ==> Sane()
    {
      hide IndexOk, NewIds, TriedIds, TablesOk;
      nId := Create(addr, source, {});
      assert {} + {nId} == {nId};
      nNew := nNew + 1;
      Restat(nId, mapInfo[nId].(nTime := Max0(mapInfo[nId].nTime - nTimePenalty)), {nId});
    }

    /** Add for an unknown address. */
    method AddUnknown(addr: Address, source: NetAddr, nTimePenalty: int, nLater: int) returns (ghost lost: int)
      requires Valid() && addr.svc.addr !in mapAddr
      modifies this`nIdCount, this`mapInfo, this`mapAddr, this`vRandom, this`nNew, this`vvNew
      ensures Valid() && (old(Sane()) ==> Sane())
      ensures lost in old(mapInfo) ==>
                && !old(mapInfo)[lost].fInTried && old(mapInfo)[lost].nRefCount == 1
                && old(mapInfo)[lost].IsTerrible(nLater)
      ensures Entered(old(mapInfo), old(vvNew), mapInfo, vvNew, h, old(nIdCount),
                      NewInfo(addr, source).(nTime := Max0(addr.nTime - nTimePenalty)), nLater, lost)
    {
      hide IndexOk, NewIds, TriedIds, TablesOk, Hashes.NewBucket, Hashes.Position, TakesOver, Info.IsTerrible, Put;
      hide StatsOk, Kept, Placed, Entered;
      var nId := CreateNew(addr, source, nTimePenalty);
      ghost var infos := mapInfo;
      ghost var e := NewInfo(addr, source).(nTime := Max0(addr.nTime - nTimePenalty));
      SlotHasReference(mapInfo, vvNew, vvTried, h, {nId}, HomeBucket(h, e), HomeSlot(h, e));
      lost := Place(nId, source, nLater, {nId});
      EnteredBySteps(old(mapInfo), old(vvNew), infos, mapInfo, vvNew, h, nId, e, nLater, lost);
      PlacedKept(infos, old(vvNew), mapInfo, vvNew, h, nId, source, nLater, lost);
      if old(Sane()) {
        KeptStats(infos, mapInfo, {});
      }
    }

    method Attempt(addr: Service, fCountFailure: bool, nTime: int)
      requires Valid()
      modifies this`mapInfo
      ensures Valid()
      ensures mapInfo == if Knows(mapAddr, old(mapInfo), addr) then
                           var id := mapAddr[addr.addr];
                           old(mapInfo)[id := Attempted(old(mapInfo)[id], fCountFailure, nTime, nLastGood)]
                         else old(mapInfo)
      ensures old(Sane()) ==> (Sane() <==> Knows(mapAddr, old(mapInfo), addr) ==> nTime >= 0)
    {
      hide IndexOk, NewIds, TriedIds, TablesOk;
      var found, nId := Find(addr.addr);
      if !found || mapInfo[nId].svc != addr {
        return;
      }
      var info := mapInfo[nId].(nLastTry := nTime);
      if fCountFailure && info.nLastCountAttempt < nLastGood {
        info := info.(nLastCountAttempt := nTime, nAttempts := info.nAttempts + 1);
      }
      Restat(nId, info, {});
    }

    method Connected(addr: Service, nTime: int)
      requires Valid()
      modifies this`mapInfo
      ensures Valid() && (old(Sane()) ==> Sane())
      ensures var id := if addr.addr in mapAddr then mapAddr[addr.addr] else -1;
              mapInfo == if Knows(mapAddr, old(mapInfo), addr) && nTime - old(mapInfo)[id].nTime > 20 * 60
                         then old(mapInfo)[id := old(mapInfo)[id].(nTime := nTime)]
                         else old(mapInfo)
    {
      hide IndexOk, NewIds, TriedIds, TablesOk;
      var found, nId := Find(addr.addr);
      if !found || mapInfo[nId].svc != addr {
        return;
      }
      if nTime - mapInfo[nId].nTime > 20 * 60 {
        Restat(nId, mapInfo[nId].(nTime := nTime), {});
      }
    }

    method SetServices(addr: Service, nServices: Services)
      requires Valid()
      modifies this`mapInfo
      ensures Valid() && (old(Sane()) ==> Sane())
      ensures mapInfo == if Knows(mapAddr, old(mapInfo), addr) then
                           var id := mapAddr[addr.addr];
                           old(mapInfo)[id := old(mapInfo)[id].(nServices := nServices)]
                         else old(mapInfo)
    {
      hide IndexOk, NewIds, TriedIds, TablesOk;
      var found, nId := Find(addr.addr);
      if !found || mapInfo[nId].svc != addr {
        return;
      }
      Restat(nId, mapInfo[nId].(nServices := nServices), {});
    }

    /** One draw: brings a randomly chosen entry not drawn before to position `n`. */
    method Draw(n: nat, draw: nat) returns (nId: int)
      requires Valid() && n < |vRandom|
      modifies this`mapInfo, this`vRandom
      ensures Valid() && SameButOrder(old(mapInfo), mapInfo)
      ensures |vRandom| == |old(vRandom)| && vRandom[..n] == old(vRandom)[..n]
      ensures nId == vRandom[n] && nId in mapInfo
    {
      hide IndexOk, TablesOk, NewIds, TriedIds;
      var nRndPos := draw % (|vRandom| - n) + n;
      SwapRandom(n, nRndPos, {}, 0);
      nId := vRandom[n];
      IndexFrom(mapInfo, mapAddr, vRandom, nIdCount, n);
    }

    /** Draws known addresses at random: different entries, none of them terrible when
        it was drawn, as many as there are within the limits. The clock is read anew for
        every draw. Only the order of vRandom changes. */
    method GetAddr(times: seq<int>, draws: seq<nat>) returns (vAddr: seq<Address>, ghost at: seq<nat>)
      requires Valid() && |draws| == |times| == |vRandom|
      modifies this`mapInfo, this`vRandom
      ensures Valid() && SameButOrder(old(mapInfo), mapInfo) && (old(Sane()) ==> Sane()) && |vRandom| == |times|
      ensures |vAddr| == Min(Limit(|vRandom|), Worthwhile(mapInfo, vRandom, times, |vRandom|))
      ensures |at| == |vAddr| && forall i, j | 0 <= i < j < |at| :: at[i] < at[j] < |vRandom|
      ensures forall i | 0 <= i < |at| :: at[i] < |vRandom| && Offered(mapInfo, vRandom[at[i]], vAddr[i], times[at[i]])
      ensures times != [] && (forall k | 0 <= k < |times| :: times[k] == times[0]) ==>
                |vAddr| == Min(Limit(|vRandom|), |Fit(old(mapInfo), times[0])|)
    {
      hide IndexOk, TablesOk, NewIds, TriedIds, SameButOrder, Fit, Drawing, Worthwhile, StatsOk, Info.IsTerrible;
      var nNodes := GETADDR_MAX_PCT * |vRandom| / 100;
      if nNodes > GETADDR_MAX {
        nNodes := GETADDR_MAX;
      }
      vAddr, at := [], [];
      var n := 0;
      DrawingStarts(mapInfo, vRandom, times);
      while n < |vRandom|
        invariant 0 <= n <= |vRandom| == |times| && |vAddr| <= nNodes
        invariant Valid() && SameButOrder(old(mapInfo), mapInfo) && Drawing(mapInfo, vRandom, n, vAddr, at, times)
      {
        if |vAddr| >= nNodes {
          break;
        }
        ghost var infos, order := mapInfo, vRandom;
        var nId := Draw(n, draws[n]);
        OrderedAnew(old(mapInfo), infos, mapInfo);
        DrawingKept(infos, order, mapInfo, vRandom, n, vAddr, at, times);
        DrawingStep(mapInfo, vRandom, n, vAddr, at, times);
        var ai := mapInfo[nId];
        if !ai.IsTerrible(times[n]) {
          vAddr, at := vAddr + [Address(ai.svc, ai.nServices, Max0(ai.nTime))], at + [n];
        }
        n := n + 1;
      }
      DrawingMeans(mapInfo, vRandom, n, vAddr, at, times);
      if times != [] && forall k | 0 <= k < |times| :: times[k] == times[0] {
        OneReading(mapInfo, mapAddr, vRandom, nIdCount, times, times[0]);
        FitSame(old(mapInfo), mapInfo, times[0]);
      }
      ReorderKept(old(mapInfo), mapInfo);
      if old(Sane()) {
        KeptStats(old(mapInfo), mapInfo, {});
      }
    }

    // ------------------------------------------------------------------ runs

    /** A valid manager with a key passes its own consistency check exactly if the
        times on record make sense. */
    lemma ValidAgrees()
      requires Valid() && h.key != 0
      ensures Agreeing(mapInfo, mapAddr, vRandom, nNew, nTried, vvNew, vvTried, h) <==> Sane()
      ensures forall id | id in mapInfo :: id >= 0
    {
      forall id | id in mapInfo ensures EntryChecked(id, mapInfo[id], mapAddr, vRandom) <==> SaneStats(mapInfo[id]) {
        assert EntryIndexed(id, mapInfo[id], mapAddr, vRandom, nIdCount);
        assert EntryPlaced(id, mapInfo[id], vvNew, vvTried, h, {});
      }
      assert mapInfo.Keys == NewIds(mapInfo) + TriedIds(mapInfo);
    }

    method Perform(op: Op)
      requires Valid() && op.Legal()
      modifies this
      ensures Valid() && (old(Sane()) && op.Timely() ==> Sane())
    {
      hide IndexOk, TablesOk, NewIds, TriedIds, StatsOk, MadeTried, Entered, Reannounced;
      match op
      case Add(addr, routable, source, penalty, nNow, nLater, rnd) =>
        var fNew, lost := Add(addr, routable, source, penalty, nNow, nLater, rnd);
      case Good(addr, nTime, nRnd) => var lost := Good(addr, nTime, nRnd);
      case Attempt(addr, fCountFailure, nTime) => Attempt(addr, fCountFailure, nTime);
      case Connected(addr, nTime) => Connected(addr, nTime);
      case SetServices(addr, nServices) => SetServices(addr, nServices);
      case GetAddr(now, draw) =>
        var times, draws := seq(|vRandom|, i requires i >= 0 => now(i)), seq(|vRandom|, i requires i >= 0 => draw(i));
        var vAddr, at := GetAddr(times, draws);
    }

    /** Every run of operations, whatever the draws and the clock, ends in a state that
        the consistency check accepts exactly if the times on record make sense, and
        they do if no clock was ever before the epoch. */
    method RunAndCheck(ops: seq<Op>) returns (err: int)
      requires Valid() && h.key != 0
      requires forall op | op in ops :: op.Legal()
      modifies this
      ensures Valid() && (err == 0 <==> Sane())
      ensures old(Sane()) && (forall op | op in ops :: op.Timely()) ==> err == 0
    {
      hide IndexOk, TablesOk, NewIds, TriedIds, StatsOk, Agreeing;
      for i := 0 to |ops|
        invariant Valid()
        invariant old(Sane()) && (forall op | op in ops :: op.Timely()) ==> Sane()
      {
        Perform(ops[i]);
      }
      ValidAgrees();
      err := Check(mapInfo, mapAddr, vRandom, nNew, nTried, vvNew, vvTried, h);
    }
  }

  // -------------------------------------------------------- where promises end

  lemma OnlyKnown(infos: Infos, addrs: map<NetAddr, int>, order: seq<int>, nIdCount: int, a: NetAddr)
    requires IndexOk(infos, addrs, order, nIdCount) && infos.Keys == {0} && Data(infos[0]).svc.addr != a
    ensures a !in addrs
  {
  }

  /** Hashes that give every address the first slot of the first bucket. */
  function OneSlot(): Hashes {
    Hashes((_, _) => 0, (_, _, _) => 0, (_, _, _, _) => 0, 1)
  }

  lemma AtHome(e: Info)
    ensures HomeBucket(OneSlot(), e) == 0 && HomeSlot(OneSlot(), e) == 0
  {
  }

  lemma FirstStored(untried: Table, after: Infos, untriedAfter: Table, e: Info, lost: int)
    requires EmptyTable(untried, NEW_BUCKET_COUNT)
    requires Entered(map[], untried, after, untriedAfter, OneSlot(), 0, e, 1000, lost)
    ensures after.Keys == {0} && Core(after[0]) == Core(e).(nRefCount := 1)
    ensures Shaped(untriedAfter, NEW_BUCKET_COUNT) && untriedAfter[0][0] == 0
  {
    AtHome(e);
    hide OneSlot, HomeBucket, HomeSlot, Kept, TakesOver;
  }

  lemma SecondTurnedAway(before: Infos, untried: Table, after: Infos, untriedAfter: Table, id: int, e: Info, lost: int)
    requires Shaped(untried, NEW_BUCKET_COUNT) && untried[0][0] == 0 && before.Keys == {0} && id != 0
    requires before[0].nRefCount == 1 && !before[0].IsTerrible(1000)
    requires Entered(before, untried, after, untriedAfter, OneSlot(), id, e, 1000, lost)
    requires lost in before ==> before[lost].IsTerrible(1000)
    ensures after.Keys == {0} && Data(after[0]) == Data(before[0])
  {
    AtHome(e);
    hide OneSlot, HomeBucket, HomeSlot, Kept, Entered, Info.IsTerrible;
    TurnedAway(before, untried, after, untriedAfter, OneSlot(), id, e, 1000, lost);
    assert after.Keys == {0};
    KeptAt(before, after, 0);
  }

  /** Where all addresses share one slot, the second is reported as new and not stored. */
  method AcceptedButNotStored() returns (m: AddrManager, fNew: bool)
    ensures fNew && m.Valid() && m.mapInfo.Keys == {0} && 2 !in m.mapAddr
  {
    hide IndexOk, TablesOk, NewIds, TriedIds, StatsOk, Kept, Entered, Reannounced, Put, OneSlot, EmptyTable;
    m := new AddrManager(OneSlot());
    ghost var empty := m.vvNew;
    var first, second := Address(Service(1, 0), {}, 1000), Address(Service(2, 0), {}, 1000);
    var added, lost := m.Add(first, true, 9, 0, 1000, 1000, 0);
    FirstStored(empty, m.mapInfo, m.vvNew, NewInfo(first, 9), lost);
    OnlyKnown(m.mapInfo, m.mapAddr, m.vRandom, m.nIdCount, 2);
    NextIsNew(m.mapInfo, m.mapAddr, m.vRandom, m.nIdCount);
    ghost var infos, table, n := m.mapInfo, m.vvNew, m.nIdCount;
    fNew, lost := m.Add(second, true, 9, 0, 1000, 1000, 0);
    SecondTurnedAway(infos, table, m.mapInfo, m.vvNew, n, NewInfo(second, 9), lost);
    OnlyKnown(m.mapInfo, m.mapAddr, m.vRandom, m.nIdCount, 2);
  }
}
