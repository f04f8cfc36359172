/** The peers' download state, changed by connections, requests, receipts and disconnections. */
module DownloadManager {
  import opened MapSums
  import opened BlockDownload
  import opened NextBlocks

  function Preferred(s: NodeState): int {
    Bit(s.fPreferredDownload)
  }

  function Syncing(s: NodeState): int {
    Bit(s.fSyncStarted)
  }

  function Downloading(s: NodeState): int {
    Bit(s.nBlocksInFlightValidHeaders != 0)
  }

  ghost predicate RequestedFrom(flight: Flight, h: Hash, n: NodeId) {
    h in flight && flight[h].0 == n
  }

  /** The three global counters count what they stand for. */
  ghost predicate Counted(peers: Peers, nPreferredDownload: int, nSyncStarted: int, nPeersWithValidatedDownloads: int) {
    && nPreferredDownload == Sum(peers, Preferred)
    && nSyncStarted == Sum(peers, Syncing)
    && nPeersWithValidatedDownloads == Sum(peers, Downloading)
  }

  lemma CountUpdate(peers: Peers, n: NodeId, s: NodeState, p: int, y: int, v: int)
    requires Counted(peers, p, y, v)
    ensures var t := if n in peers then peers[n] else NEW_NODE;
            var p', y' := p + Preferred(s) - Preferred(t), y + Syncing(s) - Syncing(t);
            Counted(peers[n := s], p', y', v + Downloading(s) - Downloading(t))
  {
    SumUpdate(peers, Preferred, n, s);
    SumUpdate(peers, Syncing, n, s);
    SumUpdate(peers, Downloading, n, s);
  }

  lemma CountRemove(peers: Peers, n: NodeId, p: int, y: int, v: int)
    requires Counted(peers, p, y, v) && n in peers
    ensures Counted(peers - {n}, p - Preferred(peers[n]), y - Syncing(peers[n]), v - Downloading(peers[n]))
  {
    SumSplit(peers, Preferred, n);
    SumSplit(peers, Syncing, n);
    SumSplit(peers, Downloading, n);
  }

  /** A peer that hands over a validated block was counted for it. */
  lemma ReceivedCount(peers: Peers, flight: Flight, next: nat, n: NodeId, k: nat)
    requires Consistent(peers, flight, next) && n in peers && k < |peers[n].vBlocksInFlight|
    ensures peers[n].nBlocksInFlightValidHeaders >= Bit(peers[n].vBlocksInFlight[k].block.fValidatedHeaders) >= 0
  {
    assert PeerOk(peers[n], flight, next, n);
    ValidatedErase(peers[n].vBlocksInFlight, k);
  }

  lemma Owner(peers: Peers, flight: Flight, next: nat, h: Hash)
    requires Consistent(peers, flight, next) && h in flight
    ensures flight[h].0 in peers
    ensures Registered(peers, flight, h, flight[h].0, Find(peers[flight[h].0].vBlocksInFlight, flight[h].1))
  {
    assert HashOk(peers, flight, h);
  }

  /** Receiving a block leaves the peer that was asked for it with one fewer to send. */
  lemma ReceiptCount(peers: Peers, flight: Flight, next: nat, h: Hash, now: int, n: NodeId)
    requires Consistent(peers, flight, next) && n in peers
    ensures n in AfterReceipt(peers, flight, h, now)
    ensures AfterReceipt(peers, flight, h, now)[n].nBlocksInFlight ==
              peers[n].nBlocksInFlight - Bit(RequestedFrom(flight, h, n))
  {
    hide Consistent, Find;
    if h in flight {
      Owner(peers, flight, next, h);
    }
  }

  lemma PeerFacts(peers: Peers, flight: Flight, next: nat, n: NodeId)
    requires Consistent(peers, flight, next) && n in peers
    ensures peers[n].nBlocksInFlight == |peers[n].vBlocksInFlight|
    ensures peers[n].nBlocksInFlightValidHeaders >= 0
  {
    assert PeerOk(peers[n], flight, next, n);
  }

  class Downloads {
    var mapNodeState: Peers
    var mapBlocksInFlight: Flight
    var nPreferredDownload: int
    var nSyncStarted: int
    var nPeersWithValidatedDownloads: int
    var nextCell: nat

    ghost predicate Valid()
      reads this
    {
      && Consistent(mapNodeState, mapBlocksInFlight, nextCell)
      && Counted(mapNodeState, nPreferredDownload, nSyncStarted, nPeersWithValidatedDownloads)
      && -1 !in mapNodeState
    }

    /** No peer has more requests than it should. */
    ghost predicate Limited()
      reads this
    {
      WithinLimit(mapNodeState)
    }

    constructor ()
      ensures Valid() && Limited() && mapNodeState == map[] && mapBlocksInFlight == map[]
    {
      mapNodeState, mapBlocksInFlight := map[], map[];
      nPreferredDownload, nSyncStarted, nPeersWithValidatedDownloads, nextCell := 0, 0, 0, 0;
    }

    /** A peer connects; one that is already there stays as it is. */
    method InitializeNode(nodeid: NodeId)
      requires Valid() && nodeid >= 0
      modifies this`mapNodeState
      ensures Valid() && (old(Limited()) ==> Limited())
      ensures mapNodeState == if nodeid in old(mapNodeState) then old(mapNodeState)
                              else old(mapNodeState)[nodeid := NEW_NODE]
    {
      if nodeid !in mapNodeState {
        RestateKeeps(mapNodeState, mapBlocksInFlight, nextCell, nodeid, NEW_NODE);
        CountUpdate(mapNodeState, nodeid, NEW_NODE, nPreferredDownload, nSyncStarted, nPeersWithValidatedDownloads);
        mapNodeState := mapNodeState[nodeid := NEW_NODE];
      }
    }

    /** A block has come in; returns whether it had been requested. */
    method MarkBlockAsReceived(hash: Hash, now: int) returns (requested: bool)
      requires Valid()
      modifies this`mapNodeState, this`mapBlocksInFlight, this`nPeersWithValidatedDownloads
      ensures Valid() && (old(Limited()) ==> Limited())
      ensures requested <==> hash in old(mapBlocksInFlight)
      ensures mapBlocksInFlight == old(mapBlocksInFlight) - {hash}
      ensures mapNodeState.Keys == old(mapNodeState).Keys
      ensures mapNodeState == AfterReceipt(old(mapNodeState), old(mapBlocksInFlight), hash, now)
      ensures requested ==>
                var n := old(mapBlocksInFlight)[hash].0;
                && n in old(mapNodeState)
                && var k := Find(old(mapNodeState)[n].vBlocksInFlight, old(mapBlocksInFlight)[hash].1);
                && Registered(old(mapNodeState), old(mapBlocksInFlight), hash, n, k)
                && mapNodeState == old(mapNodeState)[n := WithoutBlock(old(mapNodeState)[n], k, now)]
    {
      hide Consistent, Counted, WithinLimit;
      if hash !in mapBlocksInFlight {
        assert mapBlocksInFlight - {hash} == mapBlocksInFlight;
        return false;
      }
      var n, it := mapBlocksInFlight[hash].0, mapBlocksInFlight[hash].1;
      Owner(mapNodeState, mapBlocksInFlight, nextCell, hash);
      var state := mapNodeState[n];
      var k := Find(state.vBlocksInFlight, it);
      ReceivedKeeps(mapNodeState, mapBlocksInFlight, nextCell, hash, n, k, now);
      ReceivedCount(mapNodeState, mapBlocksInFlight, nextCell, n, k);
      ghost var left := WithoutBlock(state, k, now);
      CountUpdate(mapNodeState, n, left, nPreferredDownload, nSyncStarted, nPeersWithValidatedDownloads);
      if WithinLimit(mapNodeState) {
        LimitUpdate(mapNodeState, n, left);
      }
      var entry := state.vBlocksInFlight[k].block;
      state := state.(nBlocksInFlightValidHeaders := state.nBlocksInFlightValidHeaders - Bit(entry.fValidatedHeaders));
      if state.nBlocksInFlightValidHeaders == 0 && entry.fValidatedHeaders {
        nPeersWithValidatedDownloads := nPeersWithValidatedDownloads - 1;
      }
      if k == 0 {
        state := state.(nDownloadingSince := if state.nDownloadingSince < now then now else state.nDownloadingSince);
      }
      state := state.(vBlocksInFlight := Erase(state.vBlocksInFlight, k));
      state := state.(nBlocksInFlight := state.nBlocksInFlight - 1, nStallingSince := 0);
      mapNodeState := mapNodeState[n := state];
      mapBlocksInFlight := mapBlocksInFlight - {hash};
      requested := true;
    }

    /** A block is requested from a peer; a request for it from another peer, or an earlier
        one from the same peer, is forgotten. No peer goes over the limit exactly if this
        one was below it or had been asked for the block already. */
    method MarkBlockAsInFlight(nodeid: NodeId, hash: Hash, validated: bool, now: int)
      requires Valid() && nodeid in mapNodeState
      modifies this`mapNodeState, this`mapBlocksInFlight, this`nPeersWithValidatedDownloads, this`nextCell
      ensures Valid() && mapNodeState.Keys == old(mapNodeState).Keys
      ensures mapBlocksInFlight == old(mapBlocksInFlight)[hash := (nodeid, old(nextCell))]
      ensures var peers := AfterReceipt(old(mapNodeState), old(mapBlocksInFlight), hash, now);
              var cell := Cell(old(nextCell), QueuedBlock(hash, validated));
              nodeid in peers && mapNodeState == peers[nodeid := WithBlock(peers[nodeid], cell, now)]
      ensures old(Limited()) ==>
                (Limited() <==> RequestedFrom(old(mapBlocksInFlight), hash, nodeid) ||
                                old(mapNodeState)[nodeid].nBlocksInFlight < MAX_BLOCKS_IN_TRANSIT_PER_PEER)
    {
      hide Consistent, Counted, WithinLimit, Find, AfterReceipt, WithBlock;
      ReceiptCount(mapNodeState, mapBlocksInFlight, nextCell, hash, now, nodeid);
      if WithinLimit(mapNodeState) {
        LimitUpdate(mapNodeState, nodeid, mapNodeState[nodeid]);
      }
      var _ := MarkBlockAsReceived(hash, now);
      Enlist(nodeid, hash, validated, now);
    }

    method Enlist(nodeid: NodeId, hash: Hash, validated: bool, now: int)
      requires Valid() && nodeid in mapNodeState && hash !in mapBlocksInFlight
      modifies this`mapNodeState, this`mapBlocksInFlight, this`nPeersWithValidatedDownloads, this`nextCell
      ensures Valid()
      ensures mapBlocksInFlight == old(mapBlocksInFlight)[hash := (nodeid, old(nextCell))]
      ensures var cell := Cell(old(nextCell), QueuedBlock(hash, validated));
              mapNodeState == old(mapNodeState)[nodeid := WithBlock(old(mapNodeState)[nodeid], cell, now)]
      ensures old(Limited()) ==>
                (Limited() <==> old(mapNodeState)[nodeid].nBlocksInFlight < MAX_BLOCKS_IN_TRANSIT_PER_PEER)
    {
      hide Consistent, Counted, WithinLimit;
      var newentry := QueuedBlock(hash, validated);
      var state := mapNodeState[nodeid];
      PeerFacts(mapNodeState, mapBlocksInFlight, nextCell, nodeid);
      RequestedKeeps(mapNodeState, mapBlocksInFlight, nextCell, nodeid, newentry, now);
      ghost var more := WithBlock(state, Cell(nextCell, newentry), now);
      CountUpdate(mapNodeState, nodeid, more, nPreferredDownload, nSyncStarted, nPeersWithValidatedDownloads);
      if WithinLimit(mapNodeState) {
        LimitUpdate(mapNodeState, nodeid, more);
      }
      state := state.(vBlocksInFlight := state.vBlocksInFlight + [Cell(nextCell, newentry)]);
      state := state.(nBlocksInFlight := state.nBlocksInFlight + 1);
      state := state.(nBlocksInFlightValidHeaders := state.nBlocksInFlightValidHeaders + Bit(validated));
      if state.nBlocksInFlight == 1 {
        state := state.(nDownloadingSince := now);
      }
      if state.nBlocksInFlightValidHeaders == 1 && validated {
        nPeersWithValidatedDownloads := nPeersWithValidatedDownloads + 1;
      }
      mapNodeState := mapNodeState[nodeid := state];
      mapBlocksInFlight := mapBlocksInFlight[hash := (nodeid, nextCell)];
      nextCell := nextCell + 1;
    }

    method UpdatePreferredDownload(nodeid: NodeId, preferred: bool)
      requires Valid() && nodeid in mapNodeState
      modifies this`mapNodeState, this`nPreferredDownload
      ensures Valid() && (old(Limited()) ==> Limited())
      ensures mapNodeState == old(mapNodeState)[nodeid := old(mapNodeState)[nodeid].(fPreferredDownload := preferred)]
    {
      hide Consistent, Counted;
      var state := mapNodeState[nodeid];
      RestateKeeps(mapNodeState, mapBlocksInFlight, nextCell, nodeid, state.(fPreferredDownload := preferred));
      ghost var told := state.(fPreferredDownload := preferred);
      CountUpdate(mapNodeState, nodeid, told, nPreferredDownload, nSyncStarted, nPeersWithValidatedDownloads);
      nPreferredDownload := nPreferredDownload - Bit(state.fPreferredDownload);
      state := state.(fPreferredDownload := preferred);
      nPreferredDownload := nPreferredDownload + Bit(state.fPreferredDownload);
      mapNodeState := mapNodeState[nodeid := state];
    }

    method StartSync(nodeid: NodeId)
      requires Valid() && nodeid in mapNodeState && !mapNodeState[nodeid].fSyncStarted
      modifies this`mapNodeState, this`nSyncStarted
      ensures Valid() && (old(Limited()) ==> Limited())
      ensures mapNodeState == old(mapNodeState)[nodeid := old(mapNodeState)[nodeid].(fSyncStarted := true)]
    {
      hide Consistent, Counted;
      var state := mapNodeState[nodeid].(fSyncStarted := true);
      RestateKeeps(mapNodeState, mapBlocksInFlight, nextCell, nodeid, state);
      CountUpdate(mapNodeState, nodeid, state, nPreferredDownload, nSyncStarted, nPeersWithValidatedDownloads);
      mapNodeState := mapNodeState[nodeid := state];
      nSyncStarted := nSyncStarted + 1;
    }

    /** A peer leaves: its requests are forgotten, everyone else's are kept. */
    method FinalizeNode(nodeid: NodeId)
      requires Valid() && nodeid in mapNodeState
      modifies this
      ensures Valid() && (old(Limited()) ==> Limited()) && mapNodeState == old(mapNodeState) - {nodeid}
      ensures forall h ::
                h in mapBlocksInFlight <==> h in old(mapBlocksInFlight) && old(mapBlocksInFlight)[h].0 != nodeid
      ensures forall h | h in mapBlocksInFlight :: mapBlocksInFlight[h] == old(mapBlocksInFlight)[h]
    {
      hide Consistent, Counted, Dropped;
      ghost var peers, flight := mapNodeState, mapBlocksInFlight;
      var state := mapNodeState[nodeid];
      if state.fSyncStarted {
        nSyncStarted := nSyncStarted - 1;
      }
      DroppedNone(flight, state.vBlocksInFlight);
      var i := 0;
      while i < |state.vBlocksInFlight|
        invariant i <= |state.vBlocksInFlight| && mapNodeState == peers && nextCell == old(nextCell)
        invariant nPeersWithValidatedDownloads == old(nPeersWithValidatedDownloads)
        invariant nPreferredDownload == old(nPreferredDownload)
        invariant nSyncStarted == old(nSyncStarted) - Bit(state.fSyncStarted)
        invariant Dropped(flight, mapBlocksInFlight, state.vBlocksInFlight, i)
      {
        DroppedNext(flight, mapBlocksInFlight, state.vBlocksInFlight, i);
        mapBlocksInFlight := mapBlocksInFlight - {state.vBlocksInFlight[i].block.hash};
        i := i + 1;
      }
      LeaveKeeps(peers, flight, nextCell, nodeid, mapBlocksInFlight);
      DroppedAll(peers, flight, nextCell, nodeid, mapBlocksInFlight);
      CountRemove(peers, nodeid, old(nPreferredDownload), old(nSyncStarted), old(nPeersWithValidatedDownloads));
      PeerFacts(peers, flight, nextCell, nodeid);
      nPreferredDownload := nPreferredDownload - Bit(state.fPreferredDownload);
      nPeersWithValidatedDownloads := nPeersWithValidatedDownloads - Bit(state.nBlocksInFlightValidHeaders != 0);
      mapNodeState := mapNodeState - {nodeid};
      NeverNegative(mapNodeState, nPreferredDownload, nSyncStarted, nPeersWithValidatedDownloads);
      assert nPeersWithValidatedDownloads >= 0;
      if mapNodeState == map[] {
        NothingRegistered(mapNodeState, mapBlocksInFlight, nextCell);
        NothingCounted(nPreferredDownload, nSyncStarted, nPeersWithValidatedDownloads);
        assert mapBlocksInFlight == map[];
        assert nPreferredDownload == 0;
        assert nPeersWithValidatedDownloads == 0;
      }
    }

    // ------------------------------------------------- the guarded call sites

    /** A peer announces a block that is neither here nor requested. */
    method FetchAnnounced(nodeid: NodeId, hash: Hash, now: int)
      requires Valid() && nodeid in mapNodeState
      modifies this
      ensures Valid() && (old(Limited()) ==> Limited()) && mapNodeState.Keys == old(mapNodeState).Keys
      ensures var full := old(mapNodeState)[nodeid].nBlocksInFlight >= MAX_BLOCKS_IN_TRANSIT_PER_PEER;
              if hash in old(mapBlocksInFlight) || full
              then mapNodeState == old(mapNodeState) && mapBlocksInFlight == old(mapBlocksInFlight)
              else RequestedFrom(mapBlocksInFlight, hash, nodeid)
    {
      if hash !in mapBlocksInFlight && mapNodeState[nodeid].nBlocksInFlight < MAX_BLOCKS_IN_TRANSIT_PER_PEER {
        MarkBlockAsInFlight(nodeid, hash, false, now);
      }
    }

    /** Headers a peer has sent lead to blocks worth requesting, until the peer has enough. */
    method FetchDirectly(nodeid: NodeId, vToFetch: seq<Hash>, now: int)
      requires Valid() && nodeid in mapNodeState
      modifies this
      ensures Valid() && (old(Limited()) ==> Limited()) && mapNodeState.Keys == old(mapNodeState).Keys
      ensures mapNodeState[nodeid].nBlocksInFlight >= MAX_BLOCKS_IN_TRANSIT_PER_PEER ||
              forall i | 0 <= i < |vToFetch| :: RequestedFrom(mapBlocksInFlight, vToFetch[i], nodeid)
    {
      hide Consistent, Counted, WithinLimit, AfterReceipt, WithBlock;
      var i := 0;
      while i < |vToFetch|
        invariant i <= |vToFetch| && Valid() && mapNodeState.Keys == old(mapNodeState).Keys
        invariant old(Limited()) ==> Limited()
        invariant forall j | 0 <= j < i :: RequestedFrom(mapBlocksInFlight, vToFetch[j], nodeid)
      {
        PeerFacts(mapNodeState, mapBlocksInFlight, nextCell, nodeid);
        if mapNodeState[nodeid].nBlocksInFlight >= MAX_BLOCKS_IN_TRANSIT_PER_PEER {
          break;
        }
        ghost var before := mapBlocksInFlight;
        MarkBlockAsInFlight(nodeid, vToFetch[i], true, now);
        forall j | 0 <= j < i
          ensures RequestedFrom(mapBlocksInFlight, vToFetch[j], nodeid)
        {
          StillRequested(before, mapBlocksInFlight, vToFetch[i], vToFetch[j], nodeid);
        }
        i := i + 1;
      }
    }

    /** The next blocks towards the peer's best known one are requested from it; the peer that
        holds everything up is marked as stalling. */
    method FetchNext(nodeid: NodeId, path: seq<Block>, common: nat, now: int) returns (common': nat)
      requires Valid() && nodeid in mapNodeState && common < |path|
      modifies this
      ensures Valid() && (old(Limited()) ==> Limited()) && mapNodeState.Keys == old(mapNodeState).Keys
      ensures var room := MAX_BLOCKS_IN_TRANSIT_PER_PEER - old(mapNodeState)[nodeid].nBlocksInFlight;
              room > 0 && common < |path| - 1 ==>
                var found := Search(path, old(mapBlocksInFlight), nodeid, room, common).Result();
                && common' == found.lastCommon
                && (forall i | 0 <= i < |found.blocks| ::
                      && 0 <= found.blocks[i] < |path|
                      && RequestedFrom(mapBlocksInFlight, path[found.blocks[i]].hash, nodeid))
                && (found.blocks == [] ==>
                      var idle := old(mapNodeState)[nodeid].nBlocksInFlight == 0;
                      Stalling(old(mapNodeState), mapNodeState, if idle then found.staller else -1, now))
    {
      hide Consistent, Counted, WithinLimit, AfterReceipt;
      var n := mapNodeState[nodeid].nBlocksInFlight;
      PeerFacts(mapNodeState, mapBlocksInFlight, nextCell, nodeid);
      if n >= MAX_BLOCKS_IN_TRANSIT_PER_PEER {
        return common;
      }
      var q := Search(path, mapBlocksInFlight, nodeid, MAX_BLOCKS_IN_TRANSIT_PER_PEER - n, common);
      var found := FindNextBlocksToDownload(q);
      SearchFacts(q, mapNodeState, nextCell);
      var i := 0;
      while i < |found.blocks|
        invariant i <= |found.blocks| && Valid() && mapNodeState.Keys == old(mapNodeState).Keys
        invariant i == 0 ==> mapNodeState == old(mapNodeState)
        invariant mapNodeState[nodeid].nBlocksInFlight <= n + i
        invariant old(Limited()) ==> Limited()
        invariant forall j | 0 <= j < i :: RequestedFrom(mapBlocksInFlight, path[found.blocks[j]].hash, nodeid)
      {
        ghost var before := mapBlocksInFlight;
        ReceiptCount(mapNodeState, mapBlocksInFlight, nextCell, path[found.blocks[i]].hash, now, nodeid);
        MarkBlockAsInFlight(nodeid, path[found.blocks[i]].hash, true, now);
        forall j | 0 <= j < i
          ensures RequestedFrom(mapBlocksInFlight, path[found.blocks[j]].hash, nodeid)
        {
          StillRequested(before, mapBlocksInFlight, path[found.blocks[i]].hash, path[found.blocks[j]].hash, nodeid);
        }
        i := i + 1;
      }
      if mapNodeState[nodeid].nBlocksInFlight == 0 && found.staller != -1 {
        MarkStalling(found.staller, now);
      }
      common' := found.lastCommon;
    }

    method MarkStalling(staller: NodeId, now: int)
      requires Valid() && staller in mapNodeState
      modifies this`mapNodeState
      ensures Valid() && (old(Limited()) ==> Limited()) && mapNodeState.Keys == old(mapNodeState).Keys
      ensures Stalling(old(mapNodeState), mapNodeState, staller, now)
    {
      hide Consistent, Counted;
      if mapNodeState[staller].nStallingSince == 0 {
        var state := mapNodeState[staller].(nStallingSince := now);
        RestateKeeps(mapNodeState, mapBlocksInFlight, nextCell, staller, state);
        CountUpdate(mapNodeState, staller, state, nPreferredDownload, nSyncStarted, nPeersWithValidatedDownloads);
        mapNodeState := mapNodeState[staller := state];
      }
    }

    method Handle(e: Event, now: int)
      requires Valid()
      modifies this
      ensures Valid() && (old(Limited()) ==> Limited())
    {
      match e {
        case Connect(n) => if n >= 0 { InitializeNode(n); }
        case Disconnect(n) => if n in mapNodeState { FinalizeNode(n); }
        case Received(h) => var _ := MarkBlockAsReceived(h, now);
        case Announced(n, h) => if n in mapNodeState { FetchAnnounced(n, h, now); }
        case Headers(n, hs) => if n in mapNodeState { FetchDirectly(n, hs, now); }
        case SendMessages(n, path, common) =>
          if n in mapNodeState && common < |path| { var _ := FetchNext(n, path, common, now); }
        case Version(n, preferred) => if n in mapNodeState { UpdatePreferredDownload(n, preferred); }
        case GetHeaders(n) => if n in mapNodeState && !mapNodeState[n].fSyncStarted { StartSync(n); }
      }
    }
  }

  /** From `now` on the staller, if there is one, counts as stalling, unless it already did. */
  ghost predicate Stalling(before: Peers, after: Peers, staller: NodeId, now: int) {
    if staller == -1 then after == before
    else
      && staller in before
      && after == before[staller := before[staller].(
             nStallingSince := if before[staller].nStallingSince == 0 then now else before[staller].nStallingSince)]
  }

  lemma StillRequested(flight: Flight, flight': Flight, h: Hash, g: Hash, n: NodeId)
    requires RequestedFrom(flight, g, n) && RequestedFrom(flight', h, n) && flight' - {h} == flight - {h}
    ensures RequestedFrom(flight', g, n)
  {
    if g != h {
      assert g in flight' - {h} && (flight' - {h})[g] == (flight - {h})[g];
    }
  }

  /** What a search finds exists, there is room for it, and a staller is a live peer. */
  lemma SearchFacts(q: Search, peers: Peers, next: nat)
    requires Consistent(peers, q.flight, next) && q.common < |q.path| && q.count > 0
    ensures |q.Result().blocks| <= q.count
    ensures forall i | 0 <= i < |q.Result().blocks| :: q.Result().blocks[i] < |q.path|
    ensures q.Result().staller != -1 ==> q.Result().staller in peers
  {
    if q.common < |q.path| - 1 {
      q.ResultGood();
      if q.Result().staller != -1 {
        var g :| g in q.flight && q.flight[g].0 == q.Result().staller;
        Owner(peers, q.flight, next, g);
      }
    }
  }

  datatype Event =
    | Connect(n: NodeId)
    | Disconnect(n: NodeId)
    | Received(h: Hash)
    | Announced(n: NodeId, h: Hash)
    | Headers(n: NodeId, hs: seq<Hash>)
    | SendMessages(n: NodeId, path: seq<Block>, common: nat)
    | Version(n: NodeId, preferred: bool)
    | GetHeaders(n: NodeId)

  /** Whatever happens, in whatever order and at whatever times, the register and the lists
      mirror each other, all counters are exact and no peer has more than 64 requests. */
  method Replay(events: seq<(Event, int)>) returns (d: Downloads)
    ensures d.Valid()
    ensures forall n | n in d.mapNodeState ::
              var s := d.mapNodeState[n]; s.nBlocksInFlight == |s.vBlocksInFlight| <= MAX_BLOCKS_IN_TRANSIT_PER_PEER
    ensures forall n, i | n in d.mapNodeState && 0 <= i < |d.mapNodeState[n].vBlocksInFlight| ::
              RequestedFrom(d.mapBlocksInFlight, d.mapNodeState[n].vBlocksInFlight[i].block.hash, n)
    ensures d.nPreferredDownload == Sum(d.mapNodeState, Preferred)
    ensures d.nPeersWithValidatedDownloads == Sum(d.mapNodeState, Downloading)
    ensures d.mapNodeState == map[] ==> d.mapBlocksInFlight == map[]
  {
    d := new Downloads();
    var k := 0;
    while k < |events|
      invariant k <= |events| && d.Valid() && d.Limited() && fresh(d)
    {
      d.Handle(events[k].0, events[k].1);
      k := k + 1;
    }
    forall n | n in d.mapNodeState
      ensures PeerOk(d.mapNodeState[n], d.mapBlocksInFlight, d.nextCell, n)
    {
    }
    forall n, i | n in d.mapNodeState && 0 <= i < |d.mapNodeState[n].vBlocksInFlight|
      ensures RequestedFrom(d.mapBlocksInFlight, d.mapNodeState[n].vBlocksInFlight[i].block.hash, n)
    {
      assert PeerOk(d.mapNodeState[n], d.mapBlocksInFlight, d.nextCell, n);
      assert CellOk(d.mapNodeState[n].vBlocksInFlight[i], d.mapBlocksInFlight, d.nextCell, n);
    }
    if d.mapNodeState == map[] {
      NothingRegistered(d.mapNodeState, d.mapBlocksInFlight, d.nextCell);
    }
  }

  lemma DroppedNone(flight: Flight, list: seq<Cell>)
    ensures Dropped(flight, flight, list, 0)
  {
  }

  lemma DroppedNext(flight: Flight, rest: Flight, list: seq<Cell>, k: nat)
    requires k < |list| && Dropped(flight, rest, list, k)
    ensures Dropped(flight, rest - {list[k].block.hash}, list, k + 1)
  {
  }

  lemma DroppedAll(peers: Peers, flight: Flight, next: nat, n: NodeId, rest: Flight)
    requires Consistent(peers, flight, next) && n in peers
    requires Dropped(flight, rest, peers[n].vBlocksInFlight, |peers[n].vBlocksInFlight|)
    ensures forall h :: h in rest <==> h in flight && flight[h].0 != n
    ensures forall h | h in rest :: rest[h] == flight[h]
  {
    forall h | h in flight
      ensures h in rest <==> flight[h].0 != n
    {
      LeftBehind(peers, flight, next, n, rest, h);
    }
  }

  lemma NeverNegative(peers: Peers, p: int, y: int, v: int)
    requires Counted(peers, p, y, v)
    ensures p >= 0 && y >= 0 && v >= 0
  {
    SumNonNegative(peers, Preferred);
    SumNonNegative(peers, Syncing);
    SumNonNegative(peers, Downloading);
  }

  /** After the last peer has gone nothing is in flight. */
  lemma NothingRegistered(peers: Peers, flight: Flight, next: nat)
    requires Consistent(peers, flight, next) && peers == map[]
    ensures flight == map[]
  {
    forall h | h in flight ensures flight[h].0 in peers {
      Owner(peers, flight, next, h);
    }
  }

  /** Nor is anything counted. */
  lemma NothingCounted(p: int, y: int, v: int)
    requires Counted(map[], p, y, v)
    ensures p == y == v == 0
  {
  }
}
