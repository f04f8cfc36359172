/** Which block has been requested from which peer, and the counters kept beside it. */
module BlockDownload {
  import opened MapSums

  const MAX_BLOCKS_IN_TRANSIT_PER_PEER := 64

  type NodeId = int

  type Hash = nat

  datatype QueuedBlock = QueuedBlock(hash: Hash, fValidatedHeaders: bool)

  /** A node of a linked list; `it` is the iterator that points to it, which stays good until
      the node is erased. */
  datatype Cell = Cell(it: nat, block: QueuedBlock)

  datatype NodeState = NodeState(
    vBlocksInFlight: seq<Cell>,
    nBlocksInFlight: int,
    nBlocksInFlightValidHeaders: int,
    fSyncStarted: bool,
    fPreferredDownload: bool,
    nStallingSince: int,
    nDownloadingSince: int)

  const NEW_NODE := NodeState([], 0, 0, false, false, 0, 0)

  type Peers = map<NodeId, NodeState>

  type Flight = map<Hash, (NodeId, nat)>

  function Bit(b: bool): int {
    if b then 1 else 0
  }

  // ------------------------------------------------------------------------- lists

  /** The node an iterator points to; the length when there is none. */
  function Find(list: seq<Cell>, it: nat): (k: nat)
    ensures k <= |list|
    ensures k < |list| ==> list[k].it == it
    ensures forall j | 0 <= j < k :: list[j].it != it
  {
    if list == [] || list[0].it == it then 0 else 1 + Find(list[1..], it)
  }

  function Erase(list: seq<Cell>, k: nat): (r: seq<Cell>)
    requires k < |list|
    ensures |r| == |list| - 1
    ensures forall j | 0 <= j < |r| :: r[j] == list[if j < k then j else j + 1]
  {
    list[..k] + list[k + 1..]
  }

  /** How many blocks of a list were requested with a validated header. */
  ghost function Validated(list: seq<Cell>): nat {
    if list == [] then 0 else Validated(list[..|list| - 1]) + Bit(list[|list| - 1].block.fValidatedHeaders)
  }

  lemma {:induction false} ValidatedErase(list: seq<Cell>, k: nat)
    requires k < |list|
    ensures Validated(Erase(list, k)) == Validated(list) - Bit(list[k].block.fValidatedHeaders)
    decreases |list|
  {
    var n := |list| - 1;
    if k == n {
      assert Erase(list, k) == list[..n];
    } else {
      ValidatedErase(list[..n], k);
      assert Erase(list, k)[..n - 1] == Erase(list[..n], k);
    }
  }

  lemma ValidatedAppend(list: seq<Cell>, c: Cell)
    ensures Validated(list + [c]) == Validated(list) + Bit(c.block.fValidatedHeaders)
  {
    assert (list + [c])[..|list|] == list;
  }

  // --------------------------------------------------------------------- invariant

  ghost predicate CellOk(c: Cell, flight: Flight, next: nat, n: NodeId) {
    c.it < next && c.block.hash in flight && flight[c.block.hash] == (n, c.it)
  }

  ghost predicate DistinctIts(list: seq<Cell>) {
    forall i, j | 0 <= i < j < |list| :: list[i].it != list[j].it
  }

  /** A peer's list and its counters; every block of the list is registered to this peer. */
  ghost predicate PeerOk(s: NodeState, flight: Flight, next: nat, n: NodeId) {
    && s.nBlocksInFlight == |s.vBlocksInFlight|
    && s.nBlocksInFlightValidHeaders == Validated(s.vBlocksInFlight)
    && (forall i | 0 <= i < |s.vBlocksInFlight| :: CellOk(s.vBlocksInFlight[i], flight, next, n))
    && DistinctIts(s.vBlocksInFlight)
  }

  /** The iterator registered for a block points to that block in the list of a live peer. */
  ghost predicate HashOk(peers: Peers, flight: Flight, h: Hash)
    requires h in flight
  {
    && flight[h].0 in peers
    && var list := peers[flight[h].0].vBlocksInFlight;
       var k := Find(list, flight[h].1);
       k < |list| && list[k].block.hash == h
  }

  ghost predicate Consistent(peers: Peers, flight: Flight, next: nat) {
    && (forall n | n in peers :: PeerOk(peers[n], flight, next, n))
    && (forall h | h in flight :: HashOk(peers, flight, h))
  }

  /** No peer has been asked for more than it should. The bookkeeping itself works without. */
  ghost predicate WithinLimit(peers: Peers) {
    forall n | n in peers :: peers[n].nBlocksInFlight <= MAX_BLOCKS_IN_TRANSIT_PER_PEER
  }

  lemma LimitUpdate(peers: Peers, n: NodeId, s: NodeState)
    requires WithinLimit(peers)
    ensures WithinLimit(peers[n := s]) <==> s.nBlocksInFlight <= MAX_BLOCKS_IN_TRANSIT_PER_PEER
    ensures n in peers ==> peers[n].nBlocksInFlight <= MAX_BLOCKS_IN_TRANSIT_PER_PEER
  {
    assert n in peers[n := s] && peers[n := s][n] == s;
  }

  /** No block is requested twice: it is in one list, once. */
  lemma RequestedOnce(peers: Peers, flight: Flight, next: nat, n: NodeId, i: nat, m: NodeId, j: nat)
    requires Consistent(peers, flight, next) && n in peers && m in peers
    requires i < |peers[n].vBlocksInFlight| && j < |peers[m].vBlocksInFlight|
    requires peers[n].vBlocksInFlight[i].block.hash == peers[m].vBlocksInFlight[j].block.hash
    ensures n == m && i == j
  {
    assert PeerOk(peers[n], flight, next, n) && PeerOk(peers[m], flight, next, m);
  }

  // ------------------------------------------------------------------------- steps

  /** A peer after the k-th block of its list has come in at time `now`. */
  function WithoutBlock(s: NodeState, k: nat, now: int): NodeState
    requires k < |s.vBlocksInFlight|
  {
    s.(vBlocksInFlight := Erase(s.vBlocksInFlight, k),
       nBlocksInFlight := s.nBlocksInFlight - 1,
       nBlocksInFlightValidHeaders := s.nBlocksInFlightValidHeaders - Bit(s.vBlocksInFlight[k].block.fValidatedHeaders),
       nDownloadingSince := if k == 0 && s.nDownloadingSince < now then now else s.nDownloadingSince,
       nStallingSince := 0)
  }

  /** A peer after a block has been requested from it at time `now`. */
  function WithBlock(s: NodeState, c: Cell, now: int): NodeState {
    s.(vBlocksInFlight := s.vBlocksInFlight + [c],
       nBlocksInFlight := s.nBlocksInFlight + 1,
       nBlocksInFlightValidHeaders := s.nBlocksInFlightValidHeaders + Bit(c.block.fValidatedHeaders),
       nDownloadingSince := if s.nBlocksInFlight == 0 then now else s.nDownloadingSince)
  }

  /** All peers after a block has come in at time `now`; nothing happens if nobody was
      asked for it. */
  function AfterReceipt(peers: Peers, flight: Flight, h: Hash, now: int): Peers {
    if h in flight && flight[h].0 in peers then
      var n := flight[h].0;
      var k := Find(peers[n].vBlocksInFlight, flight[h].1);
      if k < |peers[n].vBlocksInFlight| then peers[n := WithoutBlock(peers[n], k, now)] else peers
    else peers
  }

  /** The peer a registered block belongs to, and its place there. */
  ghost predicate Registered(peers: Peers, flight: Flight, h: Hash, n: NodeId, k: nat) {
    && h in flight && n == flight[h].0 && n in peers
    && k == Find(peers[n].vBlocksInFlight, flight[h].1) < |peers[n].vBlocksInFlight|
    && peers[n].vBlocksInFlight[k].block.hash == h
  }

  lemma ReceivedPeer(s: NodeState, flight: Flight, next: nat, h: Hash, n: NodeId, k: nat, now: int)
    requires PeerOk(s, flight, next, n) && k < |s.vBlocksInFlight| && s.vBlocksInFlight[k].block.hash == h
    ensures PeerOk(WithoutBlock(s, k, now), flight - {h}, next, n)
  {
    var list := s.vBlocksInFlight;
    ValidatedErase(list, k);
    var list' := Erase(list, k);
    hide Validated, Erase;
    assert DistinctIts(list');
    assert CellOk(list[k], flight, next, n);
    forall j | 0 <= j < |list'|
      ensures CellOk(list'[j], flight - {h}, next, n)
    {
      var i := if j < k then j else j + 1;
      assert list'[j] == list[i] && list[i].it != list[k].it && CellOk(list[i], flight, next, n);
    }
  }

  lemma OtherPeer(s: NodeState, flight: Flight, next: nat, m: NodeId, flight': Flight, next': nat)
    requires PeerOk(s, flight, next, m) && next <= next'
    requires forall h | h in flight && flight[h].0 == m :: h in flight' && flight'[h] == flight[h]
    ensures PeerOk(s, flight', next', m)
  {
  }

  lemma {:induction false} FindErased(list: seq<Cell>, k: nat, it: nat)
    requires k < |list| && list[k].it != it && Find(list, it) < |list|
    ensures Find(Erase(list, k), it) < |list| - 1
    ensures Erase(list, k)[Find(Erase(list, k), it)] == list[Find(list, it)]
  {
    var i, r := Find(list, it), Erase(list, k);
    var j := if i < k then i else i - 1;
    assert r[j] == list[i];
    FindAt(r, it, j);
  }

  lemma FindAt(list: seq<Cell>, it: nat, j: nat)
    requires j < |list| && list[j].it == it && forall i | 0 <= i < j :: list[i].it != it
    ensures Find(list, it) == j
  {
  }

  lemma ReceivedHash(peers: Peers, flight: Flight, next: nat, h: Hash, n: NodeId, k: nat, now: int, g: Hash)
    requires Consistent(peers, flight, next) && Registered(peers, flight, h, n, k) && g in flight && g != h
    ensures HashOk(peers[n := WithoutBlock(peers[n], k, now)], flight - {h}, g)
  {
    assert HashOk(peers, flight, g) && PeerOk(peers[n], flight, next, n);
    hide Consistent, Erase, Find, Validated;
    if flight[g].0 == n {
      FindErased(peers[n].vBlocksInFlight, k, flight[g].1);
    }
  }

  lemma ReceivedKeeps(peers: Peers, flight: Flight, next: nat, h: Hash, n: NodeId, k: nat, now: int)
    requires Consistent(peers, flight, next) && Registered(peers, flight, h, n, k)
    ensures Consistent(peers[n := WithoutBlock(peers[n], k, now)], flight - {h}, next)
  {
    var peers', flight' := peers[n := WithoutBlock(peers[n], k, now)], flight - {h};
    forall m | m in peers'
      ensures PeerOk(peers'[m], flight', next, m)
    {
      assert PeerOk(peers[m], flight, next, m);
      if m == n {
        ReceivedPeer(peers[n], flight, next, h, n, k, now);
      } else {
        OtherPeer(peers[m], flight, next, m, flight', next);
      }
    }
    forall g | g in flight'
      ensures HashOk(peers', flight', g)
    {
      ReceivedHash(peers, flight, next, h, n, k, now, g);
    }
  }

  lemma RequestedPeer(s: NodeState, flight: Flight, next: nat, n: NodeId, b: QueuedBlock, now: int)
    requires PeerOk(s, flight, next, n) && b.hash !in flight
    ensures PeerOk(WithBlock(s, Cell(next, b), now), flight[b.hash := (n, next)], next + 1, n)
  {
    ValidatedAppend(s.vBlocksInFlight, Cell(next, b));
    hide Validated;
    forall i | 0 <= i < |s.vBlocksInFlight|
      ensures CellOk(s.vBlocksInFlight[i], flight[b.hash := (n, next)], next + 1, n)
    {
      assert CellOk(s.vBlocksInFlight[i], flight, next, n);
    }
  }

  lemma RequestedHash(peers: Peers, flight: Flight, next: nat, n: NodeId, b: QueuedBlock, now: int, g: Hash)
    requires Consistent(peers, flight, next) && n in peers && b.hash !in flight && (g in flight || g == b.hash)
    ensures HashOk(peers[n := WithBlock(peers[n], Cell(next, b), now)], flight[b.hash := (n, next)], g)
  {
    assert PeerOk(peers[n], flight, next, n);
    var list := peers[n].vBlocksInFlight;
    if g == b.hash {
      FindAt(list + [Cell(next, b)], next, |list|);
    } else {
      assert HashOk(peers, flight, g);
      if flight[g].0 == n {
        FindAt(list + [Cell(next, b)], flight[g].1, Find(list, flight[g].1));
      }
    }
  }

  lemma RequestedKeeps(peers: Peers, flight: Flight, next: nat, n: NodeId, b: QueuedBlock, now: int)
    requires Consistent(peers, flight, next) && n in peers && b.hash !in flight
    ensures Consistent(peers[n := WithBlock(peers[n], Cell(next, b), now)], flight[b.hash := (n, next)], next + 1)
  {
    var peers', flight' := peers[n := WithBlock(peers[n], Cell(next, b), now)], flight[b.hash := (n, next)];
    forall m | m in peers'
      ensures PeerOk(peers'[m], flight', next + 1, m)
    {
      assert PeerOk(peers[m], flight, next, m);
      if m == n {
        RequestedPeer(peers[n], flight, next, n, b, now);
      } else {
        OtherPeer(peers[m], flight, next, m, flight', next + 1);
      }
    }
    forall g | g in flight'
      ensures HashOk(peers', flight', g)
    {
      RequestedHash(peers, flight, next, n, b, now, g);
    }
  }

  /** `rest` is what is left of the register without the first k blocks of a list. */
  ghost predicate Dropped(flight: Flight, rest: Flight, list: seq<Cell>, k: nat)
    requires k <= |list|
  {
    && rest.Keys <= flight.Keys && (forall h | h in rest :: rest[h] == flight[h])
    && (forall h | h in flight :: h in rest <==> forall i | 0 <= i < k :: list[i].block.hash != h)
  }

  lemma LeftBehind(peers: Peers, flight: Flight, next: nat, n: NodeId, rest: Flight, h: Hash)
    requires Consistent(peers, flight, next) && n in peers && h in flight
    requires Dropped(flight, rest, peers[n].vBlocksInFlight, |peers[n].vBlocksInFlight|)
    ensures h in rest <==> flight[h].0 != n
  {
    var list := peers[n].vBlocksInFlight;
    assert PeerOk(peers[n], flight, next, n) && HashOk(peers, flight, h);
    assert forall i | 0 <= i < |list| :: CellOk(list[i], flight, next, n);
  }

  lemma LeaveKeeps(peers: Peers, flight: Flight, next: nat, n: NodeId, rest: Flight)
    requires Consistent(peers, flight, next) && n in peers
    requires Dropped(flight, rest, peers[n].vBlocksInFlight, |peers[n].vBlocksInFlight|)
    ensures Consistent(peers - {n}, rest, next)
  {
    hide PeerOk, Find;
    forall h | h in flight
      ensures h in rest <==> flight[h].0 != n
    {
      LeftBehind(peers, flight, next, n, rest, h);
    }
    forall m | m in peers && m != n
      ensures PeerOk(peers[m], rest, next, m)
    {
      assert PeerOk(peers[m], flight, next, m);
      OtherPeer(peers[m], flight, next, m, rest, next);
    }
    forall h | h in rest
      ensures HashOk(peers - {n}, rest, h)
    {
      assert HashOk(peers, flight, h);
    }
    assert forall m | m in peers - {n} :: (peers - {n})[m] == peers[m];
  }

  lemma RestateKeeps(peers: Peers, flight: Flight, next: nat, n: NodeId, s: NodeState)
    requires Consistent(peers, flight, next)
    requires if n in peers then SameQueue(s, peers[n]) else SameQueue(s, NEW_NODE)
    ensures Consistent(peers[n := s], flight, next)
  {
    var peers' := peers[n := s];
    forall m | m in peers'
      ensures PeerOk(peers'[m], flight, next, m)
    {
      assert m in peers ==> PeerOk(peers[m], flight, next, m);
    }
    forall h | h in flight
      ensures HashOk(peers', flight, h)
    {
      assert HashOk(peers, flight, h);
    }
  }

  ghost predicate SameQueue(s: NodeState, t: NodeState) {
    && s.vBlocksInFlight == t.vBlocksInFlight && s.nBlocksInFlight == t.nBlocksInFlight
    && s.nBlocksInFlightValidHeaders == t.nBlocksInFlightValidHeaders
  }
}
