/** Choosing the next blocks to request from a peer, along the chain to its best known block. */
module NextBlocks {
  import opened BlockDownload

  const BLOCK_DOWNLOAD_WINDOW := 1024

  /** A block on the way; `haveData` also stands for being on our own active chain. */
  datatype Block = Block(hash: Hash, isValidTree: bool, haveData: bool, nChainTx: nat)

  /** What stays fixed during one search; `path` leads from the first block to the peer's best
      known one, so that a place in it is a height. */
  datatype Search = Search(path: seq<Block>, flight: Flight, nodeid: NodeId, count: nat, common: nat) {
    function WindowEnd(): nat {
      common + BLOCK_DOWNLOAD_WINDOW
    }

    function MaxHeight(): int {
      if |path| - 1 < WindowEnd() + 1 then |path| - 1 else WindowEnd() + 1
    }

    /** Neither downloaded nor requested from anyone. */
    predicate Needed(h: nat)
      requires h < |path|
    {
      !path[h].haveData && path[h].hash !in flight
    }

    /** The findings after looking at one more height. */
    function Visit(s: Found, h: nat): Found
      requires h < |path|
    {
      var b := path[h];
      if !b.isValidTree then s.(done := true)
      else if b.haveData then (if b.nChainTx != 0 then s.(lastCommon := h) else s)
      else if b.hash !in flight then
        if h > WindowEnd() then
          s.(done := true, staller := if s.blocks == [] && s.waitingfor != nodeid then s.waitingfor else s.staller)
        else
          s.(blocks := s.blocks + [h], done := |s.blocks| + 1 == count)
      else if s.waitingfor == -1 then s.(waitingfor := flight[b.hash].0)
      else s
    }

    /** Looking at one height after the other. */
    function Scan(s: Found, h: nat, max: int): Found
      requires max < |path|
      decreases max - h
    {
      if s.done || h > max then s else Scan(Visit(s, h), h + 1, max)
    }

    function Result(): Found
      requires common < |path|
    {
      Scan(Found([], common, -1, -1, false), common + 1, MaxHeight())
    }

    // ----------------------------------------------------- what a search finds

    /** Every height up to h is on a chain we consider valid. */
    ghost predicate ValidUpTo(h: nat)
      requires h < |path|
    {
      forall k | common < k <= h :: path[k].isValidTree
    }

    /** Requested from someone and not here yet. */
    predicate InFlight(h: nat)
      requires h < |path|
    {
      !path[h].haveData && path[h].hash in flight
    }

    /** The lowest requested block below h, if there is one, is being waited for; the last common
        block moves up to the highest block below h whose chain is complete. */
    ghost predicate Tracked(s: Found, h: nat) {
      && (s.waitingfor == -1 ==> forall k | common < k < h && k < |path| :: !InFlight(k))
      && (s.waitingfor != -1 ==> exists k | common < k < h && k < |path| :: FirstWait(s.waitingfor, k))
      && (forall k | common < k < h && k < |path| && k > s.lastCommon :: !path[k].haveData || path[k].nChainTx == 0)
      && (s.lastCommon == common ||
          (s.lastCommon < |path| && path[s.lastCommon].haveData && path[s.lastCommon].nChainTx != 0))
    }

    ghost predicate FirstWait(n: NodeId, k: nat)
      requires k < |path|
    {
      InFlight(k) && flight[path[k].hash].0 == n && forall j | common < j < k :: !InFlight(j)
    }

    /** How many blocks up to h are needed. */
    ghost function NeededUpTo(h: nat): nat
      requires h < |path|
    {
      if h <= common then 0 else NeededUpTo(h - 1) + if Needed(h) then 1 else 0
    }

    /** A height at which there is no going on: it is not on a valid chain, or holds a needed
        block that is out of the window or the last one wanted. */
    ghost predicate Stops(h: nat)
      requires h < |path|
    {
      !path[h].isValidTree || (Needed(h) && (h > WindowEnd() || NeededUpTo(h) == count))
    }

    /** The search ends at the first such height, or past the last one it may look at. */
    ghost predicate EndsAt(end: nat, max: int)
      requires max < |path|
    {
      && common < end <= max + 1
      && (forall k | common < k < end :: !Stops(k))
      && (end <= max ==> Stops(end))
    }

    lemma VisitStops(s: Found, h: nat)
      requires common < h < |path| && !s.done && |s.blocks| == NeededUpTo(h - 1)
      ensures Visit(s, h).done <==> Stops(h)
      ensures !Stops(h) ==> |Visit(s, h).blocks| == NeededUpTo(h)
    {
    }

    /** The search stopped at a needed block beyond the window with nothing chosen, while the
        lowest requested block was asked of somebody else. */
    ghost predicate Stalls(s: Found, end: nat, max: int)
      requires max < |path|
    {
      && end <= max && path[end].isValidTree && Needed(end) && end > WindowEnd()
      && s.blocks == [] && s.waitingfor != nodeid
    }

    lemma NoneStalls(s: Found, max: int)
      requires max < |path| && max + 1 >= 0
      ensures !Stalls(s, max + 1, max)
    {
    }

    lemma VisitStaller(s: Found, h: nat, max: int)
      requires common < h <= max < |path| && !s.done && s.staller == -1
      ensures !Visit(s, h).done ==> Visit(s, h).staller == -1
      ensures Visit(s, h).done ==>
                Visit(s, h).staller == if Stalls(Visit(s, h), h, max) then Visit(s, h).waitingfor else -1
    {
    }

    lemma VisitTracked(s: Found, h: nat)
      requires common < h < |path| && !s.done && Tracked(s, h) && s.lastCommon < h
      requires forall g | g in flight :: flight[g].0 != -1
      ensures !Visit(s, h).done ==> Tracked(Visit(s, h), h + 1)
      ensures Visit(s, h).done ==> Tracked(Visit(s, h), h)
    {
      var s' := Visit(s, h);
      if s.waitingfor != -1 {
        var k :| common < k < h && k < |path| && FirstWait(s.waitingfor, k);
        assert FirstWait(s'.waitingfor, k);
      } else if !s'.done && InFlight(h) {
        assert FirstWait(s'.waitingfor, h);
      }
    }

    lemma {:induction false} ScanTracked(s: Found, h: nat, max: int) returns (end: nat)
      requires common < h <= max + 1 <= |path| && !s.done && Tracked(s, h) && s.lastCommon < h
      requires |s.blocks| == NeededUpTo(h - 1) && forall k | common < k < h :: !Stops(k)
      requires forall g | g in flight :: flight[g].0 != -1
      requires s.staller == -1
      ensures EndsAt(end, max) && Tracked(Scan(s, h, max), end)
      ensures Scan(s, h, max).done <==> end <= max
      ensures Scan(s, h, max).staller == if Stalls(Scan(s, h, max), end, max) then Scan(s, h, max).waitingfor else -1
      decreases max - h
    {
      hide Tracked, Visit, Stops, NeededUpTo, Stalls;
      end := h;
      NoneStalls(s, max);
      if h <= max {
        VisitTracked(s, h);
        VisitCommon(s, h);
        VisitStops(s, h);
        VisitStaller(s, h, max);
        if !Visit(s, h).done {
          end := ScanTracked(Visit(s, h), h + 1, max);
        }
      }
    }

    lemma VisitCommon(s: Found, h: nat)
      requires h < |path| && s.lastCommon < h
      ensures Visit(s, h).lastCommon < h + 1
    {
    }

    /** Up to the height at which the search stops, the peer waited for is the one with the
        lowest requested block, and the last common block is the highest one with a complete
        chain. That peer is reported as stalling exactly if nothing but the window stands in
        the way. */
    lemma ResultTracked() returns (end: nat)
      requires common < |path| - 1 && forall g | g in flight :: flight[g].0 != -1
      ensures EndsAt(end, MaxHeight()) && Tracked(Result(), end)
      ensures Result().done <==> end <= MaxHeight()
      ensures Result().staller == if Stalls(Result(), end, MaxHeight()) then Result().waitingfor else -1
    {
      end := ScanTracked(Found([], common, -1, -1, false), common + 1, MaxHeight());
    }

    ghost predicate Good(s: Found, h: nat) {
      && |s.blocks| <= count && (|s.blocks| == count > 0 ==> s.done)
      && (forall i | 0 <= i < |s.blocks| ::
            common < s.blocks[i] < h && s.blocks[i] < |path| && s.blocks[i] <= WindowEnd())
      && (forall i | 0 <= i < |s.blocks| :: Needed(s.blocks[i]) && ValidUpTo(s.blocks[i]))
      && (forall i, j | 0 <= i < j < |s.blocks| :: s.blocks[i] < s.blocks[j])
      && common <= s.lastCommon < h
      && (s.waitingfor != -1 ==> exists g | g in flight :: flight[g].0 == s.waitingfor)
      && (s.staller != -1 ==> s.blocks == [] && s.done && s.staller == s.waitingfor != nodeid)
    }

    /** Below h nothing that is needed and reachable has been left out. */
    ghost predicate Thorough(s: Found, h: nat) {
      forall k | common < k < h && k < |path| && k <= WindowEnd() && Needed(k) && ValidUpTo(k) :: k in s.blocks
    }

    lemma VisitGood(s: Found, h: nat)
      requires common < h < |path| && !s.done && Good(s, h) && count > 0
      requires h > common + 1 ==> ValidUpTo(h - 1)
      ensures Good(Visit(s, h), h + 1)
      ensures !Visit(s, h).done ==> ValidUpTo(h)
    {
      assert path[h].isValidTree ==> ValidUpTo(h);
      assert forall i | 0 <= i < |s.blocks| :: Visit(s, h).blocks[i] == s.blocks[i];
      hide ValidUpTo;
    }

    lemma VisitThorough(s: Found, h: nat)
      requires common < h < |path| && !s.done && Thorough(s, h) && count > 0
      requires |s.blocks| < count && forall k | k in s.blocks :: k < h
      ensures Thorough(Visit(s, h), h + 1)
      ensures Visit(s, h).done ==> Finished(Visit(s, h))
    {
      var s' := Visit(s, h);
      assert !path[h].isValidTree ==> forall k | h <= k < |path| :: !ValidUpTo(k);
      assert forall k | k in s.blocks :: k in s'.blocks;
      hide ValidUpTo;
    }

    /** All wanted blocks have been found, or all there are. */
    ghost predicate Finished(s: Found) {
      Thorough(s, |path|) || (|s.blocks| == count > 0 && Thorough(s, s.blocks[count - 1] + 1))
    }

    lemma {:induction false} ScanGood(s: Found, h: nat, max: int)
      requires common < h <= max + 1 <= |path| && !s.done && Good(s, h) && Thorough(s, h) && count > 0
      requires h > common + 1 ==> ValidUpTo(h - 1)
      requires max == MaxHeight()
      ensures Good(Scan(s, h, max), max + 1) && Finished(Scan(s, h, max))
      decreases max - h
    {
      hide ValidUpTo, Good, Thorough, Finished, Visit, MaxHeight;
      if h > max {
        ThoroughEnd(s);
      } else {
        var s' := Visit(s, h);
        GoodFacts(s, h);
        VisitGood(s, h);
        VisitThorough(s, h);
        if !s'.done {
          ScanGood(s', h + 1, max);
        } else {
          GoodLater(s', h + 1, max + 1);
        }
      }
    }

    lemma GoodFacts(s: Found, h: nat)
      requires Good(s, h) && !s.done && count > 0
      ensures |s.blocks| < count && forall k | k in s.blocks :: k < h
    {
    }

    lemma ThoroughEnd(s: Found)
      requires Thorough(s, MaxHeight() + 1)
      ensures Finished(s)
    {
      hide ValidUpTo;
    }

    lemma GoodLater(s: Found, h: nat, h': nat)
      requires h <= h' && Good(s, h)
      ensures Good(s, h')
    {
    }

    /** The blocks chosen are wanted, in order of height, within the window and on a valid chain,
        and none of that kind is passed over. */
    lemma ResultGood()
      requires common < |path| - 1 && count > 0
      ensures Good(Result(), |path|) && Finished(Result())
    {
      var s := Found([], common, -1, -1, false);
      ScanGood(s, common + 1, MaxHeight());
      GoodLater(Result(), MaxHeight() + 1, |path|);
    }
  }

  datatype Found = Found(blocks: seq<nat>, lastCommon: nat, waitingfor: NodeId, staller: NodeId, done: bool)

  /** Looks at one block of the chain. */
  method Look(q: Search, r: Found, h: nat) returns (s: Found)
    requires h < |q.path| && !r.done
    ensures s == q.Visit(r, h)
  {
    s := r;
    var pindex := q.path[h];
    if !pindex.isValidTree {
      s := s.(done := true);
    } else if pindex.haveData {
      if pindex.nChainTx != 0 {
        s := s.(lastCommon := h);
      }
    } else if pindex.hash !in q.flight {
      if h > q.WindowEnd() {
        if |s.blocks| == 0 && s.waitingfor != q.nodeid {
          s := s.(staller := s.waitingfor);
        }
        s := s.(done := true);
      } else {
        s := s.(blocks := s.blocks + [h]);
        if |s.blocks| == q.count {
          s := s.(done := true);
        }
      }
    } else if s.waitingfor == -1 {
      s := s.(waitingfor := q.flight[pindex.hash].0);
    }
  }

  /** The search in batches of at least 128 blocks, each read backwards from its last one. */
  method FindNextBlocksToDownload(q: Search) returns (r: Found)
    requires q.common < |q.path|
    ensures r == if q.count == 0 then Found([], q.common, -1, -1, false) else q.Result()
  {
    r := Found([], q.common, -1, -1, false);
    if q.count == 0 || q.common == |q.path| - 1 {
      return;
    }
    var walk := q.common;
    var nMaxHeight := q.MaxHeight();
    while walk < nMaxHeight
      invariant q.common <= walk <= nMaxHeight && !r.done
      invariant q.Scan(r, walk + 1, nMaxHeight) == q.Result()
    {
      var wanted := if q.count - |r.blocks| > 128 then q.count - |r.blocks| else 128;
      var nToFetch := if nMaxHeight - walk < wanted then nMaxHeight - walk else wanted;
      var vToFetch := new nat[nToFetch](_ => 0);
      ghost var from := walk;
      walk := walk + nToFetch;
      vToFetch[nToFetch - 1] := walk;
      var i := nToFetch - 1;
      while i > 0
        invariant 0 <= i < nToFetch
        invariant forall k | i <= k < nToFetch :: vToFetch[k] == from + 1 + k
      {
        vToFetch[i - 1] := vToFetch[i] - 1;
        i := i - 1;
      }
      i := 0;
      while i < nToFetch
        invariant 0 <= i <= nToFetch && !r.done
        invariant forall k | 0 <= k < nToFetch :: vToFetch[k] == from + 1 + k
        invariant q.Scan(r, from + 1 + i, nMaxHeight) == q.Result()
      {
        r := Look(q, r, vToFetch[i]);
        if r.done {
          return;
        }
        i := i + 1;
      }
    }
  }
}
