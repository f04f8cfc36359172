/** What the operations of the address manager do to its entries and tables, said
    about values. */
module AddrMoves {
  import opened FiniteSets
  import opened AddrTables
  import opened Radix

  const GETADDR_MAX_PCT := 23
  const GETADDR_MAX := 2500

  /** How much harder each reference makes the next one. */
  method Factor(nRefCount: nat) returns (nFactor: nat)
    ensures nFactor == Pow2(nRefCount)
  {
    nFactor := 1;
    Pow2Next(0);
    for n := 0 to nRefCount
      invariant nFactor == Pow2(n)
    {
      Pow2Next(n);
      nFactor := nFactor * 2;
    }
  }

  /** `a` is what the entry `id`, not a terrible one, has to offer. */
  predicate Offered(infos: Infos, id: int, a: Address, nNow: int) {
    && id in infos && !infos[id].IsTerrible(nNow)
    && a == Address(infos[id].svc, infos[id].nServices, Max0(infos[id].nTime))
  }

  /** How many of n known addresses are handed out at most. */
  function Limit(n: nat): nat { Min(GETADDR_MAX, GETADDR_MAX_PCT * n / 100) }

  /** The entries worth offering. */
  ghost function Fit(infos: Infos, nNow: int): set<int> {
    set id | id in infos && !infos[id].IsTerrible(nNow)
  }

  lemma FitKnown(infos: Infos, nNow: int)
    ensures Fit(infos, nNow) <= infos.Keys
  {
  }

  lemma FitSame(before: Infos, after: Infos, nNow: int)
    requires SameButOrder(before, after)
    ensures Fit(after, nNow) == Fit(before, nNow)
  {
    forall id | id in before ensures before[id].IsTerrible(nNow) == after[id].IsTerrible(nNow) {
      assert Core(before[id]) == Core(after[id]);
    }
  }

  ghost function Drawn(drawn: seq<int>): set<int> { set id | id in drawn }

  lemma DrawnLast(rest: seq<int>, last: int)
    ensures Drawn(rest + [last]) == Drawn(rest) + {last} && (last in Drawn(rest) <==> last in rest)
  {
  }

  lemma OneMore(s: set<int>, fit: set<int>, x: int)
    requires x !in s
    ensures |(s + {x}) * fit| == |s * fit| + if x in fit then 1 else 0
  {
    assert (s + {x}) * fit == s * fit + if x in fit then {x} else {};
  }

  /** An entry is drawn only once. */
  lemma NotBefore(infos: Infos, addrs: map<NetAddr, int>, order: seq<int>, nIdCount: int, n: nat)
    requires IndexOk(infos, addrs, order, nIdCount) && n < |order|
    ensures order[n] !in order[..n]
  {
    hide IndexOk;
    IndexFrom(infos, addrs, order, nIdCount, n);
    forall i | 0 <= i < n ensures order[i] != order[n] {
      IndexFrom(infos, addrs, order, nIdCount, i);
    }
  }

  /** The next draw adds one to the entries met that are worth offering, or none. */
  lemma DrawnNext(infos: Infos, addrs: map<NetAddr, int>, order: seq<int>, nIdCount: int, n: nat, nNow: int)
    requires IndexOk(infos, addrs, order, nIdCount) && n < |order| && order[n] in infos
    ensures |Drawn(order[..n + 1]) * Fit(infos, nNow)| ==
              |Drawn(order[..n]) * Fit(infos, nNow)| + if infos[order[n]].IsTerrible(nNow) then 0 else 1
  {
    hide IndexOk, Drawn, Info.IsTerrible;
    NotBefore(infos, addrs, order, nIdCount, n);
    assert order[..n + 1] == order[..n] + [order[n]];
    DrawnLast(order[..n], order[n]);
    OneMore(Drawn(order[..n]), Fit(infos, nNow), order[n]);
  }

  /** All draws together meet everybody. */
  lemma AllDrawn(infos: Infos, addrs: map<NetAddr, int>, order: seq<int>, nIdCount: int, fit: set<int>)
    requires IndexOk(infos, addrs, order, nIdCount) && fit <= infos.Keys
    ensures Drawn(order[..|order|]) * fit == fit
  {
    hide IndexOk;
    assert order[..|order|] == order;
    forall id | id in fit ensures id in Drawn(order) {
      IndexAt(infos, addrs, order, nIdCount, id);
    }
  }

  lemma OrderedWithout(before: Infos, after: Infos, id: int)
    requires SameButOrder(before, after) && id in before
    ensures id in after && Core(after[id]) == Core(before[id])
    ensures SameButOrder(before - {id}, after - {id})
  {
  }

  lemma OrderedAnew(first: Infos, before: Infos, after: Infos)
    requires SameButOrder(first, before) && SameButOrder(before, after)
    ensures SameButOrder(first, after)
  {
  }

  lemma StillOffered(before: Infos, after: Infos, id: int, a: Address, nNow: int)
    requires SameButOrder(before, after) && Offered(before, id, a, nNow)
    ensures Offered(after, id, a, nNow)
  {
    assert Core(before[id]) == Core(after[id]);
  }

  /** How many of the first n drawn were worth offering when they were drawn. */
  ghost function Worthwhile(infos: Infos, order: seq<int>, times: seq<int>, n: nat): nat
    requires n <= |order| && n <= |times|
  {
    if n == 0 then 0
    else
      var id := order[n - 1];
      Worthwhile(infos, order, times, n - 1) + if id in infos && !infos[id].IsTerrible(times[n - 1]) then 1 else 0
  }

  lemma {:induction false} WorthwhileSame(infos: Infos, order: seq<int>, after: Infos, shuffled: seq<int>,
                                          times: seq<int>, n: nat)
    requires n <= |order| && n <= |shuffled| && n <= |times| && order[..n] == shuffled[..n]
    requires SameButOrder(infos, after)
    ensures Worthwhile(after, shuffled, times, n) == Worthwhile(infos, order, times, n)
  {
    if n > 0 {
      var id := order[n - 1];
      assert order[..n][n - 1] == shuffled[..n][n - 1] == id;
      assert order[..n - 1] == order[..n][..n - 1] && shuffled[..n - 1] == shuffled[..n][..n - 1];
      WorthwhileSame(infos, order, after, shuffled, times, n - 1);
      assert id in infos ==> Core(infos[id]) == Core(after[id]);
    }
  }

  lemma {:induction false} WorthwhileGrows(infos: Infos, order: seq<int>, times: seq<int>, n: nat, k: nat)
    requires n <= k <= |order| && k <= |times|
    ensures Worthwhile(infos, order, times, n) <= Worthwhile(infos, order, times, k)
    decreases k
  {
    if n < k {
      WorthwhileGrows(infos, order, times, n, k - 1);
    }
  }

  lemma {:induction false} WorthwhileByThen(infos: Infos, addrs: map<NetAddr, int>, order: seq<int>, nIdCount: int,
                                            times: seq<int>, n: nat, nNow: int)
    requires IndexOk(infos, addrs, order, nIdCount) && n <= |order| && n <= |times|
    requires forall k | 0 <= k < n :: times[k] == nNow
    ensures Worthwhile(infos, order, times, n) == |Drawn(order[..n]) * Fit(infos, nNow)|
  {
    hide IndexOk, Drawn, Fit, Info.IsTerrible;
    if n == 0 {
      NoneDrawn(order, Fit(infos, nNow));
    } else {
      IndexFrom(infos, addrs, order, nIdCount, n - 1);
      WorthwhileByThen(infos, addrs, order, nIdCount, times, n - 1, nNow);
      DrawnNext(infos, addrs, order, nIdCount, n - 1, nNow);
    }
  }

  lemma NoneDrawn(order: seq<int>, fit: set<int>)
    ensures Drawn(order[..0]) * fit == {}
  {
  }

  /** If the clock stands still, the whole order holds each entry worth offering once. */
  lemma OneReading(infos: Infos, addrs: map<NetAddr, int>, order: seq<int>, nIdCount: int, times: seq<int>, nNow: int)
    requires IndexOk(infos, addrs, order, nIdCount) && |order| <= |times|
    requires forall k | 0 <= k < |order| :: times[k] == nNow
    ensures Worthwhile(infos, order, times, |order|) == |Fit(infos, nNow)|
  {
    hide IndexOk, Drawn, Fit;
    WorthwhileByThen(infos, addrs, order, nIdCount, times, |order|, nNow);
    FitKnown(infos, nNow);
    AllDrawn(infos, addrs, order, nIdCount, Fit(infos, nNow));
  }

  /** After `n` draws: what was found at the positions `at`, which are all those drawn
      that were worth offering. */
  ghost predicate Drawing(infos: Infos, order: seq<int>, n: nat, vAddr: seq<Address>, at: seq<nat>, times: seq<int>)
    requires n <= |order| && n <= |times|
  {
    && |at| == |vAddr| == Worthwhile(infos, order, times, n)
    && (forall i, j | 0 <= i < j < |at| :: at[i] < at[j] < n)
    && (forall i | 0 <= i < |at| :: at[i] < n && Offered(infos, order[at[i]], vAddr[i], times[at[i]]))
  }

  lemma DrawingStarts(infos: Infos, order: seq<int>, times: seq<int>)
    ensures Drawing(infos, order, 0, [], [], times) && SameButOrder(infos, infos)
  {
  }

  /** Reordering what has not been drawn changes nothing. */
  lemma DrawingKept(infos: Infos, order: seq<int>, after: Infos, shuffled: seq<int>, n: nat, vAddr: seq<Address>,
                    at: seq<nat>, times: seq<int>)
    requires n <= |order| && n <= |shuffled| && n <= |times| && order[..n] == shuffled[..n]
    requires SameButOrder(infos, after) && Drawing(infos, order, n, vAddr, at, times)
    ensures Drawing(after, shuffled, n, vAddr, at, times)
  {
    hide SameButOrder, Worthwhile, Offered;
    WorthwhileSame(infos, order, after, shuffled, times, n);
    forall i | 0 <= i < |at| ensures Offered(after, shuffled[at[i]], vAddr[i], times[at[i]]) {
      assert shuffled[..n][at[i]] == order[..n][at[i]];
      StillOffered(infos, after, order[at[i]], vAddr[i], times[at[i]]);
    }
  }

  /** One entry more is offered if it is worth it. */
  lemma DrawingStep(infos: Infos, order: seq<int>, n: nat, vAddr: seq<Address>, at: seq<nat>, times: seq<int>)
    requires n < |order| && n < |times| && order[n] in infos && Drawing(infos, order, n, vAddr, at, times)
    ensures var e := infos[order[n]];
            if e.IsTerrible(times[n]) then Drawing(infos, order, n + 1, vAddr, at, times)
            else Drawing(infos, order, n + 1, vAddr + [Address(e.svc, e.nServices, Max0(e.nTime))], at + [n], times)
  {
    hide Info.IsTerrible;
  }

  lemma DrawingMeans(infos: Infos, order: seq<int>, n: nat, vAddr: seq<Address>, at: seq<nat>, times: seq<int>)
    requires n <= |order| <= |times| && Drawing(infos, order, n, vAddr, at, times)
    ensures |at| == |vAddr| && forall i, j | 0 <= i < j < |at| :: at[i] < at[j] < |order|
    ensures forall i | 0 <= i < |at| :: at[i] < |order| && Offered(infos, order[at[i]], vAddr[i], times[at[i]])
    ensures |vAddr| <= Worthwhile(infos, order, times, |order|)
    ensures n == |order| ==> |vAddr| == Worthwhile(infos, order, times, |order|)
  {
    WorthwhileGrows(infos, order, times, n, |order|);
  }

  /** An entry after a connection attempt. */
  function Attempted(info: Info, fCountFailure: bool, nTime: int, nLastGood: int): Info {
    if fCountFailure && info.nLastCountAttempt < nLastGood
    then info.(nLastTry := nTime, nLastCountAttempt := nTime, nAttempts := info.nAttempts + 1)
    else info.(nLastTry := nTime)
  }

  /** An entry after a successful connection. */
  function Succeeded(info: Info, nTime: int): Info {
    info.(nLastSuccess := nTime, nLastTry := nTime, nAttempts := 0)
  }

  /** Whether a known entry, just refreshed, may get one more reference. */
  predicate Eligible(info: Info, addr: Address, rnd: nat) {
    && addr.nTime != 0 && (info.nTime == 0 || addr.nTime > info.nTime)
    && !info.fInTried && info.nRefCount < NEW_BUCKETS_PER_ADDRESS
    && rnd % Pow2(Max0(info.nRefCount)) == 0
  }

  lemma EligibleIs(info: Info, addr: Address, rnd: nat)
    requires Eligible(info, addr, rnd)
    ensures !info.fInTried && info.nRefCount < NEW_BUCKETS_PER_ADDRESS
  {
  }

  /** A known entry after the address was announced again. */
  function Refreshed(info: Info, addr: Address, nTimePenalty: int, nNow: int): Info {
    var interval := if nNow - addr.nTime < 24 * 60 * 60 then 60 * 60 else 24 * 60 * 60;
    var time := if addr.nTime != 0 && (info.nTime == 0 || info.nTime < addr.nTime - interval - nTimePenalty)
                then Max0(addr.nTime - nTimePenalty) else info.nTime;
    info.(nTime := time, nServices := info.nServices + addr.nServices)
  }

  /** Nothing but time and services is new. */
  ghost predicate SameHistory(before: Info, after: Info) {
    && after.svc == before.svc && after.source == before.source && after.fInTried == before.fInTried
    && after.nLastTry == before.nLastTry && after.nLastCountAttempt == before.nLastCountAttempt
    && after.nLastSuccess == before.nLastSuccess && after.nAttempts == before.nAttempts
  }

  /** What an announcement makes of a known entry. A service is offered if it was before or is
      announced. The time is the announced one less the penalty if there was none on record, or
      one older by more than an hour and the penalty, or a day if the announcement is that old. */
  ghost predicate Updated(before: Info, after: Info, addr: Address, nTimePenalty: int, nNow: int) {
    && SameHistory(before, after)
    && (forall bit :: bit in after.nServices <==> bit in before.nServices || bit in addr.nServices)
    && var interval := if addr.nTime + 86400 <= nNow then 86400 else 3600;
    if addr.nTime != 0 && (before.nTime == 0 || before.nTime + interval + nTimePenalty < addr.nTime)
    then after.nTime == if addr.nTime > nTimePenalty then addr.nTime - nTimePenalty else 0
    else after.nTime == before.nTime
  }

  lemma RefreshedIs(info: Info, addr: Address, nTimePenalty: int, nNow: int)
    ensures Updated(info, Refreshed(info, addr, nTimePenalty, nNow), addr, nTimePenalty, nNow)
  {
  }

  /** What is on record of an address that was announced for the first time. */
  ghost predicate Noted(e: Info, addr: Address, source: NetAddr, nTimePenalty: int) {
    && e.svc == addr.svc && e.nServices == addr.nServices && e.source == source
    && e.nTime == (if addr.nTime > nTimePenalty then addr.nTime - nTimePenalty else 0)
    && e.nLastTry == e.nLastCountAttempt == e.nLastSuccess == e.nAttempts == 0
    && e.nRefCount == 1 && !e.fInTried
  }

  /** What a successful connection leaves on record. */
  ghost predicate Proven(before: Info, after: Info, nTime: int) {
    && after.nLastSuccess == after.nLastTry == nTime && after.nAttempts == 0 && after.fInTried
    && after.svc == before.svc && after.nServices == before.nServices && after.nTime == before.nTime
    && after.source == before.source && after.nLastCountAttempt == before.nLastCountAttempt
  }

  /** An entry is terrible if it has not been tried for a minute and was seen more than ten
      minutes in the future, or never, or not for 30 days, or was tried three times without any
      success, or ten times since one more than a week ago. */
  lemma TerribleIs(e: Info, nNow: int)
    ensures e.IsTerrible(nNow) <==>
              && (e.nLastTry == 0 || e.nLastTry + 60 < nNow)
              && (|| e.nTime > nNow + 600 || e.nTime == 0 || e.nTime + 2592000 < nNow
                  || (e.nAttempts >= 3 && e.nLastSuccess == 0)
                  || (e.nAttempts >= 10 && e.nLastSuccess + 604800 < nNow))
  {
  }

  /** Failing does not make an entry better, and one that has just answered is not terrible. */
  lemma NoBetterByFailing(e: Info, n: nat, nNow: int, nTime: int)
    ensures e.IsTerrible(nNow) ==> e.(nAttempts := e.nAttempts + n).IsTerrible(nNow)
    ensures nTime != 0 && nNow <= nTime + 60 ==> !Succeeded(e, nTime).IsTerrible(nNow)
  {
    TerribleIs(e, nNow);
  }

  /** Whether the manager has an entry for exactly this address and port. */
  ghost predicate Knows(addrs: map<NetAddr, int>, infos: Infos, s: Service) {
    s.addr in addrs && addrs[s.addr] in infos && infos[addrs[s.addr]].svc == s
  }

  /** Whether an entry with `refs` references may take over the slot of entry `d`. */
  predicate TakesOver(infos: Infos, d: int, refs: int, nNow: int) {
    d in infos && (infos[d].IsTerrible(nNow) || (infos[d].nRefCount > 1 && refs == 0))
  }

  // --------------------------------------------------------- announced addresses

  /** The entry `id` has a slot more, taken from its occupant, who has one fewer and is
      lost if that was the last one. */
  ghost predicate Occupied(before: Infos, after: Infos, id: int, d: int, lost: int)
    requires id in before
  {
    && lost == (if d in before && before[d].nRefCount == 1 then d else -1) && lost != id
    && after.Keys == before.Keys - {lost} && id in after
    && Core(after[id]) == Core(before[id]).(nRefCount := before[id].nRefCount + 1)
    && (d in after ==> Core(after[d]) == Core(before[d]).(nRefCount := before[d].nRefCount - 1))
    && (forall x | x in after && x != id && x != d :: Core(after[x]) == Core(before[x]))
  }

  /** The entry `id` has asked for the slot to which `source` entitles it. It gets it if the
      slot is free or can be taken over, from an occupant that may be lost; failing that it
      is lost itself unless it is referenced from elsewhere. */
  ghost predicate Placed(before: Infos, untried: Table, after: Infos, untriedAfter: Table, h: Hashes, id: int,
                         source: NetAddr, nNow: int, lost: int)
    requires Shaped(untried, NEW_BUCKET_COUNT) && id in before
  {
    var b := h.NewBucket(before[id].svc, source);
    var p := h.Position(true, b, before[id].svc);
    var d := untried[b][p];
    var refs := before[id].nRefCount;
    var take := d != id && (d == -1 || TakesOver(before, d, refs, nNow));
    && (d != -1 ==> d in before && !before[d].fInTried)
    && lost == (if take then (if d != -1 && before[d].nRefCount == 1 then d else -1) else if refs == 0 then id else -1)
    && after.Keys == before.Keys - {lost}
    && (id in after ==> Core(after[id]) == Core(before[id]).(nRefCount := refs + if take then 1 else 0))
    && (d != id && d in after ==>
          Core(after[d]) == Core(before[d]).(nRefCount := before[d].nRefCount - if take then 1 else 0))
    && (forall x | x in after && x != id && x != d :: Core(after[x]) == Core(before[x]))
    && untriedAfter == (if take then Put(untried, b, p, id) else untried)
  }

  lemma PlacedTaking(before: Infos, untried: Table, after: Infos, h: Hashes, id: int, source: NetAddr, nNow: int,
                     b: nat, p: nat, lost: int)
    requires Shaped(untried, NEW_BUCKET_COUNT) && id in before && -1 !in before
    requires b == h.NewBucket(before[id].svc, source) && p == h.Position(true, b, before[id].svc)
    requires var d := untried[b][p];
             && d != id && (d != -1 ==> d in before && !before[d].fInTried)
             && (d == -1 || TakesOver(before, d, before[id].nRefCount, nNow)) && Occupied(before, after, id, d, lost)
    ensures Placed(before, untried, after, Put(untried, b, p, id), h, id, source, nNow, lost)
  {
    hide Put, Hashes.NewBucket, Hashes.Position;
  }

  lemma PlacedNowhere(before: Infos, untried: Table, after: Infos, h: Hashes, id: int, source: NetAddr, nNow: int,
                      b: nat, p: nat)
    requires Shaped(untried, NEW_BUCKET_COUNT) && id in before && -1 !in before
    requires b == h.NewBucket(before[id].svc, source) && p == h.Position(true, b, before[id].svc)
    requires var d := untried[b][p];
             && (d != -1 ==> d in before && !before[d].fInTried)
             && (d == id || (d != -1 && !TakesOver(before, d, before[id].nRefCount, nNow)))
    requires if before[id].nRefCount == 0 then SameButOrder(before - {id}, after) else after == before
    ensures Placed(before, untried, after, untried, h, id, source, nNow, if before[id].nRefCount == 0 then id else -1)
  {
    hide Put, Hashes.NewBucket, Hashes.Position, TakesOver;
  }

  lemma PlacedKept(before: Infos, untried: Table, after: Infos, untriedAfter: Table, h: Hashes, id: int,
                   source: NetAddr, nNow: int, lost: int)
    requires Shaped(untried, NEW_BUCKET_COUNT) && id in before
    requires Placed(before, untried, after, untriedAfter, h, id, source, nNow, lost)
    ensures Kept(before, after, {})
  {
    hide TakesOver, Put, Hashes.NewBucket, Hashes.Position, Kept;
    RefsKept(before, after);
  }

  /** The unknown service `e` was announced and got the number `id`. It is stored, with
      one reference, exactly if its slot was free or can be taken over. */
  ghost predicate Entered(before: Infos, untried: Table, after: Infos, untriedAfter: Table, h: Hashes, id: int,
                          e: Info, nLater: int, lost: int)
    requires Shaped(untried, NEW_BUCKET_COUNT)
  {
    var b, p := HomeBucket(h, e), HomeSlot(h, e);
    var d := untried[b][p];
    var stored := d == -1 || TakesOver(before, d, 0, nLater);
    && after.Keys == before.Keys - {lost} + (if stored then {id} else {})
    && (stored ==> Core(after[id]) == Core(e).(nRefCount := 1))
    && untriedAfter == (if stored then Put(untried, b, p, id) else untried)
    && Kept(before, after, {id})
  }

  /** An address whose slot is not to be had changes nothing but perhaps the order. */
  lemma TurnedAway(before: Infos, untried: Table, after: Infos, untriedAfter: Table, h: Hashes, id: int, e: Info,
                   nLater: int, lost: int)
    requires Shaped(untried, NEW_BUCKET_COUNT) && Entered(before, untried, after, untriedAfter, h, id, e, nLater, lost)
    requires var d := untried[HomeBucket(h, e)][HomeSlot(h, e)]; d != -1 && !TakesOver(before, d, 0, nLater)
    requires id !in before
    ensures after.Keys == before.Keys - {lost} && untriedAfter == untried && Kept(before, after, {})
  {
  }

  /** The known entry `id` was announced again and now says what `e` says. It has one more
      reference exactly if it is eligible for one and the slot is free or can be taken over. */
  ghost predicate Reannounced(before: Infos, untried: Table, after: Infos, untriedAfter: Table, h: Hashes, id: int,
                              e: Info, addr: Address, source: NetAddr, nLater: int, rnd: nat, lost: int)
    requires Shaped(untried, NEW_BUCKET_COUNT)
  {
    var b := h.NewBucket(e.svc, source);
    var p := h.Position(true, b, e.svc);
    var d := untried[b][p];
    var take := Eligible(e, addr, rnd) && d != id && (d == -1 || TakesOver(before, d, e.nRefCount, nLater));
    && after.Keys == before.Keys - {lost} && id in after
    && Core(after[id]) == Core(e).(nRefCount := e.nRefCount + if take then 1 else 0)
    && untriedAfter == (if take then Put(untried, b, p, id) else untried)
    && Kept(before[id := e], after, {})
  }

  lemma ReannouncedIs(before: Infos, untried: Table, after: Infos, untriedAfter: Table, h: Hashes, id: int,
                      addr: Address, nTimePenalty: int, nNow: int, source: NetAddr, nLater: int, rnd: nat, lost: int)
    requires Shaped(untried, NEW_BUCKET_COUNT) && id in before
    requires Reannounced(before, untried, after, untriedAfter, h, id,
                         Refreshed(before[id], addr, nTimePenalty, nNow), addr, source, nLater, rnd, lost)
    ensures id in after && Updated(before[id], after[id], addr, nTimePenalty, nNow)
  {
    hide Refreshed, Eligible, TakesOver, Kept, Put, Hashes.NewBucket, Hashes.Position;
    RefreshedIs(before[id], addr, nTimePenalty, nNow);
  }

  lemma EnteredIs(before: Infos, untried: Table, after: Infos, untriedAfter: Table, h: Hashes, id: int,
                  addr: Address, source: NetAddr, nTimePenalty: int, nLater: int, lost: int)
    requires Shaped(untried, NEW_BUCKET_COUNT) && id !in before
    requires var e := NewInfo(addr, source).(nTime := Max0(addr.nTime - nTimePenalty));
             Entered(before, untried, after, untriedAfter, h, id, e, nLater, lost)
    ensures id in after ==> Noted(after[id], addr, source, nTimePenalty)
  {
    hide TakesOver, Kept, Put, HomeBucket, HomeSlot;
  }

  /** A new entry has no say in whether another one's slot can be taken over. */
  lemma TakesOverOld(before: Infos, after: Infos, id: int, d: int, refs: int, nNow: int)
    requires id in after && after == before[id := after[id]] && d != id
    ensures TakesOver(after, d, refs, nNow) == TakesOver(before, d, refs, nNow)
  {
  }

  lemma KeysAfter(keys: set<int>, id: int, lost: int)
    requires id !in keys
    ensures keys + {id} - {lost} == keys - {lost} + if lost == id then {} else {id}
  {
  }

  lemma KeptBefore(before: Infos, created: Infos, after: Infos, id: int)
    requires id in created && created == before[id := created[id]] && Kept(created, after, {})
    ensures Kept(before, after, {id})
  {
  }

  /** Creating an entry without references and placing it enters it. */
  lemma EnteredBySteps(before: Infos, untried: Table, created: Infos, after: Infos, untriedAfter: Table, h: Hashes,
                       id: int, e: Info, nLater: int, lost: int)
    requires Shaped(untried, NEW_BUCKET_COUNT) && id != -1 && -1 !in before && id !in before && id in created
    requires created == before[id := created[id]] && Core(created[id]) == Core(e) && e.nRefCount == 0
    requires untried[HomeBucket(h, e)][HomeSlot(h, e)] != id
    requires Placed(created, untried, after, untriedAfter, h, id, e.source, nLater, lost)
    ensures Entered(before, untried, after, untriedAfter, h, id, e, nLater, lost)
    ensures lost in before ==> !before[lost].fInTried && before[lost].nRefCount == 1 && before[lost].IsTerrible(nLater)
  {
    hide Info.IsTerrible, Put, Hashes.NewBucket, Hashes.Position, Kept;
    PlacedKept(created, untried, after, untriedAfter, h, id, e.source, nLater, lost);
    KeptBefore(before, created, after, id);
    TakesOverOld(before, created, id, untried[HomeBucket(h, e)][HomeSlot(h, e)], 0, nLater);
    KeysAfter(before.Keys, id, lost);
    assert created.Keys == before.Keys + {id};
  }

  /** Refreshing an entry and, if it is eligible, placing it. */
  lemma ReannouncedBySteps(before: Infos, untried: Table, after: Infos, untriedAfter: Table, h: Hashes, id: int,
                           e: Info, addr: Address, source: NetAddr, nLater: int, rnd: nat, lost: int)
    requires Shaped(untried, NEW_BUCKET_COUNT) && id in before && -1 !in before
    requires Eligible(e, addr, rnd) ==> e.nRefCount > 0
    requires if Eligible(e, addr, rnd)
             then Placed(before[id := e], untried, after, untriedAfter, h, id, source, nLater, lost)
             else lost == -1 && after == before[id := e] && untriedAfter == untried
    ensures Reannounced(before, untried, after, untriedAfter, h, id, e, addr, source, nLater, rnd, lost)
    ensures lost in before ==> !before[lost].fInTried && before[lost].nRefCount == 1 && before[lost].IsTerrible(nLater)
  {
    hide Info.IsTerrible, Put, Hashes.NewBucket, Hashes.Position, Kept, Eligible;
    var b := h.NewBucket(e.svc, source);
    var d := untried[b][h.Position(true, b, e.svc)];
    if d != id {
      TakesOverOld(before, before[id := e], id, d, e.nRefCount, nLater);
    }
    if Eligible(e, addr, rnd) {
      PlacedKept(before[id := e], untried, after, untriedAfter, h, id, source, nLater, lost);
    } else {
      SameKept(after);
    }
    assert before[id := e].Keys == before.Keys;
  }

  lemma SameKept(infos: Infos)
    ensures Kept(infos, infos, {})
  {
  }

  // ------------------------------------------------- from new to tried and back

  /** The table with an entry's slots emptied. */
  ghost predicate TakenOut(before: Table, after: Table, id: int) {
    && Shaped(before, NEW_BUCKET_COUNT) && Shaped(after, NEW_BUCKET_COUNT)
    && forall b, p | 0 <= b < NEW_BUCKET_COUNT && 0 <= p < BUCKET_SIZE ::
         after[b][p] == if before[b][p] == id then -1 else before[b][p]
  }

  /** The slot of the new table to which the source of an entry entitles it. */
  function HomeBucket(h: Hashes, e: Info): nat { h.NewBucket(e.svc, e.source) }

  function HomeSlot(h: Hashes, e: Info): nat { h.Position(true, HomeBucket(h, e), e.svc) }

  /** The table with entry `id`, described by `e`, in that slot. */
  ghost function Housed(t: Table, h: Hashes, e: Info, id: int): Table
    requires Shaped(t, NEW_BUCKET_COUNT)
  {
    Put(t, HomeBucket(h, e), HomeSlot(h, e), id)
  }

  /** Whom an entry finds in that slot, once `id` has left the table. */
  ghost function Occupant(untried: Table, h: Hashes, e: Info, id: int): int
    requires Shaped(untried, NEW_BUCKET_COUNT)
  {
    var d := untried[HomeBucket(h, e)][HomeSlot(h, e)];
    if d == id then -1 else d
  }

  /** The tried entry `e` is a new one again, with one reference. The occupant of its
      slot has one fewer, and is lost if that was its last. Nothing else changes,
      `id` aside. */
  ghost predicate Reentered(before: Infos, untried: Table, after: Infos, h: Hashes, id: int, e: int, lost: int)
    requires Shaped(untried, NEW_BUCKET_COUNT)
  {
    && e in before && e != id
    && var d := Occupant(untried, h, before[e], id);
    && lost == (if d in before && before[d].nRefCount == 1 then d else -1)
    && e in after && Core(after[e]) == Core(before[e]).(nRefCount := 1, fInTried := false)
    && (forall x | x in after && x != id && x != e && x != d :: x in before && Core(after[x]) == Core(before[x]))
    && (d in after ==> d in before && Core(after[d]) == Core(before[d]).(nRefCount := before[d].nRefCount - 1))
  }

  /** The entry `id` has moved from the new to the tried table. */
  ghost predicate MadeTried(before: Infos, untried: Table, tried: Table, after: Infos, untriedAfter: Table,
                            triedAfter: Table, h: Hashes, id: int, lost: int)
    requires Shaped(untried, NEW_BUCKET_COUNT) && Shaped(tried, TRIED_BUCKET_COUNT) && id in before
  {
    var b := h.TriedBucket(before[id].svc);
    var p := h.Position(false, b, before[id].svc);
    var e := tried[b][p];
    && after.Keys == before.Keys - {lost} && id in after
    && Core(after[id]) == Core(before[id]).(nRefCount := 0, fInTried := true)
    && triedAfter == Put(tried, b, p, id)
    && if e == -1 then
         && lost == -1 && TakenOut(untried, untriedAfter, id)
         && forall x | x in after && x != id :: Core(after[x]) == Core(before[x])
       else
         && Reentered(before, untried, after, h, id, e, lost)
         && TakenOut(Housed(untried, h, before[e], e), untriedAfter, id)
  }

  /** What happened after an entry had left the new table, seen from before. */
  lemma ReenteredSince(before: Infos, untried: Table, cleared: Table, vacated: Infos, h: Hashes, id: int, e: int,
                       lost: int)
    requires TakenOut(untried, cleared, id) && id in before && e != -1 && id != -1 && id in vacated
    requires Reentered(before[id := before[id].(nRefCount := 0)], cleared, vacated, h, id, e, lost)
    ensures Reentered(before, untried, vacated[id := vacated[id].(fInTried := true)], h, id, e, lost)
    ensures TakenOut(Housed(untried, h, before[e], e), Housed(cleared, h, before[e], e), id)
  {
    var between := before[id := before[id].(nRefCount := 0)];
    assert Occupant(untried, h, before[e], id) == Occupant(cleared, h, between[e], id) != id;
  }

  /** Leaving the new table, vacating the tried slot and entering it make a tried entry. */
  lemma MadeTriedBySteps(before: Infos, untried: Table, tried: Table, cleared: Table, vacated: Infos, housed: Table,
                         h: Hashes, id: int, b: nat, p: nat, lost: int)
    requires Shaped(untried, NEW_BUCKET_COUNT) && Shaped(cleared, NEW_BUCKET_COUNT) && Shaped(tried, TRIED_BUCKET_COUNT)
    requires TakenOut(untried, cleared, id) && id in before && id != -1
    requires b == h.TriedBucket(before[id].svc) && p == h.Position(false, b, before[id].svc)
    requires vacated.Keys == before.Keys - {lost} && id in vacated
    requires Core(vacated[id]) == Core(before[id]).(nRefCount := 0)
    requires var between, e := before[id := before[id].(nRefCount := 0)], tried[b][p];
             if e == -1 then lost == -1 && vacated == between && housed == cleared
             else
               && Reentered(between, cleared, vacated, h, id, e, lost)
               && housed == Housed(cleared, h, between[e], e)
    ensures MadeTried(before, untried, tried, vacated[id := vacated[id].(fInTried := true)], housed,
                      Put(tried, b, p, id), h, id, lost)
  {
    hide TakenOut, Reentered, Put, Hashes.TriedBucket, Hashes.Position, HomeBucket, HomeSlot, Housed;
    var e := tried[b][p];
    if e != -1 {
      ReenteredHere(before[id := before[id].(nRefCount := 0)], cleared, vacated, h, id, e, lost);
      ReenteredSince(before, untried, cleared, vacated, h, id, e, lost);
    }
    var after := vacated[id := vacated[id].(fInTried := true)];
    assert after.Keys == vacated.Keys;
  }

  lemma ReenteredHere(before: Infos, untried: Table, after: Infos, h: Hashes, id: int, e: int, lost: int)
    requires Shaped(untried, NEW_BUCKET_COUNT) && Reentered(before, untried, after, h, id, e, lost)
    ensures e in before && e != id
  {
  }

  lemma MadeTriedStats(before: Infos, untried: Table, tried: Table, after: Infos, untriedAfter: Table,
                       triedAfter: Table, h: Hashes, id: int, lost: int)
    requires Shaped(untried, NEW_BUCKET_COUNT) && Shaped(tried, TRIED_BUCKET_COUNT) && id in before
    requires MadeTried(before, untried, tried, after, untriedAfter, triedAfter, h, id, lost) && StatsOk(before)
    ensures StatsOk(after) <==> before[id].nLastSuccess != 0
  {
    hide TakenOut, Put, HomeBucket, HomeSlot, Occupant;
    forall x | x in after && x != id ensures SaneStats(after[x]) {
      assert SaneStats(before[x]);
    }
  }

  lemma OnlyOneLeft(a: int, b: int, c: int)
    requires a != b && a != c
    ensures {a} + {b} - {c} - {b} == {a}
  {
  }

  lemma RestatTriedIds(before: Infos, after: Infos)
    requires before.Keys == after.Keys && forall id | id in before :: before[id].fInTried == after[id].fInTried
    ensures TriedIds(after) == TriedIds(before) <= before.Keys
  {
    assert forall id :: id in TriedIds(before) <==> id in TriedIds(after);
  }
}
