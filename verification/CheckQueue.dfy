/** The parallel check queue: a master and any number of workers, each critical
    section one atomic step, in any interleaving, with spurious wake-ups. */
module CheckQueue {
  import opened MapSums

  /** A check is represented by the verdict it will return when run. */
  type Check = bool

  predicate All(checks: seq<Check>) {
    forall i | 0 <= i < |checks| :: checks[i]
  }

  /** Where a thread stands in Loop. */
  datatype Thread =
    | Outside                                             // not in Loop
    | Ready(nNow: nat, fOk: bool)                         // about to lock, with the outcome of its last batch
    | Waiting(notified: bool)                             // in cond.wait
    | Working(vChecks: seq<Check>, nNow: nat, fOk: bool)  // running a batch of nNow checks; the rest, next one last
  {
    /** Checks taken from the queue and not yet accounted for. */
    function InHand(): int {
      match this
      case Ready(n, _) => n
      case Working(_, n, _) => n
      case _ => 0
    }

    /** Whether everything in hand will have succeeded. */
    predicate Succeeds() {
      match this
      case Ready(n, ok) => n == 0 || ok
      case Working(checks, _, ok) => ok && All(checks)
      case _ => true
    }

    /** Whether the thread is counted in nTotal. */
    predicate Counted() {
      match this
      case Ready(n, _) => n > 0
      case Waiting(_) => true
      case Working(_, _, _) => true
      case Outside => false
    }
  }

  function InHand(t: Thread): int { t.InHand() }

  function CountedWeight(t: Thread): int { if t.Counted() then 1 else 0 }

  function IdleWeight(t: Thread): int { if t.Waiting? then 1 else 0 }

  /** What the mutex protects. */
  datatype Shared = Shared(queue: seq<Check>, nIdle: int, nTotal: int, fAllOk: bool, nTodo: int)

  /** The whole system; `added` is the history of checks added since the master
      last came back from Wait, and `result` what that Wait returned. */
  datatype State = State(
    sh: Shared, nBatchSize: nat, master: Thread, workers: map<nat, Thread>, added: seq<Check>, result: bool)

  function Init(nBatchSize: nat): State {
    State(Shared([], 0, 0, true, 0), nBatchSize, Outside, map[], [], true)
  }

  predicate IsIdle(sh: Shared) {
    sh.nTotal == sh.nIdle && sh.nTodo == 0 && sh.fAllOk
  }

  // ------------------------------------------------------ the critical section

  /** First part: account for the previous batch, or register. */
  function CleanUp(sh: Shared, nNow: nat, fOk: bool): Shared {
    if nNow > 0 then sh.(fAllOk := sh.fAllOk && fOk, nTodo := sh.nTodo - nNow)
    else sh.(nTotal := sh.nTotal + 1)
  }

  lemma ShareBound(q: nat, d: int)
    requires d > 0
    ensures 0 <= q / d <= q
  {
    ProductBound(q / d, d);
  }

  lemma {:induction false} ProductBound(k: int, d: int)
    requires d > 0
    ensures k >= 0 ==> k <= d * k
    decreases d
  {
    if d > 1 {
      ProductBound(k, d - 1);
      assert d * k == (d - 1) * k + k;
    }
  }

  /** How many checks a thread takes at once. */
  function BatchOf(sh: Shared, nBatchSize: nat): (n: int)
    requires sh.nTotal + sh.nIdle + 1 > 0 && sh.queue != []
    ensures 1 <= n <= |sh.queue| && (n == 1 || n <= nBatchSize)
  {
    ShareBound(|sh.queue|, sh.nTotal + sh.nIdle + 1);
    var share := |sh.queue| / (sh.nTotal + sh.nIdle + 1);
    var capped := if nBatchSize < share then nBatchSize else share;
    if capped < 1 then 1 else capped
  }

  /** Second part: leave if the master finds everything done, sleep if there is
      nothing to take, or take a batch off the end of the queue. */
  function Proceed(sh: Shared, fMaster: bool, nBatchSize: nat): (r: (Shared, Thread))
    requires sh.nTotal + sh.nIdle + 1 > 0
  {
    if sh.queue == [] then
      if fMaster && sh.nTodo == 0 then (sh.(nTotal := sh.nTotal - 1, fAllOk := true), Outside)
      else (sh.(nIdle := sh.nIdle + 1), Waiting(false))
    else
      var n := BatchOf(sh, nBatchSize);
      var rest := |sh.queue| - n;
      (sh.(queue := sh.queue[..rest]), Working(sh.queue[rest..], n, sh.fAllOk))
  }

  // -------------------------------------------------------------- the events

  datatype Event =
    | Spawn(w: nat)                        // a worker thread starts
    | Lock(w: nat)                         // a worker enters the critical section
    | Wake(w: nat)                         // a waiting worker wakes, notified or not
    | Run(w: nat)                          // a worker runs one check, or finishes its batch
    | MasterLock | MasterWake | MasterRun  // the same for the master
    | Wait                                 // the master calls Wait
    | Add(checks: seq<Check>, woken: set<nat>)  // the master adds checks and notifies some workers

  function RunOne(t: Thread): Thread
    requires t.Working?
  {
    var last := |t.vChecks| - 1;
    if last < 0 then Ready(t.nNow, t.fOk)
    else Working(t.vChecks[..last], t.nNow, if t.fOk then t.vChecks[last] else false)
  }

  function Notified(t: Thread): Thread {
    if t.Waiting? then Waiting(true) else t
  }

  predicate Enabled(s: State, e: Event) {
    match e
    case Spawn(w) => w !in s.workers
    case Lock(w) => w in s.workers && s.workers[w].Ready?
    case Wake(w) => w in s.workers && s.workers[w].Waiting?
    case Run(w) => w in s.workers && s.workers[w].Working?
    case MasterLock => s.master.Ready?
    case MasterWake => s.master.Waiting?
    case MasterRun => s.master.Working?
    case Wait => s.master.Outside?
    case Add(_, _) => s.master.Outside?
  }

  /** The counters admit the step: whoever wakes has been counted as idle. */
  predicate Sane(sh: Shared, e: Event) {
    sh.nTotal >= 0 && sh.nIdle >= if e.Wake? || e.MasterWake? then 1 else 0
  }

  function Step(s: State, e: Event): State
    requires Enabled(s, e) && Sane(s.sh, e)
  {
    match e
    case Spawn(w) => s.(workers := s.workers[w := Ready(0, true)])
    case Lock(w) =>
      var t := s.workers[w];
      var sh := CleanUp(s.sh, t.nNow, t.fOk);
      var (sh', t') := Proceed(sh, false, s.nBatchSize);
      s.(sh := sh', workers := s.workers[w := t'],
         master := if t.nNow > 0 && sh.nTodo == 0 then Notified(s.master) else s.master)
    case Wake(w) =>
      var (sh', t') := Proceed(s.sh.(nIdle := s.sh.nIdle - 1), false, s.nBatchSize);
      s.(sh := sh', workers := s.workers[w := t'])
    case Run(w) => s.(workers := s.workers[w := RunOne(s.workers[w])])
    case MasterLock => MasterProceeds(s, CleanUp(s.sh, s.master.nNow, s.master.fOk))
    case MasterWake => MasterProceeds(s, s.sh.(nIdle := s.sh.nIdle - 1))
    case MasterRun => s.(master := RunOne(s.master))
    case Wait => s.(master := Ready(0, true))
    case Add(checks, woken) =>
      s.(sh := s.sh.(queue := s.sh.queue + checks, nTodo := s.sh.nTodo + |checks|),
         added := s.added + checks,
         workers := map w | w in s.workers :: if w in woken then Notified(s.workers[w]) else s.workers[w])
  }

  /** The master's critical section; leaving Loop hands back the verdict. */
  function MasterProceeds(s: State, sh: Shared): State
    requires sh.nTotal + sh.nIdle + 1 > 0
  {
    var (sh', t') := Proceed(sh, true, s.nBatchSize);
    if t'.Outside? then s.(sh := sh', master := t', added := [], result := sh.fAllOk)
    else s.(sh := sh', master := t')
  }

  // ----------------------------------------------------------- the invariant

  ghost predicate WorkersSucceed(workers: map<nat, Thread>) {
    forall w | w in workers :: workers[w].Succeeds()
  }

  /** A thread's batch is as long as it says and is not empty once taken. */
  ghost predicate WellFormed(t: Thread) {
    t.Working? ==> |t.vChecks| <= t.nNow && t.nNow > 0
  }

  ghost predicate Inv(s: State) {
    && WellFormed(s.master) && (forall w | w in s.workers :: WellFormed(s.workers[w]) && !s.workers[w].Outside?)
    // nTodo is what is queued or in hand, and the two counters are exact.
    && s.sh.nTodo == |s.sh.queue| + s.master.InHand() + Sum(s.workers, InHand)
    && s.sh.nTodo <= |s.added|
    && s.sh.nTotal == CountedWeight(s.master) + Sum(s.workers, CountedWeight)
    && s.sh.nIdle == IdleWeight(s.master) + Sum(s.workers, IdleWeight)
    // What has been decided and what is left to run together decide the verdict.
    && (All(s.added) <==> s.sh.fAllOk && All(s.sh.queue) && s.master.Succeeds() && WorkersSucceed(s.workers))
    // A sleeping master has something to wait for, or its wake-up has been issued.
    && (s.master == Waiting(false) ==> s.sh.queue == [] && s.sh.nTodo > 0)
  }

  lemma InitInv(nBatchSize: nat)
    ensures Inv(Init(nBatchSize))
  {
  }

  /** The sums that the counters cache, before and after one worker moves. */
  lemma WorkerMoves(workers: map<nat, Thread>, w: nat, t: Thread)
    requires w in workers
    ensures var after := workers[w := t];
            && Sum(after, InHand) == Sum(workers, InHand) - workers[w].InHand() + t.InHand()
            && Sum(after, CountedWeight) == Sum(workers, CountedWeight) - CountedWeight(workers[w]) + CountedWeight(t)
            && Sum(after, IdleWeight) == Sum(workers, IdleWeight) - IdleWeight(workers[w]) + IdleWeight(t)
            && (WorkersSucceed(workers) <==> WorkersSucceed(workers - {w}) && workers[w].Succeeds())
            && (WorkersSucceed(after) <==> WorkersSucceed(workers - {w}) && t.Succeeds())
  {
    SumUpdate(workers, InHand, w, t);
    SumUpdate(workers, CountedWeight, w, t);
    SumUpdate(workers, IdleWeight, w, t);
    OneAndTheRest(workers, w);
    OneAndTheRest(workers[w := t], w);
    assert workers[w := t] - {w} == workers - {w};
  }

  lemma OneAndTheRest(workers: map<nat, Thread>, w: nat)
    requires w in workers
    ensures WorkersSucceed(workers) <==> WorkersSucceed(workers - {w}) && workers[w].Succeeds()
  {
    if WorkersSucceed(workers - {w}) && workers[w].Succeeds() {
      forall x | x in workers ensures workers[x].Succeeds() {
        assert x != w ==> x in workers - {w};
      }
    }
  }

  /** When nothing is in hand, no worker stands in the way of success, and the
      counted ones are exactly the sleeping ones. */
  lemma NothingInHand(workers: map<nat, Thread>)
    requires forall w | w in workers :: WellFormed(workers[w])
    requires Sum(workers, InHand) == 0
    ensures WorkersSucceed(workers) && Sum(workers, CountedWeight) == Sum(workers, IdleWeight)
  {
    forall w | w in workers
      ensures workers[w].Succeeds() && CountedWeight(workers[w]) == IdleWeight(workers[w])
    {
      SumZero(workers, InHand, w);
    }
    SumCongruent(workers, CountedWeight, IdleWeight);
  }

  lemma SumsNonNegative(workers: map<nat, Thread>)
    ensures Sum(workers, InHand) >= 0 && Sum(workers, CountedWeight) >= 0 && Sum(workers, IdleWeight) >= 0
  {
    SumNonNegative(workers, InHand);
    SumNonNegative(workers, CountedWeight);
    SumNonNegative(workers, IdleWeight);
  }

  /** In every state of the invariant, an enabled step finds sane counters. */
  lemma InvSane(s: State, e: Event)
    requires Inv(s) && Enabled(s, e)
    ensures Sane(s.sh, e)
  {
    SumsNonNegative(s.workers);
    if e.Wake? {
      SumSplit(s.workers, IdleWeight, e.w);
      SumsNonNegative(s.workers - {e.w});
    }
  }

  lemma SplitAll(queue: seq<Check>, k: nat)
    requires k <= |queue|
    ensures All(queue) <==> All(queue[..k]) && All(queue[k..])
  {
    if All(queue[..k]) && All(queue[k..]) {
      forall i | 0 <= i < |queue| ensures queue[i] {
        assert queue[i] == if i < k then queue[..k][i] else queue[k..][i - k];
      }
    }
  }

  /** What the second part of the critical section does to the books. */
  lemma ProceedBooks(sh: Shared, fMaster: bool, nBatchSize: nat)
    requires sh.nTotal + sh.nIdle + 1 > 0
    ensures var (after, t) := Proceed(sh, fMaster, nBatchSize);
            && WellFormed(t) && !t.Ready? && (t.Outside? ==> fMaster && sh.nTodo == 0 && sh.queue == [])
            && (t.Working? ==> 1 <= t.nNow == |t.vChecks| && (t.nNow == 1 || t.nNow <= nBatchSize))
            && |after.queue| + t.InHand() == |sh.queue| && after.nTodo == sh.nTodo
            && after.nTotal == sh.nTotal - (if t.Outside? then 1 else 0)
            && after.nIdle == sh.nIdle + IdleWeight(t)
            && (t.Outside? ==> after.fAllOk)
            && (!t.Outside? ==> after.fAllOk == sh.fAllOk)
            && (!t.Outside? ==> (sh.fAllOk && All(sh.queue) <==> after.fAllOk && All(after.queue) && t.Succeeds()))
            && (t.Waiting? ==> t == Waiting(false) && after.queue == [] && (fMaster ==> sh.nTodo != 0))
  {
    if sh.queue != [] {
      SplitAll(sh.queue, |sh.queue| - BatchOf(sh, nBatchSize));
    }
  }

  /** A batch taken is the largest number of checks, up to the limit, of which every counted thread
      and one more could have as many; but at least one. */
  lemma BatchIs(sh: Shared, fMaster: bool, nBatchSize: nat)
    requires sh.nTotal + sh.nIdle + 1 > 0 && Proceed(sh, fMaster, nBatchSize).1.Working?
    ensures var n, threads := Proceed(sh, fMaster, nBatchSize).1.nNow, sh.nTotal + sh.nIdle + 1;
            && (n > 1 ==> n <= nBatchSize && n * threads <= |sh.queue|)
            && (n < nBatchSize ==> (n + 1) * threads > |sh.queue|)
  {
    var n, q, d := BatchOf(sh, nBatchSize), |sh.queue|, sh.nTotal + sh.nIdle + 1;
    var share := q / d;
    ShareIs(q, d);
    assert n == share || n == nBatchSize <= share || (n == 1 && (share == 0 || nBatchSize == 0));
    assert share == 0 ==> 2 * d > q;
    hide *;
    Fewer(n, share, d);
  }

  lemma ShareIs(q: nat, d: int)
    requires d > 0
    ensures 0 <= q / d && q / d * d <= q < (q / d + 1) * d
  {
    var share := q / d;
    assert q == share * d + q % d;
    assert (share + 1) * d == share * d + d;
    ShareBound(q, d);
  }

  lemma Fewer(n: int, m: int, d: int)
    requires d > 0
    ensures n <= m ==> n * d <= m * d
  {
  }

  /** Who is woken: the master by a worker that hands in the last checks, workers by new checks,
      and nobody else. */
  lemma WokenAre(s: State, e: Event)
    requires Enabled(s, e) && Sane(s.sh, e)
    ensures s.master == Waiting(false) && !e.MasterWake? ==>
              var lastOnes := e.Lock? && s.workers[e.w].nNow == s.sh.nTodo > 0;
              Step(s, e).master == Waiting(lastOnes)
    ensures forall w | w in s.workers && s.workers[w] == Waiting(false) && e != Wake(w) ::
              Step(s, e).workers[w] == Waiting(e.Add? && w in e.woken)
  {
    hide BatchOf;
  }

  lemma RunOneBooks(t: Thread)
    requires t.Working? && WellFormed(t)
    ensures var after := RunOne(t);
            && WellFormed(after) && after.InHand() == t.InHand() && CountedWeight(after) == CountedWeight(t)
            && IdleWeight(after) == IdleWeight(t) && (after.Succeeds() <==> t.Succeeds())
  {
    if t.vChecks != [] {
      SplitAll(t.vChecks, |t.vChecks| - 1);
      assert t.vChecks[|t.vChecks| - 1..] == [t.vChecks[|t.vChecks| - 1]];
    }
  }

  // ------------------------------------------------- every step keeps the books

  lemma LockKeeps(s: State, w: nat)
    requires Inv(s) && Enabled(s, Lock(w))
    ensures Sane(s.sh, Lock(w)) && Inv(Step(s, Lock(w)))
  {
    hide Sum, Proceed, All, WorkersSucceed;
    InvSane(s, Lock(w));
    var t := s.workers[w];
    var sh := CleanUp(s.sh, t.nNow, t.fOk);
    ProceedBooks(sh, false, s.nBatchSize);
    var (sh', t') := Proceed(sh, false, s.nBatchSize);
    WorkerMoves(s.workers, w, t');
    SumsNonNegative(s.workers[w := t']);
    var after := Step(s, Lock(w));
    assert after.sh == sh' && after.workers == s.workers[w := t'];
    assert after.master.InHand() == s.master.InHand() && after.master.Counted() == s.master.Counted();
    assert after.master.Succeeds() == s.master.Succeeds() && after.master.Waiting? == s.master.Waiting?;
  }

  lemma WakeKeeps(s: State, w: nat)
    requires Inv(s) && Enabled(s, Wake(w))
    ensures Sane(s.sh, Wake(w)) && Inv(Step(s, Wake(w)))
  {
    hide Sum;
    InvSane(s, Wake(w));
    var sh := s.sh.(nIdle := s.sh.nIdle - 1);
    ProceedBooks(sh, false, s.nBatchSize);
    WorkerMoves(s.workers, w, Proceed(sh, false, s.nBatchSize).1);
  }

  lemma WorkerRunKeeps(s: State, w: nat)
    requires Inv(s) && Enabled(s, Run(w))
    ensures Sane(s.sh, Run(w)) && Inv(Step(s, Run(w)))
  {
    hide Sum;
    InvSane(s, Run(w));
    RunOneBooks(s.workers[w]);
    WorkerMoves(s.workers, w, RunOne(s.workers[w]));
  }

  lemma SpawnKeeps(s: State, w: nat)
    requires Inv(s) && Enabled(s, Spawn(w))
    ensures Sane(s.sh, Spawn(w)) && Inv(Step(s, Spawn(w)))
  {
    hide Sum;
    InvSane(s, Spawn(w));
    var after := s.workers[w := Ready(0, true)];
    SumUpdate(s.workers, InHand, w, Ready(0, true));
    SumUpdate(s.workers, CountedWeight, w, Ready(0, true));
    SumUpdate(s.workers, IdleWeight, w, Ready(0, true));
    OneAndTheRest(after, w);
    assert after - {w} == s.workers;
  }

  /** The promises of one step of the master. */
  ghost predicate MasterGood(s: State, e: Event)
    requires Enabled(s, e)
  {
    && Sane(s.sh, e) && Inv(Step(s, e))
    && var after := Step(s, e);
      after.master.Outside? ==> after.result == All(s.added) && after.added == [] && IsIdle(after.sh)
  }

  lemma NobodyHolds(s: State)
    requires Inv(s)
    ensures Sum(s.workers, InHand) >= 0 && Sum(s.workers, CountedWeight) >= 0 && Sum(s.workers, IdleWeight) >= 0
    ensures Sum(s.workers, InHand) == 0 ==>
            WorkersSucceed(s.workers) && Sum(s.workers, CountedWeight) == Sum(s.workers, IdleWeight)
  {
    hide Sum;
    SumsNonNegative(s.workers);
    if Sum(s.workers, InHand) == 0 {
      NothingInHand(s.workers);
    }
  }

  lemma MasterLocks(s: State)
    requires Inv(s) && Enabled(s, MasterLock)
    ensures MasterGood(s, MasterLock)
  {
    hide Sum, WorkersSucceed, BatchOf, Proceed;
    InvSane(s, MasterLock);
    NobodyHolds(s);
    ProceedBooks(CleanUp(s.sh, s.master.nNow, s.master.fOk), true, s.nBatchSize);
  }

  lemma MasterRuns(s: State)
    requires Inv(s) && Enabled(s, MasterRun)
    ensures MasterGood(s, MasterRun)
  {
    hide Sum, WorkersSucceed;
    InvSane(s, MasterRun);
    RunOneBooks(s.master);
  }

  lemma MasterWakes(s: State)
    requires Inv(s) && Enabled(s, MasterWake)
    ensures MasterGood(s, MasterWake)
  {
    hide Sum, WorkersSucceed;
    InvSane(s, MasterWake);
    NobodyHolds(s);
    ProceedBooks(s.sh.(nIdle := s.sh.nIdle - 1), true, s.nBatchSize);
  }

  lemma MasterWaits(s: State)
    requires Inv(s) && Enabled(s, Wait)
    ensures MasterGood(s, Wait)
  {
    hide Sum, WorkersSucceed;
    InvSane(s, Wait);
    NobodyHolds(s);
  }

  lemma MasterKeeps(s: State, e: Event)
    requires Inv(s) && Enabled(s, e) && (e.MasterLock? || e.MasterWake? || e.MasterRun? || e.Wait?)
    ensures MasterGood(s, e)
  {
    hide Inv, Step, Enabled, Sane, MasterGood;
    match e
    case MasterLock => MasterLocks(s);
    case MasterRun => MasterRuns(s);
    case MasterWake => MasterWakes(s);
    case Wait => MasterWaits(s);
  }

  lemma AddKeeps(s: State, checks: seq<Check>, woken: set<nat>)
    requires Inv(s) && Enabled(s, Add(checks, woken))
    ensures Sane(s.sh, Add(checks, woken)) && Inv(Step(s, Add(checks, woken)))
  {
    hide Sum;
    InvSane(s, Add(checks, woken));
    var after := Step(s, Add(checks, woken)).workers;
    NotifyKeepsSum(s.workers, after, InHand);
    NotifyKeepsSum(s.workers, after, CountedWeight);
    NotifyKeepsSum(s.workers, after, IdleWeight);
    assert WorkersSucceed(after) <==> WorkersSucceed(s.workers) by {
      assert forall w | w in after :: after[w].Succeeds() == s.workers[w].Succeeds();
    }
    SplitAll(s.added + checks, |s.added|);
    SplitAll(s.sh.queue + checks, |s.sh.queue|);
    assert (s.added + checks)[..|s.added|] == s.added && (s.added + checks)[|s.added|..] == checks;
    assert (s.sh.queue + checks)[..|s.sh.queue|] == s.sh.queue && (s.sh.queue + checks)[|s.sh.queue|..] == checks;
  }

  lemma {:induction false} NotifyKeepsSum(before: map<nat, Thread>, after: map<nat, Thread>, f: Thread -> int)
    requires before.Keys == after.Keys
    requires forall w | w in before :: f(before[w]) == f(after[w])
    ensures Sum(before, f) == Sum(after, f)
    decreases before.Keys
  {
    if before == map[] {
      assert after == map[];
    } else {
      var w := Pick(before);
      SumSplit(after, f, w);
      NotifyKeepsSum(before - {w}, after - {w}, f);
    }
  }

  lemma StepKeeps(s: State, e: Event)
    requires Inv(s) && Enabled(s, e)
    ensures Sane(s.sh, e) && Inv(Step(s, e))
  {
    hide Inv, Step, Enabled;
    match e
    case Spawn(w) => SpawnKeeps(s, w);
    case Lock(w) => LockKeeps(s, w);
    case Wake(w) => WakeKeeps(s, w);
    case Run(w) => WorkerRunKeeps(s, w);
    case Add(checks, woken) => AddKeeps(s, checks, woken);
    case _ => MasterKeeps(s, e);
  }

  // ------------------------------------------------------------- whole runs

  /** `states` is a run from the start, driven by `events`. */
  ghost predicate IsRun(states: seq<State>, events: seq<Event>, nBatchSize: nat) {
    && |states| == |events| + 1
    && states[0] == Init(nBatchSize)
    && forall i | 0 <= i < |events| ::
         Enabled(states[i], events[i]) && Sane(states[i].sh, events[i]) && states[i + 1] == Step(states[i], events[i])
  }

  lemma {:induction false} RunInv(states: seq<State>, events: seq<Event>, nBatchSize: nat, n: nat)
    requires IsRun(states, events, nBatchSize) && n < |states|
    ensures Inv(states[n])
  {
    hide Inv, Step, Enabled, Sane;
    if n == 0 {
      InitInv(nBatchSize);
    } else {
      RunInv(states, events, nBatchSize, n - 1);
      StepKeeps(states[n - 1], events[n - 1]);
    }
  }

  /** Whenever the master comes back from Wait, it returns true exactly if every
      check added since the previous Wait succeeded, and the queue is idle. */
  lemma WaitIsRight(states: seq<State>, events: seq<Event>, nBatchSize: nat, n: nat)
    requires IsRun(states, events, nBatchSize) && n < |events|
    requires !states[n].master.Outside? && states[n + 1].master.Outside?
    ensures states[n + 1].result == All(states[n].added) && states[n + 1].added == []
    ensures IsIdle(states[n + 1].sh)
  {
    RunInv(states, events, nBatchSize, n);
    assert events[n].MasterLock? || events[n].MasterWake?;
    MasterKeeps(states[n], events[n]);
  }

  /** The history is what was added: exactly the Add events since the last return. */
  lemma {:induction false} HistoryIsWhatWasAdded(states: seq<State>, events: seq<Event>, nBatchSize: nat,
                                                 from: nat, n: nat)
    requires IsRun(states, events, nBatchSize) && from <= n < |states| && states[from].added == []
    requires forall i | from <= i < n :: !(!states[i].master.Outside? && states[i + 1].master.Outside?)
    ensures states[n].added == AddedBetween(events, from, n)
  {
    if n > from {
      HistoryIsWhatWasAdded(states, events, nBatchSize, from, n - 1);
      var s, e := states[n - 1], events[n - 1];
      assert states[n] == Step(s, e);
    }
  }

  ghost function AddedBetween(events: seq<Event>, from: nat, n: nat): seq<Check>
    requires from <= n <= |events|
  {
    if n == from then []
    else AddedBetween(events, from, n - 1) + (if events[n - 1].Add? then events[n - 1].checks else [])
  }

  /** No wake-up is lost: while the master sleeps without one, some worker holds
      unfinished checks, and a step of that worker is enabled. */
  lemma NoLostWakeUp(states: seq<State>, events: seq<Event>, nBatchSize: nat, n: nat) returns (w: nat)
    requires IsRun(states, events, nBatchSize) && n < |states|
    requires states[n].master == Waiting(false)
    ensures w in states[n].workers && states[n].workers[w].InHand() > 0
    ensures Enabled(states[n], Run(w)) || Enabled(states[n], Lock(w))
  {
    RunInv(states, events, nBatchSize, n);
    w := HoldsSome(states[n].workers);
  }

  lemma {:induction false} HoldsSome(workers: map<nat, Thread>) returns (w: nat)
    requires Sum(workers, InHand) > 0
    ensures w in workers && workers[w].InHand() > 0
    decreases workers.Keys
  {
    w := Pick(workers);
    if workers[w].InHand() == 0 {
      w := HoldsSome(workers - {w});
    }
  }

  /** The queue is idle whenever the master is outside and has added nothing yet, so
      the controller's assertion holds at the start of every round. */
  lemma IdleBetweenRounds(states: seq<State>, events: seq<Event>, nBatchSize: nat, n: nat)
    requires IsRun(states, events, nBatchSize) && n < |states|
    requires states[n].master.Outside? && states[n].added == []
    ensures IsIdle(states[n].sh)
  {
    RunInv(states, events, nBatchSize, n);
    SumsNonNegative(states[n].workers);
    NothingInHand(states[n].workers);
  }
}
