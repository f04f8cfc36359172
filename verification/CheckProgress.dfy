/** Wait comes to an end: a measure of the work left that no thread raises, and that some
    thread can lower as long as the master waits. */
module CheckProgress {
  import opened MapSums
  import opened CheckQueue

  /** What a thread still has to do, one for each step until it sleeps or leaves. */
  function Load(t: Thread): int {
    match t
    case Outside => 0
    case Waiting(_) => 1
    case Ready(_, _) => 2
    case Working(vChecks, _, _) => |vChecks| + 3
  }

  /** The work left; a queued check is also somebody's batch to come. */
  ghost function Work(s: State): int {
    4 * |s.sh.queue| + Load(s.master) + Sum(s.workers, Load)
  }

  lemma WorkNonNegative(s: State)
    ensures Work(s) >= 0
  {
    SumNonNegative(s.workers, Load);
  }

  /** The critical section: taking a batch, leaving or going to sleep. */
  lemma ProceedWork(sh: Shared, fMaster: bool, nBatchSize: nat)
    requires sh.nTotal + sh.nIdle + 1 > 0
    ensures var (after, t) := Proceed(sh, fMaster, nBatchSize);
            && 4 * |after.queue| + Load(t) <= 4 * |sh.queue| + 1
            && (sh.queue != [] || (fMaster && sh.nTodo == 0) ==> 4 * |after.queue| + Load(t) <= 4 * |sh.queue|)
  {
  }

  /** Steps the threads take by themselves, as opposed to calls from outside. */
  predicate Internal(e: Event) {
    !e.Spawn? && !e.Wait? && !e.Add?
  }

  lemma WorkerWork(s: State, e: Event)
    requires Inv(s) && Enabled(s, e) && (e.Lock? || e.Wake? || e.Run?)
    ensures Sane(s.sh, e) && Work(Step(s, e)) <= Work(s)
    ensures !e.Wake? ==> Work(Step(s, e)) < Work(s)
  {
    hide Sum, Inv, Proceed;
    InvSane(s, e);
    var after := Step(s, e);
    SumUpdate(s.workers, Load, e.w, after.workers[e.w]);
    match e
    case Lock(w) => ProceedWork(CleanUp(s.sh, s.workers[w].nNow, s.workers[w].fOk), false, s.nBatchSize);
    case Wake(w) => ProceedWork(s.sh.(nIdle := s.sh.nIdle - 1), false, s.nBatchSize);
    case Run(w) =>
  }

  lemma MasterWork(s: State, e: Event)
    requires Inv(s) && Enabled(s, e) && (e.MasterLock? || e.MasterWake? || e.MasterRun?)
    ensures Sane(s.sh, e) && Work(Step(s, e)) <= Work(s)
    ensures !e.MasterWake? || s.sh.queue != [] || s.sh.nTodo == 0 ==> Work(Step(s, e)) < Work(s)
  {
    hide Sum, Inv, Proceed;
    InvSane(s, e);
    match e
    case MasterLock => ProceedWork(CleanUp(s.sh, s.master.nNow, s.master.fOk), true, s.nBatchSize);
    case MasterWake => ProceedWork(s.sh.(nIdle := s.sh.nIdle - 1), true, s.nBatchSize);
    case MasterRun =>
  }

  /** No thread makes more work. */
  lemma NeverRaised(s: State, e: Event)
    requires Inv(s) && Enabled(s, e) && Internal(e)
    ensures Sane(s.sh, e) && Work(Step(s, e)) <= Work(s)
  {
    hide Inv, Step, Enabled, Sane, Work;
    if e.Lock? || e.Wake? || e.Run? {
      WorkerWork(s, e);
    } else {
      MasterWork(s, e);
    }
  }

  /** As long as the master is in Wait some thread can make the work less, without any
      spurious wake-up: only a notified master is expected to wake. */
  lemma SomeoneCanMove(states: seq<State>, events: seq<Event>, nBatchSize: nat, n: nat) returns (e: Event)
    requires IsRun(states, events, nBatchSize) && n < |states| && !states[n].master.Outside?
    ensures Internal(e) && !e.Wake? && (e.MasterWake? ==> states[n].master == Waiting(true))
    ensures Enabled(states[n], e) && Sane(states[n].sh, e) && Work(Step(states[n], e)) < Work(states[n])
  {
    var s := states[n];
    RunInv(states, events, nBatchSize, n);
    hide Step, Work, Sane, IsRun;
    if s.master.Ready? {
      e := MasterLock;
      MasterWork(s, e);
    } else if s.master.Working? {
      e := MasterRun;
      MasterWork(s, e);
    } else if s.sh.queue != [] || s.sh.nTodo == 0 {
      e := MasterWake;
      MasterWork(s, e);
    } else {
      SumsNonNegative(s.workers);
      var w := HoldsSome(s.workers);
      e := if s.workers[w].Working? then Run(w) else Lock(w);
      WorkerWork(s, e);
    }
  }

  /** How many of a stretch of steps made the work less. */
  ghost function Lowering(states: seq<State>, from: nat, to: nat): nat
    requires from <= to < |states|
  {
    if from == to then 0
    else Lowering(states, from, to - 1) + if Work(states[to]) < Work(states[to - 1]) then 1 else 0
  }

  /** Without calls from outside, at most as many steps make the work less as there was work:
      a Wait during which such steps keep being taken ends. */
  lemma {:induction false} WorkRunsOut(states: seq<State>, events: seq<Event>, nBatchSize: nat, from: nat, to: nat)
    requires IsRun(states, events, nBatchSize) && from <= to < |states|
    requires forall i | from <= i < to :: Internal(events[i])
    ensures Lowering(states, from, to) <= Work(states[from]) - Work(states[to])
    ensures Lowering(states, from, to) <= Work(states[from])
  {
    hide Work, Step, Enabled, Sane, Internal;
    WorkNonNegative(states[to]);
    if from < to {
      WorkRunsOut(states, events, nBatchSize, from, to - 1);
      RunInv(states, events, nBatchSize, to - 1);
      NeverRaised(states[to - 1], events[to - 1]);
    }
  }
}
