/** The thread pool: workers, a queue, one mutex and one condition variable. Each stretch of code that
    holds the mutex is one step; a worker may wake up for no reason. */
module ThreadPool {
  import opened Text

  /** A queued `std::function`; only its identity matters here. */
  type Job = nat

  datatype Worker =
    | Ready               // about to take the mutex and look at the queue
    | Asleep              // waiting on the condition variable
    | Running(k: nat)     // running the k-th job ever enqueued
    | Exited

  datatype State = State(
    workers: seq<Worker>,
    jobs: seq<Job>,           // jobs_
    stopping: bool,           // shutdown_
    notified: bool,           // shutdown() has called notify_all
    enqueued: seq<Job>,       // every job ever put into the queue
    taken: nat,               // how many jobs have left the queue
    before: nat,              // how many had been enqueued when shutdown_ was set
    done: seq<nat>)           // numbers of the jobs that have finished, in that order
  {
    function With(w: nat, x: Worker): State
      requires w < |workers|
    {
      this.(workers := workers[w := x])
    }
  }

  datatype Action =
    | Enqueue(job: Job, wake: Option<nat>)   // wake: the waiter that notify_one picks
    | Check(w: nat)                          // evaluate the wait condition and act on it
    | Wake(w: nat)                           // spurious wake-up
    | Finish(w: nat)                         // the job returns
    | SetShutdown
    | NotifyAll

  function Initial(n: nat): State {
    State(seq(n, _ => Ready), [], false, false, [], 0, 0, [])
  }

  predicate AnyAsleep(s: State) {
    exists w | 0 <= w < |s.workers| :: s.workers[w] == Asleep
  }

  predicate Enabled(s: State, a: Action) {
    match a
    case Enqueue(_, wake) =>
      if AnyAsleep(s) then wake.Some? && wake.value < |s.workers| && s.workers[wake.value] == Asleep
      else wake.None?
    case Check(w) => w < |s.workers| && s.workers[w] == Ready
    case Wake(w) => w < |s.workers| && s.workers[w] == Asleep
    case Finish(w) => w < |s.workers| && s.workers[w].Running?
    case SetShutdown => !s.stopping
    case NotifyAll => s.stopping && !s.notified
  }

  function Step(s: State, a: Action): State
    requires Enabled(s, a)
  {
    match a
    case Enqueue(job, wake) =>
      var s' := s.(jobs := s.jobs + [job], enqueued := s.enqueued + [job]);
      if wake.Some? then s'.With(wake.value, Ready) else s'
    case Check(w) =>
      if s.jobs != [] then s.With(w, Running(s.taken)).(jobs := s.jobs[1..], taken := s.taken + 1)
      else if s.stopping then s.With(w, Exited)
      else s.With(w, Asleep)
    case Wake(w) => s.With(w, Ready)
    case Finish(w) => s.With(w, Ready).(done := s.done + [s.workers[w].k])
    case SetShutdown => s.(stopping := true, before := |s.enqueued|)
    case NotifyAll =>
      s.(notified := true,
         workers := seq(|s.workers|, w requires 0 <= w < |s.workers| =>
           if s.workers[w] == Asleep then Ready else s.workers[w]))
  }

  // ---- Counting workers --------------------------------------------------------------------------

  function Count(workers: seq<Worker>, x: Worker): nat {
    if workers == [] then 0
    else Count(workers[..|workers| - 1], x) + if workers[|workers| - 1] == x then 1 else 0
  }

  lemma {:induction false} CountUpdate(workers: seq<Worker>, w: nat, y: Worker, x: Worker)
    requires w < |workers|
    ensures Count(workers[w := y], x)
         == Count(workers, x) - (if workers[w] == x then 1 else 0) + (if y == x then 1 else 0)
    decreases |workers|
  {
    var n := |workers| - 1;
    if w == n {
      assert workers[w := y][..n] == workers[..n];
    } else {
      assert workers[w := y][..n] == workers[..n][w := y];
      CountUpdate(workers[..n], w, y, x);
    }
  }

  lemma {:induction false} CountNone(workers: seq<Worker>, x: Worker)
    requires forall w | 0 <= w < |workers| :: workers[w] != x
    ensures Count(workers, x) == 0
  {
    if workers != [] { CountNone(workers[..|workers| - 1], x); }
  }

  lemma {:induction false} CountSome(workers: seq<Worker>, x: Worker)
    requires Count(workers, x) > 0
    ensures exists w | 0 <= w < |workers| :: workers[w] == x
  {
    if forall w | 0 <= w < |workers| :: workers[w] != x { CountNone(workers, x); }
  }

  // ---- The invariant -----------------------------------------------------------------------------

  /** No wake-up is lost: while a worker sleeps, there are no more jobs than workers about to look. */
  ghost predicate NoLostWakeUp(s: State) {
    AnyAsleep(s) ==> |s.jobs| <= Count(s.workers, Ready)
  }

  /** First in, first out, nothing lost or doubled: the queue is the rest of what was enqueued, and each
      job taken is either being run by one worker or has finished once. */
  ghost predicate Accounted(s: State) {
    && s.taken <= |s.enqueued| && s.jobs == s.enqueued[s.taken..]
    && (forall k: nat :: Count(s.workers, Running(k)) + multiset(s.done)[k] == if k < s.taken then 1 else 0)
  }

  /** A worker leaves only when it has to, and then every job from before the shutdown has been taken. */
  ghost predicate Draining(s: State) {
    && (s.notified ==> s.stopping && !AnyAsleep(s))
    && (forall w | 0 <= w < |s.workers| :: s.workers[w] == Exited ==> s.stopping && s.before <= s.taken)
    && (s.stopping ==> s.before <= |s.enqueued|)
  }

  ghost predicate Inv(s: State) {
    NoLostWakeUp(s) && Accounted(s) && Draining(s)
  }

  lemma {:induction false} InitialInv(n: nat)
    ensures Inv(Initial(n))
  {
    forall k: nat ensures Count(Initial(n).workers, Running(k)) == 0 { CountNone(Initial(n).workers, Running(k)); }
  }

  lemma {:induction false} KeepsWakeUps(s: State, a: Action)
    requires Inv(s) && Enabled(s, a)
    ensures NoLostWakeUp(Step(s, a))
  {
    var s' := Step(s, a);
    match a
    case Enqueue(_, wake) =>
      if wake.Some? { CountUpdate(s.workers, wake.value, Ready, Ready); }
    case Check(w) => CountUpdate(s.workers, w, s'.workers[w], Ready);
    case Wake(w) => CountUpdate(s.workers, w, Ready, Ready);
    case Finish(w) => CountUpdate(s.workers, w, Ready, Ready);
    case SetShutdown =>
    case NotifyAll =>
  }

  lemma {:induction false} KeepsAccounts(s: State, a: Action)
    requires Inv(s) && Enabled(s, a)
    ensures Accounted(Step(s, a))
  {
    var s' := Step(s, a);
    forall k: nat
      ensures Count(s'.workers, Running(k)) + multiset(s'.done)[k] == if k < s'.taken then 1 else 0
    {
      assert Count(s.workers, Running(k)) + multiset(s.done)[k] == if k < s.taken then 1 else 0;
      match a
      case Enqueue(_, wake) =>
        if wake.Some? { CountUpdate(s.workers, wake.value, Ready, Running(k)); }
      case Check(w) => CountUpdate(s.workers, w, s'.workers[w], Running(k));
      case Wake(w) => CountUpdate(s.workers, w, Ready, Running(k));
      case Finish(w) => CountUpdate(s.workers, w, Ready, Running(k));
      case SetShutdown =>
      case NotifyAll => CountAwake(s.workers, s'.workers, Running(k));
    }
  }

  /** Waking the sleepers does not change who runs what. */
  lemma {:induction false} CountAwake(before: seq<Worker>, after: seq<Worker>, x: Worker)
    requires |after| == |before| && x.Running?
    requires forall w | 0 <= w < |before| :: after[w] == if before[w] == Asleep then Ready else before[w]
    ensures Count(after, x) == Count(before, x)
    decreases |before|
  {
    if before != [] { CountAwake(before[..|before| - 1], after[..|before| - 1], x); }
  }

  /** Every step of every thread keeps the invariant. */
  lemma {:induction false} StepInv(s: State, a: Action)
    requires Inv(s) && Enabled(s, a)
    ensures Inv(Step(s, a))
  {
    KeepsWakeUps(s, a);
    KeepsAccounts(s, a);
  }

  // ---- Runs --------------------------------------------------------------------------------------

  ghost predicate Reaches(s: State, run: seq<Action>, s': State)
    decreases |run|
  {
    if run == [] then s' == s
    else Enabled(s, run[0]) && Reaches(Step(s, run[0]), run[1..], s')
  }

  lemma {:induction false} RunInv(s: State, run: seq<Action>, s': State)
    requires Inv(s) && Reaches(s, run, s')
    ensures Inv(s') && |s'.workers| == |s.workers|
    decreases |run|
  {
    hide Inv;
    if run != [] {
      StepInv(s, run[0]);
      RunInv(Step(s, run[0]), run[1..], s');
    }
  }

  // ---- What the actions of a run say -------------------------------------------------------------

  /** The jobs handed to the pool, in order. */
  function Jobs(run: seq<Action>): seq<Job> {
    if run == [] then [] else (if run[0].Enqueue? then [run[0].job] else []) + Jobs(run[1..])
  }

  /** How many of them came before the shutdown. */
  function Before(run: seq<Action>): nat {
    if run == [] || run[0].SetShutdown? then 0 else (if run[0].Enqueue? then 1 else 0) + Before(run[1..])
  }

  /** How many have returned. */
  function Finishes(run: seq<Action>): nat {
    if run == [] then 0 else (if run[0].Finish? then 1 else 0) + Finishes(run[1..])
  }

  function Busy(workers: seq<Worker>): nat {
    if workers == [] then 0 else Busy(workers[..|workers| - 1]) + if workers[|workers| - 1].Running? then 1 else 0
  }

  lemma {:induction false} BusyUpdate(workers: seq<Worker>, w: nat, y: Worker)
    requires w < |workers|
    ensures Busy(workers[w := y])
         == Busy(workers) - (if workers[w].Running? then 1 else 0) + (if y.Running? then 1 else 0)
    decreases |workers|
  {
    var n := |workers| - 1;
    if w == n {
      assert workers[w := y][..n] == workers[..n];
    } else {
      assert workers[w := y][..n] == workers[..n][w := y];
      BusyUpdate(workers[..n], w, y);
    }
  }

  lemma {:induction false} BusyAwake(before: seq<Worker>, after: seq<Worker>)
    requires |after| == |before|
    requires forall w | 0 <= w < |before| :: after[w].Running? == before[w].Running?
    ensures Busy(after) == Busy(before)
    decreases |before|
  {
    if before != [] { BusyAwake(before[..|before| - 1], after[..|before| - 1]); }
  }

  lemma {:induction false} BusyNone(workers: seq<Worker>)
    requires forall w | 0 <= w < |workers| :: !workers[w].Running?
    ensures Busy(workers) == 0
  {
    if workers != [] { BusyNone(workers[..|workers| - 1]); }
  }

  /** A job that was taken is being run or has returned. */
  lemma {:induction false} KeepsTaken(s: State, a: Action)
    requires Enabled(s, a)
    ensures var s' := Step(s, a);
            s'.taken - |s'.done| - Busy(s'.workers) == s.taken - |s.done| - Busy(s.workers)
  {
    hide Busy;
    var s' := Step(s, a);
    match a
    case Enqueue(_, wake) =>
      if wake.Some? { BusyUpdate(s.workers, wake.value, Ready); }
    case Check(w) => BusyUpdate(s.workers, w, s'.workers[w]);
    case Wake(w) => BusyUpdate(s.workers, w, Ready);
    case Finish(w) => BusyUpdate(s.workers, w, Ready);
    case SetShutdown =>
    case NotifyAll => BusyAwake(s.workers, s'.workers);
  }

  lemma {:induction false} StepHistory(s: State, a: Action)
    requires Enabled(s, a)
    ensures var s' := Step(s, a);
            && s'.enqueued == s.enqueued + (if a.Enqueue? then [a.job] else [])
            && |s'.done| == |s.done| + (if a.Finish? then 1 else 0)
            && s'.stopping == (s.stopping || a.SetShutdown?)
            && s'.notified == (s.notified || a.NotifyAll?)
            && s'.before == (if a.SetShutdown? then |s.enqueued| else s.before)
            && (a.SetShutdown? ==> !s.stopping)
  {
  }

  /** What a run leaves on record is what its actions say. */
  lemma {:induction false} History(s: State, run: seq<Action>, s': State)
    requires Reaches(s, run, s')
    ensures s'.enqueued == s.enqueued + Jobs(run)
    ensures |s'.done| == |s.done| + Finishes(run)
    ensures s'.taken - |s'.done| - Busy(s'.workers) == s.taken - |s.done| - Busy(s.workers)
    ensures s'.stopping <==> s.stopping || SetShutdown in run
    ensures s'.notified <==> s.notified || NotifyAll in run
    ensures s.stopping ==> s'.before == s.before
    ensures !s.stopping && s'.stopping ==> s'.before == |s.enqueued| + Before(run)
    decreases |run|
  {
    hide Busy, Step, Enabled;
    if run == [] {
      assert s.enqueued + [] == s.enqueued;
    } else {
      StepHistory(s, run[0]);
      KeepsTaken(s, run[0]);
      History(Step(s, run[0]), run[1..], s');
      assert run == [run[0]] + run[1..];
      var job := if run[0].Enqueue? then [run[0].job] else [];
      assert s.enqueued + job + Jobs(run[1..]) == s.enqueued + (job + Jobs(run[1..]));
    }
  }

  /** In every reachable state the queue is what has been handed over, in order, without the jobs that workers are
      running or that have returned; those are the first ones, each in one place. */
  lemma {:induction false} QueueIs(n: nat, run: seq<Action>, s: State)
    requires Reaches(Initial(n), run, s)
    ensures var taken := Finishes(run) + Busy(s.workers);
            && taken <= |Jobs(run)| && s.jobs == Jobs(run)[taken..]
            && (forall k: nat :: Count(s.workers, Running(k)) + multiset(s.done)[k] == if k < taken then 1 else 0)
            && |s.done| == Finishes(run)
  {
    hide Busy, Count, Step;
    InitialInv(n);
    RunInv(Initial(n), run, s);
    History(Initial(n), run, s);
    BusyNone(Initial(n).workers);
    assert [] + Jobs(run) == Jobs(run);
  }

  /** A job can be handed over at any time, also while and after the pool is shut down; a worker that runs a job can
      return from it, one that is ready can look at the queue, and one that sleeps can be woken for no reason; the
      pool can be shut down once, with one notification after it. */
  lemma {:induction false} Possible(s: State, job: Job, w: nat)
    ensures exists wake: Option<nat> :: Enabled(s, Enqueue(job, wake))
    ensures w < |s.workers| ==>
      match s.workers[w]
      case Ready => Enabled(s, Check(w))
      case Asleep => Enabled(s, Wake(w))
      case Running(_) => Enabled(s, Finish(w))
      case Exited => !Enabled(s, Check(w)) && !Enabled(s, Wake(w)) && !Enabled(s, Finish(w))
    ensures Enabled(s, SetShutdown) <==> !s.stopping
    ensures Enabled(s, NotifyAll) <==> s.stopping && !s.notified
  {
    if w :| 0 <= w < |s.workers| && s.workers[w] == Asleep {
      assert Enabled(s, Enqueue(job, Some(w)));
    } else {
      assert Enabled(s, Enqueue(job, None));
    }
  }

  /** No lost wake-up in any reachable state: while jobs wait that have been handed over and that nobody runs,
      some worker is not asleep, and if any is asleep then enough others are about to look at the queue to take
      every job. */
  lemma {:induction false} NeverStuck(n: nat, run: seq<Action>, s: State)
    requires n > 0 && Reaches(Initial(n), run, s) && |Jobs(run)| > Finishes(run) + Busy(s.workers)
    ensures AnyAsleep(s) ==> |Jobs(run)| <= Finishes(run) + Busy(s.workers) + Count(s.workers, Ready)
    ensures exists w | 0 <= w < |s.workers| :: s.workers[w] != Asleep
  {
    hide Busy;
    QueueIs(n, run, s);
    InitialInv(n);
    RunInv(Initial(n), run, s);
    if AnyAsleep(s) {
      CountSome(s.workers, Ready);
    } else {
      assert s.workers[0] != Asleep;
    }
  }

  /** `shutdown()` returns when all workers have exited. Then the jobs that have run are the first ones handed
      over, each exactly once and among them all from before the shutdown; the others are still in the queue. */
  lemma {:induction false} Drained(n: nat, run: seq<Action>, s: State)
    requires n > 0 && Reaches(Initial(n), run, s) && NotifyAll in run
    requires forall w | 0 <= w < |s.workers| :: s.workers[w] == Exited
    ensures forall k: nat :: multiset(s.done)[k] == if k < Finishes(run) then 1 else 0
    ensures Before(run) <= Finishes(run) <= |Jobs(run)| && s.jobs == Jobs(run)[Finishes(run)..]
  {
    hide Busy;
    QueueIs(n, run, s);
    InitialInv(n);
    RunInv(Initial(n), run, s);
    History(Initial(n), run, s);
    BusyNone(s.workers);
    BusyNone(Initial(n).workers);
    assert s.workers[0] == Exited;
    forall k: nat ensures multiset(s.done)[k] == if k < Finishes(run) then 1 else 0 {
      CountNone(s.workers, Running(k));
      assert Count(s.workers, Running(k)) + multiset(s.done)[k] == if k < Finishes(run) then 1 else 0;
    }
  }

  // ---- The shutdown ends -------------------------------------------------------------------------

  function Weight(w: Worker): nat {
    match w
    case Exited => 0
    case Ready => 1
    case Asleep => 1
    case Running(_) => 2
  }

  function Load(workers: seq<Worker>): nat {
    if workers == [] then 0 else Load(workers[..|workers| - 1]) + Weight(workers[|workers| - 1])
  }

  function Measure(s: State): nat {
    2 * |s.jobs| + Load(s.workers)
  }

  lemma {:induction false} LoadUpdate(workers: seq<Worker>, w: nat, y: Worker)
    requires w < |workers|
    ensures Load(workers[w := y]) == Load(workers) - Weight(workers[w]) + Weight(y)
    decreases |workers|
  {
    var n := |workers| - 1;
    if w == n {
      assert workers[w := y][..n] == workers[..n];
    } else {
      assert workers[w := y][..n] == workers[..n][w := y];
      LoadUpdate(workers[..n], w, y);
    }
  }

  /** After notify_all, unless all workers have exited some worker can go on; and every step that is not
      a new job brings the end nearer. */
  lemma {:induction false} ShutdownProgress(s: State)
    requires Inv(s) && s.notified
    ensures (exists w | 0 <= w < |s.workers| :: s.workers[w] != Exited)
            ==> exists a: Action :: Enabled(s, a) && !a.Enqueue?
    ensures forall a: Action | Enabled(s, a) && !a.Enqueue? ::
              Step(s, a).notified && Measure(Step(s, a)) < Measure(s)
  {
    if w :| 0 <= w < |s.workers| && s.workers[w] != Exited {
      assert s.workers[w].Ready? || s.workers[w].Running?;
      assert Enabled(s, if s.workers[w].Ready? then Check(w) else Finish(w));
    }
    forall a: Action | Enabled(s, a) && !a.Enqueue?
      ensures Step(s, a).notified && Measure(Step(s, a)) < Measure(s)
    {
      match a
      case Check(w) => LoadUpdate(s.workers, w, Step(s, a).workers[w]);
      case Finish(w) => LoadUpdate(s.workers, w, Ready);
      case _ =>
    }
  }

  predicate NoEnqueue(run: seq<Action>) {
    forall i | 0 <= i < |run| :: !run[i].Enqueue?
  }

  /** Hence `shutdown()` returns: without new jobs, only so many steps are possible after notify_all, and
      when none is left all workers have exited. */
  lemma {:induction false} ShutdownReturns(s: State, run: seq<Action>, s': State)
    requires Inv(s) && s.notified && Reaches(s, run, s') && NoEnqueue(run)
    ensures |run| <= Measure(s)
    ensures (forall a: Action | Enabled(s', a) :: a.Enqueue?)
            ==> forall w | 0 <= w < |s'.workers| :: s'.workers[w] == Exited
    decreases |run|
  {
    hide Inv, Step, Measure, Enabled;
    ShutdownProgress(s);
    if run != [] {
      StepInv(s, run[0]);
      assert NoEnqueue(run[1..]);
      ShutdownReturns(Step(s, run[0]), run[1..], s');
    }
  }
}
