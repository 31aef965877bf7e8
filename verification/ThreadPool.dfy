/** The thread pool: a job list and a shutdown flag under one mutex, a condition variable,
    and worker threads. Critical sections are atomic steps; every interleaving of them with
    notifications, wake-ups (spurious ones too) and running jobs is a run of this machine. */
module ThreadPool {

  type Job = nat

  /** Where a worker is: about to enter its critical section, asleep on the condition
      variable, running a job outside the mutex, or gone. */
  datatype Worker = Ready | Waiting | Running(job: Job) | Exited

  /** `pending` counts the `notify_one` calls still to come from `enqueue`, `pendingAll` says
      that `shutdown` has set its flag and not yet called `notify_all`. `enqueued`, `started`
      and `done` are history; `before` is the number of jobs enqueued before the shutdown. */
  datatype State = State(
    jobs: seq<Job>, shutdown: bool, workers: seq<Worker>,
    pending: nat, pendingAll: bool,
    enqueued: seq<Job>, started: seq<Job>, done: multiset<Job>, before: nat)

  datatype Action =
    | Enqueue(job: Job)
    | NotifyOne(chosen: nat)
    | NotifyNobody
    | Shutdown
    | NotifyAll
    | Turn(w: nat)
    | Finish(w: nat)
    | Spurious(w: nat)

  function Start(n: nat): State {
    State([], false, seq(n, _ => Ready), 0, false, [], [], multiset{}, 0)
  }

  predicate Is(s: State, w: nat, k: Worker) { w < |s.workers| && s.workers[w] == k }

  predicate Enabled(s: State, a: Action) {
    match a
    case Enqueue(_) => true
    case NotifyOne(w) => s.pending > 0 && Is(s, w, Waiting)
    case NotifyNobody => s.pending > 0 && Waiting !in s.workers
    case Shutdown => !s.shutdown
    case NotifyAll => s.pendingAll
    case Turn(w) => Is(s, w, Ready)
    case Finish(w) => w < |s.workers| && s.workers[w].Running?
    case Spurious(w) => Is(s, w, Waiting)
  }

  function Put(s: State, w: nat, k: Worker): State
    requires w < |s.workers|
  {
    s.(workers := s.workers[w := k])
  }

  function Wake(k: Worker): Worker { if k == Waiting then Ready else k }

  function WakeAll(ws: seq<Worker>): seq<Worker> {
    seq(|ws|, i requires 0 <= i < |ws| => Wake(ws[i]))
  }

  function Next(s: State, a: Action): State
    requires Enabled(s, a)
  {
    match a
    case Enqueue(j) => s.(jobs := s.jobs + [j], pending := s.pending + 1, enqueued := s.enqueued + [j])
    case NotifyOne(w) => Put(s, w, Ready).(pending := s.pending - 1)
    case NotifyNobody => s.(pending := s.pending - 1)
    case Shutdown => s.(shutdown := true, pendingAll := true, before := |s.enqueued|)
    case NotifyAll => s.(workers := WakeAll(s.workers), pendingAll := false)
    case Turn(w) =>
      if s.jobs != [] then
        Put(s, w, Running(s.jobs[0])).(jobs := s.jobs[1..], started := s.started + [s.jobs[0]])
      else if s.shutdown then Put(s, w, Exited)
      else Put(s, w, Waiting)
    case Finish(w) => Put(s, w, Ready).(done := s.done + multiset{s.workers[w].job})
    case Spurious(w) => Put(s, w, Ready)
  }

  // ------------------------------------------------------------- counting workers

  function JobOf(k: Worker): multiset<Job> {
    match k { case Running(j) => multiset{j} case _ => multiset{} }
  }

  function RunningJobs(ws: seq<Worker>): multiset<Job> {
    if ws == [] then multiset{} else RunningJobs(ws[..|ws| - 1]) + JobOf(ws[|ws| - 1])
  }

  function Ready1(k: Worker): nat { if k == Ready then 1 else 0 }

  function ReadyCount(ws: seq<Worker>): nat {
    if ws == [] then 0 else ReadyCount(ws[..|ws| - 1]) + Ready1(ws[|ws| - 1])
  }

  /** Steps a worker can make by itself before it sleeps or exits. */
  function Effort1(k: Worker): nat { if k == Ready then 1 else if k.Running? then 2 else 0 }

  function Effort(ws: seq<Worker>): nat {
    if ws == [] then 0 else Effort(ws[..|ws| - 1]) + Effort1(ws[|ws| - 1])
  }

  lemma {:induction false} CountsUpdate(ws: seq<Worker>, w: nat, k: Worker)
    requires w < |ws|
    ensures ReadyCount(ws[w := k]) + Ready1(ws[w]) == ReadyCount(ws) + Ready1(k)
    ensures Effort(ws[w := k]) + Effort1(ws[w]) == Effort(ws) + Effort1(k)
  {
    var n := |ws| - 1;
    if w < n {
      CountsUpdate(ws[..n], w, k);
      assert ws[w := k][..n] == ws[..n][w := k];
    } else {
      assert ws[w := k][..n] == ws[..n];
    }
  }

  lemma {:induction false} RunningUpdate(ws: seq<Worker>, w: nat, k: Worker)
    requires w < |ws|
    ensures RunningJobs(ws[w := k]) + JobOf(ws[w]) == RunningJobs(ws) + JobOf(k)
  {
    hide JobOf;
    var n := |ws| - 1;
    if w < n {
      RunningUpdate(ws[..n], w, k);
      assert ws[w := k][..n] == ws[..n][w := k];
      Exchange(RunningJobs(ws[..n][w := k]), JobOf(ws[n]), JobOf(ws[w]));
      Exchange(RunningJobs(ws[..n]), JobOf(k), JobOf(ws[n]));
    } else {
      assert ws[w := k][..n] == ws[..n];
      Exchange(RunningJobs(ws[..n]), JobOf(k), JobOf(ws[n]));
    }
  }

  lemma Exchange(a: multiset<Job>, b: multiset<Job>, c: multiset<Job>)
    ensures (a + b) + c == (a + c) + b
  {}

  lemma SameRunning(ws: seq<Worker>, w: nat, k: Worker)
    requires w < |ws| && !ws[w].Running? && !k.Running?
    ensures RunningJobs(ws[w := k]) == RunningJobs(ws)
  {
    RunningUpdate(ws, w, k);
    assert RunningJobs(ws[w := k]) + multiset{} == RunningJobs(ws[w := k]);
  }

  lemma OneMoreRunning(ws: seq<Worker>, w: nat, j: Job)
    requires w < |ws| && !ws[w].Running?
    ensures RunningJobs(ws[w := Running(j)]) == RunningJobs(ws) + multiset{j}
  {
    RunningUpdate(ws, w, Running(j));
    assert RunningJobs(ws[w := Running(j)]) + multiset{} == RunningJobs(ws[w := Running(j)]);
  }

  lemma OneLessRunning(ws: seq<Worker>, w: nat)
    requires w < |ws| && ws[w].Running?
    ensures RunningJobs(ws[w := Ready]) + multiset{ws[w].job} == RunningJobs(ws)
  {
    RunningUpdate(ws, w, Ready);
    assert RunningJobs(ws) + multiset{} == RunningJobs(ws);
  }

  lemma Regroup(a: multiset<Job>, b: multiset<Job>, c: multiset<Job>)
    ensures (a + b) + c == a + (b + c) == (a + c) + b
  {}

  /** Waking everybody turns sleepers into ready workers and touches nobody else. */
  lemma {:induction false} WakeAllKeepsRunning(ws: seq<Worker>)
    ensures Waiting !in WakeAll(ws)
    ensures RunningJobs(WakeAll(ws)) == RunningJobs(ws)
  {
    if ws != [] {
      var n := |ws| - 1;
      WakeAllKeepsRunning(ws[..n]);
      WakeInit(ws);
      assert JobOf(Wake(ws[n])) == JobOf(ws[n]);
    }
  }

  lemma WakeInit(ws: seq<Worker>)
    requires ws != []
    ensures WakeAll(ws)[..|ws| - 1] == WakeAll(ws[..|ws| - 1])
  {}

  lemma {:induction false} WakeAllEffort(ws: seq<Worker>)
    ensures Effort(WakeAll(ws)) <= Effort(ws) + |ws|
  {
    if ws != [] {
      WakeAllEffort(ws[..|ws| - 1]);
      WakeInit(ws);
    }
  }

  // ------------------------------------------------------------- what every run keeps

  /** Every job is queued, running or done exactly once, and jobs start in the order in which
      they were enqueued. */
  ghost predicate ExactlyOnce(s: State) {
    && s.started + s.jobs == s.enqueued
    && multiset(s.started) == s.done + RunningJobs(s.workers)
  }

  /** While a worker sleeps, every queued job is matched by a notification still to come or by
      a worker about to look at the queue. */
  ghost predicate NoLostWakeup(s: State) {
    Waiting in s.workers ==> |s.jobs| <= s.pending + ReadyCount(s.workers)
  }

  ghost predicate ShutdownSeen(s: State) {
    && (s.pendingAll ==> s.shutdown)
    && (s.shutdown && !s.pendingAll ==> Waiting !in s.workers)
    && (Exited in s.workers ==> s.shutdown && |s.started| >= s.before)
    && (s.shutdown ==> s.before <= |s.enqueued|)
  }

  ghost predicate Inv(s: State) { ExactlyOnce(s) && NoLostWakeup(s) && ShutdownSeen(s) }

  lemma StartsWell(n: nat)
    ensures Inv(Start(n))
  {
    NobodyRuns(Start(n).workers);
  }

  lemma {:induction false} NobodyRuns(ws: seq<Worker>)
    requires forall w | 0 <= w < |ws| :: !ws[w].Running?
    ensures RunningJobs(ws) == multiset{}
  {
    if ws != [] { NobodyRuns(ws[..|ws| - 1]); }
  }

  lemma KeepsExactlyOnce(s: State, a: Action)
    requires ExactlyOnce(s) && Enabled(s, a)
    ensures ExactlyOnce(Next(s, a))
  {
    hide RunningJobs;
    match a {
      case Enqueue(j) =>
        assert s.started + (s.jobs + [j]) == (s.started + s.jobs) + [j];
      case NotifyAll => WakeAllKeepsRunning(s.workers);
      case Turn(w) =>
        if s.jobs != [] {
          var j := s.jobs[0];
          OneMoreRunning(s.workers, w, j);
          Regroup(s.done, RunningJobs(s.workers), multiset{j});
          assert s.jobs == [j] + s.jobs[1..];
          assert (s.started + [j]) + s.jobs[1..] == s.started + s.jobs;
          assert multiset(s.started + [j]) == multiset(s.started) + multiset{j};
        } else {
          SameRunning(s.workers, w, if s.shutdown then Exited else Waiting);
        }
      case NotifyOne(w) => SameRunning(s.workers, w, Ready);
      case Spurious(w) => SameRunning(s.workers, w, Ready);
      case Finish(w) =>
        OneLessRunning(s.workers, w);
        Regroup(s.done, RunningJobs(s.workers[w := Ready]), multiset{s.workers[w].job});
      case _ =>
    }
  }

  lemma KeepsNoLostWakeup(s: State, a: Action)
    requires NoLostWakeup(s) && Enabled(s, a)
    ensures NoLostWakeup(Next(s, a))
  {
    hide ReadyCount;
    match a {
      case NotifyAll => WakeAllKeepsRunning(s.workers);
      case Turn(w) =>
        CountsUpdate(s.workers, w, Next(s, a).workers[w]);
        StillWaiting(s.workers, w, Next(s, a).workers[w]);
      case NotifyOne(w) => CountsUpdate(s.workers, w, Ready);
      case Spurious(w) => CountsUpdate(s.workers, w, Ready);
      case Finish(w) =>
        CountsUpdate(s.workers, w, Ready);
        StillWaiting(s.workers, w, Ready);
      case _ =>
    }
  }

  lemma StillWaiting(ws: seq<Worker>, w: nat, k: Worker)
    requires w < |ws|
    ensures k != Waiting && Waiting in ws[w := k] ==> Waiting in ws
    ensures k != Exited && Exited in ws[w := k] ==> Exited in ws
  {
    var us := ws[w := k];
    if k != Waiting && Waiting in us {
      var i :| 0 <= i < |us| && us[i] == Waiting;
      assert ws[i] == Waiting;
    }
    if k != Exited && Exited in us {
      var i :| 0 <= i < |us| && us[i] == Exited;
      assert ws[i] == Exited;
    }
  }

  lemma KeepsShutdownSeen(s: State, a: Action)
    requires ExactlyOnce(s) && ShutdownSeen(s) && Enabled(s, a)
    ensures ShutdownSeen(Next(s, a))
  {
    hide RunningJobs;
    match a {
      case NotifyAll =>
        WakeAllKeepsRunning(s.workers);
        WakeAllExited(s.workers);
      case Turn(w) => StillWaiting(s.workers, w, Next(s, a).workers[w]);
      case NotifyOne(w) => StillWaiting(s.workers, w, Ready);
      case Spurious(w) => StillWaiting(s.workers, w, Ready);
      case Finish(w) => StillWaiting(s.workers, w, Ready);
      case Shutdown => assert Exited !in s.workers;
      case _ =>
    }
  }

  lemma WakeAllExited(ws: seq<Worker>)
    ensures Exited in WakeAll(ws) ==> Exited in ws
  {
    if Exited in WakeAll(ws) {
      var i :| 0 <= i < |ws| && WakeAll(ws)[i] == Exited;
      assert ws[i] == Exited;
    }
  }

  // ------------------------------------------------------------- runs

  ghost predicate IsRun(s: State, run: seq<Action>)
    decreases |run|
  {
    run != [] ==> Enabled(s, run[0]) && IsRun(Next(s, run[0]), run[1..])
  }

  function After(s: State, run: seq<Action>): State
    requires IsRun(s, run)
    decreases |run|
  {
    if run == [] then s else After(Next(s, run[0]), run[1..])
  }

  /** The invariants hold in every state any interleaving can reach, for any pool size. */
  lemma {:induction false} EveryRun(s: State, run: seq<Action>)
    requires Inv(s) && IsRun(s, run)
    ensures Inv(After(s, run))
    decreases |run|
  {
    hide Inv, Enabled, Next;
    if run != [] {
      StepKeepsInv(s, run[0]);
      EveryRun(Next(s, run[0]), run[1..]);
    }
  }

  lemma StepKeepsInv(s: State, a: Action)
    requires Inv(s) && Enabled(s, a)
    ensures Inv(Next(s, a))
  {
    hide ExactlyOnce, NoLostWakeup, ShutdownSeen;
    KeepsExactlyOnce(s, a);
    KeepsNoLostWakeup(s, a);
    KeepsShutdownSeen(s, a);
  }

  /** The jobs a run asks for, in order. */
  function Requested(run: seq<Action>): seq<Job> {
    if run == [] then [] else (if run[0].Enqueue? then [run[0].job] else []) + Requested(run[1..])
  }

  /** The part of a run before the shutdown. */
  function BeforeShutdown(run: seq<Action>): seq<Action> {
    if run == [] || run[0].Shutdown? then [] else [run[0]] + BeforeShutdown(run[1..])
  }

  /** What the machine records is what the run has asked for; workers neither appear nor
      vanish, and one that has left does not come back. */
  lemma {:induction false} History(s: State, run: seq<Action>)
    requires IsRun(s, run)
    ensures var t := After(s, run);
      && t.enqueued == s.enqueued + Requested(run)
      && (t.shutdown <==> s.shutdown || Shutdown in run)
      && (s.shutdown ==> Shutdown !in run && t.before == s.before)
      && (Shutdown in run ==> t.before == |s.enqueued| + |Requested(BeforeShutdown(run))|)
      && SameWorkers(s, t)
    decreases |run|
  {
    hide SameWorkers, Next, Enabled;
    if run == [] {
      assert SameWorkers(s, s) by { Reflexive(s); }
      assert s.enqueued + [] == s.enqueued;
    } else {
      var u := Next(s, run[0]);
      History(u, run[1..]);
      StepHistory(s, run[0]);
      Transitive(s, u, After(s, run));
      var first := Requested([run[0]]);
      assert Requested(run) == first + Requested(run[1..]) by { OneRequest(run); }
      assert (s.enqueued + first) + Requested(run[1..]) == s.enqueued + (first + Requested(run[1..]));
      InRun(run);
      if Shutdown in run && run[0] != Shutdown {
        OneRequest([run[0]] + BeforeShutdown(run[1..]));
        assert ([run[0]] + BeforeShutdown(run[1..]))[1..] == BeforeShutdown(run[1..]);
      }
    }
  }

  predicate SameWorkers(s: State, t: State) {
    |t.workers| == |s.workers| && forall w :: 0 <= w < |s.workers| && s.workers[w] == Exited ==> t.workers[w] == Exited
  }

  lemma Reflexive(s: State) ensures SameWorkers(s, s) {}

  lemma Transitive(s: State, t: State, u: State)
    requires SameWorkers(s, t) && SameWorkers(t, u)
    ensures SameWorkers(s, u)
  {}

  lemma StepHistory(s: State, a: Action)
    requires Enabled(s, a)
    ensures var u := Next(s, a);
      && u.enqueued == s.enqueued + Requested([a])
      && (u.shutdown <==> s.shutdown || a == Shutdown)
      && (s.shutdown ==> a != Shutdown && u.before == s.before)
      && (a == Shutdown ==> u.before == |s.enqueued|)
      && SameWorkers(s, u)
  {
    assert [a][1..] == [];
    assert s.enqueued + [] == s.enqueued;
  }

  lemma OneRequest(run: seq<Action>)
    requires run != []
    ensures Requested(run) == Requested([run[0]]) + Requested(run[1..])
  {
    assert [run[0]][1..] == [];
  }

  lemma InRun(run: seq<Action>)
    requires run != []
    ensures Shutdown in run <==> run[0] == Shutdown || Shutdown in run[1..]
  {
    assert run == [run[0]] + run[1..];
  }

  /** A sleeping worker wakes by a notification to it or to all, or spuriously, and by nothing
      else. */
  lemma SleepsUntilWoken(s: State, a: Action, w: nat)
    requires Is(s, w, Waiting) && Enabled(s, a)
    ensures var woken := a == NotifyOne(w) || a == NotifyAll || a == Spurious(w);
      Is(Next(s, a), w, if woken then Ready else Waiting)
  {}

  /** Every interleaving of a new pool of any size: the invariants, and jobs are started in the
      order in which they were asked for. */
  lemma ReachableFromStart(n: nat, run: seq<Action>)
    requires IsRun(Start(n), run)
    ensures var t := After(Start(n), run); Inv(t) && |t.workers| == n && t.started <= Requested(run)
  {
    hide NoLostWakeup, ShutdownSeen;
    StartsWell(n);
    EveryRun(Start(n), run);
    History(Start(n), run);
    assert [] + Requested(run) == Requested(run);
  }

  // ------------------------------------------------------------- coming to rest

  /** Steps the pool makes by itself: not new jobs, not the shutdown, not spurious wake-ups. */
  predicate Internal(a: Action) { !a.Enqueue? && !a.Shutdown? && !a.Spurious? }

  function Work(s: State): nat {
    2 * |s.jobs| + Effort(s.workers) + 2 * s.pending + if s.pendingAll then |s.workers| + 1 else 0
  }

  /** Every internal step uses up work, so without new requests the pool comes to rest. */
  lemma InternalStepsRunOut(s: State, a: Action)
    requires Enabled(s, a) && Internal(a)
    ensures Work(Next(s, a)) < Work(s)
  {
    hide Effort;
    match a {
      case NotifyOne(w) => CountsUpdate(s.workers, w, Ready);
      case NotifyNobody =>
      case NotifyAll => WakeAllEffort(s.workers);
      case Turn(w) => CountsUpdate(s.workers, w, Next(s, a).workers[w]);
      case Finish(w) => CountsUpdate(s.workers, w, Ready);
    }
  }

  lemma {:induction false} InternalRunsEnd(s: State, run: seq<Action>)
    requires IsRun(s, run) && forall a | a in run :: Internal(a)
    ensures |run| <= Work(s)
    decreases |run|
  {
    hide Work, Enabled, Next;
    if run != [] {
      InternalStepsRunOut(s, run[0]);
      InternalRunsEnd(Next(s, run[0]), run[1..]);
    }
  }

  ghost predicate AtRest(s: State) {
    forall a | Internal(a) :: !Enabled(s, a)
  }

  /** At rest with at least one worker: without a shutdown every worker sleeps and no job is
      left behind; after one, every worker is gone and every job enqueued before it has run. */
  lemma RestIsComplete(s: State)
    requires Inv(s) && AtRest(s) && |s.workers| > 0
    ensures !s.shutdown ==> s.jobs == [] && s.done == multiset(s.enqueued) && forall k | k in s.workers :: k == Waiting
    ensures s.shutdown ==> (forall k | k in s.workers :: k == Exited)
    ensures s.shutdown ==> multiset(s.enqueued[..s.before]) <= s.done
  {
    hide Inv, Internal, Enabled;
    Resting(s);
    NobodyRuns(s.workers);
    NobodyReady(s.workers);
    if s.shutdown {
      assert s.workers[0] in s.workers;
      JoinedMeansDone(s);
    } else {
      QueueEmpty(s);
    }
  }

  lemma Resting(s: State)
    requires Inv(s) && AtRest(s) && |s.workers| > 0
    ensures s.pending == 0 && !s.pendingAll
    ensures forall w | 0 <= w < |s.workers| :: s.workers[w] == if s.shutdown then Exited else Waiting
  {
    hide ExactlyOnce, NoLostWakeup;
    assert Internal(NotifyAll) && !Enabled(s, NotifyAll);
    assert Internal(NotifyNobody) && !Enabled(s, NotifyNobody);
    forall w | 0 <= w < |s.workers| ensures s.workers[w] == Waiting || s.workers[w] == Exited {
      assert Internal(Turn(w)) && !Enabled(s, Turn(w));
      assert Internal(Finish(w)) && !Enabled(s, Finish(w));
    }
    forall w | 0 <= w < |s.workers| ensures s.workers[w] == (if s.shutdown then Exited else Waiting) && s.pending == 0 {
      assert s.workers[w] in s.workers;
      assert Internal(NotifyOne(w)) && !Enabled(s, NotifyOne(w));
    }
  }

  lemma QueueEmpty(s: State)
    requires Inv(s) && s.pending == 0 && ReadyCount(s.workers) == 0 && RunningJobs(s.workers) == multiset{}
    requires Waiting in s.workers
    ensures s.jobs == [] && s.done == multiset(s.enqueued)
  {
    assert s.started + [] == s.started;
    assert s.done + multiset{} == s.done;
  }

  lemma {:induction false} NobodyReady(ws: seq<Worker>)
    requires forall w | 0 <= w < |ws| :: ws[w] != Ready
    ensures ReadyCount(ws) == 0
  {
    if ws != [] { NobodyReady(ws[..|ws| - 1]); }
  }

  /** When `shutdown` has joined all the workers, every job enqueued before it has run. */
  lemma JoinedMeansDone(s: State)
    requires Inv(s) && |s.workers| > 0 && forall k | k in s.workers :: k == Exited
    ensures s.shutdown && multiset(s.enqueued[..s.before]) <= s.done
  {
    assert s.workers[0] in s.workers;
    forall w | 0 <= w < |s.workers| ensures !s.workers[w].Running? { assert s.workers[w] in s.workers; }
    NobodyRuns(s.workers);
    assert s.done + multiset{} == s.done;
    var a, b := s.started[..s.before], s.started[s.before..];
    assert s.enqueued[..s.before] == a && s.started == a + b;
    assert multiset(s.started) == multiset(a) + multiset(b);
  }

  lemma FromStart(n: nat, run: seq<Action>)
    requires IsRun(Start(n), run)
    ensures var t := After(Start(n), run);
      && Inv(t) && |t.workers| == n && t.enqueued == Requested(run) && (t.shutdown <==> Shutdown in run)
      && t.done <= multiset(Requested(run))
      && (Shutdown in run ==> t.before <= |t.enqueued| && t.enqueued[..t.before] == Requested(BeforeShutdown(run)))
  {
    ReachableFromStart(n, run);
    History(Start(n), run);
    var t := After(Start(n), run);
    assert [] + Requested(run) == Requested(run);
    hide IsRun, After, NoLostWakeup;
    assert multiset(t.enqueued) == multiset(t.started) + multiset(t.jobs);
    RequestedBefore(run);
  }

  lemma {:induction false} RequestedBefore(run: seq<Action>)
    ensures Requested(BeforeShutdown(run)) <= Requested(run)
  {
    if run != [] && !run[0].Shutdown? {
      RequestedBefore(run[1..]);
      assert BeforeShutdown(run)[1..] == BeforeShutdown(run[1..]);
    }
  }

  /** A new pool with workers that has come to rest: without a shutdown every worker sleeps and
      exactly the jobs asked for have run; after one every worker has left, and every job asked
      for before it has run, and nothing that was not asked for. */
  lemma AllJobsRun(n: nat, run: seq<Action>)
    requires n > 0 && IsRun(Start(n), run) && AtRest(After(Start(n), run))
    ensures var t := After(Start(n), run);
      && |t.workers| == n
      && (forall k | k in t.workers :: k == if Shutdown in run then Exited else Waiting)
      && (if Shutdown !in run then t.done == multiset(Requested(run))
          else multiset(Requested(BeforeShutdown(run))) <= t.done <= multiset(Requested(run)))
  {
    hide *;
    FromStart(n, run);
    RestIsComplete(After(Start(n), run));
  }

  /** The same of a run at whose end `shutdown` has joined all the workers. */
  lemma JoinedJobsRun(n: nat, run: seq<Action>)
    requires n > 0 && IsRun(Start(n), run) && forall k | k in After(Start(n), run).workers :: k == Exited
    ensures Shutdown in run
    ensures multiset(Requested(BeforeShutdown(run))) <= After(Start(n), run).done <= multiset(Requested(run))
  {
    hide *;
    FromStart(n, run);
    JoinedMeansDone(After(Start(n), run));
  }

  // ------------------------------------------------------------- the shared fields

  /** The fields under the mutex. Each method is one critical section and is proved to be the
      machine's step on them, the rest of the machine being the threads around it. */
  class Pool {
    var jobs: seq<Job>
    var shutdown: bool

    ghost predicate Agrees(s: State)
      reads this
    {
      jobs == s.jobs && shutdown == s.shutdown
    }

    constructor (n: nat)
      ensures Agrees(Start(n))
    {
      jobs, shutdown := [], false;
    }

    /** `enqueue`, up to its notification. */
    method Enqueue(fn: Job, ghost s: State)
      requires Agrees(s)
      modifies this
      ensures Agrees(Next(s, Action.Enqueue(fn)))
    {
      jobs := jobs + [fn];
    }

    /** `shutdown`, up to its notification. */
    method BeginShutdown(ghost s: State)
      requires Agrees(s) && !s.shutdown
      modifies this
      ensures Agrees(Next(s, Shutdown))
    {
      shutdown := true;
    }

    /** One evaluation of the wait predicate under the lock, and what follows it: sleep, leave,
        or take the oldest job. */
    method WorkerTurn(ghost s: State, ghost w: nat) returns (k: Worker)
      requires Agrees(s) && Is(s, w, Ready)
      modifies this
      ensures Agrees(Next(s, Turn(w))) && Next(s, Turn(w)).workers[w] == k
    {
      if !(jobs != [] || shutdown) { return Waiting; }
      if shutdown && jobs == [] { return Exited; }
      var fn := jobs[0];
      jobs := jobs[1..];
      k := Running(fn);
    }
  }
}
