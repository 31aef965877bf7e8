/** The file manager together with its savers: each save, also one chained to a load, is a run of
    the local or the SFTP saver, whose `handle_write`, or exception, is what ends the operation in
    the manager. That a saver calls back once, or throws instead, is not assumed here but comes
    from the savers; loaders are still environment. */
module ManagedSaves {
  import opened Counting
  import opened Wrappers
  import FileManager
  import MnnSaver
  import SftpSaver
  import SftpUpload

  /** A local save of `n` files, an SFTP save, or an SFTP save that was refused and has posted its
      completion. */
  datatype Backend =
    | Local(n: nat, local: MnnSaver.State)
    | Remote(us: seq<SftpUpload.Upload>, before: seq<Option<string>>, remote: SftpSaver.Save)
    | Refused(called: bool)

  datatype BackMove = LocalMove(l: MnnSaver.Move) | RemoteMove(r: SftpSaver.Move) | RunPosted

  ghost predicate Sound(k: Backend) {
    match k
    case Local(n, s) => n <= SIZE_MAX && MnnSaver.Inv(n, s)
    case Remote(us, before, s) => 0 < |us| && SftpSaver.SaveInv(us, before, s)
    case Refused(_) => true
  }

  ghost predicate Fresh(k: Backend) {
    match k
    case Local(n, s) => n <= SIZE_MAX && s == MnnSaver.Begin(n)
    case Remote(us, before, s) => 0 < |us| == |before| <= SIZE_MAX && s == SftpSaver.Begin(us, before)
    case Refused(called) => !called
  }

  /** Calls of `handle_write`. */
  function Calls(k: Backend): nat {
    match k
    case Local(_, s) => s.calls
    case Remote(_, _, s) => s.calls
    case Refused(called) => if called then 1 else 0
  }

  predicate Threw(k: Backend) { k.Local? && k.local.loop.Threw? }

  /** The saver's `SaveASync` has returned to its caller. */
  predicate Returned(k: Backend) {
    match k
    case Local(_, s) => s.loop.GaveUp? || s.loop.Finished?
    case Remote(us, _, s) => s.submitted >= |us|
    case Refused(_) => true
  }

  ghost predicate CanMove(k: Backend, m: BackMove)
    requires Sound(k)
  {
    match k
    case Local(n, s) => m.LocalMove? && MnnSaver.Can(n, s, m.l)
    case Remote(us, _, s) => m.RemoteMove? && SftpSaver.Can(us, s, m.r)
    case Refused(called) => m.RunPosted? && !called
  }

  function Moved(k: Backend, m: BackMove): Backend
    requires Sound(k) && CanMove(k, m)
  {
    match k
    case Local(n, s) => k.(local := MnnSaver.Next(n, s, m.l))
    case Remote(us, _, s) => k.(remote := SftpSaver.Do(us, s, m.r))
    case Refused(_) => Refused(true)
  }

  /** What a saver promises the manager: from a fresh start, at most one call or one exception,
      and never both. */
  lemma SaverKeepsPromise(k: Backend, m: BackMove)
    requires Sound(k) && CanMove(k, m)
    ensures var t := Moved(k, m);
      && Sound(t) && Calls(t) <= 1
      && Calls(k) <= Calls(t) && (Threw(k) ==> Threw(t) && Calls(t) == 0)
      && (Threw(t) ==> Calls(t) == 0)
      && (Returned(k) ==> Returned(t) && !Threw(t))
  {
    hide MnnSaver.Next, SftpSaver.Do, SftpSaver.Can, MnnSaver.Inv, SftpSaver.SaveInv;
    match k
    case Local(n, s) =>
      MnnSaver.StepKeepsInv(n, s, m.l);
      LocalCalls(n, s);
      LocalCalls(n, MnnSaver.Next(n, s, m.l));
      LocalGrows(n, s, m.l);
    case Remote(us, before, s) =>
      SftpSaver.StepKeepsSaveInv(us, before, s, m.r);
      RemoteCalls(us, before, s);
      RemoteCalls(us, before, SftpSaver.Do(us, s, m.r));
      RemoteGrows(us, s, m.r);
    case Refused(_) =>
  }

  lemma LocalCalls(n: nat, s: MnnSaver.State)
    requires MnnSaver.Inv(n, s)
    ensures s.calls <= 1 && (s.loop.Threw? ==> s.calls == 0)
  {}

  lemma LocalGrows(n: nat, s: MnnSaver.State, m: MnnSaver.Move)
    requires MnnSaver.Can(n, s, m)
    ensures var t := MnnSaver.Next(n, s, m);
      && s.calls <= t.calls && (s.loop.Threw? ==> t.loop.Threw?)
      && (s.loop.GaveUp? || s.loop.Finished? ==> t.loop == s.loop)
  {}

  lemma RemoteCalls(us: seq<SftpUpload.Upload>, before: seq<Option<string>>, s: SftpSaver.Save)
    requires SftpSaver.SaveInv(us, before, s)
    ensures s.calls <= 1 && |s.devices| == |us|
  {}

  lemma RemoteGrows(us: seq<SftpUpload.Upload>, s: SftpSaver.Save, m: SftpSaver.Move)
    requires |s.devices| == |us| && SftpSaver.Can(us, s, m)
    ensures s.calls <= SftpSaver.Do(us, s, m).calls && s.submitted <= SftpSaver.Do(us, s, m).submitted
  {
    hide SftpUpload.Next, SftpUpload.Enabled;
  }

  // ------------------------------------------------------------- manager and savers together

  /** A saver at work on an operation, chained to a load or not. */
  datatype Task = Task(saver: Backend, chained: bool)

  /** `tasks[i]` carries out operation `i` of the manager, if a saver does. */
  datatype State = State(manager: FileManager.State, tasks: seq<Option<Task>>)

  /** A save, a chained save for the load `i`, the return of its `SaveASync`, a step of the saver
      of operation `i`, or a step of a load. */
  datatype Move =
    | Save(k: Backend)
    | Chain(i: nat, k: Backend)
    | Return(i: nat)
    | Work(i: nat, m: BackMove)
    | Load(load: FileManager.Move)

  /** The stages in which an operation can be while its saver is in the given state. */
  predicate Fits(stage: FileManager.Stage, t: Task) {
    if Calls(t.saver) > 0 then stage == FileManager.Done || (t.chained && stage == FileManager.Ending)
    else if Threw(t.saver) then stage == if t.chained then FileManager.Leaked else FileManager.Threw
    else if t.chained then stage.Chaining? && (stage.returned ==> Returned(t.saver))
    else stage == FileManager.Saving
  }

  ghost predicate TaskInv(op: FileManager.Op, task: Option<Task>) {
    match task
    case None => !op.stage.Saving? && !op.stage.Chaining? && !op.stage.Ending?
    case Some(t) => Sound(t.saver) && Calls(t.saver) <= 1 && (Threw(t.saver) ==> Calls(t.saver) == 0) && Fits(op.stage, t)
  }

  ghost predicate Inv(s: State) {
    && FileManager.Inv(s.manager)
    && |s.tasks| == |s.manager.ops|
    && forall i :: 0 <= i < |s.tasks| ==> TaskInv(s.manager.ops[i], s.tasks[i])
  }

  /** Moves of the manager that are not a saver's. */
  predicate LoadOnly(m: FileManager.Move, s: FileManager.State)
    requires FileManager.Can(s, m)
  {
    match m
    case LoadBegins(_) => true
    case LoaderThrows(_) => true
    case ReadReports(i, ok) => !(ok && s.ops[i].stage.save)
    case _ => false
  }

  ghost predicate Can(s: State, m: Move)
    requires Inv(s)
  {
    match m
    case Save(k) => Fresh(k)
    case Chain(i, k) => Fresh(k) && FileManager.In(s.manager, i, FileManager.Loading(true))
    case Return(i) =>
      && FileManager.Can(s.manager, FileManager.ChainReturns(i))
      && s.tasks[i].Some? && Returned(s.tasks[i].value.saver)
    case Work(i, bm) => i < |s.tasks| && s.tasks[i].Some? && Works(s, i, bm)
    case Load(lm) => FileManager.Can(s.manager, lm) && LoadOnly(lm, s.manager)
  }

  ghost predicate Works(s: State, i: nat, m: BackMove)
    requires Inv(s) && i < |s.tasks| && s.tasks[i].Some?
  {
    assert TaskInv(s.manager.ops[i], s.tasks[i]);
    CanMove(s.tasks[i].value.saver, m)
  }

  /** The manager's step, if the saver's step from `k` to `t` has called back or thrown. */
  function Answer(k: Backend, t: Backend, i: nat, chained: bool): Option<FileManager.Move> {
    if Calls(t) > Calls(k) then Some(if chained then FileManager.ChainReports(i) else FileManager.SaveReports(i))
    else if Threw(t) && !Threw(k) then Some(if chained then FileManager.ChainThrows(i) else FileManager.SaverThrows(i))
    else None
  }

  /** The saver always finds its operation waiting: whatever it answers, the manager can take. */
  lemma AnswerIsExpected(s: State, i: nat, m: BackMove)
    requires Inv(s) && i < |s.tasks| && s.tasks[i].Some? && Works(s, i, m)
    ensures Sound(s.tasks[i].value.saver) && CanMove(s.tasks[i].value.saver, m)
    ensures var t := s.tasks[i].value;
      var k := Moved(t.saver, m);
      var a := Answer(t.saver, k, i, t.chained);
      && (a.Some? ==> FileManager.Can(s.manager, a.value))
      && TaskInv((if a.Some? then FileManager.Next(s.manager, a.value) else s.manager).ops[i], Some(t.(saver := k)))
  {
    hide Sound, CanMove, Moved, FileManager.Inv, FileManager.Counted, Returned, Threw, Calls;
    assert TaskInv(s.manager.ops[i], s.tasks[i]);
    SaverKeepsPromise(s.tasks[i].value.saver, m);
  }

  function Next(s: State, m: Move): State
    requires Inv(s) && Can(s, m)
  {
    match m
    case Save(k) => State(FileManager.Next(s.manager, FileManager.SaveBegins), s.tasks + [Some(Task(k, false))])
    case Chain(i, k) =>
      State(FileManager.Next(s.manager, FileManager.ReadReports(i, true)), s.tasks[i := Some(Task(k, true))])
    case Return(i) => s.(manager := FileManager.Next(s.manager, FileManager.ChainReturns(i)))
    case Work(i, bm) =>
      AnswerIsExpected(s, i, bm);
      var t := s.tasks[i].value;
      var k := Moved(t.saver, bm);
      var a := Answer(t.saver, k, i, t.chained);
      State(if a.Some? then FileManager.Next(s.manager, a.value) else s.manager, s.tasks[i := Some(t.(saver := k))])
    case Load(lm) =>
      State(FileManager.Next(s.manager, lm), if lm.LoadBegins? then s.tasks + [None] else s.tasks)
  }

  lemma FreshIsSound(k: Backend)
    requires Fresh(k)
    ensures Sound(k) && Calls(k) == 0 && !Threw(k)
  {
    if k.Remote? { SftpSaver.BeginKeepsInv(k.us, k.before); }
  }

  lemma StepKeepsInv(s: State, m: Move)
    requires Inv(s) && Can(s, m)
    ensures Inv(Next(s, m))
  {
    hide Sound, CanMove, Moved, FileManager.Inv, FileManager.Counted, Fresh, Works, TaskInv, Fits, Returned, Threw, Calls;
    var t := Next(s, m);
    var first := ManagerMove(s, m);
    if first != [] { FileManager.StepKeepsInv(s.manager, first[0]); }
    forall j | 0 <= j < |t.tasks| ensures j < |t.manager.ops| && TaskInv(t.manager.ops[j], t.tasks[j]) {
      if j < |s.tasks| { assert TaskInv(s.manager.ops[j], s.tasks[j]); }
      TaskKept(s, m, j);
    }
  }

  /** One operation over one step. */
  lemma TaskKept(s: State, m: Move, j: nat)
    requires Inv(s) && Can(s, m) && j < |Next(s, m).tasks|
    ensures |Next(s, m).tasks| == |Next(s, m).manager.ops| && TaskInv(Next(s, m).manager.ops[j], Next(s, m).tasks[j])
  {
    hide Sound, CanMove, Moved, FileManager.Inv, FileManager.Counted, Fresh, Works, Returned, Threw, Calls;
    if j < |s.tasks| { assert TaskInv(s.manager.ops[j], s.tasks[j]); }
    match m
    case Save(k) => FreshIsSound(k);
    case Chain(i, k) => FreshIsSound(k);
    case Return(i) =>
    case Work(i, bm) => AnswerIsExpected(s, i, bm);
    case Load(lm) =>
  }

  ghost predicate IsRun(s: State, ms: seq<Move>)
    decreases |ms|
  {
    Inv(s) && (ms == [] || (Can(s, ms[0]) && IsRun(Next(s, ms[0]), ms[1..])))
  }

  ghost function After(s: State, ms: seq<Move>): State
    requires IsRun(s, ms)
    decreases |ms|
  {
    if ms == [] then s else After(Next(s, ms[0]), ms[1..])
  }

  const START: State := State(FileManager.START, [])

  lemma StartsWell()
    ensures Inv(START)
  {}

  /** Runs never get into a state without the invariant. */
  lemma {:induction false} EveryRun(s: State, ms: seq<Move>, m: Move)
    requires IsRun(s, ms)
    ensures Inv(After(s, ms))
    ensures Can(After(s, ms), m) ==> Inv(Next(After(s, ms), m))
    decreases |ms|
  {
    hide Inv, Can, Next;
    if ms != [] {
      EveryRun(Next(s, ms[0]), ms[1..], m);
    } else if Can(s, m) {
      StepKeepsInv(s, m);
    }
  }

  /** What the manager does in a run with its savers is a run of the manager by itself, so all
      that holds of those holds here. */
  lemma {:induction false} ManagerRuns(s: State, ms: seq<Move>) returns (run: seq<FileManager.Move>)
    requires IsRun(s, ms)
    ensures FileManager.IsRun(s.manager, run) && FileManager.After(s.manager, run) == After(s, ms).manager
    decreases |ms|
  {
    hide Inv, FileManager.Can, FileManager.Next;
    if ms == [] {
      run := [];
    } else {
      var t := Next(s, ms[0]);
      var more := ManagerRuns(t, ms[1..]);
      var first := ManagerMove(s, ms[0]);
      run := first + more;
      if first == [] { assert run == more; } else { assert run[0] == first[0] && run[1..] == more; }
    }
  }

  lemma ManagerMove(s: State, m: Move) returns (first: seq<FileManager.Move>)
    requires Inv(s) && Can(s, m)
    ensures |first| <= 1
    ensures first == [] ==> Next(s, m).manager == s.manager
    ensures first != [] ==> FileManager.Can(s.manager, first[0]) && Next(s, m).manager == FileManager.Next(s.manager, first[0])
  {
    hide Inv, FileManager.Next, Sound, Moved, Works, Fresh;
    match m
    case Save(k) => first := [FileManager.SaveBegins];
    case Chain(i, k) => first := [FileManager.ReadReports(i, true)];
    case Return(i) => first := [FileManager.ChainReturns(i)];
    case Work(i, bm) =>
      AnswerIsExpected(s, i, bm);
      var t := s.tasks[i].value;
      var a := Answer(t.saver, Moved(t.saver, bm), i, t.chained);
      first := if a.Some? then [a.value] else [];
    case Load(lm) => first := [lm];
  }

  // ------------------------------------------------------------- what a run has done

  /** The saver gets from `k` to `t` by these moves. */
  ghost predicate Reaches(k: Backend, ms: seq<BackMove>, t: Backend)
    decreases |ms|
  {
    if ms == [] then t == k
    else
      var last := ms[|ms| - 1];
      exists u :: Reaches(k, ms[..|ms| - 1], u) && Sound(u) && CanMove(u, last) && t == Moved(u, last)
  }

  /** The saves and loads a run has begun, in order. */
  function Begun(ms: seq<Move>): seq<Move> {
    if ms == [] then []
    else
      var last := ms[|ms| - 1];
      Begun(ms[..|ms| - 1]) + if last.Save? || (last.Load? && last.load.LoadBegins?) then [last] else []
  }

  /** The moves of the saver of operation `i`. */
  function Own(ms: seq<Move>, i: nat): seq<BackMove> {
    if ms == [] then []
    else
      var last := ms[|ms| - 1];
      Own(ms[..|ms| - 1], i) + if last.Work? && last.i == i then [last.m] else []
  }

  /** An operation has a saver exactly if it is a save or has been chained one, and that saver has
      made exactly its own moves since. */
  ghost predicate Recorded(begin: Move, task: Option<Task>, ms: seq<Move>, i: nat) {
    match task
    case None => begin.Load? && Own(ms, i) == [] && forall k :: Chain(i, k) !in ms
    case Some(t) =>
      if begin.Save? then !t.chained && Reaches(begin.k, Own(ms, i), t.saver)
      else t.chained && exists k :: Chain(i, k) in ms && Reaches(k, Own(ms, i), t.saver)
  }

  ghost predicate AllRecorded(s: State, ms: seq<Move>) {
    && |s.tasks| == |Begun(ms)|
    && (forall i :: 0 <= i < |s.tasks| ==> Recorded(Begun(ms)[i], s.tasks[i], ms, i))
    && forall m | m in ms :: (m.Work? || m.Chain?) ==> m.i < |s.tasks|
  }

  lemma {:induction false} NoOwnMoves(ms: seq<Move>, i: nat)
    requires forall m | m in ms :: m.Work? ==> m.i != i
    ensures Own(ms, i) == []
  {
    if ms != [] {
      var n := |ms| - 1;
      assert ms == ms[..n] + [ms[n]];
      NoOwnMoves(ms[..n], i);
    }
  }

  lemma RecordedStep(s: State, ms: seq<Move>, m: Move)
    requires Inv(s) && Can(s, m) && AllRecorded(s, ms)
    ensures AllRecorded(Next(s, m), ms + [m])
  {
    hide Sound, CanMove, Moved, FileManager.Inv, Fresh, TaskInv, FileManager.Next, Reaches, Recorded, Calls, Threw, Returned;
    var all, t := ms + [m], Next(s, m);
    assert all[..|all| - 1] == ms;
    assert |t.tasks| == |Begun(all)|;
    forall i | 0 <= i < |t.tasks| ensures Recorded(Begun(all)[i], t.tasks[i], all, i) {
      if i < |s.tasks| {
        assert Begun(all)[i] == Begun(ms)[i];
        if (m.Work? || m.Chain?) && m.i == i { OwnRecorded(s, ms, m); } else { OthersRecorded(s, ms, m, i); }
      } else {
        NoOwnMoves(ms, i);
        NewRecorded(s, ms, m, i);
      }
    }
  }

  lemma OthersRecorded(s: State, ms: seq<Move>, m: Move, i: nat)
    requires AllRecorded(s, ms) && i < |s.tasks| && !((m.Work? || m.Chain?) && m.i == i)
    ensures Recorded(Begun(ms)[i], s.tasks[i], ms + [m], i)
  {
    hide Reaches;
    assert (ms + [m])[..|ms|] == ms;
    assert Own(ms + [m], i) == Own(ms, i);
    assert Recorded(Begun(ms)[i], s.tasks[i], ms, i);
    if s.tasks[i].Some? && s.tasks[i].value.chained {
      var k :| Chain(i, k) in ms && Reaches(k, Own(ms, i), s.tasks[i].value.saver);
      assert Chain(i, k) in ms + [m];
    }
    assert forall x :: x in ms + [m] <==> x in ms || x == m;
  }

  lemma NewRecorded(s: State, ms: seq<Move>, m: Move, i: nat)
    requires AllRecorded(s, ms) && i == |s.tasks| && Own(ms, i) == [] && (m.Save? || m.Load?)
    ensures Recorded(m, if m.Save? then Some(Task(m.k, false)) else None, ms + [m], i)
  {
    assert (ms + [m])[..|ms|] == ms;
    assert Own(ms + [m], i) == [];
    assert forall x :: x in ms + [m] <==> x in ms || x == m;
  }

  lemma OwnRecorded(s: State, ms: seq<Move>, m: Move)
    requires Inv(s) && Can(s, m) && AllRecorded(s, ms) && (m.Work? || m.Chain?)
    ensures m.i < |s.tasks| == |Next(s, m).tasks|
    ensures Recorded(Begun(ms)[m.i], Next(s, m).tasks[m.i], ms + [m], m.i)
  {
    hide FileManager.Inv, FileManager.Next, Fresh, Returned, Sound, CanMove, Moved, Calls, Threw;
    var i, all := m.i, ms + [m];
    assert all[..|ms|] == ms;
    assert Recorded(Begun(ms)[i], s.tasks[i], ms, i);
    assert TaskInv(s.manager.ops[i], s.tasks[i]);
    assert forall x :: x in all <==> x in ms || x == m;
    if m.Work? {
      AnswerIsExpected(s, i, m.m);
      var t := s.tasks[i].value;
      assert Own(all, i) == Own(ms, i) + [m.m] && Own(all, i)[..|Own(ms, i)|] == Own(ms, i);
      forall k | Reaches(k, Own(ms, i), t.saver) ensures Reaches(k, Own(all, i), Moved(t.saver, m.m)) {}
    } else {
      assert s.tasks[i] == None;
      assert Own(all, i) == Own(ms, i) + [] == [];
      assert Reaches(m.k, [], m.k);
    }
  }

  /** In every run of the manager with its savers: there is an operation for every save and load
      begun; a saver works on it exactly if it is a save or a saver was chained to it; and that
      saver, whatever the others did in between, is where its own moves lead by themselves. */
  lemma {:induction false} SaversRun(ms: seq<Move>)
    requires IsRun(START, ms)
    ensures AllRecorded(After(START, ms), ms)
    decreases |ms|
  {
    hide AllRecorded, Next, Can, Inv;
    if ms == [] {
      assert AllRecorded(START, []) by { NothingRecorded(); }
    } else {
      var init, last := ms[..|ms| - 1], ms[|ms| - 1];
      assert ms == init + [last];
      RunSplits(START, init, last);
      SaversRun(init);
      EveryRun(START, init, last);
      RecordedStep(After(START, init), init, last);
    }
  }

  lemma NothingRecorded()
    ensures AllRecorded(START, [])
  {}

  lemma {:induction false} RunSplits(s: State, init: seq<Move>, last: Move)
    requires IsRun(s, init + [last])
    ensures IsRun(s, init) && Inv(After(s, init)) && Can(After(s, init), last)
    ensures After(s, init + [last]) == Next(After(s, init), last)
    decreases |init|
  {
    hide Next, Can, Inv;
    var ms := init + [last];
    if init == [] {
      assert ms == [last] && ms[1..] == [];
      assert IsRun(Next(s, last), []) && After(Next(s, last), []) == Next(s, last);
      assert IsRun(s, []) && After(s, []) == s;
    } else {
      assert ms[1..] == init[1..] + [last] && ms[0] == init[0];
      RunSplits(Next(s, init[0]), init[1..], last);
    }
  }

  /** Nothing is left for this saver to do. */
  ghost predicate AtRest(k: Backend)
    requires Sound(k)
  {
    match k
    case Local(n, s) => MnnSaver.AtRest(n, s)
    case Remote(us, _, s) => SftpSaver.AtRest(us, s)
    case Refused(called) => called
  }

  /** In every run of the manager with its savers: the count is what is outstanding, the "none
      already" branch is never taken, and an operation whose saver has nothing left to do is
      still counted exactly if it is a local save of no files, or one chained to a load that
      threw. */
  lemma SavesEnd(ms: seq<Move>, i: nat)
    requires IsRun(START, ms)
    requires i < |After(START, ms).tasks| && After(START, ms).tasks[i].Some?
    ensures var s := After(START, ms);
      var t := s.tasks[i].value;
      && s.manager.counter == FileManager.Counted(s.manager.ops) && s.manager.nones == 0
      && i < |s.manager.ops| && Sound(t.saver)
      && (AtRest(t.saver) ==> (FileManager.Holds(s.manager.ops[i].stage) <==>
            t.saver.Local? && if Threw(t.saver) then t.chained else t.saver.n == 0))
  {
    hide IsRun, After, MnnSaver.Inv, SftpSaver.SaveInv;
    EveryRun(START, ms, Save(Refused(false)));
    var s := After(START, ms);
    var t := s.tasks[i].value;
    assert TaskInv(s.manager.ops[i], s.tasks[i]);
    if AtRest(t.saver) {
      match t.saver
      case Local(n, l) => LocalRest(n, l);
      case Remote(us, before, r) => SftpSaver.RestHasCalled(us, before, r);
      case Refused(_) =>
    }
  }

  lemma LocalRest(n: nat, s: MnnSaver.State)
    requires MnnSaver.Inv(n, s) && MnnSaver.AtRest(n, s)
    ensures s.calls == if s.loop.Threw? || n == 0 then 0 else 1
    ensures s.loop.Threw? ==> n > 0
  {}
}
