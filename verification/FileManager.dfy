/** The file manager's count of outstanding operations, which stops the event loop when it
    falls to zero. Loads, chained saves and saves run concurrently; a backend that accepted an
    operation calls back exactly once, or throws instead of calling back. */
module FileManager {

  /** `Chaining`: the data of a load has been handed to a saver, whose `SaveASync` has returned or
      not; `Ending`: that saver has reported before it returned. `Leaked`: the loader, or the saver
      chained to a load, threw; nothing lowers the count for it. `Threw`: a saver threw and
      `SaveASync` lowered the count itself. */
  datatype Stage = Loading(save: bool) | Chaining(returned: bool) | Ending | Saving | Done | Threw | Leaked

  /** `finals` counts the calls of the caller's own callback. */
  datatype Op = Op(stage: Stage, finals: nat)

  /** `stops` counts calls of `ioc->stop()`, `nones` visits of the branch that "should never
      happen". */
  datatype State = State(ops: seq<Op>, counter: int, stops: nat, nones: nat)

  datatype Move =
    | LoadBegins(save: bool)
    | LoaderThrows(i: nat)
    | ReadReports(i: nat, ok: bool)
    | ChainReturns(i: nat)
    | ChainThrows(i: nat)
    | ChainReports(i: nat)
    | SaveBegins
    | SaverThrows(i: nat)
    | SaveReports(i: nat)

  const START: State := State([], 0, 0, 0)

  predicate In(s: State, i: nat, stage: Stage) { i < |s.ops| && s.ops[i].stage == stage }

  predicate Can(s: State, m: Move) {
    match m
    case LoadBegins(_) => true
    case LoaderThrows(i) => i < |s.ops| && s.ops[i].stage.Loading?
    case ReadReports(i, _) => i < |s.ops| && s.ops[i].stage.Loading?
    case ChainReturns(i) => In(s, i, Chaining(false)) || In(s, i, Ending)
    case ChainThrows(i) => In(s, i, Chaining(false))
    case ChainReports(i) => i < |s.ops| && s.ops[i].stage.Chaining?
    case SaveBegins => true
    case SaverThrows(i) => In(s, i, Saving)
    case SaveReports(i) => In(s, i, Saving)
  }

  /** `DecrementOutstandingOperations`. */
  function Lowered(s: State): State {
    if s.counter <= 0 then s.(stops := s.stops + 1, nones := s.nones + 1)
    else s.(counter := s.counter - 1, stops := s.stops + if s.counter == 1 then 1 else 0)
  }

  function Raised(s: State, stage: Stage): State {
    s.(counter := s.counter + 1, ops := s.ops + [Op(stage, 0)])
  }

  function Put(s: State, i: nat, stage: Stage, calls: nat): State
    requires i < |s.ops|
  {
    s.(ops := s.ops[i := Op(stage, s.ops[i].finals + calls)])
  }

  function Next(s: State, m: Move): State
    requires Can(s, m)
  {
    match m
    case LoadBegins(save) => Raised(s, Loading(save))
    case LoaderThrows(i) => Put(s, i, Leaked, 0)
    case ReadReports(i, ok) =>
      if ok && s.ops[i].stage.save then Put(s, i, Chaining(false), 0) else Lowered(Put(s, i, Done, 1))
    case ChainReturns(i) => Put(s, i, if s.ops[i].stage == Ending then Done else Chaining(true), 1)
    case ChainThrows(i) => Put(s, i, Leaked, 0)
    case ChainReports(i) => Lowered(Put(s, i, if s.ops[i].stage.returned then Done else Ending, 0))
    case SaveBegins => Raised(s, Saving)
    case SaverThrows(i) => Lowered(Put(s, i, Threw, 0))
    case SaveReports(i) => Lowered(Put(s, i, Done, 1))
  }

  // ------------------------------------------------------------- the invariant

  predicate Live(k: Stage) { k.Loading? || k.Chaining? || k.Saving? }

  /** Operations the count stands for: those in flight, and those leaked. */
  function Counted(ops: seq<Op>): nat {
    if ops == [] then 0
    else Counted(ops[..|ops| - 1]) + if Holds(ops[|ops| - 1].stage) then 1 else 0
  }

  predicate Holds(k: Stage) { Live(k) || k == Leaked }

  predicate Told(op: Op) {
    op.finals == if op.stage == Chaining(true) || op.stage == Done then 1 else 0
  }

  predicate Inv(s: State) {
    && s.counter == Counted(s.ops)
    && s.nones == 0
    && forall i :: 0 <= i < |s.ops| ==> Told(s.ops[i])
  }

  lemma {:induction false} CountedUpdate(ops: seq<Op>, i: nat, op: Op)
    requires i < |ops|
    ensures Counted(ops[i := op]) == Counted(ops) + (if Holds(op.stage) then 1 else 0) - if Holds(ops[i].stage) then 1 else 0
  {
    var n := |ops| - 1;
    if i < n {
      CountedUpdate(ops[..n], i, op);
      assert ops[i := op][..n] == ops[..n][i := op];
    } else {
      assert ops[i := op][..n] == ops[..n];
    }
  }

  lemma {:induction false} CountedNone(ops: seq<Op>)
    ensures Counted(ops) == 0 <==> forall i :: 0 <= i < |ops| ==> !Holds(ops[i].stage)
  {
    if ops != [] { CountedNone(ops[..|ops| - 1]); }
  }

  lemma CountedGrows(ops: seq<Op>, op: Op)
    ensures Counted(ops + [op]) == Counted(ops) + if Holds(op.stage) then 1 else 0
  {
    assert (ops + [op])[..|ops|] == ops;
  }

  /** Every step keeps the invariant, and stops the event loop exactly when it takes the count
      from one to zero. */
  lemma StepKeepsInv(s: State, m: Move)
    requires Inv(s) && Can(s, m)
    ensures Inv(Next(s, m))
    ensures Next(s, m).stops == s.stops + if s.counter == 1 && Next(s, m).counter == 0 then 1 else 0
    ensures Next(s, m).counter == 0 ==> s.counter <= 1
  {
    hide Counted;
    CountedNone(s.ops);
    match m
    case LoadBegins(save) => CountedGrows(s.ops, Op(Loading(save), 0));
    case SaveBegins => CountedGrows(s.ops, Op(Saving, 0));
    case _ =>
      CountedUpdate(s.ops, m.i, Next(s, m).ops[m.i]);
      assert Told(s.ops[m.i]);
  }

  ghost predicate IsRun(s: State, ms: seq<Move>)
    decreases |ms|
  {
    ms == [] || (Can(s, ms[0]) && IsRun(Next(s, ms[0]), ms[1..]))
  }

  ghost function After(s: State, ms: seq<Move>): State
    requires IsRun(s, ms)
    decreases |ms|
  {
    if ms == [] then s else After(Next(s, ms[0]), ms[1..])
  }

  lemma {:induction false} EveryRun(s: State, ms: seq<Move>)
    requires Inv(s) && IsRun(s, ms)
    ensures Inv(After(s, ms))
    decreases |ms|
  {
    hide Inv;
    if ms != [] {
      StepKeepsInv(s, ms[0]);
      EveryRun(Next(s, ms[0]), ms[1..]);
    }
  }

  ghost predicate NoLeak(s: State) { forall i :: 0 <= i < |s.ops| ==> s.ops[i].stage != Leaked }

  ghost predicate NoneLive(s: State) { forall i :: 0 <= i < |s.ops| ==> !Live(s.ops[i].stage) }

  /** In every run the count is the number of operations in flight plus those leaked, the "none
      already" branch is never taken, and each caller's callback has been called once if its
      operation has come to its end, or a chained save has been handed over, and never otherwise. Without a leak the count is zero exactly when
      nothing is in flight. */
  lemma CountIsOutstanding(ms: seq<Move>)
    requires IsRun(START, ms)
    ensures var s := After(START, ms);
      && s.counter == Counted(s.ops) && s.nones == 0
      && (forall i :: 0 <= i < |s.ops| ==> Told(s.ops[i]))
      && (NoLeak(s) ==> (s.counter == 0 <==> NoneLive(s)))
      && (s.counter == 0 ==> NoneLive(s) && NoLeak(s))
  {
    EveryRun(START, ms);
    CountedNone(After(START, ms).ops);
  }

  /** The event loop is stopped by exactly those steps after which the count is zero and before
      which it was not; so never while an operation is in flight, and always when the last one
      ends. */
  lemma StopsAtZero(ms: seq<Move>, m: Move)
    requires IsRun(START, ms) && Can(After(START, ms), m)
    ensures var s := After(START, ms);
      var t := Next(s, m);
      && s.stops <= t.stops <= s.stops + 1
      && (t.stops > s.stops <==> s.counter > 0 && t.counter == 0)
      && (t.stops > s.stops ==> NoneLive(t) && NoLeak(t))
      && (NoLeak(t) && NoneLive(t) && !NoneLive(s) ==> t.stops > s.stops)
  {
    var s := After(START, ms);
    EveryRun(START, ms);
    StepKeepsInv(s, m);
    CountedNone(s.ops);
    CountedNone(Next(s, m).ops);
  }

  /** After one leak the event loop is never stopped again. */
  lemma {:induction false} LeakPreventsStop(s: State, i: nat, ms: seq<Move>)
    requires Inv(s) && In(s, i, Leaked) && IsRun(s, ms)
    ensures After(s, ms).stops == s.stops && After(s, ms).counter >= 1
    decreases |ms|
  {
    CountedNone(s.ops);
    if ms != [] {
      var t := Next(s, ms[0]);
      StepKeepsInv(s, ms[0]);
      CountedNone(t.ops);
      LeakPreventsStop(t, i, ms[1..]);
    }
  }

  // ------------------------------------------------------------- what a run has done

  /** The operations a run has begun, in order. */
  function Begun(ms: seq<Move>): seq<Move> {
    if ms == [] then []
    else
      var last := ms[|ms| - 1];
      Begun(ms[..|ms| - 1]) + if last.LoadBegins? || last.SaveBegins? then [last] else []
  }

  /** Where operation `i`, begun by `b`, stands after a run, whatever order its moves came in and
      whatever the others did. */
  function StageOf(b: Move, i: nat, ms: seq<Move>): Stage
    requires b.LoadBegins? || b.SaveBegins?
  {
    match b
    case LoadBegins(save) =>
      if LoaderThrows(i) in ms || ChainThrows(i) in ms then Leaked
      else if ReadReports(i, true) in ms && save then
        if ChainReports(i) !in ms then Chaining(ChainReturns(i) in ms)
        else if ChainReturns(i) in ms then Done else Ending
      else if ReadReports(i, true) in ms || ReadReports(i, false) in ms then Done
      else Loading(save)
    case _ => if SaveReports(i) in ms then Done else if SaverThrows(i) in ms then Threw else Saving
  }

  predicate IsBegin(m: Move) { m.LoadBegins? || m.SaveBegins? }

  /** Moves of the chained saver come after the data has been read, and moves of an operation
      after its begin. */
  ghost predicate InOrder(ms: seq<Move>, n: nat) {
    && (forall m | m in ms :: !IsBegin(m) ==> m.i < n)
    && (forall i :: ChainReports(i) in ms || ChainReturns(i) in ms || ChainThrows(i) in ms ==> ReadReports(i, true) in ms)
  }

  ghost predicate Recorded(s: State, ms: seq<Move>) {
    && |s.ops| == |Begun(ms)|
    && (forall i :: 0 <= i < |Begun(ms)| ==> IsBegin(Begun(ms)[i]))
    && (forall i :: 0 <= i < |s.ops| ==> s.ops[i].stage == StageOf(Begun(ms)[i], i, ms))
    && InOrder(ms, |s.ops|)
  }

  lemma RecordedStep(s: State, ms: seq<Move>, m: Move)
    requires Recorded(s, ms) && Can(s, m)
    ensures Recorded(Next(s, m), ms + [m])
  {
    hide StageOf;
    var all, t := ms + [m], Next(s, m);
    assert all[..|all| - 1] == ms;
    assert |t.ops| == |Begun(all)|;
    forall i | 0 <= i < |t.ops| ensures t.ops[i].stage == StageOf(Begun(all)[i], i, all) && IsBegin(Begun(all)[i]) {
      if i < |s.ops| {
        assert Begun(all)[i] == Begun(ms)[i];
        if IsBegin(m) || m.i != i {
          OthersKeepStage(Begun(ms)[i], i, ms, m);
        } else {
          OwnStage(s, ms, m);
        }
      } else {
        NewStage(m, i, ms);
      }
    }
    forall i | ChainReports(i) in all || ChainReturns(i) in all || ChainThrows(i) in all
      ensures ReadReports(i, true) in all
    {
      if m in {ChainReports(i), ChainReturns(i), ChainThrows(i)} { ChainedWasRead(s, ms, m); }
    }
  }

  lemma OthersKeepStage(b: Move, i: nat, ms: seq<Move>, m: Move)
    requires IsBegin(b) && (IsBegin(m) || m.i != i)
    ensures StageOf(b, i, ms + [m]) == StageOf(b, i, ms)
  {}

  lemma NewStage(m: Move, i: nat, ms: seq<Move>)
    requires IsBegin(m) && InOrder(ms, i)
    ensures StageOf(m, i, ms + [m]) == if m.LoadBegins? then Loading(m.save) else Saving
  {
    assert forall k | k in ms && !IsBegin(k) :: k.i != i;
  }

  lemma ChainedWasRead(s: State, ms: seq<Move>, m: Move)
    requires Recorded(s, ms) && Can(s, m) && (m.ChainReports? || m.ChainReturns? || m.ChainThrows?)
    ensures ReadReports(m.i, true) in ms
  {
    assert s.ops[m.i].stage == StageOf(Begun(ms)[m.i], m.i, ms);
  }

  lemma OwnStage(s: State, ms: seq<Move>, m: Move)
    requires Recorded(s, ms) && Can(s, m) && !IsBegin(m)
    ensures m.i < |s.ops| && Next(s, m).ops[m.i].stage == StageOf(Begun(ms)[m.i], m.i, ms + [m])
  {
    hide StageOf, Begun;
    var b := Begun(ms)[m.i];
    assert s.ops[m.i].stage == StageOf(b, m.i, ms);
    assert IsBegin(b);
    AfterOwnMove(b, m.i, ms, m);
  }

  /** One operation's own move, by its stage before it. */
  lemma AfterOwnMove(b: Move, i: nat, ms: seq<Move>, m: Move)
    requires IsBegin(b) && !IsBegin(m) && m.i == i
    requires ChainReports(i) in ms || ChainReturns(i) in ms || ChainThrows(i) in ms ==> ReadReports(i, true) in ms
    ensures var (was, now) := (StageOf(b, i, ms), StageOf(b, i, ms + [m]));
      match m
      case LoaderThrows(_) => was.Loading? ==> now == Leaked
      case ReadReports(_, ok) => was.Loading? ==> now == if ok && was.save then Chaining(false) else Done
      case ChainReturns(_) => (was == Chaining(false) ==> now == Chaining(true)) && (was == Ending ==> now == Done)
      case ChainThrows(_) => was == Chaining(false) ==> now == Leaked
      case ChainReports(_) => was.Chaining? ==> now == if was.returned then Done else Ending
      case SaverThrows(_) => was == Saving ==> now == Threw
      case SaveReports(_) => was == Saving ==> now == Done
      case _ => true
  {
    assert forall k :: k in ms + [m] <==> k in ms || k == m;
  }

  /** A run decides where every operation stands: as many operations as begins, each in the stage
      its own moves say, and the count is those of them that are live or leaked. */
  lemma {:induction false} RunDecides(ms: seq<Move>)
    requires IsRun(START, ms)
    ensures var s := After(START, ms);
      && |s.ops| == |Begun(ms)|
      && (forall i :: 0 <= i < |s.ops| ==>
            IsBegin(Begun(ms)[i]) && s.ops[i].stage == StageOf(Begun(ms)[i], i, ms))
      && s.counter == Counted(s.ops)
  {
    RunIsRecorded(ms);
    EveryRun(START, ms);
  }

  lemma {:induction false} RunIsRecorded(ms: seq<Move>)
    requires IsRun(START, ms)
    ensures Recorded(After(START, ms), ms)
    decreases |ms|
  {
    hide Recorded, Next, Can;
    if ms == [] {
      NothingRecorded();
    } else {
      var init, last := ms[..|ms| - 1], ms[|ms| - 1];
      assert ms == init + [last];
      RunSplits(START, init, last);
      RunIsRecorded(init);
      RecordedStep(After(START, init), init, last);
    }
  }

  lemma NothingRecorded()
    ensures Recorded(START, [])
  {}

  lemma {:induction false} RunSplits(s: State, init: seq<Move>, last: Move)
    requires IsRun(s, init + [last])
    ensures IsRun(s, init) && Can(After(s, init), last)
    ensures After(s, init + [last]) == Next(After(s, init), last)
    decreases |init|
  {
    hide Next, Can;
    var ms := init + [last];
    if init == [] {
      assert ms == [last] && ms[1..] == [];
      assert IsRun(Next(s, last), []) && After(Next(s, last), []) == Next(s, last);
    } else {
      assert ms[1..] == init[1..] + [last] && ms[0] == init[0];
      RunSplits(Next(s, init[0]), init[1..], last);
    }
  }

  // ------------------------------------------------------------- the manager

  class Manager {
    var loaders: set<string>
    var savers: set<string>
    var outstandingOperations: int
    ghost var stops: nat
    ghost var nones: nat

    constructor ()
      ensures Agrees(START)
    {
      loaders, savers, outstandingOperations, stops, nones := {}, {}, 0, 0, 0;
    }

    ghost predicate Agrees(s: State)
      reads this
    {
      outstandingOperations == s.counter && stops == s.stops && nones == s.nones
    }

    method RegisterLoader(prefix: string)
      modifies `loaders
      ensures loaders == old(loaders) + {prefix}
    {
      loaders := loaders + {prefix};
    }

    method RegisterSaver(prefix: string)
      modifies `savers
      ensures savers == old(savers) + {prefix}
    {
      savers := savers + {prefix};
    }

    method IncrementOutstandingOperations()
      modifies `outstandingOperations
      ensures outstandingOperations == old(outstandingOperations) + 1
    {
      outstandingOperations := outstandingOperations + 1;
    }

    method DecrementOutstandingOperations(ghost s: State)
      requires Agrees(s)
      modifies `outstandingOperations, `stops, `nones
      ensures Agrees(Lowered(s))
    {
      if outstandingOperations <= 0 {
        nones, stops := nones + 1, stops + 1;
        return;
      }
      outstandingOperations := outstandingOperations - 1;
      if outstandingOperations == 0 { stops := stops + 1; }
    }

    /** `LoadASync` up to the loader; an unknown prefix throws before anything is counted. */
    method LoadASync(prefix: string, save: bool, ghost s: State) returns (threw: bool)
      requires Agrees(s)
      modifies this
      ensures threw <==> prefix !in old(loaders)
      ensures Agrees(if threw then s else Next(s, LoadBegins(save)))
    {
      if prefix !in loaders { return true; }
      IncrementOutstandingOperations();
      threw := false;
    }

    /** `handle_read`, up to the call of the chained saver if there is one. */
    method HandleRead(buffers: bool, save: bool, ghost s: State, ghost i: nat)
      requires Agrees(s) && In(s, i, Loading(save))
      modifies this
      ensures Agrees(Next(s, ReadReports(i, buffers)))
    {
      if buffers {
        if !save { DecrementOutstandingOperations(s); }
      } else {
        DecrementOutstandingOperations(s);
      }
    }

    /** The `handle_write` given to the chained saver. */
    method ChainedWrite(ghost s: State, ghost i: nat)
      requires Agrees(s) && Can(s, ChainReports(i))
      modifies this
      ensures Agrees(Next(s, ChainReports(i)))
    {
      DecrementOutstandingOperations(s);
    }

    /** `SaveASync` up to the saver. */
    method SaveBegin(prefix: string, ghost s: State) returns (threw: bool)
      requires Agrees(s)
      modifies this
      ensures threw <==> prefix !in old(savers)
      ensures Agrees(if threw then s else Next(s, SaveBegins))
    {
      if prefix !in savers { return true; }
      IncrementOutstandingOperations();
      threw := false;
    }

    /** The end of a save: its `handle_write`, or the `catch` that lowers the count and throws
        again. */
    method SaveEnd(caught: bool, ghost s: State, ghost i: nat)
      requires Agrees(s) && In(s, i, Saving)
      modifies this
      ensures Agrees(Next(s, if caught then SaverThrows(i) else SaveReports(i)))
    {
      DecrementOutstandingOperations(s);
    }
  }
}
