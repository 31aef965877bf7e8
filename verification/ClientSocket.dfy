/** The request-in-flight protocol of the HTTP client: a recursive request mutex around
    `send`, a socket mutex around the counters, nested sends (redirect, authentication retry)
    on the same client, and `stop` from any thread at any time. */
module ClientSocket {
  import opened Wrappers

  type Tid = nat

  /** A thread's stack: a `send` frame waits for the request mutex, then makes its first or
      second attempt, then leaves; an attempt past its first critical section is a live
      `send_` frame on top of it, from which another `send` may be called. */
  datatype Frame = Blocked | Sending(attempt: nat) | Leaving | InFlight

  datatype State = State(
    owner: Option<Tid>, depth: nat,
    inFlight: int, fromThread: Option<Tid>, shouldClose: bool, open: bool,
    stacks: seq<seq<Frame>>)

  datatype Action =
    | CallSend(t: Tid)
    | Lock(t: Tid)
    | Begin(t: Tid, alive: bool, connects: bool, peerClosed: bool)
    | HandleClose(t: Tid)
    | End(t: Tid, ret: bool, closeConnection: bool, peerClosed: bool)
    | Unlock(t: Tid)
    | Stop(t: Tid)

  function Start(n: nat): State {
    State(None, 0, 0, None, false, false, seq(n, _ => []))
  }

  function Top(st: seq<Frame>): Frame
    requires st != []
  {
    st[|st| - 1]
  }

  predicate TopIs(s: State, t: Tid, f: Frame) {
    t < |s.stacks| && s.stacks[t] != [] && Top(s.stacks[t]) == f
  }

  predicate Attempting(s: State, t: Tid) {
    t < |s.stacks| && s.stacks[t] != [] && Top(s.stacks[t]).Sending?
  }

  predicate Enabled(s: State, a: Action) {
    match a
    case CallSend(t) => t < |s.stacks| && (s.stacks[t] == [] || TopIs(s, t, InFlight))
    case Lock(t) => TopIs(s, t, Blocked) && (s.owner == None || s.owner == Some(t))
    case Begin(t, _, _, _) => Attempting(s, t)
    case HandleClose(t) => TopIs(s, t, InFlight)
    case End(t, _, _, _) => TopIs(s, t, InFlight) && |s.stacks[t]| > 1
    case Unlock(t) => TopIs(s, t, Leaving) && s.depth > 0
    case Stop(t) => t < |s.stacks|
  }

  // ------------------------------------------------------------- steps

  function Pop(st: seq<Frame>): seq<Frame>
    requires st != []
  {
    st[..|st| - 1]
  }

  function SetStack(s: State, t: Tid, st: seq<Frame>): State
    requires t < |s.stacks|
  {
    s.(stacks := s.stacks[t := st])
  }

  /** After an attempt has returned: once more if the peer had closed the connection. */
  function Returned(attempt: Frame, peerClosed: bool): Frame {
    if peerClosed && attempt == Sending(1) then Sending(2) else Leaving
  }

  /** Is there a usable socket after the first half of the critical section of `send_`? */
  function Connected(s: State, a: Action): bool
    requires a.Begin?
  {
    (s.open && a.alive) || a.connects
  }

  function Next(s: State, a: Action): State
    requires Enabled(s, a)
  {
    match a
    case CallSend(t) => SetStack(s, t, s.stacks[t] + [Blocked])
    case Lock(t) => SetStack(s, t, Pop(s.stacks[t]) + [Sending(1)]).(owner := Some(t), depth := s.depth + 1)
    case Begin(t, _, _, peerClosed) =>
      if Connected(s, a) then
        SetStack(s, t, s.stacks[t] + [InFlight]).(shouldClose := false, open := true,
          inFlight := s.inFlight + 1, fromThread := Some(t))
      else
        SetStack(s, t, Pop(s.stacks[t]) + [Returned(Top(s.stacks[t]), peerClosed)]).(shouldClose := false, open := false)
    case HandleClose(t) => s.(open := false)
    case End(t, ret, closeConnection, peerClosed) =>
      var below := Pop(s.stacks[t]);
      SetStack(s, t, Pop(below) + [Returned(Top(below), peerClosed)]).(
        inFlight := s.inFlight - 1,
        fromThread := if s.inFlight - 1 <= 0 then None else s.fromThread,
        open := s.open && !s.shouldClose && !closeConnection && ret)
    case Unlock(t) =>
      SetStack(s, t, Pop(s.stacks[t])).(depth := s.depth - 1, owner := if s.depth == 1 then None else s.owner)
    case Stop(t) =>
      if s.inFlight > 0 then s.(shouldClose := true) else s.(open := false)
  }

  /** The assertion in `shutdown_ssl` and `close_socket`: no request in flight, or the ones in
      flight are this thread's. */
  predicate MayClose(inFlight: int, fromThread: Option<Tid>, t: Tid) {
    inFlight == 0 || fromThread == Some(t)
  }

  /** The assertions the source evaluates during a step. */
  predicate Asserts(s: State, a: Action) {
    match a
    case Begin(t, alive, _, _) =>
      && (s.open && !alive ==> MayClose(s.inFlight, s.fromThread, t))
      && (s.inFlight > 1 ==> s.fromThread == Some(t))
    case HandleClose(t) => MayClose(s.inFlight, s.fromThread, t)
    case End(t, ret, closeConnection, _) =>
      var left := s.inFlight - 1;
      var from := if left <= 0 then None else s.fromThread;
      && (left <= 0 ==> left == 0)
      && (s.shouldClose || closeConnection || !ret ==> MayClose(left, from, t))
    case Stop(t) => s.inFlight <= 0 ==> MayClose(s.inFlight, s.fromThread, t)
    case _ => true
  }

  // ------------------------------------------------------------- counting frames

  /** Live `send_` frames of a stack, and `send` frames that hold the request mutex. */
  function Live(st: seq<Frame>): nat {
    if st == [] then 0 else Live(Pop(st)) + if Top(st) == InFlight then 1 else 0
  }

  function Holds(st: seq<Frame>): nat {
    if st == [] then 0 else Holds(Pop(st)) + if Top(st).Sending? || Top(st) == Leaving then 1 else 0
  }

  function Total(stacks: seq<seq<Frame>>): nat {
    if stacks == [] then 0 else Total(stacks[..|stacks| - 1]) + Live(stacks[|stacks| - 1])
  }

  lemma Push(st: seq<Frame>, f: Frame)
    ensures Live(st + [f]) == Live(st) + if f == InFlight then 1 else 0
    ensures Holds(st + [f]) == Holds(st) + if f.Sending? || f == Leaving then 1 else 0
  {
    assert Pop(st + [f]) == st;
  }

  lemma {:induction false} TotalUpdate(stacks: seq<seq<Frame>>, t: Tid, st: seq<Frame>)
    requires t < |stacks|
    ensures Total(stacks[t := st]) + Live(stacks[t]) == Total(stacks) + Live(st)
  {
    var n := |stacks| - 1;
    if t < n {
      TotalUpdate(stacks[..n], t, st);
      assert stacks[t := st][..n] == stacks[..n][t := st];
    } else {
      assert stacks[t := st][..n] == stacks[..n];
    }
  }

  // ------------------------------------------------------------- what every run keeps

  /** Frames alternate: a live frame stands on an attempt, nothing stands on a waiting or a
      leaving one. */
  predicate Shape(st: seq<Frame>) {
    st == [] ||
    match Top(st)
    case InFlight => Pop(st) != [] && Top(Pop(st)).Sending? && Shape(Pop(st))
    case _ => Pop(st) == [] || (Top(Pop(st)) == InFlight && Shape(Pop(st)))
  }

  ghost predicate Inv(s: State) {
    && (forall t | 0 <= t < |s.stacks| :: Shape(s.stacks[t]))
    && (forall t | 0 <= t < |s.stacks| :: Holds(s.stacks[t]) == if s.owner == Some(t) then s.depth else 0)
    && (s.owner == None <==> s.depth == 0)
    && (s.owner.Some? ==> s.owner.value < |s.stacks|)
    && s.inFlight == Total(s.stacks)
    && (s.inFlight > 0 ==> s.fromThread == s.owner)
    && (s.inFlight == 0 ==> s.fromThread == None)
  }

  /** A stack with a live frame also holds the request mutex. */
  lemma {:induction false} LiveHolds(st: seq<Frame>)
    requires Shape(st)
    ensures Live(st) > 0 ==> Holds(st) > 0
    ensures st != [] && Top(st) == InFlight ==> Live(st) > 0
  {
    if st != [] && Top(st) != InFlight && Pop(st) != [] { LiveHolds(Pop(st)); }
  }

  lemma {:induction false} NobodyLive(stacks: seq<seq<Frame>>)
    requires forall t | 0 <= t < |stacks| :: Live(stacks[t]) == 0
    ensures Total(stacks) == 0
  {
    if stacks != [] { NobodyLive(stacks[..|stacks| - 1]); }
  }

  lemma {:induction false} TotalAtLeast(stacks: seq<seq<Frame>>, t: Tid)
    requires t < |stacks|
    ensures Total(stacks) >= Live(stacks[t])
  {
    TotalUpdate(stacks, t, []);
  }

  lemma StartsWell(n: nat)
    ensures Inv(Start(n))
  {
    NobodyLive(Start(n).stacks);
  }

  /** Requests in flight belong to the owner of the request mutex, whose thread is recorded. */
  lemma OnlyTheOwner(s: State, t: Tid)
    requires Inv(s) && t < |s.stacks| && s.stacks[t] != []
    requires Top(s.stacks[t]) == InFlight || Top(s.stacks[t]).Sending? || Top(s.stacks[t]) == Leaving
    ensures s.owner == Some(t)
    ensures s.inFlight > 0 ==> s.fromThread == Some(t)
    ensures Top(s.stacks[t]) == InFlight ==> s.inFlight > 0
  {
    LiveHolds(s.stacks[t]);
    TotalAtLeast(s.stacks, t);
  }

  /** No ownership assertion of the source can fail. */
  lemma AssertsHold(s: State, a: Action)
    requires Inv(s) && Enabled(s, a)
    ensures Asserts(s, a)
  {
    hide Inv, Shape, Live, Holds, Total;
    match a {
      case Begin(t, _, _, _) => OnlyTheOwner(s, t); CountNonNegative(s);
      case HandleClose(t) => OnlyTheOwner(s, t);
      case End(t, _, _, _) => OnlyTheOwner(s, t);
      case Stop(t) => CountNonNegative(s);
      case _ =>
    }
  }

  lemma CountNonNegative(s: State)
    requires Inv(s)
    ensures s.inFlight >= 0
  {}

  /** Replacing one thread's stack, the count following its live frames. */
  lemma StackChange(s: State, t: Tid, st: seq<Frame>, n: State)
    requires Inv(s) && t < |s.stacks| && Shape(st)
    requires n.stacks == s.stacks[t := st]
    requires n.inFlight == s.inFlight + Live(st) - Live(s.stacks[t])
    requires n.owner == None <==> n.depth == 0
    requires s.owner == None || s.owner == Some(t) || (n.owner == s.owner && n.depth == s.depth && Holds(st) == 0)
    requires (n.owner == None && Holds(st) == 0) || (n.owner == Some(t) && Holds(st) == n.depth)
             || (n.owner == s.owner && n.owner != Some(t) && n.depth == s.depth && Holds(st) == 0)
    requires n.inFlight > 0 ==> n.fromThread == n.owner
    requires n.inFlight == 0 ==> n.fromThread == None
    ensures Inv(n)
  {
    hide Shape, Live, Holds, Total;
    TotalUpdate(s.stacks, t, st);
  }

  lemma StepCall(s: State, t: Tid)
    requires Inv(s) && Enabled(s, CallSend(t))
    ensures Inv(Next(s, CallSend(t)))
  {
    var st := s.stacks[t] + [Blocked];
    Push(s.stacks[t], Blocked);
    assert Pop(st) == s.stacks[t];
    StackChange(s, t, st, Next(s, CallSend(t)));
  }

  lemma StepLock(s: State, t: Tid)
    requires Inv(s) && Enabled(s, Lock(t))
    ensures Inv(Next(s, Lock(t)))
  {
    var below := Pop(s.stacks[t]);
    var st := below + [Sending(1)];
    Push(below, Sending(1));
    assert Pop(st) == below;
    LiveHolds(s.stacks[t]);
    if s.owner == None { NoOwnerNoLive(s); }
    StackChange(s, t, st, Next(s, Lock(t)));
  }

  lemma NoOwnerNoLive(s: State)
    requires Inv(s) && s.owner == None
    ensures s.inFlight == 0
  {
    forall t | 0 <= t < |s.stacks| ensures Live(s.stacks[t]) == 0 { LiveHolds(s.stacks[t]); }
    NobodyLive(s.stacks);
  }

  lemma StepBegin(s: State, a: Action)
    requires Inv(s) && a.Begin? && Enabled(s, a)
    ensures Inv(Next(s, a))
  {
    var t := a.t;
    OnlyTheOwner(s, t);
    if Connected(s, a) {
      var st := s.stacks[t] + [InFlight];
      Push(s.stacks[t], InFlight);
      assert Pop(st) == s.stacks[t];
      CountNonNegative(s);
      StackChange(s, t, st, Next(s, a));
    } else {
      var below := Pop(s.stacks[t]);
      var f := Returned(Top(s.stacks[t]), a.peerClosed);
      Push(below, f);
      assert Pop(below + [f]) == below;
      StackChange(s, t, below + [f], Next(s, a));
    }
  }

  lemma StepEnd(s: State, a: Action)
    requires Inv(s) && a.End? && Enabled(s, a)
    ensures Inv(Next(s, a))
  {
    var t := a.t;
    OnlyTheOwner(s, t);
    var below := Pop(s.stacks[t]);
    var base := Pop(below);
    var f := Returned(Top(below), a.peerClosed);
    assert Shape(below) && Top(below).Sending?;
    assert Live(s.stacks[t]) == Live(below) + 1 && Holds(s.stacks[t]) == Holds(below);
    assert Live(below) == Live(base) && Holds(below) == Holds(base) + 1;
    Push(base, f);
    assert Pop(base + [f]) == base;
    StackChange(s, t, base + [f], Next(s, a));
  }

  lemma StepUnlock(s: State, t: Tid)
    requires Inv(s) && Enabled(s, Unlock(t))
    ensures Inv(Next(s, Unlock(t)))
  {
    OnlyTheOwner(s, t);
    var st := Pop(s.stacks[t]);
    var n := Next(s, Unlock(t));
    if s.depth == 1 { NoHoldNoLive(s, t, st); }
    StackChange(s, t, st, n);
  }

  /** The outermost `send` leaves with nothing in flight. */
  lemma NoHoldNoLive(s: State, t: Tid, st: seq<Frame>)
    requires Inv(s) && t < |s.stacks| && s.owner == Some(t) && s.stacks[t] != [] && st == Pop(s.stacks[t])
    requires Top(s.stacks[t]) == Leaving && s.depth == 1
    ensures s.inFlight == 0 && Live(st) == 0 && Holds(st) == 0 && Shape(st)
  {
    assert Holds(st) == 0;
    LiveHolds(st);
    forall u | 0 <= u < |s.stacks| ensures Live(s.stacks[u]) == 0 {
      if u != t { LiveHolds(s.stacks[u]); }
    }
    NobodyLive(s.stacks);
  }

  lemma StepKeepsInv(s: State, a: Action)
    requires Inv(s) && Enabled(s, a)
    ensures Inv(Next(s, a))
  {
    match a {
      case CallSend(t) => StepCall(s, t);
      case Lock(t) => StepLock(s, t);
      case Begin(_, _, _, _) => StepBegin(s, a);
      case End(_, _, _, _) => StepEnd(s, a);
      case Unlock(t) => StepUnlock(s, t);
      case HandleClose(_) =>
      case Stop(_) =>
    }
  }

  // ------------------------------------------------------------- runs

  ghost predicate IsRun(s: State, run: seq<Action>)
    decreases |run|
  {
    run != [] ==> Enabled(s, run[0]) && IsRun(Next(s, run[0]), run[1..])
  }

  function After(s: State, run: seq<Action>): State
    requires IsRun(s, run)
    decreases |run|
  {
    if run == [] then s else After(Next(s, run[0]), run[1..])
  }

  lemma {:induction false} EveryRun(s: State, run: seq<Action>)
    requires Inv(s) && IsRun(s, run)
    ensures Inv(After(s, run))
    decreases |run|
  {
    hide Inv, Enabled, Next;
    if run != [] {
      StepKeepsInv(s, run[0]);
      EveryRun(Next(s, run[0]), run[1..]);
    }
  }

  /** Whatever the threads do: the counter is the number of live `send_` frames, all of them
      are on the stack of the recorded thread, and the next step trips no assertion. */
  lemma CountIsLiveFrames(n: nat, run: seq<Action>, a: Action)
    requires IsRun(Start(n), run) && Enabled(After(Start(n), run), a)
    ensures var s := After(Start(n), run);
            && s.inFlight == Total(s.stacks)
            && (forall t | 0 <= t < |s.stacks| && Live(s.stacks[t]) > 0 :: s.fromThread == Some(t))
            && (s.inFlight == 0 <==> s.fromThread == None)
            && Asserts(s, a)
  {
    hide Inv, Enabled, Next, Asserts;
    StartsWell(n);
    EveryRun(Start(n), run);
    var s := After(Start(n), run);
    AssertsHold(s, a);
    LiveFramesOwned(s);
  }

  lemma LiveFramesOwned(s: State)
    requires Inv(s)
    ensures s.inFlight == Total(s.stacks)
    ensures forall t | 0 <= t < |s.stacks| && Live(s.stacks[t]) > 0 :: s.fromThread == Some(t)
    ensures s.inFlight == 0 <==> s.fromThread == None
  {
    forall t | 0 <= t < |s.stacks| && Live(s.stacks[t]) > 0 ensures s.fromThread == Some(t) {
      LiveHolds(s.stacks[t]);
      TotalAtLeast(s.stacks, t);
    }
    if s.inFlight > 0 && s.owner == None { NoOwnerNoLive(s); }
  }

  // ------------------------------------------------------------- what is open, and who is where

  /** A thread has a request in flight. */
  ghost predicate SomeoneLive(s: State) { exists t | 0 <= t < |s.stacks| :: Live(s.stacks[t]) > 0 }

  lemma CountTellsLive(s: State)
    requires Inv(s)
    ensures s.inFlight > 0 <==> SomeoneLive(s)
  {
    hide Shape, Live, Holds;
    if !SomeoneLive(s) {
      NobodyLive(s.stacks);
    } else {
      var t :| 0 <= t < |s.stacks| && Live(s.stacks[t]) > 0;
      TotalAtLeast(s.stacks, t);
    }
  }

  /** When the socket is open after a step of any run: an attempt keeps a live one without
      connecting, and otherwise has one exactly if it connects; a stop closes it at once exactly
      if no thread has a request in flight, and is noted exactly if one has; the end of an attempt
      leaves it open exactly if nothing asks for closing it. No other step touches it. */
  lemma WhenOpen(n: nat, run: seq<Action>, a: Action)
    requires IsRun(Start(n), run) && Enabled(After(Start(n), run), a)
    ensures var s := After(Start(n), run);
      var t := Next(s, a);
      && (t.open <==> match a
           case Begin(_, alive, connects, _) => (s.open && alive) || connects
           case HandleClose(_) => false
           case End(_, ret, closeConnection, _) => s.open && ret && !closeConnection && !s.shouldClose
           case Stop(_) => s.open && SomeoneLive(s)
           case _ => s.open)
      && (t.shouldClose <==> if a.Stop? then s.shouldClose || SomeoneLive(s) else s.shouldClose && !a.Begin?)
  {
    hide Inv, IsRun, After;
    StartsWell(n);
    EveryRun(Start(n), run);
    CountTellsLive(After(Start(n), run));
  }

  /** The `send` frames of a stack, and where its top one stands. */
  function Sends(st: seq<Frame>): nat {
    if st == [] then 0 else Sends(Pop(st)) + if Top(st) == InFlight then 0 else 1
  }

  lemma PushSends(st: seq<Frame>, f: Frame)
    ensures Sends(st + [f]) == Sends(st) + if f == InFlight then 0 else 1
  {
    assert Pop(st + [f]) == st;
  }

  /** How often thread `t` has entered and left `send` in a run. */
  function Entered(run: seq<Action>, t: Tid): nat {
    if run == [] then 0 else (if run[0] == CallSend(t) then 1 else 0) + Entered(run[1..], t)
  }

  function Left(run: seq<Action>, t: Tid): nat {
    if run == [] then 0 else (if run[0] == Unlock(t) then 1 else 0) + Left(run[1..], t)
  }

  lemma StepSends(s: State, a: Action, t: Tid)
    requires Inv(s) && Enabled(s, a) && t < |s.stacks|
    ensures |Next(s, a).stacks| == |s.stacks|
    ensures Sends(Next(s, a).stacks[t]) + (if a == Unlock(t) then 1 else 0)
         == Sends(s.stacks[t]) + (if a == CallSend(t) then 1 else 0)
  {
    hide Inv, Sends;
    if a.t == t { StackSends(s, a); }
  }

  lemma StackSends(s: State, a: Action)
    requires Inv(s) && Enabled(s, a)
    ensures Sends(Next(s, a).stacks[a.t]) + (if a.Unlock? then 1 else 0)
         == Sends(s.stacks[a.t]) + (if a.CallSend? then 1 else 0)
  {
    hide Live, Holds, Total;
    var st := s.stacks[a.t];
    match a {
      case CallSend(_) => PushSends(st, Blocked);
      case Lock(_) => PushSends(Pop(st), Sending(1));
      case Begin(_, _, _, peerClosed) =>
        PushSends(st, InFlight);
        PushSends(Pop(st), Returned(Top(st), peerClosed));
      case End(_, _, _, peerClosed) =>
        assert Shape(st);
        PushSends(Pop(Pop(st)), Returned(Top(Pop(st)), peerClosed));
      case _ =>
    }
  }

  /** The `send` calls on a thread's stack are those it has entered and not left, in every run. */
  lemma {:induction false} SendsAreNested(s: State, run: seq<Action>, t: Tid)
    requires Inv(s) && IsRun(s, run) && t < |s.stacks|
    ensures var e := After(s, run);
      |e.stacks| == |s.stacks| && Sends(e.stacks[t]) + Left(run, t) == Sends(s.stacks[t]) + Entered(run, t)
    decreases |run|
  {
    hide Inv, Enabled, Next, Sends;
    if run != [] {
      StepKeepsInv(s, run[0]);
      StepSends(s, run[0], t);
      SendsAreNested(Next(s, run[0]), run[1..], t);
    }
  }

  /** Where an attempt leads, in every run: with a socket it is under way, on top of its `send`;
      without one, or at its end, the `send` makes its second attempt exactly if that was the first
      one and the peer had closed the connection, and leaves otherwise. */
  lemma AttemptsLead(n: nat, run: seq<Action>, a: Action)
    requires IsRun(Start(n), run) && Enabled(After(Start(n), run), a) && (a.Begin? || a.End?)
    ensures var s := After(Start(n), run);
      var (st, now) := (s.stacks[a.t], Next(s, a).stacks[a.t]);
      var at := if a.Begin? then |st| - 1 else |st| - 2;
      && at >= 0 && st[at].Sending?
      && if a.Begin? && ((s.open && a.alive) || a.connects) then now == st + [InFlight]
         else now == st[..at] + [if st[at] == Sending(1) && a.peerClosed then Sending(2) else Leaving]
  {
    hide IsRun, After, Live, Holds, Total;
    StartsWell(n);
    EveryRun(Start(n), run);
    var s := After(Start(n), run);
    assert Shape(s.stacks[a.t]);
    assert a.End? ==> Pop(Pop(s.stacks[a.t])) == s.stacks[a.t][..|s.stacks[a.t]| - 2];
  }

  // ------------------------------------------------------------- every send returns

  /** Steps a frame still has to make: a live frame takes one off the attempt it stands on. */
  function Weight1(f: Frame): int {
    match f
    case Blocked => 6
    case Sending(attempt) => if attempt == 1 then 5 else 3
    case Leaving => 1
    case InFlight => -1
  }

  function Weight(st: seq<Frame>): int {
    if st == [] then 0 else Weight(Pop(st)) + Weight1(Top(st))
  }

  function Work(stacks: seq<seq<Frame>>): int {
    if stacks == [] then 0 else Work(stacks[..|stacks| - 1]) + Weight(stacks[|stacks| - 1])
  }

  lemma PushWeight(st: seq<Frame>, f: Frame)
    ensures Weight(st + [f]) == Weight(st) + Weight1(f)
  {
    assert Pop(st + [f]) == st;
  }

  lemma {:induction false} WorkUpdate(stacks: seq<seq<Frame>>, t: Tid, st: seq<Frame>)
    requires t < |stacks|
    ensures Work(stacks[t := st]) == Work(stacks) + Weight(st) - Weight(stacks[t])
  {
    hide Weight;
    var n := |stacks| - 1;
    if t < n {
      WorkUpdate(stacks[..n], t, st);
      assert stacks[t := st][..n] == stacks[..n][t := st];
    } else {
      assert stacks[t := st][..n] == stacks[..n];
    }
  }

  lemma {:induction false} WeightIsNatural(st: seq<Frame>)
    requires Shape(st)
    ensures Weight(st) >= 0 && (st != [] && Top(st).Sending? ==> Weight(st) >= 3)
  {
    if st != [] && Pop(st) != [] { WeightIsNatural(Pop(st)); }
  }

  lemma {:induction false} WorkIsNatural(stacks: seq<seq<Frame>>)
    requires forall t | 0 <= t < |stacks| :: Shape(stacks[t])
    ensures Work(stacks) >= 0
  {
    hide Shape, Weight;
    if stacks != [] {
      WorkIsNatural(stacks[..|stacks| - 1]);
      WeightIsNatural(stacks[|stacks| - 1]);
    }
  }

  /** Steps that bring no `send` forward: a new one brings six more steps, and a stop or a close
      inside a request none less. */
  function Extra(a: Action): nat {
    match a
    case CallSend(_) => 7
    case HandleClose(_) => 1
    case Stop(_) => 1
    case _ => 0
  }

  function Extras(run: seq<Action>): nat { if run == [] then 0 else Extra(run[0]) + Extras(run[1..]) }

  lemma StackLowersWeight(s: State, a: Action)
    requires Inv(s) && Enabled(s, a)
    ensures 1 + Weight(Next(s, a).stacks[a.t]) <= Weight(s.stacks[a.t]) + Extra(a)
  {
    hide Live, Holds, Total;
    var st := s.stacks[a.t];
    match a {
      case CallSend(_) => PushWeight(st, Blocked);
      case Lock(_) => PushWeight(Pop(st), Sending(1));
      case Begin(_, _, _, peerClosed) =>
        PushWeight(st, InFlight);
        PushWeight(Pop(st), Returned(Top(st), peerClosed));
      case End(_, _, _, peerClosed) =>
        assert Shape(st);
        PushWeight(Pop(Pop(st)), Returned(Top(Pop(st)), peerClosed));
      case _ =>
    }
  }

  lemma StepLowersWork(s: State, a: Action)
    requires Inv(s) && Enabled(s, a)
    ensures 1 + Work(Next(s, a).stacks) <= Work(s.stacks) + Extra(a)
  {
    StackLowersWeight(s, a);
    var st := Next(s, a).stacks[a.t];
    assert Next(s, a).stacks == s.stacks[a.t := st];
    hide Inv, Next, Enabled, Weight, Extra;
    WorkUpdate(s.stacks, a.t, st);
  }

  /** Every run ends if `send` is no longer called: each call takes at most seven steps, whatever
      the peer does, nested calls being counted by themselves. */
  lemma {:induction false} SendsEnd(s: State, run: seq<Action>)
    requires Inv(s) && IsRun(s, run)
    ensures |run| <= Work(s.stacks) + Extras(run)
    decreases |run|
  {
    hide Inv, Next, Enabled, Extra;
    if run == [] {
      StacksHaveShape(s);
      WorkIsNatural(s.stacks);
    } else {
      StepKeepsInv(s, run[0]);
      StepLowersWork(s, run[0]);
      SendsEnd(Next(s, run[0]), run[1..]);
    }
  }

  lemma StacksHaveShape(s: State)
    requires Inv(s)
    ensures forall t | 0 <= t < |s.stacks| :: Shape(s.stacks[t])
  {}

  /** And no run gets stuck before that: while some thread is inside `send`, one of them can lock,
      begin an attempt, end one, or leave. */
  lemma NeverStuck(n: nat, run: seq<Action>, t: Tid) returns (a: Action)
    requires IsRun(Start(n), run)
    requires var s := After(Start(n), run); t < |s.stacks| && s.stacks[t] != []
    ensures Enabled(After(Start(n), run), a) && (a.Lock? || a.Begin? || a.End? || a.Unlock?)
  {
    hide IsRun, After, Live, Total;
    StartsWell(n);
    EveryRun(Start(n), run);
    var s := After(Start(n), run);
    var u := if s.owner.Some? then s.owner.value else t;
    assert Shape(s.stacks[u]);
    assert s.stacks[u] != [];
    match Top(s.stacks[u]) {
      case Blocked => a := Lock(u);
      case Sending(_) => a := Begin(u, false, false, false);
      case InFlight => a := End(u, false, false, false);
      case Leaving => a := Unlock(u);
    }
    if s.owner == None { HoldsTop(s.stacks[u]); }
  }

  lemma HoldsTop(st: seq<Frame>)
    requires Shape(st) && st != [] && Holds(st) == 0
    ensures Top(st) == Blocked
  {
    LiveHolds(st);
  }

  // ------------------------------------------------------------- what a stop achieves

  predicate IsPlain(run: seq<Action>) { forall a | a in run :: !a.Stop? }

  predicate NoBegin(run: seq<Action>) { forall a | a in run :: !a.Begin? }

  /** Without a further stop the flag is set after a run exactly if it was set before and no
      attempt has begun since. */
  lemma {:induction false} StopIsRemembered(s: State, run: seq<Action>)
    requires IsRun(s, run) && IsPlain(run)
    ensures After(s, run).shouldClose <==> s.shouldClose && NoBegin(run)
    decreases |run|
  {
    hide Enabled;
    if run != [] {
      assert run == [run[0]] + run[1..];
      StopIsRemembered(Next(s, run[0]), run[1..]);
    }
  }

  /** What a stop during a request achieves: at the end of any attempt after it, the socket is
      closed by the stop exactly if no attempt has begun since; if one has, the socket stays
      open exactly if that run left it open and the ending attempt itself does not close it. */
  lemma StopClosesAtEnd(s: State, run: seq<Action>, e: Action)
    requires IsRun(s, run) && IsPlain(run) && s.shouldClose
    requires e.End? && Enabled(After(s, run), e)
    ensures IsRun(s, run + [e]) && After(s, run + [e]) == Next(After(s, run), e)
    ensures After(s, run + [e]).open <==> !NoBegin(run) && After(s, run).open && !e.closeConnection && e.ret
  {
    hide IsRun, Enabled;
    StopIsRemembered(s, run);
    RunExtends(s, run, e);
  }

  lemma {:induction false} RunExtends(s: State, run: seq<Action>, e: Action)
    requires IsRun(s, run) && Enabled(After(s, run), e)
    ensures IsRun(s, run + [e]) && After(s, run + [e]) == Next(After(s, run), e)
    decreases |run|
  {
    hide Enabled;
    if run == [] {
      assert [e][1..] == [] && [] + [e] == [e];
      RunNothing(Next(s, e));
    } else {
      assert (run + [e])[1..] == run[1..] + [e];
      RunExtends(Next(s, run[0]), run[1..], e);
    }
  }

  lemma RunNothing(s: State)
    ensures IsRun(s, []) && After(s, []) == s
  {}

  /** And such a run exists from every state with a request in flight, stopped or not: a nested
      attempt, of a redirect say, that connects and succeeds leaves the socket open and nothing
      to close it. */
  lemma NestedSendForgetsStop(s: State, t: Tid)
    requires Inv(s) && TopIs(s, t, InFlight)
    ensures var run := [CallSend(t), Lock(t), Begin(t, false, true, false), End(t, true, false, false)];
            IsRun(s, run) && After(s, run).open && !After(s, run).shouldClose
  {
    hide Inv, Shape, Live, Holds, Total;
    OnlyTheOwner(s, t);
    var n1 := Next(s, CallSend(t));
    assert n1.stacks[t] == s.stacks[t] + [Blocked];
    var n2 := Next(n1, Lock(t));
    assert n2.stacks[t] == s.stacks[t] + [Sending(1)];
    var b, e := Begin(t, false, true, false), End(t, true, false, false);
    var n3 := Next(n2, b);
    assert n3.stacks[t] == s.stacks[t] + [Sending(1)] + [InFlight];
    RunOne(n3, e, []);
    RunOne(n2, b, [e]);
    RunOne(n1, Lock(t), [b, e]);
    RunOne(s, CallSend(t), [Lock(t), b, e]);
  }

  lemma RunOne(s: State, a: Action, rest: seq<Action>)
    requires Enabled(s, a) && IsRun(Next(s, a), rest)
    ensures IsRun(s, [a] + rest) && After(s, [a] + rest) == After(Next(s, a), rest)
  {
    assert ([a] + rest)[1..] == rest;
  }

  // ------------------------------------------------------------- the critical sections

  /** The fields under the socket mutex. Each method is one critical section, contains the
      source's assertions, and is proved to be the machine's step. */
  class ClientImpl {
    var socketOpen: bool
    var requestsInFlight: int
    var requestsAreFromThread: Option<Tid>
    var shouldBeClosedWhenDone: bool

    ghost predicate Agrees(s: State)
      reads this
    {
      && socketOpen == s.open && requestsInFlight == s.inFlight
      && requestsAreFromThread == s.fromThread && shouldBeClosedWhenDone == s.shouldClose
    }

    constructor (n: nat)
      ensures Agrees(Start(n))
    {
      socketOpen, requestsInFlight, requestsAreFromThread, shouldBeClosedWhenDone := false, 0, None, false;
    }

    method CloseSocket(me: Tid)
      requires MayClose(requestsInFlight, requestsAreFromThread, me)
      modifies this`socketOpen
      ensures !socketOpen
    {
      assert requestsInFlight == 0 || requestsAreFromThread == Some(me);
      socketOpen := false;
    }

    /** The first critical section of `send_`: a live socket or a new one, then the marking. */
    method SendBegin(me: Tid, alive: bool, connects: bool, ghost peerClosed: bool, ghost s: State) returns (ok: bool)
      requires Inv(s) && Agrees(s) && Enabled(s, Begin(me, alive, connects, peerClosed))
      modifies this
      ensures Agrees(Next(s, Begin(me, alive, connects, peerClosed)))
      ensures ok == Connected(s, Begin(me, alive, connects, peerClosed))
    {
      hide Inv, Enabled;
      AssertsHold(s, Begin(me, alive, connects, peerClosed));
      shouldBeClosedWhenDone := false;
      var isAlive := false;
      if socketOpen {
        isAlive := alive;
        if !isAlive { CloseSocket(me); }
      }
      if !isAlive {
        if !connects { return false; }
        socketOpen := true;
      }
      if requestsInFlight > 1 {
        assert requestsAreFromThread == Some(me);
      }
      requestsInFlight := requestsInFlight + 1;
      requestsAreFromThread := Some(me);
      ok := true;
    }

    /** The scope exit of `send_`. */
    method SendEnd(me: Tid, ret: bool, closeConnection: bool, ghost peerClosed: bool, ghost s: State)
      requires Inv(s) && Agrees(s) && Enabled(s, End(me, ret, closeConnection, peerClosed))
      modifies this
      ensures Agrees(Next(s, End(me, ret, closeConnection, peerClosed)))
    {
      hide Inv, Enabled;
      AssertsHold(s, End(me, ret, closeConnection, peerClosed));
      requestsInFlight := requestsInFlight - 1;
      if requestsInFlight <= 0 {
        assert requestsInFlight == 0;
        requestsAreFromThread := None;
      }
      if shouldBeClosedWhenDone || closeConnection || !ret { CloseSocket(me); }
    }

    /** The closing of the connection inside `handle_request`. */
    method CloseInRequest(me: Tid, ghost s: State)
      requires Inv(s) && Agrees(s) && Enabled(s, HandleClose(me))
      modifies this
      ensures Agrees(Next(s, HandleClose(me)))
    {
      hide Inv, Enabled;
      AssertsHold(s, HandleClose(me));
      CloseSocket(me);
    }

    /** `stop`: only shut down and leave a note while a request is in flight. */
    method Stop(me: Tid, ghost s: State)
      requires Inv(s) && Agrees(s) && Enabled(s, Action.Stop(me))
      modifies this
      ensures Agrees(Next(s, Action.Stop(me)))
    {
      hide Inv, Enabled;
      AssertsHold(s, Action.Stop(me));
      if requestsInFlight > 0 {
        shouldBeClosedWhenDone := true;
        return;
      }
      CloseSocket(me);
    }
  }
}
