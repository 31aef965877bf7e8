/** One SFTP upload: the chain of asynchronous stages that connects, authenticates, opens the
    remote file, writes it block by block and cleans up. Resolver, sockets and libssh2 are the
    environment: every call may succeed, would block or fail, and a write may take any part of
    what it is offered. */
module SftpUpload {
  import opened Wrappers

  /** LIBSSH2_ERROR_EAGAIN. */
  const EAGAIN: int := -37

  /** `report`: whether the caller wants to know where the file went. */
  datatype Upload = Upload(user: string, host: string, path: string, content: string, report: bool)

  datatype Stage = Handshake | Auth | Init | Open

  /** How an upload ended: after the last byte, in the middle of the file, or before the remote
      file was opened. */
  datatype End = Whole | Cut | NotOpened

  /** The call to make next, or the wait that is pending. */
  datatype Phase =
    | Idle
    | Connecting
    | Calling(stage: Stage)
    | Blocked(stage: Stage)
    | Writing(total: nat)
    | Held(total: nat)
    | Ended(end: End)

  /** What the outside sees, in order. */
  datatype Effect = Opened | HandleClosed | SftpShutDown | SessionFreed | Posted

  datatype State = State(phase: Phase, remote: Option<string>, log: seq<Effect>, location: Option<string>)

  datatype Rc = Ok | Again | Fail

  /** `Wrote(count)` is the result of `libssh2_sftp_write`, `Ready` that of `async_wait`;
      `NothingLeft` enters the write stage with nothing to write. */
  datatype Event =
    | Start(resolved: bool)
    | Connected(ok: bool)
    | Returned(rc: Rc)
    | Ready(ok: bool)
    | Wrote(count: int)
    | NothingLeft

  const CLEANUP: seq<Effect> := [HandleClosed, SftpShutDown, SessionFreed]

  function Fresh(remote: Option<string>): State { State(Idle, remote, [], None) }

  function Location(u: Upload): Option<string> {
    if u.report then Some("sftp://" + u.user + "@" + u.host + u.path) else None
  }

  predicate Enabled(u: Upload, s: State, e: Event) {
    match e
    case Start(_) => true
    case Connected(_) => s.phase.Connecting?
    case Returned(_) => s.phase.Calling?
    case Ready(_) => s.phase.Blocked? || s.phase.Held?
    case Wrote(count) =>
      s.phase.Writing? && s.phase.total < |u.content| && count <= |u.content| - s.phase.total
    case NothingLeft => s.phase.Writing? && s.phase.total == |u.content|
  }

  /** `DoWriteCallback` as the last thing a device does. */
  function Quit(s: State, end: End): State {
    s.(phase := Ended(end), log := s.log + (if end == NotOpened then [] else CLEANUP) + [Posted])
  }

  function Succeed(u: Upload, s: State, stage: Stage): State {
    match stage
    case Handshake => s.(phase := Calling(Auth))
    case Auth => s.(phase := Calling(Init))
    case Init => s.(phase := Calling(Open))
    case Open => State(Writing(0), Some(""), s.log + [Opened], Location(u))
  }

  function Next(u: Upload, s: State, e: Event): State
    requires Enabled(u, s, e)
  {
    match e
    case Start(resolved) =>
      if s.phase != Idle then s
      else if resolved then s.(phase := Connecting) else Quit(s, NotOpened)
    case Connected(ok) => if ok then s.(phase := Calling(Handshake)) else Quit(s, NotOpened)
    case Returned(rc) => (
      match rc
      case Ok => Succeed(u, s, s.phase.stage)
      case Again => s.(phase := Blocked(s.phase.stage))
      case Fail => Quit(s, NotOpened))
    case Ready(ok) =>
      if s.phase.Blocked? then if ok then s.(phase := Calling(s.phase.stage)) else Quit(s, NotOpened)
      else if ok then s.(phase := Writing(s.phase.total)) else Quit(s, Cut)
    case Wrote(count) =>
      if count > 0 then
        var total := s.phase.total + count;
        var t := s.(remote := Some(Sent(s) + u.content[s.phase.total..total]));
        if total >= |u.content| then Quit(t, Whole) else t.(phase := Held(total))
      else if count == EAGAIN then s.(phase := Held(s.phase.total))
      else Quit(s, Cut)
    case NothingLeft => Quit(s, Whole)
  }

  /** What the remote file holds. */
  function Sent(s: State): string { match s.remote case None => "" case Some(r) => r }

  // ------------------------------------------------------------- every run

  /** `before` is what the remote path held before the upload. */
  ghost predicate Inv(u: Upload, before: Option<string>, s: State) {
    match s.phase
    case Writing(t) =>
      t <= |u.content| && (t > 0 ==> t < |u.content|) && s.remote == Some(u.content[..t]) &&
      s.log == [Opened] && s.location == Location(u)
    case Held(t) =>
      t < |u.content| && s.remote == Some(u.content[..t]) &&
      s.log == [Opened] && s.location == Location(u)
    case Ended(Whole) =>
      s.remote == Some(u.content) &&
      s.log == [Opened] + CLEANUP + [Posted] && s.location == Location(u)
    case Ended(Cut) =>
      s.log == [Opened] + CLEANUP + [Posted] && s.location == Location(u) &&
      exists t: nat | t < |u.content| :: s.remote == Some(u.content[..t])
    case Ended(NotOpened) => s.remote == before && s.log == [Posted] && s.location == None
    case _ => s.remote == before && s.log == [] && s.location == None
  }

  lemma StepKeepsInv(u: Upload, before: Option<string>, s: State, e: Event)
    requires Inv(u, before, s) && Enabled(u, s, e)
    ensures Inv(u, before, Next(u, s, e))
  {
    if e.Wrote? && e.count > 0 {
      var t := s.phase.total;
      assert u.content[..t] + u.content[t..t + e.count] == u.content[..t + e.count];
      assert u.content[..|u.content|] == u.content;
    }
  }

  ghost predicate IsRun(u: Upload, s: State, es: seq<Event>)
    decreases |es|
  {
    es == [] || (Enabled(u, s, es[0]) && IsRun(u, Next(u, s, es[0]), es[1..]))
  }

  ghost function After(u: Upload, s: State, es: seq<Event>): State
    requires IsRun(u, s, es)
    decreases |es|
  {
    if es == [] then s else After(u, Next(u, s, es[0]), es[1..])
  }

  lemma {:induction false} EveryRun(u: Upload, before: Option<string>, s: State, es: seq<Event>)
    requires Inv(u, before, s) && IsRun(u, s, es)
    ensures Inv(u, before, After(u, s, es))
    decreases |es|
  {
    if es != [] {
      StepKeepsInv(u, before, s, es[0]);
      EveryRun(u, before, Next(u, s, es[0]), es[1..]);
    }
  }

  /** How often an effect was seen. */
  function Times(log: seq<Effect>, x: Effect): nat {
    if log == [] then 0 else Times(log[..|log| - 1], x) + if log[|log| - 1] == x then 1 else 0
  }

  lemma TimesAppend(log: seq<Effect>, y: Effect, x: Effect)
    ensures Times(log + [y], x) == Times(log, x) + if y == x then 1 else 0
  {
    assert (log + [y])[..|log|] == log;
  }

  /** Whatever the network and the server do: the remote file is the content up to what has
      been written, and untouched while it was never opened; the handle is closed once if it
      was opened, and before the completion; the completion is posted once, when the device
      ends; the file is complete exactly when the device ended normally. The session is only
      freed by a device that opened its file. */
  ghost predicate Safe(u: Upload, before: Option<string>, s: State) {
    && Times(s.log, Posted) == (if s.phase.Ended? then 1 else 0)
    && Times(s.log, Opened) <= 1
    && Times(s.log, HandleClosed) == (if s.phase.Ended? then Times(s.log, Opened) else 0)
    && Times(s.log, SessionFreed) == Times(s.log, HandleClosed)
    && (s.phase.Ended? ==> s.log[|s.log| - 1] == Posted)
    && (Opened !in s.log ==> s.remote == before && s.location == None)
    && (Opened in s.log ==> Sent(s) <= u.content && s.location == Location(u))
    && (s.phase.Ended? && Opened in s.log ==> (s.phase == Ended(Whole) <==> s.remote == Some(u.content)))
  }

  lemma LogCounts(x: Effect)
    ensures Times([], x) == 0
    ensures Times([Opened], x) == if x == Opened then 1 else 0
    ensures Times([Posted], x) == if x == Posted then 1 else 0
    ensures Times([Opened] + CLEANUP + [Posted], x) == 1
  {
    var log := [Opened];
    assert [] + log == log && [] + [Posted] == [Posted];
    TimesAppend([], Posted, x);
    TimesAppend([], Opened, x);
    TimesAppend(log, HandleClosed, x);
    TimesAppend(log + [HandleClosed], SftpShutDown, x);
    TimesAppend(log + [HandleClosed] + [SftpShutDown], SessionFreed, x);
    TimesAppend(log + [HandleClosed] + [SftpShutDown] + [SessionFreed], Posted, x);
    assert log + CLEANUP + [Posted] == log + [HandleClosed] + [SftpShutDown] + [SessionFreed] + [Posted];
  }

  lemma InvIsSafe(u: Upload, before: Option<string>, s: State)
    requires Inv(u, before, s)
    ensures Safe(u, before, s)
  {
    hide Times;
    LogCounts(Posted);
    LogCounts(Opened);
    LogCounts(HandleClosed);
    LogCounts(SessionFreed);
    if s.phase == Ended(Cut) {
      var t: nat :| t < |u.content| && s.remote == Some(u.content[..t]);
      assert |u.content[..t]| < |u.content|;
    }
  }

  lemma UploadIsSafe(u: Upload, before: Option<string>, es: seq<Event>)
    requires IsRun(u, Fresh(before), es)
    ensures var t := After(u, Fresh(before), es);
      Safe(u, before, t) && (t.location.Some? <==> u.report && Opened in t.log)
  {
    hide IsRun, After;
    EveryRun(u, before, Fresh(before), es);
    InvIsSafe(u, before, After(u, Fresh(before), es));
  }

  // ------------------------------------------------------------- ending

  function StageRank(stage: Stage): nat {
    match stage case Handshake => 4 case Auth => 3 case Init => 2 case Open => 1
  }

  /** What is left to do, if nothing blocks. */
  function Rank(u: Upload, p: Phase): int {
    var n := 2 * |u.content|;
    match p
    case Idle => n + 12
    case Connecting => n + 11
    case Calling(stage) => n + 2 + 2 * StageRank(stage)
    case Blocked(stage) => n + 3 + 2 * StageRank(stage)
    case Writing(t) => n - 2 * t + 1
    case Held(t) => n - 2 * t + 2
    case Ended(_) => 0
  }

  /** Events that bring an upload no further: calls that would block, each with the wait that
      follows it, and repeated starts. */
  function Delay(e: Event): nat {
    match e
    case Start(_) => 1
    case Returned(rc) => if rc == Again then 2 else 0
    case Wrote(count) => if count == EAGAIN then 2 else 0
    case _ => 0
  }

  function Slack(es: seq<Event>): nat {
    if es == [] then 0 else Delay(es[0]) + Slack(es[1..])
  }

  /** The device can still be started, or something it waits for can happen. */
  ghost predicate CanMove(u: Upload, s: State) {
    s.phase == Idle || exists e: Event | !e.Start? :: Enabled(u, s, e)
  }

  lemma StepLowersRank(u: Upload, before: Option<string>, s: State, e: Event)
    requires Inv(u, before, s) && Enabled(u, s, e)
    ensures 1 + Rank(u, Next(u, s, e).phase) <= Rank(u, s.phase) + Delay(e)
  {
  }

  /** The length of a run is bounded by the size of the file and the number of calls that would
      block, and a device that has not ended can always go on: so if calls stop blocking, the
      device ends. */
  lemma {:induction false} UploadEnds(u: Upload, before: Option<string>, s: State, es: seq<Event>)
    requires Inv(u, before, s) && IsRun(u, s, es)
    ensures |es| + Rank(u, After(u, s, es).phase) <= Rank(u, s.phase) + Slack(es)
    ensures Rank(u, After(u, s, es).phase) >= 0
    ensures CanMove(u, After(u, s, es)) <==> !After(u, s, es).phase.Ended?
    decreases |es|
  {
    hide Inv, Next, Enabled, Delay, Rank, CanMove;
    if es == [] {
      RankIsNatural(u, before, s);
      CanGoOn(u, before, s);
    } else {
      StepKeepsInv(u, before, s, es[0]);
      StepLowersRank(u, before, s, es[0]);
      UploadEnds(u, before, Next(u, s, es[0]), es[1..]);
    }
  }

  lemma RankIsNatural(u: Upload, before: Option<string>, s: State)
    requires Inv(u, before, s)
    ensures 0 <= Rank(u, s.phase) <= 2 * |u.content| + 12
  {
  }

  lemma CanGoOn(u: Upload, before: Option<string>, s: State)
    requires Inv(u, before, s)
    ensures CanMove(u, s) <==> !s.phase.Ended?
  {
    match s.phase
    case Connecting => assert Enabled(u, s, Connected(true));
    case Calling(_) => assert Enabled(u, s, Returned(Ok));
    case Blocked(_) => assert Enabled(u, s, Ready(true));
    case Held(_) => assert Enabled(u, s, Ready(true));
    case Writing(t) => assert Enabled(u, s, if t < |u.content| then Wrote(1) else NothingLeft);
    case _ =>
  }

  /** An event that reports no error. */
  predicate Benign(e: Event) {
    match e
    case Start(ok) => ok
    case Connected(ok) => ok
    case Returned(rc) => rc != Fail
    case Ready(ok) => ok
    case Wrote(count) => count > 0 || count == EAGAIN
    case NothingLeft => true
  }

  /** Without an error an upload can only end with the whole file. */
  lemma {:induction false} OnlyErrorsCut(u: Upload, s: State, es: seq<Event>)
    requires IsRun(u, s, es) && forall k :: 0 <= k < |es| ==> Benign(es[k])
    requires s.phase.Ended? ==> s.phase == Ended(Whole)
    ensures After(u, s, es).phase.Ended? ==> After(u, s, es).phase == Ended(Whole)
    decreases |es|
  {
    if es != [] {
      assert Benign(es[0]);
      OnlyErrorsCut(u, Next(u, s, es[0]), es[1..]);
    }
  }

  // ------------------------------------------------------------- stages and errors

  /** The stages whose call has succeeded along a run, in order. */
  ghost function Passed(u: Upload, s: State, es: seq<Event>): seq<Stage>
    requires IsRun(u, s, es)
    decreases |es|
  {
    if es == [] then []
    else Passes(u, s, es[0]) + Passed(u, Next(u, s, es[0]), es[1..])
  }

  function Passes(u: Upload, s: State, e: Event): seq<Stage>
    requires Enabled(u, s, e)
  {
    if e == Returned(Ok) then [s.phase.stage] else []
  }

  const STAGES: seq<Stage> := [Handshake, Auth, Init, Open]

  /** What must have succeeded by now. */
  predicate Due(s: State, done: seq<Stage>) {
    && (Opened in s.log <==> done == STAGES)
    && match s.phase
       case Idle => done == []
       case Connecting => done == []
       case Calling(stage) => Before(stage, done)
       case Blocked(stage) => Before(stage, done)
       case Ended(NotOpened) => done <= STAGES && |done| < 4
       case _ => done == STAGES
  }

  predicate Before(stage: Stage, done: seq<Stage>) {
    match stage
    case Handshake => done == []
    case Auth => done == [Handshake]
    case Init => done == [Handshake, Auth]
    case Open => done == [Handshake, Auth, Init]
  }

  lemma StepKeepsDue(u: Upload, s: State, e: Event, done: seq<Stage>)
    requires Due(s, done) && Enabled(u, s, e)
    ensures Due(Next(u, s, e), done + Passes(u, s, e))
  {
    assert done + [] == done;
    var t := Next(u, s, e);
    assert Opened in t.log <==> Opened in s.log || (e == Returned(Ok) && s.phase.stage == Open);
  }

  lemma {:induction false} StagesAreDue(u: Upload, s: State, es: seq<Event>, done: seq<Stage>)
    requires IsRun(u, s, es) && Due(s, done)
    ensures Due(After(u, s, es), done + Passed(u, s, es))
    decreases |es|
  {
    hide Due, Next, Enabled, Passes;
    if es == [] {
      assert done + [] == done;
    } else {
      var now := Passes(u, s, es[0]);
      StepKeepsDue(u, s, es[0], done);
      StagesAreDue(u, Next(u, s, es[0]), es[1..], done + now);
      var later := Passed(u, Next(u, s, es[0]), es[1..]);
      assert (done + now) + later == done + (now + later);
    }
  }

  /** In every run the calls succeed in the order handshake, authentication, SFTP
      initialisation, open; and the remote file has been opened exactly if all four have. */
  lemma StagesInOrder(u: Upload, before: Option<string>, es: seq<Event>)
    requires IsRun(u, Fresh(before), es)
    ensures var passed := Passed(u, Fresh(before), es);
      && passed <= [Handshake, Auth, Init, Open]
      && (Opened in After(u, Fresh(before), es).log <==> passed == [Handshake, Auth, Init, Open])
  {
    hide IsRun, After, Passed;
    StagesAreDue(u, Fresh(before), es, []);
    var passed := Passed(u, Fresh(before), es);
    assert [] + passed == passed;
  }

  /** An error after the start: a connection, a call, a wait or a write that failed. */
  predicate Fails(e: Event) { !e.Start? && !Benign(e) }

  predicate GivenUp(s: State) { s.phase == Ended(NotOpened) || s.phase == Ended(Cut) }

  lemma {:induction false} FailureEnds(u: Upload, s: State, es: seq<Event>)
    requires IsRun(u, s, es) && s.phase != Idle
    ensures GivenUp(After(u, s, es)) <==> GivenUp(s) || exists e | e in es :: Fails(e)
    decreases |es|
  {
    if es != [] {
      var t := Next(u, s, es[0]);
      assert t.phase != Idle && (GivenUp(t) <==> GivenUp(s) || Fails(es[0]));
      hide Next, Enabled, Benign;
      FailureEnds(u, t, es[1..]);
      assert es == [es[0]] + es[1..];
    }
  }

  /** An upload gives up before the last byte if and only if the host could not be resolved when
      it was started, or a connection, a call, a wait or a write has failed since. */
  lemma GivesUpIff(u: Upload, before: Option<string>, es: seq<Event>)
    requires IsRun(u, Fresh(before), es)
    ensures GivenUp(After(u, Fresh(before), es))
       <==> es != [] && (es[0] == Start(false) || exists e | e in es :: Fails(e))
  {
    if es != [] {
      var t := Next(u, Fresh(before), es[0]);
      assert es[0].Start? && t.phase != Idle && (GivenUp(t) <==> es[0] == Start(false));
      FailureEnds(u, t, es[1..]);
      assert es == [es[0]] + es[1..];
    }
  }

  // ------------------------------------------------------------- the device

  /** The device object. `pending` stands for the continuation it has handed to the event loop;
      `remote` and `log` are what the outside has seen of it. */
  class SFTPUploadDevice {
    const upload: Upload
    var uploading: bool
    var pending: Phase
    var saveLocation: Option<string>
    ghost var remote: Option<string>
    ghost var log: seq<Effect>

    ghost predicate Agrees(s: State)
      reads this
    {
      && (uploading <==> pending != Idle)
      && s == State(pending, remote, log, saveLocation)
    }

    constructor (upload: Upload, ghost before: Option<string>)
      ensures this.upload == upload && Agrees(Fresh(before))
    {
      this.upload, uploading, pending, saveLocation := upload, false, Idle, None;
      remote, log := before, [];
    }

    method StartSFTPUpload(resolved: bool, ghost s: State)
      requires Agrees(s)
      modifies this
      ensures Agrees(Next(upload, s, Start(resolved)))
    {
      if uploading { return; }
      uploading := true;
      if !resolved {
        DoWriteCallback(NotOpened);
        return;
      }
      pending := Connecting;
    }

    method OnConnect(ok: bool, ghost s: State)
      requires Agrees(s) && pending == Connecting
      modifies this
      ensures Agrees(Next(upload, s, Connected(ok)))
    {
      if ok { pending := Calling(Handshake); } else { DoWriteCallback(NotOpened); }
    }

    /** `StartSFTPHandshake`, `StartSFTPAuth` and `StartCreateSFTP` differ only in the call they
        make and the stage they go on to. */
    method StartStage(stage: Stage, rc: Rc, ghost s: State)
      requires Agrees(s) && pending == Calling(stage) && stage != Open
      modifies this
      ensures Agrees(Next(upload, s, Returned(rc)))
    {
      if rc == Ok {
        pending := Calling(if stage == Handshake then Auth else if stage == Auth then Init else Open);
      } else if rc == Again {
        pending := Blocked(stage);
      } else {
        DoWriteCallback(NotOpened);
      }
    }

    /** Opening truncates the remote file. */
    method StartSFTPOpen(rc: Rc, ghost s: State)
      requires Agrees(s) && pending == Calling(Open)
      modifies this
      ensures Agrees(Next(upload, s, Returned(rc)))
    {
      if rc == Ok {
        remote, log := Some(""), log + [Opened];
        if upload.report {
          saveLocation := Some("sftp://" + upload.user + "@" + upload.host + upload.path);
        } else {
          saveLocation := None;
        }
        pending := Writing(0);
      } else if rc == Again {
        pending := Blocked(Open);
      } else {
        DoWriteCallback(NotOpened);
      }
    }

    method StartSFTPWriteBlocks(total: nat, rc: int, ghost s: State)
      requires Agrees(s) && pending == Writing(total) && total <= |upload.content|
      requires total < |upload.content| ==> rc <= |upload.content| - total
      modifies this
      ensures Agrees(Next(upload, s, if total < |upload.content| then Wrote(rc) else NothingLeft))
    {
      var remaining := |upload.content| - total;
      if remaining == 0 {
        StartSFTPCleanup();
        DoWriteCallback(Whole);
        return;
      }
      if rc > 0 {
        remote := Some(Sent(s) + upload.content[total..total + rc]);
        if total + rc >= |upload.content| {
          StartSFTPCleanup();
          DoWriteCallback(Whole);
        } else {
          pending := Held(total + rc);
        }
      } else if rc == EAGAIN {
        pending := Held(total);
      } else {
        StartSFTPCleanup();
        DoWriteCallback(Cut);
      }
    }

    /** The handlers given to `async_wait`. */
    method OnReady(ok: bool, ghost s: State)
      requires Agrees(s) && (pending.Blocked? || pending.Held?)
      modifies this
      ensures Agrees(Next(upload, s, Ready(ok)))
    {
      if pending.Blocked? {
        if ok { pending := Calling(pending.stage); } else { DoWriteCallback(NotOpened); }
      } else if ok {
        pending := Writing(pending.total);
      } else {
        StartSFTPCleanup();
        DoWriteCallback(Cut);
      }
    }

    method StartSFTPCleanup()
      modifies `log
      ensures log == old(log) + CLEANUP
    {
      log := log + CLEANUP;
    }

    method DoWriteCallback(end: End)
      modifies `log, `pending
      ensures log == old(log) + [Posted] && pending == Ended(end)
    {
      log := log + [Posted];
      pending := Ended(end);
    }
  }
}
