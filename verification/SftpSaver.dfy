/** Saving several files over SFTP: one upload device per file and a shared countdown. The
    submitting loop, the devices and the posted callbacks interleave freely. */
module SftpSaver {
  import opened Counting
  import opened SftpUpload
  import opened Text
  import SftpUrl
  import opened Wrappers

  /** `devices[i]` uploads `us[i]`; the loop has started the first `submitted` of them; `ran`
      are the devices whose posted callback has run; `calls` counts calls of `handle_write`. */
  datatype Save = Save(devices: seq<State>, submitted: nat, ran: set<nat>, remaining: nat, calls: nat)

  datatype Move = Submit(resolved: bool) | Advance(i: nat, e: Event) | Report(i: nat)

  ghost predicate Can(us: seq<Upload>, s: Save, m: Move)
    requires |s.devices| == |us|
  {
    match m
    case Submit(_) => s.submitted < |us|
    case Advance(i, e) => i < s.submitted && i < |us| && Enabled(us[i], s.devices[i], e)
    case Report(i) => i < s.submitted && i < |us| && Posted in s.devices[i].log && i !in s.ran
  }

  function Do(us: seq<Upload>, s: Save, m: Move): (t: Save)
    requires |s.devices| == |us| && Can(us, s, m)
    ensures |t.devices| == |us|
  {
    match m
    case Submit(resolved) =>
      var i := s.submitted;
      s.(devices := s.devices[i := Next(us[i], s.devices[i], Event.Start(resolved))], submitted := i + 1)
    case Advance(i, e) => s.(devices := s.devices[i := Next(us[i], s.devices[i], e)])
    case Report(i) =>
      var left := Decremented(s.remaining);
      s.(ran := s.ran + {i}, remaining := left, calls := s.calls + if left <= 0 then 1 else 0)
  }

  function Begin(us: seq<Upload>, before: seq<Option<string>>): Save
    requires |before| == |us| <= SIZE_MAX
  {
    Save(seq(|us|, i requires 0 <= i < |us| => Fresh(before[i])), 0, {}, |us|, 0)
  }

  /** Device `i` of a running save. */
  ghost predicate DeviceInv(us: seq<Upload>, before: seq<Option<string>>, s: Save, i: nat)
    requires |s.devices| == |us| == |before| && i < |us|
  {
    && Inv(us[i], before[i], s.devices[i])
    && (s.devices[i].phase == Idle <==> i >= s.submitted)
    && (i in s.ran ==> s.devices[i].phase.Ended?)
  }

  ghost predicate SaveInv(us: seq<Upload>, before: seq<Option<string>>, s: Save) {
    && |s.devices| == |us| == |before|
    && s.submitted <= |us|
    && (forall i :: 0 <= i < |us| ==> DeviceInv(us, before, s, i))
    && (forall i <- s.ran :: i < |us|)
    && s.remaining + |s.ran| == |us|
    && s.calls == (if s.remaining == 0 then 1 else 0)
  }

  lemma PostedWhenEnded(u: Upload, before: Option<string>, s: State)
    requires Inv(u, before, s)
    ensures Posted in s.log <==> s.phase.Ended?
  {
    if s.phase.Ended? { assert s.log[|s.log| - 1] == Posted; }
  }

  lemma StepKeepsSaveInv(us: seq<Upload>, before: seq<Option<string>>, s: Save, m: Move)
    requires SaveInv(us, before, s) && Can(us, s, m)
    ensures SaveInv(us, before, Do(us, s, m))
  {
    hide Inv, Next;
    match m
    case Submit(resolved) =>
      assert DeviceInv(us, before, s, s.submitted);
      DeviceSteps(us[s.submitted], before[s.submitted], s.devices[s.submitted], Event.Start(resolved));
      KeepOthers(us, before, s, Do(us, s, m), s.submitted);
    case Advance(i, e) =>
      assert DeviceInv(us, before, s, i);
      DeviceSteps(us[i], before[i], s.devices[i], e);
      KeepOthers(us, before, s, Do(us, s, m), i);
    case Report(i) =>
      assert DeviceInv(us, before, s, i);
      PostedWhenEnded(us[i], before[i], s.devices[i]);
      AtMost(s.ran + {i}, |us|);
      KeepOthers(us, before, s, Do(us, s, m), i);
  }

  lemma DeviceSteps(u: Upload, before: Option<string>, s: State, e: Event)
    requires Inv(u, before, s) && Enabled(u, s, e)
    ensures Inv(u, before, Next(u, s, e))
    ensures s.phase.Ended? ==> Next(u, s, e).phase.Ended?
    ensures e.Start? || s.phase != Idle ==> Next(u, s, e).phase != Idle
  {
    StepKeepsInv(u, before, s, e);
  }

  lemma KeepOthers(us: seq<Upload>, before: seq<Option<string>>, s: Save, t: Save, i: nat)
    requires SaveInv(us, before, s) && |t.devices| == |us| && i < |us|
    requires s.submitted <= t.submitted <= |us| && (t.submitted > s.submitted ==> i == s.submitted && t.submitted == i + 1)
    requires s.ran <= t.ran <= s.ran + {i}
    requires forall k :: 0 <= k < |us| && k != i ==> t.devices[k] == s.devices[k]
    requires DeviceInv(us, before, t, i)
    ensures forall k :: 0 <= k < |us| ==> DeviceInv(us, before, t, k)
  {
    hide Inv;
    forall k | 0 <= k < |us| ensures DeviceInv(us, before, t, k) {
      assert DeviceInv(us, before, s, k);
    }
  }

  ghost predicate IsSaveRun(us: seq<Upload>, s: Save, ms: seq<Move>)
    requires |s.devices| == |us|
    decreases |ms|
  {
    ms == [] || (Can(us, s, ms[0]) && IsSaveRun(us, Do(us, s, ms[0]), ms[1..]))
  }

  ghost function AfterAll(us: seq<Upload>, s: Save, ms: seq<Move>): Save
    requires |s.devices| == |us| && IsSaveRun(us, s, ms)
    decreases |ms|
  {
    if ms == [] then s else AfterAll(us, Do(us, s, ms[0]), ms[1..])
  }

  lemma {:induction false} EverySaveRun(us: seq<Upload>, before: seq<Option<string>>, s: Save, ms: seq<Move>)
    requires SaveInv(us, before, s) && IsSaveRun(us, s, ms)
    ensures SaveInv(us, before, AfterAll(us, s, ms))
    decreases |ms|
  {
    hide SaveInv, Do, Can;
    HasAllDevices(us, before, s);
    if ms != [] {
      StepKeepsSaveInv(us, before, s, ms[0]);
      EverySaveRun(us, before, Do(us, s, ms[0]), ms[1..]);
    }
  }

  lemma HasAllDevices(us: seq<Upload>, before: seq<Option<string>>, s: Save)
    requires SaveInv(us, before, s)
    ensures |s.devices| == |us|
  {
  }

  /** Nothing is left to happen: all files submitted, every device at its end, every posted
      callback run. */
  ghost predicate AtRest(us: seq<Upload>, s: Save)
    requires |s.devices| == |us|
  {
    forall m: Move :: Can(us, s, m) ==> m.Advance? && m.e.Start?
  }

  lemma BeginKeepsInv(us: seq<Upload>, before: seq<Option<string>>)
    requires 0 < |us| == |before| <= SIZE_MAX
    ensures SaveInv(us, before, Begin(us, before))
  {
    forall i | 0 <= i < |us| ensures DeviceInv(us, before, Begin(us, before), i) {}
  }

  /** In every run over at least one file, `handle_write` is called at most once, and not before
      every file has been submitted and its device has ended and reported; the counter never
      wraps; and a run that has come to rest has called it. */
  lemma OneCompletion(us: seq<Upload>, before: seq<Option<string>>, ms: seq<Move>)
    requires 0 < |us| == |before| <= SIZE_MAX
    requires IsSaveRun(us, Begin(us, before), ms)
    ensures var s := AfterAll(us, Begin(us, before), ms);
      && |s.devices| == |us|
      && s.calls <= 1
      && s.remaining <= |us|
      && (s.calls == 1 ==> s.submitted == |us|)
      && (s.calls == 1 ==> forall i :: 0 <= i < |us| ==> i in s.ran && s.devices[i].phase.Ended?)
      && (AtRest(us, s) ==> s.calls == 1)
      && (forall i :: 0 <= i < |us| ==> Safe(us[i], before[i], s.devices[i]))
  {
    BeginKeepsInv(us, before);
    EverySaveRun(us, before, Begin(us, before), ms);
    var s := AfterAll(us, Begin(us, before), ms);
    WhenCalled(us, before, s);
    if AtRest(us, s) { RestHasCalled(us, before, s); }
    forall i | 0 <= i < |us| ensures Safe(us[i], before[i], s.devices[i]) {
      assert DeviceInv(us, before, s, i);
      InvIsSafe(us[i], before[i], s.devices[i]);
    }
  }

  lemma WhenCalled(us: seq<Upload>, before: seq<Option<string>>, s: Save)
    requires SaveInv(us, before, s) && |us| > 0
    ensures s.calls == 1 ==> s.submitted == |us|
    ensures s.calls == 1 ==> forall i :: 0 <= i < |us| ==> i in s.ran && s.devices[i].phase.Ended?
  {
    hide Inv;
    AtMost(s.ran, |us|);
    if s.calls == 1 {
      forall i | 0 <= i < |us| ensures i in s.ran && s.devices[i].phase.Ended? && i < s.submitted {
        assert DeviceInv(us, before, s, i);
      }
      assert |us| - 1 in s.ran;
    }
  }

  lemma RestHasCalled(us: seq<Upload>, before: seq<Option<string>>, s: Save)
    requires SaveInv(us, before, s) && AtRest(us, s)
    ensures s.calls == 1
  {
    hide Inv, Enabled;
    assert !Can(us, s, Submit(true));
    forall i | 0 <= i < |us| ensures i in s.ran {
      assert DeviceInv(us, before, s, i);
      CanGoOn(us[i], before[i], s.devices[i]);
      forall e: Event | !e.Start? ensures !Enabled(us[i], s.devices[i], e) {
        assert !Can(us, s, Advance(i, e));
      }
      PostedWhenEnded(us[i], before[i], s.devices[i]);
      assert !Can(us, s, Report(i));
    }
    AtLeast(s.ran, |us|);
  }

  predicate BenignMove(m: Move) {
    match m case Submit(ok) => ok case Advance(_, e) => Benign(e) case Report(_) => true
  }

  ghost predicate NoneCut(devices: seq<State>) {
    forall i :: 0 <= i < |devices| ==> devices[i].phase.Ended? ==> devices[i].phase == Ended(Whole)
  }

  lemma {:induction false} OnlyErrorsCutFiles(us: seq<Upload>, s: Save, ms: seq<Move>)
    requires |s.devices| == |us| && IsSaveRun(us, s, ms)
    requires NoneCut(s.devices) && forall k :: 0 <= k < |ms| ==> BenignMove(ms[k])
    ensures |AfterAll(us, s, ms).devices| == |us| && NoneCut(AfterAll(us, s, ms).devices)
    decreases |ms|
  {
    if ms != [] {
      assert BenignMove(ms[0]);
      OnlyErrorsCutFiles(us, Do(us, s, ms[0]), ms[1..]);
    }
  }

  /** Without an error the completion means that every remote file is its content. */
  lemma CompletionMeansWritten(us: seq<Upload>, before: seq<Option<string>>, ms: seq<Move>)
    requires 0 < |us| == |before| <= SIZE_MAX
    requires IsSaveRun(us, Begin(us, before), ms)
    requires forall k :: 0 <= k < |ms| ==> BenignMove(ms[k])
    ensures var s := AfterAll(us, Begin(us, before), ms);
      |s.devices| == |us| && (s.calls == 1 ==> forall i :: 0 <= i < |us| ==> s.devices[i].remote == Some(us[i].content))
  {
    hide Next, Enabled, Do, Can, IsSaveRun, AfterAll;
    OneCompletion(us, before, ms);
    OnlyErrorsCutFiles(us, Begin(us, before), ms);
    BeginKeepsInv(us, before);
    EverySaveRun(us, before, Begin(us, before), ms);
    var s := AfterAll(us, Begin(us, before), ms);
    forall i | 0 <= i < |us| && s.calls == 1 ensures s.devices[i].remote == Some(us[i].content) {
      assert DeviceInv(us, before, s, i);
      assert s.devices[i].phase.Ended?;
    }
  }

  // ------------------------------------------------------------- what a run has done

  /** The events of device `i` in a run that begins with `submitted` files submitted. */
  function Own(i: nat, ms: seq<Move>, submitted: nat): seq<Event> {
    if ms == [] then []
    else match ms[0]
      case Submit(resolved) => (if i == submitted then [Event.Start(resolved)] else []) + Own(i, ms[1..], submitted + 1)
      case Advance(k, e) => (if k == i then [e] else []) + Own(i, ms[1..], submitted)
      case Report(_) => Own(i, ms[1..], submitted)
  }

  function Submits(ms: seq<Move>): nat {
    if ms == [] then 0 else (if ms[0].Submit? then 1 else 0) + Submits(ms[1..])
  }

  /** A save is nothing but its uploads and the countdown: every device has made exactly its own
      events, as an upload by itself; the files submitted are counted, and those that have
      reported are recorded. */
  lemma {:induction false} DevicesRun(us: seq<Upload>, s: Save, ms: seq<Move>, i: nat)
    requires |s.devices| == |us| && IsSaveRun(us, s, ms) && i < |us|
    ensures var t := AfterAll(us, s, ms);
      var es := Own(i, ms, s.submitted);
      && |t.devices| == |us|
      && IsRun(us[i], s.devices[i], es) && t.devices[i] == After(us[i], s.devices[i], es)
      && t.submitted == s.submitted + Submits(ms)
      && (i in t.ran <==> i in s.ran || Report(i) in ms)
    decreases |ms|
  {
    hide Next, Enabled;
    if ms != [] {
      DevicesRun(us, Do(us, s, ms[0]), ms[1..], i);
      assert Report(i) in ms <==> ms[0] == Report(i) || Report(i) in ms[1..];
      var later := Own(i, ms[1..], Do(us, s, ms[0]).submitted);
      assert [] + later == later;
      match ms[0] {
        case Submit(resolved) =>
          if i == s.submitted {
            assert Enabled(us[i], s.devices[i], Event.Start(resolved)) by { CanStart(us[i], s.devices[i], resolved); }
            Extended(us[i], s.devices[i], Event.Start(resolved), later);
          }
        case Advance(k, e) => if k == i { Extended(us[i], s.devices[i], e, later); }
        case Report(_) =>
      }
    }
  }

  lemma CanStart(u: Upload, s: State, resolved: bool)
    ensures Enabled(u, s, Event.Start(resolved))
  {}

  lemma Extended(u: Upload, s: State, e: Event, later: seq<Event>)
    requires Enabled(u, s, e) && IsRun(u, Next(u, s, e), later)
    ensures IsRun(u, s, [e] + later) && After(u, s, [e] + later) == After(u, Next(u, s, e), later)
  {
    hide Next, Enabled;
    assert ([e] + later)[1..] == later;
  }

  /** What a completion says of one file: it has been given up if and only if its host could not
      be resolved or one of its own connections, calls, waits or writes failed, and otherwise the
      remote file is its content. What happens to the other files makes no difference. */
  lemma EachFileByItself(us: seq<Upload>, before: seq<Option<string>>, ms: seq<Move>, i: nat)
    requires 0 < |us| == |before| <= SIZE_MAX && i < |us|
    requires IsSaveRun(us, Begin(us, before), ms)
    ensures var s := AfterAll(us, Begin(us, before), ms);
      var es := Own(i, ms, 0);
      && |s.devices| == |us|
      && (GivenUp(s.devices[i]) <==> es != [] && (es[0] == Event.Start(false) || exists e | e in es :: Fails(e)))
      && (s.calls == 1 && !GivenUp(s.devices[i]) ==> s.devices[i].remote == Some(us[i].content))
  {
    hide Next, Enabled, Do, Can, IsSaveRun, AfterAll, IsRun, After, Own, Fails;
    DevicesRun(us, Begin(us, before), ms, i);
    GivesUpIff(us[i], before[i], Own(i, ms, 0));
    OneCompletion(us, before, ms);
    BeginKeepsInv(us, before);
    EverySaveRun(us, before, Begin(us, before), ms);
    assert DeviceInv(us, before, AfterAll(us, Begin(us, before), ms), i);
  }

  function RankSum(us: seq<Upload>, devices: seq<State>): int
    requires |devices| == |us|
  {
    if us == [] then 0
    else RankSum(us[..|us| - 1], devices[..|us| - 1]) + Rank(us[|us| - 1], devices[|us| - 1].phase)
  }

  lemma {:induction false} RankSumUpdate(us: seq<Upload>, devices: seq<State>, i: nat, d: State)
    requires |devices| == |us| && i < |us|
    ensures RankSum(us, devices[i := d]) == RankSum(us, devices) - Rank(us[i], devices[i].phase) + Rank(us[i], d.phase)
  {
    hide Rank;
    var n := |us| - 1;
    if i < n {
      RankSumUpdate(us[..n], devices[..n], i, d);
      assert devices[i := d][..n] == devices[..n][i := d];
    } else {
      assert devices[i := d][..n] == devices[..n];
    }
  }

  lemma {:induction false} RankSumIsNatural(us: seq<Upload>, before: seq<Option<string>>, devices: seq<State>)
    requires |devices| == |us| == |before| && forall i :: 0 <= i < |us| ==> Inv(us[i], before[i], devices[i])
    ensures RankSum(us, devices) >= 0
  {
    hide Inv, Rank;
    if us != [] {
      var n := |us| - 1;
      RankSumIsNatural(us[..n], before[..n], devices[..n]);
      RankIsNatural(us[n], before[n], devices[n]);
    }
  }

  /** What is left to do: the uploads, the submissions and the reports. */
  function Left(us: seq<Upload>, s: Save): int
    requires |s.devices| == |us|
  {
    RankSum(us, s.devices) + (|us| - s.submitted) + (|us| - |s.ran|)
  }

  /** Moves that bring a save no further: those that bring an upload no further. */
  function Delays(ms: seq<Move>): nat {
    if ms == [] then 0 else (if ms[0].Advance? then Delay(ms[0].e) else 0) + Delays(ms[1..])
  }

  lemma MoveLowersRank(us: seq<Upload>, before: seq<Option<string>>, s: Save, m: Move)
    requires SaveInv(us, before, s) && Can(us, s, m)
    ensures 1 + Left(us, Do(us, s, m)) <= Left(us, s) + if m.Advance? then Delay(m.e) else 0
  {
    hide Inv, Next, Enabled, Rank, RankSum;
    match m
    case Submit(resolved) =>
      assert DeviceInv(us, before, s, s.submitted);
      StepLowersRank(us[s.submitted], before[s.submitted], s.devices[s.submitted], Event.Start(resolved));
      RankSumUpdate(us, s.devices, s.submitted, Do(us, s, m).devices[s.submitted]);
    case Advance(i, e) =>
      assert DeviceInv(us, before, s, i);
      StepLowersRank(us[i], before[i], s.devices[i], e);
      RankSumUpdate(us, s.devices, i, Do(us, s, m).devices[i]);
    case Report(i) =>
      assert |s.ran + {i}| == |s.ran| + 1;
  }

  /** Every run ends, if calls stop blocking: its length is bounded by the sizes of the files, the
      number of files, and the calls that would block. At rest it has called `handle_write`. */
  lemma {:induction false} SaveEnds(us: seq<Upload>, before: seq<Option<string>>, s: Save, ms: seq<Move>)
    requires SaveInv(us, before, s) && IsSaveRun(us, s, ms)
    ensures |AfterAll(us, s, ms).devices| == |us|
    ensures |ms| + Left(us, AfterAll(us, s, ms)) <= Left(us, s) + Delays(ms)
    ensures Left(us, AfterAll(us, s, ms)) >= 0
    decreases |ms|
  {
    hide SaveInv, Do, Can, Left, Delay;
    HasAllDevices(us, before, s);
    if ms == [] {
      LeftIsNatural(us, before, s);
    } else {
      StepKeepsSaveInv(us, before, s, ms[0]);
      MoveLowersRank(us, before, s, ms[0]);
      SaveEnds(us, before, Do(us, s, ms[0]), ms[1..]);
    }
  }

  lemma LeftIsNatural(us: seq<Upload>, before: seq<Option<string>>, s: Save)
    requires SaveInv(us, before, s)
    ensures Left(us, s) >= 0
  {
    hide Inv, Rank, RankSum;
    forall i | 0 <= i < |us| ensures Inv(us[i], before[i], s.devices[i]) { assert DeviceInv(us, before, s, i); }
    RankSumIsNatural(us, before, s.devices);
    AtMost(s.ran, |us|);
  }

  // ------------------------------------------------------------- the saver

  /** The shared counter with the callback that lowers it; `calls` is what `handle_write` has
      seen. */
  class Countdown {
    var remainingWrites: nat
    ghost var calls: nat

    constructor (n: nat)
      requires n <= SIZE_MAX
      ensures remainingWrites == n && calls == 0
    {
      remainingWrites, calls := n, 0;
    }

    method Report(us: seq<Upload>, ghost s: Save, ghost i: nat)
      requires |s.devices| == |us| && Can(us, s, Move.Report(i))
      requires remainingWrites == s.remaining && calls == s.calls
      modifies this
      ensures remainingWrites == Do(us, s, Move.Report(i)).remaining && calls == Do(us, s, Move.Report(i)).calls
    {
      remainingWrites := if remainingWrites == 0 then SIZE_MAX else remainingWrites - 1;
      if remainingWrites <= 0 { calls := calls + 1; }
    }
  }

  /** The remote path of one file below the path of the URL. */
  function FullPath(base: string, file: string): (r: string)
    ensures |r| >= |file| && r[|r| - |file|..] == file
    ensures base <= r
    ensures |r| == |base| + |file| + if base != "" && base[|base| - 1] != '/' then 1 else 0
    ensures base != "" ==> |r| > |file| && r[|r| - |file| - 1] == '/'
  {
    if base != "" && base[|base| - 1] != '/' then base + "/" + file else base + file
  }

  /** What `SaveASync` refuses, posting the completion itself. */
  predicate Refused(data: Option<(seq<string>, seq<string>)>) {
    data == None || data.value.0 == [] || |data.value.0| != |data.value.1|
  }

  /** The variables `SaveASync` hands to the URL parser. */
  const NO_PARTS: SftpUrl.Parts := SftpUrl.Parts("", "", "", "", "", "", "")

  /** What is uploaded for file `i`. */
  function UploadOf(url: string, file: string, content: string, report: bool): Upload {
    var p := SftpUrl.Parse(url, NO_PARTS).1;
    Upload(p.user, p.host, FullPath(p.path, file), content, report)
  }

  /** `SaveASync`, up to the end of its loop, with nothing else running in between: a refused
      call posts one completion, any other creates and starts one device per file. Whether the
      URL could be parsed is not looked at. */
  method SaveASync(url: string, data: Option<(seq<string>, seq<string>)>, report: bool,
                   resolves: nat -> bool, ghost before: nat -> Option<string>)
    returns (posted: bool, devices: seq<SFTPUploadDevice>, count: Countdown?)
    requires data.Some? ==> |data.value.0| <= SIZE_MAX
    ensures posted <==> Refused(data)
    ensures posted ==> devices == [] && count == null
    ensures !posted ==> count != null && count.remainingWrites == |devices| == |data.value.0| && count.calls == 0
    ensures !posted ==> forall i :: 0 <= i < |devices| ==>
        && devices[i].upload == UploadOf(url, data.value.0[i], data.value.1[i], report)
        && devices[i].Agrees(Next(devices[i].upload, Fresh(before(i)), Event.Start(resolves(i))))
  {
    hide SftpUrl.Parse, Next;
    devices, count := [], null;
    if data == None || data.value.0 == [] { return true, devices, count; }
    var (filePaths, fileContents) := data.value;
    if |filePaths| != |fileContents| { return true, devices, count; }
    posted := false;
    var parsed, parts := SftpUrl.ParseSFTPUrl(url, NO_PARTS);
    count := new Countdown(|filePaths|);
    var i := 0;
    while i < |filePaths|
      invariant i <= |filePaths| && |devices| == i
      invariant fresh(count) && count.remainingWrites == |filePaths| && count.calls == 0
      invariant forall k :: 0 <= k < i ==>
          && fresh(devices[k])
          && devices[k].upload == UploadOf(url, filePaths[k], fileContents[k], report)
          && devices[k].Agrees(Next(devices[k].upload, Fresh(before(k)), Event.Start(resolves(k))))
    {
      var fullFilePath := parts.path;
      if fullFilePath != "" && fullFilePath[|fullFilePath| - 1] != '/' {
        fullFilePath := fullFilePath + "/";
      }
      fullFilePath := fullFilePath + filePaths[i];
      var uploadDevice := new SFTPUploadDevice(Upload(parts.user, parts.host, fullFilePath, fileContents[i], report), before(i));
      uploadDevice.StartSFTPUpload(resolves(i), Fresh(before(i)));
      devices := devices + [uploadDevice];
      i := i + 1;
    }
  }

  /** For a URL that names a user, a host and a path, the upload goes to that host as that user,
      with the file's own content, to the file's name behind the path. */
  lemma UploadIsOfUrl(user: string, host: string, path: string, file: string, content: string, report: bool)
    requires SftpUrl.PlainUser(user) && SftpUrl.IsPlace(host, path)
    ensures var u := UploadOf(user + "@" + (host + path), file, content, report);
      && u.user == user && u.host == host && u.content == content && u.report == report
      && u.path == path + (if path[|path| - 1] == '/' then "" else "/") + file
  {
    hide SftpUrl.Parse;
    SftpUrl.UserFormIsRead(user, host, path, NO_PARTS);
    assert path + "" + file == path + file;
  }

  // ------------------------------------------------------------- the reported location

  /** The location an upload reports for a file of an accepted URL can be read again: it is an
      SFTP URL with the same user and host and the path of that file. */
  lemma LocationIsReadable(url: string, file: string, content: string, later: SftpUrl.Parts)
    requires SftpUrl.Parse(url, NO_PARTS).0
    ensures var u := UploadOf(url, file, content, true);
      var location := Location(u).value;
      && Find(location, "://") == 4 && location[..4] == "sftp"
      && SftpUrl.Parse(location[7..], later) == (true, SftpUrl.Parts(u.host, u.path, u.user, "", "", "", ""))
  {
    hide SftpUrl.Parse, Find, OccursAt;
    SftpUrl.AcceptedParts(url, NO_PARTS);
    var p := SftpUrl.Parse(url, NO_PARTS).1;
    var path := FullPath(p.path, file);
    assert path[..|p.path|][0] == path[0];
    SftpUrl.UserFormIsRead(p.user, p.host, path, later);
    SftpUrl.SchemeIsRead(p.user + "@" + (p.host + path));
    Joined(p.user, p.host, path);
  }

  lemma Joined(user: string, host: string, path: string)
    ensures "sftp://" + user + "@" + host + path == "sftp://" + (user + "@" + (host + path))
  {
    Assoc("sftp://", user, "@");
    Assoc("sftp://" + user + "@", host, path);
    Assoc("sftp://", user + "@", host + path);
  }
}
