/** Saving files to the local disk: a loop that starts one asynchronous write per file, and
    write handlers that lower a shared counter. The handlers may run between any two turns of
    the loop, on other threads of the event loop. */
module MnnSaver {

  import opened Counting

  /** One turn of the loop: the directories cannot be made (an exception), the file cannot be
      opened, or its write is started. */
  datatype Turn = DirectoryFails | OpenFails | Started

  datatype Loop = At(i: nat) | Threw(i: nat) | GaveUp(i: nat) | Finished

  /** `inFlight` and `written` are the files whose write is started and reported; `posted`
      counts completions handed to the event loop, `calls` calls of `handle_write`. */
  datatype State = State(loop: Loop, remaining: nat, inFlight: set<nat>, written: set<nat>, posted: nat, calls: nat)

  datatype Move = Take(turn: Turn) | End | Report(i: nat) | RunPosted

  function Begin(n: nat): State { State(At(0), n, {}, {}, 0, 0) }

  predicate Can(n: nat, s: State, m: Move) {
    match m
    case Take(_) => s.loop.At? && s.loop.i < n
    case End => s.loop.At? && s.loop.i >= n
    case Report(i) => i in s.inFlight
    case RunPosted => s.posted > 0
  }

  function Next(n: nat, s: State, m: Move): State
    requires Can(n, s, m)
  {
    match m
    case Take(turn) => (
      var i := s.loop.i;
      match turn
      case DirectoryFails => s.(loop := Threw(i))
      case OpenFails => s.(loop := GaveUp(i), posted := s.posted + 1)
      case Started => s.(loop := At(i + 1), inFlight := s.inFlight + {i}))
    case End => s.(loop := Finished)
    case Report(i) =>
      var left := Decremented(s.remaining);
      s.(inFlight := s.inFlight - {i}, written := s.written + {i}, remaining := left,
         calls := s.calls + if left <= 0 then 1 else 0)
    case RunPosted => s.(posted := s.posted - 1, calls := s.calls + 1)
  }

  /** How many files the loop has started. */
  function Begun(n: nat, loop: Loop): nat {
    match loop case At(i) => i case Threw(i) => i case GaveUp(i) => i case Finished => n
  }

  predicate Inv(n: nat, s: State) {
    var b := Begun(n, s.loop);
    && b <= n
    && (s.loop.Threw? || s.loop.GaveUp? ==> b < n)
    && (forall k <- s.inFlight :: k < b && k !in s.written)
    && (forall k <- s.written :: k < b)
    && |s.inFlight| + |s.written| == b
    && s.remaining + |s.written| == n
    && s.posted + s.calls == (if s.loop.GaveUp? || (n > 0 && s.remaining == 0) then 1 else 0)
    && (!s.loop.GaveUp? ==> s.posted == 0)
  }

  lemma StepKeepsInv(n: nat, s: State, m: Move)
    requires n <= SIZE_MAX && Inv(n, s) && Can(n, s, m)
    ensures Inv(n, Next(n, s, m))
  {
    match m
    case Report(i) =>
      assert |s.inFlight - {i}| == |s.inFlight| - 1;
      assert |s.written + {i}| == |s.written| + 1;
    case Take(turn) =>
      if turn == Started { assert |s.inFlight + {s.loop.i}| == |s.inFlight| + 1; }
    case _ =>
  }

  ghost predicate IsRun(n: nat, s: State, ms: seq<Move>)
    decreases |ms|
  {
    ms == [] || (Can(n, s, ms[0]) && IsRun(n, Next(n, s, ms[0]), ms[1..]))
  }

  ghost function After(n: nat, s: State, ms: seq<Move>): State
    requires IsRun(n, s, ms)
    decreases |ms|
  {
    if ms == [] then s else After(n, Next(n, s, ms[0]), ms[1..])
  }

  lemma {:induction false} EveryRun(n: nat, s: State, ms: seq<Move>)
    requires n <= SIZE_MAX && Inv(n, s) && IsRun(n, s, ms)
    ensures Inv(n, After(n, s, ms))
    decreases |ms|
  {
    hide Inv;
    if ms != [] {
      StepKeepsInv(n, s, ms[0]);
      EveryRun(n, Next(n, s, ms[0]), ms[1..]);
    }
  }

  /** Nothing is left to happen. */
  predicate AtRest(n: nat, s: State) {
    !s.loop.At? && s.inFlight == {} && s.posted == 0
  }

  lemma RestMeansStuck(n: nat, s: State)
    ensures AtRest(n, s) <==> forall m: Move :: !Can(n, s, m)
  {
    if !AtRest(n, s) {
      if s.loop.At? {
        assert Can(n, s, if s.loop.i < n then Take(Started) else End);
      } else if s.inFlight != {} {
        var i :| i in s.inFlight;
        assert Can(n, s, Report(i));
      } else {
        assert Can(n, s, RunPosted);
      }
    }
  }

  /** At least one file, as many contents as paths, any interleaving of handlers with the loop,
      any failure at any file: `handle_write` is called at most once and never after an
      exception; a run that has come to rest has called it once or thrown; without a failed
      open it is called only after every write has reported; the counter never wraps. */
  lemma OneCompletion(n: nat, ms: seq<Move>)
    requires 0 < n <= SIZE_MAX && IsRun(n, Begin(n), ms)
    ensures var s := After(n, Begin(n), ms);
      && s.calls <= 1 && s.remaining <= n
      && (s.loop.Threw? ==> s.calls == 0 && s.posted == 0)
      && (AtRest(n, s) ==> s.calls == if s.loop.Threw? then 0 else 1)
      && (s.calls == 1 && !s.loop.GaveUp? ==> s.inFlight == {} && forall k: nat :: k < n ==> k in s.written)
  {
    hide IsRun, After;
    EveryRun(n, Begin(n), ms);
    var s := After(n, Begin(n), ms);
    if s.remaining == 0 { AtMost(s.written, n); }
  }

  /** With no paths, but contents, nothing is ever called back. */
  lemma NoPathsNoCompletion(ms: seq<Move>)
    requires IsRun(0, Begin(0), ms)
    ensures After(0, Begin(0), ms).calls == 0
  {
    hide IsRun, After;
    EveryRun(0, Begin(0), ms);
  }

  /** The run ends with `handle_write` called, after a failed open of file `i`, while a write is
      still in flight. */
  ghost predicate Early(n: nat, i: nat, ms: seq<Move>) {
    IsRun(n, Begin(n), ms) &&
    var s := After(n, Begin(n), ms); s.loop == GaveUp(i) && s.calls == 1 && s.inFlight != {}
  }

  /** Start `k` writes, fail to open the next file, let the posted completion run. */
  function EarlyRun(k: nat): seq<Move> { seq(k, _ => Take(Started)) + [Take(OpenFails), RunPosted] }

  function Below(k: nat): set<nat> { if k == 0 then {} else Below(k - 1) + {k - 1} }

  lemma {:induction false} StartedRun(n: nat, k: nat)
    requires k <= n
    ensures var ms := seq(k, _ => Take(Started));
      && IsRun(n, Begin(n), ms)
      && After(n, Begin(n), ms) == State(At(k), n, Below(k), {}, 0, 0)
  {
    var ms := seq(k, _ => Take(Started));
    if k == 0 {
      assert ms == [];
    } else {
      StartedRun(n, k - 1);
      var init: seq<Move> := seq(k - 1, _ => Take(Started));
      assert ms == init + [Take(Started)];
      RunExtends(n, Begin(n), init, Take(Started));
    }
  }

  lemma EarlyMeans(n: nat, i: nat, ms: seq<Move>)
    requires n <= SIZE_MAX && Early(n, i, ms)
    ensures 0 < i < n
  {
    hide IsRun, After;
    EveryRun(n, Begin(n), ms);
  }

  /** The completion can come before a write has ended exactly by a failed open of some file
      after the first: for every number of files and every index of the failing one. */
  lemma EarlyCompletionIff(n: nat, i: nat)
    requires n <= SIZE_MAX
    ensures (exists ms :: Early(n, i, ms)) <==> 0 < i < n
  {
    hide Early;
    if 0 < i < n { EarlyRunIsEarly(n, i); }
    forall ms | Early(n, i, ms) ensures 0 < i < n { EarlyMeans(n, i, ms); }
  }

  /** Without a failed open it comes when every write has ended. */
  lemma CompletionIsLast(n: nat, ms: seq<Move>)
    requires n <= SIZE_MAX && IsRun(n, Begin(n), ms)
    ensures var s := After(n, Begin(n), ms); s.calls > 0 && !s.loop.GaveUp? ==> s.inFlight == {}
  {
    hide IsRun, After;
    EveryRun(n, Begin(n), ms);
    if n > 0 { OneCompletion(n, ms); }
  }

  lemma EarlyRunIsEarly(n: nat, i: nat)
    requires 0 < i < n
    ensures Early(n, i, EarlyRun(i))
  {
    hide IsRun, After;
    var ms: seq<Move> := seq(i, _ => Take(Started));
    StartedRun(n, i);
    RunExtends(n, Begin(n), ms, Take(OpenFails));
    RunExtends(n, Begin(n), ms + [Take(OpenFails)], RunPosted);
    assert ms + [Take(OpenFails)] + [RunPosted] == EarlyRun(i);
    assert i - 1 in After(n, Begin(n), EarlyRun(i)).inFlight;
  }

  function Writes(ms: seq<Move>): nat {
    if ms == [] then 0 else (if ms[0] == Take(Started) then 1 else 0) + Writes(ms[1..])
  }

  lemma StepTells(n: nat, s: State, m: Move)
    requires Inv(n, s) && Can(n, s, m)
    ensures var t := Next(n, s, m);
      && (t.loop.Threw? <==> s.loop.Threw? || m == Take(DirectoryFails))
      && (t.loop.GaveUp? <==> s.loop.GaveUp? || m == Take(OpenFails))
      && (t.loop.Finished? <==> s.loop.Finished? || m == End)
      && Begun(n, t.loop) == Begun(n, s.loop) + (if m == Take(Started) then 1 else 0)
      && forall i :: i in t.written <==> i in s.written || m == Report(i)
  {}

  lemma {:induction false} RunTells(n: nat, s: State, ms: seq<Move>)
    requires n <= SIZE_MAX && Inv(n, s) && IsRun(n, s, ms)
    ensures var t := After(n, s, ms);
      && (t.loop.Threw? <==> s.loop.Threw? || Take(DirectoryFails) in ms)
      && (t.loop.GaveUp? <==> s.loop.GaveUp? || Take(OpenFails) in ms)
      && (t.loop.Finished? <==> s.loop.Finished? || End in ms)
      && Begun(n, t.loop) == Begun(n, s.loop) + Writes(ms)
      && forall i :: i in t.written <==> i in s.written || Report(i) in ms
    decreases |ms|
  {
    hide Inv, Next, Begun;
    if ms != [] {
      StepTells(n, s, ms[0]);
      StepKeepsInv(n, s, ms[0]);
      RunTells(n, Next(n, s, ms[0]), ms[1..]);
      assert ms == [ms[0]] + ms[1..];
    }
  }

  /** Which failure does what, in every run over at least one file: the loop throws exactly if the
      directories of some file could not be made; it gives up, and the completion is posted or
      called, exactly if some file could not be opened; it runs to its end otherwise. The files
      written are those whose handler has run, and the first `Writes` of the files are written or
      in flight. */
  lemma FailuresMean(n: nat, ms: seq<Move>)
    requires 0 < n <= SIZE_MAX && IsRun(n, Begin(n), ms)
    ensures var s := After(n, Begin(n), ms);
      && (s.loop.Threw? <==> Take(DirectoryFails) in ms)
      && (s.loop.GaveUp? <==> Take(OpenFails) in ms)
      && (s.loop.Finished? <==> End in ms)
      && (Take(OpenFails) in ms ==> s.posted + s.calls == 1)
      && (forall i :: i in s.written <==> Report(i) in ms)
      && (forall i: nat :: i < Writes(ms) <==> i in s.inFlight || i in s.written)
  {
    hide IsRun, After;
    EveryRun(n, Begin(n), ms);
    RunTells(n, Begin(n), ms);
    var s := After(n, Begin(n), ms);
    assert |s.inFlight + s.written| == |s.inFlight| + |s.written| by { assert s.inFlight !! s.written; }
    AtMost(s.inFlight + s.written, Writes(ms));
  }

  /** Steps left: two for every file still to be started, one for every write in flight, for the
      end of the loop and for a posted completion. */
  function Rank(n: nat, s: State): int {
    (match s.loop case At(i) => 2 * (n - i) + 1 case _ => 0) + |s.inFlight| + s.posted
  }

  /** Every run ends: it is no longer than two steps a file and one more. */
  lemma {:induction false} RunsEnd(n: nat, s: State, ms: seq<Move>)
    requires n <= SIZE_MAX && Inv(n, s) && IsRun(n, s, ms)
    ensures |ms| + Rank(n, After(n, s, ms)) <= Rank(n, s)
    ensures Rank(n, After(n, s, ms)) >= 0 && Rank(n, Begin(n)) == 2 * n + 1
    decreases |ms|
  {
    hide Inv, Next, Rank;
    if ms != [] {
      StepKeepsInv(n, s, ms[0]);
      StepLowersRank(n, s, ms[0]);
      RunsEnd(n, Next(n, s, ms[0]), ms[1..]);
    } else {
      RankIsNatural(n, s);
    }
  }

  lemma RankIsNatural(n: nat, s: State)
    requires Inv(n, s)
    ensures Rank(n, s) >= 0 && Rank(n, Begin(n)) == 2 * n + 1
  {}

  lemma StepLowersRank(n: nat, s: State, m: Move)
    requires Inv(n, s) && Can(n, s, m)
    ensures Rank(n, Next(n, s, m)) < Rank(n, s)
  {
    match m
    case Report(i) => assert |s.inFlight - {i}| == |s.inFlight| - 1;
    case Take(turn) => if turn == Started { assert |s.inFlight + {s.loop.i}| == |s.inFlight| + 1; }
    case _ =>
  }

  // ------------------------------------------------------------- the saver

  class Save {
    var remainingWrites: nat
    var started: nat
    ghost var posted: nat
    ghost var calls: nat

    constructor ()
      ensures remainingWrites == 0 && started == 0 && posted == 0 && calls == 0
    {
      remainingWrites, started, posted, calls := 0, 0, 0, 0;
    }

    ghost predicate Agrees(n: nat, s: State)
      reads this
    {
      && remainingWrites == s.remaining && posted == s.posted && calls == s.calls
      && started == Begun(n, s.loop)
    }

    /** `SaveASync` with nothing running in between: the state it ends in is reached from the
        start by one turn per file until a turn fails. */
    method SaveASync(contents: nat, n: nat, turns: nat -> Turn) returns (threw: bool, ghost ms: seq<Move>)
      requires n <= SIZE_MAX
      modifies this
      ensures contents == 0 ==> threw && ms == [] && unchanged(this)
      ensures contents > 0 ==> IsRun(n, Begin(n), ms) && Agrees(n, After(n, Begin(n), ms))
      ensures contents > 0 ==> !After(n, Begin(n), ms).loop.At? && (threw <==> After(n, Begin(n), ms).loop.Threw?)
      ensures contents > 0 ==> forall k :: 0 <= k < |ms| && k < n ==> ms[k] == Take(turns(k))
    {
      ms, threw := [], false;
      if contents == 0 { return true, []; }
      remainingWrites, started, posted, calls := n, 0, 0, 0;
      ghost var s := Begin(n);
      while started < n
        invariant started <= n && |ms| == started
        invariant IsRun(n, Begin(n), ms) && After(n, Begin(n), ms) == s
        invariant Agrees(n, s) && s.loop == At(started)
        invariant forall k :: 0 <= k < |ms| ==> ms[k] == Take(turns(k))
        decreases n - started
      {
        var turn := turns(started);
        RunExtends(n, Begin(n), ms, Take(turn));
        ms := ms + [Take(turn)];
        s := Next(n, s, Take(turn));
        if turn == DirectoryFails {
          threw := true;
          return;
        }
        if turn == OpenFails {
          posted := posted + 1;
          return;
        }
        started := started + 1;
      }
      RunExtends(n, Begin(n), ms, End);
      ms := ms + [End];
    }

    /** The handler of one write. */
    method Written(n: nat, ghost s: State, ghost i: nat)
      requires Agrees(n, s) && Can(n, s, Report(i))
      modifies this
      ensures Agrees(n, Next(n, s, Report(i)))
    {
      remainingWrites := if remainingWrites == 0 then SIZE_MAX else remainingWrites - 1;
      if remainingWrites <= 0 { calls := calls + 1; }
    }
  }

  lemma {:induction false} RunExtends(n: nat, s: State, ms: seq<Move>, m: Move)
    requires IsRun(n, s, ms) && Can(n, After(n, s, ms), m)
    ensures IsRun(n, s, ms + [m]) && After(n, s, ms + [m]) == Next(n, After(n, s, ms), m)
    decreases |ms|
  {
    if ms == [] {
      var t := Next(n, s, m);
      assert [m][1..] == [];
      assert IsRun(n, t, []) && After(n, t, []) == t;
    } else {
      assert (ms + [m])[1..] == ms[1..] + [m];
      RunExtends(n, Next(n, s, ms[0]), ms[1..], m);
    }
  }
}
