/** When the multipart parser gives up: the receiver refuses a call, or a header line is too long.
    Nothing is called after a refusal. */
module MultipartRefusals {
  import opened MultipartSpec
  import opened Text

  /** The receiver has accepted every call from number `from` on. */
  ghost predicate AllAccepted(log: seq<Event>, from: nat, accepts: Receiver) {
    forall k :: from <= k < |log| ==> accepts(log[..k], log[k])
  }

  /** The last call was refused, and none before it since `from`. */
  ghost predicate LastRefused(log: seq<Event>, from: nat, accepts: Receiver) {
    && |log| > from && AllAccepted(log[..|log| - 1], from, accepts)
    && !accepts(log[..|log| - 1], log[|log| - 1])
  }

  /** The calls since `log` have been accepted, or the last of them was refused, and then the
      parse has failed and the parser is not valid. */
  ghost predicate Heeded(log: seq<Event>, t: State, ok: bool, accepts: Receiver) {
    && log <= t.log
    && if AllAccepted(t.log, |log|, accepts) then true
       else LastRefused(t.log, |log|, accepts) && !ok && !t.valid
  }

  ghost predicate HeededTurn(log: seq<Event>, o: Outcome, accepts: Receiver) {
    match o
    case Go(n) => log <= n.log && AllAccepted(n.log, |log|, accepts)
    case Stop(l, ok) => Heeded(log, l, ok, accepts)
  }

  lemma CallHeeds(s: State, e: Event, accepts: Receiver, next: State)
    ensures HeededTurn(s.log, Call(s, e, accepts, next), accepts)
  {
    var log := s.log + [e];
    assert log[..|log| - 1] == s.log;
  }

  lemma {:induction false} LoopHeeds(s: State, accepts: Receiver)
    ensures HeededTurn(s.log, HeaderLoop(s, accepts), accepts)
    decreases |s.held|
  {
    hide HeaderLine, HeededTurn, Call;
    var pos := Find(s.held, CRLF);
    if pos == |s.held| {
      NoCall(s, s, true, accepts);
    } else if pos == 0 {
      CallHeeds(s, Header(s.file), accepts, s.(held := s.held[2..], stage := 3));
    } else {
      var (ok, file) := HeaderLine(s.file, s.held[..pos]);
      if ok {
        LoopHeeds(s.(file := file, held := s.held[pos + 2..]), accepts);
      } else {
        NoCall(s, s.(valid := false, file := file), false, accepts);
      }
    }
  }

  lemma NoCall(s: State, l: State, ok: bool, accepts: Receiver)
    requires l.log == s.log
    ensures HeededTurn(s.log, Stop(l, ok), accepts)
  {}

  lemma StepHeeds(b: string, s: State, accepts: Receiver)
    requires s.held != ""
    ensures HeededTurn(s.log, Step(b, s, accepts), accepts)
  {
    hide HeaderLoop, Find, StartsWith;
    if s.stage == 2 {
      LoopHeeds(s, accepts);
    } else if s.stage == 3 {
      BodyHeeds(b, s, accepts);
    }
  }

  lemma BodyHeeds(b: string, s: State, accepts: Receiver)
    ensures HeededTurn(s.log, StepBody(b, s, accepts), accepts)
  {
    hide Find;
    var d := |Delimiter(b)|;
    if d <= |s.held| {
      var pos := Find(s.held, Delimiter(b));
      if pos < |s.held| {
        assert OccursAt(s.held, Delimiter(b), pos);
        CallHeeds(s, Content(s.held[..pos]), accepts, s.(held := s.held[pos + d..], stage := 4));
      } else {
        var len := |s.held| - d;
        CallHeeds(s, Content(s.held[..len]), accepts, s.(held := s.held[len..]));
      }
    }
  }

  lemma HeededOnward(log: seq<Event>, mid: seq<Event>, t: State, ok: bool, accepts: Receiver)
    requires log <= mid && AllAccepted(mid, |log|, accepts) && Heeded(mid, t, ok, accepts)
    ensures Heeded(log, t, ok, accepts)
  {
    assert forall k :: 0 <= k < |mid| ==> t.log[..k] == mid[..k] && t.log[k] == mid[k];
    var n := |t.log| - 1;
    if !AllAccepted(t.log, |mid|, accepts) {
      assert forall k :: 0 <= k < n ==> t.log[..n][..k] == t.log[..k];
      assert !accepts(t.log[..n], t.log[n]);
    }
  }

  lemma {:induction false} RunHeeds(b: string, s: State, accepts: Receiver)
    ensures Heeded(s.log, Run(b, s, accepts).0, Run(b, s, accepts).1, accepts)
    decreases Measure(s)
  {
    if s.held != "" {
      StepHeeds(b, s, accepts);
      var o := Step(b, s, accepts);
      hide Step, Heeded, AllAccepted;
      if o.Go? {
        RunHeeds(b, o.next, accepts);
        HeededOnward(s.log, o.next.log, Run(b, o.next, accepts).0, Run(b, o.next, accepts).1, accepts);
      }
    }
  }

  /** Over any text in any chunks: every call has been accepted, except that the last one may have
      been refused, and then the parse has failed and the parser is not valid. */
  lemma {:induction false} NothingAfterRefusal(b: string, s: State, chunks: seq<string>, accepts: Receiver)
    ensures var (t, ok) := ParseAll(b, s, chunks, accepts);
      && s.log <= t.log
      && (AllAccepted(t.log, |s.log|, accepts) || (LastRefused(t.log, |s.log|, accepts) && !ok && !t.valid))
    decreases |chunks|
  {
    if chunks != [] {
      var (n, ok) := Parse(b, s, chunks[0], accepts);
      RunHeeds(b, s.(held := s.held + chunks[0]), accepts);
      if ok {
        NothingAfterRefusal(b, n, chunks[1..], accepts);
        var (t, rest) := ParseAll(b, n, chunks[1..], accepts);
        HeededOnward(s.log, n.log, t, rest, accepts);
      }
    }
  }

  /** A first header line with no end among the first 8192 bytes held is refused as soon as more
      bytes than that are there, and nothing is called. */
  lemma LongLineIsRefused(b: string, s: State, chunk: string, accepts: Receiver)
    requires s.stage == 2 && |s.held + chunk| > 8192
    requires forall j :: 0 <= j <= 8192 ==> !OccursAt(s.held + chunk, CRLF, j)
    ensures Parse(b, s, chunk, accepts) == (s.(held := s.held + chunk), false)
  {
    hide OccursAt;
    var h := s.held + chunk;
    assert Find(h, CRLF) > 8192;
  }

  function Joined(chunks: seq<string>): string { if chunks == [] then "" else chunks[0] + Joined(chunks[1..]) }

  /** Two bytes behind a boundary that are neither a line break nor `--` are not refused, but
      nothing comes of what follows: the parser keeps it all and calls nothing, however much
      arrives and however it is cut. */
  lemma {:induction false} StrayBytesStall(b: string, s: State, chunks: seq<string>, accepts: Receiver)
    requires s.stage == 4 && |s.held| >= 2 && !StartsWith(s.held, CRLF) && !StartsWith(s.held, "--")
    ensures ParseAll(b, s, chunks, accepts) == (s.(held := s.held + Joined(chunks)), true)
    decreases |chunks|
  {
    if chunks == [] {
      assert s.held + "" == s.held;
    } else {
      var t := s.(held := s.held + chunks[0]);
      assert t.held[..2] == s.held[..2];
      assert Step(b, t, accepts) == Stop(t, true);
      assert Parse(b, s, chunks[0], accepts) == (t, true);
      StrayBytesStall(b, t, chunks[1..], accepts);
      Assoc(s.held, chunks[0], Joined(chunks[1..]));
    }
  }
}
