/** `write_content_chunked` without a compressor: a sink handed to the user's provider, which
    may write pieces, report the end, or stop the transfer in other ways. */
module ChunkedWriter {
  import opened Text
  import opened Chunked
  import opened Wrappers

  /** The environment: writes are partial, `is_writable` and `write` may fail. `dropped` counts
      the bytes that callers who do not look at the result of `write` have lost. */
  class OutStream {
    var written: string
    var failed: bool
    ghost var dropped: nat

    constructor ()
      ensures written == "" && !failed && dropped == 0
    {
      written, failed, dropped := "", false, 0;
    }

    method IsWritable() returns (ok: bool)
      modifies this`failed
      ensures !ok ==> failed
      ensures ok ==> failed == old(failed)
      ensures old(failed) ==> failed
    {
      ok := true;
      if * {
        ok, failed := false, true;
      }
    }

    method Write(d: string) returns (n: int)
      requires d != ""
      modifies this`written, this`failed
      ensures n < 0 ==> written == old(written) && failed
      ensures n >= 0 ==> 0 < n <= |d| && written == old(written) + d[..n] && failed == old(failed)
      ensures old(failed) ==> failed
    {
      if * {
        failed := true;
        return -1;
      }
      var k: nat :| 1 <= k <= |d|;
      written := written + d[..k];
      n := k;
    }

    /** A write whose result nobody looks at. */
    method WriteOnce(d: string)
      modifies this
      ensures |written| + dropped == old(|written| + dropped) + |d|
      ensures old(written) <= written && old(dropped) <= dropped
      ensures dropped == old(dropped) ==> written == old(written) + d
      ensures old(failed) ==> failed
      ensures failed && !old(failed) ==> dropped == old(dropped) + |d|
    {
      if d == "" {
        assert written + d == written;
        return;
      }
      var n := Write(d);
      dropped := dropped + if n < 0 then |d| else |d| - n;
      assert d[..|d|] == d;
    }
  }

  /** `write_data`: the loop over partial writes. */
  method WriteData(strm: OutStream, d: string) returns (ok: bool)
    modifies strm`written, strm`failed
    ensures ok ==> strm.written == old(strm.written) + d && strm.failed == old(strm.failed)
    ensures !ok ==> strm.failed
    ensures old(strm.failed) ==> strm.failed
  {
    var offset := 0;
    assert d[..0] == "";
    while offset < |d|
      invariant offset <= |d| && strm.failed == old(strm.failed)
      invariant strm.written == old(strm.written) + d[..offset]
    {
      var length := strm.Write(d[offset..]);
      if length < 0 { return false; }
      WroteMore(old(strm.written), d, offset, length);
      offset := offset + length;
    }
    assert d[..offset] == d;
    ok := true;
  }

  lemma WroteMore(before: string, d: string, offset: nat, length: nat)
    requires offset + length <= |d|
    ensures before + d[..offset] + d[offset..][..length] == before + d[..offset + length]
  {
    assert d[..offset] + d[offset..][..length] == d[..offset + length];
    Assoc(before, d[..offset], d[offset..][..length]);
  }

  /** What a provider may do with the sink, and one call of the provider. */
  datatype SinkCall = Write(data: string) | Done(trailers: Headers)
  datatype Turn = Turn(calls: seq<SinkCall>, goOn: bool)

  datatype Error = Success | Canceled | WriteError

  /** Bytes a sink call puts on the stream while no write fails. */
  function Emits(call: SinkCall): string {
    match call
    case Write(d) => if d == "" then "" else Chunk(d)
    case Done(trailers) => End(trailers)
  }

  function EmitsAll(calls: seq<SinkCall>): string
    decreases |calls|
  {
    if calls == [] then "" else EmitsAll(calls[..|calls| - 1]) + Emits(calls[|calls| - 1])
  }

  /** The flag after some calls: an empty write clears it, and so does the end; a later
      non-empty write sets it again. */
  function StillAvailable(calls: seq<SinkCall>, available: bool): bool {
    if calls == [] then available
    else match calls[|calls| - 1]
      case Write(d) => d != ""
      case Done(_) => false
  }

  /** The provider's calls the writer gets to see: it stops asking when the data ends, when
      the provider gives up, or when `turns` is exhausted, which is the shutdown. */
  function Performed(turns: seq<Turn>): seq<SinkCall> {
    if turns == [] then []
    else turns[0].calls
         + if turns[0].goOn && StillAvailable(turns[0].calls, true) then Performed(turns[1..]) else []
  }

  function Verdict(turns: seq<Turn>): Error {
    if turns == [] then Success
    else if !turns[0].goOn then Canceled
    else if StillAvailable(turns[0].calls, true) then Verdict(turns[1..]) else Success
  }

  class DataSink {
    const strm: OutStream
    var dataAvailable: bool
    var ok: bool
    var offset: nat

    constructor (strm: OutStream)
      ensures this.strm == strm && dataAvailable && ok && offset == 0
    {
      this.strm := strm;
      dataAvailable, ok, offset := true, true, 0;
    }

    method Write(d: string) returns (r: bool)
      modifies this, strm
      ensures old(strm.failed) ==> strm.failed
      ensures old(ok) && !strm.failed ==> ok && strm.written == old(strm.written) + Emits(SinkCall.Write(d))
      ensures old(ok) ==> dataAvailable == (d != "")
      ensures !old(ok) ==> !ok && strm.written == old(strm.written)
      ensures ok ==> strm.failed == old(strm.failed)
      ensures old(!ok ==> strm.failed) ==> (!ok ==> strm.failed)
      ensures r == ok
    {
      if ok {
        dataAvailable := |d| > 0;
        offset := offset + |d|;
        if d != "" {
          var size := FromIToHex(|d|);
          var chunk := size + CRLF + d + CRLF;
          var writable := strm.IsWritable();
          if writable {
            ok := WriteData(strm, chunk);
          } else {
            ok := false;
          }
        } else {
          assert strm.written + "" == strm.written;
        }
      }
      r := ok;
    }

    /** `done_with_trailer`; `done` is the case without trailers. */
    method DoneWithTrailer(trailers: Headers)
      modifies this, strm
      ensures old(strm.failed) ==> strm.failed
      ensures old(ok) && !strm.failed ==> ok && strm.written == old(strm.written) + Emits(SinkCall.Done(trailers))
      ensures old(ok) ==> !dataAvailable
      ensures !old(ok) ==> !ok && strm.written == old(strm.written)
      ensures ok ==> strm.failed == old(strm.failed)
      ensures old(!ok ==> strm.failed) ==> (!ok ==> strm.failed)
    {
      if !ok { return; }
      dataAvailable := false;
      ghost var before := strm.written;
      var wrote := WriteData(strm, "0" + CRLF);
      if !wrote { ok := false; }
      for i := 0 to |trailers|
        invariant old(strm.failed) ==> strm.failed
        invariant !ok ==> strm.failed
        invariant ok ==> strm.failed == old(strm.failed)
        invariant !strm.failed ==> ok && before + End(trailers) == strm.written + TrailerFrom(trailers, i)
        invariant !dataAvailable
      {
        Assoc(strm.written, FieldLine(trailers[i]), TrailerFrom(trailers, i + 1));
        wrote := WriteData(strm, FieldLine(trailers[i]));
        if !wrote { ok := false; }
      }
      wrote := WriteData(strm, CRLF);
      if !wrote { ok := false; }
    }
  }

  /** One call of the provider: its sink calls in order. */
  method CallProvider(turn: Turn, sink: DataSink) returns (goOn: bool)
    modifies sink, sink.strm
    ensures goOn == turn.goOn
    ensures old(sink.strm.failed) ==> sink.strm.failed
    ensures old(!sink.ok ==> sink.strm.failed) ==> (!sink.ok ==> sink.strm.failed)
    ensures sink.ok ==> sink.strm.failed == old(sink.strm.failed)
    ensures old(sink.ok) && !sink.strm.failed ==>
      && sink.ok && sink.strm.written == old(sink.strm.written) + EmitsAll(turn.calls)
      && sink.dataAvailable == StillAvailable(turn.calls, old(sink.dataAvailable))
  {
    hide Emits;
    ghost var before := sink.strm.written;
    assert before + "" == before;
    for i := 0 to |turn.calls|
      invariant old(sink.strm.failed) ==> sink.strm.failed
      invariant old(!sink.ok ==> sink.strm.failed) ==> (!sink.ok ==> sink.strm.failed)
      invariant sink.ok ==> sink.strm.failed == old(sink.strm.failed)
      invariant old(sink.ok) && !sink.strm.failed ==>
        && sink.ok && sink.strm.written == before + EmitsAll(turn.calls[..i])
        && sink.dataAvailable == StillAvailable(turn.calls[..i], old(sink.dataAvailable))
    {
      var call := turn.calls[i];
      assert turn.calls[..i + 1][..i] == turn.calls[..i] && turn.calls[..i + 1][i] == call;
      Assoc(before, EmitsAll(turn.calls[..i]), Emits(call));
      match call {
        case Write(d) => var r := sink.Write(d);
        case Done(trailers) => sink.DoneWithTrailer(trailers);
      }
    }
    assert turn.calls[..|turn.calls|] == turn.calls;
    goOn := turn.goOn;
  }

  /** `write_content_chunked`: unless the stream fails, it puts exactly the bytes of the
      performed calls on the stream and reports whether the provider gave up. */
  method WriteContentChunked(strm: OutStream, turns: seq<Turn>) returns (error: Error)
    modifies strm
    ensures old(strm.failed) ==> strm.failed
    ensures !strm.failed ==> error == Verdict(turns) && strm.written == old(strm.written) + EmitsAll(Performed(turns))
    ensures error == WriteError ==> strm.failed
    ensures error == Success ==> strm.failed == old(strm.failed)
  {
    hide EmitsAll, Emits, StillAvailable, Performed, Verdict;
    var sink := new DataSink(strm);
    ghost var before := strm.written;
    var i := 0;
    EmitsNothing(before);
    NoTurns();
    assert turns[0..] == turns;
    ghost var performed: seq<SinkCall> := [];
    while sink.dataAvailable && i < |turns|
      modifies strm, sink
      invariant i <= |turns| && sink.strm == strm
      invariant old(strm.failed) ==> strm.failed
      invariant !sink.ok ==> strm.failed
      invariant sink.ok && strm.failed == old(strm.failed)
      invariant !strm.failed ==> sink.ok && strm.written == before + EmitsAll(performed)
      invariant !strm.failed ==>
        Performed(turns) == performed + (if sink.dataAvailable then Performed(turns[i..]) else [])
        && Verdict(turns) == if sink.dataAvailable then Verdict(turns[i..]) else Success
      decreases |turns| - i
    {
      var writable := strm.IsWritable();
      if !writable { return WriteError; }
      TurnUnfold(turns, i, performed);
      EmitsAppend(before, performed, turns[i].calls);
      performed := performed + turns[i].calls;
      var goOn := CallProvider(turns[i], sink);
      if !goOn {
        assert performed + [] == performed;
        return Canceled;
      }
      if !sink.ok { return WriteError; }
      i := i + 1;
    }
    assert performed + [] == performed && turns[|turns|..] == [];
    error := Success;
  }

  lemma NoTurns()
    ensures Performed([]) == [] && Verdict([]) == Success
  {}

  lemma EmitsNothing(before: string)
    ensures EmitsAll([]) == "" && before == before + EmitsAll([])
  {}

  lemma {:induction false} EmitsConcat(a: seq<SinkCall>, b: seq<SinkCall>)
    ensures EmitsAll(a + b) == EmitsAll(a) + EmitsAll(b)
    decreases |b|
  {
    hide Emits;
    if b == [] {
      assert a + b == a;
    } else {
      var init, last := b[..|b| - 1], b[|b| - 1];
      EmitsConcat(a, init);
      assert (a + b)[..|a + b| - 1] == a + init && (a + b)[|a + b| - 1] == last;
      Assoc(EmitsAll(a), EmitsAll(init), Emits(last));
    }
  }

  lemma EmitsAppend(before: string, performed: seq<SinkCall>, calls: seq<SinkCall>)
    ensures (before + EmitsAll(performed)) + EmitsAll(calls) == before + EmitsAll(performed + calls)
  {
    EmitsConcat(performed, calls);
    Assoc(before, EmitsAll(performed), EmitsAll(calls));
  }

  lemma TurnUnfold(turns: seq<Turn>, i: nat, performed: seq<SinkCall>)
    requires i < |turns|
    ensures var t := turns[i];
            var more := if t.goOn && StillAvailable(t.calls, true) then Performed(turns[i + 1..]) else [];
            performed + Performed(turns[i..]) == (performed + t.calls) + more
    ensures Verdict(turns[i..]) ==
      if !turns[i].goOn then Canceled
      else if StillAvailable(turns[i].calls, true) then Verdict(turns[i + 1..]) else Success
  {
    hide StillAvailable;
    assert turns[i..][0] == turns[i] && turns[i..][1..] == turns[i + 1..];
  }

  function CallsOf(turns: seq<Turn>): seq<SinkCall> {
    if turns == [] then [] else turns[0].calls + CallsOf(turns[1..])
  }

  /** The provider goes on after this turn, and the writer may ask it again. */
  predicate AsksAgain(turn: Turn) {
    turn.goOn && match (if turn.calls == [] then None else Some(turn.calls[|turn.calls| - 1]))
                 case None => true
                 case Some(call) => call.Write? && call.data != ""
  }

  /** What the writer does with any provider: it takes all calls of the first `asked` turns and
      none after them. Every turn but the last of these has gone on and ended with a non-empty
      write, or made no call; the last one has not, or is the last before the shutdown. The
      verdict is Canceled exactly if the provider has given up in it. */
  lemma {:induction false} VerdictMeans(turns: seq<Turn>) returns (asked: nat)
    ensures asked <= |turns|
    ensures Performed(turns) == CallsOf(turns[..asked])
    ensures forall k :: 0 <= k < asked - 1 ==> AsksAgain(turns[k])
    ensures asked < |turns| ==> asked > 0 && !AsksAgain(turns[asked - 1])
    ensures Verdict(turns) == if asked > 0 && !turns[asked - 1].goOn then Canceled else Success
  {
    hide Performed, Verdict, AsksAgain, CallsOf;
    NoTurns();
    NoCalls();
    asked := 0;
    if turns != [] {
      TurnTaken(turns);
      if AsksAgain(turns[0]) {
        asked := VerdictMeans(turns[1..]);
        FirstCalls(turns, asked);
        assert forall k :: 0 < k < |turns| ==> turns[1..][k - 1] == turns[k];
        asked := asked + 1;
      } else {
        asked := 1;
        FirstCalls(turns, 0);
        assert turns[0].calls + [] == turns[0].calls;
      }
    }
  }

  lemma NoCalls()
    ensures CallsOf([]) == []
  {}

  lemma TurnTaken(turns: seq<Turn>)
    requires turns != []
    ensures var more := AsksAgain(turns[0]);
      && Performed(turns) == turns[0].calls + (if more then Performed(turns[1..]) else [])
      && Verdict(turns) == if !turns[0].goOn then Canceled else if more then Verdict(turns[1..]) else Success
    ensures AsksAgain(turns[0]) ==> turns[0].goOn
  {}

  lemma FirstCalls(turns: seq<Turn>, n: nat)
    requires n < |turns|
    ensures turns[1..][..n] == turns[..n + 1][1..]
    ensures CallsOf(turns[..n + 1]) == turns[0].calls + CallsOf(turns[1..][..n])
  {
    assert turns[1..][..n] == turns[..n + 1][1..];
  }

  // ------------------------------------------------------------- what the reader makes of it

  function Writes(pieces: seq<string>): seq<SinkCall> {
    if pieces == [] then [] else [Write(pieces[0])] + Writes(pieces[1..])
  }

  function NonEmpty(pieces: seq<string>): seq<string> {
    if pieces == [] then [] else if pieces[0] == "" then NonEmpty(pieces[1..]) else [pieces[0]] + NonEmpty(pieces[1..])
  }

  lemma {:induction false} WritesEmitChunks(pieces: seq<string>)
    ensures EmitsAll(Writes(pieces)) == Chunks(NonEmpty(pieces))
    ensures Concat(NonEmpty(pieces)) == Concat(pieces)
    decreases |pieces|
  {
    hide Chunk, EmitsAll;
    if pieces == [] {
      assert EmitsAll([]) == "" by { EmitsNothing(""); }
    } else {
      var first, rest := [Write(pieces[0])], NonEmpty(pieces[1..]);
      WritesEmitChunks(pieces[1..]);
      EmitsConcat(first, Writes(pieces[1..]));
      EmitsOne(first[0]);
      if pieces[0] != "" {
        assert ([pieces[0]] + rest)[1..] == rest;
      }
    }
  }

  lemma EmitsOne(call: SinkCall)
    ensures EmitsAll([call]) == Emits(call)
  {
    hide Emits;
    assert [call][..0] == [];
  }

  /** A message cut off after a chunk is not accepted. */
  lemma {:induction false} UnterminatedIsRejected(pieces: seq<string>)
    requires forall k | 0 <= k < |pieces| :: 0 < |pieces[k]| < ULONG_MAX
    ensures ReadChunked(Chunks(pieces)) == None
    decreases |pieces|
  {
    hide StrToUL, Hex, ReadStack.Line, ReadStack.AfterLine, ReadTrailer;
    if pieces != [] {
      var p, more := pieces[0], Chunks(pieces[1..]);
      UnterminatedIsRejected(pieces[1..]);
      RegroupChunk(Hex(|p|), CRLF, p, more);
      SizeLine(|p|, p + (CRLF + more));
      var r := p + (CRLF + more);
      assert r[..|p|] == p && r[|p|..] == CRLF + more;
      LineOfBreak(more);
    }
  }

  lemma RegroupChunk(h: string, n: string, p: string, more: string)
    ensures (h + n + p + n) + more == h + n + (p + (n + more))
  {}

  /** Performed calls that write pieces and at most once, at the last, report the end are a
      readable message exactly when they do report it. */
  lemma {:induction false} ReadableIffDone(pieces: seq<string>, end: seq<SinkCall>)
    requires forall k | 0 <= k < |pieces| :: |pieces[k]| < ULONG_MAX
    requires |end| <= 1 && forall c <- end :: c.Done? && forall k | 0 <= k < |c.trailers| :: PlainTrailer(c.trailers[k])
    ensures var wire := EmitsAll(Writes(pieces) + end);
            ReadChunked(wire) ==
              if end == [] then None else Some(Message(Concat(pieces), AllReceived(end[0].trailers, 0), ""))
  {
    hide ReadChunked, Chunks, AllReceived, PlainTrailer, End;
    WritesEmitChunks(pieces);
    KeptPieces(pieces);
    var kept := NonEmpty(pieces);
    forall k | 0 <= k < |kept| ensures 0 < |kept[k]| < ULONG_MAX { assert kept[k] in kept; }
    EmitsConcat(Writes(pieces), end);
    if end == [] {
      assert Writes(pieces) + end == Writes(pieces);
      UnterminatedIsRejected(NonEmpty(pieces));
    } else {
      EmitsOne(end[0]);
      assert end == [end[0]];
      RoundTrip(NonEmpty(pieces), end[0].trailers, "");
      var wire := Chunks(NonEmpty(pieces)) + End(end[0].trailers);
      assert wire + "" == wire;
    }
  }

  lemma {:induction false} KeptPieces(pieces: seq<string>)
    ensures forall p | p in NonEmpty(pieces) :: p in pieces && p != ""
    decreases |pieces|
  {
    if pieces != [] {
      KeptPieces(pieces[1..]);
      assert forall p | p in pieces[1..] :: p in pieces;
    }
  }

  /** The sink calls of one provider turn each: all of them are performed as long as the
      pieces are not empty. */
  lemma {:induction false} PiecesThenDone(pieces: seq<string>, trailers: Headers)
    requires forall k | 0 <= k < |pieces| :: pieces[k] != ""
    ensures var turns := TurnsOf(pieces) + [Turn([Done(trailers)], true)];
            Performed(turns) == Writes(pieces) + [Done(trailers)] && Verdict(turns) == Success
    decreases |pieces|
  {
    var last := [Turn([Done(trailers)], true)];
    var turns := TurnsOf(pieces) + last;
    if pieces == [] {
      assert turns == last;
    } else {
      PiecesThenDone(pieces[1..], trailers);
      assert turns[0] == Turn([Write(pieces[0])], true) && turns[1..] == TurnsOf(pieces[1..]) + last;
      assert Writes(pieces) + [Done(trailers)] == [Write(pieces[0])] + (Writes(pieces[1..]) + [Done(trailers)]);
    }
  }

  function TurnsOf(pieces: seq<string>): seq<Turn> {
    if pieces == [] then [] else [Turn([Write(pieces[0])], true)] + TurnsOf(pieces[1..])
  }

  // ------------------------------------------------------------- what a provider's script achieves

  /** A provider that writes one batch of pieces a turn, and in its last turn a last batch and
      then the end. */
  function Script(batches: seq<seq<string>>, last: seq<string>, trailers: Headers): seq<Turn> {
    if batches == [] then [Turn(Writes(last) + [Done(trailers)], true)]
    else [Turn(Writes(batches[0]), true)] + Script(batches[1..], last, trailers)
  }

  function Flat(batches: seq<seq<string>>): seq<string> {
    if batches == [] then [] else batches[0] + Flat(batches[1..])
  }

  /** The batch does not leave the writer with an empty write. */
  predicate GoesOn(batch: seq<string>) { batch != [] ==> batch[|batch| - 1] != "" }

  predicate AllGoOn(batches: seq<seq<string>>) { forall i | 0 <= i < |batches| :: GoesOn(batches[i]) }

  predicate Small(batch: seq<string>) { forall k | 0 <= k < |batch| :: |batch[k]| < ULONG_MAX }

  lemma {:induction false} ScriptLength(batches: seq<seq<string>>, last: seq<string>, trailers: Headers)
    ensures |Script(batches, last, trailers)| == |batches| + 1
  {
    if batches != [] { ScriptLength(batches[1..], last, trailers); }
  }

  lemma {:induction false} WritesConcat(a: seq<string>, b: seq<string>)
    ensures Writes(a + b) == Writes(a) + Writes(b)
  {
    if a == [] {
      assert a + b == b;
    } else {
      assert (a + b)[1..] == a[1..] + b;
      WritesConcat(a[1..], b);
    }
  }

  lemma {:induction false} WritesGoOn(batch: seq<string>)
    ensures |Writes(batch)| == |batch|
    ensures batch != [] ==> Writes(batch)[|batch| - 1] == Write(batch[|batch| - 1])
    ensures StillAvailable(Writes(batch), true) == GoesOn(batch)
  {
    if batch != [] { WritesGoOn(batch[1..]); }
  }

  lemma OneTurn(turns: seq<Turn>)
    requires turns != [] && turns[0].goOn
    ensures var more := StillAvailable(turns[0].calls, true);
      && Performed(turns) == turns[0].calls + (if more then Performed(turns[1..]) else [])
      && Verdict(turns) == if more then Verdict(turns[1..]) else Success
  {
    hide StillAvailable;
  }

  /** What is performed of the first `k` turns: everything, if no earlier batch ends with an
      empty write and no shutdown comes first; otherwise some pieces and no end. */
  lemma {:induction false} ScriptPerforms(batches: seq<seq<string>>, last: seq<string>, trailers: Headers, k: nat)
    returns (sent: seq<string>)
    requires k <= |Script(batches, last, trailers)|
    requires Small(last) && forall i | 0 <= i < |batches| :: Small(batches[i])
    ensures var turns := Script(batches, last, trailers)[..k];
            var whole := k == |batches| + 1 && AllGoOn(batches);
      && Verdict(turns) == Success
      && Performed(turns) == Writes(sent) + (if whole then [Done(trailers)] else [])
      && (whole ==> sent == Flat(batches) + last)
    ensures Small(sent)
    decreases |batches|
  {
    hide StillAvailable, Small, GoesOn, Performed, Verdict, Writes;
    var turns := Script(batches, last, trailers)[..k];
    ScriptLength(batches, last, trailers);
    if k == 0 {
      NoTurns();
      NoWrites();
      NothingSmall();
      sent := [];
    } else if batches == [] {
      DoneStops(Writes(last), trailers);
      OneTurn(turns);
      sent := last;
      assert turns == [Turn(Writes(last) + [Done(trailers)], true)] && [] + last == last;
      assert turns[0].calls + [] == turns[0].calls;
    } else {
      var rest := Script(batches[1..], last, trailers);
      assert turns[0] == Turn(Writes(batches[0]), true) && turns[1..] == rest[..k - 1];
      WritesGoOn(batches[0]);
      OneTurn(turns);
      assert forall i | 0 <= i < |batches| - 1 :: batches[1..][i] == batches[i + 1];
      FirstGoesOn(batches);
      if GoesOn(batches[0]) {
        var more := ScriptPerforms(batches[1..], last, trailers, k - 1);
        sent := batches[0] + more;
        WritesConcat(batches[0], more);
        var end := if k == |batches| + 1 && AllGoOn(batches[1..]) then [Done(trailers)] else [];
        assert Writes(batches[0]) + (Writes(more) + end) == Writes(batches[0]) + Writes(more) + end;
        assert batches[0] + (Flat(batches[1..]) + last) == batches[0] + Flat(batches[1..]) + last;
        SmallConcat(batches[0], more);
      } else {
        sent := batches[0];
        assert Writes(sent) + [] == Writes(sent);
      }
    }
  }

  lemma FirstGoesOn(batches: seq<seq<string>>)
    requires batches != []
    ensures AllGoOn(batches) <==> GoesOn(batches[0]) && AllGoOn(batches[1..])
  {
    hide GoesOn;
    assert forall i | 0 < i < |batches| :: batches[i] == batches[1..][i - 1];
  }

  lemma DoneStops(calls: seq<SinkCall>, trailers: Headers)
    ensures !StillAvailable(calls + [Done(trailers)], true)
  {}

  lemma NothingSmall()
    ensures Small([])
  {}

  lemma SmallConcat(a: seq<string>, b: seq<string>)
    requires Small(a) && Small(b)
    ensures Small(a + b)
  {}

  /** A provider that writes its pieces in batches and then reports the end, up to a shutdown
      after `k` turns: the writer reports success in any case, and what it has sent is a
      readable message, with exactly the pieces and trailers, exactly if the shutdown did not
      come first and no batch but the last ends with an empty write. */
  lemma ReadableIffNotStopped(batches: seq<seq<string>>, last: seq<string>, trailers: Headers, k: nat)
    requires k <= |Script(batches, last, trailers)|
    requires Small(last) && forall i | 0 <= i < |batches| :: Small(batches[i])
    requires forall i | 0 <= i < |trailers| :: PlainTrailer(trailers[i])
    ensures var turns := Script(batches, last, trailers)[..k];
            var read := ReadChunked(EmitsAll(Performed(turns)));
      && Verdict(turns) == Success
      && (read.Some? <==> k == |batches| + 1 && AllGoOn(batches))
      && (read.Some? ==> read.value == Message(Concat(Flat(batches) + last), AllReceived(trailers, 0), ""))
  {
    hide ReadChunked, EmitsAll, Performed, Verdict, Script, Writes, AllGoOn, PlainTrailer, AllReceived;
    var sent := ScriptPerforms(batches, last, trailers, k);
    var whole := k == |batches| + 1 && AllGoOn(batches);
    ReadableIffDone(sent, if whole then [Done(trailers)] else []);
  }

  function Singles(pieces: seq<string>): seq<seq<string>> {
    if pieces == [] then [] else [[pieces[0]]] + Singles(pieces[1..])
  }

  lemma {:induction false} SinglesMean(pieces: seq<string>, trailers: Headers)
    ensures |Singles(pieces)| == |pieces| && Flat(Singles(pieces)) == pieces
    ensures forall k | 0 <= k < |pieces| :: Singles(pieces)[k] == [pieces[k]]
    ensures Script(Singles(pieces), [], trailers) == TurnsOf(pieces) + [Turn([Done(trailers)], true)]
  {
    hide Writes;
    if pieces == [] {
      NoWrites();
      assert [] + [Done(trailers)] == [Done(trailers)];
      assert TurnsOf(pieces) + [Turn([Done(trailers)], true)] == [Turn([Done(trailers)], true)];
    } else {
      SinglesMean(pieces[1..], trailers);
      OneWrite(pieces[0]);
      assert pieces == [pieces[0]] + pieces[1..];
      assert Singles(pieces)[1..] == Singles(pieces[1..]);
    }
  }

  lemma NoWrites()
    ensures Writes([]) == []
  {}

  lemma OneWrite(piece: string)
    ensures Writes([piece]) == [Write(piece)]
  {}

  /** One piece a turn, then the end: readable exactly without an empty piece. */
  lemma ReadableIffNoEmptyPiece(pieces: seq<string>, trailers: Headers, k: nat)
    requires Small(pieces) && k <= |pieces| + 1
    requires forall i | 0 <= i < |trailers| :: PlainTrailer(trailers[i])
    ensures var turns := TurnsOf(pieces) + [Turn([Done(trailers)], true)];
      && |turns| == |pieces| + 1
      && Verdict(turns[..k]) == Success
      && (ReadChunked(EmitsAll(Performed(turns[..k]))).Some? <==> k == |turns| && "" !in pieces)
  {
    hide ReadChunked, EmitsAll, Performed, Verdict, PlainTrailer;
    SinglesMean(pieces, trailers);
    ScriptLength(Singles(pieces), [], trailers);
    assert AllGoOn(Singles(pieces)) <==> "" !in pieces by {
      forall i | 0 <= i < |pieces| ensures GoesOn(Singles(pieces)[i]) <==> pieces[i] != "" {}
    }
    ReadableIffNotStopped(Singles(pieces), [], trailers, k);
  }
}
