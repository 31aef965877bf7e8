/** The incremental parser as the source has it: a buffer that is filled at the back, emptied
    at the front and shifted in place, driven by a state number. */
module MultipartParser {
  import opened Text
  import opened MultipartSpec
  import Query
  import opened Wrappers

  /** `parse_disposition_params`. */
  method ParseDispositionParams(s: string) returns (params: Query.Params)
    ensures params == DispositionParams(s)
  {
    hide Query.KeyValue, ParamField, ParamFields, DispositionParams, Split;
    params := [];
    var cache: set<string> := {};
    var fields := SplitScan(s, ';');
    assert fields[0..] == fields;
    for i := 0 to |fields|
      invariant ParamFields(fields, {}) == params + ParamFields(fields[i..], cache)
    {
      var kv := fields[i];
      FieldsUnfold(fields, i, cache);
      Query.AssocParams(params, ParamField(kv), ParamFields(fields[i + 1..], cache + {kv}));
      if kv !in cache {
        cache := cache + {kv};
        var key, val := Query.ParseField(kv);
        ParamFieldIs(kv);
        if key != "" { params := params + [(TrimDoubleQuotes(key), TrimDoubleQuotes(val))]; }
      }
    }
    FieldsEnd(s, fields, cache);
  }

  lemma ParamFieldIs(kv: string)
    ensures var (key, val) := Query.KeyValue(kv);
            ParamField(kv) == if key == "" then [] else [(TrimDoubleQuotes(key), TrimDoubleQuotes(val))]
  {}

  lemma FieldsUnfold(fields: seq<string>, i: nat, cache: set<string>)
    requires i < |fields|
    ensures ParamFields(fields[i..], cache)
         == if fields[i] in cache then ParamFields(fields[i + 1..], cache)
            else ParamField(fields[i]) + ParamFields(fields[i + 1..], cache + {fields[i]})
  {
    hide ParamField;
    assert fields[i..][1..] == fields[i + 1..];
  }

  lemma FieldsEnd(s: string, fields: seq<string>, cache: set<string>)
    requires fields == Split(s, ';')
    ensures ParamFields(fields[|fields|..], cache) == []
    ensures DispositionParams(s) == ParamFields(fields, {})
  {}

  class MultipartFormDataParser {
    var boundary: string
    var dashBoundaryCrlf: string
    var crlfDashBoundary: string

    var state: nat
    var isValid: bool
    var file: Item

    // Buffer
    var buf: array<char>
    var spos: nat
    var epos: nat

    /** The callbacks made so far. */
    var log: seq<Event>

    ghost predicate Valid()
      reads this
    {
      spos <= epos <= buf.Length
      && dashBoundaryCrlf == Opening(boundary) && crlfDashBoundary == Delimiter(boundary)
    }

    /** The bytes held, as a plain sequence. */
    ghost function Held(): string
      requires Valid()
      reads this, buf
    {
      buf[spos..epos]
    }

    ghost function Abs(): State
      requires Valid()
      reads this, buf
    {
      State(state, isValid, file, Held(), log)
    }

    constructor (boundary: string)
      ensures Valid() && this.boundary == boundary && Abs() == START && fresh(buf)
    {
      this.boundary := boundary;
      dashBoundaryCrlf := "--" + boundary + CRLF;
      crlfDashBoundary := CRLF + "--" + boundary;
      state, isValid, file, log := 0, false, BLANK_ITEM, [];
      buf := new char[0];
      spos, epos := 0, 0;
    }

    method StartWith(at: nat, s: string) returns (r: bool)
      requires Valid() && spos <= at <= epos
      ensures r == OccursAt(Held(), s, at - spos)
    {
      hide OccursAt, Opening, Delimiter;
      OccursPointwise(Held(), s, at - spos);
      if epos - at < |s| { return false; }
      ghost var window := Held()[at - spos..at - spos + |s|];
      assert forall k | 0 <= k < |s| :: window[k] == buf[at + k];
      var i := 0;
      while i < |s|
        invariant i <= |s|
        invariant forall k | 0 <= k < i :: buf[at + k] == s[k]
      {
        if buf[at + i] != s[i] { return false; }
        i := i + 1;
      }
      r := true;
    }

    /** `buf_find` is first-occurrence search: look for the first character, then compare. */
    method BufFind(s: string) returns (r: nat)
      requires Valid() && s != ""
      ensures r == Find(Held(), s)
    {
      hide Find;
      var c := s[0];
      var off := spos;
      while off < epos
        invariant spos <= off <= epos
        invariant forall j | 0 <= j < off - spos :: !OccursAt(Held(), s, j)
      {
        var pos := off;
        while pos != epos && buf[pos] != c
          invariant off <= pos <= epos
          invariant forall j | 0 <= j < pos - spos :: !OccursAt(Held(), s, j)
          decreases epos - pos
        {
          NotHere(Held(), s, pos - spos);
          pos := pos + 1;
        }
        if pos == epos || |s| > epos - pos {
          FindNone(Held(), s, pos - spos);
          return epos - spos;
        }
        var found := StartWith(pos, s);
        if found {
          FindHere(Held(), s, pos - spos);
          return pos - spos;
        }
        off := pos + 1;
      }
      FindNone(Held(), s, epos - spos);
      r := epos - spos;
    }

    method ShiftToFront()
      requires Valid()
      modifies this`spos, this`epos, buf
      ensures Valid() && spos == 0 && Held() == old(Held())
    {
      var remaining := epos - spos;
      if remaining > 0 && spos > 0 {
        var i := 0;
        while i < remaining
          modifies buf
          invariant i <= remaining
          invariant forall k | 0 <= k < i :: buf[k] == old(buf[spos + k])
          invariant forall k | i <= k < buf.Length :: buf[k] == old(buf[k])
        {
          buf[i] := buf[spos + i];
          i := i + 1;
        }
      }
      spos, epos := 0, remaining;
    }

    method Grow(size: nat)
      requires Valid() && spos == 0
      modifies this`buf
      ensures Valid() && Held() == old(Held()) && buf.Length >= size
      ensures buf == old(buf) || fresh(buf)
    {
      if size > buf.Length {
        var bigger := new char[size];
        forall k | 0 <= k < buf.Length { bigger[k] := buf[k]; }
        assert bigger[..epos] == buf[..epos];
        buf := bigger;
      }
    }

    /** `buf_append` shifts the held bytes to the front in place, grows the buffer if needed
        and copies the new bytes behind them: an append on the plain sequence. */
    method BufAppend(data: string)
      requires Valid()
      modifies this`buf, this`spos, this`epos, buf
      ensures Valid() && (buf == old(buf) || fresh(buf))
      ensures Held() == old(Held()) + data
    {
      ShiftToFront();
      Grow(epos + |data|);
      CopyIn(data);
    }

    method CopyIn(data: string)
      requires Valid() && spos == 0 && epos + |data| <= buf.Length
      modifies this`epos, buf
      ensures Valid() && Held() == old(Held()) + data
    {
      var i := 0;
      while i < |data|
        modifies buf
        invariant i <= |data|
        invariant forall k | 0 <= k < epos :: buf[k] == old(buf[k])
        invariant forall k | 0 <= k < i :: buf[epos + k] == data[k]
      {
        buf[epos + i] := data[i];
        i := i + 1;
      }
      epos := epos + |data|;
      assert buf[..epos] == old(buf[..epos]) + data;
    }

    method BufErase(size: nat)
      requires Valid() && size <= epos - spos
      modifies this`spos
      ensures Valid() && Held() == old(Held())[size..]
    {
      spos := spos + size;
    }

    method BufStartWith(s: string) returns (r: bool)
      requires Valid()
      ensures r == StartsWith(Held(), s)
    {
      r := StartWith(spos, s);
    }

    method BufHead(l: nat) returns (s: string)
      requires Valid() && l <= epos - spos
      ensures s == Held()[..l]
    {
      s := buf[spos..spos + l];
    }

    // ----------------------------------------------------------- the states

    ghost function Result(stop: bool, ok: bool): Outcome
      requires Valid()
      reads this, buf
    {
      if stop then Stop(Abs(), ok) else Go(Abs())
    }

    /** Case 0: throw away what stands before the opening boundary line. */
    method TurnOpening() returns (stop: bool, ok: bool)
      requires Valid() && state == 0
      modifies this`spos, this`state
      ensures Valid() && Result(stop, ok) == StepOpening(boundary, old(Abs()))
    {
      var pos := BufFind(dashBoundaryCrlf);
      BufErase(pos);
      if |dashBoundaryCrlf| > epos - spos { return true, true; }
      var here := BufStartWith(dashBoundaryCrlf);
      if !here { return true, false; }
      BufErase(|dashBoundaryCrlf|);
      state := 1;
      return false, true;
    }

    /** Case 1: `clear_file_info`. */
    method TurnEntry() returns (stop: bool, ok: bool)
      requires Valid() && state == 1
      modifies this`file, this`state
      ensures Valid() && Result(stop, ok) == StepEntry(old(Abs()))
    {
      file := file.(name := "", filename := "", contentType := "");
      state := 2;
      return false, true;
    }

    /** A user callback: logged, and `isValid` dropped when it refuses. */
    method Call(e: Event, accepts: Receiver) returns (accepted: bool)
      modifies this`log, this`isValid
      ensures accepted == accepts(old(log), e) && log == old(log) + [e]
      ensures isValid == (old(isValid) && accepted)
    {
      accepted := accepts(log, e);
      log := log + [e];
      if !accepted { isValid := false; }
    }

    /** The blank line: the entry is announced. */
    method BlankLine(accepts: Receiver) returns (ok: bool)
      requires Valid() && state == 2 && Held() != "" && Find(Held(), CRLF) == 0
      modifies this`spos, this`state, this`log, this`isValid
      ensures Valid() && Result(!ok, ok) == HeaderLoop(old(Abs()), accepts)
    {
      hide HeaderLine, HeaderLoop, Opening, Delimiter;
      LoopTurn(Abs(), accepts);
      FoundFits(Held(), CRLF);
      ok := Call(Header(file), accepts);
      if ok {
        BufErase(|CRLF|);
        state := 3;
      }
    }

    /** A header line that has arrived whole. */
    method OneLine(pos: nat, accepts: Receiver) returns (ok: bool)
      requires Valid() && state == 2 && 0 < pos < |Held()| && pos == Find(Held(), CRLF)
      modifies this`spos, this`file, this`isValid
      ensures Valid() && (ok ==> spos > old(spos))
      ensures HeaderLoop(old(Abs()), accepts) == if ok then HeaderLoop(Abs(), accepts) else Result(true, false)
    {
      hide HeaderLine, HeaderLoop, Opening, Delimiter;
      LoopTurn(Abs(), accepts);
      FoundFits(Held(), CRLF);
      var line := BufHead(pos);
      ok, file := ReadHeader(file, line);
      if ok { BufErase(pos + |CRLF|); } else { isValid := false; }
    }

    /** Case 2: the header lines that have arrived whole, then the blank line. */
    method TurnHeaders(accepts: Receiver) returns (stop: bool, ok: bool)
      requires Valid() && state == 2
      modifies this`spos, this`state, this`file, this`log, this`isValid
      ensures Valid() && Result(stop, ok) == StepHeaders(old(Abs()), accepts)
    {
      hide HeaderLine, HeaderLoop, Find, Opening, Delimiter;
      var pos := BufFind(CRLF);
      if pos > HEADER_MAX_LENGTH { return true, false; }
      while pos < epos - spos
        modifies this`spos, this`state, this`file, this`log, this`isValid
        invariant Valid() && state == 2 && pos == Find(Held(), CRLF)
        invariant HeaderLoop(old(Abs()), accepts) == HeaderLoop(Abs(), accepts)
        decreases epos - spos
      {
        if pos == 0 {
          ok := BlankLine(accepts);
          return !ok, ok;
        }
        var read := OneLine(pos, accepts);
        if !read { return true, false; }
        pos := BufFind(CRLF);
      }
      LoopTurn(Abs(), accepts);
      return true, true;
    }

    /** Hand out the first `k` bytes and, if they are accepted, drop the first `m`. */
    method Deliver(k: nat, m: nat, accepts: Receiver) returns (accepted: bool)
      requires Valid() && k <= m <= epos - spos
      modifies this`spos, this`log, this`isValid
      ensures Valid()
      ensures var s := old(Abs());
        var e := Content(s.held[..k]);
        && accepted == accepts(s.log, e)
        && Abs() == if accepted then s.(held := s.held[m..], log := s.log + [e])
                    else s.(valid := false, log := s.log + [e])
    {
      hide Opening, Delimiter;
      var content := BufHead(k);
      accepted := Call(Content(content), accepts);
      if accepted { BufErase(m); }
    }

    /** Case 3: emit the content up to the delimiter, or all but one delimiter length. */
    method TurnBody(accepts: Receiver) returns (stop: bool, ok: bool)
      requires Valid() && state == 3
      modifies this`spos, this`state, this`log, this`isValid
      ensures Valid() && Result(stop, ok) == StepBody(boundary, old(Abs()), accepts)
    {
      hide Find, Delimiter, Opening, StepBody;
      var d := |crlfDashBoundary|;
      BodyCases(boundary, Abs(), accepts);
      if d > epos - spos { return true, true; }
      var pos := BufFind(crlfDashBoundary);
      if pos < epos - spos {
        FoundFits(Held(), crlfDashBoundary);
        ok := Deliver(pos, pos + d, accepts);
        if ok { state := 4; }
        return !ok, ok;
      }
      var len := epos - spos - d;
      ok := true;
      if len > 0 { ok := Deliver(len, len, accepts); }
      stop := true;
    }

    /** Case 4: another entry, or the end; the epilogue is dropped. */
    method TurnBoundary() returns (stop: bool, ok: bool)
      requires Valid() && state >= 4
      modifies this`spos, this`state, this`isValid
      ensures Valid() && Result(stop, ok) == StepBoundary(old(Abs()))
    {
      if |CRLF| > epos - spos { return true, true; }
      var next := BufStartWith(CRLF);
      if next {
        BufErase(|CRLF|);
        state := 1;
      } else {
        var last := BufStartWith("--");
        if !last { return true, true; }
        BufErase(2);
        isValid := true;
        BufErase(epos - spos);
      }
      return false, true;
    }

    method Turn(accepts: Receiver) returns (stop: bool, ok: bool)
      requires Valid() && Held() != ""
      modifies this`spos, this`state, this`file, this`log, this`isValid
      ensures Valid() && Result(stop, ok) == Step(boundary, old(Abs()), accepts)
    {
      hide StepOpening, StepEntry, StepHeaders, StepBody, StepBoundary;
      if state == 0 { stop, ok := TurnOpening(); }
      else if state == 1 { stop, ok := TurnEntry(); }
      else if state == 2 { stop, ok := TurnHeaders(accepts); }
      else if state == 3 { stop, ok := TurnBody(accepts); }
      else { stop, ok := TurnBoundary(); }
    }

    /** `parse`: append the chunk, then turn until the buffer is empty or more is needed. */
    method Parse(chunk: string, accepts: Receiver) returns (ok: bool)
      requires Valid()
      modifies this`buf, this`spos, this`epos, this`state, this`file, this`log, this`isValid, buf
      ensures Valid() && (buf == old(buf) || fresh(buf))
      ensures (Abs(), ok) == MultipartSpec.Parse(boundary, old(Abs()), chunk, accepts)
    {
      hide Step;
      BufAppend(chunk);
      ghost var fed := Abs();
      while epos - spos > 0
        modifies this`spos, this`state, this`file, this`log, this`isValid
        invariant Valid()
        invariant Run(boundary, fed, accepts) == Run(boundary, Abs(), accepts)
        decreases Measure(Abs())
      {
        var stop, ok' := Turn(accepts);
        if stop { return ok'; }
      }
      ok := true;
    }
  }

  /** One header line, as the parser treats it. */
  method ReadHeader(file: Item, line: string) returns (ok: bool, file': Item)
    ensures (ok, file') == HeaderLine(file, line)
  {
    hide DispositionParams, DispositionRest, Query.DecodeFrom;
    if StartsWithIgnoreCase(line, "content-type:") {
      return true, file.(contentType := Trim(line[13..]));
    }
    file' := file;
    match DispositionRest(line)
    case None => return false, file';
    case Some(text) =>
      var params := ParseDispositionParams(text);
      match Lookup(params, "name")
      case None => return false, file';
      case Some(name) =>
        file' := file'.(name := name);
        if Lookup(params, "filename").Some? { file' := file'.(filename := Lookup(params, "filename").value); }
        match Lookup(params, "filename*")
        case None => return true, file';
        case Some(v) =>
          if StartsWithIgnoreCase(v, "UTF-8''") && |v| > 7 && OneLine(v[7..]) {
            var decoded := Query.DecodeUrl(v[7..], false);
            return true, file'.(filename := decoded);
          }
          return false, file';
  }

  lemma LoopTurn(s: State, accepts: Receiver)
    ensures var pos := Find(s.held, CRLF);
            HeaderLoop(s, accepts) ==
              if pos == |s.held| then Stop(s, true)
              else if pos == 0 then MultipartSpec.Call(s, Header(s.file), accepts, s.(held := s.held[2..], stage := 3))
              else if HeaderLine(s.file, s.held[..pos]).0
              then HeaderLoop(s.(file := HeaderLine(s.file, s.held[..pos]).1, held := s.held[pos + 2..]), accepts)
              else Stop(s.(valid := false, file := HeaderLine(s.file, s.held[..pos]).1), false)
  {
    hide HeaderLine;
  }

  /** The outcomes of the body state, refusals included. */
  lemma BodyCases(b: string, s: State, accepts: Receiver)
    ensures var d, pos := |Delimiter(b)|, Find(s.held, Delimiter(b));
            StepBody(b, s, accepts) ==
              if d > |s.held| then Stop(s, true)
              else if pos < |s.held| then
                Emits(s, pos, pos + d, accepts, Go(s.(stage := 4)))
              else if |s.held| == d then Stop(s, true)
              else Emits(s, |s.held| - d, |s.held| - d, accepts, Stop(s, true))
  {
    hide Delimiter, Find, Opening;
    if Find(s.held, Delimiter(b)) < |s.held| { FoundFits(s.held, Delimiter(b)); }
  }

  /** Handing out the first `k` bytes and dropping the first `m`, then `o` with what is left. */
  ghost function Emits(s: State, k: nat, m: nat, accepts: Receiver, o: Outcome): Outcome {
    if k > |s.held| || m > |s.held| then o
    else
      var log := s.log + [Content(s.held[..k])];
      if !accepts(s.log, Content(s.held[..k])) then Stop(s.(valid := false, log := log), false)
      else match o
        case Go(n) => Go(n.(held := s.held[m..], log := log))
        case Stop(l, ok) => Stop(l.(held := s.held[m..], log := log), ok)
  }

  lemma FoundFits(held: string, s: string)
    requires s != "" && Find(held, s) < |held|
    ensures Find(held, s) + |s| <= |held|
  {}

  lemma NotHere(held: string, s: string, j: nat)
    requires s != "" && j < |held| && held[j] != s[0]
    ensures !OccursAt(held, s, j)
  {
    if j + |s| <= |held| { assert held[j..j + |s|][0] == held[j]; }
  }

  lemma FindNone(held: string, s: string, from: nat)
    requires s != "" && from <= |held|
    requires forall j | 0 <= j < from :: !OccursAt(held, s, j)
    requires from == |held| || |s| > |held| - from
    ensures Find(held, s) == |held|
  {
    assert forall j | 0 <= j < |held| :: !OccursAt(held, s, j);
  }

  lemma FindHere(held: string, s: string, j: nat)
    requires s != "" && OccursAt(held, s, j)
    requires forall k | 0 <= k < j :: !OccursAt(held, s, k)
    ensures Find(held, s) == j
  {}
}
