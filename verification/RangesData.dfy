/** Multipart range responses (section 14.6 of RFC 9110): one traversal of the requested ranges
    with three interpreters, which build the body in memory, only count its bytes for the
    Content-Length header, or write it to the stream piece by piece. */
module RangesData {
  import opened Counting
  import opened Text
  import opened RangeHeader
  import opened ChunkedWriter

  /** The values of `size_t`. */
  const WORD: int := SIZE_MAX + 1

  /** What the traversal is given: `contentLength` is the response's `content_length_`. */
  datatype Request = Request(boundary: string, contentType: string, ranges: seq<Range>, contentLength: nat)

  // ------------------------------------------------------------- one range

  predicate Parsed(r: Range) { Fits(r) && r.0 >= -1 && r.1 >= -1 && Ordered(r) }

  function Max(a: int, b: int): int { if a >= b then a else b }

  /** `get_range_offset_and_length`, with the conversion of the difference to `size_t`. */
  function OffsetAndLength(r: Range, contentLength: nat): (nat, nat)
    requires Parsed(r) && contentLength <= SSIZE_MAX
  {
    if r == (-1, -1) then (0, contentLength)
    else
      var slen := contentLength;
      var first := if r.0 == -1 then Max(0, slen - r.1) else r.0;
      var second := if r.0 == -1 then slen - 1 else r.1;
      var last := if second == -1 then slen - 1 else second;
      (first, ((last - first) % WORD + 1) % WORD)
  }

  /** The bytes a range asks for: everything, a suffix, the rest from a position, or an
      inclusive interval. */
  function Selected(r: Range, content: string): string
    requires Parsed(r) && InContent(r, |content|)
  {
    if r.0 == -1 then if r.1 == -1 || r.1 >= |content| then content else content[|content| - r.1..]
    else if r.1 == -1 then content[r.0..]
    else content[r.0..r.1 + 1]
  }

  /** No position at or after the end of the content is named. */
  predicate InContent(r: Range, n: nat) {
    r.0 == -1 || (r.0 < n && r.1 < n)
  }

  /** `std::string::substr`, empty where it would throw. */
  function Slice(content: string, offset: nat, length: nat): string {
    if offset >= |content| then ""
    else content[offset..if offset + length <= |content| then offset + length else |content|]
  }

  /** Offset and length stay inside the content exactly for ranges that name no position after
      its end, with one harmless exception, "everything from the end on"; and then they are
      what the range asks for. */
  lemma OffsetsSelect(r: Range, content: string)
    requires Parsed(r) && |content| <= SSIZE_MAX
    ensures var (offset, length) := OffsetAndLength(r, |content|);
      && (offset + length <= |content| <==> InContent(r, |content|) || r == (|content|, -1))
      && (InContent(r, |content|) ==> offset + length <= |content| && content[offset..offset + length] == Selected(r, content))
  {
    var (offset, length) := OffsetAndLength(r, |content|);
    if r.0 >= 0 {
      var last := if r.1 == -1 then |content| - 1 else r.1;
      Wrapped(last - r.0);
    } else if r.1 >= 0 {
      Wrapped(|content| - 1 - Max(0, |content| - r.1));
    }
  }

  /** A length computed modulo the word size: right for differences from -1 on. */
  lemma Wrapped(d: int)
    requires -WORD < d < WORD - 1
    ensures (d % WORD + 1) % WORD == if d >= -1 then d + 1 else WORD + d + 1
  {
  }

  /** A response with an in-memory body has no `content_length_`. Its range parts are right
      exactly for ranges with a first position, if that is not 0 with no last position. */
  lemma InMemoryParts(r: Range, body: string)
    requires Parsed(r) && 0 < |body| <= SSIZE_MAX && InContent(r, |body|)
    ensures var (offset, length) := OffsetAndLength(r, 0);
      Slice(body, offset, length) == Selected(r, body) <==> r.0 > 0 || (r.0 == 0 && r.1 != -1) || r == (-1, 0)
  {
    if r.0 >= 0 {
      Wrapped((if r.1 == -1 then -1 else r.1) - r.0);
    } else if r.1 >= 0 {
      Wrapped(-1 - Max(0, -r.1));
    }
  }

  /** `make_content_range_header_field`. */
  function ContentRange(r: Range, contentLength: nat): string {
    "bytes " + Part(r.0) + "-" + Part(r.1) + "/" + Decimal(contentLength)
  }

  // ------------------------------------------------------------- the whole body

  predicate Ready(q: Request) {
    q.contentLength <= SSIZE_MAX && forall k :: 0 <= k < |q.ranges| ==> Parsed(q.ranges[k])
  }

  function TypeLine(q: Request): string {
    if q.contentType == "" then "" else "Content-Type: " + q.contentType + CRLF
  }

  function Head(q: Request, r: Range): string {
    "--" + q.boundary + CRLF + TypeLine(q) + "Content-Range: " + ContentRange(r, q.contentLength) + CRLF + CRLF
  }

  /** The first `i` parts. */
  function Parts(q: Request, content: string, i: nat): string
    requires Ready(q) && i <= |q.ranges|
  {
    if i == 0 then ""
    else
      var (offset, length) := OffsetAndLength(q.ranges[i - 1], q.contentLength);
      Parts(q, content, i - 1) + Head(q, q.ranges[i - 1]) + Slice(content, offset, length) + CRLF
  }

  function Closing(q: Request): string { "--" + q.boundary + "--" }

  function Multipart(q: Request, content: string): string
    requires Ready(q)
  {
    Parts(q, content, |q.ranges|) + Closing(q)
  }

  /** What the dry run counts. */
  function Counted(q: Request, i: nat): nat
    requires Ready(q) && i <= |q.ranges|
  {
    if i == 0 then 0
    else Counted(q, i - 1) + |Head(q, q.ranges[i - 1])| + OffsetAndLength(q.ranges[i - 1], q.contentLength).1 + 2
  }

  predicate Within(q: Request, content: string) {
    && Ready(q)
    && q.contentLength == |content|
    && forall k :: 0 <= k < |q.ranges| ==> InContent(q.ranges[k], |content|)
  }

  /** For ranges inside the content the dry run counts the bytes of the body. */
  lemma {:induction false} DryRunIsExact(q: Request, content: string, i: nat)
    requires Within(q, content) && i <= |q.ranges|
    ensures Counted(q, i) == |Parts(q, content, i)|
  {
    hide Head, OffsetAndLength, InContent, Parsed, Selected, Slice;
    if i > 0 {
      DryRunIsExact(q, content, i - 1);
      OffsetsSelect(q.ranges[i - 1], content);
      var (offset, length) := OffsetAndLength(q.ranges[i - 1], q.contentLength);
      SliceInside(content, offset, length);
    }
  }

  lemma SliceInside(content: string, offset: nat, length: nat)
    requires offset + length <= |content|
    ensures Slice(content, offset, length) == content[offset..offset + length]
  {}

  /** Each part is its header followed by exactly the bytes its range asks for. */
  lemma {:induction false} PartCarriesRange(q: Request, content: string, i: nat)
    requires Within(q, content) && i < |q.ranges|
    ensures Parts(q, content, i + 1)
         == Parts(q, content, i) + Head(q, q.ranges[i]) + Selected(q.ranges[i], content) + CRLF
  {
    hide Head, OffsetAndLength, InContent, Parsed, Selected;
    OffsetsSelect(q.ranges[i], content);
    var (offset, length) := OffsetAndLength(q.ranges[i], |content|);
    SliceInside(content, offset, length);
  }

  // ------------------------------------------------------------- content from a provider

  /** The sink of `write_content`. */
  class ContentSink {
    const strm: OutStream
    var ok: bool
    var offset: nat

    constructor (strm: OutStream, offset: nat)
      ensures this.strm == strm && ok && this.offset == offset
    {
      this.strm, ok, this.offset := strm, true, offset;
    }

    method Write(d: string) returns (r: bool)
      modifies this, strm`written, strm`failed
      ensures r == ok && (ok ==> old(ok))
      ensures ok ==> offset == old(offset) + |d| && strm.written == old(strm.written) + d
      ensures ok ==> strm.failed == old(strm.failed)
      ensures old(strm.failed) || (old(ok) && !ok) ==> strm.failed
    {
      if ok {
        var writable := strm.IsWritable();
        var done := false;
        if writable { done := WriteData(strm, d); }
        if done { offset := offset + |d|; } else { ok := false; }
      }
      r := ok;
    }
  }

  /** What else a response depends on: the server, which may be found shutting down, and the
      content provider, which may refuse to go on. Both are counted. */
  class Surroundings {
    ghost var shutdowns: nat
    ghost var refusals: nat

    constructor ()
      ensures shutdowns == refusals == 0
    {
      shutdowns, refusals := 0, 0;
    }

    method IsShuttingDown() returns (r: bool)
      modifies this`shutdowns
      ensures shutdowns == old(shutdowns) + if r then 1 else 0
    {
      r := false;
      if * {
        r := true;
        shutdowns := shutdowns + 1;
      }
    }

    /** Any provider that serves the content, makes progress and does not overshoot. */
    method Provide(content: string, offset: nat, length: nat, sink: ContentSink) returns (goOn: bool)
      requires 0 < length && offset + length <= |content| && sink.offset == offset && sink.ok
      modifies this`refusals, sink, sink.strm`written, sink.strm`failed
      ensures refusals == old(refusals) + if goOn then 0 else 1
      ensures goOn && sink.ok ==> offset < sink.offset <= offset + length && sink.strm.failed == old(sink.strm.failed)
      ensures goOn && sink.ok ==> sink.strm.written == old(sink.strm.written) + content[offset..sink.offset]
      ensures old(sink.strm.failed) || !sink.ok ==> sink.strm.failed
    {
      if * {
        refusals := refusals + 1;
        return false;
      }
      var todo: nat :| 0 < todo <= length;
      ghost var before := sink.strm.written;
      while todo > 0
        invariant todo <= offset + length - sink.offset && sink.ok
        invariant todo == 0 ==> offset < sink.offset
        invariant sink.strm.failed == old(sink.strm.failed) && refusals == old(refusals)
        invariant offset <= sink.offset && sink.strm.written == before + content[offset..sink.offset]
        decreases todo
      {
        var k: nat :| 0 < k <= todo;
        var at := sink.offset;
        var done := sink.Write(content[at..at + k]);
        if !done { return true; }
        WroteMore(before, content[offset..], at - offset, k);
        assert content[offset..][..at - offset] == content[offset..at];
        assert content[offset..][at - offset..][..k] == content[at..at + k];
        assert content[offset..][..at - offset + k] == content[offset..at + k];
        todo := todo - k;
      }
      goOn := true;
    }
  }

  /** `write_content`: it fails only if the stream fails or the provider refuses, and a success
      means that all the bytes are on the stream unless the server was found shutting down,
      which ends the loop before that. */
  method WriteContent(strm: OutStream, around: Surroundings, content: string, offset: nat, length: nat)
    returns (ok: bool, error: Error, ghost n: nat)
    requires offset + length <= |content|
    modifies strm`written, strm`failed, around
    ensures ok <==> error == Success
    ensures old(strm.failed) || error == WriteError ==> strm.failed
    ensures around.refusals == old(around.refusals) + if error == Canceled then 1 else 0
    ensures ok ==> strm.failed == old(strm.failed)
    ensures ok ==> n <= length && strm.written == old(strm.written) + content[offset..offset + n]
    ensures ok ==> (n == length <==> around.shutdowns == old(around.shutdowns))
    ensures around.shutdowns >= old(around.shutdowns)
  {
    var endOffset := offset + length;
    var sink := new ContentSink(strm, offset);
    n := 0;
    ghost var before := strm.written;
    while sink.offset < endOffset
      invariant sink.ok && offset <= sink.offset <= endOffset && sink.strm == strm && fresh(sink)
      invariant strm.failed == old(strm.failed)
      invariant around.refusals == old(around.refusals) && around.shutdowns == old(around.shutdowns)
      invariant strm.written == before + content[offset..sink.offset]
      decreases endOffset - sink.offset
    {
      var down := around.IsShuttingDown();
      if down { break; }
      var at := sink.offset;
      var writable := strm.IsWritable();
      if !writable { return false, WriteError, 0; }
      var goOn := around.Provide(content, at, endOffset - at, sink);
      if !goOn { return false, Canceled, 0; }
      if !sink.ok { return false, WriteError, 0; }
      assert content[offset..sink.offset] == content[offset..at] + content[at..sink.offset];
      Assoc(before, content[offset..at], content[at..sink.offset]);
    }
    n := sink.offset - offset;
    ok, error := true, Success;
  }

  // ------------------------------------------------------------- the three interpreters

  datatype Kind = Append | Count | Stream

  /** What the traversal calls back. `text` is the body as far as it should have been produced,
      `cut` the bytes of parts that shutdowns have cut off; `before` and the fields after it are
      the environment at the start. */
  class Interpreter {
    const kind: Kind
    const content: string
    const strm: OutStream
    const around: Surroundings
    var data: string
    var dataLength: nat
    ghost var text: string
    ghost var cut: nat
    ghost const before: string
    ghost const dropped: nat
    ghost const shutdowns: nat
    ghost const refusals: nat

    constructor (kind: Kind, content: string, strm: OutStream, around: Surroundings)
      ensures this.kind == kind && this.content == content && this.strm == strm && this.around == around
      ensures Valid() && text == "" && dataLength == 0
      ensures before == strm.written && dropped == strm.dropped
      ensures shutdowns == around.shutdowns && refusals == around.refusals
    {
      this.kind, this.content, this.strm, this.around := kind, content, strm, around;
      data, dataLength, text, cut := "", 0, "", 0;
      before, dropped, shutdowns, refusals := strm.written, strm.dropped, around.shutdowns, around.refusals;
    }

    /** For the stream: every byte of the body is written, dropped by an unchecked write, or cut
        off; none is cut off without a shutdown, and at least one with it; and with neither the
        stream holds the body. */
    ghost predicate Valid()
      reads this, strm, around
    {
      match kind
      case Append => data == text
      case Count => true
      case Stream =>
        && dropped <= strm.dropped && shutdowns <= around.shutdowns && refusals == around.refusals
        && |strm.written| + (strm.dropped - dropped) + cut == |before| + |text|
        && (cut == 0 <==> shutdowns == around.shutdowns)
        && (cut == 0 && strm.dropped == dropped ==> strm.written == before + text)
    }

    method Token(token: string)
      requires Valid()
      modifies this, strm
      ensures Valid() && text == old(text) + token && cut == old(cut)
      ensures kind == Count ==> dataLength == old(dataLength) + |token|
      ensures old(strm.failed) ==> strm.failed
    {
      if kind == Append {
        data := data + token;
      } else if kind == Count {
        dataLength := dataLength + |token|;
      } else {
        strm.WriteOnce(token);
        Assoc(before, text, token);
      }
      text := text + token;
    }

    /** The part of a stream fails only if the stream fails or the provider refuses. */
    method Content(offset: nat, length: nat) returns (ok: bool)
      requires Valid()
      requires kind == Stream ==> offset + length <= |content|
      modifies this, strm, around
      ensures ok ==> Valid() && text == old(text) + Slice(content, offset, length)
      ensures ok && kind == Count ==> dataLength == old(dataLength) + length
      ensures kind == Append ==> (ok <==> offset < |content|)
      ensures kind == Count ==> ok
      ensures kind == Stream ==> ok || strm.failed || around.refusals > refusals
      ensures kind == Stream ==> strm.dropped == old(strm.dropped) && (old(strm.failed) ==> strm.failed)
    {
      ghost var piece := Slice(content, offset, length);
      if kind == Append {
        if offset >= |content| { return false; }
        data := data + content[offset..if offset + length <= |content| then offset + length else |content|];
      } else if kind == Count {
        dataLength := dataLength + length;
      } else {
        ghost var was := strm.written;
        SliceInside(content, offset, length);
        var error;
        ghost var n;
        ok, error, n := WriteContent(strm, around, content, offset, length);
        if !ok { return; }
        cut := cut + (length - n);
        Assoc(before, text, content[offset..offset + n]);
      }
      text := text + piece;
      ok := true;
    }
  }

  /** `process_multipart_ranges_data`, for whichever interpreter. */
  method ProcessMultipartRangesData(q: Request, sink: Interpreter) returns (ok: bool)
    requires Ready(q) && sink.Valid() && sink.text == "" && sink.dataLength == 0
    requires sink.kind == Stream ==> Within(q, sink.content)
    modifies sink, sink.strm, sink.around
    ensures ok ==> sink.Valid() && sink.text == Multipart(q, sink.content)
    ensures sink.kind == Stream ==> ok || sink.strm.failed || sink.around.refusals > sink.refusals
    ensures sink.kind == Count ==> ok && sink.dataLength == Counted(q, |q.ranges|) + |Closing(q)|
    ensures sink.kind == Append ==> (ok <==> forall k :: 0 <= k < |q.ranges| ==> Starts(q, k) < |sink.content|)
  {
    hide Head, OffsetAndLength, Slice, Within, Ready, Starts, Closing, Multipart, Interpreter.Valid;
    ok := true;
    var i := 0;
    while i < |q.ranges|
      invariant 0 <= i <= |q.ranges| && ok
      invariant sink.Valid() && sink.text == Parts(q, sink.content, i)
      invariant sink.kind == Count ==> sink.dataLength == Counted(q, i)
      invariant sink.kind == Append ==> forall k :: 0 <= k < i ==> Starts(q, k) < |sink.content|
    {
      ok := WritePart(q, i, sink);
      if !ok { return; }
      i := i + 1;
    }
    ghost var t, n := sink.text, sink.dataLength;
    sink.Token("--");
    sink.Token(q.boundary);
    sink.Token("--");
    ClosingJoined(q, t);
    MultipartJoined(q, sink.content);
  }

  /** One turn of the loop. */
  method WritePart(q: Request, i: nat, sink: Interpreter) returns (ok: bool)
    requires Ready(q) && i < |q.ranges| && sink.Valid()
    requires sink.kind == Stream ==> Within(q, sink.content)
    modifies sink, sink.strm, sink.around
    ensures ok ==> sink.Valid()
    ensures sink.kind == Stream ==> ok || sink.strm.failed || sink.around.refusals > sink.refusals
    ensures var (offset, length) := OffsetAndLength(q.ranges[i], q.contentLength);
      && (ok ==> sink.text == old(sink.text) + Head(q, q.ranges[i]) + Slice(sink.content, offset, length) + CRLF)
      && (sink.kind == Count ==> ok && sink.dataLength == old(sink.dataLength) + |Head(q, q.ranges[i])| + length + 2)
    ensures sink.kind == Append ==> (ok <==> Starts(q, i) < |sink.content|)
  {
    hide Head, OffsetAndLength, Slice, Within, Interpreter.Valid;
    WriteHead(q, q.ranges[i], sink);
    var (offset, length) := OffsetAndLength(q.ranges[i], q.contentLength);
    if sink.kind == Stream { StaysInside(q, sink.content, i); }
    ok := sink.Content(offset, length);
    if ok { sink.Token(CRLF); }
  }

  /** Where the part of a range starts in the content. */
  function Starts(q: Request, k: nat): nat
    requires Ready(q) && k < |q.ranges|
  {
    OffsetAndLength(q.ranges[k], q.contentLength).0
  }

  lemma StaysInside(q: Request, content: string, i: nat)
    requires Within(q, content) && i < |q.ranges|
    ensures var (offset, length) := OffsetAndLength(q.ranges[i], q.contentLength); offset + length <= |content|
  {
    hide OffsetAndLength;
    OffsetsSelect(q.ranges[i], content);
  }

  lemma ClosingJoined(q: Request, text: string)
    ensures text + "--" + q.boundary + "--" == text + Closing(q)
    ensures |Closing(q)| == |q.boundary| + 4
  {
    Assoc(text, "--" + q.boundary, "--");
    Assoc(text, "--", q.boundary);
  }

  lemma MultipartJoined(q: Request, content: string)
    requires Ready(q)
    ensures Multipart(q, content) == Parts(q, content, |q.ranges|) + Closing(q)
  {}

  /** The header lines of one part. */
  method WriteHead(q: Request, r: Range, sink: Interpreter)
    requires sink.Valid()
    modifies sink, sink.strm
    ensures sink.Valid() && sink.text == old(sink.text) + Head(q, r)
    ensures sink.kind == Count ==> sink.dataLength == old(sink.dataLength) + |Head(q, r)|
  {
    hide ContentRange, TypeLine, Interpreter.Valid;
    ghost var t := sink.text;
    sink.Token("--");
    sink.Token(q.boundary);
    Assoc(t, "--", q.boundary);
    sink.Token(CRLF);
    ghost var h := "--" + q.boundary;
    Assoc(t, h, CRLF);
    h := h + CRLF;
    WriteTypeLine(q, sink);
    Assoc(t, h, TypeLine(q));
    h := h + TypeLine(q);
    sink.Token("Content-Range: ");
    Assoc(t, h, "Content-Range: ");
    h := h + "Content-Range: ";
    sink.Token(ContentRange(r, q.contentLength));
    Assoc(t, h, ContentRange(r, q.contentLength));
    h := h + ContentRange(r, q.contentLength);
    sink.Token(CRLF);
    Assoc(t, h, CRLF);
    h := h + CRLF;
    sink.Token(CRLF);
    Assoc(t, h, CRLF);
  }

  method WriteTypeLine(q: Request, sink: Interpreter)
    requires sink.Valid()
    modifies sink, sink.strm
    ensures sink.Valid() && sink.text == old(sink.text) + TypeLine(q)
    ensures sink.kind == Count ==> sink.dataLength == old(sink.dataLength) + |TypeLine(q)|
  {
    hide Interpreter.Valid;
    ghost var t := sink.text;
    if q.contentType != "" {
      sink.Token("Content-Type: ");
      sink.Token(q.contentType);
      Assoc(t, "Content-Type: ", q.contentType);
      sink.Token(CRLF);
      Assoc(t, "Content-Type: " + q.contentType, CRLF);
    } else {
      assert t + "" == t;
    }
  }

  /** `make_multipart_ranges_data`: fails, for a status 416, exactly if some part would start at
      or after the end of the body. */
  method MakeMultipartRangesData(q: Request, body: string) returns (ok: bool, data: string)
    requires Ready(q)
    ensures ok <==> forall k :: 0 <= k < |q.ranges| ==> Starts(q, k) < |body|
    ensures ok ==> data == Multipart(q, body)
  {
    hide Multipart, Ready, Starts;
    var nowhere := new OutStream();
    var nobody := new Surroundings();
    var sink := new Interpreter(Append, body, nowhere, nobody);
    ok := ProcessMultipartRangesData(q, sink);
    data := sink.data;
  }

  /** The two runs a response makes: the dry run for the header, then the writing, which fails
      only if the stream fails or the provider refuses. When it succeeds, the announced length is
      the number of bytes put on the stream exactly if no unchecked write dropped any and the
      server was not found shutting down; and then the stream has received the body. */
  method RespondWithRanges(q: Request, content: string, strm: OutStream, around: Surroundings)
    returns (ok: bool, contentLength: nat)
    requires Within(q, content)
    modifies strm, around
    ensures contentLength == |Multipart(q, content)|
    ensures ok || strm.failed || around.refusals > old(around.refusals)
    ensures ok ==> around.refusals == old(around.refusals)
    ensures ok ==> |strm.written| <= |old(strm.written)| + contentLength
    ensures ok ==> (|strm.written| == |old(strm.written)| + contentLength
               <==> strm.dropped == old(strm.dropped) && around.shutdowns == old(around.shutdowns))
    ensures ok && strm.dropped == old(strm.dropped) && around.shutdowns == old(around.shutdowns) ==>
              strm.written == old(strm.written) + Multipart(q, content)
  {
    hide Multipart, Counted, Parts;
    var nowhere := new OutStream();
    var nobody := new Surroundings();
    var dry := new Interpreter(Count, content, nowhere, nobody);
    var counted := ProcessMultipartRangesData(q, dry);
    contentLength := dry.dataLength;
    LengthOfMultipart(q, content);
    var writer := new Interpreter(Stream, content, strm, around);
    ok := ProcessMultipartRangesData(q, writer);
  }

  lemma LengthOfMultipart(q: Request, content: string)
    requires Within(q, content)
    ensures Counted(q, |q.ranges|) + |Closing(q)| == |Multipart(q, content)|
  {
    DryRunIsExact(q, content, |q.ranges|);
  }
}
