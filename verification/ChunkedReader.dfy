/** `read_content_chunked` on the line reader and the buffered stream, and the plain body
    reader it uses: proved equal to the reader on byte strings of Chunked.dfy. */
module ChunkedReader {
  import opened Text
  import opened ReadStack
  import opened Chunked
  import opened Wrappers

  const RECV_BUFSIZ: nat := 4096

  /** The user's content receiver: given what it has taken so far, does it take this piece? */
  type Receiver = (string, string) -> bool

  ghost predicate Obliging(accepts: Receiver) { forall a, b :: accepts(a, b) }

  /** `read_content_with_length`: exactly `len` bytes, in pieces, or failure. */
  method ReadContentWithLength(strm: SocketStream, len: nat, taken: string, accepts: Receiver)
    returns (ok: bool, body: string)
    requires strm.Valid()
    modifies strm, strm.readBuff, strm.sock
    ensures strm.Valid() && (old(strm.sock.failed) ==> strm.sock.failed)
    ensures ok ==> len <= |old(strm.Pending())|
    ensures ok ==> body == taken + old(strm.Pending())[..len] && strm.Pending() == old(strm.Pending())[len..]
    ensures !ok ==> strm.sock.failed || |old(strm.Pending())| < len || !Obliging(accepts)
  {
    body := taken;
    ghost var all := strm.Pending();
    var r := 0;
    assert all[..0] == "" && all[0..] == all;
    while r < len
      invariant r <= len && r <= |all|
      invariant strm.Valid() && (old(strm.sock.failed) ==> strm.sock.failed)
      invariant body == taken + all[..r] && strm.Pending() == all[r..]
    {
      var n, data := strm.Read(Min(len - r, RECV_BUFSIZ));
      if n <= 0 { return false, body; }
      TakeMore(all, r, data, strm.Pending());
      var accepted := accepts(body, data);
      if !accepted { return false, body; }
      Assoc(taken, all[..r], data);
      body := body + data;
      r := r + n;
    }
    ok := true;
  }

  lemma TakeMore(all: string, r: nat, data: string, pending: string)
    requires r <= |all| && data + pending == all[r..]
    ensures r + |data| <= |all|
    ensures all[..r + |data|] == all[..r] + data && pending == all[r + |data|..]
  {
    assert all == all[..r] + (data + pending);
  }

  /** The trailer loop, entered with the first line after the last chunk in the reader. */
  method ReadTrailerLines(reader: StreamLineReader) returns (ok: bool, headers: Headers)
    requires reader.Valid() && reader.Content() != ""
    requires reader.Content() == Line(reader.Content() + reader.strm.Pending())
    modifies reader, reader.fixedBuffer, reader.strm, reader.strm.readBuff, reader.strm.sock
    ensures reader.Valid() && (old(reader.strm.sock.failed) ==> reader.strm.sock.failed)
    ensures var spec := ReadTrailer(old(reader.Content() + reader.strm.Pending()));
            if ok then spec == Some((headers, reader.strm.Pending()))
            else reader.strm.sock.failed || spec == None
  {
    hide Line, AfterLine, ReadTrailer, HeaderOf, LineLength;
    headers := [];
    ghost var all := reader.Content() + reader.strm.Pending();
    ghost var left := all;
    ContinuesStart(ReadTrailer(all));
    while reader.Content() != CRLF
      invariant reader.Valid() && (old(reader.strm.sock.failed) ==> reader.strm.sock.failed)
      invariant left == reader.Content() + reader.strm.Pending()
      invariant reader.Content() == Line(left) && reader.Content() != ""
      invariant Continues(ReadTrailer(all), headers, ReadTrailer(left))
      decreases |left|
    {
      TrailerUnfold(left);
      LineSplits(left, reader.strm.Pending());
      if |reader.Content()| > HEADER_MAX_LENGTH { return false, headers; }
      HeadersMove(all, headers, left, reader.Content());
      headers := headers + HeaderOf(reader.Content());
      left := AfterLine(left);
      var got := reader.GetLine();
      if !got {
        EmptyTrailer();
        return false, headers;
      }
    }
    TrailerUnfold(left);
    LineSplits(left, reader.strm.Pending());
    assert headers + [] == headers;
    ok := true;
  }

  /** The headers found so far, followed by those of the rest, are those of the whole. */
  ghost predicate Continues(whole: Option<(Headers, string)>, found: Headers, rest: Option<(Headers, string)>) {
    match rest
    case None => whole == None
    case Some((more, end)) => whole == Some((found + more, end))
  }

  lemma ContinuesStart(o: Option<(Headers, string)>)
    ensures Continues(o, [], o)
  {
    if o.Some? { assert [] + o.value.0 == o.value.0; }
  }

  lemma HeadersMove(all: string, found: Headers, left: string, line: string)
    requires left != "" && line == Line(left) && line != CRLF && |line| <= HEADER_MAX_LENGTH
    requires Continues(ReadTrailer(all), found, ReadTrailer(left))
    ensures Continues(ReadTrailer(all), found + HeaderOf(line), ReadTrailer(AfterLine(left)))
  {
    hide HeaderOf, Line, AfterLine, ReadTrailer;
    TrailerUnfold(left);
    var rest := ReadTrailer(AfterLine(left));
    if rest.Some? {
      assert found + (HeaderOf(line) + rest.value.0) == (found + HeaderOf(line)) + rest.value.0;
    }
  }

  lemma TrailerUnfold(s: string)
    requires s != ""
    ensures ReadTrailer(s) ==
      if Line(s) == CRLF then Some(([], AfterLine(s)))
      else if |Line(s)| > HEADER_MAX_LENGTH then None
      else match ReadTrailer(AfterLine(s))
        case None => None
        case Some((headers, rest)) => Some((HeaderOf(Line(s)) + headers, rest))
  {
    hide HeaderOf, Line, AfterLine;
  }

  lemma EmptyTrailer()
    ensures ReadTrailer("") == None
  {}

  lemma LineSplits(s: string, after: string)
    requires s == Line(s) + after && s != ""
    ensures after == AfterLine(s) && |after| < |s|
  {
    hide LineLength;
    assert s == Line(s) + AfterLine(s);
    NonEmptyLine(s);
  }

  lemma NonEmptyLine(s: string)
    requires s != ""
    ensures Line(s) != ""
  {}

  // ------------------------------------------------------------- chunks

  datatype ReadResult = ReadResult(ok: bool, body: string, trailers: Headers)

  /** What reading the rest of a message, with `body` already taken, must give. */
  ghost predicate Agrees(spec: Option<Message>, taken: string, r: ReadResult, pending: string, excused: bool) {
    if r.ok then
      spec.Some? && r.body == taken + spec.value.body && r.trailers == spec.value.trailers && pending == spec.value.rest
    else excused || spec == None
  }

  /** One turn of the chunk loop, entered with the size line in the reader: the content, its
      line break, and the next size line. */
  method ReadChunk(reader: StreamLineReader, size: nat, taken: string, accepts: Receiver)
    returns (ok: bool, body: string)
    requires reader.Valid() && size > 0
    modifies reader, reader.fixedBuffer, reader.strm, reader.strm.readBuff, reader.strm.sock
    ensures reader.Valid() && (old(reader.strm.sock.failed) ==> reader.strm.sock.failed)
    ensures ok ==> ChunkFollows(old(reader.strm.Pending()), size)
    ensures ok ==> body == taken + old(reader.strm.Pending())[..size]
    ensures ok ==> reader.Content() + reader.strm.Pending() == AfterChunk(old(reader.strm.Pending()), size)
    ensures ok ==> reader.Content() != "" && reader.Content() == Line(AfterChunk(old(reader.strm.Pending()), size))
    ensures ok || reader.strm.sock.failed || !Obliging(accepts)
      || !ChunkFollows(old(reader.strm.Pending()), size) || AfterChunk(old(reader.strm.Pending()), size) == ""
  {
    hide Line, AfterLine;
    ghost var all := reader.strm.Pending();
    ok, body := ReadContentWithLength(reader.strm, size, taken, accepts);
    if !ok { return; }
    ok := reader.GetLine();
    if !ok { return; }
    if reader.Content() != CRLF { return false, body; }
    LineSplits(all[size..], reader.strm.Pending());
    ok := reader.GetLine();
  }

  predicate ChunkFollows(r: string, size: nat) {
    size <= |r| && r[size..] != "" && Line(r[size..]) == CRLF
  }

  function AfterChunk(r: string, size: nat): string
    requires ChunkFollows(r, size)
  {
    AfterLine(r[size..])
  }

  lemma ReadUnfold(s: string)
    requires s != ""
    ensures var n, r := StrToUL(Line(s)), AfterLine(s);
      ReadChunked(s) ==
        if n < 0 || n == ULONG_MAX then None
        else if n == 0 then
          (match ReadTrailer(r)
           case None => None
           case Some((trailers, rest)) => Some(Message("", trailers, rest)))
        else if !ChunkFollows(r, n) then None
        else
          (match ReadChunked(AfterChunk(r, n))
           case None => None
           case Some(m) => Some(m.(body := r[..n] + m.body)))
  {
    hide StrToUL, ReadTrailer, Line, AfterLine;
  }

  lemma EmptyMessage()
    ensures ReadChunked("") == None && ReadTrailer("") == None
  {}

  /** The content taken so far, followed by that of the rest, is that of the whole. */
  ghost predicate BodyContinues(whole: Option<Message>, taken: string, rest: Option<Message>) {
    match rest
    case None => whole == None
    case Some(m) => whole == Some(m.(body := taken + m.body))
  }

  lemma BodyStart(o: Option<Message>)
    ensures BodyContinues(o, "", o)
  {
    if o.Some? { assert "" + o.value.body == o.value.body; }
  }

  lemma BodyMove(all: string, taken: string, left: string, size: nat)
    requires left != "" && StrToUL(Line(left)) == size && 0 < size < ULONG_MAX
    requires BodyContinues(ReadChunked(all), taken, ReadChunked(left))
    ensures var r := AfterLine(left);
            if !ChunkFollows(r, size) || AfterChunk(r, size) == "" then ReadChunked(all) == None
            else BodyContinues(ReadChunked(all), taken + r[..size], ReadChunked(AfterChunk(r, size)))
  {
    hide Line, AfterLine, ReadChunked, StrToUL, ChunkFollows, AfterChunk;
    ReadUnfold(left);
    EmptyMessage();
    var r := AfterLine(left);
    if ChunkFollows(r, size) {
      ChunkFits(r, size);
      var rest := ReadChunked(AfterChunk(r, size));
      if rest.Some? { Assoc(taken, r[..size], rest.value.body); }
    }
  }

  lemma ChunkFits(r: string, size: nat)
    requires ChunkFollows(r, size)
    ensures size <= |r|
  {}

  function WithTrailer(body: string, t: Option<(Headers, string)>): Option<Message> {
    match t
    case None => None
    case Some((trailers, rest)) => Some(Message(body, trailers, rest))
  }

  lemma BodyEnd(all: string, taken: string, left: string)
    requires left != "" && BodyContinues(ReadChunked(all), taken, ReadChunked(left))
    requires var n := StrToUL(Line(left)); n < 0 || n == 0 || n == ULONG_MAX
    ensures ReadChunked(all) ==
      if StrToUL(Line(left)) != 0 then None else WithTrailer(taken, ReadTrailer(AfterLine(left)))
  {
    hide Line, AfterLine, ReadChunked, StrToUL, ChunkFollows, AfterChunk, ReadTrailer;
    ReadUnfold(left);
    assert taken + "" == taken;
  }

  /** `read_content_chunked`: without an error of the stream and with a receiver that takes
      everything, it succeeds exactly on the chunked messages, delivering their content and
      trailers and leaving exactly the bytes after them. */
  method ReadContentChunked(strm: SocketStream, accepts: Receiver) returns (r: ReadResult)
    requires strm.Valid()
    modifies strm, strm.readBuff, strm.sock
    ensures strm.Valid()
    ensures Agrees(ReadChunked(old(strm.Pending())), "", r, strm.Pending(), strm.sock.failed || !Obliging(accepts))
  {
    hide Line, AfterLine, LineLength, ReadChunked, StrToUL, ChunkFollows, AfterChunk, ReadTrailer, Obliging;
    ghost var all := strm.Pending();
    EmptyMessage();
    var reader := new StreamLineReader(strm, 16);
    var got := reader.GetLine();
    if !got { return ReadResult(false, "", []); }
    var ok, body := ReadChunks(reader, all, accepts);
    if !ok { return ReadResult(false, body, []); }
    got := reader.GetLine();
    if !got { return ReadResult(false, body, []); }
    var trailers;
    ok, trailers := ReadTrailerLines(reader);
    assert "" + body == body;
    r := ReadResult(ok, body, trailers);
  }

  /** The chunk loop: up to the size line that says zero. */
  method ReadChunks(reader: StreamLineReader, ghost all: string, accepts: Receiver) returns (ok: bool, body: string)
    requires reader.Valid() && reader.Content() != ""
    requires all == reader.Content() + reader.strm.Pending() && reader.Content() == Line(all)
    modifies reader, reader.fixedBuffer, reader.strm, reader.strm.readBuff, reader.strm.sock
    ensures reader.Valid() && (old(reader.strm.sock.failed) ==> reader.strm.sock.failed)
    ensures ok ==> ReadChunked(all) == WithTrailer(body, ReadTrailer(reader.strm.Pending()))
    ensures !ok ==> reader.strm.sock.failed || !Obliging(accepts) || ReadChunked(all) == None
  {
    hide Line, AfterLine, LineLength, ReadChunked, StrToUL, ChunkFollows, AfterChunk, ReadTrailer, Obliging;
    body := "";
    ghost var left := all;
    BodyStart(ReadChunked(all));
    while true
      invariant reader.Valid() && (old(reader.strm.sock.failed) ==> reader.strm.sock.failed)
      invariant left == reader.Content() + reader.strm.Pending()
      invariant reader.Content() == Line(left) && reader.Content() != ""
      invariant BodyContinues(ReadChunked(all), body, ReadChunked(left))
      decreases |left|
    {
      LineSplits(left, reader.strm.Pending());
      var chunkLen := StrToUL(reader.Content());
      if chunkLen < 0 || chunkLen == ULONG_MAX {
        BodyEnd(all, body, left);
        return false, body;
      }
      if chunkLen == 0 {
        BodyEnd(all, body, left);
        return true, body;
      }
      SizeBound(left);
      BodyMove(all, body, left, chunkLen);
      ghost var r := AfterLine(left);
      var got;
      got, body := ReadChunk(reader, chunkLen, body, accepts);
      if !got { return false, body; }
      ShorterAfterChunk(r, chunkLen);
      left := AfterChunk(r, chunkLen);
    }
  }

  lemma SizeBound(s: string)
    ensures StrToUL(Line(s)) <= ULONG_MAX
  {
    hide SpaceRun, HexRun, HexNumber, Line;
  }

  lemma ShorterAfterChunk(r: string, size: nat)
    requires size > 0 && ChunkFollows(r, size)
    ensures |AfterChunk(r, size)| < |r|
  {
    hide LineLength;
  }

  /** End to end: the encoded bytes, arriving in any portions, come out of the reader as the
      concatenated pieces and the trailers, and what follows them is left in the stream. */
  method ReceiveEncoded(strm: SocketStream, pieces: seq<string>, trailers: Headers, rest: string, accepts: Receiver)
    returns (r: ReadResult)
    requires strm.Valid() && strm.Pending() == Chunks(pieces) + End(trailers) + rest
    requires forall k | 0 <= k < |pieces| :: 0 < |pieces[k]| < ULONG_MAX
    requires forall k | 0 <= k < |trailers| :: PlainTrailer(trailers[k])
    requires Obliging(accepts)
    modifies strm, strm.readBuff, strm.sock
    ensures strm.Valid()
    ensures !strm.sock.failed ==>
      r == ReadResult(true, Concat(pieces), AllReceived(trailers, 0)) && strm.Pending() == rest
  {
    hide ReadChunked, Chunks, End, PlainTrailer, AllReceived;
    RoundTrip(pieces, trailers, rest);
    r := ReadContentChunked(strm, accepts);
    assert "" + Concat(pieces) == Concat(pieces);
  }
}
