/** A recipient of a multipart range response (section 14.6 of RFC 9110): it takes the parts one
    after the other, reads the type and the range of each, and takes as many bytes as the range
    says. Whatever the response was made from comes back. */
module RangesReadBack {
  import opened RangeHeader
  import opened RangesData
  import opened Text
  import opened Wrappers

  datatype Received = Received(contentType: string, range: Range, total: nat, data: string)

  /** What stands before the first `p`, and what behind it. */
  function UpTo(s: string, p: string): Option<(string, string)>
    requires p != ""
  {
    var i := Find(s, p);
    if i == |s| then None else Some((s[..i], s[i + |p|..]))
  }

  function ReadContentRange(v: string): Option<(Range, nat)> {
    if !StartsWith(v, "bytes ") then None
    else match UpTo(v[6..], "/")
      case None => None
      case Some((spec, total)) =>
        if total == "" || !AllDigits(total) || !ReadPiece(spec).Good? then None
        else Some((ReadPiece(spec).r, Number(total)))
  }

  /** The bytes of a range of `total` bytes. */
  function Length(r: Range, total: nat): nat {
    if r.0 < 0 then if r.1 < 0 || r.1 >= total then total else r.1
    else if r.1 < 0 then if r.0 <= total then total - r.0 else 0
    else if r.0 <= r.1 then r.1 - r.0 + 1 else 0
  }

  function ReadType(s: string): Option<(string, string)> {
    if StartsWith(s, "Content-Type: ") then UpTo(s[14..], CRLF) else Some(("", s))
  }

  function ReadRangeLine(s: string): (o: Option<(Range, nat, string)>)
    ensures o.Some? ==> |o.value.2| < |s|
  {
    if !StartsWith(s, "Content-Range: ") then None
    else match UpTo(s[15..], CRLF)
      case None => None
      case Some((v, rest)) =>
        match ReadContentRange(v)
        case None => None
        case Some((r, total)) => if StartsWith(rest, CRLF) then Some((r, total, rest[2..])) else None
  }

  /** The parts of a body up to the closing boundary, which must be its end. */
  function ReadParts(b: string, s: string): Option<seq<Received>>
    decreases |s|
  {
    if s == "--" + b + "--" then Some([])
    else if !StartsWith(s, "--" + b + CRLF) then None
    else match ReadType(s[|b| + 4..])
      case None => None
      case Some((contentType, more)) =>
        match ReadRangeLine(more)
        case None => None
        case Some((r, total, rest)) =>
          var k := Length(r, total);
          if k + 2 > |rest| || rest[k..k + 2] != CRLF then None
          else match ReadParts(b, rest[k + 2..])
            case None => None
            case Some(parts) => Some([Received(contentType, r, total, rest[..k])] + parts)
  }

  // ------------------------------------------------------------- the header of a part

  lemma UpToFirst(a: string, p: string, rest: string)
    requires p != "" && p[0] !in p[1..] && p[0] !in a
    ensures UpTo(a + p + rest, p) == Some((a, rest))
  {
    AbsentAfterPrefix(a, "", p);
    assert a + "" == a;
    FindAfterAbsent(a, p, rest);
    assert (a + p + rest)[..|a|] == a && (a + p + rest)[|a| + |p|..] == rest;
  }

  /** The range header of a part gives back the range and the length of the content. */
  lemma ContentRangeIsRead(r: Range, n: nat)
    requires Parsed(r)
    ensures ReadContentRange(ContentRange(r, n)) == Some((r, n))
    ensures CR !in ContentRange(r, n)
  {
    hide Decimal, Number, ReadPiece, IsSpec, AllDigits;
    SpecIsRead(r);
    DecimalIsRead(n);
    var spec, total := Spec(r), Decimal(n);
    PlainIsNoBreak(spec);
    DigitsAreNoBreak(total);
    ContentRangeIs(r, n);
    hide Spec, Plain, ContentRange;
    UpToFirst(spec, "/", total);
  }

  lemma ContentRangeIs(r: Range, n: nat)
    ensures var v := ContentRange(r, n);
      && v == "bytes " + (Spec(r) + "/" + Decimal(n))
      && StartsWith(v, "bytes ") && v[6..] == Spec(r) + "/" + Decimal(n)
  {
    hide Decimal, Part;
    var v := ContentRange(r, n);
    assert v == "bytes " + (Spec(r) + "/" + Decimal(n));
    assert v[6..] == Spec(r) + "/" + Decimal(n);
  }

  lemma PlainIsNoBreak(s: string)
    requires forall k :: 0 <= k < |s| ==> Plain(s[k])
    ensures CR !in s && '/' !in s
  {}

  lemma DigitsAreNoBreak(s: string)
    requires AllDigits(s)
    ensures CR !in s
  {}

  lemma RangeLineIsRead(q: Request, r: Range, rest: string)
    requires Parsed(r)
    ensures ReadRangeLine("Content-Range: " + ContentRange(r, q.contentLength) + CRLF + CRLF + rest)
         == Some((r, q.contentLength, rest))
  {
    hide ContentRange, ReadContentRange;
    ContentRangeIsRead(r, q.contentLength);
    var v := ContentRange(r, q.contentLength);
    var s := "Content-Range: " + v + CRLF + CRLF + rest;
    assert s == "Content-Range: " + (v + CRLF + (CRLF + rest));
    assert s[15..] == v + CRLF + (CRLF + rest);
    UpToFirst(v, CRLF, CRLF + rest);
    assert (CRLF + rest)[2..] == rest;
  }

  lemma TypeIsRead(q: Request, rest: string)
    requires CR !in q.contentType && StartsWith(rest, "Content-R")
    ensures ReadType(TypeLine(q) + rest) == Some((q.contentType, rest))
  {
    if q.contentType == "" {
      assert TypeLine(q) + rest == rest;
      assert rest[8] == rest[..9][8] == 'R';
    } else {
      var s := TypeLine(q) + rest;
      assert s == "Content-Type: " + (q.contentType + CRLF + rest);
      assert s[14..] == q.contentType + CRLF + rest;
      UpToFirst(q.contentType, CRLF, rest);
    }
  }

  // ------------------------------------------------------------- the whole body

  /** The body from part `i` on. */
  function Tail(q: Request, content: string, i: nat): string
    requires Within(q, content) && i <= |q.ranges|
    decreases |q.ranges| - i
  {
    if i == |q.ranges| then Closing(q)
    else Head(q, q.ranges[i]) + (Selected(q.ranges[i], content) + (CRLF + Tail(q, content, i + 1)))
  }

  lemma {:induction false} PartsAndTail(q: Request, content: string, i: nat)
    requires Within(q, content) && i <= |q.ranges|
    ensures Parts(q, content, i) + Tail(q, content, i) == Multipart(q, content)
    decreases |q.ranges| - i
  {
    hide Parts, Head, Selected, InContent, Parsed;
    if i == |q.ranges| {
      MultipartJoined(q, content);
    } else {
      PartsAndTail(q, content, i + 1);
      PartCarriesRange(q, content, i);
      Regroup(Parts(q, content, i), Head(q, q.ranges[i]), Selected(q.ranges[i], content), CRLF, Tail(q, content, i + 1));
    }
  }

  lemma Regroup(a: string, b: string, c: string, d: string, e: string)
    ensures ((a + b) + c + d) + e == a + (b + (c + (d + e)))
  {}

  function Expected(q: Request, content: string, i: nat): seq<Received>
    requires Within(q, content) && i <= |q.ranges|
    decreases |q.ranges| - i
  {
    if i == |q.ranges| then []
    else [Received(q.contentType, q.ranges[i], |content|, Selected(q.ranges[i], content))] + Expected(q, content, i + 1)
  }

  lemma SelectedLength(r: Range, content: string)
    requires Parsed(r) && InContent(r, |content|)
    ensures |Selected(r, content)| == Length(r, |content|)
  {}

  lemma HeadIsRead(q: Request, r: Range, rest: string)
    requires Parsed(r) && CR !in q.contentType
    ensures var s := Head(q, r) + rest;
      && StartsWith(s, "--" + q.boundary + CRLF) && s != "--" + q.boundary + "--"
      && ReadType(s[|q.boundary| + 4..]).Some?
      && ReadType(s[|q.boundary| + 4..]).value.0 == q.contentType
      && ReadRangeLine(ReadType(s[|q.boundary| + 4..]).value.1) == Some((r, q.contentLength, rest))
  {
    hide ContentRange, ReadRangeLine, ReadType, TypeLine;
    var v := ContentRange(r, q.contentLength);
    var line := "Content-Range: " + v + CRLF + CRLF + rest;
    var first := "--" + q.boundary + CRLF;
    var s := Head(q, r) + rest;
    HeadRegroup(first, TypeLine(q), v, rest);
    assert s == first + (TypeLine(q) + line);
    assert s[..|first|] == first && s[|q.boundary| + 4..] == TypeLine(q) + line;
    assert s[|first| - 1] == LF;
    assert line[..9] == "Content-R";
    TypeIsRead(q, line);
    RangeLineIsRead(q, r, rest);
  }

  lemma HeadRegroup(a: string, b: string, c: string, d: string)
    ensures a + b + "Content-Range: " + c + CRLF + CRLF + d == a + (b + ("Content-Range: " + c + CRLF + CRLF + d))
  {
    var e := "Content-Range: " + c + CRLF + CRLF;
    assert a + b + "Content-Range: " + c + CRLF + CRLF == a + (b + e);
    assert a + (b + e) + d == a + (b + (e + d));
  }

  lemma {:induction false} TailIsRead(q: Request, content: string, i: nat)
    requires Within(q, content) && i <= |q.ranges| && CR !in q.contentType
    ensures ReadParts(q.boundary, Tail(q, content, i)) == Some(Expected(q, content, i))
    decreases |q.ranges| - i
  {
    hide Head, Selected, InContent, Parsed, ReadType, ReadRangeLine, Length;
    if i < |q.ranges| {
      var r := q.ranges[i];
      var data := Selected(r, content);
      var rest := data + (CRLF + Tail(q, content, i + 1));
      TailIsRead(q, content, i + 1);
      HeadIsRead(q, r, rest);
      SelectedLength(r, content);
      assert rest[..|data|] == data && rest[|data| + 2..] == Tail(q, content, i + 1);
      assert rest[|data|..|data| + 2] == CRLF;
    }
  }

  /** The body of a response for ranges inside the content, whatever the content and the boundary,
      is read back as the requested ranges in order, each with the content type, the length of the
      content, and exactly the bytes the range asks for. */
  lemma BodyIsReadBack(q: Request, content: string)
    requires Within(q, content) && CR !in q.contentType
    ensures ReadParts(q.boundary, Multipart(q, content)) == Some(Expected(q, content, 0))
    ensures |Expected(q, content, 0)| == |q.ranges|
    ensures forall k :: 0 <= k < |q.ranges| ==>
      Expected(q, content, 0)[k] == Received(q.contentType, q.ranges[k], |content|, Selected(q.ranges[k], content))
  {
    hide Tail, Multipart, ReadParts, Selected;
    PartsAndTail(q, content, 0);
    assert "" + Tail(q, content, 0) == Tail(q, content, 0);
    TailIsRead(q, content, 0);
    ExpectedAt(q, content, 0);
  }

  lemma {:induction false} ExpectedAt(q: Request, content: string, i: nat)
    requires Within(q, content) && i <= |q.ranges|
    ensures |Expected(q, content, i)| == |q.ranges| - i
    ensures forall k :: i <= k < |q.ranges| ==>
      Expected(q, content, i)[k - i] == Received(q.contentType, q.ranges[k], |content|, Selected(q.ranges[k], content))
    decreases |q.ranges| - i
  {
    hide Selected;
    if i < |q.ranges| { ExpectedAt(q, content, i + 1); }
  }
}
