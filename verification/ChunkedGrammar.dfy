/** Which byte strings the chunked reader accepts: the grammar of section 7.1 of RFC 9112, with
    the liberties the reader takes in size lines and trailer lines, and nothing else. */
module ChunkedGrammar {
  import opened Text
  import opened ReadStack
  import opened Chunked
  import opened Wrappers

  /** A chunk as it stands on the wire: the line with its size, and its data. */
  datatype Raw = Raw(line: string, data: string)

  /** A text on the wire: chunks, the size line that says zero, and trailer lines. */
  datatype Coded = Coded(chunks: seq<Raw>, last: string, fields: seq<string>)

  predicate IsLine(l: string) { l != "" && l[|l| - 1] == LF && LF !in l[..|l| - 1] }

  predicate IsChunk(r: Raw) { IsLine(r.line) && 0 < |r.data| < ULONG_MAX && StrToUL(r.line) == |r.data| }

  predicate IsField(l: string) { IsLine(l) && l != CRLF && |l| <= HEADER_MAX_LENGTH }

  predicate IsCoded(t: Coded) {
    && (forall k :: 0 <= k < |t.chunks| ==> IsChunk(t.chunks[k]))
    && IsLine(t.last) && StrToUL(t.last) == 0
    && forall k :: 0 <= k < |t.fields| ==> IsField(t.fields[k])
  }

  function Lines(fields: seq<string>): string { if fields == [] then "" else fields[0] + Lines(fields[1..]) }

  function Wire(t: Coded): string
    decreases |t.chunks|
  {
    if t.chunks == [] then t.last + (Lines(t.fields) + CRLF)
    else t.chunks[0].line + (t.chunks[0].data + (CRLF + Wire(t.(chunks := t.chunks[1..]))))
  }

  function Data(chunks: seq<Raw>): string { if chunks == [] then "" else chunks[0].data + Data(chunks[1..]) }

  function HeadersOf(fields: seq<string>): Headers {
    if fields == [] then [] else HeaderOf(fields[0]) + HeadersOf(fields[1..])
  }

  lemma FirstLine(l: string, rest: string)
    requires IsLine(l)
    ensures Line(l + rest) == l && AfterLine(l + rest) == rest && l + rest != ""
  {
    var a := l[..|l| - 1];
    assert l == a + [LF];
    LineEnds(a, rest);
  }

  lemma LineSplits(s: string)
    requires s != ""
    ensures s == Line(s) + AfterLine(s) && Line(s) != "" && |AfterLine(s)| < |s|
    ensures AfterLine(s) != "" ==> IsLine(Line(s))
    ensures Line(s) == CRLF ==> IsLine(CRLF)
  {
    var i := Find(s, [LF]);
    forall k | 0 <= k < i ensures s[k] != LF {
      assert !OccursAt(s, [LF], k);
      assert s[k..k + 1] == [s[k]];
    }
  }

  // ------------------------------------------------------------- what is written so is read

  lemma {:induction false} FieldsAreRead(fields: seq<string>, rest: string)
    requires forall k :: 0 <= k < |fields| ==> IsField(fields[k])
    ensures ReadTrailer(Lines(fields) + CRLF + rest) == Some((HeadersOf(fields), rest))
    decreases |fields|
  {
    hide HeaderOf, Line, AfterLine, IsLine;
    if fields == [] {
      assert "" + CRLF + rest == CRLF + rest;
      LineOfBreak(rest);
    } else {
      var more := Lines(fields[1..]) + CRLF + rest;
      FieldsAreRead(fields[1..], rest);
      Regroup3(fields[0], Lines(fields[1..]), CRLF, rest);
      assert IsField(fields[0]);
      FirstLine(fields[0], more);
    }
  }

  lemma Regroup3(a: string, b: string, c: string, d: string)
    ensures (a + b) + c + d == a + (b + c + d)
  {}

  /** Whatever stands in the lines: a text of the grammar is read as its data, the headers in its
      trailer lines, and the bytes behind it. */
  lemma {:induction false} CodedIsRead(t: Coded, rest: string)
    requires IsCoded(t)
    ensures ReadChunked(Wire(t) + rest) == Some(Message(Data(t.chunks), HeadersOf(t.fields), rest))
    decreases |t.chunks|
  {
    hide StrToUL, Line, AfterLine, IsLine, ReadTrailer, HeadersOf, Lines;
    if t.chunks == [] {
      FirstLine(t.last, Lines(t.fields) + CRLF + rest);
      assert Wire(t) + rest == t.last + (Lines(t.fields) + CRLF + rest);
      FieldsAreRead(t.fields, rest);
    } else {
      var c, u := t.chunks[0], t.(chunks := t.chunks[1..]);
      assert IsChunk(c) && IsCoded(u);
      CodedIsRead(u, rest);
      var more := Wire(u) + rest;
      Regroup4(c.line, c.data, CRLF, Wire(u), rest);
      var r := c.data + (CRLF + more);
      FirstLine(c.line, r);
      assert r[..|c.data|] == c.data && r[|c.data|..] == CRLF + more;
      LineOfBreak(more);
    }
  }

  lemma Regroup4(a: string, b: string, c: string, d: string, e: string)
    ensures a + (b + (c + d)) + e == a + (b + (c + (d + e)))
  {}

  // ------------------------------------------------------------- what is read is written so

  lemma {:induction false} FieldsOf(s: string) returns (fields: seq<string>)
    requires ReadTrailer(s).Some?
    ensures forall k :: 0 <= k < |fields| ==> IsField(fields[k])
    ensures s == Lines(fields) + CRLF + ReadTrailer(s).value.1
    decreases |s|
  {
    hide HeaderOf, Line, AfterLine, IsLine;
    LineSplits(s);
    fields := [];
    if Line(s) != CRLF {
      var more := FieldsOf(AfterLine(s));
      assert AfterLine(s) != "";
      fields := [Line(s)] + more;
      assert fields[1..] == more;
      Regroup3(Line(s), Lines(more), CRLF, ReadTrailer(s).value.1);
    } else {
      assert "" + CRLF + AfterLine(s) == CRLF + AfterLine(s);
    }
  }

  /** Whatever is read is a text of the grammar and the bytes behind it. */
  lemma {:induction false} ReadIsCoded(s: string) returns (t: Coded)
    requires ReadChunked(s).Some?
    ensures IsCoded(t) && s == Wire(t) + ReadChunked(s).value.rest
    decreases |s|
  {
    hide StrToUL, Line, AfterLine, IsLine, ReadTrailer, Lines;
    LineSplits(s);
    var n, r, rest := StrToUL(Line(s)), AfterLine(s), ReadChunked(s).value.rest;
    if n == 0 {
      TrailerNotEmpty(r);
      var fields := FieldsOf(r);
      t := Coded([], Line(s), fields);
      assert s == Wire(t) + rest;
    } else {
      LineSplits(r[n..]);
      var u := ReadIsCoded(AfterLine(r[n..]));
      var c := Raw(Line(s), r[..n]);
      t := u.(chunks := [c] + u.chunks);
      assert t.chunks[1..] == u.chunks && u.(chunks := u.chunks) == u;
      SizeFits(Line(s));
      assert r != "" && IsChunk(c);
      Regroup4(c.line, c.data, CRLF, Wire(u), rest);
      assert r == r[..n] + r[n..];
    }
  }

  lemma SizeFits(line: string)
    ensures StrToUL(line) <= ULONG_MAX
  {}

  lemma TrailerNotEmpty(r: string)
    requires ReadTrailer(r).Some?
    ensures r != ""
  {}

  /** The reader accepts exactly the texts of the grammar, and takes nothing behind them. */
  lemma AcceptedIff(s: string, rest: string)
    ensures (ReadChunked(s).Some? && ReadChunked(s).value.rest == rest)
       <==> exists t :: IsCoded(t) && s == Wire(t) + rest
  {
    hide IsCoded, Wire, ReadChunked;
    if ReadChunked(s).Some? && ReadChunked(s).value.rest == rest {
      var t := ReadIsCoded(s);
    }
    forall t | IsCoded(t) && s == Wire(t) + rest
      ensures ReadChunked(s).Some? && ReadChunked(s).value.rest == rest
    {
      CodedIsRead(t, rest);
    }
  }
}
