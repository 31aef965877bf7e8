/** Header lines the serializer never writes: the extended file name of section 5 of RFC 5987,
    names without which an entry is refused, and lines that are no header of an entry. */
module MultipartNames {
  import opened Text
  import opened MultipartRoundTrip
  import opened MultipartSpec
  import opened Wrappers
  import Query

  const EXTENDED: string := "filename*"

  /** A value that can stand unquoted behind a key. */
  predicate BareValue(v: string) {
    PlainValue(v) && NoOuterBlanks(v) && (v != "" ==> v[0] != '"')
  }

  function ExtendedText(item: Item, v: string): string { DispositionText(item) + "; filename*=" + v }

  function ExtendedLine(item: Item, v: string): string { DispositionLine(item) + "; filename*=" + v }

  lemma BarePart(v: string)
    requires BareValue(v)
    ensures ParamField(EXTENDED + "=" + v) == [(EXTENDED, v)]
    ensures NoOuterBlanks(EXTENDED + "=" + v)
  {
    hide Split, Trim;
    var kv := EXTENDED + "=" + v;
    assert kv == EXTENDED + ['='] + v;
    SplitCons(EXTENDED, '=', v);
    SplitLast(v, '=');
    TrimKeeps(EXTENDED);
    TrimKeeps(v);
    assert Split(kv, '=') == [EXTENDED] + Keep(v);
    assert kv[0] == 'f' && kv[|kv| - 1] == if v == "" then '=' else v[|v| - 1];
  }

  lemma SplitExtended(item: Item, v: string)
    requires PlainValue(item.name) && PlainValue(item.filename) && BareValue(v)
    ensures Split(ExtendedText(item, v), ';') == Split(DispositionText(item), ';') + [EXTENDED + "=" + v]
  {
    hide Split, Trim;
    var last := EXTENDED + "=" + v;
    BarePart(v);
    assert ExtendedText(item, v) == DispositionText(item) + [';'] + (" " + last);
    Query.SplitSnoc(DispositionText(item), ';', " " + last);
    TrimLeadingBlank(last);
  }

  lemma {:induction false} ParamFieldsSnoc(fields: seq<string>, last: string, cache: set<string>)
    requires last !in fields && last !in cache
    ensures ParamFields(fields + [last], cache) == ParamFields(fields, cache) + ParamField(last)
    decreases |fields|
  {
    hide ParamField;
    if fields == [] {
      assert [] + [last] == [last];
      OneParam(last, cache);
    } else {
      assert (fields + [last])[1..] == fields[1..] + [last];
      ParamFieldsSnoc(fields[1..], last, if fields[0] in cache then cache else cache + {fields[0]});
      var rest := ParamFields(fields[1..], cache + {fields[0]});
      Query.AssocParams(ParamField(fields[0]), rest, ParamField(last));
    }
  }

  lemma ExtendedParams(item: Item, v: string)
    requires PlainValue(item.name) && PlainValue(item.filename) && BareValue(v)
    ensures DispositionParams(ExtendedText(item, v)) == DispositionParams(DispositionText(item)) + [(EXTENDED, v)]
  {
    hide Split, ParamField, ParamFields;
    SplitDisposition(item);
    SplitExtended(item, v);
    BarePart(v);
    var last := EXTENDED + "=" + v;
    assert last[8] == '*' && last[0] == 'f';
    assert NamePart(item)[0] == 'n' && FilePart(item)[8] == '=';
    ParamFieldsSnoc(Split(DispositionText(item), ';'), last, {});
  }

  /** `find` looks at the pairs in order. */
  lemma {:induction false} LookupConcat(a: Query.Params, b: Query.Params, key: string)
    ensures Lookup(a + b, key) == if Lookup(a, key).Some? then Lookup(a, key) else Lookup(b, key)
    decreases |a|
  {
    if a == [] {
      assert a + b == b;
    } else {
      assert (a + b)[1..] == a[1..] + b;
      LookupConcat(a[1..], b, key);
    }
  }

  /** The form of every disposition line here. */
  function LineOf(t: string): string { DISPOSITION + " " + FORM_DATA + " " + t }

  lemma RestOfLine(t: string)
    requires t != "" && !IsSpace(t[0]) && OneLine(t)
    ensures DispositionRest(LineOf(t)) == Some(t)
    ensures !StartsWithIgnoreCase(LineOf(t), "content-type:")
  {
    hide SkipSpaces;
    var r := FORM_DATA + " " + t;
    AfterBlank(DISPOSITION, r);
    AfterBlank(FORM_DATA, t);
    assert LineOf(t) == DISPOSITION + " " + r;
    assert ToLower(LineOf(t)[8]) != ToLower("content-type:"[8]);
  }

  lemma RestOfExtended(item: Item, v: string)
    requires PlainValue(item.name) && PlainValue(item.filename) && OneLine(v)
    ensures DispositionRest(ExtendedLine(item, v)) == Some(ExtendedText(item, v))
    ensures !StartsWithIgnoreCase(ExtendedLine(item, v), "content-type:")
  {
    hide DispositionRest, StartsWithIgnoreCase;
    var t := ExtendedText(item, v);
    assert t[0] == 'n';
    assert OneLine(t) by { OneLineJoined(item, v); }
    RestOfLine(t);
    assert ExtendedLine(item, v) == LineOf(t);
  }

  lemma OneLineJoined(item: Item, v: string)
    requires PlainValue(item.name) && PlainValue(item.filename) && OneLine(v)
    ensures OneLine(ExtendedText(item, v))
  {
    assert OneLine("name=\"") && OneLine("\"") && OneLine("; filename=\"") && OneLine("; filename*=") && OneLine("");
    hide OneLine;
    Joined("name=\"", item.name);
    Joined("name=\"" + item.name, "\"");
    Joined("; filename=\"", item.filename);
    Joined("; filename=\"" + item.filename, "\"");
    Joined(NamePart(item), if item.filename == "" then "" else "; filename=\"" + item.filename + "\"");
    Joined(DispositionText(item), "; filename*=");
    Joined(DispositionText(item) + "; filename*=", v);
  }

  lemma Joined(a: string, b: string)
    requires OneLine(a) && OneLine(b)
    ensures OneLine(a + b)
  {}

  /** A disposition with an extended file name: the entry gets the name and the decoded file name,
      whatever plain file name stands before it, exactly if the value declares UTF-8, in any case,
      and is not empty; otherwise the line is refused. */
  lemma ExtendedNameIsRead(file: Item, item: Item, v: string)
    requires PlainValue(item.name) && PlainValue(item.filename) && BareValue(v)
    ensures var (ok, read) := HeaderLine(file, ExtendedLine(item, v));
      && (ok <==> StartsWithIgnoreCase(v, "UTF-8''") && |v| > 7)
      && (ok ==> read == file.(name := item.name, filename := Query.Decode(v[7..], false)))
  {
    hide SkipSpaces, StartsWithIgnoreCase, Query.DecodeFrom, DispositionParams, Lookup, DispositionRest;
    RestOfExtended(item, v);
    ExtendedParams(item, v);
    ParamsOfDisposition(item);
    var params := DispositionParams(DispositionText(item));
    PlainLookups(item);
    LookupConcat(params, [(EXTENDED, v)], "name");
    LookupConcat(params, [(EXTENDED, v)], "filename");
    LookupConcat(params, [(EXTENDED, v)], EXTENDED);
    LookupOne(v);
    assert |v| > 7 ==> OneLine(v[7..]);
  }

  lemma LookupOne(v: string)
    ensures Lookup([(EXTENDED, v)], EXTENDED) == Some(v) && Lookup([(EXTENDED, v)], "filename") == None
  {
    assert |EXTENDED| == 9 && |"filename"| == 8;
    LookupCons((EXTENDED, v), [], EXTENDED);
    LookupCons((EXTENDED, v), [], "filename");
    assert [(EXTENDED, v)] + [] == [(EXTENDED, v)];
  }

  lemma PlainLookups(item: Item)
    ensures var params: Query.Params :=
        [("name", item.name)] + (if item.filename == "" then [] else [("filename", item.filename)]);
      && Lookup(params, "name") == Some(item.name) && Lookup(params, EXTENDED) == None
      && Lookup(params, "filename") == if item.filename == "" then None else Some(item.filename)
  {
    var n, f := ("name", item.name), ("filename", item.filename);
    var rest: Query.Params := if item.filename == "" then [] else [f];
    assert |"name"| == 4 && |"filename"| == 8 && |EXTENDED| == 9;
    LookupCons(n, rest, "name");
    LookupCons(n, rest, "filename");
    LookupCons(n, rest, EXTENDED);
    LookupCons(f, [], "filename");
    LookupCons(f, [], EXTENDED);
    assert [f] + [] == [f];
  }

  // ------------------------------------------------------------- an encoded file name

  lemma {:induction false} EncodedIsBare(v: string)
    ensures forall i | 0 <= i < |Query.EncodeParam(v)| ::
      Query.Unreserved(Query.EncodeParam(v)[i]) || Query.EncodeParam(v)[i] == '%'
    ensures v != "" ==> Query.EncodeParam(v) != ""
  {
    if v != "" { EncodedIsBare(v[1..]); }
  }

  /** Every non-empty file name of bytes can be sent: percent-encoded behind `UTF-8''`, in any
      case, it arrives as it was, also when a plain file name stands before it. */
  lemma EncodedNameArrives(file: Item, item: Item, charset: string, v: string)
    requires PlainValue(item.name) && PlainValue(item.filename)
    requires EqualIgnoreCase(charset, "UTF-8''") && v != "" && Query.IsByteString(v)
    ensures HeaderLine(file, ExtendedLine(item, charset + Query.EncodeParam(v)))
         == (true, file.(name := item.name, filename := v))
  {
    hide HeaderLine, Query.EncodeParam, Query.DecodeFrom;
    var e := Query.EncodeParam(v);
    var x := charset + e;
    EncodedIsBare(v);
    assert forall i | 0 <= i < 7 :: x[i] == charset[i] && ToLower(x[i]) == ToLower("UTF-8''"[i]);
    assert x[0] != '"' && !IsBlank(x[0]);
    assert x[|x| - 1] == e[|e| - 1];
    CharsetIsPlain(charset);
    assert forall i | 7 <= i < |x| :: x[i] == e[i - 7];
    assert forall i | 0 <= i < |x| :: x[i] !in {CR, LF, ';', '='};
    ExtendedNameIsRead(file, item, x);
    assert x[7..] == e && e[0..] == e;
    Query.DecodeEncoded(e, 0, v, false);
  }

  lemma CharsetIsPlain(charset: string)
    requires EqualIgnoreCase(charset, "UTF-8''")
    ensures forall i | 0 <= i < 7 :: charset[i] !in {CR, LF, ';', '=', '"', ' ', '\t'}
  {
    forall i | 0 <= i < 7 ensures charset[i] !in {CR, LF, ';', '=', '"', ' ', '\t'} {
      assert ToLower(charset[i]) == ToLower("UTF-8''"[i]);
    }
  }

  /** And such an entry is announced to the receiver with that name. */
  lemma EncodedNameIsAnnounced(s: State, item: Item, v: string, more: string, accepts: Receiver)
    requires PlainValue(item.name) && PlainValue(item.filename) && v != "" && Query.IsByteString(v)
    requires s.stage == 2 && s.held == ExtendedLine(item, "UTF-8''" + Query.EncodeParam(v)) + CRLF + (CRLF + more)
    ensures var e := Header(s.file.(name := item.name, filename := v));
      var o := HeaderLoop(s, accepts);
      if accepts(s.log, e) then o.Go? && o.next.log == s.log + [e] && o.next.held == more && o.next.stage == 3
      else o.Stop? && !o.ok && !o.last.valid && o.last.log == s.log + [e]
  {
    hide HeaderLine, ExtendedLine, Query.EncodeParam, Find, OccursAt;
    var x := "UTF-8''" + Query.EncodeParam(v);
    EncodedNameArrives(s.file, item, "UTF-8''", v);
    EncodedLineIsOne(item, v);
    var line := ExtendedLine(item, x);
    LineIsFirst(line, CRLF + more);
    assert s.held[..|line|] == line && s.held[|line| + 2..] == CRLF + more;
    LineIsFirst("", more);
    assert "" + CRLF + more == CRLF + more && (CRLF + more)[2..] == more;
  }

  lemma LineIsFirst(line: string, more: string)
    requires CR !in line
    ensures Find(line + CRLF + more, CRLF) == |line| < |line + CRLF + more|
  {
    AbsentAfterPrefix(line, "", CRLF);
    assert line + "" == line;
    FindAfterAbsent(line, CRLF, more);
  }

  lemma EncodedLineIsOne(item: Item, v: string)
    requires PlainValue(item.name) && PlainValue(item.filename)
    ensures var line := ExtendedLine(item, "UTF-8''" + Query.EncodeParam(v)); CR !in line && line != ""
  {
    hide Query.EncodeParam;
    EncodedIsBare(v);
    var x := "UTF-8''" + Query.EncodeParam(v);
    assert forall i | 0 <= i < |x| :: x[i] != CR && x[i] != LF;
    OneLineJoined(item, x);
    var prefix := DISPOSITION + " " + FORM_DATA + " ";
    assert CR !in prefix;
    assert ExtendedLine(item, x) == prefix + ExtendedText(item, x);
  }

  // ------------------------------------------------------------- what is refused

  /** A disposition that names a file but no field is refused, and so is every line that is
      neither a disposition nor a content type. */
  lemma OthersAreRefused(file: Item, item: Item, line: string)
    requires PlainValue(item.filename)
    ensures HeaderLine(file, LineOf(FilePart(item))) == (false, file)
    ensures !StartsWithIgnoreCase(line, "content-type:") && !StartsWithIgnoreCase(line, DISPOSITION) ==>
      HeaderLine(file, line) == (false, file)
  {
    hide DispositionParams, StartsWithIgnoreCase;
    var t := FilePart(item);
    assert t[0] == 'f';
    RestOfLine(t);
    NoNameInFilePart(item);
  }

  lemma NoNameInFilePart(item: Item)
    requires PlainValue(item.filename)
    ensures Lookup(DispositionParams(FilePart(item)), "name") == None
  {
    hide Split, ParamField;
    var t := FilePart(item);
    SplitLast(t, ';');
    TrimKeeps(t);
    QuotedPart("filename", item.filename);
    assert t == "filename" + "=\"" + item.filename + "\"";
    OneParam(t, {});
    assert |"name"| == 4 && |"filename"| == 8;
    LookupCons(("filename", item.filename), [], "name");
    assert [("filename", item.filename)] + [] == [("filename", item.filename)];
  }
}
