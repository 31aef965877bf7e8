/** The parser undoes the serializer, however the bytes are cut into chunks. */
module MultipartRoundTrip {
  import opened Text
  import opened MultipartSpec
  import Query
  import opened Wrappers

  // ------------------------------------------------------------- what may be sent

  /** A parameter value that cannot be mistaken for syntax (section 4 of RFC 7578). */
  predicate PlainValue(v: string) { OneLine(v) && ';' !in v && '=' !in v }

  predicate ValidBoundary(b: string) {
    forall i | 0 <= i < |b| :: 'a' <= b[i] <= 'z' || 'A' <= b[i] <= 'Z' || '0' <= b[i] <= '9' || b[i] == '-' || b[i] == '_'
  }

  /** Header lines stay below the limit by one, since a line whose LF has not arrived yet is
      measured with its CR. The delimiter is not part of the content (section 5.1.1 of RFC 2046). */
  predicate Sendable(item: Item, b: string) {
    && PlainValue(item.name) && PlainValue(item.filename)
    && Absent(item.contentType, CRLF) && NoOuterBlanks(item.contentType)
    && |DispositionLine(item)| < HEADER_MAX_LENGTH && |TypeLine(item)| < HEADER_MAX_LENGTH
    && Absent(item.content, Delimiter(b))
  }

  predicate AllSendable(items: seq<Item>, b: string) {
    ValidBoundary(b) && forall i | 0 <= i < |items| :: Sendable(items[i], b)
  }

  ghost predicate Obliging(accepts: Receiver) {
    forall log, e :: accepts(log, e)
  }

  // ------------------------------------------------------------- header lines are understood

  lemma QuotedPart(key: string, v: string)
    requires key != "" && PlainValue(v) && '=' !in key && NoOuterBlanks(key) && key[0] != '"'
    ensures ParamField(key + "=\"" + v + "\"") == [(key, v)]
  {
    var q := "\"" + v + "\"";
    assert key + "=\"" + v + "\"" == key + ['='] + q;
    SplitCons(key, '=', q);
    SplitLast(q, '=');
    TrimKeeps(key);
    TrimKeeps(q);
    assert q[1..|q| - 1] == v;
    hide Split, Trim;
    assert Split(key + ['='] + q, '=') == [key, q];
  }

  function NamePart(item: Item): string { "name=\"" + item.name + "\"" }
  function FilePart(item: Item): string { "filename=\"" + item.filename + "\"" }

  lemma SplitDisposition(item: Item)
    requires PlainValue(item.name) && PlainValue(item.filename)
    ensures Split(DispositionText(item), ';')
         == [NamePart(item)] + (if item.filename == "" then [] else [FilePart(item)])
  {
    hide Split, Trim;
    var p, q := NamePart(item), FilePart(item);
    TrimKeeps(p);
    if item.filename == "" {
      assert DispositionText(item) == p;
      SplitLast(p, ';');
    } else {
      assert DispositionText(item) == p + [';'] + (" " + q);
      SplitCons(p, ';', " " + q);
      SplitLast(" " + q, ';');
      TrimLeadingBlank(q);
    }
  }

  lemma ParamsOfDisposition(item: Item)
    requires PlainValue(item.name) && PlainValue(item.filename)
    ensures DispositionParams(DispositionText(item))
         == [("name", item.name)] + (if item.filename == "" then [] else [("filename", item.filename)])
  {
    hide Split, ParamField;
    SplitDisposition(item);
    QuotedPart("name", item.name);
    QuotedPart("filename", item.filename);
    var p, q := NamePart(item), FilePart(item);
    assert p == "name" + "=\"" + item.name + "\"" && q == "filename" + "=\"" + item.filename + "\"";
    assert p[0] != q[0];
    OneParam(p, {});
    OneParam(q, {p});
    assert [p] + [q] == [p, q] && [p, q][1..] == [q];
    assert {} + {p} == {p};
    assert ParamFields([p, q], {}) == ParamField(p) + ParamFields([q], {} + {p});
  }

  lemma OneParam(kv: string, cache: set<string>)
    requires kv !in cache
    ensures ParamFields([kv], cache) == ParamField(kv)
  {
    hide ParamField;
    assert [kv][1..] == [];
  }

  lemma LookupCons(h: (string, string), t: Query.Params, key: string)
    ensures Lookup([h] + t, key) == if h.0 == key then Some(h.1) else Lookup(t, key)
  {
    assert ([h] + t)[1..] == t;
  }

  lemma NamesFile(file: Item, item: Item)
    ensures NameFile(file, [("name", item.name)] + (if item.filename == "" then [] else [("filename", item.filename)]))
         == (true, file.(name := item.name, filename := if item.filename == "" then file.filename else item.filename))
  {
    var n, f := ("name", item.name), ("filename", item.filename);
    var rest: Query.Params := if item.filename == "" then [] else [f];
    assert |"name"| == 4 && |"filename"| == 8 && |"filename*"| == 9;
    LookupCons(n, rest, "name");
    LookupCons(n, rest, "filename");
    LookupCons(n, rest, "filename*");
    LookupCons(f, [], "filename");
    LookupCons(f, [], "filename*");
    var none: Query.Params := [];
    assert [f] + none == [f];
  }

  lemma AfterBlank(a: string, rest: string)
    requires rest != "" && !IsSpace(rest[0])
    ensures StartsWithIgnoreCase(a + " " + rest, a)
    ensures SkipSpaces((a + " " + rest)[|a|..]) == rest
  {
    var s := a + " " + rest;
    assert s[|a|..] == " " + rest && s[|a|..][1..] == rest;
  }

  lemma RestOfDisposition(item: Item)
    requires PlainValue(item.name) && PlainValue(item.filename)
    ensures DispositionRest(DispositionLine(item)) == Some(DispositionText(item))
    ensures !StartsWithIgnoreCase(DispositionLine(item), "content-type:")
  {
    hide SkipSpaces;
    var t := DispositionText(item);
    var r := FORM_DATA + " " + t;
    AfterBlank(DISPOSITION, r);
    AfterBlank(FORM_DATA, t);
    assert DispositionLine(item) == DISPOSITION + " " + r;
    assert ToLower(DispositionLine(item)[8]) != ToLower("content-type:"[8]);
  }

  // ------------------------------------------------------------- the text still to come

  /** The header lines of an item. */
  function Lines(item: Item): seq<string> {
    [DispositionLine(item)] + (if item.contentType == "" then [] else [TypeLine(item)])
  }

  /** The entry after the parser has read `k` of them. */
  function FileAfter(item: Item, k: nat): Item {
    Item(if k == 0 then "" else item.name, "", if k == 0 then "" else item.filename,
         if k <= 1 then "" else item.contentType)
  }

  function LinesFrom(lines: seq<string>, k: nat): string
    requires k <= |lines|
    decreases |lines| - k
  {
    if k == |lines| then CRLF else lines[k] + CRLF + LinesFrom(lines, k + 1)
  }

  /** After the delimiter that ends item `i`: the next entry or the closing dashes. */
  function Tail(items: seq<Item>, b: string, i: nat): string
    requires i < |items|
    decreases |items| - i, 0
  {
    if i + 1 < |items| then CRLF + Entry(items, b, i + 1) else "--" + CRLF
  }

  /** From the header lines of item `i` on. */
  function Entry(items: seq<Item>, b: string, i: nat): string
    requires i < |items|
    decreases |items| - i, 1
  {
    LinesFrom(Lines(items[i]), 0) + (items[i].content + Delimiter(b) + Tail(items, b, i))
  }

  /** The serialized form is the opening boundary followed by the first entry. */
  lemma {:induction false} SerializedEntry(items: seq<Item>, b: string, i: nat)
    requires i < |items|
    ensures SerializeFrom(items, b, i, true) == Opening(b) + Entry(items, b, i)
    decreases |items| - i
  {
    hide Opening, Delimiter, ItemBegin, LinesFrom, Finish;
    var item := items[i];
    var rest := SerializeFrom(items, b, i + 1, true);
    BeginIsLines(item, b);
    if i + 1 < |items| {
      SerializedEntry(items, b, i + 1);
    }
    LineBreakBoundary(items, b, i, rest);
    Regroup(Opening(b), LinesFrom(Lines(item), 0), item.content, CRLF, rest, Delimiter(b), Tail(items, b, i));
  }

  lemma Regroup(o: string, l: string, c: string, n: string, rest: string, d: string, t: string)
    requires n + rest == d + t
    ensures (o + l) + c + n + rest == o + (l + (c + d + t))
  {
    assert c + d + t == c + (d + t);
    assert (o + l) + c + n + rest == (o + l) + c + (n + rest);
  }

  /** A line break before a boundary line is the delimiter. */
  lemma LineBreakBoundary(items: seq<Item>, b: string, i: nat, rest: string)
    requires i < |items|
    requires rest == if i + 1 < |items| then Opening(b) + Entry(items, b, i + 1) else Finish(b)
    ensures CRLF + rest == Delimiter(b) + Tail(items, b, i)
  {
    hide Entry;
    if i + 1 < |items| {
      var e := Entry(items, b, i + 1);
      assert CRLF + ("--" + b + CRLF + e) == (CRLF + "--" + b) + (CRLF + e);
    } else {
      assert CRLF + ("--" + b + "--" + CRLF) == (CRLF + "--" + b) + ("--" + CRLF);
    }
  }

  lemma BeginIsLines(item: Item, b: string)
    ensures ItemBegin(item, b) == Opening(b) + LinesFrom(Lines(item), 0)
  {
    hide DispositionLine, TypeLine, Opening;
    var d, t := DispositionLine(item), TypeLine(item);
    var l := Lines(item);
    assert LinesFrom(l, 0) == d + CRLF + LinesFrom(l, 1);
    if item.contentType == "" {
      assert Opening(b) + d + CRLF + "" + CRLF == Opening(b) + (d + CRLF + CRLF);
    } else {
      assert LinesFrom(l, 1) == t + CRLF + LinesFrom(l, 2);
      RegroupLines(Opening(b), d, t, CRLF);
    }
  }

  lemma RegroupLines(o: string, d: string, t: string, n: string)
    ensures o + d + n + (t + n) + n == o + (d + n + (t + n + n))
  {}

  // ------------------------------------------------------------- where the parser stands

  datatype Place =
    | AtOpening
    | AtEntry(i: nat)
    | AtHeaders(i: nat, k: nat)
    | AtBody(i: nat, c: nat)
    | AtBoundary(i: nat)
    | AtEnd

  ghost predicate Fits(items: seq<Item>, p: Place) {
    match p
    case AtOpening => items != []
    case AtEntry(i) => i < |items|
    case AtHeaders(i, k) => i < |items| && k <= |Lines(items[i])|
    case AtBody(i, c) => i < |items| && c <= |items[i].content|
    case AtBoundary(i) => i < |items|
    case AtEnd => true
  }

  /** The bytes held and those still to arrive. */
  ghost predicate Ahead(items: seq<Item>, b: string, p: Place, text: string)
    requires Fits(items, p)
  {
    match p
    case AtOpening => text == Opening(b) + Entry(items, b, 0)
    case AtEntry(i) => text == Entry(items, b, i)
    case AtHeaders(i, k) =>
      text == LinesFrom(Lines(items[i]), k) + (items[i].content + Delimiter(b) + Tail(items, b, i))
    case AtBody(i, c) => text == items[i].content[c..] + Delimiter(b) + Tail(items, b, i)
    case AtBoundary(i) => text == Tail(items, b, i)
    case AtEnd => text in {"", "\n", CRLF}
  }

  /** The items the callbacks have delivered so far. */
  function Delivered(items: seq<Item>, p: Place): seq<Item>
    requires Fits(items, p)
  {
    match p
    case AtOpening => []
    case AtEntry(i) => items[..i]
    case AtHeaders(i, k) => items[..i]
    case AtBody(i, c) => items[..i] + [items[i].(content := items[i].content[..c])]
    case AtBoundary(i) => items[..i + 1]
    case AtEnd => items
  }

  ghost predicate Stands(items: seq<Item>, b: string, p: Place, s: State, rest: string) {
    && Fits(items, p)
    && s.file.content == ""
    && s.valid == p.AtEnd?
    && Collect(s.log) == Delivered(items, p)
    && Ahead(items, b, p, s.held + rest)
    && match p
       case AtOpening => s.stage == 0 && (s.held == "" || |s.held| >= |Opening(b)|)
       case AtEntry(_) => s.stage == 1
       case AtHeaders(i, k) => s.stage == 2 && s.file == FileAfter(items[i], k)
       case AtBody(_, _) => s.stage == 3
       case AtBoundary(_) => s.stage == 4
       case AtEnd => s.stage == 4 || (s.stage == 1 && s.held == rest == "")
  }

  /** A turn of the loop moves the parser on, or stops it for want of bytes. */
  ghost predicate MovesOn(items: seq<Item>, b: string, o: Outcome, rest: string, q: Place) {
    match o
    case Go(n) => Stands(items, b, q, n, rest)
    case Stop(l, ok) => ok && Stands(items, b, q, l, rest) && !q.AtOpening? && (rest == "" ==> q.AtEnd?)
  }

  lemma FromOpening(items: seq<Item>, b: string, s: State, rest: string)
    requires s.held != "" && Stands(items, b, AtOpening, s, rest)
    ensures MovesOn(items, b, StepOpening(b, s), rest, AtEntry(0))
  {
    hide Entry, Opening, Tail;
    var o := Opening(b);
    assert s.held[..|o|] == (s.held + rest)[..|o|] == o;
    assert OccursAt(s.held, o, 0);
    assert Find(s.held, o) == 0;
    assert s.held[0..] == s.held;
    assert s.held[|o|..] + rest == (s.held + rest)[|o|..] == Entry(items, b, 0);
  }

  lemma FromEntry(items: seq<Item>, b: string, i: nat, s: State, rest: string)
    requires s.held != "" && Stands(items, b, AtEntry(i), s, rest)
    ensures MovesOn(items, b, StepEntry(s), rest, AtHeaders(i, 0))
  {
    hide Tail, LinesFrom;
  }

  lemma FromBoundary(items: seq<Item>, b: string, i: nat, s: State, rest: string)
    requires s.held != "" && Stands(items, b, AtBoundary(i), s, rest)
    ensures MovesOn(items, b, StepBoundary(s), rest,
                    if |s.held| < 2 then AtBoundary(i) else if i + 1 < |items| then AtEntry(i + 1) else AtEnd)
  {
    hide Entry, Opening, Delimiter, Collect;
    var t := s.held + rest;
    if |s.held| >= 2 {
      assert s.held[..2] == t[..2] && s.held[2..] + rest == t[2..];
      if i + 1 < |items| {
        assert t[..2] == CRLF && t[2..] == Entry(items, b, i + 1);
      } else {
        assert t[..2] == "--" && t[2..] == CRLF;
        assert items[..i + 1] == items;
        EndOfLineBreak(s.held[2..], rest);
        assert "" + rest == rest;
      }
    }
  }

  /** What may be left of the final line break. */
  lemma EndOfLineBreak(x: string, rest: string)
    requires x + rest == CRLF
    ensures rest in {"", "\n", CRLF}
  {
    if |x| == 0 { assert rest == x + rest; }
    else if |x| == 1 { assert rest == (x + rest)[1..] == "\n"; }
    else { assert |rest| == 0; }
  }

  lemma FromEnd(items: seq<Item>, b: string, s: State, rest: string)
    requires s.held != "" && Stands(items, b, AtEnd, s, rest)
    ensures MovesOn(items, b, StepBoundary(s), rest, AtEnd)
  {
    hide Entry, Opening, Delimiter, Collect;
    var t := s.held + rest;
    assert |t| <= 2;
    if |s.held| == 2 {
      assert rest == "" && t == s.held == CRLF;
      assert s.held[2..] == "" && "" + rest == "";
    }
  }

  // ------------------------------------------------------------- header lines

  lemma OneLineHasNoBreak(s: string)
    requires OneLine(s)
    ensures Absent(s, CRLF)
  {
    AbsentAfterPrefix(s, "", CRLF);
    assert s + "" == s;
  }

  lemma DispositionIsOneLine(item: Item)
    requires PlainValue(item.name) && PlainValue(item.filename)
    ensures OneLine(DispositionLine(item))
  {
    assert OneLine(DISPOSITION + " " + FORM_DATA + " ");
    assert OneLine(DispositionText(item));
  }

  lemma LineHasNoBreak(item: Item, b: string, k: nat)
    requires Sendable(item, b) && k < |Lines(item)|
    ensures Absent(Lines(item)[k], CRLF) && Lines(item)[k] != "" && |Lines(item)[k]| < HEADER_MAX_LENGTH
  {
    if k == 0 {
      DispositionIsOneLine(item);
      OneLineHasNoBreak(DispositionLine(item));
    } else {
      AbsentAfterPrefix("Content-Type: ", item.contentType, CRLF);
    }
  }

  lemma LineIsRead(item: Item, b: string, k: nat)
    requires Sendable(item, b) && k < |Lines(item)|
    ensures HeaderLine(FileAfter(item, k), Lines(item)[k]) == (true, FileAfter(item, k + 1))
  {
    if k == 0 {
      RestOfDisposition(item);
      ParamsOfDisposition(item);
      NamesFile(FileAfter(item, 0), item);
    } else {
      var t := TypeLine(item);
      TypeLineIsType(item);
      assert t[13..] == " " + item.contentType;
      TrimLeadingBlank(item.contentType);
    }
  }

  lemma TypeLineIsType(item: Item)
    ensures StartsWithIgnoreCase(TypeLine(item), "content-type:")
  {
    var t, h := TypeLine(item), "content-type:";
    assert |h| == 13;
    assert ToLower(t[0]) == h[0] == ToLower(h[0]) && ToLower(t[8]) == h[8] == ToLower(h[8]);
    assert forall i | 0 < i < 13 && i != 8 :: t[i] == h[i];
  }

  lemma TrimLeadingBlank(s: string)
    requires NoOuterBlanks(s)
    ensures Trim(" " + s) == s
  {
    assert (" " + s)[1..] == s;
    assert TrimLeft(" " + s) == TrimLeft(s);
    TrimKeeps(s);
  }

  /** The text ahead in the header state. */
  function HeaderText(items: seq<Item>, b: string, i: nat, k: nat): string
    requires i < |items| && k <= |Lines(items[i])|
  {
    LinesFrom(Lines(items[i]), k) + (items[i].content + Delimiter(b) + Tail(items, b, i))
  }

  /** One search in the header state: the line break after line `k`, if it has arrived. */
  lemma HeaderBreak(items: seq<Item>, b: string, i: nat, k: nat, s: State, rest: string)
    requires i < |items| && Sendable(items[i], b) && Stands(items, b, AtHeaders(i, k), s, rest)
    ensures var l := Lines(items[i]);
            var n := if k == |l| then 0 else |l[k]|;
            && Find(s.held, CRLF) == (if n + 2 <= |s.held| then n else |s.held|)
            && n + 2 <= |s.held + rest|
            && (n + 2 <= |s.held| && k < |l| ==> s.held[..n] == l[k] && s.held[n + 2..] + rest == HeaderText(items, b, i, k + 1))
            && (n + 2 <= |s.held| && k == |l| ==> s.held[2..] + rest == items[i].content + Delimiter(b) + Tail(items, b, i))
  {
    hide Entry, Tail, Delimiter, Lines, Collect, Find;
    var t := s.held + rest;
    var l := Lines(items[i]);
    var after := items[i].content + Delimiter(b) + Tail(items, b, i);
    var line, more := "", after;
    if k < |l| {
      LineHasNoBreak(items[i], b, k);
      line, more := l[k], LinesFrom(l, k + 1) + after;
      assert t == line + CRLF + more;
    } else {
      OneLineHasNoBreak("");
      assert t == line + CRLF + more;
    }
    FindAfterAbsent(line, CRLF, more);
    FindArrived(s.held, rest, CRLF);
    var n := |line|;
    if n + 2 <= |s.held| {
      assert s.held[..n] == t[..n] == line;
      assert s.held[n + 2..] + rest == t[n + 2..] == more;
    }
  }

  lemma {:induction false} HeaderLoopMoves(items: seq<Item>, b: string, i: nat, k: nat, s: State, rest: string,
                                           accepts: Receiver) returns (q: Place)
    requires i < |items| && Sendable(items[i], b) && Obliging(accepts)
    requires Stands(items, b, AtHeaders(i, k), s, rest)
    ensures MovesOn(items, b, HeaderLoop(s, accepts), rest, q)
    decreases |Lines(items[i])| - k
  {
    hide Entry, Tail, Delimiter, Lines, Collect, HeaderLine, LinesFrom;
    HeaderBreak(items, b, i, k, s, rest);
    var l := Lines(items[i]);
    var n := if k == |l| then 0 else |l[k]|;
    if n + 2 > |s.held| {
      q := AtHeaders(i, k);
    } else if k < |l| {
      LineHasNoBreak(items[i], b, k);
      LineIsRead(items[i], b, k);
      var next := s.(file := FileAfter(items[i], k + 1), held := s.held[n + 2..]);
      q := HeaderLoopMoves(items, b, i, k + 1, next, rest, accepts);
    } else {
      q := AtBody(i, 0);
      HeadersDone(items, b, i, s, rest, accepts);
    }
  }

  lemma HeadersDone(items: seq<Item>, b: string, i: nat, s: State, rest: string, accepts: Receiver)
    requires i < |items| && Obliging(accepts) && |s.held| >= 2
    requires Stands(items, b, AtHeaders(i, |Lines(items[i])|), s, rest)
    requires s.held[2..] + rest == items[i].content + Delimiter(b) + Tail(items, b, i)
    ensures MovesOn(items, b, Call(s, Header(s.file), accepts, s.(held := s.held[2..], stage := 3)), rest, AtBody(i, 0))
  {
    hide Entry, Tail, Delimiter, Collect, LinesFrom;
    CollectHeader(s.log, s.file);
    assert items[i].content[..0] == "" && items[i].content[0..] == items[i].content;
    assert s.file == items[i].(content := "");
  }

  lemma FromHeaders(items: seq<Item>, b: string, i: nat, k: nat, s: State, rest: string, accepts: Receiver)
    returns (q: Place)
    requires s.held != "" && i < |items| && Sendable(items[i], b) && Obliging(accepts)
    requires Stands(items, b, AtHeaders(i, k), s, rest)
    ensures MovesOn(items, b, StepHeaders(s, accepts), rest, q)
  {
    hide Entry, Tail, Delimiter, Collect, LinesFrom, HeaderLoop, Lines, Find;
    HeaderBreak(items, b, i, k, s, rest);
    if k < |Lines(items[i])| { LineHasNoBreak(items[i], b, k); }
    q := HeaderLoopMoves(items, b, i, k, s, rest, accepts);
  }

  // ------------------------------------------------------------- the body

  lemma DelimiterStart(b: string)
    requires ValidBoundary(b)
    ensures Delimiter(b)[0] !in Delimiter(b)[1..]
  {
    var d := Delimiter(b);
    assert d[1..] == "\n--" + b;
  }

  lemma BodySearch(items: seq<Item>, b: string, i: nat, c: nat, s: State, rest: string)
    requires i < |items| && AllSendable(items, b) && Stands(items, b, AtBody(i, c), s, rest)
    ensures var n, d := |items[i].content| - c, |Delimiter(b)|;
            && Find(s.held, Delimiter(b)) == (if n + d <= |s.held| then n else |s.held|)
            && n + d <= |s.held + rest|
            && (forall k | 0 <= k <= n && k <= |s.held| :: s.held[..k] == items[i].content[c..c + k])
            && (n + d <= |s.held| ==> s.held[n + d..] + rest == Tail(items, b, i))
  {
    hide Entry, Tail, Delimiter, Collect, Find;
    var t, d := s.held + rest, Delimiter(b);
    var left := items[i].content[c..];
    AbsentSlice(items[i].content, d, c, |items[i].content|);
    assert left == items[i].content[c..|items[i].content|];
    DelimiterStart(b);
    assert t == left + d + Tail(items, b, i);
    FindAfterAbsent(left, d, Tail(items, b, i));
    FindArrived(s.held, rest, d);
    forall k | 0 <= k <= |left| && k <= |s.held| ensures s.held[..k] == items[i].content[c..c + k] {
      assert s.held[..k] == t[..k] == left[..k];
    }
    var n := |left|;
    if n + |d| <= |s.held| {
      assert s.held[n + |d|..] + rest == t[n + |d|..] == Tail(items, b, i);
    }
  }

  lemma Deliver(items: seq<Item>, i: nat, c: nat, k: nat, log: seq<Event>)
    requires i < |items| && c + k <= |items[i].content|
    requires Collect(log) == Delivered(items, AtBody(i, c))
    ensures Collect(log + [Content(items[i].content[c..c + k])]) == Delivered(items, AtBody(i, c + k))
  {
    var d := items[i].content;
    CollectContent(log, d[c..c + k]);
    assert d[..c] + d[c..c + k] == d[..c + k];
  }

  lemma FromBody(items: seq<Item>, b: string, i: nat, c: nat, s: State, rest: string, accepts: Receiver)
    returns (q: Place)
    requires s.held != "" && i < |items| && AllSendable(items, b) && Obliging(accepts)
    requires Stands(items, b, AtBody(i, c), s, rest)
    ensures MovesOn(items, b, StepBody(b, s, accepts), rest, q)
  {
    hide Entry, Tail, Delimiter, Collect, Find, StepBody, Sendable;
    var n, d := |items[i].content| - c, |Delimiter(b)|;
    if n + d <= |s.held| {
      BodyEnds(items, b, i, c, s, rest, accepts);
      q := AtBoundary(i);
    } else if d < |s.held| {
      BodyGoesOn(items, b, i, c, s, rest, accepts);
      q := AtBody(i, c + (|s.held| - d));
    } else {
      BodySearch(items, b, i, c, s, rest);
      StopsShort(b, s, accepts);
      q := AtBody(i, c);
    }
  }

  lemma StopsShort(b: string, s: State, accepts: Receiver)
    requires |s.held| <= |Delimiter(b)| && Find(s.held, Delimiter(b)) == |s.held|
    ensures StepBody(b, s, accepts) == Stop(s, true)
  {}

  lemma BodyEnds(items: seq<Item>, b: string, i: nat, c: nat, s: State, rest: string, accepts: Receiver)
    requires i < |items| && AllSendable(items, b) && Obliging(accepts)
    requires Stands(items, b, AtBody(i, c), s, rest)
    requires |items[i].content| - c + |Delimiter(b)| <= |s.held|
    ensures MovesOn(items, b, StepBody(b, s, accepts), rest, AtBoundary(i))
  {
    hide Entry, Tail, Delimiter, Collect, Find, Sendable;
    var n := |items[i].content| - c;
    BodySearch(items, b, i, c, s, rest);
    Deliver(items, i, c, n, s.log);
    assert s.held[..n] == items[i].content[c..c + n];
    assert items[i].content[..c + n] == items[i].content;
    assert items[..i] + [items[i]] == items[..i + 1];
  }

  lemma BodyGoesOn(items: seq<Item>, b: string, i: nat, c: nat, s: State, rest: string, accepts: Receiver)
    requires i < |items| && AllSendable(items, b) && Obliging(accepts)
    requires Stands(items, b, AtBody(i, c), s, rest)
    requires |Delimiter(b)| < |s.held| < |items[i].content| - c + |Delimiter(b)|
    ensures MovesOn(items, b, StepBody(b, s, accepts), rest, AtBody(i, c + (|s.held| - |Delimiter(b)|)))
  {
    hide Entry, Tail, Delimiter, Collect, Find, Sendable;
    var k := |s.held| - |Delimiter(b)|;
    BodySearch(items, b, i, c, s, rest);
    Deliver(items, i, c, k, s.log);
    assert s.held[..k] == items[i].content[c..c + k];
    AheadInBody(items, b, i, c, k, s.held, rest);
  }

  lemma AheadInBody(items: seq<Item>, b: string, i: nat, c: nat, k: nat, held: string, rest: string)
    requires i < |items| && c + k <= |items[i].content| && k <= |held|
    requires Ahead(items, b, AtBody(i, c), held + rest)
    ensures Ahead(items, b, AtBody(i, c + k), held[k..] + rest)
  {
    hide Tail, Delimiter;
    assert held[k..] + rest == (held + rest)[k..];
    assert items[i].content[c..][k..] == items[i].content[c + k..];
  }

  // ------------------------------------------------------------- whole chunks, whole messages

  lemma FromPlace(items: seq<Item>, b: string, p: Place, s: State, rest: string, accepts: Receiver) returns (q: Place)
    requires s.held != "" && AllSendable(items, b) && Obliging(accepts)
    requires Stands(items, b, p, s, rest)
    ensures MovesOn(items, b, Step(b, s, accepts), rest, q)
  {
    hide StepOpening, StepEntry, StepHeaders, StepBody, StepBoundary, Ahead, Collect, MovesOn, Sendable, Delivered, Fits;
    match p {
      case AtOpening =>
        FromOpening(items, b, s, rest);
        q := AtEntry(0);
      case AtEntry(i) =>
        FromEntry(items, b, i, s, rest);
        q := AtHeaders(i, 0);
      case AtHeaders(i, k) =>
        FitsItem(items, p, i);
        q := FromHeaders(items, b, i, k, s, rest, accepts);
      case AtBody(i, c) =>
        FitsItem(items, p, i);
        q := FromBody(items, b, i, c, s, rest, accepts);
      case AtBoundary(i) =>
        FromBoundary(items, b, i, s, rest);
        q := if |s.held| < 2 then AtBoundary(i) else if i + 1 < |items| then AtEntry(i + 1) else AtEnd;
      case AtEnd =>
        FromEnd(items, b, s, rest);
        q := AtEnd;
    }
  }

  lemma FitsItem(items: seq<Item>, p: Place, i: nat)
    requires Fits(items, p) && (p.AtHeaders? || p.AtBody?) && p.i == i
    ensures i < |items|
  {}

  /** Only at the end is nothing ahead. */
  lemma NothingAhead(items: seq<Item>, b: string, p: Place, s: State)
    requires Stands(items, b, p, s, "") && s.held == ""
    ensures p.AtEnd?
  {
    hide Collect, Opening, Delimiter;
  }

  lemma {:induction false} RunMoves(items: seq<Item>, b: string, p: Place, s: State, rest: string, accepts: Receiver)
    returns (q: Place)
    requires AllSendable(items, b) && Obliging(accepts)
    requires Stands(items, b, p, s, rest)
    ensures var (l, ok) := Run(b, s, accepts);
            && ok && Stands(items, b, q, l, rest)
            && (q.AtOpening? ==> p.AtOpening? && s.held == l.held == "")
            && (rest == "" ==> q.AtEnd?)
    decreases Measure(s)
  {
    hide Step, Stands, Sendable;
    if s.held == "" {
      q := p;
      if rest == "" { NothingAhead(items, b, p, s); }
    } else {
      var o := Step(b, s, accepts);
      q := FromPlace(items, b, p, s, rest, accepts);
      if o.Go? {
        var m := q;
        q := RunMoves(items, b, m, o.next, rest, accepts);
        LeavesOpening(items, b, p, m, s, rest, accepts);
      }
    }
  }

  lemma LeavesOpening(items: seq<Item>, b: string, p: Place, q: Place, s: State, rest: string, accepts: Receiver)
    requires s.held != "" && Stands(items, b, p, s, rest)
    requires Step(b, s, accepts).Go? && Stands(items, b, q, Step(b, s, accepts).next, rest)
    ensures !q.AtOpening?
  {
    hide Collect, Ahead, HeaderLine, Opening, Delimiter, Find;
    if s.stage == 2 { HeaderShrinks(s, accepts); }
  }

  function Join(chunks: seq<string>): string {
    if chunks == [] then "" else chunks[0] + Join(chunks[1..])
  }

  /** The opening boundary line is not cut: the first chunk with anything in it has all of it. */
  predicate OpeningWhole(chunks: seq<string>, b: string) {
    chunks != [] ==> if chunks[0] == "" then OpeningWhole(chunks[1..], b) else |chunks[0]| >= |Opening(b)|
  }

  lemma Receive(items: seq<Item>, b: string, p: Place, s: State, chunk: string, rest: string)
    requires Stands(items, b, p, s, chunk + rest)
    requires p.AtOpening? ==> s.held == "" && (chunk == "" || |chunk| >= |Opening(b)|)
    ensures Stands(items, b, p, s.(held := s.held + chunk), rest)
  {
    hide Entry, Tail, Delimiter, Collect, Opening, LinesFrom;
    Assoc(s.held, chunk, rest);
    assert "" + chunk == chunk;
    if p.AtEnd? && s.stage == 1 {
      assert |chunk| == |rest| == 0;
    }
  }

  lemma {:induction false} ParseAllMoves(items: seq<Item>, b: string, p: Place, s: State, chunks: seq<string>,
                                         accepts: Receiver) returns (q: Place)
    requires AllSendable(items, b) && Obliging(accepts)
    requires Stands(items, b, p, s, Join(chunks))
    requires p.AtOpening? ==> s.held == "" && OpeningWhole(chunks, b)
    ensures var (l, ok) := ParseAll(b, s, chunks, accepts);
            ok && Stands(items, b, q, l, "") && if chunks == [] then q == p else q.AtEnd?
    decreases |chunks|
  {
    hide Run, Sendable, Stands;
    q := p;
    if chunks != [] {
      var chunk, rest := chunks[0], Join(chunks[1..]);
      var fed := s.(held := s.held + chunk);
      Receive(items, b, p, s, chunk, rest);
      q := RunMoves(items, b, p, fed, rest, accepts);
      var n := Run(b, fed, accepts).0;
      q := ParseAllMoves(items, b, q, n, chunks[1..], accepts);
    }
  }

  /** Feeding the serialized items, cut anywhere outside the opening boundary line, delivers
      exactly the items in order and leaves the parser valid. */
  lemma {:induction false} RoundTrip(items: seq<Item>, b: string, chunks: seq<string>, accepts: Receiver)
    requires items != [] && AllSendable(items, b) && Obliging(accepts)
    requires Join(chunks) == SerializeFrom(items, b, 0, true)
    requires OpeningWhole(chunks, b)
    ensures var (l, ok) := ParseAll(b, START, chunks, accepts);
            ok && l.valid && Collect(l.log) == items
  {
    hide Run, Sendable, Entry, SerializeFrom, ParseAll;
    SerializedEntry(items, b, 0);
    var text := Join(chunks);
    assert "" + text == text;
    assert Stands(items, b, AtOpening, START, text);
    var q := ParseAllMoves(items, b, AtOpening, START, chunks, accepts);
  }

  /** Before the opening boundary line a chunk that does not hold all of it is thrown away, one
      that ends inside it too: parsing goes on as if it had never been received. */
  lemma CutOpeningIsLost(b: string, chunk: string, chunks: seq<string>, accepts: Receiver)
    requires Absent(chunk, Opening(b))
    ensures ParseAll(b, START, [chunk] + chunks, accepts) == ParseAll(b, START, chunks, accepts)
  {
    hide Find, OccursAt;
    assert ([chunk] + chunks)[1..] == chunks;
    assert "" + chunk == chunk;
    assert chunk[|chunk|..] == "";
  }

  lemma PreambleIsSkipped(b: string, chunk: string, chunks: seq<string>, accepts: Receiver)
    requires !Absent(chunk, Opening(b))
    ensures var k := Find(chunk, Opening(b));
      && Find(chunk[k..], Opening(b)) == 0 && |chunk| >= k + |Opening(b)|
      && ParseAll(b, START, [chunk] + chunks, accepts) == ParseAll(b, START, [chunk[k..]] + chunks, accepts)
  {
    hide Run, Collect;
    var p, k := Opening(b), Find(chunk, Opening(b));
    var h := chunk[k..];
    assert h[0..|p|] == chunk[k..k + |p|] && OccursAt(h, p, 0);
    assert ([chunk] + chunks)[1..] == chunks && ([h] + chunks)[1..] == chunks;
    assert "" + chunk == chunk && "" + h == h && h[0..] == h;
    SameRun(b, START.(held := chunk), START.(held := h), accepts);
  }

  lemma SameRun(b: string, s: State, u: State, accepts: Receiver)
    requires s.held != "" && u.held != "" && Step(b, s, accepts) == Step(b, u, accepts)
    ensures Run(b, s, accepts) == Run(b, u, accepts)
  {
    hide Step;
  }

  /** If no chunk holds the whole opening boundary line, any message at all is accepted and
      delivers nothing. */
  lemma {:induction false} WithoutOpeningNothing(b: string, chunks: seq<string>, accepts: Receiver)
    requires forall i | 0 <= i < |chunks| :: Absent(chunks[i], Opening(b))
    ensures ParseAll(b, START, chunks, accepts) == (START, true)
    decreases |chunks|
  {
    hide Parse, Absent;
    if chunks != [] {
      assert chunks == [chunks[0]] + chunks[1..];
      CutOpeningIsLost(b, chunks[0], chunks[1..], accepts);
      WithoutOpeningNothing(b, chunks[1..], accepts);
    }
  }

  lemma {:induction false} SerializeTail(items: seq<Item>, b: string, i: nat, j: nat)
    requires i + j <= |items|
    ensures SerializeFrom(items, b, i + j, true) == SerializeFrom(items[i..], b, j, true)
    decreases |items| - i - j
  {
    hide ItemBegin, Finish;
    if i + j < |items| { SerializeTail(items, b, i, j + 1); }
  }

  /** Otherwise the first chunk that holds the whole line decides. If the line it holds stands
      before item `i`, exactly the items from `i` on are delivered: all of them only when it
      is the opening one. */
  lemma {:induction false} FirstWholeOpening(items: seq<Item>, b: string, i: nat, lost: seq<string>, chunk: string,
                                             after: seq<string>, accepts: Receiver)
    requires AllSendable(items, b) && Obliging(accepts) && i < |items|
    requires forall k | 0 <= k < |lost| :: Absent(lost[k], Opening(b))
    requires !Absent(chunk, Opening(b))
    requires chunk[Find(chunk, Opening(b))..] + Join(after) == SerializeFrom(items, b, i, true)
    ensures var (l, ok) := ParseAll(b, START, lost + ([chunk] + after), accepts);
            ok && l.valid && Collect(l.log) == items[i..] && (Collect(l.log) == items <==> i == 0)
    decreases |lost|
  {
    hide ParseAll, SerializeFrom, Collect, Sendable, Absent, Find, OccursAt;
    if lost != [] {
      assert lost + ([chunk] + after) == [lost[0]] + (lost[1..] + ([chunk] + after));
      CutOpeningIsLost(b, lost[0], lost[1..] + ([chunk] + after), accepts);
      FirstWholeOpening(items, b, i, lost[1..], chunk, after, accepts);
    } else {
      assert lost + ([chunk] + after) == [chunk] + after;
      PreambleIsSkipped(b, chunk, after, accepts);
      var h := chunk[Find(chunk, Opening(b))..];
      var rest := items[i..];
      assert ([h] + after)[1..] == after;
      SerializeTail(items, b, i, 0);
      forall k | 0 <= k < |rest| ensures Sendable(rest[k], b) { assert rest[k] == items[i + k]; }
      RoundTrip(rest, b, [h] + after, accepts);
    }
  }

  // ------------------------------------------------------------- any body, any chunks

  /** The content bytes of the calls from number `n` on. */
  function Emitted(log: seq<Event>, n: nat): string
    requires n <= |log|
    decreases |log|
  {
    if n == |log| then ""
    else Emitted(log[..|log| - 1], n) + match log[|log| - 1] { case Content(d) => d case Header(_) => "" }
  }

  lemma EmittedAppend(log: seq<Event>, n: nat, d: string)
    requires n <= |log|
    ensures Emitted(log + [Content(d)], n) == Emitted(log, n) + d
  {
    assert (log + [Content(d)])[..|log|] == log;
  }

  /** In the body state, `received` being all the bytes since the headers: what was emitted
      and what is held are those bytes, and one delimiter length is held back, or everything
      when less than that has come. */
  ghost predicate InBody(b: string, s: State, n: nat, received: string) {
    && s.stage == 3 && n <= |s.log|
    && Absent(received, Delimiter(b))
    && received == Emitted(s.log, n) + s.held
    && |s.held| == if |received| < |Delimiter(b)| then |received| else |Delimiter(b)|
  }

  lemma OccursShift(e: string, u: string, p: string, j: nat)
    ensures OccursAt(u, p, j) <==> OccursAt(e + u, p, |e| + j)
  {
    if j + |p| <= |u| { assert u[j..j + |p|] == (e + u)[|e| + j..|e| + j + |p|]; }
  }

  lemma {:induction false} FindShift(e: string, u: string, p: string)
    requires p != "" && forall j: nat | j < |e| :: !OccursAt(e + u, p, j)
    ensures Find(e + u, p) == |e| + Find(u, p)
  {
    hide Find, OccursAt;
    var r, at := Find(u, p), Find(e + u, p);
    forall k: nat | |e| <= k < |e| + r ensures !OccursAt(e + u, p, k) { OccursShift(e, u, p, k - |e|); }
    if r < |u| { OccursShift(e, u, p, r); }
    if |e| <= at < |e + u| { OccursShift(e, u, p, at - |e|); }
  }

  /** The last delimiter length of bytes decides: the delimiter starts in them or not yet. */
  lemma {:induction false} FindInHeld(emitted: string, held: string, chunk: string, p: string)
    requires p != "" && |held| <= |p| && (emitted == "" || |held| == |p|)
    requires Absent(emitted + held, p)
    ensures Find(emitted + (held + chunk), p) == |emitted| + Find(held + chunk, p)
  {
    var t := emitted + (held + chunk);
    forall j: nat | j < |emitted| ensures !OccursAt(t, p, j) {
      assert !OccursAt(emitted + held, p, j);
      assert t[j..j + |p|] == (emitted + held)[j..j + |p|];
    }
    FindShift(emitted, held + chunk, p);
  }

  /** The three outcomes of a turn in the body state. */
  lemma BodyTurn(b: string, s: State, accepts: Receiver)
    requires s.stage == 3 && Obliging(accepts)
    ensures var d, pos := |Delimiter(b)|, Find(s.held, Delimiter(b));
            StepBody(b, s, accepts) ==
              if pos < |s.held| then
                Go(s.(stage := 4, held := s.held[pos + d..], log := s.log + [Content(s.held[..pos])]))
              else if |s.held| <= d then Stop(s, true)
              else Stop(s.(held := s.held[|s.held| - d..], log := s.log + [Content(s.held[..|s.held| - d])]), true)
  {
    hide Delimiter, Find;
  }

  lemma ParseInBody(b: string, s: State, chunk: string, accepts: Receiver)
    requires s.stage == 3 && Obliging(accepts)
    ensures var o := StepBody(b, s.(held := s.held + chunk), accepts);
            Parse(b, s, chunk, accepts) ==
              if o.Go? && s.held + chunk != "" then Run(b, o.next, accepts)
              else if o.Stop? then (o.last, o.ok) else (s.(held := s.held + chunk), true)
  {
    hide Delimiter, Find, Call;
  }

  lemma {:induction false} BodyChunkHeld(b: string, s: State, n: nat, received: string, chunk: string, accepts: Receiver)
    requires InBody(b, s, n, received) && Obliging(accepts)
    requires Absent(received + chunk, Delimiter(b))
    ensures var (l, ok) := Parse(b, s, chunk, accepts); ok && InBody(b, l, n, received + chunk)
  {
    hide Delimiter, Emitted, Find, StepBody, Parse, Obliging, InBody;
    var d := |Delimiter(b)|;
    var h := s.held + chunk;
    var fed := s.(held := h);
    NoDelimiterYet(b, s, n, received, chunk);
    ParseInBody(b, fed.(held := s.held), chunk, accepts);
    BodyTurn(b, fed, accepts);
    HoldBack(b, fed, n, received + chunk);
  }

  lemma NoDelimiterYet(b: string, s: State, n: nat, received: string, chunk: string)
    requires InBody(b, s, n, received)
    requires Absent(received + chunk, Delimiter(b))
    ensures s.stage == 3 && n <= |s.log|
    ensures Absent(s.held + chunk, Delimiter(b))
    ensures received + chunk == Emitted(s.log, n) + (s.held + chunk)
    ensures |s.held + chunk| <= |Delimiter(b)| ==> |s.held + chunk| == |received + chunk| || |s.held + chunk| == |Delimiter(b)|
  {
    hide Delimiter, Emitted, Find;
    var d, e := Delimiter(b), Emitted(s.log, n);
    EmittedShape(e, s.held, received, d);
    FindInHeld(e, s.held, chunk, d);
    Assoc(e, s.held, chunk);
  }

  lemma HoldBack(b: string, s: State, n: nat, all: string)
    requires s.stage == 3 && n <= |s.log| && Absent(all, Delimiter(b))
    requires all == Emitted(s.log, n) + s.held
    requires |s.held| <= |Delimiter(b)| ==> |s.held| == |all| || |s.held| == |Delimiter(b)|
    ensures var len := |s.held| - |Delimiter(b)|;
            if len <= 0 then InBody(b, s, n, all)
            else InBody(b, s.(held := s.held[len..], log := s.log + [Content(s.held[..len])]), n, all)
  {
    hide Delimiter, Emitted, Find;
    var h, len := s.held, |s.held| - |Delimiter(b)|;
    if len > 0 {
      EmittedAppend(s.log, n, h[..len]);
      Assoc(Emitted(s.log, n), h[..len], h[len..]);
      assert h[..len] + h[len..] == h;
    }
  }

  lemma {:induction false} BodyChunkDelimited(b: string, s: State, n: nat, received: string, chunk: string, accepts: Receiver)
    requires InBody(b, s, n, received) && Obliging(accepts)
    requires !Absent(received + chunk, Delimiter(b))
    ensures var all, d := received + chunk, Delimiter(b);
            var at := Find(all, d);
            var o := StepBody(b, s.(held := s.held + chunk), accepts);
            && o.Go? && o.next.stage == 4 && n <= |o.next.log|
            && Emitted(o.next.log, n) == all[..at]
            && o.next.held == all[at + |d|..]
            && Parse(b, s, chunk, accepts) == Run(b, o.next, accepts)
  {
    hide Delimiter, Emitted, Find, StepBody, Parse, Obliging, Run, InBody, Absent, OccursAt;
    DelimiterInHeld(b, s, n, received, chunk);
    var d, e := Delimiter(b), Emitted(s.log, n);
    var h := s.held + chunk;
    var pos := Find(h, d);
    ParseInBody(b, s, chunk, accepts);
    BodyTurn(b, s.(held := h), accepts);
    EmittedAppend(s.log, n, h[..pos]);
    SliceHeld(e, h, pos, |d|);
  }

  lemma DelimiterInHeld(b: string, s: State, n: nat, received: string, chunk: string)
    requires InBody(b, s, n, received) && !Absent(received + chunk, Delimiter(b))
    ensures s.stage == 3 && n <= |s.log|
    ensures var (h, d, e) := (s.held + chunk, Delimiter(b), Emitted(s.log, n));
      received + chunk == e + h && Find(received + chunk, d) == |e| + Find(h, d)
      && Find(h, d) + |d| <= |h| && Find(h, d) < |h|
  {
    hide Delimiter, Emitted, Find;
    var d, e := Delimiter(b), Emitted(s.log, n);
    EmittedShape(e, s.held, received, d);
    FindInHeld(e, s.held, chunk, d);
    Assoc(e, s.held, chunk);
    assert OccursAt(s.held + chunk, d, Find(s.held + chunk, d));
  }

  lemma SliceHeld(e: string, h: string, k: nat, d: nat)
    requires k + d <= |h|
    ensures e + h[..k] == (e + h)[..|e| + k] && h[k + d..] == (e + h)[|e| + k + d..]
  {}

  /** Over any chunks in the body state: as long as the delimiter has not come, all but one
      delimiter length of what was received has been emitted, in order. */
  lemma {:induction false} BodyChunks(b: string, s: State, n: nat, received: string, chunks: seq<string>, accepts: Receiver)
    requires InBody(b, s, n, received) && Obliging(accepts)
    requires Absent(received + Join(chunks), Delimiter(b))
    ensures var (l, ok) := ParseAll(b, s, chunks, accepts); ok && InBody(b, l, n, received + Join(chunks))
    decreases |chunks|
  {
    hide Delimiter, Find, Parse, InBody, Obliging, Absent;
    if chunks == [] {
      assert received + "" == received;
    } else {
      var all, k := received + Join(chunks), |received + chunks[0]|;
      Assoc(received, chunks[0], Join(chunks[1..]));
      AbsentSlice(all, Delimiter(b), 0, k);
      assert all[0..k] == received + chunks[0];
      BodyChunkHeld(b, s, n, received, chunks[0], accepts);
      BodyChunks(b, Parse(b, s, chunks[0], accepts).0, n, received + chunks[0], chunks[1..], accepts);
    }
  }

  /** One more chunk. As long as the delimiter has not come whole, the body state goes on;
      when it has, the content ends exactly at its first occurrence in all the bytes received,
      however they were cut, and the bytes after it are kept for the next state. */
  lemma {:induction false} BodyChunk(b: string, s: State, n: nat, received: string, chunk: string, accepts: Receiver)
    requires InBody(b, s, n, received) && Obliging(accepts)
    ensures var all, d := received + chunk, Delimiter(b);
            var at := Find(all, d);
            if at == |all| then
              var (l, ok) := Parse(b, s, chunk, accepts); ok && InBody(b, l, n, all)
            else
              var o := StepBody(b, s.(held := s.held + chunk), accepts);
              && o.Go? && o.next.stage == 4 && n <= |o.next.log|
              && Emitted(o.next.log, n) == all[..at]
              && o.next.held == all[at + |d|..]
              && Parse(b, s, chunk, accepts) == Run(b, o.next, accepts)
  {
    hide Delimiter, Emitted, Find, StepBody, Parse, InBody;
    if Absent(received + chunk, Delimiter(b)) {
      BodyChunkHeld(b, s, n, received, chunk, accepts);
    } else {
      BodyChunkDelimited(b, s, n, received, chunk, accepts);
    }
  }

  lemma EmittedShape(e: string, held: string, received: string, d: string)
    requires received == e + held
    requires |held| == if |received| < |d| then |received| else |d|
    ensures |held| <= |d| && (e == "" || |held| == |d|)
  {}
}
