/** Multipart form data as values: the serializer, and the parser as a function of the bytes
    it holds. The class in MultipartParser.dfy is proved against these functions. */
module MultipartSpec {
  import opened Text
  import Query
  import opened Wrappers

  datatype Item = Item(name: string, content: string, filename: string, contentType: string)

  /** The callbacks the parser makes. */
  datatype Event = Header(file: Item) | Content(data: string)

  /** The user's callbacks: given the calls made so far, does this one return true? */
  type Receiver = (seq<Event>, Event) -> bool

  const BLANK_ITEM: Item := Item("", "", "", "")

  function Opening(b: string): (r: string)
    ensures |r| == |b| + 4
  { "--" + b + CRLF }

  function Delimiter(b: string): (r: string)
    ensures |r| == |b| + 4 && r[0] == CR
  { CRLF + "--" + b }

  // ------------------------------------------------------------- serializer

  function DispositionText(item: Item): string {
    "name=\"" + item.name + "\"" + (if item.filename == "" then "" else "; filename=\"" + item.filename + "\"")
  }

  const DISPOSITION: string := "Content-Disposition:"
  const FORM_DATA: string := "form-data;"

  function DispositionLine(item: Item): string {
    DISPOSITION + " " + FORM_DATA + " " + DispositionText(item)
  }

  function TypeLine(item: Item): string { "Content-Type: " + item.contentType }

  function ItemBegin(item: Item, b: string): string {
    Opening(b) + DispositionLine(item) + CRLF
    + (if item.contentType == "" then "" else TypeLine(item) + CRLF) + CRLF
  }

  function Finish(b: string): string { "--" + b + "--" + CRLF }

  /** The serialized items from number `i` on. */
  function SerializeFrom(items: seq<Item>, b: string, i: nat, finish: bool): string
    requires i <= |items|
    decreases |items| - i
  {
    if i == |items| then if finish then Finish(b) else ""
    else ItemBegin(items[i], b) + items[i].content + CRLF + SerializeFrom(items, b, i + 1, finish)
  }

  /** `serialize_multipart_formdata`. */
  method Serialize(items: seq<Item>, b: string, finish: bool) returns (body: string)
    ensures body == SerializeFrom(items, b, 0, finish)
  {
    hide ItemBegin, Finish;
    body := "";
    for i := 0 to |items|
      invariant SerializeFrom(items, b, 0, finish) == body + SerializeFrom(items, b, i, finish)
    {
      ghost var rest := SerializeFrom(items, b, i + 1, finish);
      Assoc(body, ItemBegin(items[i], b), items[i].content + CRLF + rest);
      assert ItemBegin(items[i], b) + (items[i].content + CRLF + rest) == SerializeFrom(items, b, i, finish);
      body := body + ItemBegin(items[i], b);
      Assoc(body, items[i].content + CRLF, rest);
      body := body + (items[i].content + CRLF);
    }
    if finish { body := body + Finish(b); }
  }

  // ------------------------------------------------------------- header lines

  function TrimDoubleQuotes(s: string): string {
    if |s| >= 2 && s[0] == '"' && s[|s| - 1] == '"' then s[1..|s| - 1] else s
  }

  /** The pairs `parse_disposition_params` emplaces, a repeated field text being skipped. */
  function ParamFields(fields: seq<string>, cache: set<string>): Query.Params
    decreases |fields|
  {
    if fields == [] then []
    else if fields[0] in cache then ParamFields(fields[1..], cache)
    else ParamField(fields[0]) + ParamFields(fields[1..], cache + {fields[0]})
  }

  function ParamField(kv: string): Query.Params {
    var (key, val) := Query.KeyValue(kv);
    if key == "" then [] else [(TrimDoubleQuotes(key), TrimDoubleQuotes(val))]
  }

  function DispositionParams(s: string): Query.Params { ParamFields(Split(s, ';'), {}) }

  /** `find` on the multimap: the first pair with the key. */
  function Lookup(params: Query.Params, key: string): Option<string>
    decreases |params|
  {
    if params == [] then None
    else if params[0].0 == key then Some(params[0].1)
    else Lookup(params[1..], key)
  }

  /** `.` does not match a line break. */
  predicate OneLine(s: string) { CR !in s && LF !in s }

  /** The recogniser of `^Content-Disposition:\s*form-data;\s*(.*)$`, case ignored. */
  function DispositionRest(line: string): Option<string> {
    if !StartsWithIgnoreCase(line, DISPOSITION) then None
    else
      var r := SkipSpaces(line[|DISPOSITION|..]);
      if !StartsWithIgnoreCase(r, FORM_DATA) then None
      else
        var t := SkipSpaces(r[|FORM_DATA|..]);
        if OneLine(t) then Some(t) else None
  }

  /** What one header line does to the entry under construction. */
  function HeaderLine(file: Item, line: string): (bool, Item) {
    if StartsWithIgnoreCase(line, "content-type:") then (true, file.(contentType := Trim(line[13..])))
    else match DispositionRest(line)
      case None => (false, file)
      case Some(text) => NameFile(file, DispositionParams(text))
  }

  function NameFile(file: Item, params: Query.Params): (bool, Item) {
    match Lookup(params, "name")
    case None => (false, file)
    case Some(name) =>
      var named := match Lookup(params, "filename")
                   case None => file.(name := name)
                   case Some(filename) => file.(name := name, filename := filename);
      match Lookup(params, "filename*")
      case None => (true, named)
      case Some(v) =>
        if StartsWithIgnoreCase(v, "UTF-8''") && |v| > 7 && OneLine(v[7..])
        then (true, named.(filename := Query.Decode(v[7..], false)))
        else (false, named)
  }

  // ------------------------------------------------------------- the parser on values

  datatype State = State(stage: nat, valid: bool, file: Item, held: string, log: seq<Event>)
  datatype Outcome = Go(next: State) | Stop(last: State, ok: bool)

  const START: State := State(0, false, BLANK_ITEM, "", [])

  /** A callback is made; a refusal ends the parse. */
  function Call(s: State, e: Event, accepts: Receiver, next: State): Outcome {
    var log := s.log + [e];
    if accepts(s.log, e) then Go(next.(log := log)) else Stop(s.(valid := false, log := log), false)
  }

  function StepOpening(b: string, s: State): Outcome {
    var h := s.held[Find(s.held, Opening(b))..];
    if |Opening(b)| > |h| then Stop(s.(held := h), true)
    else if !StartsWith(h, Opening(b)) then Stop(s.(held := h), false)
    else Go(s.(held := h[|Opening(b)|..], stage := 1))
  }

  function StepEntry(s: State): Outcome {
    Go(s.(file := s.file.(name := "", filename := "", contentType := ""), stage := 2))
  }

  function HeaderLoop(s: State, accepts: Receiver): Outcome
    decreases |s.held|
  {
    var pos := Find(s.held, CRLF);
    if pos == |s.held| then Stop(s, true)
    else if pos == 0 then Call(s, Header(s.file), accepts, s.(held := s.held[2..], stage := 3))
    else
      var (ok, file) := HeaderLine(s.file, s.held[..pos]);
      if ok then HeaderLoop(s.(file := file, held := s.held[pos + 2..]), accepts)
      else Stop(s.(valid := false, file := file), false)
  }

  function StepHeaders(s: State, accepts: Receiver): Outcome {
    if Find(s.held, CRLF) > HEADER_MAX_LENGTH then Stop(s, false) else HeaderLoop(s, accepts)
  }

  function StepBody(b: string, s: State, accepts: Receiver): Outcome {
    var d := |Delimiter(b)|;
    if d > |s.held| then Stop(s, true)
    else
      var pos := Find(s.held, Delimiter(b));
      if pos < |s.held| then
        Call(s, Content(s.held[..pos]), accepts, s.(held := s.held[pos + d..], stage := 4))
      else
        var len := |s.held| - d;
        if len == 0 then Stop(s, true)
        else match Call(s, Content(s.held[..len]), accepts, s.(held := s.held[len..]))
          case Go(n) => Stop(n, true)
          case Stop(l, ok) => Stop(l, ok)
  }

  function StepBoundary(s: State): Outcome {
    if |s.held| < 2 then Stop(s, true)
    else if StartsWith(s.held, CRLF) then Go(s.(held := s.held[2..], stage := 1))
    else if StartsWith(s.held, "--") then Go(s.(held := "", valid := true))
    else Stop(s, true)
  }

  /** One turn of the parser's loop. */
  function Step(b: string, s: State, accepts: Receiver): (o: Outcome)
    requires s.held != ""
    ensures o.Go? ==> Measure(o.next) < Measure(s)
  {
    if s.stage == 0 then StepOpening(b, s)
    else if s.stage == 1 then StepEntry(s)
    else if s.stage == 2 then HeaderShrinks(s, accepts); StepHeaders(s, accepts)
    else if s.stage == 3 then StepBody(b, s, accepts)
    else StepBoundary(s)
  }

  function Measure(s: State): nat { 2 * |s.held| + if s.stage == 1 then 1 else 0 }

  lemma {:induction false} HeaderShrinks(s: State, accepts: Receiver)
    ensures var o := HeaderLoop(s, accepts); o.Go? ==> o.next.stage == 3 && |o.next.held| < |s.held|
    decreases |s.held|
  {
    hide HeaderLine;
    var pos := Find(s.held, CRLF);
    if 0 < pos < |s.held| {
      var (ok, file) := HeaderLine(s.file, s.held[..pos]);
      HeaderShrinks(s.(file := file, held := s.held[pos + 2..]), accepts);
    }
  }

  function Run(b: string, s: State, accepts: Receiver): (State, bool)
    decreases Measure(s)
  {
    if s.held == "" then (s, true)
    else match Step(b, s, accepts)
      case Go(n) => Run(b, n, accepts)
      case Stop(l, ok) => (l, ok)
  }

  /** `parse` on one chunk. */
  function Parse(b: string, s: State, chunk: string, accepts: Receiver): (State, bool) {
    Run(b, s.(held := s.held + chunk), accepts)
  }

  /** The chunks of a message one after the other, up to the first refusal. */
  function ParseAll(b: string, s: State, chunks: seq<string>, accepts: Receiver): (State, bool)
    decreases |chunks|
  {
    if chunks == [] then (s, true)
    else
      var (n, ok) := Parse(b, s, chunks[0], accepts);
      if ok then ParseAll(b, n, chunks[1..], accepts) else (n, false)
  }

  /** What a user who keeps the entries gets: a header opens an item, content extends it. */
  function Collect(log: seq<Event>): seq<Item>
    decreases |log|
  {
    if log == [] then []
    else
      var c := Collect(log[..|log| - 1]);
      match log[|log| - 1]
      case Header(f) => c + [f]
      case Content(d) =>
        if c == [] then c
        else c[..|c| - 1] + [c[|c| - 1].(content := c[|c| - 1].content + d)]
  }

  lemma CollectHeader(log: seq<Event>, f: Item)
    ensures Collect(log + [Header(f)]) == Collect(log) + [f]
  {
    assert (log + [Header(f)])[..|log|] == log;
  }

  lemma CollectContent(log: seq<Event>, d: string)
    requires Collect(log) != []
    ensures var c := Collect(log);
            Collect(log + [Content(d)]) == c[..|c| - 1] + [c[|c| - 1].(content := c[|c| - 1].content + d)]
  {
    assert (log + [Content(d)])[..|log|] == log;
  }
}
