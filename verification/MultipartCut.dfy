/** What becomes of a multipart message whose opening boundary line is cut: the parser starts
    later, at some other occurrence of that line, stays behind the sender's items for the rest of
    the message, and can never deliver them all as they were sent. */
module MultipartCut {
  import opened Text
  import opened MultipartSpec
  import opened MultipartRoundTrip
  import Query

  // ------------------------------------------------------------- suffixes of the message

  predicate Ends(m: string, x: string) { |x| <= |m| && m[|m| - |x|..] == x }

  lemma EndsDrop(m: string, p: string, x: string)
    requires Ends(m, p + x)
    ensures Ends(m, x)
  {
    assert m[|m| - |x|..] == m[|m| - |p + x|..][|p|..];
  }

  lemma EndsIn(m: string, x: string, y: string)
    requires Ends(m, x) && Ends(m, y) && |x| <= |y|
    ensures Ends(y, x)
  {
    assert y[|y| - |x|..] == m[|m| - |y|..][|y| - |x|..];
  }

  /** From the content of item `i` on. */
  function BodyText(items: seq<Item>, b: string, i: nat): string
    requires i < |items|
  {
    items[i].content + Delimiter(b) + Tail(items, b, i)
  }

  function Message(items: seq<Item>, b: string): string { SerializeFrom(items, b, 0, true) }

  lemma {:induction false} EntryEnds(items: seq<Item>, b: string, i: nat)
    requires i < |items|
    ensures Ends(Message(items, b), Entry(items, b, i))
    ensures Ends(Message(items, b), BodyText(items, b, i))
    ensures Ends(Message(items, b), Delimiter(b) + Tail(items, b, i))
  {
    hide Delimiter, LinesFrom, SerializeFrom, Opening, Ends;
    var m := Message(items, b);
    if i == 0 {
      SerializedEntry(items, b, 0);
      EndsJoin(Opening(b), Entry(items, b, 0));
    } else {
      EntryEnds(items, b, i - 1);
      Assoc(Delimiter(b), CRLF, Entry(items, b, i));
      EndsDrop(m, Delimiter(b) + CRLF, Entry(items, b, i));
    }
    EndsDrop(m, LinesFrom(Lines(items[i]), 0), BodyText(items, b, i));
    Assoc(items[i].content, Delimiter(b), Tail(items, b, i));
    EndsDrop(m, items[i].content, Delimiter(b) + Tail(items, b, i));
  }

  lemma EndsJoin(p: string, x: string)
    ensures Ends(p + x, x)
  {}

  lemma SuffixOccurs(m: string, p: string, x: string)
    requires Ends(m, p + x)
    ensures OccursAt(m, p, |m| - |p + x|)
  {
    var o := |m| - |p + x|;
    assert m[o..o + |p|] == m[o..][..|p|] == p;
  }

  // ------------------------------------------------------------- line breaks among header lines

  /** A line break among the header lines stands at the end of a line. */
  lemma BreakInLine(line: string, rest: string, p: nat)
    requires Absent(line, CRLF) && OccursAt(line + CRLF + rest, CRLF, p)
    ensures p == |line| || p >= |line| + 2
    ensures p >= |line| + 2 ==> OccursAt(rest, CRLF, p - |line| - 2)
  {
    FindAfterAbsent(line, CRLF, rest);
    var t := line + CRLF + rest;
    assert t[p] == t[p..p + 2][0] == CR;
    if p >= |line| + 2 {
      assert t[p..p + 2] == rest[p - |line| - 2..p - |line|];
    }
  }

  /** No delimiter starts among the header lines before the blank one. */
  lemma {:induction false} NoDelimiterInLines(item: Item, b: string, k: nat, rest: string, p: nat)
    requires Sendable(item, b) && k <= |Lines(item)|
    requires OccursAt(LinesFrom(Lines(item), k) + rest, Delimiter(b), p)
    ensures p + 2 >= |LinesFrom(Lines(item), k)|
    decreases |Lines(item)| - k
  {
    hide Sendable, Lines;
    var l := Lines(item);
    if k < |l| {
      LineHasNoBreak(item, b, k);
      var more := LinesFrom(l, k + 1) + rest;
      var t := LinesFrom(l, k) + rest;
      assert t == l[k] + CRLF + more;
      DelimiterParts(t, b, p);
      BreakInLine(l[k], more, p);
      FirstOfLines(item, k + 1);
      assert t[|l[k]| + 2] == more[0] && more[0] == LinesFrom(l, k + 1)[0];
      assert p >= |l[k]| + 2;
      assert t[p..p + |Delimiter(b)|] == more[p - |l[k]| - 2..p - |l[k]| - 2 + |Delimiter(b)|];
      NoDelimiterInLines(item, b, k + 1, rest, p - |l[k]| - 2);
    }
  }

  lemma DelimiterParts(t: string, b: string, p: nat)
    requires OccursAt(t, Delimiter(b), p)
    ensures p + 4 <= |t| && OccursAt(t, CRLF, p) && t[p + 2] == '-' && t[p] == CR
  {
    var d := Delimiter(b);
    assert t[p..p + |d|][0] == d[0] && t[p..p + |d|][1] == d[1] && t[p..p + |d|][2] == d[2];
  }

  lemma FirstOfLines(item: Item, k: nat)
    requires k <= |Lines(item)|
    ensures |LinesFrom(Lines(item), k)| >= 2 && LinesFrom(Lines(item), k)[0] != '-'
  {
  }

  // ------------------------------------------------------------- a delimiter found too late

  lemma NoneAfterLast(b: string, j: nat)
    requires ValidBoundary(b) && OccursAt(Delimiter(b) + ("--" + CRLF), Delimiter(b), j)
    ensures j == 0
  {
    hide Delimiter;
    var d := Delimiter(b);
    var w := d + ("--" + CRLF);
    DelimiterParts(w, b, j);
    OneBreak(b);
    assert forall k :: |d| <= k < |w| ==> w[k] == ("--" + CRLF)[k - |d|];
    assert forall k :: 0 <= k < |d| ==> w[k] == d[k];
  }

  lemma NoneBeforeBlank(item: Item, b: string, rest: string, j: nat)
    requires ValidBoundary(b) && Sendable(item, b) && j > 0
    requires OccursAt(Delimiter(b) + (CRLF + (LinesFrom(Lines(item), 0) + rest)), Delimiter(b), j)
    ensures j >= |Delimiter(b)| + |LinesFrom(Lines(item), 0)|
  {
    hide Delimiter, LinesFrom, Lines, Sendable;
    var d, more := Delimiter(b), LinesFrom(Lines(item), 0) + rest;
    var w := d + (CRLF + more);
    DelimiterParts(w, b, j);
    OneBreak(b);
    FirstOfLines(item, 0);
    assert forall k :: 0 <= k < |d| ==> w[k] == d[k];
    assert w[|d| + 1] == LF && w[|d| + 2] == more[0] && more[0] == LinesFrom(Lines(item), 0)[0];
    assert j >= |d| + 2;
    assert w[j..j + |d|] == more[j - |d| - 2..j - |d| - 2 + |d|];
    NoDelimiterInLines(item, b, 0, rest, j - |d| - 2);
  }

  /** A delimiter that starts after the one which ends item `i` does not start before the blank
      line of the next item; after the last there is none. */
  lemma LateDelimiter(items: seq<Item>, b: string, i: nat, left: string)
    requires AllSendable(items, b) && i < |items|
    requires Ends(Message(items, b), Delimiter(b) + left) && |left| < |Tail(items, b, i)|
    ensures i + 1 < |items| && |left| + 2 <= |BodyText(items, b, i + 1)|
  {
    hide Message, Sendable, LinesFrom, Delimiter, Tail, BodyText, Lines, Ends, OccursAt;
    TailIs(items, b, i);
    var d, w := Delimiter(b), Delimiter(b) + Tail(items, b, i);
    EntryEnds(items, b, i);
    EndsIn(Message(items, b), d + left, w);
    var j := |w| - |d + left|;
    SuffixOccurs(w, d, left);
    DelimiterIsLong(b);
    if i + 1 == |items| {
      NoneAfterLast(b, j);
    } else {
      NoneBeforeBlank(items[i + 1], b, BodyText(items, b, i + 1), j);
    }
  }

  lemma TailIs(items: seq<Item>, b: string, i: nat)
    requires i < |items|
    ensures Tail(items, b, i) ==
      if i + 1 == |items| then "--" + CRLF
      else CRLF + (LinesFrom(Lines(items[i + 1]), 0) + BodyText(items, b, i + 1))
  {
    hide LinesFrom, Lines, Delimiter;
  }

  lemma OneBreak(b: string)
    requires ValidBoundary(b)
    ensures forall k :: 0 < k < |Delimiter(b)| ==> Delimiter(b)[k] != CR
  {}

  lemma DelimiterIsLong(b: string)
    ensures |Delimiter(b)| >= 4
  {}

  // ------------------------------------------------------------- an opening line found too late

  lemma OpeningParts(t: string, b: string, o: nat)
    requires ValidBoundary(b) && OccursAt(t, Opening(b), o)
    ensures var p := o + |Opening(b)| - 2;
      p >= 1 && OccursAt(t, CRLF, p) && t[p - 1] != '"'
  {
    var op := Opening(b);
    var n := |op| - 2;
    assert t[o..o + |op|][n] == op[n] && t[o..o + |op|][n + 1] == op[n + 1] && t[o..o + |op|][n - 1] == op[n - 1];
    assert op[n - 1] == ("--" + b)[n - 1];
    assert t[o + n..o + n + 2] == [t[o + n], t[o + n + 1]];
  }

  lemma LastOfDisposition(item: Item)
    ensures var d := DispositionLine(item); d != "" && d[|d| - 1] == '"'
  {
  }

  /** A line break that follows a boundary and stands among the header lines is that of a
      Content-Type line. */
  lemma BreakAfterBoundary(item: Item, b: string, rest: string, p: nat)
    requires Sendable(item, b)
    requires OccursAt(LinesFrom(Lines(item), 0) + rest, CRLF, p)
    requires p > 0 ==> (LinesFrom(Lines(item), 0) + rest)[p - 1] != '"'
    ensures var n := |LinesFrom(Lines(item), 0)|; p + 2 >= n || (p + 4 == n && item.contentType != "")
  {
    hide DispositionLine, TypeLine, Sendable;
    var d := DispositionLine(item);
    var l := Lines(item);
    var more := LinesFrom(l, 1) + rest;
    LineHasNoBreak(item, b, 0);
    LastOfDisposition(item);
    assert LinesFrom(l, 0) + rest == d + CRLF + more;
    BreakInLine(d, more, p);
    assert (d + CRLF + more)[|d| - 1] == d[|d| - 1];
    if item.contentType != "" {
      LineHasNoBreak(item, b, 1);
      assert more == l[1] + CRLF + (LinesFrom(l, 2) + rest);
      BreakInLine(l[1], LinesFrom(l, 2) + rest, p - |d| - 2);
    }
  }

  /** The opening line found after the start of the message: not before the content of the first
      item, or else at the end of its Content-Type line. */
  lemma LateOpening(items: seq<Item>, b: string, left: string)
    requires AllSendable(items, b) && items != []
    requires Ends(Message(items, b), Opening(b) + left) && |Opening(b) + left| < |Message(items, b)|
    ensures Ends(Message(items, b), CRLF + left)
    ensures var n := |BodyText(items, b, 0)|; |left| <= n || (|left| == n + 2 && items[0].contentType != "")
  {
    hide Sendable, LinesFrom, Lines, BodyText, SerializeFrom, Ends, OccursAt, Opening;
    var m, op := Message(items, b), Opening(b);
    var lines, body := LinesFrom(Lines(items[0]), 0), BodyText(items, b, 0);
    var o := |m| - |op + left|;
    SuffixOccurs(m, op, left);
    OpeningParts(m, b, o);
    OpeningEnd(b);
    assert op + left == op[..|op| - 2] + (CRLF + left);
    EndsDrop(m, op[..|op| - 2], CRLF + left);
    FirstEntry(items, b);
    BreakBehind(op, lines + body, o + |op| - 2);
    BreakAfterBoundary(items[0], b, body, o - 2);
  }

  lemma OpeningEnd(b: string)
    ensures var op := Opening(b); op == op[..|op| - 2] + CRLF
  {}

  /** A line break behind the whole of `op`, which ends with one, stands in what follows. */
  lemma BreakBehind(op: string, more: string, p: nat)
    requires |op| >= 2 && op[|op| - 1] == LF && p >= |op| - 1 && OccursAt(op + more, CRLF, p)
    ensures p >= |op| && OccursAt(more, CRLF, p - |op|)
    ensures p > |op| ==> (op + more)[p - 1] == more[p - 1 - |op|]
  {
    var t := op + more;
    assert t[p] == t[p..p + 2][0];
    assert p >= |op|;
    assert t[p..p + 2] == more[p - |op|..p - |op| + 2];
  }

  lemma FirstEntry(items: seq<Item>, b: string)
    requires items != []
    ensures Message(items, b) == Opening(b) + (LinesFrom(Lines(items[0]), 0) + BodyText(items, b, 0))
  {
    hide LinesFrom, Lines, Delimiter, SerializeFrom;
    SerializedEntry(items, b, 0);
  }

  // ------------------------------------------------------------- what every later step keeps

  function Meta(item: Item): Item { item.(content := "") }

  /** The items delivered cannot become the ones sent: too many, or one that differs in its
      header, or in its content although that is complete. */
  ghost predicate Wrong(items: seq<Item>, c: seq<Item>, complete: bool) {
    |c| > |items| ||
    exists k :: 0 <= k < |c| && (Meta(c[k]) != Meta(items[k]) ||
      ((k < |c| - 1 || complete) && c[k].content != items[k].content))
  }

  /** The parser has what is left of the message, and is past the place where it would have to
      be to deliver the next item, or the one it is in, as sent. */
  ghost predicate Behind(items: seq<Item>, b: string, s: State, rest: string) {
    var c, left := Collect(s.log), s.held + rest;
    && s.file.content == ""
    && match s.stage
       case 0 => false
       case 1 => Waits(items, b, |c|, left, "")
       case 2 => Waits(items, b, |c|, left, s.file.contentType)
       case 3 =>
         && 0 < |c| <= |items|
         && Ends(Message(items, b), CRLF + CRLF + c[|c| - 1].content + left)
         && |c[|c| - 1].content| + |left| < |BodyText(items, b, |c| - 1)|
         && (c[|c| - 1].content == "" || |s.held| >= |Delimiter(b)|)
       case _ => |c| < |items| && Ends(Message(items, b), left) && |left| <= |BodyText(items, b, |c|)|
  }

  /** Before the header of item `m`: past its blank line, or at the blank line of the first item
      with the type line lost. */
  ghost predicate Waits(items: seq<Item>, b: string, m: nat, left: string, contentType: string) {
    && m < |items| && Ends(Message(items, b), CRLF + left)
    && (|left| <= |BodyText(items, b, m)| ||
        (m == 0 && |left| == |BodyText(items, b, 0)| + 2 && items[0].contentType != "" && contentType == ""))
  }

  ghost predicate Lost(items: seq<Item>, b: string, s: State, rest: string) {
    s.stage > 0 && (Wrong(items, Collect(s.log), s.stage != 3) || Behind(items, b, s, rest))
  }

  lemma WrongStays(items: seq<Item>, c: seq<Item>, f: Item)
    requires Wrong(items, c, true)
    ensures Wrong(items, c + [f], false) && Wrong(items, c + [f], true)
  {
    if |c| <= |items| {
      var k :| 0 <= k < |c| && (Meta(c[k]) != Meta(items[k]) || c[k].content != items[k].content);
      assert (c + [f])[k] == c[k];
    }
  }

  lemma WrongStaysInBody(items: seq<Item>, c: seq<Item>, d: string, complete: bool)
    requires c != [] && Wrong(items, c, false)
    ensures var e := c[..|c| - 1] + [c[|c| - 1].(content := c[|c| - 1].content + d)];
      Wrong(items, e, complete)
  {
    var e := c[..|c| - 1] + [c[|c| - 1].(content := c[|c| - 1].content + d)];
    if |c| <= |items| {
      var k :| 0 <= k < |c| && (Meta(c[k]) != Meta(items[k]) || (k < |c| - 1 && c[k].content != items[k].content));
      assert Meta(e[k]) == Meta(c[k]) && (k < |c| - 1 ==> e[k] == c[k]);
    }
  }

  /** A turn that goes on stays lost; one that stops stays lost and keeps no more than a
      delimiter length of a body. */
  ghost predicate StaysLost(items: seq<Item>, b: string, o: Outcome, rest: string) {
    match o
    case Go(n) => Lost(items, b, n, rest)
    case Stop(l, ok) => ok ==> Lost(items, b, l, rest) && Settled(b, l)
  }

  predicate Settled(b: string, s: State) { s.stage == 3 ==> |s.held| <= |Delimiter(b)| }

  lemma EntryStaysLost(items: seq<Item>, b: string, s: State, rest: string)
    requires s.stage == 1 && Lost(items, b, s, rest)
    ensures StaysLost(items, b, StepEntry(s), rest)
  {
    hide Collect, Ends, Message, BodyText;
  }

  lemma BoundaryStaysLost(items: seq<Item>, b: string, s: State, rest: string)
    requires s.stage > 3 && Lost(items, b, s, rest)
    ensures StaysLost(items, b, StepBoundary(s), rest)
  {
    hide Collect, Message, BodyText, Wrong;
    var o := StepBoundary(s);
    var m := Message(items, b);
    if o.Go? && Behind(items, b, s, rest) {
      if o.next.stage == 1 {
        assert s.held == CRLF + o.next.held;
        Assoc(CRLF, o.next.held, rest);
      } else {
        EndsDrop(m, s.held, rest);
        assert "" + rest == rest;
      }
    }
  }

  lemma LineKeepsContent(file: Item, line: string)
    ensures HeaderLine(file, line).1.content == file.content
  {
    hide StartsWithIgnoreCase, DispositionRest, Lookup, DispositionParams, Trim, Query.Decode;
  }

  lemma BlankLineEnds(items: seq<Item>, b: string)
    requires items != []
    ensures Ends(Message(items, b), CRLF + BodyText(items, b, 0))
  {
    hide LinesFrom, Lines, BodyText, Message, Opening, Ends;
    FirstEntry(items, b);
    var lines, body := LinesFrom(Lines(items[0]), 0), BodyText(items, b, 0);
    LinesEndBlank(Lines(items[0]), 0);
    var h := lines[..|lines| - 2];
    Assoc(Opening(b), h, CRLF + body);
    Assoc(h, CRLF, body);
    EndsJoin(Opening(b) + h, CRLF + body);
  }

  lemma {:induction false} LinesEndBlank(lines: seq<string>, k: nat)
    requires k <= |lines|
    ensures var l := LinesFrom(lines, k); |l| >= 2 && l == l[..|l| - 2] + CRLF
    decreases |lines| - k
  {
    if k < |lines| {
      LinesEndBlank(lines, k + 1);
      var more := LinesFrom(lines, k + 1);
      assert LinesFrom(lines, k) == (lines[k] + CRLF + more[..|more| - 2]) + CRLF;
    }
  }

  /** The blank line: the item is opened behind the place where it was sent, or without its
      type. */
  lemma BlankStaysLost(items: seq<Item>, b: string, s: State, rest: string)
    requires s.stage == 2 && Lost(items, b, s, rest) && |s.held| >= 2 && s.held[..2] == CRLF
    ensures Lost(items, b, s.(held := s.held[2..], stage := 3, log := s.log + [Header(s.file)]), rest)
  {
    hide Collect, Ends, Message, BodyText, Wrong;
    var c := Collect(s.log);
    CollectHeader(s.log, s.file);
    if Wrong(items, c, true) {
      WrongStays(items, c, s.file);
    } else {
      var left := s.held[2..] + rest;
      assert s.held == CRLF + s.held[2..];
      Assoc(CRLF, s.held[2..], rest);
      Assoc(CRLF, CRLF, left);
      assert CRLF + CRLF + "" == CRLF + CRLF;
      if |s.held + rest| > |BodyText(items, b, |c|)| { TypeIsWrong(items, s.file); }
    }
  }

  lemma TypeIsWrong(items: seq<Item>, file: Item)
    requires items != [] && items[0].contentType != file.contentType
    ensures Wrong(items, [] + [file], false)
  {
    assert ([] + [file])[0] == file;
  }

  /** A header line leaves less ahead. */
  lemma LineStaysLost(items: seq<Item>, b: string, s: State, rest: string, pos: nat, file: Item)
    requires s.stage == 2 && Lost(items, b, s, rest) && file.content == s.file.content
    requires 0 < pos && pos + 2 <= |s.held| && pos == Find(s.held, CRLF) && s.held[pos..pos + 2] == CRLF
    ensures Lost(items, b, s.(held := s.held[pos + 2..], file := file), rest)
  {
    hide Collect, Message, BodyText, Wrong, Find;
    var m := Message(items, b);
    if !Wrong(items, Collect(s.log), true) {
      var left, after := s.held + rest, s.held[pos + 2..] + rest;
      assert CRLF + left == (CRLF + s.held[..pos]) + (CRLF + after);
      EndsDrop(m, CRLF + s.held[..pos], CRLF + after);
      EndsDrop(m, CRLF, left);
      AtBlank(items, b, s.held, rest);
    }
  }

  /** Two bytes before the content of the first item the blank line comes next. */
  lemma AtBlank(items: seq<Item>, b: string, held: string, rest: string)
    requires items != [] && Ends(Message(items, b), held + rest) && |held| >= 2
    ensures |held + rest| == |BodyText(items, b, 0)| + 2 ==> Find(held, CRLF) == 0
  {
    hide Message, BodyText, Find;
    if |held + rest| == |BodyText(items, b, 0)| + 2 {
      BlankLineEnds(items, b);
      EndsIn(Message(items, b), held + rest, CRLF + BodyText(items, b, 0));
      assert held[0..2] == (held + rest)[..2];
      assert OccursAt(held, CRLF, 0);
      NotBefore(held, CRLF, 0);
    }
  }

  lemma NotBefore(s: string, p: string, i: nat)
    requires p != "" && i < |s| && OccursAt(s, p, i)
    ensures Find(s, p) <= i
  {}

  lemma {:induction false} HeaderLoopStaysLost(items: seq<Item>, b: string, s: State, rest: string, accepts: Receiver)
    requires s.stage == 2 && Lost(items, b, s, rest) && Obliging(accepts)
    ensures StaysLost(items, b, HeaderLoop(s, accepts), rest)
    decreases |s.held|
  {
    hide Collect, Message, BodyText, Lost, HeaderLine, Find;
    var pos := Find(s.held, CRLF);
    if pos < |s.held| {
      Found(s.held, CRLF);
      if pos == 0 {
        BlankStaysLost(items, b, s, rest);
      } else {
        var (ok, file) := HeaderLine(s.file, s.held[..pos]);
        LineKeepsContent(s.file, s.held[..pos]);
        if ok {
          LineStaysLost(items, b, s, rest, pos, file);
          HeaderLoopStaysLost(items, b, s.(file := file, held := s.held[pos + 2..]), rest, accepts);
        }
      }
    }
  }

  lemma Found(s: string, p: string)
    requires p != "" && Find(s, p) < |s|
    ensures Find(s, p) + |p| <= |s| && s[Find(s, p)..Find(s, p) + |p|] == p
  {}

  /** A delimiter found behind the place of the one that was sent ends a wrong content, or
      belongs to a later item. */
  lemma DelimiterStaysLost(items: seq<Item>, b: string, s: State, rest: string, pos: nat)
    requires s.stage == 3 && Lost(items, b, s, rest) && AllSendable(items, b)
    requires pos + |Delimiter(b)| <= |s.held| && s.held[pos..pos + |Delimiter(b)|] == Delimiter(b)
    ensures Lost(items, b, s.(held := s.held[pos + |Delimiter(b)|..], stage := 4, log := s.log + [Content(s.held[..pos])]), rest)
  {
    hide Collect, Message, Wrong, Delimiter, Sendable, Ends, Tail;
    var c, d := Collect(s.log), Delimiter(b);
    var e := s.held[..pos];
    var left := s.held[pos + |d|..] + rest;
    if c == [] {
      NoItemNotWrong(items, s, b, rest);
    } else {
      CollectContent(s.log, e);
      var c' := c[..|c| - 1] + [c[|c| - 1].(content := c[|c| - 1].content + e)];
      if Wrong(items, c, false) {
        WrongStaysInBody(items, c, e, true);
      } else if !Wrong(items, c', true) {
        var k := |c| - 1;
        LastIsRight(items, c');
        var before := CRLF + CRLF + c[k].content;
        assert before + (s.held + rest) == (before + e) + (d + left);
        EndsDrop(Message(items, b), before + e, d + left);
        assert |left| < |Tail(items, b, k)|;
        LateDelimiter(items, b, k, left);
        EndsDrop(Message(items, b), d, left);
      }
    }
  }

  lemma NoItemNotWrong(items: seq<Item>, s: State, b: string, rest: string)
    requires s.stage == 3 && Lost(items, b, s, rest)
    ensures Collect(s.log) != []
  {
  }

  lemma LastIsRight(items: seq<Item>, c: seq<Item>)
    requires c != [] && !Wrong(items, c, true)
    ensures |c| <= |items| && c[|c| - 1].content == items[|c| - 1].content
  {
    assert Meta(c[|c| - 1]) == Meta(items[|c| - 1]);
  }

  lemma EmissionStaysLost(items: seq<Item>, b: string, s: State, rest: string, len: nat)
    requires s.stage == 3 && Lost(items, b, s, rest) && len + |Delimiter(b)| == |s.held|
    ensures Lost(items, b, s.(held := s.held[len..], log := s.log + [Content(s.held[..len])]), rest)
  {
    hide Collect, Message, Wrong, Delimiter, BodyText, Ends;
    var c, e := Collect(s.log), s.held[..len];
    NoItemNotWrong(items, s, b, rest);
    CollectContent(s.log, e);
    if Wrong(items, c, false) {
      WrongStaysInBody(items, c, e, false);
    } else {
      var content := c[|c| - 1].content;
      assert CRLF + CRLF + content + (s.held + rest) == CRLF + CRLF + (content + e) + (s.held[len..] + rest);
    }
  }

  lemma BodyStaysLost(items: seq<Item>, b: string, s: State, rest: string, accepts: Receiver)
    requires s.stage == 3 && Lost(items, b, s, rest) && AllSendable(items, b) && Obliging(accepts)
    ensures StaysLost(items, b, StepBody(b, s, accepts), rest)
  {
    hide Collect, Message, Wrong, Delimiter, BodyText, Lost, StepBody, Sendable, Find, Obliging;
    BodyTurn(b, s, accepts);
    var d, pos := |Delimiter(b)|, Find(s.held, Delimiter(b));
    if pos < |s.held| {
      Found(s.held, Delimiter(b));
      DelimiterStaysLost(items, b, s, rest, pos);
    } else if |s.held| > d {
      EmissionStaysLost(items, b, s, rest, |s.held| - d);
    }
  }

  lemma StepStaysLost(items: seq<Item>, b: string, s: State, rest: string, accepts: Receiver)
    requires s.held != "" && Lost(items, b, s, rest) && AllSendable(items, b) && Obliging(accepts)
    ensures StaysLost(items, b, Step(b, s, accepts), rest)
  {
    hide Lost, StaysLost, StepEntry, HeaderLoop, StepBody, StepBoundary, Sendable, Find, Obliging;
    LostIsStarted(items, b, s, rest);
    if s.stage == 1 {
      EntryStaysLost(items, b, s, rest);
    } else if s.stage == 2 {
      HeaderLoopStaysLost(items, b, s, rest, accepts);
      RefusedStaysLost(items, b, s, rest);
    } else if s.stage == 3 {
      BodyStaysLost(items, b, s, rest, accepts);
    } else {
      BoundaryStaysLost(items, b, s, rest);
    }
  }

  lemma LostIsStarted(items: seq<Item>, b: string, s: State, rest: string)
    requires Lost(items, b, s, rest)
    ensures s.stage > 0
  {}

  lemma RefusedStaysLost(items: seq<Item>, b: string, s: State, rest: string)
    ensures StaysLost(items, b, Stop(s, false), rest)
  {}

  lemma {:induction false} RunStaysLost(items: seq<Item>, b: string, s: State, rest: string, accepts: Receiver)
    requires Lost(items, b, s, rest) && AllSendable(items, b) && Obliging(accepts)
    ensures var (l, ok) := Run(b, s, accepts); ok ==> Lost(items, b, l, rest) && Settled(b, l)
    decreases Measure(s)
  {
    hide Lost, Step, Sendable, Obliging;
    if s.held != "" {
      StepStaysLost(items, b, s, rest, accepts);
      var o := Step(b, s, accepts);
      if o.Go? { RunStaysLost(items, b, o.next, rest, accepts); }
    }
  }

  lemma ReceiveStaysLost(items: seq<Item>, b: string, s: State, chunk: string, rest: string)
    requires Lost(items, b, s, chunk + rest)
    ensures Lost(items, b, s.(held := s.held + chunk), rest)
  {
    hide Collect, Message, Wrong, Delimiter, BodyText, Ends;
    Assoc(s.held, chunk, rest);
  }

  lemma {:induction false} ParseAllStaysLost(items: seq<Item>, b: string, s: State, chunks: seq<string>, accepts: Receiver)
    requires Lost(items, b, s, Join(chunks)) && Settled(b, s) && AllSendable(items, b) && Obliging(accepts)
    ensures var (l, ok) := ParseAll(b, s, chunks, accepts); ok ==> Lost(items, b, l, "") && Settled(b, l)
    decreases |chunks|
  {
    hide Lost, Run, Sendable, Obliging, Settled;
    if chunks != [] {
      var rest := Join(chunks[1..]);
      ReceiveStaysLost(items, b, s, chunks[0], rest);
      RunStaysLost(items, b, s.(held := s.held + chunks[0]), rest, accepts);
      var (n, ok) := Parse(b, s, chunks[0], accepts);
      if ok { ParseAllStaysLost(items, b, n, chunks[1..], accepts); }
    }
  }

  // ------------------------------------------------------------- the end of the message

  /** A body that begins behind the content of the last item cannot have delivered that content
      by the end of the message. */
  lemma LastBodyDiffers(content: string, b: string, held: string)
    requires ValidBoundary(b) && |held| <= |Delimiter(b)| && (content == "" || |held| == |Delimiter(b)|)
    ensures !Ends(content + Delimiter(b) + ("--" + CRLF), CRLF + CRLF + content + held)
  {
    var d, y, x := Delimiter(b), content + Delimiter(b) + ("--" + CRLF), CRLF + CRLF + content + held;
    var o := |y| - |x|;
    if content == "" {
      OneBreak(b);
      assert y == d + ("--" + CRLF);
      assert forall k :: 0 <= k < |d| ==> y[k] == d[k];
      assert y[o] != CR || y[o + 2] != CR by { assert d[2] == '-' && y[|d|] == '-' && y[|d| + 1] == '-'; }
      assert o + |x| == |y| && x[0] == CR && x[2] == CR;
      assert y[o..][0] == y[o] && y[o..][2] == y[o + 2];
    } else {
      assert o == 0 && y[0..] == y;
      assert x[..|content| + 4] == CRLF + CRLF + content;
      assert y[..|content| + 4] == content + (CRLF + "--");
      CountDashes(content);
    }
  }

  lemma CountDashes(content: string)
    ensures CRLF + CRLF + content != content + (CRLF + "--")
  {
    var m, x, y := multiset(content), CRLF + CRLF + content, content + (CRLF + "--");
    assert multiset(x) == multiset(CRLF + CRLF) + m && multiset(CRLF + CRLF)['-'] == 0;
    assert multiset(y) == m + multiset(CRLF + "--") && multiset(CRLF + "--")['-'] == 2;
    assert multiset(x)['-'] != multiset(y)['-'];
  }

  lemma RightIsNotWrong(items: seq<Item>, complete: bool)
    ensures !Wrong(items, items, complete)
  {
  }

  lemma LostIsNotAll(items: seq<Item>, b: string, s: State)
    requires Lost(items, b, s, "") && Settled(b, s) && AllSendable(items, b)
    ensures Collect(s.log) != items
  {
    hide Collect, Message, Wrong, Delimiter, Sendable, Ends;
    RightIsNotWrong(items, s.stage != 3);
    var n := |items| - 1;
    if s.stage == 3 && n >= 0 {
      var content := items[n].content;
      assert s.held + "" == s.held;
      EntryEnds(items, b, n);
      assert BodyText(items, b, n) == content + Delimiter(b) + ("--" + CRLF);
      if |s.held| <= |Delimiter(b)| && (content == "" || |s.held| == |Delimiter(b)|) {
        LastBodyDiffers(content, b, s.held);
        if Ends(Message(items, b), CRLF + CRLF + content + s.held) {
          EndsIn(Message(items, b), CRLF + CRLF + content + s.held, BodyText(items, b, n));
        }
      }
    }
  }

  // ------------------------------------------------------------- the exact condition

  /** Found late, the opening line starts a parse that is lost. */
  lemma LateStartIsLost(items: seq<Item>, b: string, chunk: string, rest: string, accepts: Receiver)
    requires items != [] && AllSendable(items, b) && Obliging(accepts)
    requires StartsWith(chunk, Opening(b)) && Find(chunk, Opening(b)) == 0
    requires Ends(Message(items, b), chunk + rest) && |chunk + rest| < |Message(items, b)|
    ensures var (l, ok) := Parse(b, START, chunk, accepts); ok ==> Lost(items, b, l, rest) && Settled(b, l)
  {
    hide Message, Sendable, BodyText, Lost, Ends, Obliging, Opening, Find, OccursAt;
    var op := Opening(b);
    var s := START.(held := chunk[|op|..], stage := 1);
    assert chunk == op + chunk[|op|..];
    Assoc(op, chunk[|op|..], rest);
    LateOpening(items, b, chunk[|op|..] + rest);
    StartIsLost(items, b, s, rest);
    assert "" + chunk == chunk && chunk[0..] == chunk;
    assert Step(b, START.(held := chunk), accepts) == Go(s);
    RunStaysLost(items, b, s, rest, accepts);
  }

  lemma StartIsLost(items: seq<Item>, b: string, s: State, rest: string)
    requires items != [] && s.stage == 1 && s.log == [] && s.file.content == ""
    requires Waits(items, b, 0, s.held + rest, "")
    ensures Lost(items, b, s, rest)
  {
    hide Message, BodyText, Waits;
  }

  /** Once the start of the message is gone, the items are not delivered as they were sent. */
  lemma {:induction false} CutIsLost(items: seq<Item>, b: string, chunks: seq<string>, accepts: Receiver)
    requires items != [] && AllSendable(items, b) && Obliging(accepts)
    requires Ends(Message(items, b), Join(chunks)) && |Join(chunks)| < |Message(items, b)|
    ensures var (l, ok) := ParseAll(b, START, chunks, accepts); ok ==> Collect(l.log) != items
    decreases |chunks|
  {
    hide Message, Sendable, Parse, Lost, Ends, Obliging, Opening, Absent, Find, OccursAt, Settled;
    if chunks != [] {
      var chunk, rest := chunks[0], Join(chunks[1..]);
      assert chunks == [chunk] + chunks[1..];
      if Absent(chunk, Opening(b)) {
        CutOpeningIsLost(b, chunk, chunks[1..], accepts);
        EndsDrop(Message(items, b), chunk, rest);
        CutIsLost(items, b, chunks[1..], accepts);
      } else {
        PreambleIsSkipped(b, chunk, chunks[1..], accepts);
        var k := Find(chunk, Opening(b));
        var h := chunk[k..];
        assert chunk + rest == chunk[..k] + (h + rest);
        EndsDrop(Message(items, b), chunk[..k], h + rest);
        AtItsPlace(h, Opening(b));
        LateStartIsLost(items, b, h, rest, accepts);
        assert ([h] + chunks[1..])[1..] == chunks[1..];
        var (n, ok) := Parse(b, START, h, accepts);
        if ok {
          ParseAllStaysLost(items, b, n, chunks[1..], accepts);
          var (l, good) := ParseAll(b, n, chunks[1..], accepts);
          if good { LostIsNotAll(items, b, l); }
        }
      }
    }
  }

  lemma AtItsPlace(s: string, p: string)
    requires p != "" && s != "" && Find(s, p) == 0
    ensures StartsWith(s, p)
  {}

  /** A parser that has become valid has delivered an item. */
  ghost predicate HasItem(s: State) { s.stage >= 3 || s.valid ==> Collect(s.log) != [] }

  lemma StepHasItem(b: string, s: State, accepts: Receiver)
    requires s.held != "" && HasItem(s) && Obliging(accepts)
    ensures var o := Step(b, s, accepts); HasItem(if o.Go? then o.next else o.last)
  {
    hide Collect, Find, HeaderLine, Opening, Delimiter, Obliging, HeaderLoop, StepBody;
    if s.stage == 2 {
      HeadersHaveItem(s, accepts);
    } else if s.stage == 3 {
      BodyTurn(b, s, accepts);
      var pos := Find(s.held, Delimiter(b));
      CollectContent(s.log, s.held[..pos]);
      if |s.held| >= |Delimiter(b)| { CollectContent(s.log, s.held[..|s.held| - |Delimiter(b)|]); }
    }
  }

  lemma {:induction false} HeadersHaveItem(s: State, accepts: Receiver)
    requires s.stage == 2 && HasItem(s) && Obliging(accepts)
    ensures var o := HeaderLoop(s, accepts); HasItem(if o.Go? then o.next else o.last)
    decreases |s.held|
  {
    hide Collect, Find, HeaderLine;
    var pos := Find(s.held, CRLF);
    CollectHeader(s.log, s.file);
    if 0 < pos < |s.held| {
      var (ok, file) := HeaderLine(s.file, s.held[..pos]);
      if ok { HeadersHaveItem(s.(file := file, held := s.held[pos + 2..]), accepts); }
    }
  }

  lemma {:induction false} RunHasItem(b: string, s: State, accepts: Receiver)
    requires HasItem(s) && Obliging(accepts)
    ensures HasItem(Run(b, s, accepts).0)
    decreases Measure(s)
  {
    hide Step, HasItem, Obliging;
    if s.held != "" {
      StepHasItem(b, s, accepts);
      var o := Step(b, s, accepts);
      if o.Go? { RunHasItem(b, o.next, accepts); }
    }
  }

  lemma {:induction false} ValidHasItem(b: string, s: State, chunks: seq<string>, accepts: Receiver)
    requires HasItem(s) && Obliging(accepts)
    ensures HasItem(ParseAll(b, s, chunks, accepts).0)
    decreases |chunks|
  {
    hide Run, Obliging;
    if chunks != [] {
      RunHasItem(b, s.(held := s.held + chunks[0]), accepts);
      var (n, ok) := Parse(b, s, chunks[0], accepts);
      if ok { ValidHasItem(b, n, chunks[1..], accepts); }
    }
  }

  lemma {:induction false} CutOpening(items: seq<Item>, b: string, chunks: seq<string>, accepts: Receiver)
    requires items != [] && AllSendable(items, b) && Obliging(accepts)
    requires Join(chunks) == Message(items, b) && !OpeningWhole(chunks, b)
    ensures var (l, ok) := ParseAll(b, START, chunks, accepts); ok ==> Collect(l.log) != items
    decreases |chunks|
  {
    hide Message, Sendable, ParseAll, Obliging, Opening, Absent, Find, OccursAt;
    var chunk := chunks[0];
    assert chunks == [chunk] + chunks[1..];
    ShortIsAbsent(chunk, Opening(b));
    CutOpeningIsLost(b, chunk, chunks[1..], accepts);
    if chunk == "" {
      CutOpening(items, b, chunks[1..], accepts);
    } else {
      EndsJoin(chunk, Join(chunks[1..]));
      CutIsLost(items, b, chunks[1..], accepts);
    }
  }

  lemma ShortIsAbsent(s: string, p: string)
    requires |s| < |p|
    ensures Absent(s, p)
  {}

  /** For any items that may be sent and any cutting of their message: they are delivered exactly
      as they were sent, and the message accepted as valid, if and only if there are any and the
      opening boundary line is in one chunk. Delivering no items is never valid. */
  lemma RoundTripIff(items: seq<Item>, b: string, chunks: seq<string>, accepts: Receiver)
    requires AllSendable(items, b) && Obliging(accepts) && Join(chunks) == Message(items, b)
    ensures var (l, ok) := ParseAll(b, START, chunks, accepts);
      (ok && l.valid && Collect(l.log) == items) <==> (items != [] && OpeningWhole(chunks, b))
  {
    hide ParseAll, SerializeFrom, Sendable, Obliging, OpeningWhole;
    if items == [] {
      ValidHasItem(b, START, chunks, accepts);
    } else if OpeningWhole(chunks, b) {
      RoundTrip(items, b, chunks, accepts);
    } else {
      CutOpening(items, b, chunks, accepts);
    }
  }
}
