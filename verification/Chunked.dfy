/** Chunked transfer coding (section 7.1 of RFC 9112): the sink that writes chunks and the
    reader on top of the line buffer, as functions on byte strings. */
module Chunked {
  import opened Text
  import opened ReadStack
  import Query
  import opened Wrappers

  type Headers = seq<(string, string)>

  const ULONG_MAX: nat := 0xFFFF_FFFF_FFFF_FFFF

  // ------------------------------------------------------------- chunk sizes

  function LowerHex(v: nat): (c: char)
    requires v < 16
    ensures Query.HexValue(c) == v && !IsSpace(c) && c != '-' && c != '+' && c != 'x' && c != 'X' && c != LF
  {
    if v < 10 then ('0' as int + v) as char else ('a' as int + v - 10) as char
  }

  function Hex(n: nat): (h: string)
    ensures h != ""
  {
    if n < 16 then [LowerHex(n)] else Hex(n / 16) + [LowerHex(n % 16)]
  }

  /** `from_i_to_hex`: digits prepended while the number is shifted down. */
  method FromIToHex(n: nat) returns (ret: string)
    ensures ret == Hex(n)
  {
    ret := [LowerHex(n % 16)];
    var m := n / 16;
    while m > 0
      invariant Hex(n) == (if m > 0 then Hex(m) else "") + ret
    {
      HexUnfold(m, ret);
      ret := [LowerHex(m % 16)] + ret;
      m := m / 16;
    }
  }

  lemma HexUnfold(m: nat, ret: string)
    requires m > 0
    ensures Hex(m) + ret == (if m / 16 > 0 then Hex(m / 16) else "") + ([LowerHex(m % 16)] + ret)
  {
    if m / 16 > 0 { Assoc(Hex(m / 16), [LowerHex(m % 16)], ret); }
  }

  /** Number of hexadecimal digits at `i`. */
  function HexRun(s: string, i: nat): (n: nat)
    requires i <= |s|
    ensures i + n <= |s|
    decreases |s| - i
  {
    if i < |s| && Query.HexValue(s[i]) >= 0 then 1 + HexRun(s, i + 1) else 0
  }

  function HexNumber(s: string): nat {
    if s == "" || Query.HexValue(s[|s| - 1]) < 0 then 0
    else HexNumber(s[..|s| - 1]) * 16 + Query.HexValue(s[|s| - 1])
  }

  function SpaceRun(s: string): (n: nat)
    ensures n <= |s|
  {
    if s != "" && IsSpace(s[0]) then 1 + SpaceRun(s[1..]) else 0
  }

  /** `strtoul` in base 16: white space, a sign, an optional `0x` before a digit, the digits;
      saturating, negated modulo 2^64, and -1 here when there is nothing to convert. */
  function StrToUL(s: string): int {
    var i := SpaceRun(s);
    Converted(s, SkipMark(s, SkipSign(s, i)), i < |s| && s[i] == '-')
  }

  function SkipSign(s: string, i: nat): (j: nat)
    requires i <= |s|
    ensures j <= |s|
  {
    if i < |s| && (s[i] == '-' || s[i] == '+') then i + 1 else i
  }

  function SkipMark(s: string, j: nat): (k: nat)
    requires j <= |s|
    ensures k <= |s|
  {
    if j + 2 < |s| && s[j] == '0' && s[j + 1] in {'x', 'X'} && Query.HexValue(s[j + 2]) >= 0 then j + 2 else j
  }

  function Converted(s: string, k: nat, neg: bool): int
    requires k <= |s|
  {
    var n := HexRun(s, k);
    if n == 0 then -1
    else
      var v := HexNumber(s[k..k + n]);
      if v > ULONG_MAX then ULONG_MAX else if neg then (ULONG_MAX + 1 - v) % (ULONG_MAX + 1) else v
  }

  predicate IsDigit(c: char) {
    Query.HexValue(c) >= 0 && !IsSpace(c) && c != '-' && c != '+' && c != 'x' && c != 'X' && c != LF
  }

  lemma {:induction false} HexNumberOfHex(n: nat)
    ensures HexNumber(Hex(n)) == n
    ensures forall i | 0 <= i < |Hex(n)| :: IsDigit(Hex(n)[i])
  {
    if n >= 16 {
      HexNumberOfHex(n / 16);
      assert Hex(n)[..|Hex(n)| - 1] == Hex(n / 16);
    }
  }

  /** The reader inverts the writer on every size below the saturation value. */
  lemma {:induction false} SizeRoundTrip(n: nat, more: string)
    requires n < ULONG_MAX && more != "" && Query.HexValue(more[0]) < 0 && more[0] != 'x' && more[0] != 'X'
    ensures StrToUL(Hex(n) + more) == n
    ensures LF !in Hex(n)
  {
    hide HexRun, HexNumber, Hex;
    var h := Hex(n);
    var s := h + more;
    HexNumberOfHex(n);
    assert s[0] == h[0] && s[|h|] == more[0];
    assert |h| > 1 ==> s[1] == h[1];
    assert SpaceRun(s) == 0;
    HexRunPrefix(h, more, 0);
    assert s[0..|h|] == h;
  }

  lemma {:induction false} HexRunPrefix(h: string, more: string, i: nat)
    requires more != "" && Query.HexValue(more[0]) < 0 && i <= |h|
    requires forall k | 0 <= k < |h| :: Query.HexValue(h[k]) >= 0
    ensures HexRun(h + more, i) == |h| - i
    decreases |h| - i
  {
    if i < |h| {
      HexRunPrefix(h, more, i + 1);
    } else {
      assert (h + more)[i] == more[0];
    }
  }

  predicate AllHex(h: string) { forall k | 0 <= k < |h| :: Query.HexValue(h[k]) >= 0 }

  predicate AllSpaces(s: string) { forall k | 0 <= k < |s| :: IsSpace(s[k]) }

  /** No digit at the front. */
  predicate NoHex(more: string) { more == "" || Query.HexValue(more[0]) < 0 }

  lemma {:induction false} SpacesAreSkipped(spaces: string, s: string)
    requires AllSpaces(spaces) && (s == "" || !IsSpace(s[0]))
    ensures SpaceRun(spaces + s) == |spaces|
  {
    if spaces == "" {
      assert spaces + s == s;
    } else {
      SpacesAreSkipped(spaces[1..], s);
      assert (spaces + s)[1..] == spaces[1..] + s;
    }
  }

  lemma {:induction false} HexRunAt(s: string, i: nat, h: string, more: string)
    requires i <= |s| && s[i..] == h + more && AllHex(h) && NoHex(more)
    ensures HexRun(s, i) == |h| && i + |h| <= |s| && s[i..i + |h|] == h
    decreases |h|
  {
    if h == "" {
      assert s[i..] == more && (i < |s| ==> s[i] == s[i..][0]);
    } else {
      assert s[i] == s[i..][0] == h[0] && s[i + 1..] == s[i..][1..] == h[1..] + more;
      HexRunAt(s, i + 1, h[1..], more);
      assert s[i..i + |h|] == [s[i]] + s[i + 1..i + 1 + |h[1..]|];
    }
  }

  /** What `strtoul` makes of a size line: white space, a sign and `0x` may stand before the
      digits, anything behind them; a number too large becomes the largest one, and a minus sign
      negates modulo 2^64. */
  lemma NumberIsRead(spaces: string, sign: string, mark: string, h: string, more: string)
    requires AllSpaces(spaces) && sign in {"", "+", "-"} && mark in {"", "0x", "0X"}
    requires h != "" && AllHex(h) && NoHex(more)
    requires mark == "" && h == "0" ==> more == "" || more[0] !in {'x', 'X'}
    ensures var v := HexNumber(h);
      StrToUL(spaces + (sign + (mark + (h + more)))) ==
        if v > ULONG_MAX then ULONG_MAX
        else if sign == "-" then (ULONG_MAX + 1 - v) % (ULONG_MAX + 1)
        else v
  {
    hide HexNumber, HexRun, SkipMark, SkipSign, SpaceRun, AllHex, NoHex, AllSpaces, Converted;
    var rest := mark + (h + more);
    var s := spaces + (sign + rest);
    NumberStarts(sign, mark, h, more);
    SpacesAreSkipped(spaces, sign + rest);
    var i := |spaces|;
    assert s[i..] == sign + rest;
    SignIsSkipped(s, i, sign, rest);
    MarkIsSkipped(s, i + |sign|, mark, h, more);
    ConvertedIs(s, i + |sign| + |mark|, sign == "-", h, more);
  }

  lemma ConvertedIs(s: string, k: nat, neg: bool, h: string, more: string)
    requires k <= |s| && s[k..] == h + more && h != "" && AllHex(h) && NoHex(more)
    ensures var v := HexNumber(h);
      Converted(s, k, neg) ==
        if v > ULONG_MAX then ULONG_MAX else if neg then (ULONG_MAX + 1 - v) % (ULONG_MAX + 1) else v
  {
    hide HexNumber, HexRun, AllHex, NoHex;
    HexRunAt(s, k, h, more);
    assert |h| > 0;
  }

  lemma NumberStarts(sign: string, mark: string, h: string, more: string)
    requires sign in {"", "+", "-"} && mark in {"", "0x", "0X"} && h != "" && AllHex(h)
    ensures var rest := mark + (h + more);
      rest != "" && Query.HexValue(rest[0]) >= 0 && !IsSpace((sign + rest)[0])
  {
    var rest := mark + (h + more);
    assert rest[0] == if mark == "" then h[0] else '0';
    assert (sign + rest)[0] == if sign == "" then rest[0] else sign[0];
  }

  lemma SignIsSkipped(s: string, i: nat, sign: string, rest: string)
    requires i <= |s| && s[i..] == sign + rest && sign in {"", "+", "-"}
    requires sign == "" ==> rest == "" || rest[0] !in {'+', '-'}
    ensures SkipSign(s, i) == i + |sign| && s[i + |sign|..] == rest
    ensures (i < |s| && s[i] == '-') <==> sign == "-"
  {
    assert i < |s| ==> s[i] == s[i..][0];
    assert sign == "" ==> sign + rest == rest;
    assert s[i + |sign|..] == s[i..][|sign|..];
  }

  lemma MarkIsSkipped(s: string, j: nat, mark: string, h: string, more: string)
    requires j <= |s| && s[j..] == mark + (h + more) && mark in {"", "0x", "0X"}
    requires h != "" && AllHex(h) && NoHex(more)
    requires mark == "" && h == "0" ==> more == "" || more[0] !in {'x', 'X'}
    ensures SkipMark(s, j) == j + |mark| && s[j + |mark|..] == h + more
  {
    var rest := s[j..];
    assert s[j] == rest[0] && (|rest| > 1 ==> s[j + 1] == rest[1]) && (|rest| > 2 ==> s[j + 2] == rest[2]);
    if mark == "" {
      assert rest == h + more;
    } else {
      assert rest[2] == (h + more)[0] == h[0] && rest[0] == mark[0] && rest[1] == mark[1];
      assert rest[2..] == h + more;
    }
  }

  /** And it refuses a line without a digit there. */
  lemma NoNumberIsRefused(spaces: string, sign: string, more: string)
    requires AllSpaces(spaces) && sign in {"", "+", "-"} && NoHex(more)
    requires sign == "" && more != "" ==> !IsSpace(more[0]) && more[0] !in {'+', '-'}
    ensures StrToUL(spaces + (sign + more)) == -1
  {
    hide HexNumber, SkipSign, SpaceRun, AllSpaces;
    var s := spaces + (sign + more);
    SpacesAreSkipped(spaces, sign + more);
    var i := |spaces|;
    var j := i + |sign|;
    assert s[i..] == sign + more;
    SignIsSkipped(s, i, sign, more);
    assert s[j..] == "" + more && (j < |s| ==> s[j] == s[j..][0]);
    HexRunAt(s, j, "", more);
  }

  /** A size that does not fit is refused by the reader, whatever follows it. */
  lemma OversizedIsRefused(n: nat, rest: string)
    requires n >= ULONG_MAX
    ensures ReadChunked(Hex(n) + CRLF + rest) == None
  {
    hide HexNumber, HexRun, Line, AfterLine;
    HexNumberOfHex(n);
    var h := Hex(n);
    LineEnds(h + [CR], rest);
    assert h + CRLF + rest == (h + [CR]) + [LF] + rest;
    assert (h + [CR]) + [LF] == "" + ("" + ("" + (h + CRLF)));
    NumberIsRead("", "", "", h, CRLF);
  }

  // ------------------------------------------------------------- the coding

  function Chunk(data: string): string { Hex(|data|) + CRLF + data + CRLF }

  function Chunks(pieces: seq<string>): string {
    if pieces == [] then "" else Chunk(pieces[0]) + Chunks(pieces[1..])
  }

  function FieldLine(kv: (string, string)): string { kv.0 + ": " + kv.1 + CRLF }

  function TrailerFrom(trailers: Headers, i: nat): string
    requires i <= |trailers|
    decreases |trailers| - i
  {
    if i == |trailers| then CRLF else FieldLine(trailers[i]) + TrailerFrom(trailers, i + 1)
  }

  /** What `done` and `done_with_trailer` write. */
  function End(trailers: Headers): string { "0" + CRLF + TrailerFrom(trailers, 0) }

  function Concat(pieces: seq<string>): string {
    if pieces == [] then "" else pieces[0] + Concat(pieces[1..])
  }

  // ------------------------------------------------------------- the reader on byte strings

  /** `parse_header` on a line without its two terminator bytes. */
  function ParseHeader(line: string): Option<(string, string)> {
    var t := TrimRight(line);
    var p := Find(t, ":");
    if p == |t| then None
    else
      var val := TrimLeft(t[p + 1..]);
      if val == "" then None
      else Some((t[..p], if EqualIgnoreCase(t[..p], "Location") then val else Query.Decode(val, false)))
  }

  lemma {:induction false} TrimRightBlanks(x: string, blanks: string)
    requires AllBlank(blanks)
    ensures TrimRight(x + blanks) == TrimRight(x)
    decreases |blanks|
  {
    if blanks == "" {
      assert x + "" == x;
    } else {
      var n := |blanks| - 1;
      assert (x + blanks)[..|x| + n] == x + blanks[..n];
      TrimRightBlanks(x, blanks[..n]);
    }
  }

  lemma {:induction false} TrimLeftBlanks(blanks: string, x: string)
    requires AllBlank(blanks)
    ensures TrimLeft(blanks + x) == TrimLeft(x)
  {
    if blanks == "" {
      assert "" + x == x;
    } else {
      assert (blanks + x)[1..] == blanks[1..] + x;
      TrimLeftBlanks(blanks[1..], x);
    }
  }

  /** A header line: the key up to the first colon, and the value without the blanks around it,
      decoded unless it is a location; no header without a colon or without a value. */
  lemma HeaderIs(key: string, before: string, val: string, after: string)
    requires ':' !in key && AllBlank(before) && AllBlank(after) && NoOuterBlanks(val)
    ensures ParseHeader(key) == None
    ensures ParseHeader(key + ":" + before + val + after) ==
      if val == "" then None
      else Some((key, if EqualIgnoreCase(key, "Location") then val else Query.Decode(val, false)))
  {
    hide Query.DecodeFrom, EqualIgnoreCase, TrimLeft;
    TrimmedHasNoColon(key);
    var x := key + ":" + before + val;
    TrimRightBlanks(x, after);
    if val == "" {
      assert x == (key + ":") + before;
      TrimRightBlanks(key + ":", before);
      var t := key + ":";
      assert TrimRight(t) == t;
      assert t == key + [':'] + "";
      FindChar(key, ':', "");
      assert t[|key| + 1..] == "";
      NothingLeft();
    } else {
      TrimRightKeeps(key + ":" + before, val);
      assert x == key + [':'] + (before + val);
      FindChar(key, ':', before + val);
      assert x[..|key|] == key && x[|key| + 1..] == before + val;
      TrimLeftBlanks(before, val);
      LeftKept(val);
    }
  }

  lemma NothingLeft()
    ensures TrimLeft("") == ""
  {}

  lemma LeftKept(val: string)
    requires val != "" && !IsBlank(val[0])
    ensures TrimLeft(val) == val
  {}

  lemma TrimmedHasNoColon(key: string)
    requires ':' !in key
    ensures Find(TrimRight(key), ":") == |TrimRight(key)|
  {
    var after := RightMeans(key);
    assert ':' !in TrimRight(key);
    AbsentChar(TrimRight(key), ':');
  }

  function HeaderOf(line: string): Headers {
    if |line| < 2 then []
    else match ParseHeader(line[..|line| - 2])
      case None => []
      case Some(kv) => [kv]
  }

  /** Trailer lines up to the blank one: the headers found and the bytes after it. */
  function ReadTrailer(s: string): Option<(Headers, string)>
    decreases |s|
  {
    if s == "" then None
    else if Line(s) == CRLF then Some(([], AfterLine(s)))
    else if |Line(s)| > HEADER_MAX_LENGTH then None
    else match ReadTrailer(AfterLine(s))
      case None => None
      case Some((headers, rest)) => Some((HeaderOf(Line(s)) + headers, rest))
  }

  datatype Message = Message(body: string, trailers: Headers, rest: string)

  /** A chunked message at the front of `s`. */
  function ReadChunked(s: string): Option<Message>
    decreases |s|
  {
    if s == "" then None
    else
      var n, r := StrToUL(Line(s)), AfterLine(s);
      if n < 0 || n == ULONG_MAX then None
      else if n == 0 then
        match ReadTrailer(r)
        case None => None
        case Some((trailers, rest)) => Some(Message("", trailers, rest))
      else if |r| < n || r[n..] == "" || Line(r[n..]) != CRLF then None
      else match ReadChunked(AfterLine(r[n..]))
        case None => None
        case Some(m) => Some(m.(body := r[..n] + m.body))
  }

  // ------------------------------------------------------------- the round trip

  /** A trailer field that the header parser can read back. */
  predicate PlainTrailer(kv: (string, string)) {
    && ':' !in kv.0 && LF !in kv.0 && LF !in kv.1
    && kv.1 != "" && NoOuterBlanks(kv.1)
    && |FieldLine(kv)| <= HEADER_MAX_LENGTH
  }

  /** What arrives: percent escapes are decoded, except in a location. */
  function Received(kv: (string, string)): (string, string) {
    (kv.0, if EqualIgnoreCase(kv.0, "Location") then kv.1 else Query.Decode(kv.1, false))
  }

  /** A value that was percent-encoded arrives decoded; a location arrives as it was sent. */
  lemma EncodedIsReceived(key: string, v: string)
    requires Query.IsByteString(v)
    ensures !EqualIgnoreCase(key, "Location") ==> Received((key, Query.EncodeParam(v))) == (key, v)
    ensures EqualIgnoreCase(key, "Location") ==> Received((key, v)) == (key, v)
  {
    hide EqualIgnoreCase;
    var e := Query.EncodeParam(v);
    assert e[0..] == e;
    Query.DecodeEncoded(e, 0, v, false);
  }

  function AllReceived(trailers: Headers, i: nat): Headers
    requires i <= |trailers|
    decreases |trailers| - i
  {
    if i == |trailers| then [] else [Received(trailers[i])] + AllReceived(trailers, i + 1)
  }

  lemma {:induction false} TrimRightKeeps(a: string, v: string)
    requires v != "" && !IsBlank(v[|v| - 1])
    ensures TrimRight(a + v) == a + v
  {
    assert (a + v)[|a + v| - 1] == v[|v| - 1];
  }

  lemma FieldIsRead(kv: (string, string))
    requires PlainTrailer(kv)
    ensures HeaderOf(FieldLine(kv)) == [Received(kv)]
  {
    hide Query.DecodeFrom, EqualIgnoreCase;
    var line := FieldLine(kv);
    var t := kv.0 + [':'] + (" " + kv.1);
    assert line[..|line| - 2] == t == (kv.0 + ": ") + kv.1;
    TrimRightKeeps(kv.0 + ": ", kv.1);
    FindChar(kv.0, ':', " " + kv.1);
    assert t[..|kv.0|] == kv.0 && t[|kv.0| + 1..] == " " + kv.1;
    assert (" " + kv.1)[1..] == kv.1;
    assert TrimLeft(" " + kv.1) == TrimLeft(kv.1) == kv.1;
  }

  lemma LineOfField(kv: (string, string), rest: string)
    requires PlainTrailer(kv)
    ensures Line(FieldLine(kv) + rest) == FieldLine(kv) && AfterLine(FieldLine(kv) + rest) == rest
    ensures FieldLine(kv) != CRLF
  {
    var a := kv.0 + ": " + kv.1 + [CR];
    assert FieldLine(kv) + rest == a + [LF] + rest;
    assert FieldLine(kv) == a + [LF];
    LineEnds(a, rest);
    assert |FieldLine(kv)| > 2;
  }

  lemma LineOfBreak(rest: string)
    ensures Line(CRLF + rest) == CRLF && AfterLine(CRLF + rest) == rest
  {
    assert CRLF + rest == [CR] + [LF] + rest;
    LineEnds([CR], rest);
  }

  lemma {:induction false} TrailerRoundTrip(trailers: Headers, i: nat, rest: string)
    requires i <= |trailers| && forall k | 0 <= k < |trailers| :: PlainTrailer(trailers[k])
    ensures ReadTrailer(TrailerFrom(trailers, i) + rest) == Some((AllReceived(trailers, i), rest))
    decreases |trailers| - i
  {
    hide HeaderOf, FieldLine, Received, Line, AfterLine, PlainTrailer;
    if i == |trailers| {
      LineOfBreak(rest);
    } else {
      var more := TrailerFrom(trailers, i + 1) + rest;
      Assoc(FieldLine(trailers[i]), TrailerFrom(trailers, i + 1), rest);
      LineOfField(trailers[i], more);
      FieldLength(trailers[i]);
      FieldIsRead(trailers[i]);
      TrailerRoundTrip(trailers, i + 1, rest);
    }
  }

  lemma FieldLength(kv: (string, string))
    requires PlainTrailer(kv)
    ensures 0 < |FieldLine(kv)| <= HEADER_MAX_LENGTH
  {}

  lemma SizeLine(n: nat, rest: string)
    requires n < ULONG_MAX
    ensures var s := Hex(n) + CRLF + rest;
            s != "" && Line(s) == Hex(n) + CRLF && AfterLine(s) == rest && StrToUL(Line(s)) == n
  {
    hide StrToUL, Hex;
    SizeRoundTrip(n, CRLF);
    assert Hex(n) + CRLF + rest == (Hex(n) + [CR]) + [LF] + rest;
    assert Hex(n) + CRLF == (Hex(n) + [CR]) + [LF];
    LineEnds(Hex(n) + [CR], rest);
  }

  /** Whatever pieces were sent, the reader delivers their concatenation and the trailers,
      and stops exactly at the end of the encoded bytes. */
  lemma {:induction false} RoundTrip(pieces: seq<string>, trailers: Headers, rest: string)
    requires forall k | 0 <= k < |pieces| :: 0 < |pieces[k]| < ULONG_MAX
    requires forall k | 0 <= k < |trailers| :: PlainTrailer(trailers[k])
    ensures ReadChunked(Chunks(pieces) + End(trailers) + rest)
         == Some(Message(Concat(pieces), AllReceived(trailers, 0), rest))
    decreases |pieces|
  {
    hide StrToUL, Hex, Line, AfterLine, TrailerFrom, ReadTrailer, AllReceived, PlainTrailer;
    if pieces == [] {
      HexOfZero();
      SizeLine(0, TrailerFrom(trailers, 0) + rest);
      assert "" + End(trailers) + rest == Hex(0) + CRLF + (TrailerFrom(trailers, 0) + rest);
      TrailerRoundTrip(trailers, 0, rest);
    } else {
      var p, more := pieces[0], Chunks(pieces[1..]) + End(trailers) + rest;
      RoundTrip(pieces[1..], trailers, rest);
      Regroup(Hex(|p|), CRLF, p, Chunks(pieces[1..]), End(trailers), rest);
      SizeLine(|p|, p + (CRLF + more));
      var r := p + (CRLF + more);
      assert r[..|p|] == p && r[|p|..] == CRLF + more;
      LineOfBreak(more);
    }
  }

  lemma HexOfZero()
    ensures Hex(0) == "0"
  {}

  lemma Regroup(h: string, n: string, p: string, c: string, e: string, rest: string)
    ensures (h + n + p + n) + c + e + rest == h + n + (p + (n + (c + e + rest)))
  {
    assert c + e + rest == c + (e + rest);
    assert (h + n + p + n) + c + e + rest == (h + n + p + n) + (c + (e + rest));
  }

  /** Trailers without percent signs arrive as they were sent. */
  lemma {:induction false} PlainTrailersKept(trailers: Headers, i: nat)
    requires i <= |trailers| && forall k | 0 <= k < |trailers| :: '%' !in trailers[k].1
    ensures AllReceived(trailers, i) == trailers[i..]
    decreases |trailers| - i
  {
    hide Query.DecodeFrom, EqualIgnoreCase, Received;
    if i < |trailers| {
      PlainTrailersKept(trailers, i + 1);
      PlainTrailerKept(trailers[i]);
      assert trailers[i..] == [trailers[i]] + trailers[i + 1..];
    }
  }

  lemma PlainTrailerKept(kv: (string, string))
    requires '%' !in kv.1
    ensures Received(kv) == kv
  {
    hide EqualIgnoreCase;
    Query.DecodePlain(kv.1, 0, false);
    assert kv.1[0..] == kv.1;
  }
}
