/** What the decoder makes of any text: escapes of one byte and of one UTF-16 unit, bare percent
    signs, and plus signs; and form-encoded fields, which write a blank as a plus sign. */
module QueryForms {
  import opened Query
  import opened Text

  // ------------------------------------------------------------- any text

  /** A piece of a text: a character other than `%`, `%XX`, `%uXXXX`, or a `%` that starts no
      escape. */
  datatype Token = Plain(c: char) | Byte(h: char, l: char) | Unit(digits: string) | Percent

  predicate IsHex(c: char) { HexValue(c) >= 0 }

  predicate Fits(t: Token) {
    match t
    case Plain(c) => c != '%'
    case Byte(h, l) => IsHex(h) && IsHex(l)
    case Unit(d) => |d| == 4 && IsHex(d[0]) && IsHex(d[1]) && IsHex(d[2]) && IsHex(d[3])
    case Percent => true
  }

  function Written(t: Token): string {
    match t
    case Plain(c) => [c]
    case Byte(h, l) => ['%', h, l]
    case Unit(d) => "%u" + d
    case Percent => "%"
  }

  function Print(ts: seq<Token>): string { if ts == [] then "" else Written(ts[0]) + Print(ts[1..]) }

  /** What follows a `%` makes it an escape. */
  predicate Escapes(s: string) {
    s != "" &&
    if s[0] == 'u' then |s| >= 5 && IsHex(s[1]) && IsHex(s[2]) && IsHex(s[3]) && IsHex(s[4])
    else |s| >= 2 && IsHex(s[0]) && IsHex(s[1])
  }

  predicate WellFormed(ts: seq<Token>) {
    ts == [] || (Fits(ts[0]) && (ts[0].Percent? ==> !Escapes(Print(ts[1..]))) && WellFormed(ts[1..]))
  }

  function Meaning(t: Token, plusToSpace: bool): string
    requires Fits(t)
  {
    match t
    case Plain(c) => if plusToSpace && c == '+' then " " else [c]
    case Byte(h, l) => [(16 * HexValue(h) + HexValue(l)) as char]
    case Unit(d) => ToUtf8(((HexValue(d[0]) * 16 + HexValue(d[1])) * 16 + HexValue(d[2])) * 16 + HexValue(d[3]))
    case Percent => "%"
  }

  function Meanings(ts: seq<Token>, plusToSpace: bool): string
    requires WellFormed(ts)
  {
    if ts == [] then "" else Meaning(ts[0], plusToSpace) + Meanings(ts[1..], plusToSpace)
  }

  lemma TwoDigits(s: string, i: nat)
    ensures FromHex(s, i, 2, 0) == if i + 1 < |s| && IsHex(s[i]) && IsHex(s[i + 1])
                                   then 16 * HexValue(s[i]) + HexValue(s[i + 1]) else -1
  {
    if i < |s| && IsHex(s[i]) {
      var a := HexValue(s[i]);
      assert FromHex(s, i, 2, 0) == FromHex(s, i + 1, 1, a);
      if i + 1 < |s| && IsHex(s[i + 1]) {
        assert FromHex(s, i + 1, 1, a) == FromHex(s, i + 2, 0, a * 16 + HexValue(s[i + 1]));
      }
    }
  }

  predicate HexAt(s: string, k: nat) { k < |s| && IsHex(s[k]) }

  lemma {:induction false} AnyDigits(s: string, i: nat, cnt: nat, val: nat)
    ensures FromHex(s, i, cnt, val) >= 0 <==> forall k :: i <= k < i + cnt ==> HexAt(s, k)
    decreases cnt
  {
    hide HexValue;
    if cnt > 0 {
      assert (forall k :: i <= k < i + cnt ==> HexAt(s, k))
        <==> HexAt(s, i) && forall k :: i + 1 <= k < i + 1 + (cnt - 1) ==> HexAt(s, k);
      if HexAt(s, i) { AnyDigits(s, i + 1, cnt - 1, val * 16 + HexValue(s[i])); }
    }
  }

  lemma FourDigits(s: string, i: nat)
    requires i + 4 <= |s| && forall k :: i <= k < i + 4 ==> IsHex(s[k])
    ensures FromHex(s, i, 4, 0)
         == ((HexValue(s[i]) * 16 + HexValue(s[i + 1])) * 16 + HexValue(s[i + 2])) * 16 + HexValue(s[i + 3])
  {
    var a := HexValue(s[i]);
    var b := a * 16 + HexValue(s[i + 1]);
    var c := b * 16 + HexValue(s[i + 2]);
    assert FromHex(s, i, 4, 0) == FromHex(s, i + 1, 3, a) == FromHex(s, i + 2, 2, b) == FromHex(s, i + 3, 1, c)
        == FromHex(s, i + 4, 0, c * 16 + HexValue(s[i + 3]));
  }

  lemma OneToken(s: string, i: nat, t: Token, rest: string, plusToSpace: bool)
    requires Fits(t) && (t.Percent? ==> !Escapes(rest))
    requires i <= |s| && s[i..] == Written(t) + rest
    ensures i < |s| && DecodeOne(s, i, plusToSpace) == (Meaning(t, plusToSpace), |Written(t)|)
  {
    hide FromHex, ToUtf8, HexValue, Escapes, DecodeOne;
    match t {
      case Plain(c) => PlainToken(s, i, c, rest, plusToSpace);
      case Byte(h, l) => ByteToken(s, i, h, l, rest, plusToSpace);
      case Unit(d) => UnitToken(s, i, d, rest, plusToSpace);
      case Percent => PercentToken(s, i, rest, plusToSpace);
    }
  }

  lemma PlainToken(s: string, i: nat, c: char, rest: string, plusToSpace: bool)
    requires c != '%' && i <= |s| && s[i..] == [c] + rest
    ensures i < |s| && DecodeOne(s, i, plusToSpace) == (Meaning(Plain(c), plusToSpace), 1)
  {
    assert s[i] == s[i..][0];
  }

  lemma ByteToken(s: string, i: nat, h: char, l: char, rest: string, plusToSpace: bool)
    requires IsHex(h) && IsHex(l) && i <= |s| && s[i..] == ['%', h, l] + rest
    ensures i < |s| && DecodeOne(s, i, plusToSpace) == (Meaning(Byte(h, l), plusToSpace), 3)
  {
    hide FromHex, ToUtf8, HexValue;
    assert s[i] == s[i..][0] && s[i + 1] == s[i..][1] && s[i + 2] == s[i..][2];
    TwoDigits(s, i + 1);
    HexIsNoU(h);
  }

  lemma UnitToken(s: string, i: nat, d: string, rest: string, plusToSpace: bool)
    requires Fits(Unit(d)) && i <= |s| && s[i..] == "%u" + d + rest
    ensures i < |s| && DecodeOne(s, i, plusToSpace) == (Meaning(Unit(d), plusToSpace), 6)
  {
    hide FromHex, ToUtf8, HexValue;
    var w := s[i..];
    assert w[0] == '%' && w[1] == 'u' && w[2] == d[0] && w[3] == d[1] && w[4] == d[2] && w[5] == d[3];
    assert s[i] == w[0] && s[i + 1] == w[1] && s[i + 2] == w[2] && s[i + 3] == w[3] && s[i + 4] == w[4] && s[i + 5] == w[5];
    forall k | i + 2 <= k < i + 6 ensures HexAt(s, k) { assert k in {i + 2, i + 3, i + 4, i + 5}; }
    FourDigits(s, i + 2);
    AnyDigits(s, i + 2, 4, 0);
  }

  lemma PercentToken(s: string, i: nat, rest: string, plusToSpace: bool)
    requires !Escapes(rest) && i <= |s| && s[i..] == "%" + rest
    ensures i < |s| && DecodeOne(s, i, plusToSpace) == ("%", 1)
  {
    hide FromHex, ToUtf8, HexValue;
    assert s[i] == s[i..][0] && s[i + 1..] == rest;
    assert forall k :: i + 1 <= k < |s| ==> s[k] == rest[k - i - 1];
    if rest != "" && rest[0] == 'u' {
      AnyDigits(s, i + 2, 4, 0);
      assert (forall k :: i + 2 <= k < i + 2 + 4 ==> HexAt(s, k)) ==>
        HexAt(s, i + 2) && HexAt(s, i + 3) && HexAt(s, i + 4) && HexAt(s, i + 5);
    } else {
      TwoDigits(s, i + 1);
    }
  }

  lemma HexIsNoU(h: char)
    requires IsHex(h)
    ensures h != 'u'
  {}

  /** What the decoder makes of a text is what its pieces mean. */
  lemma {:induction false} TokensAreDecoded(s: string, i: nat, ts: seq<Token>, plusToSpace: bool)
    requires WellFormed(ts) && i <= |s| && s[i..] == Print(ts)
    ensures DecodeFrom(s, i, plusToSpace) == Meanings(ts, plusToSpace)
    decreases |ts|
  {
    hide DecodeOne, Meaning, Written, Escapes;
    if ts != [] {
      OneToken(s, i, ts[0], Print(ts[1..]), plusToSpace);
      var w := Written(ts[0]);
      assert s[i + |w|..] == s[i..][|w|..] == Print(ts[1..]);
      TokensAreDecoded(s, i + |w|, ts[1..], plusToSpace);
    }
  }

  /** And every text has such pieces. */
  lemma {:induction false} EveryTextIsTokens(s: string) returns (ts: seq<Token>)
    ensures WellFormed(ts) && Print(ts) == s
    decreases |s|
  {
    hide HexValue;
    ts := [];
    if s != "" {
      var t := if s[0] != '%' then Plain(s[0]) else if !Escapes(s[1..]) then Percent
               else if s[1] == 'u' then Unit(s[2..6]) else Byte(s[1], s[2]);
      FirstToken(s, t);
      var more := EveryTextIsTokens(s[|Written(t)|..]);
      ts := [t] + more;
      assert ts[1..] == more;
    }
  }

  lemma FirstToken(s: string, t: Token)
    requires s != "" && t == if s[0] != '%' then Plain(s[0]) else if !Escapes(s[1..]) then Percent
                             else if s[1] == 'u' then Unit(s[2..6]) else Byte(s[1], s[2])
    ensures Fits(t) && 0 < |Written(t)| <= |s| && s == Written(t) + s[|Written(t)|..]
    ensures t.Percent? ==> s[|Written(t)|..] == s[1..]
  {
    hide HexValue;
    assert s == [s[0]] + s[1..];
    if t.Unit? {
      var d := s[2..6];
      assert d[0] == s[1..][1] && d[1] == s[1..][2] && d[2] == s[1..][3] && d[3] == s[1..][4];
    }
  }

  // ------------------------------------------------------------- UTF-8

  /** A strict reader of one UTF-8 form of up to three bytes (section 3 of RFC 3629): -1 for
      anything that is not the shortest form of a code point that is no surrogate. */
  function ReadUtf8(s: string): int {
    if |s| == 1 && s[0] as int < 0x80 then s[0] as int
    else if |s| == 2 && 0xC2 <= s[0] as int < 0xE0 && Continues(s[1]) then
      (s[0] as int - 0xC0) * 64 + (s[1] as int - 0x80)
    else if |s| == 3 && 0xE0 <= s[0] as int < 0xF0 && Continues(s[1]) && Continues(s[2]) then
      var code := ((s[0] as int - 0xE0) * 64 + (s[1] as int - 0x80)) * 64 + (s[2] as int - 0x80);
      if code < 0x800 || 0xD800 <= code < 0xE000 then -1 else code
    else -1
  }

  predicate Continues(c: char) { 0x80 <= c as int < 0xC0 }

  /** `to_utf8` writes the shortest form of every unit that is not a surrogate, and nothing for a
      surrogate. */
  lemma Utf8IsRead(code: nat)
    requires code < 0x10000
    ensures if 0xD800 <= code < 0xE000 then ToUtf8(code) == "" else ReadUtf8(ToUtf8(code)) == code
  {
    if 0x800 <= code && !(0xD800 <= code < 0xE000) {
      var a, b, c := code / 4096, code / 64 % 64, code % 64;
      assert code == (a * 64 + b) * 64 + c;
      assert a < 16;
    }
  }

  // ------------------------------------------------------------- what the encoder leaves alone

  const MARKS: string := "-_.!~*'()"

  predicate LetterDigitOrMark(c: char) {
    'a' <= c <= 'z' || 'A' <= c <= 'Z' || '0' <= c <= '9' || c in MARKS
  }

  lemma EncodedChar(c: char)
    ensures var e := EncodeChar(c);
      if LetterDigitOrMark(c) then e == [c] else |e| == 3 && e[0] == '%' && IsUpperHex(e[1]) && IsUpperHex(e[2])
  {
    assert c in MARKS <==> c in {'-', '_', '.', '!', '~', '*', '\'', '(', ')'};
  }

  /** A value is printed as it is exactly if it holds nothing but letters, digits and the marks of
      `encodeURIComponent`. */
  lemma {:induction false} EncodedAsItIs(v: string)
    ensures |EncodeParam(v)| >= |v|
    ensures EncodeParam(v) == v <==> forall i :: 0 <= i < |v| ==> LetterDigitOrMark(v[i])
  {
    hide EncodeChar, LetterDigitOrMark;
    if v != "" {
      EncodedAsItIs(v[1..]);
      EncodedChar(v[0]);
      var first, more := EncodeChar(v[0]), EncodeParam(v[1..]);
      assert v == [v[0]] + v[1..];
      assert forall i :: 0 < i < |v| ==> v[i] == v[1..][i - 1];
      if first == [v[0]] {
        assert more == EncodeParam(v)[1..];
      } else {
        assert |EncodeParam(v)| > |v|;
      }
    }
  }

  predicate EscapeAt(e: string, i: nat) {
    i + 2 < |e| && e[i] == '%' && IsUpperHex(e[i + 1]) && IsUpperHex(e[i + 2])
  }

  /** Every other byte gets an escape with two upper-case digits. */
  lemma {:induction false} EscapesAreUpper(v: string, i: nat)
    requires i < |EncodeParam(v)|
    ensures LetterDigitOrMark(EncodeParam(v)[i]) || EscapeAt(EncodeParam(v), i)
    decreases |v|
  {
    hide EncodeChar;
    var first, more := EncodeChar(v[0]), EncodeParam(v[1..]);
    EncodedChar(v[0]);
    if i >= |first| { EscapesAreUpper(v[1..], i - |first|); }
  }

  predicate IsUpperHex(c: char) { '0' <= c <= '9' || 'A' <= c <= 'F' }

  // ------------------------------------------------------------- form fields

  /** `application/x-www-form-urlencoded`: a blank is a plus sign. */
  function EncodeForm(v: string): string {
    if v == "" then "" else (if v[0] == ' ' then "+" else EncodeChar(v[0])) + EncodeForm(v[1..])
  }

  lemma {:induction false} FormIsDecoded(s: string, i: nat, v: string)
    requires IsByteString(v) && i <= |s| && s[i..] == EncodeForm(v)
    ensures DecodeFrom(s, i, true) == v
    decreases |v|
  {
    hide EncodeChar, DecodeOne;
    if v != "" {
      var e := if v[0] == ' ' then "+" else EncodeChar(v[0]);
      var rest := EncodeForm(v[1..]);
      if v[0] == ' ' {
        assert s[i] == s[i..][0];
        OneToken(s, i, Plain('+'), rest, true);
      } else {
        DecodeEncodedChar(s, i, v[0], rest, true);
      }
      assert s[i + |e|..] == s[i..][|e|..] == rest;
      FormIsDecoded(s, i + |e|, v[1..]);
      assert v == [v[0]] + v[1..];
    }
  }

  lemma {:induction false} FormIsPlain(v: string)
    ensures var e := EncodeForm(v);
      && '&' !in e && '=' !in e && (forall i | 0 <= i < |e| :: !IsBlank(e[i])) && (v != "" ==> e != "")
  {
    if v != "" { FormIsPlain(v[1..]); }
  }

  lemma FormFieldSplits(key: string, val: string)
    ensures var field := EncodeForm(key) + "=" + EncodeForm(val);
      && Split(field, '&') == [field]
      && Split(field, '=') == Keep(EncodeForm(key)) + Keep(EncodeForm(val))
  {
    var k, v := EncodeForm(key), EncodeForm(val);
    var field := k + "=" + v;
    FormIsPlain(key);
    FormIsPlain(val);
    hide EncodeForm, Find, Trim, Split;
    assert field == k + ['='] + v;
    SplitCons(k, '=', v);
    SplitLast(v, '=');
    TrimKeeps(k);
    TrimKeeps(v);
    assert '&' !in field;
    SplitLast(field, '&');
    assert NoOuterBlanks(field);
    TrimKeeps(field);
  }

  /** A field of a submitted form is read back, whatever bytes its key and its value hold. */
  lemma FormFieldIsRead(key: string, val: string)
    requires key != "" && IsByteString(key) && IsByteString(val)
    ensures ParseQuery(EncodeForm(key) + "=" + EncodeForm(val)) == [(key, val)]
  {
    var k, v := EncodeForm(key), EncodeForm(val);
    FormFieldSplits(key, val);
    FormIsPlain(key);
    FormIsDecoded(k, 0, key);
    FormIsDecoded(v, 0, val);
    assert k[0..] == k && v[0..] == v;
    hide EncodeForm, DecodeFrom, Split;
    OneField(k + "=" + v);
  }

  lemma OneField(field: string)
    requires Split(field, '&') == [field]
    ensures ParseQuery(field) == Emplaced(field)
  {
    hide Split, Emplaced;
    assert [field][1..] == [];
    assert ParseFields([field], {}) == Emplaced(field) + ParseFields([], {} + {field});
    assert Emplaced(field) + [] == Emplaced(field);
  }

  /** A field with several `=`: the first non-empty piece is the key, and a later non-empty piece
      replaces the value. */
  lemma LaterPieceCounts(kv: string, last: string)
    requires '=' !in last && Split(kv, '=') != []
    ensures KeyValue(kv + "=" + last)
         == (KeyValue(kv).0, if Trim(last) == "" then KeyValue(kv).1 else Trim(last))
  {
    hide Split, Trim;
    assert kv + "=" + last == kv + ['='] + last;
    SplitSnoc(kv, '=', last);
  }
}
