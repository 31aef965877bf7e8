/** Percent coding and the query string printer and parser (section 2.1 of RFC 3986). */
module Query {
  import opened Text

  type Params = seq<(string, string)>

  predicate IsByteString(s: string) {
    forall i | 0 <= i < |s| :: s[i] as int < 256
  }

  // ------------------------------------------------------------- hexadecimal

  /** Value of a hexadecimal digit, -1 for any other character. */
  function HexValue(c: char): (v: int)
    ensures -1 <= v < 16
  {
    if '0' <= c <= '9' then c as int - '0' as int
    else if 'A' <= c <= 'F' then c as int - 'A' as int + 10
    else if 'a' <= c <= 'f' then c as int - 'a' as int + 10
    else -1
  }

  function UpperHex(v: nat): (c: char)
    requires v < 16
    ensures HexValue(c) == v && c != 'u' && c != '&' && c != '=' && !IsBlank(c)
  {
    if v < 10 then ('0' as int + v) as char else ('A' as int + v - 10) as char
  }

  /** `from_hex_to_i`: `cnt` digits from `i` on top of `val`, -1 when one is missing. */
  function FromHex(s: string, i: nat, cnt: nat, val: nat): (r: int)
    ensures r >= 0 ==> i + cnt <= |s| || cnt == 0
    decreases cnt
  {
    if cnt == 0 then val
    else if i >= |s| || HexValue(s[i]) < 0 then -1
    else FromHex(s, i + 1, cnt - 1, val * 16 + HexValue(s[i]))
  }

  method FromHexToI(s: string, start: nat, count: nat) returns (ok: bool, val: int)
    requires count > 0
    ensures ok == (FromHex(s, start, count, 0) >= 0)
    ensures ok ==> val == FromHex(s, start, count, 0)
  {
    val := 0;
    if start >= |s| { return false, 0; }
    var i, cnt := start, count;
    while cnt > 0
      invariant val >= 0
      invariant i + cnt == start + count
      invariant FromHex(s, start, count, 0) == FromHex(s, i, cnt, val)
    {
      if i >= |s| || HexValue(s[i]) < 0 { return false, val; }
      val := val * 16 + HexValue(s[i]);
      i, cnt := i + 1, cnt - 1;
    }
    ok := true;
  }

  /** UTF-8 form of a code point below 0x10000; surrogates have none. */
  function ToUtf8(code: nat): string {
    if code < 0x80 then [code as char]
    else if code < 0x800 then [(0xC0 + code / 64) as char, (0x80 + code % 64) as char]
    else if code < 0xD800 || 0xE000 <= code < 0x10000 then
      [(0xE0 + code / 4096 % 16) as char, (0x80 + code / 64 % 64) as char, (0x80 + code % 64) as char]
    else ""
  }

  // ------------------------------------------------------------- encode and decode

  /** Characters the encoder leaves alone. */
  predicate Unreserved(c: char) {
    || 'a' <= c <= 'z' || 'A' <= c <= 'Z' || '0' <= c <= '9'
    || c in {'-', '_', '.', '!', '~', '*', '\'', '(', ')'}
  }

  function EncodeChar(c: char): string {
    if Unreserved(c) then [c]
    else ['%', UpperHex(c as int / 16 % 16), UpperHex(c as int % 16)]
  }

  function EncodeParam(v: string): string {
    if v == "" then "" else EncodeChar(v[0]) + EncodeParam(v[1..])
  }

  /** `encode_query_param`: one pass, appending to the output. */
  method EncodeQueryParam(value: string) returns (escaped: string)
    ensures escaped == EncodeParam(value)
  {
    hide EncodeParam, UpperHex;
    escaped := "";
    var i := 0;
    EncodeUnfold(value, 0);
    assert value[0..] == value;
    while i < |value|
      invariant i <= |value|
      invariant EncodeParam(value) == escaped + EncodeParam(value[i..])
    {
      EncodeUnfold(value, i);
      Assoc(escaped, EncodeChar(value[i]), EncodeParam(value[i + 1..]));
      var c := value[i];
      if Unreserved(c) {
        escaped := escaped + [c];
      } else {
        escaped := escaped + ['%', UpperHex(c as int / 16 % 16), UpperHex(c as int % 16)];
      }
      i := i + 1;
    }
    EncodeUnfold(value, i);
  }

  lemma EncodeUnfold(v: string, i: nat)
    requires i <= |v|
    ensures EncodeParam(v[i..]) == if i == |v| then "" else EncodeChar(v[i]) + EncodeParam(v[i + 1..])
  {
    if i < |v| { assert v[i..][1..] == v[i + 1..]; }
  }

  /** What one turn of `decode_url` at position `i` appends, and how far it moves: `%uXXXX`
      and `%XX` where the digits are there, the bare `%` where they are not, and `+` for a
      blank if asked. */
  function DecodeOne(s: string, i: nat, plusToSpace: bool): (r: (string, nat))
    requires i < |s|
    ensures r.1 > 0
  {
    if s[i] == '%' && i + 1 < |s| then
      if s[i + 1] == 'u' then
        var v := FromHex(s, i + 2, 4, 0);
        if v >= 0 then (ToUtf8(v), 6) else ([s[i]], 1)
      else
        var v := FromHex(s, i + 1, 2, 0);
        if v >= 0 then TwoHexDigits(s, i + 1); ([v as char], 3) else ([s[i]], 1)
    else if plusToSpace && s[i] == '+' then (" ", 1)
    else ([s[i]], 1)
  }

  function DecodeFrom(s: string, i: nat, plusToSpace: bool): string
    decreases |s| - i
  {
    if i >= |s| then ""
    else var (piece, step) := DecodeOne(s, i, plusToSpace); piece + DecodeFrom(s, i + step, plusToSpace)
  }

  function Decode(s: string, plusToSpace: bool): string { DecodeFrom(s, 0, plusToSpace) }

  lemma TwoHexDigits(s: string, i: nat)
    ensures FromHex(s, i, 2, 0) < 256
  {
    assert FromHex(s, i, 2, 0) == if i >= |s| || HexValue(s[i]) < 0 then -1 else FromHex(s, i + 1, 1, HexValue(s[i]));
    if i + 1 < |s| && HexValue(s[i]) >= 0 && HexValue(s[i + 1]) >= 0 {
      assert FromHex(s, i + 1, 1, HexValue(s[i])) == FromHex(s, i + 2, 0, HexValue(s[i]) * 16 + HexValue(s[i + 1]));
    }
  }

  /** The body of the loop of `decode_url`. */
  method DecodeTurn(s: string, start: nat, plusToSpace: bool) returns (piece: string, i: nat)
    requires start < |s|
    ensures (piece, i - start) == DecodeOne(s, start, plusToSpace)
  {
    hide FromHex, ToUtf8, HexValue;
    i := start;
    if s[i] == '%' && i + 1 < |s| {
      if s[i + 1] == 'u' {
        var ok, val := FromHexToI(s, i + 2, 4);
        if ok {
          piece := ToUtf8(val);
          i := i + 5;
        } else {
          piece := [s[i]];
        }
      } else {
        var ok, val := FromHexToI(s, i + 1, 2);
        TwoHexDigits(s, i + 1);
        if ok {
          piece := [val as char];
          i := i + 2;
        } else {
          piece := [s[i]];
        }
      }
    } else if plusToSpace && s[i] == '+' {
      piece := " ";
    } else {
      piece := [s[i]];
    }
    i := i + 1;
  }

  /** `decode_url`: the scanning loop with its jumps of 6, 3 or 1. */
  method DecodeUrl(s: string, plusToSpace: bool) returns (result: string)
    ensures result == Decode(s, plusToSpace)
  {
    hide DecodeOne;
    result := "";
    var i := 0;
    while i < |s|
      invariant Decode(s, plusToSpace) == result + DecodeFrom(s, i, plusToSpace)
      decreases |s| - i
    {
      var piece, next := DecodeTurn(s, i, plusToSpace);
      Assoc(result, piece, DecodeFrom(s, next, plusToSpace));
      result := result + piece;
      i := next;
    }
  }

  /** Decoding undoes encoding on every byte string, in both modes. */
  lemma {:induction false} DecodeEncoded(s: string, i: nat, v: string, plusToSpace: bool)
    requires IsByteString(v)
    requires i <= |s| && s[i..] == EncodeParam(v)
    ensures DecodeFrom(s, i, plusToSpace) == v
    decreases |v|
  {
    hide EncodeParam, EncodeChar, DecodeOne;
    EncodeUnfold(v, 0);
    assert v[0..] == v;
    if v != "" {
      var e, r := EncodeChar(v[0]), EncodeParam(v[1..]);
      DecodeEncodedChar(s, i, v[0], r, plusToSpace);
      assert s[i + |e|..] == s[i..][|e|..] == r;
      DecodeEncoded(s, i + |e|, v[1..], plusToSpace);
      assert v == [v[0]] + v[1..];
    }
  }

  lemma DecodeEncodedChar(s: string, i: nat, c: char, rest: string, plusToSpace: bool)
    requires c as int < 256
    requires i <= |s| && s[i..] == EncodeChar(c) + rest
    ensures i < |s| && DecodeOne(s, i, plusToSpace) == ([c], |EncodeChar(c)|)
  {
    hide UpperHex;
    var e := EncodeChar(c);
    assert forall k | 0 <= k < |e| :: s[i + k] == s[i..][k] == e[k];
    if !Unreserved(c) {
      HexPair(s, i + 1, c);
    }
  }

  lemma HexPair(s: string, i: nat, c: char)
    requires c as int < 256 && i + 1 < |s|
    requires s[i] == UpperHex(c as int / 16) && s[i + 1] == UpperHex(c as int % 16)
    ensures FromHex(s, i, 2, 0) == c as int
  {
    assert FromHex(s, i, 2, 0) == FromHex(s, i + 1, 1, c as int / 16)
        == FromHex(s, i + 2, 0, c as int / 16 * 16 + c as int % 16);
  }

  /** Text without `%` (and, where it matters, without `+`) decodes to itself. */
  lemma {:induction false} DecodePlain(s: string, i: nat, plusToSpace: bool)
    requires i <= |s| && '%' !in s && (plusToSpace ==> '+' !in s)
    ensures DecodeFrom(s, i, plusToSpace) == s[i..]
    decreases |s| - i
  {
    if i < |s| {
      DecodePlain(s, i + 1, plusToSpace);
      assert s[i..] == [s[i]] + s[i + 1..];
    }
  }

  /** Nothing the encoder writes is a delimiter or a blank. */
  lemma {:induction false} EncodedIsPlain(v: string)
    ensures var e := EncodeParam(v);
            '&' !in e && '=' !in e && forall i | 0 <= i < |e| :: !IsBlank(e[i])
  {
    if v != "" {
      EncodedIsPlain(v[1..]);
    }
  }

  // ------------------------------------------------------------- query strings

  function Field(p: (string, string)): string { p.0 + "=" + EncodeParam(p.1) }

  function QueryString(params: Params): string
    decreases |params|
  {
    if params == [] then ""
    else if |params| == 1 then Field(params[0])
    else QueryString(params[..|params| - 1]) + "&" + Field(params[|params| - 1])
  }

  /** `params_to_query_str`. */
  method ParamsToQueryStr(params: Params) returns (query: string)
    ensures query == QueryString(params)
  {
    query := "";
    for i := 0 to |params|
      invariant query == QueryString(params[..i])
    {
      assert params[..i + 1][..i] == params[..i] && params[..i + 1][i] == params[i];
      if i != 0 { query := query + "&"; }
      query := query + params[i].0;
      query := query + "=";
      var value := EncodeQueryParam(params[i].1);
      query := query + value;
    }
    assert params[..|params|] == params;
  }

  /** Key and value of a field: the first non-empty piece, and the last one after it. */
  function KeyValue(kv: string): (string, string) {
    var pieces := Split(kv, '=');
    if pieces == [] then ("", "")
    else (pieces[0], if |pieces| == 1 then "" else pieces[|pieces| - 1])
  }

  function Emplaced(kv: string): Params {
    var (key, val) := KeyValue(kv);
    if key == "" then [] else [(Decode(key, true), Decode(val, true))]
  }

  /** The fields in order, a field text met before being skipped. */
  function ParseFields(fields: seq<string>, cache: set<string>): Params
    decreases |fields|
  {
    if fields == [] then []
    else if fields[0] in cache then ParseFields(fields[1..], cache)
    else Emplaced(fields[0]) + ParseFields(fields[1..], cache + {fields[0]})
  }

  function ParseQuery(s: string): Params { ParseFields(Split(s, '&'), {}) }

  /** The inner callback of the parser on one field. */
  method ParseField(kv: string) returns (key: string, val: string)
    ensures (key, val) == KeyValue(kv)
  {
    key, val := "", "";
    var pieces := SplitScan(kv, '=');
    SplitNonEmpty(kv, '=');
    for i := 0 to |pieces|
      invariant key == if i == 0 then "" else pieces[0]
      invariant val == if i <= 1 then "" else pieces[i - 1]
    {
      if key == "" { key := pieces[i]; } else { val := pieces[i]; }
    }
  }

  /** `parse_query_text`: fields in order, a cache of the field texts seen so far. */
  method ParseQueryText(s: string) returns (params: Params)
    ensures params == ParseQuery(s)
  {
    hide KeyValue, Emplaced, Split, Decode, ParseFields, ParseQuery;
    params := [];
    var cache: set<string> := {};
    var fields := SplitScan(s, '&');
    assert fields[0..] == fields;
    for i := 0 to |fields|
      invariant ParseFields(fields, {}) == params + ParseFields(fields[i..], cache)
    {
      var kv := fields[i];
      FieldsUnfold(fields, i, cache);
      AssocParams(params, Emplaced(kv), ParseFields(fields[i + 1..], cache + {kv}));
      if kv !in cache {
        cache := cache + {kv};
        var key, val := ParseField(kv);
        EmplacedIs(kv);
        if key != "" {
          var k := DecodeUrl(key, true);
          var v := DecodeUrl(val, true);
          params := params + [(k, v)];
        }
      }
    }
    FieldsEnd(s, fields, cache);
  }

  lemma AssocParams(a: Params, b: Params, c: Params)
    ensures a + (b + c) == (a + b) + c
  {}

  lemma FieldsEnd(s: string, fields: seq<string>, cache: set<string>)
    requires fields == Split(s, '&')
    ensures ParseFields(fields[|fields|..], cache) == []
    ensures ParseQuery(s) == ParseFields(fields, {})
  {}

  lemma EmplacedIs(kv: string)
    ensures var (key, val) := KeyValue(kv);
            Emplaced(kv) == if key == "" then [] else [(Decode(key, true), Decode(val, true))]
  {}

  lemma FieldsUnfold(fields: seq<string>, i: nat, cache: set<string>)
    requires i < |fields|
    ensures ParseFields(fields[i..], cache)
         == if fields[i] in cache then ParseFields(fields[i + 1..], cache)
            else Emplaced(fields[i]) + ParseFields(fields[i + 1..], cache + {fields[i]})
  {
    hide Emplaced;
    assert fields[i..][1..] == fields[i + 1..];
  }

  // ------------------------------------------------------------- the round trip

  /** Keys are printed as they are, so they must survive the parser unescaped: no delimiter,
      no escape character, no blank at either end. */
  predicate PlainKey(k: string) {
    k != "" && NoOuterBlanks(k) && '&' !in k && '=' !in k && '%' !in k && '+' !in k
  }

  predicate Printable(params: Params) {
    forall p | p in params :: PlainKey(p.0) && IsByteString(p.1)
  }

  /** First occurrences only. */
  function Distinct(params: Params, seen: set<(string, string)>): Params
    decreases |params|
  {
    if params == [] then []
    else if params[0] in seen then Distinct(params[1..], seen)
    else [params[0]] + Distinct(params[1..], seen + {params[0]})
  }

  function Fields(params: Params): seq<string> {
    seq(|params|, i requires 0 <= i < |params| => Field(params[i]))
  }

  lemma {:induction false} FieldParts(p: (string, string))
    requires PlainKey(p.0)
    ensures Split(Field(p), '=') == [p.0] + Keep(EncodeParam(p.1))
    ensures '&' !in Field(p) && NoOuterBlanks(Field(p))
  {
    hide EncodeParam;
    var e := EncodeParam(p.1);
    EncodedIsPlain(p.1);
    SplitCons(p.0, '=', e);
    assert Field(p) == p.0 + ['='] + e;
    TrimKeeps(p.0);
    TrimKeeps(e);
    SplitLast(e, '=');
  }

  lemma {:induction false} EmplacedField(p: (string, string))
    requires PlainKey(p.0) && IsByteString(p.1)
    ensures Emplaced(Field(p)) == [p]
  {
    hide EncodeParam, Split, DecodeFrom;
    FieldParts(p);
    DecodePlain(p.0, 0, true);
    DecodeEncoded(EncodeParam(p.1), 0, p.1, true);
    assert p.0[0..] == p.0 && EncodeParam(p.1)[0..] == EncodeParam(p.1);
  }

  /** Different pairs print differently, so skipping repeated texts skips repeated pairs. */
  lemma {:induction false} FieldInjective(p: (string, string), q: (string, string))
    requires PlainKey(p.0) && IsByteString(p.1) && PlainKey(q.0) && IsByteString(q.1)
    requires Field(p) == Field(q)
    ensures p == q
  {
    hide Emplaced, Field;
    EmplacedField(p);
    EmplacedField(q);
    assert [p][0] == [q][0];
  }

  lemma {:induction false} SplitQuery(params: Params)
    requires Printable(params)
    ensures Split(QueryString(params), '&') == Fields(params)
    decreases |params|
  {
    hide Field;
    if |params| == 1 {
      FieldParts(params[0]);
      SplitLast(Field(params[0]), '&');
      TrimKeeps(Field(params[0]));
      FieldNotEmpty(params[0]);
    } else if |params| > 1 {
      var init, last := params[..|params| - 1], params[|params| - 1];
      SplitQuery(init);
      FieldParts(last);
      TrimKeeps(Field(last));
      FieldNotEmpty(last);
      SplitSnoc(QueryString(init), '&', Field(last));
      assert QueryString(params) == QueryString(init) + ['&'] + Field(last);
      assert Fields(params) == Fields(init) + [Field(last)];
    }
  }

  lemma FieldNotEmpty(p: (string, string))
    ensures Field(p) != ""
  {}

  /** A last piece without delimiter. */
  lemma {:induction false} SplitSnoc(a: string, d: char, last: string)
    requires d !in last
    ensures Split(a + [d] + last, d) == Split(a, d) + Keep(Trim(last))
    decreases |a|
  {
    hide Split, Trim, Keep, Find;
    if d !in a {
      SplitCons(a, d, last);
      SplitLast(a, d);
      SplitLast(last, d);
    } else {
      var i := FirstChar(a, d);
      var h, t := a[..i], a[i + 1..];
      SplitSnoc(t, d, last);
      SplitCons(h, d, t);
      SplitCons(h, d, t + [d] + last);
      assert a == h + [d] + t;
      assert a + [d] + last == h + [d] + (t + [d] + last);
      assert Keep(Trim(h)) + (Split(t, d) + Keep(Trim(last))) == (Keep(Trim(h)) + Split(t, d)) + Keep(Trim(last));
    }
  }

  lemma FirstChar(a: string, d: char) returns (i: nat)
    requires d in a
    ensures i < |a| && a[i] == d && d !in a[..i]
  {
    i := 0;
    while a[i] != d
      invariant i < |a| && d in a[i..] && d !in a[..i]
      decreases |a| - i
    {
      i := i + 1;
    }
  }

  lemma {:induction false} ParseDistinct(params: Params, i: nat, cache: set<string>, seen: set<(string, string)>)
    requires Printable(params) && i <= |params|
    requires cache == set p | p in seen :: Field(p)
    requires forall p | p in seen :: PlainKey(p.0) && IsByteString(p.1)
    ensures ParseFields(Fields(params)[i..], cache) == Distinct(params[i..], seen)
    decreases |params| - i
  {
    hide Field, Emplaced;
    if i < |params| {
      var p := params[i];
      FieldsUnfold(Fields(params), i, cache);
      assert params[i..][0] == p && params[i..][1..] == params[i + 1..];
      assert Fields(params)[i] == Field(p);
      if Field(p) in cache {
        var q :| q in seen && Field(q) == Field(p);
        FieldInjective(p, q);
        ParseDistinct(params, i + 1, cache, seen);
      } else {
        assert p !in seen;
        EmplacedField(p);
        ParseDistinct(params, i + 1, cache + {Field(p)}, seen + {p});
      }
    }
  }

  /** Parsing a printed query gives back the pairs in order, repeated pairs once. */
  lemma {:induction false} QueryRoundTrip(params: Params)
    requires Printable(params)
    ensures ParseQuery(QueryString(params)) == Distinct(params, {})
  {
    SplitQuery(params);
    ParseDistinct(params, 0, {}, {});
    assert Fields(params)[0..] == Fields(params) && params[0..] == params;
  }

  predicate NoRepeats(params: Params) {
    forall i, j | 0 <= i < j < |params| :: params[i] != params[j]
  }

  /** `parse_query_text(params_to_query_str(p)) == p` exactly when `p` repeats no pair. */
  lemma {:induction false} QueryIdentity(params: Params)
    requires Printable(params)
    ensures ParseQuery(QueryString(params)) == params <==> NoRepeats(params)
  {
    QueryRoundTrip(params);
    DistinctKeeps(params, {});
  }

  lemma {:induction false} DistinctKeeps(params: Params, seen: set<(string, string)>)
    ensures |Distinct(params, seen)| <= |params|
    ensures Distinct(params, seen) == params <==> NoRepeats(params) && forall p | p in params :: p !in seen
    decreases |params|
  {
    if params != [] {
      var h, t := params[0], params[1..];
      assert params == [h] + t;
      NoRepeatsCons(h, t);
      if h in seen {
        DistinctKeeps(t, seen);
      } else {
        DistinctKeeps(t, seen + {h});
        assert Distinct(params, seen)[1..] == Distinct(t, seen + {h});
        assert (forall p | p in t :: p !in seen + {h}) <==> h !in t && forall p | p in t :: p !in seen;
      }
    }
  }

  lemma NoRepeatsCons(h: (string, string), t: Params)
    ensures NoRepeats([h] + t) <==> h !in t && NoRepeats(t)
  {
    var s := [h] + t;
    assert forall i | 0 <= i < |t| :: t[i] == s[i + 1];
    if NoRepeats(s) {
      assert forall k | 0 < k < |s| :: s[k] != s[0] && s[k] == t[k - 1];
    }
    if h !in t && NoRepeats(t) {
      assert forall i, j | 0 <= i < j < |s| :: s[j] == t[j - 1] && (i > 0 ==> s[i] == t[i - 1]);
    }
  }
}
