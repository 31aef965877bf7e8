/** The `Range` header: printing a list of byte ranges and parsing it back (section 14.1.2 of
    RFC 9110). A bound of -1 is an absent one. The two fixed regular expressions are written
    out as recognisers, `std::to_string` and `std::stoll` as decimal printing and reading. */
module RangeHeader {
  import opened Text

  type Range = (int, int)

  /** The values of `ssize_t`. */
  const SSIZE_MAX: int := 0x7FFF_FFFF_FFFF_FFFF

  const SSIZE_MIN: int := -0x8000_0000_0000_0000

  predicate Fits(r: Range) { SSIZE_MIN <= r.0 <= SSIZE_MAX && SSIZE_MIN <= r.1 <= SSIZE_MAX }

  // ------------------------------------------------------------- decimal numbers

  predicate IsDigit(c: char) { '0' <= c <= '9' }

  predicate AllDigits(s: string) { forall k :: 0 <= k < |s| ==> IsDigit(s[k]) }

  function Decimal(n: nat): string {
    if n < 10 then [(n + 48) as char] else Decimal(n / 10) + [(n % 10 + 48) as char]
  }

  function Signed(n: int): string { if n < 0 then "-" + Decimal(-n) else Decimal(n) }

  function Number(s: string): nat
    requires AllDigits(s)
  {
    if s == "" then 0 else 10 * Number(s[..|s| - 1]) + (s[|s| - 1] as int - 48)
  }

  lemma {:induction false} DecimalIsRead(n: nat)
    ensures Decimal(n) != "" && AllDigits(Decimal(n)) && Number(Decimal(n)) == n
  {
    if n >= 10 {
      DecimalIsRead(n / 10);
      var d := (n % 10 + 48) as char;
      assert (Decimal(n / 10) + [d])[..|Decimal(n / 10)|] == Decimal(n / 10);
    } else {
      var d := (n + 48) as char;
      assert [d][..0] == "";
    }
  }

  // ------------------------------------------------------------- printing

  function Part(n: int): string { if n == -1 then "" else Signed(n) }

  function Spec(r: Range): string { Part(r.0) + "-" + Part(r.1) }

  function Body(rs: seq<Range>): string {
    if rs == [] then "" else if |rs| == 1 then Spec(rs[0]) else Spec(rs[0]) + ", " + Body(rs[1..])
  }

  lemma {:induction false} BodyGrows(rs: seq<Range>, r: Range)
    ensures Body(rs + [r]) == (if rs == [] then "" else Body(rs) + ", ") + Spec(r)
  {
    hide Spec;
    if rs == [] {
      assert rs + [r] == [r];
    } else {
      assert (rs + [r])[1..] == rs[1..] + [r];
      BodyGrows(rs[1..], r);
      if |rs| > 1 {
        assert Spec(rs[0]) + ", " + ((Body(rs[1..]) + ", ") + Spec(r)) == ((Spec(rs[0]) + ", " + Body(rs[1..])) + ", ") + Spec(r);
      }
    }
  }

  /** `make_range_header`, without the header's name. */
  method MakeRangeHeader(ranges: seq<Range>) returns (field: string)
    ensures field == "bytes=" + Body(ranges)
  {
    hide Body;
    field := "bytes=";
    var i := 0;
    assert Body([]) == "" by { EmptyBody(); }
    while i < |ranges|
      invariant 0 <= i <= |ranges| && field == "bytes=" + Body(ranges[..i])
    {
      var r := ranges[i];
      ghost var before := Body(ranges[..i]);
      BodyGrows(ranges[..i], r);
      assert ranges[..i + 1] == ranges[..i] + [r];
      if i != 0 { field := field + ", "; }
      if r.0 != -1 { field := field + Signed(r.0); }
      field := field + "-";
      if r.1 != -1 { field := field + Signed(r.1); }
      i := i + 1;
    }
    assert ranges[..i] == ranges;
  }

  lemma EmptyBody()
    ensures Body([]) == ""
  {}

  // ------------------------------------------------------------- recognising

  /** Length of the leading digits. */
  function DigitRun(s: string): (n: nat)
    ensures n <= |s| && AllDigits(s[..n]) && (n < |s| ==> !IsDigit(s[n]))
  {
    if s != "" && IsDigit(s[0]) then 1 + DigitRun(s[1..]) else 0
  }

  /** `\d*-\d*`. */
  predicate IsSpec(x: string) {
    var j := DigitRun(x);
    j < |x| && x[j] == '-' && AllDigits(x[j + 1..])
  }

  /** `\d*-\d*(?:,\s*\d*-\d*)*`, and what may follow a comma of it. */
  predicate Listed(t: string, first: bool)
    decreases |t|
  {
    var i := Find(t, ",");
    && IsSpec(if first then t[..i] else SkipSpaces(t[..i]))
    && (i < |t| ==> Listed(t[i + 1..], false))
  }

  predicate Matches(s: string) { StartsWith(s, "bytes=") && Listed(s[6..], true) }

  // ------------------------------------------------------------- parsing

  /** What one piece yields: it does not have the form of a range, a number is out of range
      (an exception), the bounds are in the wrong order, or a range. */
  datatype Piece = NoMatch | OutOfRange | Disordered | Good(r: Range)

  predicate Ordered(r: Range) { r.0 == -1 || r.1 == -1 || r.0 <= r.1 }

  function Bound(digits: string): int
    requires AllDigits(digits)
  {
    if digits == "" then -1 else Number(digits)
  }

  function ReadPiece(piece: string): Piece {
    var x := SkipSpaces(piece);
    if !IsSpec(x) then NoMatch
    else
      var j := DigitRun(x);
      var first := Bound(x[..j]);
      var last := Bound(x[j + 1..]);
      if first > SSIZE_MAX || last > SSIZE_MAX then OutOfRange
      else if !Ordered((first, last)) then Disordered
      else Good((first, last))
  }

  /** All pieces up to the first bad one; no exception and no wrong order anywhere. */
  function ReadPieces(pieces: seq<string>): (bool, seq<Range>) {
    if pieces == [] then (true, [])
    else match ReadPiece(pieces[0])
      case NoMatch => ReadPieces(pieces[1..])
      case Good(r) => var (ok, rs) := ReadPieces(pieces[1..]); (ok, [r] + rs)
      case _ => (false, [])
  }

  function Parse(s: string): (bool, seq<Range>) {
    if Matches(s) then ReadPieces(Split(s[6..], ',')) else (false, [])
  }

  /** `parse_range_header`; the exception of `std::stoll` ends it like a wrong order. */
  method ParseRangeHeader(s: string) returns (ok: bool, ranges: seq<Range>)
    ensures (ok, ranges) == Parse(s)
  {
    hide Split, Matches, ReadPiece;
    ranges := [];
    if !Matches(s) { return false, []; }
    SixLetters(s);
    var pieces := SplitScan(s[6..], ',');
    var i := 0;
    assert pieces[0..] == pieces;
    while i < |pieces|
      invariant 0 <= i <= |pieces|
      invariant ReadPieces(pieces).0 == ReadPieces(pieces[i..]).0
      invariant ReadPieces(pieces).1 == ranges + ReadPieces(pieces[i..]).1
    {
      assert pieces[i..][1..] == pieces[i + 1..] && pieces[i..][0] == pieces[i] && pieces[i..] != [];
      assert ranges + [] == ranges;
      match ReadPiece(pieces[i]) {
        case NoMatch =>
        case OutOfRange => return false, ranges;
        case Disordered => return false, ranges;
        case Good(r) =>
          Assoc2(ranges, r, ReadPieces(pieces[i + 1..]).1);
          ranges := ranges + [r];
      }
      i := i + 1;
    }
    ok := true;
  }

  lemma SixLetters(s: string)
    requires Matches(s)
    ensures |s| >= 6
  {}

  lemma Assoc2(a: seq<Range>, r: Range, b: seq<Range>)
    ensures a + ([r] + b) == a + [r] + b
  {}

  // ------------------------------------------------------------- round trip

  predicate Plain(c: char) { IsDigit(c) || c == '-' }

  predicate Printable(r: Range) { r.0 >= -1 && r.1 >= -1 }

  lemma PartIsDigits(n: int)
    ensures forall k :: 0 <= k < |Part(n)| ==> Plain(Part(n)[k])
    ensures n >= -1 ==> AllDigits(Part(n)) && Bound(Part(n)) == n
    ensures n < -1 ==> Part(n) != "" && Part(n)[0] == '-'
  {
    if n < -1 { DecimalIsRead(-n); } else if n >= 0 { DecimalIsRead(n); }
  }

  lemma {:induction false} DigitRunAt(a: string, rest: string)
    requires AllDigits(a)
    ensures DigitRun(a + "-" + rest) == |a|
  {
    var x := a + "-" + rest;
    if a != "" {
      DigitRunAt(a[1..], rest);
      assert x[1..] == a[1..] + "-" + rest;
    }
  }

  lemma NoDigits(x: string)
    requires x != "" && x[0] == '-'
    ensures DigitRun(x) == 0
  {}

  /** A printed range is recognised exactly when neither bound is below -1, and read back. */
  lemma SpecIsRead(r: Range)
    requires Fits(r)
    ensures var x := Spec(r);
      && x != "" && (forall k :: 0 <= k < |x| ==> Plain(x[k]))
      && SkipSpaces(x) == x
      && (IsSpec(x) <==> Printable(r))
      && (Printable(r) ==> ReadPiece(x) == if Ordered(r) then Good(r) else Disordered)
  {
    hide Decimal, Number, DigitRun, Part;
    PartIsDigits(r.0);
    PartIsDigits(r.1);
    var a, b := Part(r.0), Part(r.1);
    var x := a + "-" + b;
    if r.0 >= -1 {
      DigitRunAt(a, b);
      assert x[..|a|] == a && x[|a| + 1..] == b;
    } else {
      NoDigits(x);
      assert x[1..][|a| - 1] == '-';
    }
  }

  /** One list element, with and without the blank before it. */
  lemma {:induction false} BodyParts(rs: seq<Range>, lead: string)
    requires rs != [] && (forall k :: 0 <= k < |rs| ==> Fits(rs[k])) && (lead == "" || lead == " ")
    ensures Listed(lead + Body(rs), lead == "") <==> forall k :: 0 <= k < |rs| ==> Printable(rs[k])
    ensures Split(lead + Body(rs), ',') == Texts(rs)
    decreases |rs|
  {
    hide Spec, Listed, Split, Trim, Keep, Printable, Fits, IsSpec, ReadPiece, SkipSpaces, Texts, Body;
    assert Fits(rs[0]);
    SpecIsRead(rs[0]);
    var x := Spec(rs[0]);
    LeadIsSkipped(lead, x);
    if |rs| == 1 {
      OneBody(rs);
      AbsentComma(lead + x);
      ListedLast(lead + x, lead == "");
      SplitLast(lead + x, ',');
    } else {
      MoreBody(rs);
      BodyParts(rs[1..], " ");
      var t := " " + Body(rs[1..]);
      assert lead + (x + ", " + Body(rs[1..])) == (lead + x) + "," + t;
      AbsentComma(lead + x);
      ListedCons(lead + x, t, lead == "");
      SplitCons(lead + x, ',', t);
      assert forall k :: 1 <= k < |rs| ==> rs[k] == rs[1..][k - 1];
    }
  }

  /** The printed ranges one by one. */
  function Texts(rs: seq<Range>): seq<string> {
    if rs == [] then [] else [Spec(rs[0])] + Texts(rs[1..])
  }

  lemma OneBody(rs: seq<Range>)
    requires |rs| == 1
    ensures Body(rs) == Spec(rs[0]) && Texts(rs) == [Spec(rs[0])]
  {
    assert rs[1..] == [];
  }

  lemma MoreBody(rs: seq<Range>)
    requires |rs| > 1
    ensures Body(rs) == Spec(rs[0]) + ", " + Body(rs[1..])
    ensures Texts(rs) == [Spec(rs[0])] + Texts(rs[1..])
  {}

  lemma LeadIsSkipped(lead: string, x: string)
    requires x != "" && (forall k :: 0 <= k < |x| ==> Plain(x[k])) && (lead == "" || lead == " ")
    requires SkipSpaces(x) == x
    ensures SkipSpaces(lead + x) == x && Keep(Trim(lead + x)) == [x]
    ensures lead == "" ==> lead + x == x
    ensures forall k :: 0 <= k < |lead + x| ==> (lead + x)[k] != ','
  {
    if lead == " " {
      assert (lead + x)[1..] == x;
      assert TrimLeft(lead + x) == TrimLeft(x);
    } else {
      assert lead + x == x;
    }
    assert Plain(x[0]) && Plain(x[|x| - 1]);
    TrimKeeps(x);
  }

  lemma AbsentComma(x: string)
    requires forall k :: 0 <= k < |x| ==> x[k] != ','
    ensures ',' !in x && Absent(x, ",")
  {
    AbsentChar(x, ',');
  }

  lemma ListedLast(x: string, first: bool)
    requires Absent(x, ",")
    ensures Listed(x, first) <==> IsSpec(if first then x else SkipSpaces(x))
  {
    hide IsSpec, SkipSpaces;
    assert x[..|x|] == x;
  }

  lemma ListedCons(x: string, t: string, first: bool)
    requires ',' !in x
    ensures Listed(x + "," + t, first) <==> IsSpec(if first then x else SkipSpaces(x)) && Listed(t, false)
  {
    hide IsSpec, SkipSpaces;
    FindChar(x, ',', t);
    var s := x + "," + t;
    assert s[..|x|] == x && s[|x| + 1..] == t;
  }

  lemma {:induction false} TextsAreRead(rs: seq<Range>)
    requires forall k :: 0 <= k < |rs| ==> Fits(rs[k]) && Printable(rs[k])
    ensures ReadPieces(Texts(rs)).0 <==> forall k :: 0 <= k < |rs| ==> Ordered(rs[k])
    ensures ReadPieces(Texts(rs)).0 ==> ReadPieces(Texts(rs)).1 == rs
  {
    hide Spec, ReadPiece, Ordered;
    if rs != [] {
      SpecIsRead(rs[0]);
      assert Texts(rs)[0] == Spec(rs[0]) && Texts(rs)[1..] == Texts(rs[1..]);
      TextsAreRead(rs[1..]);
      assert forall k :: 1 <= k < |rs| ==> rs[k] == rs[1..][k - 1];
      assert rs == [rs[0]] + rs[1..];
    }
  }

  /** A list that can be written as a range header: not empty, no bound below -1, and the bounds
      of a range in order when both are there. */
  predicate Writable(rs: seq<Range>) {
    rs != [] && forall k :: 0 <= k < |rs| ==> Printable(rs[k]) && Ordered(rs[k])
  }

  /** `parse_range_header` accepts the output of `make_range_header` exactly for writable lists,
      and then reads the same list back. */
  lemma RoundTrip(rs: seq<Range>)
    requires forall k :: 0 <= k < |rs| ==> Fits(rs[k])
    ensures Parse("bytes=" + Body(rs)).0 <==> Writable(rs)
    ensures Writable(rs) ==> Parse("bytes=" + Body(rs)) == (true, rs)
  {
    hide Listed, Split, ReadPieces, Spec, Ordered, Printable, Fits;
    var s := "bytes=" + Body(rs);
    assert s[..6] == "bytes=" && s[6..] == Body(rs);
    if rs == [] {
      NothingListed();
    } else {
      assert "" + Body(rs) == Body(rs);
      BodyParts(rs, "");
      if forall k :: 0 <= k < |rs| ==> Printable(rs[k]) { TextsAreRead(rs); }
    }
  }

  lemma NothingListed()
    ensures !Listed("", true)
  {}

  // ------------------------------------------------------------- what is accepted

  lemma {:induction false} SkipTrimmed(x: string)
    requires IsSpec(SkipSpaces(x))
    ensures SkipSpaces(Trim(x)) == SkipSpaces(x) && Trim(x) != ""
    decreases |x|
  {
    if IsSpace(x[0]) && IsBlank(x[0]) {
      SkipTrimmed(x[1..]);
    } else {
      SpecAtEnd(x);
      TrimKeeps(x);
    }
  }

  /** The last character of optional space and a range is a digit or the dash. */
  lemma {:induction false} SpecAtEnd(x: string)
    requires IsSpec(SkipSpaces(x))
    ensures x != "" && Plain(x[|x| - 1])
    decreases |x|
  {
    if x != "" && IsSpace(x[0]) {
      SpecAtEnd(x[1..]);
    } else {
      var j := DigitRun(x);
      if j + 1 < |x| { assert x[j + 1..][|x| - 1 - (j + 1)] == x[|x| - 1]; }
    }
  }

  lemma {:induction false} SpecStartsPlain(x: string)
    requires IsSpec(x)
    ensures SkipSpaces(x) == x
  {
    if DigitRun(x) > 0 { assert x[..DigitRun(x)][0] == x[0]; }
  }

  /** Every piece of a recognised list has the form of a range. */
  lemma {:induction false} ListedPieces(t: string, first: bool)
    requires Listed(t, first)
    ensures Split(t, ',') != []
    ensures forall k :: 0 <= k < |Split(t, ',')| ==> IsSpec(SkipSpaces(Split(t, ',')[k]))
    decreases |t|
  {
    hide IsSpec, SkipSpaces, Trim;
    var i := Find(t, ",");
    var x := t[..i];
    if first { SpecStartsPlain(x); }
    SkipTrimmed(x);
    if i < |t| { ListedPieces(t[i + 1..], false); } else { assert x == t; }
  }

  lemma {:induction false} PiecesAreWritable(pieces: seq<string>)
    requires ReadPieces(pieces).0
    requires forall k :: 0 <= k < |pieces| ==> IsSpec(SkipSpaces(pieces[k]))
    ensures var rs := ReadPieces(pieces).1;
      |rs| == |pieces| && forall k :: 0 <= k < |rs| ==> Fits(rs[k]) && Printable(rs[k]) && Ordered(rs[k])
  {
    hide IsSpec, SkipSpaces, Number, DigitRun;
    if pieces != [] { PiecesAreWritable(pieces[1..]); }
  }

  /** Whatever header is accepted, the ranges read from it are writable, so printing them gives
      a header that means the same. */
  lemma AcceptedIsWritable(s: string)
    requires Parse(s).0
    ensures Writable(Parse(s).1)
    ensures Parse("bytes=" + Body(Parse(s).1)) == Parse(s)
  {
    hide Split, IsSpec, SkipSpaces, Listed, Body, Fits, Printable, Ordered;
    ListedPieces(s[6..], true);
    PiecesAreWritable(Split(s[6..], ','));
    RoundTrip(Parse(s).1);
  }
}
