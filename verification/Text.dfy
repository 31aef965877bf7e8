/** Byte strings and the two searches the C++ sources lean on: first occurrence of a
    pattern (`std::string::find`) and the blank-trimming splitter of the HTTP engine. */
module Text {

  const CRLF: string := "\r\n"
  const CR: char := '\r'
  const LF: char := '\n'
  const NUL: char := '\0'

  /** Longest header line a reader accepts. */
  const HEADER_MAX_LENGTH: nat := 8192

  /** White space of the C library and of the regular expressions. */
  predicate IsSpace(c: char) { c == ' ' || 9 <= c as int <= 13 }

  function SkipSpaces(s: string): string {
    if s != "" && IsSpace(s[0]) then SkipSpaces(s[1..]) else s
  }

  /** `p` stands in `s` at position `i`. */
  predicate OccursAt(s: string, p: string, i: nat) {
    i + |p| <= |s| && s[i..i + |p|] == p
  }

  lemma OccursPointwise(s: string, p: string, i: nat)
    ensures OccursAt(s, p, i) <==> i + |p| <= |s| && forall k :: 0 <= k < |p| ==> s[i..i + |p|][k] == p[k]
  {}

  predicate StartsWith(s: string, p: string) {
    |p| <= |s| && s[..|p|] == p
  }

  lemma Assoc(a: string, b: string, c: string)
    ensures a + (b + c) == (a + b) + c
  {}

  /** First occurrence of `p` at or after `from`; `|s|` plays the role of `npos`. */
  function Find(s: string, p: string, from: nat := 0): (r: nat)
    requires p != ""
    requires from <= |s|
    ensures from <= r <= |s|
    ensures r < |s| ==> OccursAt(s, p, r)
    ensures forall j | from <= j < r :: !OccursAt(s, p, j)
    decreases |s| - from
  {
    if from == |s| then from
    else if OccursAt(s, p, from) then from
    else Find(s, p, from + 1)
  }

  predicate Absent(s: string, p: string)
    requires p != ""
  {
    Find(s, p) == |s|
  }

  /** A pattern whose first character does not recur in it cannot start inside `a` and
      end inside the copy that follows, so the copy right after `a` is the first one. */
  lemma {:induction false} FindAfterAbsent(a: string, p: string, rest: string)
    requires p != "" && p[0] !in p[1..]
    requires Absent(a, p)
    ensures Find(a + p + rest, p) == |a|
  {
    var t := a + p + rest;
    assert OccursAt(t, p, |a|);
    forall j | 0 <= j < |a| ensures !OccursAt(t, p, j) {
      if j + |p| <= |a| {
        assert t[j..j + |p|] == a[j..j + |p|];
        assert !OccursAt(a, p, j);
      } else {
        var k := |a| - j;
        assert p[1..][k - 1] == p[k];
        assert t[j + k] == p[0];
      }
    }
  }

  /** What is absent from `s` is absent from each of its slices. */
  lemma {:induction false} AbsentSlice(s: string, p: string, i: nat, j: nat)
    requires p != "" && i <= j <= |s| && Absent(s, p)
    ensures Absent(s[i..j], p)
  {
    forall k: nat ensures OccursAt(s[i..j], p, k) ==> OccursAt(s, p, i + k) {
      OccursInSlice(s, p, i, j, k);
    }
  }

  lemma OccursInSlice(s: string, p: string, i: nat, j: nat, k: nat)
    requires i <= j <= |s|
    ensures OccursAt(s[i..j], p, k) ==> OccursAt(s, p, i + k)
  {
    if k + |p| <= j - i {
      var a, b := s[i..j][k..k + |p|], s[i + k..i + k + |p|];
      assert |a| == |b| && forall x :: 0 <= x < |a| ==> a[x] == b[x];
    }
  }

  /** A prefix without the first character of the pattern adds no occurrence. */
  lemma {:induction false} AbsentAfterPrefix(h: string, s: string, p: string)
    requires p != "" && p[0] !in h && Absent(s, p)
    ensures Absent(h + s, p)
  {
    var t := h + s;
    forall i: nat | i < |t| ensures !OccursAt(t, p, i) {
      if i < |h| {
        assert t[i] == h[i];
        if i + |p| <= |t| { assert t[i..i + |p|][0] == t[i]; }
      } else {
        assert !OccursAt(s, p, i - |h|);
        if i + |p| <= |t| { assert t[i..i + |p|] == s[i - |h|..i - |h| + |p|]; }
      }
    }
  }

  /** A search in the part of a text that has arrived finds the first occurrence once all
      of it is there, and nothing before that. */
  lemma {:induction false} FindArrived(held: string, rest: string, p: string)
    requires p != ""
    ensures var at := Find(held + rest, p); Find(held, p) == if at + |p| <= |held| then at else |held|
  {
    var at, r := Find(held + rest, p), Find(held, p);
    forall j: nat | j + |p| <= |held| ensures OccursAt(held, p, j) <==> OccursAt(held + rest, p, j) {
      assert (held + rest)[j..j + |p|] == held[j..j + |p|];
    }
    if r < |held| { assert OccursAt(held + rest, p, r); }
    if at + |p| <= |held| { assert OccursAt(held, p, at); }
  }

  lemma {:induction false} AbsentChar(s: string, c: char)
    ensures Absent(s, [c]) <==> c !in s
  {
    if c in s {
      var i :| 0 <= i < |s| && s[i] == c;
      assert OccursAt(s, [c], i);
    }
    var r := Find(s, [c]);
    if r < |s| {
      assert s[r..r + 1][0] == c;
    }
  }

  /** The first `c` of `a + [c] + rest` is the one after a `c`-free `a`. */
  lemma {:induction false} FindChar(a: string, c: char, rest: string)
    requires c !in a
    ensures Find(a + [c] + rest, [c]) == |a|
  {
    AbsentChar(a, c);
    FindAfterAbsent(a, [c], rest);
  }

  // ---------------------------------------------------------------- trim and split

  predicate IsBlank(c: char) { c == ' ' || c == '\t' }

  function TrimLeft(s: string): string {
    if s != "" && IsBlank(s[0]) then TrimLeft(s[1..]) else s
  }

  function TrimRight(s: string): string {
    if s != "" && IsBlank(s[|s| - 1]) then TrimRight(s[..|s| - 1]) else s
  }

  function Trim(s: string): string { TrimRight(TrimLeft(s)) }

  predicate NoOuterBlanks(s: string) {
    s != "" ==> !IsBlank(s[0]) && !IsBlank(s[|s| - 1])
  }

  function Keep(t: string): seq<string> { if t == "" then [] else [t] }

  /** The non-empty trimmed pieces of `s` between delimiters, in order. */
  function Split(s: string, d: char): seq<string>
    decreases |s|
  {
    var i := Find(s, [d]);
    if i == |s| then Keep(Trim(s)) else Keep(Trim(s[..i])) + Split(s[i + 1..], d)
  }

  lemma {:induction false} SplitCons(a: string, d: char, rest: string)
    requires d !in a
    ensures Split(a + [d] + rest, d) == Keep(Trim(a)) + Split(rest, d)
  {
    FindChar(a, d, rest);
    var s := a + [d] + rest;
    assert s[..|a|] == a && s[|a| + 1..] == rest;
  }

  lemma {:induction false} SplitLast(a: string, d: char)
    requires d !in a
    ensures Split(a, d) == Keep(Trim(a))
  {
    AbsentChar(a, d);
  }

  /** `trim` narrows a range inside the whole text: the left bound runs up to the end of
      the text, the right bound down to zero. */
  method TrimRange(s: string, left: nat, right: nat) returns (l: nat, r: nat)
    requires left <= right <= |s|
    requires right < |s| ==> !IsBlank(s[right])
    requires left > 0 ==> !IsBlank(s[left - 1])
    ensures left <= l <= right && left <= r <= right
    ensures if Trim(s[left..right]) == "" then r <= l else l < r && s[l..r] == Trim(s[left..right])
  {
    hide TrimLeft, TrimRight;
    l, r := left, right;
    LeftStep(s, left, right);
    while l < |s| && IsBlank(s[l])
      invariant left <= l <= right
      invariant TrimLeft(s[left..right]) == TrimLeft(s[l..right])
    {
      LeftStep(s, l, right);
      l := l + 1;
    }
    LeftStep(s, l, right);
    assert TrimLeft(s[left..right]) == s[l..right];
    while r > 0 && IsBlank(s[r - 1])
      invariant left <= r <= right
      invariant l <= r ==> TrimRight(s[l..right]) == TrimRight(s[l..r])
      invariant r < l ==> TrimRight(s[l..right]) == ""
    {
      if l <= r { RightStep(s, l, r); }
      r := r - 1;
    }
    if l <= r { RightStep(s, l, r); }
  }

  lemma LeftStep(s: string, l: nat, right: nat)
    requires l <= right <= |s|
    ensures TrimLeft(s[l..right]) == if l < right && IsBlank(s[l]) then TrimLeft(s[l + 1..right]) else s[l..right]
  {
    if l < right { assert s[l..right][0] == s[l] && s[l..right][1..] == s[l + 1..right]; }
  }

  lemma RightStep(s: string, l: nat, r: nat)
    requires l <= r <= |s|
    ensures TrimRight(s[l..r]) ==
      if l == r then "" else if IsBlank(s[r - 1]) then TrimRight(s[l..r - 1]) else s[l..r]
  {
    if l < r { assert s[l..r][r - l - 1] == s[r - 1] && s[l..r][..r - l - 1] == s[l..r - 1]; }
  }

  /** The callback of the splitter: called with the trimmed range unless it is empty. */
  method TrimmedPiece(s: string, beg: nat, i: nat) returns (piece: seq<string>)
    requires beg <= i <= |s|
    requires i < |s| ==> !IsBlank(s[i])
    requires beg > 0 ==> !IsBlank(s[beg - 1])
    ensures piece == Keep(Trim(s[beg..i]))
  {
    var l, r := TrimRange(s, beg, i);
    piece := if l < r then [s[l..r]] else [];
  }

  /** The splitter's scan: one pass over the text, a callback per non-empty trimmed piece. */
  method SplitScan(s: string, d: char) returns (pieces: seq<string>)
    requires !IsBlank(d)
    ensures pieces == Split(s, d)
  {
    hide *;
    pieces := [];
    var i, beg := 0, 0;
    while i < |s|
      invariant 0 <= beg <= i <= |s|
      invariant beg > 0 ==> s[beg - 1] == d
      invariant forall k | beg <= k < i :: s[k] != d
      invariant SplitFrom(s, d, 0) == pieces + SplitFrom(s, d, beg)
    {
      if s[i] == d {
        var piece := TrimmedPiece(s, beg, i);
        SplitAt(s, d, beg, i);
        pieces := pieces + piece;
        beg := i + 1;
      }
      i := i + 1;
    }
    SplitRest(s, d, beg);
    if i > 0 {
      var piece := TrimmedPiece(s, beg, i);
      pieces := pieces + piece;
    }
  }

  ghost function SplitFrom(s: string, d: char, beg: nat): seq<string>
    requires beg <= |s|
    ensures beg == 0 ==> SplitFrom(s, d, beg) == Split(s, d)
  {
    assert s[0..] == s;
    Split(s[beg..], d)
  }

  lemma SplitAt(s: string, d: char, beg: nat, i: nat)
    requires beg <= i < |s| && s[i] == d && d !in s[beg..i]
    ensures SplitFrom(s, d, beg) == Keep(Trim(s[beg..i])) + SplitFrom(s, d, i + 1)
  {
    hide Split, Trim, Keep;
    SplitCons(s[beg..i], d, s[i + 1..]);
    assert s[beg..] == s[beg..i] + [d] + s[i + 1..];
  }

  lemma SplitRest(s: string, d: char, beg: nat)
    requires beg <= |s| && d !in s[beg..|s|]
    ensures SplitFrom(s, d, beg) == Keep(Trim(s[beg..|s|]))
    ensures s == "" ==> SplitFrom(s, d, beg) == []
  {
    assert s[beg..] == s[beg..|s|];
    SplitLast(s[beg..], d);
  }

  lemma {:induction false} SplitNonEmpty(s: string, d: char)
    ensures "" !in Split(s, d)
    decreases |s|
  {
    var i := Find(s, [d]);
    if i < |s| { SplitNonEmpty(s[i + 1..], d); }
  }

  lemma {:induction false} TrimKeeps(s: string)
    requires NoOuterBlanks(s)
    ensures Trim(s) == s
  {}

  predicate AllBlank(s: string) { forall k :: 0 <= k < |s| ==> s[k] == ' ' || s[k] == '\t' }

  /** What trimming means: only blanks and tabs are taken off, at both ends, and none is left
      there. */
  lemma TrimMeans(s: string) returns (before: string, after: string)
    ensures s == before + Trim(s) + after
    ensures AllBlank(before) && AllBlank(after)
    ensures var t := Trim(s); t != "" ==> t[0] !in {' ', '\t'} && t[|t| - 1] !in {' ', '\t'}
  {
    hide TrimLeft, TrimRight, AllBlank;
    before := LeftMeans(s);
    after := RightMeans(TrimLeft(s));
    Assoc(before, Trim(s), after);
    var t := TrimLeft(s);
    if Trim(s) != "" { assert t[0] == Trim(s)[0]; }
  }

  lemma {:induction false} LeftMeans(s: string) returns (before: string)
    ensures s == before + TrimLeft(s) && AllBlank(before)
    ensures TrimLeft(s) != "" ==> !IsBlank(TrimLeft(s)[0])
  {
    before := "";
    if s != "" && IsBlank(s[0]) {
      before := LeftMeans(s[1..]);
      before := [s[0]] + before;
      assert s == [s[0]] + s[1..];
    }
  }

  lemma {:induction false} RightMeans(s: string) returns (after: string)
    ensures s == TrimRight(s) + after && AllBlank(after)
    ensures TrimRight(s) != "" ==> !IsBlank(TrimRight(s)[|TrimRight(s)| - 1])
    decreases |s|
  {
    after := "";
    if s != "" && IsBlank(s[|s| - 1]) {
      after := RightMeans(s[..|s| - 1]);
      after := after + [s[|s| - 1]];
      assert s == s[..|s| - 1] + [s[|s| - 1]];
    }
  }

  function ToLower(c: char): char {
    if 'A' <= c <= 'Z' then (c as int + 32) as char else c
  }

  /** `start_with_case_ignore` and the `icase` prefix tests. */
  predicate StartsWithIgnoreCase(a: string, b: string) {
    |b| <= |a| && forall i | 0 <= i < |b| :: ToLower(a[i]) == ToLower(b[i])
  }

  predicate EqualIgnoreCase(a: string, b: string) {
    |a| == |b| && StartsWithIgnoreCase(a, b)
  }
}
