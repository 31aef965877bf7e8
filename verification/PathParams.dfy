/** Routes with path parameters such as `/users/:id/posts`: compiling a pattern into fragments
    and names, and matching a request path. */
module PathParams {
  import opened Text
  import opened Wrappers

  // ------------------------------------------------------------- what a pattern means

  /** Fragments and values in turn; after a value comes a `/`, unless the value is the end. */
  function Fill(fs: seq<string>, vs: seq<string>): string
    requires |vs| <= |fs| <= |vs| + 1
  {
    if fs == [] then ""
    else if vs == [] then fs[0]
    else if |fs| == 1 then fs[0] + vs[0]
    else fs[0] + vs[0] + "/" + Fill(fs[1..], vs[1..])
  }

  /** `text` is the fragments with these values, up to one `/` after a final value. */
  predicate Covers(text: string, fs: seq<string>, vs: seq<string>) {
    && |vs| <= |fs| <= |vs| + 1
    && (text == Fill(fs, vs) || (|fs| == |vs| > 0 && text == Fill(fs, vs) + "/"))
  }

  predicate SlashFree(vs: seq<string>) { forall i :: 0 <= i < |vs| ==> '/' !in vs[i] }

  predicate NulFree(fs: seq<string>) { forall i :: 0 <= i < |fs| ==> NUL !in fs[i] }

  /** The parameters as they stand in a pattern. */
  function Markers(names: seq<string>): seq<string> {
    if names == [] then [] else [":" + names[0]] + Markers(names[1..])
  }

  // ------------------------------------------------------------- compiling

  /** Fragments and names of `pattern[at..]`; `at` is past the end after a final parameter. */
  function Compile(pattern: string, at: nat): (seq<string>, seq<string>)
    requires at <= |pattern| + 1
    decreases |pattern| + 1 - at
  {
    if at > |pattern| then ([], [])
    else
      var mark := Find(pattern, ":", at);
      if mark == |pattern| then (if at < |pattern| then [pattern[at..]] else [], [])
      else
        var sep := Find(pattern, "/", mark + 1);
        var (fs, names) := Compile(pattern, sep + 1);
        ([pattern[at..mark]] + fs, [pattern[mark + 1..sep]] + names)
  }

  lemma CompileStep(pattern: string, at: nat)
    requires at <= |pattern|
    ensures var mark := Find(pattern, ":", at);
      mark < |pattern| ==>
        var sep := Find(pattern, "/", mark + 1);
        && Compile(pattern, at).0 == [pattern[at..mark]] + Compile(pattern, sep + 1).0
        && Compile(pattern, at).1 == [pattern[mark + 1..sep]] + Compile(pattern, sep + 1).1
  {
    hide OccursAt;
  }

  lemma CompileEnds(pattern: string, at: nat)
    requires at <= |pattern| + 1
    ensures at > |pattern| || Find(pattern, ":", at) == |pattern| ==>
        Compile(pattern, at) == (if at < |pattern| then [pattern[at..]] else [], [])
  {
    hide OccursAt;
  }

  /** Compiling loses nothing: the pattern is covered by its fragments and markers. */
  lemma {:induction false} CompileCovers(pattern: string, at: nat)
    requires at <= |pattern| + 1
    ensures var (fs, names) := Compile(pattern, at);
      && |names| <= |fs| <= |names| + 1
      && (at <= |pattern| ==> Covers(pattern[at..], fs, Markers(names)))
      && (fs == [] <==> at >= |pattern|)
    decreases |pattern| + 1 - at
  {
    hide Covers, Markers, Compile, OccursAt, Find;
    CompileEnds(pattern, at);
    if at <= |pattern| {
      CompileStep(pattern, at);
      var mark := Find(pattern, ":", at);
      NoneBefore(pattern, ':', at, mark);
      if mark < |pattern| {
        var sep := Find(pattern, "/", mark + 1);
        NoneBefore(pattern, '/', mark + 1, sep);
        CompileCovers(pattern, sep + 1);
        MarkersCover(pattern, at, mark, sep);
      } else {
        PlainCovers(pattern[at..]);
      }
    }
  }

  lemma PlainCovers(text: string)
    ensures Covers(text, if text == "" then [] else [text], Markers([]))
  {}

  /** The fragments hold no marker, and the names no slash. */
  lemma {:induction false} CompileIsClean(pattern: string, at: nat)
    requires at <= |pattern| + 1
    ensures var (fs, names) := Compile(pattern, at);
      && (forall i :: 0 <= i < |fs| ==> ':' !in fs[i])
      && SlashFree(names)
      && (NUL !in pattern ==> NulFree(fs))
    decreases |pattern| + 1 - at
  {
    hide Compile, OccursAt, Find;
    CompileEnds(pattern, at);
    if at <= |pattern| {
      CompileStep(pattern, at);
      var mark := Find(pattern, ":", at);
      NoneBefore(pattern, ':', at, mark);
      if mark < |pattern| {
        var sep := Find(pattern, "/", mark + 1);
        NoneBefore(pattern, '/', mark + 1, sep);
        CompileIsClean(pattern, sep + 1);
      } else {
        assert pattern[at..mark] == pattern[at..];
      }
    }
  }

  lemma NoneBefore(s: string, c: char, from: nat, to: nat)
    requires from <= |s| && to == Find(s, [c], from)
    ensures c !in s[from..to]
    ensures to < |s| ==> s[to] == c
  {
    forall k | from <= k < to ensures s[k] != c {
      assert !OccursAt(s, [c], k);
      assert s[k..k + 1] == [s[k]];
    }
  }

  lemma {:induction false} MarkersCount(names: seq<string>)
    ensures |Markers(names)| == |names|
  {
    if names != [] { MarkersCount(names[1..]); }
  }

  lemma MarkersCover(pattern: string, at: nat, mark: nat, sep: nat)
    requires at <= mark < sep <= |pattern| && pattern[mark] == ':' && (sep < |pattern| ==> pattern[sep] == '/')
    requires var (fs, names) := Compile(pattern, sep + 1);
      && |names| <= |fs| <= |names| + 1
      && (sep < |pattern| ==> Covers(pattern[sep + 1..], fs, Markers(names)))
      && (fs == [] <==> sep + 1 >= |pattern|)
    ensures var (fs, names) := Compile(pattern, sep + 1);
      Covers(pattern[at..], [pattern[at..mark]] + fs, Markers([pattern[mark + 1..sep]] + names))
  {
    hide Compile, Covers;
    var (fs, names) := Compile(pattern, sep + 1);
    var f, m := pattern[at..mark], ":" + pattern[mark + 1..sep];
    MarkersCount(names);
    assert ([pattern[mark + 1..sep]] + names)[1..] == names;
    assert Markers([pattern[mark + 1..sep]] + names) == [m] + Markers(names);
    assert pattern[at..] == f + m + pattern[sep..];
    CoversCons(pattern[at..], f, fs, m, Markers(names), pattern[sep..]);
  }

  /** One more fragment and value in front. */
  lemma CoversCons(text: string, f: string, fs: seq<string>, v: string, vs: seq<string>, tail: string)
    requires |vs| <= |fs| <= |vs| + 1 && text == f + v + tail
    requires tail != "" ==> tail[0] == '/'
    requires if fs == [] then |tail| <= 1 else tail != "" && Covers(tail[1..], fs, vs)
    ensures Covers(text, [f] + fs, [v] + vs)
  {
    FillCons(f, fs, v, vs);
    if fs == [] {
      assert tail == "" || tail == "/";
      assert f + v + "" == f + v;
    } else {
      var inner := Fill(fs, vs);
      assert tail == "/" + tail[1..];
      Assoc(f + v, "/", tail[1..]);
      if tail[1..] != inner { Assoc(f + v + "/", inner, "/"); }
    }
  }

  lemma FillCons(f: string, fs: seq<string>, v: string, vs: seq<string>)
    requires |vs| <= |fs| <= |vs| + 1
    ensures Fill([f] + fs, [v] + vs) == if fs == [] then f + v else f + v + "/" + Fill(fs, vs)
  {
    assert ([f] + fs)[1..] == fs && ([v] + vs)[1..] == vs;
  }

  // ------------------------------------------------------------- matching

  /** `strncmp(s, fragment, |fragment|) == 0`: a NUL in both ends the comparison. */
  predicate SameUpTo(s: string, fragment: string)
    requires |fragment| <= |s|
  {
    fragment == "" || (s[0] == fragment[0] && (s[0] == NUL || SameUpTo(s[1..], fragment[1..])))
  }

  lemma {:induction false} SameMeansPrefix(s: string, fragment: string)
    requires |fragment| <= |s| && NUL !in fragment
    ensures SameUpTo(s, fragment) <==> s[..|fragment|] == fragment
  {
    if fragment != "" {
      SameMeansPrefix(s[1..], fragment[1..]);
      assert s[..|fragment|] == [s[0]] + s[1..][..|fragment| - 1];
      assert fragment == [fragment[0]] + fragment[1..];
    }
  }

  /** With a NUL in the fragment only the part up to the first one is compared. */
  lemma {:induction false} SameUpToNul(s: string, fragment: string, n: nat)
    requires |fragment| <= |s| && n < |fragment| && fragment[n] == NUL && NUL !in fragment[..n]
    ensures SameUpTo(s, fragment) <==> s[..n + 1] == fragment[..n + 1]
  {
    assert fragment[..n + 1] == [fragment[0]] + fragment[1..n + 1] && s[..n + 1] == [s[0]] + s[1..n + 1];
    if n > 0 {
      assert fragment[..n][0] == fragment[0];
      assert fragment[1..][..n - 1] == fragment[..n][1..];
      SameUpToNul(s[1..], fragment[1..], n - 1);
      assert s[1..][..n] == s[1..n + 1] && fragment[1..][..n] == fragment[1..n + 1];
    }
  }

  ghost function Prepend(vs: seq<string>, o: Option<seq<string>>): Option<seq<string>> {
    match o case None => None case Some(ws) => Some(vs + ws)
  }

  lemma PrependNothing(o: Option<seq<string>>)
    ensures Prepend([], o) == o
  {
    if o.Some? { assert [] + o.value == o.value; }
  }

  lemma PrependMore(vs: seq<string>, v: string, o: Option<seq<string>>)
    ensures Prepend(vs, Prepend([v], o)) == Prepend(vs + [v], o)
  {
    if o.Some? { assert vs + ([v] + o.value) == vs + [v] + o.value; }
  }

  /** The captured values of `k` parameters, if `path[pos..]` matches the fragments. */
  function Captures(fs: seq<string>, k: nat, path: string, pos: nat): Option<seq<string>>
    requires pos <= |path| + 1
    decreases |fs|
  {
    if fs == [] then if pos >= |path| then Some([]) else None
    else if pos + |fs[0]| > |path| || !SameUpTo(path[pos..], fs[0]) then None
    else
      var q := pos + |fs[0]|;
      if k == 0 then Captures(fs[1..], 0, path, q)
      else
        var sep := Find(path, "/", q);
        match Captures(fs[1..], k - 1, path, sep + 1)
        case None => None
        case Some(vs) => Some([path[q..sep]] + vs)
  }

  lemma CapturesStep(f: string, fs: seq<string>, k: nat, path: string, pos: nat)
    requires NUL !in f && pos <= |path| + 1
    ensures var c := Captures([f] + fs, k, path, pos);
      if pos + |f| > |path| || path[pos..pos + |f|] != f then c == None
      else if k == 0 then c == Captures(fs, 0, path, pos + |f|)
      else var sep := Find(path, "/", pos + |f|);
        c == Prepend([path[pos + |f|..sep]], Captures(fs, k - 1, path, sep + 1))
  {
    hide SameUpTo;
    assert ([f] + fs)[1..] == fs;
    if pos + |f| <= |path| {
      SameMeansPrefix(path[pos..], f);
      assert path[pos..][..|f|] == path[pos..pos + |f|];
    }
  }

  lemma NulFreeTail(fs: seq<string>)
    requires NulFree(fs) && fs != []
    ensures NUL !in fs[0] && NulFree(fs[1..]) && [fs[0]] + fs[1..] == fs
  {
    assert forall i :: 0 <= i < |fs[1..]| ==> fs[1..][i] == fs[i + 1];
  }

  lemma SlashFreeCons(v: string, vs: seq<string>)
    ensures SlashFree([v] + vs) <==> '/' !in v && SlashFree(vs)
  {
    assert ([v] + vs)[0] == v;
    forall i | 0 <= i < |vs| ensures ([v] + vs)[i + 1] == vs[i] {}
    if SlashFree([v] + vs) {
      forall i | 0 <= i < |vs| ensures '/' !in vs[i] { assert vs[i] == ([v] + vs)[i + 1]; }
    }
  }

  /** A match means the path is the pattern with the captured values in place. */
  lemma {:induction false} MatchIsSound(fs: seq<string>, k: nat, path: string, pos: nat)
    requires k <= |fs| <= k + 1 && NulFree(fs) && pos <= |path| + 1
    requires Captures(fs, k, path, pos).Some?
    ensures var vs := Captures(fs, k, path, pos).value;
      && |vs| == k && SlashFree(vs)
      && (fs == [] ==> pos >= |path|)
      && (fs != [] ==> pos <= |path| && Covers(path[pos..], fs, vs))
    decreases |fs|
  {
    hide Captures, NulFree, SlashFree, Covers, OccursAt, Find;
    if fs == [] {
      NothingCaptured(path, pos);
    } else {
      NulFreeTail(fs);
      var f, rest := fs[0], fs[1..];
      CapturesStep(f, rest, k, path, pos);
      var q := pos + |f|;
      if k == 0 {
        assert rest == [] && fs == [f];
        NothingCaptured(path, q);
        LastFragment(f);
        if q <= |path| && path[pos..q] == f { CutPath(path, pos, q, q); }
        assert f + "" == f;
      } else {
        var sep := Find(path, "/", q);
        var v := path[q..sep];
        NoneBefore(path, '/', q, sep);
        MatchIsSound(rest, k - 1, path, sep + 1);
        var vs := Captures(rest, k - 1, path, sep + 1).value;
        SlashFreeCons(v, vs);
        CutPath(path, pos, q, sep);
        CoversCons(path[pos..], f, rest, v, vs, path[sep..]);
      }
    }
  }

  lemma CutPath(path: string, pos: nat, q: nat, sep: nat)
    requires pos <= q <= sep <= |path|
    ensures path[pos..] == path[pos..q] + path[q..sep] + path[sep..] == path[pos..q] + path[q..]
    ensures sep < |path| ==> path[sep..][0] == path[sep] && path[sep..][1..] == path[sep + 1..]
    ensures sep == |path| ==> path[sep..] == ""
  {}

  lemma LastFragment(f: string)
    ensures forall text: string :: Covers(text, [f], []) <==> text == f
  {}

  lemma NothingCaptured(path: string, pos: nat)
    requires pos <= |path| + 1
    ensures Captures([], 0, path, pos) == if pos >= |path| then Some([]) else None
    ensures SlashFree([])
  {}

  /** Any slash-free values put into the pattern match, and are exactly what is captured. */
  lemma {:induction false} MatchIsComplete(fs: seq<string>, vs: seq<string>, path: string, pos: nat)
    requires NulFree(fs) && SlashFree(vs) && pos <= |path| && Covers(path[pos..], fs, vs)
    ensures Captures(fs, |vs|, path, pos) == Some(vs)
    decreases |fs|
  {
    hide Captures, NulFree, SlashFree, Fill, OccursAt, Find;
    if fs == [] {
      NothingCovered(path[pos..], vs);
      NothingCaptured(path, pos);
    } else {
      NulFreeTail(fs);
      var f := fs[0];
      CapturesStep(f, fs[1..], |vs|, path, pos);
      var q := pos + |f|;
      if vs == [] {
        assert fs[1..] == [] && fs == [f];
        LastFragment(f);
        assert path[pos..] == f && path[pos..pos + |f|] == path[pos..][..|f|];
        NothingCaptured(path, q);
      } else {
        var v := vs[0];
        assert [v] + vs[1..] == vs;
        SlashFreeCons(v, vs[1..]);
        var rest := Rest(fs, vs, path[pos..]);
        var sep := q + |v|;
        ValueAt(path, pos, f, v, rest);
        FindAfterValue(path, q, v, rest);
        if fs[1..] != [] {
          MatchIsComplete(fs[1..], vs[1..], path, sep + 1);
        } else {
          NothingCaptured(path, sep + 1);
        }
      }
    }
  }

  lemma ValueAt(path: string, pos: nat, f: string, v: string, rest: string)
    requires pos <= |path| && path[pos..] == f + (v + rest)
    ensures var (q, sep) := (pos + |f|, pos + |f| + |v|);
      && sep + |rest| == |path| && path[pos..q] == f && path[q..] == v + rest && path[q..sep] == v
      && (rest != "" ==> path[sep + 1..] == rest[1..])
  {
    var q, sep := pos + |f|, pos + |f| + |v|;
    assert path[pos..q] == path[pos..][..|f|];
    assert path[q..] == path[pos..][|f|..];
    assert path[q..sep] == path[q..][..|v|];
    assert path[sep..] == path[q..][|v|..];
    assert rest != "" ==> path[sep + 1..] == path[sep..][1..];
  }

  lemma NothingCovered(text: string, vs: seq<string>)
    ensures Covers(text, [], vs) <==> text == "" && vs == []
  {}

  /** What follows the first value in a covered text. */
  lemma Rest(fs: seq<string>, vs: seq<string>, text: string) returns (rest: string)
    requires fs != [] && vs != [] && Covers(text, fs, vs)
    ensures text == fs[0] + (vs[0] + rest)
    ensures |fs| == 1 ==> rest == "" || rest == "/"
    ensures |fs| > 1 ==> rest != "" && rest[0] == '/' && Covers(rest[1..], fs[1..], vs[1..])
  {
    hide Fill;
    var f, v := fs[0], vs[0];
    FillCons(f, fs[1..], v, vs[1..]);
    assert [f] + fs[1..] == fs && [v] + vs[1..] == vs;
    var tail := if text == Fill(fs, vs) then "" else "/";
    if |fs| == 1 {
      rest := tail;
      assert f + v + tail == f + (v + tail);
      assert tail == "" ==> f + v == f + v + tail;
    } else {
      var inner := Fill(fs[1..], vs[1..]);
      rest := "/" + (inner + tail);
      assert f + v + "/" + inner + tail == f + (v + rest);
      assert tail == "" ==> inner + tail == inner && f + v + "/" + inner == f + v + "/" + inner + tail;
      assert rest[1..] == inner + tail;
    }
  }

  lemma FindAfterValue(path: string, q: nat, v: string, rest: string)
    requires q <= |path| && path[q..] == v + rest && '/' !in v && (rest != "" ==> rest[0] == '/')
    ensures Find(path, "/", q) == q + |v|
  {
    var sep := Find(path, "/", q);
    forall k | q <= k < q + |v| ensures path[k] != '/' {
      assert path[q..][k - q] == v[k - q];
    }
    if sep < |path| { assert path[sep..sep + 1][0] == '/'; }
    if rest != "" {
      assert path[q..][|v|] == '/';
      assert path[q + |v|..q + |v| + 1] == "/";
      assert OccursAt(path, "/", q + |v|);
    }
  }

  /** A path matches a pattern with these captures exactly if it is the pattern with each
      parameter replaced by its slash-free value, up to one `/` after a final parameter. */
  lemma MatchIff(pattern: string, path: string, vs: seq<string>)
    requires NUL !in pattern
    ensures var (fs, names) := Compile(pattern, 0);
      && Covers(pattern, fs, Markers(names))
      && (Captures(fs, |names|, path, 0) == Some(vs) <==> |vs| == |names| && SlashFree(vs) && Covers(path, fs, vs))
  {
    hide Compile, Captures, Covers, NulFree, SlashFree, Fill, Markers;
    var (fs, names) := Compile(pattern, 0);
    CompileCovers(pattern, 0);
    CompileIsClean(pattern, 0);
    MarkersCount(names);
    assert pattern[0..] == pattern && path[0..] == path;
    if Captures(fs, |names|, path, 0).Some? {
      MatchIsSound(fs, |names|, path, 0);
      NothingCovered(path, Captures(fs, |names|, path, 0).value);
    }
    if |vs| == |names| && SlashFree(vs) && Covers(path, fs, vs) { MatchIsComplete(fs, vs, path, 0); }
  }

  // ------------------------------------------------------------- the parameter map

  /** `emplace` keeps the value a name already has. */
  function Emplace(m: map<string, string>, name: string, value: string): map<string, string> {
    if name in m then m else m[name := value]
  }

  function ParamMap(names: seq<string>, vs: seq<string>): map<string, string>
    requires |vs| <= |names|
    decreases |vs|
  {
    if vs == [] then map[]
    else Emplace(ParamMap(names, vs[..|vs| - 1]), names[|vs| - 1], vs[|vs| - 1])
  }

  predicate IsFirst(names: seq<string>, i: nat)
    requires i < |names|
  {
    forall j :: 0 <= j < i ==> names[j] != names[i]
  }

  lemma {:induction false} FirstValueCounts(names: seq<string>, vs: seq<string>)
    requires |vs| <= |names|
    ensures forall i :: 0 <= i < |vs| ==> names[i] in ParamMap(names, vs)
    ensures forall i :: 0 <= i < |vs| && IsFirst(names, i) ==> ParamMap(names, vs)[names[i]] == vs[i]
    decreases |vs|
  {
    if vs != [] {
      FirstValueCounts(names, vs[..|vs| - 1]);
      OnlyNames(names, vs[..|vs| - 1]);
    }
  }

  lemma {:induction false} OnlyNames(names: seq<string>, vs: seq<string>)
    requires |vs| <= |names|
    ensures ParamMap(names, vs).Keys == set i | 0 <= i < |vs| :: names[i]
    decreases |vs|
  {
    if vs != [] { OnlyNames(names, vs[..|vs| - 1]); }
  }

  lemma FirstIndex(names: seq<string>, i: nat) returns (k: nat)
    requires i < |names|
    ensures k <= i && names[k] == names[i] && IsFirst(names, k)
  {
    k := 0;
    while names[k] != names[i]
      invariant k <= i && forall j :: 0 <= j < k ==> names[j] != names[i]
      decreases i - k
    {
      k := k + 1;
    }
  }

  /** Parameters with the same name captured the same value. */
  predicate RepeatsAgree(names: seq<string>, vs: seq<string>)
    requires |vs| == |names|
  {
    forall i, j :: 0 <= i < j < |names| && names[i] == names[j] ==> vs[i] == vs[j]
  }

  predicate AllKept(names: seq<string>, vs: seq<string>)
    requires |vs| == |names|
  {
    forall i :: 0 <= i < |names| ==> names[i] in ParamMap(names, vs) && ParamMap(names, vs)[names[i]] == vs[i]
  }

  /** Every parameter finds its own captured value in the map exactly if repeated names have
      captured the same values. The constructor means to refuse repeated names, but never
      records the names it has seen. */
  lemma ValuesKeptIff(names: seq<string>, vs: seq<string>)
    requires |vs| == |names|
    ensures AllKept(names, vs) <==> RepeatsAgree(names, vs)
  {
    hide ParamMap, IsFirst;
    FirstValueCounts(names, vs);
    if RepeatsAgree(names, vs) {
      forall i | 0 <= i < |names| ensures names[i] in ParamMap(names, vs) && ParamMap(names, vs)[names[i]] == vs[i] {
        var k := FirstIndex(names, i);
      }
    }
  }

  /** So a route keeps all values of all paths exactly if its names are distinct. */
  lemma KeptForAllPathsIff(names: seq<string>)
    ensures (forall vs: seq<string> | |vs| == |names| && SlashFree(vs) :: AllKept(names, vs))
       <==> (forall i, j :: 0 <= i < j < |names| ==> names[i] != names[j])
  {
    hide AllKept;
    if forall i, j :: 0 <= i < j < |names| ==> names[i] != names[j] {
      forall vs: seq<string> | |vs| == |names| && SlashFree(vs) ensures AllKept(names, vs) { ValuesKeptIff(names, vs); }
    } else {
      var i, j :| 0 <= i < j < |names| && names[i] == names[j];
      var vs := seq(|names|, k => if k == j then "1" else "0");
      assert SlashFree(vs);
      assert vs[i] != vs[j];
      ValuesKeptIff(names, vs);
    }
  }

  /** With distinct names every parameter has its own captured value, and nothing else is in the
      map. */
  lemma DistinctNamesKeepValues(names: seq<string>, vs: seq<string>)
    requires |vs| == |names|
    requires forall i, j :: 0 <= i < j < |names| ==> names[i] != names[j]
    ensures forall i :: 0 <= i < |names| ==> names[i] in ParamMap(names, vs) && ParamMap(names, vs)[names[i]] == vs[i]
    ensures ParamMap(names, vs).Keys == set i | 0 <= i < |names| :: names[i]
  {
    hide ParamMap;
    FirstValueCounts(names, vs);
    OnlyNames(names, vs);
    assert forall i :: 0 <= i < |names| ==> IsFirst(names, i);
  }

  /** A pattern that repeats a name is compiled like any other. */
  lemma RepeatedNameIsAccepted()
    ensures Compile("/:a/:a", 0) == (["/", ""], ["a", "a"])
    ensures ParamMap(["a", "a"], ["1", "2"]) == map["a" := "1"]
  {
    hide Compile, OccursAt, Find;
    var p := "/:a/:a";
    FindIs(p, ':', 0, 1);
    FindIs(p, '/', 2, 3);
    FindIs(p, ':', 4, 4);
    FindIs(p, '/', 5, 6);
    assert p[0..1] == "/" && p[2..3] == [p[2]] && p[4..4] == "" && p[5..6] == [p[5]];
    assert [p[2]] == "a" && [p[5]] == "a";
    CompileStep(p, 0);
    CompileStep(p, 4);
    CompileEnds(p, 7);
    assert Compile(p, 4).0 == [""] + [] && Compile(p, 4).1 == ["a"] + [];
    assert Compile(p, 0).0 == ["/"] + [""] && Compile(p, 0).1 == ["a"] + ["a"];
    assert ["/"] + [""] == ["/", ""] && ["a"] + ["a"] == ["a", "a"];
    assert ["1"][..0] == [] && ["1", "2"][..1] == ["1"];
    assert ParamMap(["a", "a"], ["1"]) == map["a" := "1"];
  }

  lemma FindIs(s: string, c: char, from: nat, at: nat)
    requires from <= at <= |s| && (forall k :: from <= k < at ==> s[k] != c) && (at < |s| ==> s[at] == c)
    ensures Find(s, [c], from) == at
  {
    if at < |s| { assert OccursAt(s, [c], at); }
    NoneBefore(s, c, from, Find(s, [c], from));
  }

  // ------------------------------------------------------------- the matcher

  class Request {
    const path: string
    var pathParams: map<string, string>

    constructor (path: string)
      ensures this.path == path
    {
      this.path, pathParams := path, map[];
    }
  }

  /** The loop of the constructor. */
  method Scan(pattern: string) returns (fs: seq<string>, names: seq<string>)
    ensures (fs, names) == Compile(pattern, 0)
  {
    hide Compile, OccursAt, Find;
    fs, names := [], [];
    var lastParamEnd: nat := 0;
    ghost var all := Compile(pattern, 0);
    assert [] + all.0 == all.0 && [] + all.1 == all.1;
    while lastParamEnd <= |pattern|
      invariant lastParamEnd <= |pattern| + 1
      invariant all.0 == fs + Compile(pattern, lastParamEnd).0
      invariant all.1 == names + Compile(pattern, lastParamEnd).1
      decreases |pattern| + 1 - lastParamEnd
    {
      var markerPos := Find(pattern, ":", lastParamEnd);
      CompileStep(pattern, lastParamEnd);
      if markerPos == |pattern| { break; }
      var sepPos := Find(pattern, "/", markerPos + 1);
      var fragment, name := pattern[lastParamEnd..markerPos], pattern[markerPos + 1..sepPos];
      ghost var rest := Compile(pattern, sepPos + 1);
      AssocSeq(fs, fragment, rest.0);
      AssocSeq(names, name, rest.1);
      fs := fs + [fragment];
      names := names + [name];
      lastParamEnd := sepPos + 1;
    }
    CompileEnds(pattern, lastParamEnd);
    assert names + [] == names && fs + [] == fs;
    if lastParamEnd < |pattern| { fs := fs + [pattern[lastParamEnd..]]; }
  }

  class PathParamsMatcher {
    var staticFragments: seq<string>
    var paramNames: seq<string>

    constructor (pattern: string)
      ensures (staticFragments, paramNames) == Compile(pattern, 0)
      ensures |paramNames| <= |staticFragments| <= |paramNames| + 1
    {
      CompileCovers(pattern, 0);
      var fs, names := Scan(pattern);
      staticFragments, paramNames := fs, names;
    }

    method Match(request: Request) returns (r: bool)
      requires |paramNames| <= |staticFragments| <= |paramNames| + 1
      modifies request
      ensures r <==> Captures(staticFragments, |paramNames|, request.path, 0).Some?
      ensures r ==> |Captures(staticFragments, |paramNames|, request.path, 0).value| == |paramNames|
      ensures r ==> request.pathParams == ParamMap(paramNames, Captures(staticFragments, |paramNames|, request.path, 0).value)
    {
      hide SameUpTo, Captures, ParamMap, OccursAt, Find;
      request.pathParams := map[];
      var path := request.path;
      ghost var all := Captures(staticFragments, |paramNames|, path, 0);
      ghost var vs: seq<string> := [];
      var startingPos: nat := 0;
      var i := 0;
      assert staticFragments[0..] == staticFragments;
      NoValues(paramNames);
      PrependNothing(all);
      while i < |staticFragments|
        invariant 0 <= i <= |staticFragments| && startingPos <= |path| + 1
        invariant |vs| <= |paramNames| && |vs| == if i < |paramNames| then i else |paramNames|
        invariant request.pathParams == ParamMap(paramNames, vs)
        invariant all == Prepend(vs, Captures(staticFragments[i..], |paramNames| - |vs|, path, startingPos))
      {
        var fragment := staticFragments[i];
        CapturesUnfold(staticFragments, i, |paramNames| - |vs|, path, startingPos);
        if startingPos + |fragment| > |path| { return false; }
        if !SameUpTo(path[startingPos..], fragment) { return false; }
        startingPos := startingPos + |fragment|;
        i := i + 1;
        if i - 1 >= |paramNames| { continue; }
        var sepPos := Find(path, "/", startingPos);
        var value := path[startingPos..sepPos];
        var name := paramNames[i - 1];
        OneMoreValue(paramNames, vs, value);
        if name !in request.pathParams { request.pathParams := request.pathParams[name := value]; }
        PrependMore(vs, value, Captures(staticFragments[i..], |paramNames| - |vs| - 1, path, sepPos + 1));
        vs := vs + [value];
        startingPos := sepPos + 1;
      }
      r := startingPos >= |path|;
      assert staticFragments[i..] == [];
      CapturesDone(path, startingPos, |paramNames| - |vs|);
      assert vs + [] == vs;
    }
  }

  lemma NoValues(names: seq<string>)
    ensures ParamMap(names, []) == map[]
  {}

  lemma OneMoreValue(names: seq<string>, vs: seq<string>, v: string)
    requires |vs| < |names|
    ensures ParamMap(names, vs + [v]) == Emplace(ParamMap(names, vs), names[|vs|], v)
  {
    assert (vs + [v])[..|vs|] == vs;
  }

  lemma CapturesDone(path: string, pos: nat, k: nat)
    requires pos <= |path| + 1
    ensures Captures([], k, path, pos) == if pos >= |path| then Some([]) else None
  {}

  lemma CapturesUnfold(fs: seq<string>, i: nat, k: nat, path: string, pos: nat)
    requires i < |fs| && pos <= |path| + 1
    ensures var c, q := Captures(fs[i..], k, path, pos), pos + |fs[i]|;
      if q > |path| || !SameUpTo(path[pos..], fs[i]) then c == None
      else if k == 0 then c == Captures(fs[i + 1..], 0, path, q)
      else var sep := Find(path, "/", q);
        c == Prepend([path[q..sep]], Captures(fs[i + 1..], k - 1, path, sep + 1))
  {
    hide SameUpTo;
    assert fs[i..][0] == fs[i] && fs[i..][1..] == fs[i + 1..];
  }

  lemma AssocSeq(a: seq<string>, x: string, b: seq<string>)
    ensures a + ([x] + b) == a + [x] + b
  {}
}
