/** URLs of the file manager: splitting off the scheme, reading the user, key files, host and
    path of an SFTP URL. */
module SftpUrl {
  import opened Text

  // ------------------------------------------------------------- scheme, base, extension

  /** What stands after the last dot, or nothing if there is none. */
  function Extension(base: string): string {
    if '.' !in base || base[|base| - 1] == '.' then ""
    else Extension(base[..|base| - 1]) + [base[|base| - 1]]
  }

  lemma {:induction false} ExtensionMeans(base: string)
    ensures var ext := Extension(base);
      && '.' !in ext
      && (if '.' in base then |ext| < |base| && base == base[..|base| - |ext| - 1] + "." + ext else ext == "")
  {
    if '.' in base {
      var n := |base| - 1;
      assert base == base[..n] + [base[n]];
      if base[n] != '.' {
        ExtensionMeans(base[..n]);
        var ext := Extension(base[..n]);
        var k := n - |ext| - 1;
        assert base[..n][..k] == base[..k];
        assert base == base[..k] + "." + (ext + [base[n]]);
      }
    }
  }

  /** `getURLComponents`; on failure the out-parameters keep their values. */
  method GetURLComponents(url: string, prefix0: string, base0: string, extension0: string)
    returns (ok: bool, prefix: string, base: string, extension: string)
    ensures ok <==> !Absent(url, "://")
    ensures ok ==> url == prefix + "://" + base && Find(url, "://") == |prefix| && extension == Extension(base)
    ensures !ok ==> prefix == prefix0 && base == base0 && extension == extension0
  {
    hide Find, OccursAt, Extension;
    prefix, base, extension := prefix0, base0, extension0;
    NothingFound("", "://");
    if url == "" { return false, prefix, base, extension; }
    var index := Find(url, "://");
    if index == |url| { return false, prefix, base, extension; }
    FoundFits(url, "://");
    prefix := url[..index];
    base := url[index + 3..];
    assert url == url[..index] + url[index..index + 3] + url[index + 3..];
    var startIndex := |base|;
    while startIndex > 0 && base[startIndex - 1] != '.'
      invariant 0 <= startIndex <= |base|
      invariant '.' !in base[startIndex..]
    {
      startIndex := startIndex - 1;
    }
    if startIndex == 0 { extension := ""; } else { extension := base[startIndex..]; }
    LastDot(base, startIndex);
    ok := true;
  }

  /** The extension is determined by the last dot. */
  lemma LastDot(base: string, at: nat)
    requires at <= |base| && '.' !in base[at..] && (at > 0 ==> base[at - 1] == '.')
    ensures Extension(base) == if at == 0 then "" else base[at..]
  {
    if at == 0 {
      assert base[0..] == base;
    } else {
      ExtensionOf(base[..at - 1], base[at..]);
      assert base == base[..at - 1] + "." + base[at..];
    }
  }

  lemma {:induction false} ExtensionOf(h: string, x: string)
    requires '.' !in x
    ensures Extension(h + "." + x) == x
  {
    var base := h + "." + x;
    assert base[|h|] == '.';
    if x != "" {
      var n := |x| - 1;
      ExtensionOf(h, x[..n]);
      assert base[|base| - 1] == x[n] && x[n] in x;
      assert base[..|base| - 1] == h + "." + x[..n];
    }
  }

  // ------------------------------------------------------------- SFTP

  const PUBLIC: string := "pubkey_identifier"

  const PRIVATE: string := "privkey_identifier"

  const PHRASE: string := "key_passphrase"

  datatype Parts = Parts(host: string, path: string, user: string, pass: string,
                         publicKey: string, privateKey: string, phrase: string)

  /** What follows a marker, without one separating colon. */
  function AfterMarker(pass: string, start: nat): string
    requires start <= |pass|
  {
    if start < |pass| && pass[start] == ':' then pass[start + 1..] else pass[start..]
  }

  function WithPublic(pass: string): (string, string) {
    var i := Find(pass, PUBLIC);
    if i == |pass| then (pass, "") else ("", AfterMarker(pass, i + |PUBLIC|))
  }

  function WithPrivate(pass: string): (string, string) {
    var i := Find(pass, PRIVATE);
    if i == |pass| then (pass, "") else ("", AfterMarker(pass, i + |PRIVATE|))
  }

  function WithPhrase(key: string): (string, string) {
    var i := Find(key, PHRASE);
    if i == |key| then (key, "") else (key[..i], key[i + |PHRASE|..])
  }

  /** User and credentials of what stands before the `@`. */
  function Credentials(p: Parts, info: string): Parts {
    if info == "" then p.(user := "", pass := "", publicKey := "", privateKey := "", phrase := "")
    else
      var colon := Find(info, ":");
      var user := info[..colon];
      var pass0 := if colon == |info| then "" else info[colon + 1..];
      var (pass1, publicKey) := WithPublic(pass0);
      var (pass, key) := WithPrivate(pass1);
      var (privateKey, phrase) := WithPhrase(key);
      p.(user := user, pass := pass, publicKey := publicKey, privateKey := privateKey, phrase := phrase)
  }

  /** Host and path of what stands after the `@`. */
  function Place(p: Parts, rest: string): (bool, Parts) {
    var slash := Find(rest, "/");
    if slash == |rest| then (false, p.(host := rest))
    else (slash > 0, p.(host := rest[..slash], path := rest[slash..]))
  }

  /** `parseSFTPUrl` as a function of the URL and what the out-parameters held. */
  function Parse(url: string, before: Parts): (bool, Parts) {
    if url == "" then (false, before)
    else
      var at := Find(url, "@");
      if at == |url| then Place(Credentials(before, ""), url)
      else Place(Credentials(before, url[..at]), url[at + 1..])
  }

  method ParseSFTPUrl(url: string, before: Parts) returns (ok: bool, parts: Parts)
    ensures (ok, parts) == Parse(url, before)
  {
    hide Find, OccursAt, Credentials;
    if url == "" { return false, before; }
    var host, path := before.host, before.path;
    var user, pass, publicKeyFile, privateKeyFile, privateKeyPass := "", "", "", "", "";
    var index := Find(url, "@");
    if index == |url| {
      host := url;
    } else {
      user := url[..index];
      host := url[index + 1..];
    }
    ghost var info := user;
    user, pass, publicKeyFile, privateKeyFile, privateKeyPass := ParseCredentials(user, before);
    index := Find(host, "/");
    if index == |host| {
      ok := false;
    } else {
      path := host[index..];
      host := host[..index];
      ok := host != "";
    }
    CredentialsKeepPlace(before, info);
    parts := Parts(host, path, user, pass, publicKeyFile, privateKeyFile, privateKeyPass);
  }

  lemma CredentialsKeepPlace(p: Parts, info: string)
    ensures Credentials(p, info).host == p.host && Credentials(p, info).path == p.path
  {
    hide WithPublic, WithPrivate, WithPhrase;
  }

  /** The three searches, as the code makes them. */
  lemma MarkersMean(s: string)
    ensures var i := Find(s, PUBLIC);
      if i == |s| then WithPublic(s) == (s, "") else i + 17 <= |s| && WithPublic(s) == ("", AfterMarker(s, i + 17))
    ensures var i := Find(s, PRIVATE);
      if i == |s| then WithPrivate(s) == (s, "") else i + 18 <= |s| && WithPrivate(s) == ("", AfterMarker(s, i + 18))
    ensures var i := Find(s, PHRASE);
      if i == |s| then WithPhrase(s) == (s, "") else i + 14 <= |s| && WithPhrase(s) == (s[..i], s[i + 14..])
    ensures WithPhrase("") == ("", "")
  {
    hide Find, OccursAt, AfterMarker;
    NothingFound("", PHRASE);
    if Find(s, PUBLIC) < |s| { FoundFits(s, PUBLIC); }
    if Find(s, PRIVATE) < |s| { FoundFits(s, PRIVATE); }
    if Find(s, PHRASE) < |s| { FoundFits(s, PHRASE); }
  }

  /** The part of `parseSFTPUrl` that takes the text before the `@` apart. */
  method ParseCredentials(info: string, ghost p: Parts)
    returns (user: string, pass: string, publicKeyFile: string, privateKeyFile: string, privateKeyPass: string)
    ensures Credentials(p, info) == Parts(p.host, p.path, user, pass, publicKeyFile, privateKeyFile, privateKeyPass)
  {
    hide Find, OccursAt, WithPublic, WithPrivate, WithPhrase;
    user, pass, publicKeyFile, privateKeyFile, privateKeyPass := info, "", "", "", "";
    if user == "" { return; }
    var index := Find(user, ":");
    if index == |user| {
      assert user[..index] == user;
    } else {
      pass := user[index + 1..];
      user := user[..index];
    }
    ghost var pass0 := pass;
    MarkersMean(pass);
    index := Find(pass, PUBLIC);
    if index != |pass| {
      var start := index + 17;
      if start < |pass| && pass[start] == ':' { start := start + 1; }
      publicKeyFile := pass[start..];
      pass := "";
    }
    assert (pass, publicKeyFile) == WithPublic(pass0);
    ghost var pass1 := pass;
    MarkersMean(pass);
    index := Find(pass, PRIVATE);
    if index != |pass| {
      var start := index + 18;
      if start < |pass| && pass[start] == ':' { start := start + 1; }
      privateKeyFile := pass[start..];
      pass := "";
    }
    assert (pass, privateKeyFile) == WithPrivate(pass1);
    ghost var key := privateKeyFile;
    MarkersMean(key);
    if privateKeyFile != "" {
      index := Find(privateKeyFile, PHRASE);
      if index != |privateKeyFile| {
        privateKeyPass := privateKeyFile[index + 14..];
        privateKeyFile := privateKeyFile[..index];
      }
    }
    assert (privateKeyFile, privateKeyPass) == WithPhrase(key);
  }

  lemma FoundFits(s: string, p: string)
    requires p != "" && Find(s, p) < |s|
    ensures Find(s, p) + |p| <= |s| && s[Find(s, p)..Find(s, p) + |p|] == p
  {}

  lemma NothingFound(s: string, p: string)
    requires p != "" && s == ""
    ensures Find(s, p) == 0
  {}

  // ------------------------------------------------------------- what is read back

  predicate PlainUser(user: string) { '@' !in user && ':' !in user }

  predicate IsPlace(host: string, path: string) {
    host != "" && '/' !in host && path != "" && path[0] == '/'
  }

  /** An accepted URL yields a user without `@` and `:`, a non-empty host without slash and a
      path that starts with one. */
  lemma AcceptedParts(url: string, before: Parts)
    requires Parse(url, before).0
    ensures var p := Parse(url, before).1; PlainUser(p.user) && IsPlace(p.host, p.path)
  {
    hide WithPublic, WithPrivate, WithPhrase, OccursAt;
    var at := Find(url, "@");
    Before(url, '@');
    var info := if at == |url| then "" else url[..at];
    var rest := if at == |url| then url else url[at + 1..];
    Before(rest, '/');
    if info != "" {
      Before(info, ':');
      assert forall k :: 0 <= k < Find(info, ":") ==> info[..Find(info, ":")][k] == info[k];
    }
  }

  lemma Before(s: string, c: char)
    ensures c !in s[..Find(s, [c])]
    ensures Find(s, [c]) < |s| ==> s[Find(s, [c])] == c
  {
    forall k | 0 <= k < Find(s, [c]) ensures s[k] != c {
      assert !OccursAt(s, [c], k);
      assert s[k..k + 1] == [s[k]];
    }
  }

  lemma PlaceIsRead(p: Parts, host: string, path: string)
    requires IsPlace(host, path)
    ensures Place(p, host + path) == (true, p.(host := host, path := path))
  {
    FindChar(host, '/', path[1..]);
    assert host + ['/'] + path[1..] == host + path;
    assert (host + path)[..|host|] == host && (host + path)[|host|..] == path;
  }

  lemma InfoIsRead(info: string, rest: string, before: Parts)
    requires '@' !in info
    ensures Parse(info + "@" + rest, before) == Place(Credentials(before, info), rest)
  {
    hide Place, Credentials;
    var url := info + "@" + rest;
    FindChar(info, '@', rest);
    assert url[..|info|] == info && url[|info| + 1..] == rest;
    assert url[|info|] == '@';
  }

  lemma PlainUserIsRead(user: string, before: Parts)
    requires PlainUser(user)
    ensures Credentials(before, user) == Parts(before.host, before.path, user, "", "", "", "")
  {
    AbsentChar(user, ':');
    assert user[..|user|] == user;
  }

  /** A URL with only a user reads back. */
  lemma UserFormIsRead(user: string, host: string, path: string, before: Parts)
    requires PlainUser(user) && IsPlace(host, path)
    ensures Parse(user + "@" + (host + path), before) == (true, Parts(host, path, user, "", "", "", ""))
  {
    hide Place, Credentials, Parse;
    InfoIsRead(user, host + path, before);
    PlainUserIsRead(user, before);
    PlaceIsRead(Parts(before.host, before.path, user, "", "", "", ""), host, path);
  }

  /** Exactly the URLs are accepted that have a slash behind the first `@`, if there is one, and a
      host in front of it; without an `@` there is no user and no credential. */
  lemma AcceptedIff(url: string, before: Parts)
    ensures var at := Find(url, "@");
      var rest := if at == |url| then url else url[at + 1..];
      && (Parse(url, before).0 <==> '/' in rest && rest[0] != '/')
      && (at == |url| && url != "" ==>
            var p := Parse(url, before).1; p.user == p.pass == p.publicKey == p.privateKey == p.phrase == "")
  {
    hide WithPublic, WithPrivate, WithPhrase, OccursAt;
    var at := Find(url, "@");
    var rest := if at == |url| then url else url[at + 1..];
    Before(rest, '/');
    AbsentChar(rest, '/');
  }

  lemma SchemeIsRead(rest: string)
    ensures Find("sftp://" + rest, "://") == 4 && ("sftp://" + rest)[7..] == rest && ("sftp://" + rest)[..4] == "sftp"
  {
    var s := "sftp";
    NothingFound("", "://");
    AbsentAfterPrefix(s, "", "://");
    assert s + "" == s;
    FindAfterAbsent(s, "://", rest);
    assert s + "://" + rest == "sftp://" + rest;
  }

  // ------------------------------------------------------------- key files

  predicate Clean(file: string) { Absent(file, PUBLIC) && Absent(file, PHRASE) }

  /** The marker and its colon in front of a text add no other marker. */
  lemma PublicStaysAbsent(text: string)
    ensures Absent(PRIVATE + ":" + text, PUBLIC) <==> Absent(text, PUBLIC)
  {
    hide Absent, Find, OccursAt;
    var t := PRIVATE + ":" + text;
    var tail := MARKER_TAIL + text;
    TailOfMarker(text);
    if Absent(text, PUBLIC) {
      AbsentAfterPrefix(MARKER_TAIL, text, PUBLIC);
      NotAtStart(tail);
    }
    if Absent(t, PUBLIC) { AbsentDrop(t, 19); }
  }

  /** The private key marker and its colon, without the first letter. */
  const MARKER_TAIL: string := "rivkey_identifier:"

  lemma TailOfMarker(text: string)
    ensures PRIVATE + ":" + text == "p" + (MARKER_TAIL + text) && (PRIVATE + ":" + text)[19..] == text
    ensures (MARKER_TAIL + text)[0] == 'r' && PUBLIC[0] !in MARKER_TAIL
  {
    assert PRIVATE + ":" == "p" + MARKER_TAIL;
    assert |PRIVATE + ":"| == 19;
  }

  lemma NotAtStart(tail: string)
    requires tail != "" && tail[0] == 'r' && Absent(tail, PUBLIC)
    ensures Absent("p" + tail, PUBLIC)
  {
    var t := "p" + tail;
    forall i: nat | i < |t| ensures !OccursAt(t, PUBLIC, i) {
      if i == 0 {
        assert t[1] == 'r' && PUBLIC[1] == 'u';
        if |PUBLIC| <= |t| { assert t[0..|PUBLIC|][1] == 'r'; }
      } else {
        assert !OccursAt(tail, PUBLIC, i - 1);
        if i + |PUBLIC| <= |t| { assert t[i..i + |PUBLIC|] == tail[i - 1..i - 1 + |PUBLIC|]; }
      }
    }
  }

  lemma AbsentDrop(t: string, n: nat)
    requires n <= |t| && Absent(t, PUBLIC)
    ensures Absent(t[n..], PUBLIC)
  {
    AbsentSlice(t, PUBLIC, n, |t|);
    assert t[n..|t|] == t[n..];
  }

  lemma PrivateIsFound(text: string)
    ensures WithPrivate(PRIVATE + ":" + text) == ("", text)
  {
    var pass := PRIVATE + ":" + text;
    assert pass[0..|PRIVATE|] == PRIVATE;
    assert OccursAt(pass, PRIVATE, 0);
    assert pass[|PRIVATE|] == ':' && pass[|PRIVATE| + 1..] == text;
  }

  lemma KeyInfo(user: string, text: string, before: Parts)
    requires PlainUser(user)
    ensures var c := Credentials(before, user + ":" + (PRIVATE + ":" + text));
      var (privateKey, phrase) := WithPhrase(text);
      && c.user == user && c.host == before.host && c.path == before.path && c.pass == ""
      && (Absent(text, PUBLIC) ==> c.publicKey == "" && c.privateKey == privateKey && c.phrase == phrase)
      && (!Absent(text, PUBLIC) ==> c.privateKey == "" && c.phrase == "")
  {
    hide WithPhrase, OccursAt;
    var pass := PRIVATE + ":" + text;
    var info := user + ":" + pass;
    FindChar(user, ':', pass);
    assert info[..|user|] == user && info[|user| + 1..] == pass;
    PublicStaysAbsent(text);
    PrivateIsFound(text);
    NothingFound("", PRIVATE);
    EmptyPhrase();
  }

  lemma EmptyPhrase()
    ensures WithPhrase("") == ("", "")
  {
    NothingFound("", PHRASE);
  }

  /** A URL with a private key file reads back exactly if the file's name holds neither the
      public key marker nor the passphrase marker. */
  lemma KeyFormIsRead(user: string, file: string, host: string, path: string, before: Parts)
    requires PlainUser(user) && '@' !in file && IsPlace(host, path)
    ensures var url := user + ":" + (PRIVATE + ":" + file) + "@" + (host + path);
      Parse(url, before) == (true, Parts(host, path, user, "", "", file, "")) <==> Clean(file)
  {
    hide Parse, Place, Credentials, OccursAt, Find, WithPhrase;
    var info := user + ":" + (PRIVATE + ":" + file);
    InfoIsRead(info, host + path, before);
    KeyInfo(user, file, before);
    PlaceIsRead(Credentials(before, info), host, path);
    PhraseCuts(file);
    if !Absent(file, PUBLIC) { NotEmpty(file, PUBLIC); }
  }

  lemma NotEmpty(s: string, p: string)
    requires p != "" && !Absent(s, p)
    ensures s != ""
  {}

  lemma PhraseCuts(file: string)
    ensures WithPhrase(file) == (file, "") <==> Absent(file, PHRASE)
    ensures !Absent(file, PHRASE) ==> |WithPhrase(file).0| < |file|
  {}

  /** The same with a passphrase after the key file: read back exactly if the file's name holds
      no passphrase marker, and the whole no public key marker. */
  lemma PhraseFormIsRead(user: string, file: string, phrase: string, host: string, path: string, before: Parts)
    requires PlainUser(user) && '@' !in file && '@' !in phrase && IsPlace(host, path)
    ensures var url := user + ":" + (PRIVATE + ":" + (file + PHRASE + phrase)) + "@" + (host + path);
      Parse(url, before) == (true, Parts(host, path, user, "", "", file, phrase))
      <==> Absent(file, PHRASE) && Absent(file + PHRASE + phrase, PUBLIC)
  {
    hide Parse, Place, Credentials, OccursAt, Find, WithPhrase, Absent;
    var text := file + PHRASE + phrase;
    var info := user + ":" + (PRIVATE + ":" + text);
    InfoIsRead(info, host + path, before);
    KeyInfo(user, text, before);
    PlaceIsRead(Credentials(before, info), host, path);
    PhraseEndsFile(file, phrase);
    if file == "" && phrase == "" {
      assert |text| < |PUBLIC|;
      ShortHoldsNot(text);
    }
  }

  lemma ShortHoldsNot(text: string)
    requires |text| < |PUBLIC|
    ensures Absent(text, PUBLIC)
  {}

  lemma PhraseEndsFile(file: string, phrase: string)
    ensures WithPhrase(file + PHRASE + phrase) == (file, phrase) <==> Absent(file, PHRASE)
  {
    hide OccursAt, Find;
    var text := file + PHRASE + phrase;
    assert text[..|file|] == file && text[|file| + |PHRASE|..] == phrase;
    assert text == file + (PHRASE + phrase);
    FindArrived(file, PHRASE + phrase, PHRASE);
    if Absent(file, PHRASE) { FindAfterAbsent(file, PHRASE, phrase); }
  }

  // ------------------------------------------------------------- passwords and public keys

  lemma UserThen(user: string, pass: string, before: Parts)
    requires PlainUser(user)
    ensures var (pass1, publicKey) := WithPublic(pass);
      var (pass2, key) := WithPrivate(pass1);
      Credentials(before, user + ":" + pass)
      == Parts(before.host, before.path, user, pass2, publicKey, WithPhrase(key).0, WithPhrase(key).1)
  {
    hide WithPublic, WithPrivate, WithPhrase, OccursAt;
    var info := user + ":" + pass;
    FindChar(user, ':', pass);
    assert info[..|user|] == user && info[|user| + 1..] == pass;
  }

  /** A URL with a password reads back exactly if the password holds neither key marker. */
  lemma PasswordFormIsRead(user: string, pass: string, host: string, path: string, before: Parts)
    requires PlainUser(user) && '@' !in pass && IsPlace(host, path)
    ensures var url := user + ":" + pass + "@" + (host + path);
      Parse(url, before) == (true, Parts(host, path, user, pass, "", "", ""))
      <==> Absent(pass, PUBLIC) && Absent(pass, PRIVATE)
  {
    InfoIsRead(user + ":" + pass, host + path, before);
    UserThen(user, pass, before);
    PlaceIsRead(Credentials(before, user + ":" + pass), host, path);
    EmptyPhrase();
    hide Parse, Place, Credentials, OccursAt, Find, WithPhrase;
    if !Absent(pass, PUBLIC) { NotEmpty(pass, PUBLIC); }
    if !Absent(pass, PRIVATE) { NotEmpty(pass, PRIVATE); }
  }

  /** A URL with a public key file reads back, whatever the file's name holds but an `@`. */
  lemma PublicFormIsRead(user: string, file: string, host: string, path: string, before: Parts)
    requires PlainUser(user) && '@' !in file && IsPlace(host, path)
    ensures Parse(user + ":" + (PUBLIC + ":" + file) + "@" + (host + path), before)
         == (true, Parts(host, path, user, "", file, "", ""))
  {
    var pass := PUBLIC + ":" + file;
    InfoIsRead(user + ":" + pass, host + path, before);
    UserThen(user, pass, before);
    PlaceIsRead(Credentials(before, user + ":" + pass), host, path);
    EmptyPhrase();
    PublicIsFound(file);
    NothingFound("", PRIVATE);
    hide Parse, Place, Credentials, OccursAt, Find, WithPhrase, WithPublic;
  }

  lemma PublicIsFound(file: string)
    ensures WithPublic(PUBLIC + ":" + file) == ("", file)
  {
    var pass := PUBLIC + ":" + file;
    assert pass[0..|PUBLIC|] == PUBLIC;
    assert OccursAt(pass, PUBLIC, 0);
    assert pass[|PUBLIC|] == ':' && pass[|PUBLIC| + 1..] == file;
  }
}
