/** The URL of a remote reduced to a name that two clones of one remote share, in whatever form either
    recorded it. */
module Origin {
  import opened Wrappers
  import opened Text

  predicate IsLetter(c: char) {
    'a' <= c <= 'z' || 'A' <= c <= 'Z'
  }

  predicate IsDigit(c: char) {
    '0' <= c <= '9'
  }

  /** Split at the first such character. */
  function SplitFirst(s: string, c: char): Option<(string, string)> {
    if s == "" then None
    else if s[0] == c then Some(("", s[1..]))
    else match SplitFirst(s[1..], c)
      case None => None
      case Some((before, after)) => Some(([s[0]] + before, after))
  }

  /** Split at the last one. */
  function SplitLast(s: string, c: char): Option<(string, string)> {
    if s == "" then None
    else if s[|s| - 1] == c then Some((s[..|s| - 1], ""))
    else match SplitLast(s[..|s| - 1], c)
      case None => None
      case Some((before, after)) => Some((before, after + [s[|s| - 1]]))
  }

  function AfterLast(s: string, c: char): string {
    match SplitLast(s, c) case None => s case Some((_, after)) => after
  }

  /** Trailing slashes and a trailing `.git` taken off. */
  function StripGit(value: string): string {
    var bare := WithoutTrailing(value, '/');
    if EndsWith(bare, ".git") then WithoutTrailing(bare[..|bare| - 4], '/') else bare
  }

  /** The rest of a URL after its scheme. */
  function SchemeRest(url: string): Option<string> {
    match Find(url, "://")
    case None => None
    case Some(at) =>
      var (scheme, rest) := (url[..at], url[at + 3..]);
      if scheme == "" || rest == "" || exists i :: 0 <= i < |scheme| && !IsLetter(scheme[i]) then None else Some(rest)
  }

  /** The host with a default port dropped. */
  function HostOf(hostport: string): string {
    match SplitLast(hostport, ':')
    case Some((host, port)) =>
      if exists i :: 0 <= i < |port| && !IsDigit(port[i]) then Lowered(hostport)
      else if port in {"22", "80", "443"} then Lowered(host)
      else Lowered(host) + ":" + port
    case None => Lowered(hostport)
  }

  /** `[user@]host[:port][/path]`. */
  function HostPath(rest: string): string {
    var name := AfterLast(rest, '@');
    var (hostport, path) := SplitFirst(name, '/').GetOr((name, ""));
    var host := HostOf(hostport);
    if StripGit(path) == "" then host else host + "/" + StripGit(path)
  }

  /** `[user@]host:path`. */
  function Scp(url: string): Option<string> {
    match SplitFirst(AfterLast(url, '@'), ':')
    case None => None
    case Some((host, path)) =>
      if host == "" || '/' in host || path == "" then None else Some(Lowered(host) + "/" + StripGit(path))
  }

  function Normalize(url: string): string {
    var trimmed := Trim(url);
    if "file://" <= trimmed then StripGit(trimmed[7..])
    else
      match SchemeRest(trimmed)
      case Some(rest) => HostPath(rest)
      case None =>
        match Scp(trimmed)
        case Some(name) => name
        case None => StripGit(trimmed)
  }

  // Splitting.

  lemma {:induction false} FirstSplit(a: string, c: char, b: string)
    requires c !in a
    ensures SplitFirst(a + [c] + b, c) == Some((a, b))
  {
    var s := a + [c] + b;
    if a == "" {
      assert s == [c] + b && s[1..] == b;
    } else {
      assert a[0] in a && forall x :: x in a[1..] ==> x in a;
      FirstSplit(a[1..], c, b);
      assert s[1..] == a[1..] + [c] + b;
      assert [a[0]] + a[1..] == a;
    }
  }

  lemma {:induction false} NoFirst(s: string, c: char)
    requires c !in s
    ensures SplitFirst(s, c) == None
  {
    if s != "" {
      assert s[0] in s && forall x :: x in s[1..] ==> x in s;
      NoFirst(s[1..], c);
    }
  }

  lemma {:induction false} NoLast(s: string, c: char)
    requires c !in s
    ensures SplitLast(s, c) == None
  {
    if s != "" {
      assert s[|s| - 1] in s && forall x :: x in s[..|s| - 1] ==> x in s;
      NoLast(s[..|s| - 1], c);
    }
  }

  lemma {:induction false} LastSplit(a: string, c: char, b: string)
    requires c !in b
    ensures SplitLast(a + [c] + b, c) == Some((a, b))
  {
    var s := a + [c] + b;
    if b == "" {
      assert s == a + [c] && s[..|s| - 1] == a;
    } else {
      var n := |b| - 1;
      assert b[n] in b && forall x :: x in b[..n] ==> x in b;
      LastSplit(a, c, b[..n]);
      assert s[..|s| - 1] == a + [c] + b[..n] && s[|s| - 1] == b[n];
      assert b[..n] + [b[n]] == b;
    }
  }

  // Endings.

  predicate Slashes(s: string) {
    forall i :: 0 <= i < |s| ==> s[i] == '/'
  }

  lemma {:induction false} SlashesAreTaken(s: string, slashes: string)
    requires Slashes(slashes) && (s == "" || s[|s| - 1] != '/')
    ensures WithoutTrailing(s + slashes, '/') == s
  {
    var t := s + slashes;
    if slashes == "" {
      assert t == s;
    } else {
      var front := slashes[..|slashes| - 1];
      SlashesAreTaken(s, front);
      assert t[..|t| - 1] == s + front && t[|t| - 1] == '/';
    }
  }

  /** A path as it names a repository: something, with no slash and no `.git` at its end. */
  predicate IsBare(path: string) {
    path != "" && path[|path| - 1] != '/' && !EndsWith(path, ".git")
  }

  /** What may follow it: slashes, or `.git` with slashes before and after. */
  ghost predicate IsEnding(end: string) {
    Slashes(end) || exists a, b :: Slashes(a) && Slashes(b) && end == a + ".git" + b
  }

  lemma EndingIsTaken(path: string, end: string)
    requires IsBare(path) && IsEnding(end)
    ensures StripGit(path + end) == path
  {
    if Slashes(end) {
      SlashesAreTaken(path, end);
    } else {
      var a, b :| Slashes(a) && Slashes(b) && end == a + ".git" + b;
      var named := path + a + ".git";
      assert path + end == named + b;
      SlashesAreTaken(named, b);
      assert named[..|named| - 4] == path + a && named[|named| - 4..] == ".git";
      SlashesAreTaken(path, a);
    }
  }

  // Remotes, however they are written.

  /** A host without user or port, and a path a host serves. */
  ghost predicate IsRemote(host: string, path: string) {
    && host != "" && '@' !in host && '/' !in host && ':' !in host && Spaceless(host)
    && IsBare(path) && '@' !in path && path[0] != '/' && Spaceless(path)
  }

  predicate Spaceless(s: string) {
    forall i :: 0 <= i < |s| ==> !IsSpace(s[i])
  }

  /** What may stand for the user, up to the `@` and with it. */
  predicate IsUser(user: string) {
    user == "" || user[|user| - 1] == '@'
  }

  /** A URL in parts, all but host and path. */
  ghost predicate UrlParts(scheme: string, user: string, port: string, end: string) {
    && scheme != "" && scheme != "file" && (forall i :: 0 <= i < |scheme| ==> IsLetter(scheme[i]))
    && IsUser(user) && port in {"", ":22", ":80", ":443"} && IsEnding(end)
  }

  /** `scheme://[user@]host[:default port]/path`. */
  ghost predicate IsUrl(url: string, host: string, path: string) {
    exists scheme, user, port, end ::
      url == scheme + "://" + (user + (host + port + "/" + (path + end))) && UrlParts(scheme, user, port, end)
  }

  /** `[user@]host:path`. */
  ghost predicate IsScp(url: string, host: string, path: string) {
    exists user, end ::
      && url == user + (host + ":" + (path + end))
      && IsUser(user) && ':' !in user && (user != "" ==> !IsSpace(user[0])) && IsEnding(end)
  }

  lemma UserIsDropped(user: string, name: string)
    requires IsUser(user) && '@' !in name
    ensures AfterLast(user + name, '@') == name
  {
    if user == "" {
      assert user + name == name;
      NoLast(name, '@');
    } else {
      LastSplit(user[..|user| - 1], '@', name);
      assert user + name == user[..|user| - 1] + ['@'] + name;
    }
  }

  lemma DefaultPortIsDropped(host: string, port: string)
    requires ':' !in host && port in {"", ":22", ":80", ":443"}
    ensures HostOf(host + port) == Lowered(host)
  {
    if port == "" {
      assert host + port == host;
      NoLast(host, ':');
    } else {
      var digits := port[1..];
      assert digits in {"22", "80", "443"} && ':' !in digits;
      assert host + port == host + [':'] + digits;
      LastSplit(host, ':', digits);
    }
  }

  lemma EndingHasNone(end: string, c: char)
    requires IsEnding(end) && c in {'@', ':'}
    ensures c !in end
  {
    if !Slashes(end) {
      var a, b :| Slashes(a) && Slashes(b) && end == a + ".git" + b;
    }
  }

  lemma HostPathOfUrl(host: string, path: string, user: string, port: string, end: string)
    requires IsRemote(host, path) && IsUser(user) && port in {"", ":22", ":80", ":443"} && IsEnding(end)
    ensures HostPath(user + (host + port + "/" + (path + end))) == Lowered(host) + "/" + path
  {
    var name := host + port + "/" + (path + end);
    EndingHasNone(end, '@');
    assert '@' !in port && '/' !in port;
    UserIsDropped(user, name);
    assert name == (host + port) + ['/'] + (path + end);
    FirstSplit(host + port, '/', path + end);
    DefaultPortIsDropped(host, port);
    EndingIsTaken(path, end);
  }

  lemma NothingToTrim(s: string)
    requires s != "" && !IsSpace(s[0]) && !IsSpace(s[|s| - 1])
    ensures Trim(s) == s
  {
  }

  lemma LastIsNoSpace(front: string, path: string, end: string)
    requires path != "" && Spaceless(path) && IsEnding(end)
    ensures var s := front + (path + end); s != "" && !IsSpace(s[|s| - 1])
  {
    var s := front + (path + end);
    if end == "" {
      assert s[|s| - 1] == path[|path| - 1];
    } else {
      assert s[|s| - 1] == end[|end| - 1];
      if !Slashes(end) {
        var a, b :| Slashes(a) && Slashes(b) && end == a + ".git" + b;
        assert end[|end| - 1] == if b == "" then 't' else '/';
      }
    }
  }

  lemma FoundThere(s: string, pattern: string, at: nat)
    requires FirstOccursAt(s, pattern, at)
    ensures Find(s, pattern) == Some(at)
  {
    assert OccursAt(s, pattern, at);
    assert Find(s, pattern).Some?;
  }

  lemma SchemeIsFound(scheme: string, rest: string)
    requires scheme != "" && rest != "" && forall i :: 0 <= i < |scheme| ==> IsLetter(scheme[i])
    ensures SchemeRest(scheme + "://" + rest) == Some(rest)
    ensures "file://" <= scheme + "://" + rest ==> scheme == "file"
  {
    var url := scheme + "://" + rest;
    forall k: nat | k < |scheme|
      ensures !OccursAt(url, "://", k) && url[k] != ':'
    {
      assert url[k] == scheme[k];
      assert url[k..k + 3][0] == url[k];
    }
    assert url[|scheme|..|scheme| + 3] == "://";
    FoundThere(url, "://", |scheme|);
    assert url[..|scheme|] == scheme && url[|scheme| + 3..] == rest;
    if "file://" <= url {
      assert url[4] == ':' && url[0] == 'f' && url[1] == 'i' && url[2] == 'l' && url[3] == 'e';
      assert url[|scheme|] == ':';
      assert |scheme| == 4;
    }
  }

  lemma UrlIsItself(scheme: string, user: string, host: string, port: string, path: string, end: string)
    requires UrlParts(scheme, user, port, end) && IsRemote(host, path)
    ensures
      var url := scheme + "://" + (user + (host + port + "/" + (path + end)));
      Trim(url) == url
  {
    var url := scheme + "://" + (user + (host + port + "/" + (path + end)));
    LastIsNoSpace(scheme + "://" + (user + (host + port + "/")), path, end);
    assert url == scheme + "://" + (user + (host + port + "/")) + (path + end);
    assert url[0] == scheme[0] && IsLetter(scheme[0]);
    hide IsEnding, Spaceless;
    NothingToTrim(url);
  }

  lemma NormalizeParts(scheme: string, user: string, host: string, port: string, path: string, end: string)
    requires UrlParts(scheme, user, port, end) && IsRemote(host, path)
    ensures Normalize(scheme + "://" + (user + (host + port + "/" + (path + end)))) == Lowered(host) + "/" + path
  {
    var rest := user + (host + port + "/" + (path + end));
    UrlIsItself(scheme, user, host, port, path, end);
    SchemeIsFound(scheme, rest);
    HostPathOfUrl(host, path, user, port, end);
    hide SchemeRest, HostPath, Trim, IsEnding, IsRemote, Lowered;
  }

  lemma NormalizeOfUrl(url: string, host: string, path: string)
    requires IsRemote(host, path) && IsUrl(url, host, path)
    ensures Normalize(url) == Lowered(host) + "/" + path
  {
    hide Normalize, IsRemote, UrlParts, Lowered;
    var scheme, user, port, end :|
      url == scheme + "://" + (user + (host + port + "/" + (path + end))) && UrlParts(scheme, user, port, end);
    NormalizeParts(scheme, user, host, port, path, end);
  }

  lemma NotAFile(url: string, colon: nat)
    requires colon + 1 < |url| && url[colon] == ':' && url[colon + 1] != '/'
    requires forall k :: 0 <= k < colon ==> url[k] != ':'
    ensures !("file://" <= url)
  {
    var file := "file://";
    assert file[4] == ':' && file[5] == '/' && forall k :: 0 <= k < 4 ==> file[k] != ':';
    if |url| >= |file| {
      var head := url[..|file|];
      assert head[4] == url[4] && head[5] == url[5] && (colon < 4 ==> head[colon] == url[colon]);
      assert head != file;
    }
  }

  lemma NoSchemeInScp(front: string, path: string)
    requires ':' !in front && path != "" && path[0] != '/'
    ensures SchemeRest(front + ":" + path) == None && !("file://" <= front + ":" + path)
  {
    var (url, p) := (front + ":" + path, |front|);
    assert url[p] == ':' && url[p + 1] == path[0];
    assert forall k :: 0 <= k < p ==> url[k] == front[k] && url[k] != ':';
    NotAFile(url, p);
    var found := Find(url, "://");
    if found.Some? {
      var at := found.value;
      assert OccursAt(url, "://", at);
      assert url[at] == url[at..at + 3][0] && url[at + 1] == url[at..at + 3][1];
      assert at > p;
      assert url[..at][p] == ':' && !IsLetter(':');
    }
  }

  lemma ScpIsItself(user: string, host: string, path: string, end: string)
    requires IsUser(user) && (user != "" ==> !IsSpace(user[0])) && IsEnding(end) && IsRemote(host, path)
    ensures var url := user + (host + ":" + (path + end)); Trim(url) == url
  {
    var url := user + (host + ":" + (path + end));
    LastIsNoSpace(user + (host + ":"), path, end);
    assert url == user + (host + ":") + (path + end);
    assert url[0] == if user == "" then host[0] else user[0];
    hide IsEnding;
    NothingToTrim(url);
  }

  lemma ScpOfParts(user: string, host: string, path: string, end: string)
    requires IsUser(user) && IsEnding(end) && IsRemote(host, path)
    ensures Scp(user + (host + ":" + (path + end))) == Some(Lowered(host) + "/" + path)
  {
    var name := host + ":" + (path + end);
    EndingHasNone(end, '@');
    UserIsDropped(user, name);
    assert name == host + [':'] + (path + end);
    FirstSplit(host, ':', path + end);
    EndingIsTaken(path, end);
  }

  lemma NormalizeOfScp(url: string, host: string, path: string)
    requires IsRemote(host, path) && IsScp(url, host, path)
    ensures Normalize(url) == Lowered(host) + "/" + path
  {
    hide Scp, IsEnding, Lowered, SchemeRest, Trim;
    var user, end :|
      && url == user + (host + ":" + (path + end))
      && IsUser(user) && ':' !in user && (user != "" ==> !IsSpace(user[0])) && IsEnding(end);
    ScpOfParts(user, host, path, end);
    ScpIsItself(user, host, path, end);
    assert url == (user + host) + ":" + (path + end);
    NoSchemeInScp(user + host, path + end);
  }

  lemma LowerHasNoSlash(s: string)
    requires '/' !in s
    ensures '/' !in Lowered(s)
  {
    var lower := Lowered(s);
    assert forall i :: 0 <= i < |lower| ==> s[i] in s && lower[i] != '/';
  }

  /** Whatever scheme, user, default port or ending two clones recorded, and in either form: they have one name
      exactly when host, but for its case, and path are one. */
  lemma OneNameExactly(url: string, host: string, path: string, url': string, host': string, path': string)
    requires IsRemote(host, path) && (IsUrl(url, host, path) || IsScp(url, host, path))
    requires IsRemote(host', path') && (IsUrl(url', host', path') || IsScp(url', host', path'))
    ensures Normalize(url) == Normalize(url') <==> Lowered(host) == Lowered(host') && path == path'
  {
    if IsUrl(url, host, path) { NormalizeOfUrl(url, host, path); } else { NormalizeOfScp(url, host, path); }
    if IsUrl(url', host', path') { NormalizeOfUrl(url', host', path'); } else { NormalizeOfScp(url', host', path'); }
    LowerHasNoSlash(host);
    LowerHasNoSlash(host');
    hide *;
    FirstSplit(Lowered(host), '/', path);
    FirstSplit(Lowered(host'), '/', path');
    assert Lowered(host) + "/" + path == Lowered(host) + ['/'] + path;
    assert Lowered(host') + "/" + path' == Lowered(host') + ['/'] + path';
  }

  /** An `@` in a path is taken for the end of a user, and with the user goes the host: two remotes of different
      hosts have one name. */
  lemma OneNameForTwoHosts()
    ensures Normalize("https://one/a@b/c") == Normalize("https://two/a@b/c")
  {
    hide Normalize, Lowered;
    AsParts();
    NameOfB("one/a@", "https://one/a@b/c");
    NameOfB("two/a@", "https://two/a@b/c");
  }

  lemma AsParts()
    ensures "https" + "://" + ("one/a@" + "b/c") == "https://one/a@b/c"
    ensures "https" + "://" + ("two/a@" + "b/c") == "https://two/a@b/c"
  {
  }

  lemma NameOfB(user: string, url: string)
    requires IsUser(user) && url == "https" + "://" + (user + "b/c")
    ensures Normalize(url) == Lowered("b") + "/" + "c"
  {
    assert "b" + "" + "/" + ("c" + "") == "b/c";
    BIsARemote();
    HttpsParts(user);
    hide *;
    NormalizeParts("https", user, "b", "", "c", "");
  }

  lemma BIsARemote()
    ensures IsRemote("b", "c")
  {
    assert !EndsWith("c", ".git");
  }

  lemma HttpsParts(user: string)
    requires IsUser(user)
    ensures UrlParts("https", user, "", "")
  {
    assert Slashes("");
  }

  /** A path on this machine, as a clone may have been made from. */
  ghost predicate IsFolder(path: string) {
    IsBare(path) && path[0] == '/' && ':' !in path && !IsSpace(path[|path| - 1])
  }

  /** It is its own name. */
  lemma FolderIsItsName(path: string)
    requires IsFolder(path)
    ensures Normalize(path) == path
  {
    NothingToTrim(path);
    assert path + "" == path && Slashes("");
    EndingIsTaken(path, "");
    NotFound(path, "://");
    LastSplitJoins(path, '@');
    NoFirst(AfterLast(path, '@'), ':');
    assert "file://"[0] == 'f';
  }

  lemma NotFound(s: string, pattern: string)
    requires pattern != "" && pattern[0] !in s
    ensures Find(s, pattern) == None
  {
    forall k: nat
      ensures !OccursAt(s, pattern, k)
    {
      if k + |pattern| <= |s| {
        assert s[k..k + |pattern|][0] == s[k];
      }
    }
  }

  lemma {:induction false} LastSplitJoins(s: string, c: char)
    ensures SplitLast(s, c).Some? ==> SplitLast(s, c).value.0 + [c] + SplitLast(s, c).value.1 == s
  {
    if s != "" && s[|s| - 1] != c {
      LastSplitJoins(s[..|s| - 1], c);
    }
  }
}
