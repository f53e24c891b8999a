/** The repository-URL regular expressions of the plugin, as character-level matchers.

    Four patterns share one shape: an `http://` or `https://` scheme (optional in
    `extractRepoInfo`), an optional `www.`, a host (`github.com`, `gitlab.com` or either),
    a `/`, an author `[^\/]+`, a `/` and a name `[^\/]+`.  For this shape the backtracking
    of a JavaScript regular expression never changes the outcome at a given start index:
    the optional parts begin with distinct characters (`h`, `w`, `g`), and a greedy
    `[^\/]+` followed by `/` or by the end of the pattern cannot succeed with a shorter run.
    So the match at an index is computed directly, and `String.prototype.match` is the
    match at the leftmost index where one exists. */
module Patterns {
  import opened Wrappers
  import opened Text

  datatype Platform = GitHub | GitLab

  /** The platform names the badge templates are filtered by. */
  function PlatformId(p: Platform): string {
    match p
    case GitHub => "github"
    case GitLab => "gitlab"
  }

  /** The character classes of the patterns: `[^\/]`, `[^\/\s]` and `[^\]]`. */
  datatype CharClass = NotSlash | NotSlashOrSpace | NotCloseBracket

  predicate Admits(cls: CharClass, c: char) {
    match cls
    case NotSlash => c != '/'
    case NotSlashOrSpace => c != '/' && !IsSpace(c)
    case NotCloseBracket => c != ']'
  }

  /** The end of the longest run of `cls` characters starting at `i` (greedy `[…]+`). */
  function RunEnd(s: string, i: nat, cls: CharClass): (e: nat)
    requires i <= |s|
    ensures i <= e <= |s|
    ensures forall k {:trigger Admits(cls, s[k])} | i <= k < e :: Admits(cls, s[k])
    ensures e < |s| ==> !Admits(cls, s[e])
    decreases |s| - i
  {
    if i < |s| && Admits(cls, s[i]) then RunEnd(s, i + 1, cls) else i
  }

  /** A segment captured by `[^\/]+`: non-empty and free of `/`. */
  predicate IsSegment(x: string) {
    x != [] && '/' !in x
  }

  /** `https?:\/\/` at index `i`: the scheme found there, or "" when there is none. */
  function Scheme(s: string, i: nat): (r: string)
    requires i <= |s|
    ensures OccursAt(s, i, r)
    ensures r == "https://" || r == "http://" || r == ""
  {
    if OccursAt(s, i, "https://") then "https://"
    else if OccursAt(s, i, "http://") then "http://"
    else ""
  }

  /** `(www\.)?` at index `i`. */
  function Www(s: string, i: nat): (r: string)
    requires i <= |s|
    ensures OccursAt(s, i, r)
    ensures r == "www." || r == ""
  {
    if OccursAt(s, i, "www.") then "www." else ""
  }

  /** The host followed by its slash, as the patterns spell it. */
  function HostPrefix(p: Platform): string {
    match p
    case GitHub => "github.com/"
    case GitLab => "gitlab.com/"
  }

  /** `(github\.com|gitlab\.com)\/` at index `i`. */
  function HostAt(s: string, i: nat): (r: Option<Platform>)
    ensures r.Some? ==> OccursAt(s, i, HostPrefix(r.value))
    ensures r.None? ==> forall p: Platform :: !OccursAt(s, i, HostPrefix(p))
  {
    if OccursAt(s, i, "github.com/") then Some(GitHub)
    else if OccursAt(s, i, "gitlab.com/") then Some(GitLab)
    else None
  }

  /** Where the host must begin for a match starting at `i`: after the scheme and `www.`. */
  function HostIndex(s: string, i: nat): (h: nat)
    requires i <= |s|
    ensures i <= h <= |s|
  {
    var j := i + |Scheme(s, i)|;
    j + |Www(s, j)|
  }

  /** One match of a repository-URL pattern: the matched text is `s[start..end]`. */
  datatype RepoMatch = RepoMatch(start: nat, end: nat, platform: Platform, author: string, name: string)

  /** A repository-URL pattern: whether its scheme is optional, and the hosts it admits. */
  datatype UrlPattern = UrlPattern(schemeOptional: bool, hosts: set<Platform>)

  /** What follows the host of a match, from index `a` on: a `/`-free author, a `/` and the
      longest `/`-free name after it. */
  predicate IsPathFrom(s: string, a: nat, m: RepoMatch) {
    a + |m.author| + 1 + |m.name| == m.end <= |s|
    && IsSegment(m.author) && IsSegment(m.name)
    && s[a..a + |m.author|] == m.author
    && s[a + |m.author|] == '/'
    && s[m.end - |m.name|..m.end] == m.name
    && (m.end == |s| || s[m.end] == '/')
  }

  /** The host of a match at `h`, and the author and name after it. */
  predicate IsRepoPathAt(s: string, h: nat, m: RepoMatch) {
    OccursAt(s, h, HostPrefix(m.platform)) && IsPathFrom(s, h + |HostPrefix(m.platform)|, m)
  }

  /** What a match of `pat` at index `i` is: the scheme (unless optional), `www.` if present,
      an admitted host, and the author and name after it. */
  ghost predicate IsRepoMatchAt(s: string, i: nat, pat: UrlPattern, m: RepoMatch)
    requires i <= |s|
  {
    m.start == i
    && (pat.schemeOptional || Scheme(s, i) != "")
    && m.platform in pat.hosts
    && IsRepoPathAt(s, HostIndex(s, i), m)
  }

  /** The match of `pat` at index `i`, if any. */
  function RepoAt(s: string, i: nat, pat: UrlPattern): (r: Option<RepoMatch>)
    requires i <= |s|
    ensures r.Some? ==> r.value.start == i && IsRepoMatchAt(s, i, pat, r.value)
  {
    var scheme := Scheme(s, i);
    if !pat.schemeOptional && scheme == "" then None
    else
      var h := HostIndex(s, i);
      match HostAt(s, h)
      case None => None
      case Some(p) =>
        if p !in pat.hosts then None
        else PathAt(s, i, h + |HostPrefix(p)|, p)
  }

  /** The author and the name from index `a` on, after the host `p`, for a match starting
      at `i`. */
  function PathAt(s: string, i: nat, a: nat, p: Platform): (r: Option<RepoMatch>)
    requires a <= |s|
    ensures r.Some? ==> r.value.start == i && r.value.platform == p && IsPathFrom(s, a, r.value)
  {
    var ae := RunEnd(s, a, NotSlash);
    if ae == a || ae == |s| then None
    else
      var ne := RunEnd(s, ae + 1, NotSlash);
      if ne == ae + 1 then None
      else
        var m := RepoMatch(i, ne, p, s[a..ae], s[ae + 1..ne]);
        PathFromRuns(s, a, ae, m);
        Some(m)
  }

  /** Two non-empty runs of `/`-free characters, separated by a `/`, are the author and the
      name of a match. */
  lemma PathFromRuns(s: string, a: nat, ae: nat, m: RepoMatch)
    requires a < ae < |s| && ae == RunEnd(s, a, NotSlash)
    requires ae + 1 < m.end && m.end == RunEnd(s, ae + 1, NotSlash)
    requires m.author == s[a..ae] && m.name == s[ae + 1..m.end]
    ensures IsPathFrom(s, a, m)
  {
    RunSegment(s, a, ae);
    RunSegment(s, ae + 1, m.end);
  }

  /** A non-empty run of `/`-free characters is a segment. */
  lemma RunSegment(s: string, i: nat, e: nat)
    requires i <= |s| && i < e == RunEnd(s, i, NotSlash)
    ensures IsSegment(s[i..e])
  {
    forall k | 0 <= k < e - i ensures s[i..e][k] != '/' {
      assert s[i..e][k] == s[i + k] && Admits(NotSlash, s[i + k]);
    }
  }

  /** The leftmost match of `pat` at or after index `from` (`String.prototype.match`
      when `from` is 0). */
  function FirstRepo(s: string, from: nat, pat: UrlPattern): (r: Option<RepoMatch>)
    requires from <= |s|
    ensures r.Some? ==> from <= r.value.start <= |s| && RepoAt(s, r.value.start, pat) == r
    ensures r.Some? ==> forall i | from <= i < r.value.start :: RepoAt(s, i, pat).None?
    ensures r.None? ==> forall i | from <= i <= |s| :: RepoAt(s, i, pat).None?
    decreases |s| - from
  {
    var here := RepoAt(s, from, pat);
    if here.Some? then here
    else if from == |s| then None
    else
      var r := FirstRepo(s, from + 1, pat);
      assert forall i | from <= i <= from :: RepoAt(s, i, pat).None?;
      r
  }

  /** A run is exactly as long as the characters the class admits. */
  lemma RunEndAt(s: string, i: nat, cls: CharClass, e: nat)
    requires i <= e <= |s|
    requires forall k | i <= k < e :: Admits(cls, s[k])
    requires e < |s| ==> !Admits(cls, s[e])
    ensures RunEnd(s, i, cls) == e
  {
  }

  /** Where a host begins there is neither a scheme nor `www.`, so the host is found there. */
  lemma HostFoundAt(url: string, k: nat, p: Platform)
    requires OccursAt(url, k, HostPrefix(p))
    ensures Scheme(url, k) == "" && HostIndex(url, k) == k && HostAt(url, k) == Some(p)
  {
    var host := HostPrefix(p);
    assert |host| == 11;
    assert url[k] == url[k..k + 11][0] == host[0] == 'g';
    assert !OccursAt(url, k, "https://") by {
      assert "https://"[0] == 'h';
    }
    assert !OccursAt(url, k, "http://") by {
      assert "http://"[0] == 'h';
    }
    assert !OccursAt(url, k, "www.") by {
      assert "www."[0] == 'w';
    }
    if p == GitLab {
      assert "gitlab.com/" != "github.com/";
    }
  }

  /** Where a host occurs, it is the host found there, and it begins with `g`. */
  lemma HostAtPrefix(s: string, k: nat, p: Platform)
    requires OccursAt(s, k, HostPrefix(p))
    ensures HostAt(s, k) == Some(p) && k < |s| && s[k] == 'g'
  {
    assert s[k] == s[k..k + 11][0];
    if p == GitLab {
      assert s[k + 3] == s[k..k + 11][3] == 'l';
      assert "github.com/"[3] == 'h';
    }
  }

  /** Where the host index holds a host the pattern admits (and the scheme it needs), the
      match is the author and name found after the host. */
  lemma RepoAtPath(url: string, i: nat, pat: UrlPattern)
    requires i <= |url| && HostAt(url, HostIndex(url, i)).Some?
    requires HostAt(url, HostIndex(url, i)).value in pat.hosts
    requires pat.schemeOptional || Scheme(url, i) != ""
    ensures var p := HostAt(url, HostIndex(url, i)).value;
      HostIndex(url, i) + |HostPrefix(p)| <= |url|
      && RepoAt(url, i, pat) == PathAt(url, i, HostIndex(url, i) + |HostPrefix(p)|, p)
  {
  }

  /** An author, a `/` and a name running to the end of the text are the path of a match. */
  lemma PathAtLayout(url: string, i: nat, a: nat, p: Platform, author: string, name: string)
    requires IsSegment(author) && IsSegment(name)
    requires OccursAt(url, a, author) && a + |author| + 1 + |name| == |url|
    requires url[a + |author|] == '/' && url[a + |author| + 1..] == name
    ensures var r := PathAt(url, i, a, p);
      r.Some? && r.value.start == i && r.value.end == |url| && r.value.platform == p
      && r.value.author == author && r.value.name == name
  {
    var e := a + |author|;
    SlashFree(url, a, author);
    RunEndAt(url, a, NotSlash, e);
    assert OccursAt(url, e + 1, name);
    SlashFree(url, e + 1, name);
    RunEndAt(url, e + 1, NotSlash, |url|);
  }

  /** Wherever an author, a `/` and the longest name after it follow index `a`, they are
      the path found there. */
  lemma PathAtComplete(s: string, a: nat, m: RepoMatch)
    requires IsPathFrom(s, a, m)
    ensures a <= |s| && PathAt(s, m.start, a, m.platform) == Some(m)
  {
    var e := a + |m.author|;
    assert OccursAt(s, a, m.author);
    SlashFree(s, a, m.author);
    RunEndAt(s, a, NotSlash, e);
    assert OccursAt(s, e + 1, m.name);
    SlashFree(s, e + 1, m.name);
    RunEndAt(s, e + 1, NotSlash, m.end);
  }

  /** Every match of `pat` at index `i` is the one found there: with the soundness half in
      `RepoAt`'s contract, `RepoAt(s, i, pat) == Some(m)` exactly when `IsRepoMatchAt`. */
  lemma RepoAtComplete(s: string, i: nat, pat: UrlPattern, m: RepoMatch)
    requires i <= |s| && IsRepoMatchAt(s, i, pat, m)
    ensures RepoAt(s, i, pat) == Some(m)
  {
    var h := HostIndex(s, i);
    HostAtPrefix(s, h, m.platform);
    PathAtComplete(s, h + |HostPrefix(m.platform)|, m);
  }

  /** The texts `https?:\/\/` matches, and "" where the scheme is optional and absent. */
  predicate IsSchemeText(sc: string) {
    sc == "https://" || sc == "http://" || sc == ""
  }

  /** The texts `(www\.)?` matches. */
  predicate IsWwwText(w: string) {
    w == "www." || w == ""
  }

  /** The repository URL written with scheme `sc`, `www.` part `w`, host `p`, author and name. */
  function RepoUrl(sc: string, w: string, p: Platform, author: string, name: string): string {
    sc + w + HostPrefix(p) + (author + "/" + name)
  }

  /** `url` is laid out as a repository URL: the scheme `sc`, the `www.` part `w`, the host of
      `p`, the author, a `/` and the name, one after the other and nothing else. */
  predicate UrlLaidOut(url: string, sc: string, w: string, p: Platform, author: string, name: string) {
    var k := |sc| + |w|;
    var e := k + |HostPrefix(p)| + |author|;
    |url| == e + 1 + |name| && OccursAt(url, 0, sc) && OccursAt(url, |sc|, w)
    && OccursAt(url, k, HostPrefix(p)) && OccursAt(url, k + |HostPrefix(p)|, author)
    && url[e] == '/' && url[e + 1..] == name
  }

  /** Where each part of a repository URL lies. */
  lemma UrlLayout(sc: string, w: string, p: Platform, author: string, name: string)
    ensures UrlLaidOut(RepoUrl(sc, w, p, author, name), sc, w, p, author, name)
  {
    var url := RepoUrl(sc, w, p, author, name);
    var path := author + "/" + name;
    var e0 := |sc| + |w| + |HostPrefix(p)|;
    FourParts(sc, w, HostPrefix(p), path);
    PathParts(author, name);
    assert url[e0..] == path;
    assert OccursAt(url, e0, author) by {
      assert url[e0..e0 + |author|] == url[e0..][..|author|];
    }
    assert url[e0 + |author|] == url[e0..][|author|];
    assert url[e0 + |author| + 1..] == url[e0..][|author| + 1..];
  }

  /** Four texts one after the other: where each of them lies. */
  lemma FourParts(a: string, b: string, c: string, d: string)
    ensures var s := a + b + c + d;
      OccursAt(s, 0, a) && OccursAt(s, |a|, b) && OccursAt(s, |a| + |b|, c) && s[|a| + |b| + |c|..] == d
  {
    var s := a + b + c + d;
    assert s[..|a|] == a;
    assert s[|a|..|a| + |b|] == b;
    assert s[|a| + |b|..|a| + |b| + |c|] == c;
    assert s[|a| + |b| + |c|..] == d;
  }

  /** An author, a `/` and a name: where each of them lies. */
  lemma PathParts(author: string, name: string)
    ensures var path := author + "/" + name;
      |path| == |author| + 1 + |name| && path[..|author|] == author && path[|author|] == '/'
      && path[|author| + 1..] == name
  {
  }

  /** In a text that starts with a scheme, a `www.` part and a host, the scheme and the `www.`
      part are found as written and the host right after them. */
  lemma UrlFront(url: string, sc: string, w: string, p: Platform)
    requires IsSchemeText(sc) && IsWwwText(w)
    requires OccursAt(url, 0, sc) && OccursAt(url, |sc|, w) && OccursAt(url, |sc| + |w|, HostPrefix(p))
    ensures Scheme(url, 0) == sc && Www(url, |sc|) == w && HostIndex(url, 0) == |sc| + |w|
    ensures HostAt(url, |sc| + |w|) == Some(p)
  {
    HostAtPrefix(url, |sc| + |w|, p);
    SchemeFound(url, sc, w);
    WwwFound(url, |sc|, w);
  }

  /** The scheme and the host index at `u` are those at the start of the text from `u` on. */
  lemma SchemeShift(s: string, u: nat)
    requires u <= |s|
    ensures Scheme(s, u) == Scheme(s[u..], 0)
    ensures HostIndex(s, u) == u + HostIndex(s[u..], 0)
  {
    OccursShift(s, u, 0, "https://");
    OccursShift(s, u, 0, "http://");
    OccursShift(s, u, |Scheme(s, u)|, "www.");
  }

  /** A scheme text followed by a `www.` part and a `g` is the scheme found there. */
  lemma SchemeFound(url: string, sc: string, w: string)
    requires IsSchemeText(sc) && IsWwwText(w)
    requires OccursAt(url, 0, sc) && OccursAt(url, |sc|, w)
    requires |sc| + |w| < |url| && url[|sc| + |w|] == 'g'
    ensures Scheme(url, 0) == sc
  {
    if sc == "http://" {
      assert url[4] == url[..7][4] == ':';
      assert "https://"[4] == 's';
    } else if sc == "" {
      if w == "www." {
        assert url[0] == url[..4][0] == 'w';
      }
      assert "https://"[0] == 'h' && "http://"[0] == 'h';
    }
  }

  /** A `www.` part followed by a `g` is the `www.` found there. */
  lemma WwwFound(url: string, i: nat, w: string)
    requires IsWwwText(w) && OccursAt(url, i, w) && i + |w| < |url| && url[i + |w|] == 'g'
    ensures Www(url, i) == w
  {
    assert "www."[0] == 'w';
  }

  /** A URL with a scheme (unless the pattern makes it optional), `www.` or not, an admitted
      host, an author and a name matches at its start with exactly that host, author and
      name. */
  lemma RepoAtUrl(sc: string, w: string, p: Platform, author: string, name: string, pat: UrlPattern)
    requires IsSchemeText(sc) && IsWwwText(w) && IsSegment(author) && IsSegment(name)
    requires p in pat.hosts && (pat.schemeOptional || sc != "")
    ensures var url := RepoUrl(sc, w, p, author, name);
      Scheme(url, 0) == sc && HostIndex(url, 0) == |sc| + |w| && HostAt(url, |sc| + |w|) == Some(p)
      && RepoAt(url, 0, pat) == Some(RepoMatch(0, |url|, p, author, name))
  {
    UrlLayout(sc, w, p, author, name);
    RepoAtLaidOut(RepoUrl(sc, w, p, author, name), sc, w, p, |sc| + |w| + |HostPrefix(p)|, author, name, pat);
  }

  /** `RepoAtUrl` for any text laid out as a repository URL, with its path from `a` on. */
  lemma RepoAtLaidOut(url: string, sc: string, w: string, p: Platform, a: nat, author: string, name: string, pat: UrlPattern)
    requires IsSchemeText(sc) && IsWwwText(w) && IsSegment(author) && IsSegment(name)
    requires p in pat.hosts && (pat.schemeOptional || sc != "")
    requires a == |sc| + |w| + |HostPrefix(p)| && |url| == a + |author| + 1 + |name|
    requires OccursAt(url, 0, sc) && OccursAt(url, |sc|, w) && OccursAt(url, |sc| + |w|, HostPrefix(p))
    requires OccursAt(url, a, author) && url[a + |author|] == '/' && url[a + |author| + 1..] == name
    ensures Scheme(url, 0) == sc && HostIndex(url, 0) == |sc| + |w| && HostAt(url, |sc| + |w|) == Some(p)
    ensures var r := RepoAt(url, 0, pat);
      r.Some? && r.value.start == 0 && r.value.end == |url| && r.value.platform == p
      && r.value.author == author && r.value.name == name
  {
    UrlFront(url, sc, w, p);
    PathAtLayout(url, 0, a, p, author, name);
    RepoAtFromPath(url, |sc| + |w|, p, a, pat, author, name);
  }

  /** The match at the start is the path after a found host, whatever precedes it. */
  lemma RepoAtFromPath(url: string, k: nat, p: Platform, a: nat, pat: UrlPattern, author: string, name: string)
    requires k <= |url| && HostIndex(url, 0) == k && HostAt(url, k) == Some(p)
    requires p in pat.hosts && (pat.schemeOptional || Scheme(url, 0) != "")
    requires a == k + |HostPrefix(p)| <= |url|
    requires var r := PathAt(url, 0, a, p);
      r.Some? && r.value.start == 0 && r.value.end == |url|
      && r.value.platform == p && r.value.author == author && r.value.name == name
    ensures var r := RepoAt(url, 0, pat);
      r.Some? && r.value.start == 0 && r.value.end == |url| && r.value.platform == p
      && r.value.author == author && r.value.name == name
  {
    RepoAtPath(url, 0, pat);
  }

  /** The slashes of a repository URL: the two of its scheme, the one after its host and the
      one between author and name. */
  lemma SlashPositions(sc: string, w: string, p: Platform, author: string, name: string, j: nat)
    requires IsSchemeText(sc) && IsWwwText(w) && IsSegment(author) && IsSegment(name)
    requires j < |RepoUrl(sc, w, p, author, name)| && RepoUrl(sc, w, p, author, name)[j] == '/'
    ensures (sc != "" && |sc| - 2 <= j < |sc|) || j == |sc| + |w| + 10 || j == |sc| + |w| + 11 + |author|
  {
    UrlLayout(sc, w, p, author, name);
    SlashPositionsLaidOut(RepoUrl(sc, w, p, author, name), sc, w, p, author, name, j);
  }

  /** `SlashPositions` for any text laid out as a repository URL. */
  lemma SlashPositionsLaidOut(url: string, sc: string, w: string, p: Platform, author: string, name: string, j: nat)
    requires IsSchemeText(sc) && IsWwwText(w) && IsSegment(author) && IsSegment(name)
    requires UrlLaidOut(url, sc, w, p, author, name) && j < |url| && url[j] == '/'
    ensures (sc != "" && |sc| - 2 <= j < |sc|) || j == |sc| + |w| + 10 || j == |sc| + |w| + 11 + |author|
  {
    SlashFreeParts(url, sc, w, p, author, name);
  }

  /** Where a repository URL holds no `/`: the scheme before its `//`, the `www.` part, the host
      before its `/`, the author and the name. */
  lemma SlashFreeParts(url: string, sc: string, w: string, p: Platform, author: string, name: string)
    requires IsSchemeText(sc) && IsWwwText(w) && IsSegment(author) && IsSegment(name)
    requires UrlLaidOut(url, sc, w, p, author, name)
    ensures forall x | 0 <= x < |sc| - 2 :: url[x] != '/'
    ensures forall x | |sc| <= x < |sc| + |w| + 10 :: url[x] != '/'
    ensures forall x | |sc| + |w| + 11 <= x < |sc| + |w| + 11 + |author| :: url[x] != '/'
    ensures forall x | |sc| + |w| + 12 + |author| <= x < |url| :: url[x] != '/'
  {
    HostSlash(p);
    SlashFreeFront(url, sc, w, p, author, name);
    SlashFreePath(url, sc, w, p, author, name);
  }

  /** No `/` in the scheme before its `//`, in the `www.` part or in the host before its `/`. */
  lemma SlashFreeFront(url: string, sc: string, w: string, p: Platform, author: string, name: string)
    requires IsSchemeText(sc) && IsWwwText(w)
    requires UrlLaidOut(url, sc, w, p, author, name)
    ensures forall x | 0 <= x < |sc| - 2 :: url[x] != '/'
    ensures forall x | |sc| <= x < |sc| + |w| + 10 :: url[x] != '/'
  {
    HostSlash(p);
    var k := |sc| + |w|;
    SchemeSlashFree(sc);
    forall x | 0 <= x < |sc| - 2 ensures url[x] != '/' {
      assert url[x] == sc[x];
    }
    forall x | |sc| <= x < k ensures url[x] != '/' { SlashFreeAt(url, |sc|, w, x); }
    forall x | k <= x < k + 10 ensures url[x] != '/' {
      assert url[x] == HostPrefix(p)[x - k] == HostPrefix(p)[..10][x - k];
    }
  }

  /** A scheme holds no `/` before its `//`. */
  lemma SchemeSlashFree(sc: string)
    requires IsSchemeText(sc)
    ensures forall x | 0 <= x < |sc| - 2 :: sc[x] != '/'
  {
    assert "https://"[..6] == "https:" && "http://"[..5] == "http:";
  }

  /** No `/` in the author or in the name. */
  lemma SlashFreePath(url: string, sc: string, w: string, p: Platform, author: string, name: string)
    requires IsSegment(author) && IsSegment(name)
    requires UrlLaidOut(url, sc, w, p, author, name)
    requires |HostPrefix(p)| == 11
    ensures forall x | |sc| + |w| + 11 <= x < |sc| + |w| + 11 + |author| :: url[x] != '/'
    ensures forall x | |sc| + |w| + 12 + |author| <= x < |url| :: url[x] != '/'
  {
    var a := |sc| + |w| + 11;
    var e := a + |author|;
    forall x | a <= x < e ensures url[x] != '/' { SlashFreeAt(url, a, author, x); }
    assert OccursAt(url, e + 1, name);
    forall x | e + 1 <= x < |url| ensures url[x] != '/' { SlashFreeAt(url, e + 1, name, x); }
  }

  /** Both hosts are ten characters without `/` and then a `/`. */
  lemma HostSlash(p: Platform)
    ensures |HostPrefix(p)| == 11 && '/' !in HostPrefix(p)[..10] && HostPrefix(p)[10] == '/'
  {
    match p
    case GitHub => assert HostPrefix(p)[..10] == "github.com";
    case GitLab => assert HostPrefix(p)[..10] == "gitlab.com";
  }

  /** The character at `j` is no slash where a slash-free text occurs around it. */
  lemma SlashFreeAt(s: string, lo: nat, x: string, j: nat)
    requires OccursAt(s, lo, x) && '/' !in x && lo <= j < lo + |x|
    ensures s[j] != '/'
  {
    assert s[j] == s[lo..lo + |x|][j - lo] == x[j - lo];
  }

  /** No slash lies where a slash-free text occurs. */
  lemma SlashFree(s: string, lo: nat, x: string)
    requires OccursAt(s, lo, x) && '/' !in x
    ensures forall i | lo <= i < lo + |x| :: s[i] != '/'
  {
    forall i | lo <= i < lo + |x| ensures s[i] != '/' {
      assert s[i] == s[lo..lo + |x|][i - lo];
    }
  }

  /** Where a scheme is found, it starts with `h` and holds two slashes in a row. */
  lemma SchemeSlashes(s: string, i: nat) returns (j: nat)
    requires i <= |s| && Scheme(s, i) != ""
    ensures s[i] == 'h' && j + 1 < |s| && s[j] == '/' && s[j + 1] == '/'
    ensures j == i + |Scheme(s, i)| - 2
  {
    var sc := Scheme(s, i);
    assert s[i..i + |sc|] == sc;
    j := i + |sc| - 2;
    assert s[i] == sc[0] && s[j] == sc[|sc| - 2] && s[j + 1] == sc[|sc| - 1];
  }

  /** A repository URL holds no scheme after its first character, so no pattern that needs a
      scheme matches after its start. */
  lemma LaterSchemes(sc: string, w: string, p: Platform, author: string, name: string)
    requires IsSchemeText(sc) && IsWwwText(w) && IsSegment(author) && IsSegment(name)
    ensures var url := RepoUrl(sc, w, p, author, name);
      forall i | 1 <= i <= |url| :: Scheme(url, i) == ""
  {
    UrlLayout(sc, w, p, author, name);
    LaterSchemesLaidOut(RepoUrl(sc, w, p, author, name), sc, w, p, author, name);
  }

  /** `LaterSchemes` for any text laid out as a repository URL. */
  lemma LaterSchemesLaidOut(url: string, sc: string, w: string, p: Platform, author: string, name: string)
    requires IsSchemeText(sc) && IsWwwText(w) && IsSegment(author) && IsSegment(name)
    requires UrlLaidOut(url, sc, w, p, author, name)
    ensures forall i | 1 <= i <= |url| :: Scheme(url, i) == ""
  {
    forall i | 1 <= i <= |url| ensures Scheme(url, i) == "" {
      if Scheme(url, i) != "" {
        SchemeOnlyAtStart(url, sc, w, p, author, name, i);
      }
    }
  }

  /** In a text laid out as a repository URL, a scheme starts at its first character only. */
  lemma SchemeOnlyAtStart(url: string, sc: string, w: string, p: Platform, author: string, name: string, i: nat)
    requires IsSchemeText(sc) && IsWwwText(w) && IsSegment(author) && IsSegment(name)
    requires UrlLaidOut(url, sc, w, p, author, name) && i <= |url| && Scheme(url, i) != ""
    ensures i == 0
  {
    var j := SchemeSlashes(url, i);
    assert sc != "" && j == |sc| - 2 by {
      SlashPositionsLaidOut(url, sc, w, p, author, name, j);
      SlashPositionsLaidOut(url, sc, w, p, author, name, j + 1);
      SlashPair(|sc|, |w|, |author|, j);
    }
    assert |Scheme(url, i)| == 7 || |Scheme(url, i)| == 8;
    assert (|sc| == 7 || |sc| == 8) && (|sc| == 8 ==> sc == "https://");
    assert sc == "https://" ==> url[1] == url[0..|sc|][1] == 't';
  }

  /** Two `/` side by side in a repository URL can only be the `//` of its scheme. */
  lemma SlashPair(sc: int, w: int, author: int, j: int)
    ensures w >= 0 && author > 0
      && ((sc != 0 && sc - 2 <= j < sc) || j == sc + w + 10 || j == sc + w + 11 + author)
      && ((sc != 0 && sc - 2 <= j + 1 < sc) || j + 1 == sc + w + 10 || j + 1 == sc + w + 11 + author)
      ==> sc != 0 && j == sc - 2
  {
  }
}
