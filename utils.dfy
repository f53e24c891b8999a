/** The repository helpers (src/utils.ts): `extractRepoInfo`, whose pattern makes the scheme and
    `www.` optional, and `formatBadgeMarkdown`. */
module Utils {
  import opened Wrappers
  import opened Text
  import opened Patterns
  import opened Settings
  import opened Badges

  /** `/(?:https?:\/\/)?(?:www\.)?(github\.com|gitlab\.com)\/([^\/]+)\/([^\/]+)/` */
  const RepoInfoPattern := UrlPattern(true, {GitHub, GitLab})

  datatype RepoInfo = RepoInfo(author: string, name: string)

  /** `github.com/` or `gitlab.com/` occurs at `k`, followed by a non-empty `/`-free segment
      ending at `e`, a `/`, and at least one character other than `/`. */
  predicate RepoPathAt(url: string, k: nat, p: Platform, e: nat) {
    OccursAt(url, k, HostPrefix(p)) && k + |HostPrefix(p)| < e && e + 1 < |url|
    && url[e] == '/' && url[e + 1] != '/'
    && forall j | k + |HostPrefix(p)| <= j < e :: url[j] != '/'
  }

  /** `info` is found right after a host at `k`: the author, a `/`, and the name, which runs
      to the end of the URL or to the next `/`. */
  predicate RepoInfoAt(url: string, k: nat, p: Platform, info: RepoInfo) {
    var a := k + |HostPrefix(p)|;
    var e := a + |info.author| + 1 + |info.name|;
    OccursAt(url, k, HostPrefix(p)) && OccursAt(url, a, info.author + "/" + info.name)
    && (e == |url| || url[e] == '/')
  }

  /** What a match of the pattern captures is found right after its host. */
  lemma MatchInfo(url: string, h: nat, m: RepoMatch)
    requires IsRepoPathAt(url, h, m)
    ensures RepoInfoAt(url, h, m.platform, RepoInfo(m.author, m.name))
  {
    SegmentsAt(url, h + |HostPrefix(m.platform)|, m.author, m.name);
  }

  /** An author, a slash and a name found one after the other form `author/name`. */
  lemma SegmentsAt(url: string, a: nat, author: string, name: string)
    requires a + |author| + 1 + |name| <= |url|
    requires url[a..a + |author|] == author && url[a + |author|] == '/'
    requires url[a + |author| + 1 + |name| - |name|..a + |author| + 1 + |name|] == name
    ensures OccursAt(url, a, author + "/" + name)
  {
    var e := a + |author|;
    assert url[a..e + 1 + |name|] == url[a..e] + [url[e]] + url[e + 1..e + 1 + |name|];
  }

  /** `extractRepoInfo`: the author and name of the leftmost match, or nothing. */
  function ExtractRepoInfo(url: string): (r: Option<RepoInfo>)
    ensures r.Some? ==> IsSegment(r.value.author) && IsSegment(r.value.name)
    ensures r.Some? ==> var m := FirstRepo(url, 0, RepoInfoPattern);
      m.Some? && RepoInfoAt(url, HostIndex(url, m.value.start), m.value.platform, r.value)
    ensures r.None? ==> forall i | 0 <= i <= |url| :: RepoAt(url, i, RepoInfoPattern).None?
  {
    match FirstRepo(url, 0, RepoInfoPattern)
    case None => None
    case Some(m) =>
      MatchInfo(url, HostIndex(url, m.start), m);
      Some(RepoInfo(m.author, m.name))
  }

  /** A host followed by an author, a slash and a name always yields a match at the host. */
  lemma RepoAtHost(url: string, k: nat, p: Platform, e: nat)
    requires RepoPathAt(url, k, p, e)
    ensures RepoAt(url, k, RepoInfoPattern).Some?
  {
    HostFoundAt(url, k, p);
    var a := k + |HostPrefix(p)|;
    RunEndAt(url, a, NotSlash, e);
    assert RunEnd(url, e + 1, NotSlash) > e + 1 by {
      assert Admits(NotSlash, url[e + 1]);
    }
  }

  /** A found author and name give a host followed by two non-empty `/`-free segments. */
  lemma InfoPath(url: string, k: nat, p: Platform, info: RepoInfo)
    requires RepoInfoAt(url, k, p, info) && IsSegment(info.author) && IsSegment(info.name)
    ensures RepoPathAt(url, k, p, k + |HostPrefix(p)| + |info.author|)
  {
    var a := k + |HostPrefix(p)|;
    var e := a + |info.author|;
    var both := info.author + "/" + info.name;
    assert url[a..a + |both|] == both;
    assert url[e] == both[|info.author|] == '/';
    assert url[e + 1] == both[|info.author| + 1] == info.name[0];
    forall j | a <= j < e ensures url[j] != '/' {
      assert url[j] == both[j - a] == info.author[j - a];
    }
  }

  /** `extractRepoInfo` returns null exactly when no `github.com/` or `gitlab.com/` in the URL
      is followed by two non-empty `/`-free segments. */
  lemma ExtractRepoInfoNone(url: string)
    ensures ExtractRepoInfo(url).None? <==>
      forall k: nat, p: Platform, e: nat :: !RepoPathAt(url, k, p, e)
  {
    var r := ExtractRepoInfo(url);
    if r.None? {
      forall k: nat, p: Platform, e: nat ensures !RepoPathAt(url, k, p, e) {
        if RepoPathAt(url, k, p, e) {
          RepoAtHost(url, k, p, e);
        }
      }
    } else {
      var m := FirstRepo(url, 0, RepoInfoPattern).value;
      InfoPath(url, HostIndex(url, m.start), m.platform, r.value);
    }
  }

  /** A repository URL, with or without its scheme and `www.`, yields its author and name;
      neither the scheme nor `www.` is needed. */
  lemma ExtractRepoInfoOfUrl(sc: string, w: string, p: Platform, author: string, name: string)
    requires IsSchemeText(sc) && IsWwwText(w) && IsSegment(author) && IsSegment(name)
    ensures ExtractRepoInfo(RepoUrl(sc, w, p, author, name)) == Some(RepoInfo(author, name))
  {
    var url := RepoUrl(sc, w, p, author, name);
    RepoAtUrl(sc, w, p, author, name, RepoInfoPattern);
    assert FirstRepo(url, 0, RepoInfoPattern) == RepoAt(url, 0, RepoInfoPattern);
  }

  /** `formatBadgeMarkdown`: a shields.io static badge titled `<badgeType> badge`. */
  function FormatBadgeMarkdown(badgeType: string, value: string): (r: string)
    ensures ']' !in badgeType ==> TitleOf(r) == Some(badgeType + " badge")
  {
    var title := badgeType + " badge";
    var rest := "(" + ShieldsIo + "badge/" + badgeType + "-" + value + "-brightgreen)";
    var r := "![" + title + "]" + rest;
    if ']' in badgeType then r
    else
      assert ']' !in " badge";
      TitleOfLeading(title, rest);
      r
  }

  /** A formatted badge, used as a template, is selected for a platform exactly when its
      lower-cased title starts with the platform name. */
  lemma FormattedBadgeSelected(platform: string, badgeType: string, value: string)
    requires ']' !in badgeType
    ensures Selected(platform, FormatBadgeMarkdown(badgeType, value))
        <==> StartsWith(LowerAscii(badgeType + " badge"), platform)
  {
    var r := FormatBadgeMarkdown(badgeType, value);
    assert r[0] == '!';
    SelectedByTitle(platform, r);
  }
}
