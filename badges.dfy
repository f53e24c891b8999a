/** The badge resolver (src/badges.ts): which repository a URL names, and which badge
    templates apply to it, with the author and name placeholders filled in. */
module Badges {
  import opened Wrappers
  import opened Text
  import opened Patterns
  import opened Settings
  import opened Lists

  // ---------------------------------------------------------------- the repository of a URL

  /** `/https?:\/\/(www\.)?github\.com\/([^\/]+)\/([^\/]+)/` and its GitLab twin. */
  const GitHubPattern := UrlPattern(false, {GitHub})
  const GitLabPattern := UrlPattern(false, {GitLab})

  /** The repository a URL names: its platform and its author and name segments. */
  datatype Repo = Repo(platform: Platform, author: string, name: string)

  /** The platform detection of `getBadges`: the GitHub pattern is tried first, then the GitLab
      one; the author and name are the second and third groups of the leftmost match. */
  function RepoOf(url: string): (r: Option<Repo>)
    ensures r.Some? ==> IsSegment(r.value.author) && IsSegment(r.value.name)
    ensures r.Some? ==> var m := FirstRepo(url, 0, UrlPattern(false, {r.value.platform}));
      m.Some? && m.value.author == r.value.author && m.value.name == r.value.name
    ensures r.Some? && r.value.platform == GitLab ==> FirstRepo(url, 0, GitHubPattern).None?
    ensures r.None? <==> FirstRepo(url, 0, GitHubPattern).None? && FirstRepo(url, 0, GitLabPattern).None?
  {
    match FirstRepo(url, 0, GitHubPattern)
    case Some(m) =>
      assert m.platform == GitHub;
      Some(Repo(GitHub, m.author, m.name))
    case None =>
      match FirstRepo(url, 0, GitLabPattern)
      case Some(m) =>
        assert m.platform == GitLab;
        Some(Repo(GitLab, m.author, m.name))
      case None => None
  }

  /** A match of either host's pattern anywhere in the text is recognised; a GitHub match
      with no GitHub match before it names the repository. */
  lemma RepoOfComplete(url: string, i: nat, p: Platform, m: RepoMatch)
    requires i <= |url| && IsRepoMatchAt(url, i, UrlPattern(false, {p}), m)
    ensures RepoOf(url).Some?
    ensures p == GitHub && (forall j | 0 <= j < i :: RepoAt(url, j, GitHubPattern).None?) ==>
      RepoOf(url) == Some(Repo(GitHub, m.author, m.name))
  {
    RepoAtComplete(url, i, UrlPattern(false, {p}), m);
    if p == GitHub && forall j | 0 <= j < i :: RepoAt(url, j, GitHubPattern).None? {
      var f := FirstRepo(url, 0, GitHubPattern);
      assert f.Some? && f.value.start == i;
    }
  }

  /** A repository URL with a scheme, `www.` or not, names that repository. */
  lemma RepoOfUrl(sc: string, w: string, p: Platform, author: string, name: string)
    requires (sc == "https://" || sc == "http://") && IsWwwText(w)
    requires IsSegment(author) && IsSegment(name)
    ensures RepoOf(RepoUrl(sc, w, p, author, name)) == Some(Repo(p, author, name))
  {
    var url := RepoUrl(sc, w, p, author, name);
    var pat := UrlPattern(false, {p});
    RepoAtUrl(sc, w, p, author, name, pat);
    assert FirstRepo(url, 0, pat) == RepoAt(url, 0, pat);
    if p == GitLab {
      GitLabUrlNotGitHub(sc, w, author, name);
    }
  }

  /** The GitHub pattern matches nowhere in a GitLab repository URL: not at its start, where
      the host is GitLab's, and not after it, where no scheme follows. */
  lemma GitLabUrlNotGitHub(sc: string, w: string, author: string, name: string)
    requires (sc == "https://" || sc == "http://") && IsWwwText(w)
    requires IsSegment(author) && IsSegment(name)
    ensures FirstRepo(RepoUrl(sc, w, GitLab, author, name), 0, GitHubPattern).None?
  {
    var url := RepoUrl(sc, w, GitLab, author, name);
    forall i | 0 <= i <= |url| ensures RepoAt(url, i, GitHubPattern).None? {
      NoGitHubAt(sc, w, author, name, i);
    }
  }

  /** No GitHub match starts at any one index of a GitLab repository URL. */
  lemma NoGitHubAt(sc: string, w: string, author: string, name: string, i: nat)
    requires (sc == "https://" || sc == "http://") && IsWwwText(w)
    requires IsSegment(author) && IsSegment(name)
    requires i <= |RepoUrl(sc, w, GitLab, author, name)|
    ensures RepoAt(RepoUrl(sc, w, GitLab, author, name), i, GitHubPattern).None?
  {
    var url := RepoUrl(sc, w, GitLab, author, name);
    if i == 0 {
      assert HostAt(url, HostIndex(url, 0)) == Some(GitLab) by {
        RepoAtUrl(sc, w, GitLab, author, name, GitLabPattern);
      }
    } else {
      assert Scheme(url, i) == "" by {
        LaterSchemes(sc, w, GitLab, author, name);
      }
    }
  }

  // ---------------------------------------------------------------- the template title

  /** `title` is the group of `/!\[([^\]]+)\]/` at index `i`: `![`, a non-empty `]`-free
      title, and the `]` that closes it. */
  predicate IsTitleAt(s: string, i: nat, title: string) {
    OccursAt(s, i, "![") && title != "" && ']' !in title
    && OccursAt(s, i + 2, title) && OccursAt(s, i + 2 + |title|, "]")
  }

  /** `/!\[([^\]]+)\]/` at index `i`: the title of a markdown image, if one starts there. */
  function TitleAt(s: string, i: nat): (r: Option<string>)
    requires i <= |s|
    ensures r.Some? ==> IsTitleAt(s, i, r.value)
  {
    if !OccursAt(s, i, "![") then None
    else
      var e := RunEnd(s, i + 2, NotCloseBracket);
      if e == i + 2 || e == |s| then None else Some(s[i + 2..e])
  }

  /** Every title at index `i` is the one found there: with the contract of `TitleAt`,
      `TitleAt(s, i) == Some(title)` exactly when `IsTitleAt(s, i, title)`. */
  lemma TitleAtComplete(s: string, i: nat, title: string)
    requires IsTitleAt(s, i, title)
    ensures i <= |s| && TitleAt(s, i) == Some(title)
  {
    var e := i + 2 + |title|;
    assert s[e] == s[e..e + 1][0] == ']';
    forall k | i + 2 <= k < e ensures Admits(NotCloseBracket, s[k]) {
      assert s[k] == s[i + 2..e][k - i - 2] == title[k - i - 2];
    }
    RunEndAt(s, i + 2, NotCloseBracket, e);
  }

  /** The title of the leftmost match of `/!\[([^\]]+)\]/` at or after `from`. */
  function TitleFrom(s: string, from: nat): (r: Option<string>)
    requires from <= |s|
    ensures r.Some? ==> exists i | from <= i <= |s| ::
      TitleAt(s, i) == r && forall j | from <= j < i :: TitleAt(s, j).None?
    ensures r.None? ==> forall i | from <= i <= |s| :: TitleAt(s, i).None?
    decreases |s| - from
  {
    var here := TitleAt(s, from);
    if here.Some? then here
    else if from == |s| then None
    else
      var r := TitleFrom(s, from + 1);
      assert forall i | from <= i <= from :: TitleAt(s, i).None?;
      r
  }

  /** A title at `k` with none between `from` and `k` is the title found from `from` on,
      wherever `k` lies. */
  lemma {:induction false} TitleFromComplete(s: string, from: nat, k: nat, title: string)
    requires from <= k && IsTitleAt(s, k, title)
    requires forall j | from <= j < k :: TitleAt(s, j).None?
    ensures k <= |s| && TitleFrom(s, from) == Some(title)
    decreases k - from
  {
    TitleAtComplete(s, k, title);
    if from < k {
      TitleFromComplete(s, from + 1, k, title);
    }
  }

  /** `badge.match(/!\[([^\]]+)\]/)`, its first group. */
  function TitleOf(s: string): Option<string> {
    TitleFrom(s, 0)
  }

  // ---------------------------------------------------------------- selection and substitution

  /** The filter of `getBadgesForRepo`: a template is used for `platform` when it is not
      empty, not blank, not commented out with a leading `#`, has a `![title]`, and its
      lower-cased title starts with `platform`.  The test `badge.trim() === ''` is written
      as `IsBlank`, which the contract of `Trim` shows to be the same condition. */
  predicate Selected(platform: string, t: BadgeSetting)
  {
    if t == "" || IsBlank(t) || StartsWith(t, "#") then false
    else
      match TitleOf(t)
      case None => false
      case Some(title) => StartsWith(LowerAscii(title), platform)
  }

  /** The map of `getBadgesForRepo`: the first occurrence of the author placeholder is
      replaced, then the first occurrence of the name placeholder in that result. */
  function Substitute(t: BadgeSetting, authorPlaceholder: string, author: string,
                      namePlaceholder: string, name: string): string
  {
    ReplaceFirst(ReplaceFirst(t, authorPlaceholder, author), namePlaceholder, name)
  }

  /** The filter of `getBadgesForRepo` as a function value. */
  function Selector(platform: string): BadgeSetting -> bool {
    t => Selected(platform, t)
  }

  /** The map of `getBadgesForRepo` as a function value. */
  function Filler(authorPlaceholder: string, author: string, namePlaceholder: string, name: string): BadgeSetting -> string {
    t => Substitute(t, authorPlaceholder, author, namePlaceholder, name)
  }

  /** `getBadgesForRepo`: the selected templates, in order, with placeholders substituted. */
  function GetBadgesForRepo(platform: string, author: string, name: string,
                            templates: seq<BadgeSetting>,
                            authorPlaceholder: string, namePlaceholder: string): (r: seq<string>)
    ensures |r| <= |templates|
    ensures forall j | 0 <= j < |r| :: exists t | t in templates && Selected(platform, t) ::
      r[j] == Substitute(t, authorPlaceholder, author, namePlaceholder, name)
  {
    var fill := Filler(authorPlaceholder, author, namePlaceholder, name);
    var kept := Filter(Selector(platform), templates);
    var r := Map(fill, kept);
    forall j | 0 <= j < |r|
      ensures exists t | t in templates && Selected(platform, t) ::
        r[j] == Substitute(t, authorPlaceholder, author, namePlaceholder, name)
    {
      MapAt(fill, kept, j);
      FilterMembership(Selector(platform), templates, kept[j]);
    }
    r
  }

  /** `getBadges`: the badges of the repository a URL names, or none when the URL matches
      neither pattern. */
  function GetBadges(url: string, templates: seq<BadgeSetting>,
                     authorPlaceholder: string, namePlaceholder: string): (r: seq<string>)
    ensures RepoOf(url).None? ==> r == []
    ensures RepoOf(url).Some? ==>
      var repo := RepoOf(url).value;
      r == GetBadgesForRepo(PlatformId(repo.platform), repo.author, repo.name, templates,
                            authorPlaceholder, namePlaceholder)
    ensures |r| <= |templates|
  {
    match RepoOf(url)
    case None => []
    case Some(repo) =>
      GetBadgesForRepo(PlatformId(repo.platform), repo.author, repo.name, templates,
                       authorPlaceholder, namePlaceholder)
  }

  /** Empty, blank and commented-out templates, and templates without a `![title]`, are never
      selected. */
  lemma NeverSelected(platform: string, t: BadgeSetting)
    requires t == "" || Trim(t) == "" || StartsWith(t, "#") || TitleOf(t).None?
    ensures !Selected(platform, t)
  {
    TrimBlank(t);
  }

  /** A template that starts with a visible character other than `#` is selected by its
      title alone. */
  lemma SelectedByTitle(platform: string, t: BadgeSetting)
    requires t != [] && !IsSpace(t[0]) && t[0] != '#'
    ensures Selected(platform, t) <==>
      TitleOf(t).Some? && StartsWith(LowerAscii(TitleOf(t).value), platform)
  {
    assert !IsBlank(t);
    assert t[..1][0] == t[0];
  }

  /** Substituting into a template whose placeholders each occur first where expected puts
      `author` and `name` exactly there. */
  lemma SubstituteAt(pre: string, mid: string, post: string,
                     authorPlaceholder: string, author: string, namePlaceholder: string, name: string)
    requires authorPlaceholder != "" && namePlaceholder != ""
    requires authorPlaceholder[0] !in pre
    requires namePlaceholder[0] !in pre + author + mid
    requires '$' !in author && '$' !in name
    ensures Substitute(pre + authorPlaceholder + mid + namePlaceholder + post,
                       authorPlaceholder, author, namePlaceholder, name)
         == pre + author + mid + name + post
  {
    var t := pre + authorPlaceholder + mid + namePlaceholder + post;
    var rest := mid + namePlaceholder + post;
    assert t == pre + authorPlaceholder + rest;
    assert t[..|pre|] == pre;
    assert t[|pre|..|pre| + |authorPlaceholder|] == authorPlaceholder;
    assert t[|pre| + |authorPlaceholder|..] == rest;
    IndexOfAt(t, authorPlaceholder, |pre|);
    var t1 := ReplaceFirst(t, authorPlaceholder, author);
    assert t1 == pre + author + rest;
    var front := pre + author + mid;
    assert t1 == front + namePlaceholder + post;
    assert t1[..|front|] == front;
    assert t1[|front|..|front| + |namePlaceholder|] == namePlaceholder;
    assert t1[|front| + |namePlaceholder|..] == post;
    IndexOfAt(t1, namePlaceholder, |front|);
  }

  /** A template that begins with a markdown image is titled by that image. */
  lemma TitleOfLeading(title: string, rest: string)
    requires title != "" && ']' !in title
    ensures TitleOf("![" + title + "]" + rest) == Some(title)
  {
    var t := "![" + title + "]" + rest;
    assert t[..2] == "![";
    assert t[2..2 + |title|] == title;
    assert t[2 + |title|..3 + |title|] == "]";
    TitleAtComplete(t, 0, title);
  }

  /** `getBadgesForRepo` distributes over concatenation of template lists. */
  lemma ResolveAppend(platform: string, author: string, name: string,
                      xs: seq<BadgeSetting>, ys: seq<BadgeSetting>,
                      authorPlaceholder: string, namePlaceholder: string)
    ensures GetBadgesForRepo(platform, author, name, xs + ys, authorPlaceholder, namePlaceholder)
         == GetBadgesForRepo(platform, author, name, xs, authorPlaceholder, namePlaceholder)
            + GetBadgesForRepo(platform, author, name, ys, authorPlaceholder, namePlaceholder)
  {
    var keep := Selector(platform);
    FilterAppend(keep, xs, ys);
    MapAppend(Filler(authorPlaceholder, author, namePlaceholder, name), Filter(keep, xs), Filter(keep, ys));
  }

  /** Resolving a list is resolving its first `n` templates, then the rest. */
  lemma ResolveSplitAt(platform: string, author: string, name: string, templates: seq<BadgeSetting>,
                       n: nat, authorPlaceholder: string, namePlaceholder: string)
    requires n <= |templates|
    ensures GetBadgesForRepo(platform, author, name, templates, authorPlaceholder, namePlaceholder)
         == GetBadgesForRepo(platform, author, name, templates[..n], authorPlaceholder, namePlaceholder)
            + GetBadgesForRepo(platform, author, name, templates[n..], authorPlaceholder, namePlaceholder)
  {
    TakeDrop(templates, n);
    ResolveAppend(platform, author, name, templates[..n], templates[n..], authorPlaceholder, namePlaceholder);
  }

  /** When no template is selected, nothing is resolved. */
  lemma ResolveNone(platform: string, author: string, name: string, templates: seq<BadgeSetting>,
                    authorPlaceholder: string, namePlaceholder: string)
    requires forall k | 0 <= k < |templates| :: !Selected(platform, templates[k])
    ensures GetBadgesForRepo(platform, author, name, templates, authorPlaceholder, namePlaceholder) == []
  {
    FilterNone(Selector(platform), templates);
  }

  /** When every template is selected, each is resolved, in order. */
  lemma ResolveAll(platform: string, author: string, name: string, templates: seq<BadgeSetting>,
                   authorPlaceholder: string, namePlaceholder: string)
    requires forall k | 0 <= k < |templates| :: Selected(platform, templates[k])
    ensures var r := GetBadgesForRepo(platform, author, name, templates, authorPlaceholder, namePlaceholder);
      |r| == |templates| &&
      forall k | 0 <= k < |templates| :: r[k] == Substitute(templates[k], authorPlaceholder, author, namePlaceholder, name)
  {
    var fill := Filler(authorPlaceholder, author, namePlaceholder, name);
    FilterAll(Selector(platform), templates);
    forall k | 0 <= k < |templates|
      ensures Map(fill, templates)[k] == Substitute(templates[k], authorPlaceholder, author, namePlaceholder, name)
    {
      MapAt(fill, templates, k);
    }
  }

  /** The indices at or after `from` of the templates `platform` selects, in increasing order. */
  function SelectedFrom(platform: string, templates: seq<BadgeSetting>, from: nat): (ks: seq<nat>)
    requires from <= |templates|
    ensures forall j | 0 <= j < |ks| :: from <= ks[j] < |templates| && Selected(platform, templates[ks[j]])
    ensures forall j, j' | 0 <= j < j' < |ks| :: ks[j] < ks[j']
    ensures forall k | from <= k < |templates| && Selected(platform, templates[k]) :: k in ks
  {
    KeptFrom(Selector(platform), templates, from)
  }

  /** `getBadgesForRepo` is an order-preserving image of the selected templates: its `j`-th
      badge is the `j`-th selected template with its placeholders substituted. */
  lemma ResolveSelected(platform: string, author: string, name: string,
                        templates: seq<BadgeSetting>, from: nat,
                        authorPlaceholder: string, namePlaceholder: string)
    requires from <= |templates|
    ensures var r := GetBadgesForRepo(platform, author, name, templates[from..], authorPlaceholder, namePlaceholder);
      var ks := SelectedFrom(platform, templates, from);
      |r| == |ks| &&
      forall j | 0 <= j < |ks| :: r[j] == Substitute(templates[ks[j]], authorPlaceholder, author, namePlaceholder, name)
  {
    var keep := Selector(platform);
    var fill := Filler(authorPlaceholder, author, namePlaceholder, name);
    var kept := Filter(keep, templates[from..]);
    var ks := SelectedFrom(platform, templates, from);
    FilterIndices(keep, templates, from);
    forall j | 0 <= j < |ks|
      ensures Map(fill, kept)[j] == Substitute(templates[ks[j]], authorPlaceholder, author, namePlaceholder, name)
    {
      MapAt(fill, kept, j);
    }
  }

  /** Commenting a template out with a leading `#` removes it from every resolution and
      changes nothing else. */
  lemma CommentOut(platform: string, author: string, name: string,
                   before: seq<BadgeSetting>, t: BadgeSetting, after: seq<BadgeSetting>,
                   authorPlaceholder: string, namePlaceholder: string)
    ensures GetBadgesForRepo(platform, author, name, before + ["#" + t] + after, authorPlaceholder, namePlaceholder)
         == GetBadgesForRepo(platform, author, name, before + after, authorPlaceholder, namePlaceholder)
  {
    var c := "#" + t;
    assert StartsWith(c, "#") by {
      assert c[..1] == "#";
    }
    ResolveNone(platform, author, name, [c], authorPlaceholder, namePlaceholder);
    ResolveAppend(platform, author, name, before + [c], after, authorPlaceholder, namePlaceholder);
    ResolveAppend(platform, author, name, before, [c], authorPlaceholder, namePlaceholder);
    ResolveAppend(platform, author, name, before, after, authorPlaceholder, namePlaceholder);
  }

  /** A template in which neither placeholder occurs is left as it is. */
  lemma SubstituteWithoutPlaceholders(t: BadgeSetting, authorPlaceholder: string, author: string,
                                      namePlaceholder: string, name: string)
    requires forall j: nat :: !OccursAt(t, j, authorPlaceholder)
    requires forall j: nat :: !OccursAt(t, j, namePlaceholder)
    ensures Substitute(t, authorPlaceholder, author, namePlaceholder, name) == t
  {
    assert IndexOf(t, authorPlaceholder).None?;
  }
}
