/** The two editor commands (src/commands.ts): rewriting every line of a note so that each
    repository link is followed by its badges, and inserting the badges of the link under the
    cursor.  The editor and the vault are replaced by their inputs and results: a note's text,
    a line and a cursor column in, the new text or a single insertion out. */
module Commands {
  import opened Wrappers
  import opened Text
  import opened Patterns
  import opened Settings
  import opened Lists
  import opened Badges

  // ---------------------------------------------------------------- the link pattern

  /** One match of the link pattern
      `/\[([^\]]+)\]\((https?:\/\/(?:www\.)?(github\.com|gitlab\.com)\/[^\/\s]+\/[^\/\s]+)\)/`:
      the matched text is `s[start..end]`, `url` is its second group, which begins at
      `urlStart`, and `group` holds the host, the author and the name inside that URL. */
  datatype LinkMatch = LinkMatch(start: nat, urlStart: nat, end: nat, url: string, group: UrlGroup)

  /** The inside of a link's URL group: where its author begins (`path`), the `/` after the
      author (`slash`), the `)` that closes the group (`close`), and its host, author and name. */
  datatype UrlGroup = UrlGroup(path: nat, slash: nat, close: nat,
                               platform: Platform, author: string, name: string)

  /** A segment captured by `[^\/\s]+`: non-empty, without `/` and without white space. */
  predicate IsLinkSegment(x: string) {
    x != [] && LinkChars(x)
  }

  /** Every character of `x` is one `[^\/\s]` admits. */
  predicate LinkChars(x: string)
    decreases |x|
  {
    x == [] || (Admits(NotSlashOrSpace, x[0]) && LinkChars(x[1..]))
  }

  /** A run of admitted characters in `s[a..b]` is made of link characters. */
  lemma {:induction false} LinkCharsOf(s: string, a: nat, b: nat)
    requires a <= b <= |s|
    requires forall k | a <= k < b :: Admits(NotSlashOrSpace, s[k])
    ensures LinkChars(s[a..b])
    decreases b - a
  {
    if a < b {
      LinkCharsOf(s, a + 1, b);
      assert s[a..b][1..] == s[a + 1..b];
    }
  }

  /** What follows the host in the URL group and the `\)` after it: the author at `g.path`, the
      `/` at `g.slash`, the name and the `)` at `g.close`.  The name `[^\/\s]+` runs greedily and
      the pattern then backtracks to a `)`, so the name ends at the last `)` of the run of
      characters other than `/` and white space. */
  predicate IsNamePathAt(s: string, g: UrlGroup) {
    g.path + |g.author| == g.slash && g.slash + 1 + |g.name| == g.close < |s|
    && OccursAt(s, g.path, g.author) && s[g.slash] == '/'
    && s[g.slash + 1..g.close] == g.name && s[g.close] == ')'
    && IsLinkSegment(g.author) && IsLinkSegment(g.name) && NoCloseInRun(s, g.close + 1)
  }

  /** From index `j` on, no `)` comes before the run of characters other than `/` and white
      space ends. */
  predicate NoCloseInRun(s: string, j: nat)
    decreases |s| - j
  {
    j >= |s| || !Admits(NotSlashOrSpace, s[j]) || (s[j] != ')' && NoCloseInRun(s, j + 1))
  }

  /** No `)` before the end of the run from `j` means no `)` in the rest of the run. */
  lemma {:induction false} NoCloseInRunFrom(s: string, j: nat)
    requires j <= |s|
    requires forall k | j <= k < RunEnd(s, j, NotSlashOrSpace) :: s[k] != ')'
    ensures NoCloseInRun(s, j)
    decreases |s| - j
  {
    if j < |s| && Admits(NotSlashOrSpace, s[j]) {
      NoCloseInRunFrom(s, j + 1);
    }
  }

  /** No `)` in the rest of the run from `j` means no `)` before the end of that run. */
  lemma {:induction false} NoCloseInRunTo(s: string, j: nat)
    requires j <= |s| && NoCloseInRun(s, j)
    ensures forall k | j <= k < RunEnd(s, j, NotSlashOrSpace) :: s[k] != ')'
    decreases |s| - j
  {
    if j < |s| && Admits(NotSlashOrSpace, s[j]) {
      NoCloseInRunTo(s, j + 1);
    }
  }

  /** What the URL group and the `\)` after it match at `u`: a scheme, `www.` if present, an
      admitted host, and the author, name and `)` after it. */
  predicate IsUrlGroupAt(s: string, u: nat, g: UrlGroup) {
    u <= |s| && Scheme(s, u) != ""
    && OccursAt(s, HostIndex(s, u), HostPrefix(g.platform))
    && g.path == HostIndex(s, u) + |HostPrefix(g.platform)| && IsNamePathAt(s, g)
  }

  /** The last `)` in `s[lo..hi]`. */
  function LastClose(s: string, lo: nat, hi: nat): (r: Option<nat>)
    requires hi <= |s|
    ensures r.Some? ==> lo <= r.value < hi && s[r.value] == ')'
    ensures r.Some? ==> forall j | r.value < j < hi :: s[j] != ')'
    ensures r.None? ==> forall j | lo <= j < hi :: s[j] != ')'
    decreases hi
  {
    if hi <= lo then None
    else if s[hi - 1] == ')' then Some(hi - 1)
    else LastClose(s, lo, hi - 1)
  }

  /** A `)` with no `)` after it before `hi` is the last one. */
  lemma {:induction false} LastCloseAt(s: string, lo: nat, hi: nat, c: nat)
    requires lo <= c < hi <= |s| && s[c] == ')'
    requires forall j | c < j < hi :: s[j] != ')'
    ensures LastClose(s, lo, hi) == Some(c)
    decreases hi
  {
    if hi - 1 != c {
      LastCloseAt(s, lo, hi - 1, c);
    }
  }

  /** Skipping admitted characters does not move the end of a run. */
  lemma {:induction false} RunEndSkip(s: string, i: nat, j: nat, cls: CharClass)
    requires i <= j <= |s|
    requires forall k | i <= k < j :: Admits(cls, s[k])
    ensures RunEnd(s, i, cls) == RunEnd(s, j, cls)
    decreases j - i
  {
    if i < j {
      RunEndSkip(s, i + 1, j, cls);
    }
  }

  /** The URL group of the link pattern at `u` and the `)` closing it.  The scheme, `www.` and
      the host are found as in the repository patterns. */
  function LinkUrlEnd(s: string, u: nat): (r: Option<UrlGroup>)
    requires u <= |s|
    ensures r.Some? ==> u <= r.value.path < r.value.close < |s|
  {
    if Scheme(s, u) == "" then None
    else
      var h := HostIndex(s, u);
      match HostAt(s, h)
      case None => None
      case Some(p) => LinkPathAt(s, h + |HostPrefix(p)|, p)
  }

  /** The author, the name and the `)` after the host `p`, from index `a` on: the author runs
      up to a `/`, and the name is cut at the last `)` of its run. */
  function LinkPathAt(s: string, a: nat, p: Platform): (r: Option<UrlGroup>)
    requires a <= |s|
    ensures r.Some? ==> r.value.platform == p && a == r.value.path < r.value.slash < r.value.close < |s|
  {
    var ae := RunEnd(s, a, NotSlashOrSpace);
    if ae == a || ae == |s| || s[ae] != '/' then None
    else
      var ne := RunEnd(s, ae + 1, NotSlashOrSpace);
      match LastClose(s, ae + 2, ne)
      case None => None
      case Some(c) =>
        Some(UrlGroup(a, ae, c, p, s[a..ae], s[ae + 1..c]))
  }

  /** The runs and the `)` that `LinkPathAt` finds make an author, a name and a `)`. */
  lemma NamePathFound(s: string, ne: nat, g: UrlGroup)
    requires g.path < g.slash < |s| && g.slash == RunEnd(s, g.path, NotSlashOrSpace) && s[g.slash] == '/'
    requires ne == RunEnd(s, g.slash + 1, NotSlashOrSpace) && LastClose(s, g.slash + 2, ne) == Some(g.close)
    requires g.author == s[g.path..g.slash] && g.name == s[g.slash + 1..g.close]
    ensures IsNamePathAt(s, g)
  {
    LinkCharsOf(s, g.path, g.slash);
    LinkCharsOf(s, g.slash + 1, g.close);
    RunEndSkip(s, g.slash + 1, g.close + 1, NotSlashOrSpace);
    NoCloseInRunFrom(s, g.close + 1);
  }

  /** What `LinkPathAt` finds is an author, a `/`, a name and a `)`. */
  lemma NamePathSound(s: string, a: nat, p: Platform, g: UrlGroup)
    requires a <= |s| && LinkPathAt(s, a, p) == Some(g)
    ensures IsNamePathAt(s, g)
  {
    var ae := RunEnd(s, a, NotSlashOrSpace);
    var ne := RunEnd(s, ae + 1, NotSlashOrSpace);
    NamePathFound(s, ne, g);
  }

  /** Every author, name and `)` after a host are the ones `LinkPathAt` finds. */
  lemma NamePathComplete(s: string, g: UrlGroup)
    requires g.path <= |s| && IsNamePathAt(s, g)
    ensures LinkPathAt(s, g.path, g.platform) == Some(g)
  {
    NamePathRuns(s, g);
    LinkPathAtFrom(s, g.path, g.platform, g.slash, RunEnd(s, g.slash + 1, NotSlashOrSpace), g.close);
    assert s[g.path..g.slash] == g.author;
  }

  /** The runs of an author and a name: the author's ends at its `/`, and the last `)` of the
      name's is the one after the name. */
  lemma NamePathRuns(s: string, g: UrlGroup)
    requires IsNamePathAt(s, g)
    ensures RunEnd(s, g.path, NotSlashOrSpace) == g.slash
    ensures LastClose(s, g.slash + 2, RunEnd(s, g.slash + 1, NotSlashOrSpace)) == Some(g.close)
  {
    AuthorRunEnd(s, g.path, g.slash, g.author);
    assert OccursAt(s, g.slash + 1, g.name);
    NameLastClose(s, g.slash + 1, g.slash + 2, g.name, g.close);
  }

  /** An author run ending at a `/` and a `)` in the name run are the path `LinkPathAt` finds. */
  lemma LinkPathAtFrom(s: string, a: nat, p: Platform, ae: nat, ne: nat, c: nat)
    requires a < ae < |s| && ae == RunEnd(s, a, NotSlashOrSpace) && s[ae] == '/'
    requires ne == RunEnd(s, ae + 1, NotSlashOrSpace) && LastClose(s, ae + 2, ne) == Some(c)
    ensures ae + 1 <= c <= |s|
    ensures LinkPathAt(s, a, p) == Some(UrlGroup(a, ae, c, p, s[a..ae], s[ae + 1..c]))
  {
  }

  /** The run of characters other than `/` and white space from an author ends at the `/`. */
  lemma AuthorRunEnd(s: string, a: nat, e: nat, x: string)
    requires OccursAt(s, a, x) && IsLinkSegment(x) && a + |x| == e < |s| && s[e] == '/'
    ensures RunEnd(s, a, NotSlashOrSpace) == e
  {
    LinkSegmentAt(s, a, x);
    RunEndAt(s, a, NotSlashOrSpace, e);
  }

  /** A name followed by `)` with no `)` in the rest of its run: that `)` is the last one of
      the run from the name's start. */
  lemma NameLastClose(s: string, b: nat, lo: nat, x: string, c: nat)
    requires lo == b + 1 && OccursAt(s, b, x) && IsLinkSegment(x) && b + |x| == c < |s| && s[c] == ')'
    requires NoCloseInRun(s, c + 1)
    ensures LastClose(s, lo, RunEnd(s, b, NotSlashOrSpace)) == Some(c)
  {
    LinkSegmentAt(s, b, x);
    assert Admits(NotSlashOrSpace, s[c]);
    RunEndSkip(s, b, c + 1, NotSlashOrSpace);
    NoCloseInRunTo(s, c + 1);
    LastCloseAt(s, lo, RunEnd(s, b, NotSlashOrSpace), c);
  }

  /** Where a link segment occurs, every character is one the segment admits. */
  lemma LinkSegmentAt(s: string, a: nat, x: string)
    requires OccursAt(s, a, x) && IsLinkSegment(x)
    ensures forall k | a <= k < a + |x| :: Admits(NotSlashOrSpace, s[k])
  {
    LinkCharsAt(s, a, x);
  }

  /** Where link characters occur, every character is admitted. */
  lemma {:induction false} LinkCharsAt(s: string, a: nat, x: string)
    requires OccursAt(s, a, x) && LinkChars(x)
    ensures forall k | a <= k < a + |x| :: Admits(NotSlashOrSpace, s[k])
    decreases |x|
  {
    if x != [] {
      assert s[a] == x[0];
      assert OccursAt(s, a + 1, x[1..]);
      LinkCharsAt(s, a + 1, x[1..]);
    }
  }

  /** What `LinkUrlEnd` finds is a URL group. */
  lemma UrlGroupSound(s: string, u: nat, g: UrlGroup)
    requires u <= |s| && LinkUrlEnd(s, u) == Some(g)
    ensures IsUrlGroupAt(s, u, g)
  {
    LinkUrlEndParts(s, u, g);
    var p := HostAt(s, HostIndex(s, u)).value;
    NamePathSound(s, HostIndex(s, u) + |HostPrefix(p)|, p, g);
  }

  /** What `LinkUrlEnd` found: a scheme, a host, and the author, name and `)` after it. */
  lemma LinkUrlEndParts(s: string, u: nat, g: UrlGroup)
    requires u <= |s| && LinkUrlEnd(s, u) == Some(g)
    ensures Scheme(s, u) != "" && HostAt(s, HostIndex(s, u)).Some?
    ensures var p := HostAt(s, HostIndex(s, u)).value;
      HostIndex(s, u) + |HostPrefix(p)| <= |s|
      && LinkUrlEnd(s, u) == LinkPathAt(s, HostIndex(s, u) + |HostPrefix(p)|, p)
  {
  }

  /** `LinkUrlEnd` finds exactly the URL groups. */
  lemma UrlGroupExactly(s: string, u: nat, g: UrlGroup)
    requires u <= |s|
    ensures LinkUrlEnd(s, u) == Some(g) <==> IsUrlGroupAt(s, u, g)
  {
    if LinkUrlEnd(s, u) == Some(g) {
      UrlGroupSound(s, u, g);
    }
    if IsUrlGroupAt(s, u, g) {
      UrlGroupComplete(s, u, g);
    }
  }

  /** Every URL group is the one `LinkUrlEnd` finds. */
  lemma UrlGroupComplete(s: string, u: nat, g: UrlGroup)
    requires IsUrlGroupAt(s, u, g)
    ensures LinkUrlEnd(s, u) == Some(g)
  {
    HostAtPrefix(s, HostIndex(s, u), g.platform);
    NamePathComplete(s, g);
    UrlGroupFromHost(s, u, g);
  }

  /** A scheme, the host of a group and the group's path after it: `LinkUrlEnd` finds the
      group. */
  lemma UrlGroupFromHost(s: string, u: nat, g: UrlGroup)
    requires u <= |s| && Scheme(s, u) != "" && HostAt(s, HostIndex(s, u)).Some?
    requires HostAt(s, HostIndex(s, u)).value == g.platform
    requires g.path == HostIndex(s, u) + |HostPrefix(g.platform)| <= |s|
    requires LinkPathAt(s, g.path, g.platform) == Some(g)
    ensures LinkUrlEnd(s, u) == Some(g)
  {
    LinkUrlEndFrom(s, u, g.platform, g.path);
  }

  /** After a scheme and the host `p`, the URL group is whatever the path after the host gives. */
  lemma LinkUrlEndFrom(s: string, u: nat, p: Platform, path: nat)
    requires u <= |s| && Scheme(s, u) != "" && HostAt(s, HostIndex(s, u)) == Some(p)
    requires path == HostIndex(s, u) + |HostPrefix(p)| <= |s|
    ensures LinkUrlEnd(s, u) == LinkPathAt(s, path, p)
  {
    var h := HostIndex(s, u);
    assert LinkUrlEnd(s, u) == match HostAt(s, h) case None => None case Some(q) => LinkPathAt(s, h + |HostPrefix(q)|, q);
  }

  /** `\[([^\]]+)\]\(` at `i`, with the URL group beginning at `u`: a `[`, a non-empty label free
      of `]`, and `](`. */
  predicate IsLabelAt(s: string, i: nat, u: nat) {
    i + 4 <= u <= |s| && s[i] == '[' && OccursAt(s, u - 2, "](")
    && forall k | i < k < u - 2 :: Admits(NotCloseBracket, s[k])
  }

  /** Where the URL group begins after the label at `i`, if a label matches there. */
  function LabelEnd(s: string, i: nat): (u: Option<nat>)
    requires i <= |s|
    ensures u.Some? ==> IsLabelAt(s, i, u.value)
  {
    if i == |s| || s[i] != '[' then None
    else
      var le := RunEnd(s, i + 1, NotCloseBracket);
      if le == i + 1 || !OccursAt(s, le, "](") then None
      else Some(le + 2)
  }

  /** Every label is the one `LabelEnd` finds: it runs to the first `]`. */
  lemma LabelComplete(s: string, i: nat, u: nat)
    requires IsLabelAt(s, i, u)
    ensures LabelEnd(s, i) == Some(u)
  {
    assert s[u - 2] == s[u - 2..u][0] == ']';
    RunEndAt(s, i + 1, NotCloseBracket, u - 2);
  }

  /** `m` is the link match at `i`: a label from `i` to the URL group, the URL group, and its
      `)`, which ends the match; `url` is the text of the URL group. */
  predicate IsLinkAt(s: string, i: nat, m: LinkMatch) {
    m.start == i && IsLabelAt(s, i, m.urlStart) && IsUrlGroupAt(s, m.urlStart, m.group)
    && m.end == m.group.close + 1 && m.url == s[m.urlStart..m.group.close]
  }

  /** The match of the link pattern at index `i`, if any. */
  function LinkAt(s: string, i: nat): (r: Option<LinkMatch>)
    requires i <= |s|
    ensures r.Some? ==> r.value.start == i < r.value.urlStart < r.value.end <= |s|
    ensures r.Some? ==> LabelEnd(s, i) == Some(r.value.urlStart)
  {
    match LabelEnd(s, i)
    case None => None
    case Some(u) =>
      match LinkUrlEnd(s, u)
      case None => None
      case Some(g) => Some(LinkMatch(i, u, g.close + 1, s[u..g.close], g))
  }

  /** The link pattern matches at `i` exactly where a label and a URL group follow, and then
      with that match. */
  lemma LinkAtExactly(s: string, i: nat, m: LinkMatch)
    requires i <= |s|
    ensures LinkAt(s, i) == Some(m) <==> IsLinkAt(s, i, m)
  {
    if LinkAt(s, i) == Some(m) {
      LinkAtSound(s, i, m);
    }
    if IsLinkAt(s, i, m) {
      LinkAtComplete(s, i, m);
    }
  }

  /** What `LinkAt` finds is a link match. */
  lemma LinkAtSound(s: string, i: nat, m: LinkMatch)
    requires i <= |s| && LinkAt(s, i) == Some(m)
    ensures IsLinkAt(s, i, m)
  {
    LinkAtParts(s, i, m);
    UrlGroupSound(s, m.urlStart, m.group);
  }

  /** Every link match is the one `LinkAt` finds. */
  lemma LinkAtComplete(s: string, i: nat, m: LinkMatch)
    requires i <= |s| && IsLinkAt(s, i, m)
    ensures LinkAt(s, i) == Some(m)
  {
    LinkAtOf(s, i, m.urlStart, m.group);
  }

  /** A label up to `u` and a URL group from `u` make the match `LinkAt` finds at `i`. */
  lemma LinkAtOf(s: string, i: nat, u: nat, g: UrlGroup)
    requires IsLabelAt(s, i, u) && IsUrlGroupAt(s, u, g)
    ensures var r := LinkAt(s, i);
      r.Some? && r.value.start == i && r.value.urlStart == u && r.value.end == g.close + 1
      && r.value.url == s[u..g.close] && r.value.group == g
  {
    LabelComplete(s, i, u);
    UrlGroupComplete(s, u, g);
    LinkAtFrom(s, i, u, g);
  }

  /** What `LinkAt` found: a label up to `urlStart` and a URL group from there. */
  lemma LinkAtParts(s: string, i: nat, m: LinkMatch)
    requires i <= |s| && LinkAt(s, i) == Some(m)
    ensures LabelEnd(s, i) == Some(m.urlStart) && m.urlStart <= |s|
    ensures LinkUrlEnd(s, m.urlStart) == Some(m.group)
    ensures m == LinkMatch(i, m.urlStart, m.group.close + 1, s[m.urlStart..m.group.close], m.group)
  {
  }

  /** A label up to `u` and a URL group from there make the match `LinkAt` finds. */
  lemma LinkAtFrom(s: string, i: nat, u: nat, g: UrlGroup)
    requires i <= |s| && LabelEnd(s, i) == Some(u) && u <= g.close < |s|
    requires LinkUrlEnd(s, u) == Some(g)
    ensures var r := LinkAt(s, i);
      r.Some? && r.value.start == i && r.value.urlStart == u && r.value.end == g.close + 1
      && r.value.url == s[u..g.close] && r.value.group == g
  {
  }

  /** The text of a URL group is a repository URL made of its scheme, its `www.` part, its host,
      its author and its name. */
  lemma UrlGroupText(s: string, u: nat, g: UrlGroup)
    requires IsUrlGroupAt(s, u, g)
    ensures var sc := Scheme(s, u);
      s[u..g.close] == RepoUrl(sc, Www(s, u + |sc|), g.platform, g.author, g.name)
  {
    NamePathText(s, g);
    var sc := Scheme(s, u);
    ConcatUpTo(s, u, u + |sc|, HostIndex(s, u), g.path, g.close,
               sc, Www(s, u + |sc|), HostPrefix(g.platform), g.author + "/" + g.name);
  }

  /** The text from the author to the `)` is the author, a `/` and the name. */
  lemma NamePathText(s: string, g: UrlGroup)
    requires IsNamePathAt(s, g)
    ensures s[g.path..g.close] == g.author + "/" + g.name
  {
    PathPieces(s, g.path, g.slash, g.close, g.author, g.name);
  }

  /** An author, a `/` and a name laid out one after the other make up the text they span. */
  lemma PathPieces(s: string, path: nat, slash: nat, close: nat, author: string, name: string)
    requires path + |author| == slash && slash + 1 + |name| == close <= |s|
    requires OccursAt(s, path, author) && s[slash] == '/' && s[slash + 1..close] == name
    ensures s[path..close] == author + "/" + name
  {
    assert s[slash..close] == [s[slash]] + s[slash + 1..close];
    assert s[path..close] == s[path..slash] + s[slash..close];
  }

  /** Three texts occurring one after the other, and a fourth text up to `end` after them, make
      up the text from `i` to `end`. */
  lemma ConcatUpTo(s: string, i: nat, j: nat, k: nat, l: nat, end: nat, a: string, b: string, c: string, d: string)
    requires OccursAt(s, i, a) && j == i + |a| && OccursAt(s, j, b) && k == j + |b|
    requires OccursAt(s, k, c) && l == k + |c| && l <= end <= |s| && s[l..end] == d
    ensures s[i..end] == a + b + c + d
  {
    assert s[i..k] == s[i..j] + s[j..k];
    assert s[i..l] == s[i..k] + s[k..l];
    assert s[i..end] == s[i..l] + s[l..end];
  }

  /** A segment of a link is a segment of the repository patterns. */
  lemma LinkSegmentIsSegment(x: string)
    requires IsLinkSegment(x)
    ensures IsSegment(x)
  {
    LinkCharsNoSlash(x);
  }

  /** Link characters hold no `/`. */
  lemma {:induction false} LinkCharsNoSlash(x: string)
    requires LinkChars(x)
    ensures '/' !in x
    decreases |x|
  {
    if x != [] {
      LinkCharsNoSlash(x[1..]);
      assert x == [x[0]] + x[1..];
    }
  }

  /** The text of a URL group names the repository of its host, author and name. */
  lemma UrlGroupRepo(s: string, u: nat, g: UrlGroup)
    requires IsUrlGroupAt(s, u, g)
    ensures RepoOf(s[u..g.close]) == Some(Repo(g.platform, g.author, g.name))
  {
    UrlGroupText(s, u, g);
    var sc := Scheme(s, u);
    var w := Www(s, u + |sc|);
    LinkSegmentIsSegment(g.author);
    LinkSegmentIsSegment(g.name);
    assert s[u..g.close] == RepoUrl(sc, w, g.platform, g.author, g.name);
    RepoOfUrl(sc, w, g.platform, g.author, g.name);
  }

  /** The URL of a link names the repository of the link's host, author and name. */
  lemma LinkRepo(s: string, i: nat, m: LinkMatch)
    requires IsLinkAt(s, i, m)
    ensures RepoOf(m.url) == Some(Repo(m.group.platform, m.group.author, m.group.name))
  {
    UrlGroupRepo(s, m.urlStart, m.group);
  }

  /** The markdown link `[caption](url)`. */
  function LinkText(caption: string, url: string): string {
    "[" + caption + "](" + url + ")"
  }

  /** A link `[caption](url)` to a repository URL is matched where it begins, with the URL's
      host, author and name, when the text after it does not carry the name on (it ends, or
      goes on with `/` or white space). */
  lemma LinkAtText(pre: string, caption: string, sc: string, w: string, p: Platform,
                   author: string, name: string, post: string)
    requires caption != "" && ']' !in caption
    requires (sc == "https://" || sc == "http://") && IsWwwText(w)
    requires IsLinkSegment(author) && IsLinkSegment(name)
    requires post == [] || !Admits(NotSlashOrSpace, post[0])
    ensures var url := RepoUrl(sc, w, p, author, name);
      var link := LinkText(caption, url);
      var r := LinkAt(pre + link + post, |pre|);
      r.Some? && r.value.start == |pre| && r.value.end == |pre| + |link| && r.value.url == url
      && r.value.group.platform == p && r.value.group.author == author && r.value.group.name == name
  {
    UrlLayout(sc, w, p, author, name);
    LinkAtLaidOut(pre, caption, RepoUrl(sc, w, p, author, name), post, sc, w, p, author, name);
  }

  /** `LinkAtText` for any URL laid out as a repository URL. */
  lemma LinkAtLaidOut(pre: string, caption: string, url: string, post: string, sc: string, w: string, p: Platform,
                      author: string, name: string)
    requires caption != "" && ']' !in caption
    requires (sc == "https://" || sc == "http://") && IsWwwText(w)
    requires IsLinkSegment(author) && IsLinkSegment(name)
    requires post == [] || !Admits(NotSlashOrSpace, post[0])
    requires UrlLaidOut(url, sc, w, p, author, name)
    ensures var link := LinkText(caption, url);
      var r := LinkAt(pre + link + post, |pre|);
      r.Some? && r.value.start == |pre| && r.value.end == |pre| + |link| && r.value.url == url
      && r.value.group.platform == p && r.value.group.author == author && r.value.group.name == name
  {
    var front := pre + "[" + caption + "](";
    var back := ")" + post;
    LinkTextSplit(pre, caption, url, post);
    var g := UrlGroupLaidOut(front, url, back, sc, w, p, author, name);
    LinkAtFront(pre, caption, front, url, back, g);
  }

  /** A line holding a link: the text up to the URL, the URL, and the `)` with the rest. */
  lemma LinkTextSplit(pre: string, caption: string, url: string, post: string)
    ensures pre + LinkText(caption, url) + post == (pre + "[" + caption + "](") + url + (")" + post)
  {
  }

  /** A `[`, a caption and `](` in front of a URL group make the link match there. */
  lemma LinkAtFront(pre: string, caption: string, front: string, url: string, back: string, g: UrlGroup)
    requires caption != "" && ']' !in caption && front == pre + "[" + caption + "]("
    requires IsUrlGroupAt(front + url + back, |front|, g) && g.close == |front| + |url|
    ensures var r := LinkAt(front + url + back, |pre|);
      r.Some? && r.value.start == |pre| && r.value.end == |front| + |url| + 1 && r.value.url == url
      && r.value.group == g
  {
    var s := front + url + back;
    assert IsLabelAt(s, |pre|, |front|) by {
      CaptionOfText(pre, caption, url + back);
      Reassociate(front, url, back);
    }
    assert s[|front|..|front| + |url|] == url by {
      Reassociate(front, url, back);
    }
    LinkAtOf(s, |pre|, |front|, g);
  }

  /** The middle of three texts, and their grouping. */
  lemma Reassociate(front: string, url: string, back: string)
    ensures front + url + back == front + (url + back)
    ensures (front + url + back)[|front|..|front| + |url|] == url
  {
  }

  /** `[`, a caption free of `]` and `](` are the label of a link. */
  lemma CaptionOfText(pre: string, caption: string, rest: string)
    requires caption != "" && ']' !in caption
    ensures IsLabelAt(pre + "[" + caption + "](" + rest, |pre|, |pre| + |caption| + 3)
  {
    var s := pre + "[" + caption + "](" + rest;
    var u := |pre| + |caption| + 3;
    forall k | |pre| < k < u - 2 ensures Admits(NotCloseBracket, s[k]) {
      assert s[k] == caption[k - |pre| - 1];
    }
    assert s[|pre|] == '[';
    assert s[u - 2..u] == "](";
  }

  /** A URL laid out as a repository URL, between a front and a `)` that ends the name's run,
      is a URL group found where the URL begins. */
  lemma UrlGroupLaidOut(front: string, url: string, back: string, sc: string, w: string, p: Platform,
                        author: string, name: string) returns (g: UrlGroup)
    requires (sc == "https://" || sc == "http://") && IsWwwText(w)
    requires IsLinkSegment(author) && IsLinkSegment(name)
    requires UrlLaidOut(url, sc, w, p, author, name)
    requires back != [] && back[0] == ')' && (|back| == 1 || !Admits(NotSlashOrSpace, back[1]))
    ensures var s := front + url + back;
      IsUrlGroupAt(s, |front|, g) && g.close == |front| + |url|
      && g.platform == p && g.author == author && g.name == name
  {
    var a := |sc| + |w| + |HostPrefix(p)|;
    g := UrlGroup(|front| + a, |front| + a + |author|, |front| + |url|, p, author, name);
    var s := front + url + back;
    assert IsNamePathAt(s, g) by {
      var g' := NamePathOfText(front, url, back, a, p, author, name);
    }
    assert Scheme(s, |front|) != "" && HostIndex(s, |front|) + |HostPrefix(p)| == g.path
      && OccursAt(s, HostIndex(s, |front|), HostPrefix(p)) by {
      HostOfText(front, url, back, sc, w, p);
    }
    UrlGroupOfParts(s, |front|, g);
  }

  /** An author, a `/` and a name ending a URL, followed by a `)` that ends the name's run,
      make the path of a URL group. */
  lemma NamePathOfText(front: string, url: string, back: string, a: nat, p: Platform,
                       author: string, name: string) returns (g: UrlGroup)
    requires IsLinkSegment(author) && IsLinkSegment(name)
    requires |url| == a + |author| + 1 + |name| && OccursAt(url, a, author)
    requires url[a + |author|] == '/' && url[a + |author| + 1..] == name
    requires back != [] && back[0] == ')' && (|back| == 1 || !Admits(NotSlashOrSpace, back[1]))
    ensures g == UrlGroup(|front| + a, |front| + a + |author|, |front| + |url|, p, author, name)
    ensures IsNamePathAt(front + url + back, g)
  {
    g := UrlGroup(|front| + a, |front| + a + |author|, |front| + |url|, p, author, name);
    var s := front + url + back;
    var u := |front|;
    var e := a + |author|;
    OccursWithin(front, url, back, a, author);
    assert OccursAt(url, e + 1, name);
    OccursWithin(front, url, back, e + 1, name);
    assert s[u + e] == url[e];
    assert s[u + |url|] == back[0];
    assert NoCloseInRun(s, g.close + 1) by {
      if |back| > 1 {
        assert s[g.close + 1] == back[1];
      }
    }
  }

  /** A scheme, a host at the host index and a path right after it make a URL group. */
  lemma UrlGroupOfParts(s: string, u: nat, g: UrlGroup)
    requires u <= |s| && Scheme(s, u) != "" && OccursAt(s, HostIndex(s, u), HostPrefix(g.platform))
    requires g.path == HostIndex(s, u) + |HostPrefix(g.platform)| && IsNamePathAt(s, g)
    ensures IsUrlGroupAt(s, u, g)
  {
  }

  /** The scheme, `www.` part and host at the start of a URL are found there inside any
      text. */
  lemma HostOfText(front: string, url: string, back: string, sc: string, w: string, p: Platform)
    requires (sc == "https://" || sc == "http://") && IsWwwText(w)
    requires OccursAt(url, 0, sc) && OccursAt(url, |sc|, w) && OccursAt(url, |sc| + |w|, HostPrefix(p))
    ensures var s := front + url + back;
      Scheme(s, |front|) == sc && HostIndex(s, |front|) == |front| + |sc| + |w|
      && OccursAt(s, |front| + |sc| + |w|, HostPrefix(p))
  {
    var s := front + url + back;
    var u := |front|;
    var k := |sc| + |w|;
    assert s[u..] == url + back;
    OccursBefore(url, back, 0, sc);
    OccursBefore(url, back, |sc|, w);
    OccursBefore(url, back, k, HostPrefix(p));
    UrlFront(s[u..], sc, w, p);
    SchemeShift(s, u);
    OccursWithin(front, url, back, k, HostPrefix(p));
  }

  // ---------------------------------------------------------------- the global scan

  /** `found` reports, for each offset `i` of a text of length `n`, the link match that starts
      at `i`, if any; every match it reports starts there and ends within the text. */
  predicate Matcher(found: nat -> Option<LinkMatch>, n: nat) {
    forall i: nat | i <= n && found(i).Some? :: found(i).value.start == i < found(i).value.end <= n
  }

  /** The leftmost index from `from` to `n` at which `found` reports a match. */
  function LeftmostFound(found: nat -> Option<LinkMatch>, n: nat, from: nat): (r: Option<nat>)
    requires from <= n
    ensures r.Some? ==> from <= r.value <= n && found(r.value).Some?
    ensures r.Some? ==> forall j | from <= j < r.value :: found(j).None?
    ensures r.None? ==> forall j | from <= j <= n :: found(j).None?
    decreases n - from
  {
    if found(from).Some? then Some(from)
    else if from == n then None
    else
      var r := LeftmostFound(found, n, from + 1);
      assert forall j | from <= j <= from :: found(j).None?;
      r
  }

  /** Where nothing is found between `from` and `to`, the search from `from` goes on from `to`. */
  lemma {:induction false} LeftmostSkip(found: nat -> Option<LinkMatch>, n: nat, from: nat, to: nat)
    requires from <= to <= n
    requires forall j | from <= j < to :: found(j).None?
    ensures LeftmostFound(found, n, from) == LeftmostFound(found, n, to)
    decreases n - from
  {
    if from < to {
      LeftmostSkip(found, n, from + 1, to);
    }
  }

  /** The leftmost match `found` reports at or after `from`. */
  function NextFound(found: nat -> Option<LinkMatch>, n: nat, from: nat): (r: Option<LinkMatch>)
    requires Matcher(found, n) && from <= n
    ensures r.Some? ==> from <= r.value.start < r.value.end <= n && found(r.value.start) == r
    ensures r.Some? ==> forall i | from <= i < r.value.start :: found(i).None?
    ensures r.None? ==> forall i | from <= i <= n :: found(i).None?
  {
    match LeftmostFound(found, n, from)
    case None => None
    case Some(i) => found(i)
  }

  /** The successive matches `found` reports from `from` on, each search resuming where the
      previous match ended. */
  function Scan(found: nat -> Option<LinkMatch>, n: nat, from: nat): (r: seq<LinkMatch>)
    requires Matcher(found, n) && from <= n
    ensures forall k | 0 <= k < |r| :: from <= r[k].start < r[k].end <= n
    ensures forall k | 0 < k < |r| :: r[k - 1].end <= r[k].start
    decreases n - from
  {
    match NextFound(found, n, from)
    case None => []
    case Some(m) =>
      var rest := Scan(found, n, m.end);
      var r := [m] + rest;
      assert forall k | 0 <= k < |r| :: from <= r[k].start < r[k].end <= n by {
        forall k | 0 <= k < |r| ensures from <= r[k].start < r[k].end <= n {
          if k > 0 {
            assert r[k] == rest[k - 1];
          }
        }
      }
      assert forall k | 0 < k < |r| :: r[k - 1].end <= r[k].start by {
        forall k | 0 < k < |r| ensures r[k - 1].end <= r[k].start {
          assert r[k] == rest[k - 1];
          if k > 1 {
            assert r[k - 1] == rest[k - 2];
          }
        }
      }
      r
  }

  /** One step of the scan: the match found from `from` on, then the scan from its end. */
  lemma ScanUnfold(found: nat -> Option<LinkMatch>, n: nat, from: nat, m: LinkMatch)
    requires Matcher(found, n) && from <= n && NextFound(found, n, from) == Some(m)
    ensures from < m.end <= n
    ensures Scan(found, n, from) == [m] + Scan(found, n, m.end)
  {
  }

  /** No match is skipped: every offset where `found` reports a match lies within one of the
      matches the scan collects, at its start or inside a match that began before it. */
  lemma {:induction false} ScanCovers(found: nat -> Option<LinkMatch>, n: nat, from: nat, j: nat) returns (k: nat)
    requires Matcher(found, n) && from <= j <= n && found(j).Some?
    ensures k < |Scan(found, n, from)| && Scan(found, n, from)[k].start <= j < Scan(found, n, from)[k].end
    decreases n - from
  {
    var m := NextFound(found, n, from).value;
    ScanUnfold(found, n, from, m);
    if j < m.end {
      k := 0;
    } else {
      var k' := ScanCovers(found, n, m.end, j);
      k := k' + 1;
    }
  }

  /** Every match the scan collects is the one `found` reports at its start. */
  lemma {:induction false} ScanReported(found: nat -> Option<LinkMatch>, n: nat, from: nat)
    requires Matcher(found, n) && from <= n
    ensures forall m | m in Scan(found, n, from) :: found(m.start) == Some(m)
    decreases n - from
  {
    match NextFound(found, n, from)
    case None =>
    case Some(m) =>
      ScanUnfold(found, n, from, m);
      ScanReported(found, n, m.end);
  }

  /** Where `found` reports `m` at its start and nothing before it or from its end on, the scan
      collects `m` alone. */
  lemma ScanOnly(found: nat -> Option<LinkMatch>, n: nat, m: LinkMatch)
    requires Matcher(found, n) && m.start <= n && found(m.start) == Some(m)
    requires forall i | 0 <= i < m.start :: found(i).None?
    requires forall i | m.end <= i <= n :: found(i).None?
    ensures Scan(found, n, 0) == [m]
  {
    NextFoundSkip(found, n, 0, m.start);
    ScanUnfold(found, n, 0, m);
    assert NextFound(found, n, m.end) == None;
  }

  /** Where nothing is found between `from` and `to`, the next match from `from` is the next
      match from `to`. */
  lemma NextFoundSkip(found: nat -> Option<LinkMatch>, n: nat, from: nat, to: nat)
    requires Matcher(found, n) && from <= to <= n
    requires forall j | from <= j < to :: found(j).None?
    ensures NextFound(found, n, from) == NextFound(found, n, to)
  {
    LeftmostSkip(found, n, from, to);
  }

  /** The link match at each offset of `s`. */
  function LinkMatcher(s: string): (found: nat -> Option<LinkMatch>)
    ensures Matcher(found, |s|)
    ensures forall i: nat | i <= |s| :: found(i) == LinkAt(s, i)
  {
    (i: nat) => if i <= |s| then LinkAt(s, i) else None
  }

  /** The leftmost link match at or after `from`: what `linkRegex.exec` returns when its
      `lastIndex` is `from`. */
  function NextLink(s: string, from: nat): (r: Option<LinkMatch>)
    requires from <= |s|
    ensures r.Some? ==> from <= r.value.start < r.value.end <= |s|
  {
    NextFound(LinkMatcher(s), |s|, from)
  }

  /** `NextLink` finds the leftmost link match: the match at its start, with none between
      `from` and it, and none at all when it finds nothing. */
  lemma NextLinkLeftmost(s: string, from: nat)
    requires from <= |s|
    ensures var r := NextLink(s, from);
      r.Some? ==> LinkAt(s, r.value.start) == r
    ensures var r := NextLink(s, from);
      r.Some? ==> forall i | from <= i < r.value.start :: LinkAt(s, i).None?
    ensures NextLink(s, from).None? ==> forall i | from <= i <= |s| :: LinkAt(s, i).None?
  {
    var found := LinkMatcher(s);
    var r := NextFound(found, |s|, from);
    var end := if r.Some? then r.value.start else |s| + 1;
    forall i | from <= i < end && i <= |s| ensures LinkAt(s, i).None? {
      assert found(i).None?;
    }
  }

  /** Where no link matches between `from` and `to`, the search from `from` finds what the
      search from `to` finds. */
  lemma NextLinkSkip(s: string, from: nat, to: nat)
    requires from <= to <= |s|
    requires forall i | from <= i < to :: LinkAt(s, i).None?
    ensures NextLink(s, from) == NextLink(s, to)
  {
    var found := LinkMatcher(s);
    forall j | from <= j < to ensures found(j).None? {
      assert LinkAt(s, j).None?;
    }
    NextFoundSkip(found, |s|, from, to);
  }

  /** The successive matches of the global link pattern from `from` on: each search resumes
      where the previous match ended. */
  function LinksFrom(s: string, from: nat): (r: seq<LinkMatch>)
    requires from <= |s|
    ensures forall k | 0 <= k < |r| :: from <= r[k].start < r[k].end <= |s|
    ensures forall k | 0 < k < |r| :: r[k - 1].end <= r[k].start
  {
    Scan(LinkMatcher(s), |s|, from)
  }

  /** One step of the global scan: the link found from `from` on, then the links from its end. */
  lemma LinksStep(s: string, from: nat, m: LinkMatch)
    requires from <= |s| && NextLink(s, from) == Some(m)
    ensures from < m.end <= |s|
    ensures LinksFrom(s, from) == [m] + LinksFrom(s, m.end)
  {
    ScanUnfold(LinkMatcher(s), |s|, from, m);
  }

  /** No link match is skipped: every index where the link pattern matches lies within one of
      the matches `LinksFrom` collects, at its start or inside a match that began before it. */
  lemma LinksCover(s: string, from: nat, j: nat) returns (k: nat)
    requires from <= j <= |s| && LinkAt(s, j).Some?
    ensures k < |LinksFrom(s, from)| && LinksFrom(s, from)[k].start <= j < LinksFrom(s, from)[k].end
  {
    var found := LinkMatcher(s);
    assert found(j).Some?;
    k := ScanCovers(found, |s|, from, j);
  }

  /** Every element of `LinksFrom` is the link match at its start. */
  lemma LinksAreMatches(s: string, from: nat)
    requires from <= |s|
    ensures forall m | m in LinksFrom(s, from) :: LinkAt(s, m.start) == Some(m)
  {
    var found := LinkMatcher(s);
    ScanReported(found, |s|, from);
    forall m | m in LinksFrom(s, from) ensures LinkAt(s, m.start) == Some(m) {
      assert found(m.start) == Some(m);
    }
  }
  // ---------------------------------------------------------------- badge insertions

  /** The badges `getBadges` resolves for a URL under the given settings. */
  function BadgesOf(url: string, settings: BadgeSettings): seq<string> {
    GetBadges(url, settings.badges, settings.authorPlaceholder, settings.namePlaceholder)
  }

  /** A recorded insertion: the badges to put at offset `pos` of the original line. */
  datatype Insertion = Insertion(pos: nat, badges: seq<string>)

  /** The insertions recorded for a list of link matches, given how a URL resolves to badges:
      one at the end of each link whose URL resolves to at least one badge, in link order. */
  function Qualifying(links: seq<LinkMatch>, resolve: string -> seq<string>): (r: seq<Insertion>)
    ensures |r| <= |links|
    ensures forall k | 0 <= k < |r| :: r[k].badges != []
  {
    if links == [] then []
    else
      var m := links[0];
      var badges := resolve(m.url);
      (if badges == [] then [] else [Insertion(m.end, badges)]) + Qualifying(links[1..], resolve)
  }

  /** An insertion is recorded exactly for a link whose URL resolves to some badges: it sits at
      that link's end and carries those badges. */
  lemma {:induction false} QualifyingMembership(links: seq<LinkMatch>, resolve: string -> seq<string>, x: Insertion)
    ensures x in Qualifying(links, resolve) <==>
      x.badges != [] && exists m | m in links :: x == Insertion(m.end, resolve(m.url))
  {
    if links != [] {
      QualifyingMembership(links[1..], resolve, x);
      var m := links[0];
      if x.badges != [] && x != Insertion(m.end, resolve(m.url))
         && (exists m' | m' in links :: x == Insertion(m'.end, resolve(m'.url))) {
        var m' :| m' in links && x == Insertion(m'.end, resolve(m'.url));
        assert m' in links[1..];
      }
    }
  }

  /** How the settings resolve a URL to badges. */
  function Resolver(settings: BadgeSettings): string -> seq<string> {
    url => BadgesOf(url, settings)
  }

  /** The insertions recorded for a line: those of the links the global pattern finds. Each
      carries some badges, and their positions strictly increase and lie in `1..|line|`. */
  function Insertions(line: string, resolve: string -> seq<string>): (r: seq<Insertion>)
    ensures forall k | 0 <= k < |r| :: r[k].badges != []
    ensures Increasing(r, 1, |line|)
  {
    InsertionsFromIncreasing(line, 0, resolve);
    Qualifying(LinksFrom(line, 0), resolve)
  }

  /** Positions that strictly increase, all between `lo` and `hi`. */
  predicate Increasing(ins: seq<Insertion>, lo: nat, hi: nat) {
    (forall k | 0 <= k < |ins| :: lo <= ins[k].pos <= hi)
    && (forall j, k | 0 <= j < k < |ins| :: ins[j].pos < ins[k].pos)
  }

  /** `Qualifying` takes one link at a time. */
  lemma QualifyingCons(m: LinkMatch, rest: seq<LinkMatch>, resolve: string -> seq<string>)
    ensures Qualifying([m] + rest, resolve)
      == (if resolve(m.url) == [] then [] else [Insertion(m.end, resolve(m.url))]) + Qualifying(rest, resolve)
  {
    assert ([m] + rest)[1..] == rest;
  }

  /** An insertion at `mid` in front of increasing insertions above `mid`. */
  lemma IncreasingCons(head: seq<Insertion>, tail: seq<Insertion>, lo: nat, mid: nat, hi: nat)
    requires |head| <= 1 && (forall k | 0 <= k < |head| :: head[k].pos == mid)
    requires lo <= mid <= hi && Increasing(tail, mid + 1, hi)
    ensures Increasing(head + tail, lo, hi)
  {
    var r := head + tail;
    forall j, k | 0 <= j < k < |r| ensures r[j].pos < r[k].pos {
      if j >= |head| {
        assert r[j] == tail[j - |head|] && r[k] == tail[k - |head|];
      } else {
        assert r[k] == tail[k - |head|];
      }
    }
    forall k | 0 <= k < |r| ensures lo <= r[k].pos <= hi {
      if k >= |head| {
        assert r[k] == tail[k - |head|];
      }
    }
  }

  /** The insertions of the links found from `from` on lie strictly after `from`, at most at
      the end of the line, and strictly increase. */
  lemma {:induction false} InsertionsFromIncreasing(line: string, from: nat, resolve: string -> seq<string>)
    requires from <= |line|
    ensures Increasing(Qualifying(LinksFrom(line, from), resolve), from + 1, |line|)
    decreases |line| - from
  {
    match NextLink(line, from)
    case None =>
    case Some(m) =>
      ScanStep(line, from, resolve, m);
      InsertionsFromIncreasing(line, m.end, resolve);
      var head := if resolve(m.url) == [] then [] else [Insertion(m.end, resolve(m.url))];
      IncreasingCons(head, Qualifying(LinksFrom(line, m.end), resolve), from + 1, m.end, |line|);
  }

  /** One step of the scan: the link found from `last` on, then the rest of the line. */
  lemma ScanStep(line: string, last: nat, resolve: string -> seq<string>, m: LinkMatch)
    requires last <= |line| && NextLink(line, last) == Some(m)
    ensures last < m.end <= |line|
    ensures Qualifying(LinksFrom(line, last), resolve)
      == (if resolve(m.url) == [] then [] else [Insertion(m.end, resolve(m.url))])
         + Qualifying(LinksFrom(line, m.end), resolve)
  {
    LinksStep(line, last, m);
    QualifyingCons(m, LinksFrom(line, m.end), resolve);
  }

  /** The `while (exec)` loop of `addBadgesInCurrentFile`: scan the line with the global link
      pattern and record an insertion for each link that resolves to badges. */
  method ScanInsertions(line: string, settings: BadgeSettings) returns (ins: seq<Insertion>)
    ensures ins == Insertions(line, Resolver(settings))
  {
    ins := [];
    var last := 0;
    var next := NextLink(line, last);
    while next.Some?
      invariant last <= |line| && next == NextLink(line, last)
      invariant ins + Qualifying(LinksFrom(line, last), Resolver(settings)) == Insertions(line, Resolver(settings))
      decreases |line| - last
    {
      var m := next.value;
      ScanStep(line, last, Resolver(settings), m);
      var badges := BadgesOf(m.url, settings);
      ghost var head := if badges == [] then [] else [Insertion(m.end, badges)];
      ghost var before := ins;
      if |badges| > 0 {
        ins := ins + [Insertion(m.end, badges)];
      }
      assert ins == before + head;
      AppendAssoc(before, head, Qualifying(LinksFrom(line, m.end), Resolver(settings)));
      last := m.end;
      next := NextLink(line, last);
    }
  }

  // ---------------------------------------------------------------- the badge block

  const SpanOpen := "<span style=\"display: inline-block;\">"
  const SpanClose := "</span>"

  /** Each badge wrapped in an inline-block span. */
  function Wrapped(badges: seq<string>): (r: seq<string>)
    ensures |r| == |badges|
    ensures forall k | 0 <= k < |r| :: r[k] == SpanOpen + badges[k] + SpanClose
  {
    if badges == [] then [] else [SpanOpen + badges[0] + SpanClose] + Wrapped(badges[1..])
  }

  /** `getBadgeBlock`: in inline mode the wrapped badges separated by single spaces, otherwise
      the badges one per line. */
  function BadgeBlock(badges: seq<string>, inlineBlock: bool): (r: string)
    ensures badges == [] ==> r == ""
    ensures |badges| == 1 ==> r == if inlineBlock then SpanOpen + badges[0] + SpanClose else badges[0]
  {
    if inlineBlock then Join(Wrapped(badges), " ") else Join(badges, "\n")
  }

  /** One more badge adds one separator and that badge, wrapped in inline mode. */
  lemma BadgeBlockAppend(badges: seq<string>, badge: string, inlineBlock: bool)
    requires badges != []
    ensures BadgeBlock(badges + [badge], inlineBlock)
      == BadgeBlock(badges, inlineBlock)
         + (if inlineBlock then " " + SpanOpen + badge + SpanClose else "\n" + badge)
  {
    if inlineBlock {
      assert Wrapped(badges + [badge]) == Wrapped(badges) + [SpanOpen + badge + SpanClose];
      JoinAppend(Wrapped(badges), " ", SpanOpen + badge + SpanClose);
    } else {
      JoinAppend(badges, "\n", badge);
    }
  }

  /** Outside inline mode, the block's lines are the badges, as long as no badge spans
      several lines. */
  lemma BadgeBlockLines(badges: seq<string>)
    requires badges != [] && forall k | 0 <= k < |badges| :: '\n' !in badges[k]
    ensures Split(BadgeBlock(badges, false), '\n') == badges
  {
    SplitJoin(badges, '\n');
  }

  // ---------------------------------------------------------------- rebuilding a line

  /** A text to insert at offset `pos` of the original line. */
  datatype Placement = Placement(pos: nat, text: string)

  /** The blocks of some insertions, at their positions. */
  function Placements(ins: seq<Insertion>, inlineBlock: bool): (r: seq<Placement>)
    ensures |r| == |ins|
  {
    Map(PlacementOf(inlineBlock), ins)
  }

  /** The placement of one insertion: its badge block at its position. */
  function PlacementOf(inlineBlock: bool): Insertion -> Placement {
    (q: Insertion) => Placement(q.pos, BadgeBlock(q.badges, inlineBlock))
  }

  /** Placement `k` is the block of insertion `k` at its position. */
  lemma PlacementAt(ins: seq<Insertion>, inlineBlock: bool, k: nat)
    requires k < |ins|
    ensures Placements(ins, inlineBlock)[k] == Placement(ins[k].pos, BadgeBlock(ins[k].badges, inlineBlock))
  {
    MapAt(PlacementOf(inlineBlock), ins, k);
  }

  /** Positions that never go back, between `lo` and `hi`. */
  predicate Ordered(ps: seq<Placement>, lo: nat, hi: nat)
    decreases |ps|
  {
    ps == [] || (lo <= ps[0].pos <= hi && Ordered(ps[1..], ps[0].pos, hi))
  }

  /** Every position of an ordered list lies between its bounds. */
  lemma {:induction false} OrderedBounds(ps: seq<Placement>, lo: nat, hi: nat, k: nat)
    requires Ordered(ps, lo, hi) && k < |ps|
    ensures lo <= ps[k].pos <= hi
    decreases k
  {
    if k > 0 {
      OrderedBounds(ps[1..], ps[0].pos, hi, k - 1);
    }
  }

  /** Strictly increasing insertions give ordered placements. */
  lemma {:induction false} IncreasingPlacements(ins: seq<Insertion>, inlineBlock: bool, lo: nat, hi: nat)
    requires Increasing(ins, lo, hi)
    ensures Ordered(Placements(ins, inlineBlock), lo, hi)
    decreases |ins|
  {
    if ins != [] {
      assert Increasing(ins[1..], ins[0].pos, hi) by {
        forall j, k | 0 <= j < k < |ins[1..]| ensures ins[1..][j].pos < ins[1..][k].pos {
          assert ins[1..][j] == ins[j + 1] && ins[1..][k] == ins[k + 1];
        }
        forall k | 0 <= k < |ins[1..]| ensures ins[0].pos <= ins[1..][k].pos <= hi {
          assert ins[1..][k] == ins[k + 1];
        }
      }
      IncreasingPlacements(ins[1..], inlineBlock, ins[0].pos, hi);
      assert Placements(ins, inlineBlock)[1..] == Placements(ins[1..], inlineBlock);
    }
  }

  /** The total length of the placed texts. */
  function Added(ps: seq<Placement>): nat {
    if ps == [] then 0 else |ps[0].text| + Added(ps[1..])
  }

  /** The line from `cursor` on with each text inserted at its position in the original line:
      what the splice loop of `addBadgesInCurrentFile` builds. */
  function Splice(line: string, cursor: nat, ps: seq<Placement>): (r: string)
    requires cursor <= |line| && Ordered(ps, cursor, |line|)
    ensures |r| == |line| - cursor + Added(ps)
    decreases |ps|
  {
    if ps == [] then line[cursor..]
    else
      line[cursor..ps[0].pos] + ps[0].text + Splice(line, ps[0].pos, ps[1..])
  }

  /** Removes the placed texts from a spliced text whose original began at `cursor`. */
  function Strip(out: string, cursor: nat, ps: seq<Placement>): string
    decreases |ps|
  {
    if ps == [] then out
    else if ps[0].pos < cursor || ps[0].pos - cursor + |ps[0].text| > |out| then out
    else
      var n := ps[0].pos - cursor;
      out[..n] + Strip(out[n + |ps[0].text|..], ps[0].pos, ps[1..])
  }

  /** Removing the inserted texts gives back the original line. */
  lemma {:induction false} StripSplice(line: string, cursor: nat, ps: seq<Placement>)
    requires cursor <= |line| && Ordered(ps, cursor, |line|)
    ensures Strip(Splice(line, cursor, ps), cursor, ps) == line[cursor..]
    decreases |ps|
  {
    if ps != [] {
      SpliceStep(line, cursor, ps);
      var p := ps[0].pos;
      var gap := line[cursor..p];
      var rest := Splice(line, p, ps[1..]);
      assert Strip(gap + ps[0].text + rest, cursor, ps) == gap + Strip(rest, p, ps[1..]) by {
        StripFront(gap, ps[0].text, rest, cursor, ps);
      }
      StripSplice(line, p, ps[1..]);
      assert gap + line[p..] == line[cursor..];
    }
  }

  /** Stripping removes the first text right after the gap in front of it. */
  lemma StripFront(gap: string, text: string, rest: string, cursor: nat, ps: seq<Placement>)
    requires ps != [] && ps[0].text == text && ps[0].pos == cursor + |gap|
    ensures Strip(gap + text + rest, cursor, ps) == gap + Strip(rest, ps[0].pos, ps[1..])
  {
    var out := gap + text + rest;
    assert out[..|gap|] == gap;
    assert out[|gap| + |text|..] == rest;
  }

  /** Text `k` sits at its original position, shifted by the texts placed before it. */
  lemma {:induction false} SpliceAt(line: string, cursor: nat, ps: seq<Placement>, k: nat)
    requires cursor <= |line| && Ordered(ps, cursor, |line|) && k < |ps|
    ensures cursor <= ps[k].pos
      && OccursAt(Splice(line, cursor, ps), ps[k].pos - cursor + Added(ps[..k]), ps[k].text)
    decreases |ps|, 1
  {
    OrderedBounds(ps, cursor, |line|, k);
    if k == 0 {
      SpliceAtFirst(line, cursor, ps);
    } else {
      SpliceAtLater(line, cursor, ps, k);
    }
  }

  /** The first text sits right after the gap before it. */
  lemma SpliceAtFirst(line: string, cursor: nat, ps: seq<Placement>)
    requires cursor <= |line| && Ordered(ps, cursor, |line|) && ps != []
    ensures OccursAt(Splice(line, cursor, ps), ps[0].pos - cursor + Added(ps[..0]), ps[0].text)
  {
    SpliceStep(line, cursor, ps);
    assert ps[..0] == [];
    OccursMiddle(line[cursor..ps[0].pos], ps[0].text, Splice(line, ps[0].pos, ps[1..]));
  }

  /** A later text sits where it sits in the splice of the tail, shifted by the front. */
  lemma {:induction false} SpliceAtLater(line: string, cursor: nat, ps: seq<Placement>, k: nat)
    requires cursor <= |line| && Ordered(ps, cursor, |line|) && 0 < k < |ps|
    ensures cursor <= ps[k].pos
      && OccursAt(Splice(line, cursor, ps), ps[k].pos - cursor + Added(ps[..k]), ps[k].text)
    decreases |ps|, 0
  {
    SpliceStep(line, cursor, ps);
    var p := ps[0].pos;
    var gap := line[cursor..p];
    var rest := Splice(line, p, ps[1..]);
    var a := Added(ps[1..][..k - 1]);
    var inner := ps[k].pos - p + a;
    assert p <= ps[k].pos && OccursAt(rest, inner, ps[k].text) by {
      SpliceAt(line, p, ps[1..], k - 1);
      assert ps[1..][k - 1] == ps[k];
    }
    assert Added(ps[..k]) == |ps[0].text| + a by {
      AddedPrefix(ps, k);
    }
    OccursBehind(gap, ps[0].text, rest, inner, ps[k].text);
  }

  /** An occurrence survives putting two pieces in front, shifted by their lengths. */
  lemma OccursBehind(gap: string, text: string, rest: string, i: nat, p: string)
    requires OccursAt(rest, i, p)
    ensures OccursAt(gap + text + rest, |gap| + |text| + i, p)
  {
    OccursAfter(gap + text, rest, i, p);
  }

  /** The texts before `k` are the first text and the texts of the tail before `k - 1`. */
  lemma AddedPrefix(ps: seq<Placement>, k: nat)
    requires 0 < k <= |ps|
    ensures Added(ps[..k]) == |ps[0].text| + Added(ps[1..][..k - 1])
  {
    var before := ps[1..][..k - 1];
    assert ps[..k] == [ps[0]] + before;
    assert ([ps[0]] + before)[1..] == before;
  }

  /** A line with the blocks of strictly increasing insertions put in: with no insertions the
      line is kept as it is.  Removing the blocks gives back the line, and the line grows by
      exactly their length. */
  function Rebuilt(line: string, ins: seq<Insertion>, inlineBlock: bool): (r: string)
    requires Increasing(ins, 0, |line|)
    ensures ins == [] ==> r == line
    ensures var ps := Placements(ins, inlineBlock);
      Strip(r, 0, ps) == line && |r| == |line| + Added(ps)
  {
    var ps := Placements(ins, inlineBlock);
    IncreasingPlacements(ins, inlineBlock, 0, |line|);
    StripSplice(line, 0, ps);
    if ins == [] then line else Splice(line, 0, ps)
  }

  /** Block `k` of a rebuilt line follows the end of its link, shifted by the blocks before it. */
  lemma RebuiltBlocks(line: string, ins: seq<Insertion>, inlineBlock: bool, k: nat)
    requires Increasing(ins, 0, |line|) && k < |ins|
    ensures var ps := Placements(ins, inlineBlock);
      OccursAt(Rebuilt(line, ins, inlineBlock), ins[k].pos + Added(ps[..k]),
               BadgeBlock(ins[k].badges, inlineBlock))
  {
    var ps := Placements(ins, inlineBlock);
    RebuiltSplice(line, ins, inlineBlock);
    PlacedBlock(line, ins, inlineBlock, k);
  }

  /** Placement `k` of ordered placements is the block of insertion `k`, found in the splice. */
  lemma PlacedBlock(line: string, ins: seq<Insertion>, inlineBlock: bool, k: nat)
    requires Ordered(Placements(ins, inlineBlock), 0, |line|) && k < |ins|
    ensures var ps := Placements(ins, inlineBlock);
      OccursAt(Splice(line, 0, ps), ins[k].pos + Added(ps[..k]), BadgeBlock(ins[k].badges, inlineBlock))
  {
    PlacementAt(ins, inlineBlock, k);
    SpliceAtStart(line, Placements(ins, inlineBlock), k);
  }

  /** `SpliceAt` for a splice of the whole line. */
  lemma SpliceAtStart(line: string, ps: seq<Placement>, k: nat)
    requires Ordered(ps, 0, |line|) && k < |ps|
    ensures OccursAt(Splice(line, 0, ps), ps[k].pos + Added(ps[..k]), ps[k].text)
  {
    SpliceAt(line, 0, ps, k);
  }

  /** A rebuilt line is the splice of its placements, also when there are none. */
  lemma RebuiltSplice(line: string, ins: seq<Insertion>, inlineBlock: bool)
    requires Increasing(ins, 0, |line|)
    ensures Ordered(Placements(ins, inlineBlock), 0, |line|)
    ensures Rebuilt(line, ins, inlineBlock) == Splice(line, 0, Placements(ins, inlineBlock))
  {
    IncreasingPlacements(ins, inlineBlock, 0, |line|);
    assert line[0..] == line;
  }

  /** The `for` loop of `addBadgesInCurrentFile`: copy the original text up to each insertion
      position, append the badge block there, and finally copy the rest of the line. */
  method RebuildLine(line: string, ins: seq<Insertion>, inlineBlock: bool) returns (out: string)
    requires Increasing(ins, 0, |line|)
    ensures out == Rebuilt(line, ins, inlineBlock)
  {
    ghost var ps := Placements(ins, inlineBlock);
    IncreasingPlacements(ins, inlineBlock, 0, |line|);
    out := "";
    var cursor: nat := 0;
    for i := 0 to |ins|
      invariant cursor <= |line| && Ordered(ps[i..], cursor, |line|)
      invariant out + Splice(line, cursor, ps[i..]) == Splice(line, 0, ps)
    {
      PlacementAt(ins, inlineBlock, i);
      assert ps[i..][0] == ps[i] && ps[i..][1..] == ps[i + 1..];
      SpliceStep(line, cursor, ps[i..]);
      ghost var rest := Splice(line, ins[i].pos, ps[i + 1..]);
      ghost var before := out;
      var gap := line[cursor..ins[i].pos];
      var block := BadgeBlock(ins[i].badges, inlineBlock);
      out := out + gap + block;
      AppendAssoc3(before, gap, block, rest);
      cursor := ins[i].pos;
    }
    out := out + line[cursor..];
  }

  /** The first text of a splice: the gap up to its position, the text, then the rest. */
  lemma SpliceStep(line: string, cursor: nat, qs: seq<Placement>)
    requires cursor <= |line| && Ordered(qs, cursor, |line|) && qs != []
    ensures cursor <= qs[0].pos <= |line| && Ordered(qs[1..], qs[0].pos, |line|)
    ensures Splice(line, cursor, qs)
      == line[cursor..qs[0].pos] + qs[0].text + Splice(line, qs[0].pos, qs[1..])
  {
  }

  lemma AppendAssoc3(a: string, b: string, c: string, d: string)
    ensures a + b + c + d == a + (b + c + d)
  {
  }

  /** One line of `addBadgesInCurrentFile`: the line rebuilt with the insertions its links
      record; a line without insertions is kept as it is. */
  function RewriteLine(line: string, resolve: string -> seq<string>, inlineBlock: bool): (r: string)
    ensures Insertions(line, resolve) == [] ==> r == line
  {
    LineInsertions(line, resolve);
    Rebuilt(line, Insertions(line, resolve), inlineBlock)
  }

  /** The insertions of a line can be rebuilt into it. */
  lemma LineInsertions(line: string, resolve: string -> seq<string>)
    ensures Increasing(Insertions(line, resolve), 0, |line|)
  {
    IncreasingWeaken(Insertions(line, resolve), |line|);
  }

  /** A lower bound of strictly increasing positions can be lowered to 0. */
  lemma IncreasingWeaken(ins: seq<Insertion>, hi: nat)
    requires Increasing(ins, 1, hi)
    ensures Increasing(ins, 0, hi)
  {
  }

  /** Every line of a document rewritten. */
  function RewriteLines(lines: seq<string>, resolve: string -> seq<string>, inlineBlock: bool): (r: seq<string>)
    ensures |r| == |lines|
  {
    Map(line => RewriteLine(line, resolve, inlineBlock), lines)
  }

  /** Line `k` of the result is line `k` rewritten. */
  lemma RewriteLinesAt(lines: seq<string>, resolve: string -> seq<string>, inlineBlock: bool, k: nat)
    requires k < |lines|
    ensures RewriteLines(lines, resolve, inlineBlock)[k] == RewriteLine(lines[k], resolve, inlineBlock)
  {
    MapAt(line => RewriteLine(line, resolve, inlineBlock), lines, k);
  }

  /** No line has a link that resolves to badges. */
  predicate NoInsertions(lines: seq<string>, resolve: string -> seq<string>) {
    forall k | 0 <= k < |lines| :: Insertions(lines[k], resolve) == []
  }

  /** `addBadgesInCurrentFile` on the text of a note: the lines split at `\n`, each rewritten,
      joined again with `\n`.  A note in which no line has a link that resolves to badges comes
      back identical. */
  function RewriteDocument(content: string, resolve: string -> seq<string>, inlineBlock: bool): (r: string)
    ensures var lines := Split(content, '\n');
      NoInsertions(lines, resolve) ==> r == content
  {
    var lines := Split(content, '\n');
    var out := RewriteLines(lines, resolve, inlineBlock);
    if NoInsertions(lines, resolve) then
      RewriteLinesUnchanged(lines, resolve, inlineBlock);
      Join(out, "\n")
    else Join(out, "\n")
  }

  /** Lines without insertions are all kept. */
  lemma RewriteLinesUnchanged(lines: seq<string>, resolve: string -> seq<string>, inlineBlock: bool)
    requires NoInsertions(lines, resolve)
    ensures RewriteLines(lines, resolve, inlineBlock) == lines
  {
    var out := RewriteLines(lines, resolve, inlineBlock);
    forall k | 0 <= k < |lines| ensures out[k] == lines[k] {
      RewriteLinesAt(lines, resolve, inlineBlock, k);
      assert Insertions(lines[k], resolve) == [];
    }
  }

  /** The lines of the rewritten note are the rewritten lines, as long as no badge block spans
      several lines (inline mode, or single-line badges one per link). */
  lemma RewriteDocumentLines(content: string, resolve: string -> seq<string>, inlineBlock: bool)
    requires forall k | 0 <= k < |Split(content, '\n')| :: '\n' !in RewriteLine(Split(content, '\n')[k], resolve, inlineBlock)
    ensures Split(RewriteDocument(content, resolve, inlineBlock), '\n') == RewriteLines(Split(content, '\n'), resolve, inlineBlock)
  {
    var lines := Split(content, '\n');
    forall k | 0 <= k < |lines| ensures '\n' !in RewriteLines(lines, resolve, inlineBlock)[k] {
      RewriteLinesAt(lines, resolve, inlineBlock, k);
    }
    SplitJoin(RewriteLines(lines, resolve, inlineBlock), '\n');
  }

  /** `addBadgesInCurrentFile` without its editor calls: the note's text in, the new text out. */
  method AddBadgesInCurrentFile(content: string, settings: BadgeSettings) returns (updated: string)
    ensures updated == RewriteDocument(content, Resolver(settings), settings.inlineBlock)
  {
    var lines := Split(content, '\n');
    var updatedLines := RewriteEachLine(lines, settings);
    RewriteDocumentJoin(content, Resolver(settings), settings.inlineBlock);
    updated := Join(updatedLines, "\n");
  }

  /** The `for (const line of lines)` loop of `addBadgesInCurrentFile`: each line rewritten and
      pushed onto `updatedLines`. */
  method RewriteEachLine(lines: seq<string>, settings: BadgeSettings) returns (updatedLines: seq<string>)
    ensures updatedLines == RewriteLines(lines, Resolver(settings), settings.inlineBlock)
  {
    ghost var expected := RewriteLines(lines, Resolver(settings), settings.inlineBlock);
    updatedLines := [];
    for i := 0 to |lines|
      invariant updatedLines == expected[..i]
    {
      var resultLine := RewriteOneLine(lines[i], settings);
      RewriteLinesAt(lines, Resolver(settings), settings.inlineBlock, i);
      ExtendPrefix(expected, i, updatedLines, resultLine);
      updatedLines := updatedLines + [resultLine];
    }
    assert updatedLines == expected;
  }

  /** The body of the loop of `addBadgesInCurrentFile`: a line without insertions is kept
      (the `continue`), any other is rebuilt. */
  method RewriteOneLine(line: string, settings: BadgeSettings) returns (resultLine: string)
    ensures resultLine == RewriteLine(line, Resolver(settings), settings.inlineBlock)
  {
    var ins := ScanInsertions(line, settings);
    LineRebuilt(line, Resolver(settings), settings.inlineBlock, ins);
    if |ins| == 0 {
      return line;
    }
    resultLine := RebuildLine(line, ins, settings.inlineBlock);
  }

  /** The rewritten note is the rewritten lines joined with `\n`. */
  lemma RewriteDocumentJoin(content: string, resolve: string -> seq<string>, inlineBlock: bool)
    ensures RewriteDocument(content, resolve, inlineBlock)
      == Join(RewriteLines(Split(content, '\n'), resolve, inlineBlock), "\n")
  {
  }

  /** The rewritten line is the line rebuilt with the insertions the scan records. */
  lemma LineRebuilt(line: string, resolve: string -> seq<string>, inlineBlock: bool, ins: seq<Insertion>)
    requires ins == Insertions(line, resolve)
    ensures Increasing(ins, 0, |line|) && RewriteLine(line, resolve, inlineBlock) == Rebuilt(line, ins, inlineBlock)
  {
    LineInsertions(line, resolve);
  }

  lemma ExtendPrefix(all: seq<string>, i: nat, done: seq<string>, next: string)
    requires i < |all| && done == all[..i] && next == all[i]
    ensures done + [next] == all[..i + 1]
  {
  }

  // ---------------------------------------------------------------- the cursor command

  /** An insertion into the cursor's line: `text` put in at column `at`. */
  datatype Edit = Edit(at: nat, text: string)

  /** `editor.replaceRange(text, pos)` with a single position: `text` inserted into the line
      at column `at`.  Taking the text out again gives back the line. */
  function ApplyEdit(line: string, e: Edit): (r: string)
    requires e.at <= |line|
    ensures |r| == |line| + |e.text| && OccursAt(r, e.at, e.text)
    ensures r[..e.at] + r[e.at + |e.text|..] == line
  {
    var r := line[..e.at] + e.text + line[e.at..];
    assert r[..e.at] == line[..e.at] && r[e.at + |e.text|..] == line[e.at..];
    assert r[e.at..e.at + |e.text|] == e.text;
    r
  }

  /** The test of the cursor loop: column `ch` lies within the link, both ends included. */
  predicate Covers(m: LinkMatch, ch: nat) {
    m.start <= ch <= m.end
  }

  /** The first of the links that covers column `ch`. */
  function ContainingLink(links: seq<LinkMatch>, ch: nat): (r: Option<LinkMatch>)
    ensures r.Some? ==> r.value in links && Covers(r.value, ch)
    ensures r.None? <==> forall k | 0 <= k < |links| :: !Covers(links[k], ch)
  {
    if links == [] then None
    else if Covers(links[0], ch) then Some(links[0])
    else
      var r := ContainingLink(links[1..], ch);
      assert forall k | 1 <= k < |links| :: links[k] == links[1..][k - 1];
      r
  }

  /** The link chosen is the first covering one: every link before it leaves the cursor out. */
  lemma {:induction false} ContainingLinkFirst(links: seq<LinkMatch>, ch: nat, k: nat)
    requires k < |links| && Covers(links[k], ch)
    requires forall j | 0 <= j < k :: !Covers(links[j], ch)
    ensures ContainingLink(links, ch) == Some(links[k])
    decreases k
  {
    if k > 0 {
      ContainingLinkFirst(links[1..], ch, k - 1);
    }
  }

  /** The pattern of `extractRepoUrl`:
      `/https?:\/\/(www\.)?(github\.com|gitlab\.com)\/([^\/]+)\/([^\/]+)/`. */
  const CursorUrlPattern := UrlPattern(false, {GitHub, GitLab})

  /** `lineText.slice(0, ch)`: the line before the cursor; a column past the end keeps the
      whole line. */
  function BeforeCursor(line: string, ch: nat): (r: string)
    ensures |r| <= ch && StartsWith(line, r)
    ensures ch <= |line| ==> |r| == ch
    ensures ch > |line| ==> r == line
  {
    line[..if ch <= |line| then ch else |line|]
  }

  /** The pattern of `extractRepoUrl` matches at `i` in `s` and at no index before it. */
  predicate LeftmostUrlAt(s: string, i: nat) {
    i <= |s| && RepoAt(s, i, CursorUrlPattern).Some?
    && forall j | 0 <= j < i :: RepoAt(s, j, CursorUrlPattern).None?
  }

  /** `extractRepoUrl`: the text of the leftmost repository URL in the line before the cursor,
      or nothing.  The URL lies wholly before the cursor and starts with its scheme. */
  function ExtractRepoUrl(line: string, ch: nat): (r: Option<string>)
    ensures r.Some? ==> exists i: nat ::
      (LeftmostUrlAt(BeforeCursor(line, ch), i)
       && OccursAt(BeforeCursor(line, ch), i, r.value)
       && i + |r.value| == RepoAt(BeforeCursor(line, ch), i, CursorUrlPattern).value.end)
    ensures r.Some? ==> StartsWith(r.value, "https://") || StartsWith(r.value, "http://")
    ensures r.None? ==>
      forall i | 0 <= i <= |BeforeCursor(line, ch)| :: RepoAt(BeforeCursor(line, ch), i, CursorUrlPattern).None?
  {
    var before := BeforeCursor(line, ch);
    match FirstRepo(before, 0, CursorUrlPattern)
    case None => None
    case Some(m) =>
      MatchScheme(before, m);
      LeftmostMatch(before, m);
      var url := UrlText(before, m);
      Some(url)
  }

  /** A URL wherever it lies before the cursor is found: the command yields a URL, and when
      no earlier index matches, exactly the text of that match. */
  lemma ExtractRepoUrlComplete(line: string, ch: nat, k: nat, m: RepoMatch)
    requires k <= |BeforeCursor(line, ch)| && IsRepoMatchAt(BeforeCursor(line, ch), k, CursorUrlPattern, m)
    ensures ExtractRepoUrl(line, ch).Some?
    ensures LeftmostUrlAt(BeforeCursor(line, ch), k) ==>
      k <= m.end <= |BeforeCursor(line, ch)| && ExtractRepoUrl(line, ch) == Some(BeforeCursor(line, ch)[k..m.end])
  {
    var before := BeforeCursor(line, ch);
    RepoAtComplete(before, k, CursorUrlPattern, m);
    if LeftmostUrlAt(before, k) {
      var f := FirstRepo(before, 0, CursorUrlPattern);
      assert f.Some? && f.value.start == k;
    }
  }

  /** The text of a match: it begins with the scheme the pattern demands. */
  function UrlText(s: string, m: RepoMatch): (url: string)
    requires m.start <= |s| && m.start + |Scheme(s, m.start)| < m.end <= |s| && Scheme(s, m.start) != ""
    ensures url == s[m.start..m.end] && OccursAt(s, m.start, url)
    ensures StartsWith(url, "https://") || StartsWith(url, "http://")
  {
    OccursStarts(s, m.start, m.end, Scheme(s, m.start));
    s[m.start..m.end]
  }

  /** The match `match` returns is the match at its start, and no earlier index matches. */
  lemma LeftmostMatch(s: string, m: RepoMatch)
    requires FirstRepo(s, 0, CursorUrlPattern) == Some(m)
    ensures LeftmostUrlAt(s, m.start) && RepoAt(s, m.start, CursorUrlPattern) == Some(m)
  {
  }

  /** The scheme of a match lies within it. */
  lemma MatchScheme(s: string, m: RepoMatch)
    requires FirstRepo(s, 0, CursorUrlPattern) == Some(m)
    ensures m.start <= |s| && m.start + |Scheme(s, m.start)| < m.end <= |s|
    ensures Scheme(s, m.start) == "https://" || Scheme(s, m.start) == "http://"
  {
    assert m.start <= |s| && RepoAt(s, m.start, CursorUrlPattern) == Some(m);
    assert IsRepoMatchAt(s, m.start, CursorUrlPattern, m);
    var h := HostIndex(s, m.start);
    assert IsRepoPathAt(s, h, m);
    PathAfterHost(s, h, m);
  }

  /** A match ends after its host. */
  lemma PathAfterHost(s: string, h: nat, m: RepoMatch)
    requires IsRepoPathAt(s, h, m)
    ensures h < m.end <= |s|
  {
    assert IsPathFrom(s, h + |HostPrefix(m.platform)|, m);
  }

  /** The badge block of `badges` followed by a line break, at column `at`; nothing when there
      are no badges. */
  function BlockEdit(at: nat, badges: seq<string>, inlineBlock: bool): (r: Option<Edit>)
    ensures r.Some? <==> badges != []
    ensures r.Some? ==> r.value.at == at && r.value.text == BadgeBlock(badges, inlineBlock) + "\n"
  {
    if badges == [] then None else Some(Edit(at, BadgeBlock(badges, inlineBlock) + "\n"))
  }

  /** What `addBadgesAtCursorPosition` does to the cursor's line: when a link found by the
      global pattern covers the cursor, the first such link decides — its badges go in right
      after it, or nothing happens when it has none; only when no link covers the cursor is the
      repository URL before the cursor used, with its badges put in at the cursor. */
  function CursorEdit(line: string, ch: nat, resolve: string -> seq<string>, inlineBlock: bool): (r: Option<Edit>)
    ensures r.Some? ==>
      r.value.at == ch || exists m | m in LinksFrom(line, 0) :: Covers(m, ch) && r.value.at == m.end
  {
    match ContainingLink(LinksFrom(line, 0), ch)
    case Some(m) => BlockEdit(m.end, resolve(m.url), inlineBlock)
    case None =>
      match ExtractRepoUrl(line, ch)
      case None => None
      case Some(url) => BlockEdit(ch, resolve(url), inlineBlock)
  }

  /** Inside a link the cursor command puts in, right after the first link covering the cursor,
      exactly the badges the whole-file command records for that link, as a block followed by a
      line break; the URL before the cursor is then never looked at. */
  lemma CursorInLink(line: string, ch: nat, resolve: string -> seq<string>, inlineBlock: bool, k: nat)
    requires k < |LinksFrom(line, 0)| && Covers(LinksFrom(line, 0)[k], ch)
    requires forall j | 0 <= j < k :: !Covers(LinksFrom(line, 0)[j], ch)
    ensures var m := LinksFrom(line, 0)[k];
      var r := CursorEdit(line, ch, resolve, inlineBlock);
      (r.Some? <==> resolve(m.url) != [])
      && (r.Some? ==> r.value.at == m.end && r.value.text == BadgeBlock(resolve(m.url), inlineBlock) + "\n"
                      && Insertion(m.end, resolve(m.url)) in Insertions(line, resolve))
  {
    var links := LinksFrom(line, 0);
    var m := links[k];
    ContainingLinkFirst(links, ch, k);
    QualifyingMembership(links, resolve, Insertion(m.end, resolve(m.url)));
  }

  /** Outside every link the cursor command falls back on the URL before the cursor: with one
      whose badges are known they go in at the cursor, otherwise nothing happens. */
  lemma CursorOutsideLinks(line: string, ch: nat, resolve: string -> seq<string>, inlineBlock: bool)
    requires forall k | 0 <= k < |LinksFrom(line, 0)| :: !Covers(LinksFrom(line, 0)[k], ch)
    ensures var r := CursorEdit(line, ch, resolve, inlineBlock);
      var url := ExtractRepoUrl(line, ch);
      (r.Some? <==> url.Some? && resolve(url.value) != [])
      && (r.Some? ==> r.value.at == ch && r.value.text == BadgeBlock(resolve(url.value), inlineBlock) + "\n")
  {
  }

  /** Every edit of the cursor command lands within the line when the cursor does: after a
      link, or at the cursor. */
  lemma CursorEditWithin(line: string, ch: nat, resolve: string -> seq<string>, inlineBlock: bool)
    requires ch <= |line| && CursorEdit(line, ch, resolve, inlineBlock).Some?
    ensures var e := CursorEdit(line, ch, resolve, inlineBlock).value;
      e.at <= |line| && (e.at == ch || exists m | m in LinksFrom(line, 0) :: Covers(m, ch) && e.at == m.end)
  {
    var c := ContainingLink(LinksFrom(line, 0), ch);
    if c.Some? {
      var m := c.value;
      assert CursorEdit(line, ch, resolve, inlineBlock) == BlockEdit(m.end, resolve(m.url), inlineBlock);
      LinkWithin(line, m);
    }
  }

  /** A link found in a line ends within it. */
  lemma LinkWithin(line: string, m: LinkMatch)
    requires m in LinksFrom(line, 0)
    ensures m.end <= |line|
  {
    var links := LinksFrom(line, 0);
    var k :| 0 <= k < |links| && links[k] == m;
  }

  /** The first covering link of a list is its head when that covers the column, and the first
      covering link of its tail otherwise. */
  lemma ContainingCons(m: LinkMatch, rest: seq<LinkMatch>, ch: nat)
    ensures ContainingLink([m] + rest, ch) == if Covers(m, ch) then Some(m) else ContainingLink(rest, ch)
  {
    assert ([m] + rest)[1..] == rest;
  }

  /** `addBadgesAtCursorPosition` on the cursor's line and column: scan the links with the
      global pattern until one covers the cursor (`break`), and fall back on the URL before the
      cursor when none does.  The result is the insertion to make, if any. */
  method AddBadgesAtCursorPosition(line: string, ch: nat, settings: BadgeSettings) returns (edit: Option<Edit>)
    ensures edit == CursorEdit(line, ch, Resolver(settings), settings.inlineBlock)
  {
    ghost var target := ContainingLink(LinksFrom(line, 0), ch);
    edit := None;
    var found := false;
    var last := 0;
    var next := NextLink(line, last);
    while next.Some?
      invariant last <= |line| && next == NextLink(line, last)
      invariant ContainingLink(LinksFrom(line, last), ch) == target
      decreases |line| - last
    {
      var m := next.value;
      LinksStep(line, last, m);
      ContainingCons(m, LinksFrom(line, m.end), ch);
      if m.start <= ch && ch <= m.end {
        var badges := BadgesOf(m.url, settings);
        if |badges| > 0 {
          edit := Some(Edit(m.end, BadgeBlock(badges, settings.inlineBlock) + "\n"));
        }
        assert edit == BlockEdit(m.end, Resolver(settings)(m.url), settings.inlineBlock);
        found := true;
        break;
      }
      last := m.end;
      next := NextLink(line, last);
    }
    if !found {
      assert target.None?;
      var url := ExtractRepoUrl(line, ch);
      if url.Some? {
        var badges := BadgesOf(url.value, settings);
        if |badges| > 0 {
          edit := Some(Edit(ch, BadgeBlock(badges, settings.inlineBlock) + "\n"));
        }
      }
    }
  }

  // ---------------------------------------------------------------- a line holding one link

  /** No link starts where there is no `[`. */
  lemma NoLinkWithoutBracket(s: string, i: nat)
    requires i <= |s| && (i == |s| || s[i] != '[')
    ensures LinkAt(s, i).None?
  {
  }

  /** In a line made of a `[`-free text, a repository link and a `[`-free text that does not
      carry the name on, the global pattern finds exactly that link. */
  lemma LinksOfLinkLine(pre: string, caption: string, sc: string, w: string, p: Platform,
                        author: string, name: string, post: string) returns (m: LinkMatch)
    requires caption != "" && ']' !in caption
    requires (sc == "https://" || sc == "http://") && IsWwwText(w)
    requires IsLinkSegment(author) && IsLinkSegment(name)
    requires post == [] || !Admits(NotSlashOrSpace, post[0])
    requires '[' !in pre && '[' !in post
    ensures var url := RepoUrl(sc, w, p, author, name);
      var link := LinkText(caption, url);
      LinksFrom(pre + link + post, 0) == [m]
      && m.start == |pre| && m.end == |pre| + |link| && m.url == url
      && m.group.platform == p && m.group.author == author && m.group.name == name
  {
    var url := RepoUrl(sc, w, p, author, name);
    var link := LinkText(caption, url);
    var s := pre + link + post;
    assert LinkAt(s, |pre|).Some? && LinkAt(s, |pre|).value.end == |pre| + |link|
      && LinkAt(s, |pre|).value.url == url && LinkAt(s, |pre|).value.group.platform == p
      && LinkAt(s, |pre|).value.group.author == author && LinkAt(s, |pre|).value.group.name == name by {
      LinkAtText(pre, caption, sc, w, p, author, name, post);
    }
    m := LinkAt(s, |pre|).value;
    OnlyLink(pre, link, post, m);
  }

  /** A line whose only `[` outside `link` is none at all, with the link pattern matching
      `link` exactly: the scan finds that one match and nothing else. */
  lemma OnlyLink(pre: string, link: string, post: string, m: LinkMatch)
    requires '[' !in pre && '[' !in post
    requires LinkAt(pre + link + post, |pre|) == Some(m) && m.end == |pre| + |link|
    ensures LinksFrom(pre + link + post, 0) == [m]
  {
    var s := pre + link + post;
    NoLinkBefore(pre, link, post);
    NoLinkAfter(pre, link, post);
    LinksOnly(s, m);
  }

  /** Where the link pattern matches at `m`'s start and nowhere before it or from its end on,
      the scan finds `m` alone. */
  lemma LinksOnly(s: string, m: LinkMatch)
    requires m.start <= |s| && LinkAt(s, m.start) == Some(m)
    requires forall i | 0 <= i < m.start :: LinkAt(s, i).None?
    requires forall i | m.end <= i <= |s| :: LinkAt(s, i).None?
    ensures LinksFrom(s, 0) == [m]
  {
    var found := LinkMatcher(s);
    forall i | 0 <= i < m.start ensures found(i).None? {
      assert LinkAt(s, i).None?;
    }
    forall i | m.end <= i <= |s| ensures found(i).None? {
      assert LinkAt(s, i).None?;
    }
    ScanOnly(found, |s|, m);
  }

  /** No link starts within a `[`-free front of a line. */
  lemma NoLinkBefore(pre: string, link: string, post: string)
    requires '[' !in pre
    ensures forall i | 0 <= i < |pre| :: LinkAt(pre + link + post, i).None?
  {
    var s := pre + link + post;
    forall i | 0 <= i < |pre| ensures LinkAt(s, i).None? {
      assert s[i] == pre[i];
      NoLinkWithoutBracket(s, i);
    }
  }

  /** No link starts within a `[`-free back of a line, nor at its end. */
  lemma NoLinkAfter(pre: string, link: string, post: string)
    requires '[' !in post
    ensures forall i | |pre| + |link| <= i <= |pre + link + post| :: LinkAt(pre + link + post, i).None?
  {
    var s := pre + link + post;
    forall i | |pre| + |link| <= i <= |s| ensures LinkAt(s, i).None? {
      if i < |s| {
        assert s[i] == post[i - |pre| - |link|];
      }
      NoLinkWithoutBracket(s, i);
    }
  }

  /** The whole-file command on a line holding one repository link: the link's badge block goes
      in right after the link's `)`, and the text around it is kept; with no badges the line
      is kept as it is. */
  lemma RewriteLinkLine(pre: string, caption: string, sc: string, w: string, p: Platform,
                        author: string, name: string, post: string,
                        resolve: string -> seq<string>, inlineBlock: bool)
    requires caption != "" && ']' !in caption
    requires (sc == "https://" || sc == "http://") && IsWwwText(w)
    requires IsLinkSegment(author) && IsLinkSegment(name)
    requires post == [] || !Admits(NotSlashOrSpace, post[0])
    requires '[' !in pre && '[' !in post
    ensures var url := RepoUrl(sc, w, p, author, name);
      var link := LinkText(caption, url);
      RewriteLine(pre + link + post, resolve, inlineBlock)
        == pre + link + BadgeBlock(resolve(url), inlineBlock) + post
  {
    var url := RepoUrl(sc, w, p, author, name);
    var link := LinkText(caption, url);
    var s := pre + link + post;
    var m := LinksOfLinkLine(pre, caption, sc, w, p, author, name, post);
    SingleLinkInsertions(s, resolve, m);
    RewriteAtMostOne(s, resolve, inlineBlock, m.end, resolve(url));
    assert s[..m.end] == pre + link && s[m.end..] == post;
  }

  /** A line with at most one insertion, at `q`, gets its block there. */
  lemma RewriteAtMostOne(line: string, resolve: string -> seq<string>, inlineBlock: bool,
                         q: nat, badges: seq<string>)
    requires q <= |line|
    requires Insertions(line, resolve) == if badges == [] then [] else [Insertion(q, badges)]
    ensures RewriteLine(line, resolve, inlineBlock)
      == line[..q] + BadgeBlock(badges, inlineBlock) + line[q..]
  {
    if badges == [] {
      RewriteNothing(line, resolve, inlineBlock, q);
    } else {
      RewriteOne(line, resolve, inlineBlock, q, badges);
    }
  }

  /** A line with no insertions is kept as it is. */
  lemma RewriteNothing(line: string, resolve: string -> seq<string>, inlineBlock: bool, q: nat)
    requires q <= |line| && Insertions(line, resolve) == []
    ensures RewriteLine(line, resolve, inlineBlock) == line[..q] + BadgeBlock([], inlineBlock) + line[q..]
  {
    TakeDrop(line, q);
  }

  /** A line with one insertion gets its block at its offset. */
  lemma RewriteOne(line: string, resolve: string -> seq<string>, inlineBlock: bool, q: nat, badges: seq<string>)
    requires q <= |line| && Insertions(line, resolve) == [Insertion(q, badges)]
    ensures RewriteLine(line, resolve, inlineBlock) == line[..q] + BadgeBlock(badges, inlineBlock) + line[q..]
  {
    LineRebuilt(line, resolve, inlineBlock, [Insertion(q, badges)]);
    RebuiltOne(line, q, badges, inlineBlock);
  }

  /** A line in which the global pattern finds one link records one insertion at its end, or
      none when it has no badges. */
  lemma SingleLinkInsertions(line: string, resolve: string -> seq<string>, m: LinkMatch)
    requires LinksFrom(line, 0) == [m]
    ensures m.end <= |line|
    ensures Insertions(line, resolve)
      == if resolve(m.url) == [] then [] else [Insertion(m.end, resolve(m.url))]
  {
    assert m == LinksFrom(line, 0)[0];
    QualifyingCons(m, [], resolve);
  }

  /** One insertion puts its block at its position. */
  lemma RebuiltOne(line: string, q: nat, badges: seq<string>, inlineBlock: bool)
    requires q <= |line|
    ensures Increasing([Insertion(q, badges)], 0, |line|)
    ensures Rebuilt(line, [Insertion(q, badges)], inlineBlock)
      == line[..q] + BadgeBlock(badges, inlineBlock) + line[q..]
  {
    var ins := [Insertion(q, badges)];
    RebuiltSplice(line, ins, inlineBlock);
    PlacementAt(ins, inlineBlock, 0);
    var ps := Placements(ins, inlineBlock);
    assert ps == [Placement(q, BadgeBlock(badges, inlineBlock))];
    assert ps[1..] == [];
    assert Splice(line, 0, ps) == line[0..q] + BadgeBlock(badges, inlineBlock) + line[q..];
  }

  /** On a line whose only link covers the cursor, that link decides the cursor command. */
  lemma CursorOnSingleLink(line: string, ch: nat, resolve: string -> seq<string>, inlineBlock: bool, m: LinkMatch)
    requires LinksFrom(line, 0) == [m] && Covers(m, ch)
    ensures CursorEdit(line, ch, resolve, inlineBlock) == BlockEdit(m.end, resolve(m.url), inlineBlock)
  {
    assert ContainingLink([m], ch) == Some(m);
  }
}
