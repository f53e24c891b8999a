# Repository badges for Obsidian notes, modelled in Dafny

This project models the text transformation at the heart of the obsidian-repo-badges plugin.
The plugin finds GitHub and GitLab repository links in a markdown note and puts shields.io
badges right after them. Its parts:

- The **badge resolver** (`src/badges.ts`). It decides which repository a URL names: the
  GitHub pattern is tried first, then the GitLab one. It keeps the badge templates whose
  `![title]` starts with the platform name, and fills in the author and name placeholders.
- The **line rewriter** (`addBadgesInCurrentFile`). It splits a note into lines and scans
  each line with the global link pattern. For each link that resolves to badges it records
  an insertion at the link's end. It rebuilds the line with a moving cursor and joins the
  lines again.
- The **cursor command** (`addBadgesAtCursorPosition` and `extractRepoUrl`). It picks the
  first link whose span covers the cursor column. When no link covers the cursor, it falls
  back on the leftmost repository URL in the text before the cursor. It yields one
  insertion of the badge block plus a line break.
- **`getBadgeBlock`**. In inline mode each badge is wrapped in an inline-block span and the
  badges are joined with single spaces. Otherwise the badges go one per line.
- The **settings data** (`src/settings.ts`). These are the six preset templates and the
  default settings. The normalisation applied to the template text the user types splits
  it at line breaks, trims each line and drops the empty ones.
- The **repository helpers** (`src/utils.ts`): `extractRepoInfo` and `formatBadgeMarkdown`.

The regular expressions are written as character-level matchers (module `Patterns` and the
link matcher in `Commands`). For these particular patterns, backtracking never changes the
result at a given start index, with one exception. In the link pattern, the repository name
`[^\/\s]+` is followed by `\)`. There the match backtracks to the last `)` inside the run,
which `LastClose` computes. `String.prototype.match` is the leftmost match. The global
`exec` loop resumes each search at the end of the previous match.

The editor and the vault are replaced by values:

- the whole-file command maps the note's text to the new text;
- the cursor command maps a line and a cursor column to an optional `Edit` (a column and
  the text to insert there);
- `ApplyEdit` states what putting that text into the line does.

`getBadges` depends on the settings, so it is passed to the commands as a function from URL
to badges (`Resolver(settings)`). The general lemmas hold for any such function.

Modules:

| File | Module | Contents |
|---|---|---|
| `wrappers.dfy` | `Wrappers` | `Option` |
| `text.dfy` | `Text` | the JavaScript string operations used: trim, indexOf, replace, split, join, ASCII lower-casing |
| `lists.dfy` | `Lists` | `map` and `filter` over sequences |
| `patterns.dfy` | `Patterns` | the repository-URL patterns |
| `settings.dfy` | `Settings` | presets, defaults and normalisation |
| `badges.dfy` | `Badges` | the resolver |
| `presets.dfy` | `Presets` | what the resolver does with the presets |
| `utils.dfy` | `Utils` | the repository helpers |
| `commands.dfy` | `Commands` | the two commands |

## Model

| member | source | states |
|---|---|---|
| Commands.LabelEnd | src/commands.ts:15 | What it finds at `i` is `\[([^\]]+)\]\(`: a `[`, a non-empty `]`-free label, then `](`, and the URL group begins after it. |
| Commands.LabelComplete | src/commands.ts:15 | Every such label at `i` is the one `LabelEnd` finds: the label runs to the first `]`. |
| Commands.LastClose | src/commands.ts:15 | The last `)` in a range: it lies in the range, no `)` follows it there, and there is none in the range when nothing is returned. The name of a link backtracks to this `)`. |
| Commands.UrlGroupExactly | src/commands.ts:15 | `LinkUrlEnd` finds exactly the URL groups: a scheme, `www.` if present, `github.com/` or `gitlab.com/`, an author free of `/` and white space, `/`, a name free of them ending at the last `)` of its run, and that `)`. |
| Commands.LinkAt | src/commands.ts:15 | A match at `i` starts at `i`, its URL group starts after the label `LabelEnd` finds, and it ends within the line. |
| Commands.LinkAtExactly | src/commands.ts:15 | The link pattern matches at `i` with `m` iff a label and a URL group follow there. `m.end` is one past the group's `)`, and `m.url` is the group's text (the second capture). |
| Commands.LinkRepo | src/commands.ts:15 | A link's URL names the repository of the link's host, author and name, as `getBadges` detects it. |
| Commands.LinkAtText | src/commands.ts:15 | `[caption](url)` for a repository URL is matched where it begins, with its full length, that URL, and its host, author and name. The text after it must not carry the name on. |
| Commands.NextLinkLeftmost | src/commands.ts:23 | `exec` from `lastIndex` returns the match at its start, with no match between `lastIndex` and it. It returns `None` only when no index from `lastIndex` on matches. |
| Commands.LinksFrom | src/commands.ts:23 | The successive `exec` matches start at or after the search start and end within the line. Each starts at or after the end of the one before: they are ordered and do not overlap. |
| Commands.LinksCover | src/commands.ts:23 | No match is skipped: every index where the pattern matches lies within one of the collected matches. |
| Commands.LinksAreMatches | src/commands.ts:23 | Every collected match is the link match at its own start index. |
| Commands.Insertions | src/commands.ts:23-29 | Every recorded insertion carries at least one badge. The positions strictly increase and lie in `1..|line|`. |
| Commands.QualifyingMembership | src/commands.ts:24-28 | An insertion is recorded iff its badges are non-empty and it is `(end of some link, that link's badges)`. A link with zero badges leaves no insertion. |
| Commands.ScanInsertions | src/commands.ts:23-29 | The `while (exec)` loop records exactly `Insertions(line, resolve)`: one insertion per link found by the global pattern, in scan order, skipping links whose badge list is empty. |
| Commands.RebuildLine | src/commands.ts:36-47 | The splice loop (copy the original up to each position, append the block, move the cursor, copy the tail) returns `Rebuilt(line, ins, inlineBlock)`. |
| Commands.Rebuilt | src/commands.ts:31-47 | With no insertions the line is unchanged. Removing the blocks gives back the original line. The length is the original length plus the total length of the blocks. |
| Commands.RebuiltBlocks | src/commands.ts:38-45 | Block `k` appears in the rebuilt line at its recorded position, shifted by the lengths of the blocks before it. |
| Commands.StripSplice | src/commands.ts:38-47 | Stripping the inserted texts from any splice from `cursor` on gives back `line[cursor..]`. |
| Commands.RewriteLine | src/commands.ts:31-33 | A line for which no insertion is recorded is emitted unchanged. |
| Commands.RewriteLinkLine | src/commands.ts:17-48 | A line made of `[`-free text, one repository link and `[`-free text gets that link's badge block right after its `)`, with the surrounding text kept. A link without badges leaves the line as it is. |
| Commands.RewriteOneLine | src/commands.ts:18-48 | The loop body (scan, `continue` when nothing was recorded, otherwise rebuild) computes `RewriteLine`. |
| Commands.RewriteEachLine | src/commands.ts:17-49 | The per-line loop pushes exactly the rewritten lines, in order. |
| Commands.RewriteDocument | src/commands.ts:12-51 | The note is split at `\n`, each line rewritten, and the results joined with `\n`. A note with no qualifying link comes back identical. |
| Commands.RewriteDocumentLines | src/commands.ts:12-51 | When no rewritten line holds a line break, splitting the new note gives exactly the rewritten lines. |
| Commands.AddBadgesInCurrentFile | src/commands.ts:5-53 | The whole-file command maps the note's text to `RewriteDocument(content, Resolver(settings), inlineBlock)`. |
| Commands.BadgeBlock | src/commands.ts:105-111 | An empty badge list gives `""`. A single badge gives the badge itself, or the badge wrapped in the inline-block span in inline mode. |
| Commands.BadgeBlockAppend | src/commands.ts:107-109 | One more badge adds `" "` plus the wrapped badge in inline mode, or `"\n"` plus the badge otherwise. |
| Commands.BadgeBlockLines | src/commands.ts:109 | Outside inline mode the lines of the block are the badges, when no badge spans lines. |
| Commands.ContainingLink | src/commands.ts:68-84 | A chosen link is one of the links and covers the cursor (`start <= ch <= end`). No link is chosen iff none covers the cursor. |
| Commands.ContainingLinkFirst | src/commands.ts:71-82 | The chosen link is the first covering one; `break` stops at it. |
| Commands.CursorEdit | src/commands.ts:68-96 | An edit goes in at the cursor column, or at the end of a link that covers the cursor. |
| Commands.AddBadgesAtCursorPosition | src/commands.ts:55-97 | The scan loop with its `found` flag and `break`, and the fallback, return exactly `CursorEdit(line, ch, Resolver(settings), inlineBlock)`. |
| Commands.CursorInLink | src/commands.ts:71-83 | When a link covers the cursor, the first such link decides. An edit happens iff its URL has badges. The edit is at the link end, with the block plus `"\n"`, and the whole-file command records the same insertion. |
| Commands.CursorOutsideLinks | src/commands.ts:86-96 | When no link covers the cursor, an edit happens iff a URL is found before the cursor and has badges. It goes at the cursor column, with the block plus `"\n"`. |
| Commands.LinksOfLinkLine | src/commands.ts:23 | In a line made of `[`-free text, one repository link and `[`-free text, the global pattern finds exactly that link. Its ends, URL, platform, author and name are as written. |
| Commands.CursorOnSingleLink | src/commands.ts:68-84 | On a line where the only link found covers the cursor (both ends included), the edit is the badge block plus `"\n"` right after the link's `)`, or nothing when the link has no badges. |
| Commands.CursorEditWithin | src/commands.ts:77-93 | Every edit lands within the line when the cursor does: at the cursor, or at the end of a link that covers it. |
| Commands.ExtractRepoUrl | src/commands.ts:99-103 | A returned URL is the text of the leftmost match in `line[..ch]`, so it lies wholly before the cursor and starts with `https://` or `http://`. Nothing is returned iff no index of that prefix matches. |
| Commands.ExtractRepoUrlComplete | src/commands.ts:99-103 | A match of the URL pattern at any index of `line[..ch]` means a URL is returned; when no earlier index matches, the URL is exactly that match's text, wherever in the line it starts. |
| Commands.BeforeCursor | src/commands.ts:101 | `slice(0, ch)` is a prefix of the line of length `ch`, or the whole line when `ch` is past its end. |
| Commands.ApplyEdit | src/commands.ts:79-93 | Inserting at a column puts the text there, grows the line by its length, and removing it gives back the line. |
| Patterns.RepoAt | src/badges.ts:4-5 | A match at `i` has a scheme (unless the pattern makes it optional), `www.` if present, an admitted host, a non-empty `/`-free author, `/`, and the longest non-empty `/`-free name after it. |
| Patterns.RepoAtComplete | src/badges.ts:4-5 | Conversely, every such match at `i` is the one found there, so `RepoAt` finds a match at `i` exactly when one exists. |
| Patterns.PathAtComplete | src/badges.ts:4-5 | A `/`-free author, `/` and the longest `/`-free name after the host are always read as the second and third groups. |
| Patterns.FirstRepo | src/badges.ts:7 | `String.prototype.match`: the returned match is the match at its start, no index before it matches, and nothing is returned iff no index matches. |
| Badges.RepoOf | src/badges.ts:4-19 | The GitHub pattern is tried first: a GitLab result means the GitHub pattern matched nowhere. Author and name are the second and third groups of the leftmost match of the platform's pattern. There is no result iff neither pattern matches. |
| Badges.RepoOfComplete | src/badges.ts:4-19 | A match of either host's pattern anywhere in the URL gives a result; a GitHub match with no GitHub match before it gives that match's author and name. |
| Badges.RepoOfUrl | src/badges.ts:4-19 | `http(s)://[www.]<host>/<author>/<name>` is recognised as that repository, on either host. |
| Badges.GetBadges | src/badges.ts:3-22 | A URL matching neither pattern gets `[]`. Otherwise the result is the resolution for the detected platform, author and name. It never has more badges than templates. |
| Badges.GetBadgesForRepo | src/badges.ts:24-46 | Each badge is some selected template with the placeholders substituted (`Selected`, `Substitute`), and there are never more badges than templates. |
| Badges.ResolveSelected | src/badges.ts:32-45 | The result is an order-preserving image of the selected templates. Its `j`-th badge is the `j`-th selected template (selected indices strictly increase) with the placeholders substituted. |
| Badges.SelectedFrom | src/badges.ts:32-43 | The selected indices strictly increase, each selects its template, and every selected template's index is among them. |
| Badges.NeverSelected | src/badges.ts:33-40 | Empty, blank (`trim() === ''`) and `#`-prefixed templates, and templates without `![title]`, are never selected by `Selected`. |
| Badges.SelectedByTitle | src/badges.ts:37-42 | A template starting with a visible character other than `#` is selected iff its first `![title]` (`TitleOf`) exists and the lower-cased title starts with the platform. |
| Badges.TitleFrom | src/badges.ts:37 | The title of the leftmost `![…]` with a non-empty `]`-free title; none when no index has one. |
| Badges.TitleAtComplete | src/badges.ts:37 | `![`, a non-empty `]`-free title and `]` at any index are matched there with that title, so a title is found at `i` exactly when `IsTitleAt` holds. |
| Badges.TitleFromComplete | src/badges.ts:37 | A title at any index `k`, with none between the start and `k`, is the title found, whether or not the template begins with it. |
| Badges.TitleOfLeading | src/badges.ts:37 | A template beginning with `![title]` has that title. |
| Badges.SubstituteAt | src/badges.ts:44 | `Substitute` replaces only the first occurrence of each placeholder: the author placeholder first, then the name placeholder in that result. |
| Badges.SubstituteWithoutPlaceholders | src/badges.ts:44 | A template containing neither placeholder is returned unchanged. |
| Badges.ResolveAppend | src/badges.ts:32-45 | Resolution distributes over concatenating template lists. |
| Badges.ResolveNone | src/badges.ts:32-43 | When no template is selected, nothing is resolved. |
| Badges.ResolveAll | src/badges.ts:32-45 | When every template is selected, each is resolved in order. |
| Badges.CommentOut | src/badges.ts:33 | Prefixing a template with `#` removes it from every resolution and changes nothing else. |
| Settings.NormaliseMembership | src/settings.ts:50 | A string is stored iff it is non-empty and is the trim of some input line. |
| Settings.NormaliseEntries | src/settings.ts:50 | Every stored entry is non-empty and trimmed. |
| Settings.NormaliseTemplates | src/settings.ts:50 | Every entry stored from the text area is non-empty, trimmed and free of line breaks. |
| Settings.NormaliseAppend | src/settings.ts:50 | Normalisation keeps the order of lines: it distributes over concatenation. |
| Settings.NormaliseKeepsComments | src/settings.ts:45-50 | `#` comment lines survive normalisation. |
| Settings.NormaliseNormal | src/settings.ts:50 | A list of non-empty trimmed entries is already normal. |
| Settings.TextAreaRoundTrip | src/settings.ts:48-50 | Showing the stored list joined with `\n` and normalising again gives the stored list back. |
| Presets.GitHubSelection | src/settings.ts:5-12 | Of the six entries of `PresetBadges`, `github` selects the first three and none of the last three. |
| Presets.GitLabSelection | src/settings.ts:5-12 | Of the six entries of `PresetBadges`, `gitlab` selects the last three and none of the first three. |
| Presets.PresetsForGitHub | src/settings.ts:5-12 | Resolving `github` over the presets yields exactly the first three, filled in, in order. |
| Presets.PresetsForGitLab | src/settings.ts:5-12 | Resolving `gitlab` over the presets yields exactly the last three, filled in, in order. |
| Presets.DefaultBadgesForGitHubUrl | src/settings.ts:21-26 | With `DefaultSettings` (`{author}`/`{name}` placeholders, the presets), a GitHub repository URL gets the three GitHub badges. |
| Utils.ExtractRepoInfo | src/utils.ts:12-22 | A result's author and name are non-empty and `/`-free, and are the ones right after the host of the leftmost match; the name runs to the end or to the next `/`. No result iff no index matches. |
| Utils.ExtractRepoInfoNone | src/utils.ts:13-21 | The result is null iff no `github.com/` or `gitlab.com/` is followed by two non-empty `/`-free segments. |
| Utils.ExtractRepoInfoOfUrl | src/utils.ts:13 | Scheme and `www.` are optional: `[scheme][www.]<host>/<author>/<name>` yields that author and name. |
| Utils.FormatBadgeMarkdown | src/utils.ts:24-26 | The formatted badge is a markdown image titled `<badgeType> badge`. |
| Utils.FormattedBadgeSelected | src/utils.ts:24-26 | Used as a template, a formatted badge is selected for a platform iff its lower-cased title starts with the platform name. |
| Text.Trim | src/settings.ts:50 | `trim()` yields an infix of the string with no leading or trailing white space, and everything cut off on either side is white space. |
| Text.TrimBlank | src/badges.ts:33 | The trim is empty iff the string is all white space. |
| Text.ReplaceFirst | src/badges.ts:44 | Without an occurrence the string is unchanged. Otherwise, for a `$`-free replacement, exactly the first occurrence is replaced. |
| Text.Split | src/commands.ts:12 | `split('\n')` gives at least one piece, no piece contains `\n`, and joining the pieces with `\n` gives the text back. |
| Text.SplitJoin | src/commands.ts:12-51 | Splitting undoes joining for `\n`-free pieces. |

## Left out

- The Obsidian host is not modelled. This covers the active-file and `.md` checks, `vault.read`/`vault.modify` and their async boundary, the null-editor check, `editor.getCursor`/`getLine`/`replaceRange`, and the settings panel with its persistence. The text and cursor are inputs, and the new text or the edit is the output.
- `isValidUrl` is not modelled: it delegates to the WHATWG URL parser, a foreign library.
- The unused `badgeIdx` counter is not modelled; it has no observable effect.
- The shared `lastIndex` of the global link pattern is not modelled. The scan of every line runs until no match is left, which resets `lastIndex`, so each line is scanned from 0.
- Badges.Selected: `toLowerCase` is modelled on ASCII letters only. Other letters of a title are kept as they are.
- Columns count characters. A Dafny `char` is a Unicode scalar value, while `cursor.ch`, `match.index` and `slice` count UTF-16 code units. After a character outside the Basic Multilingual Plane (an emoji, say) the model's columns are smaller than JavaScript's by one per such character.
- Commands.ApplyEdit requires the column to lie within the line. Obsidian's editor clamps a column past the end, and that clamping is not modelled. CursorEditWithin shows that every edit of the cursor command lies within the line when the cursor does.
- Text.ReplaceFirst: its contract gives the plain result only for a replacement without `$`. The `$$`, `$&`, `` $` `` and `$'` expansions are computed by `Expand`, but nothing is proved about them.
- Commands.RewriteDocumentLines requires that no rewritten line contains a line break. Outside inline mode, a link with two or more badges puts a multi-line block into its line. The new note is then not split back into the same lines. The lemma does not claim it is.
- Commands.BadgeBlock: the contract spells out the empty and one-badge cases. Longer lists are characterised one badge at a time by BadgeBlockAppend.
- Commands.LinkAt: its own contract gives only the bounds of a match. What a match is, in both directions, is stated by LinkAtExactly and UrlGroupExactly.
- Commands.RewriteLinkLine and Commands.LinksOfLinkLine cover lines whose text around the link holds no `[`. Lines with several links are covered by the general lemmas (ScanInsertions, RebuiltBlocks, CursorInLink).
- Presets.PresetsForGitHub, Presets.PresetsForGitLab and Presets.DefaultBadgesForGitHubUrl require that the author holds no `{` and that neither author nor name holds `$`. The exact condition for the first is that `{name}` does not occur in the author. Without it the name substitution would hit the author's copy. The `{`-free form is kept because it is simpler to state and to prove.
- The settings panel's `saveSettings` is not modelled. The plugin's lifecycle and command registration in `main.ts` are not part of this model.
