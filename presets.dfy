/** The preset badge templates (src/settings.ts) seen through the badge resolver
    (src/badges.ts): which presets each platform selects, and what they resolve to. */
module Presets {
  import opened Text
  import opened Settings
  import opened Patterns
  import opened Badges
  import opened Lists

  /** The fixed text before the author placeholder of a shields.io template holds no `{`. */
  lemma ShieldsPrefixNoBrace(title: string, path: string)
    requires '{' !in title && '{' !in path
    ensures '{' !in "![" + title + "](" + ShieldsIo + path + "/"
  {
    assert '{' !in ShieldsIo;
    assert '{' !in "![" && '{' !in "](" && '{' !in "/";
  }

  /** A shields.io template is selected exactly when its lower-cased title starts with the
      platform. */
  lemma SelectShieldsImage(platform: string, title: string, path: string, query: string)
    requires title != "" && ']' !in title
    ensures Selected(platform, ShieldsImage(title, path, query, "{author}", "{name}"))
         == StartsWith(LowerAscii(title), platform)
  {
    var t := ShieldsImage(title, path, query, "{author}", "{name}");
    var rest := "(" + ShieldsIo + path + "/" + "{author}" + "/" + "{name}" + query + ")";
    assert t == "![" + title + "]" + rest;
    TitleOfLeading(title, rest);
    SelectedByTitle(platform, t);
  }

  /** Filling a shields.io template puts the author and name in the placeholders' places. */
  lemma FillShieldsImage(title: string, path: string, query: string, author: string, name: string)
    requires '{' !in title && '{' !in path
    requires '{' !in author && '$' !in author && '$' !in name
    ensures Substitute(ShieldsImage(title, path, query, "{author}", "{name}"), "{author}", author, "{name}", name)
         == ShieldsImage(title, path, query, author, name)
  {
    var t := ShieldsImage(title, path, query, "{author}", "{name}");
    var pre := "![" + title + "](" + ShieldsIo + path + "/";
    var post := query + ")";
    assert t == pre + "{author}" + "/" + "{name}" + post;
    ShieldsPrefixNoBrace(title, path);
    assert "{author}"[0] == '{' && "{name}"[0] == '{';
    assert '{' !in pre + author + "/";
    SubstituteAt(pre, "/", post, "{author}", author, "{name}", name);
    assert pre + author + "/" + name + post == ShieldsImage(title, path, query, author, name);
  }

  /** The GitHub preset titles hold no `]` and no `{`. */
  lemma GitHubTitlesPlain()
    ensures ']' !in "GitHub stars" && '{' !in "GitHub stars"
    ensures ']' !in "GitHub release" && '{' !in "GitHub release"
    ensures ']' !in "GitHub top language" && '{' !in "GitHub top language"
  {
  }

  /** The GitLab preset titles hold no `]` and no `{`. */
  lemma GitLabTitlesPlain()
    ensures ']' !in "GitLab stars" && '{' !in "GitLab stars"
    ensures ']' !in "GitLab release" && '{' !in "GitLab release"
    ensures ']' !in "GitLab top language" && '{' !in "GitLab top language"
  {
  }

  /** The preset paths hold no `{`. */
  lemma PresetPathsPlain()
    ensures '{' !in "github/stars" && '{' !in "github/v/release" && '{' !in "github/languages/top"
    ensures '{' !in "gitlab/stars" && '{' !in "gitlab/v/release" && '{' !in "gitlab/languages/top"
  {
  }

  /** Lower-cased, the GitHub preset titles start with `github` and not with `gitlab`. */
  lemma GitHubTitles()
    ensures StartsWith(LowerAscii("GitHub stars"), "github") && !StartsWith(LowerAscii("GitHub stars"), "gitlab")
    ensures StartsWith(LowerAscii("GitHub release"), "github") && !StartsWith(LowerAscii("GitHub release"), "gitlab")
    ensures StartsWith(LowerAscii("GitHub top language"), "github") && !StartsWith(LowerAscii("GitHub top language"), "gitlab")
  {
  }

  /** Lower-cased, the GitLab preset titles start with `gitlab` and not with `github`. */
  lemma GitLabTitles()
    ensures StartsWith(LowerAscii("GitLab stars"), "gitlab") && !StartsWith(LowerAscii("GitLab stars"), "github")
    ensures StartsWith(LowerAscii("GitLab release"), "gitlab") && !StartsWith(LowerAscii("GitLab release"), "github")
    ensures StartsWith(LowerAscii("GitLab top language"), "gitlab") && !StartsWith(LowerAscii("GitLab top language"), "github")
  {
  }

  /** The entries of the preset list. */
  lemma PresetEntries()
    ensures |PresetBadges| == 6
    ensures PresetBadges[0] == ShieldsImage("GitHub stars", "github/stars", ".svg?style=social&label=Stars", "{author}", "{name}")
    ensures PresetBadges[1] == ShieldsImage("GitHub release", "github/v/release", ".svg", "{author}", "{name}")
    ensures PresetBadges[2] == ShieldsImage("GitHub top language", "github/languages/top", ".svg", "{author}", "{name}")
    ensures PresetBadges[3] == ShieldsImage("GitLab stars", "gitlab/stars", ".svg?style=social&label=Stars", "{author}", "{name}")
    ensures PresetBadges[4] == ShieldsImage("GitLab release", "gitlab/v/release", ".svg", "{author}", "{name}")
    ensures PresetBadges[5] == ShieldsImage("GitLab top language", "gitlab/languages/top", ".svg", "{author}", "{name}")
  {
  }

  /** Three selected templates resolve to their three substitutions, in order. */
  lemma ResolveThree(platform: string, author: string, name: string, templates: seq<BadgeSetting>,
                     authorPlaceholder: string, namePlaceholder: string)
    requires |templates| == 3
    requires Selected(platform, templates[0]) && Selected(platform, templates[1])
    requires Selected(platform, templates[2])
    ensures GetBadgesForRepo(platform, author, name, templates, authorPlaceholder, namePlaceholder) ==
      [Substitute(templates[0], authorPlaceholder, author, namePlaceholder, name),
       Substitute(templates[1], authorPlaceholder, author, namePlaceholder, name),
       Substitute(templates[2], authorPlaceholder, author, namePlaceholder, name)]
  {
    EachOfThree(Selector(platform), templates);
    ResolveAll(platform, author, name, templates, authorPlaceholder, namePlaceholder);
    Three(GetBadgesForRepo(platform, author, name, templates, authorPlaceholder, namePlaceholder));
  }

  /** Three templates none of which is selected resolve to nothing. */
  lemma ResolveNoneOfThree(platform: string, author: string, name: string, templates: seq<BadgeSetting>,
                           authorPlaceholder: string, namePlaceholder: string)
    requires |templates| == 3
    requires !Selected(platform, templates[0]) && !Selected(platform, templates[1])
    requires !Selected(platform, templates[2])
    ensures GetBadgesForRepo(platform, author, name, templates, authorPlaceholder, namePlaceholder) == []
  {
    EachOfThree(t => !Selected(platform, t), templates);
    ResolveNone(platform, author, name, templates, authorPlaceholder, namePlaceholder);
  }

  /** A six-entry list of which exactly the first three, or exactly the last three, are
      selected resolves to those three, in order. */
  lemma ResolveHalf(platform: string, author: string, name: string, templates: seq<BadgeSetting>,
                    front: bool, authorPlaceholder: string, namePlaceholder: string)
    requires |templates| == 6
    requires Selected(platform, templates[0]) == front && Selected(platform, templates[1]) == front
    requires Selected(platform, templates[2]) == front && Selected(platform, templates[3]) == !front
    requires Selected(platform, templates[4]) == !front && Selected(platform, templates[5]) == !front
    ensures var lo := if front then 0 else 3;
      GetBadgesForRepo(platform, author, name, templates, authorPlaceholder, namePlaceholder) ==
      [Substitute(templates[lo], authorPlaceholder, author, namePlaceholder, name),
       Substitute(templates[lo + 1], authorPlaceholder, author, namePlaceholder, name),
       Substitute(templates[lo + 2], authorPlaceholder, author, namePlaceholder, name)]
  {
    ResolveSplitAt(platform, author, name, templates, 3, authorPlaceholder, namePlaceholder);
    var head, tail := templates[..3], templates[3..];
    assert head[0] == templates[0] && head[1] == templates[1] && head[2] == templates[2];
    assert tail[0] == templates[3] && tail[1] == templates[4] && tail[2] == templates[5];
    if front {
      ResolveThree(platform, author, name, head, authorPlaceholder, namePlaceholder);
      ResolveNoneOfThree(platform, author, name, tail, authorPlaceholder, namePlaceholder);
    } else {
      ResolveNoneOfThree(platform, author, name, head, authorPlaceholder, namePlaceholder);
      ResolveThree(platform, author, name, tail, authorPlaceholder, namePlaceholder);
    }
  }

  /** Which presets `github` selects: the GitHub ones. */
  lemma GitHubSelection()
    ensures Selected("github", PresetBadges[0]) && Selected("github", PresetBadges[1]) && Selected("github", PresetBadges[2])
    ensures !Selected("github", PresetBadges[3]) && !Selected("github", PresetBadges[4]) && !Selected("github", PresetBadges[5])
  {
    PresetEntries();
    GitHubTitlesPlain();
    GitLabTitlesPlain();
    GitHubTitles();
    GitLabTitles();
    SelectShieldsImage("github", "GitHub stars", "github/stars", ".svg?style=social&label=Stars");
    SelectShieldsImage("github", "GitHub release", "github/v/release", ".svg");
    SelectShieldsImage("github", "GitHub top language", "github/languages/top", ".svg");
    SelectShieldsImage("github", "GitLab stars", "gitlab/stars", ".svg?style=social&label=Stars");
    SelectShieldsImage("github", "GitLab release", "gitlab/v/release", ".svg");
    SelectShieldsImage("github", "GitLab top language", "gitlab/languages/top", ".svg");
  }

  /** The GitHub presets filled in. */
  lemma GitHubFilled(author: string, name: string)
    requires '{' !in author && '$' !in author && '$' !in name
    ensures Substitute(PresetBadges[0], "{author}", author, "{name}", name)
         == ShieldsImage("GitHub stars", "github/stars", ".svg?style=social&label=Stars", author, name)
    ensures Substitute(PresetBadges[1], "{author}", author, "{name}", name)
         == ShieldsImage("GitHub release", "github/v/release", ".svg", author, name)
    ensures Substitute(PresetBadges[2], "{author}", author, "{name}", name)
         == ShieldsImage("GitHub top language", "github/languages/top", ".svg", author, name)
  {
    PresetEntries();
    GitHubTitlesPlain();
    GitLabTitlesPlain();
    PresetPathsPlain();
    FillShieldsImage("GitHub stars", "github/stars", ".svg?style=social&label=Stars", author, name);
    FillShieldsImage("GitHub release", "github/v/release", ".svg", author, name);
    FillShieldsImage("GitHub top language", "github/languages/top", ".svg", author, name);
  }

  /** Which presets `gitlab` selects: the GitLab ones. */
  lemma GitLabSelection()
    ensures Selected("gitlab", PresetBadges[3]) && Selected("gitlab", PresetBadges[4]) && Selected("gitlab", PresetBadges[5])
    ensures !Selected("gitlab", PresetBadges[0]) && !Selected("gitlab", PresetBadges[1]) && !Selected("gitlab", PresetBadges[2])
  {
    PresetEntries();
    GitHubTitlesPlain();
    GitLabTitlesPlain();
    GitHubTitles();
    GitLabTitles();
    SelectShieldsImage("gitlab", "GitHub stars", "github/stars", ".svg?style=social&label=Stars");
    SelectShieldsImage("gitlab", "GitHub release", "github/v/release", ".svg");
    SelectShieldsImage("gitlab", "GitHub top language", "github/languages/top", ".svg");
    SelectShieldsImage("gitlab", "GitLab stars", "gitlab/stars", ".svg?style=social&label=Stars");
    SelectShieldsImage("gitlab", "GitLab release", "gitlab/v/release", ".svg");
    SelectShieldsImage("gitlab", "GitLab top language", "gitlab/languages/top", ".svg");
  }

  /** The GitLab presets filled in. */
  lemma GitLabFilled(author: string, name: string)
    requires '{' !in author && '$' !in author && '$' !in name
    ensures Substitute(PresetBadges[3], "{author}", author, "{name}", name)
         == ShieldsImage("GitLab stars", "gitlab/stars", ".svg?style=social&label=Stars", author, name)
    ensures Substitute(PresetBadges[4], "{author}", author, "{name}", name)
         == ShieldsImage("GitLab release", "gitlab/v/release", ".svg", author, name)
    ensures Substitute(PresetBadges[5], "{author}", author, "{name}", name)
         == ShieldsImage("GitLab top language", "gitlab/languages/top", ".svg", author, name)
  {
    PresetEntries();
    GitHubTitlesPlain();
    GitLabTitlesPlain();
    PresetPathsPlain();
    FillShieldsImage("GitLab stars", "gitlab/stars", ".svg?style=social&label=Stars", author, name);
    FillShieldsImage("GitLab release", "gitlab/v/release", ".svg", author, name);
    FillShieldsImage("GitLab top language", "gitlab/languages/top", ".svg", author, name);
  }

  /** Resolving `github` over the presets yields the first three presets, filled in, in order. */
  lemma PresetsForGitHub(author: string, name: string)
    requires '{' !in author && '$' !in author && '$' !in name
    ensures GetBadgesForRepo("github", author, name, PresetBadges, "{author}", "{name}") == [
      ShieldsImage("GitHub stars", "github/stars", ".svg?style=social&label=Stars", author, name),
      ShieldsImage("GitHub release", "github/v/release", ".svg", author, name),
      ShieldsImage("GitHub top language", "github/languages/top", ".svg", author, name)]
  {
    var P := PresetBadges;
    assert |P| == 6;
    GitHubSelection();
    GitHubFilled(author, name);
    ResolveHalf("github", author, name, P, true, "{author}", "{name}");
  }

  /** Resolving `gitlab` over the presets yields the last three presets, filled in, in order. */
  lemma PresetsForGitLab(author: string, name: string)
    requires '{' !in author && '$' !in author && '$' !in name
    ensures GetBadgesForRepo("gitlab", author, name, PresetBadges, "{author}", "{name}") == [
      ShieldsImage("GitLab stars", "gitlab/stars", ".svg?style=social&label=Stars", author, name),
      ShieldsImage("GitLab release", "gitlab/v/release", ".svg", author, name),
      ShieldsImage("GitLab top language", "gitlab/languages/top", ".svg", author, name)]
  {
    var P := PresetBadges;
    assert |P| == 6;
    GitLabSelection();
    GitLabFilled(author, name);
    ResolveHalf("gitlab", author, name, P, false, "{author}", "{name}");
  }

  /** With the default settings, a GitHub repository URL gets the three GitHub presets. */
  lemma DefaultBadgesForGitHubUrl(sc: string, w: string, author: string, name: string)
    requires (sc == "https://" || sc == "http://") && IsWwwText(w)
    requires IsSegment(author) && IsSegment(name)
    requires '{' !in author && '$' !in author && '$' !in name
    ensures GetBadges(RepoUrl(sc, w, GitHub, author, name), DefaultSettings.badges,
                      DefaultSettings.authorPlaceholder, DefaultSettings.namePlaceholder) == [
      ShieldsImage("GitHub stars", "github/stars", ".svg?style=social&label=Stars", author, name),
      ShieldsImage("GitHub release", "github/v/release", ".svg", author, name),
      ShieldsImage("GitHub top language", "github/languages/top", ".svg", author, name)]
  {
    RepoOfUrl(sc, w, GitHub, author, name);
    PresetsForGitHub(author, name);
  }
}
