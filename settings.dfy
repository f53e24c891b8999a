/** The plugin's settings as data (src/settings.ts): the preset badge templates, the default
    settings, and the normalisation the settings panel applies to the text the user types
    into the template list. The panel itself and the persistence of settings are not part
    of this model. */
module Settings {
  import opened Text
  import opened Lists

  /** A badge template: markdown such as `![GitHub stars](https://…/{author}/{name}.svg)`. */
  type BadgeSetting = string

  const ShieldsIo := "https://img.shields.io/"

  /** A shields.io badge image: `![<title>](https://img.shields.io/<path>/<author>/<name><query>)`.
      The presets are such images with the placeholders `{author}` and `{name}` in the path. */
  function ShieldsImage(title: string, path: string, query: string, author: string, name: string): string {
    "![" + title + "](" + ShieldsIo + path + "/" + author + "/" + name + query + ")"
  }

  /** The six presets, in this order:
      `![GitHub stars](https://img.shields.io/github/stars/{author}/{name}.svg?style=social&label=Stars)`,
      `![GitHub release](https://img.shields.io/github/v/release/{author}/{name}.svg)`,
      `![GitHub top language](https://img.shields.io/github/languages/top/{author}/{name}.svg)`,
      and the same three for GitLab with `gitlab` in place of `github`. */
  const PresetBadges: seq<BadgeSetting> := [
    ShieldsImage("GitHub stars", "github/stars", ".svg?style=social&label=Stars", "{author}", "{name}"),
    ShieldsImage("GitHub release", "github/v/release", ".svg", "{author}", "{name}"),
    ShieldsImage("GitHub top language", "github/languages/top", ".svg", "{author}", "{name}"),
    ShieldsImage("GitLab stars", "gitlab/stars", ".svg?style=social&label=Stars", "{author}", "{name}"),
    ShieldsImage("GitLab release", "gitlab/v/release", ".svg", "{author}", "{name}"),
    ShieldsImage("GitLab top language", "gitlab/languages/top", ".svg", "{author}", "{name}")
  ]

  datatype BadgeSettings = BadgeSettings(
    badges: seq<BadgeSetting>,
    authorPlaceholder: string,
    namePlaceholder: string,
    inlineBlock: bool)

  const DefaultSettings: BadgeSettings := BadgeSettings(PresetBadges, "{author}", "{name}", false)

  /** What the settings panel stores for a template: non-empty and trimmed. */
  predicate IsEntry(x: string) {
    x != "" && IsTrimmed(x)
  }

  /** Every template of the list is a stored entry. */
  predicate AllEntries(xs: seq<string>) {
    forall k | 0 <= k < |xs| :: IsEntry(xs[k])
  }

  predicate NonEmpty(x: string) {
    x != ""
  }

  /** `lines.map(line => line.trim()).filter(line => line.length > 0)`. */
  function NormaliseLines(lines: seq<string>): (r: seq<BadgeSetting>)
    ensures |r| <= |lines|
  {
    Filter(NonEmpty, Map(Trim, lines))
  }

  /** The template list stored when the user edits the template text: the text split at
      line breaks, each line trimmed, empty lines dropped. */
  function NormaliseTemplates(text: string): (r: seq<BadgeSetting>)
    ensures forall k | 0 <= k < |r| :: IsEntry(r[k]) && '\n' !in r[k]
  {
    var lines := Split(text, '\n');
    var r := NormaliseLines(lines);
    forall k | 0 <= k < |r| ensures IsEntry(r[k]) && '\n' !in r[k] {
      NormaliseMembership(lines, r[k]);
      var j :| 0 <= j < |lines| && Trim(lines[j]) == r[k];
      TrimWithout(lines[j], '\n');
    }
    r
  }

  /** The normalised list holds exactly the non-empty trimmed lines. */
  lemma NormaliseMembership(lines: seq<string>, x: string)
    ensures x in NormaliseLines(lines) <==>
      x != "" && exists k | 0 <= k < |lines| :: Trim(lines[k]) == x
  {
    if x in NormaliseLines(lines) {
      NormalisedFrom(lines, x);
    }
    if x != "" && exists k | 0 <= k < |lines| :: Trim(lines[k]) == x {
      var k :| 0 <= k < |lines| && Trim(lines[k]) == x;
      NormalisedLine(lines, k);
    }
  }

  /** Every stored entry is a non-empty trimmed line. */
  lemma NormalisedFrom(lines: seq<string>, x: string)
    requires x in NormaliseLines(lines)
    ensures x != "" && exists k | 0 <= k < |lines| :: Trim(lines[k]) == x
  {
    var ts := Map(Trim, lines);
    FilterMembership(NonEmpty, ts, x);
    var k :| 0 <= k < |ts| && ts[k] == x;
    MapAt(Trim, lines, k);
  }

  /** Every non-empty trimmed line is stored. */
  lemma NormalisedLine(lines: seq<string>, k: nat)
    requires k < |lines| && Trim(lines[k]) != ""
    ensures Trim(lines[k]) in NormaliseLines(lines)
  {
    var ts := Map(Trim, lines);
    MapAt(Trim, lines, k);
    assert ts[k] in ts;
    FilterMembership(NonEmpty, ts, Trim(lines[k]));
  }

  /** Every stored entry is non-empty and trimmed. */
  lemma NormaliseEntries(lines: seq<string>)
    ensures AllEntries(NormaliseLines(lines))
  {
    var r := NormaliseLines(lines);
    forall k | 0 <= k < |r| ensures IsEntry(r[k]) {
      NormaliseMembership(lines, r[k]);
    }
  }

  /** Normalisation keeps the order of the lines: it distributes over concatenation. */
  lemma NormaliseAppend(xs: seq<string>, ys: seq<string>)
    ensures NormaliseLines(xs + ys) == NormaliseLines(xs) + NormaliseLines(ys)
  {
    MapAppend(Trim, xs, ys);
    FilterAppend(NonEmpty, Map(Trim, xs), Map(Trim, ys));
  }

  /** Comment lines survive normalisation; only the badge resolver skips them. */
  lemma NormaliseKeepsComments(lines: seq<string>, k: nat)
    requires k < |lines| && StartsWith(Trim(lines[k]), "#")
    ensures Trim(lines[k]) in NormaliseLines(lines)
  {
    NormaliseMembership(lines, Trim(lines[k]));
  }

  /** A list of non-empty trimmed entries is already normal. */
  lemma NormaliseNormal(xs: seq<string>)
    requires AllEntries(xs)
    ensures NormaliseLines(xs) == xs
  {
    forall k | 0 <= k < |xs| ensures Map(Trim, xs)[k] == xs[k] {
      MapAt(Trim, xs, k);
      TrimTrimmed(xs[k]);
    }
    assert Map(Trim, xs) == xs;
    FilterAll(NonEmpty, xs);
  }

  /** A list in normal form, shown one entry per line, normalises back to itself. */
  lemma NormaliseShown(stored: seq<BadgeSetting>)
    requires forall k | 0 <= k < |stored| :: IsEntry(stored[k]) && '\n' !in stored[k]
    ensures NormaliseTemplates(Join(stored, "\n")) == stored
  {
    if stored == [] {
      assert Split("", '\n') == [""];
    } else {
      SplitJoin(stored, '\n');
      NormaliseNormal(stored);
    }
  }

  /** The settings panel shows the stored list joined with line breaks; normalising that
      text again gives the stored list back. */
  lemma TextAreaRoundTrip(text: string)
    ensures NormaliseTemplates(Join(NormaliseTemplates(text), "\n")) == NormaliseTemplates(text)
  {
    NormaliseShown(NormaliseTemplates(text));
  }
}
