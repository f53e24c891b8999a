/** The JavaScript string operations the plugin relies on (`trim`, `startsWith`, `indexOf`,
    `split`, `join`, `toLowerCase` and `replace` with a string pattern), written out over
    `string`, each with the contract that characterises it. */
module Text {
  import opened Wrappers

  /** The characters JavaScript's `\s` matches and `String.prototype.trim` strips:
      the WhiteSpace and LineTerminator code points of ECMAScript. */
  predicate IsSpace(c: char) {
    var n := c as int;
    n == 0x09 || n == 0x0A || n == 0x0B || n == 0x0C || n == 0x0D || n == 0x20 || n == 0xA0
    || n == 0x1680 || (0x2000 <= n <= 0x200A) || n == 0x2028 || n == 0x2029 || n == 0x202F
    || n == 0x205F || n == 0x3000 || n == 0xFEFF
  }

  predicate StartsWith(s: string, prefix: string) {
    |prefix| <= |s| && s[..|prefix|] == prefix
  }

  /** `p` occurs in `s` starting at index `i`. */
  predicate OccursAt(s: string, i: nat, p: string) {
    i + |p| <= |s| && s[i..i + |p|] == p
  }

  predicate IsBlank(s: string) {
    forall k | 0 <= k < |s| :: IsSpace(s[k])
  }

  /** No leading and no trailing white space. */
  predicate IsTrimmed(s: string) {
    s == [] || (!IsSpace(s[0]) && !IsSpace(s[|s| - 1]))
  }

  // ---------------------------------------------------------------- trim

  function TrimStart(s: string): (r: string)
    ensures |r| <= |s| && r == s[|s| - |r|..]
    ensures r != [] ==> !IsSpace(r[0])
    ensures forall k | 0 <= k < |s| - |r| :: IsSpace(s[k])
  {
    if s != [] && IsSpace(s[0]) then TrimStart(s[1..]) else s
  }

  function TrimEnd(s: string): (r: string)
    ensures |r| <= |s| && r == s[..|r|]
    ensures r != [] ==> !IsSpace(r[|r| - 1])
    ensures forall k | |r| <= k < |s| :: IsSpace(s[k])
  {
    if s != [] && IsSpace(s[|s| - 1]) then TrimEnd(s[..|s| - 1]) else s
  }

  /** `String.prototype.trim`: the longest infix of `s` that neither starts nor ends with
      white space; everything cut off on either side is white space. */
  function Trim(s: string): (r: string)
    ensures IsTrimmed(r)
    ensures exists a, b | 0 <= a <= b <= |s| :: r == s[a..b] && IsBlank(s[..a]) && IsBlank(s[b..])
  {
    var t := TrimStart(s);
    var r := TrimEnd(t);
    CutBlank(s, t, r);
    r
  }

  /** Cutting white space off the front of `s`, giving `t`, and then off the back of `t`,
      giving `r`, leaves `r` between two blank ends of `s`. */
  lemma CutBlank(s: string, t: string, r: string)
    requires |t| <= |s| && t == s[|s| - |t|..]
    requires forall k | 0 <= k < |s| - |t| :: IsSpace(s[k])
    requires |r| <= |t| && r == t[..|r|]
    requires forall k | |r| <= k < |t| :: IsSpace(t[k])
    ensures var a := |s| - |t|;
      r == s[a..a + |r|] && IsBlank(s[..a]) && IsBlank(s[a + |r|..])
  {
    var a := |s| - |t|;
    var back := s[a + |r|..];
    forall k | 0 <= k < |back| ensures IsSpace(back[k]) {
      assert back[k] == t[|r| + k];
    }
  }

  /** Trimming leaves nothing exactly when the string is all white space. */
  lemma TrimBlank(s: string)
    ensures Trim(s) == [] <==> IsBlank(s)
  {
    var t := TrimStart(s);
    assert TrimEnd(t) == [] ==> t == [];
  }

  /** Trimming only removes characters: a character absent from `s` is absent from its trim. */
  lemma TrimWithout(s: string, c: char)
    requires c !in s
    ensures c !in Trim(s)
  {
    var t := TrimStart(s);
    var r := TrimEnd(t);
    forall k | 0 <= k < |r| ensures r[k] != c {
      assert r[k] == t[k] == s[|s| - |t| + k];
    }
  }

  /** Trimming what is already trimmed changes nothing. */
  lemma TrimTrimmed(s: string)
    requires IsTrimmed(s)
    ensures Trim(s) == s
  {
    assert TrimStart(s) == s;
    assert TrimEnd(s) == s;
  }

  // ---------------------------------------------------------------- toLowerCase

  function LowerChar(c: char): char {
    if 'A' <= c <= 'Z' then (c as int + 32) as char else c
  }

  /** `String.prototype.toLowerCase`, restricted to the ASCII letters. */
  function LowerAscii(s: string): (r: string)
    ensures |r| == |s|
    ensures forall k | 0 <= k < |s| :: r[k] == LowerChar(s[k])
  {
    seq(|s|, k requires 0 <= k < |s| => LowerChar(s[k]))
  }

  // ---------------------------------------------------------------- indexOf

  /** The first occurrence of `p` in `s` at or after `from`. */
  function IndexFrom(s: string, p: string, from: nat): (r: Option<nat>)
    ensures r.Some? ==> from <= r.value && OccursAt(s, r.value, p)
    ensures r.Some? ==> forall j | from <= j < r.value :: !OccursAt(s, j, p)
    ensures r.None? ==> forall j | from <= j :: !OccursAt(s, j, p)
    decreases |s| - from
  {
    if |s| < from + |p| then None
    else if OccursAt(s, from, p) then Some(from)
    else IndexFrom(s, p, from + 1)
  }

  /** `String.prototype.indexOf`: the leftmost occurrence of `p` in `s`; an empty `p`
      occurs at 0. */
  function IndexOf(s: string, p: string): (r: Option<nat>)
    ensures r.Some? ==> OccursAt(s, r.value, p) && forall j | 0 <= j < r.value :: !OccursAt(s, j, p)
    ensures r.None? ==> forall j: nat :: !OccursAt(s, j, p)
  {
    IndexFrom(s, p, 0)
  }

  /** An occurrence of `p` at `i` is the first one when `p`'s first character does not
      appear before `i`. */
  lemma IndexOfAt(s: string, p: string, i: nat)
    requires p != [] && OccursAt(s, i, p) && p[0] !in s[..i]
    ensures IndexOf(s, p) == Some(i)
  {
    var j := IndexOf(s, p);
    assert j.Some? && j.value <= i;
    assert s[j.value..j.value + |p|][0] == s[j.value];
  }

  // ---------------------------------------------------------------- replace

  /** GetSubstitution of ECMAScript for a string pattern (no capture groups): `$$` gives `$`,
      `` $& `` the matched text, `` $` `` the text before the match, `$'` the text after it;
      every other character, `$` included, is copied. */
  function Expand(repl: string, matched: string, before: string, after: string): (r: string)
    ensures '$' !in repl ==> r == repl
  {
    if repl == [] then []
    else if |repl| >= 2 && repl[0] == '$' && repl[1] in "$&`'" then
      var piece := match repl[1]
        case '$' => "$"
        case '&' => matched
        case '`' => before
        case _ => after;
      piece + Expand(repl[2..], matched, before, after)
    else
      [repl[0]] + Expand(repl[1..], matched, before, after)
  }

  /** `s.replace(p, repl)` with string arguments: only the first occurrence of `p` is
      replaced; without an occurrence `s` is returned unchanged. */
  function ReplaceFirst(s: string, p: string, repl: string): (r: string)
    ensures IndexOf(s, p).None? ==> r == s
    ensures IndexOf(s, p).Some? && '$' !in repl ==>
      var i := IndexOf(s, p).value;
      r == s[..i] + repl + s[i + |p|..]
  {
    match IndexOf(s, p)
    case None => s
    case Some(i) => s[..i] + Expand(repl, p, s[..i], s[i + |p|..]) + s[i + |p|..]
  }

  // ---------------------------------------------------------------- split and join

  /** `Array.prototype.join(sep)`: the parts with `sep` between consecutive ones. */
  function Join(parts: seq<string>, sep: string): (r: string)
    ensures |parts| == 1 ==> r == parts[0]
  {
    if |parts| == 0 then ""
    else if |parts| == 1 then parts[0]
    else parts[0] + sep + Join(parts[1..], sep)
  }

  /** `String.prototype.split(c)` for a one-character separator: the unique non-empty list
      of `c`-free pieces that `Join` glues back into `s`. */
  function Split(s: string, c: char): (r: seq<string>)
    ensures |r| >= 1
    ensures forall k | 0 <= k < |r| :: c !in r[k]
    ensures Join(r, [c]) == s
  {
    if s == [] then [""]
    else if s[0] == c then
      var t := Split(s[1..], c);
      assert Join([""] + t, [c]) == [c] + Join(t, [c]) by {
        assert ([""] + t)[1..] == t;
      }
      assert s == [c] + s[1..];
      [""] + t
    else
      var t := Split(s[1..], c);
      var r := [[s[0]] + t[0]] + t[1..];
      assert Join(r, [c]) == [s[0]] + Join(t, [c]) by {
        if |t| > 1 {
          assert r[1..] == t[1..];
        }
      }
      assert s == [s[0]] + s[1..];
      r
  }

  /** A `c`-free piece followed by `c` splits off as one element. */
  lemma {:induction false} SplitPrefix(x: string, c: char, y: string)
    requires c !in x
    ensures Split(x + [c] + y, c) == [x] + Split(y, c)
    decreases |x|
  {
    if x == [] {
      assert x + [c] + y == [c] + y;
      assert ([c] + y)[1..] == y;
    } else {
      var s := x + [c] + y;
      assert s[0] == x[0] && s[1..] == x[1..] + [c] + y;
      SplitPrefix(x[1..], c, y);
      assert [x[0]] + x[1..] == x;
    }
  }

  /** A `c`-free string is one piece. */
  lemma {:induction false} SplitNone(x: string, c: char)
    requires c !in x
    ensures Split(x, c) == [x]
    decreases |x|
  {
    if x != [] {
      SplitNone(x[1..], c);
      assert [x[0]] + x[1..] == x;
    }
  }

  /** Splitting undoes joining: the inverse of the `Join` ensures of `Split`. */
  lemma {:induction false} SplitJoin(parts: seq<string>, c: char)
    requires |parts| >= 1
    requires forall k | 0 <= k < |parts| :: c !in parts[k]
    ensures Split(Join(parts, [c]), c) == parts
    decreases |parts|
  {
    if |parts| == 1 {
      SplitNone(parts[0], c);
    } else {
      SplitJoin(parts[1..], c);
      SplitPrefix(parts[0], c, Join(parts[1..], [c]));
      assert [parts[0]] + parts[1..] == parts;
    }
  }

  /** Joining a list extended at the end adds one separator and the new part. */
  lemma {:induction false} JoinAppend(parts: seq<string>, sep: string, last: string)
    requires parts != []
    ensures Join(parts + [last], sep) == Join(parts, sep) + sep + last
    decreases |parts|
  {
    if |parts| > 1 {
      assert (parts + [last])[1..] == parts[1..] + [last];
      JoinAppend(parts[1..], sep, last);
    }
  }

  /** An occurrence at `i` begins every slice from `i` that holds it. */
  lemma OccursStarts(s: string, i: nat, e: nat, p: string)
    requires OccursAt(s, i, p) && i + |p| <= e <= |s|
    ensures StartsWith(s[i..e], p)
  {
    assert s[i..e][..|p|] == s[i..i + |p|];
  }

  /** The middle of three pieces occurs right after the first. */
  lemma OccursMiddle(a: string, b: string, c: string)
    ensures OccursAt(a + b + c, |a|, b)
  {
    assert (a + b + c)[|a|..|a| + |b|] == b;
  }

  /** An occurrence survives putting text in front, shifted by that text's length. */
  lemma OccursAfter(front: string, s: string, i: nat, p: string)
    requires OccursAt(s, i, p)
    ensures OccursAt(front + s, |front| + i, p)
  {
    assert (front + s)[|front| + i..|front| + i + |p|] == s[i..i + |p|];
  }

  /** An occurrence survives putting text behind. */
  lemma OccursBefore(s: string, back: string, i: nat, p: string)
    requires OccursAt(s, i, p)
    ensures OccursAt(s + back, i, p)
  {
    assert (s + back)[i..i + |p|] == s[i..i + |p|];
  }

  /** An occurrence in a middle piece is one in the whole text, shifted by the front. */
  lemma OccursWithin(front: string, s: string, back: string, i: nat, p: string)
    requires OccursAt(s, i, p)
    ensures OccursAt(front + s + back, |front| + i, p)
  {
    OccursBefore(s, back, i, p);
    OccursAfter(front, s + back, i, p);
    assert front + (s + back) == front + s + back;
  }

  /** What occurs at `u + j` in `s` occurs at `j` in the text from `u` on, and conversely. */
  lemma OccursShift(s: string, u: nat, j: nat, p: string)
    requires u <= |s|
    ensures OccursAt(s, u + j, p) <==> OccursAt(s[u..], j, p)
  {
    if u + j + |p| <= |s| {
      assert s[u..][j..j + |p|] == s[u + j..u + j + |p|];
    }
  }
}
