/**
 * The Python string operations the mirror script relies on: `startswith`,
 * `in`, `find`, `replace`, `split`/`join` (the reference meaning of
 * `replace`) and `strip`. Strings are sequences of Unicode code points.
 */
module Strings {
  import opened Wrappers

  /** `s.startswith(p)` */
  predicate StartsWith(s: string, p: string) {
    |p| <= |s| && s[..|p|] == p
  }

  /** `sub` occurs in `s` at index `i`. */
  predicate OccursAt(s: string, sub: string, i: nat) {
    i + |sub| <= |s| && s[i..i + |sub|] == sub
  }

  /** `sub in s` */
  predicate Occurs(s: string, sub: string) {
    exists i: nat | i <= |s| :: OccursAt(s, sub, i)
  }

  /** `s.find(sub, from)`: the leftmost occurrence at or after `from`. */
  function FindFrom(s: string, sub: string, from: nat): (r: Option<nat>)
    decreases |s| - from
    ensures r.Some? ==> from <= r.value && OccursAt(s, sub, r.value)
    ensures r.Some? ==> forall j: nat :: from <= j < r.value ==> !OccursAt(s, sub, j)
    ensures r.None? ==> forall j: nat :: from <= j ==> !OccursAt(s, sub, j)
  {
    if from + |sub| > |s| then None
    else if OccursAt(s, sub, from) then Some(from)
    else FindFrom(s, sub, from + 1)
  }

  /** `s.replace("", repl)`: `repl` before every character and at the end. */
  function Interleave(s: string, repl: string): (r: string)
  {
    if |s| == 0 then repl else repl + [s[0]] + Interleave(s[1..], repl)
  }

  /**
   * The part of `s.replace(pat, repl)` from index `from` on: scanning left to
   * right, every occurrence of `pat` that does not overlap an earlier
   * replaced one becomes `repl`.
   */
  function ReplaceFrom(s: string, pat: string, repl: string, from: nat): (r: string)
    requires |pat| > 0 && from <= |s|
    decreases |s| - from
  {
    match FindFrom(s, pat, from)
    case None => s[from..]
    case Some(i) => s[from..i] + repl + ReplaceFrom(s, pat, repl, i + |pat|)
  }

  /** `s.replace(pat, repl)` */
  function Replace(s: string, pat: string, repl: string): (r: string)
    ensures |pat| > 0 && !Occurs(s, pat) ==> r == s
  {
    if |pat| == 0 then Interleave(s, repl)
    else
      ReplaceAbsent(s, pat, repl);
      ReplaceFrom(s, pat, repl, 0)
  }

  /** Without an occurrence of the pattern, `replace` copies the text. */
  lemma ReplaceAbsent(s: string, pat: string, repl: string)
    requires |pat| > 0
    ensures !Occurs(s, pat) ==> ReplaceFrom(s, pat, repl, 0) == s
  {
    if !Occurs(s, pat) {
      assert FindFrom(s, pat, 0).None?;
      assert s[0..] == s;
    }
  }

  /** The pieces of `s[from..].split(sep)`, for a non-empty separator. */
  function SplitFrom(s: string, sep: string, from: nat): (pieces: seq<string>)
    requires |sep| > 0 && from <= |s|
    decreases |s| - from
    ensures |pieces| >= 1
  {
    match FindFrom(s, sep, from)
    case None => [s[from..]]
    case Some(i) => [s[from..i]] + SplitFrom(s, sep, i + |sep|)
  }

  /** `s.split(sep)` for a non-empty separator. */
  function Split(s: string, sep: string): (pieces: seq<string>)
    requires |sep| > 0
  {
    SplitFrom(s, sep, 0)
  }

  /** `sep.join(pieces)` */
  function Join(pieces: seq<string>, sep: string): (r: string)
  {
    if |pieces| == 0 then []
    else if |pieces| == 1 then pieces[0]
    else pieces[0] + sep + Join(pieces[1..], sep)
  }

  lemma JoinCons(head: string, rest: seq<string>, sep: string)
    requires |rest| >= 1
    ensures Join([head] + rest, sep) == head + sep + Join(rest, sep)
  {
    assert ([head] + rest)[1..] == rest;
  }

  /** Splitting at `sep` and joining with `sep` gives the text back. */
  lemma {:induction false} JoinSplitFrom(s: string, sep: string, from: nat)
    requires |sep| > 0 && from <= |s|
    ensures Join(SplitFrom(s, sep, from), sep) == s[from..]
    decreases |s| - from
  {
    var found := FindFrom(s, sep, from);
    if found.Some? {
      var i := found.value;
      JoinSplitFrom(s, sep, i + |sep|);
      UnfoldAt(s, sep, sep, from, i);
      JoinCons(s[from..i], SplitFrom(s, sep, i + |sep|), sep);
      SliceThree(s, from, i, i + |sep|);
    }
  }

  lemma SliceThree(s: string, a: nat, b: nat, c: nat)
    requires a <= b <= c <= |s|
    ensures s[a..] == s[a..b] + s[b..c] + s[c..]
  {
  }

  lemma JoinSplit(s: string, sep: string)
    requires |sep| > 0
    ensures Join(Split(s, sep), sep) == s
  {
    JoinSplitFrom(s, sep, 0);
  }

  /** No piece of a split contains the separator. */
  lemma {:induction false} SplitPiecesFree(s: string, sep: string, from: nat)
    requires |sep| > 0 && from <= |s|
    ensures forall k :: 0 <= k < |SplitFrom(s, sep, from)| ==> !Occurs(SplitFrom(s, sep, from)[k], sep)
    decreases |s| - from
  {
    match FindFrom(s, sep, from)
    case None =>
      forall j: nat | OccursAt(s[from..], sep, j)
        ensures false
      {
        assert s[from..][j..j + |sep|] == s[from + j..from + j + |sep|];
        assert OccursAt(s, sep, from + j);
      }
    case Some(i) =>
      SplitPiecesFree(s, sep, i + |sep|);
      var head := s[from..i];
      forall j: nat | OccursAt(head, sep, j)
        ensures false
      {
        assert head[j..j + |sep|] == s[from + j..from + j + |sep|];
        assert OccursAt(s, sep, from + j);
      }
  }

  lemma UnfoldAt(s: string, pat: string, repl: string, from: nat, i: nat)
    requires |pat| > 0 && from <= |s|
    requires FindFrom(s, pat, from) == Some(i)
    ensures ReplaceFrom(s, pat, repl, from) == s[from..i] + repl + ReplaceFrom(s, pat, repl, i + |pat|)
    ensures SplitFrom(s, pat, from) == [s[from..i]] + SplitFrom(s, pat, i + |pat|)
  {
  }

  /**
   * `replace` is `repl.join(s.split(pat))`: the text between replaced
   * occurrences is kept as it is and every occurrence becomes `repl`.
   */
  lemma {:induction false} ReplaceIsJoinOfSplit(s: string, pat: string, repl: string, from: nat)
    requires |pat| > 0 && from <= |s|
    ensures ReplaceFrom(s, pat, repl, from) == Join(SplitFrom(s, pat, from), repl)
    decreases |s| - from
  {
    var found := FindFrom(s, pat, from);
    if found.Some? {
      var i := found.value;
      var next := i + |pat|;
      ReplaceIsJoinOfSplit(s, pat, repl, next);
      UnfoldAt(s, pat, repl, from, i);
      JoinCons(s[from..i], SplitFrom(s, pat, next), repl);
    }
  }

  /** `s.replace(pat, repl) == repl.join(s.split(pat))` for a non-empty pattern. */
  lemma ReplaceIsJoin(s: string, pat: string, repl: string)
    requires |pat| > 0
    ensures Replace(s, pat, repl) == Join(Split(s, pat), repl)
  {
    ReplaceIsJoinOfSplit(s, pat, repl, 0);
  }

  /** `s` with every `c` turned into `d`, character by character. */
  function SubstChar(s: string, c: char, d: char): (r: string)
  {
    seq(|s|, k requires 0 <= k < |s| => if s[k] == c then d else s[k])
  }

  /** `SubstChar` handles the first character and then the rest. */
  lemma SubstCharStep(s: string, c: char, d: char, from: nat)
    requires from < |s|
    ensures SubstChar(s[from..], c, d) == [if s[from] == c then d else s[from]] + SubstChar(s[from + 1..], c, d)
  {
  }

  /** Where a one-character pattern does not start, `replace` copies the character. */
  lemma ReplaceCopies(s: string, c: char, repl: string, from: nat)
    requires from < |s| && s[from] != c
    ensures ReplaceFrom(s, [c], repl, from) == [s[from]] + ReplaceFrom(s, [c], repl, from + 1)
  {
    assert !OccursAt(s, [c], from) by {
      assert s[from..from + 1][0] == s[from];
    }
    assert FindFrom(s, [c], from) == FindFrom(s, [c], from + 1);
    var found := FindFrom(s, [c], from + 1);
    if found.Some? {
      assert s[from..found.value] == [s[from]] + s[from + 1..found.value];
    } else {
      assert s[from..] == [s[from]] + s[from + 1..];
    }
  }

  /** Where a one-character pattern starts, `replace` writes the replacement. */
  lemma ReplaceReplaces(s: string, c: char, repl: string, from: nat)
    requires from < |s| && s[from] == c
    ensures ReplaceFrom(s, [c], repl, from) == repl + ReplaceFrom(s, [c], repl, from + 1)
  {
    assert OccursAt(s, [c], from) by {
      assert s[from..from + 1] == [c];
    }
    assert FindFrom(s, [c], from) == Some(from);
  }

  /** Replacing one character by one character maps the text character-wise. */
  lemma {:induction false} ReplaceOneCharFrom(s: string, c: char, d: char, from: nat)
    requires from <= |s|
    ensures ReplaceFrom(s, [c], [d], from) == SubstChar(s[from..], c, d)
    decreases |s| - from
  {
    if from < |s| {
      ReplaceOneCharFrom(s, c, d, from + 1);
      SubstCharStep(s, c, d, from);
      if s[from] == c {
        ReplaceReplaces(s, c, [d], from);
      } else {
        ReplaceCopies(s, c, [d], from);
      }
    } else {
      assert FindFrom(s, [c], from).None?;
    }
  }

  /** `s.replace(c, d)` for single characters keeps the length and changes only each `c`. */
  lemma ReplaceOneChar(s: string, c: char, d: char)
    ensures Replace(s, [c], [d]) == SubstChar(s, c, d)
  {
    ReplaceOneCharFrom(s, c, d, 0);
  }

  /** Whitespace as Python's `str.isspace` defines it. */
  predicate IsSpace(c: char) {
    || ('\t' <= c <= '\r')
    || ('\U{1C}' <= c <= ' ')
    || c == '\U{85}' || c == '\U{A0}' || c == '\U{1680}'
    || ('\U{2000}' <= c <= '\U{200A}')
    || c == '\U{2028}' || c == '\U{2029}' || c == '\U{202F}' || c == '\U{205F}' || c == '\U{3000}'
  }

  /** `s.lstrip()` */
  function LStrip(s: string): (r: string)
    ensures |r| <= |s| && r == s[|s| - |r|..]
    ensures forall k :: 0 <= k < |s| - |r| ==> IsSpace(s[k])
    ensures |r| == 0 || !IsSpace(r[0])
  {
    if |s| > 0 && IsSpace(s[0]) then LStrip(s[1..]) else s
  }

  /** `s.rstrip()` */
  function RStrip(s: string): (r: string)
    ensures |r| <= |s| && r == s[..|r|]
    ensures forall k :: |r| <= k < |s| ==> IsSpace(s[k])
    ensures |r| == 0 || !IsSpace(r[|r| - 1])
  {
    if |s| > 0 && IsSpace(s[|s| - 1]) then RStrip(s[..|s| - 1]) else s
  }

  /** `s.strip()`: the text without its leading and trailing whitespace. */
  function Strip(s: string): (r: string)
    ensures |r| <= |s|
    ensures |r| == 0 || (!IsSpace(r[0]) && !IsSpace(r[|r| - 1]))
  {
    RStrip(LStrip(s))
  }

  /**
   * The stripped text is the stretch of `s` after its leading whitespace and
   * before its trailing whitespace.
   */
  lemma {:induction false} StripSpec(s: string)
    ensures var a := |s| - |LStrip(s)|;
            && a + |Strip(s)| <= |s| && Strip(s) == s[a..a + |Strip(s)|]
            && (forall k :: 0 <= k < a ==> IsSpace(s[k]))
            && (forall k :: a + |Strip(s)| <= k < |s| ==> IsSpace(s[k]))
  {
    var l := LStrip(s);
    var r := RStrip(l);
    var a := |s| - |l|;
    assert l == s[a..];
    assert r == l[..|r|];
    assert s[a..][..|r|] == s[a..a + |r|];
    forall k | a + |r| <= k < |s| ensures IsSpace(s[k]) {
      assert s[k] == l[k - a];
    }
  }

  /**
   * Python `s.find(c, from)` for one character: the first index at or after
   * `from` holding `c`, or -1. The URL and path models test the index the way
   * CPython does (`i >= 0`, `0 < i < len - 1`), so these keep the -1 result;
   * `FindFrom` serves `replace` and `split`, where an `Option` reads better.
   */
  function IndexFrom(s: string, c: char, from: nat): (r: int)
    requires from <= |s|
    decreases |s| - from
    ensures r == -1 || from <= r < |s|
    ensures r >= 0 ==> s[r] == c
    ensures forall j :: from <= j < |s| && (r < 0 || j < r) ==> s[j] != c
  {
    if from == |s| then -1 else if s[from] == c then from else IndexFrom(s, c, from + 1)
  }

  /** Python `s.find(c)` for one character. */
  function IndexOf(s: string, c: char): (r: int)
    ensures -1 <= r < |s|
    ensures r >= 0 ==> s[r] == c && c !in s[..r]
    ensures r < 0 <==> c !in s
  {
    var r := IndexFrom(s, c, 0);
    assert r >= 0 ==> c !in s[..r] by {
      if r >= 0 {
        forall j | 0 <= j < r ensures s[..r][j] != c { }
      }
    }
    r
  }

  /** Python `s.rfind(c)` for one character: the last index holding `c`, or -1. */
  function LastIndexOf(s: string, c: char): (r: int)
    ensures -1 <= r < |s|
    ensures r >= 0 ==> s[r] == c
    ensures forall j :: r < j < |s| ==> s[j] != c
  {
    if |s| == 0 then -1
    else if s[|s| - 1] == c then |s| - 1
    else LastIndexOf(s[..|s| - 1], c)
  }
}
