/**
 * URL extraction (`extract_font_urls`): Python's `re.findall` with the pattern
 * `url\((https://fonts\.gstatic\.com/[^)]+)\)` over a stylesheet, written out
 * as a left-to-right scanner. What the pattern matches is stated on its own
 * (IsMatch, FindAllFrom) and the scanner is proved to produce the one match
 * list that the findall rules allow.
 */
module Extract {
  import opened Wrappers
  import opened Strings

  /** The literal text of the pattern before its capture group. */
  const OPENER: string := "url("
  /** The capture group's literal start: the font-file host. */
  const FONT_HOST: string := "https://fonts.gstatic.com/"

  /** A URL the pattern can capture: the host, at least one more character, no `)`. */
  predicate IsFontUrl(u: string) {
    && |u| > |FONT_HOST|
    && StartsWith(u, FONT_HOST)
    && ')' !in u
  }

  /** A match of the whole pattern, `s[start..end]`. */
  datatype Span = Span(start: nat, end: nat)

  /**
   * The pattern matches `s[i..e]`: `url(`, the host, one or more characters
   * other than `)` (newlines included), then `)`.
   */
  ghost predicate IsMatch(s: string, i: nat, e: nat) {
    && i + 32 <= e <= |s|
    && s[i..i + 4] == OPENER
    && s[i + 4..i + 30] == FONT_HOST
    && (forall t :: i + 30 <= t < e - 1 ==> s[t] != ')')
    && s[e - 1] == ')'
  }

  /** Every reported span is a match starting at or after `i`. */
  ghost predicate AllMatches(s: string, i: nat, ms: seq<Span>) {
    forall k :: 0 <= k < |ms| ==> i <= ms[k].start && IsMatch(s, ms[k].start, ms[k].end)
  }

  /** Spans come in order and do not overlap. */
  ghost predicate Ordered(ms: seq<Span>) {
    forall k :: 0 < k < |ms| ==> ms[k - 1].end <= ms[k].start
  }

  /**
   * Every position at or after `i` where a match starts lies inside a
   * reported span: the search is leftmost and, after a match, resumes at
   * its end.
   */
  ghost predicate Covers(s: string, i: nat, ms: seq<Span>) {
    forall p: nat, e: nat :: i <= p && IsMatch(s, p, e) ==>
      exists k :: 0 <= k < |ms| && ms[k].start <= p < ms[k].end
  }

  /** The findall rules from index `i`. */
  ghost predicate FindAllFrom(s: string, i: nat, ms: seq<Span>) {
    AllMatches(s, i, ms) && Ordered(ms) && Covers(s, i, ms)
  }

  /** The index of the first `)` at or after `j`, or `|s|` when there is none. */
  function CloseFrom(s: string, j: nat): (k: nat)
    requires j <= |s|
    decreases |s| - j
    ensures j <= k <= |s|
  {
    if j == |s| || s[j] == ')' then j else CloseFrom(s, j + 1)
  }

  /** What `CloseFrom` finds is a `)`, and it skips none. */
  lemma {:induction false} CloseFromSpec(s: string, j: nat)
    requires j <= |s|
    decreases |s| - j
    ensures CloseFrom(s, j) < |s| ==> s[CloseFrom(s, j)] == ')'
    ensures forall t :: j <= t < CloseFrom(s, j) ==> s[t] != ')'
  {
    if j < |s| && s[j] != ')' {
      CloseFromSpec(s, j + 1);
    }
  }

  /**
   * The end of the pattern's match at `i`, if there is one. Since `[^)]+`
   * cannot step over a `)`, there is at most one.
   */
  function MatchAt(s: string, i: nat): (r: Option<nat>)
    ensures r.Some? ==> i + 32 <= r.value <= |s|
  {
    var b := i + 30;
    if b < |s| && s[i..i + 4] == OPENER && s[i + 4..b] == FONT_HOST && s[b] != ')' then
      var k := CloseFrom(s, b);
      if k < |s| then Some(k + 1) else None
    else None
  }

  /** `MatchAt` finds the match at `i` when there is one, and it is the only one. */
  lemma MatchAtSpec(s: string, i: nat)
    ensures MatchAt(s, i).Some? ==> IsMatch(s, i, MatchAt(s, i).value)
    ensures MatchAt(s, i).Some? ==> forall e: nat :: IsMatch(s, i, e) ==> e == MatchAt(s, i).value
    ensures MatchAt(s, i).None? ==> forall e: nat :: !IsMatch(s, i, e)
  {
    var b := i + 30;
    if b < |s| {
      CloseFromSpec(s, b);
    }
  }

  /** findall's scan from index `i`: try a match, else move one position on. */
  function Scan(s: string, i: nat): (ms: seq<Span>)
    requires i <= |s|
    decreases |s| - i
  {
    if i == |s| then []
    else
      var m := MatchAt(s, i);
      if m.Some? then [Span(i, m.value)] + Scan(s, m.value)
      else Scan(s, i + 1)
  }

  /** Every span the scanner reports is a match, and they come in order. */
  lemma {:induction false} ScanSound(s: string, i: nat)
    requires i <= |s|
    ensures AllMatches(s, i, Scan(s, i)) && Ordered(Scan(s, i))
    decreases |s| - i
  {
    if i < |s| {
      var m := MatchAt(s, i);
      MatchAtSpec(s, i);
      if m.Some? {
        ScanSound(s, m.value);
        assert Scan(s, i) == [Span(i, m.value)] + Scan(s, m.value);
      } else {
        ScanSound(s, i + 1);
      }
    }
  }

  /** Every span the scanner reports lies after `i` and inside `s`, with room for its capture. */
  lemma ScanBounds(s: string, i: nat)
    requires i <= |s|
    ensures forall k :: 0 <= k < |Scan(s, i)| ==>
              i <= Scan(s, i)[k].start && Scan(s, i)[k].start + 4 <= Scan(s, i)[k].end - 1 <= |s|
  {
    ScanSound(s, i);
  }

  lemma CoversCons(s: string, i: nat, e: nat, rest: seq<Span>)
    requires i < e && Covers(s, e, rest)
    ensures Covers(s, i, [Span(i, e)] + rest)
  {
    var ms := [Span(i, e)] + rest;
    forall p: nat, e': nat | i <= p && IsMatch(s, p, e')
      ensures exists k :: 0 <= k < |ms| && ms[k].start <= p < ms[k].end
    {
      if p < e {
        assert ms[0].start <= p < ms[0].end;
      } else {
        var k :| 0 <= k < |rest| && rest[k].start <= p < rest[k].end;
        assert ms[k + 1] == rest[k];
      }
    }
  }

  lemma CoversSkip(s: string, i: nat, ms: seq<Span>)
    requires Covers(s, i + 1, ms)
    requires forall e: nat :: !IsMatch(s, i, e)
    ensures Covers(s, i, ms)
  {
    forall p: nat, e: nat | i <= p && IsMatch(s, p, e)
      ensures exists k :: 0 <= k < |ms| && ms[k].start <= p < ms[k].end
    {
      assert p != i;
    }
  }

  lemma {:induction false} ScanCovers(s: string, i: nat)
    requires i <= |s|
    ensures Covers(s, i, Scan(s, i))
    decreases |s| - i
  {
    if i < |s| {
      var m := MatchAt(s, i);
      if m.Some? {
        ScanCovers(s, m.value);
        CoversCons(s, i, m.value, Scan(s, m.value));
        assert Scan(s, i) == [Span(i, m.value)] + Scan(s, m.value);
      } else {
        ScanCovers(s, i + 1);
        MatchAtSpec(s, i);
        CoversSkip(s, i, Scan(s, i + 1));
        assert Scan(s, i) == Scan(s, i + 1);
      }
    } else {
      assert Scan(s, i) == [];
    }
  }

  /** The scanner reports exactly what the findall rules ask for. */
  lemma ScanFindsAll(s: string, i: nat)
    requires i <= |s|
    ensures FindAllFrom(s, i, Scan(s, i))
  {
    ScanSound(s, i);
    ScanCovers(s, i);
  }

  /** What a match captures is a font URL. */
  lemma CaptureIsFontUrl(s: string, i: nat, e: nat)
    requires IsMatch(s, i, e)
    ensures IsFontUrl(s[i + 4..e - 1])
  {
    var u := s[i + 4..e - 1];
    assert u[..26] == s[i + 4..i + 30];
    assert ')' !in FONT_HOST;
    forall t | 0 <= t < |u| ensures u[t] != ')' {
      assert u[t] == s[i + 4 + t];
      if t < 26 {
        assert u[t] == FONT_HOST[t];
      }
    }
  }

  /** A span reported after another starts after it ends. */
  lemma {:induction false} LaterStarts(s: string, i: nat, ms: seq<Span>, k: nat, l: nat)
    requires AllMatches(s, i, ms) && Ordered(ms)
    requires k < l < |ms|
    ensures ms[k].end <= ms[l].start
    decreases l - k
  {
    if k + 1 < l {
      LaterStarts(s, i, ms, k + 1, l);
    }
  }

  /** The first reported span starts at or before every other one. */
  lemma FirstStartsFirst(s: string, i: nat, ms: seq<Span>, k: nat)
    requires AllMatches(s, i, ms) && Ordered(ms)
    requires k < |ms|
    ensures ms[0].start <= ms[k].start
  {
    if k > 0 {
      LaterStarts(s, i, ms, 0, k);
    }
  }

  lemma TailMatches(s: string, i: nat, ms: seq<Span>)
    requires AllMatches(s, i, ms) && Ordered(ms) && |ms| > 0
    ensures AllMatches(s, ms[0].end, ms[1..]) && Ordered(ms[1..])
  {
    var tail := ms[1..];
    forall k | 0 <= k < |tail| ensures ms[0].end <= tail[k].start && IsMatch(s, tail[k].start, tail[k].end) {
      LaterStarts(s, i, ms, 0, k + 1);
    }
  }

  lemma TailCovers(s: string, i: nat, ms: seq<Span>)
    requires Covers(s, i, ms) && |ms| > 0 && i <= ms[0].end
    ensures Covers(s, ms[0].end, ms[1..])
  {
    var e := ms[0].end;
    var tail := ms[1..];
    forall p: nat, e': nat | e <= p && IsMatch(s, p, e')
      ensures exists k :: 0 <= k < |tail| && tail[k].start <= p < tail[k].end
    {
      var k :| 0 <= k < |ms| && ms[k].start <= p < ms[k].end;
      assert k != 0;
      assert tail[k - 1] == ms[k];
    }
  }

  /** After the first span, the rest obey the findall rules from its end. */
  lemma TailFindAll(s: string, i: nat, ms: seq<Span>)
    requires FindAllFrom(s, i, ms) && |ms| > 0
    ensures FindAllFrom(s, ms[0].end, ms[1..])
  {
    TailMatches(s, i, ms);
    TailCovers(s, i, ms);
  }

  /** A list obeying the rules starts no later than any match another list reports. */
  lemma FirstNotAfter(s: string, i: nat, ms1: seq<Span>, ms2: seq<Span>)
    requires AllMatches(s, i, ms1) && |ms1| > 0
    requires AllMatches(s, i, ms2) && Ordered(ms2) && Covers(s, i, ms2)
    ensures |ms2| > 0 && ms2[0].start <= ms1[0].start
  {
    assert IsMatch(s, ms1[0].start, ms1[0].end);
    var k2 :| 0 <= k2 < |ms2| && ms2[k2].start <= ms1[0].start < ms2[k2].end;
    FirstStartsFirst(s, i, ms2, k2);
  }

  /** Two match lists obeying the findall rules from `i` begin with the same span. */
  lemma SameFirst(s: string, i: nat, ms1: seq<Span>, ms2: seq<Span>)
    requires FindAllFrom(s, i, ms1) && FindAllFrom(s, i, ms2)
    ensures |ms1| == 0 <==> |ms2| == 0
    ensures |ms1| > 0 ==> ms1[0] == ms2[0]
  {
    if |ms1| > 0 {
      FirstNotAfter(s, i, ms1, ms2);
      FirstNotAfter(s, i, ms2, ms1);
      var a := ms1[0].start;
      assert IsMatch(s, a, ms1[0].end) && IsMatch(s, a, ms2[0].end);
      MatchAtSpec(s, a);
    } else if |ms2| > 0 {
      FirstNotAfter(s, i, ms2, ms1);
    }
  }

  /**
   * The findall rules leave no choice: two match lists that both obey them
   * from the same index are equal. With ScanFindsAll, the scanner's list is
   * the one `re.findall` reports.
   */
  lemma {:induction false} FindAllUnique(s: string, i: nat, ms1: seq<Span>, ms2: seq<Span>)
    requires FindAllFrom(s, i, ms1) && FindAllFrom(s, i, ms2)
    ensures ms1 == ms2
    decreases |ms1|
  {
    SameFirst(s, i, ms1, ms2);
    if |ms1| > 0 {
      TailFindAll(s, i, ms1);
      TailFindAll(s, i, ms2);
      FindAllUnique(s, ms1[0].end, ms1[1..], ms2[1..]);
      SameHeadTail(ms1, ms2);
    }
  }

  lemma SameHeadTail<T>(x: seq<T>, y: seq<T>)
    requires |x| > 0 && |y| > 0 && x[0] == y[0] && x[1..] == y[1..]
    ensures x == y
  {
    assert x == [x[0]] + x[1..];
    assert y == [y[0]] + y[1..];
  }

  /** Any match list obeying the findall rules is the scanner's. */
  lemma ScanIsFindAll(s: string, ms: seq<Span>)
    requires FindAllFrom(s, 0, ms)
    ensures ms == Scan(s, 0)
  {
    ScanFindsAll(s, 0);
    FindAllUnique(s, 0, ms, Scan(s, 0));
  }

  /** The captured group of each span. */
  function Captures(s: string, ms: seq<Span>): (urls: seq<string>)
    requires forall k :: 0 <= k < |ms| ==> ms[k].start + 4 <= ms[k].end - 1 <= |s|
    ensures |urls| == |ms|
    ensures forall k {:trigger urls[k]} :: 0 <= k < |ms| ==> urls[k] == s[ms[k].start + 4..ms[k].end - 1]
  {
    if |ms| == 0 then [] else [s[ms[0].start + 4..ms[0].end - 1]] + Captures(s, ms[1..])
  }

  /** The URLs `findall` captures from index `i` on. */
  function ExtractFrom(s: string, i: nat): (urls: seq<string>)
    requires i <= |s|
  {
    ScanBounds(s, i);
    Captures(s, Scan(s, i))
  }

  /** `extract_font_urls(css_text)` */
  function ExtractFontUrls(css: string): (urls: seq<string>)
  {
    ExtractFrom(css, 0)
  }

  /** Every URL extracted from a stylesheet is a font URL. */
  lemma ExtractedAreFontUrls(css: string)
    ensures forall k :: 0 <= k < |ExtractFontUrls(css)| ==> IsFontUrl(ExtractFontUrls(css)[k])
  {
    var ms := Scan(css, 0);
    var urls := ExtractFontUrls(css);
    ScanSound(css, 0);
    forall k | 0 <= k < |urls| ensures IsFontUrl(urls[k]) {
      var x := ms[k];
      assert IsMatch(css, x.start, x.end);
      CaptureIsFontUrl(css, x.start, x.end);
      assert urls[k] == css[x.start + 4..x.end - 1];
    }
  }

  /** A stylesheet yields no URL exactly when the pattern matches nowhere in it. */
  lemma ExtractEmptyIffNoMatch(css: string)
    ensures |ExtractFontUrls(css)| == 0 <==> forall p: nat, e: nat :: !IsMatch(css, p, e)
  {
    ScanFindsAll(css, 0);
    var ms := Scan(css, 0);
    if |ms| > 0 {
      assert IsMatch(css, ms[0].start, ms[0].end);
    }
  }

  /** The spans `ms`, moved `d` positions to the right. */
  function ShiftSpans(ms: seq<Span>, d: nat): (r: seq<Span>)
    ensures |r| == |ms|
    ensures forall k {:trigger r[k]} :: 0 <= k < |ms| ==> r[k] == Span(ms[k].start + d, ms[k].end + d)
  {
    if |ms| == 0 then [] else [Span(ms[0].start + d, ms[0].end + d)] + ShiftSpans(ms[1..], d)
  }

  /** A match in `b` is a match at the same place in `a + b`, and back. */
  lemma MatchShift(a: string, b: string, p: nat, e: nat)
    ensures IsMatch(b, p, e) <==> IsMatch(a + b, |a| + p, |a| + e)
  {
    var t := a + b;
    if p + 32 <= e <= |b| {
      assert t[|a| + p..|a| + p + 4] == b[p..p + 4];
      assert t[|a| + p + 4..|a| + p + 30] == b[p + 4..p + 30];
      assert t[|a| + e - 1] == b[e - 1];
      forall x | p + 30 <= x < e - 1 ensures t[|a| + x] == b[x] { }
      forall z | |a| + p + 30 <= z < |a| + e - 1 ensures t[z] == b[z - |a|] { }
    }
  }

  lemma ShiftCons(x: Span, r: seq<Span>, d: nat)
    ensures ShiftSpans([x] + r, d) == [Span(x.start + d, x.end + d)] + ShiftSpans(r, d)
  {
    assert ([x] + r)[1..] == r;
  }

  /** The match at a position of `b` is the match at the same place in `a + b`. */
  lemma MatchAtShift(a: string, b: string, j: nat)
    ensures MatchAt(b, j).Some? ==> MatchAt(a + b, |a| + j) == Some(|a| + MatchAt(b, j).value)
    ensures MatchAt(b, j).None? ==> MatchAt(a + b, |a| + j).None?
  {
    var m := MatchAt(b, j);
    MatchAtSpec(b, j);
    MatchAtSpec(a + b, |a| + j);
    if m.Some? {
      MatchShift(a, b, j, m.value);
    } else {
      var t, q := a + b, |a| + j;
      forall e: nat | e >= |a| ensures !IsMatch(t, q, e) {
        MatchShift(a, b, j, e - |a|);
      }
    }
  }

  /** Scanning `a + b` from a position inside `b` finds the matches of `b`, shifted. */
  lemma {:induction false} ScanShift(a: string, b: string, j: nat)
    requires j <= |b|
    ensures Scan(a + b, |a| + j) == ShiftSpans(Scan(b, j), |a|)
    decreases |b| - j
  {
    if j < |b| {
      var m := MatchAt(b, j);
      if m.Some? {
        ScanShift(a, b, m.value);
        ShiftMatched(a, b, j, m.value);
      } else {
        ScanShift(a, b, j + 1);
        ShiftUnmatched(a, b, j);
      }
    } else {
      assert Scan(a + b, |a| + j) == [];
    }
  }

  /** A match in `b` keeps the shifted scans equal from its start, given they are from its end. */
  lemma ShiftMatched(a: string, b: string, j: nat, e: nat)
    requires j < |b| && MatchAt(b, j) == Some(e)
    requires Scan(a + b, |a| + e) == ShiftSpans(Scan(b, e), |a|)
    ensures Scan(a + b, |a| + j) == ShiftSpans(Scan(b, j), |a|)
  {
    var t, d := a + b, |a|;
    MatchAtShift(a, b, j);
    calc {
      Scan(t, d + j);
      { ScanMatched(t, d + j); }
      [Span(d + j, d + e)] + Scan(t, d + e);
      [Span(d + j, d + e)] + ShiftSpans(Scan(b, e), d);
      { ShiftCons(Span(j, e), Scan(b, e), d); }
      ShiftSpans([Span(j, e)] + Scan(b, e), d);
      { ScanMatched(b, j); }
      ShiftSpans(Scan(b, j), d);
    }
  }

  /** A position of `b` without a match keeps the shifted scans equal, given they are from the next one. */
  lemma ShiftUnmatched(a: string, b: string, j: nat)
    requires j < |b| && MatchAt(b, j).None?
    requires Scan(a + b, |a| + j + 1) == ShiftSpans(Scan(b, j + 1), |a|)
    ensures Scan(a + b, |a| + j) == ShiftSpans(Scan(b, j), |a|)
  {
    MatchAtShift(a, b, j);
    ScanUnmatched(a + b, |a| + j);
    ScanUnmatched(b, j);
  }

  /** Where the pattern matches, the scan reports the match and resumes at its end. */
  lemma ScanMatched(s: string, i: nat)
    requires i < |s| && MatchAt(s, i).Some?
    ensures Scan(s, i) == [Span(i, MatchAt(s, i).value)] + Scan(s, MatchAt(s, i).value)
  {
  }

  /** Where the pattern does not match, the scan moves one position on. */
  lemma ScanUnmatched(s: string, i: nat)
    requires i < |s| && MatchAt(s, i).None?
    ensures Scan(s, i) == Scan(s, i + 1)
  {
  }

  lemma SliceShift(a: string, b: string, x: nat, y: nat)
    requires x <= y <= |b|
    ensures (a + b)[|a| + x..|a| + y] == b[x..y]
  {
  }

  /** Shifted spans over `a + b` capture what the spans capture over `b`. */
  lemma {:induction false} CapturesShifted(a: string, b: string, ms: seq<Span>)
    requires forall k :: 0 <= k < |ms| ==> ms[k].start + 4 <= ms[k].end - 1 <= |b|
    ensures Captures(a + b, ShiftSpans(ms, |a|)) == Captures(b, ms)
  {
    if |ms| > 0 {
      var t, d := a + b, |a|;
      var x, rest := ms[0], ms[1..];
      var x' := Span(x.start + d, x.end + d);
      var shifted := ShiftSpans(rest, d);
      CapturesShifted(a, b, rest);
      assert ShiftSpans(ms, d) == [x'] + shifted;
      CapturesCons(t, x', shifted);
      CapturesCons(b, x, rest);
      assert ms == [x] + rest;
      SliceShift(a, b, x.start + 4, x.end - 1);
    }
  }

  /** Scanning `a + b` from a position inside `b` captures what scanning `b` does. */
  lemma ExtractFromShift(a: string, b: string, j: nat)
    requires j <= |b|
    ensures ExtractFrom(a + b, |a| + j) == ExtractFrom(b, j)
  {
    ScanShift(a, b, j);
    ScanBounds(b, j);
    CapturesShifted(a, b, Scan(b, j));
  }

  lemma {:induction false} CapturesCons(s: string, m: Span, rest: seq<Span>)
    requires m.start + 4 <= m.end - 1 <= |s|
    requires forall k :: 0 <= k < |rest| ==> rest[k].start + 4 <= rest[k].end - 1 <= |s|
    ensures Captures(s, [m] + rest) == [s[m.start + 4..m.end - 1]] + Captures(s, rest)
  {
    assert ([m] + rest)[1..] == rest;
  }

  /** The pattern matches a reference `url(<font URL>)` at the front, and nothing longer. */
  lemma {:induction false} ReferenceMatches(u: string, rest: string)
    requires IsFontUrl(u)
    ensures MatchAt(OPENER + u + ")" + rest, 0) == Some(|u| + 5)
  {
    var t := OPENER + u + ")" + rest;
    var e := |u| + 5;
    assert t[0..4] == OPENER;
    assert t[4..30] == u[..26] == FONT_HOST;
    assert t[e - 1] == ')';
    forall x | 30 <= x < e - 1 ensures t[x] != ')' {
      assert t[x] == u[x - 4];
    }
    assert IsMatch(t, 0, e);
    MatchAtSpec(t, 0);
  }

  /** A match covering exactly `a` at the front is reported, then `rest` is scanned as if alone. */
  lemma {:induction false} ExtractAfterMatch(a: string, rest: string)
    requires |a| > 0 && MatchAt(a + rest, 0) == Some(|a|)
    ensures |a| >= 32
    ensures ExtractFontUrls(a + rest) == [a[4..|a| - 1]] + ExtractFontUrls(rest)
  {
    var t := a + rest;
    var e := |a|;
    var tail := Scan(t, e);
    ScanMatched(t, 0);
    ExtractFromShift(a, rest, 0);
    ScanBounds(t, e);
    CapturesCons(t, Span(0, e), tail);
    assert t[4..e - 1] == a[4..e - 1];
  }

  /** A reference `url(<font URL>)` at the front is reported, then the rest is scanned as if alone. */
  lemma ExtractReference(u: string, rest: string)
    requires IsFontUrl(u)
    ensures ExtractFontUrls(OPENER + u + ")" + rest) == [u] + ExtractFontUrls(rest)
  {
    var a := OPENER + u + ")";
    ReferenceMatches(u, rest);
    ExtractAfterMatch(a, rest);
    assert a[4..|a| - 1] == u;
  }

  /** The stylesheet text made of one `url(...)` reference per URL, in order. */
  function References(us: seq<string>): (text: string)
  {
    if |us| == 0 then [] else OPENER + us[0] + ")" + References(us[1..])
  }

  /** N well-formed references yield exactly their N URLs, in order, duplicates kept. */
  lemma {:induction false} ExtractReferences(us: seq<string>)
    requires forall k :: 0 <= k < |us| ==> IsFontUrl(us[k])
    ensures ExtractFontUrls(References(us)) == us
  {
    if |us| == 0 {
      assert Scan([], 0) == [];
    } else {
      ExtractReferences(us[1..]);
      ExtractReference(us[0], References(us[1..]));
    }
  }

  /** No match starts at a position that does not hold `u`. */
  lemma {:induction false} ScanSkips(s: string, p: nat, q: nat)
    requires p <= q <= |s|
    requires forall x :: p <= x < q ==> s[x] != 'u'
    ensures Scan(s, p) == Scan(s, q)
    decreases q - p
  {
    if p < q {
      assert MatchAt(s, p).None? by {
        if p + 4 <= |s| {
          assert s[p..p + 4][0] == s[p];
        }
      }
      ScanUnmatched(s, p);
      ScanSkips(s, p + 1, q);
    }
  }

  /** Text without the letter `u` in front of a stylesheet adds no URL. */
  lemma ExtractSkipsText(filler: string, rest: string)
    requires 'u' !in filler
    ensures ExtractFontUrls(filler + rest) == ExtractFontUrls(rest)
  {
    var t := filler + rest;
    ScanSkips(t, 0, |filler|);
    ExtractFromShift(filler, rest, 0);
  }
}
