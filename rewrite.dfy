/**
 * `rewrite_css`: every font URL of the stylesheet is pointed at the local
 * copy, relative to the stylesheet's own directory. Entries of the URL map
 * are applied one after another, in the dictionary's order, each as a
 * Python `str.replace` over the text produced so far.
 */
module Rewrite {
  import opened Strings
  import opened Dicts
  import opened FontFiles
  import opened Downloads

  /** The directory the rewritten references point into. */
  const FONTS_REF: string := "../fonts/"

  /** `f"../fonts/{Path(path).name}"` */
  function Reference(path: string): (ref: string)
  {
    FONTS_REF + BaseName(path)
  }

  /** The text after the entries for `keys` have been applied, in order. */
  function Rewritten(css: string, keys: seq<string>, values: map<string, string>): (text: string)
    requires forall k :: 0 <= k < |keys| ==> keys[k] in values
    decreases |keys|
  {
    if |keys| == 0 then css
    else
      var u := keys[|keys| - 1];
      Replace(Rewritten(css, keys[..|keys| - 1], values), u, Reference(values[u]))
  }

  /**
   * `rewrite_css(css_text, url_map, fonts_root, output_dir)`; the last two
   * arguments are not used.
   */
  method RewriteCss(css: string, urlMap: Dict<string, string>, fontsRoot: string, outputDir: string)
    returns (newCss: string)
    requires urlMap.Listed()
    ensures newCss == Rewritten(css, urlMap.keys, urlMap.values)
  {
    newCss := css;
    for i := 0 to |urlMap.keys|
      invariant newCss == Rewritten(css, urlMap.keys[..i], urlMap.values)
    {
      var url := urlMap.keys[i];
      var path := urlMap.values[url];
      assert urlMap.keys[..i + 1][..i] == urlMap.keys[..i];
      newCss := Replace(newCss, url, Reference(path));
    }
    assert urlMap.keys[..|urlMap.keys|] == urlMap.keys;
  }

  // ---------------------------------------------------------------------
  // Properties

  /** Each step turns the text into the pieces between occurrences of the URL, joined by its reference. */
  lemma RewriteStep(css: string, keys: seq<string>, values: map<string, string>, i: nat)
    requires forall k :: 0 <= k < |keys| ==> keys[k] in values
    requires i < |keys| && |keys[i]| > 0
    ensures var before := Rewritten(css, keys[..i], values);
            Rewritten(css, keys[..i + 1], values) == Join(Split(before, keys[i]), Reference(values[keys[i]]))
  {
    assert keys[..i + 1][..i] == keys[..i];
    ReplaceIsJoin(Rewritten(css, keys[..i], values), keys[i], Reference(values[keys[i]]));
  }

  /** A stylesheet in which no mapped URL occurs comes back unchanged. */
  lemma {:induction false} RewrittenUnchanged(css: string, keys: seq<string>, values: map<string, string>)
    requires forall k :: 0 <= k < |keys| ==> keys[k] in values
    requires forall k :: 0 <= k < |keys| ==> |keys[k]| > 0 && !Occurs(css, keys[k])
    decreases |keys|
    ensures Rewritten(css, keys, values) == css
  {
    if |keys| > 0 {
      RewrittenUnchanged(css, keys[..|keys| - 1], values);
    }
  }

  /** The result depends on the map's values only through their base names. */
  lemma {:induction false} RewrittenByBaseNames(css: string, keys: seq<string>, v1: map<string, string>, v2: map<string, string>)
    requires forall k :: 0 <= k < |keys| ==> keys[k] in v1 && keys[k] in v2
    requires forall k :: 0 <= k < |keys| ==> BaseName(v1[keys[k]]) == BaseName(v2[keys[k]])
    decreases |keys|
    ensures Rewritten(css, keys, v1) == Rewritten(css, keys, v2)
  {
    if |keys| > 0 {
      RewrittenByBaseNames(css, keys[..|keys| - 1], v1, v2);
    }
  }

  /**
   * For the map the downloader returns, every URL is replaced by a
   * reference to its own file name in the fonts directory.
   */
  lemma RewriteTargets(urls: seq<string>, dir: string, sha: string -> HexDigest)
    ensures var d := UrlMap(urls, PlaceIn(dir, sha));
            forall k :: 0 <= k < |d.keys| ==> Reference(d.values[d.keys[k]]) == FONTS_REF + Filename(sha, d.keys[k])
  {
    var d := UrlMap(urls, PlaceIn(dir, sha));
    UrlMapSpec(urls, PlaceIn(dir, sha));
    forall k | 0 <= k < |d.keys| ensures Reference(d.values[d.keys[k]]) == FONTS_REF + Filename(sha, d.keys[k]) {
      LocalPathBaseName(dir, sha, d.keys[k]);
    }
  }

  /**
   * When one mapped URL is a prefix of another, the shorter one's step
   * rewrites the front of the longer one as well, so the longer URL's own
   * step no longer finds it there.
   */
  lemma RewritePrefixCollision(u: string, w: string, ref: string)
    requires |u| > 0
    ensures StartsWith(Replace(u + w, u, ref), ref)
  {
    var s := u + w;
    assert OccursAt(s, u, 0);
    var r := ReplaceFrom(s, u, ref, 0);
    assert r == s[0..0] + ref + ReplaceFrom(s, u, ref, |u|);
  }
}
