/**
 * The mirror run as a sequence of steps on a local store: fetch a query's
 * stylesheet and save it, fetch each font file the store lacks, then save
 * the stylesheet again with its font URLs pointing at the local copies.
 */
module Mirror {
  import opened Wrappers
  import opened Dicts
  import opened FontFiles
  import opened Extract
  import opened Downloads
  import opened Rewrite
  import opened Queries

  /** `css_dir / f"{safe_name}.css"` */
  function CssPath(cssDir: string, font: string): (path: string)
  {
    cssDir + "/" + SafeName(font) + ".css"
  }

  /**
   * For a query without `/`, the stylesheet's file name is its safe name
   * followed by `.css`, inside the stylesheet directory.
   */
  lemma {:induction false} CssPathName(cssDir: string, font: string)
    requires '/' !in font
    ensures BaseName(CssPath(cssDir, font)) == SafeName(font) + ".css"
  {
    SafeNameSpec(font);
    var name := SafeName(font) + ".css";
    forall k | 0 <= k < |name| ensures name[k] != '/' {
      if k < |font| {
        assert name[k] == SafeName(font)[k];
      }
    }
    assert CssPath(cssDir, font) == cssDir + "/" + name;
    BaseNameJoin(cssDir, name);
  }

  /** The queries whose stylesheets were requested, in order. */
  function Families(requests: seq<Request>): (fs: seq<string>)
    decreases |requests|
    ensures |fs| <= |requests|
  {
    if |requests| == 0 then []
    else
      var last := requests[|requests| - 1];
      Families(requests[..|requests| - 1]) + (if last.StylesheetGet? then [last.family] else [])
  }

  lemma {:induction false} FamiliesAppend(a: seq<Request>, b: seq<Request>)
    decreases |b|
    ensures Families(a + b) == Families(a) + Families(b)
  {
    if |b| > 0 {
      var b' := b[..|b| - 1];
      assert (a + b)[..|a + b| - 1] == a + b';
      assert (a + b)[|a + b| - 1] == b[|b| - 1];
      FamiliesAppend(a, b');
    } else {
      assert a + b == a;
    }
  }

  /** The font loop sends no stylesheet request: the queries requested stay those requested before it. */
  lemma {:induction false} FetchFromFamilies(urls: seq<string>, i: nat, files: map<string, Content>, requests: seq<Request>,
                                             place: string -> string, ok: string -> bool)
    requires i <= |urls|
    decreases |urls| - i
    ensures Families(FetchFrom(urls, i, files, requests, place, ok).requests) == Families(requests)
  {
    if i < |urls| {
      var u := urls[i];
      if place(u) in files {
        FetchFromFamilies(urls, i + 1, files, requests, place, ok);
      } else {
        FamiliesAppend(requests, [FontGet(u)]);
        assert Families([FontGet(u)]) == [] by {
          assert [FontGet(u)][..0] == [];
        }
        if ok(u) {
          FetchFromFamilies(urls, i + 1, files[place(u) := FontData(u)], requests + [FontGet(u)], place, ok);
        }
      }
    }
  }

  /** Sending a stylesheet request adds its query to those requested. */
  lemma FamiliesSent(requests: seq<Request>, font: string)
    ensures Families(requests + [StylesheetGet(font)]) == Families(requests) + [font]
  {
    assert (requests + [StylesheetGet(font)])[..|requests|] == requests;
  }

  /** The queries requested after `before` are those `after` adds to it. */
  lemma {:induction false} FamiliesSuffix(before: seq<Request>, after: seq<Request>, font: string)
    requires |before| <= |after| && after[..|before|] == before
    requires Families(after) == Families(before) + [font]
    ensures Families(after[|before|..]) == [font]
  {
    var added := after[|before|..];
    assert after == before + added;
    FamiliesAppend(before, added);
    var fb := Families(before);
    assert (fb + Families(added))[|fb|..] == Families(added);
    assert (fb + [font])[|fb|..] == [font];
  }

  /** The queries requested since `base` grow by those of each later step. */
  lemma {:induction false} FamiliesExtend(base: seq<Request>, mid: seq<Request>, after: seq<Request>, font: string)
    requires |base| <= |mid| && mid[..|base|] == base
    requires |mid| <= |after| && after[..|mid|] == mid
    requires Families(after[|mid|..]) == [font]
    ensures after[..|base|] == base
    ensures Families(after[|base|..]) == Families(mid[|base|..]) + [font]
  {
    assert after[..|base|] == mid[..|base|];
    assert after[|base|..] == mid[|base|..] + after[|mid|..];
    FamiliesAppend(mid[|base|..], after[|mid|..]);
  }

  /** The stylesheets saved for the first `i` queries, and one more, are all still there. */
  lemma SavedGrow(cssFile: string -> string, fonts: seq<string>, i: nat, before: map<string, Content>, after: map<string, Content>)
    requires i < |fonts|
    requires forall k :: 0 <= k < i ==> cssFile(fonts[k]) in before
    requires before.Keys <= after.Keys && cssFile(fonts[i]) in after
    ensures forall k :: 0 <= k < i + 1 ==> cssFile(fonts[k]) in after
  {
  }

  /**
   * One invocation of the script: its output directory and the digest it
   * names font files with are fixed, and it works on a store of
   * directories and files and sends requests.
   */
  class Mirror {
    /** `--output-dir`. */
    const outputDir: string
    /** `base / "css"`: where the stylesheets go. */
    const cssDir: string
    /** `base / "fonts"`: where the font files go. */
    const fontsDir: string
    /** Where `download_fonts` saves the font of a URL: `fonts_dir / filename(url)`. */
    const place: string -> string
    /** Where `main` saves the stylesheet of a query: `css_dir / f"{safe_name}.css"`. */
    const cssFile: string -> string

    /** Directories that exist. */
    var dirs: set<string>
    /** Files that exist, each with what was written to it. */
    var files: map<string, Content>
    /** The requests sent so far, in order. */
    var requests: seq<Request>

    constructor (output: string, sha: string -> HexDigest, dirs0: set<string>, files0: map<string, Content>)
      ensures outputDir == output && cssDir == output + "/css" && fontsDir == output + "/fonts"
      ensures place == PlaceIn(fontsDir, sha)
      ensures forall font :: cssFile(font) == CssPath(cssDir, font)
      ensures dirs == dirs0 && files == files0 && |requests| == 0
    {
      outputDir := output;
      cssDir := output + "/css";
      fontsDir := output + "/fonts";
      place := PlaceIn(output + "/fonts", sha);
      cssFile := font => CssPath(output + "/css", font);
      dirs := dirs0;
      files := files0;
      requests := [];
    }

    /**
     * `download_css`: request the stylesheet for `font`; an HTTP error
     * stops here, otherwise the text is saved as it came.
     */
    method DownloadCss(font: string, cssPath: string, stylesheet: string -> Option<string>)
      returns (r: Result<string, Error>)
      modifies this
      ensures dirs == old(dirs)
      ensures requests == old(requests) + [StylesheetGet(font)]
      ensures stylesheet(font).None? ==> r == Failure(StylesheetRefused(font)) && files == old(files)
      ensures stylesheet(font).Some? ==>
                r == Success(stylesheet(font).value) && files == old(files)[cssPath := Stylesheet(stylesheet(font).value)]
    {
      requests := requests + [StylesheetGet(font)];
      var response := stylesheet(font);
      if response.None? {
        return Failure(StylesheetRefused(font));
      }
      files := files[cssPath := Stylesheet(response.value)];
      r := Success(response.value);
    }

    /**
     * `download_fonts`: make the fonts directory, then fetch into it every
     * font the store lacks, naming each file after the URL's hash and
     * extension.
     */
    method DownloadFonts(urls: seq<string>, fontOk: string -> bool)
      returns (r: Result<Dict<string, string>, Error>)
      modifies this
      ensures dirs == old(dirs) + {fontsDir}
      ensures var f := FetchFrom(urls, 0, old(files), old(requests), place, fontOk);
              && files == f.files && requests == f.requests
              && (f.refused.None? ==> r == Success(UrlMap(urls, place)))
              && (f.refused.Some? ==> r == Failure(FontRefused(f.refused.value)))
    {
      dirs := dirs + {fontsDir};
      r := FetchAll(urls, place, fontOk);
    }

    /**
     * The loop of `download_fonts`, for any way `pathOf` of naming the local
     * file of a URL: request the font unless its path exists, save it, and
     * record the path in the returned map. The first refused request stops
     * the loop.
     */
    method FetchAll(urls: seq<string>, pathOf: string -> string, fontOk: string -> bool)
      returns (r: Result<Dict<string, string>, Error>)
      modifies this
      ensures dirs == old(dirs)
      ensures var f := FetchFrom(urls, 0, old(files), old(requests), pathOf, fontOk);
              && files == f.files && requests == f.requests
              && (f.refused.None? ==> r == Success(UrlMap(urls, pathOf)))
              && (f.refused.Some? ==> r == Failure(FontRefused(f.refused.value)))
    {
      var store, sent := files, requests;
      var urlMap := Empty();
      var i := 0;
      while i < |urls|
        invariant i <= |urls|
        invariant urlMap == UrlMap(urls[..i], pathOf)
        invariant FetchFrom(urls, i, store, sent, pathOf, fontOk) == FetchFrom(urls, 0, old(files), old(requests), pathOf, fontOk)
      {
        var url := urls[i];
        var localPath := pathOf(url);
        if localPath !in store {
          sent := sent + [FontGet(url)];
          if !fontOk(url) {
            files, requests := store, sent;
            return Failure(FontRefused(url));
          }
          store := store[localPath := FontData(url)];
        }
        assert urls[..i + 1][..i] == urls[..i];
        urlMap := urlMap.Put(url, localPath);
        i := i + 1;
      }
      assert urls[..i] == urls;
      files, requests := store, sent;
      r := Success(urlMap);
    }

    /**
     * One query of `main`'s loop: save its stylesheet at `cssPath`, fetch
     * the fonts it names into `fontsDir`, then save the stylesheet again
     * with those fonts' URLs pointing at the local files. An error stops
     * the query where it occurs.
     */
    method MirrorQuery(font: string, cssPath: string, stylesheet: string -> Option<string>, fontOk: string -> bool)
      returns (r: Result<(), Error>)
      modifies this
      ensures stylesheet(font).None? ==>
                && r == Failure(StylesheetRefused(font))
                && dirs == old(dirs) && files == old(files) && requests == old(requests) + [StylesheetGet(font)]
      ensures stylesheet(font).Some? ==> dirs == old(dirs) + {fontsDir}
      ensures stylesheet(font).Some? ==>
                var css := stylesheet(font).value;
                forall urls | urls == ExtractFontUrls(css) ::
                var f := FetchFrom(urls, 0, old(files)[cssPath := Stylesheet(css)],
                                   old(requests) + [StylesheetGet(font)], place, fontOk);
                && requests == f.requests
                && (f.refused.Some? ==> r == Failure(FontRefused(f.refused.value)) && files == f.files)
                && (f.refused.None? ==>
                      && r == Success(())
                      && files == f.files[cssPath := Stylesheet(Rewritten(css, UrlMap(urls, place).keys, UrlMap(urls, place).values))])
      ensures |old(requests)| < |requests| && requests[..|old(requests)|] == old(requests)
      ensures Families(requests[|old(requests)|..]) == [font]
      ensures old(files).Keys <= files.Keys
      ensures r.Success? ==> cssPath in files
      ensures r.Failure? ==> r.error == StylesheetRefused(font) || r.error.FontRefused?
    {
      ghost var requests0 := requests;
      var css := DownloadCss(font, cssPath, stylesheet);
      ghost var files1, requests1 := files, requests;
      FamiliesSent(requests0, font);
      if css.Failure? {
        FamiliesSuffix(requests0, requests, font);
        return Failure(css.error);
      }
      var urls := ExtractFontUrls(css.value);
      var urlMap := DownloadFonts(urls, fontOk);
      FetchFromFamilies(urls, 0, files1, requests1, place, fontOk);
      FetchFromExtends(urls, 0, files1, requests1, place, fontOk);
      assert requests[..|requests0|] == requests0 by {
        assert requests[..|requests1|] == requests1;
        assert requests[..|requests0|] == requests1[..|requests0|];
      }
      FamiliesSuffix(requests0, requests, font);
      if urlMap.Failure? {
        return Failure(urlMap.error);
      }
      var updated := RewriteCss(css.value, urlMap.value, fontsDir, outputDir + "/fonts");
      files := files[cssPath := Stylesheet(updated)];
      r := Success(());
    }

    /**
     * `main`: gather the queries (a usage error when there are none), make
     * the output directories, then mirror the queries in order; the first
     * error ends the run.
     */
    method Run(cli: seq<string>, fontsFile: Option<seq<string>>,
               stylesheet: string -> Option<string>, fontOk: string -> bool)
      returns (r: Result<(), Error>)
      modifies this
      ensures FontList(cli, fontsFile).Failure? ==>
                && r == Failure(UsageError(NO_FONTS))
                && dirs == old(dirs) && files == old(files) && requests == old(requests)
      ensures FontList(cli, fontsFile).Success? ==> dirs == old(dirs) + {outputDir, cssDir, fontsDir}
      ensures |old(requests)| <= |requests| && requests[..|old(requests)|] == old(requests)
      ensures old(files).Keys <= files.Keys
      ensures r.Success? ==>
                && FontList(cli, fontsFile).Success?
                && Families(requests[|old(requests)|..]) == FontList(cli, fontsFile).value
                && forall font :: font in FontList(cli, fontsFile).value ==> cssFile(font) in files
      ensures r.Failure? && FontList(cli, fontsFile).Success? ==>
                var fonts := FontList(cli, fontsFile).value;
                var asked := Families(requests[|old(requests)|..]);
                && 0 < |asked| <= |fonts| && asked == fonts[..|asked|]
                && (r.error.StylesheetRefused? ==> r.error.family == fonts[|asked| - 1])
                && !r.error.UsageError?
    {
      var list := FontList(cli, fontsFile);
      if list.Failure? {
        return Failure(UsageError(list.error));
      }
      dirs := dirs + {outputDir, cssDir, fontsDir};
      r := MirrorAll(list.value, stylesheet, fontOk);
    }

    /**
     * The loop of `main`: mirror each query in turn, its stylesheet saved
     * under its safe name in `cssDir`, stopping at the first error.
     */
    method MirrorAll(fonts: seq<string>, stylesheet: string -> Option<string>, fontOk: string -> bool)
      returns (r: Result<(), Error>)
      requires fontsDir in dirs
      modifies this
      ensures dirs == old(dirs)
      ensures |old(requests)| <= |requests| && requests[..|old(requests)|] == old(requests)
      ensures old(files).Keys <= files.Keys
      ensures r.Success? ==>
                && Families(requests[|old(requests)|..]) == fonts
                && forall font :: font in fonts ==> cssFile(font) in files
      ensures r.Failure? ==>
                var asked := Families(requests[|old(requests)|..]);
                && 0 < |asked| <= |fonts| && asked == fonts[..|asked|]
                && (r.error.StylesheetRefused? ==> r.error.family == fonts[|asked| - 1])
                && !r.error.UsageError?
    {
      assert requests[|old(requests)|..] == [];
      for i := 0 to |fonts|
        invariant dirs == old(dirs)
        invariant |old(requests)| <= |requests| && requests[..|old(requests)|] == old(requests)
        invariant Families(requests[|old(requests)|..]) == fonts[..i]
        invariant old(files).Keys <= files.Keys
        invariant forall k :: 0 <= k < i ==> cssFile(fonts[k]) in files
      {
        ghost var before, filesBefore := requests, files;
        var q := MirrorQuery(fonts[i], cssFile(fonts[i]), stylesheet, fontOk);
        FamiliesExtend(old(requests), before, requests, fonts[i]);
        TakeNext(fonts, i);
        if q.Failure? {
          return q;
        }
        SavedGrow(cssFile, fonts, i, filesBefore, files);
      }
      assert fonts[..|fonts|] == fonts;
      r := Success(());
    }
  }
}
