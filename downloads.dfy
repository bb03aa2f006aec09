/**
 * What `download_fonts` does, stated on values: which URLs it fetches,
 * what the store holds afterwards and the URL-to-path dictionary it
 * returns. The store is the set of paths that exist, each with what was
 * written there; the network is reduced to the requests made and whether
 * each one succeeds. `place` gives the local path of a URL; the downloader
 * uses `FontFiles.LocalPath` (see `PlaceIn`), but none of the bookkeeping
 * depends on how paths are made.
 */
module Downloads {
  import opened Wrappers
  import opened Dicts
  import opened FontFiles

  /** A request sent over the network. */
  datatype Request = StylesheetGet(family: string) | FontGet(url: string)

  /** What a file holds: stylesheet text, or the bytes served for a font URL. */
  datatype Content = Stylesheet(text: string) | FontData(source: string)

  /** Why a run stops. */
  datatype Error = UsageError(message: string) | StylesheetRefused(family: string) | FontRefused(url: string)

  /** `str(fonts_dir / filename(url))` as a function of the URL. */
  function PlaceIn(dir: string, sha: string -> HexDigest): (place: string -> string)
  {
    u => LocalPath(dir, sha, u)
  }

  /** The local paths of `urls`. */
  function Paths(urls: seq<string>, place: string -> string): (r: set<string>)
    decreases |urls|
    ensures forall k :: 0 <= k < |urls| ==> place(urls[k]) in r
  {
    if |urls| == 0 then {}
    else
      var init := urls[..|urls| - 1];
      var r := Paths(init, place) + {place(urls[|urls| - 1])};
      assert forall k :: 0 <= k < |init| ==> init[k] == urls[k];
      r
  }

  /**
   * The URLs `download_fonts` fetches, in order: each URL whose path is
   * neither in the store at the start (`present`) nor the path of an
   * earlier URL.
   */
  function Fetched(urls: seq<string>, present: set<string>, place: string -> string): (r: seq<string>)
    decreases |urls|
    ensures |r| <= |urls|
  {
    if |urls| == 0 then []
    else
      var init := urls[..|urls| - 1];
      var u := urls[|urls| - 1];
      var before := Fetched(init, present, place);
      if place(u) in present + Paths(init, place) then before
      else
        before + [u]
  }

  /** The requests for `urls`, in order. */
  function FontGets(urls: seq<string>): (r: seq<Request>)
    decreases |urls|
    ensures |r| == |urls|
  {
    if |urls| == 0 then [] else FontGets(urls[..|urls| - 1]) + [FontGet(urls[|urls| - 1])]
  }

  /** The position of the first URL in `plan` whose request fails, or `|plan|`. */
  function FirstRefused(plan: seq<string>, ok: string -> bool): (k: nat)
    ensures k <= |plan|
    ensures forall j :: 0 <= j < k ==> ok(plan[j])
    ensures k < |plan| ==> !ok(plan[k])
  {
    FirstRefusedFrom(plan, ok, 0)
  }

  function FirstRefusedFrom(plan: seq<string>, ok: string -> bool, from: nat): (k: nat)
    requires from <= |plan|
    decreases |plan| - from
    ensures from <= k <= |plan|
    ensures forall j :: from <= j < k ==> ok(plan[j])
    ensures k < |plan| ==> !ok(plan[k])
  {
    if from == |plan| || !ok(plan[from]) then from else FirstRefusedFrom(plan, ok, from + 1)
  }

  /** The first refusal is the position `n` when everything before it succeeds and `plan[n]` fails. */
  lemma FirstRefusedAt(plan: seq<string>, ok: string -> bool, n: nat)
    requires n <= |plan|
    requires forall j :: 0 <= j < n ==> ok(plan[j])
    requires n < |plan| ==> !ok(plan[n])
    ensures FirstRefused(plan, ok) == n
  {
  }

  /** The store after each URL of `fetched` has been written to its path. */
  function Downloaded(files: map<string, Content>, fetched: seq<string>, place: string -> string): (r: map<string, Content>)
    decreases |fetched|
    ensures r.Keys == files.Keys + Paths(fetched, place)
  {
    if |fetched| == 0 then files
    else
      var u := fetched[|fetched| - 1];
      Downloaded(files, fetched[..|fetched| - 1], place)[place(u) := FontData(u)]
  }

  /** The URLs in order of first occurrence: the key order of a dict filled from `urls`. */
  function Dedup(urls: seq<string>): (r: seq<string>)
    decreases |urls|
    ensures forall i, j :: 0 <= i < j < |r| ==> r[i] != r[j]
    ensures forall u :: u in r <==> u in urls
  {
    if |urls| == 0 then []
    else
      var init := urls[..|urls| - 1];
      var u := urls[|urls| - 1];
      assert forall v :: v in urls <==> v in init || v == u;
      if u in init then Dedup(init) else Dedup(init) + [u]
  }

  /** First-occurrence order: the URLs first met among the first `k` inputs
      are exactly the front of the deduplicated list, in the same order. */
  lemma {:induction false} DedupPrefix(urls: seq<string>, k: nat)
    requires k <= |urls|
    ensures Dedup(urls[..k]) <= Dedup(urls)
    decreases |urls| - k
  {
    if k == |urls| {
      assert urls[..k] == urls;
    } else {
      var init := urls[..|urls| - 1];
      assert init[..k] == urls[..k];
      DedupPrefix(init, k);
    }
  }

  /** `url_map` after the loop: `url_map[url] = path` for each URL in turn. */
  function UrlMap(urls: seq<string>, place: string -> string): (d: Dict<string, string>)
    decreases |urls|
    ensures d.Valid()
  {
    if |urls| == 0 then Empty()
    else
      var u := urls[|urls| - 1];
      UrlMap(urls[..|urls| - 1], place).Put(u, place(u))
  }

  // ---------------------------------------------------------------------
  // Properties

  /**
   * The returned dictionary has exactly the input URLs as keys, each once,
   * in order of first occurrence, and maps each to its local path.
   */
  lemma {:induction false} UrlMapSpec(urls: seq<string>, place: string -> string)
    decreases |urls|
    ensures UrlMap(urls, place).keys == Dedup(urls)
    ensures forall u :: u in UrlMap(urls, place).values <==> u in urls
    ensures forall u :: u in UrlMap(urls, place).values ==> UrlMap(urls, place).values[u] == place(u)
  {
    if |urls| > 0 {
      var init := urls[..|urls| - 1];
      UrlMapSpec(init, place);
      assert forall v :: v in urls <==> v in init || v == urls[|urls| - 1];
    }
  }

  /**
   * Each URL fetched has a path that was not in the store, and no two
   * fetched URLs share a path: every file is written at most once.
   */
  lemma {:induction false} FetchedFresh(urls: seq<string>, present: set<string>, place: string -> string)
    decreases |urls|
    ensures forall k :: 0 <= k < |Fetched(urls, present, place)| ==>
              place(Fetched(urls, present, place)[k]) in Paths(urls, place) &&
              place(Fetched(urls, present, place)[k]) !in present
    ensures forall i, j :: 0 <= i < j < |Fetched(urls, present, place)| ==>
              place(Fetched(urls, present, place)[i]) != place(Fetched(urls, present, place)[j])
  {
    if |urls| > 0 {
      var init := urls[..|urls| - 1];
      var u := urls[|urls| - 1];
      FetchedFresh(init, present, place);
      var before := Fetched(init, present, place);
      assert Paths(urls, place) == Paths(init, place) + {place(u)};
      if place(u) !in present + Paths(init, place) {
        var r := before + [u];
        forall k | 0 <= k < |r| ensures place(r[k]) in Paths(urls, place) && place(r[k]) !in present {
          if k < |before| {
            assert r[k] == before[k];
          }
        }
        forall i, j | 0 <= i < j < |r| ensures place(r[i]) != place(r[j]) {
          assert r[i] == before[i];
          if j < |before| {
            assert r[j] == before[j];
          }
        }
      }
    }
  }

  /** The paths fetched are exactly the paths of the input that were not in the store. */
  lemma {:induction false} FetchedPaths(urls: seq<string>, present: set<string>, place: string -> string)
    decreases |urls|
    ensures Paths(Fetched(urls, present, place), place) == Paths(urls, place) - present
  {
    if |urls| > 0 {
      var init := urls[..|urls| - 1];
      var u := urls[|urls| - 1];
      FetchedPaths(init, present, place);
      var before := Fetched(init, present, place);
      if place(u) !in present + Paths(init, place) {
        assert Fetched(urls, present, place) == before + [u];
        assert (before + [u])[..|before|] == before;
      }
    }
  }

  /** `urls[i]` is the first input URL with its path, and that path was not in the store. */
  predicate FirstWithPath(urls: seq<string>, i: int, present: set<string>, place: string -> string)
  {
    0 <= i < |urls| && place(urls[i]) !in present + Paths(urls[..i], place)
  }

  /**
   * The URLs fetched are input URLs: exactly those that are the first with
   * their path and whose path was not in the store. Of several URLs that
   * share a path, only the first is requested.
   */
  lemma {:induction false} FetchedFromInput(urls: seq<string>, present: set<string>, place: string -> string)
    decreases |urls|
    ensures forall k :: 0 <= k < |Fetched(urls, present, place)| ==>
              exists i :: FirstWithPath(urls, i, present, place) && urls[i] == Fetched(urls, present, place)[k]
    ensures forall i :: FirstWithPath(urls, i, present, place) ==> urls[i] in Fetched(urls, present, place)
  {
    if |urls| > 0 {
      var n := |urls| - 1;
      var init := urls[..n];
      var u := urls[n];
      FetchedFromInput(init, present, place);
      var before := Fetched(init, present, place);
      var r := Fetched(urls, present, place);
      assert urls[..n] == init;
      forall i | 0 <= i < n
        ensures FirstWithPath(init, i, present, place) <==> FirstWithPath(urls, i, present, place)
        ensures init[i] == urls[i]
      {
        assert init[..i] == urls[..i];
      }
      forall k | 0 <= k < |r|
        ensures exists i :: FirstWithPath(urls, i, present, place) && urls[i] == r[k]
      {
        if k < |before| {
          assert r[k] == before[k];
          var i :| FirstWithPath(init, i, present, place) && init[i] == before[k];
          assert FirstWithPath(urls, i, present, place) && urls[i] == r[k];
        } else {
          assert r[k] == u && FirstWithPath(urls, n, present, place);
        }
      }
      forall i | FirstWithPath(urls, i, present, place) ensures urls[i] in r {
        if i < n {
          assert FirstWithPath(init, i, present, place);
          assert init[i] in before;
        } else {
          assert r == before + [u];
        }
      }
    } else {
      assert Fetched(urls, present, place) == [];
    }
  }

  /** After the downloader, the store holds the old paths plus the path of every input URL. */
  lemma {:induction false} DownloadedKeys(urls: seq<string>, files: map<string, Content>, place: string -> string)
    ensures Downloaded(files, Fetched(urls, files.Keys, place), place).Keys == files.Keys + Paths(urls, place)
  {
    FetchedPaths(urls, files.Keys, place);
  }

  /** When every path is already in the store, nothing is fetched. */
  lemma FetchedNothingWhenPresent(urls: seq<string>, present: set<string>, place: string -> string)
    requires Paths(urls, place) <= present
    ensures |Fetched(urls, present, place)| == 0
  {
  }

  /** A second run over the same URLs fetches nothing. */
  lemma {:induction false} RerunFetchesNothing(urls: seq<string>, files: map<string, Content>, place: string -> string)
    ensures var after := Downloaded(files, Fetched(urls, files.Keys, place), place);
            |Fetched(urls, after.Keys, place)| == 0
  {
    var after := Downloaded(files, Fetched(urls, files.Keys, place), place);
    DownloadedKeys(urls, files, place);
    FetchedNothingWhenPresent(urls, after.Keys, place);
  }

  /** Files already in the store are never overwritten. */
  lemma {:induction false} DownloadedKeepsOld(files: map<string, Content>, fetched: seq<string>, place: string -> string)
    requires forall k :: 0 <= k < |fetched| ==> place(fetched[k]) !in files
    decreases |fetched|
    ensures forall p :: p in files ==> Downloaded(files, fetched, place)[p] == files[p]
  {
    if |fetched| > 0 {
      DownloadedKeepsOld(files, fetched[..|fetched| - 1], place);
    }
  }

  /** Each fetched URL's path holds what was served for that URL. */
  lemma {:induction false} DownloadedHolds(files: map<string, Content>, fetched: seq<string>, place: string -> string)
    requires forall i, j :: 0 <= i < j < |fetched| ==> place(fetched[i]) != place(fetched[j])
    decreases |fetched|
    ensures forall k :: 0 <= k < |fetched| ==> Downloaded(files, fetched, place)[place(fetched[k])] == FontData(fetched[k])
  {
    if |fetched| > 0 {
      var n := |fetched| - 1;
      var init := fetched[..n];
      DownloadedHolds(files, init, place);
      var before := Downloaded(files, init, place);
      var r := before[place(fetched[n]) := FontData(fetched[n])];
      assert Downloaded(files, fetched, place) == r;
      forall k | 0 <= k < |fetched| ensures r[place(fetched[k])] == FontData(fetched[k]) {
        if k < n {
          assert init[k] == fetched[k];
          assert place(fetched[k]) != place(fetched[n]);
        }
      }
    }
  }

  /** What the first `i` URLs fetch is the start of what all of them fetch. */
  lemma {:induction false} FetchedPrefix(urls: seq<string>, present: set<string>, place: string -> string, i: nat)
    requires i <= |urls|
    decreases |urls|
    ensures var f := Fetched(urls[..i], present, place);
            |f| <= |Fetched(urls, present, place)| && f == Fetched(urls, present, place)[..|f|]
  {
    if i < |urls| {
      var init := urls[..|urls| - 1];
      FetchedPrefix(init, present, place, i);
      assert init[..i] == urls[..i];
    } else {
      assert urls[..i] == urls;
    }
  }

  /** A URL whose path is new is the next one fetched after those of the URLs before it. */
  lemma {:induction false} FetchedNext(urls: seq<string>, present: set<string>, place: string -> string, i: nat)
    requires i < |urls|
    requires place(urls[i]) !in present + Paths(urls[..i], place)
    ensures var done := Fetched(urls[..i], present, place);
            var plan := Fetched(urls, present, place);
            && Fetched(urls[..i + 1], present, place) == done + [urls[i]]
            && |done| < |plan| && plan[..|done|] == done && plan[|done|] == urls[i]
  {
    var done := Fetched(urls[..i], present, place);
    assert urls[..i + 1][..i] == urls[..i];
    assert Fetched(urls[..i + 1], present, place) == done + [urls[i]];
    FetchedPrefix(urls, present, place, i + 1);
    var plan := Fetched(urls, present, place);
    assert plan[..|done| + 1] == done + [urls[i]];
    assert plan[..|done|] == (plan[..|done| + 1])[..|done|];
  }

  /** A URL whose path exists already, or comes from an earlier URL, is not fetched. */
  lemma {:induction false} FetchedSkip(urls: seq<string>, present: set<string>, place: string -> string, i: nat)
    requires i < |urls|
    requires place(urls[i]) in present + Paths(urls[..i], place)
    ensures Fetched(urls[..i + 1], present, place) == Fetched(urls[..i], present, place)
  {
    assert urls[..i + 1][..i] == urls[..i];
  }

  /**
   * One turn of the downloader's loop, seen from the plan: after the URLs
   * before `i` have fetched `plan[..n]`, URL `i` either fetches nothing (its
   * path exists) or is `plan[n]`, the next one fetched.
   */
  lemma {:induction false} FetchAdvance(urls: seq<string>, present: set<string>, place: string -> string, i: nat, n: nat)
    requires i < |urls|
    requires n <= |Fetched(urls, present, place)|
    requires Fetched(urls[..i], present, place) == Fetched(urls, present, place)[..n]
    ensures place(urls[i]) in present + Paths(Fetched(urls, present, place)[..n], place) ==>
              Fetched(urls[..i + 1], present, place) == Fetched(urls, present, place)[..n]
    ensures place(urls[i]) !in present + Paths(Fetched(urls, present, place)[..n], place) ==>
              && n < |Fetched(urls, present, place)|
              && Fetched(urls, present, place)[n] == urls[i]
              && Fetched(urls[..i + 1], present, place) == Fetched(urls, present, place)[..n + 1]
  {
    var plan := Fetched(urls, present, place);
    FetchedPaths(urls[..i], present, place);
    if place(urls[i]) in present + Paths(plan[..n], place) {
      FetchedSkip(urls, present, place, i);
    } else {
      FetchedNext(urls, present, place, i);
      TakeNext(plan, n);
    }
  }

  lemma FontGetsSnoc(urls: seq<string>, u: string)
    ensures FontGets(urls + [u]) == FontGets(urls) + [FontGet(u)]
  {
    assert (urls + [u])[..|urls|] == urls;
  }

  lemma DownloadedSnoc(files: map<string, Content>, fetched: seq<string>, u: string, place: string -> string)
    ensures Downloaded(files, fetched + [u], place) == Downloaded(files, fetched, place)[place(u) := FontData(u)]
  {
    assert (fetched + [u])[..|fetched|] == fetched;
  }

  // ---------------------------------------------------------------------
  // The loop, step by step

  /** Where a run of the downloader's loop ends: the store, the requests sent, and the URL refused, if any. */
  datatype Fetch = Fetch(files: map<string, Content>, requests: seq<Request>, refused: Option<string>)

  /**
   * The downloader's loop from URL `i` on, starting with `files` and
   * `requests`: a URL whose path exists is skipped; any other is requested
   * and, when the request succeeds, written to its path; the first refused
   * request ends the run.
   */
  function FetchFrom(urls: seq<string>, i: nat, files: map<string, Content>, requests: seq<Request>,
                     place: string -> string, ok: string -> bool): (f: Fetch)
    requires i <= |urls|
    decreases |urls| - i
  {
    if i == |urls| then Fetch(files, requests, None)
    else
      var u := urls[i];
      if place(u) in files then FetchFrom(urls, i + 1, files, requests, place, ok)
      else if !ok(u) then Fetch(files, requests + [FontGet(u)], Some(u))
      else FetchFrom(urls, i + 1, files[place(u) := FontData(u)], requests + [FontGet(u)], place, ok)
  }

  /** The loop only adds files and only appends requests. */
  lemma {:induction false} FetchFromExtends(urls: seq<string>, i: nat, files: map<string, Content>, requests: seq<Request>,
                                            place: string -> string, ok: string -> bool)
    requires i <= |urls|
    decreases |urls| - i
    ensures var f := FetchFrom(urls, i, files, requests, place, ok);
            && files.Keys <= f.files.Keys
            && |requests| <= |f.requests| && f.requests[..|requests|] == requests
  {
    if i < |urls| {
      var u := urls[i];
      if place(u) in files {
        FetchFromExtends(urls, i + 1, files, requests, place, ok);
      } else if ok(u) {
        FetchFromExtends(urls, i + 1, files[place(u) := FontData(u)], requests + [FontGet(u)], place, ok);
        var f := FetchFrom(urls, i, files, requests, place, ok);
        assert f.requests[..|requests| + 1][..|requests|] == f.requests[..|requests|];
      }
    }
  }

  /**
   * How a run over `urls` ends according to the plan: at the first refused
   * URL of the plan, or with every planned font written.
   */
  function PlanOutcome(urls: seq<string>, files: map<string, Content>, requests: seq<Request>,
                       place: string -> string, ok: string -> bool): (f: Fetch)
  {
    var plan := Fetched(urls, files.Keys, place);
    var k := FirstRefused(plan, ok);
    if k == |plan| then Fetch(Downloaded(files, plan, place), requests + FontGets(plan), None)
    else Fetch(Downloaded(files, plan[..k], place), requests + FontGets(plan[..k + 1]), Some(plan[k]))
  }

  /** The loop at its end has fetched the whole plan, without a refusal. */
  lemma FetchFromEnd(urls: seq<string>, files0: map<string, Content>, requests0: seq<Request>,
                     place: string -> string, ok: string -> bool, n: nat)
    requires n <= |Fetched(urls, files0.Keys, place)|
    requires Fetched(urls[..|urls|], files0.Keys, place) == Fetched(urls, files0.Keys, place)[..n]
    requires forall j :: 0 <= j < n ==> ok(Fetched(urls, files0.Keys, place)[j])
    ensures var plan := Fetched(urls, files0.Keys, place);
            FetchFrom(urls, |urls|, Downloaded(files0, plan[..n], place), requests0 + FontGets(plan[..n]), place, ok)
              == PlanOutcome(urls, files0, requests0, place, ok)
  {
    var plan := Fetched(urls, files0.Keys, place);
    TakeAll(urls);
    TakeAll(plan);
    FirstRefusedAt(plan, ok, n);
  }

  /** The loop meets the first refused URL of the plan. */
  lemma FetchFromRefused(urls: seq<string>, files0: map<string, Content>, requests0: seq<Request>,
                         place: string -> string, ok: string -> bool, i: nat, n: nat)
    requires i < |urls| && n < |Fetched(urls, files0.Keys, place)|
    requires Fetched(urls, files0.Keys, place)[n] == urls[i] && !ok(urls[i])
    requires forall j :: 0 <= j < n ==> ok(Fetched(urls, files0.Keys, place)[j])
    requires place(urls[i]) !in Downloaded(files0, Fetched(urls, files0.Keys, place)[..n], place)
    ensures var plan := Fetched(urls, files0.Keys, place);
            FetchFrom(urls, i, Downloaded(files0, plan[..n], place), requests0 + FontGets(plan[..n]), place, ok)
              == PlanOutcome(urls, files0, requests0, place, ok)
  {
    var plan := Fetched(urls, files0.Keys, place);
    FirstRefusedAt(plan, ok, n);
    TakeNext(plan, n);
    FontGetsSnoc(plan[..n], urls[i]);
    AppendAssoc(requests0, FontGets(plan[..n]), [FontGet(urls[i])]);
  }

  /** Fetching the next URL of the plan is one more step of it. */
  lemma FetchFromNext(urls: seq<string>, files0: map<string, Content>, requests0: seq<Request>,
                      place: string -> string, n: nat, u: string)
    requires n < |Fetched(urls, files0.Keys, place)| && Fetched(urls, files0.Keys, place)[n] == u
    ensures var plan := Fetched(urls, files0.Keys, place);
            && Downloaded(files0, plan[..n], place)[place(u) := FontData(u)] == Downloaded(files0, plan[..n + 1], place)
            && (requests0 + FontGets(plan[..n])) + [FontGet(u)] == requests0 + FontGets(plan[..n + 1])
  {
    var plan := Fetched(urls, files0.Keys, place);
    TakeNext(plan, n);
    FontGetsSnoc(plan[..n], u);
    AppendAssoc(requests0, FontGets(plan[..n]), [FontGet(u)]);
    DownloadedSnoc(files0, plan[..n], u, place);
  }

  /** A URL fetched successfully keeps the loop in step with the plan, one URL further on. */
  lemma FetchFromOkStep(urls: seq<string>, files0: map<string, Content>, place: string -> string,
                        ok: string -> bool, i: nat, n: nat)
    requires i < |urls| && n < |Fetched(urls, files0.Keys, place)|
    requires Fetched(urls, files0.Keys, place)[n] == urls[i] && ok(urls[i])
    requires forall j :: 0 <= j < n ==> ok(Fetched(urls, files0.Keys, place)[j])
    ensures forall j :: 0 <= j < n + 1 ==> ok(Fetched(urls, files0.Keys, place)[j])
  {
  }

  /**
   * From any point of the loop where the URLs before `i` have fetched
   * `plan[..n]`, all successfully, the run ends as the plan says.
   */
  lemma {:induction false} FetchFromPlanAt(urls: seq<string>, files0: map<string, Content>, requests0: seq<Request>,
                                           place: string -> string, ok: string -> bool, i: nat, n: nat)
    requires i <= |urls|
    requires n <= |Fetched(urls, files0.Keys, place)|
    requires Fetched(urls[..i], files0.Keys, place) == Fetched(urls, files0.Keys, place)[..n]
    requires forall j :: 0 <= j < n ==> ok(Fetched(urls, files0.Keys, place)[j])
    decreases |urls| - i
    ensures var plan := Fetched(urls, files0.Keys, place);
            FetchFrom(urls, i, Downloaded(files0, plan[..n], place), requests0 + FontGets(plan[..n]), place, ok)
              == PlanOutcome(urls, files0, requests0, place, ok)
  {
    var plan := Fetched(urls, files0.Keys, place);
    var files := Downloaded(files0, plan[..n], place);
    if i == |urls| {
      FetchFromEnd(urls, files0, requests0, place, ok, n);
    } else {
      var u := urls[i];
      FetchAdvance(urls, files0.Keys, place, i, n);
      if place(u) in files {
        FetchFromPlanAt(urls, files0, requests0, place, ok, i + 1, n);
      } else if !ok(u) {
        FetchFromRefused(urls, files0, requests0, place, ok, i, n);
      } else {
        FetchFromNext(urls, files0, requests0, place, n, u);
        FetchFromOkStep(urls, files0, place, ok, i, n);
        FetchFromPlanAt(urls, files0, requests0, place, ok, i + 1, n + 1);
      }
    }
  }

  /**
   * A whole run of the loop: the requests are those of the plan up to and
   * including the first refused one, and the store gains the paths of the
   * planned URLs before it.
   */
  lemma FetchFromPlan(urls: seq<string>, files: map<string, Content>, requests: seq<Request>,
                      place: string -> string, ok: string -> bool)
    ensures FetchFrom(urls, 0, files, requests, place, ok) == PlanOutcome(urls, files, requests, place, ok)
  {
    var plan := Fetched(urls, files.Keys, place);
    assert urls[..0] == [];
    assert requests + FontGets(plan[..0]) == requests;
    FetchFromPlanAt(urls, files, requests, place, ok, 0, 0);
  }

  // ---------------------------------------------------------------------
  // Sequence facts the proofs above use

  lemma TakeNext<T>(s: seq<T>, n: nat)
    requires n < |s|
    ensures s[..n + 1] == s[..n] + [s[n]]
  {
  }

  lemma TakeAll<T>(s: seq<T>)
    ensures s[..|s|] == s
  {
  }

  lemma AppendAssoc<T>(a: seq<T>, b: seq<T>, c: seq<T>)
    ensures (a + b) + c == a + (b + c)
  {
  }
}
