/**
 * The query list and the stylesheet file names in `main`: command-line
 * queries first, then the usable lines of the query file, and an error when
 * there are none; each query's file name has `:`, `@`, `;` and `&` turned
 * into `_`.
 */
module Queries {
  import opened Wrappers
  import opened Strings

  /** The message of the usage error raised when no query is given. */
  const NO_FONTS: string := "No fonts specified. Use --fonts/-f or --fonts-file."

  /** A file line is kept when, stripped, it is non-empty and does not start with `#`. */
  predicate IsQueryLine(line: string) {
    var t := Strip(line);
    |t| > 0 && t[0] != '#'
  }

  /** The query a kept line stands for: stripped, with `+` written as a space. */
  function LineQuery(line: string): (q: string)
    ensures |q| == |Strip(line)|
    ensures forall k :: 0 <= k < |q| ==> q[k] == if Strip(line)[k] == '+' then ' ' else Strip(line)[k]
    ensures '+' !in q
  {
    var t := Strip(line);
    ReplaceOneChar(t, '+', ' ');
    Replace(t, "+", " ")
  }

  /** `file_fonts`: the queries of the file's lines, in order. */
  function FileQueries(lines: seq<string>): (qs: seq<string>)
    decreases |lines|
    ensures |qs| <= |lines|
    ensures forall k :: 0 <= k < |qs| ==> |qs[k]| > 0 && '+' !in qs[k]
  {
    if |lines| == 0 then []
    else
      var line := lines[|lines| - 1];
      FileQueries(lines[..|lines| - 1]) + (if IsQueryLine(line) then [LineQuery(line)] else [])
  }

  /**
   * `font_list`: the command-line queries, then those of the query file when
   * one is given; no query at all is a usage error.
   */
  function FontList(cli: seq<string>, file: Option<seq<string>>): (r: Result<seq<string>, string>)
    ensures r.Failure? ==> r.error == NO_FONTS
    ensures r.Success? ==> |cli| <= |r.value| && r.value[..|cli|] == cli && |r.value| > 0
  {
    var all := cli + (if file.Some? then FileQueries(file.value) else []);
    if |all| == 0 then Failure(NO_FONTS) else Success(all)
  }

  /** The characters the stylesheet name does not keep. */
  predicate IsUnsafeInName(c: char) {
    c == ':' || c == '@' || c == ';' || c == '&'
  }

  /** `safe_name`: the query with `:`, `@`, `;` and `&` replaced by `_`. */
  function SafeName(font: string): (name: string)
  {
    Replace(Replace(Replace(Replace(font, ":", "_"), "@", "_"), ";", "_"), "&", "_")
  }

  // ---------------------------------------------------------------------
  // Properties

  /** A single line yields its query when it is kept and nothing otherwise. */
  lemma FileQueriesOne(line: string)
    ensures FileQueries([line]) == if IsQueryLine(line) then [LineQuery(line)] else []
  {
    assert [line][..0] == [];
  }

  /** The file's queries are those of its parts, in order: lines are handled one by one. */
  lemma {:induction false} FileQueriesAppend(a: seq<string>, b: seq<string>)
    decreases |b|
    ensures FileQueries(a + b) == FileQueries(a) + FileQueries(b)
  {
    if |b| > 0 {
      var b' := b[..|b| - 1];
      assert (a + b)[..|a + b| - 1] == a + b';
      assert (a + b)[|a + b| - 1] == b[|b| - 1];
      FileQueriesAppend(a, b');
    } else {
      assert a + b == a;
    }
  }

  /** Blank lines and comment lines contribute nothing. */
  lemma FileQueriesSkips(line: string)
    requires |Strip(line)| == 0 || StartsWith(Strip(line), "#")
    ensures FileQueries([line]) == []
  {
    FileQueriesOne(line);
  }

  /** The list fails exactly when neither the command line nor the file gives a query. */
  lemma FontListFails(cli: seq<string>, file: Option<seq<string>>)
    ensures FontList(cli, file).Failure? <==> |cli| == 0 && (file.None? || |FileQueries(file.value)| == 0)
    ensures FontList(cli, file).Success? ==>
              FontList(cli, file).value[|cli|..] == if file.Some? then FileQueries(file.value) else []
  {
  }

  /** Where a query has `:`, `@`, `;` or `&`, the name has `_`; elsewhere the same character. */
  lemma SafeNameSpec(font: string)
    ensures |SafeName(font)| == |font|
    ensures forall k :: 0 <= k < |font| ==>
              SafeName(font)[k] == if IsUnsafeInName(font[k]) then '_' else font[k]
  {
    var a := Replace(font, ":", "_");
    ReplaceOneChar(font, ':', '_');
    var b := Replace(a, "@", "_");
    ReplaceOneChar(a, '@', '_');
    var c := Replace(b, ";", "_");
    ReplaceOneChar(b, ';', '_');
    ReplaceOneChar(c, '&', '_');
  }

  /** No name contains any of the four replaced characters. */
  lemma SafeNameClean(font: string)
    ensures ':' !in SafeName(font) && '@' !in SafeName(font) && ';' !in SafeName(font) && '&' !in SafeName(font)
  {
    SafeNameSpec(font);
    var n := SafeName(font);
    forall k | 0 <= k < |n| ensures !IsUnsafeInName(n[k]) {
    }
  }
}
