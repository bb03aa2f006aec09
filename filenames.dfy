/**
 * Local file names for downloaded fonts: the path of a URL as `urlparse`
 * splits it off, the last path component and its suffix as `pathlib`
 * reads them, and the name `<first 16 hex digits of the URL's SHA-256><ext>`.
 * The digest itself is a parameter: any function yielding 64 lower-case
 * hex digits.
 */
module FontFiles {
  import opened Wrappers
  import opened Strings
  import Extract

  predicate IsHexDigit(c: char) {
    '0' <= c <= '9' || 'a' <= c <= 'f'
  }

  /** What `hashlib.sha256(...).hexdigest()` returns. */
  type HexDigest = s: string | |s| == 64 && forall k :: 0 <= k < |s| ==> IsHexDigit(s[k])
    witness seq(64, k => '0')

  /** The hex digits of the digest that go into a file name. */
  const HASH_PREFIX_LENGTH: nat := 16
  /** The extension used when the URL path has no suffix. */
  const DEFAULT_EXT: string := ".font"

  // ---------------------------------------------------------------------
  // urlparse: only as far as the path component

  /** Leading characters `urlsplit` strips: C0 controls and the space. */
  predicate IsControlOrSpace(c: char) {
    c <= ' '
  }

  /** Characters `urlsplit` deletes anywhere in the URL. */
  predicate IsUnsafe(c: char) {
    c == '\t' || c == '\r' || c == '\n'
  }

  predicate IsAsciiAlpha(c: char) {
    'a' <= c <= 'z' || 'A' <= c <= 'Z'
  }

  /** Letters, digits, `+`, `-` and `.`: what a scheme may contain. */
  predicate IsSchemeChar(c: char) {
    IsAsciiAlpha(c) || '0' <= c <= '9' || c == '+' || c == '-' || c == '.'
  }

  function AsciiLower(s: string): (r: string)
    ensures |r| == |s|
    ensures forall k :: 0 <= k < |s| && 'A' <= s[k] <= 'Z' ==> r[k] == s[k] - 'A' + 'a'
    ensures forall k :: 0 <= k < |s| && !('A' <= s[k] <= 'Z') ==> r[k] == s[k]
  {
    seq(|s|, k requires 0 <= k < |s| => if 'A' <= s[k] <= 'Z' then s[k] - 'A' + 'a' else s[k])
  }

  /** Schemes whose last path segment may carry `;parameters`. */
  const USES_PARAMS: set<string> := {"", "ftp", "hdl", "prospero", "http", "imap", "https",
    "shttp", "rtsp", "rtsps", "rtspu", "sip", "sips", "mms", "sftp", "tel"}

  function LStripControl(s: string): (r: string)
    ensures |r| <= |s| && r == s[|s| - |r|..]
    ensures forall k :: 0 <= k < |s| - |r| ==> IsControlOrSpace(s[k])
    ensures |r| == 0 || !IsControlOrSpace(r[0])
  {
    if |s| > 0 && IsControlOrSpace(s[0]) then LStripControl(s[1..]) else s
  }

  function RemoveUnsafe(s: string): (r: string)
    ensures |r| <= |s|
    ensures forall k :: 0 <= k < |r| ==> !IsUnsafe(r[k])
  {
    if |s| == 0 then []
    else (if IsUnsafe(s[0]) then [] else [s[0]]) + RemoveUnsafe(s[1..])
  }

  /** The index of the `:` ending a scheme at the front of `s`, or -1. */
  function SchemeEnd(s: string): (i: int)
    ensures i == -1 || 0 < i < |s|
    ensures i > 0 ==> s[i] == ':' && ':' !in s[..i] && IsAsciiAlpha(s[0])
    ensures i > 0 ==> forall k :: 0 <= k < i ==> IsSchemeChar(s[k])
  {
    var i := IndexOf(s, ':');
    if i > 0 && IsAsciiAlpha(s[0]) && forall k :: 0 <= k < i ==> IsSchemeChar(s[k]) then i else -1
  }

  /** The first index at or after `j` holding `/`, `?` or `#`, or `|s|`. */
  function NetlocEnd(s: string, j: nat): (k: nat)
    requires j <= |s|
    decreases |s| - j
    ensures j <= k <= |s|
    ensures k < |s| ==> s[k] in "/?#"
    ensures forall t :: j <= t < k ==> s[t] !in "/?#"
  {
    if j == |s| || s[j] in "/?#" then j else NetlocEnd(s, j + 1)
  }

  /** `s` up to its first `c`: what `s.split(c, 1)[0]` keeps. */
  function CutAt(s: string, c: char): (r: string)
    ensures c !in r
    ensures |r| <= |s| && r == s[..|r|]
    ensures c !in s ==> r == s
    ensures c in s ==> s[|r|] == c
  {
    var i := IndexOf(s, c);
    if i >= 0 then s[..i] else s
  }

  /** `_splitparams`: cut at the first `;` in the last `/`-segment. */
  function SplitParams(path: string): (r: string)
    ensures |r| <= |path| && r == path[..|r|]
  {
    var slash := LastIndexOf(path, '/');
    if slash >= 0 then
      var i := IndexFrom(path, ';', slash);
      if i < 0 then path else path[..i]
    else
      var i := IndexOf(path, ';');
      if i < 0 then path else path[..i]
  }

  lemma PrefixKeepsOut(s: string, p: string, c: char)
    requires c !in s && |p| <= |s| && p == s[..|p|]
    ensures c !in p
  {
    forall k | 0 <= k < |p| ensures p[k] != c {
      assert p[k] == s[k];
    }
  }

  datatype UrlParts = UrlParts(scheme: string, netloc: string, path: string)

  /** The scheme step of `urlsplit`: the lower-cased scheme, or "", and the text after it. */
  function SplitScheme(s: string): (r: (string, string))
  {
    var i := SchemeEnd(s);
    if i > 0 then (AsciiLower(s[..i]), s[i + 1..]) else ("", s)
  }

  /** The network-location step of `urlsplit`: after `//`, up to the first `/`, `?` or `#`. */
  function SplitNetloc(rest: string): (r: (string, string))
  {
    if |rest| >= 2 && rest[..2] == "//" then
      var d := NetlocEnd(rest, 2);
      (rest[2..d], rest[d..])
    else ("", rest)
  }

  /** The path: the text before the fragment and the query, less any `;params`. */
  function PathOf(scheme: string, tail: string): (path: string)
    ensures '#' !in path && '?' !in path
  {
    var path := CutAt(CutAt(tail, '#'), '?');
    var path' := if scheme in USES_PARAMS && ';' in path then SplitParams(path) else path;
    PrefixKeepsOut(path, path', '#');
    PrefixKeepsOut(path, path', '?');
    path'
  }

  /**
   * `urlparse(url)` as far as scheme, network location and path: strip
   * leading controls, drop tabs and line breaks, split off a scheme, a
   * `//` network location, the fragment and the query, then `;params`.
   */
  function ParseUrl(url: string): (parts: UrlParts)
    ensures '#' !in parts.path && '?' !in parts.path
  {
    var s := RemoveUnsafe(LStripControl(url));
    var scheme := SplitScheme(s);
    var netloc := SplitNetloc(scheme.1);
    UrlParts(scheme.0, netloc.0, PathOf(scheme.0, netloc.1))
  }

  // ---------------------------------------------------------------------
  // pathlib: name and suffix

  /**
   * `PurePosixPath(p).name`: the last `/`-separated component that is
   * neither empty nor `.`, or the empty string when there is none.
   */
  function BaseName(p: string): (r: string)
    decreases |p|
    ensures '/' !in r && r != "."
    ensures |r| <= |p|
  {
    var i := LastIndexOf(p, '/');
    var seg := p[i + 1..];
    assert '/' !in seg by {
      forall k | 0 <= k < |seg| ensures seg[k] != '/' {
        assert seg[k] == p[i + 1 + k];
      }
    }
    if |seg| > 0 && seg != "." then seg
    else if i < 0 then ""
    else BaseName(p[..i])
  }

  lemma TailFree(s: string, i: nat, c: char)
    requires i <= |s| && forall j :: i <= j < |s| ==> s[j] != c
    ensures c !in s[i..]
  {
    forall k | 0 <= k < |s| - i ensures s[i..][k] != c {
      assert s[i..][k] == s[i + k];
    }
  }

  /**
   * `PurePath.suffix`: from the last `.` on, when that `.` is neither the
   * first nor the last character of the name; else empty.
   */
  function Suffix(name: string): (r: string)
    ensures |r| == 0 || (|r| >= 2 && r[0] == '.' && '.' !in r[1..])
    ensures |r| <= |name| && r == name[|name| - |r|..]
    ensures |r| > 0 ==> |r| < |name|
    ensures '/' !in name ==> '/' !in r
  {
    var i := LastIndexOf(name, '.');
    if 0 < i < |name| - 1 then
      TailFree(name, i + 1, '.');
      assert name[i..][1..] == name[i + 1..];
      name[i..]
    else ""
  }

  lemma DefaultExtShape()
    ensures |DEFAULT_EXT| >= 2 && DEFAULT_EXT[0] == '.' && '.' !in DEFAULT_EXT[1..] && '/' !in DEFAULT_EXT
  {
    var t := DEFAULT_EXT[1..];
    assert t[0] != '.' && t[1] != '.' && t[2] != '.' && t[3] != '.';
  }

  /** `Path(urlparse(url).path).suffix or ".font"`. */
  function Extension(url: string): (ext: string)
    ensures |ext| >= 2 && ext[0] == '.' && '.' !in ext[1..]
    ensures '/' !in ext
  {
    var sfx := Suffix(BaseName(ParseUrl(url).path));
    if |sfx| > 0 then sfx else DefaultExtShape(); DEFAULT_EXT
  }

  /** The first hex digits of a digest: none of them is a `/`. */
  function HashPrefix(d: HexDigest): (h: string)
    ensures |h| == HASH_PREFIX_LENGTH && h == d[..HASH_PREFIX_LENGTH]
    ensures forall k :: 0 <= k < |h| ==> IsHexDigit(h[k])
    ensures '/' !in h
  {
    var h := d[..HASH_PREFIX_LENGTH];
    assert forall k :: 0 <= k < |h| ==> h[k] == d[k];
    h
  }

  /** `f"{url_hash}{ext}"`: the hash prefix of a digest, then an extension. */
  function JoinName(d: HexDigest, ext: string): (name: string)
    ensures |name| == HASH_PREFIX_LENGTH + |ext|
    ensures forall k :: 0 <= k < HASH_PREFIX_LENGTH ==> IsHexDigit(name[k])
    ensures name[..HASH_PREFIX_LENGTH] == d[..HASH_PREFIX_LENGTH]
    ensures name[HASH_PREFIX_LENGTH..] == ext
    ensures '/' !in ext ==> '/' !in name
  {
    var h := HashPrefix(d);
    var name := h + ext;
    forall k | 0 <= k < HASH_PREFIX_LENGTH ensures IsHexDigit(name[k]) {
      assert name[k] == h[k];
    }
    assert name[..HASH_PREFIX_LENGTH] == h;
    assert name[HASH_PREFIX_LENGTH..] == ext;
    name
  }

  /** The local file name of a font URL. */
  function Filename(sha: string -> HexDigest, url: string): (name: string)
    ensures |name| == HASH_PREFIX_LENGTH + |Extension(url)|
    ensures forall k :: 0 <= k < HASH_PREFIX_LENGTH ==> IsHexDigit(name[k])
    ensures name[..HASH_PREFIX_LENGTH] == sha(url)[..HASH_PREFIX_LENGTH]
    ensures name[HASH_PREFIX_LENGTH..] == Extension(url)
    ensures '/' !in name
  {
    JoinName(sha(url), Extension(url))
  }

  /** `str(fonts_dir / filename)` for a directory path already in normal form. */
  function LocalPath(dir: string, sha: string -> HexDigest, url: string): (path: string)
  {
    dir + "/" + Filename(sha, url)
  }

  // ---------------------------------------------------------------------
  // Properties

  /** The name has a `.` that is its last one and is neither its first nor its last character. */
  predicate HasSuffixDot(name: string, i: nat) {
    0 < i < |name| - 1 && name[i] == '.' && '.' !in name[i + 1..]
  }

  /** `suffix` is non-empty exactly when such a dot exists, and then runs from it to the end. */
  lemma SuffixSpec(name: string)
    ensures |Suffix(name)| > 0 <==> exists i: nat :: HasSuffixDot(name, i)
    ensures forall i: nat :: HasSuffixDot(name, i) ==> Suffix(name) == name[i..]
  {
    var j := LastIndexOf(name, '.');
    forall i: nat | HasSuffixDot(name, i) ensures i == j {
      forall k | i < k < |name| ensures name[k] != '.' {
        assert name[i + 1..][k - i - 1] == name[k];
      }
    }
    if 0 < j < |name| - 1 {
      TailFree(name, j + 1, '.');
      assert HasSuffixDot(name, j);
    }
  }

  lemma SuffixExamples()
    ensures Suffix("a.woff2") == ".woff2"
    ensures Suffix("a.tar.gz") == ".gz"
    ensures Suffix(".ttf") == ""
    ensures Suffix("ttf.") == ""
  {
    SuffixSpec("a.woff2");
    assert HasSuffixDot("a.woff2", 1);
    SuffixSpec("a.tar.gz");
    assert HasSuffixDot("a.tar.gz", 5);
  }

  /**
   * The extension is the path's suffix when it has one and `.font`
   * otherwise; a URL whose suffix is literally `.font` gets the same
   * extension as one with no suffix.
   */
  lemma ExtensionSpec(url: string)
    ensures var sfx := Suffix(BaseName(ParseUrl(url).path));
            && (|sfx| > 0 ==> Extension(url) == sfx)
            && (Extension(url) == DEFAULT_EXT <==> |sfx| == 0 || sfx == DEFAULT_EXT)
  {
  }

  /** A name without `/` that is neither empty nor `.` is its own base name. */
  lemma BaseNamePlain(p: string)
    requires '/' !in p && p != "."
    ensures BaseName(p) == p
  {
    assert p[0..] == p;
  }

  /** A trailing `/` does not change the base name. */
  lemma BaseNameTrailingSlash(p: string)
    ensures BaseName(p + "/") == BaseName(p)
  {
    var q := p + "/";
    assert q[..|q| - 1] == p;
  }

  /** The base name of `dir/f` is `f`, for a file name `f`. */
  lemma BaseNameJoin(dir: string, f: string)
    requires '/' !in f && |f| > 0 && f != "."
    ensures BaseName(dir + "/" + f) == f
  {
    var p := dir + "/" + f;
    var i := LastIndexOf(p, '/');
    assert p[|dir|] == '/';
    forall k | |dir| < k < |p| ensures p[k] != '/' {
      assert p[k] == f[k - |dir| - 1];
    }
    assert p[i + 1..] == f;
  }

  /** A file name is never empty or `.`, so it is the base name of its own path. */
  lemma LocalPathBaseName(dir: string, sha: string -> HexDigest, url: string)
    ensures BaseName(LocalPath(dir, sha, url)) == Filename(sha, url)
  {
    var f := Filename(sha, url);
    assert |f| >= 18;
    BaseNameJoin(dir, f);
  }

  /** Two URLs share a file name exactly when they share the hash prefix and the extension. */
  lemma FilenameCollision(sha: string -> HexDigest, u: string, v: string)
    ensures Filename(sha, u) == Filename(sha, v) <==>
            sha(u)[..HASH_PREFIX_LENGTH] == sha(v)[..HASH_PREFIX_LENGTH] && Extension(u) == Extension(v)
  {
    var f, g := Filename(sha, u), Filename(sha, v);
    if f == g {
      assert f[..HASH_PREFIX_LENGTH] == sha(u)[..HASH_PREFIX_LENGTH];
      assert g[..HASH_PREFIX_LENGTH] == sha(v)[..HASH_PREFIX_LENGTH];
    }
  }

  lemma {:induction false} RemoveUnsafeKeeps(p: string, t: string)
    requires forall k :: 0 <= k < |p| ==> !IsUnsafe(p[k])
    ensures RemoveUnsafe(p + t) == p + RemoveUnsafe(t)
  {
    if |p| > 0 {
      assert (p + t)[1..] == p[1..] + t;
      RemoveUnsafeKeeps(p[1..], t);
      assert (p + t)[0] == p[0];
      assert RemoveUnsafe(p + t) == [p[0]] + RemoveUnsafe(p[1..] + t);
      assert [p[0]] + (p[1..] + RemoveUnsafe(t)) == p + RemoveUnsafe(t);
    } else {
      assert p + t == t;
      assert p + RemoveUnsafe(t) == RemoveUnsafe(t);
    }
  }

  lemma FontHostSafe()
    ensures forall k :: 0 <= k < |Extract.FONT_HOST| ==> !IsUnsafe(Extract.FONT_HOST[k])
  {
  }

  /** Sanitising a URL that starts with the font host leaves the host in front. */
  lemma SanitizeFontUrl(u: string)
    requires StartsWith(u, Extract.FONT_HOST)
    ensures RemoveUnsafe(LStripControl(u)) == Extract.FONT_HOST + RemoveUnsafe(u[|Extract.FONT_HOST|..])
  {
    var h := Extract.FONT_HOST;
    assert u == h + u[|h|..];
    assert LStripControl(u) == u;
    FontHostSafe();
    RemoveUnsafeKeeps(h, u[|h|..]);
  }

  lemma FontHostPieces()
    ensures Extract.FONT_HOST == "https" + ":" + "//" + "fonts.gstatic.com" + "/"
  {
  }

  lemma FontHostScheme(s: string)
    requires StartsWith(s, Extract.FONT_HOST)
    ensures SplitScheme(s) == ("https", s[6..])
  {
    FontHostPieces();
    assert s[..5] == "https" && s[5] == ':';
    assert IndexOf(s, ':') == 5;
    forall k | 0 <= k < 5 ensures IsSchemeChar(s[k]) && !('A' <= s[k] <= 'Z') {
      assert s[k] == "https"[k];
    }
    assert AsciiLower(s[..5]) == "https";
  }

  lemma NetlocEndAt(s: string, j: nat, m: nat)
    requires j <= m < |s| && s[m] in "/?#"
    requires forall t :: j <= t < m ==> s[t] !in "/?#"
    ensures NetlocEnd(s, j) == m
  {
  }

  lemma FontHostNoDelimiter()
    ensures forall k :: 0 <= k < |"fonts.gstatic.com"| ==> "fonts.gstatic.com"[k] !in "/?#"
  {
  }

  lemma FontHostNetloc(s: string)
    requires StartsWith(s, Extract.FONT_HOST)
    ensures SplitNetloc(s[6..]) == ("fonts.gstatic.com", s[25..])
  {
    FontHostPieces();
    var rest := s[6..];
    var host := "fonts.gstatic.com";
    var h := Extract.FONT_HOST;
    assert rest[..2] == "//";
    assert s[..26] == h;
    assert h[8..25] == host;
    assert rest[2..19] == s[8..25] == h[8..25];
    assert rest[19] == '/';
    FontHostNoDelimiter();
    forall t | 2 <= t < 19 ensures rest[t] !in "/?#" {
      assert rest[t] == host[t - 2];
    }
    NetlocEndAt(rest, 2, 19);
    assert rest[19..] == s[25..];
  }

  /**
   * A URL the extractor reports parses with scheme `https` and network
   * location `fonts.gstatic.com`; the bracket (IPv6) and NFKC checks on the
   * network location therefore never raise for them.
   */
  lemma FontUrlParts(u: string)
    requires StartsWith(u, Extract.FONT_HOST)
    ensures ParseUrl(u).scheme == "https" && ParseUrl(u).netloc == "fonts.gstatic.com"
  {
    SanitizeFontUrl(u);
    var s := RemoveUnsafe(LStripControl(u));
    assert StartsWith(s, Extract.FONT_HOST);
    FontHostScheme(s);
    FontHostNetloc(s);
  }

  /** A text without tabs and line breaks loses nothing to `RemoveUnsafe`. */
  lemma {:induction false} RemoveUnsafeClean(p: string)
    requires forall k :: 0 <= k < |p| ==> !IsUnsafe(p[k])
    ensures RemoveUnsafe(p) == p
  {
    RemoveUnsafeKeeps(p, []);
    assert p + [] == p;
  }

  /** A font URL starts with a letter, so no leading character is stripped. */
  lemma {:induction false} LStripFontUrl(u: string)
    requires StartsWith(u, Extract.FONT_HOST)
    ensures LStripControl(u) == u
  {
    assert u[0] == Extract.FONT_HOST[0];
  }

  /** Without a `;` there are no parameters to split off: the path is cut at `#`, then at `?`. */
  lemma {:induction false} PathOfPlain(scheme: string, tail: string)
    requires ';' !in tail
    ensures PathOf(scheme, tail) == CutAt(CutAt(tail, '#'), '?')
  {
    var cut := CutAt(tail, '#');
    PrefixKeepsOut(tail, cut, ';');
    PrefixKeepsOut(cut, CutAt(cut, '?'), ';');
  }

  /** `ParseUrl`'s path, given what each of its steps produces. */
  lemma {:induction false} ParseUrlPath(url: string, s: string, scheme: string, rest: string, tail: string)
    requires RemoveUnsafe(LStripControl(url)) == s
    requires SplitScheme(s) == (scheme, rest)
    requires SplitNetloc(rest).1 == tail
    ensures ParseUrl(url).path == PathOf(scheme, tail)
  {
  }

  /**
   * The path of a URL the extractor reports, when sanitising leaves it as
   * it is and it holds no `;`: everything from the `/` after the host up to
   * the first `#`, then up to the first `?`.
   */
  lemma {:induction false} FontUrlPathClean(u: string)
    requires StartsWith(u, Extract.FONT_HOST)
    requires RemoveUnsafe(u) == u
    requires ';' !in u
    ensures ParseUrl(u).path == CutAt(CutAt(u[25..], '#'), '?')
  {
    LStripFontUrl(u);
    FontHostScheme(u);
    FontHostNetloc(u);
    ParseUrlPath(u, u, "https", u[6..], u[25..]);
    TailFree(u, 25, ';');
    PathOfPlain("https", u[25..]);
  }

  /**
   * The same for a URL without tabs, line breaks and `;`, the characters
   * `urlsplit` deletes or splits parameters at.
   */
  lemma {:induction false} FontUrlPath(u: string)
    requires StartsWith(u, Extract.FONT_HOST)
    requires forall k :: 0 <= k < |u| ==> !IsUnsafe(u[k]) && u[k] != ';'
    ensures ParseUrl(u).path == CutAt(CutAt(u[25..], '#'), '?')
  {
    RemoveUnsafeClean(u);
    FontUrlPathClean(u);
  }
}
