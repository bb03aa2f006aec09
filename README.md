# Font mirror, modelled in Dafny

`mirror.py` mirrors web fonts for offline use. For each font query it:

1. downloads the stylesheet the font service serves for the query;
2. saves it as `<safe name>.css` in `<output>/css/` (for a query without `/`);
3. extracts every `url(https://fonts.gstatic.com/...)` reference from it;
4. downloads each referenced font file once into `<output>/fonts/`, named after a SHA-256 prefix of its URL plus the URL's extension;
5. saves the stylesheet again, with each font URL replaced by `../fonts/<file name>`.

Queries come from the command line, then from a query file. In the file, blank lines and `#` comments are skipped, and `+` stands for a space. When no query is given at all, the run stops with a usage error.

The model is organised as follows:

- `Wrappers` holds `Option` and `Result`.
- `Strings` defines the Python string operations the script calls (`replace` and `strip`, with `split`/`join` to characterise `replace`). It also holds `find` and `rfind`, which the script never calls; they serve the models of `urlparse` and of `PurePath.name`/`.suffix` in `FontFiles`.
- `Dicts` is an insertion-ordered dictionary, standing for the Python `dict`.
- `Extract` models `re.findall` for the script's one pattern. It is a scanner over positions, proved to report exactly the list that findall's leftmost, non-overlapping rules determine.
- `FontFiles` models the local file name:
  - `urlparse(...).path`;
  - the pathlib `name` and `suffix`;
  - the `.font` default;
  - the 16-digit hash prefix.
- `Downloads` states the download loop twice:
  - as a forward function, `FetchFrom`;
  - as a plan of which URLs get fetched. This plan is the URLs whose path is new, cut at the first refused request.
  - Lemmas relate the two, and the url map to its inputs.
- `Rewrite` is `rewrite_css`: the url map's entries applied in order, each as a `str.replace`.
- `Queries` is the query list and the stylesheet's safe name.
- `Mirror` is a class for one invocation of the script:
  - its fields are the store of directories and files and the trace of network requests sent;
  - its methods are `download_css`, `download_fonts`, one query of `main`'s loop, the loop itself, and `main`.

The SHA-256 digest is a function parameter. So is the network:
- the stylesheet a query gets, or none when the request fails;
- whether a font request succeeds.

A font file's content is recorded as the URL it came from.

## Model

| member | source | states |
|---|---|---|
| Queries.LineQuery | mirror.py:72 | the query of a file line is the stripped line, with every `+` (and only those) turned into a space, of the same length |
| Queries.FileQueries | mirror.py:71-75 | the file's queries are at most as many as its lines; each is non-empty and has no `+` |
| Queries.FileQueriesOne | mirror.py:71-75 | a line contributes its query exactly when, stripped, it is non-empty and does not start with `#`; otherwise it contributes nothing |
| Queries.FileQueriesAppend | mirror.py:71-75 | the queries of concatenated line lists are the concatenated queries: lines are handled one by one, in order |
| Queries.FileQueriesSkips | mirror.py:74 | blank and `#`-comment lines yield no query |
| Queries.FontList | mirror.py:68-78 | a failure carries the usage message "No fonts specified. Use --fonts/-f or --fonts-file."; a success is non-empty and starts with the command-line queries |
| Queries.FontListFails | mirror.py:68-78 | the list fails exactly when there are no command-line queries and no file queries; on success, the file's queries follow the command-line ones |
| Queries.IsQueryLine | mirror.py:74 | no contract of its own: `FileQueriesOne` and `FileQueriesSkips` state that exactly the lines it accepts yield a query |
| Queries.SafeName | mirror.py:87 | no contract of its own: `SafeNameSpec` and `SafeNameClean` state its meaning |
| Queries.SafeNameSpec | mirror.py:87 | the safe name has the query's length; each `:`, `@`, `;` and `&` becomes `_`, and every other character is kept |
| Queries.SafeNameClean | mirror.py:87 | no safe name contains `:`, `@`, `;` or `&` |
| Strings.Replace | mirror.py:60 | a text in which the non-empty pattern does not occur comes back unchanged; `ReplaceIsJoin` and `ReplaceOneChar` state the rest of its meaning |
| Strings.ReplaceAbsent | mirror.py:60 | `replace` leaves a text without the pattern unchanged |
| Strings.JoinSplit | mirror.py:60 | joining the pieces of a split with the separator gives the text back |
| Strings.ReplaceIsJoin | mirror.py:60 | `s.replace(pat, repl)` equals `repl.join(s.split(pat))` for a non-empty pattern |
| Strings.SplitPiecesFree | mirror.py:60 | no piece of a split contains the separator |
| Strings.ReplaceOneChar | mirror.py:87 | replacing one character by one character changes exactly the occurrences of that character, position by position |
| Strings.Strip | mirror.py:72-74 | the stripped text neither starts nor ends with whitespace and is no longer than the line |
| Strings.StripSpec | mirror.py:72-74 | the stripped text is the stretch of the line between its leading and its trailing whitespace, both of which consist only of whitespace |
| Extract.Scan | mirror.py:28 | no contract of its own: `ScanSound`, `ScanCovers`, `ScanFindsAll` and `ScanIsFindAll` state that it reports exactly findall's matches |
| Extract.ExtractFontUrls | mirror.py:27-28 | no contract of its own: `ExtractedAreFontUrls`, `ExtractEmptyIffNoMatch`, `ExtractReference` and `ExtractReferences` state its meaning |
| Extract.MatchAtSpec | mirror.py:28 | where `MatchAt` reports an end, the pattern matches there and at no other end; where it reports none, the pattern matches at no end |
| Extract.ScanSound | mirror.py:28 | every span the scanner reports is a match of the pattern, and the spans are in order and do not overlap |
| Extract.ScanCovers | mirror.py:28 | every position where a match starts lies inside a reported span, so no match is skipped |
| Extract.ScanFindsAll | mirror.py:28 | the scanner's spans obey findall's rules: matches, in order, non-overlapping, leftmost, none missed |
| Extract.FindAllUnique | mirror.py:28 | two match lists that both obey findall's rules from the same index are equal |
| Extract.ScanIsFindAll | mirror.py:28 | any match list that obeys findall's rules is the scanner's list |
| Extract.CaptureIsFontUrl | mirror.py:28 | what a match captures starts with `https://fonts.gstatic.com/`, has at least one more character, and holds no `)` |
| Extract.ExtractedAreFontUrls | mirror.py:27-28 | every extracted URL is a font URL of that shape |
| Extract.ExtractEmptyIffNoMatch | mirror.py:27-28 | a stylesheet yields no URL exactly when the pattern matches nowhere in it |
| Extract.ReferenceMatches | mirror.py:28 | the pattern matches `url(<font URL>)` at the front of a text, ending right after its `)` |
| Extract.ScanShift | mirror.py:28 | scanning `a + b` from inside `b` reports `b`'s own matches, shifted by the length of `a` |
| Extract.ExtractFromShift | mirror.py:28 | scanning `a + b` from inside `b` captures the same URLs as scanning `b` alone |
| Extract.ExtractAfterMatch | mirror.py:27-28 | a match covering exactly the front `a` of the text is reported first; the rest is then scanned as if it stood alone |
| Extract.ExtractReference | mirror.py:27-28 | a reference `url(<font URL>)` at the front yields that URL, followed by the URLs of the rest |
| Extract.ExtractReferences | mirror.py:27-28 | a text made of references to N font URLs yields exactly those N URLs, in order, with duplicates kept |
| Extract.ScanSkips | mirror.py:28 | no match starts at a position that does not hold `u` |
| Extract.ExtractSkipsText | mirror.py:27-28 | text without the letter `u` in front of a stylesheet adds no URL |
| FontFiles.ParseUrl | mirror.py:37 | the parsed path holds neither `#` nor `?`; `FontUrlPath` states which text it is for the URLs the extractor reports |
| FontFiles.FontUrlPath | mirror.py:37-38 | for an extracted URL without tab, line break or `;`, the parsed path is the text from the `/` after the host up to the first `#`, then up to the first `?` |
| FontFiles.FontUrlParts | mirror.py:37 | every URL the extractor can report parses with scheme `https` and network location `fonts.gstatic.com` |
| FontFiles.BaseName | mirror.py:58 | a path's name has no `/`, is not `.`, and is no longer than the path |
| FontFiles.BaseNameTrailingSlash | mirror.py:58 | a trailing `/` does not change a path's name |
| FontFiles.BaseNameJoin | mirror.py:58 | the name of `dir/f` is `f`, for a non-empty `f` without `/` that is not `.` |
| FontFiles.Suffix | mirror.py:38 | a suffix is empty, or a `.` followed by at least one character and no further `.`; it ends the name and is shorter than it |
| FontFiles.SuffixSpec | mirror.py:38 | the suffix is non-empty exactly when the name has a last `.` that is neither its first nor its last character, and then runs from that `.` to the end |
| FontFiles.SuffixExamples | mirror.py:38 | `a.woff2` has suffix `.woff2`, `a.tar.gz` has `.gz`, and `.ttf` and `ttf.` have none |
| FontFiles.Extension | mirror.py:38 | the extension is a `.`, then at least one character, with no further `.` and no `/` |
| FontFiles.ExtensionSpec | mirror.py:38 | the extension is the path's suffix when there is one; it is `.font` exactly when the suffix is empty or is literally `.font` |
| FontFiles.HashPrefix | mirror.py:40 | the hash part is the first 16 hex digits of the digest |
| FontFiles.Filename | mirror.py:40-41 | the file name is the digest's first 16 hex digits followed by the extension, and contains no `/` |
| FontFiles.FilenameCollision | mirror.py:40-41 | two URLs get the same file name exactly when their digests share the first 16 digits and their extensions agree |
| FontFiles.LocalPath | mirror.py:42 | no contract of its own: `LocalPathBaseName` states that its name is the font's file name |
| FontFiles.LocalPathBaseName | mirror.py:42 | the name of a font's local path is its file name |
| Dicts.Dict.Put | mirror.py:52 | assigning a key sets its value; a key already present keeps its place, a new key goes last; a dictionary whose keys are distinct and match its values stays so |
| Downloads.Dedup | mirror.py:52 | the deduplicated list has no repeats and holds exactly the input URLs |
| Downloads.DedupPrefix | mirror.py:52 | the URLs first met among the first k inputs are the front of the deduplicated list, so the list keeps first-occurrence order |
| Downloads.UrlMap | mirror.py:52 | the url map is a well-formed dictionary: keys distinct, each with a value, no others |
| Downloads.UrlMapSpec | mirror.py:33-53 | the url map's keys are the input URLs once each, in order of first occurrence; its domain is exactly the input URLs; each maps to its local path |
| Downloads.FirstRefused | mirror.py:45-46 | the position found is the first one whose request fails: every earlier request succeeds |
| Downloads.FirstRefusedAt | mirror.py:45-46 | the first refusal is at `n` when every earlier request succeeds and request `n` fails (or `n` is the end) |
| Downloads.Downloaded | mirror.py:44-50 | the store after writing the fetched fonts holds the old paths plus those of the fetched URLs |
| Downloads.Fetched | mirror.py:44 | no more URLs are fetched than were given; `FetchedFromInput` states which URLs, `FetchedFresh` and `FetchedPaths` which paths |
| Downloads.FetchedFromInput | mirror.py:44-45 | the URLs fetched are exactly the input URLs that are the first with their path and whose path was not in the store; of several URLs sharing a path only the first is requested |
| Downloads.FetchedFresh | mirror.py:44 | each URL fetched has a path that was not in the store, and no two fetched URLs share a path: no file is written twice |
| Downloads.FetchedPaths | mirror.py:44 | the paths fetched are exactly the input's paths that were not yet in the store |
| Downloads.DownloadedKeys | mirror.py:44-50 | afterwards the store holds its old paths plus the path of every input URL |
| Downloads.FetchedNothingWhenPresent | mirror.py:44 | when every path already exists, nothing is fetched |
| Downloads.RerunFetchesNothing | mirror.py:44 | a second run over the same URLs fetches nothing |
| Downloads.DownloadedKeepsOld | mirror.py:44-50 | files already in the store are never overwritten |
| Downloads.DownloadedHolds | mirror.py:48-50 | each fetched URL's path holds what was served for that URL |
| Downloads.FetchFrom | mirror.py:35-53 | no contract of its own: `FetchFromExtends` and `FetchFromPlan` state its meaning, and `Mirror.Mirror.FetchAll` is proved against it |
| Downloads.FetchFromExtends | mirror.py:35-53 | the download loop only adds files and only appends requests |
| Downloads.FetchFromPlan | mirror.py:35-53 | the loop requests the planned fonts in order, up to and including the first refused one; the store gains the paths of the planned fonts fetched before the refusal; the loop reports that refusal |
| Rewrite.Reference | mirror.py:58-60 | no contract of its own: `RewriteTargets` states that for the downloader's map it is `../fonts/` plus the URL's own file name |
| Rewrite.Rewritten | mirror.py:57-60 | no contract of its own: `RewriteCss` is proved equal to it, and `RewriteStep`, `RewrittenUnchanged` and `RewrittenByBaseNames` state its meaning |
| Rewrite.RewriteCss | mirror.py:55-61 | the result applies the map's entries in insertion order, each replacing its URL by `../fonts/` plus the base name of its path |
| Rewrite.RewriteStep | mirror.py:57-60 | each step keeps the text between occurrences of the URL and puts the reference where each occurrence was |
| Rewrite.RewrittenUnchanged | mirror.py:55-61 | a stylesheet in which no mapped URL occurs comes back unchanged |
| Rewrite.RewrittenByBaseNames | mirror.py:58 | the result depends on the map's paths only through their base names |
| Rewrite.RewriteTargets | mirror.py:58-60 | for the map `download_fonts` returns, every URL is replaced by `../fonts/` plus its own file name |
| Rewrite.RewritePrefixCollision | mirror.py:57-60 | in one replace step, a URL that is a prefix of another rewrites the front of the longer one's occurrence |
| Mirror.CssPath | mirror.py:88 | no contract of its own: `CssPathName` states its file name |
| Mirror.CssPathName | mirror.py:87-88 | for a query without `/`, the stylesheet's file name is the safe name followed by `.css` |
| Mirror.FamiliesAppend | mirror.py:86-90 | the stylesheet queries of a joined trace are those of its parts, in order |
| Mirror.FetchFromFamilies | mirror.py:35-53 | the font download loop sends no stylesheet request |
| Mirror.Mirror.constructor | mirror.py:80-88 | the stylesheet and font directories are `<output>/css` and `<output>/fonts`; a font's path is its file name in the fonts directory; a query's stylesheet is `<safe name>.css` in the stylesheet directory; no request has been sent yet |
| Mirror.Mirror.DownloadCss | mirror.py:20-25 | exactly one stylesheet request is sent; on a failed request the run stops with that query's error and nothing is saved; otherwise the text is saved at the path as served and returned |
| Mirror.Mirror.FetchAll | mirror.py:35-53 | the store and the request trace end as the download loop specifies; without a refusal the result is the url map of the URLs; otherwise it is the error naming the refused URL |
| Mirror.Mirror.DownloadFonts | mirror.py:30-53 | the fonts directory is made, then the loop as in `FetchAll`, naming files by hash prefix and extension in that directory |
| Mirror.Mirror.MirrorQuery | mirror.py:86-101 | a refused stylesheet ends the query with nothing saved; otherwise the stylesheet is saved and its extracted URLs fetched as the download loop specifies, and without a refusal the stylesheet is saved again rewritten through the url map; exactly one stylesheet request is made, for this query; files are never removed |
| Mirror.Mirror.MirrorAll | mirror.py:86-102 | success means a stylesheet request was made for each query, in order, and each query's stylesheet file exists; a failure has requested the stylesheets of a non-empty prefix of the queries, and a refused stylesheet is that of the last query asked; files are never removed; requests are only appended |
| Mirror.Mirror.Run | mirror.py:67-102 | no query means the usage error, with nothing made, written or sent; otherwise the css and fonts directories are made and the queries are mirrored in order, as `MirrorAll` states |

## Left out

- HTTP details are not modelled:
  - the User-Agent header and the `family`/`display` request parameters;
  - streaming in 8192-byte chunks;
  - status codes.
- `raise_for_status` and any failed request become one refused outcome per URL or query. A refusal ends the run with that error.
- A font download that fails after its file was opened for writing is not modelled. In the source such a download leaves a truncated file, and a later run takes that file as present and does not fetch it again. In the model a refused font leaves no file.
- The network is a deterministic function of the query or URL. Timeouts, retries and responses that change over time are not modelled.
- SHA-256 is a parameter (`sha: string -> HexDigest`). The model relies only on it returning 64 hex digits.
- The font bytes are represented by the URL they were served for.
- `urlparse` is modelled as far as scheme, network location and path. Its `ValueError` checks on bracketed (IPv6) and NFKC-normalised network locations are left out. `FontFiles.FontUrlParts` shows they cannot apply to the URLs the extractor reports.
- Path handling assumes directory paths already in normal form. `fonts_dir / filename` becomes `dir + "/" + filename`.
- `Mirror.CssPath`: the stylesheet's file name is joined to the stylesheet directory as text. A query holding `/` is not treated as pathlib treats it: an absolute query such as `/tmp/x` replaces the directory, and `//` or `/./` inside a query are normalised. The model writes `<output>/css/` followed by the name unchanged.
- `Mirror.Mirror.Run`, `Mirror.Mirror.DownloadFonts`: `dirs` records the directories the script creates, not the parent directories that `mkdir(parents=True)` also creates.
- Filesystem failures are not modelled: permissions, full disks, a file where a directory is expected. Writes always succeed.
- A font counts as present only when a file is stored at its path. The script's `Path.exists()` is also true for a directory at that path and would then skip the download; the model does not count a directory at a font's path as present. What is in an existing file is never checked.
- Logging and click's option parsing are left out. `--fonts-file` is given as its lines, already read. Decoding, and click's check that the file exists, are not modelled.
- `Mirror.Mirror.Run` and `Mirror.Mirror.MirrorAll`: they state which stylesheet requests are made and which stylesheet files exist. They do not state the font requests or every file's content. The contents are stated query by query by `Mirror.Mirror.MirrorQuery`.
- `Rewrite.RewriteCss`: it requires the map to list a value for every key, which holds of every Python `dict`. Its `fonts_root` and `output_dir` arguments are unused in the source too.
- `Rewrite.RewriteCss`: it is not claimed that every font URL ends up as its own reference.
  - When one mapped URL is a prefix of another and the shorter one appears first in the stylesheet (so its entry comes first in the map), the shorter one's replacement also rewrites the front of the longer one. That occurrence becomes the shorter URL's reference followed by the rest of the longer URL. When the longer one comes first, its occurrences are replaced whole before the shorter one is looked for. `Rewrite.RewritePrefixCollision` states the collision for one replace step, not for `Rewritten` over a map holding both.
  - A URL can survive replacement, or appear anew, where its text overlaps one already replaced or re-forms across an inserted `../fonts/` reference.
- Safe name: each of `:`, `@`, `;` and `&` in a query becomes `_`, so `Roboto:wght@400;700` is saved as `Roboto_wght_400_700.css`. The model follows the code, which also replaces `@`.
- The constants `CSS_URL_BASE` and `OUTPUT_FONT_DIR` and the `--output-dir` default appear in the model only as parameters: the stylesheet service is the `stylesheet` function, and the output directory is an argument of the constructor.
