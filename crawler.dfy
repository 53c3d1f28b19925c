/**
 * The site crawler: URL clean-up (tracking queries dropped, `cHash` parameters removed), the
 * on-disk name of a downloaded URL, the internal/skip tests, the breadth-first crawl over a
 * queue of `(url, depth)` pairs with its `visited` and `queued` sets, the download phases for
 * the PDFs and images it collected, and the manifest with its sorted URL lists.
 *
 * `urlparse`, `unquote`, the HTTP responses and the HTML link extraction are parameters: the
 * parser is `parse`, the decoder `unquote`, a page's response (with the links, images and
 * assets the extraction found in it) is `fetch(url)` and a file download is `download(url)`.
 */
module Crawler {
  import opened Opt
  import opened Text
  import opened Seqs
  import opened PosixPath

  const BaseUrl: string := "https://www.hanak-nabytek.cz"
  const Domain: string := "www.hanak-nabytek.cz"
  const MaxDepth: nat := 20
  const MaxDownloadBytes: nat := 100000000

  const SkipPatterns: seq<string> := [
    "/oblibene/pridat/", "/oblibene/odebrat/",
    "/favoriten/add/", "/favoriten/entfernen/",
    "/favorites/add/", "/favorites/remove/",
    "/izbrannoe/dobavit/", "/izbrannoe/udalit/",
    "/favoris/ajouter/", "/favoris/supprimer/",
    "/oblubene/pridat/", "/oblubene/odobrat/",
    "?type=3216095"]

  const TrackingMarks: seq<string> := ["gad_", "utm_", "fbclid", "gclid", "no_cache"]

  const ImageExts: seq<string> := [".jpg", ".jpeg", ".png", ".gif", ".webp", ".svg", ".ico", ".bmp", ".avif"]
  const VideoExts: seq<string> := [".mp4", ".avi", ".mov", ".wmv", ".flv", ".mkv"]

  /** The components `urlparse` splits a URL into. */
  datatype ParsedUrl = ParsedUrl(scheme: string, netloc: string, path: string, params: string, query: string, fragment: string)

  // ---------------------------------------------------------------- url_to_path

  /** The file a URL path is stored in, relative to the site directory. */
  function SitePath(path: string): (p: string)
    ensures StartsWith(p, LStrip(path, '/'))
  {
    var q := LStrip(path, '/');
    AppendedName(q, FileSuffix(q))
  }

  /**
   * What `url_to_path` appends to the stripped path: "index.html" to an empty path or one
   * ending in '/', ".html" when the last component has no dot, nothing otherwise.
   */
  function FileSuffix(q: string): (r: string)
    ensures r == "" <==> q != [] && q[|q| - 1] != '/' && '.' in Basename(q)
  {
    if q == "" || q[|q| - 1] == '/' then "index.html"
    else if '.' !in Basename(q) then ".html"
    else ""
  }


  /** `q` followed by a file name. */
  function AppendedName(q: string, name: string): (p: string)
    ensures StartsWith(p, q) && EndsWith(p, name) && |p| == |q| + |name|
  {
    var p := q + name;
    assert p[..|q|] == q && p[|q|..] == name;
    p
  }

  /**
   * `url_to_path`: the site path of the URL's decoded path, in the form `SITE_DIR / path`
   * gives it, with no empty and no "." component left; "/a//b.html" and "/a/./b.html" are
   * stored where "/a/b.html" is.
   */
  function UrlToPath(parse: string -> ParsedUrl, unquote: string -> string, url: string): (p: string)
    ensures p == PurePath(SitePath(unquote(parse(url).path)))
    ensures PurePath(p) == p
    ensures p != "" ==> forall k :: 0 <= k < |Split(p, '/')| ==> KeptPart(Split(p, '/')[k])
  {
    var q := SitePath(unquote(parse(url).path));
    PurePathIdempotent(q);
    PurePathParts(q);
    PurePath(q)
  }

  /** An appended suffix is a slash-free file name with a dot. */
  lemma {:induction false} SuffixShape(q: string)
    requires FileSuffix(q) != ""
    ensures var s := FileSuffix(q); s[0] != '/' && '/' !in s && '.' in s
  {
    if q == "" || q[|q| - 1] == '/' {
      assert FileSuffix(q) == "index.html";
      assert "index.html"[5] == '.';
    } else {
      assert FileSuffix(q) == ".html";
      assert ".html"[0] == '.';
    }
  }

  /**
   * A site path names a file: it is relative and its last component is non-empty and
   * has a dot.
   */
  lemma {:induction false} SitePathNamesFile(path: string)
    ensures !StartsWith(SitePath(path), "/")
    ensures Basename(SitePath(path)) != "" && '.' in Basename(SitePath(path))
  {
    var q := LStrip(path, '/');
    var s := FileSuffix(q);
    assert SitePath(path) == q + s;
    if s == "" {
      assert q + s == q;
      KeptNameIsFile(q);
    } else {
      SuffixShape(q);
      AppendNamesFile(q, s);
    }
  }

  /** A stripped path that gets no suffix already names a file. */
  lemma {:induction false} KeptNameIsFile(q: string)
    requires (q == [] || q[0] != '/') && FileSuffix(q) == ""
    ensures !StartsWith(q, "/") && Basename(q) != "" && '.' in Basename(q)
  {
    assert q[..1] == [q[0]];
  }

  /** A stripped path followed by a slash-free file name with a dot names a file. */
  lemma {:induction false} AppendNamesFile(q: string, name: string)
    requires (q == [] || q[0] != '/') && name != [] && name[0] != '/' && '/' !in name && '.' in name
    ensures !StartsWith(q + name, "/")
    ensures Basename(q + name) != "" && '.' in Basename(q + name)
  {
    AppendRelative(q, name);
    BasenameAppend(q, name);
    var a := Basename(q);
    var i :| 0 <= i < |name| && name[i] == '.';
    DotAppended(a, name, i);
  }

  lemma {:induction false} DotAppended(a: string, name: string, i: nat)
    requires i < |name| && name[i] == '.'
    ensures a + name != "" && '.' in a + name
  {
    assert (a + name)[|a| + i] == name[i];
  }

  lemma {:induction false} AppendRelative(q: string, name: string)
    requires (q == [] || q[0] != '/') && name != [] && name[0] != '/'
    ensures !StartsWith(q + name, "/")
  {
    var p := q + name;
    assert p[0] != '/' && p[..1] == [p[0]];
  }

  /** Mapping a site path again gives it back. */
  lemma {:induction false} SitePathIdempotent(path: string)
    ensures SitePath(SitePath(path)) == SitePath(path)
  {
    var p := SitePath(path);
    SitePathNamesFile(path);
    NothingToStrip(p);
    NoSuffixForFile(p);
    assert SitePath(p) == AppendedName(p, "");
    AppendNothing(p);
  }

  lemma {:induction false} AppendNothing(q: string)
    ensures AppendedName(q, "") == q
  {
    assert q + "" == q;
  }

  /** A path not starting with '/' loses nothing to the stripping. */
  lemma {:induction false} NothingToStrip(p: string)
    requires p != [] && !StartsWith(p, "/")
    ensures LStrip(p, '/') == p
  {
    assert p[..1] == [p[0]];
  }

  /** Nothing is appended to a path whose last component is a name with a dot. */
  lemma {:induction false} NoSuffixForFile(p: string)
    requires Basename(p) != "" && '.' in Basename(p)
    ensures FileSuffix(p) == ""
  {
    var b := Basename(p);
    assert p[|p| - 1] == b[|b| - 1];
  }

  // ---------------------------------------------------------------- normalize_url

  /** A query parameter that is kept: anything not starting with "cHash=". */
  predicate KeepParam(param: string) {
    !StartsWith(param, "cHash=")
  }

  /** The query of the cleaned URL. */
  function CleanQuery(query: string): string {
    var q := if ContainsAny(query, TrackingMarks) then "" else query;
    if Contains(q, "cHash") then Join(Filter(KeepParam, Split(q, '&')), "&") else q
  }

  /** `scheme://netloc/path`, with `?query` only when the query is non-empty. */
  function Unsplit(scheme: string, netloc: string, path: string, query: string): string {
    scheme + "://" + netloc + path + (if query != "" then "?" + query else "")
  }

  /** `normalize_url`: the URL without parameters, fragment and tracking or `cHash` query parts. */
  function NormalizeUrl(parse: string -> ParsedUrl, url: string): string {
    var u := parse(url);
    Unsplit(u.scheme, u.netloc, u.path, CleanQuery(u.query))
  }

  /** Every part of `Split(s, c)` occurs in `s`. */
  lemma {:induction false} SplitPartIn(s: string, c: char, i: nat)
    requires i < |Split(s, c)|
    ensures Contains(s, Split(s, c)[i])
  {
    JoinSplit(s, c);
    JoinContainsPart(Split(s, c), [c], i);
  }

  /** No tracking mark occurs in the `&`-join of some of the parameters of a query free of them. */
  lemma {:induction false} KeptParamsUntracked(q: string)
    requires !ContainsAny(q, TrackingMarks)
    ensures !ContainsAny(Join(Filter(KeepParam, Split(q, '&')), "&"), TrackingMarks)
  {
    var ps := Filter(KeepParam, Split(q, '&'));
    ContainsAnySpec(q, TrackingMarks);
    ContainsAnySpec(Join(ps, "&"), TrackingMarks);
    forall t | 0 <= t < |TrackingMarks|
      ensures !Contains(Join(ps, "&"), TrackingMarks[t])
    {
      var w := TrackingMarks[t];
      assert |w| > 0 && '&' !in w;
      KeptParamsLack(q, w);
    }
  }

  /** A word without '&' that the query lacks is in no '&'-join of kept parameters either. */
  lemma {:induction false} KeptParamsLack(q: string, w: string)
    requires |w| > 0 && '&' !in w && !Contains(q, w)
    ensures !Contains(Join(Filter(KeepParam, Split(q, '&')), "&"), w)
  {
    var ps := Filter(KeepParam, Split(q, '&'));
    if Contains(Join(ps, "&"), w) {
      ContainsInJoin(ps, '&', w);
      var i :| 0 <= i < |ps| && Contains(ps[i], w);
      FilterMembership(KeepParam, Split(q, '&'), ps[i]);
      var k :| 0 <= k < |Split(q, '&')| && Split(q, '&')[k] == ps[i];
      SplitPartIn(q, '&', k);
      ContainsTransitive(q, ps[i], w);
      assert false;
    }
  }

  /**
   * A query with a tracking mark is dropped; otherwise the result is the query's
   * parameters without those starting with "cHash=", in order and joined with '&' (the
   * `'cHash' in query` test only skips the split when nothing would be removed). No tracking
   * mark and no "cHash=" parameter is left.
   */
  lemma {:induction false} CleanQuerySpec(query: string)
    ensures ContainsAny(query, TrackingMarks) ==> CleanQuery(query) == ""
    ensures !ContainsAny(query, TrackingMarks) ==> CleanQuery(query) == Join(Filter(KeepParam, Split(query, '&')), "&")
    ensures !ContainsAny(CleanQuery(query), TrackingMarks)
    ensures forall k :: 0 <= k < |Split(CleanQuery(query), '&')| ==> KeepParam(Split(CleanQuery(query), '&')[k])
  {
    var r := CleanQuery(query);
    if ContainsAny(query, TrackingMarks) {
      ContainsAnySpec("", TrackingMarks);
      assert Split("", '&') == [""];
    } else {
      var parts := Split(query, '&');
      if !Contains(query, "cHash") {
        forall k | 0 <= k < |parts|
          ensures KeepParam(parts[k])
        {
          SplitPartIn(query, '&', k);
          if !KeepParam(parts[k]) {
            assert StartsWith(parts[k], "cHash");
            StartsWithContains(parts[k], "cHash");
            ContainsTransitive(query, parts[k], "cHash");
          }
        }
        FilterAll(KeepParam, parts);
        JoinSplit(query, '&');
      }
      KeptParamsUntracked(query);
      var kept := Filter(KeepParam, parts);
      SplitPartsFree(query, '&');
      forall k | 0 <= k < |kept|
        ensures KeepParam(kept[k]) && '&' !in kept[k]
      {
        FilterMembership(KeepParam, parts, kept[k]);
      }
      KeptSplit(kept);
    }
  }

  /** Splitting the `&`-join of parameters kept from a split gives them back, or `[""]` for none. */
  lemma {:induction false} KeptSplit(ps: seq<string>)
    requires forall k :: 0 <= k < |ps| ==> KeepParam(ps[k]) && '&' !in ps[k]
    ensures forall k :: 0 <= k < |Split(Join(ps, "&"), '&')| ==> KeepParam(Split(Join(ps, "&"), '&')[k])
  {
    if |ps| == 0 {
      assert Split("", '&') == [""];
    } else {
      SplitJoin(ps, '&');
    }
  }

  /** Cleaning a cleaned query changes nothing. */
  lemma {:induction false} CleanQueryIdempotent(query: string)
    ensures CleanQuery(CleanQuery(query)) == CleanQuery(query)
  {
    var r := CleanQuery(query);
    CleanQuerySpec(query);
    CleanQuerySpec(r);
    var parts := Split(r, '&');
    FilterAll(KeepParam, parts);
    JoinSplit(r, '&');
  }

  /**
   * Normalising a normalised URL gives it back, for a parser that reads the scheme, host,
   * path and query of a URL it was given in `scheme://netloc/path?query` form.
   */
  lemma {:induction false} NormalizeIdempotent(parse: string -> ParsedUrl, url: string)
    requires var u, n := parse(url), parse(NormalizeUrl(parse, url));
      n.scheme == u.scheme && n.netloc == u.netloc && n.path == u.path && n.query == CleanQuery(u.query)
    ensures NormalizeUrl(parse, NormalizeUrl(parse, url)) == NormalizeUrl(parse, url)
  {
    CleanQueryIdempotent(parse(url).query);
  }

  // ---------------------------------------------------------------- is_internal, should_skip

  /** A link stays on the site: no host, or the site's own. */
  predicate IsInternal(parse: string -> ParsedUrl, url: string) {
    parse(url).netloc in {"", Domain}
  }

  /**
   * Internal means exactly: the parsed host is empty (a relative link) or is the site's own
   * domain; any other host is external, the bare `hanak-nabytek.cz` without `www.` included.
   */
  lemma IsInternalSpec(parse: string -> ParsedUrl, url: string)
    ensures IsInternal(parse, url) <==> parse(url).netloc == "" || parse(url).netloc == Domain
    ensures parse(url).netloc == "hanak-nabytek.cz" ==> !IsInternal(parse, url)
  {
  }

  predicate ShouldSkip(url: string) {
    ContainsAny(url, SkipPatterns)
  }

  /** A URL is skipped exactly when one of the AJAX patterns occurs in it. */
  lemma {:induction false} ShouldSkipSpec(url: string)
    ensures ShouldSkip(url) <==> exists i :: 0 <= i < |SkipPatterns| && Contains(url, SkipPatterns[i])
  {
    ContainsAnySpec(url, SkipPatterns);
  }

  // ---------------------------------------------------------------- extensions

  /** The dots-only test `splitext` applies to what precedes the last dot. */
  predicate AllDots(s: string) {
    forall i :: 0 <= i < |s| ==> s[i] == '.'
  }

  /** `os.path.splitext(path)[1].lower()`, lower-casing ASCII letters. */
  function Ext(path: string): (e: string)
    ensures e == "" || e[0] == '.'
  {
    var b := Basename(path);
    match LastIndexOf(b, '.')
    case None => ""
    case Some(i) => if AllDots(b[..i]) then "" else Lower(b[i..])
  }

  /** What the crawl does with a URL, by extension. */
  datatype Kind = Video | Image | Pdf | Page

  /** `e` is one of `es`. */
  predicate Among(e: string, es: seq<string>) {
    |es| > 0 && (e == es[0] || Among(e, es[1..]))
  }

  function KindOf(ext: string): Kind {
    if Among(ext, VideoExts) then Video
    else if Among(ext, ImageExts) then Image
    else if ext == ".pdf" then Pdf
    else Page
  }

  // ---------------------------------------------------------------- the crawl

  /**
   * A page request: an exception, or a response with its status, its content type and,
   * for an HTML page, the internal links, images and assets its markup refers to.
   */
  datatype Response =
    | Raised
    | Answer(status: int, contentType: string, links: seq<string>, images: set<string>, assets: set<string>)

  /** A file request: an exception, or a status and the `content-length` header. */
  datatype Download = DownloadRaised | Got(status: int, contentLength: Option<nat>)

  datatype FileKind = PdfFile | ImgFile

  datatype Stats = Stats(htmlNew: nat, htmlExist: nat, imgNew: nat, imgExist: nat, pdfNew: nat, pdfExist: nat, errors: nat)

  /** How a file download ends. */
  datatype Outcome = Existing | Saved | Refused | Failed

  predicate IsHtmlType(ct: string) {
    Contains(ct, "text/html") || Contains(ct, "xhtml")
  }

  /**
   * The URL functions the crawl applies: the normal form kept in `visited` and `queued`,
   * the skip test, the kind by extension, and the file a URL is stored in.
   */
  datatype Policy = Policy(norm: string -> string, skip: string -> bool, kind: string -> Kind, store: string -> string)

  /** The crawler's own URL functions: `normalize_url`, `should_skip`, the extension test and `url_to_path`. */
  function SitePolicy(parse: string -> ParsedUrl, unquote: string -> string): Policy {
    Policy(
      u => NormalizeUrl(parse, u),
      u => ShouldSkip(u),
      u => KindOf(Ext(parse(u).path)),
      u => UrlToPath(parse, unquote, u))
  }

  /** The site is finite: every link of every page normalises into `universe`. */
  ghost predicate LinksWithin(pol: Policy, fetch: string -> Response, universe: set<string>) {
    forall u, l :: fetch(u).Answer? && l in fetch(u).links ==> pol.norm(l) in universe
  }

  /** An answer with status 200 and an HTML content type. */
  predicate HtmlAnswer(fetch: string -> Response, url: string) {
    fetch(url).Answer? && fetch(url).status == 200 && IsHtmlType(fetch(url).contentType)
  }

  /** A page URL answered 200 with a non-HTML type that mentions "pdf": a PDF served without its extension. */
  predicate PdfAnswer(pol: Policy, fetch: string -> Response, url: string) {
    && pol.kind(url) == Page
    && fetch(url).Answer? && fetch(url).status == 200
    && !IsHtmlType(fetch(url).contentType) && Contains(fetch(url).contentType, "pdf")
  }

  /** `url` is an HTML page the crawl saves: not skipped, no file extension it collects or drops, and answered 200 with an HTML type. */
  predicate Crawled(pol: Policy, fetch: string -> Response, url: string) {
    !pol.skip(url) && pol.kind(url) == Page && HtmlAnswer(fetch, url)
  }

  /**
   * Where a collected PDF URL comes from: a visited URL with the PDF extension, or one
   * answered 200 with a non-HTML type mentioning "pdf", or the assets of a saved page.
   */
  ghost predicate PdfOrigin(pol: Policy, fetch: string -> Response, html: seq<string>, url: string) {
    || (!pol.skip(url) && pol.kind(url) == Pdf)
    || (!pol.skip(url) && PdfAnswer(pol, fetch, url))
    || exists h :: h in html && fetch(h).Answer? && url in fetch(h).assets
  }

  /** Where a collected image URL comes from: a visited URL with an image extension, or the images of a saved page. */
  ghost predicate ImageOrigin(pol: Policy, fetch: string -> Response, html: seq<string>, url: string) {
    || (!pol.skip(url) && pol.kind(url) == Image)
    || exists h :: h in html && fetch(h).Answer? && url in fetch(h).images
  }

  /** The outcome of `download_file`: files already on disk are not requested again. */
  function DownloadOutcome(onDisk: bool, d: Download): Outcome {
    if onDisk then Existing
    else match d
      case DownloadRaised => Failed
      case Got(status, length) =>
        if status != 200 || (length.Some? && length.value > MaxDownloadBytes) then Refused else Saved
  }

  /** The statistics after one download. */
  function Tally(s: Stats, kind: FileKind, o: Outcome): Stats {
    match o
    case Existing => if kind == PdfFile then s.(pdfExist := s.pdfExist + 1) else s.(imgExist := s.imgExist + 1)
    case Saved => if kind == PdfFile then s.(pdfNew := s.pdfNew + 1) else s.(imgNew := s.imgNew + 1)
    case Refused => s
    case Failed => s.(errors := s.errors + 1)
  }

  /** The statistics after saving a page, counted as existing when its file was already on disk. */
  function PageTally(s: Stats, onDisk: bool): Stats {
    if onDisk then s.(htmlExist := s.htmlExist + 1) else s.(htmlNew := s.htmlNew + 1)
  }

  /** The statistics and the files on disk after one `download_file` call. */
  function DownloadStep(pol: Policy, download: string -> Download, kind: FileKind, acc: (Stats, set<string>), u: string)
    : (Stats, set<string>)
  {
    var o := DownloadOutcome(pol.store(u) in acc.1, download(u));
    (Tally(acc.0, kind, o), acc.1 + if o == Saved then {pol.store(u)} else {})
  }

  /** A download phase: one `download_file` call per URL of `order`, in that order. */
  function Downloads(pol: Policy, download: string -> Download, kind: FileKind, acc: (Stats, set<string>), order: seq<string>)
    : (Stats, set<string>)
    decreases |order|
  {
    if |order| == 0 then acc
    else DownloadStep(pol, download, kind, Downloads(pol, download, kind, acc, order[..|order| - 1]), order[|order| - 1])
  }

  /** A download phase removes no file, and every file it adds is the stored path of one of its URLs. */
  lemma {:induction false} DownloadsDisk(pol: Policy, download: string -> Download, kind: FileKind, acc: (Stats, set<string>), order: seq<string>)
    ensures var d := Downloads(pol, download, kind, acc, order).1;
      && acc.1 <= d
      && forall p :: p in d && p !in acc.1 ==> exists u :: u in order && pol.store(u) == p
    decreases |order|
  {
    if |order| > 0 {
      var init := order[..|order| - 1];
      DownloadsDisk(pol, download, kind, acc, init);
      var d := Downloads(pol, download, kind, acc, order).1;
      forall p | p in d && p !in acc.1
        ensures exists u :: u in order && pol.store(u) == p
      {
        if p in Downloads(pol, download, kind, acc, init).1 {
          var u :| u in init && pol.store(u) == p;
          assert u in order;
        } else {
          assert order[|order| - 1] in order;
        }
      }
    }
  }

  /**
   * A download phase counts one new file of its kind per file it adds to the disk, and
   * changes neither the page counts nor the other kind's counts.
   */
  lemma {:induction false} DownloadsCounts(pol: Policy, download: string -> Download, kind: FileKind, acc: (Stats, set<string>), order: seq<string>)
    ensures var (s, d) := Downloads(pol, download, kind, acc, order);
      && s.htmlNew == acc.0.htmlNew && s.htmlExist == acc.0.htmlExist
      && (kind == PdfFile ==> s.pdfNew == acc.0.pdfNew + |d - acc.1| && s.imgNew == acc.0.imgNew && s.imgExist == acc.0.imgExist)
      && (kind == ImgFile ==> s.imgNew == acc.0.imgNew + |d - acc.1| && s.pdfNew == acc.0.pdfNew && s.pdfExist == acc.0.pdfExist)
    decreases |order|
  {
    if |order| > 0 {
      var init := order[..|order| - 1];
      DownloadsCounts(pol, download, kind, acc, init);
      DownloadsDisk(pol, download, kind, acc, init);
      var prev := Downloads(pol, download, kind, acc, init);
      var u := order[|order| - 1];
      DownloadStepCounts(pol, download, kind, prev, u);
      if DownloadOutcome(pol.store(u) in prev.1, download(u)) == Saved {
        GrowByOne(acc.1, prev.1, pol.store(u));
      }
    }
  }

  /** One download counts a new file of its kind exactly when it adds the file to the disk. */
  lemma DownloadStepCounts(pol: Policy, download: string -> Download, kind: FileKind, acc: (Stats, set<string>), u: string)
    ensures var (s, d) := DownloadStep(pol, download, kind, acc, u);
      var added := if DownloadOutcome(pol.store(u) in acc.1, download(u)) == Saved then 1 else 0;
      && s.htmlNew == acc.0.htmlNew && s.htmlExist == acc.0.htmlExist
      && (kind == PdfFile ==> s.pdfNew == acc.0.pdfNew + added && s.imgNew == acc.0.imgNew && s.imgExist == acc.0.imgExist)
      && (kind == ImgFile ==> s.imgNew == acc.0.imgNew + added && s.pdfNew == acc.0.pdfNew && s.pdfExist == acc.0.pdfExist)
      && (added == 1 ==> pol.store(u) !in acc.1 && d == acc.1 + {pol.store(u)})
      && (added == 0 ==> d == acc.1)
  {
  }

  /** Adding a new element to a superset of `a` adds one to what lies outside `a`. */
  lemma {:induction false} GrowByOne(a: set<string>, d: set<string>, p: string)
    requires a <= d && p !in d
    ensures |(d + {p}) - a| == |d - a| + 1
  {
    assert (d + {p}) - a == (d - a) + {p};
  }

  /** After a download phase each of its URLs has its file on disk, unless downloading it does not succeed. */
  lemma {:induction false} DownloadsStore(pol: Policy, download: string -> Download, kind: FileKind, acc: (Stats, set<string>), order: seq<string>)
    ensures forall u :: u in order ==>
      pol.store(u) in Downloads(pol, download, kind, acc, order).1 || DownloadOutcome(false, download(u)) != Saved
    decreases |order|
  {
    if |order| > 0 {
      var init := order[..|order| - 1];
      DownloadsStore(pol, download, kind, acc, init);
      assert order == init + [order[|order| - 1]];
    }
  }

  /**
   * The two download phases, PDFs then images, remove no file, change no page count, and
   * leave each of their URLs with its file on disk unless downloading it does not succeed.
   */
  lemma {:induction false} PhasesDone(pol: Policy, download: string -> Download, before: (Stats, set<string>), pdfOrder: seq<string>, imgOrder: seq<string>)
    ensures var after := Downloads(pol, download, ImgFile, Downloads(pol, download, PdfFile, before, pdfOrder), imgOrder);
      && before.1 <= after.1
      && after.0.htmlNew == before.0.htmlNew && after.0.htmlExist == before.0.htmlExist
      && forall u :: u in pdfOrder || u in imgOrder ==> pol.store(u) in after.1 || DownloadOutcome(false, download(u)) != Saved
  {
    var middle := Downloads(pol, download, PdfFile, before, pdfOrder);
    DownloadsDisk(pol, download, PdfFile, before, pdfOrder);
    DownloadsCounts(pol, download, PdfFile, before, pdfOrder);
    DownloadsStore(pol, download, PdfFile, before, pdfOrder);
    DownloadsDisk(pol, download, ImgFile, middle, imgOrder);
    DownloadsCounts(pol, download, ImgFile, middle, imgOrder);
    DownloadsStore(pol, download, ImgFile, middle, imgOrder);
  }

  /** Moving a pending URL to the end of the order keeps the order duplicate-free and made of the done URLs. */
  lemma {:induction false} TakePending(urls: set<string>, pending: set<string>, order: seq<string>, u: string)
    requires pending <= urls && u in pending && NoDuplicates(order)
    requires forall x :: x in order <==> x in urls && x !in pending
    ensures NoDuplicates(order + [u])
    ensures forall x :: x in order + [u] <==> x in urls && x !in pending - {u}
  {
  }

  /** The saved-manifest summary: counts and the sorted, duplicate-free URL lists. */
  datatype Manifest = Manifest(
    domain: string,
    htmlTotal: nat, htmlNew: nat, imagesTotal: nat, imagesNew: nat, pdfsTotal: nat, pdfsNew: nat, errors: nat,
    htmlUrls: seq<string>, imageUrls: seq<string>, pdfUrls: seq<string>)

  /** The URLs a list holds. */
  ghost function Listed(s: seq<string>): set<string> {
    set u | u in s
  }

  // ---------------------------------------------------------------- one turn of the crawl loop

  /**
   * The crawl's state between two turns of its loop: the visited and queued sets, the URLs
   * marked visited as they were taken from the queue (`seen`), the saved pages and the depth
   * each was reached at, the statistics, the files on disk, the queue, and the collected
   * image and PDF URLs.
   */
  datatype Walk = Walk(
    visited: set<string>, seen: set<string>, queued: set<string>,
    html: seq<string>, depths: seq<nat>, stats: Stats, disk: set<string>,
    queue: seq<(string, nat)>, imgQueue: set<string>, pdfQueue: set<string>)

  /** Saving a fetched page: its file is written, and the page is listed and counted new or existing. */
  function SaveStep(pol: Policy, w: Walk, url: string, depth: nat): Walk {
    w.(html := w.html + [url], depths := w.depths + [depth], disk := w.disk + {pol.store(url)},
       stats := PageTally(w.stats, pol.store(url) in w.disk))
  }

  /**
   * An HTML answer: the page is saved and, below depth 20, its links are queued one level
   * deeper and its images and assets collected.
   */
  function FollowStep(pol: Policy, fetch: string -> Response, w: Walk, url: string, depth: nat): Walk
    requires fetch(url).Answer?
  {
    var s := SaveStep(pol, w, url, depth);
    if depth < MaxDepth then
      var r := Admitted(pol, fetch(url).links, depth + 1, s.queued, s.visited);
      s.(queue := s.queue + r.0, queued := r.1,
         imgQueue := s.imgQueue + fetch(url).images, pdfQueue := s.pdfQueue + fetch(url).assets)
    else s
  }

  /**
   * The request for a page URL: an exception or a status other than 200 counts an error, an
   * HTML answer is followed, and another answer whose type mentions "pdf" is collected as a PDF.
   */
  function FetchStep(pol: Policy, fetch: string -> Response, w: Walk, url: string, depth: nat): Walk {
    match fetch(url)
    case Raised => w.(stats := w.stats.(errors := w.stats.errors + 1))
    case Answer(status, contentType, _, _, _) =>
      if status != 200 then w.(stats := w.stats.(errors := w.stats.errors + 1))
      else if IsHtmlType(contentType) then FollowStep(pol, fetch, w, url, depth)
      else if Contains(contentType, "pdf") then w.(pdfQueue := w.pdfQueue + {url})
      else w
  }

  /**
   * Visiting a URL taken from the queue: a URL whose normal form is visited, or that is
   * skipped, changes nothing; otherwise its normal form is marked visited and, by its kind,
   * it is dropped (video), collected (image, PDF) or requested.
   */
  function VisitStep(pol: Policy, fetch: string -> Response, w: Walk, url: string, depth: nat): Walk {
    if pol.norm(url) in w.visited || pol.skip(url) then w
    else
      var v := w.(visited := w.visited + {pol.norm(url)}, seen := w.seen + {url});
      match pol.kind(url)
      case Video => v
      case Image => v.(imgQueue := v.imgQueue + {url})
      case Pdf => v.(pdfQueue := v.pdfQueue + {url})
      case Page => FetchStep(pol, fetch, v, url, depth)
  }

  /** One turn of the crawl loop: the front entry leaves the queue and is visited. */
  function Turn(pol: Policy, fetch: string -> Response, w: Walk): Walk
    requires |w.queue| > 0
  {
    VisitStep(pol, fetch, w.(queue := w.queue[1..]), w.queue[0].0, w.queue[0].1)
  }

  /**
   * The crawler's module-level state: the `visited` and `queued` sets of normalised URLs,
   * the manifest lists, the statistics, and the site paths that exist on disk. `depths`
   * records the depth at which each saved page was reached, and `seen` the URLs marked
   * visited, as they were taken from the queue.
   */
  class Crawler {
    const policy: Policy
    var visited: set<string>
    var queued: set<string>
    var html: seq<string>
    var images: seq<string>
    var pdfs: seq<string>
    var stats: Stats
    var disk: set<string>
    ghost var depths: seq<nat>
    ghost var seen: set<string>

    constructor (policy: Policy, onDisk: set<string>)
      ensures Fresh() && this.policy == policy && disk == onDisk
    {
      this.policy := policy;
      visited, queued := {}, {};
      html, images, pdfs := [], [], [];
      stats := Stats(0, 0, 0, 0, 0, 0, 0);
      disk := onDisk;
      depths, seen := [], {};
    }

    ghost predicate Fresh()
      reads this
    {
      visited == {} && queued == {} && html == [] && images == [] && pdfs == []
      && stats == Stats(0, 0, 0, 0, 0, 0, 0) && depths == [] && seen == {}
    }

    /** What the crawl keeps true of this crawler's state (see `CrawlValid`). */
    ghost predicate Valid(fetch: string -> Response)
      reads this
    {
      CrawlValid(policy, fetch, visited, queued, html, depths, stats)
    }

    /** This crawler's fields with the crawl loop's queue and collected sets. */
    ghost function State(queue: seq<(string, nat)>, imgQueue: set<string>, pdfQueue: set<string>): Walk
      reads this
    {
      Walk(visited, seen, queued, html, depths, stats, disk, queue, imgQueue, pdfQueue)
    }

    /** The link loop of one page: the entries and `queued` set that `Admitted` describes. */
    method Enqueue(links: seq<string>, depth: nat, queue: seq<(string, nat)>)
      returns (queue': seq<(string, nat)>)
      modifies this`queued
      ensures queue' == queue + Admitted(policy, links, depth, old(queued), visited).0
      ensures queued == Admitted(policy, links, depth, old(queued), visited).1
    {
      queue' := queue;
      for i := 0 to |links|
        invariant queue' == queue + Admitted(policy, links[..i], depth, old(queued), visited).0
        invariant queued == Admitted(policy, links[..i], depth, old(queued), visited).1
      {
        assert links[..i + 1][..i] == links[..i];
        var link := links[i];
        var ln := policy.norm(link);
        if ln !in queued && ln !in visited && !policy.skip(link) {
          queue' := queue' + [(link, depth)];
          queued := queued + {ln};
        }
      }
      assert links[..|links|] == links;
    }

    /** `download_file`: a file already on disk only counts as existing. */
    method DownloadFile(download: string -> Download, url: string, kind: FileKind)
      returns (isNew: bool)
      modifies this`stats, this`disk
      ensures var o := DownloadOutcome(policy.store(url) in old(disk), download(url));
        && isNew == (o == Saved)
        && stats == Tally(old(stats), kind, o)
        && disk == old(disk) + (if o == Saved then {policy.store(url)} else {})
    {
      var path := policy.store(url);
      if path in disk {
        stats := if kind == PdfFile then stats.(pdfExist := stats.pdfExist + 1) else stats.(imgExist := stats.imgExist + 1);
        return false;
      }
      match download(url)
      case DownloadRaised =>
        stats := stats.(errors := stats.errors + 1);
        return false;
      case Got(status, length) =>
        if status != 200 {
          return false;
        }
        if length.Some? && length.value > MaxDownloadBytes {
          return false;
        }
        disk := disk + {path};
        stats := if kind == PdfFile then stats.(pdfNew := stats.pdfNew + 1) else stats.(imgNew := stats.imgNew + 1);
        return true;
    }

    /**
     * A download phase: each collected URL is downloaded once, in some order; that order is
     * what the phase appends to its manifest list, and the statistics and the disk are those
     * of `download_file` applied along it.
     */
    method DownloadPhase(download: string -> Download, urls: set<string>, kind: FileKind)
      returns (order: seq<string>)
      modifies this`stats, this`disk
      ensures NoDuplicates(order) && forall u :: u in order <==> u in urls
      ensures (stats, disk) == Downloads(policy, download, kind, (old(stats), old(disk)), order)
    {
      order := [];
      var pending := urls;
      while pending != {}
        invariant pending <= urls
        invariant forall u :: u in order <==> u in urls && u !in pending
        invariant NoDuplicates(order)
        invariant (stats, disk) == Downloads(policy, download, kind, (old(stats), old(disk)), order)
        decreases |pending|
      {
        var u :| u in pending;
        var _ := DownloadFile(download, u, kind);
        TakePending(urls, pending, order, u);
        assert (order + [u])[..|order|] == order;
        order := order + [u];
        pending := pending - {u};
      }
    }

    /**
     * One turn of the crawl loop, for the URL taken from the front of the queue: the new
     * state is `VisitStep` of the old, and a page is saved exactly when it is crawled and its
     * normal form was not visited before.
     */
    method Visit(fetch: string -> Response, url: string, depth: nat,
                 queue: seq<(string, nat)>, imgQueue: set<string>, pdfQueue: set<string>)
      returns (queue': seq<(string, nat)>, imgQueue': set<string>, pdfQueue': set<string>, saved: bool)
      modifies this`visited, this`seen, this`queued, this`disk, this`stats, this`html, this`depths
      ensures State(queue', imgQueue', pdfQueue') == VisitStep(policy, fetch, old(State(queue, imgQueue, pdfQueue)), url, depth)
      ensures saved <==> Crawled(policy, fetch, url) && policy.norm(url) !in old(visited)
      ensures html == old(html) + (if saved then [url] else [])
    {
      queue', imgQueue', pdfQueue', saved := queue, imgQueue, pdfQueue, false;
      var norm := policy.norm(url);
      if norm in visited || policy.skip(url) {
        return;
      }
      visited := visited + {norm};
      seen := seen + {url};
      var kind := policy.kind(url);
      if kind == Image {
        imgQueue' := imgQueue + {url};
      } else if kind == Pdf {
        pdfQueue' := pdfQueue + {url};
      } else if kind == Page {
        queue', imgQueue', pdfQueue', saved := Fetch(fetch, url, depth, queue, imgQueue, pdfQueue);
      }
    }

    /**
     * The request part of a crawl turn: the new state is `FetchStep` of the old, and the page
     * is saved exactly when it is answered 200 with an HTML type.
     */
    method Fetch(fetch: string -> Response, url: string, depth: nat,
                 queue: seq<(string, nat)>, imgQueue: set<string>, pdfQueue: set<string>)
      returns (queue': seq<(string, nat)>, imgQueue': set<string>, pdfQueue': set<string>, saved: bool)
      modifies this`queued, this`disk, this`stats, this`html, this`depths
      ensures State(queue', imgQueue', pdfQueue') == FetchStep(policy, fetch, old(State(queue, imgQueue, pdfQueue)), url, depth)
      ensures saved == HtmlAnswer(fetch, url)
      ensures html == old(html) + (if saved then [url] else [])
    {
      queue', imgQueue', pdfQueue', saved := queue, imgQueue, pdfQueue, false;
      match fetch(url)
      case Raised =>
        stats := stats.(errors := stats.errors + 1);
      case Answer(status, contentType, _, _, _) =>
        if status != 200 {
          stats := stats.(errors := stats.errors + 1);
        } else if IsHtmlType(contentType) {
          queue', imgQueue', pdfQueue' := Follow(fetch, url, depth, queue, imgQueue, pdfQueue);
          saved := true;
        } else if Contains(contentType, "pdf") {
          pdfQueue' := pdfQueue + {url};
        }
    }

    /**
     * An HTML answer: the new state is `FollowStep` of the old; the page is saved and, below
     * depth 20, its links are queued and its images and assets collected.
     */
    method Follow(fetch: string -> Response, url: string, depth: nat,
                  queue: seq<(string, nat)>, imgQueue: set<string>, pdfQueue: set<string>)
      returns (queue': seq<(string, nat)>, imgQueue': set<string>, pdfQueue': set<string>)
      requires fetch(url).Answer?
      modifies this`queued, this`disk, this`stats, this`html, this`depths
      ensures State(queue', imgQueue', pdfQueue') == FollowStep(policy, fetch, old(State(queue, imgQueue, pdfQueue)), url, depth)
      ensures html == old(html) + [url]
    {
      SavePage(url, depth);
      queue', imgQueue', pdfQueue' := queue, imgQueue, pdfQueue;
      if depth < MaxDepth {
        var response := fetch(url);
        queue' := Enqueue(response.links, depth + 1, queue);
        imgQueue' := imgQueue + response.images;
        pdfQueue' := pdfQueue + response.assets;
      }
    }

    /** Saving a fetched HTML page: the file is written and the page listed in the manifest. */
    method SavePage(url: string, depth: nat)
      modifies this`disk, this`stats, this`html, this`depths
      ensures html == old(html) + [url] && depths == old(depths) + [depth]
      ensures disk == old(disk) + {policy.store(url)} && stats == PageTally(old(stats), policy.store(url) in old(disk))
    {
      var path := policy.store(url);
      var isNew := path !in disk;
      disk := disk + {path};
      if isNew {
        stats := stats.(htmlNew := stats.htmlNew + 1);
      } else {
        stats := stats.(htmlExist := stats.htmlExist + 1);
      }
      html := html + [url];
      depths := depths + [depth];
    }

    /**
     * The queue loop of `crawl`: one `Visit` per queue entry until the queue is empty.
     * Returns the number of pages saved and the collected image and PDF URLs.
     */
    method Explore(fetch: string -> Response, ghost universe: set<string>)
      returns (pageCount: nat, imgQueue: set<string>, pdfQueue: set<string>)
      requires Fresh()
      requires policy.norm(BaseUrl) in universe && LinksWithin(policy, fetch, universe)
      modifies this`visited, this`seen, this`queued, this`disk, this`stats, this`html, this`depths
      ensures CrawlValid(policy, fetch, visited, queued, html, depths, stats) && pageCount == |html|
      ensures Origins(policy, fetch, html, imgQueue, pdfQueue)
      ensures Complete(policy, fetch, seen, visited, queued, html, depths, [], imgQueue, pdfQueue)
      ensures old(disk) <= disk
    {
      var queue: seq<(string, nat)> := [(BaseUrl, 0)];
      queued := queued + {policy.norm(BaseUrl)};
      pageCount := 0;
      imgQueue, pdfQueue := {}, {};
      if !policy.skip(BaseUrl) {
        assert queue[0].0 == BaseUrl;
      }
      while |queue| > 0
        invariant Reached(policy, fetch, universe, State(queue, imgQueue, pdfQueue))
        invariant pageCount == |html| && old(disk) <= disk
        decreases |universe - queued|, |queue|
      {
        ghost var w := State(queue, imgQueue, pdfQueue);
        var (url, depth) := queue[0];
        var saved;
        queue, imgQueue, pdfQueue, saved := Visit(fetch, url, depth, queue[1..], imgQueue, pdfQueue);
        TurnReaches(policy, fetch, universe, w);
        if saved {
          pageCount := pageCount + 1;
        }
        SmallerRemainder(universe, w.queued, queued);
      }
    }

    /**
     * `crawl`: breadth-first from the base URL, then the PDF and image download phases.
     * Returns the number of pages saved.
     */
    method Crawl(fetch: string -> Response, download: string -> Download, ghost universe: set<string>)
      returns (pageCount: nat)
      requires Fresh()
      requires policy.norm(BaseUrl) in universe && LinksWithin(policy, fetch, universe)
      modifies this
      ensures Valid(fetch) && pageCount == |html|
      ensures NoDuplicates(pdfs) && forall u :: u in pdfs ==> PdfOrigin(policy, fetch, html, u)
      ensures NoDuplicates(images) && forall u :: u in images ==> ImageOrigin(policy, fetch, html, u)
      ensures Complete(policy, fetch, seen, visited, queued, html, depths, [], Listed(images), Listed(pdfs))
      ensures forall n :: n in queued ==> n in visited || (policy.skip(BaseUrl) && n == policy.norm(BaseUrl))
      ensures forall u :: u in pdfs || u in images ==> policy.store(u) in disk || DownloadOutcome(false, download(u)) != Saved
      ensures old(disk) <= disk
    {
      var imgQueue, pdfQueue;
      pageCount, imgQueue, pdfQueue := Explore(fetch, universe);
      ghost var before := (stats, disk);
      pdfs := DownloadPhase(download, pdfQueue, PdfFile);
      images := DownloadPhase(download, imgQueue, ImgFile);
      PhasesDone(policy, download, before, pdfs, images);
      CrawlValidStats(policy, fetch, visited, queued, html, depths, before.0, stats);
      assert Listed(images) == imgQueue;
      assert Listed(pdfs) == pdfQueue;
    }

    /** `save_manifest`: the counts, and each URL list sorted with duplicates removed. */
    method SaveManifest() returns (m: Manifest)
      ensures m.domain == Domain
      ensures m.htmlTotal == |html| && m.imagesTotal == |images| && m.pdfsTotal == |pdfs|
      ensures m.htmlNew == stats.htmlNew && m.imagesNew == stats.imgNew && m.pdfsNew == stats.pdfNew && m.errors == stats.errors
      ensures StrictlySorted(m.htmlUrls) && forall u :: u in m.htmlUrls <==> u in html
      ensures StrictlySorted(m.imageUrls) && forall u :: u in m.imageUrls <==> u in images
      ensures StrictlySorted(m.pdfUrls) && forall u :: u in m.pdfUrls <==> u in pdfs
    {
      var h := SortedSet(html);
      var i := SortedSet(images);
      var p := SortedSet(pdfs);
      m := Manifest(Domain, |html|, stats.htmlNew, |images|, stats.imgNew, |pdfs|, stats.pdfNew, stats.errors, h, i, p);
    }
  }

  /**
   * `main`: crawl the site with the crawler's own URL functions from the files already on
   * disk, then save the manifest. Every listed page was crawled and no two listed pages
   * share a normalised URL; every listed PDF and image has an origin among the listed pages.
   */
  method CrawlSite(parse: string -> ParsedUrl, unquote: string -> string, fetch: string -> Response,
                   download: string -> Download, onDisk: set<string>, ghost universe: set<string>)
    returns (m: Manifest)
    requires NormalizeUrl(parse, BaseUrl) in universe
    requires LinksWithin(SitePolicy(parse, unquote), fetch, universe)
    ensures StrictlySorted(m.htmlUrls) && StrictlySorted(m.imageUrls) && StrictlySorted(m.pdfUrls)
    ensures forall u :: u in m.htmlUrls ==> Crawled(SitePolicy(parse, unquote), fetch, u)
    ensures forall i, j :: 0 <= i < j < |m.htmlUrls| ==> NormalizeUrl(parse, m.htmlUrls[i]) != NormalizeUrl(parse, m.htmlUrls[j])
    ensures forall u :: u in m.pdfUrls ==> PdfOrigin(SitePolicy(parse, unquote), fetch, m.htmlUrls, u)
    ensures forall u :: u in m.imageUrls ==> ImageOrigin(SitePolicy(parse, unquote), fetch, m.htmlUrls, u)
  {
    var c := new Crawler(SitePolicy(parse, unquote), onDisk);
    var _ := c.Crawl(fetch, download, universe);
    m := c.SaveManifest();
    ListedPages(SitePolicy(parse, unquote), fetch, c.visited, c.html, c.depths, m.htmlUrls);
    forall i, j | 0 <= i < j < |m.htmlUrls|
      ensures NormalizeUrl(parse, m.htmlUrls[i]) != NormalizeUrl(parse, m.htmlUrls[j])
    {
      assert SitePolicy(parse, unquote).norm(m.htmlUrls[i]) != SitePolicy(parse, unquote).norm(m.htmlUrls[j]);
    }
    OriginsListed(SitePolicy(parse, unquote), fetch, c.html, m.htmlUrls);
  }

  /** A duplicate-free listing of the saved pages keeps their properties: crawled, distinct normalised forms. */
  lemma {:induction false} ListedPages(pol: Policy, fetch: string -> Response, visited: set<string>, html: seq<string>, depths: seq<nat>, listed: seq<string>)
    requires PagesValid(pol, fetch, visited, html, depths)
    requires StrictlySorted(listed) && forall u :: u in listed <==> u in html
    ensures forall u :: u in listed ==> Crawled(pol, fetch, u)
    ensures forall i, j :: 0 <= i < j < |listed| ==> pol.norm(listed[i]) != pol.norm(listed[j])
  {
    AllCrawledSpec(pol, fetch, html);
    forall i, j | 0 <= i < j < |listed|
      ensures pol.norm(listed[i]) != pol.norm(listed[j])
    {
      SortedNoDuplicates(listed);
      assert listed[i] in html && listed[j] in html;
      var a :| 0 <= a < |html| && html[a] == listed[i];
      var b :| 0 <= b < |html| && html[b] == listed[j];
      if a > b {
        assert pol.norm(html[b]) != pol.norm(html[a]);
      }
    }
  }

  // ---------------------------------------------------------------- crawl invariants

  /**
   * What the crawl keeps true: every visited URL was queued, the saved pages are valid
   * against the visited set, and each saved page counts as new or existing.
   */
  ghost predicate CrawlValid(pol: Policy, fetch: string -> Response, visited: set<string>, queued: set<string>,
                             html: seq<string>, depths: seq<nat>, stats: Stats) {
    && visited <= queued
    && PagesValid(pol, fetch, visited, html, depths)
    && stats.htmlNew + stats.htmlExist == |html|
  }

  /** The crawl state does not depend on the file counts. */
  lemma CrawlValidStats(pol: Policy, fetch: string -> Response, visited: set<string>, queued: set<string>,
                        html: seq<string>, depths: seq<nat>, stats: Stats, stats': Stats)
    requires CrawlValid(pol, fetch, visited, queued, html, depths, stats)
    requires stats'.htmlNew == stats.htmlNew && stats'.htmlExist == stats.htmlExist
    ensures CrawlValid(pol, fetch, visited, queued, html, depths, stats')
  {
  }

  lemma CrawlValidGrow(pol: Policy, fetch: string -> Response, visited: set<string>, queued: set<string>, queued': set<string>,
                        html: seq<string>, depths: seq<nat>, stats: Stats)
    requires CrawlValid(pol, fetch, visited, queued, html, depths, stats) && queued <= queued'
    ensures CrawlValid(pol, fetch, visited, queued', html, depths, stats)
  {
  }

  /**
   * The loop state of `crawl`: the state is valid, everything queued lies in the site,
   * the queue entries are queued and at most 20 deep, and the collected files have an origin.
   */
  ghost predicate CrawlState(pol: Policy, fetch: string -> Response, universe: set<string>, w: Walk) {
    && CrawlValid(pol, fetch, w.visited, w.queued, w.html, w.depths, w.stats) && w.queued <= universe
    && QueueWithin(pol, w.queue, w.queued)
    && Origins(pol, fetch, w.html, w.imgQueue, w.pdfQueue)
  }

  /**
   * The link loop of one page from the set `queued`: each link, in order, is appended at
   * `depth` and its normalised form added to the set, unless that form is already in the
   * set or visited, or the link is skipped. Gives the appended entries and the new set.
   */
  function Admitted(pol: Policy, links: seq<string>, depth: nat, queued: set<string>, visited: set<string>)
    : (r: (seq<(string, nat)>, set<string>))
    decreases |links|
  {
    if |links| == 0 then ([], queued)
    else
      var (q, s) := Admitted(pol, links[..|links| - 1], depth, queued, visited);
      var link := links[|links| - 1];
      var ln := pol.norm(link);
      if ln !in s && ln !in visited && !pol.skip(link) then (q + [(link, depth)], s + {ln}) else (q, s)
  }

  /** An entry the link loop appends. */
  ghost predicate AdmittedEntry(pol: Policy, links: seq<string>, depth: nat, queued: set<string>, visited: set<string>,
                                s: set<string>, e: (string, nat)) {
    && e.1 == depth && e.0 in links && !pol.skip(e.0)
    && pol.norm(e.0) in s && pol.norm(e.0) !in queued && pol.norm(e.0) !in visited
  }

  /**
   * The link loop queues each new normalised URL once: the set only grows, by the
   * normalised forms of links; every appended entry is a link at `depth` that is not skipped
   * and whose normalised form was neither queued nor visited; no two appended entries share
   * a normalised form, and the set grows by exactly as many URLs as entries are appended.
   */
  lemma {:induction false} AdmittedSpec(pol: Policy, links: seq<string>, depth: nat, queued: set<string>, visited: set<string>)
    ensures var (q, s) := Admitted(pol, links, depth, queued, visited);
      && queued <= s && |q| == |s| - |queued|
      && (forall x :: x in s && x !in queued ==> exists l :: l in links && pol.norm(l) == x)
      && (forall k :: 0 <= k < |q| ==> AdmittedEntry(pol, links, depth, queued, visited, s, q[k]))
      && (forall i, j :: 0 <= i < j < |q| ==> pol.norm(q[i].0) != pol.norm(q[j].0))
    decreases |links|
  {
    if |links| > 0 {
      var init := links[..|links| - 1];
      AdmittedSpec(pol, init, depth, queued, visited);
      var (q, s) := Admitted(pol, init, depth, queued, visited);
      var link := links[|links| - 1];
      var ln := pol.norm(link);
      var (q', s') := Admitted(pol, links, depth, queued, visited);
      forall x | x in s' && x !in queued
        ensures exists l :: l in links && pol.norm(l) == x
      {
        if x in s {
          var l :| l in init && pol.norm(l) == x;
          assert l in links;
        } else {
          assert link in links;
        }
      }
      forall k | 0 <= k < |q'|
        ensures AdmittedEntry(pol, links, depth, queued, visited, s', q'[k])
      {
        if k < |q| {
          assert q'[k] == q[k];
          assert AdmittedEntry(pol, init, depth, queued, visited, s, q[k]);
          assert q[k].0 in links;
        } else {
          assert link in links;
        }
      }
      if ln !in s && ln !in visited && !pol.skip(link) {
        assert |s + {ln}| == |s| + 1;
        forall i, j | 0 <= i < j < |q'|
          ensures pol.norm(q'[i].0) != pol.norm(q'[j].0)
        {
          assert q'[i] == q[i];
          assert AdmittedEntry(pol, init, depth, queued, visited, s, q[i]);
          if j < |q| {
            assert q'[j] == q[j];
          }
        }
      }
    }
  }

  /** Every queue entry is queued (in normalised form) and at most 20 deep. */
  ghost predicate QueueWithin(pol: Policy, queue: seq<(string, nat)>, queued: set<string>) {
    forall k :: 0 <= k < |queue| ==> pol.norm(queue[k].0) in queued && queue[k].1 <= MaxDepth
  }

  /** Queueing the links of a fetched page stays within the site and within depth 20. */
  lemma {:induction false} AdmittedQueue(pol: Policy, fetch: string -> Response, universe: set<string>, url: string, depth: nat,
                      queued: set<string>, visited: set<string>, queue: seq<(string, nat)>)
    requires LinksWithin(pol, fetch, universe) && fetch(url).Answer? && queued <= universe && depth <= MaxDepth
    requires QueueWithin(pol, queue, queued)
    ensures var r := Admitted(pol, fetch(url).links, depth, queued, visited);
      && queued <= r.1 <= universe && (r.1 == queued ==> r.0 == [])
      && QueueWithin(pol, queue + r.0, r.1)
  {
    var links := fetch(url).links;
    AdmittedSpec(pol, links, depth, queued, visited);
    var (q, s) := Admitted(pol, links, depth, queued, visited);
    forall x | x in s
      ensures x in universe
    {
      if x !in queued {
        var l :| l in links && pol.norm(l) == x;
      }
    }
    forall k | 0 <= k < |queue + q|
      ensures pol.norm((queue + q)[k].0) in s && (queue + q)[k].1 <= MaxDepth
    {
      if k >= |queue| {
        assert (queue + q)[k] == q[k - |queue|];
        assert AdmittedEntry(pol, links, depth, queued, visited, s, q[k - |queue|]);
      }
    }
  }

  /**
   * The saved pages against a visited set: each was crawled, at depth at most 20, and its
   * normalised form is visited; no two share a normalised form.
   */
  ghost predicate PagesValid(pol: Policy, fetch: string -> Response, visited: set<string>, html: seq<string>, depths: seq<nat>) {
    && |depths| == |html|
    && AllCrawled(pol, fetch, html)
    && (forall i :: 0 <= i < |html| ==> pol.norm(html[i]) in visited && depths[i] <= MaxDepth)
    && (forall i, j :: 0 <= i < j < |html| ==> pol.norm(html[i]) != pol.norm(html[j]))
  }

  /** Every page of `pages` was crawled, stated page by page from the last. */
  ghost predicate AllCrawled(pol: Policy, fetch: string -> Response, pages: seq<string>)
    decreases |pages|
  {
    |pages| == 0 || (AllCrawled(pol, fetch, pages[..|pages| - 1]) && Crawled(pol, fetch, pages[|pages| - 1]))
  }

  lemma {:induction false} AllCrawledSpec(pol: Policy, fetch: string -> Response, pages: seq<string>)
    ensures AllCrawled(pol, fetch, pages) <==> forall i :: 0 <= i < |pages| ==> Crawled(pol, fetch, pages[i])
    decreases |pages|
  {
    if |pages| > 0 {
      var init := pages[..|pages| - 1];
      AllCrawledSpec(pol, fetch, init);
      assert forall i :: 0 <= i < |init| ==> init[i] == pages[i];
    }
  }

  /** A URL whose normalised form is not visited is not among the saved pages. */
  lemma NotYetSaved(pol: Policy, fetch: string -> Response, visited: set<string>, html: seq<string>, depths: seq<nat>, norm: string)
    requires PagesValid(pol, fetch, visited, html, depths) && norm !in visited
    ensures PagesValid(pol, fetch, visited + {norm}, html, depths)
    ensures forall i :: 0 <= i < |html| ==> pol.norm(html[i]) != norm
  {
  }

  /** Saving a crawled page whose normalised form is visited but not yet saved keeps the pages valid. */
  lemma {:induction false} PagesValidAppend(pol: Policy, fetch: string -> Response, visited: set<string>, html: seq<string>, depths: seq<nat>, url: string, depth: nat)
    requires PagesValid(pol, fetch, visited, html, depths)
    requires pol.norm(url) in visited && depth <= MaxDepth && Crawled(pol, fetch, url)
    requires forall i :: 0 <= i < |html| ==> pol.norm(html[i]) != pol.norm(url)
    ensures PagesValid(pol, fetch, visited, html + [url], depths + [depth])
  {
    var h := html + [url];
    assert h[..|h| - 1] == html;
    forall i, j | 0 <= i < j < |h|
      ensures pol.norm(h[i]) != pol.norm(h[j])
    {
      assert h[i] == html[i];
    }
  }

  /** The collected URLs all have an origin. */
  ghost predicate Origins(pol: Policy, fetch: string -> Response, html: seq<string>, imgQueue: set<string>, pdfQueue: set<string>) {
    && (forall u :: u in pdfQueue ==> PdfOrigin(pol, fetch, html, u))
    && (forall u :: u in imgQueue ==> ImageOrigin(pol, fetch, html, u))
  }

  /** The origins of collected files survive saving another page. */
  lemma {:induction false} OriginsGrow(pol: Policy, fetch: string -> Response, html: seq<string>, url: string, imgQueue: set<string>, pdfQueue: set<string>)
    requires Origins(pol, fetch, html, imgQueue, pdfQueue)
    ensures Origins(pol, fetch, html + [url], imgQueue, pdfQueue)
  {
    forall u | u in pdfQueue
      ensures PdfOrigin(pol, fetch, html + [url], u)
    {
      if h :| h in html && fetch(h).Answer? && u in fetch(h).assets {
        assert h in html + [url];
      }
    }
    forall u | u in imgQueue
      ensures ImageOrigin(pol, fetch, html + [url], u)
    {
      if h :| h in html && fetch(h).Answer? && u in fetch(h).images {
        assert h in html + [url];
      }
    }
  }

  lemma OriginsAddPdf(pol: Policy, fetch: string -> Response, html: seq<string>, url: string, imgQueue: set<string>, pdfQueue: set<string>)
    requires Origins(pol, fetch, html, imgQueue, pdfQueue) && PdfOrigin(pol, fetch, html, url)
    ensures Origins(pol, fetch, html, imgQueue, pdfQueue + {url})
  {
  }

  lemma OriginsAddImage(pol: Policy, fetch: string -> Response, html: seq<string>, url: string, imgQueue: set<string>, pdfQueue: set<string>)
    requires Origins(pol, fetch, html, imgQueue, pdfQueue) && ImageOrigin(pol, fetch, html, url)
    ensures Origins(pol, fetch, html, imgQueue + {url}, pdfQueue)
  {
  }

  /** The images and assets of a saved page have it as their origin. */
  lemma OriginsLinked(pol: Policy, fetch: string -> Response, html: seq<string>, url: string, imgQueue: set<string>, pdfQueue: set<string>)
    requires Origins(pol, fetch, html, imgQueue, pdfQueue) && url in html && fetch(url).Answer?
    ensures Origins(pol, fetch, html, imgQueue + fetch(url).images, pdfQueue + fetch(url).assets)
  {
  }

  /** Growing `queued` inside `universe` shrinks what is left of `universe`. */
  lemma {:induction false} SmallerRemainder(universe: set<string>, before: set<string>, after: set<string>)
    requires before <= after <= universe
    ensures |universe - after| <= |universe - before|
    ensures before != after ==> |universe - after| < |universe - before|
  {
    assert universe - before == (universe - after) + (after - before);
    assert (universe - after) * (after - before) == {};
    if before != after {
      var x :| x in after && x !in before;
      assert x in after - before;
    }
  }

  /** The origins of collected files depend only on which pages are listed, not on their order or repetition. */
  lemma {:induction false} OriginsListed(pol: Policy, fetch: string -> Response, html: seq<string>, listed: seq<string>)
    requires forall h :: h in listed <==> h in html
    ensures forall u :: PdfOrigin(pol, fetch, html, u) ==> PdfOrigin(pol, fetch, listed, u)
    ensures forall u :: ImageOrigin(pol, fetch, html, u) ==> ImageOrigin(pol, fetch, listed, u)
  {
    forall u | PdfOrigin(pol, fetch, html, u)
      ensures PdfOrigin(pol, fetch, listed, u)
    {
      if h :| h in html && fetch(h).Answer? && u in fetch(h).assets {
        assert h in listed;
      }
    }
    forall u | ImageOrigin(pol, fetch, html, u)
      ensures ImageOrigin(pol, fetch, listed, u)
    {
      if h :| h in html && fetch(h).Answer? && u in fetch(h).images {
        assert h in listed;
      }
    }
  }

  // ---------------------------------------------------------------- the crawl state across a turn

  /** Saving a crawled page whose normal form is visited and not yet saved keeps the crawl state. */
  lemma {:induction false} SaveKeeps(pol: Policy, fetch: string -> Response, universe: set<string>, w: Walk, url: string, depth: nat)
    requires CrawlState(pol, fetch, universe, w) && Crawled(pol, fetch, url) && depth <= MaxDepth
    requires pol.norm(url) in w.visited && forall i :: 0 <= i < |w.html| ==> pol.norm(w.html[i]) != pol.norm(url)
    ensures CrawlState(pol, fetch, universe, SaveStep(pol, w, url, depth))
  {
    PagesValidAppend(pol, fetch, w.visited, w.html, w.depths, url, depth);
    OriginsGrow(pol, fetch, w.html, url, w.imgQueue, w.pdfQueue);
  }

  /**
   * Following a crawled page keeps the crawl state: `queued` grows within the site, and a
   * queue that grows longer also grows `queued`.
   */
  lemma {:induction false} FollowKeeps(pol: Policy, fetch: string -> Response, universe: set<string>, w: Walk, url: string, depth: nat)
    requires CrawlState(pol, fetch, universe, w) && LinksWithin(pol, fetch, universe)
    requires Crawled(pol, fetch, url) && depth <= MaxDepth
    requires pol.norm(url) in w.visited && forall i :: 0 <= i < |w.html| ==> pol.norm(w.html[i]) != pol.norm(url)
    ensures var t := FollowStep(pol, fetch, w, url, depth);
      && CrawlState(pol, fetch, universe, t) && w.disk <= t.disk
      && w.queued <= t.queued && (t.queued == w.queued ==> |t.queue| == |w.queue|)
  {
    var s := SaveStep(pol, w, url, depth);
    SaveKeeps(pol, fetch, universe, w, url, depth);
    if depth < MaxDepth {
      OriginsLinked(pol, fetch, s.html, url, s.imgQueue, s.pdfQueue);
      AdmittedQueue(pol, fetch, universe, url, depth + 1, s.queued, s.visited, s.queue);
      var r := Admitted(pol, fetch(url).links, depth + 1, s.queued, s.visited);
      CrawlValidGrow(pol, fetch, s.visited, s.queued, r.1, s.html, s.depths, s.stats);
    }
  }

  /** The request for a visited, not yet saved page URL keeps the crawl state. */
  lemma {:induction false} FetchKeeps(pol: Policy, fetch: string -> Response, universe: set<string>, w: Walk, url: string, depth: nat)
    requires CrawlState(pol, fetch, universe, w) && LinksWithin(pol, fetch, universe)
    requires !pol.skip(url) && pol.kind(url) == Page && depth <= MaxDepth
    requires pol.norm(url) in w.visited && forall i :: 0 <= i < |w.html| ==> pol.norm(w.html[i]) != pol.norm(url)
    ensures var t := FetchStep(pol, fetch, w, url, depth);
      && CrawlState(pol, fetch, universe, t) && w.disk <= t.disk
      && w.queued <= t.queued && (t.queued == w.queued ==> |t.queue| == |w.queue|)
  {
    if HtmlAnswer(fetch, url) {
      FollowKeeps(pol, fetch, universe, w, url, depth);
    } else if PdfAnswer(pol, fetch, url) {
      OriginsAddPdf(pol, fetch, w.html, url, w.imgQueue, w.pdfQueue);
    }
  }

  /** Visiting a queued URL at depth at most 20 keeps the crawl state. */
  lemma {:induction false} VisitKeeps(pol: Policy, fetch: string -> Response, universe: set<string>, w: Walk, url: string, depth: nat)
    requires CrawlState(pol, fetch, universe, w) && LinksWithin(pol, fetch, universe)
    requires pol.norm(url) in w.queued && depth <= MaxDepth
    ensures var t := VisitStep(pol, fetch, w, url, depth);
      && CrawlState(pol, fetch, universe, t) && w.disk <= t.disk
      && w.queued <= t.queued && (t.queued == w.queued ==> |t.queue| == |w.queue|)
  {
    var norm := pol.norm(url);
    if norm !in w.visited && !pol.skip(url) {
      NotYetSaved(pol, fetch, w.visited, w.html, w.depths, norm);
      var v := w.(visited := w.visited + {norm}, seen := w.seen + {url});
      assert CrawlState(pol, fetch, universe, v);
      match pol.kind(url)
      case Video =>
      case Image => OriginsAddImage(pol, fetch, v.html, url, v.imgQueue, v.pdfQueue);
      case Pdf => OriginsAddPdf(pol, fetch, v.html, url, v.imgQueue, v.pdfQueue);
      case Page => FetchKeeps(pol, fetch, universe, v, url, depth);
    }
  }

  /**
   * A turn of the crawl loop keeps the crawl state, never removes a file, and either grows
   * `queued` or shortens the queue: the loop ends on a finite site.
   */
  lemma {:induction false} TurnKeeps(pol: Policy, fetch: string -> Response, universe: set<string>, w: Walk)
    requires |w.queue| > 0 && CrawlState(pol, fetch, universe, w) && LinksWithin(pol, fetch, universe)
    ensures var t := Turn(pol, fetch, w);
      && CrawlState(pol, fetch, universe, t) && w.disk <= t.disk
      && w.queued <= t.queued && (t.queued == w.queued ==> |t.queue| < |w.queue|)
  {
    var w0 := w.(queue := w.queue[1..]);
    forall k | 0 <= k < |w0.queue|
      ensures pol.norm(w0.queue[k].0) in w0.queued && w0.queue[k].1 <= MaxDepth
    {
      assert w0.queue[k] == w.queue[k + 1];
    }
    VisitKeeps(pol, fetch, universe, w0, w.queue[0].0, w.queue[0].1);
  }

  // ---------------------------------------------------------------- what the crawl reaches

  /**
   * What visiting `u` leaves behind: with an image extension it is collected as an image,
   * with the PDF extension or as a PDF answer it is collected as a PDF, and a crawled page
   * is saved.
   */
  ghost predicate Handled(pol: Policy, fetch: string -> Response, html: seq<string>, imgQueue: set<string>, pdfQueue: set<string>, u: string) {
    && (pol.kind(u) == Image ==> u in imgQueue)
    && (pol.kind(u) == Pdf ==> u in pdfQueue)
    && (PdfAnswer(pol, fetch, u) ==> u in pdfQueue)
    && (Crawled(pol, fetch, u) ==> u in html)
  }

  /** A page that was followed: its images and assets are collected, and each of its links is skipped or queued. */
  ghost predicate Followed(pol: Policy, fetch: string -> Response, h: string, queued: set<string>, imgQueue: set<string>, pdfQueue: set<string>) {
    && fetch(h).Answer?
    && fetch(h).images <= imgQueue && fetch(h).assets <= pdfQueue
    && forall l :: l in fetch(h).links ==> pol.skip(l) || pol.norm(l) in queued
  }

  /**
   * The URLs marked visited: none is skipped, each has its normal form visited and was
   * handled, and every visited normal form is that of a marked URL.
   */
  ghost predicate SeenValid(pol: Policy, fetch: string -> Response, seen: set<string>, visited: set<string>,
                            html: seq<string>, imgQueue: set<string>, pdfQueue: set<string>) {
    && (forall u :: u in seen ==> !pol.skip(u) && pol.norm(u) in visited && Handled(pol, fetch, html, imgQueue, pdfQueue, u))
    && (forall n :: n in visited ==> exists u :: u in seen && pol.norm(u) == n)
  }

  /** Every page saved below depth 20 was followed. */
  ghost predicate PagesFollowed(pol: Policy, fetch: string -> Response, html: seq<string>, depths: seq<nat>,
                                queued: set<string>, imgQueue: set<string>, pdfQueue: set<string>) {
    forall i :: 0 <= i < |html| && i < |depths| && depths[i] < MaxDepth ==> Followed(pol, fetch, html[i], queued, imgQueue, pdfQueue)
  }

  /**
   * Every queued normal form is visited, or still waits in the queue behind a link that is
   * not skipped, or is the base URL's when the base URL itself is skipped.
   */
  ghost predicate Pending(pol: Policy, queued: set<string>, visited: set<string>, queue: seq<(string, nat)>) {
    forall n :: n in queued ==>
      || n in visited
      || (pol.skip(BaseUrl) && n == pol.norm(BaseUrl))
      || exists k :: 0 <= k < |queue| && pol.norm(queue[k].0) == n && !pol.skip(queue[k].0)
  }

  /**
   * What the crawl has reached so far. With an empty queue: every queued URL was visited
   * (but a skipped base URL), every marked URL was handled, and every page saved below
   * depth 20 had its links queued and its images and assets collected.
   */
  ghost predicate Complete(pol: Policy, fetch: string -> Response, seen: set<string>, visited: set<string>, queued: set<string>,
                           html: seq<string>, depths: seq<nat>, queue: seq<(string, nat)>, imgQueue: set<string>, pdfQueue: set<string>) {
    && SeenValid(pol, fetch, seen, visited, html, imgQueue, pdfQueue)
    && PagesFollowed(pol, fetch, html, depths, queued, imgQueue, pdfQueue)
    && Pending(pol, queued, visited, queue)
  }

  /** `t` extends `w`: its sets are larger, and its page list, depths and queue extend `w`'s. */
  ghost predicate Grows(w: Walk, t: Walk) {
    && w.visited <= t.visited && w.seen <= t.seen && w.queued <= t.queued && w.disk <= t.disk
    && w.imgQueue <= t.imgQueue && w.pdfQueue <= t.pdfQueue
    && w.html <= t.html && w.depths <= t.depths && w.queue <= t.queue
  }

  /** Every normal form `t` queued beyond `w` has an entry that is not skipped in the part of `t`'s queue after `w`'s. */
  ghost predicate Witnessed(pol: Policy, w: Walk, t: Walk) {
    forall n :: n in t.queued && n !in w.queued ==>
      exists k :: |w.queue| <= k < |t.queue| && pol.norm(t.queue[k].0) == n && !pol.skip(t.queue[k].0)
  }

  /** Every normal form the link loop adds has an appended entry. */
  lemma {:induction false} AdmittedWitness(pol: Policy, links: seq<string>, depth: nat, queued: set<string>, visited: set<string>)
    ensures var (q, s) := Admitted(pol, links, depth, queued, visited);
      forall x :: x in s && x !in queued ==> exists k :: 0 <= k < |q| && pol.norm(q[k].0) == x
    decreases |links|
  {
    if |links| > 0 {
      var init := links[..|links| - 1];
      AdmittedWitness(pol, init, depth, queued, visited);
      var (q, s) := Admitted(pol, init, depth, queued, visited);
      var (q', s') := Admitted(pol, links, depth, queued, visited);
      forall x | x in s' && x !in queued
        ensures exists k :: 0 <= k < |q'| && pol.norm(q'[k].0) == x
      {
        if x in s {
          var k :| 0 <= k < |q| && pol.norm(q[k].0) == x;
          assert q'[k] == q[k];
        } else {
          assert pol.norm(q'[|q|].0) == x;
        }
      }
    }
  }

  /** After the link loop every link is skipped, or its normal form is visited or in the new set. */
  lemma {:induction false} AdmittedCovers(pol: Policy, links: seq<string>, depth: nat, queued: set<string>, visited: set<string>)
    ensures forall l :: l in links ==>
      pol.skip(l) || pol.norm(l) in visited || pol.norm(l) in Admitted(pol, links, depth, queued, visited).1
    decreases |links|
  {
    if |links| > 0 {
      var init := links[..|links| - 1];
      AdmittedCovers(pol, init, depth, queued, visited);
      assert links == init + [links[|links| - 1]];
    }
  }

  /** What following a page does to the parts of the state the completeness argument tracks. */
  lemma {:induction false} FollowFacts(pol: Policy, fetch: string -> Response, w: Walk, url: string, depth: nat)
    requires fetch(url).Answer? && w.visited <= w.queued
    ensures var t := FollowStep(pol, fetch, w, url, depth);
      && Grows(w, t) && t.visited == w.visited && t.seen == w.seen && Witnessed(pol, w, t)
      && t.html == w.html + [url] && t.depths == w.depths + [depth]
      && (depth < MaxDepth ==> Followed(pol, fetch, url, t.queued, t.imgQueue, t.pdfQueue))
  {
    var s := SaveStep(pol, w, url, depth);
    var t := FollowStep(pol, fetch, w, url, depth);
    if depth < MaxDepth {
      var links := fetch(url).links;
      AdmittedSpec(pol, links, depth + 1, s.queued, s.visited);
      AdmittedWitness(pol, links, depth + 1, s.queued, s.visited);
      AdmittedCovers(pol, links, depth + 1, s.queued, s.visited);
      var (q, r) := Admitted(pol, links, depth + 1, s.queued, s.visited);
      forall n | n in t.queued && n !in w.queued
        ensures exists k :: |w.queue| <= k < |t.queue| && pol.norm(t.queue[k].0) == n && !pol.skip(t.queue[k].0)
      {
        var j :| 0 <= j < |q| && pol.norm(q[j].0) == n;
        assert AdmittedEntry(pol, links, depth + 1, s.queued, s.visited, r, q[j]);
        assert t.queue[|w.queue| + j] == q[j];
      }
    }
  }

  /** What the request for a page URL does to the parts of the state the completeness argument tracks. */
  lemma {:induction false} FetchFacts(pol: Policy, fetch: string -> Response, w: Walk, url: string, depth: nat)
    requires w.visited <= w.queued
    ensures var t := FetchStep(pol, fetch, w, url, depth);
      && Grows(w, t) && t.visited == w.visited && t.seen == w.seen && Witnessed(pol, w, t)
      && (PdfAnswer(pol, fetch, url) ==> url in t.pdfQueue)
      && if HtmlAnswer(fetch, url) then
           && t.html == w.html + [url] && t.depths == w.depths + [depth]
           && (depth < MaxDepth ==> Followed(pol, fetch, url, t.queued, t.imgQueue, t.pdfQueue))
         else t.html == w.html && t.depths == w.depths
  {
    if HtmlAnswer(fetch, url) {
      FollowFacts(pol, fetch, w, url, depth);
    }
  }

  /** What visiting a queued URL does to the parts of the state the completeness argument tracks. */
  lemma {:induction false} VisitFacts(pol: Policy, fetch: string -> Response, w: Walk, url: string, depth: nat)
    requires w.visited <= w.queued && pol.norm(url) in w.queued
    ensures var t := VisitStep(pol, fetch, w, url, depth);
      && Grows(w, t) && Witnessed(pol, w, t)
      && (if pol.norm(url) in w.visited || pol.skip(url) then t == w
          else
            && t.visited == w.visited + {pol.norm(url)} && t.seen == w.seen + {url}
            && Handled(pol, fetch, t.html, t.imgQueue, t.pdfQueue, url))
      && (|| (t.html == w.html && t.depths == w.depths)
          || (&& t.html == w.html + [url] && t.depths == w.depths + [depth]
              && (depth < MaxDepth ==> Followed(pol, fetch, url, t.queued, t.imgQueue, t.pdfQueue))))
  {
    var norm := pol.norm(url);
    if norm !in w.visited && !pol.skip(url) && pol.kind(url) == Page {
      var v := w.(visited := w.visited + {norm}, seen := w.seen + {url});
      FetchFacts(pol, fetch, v, url, depth);
    }
  }

  /** What a URL left behind stays behind as the state grows. */
  lemma {:induction false} HandledGrows(pol: Policy, fetch: string -> Response, w: Walk, t: Walk, u: string)
    requires Grows(w, t) && Handled(pol, fetch, w.html, w.imgQueue, w.pdfQueue, u)
    ensures Handled(pol, fetch, t.html, t.imgQueue, t.pdfQueue, u)
  {
    if u in w.html {
      var i :| 0 <= i < |w.html| && w.html[i] == u;
      assert t.html[i] == u;
    }
  }

  /** The marked URLs stay valid across a turn that marks at most the visited URL. */
  lemma {:induction false} SeenKept(pol: Policy, fetch: string -> Response, w: Walk, t: Walk, url: string)
    requires Grows(w, t) && SeenValid(pol, fetch, w.seen, w.visited, w.html, w.imgQueue, w.pdfQueue)
    requires || (t.seen == w.seen && t.visited == w.visited)
             || (&& t.seen == w.seen + {url} && t.visited == w.visited + {pol.norm(url)} && !pol.skip(url)
                 && Handled(pol, fetch, t.html, t.imgQueue, t.pdfQueue, url))
    ensures SeenValid(pol, fetch, t.seen, t.visited, t.html, t.imgQueue, t.pdfQueue)
  {
    forall u | u in t.seen
      ensures !pol.skip(u) && pol.norm(u) in t.visited && Handled(pol, fetch, t.html, t.imgQueue, t.pdfQueue, u)
    {
      if u in w.seen {
        HandledGrows(pol, fetch, w, t, u);
      }
    }
    forall n | n in t.visited
      ensures exists u :: u in t.seen && pol.norm(u) == n
    {
      if n in w.visited {
        var u :| u in w.seen && pol.norm(u) == n;
        assert u in t.seen;
      } else {
        assert url in t.seen;
      }
    }
  }

  /** The pages saved below depth 20 stay followed across a turn that saves at most the visited URL. */
  lemma {:induction false} FollowedKept(pol: Policy, fetch: string -> Response, w: Walk, t: Walk, url: string, depth: nat)
    requires Grows(w, t) && |w.depths| == |w.html|
    requires PagesFollowed(pol, fetch, w.html, w.depths, w.queued, w.imgQueue, w.pdfQueue)
    requires || (t.html == w.html && t.depths == w.depths)
             || (&& t.html == w.html + [url] && t.depths == w.depths + [depth]
                 && (depth < MaxDepth ==> Followed(pol, fetch, url, t.queued, t.imgQueue, t.pdfQueue)))
    ensures PagesFollowed(pol, fetch, t.html, t.depths, t.queued, t.imgQueue, t.pdfQueue)
  {
    forall i | 0 <= i < |t.html| && i < |t.depths| && t.depths[i] < MaxDepth
      ensures Followed(pol, fetch, t.html[i], t.queued, t.imgQueue, t.pdfQueue)
    {
      if i < |w.html| {
        assert t.html[i] == w.html[i] && t.depths[i] == w.depths[i];
        assert Followed(pol, fetch, w.html[i], w.queued, w.imgQueue, w.pdfQueue);
      }
    }
  }

  /** The queued normal forms stay accounted for across a turn. */
  lemma {:induction false} PendingKept(pol: Policy, w: Walk, t: Walk)
    requires |w.queue| > 0 && Pending(pol, w.queued, w.visited, w.queue)
    requires w.queued <= t.queued && w.visited <= t.visited && w.queue[1..] <= t.queue
    requires pol.skip(w.queue[0].0) || pol.norm(w.queue[0].0) in t.visited
    requires Witnessed(pol, w.(queue := w.queue[1..]), t)
    ensures Pending(pol, t.queued, t.visited, t.queue)
  {
    forall n | n in t.queued
      ensures || n in t.visited
              || (pol.skip(BaseUrl) && n == pol.norm(BaseUrl))
              || exists k :: 0 <= k < |t.queue| && pol.norm(t.queue[k].0) == n && !pol.skip(t.queue[k].0)
    {
      if n in w.queued && n !in w.visited && !(pol.skip(BaseUrl) && n == pol.norm(BaseUrl)) {
        var k :| 0 <= k < |w.queue| && pol.norm(w.queue[k].0) == n && !pol.skip(w.queue[k].0);
        if k > 0 {
          assert t.queue[k - 1] == w.queue[k];
        }
      }
    }
  }

  /** A turn of the crawl loop keeps what the crawl has reached. */
  lemma {:induction false} TurnCompletes(pol: Policy, fetch: string -> Response, universe: set<string>, w: Walk)
    requires |w.queue| > 0 && CrawlState(pol, fetch, universe, w)
    requires Complete(pol, fetch, w.seen, w.visited, w.queued, w.html, w.depths, w.queue, w.imgQueue, w.pdfQueue)
    ensures var t := Turn(pol, fetch, w);
      Complete(pol, fetch, t.seen, t.visited, t.queued, t.html, t.depths, t.queue, t.imgQueue, t.pdfQueue)
  {
    var url, depth := w.queue[0].0, w.queue[0].1;
    var w0 := w.(queue := w.queue[1..]);
    var t := VisitStep(pol, fetch, w0, url, depth);
    VisitFacts(pol, fetch, w0, url, depth);
    SeenKept(pol, fetch, w0, t, url);
    FollowedKept(pol, fetch, w0, t, url, depth);
    PendingKept(pol, w, t);
  }

  /** The loop state of `crawl` together with what the crawl has reached so far. */
  ghost predicate Reached(pol: Policy, fetch: string -> Response, universe: set<string>, w: Walk) {
    && CrawlState(pol, fetch, universe, w)
    && Complete(pol, fetch, w.seen, w.visited, w.queued, w.html, w.depths, w.queue, w.imgQueue, w.pdfQueue)
  }

  /** A turn of the crawl loop keeps `Reached`, never removes a file, and either grows `queued` or shortens the queue. */
  lemma {:induction false} TurnReaches(pol: Policy, fetch: string -> Response, universe: set<string>, w: Walk)
    requires |w.queue| > 0 && Reached(pol, fetch, universe, w) && LinksWithin(pol, fetch, universe)
    ensures var t := Turn(pol, fetch, w);
      && Reached(pol, fetch, universe, t) && w.disk <= t.disk
      && w.queued <= t.queued && (t.queued == w.queued ==> |t.queue| < |w.queue|)
  {
    TurnKeeps(pol, fetch, universe, w);
    TurnCompletes(pol, fetch, universe, w);
  }
}
