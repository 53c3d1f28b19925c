/**
 * `scripts/find_pdfs.py`: the PDF links of the saved pages are completed into absolute
 * URLs, listed sorted and without duplicates, downloaded under a file name derived from
 * the URL, and their texts collected for the enrichment step. Parsing HTML, the network
 * and text extraction are oracles.
 */
module FindPdfs {
  import opened Opt
  import opened Text
  import opened Seqs
  import Enrich

  const BaseDomain: string := "www.hanak-nabytek.cz"
  const TextLimit: nat := 5000

  // ---------------------------------------------------------------- find_pdf_links

  /** The URL collected for a link's `href`, or none when the link is skipped. */
  function NormalizeHref(href: string): Option<string> {
    if !Contains(Lower(href), ".pdf") then None
    else if StartsWith(href, "//") then Some("https:" + href)
    else if StartsWith(href, "/") then Some("https://" + BaseDomain + href)
    else if !StartsWith(href, "http") then None
    else Some(href)
  }

  lemma LowerAppend(a: string, b: string)
    ensures Lower(a + b) == Lower(a) + Lower(b)
  {
  }

  /** A prefix put in front of a ".pdf" link keeps the ".pdf" and the link as its tail. */
  lemma {:induction false} PrefixedLink(pre: string, href: string)
    requires Contains(Lower(href), ".pdf")
    ensures Contains(Lower(pre + href), ".pdf") && EndsWith(pre + href, href)
  {
    LowerAppend(pre, href);
    ContainsRight(Lower(pre), Lower(href), ".pdf");
    assert (pre + href)[|pre|..] == href;
  }

  lemma {:induction false} HttpsPrefix(rest: string)
    ensures StartsWith("https:" + rest, "http") && StartsWith("https://" + rest, "https://")
  {
    assert ("https:" + rest)[..4] == "https:"[..4];
    assert "https:"[..4] == "http";
  }

  /**
   * A link is collected exactly when its lower-cased form has ".pdf" and it starts with '/'
   * or "http"; the collected URL starts with "http", keeps the link as its tail and still
   * has ".pdf", and a link from the site's root ("/x" or "//x") becomes an "https://" URL.
   */
  lemma {:induction false} NormalizeHrefSpec(href: string)
    ensures NormalizeHref(href).Some? <==>
      Contains(Lower(href), ".pdf") && (StartsWith(href, "/") || StartsWith(href, "http"))
    ensures NormalizeHref(href).Some? ==>
      var u := NormalizeHref(href).value;
      StartsWith(u, "http") && EndsWith(u, href) && Contains(Lower(u), ".pdf")
    ensures NormalizeHref(href).Some? && StartsWith(href, "/") ==> StartsWith(NormalizeHref(href).value, "https://")
  {
    if !Contains(Lower(href), ".pdf") {
    } else if StartsWith(href, "//") {
      ProtocolRelativeLink(href);
    } else if StartsWith(href, "/") {
      RootRelativeLink(href);
    } else if StartsWith(href, "http") {
      assert href[|href| - |href|..] == href;
    }
  }

  /** A "//x" link is collected as "https://x", with the link as its tail. */
  lemma {:induction false} ProtocolRelativeLink(href: string)
    requires Contains(Lower(href), ".pdf") && StartsWith(href, "//")
    ensures NormalizeHref(href) == Some("https:" + href)
    ensures var u := "https:" + href;
      StartsWith(u, "http") && EndsWith(u, href) && Contains(Lower(u), ".pdf") && StartsWith(u, "https://")
  {
    PrefixedLink("https:", href);
    HttpsPrefix(href);
    assert "https:" + href == "https://" + href[2..] by {
      assert href == "//" + href[2..];
    }
    HttpsPrefix(href[2..]);
  }

  /** A "/x" link is collected as "https://" + the site's domain + "/x", with the link as its tail. */
  lemma {:induction false} RootRelativeLink(href: string)
    requires Contains(Lower(href), ".pdf") && StartsWith(href, "/") && !StartsWith(href, "//")
    ensures NormalizeHref(href) == Some("https://" + BaseDomain + href)
    ensures var u := "https://" + BaseDomain + href;
      StartsWith(u, "http") && EndsWith(u, href) && Contains(Lower(u), ".pdf") && StartsWith(u, "https://")
  {
    PrefixedLink("https://" + BaseDomain, href);
    assert "https://" + BaseDomain + href == "https://" + (BaseDomain + href);
    HttpsPrefix(BaseDomain + href);
  }

  /** A collected URL is collected again as itself. */
  lemma {:induction false} NormalizeHrefIdempotent(href: string)
    requires NormalizeHref(href).Some?
    ensures NormalizeHref(NormalizeHref(href).value) == NormalizeHref(href)
  {
    NormalizeHrefSpec(href);
    var u := NormalizeHref(href).value;
    assert u[0] == "http"[0];
    assert !StartsWith(u, "/");
  }

  /** The URLs the links of one page contribute. */
  function PageUrls(hrefs: seq<string>): set<string> {
    Collected(NormalizeHref, hrefs)
  }

  /** The URLs of all pages; a page that cannot be read or parsed contributes none. */
  function SiteUrls(pages: seq<Option<seq<string>>>): set<string>
    decreases |pages|
  {
    if |pages| == 0 then {}
    else
      var more := match pages[|pages| - 1] case Some(hrefs) => PageUrls(hrefs) case None => {};
      SiteUrls(pages[..|pages| - 1]) + more
  }

  /** A URL comes from a page exactly when one of its links is collected as that URL. */
  lemma {:induction false} PageUrlsSpec(hrefs: seq<string>)
    ensures forall u :: u in PageUrls(hrefs) <==> exists j :: 0 <= j < |hrefs| && NormalizeHref(hrefs[j]) == Some(u)
  {
    CollectedSpec(NormalizeHref, hrefs);
  }

  predicate LinkedFrom(pages: seq<Option<seq<string>>>, u: string, i: int) {
    0 <= i < |pages| && pages[i].Some? && u in PageUrls(pages[i].value)
  }

  /** A URL is found exactly when some readable page contributes it. */
  lemma {:induction false} SiteUrlsSpec(pages: seq<Option<seq<string>>>)
    ensures forall u :: u in SiteUrls(pages) <==> exists i :: LinkedFrom(pages, u, i)
    decreases |pages|
  {
    if |pages| > 0 {
      var n := |pages| - 1;
      SiteUrlsSpec(pages[..n]);
      forall u
        ensures u in SiteUrls(pages) <==> exists i :: LinkedFrom(pages, u, i)
      {
        if i :| LinkedFrom(pages, u, i) {
          if i < n {
            assert pages[..n][i] == pages[i];
            assert LinkedFrom(pages[..n], u, i);
          }
        }
        if u in SiteUrls(pages[..n]) {
          var i :| LinkedFrom(pages[..n], u, i);
          assert pages[..n][i] == pages[i];
          assert LinkedFrom(pages, u, i);
        }
        if pages[n].Some? && u in PageUrls(pages[n].value) {
          assert LinkedFrom(pages, u, n);
        }
      }
    }
  }

  /** Every found URL starts with "http" and has ".pdf" in its lower-cased form. */
  lemma {:induction false} SiteUrlsArePdfs(pages: seq<Option<seq<string>>>)
    ensures forall u :: u in SiteUrls(pages) ==> StartsWith(u, "http") && Contains(Lower(u), ".pdf")
  {
    SiteUrlsSpec(pages);
    forall u | u in SiteUrls(pages)
      ensures StartsWith(u, "http") && Contains(Lower(u), ".pdf")
    {
      var i :| LinkedFrom(pages, u, i);
      PageUrlsSpec(pages[i].value);
      var j :| 0 <= j < |pages[i].value| && NormalizeHref(pages[i].value[j]) == Some(u);
      NormalizeHrefSpec(pages[i].value[j]);
    }
  }

  /** The links of one page, added to the set one by one. */
  method AddPageUrls(hrefs: seq<string>, found: set<string>) returns (r: set<string>)
    ensures r == found + PageUrls(hrefs)
  {
    r := found;
    for j := 0 to |hrefs|
      invariant r == found + PageUrls(hrefs[..j])
    {
      assert hrefs[..j + 1][..j] == hrefs[..j];
      var href := hrefs[j];
      if Contains(Lower(href), ".pdf") {
        if StartsWith(href, "//") {
          href := "https:" + href;
        } else if StartsWith(href, "/") {
          href := "https://" + BaseDomain + href;
        } else if !StartsWith(href, "http") {
          continue;
        }
        r := r + {href};
      }
    }
    assert hrefs[..|hrefs|] == hrefs;
  }

  /** `sorted` on a set of strings. */
  method SortedUrls(s: set<string>) returns (r: seq<string>)
    ensures StrictlySorted(r)
    ensures forall x :: x in r <==> x in s
  {
    var rest := s;
    var xs := [];
    while rest != {}
      invariant forall x :: x in s <==> x in xs || x in rest
      decreases |rest|
    {
      var x :| x in rest;
      xs := xs + [x];
      rest := rest - {x};
    }
    r := SortedSet(xs);
  }

  /** `find_pdf_links`: the URLs of all pages' links, sorted and each once. */
  method FindPdfLinks(pages: seq<Option<seq<string>>>) returns (urls: seq<string>)
    ensures StrictlySorted(urls) && NoDuplicates(urls)
    ensures forall u :: u in urls <==> u in SiteUrls(pages)
  {
    var found: set<string> := {};
    for i := 0 to |pages|
      invariant found == SiteUrls(pages[..i])
    {
      assert pages[..i + 1][..i] == pages[..i];
      if pages[i].Some? {
        found := AddPageUrls(pages[i].value, found);
      }
    }
    assert pages[..|pages|] == pages;
    urls := SortedUrls(found);
    SortedNoDuplicates(urls);
  }

  // ---------------------------------------------------------------- download_pdfs

  /** The file name of a PDF URL: its last '/' segment, cut at the first '?', ending ".pdf". */
  function FileName(url: string): string {
    WithPdf(BareName(url))
  }

  /** The last '/' segment of a URL, cut at the first '?'. */
  function BareName(url: string): string {
    var segments := Split(url, '/');
    Split(segments[|segments| - 1], '?')[0]
  }

  /** A name with ".pdf" appended unless it already ends so. */
  function WithPdf(name: string): string {
    if EndsWith(name, ".pdf") then name else name + ".pdf"
  }

  /** `WithPdf` ends in ".pdf" and adds neither '/' nor '?'. */
  lemma {:induction false} WithPdfSpec(name: string)
    ensures EndsWith(WithPdf(name), ".pdf")
    ensures '/' !in name ==> '/' !in WithPdf(name)
    ensures '?' !in name ==> '?' !in WithPdf(name)
  {
    if !EndsWith(name, ".pdf") {
      AppendPdf(name);
      assert WithPdf(name) == name + ".pdf";
    }
  }

  /** The bare name of a URL has neither '/' nor '?'. */
  lemma {:induction false} BareNameFree(url: string)
    ensures '/' !in BareName(url) && '?' !in BareName(url)
  {
    var segments := Split(url, '/');
    var seg := segments[|segments| - 1];
    var name := Split(seg, '?')[0];
    SplitPartsFree(url, '/');
    SplitPartsFree(seg, '?');
    SplitHead(seg, '?');
    forall k | 0 <= k < |name|
      ensures name[k] != '/'
    {
      assert name[k] == seg[k];
    }
  }

  lemma {:induction false} AppendPdf(name: string)
    ensures EndsWith(name + ".pdf", ".pdf")
  {
    assert (name + ".pdf")[|name|..] == ".pdf";
  }

  /** The first part of a split is a prefix of the string. */
  lemma {:induction false} SplitHead(s: string, c: char)
    ensures StartsWith(s, Split(s, c)[0])
  {
    JoinSplit(s, c);
    JoinFirst(Split(s, c), [c]);
  }

  /** A file name ends in ".pdf" and has neither '/' nor '?': it names a file in the catalog directory. */
  lemma {:induction false} FileNameSpec(url: string)
    ensures EndsWith(FileName(url), ".pdf") && '/' !in FileName(url) && '?' !in FileName(url)
  {
    BareNameFree(url);
    WithPdfSpec(BareName(url));
  }

  /** A file name is its own file name. */
  lemma {:induction false} FileNameOfName(name: string)
    requires EndsWith(name, ".pdf") && '/' !in name && '?' !in name
    ensures FileName(name) == name
  {
    SplitFree(name, '/');
    SplitFree(name, '?');
  }

  /** The last part of a split after a separator is what follows the last separator. */
  lemma {:induction false} SplitLast(a: string, c: char, b: string)
    requires c !in b
    ensures var parts := Split(a + [c] + b, c); |parts| >= 2 && parts[|parts| - 1] == b
    decreases |a|
  {
    var s := a + [c] + b;
    if |a| == 0 {
      assert s == [c] + b;
      assert s[1..] == b;
      SplitFree(b, c);
    } else {
      assert s[1..] == a[1..] + [c] + b;
      SplitLast(a[1..], c, b);
    }
  }

  /** Only the URL's last segment decides its file name. */
  lemma {:induction false} FileNameLastSegment(a: string, b: string)
    requires '/' !in b
    ensures FileName(a + "/" + b) == FileName(b)
  {
    SplitLast(a, '/', b);
    SplitFree(b, '/');
  }

  /** A downloaded (or already present) PDF: its URL and its file in the catalog directory. */
  datatype Download = Download(url: string, file: string)

  /**
   * The downloads after the URLs in order, with the catalog's files: a URL whose file is
   * present is listed without downloading; otherwise it is listed and its file added when
   * the download succeeds.
   */
  function DownloadsOf(urls: seq<string>, present: set<string>, fetch: string -> bool): (seq<Download>, set<string>)
    decreases |urls|
  {
    if |urls| == 0 then ([], present)
    else
      var (done, files) := DownloadsOf(urls[..|urls| - 1], present, fetch);
      var url := urls[|urls| - 1];
      var file := FileName(url);
      if file in files then (done + [Download(url, file)], files)
      else if fetch(url) then (done + [Download(url, file)], files + {file})
      else (done, files)
  }

  /** `download_pdfs`, with the catalog's files before the run and a download oracle. */
  method DownloadPdfs(urls: seq<string>, present: set<string>, fetch: string -> bool)
    returns (downloaded: seq<Download>, files: set<string>)
    ensures (downloaded, files) == DownloadsOf(urls, present, fetch)
  {
    downloaded, files := [], present;
    for i := 0 to |urls|
      invariant (downloaded, files) == DownloadsOf(urls[..i], present, fetch)
    {
      assert urls[..i + 1][..i] == urls[..i];
      var url := urls[i];
      var filename := FileName(url);
      if filename in files {
        downloaded := downloaded + [Download(url, filename)];
        continue;
      }
      if fetch(url) {
        files := files + {filename};
        downloaded := downloaded + [Download(url, filename)];
      }
    }
    assert urls[..|urls|] == urls;
  }

  /** Each listed download is one of the URLs, under its own file name, and its file is in the catalog afterwards. */
  lemma {:induction false} DownloadsListed(urls: seq<string>, present: set<string>, fetch: string -> bool)
    ensures var (done, files) := DownloadsOf(urls, present, fetch);
      && |done| <= |urls| && present <= files
      && forall k :: 0 <= k < |done| ==> done[k].url in urls && done[k].file == FileName(done[k].url) && done[k].file in files
    decreases |urls|
  {
    if |urls| > 0 {
      var n := |urls| - 1;
      DownloadsListed(urls[..n], present, fetch);
      var (done, files) := DownloadsOf(urls[..n], present, fetch);
      forall k | 0 <= k < |done|
        ensures done[k].url in urls
      {
        assert done[k].url in urls[..n];
      }
    }
  }

  /** The catalog grows only by the files of listed downloads. */
  lemma {:induction false} DownloadsFiles(urls: seq<string>, present: set<string>, fetch: string -> bool)
    ensures var (done, files) := DownloadsOf(urls, present, fetch);
      forall f :: f in files ==> f in present || exists k :: 0 <= k < |done| && done[k].file == f
    decreases |urls|
  {
    if |urls| > 0 {
      var n := |urls| - 1;
      DownloadsFiles(urls[..n], present, fetch);
      var (done, files) := DownloadsOf(urls[..n], present, fetch);
      var (done', files') := DownloadsOf(urls, present, fetch);
      forall f | f in files' && f !in present
        ensures exists k :: 0 <= k < |done'| && done'[k].file == f
      {
        if f in files {
          var k :| 0 <= k < |done| && done[k].file == f;
          assert done'[k] == done[k];
        } else {
          assert done'[|done|].file == f;
        }
      }
    }
  }

  /** A URL whose file was in the catalog before the run is listed, whatever the download oracle says. */
  lemma {:induction false} PresentListed(urls: seq<string>, present: set<string>, fetch: string -> bool, i: nat)
    requires i < |urls| && FileName(urls[i]) in present
    ensures Download(urls[i], FileName(urls[i])) in DownloadsOf(urls, present, fetch).0
    decreases |urls|
  {
    var n := |urls| - 1;
    DownloadsListed(urls[..n], present, fetch);
    if i < n {
      assert urls[..n][i] == urls[i];
      PresentListed(urls[..n], present, fetch, i);
    }
  }

  /** When no download fails, every URL is listed. */
  lemma {:induction false} AllListed(urls: seq<string>, present: set<string>, fetch: string -> bool)
    requires forall k :: 0 <= k < |urls| ==> fetch(urls[k])
    ensures |DownloadsOf(urls, present, fetch).0| == |urls|
    decreases |urls|
  {
    if |urls| > 0 {
      var n := |urls| - 1;
      forall k | 0 <= k < n
        ensures fetch(urls[..n][k])
      {
        assert urls[..n][k] == urls[k];
      }
      AllListed(urls[..n], present, fetch);
    }
  }

  // ---------------------------------------------------------------- main

  /** The texts saved for indexing: each listed PDF with a non-empty text, cut to 5000 characters. */
  function PdfData(downloaded: seq<Download>, extract: string -> string): seq<Enrich.PdfText>
    decreases |downloaded|
  {
    if |downloaded| == 0 then []
    else
      var d := downloaded[|downloaded| - 1];
      var text := extract(d.file);
      PdfData(downloaded[..|downloaded| - 1], extract)
        + (if text != "" then [Enrich.PdfText(d.file, Take(text, TextLimit), Some(d.url))] else [])
  }

  /** The extraction loop of `main`. */
  method ExtractTexts(downloaded: seq<Download>, extract: string -> string) returns (data: seq<Enrich.PdfText>)
    ensures data == PdfData(downloaded, extract)
  {
    data := [];
    for i := 0 to |downloaded|
      invariant data == PdfData(downloaded[..i], extract)
    {
      assert downloaded[..i + 1][..i] == downloaded[..i];
      var item := downloaded[i];
      var text := extract(item.file);
      if text != "" {
        data := data + [Enrich.PdfText(item.file, Take(text, TextLimit), Some(item.url))];
      }
    }
    assert downloaded[..|downloaded|] == downloaded;
  }

  /**
   * Each saved text is non-empty, at most 5000 characters, the start of its PDF's text, and
   * carries the URL and file of a listed download.
   */
  lemma {:induction false} PdfDataSpec(downloaded: seq<Download>, extract: string -> string)
    ensures forall e :: e in PdfData(downloaded, extract) ==>
      && e.text != "" && |e.text| <= TextLimit && StartsWith(extract(e.file), e.text)
      && e.url.Some? && Download(e.url.value, e.file) in downloaded
    decreases |downloaded|
  {
    if |downloaded| > 0 {
      var n := |downloaded| - 1;
      PdfDataSpec(downloaded[..n], extract);
      forall e | e in PdfData(downloaded[..n], extract)
        ensures Download(e.url.value, e.file) in downloaded
      {
        assert Download(e.url.value, e.file) in downloaded[..n];
      }
      var text := extract(downloaded[n].file);
      if text != "" {
        assert Take(text, TextLimit) != "" by {
          if |text| > TextLimit {
            assert |Take(text, TextLimit)| == TextLimit;
          }
        }
      }
    }
  }

  /**
   * `main`: nothing is saved when no PDF link is found; otherwise the texts of the found
   * URLs, taken in sorted order, downloaded and extracted.
   */
  method FindPdfsMain(pages: seq<Option<seq<string>>>, present: set<string>, fetch: string -> bool, extract: string -> string)
    returns (data: Option<seq<Enrich.PdfText>>)
    ensures data.None? <==> SiteUrls(pages) == {}
    ensures data.Some? ==> exists urls ::
      && StrictlySorted(urls) && (forall u :: u in urls <==> u in SiteUrls(pages))
      && data.value == PdfData(DownloadsOf(urls, present, fetch).0, extract)
  {
    var urls := FindPdfLinks(pages);
    if |urls| == 0 {
      assert forall u :: u !in SiteUrls(pages);
      return None;
    }
    assert urls[0] in SiteUrls(pages);
    var downloaded, files := DownloadPdfs(urls, present, fetch);
    var texts := ExtractTexts(downloaded, extract);
    data := Some(texts);
  }
}
