/**
 * `scripts/take_screenshots.py`: which saved pages get a screenshot, the file name of each
 * screenshot, and the manifest from web URL to file name. The browser is an oracle saying
 * whether the screenshot of a URL succeeded.
 */
module Screenshots {
  import opened Opt
  import opened Text
  import opened Seqs
  import opened Indexer

  const BaseUrl: string := "http://localhost:8090"

  /** The language directories, as `f"/{lang}/"` for "de", "en", "fr", "ru" and "sk". */
  const LanguageDirs: seq<string> := ["/de/", "/en/", "/fr/", "/ru/", "/sk/"]

  // ---------------------------------------------------------------- get_important_pages

  /** A page is kept unless it lies in a language directory, adds a favourite, has a query or is a page of a listing. */
  predicate Important(rel: string) {
    && !ContainsAny("/" + rel, LanguageDirs)
    && !Contains(rel, "oblibene/pridat")
    && !Contains(rel, "?")
    && !Contains(rel, "strana-")
  }

  /** The loop of `get_important_pages` over the sorted HTML files. */
  method ImportantPages(files: seq<string>) returns (pages: seq<string>)
    ensures pages == Filter(Important, files)
  {
    pages := [];
    for i := 0 to |files|
      invariant pages == Filter(Important, files[..i])
    {
      assert files[..i + 1] == files[..i] + [files[i]];
      FilterSnoc(Important, files[..i], files[i]);
      var rel := files[i];
      if ContainsAny("/" + rel, LanguageDirs) {
        continue;
      }
      if Contains(rel, "oblibene/pridat") {
        continue;
      }
      if Contains(rel, "?") {
        continue;
      }
      if Contains(rel, "strana-") {
        continue;
      }
      pages := pages + [rel];
    }
    assert files[..|files|] == files;
  }

  /** A page whose slash-prefixed path holds a language directory is not kept. */
  lemma {:induction false} InLanguageDir(rel: string, k: nat)
    requires k < |LanguageDirs| && Contains("/" + rel, LanguageDirs[k])
    ensures !Important(rel)
  {
    ContainsAnySpec("/" + rel, LanguageDirs);
  }

  /**
   * A page in a language directory is never kept, whether the directory is at the top of
   * the site or nested deeper.
   */
  lemma {:induction false} LanguageDirRejected(k: nat, a: string, b: string)
    requires k < |LanguageDirs|
    ensures !Important(LanguageDirs[k][1..] + b)
    ensures !Important(a + LanguageDirs[k] + b)
  {
    var dir := LanguageDirs[k];
    LanguageDirShape(k);
    TopLevelDir(dir, b);
    InLanguageDir(dir[1..] + b, k);
    MatchInMiddle("/" + a, dir, b);
    assert "/" + (a + dir + b) == "/" + a + dir + b;
    InLanguageDir(a + dir + b, k);
  }

  /** Each language directory starts with '/'. */
  lemma {:induction false} LanguageDirShape(k: nat)
    requires k < |LanguageDirs|
    ensures |LanguageDirs[k]| == 4 && LanguageDirs[k][0] == '/'
  {
    if k == 0 {
      assert LanguageDirs[0] == "/de/";
    } else if k == 1 {
      assert LanguageDirs[1] == "/en/";
    } else if k == 2 {
      assert LanguageDirs[2] == "/fr/";
    } else if k == 3 {
      assert LanguageDirs[3] == "/ru/";
    } else {
      assert LanguageDirs[4] == "/sk/";
    }
  }

  /** A directory written with its leading '/' occurs in "/" + the path below it. */
  lemma {:induction false} TopLevelDir(dir: string, b: string)
    requires |dir| > 0 && dir[0] == '/'
    ensures Contains("/" + (dir[1..] + b), dir)
  {
    assert "/" + (dir[1..] + b) == dir + b;
    assert StartsWith(dir + b, dir);
    StartsWithContains(dir + b, dir);
  }

  /** The kept pages are exactly the important input files, in the input's order. */
  lemma {:induction false} ImportantPagesSpec(files: seq<string>) returns (idx: seq<nat>)
    ensures forall rel :: rel in Filter(Important, files) <==> rel in files && Important(rel)
    ensures |idx| == |Filter(Important, files)| && Increasing(idx)
    ensures forall k :: 0 <= k < |idx| ==> idx[k] < |files| && Filter(Important, files)[k] == files[idx[k]]
  {
    forall rel
      ensures rel in Filter(Important, files) <==> rel in files && Important(rel)
    {
      FilterMembership(Important, files, rel);
    }
    idx := FilterOrder(Important, files);
  }

  // ---------------------------------------------------------------- url_to_filename

  predicate SafeChar(c: char) {
    IsAsciiLetter(c) || IsDigit(c) || c == '_' || c == '-'
  }

  predicate AllSafe(s: string) {
    forall i :: 0 <= i < |s| ==> SafeChar(s[i])
  }

  /** `re.sub(r'[^a-zA-Z0-9_-]', '_', s)`. */
  function Sanitize(s: string): (r: string)
    ensures |r| == |s| && AllSafe(r)
    ensures forall i :: 0 <= i < |s| ==> (SafeChar(s[i]) <==> r[i] == s[i])
  {
    seq(|s|, i requires 0 <= i < |s| => if SafeChar(s[i]) then s[i] else '_')
  }

  /** Sanitising a safe name changes nothing, so sanitising is idempotent. */
  lemma SanitizeSafe(s: string)
    requires AllSafe(s)
    ensures Sanitize(s) == s
  {
  }

  /** The page's name before sanitising: "/" as "__" and ".html" removed. */
  function PlainName(rel: string): string {
    Replace(Replace(rel, "/", "__"), ".html", "")
  }

  /** `url_to_filename`. */
  function UrlToFilename(rel: string): string {
    Sanitize(PlainName(rel)) + ".png"
  }

  /**
   * A screenshot's file name ends in ".png", and everything before the suffix is the page's
   * plain name with each unsafe character turned into '_'.
   */
  lemma {:induction false} UrlToFilenameSpec(rel: string)
    ensures var f := UrlToFilename(rel);
      && EndsWith(f, ".png") && |f| == |PlainName(rel)| + 4
      && AllSafe(f[..|f| - 4])
      && forall i :: 0 <= i < |f| - 4 ==> (f[i] == PlainName(rel)[i] || f[i] == '_')
  {
    var n := Sanitize(PlainName(rel));
    var f := n + ".png";
    assert f[..|f| - 4] == n;
    assert f[|f| - 4..] == ".png";
  }

  /** The plain name has no '/': every '/' became "__". */
  lemma {:induction false} PlainNameNoSlash(rel: string)
    ensures '/' !in PlainName(rel)
  {
    var a := Replace(rel, "/", "__");
    ReplaceCharGone(rel, '/', "__");
    ReplaceKeepsAbsent(a, ".html", "", '/');
  }

  // ---------------------------------------------------------------- main

  /** The address the browser opens for a page. */
  function LocalUrl(rel: string): string {
    BaseUrl + "/" + rel
  }

  /**
   * The manifest after the pages in order: a page whose screenshot succeeded maps its web
   * URL, the one the indexer gives the page, to its file name; a failed one adds nothing.
   */
  function ManifestOf(pages: seq<string>, shot: string -> bool): map<string, string>
    decreases |pages|
  {
    if |pages| == 0 then map[]
    else
      var m := ManifestOf(pages[..|pages| - 1], shot);
      var rel := pages[|pages| - 1];
      if shot(LocalUrl(rel)) then m[PageUrl(rel) := UrlToFilename(rel)] else m
  }

  /** The screenshot loop of `main`. */
  method TakeScreenshots(pages: seq<string>, shot: string -> bool) returns (manifest: map<string, string>)
    ensures manifest == ManifestOf(pages, shot)
  {
    manifest := map[];
    for i := 0 to |pages|
      invariant manifest == ManifestOf(pages[..i], shot)
    {
      assert pages[..i + 1][..i] == pages[..i];
      var rel := pages[i];
      var url := BaseUrl + "/" + rel;
      var filename := UrlToFilename(rel);
      if shot(url) {
        var webUrl := "/" + RStrip(Replace(rel, "index.html", ""), '/');
        manifest := manifest[webUrl := filename];
      }
    }
    assert pages[..|pages|] == pages;
  }

  /** `main`: the important pages, then their screenshots. */
  method ScreenshotSite(files: seq<string>, shot: string -> bool) returns (manifest: map<string, string>)
    ensures manifest == ManifestOf(Filter(Important, files), shot)
  {
    var pages := ImportantPages(files);
    manifest := TakeScreenshots(pages, shot);
  }

  predicate Succeeded(pages: seq<string>, shot: string -> bool, i: int) {
    0 <= i < |pages| && shot(LocalUrl(pages[i]))
  }

  /** No later page with a successful screenshot has the same web URL as page `i`. */
  predicate LastWithUrl(pages: seq<string>, shot: string -> bool, i: int) {
    forall j :: 0 <= i < j < |pages| && Succeeded(pages, shot, j) ==> PageUrl(pages[j]) != PageUrl(pages[i])
  }

  /** The manifest's keys are exactly the web URLs of the pages whose screenshot succeeded. */
  lemma {:induction false} ManifestKeys(pages: seq<string>, shot: string -> bool)
    ensures forall u :: u in ManifestOf(pages, shot) <==>
      exists i :: Succeeded(pages, shot, i) && PageUrl(pages[i]) == u
    decreases |pages|
  {
    if |pages| > 0 {
      var n := |pages| - 1;
      var init := pages[..n];
      ManifestKeys(init, shot);
      forall u
        ensures u in ManifestOf(pages, shot) <==> exists i :: Succeeded(pages, shot, i) && PageUrl(pages[i]) == u
      {
        if u in ManifestOf(init, shot) {
          var i :| Succeeded(init, shot, i) && PageUrl(init[i]) == u;
          assert pages[i] == init[i];
          assert Succeeded(pages, shot, i);
        }
        if i :| Succeeded(pages, shot, i) && PageUrl(pages[i]) == u {
          if i < n {
            assert pages[i] == init[i];
            assert Succeeded(init, shot, i);
          }
        }
      }
    }
  }

  /** Every manifest key is a site path starting with "/". */
  lemma {:induction false} ManifestKeysRooted(pages: seq<string>, shot: string -> bool)
    ensures forall u :: u in ManifestOf(pages, shot) ==> StartsWith(u, "/")
  {
    ManifestKeys(pages, shot);
  }

  /**
   * A page whose screenshot succeeded, with no later successful page sharing its web URL,
   * has its own file name in the manifest: a later page overwrites an earlier one.
   */
  lemma {:induction false} ManifestLastWins(pages: seq<string>, shot: string -> bool)
    ensures forall i :: Succeeded(pages, shot, i) && LastWithUrl(pages, shot, i) ==>
      PageUrl(pages[i]) in ManifestOf(pages, shot) && ManifestOf(pages, shot)[PageUrl(pages[i])] == UrlToFilename(pages[i])
    decreases |pages|
  {
    if |pages| > 0 {
      var n := |pages| - 1;
      var init := pages[..n];
      ManifestLastWins(init, shot);
      forall i | Succeeded(pages, shot, i) && LastWithUrl(pages, shot, i)
        ensures PageUrl(pages[i]) in ManifestOf(pages, shot) && ManifestOf(pages, shot)[PageUrl(pages[i])] == UrlToFilename(pages[i])
      {
        if i < n {
          assert pages[i] == init[i];
          forall j | 0 <= i < j < n && Succeeded(init, shot, j)
            ensures PageUrl(init[j]) != PageUrl(init[i])
          {
            assert pages[j] == init[j];
            assert Succeeded(pages, shot, j);
          }
          assert Succeeded(init, shot, i) && LastWithUrl(init, shot, i);
        }
      }
    }
  }

  /** The manifest key of a page is the URL the indexer stores for the same page. */
  lemma ManifestKeyIsPageUrl(rel: string)
    ensures "/" + RStrip(Replace(rel, "index.html", ""), '/') == PageUrl(rel)
  {
  }
}
