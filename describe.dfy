/**
 * `scripts/describe_screenshots.py`: for each page in the screenshot manifest, the saved
 * HTML file is found from its web URL, classified into a page type, and summarised as
 * description lines. Parsing the HTML is not modelled: a page arrives as the values the
 * parser extracts.
 */
module Describe {
  import opened Opt
  import opened Text
  import opened Seqs
  import Indexer
  import Screenshots

  // ---------------------------------------------------------------- the page's file

  /** The file path, below the site directory, of a manifest URL path. */
  function RelPath(urlPath: string): string {
    var rel := LStrip(urlPath, '/');
    if rel == "" || rel == "/" then "index.html"
    else if !EndsWith(rel, ".html") then RStrip(rel, '/') + "/" + Indexer.IndexHtml
    else rel
  }

  /** The site's own `index.html` names an HTML file and is relative. */
  lemma {:induction false} RootFileShape()
    ensures EndsWith("index.html", ".html") && !StartsWith("index.html", "/")
  {
    assert "index.html"[5..] == ".html";
    assert "index.html"[..1] == "i";
  }

  /** A directory's `index.html` names an HTML file, and is relative when the directory is. */
  lemma {:induction false} DirFileShape(d: string)
    requires d != "" && d[0] != '/'
    ensures EndsWith(d + "/" + Indexer.IndexHtml, ".html") && !StartsWith(d + "/" + Indexer.IndexHtml, "/")
  {
    var r := d + "/" + Indexer.IndexHtml;
    assert r[|r| - 5..] == Indexer.IndexHtml[5..];
    assert Indexer.IndexHtml[5..] == ".html";
    assert r[..1] == d[..1];
  }

  /**
   * The rewritten path is relative and names an HTML file: an empty path is the site's
   * `index.html`, an ".html" path is kept, and any other path is a directory whose
   * `index.html` is meant.
   */
  lemma {:induction false} RelPathSpec(urlPath: string)
    ensures EndsWith(RelPath(urlPath), ".html") && !StartsWith(RelPath(urlPath), "/")
    ensures LStrip(urlPath, '/') == "" ==> RelPath(urlPath) == "index.html"
    ensures EndsWith(LStrip(urlPath, '/'), ".html") ==> RelPath(urlPath) == LStrip(urlPath, '/')
    ensures LStrip(urlPath, '/') != "" && !EndsWith(LStrip(urlPath, '/'), ".html") ==>
      exists d :: RelPath(urlPath) == d + "/" + Indexer.IndexHtml && d != "" && d[|d| - 1] != '/'
  {
    var rel := LStrip(urlPath, '/');
    if rel == "" {
      RootFileShape();
    } else if !EndsWith(rel, ".html") {
      var d := RStrip(rel, '/');
      assert d != "" && d[0] == rel[0] by {
        assert rel[0] != '/';
      }
      DirFileShape(d);
    } else {
      assert rel[..1] != "/";
    }
  }

  /** A rewritten path is its own rewrite: it is already a file path. */
  lemma {:induction false} RelPathIdempotent(urlPath: string)
    ensures RelPath(RelPath(urlPath)) == RelPath(urlPath)
  {
    RelPathSpec(urlPath);
    var r := RelPath(urlPath);
    assert r != "" && r[0] != '/';
    RelPathOfHtml(r);
  }

  /** A relative ".html" path is its own file path. */
  lemma {:induction false} RelPathOfHtml(r: string)
    requires r != "" && r[0] != '/' && EndsWith(r, ".html")
    ensures RelPath(r) == r
  {
    assert LStrip(r, '/') == r;
    assert r != "/";
  }

  /** The manifest's "/" for the site's root page leads back to its `index.html`. */
  lemma {:induction false} RelPathOfRoot()
    ensures RelPath(Indexer.PageUrl(Indexer.IndexHtml)) == Indexer.IndexHtml
  {
    Indexer.PageUrlRoot();
    assert LStrip("/", '/') == "";
  }

  lemma {:induction false} LStripOneSlash(d: string)
    requires d == "" || d[0] != '/'
    ensures LStrip("/" + d, '/') == d
  {
    assert ("/" + d)[1..] == d;
  }

  /** The web URL of a directory's `index.html` leads back to that file. */
  lemma {:induction false} RelPathOfDirectory(d: string)
    requires d != "" && d[0] != '/' && d[|d| - 1] != '/' && !EndsWith(d, ".html") && !Contains(d, Indexer.IndexHtml)
    ensures RelPath(Indexer.PageUrl(d + "/" + Indexer.IndexHtml)) == d + "/" + Indexer.IndexHtml
  {
    Indexer.PageUrlOfDirectory(d);
    LStripOneSlash(d);
  }

  /** The web URL of another HTML file leads back to that file. */
  lemma {:induction false} RelPathOfFile(file: string)
    requires file != "" && file[0] != '/' && EndsWith(file, ".html") && !Contains(file, Indexer.IndexHtml)
    ensures RelPath(Indexer.PageUrl(file)) == file
  {
    assert file[|file| - 1] == ".html"[4];
    Indexer.PageUrlOfFile(file);
    LStripOneSlash(file);
  }

  /**
   * The file `describe_from_html` reads: the rewritten path if it exists, else that path
   * with ".html" appended, else none.
   */
  function SiteFile(urlPath: string, isFile: string -> bool): Option<string> {
    var rel := RelPath(urlPath);
    if isFile(rel) then Some(rel)
    else
      var alt := RStrip(rel, '/') + ".html";
      if isFile(alt) then Some(alt) else None
  }

  /**
   * The fallback always tries a name ending in ".html.html": the rewritten path already ends
   * in ".html", so the fallback finds a file only where the site has such a doubled name.
   */
  lemma {:induction false} FallbackDoubled(urlPath: string, isFile: string -> bool)
    ensures SiteFile(urlPath, isFile).Some? ==>
      SiteFile(urlPath, isFile).value == RelPath(urlPath) || EndsWith(SiteFile(urlPath, isFile).value, ".html" + ".html")
  {
    var rel := RelPath(urlPath);
    RelPathSpec(urlPath);
    RStripKeeps(rel, ".html");
    EndsWithAppend(rel, ".html", ".html");
  }

  /** Stripping '/' from a name ending in ".html" keeps it. */
  lemma {:induction false} RStripKeeps(s: string, e: string)
    requires EndsWith(s, e) && e == ".html"
    ensures RStrip(s, '/') == s
  {
    assert s[|s| - 1] == e[4];
  }

  lemma {:induction false} EndsWithAppend(a: string, b: string, c: string)
    requires EndsWith(a, b)
    ensures EndsWith(a + c, b + c)
  {
    assert (a + c)[|a + c| - |b + c|..] == a[|a| - |b|..] + c;
  }

  // ---------------------------------------------------------------- page type

  datatype PageType =
    | Homepage | KitchenCategory | BathroomCategory | ProductDetail | FurnitureCategory
    | ProjectDetail | ProjectOverview | Article | ArticleOverview | ContactPage
    | CatalogDownloads | AboutCompany | Studios | Careers | General

  /** The label the description shows for a page type. */
  function Label(t: PageType): string {
    match t
    case Homepage => "domovská stránka (homepage)"
    case KitchenCategory => "kategorie - kuchyně"
    case BathroomCategory => "kategorie - koupelny"
    case ProductDetail => "detail produktu"
    case FurnitureCategory => "kategorie nábytku"
    case ProjectDetail => "detail realizace"
    case ProjectOverview => "přehled realizací"
    case Article => "článek/aktualita"
    case ArticleOverview => "přehled aktualit"
    case ContactPage => "kontaktní stránka"
    case CatalogDownloads => "katalogy ke stažení"
    case AboutCompany => "o firmě / proč Hanák"
    case Studios => "studia / showroomy"
    case Careers => "kariéra"
    case General => "obecná stránka"
  }

  /** The page type of a URL path: the first rule that matches the lower-cased path. */
  function Classify(urlPath: string): PageType {
    var u := Lower(urlPath);
    if u == "/" || u == "/index.html" then Homepage
    else if Contains(u, "/nabytek/kuchyne") then KitchenCategory
    else if Contains(u, "/nabytek/koupelny") then BathroomCategory
    else if Contains(u, "/nabytek/") && Contains(u, "/detail/") then ProductDetail
    else if Contains(u, "/nabytek/") then FurnitureCategory
    else if Contains(u, "/realizace/detail/") then ProjectDetail
    else if Contains(u, "/realizace") then ProjectOverview
    else if Contains(u, "/aktualne/detail/") then Article
    else if Contains(u, "/aktualne") then ArticleOverview
    else if Contains(u, "/kontakt") then ContactPage
    else if Contains(u, "/katalogy") then CatalogDownloads
    else if Contains(u, "/proc-hanak") then AboutCompany
    else if Contains(u, "/studia") then Studios
    else if Contains(u, "/kariera") then Careers
    else General
  }

  /** The path fragments some rule looks for; a path with none of them is a general page. */
  const Fragments: seq<string> :=
    ["/nabytek/", "/realizace", "/aktualne", "/kontakt", "/katalogy", "/proc-hanak", "/studia", "/kariera"]

  /** A longer fragment holds the one its rule falls back to. */
  lemma {:induction false} FragmentWithin(a: string, b: string, u: string)
    requires StartsWith(a, b) && Contains(u, a)
    ensures Contains(u, b)
  {
    StartsWithContains(a, b);
    ContainsTransitive(u, a, b);
  }

  /**
   * "/" and "/index.html" in any letter case are the homepage, and a path is a general page
   * exactly when it is not the homepage and holds none of the rules' fragments.
   */
  lemma {:induction false} ClassifyGeneral(urlPath: string)
    ensures Classify(urlPath) == Homepage <==> Lower(urlPath) == "/" || Lower(urlPath) == "/index.html"
    ensures Classify(urlPath) == General <==>
      Lower(urlPath) != "/" && Lower(urlPath) != "/index.html" && !ContainsAny(Lower(urlPath), Fragments)
  {
    var u := Lower(urlPath);
    ContainsAnySpec(u, Fragments);
    FallbackFragments(u);
  }

  /** Each longer fragment a rule looks for holds the fragment of a later rule. */
  lemma {:induction false} FallbackFragments(u: string)
    ensures Contains(u, "/nabytek/kuchyne") ==> Contains(u, "/nabytek/")
    ensures Contains(u, "/nabytek/koupelny") ==> Contains(u, "/nabytek/")
    ensures Contains(u, "/realizace/detail/") ==> Contains(u, "/realizace")
    ensures Contains(u, "/aktualne/detail/") ==> Contains(u, "/aktualne")
  {
    if Contains(u, "/nabytek/kuchyne") {
      FragmentWithin("/nabytek/kuchyne", "/nabytek/", u);
    }
    if Contains(u, "/nabytek/koupelny") {
      FragmentWithin("/nabytek/koupelny", "/nabytek/", u);
    }
    if Contains(u, "/realizace/detail/") {
      FragmentWithin("/realizace/detail/", "/realizace", u);
    }
    if Contains(u, "/aktualne/detail/") {
      FragmentWithin("/aktualne/detail/", "/aktualne", u);
    }
  }

  /** The kitchen rule comes before the generic furniture rule: a kitchen path is a kitchen category. */
  lemma {:induction false} KitchenBeforeFurniture(urlPath: string)
    requires Contains(Lower(urlPath), "/nabytek/kuchyne")
    ensures Classify(urlPath) == KitchenCategory
  {
    var u := Lower(urlPath);
    assert |u| >= 16;
  }

  /** The homepage paths hold no furniture fragment. */
  lemma {:induction false} HomepageNoFurniture()
    ensures !Contains("/", "/nabytek/") && !Contains("/index.html", "/nabytek/")
  {
    var h := "/index.html";
    forall i | 0 <= i <= |h|
      ensures !MatchAt(h, "/nabytek/", i)
    {
      if i == 0 {
        assert h[i..i + 9][1] != "/nabytek/"[1];
      } else if i <= 2 {
        assert h[i..i + 9][0] != "/nabytek/"[0];
      }
    }
  }

  /**
   * The product-detail rule comes before the generic furniture rule: a furniture category
   * page never has "/detail/" in its path, and a kitchen or bathroom path is never one.
   */
  lemma {:induction false} DetailBeforeFurniture(urlPath: string)
    ensures Classify(urlPath) == FurnitureCategory ==>
      var u := Lower(urlPath);
      Contains(u, "/nabytek/") && !Contains(u, "/detail/")
      && !Contains(u, "/nabytek/kuchyne") && !Contains(u, "/nabytek/koupelny")
    ensures (Contains(Lower(urlPath), "/nabytek/") && Contains(Lower(urlPath), "/detail/")
      && !Contains(Lower(urlPath), "/nabytek/kuchyne") && !Contains(Lower(urlPath), "/nabytek/koupelny")) ==>
      Classify(urlPath) == ProductDetail
  {
    HomepageNoFurniture();
  }

  /** The classification ignores ASCII letter case. */
  lemma ClassifyIgnoresCase(a: string, b: string)
    requires Lower(a) == Lower(b)
    ensures Classify(a) == Classify(b)
  {
  }

  // ---------------------------------------------------------------- layout

  datatype Layout = Gallery | TextWithImages | MostlyText

  /** The layout guess from the number of images. */
  function LayoutOf(imgCount: nat): (l: Layout)
    ensures l == Gallery <==> imgCount > 5
    ensures l == TextWithImages <==> 1 <= imgCount <= 5
    ensures l == MostlyText <==> imgCount == 0
  {
    if imgCount > 5 then Gallery
    else if imgCount > 0 then TextWithImages
    else MostlyText
  }

  function LayoutLine(l: Layout): string {
    match l
    case Gallery => "Layout: galerie/grid s mnoha obrázky"
    case TextWithImages => "Layout: textová stránka s obrázky"
    case MostlyText => "Layout: převážně textová stránka"
  }

  /** How image-heavy a layout is. */
  function LayoutRank(l: Layout): nat {
    match l
    case MostlyText => 0
    case TextWithImages => 1
    case Gallery => 2
  }

  /** A page with more images never gets a less image-heavy layout. */
  lemma LayoutMonotone(a: nat, b: nat)
    requires a <= b
    ensures LayoutRank(LayoutOf(a)) <= LayoutRank(LayoutOf(b))
  {
  }

  /** The three layout lines differ, so a description's last line tells its layout. */
  lemma LayoutLineDistinct(l: Layout, l': Layout)
    ensures LayoutLine(l) == LayoutLine(l') <==> l == l'
  {
    if l != l' {
      var a, b := LayoutLine(l), LayoutLine(l');
      assert a[8] != b[8] || a[9] != b[9] || |a| != |b|;
    }
  }

  // ---------------------------------------------------------------- navigation links

  /**
   * What the parser extracts from a page: the title text, the meta description, the texts
   * of the `h1` and `h2` headings, the number of images, and for each `nav` or `ul` element
   * the texts of its links that have an `href`.
   */
  datatype Page = Page(title: string, metaDesc: string, h1s: seq<string>, h2s: seq<string>,
                       imgCount: nat, navs: seq<seq<string>>)

  /** A navigation text is kept when it is non-empty and shorter than 50 characters. */
  predicate NavText(text: string) {
    text != "" && |text| < 50
  }

  /** The navigation texts: from each element's first ten links, those that are kept. */
  function NavLinksOf(navs: seq<seq<string>>): seq<string>
    decreases |navs|
  {
    if |navs| == 0 then []
    else NavLinksOf(navs[..|navs| - 1]) + Filter(NavText, Prefix(navs[|navs| - 1], 10))
  }

  /** The nested loop over the navigation elements and their links. */
  method CollectNavLinks(navs: seq<seq<string>>) returns (links: seq<string>)
    ensures links == NavLinksOf(navs)
  {
    links := [];
    for i := 0 to |navs|
      invariant links == NavLinksOf(navs[..i])
    {
      assert navs[..i + 1][..i] == navs[..i];
      links := AddNavTexts(links, Prefix(navs[i], 10));
    }
    assert navs[..|navs|] == navs;
  }

  /** The inner loop: the kept texts of one element's first links, appended in order. */
  method AddNavTexts(links: seq<string>, anchors: seq<string>) returns (r: seq<string>)
    ensures r == links + Filter(NavText, anchors)
  {
    r := links;
    for j := 0 to |anchors|
      invariant r == links + Filter(NavText, anchors[..j])
    {
      assert anchors[..j + 1] == anchors[..j] + [anchors[j]];
      FilterSnoc(NavText, anchors[..j], anchors[j]);
      var text := anchors[j];
      if text != "" && |text| < 50 {
        AppendAssoc(links, Filter(NavText, anchors[..j]), [text]);
        r := r + [text];
      }
    }
    assert anchors[..|anchors|] == anchors;
  }

  /** Every navigation text is non-empty, shorter than 50 characters, and one of the first ten links of some element. */
  lemma {:induction false} NavLinksSpec(navs: seq<seq<string>>)
    ensures forall t :: t in NavLinksOf(navs) ==>
      NavText(t) && exists i :: 0 <= i < |navs| && t in Prefix(navs[i], 10)
    decreases |navs|
  {
    if |navs| > 0 {
      var n := |navs| - 1;
      NavLinksSpec(navs[..n]);
      forall t | t in NavLinksOf(navs)
        ensures NavText(t) && exists i :: 0 <= i < |navs| && t in Prefix(navs[i], 10)
      {
        if t in NavLinksOf(navs[..n]) {
          var i :| 0 <= i < n && t in Prefix(navs[..n][i], 10);
          assert navs[..n][i] == navs[i];
        } else {
          FilterMembership(NavText, Prefix(navs[n], 10), t);
        }
      }
    }
  }

  // ---------------------------------------------------------------- the description

  const TypePrefix: string := "Typ stránky: "
  const CountPrefix: string := "Počet obrázků: "

  function TypeLine(t: PageType): string { TypePrefix + Label(t) }
  function TitleLine(p: Page): string { "Titulek: " + p.title }
  function MetaLine(p: Page): string { "Popis: " + p.metaDesc }
  function HeadingLine(p: Page): string { "Hlavní nadpis: " + Join(Prefix(p.h1s, 3), ", ") }
  function SectionLine(p: Page): string { "Sekce: " + Join(Prefix(p.h2s, 5), ", ") }
  function CountLine(p: Page): string { CountPrefix + NatToString(p.imgCount) }
  function NavLine(links: seq<string>): string { "Navigace obsahuje: " + Join(Prefix(links, 8), ", ") }

  /** A line that is present only when its condition holds. */
  function When(c: bool, line: string): seq<string> {
    if c then [line] else []
  }

  /** The lines before the image count: the type, then the title, description and headings when present. */
  function HeadLines(p: Page, t: PageType): seq<string> {
    [TypeLine(t)] + When(p.title != "", TitleLine(p)) + When(p.metaDesc != "", MetaLine(p))
    + When(|p.h1s| > 0, HeadingLine(p)) + When(|Prefix(p.h2s, 5)| > 0, SectionLine(p))
  }

  /** The lines after the image count: the navigation texts when present, then the layout. */
  function TailLines(p: Page): seq<string> {
    When(|NavLinksOf(p.navs)| > 0, NavLine(NavLinksOf(p.navs))) + [LayoutLine(LayoutOf(p.imgCount))]
  }

  /** The description: its lines joined with newlines. */
  function Description(p: Page, t: PageType): string {
    Join(HeadLines(p, t) + [CountLine(p)] + TailLines(p), "\n")
  }

  /** The first lines of the `parts` list of `describe_from_html`, built line by line. */
  method HeadParts(p: Page, t: PageType) returns (parts: seq<string>)
    ensures parts == HeadLines(p, t)
  {
    parts := [TypeLine(t)];
    if p.title != "" {
      parts := parts + [TitleLine(p)];
    }
    assert parts == [TypeLine(t)] + When(p.title != "", TitleLine(p));
    ghost var before := parts;
    if p.metaDesc != "" {
      parts := parts + [MetaLine(p)];
    }
    assert parts == before + When(p.metaDesc != "", MetaLine(p));
    before := parts;
    if |p.h1s| > 0 {
      parts := parts + [HeadingLine(p)];
    }
    assert parts == before + When(|p.h1s| > 0, HeadingLine(p));
    before := parts;
    var h2s := Prefix(p.h2s, 5);
    if |h2s| > 0 {
      parts := parts + [SectionLine(p)];
    }
    assert parts == before + When(|h2s| > 0, SectionLine(p));
  }

  /** The last lines of the `parts` list: the navigation texts when there are any, then the layout. */
  method TailParts(p: Page) returns (parts: seq<string>)
    ensures parts == TailLines(p)
  {
    parts := [];
    var nav := CollectNavLinks(p.navs);
    if |nav| > 0 {
      parts := parts + [NavLine(nav)];
    }
    assert parts == When(|nav| > 0, NavLine(nav));
    var layout := if p.imgCount > 5 then Gallery else if p.imgCount > 0 then TextWithImages else MostlyText;
    parts := parts + [LayoutLine(layout)];
  }

  /** The `parts` list of `describe_from_html`, joined with newlines. */
  method BuildDescription(p: Page, t: PageType) returns (desc: string)
    ensures desc == Description(p, t)
  {
    var head := HeadParts(p, t);
    var tail := TailParts(p);
    var parts := head + [CountLine(p)] + tail;
    desc := Join(parts, "\n");
  }

  /**
   * The description's first line is the page type, the image count is a line of its own
   * inside it, and its last line is the layout guess.
   */
  lemma {:induction false} DescriptionSpec(p: Page, t: PageType)
    ensures StartsWith(Description(p, t), TypeLine(t) + "\n")
    ensures Contains(Description(p, t), "\n" + CountLine(p) + "\n")
    ensures EndsWith(Description(p, t), LayoutLine(LayoutOf(p.imgCount)))
  {
    var head := HeadLines(p, t);
    var tail := TailLines(p);
    CountInside(head, CountLine(p), tail);
    TypeFirst(head, [CountLine(p)] + tail, t);
    AppendAssoc(head, [CountLine(p)], tail);
    JoinLast(head + [CountLine(p)] + tail, "\n");
  }

  /** A line with lines on both sides is surrounded by newlines in the join. */
  lemma {:induction false} CountInside(head: seq<string>, line: string, tail: seq<string>)
    requires |head| > 0 && |tail| > 0
    ensures Contains(Join(head + [line] + tail, "\n"), "\n" + line + "\n")
  {
    var nl := "\n";
    JoinAppend(head, [line] + tail, nl);
    AppendAssoc(head, [line], tail);
    JoinAppend([line], tail, nl);
    var a := Join(head, nl);
    var b := Join(tail, nl);
    AppendAssoc(a + nl, line + nl, b);
    AppendAssoc(a, nl, line + nl);
    AppendAssoc(nl, line, nl);
    MatchInMiddle(a, nl + line + nl, b);
  }

  /** The first line, followed by the separator, starts the join of two or more lines. */
  lemma {:induction false} TypeFirst(head: seq<string>, rest: seq<string>, t: PageType)
    requires |head| > 0 && head[0] == TypeLine(t) && |rest| > 0
    ensures StartsWith(Join(head + rest, "\n"), TypeLine(t) + "\n")
  {
    var lines := head + rest;
    assert lines[0] == TypeLine(t) && |lines| > 1;
    assert Join(lines, "\n") == TypeLine(t) + "\n" + Join(lines[1..], "\n");
  }

  /**
   * `describe_from_html`: the description of the page's file, or none when no file exists
   * or reading it fails.
   */
  function DescribeFromHtml(urlPath: string, isFile: string -> bool, read: string -> Option<Page>): Option<string> {
    match SiteFile(urlPath, isFile)
    case None => None
    case Some(file) =>
      match read(file)
      case None => None
      case Some(p) => Some(Description(p, Classify(urlPath)))
  }

  // ---------------------------------------------------------------- main

  /** A summary entry: the screenshot, its description file and the description. */
  datatype Entry = Entry(screenshot: string, descriptionFile: string, description: string)

  /** The description file's name: the screenshot's name with ".png" replaced by ".txt". */
  function TxtName(screenshot: string): string {
    Replace(screenshot, ".png", ".txt")
  }

  /** A screenshot named by `url_to_filename` gets its description file under the same name, ending ".txt". */
  lemma {:induction false} TxtNameOfScreenshot(rel: string)
    ensures TxtName(Screenshots.UrlToFilename(rel)) == Screenshots.Sanitize(Screenshots.PlainName(rel)) + ".txt"
  {
    var n := Screenshots.Sanitize(Screenshots.PlainName(rel));
    var s := n + ".png";
    assert MatchAt(s, ".png", |n|);
    forall j | 0 <= j < |n|
      ensures !MatchAt(s, ".png", j)
    {
      assert s[j..j + 4][0] == n[j];
    }
    IndexOfIs(s, ".png", |n|);
    ReplaceStep(s, ".png", ".txt", |n|);
    assert s[..|n|] == n;
    assert s[|n| + 4..] == "";
  }

  /** `describe_from_html` with the site's files fixed, as the function `main` applies to each manifest URL. */
  function Describer(isFile: string -> bool, read: string -> Option<Page>): string -> Option<string> {
    u => DescribeFromHtml(u, isFile, read)
  }

  /** The summary after the manifest's entries: each described page maps to its entry. */
  function DescriptionsOf(manifest: seq<(string, string)>, describe: string -> Option<string>): map<string, Entry>
    decreases |manifest|
  {
    if |manifest| == 0 then map[]
    else
      var m := DescriptionsOf(manifest[..|manifest| - 1], describe);
      var (urlPath, shot) := manifest[|manifest| - 1];
      var desc := describe(urlPath);
      if desc.Some? && desc.value != "" then m[urlPath := Entry(shot, TxtName(shot), desc.value)] else m
  }

  /** The loop of `main` over the manifest. */
  method DescribeAll(manifest: seq<(string, string)>, isFile: string -> bool, read: string -> Option<Page>)
    returns (descriptions: map<string, Entry>)
    ensures descriptions == DescriptionsOf(manifest, Describer(isFile, read))
  {
    descriptions := map[];
    for i := 0 to |manifest|
      invariant descriptions == DescriptionsOf(manifest[..i], Describer(isFile, read))
    {
      assert manifest[..i + 1][..i] == manifest[..i];
      var (urlPath, shot) := manifest[i];
      var desc := DescribeFromHtml(urlPath, isFile, read);
      if desc.Some? && desc.value != "" {
        descriptions := descriptions[urlPath := Entry(shot, TxtName(shot), desc.value)];
      }
    }
    assert manifest[..|manifest|] == manifest;
  }

  predicate Described(manifest: seq<(string, string)>, describe: string -> Option<string>, i: int) {
    0 <= i < |manifest| && describe(manifest[i].0).Some? && describe(manifest[i].0).value != ""
  }

  /** The summary's keys are exactly the manifest URLs whose page got a non-empty description. */
  lemma {:induction false} DescriptionsKeys(manifest: seq<(string, string)>, describe: string -> Option<string>)
    ensures forall u :: u in DescriptionsOf(manifest, describe) <==>
      exists i :: Described(manifest, describe, i) && manifest[i].0 == u
    decreases |manifest|
  {
    if |manifest| > 0 {
      var n := |manifest| - 1;
      var init := manifest[..n];
      DescriptionsKeys(init, describe);
      forall u
        ensures u in DescriptionsOf(manifest, describe) <==> exists i :: Described(manifest, describe, i) && manifest[i].0 == u
      {
        if u in DescriptionsOf(init, describe) {
          var i :| Described(init, describe, i) && init[i].0 == u;
          assert manifest[i] == init[i];
          assert Described(manifest, describe, i);
        }
        if i :| Described(manifest, describe, i) && manifest[i].0 == u {
          if i < n {
            assert manifest[i] == init[i];
            assert Described(init, describe, i);
          }
        }
      }
    }
  }

  /** Each summary entry names its screenshot, its description file, and the description of its URL. */
  lemma {:induction false} DescriptionsEntries(manifest: seq<(string, string)>, describe: string -> Option<string>)
    ensures forall u :: u in DescriptionsOf(manifest, describe) ==>
      var e := DescriptionsOf(manifest, describe)[u];
      e.descriptionFile == TxtName(e.screenshot) && describe(u) == Some(e.description)
    decreases |manifest|
  {
    if |manifest| > 0 {
      DescriptionsEntries(manifest[..|manifest| - 1], describe);
    }
  }

  /** Every description in the summary starts with its page type's line. */
  lemma {:induction false} SummaryTyped(manifest: seq<(string, string)>, isFile: string -> bool, read: string -> Option<Page>)
    ensures forall u :: u in DescriptionsOf(manifest, Describer(isFile, read)) ==>
      StartsWith(DescriptionsOf(manifest, Describer(isFile, read))[u].description, TypeLine(Classify(u)))
  {
    DescriptionsEntries(manifest, Describer(isFile, read));
    forall u | u in DescriptionsOf(manifest, Describer(isFile, read))
      ensures StartsWith(DescriptionsOf(manifest, Describer(isFile, read))[u].description, TypeLine(Classify(u)))
    {
      assert Describer(isFile, read)(u) == DescribeFromHtml(u, isFile, read);
      DescribedStart(u, isFile, read);
    }
  }

  /** A produced description is non-empty and starts with the page type's line. */
  lemma {:induction false} DescribedStart(urlPath: string, isFile: string -> bool, read: string -> Option<Page>)
    requires DescribeFromHtml(urlPath, isFile, read).Some?
    ensures DescribeFromHtml(urlPath, isFile, read).value != ""
    ensures StartsWith(DescribeFromHtml(urlPath, isFile, read).value, TypeLine(Classify(urlPath)))
  {
    var file := SiteFile(urlPath, isFile).value;
    var p := read(file).value;
    DescriptionSpec(p, Classify(urlPath));
  }
}
