/**
 * The indexer: turns each scraped HTML page into a record with a URL, a category, a
 * first image and text chunks, adds the image descriptions, removes chunks whose ID was
 * already seen and sends everything to the vector collection in batches of 50.
 *
 * HTML parsing is abstracted: a page arrives as the values the parser would have found
 * (the `lang` attribute, the title, the meta tags, the `img` sources and the page text).
 * The MD5 digest that names each chunk is the parameter `hash`, about which nothing is
 * assumed, collision-freedom included.
 */
module Indexer {
  import opened Opt
  import opened Text
  import opened Seqs
  import opened PosixPath
  import opened PageText

  const BatchSize: nat := 50
  const MinTextLength: nat := 50

  // ---------------------------------------------------------------- language filter

  /** A page is kept unless its `lang` is set to something not starting with "cs". */
  predicate IsCzech(lang: string) {
    lang == "" || StartsWith(lang, "cs")
  }

  // ---------------------------------------------------------------- URL and category

  const IndexHtml: string := "index.html"

  /** `"/" + rel_path.replace("index.html", "").rstrip("/")`. */
  function PageUrl(rel: string): (url: string)
    ensures StartsWith(url, "/")
  {
    "/" + RStrip(Replace(rel, IndexHtml, ""), '/')
  }

  /** The site root's `index.html` is "/". */
  lemma {:induction false} PageUrlRoot()
    ensures PageUrl(IndexHtml) == "/"
  {
    assert MatchAt(IndexHtml, IndexHtml, 0);
    IndexOfIs(IndexHtml, IndexHtml, 0);
    assert IndexHtml[|IndexHtml|..] == "";
  }

  /** In `d + "/index.html"` the first "index.html" is the one after the slash. */
  lemma {:induction false} IndexHtmlAfterSlash(d: string)
    requires !Contains(d, IndexHtml)
    ensures IndexOf(d + "/" + IndexHtml, IndexHtml) == Some(|d| + 1)
  {
    var p := IndexHtml;
    var s := d + "/" + p;
    assert '/' !in p;
    assert s[|d| + 1..] == p;
    assert MatchAt(s, p, |d| + 1);
    forall j | 0 <= j < |d| + 1
      ensures !MatchAt(s, p, j)
    {
      if j + |p| <= |d| {
        assert s[j..j + |p|] == d[j..j + |p|];
        assert !MatchAt(d, p, j);
      } else {
        assert s[j..j + |p|][|d| - j] == '/';
      }
    }
    IndexOfIs(s, p, |d| + 1);
  }

  /** A directory's `index.html` is the directory itself. */
  lemma {:induction false} PageUrlOfDirectory(d: string)
    requires d != "" && d[|d| - 1] != '/' && !Contains(d, IndexHtml)
    ensures PageUrl(d + "/" + IndexHtml) == "/" + d
  {
    var s := d + "/" + IndexHtml;
    IndexHtmlAfterSlash(d);
    assert s[..|d| + 1] == d + "/";
    assert s[|d| + 1 + |IndexHtml|..] == "";
    assert Replace(s, IndexHtml, "") == d + "/";
    assert (d + "/")[..|d|] == d;
  }

  /** A file name without "index.html" and without a trailing '/' keeps its path. */
  lemma {:induction false} PageUrlOfFile(rel: string)
    requires !Contains(rel, IndexHtml) && (rel == "" || rel[|rel| - 1] != '/')
    ensures PageUrl(rel) == "/" + rel
  {
    ReplaceAbsent(rel, IndexHtml, "");
  }

  /** Characters `str.title()` treats as letters; non-ASCII ones are kept as they are. */
  predicate IsCased(c: char) {
    IsAsciiLetter(c) || c > '\U{7f}'
  }

  /** One character of `str.title()`, given whether the previous character was a letter. */
  function TitleChar(c: char, afterLetter: bool): char {
    if !IsCased(c) then c else if afterLetter then LowerChar(c) else UpperChar(c)
  }

  /** `str.title()` on the rest of a string, `afterLetter` saying whether a letter came just before. */
  function TitleFrom(s: string, afterLetter: bool): (r: string)
    ensures |r| == |s|
    ensures forall i :: 0 <= i < |s| ==> r[i] == TitleChar(s[i], if i == 0 then afterLetter else IsCased(s[i - 1]))
    decreases |s|
  {
    if |s| == 0 then "" else [TitleChar(s[0], afterLetter)] + TitleFrom(s[1..], IsCased(s[0]))
  }

  /** `str.title()`: the first letter of each run of letters upper case, the others lower case. */
  function TitleCase(s: string): string {
    TitleFrom(s, false)
  }

  /** Title-casing a title-cased string changes nothing. */
  lemma {:induction false} TitleCaseIdempotent(s: string)
    ensures TitleCase(TitleCase(s)) == TitleCase(s)
  {
    var t := TitleCase(s);
    forall i | 0 <= i < |s|
      ensures TitleCase(t)[i] == t[i]
    {
      var after := if i == 0 then false else IsCased(s[i - 1]);
      TitleCharStable(s[i], after);
      if i > 0 {
        TitleCharStable(s[i - 1], if i == 1 then false else IsCased(s[i - 2]));
      }
    }
  }

  /** Changing a letter's case keeps it a letter, and doing it twice is doing it once. */
  lemma TitleCharStable(c: char, afterLetter: bool)
    ensures IsCased(TitleChar(c, afterLetter)) == IsCased(c)
    ensures TitleChar(TitleChar(c, afterLetter), afterLetter) == TitleChar(c, afterLetter)
  {
  }

  /** The first path segment with '-' turned into ' ', title-cased; "" for a file at the site root. */
  function Category(rel: string): string {
    var parts := Split(rel, '/');
    if |parts| > 1 then TitleCase(Replace(parts[0], "-", " ")) else ""
  }

  /** A page at the site root has no category. */
  lemma {:induction false} CategoryOfRootFile(rel: string)
    requires '/' !in rel
    ensures Category(rel) == ""
  {
    SplitFree(rel, '/');
  }

  /** A page below a top-level directory takes its category from that directory's name. */
  lemma {:induction false} CategoryOfDirectory(d: string, rest: string)
    requires '/' !in d && '-' !in d
    ensures Category(d + "/" + rest) == TitleCase(d)
  {
    SplitAfterFree(d, '/', rest);
    assert d + "/" + rest == d + ['/'] + rest;
    ContainsChar(d, '-');
    ReplaceAbsent(d, "-", " ");
  }

  // ---------------------------------------------------------------- first image

  const SkipWords: seq<string> := ["icon", "logo", "spacer", "pixel", "blank", ".svg", "data:image"]
  const ImageSuffixes: seq<string> := [".jpg", ".jpeg", ".png", ".webp"]

  /** Icons, logos, spacers and inline images are never a page's picture. */
  predicate IsSkippedSrc(src: string) {
    ContainsAny(Lower(src), SkipWords)
  }

  /** Uploaded content or a photo file. */
  predicate IsPhotoSrc(src: string) {
    Contains(src, "fileadmin") || EndsWithAny(src, ImageSuffixes)
  }

  predicate Qualifies(src: string) {
    !IsSkippedSrc(src) && IsPhotoSrc(src)
  }

  /** Makes an image source site-absolute; sources that already start with '/' or "http" are kept. */
  function ResolveImage(src: string, rel: string): (r: string)
    ensures StartsWith(r, "/") || StartsWith(r, "http")
    ensures !StartsWith(src, "../") && !StartsWith(src, "./") && (StartsWith(src, "/") || StartsWith(src, "http")) ==> r == src
  {
    if StartsWith(src, "../") || StartsWith(src, "./") then
      "/" + Replace(NormPath(JoinPath(Dirname(rel), src)), "\\", "/")
    else if !StartsWith(src, "/") && !StartsWith(src, "http") then "/" + src
    else src
  }

  /** A source that, stripped, qualifies. */
  predicate Candidate(src: string) {
    Qualifies(Strip(src))
  }

  /** `srcs[i]` is the first source that, stripped, qualifies. */
  predicate FirstQualifying(srcs: seq<string>, i: int) {
    0 <= i < |srcs| && Candidate(srcs[i]) && forall j :: 0 <= j < i ==> !Candidate(srcs[j])
  }

  /** The resolved first qualifying source, or "" when none qualifies. */
  function FirstImage(srcs: seq<string>, rel: string): string {
    match FirstIndex(Candidate, srcs)
    case None => ""
    case Some(i) => ResolveImage(Strip(srcs[i]), rel)
  }

  /** The loop over the page's `<img>` sources, left at the first one that qualifies. */
  method FindFirstImage(srcs: seq<string>, rel: string) returns (first: string)
    ensures first == FirstImage(srcs, rel)
  {
    first := "";
    var i := 0;
    while i < |srcs|
      invariant 0 <= i <= |srcs|
      invariant forall j :: 0 <= j < i ==> !Candidate(srcs[j])
    {
      var src := Strip(srcs[i]);
      if IsSkippedSrc(src) {
        NotCandidate(srcs, i);
        i := i + 1;
        continue;
      }
      if IsPhotoSrc(src) {
        FirstIndexIs(Candidate, srcs, i);
        first := ResolveImage(src, rel);
        return;
      }
      NotCandidate(srcs, i);
      i := i + 1;
    }
  }

  /** Extends the run of sources that do not qualify by `srcs[i]`. */
  lemma NotCandidate(srcs: seq<string>, i: nat)
    requires i < |srcs| && !Candidate(srcs[i])
    requires forall j :: 0 <= j < i ==> !Candidate(srcs[j])
    ensures forall j :: 0 <= j < i + 1 ==> !Candidate(srcs[j])
  {
  }

  /** A resolved source is never empty. */
  lemma {:induction false} ResolvedNonEmpty(src: string, rel: string)
    ensures ResolveImage(src, rel) != ""
  {
    var r := ResolveImage(src, rel);
    assert StartsWith(r, "/") || StartsWith(r, "http");
  }

  /**
   * The first image is "" exactly when no source qualifies; otherwise it is the resolved
   * first qualifying source and starts with '/' or "http".
   */
  lemma {:induction false} FirstImageChoice(srcs: seq<string>, rel: string)
    ensures FirstImage(srcs, rel) == "" <==> forall i :: 0 <= i < |srcs| ==> !Candidate(srcs[i])
    ensures FirstImage(srcs, rel) != "" ==>
      (StartsWith(FirstImage(srcs, rel), "/") || StartsWith(FirstImage(srcs, rel), "http"))
      && exists i :: FirstQualifying(srcs, i) && FirstImage(srcs, rel) == ResolveImage(Strip(srcs[i]), rel)
  {
    match FirstIndex(Candidate, srcs)
    case None =>
    case Some(i) =>
      ResolvedNonEmpty(Strip(srcs[i]), rel);
  }

  // ---------------------------------------------------------------- one page

  /**
   * What the HTML parser found on a page: the `lang` attribute ("" when absent), the
   * string of `<title>` ("" when there is none or it is empty), the text of the first
   * `<h1>` when there is one, the `content` of the description and `og:image` meta tags
   * ("" when absent), the `src` of every `<img>` in document order, and the text of the
   * main content element (or of the whole page).
   */
  datatype ParsedPage = ParsedPage(
    lang: string,
    titleString: string,
    h1: Option<string>,
    metaContent: string,
    ogContent: string,
    imgSrcs: seq<string>,
    rawText: string)

  /** The record kept for a page. */
  datatype Page = Page(
    title: string,
    url: string,
    metaDesc: string,
    ogImage: string,
    firstImage: string,
    text: string,
    chunks: seq<string>,
    category: string)

  /** The stripped `<title>`, else the first `<h1>`, else the file name. */
  function PageTitle(p: ParsedPage, rel: string): (t: string)
    ensures p.titleString == "" && p.h1.None? ==> t == Basename(rel)
  {
    var t := if p.titleString != "" then Strip(p.titleString) else if p.h1.Some? then p.h1.value else "";
    if t != "" then t else Basename(rel)
  }

  /** The chunks of a cleaned text: the text itself up to 600 characters, else the sentence chunks. */
  function TextChunks(text: string): seq<string> {
    if |text| <= SingleChunkLimit then [text] else Chunks(Sentences(text))
  }

  /** The record for a page, or None when the page is not Czech or has too little text. */
  function PageOf(p: ParsedPage, rel: string): Option<Page> {
    if !IsCzech(p.lang) then None
    else
      var text := CleanText(p.rawText);
      if |text| < MinTextLength then None
      else Some(Page(PageTitle(p, rel), PageUrl(rel), Strip(p.metaContent), Strip(p.ogContent),
                     FirstImage(p.imgSrcs, rel), text, TextChunks(text), Category(rel)))
  }

  /** `extract_text_from_html` on a parsed page at path `rel` below the site directory. */
  method ExtractPage(p: ParsedPage, rel: string) returns (r: Option<Page>)
    ensures r == PageOf(p, rel)
  {
    if p.lang != "" && !StartsWith(p.lang, "cs") {
      return None;
    }
    var title := "";
    if p.titleString != "" {
      title := Strip(p.titleString);
    } else if p.h1.Some? {
      title := p.h1.value;
    }
    var metaDesc := Strip(p.metaContent);
    var ogImage := Strip(p.ogContent);
    var firstImage := FindFirstImage(p.imgSrcs, rel);
    var text := CleanText(p.rawText);
    if |text| < MinTextLength {
      return None;
    }
    CleanTextIsClean(p.rawText);
    var chunks := ChunkText(text);
    assert chunks == TextChunks(text);
    title := if title != "" then title else Basename(rel);
    assert title == PageTitle(p, rel);
    r := Some(Page(title, PageUrl(rel), metaDesc, ogImage, firstImage, text, chunks, Category(rel)));
    PageOfKept(p, rel);
  }

  /** The record of a page that passes both filters. */
  lemma PageOfKept(p: ParsedPage, rel: string)
    requires IsCzech(p.lang) && |CleanText(p.rawText)| >= MinTextLength
    ensures PageOf(p, rel) == Some(Page(PageTitle(p, rel), PageUrl(rel), Strip(p.metaContent), Strip(p.ogContent),
                                        FirstImage(p.imgSrcs, rel), CleanText(p.rawText), TextChunks(CleanText(p.rawText)), Category(rel)))
  {
  }

  /**
   * A page is dropped exactly when its language is set and not Czech or its cleaned text
   * is shorter than 50 characters. A kept page has a URL starting with '/', cleaned text
   * of at least 50 characters, and chunks that, joined with spaces, are that text: one
   * chunk up to 600 characters, otherwise a greedy grouping of its sentences.
   */
  lemma {:induction false} PageOfSpec(p: ParsedPage, rel: string)
    ensures PageOf(p, rel).None? <==> !IsCzech(p.lang) || |CleanText(p.rawText)| < MinTextLength
    ensures PageOf(p, rel).Some? ==>
      var pg := PageOf(p, rel).value;
      && StartsWith(pg.url, "/") && pg.text == CleanText(p.rawText) && |pg.text| >= MinTextLength
      && IsClean(pg.text) && Join(pg.chunks, " ") == pg.text
      && (|pg.text| <= SingleChunkLimit ==> pg.chunks == [pg.text])
      && (|pg.text| > SingleChunkLimit ==> exists groups :: IsChunking(Sentences(pg.text), pg.chunks, groups))
  {
    if PageOf(p, rel).Some? {
      var text := CleanText(p.rawText);
      CleanTextIsClean(p.rawText);
      if |text| > SingleChunkLimit {
        var groups := ChunksJoin(text);
      }
    }
  }

  // ---------------------------------------------------------------- image descriptions

  /** An image description record; each key may be missing. */
  datatype ImageDesc = ImageDesc(filename: Option<string>, description: Option<string>, path: Option<string>)

  /** The value stored under an image path in the dictionary format. */
  datatype DescInfo =
    | InfoText(text: string)
    | InfoRecord(description: Option<string>, path: Option<string>)
    | InfoOther

  /** The descriptions file: a dictionary keyed by image path, or a list of records. */
  datatype RawDescs = DescDict(entries: seq<(string, DescInfo)>) | DescList(records: seq<ImageDesc>)

  predicate Usable(e: (string, DescInfo)) {
    !e.1.InfoOther?
  }

  /**
   * The record for one dictionary entry: its file name, description and path. A plain string
   * is the description and the key the path; a dictionary's missing description reads as
   * empty and its missing path falls back to the key.
   */
  function ToImageDesc(e: (string, DescInfo)): (d: ImageDesc)
    requires Usable(e)
    ensures d.filename == Some(Basename(e.0)) && d.description.Some? && d.path.Some?
    ensures e.1.InfoText? ==> d.description == Some(e.1.text) && d.path == Some(e.0)
    ensures e.1.InfoRecord? ==> d.description == Some(e.1.description.GetOr(""))
    ensures e.1.InfoRecord? && e.1.path.Some? ==> d.path == e.1.path
    ensures e.1.InfoRecord? && e.1.path.None? ==> d.path == Some(e.0)
  {
    match e.1
    case InfoText(text) => ImageDesc(Some(Basename(e.0)), Some(text), Some(e.0))
    case InfoRecord(desc, path) => ImageDesc(Some(Basename(e.0)), Some(desc.GetOr("")), Some(path.GetOr(e.0)))
  }

  /** One record per dictionary entry holding a string or a dictionary, in the file's order. */
  function DictRecords(entries: seq<(string, DescInfo)>): seq<ImageDesc>
    decreases |entries|
  {
    if |entries| == 0 then []
    else
      var n := |entries| - 1;
      DictRecords(entries[..n]) + (if Usable(entries[n]) then [ToImageDesc(entries[n])] else [])
  }

  /** The records are the usable entries, each reshaped. */
  lemma {:induction false} DictRecordsFilter(entries: seq<(string, DescInfo)>)
    ensures |DictRecords(entries)| == |Filter(Usable, entries)|
    ensures forall k :: 0 <= k < |DictRecords(entries)| ==>
      Usable(Filter(Usable, entries)[k]) && DictRecords(entries)[k] == ToImageDesc(Filter(Usable, entries)[k])
    decreases |entries|
  {
    if |entries| > 0 {
      var n := |entries| - 1;
      var init, last := entries[..n], entries[n];
      DictRecordsFilter(init);
      assert entries == init + [last];
      FilterSnoc(Usable, init, last);
    }
  }

  /** The loop that turns the dictionary format into records. */
  method ReshapeDescs(entries: seq<(string, DescInfo)>) returns (descs: seq<ImageDesc>)
    ensures descs == DictRecords(entries)
  {
    descs := [];
    var i := 0;
    while i < |entries|
      invariant 0 <= i <= |entries|
      invariant descs == DictRecords(entries[..i])
    {
      var (imgPath, info) := entries[i];
      assert entries[..i + 1][..i] == entries[..i];
      i := i + 1;
      var desc, path;
      match info {
        case InfoText(text) =>
          desc, path := text, imgPath;
        case InfoRecord(d, pth) =>
          desc, path := d.GetOr(""), pth.GetOr(imgPath);
        case InfoOther =>
          continue;
      }
      descs := descs + [ImageDesc(Some(Basename(imgPath)), Some(desc), Some(path))];
    }
    assert entries[..i] == entries;
  }

  /** The records of either format. */
  function ImageDescs(raw: RawDescs): seq<ImageDesc> {
    match raw
    case DescDict(entries) => DictRecords(entries)
    case DescList(records) => records
  }

  /**
   * Every usable dictionary entry gives exactly one record, in order, named after the
   * entry's file name; other entries give none.
   */
  lemma {:induction false} DictRecordsSpec(entries: seq<(string, DescInfo)>) returns (idx: seq<nat>)
    ensures |idx| == |DictRecords(entries)| && Increasing(idx)
    ensures forall k :: 0 <= k < |idx| ==>
      idx[k] < |entries| && Usable(entries[idx[k]]) && DictRecords(entries)[k] == ToImageDesc(entries[idx[k]])
    ensures forall i :: 0 <= i < |entries| && Usable(entries[i]) ==> i in idx
  {
    idx := FilterOrder(Usable, entries);
    DictRecordsFilter(entries);
  }

  // ---------------------------------------------------------------- chunk entries

  /** The metadata stored with a chunk; `firstImage` is a page key, `sourceType` an image key. */
  datatype ChunkMeta = ChunkMeta(
    title: string,
    url: string,
    category: string,
    chunkIndex: nat,
    metaDesc: string,
    ogImage: string,
    firstImage: Option<string>,
    sourceType: Option<string>)

  /** One chunk to index: its text, its ID and its metadata. */
  datatype Entry = Entry(doc: string, id: string, meta: ChunkMeta)

  const ImageCategory: string := "Obrázek"
  const TitlePrefix: string := "Obrázek: "
  const UploadDir: string := "/fileadmin/user_upload/"
  const MetaDescLimit: nat := 500

  /** An image description is indexed only when it is present and non-empty. */
  predicate HasDescription(d: ImageDesc) {
    d.description.Some? && d.description.value != ""
  }

  /** The image's URL: its path, or its file name under the upload directory, made absolute. */
  function ImageUrl(d: ImageDesc): (url: string)
    ensures StartsWith(url, "/")
    ensures d.path.Some? ==> url == d.path.value || url == "/" + d.path.value
    ensures d.path.Some? && StartsWith(d.path.value, "/") ==> url == d.path.value
    ensures d.path.None? ==> StartsWith(url, UploadDir) && EndsWith(url, d.filename.GetOr("unknown"))
  {
    var url := d.path.GetOr(UploadDir + d.filename.GetOr("unknown"));
    if StartsWith(url, "/") then url else "/" + url
  }

  /** "Obrázek: " and the file name without ".jpg" and ".png", dashes and underscores as spaces. */
  function ImageTitle(filename: string): (t: string)
    ensures StartsWith(t, TitlePrefix)
    ensures '-' !in t[|TitlePrefix|..] && '_' !in t[|TitlePrefix|..]
  {
    var a := Replace(Replace(filename, ".jpg", ""), ".png", "");
    var b := Replace(a, "-", " ");
    ReplaceCharGone(a, '-', " ");
    var c := Replace(b, "_", " ");
    ReplaceCharGone(b, '_', " ");
    ReplaceKeepsAbsent(b, "_", " ", '-');
    assert (TitlePrefix + c)[|TitlePrefix|..] == c;
    TitlePrefix + c
  }

  /** The entry of a described image; its ID is the digest of "img_" and its path. */
  function ImageEntry(d: ImageDesc, hash: string -> string): Entry {
    var filename := d.filename.GetOr("unknown");
    var desc := d.description.GetOr("");
    var url := ImageUrl(d);
    Entry(desc, hash("img_" + d.path.GetOr(filename)),
      ChunkMeta(ImageTitle(filename), url, ImageCategory, 0, Take(desc, MetaDescLimit), url, None, Some("image")))
  }

  /** The entries of the described images, in the records' order. */
  function ImageEntries(descs: seq<ImageDesc>, hash: string -> string): seq<Entry>
    decreases |descs|
  {
    if |descs| == 0 then []
    else
      var n := |descs| - 1;
      ImageEntries(descs[..n], hash) + (if HasDescription(descs[n]) then [ImageEntry(descs[n], hash)] else [])
  }

  /**
   * The metadata description of a chunk: the page's, cut to 500 characters (the empty case
   * the code spells out separately is the same).
   */
  function ChunkEntry(p: Page, i: nat, hash: string -> string): Entry
    requires i < |p.chunks|
  {
    Entry(p.chunks[i], hash(p.url + "_" + NatToString(i)),
      ChunkMeta(p.title, p.url, p.category, i, Take(p.metaDesc, MetaDescLimit), p.ogImage, Some(p.firstImage), None))
  }

  /** The entries of one page's chunks, numbered from 0. */
  function PageEntries(p: Page, hash: string -> string): seq<Entry> {
    seq(|p.chunks|, i requires 0 <= i < |p.chunks| => ChunkEntry(p, i, hash))
  }

  function AllPageEntries(pages: seq<Page>, hash: string -> string): seq<Entry>
    decreases |pages|
  {
    if |pages| == 0 then []
    else AllPageEntries(pages[..|pages| - 1], hash) + PageEntries(pages[|pages| - 1], hash)
  }

  /** Everything the indexer collects: the image entries first, then the pages' chunks. */
  function Entries(descs: seq<ImageDesc>, pages: seq<Page>, hash: string -> string): seq<Entry> {
    ImageEntries(descs, hash) + AllPageEntries(pages, hash)
  }

  /** Each described image gives one entry, in order, and every image entry is well formed. */
  lemma {:induction false} ImageEntriesSpec(descs: seq<ImageDesc>, hash: string -> string)
    ensures |ImageEntries(descs, hash)| == |Filter(HasDescription, descs)|
    ensures forall k :: 0 <= k < |ImageEntries(descs, hash)| ==>
      ImageEntries(descs, hash)[k] == ImageEntry(Filter(HasDescription, descs)[k], hash)
    ensures forall e :: e in ImageEntries(descs, hash) ==>
      && e.doc != "" && e.meta.category == ImageCategory && e.meta.chunkIndex == 0
      && StartsWith(e.meta.url, "/") && e.meta.ogImage == e.meta.url
      && |e.meta.metaDesc| <= MetaDescLimit && StartsWith(e.doc, e.meta.metaDesc)
      && e.meta.sourceType == Some("image") && e.meta.firstImage.None?
    decreases |descs|
  {
    if |descs| > 0 {
      var n := |descs| - 1;
      ImageEntriesSpec(descs[..n], hash);
      assert descs == descs[..n] + [descs[n]];
      FilterSnoc(HasDescription, descs[..n], descs[n]);
    }
  }

  /** Chunk `i` of a page is numbered `i`, holds the chunk and carries the page's data. */
  lemma PageEntriesSpec(p: Page, hash: string -> string)
    ensures |PageEntries(p, hash)| == |p.chunks|
    ensures forall i :: 0 <= i < |p.chunks| ==>
      && PageEntries(p, hash)[i].doc == p.chunks[i]
      && PageEntries(p, hash)[i].meta.chunkIndex == i
      && PageEntries(p, hash)[i].meta.url == p.url
      && PageEntries(p, hash)[i].meta.title == p.title
      && PageEntries(p, hash)[i].meta.sourceType.None?
      && |PageEntries(p, hash)[i].meta.metaDesc| <= MetaDescLimit
      && StartsWith(p.metaDesc, PageEntries(p, hash)[i].meta.metaDesc)
  {
  }

  /** The documents, IDs and metadata lists hold the entries' fields, position by position. */
  predicate Aligned(docs: seq<string>, ids: seq<string>, metas: seq<ChunkMeta>, es: seq<Entry>) {
    && |docs| == |es| && |ids| == |es| && |metas| == |es|
    && forall k :: 0 <= k < |es| ==> docs[k] == es[k].doc && ids[k] == es[k].id && metas[k] == es[k].meta
  }

  lemma AlignedSnoc(docs: seq<string>, ids: seq<string>, metas: seq<ChunkMeta>, es: seq<Entry>, e: Entry)
    requires Aligned(docs, ids, metas, es)
    ensures Aligned(docs + [e.doc], ids + [e.id], metas + [e.meta], es + [e])
  {
  }

  lemma {:induction false} ImageEntriesStep(descs: seq<ImageDesc>, j: nat, hash: string -> string)
    requires j < |descs|
    ensures ImageEntries(descs[..j + 1], hash)
      == ImageEntries(descs[..j], hash) + (if HasDescription(descs[j]) then [ImageEntry(descs[j], hash)] else [])
  {
    assert descs[..j + 1][..j] == descs[..j];
  }

  lemma {:induction false} AllPageEntriesStep(pages: seq<Page>, k: nat, hash: string -> string)
    requires k < |pages|
    ensures AllPageEntries(pages[..k + 1], hash) == AllPageEntries(pages[..k], hash) + PageEntries(pages[k], hash)
  {
    assert pages[..k + 1][..k] == pages[..k];
  }

  /** The first loop of the collection: one entry per described image. */
  method CollectImageEntries(descs: seq<ImageDesc>, hash: string -> string)
    returns (docs: seq<string>, ids: seq<string>, metas: seq<ChunkMeta>, total: nat)
    ensures Aligned(docs, ids, metas, ImageEntries(descs, hash)) && total == |ids|
  {
    docs, ids, metas, total := [], [], [], 0;
    for j := 0 to |descs|
      invariant Aligned(docs, ids, metas, ImageEntries(descs[..j], hash)) && total == |ids|
    {
      ImageEntriesStep(descs, j, hash);
      var d := descs[j];
      var filename := d.filename.GetOr("unknown");
      var id := hash("img_" + d.path.GetOr(filename));
      var url := d.path.GetOr(UploadDir + filename);
      if !StartsWith(url, "/") {
        url := "/" + url;
      }
      var title := ImageTitle(filename);
      var desc := d.description.GetOr("");
      if desc == "" {
        continue;
      }
      var e := Entry(desc, id, ChunkMeta(title, url, ImageCategory, 0, Take(desc, MetaDescLimit), url, None, Some("image")));
      assert e == ImageEntry(d, hash);
      AlignedSnoc(docs, ids, metas, ImageEntries(descs[..j], hash), e);
      docs, ids, metas := docs + [e.doc], ids + [e.id], metas + [e.meta];
      total := total + 1;
    }
    assert descs[..|descs|] == descs;
  }

  /** The inner loop of the collection: the chunks of one page appended to the lists. */
  method AppendPageChunks(page: Page, hash: string -> string, docs: seq<string>, ids: seq<string>,
                          metas: seq<ChunkMeta>, total: nat, ghost es: seq<Entry>)
    returns (docs': seq<string>, ids': seq<string>, metas': seq<ChunkMeta>, total': nat)
    requires Aligned(docs, ids, metas, es) && total == |ids|
    ensures Aligned(docs', ids', metas', es + PageEntries(page, hash)) && total' == |ids'|
  {
    docs', ids', metas', total' := docs, ids, metas, total;
    for i := 0 to |page.chunks|
      invariant Aligned(docs', ids', metas', es + PageEntries(page, hash)[..i]) && total' == |ids'|
    {
      var e := Entry(page.chunks[i], hash(page.url + "_" + NatToString(i)),
        ChunkMeta(page.title, page.url, page.category, i, Take(page.metaDesc, MetaDescLimit), page.ogImage, Some(page.firstImage), None));
      assert e == PageEntries(page, hash)[i];
      assert es + PageEntries(page, hash)[..i + 1] == (es + PageEntries(page, hash)[..i]) + [e];
      AlignedSnoc(docs', ids', metas', es + PageEntries(page, hash)[..i], e);
      docs', ids', metas' := docs' + [e.doc], ids' + [e.id], metas' + [e.meta];
      total' := total' + 1;
    }
    assert PageEntries(page, hash)[..|page.chunks|] == PageEntries(page, hash);
  }

  /** The two loops that fill the three parallel lists and count the chunks. */
  method CollectEntries(descs: seq<ImageDesc>, pages: seq<Page>, hash: string -> string)
    returns (docs: seq<string>, ids: seq<string>, metas: seq<ChunkMeta>, total: nat)
    ensures Aligned(docs, ids, metas, Entries(descs, pages, hash)) && total == |ids|
  {
    docs, ids, metas, total := CollectImageEntries(descs, hash);
    ghost var before := ImageEntries(descs, hash);
    for k := 0 to |pages|
      invariant Aligned(docs, ids, metas, before + AllPageEntries(pages[..k], hash)) && total == |ids|
    {
      docs, ids, metas, total := AppendPageChunks(pages[k], hash, docs, ids, metas, total, before + AllPageEntries(pages[..k], hash));
      AllPageEntriesStep(pages, k, hash);
      assert before + AllPageEntries(pages[..k + 1], hash) == (before + AllPageEntries(pages[..k], hash)) + PageEntries(pages[k], hash);
    }
    assert pages[..|pages|] == pages;
  }

  // ---------------------------------------------------------------- de-duplication

  /** The indices of the first occurrence of each ID, in order. */
  function FirstOccurrences(ids: seq<string>): (keep: seq<nat>)
    ensures |keep| <= |ids| && forall k :: 0 <= k < |keep| ==> keep[k] < |ids|
    decreases |ids|
  {
    if |ids| == 0 then []
    else
      var n := |ids| - 1;
      FirstOccurrences(ids[..n]) + (if ids[n] in ids[..n] then [] else [n])
  }

  /** `[s[i] for i in idx]`. */
  function Pick<T>(s: seq<T>, idx: seq<nat>): (r: seq<T>)
    requires forall k :: 0 <= k < |idx| ==> idx[k] < |s|
    ensures |r| == |idx| && forall k :: 0 <= k < |idx| ==> r[k] == s[idx[k]]
  {
    seq(|idx|, k requires 0 <= k < |idx| => s[idx[k]])
  }

  /** `ids[i]` does not occur before index `i`. */
  predicate IsFirst(ids: seq<string>, i: nat) {
    i < |ids| && ids[i] !in ids[..i]
  }

  lemma {:induction false} IsFirstPrefix(ids: seq<string>, n: nat, i: nat)
    requires i < n <= |ids|
    ensures IsFirst(ids[..n], i) <==> IsFirst(ids, i)
  {
    assert ids[..n][..i] == ids[..i];
  }

  /** The kept indices increase. */
  lemma {:induction false} FirstOccurrencesIncreasing(ids: seq<string>)
    ensures Increasing(FirstOccurrences(ids))
    decreases |ids|
  {
    if |ids| > 0 {
      var n := |ids| - 1;
      FirstOccurrencesIncreasing(ids[..n]);
      if ids[n] !in ids[..n] {
        IncreasingSnoc(FirstOccurrences(ids[..n]), n);
      }
    }
  }

  /** Each kept index is a first occurrence. */
  lemma {:induction false} FirstOccurrencesAreFirst(ids: seq<string>)
    ensures forall k :: 0 <= k < |FirstOccurrences(ids)| ==> IsFirst(ids, FirstOccurrences(ids)[k])
    decreases |ids|
  {
    if |ids| > 0 {
      var n := |ids| - 1;
      var prev := FirstOccurrences(ids[..n]);
      FirstOccurrencesAreFirst(ids[..n]);
      forall k | 0 <= k < |prev|
        ensures IsFirst(ids, prev[k])
      {
        IsFirstPrefix(ids, n, prev[k]);
      }
    }
  }

  /** Every first occurrence is kept. */
  lemma {:induction false} FirstOccurrencesComplete(ids: seq<string>, i: nat)
    requires IsFirst(ids, i)
    ensures i in FirstOccurrences(ids)
    decreases |ids|
  {
    var n := |ids| - 1;
    if i < n {
      IsFirstPrefix(ids, n, i);
      FirstOccurrencesComplete(ids[..n], i);
    }
  }

  /** Every ID has a first occurrence among the kept indices. */
  lemma {:induction false} FirstOccurrenceKept(ids: seq<string>, i: nat)
    requires i < |ids|
    ensures exists k :: 0 <= k < |FirstOccurrences(ids)| && ids[FirstOccurrences(ids)[k]] == ids[i]
    decreases i
  {
    var keep := FirstOccurrences(ids);
    if ids[i] !in ids[..i] {
      FirstOccurrencesComplete(ids, i);
      var k :| 0 <= k < |keep| && keep[k] == i;
    } else {
      var j :| 0 <= j < i && ids[..i][j] == ids[i];
      FirstOccurrenceKept(ids, j);
    }
  }

  /** After de-duplication no ID repeats and the set of IDs is the same. */
  lemma {:induction false} DedupDistinct(ids: seq<string>)
    ensures NoDuplicates(Pick(ids, FirstOccurrences(ids)))
    ensures forall x :: x in Pick(ids, FirstOccurrences(ids)) <==> x in ids
  {
    var keep := FirstOccurrences(ids);
    var r := Pick(ids, keep);
    FirstOccurrencesIncreasing(ids);
    FirstOccurrencesAreFirst(ids);
    forall a, b | 0 <= a < b < |r|
      ensures r[a] != r[b]
    {
      assert IsFirst(ids, keep[b]);
      assert ids[..keep[b]][keep[a]] == r[a];
    }
    forall x | x in ids
      ensures x in r
    {
      var i :| 0 <= i < |ids| && ids[i] == x;
      FirstOccurrenceKept(ids, i);
    }
  }

  /** When every index is a first occurrence, the kept indices are all of them, in order. */
  lemma {:induction false} FirstOccurrencesAll(ids: seq<string>)
    requires |FirstOccurrences(ids)| == |ids|
    ensures forall k :: 0 <= k < |ids| ==> FirstOccurrences(ids)[k] == k
    decreases |ids|
  {
    if |ids| > 0 {
      var n := |ids| - 1;
      FirstOccurrencesAll(ids[..n]);
    }
  }

  /** Picking the same indices from parallel lists keeps them parallel. */
  lemma PickAligned(docs: seq<string>, ids: seq<string>, metas: seq<ChunkMeta>, es: seq<Entry>, keep: seq<nat>)
    requires Aligned(docs, ids, metas, es)
    requires forall k :: 0 <= k < |keep| ==> keep[k] < |es|
    ensures Aligned(Pick(docs, keep), Pick(ids, keep), Pick(metas, keep), Pick(es, keep))
  {
  }

  /**
   * The de-duplication: the first chunk with each ID is kept, in order; the lists are
   * rebuilt and the count reset only when something was removed.
   */
  method Dedup(docs: seq<string>, ids: seq<string>, metas: seq<ChunkMeta>, total: nat)
    returns (docs': seq<string>, ids': seq<string>, metas': seq<ChunkMeta>, total': nat)
    requires |docs| == |ids| && |metas| == |ids|
    ensures var keep := FirstOccurrences(ids);
      docs' == Pick(docs, keep) && ids' == Pick(ids, keep) && metas' == Pick(metas, keep)
    ensures |FirstOccurrences(ids)| < |ids| ==> total' == |ids'|
    ensures |FirstOccurrences(ids)| == |ids| ==> total' == total
  {
    var seen: set<string> := {};
    var deduped: seq<nat> := [];
    for idx := 0 to |ids|
      invariant deduped == FirstOccurrences(ids[..idx])
      invariant forall x :: x in seen <==> x in ids[..idx]
    {
      assert ids[..idx + 1][..idx] == ids[..idx];
      assert ids[..idx + 1] == ids[..idx] + [ids[idx]];
      if ids[idx] !in seen {
        seen := seen + {ids[idx]};
        deduped := deduped + [idx];
      }
    }
    assert ids[..|ids|] == ids;
    if |deduped| < |ids| {
      docs', ids', metas' := Pick(docs, deduped), Pick(ids, deduped), Pick(metas, deduped);
      total' := |ids'|;
    } else {
      FirstOccurrencesAll(ids);
      docs', ids', metas', total' := docs, ids, metas, total;
    }
  }

  // ---------------------------------------------------------------- batches

  /** One `collection.add` call. */
  datatype Batch = Batch(docs: seq<string>, ids: seq<string>, metas: seq<ChunkMeta>)

  function BatchDocs(b: Batch): seq<string> { b.docs }
  function BatchIds(b: Batch): seq<string> { b.ids }
  function BatchMetas(b: Batch): seq<ChunkMeta> { b.metas }

  /** The batches from index `start` on: slices of 50 of the three lists. */
  function BatchesFrom(docs: seq<string>, ids: seq<string>, metas: seq<ChunkMeta>, start: nat): seq<Batch>
    requires |ids| == |docs| && |metas| == |docs|
    decreases |docs| - start
  {
    if start >= |docs| then []
    else
      var end := if start + BatchSize <= |docs| then start + BatchSize else |docs|;
      [Batch(docs[start..end], ids[start..end], metas[start..end])] + BatchesFrom(docs, ids, metas, end)
  }

  /** Each batch is the same window of each of the three lists. */
  lemma {:induction false} BatchesAreWindows(docs: seq<string>, ids: seq<string>, metas: seq<ChunkMeta>, start: nat)
    requires |ids| == |docs| && |metas| == |docs|
    ensures var bs := BatchesFrom(docs, ids, metas, start);
      && |bs| == |Windows(docs, BatchSize, start)| == |Windows(ids, BatchSize, start)| == |Windows(metas, BatchSize, start)|
      && forall k :: 0 <= k < |bs| ==>
        && bs[k].docs == Windows(docs, BatchSize, start)[k]
        && bs[k].ids == Windows(ids, BatchSize, start)[k]
        && bs[k].metas == Windows(metas, BatchSize, start)[k]
    decreases |docs| - start
  {
    if start < |docs| {
      var end := if start + BatchSize <= |docs| then start + BatchSize else |docs|;
      BatchesAreWindows(docs, ids, metas, end);
    }
  }

  /**
   * The batches cover each of the three lists in order, 50 at a time with a shorter last
   * batch, and each batch's lists stay parallel.
   */
  lemma {:induction false} BatchesCover(docs: seq<string>, ids: seq<string>, metas: seq<ChunkMeta>)
    requires |ids| == |docs| && |metas| == |docs|
    ensures var bs := BatchesFrom(docs, ids, metas, 0);
      && IsBatching(docs, Map(BatchDocs, bs), BatchSize)
      && IsBatching(ids, Map(BatchIds, bs), BatchSize)
      && IsBatching(metas, Map(BatchMetas, bs), BatchSize)
  {
    var bs := BatchesFrom(docs, ids, metas, 0);
    BatchesAreWindows(docs, ids, metas, 0);
    WindowsBatching(docs, BatchSize, 0);
    WindowsBatching(ids, BatchSize, 0);
    WindowsBatching(metas, BatchSize, 0);
    assert docs[0..] == docs && ids[0..] == ids && metas[0..] == metas;
    assert Map(BatchDocs, bs) == Windows(docs, BatchSize, 0);
    assert Map(BatchIds, bs) == Windows(ids, BatchSize, 0);
    assert Map(BatchMetas, bs) == Windows(metas, BatchSize, 0);
  }

  /** The `range(0, len(all_docs), 50)` loop; the embedding of each batch is not modelled. */
  method AddInBatches(docs: seq<string>, ids: seq<string>, metas: seq<ChunkMeta>) returns (adds: seq<Batch>)
    requires |ids| == |docs| && |metas| == |docs|
    ensures adds == BatchesFrom(docs, ids, metas, 0)
  {
    adds := [];
    var i := 0;
    while i < |docs|
      invariant adds + BatchesFrom(docs, ids, metas, i) == BatchesFrom(docs, ids, metas, 0)
      decreases |docs| - i
    {
      var end := if i + BatchSize <= |docs| then i + BatchSize else |docs|;
      adds := adds + [Batch(docs[i..end], ids[i..end], metas[i..end])];
      i := i + BatchSize;
    }
  }

  /** Slices of parallel lists are parallel. */
  lemma AlignedSlice(docs: seq<string>, ids: seq<string>, metas: seq<ChunkMeta>, es: seq<Entry>, lo: nat, hi: nat)
    requires Aligned(docs, ids, metas, es) && lo <= hi <= |es|
    ensures Aligned(docs[lo..hi], ids[lo..hi], metas[lo..hi], es[lo..hi])
  {
  }

  /** Each batch holds the documents, IDs and metadata of one window of 50 entries. */
  lemma {:induction false} BatchesAligned(docs: seq<string>, ids: seq<string>, metas: seq<ChunkMeta>, es: seq<Entry>, start: nat)
    requires Aligned(docs, ids, metas, es)
    ensures |BatchesFrom(docs, ids, metas, start)| == |Windows(es, BatchSize, start)|
    ensures forall k :: 0 <= k < |BatchesFrom(docs, ids, metas, start)| ==>
      var b := BatchesFrom(docs, ids, metas, start)[k];
      Aligned(b.docs, b.ids, b.metas, Windows(es, BatchSize, start)[k])
    decreases |docs| - start
  {
    if start < |docs| {
      var end := if start + BatchSize <= |docs| then start + BatchSize else |docs|;
      BatchesAligned(docs, ids, metas, es, end);
      AlignedSlice(docs, ids, metas, es, start, end);
    }
  }

  // ---------------------------------------------------------------- the indexing run

  /** An HTML file of the site: its path relative to the site directory and what the parser found in it. */
  datatype HtmlFile = HtmlFile(rel: string, parsed: ParsedPage)

  /** The pages with content, in the order of the files. */
  function KeptPages(files: seq<HtmlFile>): seq<Page>
    decreases |files|
  {
    if |files| == 0 then []
    else
      var n := |files| - 1;
      KeptPages(files[..n]) + (match PageOf(files[n].parsed, files[n].rel) case Some(pg) => [pg] case None => [])
  }

  /** The parsing loop. */
  method ParsePages(files: seq<HtmlFile>) returns (pages: seq<Page>)
    ensures pages == KeptPages(files)
  {
    pages := [];
    for i := 0 to |files|
      invariant pages == KeptPages(files[..i])
    {
      assert files[..i + 1][..i] == files[..i];
      var result := ExtractPage(files[i].parsed, files[i].rel);
      if result.Some? {
        pages := pages + [result.value];
      }
    }
    assert files[..|files|] == files;
  }

  /** The image descriptions, none when no descriptions file was found. */
  function LoadedDescs(raw: Option<RawDescs>): seq<ImageDesc> {
    match raw
    case None => []
    case Some(r) => ImageDescs(r)
  }

  function EntryDoc(e: Entry): string { e.doc }
  function EntryId(e: Entry): string { e.id }
  function EntryMeta(e: Entry): ChunkMeta { e.meta }

  /** The entries that survive de-duplication: the first with each ID, in order. */
  function KeptEntries(es: seq<Entry>): seq<Entry> {
    Pick(es, FirstOccurrences(Map(EntryId, es)))
  }

  /** What the indexer adds to the fresh collection, batch by batch. */
  function SiteBatches(pages: seq<Page>, raw: Option<RawDescs>, hash: string -> string): seq<Batch> {
    var kept := KeptEntries(Entries(LoadedDescs(raw), pages, hash));
    BatchesFrom(Map(EntryDoc, kept), Map(EntryId, kept), Map(EntryMeta, kept), 0)
  }

  lemma AlignedMaps(docs: seq<string>, ids: seq<string>, metas: seq<ChunkMeta>, es: seq<Entry>)
    requires Aligned(docs, ids, metas, es)
    ensures docs == Map(EntryDoc, es) && ids == Map(EntryId, es) && metas == Map(EntryMeta, es)
  {
  }

  lemma PickMap<T>(f: Entry -> T, es: seq<Entry>, keep: seq<nat>)
    requires forall k :: 0 <= k < |keep| ==> keep[k] < |es|
    ensures Pick(Map(f, es), keep) == Map(f, Pick(es, keep))
  {
  }

  /**
   * The `main` of the indexer. With no page kept it stops before touching the collection;
   * otherwise the collection is recreated and receives the batches.
   */
  method IndexSite(files: seq<HtmlFile>, raw: Option<RawDescs>, hash: string -> string) returns (added: Option<seq<Batch>>)
    ensures added.None? <==> KeptPages(files) == []
    ensures added.Some? ==> added.value == SiteBatches(KeptPages(files), raw, hash)
  {
    var pages := ParsePages(files);
    if |pages| == 0 {
      return None;
    }
    var descs: seq<ImageDesc> := [];
    if raw.Some? {
      match raw.value {
        case DescDict(entries) =>
          descs := ReshapeDescs(entries);
        case DescList(records) =>
          descs := records;
      }
    }
    assert descs == LoadedDescs(raw);
    var docs, ids, metas, total := CollectEntries(descs, pages, hash);
    ghost var es := Entries(descs, pages, hash);
    AlignedMaps(docs, ids, metas, es);
    var keep := FirstOccurrences(ids);
    docs, ids, metas, total := Dedup(docs, ids, metas, total);
    PickMap(EntryDoc, es, keep);
    PickMap(EntryId, es, keep);
    PickMap(EntryMeta, es, keep);
    var adds := AddInBatches(docs, ids, metas);
    added := Some(adds);
  }

  /**
   * The kept entries are the first entry with each ID, in the collected order; every ID
   * collected is kept once and only once.
   */
  lemma {:induction false} KeptEntriesSpec(es: seq<Entry>) returns (idx: seq<nat>)
    ensures |idx| == |KeptEntries(es)| && Increasing(idx)
    ensures forall k :: 0 <= k < |idx| ==>
      idx[k] < |es| && KeptEntries(es)[k] == es[idx[k]] && IsFirst(Map(EntryId, es), idx[k])
    ensures forall i :: 0 <= i < |es| && IsFirst(Map(EntryId, es), i) ==> i in idx
    ensures NoDuplicates(Map(EntryId, KeptEntries(es)))
    ensures forall x :: x in Map(EntryId, KeptEntries(es)) <==> x in Map(EntryId, es)
  {
    var ids := Map(EntryId, es);
    idx := FirstOccurrences(ids);
    FirstOccurrencesIncreasing(ids);
    FirstOccurrencesAreFirst(ids);
    forall i | 0 <= i < |es| && IsFirst(ids, i)
      ensures i in idx
    {
      FirstOccurrencesComplete(ids, i);
    }
    DedupDistinct(ids);
    PickMap(EntryId, es, idx);
  }

  /**
   * The collection receives every kept entry exactly once, in order, in batches of 50 with
   * a shorter last batch, and each batch keeps each entry's document, ID and metadata together.
   */
  lemma {:induction false} SiteBatchesSpec(pages: seq<Page>, raw: Option<RawDescs>, hash: string -> string)
    ensures var kept := KeptEntries(Entries(LoadedDescs(raw), pages, hash));
      && IsBatching(kept, Windows(kept, BatchSize, 0), BatchSize)
      && |SiteBatches(pages, raw, hash)| == |Windows(kept, BatchSize, 0)|
      && forall k :: 0 <= k < |SiteBatches(pages, raw, hash)| ==>
        var b := SiteBatches(pages, raw, hash)[k];
        Aligned(b.docs, b.ids, b.metas, Windows(kept, BatchSize, 0)[k])
  {
    var kept := KeptEntries(Entries(LoadedDescs(raw), pages, hash));
    WindowsBatching(kept, BatchSize, 0);
    assert kept[0..] == kept;
    BatchesAligned(Map(EntryDoc, kept), Map(EntryId, kept), Map(EntryMeta, kept), kept, 0);
  }
}
