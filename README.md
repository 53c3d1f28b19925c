# hanak-search, modelled in Dafny

hanak-search is a site search for the furniture maker's web site www.hanak-nabytek.cz. A
crawler mirrors the site to disk. An indexer cuts the saved Czech pages into chunks and puts
them into a vector store. A small HTTP API answers `/search` and `/suggest` from the store.
Helper scripts do four more jobs:

- enrich the index with catalogue PDFs and page descriptions;
- inject the search overlay into the saved pages;
- take a screenshot of every important page;
- describe those pages in Czech.

This project models the sequential logic of those programs, one Dafny module per source file:

| module | file | models |
|---|---|---|
| `Crawler` | `crawler.dfy` | `crawler.py`: URL normalisation, file naming, the skip and internal tests, the breadth-first crawl as a class, the download phases and the manifest |
| `Indexer` | `indexer.dfy` | `api/indexer.py`: page filters, URL and category, first image, the parsing loop, the image-description reshaping, the entry lists, ID de-duplication, batches of 50 |
| `PageText` | `page_text.dfy` | the text part of `api/indexer.py`: whitespace collapsing, sentence split, the 500-character greedy chunking |
| `SearchApi` | `search_api.dfy` | `api/main.py`: `search` and `suggest` over the hits the index returns |
| `Enrich` | `enrich.dfy` | `scripts/enrich_index.py`: description records, 500-character PDF windows, per-chunk metadata, upsert batches |
| `Inject` | `inject.dfy` | `inject-search.py`: the marker-guarded insertion and the count of rewritten files |
| `Screenshots` | `screenshots.dfy` | `scripts/take_screenshots.py`: page selection, screenshot file names, the manifest |
| `Describe` | `describe.dfy` | `scripts/describe_screenshots.py`: URL to file, page type, layout, the description text, the summary |
| `FindPdfs` | `find_pdfs.dfy` | `scripts/find_pdfs.py`: href completion, the sorted link list, file names, downloads, text extraction |
| `Text`, `Seqs`, `PosixPath`, `Opt` | `text.dfy`, `seqs.dfy`, `paths.dfy` | Python's `str` methods, list helpers and `os.path` functions the programs rely on |

**The outside world is passed in as parameters.** This covers:

- the HTML parser: pages arrive already parsed as title, text, `lang`, image sources and links;
- HTTP responses and downloads;
- the file system's "does this file exist";
- `urlparse`, `unquote` and the md5 digest;
- the vector store's hits;
- the browser's screenshot success;
- the PDF text extractor.

Each of these is a function-typed parameter, so every lemma holds for every behaviour of that
collaborator. Nothing is assumed about the digest (not even that it is collision-free):
de-duplication by ID is proved for whatever IDs it produces.

`search` runs one query and keeps the index's order (`SearchApi.ResultsAreRelevantHitsInOrder`).

**Two quirks of the code are modelled as written.**

- `describe_from_html` falls back to `rel_path.rstrip("/") + ".html"`. Its rewritten path
  already ends in ".html", so the fallback always names a "….html.html" file
  (`Describe.FallbackDoubled`).
- An indexer chunk holding several sentences can be 501 characters long. The budget test does
  not count the space that joins the next sentence. The first chunk is built with a leading
  space that is stripped afterwards, so it stays within 500 (`PageText.ChunkLengths`).

## Model

| member | source | states |
|---|---|---|
| `Crawler.SitePath` | crawler.py:64-68 | the stored file path starts with the URL path stripped of leading slashes: `url_to_path` only ever appends |
| `Crawler.SitePathNamesFile` | crawler.py:64-68 | the stored file path is relative, and its last component is non-empty and contains a dot |
| `Crawler.SitePathIdempotent` | crawler.py:62-69 | mapping a stored file path again gives it back |
| `Crawler.UrlToPath` | crawler.py:62-69 | the file of a URL is its site path as `SITE_DIR / path` reads it: no empty or "." component is left, and collapsing it again changes nothing |
| `Crawler.CleanQuerySpec` | crawler.py:75-81 | a query with `gad_`, `utm_`, `fbclid`, `gclid` or `no_cache` is dropped whole; otherwise every `cHash=` parameter is removed and the others are kept in order; no tracking mark and no `cHash=` parameter survive |
| `Crawler.CleanQueryIdempotent` | crawler.py:75-81 | cleaning a cleaned query changes nothing |
| `Crawler.NormalizeIdempotent` | crawler.py:72-86 | `normalize_url` of a normalised URL is the URL itself |
| `Crawler.IsInternalSpec` | crawler.py:89-91 | a URL is internal exactly when its host is empty or is www.hanak-nabytek.cz; the bare hanak-nabytek.cz is external |
| `Crawler.ShouldSkipSpec` | crawler.py:94-95 | a URL is skipped exactly when one of the 13 AJAX patterns is a substring of it |
| `Crawler.Ext` | crawler.py:212 | the extension `splitext` gives is empty or starts with '.' |
| `Crawler.AdmittedSpec` | crawler.py:255-259 | the link loop appends a link only if it is not skipped and its normal form is in neither `queued` nor `visited`; no two appended links share a normal form; `queued` grows by one form per appended link |
| `Crawler.AdmittedQueue` | crawler.py:253-259 | links are queued at the next depth, within the site, and no queue entry is deeper than 20 |
| `Crawler.AdmittedWitness` | crawler.py:255-259 | every normal form the link loop adds to `queued` belongs to an appended, unskipped queue entry |
| `Crawler.AdmittedCovers` | crawler.py:255-259 | after the link loop every link is skipped or has its normal form in `queued` or `visited` |
| `Crawler.Crawler.Enqueue` | crawler.py:255-259 | the method appends exactly the entries `Admitted` gives and sets `queued` to its set |
| `Crawler.Crawler.DownloadFile` | crawler.py:168-191 | the result, the statistics and the files on disk follow `DownloadOutcome`: a file already on disk only counts as existing and is not fetched; only a saved file is new and added to the disk |
| `Crawler.Crawler.DownloadPhase` | crawler.py:270-286 | the phase lists each collected URL exactly once, and its statistics and disk are `download_file` applied along that order (`Downloads`) |
| `Crawler.DownloadsDisk` | crawler.py:270-286 | a download phase removes no file, and every file it adds is the stored file of one of its URLs |
| `Crawler.DownloadsCounts` | crawler.py:168-191 | a download phase adds one to its kind's new-file count per file it adds to the disk, and leaves the page counts and the other kind's counts alone |
| `Crawler.DownloadsStore` | crawler.py:168-191 | after a phase every one of its URLs has its file on disk, unless its download raises, is refused or is too large |
| `Crawler.PhasesDone` | crawler.py:270-286 | the PDF phase then the image phase remove no file, keep the page counts, and leave every URL of either phase stored unless its download fails |
| `Crawler.Crawler.Visit` | crawler.py:205-220 | the new state is `VisitStep` of the old: a visited or skipped URL changes nothing; otherwise its normal form is marked visited and a video is dropped, an image or PDF collected and a page requested; the URL is saved exactly when it is crawled and was not visited before |
| `Crawler.Crawler.Fetch` | crawler.py:222-235 | the new state is `FetchStep` of the old: an exception or a status other than 200 counts one error, an HTML answer is followed, another answer whose type mentions "pdf" is collected; the page is saved exactly when answered 200 with an HTML type |
| `Crawler.Crawler.Follow` | crawler.py:237-261 | the new state is `FollowStep` of the old: the page is saved and listed; below depth 20 the queue gains exactly the admitted links one level deeper, and the images and assets are added to their sets |
| `Crawler.Crawler.SavePage` | crawler.py:237-246 | the page's file is on disk, the page is appended to the HTML list, and it is counted new exactly when its file was not on disk before |
| `Crawler.VisitKeeps` | crawler.py:205-220 | visiting a queued URL keeps the crawl state: every saved page crawled, its normal form visited and saved once, at most 20 deep and counted once; every collected URL with an origin; `queued` within the site and every queue entry queued and at most 20 deep |
| `Crawler.TurnKeeps` | crawler.py:204-268 | one turn keeps the crawl state, removes no file, and either grows `queued` or shortens the queue, so the loop ends on a finite site |
| `Crawler.TurnCompletes` | crawler.py:204-268 | one turn keeps completeness: every URL taken from the queue so far is handled (images and PDFs collected, PDF answers collected, crawled pages saved), every saved page below depth 20 has its images and assets collected and its links skipped or queued, and every queued form is visited or still in the queue |
| `Crawler.TurnReaches` | crawler.py:204-268 | one turn keeps both the crawl state and completeness |
| `Crawler.Crawler.Explore` | crawler.py:194-268 | the crawl loop ends with every saved page crawled, at depth at most 20, visited once, counted once; the page count is the number of saved pages; every collected image or PDF has an origin; and, with the queue empty, every queued form was visited and every visited URL, and every page it saved, was handled completely |
| `Crawler.Crawler.Crawl` | crawler.py:194-288 | the crawl returns the number of saved pages; the PDF and image lists are duplicate-free, each entry has an origin, every image, PDF and PDF answer met is listed, every page saved below depth 20 had its links queued, and every queued form was visited (but the base URL's, when the base URL is itself skipped); every listed file is on disk unless its download fails; no file is removed |
| `Crawler.Crawler.SaveManifest` | crawler.py:291-309 | the manifest's totals are the list lengths and its counts the statistics; each URL list is sorted, duplicate-free and holds the same URLs |
| `Crawler.CrawlSite` | crawler.py:315-328 | every URL in the manifest's sorted HTML list was crawled, no two share a normalised form, and every listed PDF and image has its origin among the listed pages |
| `Crawler.ListedPages` | crawler.py:305 | sorting the page list with duplicates removed keeps every page crawled and every normal form distinct |
| `Crawler.OriginsListed` | crawler.py:305-307 | an origin among the saved pages is still an origin among the sorted, de-duplicated page list |
| `Crawler.AllCrawledSpec` | crawler.py:237-246 | the page-by-page crawled predicate is the same as "every saved page was crawled" |
| `Indexer.PageUrl` | api/indexer.py:93-96 | a page's URL always starts with "/" |
| `Indexer.PageUrlRoot` | api/indexer.py:94-96 | the root "index.html" has URL "/" |
| `Indexer.PageUrlOfDirectory` | api/indexer.py:94 | a directory's "index.html" has the directory as its URL |
| `Indexer.PageUrlOfFile` | api/indexer.py:94 | any other file keeps its path after the "/" |
| `Indexer.TitleFrom` | api/indexer.py:101 | title-casing keeps the length and upper-cases exactly the letters that follow no letter |
| `Indexer.TitleCaseIdempotent` | api/indexer.py:101 | title-casing a title-cased string changes nothing |
| `Indexer.CategoryOfRootFile` | api/indexer.py:98-101 | a page at the site root has no category |
| `Indexer.CategoryOfDirectory` | api/indexer.py:99-101 | a page below a directory takes the title-cased directory name as its category |
| `Indexer.ResolveImage` | api/indexer.py:68-76 | a resolved image source starts with "/" or "http", and a source that already does (and is not "../" or "./") is kept as it is |
| `Indexer.FindFirstImage` | api/indexer.py:59-77 | the loop stops at the first source that qualifies and returns it resolved, or "" |
| `Indexer.FirstImageChoice` | api/indexer.py:59-77 | the first image is "" exactly when no stripped source qualifies; otherwise it is the resolved first qualifying source |
| `Indexer.PageTitle` | api/indexer.py:40-44 | without a `<title>` string or `<h1>` the title is the file name (the fallback of line 120) |
| `Indexer.ExtractPage` | api/indexer.py:20-128 | `extract_text_from_html` on a parsed page gives `PageOf` |
| `Indexer.PageOfSpec` | api/indexer.py:29-117 | a page yields nothing exactly when its `lang` is set without "cs" or its cleaned text is under 50 characters; a kept page's chunks join back to the cleaned text, with a single chunk up to 600 characters |
| `Indexer.PageOfKept` | api/indexer.py:119-128 | a kept page's record holds its title, URL, stripped meta and og descriptions, first image, text, chunks and category |
| `Indexer.ToImageDesc` | api/indexer.py:194-208 | a dictionary entry's record has the key's file name; a string value is the description and the key the path; a dictionary value gives its description or "" and its path or else the key |
| `Indexer.ReshapeDescs` | api/indexer.py:192-208 | the loop over the dictionary gives `DictRecords` |
| `Indexer.DictRecordsFilter` | api/indexer.py:194-208 | there is one record per string or dictionary entry, reshaped, in file order |
| `Indexer.DictRecordsSpec` | api/indexer.py:194-208 | the records are the usable entries at increasing positions, and every usable entry gives one |
| `Indexer.ImageUrl` | api/indexer.py:225-227 | an image URL starts with "/"; a path is used as is or with "/" put in front; without a path the URL is the upload directory and the file name |
| `Indexer.ImageTitle` | api/indexer.py:228 | an image title starts with "Obrázek: " and has no '-' or '_' after it |
| `Indexer.ImageEntriesSpec` | api/indexer.py:219-244 | each image with a non-empty description gives one entry, in order; every image entry has a non-empty document, category "Obrázek", chunk index 0, a URL starting with "/" that is also its og image, and a meta description of at most 500 characters that starts the document |
| `Indexer.PageEntriesSpec` | api/indexer.py:246-260 | chunk `i` of a page gives the entry numbered `i`, holding the chunk, the page's title and URL, and a prefix of at most 500 characters of its meta description |
| `Indexer.CollectImageEntries` | api/indexer.py:219-244 | the three lists hold the image entries position by position, and the count is their length |
| `Indexer.AppendPageChunks` | api/indexer.py:247-260 | one page's chunks are appended to the three lists in step |
| `Indexer.CollectEntries` | api/indexer.py:214-260 | the three lists hold the image entries and then the chunk entries, position by position; the count is their length |
| `Indexer.FirstOccurrencesIncreasing` | api/indexer.py:263-268 | the kept indices increase, so the order is preserved |
| `Indexer.FirstOccurrencesAreFirst` | api/indexer.py:263-268 | every kept index is the first occurrence of its ID |
| `Indexer.FirstOccurrencesComplete` | api/indexer.py:263-268 | every first occurrence is kept |
| `Indexer.FirstOccurrenceKept` | api/indexer.py:263-268 | every ID keeps one occurrence |
| `Indexer.DedupDistinct` | api/indexer.py:262-273 | after de-duplication no ID repeats and the same IDs are present |
| `Indexer.PickAligned` | api/indexer.py:271-273 | picking the same indices from the three lists keeps them aligned |
| `Indexer.Dedup` | api/indexer.py:262-274 | the lists become the first occurrences of each ID, in order and still aligned; the count is reset to the new length only when something was removed |
| `Indexer.BatchesAreWindows` | api/indexer.py:279-282 | each batch is the same window of the documents, IDs and metadata |
| `Indexer.BatchesCover` | api/indexer.py:279-282 | the batches, concatenated, give back each of the three lists; every batch is non-empty, every batch but the last holds 50 and the last at most 50 |
| `Indexer.AddInBatches` | api/indexer.py:279-291 | the batch loop adds exactly the batches of 50 |
| `Indexer.BatchesAligned` | api/indexer.py:279-291 | each batch keeps each entry's document, ID and metadata together |
| `Indexer.ParsePages` | api/indexer.py:141-145 | the parsing loop keeps the pages with content, in file order |
| `Indexer.IndexSite` | api/indexer.py:131-294 | nothing is indexed exactly when no page has content; otherwise the collection receives the batches of the de-duplicated entries |
| `Indexer.KeptEntriesSpec` | api/indexer.py:262-274 | the kept entries are the first entry with each ID, at increasing positions, with no ID twice |
| `Indexer.SiteBatchesSpec` | api/indexer.py:262-291 | the batches cover the kept entries in order, 50 at a time, keeping each entry's fields together |
| `PosixPath.Basename` | crawler.py:67 | a base name has no '/' and ends the path, right after its last '/' |
| `PosixPath.BasenameAppend` | crawler.py:67-68 | appending slash-free text to a path appends it to the base name |
| `PosixPath.Dirname` | api/indexer.py:70 | a directory name is a prefix of the path, and "" for a path without '/' |
| `PosixPath.JoinPath` | api/indexer.py:71 | joining an absolute path gives it; otherwise the result starts with the first part and ends with the second |
| `PosixPath.DirnameOfJoin` | api/indexer.py:70-71 | the directory of a joined file name is the directory it was joined to |
| `PosixPath.NormPath` | api/indexer.py:71 | a normalised path is non-empty and starts with '/' exactly when the input does |
| `PosixPath.NormPathIdempotent` | api/indexer.py:71 | normalising a normalised path changes nothing |
| `PosixPath.PurePathParts` | crawler.py:69 | the components of `SITE_DIR / path` are the path's components other than empty and ".", in order |
| `PosixPath.PurePathIdempotent` | crawler.py:69 | collapsing a collapsed path changes nothing |
| `PosixPath.PurePathClean` | crawler.py:69 | a path with no empty or "." component is kept as it is |
| `PosixPath.PurePathDropsPart` | crawler.py:69 | an empty or "." component between two others does not change the file named: "x//y" and "x/./y" name "x/y" |
| `PosixPath.PurePathCollapses` | crawler.py:69 | "a//b.html" and "a/./b.html" both name "a/b.html" |
| `PageText.CollapseSpacing` | api/indexer.py:87 | after collapsing, every whitespace character is a plain space and no two spaces meet |
| `PageText.CleanTextIsClean` | api/indexer.py:87 | the cleaned text has single spaces between words and none at either end |
| `PageText.CleanTextIdempotent` | api/indexer.py:87 | cleaning a cleaned text changes nothing |
| `PageText.JoinSentences` | api/indexer.py:106 | the sentences, joined with one space, give the text back |
| `PageText.SentencesTrimmed` | api/indexer.py:106 | every sentence of a cleaned non-empty text is non-empty and trimmed |
| `PageText.ChunksAreChunking` | api/indexer.py:107-115 | the chunks are the sentence groups joined with spaces; a group closes only when the next sentence would push it past 500 characters, and every group of several sentences fits the budget |
| `PageText.ChunkLengths` | api/indexer.py:109 | a chunk of several sentences has at most 501 characters (500 for the first) |
| `PageText.ChunksJoin` | api/indexer.py:87-115 | the chunks of a cleaned text, joined with a space, give back the text: no sentence is lost or reordered |
| `PageText.ChunkSentences` | api/indexer.py:107-115 | the sentence loop gives `Chunks` |
| `PageText.ChunkText` | api/indexer.py:103-117 | text of at most 600 characters is one chunk equal to the text; longer text gives the greedy chunking; either way the chunks joined with a space are the text |
| `SearchApi.Snippet` | api/main.py:98 | the snippet is the document when it has at most 250 characters; otherwise it is the first 250 characters and "...", so at most 253 |
| `SearchApi.ToResult` | api/main.py:92-101 | a result carries the hit's score and snippet, with "Bez názvu", "#" and "" as the defaults for a missing title, url and category |
| `SearchApi.Search` | api/main.py:64-110 | an empty collection gives no results and time 0; otherwise the results are `Results(hits)`; `total` is the number of results |
| `SearchApi.ResultsAreRelevantHitsInOrder` | api/main.py:86-101 | the results are the hits scoring at least 0.15, formatted, at increasing positions, with every such hit present: no re-sort |
| `SearchApi.ResultsBounded` | api/main.py:92-98 | no result scores below 0.15, and no snippet exceeds 253 characters |
| `SearchApi.ToSuggestion` | api/main.py:138-146 | a suggestion carries the hit's title and score, with "#" and "" as the defaults for a missing url and category |
| `SearchApi.Suggest` | api/main.py:113-154 | an empty collection gives no suggestions and time 0; otherwise the suggestions are `Suggestions(hits)` |
| `SearchApi.SuggestionsDistinct` | api/main.py:133-140 | no two suggestions share a title |
| `SearchApi.SuggestionsFirstWins` | api/main.py:134-146 | every suggestion comes from a hit scoring at least 0.2 with a non-empty title, and it is the first such hit with that title |
| `SearchApi.SuggestionsComplete` | api/main.py:134-140 | the title of every such hit appears among the suggestions |
| `SearchApi.SuggestionsGrow` | api/main.py:134-146 | reading one more hit never removes a suggested title |
| `Enrich.VisualEntriesSpec` | scripts/enrich_index.py:36-48 | each description gives exactly one record, in order, titled "Vizuální popis: <url>", with category "Vizuální popis", chunk index 0 and the description as document |
| `Enrich.CollectVisuals` | scripts/enrich_index.py:36-48 | the three lists hold the description records position by position |
| `Enrich.WindowChunksAreWindows` | scripts/enrich_index.py:60-63 | the chunks of a long text are its consecutive 500-character windows, each stripped, with the empty ones dropped |
| `Enrich.WindowChunksBounded` | scripts/enrich_index.py:60-63 | every window chunk is non-empty, at most 500 characters and a piece of the text |
| `Enrich.ChunkPdf` | scripts/enrich_index.py:57-65 | text of at most 600 characters gives one chunk equal to the text; longer text gives the window chunks |
| `Enrich.ChunkWindows` | scripts/enrich_index.py:60-63 | the window loop gives `WindowChunks` |
| `Enrich.PdfEntriesSpec` | scripts/enrich_index.py:67-78 | chunk `ci` of a catalogue gives the record numbered `ci`, titled "Katalog: <file>", with category "PDF Katalog" and url the catalogue's url or "/catalogs/<file>" |
| `Enrich.AppendPdfChunks` | scripts/enrich_index.py:67-78 | one catalogue's records are appended to the three lists in step |
| `Enrich.CollectEnrichment` | scripts/enrich_index.py:27-78 | the lists hold the description records and then the catalogue records; a missing input file adds nothing |
| `Enrich.CollectPdfs` | scripts/enrich_index.py:55-78 | each catalogue's records are appended in turn |
| `Enrich.EnrichIndex` | scripts/enrich_index.py:80-96 | nothing is upserted exactly when there are no records; otherwise the upserts are the batches of 50 |
| `Enrich.EnrichBatchesSpec` | scripts/enrich_index.py:85-96 | the batches cover every record exactly once, in order, at most 50 each, with only the last shorter |
| `Inject.InjectFileSpec` | inject-search.py:17-40 | a page is rewritten exactly when it was read, has no marker and has "</body>" or "</html>"; the new page holds the marker; taking the inserted blocks out again gives back the old page |
| `Inject.InjectIdempotent` | inject-search.py:24-29 | injecting an injected page again writes nothing |
| `Inject.BlockUnbordered` | inject-search.py:29-32 | the inserted block followed by the closing tag overlaps no copy of itself, so its insertions can be undone |
| `Inject.InjectSite` | inject-search.py:43-50 | each file ends up injected or unchanged, and the count is the number of files `inject_file` rewrote |
| `Inject.SecondRunInjectsNothing` | inject-search.py:24-50 | a second run over the injected site rewrites no file and counts none |
| `Screenshots.ImportantPages` | scripts/take_screenshots.py:17-31 | the loop keeps exactly the important pages, in the sorted input order |
| `Screenshots.ImportantPagesSpec` | scripts/take_screenshots.py:19-30 | a page is kept exactly when it is in the input and important, and the kept pages keep the input order |
| `Screenshots.InLanguageDir` | scripts/take_screenshots.py:22-23 | a page whose path with a leading "/" contains a language directory is rejected |
| `Screenshots.LanguageDirRejected` | scripts/take_screenshots.py:22-23 | a page inside /de/, /en/, /fr/, /ru/ or /sk/, at the top or deeper, is rejected |
| `Screenshots.Sanitize` | scripts/take_screenshots.py:37 | sanitising keeps the length, leaves only `[A-Za-z0-9_-]`, and changes exactly the other characters to '_' |
| `Screenshots.SanitizeSafe` | scripts/take_screenshots.py:37 | a name that is already safe is left unchanged |
| `Screenshots.UrlToFilenameSpec` | scripts/take_screenshots.py:34-38 | a screenshot name ends in ".png"; everything before is safe and is the plain name with unsafe characters turned into '_' |
| `Screenshots.PlainNameNoSlash` | scripts/take_screenshots.py:36 | every "/" became "__", so the name has no "/" |
| `Screenshots.TakeScreenshots` | scripts/take_screenshots.py:56-70 | the screenshot loop builds `ManifestOf(pages, shot)` |
| `Screenshots.ScreenshotSite` | scripts/take_screenshots.py:41-70 | the manifest is the one built from the important pages |
| `Screenshots.ManifestKeys` | scripts/take_screenshots.py:61-70 | the manifest's keys are exactly the web URLs of pages whose screenshot succeeded |
| `Screenshots.ManifestKeysRooted` | scripts/take_screenshots.py:64-66 | every web URL in the manifest starts with "/" |
| `Screenshots.ManifestLastWins` | scripts/take_screenshots.py:64-67 | a successful page with no later successful page of the same web URL maps to its own file name |
| `Screenshots.ManifestKeyIsPageUrl` | scripts/take_screenshots.py:64-66 | the web URL of a page is the URL the indexer stores for it |
| `Describe.RelPathSpec` | scripts/describe_screenshots.py:26-30 | the rewritten path ends in ".html" and is relative; an empty path gives "index.html"; an ".html" path is kept; any other gives the path without trailing slashes plus "/index.html" |
| `Describe.RelPathIdempotent` | scripts/describe_screenshots.py:26-30 | rewriting a rewritten path changes nothing |
| `Describe.RelPathOfRoot` | scripts/describe_screenshots.py:26-28 | the URL "/" leads back to "index.html" |
| `Describe.RelPathOfDirectory` | scripts/describe_screenshots.py:26-30 | the indexer's URL of a directory page leads back to its "index.html" |
| `Describe.RelPathOfFile` | scripts/describe_screenshots.py:26-30 | the indexer's URL of any other ".html" page leads back to the page |
| `Describe.FallbackDoubled` | scripts/describe_screenshots.py:32-37 | a file is found at the rewritten path, or else at that path with a second ".html"; nothing is found otherwise |
| `Describe.ClassifyGeneral` | scripts/describe_screenshots.py:71-100 | the page is the homepage exactly when its lower-cased path is "/" or "/index.html"; it is a general page exactly when it is neither and contains none of the fragments |
| `Describe.KitchenBeforeFurniture` | scripts/describe_screenshots.py:73-76 | a path with "/nabytek/kuchyne" is a kitchen category, although it also contains "/nabytek/" |
| `Describe.HomepageNoFurniture` | scripts/describe_screenshots.py:73 | the homepage paths contain no "/nabytek/" |
| `Describe.DetailBeforeFurniture` | scripts/describe_screenshots.py:79-82 | a furniture category has no "/detail/"; a path with both "/nabytek/" and "/detail/" (and no kitchen or bathroom) is a product detail |
| `Describe.ClassifyIgnoresCase` | scripts/describe_screenshots.py:72 | paths with the same lower-case form get the same type |
| `Describe.LayoutOf` | scripts/describe_screenshots.py:117-122 | gallery exactly for more than 5 images, text with images exactly for 1 to 5, mostly text exactly for 0 |
| `Describe.LayoutMonotone` | scripts/describe_screenshots.py:117-122 | a page with more images never gets a less image-heavy layout |
| `Describe.LayoutLineDistinct` | scripts/describe_screenshots.py:117-122 | the three layout lines differ, so the last line of a description tells its layout |
| `Describe.CollectNavLinks` | scripts/describe_screenshots.py:63-68 | the navigation loop gives `NavLinksOf` |
| `Describe.AddNavTexts` | scripts/describe_screenshots.py:65-68 | the inner loop appends, in order, exactly the link texts that are non-empty and shorter than 50 characters |
| `Describe.NavLinksSpec` | scripts/describe_screenshots.py:63-68 | every navigation text is non-empty, under 50 characters, and among the first 10 links of some navigation element |
| `Describe.HeadParts` | scripts/describe_screenshots.py:103-111 | the first lines are the type, then the title, description, headings and sections, each only when present |
| `Describe.TailParts` | scripts/describe_screenshots.py:113-122 | the last lines are the navigation line when there are links, then the layout line |
| `Describe.BuildDescription` | scripts/describe_screenshots.py:102-124 | the description is `Description(p, t)` |
| `Describe.DescriptionSpec` | scripts/describe_screenshots.py:103-124 | the description's first line is "Typ stránky: …", it contains a "Počet obrázků: N" line, and it ends with the layout line |
| `Describe.DescribedStart` | scripts/describe_screenshots.py:23-124 | a produced description is non-empty and starts with the type line of the URL's class |
| `Describe.TxtNameOfScreenshot` | scripts/describe_screenshots.py:144 | the text file of a screenshot is its sanitised name with ".txt" |
| `Describe.DescribeAll` | scripts/describe_screenshots.py:139-155 | the manifest loop gives `DescriptionsOf` |
| `Describe.DescriptionsKeys` | scripts/describe_screenshots.py:140-152 | the summary has an entry for exactly the URLs that got a description |
| `Describe.DescriptionsEntries` | scripts/describe_screenshots.py:144-152 | each entry's text file is named after its screenshot, and its description is the one produced for its URL |
| `Describe.SummaryTyped` | scripts/describe_screenshots.py:140-152 | every summary description starts with the type line of its URL |
| `FindPdfs.NormalizeHrefSpec` | scripts/find_pdfs.py:27-34 | an href is kept exactly when it contains ".pdf", ignoring case, and starts with "//", "/" or "http"; a kept URL starts with "http", ends with the href and still contains ".pdf"; a "/"-link gets "https://" |
| `FindPdfs.NormalizeHrefIdempotent` | scripts/find_pdfs.py:27-34 | completing a completed URL gives it back |
| `FindPdfs.PageUrlsSpec` | scripts/find_pdfs.py:25-35 | a page contributes exactly the completed forms of its PDF hrefs |
| `FindPdfs.SiteUrlsSpec` | scripts/find_pdfs.py:20-37 | the set holds exactly the URLs linked from some readable page |
| `FindPdfs.SiteUrlsArePdfs` | scripts/find_pdfs.py:27-35 | every collected URL starts with "http" and contains ".pdf" |
| `FindPdfs.AddPageUrls` | scripts/find_pdfs.py:25-35 | the href loop adds a page's URLs to the set |
| `FindPdfs.FindPdfLinks` | scripts/find_pdfs.py:18-39 | the list is sorted, duplicate-free, and holds exactly the collected URLs |
| `FindPdfs.FileNameSpec` | scripts/find_pdfs.py:48-50 | a file name ends in ".pdf" and has no "/" and no "?" |
| `FindPdfs.FileNameOfName` | scripts/find_pdfs.py:48-50 | a ".pdf" name without "/" or "?" is its own file name |
| `FindPdfs.FileNameLastSegment` | scripts/find_pdfs.py:48 | only the last "/" segment decides the name |
| `FindPdfs.DownloadPdfs` | scripts/find_pdfs.py:42-66 | the download loop gives `DownloadsOf` |
| `FindPdfs.DownloadsListed` | scripts/find_pdfs.py:47-64 | there are no more downloads than URLs; each listed download is one of the URLs with its file name, and that file is among the files afterwards, as are the present ones |
| `FindPdfs.DownloadsFiles` | scripts/find_pdfs.py:53-64 | every file afterwards was already present or belongs to a listed download |
| `FindPdfs.PresentListed` | scripts/find_pdfs.py:53-56 | a URL whose file is already present is listed without a download |
| `FindPdfs.AllListed` | scripts/find_pdfs.py:53-61 | when every download succeeds, every URL is listed |
| `FindPdfs.ExtractTexts` | scripts/find_pdfs.py:110-121 | the extraction loop gives `PdfData` |
| `FindPdfs.PdfDataSpec` | scripts/find_pdfs.py:110-121 | every record has a non-empty text of at most 5000 characters that starts its file's extracted text, and comes from a listed download |
| `FindPdfs.FindPdfsMain` | scripts/find_pdfs.py:95-121 | nothing is produced exactly when no PDF URL is found; otherwise the records are extracted from the downloads of the sorted URLs |

## Left out

- HTML parsing with BeautifulSoup is not modelled. Every program receives the parsed parts it uses.
- `extract_all_urls` (crawler.py:98-165) is not modelled, because it is pure HTML traversal. A fetched page's links, images and assets are inputs.
- Network, file and process I/O are not modelled: `requests`, `urlretrieve`, Playwright, `pdftotext` and pypdf, file writes, JSON dumping, `mkdir`, logging, `print` and sleeps. Their outcomes are function parameters.
- The vector store (query, add, upsert, delete, count) and the embedding model are left out. The store's hits and its count are inputs; an add or upsert is the batch it receives.
- `urlparse`, `urljoin`, `unquote` and md5 are parameters. Their library behaviour is outside the model.
- `time.perf_counter` timings are left out. The elapsed time is an input.
- `round(score, 4)` is not modelled. Scores are exact reals.
- FastAPI routing, CORS, the pydantic models and `startup` (api/main.py:1-61) are not modelled. The endpoints' query bounds become preconditions of `SearchApi.Search` and `SearchApi.Suggest`.
- `health` (api/main.py:157-163) is left out. It only reports the store's count.
- The three image-describing scripts (describe-images.py, describe_images.py, describe-images2.py) are left out. They are vision-model clients with no logic of their own beyond file filters.
- `Text.Lower`: lower-cases ASCII letters only and keeps every other character. Python's `str.lower` also folds non-ASCII letters, and a few of them fold to ASCII: U+212A KELVIN SIGN becomes 'k' and U+0130 becomes "i" with a combining dot. A path holding the Kelvin sign can therefore match "/kontakt", "/kariera", "/nabytek/kuchyne", the image-skip word "blank" or ".mkv" in Python but not in the model.
- `Indexer.TitleFrom`: counts every character above U+007F as a cased letter and keeps its case; only ASCII letters change case. Python's Unicode `str.title()` changes the case of Czech letters and treats non-letters such as an en dash or a no-break space as word breaks, so "a–b" gives "A–B" in Python and "A–b" in the model.
- `Crawler.Ext`: lower-cases ASCII letters only, with the same Kelvin-sign gap as `Text.Lower`.
- Python's set iteration order is not modelled. The crawler's download phases, the manifest lists before sorting, and `find_pdf_links` pick some order, and every property holds for any order.
- `rglob` order is not modelled. The file lists are inputs in whatever order the file system gives.
- A JSON manifest or summary read back as a dictionary is a sequence of pairs in file order. Two equal keys cannot occur.
- An exception inside a loop is not modelled. A file read error or a failed download, screenshot or request is the oracle's answer, and the loop continues as in the code; other exceptions (for instance a missing "description" key in enrich_index.py:38) are outside the model.
- The description's text files are not modelled as files. A `txt` name is computed; the write is I/O.
- The crawler's `url_to_path` prefix `SITE_DIR` is dropped. Paths are relative to the site directory.
- The crawler's oversized-file check reads `content-length` as an optional number. A malformed header is outside the model.
- Character encoding and `errors="ignore"` decoding are left out. Strings are sequences of characters.
- The crawler's class is defined over `Crawler.Policy` function fields. `Crawler.SitePolicy` plugs in `normalize_url`, `should_skip`, the extension test and `url_to_path`. The crawl's properties are proved for any policy and hold for the site's own.
- The crawl's termination assumes a finite site. The `universe` ghost parameter is a finite set holding the normal form of every link of every page; the code itself loops as long as it finds new links.
