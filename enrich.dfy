/**
 * `scripts/enrich_index.py`: extra chunks for the existing search collection — one per
 * visual page description and several per PDF catalogue — upserted in batches of 50.
 * The chunk records reuse the indexer's `Entry` and `ChunkMeta`, with no first-image and
 * no source-type key.
 */
module Enrich {
  import opened Opt
  import opened Text
  import opened Seqs
  import opened Indexer

  const VisualCategory: string := "Vizuální popis"
  const VisualTitlePrefix: string := "Vizuální popis: "
  const PdfCategory: string := "PDF Katalog"
  const PdfTitlePrefix: string := "Katalog: "
  const CatalogDir: string := "/catalogs/"
  const PdfSingleLimit: nat := 600
  const PdfWindow: nat := 500

  /** One entry of the descriptions file: a page URL and its visual description. */
  datatype Visual = Visual(url: string, description: string)

  /** One entry of the PDF text file: the catalogue's file name, its text and its URL if given. */
  datatype PdfText = PdfText(file: string, text: string, url: Option<string>)

  // ---------------------------------------------------------------- visual descriptions

  /** The record of a visual description; its ID is the digest of "visual_" and the URL. */
  function VisualEntry(v: Visual, hash: string -> string): Entry {
    Entry(v.description, hash("visual_" + v.url),
      ChunkMeta(VisualTitlePrefix + v.url, v.url, VisualCategory, 0, Take(v.description, MetaDescLimit), "", None, None))
  }

  /** The records of the descriptions, in the file's order. */
  function VisualEntries(vs: seq<Visual>, hash: string -> string): seq<Entry>
    decreases |vs|
  {
    if |vs| == 0 then []
    else VisualEntries(vs[..|vs| - 1], hash) + [VisualEntry(vs[|vs| - 1], hash)]
  }

  /**
   * Each description gives exactly one record, in order, holding the description as its
   * document, "Vizuální popis: <url>" as its title, the URL, the category "Vizuální popis"
   * and chunk index 0.
   */
  lemma {:induction false} VisualEntriesSpec(vs: seq<Visual>, hash: string -> string)
    ensures |VisualEntries(vs, hash)| == |vs|
    ensures forall k :: 0 <= k < |vs| ==>
      var e := VisualEntries(vs, hash)[k];
      && e.doc == vs[k].description && e.id == hash("visual_" + vs[k].url)
      && e.meta.title == VisualTitlePrefix + vs[k].url && e.meta.url == vs[k].url
      && e.meta.category == VisualCategory && e.meta.chunkIndex == 0
      && StartsWith(vs[k].description, e.meta.metaDesc) && |e.meta.metaDesc| <= MetaDescLimit
    decreases |vs|
  {
    if |vs| > 0 {
      VisualEntriesSpec(vs[..|vs| - 1], hash);
    }
  }

  lemma {:induction false} VisualEntriesStep(vs: seq<Visual>, j: nat, hash: string -> string)
    requires j < |vs|
    ensures VisualEntries(vs[..j + 1], hash) == VisualEntries(vs[..j], hash) + [VisualEntry(vs[j], hash)]
  {
    assert vs[..j + 1][..j] == vs[..j];
  }

  /** The first loop of `main`: one record per description. */
  method CollectVisuals(vs: seq<Visual>, hash: string -> string)
    returns (docs: seq<string>, ids: seq<string>, metas: seq<ChunkMeta>)
    ensures Aligned(docs, ids, metas, VisualEntries(vs, hash))
  {
    docs, ids, metas := [], [], [];
    for j := 0 to |vs|
      invariant Aligned(docs, ids, metas, VisualEntries(vs[..j], hash))
    {
      VisualEntriesStep(vs, j, hash);
      var v := vs[j];
      var id := hash("visual_" + v.url);
      var meta := ChunkMeta(VisualTitlePrefix + v.url, v.url, VisualCategory, 0, Take(v.description, MetaDescLimit), "", None, None);
      AlignedSnoc(docs, ids, metas, VisualEntries(vs[..j], hash), Entry(v.description, id, meta));
      docs, ids, metas := docs + [v.description], ids + [id], metas + [meta];
    }
    assert vs[..|vs|] == vs;
  }

  // ---------------------------------------------------------------- PDF chunking

  predicate NonEmpty(s: string) { s != "" }

  /** The stripped, non-empty 500-character windows of the text from `start` on. */
  function WindowChunks(text: string, start: nat): seq<string>
    decreases |text| - start
  {
    if start >= |text| then []
    else
      var end := if start + PdfWindow <= |text| then start + PdfWindow else |text|;
      var c := Strip(text[start..end]);
      (if c != "" then [c] else []) + WindowChunks(text, end)
  }

  /** The chunks of a catalogue's text: the whole text up to 600 characters, else its windows. */
  function PdfChunks(text: string): seq<string> {
    if |text| > PdfSingleLimit then WindowChunks(text, 0) else [text]
  }

  /**
   * The windowed chunks are exactly the 500-character windows of `range(start, len, 500)`,
   * each stripped, with the empty ones dropped and the others in order.
   */
  lemma {:induction false} WindowChunksAreWindows(text: string, start: nat)
    ensures WindowChunks(text, start) == Filter(NonEmpty, Map(Strip, Windows(text, PdfWindow, start)))
    decreases |text| - start
  {
    if start < |text| {
      var end := if start + PdfWindow <= |text| then start + PdfWindow else |text|;
      var w := text[start..end];
      var rest := Windows(text, PdfWindow, end);
      WindowChunksAreWindows(text, end);
      MapCons(Strip, w, rest);
      FilterAppend(NonEmpty, [Strip(w)], Map(Strip, rest));
      assert Filter(NonEmpty, [Strip(w)]) == (if Strip(w) != "" then [Strip(w)] else []) by {
        assert [Strip(w)][..0] == [];
      }
    } else {
      assert Map(Strip, Windows(text, PdfWindow, start)) == [];
    }
  }

  /** A stripped string is a piece of the original. */
  lemma {:induction false} StripContained(s: string)
    ensures |Strip(s)| <= |s| && Contains(s, Strip(s))
  {
    var l := StripLeft(s);
    var a := |s| - |l|;
    assert Strip(s) == l[..|Strip(s)|];
    assert s[a..a + |Strip(s)|] == l[..|Strip(s)|];
    assert MatchAt(s, Strip(s), a);
  }

  /** A slice of the text is a piece of the text. */
  lemma {:induction false} SliceContained(text: string, start: nat, end: nat)
    requires start <= end <= |text|
    ensures Contains(text, text[start..end])
  {
    assert MatchAt(text, text[start..end], start);
  }

  /** Every windowed chunk is non-empty, at most 500 characters and a piece of the text. */
  lemma {:induction false} WindowChunksBounded(text: string, start: nat)
    ensures forall c :: c in WindowChunks(text, start) ==> c != "" && |c| <= PdfWindow && Contains(text, c)
    decreases |text| - start
  {
    if start < |text| {
      var end := if start + PdfWindow <= |text| then start + PdfWindow else |text|;
      WindowChunksBounded(text, end);
      StrippedPiece(text, start, end);
    }
  }

  /** A stripped slice of the text is a piece of the text no longer than the slice. */
  lemma {:induction false} StrippedPiece(text: string, start: nat, end: nat)
    requires start <= end <= |text|
    ensures |Strip(text[start..end])| <= end - start && Contains(text, Strip(text[start..end]))
  {
    StripContained(text[start..end]);
    SliceContained(text, start, end);
    ContainsTransitive(text, text[start..end], Strip(text[start..end]));
  }

  /** One turn of the window loop: the chunk of the window at `i`, if any, then the rest. */
  lemma {:induction false} WindowChunksStep(text: string, i: nat, chunk: string)
    requires i < |text|
    requires chunk == Strip(text[i..if i + PdfWindow <= |text| then i + PdfWindow else |text|])
    ensures WindowChunks(text, i) == (if chunk != "" then [chunk] else []) + WindowChunks(text, i + PdfWindow)
  {
    if i + PdfWindow > |text| {
      assert WindowChunks(text, i + PdfWindow) == [] == WindowChunks(text, |text|);
    }
  }

  /** The chunks gathered so far, followed by the chunks from the next window on, are unchanged by one turn. */
  lemma {:induction false} WindowLoopStep(text: string, i: nat, chunk: string, before: seq<string>, after: seq<string>)
    requires i < |text|
    requires chunk == Strip(text[i..if i + PdfWindow <= |text| then i + PdfWindow else |text|])
    requires after == if chunk != "" then before + [chunk] else before
    ensures after + WindowChunks(text, i + PdfWindow) == before + WindowChunks(text, i)
  {
    WindowChunksStep(text, i, chunk);
    AppendAssoc(before, if chunk != "" then [chunk] else [], WindowChunks(text, i + PdfWindow));
    if chunk == "" {
      assert before + [] == before;
    }
  }

  /** The chunking of one catalogue's text. */
  method ChunkPdf(text: string) returns (chunks: seq<string>)
    ensures chunks == PdfChunks(text)
  {
    if |text| > PdfSingleLimit {
      chunks := ChunkWindows(text);
    } else {
      chunks := [text];
    }
  }

  /** The `range(0, len(text), 500)` loop of the chunking. */
  method ChunkWindows(text: string) returns (chunks: seq<string>)
    ensures chunks == WindowChunks(text, 0)
  {
    chunks := [];
    var i := 0;
    while i < |text|
      invariant chunks + WindowChunks(text, i) == WindowChunks(text, 0)
      decreases |text| - i
    {
      var end := if i + PdfWindow <= |text| then i + PdfWindow else |text|;
      var chunk := Strip(text[i..end]);
      ghost var before := chunks;
      if chunk != "" {
        chunks := chunks + [chunk];
      }
      WindowLoopStep(text, i, chunk, before, chunks);
      i := i + PdfWindow;
    }
  }

  // ---------------------------------------------------------------- PDF records

  /** The record of chunk `ci` of a catalogue; its ID is the digest of "pdf_<file>_<ci>". */
  function PdfEntry(pdf: PdfText, chunks: seq<string>, ci: nat, hash: string -> string): Entry
    requires ci < |chunks|
  {
    Entry(chunks[ci], hash("pdf_" + pdf.file + "_" + NatToString(ci)),
      ChunkMeta(PdfTitlePrefix + pdf.file, pdf.url.GetOr(CatalogDir + pdf.file), PdfCategory, ci,
        Take(chunks[ci], MetaDescLimit), "", None, None))
  }

  /** The records of one catalogue, numbered from 0. */
  function PdfEntries(pdf: PdfText, hash: string -> string): seq<Entry> {
    var chunks := PdfChunks(pdf.text);
    seq(|chunks|, ci requires 0 <= ci < |chunks| => PdfEntry(pdf, chunks, ci, hash))
  }

  function AllPdfEntries(pdfs: seq<PdfText>, hash: string -> string): seq<Entry>
    decreases |pdfs|
  {
    if |pdfs| == 0 then []
    else AllPdfEntries(pdfs[..|pdfs| - 1], hash) + PdfEntries(pdfs[|pdfs| - 1], hash)
  }

  /**
   * Chunk indices of a catalogue run 0, 1, 2, … over its chunks in order; the title is
   * "Katalog: <file>", the category "PDF Katalog" and the URL the given one or
   * "/catalogs/<file>".
   */
  lemma PdfEntriesSpec(pdf: PdfText, hash: string -> string)
    ensures |PdfEntries(pdf, hash)| == |PdfChunks(pdf.text)|
    ensures forall ci :: 0 <= ci < |PdfEntries(pdf, hash)| ==>
      var e := PdfEntries(pdf, hash)[ci];
      && e.doc == PdfChunks(pdf.text)[ci] && e.meta.chunkIndex == ci
      && e.meta.title == PdfTitlePrefix + pdf.file && e.meta.category == PdfCategory
      && (pdf.url.Some? ==> e.meta.url == pdf.url.value)
      && (pdf.url.None? ==> e.meta.url == CatalogDir + pdf.file)
      && StartsWith(e.doc, e.meta.metaDesc) && |e.meta.metaDesc| <= MetaDescLimit
  {
  }

  lemma {:induction false} AllPdfEntriesStep(pdfs: seq<PdfText>, k: nat, hash: string -> string)
    requires k < |pdfs|
    ensures AllPdfEntries(pdfs[..k + 1], hash) == AllPdfEntries(pdfs[..k], hash) + PdfEntries(pdfs[k], hash)
  {
    assert pdfs[..k + 1][..k] == pdfs[..k];
  }

  /** The inner loop: the chunks of one catalogue appended to the three lists. */
  method AppendPdfChunks(pdf: PdfText, hash: string -> string, docs: seq<string>, ids: seq<string>,
                         metas: seq<ChunkMeta>, ghost es: seq<Entry>)
    returns (docs': seq<string>, ids': seq<string>, metas': seq<ChunkMeta>)
    requires Aligned(docs, ids, metas, es)
    ensures Aligned(docs', ids', metas', es + PdfEntries(pdf, hash))
  {
    var chunks := ChunkPdf(pdf.text);
    ghost var pe := PdfEntries(pdf, hash);
    docs', ids', metas' := docs, ids, metas;
    for ci := 0 to |chunks|
      invariant Aligned(docs', ids', metas', es + pe[..ci])
    {
      var chunk := chunks[ci];
      var id := hash("pdf_" + pdf.file + "_" + NatToString(ci));
      var meta := ChunkMeta(PdfTitlePrefix + pdf.file, pdf.url.GetOr(CatalogDir + pdf.file), PdfCategory, ci,
        Take(chunk, MetaDescLimit), "", None, None);
      var e := Entry(chunk, id, meta);
      assert e == pe[ci];
      assert es + pe[..ci + 1] == (es + pe[..ci]) + [e];
      AlignedSnoc(docs', ids', metas', es + pe[..ci], e);
      docs', ids', metas' := docs' + [chunk], ids' + [id], metas' + [meta];
    }
    assert pe[..|chunks|] == pe;
  }

  // ---------------------------------------------------------------- the enrichment run

  /** Everything `main` collects: the descriptions first, then the catalogues' chunks. */
  function EnrichEntries(visuals: Option<seq<Visual>>, pdfs: Option<seq<PdfText>>, hash: string -> string): seq<Entry> {
    VisualEntries(visuals.GetOr([]), hash) + AllPdfEntries(pdfs.GetOr([]), hash)
  }

  /** The two loops filling the three parallel lists; a missing input file adds nothing. */
  method CollectEnrichment(visuals: Option<seq<Visual>>, pdfs: Option<seq<PdfText>>, hash: string -> string)
    returns (docs: seq<string>, ids: seq<string>, metas: seq<ChunkMeta>)
    ensures Aligned(docs, ids, metas, EnrichEntries(visuals, pdfs, hash))
  {
    docs, ids, metas := [], [], [];
    if visuals.Some? {
      docs, ids, metas := CollectVisuals(visuals.value, hash);
    }
    if pdfs.Some? {
      docs, ids, metas := CollectPdfs(pdfs.value, hash, docs, ids, metas, VisualEntries(visuals.GetOr([]), hash));
    } else {
      assert EnrichEntries(visuals, pdfs, hash) == VisualEntries(visuals.GetOr([]), hash);
    }
  }

  /** The second loop: the chunks of each catalogue in turn. */
  method CollectPdfs(ps: seq<PdfText>, hash: string -> string, docs: seq<string>, ids: seq<string>,
                     metas: seq<ChunkMeta>, ghost es: seq<Entry>)
    returns (docs': seq<string>, ids': seq<string>, metas': seq<ChunkMeta>)
    requires Aligned(docs, ids, metas, es)
    ensures Aligned(docs', ids', metas', es + AllPdfEntries(ps, hash))
  {
    docs', ids', metas' := docs, ids, metas;
    for k := 0 to |ps|
      invariant Aligned(docs', ids', metas', es + AllPdfEntries(ps[..k], hash))
    {
      docs', ids', metas' := AppendPdfChunks(ps[k], hash, docs', ids', metas', es + AllPdfEntries(ps[..k], hash));
      AllPdfEntriesStep(ps, k, hash);
      AppendAssoc(es, AllPdfEntries(ps[..k], hash), PdfEntries(ps[k], hash));
    }
    assert ps[..|ps|] == ps;
  }

  /** What `main` upserts, batch by batch. */
  function EnrichBatches(visuals: Option<seq<Visual>>, pdfs: Option<seq<PdfText>>, hash: string -> string): seq<Batch> {
    var es := EnrichEntries(visuals, pdfs, hash);
    BatchesFrom(Map(EntryDoc, es), Map(EntryId, es), Map(EntryMeta, es), 0)
  }

  /**
   * The `main` of the enrichment. With nothing collected it stops without upserting;
   * otherwise it upserts the batches.
   */
  method EnrichIndex(visuals: Option<seq<Visual>>, pdfs: Option<seq<PdfText>>, hash: string -> string)
    returns (upserted: Option<seq<Batch>>)
    ensures upserted.None? <==> EnrichEntries(visuals, pdfs, hash) == []
    ensures upserted.Some? ==> upserted.value == EnrichBatches(visuals, pdfs, hash)
  {
    var docs, ids, metas := CollectEnrichment(visuals, pdfs, hash);
    if |docs| == 0 {
      return None;
    }
    AlignedMaps(docs, ids, metas, EnrichEntries(visuals, pdfs, hash));
    var batches := AddInBatches(docs, ids, metas);
    upserted := Some(batches);
  }

  /**
   * The upserts cover every collected record exactly once, in order, at most 50 per batch
   * with only the last shorter, each batch keeping a record's document, ID and metadata together.
   */
  lemma {:induction false} EnrichBatchesSpec(visuals: Option<seq<Visual>>, pdfs: Option<seq<PdfText>>, hash: string -> string)
    ensures var es := EnrichEntries(visuals, pdfs, hash);
      && IsBatching(es, Windows(es, BatchSize, 0), BatchSize)
      && |EnrichBatches(visuals, pdfs, hash)| == |Windows(es, BatchSize, 0)|
      && forall k :: 0 <= k < |EnrichBatches(visuals, pdfs, hash)| ==>
        var b := EnrichBatches(visuals, pdfs, hash)[k];
        Aligned(b.docs, b.ids, b.metas, Windows(es, BatchSize, 0)[k])
  {
    var es := EnrichEntries(visuals, pdfs, hash);
    WindowsBatching(es, BatchSize, 0);
    assert es[0..] == es;
    BatchesAligned(Map(EntryDoc, es), Map(EntryId, es), Map(EntryMeta, es), es, 0);
  }
}
