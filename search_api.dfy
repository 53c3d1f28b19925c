/**
 * The `/search` and `/suggest` endpoints of the search API: a single nearest-neighbour
 * query against the vector index, a similarity threshold, snippet truncation, metadata
 * defaults and, for typeahead, title de-duplication where the first hit with a title wins.
 *
 * The index is an oracle: `count` is the number of stored chunks and `hits` is the
 * ordered list of `(document, metadata, distance)` triples the query returned, at most
 * `limit` of them. The elapsed time is a parameter.
 */
module SearchApi {
  import opened Opt
  import opened Text
  import opened Seqs

  const SearchThreshold: real := 0.15
  const SuggestThreshold: real := 0.2
  const SnippetLength: nat := 250

  datatype Metadata = Metadata(title: Option<string>, url: Option<string>, category: Option<string>)

  /** One row of the index's answer. */
  datatype Hit = Hit(document: string, meta: Metadata, distance: real)

  datatype SearchResult = SearchResult(title: string, url: string, snippet: string, score: real, category: string)

  datatype SearchResponse = SearchResponse(query: string, results: seq<SearchResult>, total: nat, timeMs: real)

  datatype Suggestion = Suggestion(title: string, url: string, category: string, score: real)

  datatype SuggestResponse = SuggestResponse(query: string, suggestions: seq<Suggestion>, timeMs: real)

  /** Cosine distance turned into a similarity. */
  function Score(h: Hit): real {
    1.0 - h.distance
  }

  /** At most 250 characters of the document, with an ellipsis when something was cut. */
  function Snippet(doc: string): (r: string)
    ensures |r| <= SnippetLength + 3
    ensures |doc| <= SnippetLength ==> r == doc
    ensures |doc| > SnippetLength ==> |r| == SnippetLength + 3 && StartsWith(doc, r[..SnippetLength]) && EndsWith(r, "...")
  {
    if |doc| > SnippetLength then Take(doc, SnippetLength) + "..." else doc
  }

  // ---------------------------------------------------------------- search

  predicate Relevant(h: Hit) {
    !(Score(h) < SearchThreshold)
  }

  /** One formatted result, with the defaults used when the metadata lacks a key. */
  function ToResult(h: Hit): (r: SearchResult)
    ensures r.score == Score(h) && r.snippet == Snippet(h.document)
    ensures r.title == (if h.meta.title.Some? then h.meta.title.value else "Bez názvu")
    ensures r.url == (if h.meta.url.Some? then h.meta.url.value else "#")
    ensures r.category == (if h.meta.category.Some? then h.meta.category.value else "")
  {
    SearchResult(h.meta.title.GetOr("Bez názvu"), h.meta.url.GetOr("#"), Snippet(h.document), Score(h), h.meta.category.GetOr(""))
  }

  /** What `search` reports for a non-empty collection: the relevant hits, formatted, in index order. */
  function Results(hits: seq<Hit>): seq<SearchResult> {
    Map(ToResult, Filter(Relevant, hits))
  }

  /**
   * `GET /search`. The query and limit bounds are the endpoint's parameter validation; the
   * index never returns more than `limit` hits.
   */
  method Search(q: string, limit: int, count: nat, hits: seq<Hit>, elapsedMs: real) returns (resp: SearchResponse)
    requires 1 <= |q| <= 200 && 1 <= limit <= 50
    requires |hits| <= limit
    ensures resp.query == q && resp.total == |resp.results|
    ensures count == 0 ==> resp.results == [] && resp.timeMs == 0.0
    ensures count > 0 ==> resp.results == Results(hits) && resp.timeMs == elapsedMs
  {
    if count == 0 {
      return SearchResponse(q, [], 0, 0.0);
    }
    var results: seq<SearchResult> := [];
    var i := 0;
    while i < |hits|
      invariant 0 <= i <= |hits|
      invariant results == Results(hits[..i])
    {
      ResultsSnoc(hits[..i], hits[i]);
      assert hits[..i + 1] == hits[..i] + [hits[i]];
      if !(Score(hits[i]) < SearchThreshold) {
        results := results + [ToResult(hits[i])];
      }
      i := i + 1;
    }
    assert hits[..i] == hits;
    resp := SearchResponse(q, results, |results|, elapsedMs);
  }

  lemma {:induction false} ResultsSnoc(hits: seq<Hit>, h: Hit)
    ensures Results(hits + [h]) == Results(hits) + (if Relevant(h) then [ToResult(h)] else [])
  {
    FilterSnoc(Relevant, hits, h);
  }

  /**
   * Every result is a relevant hit, formatted; every relevant hit gives a result; and the
   * results keep the index's order (no re-ranking).
   */
  lemma {:induction false} ResultsAreRelevantHitsInOrder(hits: seq<Hit>) returns (idx: seq<nat>)
    ensures |idx| == |Results(hits)| && Increasing(idx)
    ensures forall k :: 0 <= k < |idx| ==>
      idx[k] < |hits| && Score(hits[idx[k]]) >= SearchThreshold && Results(hits)[k] == ToResult(hits[idx[k]])
    ensures forall i :: 0 <= i < |hits| && Score(hits[i]) >= SearchThreshold ==> i in idx
  {
    idx := FilterOrder(Relevant, hits);
  }

  /** A result never carries a score below the threshold, and its snippet is at most 253 characters. */
  lemma {:induction false} ResultsBounded(hits: seq<Hit>)
    ensures forall r :: r in Results(hits) ==> r.score >= SearchThreshold && |r.snippet| <= SnippetLength + 3
  {
    forall r | r in Results(hits)
      ensures r.score >= SearchThreshold && |r.snippet| <= SnippetLength + 3
    {
      var k :| 0 <= k < |Results(hits)| && Results(hits)[k] == r;
      var h := Filter(Relevant, hits)[k];
      FilterMembership(Relevant, hits, h);
    }
  }

  // ---------------------------------------------------------------- suggest

  /** The title a hit contributes; a missing title counts as empty. */
  function Title(h: Hit): string {
    h.meta.title.GetOr("")
  }

  /** A hit that may become a suggestion: similar enough and titled. */
  predicate Eligible(h: Hit) {
    !(Score(h) < SuggestThreshold) && Title(h) != ""
  }

  function ToSuggestion(h: Hit): (s: Suggestion)
    ensures s.title == Title(h) && s.score == Score(h)
    ensures s.url == (if h.meta.url.Some? then h.meta.url.value else "#")
    ensures s.category == (if h.meta.category.Some? then h.meta.category.value else "")
  {
    Suggestion(Title(h), h.meta.url.GetOr("#"), h.meta.category.GetOr(""), Score(h))
  }

  function Titles(ss: seq<Suggestion>): set<string> {
    set s | s in ss :: s.title
  }

  /** The suggestions after reading `hits` from the left, skipping already-seen titles. */
  function Suggestions(hits: seq<Hit>): seq<Suggestion>
    decreases |hits|
  {
    if |hits| == 0 then []
    else
      var prev := Suggestions(hits[..|hits| - 1]);
      var h := hits[|hits| - 1];
      if Eligible(h) && Title(h) !in Titles(prev) then prev + [ToSuggestion(h)] else prev
  }

  /** `GET /suggest`, with the endpoint's parameter validation as preconditions. */
  method Suggest(q: string, limit: int, count: nat, hits: seq<Hit>, elapsedMs: real) returns (resp: SuggestResponse)
    requires 2 <= |q| <= 100 && 1 <= limit <= 15
    requires |hits| <= limit
    ensures resp.query == q
    ensures count == 0 ==> resp.suggestions == [] && resp.timeMs == 0.0
    ensures count > 0 ==> resp.suggestions == Suggestions(hits) && resp.timeMs == elapsedMs
  {
    if count == 0 {
      return SuggestResponse(q, [], 0.0);
    }
    var suggestions: seq<Suggestion> := [];
    var seen: set<string> := {};
    var i := 0;
    while i < |hits|
      invariant 0 <= i <= |hits|
      invariant suggestions == Suggestions(hits[..i])
      invariant seen == Titles(suggestions)
    {
      assert hits[..i + 1][..i] == hits[..i];
      var h := hits[i];
      if !(Score(h) < SuggestThreshold) {
        var title := h.meta.title.GetOr("");
        if title != "" && title !in seen {
          seen := seen + {title};
          suggestions := suggestions + [ToSuggestion(h)];
        }
      }
      i := i + 1;
    }
    assert hits[..i] == hits;
    resp := SuggestResponse(q, suggestions, elapsedMs);
  }

  /** No two suggestions share a title. */
  lemma {:induction false} SuggestionsDistinct(hits: seq<Hit>)
    ensures forall a, b :: 0 <= a < b < |Suggestions(hits)| ==> Suggestions(hits)[a].title != Suggestions(hits)[b].title
    decreases |hits|
  {
    if |hits| > 0 {
      SuggestionsDistinct(hits[..|hits| - 1]);
    }
  }

  /** `hits[j]` is eligible and no earlier eligible hit has its title. */
  predicate FirstOfTitle(hits: seq<Hit>, j: int) {
    0 <= j < |hits| && Eligible(hits[j])
    && forall i :: 0 <= i < j && Eligible(hits[i]) ==> Title(hits[i]) != Title(hits[j])
  }

  /**
   * Every suggestion comes from an eligible hit that is the first eligible hit with its
   * title: later hits with the same title are skipped.
   */
  lemma {:induction false} SuggestionsFirstWins(hits: seq<Hit>, k: nat)
    requires k < |Suggestions(hits)|
    ensures exists j :: FirstOfTitle(hits, j) && Suggestions(hits)[k] == ToSuggestion(hits[j])
    decreases |hits|
  {
    var prev := Suggestions(hits[..|hits| - 1]);
    var last := |hits| - 1;
    if k < |prev| {
      SuggestionsFirstWins(hits[..last], k);
      var j :| FirstOfTitle(hits[..last], j) && prev[k] == ToSuggestion(hits[..last][j]);
      assert hits[j] == hits[..last][j];
      forall i | 0 <= i < j && Eligible(hits[i])
        ensures Title(hits[i]) != Title(hits[j])
      {
        assert hits[i] == hits[..last][i];
      }
    } else {
      forall i | 0 <= i < last && Eligible(hits[i])
        ensures Title(hits[i]) != Title(hits[last])
      {
        assert hits[i] == hits[..last][i];
        SuggestionsComplete(hits[..last], i);
      }
    }
  }

  /** The title of every eligible hit is among the suggestions. */
  lemma {:induction false} SuggestionsComplete(hits: seq<Hit>, i: nat)
    requires i < |hits| && Eligible(hits[i])
    ensures Title(hits[i]) in Titles(Suggestions(hits))
    decreases |hits|
  {
    var last := |hits| - 1;
    var prev := Suggestions(hits[..last]);
    if i < last {
      assert hits[i] == hits[..last][i];
      SuggestionsComplete(hits[..last], i);
      SuggestionsGrow(hits);
    } else if Title(hits[i]) !in Titles(prev) {
      assert ToSuggestion(hits[i]) in Suggestions(hits);
    }
  }

  /** Reading one more hit only appends to the suggestions. */
  lemma SuggestionsGrow(hits: seq<Hit>)
    requires |hits| > 0
    ensures Titles(Suggestions(hits[..|hits| - 1])) <= Titles(Suggestions(hits))
  {
  }
}
