/**
 * `inject-search.py`: the search overlay's stylesheet and script are inserted into every
 * HTML page of the saved site, guarded by a marker comment so that a page is injected at
 * most once.
 */
module Inject {
  import opened Opt
  import opened Text
  import opened Seqs

  // The two tags. Each is written as a join of short literals, because the proofs below check
  // their characters one by one and short pieces keep that cheap; the joins spell exactly the
  // tags `inject-search.py` inserts.
  const SearchCss: string := "<link rel=" + "\"stylesheet\"" + " href=" + "\"/search/" + "search.css\">"
  const SearchJs: string := "<script " + "src=" + "\"/search/" + "search.js\"" + " defer>" + "</script>"
  const Marker: string := "<!-- HANAK-SEARCH -->"
  const BodyClose: string := "</body>"
  const HtmlClose: string := "</html>"

  /** The inserted block: the marker, the stylesheet link and the script tag, each on its own line. */
  function Block(): string {
    "\n" + Marker + BlockTail()
  }

  /** What follows the marker in the block: the two tags, each on its own line. */
  function BlockTail(): string {
    "\n" + SearchCss + "\n" + SearchJs + "\n"
  }

  /**
   * `inject_file` on a page's content (`None` when the file cannot be read): the new content
   * to write, or `None` when the function returns False and writes nothing.
   */
  function InjectFile(content: Option<string>): Option<string> {
    match content
    case None => None
    case Some(c) =>
      if Contains(c, Marker) then None
      else if Contains(c, BodyClose) then Some(Replace(c, BodyClose, Block() + BodyClose))
      else if Contains(c, HtmlClose) then Some(Replace(c, HtmlClose, Block() + HtmlClose))
      else None
  }

  // ---------------------------------------------------------------- the block

  /**
   * A string opening with a newline whose only '!' is its third character, and whose last
   * two characters are not newlines, has no border.
   */
  lemma {:induction false} UnborderedByBang(s: string)
    requires |s| >= 3 && s[0] == '\n' && s[2] == '!' && '!' !in s[3..]
    requires s[|s| - 1] != '\n' && s[|s| - 2] != '\n'
    ensures Unbordered(s)
  {
    forall d | 0 < d < |s|
      ensures !StartsWith(s, s[d..])
    {
      if d >= |s| - 2 {
        assert s[d..][0] != s[..|s| - d][0];
      } else {
        assert s[3..][d - 1] == s[d + 2];
        assert s[d..][2] != s[..|s| - d][2];
      }
    }
  }

  /** The shape `UnborderedByBang` asks for, for a newline, a "<!"-comment and a tail. */
  lemma {:induction false} NewlineCommentTail(m: string, rest: string)
    requires |m| >= 2 && m[1] == '!' && '!' !in m[2..] && '!' !in rest
    requires |rest| >= 2 && rest[|rest| - 1] != '\n' && rest[|rest| - 2] != '\n'
    ensures Unbordered("\n" + m + rest)
  {
    var s := "\n" + m + rest;
    assert s[2] == m[1];
    assert s[3..] == m[2..] + rest;
    assert s[|s| - 1] == rest[|rest| - 1] && s[|s| - 2] == rest[|rest| - 2];
    UnborderedByBang(s);
  }

  lemma MarkerShape()
    ensures |Marker| >= 2 && Marker[1] == '!' && '!' !in Marker[2..]
  {
  }

  lemma TagsWithoutBang()
    ensures '!' !in SearchCss && '!' !in SearchJs && '!' !in BodyClose && '!' !in HtmlClose
  {
  }

  lemma {:induction false} TailWithoutBang()
    ensures '!' !in BlockTail()
  {
    TagsWithoutBang();
  }

  /** The block followed by a closing tag has no border, so it can be taken out again. */
  lemma {:induction false} BlockUnbordered(close: string)
    requires close == BodyClose || close == HtmlClose
    ensures Unbordered(Block() + close)
  {
    var rest := BlockTail() + close;
    AppendAssoc("\n" + Marker, BlockTail(), close);
    MarkerShape();
    TailWithoutBang();
    TagsWithoutBang();
    assert rest[|rest| - 1] == close[|close| - 1] && rest[|rest| - 2] == close[|close| - 2];
    NewlineCommentTail(Marker, rest);
  }

  /** The block followed by a closing tag holds the marker. */
  lemma {:induction false} BlockHasMarker(close: string)
    ensures Contains(Block() + close, Marker)
  {
    MatchInMiddle("\n", Marker, BlockTail() + close);
    AppendAssoc("\n" + Marker, BlockTail(), close);
  }

  /** Inserting the block before an occurring closing tag puts the marker into the page. */
  lemma {:induction false} InsertedHasMarker(c: string, close: string)
    requires |close| > 0 && Contains(c, close)
    ensures Contains(Replace(c, close, Block() + close), Marker)
  {
    ReplaceInserts(c, close, Block() + close);
    BlockHasMarker(close);
    ContainsTransitive(Replace(c, close, Block() + close), Block() + close, Marker);
  }

  // ---------------------------------------------------------------- inject_file

  /**
   * A page is rewritten exactly when it was read, has no marker and has "</body>" or
   * "</html>"; the new page holds the marker, and taking the inserted blocks out again gives
   * back the old page.
   */
  lemma {:induction false} InjectFileSpec(content: Option<string>)
    ensures InjectFile(content).Some? <==>
      content.Some? && !Contains(content.value, Marker) && (Contains(content.value, BodyClose) || Contains(content.value, HtmlClose))
    ensures InjectFile(content).Some? ==> Contains(InjectFile(content).value, Marker)
    ensures InjectFile(content).Some? && Contains(content.value, BodyClose) ==>
      Replace(InjectFile(content).value, Block() + BodyClose, BodyClose) == content.value
    ensures InjectFile(content).Some? && !Contains(content.value, BodyClose) ==>
      Replace(InjectFile(content).value, Block() + HtmlClose, HtmlClose) == content.value
  {
    if InjectFile(content).Some? {
      var c := content.value;
      var close := if Contains(c, BodyClose) then BodyClose else HtmlClose;
      assert InjectFile(content).value == Replace(c, close, Block() + close);
      InsertedHasMarker(c, close);
      BlockUnbordered(close);
      ReplaceRoundTrip(c, close, Block());
    }
  }

  /** Injecting an injected page again changes nothing: the second call returns False. */
  lemma {:induction false} InjectIdempotent(content: Option<string>)
    requires InjectFile(content).Some?
    ensures InjectFile(InjectFile(content)) == None
  {
    InjectFileSpec(content);
  }

  // ---------------------------------------------------------------- main

  /** The page after a run: the rewritten content when `inject_file` wrote one, else the old one. */
  function AfterInjection(content: Option<string>): Option<string> {
    match InjectFile(content)
    case Some(c) => Some(c)
    case None => content
  }

  predicate Injects(content: Option<string>) {
    InjectFile(content).Some?
  }

  /** What one turn of the loop keeps and counts for a page. */
  lemma {:induction false} InjectStep(content: Option<string>, written: Option<string>)
    requires written == InjectFile(content)
    ensures written.Some? <==> Injects(content)
    ensures AfterInjection(content) == if written.Some? then written else content
  {
  }

  /** The loop of `main`: every HTML file in turn, counting the files rewritten. */
  method InjectSite(files: seq<Option<string>>) returns (injected: nat, after: seq<Option<string>>)
    ensures |after| == |files| && forall i :: 0 <= i < |files| ==> after[i] == AfterInjection(files[i])
    ensures injected == |Filter(Injects, files)|
  {
    injected, after := 0, [];
    for i := 0 to |files|
      invariant |after| == i && forall j :: 0 <= j < i ==> after[j] == AfterInjection(files[j])
      invariant injected == |Filter(Injects, files[..i])|
    {
      assert files[..i + 1] == files[..i] + [files[i]];
      FilterSnoc(Injects, files[..i], files[i]);
      var written := InjectFile(files[i]);
      InjectStep(files[i], written);
      PointwiseSnoc(AfterInjection, files, after, AfterInjection(files[i]));
      if written.Some? {
        injected := injected + 1;
        after := after + [written];
      } else {
        after := after + [files[i]];
      }
    }
    assert files[..|files|] == files;
  }

  /** A second run over the injected site rewrites no file and counts none. */
  lemma {:induction false} SecondRunInjectsNothing(files: seq<Option<string>>)
    ensures |Filter(Injects, seq(|files|, i requires 0 <= i < |files| => AfterInjection(files[i])))| == 0
  {
    var after := seq(|files|, i requires 0 <= i < |files| => AfterInjection(files[i]));
    forall i | 0 <= i < |after|
      ensures !Injects(after[i])
    {
      if InjectFile(files[i]).Some? {
        InjectIdempotent(files[i]);
      }
    }
    NoneKept(after);
  }

  lemma {:induction false} NoneKept(s: seq<Option<string>>)
    requires forall i :: 0 <= i < |s| ==> !Injects(s[i])
    ensures Filter(Injects, s) == []
    decreases |s|
  {
    if |s| > 0 {
      NoneKept(s[..|s| - 1]);
    }
  }
}
