/**
 * The text side of the indexer: whitespace collapsing, the sentence split and the
 * sentence-based chunking of a page's text.
 */
module PageText {
  import opened Text
  import opened Seqs

  const SingleChunkLimit: nat := 600
  const ChunkBudget: nat := 500

  // ---------------------------------------------------------------- whitespace

  predicate OnlyPlainSpaces(s: string) {
    forall i :: 0 <= i < |s| && IsSpace(s[i]) ==> s[i] == ' '
  }

  predicate NoDoubleSpace(s: string) {
    forall i :: 0 <= i < |s| - 1 ==> !(s[i] == ' ' && s[i + 1] == ' ')
  }

  /** Whitespace-collapsed and stripped: single plain spaces between non-space characters. */
  predicate IsClean(s: string) {
    OnlyPlainSpaces(s) && NoDoubleSpace(s) && (s == "" || (s[0] != ' ' && s[|s| - 1] != ' '))
  }

  /** `re.sub(r'\s+', ' ', s)`: every run of whitespace becomes one space. */
  function Collapse(s: string): string
    decreases |s|
  {
    if |s| == 0 then ""
    else if IsSpace(s[0]) then " " + Collapse(StripLeft(s[1..]))
    else [s[0]] + Collapse(s[1..])
  }

  /** Collapsed text has single plain spaces, and starts with one only where the input starts with whitespace. */
  lemma {:induction false} CollapseSpacing(s: string)
    ensures OnlyPlainSpaces(Collapse(s)) && NoDoubleSpace(Collapse(s))
    ensures |Collapse(s)| > 0 && Collapse(s)[0] == ' ' ==> |s| > 0 && IsSpace(s[0])
    decreases |s|
  {
    if |s| > 0 {
      if IsSpace(s[0]) {
        var t := StripLeft(s[1..]);
        CollapseSpacing(t);
        PrependSpacing(' ', Collapse(t));
      } else {
        CollapseSpacing(s[1..]);
        PrependSpacing(s[0], Collapse(s[1..]));
      }
    }
  }

  /** A plain space or a non-space character in front of collapsed text keeps it collapsed, unless two spaces meet. */
  lemma {:induction false} PrependSpacing(c: char, r: string)
    requires OnlyPlainSpaces(r) && NoDoubleSpace(r)
    requires !IsSpace(c) || c == ' '
    requires c == ' ' ==> r == "" || r[0] != ' '
    ensures OnlyPlainSpaces([c] + r) && NoDoubleSpace([c] + r)
  {
    var t := [c] + r;
    forall i | 0 < i < |t|
      ensures t[i] == r[i - 1]
    {
    }
  }

  /** `re.sub(r'\s+', ' ', text).strip()`. */
  function CleanText(s: string): string {
    Strip(Collapse(s))
  }

  lemma {:induction false} SliceKeepsSpacing(s: string, a: nat, b: nat)
    requires a <= b <= |s| && OnlyPlainSpaces(s) && NoDoubleSpace(s)
    ensures OnlyPlainSpaces(s[a..b]) && NoDoubleSpace(s[a..b])
  {
    var t := s[a..b];
    forall i | 0 <= i < |t| - 1
      ensures !(t[i] == ' ' && t[i + 1] == ' ')
    {
      assert t[i] == s[a + i] && t[i + 1] == s[a + i + 1];
    }
  }

  /** The cleaned text has single plain spaces and no space at either end. */
  lemma {:induction false} CleanTextIsClean(s: string)
    ensures IsClean(CleanText(s))
  {
    CollapseSpacing(s);
    StripSpaced(Collapse(s));
  }

  /** Stripping text with single plain spaces leaves it clean. */
  lemma {:induction false} StripSpaced(c: string)
    requires OnlyPlainSpaces(c) && NoDoubleSpace(c)
    ensures IsClean(Strip(c))
  {
    StripLeftSpaced(c);
    StripRightSpaced(StripLeft(c));
  }

  lemma {:induction false} StripLeftSpaced(c: string)
    requires OnlyPlainSpaces(c) && NoDoubleSpace(c)
    ensures OnlyPlainSpaces(StripLeft(c)) && NoDoubleSpace(StripLeft(c))
    ensures StripLeft(c) == "" || StripLeft(c)[0] != ' '
  {
    var l := StripLeft(c);
    SliceKeepsSpacing(c, |c| - |l|, |c|);
  }

  lemma {:induction false} StripRightSpaced(l: string)
    requires OnlyPlainSpaces(l) && NoDoubleSpace(l) && (l == "" || l[0] != ' ')
    ensures IsClean(StripRight(l))
  {
    var r := StripRight(l);
    SliceKeepsSpacing(l, 0, |r|);
    if r != "" {
      assert r[0] == l[0];
    }
  }

  lemma {:induction false} CollapseClean(s: string)
    requires OnlyPlainSpaces(s) && NoDoubleSpace(s)
    ensures Collapse(s) == s
    decreases |s|
  {
    if |s| > 0 {
      SliceKeepsSpacing(s, 1, |s|);
      if IsSpace(s[0]) {
        assert |s| == 1 || !IsSpace(s[1..][0]);
        assert StripLeft(s[1..]) == s[1..];
      }
      CollapseClean(s[1..]);
      assert s == [s[0]] + s[1..];
    }
  }

  /** Cleaning is idempotent: cleaned text is left as it is. */
  lemma {:induction false} CleanTextIdempotent(s: string)
    ensures CleanText(CleanText(s)) == CleanText(s)
  {
    var t := CleanText(s);
    CleanTextIsClean(s);
    CollapseClean(t);
    assert StripLeft(t) == t;
    assert StripRight(t) == t;
  }

  // ---------------------------------------------------------------- chunking

  predicate IsTerminator(c: char) {
    c == '.' || c == '!' || c == '?'
  }

  /**
   * `re.split(r'(?<=[.!?])\s+', s)` on cleaned text, where every whitespace run is one
   * plain space: the text is cut at each space that follows '.', '!' or '?'.
   * `afterTerminator` says whether the character before `s` was one of those.
   */
  function SentencesFrom(s: string, afterTerminator: bool): (parts: seq<string>)
    ensures |parts| >= 1
    decreases |s|
  {
    if |s| == 0 then [""]
    else
      var rest := SentencesFrom(s[1..], IsTerminator(s[0]));
      if s[0] == ' ' && afterTerminator then [""] + rest
      else [[s[0]] + rest[0]] + rest[1..]
  }

  function Sentences(text: string): seq<string> {
    SentencesFrom(text, false)
  }

  /** Joining the sentences with one space gives the text back. */
  lemma {:induction false} JoinSentences(s: string, afterTerminator: bool)
    ensures Join(SentencesFrom(s, afterTerminator), " ") == s
    decreases |s|
  {
    if |s| > 0 {
      var rest := SentencesFrom(s[1..], IsTerminator(s[0]));
      JoinSentences(s[1..], IsTerminator(s[0]));
      if s[0] == ' ' && afterTerminator {
        assert ([""] + rest)[1..] == rest;
      } else {
        var parts := [[s[0]] + rest[0]] + rest[1..];
        if |rest| > 1 {
          assert parts[1..] == rest[1..];
        }
        assert s == [s[0]] + s[1..];
      }
    }
  }

  /** Non-empty, with no whitespace at either end. */
  predicate Trimmed(p: string) {
    |p| > 0 && !IsSpace(p[0]) && !IsSpace(p[|p| - 1])
  }

  /**
   * The pieces `parts` of `s`: all but the first are trimmed; the first is a prefix of
   * `s` that ends in a non-space and is empty only when `s` is, or when `s` opens with the
   * space that follows a terminator.
   */
  predicate SentenceShape(s: string, afterTerminator: bool, parts: seq<string>) {
    && |parts| >= 1
    && (forall k :: 1 <= k < |parts| ==> Trimmed(parts[k]))
    && (parts[0] == "" || !IsSpace(parts[0][|parts[0]| - 1]))
    && (parts[0] == "" ==> |s| == 0 || (s[0] == ' ' && afterTerminator))
    && StartsWith(s, parts[0])
  }

  lemma {:induction false} SentencesFromShape(s: string, afterTerminator: bool)
    requires OnlyPlainSpaces(s) && NoDoubleSpace(s) && (s == "" || s[|s| - 1] != ' ')
    ensures SentenceShape(s, afterTerminator, SentencesFrom(s, afterTerminator))
    decreases |s|
  {
    if |s| > 0 {
      var rest := SentencesFrom(s[1..], IsTerminator(s[0]));
      SliceKeepsSpacing(s, 1, |s|);
      SentencesFromShape(s[1..], IsTerminator(s[0]));
      if s[0] == ' ' && afterTerminator {
        ShapeCut(s, rest);
      } else {
        ShapeExtend(s, afterTerminator, rest);
      }
    }
  }

  /** A space after a terminator starts a new sentence. */
  lemma {:induction false} ShapeCut(s: string, rest: seq<string>)
    requires |s| > 0 && s[0] == ' ' && OnlyPlainSpaces(s) && NoDoubleSpace(s) && s[|s| - 1] != ' '
    requires SentenceShape(s[1..], false, rest)
    ensures SentenceShape(s, true, [""] + rest)
  {
    assert |s| > 1 && s[1] != ' ';
    assert rest[0] != "";
    assert rest[0][0] == s[1];
    var parts := [""] + rest;
    forall k | 1 <= k < |parts|
      ensures Trimmed(parts[k])
    {
      assert parts[k] == rest[k - 1];
    }
  }

  /** Any other character extends the first sentence. */
  lemma {:induction false} ShapeExtend(s: string, afterTerminator: bool, rest: seq<string>)
    requires |s| > 0 && !(s[0] == ' ' && afterTerminator) && OnlyPlainSpaces(s) && s[|s| - 1] != ' '
    requires SentenceShape(s[1..], IsTerminator(s[0]), rest)
    ensures SentenceShape(s, afterTerminator, [[s[0]] + rest[0]] + rest[1..])
  {
    var parts := [[s[0]] + rest[0]] + rest[1..];
    forall k | 1 <= k < |parts|
      ensures Trimmed(parts[k])
    {
      assert parts[k] == rest[k];
    }
    assert s == [s[0]] + s[1..];
  }

  /** Every sentence of a non-empty cleaned text is non-empty and trimmed. */
  lemma {:induction false} SentencesTrimmed(text: string)
    requires IsClean(text) && text != ""
    ensures forall k :: 0 <= k < |Sentences(text)| ==> Trimmed(Sentences(text)[k])
  {
    SentencesFromShape(text, false);
    var p := Sentences(text)[0];
    assert p[0] == text[0];
  }

  /** The chunk being built for group `k` starts with a space only for the first group. */
  function Pad(k: nat): string {
    if k == 0 then " " else ""
  }

  /** Each sentence after the first joined group `g` (the `k`-th) only because it fit the budget. */
  predicate Fits(g: seq<string>, k: nat) {
    forall j :: 0 < j < |g| ==> FitsAt(g, k, j)
  }

  /** Sentence `j` of group `g` fit after the sentences before it. */
  predicate FitsAt(g: seq<string>, k: nat, j: nat)
    requires j < |g|
  {
    |Pad(k)| + |Join(g[..j], " ")| + |g[j]| <= ChunkBudget
  }

  /** Chunk `k` is group `k`, non-empty, joined with spaces. */
  predicate JoinedAt(chunks: seq<string>, groups: seq<seq<string>>, k: nat)
    requires k < |groups| && k < |chunks|
  {
    |groups[k]| > 0 && chunks[k] == Join(groups[k], " ")
  }

  /** `chunks` are the non-empty `groups` of sentences, each joined with spaces. */
  predicate JoinsGroups(chunks: seq<string>, groups: seq<seq<string>>) {
    |groups| == |chunks| && forall k :: 0 <= k < |groups| ==> JoinedAt(chunks, groups, k)
  }

  predicate FitsGroup(groups: seq<seq<string>>, k: nat)
    requires k < |groups|
  {
    Fits(groups[k], k)
  }

  predicate AllFit(groups: seq<seq<string>>) {
    forall k :: 0 <= k < |groups| ==> FitsGroup(groups, k)
  }

  /** Group `k` was closed only because the first sentence of group `k + 1` would not fit. */
  predicate FullBefore(chunks: seq<string>, groups: seq<seq<string>>, k: nat)
    requires k + 1 < |groups| && k < |chunks|
  {
    |groups[k + 1]| > 0 ==> |Pad(k)| + |chunks[k]| + |groups[k + 1][0]| > ChunkBudget
  }

  predicate Greedy(chunks: seq<string>, groups: seq<seq<string>>)
    requires |groups| == |chunks|
  {
    forall k :: 0 <= k < |groups| - 1 ==> FullBefore(chunks, groups, k)
  }

  /**
   * The sentences are cut into groups, joined into `chunks`; a group took a sentence only
   * while it fit the budget and was closed only when the next one would not fit. The
   * first group is built with a leading space, which the budget check counts; the space
   * that joins two sentences it does not.
   */
  predicate IsChunking(sentences: seq<string>, chunks: seq<string>, groups: seq<seq<string>>) {
    Flatten(groups) == sentences && JoinsGroups(chunks, groups) && AllFit(groups) && Greedy(chunks, groups)
  }

  /** A group of trimmed sentences joined with spaces is trimmed. */
  lemma {:induction false} JoinTrimmed(g: seq<string>)
    requires |g| > 0 && forall x :: x in g ==> Trimmed(x)
    ensures Trimmed(Join(g, " "))
  {
    var j := Join(g, " ");
    JoinFirst(g, " ");
    JoinLast(g, " ");
    var first, last := g[0], g[|g| - 1];
    assert first in g && last in g;
    assert j[0] == first[0];
    assert j[|j| - 1] == last[|last| - 1];
  }

  /** Stripping a trimmed string, with or without the first group's leading space, gives it back. */
  lemma {:induction false} StripPadded(x: string, k: nat)
    requires Trimmed(x)
    ensures Strip(Pad(k) + x) == x
  {
    if k == 0 {
      assert (Pad(k) + x)[1..] == x;
    } else {
      assert Pad(k) + x == x;
    }
    assert StripLeft(Pad(k) + x) == x;
  }

  /** The state of the chunk loop after `i` sentences. */
  predicate Building(sentences: seq<string>, i: nat, chunks: seq<string>, groups: seq<seq<string>>,
                     current: string, group: seq<string>)
  {
    && i <= |sentences|
    && (forall k :: 0 <= k < |sentences| ==> Trimmed(sentences[k]))
    && Flatten(groups) + group == sentences[..i]
    && (forall x :: x in group ==> Trimmed(x))
    && (i == 0 ==> groups == [] && group == [] && current == "")
    && (i > 0 ==> |group| > 0 && current == Pad(|groups|) + Join(group, " "))
    && JoinsGroups(chunks, groups) && AllFit(groups) && Greedy(chunks, groups)
    && Fits(group, |groups|)
    && (|groups| > 0 ==> |group| > 0 && |Pad(|groups| - 1)| + |chunks[|groups| - 1]| + |group[0]| > ChunkBudget)
  }

  lemma {:induction false} JoinsGroupsSnoc(chunks: seq<string>, groups: seq<seq<string>>, group: seq<string>)
    requires JoinsGroups(chunks, groups) && |group| > 0
    ensures JoinsGroups(chunks + [Join(group, " ")], groups + [group])
  {
    var chunks', groups' := chunks + [Join(group, " ")], groups + [group];
    forall k | 0 <= k < |groups'|
      ensures JoinedAt(chunks', groups', k)
    {
      if k < |groups| {
        assert JoinedAt(chunks, groups, k);
        assert groups'[k] == groups[k] && chunks'[k] == chunks[k];
      }
    }
  }

  lemma {:induction false} AllFitSnoc(groups: seq<seq<string>>, group: seq<string>)
    requires AllFit(groups) && Fits(group, |groups|)
    ensures AllFit(groups + [group])
  {
    var groups' := groups + [group];
    forall k | 0 <= k < |groups'|
      ensures FitsGroup(groups', k)
    {
      if k < |groups| {
        assert FitsGroup(groups, k);
        assert groups'[k] == groups[k];
      }
    }
  }

  lemma {:induction false} GreedySnoc(chunks: seq<string>, groups: seq<seq<string>>, group: seq<string>)
    requires |groups| == |chunks| && Greedy(chunks, groups) && |group| > 0
    requires |groups| > 0 ==> |Pad(|groups| - 1)| + |chunks[|groups| - 1]| + |group[0]| > ChunkBudget
    ensures Greedy(chunks + [Join(group, " ")], groups + [group])
  {
    var chunks', groups' := chunks + [Join(group, " ")], groups + [group];
    forall k | 0 <= k < |groups'| - 1
      ensures FullBefore(chunks', groups', k)
    {
      assert chunks'[k] == chunks[k];
      if k + 1 < |groups| {
        assert FullBefore(chunks, groups, k);
        assert groups'[k + 1] == groups[k + 1];
      }
    }
  }

  /** Closing the open group keeps the closed groups well formed. */
  lemma {:induction false} CloseGroup(sentences: seq<string>, i: nat, chunks: seq<string>, groups: seq<seq<string>>,
                   current: string, group: seq<string>)
    requires Building(sentences, i, chunks, groups, current, group) && 0 < i
    ensures Strip(current) == Join(group, " ") != ""
    ensures Flatten(groups + [group]) == sentences[..i]
    ensures JoinsGroups(chunks + [Join(group, " ")], groups + [group])
    ensures AllFit(groups + [group]) && Greedy(chunks + [Join(group, " ")], groups + [group])
  {
    JoinTrimmed(group);
    StripPadded(Join(group, " "), |groups|);
    FlattenSnoc(groups, group);
    JoinsGroupsSnoc(chunks, groups, group);
    AllFitSnoc(groups, group);
    GreedySnoc(chunks, groups, group);
  }

  /** A sentence that does not fit closes the current group and starts the next one. */
  lemma {:induction false} FlushStep(sentences: seq<string>, i: nat, chunks: seq<string>, groups: seq<seq<string>>,
                  current: string, group: seq<string>)
    requires Building(sentences, i, chunks, groups, current, group) && 0 < i < |sentences|
    requires |current| + |sentences[i]| > ChunkBudget
    ensures Strip(current) == Join(group, " ")
    ensures Building(sentences, i + 1, chunks + [Join(group, " ")], groups + [group], sentences[i], [sentences[i]])
  {
    CloseGroup(sentences, i, chunks, groups, current, group);
    var x := sentences[i];
    var chunks', groups' := chunks + [Join(group, " ")], groups + [group];
    TakeSnoc(sentences, i);
    assert chunks'[|groups'| - 1] == Join(group, " ");
    StartBuilding(sentences, i + 1, chunks', groups', x);
  }

  /** The loop state right after a group was closed and sentence `i - 1` started the next one. */
  lemma {:induction false} StartBuilding(sentences: seq<string>, i: nat, chunks: seq<string>, groups: seq<seq<string>>, x: string)
    requires 0 < i <= |sentences| && x == sentences[i - 1]
    requires forall k :: 0 <= k < |sentences| ==> Trimmed(sentences[k])
    requires Flatten(groups) + [x] == sentences[..i] && |groups| > 0
    requires JoinsGroups(chunks, groups) && AllFit(groups) && Greedy(chunks, groups)
    requires |Pad(|groups| - 1)| + |chunks[|groups| - 1]| + |x| > ChunkBudget
    ensures Building(sentences, i, chunks, groups, x, [x])
  {
    assert Join([x], " ") == x;
    assert x in sentences[..i];
  }

  /** A sentence that fits (or the very first one) joins the current group. */
  lemma {:induction false} AppendStep(sentences: seq<string>, i: nat, chunks: seq<string>, groups: seq<seq<string>>,
                   current: string, group: seq<string>)
    requires Building(sentences, i, chunks, groups, current, group) && i < |sentences|
    requires !(|current| + |sentences[i]| > ChunkBudget && current != "")
    ensures Building(sentences, i + 1, chunks, groups, current + " " + sentences[i], group + [sentences[i]])
  {
    var x := sentences[i];
    if i == 0 {
      assert chunks == [] && groups == [] && group == [] && current == "";
      StartFirst(sentences);
    } else {
      JoinTrimmed(group);
      assert |current| == |Pad(|groups|)| + |Join(group, " ")|;
      FitsSnoc(group, |groups|, x);
      ExtendBuilding(sentences, i, chunks, groups, current, group);
    }
  }

  /** The loop state after the first sentence. */
  lemma {:induction false} StartFirst(sentences: seq<string>)
    requires |sentences| > 0 && forall k :: 0 <= k < |sentences| ==> Trimmed(sentences[k])
    ensures Building(sentences, 1, [], [], "" + " " + sentences[0], [] + [sentences[0]])
  {
    var x := sentences[0];
    assert [] + [x] == [x] && sentences[..1] == [x];
    assert Flatten<string>([]) == [];
    assert "" + " " + x == Pad(0) + Join([x], " ");
  }

  /** A sentence that fit the budget keeps the group within it. */
  lemma {:induction false} FitsSnoc(g: seq<string>, k: nat, x: string)
    requires Fits(g, k) && |g| > 0
    requires |Pad(k)| + |Join(g, " ")| + |x| <= ChunkBudget
    ensures Fits(g + [x], k)
  {
    var g' := g + [x];
    forall j | 0 < j < |g'|
      ensures FitsAt(g', k, j)
    {
      if j < |g| {
        assert FitsAt(g, k, j);
        assert g'[..j] == g[..j];
      } else {
        assert g'[..j] == g;
      }
    }
  }

  /** The loop state after sentence `i` joined the open group. */
  lemma {:induction false} ExtendBuilding(sentences: seq<string>, i: nat, chunks: seq<string>, groups: seq<seq<string>>,
                       current: string, group: seq<string>)
    requires Building(sentences, i, chunks, groups, current, group) && 0 < i < |sentences|
    requires Fits(group + [sentences[i]], |groups|)
    ensures Building(sentences, i + 1, chunks, groups, current + " " + sentences[i], group + [sentences[i]])
  {
    var x := sentences[i];
    TakeSnoc(sentences, i);
    JoinSnoc(group, x, " ");
    assert x in sentences;
  }

  /** After the last sentence the open group becomes the last chunk. */
  lemma {:induction false} FinishChunks(sentences: seq<string>, chunks: seq<string>, groups: seq<seq<string>>,
                     current: string, group: seq<string>)
    requires Building(sentences, |sentences|, chunks, groups, current, group) && |sentences| > 0
    ensures Strip(current) == Join(group, " ") != ""
    ensures IsChunking(sentences, chunks + [Join(group, " ")], groups + [group])
  {
    CloseGroup(sentences, |sentences|, chunks, groups, current, group);
    assert sentences[..|sentences|] == sentences;
  }

  /** Dropping the last group keeps the rest well formed. */
  lemma {:induction false} JoinsGroupsInit(chunks: seq<string>, groups: seq<seq<string>>)
    requires JoinsGroups(chunks, groups) && |groups| > 0
    ensures JoinsGroups(chunks[..|groups| - 1], groups[..|groups| - 1])
  {
    var n := |groups|;
    var c, g := chunks[..n - 1], groups[..n - 1];
    forall k | 0 <= k < n - 1
      ensures JoinedAt(c, g, k)
    {
      assert JoinedAt(chunks, groups, k);
    }
  }

  /** The groups' joins, joined, are the sentences joined. */
  lemma {:induction false} JoinGroups(groups: seq<seq<string>>, chunks: seq<string>)
    requires JoinsGroups(chunks, groups)
    ensures Join(chunks, " ") == Join(Flatten(groups), " ")
    decreases |groups|
  {
    var n := |groups|;
    if n == 0 {
      assert Flatten(groups) == [];
    } else {
      assert JoinedAt(chunks, groups, n - 1);
      var init := groups[..n - 1];
      if n == 1 {
        assert Flatten(groups) == Flatten(init) + groups[0] == groups[0];
        assert Join(chunks, " ") == chunks[0];
      } else {
        JoinsGroupsInit(chunks, groups);
        JoinGroups(init, chunks[..n - 1]);
        assert chunks == chunks[..n - 1] + [chunks[n - 1]];
        assert groups == init + [groups[n - 1]];
        FlattenSnoc(init, groups[n - 1]);
        JoinSnoc(chunks[..n - 1], chunks[n - 1], " ");
        assert |Flatten(init)| > 0 by {
          assert JoinedAt(chunks, groups, n - 2);
          assert init == init[..n - 2] + [init[n - 2]];
          FlattenSnoc(init[..n - 2], init[n - 2]);
        }
        JoinAppend(Flatten(init), groups[n - 1], " ");
      }
    }
  }

  /** Every chunk holding more than one sentence is at most 501 characters long (500 for the first). */
  lemma {:induction false} ChunkLengths(sentences: seq<string>, chunks: seq<string>, groups: seq<seq<string>>)
    requires IsChunking(sentences, chunks, groups)
    ensures forall k :: 0 <= k < |chunks| && |groups[k]| > 1 ==> |Pad(k)| + |chunks[k]| <= ChunkBudget + 1
  {
    forall k | 0 <= k < |chunks| && |groups[k]| > 1
      ensures |Pad(k)| + |chunks[k]| <= ChunkBudget + 1
    {
      var g := groups[k];
      var j := |g| - 1;
      assert JoinedAt(chunks, groups, k) && FitsGroup(groups, k);
      assert FitsAt(g, k, j);
      assert g == g[..j] + [g[j]];
      JoinSnoc(g[..j], g[j], " ");
    }
  }

  // ---------------------------------------------------------------- the chunk loop

  /** The chunk loop's variables: the chunks so far and the chunk being built. */
  datatype ChunkState = ChunkState(chunks: seq<string>, current: string)

  /** One iteration: a sentence that would overflow a non-empty chunk starts the next one. */
  function Feed(st: ChunkState, sentence: string): ChunkState {
    if |st.current| + |sentence| > ChunkBudget && st.current != "" then ChunkState(st.chunks + [Strip(st.current)], sentence)
    else ChunkState(st.chunks, st.current + " " + sentence)
  }

  /** After the loop, the last chunk is kept unless it is blank. */
  function Finish(st: ChunkState): seq<string> {
    if Strip(st.current) != "" then st.chunks + [Strip(st.current)] else st.chunks
  }

  /** The chunks of a list of sentences. */
  function Chunks(sentences: seq<string>): seq<string> {
    Finish(FoldFrom(Feed, ChunkState([], ""), sentences, 0))
  }

  /** One iteration of the loop keeps `Building`. */
  lemma {:induction false} StepBuilding(sentences: seq<string>, i: nat, st: ChunkState, closed: seq<seq<string>>, open: seq<string>)
    returns (closed': seq<seq<string>>, open': seq<string>)
    requires Building(sentences, i, st.chunks, closed, st.current, open) && i < |sentences|
    ensures Building(sentences, i + 1, Feed(st, sentences[i]).chunks, closed', Feed(st, sentences[i]).current, open')
  {
    var x := sentences[i];
    if |st.current| + |x| > ChunkBudget && st.current != "" {
      FlushStep(sentences, i, st.chunks, closed, st.current, open);
      closed', open' := closed + [open], [x];
    } else {
      AppendStep(sentences, i, st.chunks, closed, st.current, open);
      closed', open' := closed, open + [x];
    }
  }

  /** The loop can be in state `st` after `i` sentences: some grouping describes it. */
  ghost predicate Reachable(sentences: seq<string>, i: nat, st: ChunkState) {
    exists closed, open :: Building(sentences, i, st.chunks, closed, st.current, open)
  }

  lemma {:induction false} ReachableStep(sentences: seq<string>, i: nat, st: ChunkState)
    requires i < |sentences| && Reachable(sentences, i, st)
    ensures Reachable(sentences, i + 1, Feed(st, sentences[i]))
  {
    var closed, open :| Building(sentences, i, st.chunks, closed, st.current, open);
    var _, _ := StepBuilding(sentences, i, st, closed, open);
  }

  /**
   * The chunks of a non-empty list of trimmed sentences are a greedy grouping of them
   * under the budget.
   */
  lemma {:induction false} ChunksAreChunking(sentences: seq<string>) returns (groups: seq<seq<string>>)
    requires |sentences| > 0 && forall k :: 0 <= k < |sentences| ==> Trimmed(sentences[k])
    ensures IsChunking(sentences, Chunks(sentences), groups)
  {
    assert Flatten<seq<string>>([]) == [];
    var init := ChunkState([], "");
    assert Building(sentences, 0, init.chunks, [], init.current, []);
    var inv := (k: nat, st: ChunkState) => Reachable(sentences, k, st);
    forall k: nat, st: ChunkState | k < |sentences| && inv(k, st)
      ensures inv(k + 1, Feed(st, sentences[k]))
    {
      ReachableStep(sentences, k, st);
    }
    FoldInvariant(Feed, inv, init, sentences, 0);
    var st := FoldFrom(Feed, init, sentences, 0);
    var closed, open :| Building(sentences, |sentences|, st.chunks, closed, st.current, open);
    FinishChunks(sentences, st.chunks, closed, st.current, open);
    groups := closed + [open];
  }

  /** The chunks of a page, joined with spaces, are the page's text. */
  lemma {:induction false} ChunksJoin(text: string) returns (groups: seq<seq<string>>)
    requires IsClean(text) && text != ""
    ensures IsChunking(Sentences(text), Chunks(Sentences(text)), groups)
    ensures Join(Chunks(Sentences(text)), " ") == text
  {
    SentencesTrimmed(text);
    JoinSentences(text, false);
    groups := ChunksAreChunking(Sentences(text));
    JoinGroups(groups, Chunks(Sentences(text)));
  }

  /** The loop over the sentences. */
  method ChunkSentences(sentences: seq<string>) returns (chunks: seq<string>)
    ensures chunks == Chunks(sentences)
  {
    chunks := [];
    var current := "";
    var i := 0;
    while i < |sentences|
      invariant 0 <= i <= |sentences|
      invariant FoldFrom(Feed, ChunkState(chunks, current), sentences, i) == FoldFrom(Feed, ChunkState([], ""), sentences, 0)
    {
      var sentence := sentences[i];
      if |current| + |sentence| > ChunkBudget && current != "" {
        chunks := chunks + [Strip(current)];
        current := sentence;
      } else {
        current := current + " " + sentence;
      }
      i := i + 1;
    }
    if Strip(current) != "" {
      chunks := chunks + [Strip(current)];
    }
  }

  /**
   * Chunking a page: more than 600 characters are cut at sentence ends into chunks of
   * about 500 characters; a shorter page is one chunk. Either way the chunks, joined with
   * spaces, are the text.
   */
  method ChunkText(text: string) returns (chunks: seq<string>)
    requires IsClean(text)
    ensures |text| <= SingleChunkLimit ==> chunks == [text]
    ensures |text| > SingleChunkLimit ==> chunks == Chunks(Sentences(text))
    ensures |text| > SingleChunkLimit ==> exists groups :: IsChunking(Sentences(text), chunks, groups)
    ensures Join(chunks, " ") == text
  {
    if |text| <= SingleChunkLimit {
      return [text];
    }
    chunks := ChunkSentences(Sentences(text));
    var groups := ChunksJoin(text);
  }
}
