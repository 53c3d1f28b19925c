/** The optional value used wherever the Python code reads a key that may be absent. */
module Opt {
  datatype Option<+T> = None | Some(value: T) {
    /** `d.get(key, default)`: the value when present, the default otherwise. */
    function GetOr(default: T): T {
      match this
      case Some(v) => v
      case None => default
    }
  }
}

/**
 * Python's `str` operations as the scripts use them: `startswith`, `endswith`, `in`,
 * `replace` (leftmost, non-overlapping), `split` on one character, `join`, `strip`,
 * `lstrip`/`rstrip` of one character, slicing `s[:n]` and `str(n)` of a natural number.
 */
module Text {
  import opened Opt

  /** Python's `str.isspace()`, which is also what `\s` matches in a `str` regular expression. */
  predicate IsSpace(c: char) {
    c == ' ' || '\t' <= c <= '\r' || '\U{1c}' <= c <= '\U{1f}' || c == '\U{85}' || c == '\U{a0}'
    || c == '\U{1680}' || '\U{2000}' <= c <= '\U{200a}' || c == '\U{2028}' || c == '\U{2029}'
    || c == '\U{202f}' || c == '\U{205f}' || c == '\U{3000}'
  }

  predicate IsAsciiLetter(c: char) { 'a' <= c <= 'z' || 'A' <= c <= 'Z' }

  predicate IsDigit(c: char) { '0' <= c <= '9' }

  function LowerChar(c: char): char {
    if 'A' <= c <= 'Z' then (c as int + 32) as char else c
  }

  function UpperChar(c: char): char {
    if 'a' <= c <= 'z' then (c as int - 32) as char else c
  }

  /** `s.lower()` on the ASCII letters. */
  function Lower(s: string): (r: string)
    ensures |r| == |s|
    ensures forall i :: 0 <= i < |s| ==> r[i] == LowerChar(s[i])
  {
    seq(|s|, i requires 0 <= i < |s| => LowerChar(s[i]))
  }

  predicate StartsWith(s: string, p: string) { |p| <= |s| && s[..|p|] == p }

  predicate EndsWith(s: string, p: string) { |p| <= |s| && s[|s| - |p|..] == p }

  /** `p` occurs in `s` at index `i`. */
  predicate MatchAt(s: string, p: string, i: int) {
    0 <= i && i + |p| <= |s| && s[i..i + |p|] == p
  }

  /** Python's `p in s`. */
  predicate Contains(s: string, p: string) {
    exists i :: 0 <= i <= |s| && MatchAt(s, p, i)
  }

  /** The leftmost occurrence of `p` in `s` at or after `from`. */
  function IndexFrom(s: string, p: string, from: nat): Option<nat>
    decreases |s| - from
  {
    if from + |p| > |s| then None
    else if s[from..from + |p|] == p then Some(from)
    else IndexFrom(s, p, from + 1)
  }

  /** Python's `s.find(p)`, with `None` for -1. */
  function IndexOf(s: string, p: string): Option<nat> {
    IndexFrom(s, p, 0)
  }

  /** The search from `from` finds the leftmost occurrence at or after `from`, and only fails when there is none. */
  lemma {:induction false} IndexFromSpec(s: string, p: string, from: nat)
    ensures IndexFrom(s, p, from).Some? ==> from <= IndexFrom(s, p, from).value && MatchAt(s, p, IndexFrom(s, p, from).value)
    ensures IndexFrom(s, p, from).Some? ==> forall j :: from <= j < IndexFrom(s, p, from).value ==> !MatchAt(s, p, j)
    ensures IndexFrom(s, p, from).None? ==> forall j :: from <= j ==> !MatchAt(s, p, j)
    decreases |s| - from
  {
    if from + |p| <= |s| && s[from..from + |p|] != p {
      IndexFromSpec(s, p, from + 1);
    }
  }

  /** `find` fails exactly when `p` does not occur, and otherwise gives the leftmost occurrence. */
  lemma {:induction false} IndexOfSpec(s: string, p: string)
    ensures IndexOf(s, p).None? <==> !Contains(s, p)
    ensures IndexOf(s, p).Some? ==> MatchAt(s, p, IndexOf(s, p).value) && forall j :: 0 <= j < IndexOf(s, p).value ==> !MatchAt(s, p, j)
  {
    IndexFromSpec(s, p, 0);
  }

  /** Python's `s.rfind(c)`, with `None` for -1. */
  function LastIndexOf(s: string, c: char): (r: Option<nat>)
    ensures r.Some? ==> r.value < |s| && s[r.value] == c && c !in s[r.value + 1..]
    ensures r.None? ==> c !in s
    decreases |s|
  {
    if |s| == 0 then None
    else if s[|s| - 1] == c then Some(|s| - 1)
    else LastIndexOf(s[..|s| - 1], c)
  }

  /** Python's `s.replace(p, r)`: every leftmost, non-overlapping occurrence of `p` is replaced. */
  function Replace(s: string, p: string, r: string): string
    requires |p| > 0
    decreases |s|
  {
    match IndexOf(s, p)
    case None => s
    case Some(i) => IndexOfSpec(s, p); s[..i] + r + Replace(s[i + |p|..], p, r)
  }

  /** Python's `sep.join(parts)`. */
  function Join(parts: seq<string>, sep: string): string
    decreases |parts|
  {
    if |parts| == 0 then ""
    else if |parts| == 1 then parts[0]
    else parts[0] + sep + Join(parts[1..], sep)
  }

  /** Python's `s.split(c)` for a one-character separator. */
  function Split(s: string, c: char): (parts: seq<string>)
    ensures |parts| >= 1
    decreases |s|
  {
    if |s| == 0 then [""]
    else
      var rest := Split(s[1..], c);
      if s[0] == c then [""] + rest else [[s[0]] + rest[0]] + rest[1..]
  }

  /** Python's `s.lstrip(c)` for one character. */
  function LStrip(s: string, c: char): (r: string)
    ensures |r| <= |s| && r == s[|s| - |r|..]
    ensures r == [] || r[0] != c
    ensures forall i :: 0 <= i < |s| - |r| ==> s[i] == c
    decreases |s|
  {
    if |s| > 0 && s[0] == c then LStrip(s[1..], c) else s
  }

  /** Python's `s.rstrip(c)` for one character. */
  function RStrip(s: string, c: char): (r: string)
    ensures |r| <= |s| && r == s[..|r|]
    ensures r == [] || r[|r| - 1] != c
    ensures forall i :: |r| <= i < |s| ==> s[i] == c
    decreases |s|
  {
    if |s| > 0 && s[|s| - 1] == c then RStrip(s[..|s| - 1], c) else s
  }

  /** Python's `s.lstrip()`: leading whitespace removed. */
  function StripLeft(s: string): (r: string)
    ensures |r| <= |s| && r == s[|s| - |r|..]
    ensures r == [] || !IsSpace(r[0])
    ensures forall i :: 0 <= i < |s| - |r| ==> IsSpace(s[i])
    decreases |s|
  {
    if |s| > 0 && IsSpace(s[0]) then StripLeft(s[1..]) else s
  }

  /** Python's `s.rstrip()`: trailing whitespace removed. */
  function StripRight(s: string): (r: string)
    ensures |r| <= |s| && r == s[..|r|]
    ensures r == [] || !IsSpace(r[|r| - 1])
    ensures forall i :: |r| <= i < |s| ==> IsSpace(s[i])
    decreases |s|
  {
    if |s| > 0 && IsSpace(s[|s| - 1]) then StripRight(s[..|s| - 1]) else s
  }

  /** Python's `s.strip()`. */
  function Strip(s: string): string {
    StripRight(StripLeft(s))
  }

  /** Python's `s[:n]`. */
  function Take(s: string, n: nat): (r: string)
    ensures |r| <= n && StartsWith(s, r)
    ensures |s| <= n ==> r == s
  {
    if |s| <= n then s else s[..n]
  }

  /** Python's `str(n)` for a natural number. */
  function NatToString(n: nat): (r: string)
    ensures |r| > 0 && forall i :: 0 <= i < |r| ==> IsDigit(r[i])
  {
    if n < 10 then [('0' as int + n) as char]
    else NatToString(n / 10) + [('0' as int + n % 10) as char]
  }

  // ---------------------------------------------------------------- containment

  lemma {:induction false} ContainsLeft(a: string, b: string, p: string)
    requires Contains(a, p)
    ensures Contains(a + b, p)
  {
    var i :| 0 <= i <= |a| && MatchAt(a, p, i);
    assert (a + b)[i..i + |p|] == a[i..i + |p|];
    assert MatchAt(a + b, p, i);
  }

  lemma {:induction false} ContainsRight(a: string, b: string, p: string)
    requires Contains(b, p)
    ensures Contains(a + b, p)
  {
    var i :| 0 <= i <= |b| && MatchAt(b, p, i);
    assert (a + b)[|a| + i..|a| + i + |p|] == b[i..i + |p|];
    assert MatchAt(a + b, p, |a| + i);
  }

  /** A string that contains `q` contains everything `q` contains. */
  lemma {:induction false} ContainsTransitive(s: string, q: string, p: string)
    requires Contains(s, q) && Contains(q, p)
    ensures Contains(s, p)
  {
    var i :| 0 <= i <= |s| && MatchAt(s, q, i);
    var j :| 0 <= j <= |q| && MatchAt(q, p, j);
    forall k | 0 <= k < |p|
      ensures s[i + j + k] == p[k]
    {
      assert s[i..i + |q|][j + k] == q[j + k];
      assert q[j..j + |p|][k] == p[k];
    }
    assert s[i + j..i + j + |p|] == p;
    assert MatchAt(s, p, i + j);
  }

  lemma {:induction false} ContainsSelf(s: string)
    ensures Contains(s, s)
  {
    assert MatchAt(s, s, 0);
  }

  /** A non-empty prefix or suffix check implies containment. */
  lemma {:induction false} StartsWithContains(s: string, p: string)
    requires StartsWith(s, p)
    ensures Contains(s, p)
  {
    assert MatchAt(s, p, 0);
  }

  /** `Contains` of a one-character pattern is membership. */
  lemma {:induction false} ContainsChar(s: string, c: char)
    ensures Contains(s, [c]) <==> c in s
  {
    if c in s {
      var i :| 0 <= i < |s| && s[i] == c;
      assert MatchAt(s, [c], i);
    }
    if Contains(s, [c]) {
      var i :| 0 <= i <= |s| && MatchAt(s, [c], i);
      assert s[i] == s[i..i + 1][0];
    }
  }

  /** `any(w in s for w in ws)`. */
  predicate ContainsAny(s: string, ws: seq<string>)
    decreases |ws|
  {
    |ws| > 0 && (Contains(s, ws[0]) || ContainsAny(s, ws[1..]))
  }

  /** `s.endswith(tuple(es))`. */
  predicate EndsWithAny(s: string, es: seq<string>)
    decreases |es|
  {
    |es| > 0 && (EndsWith(s, es[0]) || EndsWithAny(s, es[1..]))
  }

  /** `any(w in s for w in ws)` holds exactly when one of the words occurs. */
  lemma {:induction false} ContainsAnySpec(s: string, ws: seq<string>)
    ensures ContainsAny(s, ws) <==> exists i :: 0 <= i < |ws| && Contains(s, ws[i])
    decreases |ws|
  {
    if |ws| > 0 {
      ContainsAnySpec(s, ws[1..]);
      if i :| 0 <= i < |ws| && Contains(s, ws[i]) {
        if i > 0 {
          assert ws[1..][i - 1] == ws[i];
        }
      }
    }
  }

  /** Every part occurs in the joined string. */
  lemma {:induction false} JoinContainsPart(ps: seq<string>, sep: string, i: nat)
    requires i < |ps|
    ensures Contains(Join(ps, sep), ps[i])
    decreases |ps|
  {
    if i == 0 {
      JoinFirst(ps, sep);
      StartsWithContains(Join(ps, sep), ps[0]);
    } else {
      JoinContainsPart(ps[1..], sep, i - 1);
      ContainsRight(ps[0] + sep, Join(ps[1..], sep), ps[i]);
    }
  }

  lemma {:induction false} MatchCovers(s: string, w: string, j: int, k: int)
    requires MatchAt(s, w, j) && j <= k < j + |w|
    ensures w[k - j] == s[k]
  {
    assert w[k - j] == s[j..j + |w|][k - j];
  }

  /** A non-empty word free of the separator that occurs in a join occurs in one of the parts. */
  lemma {:induction false} ContainsInJoin(ps: seq<string>, c: char, w: string)
    requires |w| > 0 && c !in w && Contains(Join(ps, [c]), w)
    ensures exists i :: 0 <= i < |ps| && Contains(ps[i], w)
    decreases |ps|
  {
    if |ps| == 1 {
    } else if |ps| > 1 {
      var head, rest := ps[0], Join(ps[1..], [c]);
      var s := head + [c] + rest;
      var j :| 0 <= j <= |s| && MatchAt(s, w, j);
      if j + |w| <= |head| {
        assert head[j..j + |w|] == s[j..j + |w|];
        assert MatchAt(head, w, j);
      } else if j <= |head| {
        MatchCovers(s, w, j, |head|);
        assert false;
      } else {
        var k := j - |head| - 1;
        assert rest[k..k + |w|] == s[j..j + |w|];
        assert MatchAt(rest, w, k);
        ContainsInJoin(ps[1..], c, w);
        var i :| 0 <= i < |ps[1..]| && Contains(ps[1..][i], w);
        assert ps[i + 1] == ps[1..][i];
      }
    }
  }

  // ---------------------------------------------------------------- replace

  /** Replacing a pattern that does not occur leaves the string as it is. */
  lemma {:induction false} ReplaceAbsent(s: string, p: string, r: string)
    requires |p| > 0 && !Contains(s, p)
    ensures Replace(s, p, r) == s
  {
    IndexOfSpec(s, p);
  }

  lemma {:induction false} MatchInMiddle(a: string, p: string, b: string)
    ensures MatchAt(a + p + b, p, |a|) && Contains(a + p + b, p)
  {
    assert (a + p + b)[|a|..|a| + |p|] == p;
    assert MatchAt(a + p + b, p, |a|);
  }

  /** One step of `Replace`: the leftmost occurrence is replaced and the rest is processed. */
  lemma {:induction false} ReplaceStep(s: string, p: string, r: string, i: nat)
    requires |p| > 0 && IndexOf(s, p) == Some(i) && i + |p| <= |s|
    ensures Replace(s, p, r) == s[..i] + r + Replace(s[i + |p|..], p, r)
  {
    match IndexOf(s, p)
    case Some(j) =>
      assert j == i;
  }

  /** Replacing a character by a string without it removes every occurrence of the character. */
  lemma {:induction false} ReplaceCharGone(s: string, c: char, r: string)
    requires c !in r
    ensures c !in Replace(s, [c], r)
    decreases |s|
  {
    IndexOfSpec(s, [c]);
    match IndexOf(s, [c])
    case None =>
      forall j | 0 <= j < |s|
        ensures s[j] != c
      {
        assert s[j..j + 1] == [s[j]];
        assert !MatchAt(s, [c], j);
      }
    case Some(i) =>
      ReplaceStep(s, [c], r, i);
      ReplaceCharGone(s[i + 1..], c, r);
      forall j | 0 <= j < i
        ensures s[j] != c
      {
        assert s[j..j + 1] == [s[j]];
        assert !MatchAt(s, [c], j);
      }
      assert c !in s[..i];
  }

  /** A character in neither the string nor the replacement is not in the result. */
  lemma {:induction false} ReplaceKeepsAbsent(s: string, p: string, r: string, d: char)
    requires |p| > 0 && d !in s && d !in r
    ensures d !in Replace(s, p, r)
    decreases |s|
  {
    IndexOfSpec(s, p);
    match IndexOf(s, p)
    case None =>
    case Some(i) =>
      ReplaceStep(s, p, r, i);
      assert forall j :: i + |p| <= j < |s| ==> s[i + |p|..][j - i - |p|] == s[j];
      ReplaceKeepsAbsent(s[i + |p|..], p, r, d);
  }

  /** After replacing an occurring pattern, the replacement occurs in the result. */
  lemma {:induction false} ReplaceInserts(s: string, p: string, r: string)
    requires |p| > 0 && Contains(s, p)
    ensures Contains(Replace(s, p, r), r)
  {
    IndexOfSpec(s, p);
    var i := IndexOf(s, p).value;
    ReplaceStep(s, p, r, i);
    MatchInMiddle(s[..i], r, Replace(s[i + |p|..], p, r));
  }

  /** Where the leftmost occurrence is, `IndexOf` finds it. */
  lemma {:induction false} IndexOfIs(s: string, p: string, i: nat)
    requires MatchAt(s, p, i)
    requires forall j :: 0 <= j < i ==> !MatchAt(s, p, j)
    ensures IndexOf(s, p) == Some(i)
  {
    var r := IndexOf(s, p);
    IndexOfSpec(s, p);
    assert r.Some? by { assert Contains(s, p); }
    assert !(r.value < i);
    assert !(i < r.value);
  }

  /** `s` has no border: no proper suffix of `s` is also a prefix of it. */
  predicate Unbordered(s: string) {
    forall d :: 0 < d < |s| ==> !StartsWith(s, s[d..])
  }

  /**
   * Every occurrence of `b + p` contains an occurrence of `p`, so a string whose leftmost
   * `p` is at `i` has no `b + p` before `i`; if `b + p` is unbordered, inserting it at `i`
   * creates no earlier occurrence either.
   */
  lemma {:induction false} LeftmostAfterInsert(s: string, p: string, b: string, i: nat, tail: string)
    requires |p| > 0 && Unbordered(b + p)
    requires i <= |s| && forall j :: 0 <= j < i ==> !MatchAt(s, p, j)
    ensures IndexOf(s[..i] + (b + p) + tail, b + p) == Some(i)
  {
    var sep := b + p;
    var t := s[..i] + sep + tail;
    assert t[i..i + |sep|] == sep;
    forall j | 0 <= j < i
      ensures !MatchAt(t, sep, j)
    {
      if j + |sep| <= i {
        assert t[j..j + |sep|] == s[j..j + |sep|];
        assert sep[|b|..] == p;
        assert MatchAt(t, sep, j) ==> MatchAt(s, p, j + |b|);
      } else {
        var d := i - j;
        assert t[j..j + |sep|][d..] == t[i..j + |sep|] == sep[..|sep| - d];
        assert !StartsWith(sep, sep[d..]);
      }
    }
    IndexOfIs(t, sep, i);
  }

  /** One step of the round trip: the first inserted `b + p` is turned back into `p`. */
  lemma {:induction false} ReplaceBackStep(s: string, p: string, b: string, i: nat, y: string)
    requires |p| > 0 && Unbordered(b + p)
    requires i <= |s| && forall j :: 0 <= j < i ==> !MatchAt(s, p, j)
    ensures Replace(s[..i] + (b + p) + y, b + p, p) == s[..i] + p + Replace(y, b + p, p)
  {
    var sep := b + p;
    var t := s[..i] + sep + y;
    LeftmostAfterInsert(s, p, b, i, y);
    assert t[..i] == s[..i];
    assert t[i + |sep|..] == y;
  }

  /** Cutting out an occurrence of `p` and putting it back gives the string back. */
  lemma {:induction false} RejoinAtMatch(s: string, p: string, i: nat)
    requires MatchAt(s, p, i)
    ensures s[..i] + p + s[i + |p|..] == s
  {
    assert s == s[..i] + s[i..i + |p|] + s[i + |p|..];
  }

  /** A string without `p` has no `b + p` either. */
  lemma {:induction false} AbsentExtended(s: string, p: string, b: string)
    requires !Contains(s, p)
    ensures !Contains(s, b + p)
  {
    if Contains(s, b + p) {
      assert MatchAt(b + p, p, |b|);
      ContainsTransitive(s, b + p, p);
    }
  }

  /**
   * Inserting `b` in front of every `p` and then turning every `b + p` back into `p`
   * restores the original string, provided `b + p` is unbordered.
   */
  lemma {:induction false} ReplaceRoundTrip(s: string, p: string, b: string)
    requires |p| > 0 && Unbordered(b + p)
    ensures Replace(Replace(s, p, b + p), b + p, p) == s
    decreases |s|
  {
    var sep := b + p;
    var once := Replace(s, p, sep);
    IndexOfSpec(s, p);
    if i :| IndexOf(s, p) == Some(i) {
      var rest := s[i + |p|..];
      var y := Replace(rest, p, sep);
      assert once == s[..i] + sep + y;
      ReplaceBackStep(s, p, b, i, y);
      ReplaceRoundTrip(rest, p, b);
      RejoinAtMatch(s, p, i);
    } else {
      AbsentExtended(s, p, b);
      ReplaceAbsent(s, p, sep);
      ReplaceAbsent(s, sep, p);
    }
  }

  // ---------------------------------------------------------------- split and join

  /** No part of `Split(s, c)` contains the separator. */
  lemma {:induction false} SplitPartsFree(s: string, c: char)
    ensures forall k :: 0 <= k < |Split(s, c)| ==> c !in Split(s, c)[k]
    decreases |s|
  {
    if |s| > 0 {
      SplitPartsFree(s[1..], c);
    }
  }

  /** Joining the parts of a split with the separator gives the string back. */
  lemma {:induction false} JoinSplit(s: string, c: char)
    ensures Join(Split(s, c), [c]) == s
    decreases |s|
  {
    if |s| > 0 {
      var rest := Split(s[1..], c);
      JoinSplit(s[1..], c);
      if s[0] == c {
        assert Split(s, c) == [""] + rest;
        assert ([""] + rest)[1..] == rest;
      } else {
        var parts := [[s[0]] + rest[0]] + rest[1..];
        assert Split(s, c) == parts;
        if |rest| == 1 {
          assert Join(rest, [c]) == rest[0];
        } else {
          assert parts[1..] == rest[1..];
          assert Join(rest, [c]) == rest[0] + [c] + Join(rest[1..], [c]);
        }
      }
    }
  }

  /** A string without the separator splits into itself. */
  lemma {:induction false} SplitFree(s: string, c: char)
    requires c !in s
    ensures Split(s, c) == [s]
    decreases |s|
  {
    if |s| > 0 {
      SplitFree(s[1..], c);
      assert [s[0]] + s[1..] == s;
    }
  }

  /** Splitting `a + [c] + b` where `a` is separator-free splits off `a` first. */
  lemma {:induction false} SplitAfterFree(a: string, c: char, b: string)
    requires c !in a
    ensures Split(a + [c] + b, c) == [a] + Split(b, c)
    decreases |a|
  {
    if |a| == 0 {
      assert a + [c] + b == [c] + b;
      assert ([c] + b)[1..] == b;
    } else {
      var s := a + [c] + b;
      assert s[1..] == a[1..] + [c] + b;
      SplitAfterFree(a[1..], c, b);
      assert [a[0]] + a[1..] == a;
    }
  }

  /** Splitting separator-free parts joined with the separator gives the parts back. */
  lemma {:induction false} SplitJoin(parts: seq<string>, c: char)
    requires |parts| >= 1
    requires forall k :: 0 <= k < |parts| ==> c !in parts[k]
    ensures Split(Join(parts, [c]), c) == parts
    decreases |parts|
  {
    if |parts| == 1 {
      SplitFree(parts[0], c);
    } else {
      SplitJoin(parts[1..], c);
      SplitAfterFree(parts[0], c, Join(parts[1..], [c]));
      assert [parts[0]] + parts[1..] == parts;
    }
  }

  /** A string holding the separator splits into more than one part. */
  lemma {:induction false} SplitMany(s: string, c: char)
    requires c in s
    ensures |Split(s, c)| > 1
    decreases |s|
  {
    if s[0] != c {
      assert c in s[1..] by {
        var i :| 0 <= i < |s| && s[i] == c;
        assert s[1..][i - 1] == c;
      }
      SplitMany(s[1..], c);
    }
  }

  /** Joining one more part adds the separator and the part at the end. */
  lemma {:induction false} JoinSnoc(parts: seq<string>, x: string, sep: string)
    requires |parts| > 0
    ensures Join(parts + [x], sep) == Join(parts, sep) + sep + x
    decreases |parts|
  {
    if |parts| > 1 {
      assert (parts + [x])[1..] == parts[1..] + [x];
      JoinSnoc(parts[1..], x, sep);
    } else {
      assert (parts + [x])[1..] == [x];
    }
  }

  /** Joining two non-empty lists of parts is joining their joins. */
  lemma {:induction false} JoinAppend(a: seq<string>, b: seq<string>, sep: string)
    requires |a| > 0 && |b| > 0
    ensures Join(a + b, sep) == Join(a, sep) + sep + Join(b, sep)
    decreases |a|
  {
    if |a| == 1 {
      assert (a + b)[1..] == b;
    } else {
      assert (a + b)[1..] == a[1..] + b;
      JoinAppend(a[1..], b, sep);
    }
  }

  lemma {:induction false} JoinFirst(parts: seq<string>, sep: string)
    requires |parts| > 0
    ensures StartsWith(Join(parts, sep), parts[0])
  {
  }

  lemma {:induction false} JoinLast(parts: seq<string>, sep: string)
    requires |parts| > 0
    ensures EndsWith(Join(parts, sep), parts[|parts| - 1])
    decreases |parts|
  {
    if |parts| > 1 {
      JoinLast(parts[1..], sep);
    }
  }
}
