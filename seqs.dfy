/**
 * List idioms the scripts rely on: list comprehensions with a condition (`Filter`),
 * concatenation of slices (`Flatten`), `sorted(set(xs))` on strings and the
 * `for i in range(0, n, size)` batching loop.
 */
module Seqs {
  import opened Opt

  /** `[x for x in s if f(x)]`, keeping the order of `s`. */
  function Filter<T>(f: T -> bool, s: seq<T>): (r: seq<T>)
    ensures |r| <= |s|
    decreases |s|
  {
    if |s| == 0 then []
    else Filter(f, s[..|s| - 1]) + (if f(s[|s| - 1]) then [s[|s| - 1]] else [])
  }

  /** The set of the values `f` gives for the elements of `s`, skipping those it gives none for. */
  function Collected<T, U>(f: T -> Option<U>, s: seq<T>): set<U>
    decreases |s|
  {
    if |s| == 0 then {}
    else
      var more := match f(s[|s| - 1]) case Some(u) => {u} case None => {};
      Collected(f, s[..|s| - 1]) + more
  }

  /** A value is collected exactly when `f` gives it for some element. */
  lemma {:induction false} CollectedSpec<T, U>(f: T -> Option<U>, s: seq<T>)
    ensures forall u :: u in Collected(f, s) <==> exists j :: 0 <= j < |s| && f(s[j]) == Some(u)
    decreases |s|
  {
    if |s| > 0 {
      var n := |s| - 1;
      CollectedSpec(f, s[..n]);
      forall u
        ensures u in Collected(f, s) <==> exists j :: 0 <= j < |s| && f(s[j]) == Some(u)
      {
        if j :| 0 <= j < |s| && f(s[j]) == Some(u) {
          if j < n {
            assert s[..n][j] == s[j];
          }
        }
        if u in Collected(f, s[..n]) {
          var j :| 0 <= j < n && f(s[..n][j]) == Some(u);
          assert s[j] == s[..n][j];
        }
      }
    }
  }

  /** `[g(x) for x in s]`. */
  function Map<T, U>(g: T -> U, s: seq<T>): (r: seq<U>)
    ensures |r| == |s| && forall i :: 0 <= i < |s| ==> r[i] == g(s[i])
  {
    seq(|s|, i requires 0 <= i < |s| => g(s[i]))
  }

  /** A prefix of `s` mapped element by element stays so when the next image is appended. */
  lemma {:induction false} PointwiseSnoc<T, U>(g: T -> U, s: seq<T>, r: seq<U>, x: U)
    requires |r| < |s| && (forall j :: 0 <= j < |r| ==> r[j] == g(s[j])) && x == g(s[|r|])
    ensures forall j :: 0 <= j < |r| + 1 ==> (r + [x])[j] == g(s[j])
  {
    forall j | 0 <= j < |r| + 1
      ensures (r + [x])[j] == g(s[j])
    {
      if j < |r| {
        assert (r + [x])[j] == r[j];
      }
    }
  }

  /** `s[:n]` on a list. */
  function Prefix<T>(s: seq<T>, n: nat): (r: seq<T>)
    ensures |r| <= n && |r| <= |s| && r == s[..|r|]
    ensures |s| <= n ==> r == s
    ensures |s| > n ==> |r| == n
  {
    if |s| <= n then s else s[..n]
  }

  lemma MapCons<T, U>(g: T -> U, x: T, s: seq<T>)
    ensures Map(g, [x] + s) == [g(x)] + Map(g, s)
  {
  }

  function Flatten<T>(ss: seq<seq<T>>): seq<T>
    decreases |ss|
  {
    if |ss| == 0 then [] else Flatten(ss[..|ss| - 1]) + ss[|ss| - 1]
  }

  /** Concatenation is associative; stated once so that loops need not rediscover it. */
  lemma AppendAssoc<T>(a: seq<T>, b: seq<T>, c: seq<T>)
    ensures a + (b + c) == (a + b) + c
  {
  }

  predicate NoDuplicates<T(==)>(s: seq<T>) {
    forall i, j :: 0 <= i < j < |s| ==> s[i] != s[j]
  }

  /** An element is kept exactly when it is in the input and passes the test. */
  lemma {:induction false} FilterMembership<T>(f: T -> bool, s: seq<T>, x: T)
    ensures x in Filter(f, s) <==> x in s && f(x)
    decreases |s|
  {
    if |s| > 0 {
      FilterMembership(f, s[..|s| - 1], x);
      assert s == s[..|s| - 1] + [s[|s| - 1]];
    }
  }

  /** Filtering distributes over concatenation, so the kept elements stay in input order. */
  lemma {:induction false} FilterAppend<T>(f: T -> bool, a: seq<T>, b: seq<T>)
    ensures Filter(f, a + b) == Filter(f, a) + Filter(f, b)
    decreases |b|
  {
    if |b| == 0 {
      assert a + b == a;
    } else {
      var b' := b[..|b| - 1];
      FilterAppend(f, a, b');
      assert (a + b)[..|a + b| - 1] == a + b';
      assert (a + b)[|a + b| - 1] == b[|b| - 1];
    }
  }

  /** Nothing is dropped when every element passes. */
  lemma {:induction false} FilterAll<T>(f: T -> bool, s: seq<T>)
    requires forall i :: 0 <= i < |s| ==> f(s[i])
    ensures Filter(f, s) == s
    decreases |s|
  {
    if |s| > 0 {
      FilterAll(f, s[..|s| - 1]);
    }
  }

  /** Extending the input by one element extends the filtered output by at most that element. */
  lemma FilterSnoc<T>(f: T -> bool, s: seq<T>, x: T)
    ensures Filter(f, s + [x]) == Filter(f, s) + (if f(x) then [x] else [])
  {
    assert (s + [x])[..|s + [x]| - 1] == s;
  }

  predicate Increasing(idx: seq<nat>) {
    forall a, b :: 0 <= a < b < |idx| ==> idx[a] < idx[b]
  }

  /**
   * The kept elements are the passing elements of `s` at increasing positions, and every
   * passing element is kept: filtering neither reorders nor loses anything.
   */
  lemma {:induction false} FilterOrder<T>(f: T -> bool, s: seq<T>) returns (idx: seq<nat>)
    ensures |idx| == |Filter(f, s)| && Increasing(idx)
    ensures forall k :: 0 <= k < |idx| ==> idx[k] < |s| && Filter(f, s)[k] == s[idx[k]] && f(s[idx[k]])
    ensures forall i :: 0 <= i < |s| && f(s[i]) ==> i in idx
    decreases |s|
  {
    if |s| == 0 {
      idx := [];
    } else {
      var prev := FilterOrder(f, s[..|s| - 1]);
      idx := FilterOrderSnoc(f, s, prev);
    }
  }

  /** `idx` lists the positions of the elements of `s` that pass `f`, in increasing order. */
  ghost predicate FilterPositions<T>(f: T -> bool, s: seq<T>, idx: seq<nat>) {
    && |idx| == |Filter(f, s)| && Increasing(idx)
    && (forall k :: 0 <= k < |idx| ==> idx[k] < |s| && Filter(f, s)[k] == s[idx[k]] && f(s[idx[k]]))
    && (forall i :: 0 <= i < |s| && f(s[i]) ==> i in idx)
  }

  /** The positions for `s` from those for all but its last element. */
  lemma {:induction false} FilterOrderSnoc<T>(f: T -> bool, s: seq<T>, prev: seq<nat>) returns (idx: seq<nat>)
    requires |s| > 0 && FilterPositions(f, s[..|s| - 1], prev)
    ensures FilterPositions(f, s, idx)
  {
    var n := |s| - 1;
    var init := s[..n];
    var r := Filter(f, s);
    assert r == Filter(f, init) + (if f(s[n]) then [s[n]] else []);
    if f(s[n]) {
      IncreasingSnoc(prev, n);
    }
    idx := if f(s[n]) then prev + [n] else prev;
    forall k | 0 <= k < |idx|
      ensures idx[k] < |s| && r[k] == s[idx[k]] && f(s[idx[k]])
    {
      if k < |prev| {
        assert idx[k] == prev[k] && r[k] == Filter(f, init)[k] && init[prev[k]] == s[prev[k]];
      }
    }
    forall i | 0 <= i < |s| && f(s[i])
      ensures i in idx
    {
      if i < n {
        assert init[i] == s[i];
      }
    }
  }

  /** The position of the first element that passes `f`, if any. */
  function FirstIndex<T>(f: T -> bool, s: seq<T>): (r: Option<nat>)
    ensures r.Some? ==> r.value < |s| && f(s[r.value]) && forall j :: 0 <= j < r.value ==> !f(s[j])
    ensures r.None? ==> forall j :: 0 <= j < |s| ==> !f(s[j])
    decreases |s|
  {
    if |s| == 0 then None
    else if f(s[0]) then Some(0)
    else
      match FirstIndex(f, s[1..])
      case None => None
      case Some(j) => Some(j + 1)
  }

  /** The first passing element is where the search stops. */
  lemma FirstIndexIs<T>(f: T -> bool, s: seq<T>, i: nat)
    requires i < |s| && f(s[i]) && forall j :: 0 <= j < i ==> !f(s[j])
    ensures FirstIndex(f, s) == Some(i)
  {
  }

  /** `f` applied to the elements from index `i` on, left to right, starting from `acc`. */
  function FoldFrom<S, T>(f: (S, T) -> S, acc: S, s: seq<T>, i: nat): S
    decreases |s| - i
  {
    if i >= |s| then acc else FoldFrom(f, f(acc, s[i]), s, i + 1)
  }

  /** A property that every step of a fold keeps holds at its end. */
  lemma {:induction false} FoldInvariant<S, T>(f: (S, T) -> S, inv: (nat, S) -> bool, acc: S, s: seq<T>, i: nat)
    requires i <= |s| && inv(i, acc)
    requires forall k: nat, a: S :: k < |s| && inv(k, a) ==> inv(k + 1, f(a, s[k]))
    ensures inv(|s|, FoldFrom(f, acc, s, i))
    decreases |s| - i
  {
    if i < |s| {
      FoldInvariant(f, inv, f(acc, s[i]), s, i + 1);
    }
  }

  lemma IncreasingSnoc(idx: seq<nat>, n: nat)
    requires Increasing(idx) && forall k :: 0 <= k < |idx| ==> idx[k] < n
    ensures Increasing(idx + [n])
  {
  }

  lemma TakeSnoc<T>(s: seq<T>, i: nat)
    requires i < |s|
    ensures s[..i + 1] == s[..i] + [s[i]]
  {
  }

  lemma FlattenSnoc<T>(ss: seq<seq<T>>, s: seq<T>)
    ensures Flatten(ss + [s]) == Flatten(ss) + s
  {
    assert (ss + [s])[..|ss + [s]| - 1] == ss;
  }

  // ---------------------------------------------------------------- string order

  /** Python's `<` on `str`: code point by code point, a proper prefix first. */
  predicate Less(a: string, b: string)
    decreases |a|
  {
    if |a| == 0 then |b| > 0
    else if |b| == 0 then false
    else if a[0] != b[0] then a[0] < b[0]
    else Less(a[1..], b[1..])
  }

  lemma {:induction false} LessIrreflexive(a: string)
    ensures !Less(a, a)
    decreases |a|
  {
    if |a| > 0 {
      LessIrreflexive(a[1..]);
    }
  }

  lemma {:induction false} LessTransitive(a: string, b: string, c: string)
    requires Less(a, b) && Less(b, c)
    ensures Less(a, c)
    decreases |a|
  {
    if |a| > 0 && |b| > 0 && |c| > 0 && a[0] == b[0] == c[0] {
      LessTransitive(a[1..], b[1..], c[1..]);
    }
  }

  /** Two different strings are always ordered one way or the other. */
  lemma {:induction false} LessTotal(a: string, b: string)
    requires a != b
    ensures Less(a, b) || Less(b, a)
    decreases |a|
  {
    if |a| > 0 && |b| > 0 && a[0] == b[0] {
      assert a == [a[0]] + a[1..] && b == [b[0]] + b[1..];
      LessTotal(a[1..], b[1..]);
    }
  }

  lemma {:induction false} LessAsymmetric(a: string, b: string)
    requires Less(a, b)
    ensures !Less(b, a)
    decreases |a|
  {
    if |a| > 0 && |b| > 0 && a[0] == b[0] {
      LessAsymmetric(a[1..], b[1..]);
    }
  }

  predicate StrictlySorted(s: seq<string>) {
    forall i, j :: 0 <= i < j < |s| ==> Less(s[i], s[j])
  }

  /** A strictly sorted list has no duplicates. */
  lemma {:induction false} SortedNoDuplicates(s: seq<string>)
    requires StrictlySorted(s)
    ensures NoDuplicates(s)
  {
    forall i, j | 0 <= i < j < |s|
      ensures s[i] != s[j]
    {
      LessIrreflexive(s[i]);
    }
  }

  /** There is only one strictly sorted list of a given set of strings. */
  lemma {:induction false} SortedUnique(r: seq<string>, t: seq<string>)
    requires StrictlySorted(r) && StrictlySorted(t)
    requires forall x :: x in r <==> x in t
    ensures r == t
    decreases |r|
  {
    if |r| > 0 && |t| > 0 {
      if r[0] != t[0] {
        assert r[0] in r && t[0] in t;
        var j :| 0 <= j < |t| && t[j] == r[0];
        var i :| 0 <= i < |r| && r[i] == t[0];
        assert Less(t[0], r[0]);
        LessAsymmetric(r[0], r[i]);
      }
      assert r[0] == t[0];
      forall x | x in r[1..]
        ensures x in t[1..]
      {
        RestIn(r, t, x);
      }
      forall x | x in t[1..]
        ensures x in r[1..]
      {
        RestIn(t, r, x);
      }
      SortedUnique(r[1..], t[1..]);
      assert r == [r[0]] + r[1..] && t == [t[0]] + t[1..];
    } else if |r| > 0 {
      HeadIn(r);
      assert false;
    } else if |t| > 0 {
      HeadIn(t);
      assert false;
    }
  }

  lemma HeadIn<T>(s: seq<T>)
    requires |s| > 0
    ensures s[0] in s
  {
  }

  lemma {:induction false} RestIn(r: seq<string>, t: seq<string>, x: string)
    requires StrictlySorted(r) && StrictlySorted(t) && |r| > 0 && |t| > 0 && r[0] == t[0]
    requires forall y :: y in r <==> y in t
    requires x in r[1..]
    ensures x in t[1..]
  {
    var i :| 1 <= i < |r| && r[i] == x;
    LessIrreflexive(x);
    assert x in t;
    var j :| 0 <= j < |t| && t[j] == x;
    assert j != 0;
    assert t[1..][j - 1] == x;
  }

  /** Puts `x` into a strictly sorted list, unless it is already there. */
  method Insert(r: seq<string>, x: string) returns (r': seq<string>)
    requires StrictlySorted(r)
    ensures StrictlySorted(r')
    ensures forall y :: y in r' <==> y in r || y == x
  {
    var k := 0;
    while k < |r| && Less(r[k], x)
      invariant 0 <= k <= |r|
      invariant forall i :: 0 <= i < k ==> Less(r[i], x)
    {
      k := k + 1;
    }
    if k < |r| && r[k] == x {
      return r;
    }
    if k < |r| {
      LessTotal(r[k], x);
      forall j | k < j < |r|
        ensures Less(x, r[j])
      {
        LessTransitive(x, r[k], r[j]);
      }
    }
    r' := r[..k] + [x] + r[k..];
    forall i, j | 0 <= i < j < |r'|
      ensures Less(r'[i], r'[j])
    {
      if j < k || i > k {
        assert r'[i] == r[if i < k then i else i - 1];
        assert r'[j] == r[if j < k then j else j - 1];
      }
    }
  }

  /** Python's `sorted(set(s))` on strings. */
  method SortedSet(s: seq<string>) returns (r: seq<string>)
    ensures StrictlySorted(r)
    ensures forall x :: x in r <==> x in s
  {
    r := [];
    var i := 0;
    while i < |s|
      invariant 0 <= i <= |s|
      invariant StrictlySorted(r)
      invariant forall x :: x in r <==> x in s[..i]
    {
      r := Insert(r, s[i]);
      assert s[..i + 1] == s[..i] + [s[i]];
      i := i + 1;
    }
    assert s[..i] == s;
  }

  // ---------------------------------------------------------------- batching

  /**
   * `for i in range(0, len(xs), size): xs[i:i+size]`: consecutive slices of at most `size`
   * elements that together are the whole list, all but the last exactly `size` long.
   */
  ghost predicate IsBatching<T>(xs: seq<T>, batches: seq<seq<T>>, size: nat) {
    && Flatten(batches) == xs
    && (forall k :: 0 <= k < |batches| ==> 0 < |batches[k]| <= size)
    && (forall k :: 0 <= k < |batches| - 1 ==> |batches[k]| == size)
  }

  /** `[xs[i:i + size] for i in range(start, len(xs), size)]`. */
  function Windows<T>(xs: seq<T>, size: nat, start: nat): (ws: seq<seq<T>>)
    requires size > 0
    decreases |xs| - start
  {
    if start >= |xs| then []
    else
      var end := if start + size <= |xs| then start + size else |xs|;
      [xs[start..end]] + Windows(xs, size, end)
  }

  lemma {:induction false} FlattenCons<T>(x: seq<T>, ss: seq<seq<T>>)
    ensures Flatten([x] + ss) == x + Flatten(ss)
    decreases |ss|
  {
    if |ss| == 0 {
      assert [x] + ss == [x];
      assert Flatten([x]) == Flatten<T>([]) + x;
    } else {
      var n := |ss| - 1;
      var t := [x] + ss;
      FlattenCons(x, ss[..n]);
      assert t[..n + 1] == [x] + ss[..n] && t[n + 1] == ss[n];
      assert Flatten(t) == Flatten([x] + ss[..n]) + ss[n];
      assert Flatten(ss) == Flatten(ss[..n]) + ss[n];
      AppendAssoc(x, Flatten(ss[..n]), ss[n]);
    }
  }

  /** The windows from `start` on, concatenated, are the rest of the list. */
  lemma {:induction false} WindowsFlatten<T>(xs: seq<T>, size: nat, start: nat)
    requires size > 0 && start <= |xs|
    ensures Flatten(Windows(xs, size, start)) == xs[start..]
    decreases |xs| - start
  {
    if start < |xs| {
      var end := if start + size <= |xs| then start + size else |xs|;
      WindowsFlatten(xs, size, end);
      FlattenCons(xs[start..end], Windows(xs, size, end));
      assert xs[start..] == xs[start..end] + xs[end..];
    } else {
      assert xs[start..] == [];
    }
  }

  /** Every window holds between one and `size` elements, and all but the last exactly `size`. */
  lemma {:induction false} WindowsSizes<T>(xs: seq<T>, size: nat, start: nat)
    requires size > 0
    ensures forall k :: 0 <= k < |Windows(xs, size, start)| ==> 0 < |Windows(xs, size, start)[k]| <= size
    ensures forall k :: 0 <= k < |Windows(xs, size, start)| - 1 ==> |Windows(xs, size, start)[k]| == size
    decreases |xs| - start
  {
    if start < |xs| {
      var end := if start + size <= |xs| then start + size else |xs|;
      var rest := Windows(xs, size, end);
      WindowsSizes(xs, size, end);
      var ws := [xs[start..end]] + rest;
      assert Windows(xs, size, start) == ws;
      forall k | 0 < k < |ws|
        ensures ws[k] == rest[k - 1]
      {
      }
      assert |rest| > 0 ==> end == start + size;
    }
  }

  /** The windows from `start` on are a batching of the rest of the list. */
  lemma WindowsBatching<T>(xs: seq<T>, size: nat, start: nat)
    requires size > 0 && start <= |xs|
    ensures IsBatching(xs[start..], Windows(xs, size, start), size)
  {
    WindowsFlatten(xs, size, start);
    WindowsSizes(xs, size, start);
  }
}
