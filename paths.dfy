/**
 * The parts of Python's `posixpath` the scripts use on '/'-separated paths: `basename`,
 * `dirname`, `join` and `normpath`, and the string form of a relative `pathlib` path.
 */
module PosixPath {
  import opened Opt
  import opened Text
  import opened Seqs

  /** `os.path.basename(p)`: everything after the last '/'. */
  function Basename(p: string): (r: string)
    ensures '/' !in r && EndsWith(p, r)
    ensures |r| < |p| ==> p[|p| - |r| - 1] == '/'
  {
    match LastIndexOf(p, '/')
    case None => p
    case Some(i) => p[i + 1..]
  }

  /** Appending slash-free text does not move the last '/'. */
  lemma {:induction false} LastIndexOfAppend(x: string, y: string, c: char)
    requires c !in y
    ensures LastIndexOf(x + y, c) == LastIndexOf(x, c)
    decreases |y|
  {
    if |y| == 0 {
      assert x + y == x;
    } else {
      var n := |y| - 1;
      assert (x + y)[..|x + y| - 1] == x + y[..n];
      LastIndexOfAppend(x, y[..n], c);
    }
  }

  /** The last component of `x + y`, when `y` has no '/', is that of `x` followed by `y`. */
  lemma {:induction false} BasenameAppend(x: string, y: string)
    requires '/' !in y
    ensures Basename(x + y) == Basename(x) + y
  {
    LastIndexOfAppend(x, y, '/');
    BasenameAt(x, y, LastIndexOf(x, '/'));
  }

  /** `BasenameAppend` once the last '/' of `x + y` is known to be that of `x`. */
  lemma {:induction false} BasenameAt(x: string, y: string, last: Option<nat>)
    requires last == LastIndexOf(x, '/') == LastIndexOf(x + y, '/')
    ensures Basename(x + y) == Basename(x) + y
  {
    match last
    case None =>
    case Some(i) =>
      assert (x + y)[i + 1..] == x[i + 1..] + y;
  }

  predicate AllSlashes(s: string) {
    forall i :: 0 <= i < |s| ==> s[i] == '/'
  }

  /** `os.path.dirname(p)`: everything before the last '/', trailing slashes removed unless only slashes remain. */
  function Dirname(p: string): (r: string)
    ensures StartsWith(p, r)
    ensures '/' !in p ==> r == ""
  {
    var head := match LastIndexOf(p, '/') case None => "" case Some(i) => p[..i + 1];
    if head != "" && !AllSlashes(head) then RStrip(head, '/') else head
  }

  /** `os.path.join(a, b)` for two arguments. */
  function JoinPath(a: string, b: string): (r: string)
    ensures StartsWith(b, "/") ==> r == b
    ensures !StartsWith(b, "/") ==> StartsWith(r, a) && EndsWith(r, b)
  {
    if StartsWith(b, "/") then b
    else if a == "" || EndsWith(a, "/") then a + b
    else a + "/" + b
  }

  /** The directory part of a joined path is the directory it was joined to. */
  lemma {:induction false} DirnameOfJoin(d: string, b: string)
    requires d != "" && d[|d| - 1] != '/' && '/' !in b
    ensures Dirname(JoinPath(d, b)) == d
  {
    var p := d + "/" + b;
    assert !StartsWith(b, "/");
    assert !EndsWith(d, "/");
    assert JoinPath(d, b) == p;
    assert p[|d|] == '/';
    var i := LastIndexOf(p, '/').value;
    assert p[|d| + 1..] == b;
    assert i == |d|;
    var head := p[..|d| + 1];
    assert head == d + "/";
    assert !AllSlashes(head) by {
      assert head[|d| - 1] != '/';
    }
    assert RStrip(head, '/') == RStrip(d, '/');
  }

  /**
   * Path components in normal form: none empty, none ".", none holding '/', and ".." only
   * in a leading run of a relative path.
   */
  predicate NormalParts(cs: seq<string>, abs: bool) {
    forall i :: 0 <= i < |cs| ==>
      && cs[i] != "" && cs[i] != "." && '/' !in cs[i]
      && (cs[i] == ".." ==> !abs && forall j :: 0 <= j < i ==> cs[j] == "..")
  }

  /** The component loop of `normpath`: drop "" and ".", let ".." cancel a preceding name. */
  function Resolve(parts: seq<string>, abs: bool, acc: seq<string>): (r: seq<string>)
    ensures NormalParts(acc, abs) && (forall k :: 0 <= k < |parts| ==> '/' !in parts[k]) ==> NormalParts(r, abs)
    decreases |parts|
  {
    if |parts| == 0 then acc
    else
      var c := parts[0];
      if c == "" || c == "." then Resolve(parts[1..], abs, acc)
      else if c != ".." || (!abs && |acc| == 0) || (|acc| > 0 && acc[|acc| - 1] == "..") then Resolve(parts[1..], abs, acc + [c])
      else if |acc| > 0 then Resolve(parts[1..], abs, acc[..|acc| - 1])
      else Resolve(parts[1..], abs, acc)
  }

  /** The leading slashes `normpath` keeps: two exactly when the path starts with exactly two. */
  function Lead(p: string): string {
    if StartsWith(p, "/") then (if StartsWith(p, "//") && !StartsWith(p, "///") then "//" else "/") else ""
  }

  /** `os.path.normpath(p)`. */
  function NormPath(p: string): (r: string)
    ensures r != ""
    ensures StartsWith(p, "/") <==> StartsWith(r, "/")
  {
    if p == "" then assert "."[0] == '.'; "."
    else
      var lead := Lead(p);
      var comps := Resolve(Split(p, '/'), lead != "", []);
      SplitPartsFree(p, '/');
      NormalJoinNoSlash(comps, lead != "");
      var r := lead + Join(comps, "/");
      if r == "" then assert "."[0] == '.'; "." else r
  }

  /** Components already in normal form pass through the loop unchanged. */
  lemma {:induction false} ResolveNormal(parts: seq<string>, abs: bool, acc: seq<string>)
    requires NormalParts(acc + parts, abs)
    ensures Resolve(parts, abs, acc) == acc + parts
    decreases |parts|
  {
    if |parts| > 0 {
      var c := parts[0];
      assert (acc + parts)[|acc|] == c;
      if c == ".." && |acc| > 0 {
        assert (acc + parts)[|acc| - 1] == acc[|acc| - 1];
      }
      assert acc + parts == (acc + [c]) + parts[1..];
      ResolveNormal(parts[1..], abs, acc + [c]);
    }
  }

  /** Normalised components joined with '/' do not start with '/'. */
  lemma {:induction false} NormalJoinNoSlash(comps: seq<string>, abs: bool)
    requires NormalParts(comps, abs)
    ensures !StartsWith(Join(comps, "/"), "/")
  {
    if |comps| > 0 {
      JoinFirst(comps, "/");
      assert Join(comps, "/")[0] == comps[0][0];
      assert comps[0][0] in comps[0];
    }
  }

  lemma {:induction false} ResolveSkipEmpty(parts: seq<string>, abs: bool)
    ensures Resolve([""] + parts, abs, []) == Resolve(parts, abs, [])
  {
    assert ([""] + parts)[1..] == parts;
  }

  /** `normpath` of the normalised components alone gives them back. */
  lemma {:induction false} NormalJoinResolves(comps: seq<string>, abs: bool)
    requires NormalParts(comps, abs)
    ensures Resolve(Split(Join(comps, "/"), '/'), abs, []) == comps
  {
    if |comps| == 0 {
      assert Split("", '/') == [""];
    } else {
      SplitJoin(comps, '/');
      ResolveNormal(comps, abs, []);
    }
  }

  lemma {:induction false} NormPathDot()
    ensures NormPath(".") == "."
  {
    assert Split(".", '/') == ["."] by {
      assert "."[1..] == "";
      assert Split("", '/') == [""];
      assert ['.'] + "" == ".";
    }
    assert Lead(".") == "";
  }

  /** `normpath` is idempotent. */
  lemma {:induction false} NormPathIdempotent(p: string)
    ensures NormPath(NormPath(p)) == NormPath(p)
  {
    NormPathDot();
    if p != "" {
      var lead := Lead(p);
      SplitPartsFree(p, '/');
      var comps := Resolve(Split(p, '/'), lead != "", []);
      var j := Join(comps, "/");
      if lead + j != "" {
        NormalJoinNoSlash(comps, lead != "");
        NormalJoinResolves(comps, lead != "");
        if lead == "" {
          NormPathRelative(comps);
        } else if lead == "/" {
          NormPathRooted(comps);
        } else {
          NormPathDoubleRooted(comps);
        }
      }
    }
  }

  /** A non-empty relative path in normal form is its own `normpath`. */
  lemma {:induction false} NormPathRelative(comps: seq<string>)
    requires NormalParts(comps, false) && Join(comps, "/") != ""
    requires !StartsWith(Join(comps, "/"), "/")
    requires Resolve(Split(Join(comps, "/"), '/'), false, []) == comps
    ensures NormPath(Join(comps, "/")) == Join(comps, "/")
  {
    assert Lead(Join(comps, "/")) == "";
  }

  /** An absolute path in normal form is its own `normpath`. */
  lemma {:induction false} NormPathRooted(comps: seq<string>)
    requires NormalParts(comps, true)
    requires !StartsWith(Join(comps, "/"), "/")
    requires Resolve(Split(Join(comps, "/"), '/'), true, []) == comps
    ensures NormPath("/" + Join(comps, "/")) == "/" + Join(comps, "/")
  {
    var j := Join(comps, "/");
    var r := "/" + j;
    assert r[1..] == j;
    assert Lead(r) == "/";
    SplitSlash(j);
    ResolveSkipEmpty(Split(j, '/'), true);
  }

  /** A leading '/' splits off an empty first component. */
  lemma {:induction false} SplitSlash(j: string)
    ensures Split("/" + j, '/') == [""] + Split(j, '/')
  {
    assert ("/" + j)[1..] == j;
  }

  /** A path in normal form under exactly two leading slashes is its own `normpath`. */
  lemma {:induction false} NormPathDoubleRooted(comps: seq<string>)
    requires NormalParts(comps, true)
    requires !StartsWith(Join(comps, "/"), "/")
    requires Resolve(Split(Join(comps, "/"), '/'), true, []) == comps
    ensures NormPath("//" + Join(comps, "/")) == "//" + Join(comps, "/")
  {
    var j := Join(comps, "/");
    var r := "//" + j;
    assert r == "/" + ("/" + j);
    assert Lead(r) == "//";
    SplitSlash("/" + j);
    SplitSlash(j);
    ResolveSkipEmpty([""] + Split(j, '/'), true);
    ResolveSkipEmpty(Split(j, '/'), true);
  }

  // ---------------------------------------------------------------- pathlib

  /** A component `pathlib` keeps in a relative path: neither empty nor ".". */
  predicate KeptPart(c: string) {
    c != "" && c != "."
  }

  /**
   * The string form of a relative `PurePosixPath(p)`: empty and "." components are dropped,
   * so "a//b" and "a/./b" both read "a/b"; unlike `normpath`, ".." is kept. The empty string
   * stands for the path with no component.
   */
  function PurePath(p: string): string {
    Join(Filter(KeptPart, Split(p, '/')), "/")
  }

  /** The components of a pure path are the kept components of its input, in order. */
  lemma {:induction false} PurePathParts(p: string)
    ensures PurePath(p) == "" <==> Filter(KeptPart, Split(p, '/')) == []
    ensures PurePath(p) != "" ==> Split(PurePath(p), '/') == Filter(KeptPart, Split(p, '/'))
    ensures PurePath(p) != "" ==> forall k :: 0 <= k < |Split(PurePath(p), '/')| ==> KeptPart(Split(PurePath(p), '/')[k])
  {
    var parts := Split(p, '/');
    var kept := Filter(KeptPart, parts);
    SplitPartsFree(p, '/');
    forall k | 0 <= k < |kept|
      ensures KeptPart(kept[k]) && '/' !in kept[k]
    {
      FilterMembership(KeptPart, parts, kept[k]);
    }
    if kept != [] {
      SplitJoin(kept, '/');
    }
  }

  /** A pure path is its own pure form. */
  lemma {:induction false} PurePathIdempotent(p: string)
    ensures PurePath(PurePath(p)) == PurePath(p)
  {
    var r := PurePath(p);
    PurePathParts(p);
    if r == "" {
      assert Split(r, '/') == [""];
      assert Filter(KeptPart, [""]) == [];
    } else {
      FilterAll(KeptPart, Split(r, '/'));
    }
  }

  /** A path whose every component is kept is already pure. */
  lemma {:induction false} PurePathClean(p: string)
    requires forall k :: 0 <= k < |Split(p, '/')| ==> KeptPart(Split(p, '/')[k])
    ensures PurePath(p) == p
  {
    FilterAll(KeptPart, Split(p, '/'));
    JoinSplit(p, '/');
  }

  /** The pure form of '/'-free components joined with '/' keeps the kept ones. */
  lemma {:induction false} PurePathOfJoin(parts: seq<string>)
    requires forall k :: 0 <= k < |parts| ==> '/' !in parts[k]
    ensures PurePath(Join(parts, "/")) == Join(Filter(KeptPart, parts), "/")
  {
    if |parts| > 0 {
      SplitJoin(parts, '/');
    } else {
      assert Split("", '/') == [""];
      assert Filter(KeptPart, [""]) == [];
    }
  }

  lemma {:induction false} FilterDropsPart(xs: seq<string>, e: string, ys: seq<string>)
    requires !KeptPart(e)
    ensures Filter(KeptPart, xs + [e] + ys) == Filter(KeptPart, xs + ys)
  {
    FilterAppend(KeptPart, xs + [e], ys);
    FilterAppend(KeptPart, xs, [e]);
    assert Filter(KeptPart, [e]) == [];
    FilterAppend(KeptPart, xs, ys);
  }

  /**
   * An empty or "." component between '/'-free components does not change the file named:
   * "x//y" and "x/./y" name what "x/y" names.
   */
  lemma {:induction false} PurePathDropsPart(xs: seq<string>, e: string, ys: seq<string>)
    requires !KeptPart(e)
    requires forall k :: 0 <= k < |xs| ==> '/' !in xs[k]
    requires forall k :: 0 <= k < |ys| ==> '/' !in ys[k]
    ensures PurePath(Join(xs + [e] + ys, "/")) == PurePath(Join(xs + ys, "/"))
  {
    assert '/' !in e;
    var long, short := xs + [e] + ys, xs + ys;
    assert forall k :: 0 <= k < |long| ==> long[k] == e || long[k] in xs || long[k] in ys;
    PurePathOfJoin(long);
    PurePathOfJoin(short);
    FilterDropsPart(xs, e, ys);
  }

  /** The three sample paths below, as joins of their components. */
  lemma {:induction false} SampleJoins()
    ensures Join(["a", "", "b.html"], "/") == "a//b.html"
    ensures Join(["a", ".", "b.html"], "/") == "a/./b.html"
    ensures Join(["a", "b.html"], "/") == "a/b.html"
  {
    assert Join(["b.html"], "/") == "b.html";
    assert Join(["", "b.html"], "/") == "/b.html";
    assert Join([".", "b.html"], "/") == "./b.html";
  }

  /** So "a//b.html" and "a/./b.html" both name "a/b.html". */
  lemma {:induction false} PurePathCollapses()
    ensures PurePath("a//b.html") == PurePath("a/./b.html") == "a/b.html"
  {
    SampleJoins();
    var plain := ["a", "b.html"];
    assert '/' !in "a" && '/' !in "b.html";
    assert ["a"] + [""] + ["b.html"] == ["a", "", "b.html"];
    assert ["a"] + ["."] + ["b.html"] == ["a", ".", "b.html"];
    assert ["a"] + ["b.html"] == plain;
    PurePathDropsPart(["a"], "", ["b.html"]);
    PurePathDropsPart(["a"], ".", ["b.html"]);
    PurePathOfJoin(plain);
    FilterAll(KeptPart, plain);
  }
}
