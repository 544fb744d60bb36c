/**
  Python's `posixpath`: `normpath`, `join` and the basename half of `split`, on the
  POSIX separator `/`.
 */
module PosixPath {
  import opened Text

  const Sep: char := '/'

  /** `n` separators. */
  function Seps(n: nat): (r: string)
    ensures |r| == n && forall i :: 0 <= i < n ==> r[i] == Sep
  {
    seq(n, _ => Sep)
  }

  /** How many separators `s` starts with. */
  function LeadingSeps(s: string): (n: nat)
    ensures n <= |s|
    ensures forall i :: 0 <= i < n ==> s[i] == Sep
    ensures n == |s| || s[n] != Sep
  {
    if |s| > 0 && s[0] == Sep then 1 + LeadingSeps(s[1..]) else 0
  }

  /** The leading separators `normpath` keeps: none for a relative path, exactly two
      for a path starting with exactly two, otherwise one. */
  function RootSeps(path: string): nat {
    if !StartsWith(path, "/") then 0
    else if StartsWith(path, "//") && !StartsWith(path, "///") then 2
    else 1
  }

  /** One step of the collapsing loop: empty and `.` components vanish; `..` pops the
      previous component unless that is itself `..`, is dropped at the root of an
      absolute path, and is kept at the start of a relative one. */
  function Push(stack: seq<string>, comp: string, absolute: bool): seq<string> {
    if comp == "" || comp == "." then stack
    else if comp != ".." || (!absolute && stack == []) || (stack != [] && stack[|stack| - 1] == "..") then
      stack + [comp]
    else if stack != [] then stack[..|stack| - 1]
    else stack
  }

  function Collapse(stack: seq<string>, comps: seq<string>, absolute: bool): seq<string>
    decreases |comps|
  {
    if comps == [] then stack else Collapse(Push(stack, comps[0], absolute), comps[1..], absolute)
  }

  /** `os.path.normpath(path)` on POSIX. */
  function Normpath(path: string): (r: string)
    ensures r != ""
  {
    if path == "" then "."
    else
      var k := RootSeps(path);
      var comps := Collapse([], Split(path, Sep), k > 0);
      var r := Seps(k) + Join(comps, Sep);
      if r == "" then "." else r
  }

  /** A component list as `normpath` leaves it: no empty, `.` or separator-bearing
      component; `..` only as a leading run, and none at all in an absolute path. */
  predicate Reduced(comps: seq<string>, absolute: bool) {
    && (forall i :: 0 <= i < |comps| ==> comps[i] != "" && comps[i] != "." && Sep !in comps[i])
    && (absolute ==> forall i :: 0 <= i < |comps| ==> comps[i] != "..")
    && (forall i, j :: 0 <= i < j < |comps| && comps[j] == ".." ==> comps[i] == "..")
  }

  /** The shape of a normalised path: `.`, or at most two leading separators followed by
      nothing or by a reduced list of components joined by single separators. */
  predicate Canonical(n: string) {
    n == "." ||
    (n != "" && LeadingSeps(n) <= 2 &&
     var rest := n[LeadingSeps(n)..];
     rest == "" || Reduced(Split(rest, Sep), LeadingSeps(n) > 0))
  }

  lemma PushReduced(stack: seq<string>, comp: string, absolute: bool)
    requires Reduced(stack, absolute) && Sep !in comp
    ensures Reduced(Push(stack, comp, absolute), absolute)
  {
    var r := Push(stack, comp, absolute);
    if comp == ".." && |r| == |stack| + 1 && stack != [] {
      assert stack[|stack| - 1] == "..";
      assert forall i :: 0 <= i < |stack| ==> stack[i] == "..";
    }
  }

  lemma {:induction false} CollapseReduced(stack: seq<string>, comps: seq<string>, absolute: bool)
    requires Reduced(stack, absolute)
    requires forall i :: 0 <= i < |comps| ==> Sep !in comps[i]
    ensures Reduced(Collapse(stack, comps, absolute), absolute)
    decreases |comps|
  {
    if comps != [] {
      PushReduced(stack, comps[0], absolute);
      CollapseReduced(Push(stack, comps[0], absolute), comps[1..], absolute);
    }
  }

  /** A list that is already reduced passes through the collapsing loop unchanged. */
  lemma {:induction false} CollapseOfReduced(stack: seq<string>, comps: seq<string>, absolute: bool)
    requires Reduced(stack + comps, absolute)
    ensures Collapse(stack, comps, absolute) == stack + comps
    decreases |comps|
  {
    if comps != [] {
      var c := comps[0];
      assert (stack + comps)[|stack|] == c;
      if c == ".." && stack != [] {
        assert (stack + comps)[|stack| - 1] == "..";
      }
      assert Push(stack, c, absolute) == stack + [c];
      assert stack + [c] + comps[1..] == stack + comps;
      CollapseOfReduced(stack + [c], comps[1..], absolute);
    }
  }

  lemma LeadingSepsOfSeps(k: nat, t: string)
    requires t == "" || t[0] != Sep
    ensures LeadingSeps(Seps(k) + t) == k
    decreases k
  {
    if k > 0 {
      assert (Seps(k) + t)[1..] == Seps(k - 1) + t;
      LeadingSepsOfSeps(k - 1, t);
    } else {
      assert Seps(k) + t == t;
    }
  }

  /** At most two separators followed by a reduced list of components, joined, is
      canonical. */
  lemma CanonicalOfParts(k: nat, comps: seq<string>)
    requires k <= 2 && Reduced(comps, k > 0) && Seps(k) + Join(comps, Sep) != ""
    ensures Canonical(Seps(k) + Join(comps, Sep))
  {
    var body := Join(comps, Sep);
    var r := Seps(k) + body;
    if comps != [] {
      JoinStartsWithPiece(comps);
      SplitJoin(comps, Sep);
    }
    LeadingSepsOfSeps(k, body);
    AfterSeps(k, body);
    CanonicalIntro(r, k);
  }

  /** Joining pieces whose first one is non-empty and separator-free starts with that
      piece's first character, which is not a separator. */
  lemma JoinStartsWithPiece(comps: seq<string>)
    requires comps != [] && comps[0] != "" && Sep !in comps[0]
    ensures Join(comps, Sep) != "" && Join(comps, Sep)[0] == comps[0][0] != Sep
  {
    if |comps| > 1 {
      assert Join(comps, Sep) == comps[0] + ([Sep] + Join(comps[1..], Sep));
    }
    assert comps[0][0] in comps[0];
  }

  lemma AfterSeps(k: nat, t: string)
    ensures (Seps(k) + t)[k..] == t
  {
  }

  /** The canonical shape, read off a path's leading separators and what follows them. */
  lemma CanonicalIntro(n: string, k: nat)
    requires n != "" && LeadingSeps(n) == k <= 2
    requires n[k..] == "" || Reduced(Split(n[k..], Sep), k > 0)
    ensures Canonical(n)
  {
  }

  /** Every result of `normpath` has the canonical shape. */
  lemma NormpathCanonical(path: string)
    ensures Canonical(Normpath(path))
  {
    if path != "" {
      var k := RootSeps(path);
      var parts := Split(path, Sep);
      var comps := Collapse([], parts, k > 0);
      CollapseReduced([], parts, k > 0);
      var r := Seps(k) + Join(comps, Sep);
      if r != "" {
        CanonicalOfParts(k, comps);
        assert Normpath(path) == r;
      } else {
        assert Normpath(path) == ".";
      }
    }
  }

  lemma SplitAfterSeps(k: nat, t: string)
    ensures Split(Seps(k) + t, Sep) == seq(k, _ => "") + Split(t, Sep)
    decreases k
  {
    if k > 0 {
      var s := Seps(k) + t;
      assert s[0] == Sep;
      assert s[1..] == Seps(k - 1) + t;
      SplitAfterSeps(k - 1, t);
      assert seq(k, _ => "") == [""] + seq(k - 1, _ => "");
    } else {
      assert Seps(k) + t == t;
    }
  }

  lemma {:induction false} CollapseSkipsEmpty(k: nat, comps: seq<string>, absolute: bool)
    ensures Collapse([], seq(k, _ => "") + comps, absolute) == Collapse([], comps, absolute)
    decreases k
  {
    if k > 0 {
      var xs := seq(k, _ => "") + comps;
      assert xs[0] == "";
      assert xs[1..] == seq(k - 1, _ => "") + comps;
      CollapseSkipsEmpty(k - 1, comps, absolute);
    } else {
      assert seq(k, _ => "") + comps == comps;
    }
  }

  lemma RootSepsIsLeading(n: string)
    requires n != "" && LeadingSeps(n) <= 2
    ensures RootSeps(n) == LeadingSeps(n)
  {
    var k := LeadingSeps(n);
    if k >= 1 { assert n[0] == '/'; }
    if k >= 2 { assert n[1] == '/'; }
    if k == 0 { assert n[0] != '/'; }
    if k == 1 && |n| > 1 { assert n[1] != '/'; }
    if k == 2 && |n| > 2 { assert n[2] != '/'; }
  }

  /** `normpath` of a non-empty path, with its two intermediate results named. */
  lemma NormpathUnfold(path: string, k: nat, comps: seq<string>)
    requires path != "" && k == RootSeps(path)
    requires comps == Collapse([], Split(path, Sep), k > 0)
    requires Seps(k) + Join(comps, Sep) != ""
    ensures Normpath(path) == Seps(k) + Join(comps, Sep)
  {
  }

  /** The collapsing loop applied to a canonical path returns its own components. */
  lemma CollapseOfCanonical(n: string)
    requires Canonical(n) && n != "."
    ensures var k := LeadingSeps(n);
      Join(Collapse([], Split(n, Sep), k > 0), Sep) == n[k..]
  {
    var k := LeadingSeps(n);
    var rest := n[k..];
    var pieces := Split(rest, Sep);
    SplitCanonical(n);
    CollapseSkipsEmpty(k, pieces, k > 0);
    if rest != "" {
      CollapseOfReduced([], pieces, k > 0);
      assert [] + pieces == pieces;
    }
  }

  /** A path splits into an empty piece per leading separator, then the pieces of what
      follows them. */
  lemma SplitCanonical(n: string)
    ensures var k := LeadingSeps(n);
      Split(n, Sep) == seq(k, _ => "") + Split(n[k..], Sep)
  {
    var k := LeadingSeps(n);
    assert n == Seps(k) + n[k..];
    SplitAfterSeps(k, n[k..]);
  }

  /** Canonical paths are exactly the fixed points of `normpath`. */
  lemma CanonicalIsFixed(n: string)
    requires Canonical(n)
    ensures Normpath(n) == n
  {
    if n != "." {
      var k := LeadingSeps(n);
      RootSepsIsLeading(n);
      CollapseOfCanonical(n);
      var comps := Collapse([], Split(n, Sep), k > 0);
      assert Seps(k) + n[k..] == n;
      NormpathUnfold(n, k, comps);
    } else {
      SplitNoSep(n, Sep);
      assert Collapse([], Split(n, Sep), false) == [];
    }
  }

  /** `normpath` is idempotent. */
  lemma NormpathIdempotent(path: string)
    ensures Normpath(Normpath(path)) == Normpath(path)
  {
    NormpathCanonical(path);
    CanonicalIsFixed(Normpath(path));
  }

  /** A path is absolute exactly when its normal form is. */
  lemma NormpathKeepsAbsolute(path: string)
    ensures StartsWith(path, "/") <==> StartsWith(Normpath(path), "/")
  {
    if path != "" {
      var k := RootSeps(path);
      var comps := Collapse([], Split(path, Sep), k > 0);
      CollapseReduced([], Split(path, Sep), k > 0);
      var body := Join(comps, Sep);
      if comps != [] {
        JoinStartsWithPiece(comps);
      }
      if k > 0 {
        assert (Seps(k) + body)[0] == Sep;
      }
    }
  }

  /** `os.path.join(a, b)`. */
  function PathJoin(a: string, b: string): string {
    if StartsWith(b, "/") then b
    else if a == "" || EndsWith(a, "/") then a + b
    else a + "/" + b
  }

  /** `os.path.split(p)[1]`: what follows the last separator. */
  function Basename(p: string): string {
    var parts := Split(p, Sep);
    parts[|parts| - 1]
  }

  /** The basename of a path whose last separator precedes `b` is `b`. */
  lemma BasenameAfterSep(a: string, b: string)
    requires Sep !in b
    ensures Basename(a + [Sep] + b) == b
  {
    SplitTail(a, b);
  }

  /** Joining a separator-free name onto a directory path and taking the basename gives
      the name back. */
  lemma BasenameOfJoin(dir: string, name: string)
    requires Sep !in name
    ensures Basename(PathJoin(dir, name)) == name
  {
    var j := PathJoin(dir, name);
    assert !StartsWith(name, "/") by {
      if |name| > 0 { assert name[0] in name; }
    }
    if dir == "" {
      assert j == name;
      SplitNoSep(name, Sep);
    } else {
      var d := if EndsWith(dir, "/") then dir[..|dir| - 1] else dir;
      assert j == d + [Sep] + name by {
        if EndsWith(dir, "/") {
          assert dir == d + [Sep];
        }
      }
      SplitTail(d, name);
    }
  }

  /** The last piece of `a + sep + b` is the last piece of `b`. */
  lemma {:induction false} SplitTail(a: string, b: string)
    requires Sep !in b
    ensures var parts := Split(a + [Sep] + b, Sep); parts[|parts| - 1] == b
    decreases |a|
  {
    var s := a + [Sep] + b;
    if a == [] {
      assert s[1..] == b;
      SplitNoSep(b, Sep);
    } else {
      assert s[1..] == a[1..] + [Sep] + b;
      SplitTail(a[1..], b);
    }
  }
}
