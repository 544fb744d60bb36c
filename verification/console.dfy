/**
  The console (yui_oss/console.py): the current remote directory `root` that `cd`
  recomputes and persists, the resolution of remote arguments against it, the argument
  counts each command insists on, and the entries `ls` shows.
 */
module Console {
  import opened Outcomes
  import opened Text
  import opened PosixPath
  import opened RemotePath
  import opened Store
  import opened Plans
  import opened Objects
  import opened Transfer

  /** The new root after `cd`, and whether the attribute file is written back. */
  datatype CdResult = CdResult(root: string, persisted: bool)

  /** The segment loop of `cd`: `.` is skipped, `..` pops the last kept segment if there
      is one, anything else (the empty segment included) is kept. */
  function ResolveSegments(stack: seq<string>, segs: seq<string>): seq<string>
    decreases |segs|
  {
    if segs == [] then stack
    else if segs[0] == "." then ResolveSegments(stack, segs[1..])
    else if segs[0] == ".." then
      ResolveSegments(if |stack| > 0 then stack[..|stack| - 1] else stack, segs[1..])
    else ResolveSegments(stack + [segs[0]], segs[1..])
  }

  /** `cd` with the command-line arguments `args`. */
  function Cd(root: string, args: seq<string>): CdResult {
    if |args| == 0 then CdResult("", true)
    else
      var path := args[0];
      if !IsDir(path) then CdResult(root, false)
      else CdResult(Enter(root, NormPath(path)), true)
  }

  /** The root `cd` computes from the normalised argument `n`: relative to the current
      root unless `n` starts with the separator, then resolved segment by segment. */
  function Enter(root: string, n: string): string {
    var tmp := if StartsWith(n, "/") then n[1..] else root + n;
    Join(ResolveSegments([], Split(tmp, Sep)), Sep)
  }

  /** A root as `cd` leaves it: empty or ending with the separator, and without `.` or
      `..` segments. */
  predicate CleanRoot(root: string) {
    (root == "" || EndsWith(root, "/")) && Dotless(Split(root, Sep))
  }

  /** Segments none of which is `.` or `..`. */
  predicate Dotless(segs: seq<string>) {
    forall i :: 0 <= i < |segs| ==> segs[i] != "." && segs[i] != ".."
  }

  /** Segments none of which holds the separator. */
  predicate SepFree(segs: seq<string>) {
    forall i :: 0 <= i < |segs| ==> Sep !in segs[i]
  }

  /** `cd` with no argument goes to the bucket root and persists it. */
  lemma CdNoArgument(root: string)
    ensures Cd(root, []) == CdResult("", true)
  {
  }

  /** `cd` to something that is not directory-shaped changes nothing and persists nothing. */
  lemma CdRejectsNonDirectory(root: string, args: seq<string>)
    requires |args| > 0 && !IsDir(args[0])
    ensures Cd(root, args) == CdResult(root, false)
  {
  }

  /** The segment loop never keeps `.` or `..`, and never drops a final segment that is
      neither. */
  lemma {:induction false} ResolveSegmentsClean(stack: seq<string>, segs: seq<string>)
    requires Dotless(stack)
    ensures Dotless(ResolveSegments(stack, segs))
    decreases |segs|
  {
    if segs != [] {
      var next := if segs[0] == "." then stack
        else if segs[0] == ".." then (if |stack| > 0 then stack[..|stack| - 1] else stack)
        else stack + [segs[0]];
      assert ResolveSegments(stack, segs) == ResolveSegments(next, segs[1..]);
      assert Dotless(next);
      ResolveSegmentsClean(next, segs[1..]);
    }
  }

  /** Resolving two runs of segments one after the other. */
  lemma {:induction false} ResolveSegmentsAppend(stack: seq<string>, xs: seq<string>, ys: seq<string>)
    ensures ResolveSegments(stack, xs + ys) == ResolveSegments(ResolveSegments(stack, xs), ys)
    decreases |xs|
  {
    if xs == [] {
      assert xs + ys == ys;
    } else {
      assert (xs + ys)[0] == xs[0] && (xs + ys)[1..] == xs[1..] + ys;
      var next := if xs[0] == "." then stack
        else if xs[0] == ".." then (if |stack| > 0 then stack[..|stack| - 1] else stack)
        else stack + [xs[0]];
      ResolveSegmentsAppend(next, xs[1..], ys);
    }
  }

  /** Segments without `.` and `..` are kept as they are. */
  lemma {:induction false} ResolveSegmentsPlain(stack: seq<string>, segs: seq<string>)
    requires Dotless(segs)
    ensures ResolveSegments(stack, segs) == stack + segs
    decreases |segs|
  {
    if segs != [] {
      assert Dotless(segs[1..]) by {
        assert forall i :: 0 <= i < |segs| - 1 ==> segs[1..][i] == segs[i + 1];
      }
      ResolveSegmentsPlain(stack + [segs[0]], segs[1..]);
      assert stack + [segs[0]] + segs[1..] == stack + segs;
    } else {
      assert stack + segs == stack;
    }
  }

  /** A string that ends with the separator splits into pieces ending with an empty one. */
  lemma SplitEndsEmpty(t: string)
    requires EndsWith(t, "/")
    ensures var parts := Split(t, Sep); parts[|parts| - 1] == ""
  {
    assert t == t[..|t| - 1] + [Sep] + "";
    SplitTail(t[..|t| - 1], "");
  }

  /** Joining segments whose last one is empty gives the empty string or a string that
      ends with the separator. */
  lemma JoinEndsEmpty(segs: seq<string>)
    requires |segs| >= 1 && segs[|segs| - 1] == ""
    ensures Join(segs, Sep) == "" || EndsWith(Join(segs, Sep), "/")
  {
    if |segs| > 1 {
      var init := segs[..|segs| - 1];
      assert segs == init + [""];
      JoinSnoc(init, "", Sep);
    }
  }

  /** Resolving a string that is empty or ends with the separator leaves a clean root. */
  lemma EnterClean(tmp: string)
    requires tmp == "" || EndsWith(tmp, "/")
    ensures CleanRoot(Join(ResolveSegments([], Split(tmp, Sep)), Sep))
  {
    var segs := Split(tmp, Sep);
    var kept := ResolveSegments([], segs);
    ResolveSegmentsClean([], segs);
    if tmp == "" {
      assert segs == [""];
      assert [""][1..] == [];
      assert kept == [""];
    } else {
      SplitEndsEmpty(tmp);
      var init := segs[..|segs| - 1];
      assert segs == init + [""];
      ResolveSegmentsAppend([], init, [""]);
      assert ResolveSegments(ResolveSegments([], init), [""]) == ResolveSegments([], init) + [""];
    }
    assert |kept| >= 1 && kept[|kept| - 1] == "";
    JoinEndsEmpty(kept);
    ResolveKeepsPieces([], segs);
    assert SepFree(kept);
    SplitJoin(kept, Sep);
  }

  /** Whatever the old root, a `cd` that moves leaves a clean root. */
  lemma CdLeavesCleanRoot(root: string, args: seq<string>)
    requires |args| > 0 && IsDir(args[0])
    ensures CleanRoot(Cd(root, args).root)
  {
    var n := NormPath(args[0]);
    IsDirIffTrailingSep(args[0]);
    assert EndsWith(n, "/");
    var tmp := if StartsWith(n, "/") then n[1..] else root + n;
    assert tmp == "" || EndsWith(tmp, "/") by {
      if tmp != "" {
        assert tmp[|tmp| - 1] == n[|n| - 1];
      }
    }
    EnterClean(tmp);
  }

  /** The segment loop only ever keeps segments it was given. */
  lemma {:induction false} ResolveKeepsPieces(stack: seq<string>, segs: seq<string>)
    requires SepFree(stack) && SepFree(segs)
    ensures SepFree(ResolveSegments(stack, segs))
    decreases |segs|
  {
    if segs != [] {
      var next := if segs[0] == "." then stack
        else if segs[0] == ".." then (if |stack| > 0 then stack[..|stack| - 1] else stack)
        else stack + [segs[0]];
      assert ResolveSegments(stack, segs) == ResolveSegments(next, segs[1..]);
      assert SepFree(segs[1..]) by {
        assert forall i :: 0 <= i < |segs| - 1 ==> segs[1..][i] == segs[i + 1];
      }
      assert SepFree(next);
      ResolveKeepsPieces(next, segs[1..]);
    }
  }

  /** A normalised key that starts with the separator came from a stripped argument that
      did. */
  lemma NormPathKeepsLeadingSep(p: string)
    requires StartsWith(p, "/")
    ensures StartsWith(NormPath(p), "/")
  {
    StripKeepsFirst(p);
    var s := Strip(p);
    assert StartsWith(s, "/");
    NormpathKeepsAbsolute(s);
  }

  /** A directory-shaped `cd` argument that starts with the separator ignores the
      current root; one that is not directory-shaped leaves each root as it was. */
  lemma CdAbsoluteIgnoresRoot(root1: string, root2: string, args: seq<string>)
    requires |args| > 0 && StartsWith(args[0], "/")
    ensures IsDir(args[0]) ==> Cd(root1, args) == Cd(root2, args)
    ensures !IsDir(args[0]) ==> Cd(root1, args).root == root1 && Cd(root2, args).root == root2
  {
    NormPathKeepsLeadingSep(args[0]);
  }

  /** `..` is directory-shaped and normalises to `../`. */
  lemma NormPathOfDotDot(p: string)
    requires p == ".."
    ensures IsDir(p) && NormPath(p) == "../"
  {
    StripOfPlain(p);
    DesignatorNormpath(p);
    NormPathUnfold(p, p, p);
  }

  /** Plain segments of a clean root, followed by one more segment, joined. */
  lemma JoinRootThen(segs: seq<string>, x: string)
    requires |x| > 0
    ensures Join(segs + [""], Sep) + x + "/" == Join(segs + [x, ""], Sep)
  {
    var all := segs + [x, ""];
    if segs == [] {
      assert Join(segs + [""], Sep) == "";
      assert all == [x, ""];
      assert Join(all, Sep) == x + [Sep] + "";
    } else {
      JoinSnoc(segs, "", Sep);
      JoinSnoc(segs, x, Sep);
      JoinSnoc(segs + [x], "", Sep);
      assert segs + [x] + [""] == all;
    }
  }

  /** Entering `../` from a clean root drops its last segment, or stays at the bucket
      root. */
  lemma EnterUp(segs: seq<string>)
    requires Dotless(segs) && SepFree(segs)
    ensures var parent := if segs == [] then [] else segs[..|segs| - 1];
      Enter(Join(segs + [""], Sep), "../") == Join(parent + [""], Sep)
  {
    var root := Join(segs + [""], Sep);
    var all := segs + ["..", ""];
    JoinRootThen(segs, "..");
    assert root + "../" == Join(segs + [""], Sep) + ".." + "/";
    SegmentsThen(segs, "..");
    SplitJoin(all, Sep);
    assert !StartsWith("../", "/") by {
      assert "../"[0] != "/"[0];
    }
    assert Split(root + "../", Sep) == all;
    ResolveSegmentsPlain([], segs);
    assert [] + segs == segs;
    ResolveSegmentsAppend([], segs, ["..", ""]);
    var parent := if segs == [] then [] else segs[..|segs| - 1];
    assert ResolveSegments(segs, ["..", ""]) == parent + [""];
  }

  /** `cd ..` from a clean root drops its last segment; from the bucket root it stays at
      the bucket root. */
  lemma CdUp(segs: seq<string>, up: string)
    requires up == ".."
    requires Dotless(segs) && SepFree(segs)
    ensures var parent := if segs == [] then [] else segs[..|segs| - 1];
      Cd(Join(segs + [""], Sep), [up]) == CdResult(Join(parent + [""], Sep), true)
  {
    NormPathOfDotDot(up);
    EnterUp(segs);
  }

  /** A plain directory name followed by the separator is its own normal form. */
  lemma NormPathOfChild(name: string)
    requires name != "" && name != "." && name != ".." && Sep !in name && !IsSpace(name[0])
    ensures IsDir(name + "/") && NormPath(name + "/") == name + "/"
  {
    var p := name + "/";
    assert p[|p| - 1] == '/';
    StripOfPlain(p);
    SplitAfterPiece(name, "", Sep);
    assert p == name + [Sep] + "";
    assert Split(p, Sep) == [name, ""];
    assert RootSeps(p) == 0 by {
      assert p[0] == name[0];
    }
    assert Push([], name, false) == [name];
    assert [name, ""][1..] == [""];
    assert Collapse([name], [""], false) == [name];
    assert Collapse([], [name, ""], false) == [name];
    NormpathUnfold(p, 0, [name]);
    assert Normpath(p) == name;
    NormPathUnfold(p, p, name);
    TrailingSepIsDir(p);
  }

  /** A clean root's segments followed by two more. */
  lemma SegmentsThen(segs: seq<string>, x: string)
    requires Dotless(segs) && SepFree(segs) && Sep !in x
    ensures SepFree(segs + [x, ""])
    ensures x != "." && x != ".." ==> Dotless(segs + [x, ""])
  {
    var all := segs + [x, ""];
    assert forall i :: 0 <= i < |segs| ==> all[i] == segs[i];
    assert all[|segs|] == x && all[|segs| + 1] == "";
  }

  /** Entering `name/` from a clean root appends the segment. */
  lemma EnterChild(segs: seq<string>, name: string)
    requires Dotless(segs) && SepFree(segs)
    requires name != "" && name != "." && name != ".." && Sep !in name
    ensures Enter(Join(segs + [""], Sep), name + "/") == Join(segs + [name, ""], Sep)
  {
    var root := Join(segs + [""], Sep);
    var all := segs + [name, ""];
    JoinRootThen(segs, name);
    assert !StartsWith(name + "/", "/") by {
      assert (name + "/")[0] == name[0];
      assert name[0] in name;
    }
    SegmentsThen(segs, name);
    SplitJoin(all, Sep);
    assert root + (name + "/") == Join(all, Sep);
    ResolveSegmentsPlain([], all);
    assert [] + all == all;
  }

  /** `cd name/` from a clean root followed by `cd ..` comes back to that root. */
  lemma CdChildThenUp(segs: seq<string>, name: string, up: string)
    requires up == ".."
    requires Dotless(segs) && SepFree(segs)
    requires name != "" && name != "." && name != ".." && Sep !in name && !IsSpace(name[0])
    ensures var root := Join(segs + [""], Sep);
      Cd(Cd(root, [name + "/"]).root, [up]) == CdResult(root, true)
  {
    var child := segs + [name];
    CdIntoChild(segs, name);
    ChildSegments(segs, name);
    CdUp(child, up);
  }

  /** A clean root's segments with one clean segment more. */
  lemma ChildSegments(segs: seq<string>, name: string)
    requires Dotless(segs) && SepFree(segs)
    requires name != "." && name != ".." && Sep !in name
    ensures var child := segs + [name];
      && SepFree(child) && Dotless(child)
      && child + [""] == segs + [name, ""] && child[..|child| - 1] == segs
  {
    var child := segs + [name];
    assert forall i :: 0 <= i < |segs| ==> child[i] == segs[i];
  }

  /** `cd name/` from a clean root enters the child. */
  lemma CdIntoChild(segs: seq<string>, name: string)
    requires Dotless(segs) && SepFree(segs)
    requires name != "" && name != "." && name != ".." && Sep !in name && !IsSpace(name[0])
    ensures Cd(Join(segs + [""], Sep), [name + "/"]) == CdResult(Join(segs + [name, ""], Sep), true)
  {
    NormPathOfChild(name);
    EnterChild(segs, name);
  }

  /** How the console turns a remote argument into a key: an argument that starts with
      the separator loses it, any other is appended to the root. */
  function ResolveArg(root: string, arg: string): (r: string)
    ensures StartsWith(arg, "/") ==> [Sep] + r == arg
    ensures !StartsWith(arg, "/") ==> StartsWith(r, root) && r[|root|..] == arg
  {
    if StartsWith(arg, "/") then arg[1..] else root + arg
  }

  /** An argument that starts with the separator resolves the same from every root. */
  lemma ResolveArgAbsolute(root1: string, root2: string, arg: string)
    requires StartsWith(arg, "/")
    ensures ResolveArg(root1, arg) == ResolveArg(root2, arg)
  {
    var r1 := ResolveArg(root1, arg);
    var r2 := ResolveArg(root2, arg);
    assert [Sep] + r1 == [Sep] + r2;
    assert r1 == ([Sep] + r1)[1..];
  }

  /** A manager call the console makes, with its arguments already resolved. */
  datatype Request =
    | UploadRequest(local: string, remote: string, recursive: bool)
    | DownloadRequest(remote: string, local: string, recursive: bool)
    | CopyRequest(src: string, dest: string)
    | MoveRequest(src: string, dest: string)
    | DeleteRequest(remote: string, recursive: bool)

  /** How many arguments each command insists on. */
  function Arity(verb: Verb): nat {
    if verb == Delete then 1 else 2
  }

  /** `ul`, `dl`, `cp`, `mv` and `rm`: check the argument count, resolve the remote
      arguments against the root and leave the local ones alone. */
  function Dispatch(root: string, verb: Verb, args: seq<string>, recursive: bool): (r: Option<Request>)
    ensures r.Some? <==> |args| == Arity(verb)
  {
    if |args| != Arity(verb) then None
    else
      match verb
      case Upload => Some(UploadRequest(args[0], ResolveArg(root, args[1]), recursive))
      case Download => Some(DownloadRequest(ResolveArg(root, args[0]), args[1], recursive))
      case Copy => Some(CopyRequest(ResolveArg(root, args[0]), ResolveArg(root, args[1])))
      case Move => Some(MoveRequest(ResolveArg(root, args[0]), ResolveArg(root, args[1])))
      case Delete => Some(DeleteRequest(ResolveArg(root, args[0]), recursive))
  }

  /** What the console's command does to the store: nothing when the argument count is
      wrong, otherwise the manager operation's trace. `tree` says what lies at a local
      path, `dirs` which local directories exist. */
  function RunCommand(b: Bucket, env: Env, dirs: set<string>, tree: string -> LocalNode, markerMd5: string,
                      root: string, verb: Verb, args: seq<string>, recursive: bool): (o: Outcome)
    ensures |args| != Arity(verb) ==> o == Outcome([], None)
  {
    match Dispatch(root, verb, args, recursive)
    case None => Outcome([], None)
    case Some(req) =>
      match req
      case UploadRequest(local, remote, rec) => UploadPlan(env, markerMd5, local, tree(local), remote, rec)
      case DownloadRequest(remote, local, rec) => DownloadPlan(b, env, dirs, remote, local, rec)
      case CopyRequest(src, dest) => CopyPlan(b, env, src, dest)
      case MoveRequest(src, dest) => MovePlan(b, env, src, dest)
      case DeleteRequest(remote, rec) => DeletePlan(b, env, remote, rec)
  }

  /** The remote arguments of every request are resolved against the root; arguments that
      start with the separator make the request independent of the root. */
  lemma DispatchAbsolute(root1: string, root2: string, verb: Verb, args: seq<string>, recursive: bool)
    requires forall i :: 0 <= i < |args| ==> StartsWith(args[i], "/")
    ensures Dispatch(root1, verb, args, recursive) == Dispatch(root2, verb, args, recursive)
  {
    if |args| == Arity(verb) {
      forall i | 0 <= i < |args| ensures ResolveArg(root1, args[i]) == ResolveArg(root2, args[i]) {
        ResolveArgAbsolute(root1, root2, args[i]);
      }
    }
  }

  /** `ls`: every listed key except the root itself, with every occurrence of the root
      removed. */
  function LsEntries(root: string, listing: seq<string>): (r: seq<string>)
    ensures |r| <= |listing|
    ensures forall i :: 0 <= i < |listing| && listing[i] != root ==> Replace(listing[i], root, "") in r
    ensures forall e :: e in r ==> exists k :: k in listing && k != root && e == Replace(k, root, "")
  {
    if listing == [] then []
    else
      var rest := LsEntries(root, listing[1..]);
      assert forall k :: k in listing <==> k == listing[0] || k in listing[1..];
      assert forall i :: 1 <= i < |listing| ==> listing[i] == listing[1..][i - 1];
      if listing[0] == root then rest else [Replace(listing[0], root, "")] + rest
  }

  /** The entries `ls` shows, with or without `-a`. */
  function Ls(b: Bucket, root: string, all: bool): seq<string> {
    LsEntries(root, if all then ListAll(b, root) else ListChildren(b, root))
  }

  /** How many keys of a listing differ from `root`. */
  function CountOthers(root: string, listing: seq<string>): nat {
    if listing == [] then 0
    else (if listing[0] == root then 0 else 1) + CountOthers(root, listing[1..])
  }

  /** The count `ls` reports is the number of listed keys other than the root. */
  lemma {:induction false} LsCount(root: string, listing: seq<string>)
    ensures |LsEntries(root, listing)| == CountOthers(root, listing)
    decreases |listing|
  {
    if listing != [] {
      LsCount(root, listing[1..]);
    }
  }

  /** In a listing without repeats, the root is skipped at most once. */
  lemma {:induction false} CountOthersDistinct(root: string, listing: seq<string>)
    requires forall i, j :: 0 <= i < j < |listing| ==> listing[i] != listing[j]
    ensures CountOthers(root, listing) == |listing| - (if root in listing then 1 else 0)
    decreases |listing|
  {
    if listing != [] {
      var tail := listing[1..];
      assert forall i, j :: 0 <= i < j < |tail| ==> tail[i] != tail[j] by {
        forall i, j | 0 <= i < j < |tail| ensures tail[i] != tail[j] {
          assert tail[i] == listing[i + 1] && tail[j] == listing[j + 1];
        }
      }
      CountOthersDistinct(root, tail);
      if listing[0] == root {
        assert root !in tail by {
          forall j | 0 <= j < |tail| ensures tail[j] != root {
            assert tail[j] == listing[j + 1];
          }
        }
      }
      assert root in listing <==> listing[0] == root || root in tail;
    }
  }

  /** No key comes strictly before itself. */
  lemma LessIrreflexive(a: string)
    ensures !Less(a, a)
  {
  }

  /** Keys in a strictly sorted listing are distinct. */
  lemma SortedDistinct(keys: seq<string>)
    requires Sorted(keys)
    ensures forall i, j :: 0 <= i < j < |keys| ==> keys[i] != keys[j]
  {
    forall i, j | 0 <= i < j < |keys| ensures keys[i] != keys[j] {
      LessIrreflexive(keys[i]);
    }
  }

  /** `ls -a` on a valid bucket shows every key below the root except the root's own
      marker, one entry per key. */
  lemma LsAllCount(b: Bucket, root: string)
    requires Valid(b)
    ensures |Ls(b, root, true)| == |ListAll(b, root)| - (if root in b.keys then 1 else 0)
  {
    var keys := ListAll(b, root);
    ListAllSorted(b, root);
    SortedDistinct(keys);
    LsCount(root, keys);
    CountOthersDistinct(root, keys);
    assert root in keys <==> root in b.keys by {
      assert StartsWith(root, root);
    }
  }

  /** `ls` without `-a` on a valid bucket shows one entry per distinct child (a key
      directly below the root, or a common prefix), except the root's own marker. */
  lemma LsChildrenCount(b: Bucket, root: string)
    requires Valid(b)
    ensures |Ls(b, root, false)| == |ListChildren(b, root)| - (if root in b.keys then 1 else 0)
  {
    var entries := ListChildren(b, root);
    SortedDistinct(entries);
    LsCount(root, entries);
    CountOthersDistinct(root, entries);
    assert root in entries <==> root in b.keys by {
      if root in b.keys {
        ChildEntryIsRoot(root, root);
      }
      if root in entries {
        var k :| k in b.keys && StartsWith(k, root) && root == ChildEntry(root, k);
        ChildEntryIsRoot(root, k);
      }
    }
  }

  /** At the bucket root `ls` shows the listed keys unchanged. */
  lemma {:induction false} LsAtBucketRoot(listing: seq<string>)
    requires "" !in listing
    ensures LsEntries("", listing) == listing
    decreases |listing|
  {
    if listing != [] {
      ReplaceEmptyByEmpty(listing[0]);
      LsAtBucketRoot(listing[1..]);
      assert [listing[0]] + listing[1..] == listing;
    }
  }

  /** A key in which the root occurs only as its prefix is shown as the rest of the key. */
  lemma LsShowsRest(root: string, key: string)
    requires root != "" && StartsWith(key, root) && key != root
    requires forall i :: |root| <= i <= |key| ==> !OccursAt(key, root, i)
    ensures key[|root|..] in LsEntries(root, [key])
  {
    ReplaceLeadingOnly(key, root, "");
    assert "" + key[|root|..] == key[|root|..];
  }
}
