/**
  Remote keys as the manager normalises them (`OssFileManager.norm_path`, `is_dir`) and
  the parent prefix that copy and move rewrite.
 */
module RemotePath {
  import opened Text
  import opened PosixPath

  /** Whether a stripped path names a directory before it is collapsed: it ends with the
      separator or is one of `''`, `'.'`, `'..'`. */
  predicate DirDesignated(s: string) {
    EndsWith(s, "/") || s == "" || s == "." || s == ".."
  }

  /** `norm_path`: strip, decide directory-ness, collapse with `normpath`, map a root
      result to `/`, and re-append the separator to directories. */
  function NormPath(p: string): (r: string)
    ensures r != ""
  {
    var s := Strip(p);
    var n := Normpath(s);
    if n == "" || n == "/" then "/"
    else if DirDesignated(s) then n + "/"
    else n
  }

  /** `is_dir`: one of the three designators after stripping, or a normalised form that
      ends with the separator. */
  predicate IsDir(p: string) {
    var s := Strip(p);
    s == "" || s == "." || s == ".." || EndsWith(NormPath(p), "/")
  }

  /** `is_dir(p)` holds exactly when `norm_path(p)` ends with the separator. */
  lemma IsDirIffTrailingSep(p: string)
    ensures IsDir(p) <==> EndsWith(NormPath(p), "/")
  {
    var s := Strip(p);
    if s == "" || s == "." || s == ".." {
      var n := Normpath(s);
      DesignatorNormpath(s);
    }
  }

  /** A directory-designated input always normalises to a key ending with the separator;
      any other input gets no separator appended, so its key is exactly `normpath` of the
      stripped text (which is `/` when that collapses to the root). */
  lemma NormPathDirectoryShape(p: string)
    ensures DirDesignated(Strip(p)) ==> EndsWith(NormPath(p), "/")
    ensures !DirDesignated(Strip(p)) ==> NormPath(p) == Normpath(Strip(p))
  {
  }

  /** A path that collapses to the root becomes exactly `/`. */
  lemma NormPathRoot(p: string)
    requires Normpath(Strip(p)) == "/"
    ensures NormPath(p) == "/"
  {
  }

  /** Every normalised key is a canonical `normpath` result, possibly with one separator
      appended. */
  lemma NormPathCanonical(p: string)
    ensures var r := NormPath(p);
      Canonical(r) || (EndsWith(r, "/") && Canonical(r[..|r| - 1]))
  {
    var s := Strip(p);
    var n := Normpath(s);
    NormpathCanonical(s);
    var r := NormPath(p);
    if r == "/" {
      assert LeadingSeps(r) == 1;
      assert r[1..] == "";
    } else if DirDesignated(s) {
      assert r[..|r| - 1] == n;
    }
  }

  /** Every key that ends with the separator is a directory. */
  lemma TrailingSepIsDir(p: string)
    requires EndsWith(p, "/")
    ensures IsDir(p)
  {
    StripKeepsLast(p);
    var s := Strip(p);
    assert EndsWith(s, "/");
    IsDirIffTrailingSep(p);
  }

  /** Normalising a directory gives a directory. */
  lemma NormPathKeepsDir(p: string)
    requires IsDir(p)
    ensures IsDir(NormPath(p))
  {
    IsDirIffTrailingSep(p);
    TrailingSepIsDir(NormPath(p));
  }

  /** The three designators are their own `normpath`, except `''`, which becomes `.`. */
  lemma DesignatorNormpath(s: string)
    requires s == "" || s == "." || s == ".."
    ensures Normpath(s) == if s == "" then "." else s
  {
    if s != "" {
      SplitNoSep(s, Sep);
      assert RootSeps(s) == 0;
      if s == "." {
        assert Collapse([], [s], false) == [];
      } else {
        assert Collapse([], [s], false) == [s];
      }
    }
  }

  lemma StripOfPlain(s: string)
    requires |s| > 0 && !IsSpace(s[0]) && !IsSpace(s[|s| - 1])
    ensures Strip(s) == s
  {
    assert TrimStart(s, IsSpace) == s;
  }

  lemma NormpathUpFromChild(s: string)
    requires s == "a/.."
    ensures Normpath(s) == "."
  {
    assert Split(s, Sep) == ["a", ".."] by {
      SplitAfterPiece("a", "..", Sep);
      SplitNoSep("..", Sep);
      assert s == "a" + [Sep] + "..";
    }
    assert RootSeps(s) == 0;
    assert Collapse([], ["a", ".."], false) == [];
  }

  lemma NormPathOfUpFromChild(p: string)
    requires p == "a/.."
    ensures NormPath(p) == "."
  {
    StripOfPlain(p);
    NormpathUpFromChild(p);
    assert !DirDesignated(p) by {
      assert p[|p| - 1..] != "/";
    }
    NormPathUnfold(p, p, ".");
  }

  lemma NormPathOfDot(p: string)
    requires p == "."
    ensures NormPath(p) == "./"
  {
    StripOfPlain(p);
    DesignatorNormpath(p);
    NormPathUnfold(p, p, p);
  }

  /** `norm_path` with its two intermediate results named. */
  lemma NormPathUnfold(p: string, s: string, n: string)
    requires s == Strip(p) && n == Normpath(s)
    ensures NormPath(p) == if n == "/" then "/" else if DirDesignated(s) then n + "/" else n
  {
  }

  /** `norm_path` is not idempotent: `a/..` collapses to `.`, which is then read as a
      directory designator. */
  lemma NormPathNotIdempotent(p: string)
    requires p == "a/.."
    ensures NormPath(p) == "." && NormPath(NormPath(p)) == "./"
  {
    NormPathOfUpFromChild(p);
    NormPathOfDot(NormPath(p));
  }

  /** The directory part of a key, as copy and move compute it: strip the separators at
      both ends, drop the last segment and append one separator. A key with a single
      segment gets `/`. */
  function ParentPrefix(key: string): (r: string)
    ensures EndsWith(r, "/")
  {
    ParentPath(key) + "/"
  }

  /** The segments of a key before its last one, joined: where `download` puts a listed
      key below the local target. */
  function ParentPath(key: string): string {
    var segs := Split(StripChar(key, Sep), Sep);
    Join(segs[..|segs| - 1], Sep)
  }

  /** The last segment of a key once the separators at both ends are stripped: the name
      `download` gives the local copy. */
  function LastSegment(key: string): (r: string)
    ensures Sep !in r
  {
    var segs := Split(StripChar(key, Sep), Sep);
    segs[|segs| - 1]
  }

  /** Once the separators at both ends are stripped, a key is its parent path, one
      separator and its last segment; a key with a single segment is its own last
      segment and has an empty parent path. */
  lemma KeySegments(key: string)
    ensures var t := StripChar(key, Sep);
      && (Sep !in t ==> LastSegment(key) == t && ParentPath(key) == "")
      && (Sep in t ==> t == ParentPath(key) + "/" + LastSegment(key))
  {
    var t := StripChar(key, Sep);
    var segs := Split(t, Sep);
    if Sep !in t {
      SplitNoSep(t, Sep);
    } else {
      var init := segs[..|segs| - 1];
      assert segs == init + [segs[|segs| - 1]];
      JoinSnoc(init, segs[|segs| - 1], Sep);
    }
  }

  /** A key that does not start with the separator and has at least two segments starts
      with its parent prefix, and that prefix is not `/`. */
  lemma ParentPrefixIsPrefix(key: string)
    requires !StartsWith(key, "/")
    requires |Split(StripChar(key, Sep), Sep)| >= 2
    ensures StartsWith(key, ParentPrefix(key)) && ParentPrefix(key) != "/"
    ensures |ParentPrefix(key)| < |key|
  {
    var t := StripChar(key, Sep);
    var segs := Split(t, Sep);
    var init := segs[..|segs| - 1];
    assert segs == init + [segs[|segs| - 1]];
    JoinSnoc(init, segs[|segs| - 1], Sep);
    var u := TrimStart(key, x => x == Sep);
    assert u == key by {
      if |key| > 0 { assert key[0] != Sep; }
    }
    assert StartsWith(key, t);
    var pre := Join(init, Sep) + "/";
    assert t == pre + segs[|segs| - 1];
    assert StartsWith(t, pre);
    assert key[..|pre|] == t[..|pre|];
    assert init[0] == segs[0];
    assert t == segs[0] + [Sep] + Join(segs[1..], Sep);
    assert segs[0] != "";
    assert |Join(init, Sep)| > 0 by {
      if |init| > 1 {
        assert Join(init, Sep) == init[0] + [Sep] + Join(init[1..], Sep);
      }
    }
  }

  /** A key whose stripped form is a single segment has the parent prefix `/`. */
  lemma ParentPrefixOfTopLevel(key: string)
    requires Sep !in StripChar(key, Sep)
    ensures ParentPrefix(key) == "/"
  {
    SplitNoSep(StripChar(key, Sep), Sep);
  }

  /** A key made of a path `p` that does not start with the separator, one separator and
      a plain name, with or without a trailing separator, strips to `p + "/" + name`. */
  lemma StripNested(p: string, name: string, isDir: bool)
    requires p != "" && p[0] != Sep && name != "" && Sep !in name
    ensures StripChar(p + "/" + name + (if isDir then "/" else ""), Sep) == p + "/" + name
  {
    var t := p + "/" + name;
    var key := t + (if isDir then "/" else "");
    assert key[0] == p[0];
    assert TrimStart(key, x => x == Sep) == key;
    assert t[|t| - 1] == name[|name| - 1];
    if isDir {
      assert key[..|key| - 1] == t;
    }
    assert TrimEnd(t, x => x == Sep) == t;
  }

  /** The parent path and last segment of a key that strips to `p + "/" + name`: every
      segment before the last, and the last. */
  lemma NestedKeySegments(key: string, p: string, name: string)
    requires StripChar(key, Sep) == p + "/" + name && Sep !in name
    ensures ParentPath(key) == p && LastSegment(key) == name
  {
    KeySegments(key);
    assert Sep in StripChar(key, Sep) by {
      assert StripChar(key, Sep)[|p|] == Sep;
    }
    SplitAtLast(ParentPath(key), LastSegment(key), p, name, Sep);
  }
}
