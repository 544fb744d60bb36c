/**
  The object store as the client sees it: a set of keys, listed by `list_dir` in
  lexicographic order. `list_dir(root, True)` returns every key that starts with `root`;
  `list_dir(root, False)` groups everything below the first separator after `root` into
  one common-prefix entry ending with that separator.
 */
module Store {
  import opened Text

  /** Strict lexicographic order on keys (code points compare like their UTF-8 bytes). */
  predicate Less(a: string, b: string) {
    (|a| < |b| && b[..|a|] == a) ||
    (exists i :: 0 <= i < |a| && i < |b| && a[..i] == b[..i] && a[i] < b[i])
  }

  predicate Sorted(keys: seq<string>) {
    forall i, j :: 0 <= i < j < |keys| ==> Less(keys[i], keys[j])
  }

  /** A bucket: its keys, in listing order. Contents never influence a plan, so they are
      not carried. */
  datatype Bucket = Bucket(keys: seq<string>)

  predicate Valid(b: Bucket) {
    Sorted(b.keys)
  }

  /** The keys of `keys` that start with `prefix`, in their order. */
  function FilterPrefix(keys: seq<string>, prefix: string): (r: seq<string>)
    ensures forall k :: k in r <==> k in keys && StartsWith(k, prefix)
    ensures |r| <= |keys|
  {
    if keys == [] then []
    else if StartsWith(keys[0], prefix) then [keys[0]] + FilterPrefix(keys[1..], prefix)
    else FilterPrefix(keys[1..], prefix)
  }

  /** A subsequence of a sorted sequence is sorted. */
  lemma {:induction false} FilterPrefixSorted(keys: seq<string>, prefix: string)
    requires Sorted(keys)
    ensures Sorted(FilterPrefix(keys, prefix))
    decreases |keys|
  {
    if keys != [] {
      var tail := keys[1..];
      assert Sorted(tail) by {
        forall i, j | 0 <= i < j < |tail| ensures Less(tail[i], tail[j]) {
          assert tail[i] == keys[i + 1] && tail[j] == keys[j + 1];
        }
      }
      FilterPrefixSorted(tail, prefix);
      var rest := FilterPrefix(tail, prefix);
      if StartsWith(keys[0], prefix) {
        var r := [keys[0]] + rest;
        forall i, j | 0 <= i < j < |r| ensures Less(r[i], r[j]) {
          if i == 0 {
            assert r[j] in tail;
            var m :| 0 <= m < |tail| && tail[m] == r[j];
            assert keys[m + 1] == r[j];
          } else {
            assert r[i] == rest[i - 1] && r[j] == rest[j - 1];
          }
        }
      }
    }
  }

  /** `list_dir(root, True)`: every key below `root`, in listing order. */
  function ListAll(b: Bucket, root: string): (r: seq<string>)
    ensures forall k :: k in r <==> k in b.keys && StartsWith(k, root)
  {
    FilterPrefix(b.keys, root)
  }

  /** The listing of a valid bucket is itself in lexicographic order, so it never
      repeats a key. */
  lemma ListAllSorted(b: Bucket, root: string)
    requires Valid(b)
    ensures Sorted(ListAll(b, root))
  {
    FilterPrefixSorted(b.keys, root);
  }

  /** The entry a key below `root` shows up as in a delimited listing: the key itself
      when no separator follows `root`, otherwise `root` and the rest up to and including
      the first separator. */
  function ChildEntry(root: string, key: string): (r: string)
    requires StartsWith(key, root)
    ensures StartsWith(r, root) && StartsWith(key, r)
  {
    var rest := key[|root|..];
    if '/' in rest then
      var i := FirstSep(rest);
      root + rest[..i + 1]
    else key
  }

  /** Index of the first separator. */
  function FirstSep(s: string): (i: nat)
    requires '/' in s
    ensures i < |s| && s[i] == '/' && '/' !in s[..i]
  {
    if s[0] == '/' then 0
    else
      var j := FirstSep(s[1..]);
      assert s[..j + 1] == [s[0]] + s[1..][..j];
      1 + j
  }

  /** Drops an element equal to its predecessor. */
  function DropRepeats(s: seq<string>): (r: seq<string>)
    ensures forall x :: x in r <==> x in s
    ensures |r| <= |s|
  {
    if |s| <= 1 then s
    else if s[0] == s[1] then DropRepeats(s[1..])
    else [s[0]] + DropRepeats(s[1..])
  }

  /** The entry of each key, in order. */
  function ChildEntries(root: string, keys: seq<string>): (r: seq<string>)
    requires forall i :: 0 <= i < |keys| ==> StartsWith(keys[i], root)
    ensures forall e :: e in r <==> exists k :: k in keys && StartsWith(k, root) && e == ChildEntry(root, k)
    ensures |r| == |keys| && forall i :: 0 <= i < |keys| ==> r[i] == ChildEntry(root, keys[i])
  {
    if keys == [] then []
    else
      assert forall i :: 0 <= i < |keys| - 1 ==> keys[1..][i] == keys[i + 1];
      assert forall k :: k in keys <==> k == keys[0] || k in keys[1..];
      [ChildEntry(root, keys[0])] + ChildEntries(root, keys[1..])
  }

  /** `list_dir(root, False)`: the delimited listing with common prefixes folded. */
  function ListChildren(b: Bucket, root: string): (r: seq<string>)
    ensures forall e :: e in r <==>
      exists k :: k in b.keys && StartsWith(k, root) && e == ChildEntry(root, k)
    ensures Valid(b) ==> Sorted(r)
  {
    var all := ListAll(b, root);
    assert forall i :: 0 <= i < |all| ==> StartsWith(all[i], root) by {
      forall i | 0 <= i < |all| ensures StartsWith(all[i], root) {
        assert all[i] in all;
      }
    }
    var entries := ChildEntries(root, all);
    assert Valid(b) ==> Sorted(DropRepeats(entries)) by {
      if Valid(b) {
        ListAllSorted(b, root);
        ChildEntriesNonDecreasing(root, all);
        DropRepeatsSorted(entries);
      }
    }
    DropRepeats(entries)
  }

  /** The root's own marker is the only key whose entry is the root. */
  lemma ChildEntryIsRoot(root: string, key: string)
    requires StartsWith(key, root)
    ensures ChildEntry(root, key) == root <==> key == root
  {
    if key != root {
      assert |key| > |root| by {
        assert key[..|root|] == root;
      }
    } else {
      assert key[|root|..] == [];
    }
  }

  /** Each element equals or precedes every later one. */
  predicate NonDecreasing(s: seq<string>) {
    forall i, j :: 0 <= i < j < |s| ==> s[i] == s[j] || Less(s[i], s[j])
  }

  lemma LessAsymmetric(a: string, b: string)
    requires Less(a, b)
    ensures !Less(b, a)
  {
    if |a| < |b| && b[..|a|] == a {
      forall j | 0 <= j < |b| && j < |a| ensures !(b[..j] == a[..j] && b[j] < a[j]) {
        assert b[j] == b[..|a|][j];
      }
    } else {
      var i :| 0 <= i < |a| && i < |b| && a[..i] == b[..i] && a[i] < b[i];
      if |b| < |a| {
        assert a[..|b|][i] != b[i];
      }
      forall j | 0 <= j < |b| && j < |a| ensures !(b[..j] == a[..j] && b[j] < a[j]) {
        if j < i {
          assert a[j] == a[..i][j] && b[j] == b[..i][j];
        } else if j > i {
          assert b[..j][i] != a[..j][i];
        }
      }
    }
  }

  /** Dropping adjacent repeats of a non-decreasing sequence leaves a strictly sorted
      one: equal elements can only be adjacent. */
  lemma {:induction false} DropRepeatsSorted(s: seq<string>)
    requires NonDecreasing(s)
    ensures Sorted(DropRepeats(s))
    decreases |s|
  {
    if |s| > 1 {
      var t := s[1..];
      assert NonDecreasing(t) by {
        forall i, j | 0 <= i < j < |t| ensures t[i] == t[j] || Less(t[i], t[j]) {
          assert t[i] == s[i + 1] && t[j] == s[j + 1];
        }
      }
      DropRepeatsSorted(t);
      if s[0] != s[1] {
        var rest := DropRepeats(t);
        LessAsymmetric(s[0], s[1]);
        forall x | x in rest ensures Less(s[0], x) {
          var j :| 0 <= j < |t| && t[j] == x;
          assert t[j] == s[j + 1];
          assert s[1] == s[j + 1] || Less(s[1], s[j + 1]);
          assert x != s[0];
        }
        var r := [s[0]] + rest;
        forall i, j | 0 <= i < j < |r| ensures Less(r[i], r[j]) {
          if i == 0 {
            assert r[j] == rest[j - 1] && r[j] in rest;
          } else {
            assert r[i] == rest[i - 1] && r[j] == rest[j - 1];
          }
        }
      }
    }
  }

  /** The first separator of `s` comes no later than any separator. */
  lemma FirstSepAtMost(s: string, w: nat)
    requires w < |s| && s[w] == '/'
    ensures '/' in s && FirstSep(s) <= w
  {
    assert s[w] in s;
  }

  /** Two keys below `root` that agree up to `p`, with a separator after `root` before
      `p`, have the same entry. */
  lemma SameCut(root: string, k1: string, k2: string, p: nat)
    requires StartsWith(k1, root) && StartsWith(k2, root)
    requires |root| <= p <= |k1| && p <= |k2| && k1[..p] == k2[..p]
    requires '/' in k1[|root|..p]
    ensures ChildEntry(root, k1) == ChildEntry(root, k2)
  {
    var r1, r2 := k1[|root|..], k2[|root|..];
    var m := p - |root|;
    assert r1[..m] == k1[..p][|root|..];
    assert r2[..m] == k2[..p][|root|..];
    SameFirstSep(r1, r2, m);
    var n := |root| + FirstSep(r1) + 1;
    EntryIsPrefix(root, k1);
    EntryIsPrefix(root, k2);
    assert k1[..n] == k1[..p][..n];
    assert k2[..n] == k2[..p][..n];
  }

  /** A key with a separator after `root` has as entry its prefix up to and including
      the first such separator. */
  lemma EntryIsPrefix(root: string, key: string)
    requires StartsWith(key, root) && '/' in key[|root|..]
    ensures |root| + FirstSep(key[|root|..]) + 1 <= |key|
    ensures ChildEntry(root, key) == key[..|root| + FirstSep(key[|root|..]) + 1]
  {
    var rest := key[|root|..];
    var n := |root| + FirstSep(rest) + 1;
    assert key[..n] == key[..|root|] + rest[..n - |root|];
  }

  /** Two strings that agree on a prefix holding a separator have their first
      separator at the same place, inside that prefix. */
  lemma SameFirstSep(r1: string, r2: string, m: nat)
    requires m <= |r1| && m <= |r2| && r1[..m] == r2[..m] && '/' in r1[..m]
    ensures '/' in r1 && '/' in r2 && FirstSep(r1) == FirstSep(r2) < m
  {
    var w :| 0 <= w < m && r1[..m][w] == '/';
    assert r1[w] == r1[..m][w] && r2[w] == r2[..m][w];
    FirstSepAtMost(r1, w);
    FirstSepAtMost(r2, w);
    var f1, f2 := FirstSep(r1), FirstSep(r2);
    assert r2[f1] == r2[..m][f1] && r1[f1] == r1[..m][f1];
    assert r1[f2] == r1[..m][f2] && r2[f2] == r2[..m][f2];
    FirstSepAtMost(r2, f1);
    FirstSepAtMost(r1, f2);
  }

  /** A key with no separator after `root` before `p < |key|` has an entry longer than
      `p`. */
  lemma LongCut(root: string, key: string, p: nat)
    requires StartsWith(key, root) && |root| <= p < |key|
    requires '/' !in key[|root|..p]
    ensures |ChildEntry(root, key)| > p
  {
    var rest := key[|root|..];
    var m := p - |root|;
    assert rest[..m] == key[|root|..p];
  }

  /** Folding keys into their entries keeps their order, up to equal entries. */
  lemma ChildEntryMonotone(root: string, a: string, b: string)
    requires StartsWith(a, root) && StartsWith(b, root) && Less(a, b)
    ensures ChildEntry(root, a) == ChildEntry(root, b) || Less(ChildEntry(root, a), ChildEntry(root, b))
  {
    if |a| < |b| && b[..|a|] == a {
      MonotoneOnPrefix(root, a, b);
    } else {
      var i :| 0 <= i < |a| && i < |b| && a[..i] == b[..i] && a[i] < b[i];
      MonotoneOnDifference(root, a, b, i);
    }
  }

  lemma MonotoneOnPrefix(root: string, a: string, b: string)
    requires StartsWith(a, root) && StartsWith(b, root)
    requires |a| < |b| && b[..|a|] == a
    ensures ChildEntry(root, a) == ChildEntry(root, b) || Less(ChildEntry(root, a), ChildEntry(root, b))
  {
    var cb := ChildEntry(root, b);
    if '/' in a[|root|..] {
      assert a[..|a|] == a && a[|root|..|a|] == a[|root|..];
      SameCut(root, a, b, |a|);
    } else {
      assert b[|root|..|a|] == b[..|a|][|root|..];
      LongCut(root, b, |a|);
      assert cb[..|a|] == b[..|cb|][..|a|];
    }
  }

  lemma MonotoneOnDifference(root: string, a: string, b: string, i: nat)
    requires StartsWith(a, root) && StartsWith(b, root)
    requires i < |a| && i < |b| && a[..i] == b[..i] && a[i] < b[i]
    ensures ChildEntry(root, a) == ChildEntry(root, b) || Less(ChildEntry(root, a), ChildEntry(root, b))
  {
    var ca, cb := ChildEntry(root, a), ChildEntry(root, b);
    if '/' in a[|root|..i] {
      SameCut(root, a, b, i);
    } else {
      assert a[|root|..i] == a[..i][|root|..] && b[|root|..i] == b[..i][|root|..];
      LongCut(root, a, i);
      LongCut(root, b, i);
      assert ca[..i] == a[..|ca|][..i] && ca[i] == a[..|ca|][i];
      assert cb[..i] == b[..|cb|][..i] && cb[i] == b[..|cb|][i];
    }
  }

  lemma ChildEntriesNonDecreasing(root: string, keys: seq<string>)
    requires forall i :: 0 <= i < |keys| ==> StartsWith(keys[i], root)
    requires Sorted(keys)
    ensures NonDecreasing(ChildEntries(root, keys))
  {
    var r := ChildEntries(root, keys);
    forall i, j | 0 <= i < j < |r| ensures r[i] == r[j] || Less(r[i], r[j]) {
      ChildEntryMonotone(root, keys[i], keys[j]);
    }
  }

  /** Every entry of the delimited listing lies below `root`, and a key with no separator
      after `root` is listed as itself. */
  lemma ListChildrenShape(b: Bucket, root: string, key: string)
    requires key in b.keys && StartsWith(key, root) && '/' !in key[|root|..]
    ensures key in ListChildren(b, root)
  {
    assert ChildEntry(root, key) == key;
  }
}
