/**
  The Python `str` operations the client builds its path arithmetic from:
  `strip()`, `strip(c)`, `startswith`, `endswith`, `split(sep)`, `sep.join`
  and `replace(pat, rep)`. Strings are sequences of code points.
 */
module Text {

  /** Python's `str.isspace` on the ASCII range: tab, line feed, vertical tab,
      form feed, carriage return, the separators 0x1C-0x1F and space. */
  predicate IsSpace(c: char) {
    (9 <= c as int <= 13) || (28 <= c as int <= 32)
  }

  predicate StartsWith(s: string, p: string) {
    |p| <= |s| && s[..|p|] == p
  }

  predicate EndsWith(s: string, p: string) {
    |p| <= |s| && s[|s| - |p|..] == p
  }

  /** Drops leading characters that satisfy `drop`. */
  function TrimStart(s: string, drop: char -> bool): (r: string)
    ensures |r| <= |s| && r == s[|s| - |r|..]
    ensures forall i :: 0 <= i < |s| - |r| ==> drop(s[i])
    ensures r == [] || !drop(r[0])
  {
    if |s| > 0 && drop(s[0]) then TrimStart(s[1..], drop) else s
  }

  /** Drops trailing characters that satisfy `drop`. */
  function TrimEnd(s: string, drop: char -> bool): (r: string)
    ensures |r| <= |s| && r == s[..|r|]
    ensures forall i :: |r| <= i < |s| ==> drop(s[i])
    ensures r == [] || !drop(r[|r| - 1])
  {
    if |s| > 0 && drop(s[|s| - 1]) then TrimEnd(s[..|s| - 1], drop) else s
  }

  /** `s.strip()`: removes surrounding whitespace. */
  function Strip(s: string): string {
    TrimEnd(TrimStart(s, IsSpace), IsSpace)
  }

  /** `s.strip(c)`: removes every leading and trailing `c`. */
  function StripChar(s: string, c: char): string {
    TrimEnd(TrimStart(s, x => x == c), x => x == c)
  }

  /** Stripping keeps a first character that is not whitespace. */
  lemma StripKeepsFirst(s: string)
    requires |s| > 0 && !IsSpace(s[0])
    ensures |Strip(s)| > 0 && Strip(s)[0] == s[0]
  {
    assert TrimStart(s, IsSpace) == s;
  }

  /** Stripping keeps a last character that is not whitespace. */
  lemma StripKeepsLast(s: string)
    requires |s| > 0 && !IsSpace(s[|s| - 1])
    ensures |Strip(s)| > 0 && Strip(s)[|Strip(s)| - 1] == s[|s| - 1]
  {
    var t := TrimStart(s, IsSpace);
    assert |t| > 0 && t[|t| - 1] == s[|s| - 1];
  }

  /** `sep.join(parts)`. */
  function Join(parts: seq<string>, sep: char): string
  {
    if |parts| == 0 then []
    else if |parts| == 1 then parts[0]
    else parts[0] + [sep] + Join(parts[1..], sep)
  }

  /** `s.split(sep)`: the pieces between separators, at least one of them.
      Joining them back with the separator gives `s`. */
  function Split(s: string, sep: char): (parts: seq<string>)
    ensures |parts| >= 1
    ensures forall i :: 0 <= i < |parts| ==> sep !in parts[i]
    ensures Join(parts, sep) == s
    decreases |s|
  {
    if s == [] then [[]]
    else
      var rest := Split(s[1..], sep);
      if s[0] == sep then
        [[]] + rest
      else
        var parts := [[s[0]] + rest[0]] + rest[1..];
        assert Join(parts, sep) == [s[0]] + Join(rest, sep) by {
          JoinConsFirst(s[0], rest, sep);
        }
        assert s == [s[0]] + s[1..];
        parts
  }

  lemma JoinConsFirst(c: char, rest: seq<string>, sep: char)
    requires |rest| >= 1
    ensures Join([[c] + rest[0]] + rest[1..], sep) == [c] + Join(rest, sep)
  {
    var parts := [[c] + rest[0]] + rest[1..];
    assert parts[1..] == rest[1..];
  }

  /** A string without the separator is a single piece. */
  lemma {:induction false} SplitNoSep(s: string, sep: char)
    requires sep !in s
    ensures Split(s, sep) == [s]
    decreases |s|
  {
    if s != [] {
      assert sep !in s[1..];
      SplitNoSep(s[1..], sep);
    }
  }

  /** Splitting `a + sep + b` where `a` has no separator peels off `a`. */
  lemma {:induction false} SplitAfterPiece(a: string, b: string, sep: char)
    requires sep !in a
    ensures Split(a + [sep] + b, sep) == [a] + Split(b, sep)
    decreases |a|
  {
    var s := a + [sep] + b;
    if a == [] {
      assert s[1..] == b;
    } else {
      assert s[1..] == a[1..] + [sep] + b;
      assert sep !in a[1..];
      SplitAfterPiece(a[1..], b, sep);
      assert [a[0]] + a[1..] == a;
    }
  }

  /** `split` undoes `join` when no piece contains the separator. */
  lemma {:induction false} SplitJoin(parts: seq<string>, sep: char)
    requires |parts| >= 1
    requires forall i :: 0 <= i < |parts| ==> sep !in parts[i]
    ensures Split(Join(parts, sep), sep) == parts
    decreases |parts|
  {
    if |parts| == 1 {
      SplitNoSep(parts[0], sep);
    } else {
      SplitJoin(parts[1..], sep);
      SplitAfterPiece(parts[0], Join(parts[1..], sep), sep);
      assert [parts[0]] + parts[1..] == parts;
    }
  }

  /** Joining with one more piece at the end. */
  lemma {:induction false} JoinSnoc(parts: seq<string>, last: string, sep: char)
    requires |parts| >= 1
    ensures Join(parts + [last], sep) == Join(parts, sep) + [sep] + last
    decreases |parts|
  {
    if |parts| == 1 {
      assert (parts + [last])[1..] == [last];
    } else {
      assert (parts + [last])[1..] == parts[1..] + [last];
      JoinSnoc(parts[1..], last, sep);
    }
  }

  /** `s.replace(pat, rep)` with an empty `pat`: `rep` before every character and at the end. */
  function Interleave(s: string, rep: string): string
  {
    if s == [] then rep else rep + [s[0]] + Interleave(s[1..], rep)
  }

  /** `s.replace(pat, rep)`: every non-overlapping occurrence of `pat`, scanning from the
      left, is replaced by `rep`. */
  function Replace(s: string, pat: string, rep: string): string
    decreases |s|
  {
    if |pat| == 0 then Interleave(s, rep)
    else if StartsWith(s, pat) then rep + Replace(s[|pat|..], pat, rep)
    else if s == [] then []
    else [s[0]] + Replace(s[1..], pat, rep)
  }

  /** `pat` occurs in `s` starting at index `i`. */
  predicate OccursAt(s: string, pat: string, i: nat)
    requires i <= |s|
  {
    StartsWith(s[i..], pat)
  }

  /** Replacing a string that does not occur changes nothing. */
  lemma {:induction false} ReplaceAbsent(s: string, pat: string, rep: string)
    requires |pat| > 0
    requires forall i :: 0 <= i <= |s| ==> !OccursAt(s, pat, i)
    ensures Replace(s, pat, rep) == s
    decreases |s|
  {
    assert !OccursAt(s, pat, 0);
    assert s[0..] == s;
    if s != [] {
      forall i | 0 <= i <= |s[1..]|
        ensures !OccursAt(s[1..], pat, i)
      {
        assert s[1..][i..] == s[i + 1..];
        assert !OccursAt(s, pat, i + 1);
      }
      ReplaceAbsent(s[1..], pat, rep);
    }
  }

  /** When `pat` occurs in `s` only as its prefix, `replace` rewrites just that prefix. */
  lemma ReplaceLeadingOnly(s: string, pat: string, rep: string)
    requires |pat| > 0 && StartsWith(s, pat)
    requires forall i :: |pat| <= i <= |s| ==> !OccursAt(s, pat, i)
    ensures Replace(s, pat, rep) == rep + s[|pat|..]
  {
    var t := s[|pat|..];
    forall i | 0 <= i <= |t|
      ensures !OccursAt(t, pat, i)
    {
      assert t[i..] == s[|pat| + i..];
      assert !OccursAt(s, pat, |pat| + i);
    }
    ReplaceAbsent(t, pat, rep);
  }

  /** Replacing the empty string by the empty string is the identity. */
  lemma {:induction false} ReplaceEmptyByEmpty(s: string)
    ensures Replace(s, "", "") == s
    decreases |s|
  {
    if s != [] {
      ReplaceEmptyByEmpty(s[1..]);
      assert [s[0]] + s[1..] == s;
    }
  }

  /** Stripping `c` from a string that starts with something else and ends with exactly
      one `c` drops just that last character. */
  lemma StripCharOneTrailing(s: string, c: char)
    requires |s| >= 2 && s[0] != c && s[|s| - 1] == c && s[|s| - 2] != c
    ensures StripChar(s, c) == s[..|s| - 1]
  {
    var t := TrimStart(s, x => x == c);
    assert t == s;
    var u := s[..|s| - 1];
    assert TrimEnd(u, x => x == c) == u;
  }

  /** When one split at `c` comes later than another, the earlier split's tail holds
      that `c`. */
  lemma CharInLaterTail(a: string, b: string, p: string, n: string, c: char)
    requires a + [c] + b == p + [c] + n && |p| < |a|
    ensures c in n
  {
    assert n[|a| - |p| - 1] == (a + [c] + b)[|a|];
  }

  /** A string splits at its last `c` in one way only: two splits whose tails hold no
      `c` agree. */
  lemma SplitAtLast(a: string, b: string, p: string, n: string, c: char)
    requires a + [c] + b == p + [c] + n && c !in b && c !in n
    ensures a == p && b == n
  {
    var t := a + [c] + b;
    if |a| < |p| {
      CharInLaterTail(p, n, a, b, c);
      assert false;
    } else if |p| < |a| {
      CharInLaterTail(a, b, p, n, c);
      assert false;
    }
    assert a == t[..|a|] && p == t[..|p|];
    assert b == t[|a| + 1..] && n == t[|p| + 1..];
  }
}
