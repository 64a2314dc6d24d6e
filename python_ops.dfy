/** Python's slicing and the few `str` methods the reduction code relies on
    (`split`, `re.split` over a character class, `replace`, `in`), stated
    once here and shared by the frame model and the filename expander. */
module PyOps {

  /** How Python normalises one slice bound against a sequence of length n:
      a negative bound counts from the end, then the bound is clamped to [0, n]. */
  function SliceBound(i: int, n: nat): (b: nat)
    ensures b <= n
    ensures 0 <= i ==> b == if i <= n then i else n
    ensures i < 0 ==> b == if n + i < 0 then 0 else n + i
  {
    if i < 0 then (if n + i < 0 then 0 else n + i) else if i > n then n else i
  }

  /** Python's `s[lo:hi]`; it never fails, an empty range gives `[]`. */
  function PySlice<T>(s: seq<T>, lo: int, hi: int): (r: seq<T>)
    ensures |r| <= |s|
    ensures var a, b := SliceBound(lo, |s|), SliceBound(hi, |s|);
      if a <= b then r == s[a..b] else r == []
  {
    var a, b := SliceBound(lo, |s|), SliceBound(hi, |s|);
    if a <= b then s[a..b] else []
  }

  /** Python's `s[lo:]`. */
  function PySliceFrom<T>(s: seq<T>, lo: int): (r: seq<T>)
    ensures r == s[SliceBound(lo, |s|)..]
  {
    PySlice(s, lo, |s|)
  }

  /** Python's `s[:-k]` for k > 0: drops the last k elements, or all of them. */
  lemma DropLast<T>(s: seq<T>, k: int)
    requires k > 0
    ensures PySlice(s, 0, -k) == if |s| < k then [] else s[..|s| - k]
  {
  }

  /** Three slices at cut points 0 <= a <= b <= |s| cover s exactly, in order. */
  lemma SlicesPartition<T>(s: seq<T>, a: int, b: int)
    requires 0 <= a <= b <= |s|
    ensures |PySlice(s, 0, a)| == a
    ensures |PySlice(s, a, b)| == b - a
    ensures |PySliceFrom(s, b)| == |s| - b
    ensures PySlice(s, 0, a) + PySlice(s, a, b) + PySliceFrom(s, b) == s
  {
    assert s[0..a] + s[a..b] + s[b..] == s;
  }

  /** No character of t is one of seps. */
  predicate NoneOf(t: string, seps: set<char>) {
    forall j :: 0 <= j < |t| ==> t[j] !in seps
  }

  /** The number of characters of s that are separators. */
  function CountOf(s: string, seps: set<char>): (n: nat)
    ensures n <= |s|
  {
    if s == [] then 0 else (if s[0] in seps then 1 else 0) + CountOf(s[1..], seps)
  }

  /** Python's `s.split(c)` when seps == {c}, and `re.split('[...]', s)` for a
      character class: the maximal separator-free fields, always at least one. */
  function Split(s: string, seps: set<char>): (r: seq<string>)
    ensures |r| >= 1
    ensures forall i :: 0 <= i < |r| ==> NoneOf(r[i], seps)
  {
    if s == [] then [[]]
    else
      var rest := Split(s[1..], seps);
      if s[0] in seps then [[]] + rest else [[s[0]] + rest[0]] + rest[1..]
  }

  /** Python's `c.join(fields)`. */
  function Join(fields: seq<string>, c: char): (s: string)
    requires |fields| >= 1
  {
    if |fields| == 1 then fields[0] else fields[0] + [c] + Join(fields[1..], c)
  }

  function Last<T>(s: seq<T>): T
    requires |s| >= 1
  {
    s[|s| - 1]
  }

  /** There is one field more than there are separators. */
  lemma {:induction false} SplitLength(s: string, seps: set<char>)
    ensures |Split(s, seps)| == CountOf(s, seps) + 1
  {
    if s != [] {
      SplitLength(s[1..], seps);
    }
  }

  /** Joining the fields with the separator gives back the string. */
  lemma {:induction false} SplitJoin(s: string, c: char)
    ensures Join(Split(s, {c}), c) == s
  {
    if s != [] {
      var rest := Split(s[1..], {c});
      SplitJoin(s[1..], c);
      if s[0] == c {
        assert Split(s, {c}) == [[]] + rest;
        assert ([[]] + rest)[1..] == rest;
      } else {
        var r := Split(s, {c});
        assert r == [[s[0]] + rest[0]] + rest[1..];
        if |rest| == 1 {
          assert Join(r, c) == [s[0]] + rest[0];
        } else {
          assert r[1..] == rest[1..];
          assert Join(rest, c) == rest[0] + [c] + Join(rest[1..], c);
        }
      }
    }
  }

  /** The last field is the longest separator-free suffix of s: it is a
      suffix, and it is either all of s or preceded by a separator. */
  lemma {:induction false} SplitLast(s: string, seps: set<char>)
    ensures var t := Last(Split(s, seps));
      |t| <= |s| && s[|s| - |t|..] == t &&
      (|t| == |s| || s[|s| - |t| - 1] in seps)
  {
    if s != [] {
      SplitLast(s[1..], seps);
      var rest := Split(s[1..], seps);
      var r := Split(s, seps);
      SplitLength(s[1..], seps);
      CountZero(s[1..], seps);
      TailSuffix(s, Last(rest));
      if s[0] in seps {
        assert Last(r) == Last(rest);
      } else if |rest| == 1 {
        assert Last(r) == [s[0]] + rest[0];
      } else {
        assert Last(r) == Last(rest);
        assert Last(rest) != s[1..];
      }
    }
  }

  /** A suffix of the tail of s is a suffix of s, with the same character
      before it when there is one. */
  lemma TailSuffix(s: string, t: string)
    requires s != [] && |t| <= |s| - 1 && s[1..][|s| - 1 - |t|..] == t
    ensures s[|s| - |t|..] == t
    ensures |t| < |s| - 1 ==> s[|s| - |t| - 1] == s[1..][|s| - 1 - |t| - 1]
  {
    assert s[|s| - |t|..] == s[1..][|s| - 1 - |t|..];
  }

  /** A string has no separator exactly when it counts none. */
  lemma {:induction false} CountZero(s: string, seps: set<char>)
    ensures CountOf(s, seps) == 0 <==> NoneOf(s, seps)
  {
    if s != [] {
      CountZero(s[1..], seps);
      if s[0] !in seps && CountOf(s, seps) != 0 {
        var j :| 0 <= j < |s[1..]| && s[1..][j] in seps;
        assert s[j + 1] in seps;
      }
    }
  }

  /** A separator-free string at the start of s or right after a separator
      is the last field. */
  lemma LastAfterSeparator(prefix: string, t: string, seps: set<char>)
    requires prefix == [] || Last(prefix) in seps
    requires NoneOf(t, seps)
    ensures Last(Split(prefix + t, seps)) == t
  {
    var s := prefix + t;
    var l := Last(Split(s, seps));
    SplitLast(s, seps);
    var k := |s| - |l|;
    assert l == s[k..];
    SuffixFree(s, k, seps);
    assert s[|prefix|..] == t;
    SuffixFree(s, |prefix|, seps);
    if prefix != [] {
      assert s[|prefix| - 1] == Last(prefix);
    }
  }

  /** Every character from position k on is a non-separator when s[k..] has none. */
  lemma SuffixFree(s: string, k: nat, seps: set<char>)
    requires k <= |s| && NoneOf(s[k..], seps)
    ensures forall i :: k <= i < |s| ==> s[i] !in seps
  {
    forall i | k <= i < |s| ensures s[i] !in seps {
      assert s[i] == s[k..][i - k];
    }
  }

  /** Python's `s.rfind(c)`: the index of the last c, or -1. */
  function RFind(s: string, c: char): (k: int)
    ensures -1 <= k < |s|
    ensures k >= 0 ==> s[k] == c
    ensures forall j :: k < j < |s| ==> s[j] != c
  {
    if s == [] then -1
    else if Last(s) == c then |s| - 1
    else RFind(s[..|s| - 1], c)
  }

  /** A string without separators is a single field. */
  lemma {:induction false} SplitNone(s: string, seps: set<char>)
    requires NoneOf(s, seps)
    ensures Split(s, seps) == [s]
  {
    if s != [] {
      assert NoneOf(s[1..], seps) by {
        forall j | 0 <= j < |s[1..]| ensures s[1..][j] !in seps {
          assert s[1..][j] == s[j + 1];
        }
      }
      SplitNone(s[1..], seps);
      assert [s[0]] + s[1..] == s;
    }
  }

  /** Splitting at the first separator: the separator-free text before it is
      the first field, and the rest is split on. */
  lemma {:induction false} SplitFirst(a: string, c: char, b: string, seps: set<char>)
    requires NoneOf(a, seps) && c in seps
    ensures Split(a + [c] + b, seps) == [a] + Split(b, seps)
  {
    var s := a + [c] + b;
    if a == [] {
      assert s[1..] == b;
    } else {
      assert s[1..] == a[1..] + [c] + b;
      assert NoneOf(a[1..], seps) by {
        forall j | 0 <= j < |a[1..]| ensures a[1..][j] !in seps {
          assert a[1..][j] == a[j + 1];
        }
      }
      SplitFirst(a[1..], c, b, seps);
      assert [a[0]] + a[1..] == a;
    }
  }

  /** A character absent from s is absent from every field of s. */
  lemma {:induction false} SplitAvoids(s: string, seps: set<char>, c: char)
    requires c !in s
    ensures forall i :: 0 <= i < |Split(s, seps)| ==> c !in Split(s, seps)[i]
  {
    if s != [] {
      assert c !in s[1..] by {
        assert forall j :: 0 <= j < |s[1..]| ==> s[1..][j] == s[j + 1];
      }
      SplitAvoids(s[1..], seps, c);
      var rest := Split(s[1..], seps);
      if s[0] !in seps {
        assert c !in [s[0]] + rest[0];
      }
    }
  }

  /** Removing every occurrence of a character leaves the count of other
      characters as it was. */
  lemma {:induction false} RemoveKeepsCount(s: string, c: char, seps: set<char>)
    requires c !in seps
    ensures CountOf(ReplaceAll(s, [c], []), seps) == CountOf(s, seps)
  {
    if s != [] {
      RemoveKeepsCount(s[1..], c, seps);
      if [c] <= s {
        assert s[0] == c && s[|[c]|..] == s[1..];
        assert ReplaceAll(s, [c], []) == ReplaceAll(s[1..], [c], []);
      } else {
        var rest := ReplaceAll(s[1..], [c], []);
        assert ([s[0]] + rest)[1..] == rest;
      }
    }
  }

  /** The pattern occurs in any string that ends with it. */
  lemma {:induction false} ContainsSuffix(s: string, pat: string)
    requires |pat| > 0
    ensures Contains(s + pat, pat)
  {
    if s == [] {
      assert s + pat == pat;
    } else {
      assert (s + pat)[1..] == s[1..] + pat;
      ContainsSuffix(s[1..], pat);
    }
  }

  /** The pattern occurs in s starting at index i. */
  predicate OccursAt(s: string, pat: string, i: int) {
    0 <= i && i + |pat| <= |s| && s[i..i + |pat|] == pat
  }

  /** Python's `pat in s`, for a non-empty pattern: whether it occurs
      somewhere in s. */
  function Contains(s: string, pat: string): (r: bool)
    requires |pat| > 0
    ensures r <==> exists i :: OccursAt(s, pat, i)
  {
    if |s| < |pat| then false
    else
      OccursShifted(s, pat);
      pat <= s || Contains(s[1..], pat)
  }

  /** An occurrence in s is at its start or is an occurrence in s[1..]. */
  lemma OccursShifted(s: string, pat: string)
    requires 0 < |pat| <= |s|
    ensures (exists i :: OccursAt(s, pat, i)) <==> pat <= s || exists i :: OccursAt(s[1..], pat, i)
  {
    if exists i :: OccursAt(s, pat, i) {
      var i :| OccursAt(s, pat, i);
      if i > 0 {
        assert s[1..][i - 1..i - 1 + |pat|] == s[i..i + |pat|];
        assert OccursAt(s[1..], pat, i - 1);
      }
    }
    if pat <= s {
      assert OccursAt(s, pat, 0);
    }
    if exists i :: OccursAt(s[1..], pat, i) {
      var i :| OccursAt(s[1..], pat, i);
      assert s[i + 1..i + 1 + |pat|] == s[1..][i..i + |pat|];
      assert OccursAt(s, pat, i + 1);
    }
  }

  /** An occurrence puts the pattern's first character in the string. */
  lemma {:induction false} ContainsFirst(s: string, pat: string)
    requires |pat| > 0 && Contains(s, pat)
    ensures pat[0] in s
  {
    if !(pat <= s) {
      ContainsFirst(s[1..], pat);
      var j :| 0 <= j < |s[1..]| && s[1..][j] == pat[0];
      assert s[j + 1] == pat[0];
    }
  }

  /** Python's `s.replace(pat, rep)`: scan left to right and replace every
      non-overlapping occurrence of the non-empty pattern. */
  function ReplaceAll(s: string, pat: string, rep: string): (r: string)
    requires |pat| > 0
    ensures |pat| == 1 && pat[0] !in rep ==> pat[0] !in r
    ensures |rep| <= |pat| ==> |r| <= |s|
  {
    if |s| < |pat| then s
    else if pat <= s then rep + ReplaceAll(s[|pat|..], pat, rep)
    else [s[0]] + ReplaceAll(s[1..], pat, rep)
  }

  /** Without an occurrence, replace returns its input. */
  lemma {:induction false} ReplaceAbsent(s: string, pat: string, rep: string)
    requires |pat| > 0 && !Contains(s, pat)
    ensures ReplaceAll(s, pat, rep) == s
  {
    if |s| >= |pat| {
      ReplaceAbsent(s[1..], pat, rep);
      assert [s[0]] + s[1..] == s;
    }
  }

  /** When the pattern's first character does not reappear inside it, no
      occurrence can straddle the end of s, so appending one occurrence adds
      exactly one replacement. */
  lemma {:induction false} ReplaceAppend(s: string, pat: string, rep: string)
    requires |pat| > 0 && pat[0] !in pat[1..]
    ensures ReplaceAll(s + pat, pat, rep) == ReplaceAll(s, pat, rep) + rep
  {
    var t := s + pat;
    if s == [] {
      assert t == pat;
      assert t[|pat|..] == [];
    } else if |s| >= |pat| && pat <= s {
      assert pat <= t;
      assert t[|pat|..] == s[|pat|..] + pat;
      ReplaceAppend(s[|pat|..], pat, rep);
    } else {
      if |s| >= |pat| {
        assert s[..|pat|] == t[..|pat|];
      } else {
        assert t[|s|] == pat[0];
        assert pat[|s|] == pat[1..][|s| - 1];
        ReplaceAbsentShort(s[1..], pat, rep);
        assert [s[0]] + s[1..] == s;
      }
      assert !(pat <= t);
      assert t[1..] == s[1..] + pat;
      ReplaceAppend(s[1..], pat, rep);
    }
  }

  /** Replacing a single character works character by character: over a
      concatenation it is the concatenation of the replacements. */
  lemma {:induction false} ReplaceCharConcat(a: string, b: string, c: char, rep: string)
    ensures ReplaceAll(a + b, [c], rep) == ReplaceAll(a, [c], rep) + ReplaceAll(b, [c], rep)
  {
    if a != [] {
      var s := a + b;
      assert s[1..] == a[1..] + b;
      assert s[0] == a[0];
      ReplaceCharConcat(a[1..], b, c, rep);
      if [c] <= a {
        assert [c] <= s;
      } else {
        assert !([c] <= s);
      }
    } else {
      assert a + b == b;
    }
  }

  /** On one character, replacing c gives rep for c and the character itself
      otherwise. */
  lemma ReplaceCharSingle(x: char, c: char, rep: string)
    ensures ReplaceAll([x], [c], rep) == if x == c then rep else [x]
  {
    assert [x][1..] == [];
    if x == c {
      assert [c] <= [x];
    } else {
      assert [x][0] != [c][0];
    }
  }

  /** Every character of the replaced string comes from s or from rep. */
  lemma {:induction false} ReplaceChars(s: string, pat: string, rep: string)
    requires |pat| > 0
    ensures forall j :: 0 <= j < |ReplaceAll(s, pat, rep)| ==> ReplaceAll(s, pat, rep)[j] in s || ReplaceAll(s, pat, rep)[j] in rep
  {
    if |s| >= |pat| {
      if pat <= s {
        ReplaceChars(s[|pat|..], pat, rep);
        assert forall x :: x in s[|pat|..] ==> x in s;
      } else {
        ReplaceChars(s[1..], pat, rep);
        assert forall x :: x in s[1..] ==> x in s;
      }
    }
  }

  /** Replacing a character that does not occur changes nothing. */
  lemma ReplaceCharAbsent(s: string, c: char, rep: string)
    requires c !in s
    ensures ReplaceAll(s, [c], rep) == s
  {
    if Contains(s, [c]) {
      ContainsFirst(s, [c]);
    }
    ReplaceAbsent(s, [c], rep);
  }

  lemma ReplaceAbsentShort(s: string, pat: string, rep: string)
    requires 0 < |pat| && |s| < |pat|
    ensures ReplaceAll(s, pat, rep) == s
  {
  }
}
