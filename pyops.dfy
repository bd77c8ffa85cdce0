/** Python built-in operations whose semantics the analysis code relies on:
    slicing with clamped and negative indices, `int()` on a float, and
    `str.replace`. */
module PyOps {

  /** The index Python uses for slice bound `i` on a sequence of length `n`:
      negative bounds count from the end, and both are clamped to [0, n]. */
  function SliceIndex(i: int, n: nat): (k: nat)
    ensures k <= n
    ensures 0 <= i <= n ==> k == i
    ensures i < 0 && 0 <= i + n ==> k == i + n
  {
    if i < 0 then (if i + n < 0 then 0 else i + n)
    else if i > n then n
    else i
  }

  /** The length of `s[lo:hi]` in Python for a sequence of length `n`. */
  function SliceLength(lo: int, hi: int, n: nat): nat
  {
    var a := SliceIndex(lo, n);
    var b := SliceIndex(hi, n);
    if a < b then b - a else 0
  }

  /** `s[lo:hi]` in Python. Its length depends only on the bounds and on |s|. */
  function Slice<T>(s: seq<T>, lo: int, hi: int): (r: seq<T>)
    ensures 0 <= lo <= hi <= |s| ==> r == s[lo..hi]
    ensures |r| <= |s|
    ensures |r| == SliceLength(lo, hi, |s|)
  {
    var a := SliceIndex(lo, |s|);
    var b := SliceIndex(hi, |s|);
    if a < b then s[a..b] else []
  }

  /** `s[lo:]` in Python. */
  function SliceFrom<T>(s: seq<T>, lo: int): (r: seq<T>)
    ensures 0 <= lo <= |s| ==> r == s[lo..]
  {
    Slice(s, lo, |s|)
  }

  /** `int(x)` on a Python float: truncation toward zero. */
  function Trunc(x: real): (k: int)
    ensures x >= 0.0 ==> k as real <= x < k as real + 1.0
    ensures x < 0.0 ==> k as real - 1.0 < x <= k as real
  {
    if x >= 0.0 then x.Floor else -((-x).Floor)
  }

  /** `s.replace(pat, rep)`: every non-overlapping occurrence of `pat`,
      scanned left to right, is replaced by `rep`. */
  function Replace(s: string, pat: string, rep: string): (r: string)
    requires |pat| > 0
    decreases |s|
  {
    if |s| < |pat| then s
    else if s[..|pat|] == pat then rep + Replace(s[|pat|..], pat, rep)
    else [s[0]] + Replace(s[1..], pat, rep)
  }

  /** `pat` occurs in `s` starting at index `i`. */
  predicate OccursAt(s: string, pat: string, i: int)
  {
    0 <= i && i + |pat| <= |s| && s[i..i + |pat|] == pat
  }

  /** `pat` occurs in `s`. */
  ghost predicate Occurs(s: string, pat: string)
  {
    exists i :: OccursAt(s, pat, i)
  }

  /** A string in which `pat` does not occur is left unchanged. */
  lemma {:induction false} ReplaceAbsent(s: string, pat: string, rep: string)
    requires |pat| > 0
    requires !Occurs(s, pat)
    ensures Replace(s, pat, rep) == s
    decreases |s|
  {
    if |s| >= |pat| {
      assert s[0..|pat|] == s[..|pat|];
      assert !OccursAt(s, pat, 0);
      var t := s[1..];
      forall i | OccursAt(t, pat, i) ensures OccursAt(s, pat, i + 1) {
        assert s[i + 1..i + 1 + |pat|] == t[i..i + |pat|];
      }
      ReplaceAbsent(t, pat, rep);
      assert [s[0]] + t == s;
    }
  }

  /** The same, as an implication that holds of every string. */
  lemma ReplaceIfAbsent(s: string, pat: string, rep: string)
    requires |pat| > 0
    ensures !Occurs(s, pat) ==> Replace(s, pat, rep) == s
  {
    if !Occurs(s, pat) {
      ReplaceAbsent(s, pat, rep);
    }
  }

  /** When `b` starts with a character that `pat` does not contain, no
      occurrence of `pat` straddles the seam of `a + b`, so the two halves
      are rewritten independently. */
  lemma {:induction false} ReplaceSplit(a: string, b: string, pat: string, rep: string)
    requires |pat| > 0 && |b| > 0
    requires b[0] !in pat
    ensures Replace(a + b, pat, rep) == Replace(a, pat, rep) + Replace(b, pat, rep)
    decreases |a|
  {
    if a == [] {
      assert a + b == b;
    } else if |a| >= |pat| {
      assert (a + b)[..|pat|] == a[..|pat|];
      if a[..|pat|] == pat {
        assert (a + b)[|pat|..] == a[|pat|..] + b;
        ReplaceSplit(a[|pat|..], b, pat, rep);
      } else {
        assert (a + b)[1..] == a[1..] + b;
        ReplaceSplit(a[1..], b, pat, rep);
      }
    } else {
      // `a` is too short to hold `pat`, so it is left as it is
      assert Replace(a, pat, rep) == a;
      if |a + b| >= |pat| {
        assert (a + b)[..|pat|][|a|] == b[0];
        assert (a + b)[..|pat|] != pat;
        assert (a + b)[1..] == a[1..] + b;
        ReplaceSplit(a[1..], b, pat, rep);
        assert Replace(a[1..], pat, rep) == a[1..];
        assert [a[0]] + a[1..] == a;
      }
    }
  }
  /** A character other than the first of `pat` in front of a string without
      `pat` does not create an occurrence. */
  lemma AbsentCons(c: char, s: string, pat: string)
    requires |pat| > 0 && c != pat[0]
    requires !Occurs(s, pat)
    ensures !Occurs([c] + s, pat)
  {
    forall i | 0 < i && OccursAt([c] + s, pat, i) ensures OccursAt(s, pat, i - 1) {
      assert s[i - 1..i - 1 + |pat|] == ([c] + s)[i..i + |pat|];
    }
  }

  /** A pattern whose first character is nowhere in `s` does not occur in it. */
  lemma AbsentFirst(s: string, pat: string)
    requires |pat| > 0 && pat[0] !in s
    ensures !Occurs(s, pat)
  {
    forall i | 0 <= i && i + |pat| <= |s| ensures !OccursAt(s, pat, i) {
      assert s[i..i + |pat|][0] == s[i];
    }
  }

  /** A leading character that cannot start `pat` is copied through. */
  lemma ReplaceCons(c: char, s: string, pat: string, rep: string)
    requires |pat| > 0 && c != pat[0]
    ensures Replace([c] + s, pat, rep) == [c] + Replace(s, pat, rep)
  {
    var t := [c] + s;
    assert t[1..] == s;
    if |t| >= |pat| {
      assert t[..|pat|][0] == c;
    }
  }

  /** The pattern itself is replaced by `rep`. */
  lemma ReplaceWhole(pat: string, rep: string)
    requires |pat| > 0
    ensures Replace(pat, pat, rep) == rep
  {
    assert pat[..|pat|] == pat;
    assert pat[|pat|..] == [];
  }
}
