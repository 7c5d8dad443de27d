/** Substring search with the semantics of Python's `bytes.find(sub, start)`. */
module Search {
  import opened Bytes

  /** `pat` occurs in `s` starting at offset `i`, entirely inside `s`. */
  predicate OccursAt(s: seq<byte>, pat: seq<byte>, i: nat) {
    i + |pat| <= |s| && s[i..i + |pat|] == pat
  }

  /** `pat` occurs somewhere in `s`. */
  predicate Contains(s: seq<byte>, pat: seq<byte>) {
    exists i: nat | i <= |s| :: OccursAt(s, pat, i)
  }

  /** `k` is the lowest offset at or after `from` where `pat` occurs in `s`. */
  predicate FirstFrom(s: seq<byte>, pat: seq<byte>, from: nat, k: nat) {
    from <= k && OccursAt(s, pat, k) && forall j: nat :: from <= j < k ==> !OccursAt(s, pat, j)
  }

  /**
   * `pat[k..]` matches `s` element by element at offset `i + k`; the
   * comparison Find performs at each offset, starting from `k == 0`.
   */
  predicate MatchesFrom(s: seq<byte>, pat: seq<byte>, i: nat, k: nat)
    decreases |pat| - k
  {
    k >= |pat| || (i + k < |s| && s[i + k] == pat[k] && MatchesFrom(s, pat, i, k + 1))
  }

  /** The byte-by-byte comparison from offset `k` agrees with the pattern at every later offset. */
  lemma {:induction false} MatchesFromAll(s: seq<byte>, pat: seq<byte>, i: nat, k: nat)
    requires k <= |pat| && i + |pat| <= |s|
    ensures MatchesFrom(s, pat, i, k) <==> forall j :: k <= j < |pat| ==> s[i + j] == pat[j]
    decreases |pat| - k
  {
    if k < |pat| {
      MatchesFromAll(s, pat, i, k + 1);
    }
  }

  /** Inside `s`, the element-by-element comparison succeeds exactly at occurrences. */
  lemma MatchesAtIff(s: seq<byte>, pat: seq<byte>, i: nat)
    requires i + |pat| <= |s|
    ensures MatchesFrom(s, pat, i, 0) <==> OccursAt(s, pat, i)
  {
    MatchesFromAll(s, pat, i, 0);
    var here := s[i..i + |pat|];
    assert forall j :: 0 <= j < |pat| ==> here[j] == s[i + j];
  }

  /** `s.find(pat, from)`: the first occurrence at or after `from`, or None. */
  function Find(s: seq<byte>, pat: seq<byte>, from: nat): Option<nat>
    decreases |s| - from
  {
    if from + |pat| > |s| then None
    else if MatchesFrom(s, pat, from, 0) then Some(from)
    else Find(s, pat, from + 1)
  }

  /** Find returns the first occurrence at or after `from`, and None only when there is none. */
  lemma {:induction false} FindSpec(s: seq<byte>, pat: seq<byte>, from: nat)
    ensures Find(s, pat, from).Some? ==> FirstFrom(s, pat, from, Find(s, pat, from).value)
    ensures Find(s, pat, from).None? ==> forall j: nat :: from <= j ==> !OccursAt(s, pat, j)
    decreases |s| - from
  {
    if from + |pat| <= |s| {
      MatchesAtIff(s, pat, from);
      if !MatchesFrom(s, pat, from, 0) {
        FindSpec(s, pat, from + 1);
      }
    }
  }

  /** The first occurrence is unique: any offset that is first is the one Find returns. */
  lemma FindIsFirst(s: seq<byte>, pat: seq<byte>, from: nat, k: nat)
    requires FirstFrom(s, pat, from, k)
    ensures Find(s, pat, from) == Some(k)
  {
    FindSpec(s, pat, from);
    assert OccursAt(s, pat, k);
  }

  /** A match found in `a` is still the first match once more bytes are appended. */
  lemma FindExtend(a: seq<byte>, t: seq<byte>, pat: seq<byte>, from: nat)
    requires Find(a, pat, from).Some?
    ensures Find(a + t, pat, from) == Find(a, pat, from)
  {
    FindSpec(a, pat, from);
    var k := Find(a, pat, from).value;
    forall j: nat | from <= j <= k
      ensures OccursAt(a + t, pat, j) <==> OccursAt(a, pat, j)
    {
      if j + |pat| <= |a| {
        assert (a + t)[j..j + |pat|] == a[j..j + |pat|];
      }
    }
    FindIsFirst(a + t, pat, from, k);
  }

  /** Searching from `from` or from `to` agrees when nothing occurs in between. */
  lemma FindSkip(s: seq<byte>, pat: seq<byte>, from: nat, to: nat)
    requires from <= to
    requires forall j: nat :: from <= j < to ==> !OccursAt(s, pat, j)
    ensures Find(s, pat, from) == Find(s, pat, to)
  {
    FindSpec(s, pat, from);
    FindSpec(s, pat, to);
    var r := Find(s, pat, to);
    if r.Some? {
      FindIsFirst(s, pat, from, r.value);
    }
  }

  /** Searching `s` from `from >= d` is searching the suffix `s[d..]`, shifted by `d`. */
  lemma FindDrop(s: seq<byte>, d: nat, pat: seq<byte>, from: nat)
    requires d <= from && d <= |s|
    ensures Find(s, pat, from) == Shift(Find(s[d..], pat, from - d), d)
  {
    var v := s[d..];
    forall j: nat | j >= d
      ensures OccursAt(s, pat, j) <==> OccursAt(v, pat, j - d)
    {
      if j + |pat| <= |s| {
        assert s[j..j + |pat|] == v[j - d..j - d + |pat|];
      }
    }
    var r := Find(v, pat, from - d);
    FindSpec(v, pat, from - d);
    FindSpec(s, pat, from);
    if r.Some? {
      FindIsFirst(s, pat, from, r.value + d);
    }
  }

  /** An offset moved right by `d`, if there is one. */
  function Shift(r: Option<nat>, d: nat): Option<nat> {
    match r
    case None => None
    case Some(k) => Some(k + d)
  }

  /** A pattern that does not occur in `s` does not occur in any suffix of `s`. */
  lemma SuffixAvoids(s: seq<byte>, pat: seq<byte>, d: nat)
    requires d <= |s|
    requires !Contains(s, pat)
    ensures !Contains(s[d..], pat)
  {
    forall i: nat | i <= |s[d..]|
      ensures !OccursAt(s[d..], pat, i)
    {
      assert !OccursAt(s, pat, d + i);
      if i + |pat| <= |s| - d {
        assert s[d..][i..i + |pat|] == s[d + i..d + i + |pat|];
      }
    }
  }

  /** A pattern absent from the suffix `s[d..]` starts nowhere in `s` at or after `d`. */
  lemma DropAvoids(s: seq<byte>, pat: seq<byte>, d: nat)
    requires d <= |s| && !Contains(s[d..], pat)
    ensures forall j: nat :: d <= j ==> !OccursAt(s, pat, j)
  {
    forall j: nat | d <= j && j + |pat| <= |s|
      ensures !OccursAt(s, pat, j)
    {
      assert s[d..][j - d..j - d + |pat|] == s[j..j + |pat|];
      assert !OccursAt(s[d..], pat, j - d);
    }
  }

  /** A slice `s[lo..hi]` contains no occurrence when none starts in `lo..hi` in `s`. */
  lemma SliceAvoids(s: seq<byte>, pat: seq<byte>, lo: nat, hi: nat)
    requires |pat| > 0 && lo <= hi <= |s|
    requires forall j: nat :: lo <= j < hi ==> !OccursAt(s, pat, j)
    ensures !Contains(s[lo..hi], pat)
  {
    var p := s[lo..hi];
    forall i: nat | i <= |p|
      ensures !OccursAt(p, pat, i)
    {
      if i + |pat| <= |p| {
        assert lo <= lo + i < hi;
        assert !OccursAt(s, pat, lo + i);
        var here := p[i..i + |pat|];
        var there := s[lo + i..lo + i + |pat|];
        forall k | 0 <= k < |pat| ensures here[k] == there[k] {
          assert p[i + k] == s[lo + i + k];
        }
        assert here != pat;
      }
    }
  }
}
