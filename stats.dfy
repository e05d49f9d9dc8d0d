/**
 * `Series.median()` over the non-missing values of a numeric column, with exact real
 * arithmetic: the middle value of the sorted values, or the mean of the two middle ones.
 */
module Stats {
  import opened Wrappers

  predicate Sorted(s: seq<real>) {
    forall i, j :: 0 <= i < j < |s| ==> s[i] <= s[j]
  }

  /** Put `x` into a sorted list; duplicates are kept. */
  function InsertSorted(x: real, s: seq<real>): (r: seq<real>)
    requires Sorted(s)
    ensures Sorted(r)
    ensures multiset(r) == multiset(s) + multiset{x}
  {
    if s == [] then [x]
    else if x <= s[0] then
      PrependSorted(x, s);
      [x] + s
    else
      var rest := InsertSorted(x, s[1..]);
      HeadBelowRest(s, x, rest);
      PrependSorted(s[0], rest);
      assert s == [s[0]] + s[1..];
      [s[0]] + rest
  }

  lemma PrependSorted(x: real, s: seq<real>)
    requires Sorted(s)
    requires s == [] || x <= s[0]
    ensures Sorted([x] + s)
  {
    var r := [x] + s;
    forall i, j | 0 <= i < j < |r| ensures r[i] <= r[j] {
      if i == 0 {
        assert r[j] == s[j - 1] && s[0] <= s[j - 1];
      } else {
        assert r[i] == s[i - 1] && r[j] == s[j - 1];
      }
    }
  }

  /** What is inserted behind the head of a sorted list stays above that head. */
  lemma HeadBelowRest(s: seq<real>, x: real, rest: seq<real>)
    requires s != [] && Sorted(s) && s[0] < x
    requires Sorted(rest) && multiset(rest) == multiset(s[1..]) + multiset{x}
    ensures rest == [] || s[0] <= rest[0]
  {
    if rest != [] {
      var y := rest[0];
      assert y in multiset(rest);
      if y != x {
        assert y in multiset(s[1..]);
        assert y in s[1..];
        var j :| 0 <= j < |s[1..]| && s[1..][j] == y;
        assert s[j + 1] == y;
      }
    }
  }

  /** The values in ascending order, each as often as it occurs. */
  function Sort(s: seq<real>): (r: seq<real>)
    ensures Sorted(r)
    ensures multiset(r) == multiset(s)
  {
    if s == [] then []
    else
      assert s == [s[0]] + s[1..];
      InsertSorted(s[0], Sort(s[1..]))
  }

  /** The middle of a sorted, non-empty list. */
  function Middle(r: seq<real>): real
    requires r != []
  {
    var k := |r| / 2;
    if |r| % 2 == 1 then r[k] else (r[k - 1] + r[k]) / 2.0
  }

  /** The median, or `None` (NaN) for no values. */
  function Median(s: seq<real>): (m: Option<real>)
    ensures m.None? <==> s == []
  {
    if s == [] then None
    else
      SortLength(s);
      Some(Middle(Sort(s)))
  }

  lemma SortLength(s: seq<real>)
    ensures |Sort(s)| == |s|
  {
    assert |Sort(s)| == |multiset(Sort(s))| == |multiset(s)| == |s|;
  }

  /** How many values satisfy `p`. */
  function CountIf(s: seq<real>, p: real -> bool): (n: nat)
    ensures n <= |s|
  {
    if s == [] then 0 else (if p(s[0]) then 1 else 0) + CountIf(s[1..], p)
  }

  lemma {:induction false} CountIfAppend(a: seq<real>, b: seq<real>, p: real -> bool)
    ensures CountIf(a + b, p) == CountIf(a, p) + CountIf(b, p)
  {
    if a != [] {
      assert (a + b)[0] == a[0];
      assert (a + b)[1..] == a[1..] + b;
      CountIfAppend(a[1..], b, p);
    } else {
      assert a + b == b;
    }
  }

  lemma {:induction false} CountIfNone(s: seq<real>, p: real -> bool)
    requires forall i :: 0 <= i < |s| ==> !p(s[i])
    ensures CountIf(s, p) == 0
  {
    if s != [] {
      CountIfNone(s[1..], p);
    }
  }

  /** Counting does not depend on the order of the values. */
  lemma {:induction false} CountIfPermutation(a: seq<real>, b: seq<real>, p: real -> bool)
    requires multiset(a) == multiset(b)
    ensures CountIf(a, p) == CountIf(b, p)
    decreases |a|
  {
    if a == [] {
      assert |b| == |multiset(b)| == 0;
    } else {
      var j := IndexOf(b, a[0]);
      var rest := RemoveAt(b, j, p);
      TailMultiset(a);
      CountIfPermutation(a[1..], rest, p);
    }
  }

  /** A position of a value that occurs. */
  lemma IndexOf(b: seq<real>, x: real) returns (j: int)
    requires x in multiset(b)
    ensures 0 <= j < |b| && b[j] == x
  {
    assert x in b;
    j :| 0 <= j < |b| && b[j] == x;
  }

  lemma TailMultiset(a: seq<real>)
    requires a != []
    ensures multiset(a[1..]) == multiset(a) - multiset{a[0]}
  {
    assert a == [a[0]] + a[1..];
  }

  /** `b` without its element at `j`: one occurrence fewer, and one count fewer if it satisfied `p`. */
  lemma RemoveAt(b: seq<real>, j: int, p: real -> bool) returns (rest: seq<real>)
    requires 0 <= j < |b|
    ensures multiset(rest) == multiset(b) - multiset{b[j]}
    ensures CountIf(b, p) == CountIf(rest, p) + (if p(b[j]) then 1 else 0)
  {
    rest := b[..j] + b[j + 1..];
    assert b == b[..j] + ([b[j]] + b[j + 1..]);
    CountIfAppend(b[..j], [b[j]] + b[j + 1..], p);
    CountIfAppend([b[j]], b[j + 1..], p);
    CountIfAppend(b[..j], b[j + 1..], p);
  }

  /** If no value from position `k` on satisfies `p`, at most `k` values do. */
  lemma CountIfBelow(s: seq<real>, k: nat, p: real -> bool)
    requires k <= |s|
    requires forall i :: k <= i < |s| ==> !p(s[i])
    ensures CountIf(s, p) <= k
  {
    assert s == s[..k] + s[k..];
    CountIfAppend(s[..k], s[k..], p);
    CountIfNone(s[k..], p);
  }

  /** If no value before position `k` satisfies `p`, at most `|s| - k` values do. */
  lemma CountIfAbove(s: seq<real>, k: nat, p: real -> bool)
    requires k <= |s|
    requires forall i :: 0 <= i < k ==> !p(s[i])
    ensures CountIf(s, p) <= |s| - k
  {
    assert s == s[..k] + s[k..];
    CountIfAppend(s[..k], s[k..], p);
    CountIfNone(s[..k], p);
  }

  /**
   * The median splits the values in halves: at most half of them lie strictly below it
   * and at most half strictly above it.
   */
  lemma MedianSplits(s: seq<real>)
    requires s != []
    ensures var m := Median(s).value;
      CountIf(s, x => x < m) <= |s| / 2 && CountIf(s, x => x > m) <= |s| / 2
  {
    var r := Sort(s);
    var m := Median(s).value;
    SortLength(s);
    CountIfPermutation(s, r, x => x < m);
    CountIfPermutation(s, r, x => x > m);
    MiddleSplits(r, m);
  }

  lemma MiddleSplits(r: seq<real>, m: real)
    requires r != [] && Sorted(r) && m == Middle(r)
    ensures CountIf(r, x => x < m) <= |r| / 2 && CountIf(r, x => x > m) <= |r| / 2
  {
    var k := |r| / 2;
    if |r| % 2 == 1 {
      CountIfBelow(r, k, x => x < m);
      CountIfAbove(r, k + 1, x => x > m);
    } else {
      CountIfBelow(r, k, x => x < m);
      CountIfAbove(r, k, x => x > m);
    }
  }

  /** The median lies between the least and the greatest value. */
  lemma MedianBetween(s: seq<real>)
    requires s != []
    ensures exists i :: 0 <= i < |s| && s[i] <= Median(s).value
    ensures exists j :: 0 <= j < |s| && Median(s).value <= s[j]
  {
    var r := Sort(s);
    SortLength(s);
    var k := |r| / 2;
    var lo, hi := if |r| % 2 == 1 then k else k - 1, k;
    assert r[lo] <= Middle(r) <= r[hi];
    assert r[lo] in multiset(s) && r[hi] in multiset(s);
    var i :| 0 <= i < |s| && s[i] == r[lo];
    var j :| 0 <= j < |s| && s[j] == r[hi];
  }

  /** A single value is its own median; two values have their mean. */
  lemma MedianSmall(a: real, b: real)
    ensures Median([a]) == Some(a)
    ensures Median([a, b]) == Some((a + b) / 2.0)
  {
    SortSingle(a);
    SortSingle(b);
    assert [a, b][1..] == [b];
    InsertPair(a, b);
  }

  lemma SortSingle(a: real)
    ensures Sort([a]) == [a]
  {
    assert [a][1..] == [];
  }

  lemma InsertPair(a: real, b: real)
    ensures InsertSorted(a, [b]) == if a <= b then [a, b] else [b, a]
  {
    assert [b][1..] == [];
  }
}
