/**
 * Order-based helpers shared by the cleaners: `sorted(set(...))` of a token list and the
 * tie-break of pandas' `Series.mode().iloc[0]`. Both are written once over any strict total
 * order `lt`; the catalog instantiates them with the order on strings and on dates.
 */
module Order {

  ghost predicate Irreflexive<T(!new)>(lt: (T, T) -> bool) {
    forall x :: !lt(x, x)
  }

  ghost predicate Transitive<T(!new)>(lt: (T, T) -> bool) {
    forall x, y, z :: lt(x, y) && lt(y, z) ==> lt(x, z)
  }

  ghost predicate Connected<T(!new)>(lt: (T, T) -> bool) {
    forall x, y :: x != y ==> lt(x, y) || lt(y, x)
  }

  ghost predicate StrictTotal<T(!new)>(lt: (T, T) -> bool) {
    Irreflexive(lt) && Transitive(lt) && Connected(lt)
  }

  /** Strictly ascending: sorted and without repetitions. */
  ghost predicate Ascending<T>(s: seq<T>, lt: (T, T) -> bool) {
    forall i, j :: 0 <= i < j < |s| ==> lt(s[i], s[j])
  }

  /** A non-empty sequence is its head followed by its tail. */
  lemma HeadTail<T>(s: seq<T>)
    requires |s| > 0
    ensures [s[0]] + s[1..] == s
  {
  }

  /** A prefix grown by the next element. */
  lemma PrefixStep<T>(s: seq<T>, i: int)
    requires 0 <= i < |s|
    ensures s[..i] + [s[i]] == s[..i + 1]
  {
  }

  /** The same, behind a fixed front part. */
  lemma AppendPrefixStep<T>(a: seq<T>, s: seq<T>, i: int)
    requires 0 <= i < |s|
    ensures (a + s[..i]) + [s[i]] == a + s[..i + 1]
  {
    PrefixStep(s, i);
  }

  function Elems<T>(s: seq<T>): set<T> {
    set x | x in s
  }

  /** Put `x` into an ascending list, unless it is already there. */
  function Insert<T(==)>(x: T, s: seq<T>, lt: (T, T) -> bool): seq<T> {
    if s == [] then [x]
    else if x == s[0] then s
    else if lt(x, s[0]) then [x] + s
    else [s[0]] + Insert(x, s[1..], lt)
  }

  lemma {:induction false} InsertElems<T>(x: T, s: seq<T>, lt: (T, T) -> bool)
    ensures Elems(Insert(x, s, lt)) == Elems(s) + {x}
  {
    if s != [] {
      assert s == [s[0]] + s[1..];
      assert Elems(s) == {s[0]} + Elems(s[1..]);
      if x != s[0] && !lt(x, s[0]) {
        var rest := Insert(x, s[1..], lt);
        InsertElems(x, s[1..], lt);
        assert Elems([s[0]] + rest) == {s[0]} + Elems(rest);
      } else if x != s[0] {
        assert Elems([x] + s) == {x} + Elems(s);
      }
    }
  }

  /** Putting in front an element below all of an ascending list keeps it ascending. */
  lemma PrependAscending<T>(x: T, s: seq<T>, lt: (T, T) -> bool)
    requires Ascending(s, lt)
    requires forall y :: y in s ==> lt(x, y)
    ensures Ascending([x] + s, lt)
  {
    var r := [x] + s;
    forall i, j | 0 <= i < j < |r| ensures lt(r[i], r[j]) {
      if i == 0 {
        assert r[j] == s[j - 1];
      } else {
        assert r[i] == s[i - 1] && r[j] == s[j - 1];
      }
    }
  }

  lemma {:induction false} InsertAscending<T(!new)>(x: T, s: seq<T>, lt: (T, T) -> bool)
    ensures StrictTotal(lt) && Ascending(s, lt) ==> Ascending(Insert(x, s, lt), lt)
  {
    if StrictTotal(lt) && Ascending(s, lt) && s != [] && x != s[0] {
      var tail := s[1..];
      assert forall y :: y in tail ==> lt(s[0], y) by {
        forall y | y in tail ensures lt(s[0], y) {
          var j :| 0 <= j < |tail| && tail[j] == y;
          assert s[j + 1] == y;
        }
      }
      if lt(x, s[0]) {
        assert s == [s[0]] + tail;
        PrependAscending(x, s, lt);
      } else {
        assert Ascending(tail, lt) by {
          forall i, j | 0 <= i < j < |tail| ensures lt(tail[i], tail[j]) {
            assert tail[i] == s[i + 1] && tail[j] == s[j + 1];
          }
        }
        InsertAscending(x, tail, lt);
        InsertElems(x, tail, lt);
        var rest := Insert(x, tail, lt);
        assert forall y :: y in rest ==> lt(s[0], y) by {
          forall y | y in rest ensures lt(s[0], y) {
            assert y in Elems(rest);
          }
        }
        PrependAscending(s[0], rest, lt);
      }
    }
  }

  /** `sorted(set(xs))`: the distinct elements of `xs` in ascending order. */
  function SortDistinct<T(==, !new)>(xs: seq<T>, lt: (T, T) -> bool): (r: seq<T>)
    ensures Elems(r) == Elems(xs)
    ensures StrictTotal(lt) ==> Ascending(r, lt)
  {
    if xs == [] then []
    else
      var rest := SortDistinct(xs[1..], lt);
      InsertElems(xs[0], rest, lt);
      InsertAscending(xs[0], rest, lt);
      assert xs == [xs[0]] + xs[1..];
      assert Elems(xs) == {xs[0]} + Elems(xs[1..]);
      Insert(xs[0], rest, lt)
  }

  lemma ElemsEmpty<T>(s: seq<T>)
    ensures Elems(s) == {} <==> s == []
  {
    if s != [] {
      assert s[0] in Elems(s);
    }
  }

  /** An ascending list is determined by its elements. */
  lemma {:induction false} AscendingUnique<T(!new)>(a: seq<T>, b: seq<T>, lt: (T, T) -> bool)
    requires StrictTotal(lt)
    requires Ascending(a, lt) && Ascending(b, lt)
    requires Elems(a) == Elems(b)
    ensures a == b
  {
    if a != [] {
      assert a[0] in Elems(b);
      assert b != [];
      assert b[0] in Elems(a);
      var i :| 0 <= i < |a| && a[i] == b[0];
      var j :| 0 <= j < |b| && b[j] == a[0];
      assert a[0] == b[0];
      forall k | 0 < k < |a| ensures a[k] != a[0] { assert lt(a[0], a[k]); }
      forall k | 0 < k < |b| ensures b[k] != b[0] { assert lt(b[0], b[k]); }
      assert a == [a[0]] + a[1..] && b == [b[0]] + b[1..];
      assert Elems(a[1..]) == Elems(a) - {a[0]};
      assert Elems(b[1..]) == Elems(b) - {b[0]};
      AscendingUnique(a[1..], b[1..], lt);
    } else {
      ElemsEmpty(b);
    }
  }

  /** Sorting the distinct elements of an ascending list gives the list back. */
  lemma SortDistinctOfAscending<T(!new)>(s: seq<T>, lt: (T, T) -> bool)
    requires StrictTotal(lt) && Ascending(s, lt)
    ensures SortDistinct(s, lt) == s
  {
    AscendingUnique(SortDistinct(s, lt), s, lt);
  }

  /** How often `x` occurs in `s`. */
  function Count<T(==)>(s: seq<T>, x: T): nat {
    multiset(s)[x]
  }

  /**
   * `m` is `s.mode().iloc[0]`: `mode()` lists the most frequent values in ascending
   * order, so `m` is the least of the values that occur most often.
   */
  ghost predicate IsLeastMode<T>(s: seq<T>, lt: (T, T) -> bool, m: T) {
    m in s &&
    forall x :: x in s ==>
      Count(s, x) <= Count(s, m) && (Count(s, x) == Count(s, m) ==> x == m || lt(m, x))
  }

  /** The candidate among `cands` that occurs most often in `s`, ties to the least. */
  function Best<T(==)>(cands: seq<T>, s: seq<T>, lt: (T, T) -> bool): (b: T)
    requires |cands| > 0
    ensures b in cands
  {
    if |cands| == 1 then cands[0]
    else
      var b := Best(cands[1..], s, lt);
      if Count(s, cands[0]) > Count(s, b) || (Count(s, cands[0]) == Count(s, b) && lt(cands[0], b))
      then cands[0] else b
  }

  /** `s.mode().iloc[0]` for a non-empty `s`. */
  function Mode<T(==)>(s: seq<T>, lt: (T, T) -> bool): (m: T)
    requires |s| > 0
    ensures m in s
  {
    Best(s, s, lt)
  }

  lemma {:induction false} BestIsLeastMost<T(!new)>(cands: seq<T>, s: seq<T>, lt: (T, T) -> bool)
    requires |cands| > 0 && StrictTotal(lt)
    ensures var b := Best(cands, s, lt);
      forall x :: x in cands ==>
        Count(s, x) <= Count(s, b) && (Count(s, x) == Count(s, b) ==> x == b || lt(b, x))
  {
    if |cands| > 1 {
      BestIsLeastMost(cands[1..], s, lt);
      assert cands == [cands[0]] + cands[1..];
    }
  }

  /** The mode is the least of the most frequent values. */
  lemma ModeIsLeastMode<T(!new)>(s: seq<T>, lt: (T, T) -> bool)
    requires |s| > 0 && StrictTotal(lt)
    ensures IsLeastMode(s, lt, Mode(s, lt))
  {
    BestIsLeastMost(s, s, lt);
  }

  /** At most one value is the least of the most frequent ones. */
  lemma LeastModeUnique<T(!new)>(s: seq<T>, lt: (T, T) -> bool, m1: T, m2: T)
    requires StrictTotal(lt)
    requires IsLeastMode(s, lt, m1) && IsLeastMode(s, lt, m2)
    ensures m1 == m2
  {
  }

}
