/**
 * The Kotlin `MutableList` and `List` operations the activity applies to
 * its list of notes: `indexOf`, `remove(element)`, `removeAt`, and
 * `sortedDescending` on the positions it computes. Element lookups are by
 * value (`==`), which for notes is structural equality.
 */
module NoteList {

  /** No value occurs twice. */
  predicate Distinct<T(==)>(s: seq<T>) {
    forall i, j :: 0 <= i < j < |s| ==> s[i] != s[j]
  }

  /** `indexOf(x)`: the position of the first element equal to `x`, or -1. */
  function IndexOf<T(==)>(s: seq<T>, x: T): (r: int)
    ensures -1 <= r < |s|
    ensures r == -1 <==> x !in s
    ensures 0 <= r ==> s[r] == x && x !in s[..r]
  {
    if s == [] then -1
    else if s[0] == x then 0
    else
      var k := IndexOf(s[1..], x);
      if k < 0 then -1
      else
        assert s[..k + 1] == [s[0]] + s[1..][..k];
        k + 1
  }

  /** `removeAt(p)`: the list without its element at position `p`. */
  function RemoveAt<T>(s: seq<T>, p: nat): (r: seq<T>)
    requires p < |s|
    ensures |r| == |s| - 1
    ensures forall i :: 0 <= i < p ==> r[i] == s[i]
    ensures forall i :: p <= i < |r| ==> r[i] == s[i + 1]
  {
    s[..p] + s[p + 1..]
  }

  lemma RemoveAtMultiset<T>(s: seq<T>, p: nat)
    requires p < |s|
    ensures multiset(RemoveAt(s, p)) == multiset(s) - multiset{s[p]}
  {
    assert s == s[..p] + [s[p]] + s[p + 1..];
  }

  /**
   * `remove(x)`: the first element equal to `x` is taken out and the order
   * of the rest is kept; a list without `x` is left as it is.
   */
  function RemoveFirst<T(==)>(s: seq<T>, x: T): (r: seq<T>)
    ensures multiset(r) == multiset(s) - multiset{x}
    ensures |r| == if x in s then |s| - 1 else |s|
    ensures x in s ==> r == RemoveAt(s, IndexOf(s, x))
    ensures x !in s ==> r == s
  {
    var p := IndexOf(s, x);
    if p < 0 then s
    else
      RemoveAtMultiset(s, p);
      RemoveAt(s, p)
  }

  /** `xs.forEach { remove(it) }`: each value's first occurrence removed, in turn. */
  function RemoveEach<T(==)>(s: seq<T>, xs: seq<T>): (r: seq<T>)
    ensures multiset(r) == multiset(s) - multiset(xs)
  {
    if xs == [] then s
    else
      assert xs == [xs[0]] + xs[1..];
      RemoveEach(RemoveFirst(s, xs[0]), xs[1..])
  }

  /** `xs.map { s.indexOf(it) }`. */
  function Positions<T(==)>(s: seq<T>, xs: seq<T>): (r: seq<int>)
    ensures |r| == |xs| && forall i :: 0 <= i < |xs| ==> r[i] == IndexOf(s, xs[i])
  {
    if xs == [] then [] else [IndexOf(s, xs[0])] + Positions(s, xs[1..])
  }

  /** Distinct values that all occur in the list sit at distinct first positions. */
  lemma PositionsDistinct<T>(s: seq<T>, xs: seq<T>)
    requires Distinct(xs) && forall x :: x in xs ==> x in s
    ensures Distinct(Positions(s, xs))
  {
    var ps := Positions(s, xs);
    forall i, j | 0 <= i < j < |ps| ensures ps[i] != ps[j] {
      assert xs[i] in xs && xs[j] in xs;
    }
  }

  // ---------------------------------------------------------------------
  // sortedDescending
  // ---------------------------------------------------------------------

  predicate NonIncreasing(s: seq<int>) {
    forall i, j :: 0 <= i < j < |s| ==> s[i] >= s[j]
  }

  predicate Decreasing(s: seq<int>) {
    forall i, j :: 0 <= i < j < |s| ==> s[i] > s[j]
  }

  /** `x` placed before the first element it is not smaller than. */
  function InsertDescending(x: int, s: seq<int>): (r: seq<int>)
    ensures multiset(r) == multiset(s) + multiset{x}
    ensures forall y :: y in r <==> y == x || y in s
  {
    if s == [] || x >= s[0] then [x] + s
    else
      assert s == [s[0]] + s[1..];
      [s[0]] + InsertDescending(x, s[1..])
  }

  lemma {:induction false} InsertDescendingOrdered(x: int, s: seq<int>)
    requires NonIncreasing(s)
    ensures NonIncreasing(InsertDescending(x, s))
  {
    if s != [] && x < s[0] {
      var t := InsertDescending(x, s[1..]);
      InsertDescendingOrdered(x, s[1..]);
      forall j | 0 <= j < |t| ensures t[j] <= s[0] {
        assert t[j] in t;
        if t[j] != x { var k :| 0 <= k < |s[1..]| && s[1..][k] == t[j]; assert s[k + 1] == t[j]; }
      }
    }
  }

  /** Inserting a new value into a strictly decreasing sequence keeps it strictly decreasing. */
  lemma {:induction false} InsertDescendingStrict(x: int, s: seq<int>)
    requires Decreasing(s) && x !in s
    ensures Decreasing(InsertDescending(x, s))
  {
    if s != [] && x < s[0] {
      var t := InsertDescending(x, s[1..]);
      assert x !in s[1..];
      InsertDescendingStrict(x, s[1..]);
      forall j | 0 <= j < |t| ensures t[j] < s[0] {
        assert t[j] in t;
        if t[j] != x { var k :| 0 <= k < |s[1..]| && s[1..][k] == t[j]; assert s[k + 1] == t[j]; }
      }
    }
  }

  /** `sortedDescending()`: the same values, largest first. */
  function SortDescending(s: seq<int>): (r: seq<int>)
    ensures NonIncreasing(r)
    ensures multiset(r) == multiset(s)
  {
    if s == [] then []
    else
      assert s == [s[0]] + s[1..];
      InsertDescendingOrdered(s[0], SortDescending(s[1..]));
      InsertDescending(s[0], SortDescending(s[1..]))
  }

  /** Sorting distinct values leaves no ties: the order is strictly decreasing. */
  lemma {:induction false} SortDistinctIsDecreasing(s: seq<int>)
    requires Distinct(s)
    ensures Decreasing(SortDescending(s))
  {
    if s != [] {
      assert s == [s[0]] + s[1..];
      SortDistinctIsDecreasing(s[1..]);
      assert s[0] !in multiset(s[1..]);
      assert s[0] !in SortDescending(s[1..]) by {
        assert multiset(SortDescending(s[1..])) == multiset(s[1..]);
      }
      InsertDescendingStrict(s[0], SortDescending(s[1..]));
    }
  }
}
