/**
 * The positional change notifications the activity sends its list adapter
 * (`notifyItemInserted`, `notifyItemRangeInserted`, `notifyItemRemoved`),
 * kept as abstract events, and what it means for a sequence of them to
 * describe a change of the list.
 */
module Notifications {
  import opened Optional
  import opened NoteList

  datatype Event =
    | ItemInserted(position: int)
    | ItemRangeInserted(positionStart: int, itemCount: int)
    | ItemRemoved(position: int)

  /** One `ItemRemoved` per position, in the given order. */
  function Removals(ps: seq<int>): (r: seq<Event>)
    ensures |r| == |ps| && forall i :: 0 <= i < |ps| ==> r[i] == ItemRemoved(ps[i])
  {
    if ps == [] then [] else [ItemRemoved(ps[0])] + Removals(ps[1..])
  }

  /**
   * The item count an adapter holding `n` items reaches after the events,
   * or `None` when some event names a position or count that is out of
   * range for the count at that point.
   */
  function CountAfter(n: int, events: seq<Event>): Option<int>
    decreases |events|
  {
    if events == [] then Some(n)
    else
      match events[0]
      case ItemInserted(p) =>
        if 0 <= p <= n then CountAfter(n + 1, events[1..]) else None
      case ItemRangeInserted(p, c) =>
        if 0 <= p <= n && 0 <= c then CountAfter(n + c, events[1..]) else None
      case ItemRemoved(p) =>
        if 0 <= p < n then CountAfter(n - 1, events[1..]) else None
  }

  /**
   * Applying the removal events one after the other to `s`, as an adapter
   * tracking the old list does; `None` when an event is not a removal or
   * names a position outside the list at that point.
   */
  function ReplayRemovals<T>(s: seq<T>, events: seq<Event>): (r: Option<seq<T>>)
    ensures r.Some? ==> |r.value| == |s| - |events|
  {
    if events == [] then Some(s)
    else if events[0].ItemRemoved? && 0 <= events[0].position < |s| then
      ReplayRemovals(RemoveAt(s, events[0].position), events[1..])
    else None
  }

  // ---------------------------------------------------------------------
  // Removing a set of positions at once
  // ---------------------------------------------------------------------

  /** The elements of `s` whose mask entry is false, in order. */
  function Filter<T>(s: seq<T>, mask: seq<bool>): (r: seq<T>)
    requires |mask| == |s|
  {
    if s == [] then [] else (if mask[0] then [] else [s[0]]) + Filter(s[1..], mask[1..])
  }

  lemma {:induction false} FilterNothing<T>(s: seq<T>, mask: seq<bool>)
    requires |mask| == |s| && forall i :: 0 <= i < |mask| ==> !mask[i]
    ensures Filter(s, mask) == s
  {
    if s != [] {
      FilterNothing(s[1..], mask[1..]);
      assert s == [s[0]] + s[1..];
    }
  }

  /** Removing a masked element first and filtering the rest comes to the same. */
  lemma {:induction false} FilterRemoveAt<T>(s: seq<T>, mask: seq<bool>, p: nat)
    requires |mask| == |s| && p < |s| && mask[p]
    ensures Filter(s, mask) == Filter(RemoveAt(s, p), RemoveAt(mask, p))
  {
    var s', m' := RemoveAt(s, p), RemoveAt(mask, p);
    if p == 0 {
      assert s' == s[1..] && m' == mask[1..];
    } else {
      FilterRemoveAt(s[1..], mask[1..], p - 1);
      assert s'[0] == s[0] && m'[0] == mask[0];
      assert s'[1..] == RemoveAt(s[1..], p - 1);
      assert m'[1..] == RemoveAt(mask[1..], p - 1);
    }
  }

  /** The mask of the positions listed in `ps`. */
  function PositionMask(n: nat, ps: seq<int>): (m: seq<bool>)
    ensures |m| == n && forall i :: 0 <= i < n ==> m[i] == (i in ps)
  {
    seq(n, i => i in ps)
  }

  /** Removing the largest listed position from the mask leaves the mask of the rest. */
  lemma PositionMaskAfterRemoval(n: nat, ps: seq<int>)
    requires Decreasing(ps) && ps != [] && 0 <= ps[0] < n
    ensures RemoveAt(PositionMask(n, ps), ps[0]) == PositionMask(n - 1, ps[1..])
  {
    var d, rest := ps[0], ps[1..];
    var m := PositionMask(n, ps);
    forall i | 0 <= i < n - 1 ensures RemoveAt(m, d)[i] == PositionMask(n - 1, rest)[i] {
      if i < d {
        assert i in ps <==> i in rest by {
          if i in ps && i != d { var k :| 0 <= k < |ps| && ps[k] == i; assert k > 0 && rest[k - 1] == i; }
        }
      } else {
        forall k | 0 <= k < |ps| ensures ps[k] != i + 1 {
          if k > 0 { assert ps[0] > ps[k]; }
        }
        forall k | 0 <= k < |rest| ensures rest[k] != i {
          assert rest[k] == ps[k + 1];
        }
      }
    }
  }

  /** Strictly decreasing positions, removed one by one, remove exactly that set. */
  lemma {:induction false} ReplayDecreasingIsFilter<T>(s: seq<T>, ps: seq<int>)
    requires Decreasing(ps) && forall i :: 0 <= i < |ps| ==> 0 <= ps[i] < |s|
    ensures ReplayRemovals(s, Removals(ps)) == Some(Filter(s, PositionMask(|s|, ps)))
  {
    var m := PositionMask(|s|, ps);
    if ps == [] {
      FilterNothing(s, m);
    } else {
      var d := ps[0];
      var rest := ps[1..];
      var s' := RemoveAt(s, d);
      assert Removals(ps)[1..] == Removals(rest);
      forall i | 0 <= i < |rest| ensures 0 <= rest[i] < |s'| {
        assert rest[i] == ps[i + 1] < d;
      }
      ReplayDecreasingIsFilter(s', rest);
      FilterRemoveAt(s, m, d);
      PositionMaskAfterRemoval(|s|, ps);
    }
  }

  /** The mask of first occurrences of the selected values. */
  function FirstOccurrenceMask<T(==)>(s: seq<T>, xs: seq<T>): (m: seq<bool>)
    ensures |m| == |s| && forall i :: 0 <= i < |s| ==> m[i] == (s[i] in xs && IndexOf(s, s[i]) == i)
  {
    seq(|s|, i requires 0 <= i < |s| => s[i] in xs && IndexOf(s, s[i]) == i)
  }

  /** How first positions move when an element before or after them goes. */
  lemma IndexOfAfterRemoveAt<T>(s: seq<T>, p: nat, v: T)
    requires p < |s| && s[p] != v
    ensures var q := IndexOf(s, v);
      IndexOf(RemoveAt(s, p), v) == if q < p then q else q - 1
  {
    var s' := RemoveAt(s, p);
    var q := IndexOf(s, v);
    var q' := IndexOf(s', v);
    if q < 0 {
      forall k | 0 <= k < |s'| ensures s'[k] != v {
        if k < p { assert s'[k] == s[k]; } else { assert s'[k] == s[k + 1]; }
      }
    } else if q < p {
      assert s'[q] == v;
      assert s'[..q] == s[..q];
    } else {
      assert s'[q - 1] == v;
      forall k | 0 <= k < q - 1 ensures s'[k] != v {
        if k < p {
          assert s'[k] == s[..q][k];
        } else {
          assert s'[k] == s[..q][k + 1];
        }
      }
      assert v !in s'[..q - 1];
    }
  }

  /** Taking out the first selected value's first occurrence shifts the mask with it. */
  lemma FirstOccurrenceMaskAfterRemoval<T>(s: seq<T>, xs: seq<T>)
    requires Distinct(xs) && xs != [] && xs[0] in s
    ensures var p := IndexOf(s, xs[0]);
      RemoveAt(FirstOccurrenceMask(s, xs), p) == FirstOccurrenceMask(RemoveAt(s, p), xs[1..])
  {
    var x, rest := xs[0], xs[1..];
    var p := IndexOf(s, x);
    var s' := RemoveAt(s, p);
    var m, m' := FirstOccurrenceMask(s, xs), FirstOccurrenceMask(s', rest);
    assert x !in rest by {
      forall k | 0 <= k < |rest| ensures rest[k] != x { assert rest[k] == xs[k + 1]; }
    }
    forall v | v != x ensures v in xs <==> v in rest {
      assert xs == [x] + rest;
    }
    forall i | 0 <= i < |s'| ensures RemoveAt(m, p)[i] == m'[i] {
      if i < p {
        assert s'[i] == s[i] && s[i] != x by { assert s[..p][i] == s[i]; }
        IndexOfAfterRemoveAt(s, p, s[i]);
      } else {
        assert s'[i] == s[i + 1];
        if s[i + 1] != x {
          IndexOfAfterRemoveAt(s, p, s[i + 1]);
        }
      }
    }
  }

  /** Removing each of distinct, present values in turn removes their first occurrences. */
  lemma {:induction false} RemoveEachIsFilter<T>(s: seq<T>, xs: seq<T>)
    requires Distinct(xs) && forall x :: x in xs ==> x in s
    ensures RemoveEach(s, xs) == Filter(s, FirstOccurrenceMask(s, xs))
  {
    var m := FirstOccurrenceMask(s, xs);
    if xs == [] {
      FilterNothing(s, m);
    } else {
      var x, rest := xs[0], xs[1..];
      assert xs == [x] + rest;
      var p := IndexOf(s, x);
      assert x in s;
      var s' := RemoveAt(s, p);
      assert RemoveEach(s, xs) == RemoveEach(s', rest);
      forall y | y in rest ensures y in s' {
        assert y in xs && y != x;
        IndexOfAfterRemoveAt(s, p, y);
      }
      assert Distinct(rest) by {
        forall i, j | 0 <= i < j < |rest| ensures rest[i] != rest[j] { assert rest[i] == xs[i + 1] && rest[j] == xs[j + 1]; }
      }
      RemoveEachIsFilter(s', rest);
      FilterRemoveAt(s, m, p);
      FirstOccurrenceMaskAfterRemoval(s, xs);
    }
  }

  /** The sorted first positions of values that are all present are valid positions. */
  lemma SortedPositionsInRange<T>(s: seq<T>, xs: seq<T>)
    requires forall x :: x in xs ==> x in s
    ensures forall v :: v in SortDescending(Positions(s, xs)) <==> v in Positions(s, xs)
    ensures forall i :: 0 <= i < |SortDescending(Positions(s, xs))| ==> 0 <= SortDescending(Positions(s, xs))[i] < |s|
  {
    var ps := Positions(s, xs);
    var sorted := SortDescending(ps);
    forall v ensures v in sorted <==> v in ps {
      assert v in sorted <==> v in multiset(sorted);
      assert v in ps <==> v in multiset(ps);
    }
    forall i | 0 <= i < |sorted| ensures 0 <= sorted[i] < |s| {
      assert sorted[i] in ps;
      var k :| 0 <= k < |ps| && ps[k] == sorted[i];
      assert xs[k] in xs;
    }
  }

  /** Marking the listed first positions marks exactly the first occurrences. */
  lemma PositionMaskIsFirstOccurrenceMask<T>(s: seq<T>, xs: seq<T>, sorted: seq<int>)
    requires forall v :: v in sorted <==> v in Positions(s, xs)
    ensures PositionMask(|s|, sorted) == FirstOccurrenceMask(s, xs)
  {
    var ps := Positions(s, xs);
    forall i | 0 <= i < |s| ensures PositionMask(|s|, sorted)[i] == FirstOccurrenceMask(s, xs)[i] {
      if i in ps {
        var k :| 0 <= k < |ps| && ps[k] == i;
        assert s[i] == xs[k] && xs[k] in xs;
      }
      if s[i] in xs && IndexOf(s, s[i]) == i {
        var k :| 0 <= k < |xs| && xs[k] == s[i];
        assert ps[k] == i;
      }
    }
  }

  /**
   * The removal events `onDeleteSelectedNotes` sends describe its change of
   * the list: when the selected notes are distinct values that are all in
   * the list, removing their first positions in descending order from the
   * old list gives exactly the list after each selected note was removed.
   */
  lemma DescendingRemovalsReplayRemoveEach<T>(s: seq<T>, xs: seq<T>)
    requires Distinct(xs) && forall x :: x in xs ==> x in s
    ensures ReplayRemovals(s, Removals(SortDescending(Positions(s, xs)))) == Some(RemoveEach(s, xs))
  {
    var ps := Positions(s, xs);
    var sorted := SortDescending(ps);
    PositionsDistinct(s, xs);
    SortDistinctIsDecreasing(ps);
    SortedPositionsInRange(s, xs);
    ReplayDecreasingIsFilter(s, sorted);
    RemoveEachIsFilter(s, xs);
    PositionMaskIsFirstOccurrenceMask(s, xs, sorted);
  }

  /**
   * Removal events that replay successfully also keep an adapter's item
   * count in range, ending at the new length.
   */
  lemma {:induction false} ReplayedRemovalsCount<T>(s: seq<T>, events: seq<Event>)
    requires ReplayRemovals(s, events).Some?
    ensures CountAfter(|s|, events) == Some(|s| - |events|)
  {
    if events != [] {
      ReplayedRemovalsCount(RemoveAt(s, events[0].position), events[1..]);
    }
  }
}
