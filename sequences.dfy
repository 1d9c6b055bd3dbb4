/**
 * The two array operations both pages apply to their task lists.
 *
 * `Array.prototype.filter(keep)`: the elements that pass, in their order.
 *
 * `Array.prototype.sort(cmp)`: the result is ordered by the comparator and,
 * since the sort is stable, elements the comparator ranks equal keep their
 * input order. A comparator is given as `le`, where `le(a, b)` means
 * `cmp(a, b) <= 0`: `a` may stay in front of `b`.
 */
module Sequences {

  // ---------------------------------------------------------------------------
  // filter
  // ---------------------------------------------------------------------------

  /** r is s with some elements left out and the rest in their order. */
  ghost predicate IsSubsequence<T>(r: seq<T>, s: seq<T>) {
    r == [] || (s != [] && ((r[0] == s[0] && IsSubsequence(r[1..], s[1..])) || IsSubsequence(r, s[1..])))
  }

  /** `s.filter(keep)`: each passing element as often as it occurs in s, in order. */
  function Filter<T>(s: seq<T>, keep: T -> bool): (r: seq<T>)
    ensures IsSubsequence(r, s)
    ensures forall i :: 0 <= i < |r| ==> r[i] in s && keep(r[i])
    ensures forall i :: 0 <= i < |s| && keep(s[i]) ==> s[i] in r
    ensures (forall i :: 0 <= i < |s| ==> keep(s[i])) ==> r == s
  {
    if s == [] then []
    else
      var rest := Filter(s[1..], keep);
      assert forall i :: 1 <= i < |s| ==> s[i] == s[1..][i - 1];
      if keep(s[0]) then [s[0]] + rest else rest
  }

  /** `filter` keeps every passing element as often as it occurs, and no other. */
  lemma {:induction false} FilterCount<T>(s: seq<T>, keep: T -> bool, x: T)
    ensures multiset(Filter(s, keep))[x] == if keep(x) then multiset(s)[x] else 0
  {
    if s != [] {
      FilterCount(s[1..], keep, x);
      assert s == [s[0]] + s[1..];
    }
  }

  /** FilterCount for every element of s at once. */
  lemma FilterCounts<T>(s: seq<T>, keep: T -> bool)
    ensures forall i :: 0 <= i < |s| ==>
              multiset(Filter(s, keep))[s[i]] == if keep(s[i]) then multiset(s)[s[i]] else 0
  {
    forall i | 0 <= i < |s| {
      FilterCount(s, keep, s[i]);
    }
  }

  /** Filtering depends only on what the test says about the elements present. */
  lemma {:induction false} FilterSameTest<T>(s: seq<T>, keep1: T -> bool, keep2: T -> bool)
    requires forall i :: 0 <= i < |s| ==> keep1(s[i]) == keep2(s[i])
    ensures Filter(s, keep1) == Filter(s, keep2)
  {
    if s != [] {
      FilterSameTest(s[1..], keep1, keep2);
    }
  }

  // ---------------------------------------------------------------------------
  // sort
  // ---------------------------------------------------------------------------

  ghost predicate IsTransitive<T(!new)>(le: (T, T) -> bool) {
    forall a, b, c :: le(a, b) && le(b, c) ==> le(a, c)
  }

  /** What `sort` asks of a comparator: it is consistent, i.e. a total preorder. */
  ghost predicate IsTotalPreorder<T(!new)>(le: (T, T) -> bool) {
    (forall a, b :: le(a, b) || le(b, a)) && IsTransitive(le)
  }

  predicate Sorted<T>(s: seq<T>, le: (T, T) -> bool) {
    forall i, j :: 0 <= i < j < |s| ==> le(s[i], s[j])
  }

  /** The comparator ranks a and b equal. */
  predicate Equiv<T>(le: (T, T) -> bool, a: T, b: T) {
    le(a, b) && le(b, a)
  }

  /**
   * Puts x behind the last element of s that may stay in front of it,
   * scanning from the right, as one step of an insertion sort does.
   */
  function Insert<T>(s: seq<T>, x: T, le: (T, T) -> bool): (r: seq<T>)
    ensures multiset(r) == multiset(s) + multiset{x}
  {
    if s == [] || le(s[|s| - 1], x) then s + [x]
    else
      assert s == s[..|s| - 1] + [s[|s| - 1]];
      Insert(s[..|s| - 1], x, le) + [s[|s| - 1]]
  }

  /** Stable insertion sort: the reference definition of `sort` with comparator `le`. */
  function Sort<T>(s: seq<T>, le: (T, T) -> bool): (r: seq<T>)
    ensures multiset(r) == multiset(s)
    ensures |r| == |s|
  {
    if s == [] then []
    else
      assert s == s[..|s| - 1] + [s[|s| - 1]];
      Insert(Sort(s[..|s| - 1], le), s[|s| - 1], le)
  }

  /** The elements of s that le ranks equal to y, in their order in s. */
  function Peers<T>(s: seq<T>, y: T, le: (T, T) -> bool): seq<T> {
    if s == [] then []
    else Peers(s[..|s| - 1], y, le) + (if Equiv(le, s[|s| - 1], y) then [s[|s| - 1]] else [])
  }

  // ---------------------------------------------------------------------------
  // The result is ordered
  // ---------------------------------------------------------------------------

  lemma {:induction false} InsertSorted<T(!new)>(s: seq<T>, x: T, le: (T, T) -> bool)
    requires IsTotalPreorder(le) && Sorted(s, le)
    ensures Sorted(Insert(s, x, le), le)
  {
    if s == [] || le(s[|s| - 1], x) {
      forall i | 0 <= i < |s| ensures le(s[i], x) {
        if i < |s| - 1 {
          assert le(s[i], s[|s| - 1]);
        }
      }
    } else {
      var init, last := s[..|s| - 1], s[|s| - 1];
      assert Sorted(init, le);
      InsertSorted(init, x, le);
      var r := Insert(init, x, le);
      assert le(x, last);
      forall i | 0 <= i < |r| ensures le(r[i], last) {
        assert r[i] in multiset(r);
        if r[i] != x {
          assert r[i] in multiset(init);
          var j :| 0 <= j < |init| && init[j] == r[i];
          assert le(s[j], s[|s| - 1]);
        }
      }
    }
  }

  /** `sort` with a consistent comparator leaves the elements in comparator order. */
  lemma {:induction false} SortSorted<T(!new)>(s: seq<T>, le: (T, T) -> bool)
    requires IsTotalPreorder(le)
    ensures Sorted(Sort(s, le), le)
  {
    if s != [] {
      SortSorted(s[..|s| - 1], le);
      InsertSorted(Sort(s[..|s| - 1], le), s[|s| - 1], le);
    }
  }

  /** Sorting a sequence that is already in order changes nothing. */
  lemma {:induction false} SortOfSorted<T>(s: seq<T>, le: (T, T) -> bool)
    requires Sorted(s, le)
    ensures Sort(s, le) == s
  {
    if s != [] {
      var init, last := s[..|s| - 1], s[|s| - 1];
      assert Sorted(init, le);
      SortOfSorted(init, le);
      assert init == [] || le(init[|init| - 1], last);
      calc {
        Sort(s, le);
        Insert(Sort(init, le), last, le);
        Insert(init, last, le);
        init + [last];
        s;
      }
    }
  }

  /** Sorting twice is sorting once. */
  lemma SortIdempotent<T(!new)>(s: seq<T>, le: (T, T) -> bool)
    requires IsTotalPreorder(le)
    ensures Sort(Sort(s, le), le) == Sort(s, le)
  {
    SortSorted(s, le);
    SortOfSorted(Sort(s, le), le);
  }

  // ---------------------------------------------------------------------------
  // The sort is stable
  // ---------------------------------------------------------------------------

  lemma {:induction false} PeersAppend<T>(a: seq<T>, b: seq<T>, y: T, le: (T, T) -> bool)
    ensures Peers(a + b, y, le) == Peers(a, y, le) + Peers(b, y, le)
  {
    if b != [] {
      assert (a + b)[..|a + b| - 1] == a + b[..|b| - 1];
      PeersAppend(a, b[..|b| - 1], y, le);
    } else {
      assert a + b == a;
    }
  }

  lemma PeersSingle<T>(x: T, y: T, le: (T, T) -> bool)
    ensures Peers([x], y, le) == if Equiv(le, x, y) then [x] else []
  {
    assert [x][..0] == [];
  }

  /** When x ranks equal to y, every element of s that ranks equal to y may stay in front of x. */
  predicate PeersBefore<T>(s: seq<T>, x: T, y: T, le: (T, T) -> bool) {
    Equiv(le, x, y) ==> forall i :: 0 <= i < |s| && Equiv(le, s[i], y) ==> le(s[i], x)
  }

  /** Appending `last` behind x keeps the peers of y in order when x and `last` are not both peers of y. */
  lemma PeersAppendBehind<T>(inserted: seq<T>, init: seq<T>, x: T, last: T, y: T, le: (T, T) -> bool)
    requires !(Equiv(le, x, y) && Equiv(le, last, y))
    requires Peers(inserted, y, le) == Peers(init, y, le) + Peers([x], y, le)
    ensures Peers(inserted + [last], y, le) == Peers(init + [last], y, le) + Peers([x], y, le)
  {
    PeersAppend(inserted, [last], y, le);
    PeersAppend(init, [last], y, le);
    PeersSingle(last, y, le);
    PeersSingle(x, y, le);
    var pi, pn, px, pl := Peers(inserted, y, le), Peers(init, y, le), Peers([x], y, le), Peers([last], y, le);
    assert Peers(inserted + [last], y, le) == pi + pl;
    assert Peers(init + [last], y, le) == pn + pl;
    assert pi == pn + px;
    if Equiv(le, x, y) {
      assert pl == [];
      assert pi + pl == pi;
      assert pn + pl == pn;
    } else {
      assert px == [];
      assert pi == pn;
      assert pn + pl + px == pn + pl;
    }
  }

  /** Inserting x adds it behind the elements of s that rank equal to it. */
  lemma {:induction false} InsertPeers<T>(s: seq<T>, x: T, y: T, le: (T, T) -> bool)
    requires PeersBefore(s, x, y, le)
    ensures Peers(Insert(s, x, le), y, le) == Peers(s, y, le) + Peers([x], y, le)
  {
    if s == [] || le(s[|s| - 1], x) {
      PeersAppend(s, [x], y, le);
    } else {
      var init, last := s[..|s| - 1], s[|s| - 1];
      assert init + [last] == s;
      assert PeersBefore(init, x, y, le) by {
        forall i | 0 <= i < |init| ensures init[i] == s[i] { }
      }
      InsertPeers(init, x, y, le);
      assert !(Equiv(le, x, y) && Equiv(le, last, y)) by {
        assert s[|s| - 1] == last;
      }
      PeersAppendBehind(Insert(init, x, le), init, x, last, y, le);
    }
  }

  /**
   * Stability: for every y, the elements ranked equal to y come out in the
   * order they went in.
   */
  lemma {:induction false} SortStable<T(!new)>(s: seq<T>, y: T, le: (T, T) -> bool)
    requires IsTransitive(le)
    ensures Peers(Sort(s, le), y, le) == Peers(s, y, le)
  {
    if s != [] {
      var init, last := s[..|s| - 1], s[|s| - 1];
      var sorted := Sort(init, le);
      assert init + [last] == s;
      SortStable(init, y, le);
      forall i | 0 <= i < |sorted| && Equiv(le, last, y) && Equiv(le, sorted[i], y)
        ensures le(sorted[i], last)
      {
        assert le(sorted[i], y) && le(y, last);
      }
      InsertPeers(sorted, last, y, le);
      PeersAppend(init, [last], y, le);
      calc {
        Peers(Sort(s, le), y, le);
        Peers(Insert(sorted, last, le), y, le);
        Peers(sorted, y, le) + Peers([last], y, le);
        Peers(init, y, le) + Peers([last], y, le);
        Peers(s, y, le);
      }
    }
  }

  // ---------------------------------------------------------------------------
  // In place
  // ---------------------------------------------------------------------------

  /** Putting x at j in all but the last element, then appending the last, is putting x at j. */
  lemma PlaceBeforeLast<T>(s: seq<T>, j: nat, x: T)
    requires j < |s|
    ensures s[..|s| - 1][..j] + [x] + s[..|s| - 1][j..] + [s[|s| - 1]] == s[..j] + [x] + s[j..]
  {
    var init, last := s[..|s| - 1], s[|s| - 1];
    assert init[..j] == s[..j] && init[j..] + [last] == s[j..];
    assert s[..j] + [x] + init[j..] + [last] == s[..j] + [x] + (init[j..] + [last]);
  }

  /**
   * `Insert` puts x at j when the element before j may stay in front of x
   * and every element from j on must follow it.
   */
  lemma {:induction false} InsertAt<T>(s: seq<T>, j: nat, x: T, le: (T, T) -> bool)
    requires j <= |s| && (j == 0 || le(s[j - 1], x))
    requires forall k :: j <= k < |s| ==> !le(s[k], x)
    ensures Insert(s, x, le) == s[..j] + [x] + s[j..]
    decreases |s|
  {
    if j == |s| {
      assert s[..j] == s && s[j..] == [];
    } else {
      var init := s[..|s| - 1];
      assert !le(s[|s| - 1], x);
      InsertAt(init, j, x, le);
      PlaceBeforeLast(s, j, x);
    }
  }

  /** The array contents after the shift: sorted[..j], then x, then sorted[j..]. */
  lemma ShiftedIsInserted<T>(a: seq<T>, sorted: seq<T>, j: nat, x: T)
    requires j <= |sorted| < |a|
    requires forall k :: 0 <= k < j ==> a[k] == sorted[k]
    requires a[j] == x
    requires forall k :: j < k <= |sorted| ==> a[k] == sorted[k - 1]
    ensures a[..|sorted| + 1] == sorted[..j] + [x] + sorted[j..]
  {
    var r := sorted[..j] + [x] + sorted[j..];
    forall k | 0 <= k <= |sorted| ensures a[k] == r[k] {
      if k < j {
        assert r[k] == sorted[k];
      } else if j < k {
        assert r[k] == sorted[k - 1];
      }
    }
  }

  /** Sort of a prefix one element longer: insert that element into the sorted prefix. */
  lemma SortPrefix<T>(s: seq<T>, i: nat, le: (T, T) -> bool)
    requires i < |s|
    ensures Sort(s[..i + 1], le) == Insert(Sort(s[..i], le), s[i], le)
  {
    assert s[..i + 1][..i] == s[..i];
  }

  /**
   * One step of insertion sort: a[..i] is in order; shifts the elements that
   * must follow a[i] one place right and drops a[i] into the gap.
   */
  method InsertInPlace<T>(a: array<T>, i: nat, le: (T, T) -> bool)
    requires i < a.Length
    modifies a
    ensures a[..i + 1] == Insert(old(a[..i]), old(a[i]), le)
    ensures forall k :: i < k < a.Length ==> a[k] == old(a[k])
  {
    ghost var sorted := a[..i];
    var x := a[i];
    var j := i;
    while j > 0 && !le(a[j - 1], x)
      invariant 0 <= j <= i
      invariant forall k :: 0 <= k < j ==> a[k] == sorted[k]
      invariant forall k :: j < k <= i ==> a[k] == sorted[k - 1]
      invariant forall k :: i < k < a.Length ==> a[k] == old(a[k])
      invariant forall k :: j <= k < i ==> !le(sorted[k], x)
    {
      a[j] := a[j - 1];
      j := j - 1;
    }
    a[j] := x;
    InsertAt(sorted, j, x, le);
    ShiftedIsInserted(a[..], sorted, j, x);
  }

  /** Insertion sort of an array in place; the result is exactly `Sort`. */
  method InsertionSort<T>(a: array<T>, le: (T, T) -> bool)
    modifies a
    ensures a[..] == Sort(old(a[..]), le)
  {
    ghost var orig := a[..];
    var i := 0;
    while i < a.Length
      invariant 0 <= i <= a.Length
      invariant a[..i] == Sort(orig[..i], le)
      invariant forall k :: i <= k < a.Length ==> a[k] == orig[k]
    {
      SortPrefix(orig, i, le);
      InsertInPlace(a, i, le);
      i := i + 1;
    }
    assert a[..] == a[..a.Length];
    assert orig == orig[..a.Length];
  }
}
