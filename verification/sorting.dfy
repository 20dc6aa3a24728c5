/** In-place heapsort and binary search over an array (pintos/lib/stdlib.c).

    Array elements are values of one type; the byte-wise copying of `size` bytes per element is a single
    assignment. Heap positions count from 1, as in the C code. */
module Sorting {
  import opened Wrappers

  /** compare is a strcmp()-style comparison: its sign is antisymmetric and "not greater" is transitive. */
  ghost predicate TotalPreorder<T(!new)>(compare: (T, T) -> int) {
    && (forall a, b {:trigger compare(a, b)} :: (compare(a, b) > 0 <==> compare(b, a) < 0)
                                                && (compare(a, b) == 0 <==> compare(b, a) == 0))
    && (forall a, b, c {:trigger compare(a, b), compare(b, c), compare(a, c)} ::
          compare(a, b) <= 0 && compare(b, c) <= 0 ==> compare(a, c) <= 0)
  }

  ghost predicate Ordered<T>(s: seq<T>, compare: (T, T) -> int) {
    forall i, j {:trigger compare(s[i], s[j])} | 0 <= i < j < |s| :: compare(s[i], s[j]) <= 0
  }

  // ----- the heap, on sequences ----------------------------------------------

  function At<T>(s: seq<T>, i: nat): T
    requires 1 <= i <= |s|
  {
    s[i - 1]
  }

  function Swap<T>(s: seq<T>, i: nat, j: nat): (t: seq<T>)
    requires 1 <= i <= |s| && 1 <= j <= |s|
    ensures |t| == |s|
  {
    s[i - 1 := s[j - 1]][j - 1 := s[i - 1]]
  }

  /** The largest of position i and its children up to cnt. */
  function Largest<T>(s: seq<T>, i: nat, cnt: nat, compare: (T, T) -> int): (max: nat)
    requires 1 <= i <= cnt <= |s|
    ensures max == i || max == 2 * i || max == 2 * i + 1
    ensures max <= cnt
  {
    var m := if 2 * i <= cnt && compare(At(s, 2 * i), At(s, i)) > 0 then 2 * i else i;
    if 2 * i + 1 <= cnt && compare(At(s, 2 * i + 1), At(s, m)) > 0 then 2 * i + 1 else m
  }

  /** "Floating down" the element at position i. */
  function Heapified<T>(s: seq<T>, i: nat, cnt: nat, compare: (T, T) -> int): (t: seq<T>)
    requires 1 <= i <= cnt <= |s|
    ensures |t| == |s|
    decreases cnt - i
  {
    var max := Largest(s, i, cnt, compare);
    if max == i then s else Heapified(Swap(s, i, max), max, cnt, compare)
  }

  /** Every position from lo on dominates its children, except that `hole` need not. */
  ghost predicate HeapBut<T>(s: seq<T>, lo: nat, cnt: nat, hole: nat, compare: (T, T) -> int)
    requires 1 <= lo && cnt <= |s|
  {
    && (forall j | 2 * lo <= j <= cnt && j / 2 != hole :: compare(At(s, j), At(s, j / 2)) <= 0)
    && (forall j | 4 * lo <= j <= cnt && j / 2 == hole :: compare(At(s, j), At(s, j / 2 / 2)) <= 0)
  }

  ghost predicate Heap<T>(s: seq<T>, lo: nat, cnt: nat, compare: (T, T) -> int)
    requires 1 <= lo && cnt <= |s|
  {
    forall j | 2 * lo <= j <= cnt :: compare(At(s, j), At(s, j / 2)) <= 0
  }

  lemma {:induction false} HeapifiedIsHeap<T(!new)>(s: seq<T>, lo: nat, i: nat, cnt: nat, compare: (T, T) -> int)
    requires 1 <= lo <= i <= cnt <= |s| && TotalPreorder(compare) && HeapBut(s, lo, cnt, i, compare)
    ensures Heap(Heapified(s, i, cnt, compare), lo, cnt, compare)
    decreases cnt - i
  {
    var max := Largest(s, i, cnt, compare);
    LargestDominates(s, i, cnt, compare);
    if max != i {
      HoleMoves(s, lo, i, cnt, compare);
      HeapifiedIsHeap(Swap(s, i, max), lo, max, cnt, compare);
    } else {
      forall j | 2 * lo <= j <= cnt ensures compare(At(s, j), At(s, j / 2)) <= 0 {
        if j / 2 == i { assert j == 2 * i || j == 2 * i + 1; }
      }
    }
  }

  lemma LargestDominates<T(!new)>(s: seq<T>, i: nat, cnt: nat, compare: (T, T) -> int)
    requires 1 <= i <= cnt <= |s| && TotalPreorder(compare)
    ensures var max := Largest(s, i, cnt, compare);
            && compare(At(s, i), At(s, max)) <= 0
            && (2 * i <= cnt ==> compare(At(s, 2 * i), At(s, max)) <= 0)
            && (2 * i + 1 <= cnt ==> compare(At(s, 2 * i + 1), At(s, max)) <= 0)
  {
    assert compare(At(s, i), At(s, i)) <= 0;
    if 2 * i <= cnt { assert compare(At(s, 2 * i), At(s, 2 * i)) <= 0; }
    if 2 * i + 1 <= cnt { assert compare(At(s, 2 * i + 1), At(s, 2 * i + 1)) <= 0; }
  }

  lemma HoleMoves<T(!new)>(s: seq<T>, lo: nat, i: nat, cnt: nat, compare: (T, T) -> int)
    requires 1 <= lo <= i <= cnt <= |s| && TotalPreorder(compare) && HeapBut(s, lo, cnt, i, compare)
    requires Largest(s, i, cnt, compare) != i
    ensures var max := Largest(s, i, cnt, compare); HeapBut(Swap(s, i, max), lo, cnt, max, compare)
  {
    var max := Largest(s, i, cnt, compare);
    var t := Swap(s, i, max);
    LargestDominates(s, i, cnt, compare);
    assert max / 2 == i;
    forall j | 2 * lo <= j <= cnt && j / 2 != max ensures compare(At(t, j), At(t, j / 2)) <= 0 {
      SwappedPair(s, lo, i, max, j, cnt, compare);
    }
    forall j | 4 * lo <= j <= cnt && j / 2 == max ensures compare(At(t, j), At(t, j / 2 / 2)) <= 0 {
      assert At(t, j) == At(s, j) && At(t, i) == At(s, max);
    }
  }

  lemma SwappedPair<T(!new)>(s: seq<T>, lo: nat, i: nat, max: nat, j: nat, cnt: nat, compare: (T, T) -> int)
    requires 1 <= lo <= i <= cnt <= |s| && TotalPreorder(compare) && HeapBut(s, lo, cnt, i, compare)
    requires max / 2 == i && max <= cnt && compare(At(s, i), At(s, max)) <= 0
    requires 2 * i <= cnt ==> compare(At(s, 2 * i), At(s, max)) <= 0
    requires 2 * i + 1 <= cnt ==> compare(At(s, 2 * i + 1), At(s, max)) <= 0
    requires 2 * lo <= j <= cnt && j / 2 != max
    ensures var t := Swap(s, i, max); compare(At(t, j), At(t, j / 2)) <= 0
  {
    var t := Swap(s, i, max);
    if j / 2 == i {
      assert At(t, i) == At(s, max);
      assert At(t, j) == if j == max then At(s, i) else At(s, j);
      assert j == 2 * i || j == 2 * i + 1;
    } else if j == i {
      assert At(t, j) == At(s, max) && At(t, j / 2) == At(s, j / 2);
      assert compare(At(s, max), At(s, max / 2 / 2)) <= 0;
    } else {
      assert At(t, j) == At(s, j) && At(t, j / 2) == At(s, j / 2);
    }
  }

  lemma {:induction false} HeapifiedKeeps<T>(s: seq<T>, i: nat, cnt: nat, compare: (T, T) -> int)
    requires 1 <= i <= cnt <= |s|
    ensures var t := Heapified(s, i, cnt, compare);
            multiset(t[..cnt]) == multiset(s[..cnt]) && t[cnt..] == s[cnt..]
    decreases cnt - i
  {
    var max := Largest(s, i, cnt, compare);
    if max != i {
      SwapKeeps(s, i, max, cnt);
      HeapifiedKeeps(Swap(s, i, max), max, cnt, compare);
    }
  }

  lemma SwapKeeps<T>(s: seq<T>, i: nat, j: nat, cnt: nat)
    requires 1 <= i <= cnt <= |s| && 1 <= j <= cnt
    ensures var t := Swap(s, i, j); multiset(t[..cnt]) == multiset(s[..cnt]) && t[cnt..] == s[cnt..]
  {
    assert Swap(s, i, j)[..cnt] == s[..cnt][i - 1 := s[j - 1]][j - 1 := s[i - 1]];
  }

  lemma {:induction false} RootIsLargest<T(!new)>(s: seq<T>, k: nat, cnt: nat, compare: (T, T) -> int)
    requires 1 <= k <= cnt <= |s| && TotalPreorder(compare) && Heap(s, 1, cnt, compare)
    ensures compare(At(s, k), At(s, 1)) <= 0
  {
    if k > 1 {
      RootIsLargest(s, k / 2, cnt, compare);
      assert compare(At(s, k), At(s, k / 2)) <= 0;
    } else {
      assert compare(At(s, 1), At(s, 1)) <= 0;
    }
  }

  // ----- the sort's two phases ------------------------------------------------

  /** After the largest remaining element has gone to position i: positions from i on are in place. */
  ghost predicate Placed<T>(s: seq<T>, i: nat, compare: (T, T) -> int)
    requires i <= |s|
  {
    && Ordered(s[i..], compare)
    && (forall x, y | x in s[..i] && y in s[i..] :: compare(x, y) <= 0)
  }

  lemma PlaceRoot<T(!new)>(s: seq<T>, i: nat, compare: (T, T) -> int)
    requires 2 <= i <= |s| && TotalPreorder(compare) && Heap(s, 1, i, compare) && Placed(s, i, compare)
    ensures var t := Swap(s, 1, i);
            Placed(t, i - 1, compare) && HeapBut(t, 1, i - 1, 1, compare) && multiset(t) == multiset(s)
  {
    var t := Swap(s, 1, i);
    var root := At(s, 1);
    assert t[i - 1..] == [root] + s[i..];
    forall x | x in s[..i] ensures compare(x, root) <= 0 {
      var k :| 0 <= k < i && s[k] == x;
      RootIsLargest(s, k + 1, i, compare);
    }
    assert root in s[..i] by { assert s[..i][0] == root; }
    forall x | x in t[..i - 1] ensures x in s[..i] {
      var k :| 0 <= k < i - 1 && t[k] == x;
      assert x == s[..i][if k == 0 then i - 1 else k];
    }
    OrderedCons(root, s[i..], compare);
    forall j | 2 <= j <= i - 1 && j / 2 != 1 ensures compare(At(t, j), At(t, j / 2)) <= 0 {
      assert At(t, j) == At(s, j) && At(t, j / 2) == At(s, j / 2);
    }
  }

  lemma OrderedCons<T>(root: T, s: seq<T>, compare: (T, T) -> int)
    requires Ordered(s, compare) && forall y | y in s :: compare(root, y) <= 0
    ensures Ordered([root] + s, compare)
  {
    var t := [root] + s;
    forall a: nat, b: nat | a < b < |t| ensures compare(t[a], t[b]) <= 0 {
      assert t[b] == s[b - 1] && s[b - 1] in s;
      assert a > 0 ==> t[a] == s[a - 1] && compare(s[a - 1], s[b - 1]) <= 0;
    }
  }

  /** One round of the second phase: the root goes behind the heap and the heap is repaired. */
  lemma SortRound<T(!new)>(s: seq<T>, i: nat, compare: (T, T) -> int)
    requires 2 <= i <= |s| && TotalPreorder(compare) && Heap(s, 1, i, compare) && Placed(s, i, compare)
    ensures var t := Heapified(Swap(s, 1, i), 1, i - 1, compare);
            Heap(t, 1, i - 1, compare) && Placed(t, i - 1, compare) && multiset(t) == multiset(s)
  {
    var u := Swap(s, 1, i);
    PlaceRoot(s, i, compare);
    HeapifiedIsHeap(u, 1, 1, i - 1, compare);
    HeapifiedKeeps(u, 1, i - 1, compare);
    PlacedPermuted(u, Heapified(u, 1, i - 1, compare), i - 1, compare);
  }

  /** One round of the first phase. */
  lemma BuildRound<T(!new)>(s: seq<T>, i: nat, compare: (T, T) -> int)
    requires 1 <= i <= |s| && TotalPreorder(compare) && Heap(s, i + 1, |s|, compare)
    ensures var t := Heapified(s, i, |s|, compare); Heap(t, i, |s|, compare) && multiset(t) == multiset(s)
  {
    HeapifiedIsHeap(s, i, i, |s|, compare);
    HeapifiedKeeps(s, i, |s|, compare);
    var t := Heapified(s, i, |s|, compare);
    assert t[..|s|] == t && s[..|s|] == s;
  }

  lemma PlacedPermuted<T>(s: seq<T>, t: seq<T>, i: nat, compare: (T, T) -> int)
    requires i <= |s| == |t| && Placed(s, i, compare) && multiset(t[..i]) == multiset(s[..i]) && t[i..] == s[i..]
    ensures Placed(t, i, compare) && multiset(t) == multiset(s)
  {
    assert t == t[..i] + t[i..] && s == s[..i] + s[i..];
    forall x | x in t[..i] ensures x in s[..i] {
      assert x in multiset(t[..i]);
    }
  }

  lemma PlacedIsOrdered<T>(s: seq<T>, compare: (T, T) -> int)
    requires |s| >= 1 && Placed(s, 1, compare)
    ensures Ordered(s, compare)
  {
    forall a, b | 0 <= a < b < |s| ensures compare(s[a], s[b]) <= 0 {
      if a == 0 {
        assert s[..1][0] == s[0] && s[1..][b - 1] == s[b];
      } else {
        assert compare(s[1..][a - 1], s[1..][b - 1]) <= 0;
      }
    }
  }

  // ----- the algorithms --------------------------------------------------------

  method DoSwap<T>(a: array<T>, i: nat, j: nat)
    requires 1 <= i <= a.Length && 1 <= j <= a.Length
    modifies a
    ensures a[..] == Swap(old(a[..]), i, j)
  {
    var t := a[i - 1];
    a[i - 1] := a[j - 1];
    a[j - 1] := t;
  }

  method Heapify<T>(a: array<T>, start: nat, cnt: nat, compare: (T, T) -> int)
    requires 1 <= start <= cnt <= a.Length
    modifies a
    ensures a[..] == Heapified(old(a[..]), start, cnt, compare)
  {
    var i := start;
    while true
      invariant start <= i <= cnt
      invariant Heapified(a[..], i, cnt, compare) == Heapified(old(a[..]), start, cnt, compare)
      decreases cnt - i
    {
      var left := 2 * i;
      var right := 2 * i + 1;
      var max := i;
      if left <= cnt && compare(a[left - 1], a[max - 1]) > 0 {
        max := left;
      }
      if right <= cnt && compare(a[right - 1], a[max - 1]) > 0 {
        max := right;
      }
      assert max == Largest(a[..], i, cnt, compare);
      if max == i {
        break;
      }
      DoSwap(a, i, max);
      i := max;
    }
  }

  /** Heapsort: an ordered permutation, in place. */
  method Sort<T(!new)>(a: array<T>, compare: (T, T) -> int)
    requires TotalPreorder(compare)
    modifies a
    ensures Ordered(a[..], compare)
    ensures multiset(a[..]) == multiset(old(a[..]))
  {
    var cnt := a.Length;
    var i := cnt / 2;
    while i > 0
      invariant 0 <= i <= cnt / 2
      invariant Heap(a[..], i + 1, cnt, compare)
      invariant multiset(a[..]) == multiset(old(a[..]))
    {
      BuildRound(a[..], i, compare);
      Heapify(a, i, cnt, compare);
      i := i - 1;
    }

    i := cnt;
    while i > 1
      invariant 0 <= i <= cnt && (cnt > 0 ==> i >= 1)
      invariant Heap(a[..], 1, i, compare) && Placed(a[..], i, compare)
      invariant multiset(a[..]) == multiset(old(a[..]))
    {
      SortRound(a[..], i, compare);
      DoSwap(a, 1, i);
      Heapify(a, 1, i - 1, compare);
      i := i - 1;
    }
    if cnt > 0 {
      PlacedIsOrdered(a[..], compare);
    }
  }

  /** Returns a matching element exactly if there is one. */
  method BinarySearch<T(!new)>(key: T, a: array<T>, compare: (T, T) -> int) returns (r: Option<nat>)
    requires TotalPreorder(compare) && Ordered(a[..], compare)
    ensures r.Some? <==> exists k :: 0 <= k < a.Length && compare(key, a[k]) == 0
    ensures r.Some? ==> r.value < a.Length && compare(key, a[r.value]) == 0
  {
    var first, last := 0, a.Length;
    while first < last
      invariant 0 <= first <= last <= a.Length
      invariant forall k | 0 <= k < first :: compare(key, a[k]) > 0
      invariant forall k | last <= k < a.Length :: compare(key, a[k]) < 0
    {
      var range := last - first;
      var middle := first + range / 2;
      var cmp := compare(key, a[middle]);
      Discard(a[..], key, middle, compare);
      if cmp < 0 {
        last := middle;
      } else if cmp > 0 {
        first := middle + 1;
      } else {
        return Some(middle);
      }
    }
    return None;
  }

  lemma Discard<T(!new)>(s: seq<T>, key: T, middle: nat, compare: (T, T) -> int)
    requires TotalPreorder(compare) && Ordered(s, compare) && middle < |s|
    ensures compare(key, s[middle]) < 0 ==> forall k | middle <= k < |s| :: compare(key, s[k]) < 0
    ensures compare(key, s[middle]) > 0 ==> forall k | 0 <= k <= middle :: compare(key, s[k]) > 0
  {
    forall k | middle < k < |s| && compare(key, s[middle]) < 0 ensures compare(key, s[k]) < 0 {
      assert compare(s[middle], s[k]) <= 0 && compare(s[middle], key) > 0;
      var back := compare(s[k], key);
    }
    forall k | 0 <= k < middle && compare(key, s[middle]) > 0 ensures compare(key, s[k]) > 0 {
      assert compare(s[k], s[middle]) <= 0;
      var direct := compare(key, s[k]);
    }
  }
}
