/** Orderings on sequences: what a stable sort and an ordered insertion promise, for any strict weak order. */
module Orderings {

  ghost function Elements<E>(s: seq<E>): set<E> { set x | x in s }

  /** `less` is a strict weak order on S: asymmetric, and "not greater" is transitive. */
  ghost predicate StrictWeak<E>(S: set<E>, less: (E, E) -> bool) {
    && (forall a, b {:trigger less(a, b)} | a in S && b in S :: less(a, b) ==> !less(b, a))
    && (forall a, b, c {:trigger less(b, a), less(c, b), less(c, a)} | a in S && b in S && c in S ::
          !less(b, a) && !less(c, b) ==> !less(c, a))
  }

  ghost predicate Sorted<E>(s: seq<E>, less: (E, E) -> bool) {
    forall i, j {:trigger less(s[j], s[i])} | 0 <= i < j < |s| :: !less(s[j], s[i])
  }

  ghost predicate DescentAt<E>(s: seq<E>, i: int, less: (E, E) -> bool) {
    0 < i < |s| && less(s[i], s[i - 1])
  }

  /** The same, said of neighbours only. */
  ghost predicate NoDescent<E>(s: seq<E>, less: (E, E) -> bool) {
    forall i :: !DescentAt(s, i, less)
  }

  ghost predicate Distinct<E>(s: seq<E>) {
    forall i, j | 0 <= i < j < |s| :: s[i] != s[j]
  }

  ghost predicate Precedes<E>(s: seq<E>, a: E, b: E) {
    exists i, j :: 0 <= i < j < |s| && s[i] == a && s[j] == b
  }

  /** Whatever precedes an element that is not less than it still precedes it in t. */
  ghost predicate Stable<E>(s: seq<E>, t: seq<E>, less: (E, E) -> bool) {
    forall i, j {:trigger Precedes(t, s[i], s[j])} | 0 <= i < j < |s| && !less(s[j], s[i]) :: Precedes(t, s[i], s[j])
  }

  lemma StableTransitive<E>(s: seq<E>, t: seq<E>, u: seq<E>, less: (E, E) -> bool)
    requires Stable(s, t, less) && Stable(t, u, less)
    ensures Stable(s, u, less)
  {
    forall i, j | 0 <= i < j < |s| && !less(s[j], s[i]) ensures Precedes(u, s[i], s[j]) {
      assert Precedes(t, s[i], s[j]);
      var k, l :| 0 <= k < l < |t| && t[k] == s[i] && t[l] == s[j];
      assert Precedes(u, t[k], t[l]);
    }
  }

  lemma {:induction false} NoDescentIsSorted<E>(s: seq<E>, less: (E, E) -> bool)
    requires StrictWeak(Elements(s), less) && NoDescent(s, less)
    ensures Sorted(s, less)
  {
    if |s| > 1 {
      var n := |s| - 1;
      var p := s[..n];
      assert StrictWeak(Elements(p), less);
      forall i ensures !DescentAt(p, i, less) {
        assert !DescentAt(s, i, less);
      }
      NoDescentIsSorted(p, less);
      assert !DescentAt(s, n, less);
      forall i | 0 <= i < n ensures !less(s[n], s[i]) {
        assert s[i] in s && s[n - 1] in s && s[n] in s;
        assert p[i] == s[i] && p[n - 1] == s[n - 1];
        assert i < n - 1 ==> !less(p[n - 1], p[i]);
      }
      forall i, j | 0 <= i < j < |s| ensures !less(s[j], s[i]) {
        assert j < n ==> s[i] == p[i] && s[j] == p[j];
      }
    }
  }

  /** A sorted, stable rearrangement is unique. */
  lemma StableSortUnique<E>(s: seq<E>, t: seq<E>, u: seq<E>, less: (E, E) -> bool)
    requires Distinct(s) && StrictWeak(Elements(s), less)
    requires StablySorts(s, t, less) && StablySorts(s, u, less)
    ensures t == u
  {
    DistinctPermutation(s, t);
    DistinctPermutation(s, u);
    SameElements(s, t);
    SameElements(s, u);
    StableSortOrder(s, t, u, less);
    SameOrder(t, u);
  }

  lemma SameElements<E>(s: seq<E>, t: seq<E>)
    requires multiset(t) == multiset(s)
    ensures Elements(t) == Elements(s) && |t| == |s|
  {
    assert |multiset(t)| == |t| && |multiset(s)| == |s|;
    assert forall e :: e in s <==> e in multiset(s);
  }

  /** Two lists of the same elements in the same order are equal. */
  lemma {:induction false} SameOrder<E>(t: seq<E>, u: seq<E>)
    requires Distinct(t) && Distinct(u) && Elements(t) == Elements(u) && |t| == |u|
    requires forall i, j | 0 <= i < j < |t| :: Precedes(u, t[i], t[j])
    ensures t == u
  {
    if t != [] {
      FirstElement(t, u);
      var t', u' := t[1..], u[1..];
      assert Elements(t') == Elements(t) - {t[0]} && Elements(u') == Elements(u) - {u[0]} by {
        FirstIsGone(t);
        FirstIsGone(u);
      }
      forall i, j | 0 <= i < j < |t'| ensures Precedes(u', t'[i], t'[j]) {
        assert Precedes(u, t[i + 1], t[j + 1]);
        var k, l :| 0 <= k < l < |u| && u[k] == t[i + 1] && u[l] == t[j + 1];
        PrecedesAt(u', k - 1, l - 1);
      }
      SameOrder(t', u');
    }
  }

  lemma FirstIsGone<E>(s: seq<E>)
    requires Distinct(s) && s != []
    ensures Elements(s[1..]) == Elements(s) - {s[0]}
  {
    assert s == [s[0]] + s[1..];
  }

  lemma FirstElement<E>(t: seq<E>, u: seq<E>)
    requires Distinct(u) && Elements(t) == Elements(u) && t != [] && u != []
    requires forall i, j | 0 <= i < j < |t| :: Precedes(u, t[i], t[j])
    ensures t[0] == u[0]
  {
    forall k | 0 < k < |t| ensures t[k] != u[0] {
      NotFirst(u, t[0], t[k]);
    }
    assert u[0] in Elements(t);
  }

  lemma NotFirst<E>(u: seq<E>, a: E, b: E)
    requires Distinct(u) && Precedes(u, a, b)
    ensures b != u[0]
  {
  }

  /** The element that precedes another in one stable sort precedes it in the other. */
  lemma StableSortOrder<E>(s: seq<E>, t: seq<E>, u: seq<E>, less: (E, E) -> bool)
    requires Distinct(s) && Distinct(t) && Distinct(u)
    requires Elements(s) == Elements(t) == Elements(u)
    requires StrictWeak(Elements(s), less)
    requires Sorted(t, less) && Stable(s, t, less) && Sorted(u, less) && Stable(s, u, less)
    ensures forall i, j | 0 <= i < j < |t| :: Precedes(u, t[i], t[j])
  {
    forall i, j | 0 <= i < j < |t| ensures Precedes(u, t[i], t[j]) {
      var a, b := t[i], t[j];
      assert a in Elements(t) && b in Elements(t);
      assert a in s && b in s && a in u && b in u;
      var k, l :| 0 <= k < |s| && 0 <= l < |s| && s[k] == a && s[l] == b;
      var p, q :| 0 <= p < |u| && 0 <= q < |u| && u[p] == a && u[q] == b;
      if k < l {
        assert !less(s[l], s[k]);
      } else {
        // Stability would have put b first in t, so a is less than b.
        NotBoth(s, t, i, j, l, k, less);
      }
    }
  }

  lemma NotBoth<E>(s: seq<E>, t: seq<E>, i: int, j: int, l: int, k: int, less: (E, E) -> bool)
    requires Distinct(t) && Stable(s, t, less)
    requires 0 <= i < j < |t| && 0 <= l <= k < |s| && s[k] == t[i] && s[l] == t[j]
    ensures less(t[i], t[j])
  {
    assert l < k && !less(s[k], s[l]) ==> Precedes(t, s[l], s[k]);
  }

  /** t is s, sorted, with ties in their old order. */
  ghost predicate StablySorts<E>(s: seq<E>, t: seq<E>, less: (E, E) -> bool) {
    Sorted(t, less) && Stable(s, t, less) && multiset(t) == multiset(s)
  }

  lemma {:induction false} DistinctPermutation<E>(t: seq<E>, s: seq<E>)
    requires Distinct(t) && multiset(t) == multiset(s)
    ensures Distinct(s)
  {
    forall i, j | 0 <= i < j < |s| ensures s[i] != s[j] {
      assert s == s[..i] + [s[i]] + s[i + 1..j] + [s[j]] + s[j + 1..];
      DistinctOnce(t, s[i]);
    }
  }

  lemma {:induction false} DistinctOnce<E>(t: seq<E>, e: E)
    requires Distinct(t)
    ensures multiset(t)[e] <= 1
  {
    if t != [] {
      assert t == [t[0]] + t[1..];
      DistinctOnce(t[1..], e);
      if t[0] == e {
        assert e !in t[1..];
      }
    }
  }

  // ----- ordered insertion ---------------------------------------------------

  /** Where list_insert_ordered puts e: before the first element that e is less than. */
  function InsertPos<E>(s: seq<E>, e: E, less: (E, E) -> bool): (p: nat)
    ensures p <= |s|
    ensures forall i | 0 <= i < p :: !less(e, s[i])
    ensures p < |s| ==> less(e, s[p])
  {
    if s == [] || less(e, s[0]) then 0 else 1 + InsertPos(s[1..], e, less)
  }

  function InsertOrdered<E>(s: seq<E>, e: E, less: (E, E) -> bool): (t: seq<E>)
    ensures |t| == |s| + 1
  {
    var p := InsertPos(s, e, less);
    s[..p] + [e] + s[p..]
  }

  lemma {:induction false} InsertPosSplits<E>(s: seq<E>, e: E, less: (E, E) -> bool)
    requires StrictWeak(Elements(s) + {e}, less) && Sorted(s, less)
    ensures forall k | InsertPos(s, e, less) <= k < |s| :: less(e, s[k]) && !less(s[k], e)
  {
    var p, S := InsertPos(s, e, less), Elements(s) + {e};
    forall k | p <= k < |s| ensures less(e, s[k]) && !less(s[k], e) {
      assert s[k] in S && s[p] in S && e in S;
      assert !less(s[k], s[p]) by { assert k == p || !less(s[k], s[p]); }
    }
  }

  /** Insertion into a sorted list keeps it sorted, ... */
  lemma InsertOrderedSorted<E>(s: seq<E>, e: E, less: (E, E) -> bool)
    requires StrictWeak(Elements(s) + {e}, less) && Sorted(s, less)
    ensures Sorted(InsertOrdered(s, e, less), less)
  {
    var p, t := InsertPos(s, e, less), InsertOrdered(s, e, less);
    InsertPosSplits(s, e, less);
    forall i, j | 0 <= i < j < |t| ensures !less(t[j], t[i]) {
      assert t[i] == (if i < p then s[i] else if i == p then e else s[i - 1]);
      assert t[j] == (if j < p then s[j] else if j == p then e else s[j - 1]);
    }
  }

  /** ... and rearranges the list with the newcomer at the back stably: the newcomer goes behind its equals. */
  lemma InsertOrderedStable<E>(s: seq<E>, e: E, less: (E, E) -> bool)
    requires StrictWeak(Elements(s) + {e}, less) && Sorted(s, less)
    ensures Stable(s + [e], InsertOrdered(s, e, less), less)
  {
    InsertPosSplits(s, e, less);
    InsertedStable(s, e, InsertPos(s, e, less), less);
  }

  lemma InsertedStable<E>(s: seq<E>, e: E, p: nat, less: (E, E) -> bool)
    requires p <= |s| && forall k | p <= k < |s| :: less(e, s[k])
    ensures Stable(s + [e], s[..p] + [e] + s[p..], less)
  {
    var t, se := s[..p] + [e] + s[p..], s + [e];
    forall i, j | 0 <= i < j < |se| && !less(se[j], se[i]) ensures Precedes(t, se[i], se[j]) {
      PrecedesAt(t, if i < p then i else i + 1, if j == |s| then p else if j < p then j else j + 1);
    }
  }

  lemma PrecedesAt<E>(t: seq<E>, i: nat, j: nat)
    requires i < j < |t|
    ensures Precedes(t, t[i], t[j])
  {
  }

  lemma {:induction false} FirstGreater<E>(s: seq<E>, e: E, less: (E, E) -> bool, p: nat)
    requires p <= |s| && (forall i | 0 <= i < p :: !less(e, s[i])) && (p < |s| ==> less(e, s[p]))
    ensures InsertPos(s, e, less) == p
  {
  }

  lemma InsertOrderedDistinct<E(!new)>(s: seq<E>, e: E, less: (E, E) -> bool)
    requires Distinct(s) && e !in s
    ensures Distinct(InsertOrdered(s, e, less)) && forall d :: d in InsertOrdered(s, e, less) <==> d == e || d in s
  {
    var p := InsertPos(s, e, less);
    var t := InsertOrdered(s, e, less);
    assert t == s[..p] + [e] + s[p..];
    assert s == s[..p] + s[p..];
  }

  lemma InsertOrderedKeeps<E>(s: seq<E>, e: E, less: (E, E) -> bool)
    ensures multiset(InsertOrdered(s, e, less)) == multiset(s) + multiset{e}
  {
    var p := InsertPos(s, e, less);
    assert s == s[..p] + s[p..];
  }

  /** The stably sorted list that list_sort makes: the only one, by StableSortUnique. */
  function SortedBy<E>(s: seq<E>, less: (E, E) -> bool): seq<E> {
    if s == [] then [] else InsertOrdered(SortedBy(s[..|s| - 1], less), s[|s| - 1], less)
  }

  lemma {:induction false} SortedByStable<E>(s: seq<E>, less: (E, E) -> bool)
    requires StrictWeak(Elements(s), less)
    ensures StablySorts(s, SortedBy(s, less), less)
  {
    if s != [] {
      var init, last := s[..|s| - 1], s[|s| - 1];
      var u := SortedBy(init, less);
      assert s == init + [last];
      assert Elements(s) == Elements(init) + {last};
      SortedByStable(init, less);
      SameElements(init, u);
      InsertOrderedSorted(u, last, less);
      InsertOrderedStable(u, last, less);
      InsertOrderedKeeps(u, last, less);
      StableAppend(init, u, last, less);
      StableTransitive(s, u + [last], SortedBy(s, less), less);
    }
  }

  lemma StableAppend<E>(s: seq<E>, t: seq<E>, e: E, less: (E, E) -> bool)
    requires Stable(s, t, less) && Elements(t) == Elements(s)
    ensures Stable(s + [e], t + [e], less)
  {
    var se, te := s + [e], t + [e];
    forall i, j | 0 <= i < j < |se| && !less(se[j], se[i]) ensures Precedes(te, se[i], se[j]) {
      if j < |s| {
        assert Precedes(t, s[i], s[j]);
        var k, l :| 0 <= k < l < |t| && t[k] == s[i] && t[l] == s[j];
        PrecedesAt(te, k, l);
      } else {
        assert s[i] in Elements(t);
        var k :| 0 <= k < |t| && t[k] == s[i];
        PrecedesAt(te, k, |t|);
      }
    }
  }

  /** Whatever sorts a list of distinct elements stably makes SortedBy of it. */
  lemma StableSortIs<E>(s: seq<E>, t: seq<E>, less: (E, E) -> bool)
    requires Distinct(s) && StrictWeak(Elements(s), less) && StablySorts(s, t, less)
    ensures t == SortedBy(s, less)
  {
    SortedByStable(s, less);
    StableSortUnique(s, t, SortedBy(s, less), less);
  }

  lemma {:induction false} SortedByIs<E>(s: seq<E>, less: (E, E) -> bool, t: seq<E>)
    requires StrictWeak(Elements(s), less) && Distinct(s) && t == SortedBy(s, less)
    ensures StablySorts(s, t, less) && Distinct(t) && Elements(t) == Elements(s) && |t| == |s|
  {
    SortedByStable(s, less);
    SameElements(s, t);
    DistinctPermutation(s, t);
  }

  // ----- natural runs --------------------------------------------------------

  /** The number of places where a run of nondecreasing elements ends before the end of the list. */
  ghost function Descents<E>(s: seq<E>, less: (E, E) -> bool): nat {
    if |s| <= 1 then 0
    else Descents(s[1..], less) + (if less(s[1], s[0]) then 1 else 0)
  }

  /** The number of natural runs. */
  ghost function Runs<E>(s: seq<E>, less: (E, E) -> bool): nat {
    if s == [] then 0 else 1 + Descents(s, less)
  }

  lemma {:induction false} DescentsConcat<E>(s: seq<E>, t: seq<E>, less: (E, E) -> bool)
    requires s != [] && t != []
    ensures Descents(s + t, less)
            == Descents(s, less) + Descents(t, less) + (if less(t[0], s[|s| - 1]) then 1 else 0)
  {
    if |s| == 1 {
      assert (s + t)[1..] == t;
    } else {
      DescentsConcat(s[1..], t, less);
      assert (s + t)[1..] == s[1..] + t;
    }
  }

  lemma {:induction false} NoDescents<E>(s: seq<E>, less: (E, E) -> bool)
    ensures Descents(s, less) == 0 <==> NoDescent(s, less)
  {
    if |s| > 1 {
      NoDescents(s[1..], less);
      if NoDescent(s, less) {
        assert !DescentAt(s, 1, less);
        forall i ensures !DescentAt(s[1..], i, less) {
          assert !DescentAt(s, i + 1, less);
        }
      }
      if Descents(s, less) == 0 {
        forall i ensures !DescentAt(s, i, less) {
          assert !DescentAt(s[1..], i - 1, less);
        }
      }
    }
  }
}

/** The kernel's doubly linked lists with two sentinels, and their in-place natural merge sort
    (pintos/lib/kernel/list.c). */
module Lists {
  import opened Orderings

  class ListElem {
    var prev: ListElem?
    var next: ListElem?

    constructor ()
      ensures prev == null && next == null
    {
      prev, next := null, null;
    }
  }

  type Less = (ListElem, ListElem) -> bool

  ghost function Without<E>(s: seq<E>, f: nat, l: nat): seq<E>
    requires f <= l <= |s|
  {
    s[..f] + s[l..]
  }

  /** Moving the nodes at f..l in front of the node at b, where b lies outside f..l. */
  ghost function Spliced<E>(s: seq<E>, b: nat, f: nat, l: nat): seq<E>
    requires f <= l <= |s| && b <= |s| && (b <= f || l <= b)
  {
    var rest, p := Without(s, f, l), if b <= f then b else b - (l - f);
    rest[..p] + s[f..l] + rest[p..]
  }

  /** Moving one element forward: where each element of the result comes from. */
  lemma SpliceOneAt<E>(s: seq<E>, b: nat, f: nat)
    requires b <= f < |s|
    ensures var t := Spliced(s, b, f, f + 1);
            && |t| == |s|
            && forall k | 0 <= k < |s| :: t[k] == if k < b || f < k then s[k] else if k == b then s[f] else s[k - 1]
  {
  }

  /** Moving one element to the front of a stretch of elements that are all greater breaks no tie. */
  lemma MovedForwardStable<E>(s: seq<E>, t: seq<E>, b: nat, f: nat, less: (E, E) -> bool)
    requires b <= f < |s| == |t| && forall k | b <= k < f :: less(s[f], s[k])
    requires forall k {:trigger t[k]} | 0 <= k < |s| ::
               t[k] == if k < b || f < k then s[k] else if k == b then s[f] else s[k - 1]
    ensures Stable(s, t, less)
  {
    forall i, j | 0 <= i < j < |s| && !less(s[j], s[i]) ensures Precedes(t, s[i], s[j]) {
      var i' := if b <= i < f then i + 1 else if i == f then b else i;
      var j' := if b <= j < f then j + 1 else if j == f then b else j;
      assert j == f ==> !(b <= i < f);
      assert t[i'] == s[i] && t[j'] == s[j];
      PrecedesAt(t, i', j');
    }
  }

  lemma SpliceOneStable<E>(s: seq<E>, b: nat, f: nat, less: (E, E) -> bool)
    requires b <= f < |s| && forall k | b <= k < f :: less(s[f], s[k])
    ensures Stable(s, Spliced(s, b, f, f + 1), less)
  {
    SpliceOneAt(s, b, f);
    MovedForwardStable(s, Spliced(s, b, f, f + 1), b, f, less);
  }

  lemma SpliceOneKeeps<E>(s: seq<E>, b: nat, f: nat)
    requires b <= f < |s|
    ensures multiset(Spliced(s, b, f, f + 1)) == multiset(s)
  {
    assert s == s[..b] + (s[b..f] + (s[f..f + 1] + s[f + 1..]));
    assert Spliced(s, b, f, f + 1) == s[..b] + (s[f..f + 1] + (s[b..f] + s[f + 1..]));
  }

  /** The state of a merge: lo..p is done and not above the rest, p..m and m..hi are sorted. */
  ghost predicate Merging<E>(s: seq<E>, lo: nat, p: nat, m: nat, hi: nat, less: (E, E) -> bool)
    requires lo <= p <= m <= hi <= |s|
  {
    && (forall i, j {:trigger less(s[j], s[i])} | lo <= i < p && i < j < hi :: !less(s[j], s[i]))
    && (forall i, j {:trigger less(s[j], s[i])} | p <= i < j < m :: !less(s[j], s[i]))
    && (forall i, j {:trigger less(s[j], s[i])} | m <= i < j < hi :: !less(s[j], s[i]))
  }

  ghost predicate Members<E>(s: seq<E>, lo: nat, hi: nat, members: set<E>)
    requires lo <= hi <= |s|
  {
    forall i | lo <= i < hi :: s[i] in members
  }

  lemma MergeStart<E>(s: seq<E>, lo: nat, mid: nat, hi: nat, less: (E, E) -> bool)
    requires lo <= mid <= hi <= |s| && Sorted(s[lo..mid], less) && Sorted(s[mid..hi], less)
    ensures Merging(s, lo, lo, mid, hi, less)
  {
    forall i, j | lo <= i < j < mid ensures !less(s[j], s[i]) {
      assert s[i] == s[lo..mid][i - lo] && s[j] == s[lo..mid][j - lo];
    }
    forall i, j | mid <= i < j < hi ensures !less(s[j], s[i]) {
      assert s[i] == s[mid..hi][i - mid] && s[j] == s[mid..hi][j - mid];
    }
  }

  /** The first run's element goes first. */
  lemma MergeAdvance<E>(s: seq<E>, lo: nat, p: nat, m: nat, hi: nat, members: set<E>, less: (E, E) -> bool)
    requires lo <= p < m < hi <= |s| && Members(s, lo, hi, members) && StrictWeak(members, less)
    requires Merging(s, lo, p, m, hi, less) && !less(s[m], s[p])
    ensures Merging(s, lo, p + 1, m, hi, less)
  {
    forall j | m <= j < hi ensures !less(s[j], s[p]) {
      assert s[p] in members && s[m] in members && s[j] in members;
      assert j == m || !less(s[j], s[m]);
    }
  }

  /** The second run's element is strictly less than all that is left of the first run, ... */
  lemma SecondIsLess<E>(s: seq<E>, lo: nat, p: nat, m: nat, hi: nat, members: set<E>, less: (E, E) -> bool)
    requires lo <= p < m < hi <= |s| && Members(s, lo, hi, members) && StrictWeak(members, less)
    requires Merging(s, lo, p, m, hi, less) && less(s[m], s[p])
    ensures forall k | p <= k < m :: less(s[m], s[k]) && !less(s[k], s[m])
  {
    forall k | p <= k < m ensures less(s[m], s[k]) && !less(s[k], s[m]) {
      assert s[p] in members && s[k] in members && s[m] in members;
      assert k == p || !less(s[k], s[p]);
    }
  }

  /** ... so moving it in front keeps the merge going. */
  lemma MergeSplice<E>(s: seq<E>, t: seq<E>, lo: nat, p: nat, m: nat, hi: nat, less: (E, E) -> bool)
    requires lo <= p < m < hi <= |s| == |t| && Merging(s, lo, p, m, hi, less)
    requires forall k | p <= k < m :: !less(s[k], s[m])
    requires forall k {:trigger t[k]} | 0 <= k < |s| ::
               t[k] == if k < p || m < k then s[k] else if k == p then s[m] else s[k - 1]
    ensures Merging(t, lo, p + 1, m + 1, hi, less)
  {
    forall i, j | lo <= i < p + 1 && i < j < hi ensures !less(t[j], t[i]) {
      if i < p {
        var j' := if j < p || m < j then j else if j == p then m else j - 1;
        assert !less(s[j'], s[i]) && t[j] == s[j'] && t[i] == s[i];
      } else if m < j {
        assert !less(s[j], s[m]) && t[j] == s[j] && t[i] == s[m];
      } else {
        assert !less(s[j - 1], s[m]) && t[j] == s[j - 1] && t[i] == s[m];
      }
    }
    forall i, j | p + 1 <= i < j < m + 1 ensures !less(t[j], t[i]) {
      assert !less(s[j - 1], s[i - 1]) && t[j] == s[j - 1] && t[i] == s[i - 1];
    }
    forall i, j | m + 1 <= i < j < hi ensures !less(t[j], t[i]) {
      assert !less(s[j], s[i]) && t[j] == s[j] && t[i] == s[i];
    }
  }

  lemma MergeDone<E>(s: seq<E>, lo: nat, p: nat, m: nat, hi: nat, less: (E, E) -> bool)
    requires lo <= p <= m <= hi <= |s| && Merging(s, lo, p, m, hi, less) && (p == m || m == hi)
    ensures Sorted(s[lo..hi], less)
  {
  }

  /** What the in-place merge does to the node sequence: the runs left are p..m and m..hi. */
  ghost function Merged<E>(s: seq<E>, p: nat, m: nat, hi: nat, less: (E, E) -> bool): seq<E>
    requires p <= m <= hi <= |s|
    decreases hi - p, hi - m
  {
    if p == m || m == hi then s
    else if !less(s[m], s[p]) then Merged(s, p + 1, m, hi, less)
    else Merged(Spliced(s, p, m, m + 1), p + 1, m + 1, hi, less)
  }

  /** t is a stable rearrangement of s that differs from it at most in lo..hi. */
  ghost predicate Rearranged<E>(s: seq<E>, t: seq<E>, lo: nat, hi: nat, less: (E, E) -> bool)
    requires lo <= hi <= |s|
  {
    |t| == |s| && t[..lo] == s[..lo] && t[hi..] == s[hi..] && multiset(t) == multiset(s) && Stable(s, t, less)
  }

  lemma RearrangedTransitive<E>(s: seq<E>, t: seq<E>, u: seq<E>, lo: nat, hi: nat, less: (E, E) -> bool)
    requires lo <= hi <= |s| && Rearranged(s, t, lo, hi, less) && Rearranged(t, u, lo, hi, less)
    ensures Rearranged(s, u, lo, hi, less)
  {
    StableTransitive(s, t, u, less);
  }

  lemma SpliceRearranges<E>(s: seq<E>, lo: nat, p: nat, m: nat, hi: nat, members: set<E>, less: (E, E) -> bool)
    requires lo <= p < m < hi <= |s| && Members(s, lo, hi, members) && StrictWeak(members, less)
    requires Merging(s, lo, p, m, hi, less) && less(s[m], s[p])
    ensures var t := Spliced(s, p, m, m + 1);
            Rearranged(s, t, lo, hi, less) && Members(t, lo, hi, members) && Merging(t, lo, p + 1, m + 1, hi, less)
  {
    var t := Spliced(s, p, m, m + 1);
    SecondIsLess(s, lo, p, m, hi, members, less);
    SpliceOneAt(s, p, m);
    MergeSplice(s, t, lo, p, m, hi, less);
    SpliceOneKeeps(s, p, m);
    SpliceOneStable(s, p, m, less);
    OutsideKept(s, t, lo, p, m, hi);
  }

  lemma OutsideKept<E>(s: seq<E>, t: seq<E>, lo: nat, p: nat, m: nat, hi: nat)
    requires lo <= p <= m < hi <= |s| == |t| && forall k | 0 <= k < |s| && (k < p || m < k) :: t[k] == s[k]
    ensures t[..lo] == s[..lo] && t[hi..] == s[hi..]
  {
  }

  lemma {:induction false} MergedIsSorted<E>(s: seq<E>, lo: nat, p: nat, m: nat, hi: nat, members: set<E>,
                                             less: (E, E) -> bool)
    requires lo <= p <= m <= hi <= |s| && StrictWeak(members, less)
    requires Members(s, lo, hi, members) && Merging(s, lo, p, m, hi, less)
    ensures var t := Merged(s, p, m, hi, less); Rearranged(s, t, lo, hi, less) && Sorted(t[lo..hi], less)
    decreases hi - p, hi - m
  {
    if p == m || m == hi {
      MergeDone(s, lo, p, m, hi, less);
    } else if !less(s[m], s[p]) {
      MergeAdvance(s, lo, p, m, hi, members, less);
      MergedIsSorted(s, lo, p + 1, m, hi, members, less);
    } else {
      var s1 := Spliced(s, p, m, m + 1);
      SpliceRearranges(s, lo, p, m, hi, members, less);
      MergedIsSorted(s1, lo, p + 1, m + 1, hi, members, less);
      MergedAfterSplice(s, s1, lo, p, m, hi, less);
    }
  }

  lemma MergedAfterSplice<E>(s: seq<E>, s1: seq<E>, lo: nat, p: nat, m: nat, hi: nat, less: (E, E) -> bool)
    requires lo <= p < m < hi <= |s| && less(s[m], s[p]) && s1 == Spliced(s, p, m, m + 1)
    requires Rearranged(s, s1, lo, hi, less) && Rearranged(s1, Merged(s1, p + 1, m + 1, hi, less), lo, hi, less)
    ensures Merged(s, p, m, hi, less) == Merged(s1, p + 1, m + 1, hi, less)
    ensures Rearranged(s, Merged(s, p, m, hi, less), lo, hi, less)
  {
    RearrangedTransitive(s, s1, Merged(s1, p + 1, m + 1, hi, less), lo, hi, less);
  }

  /** The end of the run of nondecreasing elements that starts at i and ends no later than j. */
  ghost function RunEnd<E>(s: seq<E>, i: nat, j: nat, less: (E, E) -> bool): (k: nat)
    requires i < j <= |s|
    ensures i < k <= j && (k < j ==> less(s[k], s[k - 1]))
    decreases j - i
  {
    if i + 1 == j || less(s[i + 1], s[i]) then i + 1 else RunEnd(s, i + 1, j, less)
  }

  lemma {:induction false} RunEndIsRun<E>(s: seq<E>, i: nat, j: nat, less: (E, E) -> bool)
    requires i < j <= |s|
    ensures NoDescent(s[i..RunEnd(s, i, j, less)], less)
    decreases j - i
  {
    if i + 1 < j && !less(s[i + 1], s[i]) {
      RunEndIsRun(s, i + 1, j, less);
      NoDescentCons(s, i, RunEnd(s, i, j, less), less);
    }
  }

  lemma NoDescentCons<E>(s: seq<E>, i: nat, k: nat, less: (E, E) -> bool)
    requires i + 1 < k <= |s| && NoDescent(s[i + 1..k], less) && !less(s[i + 1], s[i])
    ensures NoDescent(s[i..k], less)
  {
    forall m ensures !DescentAt(s[i..k], m, less) {
      assert !DescentAt(s[i + 1..k], m - 1, less);
    }
  }

  /** One pass over positions q..end: pairs of adjacent runs are merged; c counts the runs put out. */
  ghost function Pass<E>(s: seq<E>, q: nat, end: nat, less: (E, E) -> bool): (r: (seq<E>, nat))
    requires q <= end <= |s|
    ensures |r.0| == |s|
    decreases end - q
  {
    if q == end then (s, 0)
    else
      var m := RunEnd(s, q, end, less);
      if m == end then (s, 1)
      else
        var h := RunEnd(s, m, end, less);
        MergedLength(s, q, m, h, less);
        var (t, c) := Pass(Merged(s, q, m, h, less), h, end, less);
        (t, c + 1)
  }

  lemma {:induction false} MergedLength<E>(s: seq<E>, p: nat, m: nat, hi: nat, less: (E, E) -> bool)
    requires p <= m <= hi <= |s|
    ensures |Merged(s, p, m, hi, less)| == |s|
    decreases hi - p, hi - m
  {
    if p < m < hi {
      if !less(s[m], s[p]) {
        MergedLength(s, p + 1, m, hi, less);
      } else {
        MergedLength(Spliced(s, p, m, m + 1), p + 1, m + 1, hi, less);
      }
    }
  }

  lemma SpliceOneTail<E>(s: seq<E>, p: nat, m: nat, hi: nat)
    requires p < m < hi < |s|
    ensures var t := Spliced(s, p, m, m + 1);
            |t| == |s| && t[p + 1] == s[p] && t[m + 1] == s[m + 1] && t[hi..] == s[hi..]
  {
    SpliceOneAt(s, p, m);
  }

  lemma PeelRun<E>(s: seq<E>, q: nat, m: nat, end: nat, less: (E, E) -> bool)
    requires q < m < end <= |s| && NoDescent(s[q..m], less) && less(s[m], s[m - 1])
    ensures Runs(s[q..end], less) == 1 + Runs(s[m..end], less)
  {
    NoDescents(s[q..m], less);
    DescentsConcat(s[q..m], s[m..end], less);
    assert s[q..end] == s[q..m] + s[m..end];
  }

  lemma SortedRunFirst<E>(t: seq<E>, q: nat, h: nat, end: nat, less: (E, E) -> bool)
    requires q < h <= end <= |t| && Sorted(t[q..h], less)
    ensures Runs(t[q..end], less) <= 1 + Runs(t[h..end], less)
  {
    NoDescents(t[q..h], less);
    assert t[q..end] == t[q..h] + t[h..end];
    if h < end {
      DescentsConcat(t[q..h], t[h..end], less);
    }
  }

  /** A pass rearranges stably and turns r natural runs into at most ceil(r / 2). */
  lemma {:induction false} PassHalvesRuns<E>(s: seq<E>, q: nat, end: nat, members: set<E>, less: (E, E) -> bool)
    requires q <= end <= |s| && StrictWeak(members, less) && Members(s, q, end, members)
    ensures var (t, c) := Pass(s, q, end, less);
            Rearranged(s, t, q, end, less) && Runs(t[q..end], less) <= c <= (Runs(s[q..end], less) + 1) / 2
    decreases end - q
  {
    if q < end {
      var m := RunEnd(s, q, end, less);
      RunEndIsRun(s, q, end, less);
      NoDescents(s[q..m], less);
      if m < end {
        PeelRun(s, q, m, end, less);
        var h := RunEnd(s, m, end, less);
        PassTwoRuns(s, q, m, h, end, members, less);
      }
    }
  }

  lemma PassUnfolds<E>(s: seq<E>, q: nat, m: nat, h: nat, end: nat, less: (E, E) -> bool)
    requires q < m < h <= end <= |s| && m == RunEnd(s, q, end, less) && h == RunEnd(s, m, end, less)
    ensures var s1 := Merged(s, q, m, h, less);
            && |s1| == |s| && Pass(s, q, end, less).0 == Pass(s1, h, end, less).0
            && Pass(s, q, end, less).1 == Pass(s1, h, end, less).1 + 1
  {
    MergedLength(s, q, m, h, less);
  }

  lemma {:induction false} PassTwoRuns<E>(s: seq<E>, q: nat, m: nat, h: nat, end: nat, members: set<E>,
                                          less: (E, E) -> bool)
    requires q < m < h <= end <= |s| && StrictWeak(members, less) && Members(s, q, end, members)
    requires m == RunEnd(s, q, end, less) && h == RunEnd(s, m, end, less)
    ensures var (t, c) := Pass(s, q, end, less);
            Rearranged(s, t, q, end, less) && Runs(t[q..end], less) <= c && 2 * c <= Runs(s[m..end], less) + 2
    decreases end - q, 0
  {
    var s1 := Merged(s, q, m, h, less);
    MergeTwoRuns(s, q, m, h, end, members, less);
    PassHalvesRuns(s1, h, end, members, less);
    PassUnfolds(s, q, m, h, end, less);
    var t := Pass(s, q, end, less).0;
    AfterMerge(s, s1, t, q, h, end, less);
    RunsLeft(s, m, h, end, less);
  }

  lemma RunsLeft<E>(s: seq<E>, m: nat, h: nat, end: nat, less: (E, E) -> bool)
    requires m < end <= |s| && h == RunEnd(s, m, end, less)
    ensures Runs(s[m..end], less) == 1 + Runs(s[h..end], less)
  {
    RunEndIsRun(s, m, end, less);
    NoDescents(s[m..h], less);
    if h < end {
      PeelRun(s, m, h, end, less);
    }
  }

  lemma MergeTwoRuns<E>(s: seq<E>, q: nat, m: nat, h: nat, end: nat, members: set<E>, less: (E, E) -> bool)
    requires q < m < h <= end <= |s| && StrictWeak(members, less) && Members(s, q, end, members)
    requires m == RunEnd(s, q, end, less) && h == RunEnd(s, m, end, less)
    ensures var s1 := Merged(s, q, m, h, less);
            && Rearranged(s, s1, q, h, less) && Sorted(s1[q..h], less)
            && s1[h..end] == s[h..end] && Members(s1, h, end, members)
  {
    RunEndIsRun(s, q, end, less);
    RunEndIsRun(s, m, end, less);
    NoDescentIsSortedIn(s, q, m, members, less);
    NoDescentIsSortedIn(s, m, h, members, less);
    MergeStart(s, q, m, h, less);
    MergedIsSorted(s, q, q, m, h, members, less);
    var s1 := Merged(s, q, m, h, less);
    assert s1[h..end] == s1[h..][..end - h] && s[h..end] == s[h..][..end - h];
    assert forall i | h <= i < end :: s1[i] == s1[h..end][i - h] == s[i];
  }

  lemma AfterMerge<E>(s: seq<E>, s1: seq<E>, t: seq<E>, q: nat, h: nat, end: nat, less: (E, E) -> bool)
    requires q < h <= end <= |s| && Rearranged(s, s1, q, h, less) && Sorted(s1[q..h], less)
             && Rearranged(s1, t, h, end, less)
    ensures Rearranged(s, t, q, end, less) && Runs(t[q..end], less) <= 1 + Runs(t[h..end], less)
  {
    assert t[q..h] == t[..h][q..] && s1[q..h] == s1[..h][q..];
    SortedRunFirst(t, q, h, end, less);
    Widen(s, s1, q, h, q, end, less);
    Widen(s1, t, h, end, q, end, less);
    RearrangedTransitive(s, s1, t, q, end, less);
  }

  lemma NoDescentIsSortedIn<E>(s: seq<E>, i: nat, j: nat, members: set<E>, less: (E, E) -> bool)
    requires i <= j <= |s| && NoDescent(s[i..j], less) && StrictWeak(members, less) && Members(s, i, j, members)
    ensures Sorted(s[i..j], less)
  {
    assert Elements(s[i..j]) <= members;
    NoDescentIsSorted(s[i..j], less);
  }

  lemma Widen<E>(s: seq<E>, t: seq<E>, lo: nat, hi: nat, lo': nat, hi': nat, less: (E, E) -> bool)
    requires lo' <= lo <= hi <= hi' <= |s| && Rearranged(s, t, lo, hi, less)
    ensures Rearranged(s, t, lo', hi', less)
  {
    assert t[..lo'] == t[..lo][..lo'] && s[..lo'] == s[..lo][..lo'];
    assert t[hi'..] == t[hi..][hi' - hi..] && s[hi'..] == s[hi..][hi' - hi..];
  }

  /** Rearranging between two fixed sentinels rearranges what is between them: stably, ... */
  lemma StableBetween<E>(s: seq<E>, t: seq<E>, n: nat, less: (E, E) -> bool)
    requires |s| == |t| == n + 1 && n >= 1 && Distinct(t) && Stable(s, t, less)
    requires t[0] == s[0] && t[n] == s[n] && Distinct(s)
    ensures Stable(s[1..n], t[1..n], less)
  {
    forall i, j | 0 <= i < j < n - 1 && !less(s[1..n][j], s[1..n][i])
      ensures Precedes(t[1..n], s[1..n][i], s[1..n][j])
    {
      assert Precedes(t, s[1 + i], s[1 + j]);
      var k, l :| 0 <= k < l < |t| && t[k] == s[1 + i] && t[l] == s[1 + j];
      assert t[1..n][k - 1] == s[1..n][i] && t[1..n][l - 1] == s[1..n][j];
    }
  }

  lemma CancelEnds<E>(m: multiset<E>, n: multiset<E>, a: multiset<E>, b: multiset<E>)
    requires a + m + b == a + n + b
    ensures m == n
  {
    assert m == a + m + b - a - b && n == a + n + b - a - b;
  }

  /** ... and with the same elements. */
  lemma SameBetween<E>(s: seq<E>, t: seq<E>, n: nat)
    requires |s| == |t| == n + 1 && n >= 1 && t[..1] == s[..1] && t[n..] == s[n..] && multiset(t) == multiset(s)
    ensures t[0] == s[0] && t[n] == s[n] && multiset(t[1..n]) == multiset(s[1..n])
  {
    assert t[0] == t[..1][0] && s[..1][0] == s[0] && t[n] == t[n..][0] && s[n..][0] == s[n];
    assert s == s[..1] + s[1..n] + s[n..] && t == s[..1] + t[1..n] + s[n..];
    CancelEnds(multiset(s[1..n]), multiset(t[1..n]), multiset(s[..1]), multiset(s[n..]));
  }

  lemma SameMembers<E>(s: seq<E>, t: seq<E>, n: nat, members: set<E>)
    requires |s| == |t| == n + 1 && n >= 1 && multiset(t[1..n]) == multiset(s[1..n]) && Members(s, 1, n, members)
    ensures Members(t, 1, n, members)
  {
    forall k | 1 <= k < n ensures t[k] in members {
      assert t[k] == t[1..n][k - 1];
      assert t[k] in multiset(t[1..n]) && t[k] in multiset(s[1..n]);
    }
  }

  /** A sort in progress: s rearranges the list `was` between its sentinels. */
  ghost predicate Sorting<E>(was: seq<E>, s: seq<E>, n: nat, members: set<E>, less: (E, E) -> bool) {
    && |was| == |s| == n + 1 && n >= 1 && Distinct(was)
    && StrictWeak(members, less) && Members(s, 1, n, members) && Rearranged(was, s, 1, n, less)
  }

  lemma PassKeeps<E>(was: seq<E>, s: seq<E>, n: nat, members: set<E>, less: (E, E) -> bool)
    requires Sorting(was, s, n, members, less)
    ensures var (t, c) := Pass(s, 1, n, less);
            Sorting(was, t, n, members, less) && Runs(t[1..n], less) <= c <= (Runs(s[1..n], less) + 1) / 2
  {
    PassHalvesRuns(s, 1, n, members, less);
    var t := Pass(s, 1, n, less).0;
    SameBetween(s, t, n);
    SameMembers(s, t, n, members);
    RearrangedTransitive(was, s, t, 1, n, less);
  }

  /** A history of lists, each the result of a pass over the one before. */
  ghost predicate PassChain<E>(h: seq<seq<E>>, n: nat, less: (E, E) -> bool) {
    && h != [] && n >= 1 && (forall i {:trigger h[i]} | 0 <= i < |h| :: |h[i]| == n + 1)
    && (forall i {:trigger Pass(h[i], 1, n, less)} | 0 <= i < |h| - 1 :: h[i + 1] == Pass(h[i], 1, n, less).0)
  }

  lemma ChainGrows<E>(h: seq<seq<E>>, n: nat, less: (E, E) -> bool)
    requires PassChain(h, n, less)
    ensures PassChain(h + [Pass(h[|h| - 1], 1, n, less).0], n, less)
  {
  }

  lemma {:induction false} ChainSorting<E>(h: seq<seq<E>>, n: nat, k: nat, less: (E, E) -> bool)
    requires PassChain(h, n, less) && k < |h| && Distinct(h[0]) && StrictWeak(Elements(h[0][1..n]), less)
    ensures Sorting(h[0], h[k], n, Elements(h[0][1..n]), less)
  {
    if k == 0 {
      assert forall i | 1 <= i < n :: h[0][i] == h[0][1..n][i - 1];
    } else {
      ChainSorting(h, n, k - 1, less);
      PassKeeps(h[0], h[k - 1], n, Elements(h[0][1..n]), less);
    }
  }

  /** As long as a pass puts out more than one run, it has reduced the number of runs. */
  lemma PassProgress<E>(h: seq<seq<E>>, n: nat, less: (E, E) -> bool)
    requires PassChain(h, n, less) && Distinct(h[0]) && StrictWeak(Elements(h[0][1..n]), less)
    ensures var s := h[|h| - 1]; var (t, c) := Pass(s, 1, n, less);
            c > 1 ==> Runs(t[1..n], less) < Runs(s[1..n], less)
  {
    ChainSorting(h, n, |h| - 1, less);
    PassKeeps(h[0], h[|h| - 1], n, Elements(h[0][1..n]), less);
  }

  /** When a pass puts out a single run, the sort is done. */
  lemma OneRunLeft<E>(h: seq<seq<E>>, n: nat, less: (E, E) -> bool)
    requires PassChain(h, n, less) && Distinct(h[0]) && StrictWeak(Elements(h[0][1..n]), less)
    requires Pass(h[|h| - 1], 1, n, less).1 <= 1
    ensures var t := Pass(h[|h| - 1], 1, n, less).0[1..n];
            StablySorts(h[0][1..n], t, less) && t == SortedBy(h[0][1..n], less)
  {
    var t := Pass(h[|h| - 1], 1, n, less).0;
    ChainSorting(h, n, |h| - 1, less);
    PassKeeps(h[0], h[|h| - 1], n, Elements(h[0][1..n]), less);
    DistinctPermutation(h[0], t);
    OneRunSorted(h[0], t, n, Elements(h[0][1..n]), less);
    StableSortIs(h[0][1..n], t[1..n], less);
  }

  lemma OneRunSorted<E>(was: seq<E>, t: seq<E>, n: nat, members: set<E>, less: (E, E) -> bool)
    requires Sorting(was, t, n, members, less) && Distinct(t) && Runs(t[1..n], less) <= 1
    ensures StablySorts(was[1..n], t[1..n], less)
  {
    SameBetween(was, t, n);
    StableBetween(was, t, n, less);
    NoDescents(t[1..n], less);
    NoDescentIsSortedIn(t, 1, n, members, less);
  }

  lemma InsertBetween<E>(s: seq<E>, e: E, k: nat)
    requires 1 <= k < |s|
    ensures var n := |s| - 1; (s[..k] + [e] + s[k..])[1..n + 1] == s[1..n][..k - 1] + [e] + s[1..n][k - 1..]
  {
    var n := |s| - 1;
    var l, r := (s[..k] + [e] + s[k..])[1..n + 1], s[1..n][..k - 1] + [e] + s[1..n][k - 1..];
    assert |l| == |r| == n;
    forall i | 0 <= i < n ensures l[i] == r[i] {
      assert l[i] == (s[..k] + [e] + s[k..])[i + 1];
    }
  }

  lemma SpliceNothing<E>(s: seq<E>, b: nat, t: seq<E>, f: nat)
    requires b <= |s| && f <= |t|
    ensures s[..b] + t[f..f] + s[b..] == s && Without(t, f, f) == t && Elements(t[f..f]) == {}
  {
  }

  class List {
    const head: ListElem
    const tail: ListElem
    /** The nodes from head to tail, sentinels included. */
    ghost var nodes: seq<ListElem>
    /** The nodes the list may touch. */
    ghost var repr: set<ListElem>

    ghost predicate Valid()
      reads this, repr
    {
      && (forall k | 0 <= k < |nodes| :: nodes[k] in repr)
      && |nodes| >= 2 && nodes[0] == head && nodes[|nodes| - 1] == tail
      && Distinct(nodes)
      && Linked(nodes)
      && head.prev == null && tail.next == null
    }

    static ghost predicate Linked(s: seq<ListElem>)
      reads s
    {
      && (forall i {:trigger s[i].next} | 0 <= i < |s| - 1 :: s[i].next == s[i + 1])
      && (forall i {:trigger s[i].prev} | 1 <= i < |s| :: s[i].prev == s[i - 1])
    }

    /** The elements proper. */
    ghost function Elems(): seq<ListElem>
      reads this
      requires |nodes| >= 2
    {
      nodes[1..|nodes| - 1]
    }

    constructor ()
      ensures Valid() && Elems() == []
      ensures fresh(repr)
    {
      head := new ListElem();
      tail := new ListElem();
      new;
      head.next := tail;
      tail.prev := head;
      nodes, repr := [head, tail], {head, tail};
    }

    /** Inserts e just before the node at position k. */
    method Insert(before: ListElem, e: ListElem, ghost k: nat)
      requires Valid() && 1 <= k < |nodes| && nodes[k] == before && e !in nodes
      modifies this, repr, e
      ensures Valid() && nodes == old(nodes[..k] + [e] + nodes[k..]) && repr == old(repr) + {e}
    {
      e.prev := before.prev;
      e.next := before;
      before.prev.next := e;
      before.prev := e;
      ghost var was := nodes;
      nodes, repr := nodes[..k] + [e] + nodes[k..], repr + {e};
      forall i | 0 <= i < |nodes| - 1 ensures nodes[i].next == nodes[i + 1] {
        if i < k - 1 {
          assert nodes[i] == was[i] && nodes[i + 1] == was[i + 1];
        } else if i > k {
          assert nodes[i] == was[i - 1] && nodes[i + 1] == was[i];
        }
      }
      forall i | 1 <= i < |nodes| ensures nodes[i].prev == nodes[i - 1] {
        if i < k {
          assert nodes[i] == was[i] && nodes[i - 1] == was[i - 1];
        } else if i > k + 1 {
          assert nodes[i] == was[i - 1] && nodes[i - 1] == was[i - 2];
        }
      }
    }

    /** Removes the element at position k and returns its successor. */
    method Remove(e: ListElem, ghost k: nat) returns (n: ListElem)
      requires Valid() && 1 <= k < |nodes| - 1 && nodes[k] == e
      modifies this`nodes, repr
      ensures Valid() && nodes == old(nodes[..k] + nodes[k + 1..]) && n == old(nodes[k + 1])
    {
      e.prev.next := e.next;
      e.next.prev := e.prev;
      n := e.next;
      nodes := nodes[..k] + nodes[k + 1..];
    }

    /** Removes the nodes from first up to, not including, last and inserts them just before `before`. */
    method Splice(before: ListElem, first: ListElem, last: ListElem, ghost b: nat, ghost f: nat, ghost l: nat)
      requires Valid() && 1 <= b < |nodes| && 1 <= f <= l < |nodes|
      requires nodes[b] == before && nodes[f] == first && nodes[l] == last && (b < f || l <= b)
      modifies this`nodes, repr
      ensures Valid() && nodes == old(Spliced(nodes, b, f, l))
    {
      if first == last {
        assert Spliced(nodes, b, f, f) == nodes;
        return;
      }
      var end := last.prev;
      ghost var segment, p := nodes[f..l], if b < f then b else b - (l - f);
      TakeOut(first, end, f, l);
      PutIn(before, first, end, segment, p);
    }

    /** The same from another list: the nodes become this list's. */
    method SpliceFrom(from: List, before: ListElem, first: ListElem, last: ListElem, ghost b: nat, ghost f: nat,
                      ghost l: nat)
      requires Valid() && from.Valid() && from != this && repr !! from.repr
      requires 1 <= b < |nodes| && 1 <= f <= l < |from.nodes|
      requires nodes[b] == before && from.nodes[f] == first && from.nodes[l] == last
      modifies this, repr, from, from.repr
      ensures Valid() && nodes == old(nodes[..b] + from.nodes[f..l] + nodes[b..])
      ensures from.Valid() && from.nodes == old(Without(from.nodes, f, l))
      ensures repr == old(repr + Elements(from.nodes[f..l])) && from.repr == old(from.repr - Elements(from.nodes[f..l]))
    {
      ghost var segment := from.nodes[f..l];
      if first == last {
        SpliceNothing(nodes, b, from.nodes, f);
        return;
      }
      var end := last.prev;
      from.Detach(first, end, f, l);
      Attach(before, first, end, segment, b);
    }

    /** Cleanly removes first to end. */
    method TakeOut(first: ListElem, end: ListElem, ghost f: nat, ghost l: nat)
      requires Valid() && 1 <= f < l < |nodes| && nodes[f] == first && nodes[l - 1] == end
      modifies this`nodes, repr
      ensures Valid() && nodes == old(Without(nodes, f, l)) && Linked(old(nodes[f..l]))
    {
      first.prev.next := end.next;
      end.next.prev := first.prev;
      nodes := Without(nodes, f, l);
    }

    /** The same, giving the nodes up. */
    method Detach(first: ListElem, end: ListElem, ghost f: nat, ghost l: nat)
      requires Valid() && 1 <= f < l < |nodes| && nodes[f] == first && nodes[l - 1] == end
      modifies this, repr
      ensures Valid() && nodes == old(Without(nodes, f, l)) && repr == old(repr) - Elements(old(nodes[f..l]))
              && Linked(old(nodes[f..l]))
    {
      ghost var moved := Elements(nodes[f..l]);
      TakeOut(first, end, f, l);
      repr := repr - moved;
    }

    /** Splices first to end, linked up among themselves, in front of `before`. */
    method PutIn(before: ListElem, first: ListElem, end: ListElem, ghost segment: seq<ListElem>, ghost p: nat)
      requires Valid() && 1 <= p < |nodes| && nodes[p] == before
      requires segment != [] && segment[0] == first && segment[|segment| - 1] == end
      requires (forall k | 0 <= k < |segment| :: segment[k] in repr) && Linked(segment) && Distinct(segment)
               && forall i, j | 0 <= i < |nodes| && 0 <= j < |segment| :: nodes[i] != segment[j]
      modifies this`nodes, repr, first, end
      ensures Valid() && nodes == old(nodes[..p] + segment + nodes[p..])
    {
      first.prev := before.prev;
      end.next := before;
      before.prev.next := first;
      before.prev := end;
      ghost var was := nodes;
      nodes := nodes[..p] + segment + nodes[p..];
      ghost var n := |segment|;
      forall k | 0 <= k < |nodes| - 1 ensures nodes[k].next == nodes[k + 1] {
        if k < p - 1 {
          assert nodes[k] == was[k] && nodes[k + 1] == was[k + 1];
        } else if p <= k < p + n - 1 {
          assert nodes[k] == segment[k - p] && nodes[k + 1] == segment[k - p + 1];
        } else if p + n <= k {
          assert nodes[k] == was[k - n] && nodes[k + 1] == was[k - n + 1];
        }
      }
      forall k | 1 <= k < |nodes| ensures nodes[k].prev == nodes[k - 1] {
        if k < p {
          assert nodes[k] == was[k] && nodes[k - 1] == was[k - 1];
        } else if p < k < p + n {
          assert nodes[k] == segment[k - p] && nodes[k - 1] == segment[k - p - 1];
        } else if p + n < k {
          assert nodes[k] == was[k - n] && nodes[k - 1] == was[k - n - 1];
        }
      }
    }

    /** The same with nodes that come from elsewhere. */
    method Attach(before: ListElem, first: ListElem, end: ListElem, ghost segment: seq<ListElem>, ghost p: nat)
      requires Valid() && 1 <= p < |nodes| && nodes[p] == before && Elements(segment) !! repr
      requires segment != [] && segment[0] == first && segment[|segment| - 1] == end && Linked(segment)
               && Distinct(segment)
      modifies this, repr, segment
      ensures Valid() && nodes == old(nodes[..p] + segment + nodes[p..]) && repr == old(repr) + Elements(segment)
    {
      repr := repr + Elements(segment);
      PutIn(before, first, end, segment, p);
    }

    /** The end of the run of nondecreasing elements that starts at a and ends no later than b. */
    method FindEndOfRun(a0: ListElem, b: ListElem, less: Less, ghost i: nat, ghost j: nat) returns (a: ListElem)
      requires Valid() && 1 <= i < j < |nodes| && nodes[i] == a0 && nodes[j] == b
      ensures a == nodes[RunEnd(nodes, i, j, less)]
    {
      ghost var k := i;
      a := a0;
      while true
        invariant i <= k < j && nodes[k] == a && RunEnd(nodes, k, j, less) == RunEnd(nodes, i, j, less)
        decreases j - k
      {
        a := a.next;
        if a == b || less(a, a.prev) {
          return;
        }
        k := k + 1;
      }
    }

    /** The step of the merge that moves the head of the second run in front of the first. */
    method TakeFromSecond(a0: ListElem, a1b0: ListElem, ghost p: nat, ghost m: nat, ghost hi: nat)
      returns (next: ListElem)
      requires Valid() && 1 <= p < m < hi < |nodes| && nodes[p] == a0 && nodes[m] == a1b0
      modifies this`nodes, repr
      ensures Valid() && nodes == old(Spliced(nodes, p, m, m + 1)) && |nodes| == old(|nodes|)
      ensures nodes[p + 1] == a0 && nodes[m + 1] == next && nodes[hi..] == old(nodes[hi..])
    {
      SpliceOneTail(nodes, p, m, hi);
      next := a1b0.next;
      Splice(a0, next.prev, next, p, m, m + 1);
    }

    /** Merges the adjacent sorted runs a to a1 and a1 to b1 in place. */
    method InplaceMerge(a: ListElem, a1: ListElem, b1: ListElem, less: Less, ghost lo: nat, ghost mid: nat,
                        ghost hi: nat)
      requires Valid() && 1 <= lo < mid < hi < |nodes|
      requires nodes[lo] == a && nodes[mid] == a1 && nodes[hi] == b1
      modifies this`nodes, repr
      ensures Valid() && nodes == old(Merged(nodes, lo, mid, hi, less))
      ensures |nodes| == old(|nodes|) && nodes[hi..] == old(nodes[hi..])
    {
      var a0, a1b0 := a, a1;
      ghost var p, m := lo, mid;
      while a0 != a1b0 && a1b0 != b1
        invariant Valid() && lo <= p <= m <= hi < |nodes|
        invariant nodes[p] == a0 && nodes[m] == a1b0
        invariant |nodes| == old(|nodes|) && nodes[hi..] == old(nodes[hi..])
        invariant Merged(nodes, p, m, hi, less) == old(Merged(nodes, lo, mid, hi, less))
        decreases hi - p, hi - m
      {
        assert nodes[hi] == b1;
        if !less(a1b0, a0) {
          a0, p := a0.next, p + 1;
        } else {
          a1b0 := TakeFromSecond(a0, a1b0, p, m, hi);
          p, m := p + 1, m + 1;
        }
      }
      assert nodes[hi] == b1;
    }

    /** One pass of the sort: merges neighbouring runs two by two. */
    method MergePass(less: Less) returns (outputRunCnt: nat)
      requires Valid()
      modifies this`nodes, repr
      ensures Valid()
      ensures nodes == old(Pass(nodes, 1, |nodes| - 1, less).0)
              && outputRunCnt == old(Pass(nodes, 1, |nodes| - 1, less).1)
    {
      var a0 := head.next;
      ghost var q, end := 1, |nodes| - 1;
      ghost var (target, total) := Pass(nodes, 1, end, less);
      outputRunCnt := 0;
      while a0 != tail
        invariant Valid() && |nodes| == end + 1
        invariant 1 <= q <= end && nodes[q] == a0
        invariant Pass(nodes, q, end, less).0 == target && Pass(nodes, q, end, less).1 + outputRunCnt == total
        decreases end - q
      {
        outputRunCnt := outputRunCnt + 1;
        ghost var m := RunEnd(nodes, q, end, less);
        var a1b0 := FindEndOfRun(a0, tail, less, q, end);
        if a1b0 == tail {
          break;
        }
        ghost var h := RunEnd(nodes, m, end, less);
        var b1 := FindEndOfRun(a1b0, tail, less, m, end);
        InplaceMerge(a0, a1b0, b1, less, q, m, h);
        assert nodes[h] == nodes[h..][0];
        a0, q := b1, h;
      }
    }

    /** Natural merge sort: passes over the list until one of them puts out a single run. */
    method Sort(less: Less)
      requires Valid() && StrictWeak(Elements(Elems()), less)
      modifies this`nodes, repr
      ensures Valid()
      ensures StablySorts(old(Elems()), Elems(), less) && Elems() == SortedBy(old(Elems()), less)
    {
      ghost var n, history := |nodes| - 1, [nodes];
      ghost var runs := Runs(nodes[1..n], less);
      while true
        invariant Valid() && PassChain(history, n, less) && history[0] == old(nodes)
        invariant history[|history| - 1] == nodes && runs == Runs(nodes[1..n], less)
        decreases runs
      {
        PassProgress(history, n, less);
        ChainGrows(history, n, less);
        var outputRunCnt := MergePass(less);
        if outputRunCnt <= 1 {
          OneRunLeft(history, n, less);
          break;
        }
        history, runs := history + [nodes], Runs(nodes[1..n], less);
      }
    }

    /** Inserts e before the first element it is less than. */
    method InsertOrdered(e: ListElem, less: Less)
      requires Valid() && e !in repr
      modifies this, repr, e
      ensures Valid() && Elems() == Orderings.InsertOrdered(old(Elems()), e, less) && repr == old(repr) + {e}
    {
      var at := head.next;
      ghost var k := 1;
      while at != tail && !less(e, at)
        invariant 1 <= k < |nodes| && nodes[k] == at
        invariant forall i | 1 <= i < k :: !less(e, nodes[i])
        decreases |nodes| - k
      {
        at, k := at.next, k + 1;
      }
      FirstGreater(Elems(), e, less, k - 1);
      ghost var was := nodes;
      Insert(at, e, k);
      InsertBetween(was, e, k);
    }
  }
}
