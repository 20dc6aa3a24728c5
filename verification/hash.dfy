/** The chained hash table that resizes itself (pintos/lib/kernel/hash.c). */

module HashTables {
  import opened Bits
  import opened Orderings
  import opened Wrappers

  type Buckets<E> = seq<seq<E>>

  // ----- what a table is --------------------------------------------------------------

  predicate Same<E>(a: E, b: E, less: (E, E) -> bool) { !less(a, b) && !less(b, a) }

  /** What the table asks of its client: equality (neither is less) is an equivalence, and equal elements
      have equal hashes. */
  ghost predicate Lawful<E(!new)>(hash: E -> nat, less: (E, E) -> bool) {
    && (forall a: E :: Same(a, a, less))
    && (forall a: E, b: E, c: E {:trigger Same(a, b, less), Same(b, c, less)} ::
          Same(a, b, less) && Same(b, c, less) ==> Same(a, c, less))
    && (forall a: E, b: E {:trigger Same(a, b, less)} :: Same(a, b, less) ==> hash(a) == hash(b))
  }

  /** find_bucket. */
  function Home<E>(e: E, n: nat, hash: E -> nat): nat
    requires n > 0
  {
    And(hash(e), n - 1)
  }

  /** With as many buckets as a power of two, the mask is a remainder. */
  lemma HomeIs<E>(e: E, n: nat, hash: E -> nat)
    requires PowerOfTwo(n)
    ensures n > 0 && Home(e, n, hash) == hash(e) % n
  {
    MaskIsRemainder(hash(e), n);
  }

  /** The buckets hold exactly elems, each element once and in its home bucket. */
  ghost predicate Holds<E>(bs: Buckets<E>, elems: set<E>, hash: E -> nat) {
    && PowerOfTwo(|bs|)
    && (forall i | 0 <= i < |bs| :: Distinct(bs[i]))
    && (forall i, e {:trigger e in bs[i]} | 0 <= i < |bs| && e in bs[i] :: e in elems && Home(e, |bs|, hash) == i)
    && (forall e {:trigger Home(e, |bs|, hash)} | e in elems ::
          Home(e, |bs|, hash) < |bs| && e in bs[Home(e, |bs|, hash)])
  }

  /** No two elements are equal: the table is a finite map. */
  ghost predicate Keyed<E>(elems: set<E>, less: (E, E) -> bool) {
    forall a, b {:trigger Same(a, b, less)} | a in elems && b in elems && Same(a, b, less) :: a == b
  }

  lemma PushHolds<E>(bs: Buckets<E>, elems: set<E>, hash: E -> nat, i: nat, e: E)
    requires Holds(bs, elems, hash) && e !in elems && i < |bs| && i == Home(e, |bs|, hash)
    ensures Holds(bs[i := [e] + bs[i]], elems + {e}, hash)
  {
    var bs' := bs[i := [e] + bs[i]];
    assert e !in bs[i];
    assert Distinct(bs'[i]);
    forall x ensures x in bs'[i] <==> x == e || x in bs[i] {}
  }

  /** list_remove of an element that is in the list. */
  function Unlinked<E(==)>(s: seq<E>, e: E): (t: seq<E>)
    requires e in s
    ensures |t| == |s| - 1
  {
    if s[0] == e then s[1..] else [s[0]] + Unlinked(s[1..], e)
  }

  lemma {:induction false} UnlinkedMembers<E(!new)>(s: seq<E>, e: E, t: seq<E>)
    requires e in s && Distinct(s) && t == Unlinked(s, e)
    ensures Distinct(t) && forall x :: x in t <==> x in s && x != e
  {
    assert forall x :: x in s <==> x == s[0] || x in s[1..];
    assert s[0] !in s[1..];
    if s[0] != e {
      UnlinkedMembers(s[1..], e, Unlinked(s[1..], e));
      assert t[1..] == Unlinked(s[1..], e);
      assert forall x :: x in t <==> x == s[0] || x in t[1..];
    }
  }

  lemma UnlinkHolds<E(!new)>(bs: Buckets<E>, elems: set<E>, hash: E -> nat, i: nat, e: E)
    requires Holds(bs, elems, hash) && i < |bs| && e in bs[i]
    ensures e in elems && Holds(bs[i := Unlinked(bs[i], e)], elems - {e}, hash)
  {
    var t := Unlinked(bs[i], e);
    UnlinkedMembers(bs[i], e, t);
    var bs' := bs[i := t];
    assert Home(e, |bs|, hash) == i;
    forall k, x | 0 <= k < |bs'| && x in bs'[k] ensures x in elems - {e} && Home(x, |bs'|, hash) == k {
      assert x in bs[k];
    }
    forall x | x in elems - {e} ensures Home(x, |bs'|, hash) < |bs'| && x in bs'[Home(x, |bs'|, hash)] {
      assert Home(x, |bs|, hash) < |bs| && x in bs[Home(x, |bs|, hash)];
    }
  }

  lemma HomeInRange<E>(e: E, n: nat, hash: E -> nat)
    requires PowerOfTwo(n)
    ensures Home(e, n, hash) == hash(e) % n && Home(e, n, hash) < n
  {
    MaskIsRemainder(hash(e), n);
  }

  /** Looking for e among the elements of its home bucket is looking among all of them. */
  lemma EqualsAreAtHome<E(!new)>(bs: Buckets<E>, elems: set<E>, hash: E -> nat, less: (E, E) -> bool, e: E)
    requires Holds(bs, elems, hash) && Lawful(hash, less)
    ensures Home(e, |bs|, hash) < |bs|
    ensures forall x {:trigger Same(x, e, less)} ::
              x in elems && Same(x, e, less) <==> x in bs[Home(e, |bs|, hash)] && Same(x, e, less)
  {
    HomeInRange(e, |bs|, hash);
    forall x | x in elems && Same(x, e, less) ensures x in bs[Home(e, |bs|, hash)] {
      assert Home(x, |bs|, hash) == Home(e, |bs|, hash);
    }
  }

  // ----- the order of iteration ----------------------------------------------------------

  ghost function Flatten<E>(bs: Buckets<E>, n: nat): seq<E>
    requires n <= |bs|
  {
    if n == 0 then [] else Flatten(bs, n - 1) + bs[n - 1]
  }

  lemma {:induction false} FlattenMembers<E>(bs: Buckets<E>, elems: set<E>, hash: E -> nat, n: nat)
    requires Holds(bs, elems, hash) && n <= |bs|
    ensures Distinct(Flatten(bs, n))
    ensures forall e :: e in Flatten(bs, n) <==> e in elems && Home(e, |bs|, hash) < n
  {
    if n > 0 {
      FlattenMembers(bs, elems, hash, n - 1);
      var s, t := Flatten(bs, n - 1), bs[n - 1];
      DistinctConcat(s, t);
      assert forall e :: e in s + t <==> e in s || e in t;
      forall e ensures e in t <==> e in elems && Home(e, |bs|, hash) == n - 1 {
        if e in elems { assert e in bs[Home(e, |bs|, hash)]; }
      }
    }
  }

  lemma DistinctConcat<E>(s: seq<E>, t: seq<E>)
    requires Distinct(s) && Distinct(t) && forall x | x in s :: x !in t
    ensures Distinct(s + t)
  {
    forall i, j | 0 <= i < j < |s + t| ensures (s + t)[i] != (s + t)[j] {
      if i < |s| && j >= |s| { assert s[i] in s && t[j - |s|] in t; }
    }
  }

  // ----- the number of buckets -------------------------------------------------------------

  /** One bucket for about every two elements, a power of two, at least four. */
  function IdealBuckets(elemCnt: nat): (n: nat) {
    TopPower(if elemCnt / 2 < 4 then 4 else elemCnt / 2)
  }

  /** With the ideal number of buckets there are fewer than four elements a bucket on average, and (beyond
      the minimum of four buckets) at least two. */
  lemma IdealLoad(elemCnt: nat)
    ensures PowerOfTwo(IdealBuckets(elemCnt)) && IdealBuckets(elemCnt) >= 4
    ensures elemCnt < 4 * IdealBuckets(elemCnt)
    ensures IdealBuckets(elemCnt) > 4 ==> 2 * IdealBuckets(elemCnt) <= elemCnt
  {
    var m := if elemCnt / 2 < 4 then 4 else elemCnt / 2;
    TopPowerMonotone(4, m);
    PowerIsTop(4);
  }

  method CountBuckets(elemCnt: nat) returns (n: nat)
    ensures n == IdealBuckets(elemCnt)
  {
    n := elemCnt / 2;
    if n < 4 {
      n := 4;
    }
    ghost var m := n;
    while TurnOffLeast1Bit(n) != 0
      invariant 0 < n && TopPower(n) == TopPower(m)
      decreases n
    {
      TurnOffMeaning(n);
      n := TurnOffLeast1Bit(n);
    }
    TurnOffMeaning(n);
    PowerIsTop(n);
  }

  lemma KeyedAfter<E(!new)>(elems: set<E>, e: E, hash: E -> nat, less: (E, E) -> bool)
    requires Lawful(hash, less) && Keyed(elems, less)
    ensures (forall x | x in elems :: !Same(x, e, less)) ==> Keyed(elems + {e}, less)
    ensures forall x | x in elems && Same(x, e, less) :: Keyed(elems - {x} + {e}, less)
  {
    forall x | x in elems && Same(x, e, less) ensures Keyed(elems - {x} + {e}, less) {
      forall y | y in elems && Same(y, e, less) ensures y == x {
        assert Same(e, x, less) && Same(y, x, less);
      }
      KeyedWith(elems - {x}, e, less);
    }
    if forall x | x in elems :: !Same(x, e, less) {
      KeyedWith(elems, e, less);
    }
  }

  lemma KeyedWith<E>(elems: set<E>, e: E, less: (E, E) -> bool)
    requires Keyed(elems, less) && forall x | x in elems :: !Same(x, e, less)
    ensures Keyed(elems + {e}, less)
  {
    forall a, b | a in elems + {e} && b in elems + {e} && Same(a, b, less) ensures a == b {
      assert Same(b, a, less);
    }
  }

  // ----- the table ---------------------------------------------------------------------------

  class Hash<E(!new, ==)> {
    const hash: E -> nat
    const less: (E, E) -> bool
    var buckets: array<seq<E>>
    var bucketCnt: nat
    var elemCnt: nat
    /** The elements in the table. */
    ghost var elems: set<E>

    ghost predicate Valid()
      reads this, buckets
    {
      && bucketCnt == buckets.Length >= 4
      && Holds(buckets[..], elems, hash)
      && elemCnt == |elems|
      && Keyed(elems, less)
      && Lawful(hash, less)
    }

    /** hash_init, when there is memory for the buckets. */
    constructor (hash: E -> nat, less: (E, E) -> bool)
      requires Lawful(hash, less)
      ensures Valid() && elems == {} && bucketCnt == 4 && fresh(buckets) && this.hash == hash && this.less == less
    {
      this.hash, this.less := hash, less;
      bucketCnt, elemCnt, elems := 4, 0, {};
      buckets := new seq<E>[4](_ => []);
      new;
      assert PowerOfTwo(4);
    }

    method FindElem(bucket: nat, e: E) returns (r: Option<E>)
      requires bucket < buckets.Length
      ensures r.Some? ==> r.value in buckets[bucket] && Same(r.value, e, less)
      ensures r.None? ==> forall x | x in buckets[bucket] :: !Same(x, e, less)
    {
      var i := 0;
      while i < |buckets[bucket]|
        invariant i <= |buckets[bucket]| && forall k | 0 <= k < i :: !Same(buckets[bucket][k], e, less)
      {
        var hi := buckets[bucket][i];
        if !less(hi, e) && !less(e, hi) {
          return Some(hi);
        }
        i := i + 1;
      }
      return None;
    }

    method InsertElem(bucket: nat, e: E)
      requires bucket < buckets.Length && Holds(buckets[..], elems, hash) && e !in elems
      requires bucket == Home(e, buckets.Length, hash)
      modifies this`elemCnt, this`elems, buckets
      ensures elemCnt == old(elemCnt) + 1 && elems == old(elems) + {e} && Holds(buckets[..], elems, hash)
    {
      PushHolds(buckets[..], elems, hash, bucket, e);
      ghost var was := buckets[..];
      elemCnt := elemCnt + 1;
      buckets[bucket] := [e] + buckets[bucket];
      elems := elems + {e};
      assert buckets[..] == was[bucket := [e] + was[bucket]];
    }

    method RemoveElem(bucket: nat, e: E)
      requires bucket < buckets.Length && Holds(buckets[..], elems, hash) && e in buckets[bucket] && elemCnt > 0
      modifies this`elemCnt, this`elems, buckets
      ensures e in old(elems) && elemCnt == old(elemCnt) - 1 && elems == old(elems) - {e}
              && Holds(buckets[..], elems, hash)
    {
      UnlinkHolds(buckets[..], elems, hash, bucket, e);
      ghost var was := buckets[..];
      elemCnt := elemCnt - 1;
      buckets[bucket] := Unlinked(buckets[bucket], e);
      elems := elems - {e};
      assert buckets[..] == was[bucket := Unlinked(was[bucket], e)];
    }

    /** The element equal to e, if there is one. */
    method Find(e: E) returns (r: Option<E>)
      requires Valid()
      ensures r.Some? ==> r.value in elems && Same(r.value, e, less)
      ensures r.None? ==> forall x | x in elems :: !Same(x, e, less)
    {
      EqualsAreAtHome(buckets[..], elems, hash, less, e);
      r := FindElem(Home(e, bucketCnt, hash), e);
      assert r.Some? ==> Same(r.value, e, less) && r.value in buckets[..][Home(e, bucketCnt, hash)];
    }

    /** Moves every element into one of n new buckets. */
    method MoveAll(n: nat)
      requires PowerOfTwo(n) && Holds(buckets[..], elems, hash) && bucketCnt == buckets.Length
      modifies this`buckets, this`bucketCnt, buckets
      ensures fresh(buckets) && buckets.Length == bucketCnt == n && Holds(buckets[..], elems, hash)
    {
      var old_ := buckets;
      var new_ := new seq<E>[n](_ => []);
      ghost var rest, moved: set<E> := elems, {};
      assert rest + moved == elems;
      buckets, bucketCnt := new_, n;
      var i := 0;
      while i < old_.Length
        invariant 0 <= i <= old_.Length && buckets == new_ && bucketCnt == n
        invariant Holds(old_[..], rest, hash) && Holds(new_[..], moved, hash)
        invariant rest !! moved && rest + moved == elems
        invariant forall k | 0 <= k < i :: old_[k] == []
      {
        while old_[i] != []
          invariant buckets == new_ && bucketCnt == n
          invariant Holds(old_[..], rest, hash) && Holds(new_[..], moved, hash)
          invariant rest !! moved && rest + moved == elems
          invariant forall k | 0 <= k < i :: old_[k] == []
          decreases |old_[i]|
        {
          var e := old_[i][0];
          ghost var ob, nb := old_[..], new_[..];
          HomeInRange(e, n, hash);
          UnlinkHolds(ob, rest, hash, i, e);
          old_[i] := old_[i][1..];
          assert old_[..] == ob[i := Unlinked(ob[i], e)];
          PushHolds(nb, moved, hash, Home(e, n, hash), e);
          new_[Home(e, n, hash)] := [e] + new_[Home(e, n, hash)];
          assert new_[..] == nb[Home(e, n, hash) := [e] + nb[Home(e, n, hash)]];
          rest, moved := rest - {e}, moved + {e};
        }
        i := i + 1;
      }
      AllMoved(old_[..], rest, hash);
    }

    /** Fits the number of buckets to the number of elements; settled tells that memory sufficed, as it does in a calm
        call. */
    method Rehash(calm: bool) returns (ghost settled: bool)
      requires bucketCnt == buckets.Length >= 4 && Holds(buckets[..], elems, hash) && elemCnt == |elems|
      modifies this`buckets, this`bucketCnt, buckets
      ensures bucketCnt == buckets.Length >= 4 && Holds(buckets[..], elems, hash)
      ensures buckets == old(buckets) || fresh(buckets)
      ensures (settled ==> bucketCnt == IdealBuckets(elemCnt)) && (calm ==> settled)
      ensures !settled ==> buckets == old(buckets) && buckets[..] == old(buckets[..]) && bucketCnt == old(bucketCnt)
    {
      var n := CountBuckets(elemCnt);
      IdealLoad(elemCnt);
      if n == bucketCnt {
        return true;
      }
      var noMemory: bool := *;
      if noMemory && !calm {
        return false;
      }
      MoveAll(n);
      return true;
    }

    /** Adds e unless an equal element is there, which is then returned. */
    method Insert(e: E, calm: bool) returns (r: Option<E>, ghost settled: bool)
      requires Valid()
      modifies this`buckets, this`bucketCnt, this`elemCnt, this`elems, buckets
      ensures Valid() && (buckets == old(buckets) || fresh(buckets))
      ensures r.Some? ==> r.value in old(elems) && Same(r.value, e, less) && elems == old(elems)
      ensures r.None? ==> (forall x | x in old(elems) :: !Same(x, e, less)) && elems == old(elems) + {e}
      ensures (settled ==> elemCnt < 4 * bucketCnt) && (calm ==> settled)
    {
      EqualsAreAtHome(buckets[..], elems, hash, less, e);
      var bucket := Home(e, bucketCnt, hash);
      r := FindElem(bucket, e);
      assert r.Some? ==> Same(r.value, e, less) && r.value in buckets[..][bucket];
      KeyedAfter(elems, e, hash, less);
      if r.None? {
        assert Same(e, e, less);
        InsertElem(bucket, e);
      }
      settled := Rehash(calm);
      IdealLoad(elemCnt);
    }

    /** Adds e in place of an equal element, which is then returned. */
    method Replace(e: E, calm: bool) returns (r: Option<E>, ghost settled: bool)
      requires Valid()
      modifies this`buckets, this`bucketCnt, this`elemCnt, this`elems, buckets
      ensures Valid() && (buckets == old(buckets) || fresh(buckets))
      ensures r.Some? ==> r.value in old(elems) && Same(r.value, e, less) && elems == old(elems) - {r.value} + {e}
      ensures r.None? ==> (forall x | x in old(elems) :: !Same(x, e, less)) && elems == old(elems) + {e}
      ensures (settled ==> elemCnt < 4 * bucketCnt) && (calm ==> settled)
    {
      EqualsAreAtHome(buckets[..], elems, hash, less, e);
      var bucket := Home(e, bucketCnt, hash);
      r := FindElem(bucket, e);
      assert r.Some? ==> Same(r.value, e, less) && r.value in buckets[..][bucket];
      assert Same(e, e, less);
      KeyedAfter(elems, e, hash, less);
      if r.Some? {
        RemoveElem(bucket, r.value);
      }
      InsertElem(bucket, e);
      settled := Rehash(calm);
      IdealLoad(elemCnt);
    }

    /** Removes and returns the element equal to e, if there is one. */
    method Delete(e: E, calm: bool) returns (r: Option<E>, ghost settled: bool)
      requires Valid()
      modifies this`buckets, this`bucketCnt, this`elemCnt, this`elems, buckets
      ensures Valid() && (buckets == old(buckets) || fresh(buckets))
      ensures r.Some? ==> r.value in old(elems) && Same(r.value, e, less) && elems == old(elems) - {r.value}
      ensures r.None? ==> (forall x | x in old(elems) :: !Same(x, e, less)) && elems == old(elems)
      ensures r.Some? ==> (settled ==> elemCnt < 4 * bucketCnt) && (calm ==> settled)
    {
      settled := false;
      EqualsAreAtHome(buckets[..], elems, hash, less, e);
      var bucket := Home(e, bucketCnt, hash);
      r := FindElem(bucket, e);
      assert r.Some? ==> Same(r.value, e, less) && r.value in buckets[..][bucket];
      if r.Some? {
        RemoveElem(bucket, r.value);
        settled := Rehash(calm);
        IdealLoad(elemCnt);
      }
    }
  }

  lemma AllMoved<E>(bs: Buckets<E>, rest: set<E>, hash: E -> nat)
    requires Holds(bs, rest, hash) && forall k | 0 <= k < |bs| :: bs[k] == []
    ensures rest == {}
  {
    HeldSomewhere(bs, rest, hash);
  }

  lemma HeldSomewhere<E>(bs: Buckets<E>, elems: set<E>, hash: E -> nat)
    requires Holds(bs, elems, hash)
    ensures elems == {} || exists k :: 0 <= k < |bs| && bs[k] != []
  {
    if elems != {} {
      var e :| e in elems;
      assert e in bs[Home(e, |bs|, hash)];
    }
  }

  lemma {:induction false} AllSeen<E>(bs: Buckets<E>, elems: set<E>, hash: E -> nat, seen: seq<E>)
    requires Holds(bs, elems, hash) && seen == Flatten(bs, |bs|)
    ensures Distinct(seen) && Elements(seen) == elems
  {
    FlattenMembers(bs, elems, hash, |bs|);
    assert forall e :: e in elems ==> Home(e, |bs|, hash) < |bs|;
  }

  // ----- iteration -----------------------------------------------------------------------------

  /** struct hash_iterator: the current element is the pos-th of its bucket, or (pos < 0) the bucket's head. */
  class HashIterator<E(!new, ==)> {
    const table: Hash<E>
    var bucket: nat
    var pos: int
    /** What hash_next has returned. */
    ghost var seen: seq<E>

    ghost predicate Valid()
      reads this, table, table.buckets
    {
      && table.Valid() && bucket < table.buckets.Length && -1 <= pos < |table.buckets[bucket]|
      && seen == Flatten(table.buckets[..], bucket) + table.buckets[bucket][..pos + 1]
    }

    /** hash_first. */
    constructor (h: Hash<E>)
      requires h.Valid()
      ensures Valid() && table == h && seen == []
    {
      table, bucket, pos, seen := h, 0, -1, [];
    }

    /** hash_next. At the end every element of the table has been returned, exactly once. */
    method Next() returns (r: Option<E>)
      requires Valid()
      modifies this
      ensures r.Some? ==> Valid() && seen == old(seen) + [r.value]
      ensures r.None? ==> seen == old(seen) && Distinct(seen) && Elements(seen) == table.elems
    {
      ghost var bs := table.buckets[..];
      pos := pos + 1;
      while pos == |table.buckets[bucket]|
        invariant bucket < table.buckets.Length && 0 <= pos <= |table.buckets[bucket]| && seen == old(seen)
        invariant seen == Flatten(bs, bucket) + table.buckets[bucket][..pos]
        decreases table.buckets.Length - bucket
      {
        assert table.buckets[bucket][..pos] == bs[bucket];
        bucket := bucket + 1;
        if bucket >= table.bucketCnt {
          AllSeen(bs, table.elems, table.hash, seen);
          return None;
        }
        pos := 0;
      }
      r := Some(table.buckets[bucket][pos]);
      seen := seen + [r.value];
      assert table.buckets[bucket][..pos + 1] == table.buckets[bucket][..pos] + [r.value];
    }
  }
}
