/**
 `Array.prototype.sort` with a comparator that orders by an integer rank,
 largest first. The built-in sort is stable, so the result is fixed: it is the
 one non-increasing arrangement that keeps equal-rank elements in input order.
 That arrangement is computed here by insertion.
 */
module Sorting {
  import opened Seqs

  /** Places `x` before the first element whose rank does not exceed its own. */
  function Insert<T>(x: T, s: seq<T>, rank: T -> int): (r: seq<T>)
    ensures |r| == |s| + 1
    ensures multiset(r) == multiset(s) + multiset{x}
    ensures r[0] == x || (|s| > 0 && r[0] == s[0])
  {
    if |s| == 0 || rank(x) >= rank(s[0]) then [x] + s
    else
      var t := Insert(x, s[1..], rank);
      assert s == [s[0]] + s[1..];
      [s[0]] + t
  }

  /** Inserting into an ordered sequence keeps it ordered. */
  lemma {:induction false} InsertOrdered<T>(x: T, s: seq<T>, rank: T -> int)
    requires NonIncreasing(s, rank)
    ensures NonIncreasing(Insert(x, s, rank), rank)
  {
    if |s| > 0 && rank(x) < rank(s[0]) {
      var t := s[1..];
      assert NonIncreasing(t, rank);
      InsertOrdered(x, t, rank);
      var r := Insert(x, s, rank);
      var u := Insert(x, t, rank);
      assert r == [s[0]] + u;
      forall j | 0 < j < |r| ensures rank(r[0]) >= rank(r[j]) {
        assert rank(s[0]) >= rank(u[0]) by {
          if u[0] != x {
            assert u[0] == t[0] == s[1];
          }
        }
        assert r[j] == u[j - 1];
      }
    }
  }

  /** Sorting places the first element into the sorted rest. */
  lemma {:induction false} SortCons<T>(x: T, s: seq<T>, rank: T -> int)
    ensures SortDesc([x] + s, rank) == Insert(x, SortDesc(s, rank), rank)
  {
    assert ([x] + s)[0] == x && ([x] + s)[1..] == s;
  }

  /** An element ranked below everything already placed goes last. */
  lemma {:induction false} InsertSmallest<T>(x: T, s: seq<T>, rank: T -> int)
    requires forall i :: 0 <= i < |s| ==> rank(x) < rank(s[i])
    ensures Insert(x, s, rank) == s + [x]
  {
    if |s| > 0 {
      InsertSmallest(x, s[1..], rank);
      assert [s[0]] + (s[1..] + [x]) == s + [x];
    }
  }

  /** The elements of `s` ordered by rank, largest first; ties keep their input order. */
  function SortDesc<T>(s: seq<T>, rank: T -> int): (r: seq<T>)
    ensures |r| == |s|
    ensures multiset(r) == multiset(s)
    ensures NonIncreasing(r, rank)
  {
    if |s| == 0 then []
    else
      assert s == [s[0]] + s[1..];
      InsertOrdered(s[0], SortDesc(s[1..], rank), rank);
      Insert(s[0], SortDesc(s[1..], rank), rank)
  }

  lemma {:induction false} InsertStable<T(!new)>(x: T, s: seq<T>, rank: T -> int, k: int)
    ensures Members(Insert(x, s, rank), rank, k) == (if rank(x) == k then [x] else []) + Members(s, rank, k)
  {
    var r := Insert(x, s, rank);
    if |s| == 0 || rank(x) >= rank(s[0]) {
      assert r == [x] + s;
      MembersCons(r, rank, k);
      assert r[1..] == s;
    } else {
      var t := Insert(x, s[1..], rank);
      assert r == [s[0]] + t;
      InsertStable(x, s[1..], rank, k);
      MembersCons(r, rank, k);
      assert r[1..] == t;
      MembersCons(s, rank, k);
      if rank(x) == k {
        assert rank(s[0]) != k;
      }
    }
  }

  /** The sort is stable: the elements of any one rank come out in their input order. */
  lemma {:induction false} SortStable<T(!new)>(s: seq<T>, rank: T -> int, k: int)
    ensures Members(SortDesc(s, rank), rank, k) == Members(s, rank, k)
  {
    if |s| > 0 {
      SortStable(s[1..], rank, k);
      InsertStable(s[0], SortDesc(s[1..], rank), rank, k);
      MembersCons(s, rank, k);
    }
  }

  lemma {:induction false} HeadHasMembers<T(!new)>(s: seq<T>, rank: T -> int)
    requires |s| > 0
    ensures Members(s, rank, rank(s[0])) != []
  {
    assert s[0] in Members(s, rank, rank(s[0]));
  }

  /**
   Two non-increasing sequences that agree on the elements of every rank, in
   order, are equal.
   */
  lemma {:induction false} StableOrderUnique<T(!new)>(a: seq<T>, b: seq<T>, rank: T -> int)
    requires NonIncreasing(a, rank) && NonIncreasing(b, rank)
    requires forall k :: Members(a, rank, k) == Members(b, rank, k)
    ensures a == b
  {
    if |a| == 0 && |b| == 0 {
    } else if |a| == 0 {
      HeadHasMembers(b, rank);
    } else if |b| == 0 {
      HeadHasMembers(a, rank);
    } else {
      var ka, kb := rank(a[0]), rank(b[0]);
      assert ka == kb by {
        assert a[0] in Members(a, rank, ka);
        assert a[0] in Members(b, rank, ka);
        assert b[0] in Members(b, rank, kb);
        assert b[0] in Members(a, rank, kb);
      }
      MembersCons(a, rank, ka);
      MembersCons(b, rank, ka);
      assert a[0] == b[0] by {
        assert Members(a, rank, ka)[0] == a[0];
        assert Members(b, rank, ka)[0] == b[0];
      }
      forall k ensures Members(a[1..], rank, k) == Members(b[1..], rank, k) {
        MembersCons(a, rank, k);
        MembersCons(b, rank, k);
      }
      StableOrderUnique(a[1..], b[1..], rank);
    }
  }

  /**
   Any stable arrangement of `s` by non-increasing rank is `SortDesc(s)`; so the
   model agrees with whichever stable algorithm the runtime uses.
   */
  lemma {:induction false} StableSortIsUnique<T(!new)>(s: seq<T>, r: seq<T>, rank: T -> int)
    requires NonIncreasing(r, rank)
    requires forall k :: Members(r, rank, k) == Members(s, rank, k)
    ensures r == SortDesc(s, rank)
  {
    forall k ensures Members(r, rank, k) == Members(SortDesc(s, rank), rank, k) {
      SortStable(s, rank, k);
    }
    StableOrderUnique(r, SortDesc(s, rank), rank);
  }

  /**
   When no two elements share a rank, the sort does not depend on the order of
   its input: any rearrangement of `a` sorts to the same sequence.
   */
  lemma {:induction false} SortDistinctIgnoresOrder<T(!new)>(a: seq<T>, b: seq<T>, rank: T -> int)
    requires multiset(a) == multiset(b)
    requires DistinctKeys(a, rank)
    ensures SortDesc(b, rank) == SortDesc(a, rank)
  {
    forall k ensures Members(b, rank, k) == Members(a, rank, k) {
      SameMembers(a, b, rank, k);
    }
    StableSortIsUnique(a, SortDesc(b, rank), rank) by {
      forall k ensures Members(SortDesc(b, rank), rank, k) == Members(a, rank, k) {
        SortStable(b, rank, k);
      }
    }
  }

  /** Rearranging a sequence whose ranks are distinct leaves each rank's (at most one) element unchanged. */
  lemma {:induction false} SameMembers<T(!new)>(a: seq<T>, b: seq<T>, rank: T -> int, k: int)
    requires multiset(a) == multiset(b)
    requires DistinctKeys(a, rank)
    ensures Members(b, rank, k) == Members(a, rank, k)
  {
    var ma, mb := Members(a, rank, k), Members(b, rank, k);
    FilterCounts(a, HasKey(rank, k));
    FilterCounts(b, HasKey(rank, k));
    assert multiset(ma) == multiset(mb);
    assert |mb| == |ma| by {
      assert |multiset(ma)| == |ma| && |multiset(mb)| == |mb|;
    }
    DistinctKeysAtMostOne(a, rank, k);
    if |ma| == 1 {
      assert ma == [ma[0]] && mb == [mb[0]];
      assert mb[0] in multiset(ma);
    }
  }

  /** Sorting an already ordered sequence changes nothing. */
  lemma {:induction false} SortOrderedIsIdentity<T(!new)>(s: seq<T>, rank: T -> int)
    requires NonIncreasing(s, rank)
    ensures SortDesc(s, rank) == s
  {
    StableSortIsUnique(s, s, rank);
  }

  function Reverse<T>(s: seq<T>): (r: seq<T>)
    ensures |r| == |s| && forall i :: 0 <= i < |s| ==> r[i] == s[|s| - 1 - i]
  {
    if |s| == 0 then [] else Reverse(s[1..]) + [s[0]]
  }

  /** Sorting a strictly ascending sequence largest first reverses it. */
  lemma {:induction false} SortAscending<T>(s: seq<T>, rank: T -> int)
    requires forall i, j :: 0 <= i < j < |s| ==> rank(s[i]) < rank(s[j])
    ensures SortDesc(s, rank) == Reverse(s)
  {
    if |s| > 0 {
      SortAscending(s[1..], rank);
      SortCons(s[0], s[1..], rank);
      assert [s[0]] + s[1..] == s;
      InsertSmallest(s[0], Reverse(s[1..]), rank);
    }
  }

  /** Three elements given in strictly ascending rank come out in reverse. */
  lemma {:induction false} SortThreeAscending<T>(a: T, b: T, c: T, rank: T -> int)
    requires rank(a) < rank(b) < rank(c)
    ensures SortDesc([a, b, c], rank) == [c, b, a]
  {
    ReverseThree(a, b, c);
    SortAscending([a, b, c], rank);
  }

  lemma {:induction false} ReverseThree<T>(a: T, b: T, c: T)
    ensures Reverse([a, b, c]) == [c, b, a]
  {
  }
}
