/**
 Generic facts about sequences: `Array.prototype.filter`, subsequences,
 ordering by an integer rank and distinctness of a key.
 */
module Seqs {

  /** `a` is obtained from `b` by deleting some elements and keeping the rest in order. */
  ghost predicate IsSubsequence<T>(a: seq<T>, b: seq<T>)
    decreases |b|
  {
    if |a| == 0 then true
    else if |b| == 0 then false
    else (a[0] == b[0] && IsSubsequence(a[1..], b[1..])) || IsSubsequence(a, b[1..])
  }

  lemma {:induction false} SubsequenceMembers<T>(a: seq<T>, b: seq<T>)
    requires IsSubsequence(a, b)
    ensures forall x :: x in a ==> x in b
    decreases |b|
  {
    if |a| > 0 {
      if a[0] == b[0] && IsSubsequence(a[1..], b[1..]) {
        SubsequenceMembers(a[1..], b[1..]);
        forall x | x in a ensures x in b {
          if x != a[0] {
            assert x in a[1..];
          }
        }
      } else {
        SubsequenceMembers(a, b[1..]);
      }
    }
  }

  /** The elements of `s` satisfying `p`, in their original order. */
  function Filter<T(!new)>(s: seq<T>, p: T -> bool): (r: seq<T>)
    ensures |r| <= |s|
    ensures forall x :: x in r <==> x in s && p(x)
    ensures IsSubsequence(r, s)
  {
    if |s| == 0 then []
    else if p(s[0]) then [s[0]] + Filter(s[1..], p)
    else Filter(s[1..], p)
  }

  /** Filtering keeps every passing element exactly as many times as it occurs. */
  lemma {:induction false} FilterCounts<T(!new)>(s: seq<T>, p: T -> bool)
    ensures forall x :: multiset(Filter(s, p))[x] == if p(x) then multiset(s)[x] else 0
  {
    if |s| > 0 {
      FilterCounts(s[1..], p);
      assert s == [s[0]] + s[1..];
    }
  }

  lemma {:induction false} FilterAppend<T(!new)>(a: seq<T>, b: seq<T>, p: T -> bool)
    ensures Filter(a + b, p) == Filter(a, p) + Filter(b, p)
  {
    if |a| == 0 {
      assert a + b == b;
    } else {
      var c, t := a + b, a[1..];
      assert c[0] == a[0] && c[1..] == t + b;
      FilterAppend(t, b, p);
    }
  }

  /** Filtering keeps everything when every element passes. */
  lemma {:induction false} FilterKeepsAll<T(!new)>(s: seq<T>, p: T -> bool)
    requires forall x :: x in s ==> p(x)
    ensures Filter(s, p) == s
  {
    if |s| > 0 {
      assert forall x :: x in s[1..] ==> x in s;
      FilterKeepsAll(s[1..], p);
    }
  }

  /** Filtering drops everything when nothing passes. */
  lemma {:induction false} FilterKeepsNone<T(!new)>(s: seq<T>, p: T -> bool)
    requires forall x :: x in s ==> !p(x)
    ensures Filter(s, p) == []
  {
    if |s| > 0 {
      assert forall x :: x in s[1..] ==> x in s;
      FilterKeepsNone(s[1..], p);
    }
  }

  /** A second, stronger filter makes the first one redundant. */
  lemma {:induction false} FilterNarrower<T(!new)>(s: seq<T>, p: T -> bool, q: T -> bool)
    requires forall x :: x in s && q(x) ==> p(x)
    ensures Filter(Filter(s, p), q) == Filter(s, q)
  {
    if |s| > 0 {
      assert forall x :: x in s[1..] ==> x in s;
      FilterNarrower(s[1..], p, q);
    }
  }

  /** Two filters may be applied in either order. */
  lemma {:induction false} CommuteFilters<T(!new)>(s: seq<T>, p: T -> bool, q: T -> bool)
    ensures Filter(Filter(s, p), q) == Filter(Filter(s, q), p)
  {
    if |s| > 0 {
      CommuteFilters(s[1..], p, q);
    }
  }

  /** Splitting by a predicate and its negation loses and duplicates nothing. */
  lemma {:induction false} FilterComplementLength<T(!new)>(s: seq<T>, p: T -> bool, q: T -> bool)
    requires forall x :: q(x) == !p(x)
    ensures |Filter(s, p)| + |Filter(s, q)| == |s|
  {
    if |s| > 0 {
      FilterComplementLength(s[1..], p, q);
    }
  }

  /** The test "has key `k`". */
  function HasKey<T(!new), K(==)>(key: T -> K, k: K): (p: T -> bool)
    ensures forall x :: p(x) <==> key(x) == k
  {
    x => key(x) == k
  }

  /** The elements of `s` whose key is `k`, in their original order. */
  function Members<T(!new), K(==)>(s: seq<T>, key: T -> K, k: K): seq<T>
  {
    Filter(s, HasKey(key, k))
  }

  /** Unfolds `Members` one element from the front. */
  lemma {:induction false} MembersCons<T(!new), K>(s: seq<T>, key: T -> K, k: K)
    requires |s| > 0
    ensures Members(s, key, k) == (if key(s[0]) == k then [s[0]] else []) + Members(s[1..], key, k)
  {
  }

  /** The rank never increases along `s`. */
  ghost predicate NonIncreasing<T>(s: seq<T>, rank: T -> int)
  {
    forall i, j :: 0 <= i < j < |s| ==> rank(s[i]) >= rank(s[j])
  }

  /** No two elements of `s` share a key. */
  ghost predicate DistinctKeys<T, K>(s: seq<T>, key: T -> K)
  {
    forall i, j :: 0 <= i < j < |s| ==> key(s[i]) != key(s[j])
  }

  lemma {:induction false} SubsequenceNonIncreasing<T>(a: seq<T>, b: seq<T>, rank: T -> int)
    requires IsSubsequence(a, b)
    requires NonIncreasing(b, rank)
    ensures NonIncreasing(a, rank)
    decreases |b|
  {
    if |a| > 0 {
      if a[0] == b[0] && IsSubsequence(a[1..], b[1..]) {
        SubsequenceNonIncreasing(a[1..], b[1..], rank);
        SubsequenceMembers(a[1..], b[1..]);
        forall j | 0 < j < |a| ensures rank(a[0]) >= rank(a[j]) {
          assert a[j] in a[1..];
          var m :| 0 <= m < |b[1..]| && b[1..][m] == a[j];
          assert b[m + 1] == a[j];
        }
      } else {
        SubsequenceNonIncreasing(a, b[1..], rank);
      }
    }
  }

  /** With distinct keys, every key selects at most one element. */
  lemma {:induction false} DistinctKeysAtMostOne<T(!new), K>(s: seq<T>, key: T -> K, k: K)
    requires DistinctKeys(s, key)
    ensures |Members(s, key, k)| <= 1
  {
    if |s| > 0 {
      MembersCons(s, key, k);
      DistinctKeysAtMostOne(s[1..], key, k);
      if key(s[0]) == k {
        forall x | x in s[1..] ensures !HasKey(key, k)(x) {
          var m :| 0 <= m < |s[1..]| && s[1..][m] == x;
          assert s[m + 1] == x;
        }
        FilterKeepsNone(s[1..], HasKey(key, k));
      }
    }
  }

  /** Two positions with the same key select at least two elements. */
  lemma {:induction false} SharedKeyAtLeastTwo<T(!new), K>(s: seq<T>, key: T -> K, i: int, j: int)
    requires 0 <= i < j < |s|
    ensures key(s[i]) == key(s[j]) ==> |Members(s, key, key(s[i]))| >= 2
  {
    var k := key(s[i]);
    MembersCons(s, key, k);
    if i == 0 {
      assert s[j] in s[1..];
    } else {
      SharedKeyAtLeastTwo(s[1..], key, i - 1, j - 1);
    }
  }

  /** Keys are distinct exactly when no key selects two elements. */
  lemma {:induction false} AtMostOneDistinctKeys<T(!new), K>(s: seq<T>, key: T -> K)
    requires forall k :: |Members(s, key, k)| <= 1
    ensures DistinctKeys(s, key)
  {
    forall i, j | 0 <= i < j < |s| ensures key(s[i]) != key(s[j]) {
      assert |Members(s, key, key(s[i]))| <= 1;
      SharedKeyAtLeastTwo(s, key, i, j);
    }
  }

  /** Rearranging a sequence keeps its elements. */
  lemma {:induction false} SameElements<T>(a: seq<T>, b: seq<T>)
    requires multiset(a) == multiset(b)
    ensures forall x :: x in a <==> x in b
  {
    forall x ensures x in a <==> x in b {
      assert x in a <==> x in multiset(a);
      assert x in b <==> x in multiset(b);
    }
  }
}
