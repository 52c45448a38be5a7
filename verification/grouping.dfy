/**
 Bucketing by key with a dictionary whose keys keep insertion order, as a
 JavaScript object does for string keys: the first element with a new key
 opens a bucket at the end, later ones are pushed onto their key's bucket.
 The month labels of the listing are such keys.
 */
module Grouping {
  import opened Seqs

  /** One bucket: a key and the elements filed under it. */
  datatype Group<K, T> = Group(key: K, members: seq<T>)

  function KeyOf<K, T>(g: Group<K, T>): K
  {
    g.key
  }

  /** The bucket keys, in bucket order (`Object.keys`). */
  function Keys<K, T>(gs: seq<Group<K, T>>): (ks: seq<K>)
    ensures |ks| == |gs| && forall i :: 0 <= i < |gs| ==> ks[i] == gs[i].key
  {
    seq(|gs|, i requires 0 <= i < |gs| => gs[i].key)
  }

  /** All elements, bucket after bucket. */
  function Flatten<K, T>(gs: seq<Group<K, T>>): seq<T>
  {
    if |gs| == 0 then [] else gs[0].members + Flatten(gs[1..])
  }

  /** Files `x` under key `k`: pushes it onto that bucket, or opens a new last bucket. */
  function Place<K(==), T>(gs: seq<Group<K, T>>, k: K, x: T): seq<Group<K, T>>
  {
    if |gs| == 0 then [Group(k, [x])]
    else if gs[0].key == k then [gs[0].(members := gs[0].members + [x])] + gs[1..]
    else [gs[0]] + Place(gs[1..], k, x)
  }

  /** Visits `s` in order and files every element under its key. */
  function GroupBy<K(==), T>(s: seq<T>, key: T -> K): seq<Group<K, T>>
  {
    if |s| == 0 then [] else Place(GroupBy(s[..|s| - 1], key), key(s[|s| - 1]), s[|s| - 1])
  }

  /** Grouping one more element files it into the grouping of the rest. */
  lemma {:induction false} GroupBySnoc<K, T>(s: seq<T>, x: T, key: T -> K)
    ensures GroupBy(s + [x], key) == Place(GroupBy(s, key), key(x), x)
  {
    assert (s + [x])[..|s|] == s;
  }

  /** The position of the first element of `s` with key `k`, or `|s|` when there is none. */
  function FirstIndex<T, K(==)>(s: seq<T>, key: T -> K, k: K): nat
  {
    if |s| == 0 then 0 else if key(s[0]) == k then 0 else 1 + FirstIndex(s[1..], key, k)
  }

  lemma {:induction false} FirstIndexSpec<T, K>(s: seq<T>, key: T -> K, k: K)
    ensures FirstIndex(s, key, k) <= |s|
    ensures FirstIndex(s, key, k) < |s| ==> key(s[FirstIndex(s, key, k)]) == k
    ensures forall j :: 0 <= j < FirstIndex(s, key, k) && j < |s| ==> key(s[j]) != k
  {
    if |s| > 0 && key(s[0]) != k {
      FirstIndexSpec(s[1..], key, k);
    }
  }

  lemma {:induction false} FirstIndexAppend<T, K>(s: seq<T>, x: T, key: T -> K, k: K)
    ensures FirstIndex(s + [x], key, k) ==
      if FirstIndex(s, key, k) < |s| then FirstIndex(s, key, k)
      else if key(x) == k then |s| else |s| + 1
  {
    FirstIndexSpec(s, key, k);
    if |s| > 0 {
      assert (s + [x])[1..] == s[1..] + [x];
      if key(s[0]) != k {
        FirstIndexAppend(s[1..], x, key, k);
      }
    }
  }

  lemma {:induction false} FlattenAppend<K, T>(gs: seq<Group<K, T>>, g: Group<K, T>)
    ensures Flatten(gs + [g]) == Flatten(gs) + g.members
  {
    if |gs| == 0 {
      assert gs + [g] == [g];
    } else {
      assert (gs + [g])[1..] == gs[1..] + [g];
      FlattenAppend(gs[1..], g);
    }
  }

  lemma {:induction false} PlaceCounts<K, T>(gs: seq<Group<K, T>>, k: K, x: T)
    ensures multiset(Flatten(Place(gs, k, x))) == multiset(Flatten(gs)) + multiset{x}
  {
    if |gs| > 0 && gs[0].key != k {
      PlaceCounts(gs[1..], k, x);
    }
  }

  /** With distinct keys, filing under a key already present pushes onto that one bucket. */
  lemma {:induction false} PlaceExisting<K, T>(gs: seq<Group<K, T>>, i: int, x: T)
    requires 0 <= i < |gs| && DistinctKeys(gs, KeyOf)
    ensures Place(gs, gs[i].key, x) == gs[i := gs[i].(members := gs[i].members + [x])]
  {
    var g := gs[i].(members := gs[i].members + [x]);
    if i > 0 {
      assert KeyOf(gs[0]) != KeyOf(gs[i]);
      var t := gs[1..];
      assert DistinctKeys(t, KeyOf) by {
        forall a, b | 0 <= a < b < |t| ensures KeyOf(t[a]) != KeyOf(t[b]) {
          assert t[a] == gs[a + 1] && t[b] == gs[b + 1];
        }
      }
      assert t[i - 1] == gs[i];
      PlaceExisting(t, i - 1, x);
      assert [gs[0]] + t[i - 1 := g] == gs[i := g];
    }
  }

  /** Filing under a key not yet present opens a new last bucket. */
  lemma {:induction false} PlaceNew<K, T>(gs: seq<Group<K, T>>, k: K, x: T)
    requires k !in Keys(gs)
    ensures Place(gs, k, x) == gs + [Group(k, [x])]
  {
    if |gs| > 0 {
      assert gs[0].key == Keys(gs)[0];
      assert Keys(gs[1..]) == Keys(gs)[1..];
      PlaceNew(gs[1..], k, x);
    }
  }

  /** Each bucket holds exactly the elements of `s` with its key, in order, and is not empty. */
  ghost predicate BucketsExact<K, T(!new)>(gs: seq<Group<K, T>>, s: seq<T>, key: T -> K)
  {
    forall i :: 0 <= i < |gs| ==> gs[i].members == Members(s, key, gs[i].key) && |gs[i].members| > 0
  }

  /** Every element's key has a bucket. */
  ghost predicate KeysCover<K, T>(gs: seq<Group<K, T>>, s: seq<T>, key: T -> K)
  {
    forall x :: x in s ==> key(x) in Keys(gs)
  }

  /** Buckets come in the order their keys first appear in `s`. */
  ghost predicate FirstAppearanceOrder<K, T>(gs: seq<Group<K, T>>, s: seq<T>, key: T -> K)
  {
    forall p, q :: 0 <= p < q < |gs| ==> FirstIndex(s, key, gs[p].key) < FirstIndex(s, key, gs[q].key) < |s|
  }

  /** The facts `GroupBy` keeps as it visits `s`. */
  ghost predicate Partitions<K, T(!new)>(gs: seq<Group<K, T>>, s: seq<T>, key: T -> K)
  {
    && DistinctKeys(gs, KeyOf)
    && BucketsExact(gs, s, key)
    && KeysCover(gs, s, key)
    && FirstAppearanceOrder(gs, s, key)
    && multiset(Flatten(gs)) == multiset(s)
  }

  lemma {:induction false} MembersAppend<K, T(!new)>(s: seq<T>, x: T, key: T -> K, j: K)
    ensures Members(s + [x], key, j) == Members(s, key, j) + (if key(x) == j then [x] else [])
  {
    FilterAppend(s, [x], HasKey(key, j));
  }

  lemma {:induction false} FirstIndexOfBucket<K, T(!new)>(gs: seq<Group<K, T>>, s: seq<T>, x: T, key: T -> K, i: int)
    requires BucketsExact(gs, s, key) && 0 <= i < |gs|
    ensures FirstIndex(s + [x], key, gs[i].key) == FirstIndex(s, key, gs[i].key) < |s|
  {
    var j := gs[i].key;
    assert gs[i].members[0] in Members(s, key, j);
    MembersHead(s, key, j);
    FirstIndexAppend(s, x, key, j);
  }

  lemma {:induction false} AbsentKeyHasNoMembers<K, T(!new)>(gs: seq<Group<K, T>>, s: seq<T>, key: T -> K, k: K)
    requires KeysCover(gs, s, key) && k !in Keys(gs)
    ensures Members(s, key, k) == []
    ensures FirstIndex(s, key, k) == |s|
  {
    forall y | y in s ensures !HasKey(key, k)(y) { }
    FilterKeepsNone(s, HasKey(key, k));
    FirstIndexSpec(s, key, k);
  }

  lemma {:induction false} ExistingKeepsBuckets<K, T(!new)>(gs: seq<Group<K, T>>, s: seq<T>, x: T, key: T -> K, i: int)
    requires DistinctKeys(gs, KeyOf) && BucketsExact(gs, s, key) && 0 <= i < |gs| && gs[i].key == key(x)
    ensures BucketsExact(gs[i := gs[i].(members := gs[i].members + [x])], s + [x], key)
  {
    var gs' := gs[i := gs[i].(members := gs[i].members + [x])];
    forall a | 0 <= a < |gs'| ensures gs'[a].members == Members(s + [x], key, gs'[a].key) {
      MembersAppend(s, x, key, gs'[a].key);
      if a != i {
        assert KeyOf(gs[a]) != KeyOf(gs[i]);
      }
    }
  }

  lemma {:induction false} ExistingKeepsOrder<K, T(!new)>(gs: seq<Group<K, T>>, s: seq<T>, x: T, key: T -> K, i: int)
    requires BucketsExact(gs, s, key) && FirstAppearanceOrder(gs, s, key) && 0 <= i < |gs|
    ensures FirstAppearanceOrder(gs[i := gs[i].(members := gs[i].members + [x])], s + [x], key)
  {
    forall a | 0 <= a < |gs| ensures FirstIndex(s + [x], key, gs[a].key) == FirstIndex(s, key, gs[a].key) < |s| {
      FirstIndexOfBucket(gs, s, x, key, a);
    }
  }

  lemma {:induction false} PlaceIntoExisting<K, T(!new)>(gs: seq<Group<K, T>>, s: seq<T>, x: T, key: T -> K, i: int)
    requires Partitions(gs, s, key) && 0 <= i < |gs| && gs[i].key == key(x)
    ensures Partitions(Place(gs, key(x), x), s + [x], key)
  {
    PlaceExisting(gs, i, x);
    var gs' := gs[i := gs[i].(members := gs[i].members + [x])];
    assert Keys(gs') == Keys(gs);
    assert DistinctKeys(gs', KeyOf) by {
      forall a, b | 0 <= a < b < |gs'| ensures KeyOf(gs'[a]) != KeyOf(gs'[b]) {
        assert KeyOf(gs[a]) != KeyOf(gs[b]);
      }
    }
    ExistingKeepsBuckets(gs, s, x, key, i);
    ExistingKeepsOrder(gs, s, x, key, i);
    PlaceCounts(gs, key(x), x);
  }

  lemma {:induction false} NewKeepsBuckets<K, T(!new)>(gs: seq<Group<K, T>>, s: seq<T>, x: T, key: T -> K)
    requires BucketsExact(gs, s, key) && KeysCover(gs, s, key) && key(x) !in Keys(gs)
    ensures BucketsExact(gs + [Group(key(x), [x])], s + [x], key)
  {
    var gs' := gs + [Group(key(x), [x])];
    AbsentKeyHasNoMembers(gs, s, key, key(x));
    forall a | 0 <= a < |gs'| ensures gs'[a].members == Members(s + [x], key, gs'[a].key) {
      MembersAppend(s, x, key, gs'[a].key);
      if a < |gs| {
        assert gs[a].key in Keys(gs);
      }
    }
  }

  lemma {:induction false} NewKeepsOrder<K, T(!new)>(gs: seq<Group<K, T>>, s: seq<T>, x: T, key: T -> K)
    requires BucketsExact(gs, s, key) && KeysCover(gs, s, key) && FirstAppearanceOrder(gs, s, key) && key(x) !in Keys(gs)
    ensures FirstAppearanceOrder(gs + [Group(key(x), [x])], s + [x], key)
  {
    forall a | 0 <= a < |gs| ensures FirstIndex(s + [x], key, gs[a].key) == FirstIndex(s, key, gs[a].key) < |s| {
      FirstIndexOfBucket(gs, s, x, key, a);
    }
    AbsentKeyHasNoMembers(gs, s, key, key(x));
    FirstIndexAppend(s, x, key, key(x));
  }

  lemma {:induction false} PlaceIntoNew<K, T(!new)>(gs: seq<Group<K, T>>, s: seq<T>, x: T, key: T -> K)
    requires Partitions(gs, s, key) && key(x) !in Keys(gs)
    ensures Partitions(Place(gs, key(x), x), s + [x], key)
  {
    var k := key(x);
    PlaceNew(gs, k, x);
    var gs' := gs + [Group(k, [x])];
    assert forall a :: 0 <= a < |gs| ==> gs[a].key in Keys(gs);
    assert DistinctKeys(gs', KeyOf);
    NewKeepsBuckets(gs, s, x, key);
    assert KeysCover(gs', s + [x], key) by {
      assert Keys(gs') == Keys(gs) + [k];
    }
    NewKeepsOrder(gs, s, x, key);
    PlaceCounts(gs, k, x);
  }

  lemma {:induction false} PlaceKeepsPartition<K, T(!new)>(gs: seq<Group<K, T>>, s: seq<T>, x: T, key: T -> K)
    requires Partitions(gs, s, key)
    ensures Partitions(Place(gs, key(x), x), s + [x], key)
  {
    if key(x) in Keys(gs) {
      var i :| 0 <= i < |gs| && gs[i].key == key(x);
      PlaceIntoExisting(gs, s, x, key, i);
    } else {
      PlaceIntoNew(gs, s, x, key);
    }
  }

  /**
   `GroupBy` partitions `s`: one bucket per key occurring in `s`, keys distinct and
   in order of first appearance, each bucket holding exactly the elements with its
   key in their original order, and every element filed exactly once.
   */
  lemma {:induction false} GroupByPartitions<K, T(!new)>(s: seq<T>, key: T -> K)
    ensures Partitions(GroupBy(s, key), s, key)
  {
    if |s| > 0 {
      var p, x := s[..|s| - 1], s[|s| - 1];
      assert s == p + [x];
      assert GroupBy(s, key) == Place(GroupBy(p, key), key(x), x);
      GroupByPartitions(p, key);
      PlaceKeepsPartition(GroupBy(p, key), p, x, key);
    }
  }

  /** Equal keys go with equal ranks and different keys with different ranks. */
  ghost predicate RankDecidesKey<T, K>(s: seq<T>, key: T -> K, rank: T -> int)
  {
    forall i, j :: 0 <= i < |s| && 0 <= j < |s| ==> (key(s[i]) == key(s[j]) <==> rank(s[i]) == rank(s[j]))
  }

  /** The last element read back from the buckets sits in the last bucket. */
  lemma {:induction false} LastBucketKey<K, T(!new)>(gs: seq<Group<K, T>>, p: seq<T>, key: T -> K)
    requires BucketsExact(gs, p, key) && Flatten(gs) == p && |p| > 0
    ensures |gs| > 0 && gs[|gs| - 1].key == key(p[|p| - 1])
  {
    var n := |gs| - 1;
    assert gs == gs[..n] + [gs[n]];
    FlattenAppend(gs[..n], gs[n]);
    var y := p[|p| - 1];
    assert y == gs[n].members[|gs[n].members| - 1];
    assert y in Members(p, key, gs[n].key);
  }

  lemma {:induction false} FlattenGrowLast<K, T>(a: seq<Group<K, T>>, g: Group<K, T>, x: T)
    ensures Flatten(a + [g.(members := g.members + [x])]) == Flatten(a + [g]) + [x]
  {
    FlattenAppend(a, g);
    FlattenAppend(a, g.(members := g.members + [x]));
  }

  /** An element with the key of the last bucket is pushed onto that bucket. */
  lemma {:induction false} SameRun<K, T>(gs: seq<Group<K, T>>, x: T, key: T -> K)
    requires DistinctKeys(gs, KeyOf) && |gs| > 0 && gs[|gs| - 1].key == key(x)
    ensures Flatten(Place(gs, key(x), x)) == Flatten(gs) + [x]
  {
    var n := |gs| - 1;
    var a := gs[..n];
    var g := gs[n];
    PlaceExisting(gs, n, x);
    assert Place(gs, key(x), x) == a + [g.(members := g.members + [x])];
    assert gs == a + [g];
    FlattenGrowLast(a, g, x);
  }

  /** An element whose key has not occurred yet opens a bucket at the end. */
  lemma {:induction false} NewRun<K, T(!new)>(gs: seq<Group<K, T>>, p: seq<T>, x: T, key: T -> K)
    requires Partitions(gs, p, key) && Flatten(gs) == p
    requires forall z :: z in p ==> key(z) != key(x)
    ensures Flatten(Place(gs, key(x), x)) == p + [x]
  {
    assert key(x) !in Keys(gs) by {
      forall i | 0 <= i < |gs| ensures gs[i].key != key(x) {
        assert gs[i].members[0] in Members(p, key, gs[i].key);
      }
    }
    PlaceNew(gs, key(x), x);
    FlattenAppend(gs, Group(key(x), [x]));
  }

  /**
   When `s` is ordered by a rank that decides the key, each key's elements form
   one run, so reading the buckets back gives `s` unchanged.
   */
  lemma {:induction false} RankedGroupByFlattens<K, T(!new)>(s: seq<T>, key: T -> K, rank: T -> int)
    requires NonIncreasing(s, rank) && RankDecidesKey(s, key, rank)
    ensures Flatten(GroupBy(s, key)) == s
  {
    if |s| > 0 {
      var p, x := s[..|s| - 1], s[|s| - 1];
      assert s == p + [x];
      GroupBySnoc(p, x, key);
      assert NonIncreasing(p, rank) && RankDecidesKey(p, key, rank);
      RankedGroupByFlattens(p, key, rank);
      GroupByPartitions(p, key);
      RankedStep(GroupBy(p, key), p, x, key, rank);
    }
  }

  /** Filing the next element of a ranked sequence extends the read-back by that element. */
  lemma {:induction false} RankedStep<K, T(!new)>(gs: seq<Group<K, T>>, p: seq<T>, x: T, key: T -> K, rank: T -> int)
    requires Partitions(gs, p, key) && Flatten(gs) == p
    requires NonIncreasing(p + [x], rank) && RankDecidesKey(p + [x], key, rank)
    ensures Flatten(Place(gs, key(x), x)) == p + [x]
  {
    var s := p + [x];
    if |p| == 0 {
      PlaceNew(gs, key(x), x);
    } else if rank(x) == rank(p[|p| - 1]) {
      assert key(s[|p|]) == key(s[|p| - 1]);
      LastBucketKey(gs, p, key);
      SameRun(gs, x, key);
    } else {
      EarlierKeysDiffer(p, x, key, rank);
      NewRun(gs, p, x, key);
    }
  }

  /** In a ranked sequence, an element ranked below its predecessor has a key no earlier element has. */
  lemma {:induction false} EarlierKeysDiffer<K, T>(p: seq<T>, x: T, key: T -> K, rank: T -> int)
    requires NonIncreasing(p + [x], rank) && RankDecidesKey(p + [x], key, rank)
    requires |p| > 0 && rank(x) != rank(p[|p| - 1])
    ensures forall z :: z in p ==> key(z) != key(x)
  {
    var s := p + [x];
    forall z | z in p ensures key(z) != key(x) {
      var m :| 0 <= m < |p| && p[m] == z;
      assert s[m] == z && s[|p| - 1] == p[|p| - 1] && s[|p|] == x;
      assert rank(s[m]) >= rank(s[|p| - 1]) > rank(s[|p|]);
    }
  }

  /** The first element of a bucket is where its key first appears. */
  lemma {:induction false} MembersHead<T(!new), K>(s: seq<T>, key: T -> K, k: K)
    requires Members(s, key, k) != []
    ensures FirstIndex(s, key, k) < |s| && Members(s, key, k)[0] == s[FirstIndex(s, key, k)]
  {
    MembersCons(s, key, k);
    if key(s[0]) != k {
      MembersHead(s[1..], key, k);
    }
  }

  /**
   When `s` is ordered by a rank that decides the key, the buckets come out in
   strictly decreasing rank.
   */
  lemma {:induction false} RankedGroupByOrder<K, T(!new)>(s: seq<T>, key: T -> K, rank: T -> int)
    requires NonIncreasing(s, rank) && RankDecidesKey(s, key, rank)
    ensures var gs := GroupBy(s, key);
      && (forall p :: 0 <= p < |gs| ==> |gs[p].members| > 0)
      && (forall p, q :: 0 <= p < q < |gs| ==> rank(gs[p].members[0]) > rank(gs[q].members[0]))
  {
    var gs := GroupBy(s, key);
    GroupByPartitions(s, key);
    forall p, q | 0 <= p < q < |gs| ensures rank(gs[p].members[0]) > rank(gs[q].members[0]) {
      MembersHead(s, key, gs[p].key);
      MembersHead(s, key, gs[q].key);
      FirstIndexSpec(s, key, gs[p].key);
      FirstIndexSpec(s, key, gs[q].key);
      assert KeyOf(gs[p]) != KeyOf(gs[q]);
    }
  }
}
