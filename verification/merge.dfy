/**
 The merge step of `importFiles`: the imported list is reconciled against the
 stored one by id, stored records always winning.
 */
module Import {
  import opened Seqs
  import opened Records

  /** The list to save and the count the script reports ("Imported N new files"). */
  datatype MergeResult = MergeResult(merged: seq<Record>, added: nat)

  /** The test `!existingIds.has(f.id)`. */
  function Unseen(ids: set<int>): (p: Record -> bool)
    ensures forall f :: p(f) <==> f.id !in ids
  {
    (f: Record) => f.id !in ids
  }

  /** The imported records whose id no stored record carries, in import order. */
  function Novel(existing: seq<Record>, incoming: seq<Record>): (r: seq<Record>)
    ensures IsSubsequence(r, incoming)
    ensures forall x :: x in r <==> x in incoming && x.id !in Ids(existing)
    ensures forall x :: multiset(r)[x] == if x.id in Ids(existing) then 0 else multiset(incoming)[x]
  {
    FilterCounts(incoming, Unseen(Ids(existing)));
    Filter(incoming, Unseen(Ids(existing)))
  }

  /**
   Stored records first, untouched, then the imported records with a new id,
   in import order; `added` is how many were appended.
   */
  function Merge(existing: seq<Record>, incoming: seq<Record>): (m: MergeResult)
    ensures |m.merged| == |existing| + m.added
    ensures m.merged[..|existing|] == existing
    ensures IsSubsequence(m.merged[|existing|..], incoming)
    ensures forall x :: x in m.merged[|existing|..] <==> x in incoming && x.id !in Ids(existing)
    ensures forall x :: multiset(m.merged[|existing|..])[x] == if x.id in Ids(existing) then 0 else multiset(incoming)[x]
    ensures Ids(m.merged) == Ids(existing) + Ids(incoming)
  {
    var newFiles := Novel(existing, incoming);
    var merged := existing + newFiles;
    assert merged[|existing|..] == newFiles;
    IdsAppend(existing, newFiles);
    assert Ids(incoming) <= Ids(existing) + Ids(newFiles) by {
      forall i | i in Ids(incoming) ensures i in Ids(existing) + Ids(newFiles) {
        var r :| r in incoming && r.id == i;
        if i !in Ids(existing) {
          assert r in newFiles;
        }
      }
    }
    MergeResult(merged, |newFiles|)
  }

  /**
   Per id, the merge is decided wholesale: an id already stored keeps exactly its
   stored records, and a new id brings in every imported record carrying it,
   duplicates included.
   */
  lemma {:induction false} MergeById(existing: seq<Record>, incoming: seq<Record>, k: int)
    ensures k in Ids(existing) ==> Members(Merge(existing, incoming).merged, IdOf, k) == Members(existing, IdOf, k)
    ensures k !in Ids(existing) ==> Members(Merge(existing, incoming).merged, IdOf, k) == Members(incoming, IdOf, k)
  {
    var newFiles := Novel(existing, incoming);
    var merged := Merge(existing, incoming).merged;
    assert merged == existing + newFiles;
    FilterAppend(existing, newFiles, HasKey(IdOf, k));
    assert Members(merged, IdOf, k) == Members(existing, IdOf, k) + Members(newFiles, IdOf, k);
    if k in Ids(existing) {
      NoMembers(newFiles, k);
    } else {
      NovelMembers(existing, incoming, k);
      IdsMembers(existing, k);
    }
  }

  lemma {:induction false} NovelMembers(existing: seq<Record>, incoming: seq<Record>, k: int)
    requires k !in Ids(existing)
    ensures Members(Novel(existing, incoming), IdOf, k) == Members(incoming, IdOf, k)
  {
    var p := Unseen(Ids(existing));
    var q := HasKey(IdOf, k);
    assert forall x :: q(x) ==> p(x);
    FilterNarrower(incoming, p, q);
  }

  lemma {:induction false} NoMembers(rs: seq<Record>, k: int)
    requires forall x :: x in rs ==> x.id != k
    ensures Members(rs, IdOf, k) == []
  {
    IdsMembers(rs, k);
  }

  /** Importing nothing new (an empty list, or only stored ids) changes nothing and reports zero. */
  lemma {:induction false} MergeNothingNew(existing: seq<Record>, incoming: seq<Record>)
    requires forall x :: x in incoming ==> x.id in Ids(existing)
    ensures Merge(existing, incoming) == MergeResult(existing, 0)
  {
    var m := Merge(existing, incoming);
    assert m.merged == m.merged[..|existing|];
  }

  /** Importing the same list a second time adds nothing. */
  lemma {:induction false} MergeIdempotent(existing: seq<Record>, incoming: seq<Record>)
    ensures var once := Merge(existing, incoming).merged;
      Merge(once, incoming) == MergeResult(once, 0)
  {
    var once := Merge(existing, incoming).merged;
    assert forall x :: x in incoming ==> x.id in Ids(incoming);
    MergeNothingNew(once, incoming);
  }

  /** Ids stay unique when both lists have unique ids; the merge never dedupes the imported list itself. */
  lemma {:induction false} MergeKeepsIdsUnique(existing: seq<Record>, incoming: seq<Record>)
    requires UniqueIds(existing) && UniqueIds(incoming)
    ensures UniqueIds(Merge(existing, incoming).merged)
  {
    var merged := Merge(existing, incoming).merged;
    forall k ensures |Members(merged, IdOf, k)| <= 1 {
      MergeById(existing, incoming, k);
      DistinctKeysAtMostOne(existing, IdOf, k);
      DistinctKeysAtMostOne(incoming, IdOf, k);
    }
    AtMostOneDistinctKeys(merged, IdOf);
  }

  /** The worked example: a stored id is skipped, a new id is appended, and the count is one. */
  lemma {:induction false} MergeExample(a: Record, a': Record, b: Record)
    requires a.id == 1 && a'.id == 1 && b.id == 2
    ensures Merge([a], [a', b]) == MergeResult([a, b], 1)
  {
    var m := Merge([a], [a', b]);
    var n := Novel([a], [a', b]);
    assert Ids([a]) == {1};
    assert n == [b];
  }
}
