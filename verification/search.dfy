/** The filtering half of `displayAllFiles`: a case-insensitive search over three fields. */
module Query {
  import opened Seqs
  import opened Records
  import opened Text
  import opened Store

  /** The query, lower-cased, occurs in the lower-cased title, location or information. */
  ghost predicate Mentions(r: Record, query: string)
  {
    || IsSubstring(Lower(query), Lower(r.title))
    || IsSubstring(Lower(query), Lower(r.storage))
    || IsSubstring(Lower(query), Lower(r.info))
  }

  /** The per-record test of the filter callback. */
  function Matches(query: string): (p: Record -> bool)
    ensures forall r :: p(r) <==> Mentions(r, query)
  {
    var q := Lower(query);
    (f: Record) => Includes(Lower(f.title), q) || Includes(Lower(f.storage), q) || Includes(Lower(f.info), q)
  }

  /**
   The records that mention the query in any of the three fields, in stored
   order, each as often as it is stored.
   */
  function Search(files: seq<Record>, query: string): (r: seq<Record>)
    ensures IsSubsequence(r, files)
    ensures forall x :: x in r <==> x in files && Mentions(x, query)
    ensures forall x :: multiset(r)[x] == if Mentions(x, query) then multiset(files)[x] else 0
  {
    FilterCounts(files, Matches(query));
    Filter(files, Matches(query))
  }

  /** Searching commutes with deleting: a deleted record no longer turns up, and nothing else changes. */
  lemma {:induction false} SearchAfterDelete(files: seq<Record>, query: string, id: int)
    ensures Search(Delete(files, id), query) == Delete(Search(files, query), id)
  {
    CommuteFilters(files, Other(id), Matches(query));
  }

  /** Searching the results again for the same query changes nothing. */
  lemma {:induction false} SearchIdempotent(files: seq<Record>, query: string)
    ensures Search(Search(files, query), query) == Search(files, query)
  {
    FilterNarrower(files, Matches(query), Matches(query));
  }
}
