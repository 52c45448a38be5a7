/**
 The presentation half of `displayAllFiles`: the matches are sorted newest
 first, filed into a dictionary of years holding dictionaries of "Month Year"
 labels, and the years are read back largest first while the months keep the
 order they were filed in.
 */
module Timeline {
  import opened Seqs
  import opened Records
  import opened Sorting
  import opened Grouping
  import opened Query

  /** One year of the listing: its months, each with the records created in it. */
  datatype YearBucket = YearBucket(year: int, months: seq<Group<string, Record>>)

  function BucketYear(b: YearBucket): int
  {
    b.year
  }

  /**
   One step of the `forEach` that fills the nested dictionary: open the
   record's year if it is new, then push the record onto its month label
   within that year, opening the label if it is new.
   */
  function PlaceRecord(ys: seq<YearBucket>, r: Record): seq<YearBucket>
  {
    if |ys| == 0 then [YearBucket(YearOf(r), Place([], MonthLabel(r), r))]
    else if ys[0].year == YearOf(r) then [ys[0].(months := Place(ys[0].months, MonthLabel(r), r))] + ys[1..]
    else [ys[0]] + PlaceRecord(ys[1..], r)
  }

  /**
   The nested dictionary after visiting every record of `s` in order, with the
   years in the order they were first met. `Object.keys` on the script's
   object lists non-negative integer years in ascending order instead; that
   order is never shown, because the years are re-sorted before display (see
   `YearOrderUnobservable`).
   */
  function Accumulate(s: seq<Record>): seq<YearBucket>
  {
    if |s| == 0 then [] else PlaceRecord(Accumulate(s[..|s| - 1]), s[|s| - 1])
  }

  /** Groups each year's records by month label. */
  function Nest(gs: seq<Group<int, Record>>): (ys: seq<YearBucket>)
    ensures |ys| == |gs|
    ensures forall i :: 0 <= i < |gs| ==> ys[i].year == gs[i].key && ys[i].months == GroupBy(gs[i].members, MonthLabel)
  {
    if |gs| == 0 then [] else [YearBucket(gs[0].key, GroupBy(gs[0].members, MonthLabel))] + Nest(gs[1..])
  }

  /** Filing one record into the nested dictionary is filing it by year, then by month within the year. */
  lemma {:induction false} PlaceRecordNest(gs: seq<Group<int, Record>>, x: Record)
    ensures PlaceRecord(Nest(gs), x) == Nest(Place(gs, YearOf(x), x))
  {
    if |gs| == 0 {
      GroupBySnoc([], x, MonthLabel);
      assert [] + [x] == [x];
    } else if gs[0].key == YearOf(x) {
      GroupBySnoc(gs[0].members, x, MonthLabel);
    } else {
      PlaceRecordNest(gs[1..], x);
    }
  }

  /** The one-pass nested fill builds the same dictionary as grouping by year, then by month within each year. */
  lemma {:induction false} AccumulateIsNested(s: seq<Record>)
    ensures Accumulate(s) == Nest(GroupBy(s, YearOf))
  {
    if |s| > 0 {
      AccumulateIsNested(s[..|s| - 1]);
      PlaceRecordNest(GroupBy(s[..|s| - 1], YearOf), s[|s| - 1]);
    }
  }

  /**
   The listing: sort newest first (a stable sort), fill the nested
   dictionary, then read the years back largest first.
   */
  function GroupByTime(rs: seq<Record>): (ys: seq<YearBucket>)
    ensures forall i, j :: 0 <= i < j < |ys| ==> ys[i].year > ys[j].year
  {
    YearsDistinct(rs);
    SortDesc(Accumulate(SortDesc(rs, Instant)), BucketYear)
  }

  /** No year is listed twice. */
  lemma {:induction false} YearsDistinct(rs: seq<Record>)
    ensures DistinctKeys(SortDesc(Accumulate(SortDesc(rs, Instant)), BucketYear), BucketYear)
  {
    var s := SortDesc(rs, Instant);
    var a := Accumulate(s);
    AccumulatedYearsDistinct(s);
    var ys := SortDesc(a, BucketYear);
    forall k ensures |Members(ys, BucketYear, k)| <= 1 {
      SortStable(a, BucketYear, k);
      DistinctKeysAtMostOne(a, BucketYear, k);
    }
    AtMostOneDistinctKeys(ys, BucketYear);
  }

  /** The nested dictionary opens each year once. */
  lemma {:induction false} AccumulatedYearsDistinct(s: seq<Record>)
    ensures DistinctKeys(Accumulate(s), BucketYear)
  {
    var a := Accumulate(s);
    AccumulateIsNested(s);
    GroupByPartitions(s, YearOf);
    var gs := GroupBy(s, YearOf);
    forall i, j | 0 <= i < j < |a| ensures BucketYear(a[i]) != BucketYear(a[j]) {
      assert KeyOf(gs[i]) != KeyOf(gs[j]);
    }
  }

  /**
   The listing does not depend on the order in which the dictionary yields its
   years: any rearrangement of the year buckets, once sorted by year, is the
   listing.
   */
  lemma {:induction false} YearOrderUnobservable(rs: seq<Record>, keys: seq<YearBucket>)
    requires multiset(keys) == multiset(Accumulate(SortDesc(rs, Instant)))
    ensures SortDesc(keys, BucketYear) == GroupByTime(rs)
  {
    var a := Accumulate(SortDesc(rs, Instant));
    AccumulatedYearsDistinct(SortDesc(rs, Instant));
    SortDistinctIgnoresOrder(a, keys, BucketYear);
  }

  /** The years that have a bucket. */
  function Years(ys: seq<YearBucket>): set<int>
  {
    set b | b in ys :: b.year
  }

  /** A bucket of the nested dictionary is a bucket of the year grouping, nested by month. */
  lemma {:induction false} AccumulatedBucket(s: seq<Record>, b: YearBucket)
    requires b in Accumulate(s)
    ensures Members(s, YearOf, b.year) != []
    ensures b.months == GroupBy(Members(s, YearOf, b.year), MonthLabel)
  {
    AccumulateIsNested(s);
    GroupByPartitions(s, YearOf);
    var a := Accumulate(s);
    var i :| 0 <= i < |a| && a[i] == b;
  }

  /** The nested dictionary has a bucket for exactly the years of the records. */
  lemma {:induction false} AccumulatedYears(s: seq<Record>)
    ensures Years(Accumulate(s)) == set r | r in s :: YearOf(r)
  {
    AccumulateIsNested(s);
    GroupByPartitions(s, YearOf);
    var a := Accumulate(s);
    var gs := GroupBy(s, YearOf);
    forall y | y in Years(a) ensures y in set r | r in s :: YearOf(r) {
      var i :| 0 <= i < |a| && a[i].year == y;
      var r := gs[i].members[0];
      assert r in Members(s, YearOf, y);
    }
    forall r | r in s ensures YearOf(r) in Years(a) {
      var i :| 0 <= i < |gs| && Keys(gs)[i] == YearOf(r);
      assert a[i] in a;
    }
  }

  /**
   Every year of the listing holds the records created in that year, newest
   first, grouped by month label in the order the labels first occur.
   */
  lemma {:induction false} YearContents(rs: seq<Record>)
    ensures var s := SortDesc(rs, Instant);
      forall b :: b in GroupByTime(rs) ==>
        && Members(s, YearOf, b.year) != []
        && b.months == GroupBy(Members(s, YearOf, b.year), MonthLabel)
        && Partitions(b.months, Members(s, YearOf, b.year), MonthLabel)
  {
    var s := SortDesc(rs, Instant);
    var a := Accumulate(s);
    SameElements(GroupByTime(rs), a);
    forall b | b in GroupByTime(rs)
      ensures && Members(s, YearOf, b.year) != []
              && b.months == GroupBy(Members(s, YearOf, b.year), MonthLabel)
              && Partitions(b.months, Members(s, YearOf, b.year), MonthLabel)
    {
      AccumulatedBucket(s, b);
      GroupByPartitions(Members(s, YearOf, b.year), MonthLabel);
    }
  }

  /** The listing has a year for each record's creation year and no other. */
  lemma {:induction false} YearsListed(rs: seq<Record>)
    ensures Years(GroupByTime(rs)) == set r | r in rs :: YearOf(r)
  {
    var s := SortDesc(rs, Instant);
    SameElements(GroupByTime(rs), Accumulate(s));
    AccumulatedYears(s);
    SameElements(s, rs);
    assert Years(GroupByTime(rs)) == Years(Accumulate(s));
  }

  /** The records in the order the listing shows them: year after year, month after month. */
  function FlattenYears(ys: seq<YearBucket>): seq<Record>
  {
    if |ys| == 0 then [] else Flatten(ys[0].months) + FlattenYears(ys[1..])
  }

  lemma {:induction false} FlattenYearsInsert(b: YearBucket, ys: seq<YearBucket>, rank: YearBucket -> int)
    ensures multiset(FlattenYears(Insert(b, ys, rank))) == multiset(Flatten(b.months)) + multiset(FlattenYears(ys))
  {
    if |ys| > 0 && rank(b) < rank(ys[0]) {
      FlattenYearsInsert(b, ys[1..], rank);
    }
  }

  /** Reordering the years keeps the records. */
  lemma {:induction false} FlattenYearsSort(ys: seq<YearBucket>, rank: YearBucket -> int)
    ensures multiset(FlattenYears(SortDesc(ys, rank))) == multiset(FlattenYears(ys))
  {
    if |ys| > 0 {
      FlattenYearsSort(ys[1..], rank);
      FlattenYearsInsert(ys[0], SortDesc(ys[1..], rank), rank);
    }
  }

  /** Nesting by month keeps the records of every year. */
  lemma {:induction false} FlattenNest(gs: seq<Group<int, Record>>)
    ensures multiset(FlattenYears(Nest(gs))) == multiset(Flatten(gs))
  {
    if |gs| > 0 {
      FlattenNest(gs[1..]);
      GroupByPartitions(gs[0].members, MonthLabel);
      assert Nest(gs)[1..] == Nest(gs[1..]);
    }
  }

  /** The listing shows every record exactly as often as it occurs, and nothing else. */
  lemma {:induction false} GroupByTimeKeepsRecords(rs: seq<Record>)
    ensures multiset(FlattenYears(GroupByTime(rs))) == multiset(rs)
  {
    var s := SortDesc(rs, Instant);
    FlattenYearsSort(Accumulate(s), BucketYear);
    AccumulateIsNested(s);
    FlattenNest(GroupBy(s, YearOf));
    GroupByPartitions(s, YearOf);
  }

  /** Every month bucket is non-empty and the months run from the latest to the earliest. */
  ghost predicate LatestMonthFirst(ms: seq<Group<string, Record>>)
  {
    && (forall p :: 0 <= p < |ms| ==> |ms[p].members| > 0)
    && (forall p, q :: 0 <= p < q < |ms| ==> MonthRank(ms[p].members[0]) > MonthRank(ms[q].members[0]))
  }

  /** With coherent calendar fields, sorting by instant also sorts by month and by year. */
  lemma {:induction false} CoherentOrder(rs: seq<Record>)
    requires CalendarCoherent(rs)
    ensures NonIncreasing(SortDesc(rs, Instant), MonthRank)
    ensures NonIncreasing(SortDesc(rs, Instant), YearOf)
  {
    var s := SortDesc(rs, Instant);
    SameElements(s, rs);
    forall i, j | 0 <= i < j < |s| ensures MonthRank(s[i]) >= MonthRank(s[j]) && YearOf(s[i]) >= YearOf(s[j]) {
      assert s[i] in rs && s[j] in rs;
    }
  }

  /** One year's records, in month order, come back unchanged from the month grouping, latest month first. */
  lemma {:induction false} MonthRuns(s: seq<Record>, y: int)
    requires NonIncreasing(s, MonthRank)
    ensures Flatten(GroupBy(Members(s, YearOf, y), MonthLabel)) == Members(s, YearOf, y)
    ensures LatestMonthFirst(GroupBy(Members(s, YearOf, y), MonthLabel))
  {
    var m := Members(s, YearOf, y);
    SubsequenceNonIncreasing(m, s, MonthRank);
    assert RankDecidesKey(m, MonthLabel, MonthRank) by {
      forall i, j | 0 <= i < |m| && 0 <= j < |m|
        ensures MonthLabel(m[i]) == MonthLabel(m[j]) <==> MonthRank(m[i]) == MonthRank(m[j])
      {
        assert HasKey(YearOf, y)(m[i]) && HasKey(YearOf, y)(m[j]);
        MonthLabelWithinYear(m[i], m[j]);
      }
    }
    RankedGroupByFlattens(m, MonthLabel, MonthRank);
    RankedGroupByOrder(m, MonthLabel, MonthRank);
  }

  lemma {:induction false} FlattenNestExact(gs: seq<Group<int, Record>>)
    requires forall i :: 0 <= i < |gs| ==> Flatten(GroupBy(gs[i].members, MonthLabel)) == gs[i].members
    ensures FlattenYears(Nest(gs)) == Flatten(gs)
  {
    if |gs| > 0 {
      FlattenNestExact(gs[1..]);
      assert Nest(gs)[1..] == Nest(gs[1..]);
    }
  }

  /** When the records run newest first, the model's first-met year order is already largest first. */
  lemma {:induction false} AccumulatedNewestFirst(s: seq<Record>)
    requires NonIncreasing(s, YearOf)
    ensures NonIncreasing(Accumulate(s), BucketYear)
  {
    var gs := GroupBy(s, YearOf);
    AccumulateIsNested(s);
    GroupByPartitions(s, YearOf);
    RankedGroupByOrder(s, YearOf, YearOf);
    forall i | 0 <= i < |gs| ensures YearOf(gs[i].members[0]) == gs[i].key {
      assert HasKey(YearOf, gs[i].key)(gs[i].members[0]);
    }
  }

  /**
   With coherent calendar fields the listing reads back as the records sorted
   newest first, and within every year the months run latest first.
   */
  lemma {:induction false} Chronological(rs: seq<Record>)
    requires CalendarCoherent(rs)
    ensures FlattenYears(GroupByTime(rs)) == SortDesc(rs, Instant)
    ensures forall b :: b in GroupByTime(rs) ==> LatestMonthFirst(b.months)
  {
    var s := SortDesc(rs, Instant);
    CoherentOrder(rs);
    var gs := GroupBy(s, YearOf);
    GroupByPartitions(s, YearOf);
    RankedGroupByFlattens(s, YearOf, YearOf);
    AccumulatedNewestFirst(s);
    SortOrderedIsIdentity(Accumulate(s), BucketYear);
    AccumulateIsNested(s);
    forall i | 0 <= i < |gs|
      ensures Flatten(GroupBy(gs[i].members, MonthLabel)) == gs[i].members
      ensures LatestMonthFirst(GroupBy(gs[i].members, MonthLabel))
    {
      MonthRuns(s, gs[i].key);
    }
    FlattenNestExact(gs);
  }

  /** What the results area shows. */
  datatype View = NothingSearched | NoMatches | Found(count: nat, years: seq<YearBucket>)

  /**
   `displayAllFiles`: an empty query shows the placeholder, a query nothing
   mentions shows "No files found", and otherwise the matches are listed by
   year and month.
   */
  function Display(files: seq<Record>, query: string): (v: View)
    ensures v.NothingSearched? <==> query == []
    ensures v.NoMatches? <==> query != [] && forall r :: r in files ==> !Mentions(r, query)
    ensures v.Found? ==> v.count == |Search(files, query)| > 0
    ensures v.Found? ==> multiset(FlattenYears(v.years)) == multiset(Search(files, query))
    ensures v.Found? ==> v.years == GroupByTime(Search(files, query))
  {
    if query == [] then NothingSearched
    else
      var found := Search(files, query);
      assert |found| > 0 ==> found[0] in found;
      if |found| == 0 then NoMatches
      else
        GroupByTimeKeepsRecords(found);
        Found(|found|, GroupByTime(found))
  }

  /** Records from March and November 2023 and January 2024 list 2024 first, then 2023 with November before March. */
  lemma {:induction false} ThreeMonthsExample(a: Record, b: Record, c: Record)
    requires a.created == Timestamp(0, 2023, 2)
    requires b.created == Timestamp(1, 2023, 10)
    requires c.created == Timestamp(2, 2024, 0)
    ensures GroupByTime([a, b, c]) == [
      YearBucket(2024, [Group("January 2024", [c])]),
      YearBucket(2023, [Group("November 2023", [b]), Group("March 2023", [a])])]
  {
    ExampleLabels(a, b, c);
    ExampleListing(a, b, c, "March 2023", "November 2023", "January 2024");
  }

  lemma {:induction false} ExampleListing(a: Record, b: Record, c: Record, la: string, lb: string, lc: string)
    requires Instant(a) < Instant(b) < Instant(c)
    requires YearOf(a) == 2023 && YearOf(b) == 2023 && YearOf(c) == 2024
    requires MonthLabel(a) == la && MonthLabel(b) == lb && MonthLabel(c) == lc && la != lb
    ensures GroupByTime([a, b, c]) == [YearBucket(2024, [Group(lc, [c])]), YearBucket(2023, [Group(lb, [b]), Group(la, [a])])]
  {
    SortThreeAscending(a, b, c, Instant);
    ExampleFill(a, b, c, la, lb, lc);
    ExampleYearsOrdered(YearBucket(2024, [Group(lc, [c])]), YearBucket(2023, [Group(lb, [b]), Group(la, [a])]));
  }

  lemma {:induction false} ExampleYearsOrdered(y: YearBucket, z: YearBucket)
    requires y.year > z.year
    ensures SortDesc([y, z], BucketYear) == [y, z]
  {
    assert NonIncreasing([y, z], BucketYear);
    SortOrderedIsIdentity([y, z], BucketYear);
  }

  lemma {:induction false} ExampleFill(a: Record, b: Record, c: Record, la: string, lb: string, lc: string)
    requires YearOf(a) == 2023 && YearOf(b) == 2023 && YearOf(c) == 2024
    requires MonthLabel(a) == la && MonthLabel(b) == lb && MonthLabel(c) == lc && la != lb
    ensures Accumulate([c, b, a]) == [YearBucket(2024, [Group(lc, [c])]), YearBucket(2023, [Group(lb, [b]), Group(la, [a])])]
  {
    assert [c, b, a][..2] == [c, b] && [c, b][..1] == [c] && [c][..0] == [];
    var y1 := [YearBucket(2024, [Group(lc, [c])])];
    assert Accumulate([c]) == PlaceRecord([], c) == y1;
    var y2 := y1 + [YearBucket(2023, [Group(lb, [b])])];
    assert PlaceRecord(y1, b) == [y1[0]] + PlaceRecord([], b);
    assert Accumulate([c, b]) == PlaceRecord(y1, b) == y2;
    var g2 := YearBucket(2023, [Group(lb, [b])]);
    assert y2[1..] == [g2];
    assert Place([Group(lb, [b])], la, a) == [Group(lb, [b])] + Place([], la, a) == [Group(lb, [b]), Group(la, [a])];
    assert PlaceRecord([g2], a) == [YearBucket(2023, [Group(lb, [b]), Group(la, [a])])];
    assert PlaceRecord(y2, a) == [y2[0]] + PlaceRecord([g2], a);
    assert Accumulate([c, b, a]) == PlaceRecord(y2, a);
  }

  lemma {:induction false} ExampleLabels(a: Record, b: Record, c: Record)
    requires a.created == Timestamp(0, 2023, 2)
    requires b.created == Timestamp(1, 2023, 10)
    requires c.created == Timestamp(2, 2024, 0)
    ensures MonthLabel(a) == "March 2023" && MonthLabel(b) == "November 2023" && MonthLabel(c) == "January 2024"
  {
    assert Text.IntToDecimal(2023) == "2023" && Text.IntToDecimal(2024) == "2024";
  }
}
