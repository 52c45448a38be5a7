/**
 A tracked file-location entry and the calendar view of its creation time
 (`getYear` and `getMonthYear`).
 */
module Records {
  import opened Results
  import opened Seqs
  import Text

  /** A month as `Date.prototype.getMonth` numbers it: January is 0. */
  type MonthIndex = m: int | 0 <= m < 12

  /**
   A point in time: the instant (milliseconds, what subtracting two `Date`s
   compares) together with the local-time calendar year and month of that instant.
   */
  datatype Timestamp = Timestamp(instant: int, year: int, month: MonthIndex)

  /** One stored file location. `updated` is absent until the record is first edited. */
  datatype Record = Record(
    id: int,
    title: string,
    storage: string,
    info: string,
    created: Timestamp,
    updated: Option<Timestamp>)

  function IdOf(r: Record): int
  {
    r.id
  }

  /** The creation instant, the key the display sorts on. */
  function Instant(r: Record): int
  {
    r.created.instant
  }

  /** Every id in use in `rs`. */
  function Ids(rs: seq<Record>): set<int>
  {
    set r | r in rs :: r.id
  }

  /** No two records of `rs` share an id. */
  ghost predicate UniqueIds(rs: seq<Record>)
  {
    DistinctKeys(rs, IdOf)
  }

  lemma {:induction false} IdsAppend(a: seq<Record>, b: seq<Record>)
    ensures Ids(a + b) == Ids(a) + Ids(b)
  {
    assert forall r :: r in a + b <==> r in a || r in b;
  }

  /** Two lists with the same id at every position have the same ids, and one has unique ids exactly when the other does. */
  lemma {:induction false} SameIdsPointwise(a: seq<Record>, b: seq<Record>)
    requires |a| == |b| && forall j :: 0 <= j < |a| ==> a[j].id == b[j].id
    ensures Ids(a) == Ids(b)
    ensures UniqueIds(a) <==> UniqueIds(b)
  {
    forall x | x in Ids(a) ensures x in Ids(b) {
      var r :| r in a && r.id == x;
      var j :| 0 <= j < |a| && a[j] == r;
      assert b[j] in b;
    }
    forall x | x in Ids(b) ensures x in Ids(a) {
      var r :| r in b && r.id == x;
      var j :| 0 <= j < |b| && b[j] == r;
      assert a[j] in a;
    }
  }

  /** `id` is in use exactly when some record carries it. */
  lemma {:induction false} IdsMembers(rs: seq<Record>, id: int)
    ensures id in Ids(rs) <==> Members(rs, IdOf, id) != []
  {
    var m := Members(rs, IdOf, id);
    if id in Ids(rs) {
      var r :| r in rs && r.id == id;
      assert r in m;
    } else {
      FilterKeepsNone(rs, HasKey(IdOf, id));
    }
  }

  /** The month names of `getMonthYear`, indexed by month number. */
  const MonthNames: seq<string> := [
    "January", "February", "March", "April", "May", "June",
    "July", "August", "September", "October", "November", "December"]

  /** `getYear`: the calendar year the record was created in. */
  function YearOf(r: Record): int
  {
    r.created.year
  }

  /** `getMonthYear`: the "Month Year" label of the record's creation time, such as "March 2024". */
  function MonthLabel(r: Record): string
  {
    MonthNames[r.created.month] + " " + Text.IntToDecimal(r.created.year)
  }

  /** Months counted from year zero; orders creation times by calendar month. */
  function MonthRank(r: Record): int
  {
    r.created.year * 12 + r.created.month
  }

  lemma {:induction false} MonthNamesDistinct(m: MonthIndex, n: MonthIndex)
    ensures MonthNames[m] == MonthNames[n] ==> m == n
  {
  }

  /** Within one year, the label tells the month apart: two records of that year share a label exactly when they share a month. */
  lemma {:induction false} MonthLabelWithinYear(a: Record, b: Record)
    requires YearOf(a) == YearOf(b)
    ensures MonthLabel(a) == MonthLabel(b) <==> MonthRank(a) == MonthRank(b)
  {
    var na, nb := MonthNames[a.created.month], MonthNames[b.created.month];
    var tail := " " + Text.IntToDecimal(a.created.year);
    if MonthLabel(a) == MonthLabel(b) {
      assert MonthLabel(a) == na + tail && MonthLabel(b) == nb + tail;
      assert |na| == |nb|;
      assert na == (na + tail)[..|na|];
      assert nb == (nb + tail)[..|nb|];
      MonthNamesDistinct(a.created.month, b.created.month);
    }
  }

  /**
   The calendar fields agree with the instant: a later-or-equal instant never
   falls in an earlier month. A real clock read in one time zone has this property.
   */
  ghost predicate CalendarCoherent(rs: seq<Record>)
  {
    forall a, b :: a in rs && b in rs && Instant(a) >= Instant(b) ==> MonthRank(a) >= MonthRank(b)
  }
}
