/** Nearest-date lookup: `get_closest_date_pagecount_for_book` sorts one
    book's logs by date, takes the left insertion point of the target date
    and returns the row there, with no bounds check. */
module Lookup {
  import opened Tables
  import opened Query

  /** Ascending by log date. */
  ghost predicate DateSorted(s: Table) {
    forall i, j :: 0 <= i < j < |s| ==> s[i].logDate <= s[j].logDate
  }

  /** Put `x` after every row dated on or before it. */
  function InsertByDate(x: Row, s: Table): (r: Table)
    requires DateSorted(s)
    ensures DateSorted(r)
    ensures multiset(r) == multiset(s) + multiset{x}
    decreases |s|
  {
    if s == [] then [x]
    else if x.logDate < s[0].logDate then
      InsertFront(x, s);
      [x] + s
    else
      var r' := InsertByDate(x, s[1..]);
      InsertBehind(x, s, r');
      [s[0]] + r'
  }

  lemma InsertFront(x: Row, s: Table)
    requires DateSorted(s) && s != [] && x.logDate < s[0].logDate
    ensures DateSorted([x] + s)
    ensures multiset([x] + s) == multiset(s) + multiset{x}
  {
    assert forall y :: y in s ==> x.logDate <= y.logDate by {
      forall y | y in s ensures x.logDate <= y.logDate {
        var i :| 0 <= i < |s| && s[i] == y;
        assert s[0].logDate <= s[i].logDate;
      }
    }
    ConsSorted(x, s);
  }

  lemma InsertBehind(x: Row, s: Table, r': Table)
    requires DateSorted(s) && s != [] && x.logDate >= s[0].logDate
    requires DateSorted(r') && multiset(r') == multiset(s[1..]) + multiset{x}
    ensures DateSorted([s[0]] + r')
    ensures multiset([s[0]] + r') == multiset(s) + multiset{x}
  {
    assert s == [s[0]] + s[1..];
    assert forall y :: y in r' ==> s[0].logDate <= y.logDate by {
      forall y | y in r' ensures s[0].logDate <= y.logDate {
        assert y in multiset(r');
        if y != x {
          assert y in multiset(s[1..]);
          var i :| 0 <= i < |s[1..]| && s[1..][i] == y;
          assert s[0].logDate <= s[i + 1].logDate;
        }
      }
    }
    ConsSorted(s[0], r');
  }

  /** A row dated on or before everything in a sorted table can go in front. */
  lemma ConsSorted(a: Row, r: Table)
    requires DateSorted(r)
    requires forall y :: y in r ==> a.logDate <= y.logDate
    ensures DateSorted([a] + r)
  {
    var c := [a] + r;
    forall i, j | 0 <= i < j < |c| ensures c[i].logDate <= c[j].logDate {
      assert c[j] == r[j - 1] && c[j] in r;
      if i > 0 {
        assert c[i] == r[i - 1];
      }
    }
  }

  /** `sort_values(by="log_created_at", ascending=True)`. */
  function SortByDate(t: Table): (r: Table)
    ensures DateSorted(r)
    ensures multiset(r) == multiset(t)
    decreases |t|
  {
    if t == [] then []
    else
      assert t == t[..|t| - 1] + [t[|t| - 1]];
      InsertByDate(t[|t| - 1], SortByDate(t[..|t| - 1]))
  }

  /** `searchsorted(date)` (side "left") on an ascending column: the number
      of leading rows dated strictly before `d`. */
  function SearchSorted(s: Table, d: Day): (k: nat)
    ensures k <= |s|
    ensures forall i :: 0 <= i < k ==> s[i].logDate < d
    ensures k < |s| ==> s[k].logDate >= d
    decreases |s|
  {
    if s == [] || s[0].logDate >= d then 0
    else 1 + SearchSorted(s[1..], d)
  }

  /** The book's logs in date order. */
  function SortedLogs(t: Table, slug: string): Table {
    SortByDate(BookRows(t, slug))
  }

  /** `sorted_logs.iloc[sorted_logs["log_created_at"].searchsorted(date)]`
      on the logs `get_logs_for_book` selects; its error passes through, and
      an insertion point past the end raises. */
  function ClosestDateLog(t: Table, slug: string, d: Day): Result<Row> {
    match LogsForBook(t, slug)
    case Err(e) => Err(e)
    case Ok(logs) =>
      var s := SortByDate(logs);
      var k := SearchSorted(s, d);
      if k < |s| then Ok(s[k]) else Err(IndexOutOfBounds)
  }

  /** On an ascending table the insertion point counts the rows dated before `d`. */
  lemma {:induction false} SearchSortedCounts(s: Table, d: Day)
    requires DateSorted(s)
    ensures SearchSorted(s, d) == |Where(s, (x: Row) => x.logDate < d)|
    decreases |s|
  {
    var p := (x: Row) => x.logDate < d;
    if s != [] {
      WhereFront(s, p);
      if s[0].logDate < d {
        SearchSortedCounts(s[1..], d);
      } else {
        forall x | x in s[1..] ensures !p(x) {
          var i :| 0 <= i < |s[1..]| && s[1..][i] == x;
          assert s[0].logDate <= s[i + 1].logDate;
        }
        WhereNone(s[1..], p);
      }
    }
  }

  /** Splitting off the first row of a query. */
  lemma WhereFront(s: Table, p: Row -> bool)
    requires s != []
    ensures |Where(s, p)| == (if p(s[0]) then 1 else 0) + |Where(s[1..], p)|
  {
    assert s == [s[0]] + s[1..];
    WhereAppend([s[0]], s[1..], p);
    assert Where([s[0]], p) == if p(s[0]) then [s[0]] else [] by {
      assert [s[0]][..0] == [];
    }
  }

  /** The index used is the number of that book's logs dated strictly
      before the target date. */
  lemma ClosestIndexCounts(t: Table, slug: string, d: Day)
    ensures SearchSorted(SortedLogs(t, slug), d) == |Where(BookRows(t, slug), (x: Row) => x.logDate < d)|
  {
    var logs := BookRows(t, slug);
    var s := SortedLogs(t, slug);
    SearchSortedCounts(s, d);
    WhereCountPerm(s, logs, (x: Row) => x.logDate < d);
  }

  /** The lookup returns a log of the book dated on or after the target, and
      no log of the book lies between the target and it: it is the first log
      at or after the date. */
  lemma ClosestIsFirstAtOrAfter(t: Table, slug: string, d: Day)
    requires ClosestDateLog(t, slug, d).Ok?
    ensures LiteralSafe(slug)
    ensures var r := ClosestDateLog(t, slug, d).value;
      r in t && r.slug == slug && r.logDate >= d &&
      forall x :: x in t && x.slug == slug && x.logDate >= d ==> r.logDate <= x.logDate
  {
    var logs := BookRows(t, slug);
    PickFirstAtOrAfter(logs, d);
  }

  /** The lookup raises exactly when the slug breaks the query text or every
      log of the book is dated before the target (in particular when the
      book has no log). */
  lemma ClosestFails(t: Table, slug: string, d: Day)
    ensures ClosestDateLog(t, slug, d).Err? <==>
      !LiteralSafe(slug) || forall x :: x in t && x.slug == slug ==> x.logDate < d
    ensures ClosestDateLog(t, slug, d).Err? ==>
      ClosestDateLog(t, slug, d).error == if LiteralSafe(slug) then IndexOutOfBounds else MalformedQuery
  {
    var logs := BookRows(t, slug);
    PickFirstAtOrAfter(logs, d);
  }

  /** On any table, the row at the left insertion point of the sorted rows
      is a row dated on or after `d` that no such row precedes in date, and
      the point lies past the end exactly when every row is dated before `d`. */
  lemma PickFirstAtOrAfter(logs: Table, d: Day)
    ensures var s := SortByDate(logs); var k := SearchSorted(s, d);
      && (k < |s| ==> (s[k] in logs && s[k].logDate >= d &&
                       forall x :: x in logs && x.logDate >= d ==> s[k].logDate <= x.logDate))
      && (k >= |s| <==> forall x :: x in logs ==> x.logDate < d)
  {
    var s := SortByDate(logs);
    PickInSorted(logs, s, SearchSorted(s, d), d);
  }

  lemma PickInSorted(logs: Table, s: Table, k: nat, d: Day)
    requires DateSorted(s) && multiset(s) == multiset(logs) && k == SearchSorted(s, d)
    ensures k < |s| ==> (s[k] in logs && s[k].logDate >= d &&
                         forall x :: x in logs && x.logDate >= d ==> s[k].logDate <= x.logDate)
    ensures k >= |s| <==> forall x :: x in logs ==> x.logDate < d
  {
    if k < |s| {
      assert s[k] in multiset(s);
      forall x | x in logs && x.logDate >= d
        ensures s[k].logDate <= x.logDate
      {
        assert x in multiset(s);
        var i :| 0 <= i < |s| && s[i] == x;
        assert i >= k;
      }
    } else {
      forall x | x in logs ensures x.logDate < d {
        assert x in multiset(s);
        var i :| 0 <= i < |s| && s[i] == x;
      }
    }
  }
}
