/** Per-book filler: `fill_up_book_df` walks the given dates and, for every
    date at or after the book's first log that has no row, adds a copy of
    the most recent logged row re-dated to that date. */
module BookFill {
  import opened Tables

  /** `book_df.query(f"log_created_at == '{date}'")`: the rows of one day, in table order. */
  function RowsOn(book: Table, d: Day): (r: Table)
    ensures |r| <= |book|
    ensures forall x :: x in r <==> x in book && x.logDate == d
  {
    Where(book, (x: Row) => x.logDate == d)
  }

  /** `d >= first_log_date`. Every comparison with the NaT minimum of an
      empty frame is false, so an empty book has no eligible date. */
  predicate Eligible(book: Table, d: Day) {
    book != [] && d >= MinDay(book)
  }

  /** An eligible date with no row: the loop adds a copy for it. */
  predicate Gap(book: Table, d: Day) {
    Eligible(book, d) && RowsOn(book, d) == []
  }

  /** The loop state: `latest_log` (None while unbound) and `rows_to_add`. */
  datatype Progress = Progress(latest: Option<Row>, added: Table)

  /** One iteration of the loop for the date `d`. Reading the unbound
      `latest_log` raises. */
  function Visit(book: Table, p: Progress, d: Day): Result<Progress> {
    if !Eligible(book, d) then Ok(p)
    else
      var m := RowsOn(book, d);
      if m != [] then Ok(p.(latest := Some(m[0])))
      else if p.latest.None? then Err(UnboundLocal)
      else Ok(p.(added := p.added + [p.latest.value.(logDate := d)]))
  }

  /** The loop over the dates in their given order; an error ends it. */
  function Run(book: Table, ds: seq<Day>): Result<Progress>
    decreases |ds|
  {
    if ds == [] then Ok(Progress(None, []))
    else
      match Run(book, ds[..|ds| - 1])
      case Err(e) => Err(e)
      case Ok(p) => Visit(book, p, ds[|ds| - 1])
  }

  /** `pd.concat([pd.DataFrame(rows_to_add), book_df])`: the added rows first. */
  function FillUpBook(book: Table, dates: seq<Day>): Result<Table> {
    match Run(book, dates)
    case Err(e) => Err(e)
    case Ok(p) => Ok(p.added + book)
  }

  /** `fill_up_book_df` of both revisions. */
  method FillUpBookDf(book: Table, dates: seq<Day>) returns (res: Result<Table>)
    ensures res == FillUpBook(book, dates)
  {
    var latest: Option<Row> := None;
    var rowsToAdd: Table := [];
    for k := 0 to |dates|
      invariant Run(book, dates[..k]) == Ok(Progress(latest, rowsToAdd))
    {
      var d := dates[k];
      assert dates[..k + 1][..k] == dates[..k];
      if book != [] && d >= MinDay(book) {
        var rowForDate := RowsOn(book, d);
        if |rowForDate| > 0 {
          latest := Some(rowForDate[0]);
        } else if latest.None? {
          RunStaysErr(book, dates, k + 1);
          return Err(UnboundLocal);
        } else {
          rowsToAdd := rowsToAdd + [latest.value.(logDate := d)];
        }
      }
    }
    assert dates[..|dates|] == dates;
    return Ok(rowsToAdd + book);
  }

  /** Once the loop has raised, the later dates change nothing. */
  lemma {:induction false} RunStaysErr(book: Table, ds: seq<Day>, k: int)
    requires 0 <= k <= |ds| && Run(book, ds[..k]).Err?
    ensures Run(book, ds) == Run(book, ds[..k])
    decreases |ds|
  {
    if k == |ds| {
      assert ds[..k] == ds;
    } else {
      var init := ds[..|ds| - 1];
      assert init[..k] == ds[..k];
      RunStaysErr(book, init, k);
    }
  }

  /** A date with rows is always eligible: it is at or after the minimum. */
  lemma LoggedIsEligible(book: Table, d: Day)
    requires RowsOn(book, d) != []
    ensures Eligible(book, d)
  {
    var x := RowsOn(book, d)[0];
    assert x in RowsOn(book, d);
  }

  /** The first row of the last date of `ds` that has rows, read off the
      dates and the book alone: the value `latest_log` holds after the loop
      has visited `ds`. */
  function LatestLogged(book: Table, ds: seq<Day>): Option<Row>
    decreases |ds|
  {
    if ds == [] then None
    else
      var m := RowsOn(book, ds[|ds| - 1]);
      if m != [] then Some(m[0]) else LatestLogged(book, ds[..|ds| - 1])
  }

  /** `j` is the last index before `k` whose date has rows. */
  ghost predicate LastLoggedBefore(book: Table, ds: seq<Day>, j: int, k: int) {
    0 <= j < k <= |ds| && RowsOn(book, ds[j]) != [] &&
    forall m :: j < m < k ==> RowsOn(book, ds[m]) == []
  }

  /** No date before index `k` has rows. */
  ghost predicate NoLogBefore(book: Table, ds: seq<Day>, k: int) {
    forall j :: 0 <= j < k && j < |ds| ==> RowsOn(book, ds[j]) == []
  }

  /** `LatestLogged` is None exactly when no date has rows, and otherwise the
      first row of the last date that has rows. */
  lemma {:induction false} LatestLoggedIsLast(book: Table, ds: seq<Day>)
    ensures LatestLogged(book, ds).None? <==> NoLogBefore(book, ds, |ds|)
    ensures LatestLogged(book, ds).Some? ==>
      exists j :: LastLoggedBefore(book, ds, j, |ds|) && LatestLogged(book, ds).value == RowsOn(book, ds[j])[0]
    decreases |ds|
  {
    if ds != [] {
      var init := ds[..|ds| - 1];
      LatestLoggedIsLast(book, init);
      if RowsOn(book, ds[|ds| - 1]) != [] {
        assert LastLoggedBefore(book, ds, |ds| - 1, |ds|);
      } else if LatestLogged(book, init).Some? {
        var j :| LastLoggedBefore(book, init, j, |init|) && LatestLogged(book, init).value == RowsOn(book, init[j])[0];
        LastLoggedExtends(book, ds, j);
      } else {
        NoLogExtends(book, ds);
      }
    }
  }

  /** A last logged index keeps its place when a date without rows is appended. */
  lemma LastLoggedExtends(book: Table, ds: seq<Day>, j: int)
    requires ds != [] && RowsOn(book, ds[|ds| - 1]) == []
    requires LastLoggedBefore(book, ds[..|ds| - 1], j, |ds| - 1)
    ensures LastLoggedBefore(book, ds, j, |ds|) && RowsOn(book, ds[..|ds| - 1][j]) == RowsOn(book, ds[j])
  {
    var init := ds[..|ds| - 1];
    assert forall m :: 0 <= m < |init| ==> init[m] == ds[m];
  }

  /** No logged date stays so when a date without rows is appended. */
  lemma NoLogExtends(book: Table, ds: seq<Day>)
    requires ds != [] && RowsOn(book, ds[|ds| - 1]) == []
    requires NoLogBefore(book, ds[..|ds| - 1], |ds| - 1)
    ensures NoLogBefore(book, ds, |ds|)
  {
    var init := ds[..|ds| - 1];
    assert forall m :: 0 <= m < |init| ==> init[m] == ds[m];
  }

  /** The positions of `b` that hold true, in increasing order. */
  ghost function TrueIndices(b: seq<bool>): (g: seq<int>)
    ensures forall i :: 0 <= i < |g| ==> 0 <= g[i] < |b| && b[g[i]]
    ensures forall k :: 0 <= k < |b| && b[k] ==> k in g
    ensures forall i, j :: 0 <= i < j < |g| ==> g[i] < g[j]
    decreases |b|
  {
    if b == [] then []
    else
      var b' := b[..|b| - 1];
      var g := TrueIndices(b');
      assert forall k :: 0 <= k < |b'| ==> b'[k] == b[k];
      g + (if b[|b| - 1] then [|b| - 1] else [])
  }

  /** The indices of the gap dates, in increasing order. */
  ghost function GapIndices(book: Table, ds: seq<Day>): seq<int> {
    TrueIndices(seq(|ds|, k requires 0 <= k < |ds| => Gap(book, ds[k])))
  }

  /** The added row for gap index `k`: a copy of the latest logged row seen
      before it, re-dated to `ds[k]`. */
  ghost predicate CopiedInto(book: Table, ds: seq<Day>, k: int, x: Row) {
    0 <= k < |ds| && LatestLogged(book, ds[..k]).Some? &&
    x == LatestLogged(book, ds[..k]).value.(logDate := ds[k])
  }

  /** `rows_to_add` holds one copy per gap, in date order. */
  ghost predicate CopiesGaps(book: Table, ds: seq<Day>, added: Table) {
    var g := GapIndices(book, ds);
    |added| == |g| && forall i :: 0 <= i < |added| ==> CopiedInto(book, ds, g[i], added[i])
  }

  /** Appending a date appends its index when it is a gap. */
  lemma GapIndicesSnoc(book: Table, ds: seq<Day>)
    requires ds != []
    ensures GapIndices(book, ds) ==
      GapIndices(book, ds[..|ds| - 1]) + (if Gap(book, ds[|ds| - 1]) then [|ds| - 1] else [])
  {
    var init := ds[..|ds| - 1];
    var b := seq(|ds|, k requires 0 <= k < |ds| => Gap(book, ds[k]));
    var b' := seq(|init|, k requires 0 <= k < |init| => Gap(book, init[k]));
    assert b[..|b| - 1] == b';
  }

  /** Every gap date has its place among the gap indices. */
  lemma GapIndexOf(book: Table, ds: seq<Day>, k: int) returns (i: int)
    requires 0 <= k < |ds| && Gap(book, ds[k])
    ensures 0 <= i < |GapIndices(book, ds)| && GapIndices(book, ds)[i] == k
  {
    var b := seq(|ds|, k requires 0 <= k < |ds| => Gap(book, ds[k]));
    assert b[k];
    var g := TrueIndices(b);
    assert k in g;
    i :| 0 <= i < |g| && g[i] == k;
  }

  /** The copies made before the last date keep their meaning once it is appended. */
  lemma CopiesCarry(book: Table, ds: seq<Day>, added: Table)
    requires ds != [] && CopiesGaps(book, ds[..|ds| - 1], added)
    ensures forall i :: 0 <= i < |added| ==> CopiedInto(book, ds, GapIndices(book, ds[..|ds| - 1])[i], added[i])
  {
    var init := ds[..|ds| - 1];
    var g := GapIndices(book, init);
    forall i | 0 <= i < |added| ensures CopiedInto(book, ds, g[i], added[i]) {
      assert CopiedInto(book, init, g[i], added[i]);
      assert ds[..g[i]] == init[..g[i]];
      assert ds[g[i]] == init[g[i]];
    }
  }

  /** The loop invariant, stated against the reference definitions. */
  lemma {:induction false} RunState(book: Table, ds: seq<Day>)
    requires Run(book, ds).Ok?
    ensures Run(book, ds).value.latest == LatestLogged(book, ds)
    ensures CopiesGaps(book, ds, Run(book, ds).value.added)
    decreases |ds|
  {
    if ds != [] {
      var init := ds[..|ds| - 1];
      var d := ds[|ds| - 1];
      RunState(book, init);
      var p := Run(book, init).value;
      var q := Run(book, ds).value;
      assert Visit(book, p, d) == Ok(q);
      GapIndicesSnoc(book, ds);
      CopiesCarry(book, ds, p.added);
      var g := GapIndices(book, init);
      if RowsOn(book, d) != [] {
        LoggedIsEligible(book, d);
        assert q.added == p.added;
      } else if Gap(book, d) {
        assert ds[..|init|] == init;
        assert q.added == p.added + [p.latest.value.(logDate := d)];
        assert CopiedInto(book, ds, |init|, q.added[|p.added|]);
        assert GapIndices(book, ds) == g + [|init|];
      } else {
        assert q == p;
      }
    }
  }

  /** The loop raises at index `k`: a gap date with no logged date before it. */
  ghost predicate FailsAt(book: Table, ds: seq<Day>, k: int) {
    0 <= k < |ds| && Gap(book, ds[k]) && LatestLogged(book, ds[..k]).None?
  }

  /** Appending a date does not change where the earlier dates fail. */
  lemma FailsAtPrefix(book: Table, ds: seq<Day>, k: int)
    requires ds != [] && 0 <= k < |ds| - 1
    ensures FailsAt(book, ds, k) == FailsAt(book, ds[..|ds| - 1], k)
  {
    var init := ds[..|ds| - 1];
    assert init[k] == ds[k] && init[..k] == ds[..k];
  }

  /** The loop raises exactly when some gap comes before any logged date. */
  lemma {:induction false} RunFails(book: Table, ds: seq<Day>)
    ensures Run(book, ds).Err? <==> exists k :: FailsAt(book, ds, k)
    ensures Run(book, ds).Err? ==> Run(book, ds).error == UnboundLocal
    decreases |ds|
  {
    if ds != [] {
      var init := ds[..|ds| - 1];
      RunFails(book, init);
      forall k | 0 <= k < |init| ensures FailsAt(book, ds, k) == FailsAt(book, init, k) {
        FailsAtPrefix(book, ds, k);
      }
      if Run(book, init).Ok? {
        RunFailsLast(book, ds);
      }
    }
  }

  /** After a loop that has not raised, the last date raises exactly when it
      is a gap with no logged date before it. */
  lemma RunFailsLast(book: Table, ds: seq<Day>)
    requires ds != [] && Run(book, ds[..|ds| - 1]).Ok?
    ensures Run(book, ds).Err? <==> FailsAt(book, ds, |ds| - 1)
    ensures Run(book, ds).Err? ==> Run(book, ds).error == UnboundLocal
  {
    var init := ds[..|ds| - 1];
    var d := ds[|ds| - 1];
    RunState(book, init);
    assert ds[..|init|] == init;
    if RowsOn(book, d) != [] {
      LoggedIsEligible(book, d);
    }
  }

  /** `fill_up_book_df` raises (the unbound `latest_log`) exactly when a date
      without rows is reached before any date with rows. */
  lemma FillUpBookFails(book: Table, dates: seq<Day>)
    ensures FillUpBook(book, dates).Err? <==>
      exists k :: 0 <= k < |dates| && Gap(book, dates[k]) && NoLogBefore(book, dates, k)
    ensures FillUpBook(book, dates).Err? ==> FillUpBook(book, dates).error == UnboundLocal
  {
    RunFails(book, dates);
    forall k | 0 <= k < |dates|
      ensures FailsAt(book, dates, k) <==> Gap(book, dates[k]) && NoLogBefore(book, dates, k)
    {
      LatestLoggedIsLast(book, dates[..k]);
      assert forall j :: 0 <= j < k ==> dates[..k][j] == dates[j];
    }
  }

  /** A copied row is the first row of the last logged date before its gap. */
  lemma CopyOfLatest(book: Table, ds: seq<Day>, k: int, x: Row) returns (j: int)
    requires CopiedInto(book, ds, k, x)
    ensures LastLoggedBefore(book, ds, j, k) && x == RowsOn(book, ds[j])[0].(logDate := ds[k])
  {
    var pre := ds[..k];
    LatestLoggedIsLast(book, pre);
    j :| LastLoggedBefore(book, pre, j, k) && LatestLogged(book, pre).value == RowsOn(book, pre[j])[0];
    assert forall m :: 0 <= m < k ==> pre[m] == ds[m];
  }

  /** The rows the loop adds, when it does not raise. */
  ghost function Added(book: Table, dates: seq<Day>): (added: Table)
    requires Run(book, dates).Ok?
    ensures CopiesGaps(book, dates, added)
    ensures FillUpBook(book, dates) == Ok(added + book)
  {
    RunState(book, dates);
    Run(book, dates).value.added
  }

  /** On success the original rows come last and unchanged, after exactly
      one added row per gap date. */
  lemma FillUpBookKeeps(book: Table, dates: seq<Day>)
    requires FillUpBook(book, dates).Ok?
    ensures var r := FillUpBook(book, dates).value;
      |r| == |GapIndices(book, dates)| + |book| && r[|GapIndices(book, dates)|..] == book
  {
    var added := Added(book, dates);
    assert (added + book)[|added|..] == book;
  }

  /** Each added row is the first row (in table order) of the latest logged
      date before its gap, with only the date replaced. */
  lemma FillUpBookCopies(book: Table, dates: seq<Day>, i: int)
    requires FillUpBook(book, dates).Ok? && 0 <= i < |GapIndices(book, dates)|
    ensures i < |FillUpBook(book, dates).value|
    ensures exists j :: (LastLoggedBefore(book, dates, j, GapIndices(book, dates)[i]) &&
      FillUpBook(book, dates).value[i] == RowsOn(book, dates[j])[0].(logDate := dates[GapIndices(book, dates)[i]]))
  {
    var added := Added(book, dates);
    var k := GapIndices(book, dates)[i];
    assert (added + book)[i] == added[i];
    var j := CopyOfLatest(book, dates, k, added[i]);
  }

  /** On success every eligible date has a row. */
  lemma FillUpBookCovers(book: Table, dates: seq<Day>, k: int)
    requires FillUpBook(book, dates).Ok? && 0 <= k < |dates| && Eligible(book, dates[k])
    ensures exists x :: x in FillUpBook(book, dates).value && x.logDate == dates[k]
  {
    var added := Added(book, dates);
    var r := added + book;
    var m := RowsOn(book, dates[k]);
    if m != [] {
      assert m[0] in m;
      assert m[0] in r;
    } else {
      var i := GapIndexOf(book, dates, k);
      assert CopiedInto(book, dates, k, added[i]);
      assert r[i] == added[i];
    }
  }

  /** Every row of the result is an original one or sits on a gap date:
      nothing is added before the first log or outside the given dates. */
  lemma FillUpBookOnlyGaps(book: Table, dates: seq<Day>, x: Row)
    requires FillUpBook(book, dates).Ok? && x in FillUpBook(book, dates).value
    ensures x in book || (x.logDate in dates && Gap(book, x.logDate))
  {
    var added := Added(book, dates);
    RowOfFilled(book, dates, added, x);
  }

  /** A row of the added rows followed by the book comes from one side or the other. */
  lemma RowOfFilled(book: Table, ds: seq<Day>, added: Table, x: Row)
    requires CopiesGaps(book, ds, added) && x in added + book
    ensures x in book || (x.logDate in ds && Gap(book, x.logDate))
  {
    var r := added + book;
    var i :| 0 <= i < |r| && r[i] == x;
    if i < |added| {
      assert r[i] == added[i];
      AddedOnGap(book, ds, added, i);
    } else {
      assert x == book[i - |added|];
    }
  }

  /** An added row is dated to one of the gap dates. */
  lemma AddedOnGap(book: Table, ds: seq<Day>, added: Table, i: int)
    requires CopiesGaps(book, ds, added) && 0 <= i < |added|
    ensures added[i].logDate in ds && Gap(book, added[i].logDate)
  {
    var g := GapIndices(book, ds);
    var b := seq(|ds|, k requires 0 <= k < |ds| => Gap(book, ds[k]));
    assert CopiedInto(book, ds, g[i], added[i]);
    assert b[g[i]];
  }

  lemma {:induction false} RunEmptyBook(ds: seq<Day>)
    ensures Run([], ds) == Ok(Progress(None, []))
    decreases |ds|
  {
    if ds != [] {
      RunEmptyBook(ds[..|ds| - 1]);
      assert !Eligible([], ds[|ds| - 1]);
    }
  }

  /** An empty book comes back empty whatever the dates: no date is eligible. */
  lemma FillUpEmptyBook(dates: seq<Day>)
    ensures FillUpBook([], dates) == Ok([])
  {
    RunEmptyBook(dates);
    var e: Table := [];
    assert e + [] == [];
  }
}
