/** The promises of `fill_up_dataframe` stated on the timeline it returns. */
module DenseFacts {
  import opened Tables
  import opened Strings
  import opened Backdate
  import opened Timeline
  import opened TimelineFacts

  /** The merged grid that the timeline fills. */
  function GridOf(aug: Table): seq<Cell>
    requires aug != []
  {
    Grid(aug, UniqueSlugs(aug), MinDay(aug), MaxDay(aug))
  }

  /** Row i of the timeline is cell i of the grid with its page filled. */
  lemma FilledAt(t: Table, i: nat)
    requires DenseTimeline(t).Ok? && i < |DenseTimeline(t).value|
    ensures Augmented(t) != []
    ensures var g := GridOf(Augmented(t));
      && |DenseTimeline(t).value| == |g|
      && DenseTimeline(t).value[i] == ToDense(FillCell(g[i], LastKnown(g[..i], g[i].slug)))
  {
  }

  /** Filling changes neither the key nor the log columns of a row. */
  lemma FilledKey(t: Table, i: nat)
    requires DenseTimeline(t).Ok? && i < |DenseTimeline(t).value|
    ensures Augmented(t) != [] && |DenseTimeline(t).value| == |GridOf(Augmented(t))|
    ensures DenseTimeline(t).value[i].slug == GridOf(Augmented(t))[i].slug
    ensures DenseTimeline(t).value[i].day == GridOf(Augmented(t))[i].day
    ensures DenseTimeline(t).value[i].log == GridOf(Augmented(t))[i].log
  {
    FilledAt(t, i);
  }

  /** The timeline fails exactly on an empty log, and then with the error
      `pd.date_range` raises over NaT bounds. */
  lemma DenseTimelineFails(t: Table)
    ensures DenseTimeline(t).Err? <==> t == []
    ensures DenseTimeline(t).Err? ==> DenseTimeline(t).error == EmptyDateRange
  {
    assert t == [] <==> Augmented(t) == [];
  }

  /** Every row belongs to a known book and to the global date range; a row
      that carries a log row carries that row's key and page count. */
  lemma DenseRowsMerged(t: Table, i: nat)
    requires DenseTimeline(t).Ok? && i < |DenseTimeline(t).value|
    ensures var aug := Augmented(t); var x := DenseTimeline(t).value[i];
      && aug != []
      && x.slug in Slugs(t)
      && MinDay(aug) <= x.day <= MaxDay(aug)
      && (x.log.Some? ==>
            x.log.value in aug && KeyOf(x.log.value) == (x.slug, x.day) &&
            x.pageCurrent == x.log.value.pageCurrent)
  {
    var aug := Augmented(t);
    FilledAt(t, i);
    GridCellMerged(aug, i);
    AugmentedSlugs(t);
  }

  /** Every book appears on every day of the global date range. */
  lemma DenseCoverage(t: Table, s: string, d: Day)
    requires t != [] && s in Slugs(t)
    requires MinDay(Augmented(t)) <= d <= MaxDay(Augmented(t))
    ensures DenseTimeline(t).Ok?
    ensures exists i :: (0 <= i < |DenseTimeline(t).value| &&
      DenseTimeline(t).value[i].slug == s && DenseTimeline(t).value[i].day == d)
  {
    var aug := Augmented(t);
    AugmentedSlugs(t);
    var k := GridSlice(aug, UniqueSlugs(aug), MinDay(aug), MaxDay(aug), s, d);
    CellsAtMerged(aug, s, d);
    var g := GridOf(aug);
    assert g[k + 0] == CellsAt(aug, s, d)[0];
    assert CellsAt(aug, s, d)[0] in CellsAt(aug, s, d);
    FilledKey(t, k);
  }

  /** Every row of the log, and every backdated copy, survives the merge
      with its page count. */
  lemma DenseKeepsLogs(t: Table, r: Row)
    requires r in Augmented(t)
    ensures DenseTimeline(t).Ok?
    ensures exists i :: (0 <= i < |DenseTimeline(t).value| &&
      DenseTimeline(t).value[i] == DenseRow(r.slug, r.logDate, Some(r), r.pageCurrent))
  {
    var k := GridKeeps(Augmented(t), r);
    FilledAt(t, k);
  }

  lemma GridKeeps(aug: Table, r: Row) returns (k: nat)
    requires r in aug
    ensures aug != [] && k < |GridOf(aug)|
    ensures GridOf(aug)[k] == Cell(r.slug, r.logDate, Some(r), Some(r.pageCurrent))
  {
    var p := CellOfRow(aug, r);
    k := GridCellAt(aug, UniqueSlugs(aug), MinDay(aug), MaxDay(aug), r.slug, r.logDate, p,
                    Cell(r.slug, r.logDate, Some(r), Some(r.pageCurrent)));
  }

  /** A log row has its own cell among the merged rows of its key. */
  lemma CellOfRow(aug: Table, r: Row) returns (p: nat)
    requires r in aug
    ensures aug != [] && r.slug in UniqueSlugs(aug) && MinDay(aug) <= r.logDate <= MaxDay(aug)
    ensures p < |CellsAt(aug, r.slug, r.logDate)|
    ensures CellsAt(aug, r.slug, r.logDate)[p] == Cell(r.slug, r.logDate, Some(r), Some(r.pageCurrent))
  {
    var m := Matches(aug, r.slug, r.logDate);
    assert r in m;
    p :| 0 <= p < |m| && m[p] == r;
  }

  /** The rows are in (slug, day) order; a key is repeated only where more
      than one row of the augmented log carries it. */
  lemma DenseOrdered(t: Table)
    requires DenseTimeline(t).Ok?
    ensures var rows := DenseTimeline(t).value;
      forall i, j :: 0 <= i < j < |rows| ==>
        KeyOrdered(Augmented(t), rows[i].slug, rows[i].day, rows[j].slug, rows[j].day)
  {
    var aug := Augmented(t);
    var rows := DenseTimeline(t).value;
    var g := GridOf(aug);
    GridOrdered(aug, UniqueSlugs(aug), MinDay(aug), MaxDay(aug));
    forall i, j | 0 <= i < j < |rows|
      ensures KeyOrdered(aug, rows[i].slug, rows[i].day, rows[j].slug, rows[j].day)
    {
      FilledKey(t, i);
      FilledKey(t, j);
    }
  }

  /** When no two log rows of the augmented table share a key, the timeline
      has exactly one row per (slug, day), strictly ascending. */
  lemma DenseUniqueKeys(t: Table)
    requires DenseTimeline(t).Ok?
    requires NoDuplicateKeys(Augmented(t))
    ensures var rows := DenseTimeline(t).value;
      forall i, j :: 0 <= i < j < |rows| ==>
        Less(rows[i].slug, rows[j].slug) || (rows[i].slug == rows[j].slug && rows[i].day < rows[j].day)
  {
    var aug := Augmented(t);
    var rows := DenseTimeline(t).value;
    DenseOrdered(t);
    forall i, j | 0 <= i < j < |rows|
      ensures Less(rows[i].slug, rows[j].slug) || (rows[i].slug == rows[j].slug && rows[i].day < rows[j].day)
    {
      assert KeyOrdered(aug, rows[i].slug, rows[i].day, rows[j].slug, rows[j].day);
      MatchesAtMostOne(aug, rows[i].slug, rows[i].day);
    }
  }

  /** Rows i < j of the timeline share the key (s, d). */
  ghost predicate RepeatedAt(rows: seq<DenseRow>, s: string, d: Day, i: int, j: int) {
    0 <= i < j < |rows| && rows[i].slug == s && rows[j].slug == s && rows[i].day == d && rows[j].day == d
  }

  /** A key appears twice in the timeline exactly when two rows of the
      augmented log carry it. */
  lemma DenseRepeatedKey(t: Table, s: string, d: Day)
    requires DenseTimeline(t).Ok?
    ensures (exists i, j :: RepeatedAt(DenseTimeline(t).value, s, d, i, j)) <==>
      (s in Slugs(t) && MinDay(Augmented(t)) <= d <= MaxDay(Augmented(t)) &&
       |Matches(Augmented(t), s, d)| >= 2)
  {
    if exists i, j :: RepeatedAt(DenseTimeline(t).value, s, d, i, j) {
      var i, j :| RepeatedAt(DenseTimeline(t).value, s, d, i, j);
      RepeatedOnlyWhenMatched(t, s, d, i, j);
    }
    if s in Slugs(t) && MinDay(Augmented(t)) <= d <= MaxDay(Augmented(t)) &&
       |Matches(Augmented(t), s, d)| >= 2 {
      var k := RepeatedWhenMatched(t, s, d);
    }
  }

  lemma RepeatedOnlyWhenMatched(t: Table, s: string, d: Day, i: int, j: int)
    requires DenseTimeline(t).Ok?
    requires RepeatedAt(DenseTimeline(t).value, s, d, i, j)
    ensures s in Slugs(t) && MinDay(Augmented(t)) <= d <= MaxDay(Augmented(t))
    ensures |Matches(Augmented(t), s, d)| >= 2
  {
    var rows := DenseTimeline(t).value;
    DenseOrdered(t);
    assert KeyOrdered(Augmented(t), rows[i].slug, rows[i].day, rows[j].slug, rows[j].day);
    LessIrreflexive(s);
    DenseRowsMerged(t, i);
  }

  lemma RepeatedWhenMatched(t: Table, s: string, d: Day) returns (k: nat)
    requires DenseTimeline(t).Ok?
    requires s in Slugs(t) && MinDay(Augmented(t)) <= d <= MaxDay(Augmented(t))
    requires |Matches(Augmented(t), s, d)| >= 2
    ensures RepeatedAt(DenseTimeline(t).value, s, d, k, k + 1)
  {
    var aug := Augmented(t);
    AugmentedSlugs(t);
    k := GridRepeated(aug, s, d);
    FilledKey(t, k);
    FilledKey(t, k + 1);
  }

  lemma GridRepeated(aug: Table, s: string, d: Day) returns (k: nat)
    requires aug != [] && s in Slugs(aug) && MinDay(aug) <= d <= MaxDay(aug)
    requires |Matches(aug, s, d)| >= 2
    ensures k + 1 < |GridOf(aug)|
    ensures GridOf(aug)[k].slug == s && GridOf(aug)[k].day == d
    ensures GridOf(aug)[k + 1].slug == s && GridOf(aug)[k + 1].day == d
  {
    k := GridSlice(aug, UniqueSlugs(aug), MinDay(aug), MaxDay(aug), s, d);
    var c := CellsAt(aug, s, d);
    CellsAtMerged(aug, s, d);
    assert c[0] in c && c[1] in c;
    assert GridOf(aug)[k + 0] == c[0] && GridOf(aug)[k + 1] == c[1];
  }

  /** A book finished on a day it was also logged and logged again later
      gets two rows for its finish day: the original log and the backdated
      copy. */
  lemma BackdatedOntoLog(t: Table, y: Row, r: Row)
    requires y in t && r in t && LoggedAfterFinish(r)
    requires y.slug == r.slug && y.logDate == r.finishDate.value
    ensures |Matches(Augmented(t), r.slug, r.finishDate.value)| >= 2
  {
    var s, d := r.slug, r.finishDate.value;
    var b := BackdateBooks(t);
    BackdateExactly(t, Corrected(r));
    MatchesAppend(t, b, s, d);
    assert y in Matches(t, s, d);
    assert Corrected(r) in Matches(b, s, d);
  }

  /** What the forward fill carries into a gap cell of the grid: nothing
      before the book's first log, otherwise the page count of its latest
      earlier logged day. */
  lemma GridGapPage(aug: Table, i: nat, s: string, d: Day)
    requires aug != [] && i < |GridOf(aug)| && GridOf(aug)[i] == Cell(s, d, None, None)
    ensures (forall r :: r in aug && r.slug == s ==> r.logDate >= d) ==>
      LastKnown(GridOf(aug)[..i], s) == None
    ensures (exists r :: r in aug && r.slug == s && r.logDate < d) ==>
      exists e :: LatestLogDay(aug, s, MinDay(aug), d - 1, e) && Matches(aug, s, e) != [] &&
        LastKnown(GridOf(aug)[..i], s) == Some(LastPage(aug, s, e))
  {
    var lo, hi := MinDay(aug), MaxDay(aug);
    GridGapCarry(aug, UniqueSlugs(aug), lo, hi, i, s, d);
    CarryIntoGap(aug, s, lo, d);
  }

  lemma CarryIntoGap(aug: Table, s: string, lo: Day, d: Day)
    requires forall r :: r in aug ==> lo <= r.logDate
    ensures (forall r :: r in aug && r.slug == s ==> r.logDate >= d) ==>
      LastKnown(Column(aug, s, lo, d - 1), s) == None
    ensures (exists r :: r in aug && r.slug == s && r.logDate < d) ==>
      exists e :: LatestLogDay(aug, s, lo, d - 1, e) && Matches(aug, s, e) != [] &&
        LastKnown(Column(aug, s, lo, d - 1), s) == Some(LastPage(aug, s, e))
  {
    ColumnLastKnown(aug, s, lo, d - 1);
  }

  /** A gap cell of book `s` on `day` shows `page`: 0 before the book's first
      log, otherwise the page count of its latest earlier logged day (its
      last log row there). */
  ghost predicate GapShows(aug: Table, s: string, day: Day, page: int)
    requires aug != []
  {
    && ((forall r :: r in aug && r.slug == s ==> r.logDate >= day) ==> page == 0)
    && ((exists r :: r in aug && r.slug == s && r.logDate < day) ==>
          exists e :: LatestLogDay(aug, s, MinDay(aug), day - 1, e) && Matches(aug, s, e) != [] &&
            page == LastPage(aug, s, e))
  }

  /** A day without a log row shows the page count of the book's latest
      earlier logged day (its last log row there), or 0 when the book has
      not been logged yet. */
  lemma DenseGapPage(t: Table, i: nat)
    requires DenseTimeline(t).Ok? && i < |DenseTimeline(t).value|
    requires DenseTimeline(t).value[i].log.None?
    ensures Augmented(t) != []
    ensures GapShows(Augmented(t), DenseTimeline(t).value[i].slug, DenseTimeline(t).value[i].day,
                     DenseTimeline(t).value[i].pageCurrent)
  {
    var aug := Augmented(t);
    var x := DenseTimeline(t).value[i];
    FilledAt(t, i);
    GridCellMerged(aug, i);
    GridGapShows(aug, i, x.slug, x.day);
  }

  /** The zero fill of a gap cell of the grid shows what `GapShows` says. */
  lemma GridGapShows(aug: Table, i: nat, s: string, d: Day)
    requires aug != [] && i < |GridOf(aug)| && GridOf(aug)[i] == Cell(s, d, None, None)
    ensures GapShows(aug, s, d, LastKnown(GridOf(aug)[..i], s).GetOr(0))
  {
    var c := LastKnown(GridOf(aug)[..i], s);
    GridGapPage(aug, i, s, d);
    if exists r :: r in aug && r.slug == s && r.logDate < d {
      var e :| LatestLogDay(aug, s, MinDay(aug), d - 1, e) && Matches(aug, s, e) != [] &&
        c == Some(LastPage(aug, s, e));
      assert c.GetOr(0) == LastPage(aug, s, e);
    }
  }

  /** One cell of the grid is merged from the augmented log. */
  lemma GridCellMerged(aug: Table, i: nat)
    requires aug != [] && i < |GridOf(aug)|
    ensures GridOf(aug)[i].slug in UniqueSlugs(aug)
    ensures MinDay(aug) <= GridOf(aug)[i].day <= MaxDay(aug)
    ensures Merged(aug, GridOf(aug)[i])
  {
    GridMerged(aug, UniqueSlugs(aug), MinDay(aug), MaxDay(aug));
    assert GridOf(aug)[i] in GridOf(aug);
  }
}
