/** Dense timeline filler: `fill_up_dataframe` turns the sparse per-(book, day)
    log into one row per (slug, day) over the global date range, with
    `page_current` forward-filled per slug and the leading gaps set to 0. */
module Timeline {
  import opened Tables
  import opened Strings
  import Backdate

  /** A row of the merged grid before `fillna`: the (slug, day) key, the log
      row joined onto it (None for a gap) and the `page_current` cell. */
  datatype Cell = Cell(slug: string, day: Day, log: Option<Row>, page: Option<int>)

  /** A row of the returned timeline. Gap rows carry no log columns; only
      `page_current` is filled in for them. */
  datatype DenseRow = DenseRow(slug: string, day: Day, log: Option<Row>, pageCurrent: int)

  /** `pd.concat([books_df, backdated_books_df])`. */
  function Augmented(t: Table): (a: Table)
    ensures |a| >= |t| && a[..|t|] == t
    ensures a == [] <==> t == []
  {
    t + Backdate.BackdateBooks(t)
  }

  /** The slug column of a table. */
  function SlugColumn(t: Table): (s: seq<string>)
    ensures forall x :: x in s <==> x in Slugs(t)
  {
    var s := seq(|t|, i requires 0 <= i < |t| => t[i].slug);
    assert forall x :: x in Slugs(t) ==> x in s by {
      forall x | x in Slugs(t) ensures x in s {
        var r :| r in t && r.slug == x;
        var i :| 0 <= i < |t| && t[i] == r;
        assert s[i] == x;
      }
    }
    s
  }

  /** `books_df["slug"].unique()` after sorting by slug. */
  function UniqueSlugs(t: Table): (s: seq<string>)
    ensures StrictlySorted(s)
    ensures forall x :: x in s <==> x in Slugs(t)
  {
    SortedUnique(SlugColumn(t))
  }

  /** The rows of `aug` whose key is (s, d), in table order: what the left
      merge joins onto the grid row (s, d). */
  function Matches(aug: Table, s: string, d: Day): (m: Table)
    ensures |m| <= |aug|
    ensures forall r :: r in m <==> r in aug && r.slug == s && r.logDate == d
  {
    if aug == [] then []
    else
      var init := aug[..|aug| - 1];
      var r := aug[|aug| - 1];
      assert forall x :: x in aug <==> x in init || x == r;
      Matches(init, s, d) + (if r.slug == s && r.logDate == d then [r] else [])
  }

  /** The merged rows for one grid key: one per matching log row, or a
      single gap row when nothing matches. */
  function CellsAt(aug: Table, s: string, d: Day): seq<Cell> {
    var m := Matches(aug, s, d);
    if m == [] then [Cell(s, d, None, None)]
    else seq(|m|, i requires 0 <= i < |m| => Cell(s, d, Some(m[i]), Some(m[i].pageCurrent)))
  }

  /** The merged rows of slug `s` for the days lo..d, in day order. */
  function Column(aug: Table, s: string, lo: Day, d: Day): seq<Cell>
    decreases d - lo
  {
    if d < lo then []
    else Column(aug, s, lo, d - 1) + CellsAt(aug, s, d)
  }

  /** The cross product slugs x [lo, hi], left-merged with `aug`, slug by slug. */
  function Grid(aug: Table, slugs: seq<string>, lo: Day, hi: Day): seq<Cell>
    decreases |slugs|
  {
    if slugs == [] then []
    else Grid(aug, slugs[..|slugs| - 1], lo, hi) + Column(aug, slugs[|slugs| - 1], lo, hi)
  }

  /** The last non-null page count of slug `s` in `c`, which is what a
      per-slug forward fill carries into the next gap. */
  function LastKnown(c: seq<Cell>, s: string): Option<int> {
    if c == [] then None
    else
      var x := c[|c| - 1];
      if x.slug == s && x.page.Some? then x.page else LastKnown(c[..|c| - 1], s)
  }

  /** A null page takes the carried value; a present one is kept. */
  function FillCell(x: Cell, carry: Option<int>): Cell {
    if x.page.Some? then x else x.(page := carry)
  }

  /** `groupby("slug").apply(lambda g: g["page_current"].ffill())`. */
  function ForwardFill(c: seq<Cell>): seq<Cell> {
    seq(|c|, i requires 0 <= i < |c| => FillCell(c[i], LastKnown(c[..i], c[i].slug)))
  }

  /** `fillna({"page_current": 0})` for one row. */
  function ToDense(x: Cell): DenseRow {
    DenseRow(x.slug, x.day, x.log, x.page.GetOr(0))
  }

  function FillZero(c: seq<Cell>): seq<DenseRow> {
    seq(|c|, i requires 0 <= i < |c| => ToDense(c[i]))
  }

  /** Everything `fill_up_dataframe` does after the concatenation, on the
      augmented table. An empty table has NaT bounds and `pd.date_range`
      raises. */
  function Densify(aug: Table): Result<seq<DenseRow>> {
    if aug == [] then Err(EmptyDateRange)
    else Ok(FillZero(ForwardFill(Grid(aug, UniqueSlugs(aug), MinDay(aug), MaxDay(aug)))))
  }

  /** The dense timeline of a log table. */
  function DenseTimeline(t: Table): Result<seq<DenseRow>> {
    Densify(Augmented(t))
  }

  /** The newer `fill_up_dataframe`. */
  method FillUpDataframe(books: Table) returns (res: Result<seq<DenseRow>>)
    ensures res == DenseTimeline(books)
  {
    var backdated := Backdate.BackdateBooks(books);
    res := FillUpAugmented(books + backdated);
  }

  /** Global date range, cross join with the sorted slugs, left merge,
      per-slug forward fill and zero fill, as the successive steps of
      `fill_up_dataframe`. */
  method FillUpAugmented(aug: Table) returns (res: Result<seq<DenseRow>>)
    ensures res == Densify(aug)
  {
    if aug == [] {
      return Err(EmptyDateRange);
    }
    var lo, hi := DateRange(aug);
    // the frame is sorted by (slug, day), so unique() lists the slugs in order
    var slugs := UniqueSlugs(aug);
    var grid := CrossMerge(aug, slugs, lo, hi);
    // the grid is built in (slug, day) order: the sort and reset_index change nothing
    var filled := FillForward(grid);
    var out := FillNullPages(filled);
    return Ok(out);
  }

  /** `books_df["log_created_at"].min()` and `.max()`. */
  method DateRange(aug: Table) returns (lo: Day, hi: Day)
    requires aug != []
    ensures lo == MinDay(aug) && hi == MaxDay(aug)
  {
    lo, hi := aug[0].logDate, aug[0].logDate;
    for k := 1 to |aug|
      invariant lo == MinDay(aug[..k]) && hi == MaxDay(aug[..k])
    {
      var t := aug[..k + 1];
      assert t[..|t| - 1] == aug[..k] && t[|t| - 1] == aug[k];
      if aug[k].logDate < lo { lo := aug[k].logDate; }
      if aug[k].logDate > hi { hi := aug[k].logDate; }
    }
    assert aug[..|aug|] == aug;
  }

  /** The log rows the merge joins onto the grid key (s, d). */
  method MatchRows(aug: Table, s: string, d: Day) returns (hits: Table)
    ensures hits == Matches(aug, s, d)
  {
    hits := [];
    for j := 0 to |aug|
      invariant hits == Matches(aug[..j], s, d)
    {
      assert aug[..j + 1][..j] == aug[..j];
      if aug[j].slug == s && aug[j].logDate == d {
        hits := hits + [aug[j]];
      }
    }
    assert aug[..|aug|] == aug;
  }

  /** The merged rows of one slug over the date range. */
  method MergeColumn(aug: Table, s: string, lo: Day, hi: Day) returns (col: seq<Cell>)
    ensures col == Column(aug, s, lo, hi)
  {
    col := [];
    var d := lo;
    while d <= hi
      invariant d <= hi + 1 || d == lo
      invariant col == Column(aug, s, lo, d - 1)
      decreases hi - d
    {
      var hits := MatchRows(aug, s, d);
      if hits == [] {
        col := col + [Cell(s, d, None, None)];
      } else {
        col := col + seq(|hits|, k requires 0 <= k < |hits| => Cell(s, d, Some(hits[k]), Some(hits[k].pageCurrent)));
      }
      d := d + 1;
    }
  }

  /** The cross join of slugs and days, left-merged on (slug, day). */
  method CrossMerge(aug: Table, slugs: seq<string>, lo: Day, hi: Day) returns (grid: seq<Cell>)
    ensures grid == Grid(aug, slugs, lo, hi)
  {
    grid := [];
    for i := 0 to |slugs|
      invariant grid == Grid(aug, slugs[..i], lo, hi)
    {
      var col := MergeColumn(aug, slugs[i], lo, hi);
      assert slugs[..i + 1][..i] == slugs[..i];
      grid := grid + col;
    }
    assert slugs[..|slugs|] == slugs;
  }

  /** The dictionary of last pages agrees with `LastKnown` on the cells walked so far. */
  ghost predicate Carries(c: seq<Cell>, last: map<string, int>) {
    forall s :: LastKnown(c, s) == if s in last then Some(last[s]) else None
  }

  /** Walking one more cell records its page, when it has one. */
  lemma CarriesSnoc(c: seq<Cell>, x: Cell, last: map<string, int>)
    requires Carries(c, last)
    ensures Carries(c + [x], if x.page.Some? then last[x.slug := x.page.value] else last)
  {
    assert (c + [x])[..|c|] == c;
  }

  /** The forward fill of a longer prefix extends that of the shorter one. */
  lemma ForwardFillSnoc(grid: seq<Cell>, i: nat)
    requires i < |grid|
    ensures ForwardFill(grid[..i + 1]) == ForwardFill(grid[..i]) + [FillCell(grid[i], LastKnown(grid[..i], grid[i].slug))]
  {
    var c := grid[..i + 1];
    assert c[..i] == grid[..i];
    assert forall k :: 0 <= k < i ==> c[..k] == grid[..i][..k];
  }

  /** Per-slug forward fill of `page_current`: the last page seen for each
      slug is kept in a dictionary while the grid is walked in order. */
  method FillForward(grid: seq<Cell>) returns (filled: seq<Cell>)
    ensures filled == ForwardFill(grid)
  {
    filled := [];
    var last: map<string, int> := map[];
    for i := 0 to |grid|
      invariant filled == ForwardFill(grid[..i])
      invariant Carries(grid[..i], last)
    {
      var x := grid[i];
      ForwardFillSnoc(grid, i);
      CarriesSnoc(grid[..i], x, last);
      assert grid[..i + 1] == grid[..i] + [x];
      if x.page.Some? {
        filled := filled + [x];
        last := last[x.slug := x.page.value];
      } else {
        filled := filled + [x.(page := if x.slug in last then Some(last[x.slug]) else None)];
      }
    }
    assert grid[..|grid|] == grid;
  }

  /** `fillna({"page_current": 0})`. */
  method FillNullPages(filled: seq<Cell>) returns (out: seq<DenseRow>)
    ensures out == FillZero(filled)
  {
    out := [];
    for i := 0 to |filled|
      invariant |out| == i
      invariant forall k :: 0 <= k < i ==> out[k] == ToDense(filled[k])
    {
      out := out + [ToDense(filled[i])];
    }
  }
}
