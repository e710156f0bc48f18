/** What the dense timeline promises: one row per (slug, day) of the global
    date range in (slug, day) order, every log row kept with its page count,
    gaps carrying the page count of the latest earlier log of their book and
    0 before the first one. */
module TimelineFacts {
  import opened Tables
  import opened Strings
  import opened Backdate
  import opened Timeline

  // ----- the augmented table -----

  /** The concatenation holds the original rows and the corrected copies of
      the rows logged after their finish date, and nothing else. */
  lemma AugmentedRows(t: Table, x: Row)
    ensures x in Augmented(t) <==>
      x in t || exists y :: y in t && LoggedAfterFinish(y) && x == Corrected(y)
  {
    BackdateExactly(t, x);
  }

  /** Backdating adds no book. */
  lemma AugmentedSlugs(t: Table)
    ensures Slugs(Augmented(t)) == Slugs(t)
  {
    forall s | s in Slugs(Augmented(t)) ensures s in Slugs(t) {
      var x :| x in Augmented(t) && x.slug == s;
      AugmentedRows(t, x);
      if x !in t {
        var y :| y in t && LoggedAfterFinish(y) && x == Corrected(y);
        assert y.slug == s;
      }
    }
    forall s | s in Slugs(t) ensures s in Slugs(Augmented(t)) {
      var x :| x in t && x.slug == s;
      assert x in Augmented(t);
    }
  }

  // ----- the merge -----

  lemma {:induction false} MatchesAppend(a: Table, b: Table, s: string, d: Day)
    ensures Matches(a + b, s, d) == Matches(a, s, d) + Matches(b, s, d)
    decreases |b|
  {
    if b == [] {
      assert a + b == a;
    } else {
      var b' := b[..|b| - 1];
      assert (a + b)[..|a + b| - 1] == a + b';
      MatchesAppend(a, b', s, d);
    }
  }

  /** A key that no row carries joins nothing. */
  lemma {:induction false} MatchesEmpty(aug: Table, s: string, d: Day)
    requires forall r :: r in aug ==> r.slug != s || r.logDate != d
    ensures Matches(aug, s, d) == []
    decreases |aug|
  {
    if aug != [] {
      assert forall r :: r in aug[..|aug| - 1] ==> r in aug;
      MatchesEmpty(aug[..|aug| - 1], s, d);
    }
  }

  /** Without repeated keys the merge joins at most one log row onto a grid key. */
  lemma {:induction false} MatchesAtMostOne(aug: Table, s: string, d: Day)
    requires NoDuplicateKeys(aug)
    ensures |Matches(aug, s, d)| <= 1
    decreases |aug|
  {
    if aug != [] {
      var init := aug[..|aug| - 1];
      var r := aug[|aug| - 1];
      assert NoDuplicateKeys(init);
      MatchesAtMostOne(init, s, d);
      if r.slug == s && r.logDate == d {
        forall y | y in init ensures y.slug != s || y.logDate != d {
          var k :| 0 <= k < |init| && init[k] == y;
          assert KeyOf(aug[k]) != KeyOf(aug[|aug| - 1]);
        }
        MatchesEmpty(init, s, d);
        assert Matches(aug, s, d) == [] + [r];
      }
    }
  }

  /** A merged cell is either a gap (no log, null page) or a log row of
      `aug` with the cell's key and that row's page count. */
  ghost predicate Merged(aug: Table, x: Cell) {
    && (x.log.None? ==> x.page.None?)
    && (x.log.Some? ==>
          x.log.value in aug && x.log.value.slug == x.slug &&
          x.log.value.logDate == x.day && x.page == Some(x.log.value.pageCurrent))
  }

  lemma CellsAtMerged(aug: Table, s: string, d: Day)
    ensures |CellsAt(aug, s, d)| >= 1
    ensures forall x :: x in CellsAt(aug, s, d) ==> x.slug == s && x.day == d && Merged(aug, x)
  {
    var m := Matches(aug, s, d);
    var c := CellsAt(aug, s, d);
    if m != [] {
      assert forall x :: x in c ==> exists i :: 0 <= i < |m| && x == c[i];
      assert forall i :: 0 <= i < |m| ==> m[i] in m;
    }
  }

  lemma {:induction false} ColumnMerged(aug: Table, s: string, lo: Day, e: Day)
    ensures forall x :: x in Column(aug, s, lo, e) ==> x.slug == s && lo <= x.day <= e && Merged(aug, x)
    decreases e - lo
  {
    if e >= lo {
      ColumnMerged(aug, s, lo, e - 1);
      CellsAtMerged(aug, s, e);
    }
  }

  lemma {:induction false} GridMerged(aug: Table, slugs: seq<string>, lo: Day, hi: Day)
    ensures forall x :: x in Grid(aug, slugs, lo, hi) ==> x.slug in slugs && lo <= x.day <= hi && Merged(aug, x)
    decreases |slugs|
  {
    if slugs != [] {
      var init := slugs[..|slugs| - 1];
      assert forall x :: x in init ==> x in slugs;
      GridMerged(aug, init, lo, hi);
      ColumnMerged(aug, slugs[|slugs| - 1], lo, hi);
    }
  }

  // ----- concatenation -----

  lemma IndexLeft(a: seq<Cell>, b: seq<Cell>, i: nat)
    requires i < |a|
    ensures (a + b)[i] == a[i] && (a + b)[..i] == a[..i]
  {
  }

  lemma IndexRight(a: seq<Cell>, b: seq<Cell>, i: nat)
    requires i < |b|
    ensures (a + b)[|a| + i] == b[i] && (a + b)[..|a| + i] == a + b[..i]
  {
    assert (a + b)[..|a| + i] == a + b[..i];
  }

  /** `c` sits in `g` from position k on. */
  ghost predicate RunAt(g: seq<Cell>, k: nat, c: seq<Cell>) {
    k + |c| <= |g| && forall p :: 0 <= p < |c| ==> g[k + p] == c[p]
  }

  lemma RunLeft(a: seq<Cell>, b: seq<Cell>, k: nat, c: seq<Cell>)
    requires RunAt(a, k, c)
    ensures RunAt(a + b, k, c)
  {
  }

  lemma RunRight(a: seq<Cell>, b: seq<Cell>, k: nat, c: seq<Cell>)
    requires RunAt(b, k, c)
    ensures RunAt(a + b, |a| + k, c)
  {
  }

  // ----- where the cells of one key sit -----

  /** The merged rows of day d form one contiguous run of the column. */
  lemma {:induction false} ColumnSlice(aug: Table, s: string, lo: Day, e: Day, d: Day) returns (k: nat)
    requires lo <= d <= e
    ensures RunAt(Column(aug, s, lo, e), k, CellsAt(aug, s, d))
    decreases e - lo
  {
    var a := Column(aug, s, lo, e - 1);
    var b := CellsAt(aug, s, e);
    assert Column(aug, s, lo, e) == a + b;
    if d == e {
      k := |a|;
      assert RunAt(b, 0, b);
      RunRight(a, b, 0, b);
    } else {
      k := ColumnSlice(aug, s, lo, e - 1, d);
      RunLeft(a, b, k, CellsAt(aug, s, d));
    }
  }

  /** The merged rows of a key (s, d) of the cross product form one
      contiguous run of the grid. */
  lemma {:induction false} GridSlice(aug: Table, slugs: seq<string>, lo: Day, hi: Day, s: string, d: Day)
      returns (k: nat)
    requires s in slugs && lo <= d <= hi
    ensures RunAt(Grid(aug, slugs, lo, hi), k, CellsAt(aug, s, d))
    decreases |slugs|
  {
    var last := slugs[|slugs| - 1];
    var init := slugs[..|slugs| - 1];
    var a := Grid(aug, init, lo, hi);
    var b := Column(aug, last, lo, hi);
    assert Grid(aug, slugs, lo, hi) == a + b;
    var j :| 0 <= j < |slugs| && slugs[j] == s;
    if j == |slugs| - 1 {
      var k' := ColumnSlice(aug, s, lo, hi, d);
      k := |a| + k';
      RunRight(a, b, k', CellsAt(aug, s, d));
    } else {
      assert init[j] == s;
      k := GridSlice(aug, init, lo, hi, s, d);
      RunLeft(a, b, k, CellsAt(aug, s, d));
    }
  }

  /** Each merged row of a key of the cross product has its place in the grid. */
  lemma GridCellAt(aug: Table, slugs: seq<string>, lo: Day, hi: Day, s: string, d: Day, p: nat, x: Cell)
      returns (k: nat)
    requires s in slugs && lo <= d <= hi
    requires p < |CellsAt(aug, s, d)| && CellsAt(aug, s, d)[p] == x
    ensures k < |Grid(aug, slugs, lo, hi)| && Grid(aug, slugs, lo, hi)[k] == x
  {
    var k0 := GridSlice(aug, slugs, lo, hi, s, d);
    RunAtIndex(Grid(aug, slugs, lo, hi), k0, CellsAt(aug, s, d), p, x);
    k := k0 + p;
  }

  /** One cell of a run. */
  lemma RunAtIndex(g: seq<Cell>, k: nat, c: seq<Cell>, p: nat, x: Cell)
    requires RunAt(g, k, c) && p < |c| && c[p] == x
    ensures k + p < |g| && g[k + p] == x
  {
  }

  // ----- order -----

  /** (s1, d1) does not come after (s2, d2) in the order of the grid; a key
      repeats only when several log rows carry it. */
  ghost predicate KeyOrdered(aug: Table, s1: string, d1: Day, s2: string, d2: Day) {
    || Less(s1, s2)
    || (s1 == s2 && d1 < d2)
    || (s1 == s2 && d1 == d2 && |Matches(aug, s1, d1)| >= 2)
  }

  ghost predicate Ordered(aug: Table, c: seq<Cell>) {
    forall i, j :: 0 <= i < j < |c| ==> KeyOrdered(aug, c[i].slug, c[i].day, c[j].slug, c[j].day)
  }

  /** Every cell of `a` comes before every cell of `b`. */
  ghost predicate Precedes(aug: Table, a: seq<Cell>, b: seq<Cell>) {
    forall x, y :: x in a && y in b ==> KeyOrdered(aug, x.slug, x.day, y.slug, y.day)
  }

  lemma OrderedAppend(aug: Table, a: seq<Cell>, b: seq<Cell>)
    requires Ordered(aug, a) && Ordered(aug, b) && Precedes(aug, a, b)
    ensures Ordered(aug, a + b)
  {
    var c := a + b;
    forall i, j | 0 <= i < j < |c|
      ensures KeyOrdered(aug, c[i].slug, c[i].day, c[j].slug, c[j].day)
    {
      if j < |a| {
        IndexLeft(a, b, i);
        IndexLeft(a, b, j);
      } else if i < |a| {
        IndexLeft(a, b, i);
        IndexRight(a, b, j - |a|);
        assert a[i] in a && b[j - |a|] in b;
      } else {
        IndexRight(a, b, i - |a|);
        IndexRight(a, b, j - |a|);
      }
    }
  }

  lemma CellsAtOrdered(aug: Table, s: string, d: Day)
    ensures Ordered(aug, CellsAt(aug, s, d))
  {
    var c := CellsAt(aug, s, d);
    CellsAtMerged(aug, s, d);
    forall i, j | 0 <= i < j < |c|
      ensures KeyOrdered(aug, c[i].slug, c[i].day, c[j].slug, c[j].day)
    {
      assert c[i] in c && c[j] in c;
      assert Matches(aug, s, d) != [];
    }
  }

  lemma {:induction false} ColumnOrdered(aug: Table, s: string, lo: Day, e: Day)
    ensures Ordered(aug, Column(aug, s, lo, e))
    decreases e - lo
  {
    if e >= lo {
      var a := Column(aug, s, lo, e - 1);
      var b := CellsAt(aug, s, e);
      assert Column(aug, s, lo, e) == a + b;
      ColumnOrdered(aug, s, lo, e - 1);
      CellsAtOrdered(aug, s, e);
      ColumnMerged(aug, s, lo, e - 1);
      CellsAtMerged(aug, s, e);
      OrderedAppend(aug, a, b);
    }
  }

  lemma {:induction false} GridOrdered(aug: Table, slugs: seq<string>, lo: Day, hi: Day)
    requires StrictlySorted(slugs)
    ensures Ordered(aug, Grid(aug, slugs, lo, hi))
    decreases |slugs|
  {
    if slugs != [] {
      var n := |slugs| - 1;
      var init := slugs[..n];
      var a := Grid(aug, init, lo, hi);
      var b := Column(aug, slugs[n], lo, hi);
      assert Grid(aug, slugs, lo, hi) == a + b;
      assert StrictlySorted(init);
      GridOrdered(aug, init, lo, hi);
      ColumnOrdered(aug, slugs[n], lo, hi);
      GridMerged(aug, init, lo, hi);
      ColumnMerged(aug, slugs[n], lo, hi);
      forall x, y | x in a && y in b ensures KeyOrdered(aug, x.slug, x.day, y.slug, y.day) {
        var k :| 0 <= k < n && init[k] == x.slug;
        assert slugs[k] == x.slug;
      }
      OrderedAppend(aug, a, b);
    }
  }

  // ----- forward fill -----

  lemma {:induction false} LastKnownAppend(a: seq<Cell>, b: seq<Cell>, s: string)
    ensures LastKnown(a + b, s) == if LastKnown(b, s).Some? then LastKnown(b, s) else LastKnown(a, s)
    decreases |b|
  {
    if b == [] {
      assert a + b == a;
    } else {
      assert (a + b)[..|a + b| - 1] == a + b[..|b| - 1];
      LastKnownAppend(a, b[..|b| - 1], s);
    }
  }

  lemma {:induction false} LastKnownAbsent(a: seq<Cell>, s: string)
    requires forall x :: x in a ==> x.slug != s
    ensures LastKnown(a, s) == None
    decreases |a|
  {
    if a != [] {
      assert forall x :: x in a[..|a| - 1] ==> x in a;
      LastKnownAbsent(a[..|a| - 1], s);
    }
  }

  /** `q` is the first p cells of `c`. */
  ghost predicate PrefixIs(c: seq<Cell>, p: nat, q: seq<Cell>) {
    p <= |c| && c[..p] == q
  }

  /** Before a gap cell of day d the column holds exactly the days lo..d-1. */
  lemma {:induction false} ColumnGapPrefix(aug: Table, s: string, lo: Day, e: Day, p: nat, d: Day)
    requires p < |Column(aug, s, lo, e)|
    requires Column(aug, s, lo, e)[p].page.None? && Column(aug, s, lo, e)[p].day == d
    ensures PrefixIs(Column(aug, s, lo, e), p, Column(aug, s, lo, d - 1))
    decreases e - lo
  {
    var a := Column(aug, s, lo, e - 1);
    var b := CellsAt(aug, s, e);
    assert Column(aug, s, lo, e) == a + b;
    if p < |a| {
      IndexLeft(a, b, p);
      ColumnGapPrefix(aug, s, lo, e - 1, p, d);
      PrefixLeft(a, b, p, Column(aug, s, lo, d - 1));
    } else {
      IndexRight(a, b, p - |a|);
      CellsAtMerged(aug, s, e);
      assert b[p - |a|] in b;
      assert b[p - |a|].page.None?;
      assert Matches(aug, s, e) == [];
      assert p == |a| && d == e;
      PrefixWhole(a, b);
    }
  }

  lemma PrefixLeft(a: seq<Cell>, b: seq<Cell>, p: nat, q: seq<Cell>)
    requires PrefixIs(a, p, q)
    ensures PrefixIs(a + b, p, q)
  {
    assert (a + b)[..p] == a[..p];
  }

  lemma PrefixWhole(a: seq<Cell>, b: seq<Cell>)
    ensures PrefixIs(a + b, |a|, a)
  {
    assert (a + b)[..|a|] == a;
  }

  /** The value the forward fill carries into a gap is the one carried out
      of the earlier days of the same book: the previous books' cells, all
      of other slugs, contribute nothing. */
  lemma {:induction false} GridGapCarry(aug: Table, slugs: seq<string>, lo: Day, hi: Day, i: nat, s: string, d: Day)
    requires StrictlySorted(slugs)
    requires i < |Grid(aug, slugs, lo, hi)|
    requires Grid(aug, slugs, lo, hi)[i] == Cell(s, d, None, None)
    ensures LastKnown(Grid(aug, slugs, lo, hi)[..i], s) == LastKnown(Column(aug, s, lo, d - 1), s)
    decreases |slugs|
  {
    var n := |slugs| - 1;
    var init := slugs[..n];
    var a := Grid(aug, init, lo, hi);
    var b := Column(aug, slugs[n], lo, hi);
    assert Grid(aug, slugs, lo, hi) == a + b;
    if i < |a| {
      IndexLeft(a, b, i);
      assert StrictlySorted(init);
      GridGapCarry(aug, init, lo, hi, i, s, d);
      assert Grid(aug, slugs, lo, hi)[..i] == a[..i];
    } else {
      var p := i - |a|;
      IndexRight(a, b, p);
      ColumnMerged(aug, slugs[n], lo, hi);
      assert b[p] in b;
      assert s == slugs[n];
      GridMerged(aug, init, lo, hi);
      forall x | x in a ensures x.slug != s {
        var k :| 0 <= k < n && init[k] == x.slug;
        assert Less(slugs[k], slugs[n]);
        LessIrreflexive(s);
      }
      LastKnownAbsent(a, s);
      var q := b[..p];
      LastKnownAfterAbsent(a, q, s);
      assert Grid(aug, slugs, lo, hi)[..i] == a + q;
      ColumnGapPrefix(aug, s, lo, hi, p, d);
      assert q == Column(aug, s, lo, d - 1);
    }
  }

  lemma LastKnownAfterAbsent(a: seq<Cell>, q: seq<Cell>, s: string)
    requires LastKnown(a, s) == None
    ensures LastKnown(a + q, s) == LastKnown(q, s)
  {
    LastKnownAppend(a, q, s);
  }

  /** The latest day in lo..e on which book s was logged. */
  ghost predicate LatestLogDay(aug: Table, s: string, lo: Day, e: Day, d: Day) {
    && lo <= d <= e
    && (exists r :: r in aug && r.slug == s && r.logDate == d)
    && forall r :: r in aug && r.slug == s && lo <= r.logDate <= e ==> r.logDate <= d
  }

  /** The page count of the last log row (in table order) of book s on day d. */
  function LastPage(aug: Table, s: string, d: Day): int
    requires Matches(aug, s, d) != []
  {
    var m := Matches(aug, s, d);
    m[|m| - 1].pageCurrent
  }

  /** What the merged days lo..e of book s carry forward: nothing when the
      book has no log in that range, otherwise the page count of its latest
      logged day. */
  lemma {:induction false} ColumnLastKnown(aug: Table, s: string, lo: Day, e: Day)
    ensures LastKnown(Column(aug, s, lo, e), s).None? <==>
      forall r :: r in aug && r.slug == s ==> !(lo <= r.logDate <= e)
    ensures LastKnown(Column(aug, s, lo, e), s).Some? ==>
      exists d :: LatestLogDay(aug, s, lo, e, d) && Matches(aug, s, d) != [] &&
        LastKnown(Column(aug, s, lo, e), s) == Some(LastPage(aug, s, d))
    decreases e - lo
  {
    if e >= lo {
      var a := Column(aug, s, lo, e - 1);
      var b := CellsAt(aug, s, e);
      assert Column(aug, s, lo, e) == a + b;
      ColumnLastKnown(aug, s, lo, e - 1);
      LastKnownAppend(a, b, s);
      var m := Matches(aug, s, e);
      if m != [] {
        assert b[|b| - 1].slug == s && b[|b| - 1].page == Some(m[|m| - 1].pageCurrent);
        assert LastKnown(b, s) == Some(LastPage(aug, s, e));
        assert m[0] in m;
        assert LatestLogDay(aug, s, lo, e, e);
      } else {
        assert b == [Cell(s, e, None, None)];
        assert LastKnown(b, s) == None;
        assert forall r :: r in aug && r.slug == s ==> r.logDate != e;
        if LastKnown(a, s).Some? {
          var d :| LatestLogDay(aug, s, lo, e - 1, d) && Matches(aug, s, d) != [] &&
            LastKnown(a, s) == Some(LastPage(aug, s, d));
          assert LatestLogDay(aug, s, lo, e, d);
        }
      }
    }
  }
}
