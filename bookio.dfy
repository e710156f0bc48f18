/** The in-memory logic of the newer `BookKeeperIO`: the latest version of
    every book, soft deletion, the day's batch and its editing operations. */
module BookIO {
  import opened Tables
  import opened Query
  import Slug
  import ExampleData
  import BookFill

  /** The latest log date of book `s` (`groupby("slug").agg({date: "max"})`). */
  function LatestDay(t: Table, s: string): (m: Option<Day>)
    ensures m.None? <==> forall x :: x in t ==> x.slug != s
    ensures m.Some? ==> forall x :: x in t && x.slug == s ==> x.logDate <= m.value
    ensures m.Some? ==> exists x :: x in t && x.slug == s && x.logDate == m.value
    decreases |t|
  {
    if t == [] then None
    else
      var init := t[..|t| - 1];
      var x := t[|t| - 1];
      assert forall y :: y in t <==> y in init || y == x;
      var m := LatestDay(init, s);
      if x.slug != s then m
      else if m.Some? && m.value >= x.logDate then m
      else Some(x.logDate)
  }

  /** The row is on its book's latest date. */
  predicate IsLatest(t: Table, x: Row) {
    LatestDay(t, x.slug) == Some(x.logDate)
  }

  /** `_get_latest_book_version`: the inner merge with the per-slug maximum
      keeps, in table order, the rows dated on their book's latest date. */
  function LatestBookVersion(t: Table): (r: Table)
    ensures |r| <= |t|
  {
    Where(t, (x: Row) => IsLatest(t, x))
  }

  /** A row is kept exactly when no row of the same book is dated later; so
      rows tying on the latest date are all kept. */
  lemma LatestMembers(t: Table, x: Row)
    ensures x in LatestBookVersion(t) <==>
      x in t && forall y :: y in t && y.slug == x.slug ==> y.logDate <= x.logDate
  {
    var m := LatestDay(t, x.slug);
    if x in t && forall y :: y in t && y.slug == x.slug ==> y.logDate <= x.logDate {
      var y :| y in t && y.slug == x.slug && y.logDate == m.value;
      assert m == Some(x.logDate);
    }
  }

  /** Every book of the input appears in the output, and no other. */
  lemma LatestKeepsEverySlug(t: Table)
    ensures Slugs(LatestBookVersion(t)) == Slugs(t)
  {
    var r := LatestBookVersion(t);
    forall s | s in Slugs(t) ensures s in Slugs(r) {
      var m := LatestDay(t, s);
      var y :| y in t && y.slug == s && y.logDate == m.value;
      assert y in r;
    }
  }

  /** All the rows kept for a book share its latest date. */
  lemma LatestOneDatePerBook(t: Table, x: Row, y: Row)
    requires x in LatestBookVersion(t) && y in LatestBookVersion(t) && x.slug == y.slug
    ensures x.logDate == y.logDate
  {
  }

  /** Taking the latest version twice changes nothing. */
  lemma LatestIdempotent(t: Table)
    ensures LatestBookVersion(LatestBookVersion(t)) == LatestBookVersion(t)
  {
    var r := LatestBookVersion(t);
    forall x | x in r ensures IsLatest(r, x) {
      var m := LatestDay(r, x.slug);
      var y :| y in r && y.slug == x.slug && y.logDate == m.value;
    }
    WhereAll(r, (x: Row) => IsLatest(r, x));
  }

  /** `_get_deleted_books`: the books with a row marked deleted. */
  function DeletedBooks(t: Table): set<string> {
    set x | x in t && x.deleted :: x.slug
  }

  /** `remove_deleted_books`: `query("slug not in @deleted_books")`. */
  function RemoveDeletedBooks(t: Table): (r: Table)
    ensures |r| <= |t|
  {
    Where(t, (x: Row) => x.slug !in DeletedBooks(t))
  }

  /** A row is kept exactly when no row of its book anywhere in the table is
      marked deleted. */
  lemma RemoveDeletedMembers(t: Table, x: Row)
    ensures x in RemoveDeletedBooks(t) <==>
      x in t && forall y :: y in t && y.slug == x.slug ==> !y.deleted
  {
  }

  /** Removal leaves no deleted book behind, so applying it twice is applying it once. */
  lemma RemoveDeletedIdempotent(t: Table)
    ensures DeletedBooks(RemoveDeletedBooks(t)) == {}
    ensures RemoveDeletedBooks(RemoveDeletedBooks(t)) == RemoveDeletedBooks(t)
  {
    var r := RemoveDeletedBooks(t);
    forall x | x in r ensures !x.deleted {
      assert x.deleted ==> x.slug in DeletedBooks(t);
    }
    assert forall s :: s !in DeletedBooks(r);
    WhereAll(r, (x: Row) => x.slug !in DeletedBooks(r));
  }

  /** A slug of the newer rule has no quote, no backslash and no NUL, and a line
      break only where author or title has one; so for author and title
      without line breaks `get_logs_for_book` compares it as written. */
  lemma NewSlugsQueryable(t: Table, author: string, title: string)
    requires forall i :: 0 <= i < |author| ==> !LineBreak(author[i])
    requires forall i :: 0 <= i < |title| ==> !LineBreak(title[i])
    ensures LiteralSafe(Slug.CreateSlug(author, title))
    ensures LogsForBook(t, Slug.CreateSlug(author, title)) == Ok(BookRows(t, Slug.CreateSlug(author, title)))
  {
    var a, b := Slug.Part(author), Slug.Part(title);
    var r := Slug.CreateSlug(author, title);
    Slug.SlugCharsOnly(author, title);
    forall i | 0 <= i < |r| ensures r[i] != '\'' && r[i] != '\\' && r[i] != '\0' && !LineBreak(r[i]) {
      assert Slug.SlugChar(r[i]);
      if i < |a| {
        assert r[i] == a[i];
        Slug.PartCharOrigin(author, i);
        if r[i] in author {
          var j :| 0 <= j < |author| && author[j] == r[i];
        }
      } else if i > |a| {
        assert r[i] == b[i - |a| - 1];
        Slug.PartCharOrigin(title, i - |a| - 1);
        if r[i] in title {
          var j :| 0 <= j < |title| && title[j] == r[i];
        }
      }
    }
  }

  /** The newer rule keeps line breaks, which are whitespace, so an author or
      title holding one gives a slug that breaks the query text of
      `get_logs_for_book`. */
  lemma LineBreakBreaksLogQuery(t: Table, author: string, title: string, c: char)
    requires LineBreak(c) && (c in author || c in title)
    ensures LogsForBook(t, Slug.CreateSlug(author, title)) == Err(MalformedQuery)
  {
    var a, b := Slug.Part(author), Slug.Part(title);
    var r := Slug.CreateSlug(author, title);
    if c in author {
      var j := Slug.PartKeepsSpace(author, c);
      assert r[j] == c;
    } else {
      var j := Slug.PartKeepsSpace(title, c);
      assert r[|a| + 1 + j] == c;
    }
  }

  /** A pasted line separator in the author's name. */
  lemma LineSeparatorLogsFail(t: Table)
    ensures LogsForBook(t, Slug.CreateSlug("a\U{2028}b", "c")) == Err(MalformedQuery)
  {
    assert "a\U{2028}b"[1] == '\U{2028}';
    LineBreakBreaksLogQuery(t, "a\U{2028}b", "c", '\U{2028}');
  }

  /** The row `_append_book_to_df` builds from the book's fields. */
  function Stamped(book: Row, finished: bool, deleted: bool, today: Day): Row {
    book.(logDate := today, deleted := deleted, started := book.pageCurrent > 0,
          finishDate := if finished then book.finishDate else None)
  }

  /** `_append_book_to_df`: the earlier rows, unchanged and in order, then
      the new row dated today, with the given deletion flag, `started`
      recomputed and no finish date unless finished. */
  function AppendBookToDf(book: Row, finished: bool, df: Table, deleted: bool, today: Day): (r: Table)
    ensures |r| == |df| + 1 && r[..|df|] == df
    ensures r[|df|].logDate == today && r[|df|].deleted == deleted
    ensures r[|df|].started == (book.pageCurrent > 0)
    ensures r[|df|].finishDate == if finished then book.finishDate else None
    ensures r[|df|].(logDate := book.logDate, deleted := book.deleted, started := book.started,
                     finishDate := book.finishDate) == book
  {
    df + [Stamped(book, finished, deleted, today)]
  }

  /** `add_book` once the slug is computed: refused when the slug is in the
      day's batch or among the stored books. */
  function AddChecked(book: Row, finished: bool, df: Table, existing: set<string>, today: Day): (r: (bool, Table))
    ensures r.0 <==> book.slug !in Slugs(df) && book.slug !in existing
    ensures !r.0 ==> r.1 == df
  {
    if book.slug in Slugs(df) + existing then (false, df)
    else (true, AppendBookToDf(book, finished, df, false, today))
  }

  /** A successful add appends exactly one row of the new book after the
      unchanged batch, and the book had no row before. */
  lemma AddAppendsOnce(book: Row, finished: bool, df: Table, existing: set<string>, today: Day)
    requires AddChecked(book, finished, df, existing, today).0
    ensures var out := AddChecked(book, finished, df, existing, today).1;
      out == df + [Stamped(book, finished, false, today)] &&
      BookRows(out, book.slug) == [Stamped(book, finished, false, today)]
  {
    var x := Stamped(book, finished, false, today);
    WhereAppend(df, [x], (y: Row) => y.slug == book.slug);
    WhereNone(df, (y: Row) => y.slug == book.slug);
    assert [x][..0] == [];
  }

  /** `update_book`: the existing rows of the book are dropped from the
      batch (when the slug is known at all), then the new row is appended. */
  function UpdateChecked(book: Row, finished: bool, df: Table, existing: set<string>, today: Day): (r: (bool, Table))
    ensures r.0
  {
    var kept := if book.slug in Slugs(df) + existing then Where(df, (x: Row) => x.slug != book.slug) else df;
    (true, AppendBookToDf(book, finished, kept, false, today))
  }

  /** After an update the batch holds exactly one row of the book, the new
      one, at the end; the rows of the other books are those of before, in
      the same order. */
  lemma UpdateReplaces(book: Row, finished: bool, df: Table, existing: set<string>, today: Day)
    ensures var out := UpdateChecked(book, finished, df, existing, today).1;
      BookRows(out, book.slug) == [Stamped(book, finished, false, today)] &&
      out[|out| - 1] == Stamped(book, finished, false, today) &&
      Where(out, (x: Row) => x.slug != book.slug) == Where(df, (x: Row) => x.slug != book.slug)
  {
    var s := book.slug;
    var x := Stamped(book, finished, false, today);
    var kept := Where(df, (y: Row) => y.slug != s);
    UpdateKeeps(book, finished, df, existing, today);
    OnlyNew(kept, x, s);
    OthersUnchanged(kept, x, s);
  }

  /** Whether or not the slug was known, the batch keeps the other books' rows. */
  lemma UpdateKeeps(book: Row, finished: bool, df: Table, existing: set<string>, today: Day)
    ensures UpdateChecked(book, finished, df, existing, today).1 ==
      Where(df, (y: Row) => y.slug != book.slug) + [Stamped(book, finished, false, today)]
  {
    if book.slug !in Slugs(df) + existing {
      WhereAll(df, (y: Row) => y.slug != book.slug);
    }
  }

  lemma OnlyNew(kept: Table, x: Row, s: string)
    requires forall y :: y in kept ==> y.slug != s
    requires x.slug == s
    ensures BookRows(kept + [x], s) == [x]
  {
    assert [x][..0] == [];
    WhereAppend(kept, [x], (y: Row) => y.slug == s);
    WhereNone(kept, (y: Row) => y.slug == s);
  }

  lemma OthersUnchanged(kept: Table, x: Row, s: string)
    requires forall y :: y in kept ==> y.slug != s
    requires x.slug == s
    ensures Where(kept + [x], (y: Row) => y.slug != s) == kept
  {
    assert [x][..0] == [];
    WhereAppend(kept, [x], (y: Row) => y.slug != s);
    WhereAll(kept, (y: Row) => y.slug != s);
  }

  /** `today_df.loc[today_df["slug"] == slug, "deleted"] = flag`. */
  function SetDeleted(t: Table, slug: string, flag: bool): (r: Table)
    ensures |r| == |t|
  {
    seq(|t|, i requires 0 <= i < |t| => if t[i].slug == slug then t[i].(deleted := flag) else t[i])
  }

  /** The masked write, performed on the frame in place. */
  method MarkDeleted(a: array<Row>, slug: string, flag: bool)
    modifies a
    ensures a[..] == SetDeleted(old(a[..]), slug, flag)
  {
    for i := 0 to a.Length
      invariant forall k :: 0 <= k < i ==>
        a[k] == if old(a[k]).slug == slug then old(a[k]).(deleted := flag) else old(a[k])
      invariant forall k :: i <= k < a.Length ==> a[k] == old(a[k])
    {
      if a[i].slug == slug {
        a[i] := a[i].(deleted := flag);
      }
    }
  }

  /** Only the deletion flag of the book's rows changes. */
  lemma SetDeletedOnlyFlag(t: Table, slug: string, flag: bool, i: int)
    requires 0 <= i < |t|
    ensures SetDeleted(t, slug, flag)[i].(deleted := t[i].deleted) == t[i]
    ensures t[i].slug == slug ==> SetDeleted(t, slug, flag)[i].deleted == flag
    ensures t[i].slug != slug ==> SetDeleted(t, slug, flag)[i] == t[i]
  {
  }

  /** Reverting after deleting leaves every row of the book not deleted, and
      restores the batch when none of its rows was deleted before. */
  lemma RevertUndoesDelete(t: Table, slug: string)
    ensures SetDeleted(SetDeleted(t, slug, true), slug, false) == SetDeleted(t, slug, false)
    ensures (forall x :: x in t && x.slug == slug ==> !x.deleted) ==>
      SetDeleted(SetDeleted(t, slug, true), slug, false) == t
  {
    if forall x :: x in t && x.slug == slug ==> !x.deleted {
      forall i | 0 <= i < |t| ensures SetDeleted(t, slug, false)[i] == t[i] {
        assert t[i] in t;
      }
    }
  }

  /** Once a book is marked deleted in the batch, removing the deleted books
      drops all its rows and keeps the others exactly as before. */
  lemma DeleteHidesBook(t: Table, slug: string, x: Row)
    ensures x in RemoveDeletedBooks(SetDeleted(t, slug, true)) <==>
      x in RemoveDeletedBooks(t) && x.slug != slug
  {
    var d := SetDeleted(t, slug, true);
    if x in d {
      var i :| 0 <= i < |d| && d[i] == x;
      if x.slug == slug {
        assert x.deleted;
      } else {
        assert x == t[i];
      }
    }
    if x in t && x.slug != slug {
      var i :| 0 <= i < |t| && t[i] == x;
      assert d[i] == x;
    }
    forall y | y in t && y.slug != slug && y.deleted ensures y.slug in DeletedBooks(d) {
      var i :| 0 <= i < |t| && t[i] == y;
      assert d[i] == y;
    }
    forall y | y in d && y.slug != slug && y.deleted ensures y.slug in DeletedBooks(t) {
      var i :| 0 <= i < |d| && d[i] == y;
      assert t[i] == y;
    }
  }

  /** `delete_book`: a book in the day's batch is marked deleted in place;
      otherwise its first latest row is appended to a new batch, marked
      deleted and without finish date. `[0]` on an empty record list raises. */
  method DeleteBook(slug: string, todayDf: array<Row>, latest: Table, today: Day) returns (res: Result<bool>, out: array<Row>)
    modifies todayDf
    ensures slug in Slugs(old(todayDf[..])) ==>
      res == Ok(true) && out == todayDf && todayDf[..] == SetDeleted(old(todayDf[..]), slug, true)
    ensures slug !in Slugs(old(todayDf[..])) ==> todayDf[..] == old(todayDf[..])
    ensures slug !in Slugs(old(todayDf[..])) && BookRows(latest, slug) == [] ==> res == Err(IndexOutOfBounds)
    ensures slug !in Slugs(old(todayDf[..])) && BookRows(latest, slug) != [] ==>
      res == Ok(true) && fresh(out) &&
      out[..] == AppendBookToDf(BookRows(latest, slug)[0], false, old(todayDf[..]), true, today)
  {
    if slug in Slugs(todayDf[..]) {
      MarkDeleted(todayDf, slug, true);
      return Ok(true), todayDf;
    }
    var records := BookRows(latest, slug);
    if |records| == 0 {
      return Err(IndexOutOfBounds), todayDf;
    }
    var rows := AppendBookToDf(records[0], false, todayDf[..], true, today);
    out := new Row[|rows|](i requires 0 <= i < |rows| => rows[i]);
    res := Ok(true);
  }

  /** `revert_deletion_book`: only a book of the day's batch can be restored;
      the frame returned is the argument. */
  method RevertDeletionBook(slug: string, todayDf: array<Row>) returns (reverted: bool)
    modifies todayDf
    ensures reverted <==> slug in Slugs(old(todayDf[..]))
    ensures reverted ==> todayDf[..] == SetDeleted(old(todayDf[..]), slug, false)
    ensures !reverted ==> todayDf[..] == old(todayDf[..])
  {
    if slug in Slugs(todayDf[..]) {
      MarkDeleted(todayDf, slug, false);
      return true;
    }
    return false;
  }

  /** The stored books, the slugs known to be stored, and the day's editing
      operations that consult them. */
  class BookKeeperIO {
    var existingBookSlugs: set<string>

    constructor()
      ensures existingBookSlugs == {}
    {
      existingBookSlugs := {};
    }

    /** `_get_all_books`: `stored` is the user's table when it exists. The
        known slugs are refreshed only from a stored table; without one the
        fixture table is returned. */
    method GetAllBooks(stored: Option<Table>) returns (books: Table)
      modifies this
      ensures stored.Some? ==> books == stored.value && existingBookSlugs == Slugs(stored.value)
      ensures stored.None? ==> books == ExampleData.Example && existingBookSlugs == old(existingBookSlugs)
    {
      if stored.Some? {
        books := stored.value;
        existingBookSlugs := Slugs(books);
      } else {
        books := ExampleData.Example;
      }
    }

    /** `get_updated_tables`: all books, today's batch and the latest version.
        An empty table leaves the batch and the latest version unbound; the
        fixture table has no `log_created_at` column for the batch query. */
    method GetUpdatedTables(stored: Option<Table>, today: Day) returns (res: Result<(Table, Table, Table)>)
      modifies this
      ensures stored == Some([]) ==> res == Err(UnboundLocal)
      ensures stored.None? ==> res == Err(UnknownColumn)
      ensures stored.Some? && stored.value != [] ==>
        res == Ok((stored.value, BookFill.RowsOn(stored.value, today), LatestBookVersion(stored.value)))
      ensures existingBookSlugs == if stored.Some? then Slugs(stored.value) else old(existingBookSlugs)
    {
      var books := GetAllBooks(stored);
      if books == [] {
        return Err(UnboundLocal);
      }
      if stored.None? {
        return Err(UnknownColumn);
      }
      return Ok((books, BookFill.RowsOn(books, today), LatestBookVersion(books)));
    }

    /** `add_book`: the slug is computed from author and title first. */
    method AddBook(book: Row, finished: bool, df: Table, today: Day) returns (added: bool, out: Table)
      ensures (added, out) == AddChecked(book.(slug := Slug.CreateSlug(book.author, book.title)),
                                         finished, df, existingBookSlugs, today)
    {
      var b := book.(slug := Slug.CreateSlug(book.author, book.title));
      if b.slug in Slugs(df) + existingBookSlugs {
        return false, df;
      }
      return true, AppendBookToDf(b, finished, df, false, today);
    }

    /** `update_book`. */
    method UpdateBook(book: Row, finished: bool, df: Table, today: Day) returns (updated: bool, out: Table)
      ensures (updated, out) == UpdateChecked(book, finished, df, existingBookSlugs, today)
    {
      var kept := df;
      if book.slug in Slugs(df) + existingBookSlugs {
        kept := Where(df, (x: Row) => x.slug != book.slug);
      }
      return true, AppendBookToDf(book, finished, kept, false, today);
    }
  }
}
