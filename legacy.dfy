/** The older, monolithic revision where it differs from the newer one: its
    slug rule, the `add_books_state` that writes into its argument, the
    `backdate_books` that therefore classifies its caller's frame, the
    `fill_up_dataframe` that protects its caller with a copy, and the IO
    class whose fixture table carries the date column it queries. The
    filters, `fill_up_book_df`, the latest-version merge, deletion and the
    add/update checks are the same code on `current_date` and are modelled
    once, in the modules it imports. */
module Legacy {
  import opened Tables
  import opened Strings
  import opened Classifier
  import opened Query
  import Slug
  import Backdate
  import Timeline
  import BookIO
  import BookFill
  import ExampleData

  /** `.replace(".", "")`. */
  function RemoveDots(s: string): (r: string)
    ensures |r| <= |s|
    ensures forall c :: c in r <==> c in s && c != '.'
    ensures '.' !in s ==> r == s
    decreases |s|
  {
    if s == [] then []
    else
      var rest := RemoveDots(s[1..]);
      assert '.' !in s ==> '.' !in s[1..];
      assert s == [s[0]] + s[1..];
      (if s[0] == '.' then [] else [s[0]]) + rest
  }

  /** `.replace` works character by character, so it distributes over
      concatenation: order and multiplicity of the other characters are kept. */
  lemma {:induction false} RemoveDotsAppend(a: string, b: string)
    ensures RemoveDots(a + b) == RemoveDots(a) + RemoveDots(b)
    decreases |a|
  {
    if a != [] {
      assert (a + b)[0] == a[0] && (a + b)[1..] == a[1..] + b;
      RemoveDotsAppend(a[1..], b);
    } else {
      assert a + b == b;
    }
  }

  /** One half of the older slug: dots removed, spaces turned into `-`. */
  function LegacyPart(s: string): string {
    Slug.DashSpaces(RemoveDots(s))
  }

  /** `"-".join([...]).lower()`, with `str.lower()` on ASCII letters. */
  function LegacyCreateSlug(author: string, title: string): string {
    LowerAscii(LegacyPart(author) + "-" + LegacyPart(title))
  }

  /** The older slug has no dot, no space and no upper-case ASCII letter; every
      other character of author and title is kept. */
  lemma LegacySlugShape(author: string, title: string, c: char)
    ensures '.' !in LegacyCreateSlug(author, title)
    ensures ' ' !in LegacyCreateSlug(author, title)
    ensures forall i :: 0 <= i < |LegacyCreateSlug(author, title)| ==>
      !IsUpperAscii(LegacyCreateSlug(author, title)[i])
    ensures c in author && c != '.' && c != ' ' && !IsUpperAscii(c) ==> c in LegacyCreateSlug(author, title)
    ensures c in title && c != '.' && c != ' ' && !IsUpperAscii(c) ==> c in LegacyCreateSlug(author, title)
  {
    var a, t := LegacyPart(author), LegacyPart(title);
    var j := a + "-" + t;
    var r := LegacyCreateSlug(author, title);
    forall i | 0 <= i < |r| ensures r[i] != '.' && r[i] != ' ' {
      if i < |a| {
        assert j[i] == a[i];
        assert RemoveDots(author)[i] in RemoveDots(author);
      } else if i > |a| {
        assert j[i] == t[i - |a| - 1];
        assert RemoveDots(title)[i - |a| - 1] in RemoveDots(title);
      }
    }
    if c in author && c != '.' && c != ' ' && !IsUpperAscii(c) {
      var d := RemoveDots(author);
      var k :| 0 <= k < |d| && d[k] == c;
      assert j[k] == a[k] == c;
      assert r[k] == c;
    }
    if c in title && c != '.' && c != ' ' && !IsUpperAscii(c) {
      TitleCharKept(author, title, c);
    }
  }

  lemma TitleCharKept(author: string, title: string, c: char)
    requires c in title && c != '.' && c != ' ' && !IsUpperAscii(c)
    ensures c in LegacyCreateSlug(author, title)
  {
    var a, t := LegacyPart(author), LegacyPart(title);
    var j := a + "-" + t;
    var d := RemoveDots(title);
    var k :| 0 <= k < |d| && d[k] == c;
    assert j[|a| + 1 + k] == t[k] == c;
    assert LegacyCreateSlug(author, title)[|a| + 1 + k] == c;
  }

  /** The older rule keeps apostrophes, so a title such as "Ender's Game"
      gives a slug that breaks the query text of `get_logs_for_book`. */
  lemma ApostropheBreaksLogQuery(t: Table, author: string, title: string)
    requires '\'' in author || '\'' in title
    ensures LogsForBook(t, LegacyCreateSlug(author, title)) == Err(MalformedQuery)
  {
    LegacySlugShape(author, title, '\'');
  }

  /** The older rule keeps NUL as well, and Python's parser refuses query
      text holding one. */
  lemma NulBreaksLogQuery(t: Table, author: string, title: string)
    requires '\0' in author || '\0' in title
    ensures LogsForBook(t, LegacyCreateSlug(author, title)) == Err(MalformedQuery)
  {
    LegacySlugShape(author, title, '\0');
  }

  /** The book from the example above. */
  lemma EndersGameLogsFail(t: Table)
    ensures LogsForBook(t, LegacyCreateSlug("Orson Scott Card", "Ender's Game")) == Err(MalformedQuery)
  {
    assert "Ender's Game"[5] == '\'';
    ApostropheBreaksLogQuery(t, "Orson Scott Card", "Ender's Game");
  }

  /** The characters both slug rules leave as they are, apart from case,
      spaces and dots. */
  predicate Plain(c: char) {
    Slug.IsAsciiAlnum(c) || c == ' ' || c == '-' || c == '.'
  }

  /** On text of letters, digits, spaces, dashes and dots, dropping the
      characters outside `[a-zA-Z0-9\s-]` is dropping the dots. */
  lemma {:induction false} KeepIsRemoveDots(s: string)
    requires forall i :: 0 <= i < |s| ==> Plain(s[i])
    ensures Slug.Keep(s) == RemoveDots(s)
    decreases |s|
  {
    if s != [] {
      assert forall i :: 0 <= i < |s[1..]| ==> s[1..][i] == s[i + 1];
      KeepIsRemoveDots(s[1..]);
      assert Slug.Kept(s[0]) <==> s[0] != '.';
    }
  }

  /** Lower-casing works character by character. */
  lemma LowerJoin(a: string, b: string)
    ensures LowerAscii(a + "-" + b) == LowerAscii(a) + "-" + LowerAscii(b)
  {
    var l := LowerAscii(a + "-" + b);
    var r := LowerAscii(a) + "-" + LowerAscii(b);
    forall i | 0 <= i < |l| ensures l[i] == r[i] {
      if i < |a| {
        assert (a + "-" + b)[i] == a[i];
      } else if i > |a| {
        assert (a + "-" + b)[i] == b[i - |a| - 1];
      }
    }
  }

  /** For authors and titles made of ASCII letters, digits, spaces, dashes
      and dots the two revisions give a book the same slug, so its history
      carries over. */
  lemma SlugRevisionsAgree(author: string, title: string)
    requires forall i :: 0 <= i < |author| ==> Plain(author[i])
    requires forall i :: 0 <= i < |title| ==> Plain(title[i])
    ensures LegacyCreateSlug(author, title) == Slug.CreateSlug(author, title)
  {
    KeepIsRemoveDots(author);
    KeepIsRemoveDots(title);
    LowerJoin(LegacyPart(author), LegacyPart(title));
  }

  /** `add_books_state` of the older revision: the three `.loc` writes go to
      the frame it is given, which it then returns. */
  method AddBooksStateInPlace(latest: array<Row>) returns (r: array<Row>)
    modifies latest
    ensures r == latest
    ensures latest[..] == Classified(old(latest[..]))
  {
    ClassifyInPlace(latest);
    r := latest;
  }

  /** `backdate_books` of the older revision: its argument is classified in
      place on the way to the correction set. */
  method BackdateBooksInPlace(books: array<Row>) returns (r: Table)
    modifies books
    ensures books[..] == Classified(old(books[..]))
    ensures r == Backdate.BackdateBooks(old(books[..]))
  {
    ghost var t := books[..];
    var classified := AddBooksStateInPlace(books);
    var w := Where(classified[..], Backdate.FinishedLate);
    assert forall i :: 0 <= i < |w| ==> Backdate.FinishedLate(w[i]) by {
      forall i | 0 <= i < |w| ensures Backdate.FinishedLate(w[i]) { assert w[i] in w; }
    }
    r := Backdate.Redate(w);
  }

  /** `fill_up_dataframe` of the older revision: the backdating runs on a
      copy, so the caller's frame is left untouched, and the dense timeline
      is built from the unclassified rows plus the corrections. */
  method FillUpDataframe(books: array<Row>) returns (res: Result<seq<Timeline.DenseRow>>)
    ensures res == Timeline.DenseTimeline(books[..])
  {
    var copy := new Row[books.Length](i requires 0 <= i < books.Length reads books => books[i]);
    assert copy[..] == books[..];
    var backdated := BackdateBooksInPlace(copy);
    res := Timeline.FillUpAugmented(books[..] + backdated);
  }

  /** The in-memory side of the older `BookKeeperIO`. */
  class LegacyBookKeeperIO {
    var existingBookSlugs: set<string>

    constructor()
      ensures existingBookSlugs == {}
    {
      existingBookSlugs := {};
    }

    /** `get_all_books`: the stored table when the catalog has one, the
        fixture table otherwise; only a stored table refreshes the slugs. */
    method GetAllBooks(stored: Option<Table>) returns (books: Table)
      modifies this
      ensures books == stored.GetOr(ExampleData.Example)
      ensures existingBookSlugs == if stored.Some? then Slugs(stored.value) else old(existingBookSlugs)
    {
      if stored.Some? {
        books := stored.value;
        existingBookSlugs := Slugs(books);
      } else {
        books := ExampleData.Example;
      }
    }

    /** `get_books`: all books without the deleted ones. */
    method GetBooks(stored: Option<Table>) returns (books: Table)
      modifies this
      ensures books == BookIO.RemoveDeletedBooks(stored.GetOr(ExampleData.Example))
      ensures existingBookSlugs == if stored.Some? then Slugs(stored.value) else old(existingBookSlugs)
    {
      var all := GetAllBooks(stored);
      books := BookIO.RemoveDeletedBooks(all);
    }

    /** `update_tables`: here the fixture table has the `current_date`
        column the batch query names, so without a stored table the three
        frames are built from the fixture; an empty stored table leaves the
        batch and the latest version unbound. */
    method UpdateTables(stored: Option<Table>, today: Day) returns (res: Result<(Table, Table, Table)>)
      modifies this
      ensures stored == Some([]) ==> res == Err(UnboundLocal)
      ensures stored != Some([]) ==>
        var all := stored.GetOr(ExampleData.Example);
        res == Ok((all, BookFill.RowsOn(all, today), BookIO.LatestBookVersion(all)))
      ensures existingBookSlugs == if stored.Some? then Slugs(stored.value) else old(existingBookSlugs)
    {
      var books := GetAllBooks(stored);
      if books == [] {
        return Err(UnboundLocal);
      }
      return Ok((books, BookFill.RowsOn(books, today), BookIO.LatestBookVersion(books)));
    }

    /** `add_book` of the older revision, with its own slug rule. */
    method AddBook(book: Row, finished: bool, df: Table, today: Day) returns (added: bool, out: Table)
      ensures (added, out) == BookIO.AddChecked(book.(slug := LegacyCreateSlug(book.author, book.title)),
                                                finished, df, existingBookSlugs, today)
    {
      var b := book.(slug := LegacyCreateSlug(book.author, book.title));
      if b.slug in Slugs(df) + existingBookSlugs {
        return false, df;
      }
      return true, BookIO.AppendBookToDf(b, finished, df, false, today);
    }
  }
}
