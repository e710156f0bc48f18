/** Filter and query layer: property filters, the conjunctive book filter
    and per-book log selection. */
module Query {
  import opened Tables

  /** The rows of one book, by the mask `df["slug"] == slug`. */
  function BookRows(t: Table, slug: string): (r: Table)
    ensures |r| <= |t|
    ensures forall x :: x in r <==> x in t && x.slug == slug
  {
    Where(t, (x: Row) => x.slug == slug)
  }

  /** The characters `str.splitlines()` breaks a line at: `pandas.eval`
      splits the query text there, and a query of several lines raises. */
  predicate LineBreak(c: char) {
    var n := c as int;
    (10 <= n <= 13) || (28 <= n <= 30) || n == 0x85 || n == 0x2028 || n == 0x2029
  }

  /** A slug that reads back as itself between the single quotes of a
      one-line query string: no quote ends the literal early, no backslash
      starts an escape, no line break splits the query and no NUL character
      makes Python's parser refuse the text. */
  predicate LiteralSafe(slug: string) {
    '\'' !in slug && '\\' !in slug && '\0' !in slug && forall i :: 0 <= i < |slug| ==> !LineBreak(slug[i])
  }

  /** `books_df.query(f"slug=='{slug}'")`. The slug is pasted into the query
      text, so only a literal-safe slug is compared as written; any other slug
      makes the query text something else (a syntax error, or a different
      query), which is modelled as an error. */
  function LogsForBook(t: Table, slug: string): (r: Result<Table>)
    ensures r.Err? <==> !LiteralSafe(slug)
    ensures r.Err? ==> r.error == MalformedQuery
    ensures r.Ok? ==> |r.value| <= |t| && forall x :: x in r.value <==> x in t && x.slug == slug
  {
    if LiteralSafe(slug) then Ok(BookRows(t, slug)) else Err(MalformedQuery)
  }

  /** The columns a property filter can name. */
  datatype Column =
    | SlugCol | TitleCol | SubtitleCol | AuthorCol | LocationCol | PublisherCol
    | PublishedYearCol | PageNCol | PageCurrentCol | FinishDateCol
    | Tag1Col | Tag2Col | Tag3Col | LanguageCol | StartedCol | DeletedCol
    | LogDateCol | StateCol

  /** A cell value; a null date or state is `None`. */
  datatype Value =
    | Text(s: string)
    | Number(n: int)
    | Flag(b: bool)
    | Date(d: Option<Day>)
    | Label(st: Option<BookState>)

  function ValueOf(r: Row, c: Column): Value {
    match c
    case SlugCol => Text(r.slug)
    case TitleCol => Text(r.title)
    case SubtitleCol => Text(r.subtitle)
    case AuthorCol => Text(r.author)
    case LocationCol => Text(r.location)
    case PublisherCol => Text(r.publisher)
    case PublishedYearCol => Number(r.publishedYear)
    case PageNCol => Number(r.pageN)
    case PageCurrentCol => Number(r.pageCurrent)
    case FinishDateCol => Date(r.finishDate)
    case Tag1Col => Text(r.tag1)
    case Tag2Col => Text(r.tag2)
    case Tag3Col => Text(r.tag3)
    case LanguageCol => Text(r.language)
    case StartedCol => Flag(r.started)
    case DeletedCol => Flag(r.deleted)
    case LogDateCol => Date(Some(r.logDate))
    case StateCol => Label(r.state)
  }

  /** `==` inside a query: a null cell equals nothing, not even a null value. */
  predicate CellEquals(a: Value, b: Value) {
    match a
    case Date(None) => false
    case Label(None) => false
    case _ => a == b && b != Date(None) && b != Label(None)
  }

  /** `df.query(f"{colname}==@value")`. */
  function FilterBookByProperty(c: Column, v: Value, t: Table): (r: Table)
    ensures |r| <= |t|
    ensures forall x :: x in r <==> x in t && CellEquals(ValueOf(x, c), v)
  {
    Where(t, (x: Row) => CellEquals(ValueOf(x, c), v))
  }

  /** Selecting the logs of a book agrees with the property filter on the
      slug column exactly when the slug is literal-safe; the property filter
      binds the value and so has no such case. */
  lemma LogsForBookIsPropertyFilter(t: Table, slug: string)
    ensures LogsForBook(t, slug) ==
      if LiteralSafe(slug) then Ok(FilterBookByProperty(SlugCol, Text(slug), t)) else Err(MalformedQuery)
  {
    WhereExt(t, (x: Row) => x.slug == slug, (x: Row) => CellEquals(ValueOf(x, SlugCol), Text(slug)));
  }

  /** The search form of `filter_books`; None is a field left empty. */
  datatype Criteria = Criteria(
    author: Option<string>,
    yearMin: Option<int>,
    yearMax: Option<int>,
    publisher: Option<string>)

  /** Python truthiness of an optional string and an optional integer. */
  predicate GivenText(o: Option<string>) { o.Some? && o.value != "" }
  predicate GivenNumber(o: Option<int>) { o.Some? && o.value != 0 }

  /** The single criteria, each holding trivially when it is not supplied. */
  predicate AuthorOk(x: Row, c: Criteria) { GivenText(c.author) ==> x.author == c.author.value }
  predicate PublisherOk(x: Row, c: Criteria) { GivenText(c.publisher) ==> x.publisher == c.publisher.value }
  predicate YearMinOk(x: Row, c: Criteria) { GivenNumber(c.yearMin) ==> x.publishedYear >= c.yearMin.value }
  predicate YearMaxOk(x: Row, c: Criteria) { GivenNumber(c.yearMax) ==> x.publishedYear <= c.yearMax.value }

  /** The reference conjunction: each supplied criterion holds. */
  predicate Satisfies(x: Row, c: Criteria) {
    AuthorOk(x, c) && PublisherOk(x, c) && YearMinOk(x, c) && YearMaxOk(x, c)
  }

  /** `filter_books`: one query per truthy criterion, in source order. */
  function FilterBooks(t: Table, c: Criteria): Table {
    var f0 := t;
    var f1 := if GivenText(c.author) then Where(f0, (x: Row) => x.author == c.author.GetOr("")) else f0;
    var f2 := if GivenText(c.publisher) then Where(f1, (x: Row) => x.publisher == c.publisher.GetOr("")) else f1;
    var f3 := if GivenNumber(c.yearMin) then Where(f2, (x: Row) => x.publishedYear >= c.yearMin.GetOr(0)) else f2;
    if GivenNumber(c.yearMax) then Where(f3, (x: Row) => x.publishedYear <= c.yearMax.GetOr(0)) else f3
  }

  /** The four checks as four unguarded queries. */
  function FourQueries(t: Table, c: Criteria): Table {
    var f1 := Where(t, (x: Row) => AuthorOk(x, c));
    var f2 := Where(f1, (x: Row) => PublisherOk(x, c));
    var f3 := Where(f2, (x: Row) => YearMinOk(x, c));
    Where(f3, (x: Row) => YearMaxOk(x, c))
  }

  /** The successive queries of `filter_books` are a single conjunctive query:
      the result keeps, in table order, exactly the rows meeting every
      supplied criterion, and a falsy criterion constrains nothing. */
  lemma FilterBooksConjunctive(t: Table, c: Criteria)
    ensures FilterBooks(t, c) == Where(t, (x: Row) => Satisfies(x, c))
  {
    GuardedStepsAreQueries(t, c);
    QueriesCompose(t, c);
  }

  /** A row survives `filter_books` exactly when it meets every supplied criterion. */
  lemma FilterBooksMembers(t: Table, c: Criteria, x: Row)
    ensures x in FilterBooks(t, c) <==> x in t && Satisfies(x, c)
  {
    FilterBooksConjunctive(t, c);
  }

  /** With every field empty (None, "" or 0) the table comes back as it was. */
  lemma FilterBooksNoCriteria(t: Table, c: Criteria)
    requires !GivenText(c.author) && !GivenText(c.publisher)
    requires !GivenNumber(c.yearMin) && !GivenNumber(c.yearMax)
    ensures FilterBooks(t, c) == t
  {
    FilterBooksConjunctive(t, c);
    WhereAll(t, (x: Row) => Satisfies(x, c));
  }

  lemma GuardedStepsAreQueries(t: Table, c: Criteria)
    ensures FilterBooks(t, c) == FourQueries(t, c)
  {
    var f1 := Where(t, (x: Row) => AuthorOk(x, c));
    var f2 := Where(f1, (x: Row) => PublisherOk(x, c));
    var f3 := Where(f2, (x: Row) => YearMinOk(x, c));
    StepIsQuery(t, GivenText(c.author), (x: Row) => x.author == c.author.GetOr(""), (x: Row) => AuthorOk(x, c));
    StepIsQuery(f1, GivenText(c.publisher), (x: Row) => x.publisher == c.publisher.GetOr(""), (x: Row) => PublisherOk(x, c));
    StepIsQuery(f2, GivenNumber(c.yearMin), (x: Row) => x.publishedYear >= c.yearMin.GetOr(0), (x: Row) => YearMinOk(x, c));
    StepIsQuery(f3, GivenNumber(c.yearMax), (x: Row) => x.publishedYear <= c.yearMax.GetOr(0), (x: Row) => YearMaxOk(x, c));
  }

  lemma QueriesCompose(t: Table, c: Criteria)
    ensures FourQueries(t, c) == Where(t, (x: Row) => Satisfies(x, c))
  {
    var pa := (x: Row) => AuthorOk(x, c);
    var pap := (x: Row) => AuthorOk(x, c) && PublisherOk(x, c);
    var papn := (x: Row) => AuthorOk(x, c) && PublisherOk(x, c) && YearMinOk(x, c);
    QueryPair(t, pa, (x: Row) => PublisherOk(x, c), pap);
    QueryPair(t, pap, (x: Row) => YearMinOk(x, c), papn);
    QueryPair(t, papn, (x: Row) => YearMaxOk(x, c), (x: Row) => Satisfies(x, c));
  }

  /** Two queries in a row are one query on a predicate equal to their conjunction. */
  lemma QueryPair(t: Table, p: Row -> bool, q: Row -> bool, r: Row -> bool)
    requires forall x :: r(x) == (p(x) && q(x))
    ensures Where(Where(t, p), q) == Where(t, r)
  {
    WhereWhere(t, p, q);
    WhereExt(t, (x: Row) => p(x) && q(x), r);
  }

  /** A guarded query step is a query on the implication "given ==> q". */
  lemma StepIsQuery(t: Table, given: bool, q: Row -> bool, p: Row -> bool)
    requires forall x :: p(x) == (given ==> q(x))
    ensures (if given then Where(t, q) else t) == Where(t, p)
  {
    if given {
      WhereExt(t, q, p);
    } else {
      WhereAll(t, p);
    }
  }

  /** `books_df.query("slug in @slugs")["log_created_at"].min()`: the earliest
      log date of any of the given books, None (NaT) when none of them has a log. */
  function EarliestLogForBooks(slugs: seq<string>, t: Table): (r: Option<Day>)
    ensures r.None? <==> forall x :: x in t ==> x.slug !in slugs
    ensures r.Some? ==> forall x :: x in t && x.slug in slugs ==> r.value <= x.logDate
    ensures r.Some? ==> exists x :: x in t && x.slug in slugs && x.logDate == r.value
  {
    var w := Where(t, (x: Row) => x.slug in slugs);
    if w == [] then None
    else
      assert forall x :: x in t && x.slug in slugs ==> x in w;
      Some(MinDay(w))
  }
}
