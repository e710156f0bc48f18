/** Shared vocabulary of the book-log tables: a log table is a sequence of rows,
    one snapshot of one book on one calendar day. */
module Tables {

  datatype Option<+T> = None | Some(value: T) {
    /** The value, or `default` when the cell is null. */
    function GetOr(default: T): T {
      match this
      case Some(v) => v
      case None => default
    }
  }

  /** The exceptions the book-log code raises instead of returning a frame. */
  datatype Error =
    | EmptyDateRange     // pd.date_range over the NaT bounds of an empty table
    | IndexOutOfBounds   // iloc / [0] past the end of a frame or record list
    | UnboundLocal       // a local variable read before any assignment
    | UnknownColumn      // a query names a column the frame does not have
    | MalformedQuery     // a value pasted into query text does not read back as itself

  datatype Result<+T> = Ok(value: T) | Err(error: Error)

  /** A calendar day, counted in days from 1970-01-01. */
  type Day = int

  datatype BookState = NotStarted | InProgress | Finished

  /** One row of the log table. `logDate` is `log_created_at` in the newer
      revision and `current_date` in the older one; `state` is the column that
      the state classifier adds (None while it is absent or null). */
  datatype Row = Row(
    slug: string,
    title: string,
    subtitle: string,
    author: string,
    location: string,
    publisher: string,
    publishedYear: int,
    pageN: int,
    pageCurrent: int,
    finishDate: Option<Day>,
    tag1: string,
    tag2: string,
    tag3: string,
    language: string,
    started: bool,
    deleted: bool,
    logDate: Day,
    state: Option<BookState>)

  type Table = seq<Row>

  /** The rows of `t` that satisfy `p`, in their original order (a boolean-mask query). */
  function Where(t: Table, p: Row -> bool): (r: Table)
    ensures |r| <= |t|
    ensures forall x :: x in r <==> x in t && p(x)
  {
    if t == [] then []
    else Where(t[..|t| - 1], p) + (if p(t[|t| - 1]) then [t[|t| - 1]] else [])
  }

  /** Filtering distributes over concatenation, so it keeps the relative order of rows. */
  lemma {:induction false} WhereAppend(a: Table, b: Table, p: Row -> bool)
    ensures Where(a + b, p) == Where(a, p) + Where(b, p)
    decreases |b|
  {
    if b == [] {
      assert a + b == a;
    } else {
      var b' := b[..|b| - 1];
      var c := a + b;
      assert c[..|c| - 1] == a + b';
      assert c[|c| - 1] == b[|b| - 1];
      WhereAppend(a, b', p);
      assert Where(c, p) == Where(a + b', p) + (if p(b[|b| - 1]) then [b[|b| - 1]] else []);
    }
  }

  /** Filtering only looks at the rows that are there. */
  lemma {:induction false} WhereExt(t: Table, p: Row -> bool, q: Row -> bool)
    requires forall x :: x in t ==> p(x) == q(x)
    ensures Where(t, p) == Where(t, q)
    decreases |t|
  {
    if t != [] {
      var init := t[..|t| - 1];
      assert forall x :: x in init ==> x in t;
      WhereExt(init, p, q);
      assert t[|t| - 1] in t;
    }
  }

  /** Two successive queries are one query on the conjunction. */
  lemma {:induction false} WhereWhere(t: Table, p: Row -> bool, q: Row -> bool)
    ensures Where(Where(t, p), q) == Where(t, x => p(x) && q(x))
    decreases |t|
  {
    if t != [] {
      var init := t[..|t| - 1];
      var last := t[|t| - 1];
      WhereWhere(init, p, q);
      var lastP := if p(last) then [last] else [];
      WhereAppend(Where(init, p), lastP, q);
      assert Where(lastP, q) == if p(last) && q(last) then [last] else [] by {
        if p(last) {
          assert lastP[..0] == [];
        }
      }
    }
  }

  /** A query that keeps every row returns the table itself. */
  lemma WhereAll(t: Table, p: Row -> bool)
    requires forall x :: x in t ==> p(x)
    ensures Where(t, p) == t
  {
    WhereAllAt(t, p);
  }

  lemma {:induction false} WhereAllAt(t: Table, p: Row -> bool)
    requires forall i :: 0 <= i < |t| ==> p(t[i])
    ensures Where(t, p) == t
    decreases |t|
  {
    if t != [] {
      var init := t[..|t| - 1];
      var last := t[|t| - 1];
      assert forall i :: 0 <= i < |init| ==> p(init[i]) by {
        forall i | 0 <= i < |init| ensures p(init[i]) { assert init[i] == t[i]; }
      }
      WhereAllAt(init, p);
      assert p(last);
      assert Where(t, p) == init + [last];
      assert init + [last] == t;
    }
  }

  /** A query no row satisfies returns nothing. */
  lemma {:induction false} WhereNone(t: Table, p: Row -> bool)
    requires forall x :: x in t ==> !p(x)
    ensures Where(t, p) == []
    decreases |t|
  {
    if t != [] {
      var init := t[..|t| - 1];
      assert forall x :: x in init ==> x in t;
      WhereNone(init, p);
      assert t[|t| - 1] in t;
    }
  }

  /** Reordering the rows does not change how many of them a query keeps. */
  lemma {:induction false} WhereCountPerm(a: Table, b: Table, p: Row -> bool)
    requires multiset(a) == multiset(b)
    ensures |Where(a, p)| == |Where(b, p)|
    decreases |a|
  {
    if a == [] {
      assert |b| == |multiset(b)| == 0;
    } else {
      var init := a[..|a| - 1];
      var x := a[|a| - 1];
      assert a == init + [x];
      assert x in multiset(b);
      var i :| 0 <= i < |b| && b[i] == x;
      var b1, b2 := b[..i], b[i + 1..];
      assert b == b1 + [x] + b2;
      MultisetRemove(init, x, b1, b2);
      WhereCountPerm(init, b1 + b2, p);
      WhereCountSplit(b1, x, b2, p);
      WhereAppend(init, [x], p);
    }
  }

  lemma MultisetRemove<T>(init: seq<T>, x: T, b1: seq<T>, b2: seq<T>)
    requires multiset(init + [x]) == multiset(b1 + [x] + b2)
    ensures multiset(init) == multiset(b1 + b2)
  {
    assert multiset(init + [x]) == multiset(init) + multiset{x};
    assert multiset(b1 + [x] + b2) == multiset(b1) + multiset{x} + multiset(b2);
    assert multiset(b1 + b2) == multiset(b1) + multiset(b2);
    var m1, m2 := multiset(init), multiset(b1 + b2);
    assert m1 + multiset{x} == m2 + multiset{x};
    assert forall y :: m1[y] == (m1 + multiset{x})[y] - (if y == x then 1 else 0);
    assert forall y :: m2[y] == (m2 + multiset{x})[y] - (if y == x then 1 else 0);
  }

  lemma WhereCountSplit(b1: Table, x: Row, b2: Table, p: Row -> bool)
    ensures |Where(b1 + [x] + b2, p)| == |Where(b1 + b2, p)| + |Where([x], p)|
  {
    WhereAppend(b1, b2, p);
    WhereAppend(b1 + [x], b2, p);
    WhereAppend(b1, [x], p);
  }

  /** The distinct slugs of a table (`set(df["slug"].unique())`). */
  function Slugs(t: Table): set<string> {
    set r | r in t :: r.slug
  }

  /** The join key of the log table and of the store. */
  function KeyOf(r: Row): (string, Day) {
    (r.slug, r.logDate)
  }

  /** No two rows share a (slug, date) key. */
  ghost predicate NoDuplicateKeys(t: Table) {
    forall i, j :: 0 <= i < j < |t| ==> KeyOf(t[i]) != KeyOf(t[j])
  }

  /** `df[date].min()` of a non-empty table. */
  function MinDay(t: Table): (m: Day)
    requires t != []
    ensures forall r :: r in t ==> m <= r.logDate
    ensures exists r :: r in t && r.logDate == m
  {
    if |t| == 1 then t[0].logDate
    else
      var m' := MinDay(t[..|t| - 1]);
      assert forall r :: r in t ==> r in t[..|t| - 1] || r == t[|t| - 1];
      if t[|t| - 1].logDate < m' then t[|t| - 1].logDate else m'
  }

  /** `df[date].max()` of a non-empty table. */
  function MaxDay(t: Table): (m: Day)
    requires t != []
    ensures forall r :: r in t ==> r.logDate <= m
    ensures exists r :: r in t && r.logDate == m
  {
    if |t| == 1 then t[0].logDate
    else
      var m' := MaxDay(t[..|t| - 1]);
      assert forall r :: r in t ==> r in t[..|t| - 1] || r == t[|t| - 1];
      if t[|t| - 1].logDate > m' then t[|t| - 1].logDate else m'
  }
}
