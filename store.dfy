/** The user's log table in the database, keyed by (slug, log date), and the
    upsert that `save_books` issues for every row of a frame. */
module Store {
  import opened Tables

  type Key = (string, Day)

  /** The stored rows by primary key. */
  type Db = map<Key, Row>

  /** Every stored row sits under its own key. */
  ghost predicate KeyConsistent(db: Db) {
    forall k :: k in db ==> KeyOf(db[k]) == k
  }

  /** The `ON CONFLICT DO UPDATE` assignment: the listed columns come from
      the new row, `started` is recomputed from its current page, and the
      key columns and any other column keep the stored value. */
  function Overwrite(stored: Row, row: Row): (r: Row)
    ensures KeyOf(r) == KeyOf(stored) && r.state == stored.state
    ensures Listed(r, row) && r.started == (row.pageCurrent > 0)
  {
    stored.(title := row.title, subtitle := row.subtitle, author := row.author,
            location := row.location, publisher := row.publisher,
            publishedYear := row.publishedYear, pageN := row.pageN,
            pageCurrent := row.pageCurrent, finishDate := row.finishDate,
            tag1 := row.tag1, tag2 := row.tag2, tag3 := row.tag3,
            language := row.language, started := row.pageCurrent > 0,
            deleted := row.deleted)
  }

  /** The columns named in the conflict clause agree (all but `started`). */
  predicate Listed(a: Row, b: Row) {
    a.title == b.title && a.subtitle == b.subtitle && a.author == b.author &&
    a.location == b.location && a.publisher == b.publisher &&
    a.publishedYear == b.publishedYear && a.pageN == b.pageN &&
    a.pageCurrent == b.pageCurrent && a.finishDate == b.finishDate &&
    a.tag1 == b.tag1 && a.tag2 == b.tag2 && a.tag3 == b.tag3 &&
    a.language == b.language && a.deleted == b.deleted
  }

  /** One upsert statement: a new key stores the row as given, `started`
      and `state` included; a known key is overwritten, with `started`
      recomputed and the stored `state` kept. Either way the key's row then
      has the listed columns of `row`, no other key changes, and rows stay
      under their own keys. */
  function Upsert(db: Db, row: Row): (r: Db)
    ensures r.Keys == db.Keys + {KeyOf(row)}
    ensures KeyOf(row) in r && Listed(r[KeyOf(row)], row)
    ensures KeyOf(row) !in db ==> r[KeyOf(row)] == row
    ensures KeyOf(row) in db ==>
      r[KeyOf(row)].started == (row.pageCurrent > 0) && r[KeyOf(row)].state == db[KeyOf(row)].state
    ensures KeyConsistent(db) ==> KeyConsistent(r)
    ensures forall k :: k in db && k != KeyOf(row) ==> r[k] == db[k]
  {
    var k := KeyOf(row);
    if k in db then db[k := Overwrite(db[k], row)] else db[k := row]
  }

  /** The statements of one `save_books` call, in frame order, in one transaction. */
  function UpsertAll(db: Db, df: Table): (r: Db)
    decreases |df|
  {
    if df == [] then db else Upsert(UpsertAll(db, df[..|df| - 1]), df[|df| - 1])
  }

  /** The keys after saving are the old keys and the keys of the frame. */
  lemma {:induction false} UpsertAllKeys(db: Db, df: Table)
    ensures UpsertAll(db, df).Keys == db.Keys + set r | r in df :: KeyOf(r)
    decreases |df|
  {
    if df != [] {
      var init := df[..|df| - 1];
      UpsertAllKeys(db, init);
      assert forall r :: r in df <==> r in init || r == df[|df| - 1];
    }
  }

  /** Saving keeps every stored row under its own key. */
  lemma {:induction false} UpsertAllKeyConsistent(db: Db, df: Table)
    requires KeyConsistent(db)
    ensures KeyConsistent(UpsertAll(db, df))
    decreases |df|
  {
    if df != [] {
      UpsertAllKeyConsistent(db, df[..|df| - 1]);
    }
  }

  /** A key no row of the frame carries keeps its stored row. */
  lemma {:induction false} UpsertAllOthers(db: Db, df: Table, k: Key)
    requires k in db
    requires forall r :: r in df ==> KeyOf(r) != k
    ensures k in UpsertAll(db, df) && UpsertAll(db, df)[k] == db[k]
    decreases |df|
  {
    if df != [] {
      var init := df[..|df| - 1];
      assert forall r :: r in init ==> r in df;
      UpsertAllOthers(db, init, k);
      assert df[|df| - 1] in df;
    }
  }

  /** The last row of the frame with a given key decides that key's listed
      columns: later statements for other keys do not touch it. */
  lemma {:induction false} LastWriteWins(db: Db, df: Table, i: int)
    requires 0 <= i < |df|
    requires forall j :: i < j < |df| ==> KeyOf(df[j]) != KeyOf(df[i])
    ensures KeyOf(df[i]) in UpsertAll(db, df)
    ensures Listed(UpsertAll(db, df)[KeyOf(df[i])], df[i])
    decreases |df|
  {
    if i < |df| - 1 {
      var init := df[..|df| - 1];
      assert init[i] == df[i];
      LastWriteWins(db, init, i);
    }
  }

  /** When the frame has one row per key, as a day's batch does, every row's
      listed columns are stored under its key. */
  lemma SaveStoresEveryRow(db: Db, df: Table, i: int)
    requires NoDuplicateKeys(df)
    requires 0 <= i < |df|
    ensures KeyOf(df[i]) in UpsertAll(db, df)
    ensures Listed(UpsertAll(db, df)[KeyOf(df[i])], df[i])
  {
    LastWriteWins(db, df, i);
  }

  /** The user's table. */
  class Database {
    var rows: Db

    /** `_create_user_table`: a new table has no rows. */
    constructor()
      ensures rows == map[]
    {
      rows := map[];
    }

    /** `save_books`: one upsert per row of the frame, then commit. */
    method SaveBooks(df: Table) returns (saved: bool)
      modifies this
      ensures saved && rows == UpsertAll(old(rows), df)
    {
      var i := 0;
      while i < |df|
        invariant 0 <= i <= |df|
        invariant rows == UpsertAll(old(rows), df[..i])
      {
        assert df[..i + 1][..i] == df[..i];
        rows := Upsert(rows, df[i]);
        i := i + 1;
      }
      assert df[..i] == df;
      saved := true;
    }
  }
}
