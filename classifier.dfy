/** State classifier: `add_books_state` labels every row `not started`,
    `in progress` or `finished`. */
module Classifier {
  import opened Tables

  /** The three masked writes in their source order: everything starts as
      not started, a positive page count overrides that, and a finish date
      overrides both. */
  function StateOf(r: Row): (s: BookState)
    ensures s == Finished <==> r.finishDate.Some?
    ensures s == InProgress <==> r.finishDate.None? && r.pageCurrent > 0
    ensures s == NotStarted <==> r.finishDate.None? && r.pageCurrent <= 0
  {
    var s0 := NotStarted;
    var s1 := if r.pageCurrent > 0 then InProgress else s0;
    if r.finishDate.Some? then Finished else s1
  }

  /** The table with its `state` column (re)computed for every row. */
  function Classified(t: Table): Table {
    seq(|t|, i requires 0 <= i < |t| => t[i].(state := Some(StateOf(t[i]))))
  }

  /** Classification only writes the `state` column: row count, order and
      every other column stay as they were. */
  lemma ClassifiedOnlyWritesState(t: Table, i: int)
    requires 0 <= i < |t|
    ensures |Classified(t)| == |t|
    ensures Classified(t)[i].(state := t[i].state) == t[i]
    ensures Classified(t)[i].state == Some(StateOf(t[i]))
  {
  }

  /** Re-classifying a classified table changes nothing: the column is
      recomputed from `finish_date` and `page_current` alone. */
  lemma ClassifyIdempotent(t: Table)
    ensures Classified(Classified(t)) == Classified(t)
  {
    var c := Classified(t);
    forall i | 0 <= i < |t| ensures Classified(c)[i] == c[i] {
      assert StateOf(c[i]) == StateOf(t[i]);
    }
  }

  /** The three `.loc` assignments of `add_books_state`, performed on the
      frame they are given. */
  method ClassifyInPlace(a: array<Row>)
    modifies a
    ensures a[..] == Classified(old(a[..]))
  {
    ghost var t := a[..];
    MarkNotStarted(a);
    MarkInProgress(a);
    MarkFinished(a);
    assert forall k :: 0 <= k < a.Length ==> a[..][k] == Classified(t)[k];
  }

  /** `df.loc[:, "state"] = NOT_STARTED` */
  method MarkNotStarted(a: array<Row>)
    modifies a
    ensures forall k :: 0 <= k < a.Length ==> a[k] == old(a[k]).(state := Some(NotStarted))
  {
    for i := 0 to a.Length
      invariant forall k :: 0 <= k < i ==> a[k] == old(a[k]).(state := Some(NotStarted))
      invariant forall k :: i <= k < a.Length ==> a[k] == old(a[k])
    {
      a[i] := a[i].(state := Some(NotStarted));
    }
  }

  /** `df.loc[df["page_current"] > 0, "state"] = IN_PROGRESS` */
  method MarkInProgress(a: array<Row>)
    modifies a
    ensures forall k :: 0 <= k < a.Length ==>
      a[k] == if old(a[k]).pageCurrent > 0 then old(a[k]).(state := Some(InProgress)) else old(a[k])
  {
    for i := 0 to a.Length
      invariant forall k :: 0 <= k < i ==>
        a[k] == if old(a[k]).pageCurrent > 0 then old(a[k]).(state := Some(InProgress)) else old(a[k])
      invariant forall k :: i <= k < a.Length ==> a[k] == old(a[k])
    {
      if a[i].pageCurrent > 0 {
        a[i] := a[i].(state := Some(InProgress));
      }
    }
  }

  /** `df.loc[~pd.isnull(df["finish_date"]), "state"] = FINISHED` */
  method MarkFinished(a: array<Row>)
    modifies a
    ensures forall k :: 0 <= k < a.Length ==>
      a[k] == if old(a[k]).finishDate.Some? then old(a[k]).(state := Some(Finished)) else old(a[k])
  {
    for i := 0 to a.Length
      invariant forall k :: 0 <= k < i ==>
        a[k] == if old(a[k]).finishDate.Some? then old(a[k]).(state := Some(Finished)) else old(a[k])
      invariant forall k :: i <= k < a.Length ==> a[k] == old(a[k])
    {
      if a[i].finishDate.Some? {
        a[i] := a[i].(state := Some(Finished));
      }
    }
  }

  /** The newer `add_books_state`: classify a fresh copy and return it; the
      caller's frame is left as it was. */
  method AddBooksState(latest: array<Row>) returns (copy: array<Row>)
    ensures fresh(copy)
    ensures copy[..] == Classified(latest[..])
  {
    copy := new Row[latest.Length](i requires 0 <= i < latest.Length reads latest => latest[i]);
    assert copy[..] == latest[..];
    ClassifyInPlace(copy);
  }
}
