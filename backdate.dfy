/** Backdating normalizer: `backdate_books` returns re-dated copies of the
    finished rows that were logged after their finish date. */
module Backdate {
  import opened Tables
  import opened Classifier

  /** `query("state=='finished'")` followed by `query("log_created_at > finish_date")`. */
  predicate FinishedLate(r: Row) {
    r.state == Some(Finished) && r.finishDate.Some? && r.logDate > r.finishDate.value
  }

  /** `df["log_created_at"] = df["finish_date"]` on a frame of finished rows. */
  function Redate(t: Table): (r: Table)
    requires forall x :: x in t ==> x.finishDate.Some?
    ensures |r| == |t| && Slugs(r) == Slugs(t)
    ensures forall i :: 0 <= i < |t| ==> r[i].(logDate := t[i].logDate) == t[i]
    ensures forall x :: x in r ==> x.finishDate.Some? && x.logDate == x.finishDate.value
  {
    var r := seq(|t|, i requires 0 <= i < |t| => t[i].(logDate := t[i].finishDate.value));
    assert Slugs(r) == Slugs(t) by {
      forall x | x in t ensures x.slug in Slugs(r) {
        var i :| 0 <= i < |t| && t[i] == x;
        assert r[i] in r;
      }
      forall x | x in r ensures x.slug in Slugs(t) {
        var i :| 0 <= i < |r| && r[i] == x;
        assert t[i] in t;
      }
    }
    r
  }

  /** The correction set: classify, keep the late finished rows, re-date them. */
  function BackdateBooks(t: Table): (r: Table)
    ensures |r| <= |t|
    ensures forall x :: x in r ==>
      x.finishDate.Some? && x.logDate == x.finishDate.value && x.state == Some(Finished)
  {
    var w := Where(Classified(t), FinishedLate);
    assert forall i :: 0 <= i < |w| ==> FinishedLate(w[i]) by {
      forall i | 0 <= i < |w| ensures FinishedLate(w[i]) { assert w[i] in w; }
    }
    Redate(w)
  }

  /** The copy that `backdate_books` makes of a late finished row. */
  function Corrected(y: Row): Row
    requires y.finishDate.Some?
  {
    y.(logDate := y.finishDate.value, state := Some(Finished))
  }

  /** A row `y` needs backdating when it is finished and logged after its finish date. */
  predicate LoggedAfterFinish(y: Row) {
    y.finishDate.Some? && y.logDate > y.finishDate.value
  }

  /** The output rows are exactly the corrected copies of the input rows
      logged after their finish date: only the date (and the added state
      column) differ from the original row. */
  lemma BackdateExactly(t: Table, x: Row)
    ensures x in BackdateBooks(t) <==> exists y :: y in t && LoggedAfterFinish(y) && x == Corrected(y)
  {
    if x in BackdateBooks(t) {
      BackdateSound(t, x);
    }
    if exists y :: y in t && LoggedAfterFinish(y) && x == Corrected(y) {
      var y :| y in t && LoggedAfterFinish(y) && x == Corrected(y);
      BackdateComplete(t, y);
    }
  }

  lemma BackdateSound(t: Table, x: Row)
    requires x in BackdateBooks(t)
    ensures exists y :: y in t && LoggedAfterFinish(y) && x == Corrected(y)
  {
    var c := Classified(t);
    var w := Where(c, FinishedLate);
    var i :| 0 <= i < |w| && Redate(w)[i] == x;
    assert w[i] in c;
    var k :| 0 <= k < |c| && c[k] == w[i];
    assert t[k] in t && LoggedAfterFinish(t[k]) && x == Corrected(t[k]);
  }

  lemma BackdateComplete(t: Table, y: Row)
    requires y in t && LoggedAfterFinish(y)
    ensures Corrected(y) in BackdateBooks(t)
  {
    var c := Classified(t);
    var w := Where(c, FinishedLate);
    var k :| 0 <= k < |t| && t[k] == y;
    assert c[k] in c && FinishedLate(c[k]);
    assert c[k] in w;
    var i :| 0 <= i < |w| && w[i] == c[k];
    assert Redate(w)[i] == Corrected(y);
  }
}
