/**
 * The `check_survey_options` listener that both schema variants attach to
 * `SurveyOption` after every insert and delete: the survey of the affected
 * row must then have between 2 and 5 option rows, or the flush fails with an
 * `IntegrityError` and nothing is written. The primary application does not
 * install this listener.
 */
module OptionWindow {
  import opened Common

  const MinOptions := 2
  const MaxOptions := 5

  /** The one rule both variants share. */
  predicate InWindow(count: int) {
    MinOptions <= count <= MaxOptions
  }

  datatype OptionRow = OptionRow(id: int, surveyId: int, text: string)

  /** `SELECT COUNT(*) FROM survey_options WHERE survey_id = {survey_id}`. */
  function CountFor(rows: seq<OptionRow>, surveyId: int): (n: nat)
    ensures n <= |rows|
    ensures n == 0 <==> forall r :: r in rows ==> r.surveyId != surveyId
  {
    if rows == [] then 0
    else (if rows[0].surveyId == surveyId then 1 else 0) + CountFor(rows[1..], surveyId)
  }

  lemma {:induction false} CountForAppend(a: seq<OptionRow>, b: seq<OptionRow>, surveyId: int)
    ensures CountFor(a + b, surveyId) == CountFor(a, surveyId) + CountFor(b, surveyId)
  {
    if a == [] {
      assert a + b == b;
    } else {
      assert (a + b)[0] == a[0];
      assert (a + b)[1..] == a[1..] + b;
      CountForAppend(a[1..], b, surveyId);
    }
  }

  datatype Outcome = Committed(rows: seq<OptionRow>) | IntegrityError | NoSuchRow

  /** Insert one option row, then run the listener on it. */
  function InsertOption(rows: seq<OptionRow>, o: OptionRow): (r: Outcome)
    ensures r.Committed? <==> InWindow(CountFor(rows, o.surveyId) + 1)
    ensures r.Committed? ==> r.rows == rows + [o]
    ensures !r.Committed? ==> r == IntegrityError
  {
    var after := rows + [o];
    CountForAppend(rows, [o], o.surveyId);
    if InWindow(CountFor(after, o.surveyId)) then Committed(after) else IntegrityError
  }

  /**
   * Flush several inserted rows at once: the listener runs for each row
   * after all of them are written, so each sees the final count of its survey.
   */
  function InsertBatch(rows: seq<OptionRow>, batch: seq<OptionRow>): (r: Outcome)
    ensures r.Committed? <==> FitsBefore(rows, batch)
    ensures r.Committed? ==> r.rows == rows + batch
    ensures !r.Committed? ==> r == IntegrityError
  {
    var after := rows + batch;
    FitsAfterIff(rows, batch);
    if FitsAfter(after, batch) then Committed(after) else IntegrityError
  }

  /** Every survey of the batch ends within the window once the rows are written. */
  predicate FitsAfter(after: seq<OptionRow>, batch: seq<OptionRow>) {
    forall k :: 0 <= k < |batch| ==> InWindow(CountFor(after, batch[k].surveyId))
  }

  /** Every survey of the batch has, before the flush, a count that the batch's rows bring into the window. */
  predicate FitsBefore(rows: seq<OptionRow>, batch: seq<OptionRow>) {
    forall k :: 0 <= k < |batch| ==> InWindow(CountFor(rows, batch[k].surveyId) + CountFor(batch, batch[k].surveyId))
  }

  lemma FitsAfterIff(rows: seq<OptionRow>, batch: seq<OptionRow>)
    ensures FitsAfter(rows + batch, batch) <==> FitsBefore(rows, batch)
  {
    forall k | 0 <= k < |batch|
      ensures CountFor(rows + batch, batch[k].surveyId) == CountFor(rows, batch[k].surveyId) + CountFor(batch, batch[k].surveyId)
    {
      CountForAppend(rows, batch, batch[k].surveyId);
    }
  }

  /** The table without the row(s) whose id is `id`. */
  function Remove(rows: seq<OptionRow>, id: int): (r: seq<OptionRow>)
    ensures forall x :: x in r <==> x in rows && x.id != id
  {
    if rows == [] then []
    else (if rows[0].id == id then [] else [rows[0]]) + Remove(rows[1..], id)
  }

  function FindRow(rows: seq<OptionRow>, id: int): (r: Option<OptionRow>)
    ensures r.Some? ==> r.value in rows && r.value.id == id
    ensures r.None? ==> forall x :: x in rows ==> x.id != id
  {
    if rows == [] then None
    else if rows[0].id == id then Some(rows[0])
    else FindRow(rows[1..], id)
  }

  /**
   * Delete the option row `id`, then run the listener on it. With unique ids
   * the delete commits exactly when the row's survey keeps 2 to 5 options
   * once that row is gone.
   */
  function DeleteOption(rows: seq<OptionRow>, id: int): (r: Outcome)
    ensures r == NoSuchRow <==> forall x :: x in rows ==> x.id != id
    ensures r.Committed? ==> r.rows == Remove(rows, id)
    ensures UniqueIds(rows) ==> forall t :: t in rows && t.id == id ==>
      (r.Committed? <==> InWindow(CountFor(rows, t.surveyId) - 1))
    ensures UniqueIds(rows) && r.Committed? ==> |r.rows| == |rows| - 1
  {
    match FindRow(rows, id)
    case None => NoSuchRow
    case Some(target) =>
      var after := Remove(rows, id);
      DeleteFacts(rows, target);
      if InWindow(CountFor(after, target.surveyId)) then Committed(after) else IntegrityError
  }

  predicate UniqueIds(rows: seq<OptionRow>) {
    forall i, j :: 0 <= i < j < |rows| ==> rows[i].id != rows[j].id
  }

  /** With unique ids, deleting row `t` lowers the count of `t`'s survey by one and no other. */
  lemma {:induction false} RemoveCount(rows: seq<OptionRow>, t: OptionRow, surveyId: int)
    requires UniqueIds(rows) && t in rows
    ensures CountFor(Remove(rows, t.id), surveyId) == CountFor(rows, surveyId) - (if t.surveyId == surveyId then 1 else 0)
  {
    if rows[0] == t {
      forall x | x in rows[1..] ensures x.id != t.id {
        var j :| 0 <= j < |rows[1..]| && rows[1..][j] == x;
        assert rows[j + 1] == x;
      }
      RemoveAbsent(rows[1..], t.id);
      assert Remove(rows, t.id) == Remove(rows[1..], t.id);
    } else {
      var i :| 0 <= i < |rows| && rows[i] == t;
      assert rows[0].id != t.id;
      assert t in rows[1..];
      assert UniqueIds(rows[1..]) by {
        forall a, b | 0 <= a < b < |rows[1..]| ensures rows[1..][a].id != rows[1..][b].id {
          assert rows[1..][a] == rows[a + 1] && rows[1..][b] == rows[b + 1];
        }
      }
      RemoveCount(rows[1..], t, surveyId);
      assert Remove(rows, t.id) == [rows[0]] + Remove(rows[1..], t.id);
      assert CountFor(Remove(rows, t.id), surveyId)
        == (if rows[0].surveyId == surveyId then 1 else 0) + CountFor(Remove(rows[1..], t.id), surveyId);
    }
  }

  /** With unique ids, deleting row `t` lowers its survey's count and the table's length by one. */
  lemma DeleteFacts(rows: seq<OptionRow>, t: OptionRow)
    requires t in rows
    ensures UniqueIds(rows) ==>
      && CountFor(Remove(rows, t.id), t.surveyId) == CountFor(rows, t.surveyId) - 1
      && |Remove(rows, t.id)| == |rows| - 1
      && forall x :: x in rows && x.id == t.id ==> x == t
  {
    if UniqueIds(rows) {
      RemoveCount(rows, t, t.surveyId);
      RemoveLength(rows, t);
      forall x | x in rows && x.id == t.id ensures x == t {
        FindRowUnique(rows, x);
        FindRowUnique(rows, t);
      }
    }
  }

  /** With unique ids, deleting a present row shortens the table by exactly one row. */
  lemma {:induction false} RemoveLength(rows: seq<OptionRow>, t: OptionRow)
    requires UniqueIds(rows) && t in rows
    ensures |Remove(rows, t.id)| == |rows| - 1
  {
    if rows[0] == t {
      forall x | x in rows[1..] ensures x.id != t.id {
        var j :| 0 <= j < |rows[1..]| && rows[1..][j] == x;
        assert rows[j + 1] == x;
      }
      RemoveAbsent(rows[1..], t.id);
    } else {
      assert t in rows[1..];
      assert UniqueIds(rows[1..]) by {
        forall a, b | 0 <= a < b < |rows[1..]| ensures rows[1..][a].id != rows[1..][b].id {
          assert rows[1..][a] == rows[a + 1] && rows[1..][b] == rows[b + 1];
        }
      }
      RemoveLength(rows[1..], t);
    }
  }

  lemma {:induction false} RemoveAbsent(rows: seq<OptionRow>, id: int)
    requires forall x :: x in rows ==> x.id != id
    ensures Remove(rows, id) == rows
  {
    if rows != [] {
      RemoveAbsent(rows[1..], id);
    }
  }

  /** With unique ids, a delete commits exactly when the survey keeps 2 to 5 options. */
  lemma DeleteCommitsIff(rows: seq<OptionRow>, t: OptionRow)
    requires UniqueIds(rows) && t in rows
    ensures DeleteOption(rows, t.id).Committed? <==> InWindow(CountFor(rows, t.surveyId) - 1)
  {
    var found := FindRow(rows, t.id).value;
    FindRowUnique(rows, t);
    RemoveCount(rows, t, t.surveyId);
  }

  lemma {:induction false} FindRowUnique(rows: seq<OptionRow>, t: OptionRow)
    requires UniqueIds(rows) && t in rows
    ensures FindRow(rows, t.id) == Some(t)
  {
    if rows[0] != t {
      assert t in rows[1..];
      FindRowUnique(rows[1..], t);
    }
  }

  /** Giving a survey its first option row on its own always fails: the count is then 1. */
  lemma FirstOptionAloneRejected(rows: seq<OptionRow>, o: OptionRow)
    requires forall r :: r in rows ==> r.surveyId != o.surveyId
    ensures InsertOption(rows, o) == IntegrityError
  {
  }

  /** A new survey's 2 to 5 options flushed together are accepted. */
  lemma BatchOfNewSurveyAccepted(rows: seq<OptionRow>, batch: seq<OptionRow>, surveyId: int)
    requires forall r :: r in rows ==> r.surveyId != surveyId
    requires forall k :: 0 <= k < |batch| ==> batch[k].surveyId == surveyId
    requires InWindow(|batch|)
    ensures InsertBatch(rows, batch) == Committed(rows + batch)
  {
    CountForAppend(rows, batch, surveyId);
    CountForAll(batch, surveyId);
  }

  lemma {:induction false} CountForAll(rows: seq<OptionRow>, surveyId: int)
    requires forall k :: 0 <= k < |rows| ==> rows[k].surveyId == surveyId
    ensures CountFor(rows, surveyId) == |rows|
  {
    if rows != [] {
      CountForAll(rows[1..], surveyId);
    }
  }

  /**
   * Only rows of the affected survey are counted: rows of other surveys,
   * wherever they sit in the table, never change whether an insert commits.
   */
  lemma OtherSurveysIgnored(before: seq<OptionRow>, after: seq<OptionRow>, others: seq<OptionRow>, o: OptionRow)
    requires forall r :: r in others ==> r.surveyId != o.surveyId
    ensures InsertOption(before + others + after, o).Committed? == InsertOption(before + after, o).Committed?
  {
    CountForAppend(before + others, after, o.surveyId);
    CountForAppend(before, others, o.surveyId);
    CountForAppend(before, after, o.surveyId);
  }

  /** Every survey that has option rows has between 2 and 5 of them. */
  predicate WindowHolds(rows: seq<OptionRow>) {
    forall r :: r in rows ==> InWindow(CountFor(rows, r.surveyId))
  }

  lemma InsertKeepsWindow(rows: seq<OptionRow>, o: OptionRow)
    requires WindowHolds(rows) && InsertOption(rows, o).Committed?
    ensures WindowHolds(InsertOption(rows, o).rows)
  {
    var after := rows + [o];
    forall r | r in after ensures InWindow(CountFor(after, r.surveyId)) {
      CountForAppend(rows, [o], r.surveyId);
      if r.surveyId != o.surveyId {
        assert r in rows;
      }
    }
  }

  lemma InsertBatchKeepsWindow(rows: seq<OptionRow>, batch: seq<OptionRow>)
    requires WindowHolds(rows) && InsertBatch(rows, batch).Committed?
    ensures WindowHolds(InsertBatch(rows, batch).rows)
  {
    var after := rows + batch;
    forall r | r in after ensures InWindow(CountFor(after, r.surveyId)) {
      if r !in rows {
        var k :| 0 <= k < |batch| && batch[k] == r;
      } else if CountFor(batch, r.surveyId) != 0 {
        var b :| b in batch && b.surveyId == r.surveyId;
        var k :| 0 <= k < |batch| && batch[k] == b;
      } else {
        CountForAppend(rows, batch, r.surveyId);
      }
    }
  }

  lemma DeleteKeepsWindow(rows: seq<OptionRow>, id: int)
    requires UniqueIds(rows) && WindowHolds(rows) && DeleteOption(rows, id).Committed?
    ensures WindowHolds(DeleteOption(rows, id).rows)
  {
    var t := FindRow(rows, id).value;
    var after := Remove(rows, id);
    forall r | r in after ensures InWindow(CountFor(after, r.surveyId)) {
      RemoveCount(rows, t, r.surveyId);
    }
  }
}
