/** The snapshot loads (`load_to_bigquery`, `load_meetings_to_bigquery`): delete
    the rows of the batch's snapshot day, then append the batch.

    A table is a sequence of rows, each carrying its snapshot day; creating a
    missing table yields an empty one. The warehouse can fail at either step,
    and a failure is re-raised with whatever the table then holds. */
module SnapshotLoad {

  datatype Row<P> = Row(date: int, payload: P)

  /** Where, if anywhere, the warehouse fails. */
  datatype Fault = NoFault | FailsBeforeDelete | FailsAfterDelete

  datatype LoadResult<P> = Loaded(table: seq<Row<P>>, outputRows: nat) | Raised(table: seq<Row<P>>)

  /** `DELETE ... WHERE snapshot_date = d`. */
  function Delete<P>(table: seq<Row<P>>, d: int): (r: seq<Row<P>>)
    ensures |r| <= |table|
  {
    if |table| == 0 then []
    else (if table[0].date == d then [] else [table[0]]) + Delete(table[1..], d)
  }

  /** The rows of one snapshot day, in table order. */
  function Select<P>(table: seq<Row<P>>, d: int): seq<Row<P>> {
    if |table| == 0 then []
    else (if table[0].date == d then [table[0]] else []) + Select(table[1..], d)
  }

  /** Every row of the batch is of day `d`. */
  predicate Uniform<P>(batch: seq<Row<P>>, d: int) {
    forall i :: 0 <= i < |batch| ==> batch[i].date == d
  }

  /** The load: nothing for an empty batch; otherwise the day of the first row
      is cleared and the batch appended, and the count of appended rows
      returned. */
  function Load<P>(table: seq<Row<P>>, batch: seq<Row<P>>, fault: Fault): (r: LoadResult<P>)
    ensures |batch| == 0 ==> r == Loaded(table, 0)
    ensures r.Loaded? && |batch| > 0 ==> r.outputRows == |batch| && fault == NoFault
  {
    if |batch| == 0 then Loaded(table, 0)
    else match fault
      case FailsBeforeDelete => Raised(table)
      case FailsAfterDelete => Raised(Delete(table, batch[0].date))
      case NoFault => Loaded(Delete(table, batch[0].date) + batch, |batch|)
  }

  // ----- Algebra of Delete and Select -----

  lemma {:induction false} SelectAppend<P>(a: seq<Row<P>>, b: seq<Row<P>>, d: int)
    ensures Select(a + b, d) == Select(a, d) + Select(b, d)
    decreases |a|
  {
    if |a| == 0 {
      assert a + b == b;
    } else {
      var head := if a[0].date == d then [a[0]] else [];
      assert (a + b)[0] == a[0];
      assert (a + b)[1..] == a[1..] + b;
      SelectAppend(a[1..], b, d);
      assert Select(a + b, d) == head + (Select(a[1..], d) + Select(b, d));
      assert Select(a, d) == head + Select(a[1..], d);
    }
  }

  lemma {:induction false} DeleteAppend<P>(a: seq<Row<P>>, b: seq<Row<P>>, d: int)
    ensures Delete(a + b, d) == Delete(a, d) + Delete(b, d)
    decreases |a|
  {
    if |a| == 0 {
      assert a + b == b;
    } else {
      assert (a + b)[0] == a[0];
      assert (a + b)[1..] == a[1..] + b;
      DeleteAppend(a[1..], b, d);
    }
  }

  /** The delete keeps only rows of other days, and only rows the table had. */
  lemma {:induction false} DeleteKeepsOtherDays<P>(table: seq<Row<P>>, d: int)
    ensures forall row :: row in Delete(table, d) ==> row in table && row.date != d
    decreases |table|
  {
    if |table| > 0 {
      DeleteKeepsOtherDays(table[1..], d);
      var head := if table[0].date == d then [] else [table[0]];
      assert Delete(table, d) == head + Delete(table[1..], d);
      forall row | row in Delete(table, d) ensures row in table && row.date != d {
        if row !in head {
          assert row in Delete(table[1..], d);
          assert row in table[1..];
        }
      }
    }
  }

  lemma {:induction false} SelectDeleted<P>(table: seq<Row<P>>, d: int, e: int)
    ensures Select(Delete(table, d), d) == []
    ensures e != d ==> Select(Delete(table, d), e) == Select(table, e)
    decreases |table|
  {
    if |table| > 0 {
      SelectDeleted(table[1..], d, e);
      var head := if table[0].date == d then [] else [table[0]];
      SelectAppend(head, Delete(table[1..], d), d);
      SelectAppend(head, Delete(table[1..], d), e);
    }
  }

  lemma {:induction false} SelectUniform<P>(batch: seq<Row<P>>, d: int, e: int)
    requires Uniform(batch, d)
    ensures Select(batch, d) == batch
    ensures e != d ==> Select(batch, e) == []
    decreases |batch|
  {
    if |batch| > 0 {
      SelectUniform(batch[1..], d, e);
    }
  }

  lemma {:induction false} DeleteUniform<P>(batch: seq<Row<P>>, d: int)
    requires Uniform(batch, d)
    ensures Delete(batch, d) == []
    decreases |batch|
  {
    if |batch| > 0 {
      DeleteUniform(batch[1..], d);
    }
  }

  lemma {:induction false} DeleteTwice<P>(table: seq<Row<P>>, d: int)
    ensures Delete(Delete(table, d), d) == Delete(table, d)
    decreases |table|
  {
    if |table| > 0 {
      DeleteTwice(table[1..], d);
      var head := if table[0].date == d then [] else [table[0]];
      DeleteAppend(head, Delete(table[1..], d), d);
    }
  }

  // ----- Properties of the load -----

  /** An empty batch loads nothing and leaves the table as it was. */
  lemma EmptyBatchIsNoOp<P>(table: seq<Row<P>>, fault: Fault)
    ensures Load(table, [], fault) == Loaded(table, 0)
  {
  }

  /** After a successful load of a one-day batch, that day holds exactly the
      batch and every other day is as it was. */
  lemma LoadReplacesDay<P>(table: seq<Row<P>>, batch: seq<Row<P>>, d: int, e: int)
    requires |batch| > 0 && Uniform(batch, d)
    ensures var r := Load(table, batch, NoFault);
            r.Loaded? && Select(r.table, d) == batch
            && (e != d ==> Select(r.table, e) == Select(table, e))
  {
    var cleared := Delete(table, d);
    SelectAppend(cleared, batch, d);
    SelectAppend(cleared, batch, e);
    SelectDeleted(table, d, e);
    SelectUniform(batch, d, e);
  }

  /** Loading the same one-day batch twice leaves the table as loading it
      once. */
  lemma LoadIdempotent<P>(table: seq<Row<P>>, batch: seq<Row<P>>, d: int)
    requires |batch| > 0 && Uniform(batch, d)
    ensures Load(Load(table, batch, NoFault).table, batch, NoFault) == Load(table, batch, NoFault)
  {
    var once := Delete(table, d) + batch;
    DeleteAppend(Delete(table, d), batch, d);
    DeleteTwice(table, d);
    DeleteUniform(batch, d);
    assert Delete(once, d) == Delete(table, d);
  }

  /** A failure after the delete leaves the day empty: the old rows are gone
      and the new ones never arrived. A failure before it changes nothing. */
  lemma FailureAfterDeleteEmptiesDay<P>(table: seq<Row<P>>, batch: seq<Row<P>>)
    requires |batch| > 0
    ensures var r := Load(table, batch, FailsAfterDelete);
            r.Raised? && Select(r.table, batch[0].date) == []
    ensures Load(table, batch, FailsBeforeDelete) == Raised(table)
  {
    SelectDeleted(table, batch[0].date, batch[0].date);
  }
}
