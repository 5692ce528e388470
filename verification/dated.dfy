/** Tables keyed by a date string (the shifts and menus tables) and their
    "update if a row exists for the date, otherwise insert" write. The schema
    puts no UNIQUE constraint on `date`; at most one row per date holds only
    because every write goes through `Upsert`. A row's payload is every column
    besides `id` and `date`, which is exactly what the UPDATE branch overwrites. */
module Dated {
  import opened Tables

  datatype Dated<P> = Dated(date: string, payload: P)

  predicate HasDate<P>(rows: seq<Row<Dated<P>>>, date: string) {
    exists i | 0 <= i < |rows| :: rows[i].val.date == date
  }

  /** At most one row per date. */
  ghost predicate DatesUnique<P>(rows: seq<Row<Dated<P>>>) {
    forall i, j | 0 <= i < j < |rows| :: rows[i].val.date != rows[j].val.date
  }

  /** `SELECT * ... WHERE date = ?` followed by `fetchone()`: the first row, in rowid
      order, for the date. */
  function OnDate<P>(rows: seq<Row<Dated<P>>>, date: string): (r: Option<Row<Dated<P>>>)
    ensures r.None? <==> !HasDate(rows, date)
    ensures r.Some? ==> exists i | 0 <= i < |rows| :: rows[i] == r.value && r.value.val.date == date
                                                    && forall j | 0 <= j < i :: rows[j].val.date != date
    ensures r.Some? && DatesUnique(rows) ==> forall x | x in rows && x.val.date == date :: x == r.value
  {
    if |rows| == 0 then None
    else if rows[0].val.date == date then Some(rows[0])
    else
      var r := OnDate(rows[1..], date);
      assert forall i | 0 <= i < |rows[1..]| :: rows[1..][i] == rows[i + 1];
      r
  }

  /** `UPDATE ... WHERE date = ?`: every row of the date gets the new payload. */
  function Overwrite<P>(rows: seq<Row<Dated<P>>>, date: string, p: P): (r: seq<Row<Dated<P>>>)
    ensures |r| == |rows|
    ensures forall i | 0 <= i < |rows| && rows[i].val.date != date :: r[i] == rows[i]
    ensures forall i | 0 <= i < |rows| && rows[i].val.date == date :: r[i] == Row(rows[i].id, Dated(date, p))
  {
    seq(|rows|, i requires 0 <= i < |rows| =>
      if rows[i].val.date == date then Row(rows[i].id, Dated(date, p)) else rows[i])
  }

  /** The lookup-then-branch write of `update_shift` / `update_menu`. */
  function Upsert<P>(t: Table<Dated<P>>, date: string, p: P): (r: Table<Dated<P>>)
    ensures HasDate(t.rows, date) ==> |r.rows| == |t.rows| && r.nextId == t.nextId
    ensures !HasDate(t.rows, date) ==>
              && |r.rows| == |t.rows| + 1
              && r.rows[|t.rows|] == Row(t.nextId, Dated(date, p))
              && r.nextId == t.nextId + 1
    ensures forall i | 0 <= i < |t.rows| && t.rows[i].val.date != date :: r.rows[i] == t.rows[i]
    ensures forall i | 0 <= i < |t.rows| && t.rows[i].val.date == date :: r.rows[i] == Row(t.rows[i].id, Dated(date, p))
    ensures HasDate(r.rows, date)
    ensures DatesUnique(t.rows) ==> DatesUnique(r.rows)
    ensures WellFormed(t) ==> WellFormed(r)
  {
    if HasDate(t.rows, date) then
      Table(Overwrite(t.rows, date, p), t.nextId)
    else
      var r := Insert(t, Dated(date, p));
      assert r.rows[|t.rows|].val.date == date;
      assert forall i | 0 <= i < |t.rows| :: r.rows[i] == r.rows[..|t.rows|][i];
      r
  }

  /** After an upsert the date reads back as the written payload, and only one
      row carries the date when that held before. */
  lemma UpsertThenRead<P>(t: Table<Dated<P>>, date: string, p: P)
    ensures OnDate(Upsert(t, date, p).rows, date).Some?
    ensures OnDate(Upsert(t, date, p).rows, date).value.val == Dated(date, p)
    ensures DatesUnique(t.rows) ==>
              forall x | x in Upsert(t, date, p).rows && x.val.date == date :: x == OnDate(Upsert(t, date, p).rows, date).value
  {
    var r := Upsert(t, date, p);
    // Every row of the date in the result carries the new payload: an old row
    // of the date was overwritten, and the appended row was written with it.
    forall k | 0 <= k < |t.rows|
      ensures r.rows[k].val.date == date ==> r.rows[k].val == Dated(date, p)
    {
      if k < |t.rows| && t.rows[k].val.date != date {
        assert r.rows[k] == t.rows[k];
      }
    }
  }

  /** A second upsert for the same date wins: the pair is the same write as the
      second one alone, in both the update and the insert case. */
  lemma UpsertLastWriteWins<P>(t: Table<Dated<P>>, date: string, p: P, q: P)
    ensures Upsert(Upsert(t, date, p), date, q) == Upsert(t, date, q)
  {
    var once := Upsert(t, date, q);
    var twice := Upsert(Upsert(t, date, p), date, q);
    assert twice.rows == once.rows;
  }

  /** The read returns the row at `i` when it is the first row carrying the date. */
  lemma {:induction false} OnDateAt<P>(rows: seq<Row<Dated<P>>>, date: string, i: int)
    requires 0 <= i < |rows| && rows[i].val.date == date
    requires forall j | 0 <= j < i :: rows[j].val.date != date
    ensures OnDate(rows, date) == Some(rows[i])
  {
    if i > 0 {
      OnDateAt(rows[1..], date, i - 1);
    }
  }

  /** An upsert for one date leaves what is read for every other date unchanged. */
  lemma UpsertOtherDates<P>(t: Table<Dated<P>>, date: string, p: P)
    ensures forall other | other != date :: OnDate(Upsert(t, date, p).rows, other) == OnDate(t.rows, other)
  {
    forall other | other != date
      ensures OnDate(Upsert(t, date, p).rows, other) == OnDate(t.rows, other)
    {
      UpsertOtherDate(t, date, other, p);
    }
  }

  /** An upsert for one date leaves what is read for any other date unchanged. */
  lemma UpsertOtherDate<P>(t: Table<Dated<P>>, date: string, other: string, p: P)
    requires date != other
    ensures OnDate(Upsert(t, date, p).rows, other) == OnDate(t.rows, other)
  {
    var r := Upsert(t, date, p);
    var a := OnDate(t.rows, other);
    forall k | 0 <= k < |r.rows|
      ensures r.rows[k].val.date == other <==> k < |t.rows| && t.rows[k].val.date == other
    {
      if k < |t.rows| && t.rows[k].val.date != date {
        assert r.rows[k] == t.rows[k];
      }
    }
    if a.Some? {
      var i :| 0 <= i < |t.rows| && t.rows[i] == a.value && a.value.val.date == other
               && forall j | 0 <= j < i :: t.rows[j].val.date != other;
      assert r.rows[i] == t.rows[i];
      OnDateAt(r.rows, other, i);
    } else {
      assert !HasDate(r.rows, other);
    }
  }
}
