/** Fault management: `add_fault`, `update_fault_status`, `get_fault_by_id`,
    `get_pending_faults` and `get_all_faults`. */
module Faults {
  import opened Tables
  import opened Sorting
  import opened Dates
  import opened Store

  /** The `date` column, the key of `ORDER BY date DESC`. */
  function FaultDate(f: Row<Fault>): string {
    f.val.date
  }

  /** `add_fault`: one INSERT; the status defaults to the pending literal. */
  function AddFault(s: Store, date: string, roomNumber: string, reporter: string, description: string,
                    status: string := PendingFault): (r: Store)
    ensures r.shifts == s.shifts && r.services == s.services && r.menus == s.menus && r.recipes == s.recipes
    ensures |r.faults.rows| == |s.faults.rows| + 1 && r.faults.rows[..|s.faults.rows|] == s.faults.rows
    ensures r.faults.rows[|s.faults.rows|].val == Fault(date, roomNumber, reporter, description, status)
    ensures WellFormed(s.faults) ==>
              forall i | 0 <= i < |s.faults.rows| :: s.faults.rows[i].id < r.faults.rows[|s.faults.rows|].id
    ensures WellFormed(s.faults) ==>
              FaultById(r, s.faults.nextId) == Some(Row(s.faults.nextId, Fault(date, roomNumber, reporter, description, status)))
    ensures Valid(s) ==> Valid(r)
  {
    var t := Insert(s.faults, Fault(date, roomNumber, reporter, description, status));
    assert t.rows[|s.faults.rows|] in t.rows;
    s.(faults := t)
  }

  /** `update_fault_status`: `UPDATE faults SET fault_status = ? WHERE id = ?`.
      An id no row carries changes nothing and is not reported. */
  function UpdateFaultStatus(s: Store, faultId: int, newStatus: string): (r: Store)
    ensures r.shifts == s.shifts && r.services == s.services && r.menus == s.menus && r.recipes == s.recipes
    ensures r.faults.nextId == s.faults.nextId && |r.faults.rows| == |s.faults.rows|
    ensures forall i | 0 <= i < |s.faults.rows| && s.faults.rows[i].id != faultId :: r.faults.rows[i] == s.faults.rows[i]
    ensures forall i | 0 <= i < |s.faults.rows| && s.faults.rows[i].id == faultId ::
              r.faults.rows[i] == Row(faultId, s.faults.rows[i].val.(status := newStatus))
    ensures !HasId(s.faults, faultId) ==> r == s
    ensures Valid(s) ==> Valid(r)
  {
    var rows := s.faults.rows;
    var updated := seq(|rows|, i requires 0 <= i < |rows| =>
      if rows[i].id == faultId then Row(faultId, rows[i].val.(status := newStatus)) else rows[i]);
    if !HasId(s.faults, faultId) then
      assert updated == rows;
      s
    else
      s.(faults := Table(updated, s.faults.nextId))
  }

  /** `get_fault_by_id`. */
  function FaultById(s: Store, faultId: int): (r: Option<Row<Fault>>)
    ensures r.None? <==> !HasId(s.faults, faultId)
    ensures r.Some? ==> r.value in s.faults.rows && r.value.id == faultId
  {
    ById(s.faults.rows, faultId)
  }

  /** `WHERE fault_status = "Bekleniyor"`: the pending rows, in rowid order. */
  function PendingRows(rows: seq<Row<Fault>>): (r: seq<Row<Fault>>)
    ensures forall x :: multiset(r)[x] == if x.val.status == PendingFault then multiset(rows)[x] else 0
  {
    if |rows| == 0 then
      []
    else
      assert rows == [rows[0]] + rows[1..];
      (if rows[0].val.status == PendingFault then [rows[0]] else []) + PendingRows(rows[1..])
  }

  /** `get_pending_faults`: the pending faults, latest date first. */
  function PendingFaults(s: Store): (r: seq<Row<Fault>>)
    ensures SortedBy(r, FaultDate, true)
    ensures forall x :: multiset(r)[x] == if x.val.status == PendingFault then multiset(s.faults.rows)[x] else 0
    ensures forall x :: x in r <==> x in s.faults.rows && x.val.status == PendingFault
  {
    var r := SortBy(PendingRows(s.faults.rows), FaultDate, true);
    assert forall x :: x in r <==> x in multiset(r);
    r
  }

  /** `get_all_faults`: every fault, latest date first. */
  function AllFaults(s: Store): (r: seq<Row<Fault>>)
    ensures SortedBy(r, FaultDate, true)
    ensures multiset(r) == multiset(s.faults.rows)
  {
    SortBy(s.faults.rows, FaultDate, true)
  }

  /** After a status update every row with the id carries the new status, and
      the rows with other ids are exactly those before. */
  lemma UpdatedRows(s: Store, faultId: int, newStatus: string)
    ensures forall x | x in UpdateFaultStatus(s, faultId, newStatus).faults.rows && x.id == faultId ::
              x.val.status == newStatus
    ensures forall x: Row<Fault> | x.id != faultId ::
              x in UpdateFaultStatus(s, faultId, newStatus).faults.rows <==> x in s.faults.rows
  {
    var r := UpdateFaultStatus(s, faultId, newStatus);
    forall x | x in r.faults.rows && x.id == faultId
      ensures x.val.status == newStatus
    {
      var i :| 0 <= i < |r.faults.rows| && r.faults.rows[i] == x;
    }
    forall x: Row<Fault> | x.id != faultId
      ensures x in r.faults.rows <==> x in s.faults.rows
    {
      if x in s.faults.rows {
        var i :| 0 <= i < |s.faults.rows| && s.faults.rows[i] == x;
        assert r.faults.rows[i] == x;
      }
      if x in r.faults.rows {
        var i :| 0 <= i < |r.faults.rows| && r.faults.rows[i] == x;
        assert s.faults.rows[i] == x;
      }
    }
  }

  /** A fault whose status is set away from pending drops out of the pending list,
      and every other fault keeps its place in it. */
  lemma StatusUpdateLeavesPending(s: Store, faultId: int, newStatus: string)
    requires newStatus != PendingFault
    ensures forall x | x in PendingFaults(UpdateFaultStatus(s, faultId, newStatus)) :: x.id != faultId
    ensures forall x: Row<Fault> | x.id != faultId ::
              x in PendingFaults(UpdateFaultStatus(s, faultId, newStatus)) <==> x in PendingFaults(s)
  {
    UpdatedRows(s, faultId, newStatus);
  }

  /** The updated fault stays in the full list, now with its new status. */
  lemma StatusUpdateKeepsFault(s: Store, faultId: int, newStatus: string)
    ensures forall x | x in s.faults.rows && x.id == faultId ::
              x.(val := x.val.(status := newStatus)) in AllFaults(UpdateFaultStatus(s, faultId, newStatus))
  {
    var r := UpdateFaultStatus(s, faultId, newStatus);
    forall x | x in s.faults.rows && x.id == faultId
      ensures x.(val := x.val.(status := newStatus)) in AllFaults(r)
    {
      var i :| 0 <= i < |s.faults.rows| && s.faults.rows[i] == x;
      assert r.faults.rows[i] == x.(val := x.val.(status := newStatus));
      assert r.faults.rows[i] in multiset(AllFaults(r));
    }
  }

  /** With every date written as `YYYY-MM-DD`, as the application writes them,
      a list sorted by `date DESC` runs from the latest day to the earliest. */
  lemma SortedLatestFirst(r: seq<Row<Fault>>)
    requires SortedBy(r, FaultDate, true)
    requires forall k | 0 <= k < |r| :: IsoDate(r[k].val.date)
    ensures forall i, j | 0 <= i < j < |r| :: DayNumber(r[i].val.date) >= DayNumber(r[j].val.date)
  {
    forall i, j | 0 <= i < j < |r|
      ensures DayNumber(r[i].val.date) >= DayNumber(r[j].val.date)
    {
      IsoDateOrder(r[j].val.date, r[i].val.date);
    }
  }

  /** Both fault lists show the latest day first. */
  lemma FaultListsLatestFirst(s: Store)
    requires forall x | x in s.faults.rows :: IsoDate(x.val.date)
    ensures forall k | 0 <= k < |AllFaults(s)| :: IsoDate(AllFaults(s)[k].val.date)
    ensures forall k | 0 <= k < |PendingFaults(s)| :: IsoDate(PendingFaults(s)[k].val.date)
    ensures forall i, j | 0 <= i < j < |AllFaults(s)| ::
              DayNumber(AllFaults(s)[i].val.date) >= DayNumber(AllFaults(s)[j].val.date)
    ensures forall i, j | 0 <= i < j < |PendingFaults(s)| ::
              DayNumber(PendingFaults(s)[i].val.date) >= DayNumber(PendingFaults(s)[j].val.date)
  {
    var all, pending := AllFaults(s), PendingFaults(s);
    forall k | 0 <= k < |all|
      ensures IsoDate(all[k].val.date)
    {
      assert all[k] in multiset(all);
    }
    forall k | 0 <= k < |pending|
      ensures IsoDate(pending[k].val.date)
    {
      assert pending[k] in pending;
    }
    SortedLatestFirst(all);
    SortedLatestFirst(pending);
  }
}
