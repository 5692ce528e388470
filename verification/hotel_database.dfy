/** The `HotelDatabase` class as a state machine: a store, the writes callers
    can issue, and what holds of every database those writes can produce. */
module HotelDatabase {
  import opened Tables
  import opened Store
  import Faults
  import Shifts
  import Services
  import Menus
  import Cocktails

  /** The writes of the class; every other method only reads. */
  datatype Op =
    | InitDb
    | AddFault(date: string, roomNumber: string, reporter: string, description: string, status: string)
    | UpdateFaultStatus(faultId: int, newStatus: string)
    | UpdateShift(date: string, workingStaff: string, onLeave: string, coverColor: string)
    | AddSpecialService(date: string, description: string, status: string)
    | UpdateMenu(date: string, foodMenu: string)

  function Apply(s: Store, op: Op): (r: Store)
    ensures Valid(s) ==> Valid(r)
    ensures !op.InitDb? ==> r.recipes == s.recipes
  {
    match op
    case InitDb => Cocktails.InitDb(s)
    case AddFault(d, room, who, desc, st) => Faults.AddFault(s, d, room, who, desc, st)
    case UpdateFaultStatus(id, st) => Faults.UpdateFaultStatus(s, id, st)
    case UpdateShift(d, staff, leave, color) => Shifts.UpdateShift(s, d, staff, leave, color)
    case AddSpecialService(d, desc, st) => Services.AddSpecialService(s, d, desc, st)
    case UpdateMenu(d, menu) => Menus.UpdateMenu(s, d, menu)
  }

  /** The writes applied one after another. */
  function Run(s: Store, ops: seq<Op>): (r: Store)
    ensures Valid(s) ==> Valid(r)
    ensures |s.recipes.rows| > 0 ==> r.recipes == s.recipes
    ensures (forall k | 0 <= k < |ops| :: !ops[k].InitDb?) ==> r.recipes == s.recipes
    decreases |ops|
  {
    if |ops| == 0 then s else Run(Apply(s, ops[0]), ops[1..])
  }

  /** The constructor: open the file and run `init_db`. */
  function Open(s: Store): (r: Store)
    ensures |r.recipes.rows| > 0
    ensures Valid(s) ==> Valid(r)
  {
    Cocktails.InitDb(s)
  }

  /** Every database reached from a new file through the class's writes keeps one
      shift and one menu per date, its rows in id order, and its counters ahead. */
  lemma ReachableValid(ops: seq<Op>)
    ensures Valid(Run(Open(EmptyStore()), ops))
  {
  }

  /** The reference list is written once: after the database is opened, no
      sequence of writes, further initializations included, changes it, and on a
      new file it is exactly the four seeded rows. */
  lemma SeededExactlyOnce(s: Store, ops: seq<Op>)
    ensures Run(Open(s), ops).recipes == Open(s).recipes
    ensures |s.recipes.rows| == 0 ==> |Run(Open(s), ops).recipes.rows| == |Cocktails.Seed|
  {
  }

  /** A fault reported on a database without faults is the one pending fault;
      once its status is set away from pending the pending list is empty while
      the full list still holds it with the new status. */
  lemma ReportThenResolve(s: Store, date: string, roomNumber: string, reporter: string, description: string,
                          resolved: string)
    requires Valid(s) && |s.faults.rows| == 0 && resolved != PendingFault
    ensures var id := s.faults.nextId;
            var reported := Faults.AddFault(s, date, roomNumber, reporter, description);
            var closed := Faults.UpdateFaultStatus(reported, id, resolved);
            && Faults.PendingFaults(reported) == [Row(id, Fault(date, roomNumber, reporter, description, PendingFault))]
            && Faults.PendingFaults(closed) == []
            && Faults.AllFaults(closed) == [Row(id, Fault(date, roomNumber, reporter, description, resolved))]
  {
    var id := s.faults.nextId;
    var row := Row(id, Fault(date, roomNumber, reporter, description, PendingFault));
    var reported := Faults.AddFault(s, date, roomNumber, reporter, description);
    assert reported.faults.rows == [row];
    var pending := Faults.PendingFaults(reported);
    assert multiset(pending) == multiset{row} by {
      forall x ensures multiset(pending)[x] == multiset{row}[x] {
      }
    }
    SingletonFromMultiset(pending, row);
    var closed := Faults.UpdateFaultStatus(reported, id, resolved);
    var after := Row(id, Fault(date, roomNumber, reporter, description, resolved));
    assert closed.faults.rows == [after] by {
      assert reported.faults.rows[0].id == id;
    }
    var left := Faults.PendingFaults(closed);
    assert multiset(left) == multiset{} by {
      forall x ensures multiset(left)[x] == 0 {
      }
    }
    SingletonFromMultiset(Faults.AllFaults(closed), after);
  }

  lemma SingletonFromMultiset<T>(xs: seq<T>, x: T)
    requires multiset(xs) == multiset{x}
    ensures xs == [x]
  {
    assert |xs| == |multiset(xs)| == 1;
    assert xs[0] in multiset(xs);
  }
}
