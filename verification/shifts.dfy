/** Shift roster: `update_shift` and `get_today_shift`, one row per date. */
module Shifts {
  import opened Tables
  import opened Dated
  import opened Store

  /** `get_today_shift`, with the clock's date passed in as `today`. */
  function TodayShift(s: Store, today: string): (r: Option<Row<Shift>>)
    ensures r.None? <==> forall i | 0 <= i < |s.shifts.rows| :: s.shifts.rows[i].val.date != today
    ensures r.Some? ==> r.value in s.shifts.rows && r.value.val.date == today
    ensures r.Some? && Valid(s) ==> forall x | x in s.shifts.rows && x.val.date == today :: x == r.value
  {
    OnDate(s.shifts.rows, today)
  }

  /** `update_shift`: overwrite the roster of the date's row, or insert one. */
  function UpdateShift(s: Store, date: string, workingStaff: string, onLeave: string, coverColor: string): (r: Store)
    ensures r.faults == s.faults && r.services == s.services && r.menus == s.menus && r.recipes == s.recipes
    ensures TodayShift(r, date).Some?
    ensures TodayShift(r, date).value.val == Dated(date, Roster(workingStaff, onLeave, coverColor))
    ensures forall other | other != date :: TodayShift(r, other) == TodayShift(s, other)
    ensures Valid(s) ==> Valid(r)
  {
    var roster := Roster(workingStaff, onLeave, coverColor);
    UpsertThenRead(s.shifts, date, roster);
    UpsertOtherDates(s.shifts, date, roster);
    s.(shifts := Upsert(s.shifts, date, roster))
  }

  /** Two updates for the same date amount to the second one alone. */
  lemma SecondUpdateWins(s: Store, date: string, staff1: string, leave1: string, color1: string,
                         staff2: string, leave2: string, color2: string)
    ensures UpdateShift(UpdateShift(s, date, staff1, leave1, color1), date, staff2, leave2, color2)
         == UpdateShift(s, date, staff2, leave2, color2)
  {
    UpsertLastWriteWins(s.shifts, date, Roster(staff1, leave1, color1), Roster(staff2, leave2, color2));
  }
}
