/** Daily food menu: `update_menu` and `get_today_menu`, one row per date. */
module Menus {
  import opened Tables
  import opened Dated
  import opened Store

  /** `get_today_menu`, with the clock's date passed in as `today`. */
  function TodayMenu(s: Store, today: string): (r: Option<Row<Menu>>)
    ensures r.None? <==> forall i | 0 <= i < |s.menus.rows| :: s.menus.rows[i].val.date != today
    ensures r.Some? ==> r.value in s.menus.rows && r.value.val.date == today
    ensures r.Some? && Valid(s) ==> forall x | x in s.menus.rows && x.val.date == today :: x == r.value
  {
    OnDate(s.menus.rows, today)
  }

  /** `update_menu`: overwrite the text of the date's row, or insert one. */
  function UpdateMenu(s: Store, date: string, foodMenu: string): (r: Store)
    ensures r.faults == s.faults && r.shifts == s.shifts && r.services == s.services && r.recipes == s.recipes
    ensures TodayMenu(r, date).Some?
    ensures TodayMenu(r, date).value.val == Dated(date, foodMenu)
    ensures forall other | other != date :: TodayMenu(r, other) == TodayMenu(s, other)
    ensures Valid(s) ==> Valid(r)
  {
    UpsertThenRead(s.menus, date, foodMenu);
    UpsertOtherDates(s.menus, date, foodMenu);
    s.(menus := Upsert(s.menus, date, foodMenu))
  }

  /** Two updates for the same date amount to the second one alone. */
  lemma SecondUpdateWins(s: Store, date: string, menu1: string, menu2: string)
    ensures UpdateMenu(UpdateMenu(s, date, menu1), date, menu2) == UpdateMenu(s, date, menu2)
  {
    UpsertLastWriteWins(s.menus, date, menu1, menu2);
  }
}
