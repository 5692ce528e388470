/** Special guest service requests: `add_special_service` and
    `get_today_special_services`. */
module Services {
  import opened Tables
  import opened Store

  /** `add_special_service`: one INSERT; the status defaults to the on-hold literal. */
  function AddSpecialService(s: Store, date: string, description: string,
                             status: string := PendingService): (r: Store)
    ensures r.faults == s.faults && r.shifts == s.shifts && r.menus == s.menus && r.recipes == s.recipes
    ensures |r.services.rows| == |s.services.rows| + 1 && r.services.rows[..|s.services.rows|] == s.services.rows
    ensures r.services.rows[|s.services.rows|] == Row(s.services.nextId, Service(date, description, status))
    ensures WellFormed(s.services) ==>
              forall x | x in s.services.rows :: x.id < r.services.rows[|s.services.rows|].id
    ensures Valid(s) ==> Valid(r)
  {
    s.(services := Insert(s.services, Service(date, description, status)))
  }

  /** `WHERE date = ? ORDER BY id DESC` over rows kept in rowid order: the rows
      of the day, read from the newest back. */
  function NewestFirst(rows: seq<Row<Service>>, today: string): (r: seq<Row<Service>>)
    ensures forall x :: x in r <==> x in rows && x.val.date == today
    ensures IdsAscending(rows) ==> forall i, j | 0 <= i < j < |r| :: r[i].id > r[j].id
  {
    if |rows| == 0 then
      []
    else
      var last := rows[|rows| - 1];
      var older := rows[..|rows| - 1];
      assert rows == older + [last];
      var r := (if last.val.date == today then [last] else []) + NewestFirst(older, today);
      assert IdsAscending(rows) ==> forall x | x in older :: x.id < last.id;
      r
  }

  /** `get_today_special_services`, with the clock's date passed in as `today`:
      exactly the requests of the day, most recently added first. */
  function TodaySpecialServices(s: Store, today: string): (r: seq<Row<Service>>)
    ensures forall x :: x in r <==> x in s.services.rows && x.val.date == today
    ensures Valid(s) ==> forall i, j | 0 <= i < j < |r| :: r[i].id > r[j].id
  {
    NewestFirst(s.services.rows, today)
  }

  /** A request added for today heads today's list, in front of the earlier ones. */
  lemma AddedServiceListedFirst(s: Store, today: string, description: string, status: string)
    requires WellFormed(s.services)
    ensures TodaySpecialServices(AddSpecialService(s, today, description, status), today)
         == [Row(s.services.nextId, Service(today, description, status))] + TodaySpecialServices(s, today)
  {
    var rows := AddSpecialService(s, today, description, status).services.rows;
    assert rows[..|rows| - 1] == s.services.rows;
  }

  /** A request added for another day leaves today's list as it was. */
  lemma OtherDayServiceNotListed(s: Store, date: string, today: string, description: string, status: string)
    requires WellFormed(s.services) && date != today
    ensures TodaySpecialServices(AddSpecialService(s, date, description, status), today) == TodaySpecialServices(s, today)
  {
    var rows := AddSpecialService(s, date, description, status).services.rows;
    assert rows[..|rows| - 1] == s.services.rows;
  }
}
