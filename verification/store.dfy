/** The hotel database: the five tables `init_db` creates. Every column is TEXT
    except the ids; each record below lists a table's columns after `id`, in
    schema order. */
module Store {
  import opened Tables
  import opened Dated

  /** Status a fault gets when the caller names none ("awaited"). */
  const PendingFault: string := "Bekleniyor"

  /** Status a special service gets when the caller names none ("on hold"). */
  const PendingService: string := "Beklemede"

  datatype Fault = Fault(date: string, roomNumber: string, reporter: string, description: string, status: string)

  /** The columns of a shift besides its date. */
  datatype Roster = Roster(workingStaff: string, onLeave: string, coverColor: string)

  datatype Service = Service(date: string, description: string, status: string)

  datatype Recipe = Recipe(name: string, recipe: string, ingredients: string)

  type Shift = Dated<Roster>

  /** A menu's only column besides its date is the menu text. */
  type Menu = Dated<string>

  datatype Store = Store(
    faults: Table<Fault>,
    shifts: Table<Shift>,
    services: Table<Service>,
    menus: Table<Menu>,
    recipes: Table<Recipe>)

  /** A database file created from scratch, before seeding. */
  function EmptyStore(): (s: Store)
    ensures Valid(s)
    ensures |s.faults.rows| == |s.shifts.rows| == |s.services.rows| == |s.menus.rows| == |s.recipes.rows| == 0
    ensures s.faults.nextId == s.shifts.nextId == s.services.nextId == s.menus.nextId == s.recipes.nextId == 1
  {
    Store(Empty(), Empty(), Empty(), Empty(), Empty())
  }

  /** What every reachable database satisfies: each table in rowid order with
      its counter ahead of every id, and at most one shift and one menu per date. */
  ghost predicate Valid(s: Store) {
    && WellFormed(s.faults)
    && WellFormed(s.shifts)
    && WellFormed(s.services)
    && WellFormed(s.menus)
    && WellFormed(s.recipes)
    && DatesUnique(s.shifts.rows)
    && DatesUnique(s.menus.rows)
  }
}
