/** One SQLite table declared `id INTEGER PRIMARY KEY AUTOINCREMENT`.
    A rowid table is stored in rowid order, so the rows are a sequence in
    ascending id order; `nextId` is the AUTOINCREMENT counter, the id the next
    INSERT receives (the first one is 1). The store never deletes a row, so the
    counter is always one more than the largest id ever handed out. */
module Tables {

  datatype Option<T> = None | Some(value: T)

  datatype Row<T> = Row(id: int, val: T)

  datatype Table<T> = Table(rows: seq<Row<T>>, nextId: int)

  /** A table as CREATE TABLE leaves it. */
  function Empty<T>(): (t: Table<T>)
    ensures WellFormed(t) && |t.rows| == 0 && t.nextId == 1
  {
    Table([], 1)
  }

  ghost predicate IdsAscending<T>(rows: seq<Row<T>>) {
    forall i, j | 0 <= i < j < |rows| :: rows[i].id < rows[j].id
  }

  /** Rows in rowid order, every id positive and handed out by the counter. */
  ghost predicate WellFormed<T>(t: Table<T>) {
    && 1 <= t.nextId
    && IdsAscending(t.rows)
    && (forall i | 0 <= i < |t.rows| :: 1 <= t.rows[i].id < t.nextId)
  }

  predicate HasId<T>(t: Table<T>, id: int) {
    exists i | 0 <= i < |t.rows| :: t.rows[i].id == id
  }

  /** INSERT: the new row receives the counter as its id. */
  function Insert<T>(t: Table<T>, v: T): (r: Table<T>)
    ensures |r.rows| == |t.rows| + 1 && r.rows[..|t.rows|] == t.rows
    ensures r.rows[|t.rows|].id == t.nextId && r.rows[|t.rows|].val == v
    ensures r.nextId > t.nextId
    ensures WellFormed(t) ==> WellFormed(r) && !HasId(t, r.rows[|t.rows|].id)
    ensures WellFormed(t) ==> forall i | 0 <= i < |t.rows| :: t.rows[i].id < r.rows[|t.rows|].id
  {
    Table(t.rows + [Row(t.nextId, v)], t.nextId + 1)
  }

  /** `SELECT * ... WHERE id = ?` followed by `fetchone()`: the first row, in rowid
      order, carrying the id. */
  function ById<T>(rows: seq<Row<T>>, id: int): (r: Option<Row<T>>)
    ensures r.None? <==> forall i | 0 <= i < |rows| :: rows[i].id != id
    ensures r.Some? ==> r.value in rows && r.value.id == id
    ensures r.Some? && IdsAscending(rows) ==> forall x | x in rows && x.id == id :: x == r.value
  {
    if |rows| == 0 then None
    else if rows[0].id == id then Some(rows[0])
    else ById(rows[1..], id)
  }
}
