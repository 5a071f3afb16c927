/** The JPA repository behaviour that the registration services (students,
    professors, courses, disciplines, users) share: rows carry an id that is
    `null` until the first save, `save` inserts or overwrites by id, and a
    derived finder such as `findByRa` returns the one row with that key. */
module Registry {
  import opened Base
  import opened Sequences

  /** An entity: its id (`None` before the first save) and its other columns. */
  datatype Entity<D> = Entity(id: Option<Id>, data: D)

  function IdOf<D>(e: Entity<D>): Option<Id>
  {
    e.id
  }

  /** Lifts a key on the columns to a key on the entity. */
  function ColumnKey<D, K>(key: D -> K): Entity<D> -> K
  {
    (e: Entity<D>) => key(e.data)
  }

  /** Every stored row has an id below `nextId`, and no two rows share an id. */
  ghost predicate WellKeyed<D>(rows: seq<Entity<D>>, nextId: Id)
  {
    && (forall i :: 0 <= i < |rows| ==> rows[i].id.Some? && rows[i].id.value < nextId)
    && UniqueBy(IdOf, rows)
  }

  /** `findById(id)`: the position of the row with that id. */
  function FindById<D>(rows: seq<Entity<D>>, id: Id): (r: Option<nat>)
    ensures r.Some? ==> r.value < |rows| && rows[r.value].id == Some(id)
    ensures r.None? ==> forall j :: 0 <= j < |rows| ==> rows[j].id != Some(id)
  {
    FindFirst(HasKey(IdOf, Some(id)), rows)
  }

  /** The ids present in the table (`existsById`). */
  ghost function Ids<D>(rows: seq<Entity<D>>): set<Option<Id>>
  {
    set e | e in rows :: e.id
  }

  /** The table after a `save`, the entity `save` returns, and the next fresh id. */
  datatype Saved<D> = Saved(rows: seq<Entity<D>>, entity: Entity<D>, nextId: Id)

  /** `repository.save(x)`: overwrites the row that has `x`'s id, or inserts `x`
      under a freshly generated id when it has none or an unknown one. */
  function Save<D>(rows: seq<Entity<D>>, x: Entity<D>, nextId: Id): (s: Saved<D>)
    requires WellKeyed(rows, nextId)
    ensures WellKeyed(s.rows, s.nextId)
    ensures s.entity.data == x.data && s.entity in s.rows
    ensures x.id in Ids(rows) ==> s.entity == x && |s.rows| == |rows|
    ensures x.id !in Ids(rows) ==> s.entity.id !in Ids(rows) && s.rows == rows + [s.entity]
    ensures forall j :: 0 <= j < |rows| && rows[j].id != x.id ==> rows[j] in s.rows
  {
    var found := if x.id.Some? then FindById(rows, x.id.value) else None;
    if found.Some? then
      var i := found.value;
      ReplaceKeepsUnique(IdOf, rows, i, x);
      assert rows[i := x][i] == x;
      assert forall j :: 0 <= j < |rows| && rows[j].id != x.id ==> rows[i := x][j] == rows[j];
      Saved(rows[i := x], x, nextId)
    else
      var e := x.(id := Some(nextId));
      AppendKeepsUnique(IdOf, rows, e);
      Saved(rows + [e], e, nextId + 1)
  }

  /** `delete` of the row at position `i`: exactly the rows with its id go, and the table stays well keyed. */
  lemma RemoveById<D>(rows: seq<Entity<D>>, nextId: Id, i: nat)
    requires WellKeyed(rows, nextId) && i < |rows|
    ensures WellKeyed(RemoveAt(rows, i), nextId)
    ensures |RemoveAt(rows, i)| == |rows| - 1
    ensures forall e :: e in RemoveAt(rows, i) <==> e in rows && e.id != rows[i].id
  {
    RemoveAtUnique(IdOf, rows, i);
    forall k | 0 <= k < |RemoveAt(rows, i)|
      ensures RemoveAt(rows, i)[k] in rows
    {
    }
  }

  /** The check every `save` of a registration service runs for one unique
      column: the row the finder returns for `x`'s key exists and is another
      row (its id differs from `x`'s, which is always the case for a new entity). */
  function Conflict<D, K(==)>(rows: seq<Entity<D>>, key: D -> K, x: Entity<D>): bool
  {
    var found := FindFirst(HasKey(ColumnKey(key), key(x.data)), rows);
    found.Some? && rows[found.value].id != x.id
  }

  /** On a table where the column is unique, the check fails exactly when
      another row (different id) already holds `x`'s key; a row that collides
      only with itself passes. */
  lemma ConflictIff<D, K>(rows: seq<Entity<D>>, key: D -> K, x: Entity<D>)
    requires UniqueBy(ColumnKey(key), rows)
    ensures Conflict(rows, key, x) <==>
      exists j :: 0 <= j < |rows| && key(rows[j].data) == key(x.data) && rows[j].id != x.id
  {
    if j :| 0 <= j < |rows| && key(rows[j].data) == key(x.data) && rows[j].id != x.id {
      assert ColumnKey(key)(rows[j]) == key(x.data);
      UniqueFindFirst(ColumnKey(key), rows, j);
    }
  }

  /** A save that passed the check on a unique column keeps that column unique. */
  lemma SaveKeepsUnique<D, K>(rows: seq<Entity<D>>, key: D -> K, x: Entity<D>, nextId: Id)
    requires WellKeyed(rows, nextId) && UniqueBy(ColumnKey(key), rows)
    requires !Conflict(rows, key, x)
    ensures UniqueBy(ColumnKey(key), Save(rows, x, nextId).rows)
  {
    ConflictIff(rows, key, x);
    var found := if x.id.Some? then FindById(rows, x.id.value) else None;
    if found.Some? {
      var i := found.value;
      forall j | 0 <= j < |rows| && j != i
        ensures ColumnKey(key)(rows[j]) != ColumnKey(key)(x)
      {
        assert rows[j].id != rows[i].id;
      }
      ReplaceKeepsUnique(ColumnKey(key), rows, i, x);
    } else {
      var e := x.(id := Some(nextId));
      forall j | 0 <= j < |rows|
        ensures ColumnKey(key)(rows[j]) != ColumnKey(key)(e)
      {
      }
      AppendKeepsUnique(ColumnKey(key), rows, e);
    }
  }
}
