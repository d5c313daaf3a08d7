/**
 * `AbstractCrudRepository`: the generic store every repository builds on.
 *
 * A table is its rows in insertion order. Every row carries the identifier
 * the store assigned to it (an IDENTITY column: 1, 2, 3, ... never reused),
 * so the ids in a valid table are distinct and strictly increasing. The
 * contracts below describe the table as the map `FindById` reads off it.
 */
module CrudRepository {
  import opened Wrappers
  import Lists

  /** A `Long` identifier; the store hands out values from 1 upward. */
  type Id = int

  datatype Row<T> = Row(id: Id, entity: T)

  datatype Table<T> = Table(rows: seq<Row<T>>, nextId: Id)

  predicate IdsIncreasing<T>(rows: seq<Row<T>>)
  {
    forall i, j :: 0 <= i < j < |rows| ==> rows[i].id < rows[j].id
  }

  predicate Valid<T>(t: Table<T>)
  {
    && 1 <= t.nextId
    && (forall i :: 0 <= i < |t.rows| ==> 1 <= t.rows[i].id < t.nextId)
    && IdsIncreasing(t.rows)
  }

  function EmptyTable<T>(): (t: Table<T>)
    ensures Valid(t)
    ensures forall k :: FindById(t, k).None?
  {
    Table([], 1)
  }

  /** The first row with identifier `id`. */
  function Lookup<T>(rows: seq<Row<T>>, id: Id): (r: Option<T>)
    ensures r.None? <==> forall i :: 0 <= i < |rows| ==> rows[i].id != id
    ensures r.Some? ==> Row(id, r.value) in rows
  {
    if |rows| == 0 then None
    else if rows[0].id == id then Some(rows[0].entity)
    else
      assert forall i :: 1 <= i < |rows| ==> rows[i] == rows[1..][i - 1];
      Lookup(rows[1..], id)
  }

  /** `findById`: the entity stored under `id`, or empty (never an error) when there is none. */
  function FindById<T>(t: Table<T>, id: Id): Option<T>
  {
    Lookup(t.rows, id)
  }

  /** `findAll`: every stored entity with its identifier, in insertion order. */
  function FindAll<T>(t: Table<T>): seq<Row<T>>
  {
    t.rows
  }

  /** `findAll` and `findById` describe the same contents. */
  lemma FindAllAgreesWithFindById<T>(t: Table<T>, id: Id, e: T)
    requires Valid(t)
    ensures Row(id, e) in FindAll(t) <==> FindById(t, id) == Some(e)
  {
    if Row(id, e) in t.rows {
      var i :| 0 <= i < |t.rows| && t.rows[i] == Row(id, e);
      var found := Lookup(t.rows, id);
      assert found.Some?;
      var j :| 0 <= j < |t.rows| && t.rows[j] == Row(id, found.value);
      assert i == j;
    }
  }

  /** The same rows with the entity under `id` replaced by `e`. */
  function Replace<T>(rows: seq<Row<T>>, id: Id, e: T): (r: seq<Row<T>>)
    ensures |r| == |rows|
    ensures forall i :: 0 <= i < |r| ==> r[i] == if rows[i].id == id then Row(id, e) else rows[i]
  {
    if |rows| == 0 then []
    else
      var head := if rows[0].id == id then Row(id, e) else rows[0];
      [head] + Replace(rows[1..], id, e)
  }

  /** The rows other than the one under `id`, in their order. */
  function Remove<T>(rows: seq<Row<T>>, id: Id): (r: seq<Row<T>>)
    ensures |r| <= |rows|
    ensures forall i :: 0 <= i < |r| ==> r[i] in rows && r[i].id != id
    ensures IdsIncreasing(rows) ==> IdsIncreasing(r)
  {
    if |rows| == 0 then []
    else
      var rest := Remove(rows[1..], id);
      assert forall i :: 0 <= i < |rest| ==> rest[i] in rows;
      if rows[0].id == id then rest
      else
        assert IdsIncreasing(rows) ==> forall i :: 0 <= i < |rest| ==> rows[0].id < rest[i].id;
        [rows[0]] + rest
  }

  lemma {:induction false} LookupAppend<T>(rows: seq<Row<T>>, row: Row<T>, k: Id)
    ensures Lookup(rows + [row], k) ==
      if Lookup(rows, k).Some? then Lookup(rows, k)
      else if row.id == k then Some(row.entity)
      else None
  {
    if |rows| > 0 {
      assert (rows + [row])[1..] == rows[1..] + [row];
      LookupAppend(rows[1..], row, k);
    }
  }

  lemma {:induction false} LookupReplace<T>(rows: seq<Row<T>>, id: Id, e: T, k: Id)
    ensures Lookup(Replace(rows, id, e), k) ==
      if k == id && Lookup(rows, k).Some? then Some(e) else Lookup(rows, k)
  {
    if |rows| > 0 {
      LookupReplace(rows[1..], id, e, k);
    }
  }

  lemma {:induction false} LookupRemove<T>(rows: seq<Row<T>>, id: Id, k: Id)
    ensures Lookup(Remove(rows, id), k) == if k == id then None else Lookup(rows, k)
  {
    if |rows| > 0 {
      LookupRemove(rows[1..], id, k);
    }
  }

  /** `persist`: store `e` under the next identity value. */
  function Insert<T>(t: Table<T>, e: T): (r: (Table<T>, Id))
    requires Valid(t)
    ensures Valid(r.0)
    ensures r.1 == t.nextId && r.0.nextId == t.nextId + 1
    ensures FindById(t, r.1).None?
    ensures FindById(r.0, r.1) == Some(e)
    ensures forall k :: k != r.1 ==> FindById(r.0, k) == FindById(t, k)
  {
    var rows := t.rows + [Row(t.nextId, e)];
    forall k {
      LookupAppend(t.rows, Row(t.nextId, e), k);
    }
    (Table(rows, t.nextId + 1), t.nextId)
  }

  /**
   * `save`: an entity without an identifier is inserted under a fresh one; an
   * entity with an identifier is merged, overwriting the stored entry. A merged
   * entity whose row no longer exists is inserted again under a fresh identifier
   * (the merge returns a different identity). Returns the table and the
   * identifier the saved entity now has.
   */
  function Save<T>(t: Table<T>, id: Option<Id>, e: T): (r: (Table<T>, Id))
    requires Valid(t)
    ensures Valid(r.0)
    // round trip: the saved entity is what findById now returns for its identifier
    ensures FindById(r.0, r.1) == Some(e)
    // every other identifier maps to what it mapped to before
    ensures forall k :: k != r.1 ==> FindById(r.0, k) == FindById(t, k)
    // merge keeps the identifier of a stored entity
    ensures id.Some? && FindById(t, id.value).Some? ==> r.1 == id.value
    // persist (or a merge whose row is gone) uses an identifier nothing had
    ensures id.None? || FindById(t, id.value).None? ==> FindById(t, r.1).None? && r.0.nextId > r.1
  {
    match id
    case Some(k) =>
      if FindById(t, k).Some? then
        forall j {
          LookupReplace(t.rows, k, e, j);
        }
        (Table(Replace(t.rows, k, e), t.nextId), k)
      else
        Insert(t, e)
    case None =>
      Insert(t, e)
  }

  /** `deleteById`: fails with not-found on an absent identifier, else removes exactly that entry. */
  function DeleteById<T>(t: Table<T>, id: Id): (r: Result<Table<T>>)
    requires Valid(t)
    ensures r.Failure? <==> FindById(t, id).None?
    ensures r.Failure? ==> r.error == NotFound("Entity not found with id: ")
    ensures r.Success? ==> Valid(r.value) && r.value.nextId == t.nextId
    ensures r.Success? ==> FindById(r.value, id).None?
    ensures r.Success? ==> forall k :: k != id ==> FindById(r.value, k) == FindById(t, k)
  {
    if FindById(t, id).None? then
      Failure(NotFound("Entity not found with id: "))
    else
      forall k {
        LookupRemove(t.rows, id, k);
      }
      Success(Table(Remove(t.rows, id), t.nextId))
  }

  /**
   * `delete(entity)`: the same as `deleteById` on the entity's identifier. An
   * entity that was never saved has none; the lookup by a null identifier finds
   * no row, so that is a not-found failure too.
   */
  function Delete<T>(t: Table<T>, id: Option<Id>): (r: Result<Table<T>>)
    requires Valid(t)
    ensures id.Some? ==> r == DeleteById(t, id.value)
    ensures id.None? ==> r.Failure? && r.error.NotFound?
  {
    match id
    case Some(k) => DeleteById(t, k)
    case None => Failure(NotFound("Entity not found with id: "))
  }

  /** `deleteAll`: one bulk delete; the identity sequence carries on from where it was. */
  function DeleteAll<T>(t: Table<T>): (r: Table<T>)
    requires Valid(t)
    ensures Valid(r) && FindAll(r) == []
    ensures forall k :: FindById(r, k).None?
    ensures r.nextId == t.nextId
  {
    Table([], t.nextId)
  }

  /** A criteria query's `where`: the rows whose entity satisfies `p`, in table order. */
  function Where<T(!new)>(rows: seq<Row<T>>, p: T -> bool): (r: seq<Row<T>>)
    ensures |r| <= |rows|
    ensures forall row :: row in r <==> row in rows && p(row.entity)
  {
    Lists.Filter(rows, (row: Row<T>) => p(row.entity))
  }

  /** The multiplicities `Where` keeps: every copy of a satisfying row, none of the others. */
  lemma {:induction false} WhereMultiset<T(!new)>(rows: seq<Row<T>>, p: T -> bool, row: Row<T>)
    ensures multiset(Where(rows, p))[row] == if p(row.entity) then multiset(rows)[row] else 0
  {
    if |rows| > 0 {
      var rest := rows[1..];
      WhereMultiset(rest, p, row);
      assert rows == [rows[0]] + rest;
      assert Where(rows, p) == (if p(rows[0].entity) then [rows[0]] else []) + Where(rest, p);
    }
  }

  /** The identifiers of the rows whose entity satisfies `p`. */
  function IdsWhere<T>(rows: seq<Row<T>>, p: T -> bool): set<Id>
  {
    set i | 0 <= i < |rows| && p(rows[i].entity) :: rows[i].id
  }

  /** The identifiers matching in a non-empty table: the first row's, if it matches, and the rest's. */
  lemma IdsWhereCons<T>(rows: seq<Row<T>>, p: T -> bool)
    requires |rows| > 0
    ensures IdsWhere(rows, p) == (if p(rows[0].entity) then {rows[0].id} else {}) + IdsWhere(rows[1..], p)
  {
    var rest := rows[1..];
    forall id | id in IdsWhere(rows, p)
      ensures id in (if p(rows[0].entity) then {rows[0].id} else {}) + IdsWhere(rest, p)
    {
      var k :| 0 <= k < |rows| && p(rows[k].entity) && rows[k].id == id;
      if k > 0 {
        assert rest[k - 1] == rows[k];
      }
    }
    forall id | id in IdsWhere(rest, p)
      ensures id in IdsWhere(rows, p)
    {
      var k :| 0 <= k < |rest| && p(rest[k].entity) && rest[k].id == id;
      assert rows[k + 1] == rest[k];
    }
  }

  /**
   * A count query over a `where`: with distinct identifiers, the query
   * returns one row for each stored entity that satisfies `p`.
   */
  lemma {:induction false} CountWhere<T(!new)>(rows: seq<Row<T>>, p: T -> bool)
    requires IdsIncreasing(rows)
    ensures |Where(rows, p)| == |IdsWhere(rows, p)|
  {
    if |rows| > 0 {
      var rest := rows[1..];
      assert IdsIncreasing(rest) by {
        forall i, j | 0 <= i < j < |rest|
          ensures rest[i].id < rest[j].id
        {
          assert rest[i] == rows[i + 1] && rest[j] == rows[j + 1];
        }
      }
      CountWhere(rest, p);
      assert rows[0].id !in IdsWhere(rest, p) by {
        forall k | 0 <= k < |rest|
          ensures rest[k].id != rows[0].id
        {
          assert rest[k] == rows[k + 1];
        }
      }
      IdsWhereCons(rows, p);
      assert |Where(rows, p)| == (if p(rows[0].entity) then 1 else 0) + |Where(rest, p)|;
    }
  }

  /** Two different rows satisfy `p`. */
  predicate TwoMatches<T>(rows: seq<Row<T>>, p: T -> bool)
  {
    exists i, j :: 0 <= i < j < |rows| && p(rows[i].entity) && p(rows[j].entity)
  }

  /**
   * `getSingleResultOrNull`: empty when no row satisfies `p`, the row when
   * exactly one does, and a non-unique-result error when two or more do.
   */
  function SingleResult<T(!new)>(rows: seq<Row<T>>, p: T -> bool): (r: Result<Option<Row<T>>>)
    ensures r == Success(None) <==> forall i :: 0 <= i < |rows| ==> !p(rows[i].entity)
    ensures r.Failure? <==> TwoMatches(rows, p)
    ensures r.Failure? ==> r.error == Conflict("Query did not return a unique result")
    ensures r.Success? && r.value.Some? ==> r.value.value in rows && p(r.value.value.entity)
  {
    if |rows| == 0 then Success(None)
    else
      var rest := SingleResult(rows[1..], p);
      assert forall i :: 1 <= i < |rows| ==> rows[i] == rows[1..][i - 1];
      if !p(rows[0].entity) then
        assert TwoMatches(rows, p) ==> TwoMatches(rows[1..], p) by {
          if TwoMatches(rows, p) {
            var i, j :| 0 <= i < j < |rows| && p(rows[i].entity) && p(rows[j].entity);
            assert p(rows[1..][i - 1].entity) && p(rows[1..][j - 1].entity);
          }
        }
        assert TwoMatches(rows[1..], p) ==> TwoMatches(rows, p) by {
          if TwoMatches(rows[1..], p) {
            var i, j :| 0 <= i < j < |rows| - 1 && p(rows[1..][i].entity) && p(rows[1..][j].entity);
            assert p(rows[i + 1].entity) && p(rows[j + 1].entity);
          }
        }
        rest
      else if rest == Success(None) then
        assert !TwoMatches(rows, p) by {
          forall i, j | 0 <= i < j < |rows|
            ensures !(p(rows[i].entity) && p(rows[j].entity))
          {
            assert !p(rows[1..][j - 1].entity);
          }
        }
        Success(Some(rows[0]))
      else
        assert TwoMatches(rows, p) by {
          var k :| 0 <= k < |rows| - 1 && p(rows[1..][k].entity);
          assert p(rows[0].entity) && p(rows[k + 1].entity);
        }
        Failure(Conflict("Query did not return a unique result"))
  }

  /** A count query compared with zero: some row satisfies `p`. */
  function AnyWhere<T(!new)>(rows: seq<Row<T>>, p: T -> bool): (b: bool)
    ensures b <==> exists row :: row in rows && p(row.entity)
  {
    var matches := Where(rows, p);
    if |matches| > 0 then
      assert matches[0] in matches;
      true
    else
      false
  }

  /** The first row whose entity satisfies `p`, if any (`results.get(0)` on a list query). */
  function FirstWhere<T(!new)>(rows: seq<Row<T>>, p: T -> bool): (r: Option<Row<T>>)
    ensures r.None? <==> forall row :: row in rows ==> !p(row.entity)
    ensures r.Some? ==> r.value in rows && p(r.value.entity)
  {
    var matches := Where(rows, p);
    if |matches| > 0 then
      assert matches[0] in matches;
      Some(matches[0])
    else
      None
  }
}
