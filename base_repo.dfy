/** The generic repository: queries and writes on the table of one model.
    A table is a sequence of rows in storage order; ids are unique and are
    drawn from a counter that never hands out an id twice. */
module BaseRepo {
  import opened Models

  ghost predicate HasId<D>(rows: seq<Row<D>>, id: Id)
  {
    exists i :: 0 <= i < |rows| && rows[i].id == id
  }

  /** The primary-key constraint. */
  ghost predicate UniqueIds<D>(rows: seq<Row<D>>)
  {
    forall i, j :: 0 <= i < j < |rows| ==> rows[i].id != rows[j].id
  }

  ghost predicate IdsBelow<D>(rows: seq<Row<D>>, bound: Id)
  {
    forall i :: 0 <= i < |rows| ==> rows[i].id < bound
  }

  /** The condition `model.id == id`. */
  function IdIs<D>(id: Id): Row<D> -> bool
  {
    (r: Row<D>) => r.id == id
  }

  /** The condition `getattr(model, field_name) == value`. */
  function FieldIs<D, V(==)>(field: D -> V, value: V): Row<D> -> bool
  {
    (r: Row<D>) => field(r.data) == value
  }

  lemma FieldIsAt<D, V>(field: D -> V, value: V, r: Row<D>)
    ensures FieldIs(field, value)(r) <==> field(r.data) == value
  {
  }

  /** Position of the first row satisfying `p`, or |rows| if there is none. */
  function FirstIndex<D>(rows: seq<Row<D>>, p: Row<D> -> bool): (k: nat)
    ensures k <= |rows|
    ensures k < |rows| ==> p(rows[k])
    ensures forall j :: 0 <= j < k ==> !p(rows[j])
  {
    if rows == [] then 0
    else if p(rows[0]) then 0
    else 1 + FirstIndex(rows[1..], p)
  }

  /** `result.first()` of a select with a where clause. */
  function First<D>(rows: seq<Row<D>>, p: Row<D> -> bool): (r: Option<Row<D>>)
    ensures r.None? <==> forall i :: 0 <= i < |rows| ==> !p(rows[i])
    ensures r.Some? ==> p(r.value)
    ensures r.Some? ==> exists k :: 0 <= k < |rows| && rows[k] == r.value && forall j :: 0 <= j < k ==> !p(rows[j])
  {
    var k := FirstIndex(rows, p);
    if k < |rows| then Some(rows[k]) else None
  }

  /** When no two rows satisfy `p` (a unique column), any row that does is
      the one the query returns. */
  lemma FirstOfUnique<D>(rows: seq<Row<D>>, p: Row<D> -> bool, x: Row<D>)
    requires x in rows && p(x)
    requires forall i, j :: 0 <= i < |rows| && 0 <= j < |rows| && p(rows[i]) && p(rows[j]) ==> rows[i] == rows[j]
    ensures First(rows, p) == Some(x)
  {
  }

  /** A primary-key lookup finds the row with that id, if any. */
  lemma FirstById<D>(rows: seq<Row<D>>, x: Row<D>)
    requires UniqueIds(rows) && x in rows
    ensures First(rows, IdIs(x.id)) == Some(x)
  {
    var p := IdIs<D>(x.id);
    assert forall i, j :: 0 <= i < |rows| && 0 <= j < |rows| && p(rows[i]) && p(rows[j]) ==> i == j;
    FirstOfUnique(rows, p, x);
  }

  /** The table after `DELETE ... WHERE p`. */
  function Without<D>(rows: seq<Row<D>>, p: Row<D> -> bool): (r: seq<Row<D>>)
    ensures |r| <= |rows|
    ensures forall i :: 0 <= i < |r| ==> r[i] in rows && !p(r[i])
    ensures forall i :: 0 <= i < |rows| && !p(rows[i]) ==> rows[i] in r
  {
    if rows == [] then []
    else (if p(rows[0]) then [] else [rows[0]]) + Without(rows[1..], p)
  }

  /** Deleting where nothing matches changes nothing. */
  lemma {:induction false} WithoutNoMatch<D>(rows: seq<Row<D>>, p: Row<D> -> bool)
    requires forall i :: 0 <= i < |rows| ==> !p(rows[i])
    ensures Without(rows, p) == rows
  {
    if rows != [] {
      WithoutNoMatch(rows[1..], p);
      assert rows == [rows[0]] + rows[1..];
    }
  }

  /** Deleting twice is deleting once. */
  lemma WithoutIdempotent<D>(rows: seq<Row<D>>, p: Row<D> -> bool)
    ensures Without(Without(rows, p), p) == Without(rows, p)
  {
    var r := Without(rows, p);
    forall i | 0 <= i < |r| ensures !p(r[i]) {
      assert r[i] in r;
    }
    WithoutNoMatch(r, p);
  }

  /** Deleting keeps the remaining rows in order, so ids stay unique. */
  lemma {:induction false} WithoutKeepsUniqueIds<D>(rows: seq<Row<D>>, p: Row<D> -> bool)
    requires UniqueIds(rows)
    ensures UniqueIds(Without(rows, p))
  {
    if rows != [] {
      var rest := rows[1..];
      assert UniqueIds(rest) by {
        forall i, j | 0 <= i < j < |rest| ensures rest[i].id != rest[j].id {
          assert rest[i] == rows[i + 1] && rest[j] == rows[j + 1];
        }
      }
      WithoutKeepsUniqueIds(rest, p);
      var tail := Without(rest, p);
      forall k | 0 <= k < |tail| ensures tail[k].id != rows[0].id {
        assert tail[k] in rest;
        var m :| 0 <= m < |rest| && rest[m] == tail[k];
        assert rows[m + 1] == tail[k];
      }
    }
  }

  /** Deleting by a primary key that occurs removes exactly one row. */
  lemma {:induction false} WithoutIdRemovesOne<D>(rows: seq<Row<D>>, id: Id)
    requires UniqueIds(rows) && HasId(rows, id)
    ensures |Without(rows, IdIs(id))| == |rows| - 1
  {
    var p := IdIs<D>(id);
    var rest := rows[1..];
    assert UniqueIds(rest) by {
      forall i, j | 0 <= i < j < |rest| ensures rest[i].id != rest[j].id {
        assert rest[i] == rows[i + 1] && rest[j] == rows[j + 1];
      }
    }
    if rows[0].id == id {
      forall i | 0 <= i < |rest| ensures !p(rest[i]) {
        assert rows[i + 1] == rest[i];
      }
      WithoutNoMatch(rest, p);
    } else {
      var k :| 0 <= k < |rows| && rows[k].id == id;
      assert rest[k - 1].id == id;
      WithoutIdRemovesOne(rest, id);
    }
  }

  /** `db.get(model, id)`: the row with this primary key, if any. */
  function GetById<D>(rows: seq<Row<D>>, id: Id): (r: Option<Row<D>>)
    requires UniqueIds(rows)
    ensures r.Some? <==> HasId(rows, id)
    ensures r.Some? ==> r.value in rows && r.value.id == id
    ensures forall i :: 0 <= i < |rows| && rows[i].id == id ==> r == Some(rows[i])
  {
    var r := First(rows, IdIs(id));
    if r.Some? then FirstById(rows, r.value); r else r
  }

  /** `select(model).offset(skip).limit(limit)`. */
  function GetMulti<D>(rows: seq<Row<D>>, skip: nat := 0, limit: nat := 100): (r: seq<Row<D>>)
    ensures skip >= |rows| ==> r == []
    ensures skip < |rows| ==> |r| == if limit <= |rows| - skip then limit else |rows| - skip
    ensures forall i :: 0 <= i < |r| ==> r[i] == rows[skip + i]
  {
    if skip >= |rows| then []
    else if limit <= |rows| - skip then rows[skip..skip + limit]
    else rows[skip..]
  }

  /** `select(model).where(field == value)` and `.first()`. */
  function GetByField<D, V(==)>(rows: seq<Row<D>>, field: D -> V, value: V): (r: Option<Row<D>>)
    ensures r.None? <==> forall i :: 0 <= i < |rows| ==> field(rows[i].data) != value
    ensures r.Some? ==> r.value in rows && field(r.value.data) == value
    ensures r.Some? ==> exists k :: 0 <= k < |rows| && rows[k] == r.value &&
                                    forall j :: 0 <= j < k ==> field(rows[j].data) != value
  {
    var p := FieldIs(field, value);
    assert forall i :: 0 <= i < |rows| ==> (p(rows[i]) <==> field(rows[i].data) == value);
    First(rows, p)
  }

  /** The rows of one model's table, with the repository's writes. */
  class Table<D> {
    var rows: seq<Row<D>>
    var nextId: Id

    ghost predicate Valid()
      reads this
    {
      UniqueIds(rows) && IdsBelow(rows, nextId)
    }

    constructor ()
      ensures Valid() && rows == []
    {
      rows := [];
      nextId := 0;
    }

    /** Insert one row built from `data` under a fresh id and return it. */
    method Create(data: D) returns (r: Row<D>)
      requires Valid()
      modifies this
      ensures Valid()
      ensures r.data == data && r.id == old(nextId) && nextId == old(nextId) + 1
      ensures !HasId(old(rows), r.id)
      ensures rows == old(rows) + [r]
    {
      r := Row(nextId, data);
      rows := rows + [r];
      nextId := nextId + 1;
    }

    /** Delete the stored object and return it. */
    method Delete(obj: Row<D>) returns (r: Row<D>)
      requires Valid() && obj in rows
      modifies this
      ensures Valid() && nextId == old(nextId)
      ensures r == obj
      ensures rows == Without(old(rows), IdIs(obj.id))
      ensures !HasId(rows, obj.id) && |rows| == |old(rows)| - 1
    {
      WithoutKeepsUniqueIds(rows, IdIs(obj.id));
      WithoutIdRemovesOne(rows, obj.id);
      rows := Without(rows, IdIs(obj.id));
      r := obj;
    }

    /** `DELETE FROM model WHERE p`. */
    method DeleteWhere(p: Row<D> -> bool)
      requires Valid()
      modifies this
      ensures Valid() && nextId == old(nextId)
      ensures rows == Without(old(rows), p)
    {
      WithoutKeepsUniqueIds(rows, p);
      rows := Without(rows, p);
    }
  }

  // ---------------------------------------------------------------------
  // update: copy into the object the fields of obj_in that it has.

  /** The update payload: a plain dict, or a model instance of which only
      the explicitly set fields count (`dict(exclude_unset=True)`). */
  datatype UpdateInput<V> =
    | Dict(values: map<string, V>)
    | Model(values: map<string, V>, explicitlySet: set<string>)

  function UpdateData<V>(objIn: UpdateInput<V>): (data: map<string, V>)
    ensures objIn.Dict? ==> data == objIn.values
    ensures objIn.Model? ==> data.Keys == objIn.values.Keys * objIn.explicitlySet
    ensures forall f :: f in data ==> f in objIn.values && data[f] == objIn.values[f]
  {
    match objIn
    case Dict(values) => values
    case Model(values, set_) => map f | f in values && f in set_ :: values[f]
  }

  /** The object's attributes after the loop over its fields: a field takes
      the payload's value when the payload names it; keys of the payload
      that are not fields are ignored. `fields` is the object's field order. */
  method Update<V>(fields: seq<string>, dbObj: map<string, V>, objIn: UpdateInput<V>) returns (r: map<string, V>)
    requires forall f :: f in dbObj <==> f in fields
    ensures r.Keys == dbObj.Keys
    ensures forall f :: f in dbObj && f in UpdateData(objIn) ==> r[f] == UpdateData(objIn)[f]
    ensures forall f :: f in dbObj && f !in UpdateData(objIn) ==> r[f] == dbObj[f]
  {
    var updateData := UpdateData(objIn);
    r := dbObj;
    var i := 0;
    while i < |fields|
      invariant 0 <= i <= |fields|
      invariant r.Keys == dbObj.Keys
      invariant forall f :: f in dbObj && f in updateData && f in fields[..i] ==> r[f] == updateData[f]
      invariant forall f :: f in dbObj && (f !in updateData || f !in fields[..i]) ==> r[f] == dbObj[f]
    {
      var field := fields[i];
      if field in updateData {
        r := r[field := updateData[field]];
      }
      i := i + 1;
    }
    assert fields[..i] == fields;
  }
}
