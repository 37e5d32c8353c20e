/** What create, update and remove do to what findOne and findAll report:
    lemmas over the store functions that the service's methods are specified by. */
module Lifecycle {
  import opened Products

  // ---------------------------------------------------------------------------
  // create: the store appends a new available row

  /** Appending a row appends it to the available rows when it is available. */
  lemma {:induction false} AvailableAppend(rows: seq<Product>, p: Product)
    ensures Available(rows + [p]) == Available(rows) + (if p.available then [p] else [])
  {
    if rows != [] {
      assert (rows + [p])[1..] == rows[1..] + [p];
      AvailableAppend(rows[1..], p);
    }
  }

  /** After appending a row, findOne still finds what it found before, and
      otherwise finds the new row when it is visible under the id. */
  lemma {:induction false} FindOneAppend(rows: seq<Product>, p: Product, id: int)
    ensures FindOne(rows + [p], id) ==
            if FindOne(rows, id).Success? then FindOne(rows, id)
            else if Visible(p, id) then Success(p)
            else Failure(NotFound(id))
  {
    if rows != [] {
      assert (rows + [p])[1..] == rows[1..] + [p];
      FindOneAppend(rows[1..], p, id);
    }
  }

  /** Appending a row under an id no row has keeps ids unique. */
  lemma AppendKeepsIdsUnique(rows: seq<Product>, p: Product)
    requires UniqueIds(rows)
    requires forall i | 0 <= i < |rows| :: rows[i].id != p.id
    ensures UniqueIds(rows + [p])
  {
    var after := rows + [p];
    forall i, j | 0 <= i < j < |after|
      ensures IdAt(after, i) != IdAt(after, j)
    {
      if j < |rows| {
        assert IdAt(rows, i) != IdAt(rows, j);
      }
    }
  }

  /** A created row, under an id no row had, is what findOne returns for that
      id; findOne answers every other id as before; the count of available rows
      grows by one and the new row is the last of them. */
  lemma CreatedRowIsFound(rows: seq<Product>, p: Product)
    requires forall i | 0 <= i < |rows| :: rows[i].id != p.id
    requires p.available
    ensures FindOne(rows + [p], p.id) == Success(p)
    ensures forall id | id != p.id :: FindOne(rows + [p], id) == FindOne(rows, id)
    ensures Available(rows + [p]) == Available(rows) + [p]
  {
    FindOneAppend(rows, p, p.id);
    forall id | id != p.id
      ensures FindOne(rows + [p], id) == FindOne(rows, id)
    {
      FindOneAppend(rows, p, id);
    }
    AvailableAppend(rows, p);
  }

  // ---------------------------------------------------------------------------
  // update: the store rewrites the row with the id

  /** An update that leaves `available` alone does not change which rows are
      visible: the available rows after it are the available rows before it,
      updated in the same way. */
  lemma {:induction false} UpdateKeepsVisibility(rows: seq<Product>, id: int, data: ProductData)
    requires data.available.None?
    ensures Available(UpdateWhere(rows, id, data)) == UpdateWhere(Available(rows), id, data)
  {
    if rows != [] {
      var after := UpdateWhere(rows, id, data);
      assert after[1..] == UpdateWhere(rows[1..], id, data);
      UpdateKeepsVisibility(rows[1..], id, data);
      if rows[0].available {
        assert ([rows[0]] + Available(rows[1..]))[1..] == Available(rows[1..]);
      }
    }
  }

  /** An update of one id does not change what findOne returns for any other id. */
  lemma {:induction false} UpdateLeavesOtherIds(rows: seq<Product>, id: int, data: ProductData, other: int)
    requires other != id
    ensures FindOne(UpdateWhere(rows, id, data), other) == FindOne(rows, other)
  {
    if rows != [] {
      var after := UpdateWhere(rows, id, data);
      assert after[1..] == UpdateWhere(rows[1..], id, data);
      UpdateLeavesOtherIds(rows[1..], id, data, other);
    }
  }

  /** The store's update never changes an id, so ids stay unique. */
  lemma UpdateKeepsIdsUnique(rows: seq<Product>, id: int, data: ProductData)
    requires UniqueIds(rows)
    ensures UniqueIds(UpdateWhere(rows, id, data))
  {
    var after := UpdateWhere(rows, id, data);
    forall i, j | 0 <= i < j < |after|
      ensures IdAt(after, i) != IdAt(after, j)
    {
      assert IdAt(rows, i) != IdAt(rows, j);
    }
  }

  /** The table the store's update leaves behind still has unique ids below the
      same bound, and as many rows as before. */
  lemma UpdateKeepsTable(rows: seq<Product>, id: int, data: ProductData, bound: int)
    requires UniqueIds(rows) && forall i | 0 <= i < |rows| :: rows[i].id < bound
    ensures var after := UpdateWhere(rows, id, data);
            && UniqueIds(after)
            && |after| == |rows|
            && forall i | 0 <= i < |after| :: after[i].id < bound
  {
    UpdateKeepsIdsUnique(rows, id, data);
  }

  /** After update(id, dto) succeeds, findOne(id) returns the updated row: the
      row keeps the path id whatever id the payload carries, and stays visible. */
  lemma UpdatedRowIsFound(rows: seq<Product>, id: int, dto: UpdateProductDto)
    requires UniqueIds(rows) && FindOne(rows, id).Success?
    ensures var updated := Apply(FindOne(rows, id).value, StripId(dto));
            && updated.id == id
            && FindOne(UpdateWhere(rows, id, StripId(dto)), id) == Success(updated)
  {
    var p := FindOne(rows, id).value;
    var k :| 0 <= k < |rows| && rows[k] == p;
    var after := UpdateWhere(rows, id, StripId(dto));
    UpdateKeepsIdsUnique(rows, id, StripId(dto));
    FindOneUnique(after, id, k);
  }

  // ---------------------------------------------------------------------------
  // remove: the store sets `available` to false on the row with the id

  /** Soft-deleting an id removes one row from the available ones exactly when
      findOne found that id. */
  lemma {:induction false} SoftDeleteCount(rows: seq<Product>, id: int)
    requires UniqueIds(rows)
    ensures |Available(UpdateWhere(rows, id, SoftDelete()))| + (if FindOne(rows, id).Success? then 1 else 0)
            == |Available(rows)|
  {
    if rows != [] {
      var rest := rows[1..];
      var after := UpdateWhere(rows, id, SoftDelete());
      assert after == [after[0]] + UpdateWhere(rest, id, SoftDelete());
      forall i, j | 0 <= i < j < |rest|
        ensures IdAt(rest, i) != IdAt(rest, j)
      {
        assert IdAt(rows, i + 1) != IdAt(rows, j + 1);
      }
      OnlyRowWithId(rows, 0);
      SoftDeleteCount(rest, id);
    }
  }

  /** After a soft delete of an id, findOne(id) fails with the not-found error,
      so a second remove(id) fails too. */
  lemma SoftDeleteHidesId(rows: seq<Product>, id: int)
    ensures FindOne(UpdateWhere(rows, id, SoftDelete()), id) == Failure(NotFound(id))
  {
    var after := UpdateWhere(rows, id, SoftDelete());
    assert forall i | 0 <= i < |after| :: !Visible(after[i], id);
  }

  /** After remove(id) succeeds, the row findOne found stays in the table with
      only its flag cleared. */
  lemma SoftDeletedRowStays(rows: seq<Product>, id: int)
    requires FindOne(rows, id).Success?
    ensures FindOne(rows, id).value.(available := false) in UpdateWhere(rows, id, SoftDelete())
  {
    var after := UpdateWhere(rows, id, SoftDelete());
    var k :| 0 <= k < |rows| && rows[k] == FindOne(rows, id).value;
    assert after[k] == rows[k].(available := false);
  }

  /** A row is available after a soft delete of an id exactly when it was
      available before and has another id. */
  lemma SoftDeleteMembership(rows: seq<Product>, id: int, p: Product)
    ensures p in Available(UpdateWhere(rows, id, SoftDelete())) <==> p in Available(rows) && p.id != id
  {
    var after := UpdateWhere(rows, id, SoftDelete());
    if p in after && p.available {
      var i :| 0 <= i < |after| && after[i] == p;
      assert rows[i] == p;
    }
    if p in rows && p.available && p.id != id {
      var i :| 0 <= i < |rows| && rows[i] == p;
      assert after[i] == p;
    }
  }

  /** After remove(id) succeeds, the available rows are the ones before without
      that id, and there is exactly one fewer of them. */
  lemma RemovedRowIsHidden(rows: seq<Product>, id: int)
    requires UniqueIds(rows) && FindOne(rows, id).Success?
    ensures var after := UpdateWhere(rows, id, SoftDelete());
            && |Available(after)| + 1 == |Available(rows)|
            && forall p :: p in Available(after) <==> p in Available(rows) && p.id != id
  {
    SoftDeleteCount(rows, id);
    forall p
      ensures p in Available(UpdateWhere(rows, id, SoftDelete())) <==> p in Available(rows) && p.id != id
    {
      SoftDeleteMembership(rows, id, p);
    }
  }

  /** After remove(id) succeeds, no page of findAll lists a row with that id, and
      the reported total drops by one. */
  lemma RemovedRowIsNotListed(rows: seq<Product>, id: int, q: PaginationDto)
    requires UniqueIds(rows) && FindOne(rows, id).Success? && ValidPagination(q)
    ensures var after := UpdateWhere(rows, id, SoftDelete());
            && (forall p | p in FindAll(after, q).data :: p.id != id)
            && FindAll(after, q).meta.total + 1 == FindAll(rows, q).meta.total
  {
    var after := UpdateWhere(rows, id, SoftDelete());
    RemovedRowIsHidden(rows, id);
    var r := FindAll(after, q);
    forall p | p in r.data
      ensures p.id != id
    {
      var i :| 0 <= i < |r.data| && r.data[i] == p;
      assert p in Available(after);
    }
  }
}
