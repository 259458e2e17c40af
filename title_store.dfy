/**
 * The session-backed `titles` table: `Title.save`, `Title.update` and
 * `Title.delete`. Each runs in one transaction: it either commits with the
 * stated effect or rolls back, leaving the table exactly as it was, and
 * returns the error it would have re-raised.
 */
module TitleStore {
  import opened Wrappers
  import opened Titles

  class TitleTable {
    /** The committed rows, in storage order. */
    var rows: seq<Title>
    /** The next id the database hands out when a new row gives none. */
    var nextId: int

    ghost predicate Valid()
      reads this
    {
      && UniqueIds(rows)
      && forall k :: 0 <= k < |rows| ==> rows[k].id < nextId
    }

    /** An empty table whose key sequence starts at 1. */
    constructor ()
      ensures Valid() && rows == [] && nextId == 1
    {
      rows := [];
      nextId := 1;
    }

    /** `Title(**kwargs).save()`: add the pending object and commit. An id
        left as None is taken from the key sequence. */
    method Save(kwargs: Row) returns (r: Result<Title, Error>)
      requires Valid()
      modifies this
      ensures Valid()
      ensures r.Ok? ==> rows == old(rows) + [r.value] && !HasId(old(rows), r.value.id)
      ensures r.Ok? ==> forall c :: c != Id ==> Attr(ToRow(r.value), c) == Attr(kwargs, c)
      ensures r.Ok? ==> IntVal(r.value.id) == if Attr(kwargs, Id).Null? then IntVal(old(nextId)) else Attr(kwargs, Id)
      ensures r.Ok? ==> Get(rows, r.value.id, r.value.userId) == Ok(r.value)
      ensures r.Ok? ==> r.value in UsersTitles(rows, r.value.userId, r.value.userName)
      ensures r.Ok? <==>
        && (forall c :: c != Id ==> Fits(c, Attr(kwargs, c)))
        && (Attr(kwargs, Id).Null? || (Attr(kwargs, Id).IntVal? && !HasId(old(rows), Attr(kwargs, Id).i)))
      ensures r.Err? ==> rows == old(rows) && nextId == old(nextId)
    {
      var pending := if Attr(kwargs, Id).Null? then kwargs[Id := IntVal(nextId)] else kwargs;
      assert forall c :: c != Id ==> Attr(pending, c) == Attr(kwargs, c);
      assert !HasId(rows, nextId);
      r := CommitNew(pending);
    }

    /** The commit that ends `save`: flush the pending object as a new row,
        or roll back. */
    method CommitNew(pending: Row) returns (r: Result<Title, Error>)
      requires Valid()
      modifies this
      ensures Valid()
      ensures r.Ok? ==> rows == old(rows) + [r.value] && !HasId(old(rows), r.value.id)
      ensures r.Ok? ==> forall c :: Attr(ToRow(r.value), c) == Attr(pending, c)
      ensures r.Ok? ==> Get(rows, r.value.id, r.value.userId) == Ok(r.value)
      ensures r.Ok? ==> r.value in UsersTitles(rows, r.value.userId, r.value.userName)
      ensures r.Ok? <==>
        && (forall c :: Fits(c, Attr(pending, c)))
        && Attr(pending, Id).IntVal? && !HasId(old(rows), Attr(pending, Id).i)
      ensures r.Err? ==> rows == old(rows) && nextId == old(nextId)
    {
      var t := FromRow(pending);
      if t.Err? {
        return Err(t.error);
      }
      var row := t.value;
      assert Attr(ToRow(row), Id) == Attr(pending, Id);
      if HasId(rows, row.id) {
        return Err(DuplicateId);
      }
      AppendUnique(rows, row);
      UsersTitlesAppend(rows, [row], row.userId, row.userName);
      UsersTitlesOne(row, row.userId, row.userName);
      rows := rows + [row];
      nextId := if row.id < nextId then nextId else row.id + 1;
      GetFindsTheRow(rows, row);
      r := Ok(row);
    }

    /** `title.update(**kwargs)` on a loaded row `t`: `setattr` each argument
        in turn, then commit. */
    method Update(t: Title, kwargs: seq<(Column, Value)>) returns (r: Result<Title, Error>)
      requires Valid() && t in rows
      modifies this
      ensures Valid()
      ensures r.Ok? ==> forall c ::
        Attr(ToRow(r.value), c) == (if Lookup(kwargs, c).Some? then Lookup(kwargs, c).value else Attr(ToRow(t), c))
      ensures r.Ok? ==> |rows| == |old(rows)|
      ensures r.Ok? ==> forall k :: 0 <= k < |rows| ==>
        rows[k] == (if old(rows)[k].id == t.id then r.value else old(rows)[k])
      ensures r.Ok? ==> Get(rows, r.value.id, r.value.userId) == Ok(r.value)
      ensures r.Ok? <==>
        && (forall c :: Fits(c, Attr(Apply(ToRow(t), kwargs), c)))
        && (Attr(Apply(ToRow(t), kwargs), Id).i == t.id || !HasId(old(rows), Attr(Apply(ToRow(t), kwargs), Id).i))
      ensures r.Err? ==> rows == old(rows) && nextId == old(nextId)
    {
      var pending := ToRow(t);
      var i := 0;
      while i < |kwargs|
        invariant 0 <= i <= |kwargs|
        invariant pending == Apply(ToRow(t), kwargs[..i])
      {
        assert kwargs[..i + 1][..i] == kwargs[..i];
        pending := pending[kwargs[i].0 := kwargs[i].1];
        i := i + 1;
      }
      assert kwargs[..i] == kwargs;
      r := CommitUpdate(t, pending);
    }

    /** The commit that ends `update`: flush the modified attributes of `t`
        as a replacement for its row, or roll back. */
    method CommitUpdate(t: Title, pending: Row) returns (r: Result<Title, Error>)
      requires Valid() && t in rows
      modifies this
      ensures Valid()
      ensures r.Ok? ==> forall c :: Attr(ToRow(r.value), c) == Attr(pending, c)
      ensures r.Ok? ==> |rows| == |old(rows)|
      ensures r.Ok? ==> forall k :: 0 <= k < |rows| ==>
        rows[k] == (if old(rows)[k].id == t.id then r.value else old(rows)[k])
      ensures r.Ok? ==> Get(rows, r.value.id, r.value.userId) == Ok(r.value)
      ensures r.Ok? <==>
        && (forall c :: Fits(c, Attr(pending, c)))
        && (Attr(pending, Id).i == t.id || !HasId(old(rows), Attr(pending, Id).i))
      ensures r.Err? ==> rows == old(rows) && nextId == old(nextId)
    {
      var res := FromRow(pending);
      if res.Err? {
        return Err(res.error);
      }
      var u := res.value;
      assert Attr(ToRow(u), Id) == Attr(pending, Id);
      if u.id != t.id && HasId(rows, u.id) {
        return Err(DuplicateId);
      }
      ReplaceKeepsKeyUnique(rows, t, u);
      rows := Replace(rows, t.id, u);
      nextId := if u.id < nextId then nextId else u.id + 1;
      r := Ok(u);
    }

    /** `title.delete()` on a loaded row `t`: remove it and commit. No
        constraint refers to `titles`, so the commit cannot fail. */
    method Delete(t: Title)
      requires Valid() && t in rows
      modifies this
      ensures Valid() && nextId == old(nextId)
      ensures forall x :: x in rows <==> x in old(rows) && x != t
      ensures |rows| == |old(rows)| - 1
      ensures forall u :: Get(rows, t.id, u) == Err(NoTitle)
    {
      ghost var before := rows;
      rows := Without(rows, t.id);
      assert HasId(before, t.id);
      forall x | x in before && x.id == t.id ensures x == t {
      }
    }
  }
}
