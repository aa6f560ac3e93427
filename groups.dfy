/**
 * The `groups` table and its CRUD operations.
 *
 * A group row carries the database id (assigned by the table's serial
 * sequence), the platform id `vkId` (declared unique) and a collector
 * counter that defaults to 0. The table is a sequence of rows. The
 * lookups read the first matching row without an ORDER BY, so the database
 * promises no particular row; with `id` and `vk_id` unique (`Keyed`) at
 * most one row matches, and the order does not matter.
 */
module Groups {
  import opened Wrappers
  import Tables

  datatype Group = Group(id: int, vkId: string, collectorCount: int)

  /** What a write returns: the stored row, "no row with that id" (`None`),
      or the unique constraint on `vk_id` refusing the write. */
  datatype WriteResult = Stored(group: Group) | NoSuchGroup | VkIdTaken

  /** The `WHERE` conditions of the two lookups. */
  function IdIs(id: int): Group -> bool
  {
    (g: Group) => g.id == id
  }

  function VkIdIs(vkId: string): Group -> bool
  {
    (g: Group) => g.vkId == vkId
  }

  /** `get_group_by_id`: the row with that id, or `None` when there is none. */
  function GroupById(rows: seq<Group>, id: int): (r: Option<Group>)
    ensures r.None? <==> forall j :: 0 <= j < |rows| ==> rows[j].id != id
    ensures r.Some? ==> r.value in rows && r.value.id == id
  {
    Tables.FirstWhere(rows, IdIs(id))
  }

  /** `get_group_by_vk_id`: the first row with that platform id, or `None`. */
  function GroupByVkId(rows: seq<Group>, vkId: string): (r: Option<Group>)
    ensures r.None? <==> forall j :: 0 <= j < |rows| ==> rows[j].vkId != vkId
    ensures r.Some? ==> r.value in rows && r.value.vkId == vkId
  {
    Tables.FirstWhere(rows, VkIdIs(vkId))
  }

  /** The rows left after `DELETE ... WHERE id = id`, in their old order. */
  function WithoutId(rows: seq<Group>, id: int): (r: seq<Group>)
    ensures forall g :: g in r <==> g in rows && g.id != id
    ensures |r| <= |rows|
  {
    if rows == [] then []
    else if rows[0].id == id then WithoutId(rows[1..], id)
    else [rows[0]] + WithoutId(rows[1..], id)
  }

  /** No two rows share an id, and no two rows share a platform id. */
  ghost predicate Keyed(rows: seq<Group>)
  {
    forall i, j :: 0 <= i < j < |rows| ==> rows[i].id != rows[j].id && rows[i].vkId != rows[j].vkId
  }

  /** With platform ids unique, the lookup by platform id finds exactly the
      row that carries it, whatever its position. */
  lemma GroupByVkIdFindsTheRow(rows: seq<Group>, k: nat)
    requires Keyed(rows) && k < |rows|
    ensures GroupByVkId(rows, rows[k].vkId) == Some(rows[k])
  {
    var g := GroupByVkId(rows, rows[k].vkId).value;
    var m :| 0 <= m < |rows| && rows[m] == g;
    assert m == k;
  }

  /** With ids unique, deleting a present id removes exactly one row. */
  lemma {:induction false} DeleteRemovesOneRow(rows: seq<Group>, id: int)
    requires Keyed(rows)
    ensures |WithoutId(rows, id)| == if GroupById(rows, id).Some? then |rows| - 1 else |rows|
  {
    if rows != [] {
      KeyedTail(rows);
      DeleteRemovesOneRow(rows[1..], id);
      if rows[0].id == id {
        assert forall j :: 0 <= j < |rows[1..]| ==> rows[1..][j].id != id by {
          forall j | 0 <= j < |rows[1..]| ensures rows[1..][j].id != id {
            assert rows[1..][j] == rows[j + 1];
          }
        }
      } else {
        assert GroupById(rows, id).Some? <==> GroupById(rows[1..], id).Some? by {
          if GroupById(rows, id).Some? {
            var j :| 0 <= j < |rows| && rows[j].id == id;
            assert j > 0 && rows[1..][j - 1] == rows[j];
          }
          if GroupById(rows[1..], id).Some? {
            var j :| 0 <= j < |rows[1..]| && rows[1..][j].id == id;
            assert rows[j + 1] == rows[1..][j];
          }
        }
      }
    }
  }

  /** The `groups` table. `nextId` is the value the id sequence hands out next. */
  class GroupTable {
    var rows: seq<Group>
    var nextId: int

    ghost predicate Valid()
      reads this
    {
      && nextId > 0
      && (forall i :: 0 <= i < |rows| ==> 0 < rows[i].id < nextId)
      && Keyed(rows)
    }

    constructor ()
      ensures Valid() && rows == []
    {
      rows := [];
      nextId := 1;
    }

    /** `create_group`: inserts one row with a fresh id and a zero counter;
        a platform id already in the table violates the unique constraint. */
    method CreateGroup(vkId: string) returns (r: WriteResult)
      requires Valid()
      modifies this
      ensures Valid()
      ensures old(GroupByVkId(rows, vkId)).Some? ==> r == VkIdTaken && rows == old(rows)
      ensures old(GroupByVkId(rows, vkId)).None? ==>
        && r.Stored?
        && r.group == Group(old(nextId), vkId, 0)
        && old(GroupById(rows, r.group.id)).None?
        && rows == old(rows) + [r.group]
    {
      if GroupByVkId(rows, vkId).Some? {
        return VkIdTaken;
      }
      var g := Group(nextId, vkId, 0);
      rows := rows + [g];
      nextId := nextId + 1;
      r := Stored(g);
    }

    /** `update_group`: rewrites the platform id of the row with that id and
        touches no other row; a missing id changes nothing and yields `None`,
        and a platform id held by another row violates the unique constraint. */
    method UpdateGroup(id: int, vkId: string) returns (r: WriteResult)
      requires Valid()
      modifies this
      ensures Valid() && nextId == old(nextId)
      ensures old(GroupById(rows, id)).None? ==> r == NoSuchGroup && rows == old(rows)
      ensures old(GroupById(rows, id)).Some? ==>
        var before := old(GroupById(rows, id)).value;
        var holder := old(GroupByVkId(rows, vkId));
        if holder.Some? && holder.value.id != id then
          r == VkIdTaken && rows == old(rows)
        else
          && r == Stored(before.(vkId := vkId))
          && |rows| == |old(rows)|
          && forall j :: 0 <= j < |rows| ==>
               rows[j] == if old(rows[j]).id == id then r.group else old(rows[j])
    {
      var i := Tables.IndexWhere(rows, IdIs(id));
      if i < 0 {
        return NoSuchGroup;
      }
      var holder := GroupByVkId(rows, vkId);
      if holder.Some? && holder.value.id != id {
        return VkIdTaken;
      }
      assert GroupById(rows, id) == Some(rows[i]);
      RenamedRowKeepsKeyed(rows, i, vkId);
      var g := rows[i].(vkId := vkId);
      rows := rows[i := g];
      r := Stored(g);
    }

    /** `delete_group`: reports whether a row with that id existed; afterwards
        none does and every other row is kept in order. */
    method DeleteGroup(id: int) returns (deleted: bool)
      requires Valid()
      modifies this
      ensures Valid() && nextId == old(nextId)
      ensures deleted <==> old(GroupById(rows, id)).Some?
      ensures rows == WithoutId(old(rows), id)
    {
      deleted := GroupById(rows, id).Some?;
      WithoutIdKeepsKeyed(rows, id);
      rows := WithoutId(rows, id);
    }
  }

  /** The rows after the first of a keyed table are keyed, and none of them
      shares a key with the first. */
  lemma KeyedTail(rows: seq<Group>)
    requires Keyed(rows) && rows != []
    ensures Keyed(rows[1..])
    ensures forall g :: g in rows[1..] ==> g.id != rows[0].id && g.vkId != rows[0].vkId
  {
    var tail := rows[1..];
    forall i, j | 0 <= i < j < |tail|
      ensures tail[i].id != tail[j].id && tail[i].vkId != tail[j].vkId
    {
      assert tail[i] == rows[i + 1] && tail[j] == rows[j + 1];
    }
    forall g | g in tail ensures g.id != rows[0].id && g.vkId != rows[0].vkId {
      var m :| 0 <= m < |tail| && tail[m] == g;
      assert rows[m + 1] == g;
    }
  }

  /** A row whose keys no row of a keyed table holds can go in front of it. */
  lemma KeyedCons(x: Group, rest: seq<Group>)
    requires Keyed(rest)
    requires forall g :: g in rest ==> g.id != x.id && g.vkId != x.vkId
    ensures Keyed([x] + rest)
  {
    var r := [x] + rest;
    forall i, j | 0 <= i < j < |r|
      ensures r[i].id != r[j].id && r[i].vkId != r[j].vkId
    {
      assert r[j] == rest[j - 1];
      if i > 0 {
        assert r[i] == rest[i - 1];
      }
    }
  }

  /** Giving one row a platform id that no other row holds keeps the table
      keyed. */
  lemma RenamedRowKeepsKeyed(rows: seq<Group>, i: nat, vkId: string)
    requires Keyed(rows) && i < |rows|
    requires GroupByVkId(rows, vkId).None? || GroupByVkId(rows, vkId).value.id == rows[i].id
    ensures Keyed(rows[i := rows[i].(vkId := vkId)])
    ensures forall j :: 0 <= j < |rows| && j != i ==> rows[j].id != rows[i].id
  {
    var holder := GroupByVkId(rows, vkId);
    forall j | 0 <= j < |rows| && j != i ensures rows[j].vkId != vkId {
      if holder.Some? {
        var m :| 0 <= m < |rows| && rows[m] == holder.value;
        assert m == i;
      }
    }
  }

  /** Deleting keeps the table keyed. */
  lemma {:induction false} WithoutIdKeepsKeyed(rows: seq<Group>, id: int)
    requires Keyed(rows)
    ensures Keyed(WithoutId(rows, id))
  {
    if rows != [] {
      KeyedTail(rows);
      WithoutIdKeepsKeyed(rows[1..], id);
      if rows[0].id != id {
        KeyedCons(rows[0], WithoutId(rows[1..], id));
      }
    }
  }
}
