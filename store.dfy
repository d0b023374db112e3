/**
 * The sqlite connection as the program uses it: one table of ideas, changed
 * in place by the five write operations. Every write is committed at once;
 * the table is taken as durable.
 */
module IdeaStore {
  import opened Ideas

  class Store {
    /** The table's rows in rowid order. */
    var rows: seq<Idea>
    /** The id AUTOINCREMENT hands out next: larger than every id ever used. */
    var nextId: nat

    ghost predicate Valid()
      reads this
    {
      IdsUnique(rows) && forall x :: x in rows ==> x.id < nextId
    }

    /** A freshly created, empty table; AUTOINCREMENT starts at 1. */
    constructor ()
      ensures Valid() && rows == [] && nextId == 1
    {
      rows := [];
      nextId := 1;
    }

    /**
     * `add_idea`: append a row with the next id, position one past the largest
     * (0 on an empty table), today's date, the given title and notes, not archived.
     */
    method AddIdea(title: string, notes: string, today: string)
      requires Valid()
      modifies this
      ensures Valid()
      ensures rows == old(rows) + [Idea(old(nextId), title, NewPos(old(rows)), today, notes, false)]
      ensures nextId == old(nextId) + 1
    {
      var newPos := NewPos(rows);
      rows := rows + [Idea(nextId, title, newPos, today, notes, false)];
      nextId := nextId + 1;
    }

    /** `delete_idea`: remove the row with that id; nothing is renumbered. */
    method DeleteIdea(id: nat)
      requires Valid()
      modifies this
      ensures Valid()
      ensures rows == Deleted(old(rows), id) && nextId == old(nextId)
    {
      DeletedKeepsUnique(rows, id);
      DeletedMembers(rows, id);
      rows := Deleted(rows, id);
    }

    /** `update_idea_order`: for each entry of the list, in order, set that id's position to its index. */
    method UpdateIdeaOrder(order: seq<Idea>)
      requires Valid()
      modifies this
      ensures Valid()
      ensures rows == Reordered(old(rows), IdsOf(order)) && nextId == old(nextId)
    {
      var i := 0;
      while i < |order|
        invariant 0 <= i <= |order|
        invariant rows == Reordered(old(rows), IdsOf(order[..i]))
        invariant nextId == old(nextId)
      {
        ReorderedSnoc(old(rows), IdsOf(order[..i]), order[i].id);
        assert IdsOf(order[..i + 1]) == IdsOf(order[..i]) + [order[i].id];
        rows := SetPos(rows, order[i].id, i);
        i := i + 1;
      }
      assert order[..i] == order;
      assert forall k :: 0 <= k < |rows| ==> rows[k].id == old(rows)[k].id;
    }

    /** `toggle_idea_archived`: store the negation of the flag the caller read. */
    method ToggleIdeaArchived(id: nat, currentArchived: bool)
      requires Valid()
      modifies this
      ensures Valid()
      ensures rows == WithArchived(old(rows), id, !currentArchived) && nextId == old(nextId)
    {
      var newArchived := !currentArchived;
      UpdatesKeepKeys(rows, id, newArchived, "", "");
      assert forall x :: x in WithArchived(rows, id, newArchived) ==> x.id < nextId by {
        forall x | x in WithArchived(rows, id, newArchived) ensures x.id < nextId {
          var k :| 0 <= k < |rows| && WithArchived(rows, id, newArchived)[k] == x;
          assert rows[k] in rows;
        }
      }
      rows := WithArchived(rows, id, newArchived);
    }

    /** `update_idea_info`: overwrite title and notes of the row with that id. */
    method UpdateIdeaInfo(id: nat, title: string, notes: string)
      requires Valid()
      modifies this
      ensures Valid()
      ensures rows == WithInfo(old(rows), id, title, notes) && nextId == old(nextId)
    {
      UpdatesKeepKeys(rows, id, false, title, notes);
      assert forall x :: x in WithInfo(rows, id, title, notes) ==> x.id < nextId by {
        forall x | x in WithInfo(rows, id, title, notes) ensures x.id < nextId {
          var k :| 0 <= k < |rows| && WithInfo(rows, id, title, notes)[k] == x;
          assert rows[k] in rows;
        }
      }
      rows := WithInfo(rows, id, title, notes);
    }
  }
}
