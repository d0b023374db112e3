/**
 * The state and keystroke logic of `main`: one iteration of its `while True`
 * loop is `App.Step`, the loop itself `Session`. The terminal height, the
 * key read, what the user does in a dialog or at the ordering prompt, and
 * today's date are inputs; drawing and the flash are outputs left abstract.
 */
module MainLoop {
  import opened Wrappers
  import opened Keys
  import opened Text
  import opened Ideas
  import opened IdeaStore
  import opened Viewport
  import Dialog
  import Reordering

  /** `reorder_list[i], reorder_list[j] = reorder_list[j], reorder_list[i]`. */
  function Swap(list: seq<Idea>, i: nat, j: nat): (r: seq<Idea>)
    requires i < |list| && j < |list|
    ensures |r| == |list| && r[i] == list[j] && r[j] == list[i]
    ensures forall k :: 0 <= k < |list| && k != i && k != j ==> r[k] == list[k]
    ensures multiset(r) == multiset(list)
  {
    list[i := list[j]][j := list[i]]
  }

  /**
   * The reply to "Order ideas by (i) ideas or (d) date?" after `.strip().lower()`:
   * only the letters i and I lower to "i", only d and D to "d".
   */
  function OrderChoice(answer: string): (r: Option<SortMode>)
    ensures r == Some(ByPos) <==> Strip(answer) == "i" || Strip(answer) == "I"
    ensures r == Some(ByDate) <==> Strip(answer) == "d" || Strip(answer) == "D"
  {
    var t := Strip(answer);
    if t == "i" || t == "I" then Some(ByPos)
    else if t == "d" || t == "D" then Some(ByDate)
    else None
  }

  /**
   * Moving an idea up or down and confirming: whatever the swap, the table
   * afterwards lists the ideas in the swapped order.
   */
  lemma SwapThenConfirm(rows: seq<Idea>, list: seq<Idea>, i: nat, j: nat)
    requires IdsUnique(rows) && multiset(list) == multiset(rows)
    requires i < |list| && j < |list|
    ensures IdsOf(Scan(Reordered(rows, IdsOf(Swap(list, i, j))), ByPos)) == IdsOf(Swap(list, i, j))
  {
    Reordering.ConfirmedOrder(rows, Swap(list, i, j));
  }

  predicate IsDeleteKey(key: KeyCode) {
    key == KEY_DC || key == KEY_BACKSPACE || key == ASCII_DEL
  }

  /** The keys guarded by `moving_idea_index is None`. */
  predicate IsListCommand(key: KeyCode) {
    key == KEY_O || key == KEY_A || IsDeleteKey(key) || key == KEY_D || key == KEY_E
  }

  /** Keys whose dispatch changes nothing: quit, resize, unbound keys, and list commands while moving. */
  predicate Inert(key: KeyCode, moving: bool) {
    key != KEY_UP && key != KEY_DOWN && key != SPACE && (moving || !IsListCommand(key))
  }

  class App {
    const store: Store
    var currentOrder: SortMode
    var currentSelection: int
    var scrollOffset: int
    var movingIndex: Option<int>
    var reorderList: Option<seq<Idea>>

    /**
     * Move mode is entered only while sorted by position; its list stays a
     * permutation of the table (nothing writes to the table while moving);
     * the selection follows the moving index, which stays inside the list.
     */
    ghost predicate Valid()
      reads this, store
    {
      store.Valid() && PosUnique(store.rows) && 0 <= scrollOffset &&
      (movingIndex.Some? <==> reorderList.Some?) &&
      (movingIndex.Some? ==>
        currentOrder == ByPos &&
        multiset(reorderList.value) == multiset(store.rows) &&
        currentSelection == movingIndex.value &&
        0 <= movingIndex.value <= Max(0, |reorderList.value| - 1))
    }

    /** The state `main` starts in, over an opened table. */
    constructor (store: Store)
      requires store.Valid() && PosUnique(store.rows)
      ensures Valid() && this.store == store
      ensures currentOrder == ByPos && currentSelection == 0 && scrollOffset == 0
      ensures movingIndex == None && reorderList == None
    {
      this.store := store;
      currentOrder := ByPos;
      currentSelection := 0;
      scrollOffset := 0;
      movingIndex := None;
      reorderList := None;
    }

    /** `ideas` of the loop: a fresh scan, or the list being rearranged. */
    ghost function Shown(): seq<Idea>
      reads this, store
      requires Valid()
    {
      if movingIndex.None? then Scan(store.rows, currentOrder) else reorderList.value
    }

    ghost function ClampedSelection(): int
      reads this, store
      requires Valid()
    {
      Clamp(currentSelection, |Shown()|)
    }

    ghost function ClampedScroll(visible: int): int
      reads this, store
      requires Valid() && visible >= 1
    {
      ScrollTo(ClampedSelection(), scrollOffset, visible)
    }

    /**
     * One iteration of the main loop: on a terminal too small for one idea
     * only q does anything; otherwise refresh the view, then act on the key.
     */
    method Step(height: int, key: KeyCode, dialog: Dialog.Input, answer: string, today: string)
      returns (quit: bool, flash: bool)
      requires Valid() && Dialog.Complete(dialog)
      modifies this, store
      ensures Valid()
      ensures quit <==> key == KEY_Q
      ensures flash <==> VisibleIdeas(height) >= 1 && key == SPACE && old(currentOrder) != ByPos
      ensures key == KEY_Q ==> unchanged(store)
      ensures VisibleIdeas(height) < 1 ==> unchanged(this) && unchanged(store)
    {
      var visible := VisibleIdeas(height);
      if visible < 1 {
        quit, flash := key == KEY_Q, false;
        return;
      }
      Refresh(visible);
      if movingIndex.None? {
        quit, flash := IdleKey(visible, key, dialog, answer, today);
      } else {
        quit := MovingKey(key);
        flash := false;
      }
    }

    /** The selection and scroll offset are where the refresh at the top of the loop leaves them. */
    ghost predicate InView(visible: int)
      reads this, store
      requires Valid()
    {
      0 <= currentSelection <= Max(0, |Shown()| - 1) &&
      scrollOffset <= currentSelection < scrollOffset + visible
    }

    /** Lines 251-264: clamp the selection into the list and scroll it into view. */
    method Refresh(visible: int)
      requires Valid() && visible >= 1
      modifies this
      ensures Valid() && InView(visible)
      ensures currentSelection == old(ClampedSelection()) && scrollOffset == old(ClampedScroll(visible))
      ensures currentOrder == old(currentOrder) && movingIndex == old(movingIndex) && reorderList == old(reorderList)
      ensures Shown() == old(Shown())
    {
      var ideas := if movingIndex.None? then Scan(store.rows, currentOrder) else reorderList.value;
      var numIdeas := |ideas|;
      currentSelection := Clamp(currentSelection, numIdeas);
      scrollOffset := ScrollTo(currentSelection, scrollOffset, visible);
    }

    /** Lines 320-393 outside move mode: act on one key, with the view as the refresh left it. */
    method IdleKey(visible: int, key: KeyCode, dialog: Dialog.Input, answer: string, today: string)
      returns (quit: bool, flash: bool)
      requires Valid() && visible >= 1 && InView(visible) && movingIndex.None? && Dialog.Complete(dialog)
      modifies this, store
      ensures Valid()
      ensures quit <==> key == KEY_Q
      ensures flash <==> key == SPACE && old(currentOrder) != ByPos
      ensures Inert(key, false) || flash ==> unchanged(this) && unchanged(store)
      ensures key == KEY_UP || key == KEY_DOWN ==>
        unchanged(store) && currentOrder == old(currentOrder) && movingIndex == None && reorderList == None &&
        scrollOffset == old(scrollOffset) &&
        currentSelection == if key == KEY_UP then Max(0, old(currentSelection) - 1)
                            else Min(|old(Shown())| - 1, old(currentSelection) + 1)
      ensures key == KEY_O ==>
        unchanged(store) && movingIndex == None && reorderList == None &&
        currentOrder == (if OrderChoice(answer).Some? then OrderChoice(answer).value else old(currentOrder)) &&
        currentSelection == 0 && scrollOffset == 0
      ensures key == KEY_A ==>
        var top := old(scrollOffset);
        var outcome := Dialog.Outcome("", dialog);
        currentOrder == old(currentOrder) && movingIndex == None && reorderList == None &&
        (outcome.None? ==> unchanged(store) && currentSelection == old(currentSelection) && scrollOffset == top) &&
        (outcome.Some? ==>
          store.rows == old(store.rows) +
            [Idea(old(store.nextId), outcome.value.0, NewPos(old(store.rows)), today, outcome.value.1, false)] &&
          store.nextId == old(store.nextId) + 1 &&
          currentSelection == |old(store.rows)| &&
          scrollOffset == if currentSelection >= top + visible then currentSelection - visible + 1 else top)
      ensures IsDeleteKey(key) ==>
        var shown, sel := old(Shown()), old(currentSelection);
        currentOrder == old(currentOrder) && movingIndex == None && reorderList == None &&
        (shown == [] ==> unchanged(store) && currentSelection == sel && scrollOffset == old(scrollOffset)) &&
        (shown != [] ==> store.rows == Deleted(old(store.rows), shown[sel].id) &&
                         store.nextId == old(store.nextId) &&
                         currentSelection == (if sel >= |store.rows| then Max(0, |store.rows| - 1) else sel) &&
                         scrollOffset == 0)
      ensures key == KEY_D ==>
        var shown, sel := old(Shown()), old(currentSelection);
        currentOrder == old(currentOrder) && movingIndex == None && reorderList == None &&
        currentSelection == sel && scrollOffset == old(scrollOffset) &&
        store.nextId == old(store.nextId) &&
        store.rows == if shown == [] then old(store.rows)
                      else WithArchived(old(store.rows), shown[sel].id, !shown[sel].archived)
      ensures key == KEY_E ==>
        var shown, sel := old(Shown()), old(currentSelection);
        var outcome := if shown == [] then None else Dialog.Outcome(shown[sel].title, dialog);
        currentOrder == old(currentOrder) && movingIndex == None && reorderList == None &&
        currentSelection == sel && scrollOffset == old(scrollOffset) &&
        store.nextId == old(store.nextId) &&
        store.rows == if outcome.None? then old(store.rows)
                      else WithInfo(old(store.rows), shown[sel].id, outcome.value.0, outcome.value.1)
      ensures key == SPACE && !flash ==>
        unchanged(store) && currentOrder == ByPos &&
        reorderList == Some(Scan(old(store.rows), ByPos)) && movingIndex == Some(old(currentSelection)) &&
        currentSelection == old(currentSelection) && scrollOffset == old(scrollOffset)
    {
      quit, flash := false, false;
      if key == KEY_Q {
        quit := true;
      } else if key == KEY_UP || key == KEY_DOWN {
        MoveSelection(key == KEY_UP);
      } else if key == KEY_O {
        ChangeOrder(answer);
      } else if key == KEY_A {
        var newIdea := Dialog.Run("", dialog);
        AddIdea(newIdea, today, visible);
      } else if IsDeleteKey(key) {
        DeleteSelected();
      } else if key == KEY_D {
        ToggleSelected();
      } else if key == KEY_E {
        EditSelected(dialog);
      } else if key == SPACE {
        if currentOrder != ByPos {
          flash := true;
        } else {
          EnterMove();
        }
      }
    }

    /**
     * Lines 320-393 in move mode: only up, down, space and q do anything;
     * up and down carry the moving idea, space writes the new order.
     */
    method MovingKey(key: KeyCode) returns (quit: bool)
      requires Valid() && movingIndex.Some?
      modifies this, store
      ensures Valid()
      ensures quit <==> key == KEY_Q
      ensures Inert(key, true) ==> unchanged(this) && unchanged(store)
      ensures key == KEY_UP ==>
        var m := old(movingIndex).value;
        unchanged(store) && currentOrder == old(currentOrder) && scrollOffset == old(scrollOffset) &&
        (m > 0 ==> reorderList == Some(Swap(old(reorderList).value, m, m - 1)) &&
                   movingIndex == Some(m - 1) && currentSelection == m - 1) &&
        (m == 0 ==> reorderList == old(reorderList) && movingIndex == old(movingIndex) && currentSelection == m)
      ensures key == KEY_DOWN ==>
        var m, n := old(movingIndex).value, |old(reorderList).value|;
        unchanged(store) && currentOrder == old(currentOrder) && scrollOffset == old(scrollOffset) &&
        (m < n - 1 ==> reorderList == Some(Swap(old(reorderList).value, m, m + 1)) &&
                       movingIndex == Some(m + 1) && currentSelection == m + 1) &&
        (m >= n - 1 ==> reorderList == old(reorderList) && movingIndex == old(movingIndex) && currentSelection == m)
      ensures key == SPACE ==>
        multiset(old(reorderList).value) == multiset(old(store.rows)) &&
        store.rows == Reordered(old(store.rows), IdsOf(old(reorderList).value)) &&
        store.nextId == old(store.nextId) &&
        currentOrder == old(currentOrder) && movingIndex == None && reorderList == None &&
        currentSelection == old(movingIndex).value && scrollOffset == old(scrollOffset)
    {
      quit := key == KEY_Q;
      if key == KEY_UP || key == KEY_DOWN {
        MoveIdea(key == KEY_UP);
      } else if key == SPACE {
        // move mode is entered only while sorted by position, so no flash here
        ConfirmMove();
      }
    }

    /** Up or down while idle: move the selection by one, clamped to the list. */
    method MoveSelection(up: bool)
      requires Valid() && movingIndex.None?
      modifies this
      ensures Valid()
      ensures currentSelection == if up then Max(0, old(currentSelection) - 1)
                                  else Min(|old(Shown())| - 1, old(currentSelection) + 1)
      ensures currentOrder == old(currentOrder) && movingIndex == None && reorderList == None
      ensures scrollOffset == old(scrollOffset)
    {
      if up {
        currentSelection := Max(0, currentSelection - 1);
      } else {
        var numIdeas := |Scan(store.rows, currentOrder)|;
        currentSelection := Min(numIdeas - 1, currentSelection + 1);
      }
    }

    /**
     * Up or down while moving: swap the moving idea with its neighbour and
     * follow it; at the top (up) or the bottom (down) nothing happens.
     */
    method MoveIdea(up: bool)
      requires Valid() && movingIndex.Some?
      modifies this
      ensures Valid()
      ensures var m, list := old(movingIndex).value, old(reorderList).value;
        var target := if up then m - 1 else m + 1;
        if (up && m > 0) || (!up && m < |list| - 1) then
          reorderList == Some(Swap(list, m, target)) && movingIndex == Some(target) && currentSelection == target
        else
          reorderList == old(reorderList) && movingIndex == old(movingIndex) && currentSelection == m
      ensures currentOrder == old(currentOrder) && scrollOffset == old(scrollOffset)
    {
      var m := movingIndex.value;
      var list := reorderList.value;
      if (up && m > 0) || (!up && m < |list| - 1) {
        var target := if up then m - 1 else m + 1;
        var swapped := Swap(list, m, target);
        assert multiset(swapped) == multiset(store.rows);
        reorderList := Some(swapped);
        movingIndex := Some(target);
        currentSelection := target;
      }
    }

    /** `o`: ask for the order; i or d switches to it, anything else keeps it; either way back to the top. */
    method ChangeOrder(answer: string)
      requires Valid() && movingIndex.None?
      modifies this
      ensures Valid()
      ensures currentOrder == if OrderChoice(answer).Some? then OrderChoice(answer).value else old(currentOrder)
      ensures currentSelection == 0 && scrollOffset == 0 && movingIndex == None && reorderList == None
    {
      var choice := OrderChoice(answer);
      if choice.Some? {
        currentOrder := choice.value;
      }
      currentSelection := 0;
      scrollOffset := 0;
    }

    /** `a`, after the new-idea dialog: on success append the idea and select the last row. */
    method AddIdea(outcome: Option<(string, string)>, today: string, visible: int)
      requires Valid() && movingIndex.None? && visible >= 1
      modifies this, store
      ensures Valid()
      ensures currentOrder == old(currentOrder) && movingIndex == None && reorderList == None
      ensures
        (outcome.None? ==> unchanged(store) && currentSelection == old(currentSelection) &&
                           scrollOffset == old(scrollOffset)) &&
        (outcome.Some? ==>
          store.rows == old(store.rows) +
            [Idea(old(store.nextId), outcome.value.0, NewPos(old(store.rows)), today, outcome.value.1, false)] &&
          store.nextId == old(store.nextId) + 1 &&
          currentSelection == |old(store.rows)| &&
          scrollOffset == if currentSelection >= old(scrollOffset) + visible then currentSelection - visible + 1
                          else old(scrollOffset))
    {
      if outcome.Some? {
        var (title, notes) := outcome.value;
        AppendKeepsPosUnique(store.rows, Idea(store.nextId, title, NewPos(store.rows), today, notes, false));
        store.AddIdea(title, notes, today);
        // the refetched list has one entry per row
        currentSelection := |store.rows| - 1;
        if currentSelection >= scrollOffset + visible {
          scrollOffset := currentSelection - visible + 1;
        }
      }
    }

    /** Del or Backspace: delete the selected idea, keep the selection inside the list, scroll to the top. */
    method DeleteSelected()
      requires Valid() && movingIndex.None? && 0 <= currentSelection <= Max(0, |Shown()| - 1)
      modifies this, store
      ensures Valid()
      ensures currentOrder == old(currentOrder) && movingIndex == None && reorderList == None
      ensures var shown, sel := old(Shown()), old(currentSelection);
        (shown == [] ==> unchanged(store) && currentSelection == sel && scrollOffset == old(scrollOffset)) &&
        (shown != [] ==> store.rows == Deleted(old(store.rows), shown[sel].id) &&
                         store.nextId == old(store.nextId) &&
                         currentSelection == (if sel >= |store.rows| then Max(0, |store.rows| - 1) else sel) &&
                         scrollOffset == 0)
    {
      var ideas := Scan(store.rows, currentOrder);
      if |ideas| > 0 {
        var ideaId := ideas[currentSelection].id;
        DeletedKeepsUnique(store.rows, ideaId);
        store.DeleteIdea(ideaId);
        // the refetched list has one entry per row
        if currentSelection >= |store.rows| {
          currentSelection := Max(0, |store.rows| - 1);
        }
        scrollOffset := 0;
      }
    }

    /** `d`: flip the archived flag of the selected idea. */
    method ToggleSelected()
      requires Valid() && movingIndex.None? && 0 <= currentSelection <= Max(0, |Shown()| - 1)
      modifies store
      ensures Valid()
      ensures var shown, sel := old(Shown()), old(currentSelection);
        store.nextId == old(store.nextId) &&
        store.rows == if shown == [] then old(store.rows)
                      else WithArchived(old(store.rows), shown[sel].id, !shown[sel].archived)
    {
      var ideas := Scan(store.rows, currentOrder);
      if |ideas| > 0 {
        var idea := ideas[currentSelection];
        UpdatesKeepKeys(store.rows, idea.id, !idea.archived, "", "");
        store.ToggleIdeaArchived(idea.id, idea.archived);
      }
    }

    /** `e`: run the edit dialog seeded with the selected idea; on success store its title and notes. */
    method EditSelected(dialog: Dialog.Input)
      requires Valid() && movingIndex.None? && 0 <= currentSelection <= Max(0, |Shown()| - 1)
      requires Dialog.Complete(dialog)
      modifies store
      ensures Valid()
      ensures var shown, sel := old(Shown()), old(currentSelection);
        var outcome := if shown == [] then None else Dialog.Outcome(shown[sel].title, dialog);
        store.nextId == old(store.nextId) &&
        store.rows == if outcome.None? then old(store.rows)
                      else WithInfo(old(store.rows), shown[sel].id, outcome.value.0, outcome.value.1)
    {
      var ideas := Scan(store.rows, currentOrder);
      if |ideas| > 0 {
        var idea := ideas[currentSelection];
        var edited := Dialog.Run(idea.title, dialog);
        if edited.Some? {
          UpdatesKeepKeys(store.rows, idea.id, false, edited.value.0, edited.value.1);
          store.UpdateIdeaInfo(idea.id, edited.value.0, edited.value.1);
        }
      }
    }

    /** Space while idle and sorted by position: take a fresh by-position scan and start moving the selected idea. */
    method EnterMove()
      requires Valid() && movingIndex.None? && currentOrder == ByPos
      requires 0 <= currentSelection <= Max(0, |Shown()| - 1)
      modifies this
      ensures Valid()
      ensures reorderList == Some(Scan(store.rows, ByPos)) && movingIndex == Some(old(currentSelection))
      ensures currentOrder == ByPos && currentSelection == old(currentSelection) && scrollOffset == old(scrollOffset)
    {
      reorderList := Some(Scan(store.rows, currentOrder));
      movingIndex := Some(currentSelection);
    }

    /**
     * Space while moving: write the rearranged list's order to the table and
     * leave move mode with the selection on the moved idea. `Valid()` keeps
     * the list a permutation of the table, so by `Reordering.ConfirmedOrder`
     * the table then lists the ideas in the order they were arranged.
     */
    method ConfirmMove()
      requires Valid() && movingIndex.Some?
      modifies this, store
      ensures Valid()
      ensures multiset(old(reorderList).value) == multiset(old(store.rows))
      ensures store.rows == Reordered(old(store.rows), IdsOf(old(reorderList).value))
      ensures store.nextId == old(store.nextId)
      ensures currentOrder == old(currentOrder) && movingIndex == None && reorderList == None
      ensures currentSelection == old(movingIndex).value && scrollOffset == old(scrollOffset)
    {
      Reordering.RenumberedByPermutation(store.rows, reorderList.value);
      store.UpdateIdeaOrder(reorderList.value);
      currentSelection := movingIndex.value;
      movingIndex := None;
      reorderList := None;
    }
  }

  /** One pass of the loop's inputs: the terminal height, the key, and what the key's dialog or prompt gets. */
  datatype Tick = Tick(height: int, key: KeyCode, dialog: Dialog.Input, answer: string, today: string)

  /** `while True:` in `main`, over the inputs that arrive; it ends at the first q. */
  method Session(app: App, ticks: seq<Tick>) returns (quit: bool, steps: nat)
    requires app.Valid()
    requires forall i :: 0 <= i < |ticks| ==> Dialog.Complete(ticks[i].dialog)
    modifies app, app.store
    ensures app.Valid()
    ensures steps <= |ticks|
    ensures quit ==> 0 < steps && ticks[steps - 1].key == KEY_Q
    ensures !quit ==> steps == |ticks|
    ensures forall i :: 0 <= i < steps && (!quit || i < steps - 1) ==> ticks[i].key != KEY_Q
  {
    steps := 0;
    while steps < |ticks|
      invariant app.Valid()
      invariant steps <= |ticks|
      invariant forall i :: 0 <= i < steps ==> ticks[i].key != KEY_Q
    {
      var t := ticks[steps];
      var q, _ := app.Step(t.height, t.key, t.dialog, t.answer, t.today);
      steps := steps + 1;
      if q {
        return true, steps;
      }
    }
    return false, steps;
  }
}
