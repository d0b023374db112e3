# ideas — a model of the curses idea manager

`ideas.py` is a terminal program that keeps a list of ideas in one SQLite
table (`id`, `title`, `pos`, `created_date`, `notes`, `archived`) and shows
them in a scrolling curses list. The program can:

- add, delete, archive, edit and reorder ideas;
- show the list sorted by position or by creation date.

The Dafny project models four parts of it:

- **The table** (`Ideas`, `IdeaStore`):
  - the five write statements;
  - the two scan orders of `get_ideas`.

  The table is a class `Store` whose `rows` and `nextId` the write methods update in place. Each update is stated through a pure function in `Ideas`, and the lemmas beside those functions prove what the program relies on:
  - ids and positions stay unique;
  - scans come back sorted and are permutations of the table;
  - an appended idea is listed last by position;
  - archiving or editing never moves an idea in position order, and never changes the dates listed in date order;
  - with unique positions the by-position scan is the only listing the database can return, so it does not depend on how ties are broken;
  - writing back a rearranged list makes the table list the ideas in that order (`Reordering`).
- **The line editor** `get_line_with_esc` (`LineEditor`): a `while` loop over the keys the window delivers, proved equal to a pure function of those keys.
- **The dialog** `dialog_template_idea` (`Dialog`): title entry, the blank-title fallback, stripped notes and the y/n/ESC confirmation loop.
- **The main loop** (`MainLoop`):
  - the view state of `main` (sort order, selection, scroll offset, moving index, rearranged list) is the class `App`;
  - one pass of `while True` is `App.Step`, split the way the loop body is:
    - the too-small check;
    - the clamp and scroll refresh;
    - the key dispatch, separately for idle and move mode;
  - `Session` runs the loop over a sequence of inputs.

  `App.Valid` is the invariant every step keeps:
  - the table is valid;
  - positions are unique;
  - the scroll offset is never negative;
  - move mode happens only while sorted by position;
  - the rearranged list is a permutation of the table;
  - the moving index is the selection and lies in `[0, max(0, n-1)]` for a list of `n` ideas.

The notes preview (`Text.TruncateNotes`) and the visible-row count
(`Viewport.VisibleIdeas`) are modelled as functions.

Two behaviours of the code that are easy to miss, both modelled as written:

- The code (`ideas.py:261-264`) moves the scroll offset only as far as needed to keep the selection on screen; it never clamps it to `count - visible`. `Viewport.ScrollTo` models that, and `App.Valid` keeps the offset non-negative only.
- After Down on an empty idle list the selection is `-1` until the next refresh clamps it back to 0 (`ideas.py:332`, `256-259`). `App.MoveSelection` states exactly that value.

## Model

| member | source | states |
|---|---|---|
| Text.IsSpace | ideas.py:193 | the whitespace of `str.strip()`: space, tab, newline, carriage return, vertical tab and form feed count; digits, letters and `_` do not; no character above U+3000 counts |
| Text.Strip | ideas.py:193 | `str.strip()`: the result neither starts nor ends with whitespace; it is empty exactly when the input is all whitespace; it is a middle slice of the input with only whitespace outside it |
| Text.StripIdempotent | ideas.py:193 | stripping an already stripped string changes nothing, so stored notes are stable under a second strip |
| Text.StripPadded | ideas.py:193 | whitespace on both sides of a word without outer whitespace is exactly what strip removes |
| Text.TruncateNotes | ideas.py:270 | notes of at most 50 characters are shown unchanged; longer notes show their first 50 characters followed by "..." (53 in all) |
| Ideas.MaxPos | ideas.py:36-37 | `MAX(pos)` of a non-empty table is the position of some row, and every row's position is at most it |
| Ideas.NewPos | ideas.py:36-38 | the new position is 0 on an empty table; otherwise it is one past the position of some row and larger than every position |
| Ideas.AppendKeepsPosUnique | ideas.py:36-43 | appending a row at the new position keeps positions unique |
| Ideas.Deleted | ideas.py:51 | `DELETE ... WHERE id = ?` never adds rows |
| Ideas.DeletedMembers | ideas.py:46-52 | after the delete, a row is in the table if and only if it was there before and its id is not the deleted one |
| Ideas.DeletedKeepsUnique | ideas.py:46-52 | deleting keeps ids unique and keeps positions unique |
| Ideas.SetPos | ideas.py:77 | one `UPDATE ideas SET pos = ? WHERE id = ?`: rows with that id get the new position, and nothing else changes |
| Ideas.Reordered | ideas.py:70-78 | the table after the enumerate loop: only positions change; a row whose id is not in the list is untouched; a row whose id is in the list gets the last index at which its id occurs |
| Ideas.ReorderedSnoc | ideas.py:75-77 | one more `UPDATE ... SET pos` of the enumerate loop extends the reordering by that id at the next index |
| Ideas.ReorderedPositions | ideas.py:70-78 | for a list with distinct ids: the idea at index i of the list gets position i; rows not in the list are untouched; no field other than `pos` changes |
| Ideas.WithArchived | ideas.py:86 | `UPDATE ideas SET archived = ? WHERE id = ?`: rows with that id get the new flag, and nothing else changes |
| Ideas.WithInfo | ideas.py:94-98 | `UPDATE ideas SET title = ?, notes = ? WHERE id = ?`: rows with that id get the new title and notes, and nothing else changes |
| Ideas.ToggleTwiceRestores | ideas.py:80-87 | toggling with the flag read from the table flips exactly that row's flag and leaves every other row alone; a second toggle restores the table |
| Ideas.UpdatesKeepKeys | ideas.py:80-99 | the archive and info updates keep every id and position, so both uniqueness invariants survive them |
| Ideas.HeadsDiffer | ideas.py:65 | helper: strings that differ in their first character compare by that character |
| Ideas.HeadsAgree | ideas.py:65 | helper: strings with the same first character compare like their remainders |
| Ideas.TextLe | ideas.py:65 | the TEXT order of `ORDER BY created_date` (binary collation): `a` sorts first exactly when it is a prefix of `b` or has the smaller code point where they first differ |
| Ideas.TextLeTotal | ideas.py:65 | `ORDER BY created_date` compares TEXT totally (binary collation) |
| Ideas.TextLeTransitive | ideas.py:65 | that comparison is transitive |
| Ideas.InOrderTotal | ideas.py:62-67 | in either scan order, any two rows are comparable |
| Ideas.InOrderTransitive | ideas.py:62-67 | each scan order is transitive |
| Ideas.Insert | ideas.py:62-68 | one insertion step of the scan adds exactly the inserted row (as a multiset) |
| Ideas.ConsSorted | ideas.py:62-68 | a head that may precede every row of a sorted tail gives a sorted list |
| Ideas.InsertSorted | ideas.py:62-68 | inserting into a sorted list keeps it sorted |
| Ideas.Scan | ideas.py:54-68 | `get_ideas` returns every row exactly once: a permutation of the table with the same length |
| Ideas.ScanSorted | ideas.py:62-67 | `get_ideas` returns its rows sorted on `pos` or on `created_date` |
| Ideas.InsertAfterAll | ideas.py:62-68 | a row that may follow every listed row is inserted at the end |
| Ideas.AppendedListedLast | ideas.py:356-358 | appending a row that sorts strictly after every row makes the new scan the old scan followed by that row, so `len(ideas) - 1` selects it |
| Ideas.AppendedLastInAnyListing | ideas.py:356-358 | in every sorted arrangement of the table, whatever order ties are given, a row that sorts strictly after all others is last |
| Ideas.AddedIdeaListedLast | ideas.py:36-38 | by position, the row `add_idea` writes is always listed last |
| Ideas.ConsSameKeys | ideas.py:62-68 | helper: equal sort keys at the head and in the tail carry over to the whole list |
| Ideas.InsertSameKeys | ideas.py:62-68 | an insertion step looks at the sort column only |
| Ideas.ScanSameKeys | ideas.py:54-68 | read down the listing, the sorted column (positions or dates) depends only on that column of the table; this does not depend on how ties are broken |
| Ideas.UpdatesKeepListedKeys | ideas.py:80-99 | archiving or editing leaves the listed column, positions or dates, as it was in either order |
| Ideas.SamePositionsSameListing | ideas.py:63 | with unique positions, tables that agree on ids and positions row by row list the same ids by position |
| Ideas.UpdatesKeepScanOrder | ideas.py:369-381 | with unique positions, archiving or editing an idea never changes where any idea is listed by position |
| IdeaStore.Store.constructor | ideas.py:17-24 | a new table is empty and valid, and AUTOINCREMENT starts at 1 |
| IdeaStore.Store.AddIdea | ideas.py:29-44 | `add_idea` appends exactly one row: the next id, the new position, today's date, the given title and notes, not archived; ids stay unique |
| IdeaStore.Store.DeleteIdea | ideas.py:46-52 | `delete_idea` leaves exactly the rows with another id; nothing is renumbered |
| IdeaStore.Store.UpdateIdeaOrder | ideas.py:70-78 | the enumerate loop gives the table exactly the reordered positions (loop invariant: the first i updates are applied) |
| IdeaStore.Store.ToggleIdeaArchived | ideas.py:80-87 | the row with that id gets the negation of the flag passed in; nothing else changes |
| IdeaStore.Store.UpdateIdeaInfo | ideas.py:89-99 | the row with that id gets the new title and notes; nothing else changes |
| Reordering.UniqueCountsOne | ideas.py:18 | with unique ids, no row occurs twice |
| Reordering.TwiceCountsTwo | ideas.py:70-78 | helper: a row at two indices has multiplicity at least two |
| Reordering.PermutationKeepsUnique | ideas.py:387 | a permutation of the table (the list snapshot taken for move mode) has unique ids, and unique positions if the table has them |
| Reordering.Gap | ideas.py:75 | helper: strictly increasing positions grow by at least the index distance |
| Reordering.PositionsAreIndices | ideas.py:75 | strictly increasing positions in `[0, n)` are exactly the indices 0..n-1 |
| Reordering.TailKeepsOrder | ideas.py:63 | helper: dropping the first row keeps positions unique and the list sorted |
| Reordering.SameFirstRow | ideas.py:63 | two sorted arrangements of the same rows, with unique positions, start with the same row |
| Reordering.SortedByPosDetermined | ideas.py:63 | with unique positions, any two sorted arrangements of the same rows by position are equal |
| Reordering.ScanIsTheListing | ideas.py:62-63 | with unique ids and positions, every listing `ORDER BY pos` may return is exactly the model's by-position scan |
| Reordering.RenumberedByPermutation | ideas.py:70-78 | writing the indices of a permutation of the table as positions: positions become unique, each row's position indexes its own entry in the list, ids stay unique |
| Reordering.ScanOfRenumbered | ideas.py:63 | sorting such a table by position lists the ideas of the list in its order, with positions 0..n-1 |
| Reordering.ConfirmedOrder | ideas.py:389-393 | after confirming a move, the table keeps unique ids, gains unique positions, and lists the ideas exactly as they were arranged |
| Reordering.EnterConfirmKeepsOrder | ideas.py:386-393 | entering move mode and confirming at once leaves the listing order as it was |
| LineEditor.Edit | ideas.py:113-122 | one editing key: Backspace, DEL or Ctrl-H drops the last character (if any); any other key is appended exactly when the buffer is shorter than the maximum; the buffer never grows past the maximum |
| LineEditor.Typed | ideas.py:113-122 | the edit buffer never exceeds the maximum length |
| LineEditor.LineInput | ideas.py:101-123 | the text returned never exceeds `max_length` |
| LineEditor.EscapeCancels | ideas.py:109-110 | ESC before any Enter cancels, whatever was typed before or after |
| LineEditor.EnterSubmits | ideas.py:111-112 | Enter (KEY_ENTER or newline) with no terminator before it returns the buffer typed so far; keys after it are never read |
| LineEditor.EraseStep | ideas.py:113-118 | Backspace, DEL or Ctrl-H drops the last character, and does nothing on an empty buffer |
| LineEditor.TypeStep | ideas.py:119-122 | any other key is appended while the buffer is shorter than the maximum and dropped after that |
| LineEditor.GetLineWithEsc | ideas.py:101-123 | the reading loop returns exactly `LineInput` of the keys (loop invariant: the buffer is `Typed` of the keys read so far) |
| Dialog.Confirmed | ideas.py:203-208 | the dialog is refused exactly when the first answer key is n, N or ESC |
| Dialog.OtherKeysIgnored | ideas.py:201-208 | a key other than y, Y, n, N or ESC at the prompt is ignored: it changes neither whether nor how the prompt is answered |
| Dialog.ReadConfirmation | ideas.py:199-208 | the confirmation loop answers yes exactly when the first answer key is y or Y |
| Dialog.KeptTitle | ideas.py:188-189 | a blank title entry falls back to the initial title; any other entry is kept as typed |
| Dialog.Outcome | ideas.py:134-208 | an accepted dialog returns stripped notes, and either the initial title or a non-blank title of at most 66 characters |
| Dialog.OutcomeCases | ideas.py:181-208 | the dialog is cancelled if and only if the title is cancelled, the notes are cancelled, or the answer is n/N/ESC; otherwise it returns the kept title and the stripped notes |
| Dialog.Run | ideas.py:179-208 | the dialog's steps in program order return exactly `Outcome` |
| Dialog.EditWithEmptyTitle | ideas.py:186-193 | pressing Enter on an empty title and confirming with y keeps the initial title and stores the notes without their outer whitespace |
| Viewport.VisibleIdeas | ideas.py:241 | `(max_y - 2) // 2` is the largest number of two-row ideas that fit above the two reserved rows |
| Viewport.Clamp | ideas.py:256-259 | the clamped selection is a valid index (0 on an empty list), and no valid index is nearer the old selection |
| Viewport.ScrollTo | ideas.py:261-264 | after the adjustment the selection is on screen; of all offsets that show it, the result is nearest the old offset; it is non-negative when selection and old offset are |
| MainLoop.Swap | ideas.py:326-327 | the swap exchanges the two entries, leaves the others alone and keeps the list a permutation |
| MainLoop.OrderChoice | ideas.py:344-349 | the reply selects position order exactly when it strips to i or I, and date order exactly when it strips to d or D; anything else selects nothing |
| MainLoop.SwapThenConfirm | ideas.py:321-337 | whatever swap is made in move mode, confirming then lists the ideas in the swapped order |
| MainLoop.App.constructor | ideas.py:231-236 | `main` starts sorted by position, with selection 0, scroll 0 and not moving; the invariant holds |
| MainLoop.App.Step | ideas.py:238-393 | one iteration keeps the invariant; it quits exactly on q; it flashes exactly on space while sorted by date with room to draw; on a too-small terminal nothing changes; q never writes to the table |
| MainLoop.App.Refresh | ideas.py:251-264 | the selection becomes the clamped selection and the offset the adjusted one, so the selection is inside the list and on screen; nothing else changes |
| MainLoop.App.IdleKey | ideas.py:317-393 | outside move mode, each key's whole effect: q, resize and unbound keys change nothing; up/down; o; a (the dialog outcome appended with the last row selected); delete; d; e; space (flash while sorted by date, otherwise enter move mode with a fresh by-position snapshot) |
| MainLoop.App.MovingKey | ideas.py:317-393 | in move mode only q, up, down and space act; up and down swap the moving idea with its neighbour unless it is at the end; space writes the arranged list's order and leaves move mode on the moved idea |
| MainLoop.App.MoveSelection | ideas.py:321-332 | idle up/down moves the selection by one: no lower than 0 and no higher than the last index |
| MainLoop.App.MoveIdea | ideas.py:321-338 | the moving idea swaps with its neighbour and the selection follows it; at the top (up) or the bottom (down) nothing changes |
| MainLoop.App.ChangeOrder | ideas.py:339-351 | after o, the order is the chosen one (or unchanged on any other reply), and selection and scroll go back to 0 |
| MainLoop.App.AddIdea | ideas.py:352-360 | on a confirmed dialog, one row is appended and the last row is selected; the offset scrolls down only if that row would be below the screen; a cancelled dialog changes nothing |
| MainLoop.App.DeleteSelected | ideas.py:361-368 | the selected idea's row is deleted; the selection is clamped to the shorter list and the scroll goes to 0; on an empty list nothing changes |
| MainLoop.App.ToggleSelected | ideas.py:369-373 | the selected idea's archived flag is flipped; on an empty list nothing changes |
| MainLoop.App.EditSelected | ideas.py:374-381 | the edit dialog, seeded with the selected idea's title, decides the new title and notes of that idea; if it is cancelled nothing changes |
| MainLoop.App.EnterMove | ideas.py:386-388 | space while sorted by position snapshots the by-position scan and starts moving the selected idea |
| MainLoop.App.ConfirmMove | ideas.py:389-393 | the arranged list (a permutation of the table) is written back as positions, and move mode ends on the moved idea |
| MainLoop.Session | ideas.py:238-249 | the loop keeps the invariant on every pass and stops at the first q, having read no q before it |

## Left out

- Drawing. The curses screen, colours, the dialog layout and the row rendering are not modelled, except for the notes preview and the row count. The flash is a returned boolean.
- Notes box. `curses.textpad.Textbox` editing and `notes_validator` are not modelled. The notes box is an input: the text it returns, or `None` when ESC cancels it.
- Database plumbing. Connecting, `commit`, `close` and `init_db`'s `CREATE TABLE IF NOT EXISTS` are not modelled. Every write is taken as committed at once. The constructor is an empty, freshly created table.
- Clock. `datetime.date.today()` is the `today` parameter.
- Ordering reply. The reply to the ordering prompt is the `answer` parameter. `.decode('utf-8')` failures are not modelled.
- Wrappers. `argparse` and `curses.wrapper` are not modelled.
- Ties. SQLite returns rows with equal sort keys in no promised order. The model's scan keeps rowid order among them.
  - Under position order with unique ids and positions, which `App.Valid` keeps, there are no ties. `Reordering.ScanIsTheListing` proves the model's scan is the only listing the database can return.
  - Under date order the sequence of dates listed does not depend on ties (`Ideas.ScanSameKeys`), and `Ideas.AppendedLastInAnyListing` holds for every sorted arrangement.
  - Which of several ideas dated the same day sits at a given index is the model's choice. So under date order, the idea that Del, `d` and `e` act on in `MainLoop.App.IdleKey`'s contract is the one at that index in the model's listing.
- Ideas.AppendedListedLast: it needs the new row to sort strictly after every stored row. Under date order, an idea added on the same day as the newest stored one ties with it, and the source's `len(ideas) - 1` may then select either one.
- Ideas.UpdatesKeepScanOrder: it is stated for position order only. Under date order the listed dates are preserved (`Ideas.UpdatesKeepListedKeys`), but the order of same-day ideas may change from one scan to the next.
- Key codes: they are modelled below 0xD800. `getch` codes, including the extended codes above KEY_MAX, are far below that. A code that is not a valid character cannot be typed into the title.
- Reading loops. `get_line_with_esc` and the confirmation loop are modelled only on key sequences that contain a terminating key (`LineEditor.Terminated`, `Dialog.Answered`). A loop that waits forever is not modelled.
- `.lower()` is modelled only where it matters, for the letters i/I and d/D.
- Python's `//` equals Dafny's `/` for the positive divisor 2.
- MainLoop.App.MovingKey: its contract states the stored rows after a confirm, not the resulting listing order. That order is proved separately by `Reordering.ConfirmedOrder` under the invariant `App.Valid` keeps.
- MainLoop.App.ConfirmMove: the same holds as for `MovingKey`.
- MainLoop.App.Step: its own contract states only quitting, the flash, the too-small terminal and the invariant. Each key's effect is stated by `Refresh`, `IdleKey` and `MovingKey`, which `Step` runs in that order.
- MainLoop.App.AddIdea: the refetch at `ideas.py:357` is replaced by the row count, `len(get_ideas(...))`. `Ideas.Scan` proves the two are equal.
- Move mode: q while moving ends the program without writing the arranged order, as the source does.
- IdeaStore.Store.UpdateIdeaOrder: the method accepts any list. Unique positions after it are proved only for a permutation of the table (`Reordering.RenumberedByPermutation`), which is the only list the program passes.
- Integer widths. SQLite integers are 64-bit. The model uses unbounded ids and positions, because the program never comes near the limit.
