/**
 * The `ideas` table: its records, the orders it is scanned in, and the
 * effect of each statement the program runs against it, as functions on the
 * table's rows (kept in insertion order, as SQLite's rowid order).
 */
module Ideas {

  /** One row `(id, title, pos, created_date, notes, archived)`; `archived` is the 0/1 column. */
  datatype Idea = Idea(id: nat, title: string, pos: int, createdDate: string, notes: string, archived: bool)

  /** `'pos'` or `'created_date'`, the two orders `get_ideas` knows. */
  datatype SortMode = ByPos | ByDate

  function IdsOf(list: seq<Idea>): (ids: seq<nat>)
    ensures |ids| == |list|
    ensures forall i :: 0 <= i < |list| ==> ids[i] == list[i].id
  {
    seq(|list|, i requires 0 <= i < |list| => list[i].id)
  }

  /** No two rows share an id (PRIMARY KEY AUTOINCREMENT). */
  predicate IdsUnique(rows: seq<Idea>) {
    forall i, j :: 0 <= i < j < |rows| ==> rows[i].id != rows[j].id
  }

  /** No two rows share a position. */
  predicate PosUnique(rows: seq<Idea>) {
    forall i, j :: 0 <= i < j < |rows| ==> rows[i].pos != rows[j].pos
  }

  // ---------------------------------------------------------------- add_idea

  /** `SELECT MAX(pos) FROM ideas` on a table that has rows. */
  function MaxPos(rows: seq<Idea>): (m: int)
    requires rows != []
    ensures forall x :: x in rows ==> x.pos <= m
    ensures exists x :: x in rows && x.pos == m
  {
    if |rows| == 1 then rows[0].pos
    else
      var m := MaxPos(rows[1..]);
      assert forall x :: x in rows ==> x == rows[0] || x in rows[1..];
      if rows[0].pos > m then rows[0].pos else m
  }

  /** The position of an appended idea: one past the largest, or 0 on an empty table. */
  function NewPos(rows: seq<Idea>): (p: int)
    ensures forall x :: x in rows ==> x.pos < p
    ensures rows == [] ==> p == 0
    ensures rows != [] ==> exists x :: x in rows && p == x.pos + 1
  {
    if rows == [] then 0 else MaxPos(rows) + 1
  }

  /** Appending a row at `NewPos` keeps positions unique (ids are the store's concern). */
  lemma AppendKeepsPosUnique(rows: seq<Idea>, x: Idea)
    requires PosUnique(rows) && x.pos == NewPos(rows)
    ensures PosUnique(rows + [x])
  {
    var r := rows + [x];
    forall i, j | 0 <= i < j < |r| ensures r[i].pos != r[j].pos {
      if j == |rows| { assert rows[i] in rows; }
    }
  }

  // ------------------------------------------------------------- delete_idea

  /** `DELETE FROM ideas WHERE id = ?`. */
  function Deleted(rows: seq<Idea>, id: nat): (r: seq<Idea>)
    ensures |r| <= |rows|
  {
    if rows == [] then []
    else (if rows[0].id == id then [] else [rows[0]]) + Deleted(rows[1..], id)
  }

  /** The rows left are exactly the rows whose id is not the one deleted. */
  lemma {:induction false} DeletedMembers(rows: seq<Idea>, id: nat)
    ensures forall x :: x in Deleted(rows, id) <==> x in rows && x.id != id
  {
    if rows != [] {
      DeletedMembers(rows[1..], id);
      assert forall x :: x in rows <==> x == rows[0] || x in rows[1..];
    }
  }

  /** A head whose id (position) no later row shares, on a unique tail, gives a unique table. */
  lemma ConsKeepsUnique(x: Idea, t: seq<Idea>)
    ensures IdsUnique(t) && (forall y :: y in t ==> y.id != x.id) ==> IdsUnique([x] + t)
    ensures PosUnique(t) && (forall y :: y in t ==> y.pos != x.pos) ==> PosUnique([x] + t)
  {
    var r := [x] + t;
    forall j | 1 <= j < |r| ensures r[j] == t[j - 1] && r[j] in t { }
  }

  /** In a unique table no later row shares the first row's id (position). */
  lemma HeadDistinct(rows: seq<Idea>)
    requires rows != []
    ensures IdsUnique(rows) ==> forall y :: y in rows[1..] ==> y.id != rows[0].id
    ensures PosUnique(rows) ==> forall y :: y in rows[1..] ==> y.pos != rows[0].pos
  {
    forall y | y in rows[1..] ensures exists k :: 1 <= k < |rows| && rows[k] == y {
      var k :| 0 <= k < |rows[1..]| && rows[1..][k] == y;
      assert rows[k + 1] == y;
    }
  }

  /** Deleting keeps ids and positions unique: the survivors are untouched rows. */
  lemma {:induction false} DeletedKeepsUnique(rows: seq<Idea>, id: nat)
    ensures IdsUnique(rows) ==> IdsUnique(Deleted(rows, id))
    ensures PosUnique(rows) ==> PosUnique(Deleted(rows, id))
  {
    if rows != [] {
      var tail := Deleted(rows[1..], id);
      assert IdsUnique(rows) ==> IdsUnique(rows[1..]);
      assert PosUnique(rows) ==> PosUnique(rows[1..]);
      DeletedKeepsUnique(rows[1..], id);
      if rows[0].id != id {
        DeletedMembers(rows[1..], id);
        HeadDistinct(rows);
        assert forall y :: y in tail ==> y in rows[1..];
        ConsKeepsUnique(rows[0], tail);
        assert Deleted(rows, id) == [rows[0]] + tail;
      } else {
        assert Deleted(rows, id) == tail;
      }
    }
  }

  // ------------------------------------------------------- update_idea_order

  /** The last index at which `id` occurs in `ids`, or -1. */
  function LastIndex(ids: seq<nat>, id: nat): (k: int)
    ensures -1 <= k < |ids|
    ensures k >= 0 ==> ids[k] == id && forall j :: k < j < |ids| ==> ids[j] != id
    ensures k == -1 <==> id !in ids
  {
    if ids == [] then -1
    else if ids[|ids| - 1] == id then |ids| - 1
    else
      assert forall x :: x in ids <==> x in ids[..|ids| - 1] || x == ids[|ids| - 1];
      LastIndex(ids[..|ids| - 1], id)
  }

  /** `UPDATE ideas SET pos = ? WHERE id = ?`. */
  function SetPos(rows: seq<Idea>, id: nat, p: int): (r: seq<Idea>)
    ensures |r| == |rows|
    ensures forall k :: 0 <= k < |rows| ==> r[k] == rows[k].(pos := r[k].pos)
    ensures forall k :: 0 <= k < |rows| ==> (rows[k].id == id ==> r[k].pos == p) && (rows[k].id != id ==> r[k] == rows[k])
  {
    seq(|rows|, k requires 0 <= k < |rows| => if rows[k].id == id then rows[k].(pos := p) else rows[k])
  }

  /**
   * The table after running the UPDATE of the `enumerate` loop once per entry of
   * `ids`: a row whose id occurs gets the last index it occurs at.
   */
  function Reordered(rows: seq<Idea>, ids: seq<nat>): (r: seq<Idea>)
    ensures |r| == |rows|
    ensures forall k :: 0 <= k < |rows| ==> r[k] == rows[k].(pos := r[k].pos)
    ensures forall k :: 0 <= k < |rows| && rows[k].id !in ids ==> r[k] == rows[k]
    ensures forall k :: 0 <= k < |rows| && rows[k].id in ids ==>
      0 <= r[k].pos < |ids| && ids[r[k].pos] == rows[k].id && rows[k].id !in ids[r[k].pos + 1..]
  {
    seq(|rows|, k requires 0 <= k < |rows| =>
      if rows[k].id in ids then rows[k].(pos := LastIndex(ids, rows[k].id)) else rows[k])
  }

  /** One more UPDATE of the loop extends the list of ids already applied. */
  lemma ReorderedSnoc(rows: seq<Idea>, ids: seq<nat>, id: nat)
    ensures Reordered(rows, ids + [id]) == SetPos(Reordered(rows, ids), id, |ids|)
  {
    var longer := ids + [id];
    assert longer[..|longer| - 1] == ids;
    forall x: nat ensures (x in longer <==> x in ids || x == id)
      && (x in longer ==> LastIndex(longer, x) == if x == id then |ids| else LastIndex(ids, x))
    {
    }
  }

  /**
   * What `update_idea_order` promises: with the ids of L distinct, the idea at
   * index i of L now has position i; a row whose id is not in L keeps its
   * position; no title, note, date, id or archived flag changes.
   */
  lemma ReorderedPositions(rows: seq<Idea>, order: seq<Idea>)
    requires IdsUnique(order)
    ensures |Reordered(rows, IdsOf(order))| == |rows|
    ensures forall k, i :: 0 <= k < |rows| && 0 <= i < |order| && rows[k].id == order[i].id ==>
      Reordered(rows, IdsOf(order))[k].pos == i
    ensures forall k :: 0 <= k < |rows| && rows[k].id !in IdsOf(order) ==>
      Reordered(rows, IdsOf(order))[k] == rows[k]
    ensures forall k :: 0 <= k < |rows| ==>
      Reordered(rows, IdsOf(order))[k] == rows[k].(pos := Reordered(rows, IdsOf(order))[k].pos)
  {
    var ids := IdsOf(order);
    forall k, i | 0 <= k < |rows| && 0 <= i < |order| && rows[k].id == order[i].id
      ensures Reordered(rows, ids)[k].pos == i
    {
      assert ids[i] == rows[k].id;
      var last := LastIndex(ids, rows[k].id);
      assert last >= i;
      assert last == i;
    }
  }

  // ---------------------------------------------- toggle / update_idea_info

  /** `UPDATE ideas SET archived = ? WHERE id = ?`. */
  function WithArchived(rows: seq<Idea>, id: nat, flag: bool): (r: seq<Idea>)
    ensures |r| == |rows|
    ensures forall k :: 0 <= k < |rows| ==> r[k] == rows[k].(archived := r[k].archived)
    ensures forall k :: 0 <= k < |rows| ==> (rows[k].id == id ==> r[k].archived == flag) && (rows[k].id != id ==> r[k] == rows[k])
  {
    seq(|rows|, k requires 0 <= k < |rows| => if rows[k].id == id then rows[k].(archived := flag) else rows[k])
  }

  /** `UPDATE ideas SET title = ?, notes = ? WHERE id = ?`. */
  function WithInfo(rows: seq<Idea>, id: nat, title: string, notes: string): (r: seq<Idea>)
    ensures |r| == |rows|
    ensures forall k :: 0 <= k < |rows| ==> r[k] == rows[k].(title := r[k].title, notes := r[k].notes)
    ensures forall k :: 0 <= k < |rows| ==>
      (rows[k].id == id ==> r[k].title == title && r[k].notes == notes) && (rows[k].id != id ==> r[k] == rows[k])
  {
    seq(|rows|, k requires 0 <= k < |rows| =>
      if rows[k].id == id then rows[k].(title := title, notes := notes) else rows[k])
  }

  /**
   * `toggle_idea_archived` writes the negation of the flag it is given. Fed the
   * flag just read from the table, it flips one row only, and a second toggle
   * (fed the flag read again) restores the table.
   */
  lemma ToggleTwiceRestores(rows: seq<Idea>, k: nat)
    requires IdsUnique(rows) && k < |rows|
    ensures var once := WithArchived(rows, rows[k].id, !rows[k].archived);
      |once| == |rows| && once[k] == rows[k].(archived := !rows[k].archived) &&
      (forall j :: 0 <= j < |rows| && j != k ==> once[j] == rows[j]) &&
      WithArchived(once, rows[k].id, !once[k].archived) == rows
  {
    var id := rows[k].id;
    var once := WithArchived(rows, id, !rows[k].archived);
    forall j | 0 <= j < |rows| && j != k ensures rows[j].id != id {
      if j < k { assert rows[j].id != rows[k].id; } else { assert rows[k].id != rows[j].id; }
    }
    var twice := WithArchived(once, id, !once[k].archived);
    assert |twice| == |rows|;
    forall j | 0 <= j < |rows| ensures twice[j] == rows[j] {
    }
  }

  /** The update statements keep every id and position, so uniqueness survives them. */
  lemma UpdatesKeepKeys(rows: seq<Idea>, id: nat, flag: bool, title: string, notes: string)
    ensures IdsOf(WithArchived(rows, id, flag)) == IdsOf(rows) && IdsOf(WithInfo(rows, id, title, notes)) == IdsOf(rows)
    ensures PosUnique(rows) ==> PosUnique(WithArchived(rows, id, flag)) && PosUnique(WithInfo(rows, id, title, notes))
    ensures IdsUnique(rows) ==> IdsUnique(WithArchived(rows, id, flag)) && IdsUnique(WithInfo(rows, id, title, notes))
  {
    var a, b := WithArchived(rows, id, flag), WithInfo(rows, id, title, notes);
    assert forall k :: 0 <= k < |rows| ==> a[k].id == rows[k].id && a[k].pos == rows[k].pos;
    assert forall k :: 0 <= k < |rows| ==> b[k].id == rows[k].id && b[k].pos == rows[k].pos;
  }

  // --------------------------------------------------------------- get_ideas

  /** `a` and `b` agree before index `i` and differ there, `a` holding the smaller code point. */
  predicate EarlierAt(a: string, b: string, i: nat) {
    i < |a| && i < |b| && a[..i] == b[..i] && a[i] < b[i]
  }

  lemma HeadsDiffer(a: string, b: string)
    requires a != [] && b != [] && a[0] != b[0]
    ensures !(a <= b)
    ensures (exists i: nat :: EarlierAt(a, b, i)) <==> a[0] < b[0]
  {
    if a[0] < b[0] { assert EarlierAt(a, b, 0); }
    forall i: nat | EarlierAt(a, b, i) ensures a[0] < b[0] {
      if i > 0 { assert a[..i][0] == b[..i][0]; }
    }
  }

  lemma HeadsAgree(a: string, b: string)
    requires a != [] && b != [] && a[0] == b[0]
    ensures a <= b <==> a[1..] <= b[1..]
    ensures (exists i: nat :: EarlierAt(a, b, i)) <==> (exists i: nat :: EarlierAt(a[1..], b[1..], i))
  {
    forall i: nat | EarlierAt(a, b, i) ensures EarlierAt(a[1..], b[1..], i - 1) {
      assert i > 0;
      assert a[1..][..i - 1] == a[..i][1..] && b[1..][..i - 1] == b[..i][1..];
    }
    forall i: nat | EarlierAt(a[1..], b[1..], i) ensures EarlierAt(a, b, i + 1) {
      assert a[..i + 1] == [a[0]] + a[1..][..i] && b[..i + 1] == [b[0]] + b[1..][..i];
    }
    assert a <= b <==> a[1..] <= b[1..] by {
      assert a == [a[0]] + a[1..] && b == [b[0]] + b[1..];
    }
  }

  /**
   * TEXT comparison under SQLite's default BINARY collation: byte-wise on the
   * UTF-8 encoding, which orders like the code points. `a` sorts first when it
   * is a prefix of `b` or is smaller at the first place they differ.
   */
  predicate TextLe(a: string, b: string): (r: bool)
    ensures r <==> a <= b || exists i: nat :: EarlierAt(a, b, i)
  {
    if a == [] then true
    else if b == [] then false
    else if a[0] != b[0] then HeadsDiffer(a, b); a[0] < b[0]
    else HeadsAgree(a, b); TextLe(a[1..], b[1..])
  }

  lemma {:induction false} TextLeTotal(a: string, b: string)
    ensures TextLe(a, b) || TextLe(b, a)
  {
    if a != [] && b != [] && a[0] == b[0] { TextLeTotal(a[1..], b[1..]); }
  }

  lemma {:induction false} TextLeTransitive(a: string, b: string, c: string)
    requires TextLe(a, b) && TextLe(b, c)
    ensures TextLe(a, c)
  {
    if a != [] && a[0] == b[0] && b[0] == c[0] { TextLeTransitive(a[1..], b[1..], c[1..]); }
  }

  /** `a` may come before `b` in an `ORDER BY` on the mode's column. */
  predicate InOrder(a: Idea, b: Idea, mode: SortMode) {
    match mode
    case ByPos => a.pos <= b.pos
    case ByDate => TextLe(a.createdDate, b.createdDate)
  }

  lemma InOrderTotal(a: Idea, b: Idea, mode: SortMode)
    ensures InOrder(a, b, mode) || InOrder(b, a, mode)
  {
    if mode == ByDate { TextLeTotal(a.createdDate, b.createdDate); }
  }

  lemma InOrderTransitive(a: Idea, b: Idea, c: Idea, mode: SortMode)
    requires InOrder(a, b, mode) && InOrder(b, c, mode)
    ensures InOrder(a, c, mode)
  {
    if mode == ByDate { TextLeTransitive(a.createdDate, b.createdDate, c.createdDate); }
  }

  predicate SortedBy(s: seq<Idea>, mode: SortMode) {
    forall i, j :: 0 <= i < j < |s| ==> InOrder(s[i], s[j], mode)
  }

  /** Inserts `x` after every row that may precede it (so equal keys keep their arrival order). */
  function Insert(s: seq<Idea>, x: Idea, mode: SortMode): (r: seq<Idea>)
    ensures multiset(r) == multiset(s) + multiset{x}
  {
    if s == [] then [x]
    else if InOrder(s[0], x, mode) then
      assert s == [s[0]] + s[1..];
      [s[0]] + Insert(s[1..], x, mode)
    else [x] + s
  }

  /** A head that may precede every row of a sorted tail gives a sorted list. */
  lemma ConsSorted(u: Idea, t: seq<Idea>, mode: SortMode)
    requires SortedBy(t, mode)
    requires forall y :: y in t ==> InOrder(u, y, mode)
    ensures SortedBy([u] + t, mode)
  {
    var r := [u] + t;
    forall i, j | 0 <= i < j < |r| ensures InOrder(r[i], r[j], mode) {
      assert r[j] == t[j - 1];
      if i > 0 { assert r[i] == t[i - 1]; }
    }
  }

  /** Inserting into a sorted list keeps it sorted. */
  lemma {:induction false} InsertSorted(s: seq<Idea>, x: Idea, mode: SortMode)
    requires SortedBy(s, mode)
    ensures SortedBy(Insert(s, x, mode), mode)
  {
    if s == [] {
      assert Insert(s, x, mode) == [x];
    } else if InOrder(s[0], x, mode) {
      var t := Insert(s[1..], x, mode);
      assert SortedBy(s[1..], mode) by {
        forall i, j | 0 <= i < j < |s[1..]| ensures InOrder(s[1..][i], s[1..][j], mode) {
          assert s[1..][i] == s[i + 1] && s[1..][j] == s[j + 1];
        }
      }
      InsertSorted(s[1..], x, mode);
      forall y | y in t ensures InOrder(s[0], y, mode) {
        assert y in multiset(t);
        if y != x {
          assert y in multiset(s[1..]);
          var i :| 0 <= i < |s[1..]| && s[1..][i] == y;
          assert s[i + 1] == y;
        }
      }
      ConsSorted(s[0], t, mode);
    } else {
      InOrderTotal(s[0], x, mode);
      forall y | y in s ensures InOrder(x, y, mode) {
        var j :| 0 <= j < |s| && s[j] == y;
        if j > 0 { InOrderTransitive(x, s[0], s[j], mode); }
      }
      ConsSorted(x, s, mode);
    }
  }

  /**
   * `get_ideas(conn, order_by)`: the whole table sorted on the mode's column.
   * Among rows with equal keys the model keeps rowid order; SQLite promises no
   * order there and nothing proved here depends on it.
   */
  function Scan(rows: seq<Idea>, mode: SortMode): (r: seq<Idea>)
    ensures multiset(r) == multiset(rows)
    ensures |r| == |rows|
  {
    if rows == [] then []
    else
      var init := Scan(rows[..|rows| - 1], mode);
      assert rows == rows[..|rows| - 1] + [rows[|rows| - 1]];
      assert |multiset(Insert(init, rows[|rows| - 1], mode))| == |multiset(rows)|;
      Insert(init, rows[|rows| - 1], mode)
  }

  /** The scan comes back sorted on the mode's column. */
  lemma {:induction false} ScanSorted(rows: seq<Idea>, mode: SortMode)
    ensures SortedBy(Scan(rows, mode), mode)
  {
    if rows != [] {
      ScanSorted(rows[..|rows| - 1], mode);
      InsertSorted(Scan(rows[..|rows| - 1], mode), rows[|rows| - 1], mode);
    }
  }

  /** A row that may follow every row of the list is inserted at the end. */
  lemma {:induction false} InsertAfterAll(s: seq<Idea>, x: Idea, mode: SortMode)
    requires forall k :: 0 <= k < |s| ==> InOrder(s[k], x, mode)
    ensures Insert(s, x, mode) == s + [x]
  {
    if s != [] {
      var t := s[1..];
      assert forall k :: 0 <= k < |t| ==> t[k] == s[k + 1];
      InsertAfterAll(t, x, mode);
      assert [s[0]] + (t + [x]) == s + [x];
    }
  }

  /** `a` sorts strictly before `b`: every `ORDER BY` on the mode's column lists `a` first. */
  predicate Precedes(a: Idea, b: Idea, mode: SortMode) {
    InOrder(a, b, mode) && !InOrder(b, a, mode)
  }

  /**
   * Appending a row that sorts strictly after every existing row puts it last
   * in the scan, so `len(ideas) - 1` selects it.
   */
  lemma AppendedListedLast(rows: seq<Idea>, x: Idea, mode: SortMode)
    requires forall y :: y in rows ==> Precedes(y, x, mode)
    ensures Scan(rows + [x], mode) == Scan(rows, mode) + [x]
  {
    var init := Scan(rows, mode);
    assert (rows + [x])[..|rows|] == rows;
    forall k | 0 <= k < |init| ensures InOrder(init[k], x, mode) {
      assert init[k] in multiset(rows);
      assert init[k] in rows;
    }
    InsertAfterAll(init, x, mode);
  }

  /**
   * The same holds of every order the database may return the rows in: in any
   * sorted arrangement of the table, a row that sorts strictly after all the
   * others comes last, whatever order ties among the others are given.
   */
  lemma AppendedLastInAnyListing(rows: seq<Idea>, x: Idea, mode: SortMode, listing: seq<Idea>)
    requires forall y :: y in rows ==> Precedes(y, x, mode)
    requires multiset(listing) == multiset(rows + [x]) && SortedBy(listing, mode)
    ensures |listing| == |rows| + 1 && listing[|listing| - 1] == x
  {
    assert |multiset(listing)| == |multiset(rows + [x])|;
    var last := |listing| - 1;
    assert x in multiset(listing);
    var k :| 0 <= k < |listing| && listing[k] == x;
    // x may precede the last row, so that row is no row x strictly follows
    assert k == last || InOrder(listing[k], listing[last], mode);
    assert InOrder(x, listing[last], mode);
    assert listing[last] in multiset(rows + [x]);
    assert listing[last] in rows + [x];
  }

  /** By position, the row `add_idea` writes is always listed last. */
  lemma AddedIdeaListedLast(rows: seq<Idea>, x: Idea)
    requires x.pos == NewPos(rows)
    ensures Scan(rows + [x], ByPos) == Scan(rows, ByPos) + [x]
  {
    AppendedListedLast(rows, x, ByPos);
  }

  /** `a` and `b` hold the same value in the column the mode sorts on. */
  predicate SameSortKey(a: Idea, b: Idea, mode: SortMode) {
    match mode
    case ByPos => a.pos == b.pos
    case ByDate => a.createdDate == b.createdDate
  }

  /** Two lists that carry the same sort key index by index. */
  predicate KeysAgree(a: seq<Idea>, b: seq<Idea>, mode: SortMode) {
    |a| == |b| && forall k :: 0 <= k < |a| ==> SameSortKey(a[k], b[k], mode)
  }

  /** Same keys at the head and in the tail give the same keys throughout. */
  lemma ConsSameKeys(u: Idea, a: seq<Idea>, v: Idea, b: seq<Idea>, mode: SortMode)
    requires KeysAgree(a, b, mode) && SameSortKey(u, v, mode)
    ensures KeysAgree([u] + a, [v] + b, mode)
  {
    var r, q := [u] + a, [v] + b;
    forall k | 1 <= k < |r| ensures r[k] == a[k - 1] && q[k] == b[k - 1] { }
  }

  /** An insertion step looks at the sort keys only. */
  lemma {:induction false} InsertSameKeys(s: seq<Idea>, t: seq<Idea>, x: Idea, y: Idea, mode: SortMode)
    requires KeysAgree(s, t, mode) && SameSortKey(x, y, mode)
    ensures KeysAgree(Insert(s, x, mode), Insert(t, y, mode), mode)
  {
    if s == [] {
      assert Insert(s, x, mode) == [x] && Insert(t, y, mode) == [y];
    } else {
      assert SameSortKey(s[0], t[0], mode);
      assert InOrder(s[0], x, mode) == InOrder(t[0], y, mode);
      if InOrder(s[0], x, mode) {
        assert KeysAgree(s[1..], t[1..], mode);
        InsertSameKeys(s[1..], t[1..], x, y, mode);
        ConsSameKeys(s[0], Insert(s[1..], x, mode), t[0], Insert(t[1..], y, mode), mode);
      } else {
        ConsSameKeys(x, s, y, t, mode);
      }
    }
  }

  /**
   * Read down the listing, the sorted column depends only on that column of
   * the table. Rows with equal keys are interchangeable here, so this does not
   * depend on how ties are broken.
   */
  lemma {:induction false} ScanSameKeys(a: seq<Idea>, b: seq<Idea>, mode: SortMode)
    requires KeysAgree(a, b, mode)
    ensures KeysAgree(Scan(a, mode), Scan(b, mode), mode)
  {
    if a != [] {
      assert KeysAgree(a[..|a| - 1], b[..|b| - 1], mode);
      ScanSameKeys(a[..|a| - 1], b[..|b| - 1], mode);
      InsertSameKeys(Scan(a[..|a| - 1], mode), Scan(b[..|b| - 1], mode), a[|a| - 1], b[|b| - 1], mode);
    }
  }

  /** Archiving or editing leaves the listed column, position or date, as it was, in either order. */
  lemma UpdatesKeepListedKeys(rows: seq<Idea>, id: nat, flag: bool, title: string, notes: string, mode: SortMode)
    ensures KeysAgree(Scan(WithArchived(rows, id, flag), mode), Scan(rows, mode), mode)
    ensures KeysAgree(Scan(WithInfo(rows, id, title, notes), mode), Scan(rows, mode), mode)
  {
    assert KeysAgree(WithArchived(rows, id, flag), rows, mode);
    assert KeysAgree(WithInfo(rows, id, title, notes), rows, mode);
    ScanSameKeys(WithArchived(rows, id, flag), rows, mode);
    ScanSameKeys(WithInfo(rows, id, title, notes), rows, mode);
  }

  /**
   * With unique positions, two tables that agree on ids and positions row by
   * row list the same ids by position: each listed position belongs to one
   * row only, so no tie is left to break.
   */
  lemma SamePositionsSameListing(rows: seq<Idea>, other: seq<Idea>)
    requires PosUnique(rows) && |other| == |rows|
    requires forall k :: 0 <= k < |rows| ==> other[k].id == rows[k].id && other[k].pos == rows[k].pos
    ensures IdsOf(Scan(other, ByPos)) == IdsOf(Scan(rows, ByPos))
  {
    var u, s := Scan(other, ByPos), Scan(rows, ByPos);
    assert KeysAgree(other, rows, ByPos);
    ScanSameKeys(other, rows, ByPos);
    forall i | 0 <= i < |s| ensures u[i].id == s[i].id {
      assert u[i] in multiset(other);
      var k :| 0 <= k < |other| && other[k] == u[i];
      assert s[i] in multiset(rows);
      var l :| 0 <= l < |rows| && rows[l] == s[i];
      assert rows[k].pos == rows[l].pos;
    }
  }

  /** Archiving, un-archiving or editing never changes where an idea is listed by position. */
  lemma UpdatesKeepScanOrder(rows: seq<Idea>, id: nat, flag: bool, title: string, notes: string)
    requires PosUnique(rows)
    ensures IdsOf(Scan(WithArchived(rows, id, flag), ByPos)) == IdsOf(Scan(rows, ByPos))
    ensures IdsOf(Scan(WithInfo(rows, id, title, notes), ByPos)) == IdsOf(Scan(rows, ByPos))
  {
    SamePositionsSameListing(rows, WithArchived(rows, id, flag));
    SamePositionsSameListing(rows, WithInfo(rows, id, title, notes));
  }
}
