/**
 * Why a confirmed move persists exactly the order on screen: the list being
 * rearranged is a permutation of the table, and writing its indices back as
 * positions makes the by-position scan list the ideas in that order.
 */
module Reordering {
  import opened Ideas

  /** With unique ids no row occurs twice. */
  lemma {:induction false} UniqueCountsOne(s: seq<Idea>)
    requires IdsUnique(s)
    ensures forall x :: multiset(s)[x] <= 1
  {
    if s != [] {
      var tail := s[1..];
      assert IdsUnique(tail) by {
        forall i, j | 0 <= i < j < |tail| ensures tail[i].id != tail[j].id {
          assert tail[i] == s[i + 1] && tail[j] == s[j + 1];
        }
      }
      UniqueCountsOne(tail);
      assert s == [s[0]] + tail;
      assert s[0] !in tail;
    }
  }

  lemma TwiceCountsTwo(s: seq<Idea>, i: nat, j: nat)
    requires i < j < |s| && s[i] == s[j]
    ensures multiset(s)[s[i]] >= 2
  {
    assert s == s[..j] + [s[j]] + s[j + 1..];
    assert s[..j][i] == s[i];
    assert s[i] in multiset(s[..j]);
  }

  /** A permutation of a table with unique ids has unique ids, and unique positions if the table had them. */
  lemma PermutationKeepsUnique(a: seq<Idea>, b: seq<Idea>)
    requires multiset(a) == multiset(b) && IdsUnique(a)
    ensures |b| == |a|
    ensures IdsUnique(b)
    ensures PosUnique(a) ==> PosUnique(b)
  {
    assert |multiset(a)| == |a| && |multiset(b)| == |b|;
    UniqueCountsOne(a);
    forall i, j | 0 <= i < j < |b|
      ensures b[i].id != b[j].id && (PosUnique(a) ==> b[i].pos != b[j].pos)
    {
      if b[i] == b[j] {
        TwiceCountsTwo(b, i, j);
      } else {
        assert b[i] in multiset(a) && b[j] in multiset(a);
        var k :| 0 <= k < |a| && a[k] == b[i];
        var l :| 0 <= l < |a| && a[l] == b[j];
        assert k != l;
        if k > l {
          assert a[l].id != a[k].id && (PosUnique(a) ==> a[l].pos != a[k].pos);
        }
      }
    }
  }

  predicate StrictlyByPos(s: seq<Idea>) {
    forall i, j :: 0 <= i < j < |s| ==> s[i].pos < s[j].pos
  }

  lemma {:induction false} Gap(s: seq<Idea>, i: nat, j: nat)
    requires StrictlyByPos(s) && i <= j < |s|
    ensures s[j].pos - s[i].pos >= j - i
    decreases j - i
  {
    if i < j { Gap(s, i, j - 1); }
  }

  /** Strictly increasing positions, all in [0, |s|), are exactly the indices. */
  lemma PositionsAreIndices(s: seq<Idea>)
    requires StrictlyByPos(s)
    requires forall k :: 0 <= k < |s| ==> 0 <= s[k].pos < |s|
    ensures forall k :: 0 <= k < |s| ==> s[k].pos == k
  {
    forall k | 0 <= k < |s| ensures s[k].pos == k {
      Gap(s, 0, k);
      Gap(s, k, |s| - 1);
    }
  }

  /** Dropping the first row keeps positions unique and the list sorted. */
  lemma TailKeepsOrder(s: seq<Idea>)
    requires s != []
    ensures PosUnique(s) ==> PosUnique(s[1..])
    ensures SortedBy(s, ByPos) ==> SortedBy(s[1..], ByPos)
  {
    forall i, j | 0 <= i < j < |s| - 1 ensures s[1..][i] == s[i + 1] && s[1..][j] == s[j + 1] { }
  }

  /** Two sorted arrangements of the same rows, with unique positions, start with the same row. */
  lemma SameFirstRow(s: seq<Idea>, t: seq<Idea>)
    requires s != [] && multiset(s) == multiset(t) && PosUnique(s)
    requires SortedBy(s, ByPos) && SortedBy(t, ByPos)
    ensures t != [] && s[0] == t[0]
  {
    assert s[0] in multiset(t);
    var l :| 0 <= l < |t| && t[l] == s[0];
    assert t[0] in multiset(s);
    var k :| 0 <= k < |s| && s[k] == t[0];
    assert s[0].pos <= s[k].pos && t[0].pos <= t[l].pos;
    assert s[k].pos == s[0].pos;
  }

  /** Two sorted arrangements of the same rows by position agree when positions are unique. */
  lemma {:induction false} SortedByPosDetermined(s: seq<Idea>, t: seq<Idea>)
    requires multiset(s) == multiset(t) && PosUnique(s)
    requires SortedBy(s, ByPos) && SortedBy(t, ByPos)
    ensures s == t
  {
    if s == [] {
      assert |multiset(t)| == 0;
    } else {
      SameFirstRow(s, t);
      TailKeepsOrder(s);
      TailKeepsOrder(t);
      assert s == [s[0]] + s[1..] && t == [t[0]] + t[1..];
      assert multiset(s[1..]) == multiset(s) - multiset{s[0]};
      assert multiset(t[1..]) == multiset(t) - multiset{t[0]};
      assert multiset(s[1..]) == multiset(t[1..]);
      SortedByPosDetermined(s[1..], t[1..]);
    }
  }

  /**
   * With unique ids and positions, the by-position scan is the only listing
   * `ORDER BY pos` can return: every permutation of the table sorted by
   * position is exactly that scan, so nothing proved of it rests on how the
   * model breaks ties.
   */
  lemma ScanIsTheListing(rows: seq<Idea>, listing: seq<Idea>)
    requires IdsUnique(rows) && PosUnique(rows)
    requires multiset(listing) == multiset(rows) && SortedBy(listing, ByPos)
    ensures listing == Scan(rows, ByPos)
  {
    ScanSorted(rows, ByPos);
    PermutationKeepsUnique(rows, listing);
    SortedByPosDetermined(listing, Scan(rows, ByPos));
  }

  /**
   * Writing the indices of a permutation L of the table as positions gives
   * every row the index of its own entry in L: positions become 0..|L|-1,
   * each used once, and ids stay unique.
   */
  lemma RenumberedByPermutation(rows: seq<Idea>, list: seq<Idea>)
    requires IdsUnique(rows)
    requires multiset(list) == multiset(rows)
    ensures |Reordered(rows, IdsOf(list))| == |rows| == |list|
    ensures IdsUnique(Reordered(rows, IdsOf(list)))
    ensures PosUnique(Reordered(rows, IdsOf(list)))
    ensures forall k :: 0 <= k < |rows| ==>
      0 <= Reordered(rows, IdsOf(list))[k].pos < |list| &&
      list[Reordered(rows, IdsOf(list))[k].pos].id == Reordered(rows, IdsOf(list))[k].id
  {
    var ids := IdsOf(list);
    PermutationKeepsUnique(rows, list);
    var after := Reordered(rows, ids);
    ReorderedPositions(rows, list);
    forall k | 0 <= k < |rows|
      ensures 0 <= after[k].pos < |list| && list[after[k].pos].id == rows[k].id
    {
      assert rows[k] in multiset(list);
      var i :| 0 <= i < |list| && list[i] == rows[k];
    }
    assert forall k :: 0 <= k < |rows| ==> after[k].id == rows[k].id;
    assert PosUnique(after) by {
      forall k, l | 0 <= k < l < |after| ensures after[k].pos != after[l].pos {
        assert rows[k].id != rows[l].id;
      }
    }
  }

  /** Sorting such a renumbered table by position lists L's ids in L's order. */
  lemma ScanOfRenumbered(after: seq<Idea>, list: seq<Idea>)
    requires IdsUnique(after) && PosUnique(after) && |after| == |list|
    requires forall k :: 0 <= k < |after| ==> 0 <= after[k].pos < |list| && list[after[k].pos].id == after[k].id
    ensures |Scan(after, ByPos)| == |list|
    ensures forall i :: 0 <= i < |list| ==> Scan(after, ByPos)[i].pos == i && Scan(after, ByPos)[i].id == list[i].id
  {
    var shown := Scan(after, ByPos);
    ScanSorted(after, ByPos);
    PermutationKeepsUnique(after, shown);
    assert StrictlyByPos(shown) by {
      forall i, j | 0 <= i < j < |shown| ensures shown[i].pos < shown[j].pos {
        assert InOrder(shown[i], shown[j], ByPos);
      }
    }
    forall i | 0 <= i < |shown| ensures exists k :: 0 <= k < |after| && shown[i] == after[k] {
      assert shown[i] in multiset(after);
    }
    PositionsAreIndices(shown);
    forall i | 0 <= i < |list| ensures shown[i].id == list[i].id {
      var k :| 0 <= k < |after| && shown[i] == after[k];
    }
  }

  /**
   * After `update_idea_order(L)` with L a permutation of the table, the table
   * keeps unique ids, gets unique positions, and the by-position scan lists
   * the ideas of L in L's order with positions 0..|L|-1.
   */
  lemma ConfirmedOrder(rows: seq<Idea>, list: seq<Idea>)
    requires IdsUnique(rows)
    requires multiset(list) == multiset(rows)
    ensures IdsUnique(Reordered(rows, IdsOf(list)))
    ensures PosUnique(Reordered(rows, IdsOf(list)))
    ensures |Scan(Reordered(rows, IdsOf(list)), ByPos)| == |list|
    ensures forall i :: 0 <= i < |list| ==>
      Scan(Reordered(rows, IdsOf(list)), ByPos)[i].pos == i &&
      Scan(Reordered(rows, IdsOf(list)), ByPos)[i].id == list[i].id
    ensures IdsOf(Scan(Reordered(rows, IdsOf(list)), ByPos)) == IdsOf(list)
  {
    RenumberedByPermutation(rows, list);
    ScanOfRenumbered(Reordered(rows, IdsOf(list)), list);
  }

  /**
   * Entering move mode and confirming at once rewrites the positions in the
   * by-position order just scanned: that order is what the table lists afterwards.
   */
  lemma EnterConfirmKeepsOrder(rows: seq<Idea>)
    requires IdsUnique(rows)
    ensures IdsOf(Scan(Reordered(rows, IdsOf(Scan(rows, ByPos))), ByPos)) == IdsOf(Scan(rows, ByPos))
  {
    ConfirmedOrder(rows, Scan(rows, ByPos));
  }
}
