/** One aligned row of the board: the gravity step, condensation, the
    write-back loop and the per-row validity scans of
    py2048/classes.py (GameBoard.move_pieces, check_valid_move,
    get_row_values). An aligned row is read so that position |row|-1 is the
    edge tiles are pushed against. */
module Rows {
  import opened Wrappers

  /** A grid cell: `None` when empty, otherwise the tile's value. */
  type Cell = Option<int>
  type Row = seq<Cell>

  function Sum(v: seq<int>): int {
    if |v| == 0 then 0 else v[0] + Sum(v[1..])
  }

  /** The total of the tile values in a row; empties count nothing. */
  function TileSum(row: Row): int {
    if |row| == 0 then 0
    else (if row[0].Some? then row[0].value else 0) + TileSum(row[1..])
  }

  /** The number of non-empty cells in a row. */
  function TileCount(row: Row): nat {
    if |row| == 0 then 0
    else (if row[0].Some? then 1 else 0) + TileCount(row[1..])
  }

  predicate HasEmpty(row: Row) {
    exists j :: 0 <= j < |row| && row[j].None?
  }

  predicate HasTile(row: Row) {
    exists j :: 0 <= j < |row| && row[j].Some?
  }

  /** Some tile sits at a lower position than some empty cell, so pushing
      the row toward its last position moves that tile. */
  predicate CanSlide(row: Row) {
    exists i, j :: 0 <= i < j < |row| && row[i].Some? && row[j].None?
  }

  /** Two neighbouring cells hold equal tiles. */
  predicate CanMerge(row: Row) {
    exists k :: 0 <= k < |row| - 1 && row[k].Some? && row[k] == row[k + 1]
  }

  /** Two neighbouring values are equal. */
  predicate HasAdjacentEqual(v: seq<int>) {
    exists k :: 0 <= k < |v| - 1 && v[k] == v[k + 1]
  }

  lemma {:induction false} TileSumAppend(a: Row, b: Row)
    ensures TileSum(a + b) == TileSum(a) + TileSum(b)
    ensures TileCount(a + b) == TileCount(a) + TileCount(b)
  {
    if |a| > 0 {
      assert (a + b)[1..] == a[1..] + b;
      TileSumAppend(a[1..], b);
    } else {
      assert a + b == b;
    }
  }

  // ---------------------------------------------------------------------
  // Gravity and condensation (move_pieces, the row_values lists)
  // ---------------------------------------------------------------------

  /** The gravity step: the tile values of a row in row order, with the
      empty cells dropped. */
  function Tiles(row: Row): (t: seq<int>)
    ensures |t| == TileCount(row)
    ensures Sum(t) == TileSum(row)
  {
    if |row| == 0 then []
    else if row[0].Some? then [row[0].value] + Tiles(row[1..])
    else Tiles(row[1..])
  }

  /** The tiles keep their row order: the tile at position j is the entry
      of Tiles(row) that follows the tiles before j. With the count in
      Tiles' contract, this fixes every entry. */
  lemma {:induction false} TilesInOrder(row: Row)
    ensures forall j :: 0 <= j < |row| && row[j].Some? ==>
      TileCount(row[..j]) < |Tiles(row)| && Tiles(row)[TileCount(row[..j])] == row[j].value
  {
    if |row| > 0 {
      TilesInOrder(row[1..]);
      forall j | 0 <= j < |row| && row[j].Some?
        ensures TileCount(row[..j]) < |Tiles(row)| && Tiles(row)[TileCount(row[..j])] == row[j].value
      {
        if j > 0 {
          assert row[..j][1..] == row[1..][..j - 1];
          assert row[1..][j - 1] == row[j];
        }
      }
    }
  }

  /** Condensation: a single left-to-right pass that replaces each adjacent
      equal pair by its sum. A freshly merged value is never compared again,
      so [2, 2, 2, 2] gives [4, 4] and [2, 2, 4] gives [4, 4]. */
  function Condense(v: seq<int>): (c: seq<int>)
    ensures |c| <= |v| <= 2 * |c|
    ensures Sum(c) == Sum(v)
  {
    if |v| >= 2 && v[0] == v[1] then
      assert v[1..][1..] == v[2..];
      [v[0] + v[1]] + Condense(v[2..])
    else if |v| == 0 then []
    else [v[0]] + Condense(v[1..])
  }

  /** `c` arises from `v` by replacing some disjoint pairs of adjacent equal
      values by their sums: each value of `c` is one value of `v`, or the
      sum of two neighbouring equal values of `v`, and never more. */
  ghost predicate PairwiseMerge(v: seq<int>, c: seq<int>)
    decreases |v|
  {
    if |v| == 0 then c == []
    else
      |c| > 0 &&
      ((c[0] == v[0] && PairwiseMerge(v[1..], c[1..])) ||
       (|v| >= 2 && v[0] == v[1] && c[0] == v[0] + v[1] && PairwiseMerge(v[2..], c[1..])))
  }

  /** No tile takes part in two merges of the same move. */
  lemma {:induction false} CondenseMergesPairsOnly(v: seq<int>)
    ensures PairwiseMerge(v, Condense(v))
    decreases |v|
  {
    if |v| >= 2 && v[0] == v[1] {
      CondenseMergesPairsOnly(v[2..]);
    } else if |v| > 0 {
      CondenseMergesPairsOnly(v[1..]);
    }
  }

  /** Condensation shortens the list exactly when some neighbouring values
      are equal. */
  lemma {:induction false} CondenseShrinks(v: seq<int>)
    ensures |Condense(v)| < |v| <==> HasAdjacentEqual(v)
    decreases |v|
  {
    if |v| >= 2 && v[0] == v[1] {
      assert HasAdjacentEqual(v) by { assert v[0] == v[1]; }
    } else if |v| >= 2 {
      CondenseShrinks(v[1..]);
      if HasAdjacentEqual(v) {
        var k :| 0 <= k < |v| - 1 && v[k] == v[k + 1];
        assert k > 0;
        assert v[1..][k - 1] == v[1..][k];
      }
      if HasAdjacentEqual(v[1..]) {
        var k :| 0 <= k < |v[1..]| - 1 && v[1..][k] == v[1..][k + 1];
        assert v[k + 1] == v[k + 2];
      }
    }
  }

  lemma CondenseExamples()
    ensures Condense([2, 2, 2, 2]) == [4, 4]
    ensures Condense([2, 2, 4]) == [4, 4]
    ensures Condense([4, 2, 2]) == [4, 4]
  {
  }

  /** The condense loop as the source writes it: enumerate the list while
      popping from it; at index i, if the next value equals the current one,
      the current slot takes their sum and the next is removed. */
  method CondenseInPlace(values: seq<int>) returns (r: seq<int>)
    ensures r == Condense(values)
  {
    r := values;
    var i := 0;
    while i < |r|
      invariant 0 <= i <= |r|
      invariant r[..i] + Condense(r[i..]) == Condense(values)
      decreases |r| - i
    {
      var value := r[i];
      if i + 1 < |r| && value == r[i + 1] {
        var merged := r[..i] + [value + r[i + 1]] + r[i + 2..];
        CondenseMergeStep(r, i, merged);
        r := merged;
      } else {
        CondenseKeepStep(r, i);
      }
      i := i + 1;
    }
    assert r[i..] == [];
    assert r[..i] == r;
  }

  /** One merging iteration of the condense loop keeps its invariant. */
  lemma CondenseMergeStep(r: seq<int>, i: nat, merged: seq<int>)
    requires i + 1 < |r| && r[i] == r[i + 1]
    requires merged == r[..i] + [r[i] + r[i + 1]] + r[i + 2..]
    ensures merged[..i + 1] + Condense(merged[i + 1..]) == r[..i] + Condense(r[i..])
  {
    var rest := Condense(r[i + 2..]);
    CondenseUnfold(r[i..]);
    assert r[i..][2..] == r[i + 2..];
    assert merged[..i + 1] == r[..i] + [r[i] + r[i + 1]];
    assert merged[i + 1..] == r[i + 2..];
    ConcatAssoc(r[..i], [r[i] + r[i + 1]], rest);
  }

  /** One non-merging iteration of the condense loop keeps its invariant. */
  lemma CondenseKeepStep(r: seq<int>, i: nat)
    requires i < |r|
    requires !(i + 1 < |r| && r[i] == r[i + 1])
    ensures r[..i + 1] + Condense(r[i + 1..]) == r[..i] + Condense(r[i..])
  {
    var rest := Condense(r[i + 1..]);
    CondenseUnfold(r[i..]);
    assert r[i..][1..] == r[i + 1..];
    assert r[..i + 1] == r[..i] + [r[i]];
    ConcatAssoc(r[..i], [r[i]], rest);
  }

  /** The two steps of the condensing pass, as equations. */
  lemma CondenseUnfold(v: seq<int>)
    requires |v| > 0
    ensures |v| >= 2 && v[0] == v[1] ==> Condense(v) == [v[0] + v[1]] + Condense(v[2..])
    ensures !(|v| >= 2 && v[0] == v[1]) ==> Condense(v) == [v[0]] + Condense(v[1..])
  {
  }

  /** Regrouping a concatenation. Stated as a lemma so that the two step
      lemmas above see the regrouping as one fact instead of rediscovering it
      from sequence extensionality. */
  lemma ConcatAssoc<T>(a: seq<T>, b: seq<T>, c: seq<T>)
    ensures (a + b) + c == a + (b + c)
  {
  }

  // ---------------------------------------------------------------------
  // Write-back (the reversed(row) loop of move_pieces)
  // ---------------------------------------------------------------------

  /** The write-back loop: walking a row of n cells from its last position
      down, each cell takes the next condensed value from the front of `c`,
      or becomes empty once they run out. */
  function WriteBack(c: seq<int>, n: nat): (row: Row)
    ensures |row| == n
    ensures forall j :: 0 <= j < n ==>
      row[j] == if n - 1 - j < |c| then Some(c[n - 1 - j]) else None
  {
    if n == 0 then []
    else if |c| == 0 then WriteBack(c, n - 1) + [None]
    else WriteBack(c[1..], n - 1) + [Some(c[0])]
  }

  lemma {:induction false} WriteBackTiles(c: seq<int>, n: nat)
    requires |c| <= n
    ensures TileSum(WriteBack(c, n)) == Sum(c)
    ensures TileCount(WriteBack(c, n)) == |c|
  {
    if n > 0 {
      if |c| == 0 {
        WriteBackTiles(c, n - 1);
        TileSumAppend(WriteBack(c, n - 1), [None]);
      } else {
        WriteBackTiles(c[1..], n - 1);
        TileSumAppend(WriteBack(c[1..], n - 1), [Some(c[0])]);
      }
    }
  }

  /** What a move does to one aligned row. */
  function Slide(row: Row): Row {
    WriteBack(Condense(Tiles(row)), |row|)
  }

  /** After a move an aligned row holds empties at positions 0 .. n-k-1 and
      the k condensed values c[0], c[1], ... at positions n-1, n-2, ...;
      its tile total is kept and its tile count never grows. */
  lemma SlideShape(row: Row)
    ensures var c := Condense(Tiles(row)); var s := Slide(row); var n := |row|;
      && |s| == n
      && |c| <= TileCount(row) <= n
      && (forall j :: 0 <= j < n - |c| ==> s[j] == None)
      && (forall m :: 0 <= m < |c| ==> s[n - 1 - m] == Some(c[m]))
      && TileSum(s) == TileSum(row)
      && TileCount(s) == |c|
  {
    var c := Condense(Tiles(row));
    TileCountBound(row);
    WriteBackTiles(c, |row|);
  }

  lemma {:induction false} TileCountBound(row: Row)
    ensures TileCount(row) <= |row|
  {
    if |row| > 0 {
      TileCountBound(row[1..]);
    }
  }

  /** Under RIGHT, [2, 2, 2, 4] becomes [_, 4, 2, 4]: the condensed values
      come back in reverse order. */
  lemma SlideExample()
    ensures Slide([Some(2), Some(2), Some(2), Some(4)]) == [None, Some(4), Some(2), Some(4)]
  {
    var row := [Some(2), Some(2), Some(2), Some(4)];
    assert Tiles(row) == [2, 2, 2, 4];
    assert Condense([2, 2, 2, 4]) == [4, 2, 4];
  }

  // ---------------------------------------------------------------------
  // Validity scans (check_valid_move, get_row_values)
  // ---------------------------------------------------------------------

  /** The number of cells holding a non-zero tile. */
  function TruthyCount(row: Row): nat {
    if |row| == 0 then 0
    else (if row[0].Some? && row[0].value != 0 then 1 else 0) + TruthyCount(row[1..])
  }

  /** get_row_values: the cell values of a row; when `condensed`, falsy
      values (empty cells and zero tiles) are skipped. */
  function RowValues(row: Row, condensed: bool): (vs: Row)
    ensures !condensed ==> vs == row
    ensures condensed ==> forall k :: 0 <= k < |vs| ==> vs[k].Some? && vs[k].value != 0
    ensures condensed ==> |vs| == TruthyCount(row)
    ensures |vs| <= |row|
  {
    if |row| == 0 then []
    else if condensed && (row[0].None? || row[0] == Some(0)) then RowValues(row[1..], condensed)
    else [row[0]] + RowValues(row[1..], condensed)
  }

  /** With `condensed`, every truthy cell is kept, in row order: the cell at
      position j is the entry that follows the values kept before j. */
  lemma {:induction false} RowValuesInOrder(row: Row)
    ensures forall j :: 0 <= j < |row| && row[j].Some? && row[j].value != 0 ==>
      var m := |RowValues(row[..j], true)|;
      m < |RowValues(row, true)| && RowValues(row, true)[m] == row[j]
  {
    if |row| > 0 {
      RowValuesInOrder(row[1..]);
      forall j | 0 <= j < |row| && row[j].Some? && row[j].value != 0
        ensures var m := |RowValues(row[..j], true)|;
          m < |RowValues(row, true)| && RowValues(row, true)[m] == row[j]
      {
        if j > 0 {
          assert row[..j][1..] == row[1..][..j - 1];
          assert row[1..][j - 1] == row[j];
        }
      }
    }
  }

  /** On a row without zero tiles the condensed values are exactly the
      tiles the move extracts. */
  lemma {:induction false} RowValuesAreTiles(row: Row)
    requires forall j :: 0 <= j < |row| ==> row[j] != Some(0)
    ensures |RowValues(row, true)| == |Tiles(row)|
    ensures forall k :: 0 <= k < |Tiles(row)| ==> RowValues(row, true)[k] == Some(Tiles(row)[k])
  {
    if |row| > 0 {
      RowValuesAreTiles(row[1..]);
    }
  }

  /** The reversed scan of check_valid_move: walking from the last position
      down, meeting a tile after an empty cell means the row can slide. */
  function SlideScan(row: Row, foundNone: bool): bool
    decreases |row|
  {
    if |row| == 0 then false
    else if row[|row| - 1].None? then SlideScan(row[..|row| - 1], true)
    else if foundNone then true
    else SlideScan(row[..|row| - 1], false)
  }

  /** The enumerate loop of check_valid_move from index i: empties are
      skipped, the last position stops the scan, and a tile equal to its
      right neighbour means a merge. */
  function MergeScan(row: Row, i: nat): bool
    decreases |row| - i
  {
    if i >= |row| then false
    else if row[i].None? then MergeScan(row, i + 1)
    else if i + 1 == |row| then false
    else if row[i] == row[i + 1] then true
    else MergeScan(row, i + 1)
  }

  /** The body of check_valid_move's row loop on one aligned row. */
  predicate RowMovable(row: Row, end: bool) {
    var values := RowValues(row, false);
    (end && None in values) || SlideScan(values, false) || MergeScan(values, 0)
  }

  lemma {:induction false} SlideScanFinds(row: Row, foundNone: bool)
    ensures SlideScan(row, foundNone) <==> CanSlide(row) || (foundNone && HasTile(row))
    decreases |row|
  {
    if |row| > 0 {
      var n := |row|;
      var pre := row[..n - 1];
      SlideScanFinds(pre, row[n - 1].None? || foundNone);
      assert HasTile(row) <==> HasTile(pre) || row[n - 1].Some? by {
        if HasTile(row) {
          var j :| 0 <= j < n && row[j].Some?;
          if j < n - 1 { assert pre[j].Some?; }
        }
        if HasTile(pre) {
          var j :| 0 <= j < n - 1 && pre[j].Some?;
          assert row[j].Some?;
        }
      }
      assert CanSlide(row) <==> CanSlide(pre) || (row[n - 1].None? && HasTile(pre)) by {
        if CanSlide(row) {
          var i, j :| 0 <= i < j < n && row[i].Some? && row[j].None?;
          if j < n - 1 {
            assert pre[i].Some? && pre[j].None?;
          } else {
            assert pre[i].Some?;
          }
        }
        if CanSlide(pre) {
          var i, j :| 0 <= i < j < n - 1 && pre[i].Some? && pre[j].None?;
          assert row[i].Some? && row[j].None?;
        }
        if row[n - 1].None? && HasTile(pre) {
          var i :| 0 <= i < n - 1 && pre[i].Some?;
          assert row[i].Some? && row[n - 1].None?;
        }
      }
    }
  }

  lemma {:induction false} MergeScanFinds(row: Row, i: nat)
    ensures MergeScan(row, i) <==>
      exists k :: i <= k < |row| - 1 && row[k].Some? && row[k] == row[k + 1]
    decreases |row| - i
  {
    if i < |row| {
      MergeScanFinds(row, i + 1);
    }
  }

  /** check_valid_move's per-row test, stated without scans: with `end`, any
      empty cell counts; otherwise a tile must be able to slide or merge. */
  lemma RowMovableIff(row: Row, end: bool)
    ensures RowMovable(row, end) <==> (end && HasEmpty(row)) || CanSlide(row) || CanMerge(row)
  {
    SlideScanFinds(row, false);
    MergeScanFinds(row, 0);
    if end && None in row {
      var j :| 0 <= j < |row| && row[j] == None;
      assert HasEmpty(row);
    }
    if HasEmpty(row) {
      var j :| 0 <= j < |row| && row[j].None?;
      assert row[j] in row;
    }
  }

  /** In the relaxed test used for game over, sliding never adds anything:
      a row with a slide has an empty cell. */
  lemma RowMovableAtEnd(row: Row)
    ensures RowMovable(row, true) <==> HasEmpty(row) || CanMerge(row)
  {
    RowMovableIff(row, true);
  }

  /** Two equal neighbouring tiles stay neighbours once the empties are
      dropped. */
  lemma {:induction false} TilesKeepPair(row: Row, k: nat)
    requires k < |row| - 1 && row[k].Some? && row[k] == row[k + 1]
    ensures HasAdjacentEqual(Tiles(row))
    decreases |row|
  {
    if k == 0 {
      var t := Tiles(row);
      assert t == [row[0].value] + ([row[1].value] + Tiles(row[2..])) by {
        assert row[1..][1..] == row[2..];
      }
      assert t[0] == t[1];
    } else {
      TilesKeepPair(row[1..], k - 1);
      var t' := Tiles(row[1..]);
      var m :| 0 <= m < |t'| - 1 && t'[m] == t'[m + 1];
      if row[0].Some? {
        var t := Tiles(row);
        assert t == [row[0].value] + t';
        assert t[m + 1] == t[m + 2];
      }
    }
  }

  /** A row that passes the strict validity test really changes when the
      move is applied to it. */
  lemma MovableRowChanges(row: Row)
    requires RowMovable(row, false)
    ensures Slide(row) != row
  {
    RowMovableIff(row, false);
    SlideShape(row);
    var c := Condense(Tiles(row));
    var n := |row|;
    if CanSlide(row) {
      var i, j :| 0 <= i < j < n && row[i].Some? && row[j].None?;
      if j >= n - |c| {
        var m := n - 1 - j;
        assert Slide(row)[n - 1 - m] == Some(c[m]);
        assert Slide(row)[j] != row[j];
      } else {
        assert Slide(row)[i] != row[i];
      }
    } else {
      var k :| 0 <= k < n - 1 && row[k].Some? && row[k] == row[k + 1];
      TilesKeepPair(row, k);
      CondenseShrinks(Tiles(row));
      assert TileCount(Slide(row)) < TileCount(row);
    }
  }

  lemma {:induction false} EmptyLowersCount(row: Row)
    requires HasEmpty(row)
    ensures TileCount(row) < |row|
  {
    if row[0].None? {
      TileCountBound(row[1..]);
    } else {
      var j :| 0 <= j < |row| && row[j].None?;
      assert row[1..][j - 1].None?;
      EmptyLowersCount(row[1..]);
    }
  }

  /** A row that passes the strict validity test has an empty cell after the
      move: either it had one and tiles are never created, or two tiles
      merged. */
  lemma MovableRowLeavesRoom(row: Row)
    requires RowMovable(row, false)
    ensures Slide(row)[0].None?
  {
    RowMovableIff(row, false);
    SlideShape(row);
    var c := Condense(Tiles(row));
    if CanSlide(row) {
      EmptyLowersCount(row);
    } else {
      var k :| 0 <= k < |row| - 1 && row[k].Some? && row[k] == row[k + 1];
      TilesKeepPair(row, k);
      CondenseShrinks(Tiles(row));
    }
    assert |c| < |row|;
  }
}
