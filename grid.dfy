/** The fixed geometry of a 9x9 board: cell indices, the 27 groups (9 blocks,
    9 rows, 9 columns) as fixed index tables, and the partition they form.

    Cells are numbered row-major: cell (r, c) has index 9 * r + c. Groups are
    numbered in the order the board builds them: blocks 0..8, rows 9..17,
    columns 18..26. The block list is built with the block column `n` as the
    outer loop, so block number 3 * n + m covers the rows 3m..3m+2 and the
    columns 3n..3n+2. */
module Grid {
  import opened Wrappers

  const M: nat := 3
  const N: nat := 9
  const CellCount: nat := 81
  const GroupCount: nat := 27

  /** The value range V = {1, ..., 9}. */
  const Digits: set<int> := set v: int | 1 <= v <= 9

  lemma DigitsCard()
    ensures |Digits| == 9
  {
    assert Digits == {1, 2, 3, 4, 5, 6, 7, 8, 9};
  }

  datatype Coord = Coord(row: int, column: int)

  /** One ((row, column), value) pair of a marking. */
  datatype Entry = Entry(coord: Coord, value: int)

  function Index(r: int, c: int): (k: nat)
    requires 0 <= r < 9 && 0 <= c < 9
    ensures k < 81 && k / 9 == r && k % 9 == c
  {
    9 * r + c
  }

  function RowOf(k: nat): nat { k / 9 }

  function ColumnOf(k: nat): nat { k % 9 }

  function CoordOf(k: nat): Coord { Coord(RowOf(k), ColumnOf(k)) }

  /** Group numbers of cell k: its block, its row, its column. */
  function BlockOf(k: nat): nat { 3 * (ColumnOf(k) / 3) + RowOf(k) / 3 }

  function RowGroup(r: nat): nat { 9 + r }

  function ColumnGroup(c: nat): nat { 18 + c }

  predicate IsBlock(g: nat) { g < 9 }

  predicate IsRow(g: nat) { 9 <= g < 18 }

  predicate IsColumn(g: nat) { 18 <= g < 27 }

  /** The cell's groups in the order the cell visits them: block, row, column. */
  function CellGroups(k: nat): seq<nat>
  {
    [BlockOf(k), RowGroup(RowOf(k)), ColumnGroup(ColumnOf(k))]
  }

  /** The cell at position p of block b: row-major inside the block. */
  function BlockCell(b: nat, p: nat): nat
    requires b < 9 && p < 9
  {
    Index(3 * (b % 3) + p / 3, 3 * (b / 3) + p % 3)
  }

  /** The member cells of group g, in the group's own order. */
  function GroupCells(g: nat): (cs: seq<nat>)
    requires g < 27
    ensures |cs| == 9 && forall p | 0 <= p < 9 :: cs[p] < 81
  {
    if g < 9 then seq(9, p requires 0 <= p < 9 => BlockCell(g, p))
    else if g < 18 then seq(9, p requires 0 <= p < 9 => Index(g - 9, p))
    else seq(9, p requires 0 <= p < 9 => Index(p, g - 18))
  }

  predicate InGroup(k: nat, g: nat)
    requires g < 27
  {
    k in GroupCells(g)
  }

  /** Quotient and remainder of 3a + x for a digit x below 3. */
  lemma SplitThree(a: nat, x: nat)
    requires x < 3
    ensures (3 * a + x) / 3 == a && (3 * a + x) % 3 == x
  {
  }

  lemma BlockCellBlock(b: nat, p: nat)
    requires b < 9 && p < 9
    ensures BlockOf(BlockCell(b, p)) == b
  {
    var r, c := 3 * (b % 3) + p / 3, 3 * (b / 3) + p % 3;
    assert RowOf(BlockCell(b, p)) == r && ColumnOf(BlockCell(b, p)) == c;
    SplitThree(b % 3, p / 3);
    SplitThree(b / 3, p % 3);
  }

  /** The block and the position inside it of cell (r, c) lead back to r and c. */
  lemma BlockPosition(r: nat, c: nat)
    requires r < 9 && c < 9
    ensures 3 * ((3 * (c / 3) + r / 3) % 3) + (3 * (r % 3) + c % 3) / 3 == r
    ensures 3 * ((3 * (c / 3) + r / 3) / 3) + (3 * (r % 3) + c % 3) % 3 == c
  {
    SplitThree(r % 3, c % 3);
    SplitThree(c / 3, r / 3);
  }

  /** Position of cell k inside its own block. */
  function PosInBlock(k: nat): (p: nat)
    requires k < 81
    ensures p < 9 && BlockCell(BlockOf(k), p) == k
  {
    BlockCellAt(RowOf(k), ColumnOf(k));
    3 * (RowOf(k) % 3) + ColumnOf(k) % 3
  }

  /** Cell (r, c) sits in its block at position 3 (r mod 3) + c mod 3. */
  lemma BlockCellAt(r: nat, c: nat)
    requires r < 9 && c < 9
    ensures 3 * (r % 3) + c % 3 < 9
    ensures BlockCell(3 * (c / 3) + r / 3, 3 * (r % 3) + c % 3) == 9 * r + c
  {
    BlockPosition(r, c);
  }

  /** The partition: cell k belongs to group g exactly when g is one of the
      three groups the cell refers back to. Hence every cell is in exactly one
      block, one row and one column, and each back-reference points to the
      group holding the cell. */
  lemma {:induction false} Partition(k: nat, g: nat)
    requires k < 81 && g < 27
    ensures InGroup(k, g) <==> g in CellGroups(k)
  {
    var cs := GroupCells(g);
    if g < 9 {
      BlockPartition(k, g);
    } else if g < 18 {
      if g == RowGroup(RowOf(k)) {
        assert cs[ColumnOf(k)] == k;
      }
    } else {
      if g == ColumnGroup(ColumnOf(k)) {
        assert cs[RowOf(k)] == k;
      }
    }
  }

  /** The block case of Partition: k is in block b exactly when b is k's block. */
  lemma BlockPartition(k: nat, b: nat)
    requires k < 81 && b < 9
    ensures InGroup(k, b) <==> b == BlockOf(k)
  {
    var cs := GroupCells(b);
    if InGroup(k, b) {
      var p :| 0 <= p < 9 && cs[p] == k;
      BlockCellBlock(b, p);
    }
    if b == BlockOf(k) {
      assert cs[PosInBlock(k)] == k;
    }
  }

  /** The coordinates named by the board construction: cell (i, j) is in
      rows[i], columns[j] and blocks[3n + m] with m = i / 3 and n = j / 3. */
  lemma PartitionCoords(i: nat, j: nat)
    requires i < 9 && j < 9
    ensures InGroup(Index(i, j), RowGroup(i))
    ensures InGroup(Index(i, j), ColumnGroup(j))
    ensures InGroup(Index(i, j), 3 * (j / 3) + i / 3)
  {
    var k := Index(i, j);
    Partition(k, RowGroup(i));
    Partition(k, ColumnGroup(j));
    Partition(k, 3 * (j / 3) + i / 3);
  }

  /** The members of a group are pairwise distinct cells. */
  lemma GroupCellsDistinct(g: nat, p: nat, q: nat)
    requires g < 27 && p < 9 && q < 9 && p != q
    ensures GroupCells(g)[p] != GroupCells(g)[q]
  {
    var cs := GroupCells(g);
    if g < 9 {
      var a, b := cs[p], cs[q];
      assert RowOf(a) == 3 * (g % 3) + p / 3 && ColumnOf(a) == 3 * (g / 3) + p % 3;
      assert RowOf(b) == 3 * (g % 3) + q / 3 && ColumnOf(b) == 3 * (g / 3) + q % 3;
    }
  }

  lemma GroupCellsAllDistinct(g: nat)
    requires g < 27
    ensures forall p, q | 0 <= p < q < 9 :: GroupCells(g)[p] != GroupCells(g)[q]
  {
    forall p, q | 0 <= p < q < 9 ensures GroupCells(g)[p] != GroupCells(g)[q] {
      GroupCellsDistinct(g, p, q);
    }
  }

  /** Python list indexing on a list of nine: negative indices count from the
      end, anything else out of range raises IndexError (None here). */
  function PyIndex(i: int): (r: Option<nat>)
    ensures r.Some? <==> -9 <= i < 9
    ensures r.Some? ==> r.value < 9 && (r.value == i || r.value == i + 9)
  {
    if 0 <= i < 9 then Some(i) else if -9 <= i < 0 then Some(i + 9) else None
  }
}
