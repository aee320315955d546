/** `Move.__init__` (pysudoku/game.py) on the board object: copy the parent's
    board or start a fresh one, place the marking cell by cell through the
    setter, then reduce. The game tree in module Games keeps each move's
    board as the value this construction leaves. */
module Moves {
  import opened Wrappers
  import opened Grid
  import opened Cells
  import opened Boards
  import opened Games
  import Sudoku

  /** Once placing the marking has raised or crashed, later entries are not
      placed. */
  lemma {:induction false} MarkingStops(s: State, m: seq<Entry>, i: nat)
    requires Wf(s) && NonZero(m) && i <= |m|
    requires !ApplyMarking(s, m[..i]).Normal?
    ensures ApplyMarking(s, m) == ApplyMarking(s, m[..i])
    decreases |m|
  {
    if i == |m| {
      assert m[..i] == m;
    } else {
      var m' := m[..|m| - 1];
      assert m'[..i] == m[..i];
      MarkingStops(s, m', i);
    }
  }

  /** One more entry placed, after the earlier ones went through. */
  lemma MarkingStep(s: State, m: seq<Entry>, i: nat, prev: State)
    requires Wf(s) && NonZero(m) && i < |m|
    requires ApplyMarking(s, m[..i]) == Normal(prev)
    ensures Wf(prev)
    ensures ApplyMarking(s, m[..i + 1]) ==
      match CellAt(m[i].coord)
      case Some(k) => AssignSpec(prev, k, m[i].value)
      case None => Crashed
  {
    assert m[..i + 1][..i] == m[..i];
  }

  /** `for cell, value in marking: self.board(*cell).value = value`: each
      entry through the setter, stopping at the first exception; a
      coordinate off the board is an IndexError. */
  method Place(board: Sudoku.Board, marking: seq<Entry>) returns (st: Sudoku.Status)
    requires NonZero(marking) && board.Valid() && Wf(board.Snapshot())
    modifies board.cells, board.sets
    ensures board.Ended(ApplyMarking(old(board.Snapshot()), marking), st)
  {
    ghost var start := board.Snapshot();
    assert marking[..0] == [];
    var i := 0;
    while i < |marking|
      invariant 0 <= i <= |marking|
      invariant ApplyMarking(start, marking[..i]) == Normal(board.Snapshot())
    {
      ghost var prev := board.Snapshot();
      MarkingStep(start, marking, i, prev);
      var k := CellAt(marking[i].coord);
      if k.None? {
        MarkingStops(start, marking, i + 1);
        return Sudoku.Failed;
      }
      st := board.Assign(k.value, marking[i].value);
      if st != Sudoku.Done {
        MarkingStops(start, marking, i + 1);
        return;
      }
      i := i + 1;
    }
    assert marking[..i] == marking;
    return Sudoku.Done;
  }

  /** The board of a new move and how its construction ended: Done is a valid
      move, Threw an invalid one (IllegalMove or IllegalBoard caught), Failed
      an error that escapes the constructor. */
  method Build(marking: seq<Entry>, parent: Sudoku.Board?) returns (board: Sudoku.Board, st: Sudoku.Status)
    requires NonZero(marking)
    requires parent != null ==> parent.Valid() && Wf(parent.Snapshot())
    ensures fresh(board) && fresh(board.cells) && fresh(board.sets) && board.Valid()
    ensures board.Ended(MoveSpec(if parent == null then None else Some(parent.Snapshot()), marking), st)
  {
    ghost var start := StartBoard(if parent == null then None else Some(parent.Snapshot()));
    ghost var spec := MoveSpec(if parent == null then None else Some(parent.Snapshot()), marking);
    if parent != null {
      board := parent.Copy();
    } else {
      board := new Sudoku.Board();
    }
    assert board.Snapshot() == start;
    st := Place(board, marking);
    ghost var placed := ApplyMarking(start, marking);
    if st != Sudoku.Done {
      assert spec == placed;
      return;
    }
    assert spec == ReduceSpec(placed.st);
    st := board.Reduce();
  }
}
