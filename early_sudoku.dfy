/** The older board model (`sudoku.py`): every unit (cell or group) starts
    with the full set 1..9; a move is legal when its value is still offered
    by all three groups of the cell; placing it clears the cell's own set and
    lets each group drop the value and narrow its open cells to what it still
    offers. There is no search and no propagation beyond that.

    The board keeps its 81 cells in an array, row-major, and the sets of the
    27 groups in a second array, numbered as in module Grid. The source keeps
    the blocks in a nested 3x3 list; cells reach their groups only through
    back-references, so the numbering is not observable. A cell's value 0
    stands for None, and an empty set for a set that is None. */
module EarlySudoku {
  import opened Wrappers
  import opened Grid
  import opened Cells
  import opened Boards

  /** Shape of an early board: 81 cells, 27 group sets of digits. */
  predicate EarlyWf(s: State)
  {
    && |s.cells| == 81 && |s.sets| == 27
    && (forall g | 0 <= g < 27 :: s.sets[g] <= Digits)
  }

  /** `Board(cells)` over fresh `Cell(i, j)`s: every unit holds 1..9. */
  function Start(): (s: State)
    ensures EarlyWf(s)
  {
    State(seq(81, k requires 0 <= k < 81 => Cell(0, Digits)), seq(27, g requires 0 <= g < 27 => Digits))
  }

  /** `validate_move(v)`: v is in the intersection of the block's, the
      column's and the row's sets. */
  predicate ValidMove(s: State, k: nat, v: int)
    requires EarlyWf(s) && k < 81
  {
    v in s.sets[BlockOf(k)] * s.sets[ColumnGroup(ColumnOf(k))] * s.sets[RowGroup(RowOf(k))]
  }

  /** `for c in filter(lambda x: x.values, cells): c.values &= keep` over
      the member list ms: each member whose set is not None is narrowed to
      keep. */
  function Narrow(cells: seq<Cell>, ms: seq<nat>, keep: set<int>): (cs: seq<Cell>)
    requires |cells| == 81 && AllBelow(ms, 81)
    ensures |cs| == 81
    decreases |ms|
  {
    if ms == [] then cells
    else
      var c := Narrow(cells, ms[..|ms| - 1], keep);
      var k := ms[|ms| - 1];
      if c[k].values != {} then c[k := c[k].(values := c[k].values * keep)] else c
  }

  /** Narrowing intersects the set of every listed cell with keep and
      changes nothing else. */
  lemma {:induction false} NarrowFacts(cells: seq<Cell>, ms: seq<nat>, keep: set<int>, j: nat)
    requires |cells| == 81 && AllBelow(ms, 81) && j < 81
    ensures Narrow(cells, ms, keep)[j] ==
      Cell(cells[j].value, if j in ms then cells[j].values * keep else cells[j].values)
    decreases |ms|
  {
    if ms != [] {
      var ms' := ms[..|ms| - 1];
      NarrowFacts(cells, ms', keep, j);
      assert j in ms <==> j in ms' || j == ms[|ms| - 1] by {
        assert ms == ms' + [ms[|ms| - 1]];
      }
      if j in ms' && j == ms[|ms| - 1] {
        assert cells[j].values * keep * keep == cells[j].values * keep;
      }
      if j == ms[|ms| - 1] && cells[j].values == {} {
        assert cells[j].values * keep == {};
      }
    }
  }

  /** `group.update(v)`: v leaves the group's set (KeyError, None here, when
      it is not there) and every member whose set is not None is narrowed to
      the set that remains. */
  function UpdateSpec(s: State, g: nat, v: int): (r: Option<State>)
    requires EarlyWf(s) && g < 27
    ensures r.Some? <==> v in s.sets[g]
    ensures r.Some? ==> EarlyWf(r.value) && r.value.sets == s.sets[g := s.sets[g] - {v}]
  {
    if v !in s.sets[g] then None
    else
      var keep := s.sets[g] - {v};
      Some(State(Narrow(s.cells, GroupCells(g), keep), s.sets[g := keep]))
  }

  /** t is s after group g narrowed its members to t's set for g. */
  predicate NarrowedBy(s: State, t: State, g: nat)
    requires |s.cells| == 81 && |t.cells| == 81 && |t.sets| == 27 && g < 27
  {
    forall j | 0 <= j < 81 ::
      t.cells[j] == Cell(s.cells[j].value, if InGroup(j, g) then s.cells[j].values * t.sets[g] else s.cells[j].values)
  }

  /** After update(v), v is gone from the group's set and each member's set
      is its old set intersected with what the group still offers. */
  lemma UpdateFacts(s: State, g: nat, v: int)
    requires EarlyWf(s) && g < 27 && v in s.sets[g]
    ensures var t := UpdateSpec(s, g, v).value;
      && t.sets[g] == s.sets[g] - {v} && v !in t.sets[g]
      && NarrowedBy(s, t, g)
  {
    var t := UpdateSpec(s, g, v).value;
    forall j | 0 <= j < 81 ensures t.cells[j] ==
      Cell(s.cells[j].value, if InGroup(j, g) then s.cells[j].values * t.sets[g] else s.cells[j].values)
    {
      NarrowFacts(s.cells, GroupCells(g), s.sets[g] - {v}, j);
    }
  }

  /** The first i of the updates `for x in [block, row, column]:
      x.update(v)`, each group distinct and offering v. */
  function Chain(t: State, gs: seq<nat>, v: int, i: nat): (r: State)
    requires EarlyWf(t) && |gs| == 3 && AllBelow(gs, 27) && i <= 3
    requires gs[0] != gs[1] && gs[0] != gs[2] && gs[1] != gs[2]
    requires v in t.sets[gs[0]] && v in t.sets[gs[1]] && v in t.sets[gs[2]]
    ensures EarlyWf(r)
    ensures i <= 0 ==> r.sets[gs[0]] == t.sets[gs[0]]
    ensures i <= 1 ==> r.sets[gs[1]] == t.sets[gs[1]]
    ensures i <= 2 ==> r.sets[gs[2]] == t.sets[gs[2]]
    decreases i
  {
    if i == 0 then t else UpdateSpec(Chain(t, gs, v, i - 1), gs[i - 1], v).value
  }

  /** The value setter: an illegal move raises (None, nothing changes);
      otherwise the value is set, the cell's set becomes None, and the block,
      the row and the column are updated in that order. */
  function SetSpec(s: State, k: nat, v: int): (r: Option<State>)
    requires EarlyWf(s) && k < 81
    ensures r.Some? <==> ValidMove(s, k, v)
    ensures r.Some? ==> EarlyWf(r.value)
  {
    if !ValidMove(s, k, v) then None
    else Some(Chain(State(s.cells[k := Cell(v, {})], s.sets), CellGroups(k), v, 3))
  }

  // ---------------------------------------------------------------------
  // Properties of the setter.

  /** The three updates of a legal move, one state after another: t0 is the
      board with the cell set, and each later state is the one before it
      narrowed by the next of the cell's groups, whose set has lost v. */
  lemma SetSteps(s: State, k: nat, v: int) returns (t0: State, t1: State, t2: State)
    requires EarlyWf(s) && k < 81 && ValidMove(s, k, v)
    ensures t0 == State(s.cells[k := Cell(v, {})], s.sets)
    ensures EarlyWf(t1) && EarlyWf(t2)
    ensures t1.sets == s.sets[CellGroups(k)[0] := s.sets[CellGroups(k)[0]] - {v}]
    ensures t2.sets == t1.sets[CellGroups(k)[1] := s.sets[CellGroups(k)[1]] - {v}]
    ensures SetSpec(s, k, v).value.sets == t2.sets[CellGroups(k)[2] := s.sets[CellGroups(k)[2]] - {v}]
    ensures NarrowedBy(t0, t1, CellGroups(k)[0])
    ensures NarrowedBy(t1, t2, CellGroups(k)[1])
    ensures NarrowedBy(t2, SetSpec(s, k, v).value, CellGroups(k)[2])
  {
    var gs := CellGroups(k);
    t0 := State(s.cells[k := Cell(v, {})], s.sets);
    t1 := Chain(t0, gs, v, 1);
    t2 := Chain(t0, gs, v, 2);
    assert t1 == UpdateSpec(t0, gs[0], v).value;
    assert t2 == UpdateSpec(t1, gs[1], v).value;
    assert SetSpec(s, k, v).value == UpdateSpec(t2, gs[2], v).value;
    UpdateFacts(t0, gs[0], v);
    UpdateFacts(t1, gs[1], v);
    UpdateFacts(t2, gs[2], v);
  }

  /** A legal move sets the cell and clears its set; the sets of its three
      groups lose v and no other group set changes. */
  lemma SetFacts(s: State, k: nat, v: int)
    requires EarlyWf(s) && k < 81 && ValidMove(s, k, v)
    ensures SetSpec(s, k, v).value.cells[k] == Cell(v, {})
    ensures forall g | 0 <= g < 27 ::
      SetSpec(s, k, v).value.sets[g] == if g in CellGroups(k) then s.sets[g] - {v} else s.sets[g]
  {
    var gs := CellGroups(k);
    var t0, t1, t2 := SetSteps(s, k, v);
    var t := SetSpec(s, k, v).value;
    CellChain(t0.cells[k], t1.cells[k], t2.cells[k], t.cells[k],
      InGroup(k, gs[0]), InGroup(k, gs[1]), InGroup(k, gs[2]), t1.sets[gs[0]], t2.sets[gs[1]], t.sets[gs[2]], v);
    ThreeSets(s.sets, gs, v, t1.sets, t2.sets, t.sets);
  }

  /** The group sets after the three updates: the groups of gs lose v. */
  lemma ThreeSets(S: seq<set<int>>, gs: seq<nat>, v: int, T1: seq<set<int>>, T2: seq<set<int>>, T: seq<set<int>>)
    requires |S| == 27 && |gs| == 3 && AllBelow(gs, 27)
    requires gs[0] != gs[1] && gs[0] != gs[2] && gs[1] != gs[2]
    requires T1 == S[gs[0] := S[gs[0]] - {v}]
    requires T2 == T1[gs[1] := S[gs[1]] - {v}]
    requires T == T2[gs[2] := S[gs[2]] - {v}]
    ensures forall g | 0 <= g < 27 :: T[g] == if g in gs then S[g] - {v} else S[g]
  {
    forall g | 0 <= g < 27 ensures T[g] == if g in gs then S[g] - {v} else S[g] {
      assert g in gs <==> g == gs[0] || g == gs[1] || g == gs[2];
    }
  }

  /** Under a legal move every other cell keeps its value, and its set
      shrinks to within the remaining set of each of the move's groups it
      belongs to, so none of them still holds v; cells outside those groups
      are untouched. */
  lemma SetCells(s: State, k: nat, v: int)
    requires EarlyWf(s) && k < 81 && ValidMove(s, k, v)
    ensures forall j | 0 <= j < 81 && j != k :: SetSpec(s, k, v).value.cells[j].value == s.cells[j].value
    ensures forall j | 0 <= j < 81 :: SetSpec(s, k, v).value.cells[j].values <= s.cells[j].values
    ensures forall j, i | 0 <= j < 81 && 0 <= i < 3 && InGroup(j, CellGroups(k)[i]) ::
      SetSpec(s, k, v).value.cells[j].values <= SetSpec(s, k, v).value.sets[CellGroups(k)[i]] &&
      v !in SetSpec(s, k, v).value.cells[j].values
    ensures forall j | 0 <= j < 81 && !InGroup(j, CellGroups(k)[0]) && !InGroup(j, CellGroups(k)[1]) &&
      !InGroup(j, CellGroups(k)[2]) :: SetSpec(s, k, v).value.cells[j] == s.cells[j]
  {
    var gs := CellGroups(k);
    var t0, t1, t2 := SetSteps(s, k, v);
    var t := SetSpec(s, k, v).value;
    assert t.sets[gs[0]] == t1.sets[gs[0]] && t.sets[gs[1]] == t2.sets[gs[1]];
    forall j | 0 <= j < 81
      ensures j != k ==> t.cells[j].value == s.cells[j].value
      ensures t.cells[j].values <= s.cells[j].values
      ensures InGroup(j, gs[0]) ==> t.cells[j].values <= t.sets[gs[0]] && v !in t.cells[j].values
      ensures InGroup(j, gs[1]) ==> t.cells[j].values <= t.sets[gs[1]] && v !in t.cells[j].values
      ensures InGroup(j, gs[2]) ==> t.cells[j].values <= t.sets[gs[2]] && v !in t.cells[j].values
      ensures !InGroup(j, gs[0]) && !InGroup(j, gs[1]) && !InGroup(j, gs[2]) ==> t.cells[j] == s.cells[j]
    {
      if j == k {
        Partition(k, gs[0]);
      }
      CellChain(t0.cells[j], t1.cells[j], t2.cells[j], t.cells[j],
        InGroup(j, gs[0]), InGroup(j, gs[1]), InGroup(j, gs[2]), t1.sets[gs[0]], t2.sets[gs[1]], t.sets[gs[2]], v);
    }
    forall j, i | 0 <= j < 81 && 0 <= i < 3 && InGroup(j, gs[i])
      ensures t.cells[j].values <= t.sets[gs[i]] && v !in t.cells[j].values
    {
      if i == 0 {
      } else if i == 1 {
      } else {
      }
    }
  }

  /** One cell through the three updates: each narrows it to a set without
      v when the cell is in that group. */
  lemma CellChain(c0: Cell, c1: Cell, c2: Cell, c3: Cell, in0: bool, in1: bool, in2: bool,
                  S0: set<int>, S1: set<int>, S2: set<int>, v: int)
    requires v !in S0 && v !in S1 && v !in S2
    requires c1 == Cell(c0.value, if in0 then c0.values * S0 else c0.values)
    requires c2 == Cell(c1.value, if in1 then c1.values * S1 else c1.values)
    requires c3 == Cell(c2.value, if in2 then c2.values * S2 else c2.values)
    ensures c3.value == c0.value && c3.values <= c0.values
    ensures in0 ==> c3.values <= S0 && v !in c3.values
    ensures in1 ==> c3.values <= S1 && v !in c3.values
    ensures in2 ==> c3.values <= S2 && v !in c3.values
    ensures !in0 && !in1 && !in2 ==> c3 == c0
  {
  }

  /** Group sets only shrink under a move. */
  lemma SetShrinks(s: State, k: nat, v: int)
    requires EarlyWf(s) && k < 81 && SetSpec(s, k, v).Some?
    ensures forall g | 0 <= g < 27 :: SetSpec(s, k, v).value.sets[g] <= s.sets[g]
  {
    SetFacts(s, k, v);
  }

  /** Every placed value is gone from the sets of the placed cell's groups. */
  predicate Placed(s: State)
    requires EarlyWf(s)
  {
    forall j, i | 0 <= j < 81 && 0 <= i < 3 && s.cells[j].value != 0 ::
      s.cells[j].value !in s.sets[CellGroups(j)[i]]
  }

  lemma StartPlaced()
    ensures Placed(Start())
  {
  }

  /** Moves keep Placed. */
  lemma SetPlaced(s: State, k: nat, v: int)
    requires EarlyWf(s) && k < 81 && Placed(s) && SetSpec(s, k, v).Some?
    ensures Placed(SetSpec(s, k, v).value)
  {
    SetFacts(s, k, v);
    SetCells(s, k, v);
    PlacedAfter(s, SetSpec(s, k, v).value, k, v);
  }

  /** Placed carries over to a board whose only new value is v at k, whose
      sets only shrink, and whose sets for k's groups no longer hold v. */
  lemma PlacedAfter(s: State, t: State, k: nat, v: int)
    requires EarlyWf(s) && EarlyWf(t) && k < 81 && Placed(s)
    requires t.cells[k].value == v
    requires forall g | 0 <= g < 27 :: t.sets[g] == if g in CellGroups(k) then s.sets[g] - {v} else s.sets[g]
    requires forall j | 0 <= j < 81 && j != k :: t.cells[j].value == s.cells[j].value
    ensures Placed(t)
  {
    forall j, i | 0 <= j < 81 && 0 <= i < 3 && t.cells[j].value != 0
      ensures t.cells[j].value !in t.sets[CellGroups(j)[i]]
    {
      var g := CellGroups(j)[i];
      if j == k {
        assert g in CellGroups(k);
      } else {
        assert t.cells[j].value == s.cells[j].value;
      }
    }
  }

  /** On a board reached by moves, a value placed in a group is never
      accepted again by a cell of that group. */
  lemma NoSecondPlacement(s: State, j: nat, g: nat, k: nat)
    requires EarlyWf(s) && Placed(s) && j < 81 && g < 27 && k < 81
    requires InGroup(j, g) && InGroup(k, g) && s.cells[j].value != 0
    ensures SetSpec(s, k, s.cells[j].value).None?
  {
    Partition(j, g);
    Partition(k, g);
    var i :| 0 <= i < 3 && CellGroups(j)[i] == g;
  }

  // ---------------------------------------------------------------------
  // The board object.

  class EarlyBoard {
    const cells: array<Cell>
    const sets: array<set<int>>

    predicate Valid()
      reads this
    {
      cells.Length == 81 && sets.Length == 27
    }

    function Snapshot(): State
      reads this, cells, sets
    {
      State(cells[..], sets[..])
    }

    /** `Board(cells=[[Cell(i, j) ...]])`: every cell and every group
        starts with 1..9. */
    constructor ()
      ensures Valid() && fresh(cells) && fresh(sets)
      ensures Snapshot() == Start()
    {
      cells := new Cell[81](k requires 0 <= k < 81 reads {} => Cell(0, Digits));
      sets := new set<int>[27](g requires 0 <= g < 27 reads {} => Digits);
      new;
      assert cells[..] == Start().cells;
      assert sets[..] == Start().sets;
    }

    /** `cell.validate_move(v)`. */
    method ValidateMove(k: nat, v: int) returns (ok: bool)
      requires Valid() && k < 81
      ensures ok <==> v in sets[BlockOf(k)] && v in sets[ColumnGroup(ColumnOf(k))] && v in sets[RowGroup(RowOf(k))]
    {
      ok := v in sets[BlockOf(k)] * sets[ColumnGroup(ColumnOf(k))] * sets[RowGroup(RowOf(k))];
    }

    /** `group.update(v)`: false for the KeyError of a value the group no
        longer offers. */
    method Update(g: nat, v: int) returns (ok: bool)
      requires Valid() && EarlyWf(Snapshot()) && g < 27
      modifies cells, sets
      ensures UpdateSpec(old(Snapshot()), g, v).Some? <==> ok
      ensures ok ==> Snapshot() == UpdateSpec(old(Snapshot()), g, v).value
      ensures !ok ==> Snapshot() == old(Snapshot())
    {
      if v !in sets[g] {
        return false;
      }
      ghost var c0 := cells[..];
      sets[g] := sets[g] - {v};
      var keep := sets[g];
      var ms := GroupCells(g);
      var p := 0;
      while p < 9
        invariant 0 <= p <= 9
        invariant cells[..] == Narrow(c0, ms[..p], keep)
        invariant sets[..] == old(sets[..])[g := keep]
      {
        assert ms[..p + 1][..p] == ms[..p];
        var c := ms[p];
        if cells[c].values != {} {
          cells[c] := cells[c].(values := cells[c].values * keep);
        }
        p := p + 1;
      }
      assert ms[..p] == ms;
      return true;
    }

    /** The value setter. False when the move is illegal: the source raises
        an `IllegalMove` that is not an exception class, which fails the
        raise itself; the board is untouched either way. */
    method SetValue(k: nat, v: int) returns (ok: bool)
      requires Valid() && EarlyWf(Snapshot()) && k < 81
      modifies cells, sets
      ensures ok <==> SetSpec(old(Snapshot()), k, v).Some?
      ensures ok ==> Snapshot() == SetSpec(old(Snapshot()), k, v).value
      ensures !ok ==> Snapshot() == old(Snapshot())
    {
      ghost var s0 := Snapshot();
      ok := ValidateMove(k, v);
      if !ok {
        return;
      }
      cells[k] := Cell(v, {});
      var gs := CellGroups(k);
      ghost var t := State(s0.cells[k := Cell(v, {})], s0.sets);
      assert Snapshot() == t;
      var i := 0;
      while i < 3
        invariant 0 <= i <= 3
        invariant Snapshot() == Chain(t, gs, v, i)
      {
        var done := Update(gs[i], v);
        i := i + 1;
      }
    }

    /** `board == other`: row by row, cell by cell, comparing values only. */
    method Equals(other: EarlyBoard) returns (r: bool)
      requires Valid() && other.Valid()
      ensures r <==> SameValues(Snapshot(), other.Snapshot())
    {
      var i := 0;
      while i < 9
        invariant 0 <= i <= 9
        invariant forall k | 0 <= k < 9 * i :: cells[k].value == other.cells[k].value
      {
        var j := 0;
        while j < 9
          invariant 0 <= j <= 9
          invariant forall k | 0 <= k < 9 * i + j :: cells[k].value == other.cells[k].value
        {
          if cells[Index(i, j)].value != other.cells[Index(i, j)].value {
            assert !(Snapshot().cells[Index(i, j)].value == other.Snapshot().cells[Index(i, j)].value);
            return false;
          }
          j := j + 1;
        }
        i := i + 1;
      }
      return true;
    }
  }
}
