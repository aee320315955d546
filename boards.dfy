/** Whole-board operations, as functions of the board state: construction
    and copying, the open cells, the naked-single fixed point (`reduce`), the
    group combinations, the branch sets (`search`), the marking and the text
    rendering. The `Board` class in module Sudoku carries out the imperative
    ones and is proved to agree with these. */
module Boards {
  import opened Wrappers
  import opened Grid
  import opened Cells
  import opened Groups
  import Itertools
  import Sorting
  import Text
  import opened Sets

  // ---------------------------------------------------------------------
  // Construction and copying.

  /** The union of the domains of the group's cells: the group's initial set. */
  function GroupSet(cells: seq<Cell>, g: nat): set<int>
    requires |cells| == 81 && g < 27
  {
    set p, v | 0 <= p < 9 && v in cells[GroupCells(g)[p]].values :: v
  }

  /** A board over the given cells: each group's set starts as the union of
      its cells' domains. */
  function FromCells(cells: seq<Cell>): (s: State)
    requires |cells| == 81
    ensures |s.cells| == 81 && |s.sets| == 27 && s.cells == cells
    ensures forall g | 0 <= g < 27 :: s.sets[g] == GroupSet(cells, g)
  {
    State(cells, seq(27, g requires 0 <= g < 27 => GroupSet(cells, g)))
  }

  /** The shape every cell of a board has: digits only, no domain once
      assigned. */
  predicate CellsWf(cells: seq<Cell>)
  {
    && |cells| == 81
    && (forall k | 0 <= k < 81 :: cells[k].values <= Digits)
    && (forall k | 0 <= k < 81 :: cells[k].value != 0 ==> cells[k].values == {})
  }

  /** Building a board from well-shaped cells yields a consistent board. */
  lemma FromCellsFacts(cells: seq<Cell>)
    requires CellsWf(cells)
    ensures Wf(FromCells(cells)) && Consistent(FromCells(cells))
  {
    var s := FromCells(cells);
    forall g | 0 <= g < 27 ensures s.sets[g] <= Digits {
      forall v | v in s.sets[g] ensures v in Digits {
        var p :| 0 <= p < 9 && v in cells[GroupCells(g)[p]].values;
      }
    }
    forall k, i | 0 <= k < 81 && 0 <= i < 3 ensures s.cells[k].values <= s.sets[CellGroups(k)[i]] {
      CellGroupsShape(k);
      var g := CellGroups(k)[i];
      var p :| 0 <= p < 9 && GroupCells(g)[p] == k;
      forall v | v in cells[k].values ensures v in GroupSet(cells, g) {
        assert v in cells[GroupCells(g)[p]].values;
      }
    }
  }

  /** `Board()`: every cell open with the full domain. */
  function Fresh(): (s: State)
    ensures Wf(s) && Consistent(s)
    ensures forall k | 0 <= k < 81 :: s.cells[k] == Cell(0, Digits)
    ensures forall g | 0 <= g < 27 :: s.sets[g] == Digits
  {
    var cells := seq(81, k requires 0 <= k < 81 => Cell(0, Digits));
    FromCellsFacts(cells);
    var s := FromCells(cells);
    forall g | 0 <= g < 27 ensures s.sets[g] == Digits {
      assert cells[GroupCells(g)[0]].values == Digits;
    }
    s
  }

  /** `copy(cell)`: the value is kept; an open cell keeps its domain unless
      it is empty, which reads back as the full domain (`values or set(V)`). */
  function CopyCell(c: Cell): Cell
  {
    if c.value != 0 then Cell(c.value, {})
    else if c.values == {} then Cell(0, Digits)
    else c
  }

  /** `copy(board)`: a board built over copies of the cells. */
  function CopyState(s: State): State
    requires |s.cells| == 81
  {
    FromCells(seq(81, k requires 0 <= k < 81 => CopyCell(s.cells[k])))
  }

  // ---------------------------------------------------------------------
  // Queries.

  /** Cell-wise equality of assigned values (`Board.__eq__`): coordinates
      agree position by position, so only values are compared. */
  predicate SameValues(a: State, b: State)
    requires |a.cells| == 81 && |b.cells| == 81
  {
    forall k | 0 <= k < 81 :: a.cells[k].value == b.cells[k].value
  }

  function OpenSet(s: State): set<nat>
    requires |s.cells| == 81
  {
    set k | 0 <= k < 81 && IsOpen(s.cells[k])
  }

  /** `terminal`: the scan finds no open cell. */
  predicate Terminal(s: State)
    requires |s.cells| == 81
  {
    forall k | 0 <= k < 81 :: !IsOpen(s.cells[k])
  }

  /** `next(board.open(1), None)` finds a cell: some open cell has exactly
      one candidate. */
  predicate HasSingle(s: State)
    requires |s.cells| == 81
  {
    exists k | 0 <= k < 81 :: IsOpen(s.cells[k]) && |s.cells[k].values| == 1
  }

  /** Some group still offers values but has no open cell left. Boards in
      this condition branch on an empty marking. */
  predicate Stale(s: State)
    requires |s.cells| == 81 && |s.sets| == 27
  {
    exists g | 0 <= g < 27 :: s.sets[g] != {} && forall p | 0 <= p < 9 :: !IsOpen(s.cells[GroupCells(g)[p]])
  }

  /** A copy agrees with the original value for value, is consistent, has a
      non-empty domain in every open cell, and is never stale. */
  lemma CopyFacts(s: State)
    requires Wf(s)
    ensures var t := CopyState(s);
      && Wf(t) && Consistent(t) && SameValues(t, s) && !Stale(t)
      && OpenSet(t) == OpenSet(s)
      && (forall k | 0 <= k < 81 && IsOpen(t.cells[k]) :: t.cells[k].values != {})
      && (forall k | 0 <= k < 81 && s.cells[k].values != {} :: t.cells[k] == s.cells[k])
  {
    var cells := seq(81, k requires 0 <= k < 81 => CopyCell(s.cells[k]));
    FromCellsFacts(cells);
    var t := CopyState(s);
    assert t.cells == cells;
    forall k | 0 <= k < 81 && IsOpen(t.cells[k]) ensures t.cells[k].values != {} {
      assert t.cells[k] == CopyCell(s.cells[k]);
      assert 1 in Digits;
    }
    forall g | 0 <= g < 27 && t.sets[g] != {}
      ensures exists p | 0 <= p < 9 :: IsOpen(t.cells[GroupCells(g)[p]])
    {
      var v :| v in t.sets[g];
      var p :| 0 <= p < 9 && v in cells[GroupCells(g)[p]].values;
    }
  }

  // ---------------------------------------------------------------------
  // The naked-single fixed point.

  /** The scan for singles over cells 0..n-1, in row-major order; each cell
      is examined when the scan reaches it, on the board as it is then. */
  function Singles(s: State, n: nat): (o: Outcome)
    requires Wf(s) && n <= 81
    ensures !o.Crashed? ==> Wf(o.st)
    decreases n
  {
    if n == 0 then Normal(s)
    else
      match Singles(s, n - 1)
      case Normal(s1) => SingleAt(s1, n - 1)
      case other => other
  }

  /** Cell k of the scan: an open cell with a single candidate is assigned it. */
  function SingleAt(s: State, k: nat): (o: Outcome)
    requires Wf(s) && k < 81
    ensures !o.Crashed? ==> Wf(o.st)
  {
    var c := s.cells[k];
    if IsOpen(c) && |c.values| == 1 then AssignSpec(s, k, Only(c.values)) else Normal(s)
  }

  /** The group order of one pass: blocks, then columns, then rows. */
  function PassOrder(): (gs: seq<nat>)
    ensures |gs| == 27 && AllBelow(gs, 27)
  {
    seq(9, i requires 0 <= i < 9 => i) + seq(9, i requires 0 <= i < 9 => 18 + i)
      + seq(9, i requires 0 <= i < 9 => 9 + i)
  }

  /** Each listed group's reduction in turn; only a block can crash. */
  function ReduceGroups(s: State, gs: seq<nat>): (o: Outcome)
    requires Wf(s) && AllBelow(gs, 27)
    ensures o.Normal? || o.Crashed?
    ensures o.Normal? ==> Wf(o.st) && o.st.sets == s.sets
    ensures o.Normal? ==> forall j | 0 <= j < 81 ::
      o.st.cells[j].value == s.cells[j].value && o.st.cells[j].values <= s.cells[j].values
    decreases |gs|
  {
    if gs == [] then Normal(s)
    else
      match ReduceGroups(s, gs[..|gs| - 1])
      case Normal(s1) =>
        var g := gs[|gs| - 1];
        if g < 9 then BlockReduceSpec(s1, g).0 else Normal(GroupReduceSpec(s1, g).0)
      case other => other
  }

  /** One pass of the `reduce` loop. */
  function Pass(s: State): (o: Outcome)
    requires Wf(s)
    ensures !o.Crashed? ==> Wf(o.st)
  {
    match Singles(s, 81)
    case Normal(s1) => ReduceGroups(s1, PassOrder())
    case other => other
  }

  /** `Board.reduce`: passes repeat while an open cell has a single
      candidate left; an exception ends the loop. */
  function ReduceSpec(s: State): (o: Outcome)
    requires Wf(s)
    ensures !o.Crashed? ==> Wf(o.st)
    ensures o.Normal? ==> !HasSingle(o.st)
    decreases |OpenSet(s)| + (if HasSingle(s) then 0 else 1)
  {
    match Pass(s)
    case Normal(s1) =>
      if HasSingle(s1) then
        ReduceMeasure(s);
        ReduceSpec(s1)
      else Normal(s1)
    case other => other
  }

  /** What the scan for singles leaves, when nothing is raised: cells not yet
      reached are as they were apart from shrunken, still non-empty domains;
      assigned cells stay assigned; every cell reached that was a single on
      the original board is now assigned. */
  lemma {:induction false} SinglesFacts(s: State, n: nat)
    requires Wf(s) && n <= 81 && Singles(s, n).Normal?
    ensures var t := Singles(s, n).st;
      && (forall k | n <= k < 81 :: t.cells[k].value == s.cells[k].value)
      && (forall k | n <= k < 81 :: t.cells[k].values <= s.cells[k].values)
      && (forall k | n <= k < 81 :: s.cells[k].values != {} ==> t.cells[k].values != {})
      && (forall k | 0 <= k < 81 :: !IsOpen(s.cells[k]) ==> !IsOpen(t.cells[k]))
      && (forall k | 0 <= k < n :: IsOpen(s.cells[k]) && |s.cells[k].values| == 1 ==> !IsOpen(t.cells[k]))
    decreases n
  {
    if n > 0 {
      SinglesFacts(s, n - 1);
      var s1 := Singles(s, n - 1).st;
      var k := n - 1;
      var c := s1.cells[k];
      if IsOpen(c) && |c.values| == 1 {
        var t := Singles(s, n).st;
        assert t == AssignSpec(s1, k, Only(c.values)).st;
        assert t.cells[k] == Cell(Only(c.values), {});
      } else if IsOpen(s.cells[k]) && |s.cells[k].values| == 1 {
        assert c.values != {} && c.values <= s.cells[k].values;
        SingletonSubset(c.values, s.cells[k].values);
      }
    }
  }

  /** A pass never reopens a cell, and when the board had a single it
      assigns at least one cell. This is the loop's progress measure. */
  lemma PassShrinks(s: State)
    requires Wf(s) && Pass(s).Normal?
    ensures OpenSet(Pass(s).st) <= OpenSet(s)
    ensures HasSingle(s) ==> |OpenSet(Pass(s).st)| < |OpenSet(s)|
  {
    SinglesFacts(s, 81);
    PassValues(s);
    Shrinks(s, Singles(s, 81).st, Pass(s).st);
  }

  /** The open-set step of PassShrinks, stated over the three boards. */
  lemma Shrinks(s: State, s1: State, t: State)
    requires |s.cells| == 81 && |s1.cells| == 81 && |t.cells| == 81
    requires forall k | 0 <= k < 81 :: !IsOpen(s.cells[k]) ==> !IsOpen(s1.cells[k])
    requires forall k | 0 <= k < 81 :: IsOpen(s.cells[k]) && |s.cells[k].values| == 1 ==> !IsOpen(s1.cells[k])
    requires forall k | 0 <= k < 81 :: t.cells[k].value == s1.cells[k].value
    ensures OpenSet(t) <= OpenSet(s)
    ensures HasSingle(s) ==> |OpenSet(t)| < |OpenSet(s)|
  {
    OpenSubset(s, t, -1);
    if HasSingle(s) {
      var k :| 0 <= k < 81 && IsOpen(s.cells[k]) && |s.cells[k].values| == 1;
      OpenSubset(s, t, k);
      SubsetCard(OpenSet(t), OpenSet(s) - {k});
    }
  }

  /** The group reductions of a pass assign nothing. */
  lemma PassValues(s: State)
    requires Wf(s) && Pass(s).Normal?
    ensures Singles(s, 81).Normal?
    ensures forall k | 0 <= k < 81 :: Pass(s).st.cells[k].value == Singles(s, 81).st.cells[k].value
  {
  }

  /** The open cells of t are open in s, except possibly the cell x (when x
      is a valid index, it is open in s and assigned in t). */
  lemma OpenSubset(s: State, t: State, x: int)
    requires |s.cells| == 81 && |t.cells| == 81
    requires forall k | 0 <= k < 81 :: !IsOpen(s.cells[k]) ==> !IsOpen(t.cells[k])
    requires 0 <= x < 81 ==> IsOpen(s.cells[x]) && !IsOpen(t.cells[x])
    ensures OpenSet(t) <= OpenSet(s)
    ensures 0 <= x < 81 ==> OpenSet(t) <= OpenSet(s) - {x}
  {
  }

  lemma ReduceMeasure(s: State)
    requires Wf(s) && Pass(s).Normal?
    ensures |OpenSet(Pass(s).st)| < |OpenSet(s)| + (if HasSingle(s) then 0 else 1)
  {
    PassShrinks(s);
    SubsetCard(OpenSet(Pass(s).st), OpenSet(s));
  }

  // ---------------------------------------------------------------------
  // Marking and rendering.

  /** The assigned cells among 0..n-1, row-major, as ((row, column), value). */
  function MarkingUpTo(s: State, n: nat): seq<Entry>
    requires |s.cells| == 81 && n <= 81
  {
    if n == 0 then []
    else
      var c := s.cells[n - 1];
      MarkingUpTo(s, n - 1) + (if c.value != 0 then [Entry(CoordOf(n - 1), c.value)] else [])
  }

  /** `Board.marking`. */
  function Marking(s: State): seq<Entry>
    requires |s.cells| == 81
  {
    MarkingUpTo(s, 81)
  }

  /** Coordinates in row-major order. */
  predicate Before(a: Coord, b: Coord)
  {
    a.row < b.row || (a.row == b.row && a.column < b.column)
  }

  /** The coordinate names one of the cells 0..n-1. */
  predicate CoordBelow(c: Coord, n: nat)
  {
    0 <= c.row < 9 && 0 <= c.column < 9 && 9 * c.row + c.column < n
  }

  /** The marking lists exactly the assigned cells with their values, in
      row-major order, and every entry names a cell inside the board. */
  lemma {:induction false} MarkingUpToFacts(s: State, n: nat)
    requires |s.cells| == 81 && n <= 81
    ensures forall e :: e in MarkingUpTo(s, n) <==>
      exists k | 0 <= k < n :: s.cells[k].value != 0 && e == Entry(CoordOf(k), s.cells[k].value)
    ensures forall i | 0 <= i < |MarkingUpTo(s, n)| :: CoordBelow(MarkingUpTo(s, n)[i].coord, n)
    ensures forall i, j | 0 <= i < j < |MarkingUpTo(s, n)| :: Before(MarkingUpTo(s, n)[i].coord, MarkingUpTo(s, n)[j].coord)
  {
    if n > 0 {
      MarkingUpToFacts(s, n - 1);
      var m := MarkingUpTo(s, n - 1);
      var c := s.cells[n - 1];
      if c.value != 0 {
        var e := Entry(CoordOf(n - 1), c.value);
        assert MarkingUpTo(s, n) == m + [e];
        forall i | 0 <= i < |m| ensures Before(m[i].coord, e.coord) {
          assert CoordBelow(m[i].coord, n - 1);
        }
      }
    }
  }

  lemma MarkingFacts(s: State)
    requires |s.cells| == 81
    ensures forall e :: e in Marking(s) <==>
      exists k | 0 <= k < 81 :: s.cells[k].value != 0 && e == Entry(CoordOf(k), s.cells[k].value)
    ensures forall i, j | 0 <= i < j < |Marking(s)| :: Before(Marking(s)[i].coord, Marking(s)[j].coord)
  {
    MarkingUpToFacts(s, 81);
  }

  /** A board is terminal exactly when its marking lists all 81 cells. */
  lemma {:induction false} TerminalMarking(s: State)
    requires |s.cells| == 81
    ensures Terminal(s) <==> |Marking(s)| == 81
  {
    MarkingCount(s, 81);
    if Terminal(s) {
      assert OpenSet(s) == {};
      OpenUpToFull(s);
    } else {
      var k :| 0 <= k < 81 && IsOpen(s.cells[k]);
      assert k in OpenUpTo(s, 81);
    }
  }

  /** The open cells among 0..n-1. */
  function OpenUpTo(s: State, n: nat): set<nat>
    requires |s.cells| == 81 && n <= 81
  {
    set k | 0 <= k < n && IsOpen(s.cells[k])
  }

  lemma OpenUpToFull(s: State)
    requires |s.cells| == 81
    ensures OpenUpTo(s, 81) == OpenSet(s)
  {
  }

  /** Among the first n cells, marked ones and open ones add up to n. */
  lemma {:induction false} MarkingCount(s: State, n: nat)
    requires |s.cells| == 81 && n <= 81
    ensures |MarkingUpTo(s, n)| + |OpenUpTo(s, n)| == n
  {
    if n > 0 {
      MarkingCount(s, n - 1);
      if IsOpen(s.cells[n - 1]) {
        assert OpenUpTo(s, n) == OpenUpTo(s, n - 1) + {n - 1};
      } else {
        assert OpenUpTo(s, n) == OpenUpTo(s, n - 1);
      }
    } else {
      assert OpenUpTo(s, 0) == {};
    }
  }

  /** The text of one row: its nine values joined by commas, 0 for open. */
  function RowText(s: State, r: nat): string
    requires |s.cells| == 81 && r < 9
  {
    Text.Join(seq(9, j requires 0 <= j < 9 => Text.IntToString(s.cells[Index(r, j)].value)), ",")
  }

  /** `str(board)`: the nine row texts joined by newlines. */
  function Render(s: State): string
    requires |s.cells| == 81
  {
    Text.Join(seq(9, r requires 0 <= r < 9 => RowText(s, r)), "\n")
  }

  /** The rendering reads back: it splits on newlines into nine lines, each
      line splits on commas into nine fields, and field j of line r parses
      as the value of cell (r, j). */
  lemma RenderReadBack(s: State)
    requires |s.cells| == 81
    ensures |Text.Split(Render(s), '\n')| == 9
    ensures forall r | 0 <= r < 9 :: Text.Split(Render(s), '\n')[r] == RowText(s, r)
    ensures forall r, j | 0 <= r < 9 && 0 <= j < 9 ::
      |Text.Split(RowText(s, r), ',')| == 9 &&
      Text.ParseInt(Text.Split(RowText(s, r), ',')[j]) == Some(s.cells[Index(r, j)].value)
  {
    forall r | 0 <= r < 9 ensures '\n' !in RowText(s, r) && RowSplit(s, r) {
      RowReadBack(s, r);
    }
    var lines := seq(9, r requires 0 <= r < 9 => RowText(s, r));
    Text.SplitJoin(lines, '\n');
  }

  predicate RowSplit(s: State, r: nat)
    requires |s.cells| == 81 && r < 9
  {
    |Text.Split(RowText(s, r), ',')| == 9 &&
    forall j | 0 <= j < 9 :: Text.ParseInt(Text.Split(RowText(s, r), ',')[j]) == Some(s.cells[Index(r, j)].value)
  }

  lemma RowReadBack(s: State, r: nat)
    requires |s.cells| == 81 && r < 9
    ensures '\n' !in RowText(s, r) && RowSplit(s, r)
  {
    var fields := seq(9, j requires 0 <= j < 9 => Text.IntToString(s.cells[Index(r, j)].value));
    forall j | 0 <= j < 9 ensures ',' !in fields[j] && '\n' !in fields[j] {
      Text.IntToStringPlain(s.cells[Index(r, j)].value);
    }
    Text.SplitJoin(fields, ',');
    Text.JoinExcludes(fields, ",", '\n');
    forall j | 0 <= j < 9 ensures Text.ParseInt(fields[j]) == Some(s.cells[Index(r, j)].value) {
      Text.ParseIntToString(s.cells[Index(r, j)].value);
    }
  }

  // ---------------------------------------------------------------------
  // Group combinations.

  /** The values of d in iteration order. For the small integers of a
      domain this is taken to be ascending order. */
  function Elems(d: set<int>): (xs: seq<int>)
    ensures forall x :: x in xs <==> x in d && 1 <= x <= 9
  {
    ElemsFrom(d, 1)
  }

  function ElemsFrom(d: set<int>, lo: int): (xs: seq<int>)
    requires 1 <= lo
    ensures forall x :: x in xs <==> x in d && lo <= x <= 9
    decreases 10 - lo
  {
    if lo > 9 then [] else (if lo in d then [lo] else []) + ElemsFrom(d, lo + 1)
  }

  /** The open cells of group g, in group order (`list(self.open())`). */
  function OpenCells(s: State, g: nat): (cs: seq<nat>)
    requires |s.cells| == 81 && g < 27
    ensures AllBelow(cs, 81)
  {
    OpenAmong(s.cells, GroupCells(g), None)
  }

  /** `len(x) == len(set(x))`: no value repeats. */
  predicate NoRepeats(t: seq<int>)
  {
    forall i, j | 0 <= i < j < |t| :: t[i] != t[j]
  }

  function Distinctly(ts: seq<seq<int>>): (r: seq<seq<int>>)
    ensures forall t :: t in r <==> t in ts && NoRepeats(t)
  {
    if ts == [] then []
    else
      assert forall t | t in ts :: t == ts[0] || t in ts[1..];
      (if NoRepeats(ts[0]) then [ts[0]] else []) + Distinctly(ts[1..])
  }

  /** `zip(coords, t)`: pairs up to the shorter of the two. */
  function Zip(cs: seq<nat>, t: seq<int>): (m: seq<Entry>)
    ensures |m| == if |cs| <= |t| then |cs| else |t|
  {
    var n := if |cs| <= |t| then |cs| else |t|;
    seq(n, i requires 0 <= i < n => Entry(CoordOf(cs[i]), t[i]))
  }

  function ValuesOf(m: seq<Entry>): (t: seq<int>)
    ensures |t| == |m|
  {
    seq(|m|, i requires 0 <= i < |m| => m[i].value)
  }

  /** The domains of the cells, each in iteration order. */
  function DomainsOf(s: State, cs: seq<nat>): (ds: seq<seq<int>>)
    requires |s.cells| == 81 && AllBelow(cs, 81)
    ensures |ds| == |cs|
  {
    seq(|cs|, i requires 0 <= i < |cs| => Elems(s.cells[cs[i]].values))
  }

  /** The tuples `combinations()` keeps: one value per open cell, no repeats. */
  function GroupTuples(s: State, g: nat): seq<seq<int>>
    requires |s.cells| == 81 && g < 27
  {
    Distinctly(Itertools.Product(DomainsOf(s, OpenCells(s, g))))
  }

  /** `Group.combinations()`: every choice of one value per open cell, from
      the product of their domains, with no value used twice, each zipped
      with the cells' coordinates. */
  function GroupCombinations(s: State, g: nat): seq<seq<Entry>>
    requires |s.cells| == 81 && g < 27
  {
    var ts := GroupTuples(s, g);
    seq(|ts|, i requires 0 <= i < |ts| => Zip(OpenCells(s, g), ts[i]))
  }

  /** m gives each open cell of g, in order, a value from its domain, and
      repeats no value. */
  predicate IsCombination(s: State, g: nat, m: seq<Entry>)
    requires |s.cells| == 81 && g < 27
  {
    var cs := OpenCells(s, g);
    && |m| == |cs|
    && (forall i | 0 <= i < |m| :: m[i].coord == CoordOf(cs[i]) && m[i].value in s.cells[cs[i]].values)
    && NoRepeats(ValuesOf(m))
  }

  /** The combinations of a group are exactly its IsCombination markings. */
  lemma CombinationMember(s: State, g: nat, m: seq<Entry>)
    requires Wf(s) && g < 27
    ensures m in GroupCombinations(s, g) <==> IsCombination(s, g, m)
  {
    if m in GroupCombinations(s, g) {
      CombinationSound(s, g, m);
    }
    if IsCombination(s, g, m) {
      CombinationComplete(s, g, m);
    }
  }

  lemma CombinationSound(s: State, g: nat, m: seq<Entry>)
    requires Wf(s) && g < 27 && m in GroupCombinations(s, g)
    ensures IsCombination(s, g, m)
  {
    var cs := OpenCells(s, g);
    var ts := GroupTuples(s, g);
    var r := GroupCombinations(s, g);
    var i :| 0 <= i < |r| && r[i] == m;
    var t := ts[i];
    assert t in ts;
    TupleSound(s, cs, t);
    assert m == Zip(cs, t);
    assert ValuesOf(m) == t;
  }

  /** A tuple of the product of the domains of cs gives each cell a value
      of its domain. */
  lemma TupleSound(s: State, cs: seq<nat>, t: seq<int>)
    requires |s.cells| == 81 && AllBelow(cs, 81) && t in Itertools.Product(DomainsOf(s, cs))
    ensures |t| == |cs| && forall p | 0 <= p < |t| :: t[p] in s.cells[cs[p]].values
  {
    var ds := DomainsOf(s, cs);
    Itertools.ProductMember(ds, t);
    forall p | 0 <= p < |t| ensures t[p] in s.cells[cs[p]].values {
      assert t[p] in ds[p];
    }
  }

  lemma CombinationComplete(s: State, g: nat, m: seq<Entry>)
    requires Wf(s) && g < 27 && IsCombination(s, g, m)
    ensures m in GroupCombinations(s, g)
  {
    var cs := OpenCells(s, g);
    var ds := DomainsOf(s, cs);
    var ts := GroupTuples(s, g);
    var t := ValuesOf(m);
    forall p | 0 <= p < |t| ensures t[p] in ds[p] {
      assert t[p] in s.cells[cs[p]].values;
    }
    Itertools.ProductMember(ds, t);
    assert t in ts;
    var i :| 0 <= i < |ts| && ts[i] == t;
    assert Zip(cs, t) == m;
    assert GroupCombinations(s, g)[i] == m;
  }

  predicate Unique(xs: seq<nat>)
  {
    forall i, j | 0 <= i < j < |xs| :: xs[i] != xs[j]
  }

  /** No cell appears twice among the open cells of a group. */
  lemma OpenCellsDistinct(s: State, g: nat)
    requires |s.cells| == 81 && g < 27
    ensures Unique(OpenCells(s, g))
  {
    GroupCellsAllDistinct(g);
    OpenAmongDistinct(s.cells, GroupCells(g));
  }

  /** The open cells of a group are open cells of the board lying in the
      group; there are none exactly when every member is assigned. */
  lemma OpenCellsMembers(s: State, g: nat)
    requires |s.cells| == 81 && g < 27
    ensures forall i | 0 <= i < |OpenCells(s, g)| :: IsOpen(s.cells[OpenCells(s, g)[i]]) && g in CellGroups(OpenCells(s, g)[i])
    ensures OpenCells(s, g) == [] <==> forall p | 0 <= p < 9 :: !IsOpen(s.cells[GroupCells(g)[p]])
  {
    var cs := OpenCells(s, g);
    forall i | 0 <= i < |cs| ensures IsOpen(s.cells[cs[i]]) && g in CellGroups(cs[i]) {
      assert cs[i] in cs;
      Partition(cs[i], g);
    }
    if cs == [] {
      forall p | 0 <= p < 9 ensures !IsOpen(s.cells[GroupCells(g)[p]]) {
        assert GroupCells(g)[p] in GroupCells(g);
      }
    } else {
      assert cs[0] in cs;
    }
  }

  lemma {:induction false} OpenAmongDistinct(cells: seq<Cell>, ms: seq<nat>)
    requires AllBelow(ms, |cells|)
    requires Unique(ms)
    ensures Unique(OpenAmong(cells, ms, None))
  {
    if ms != [] {
      OpenAmongDistinct(cells, ms[1..]);
      var rest := OpenAmong(cells, ms[1..], None);
      var c := cells[ms[0]];
      forall i | 0 <= i < |rest| ensures rest[i] != ms[0] {
        assert rest[i] in ms[1..];
      }
      if c.value == 0 {
        var r := OpenAmong(cells, ms, None);
        assert r == [ms[0]] + rest;
        forall i, j | 0 <= i < j < |r| ensures r[i] != r[j] {
          if i > 0 { assert r[i] == rest[i - 1]; }
          assert r[j] == rest[j - 1];
        }
      } else {
        assert OpenAmong(cells, ms, None) == rest;
      }
    }
  }

  // ---------------------------------------------------------------------
  // Branch sets.

  /** The groups lo..hi-1 whose available set is non-empty, in order. */
  function Live(s: State, lo: nat, hi: nat): (gs: seq<nat>)
    requires |s.sets| == 27 && hi <= 27
    ensures forall g :: g in gs <==> lo <= g < hi && s.sets[g] != {}
    ensures forall i, j | 0 <= i < j < |gs| :: gs[i] < gs[j]
    ensures forall i | 0 <= i < |gs| :: lo <= gs[i] < hi
    decreases hi - lo
  {
    if lo >= hi then []
    else (if s.sets[lo] != {} then [lo] else []) + Live(s, lo + 1, hi)
  }

  /** `[group.combinations() for group in kind if group.values]` for kind 0
      (blocks), 1 (rows) or 2 (columns). */
  function KindLists(s: State, kind: nat): (ls: seq<seq<seq<Entry>>>)
    requires Wf(s) && kind < 3
  {
    var gs := Live(s, 9 * kind, 9 * kind + 9);
    seq(|gs|, i requires 0 <= i < |gs| => GroupCombinations(s, gs[i]))
  }

  /** `next(iter(sorted(lists, key=len)))` for a non-empty kind; nothing for
      an empty one (`filter(None, ...)`). */
  function HeadOf(ls: seq<seq<seq<Entry>>>): (h: seq<seq<seq<Entry>>>)
    ensures |h| <= 1 && (h == [] <==> ls == [])
  {
    if ls == [] then []
    else
      Sorting.SortHead(ls);
      [Sorting.SortByLength(ls)[0]]
  }

  function Heads(s: State): seq<seq<seq<Entry>>>
    requires Wf(s)
  {
    HeadOf(KindLists(s, 0)) + HeadOf(KindLists(s, 1)) + HeadOf(KindLists(s, 2))
  }

  /** `Board.search()`. */
  function Search(s: State): seq<seq<seq<Entry>>>
    requires Wf(s)
  {
    Sorting.SortByLength(Heads(s))
  }

  /** l is the combination list of the first group of the kind, in board
      order, whose list is shortest among the kind's groups with a non-empty
      set. */
  predicate ShortestOfKind(s: State, kind: nat, l: seq<seq<Entry>>)
    requires Wf(s) && kind < 3
  {
    exists g | 9 * kind <= g < 9 * kind + 9 :: ShortestAt(s, kind, g, l)
  }

  /** l is the list of group g, shortest of its kind and first of that length. */
  predicate ShortestAt(s: State, kind: nat, g: nat, l: seq<seq<Entry>>)
    requires Wf(s) && kind < 3 && 9 * kind <= g < 9 * kind + 9
  {
    && s.sets[g] != {} && l == GroupCombinations(s, g)
    && (forall h | 9 * kind <= h < 9 * kind + 9 && s.sets[h] != {} :: |l| <= |GroupCombinations(s, h)|)
    && (forall h | 9 * kind <= h < g && s.sets[h] != {} :: |l| < |GroupCombinations(s, h)|)
  }

  /** A kind contributes a list exactly when one of its groups has a
      non-empty set, and the list it contributes is its first shortest. */
  lemma HeadFacts(s: State, kind: nat)
    requires Wf(s) && kind < 3
    ensures HeadOf(KindLists(s, kind)) == [] <==> forall g | 9 * kind <= g < 9 * kind + 9 :: s.sets[g] == {}
    ensures HeadOf(KindLists(s, kind)) != [] ==> ShortestOfKind(s, kind, HeadOf(KindLists(s, kind))[0])
  {
    var gs := Live(s, 9 * kind, 9 * kind + 9);
    if exists g | 9 * kind <= g < 9 * kind + 9 :: s.sets[g] != {} {
      var g :| 9 * kind <= g < 9 * kind + 9 && s.sets[g] != {};
      assert g in gs;
    }
    if gs != [] {
      HeadShortest(s, kind);
    }
  }

  lemma HeadShortest(s: State, kind: nat)
    requires Wf(s) && kind < 3 && Live(s, 9 * kind, 9 * kind + 9) != []
    ensures HeadOf(KindLists(s, kind)) != [] && ShortestOfKind(s, kind, HeadOf(KindLists(s, kind))[0])
  {
    var gs := Live(s, 9 * kind, 9 * kind + 9);
    var ls := KindLists(s, kind);
    KindListsAt(s, kind, gs, ls);
    Sorting.SortHead(ls);
    var i := Sorting.FirstShortest(ls);
    assert HeadOf(ls) == [ls[i]];
    FirstShortestAt(s, kind, gs, ls, i);
  }

  /** The kind's lists are the combination lists of its live groups, in order. */
  lemma KindListsAt(s: State, kind: nat, gs: seq<nat>, ls: seq<seq<seq<Entry>>>)
    requires Wf(s) && kind < 3 && gs == Live(s, 9 * kind, 9 * kind + 9) && ls == KindLists(s, kind)
    ensures |ls| == |gs| && forall j | 0 <= j < |gs| :: ls[j] == GroupCombinations(s, gs[j])
  {
  }

  lemma FirstShortestAt(s: State, kind: nat, gs: seq<nat>, ls: seq<seq<seq<Entry>>>, i: nat)
    requires Wf(s) && kind < 3 && gs == Live(s, 9 * kind, 9 * kind + 9)
    requires |ls| == |gs| && forall j | 0 <= j < |gs| :: ls[j] == GroupCombinations(s, gs[j])
    requires i < |ls| && forall a | 0 <= a < |ls| :: |ls[i]| <= |ls[a]|
    requires forall a | 0 <= a < i :: |ls[a]| > |ls[i]|
    ensures i < |gs| && 9 * kind <= gs[i] < 9 * kind + 9 && ShortestAt(s, kind, gs[i], ls[i])
  {
    var g := gs[i];
    assert g in gs;
    forall h | 9 * kind <= h < 9 * kind + 9 && s.sets[h] != {}
      ensures |ls[i]| <= |GroupCombinations(s, h)| && (h < g ==> |ls[i]| < |GroupCombinations(s, h)|)
    {
      assert h in gs;
      var j :| 0 <= j < |gs| && gs[j] == h;
      EarlierLonger(gs, ls, i, j);
    }
  }

  /** In a list indexed by increasing groups, a list at or after the first
      shortest is no shorter, and one for an earlier group is longer. */
  lemma EarlierLonger<T>(gs: seq<nat>, xs: seq<seq<T>>, i: nat, j: nat)
    requires |xs| == |gs| && i < |gs| && j < |gs|
    requires forall a, b | 0 <= a < b < |gs| :: gs[a] < gs[b]
    requires forall a | 0 <= a < |xs| :: |xs[i]| <= |xs[a]|
    requires forall a | 0 <= a < i :: |xs[a]| > |xs[i]|
    ensures |xs[i]| <= |xs[j]| && (gs[j] < gs[i] ==> |xs[i]| < |xs[j]|)
  {
    if gs[j] < gs[i] {
      assert !(i < j) && j != i;
    }
  }

  /** `search` returns one list per kind that has a group with a non-empty
      set, each the kind's first shortest combination list, ordered by
      length, equal lengths keeping block, row, column order. */
  lemma SearchFacts(s: State)
    requires Wf(s)
    ensures multiset(Search(s)) == multiset(Heads(s)) && |Search(s)| <= 3
    ensures Sorting.SortedByLength(Search(s))
    ensures forall n: nat :: Sorting.OfLength(Search(s), n) == Sorting.OfLength(Heads(s), n)
    ensures forall l | l in Search(s) :: exists kind | 0 <= kind < 3 :: ShortestOfKind(s, kind, l)
  {
    var hs := Heads(s);
    Sorting.SortFacts(hs);
    assert |Search(s)| == |multiset(Search(s))| == |multiset(hs)| == |hs|;
    forall l | l in Search(s) ensures exists kind | 0 <= kind < 3 :: ShortestOfKind(s, kind, l) {
      assert l in multiset(hs);
      HeadsShortest(s, hs, l);
    }
  }

  lemma HeadsShortest(s: State, hs: seq<seq<seq<Entry>>>, l: seq<seq<Entry>>)
    requires Wf(s) && hs == Heads(s) && l in hs
    ensures exists kind | 0 <= kind < 3 :: ShortestOfKind(s, kind, l)
  {
    var h0, h1, h2 := HeadOf(KindLists(s, 0)), HeadOf(KindLists(s, 1)), HeadOf(KindLists(s, 2));
    assert hs == h0 + h1 + h2;
    var kind := if l in h0 then 0 else if l in h1 then 1 else 2;
    KindHead(s, kind, l);
  }

  lemma KindHead(s: State, kind: nat, l: seq<seq<Entry>>)
    requires Wf(s) && kind < 3 && l in HeadOf(KindLists(s, kind))
    ensures ShortestOfKind(s, kind, l)
  {
    HeadFacts(s, kind);
  }

  /** A marking the search can offer on board s: its entries are legal, and
      it is empty only on a stale board. */
  predicate LegalMarking(s: State, m: seq<Entry>)
    requires |s.cells| == 81 && |s.sets| == 27
  {
    LegalEntries(s, m) && (m == [] ==> Stale(s))
  }

  /** Every entry names an open cell of s inside the board with a value from
      its domain, and no cell comes twice. */
  predicate LegalEntries(s: State, m: seq<Entry>)
    requires |s.cells| == 81
  {
    && (forall i | 0 <= i < |m| :: LegalEntry(s, m[i]))
    && (forall i, j | 0 <= i < j < |m| :: m[i].coord != m[j].coord)
  }

  predicate OnBoard(c: Coord)
  {
    0 <= c.row < 9 && 0 <= c.column < 9
  }

  predicate LegalEntry(s: State, e: Entry)
    requires |s.cells| == 81
  {
    && OnBoard(e.coord)
    && IsOpen(s.cells[Index(e.coord.row, e.coord.column)])
    && e.value in s.cells[Index(e.coord.row, e.coord.column)].values
  }

  /** Every combination of a group whose set is non-empty is a legal marking. */
  lemma CombinationLegal(s: State, g: nat, m: seq<Entry>)
    requires Wf(s) && g < 27 && s.sets[g] != {} && m in GroupCombinations(s, g)
    ensures LegalMarking(s, m)
  {
    CombinationSound(s, g, m);
    OpenCellsDistinct(s, g);
    OpenCellsMembers(s, g);
    EntriesLegal(s, OpenCells(s, g), m);
  }

  lemma EntriesLegal(s: State, cs: seq<nat>, m: seq<Entry>)
    requires |s.cells| == 81 && AllBelow(cs, 81) && Unique(cs) && |m| == |cs|
    requires forall i | 0 <= i < |m| :: m[i].coord == CoordOf(cs[i]) && m[i].value in s.cells[cs[i]].values
    requires forall i | 0 <= i < |cs| :: IsOpen(s.cells[cs[i]])
    ensures forall i | 0 <= i < |m| :: LegalEntry(s, m[i])
    ensures forall i, j | 0 <= i < j < |m| :: m[i].coord != m[j].coord
  {
    forall i | 0 <= i < |m| ensures LegalEntry(s, m[i]) {
      assert Index(RowOf(cs[i]), ColumnOf(cs[i])) == cs[i];
    }
    forall i, j | 0 <= i < j < |m| ensures m[i].coord != m[j].coord {
      assert Index(RowOf(cs[i]), ColumnOf(cs[i])) == cs[i];
      assert Index(RowOf(cs[j]), ColumnOf(cs[j])) == cs[j];
    }
  }

  /** Every marking `search` offers is legal on the board. */
  lemma SearchLegal(s: State)
    requires Wf(s)
    ensures forall l, m | l in Search(s) && m in l :: LegalMarking(s, m)
  {
    SearchFacts(s);
    forall l, m | l in Search(s) && m in l ensures LegalMarking(s, m) {
      var kind :| 0 <= kind < 3 && ShortestOfKind(s, kind, l);
      var g :| 9 * kind <= g < 9 * kind + 9 && ShortestAt(s, kind, g, l);
      CombinationLegal(s, g, m);
    }
  }

  // ---------------------------------------------------------------------
  // What `reduce` keeps.

  /** On a consistent board the scan for singles never hits an uncaught
      error, and a scan that ends normally leaves the board consistent. */
  lemma {:induction false} SinglesConsistent(s: State, n: nat)
    requires Wf(s) && Consistent(s) && n <= 81
    ensures !Singles(s, n).Crashed?
    ensures Singles(s, n).Normal? ==> Consistent(Singles(s, n).st)
    decreases n
  {
    if n > 0 {
      SinglesConsistent(s, n - 1);
      if Singles(s, n - 1).Normal? {
        var s1 := Singles(s, n - 1).st;
        var c := s1.cells[n - 1];
        if IsOpen(c) && |c.values| == 1 {
          AssignOpen(s1, n - 1, Only(c.values));
        }
      }
    }
  }

  /** The group reductions of a pass never crash on a consistent board, and
      keep it consistent. */
  lemma {:induction false} ReduceGroupsConsistent(s: State, gs: seq<nat>)
    requires Wf(s) && Consistent(s) && AllBelow(gs, 27)
    ensures ReduceGroups(s, gs).Normal? && Consistent(ReduceGroups(s, gs).st)
    decreases |gs|
  {
    if gs != [] {
      ReduceGroupsConsistent(s, gs[..|gs| - 1]);
      var s1 := ReduceGroups(s, gs[..|gs| - 1]).st;
      var g := gs[|gs| - 1];
      if g < 9 {
        BlockReduceFacts(s1, g);
      } else {
        GroupReduceFacts(s1, g);
      }
    }
  }

  /** `reduce` on a consistent board either ends normally with a consistent
      board or raises IllegalBoard; it never hits an uncaught error. */
  lemma ReduceConsistent(s: State)
    requires Wf(s) && Consistent(s)
    ensures !ReduceSpec(s).Crashed?
    ensures ReduceSpec(s).Normal? ==> Consistent(ReduceSpec(s).st)
    decreases |OpenSet(s)| + (if HasSingle(s) then 0 else 1)
  {
    SinglesConsistent(s, 81);
    if Singles(s, 81).Normal? {
      ReduceGroupsConsistent(Singles(s, 81).st, PassOrder());
      var s1 := Pass(s).st;
      if HasSingle(s1) {
        ReduceMeasure(s);
        ReduceConsistent(s1);
      }
    }
  }

  /** `reduce` never reopens a cell; if it ends normally with the same open
      cells it started with, it assigned nothing and the group sets are as
      they were. */
  lemma ReduceOpen(s: State)
    requires Wf(s) && ReduceSpec(s).Normal?
    ensures OpenSet(ReduceSpec(s).st) <= OpenSet(s)
    ensures OpenSet(ReduceSpec(s).st) == OpenSet(s) ==> ReduceSpec(s).st.sets == s.sets
    decreases |OpenSet(s)| + (if HasSingle(s) then 0 else 1)
  {
    PassShrinks(s);
    PassSameOpen(s);
    var s1 := Pass(s).st;
    if HasSingle(s1) {
      ReduceMeasure(s);
      ReduceOpen(s1);
      OpenChain(s, s1, ReduceSpec(s1).st);
    }
  }

  /** Two steps that each shrink the open cells, and keep the group sets
      when they do not, compose. */
  lemma OpenChain(s: State, s1: State, t: State)
    requires |s.cells| == 81 && |s1.cells| == 81 && |t.cells| == 81
    requires OpenSet(t) <= OpenSet(s1) <= OpenSet(s)
    requires OpenSet(t) == OpenSet(s1) ==> t.sets == s1.sets
    requires OpenSet(s1) == OpenSet(s) ==> s1.sets == s.sets
    ensures OpenSet(t) <= OpenSet(s)
    ensures OpenSet(t) == OpenSet(s) ==> t.sets == s.sets
  {
  }

  /** A pass that leaves the open cells as they were changes no group set. */
  lemma PassSameOpen(s: State)
    requires Wf(s) && Pass(s).Normal?
    ensures OpenSet(Pass(s).st) == OpenSet(s) ==> Pass(s).st.sets == s.sets
  {
    PassValues(s);
    var s1 := Singles(s, 81).st;
    var t := Pass(s).st;
    if OpenSet(t) == OpenSet(s) {
      SameOpenKept(s, s1, t);
      SinglesNoAssign(s, 81);
    }
  }

  /** When t has the open cells of s and the values of s1, the cells open
      in s are open in s1. */
  lemma SameOpenKept(s: State, s1: State, t: State)
    requires |s.cells| == 81 && |s1.cells| == 81 && |t.cells| == 81
    requires OpenSet(t) == OpenSet(s)
    requires forall k | 0 <= k < 81 :: t.cells[k].value == s1.cells[k].value
    ensures forall k | 0 <= k < 81 && IsOpen(s.cells[k]) :: IsOpen(s1.cells[k])
  {
    forall k | 0 <= k < 81 && IsOpen(s.cells[k]) ensures IsOpen(s1.cells[k]) {
      assert k in OpenSet(s);
      assert k in OpenSet(t);
    }
  }

  /** A scan for singles that leaves every open cell open changed nothing. */
  lemma {:induction false} SinglesNoAssign(s: State, n: nat)
    requires Wf(s) && n <= 81 && Singles(s, n).Normal?
    requires forall k | 0 <= k < n && IsOpen(s.cells[k]) :: IsOpen(Singles(s, n).st.cells[k])
    ensures Singles(s, n).st == s
    decreases n
  {
    if n > 0 {
      SinglesFacts(s, n - 1);
      var s1 := Singles(s, n - 1).st;
      var c := s1.cells[n - 1];
      if !(IsOpen(c) && |c.values| == 1) {
        assert Singles(s, n).st == s1;
        SinglesNoAssign(s, n - 1);
      }
    }
  }

  // ---------------------------------------------------------------------
  // Placed values: what makes a terminal board a solution.

  lemma FreshPlaced()
    ensures Placed(Fresh())
  {
  }

  /** Copying a board whose open cells all still have candidates keeps every
      placed value placed: the copy has the same cells, and each group's
      rebuilt set is the union of its members' domains, which a placed value
      of the group is in none of. */
  lemma CopyPlaced(s: State)
    requires Wf(s) && Placed(s)
    requires forall k | 0 <= k < 81 && IsOpen(s.cells[k]) :: s.cells[k].values != {}
    ensures Wf(CopyState(s)) && Placed(CopyState(s))
  {
    CopyFacts(s);
    var t := CopyState(s);
    assert t.cells == s.cells by {
      forall k | 0 <= k < 81 ensures t.cells[k] == s.cells[k] {
        assert t.cells[k] == CopyCell(s.cells[k]);
      }
    }
    forall x, i | 0 <= x < 81 && 0 <= i < 3 && !IsOpen(t.cells[x]) ensures PlacedIn(t, x, CellGroups(x)[i]) {
      var g := CellGroups(x)[i];
      assert PlacedIn(s, x, g);
      var v := s.cells[x].value;
      assert forall p | 0 <= p < 9 :: v !in s.cells[GroupCells(g)[p]].values;
    }
  }

  /** A board with the values, the group sets and no larger domains than a
      board where every value is placed has every value placed too. */
  lemma PlacedShrunk(s: State, t: State)
    requires Wf(s) && Wf(t) && Placed(s) && t.sets == s.sets
    requires forall j | 0 <= j < 81 :: t.cells[j].value == s.cells[j].value && t.cells[j].values <= s.cells[j].values
    ensures Placed(t)
  {
    forall x, i | 0 <= x < 81 && 0 <= i < 3 && !IsOpen(t.cells[x]) ensures PlacedIn(t, x, CellGroups(x)[i]) {
      assert PlacedIn(s, x, CellGroups(x)[i]);
    }
  }

  /** A scan for singles that ends normally keeps every value placed. */
  lemma {:induction false} SinglesPlaced(s: State, n: nat)
    requires Wf(s) && Placed(s) && n <= 81
    ensures Singles(s, n).Normal? ==> Placed(Singles(s, n).st)
    decreases n
  {
    if n > 0 {
      SinglesPlaced(s, n - 1);
      if Singles(s, n - 1).Normal? {
        var s1 := Singles(s, n - 1).st;
        var c := s1.cells[n - 1];
        if IsOpen(c) && |c.values| == 1 && AssignSpec(s1, n - 1, Only(c.values)).Normal? {
          assert 0 !in c.values;
          AssignNormal(s1, n - 1, Only(c.values));
          PlacedAssign(s1, n - 1, Only(c.values));
        }
      }
    }
  }

  /** `reduce` that ends normally keeps every value placed. */
  lemma ReducePlaced(s: State)
    requires Wf(s) && Placed(s) && ReduceSpec(s).Normal?
    ensures Placed(ReduceSpec(s).st)
    decreases |OpenSet(s)| + (if HasSingle(s) then 0 else 1)
  {
    SinglesPlaced(s, 81);
    var s1 := Singles(s, 81).st;
    PlacedShrunk(s1, Pass(s).st);
    if HasSingle(Pass(s).st) {
      ReduceMeasure(s);
      ReducePlaced(Pass(s).st);
    }
  }

  /** The values the nine cells of group g hold. */
  function GroupValues(s: State, g: nat): set<int>
    requires |s.cells| == 81 && g < 27
  {
    set p | 0 <= p < 9 :: s.cells[GroupCells(g)[p]].value
  }

  /** A terminal board whose values are all placed is a solution: the cells
      of every group hold pairwise different values, and together exactly the
      digits 1..9. */
  lemma TerminalSolved(s: State)
    requires Wf(s) && Placed(s) && Terminal(s)
    ensures forall g, p, q | 0 <= g < 27 && 0 <= p < q < 9 ::
      s.cells[GroupCells(g)[p]].value != s.cells[GroupCells(g)[q]].value
    ensures forall g | 0 <= g < 27 :: GroupValues(s, g) == Digits
  {
    forall g, p, q | 0 <= g < 27 && 0 <= p < q < 9
      ensures s.cells[GroupCells(g)[p]].value != s.cells[GroupCells(g)[q]].value
    {
      GroupDistinct(s, g, p, q);
    }
    forall g | 0 <= g < 27 ensures GroupValues(s, g) == Digits {
      GroupComplete(s, g);
    }
  }

  lemma GroupDistinct(s: State, g: nat, p: nat, q: nat)
    requires Wf(s) && Placed(s) && Terminal(s) && g < 27 && p < 9 && q < 9 && p != q
    ensures s.cells[GroupCells(g)[p]].value != s.cells[GroupCells(g)[q]].value
  {
    var j := GroupCells(g)[p];
    GroupCellsDistinct(g, p, q);
    Partition(j, g);
    var i :| 0 <= i < 3 && CellGroups(j)[i] == g;
    assert !IsOpen(s.cells[j]);
    assert PlacedIn(s, j, CellGroups(j)[i]);
  }

  lemma GroupComplete(s: State, g: nat)
    requires Wf(s) && Placed(s) && Terminal(s) && g < 27
    ensures GroupValues(s, g) == Digits
  {
    var vs := seq(9, p requires 0 <= p < 9 => s.cells[GroupCells(g)[p]].value);
    forall p, q | 0 <= p < q < 9 ensures vs[p] != vs[q] {
      GroupDistinct(s, g, p, q);
    }
    DistinctCard(vs);
    assert GroupValues(s, g) == set i | 0 <= i < |vs| :: vs[i] by {
      forall x | x in GroupValues(s, g) ensures x in set i | 0 <= i < |vs| :: vs[i] {
        var p :| 0 <= p < 9 && s.cells[GroupCells(g)[p]].value == x;
        assert vs[p] == x;
      }
    }
    forall p | 0 <= p < 9 ensures vs[p] in Digits {
      var j := GroupCells(g)[p];
      assert !IsOpen(s.cells[j]);
      assert PlacedIn(s, j, CellGroups(j)[0]);
    }
    DigitsCard();
    FullSubset(GroupValues(s, g), Digits);
  }
}
