/** The board object (`Board` in pysudoku/sudoku.py): 81 cells in an array,
    row-major, and the available sets of the 27 groups in a second array
    (blocks 0..8, rows 9..17, columns 18..26). Its methods change the arrays
    step by step as the source does; each is proved to leave exactly the
    board the matching function of modules Cells, Groups and Boards
    describes, so every fact proved there holds of the object. */
module Sudoku {
  import opened Wrappers
  import opened Grid
  import opened Cells
  import opened Groups
  import opened Boards
  import opened Sets
  import Itertools

  /** How a board operation ended; the board itself is in the arrays. */
  datatype Status = Done | Threw(exc: Exception) | Failed

  function StatusOf(o: Outcome): Status
  {
    match o
    case Normal(_) => Done
    case Raised(e, _) => Threw(e)
    case Crashed => Failed
  }

  /** Once a strip has emptied a domain, later cells are not visited. */
  lemma {:induction false} StripStops(cells: seq<Cell>, ms: seq<nat>, p: nat, v: int)
    requires AllBelow(ms, |cells|) && p <= |ms|
    requires Strip(cells, ms[..p], v).1
    ensures Strip(cells, ms, v) == Strip(cells, ms[..p], v)
    decreases |ms|
  {
    if p == |ms| {
      assert ms[..p] == ms;
    } else {
      var ms' := ms[..|ms| - 1];
      assert ms'[..p] == ms[..p];
      StripStops(cells, ms', p, v);
    }
  }

  /** Once a group step has raised or crashed, later groups are not visited. */
  lemma {:induction false} StripGroupsStops(s: State, gs: seq<nat>, i: nat, v: int)
    requires |s.cells| == 81 && |s.sets| == 27 && AllBelow(gs, 27) && i <= |gs|
    requires !StripGroups(s, gs[..i], v).Normal?
    ensures StripGroups(s, gs, v) == StripGroups(s, gs[..i], v)
    decreases |gs|
  {
    if i == |gs| {
      assert gs[..i] == gs;
    } else {
      var gs' := gs[..|gs| - 1];
      assert gs'[..i] == gs[..i];
      StripGroupsStops(s, gs', i, v);
    }
  }

  /** One more group of StripGroups, after the earlier ones went through. */
  lemma StripGroupsStep(s: State, gs: seq<nat>, i: nat, v: int, prev: State)
    requires |s.cells| == 81 && |s.sets| == 27 && AllBelow(gs, 27) && i < |gs|
    requires StripGroups(s, gs[..i], v) == Normal(prev)
    ensures |prev.cells| == 81 && |prev.sets| == 27
    ensures StripGroups(s, gs[..i + 1], v) == StripInGroup(prev, gs[i], v)
  {
    assert gs[..i + 1][..i] == gs[..i];
  }

  /** Once the scan for singles has raised, later cells are not visited. */
  lemma {:induction false} SinglesStops(s: State, n: nat, m: nat)
    requires Wf(s) && n <= m <= 81 && !Singles(s, n).Normal?
    ensures Singles(s, m) == Singles(s, n)
    decreases m
  {
    if m > n {
      SinglesStops(s, n, m - 1);
    }
  }

  /** Once a block has crashed, later groups are not reduced. */
  lemma {:induction false} ReduceGroupsStops(s: State, gs: seq<nat>, i: nat)
    requires Wf(s) && AllBelow(gs, 27) && i <= |gs|
    requires !ReduceGroups(s, gs[..i]).Normal?
    ensures ReduceGroups(s, gs) == ReduceGroups(s, gs[..i])
    decreases |gs|
  {
    if i == |gs| {
      assert gs[..i] == gs;
    } else {
      var gs' := gs[..|gs| - 1];
      assert gs'[..i] == gs[..i];
      ReduceGroupsStops(s, gs', i);
    }
  }

  /** One group's reduction, as ReduceGroups takes it. */
  function GroupStep(s: State, g: nat): (o: Outcome)
    requires Wf(s) && g < 27
  {
    if g < 9 then BlockReduceSpec(s, g).0 else Normal(GroupReduceSpec(s, g).0)
  }

  lemma ReduceGroupsStep(s: State, gs: seq<nat>, i: nat, prev: State)
    requires Wf(s) && AllBelow(gs, 27) && i < |gs|
    requires ReduceGroups(s, gs[..i]) == Normal(prev)
    ensures Wf(prev)
    ensures GroupStep(prev, gs[i]).Crashed? ==> ReduceGroups(s, gs) == Crashed
    ensures GroupStep(prev, gs[i]).Normal? ==> ReduceGroups(s, gs[..i + 1]) == GroupStep(prev, gs[i])
  {
    assert gs[..i + 1][..i] == gs[..i];
    if GroupStep(prev, gs[i]).Crashed? {
      ReduceGroupsStops(s, gs, i + 1);
    }
  }

  /** The naked-subset passes for the subset sizes from 2 up to n - 1, in
      turn, with what they keep gathered. */
  function PassesBelow(cells: seq<Cell>, g: nat, n: nat): (r: (seq<Cell>, set<int>))
    requires |cells| == 81 && g < 27 && 2 <= n
    ensures |r.0| == 81
    decreases n
  {
    if n == 2 then (cells, {})
    else
      var p := PassesBelow(cells, g, n - 1);
      var q := NakedSubsets(p.0, g, n - 1);
      (q.0, p.1 + q.1)
  }

  lemma PassesStep(cells: seq<Cell>, g: nat, n: nat, cur: seq<Cell>, vals: set<int>, next: seq<Cell>, got: set<int>)
    requires |cells| == 81 && g < 27 && 2 <= n
    requires (cur, vals) == PassesBelow(cells, g, n) && (next, got) == NakedSubsets(cur, g, n)
    ensures (next, vals + got) == PassesBelow(cells, g, n + 1)
  {
  }

  /** The passes for sizes 2 and 3 are `Group.reduce`. */
  lemma PassesAll(s: State, g: nat, n: nat, cur: seq<Cell>, vals: set<int>)
    requires Wf(s) && g < 27 && n == M + 1 && (cur, vals) == PassesBelow(s.cells, g, n)
    ensures (State(cur, s.sets), vals) == GroupReduceSpec(s, g)
  {
    var two := NakedSubsets(s.cells, g, 2);
    assert PassesBelow(s.cells, g, 3) == (two.0, {} + two.1);
    assert {} + two.1 == two.1;
  }

  /** The naked-subset loop after the first q tuples is in state cur and
      has collected got. */
  ghost predicate TuplesPrefix(cells: seq<Cell>, ms: seq<nat>, ts: seq<seq<nat>>, q: nat, cur: seq<Cell>, got: set<int>)
  {
    && AllBelow(ms, |cells|) && q <= |ts|
    && (forall i | 0 <= i < |ts| :: ts[i] != [] && AllBelow(ts[i], |cells|))
    && (cur, got) == ReduceTuples(cells, ms, ts[..q])
  }

  /** Fewer open cells than the subset size: no tuple, nothing changes. */
  lemma NakedShort(cells: seq<Cell>, g: nat, count: nat)
    requires |cells| == 81 && g < 27 && count >= 1
    requires |OpenAmong(cells, GroupCells(g), Some(count))| < count
    ensures NakedSubsets(cells, g, count) == (cells, {})
  {
    Itertools.CombinationsShort(OpenAmong(cells, GroupCells(g), Some(count)), count);
  }

  /** The loop starts over the pass's tuples with nothing done. */
  lemma NakedStart(cells: seq<Cell>, g: nat, count: nat, ts: seq<seq<nat>>)
    requires |cells| == 81 && g < 27 && count >= 1
    requires ts == Itertools.Combinations(OpenAmong(cells, GroupCells(g), Some(count)), count)
    ensures TuplesPrefix(cells, GroupCells(g), ts, 0, cells, {})
    ensures NakedSubsets(cells, g, count) == ReduceTuples(cells, GroupCells(g), ts)
  {
    assert ts == SubsetTuples(cells, g, count);
  }

  /** After every tuple, the loop holds the whole pass. */
  lemma TuplesDone(cells: seq<Cell>, ms: seq<nat>, ts: seq<seq<nat>>, cur: seq<Cell>, got: set<int>)
    requires TuplesPrefix(cells, ms, ts, |ts|, cur, got)
    ensures (cur, got) == ReduceTuples(cells, ms, ts)
  {
    assert ts[..|ts|] == ts;
  }

  /** A tuple that fires eliminates its domain from the other cells. */
  lemma TuplesFired(cells: seq<Cell>, ms: seq<nat>, ts: seq<seq<nat>>, q: nat, cur: seq<Cell>, got: set<int>,
                    next: seq<Cell>, kept: set<int>)
    requires TuplesPrefix(cells, ms, ts, q, cur, got) && q < |ts|
    requires |cur| == |cells| && Fires(cur, ts[q])
    requires (next, kept) == Eliminate(cur, ms, ts[q], cur[ts[q][0]].values)
    ensures TuplesPrefix(cells, ms, ts, q + 1, next, got + kept)
  {
    var pre := ts[..q + 1];
    assert pre[..|pre| - 1] == ts[..q] && pre[|pre| - 1] == ts[q];
  }

  /** A tuple that does not fire changes nothing. */
  lemma TuplesIdle(cells: seq<Cell>, ms: seq<nat>, ts: seq<seq<nat>>, q: nat, cur: seq<Cell>, got: set<int>)
    requires TuplesPrefix(cells, ms, ts, q, cur, got) && q < |ts|
    requires |cur| == |cells| && !Fires(cur, ts[q])
    ensures TuplesPrefix(cells, ms, ts, q + 1, cur, got)
  {
    var pre := ts[..q + 1];
    assert pre[..|pre| - 1] == ts[..q] && pre[|pre| - 1] == ts[q];
  }

  // ---------------------------------------------------------------------
  // The pointing rule as `Block.reduce` carries it out: a dictionary per
  // axis from each value the block offers to the coordinates (rows, or
  // columns) of the block cells holding it, then `apply(valdict, axis)`.
  // Axis 0 is the row, axis 1 the column.

  function AxisOf(axis: nat, k: nat): nat { if axis == 0 then RowOf(k) else ColumnOf(k) }

  function Across(axis: nat, k: nat): nat { if axis == 0 then ColumnOf(k) else RowOf(k) }

  /** The cell at position q of line r along the axis (`cell.row.cells`,
      `cell.column.cells`). */
  function LineCell(axis: nat, r: nat, q: nat): (k: nat)
    requires r < 9 && q < 9
    ensures k < 81 && AxisOf(axis, k) == r && Across(axis, k) == q
  {
    if axis == 0 then Index(r, q) else Index(q, r)
  }

  /** The block's own cells are those whose block number is b. */
  lemma InBlock(k: nat, b: nat)
    requires k < 81 && b < 9
    ensures InGroup(k, b) <==> BlockOf(k) == b
  {
    Partition(k, b);
  }

  /** The cells of line r outside block b, with v removed from their domains. */
  function Cleared(cells: seq<Cell>, b: nat, axis: nat, r: nat, v: int): (cs: seq<Cell>)
    requires |cells| == 81 && b < 9
    ensures |cs| == 81
  {
    seq(81, k requires 0 <= k < 81 =>
      if AxisOf(axis, k) == r && !InGroup(k, b) then cells[k].(values := cells[k].values - {v}) else cells[k])
  }

  /** Some cell of line r outside block b holds v. */
  predicate Hits(cells: seq<Cell>, b: nat, axis: nat, r: nat, v: int)
    requires |cells| == 81 && b < 9
  {
    exists k | 0 <= k < 81 && AxisOf(axis, k) == r && !InGroup(k, b) :: v in cells[k].values
  }

  /** Clearing a line twice is clearing it once, and the second time hits
      nothing. */
  lemma ClearedTwice(cells: seq<Cell>, b: nat, axis: nat, r: nat, v: int)
    requires |cells| == 81 && b < 9
    ensures Cleared(Cleared(cells, b, axis, r, v), b, axis, r, v) == Cleared(cells, b, axis, r, v)
    ensures !Hits(Cleared(cells, b, axis, r, v), b, axis, r, v)
  {
    var once := Cleared(cells, b, axis, r, v);
    forall k | 0 <= k < 81 ensures Cleared(once, b, axis, r, v)[k] == once[k] {
      if AxisOf(axis, k) == r && !InGroup(k, b) {
        assert once[k].values - {v} == once[k].values;
      }
    }
    assert Cleared(once, b, axis, r, v) == once;
  }

  /** The first q cells of line r cleared. */
  function ClearedUpTo(cells: seq<Cell>, b: nat, axis: nat, r: nat, v: int, q: nat): (cs: seq<Cell>)
    requires |cells| == 81 && b < 9
    ensures |cs| == 81
  {
    seq(81, k requires 0 <= k < 81 =>
      if AxisOf(axis, k) == r && Across(axis, k) < q && !InGroup(k, b)
      then cells[k].(values := cells[k].values - {v}) else cells[k])
  }

  predicate HitsUpTo(cells: seq<Cell>, b: nat, axis: nat, r: nat, v: int, q: nat)
    requires |cells| == 81 && b < 9
  {
    exists k | 0 <= k < 81 && AxisOf(axis, k) == r && Across(axis, k) < q && !InGroup(k, b) :: v in cells[k].values
  }

  /** Only one cell sits at a given place on a given line. */
  lemma LineCellUnique(axis: nat, r: nat, q: nat, k: nat)
    requires r < 9 && q < 9 && k < 81 && AxisOf(axis, k) == r && Across(axis, k) == q
    ensures k == LineCell(axis, r, q)
  {
    assert k == 9 * (k / 9) + k % 9;
  }

  /** Clearing one more cell of the line. */
  lemma ClearLineStep(cells: seq<Cell>, b: nat, axis: nat, r: nat, v: int, q: nat)
    requires |cells| == 81 && b < 9 && r < 9 && q < 9
    ensures var c := LineCell(axis, r, q);
      var before := ClearedUpTo(cells, b, axis, r, v, q);
      && before[c] == cells[c]
      && ClearedUpTo(cells, b, axis, r, v, q + 1) ==
           (if !InGroup(c, b) then before[c := cells[c].(values := cells[c].values - {v})] else before)
      && (HitsUpTo(cells, b, axis, r, v, q + 1) <==>
           HitsUpTo(cells, b, axis, r, v, q) || (!InGroup(c, b) && v in cells[c].values))
  {
    var c := LineCell(axis, r, q);
    forall k | 0 <= k < 81 && AxisOf(axis, k) == r && Across(axis, k) == q ensures k == c {
      LineCellUnique(axis, r, q, k);
    }
  }

  /** Some cell of the block lies on line r. */
  predicate BlockMeets(b: nat, axis: nat, r: nat)
    requires b < 9
  {
    exists p | 0 <= p < 9 :: AxisOf(axis, GroupCells(b)[p]) == r
  }

  /** Lines, along the axis, that cross block b. */
  predicate OnBlockLines(b: nat, axis: nat, rs: set<nat>)
    requires b < 9
  {
    forall r | r in rs :: r < 9 && BlockMeets(b, axis, r)
  }

  /** The values of D whose dictionary entry is exactly {r}. */
  function ConfinedIn(dict: map<int, set<nat>>, D: set<int>, r: nat): set<int>
  {
    set v | v in D && v in dict && dict[v] == {r}
  }

  /** What `apply(valdict, axis)` has taken from cell k once the values D
      have been processed: the confined values on k's line, outside the
      block, that k held. */
  function AxisLoss(cells: seq<Cell>, b: nat, axis: nat, dict: map<int, set<nat>>, D: set<int>, k: nat): set<int>
    requires |cells| == 81 && b < 9 && k < 81
  {
    if InGroup(k, b) then {} else cells[k].values * ConfinedIn(dict, D, AxisOf(axis, k))
  }

  function AfterAxis(cells: seq<Cell>, b: nat, axis: nat, dict: map<int, set<nat>>, D: set<int>): (cs: seq<Cell>)
    requires |cells| == 81 && b < 9
    ensures |cs| == 81
  {
    seq(81, k requires 0 <= k < 81 => cells[k].(values := cells[k].values - AxisLoss(cells, b, axis, dict, D, k)))
  }

  /** The values some cell lost (`vals.add(v)`). */
  function AxisRemoved(cells: seq<Cell>, b: nat, axis: nat, dict: map<int, set<nat>>, D: set<int>): set<int>
    requires |cells| == 81 && b < 9
  {
    set k, v | 0 <= k < 81 && v in AxisLoss(cells, b, axis, dict, D, k) :: v
  }

  /** Nothing processed, nothing lost. */
  lemma AxisNone(cells: seq<Cell>, b: nat, axis: nat, dict: map<int, set<nat>>)
    requires |cells| == 81 && b < 9
    ensures AfterAxis(cells, b, axis, dict, {}) == cells
    ensures AxisRemoved(cells, b, axis, dict, {}) == {}
  {
    forall k | 0 <= k < 81 ensures AfterAxis(cells, b, axis, dict, {})[k] == cells[k] {
      assert ConfinedIn(dict, {}, AxisOf(axis, k)) == {};
      assert cells[k].values - {} == cells[k].values;
    }
  }

  /** One more value processed: cell k loses v on top of what it lost,
      exactly when v is confined to k's line and k, outside the block,
      held v. */
  lemma LossStep(cells: seq<Cell>, b: nat, axis: nat, dict: map<int, set<nat>>, D: set<int>, v: int, k: nat)
    requires |cells| == 81 && b < 9 && v in dict && v !in D && k < 81
    ensures AxisLoss(cells, b, axis, dict, D + {v}, k) ==
      AxisLoss(cells, b, axis, dict, D, k) +
      (if !InGroup(k, b) && dict[v] == {AxisOf(axis, k)} && v in cells[k].values then {v} else {})
    ensures v !in AxisLoss(cells, b, axis, dict, D, k)
  {
    assert ConfinedIn(dict, D + {v}, AxisOf(axis, k)) ==
      ConfinedIn(dict, D, AxisOf(axis, k)) + (if dict[v] == {AxisOf(axis, k)} then {v} else {});
  }

  /** A value confined to line r: processing it clears that line. */
  lemma AxisStepSingle(cells: seq<Cell>, b: nat, axis: nat, dict: map<int, set<nat>>, D: set<int>, v: int, r: nat)
    requires |cells| == 81 && b < 9 && v in dict && v !in D && dict[v] == {r}
    ensures var now := AfterAxis(cells, b, axis, dict, D);
      && AfterAxis(cells, b, axis, dict, D + {v}) == Cleared(now, b, axis, r, v)
      && AxisRemoved(cells, b, axis, dict, D + {v}) ==
           AxisRemoved(cells, b, axis, dict, D) + (if Hits(now, b, axis, r, v) then {v} else {})
  {
    var D' := D + {v};
    var now := AfterAxis(cells, b, axis, dict, D);
    forall k | 0 <= k < 81 ensures AfterAxis(cells, b, axis, dict, D')[k] == Cleared(now, b, axis, r, v)[k] {
      LossStep(cells, b, axis, dict, D, v, k);
    }
    assert AfterAxis(cells, b, axis, dict, D') == Cleared(now, b, axis, r, v);
    var before, after := AxisRemoved(cells, b, axis, dict, D), AxisRemoved(cells, b, axis, dict, D');
    forall u | u != v ensures u in after <==> u in before {
      if u in after {
        var k :| 0 <= k < 81 && u in AxisLoss(cells, b, axis, dict, D', k);
        LossStep(cells, b, axis, dict, D, v, k);
      }
      if u in before {
        var k :| 0 <= k < 81 && u in AxisLoss(cells, b, axis, dict, D, k);
        LossStep(cells, b, axis, dict, D, v, k);
      }
    }
    if v in after {
      var k :| 0 <= k < 81 && v in AxisLoss(cells, b, axis, dict, D', k);
      LossStep(cells, b, axis, dict, D, v, k);
      assert v in now[k].values;
    }
    if Hits(now, b, axis, r, v) {
      var k :| 0 <= k < 81 && AxisOf(axis, k) == r && !InGroup(k, b) && v in now[k].values;
      LossStep(cells, b, axis, dict, D, v, k);
    }
    forall k | 0 <= k < 81 ensures v !in AxisLoss(cells, b, axis, dict, D, k) {
      LossStep(cells, b, axis, dict, D, v, k);
    }
  }

  /** The `apply` loop has processed the values D, leaving cells cur and
      the lost values removed. */
  ghost predicate AxisInv(cells: seq<Cell>, b: nat, axis: nat, dict: map<int, set<nat>>, D: set<int>, cur: seq<Cell>, removed: set<int>)
    requires |cells| == 81 && b < 9
  {
    cur == AfterAxis(cells, b, axis, dict, D) && removed == AxisRemoved(cells, b, axis, dict, D)
  }

  /** One more value of `apply`, processed as `ApplyValue` does. */
  lemma AxisAdvance(cells: seq<Cell>, b: nat, axis: nat, dict: map<int, set<nat>>, D: set<int>, v: int,
                    cur: seq<Cell>, removed: set<int>, next: seq<Cell>, hit: bool)
    requires |cells| == 81 && b < 9 && v in dict && v !in D
    requires AxisInv(cells, b, axis, dict, D, cur, removed)
    requires |dict[v]| == 1 ==> next == Cleared(cur, b, axis, Only(dict[v]), v) && (hit <==> Hits(cur, b, axis, Only(dict[v]), v))
    requires |dict[v]| != 1 ==> next == cur && !hit
    ensures AxisInv(cells, b, axis, dict, D + {v}, next, removed + (if hit then {v} else {}))
  {
    if |dict[v]| == 1 {
      AxisStepSingle(cells, b, axis, dict, D, v, Only(dict[v]));
    } else {
      AxisStepOther(cells, b, axis, dict, D, v);
    }
  }

  lemma AxisStepOther(cells: seq<Cell>, b: nat, axis: nat, dict: map<int, set<nat>>, D: set<int>, v: int)
    requires |cells| == 81 && b < 9 && v in dict && v !in D && |dict[v]| != 1
    ensures AfterAxis(cells, b, axis, dict, D + {v}) == AfterAxis(cells, b, axis, dict, D)
    ensures AxisRemoved(cells, b, axis, dict, D + {v}) == AxisRemoved(cells, b, axis, dict, D)
  {
    forall k | 0 <= k < 81
      ensures AxisLoss(cells, b, axis, dict, D + {v}, k) == AxisLoss(cells, b, axis, dict, D, k)
    {
      LossStep(cells, b, axis, dict, D, v, k);
    }
    assert AfterAxis(cells, b, axis, dict, D + {v}) == AfterAxis(cells, b, axis, dict, D);
  }

  /** The lines, along the axis, of the first p cells of block b that hold v. */
  function AxisUpTo(cells: seq<Cell>, b: nat, axis: nat, v: int, p: nat): set<nat>
    requires |cells| == 81 && b < 9 && p <= 9
  {
    set q | 0 <= q < p && v in cells[GroupCells(b)[q]].values :: AxisOf(axis, GroupCells(b)[q])
  }

  lemma AxisUpToStep(cells: seq<Cell>, b: nat, axis: nat, v: int, p: nat)
    requires |cells| == 81 && b < 9 && p < 9
    ensures AxisUpTo(cells, b, axis, v, p + 1) == AxisUpTo(cells, b, axis, v, p) +
      (if v in cells[GroupCells(b)[p]].values then {AxisOf(axis, GroupCells(b)[p])} else {})
  {
  }

  /** The tally of one axis over the first p block cells, keyed by the
      values K: each value maps to the lines of the cells holding it. */
  function TallyUpTo(cells: seq<Cell>, K: set<int>, b: nat, axis: nat, p: nat): map<int, set<nat>>
    requires |cells| == 81 && b < 9 && p <= 9
  {
    map v | v in K :: AxisUpTo(cells, b, axis, v, p)
  }

  /** The tally of one axis, as `Block.reduce` builds it from the block's
      available set. */
  function AxisTally(s: State, b: nat, axis: nat): map<int, set<nat>>
    requires |s.cells| == 81 && |s.sets| == 27 && b < 9
  {
    TallyUpTo(s.cells, s.sets[b], b, axis, 9)
  }

  /** Each value of d gains the line x. */
  function Added(m: map<int, set<nat>>, d: set<int>, x: nat): map<int, set<nat>>
  {
    map v | v in m :: m[v] + (if v in d then {x} else {})
  }

  /** Tallying one more cell adds its line to the entries of the values in
      its domain; an empty domain adds nothing. */
  lemma TallyStep(cells: seq<Cell>, K: set<int>, b: nat, axis: nat, p: nat)
    requires |cells| == 81 && b < 9 && p < 9
    ensures var c := GroupCells(b)[p];
      TallyUpTo(cells, K, b, axis, p + 1) == Added(TallyUpTo(cells, K, b, axis, p), cells[c].values, AxisOf(axis, c))
    ensures cells[GroupCells(b)[p]].values == {} ==> TallyUpTo(cells, K, b, axis, p + 1) == TallyUpTo(cells, K, b, axis, p)
  {
    forall v | v in K ensures AxisUpTo(cells, b, axis, v, p + 1) == AxisUpTo(cells, b, axis, v, p) +
      (if v in cells[GroupCells(b)[p]].values then {AxisOf(axis, GroupCells(b)[p])} else {})
    {
      AxisUpToStep(cells, b, axis, v, p);
    }
    AddedNone(TallyUpTo(cells, K, b, axis, p), AxisOf(axis, GroupCells(b)[p]));
  }

  /** The tally before any cell: every offered value maps to no line. */
  function NoLines(K: set<int>): (m: map<int, set<nat>>)
    ensures m.Keys == K && forall v | v in m :: m[v] == {}
  {
    map v | v in K :: {}
  }

  /** The tally loop after p cells: every domain so far is offered, and
      each axis holds the tally of the first p cells. */
  ghost predicate TallyInv(cells: seq<Cell>, K: set<int>, b: nat, p: nat, rv: map<int, set<nat>>, cv: map<int, set<nat>>)
    requires |cells| == 81 && b < 9 && p <= 9
  {
    && (forall q | 0 <= q < p :: cells[GroupCells(b)[q]].values <= K)
    && rv == TallyUpTo(cells, K, b, 0, p)
    && cv == TallyUpTo(cells, K, b, 1, p)
  }

  /** A partial tally has the offered values as its keys. */
  lemma TallyKeys(cells: seq<Cell>, K: set<int>, b: nat, p: nat, rv: map<int, set<nat>>, cv: map<int, set<nat>>)
    requires |cells| == 81 && b < 9 && p <= 9 && TallyInv(cells, K, b, p, rv, cv)
    ensures rv.Keys == K && cv.Keys == K
  {
  }

  /** Both tallies after one more cell, whose domain, when not empty, is
      offered and adds the cell's row and column. */
  lemma TallyAdvance(cells: seq<Cell>, K: set<int>, b: nat, p: nat,
                     rv: map<int, set<nat>>, cv: map<int, set<nat>>, rv': map<int, set<nat>>, cv': map<int, set<nat>>)
    requires |cells| == 81 && b < 9 && p < 9 && TallyInv(cells, K, b, p, rv, cv)
    requires var c := GroupCells(b)[p];
      if cells[c].values == {} then rv' == rv && cv' == cv
      else cells[c].values <= K && rv' == Added(rv, cells[c].values, RowOf(c)) && cv' == Added(cv, cells[c].values, ColumnOf(c))
    ensures TallyInv(cells, K, b, p + 1, rv', cv')
  {
    TallyStep(cells, K, b, 0, p);
    TallyStep(cells, K, b, 1, p);
  }

  /** A block cell whose domain is not offered is a missing key. */
  lemma TallyError(s: State, b: nat, p: nat)
    requires |s.cells| == 81 && |s.sets| == 27 && b < 9 && p < 9
    requires !(s.cells[GroupCells(b)[p]].values <= s.sets[b])
    ensures BlockKeyError(s, b)
  {
  }

  /** The whole block tallied: no missing key, and both tallies are the
      block's. */
  lemma TallyDone(s: State, b: nat, rv: map<int, set<nat>>, cv: map<int, set<nat>>)
    requires |s.cells| == 81 && |s.sets| == 27 && b < 9
    requires TallyInv(s.cells, s.sets[b], b, 9, rv, cv)
    ensures !BlockKeyError(s, b) && rv == AxisTally(s, b, 0) && cv == AxisTally(s, b, 1)
  {
  }

  lemma AddedStep(m: map<int, set<nat>>, D: set<int>, u: int, x: nat)
    requires u in m && u !in D
    ensures Added(m, D + {u}, x) == Added(m, D, x)[u := Added(m, D, x)[u] + {x}]
  {
    var after, before := Added(m, D + {u}, x), Added(m, D, x);
    forall v | v in m ensures after[v] == before[u := before[u] + {x}][v] {
      if v != u {
        assert (v in D + {u}) == (v in D);
      }
    }
  }

  /** The inner tally loop after the values D: both dictionaries hold the
      row and the column for exactly those values. */
  ghost predicate BothAdded(rowvals: map<int, set<nat>>, colvals: map<int, set<nat>>, D: set<int>, row: nat, column: nat,
                            rv: map<int, set<nat>>, cv: map<int, set<nat>>)
  {
    rv == Added(rowvals, D, row) && cv == Added(colvals, D, column)
  }

  lemma BothAddedStep(rowvals: map<int, set<nat>>, colvals: map<int, set<nat>>, D: set<int>, row: nat, column: nat,
                      rv: map<int, set<nat>>, cv: map<int, set<nat>>, u: int)
    requires BothAdded(rowvals, colvals, D, row, column, rv, cv)
    requires u in rowvals && u in colvals && u !in D && u in rv && u in cv
    ensures BothAdded(rowvals, colvals, D + {u}, row, column, rv[u := rv[u] + {row}], cv[u := cv[u] + {column}])
  {
    AddedStep(rowvals, D, u, row);
    AddedStep(colvals, D, u, column);
  }

  lemma AddedNone(m: map<int, set<nat>>, x: nat)
    ensures Added(m, {}, x) == m
  {
    forall v | v in m ensures Added(m, {}, x)[v] == m[v] {
      assert m[v] + {} == m[v];
    }
  }

  /** Nothing tallied yet. */
  lemma TallyNone(cells: seq<Cell>, K: set<int>, b: nat, axis: nat)
    requires |cells| == 81 && b < 9
    ensures TallyUpTo(cells, K, b, axis, 0) == NoLines(K)
  {
    forall v | v in K ensures AxisUpTo(cells, b, axis, v, 0) == {} {
    }
  }

  /** Every entry of a tally names lines that cross the block. */
  lemma TallyLines(s: State, b: nat, axis: nat)
    requires |s.cells| == 81 && |s.sets| == 27 && b < 9
    ensures forall v | v in AxisTally(s, b, axis) :: OnBlockLines(b, axis, AxisTally(s, b, axis)[v])
  {
    forall v | v in AxisTally(s, b, axis) ensures OnBlockLines(b, axis, AxisTally(s, b, axis)[v]) {
      forall r | r in AxisTally(s, b, axis)[v] ensures r < 9 && BlockMeets(b, axis, r) {
        var q :| 0 <= q < 9 && v in s.cells[GroupCells(b)[q]].values && AxisOf(axis, GroupCells(b)[q]) == r;
      }
    }
  }

  /** The values confined to line r by a tally are those the block rule
      confines there. */
  lemma TallyConfined(s: State, b: nat, r: nat)
    requires |s.cells| == 81 && |s.sets| == 27 && b < 9
    ensures ConfinedIn(AxisTally(s, b, 0), s.sets[b], r) == RowConfined(s, b, r)
    ensures ConfinedIn(AxisTally(s, b, 1), s.sets[b], r) == ColumnConfined(s, b, r)
  {
    forall v | v in s.sets[b] ensures AxisUpTo(s.cells, b, 0, v, 9) == RowsWith(s.cells, b, v)
      && AxisUpTo(s.cells, b, 1, v, 9) == ColumnsWith(s.cells, b, v)
    {
    }
  }

  /** `apply(rowvals, 'row')` then `apply(colvals, 'column')` on the tallies
      of the board s is the block rule on s: the second pass removes what the
      first left of the column-confined values, so together each cell loses
      its pointing loss, and the two sets of removed values together are the
      values some cell lost. */
  lemma PointingAxes(s: State, b: nat)
    requires Wf(s) && b < 9
    ensures var rows := AxisTally(s, b, 0);
      var cols := AxisTally(s, b, 1);
      var mid := AfterAxis(s.cells, b, 0, rows, rows.Keys);
      && AfterAxis(mid, b, 1, cols, cols.Keys) == Pointing(s, b)
      && AxisRemoved(s.cells, b, 0, rows, rows.Keys) + AxisRemoved(mid, b, 1, cols, cols.Keys)
           == PointingRemoved(s, b)
  {
    var rows := AxisTally(s, b, 0);
    var cols := AxisTally(s, b, 1);
    assert rows.Keys == s.sets[b] && cols.Keys == s.sets[b];
    var mid := AfterAxis(s.cells, b, 0, rows, rows.Keys);
    forall k | 0 <= k < 81
      ensures AxisLoss(s.cells, b, 0, rows, rows.Keys, k) + AxisLoss(mid, b, 1, cols, cols.Keys, k)
        == PointingLoss(s, b, k)
      ensures AxisLoss(s.cells, b, 0, rows, rows.Keys, k) * AxisLoss(mid, b, 1, cols, cols.Keys, k) == {}
    {
      TallyConfined(s, b, RowOf(k));
      TallyConfined(s, b, ColumnOf(k));
    }
    var last := AfterAxis(mid, b, 1, cols, cols.Keys);
    forall k | 0 <= k < 81 ensures last[k] == Pointing(s, b)[k] {
      assert last[k].values == s.cells[k].values - AxisLoss(s.cells, b, 0, rows, rows.Keys, k)
        - AxisLoss(mid, b, 1, cols, cols.Keys, k);
    }
    var fromRows := AxisRemoved(s.cells, b, 0, rows, rows.Keys);
    var fromCols := AxisRemoved(mid, b, 1, cols, cols.Keys);
    forall v | v in PointingRemoved(s, b) ensures v in fromRows + fromCols {
      var k :| 0 <= k < 81 && v in PointingLoss(s, b, k);
      assert v in AxisLoss(s.cells, b, 0, rows, rows.Keys, k) + AxisLoss(mid, b, 1, cols, cols.Keys, k);
    }
    forall v | v in fromRows ensures v in PointingRemoved(s, b) {
      var k :| 0 <= k < 81 && v in AxisLoss(s.cells, b, 0, rows, rows.Keys, k);
      assert v in PointingLoss(s, b, k);
    }
    forall v | v in fromCols ensures v in PointingRemoved(s, b) {
      var k :| 0 <= k < 81 && v in AxisLoss(mid, b, 1, cols, cols.Keys, k);
      assert v in PointingLoss(s, b, k);
    }
  }

  class Board {
    const cells: array<Cell>
    const sets: array<set<int>>

    predicate Valid()
      reads this
    {
      cells.Length == 81 && sets.Length == 27
    }

    /** The board as a value. */
    function Snapshot(): State
      reads this, cells, sets
    {
      State(cells[..], sets[..])
    }

    /** The object holds what the outcome says, when it names a board. */
    predicate Ended(o: Outcome, st: Status)
      reads this, cells, sets
    {
      st == StatusOf(o) && (!o.Crashed? ==> Snapshot() == o.st)
    }

    /** `Board(cells)`: the groups are built over the given cells, each
        group's set the union of its cells' domains. */
    constructor Over(cs: seq<Cell>)
      requires |cs| == 81
      ensures Valid() && fresh(cells) && fresh(sets)
      ensures Snapshot() == FromCells(cs)
    {
      cells := new Cell[81](k requires 0 <= k < 81 reads {} => cs[k]);
      sets := new set<int>[27](g requires 0 <= g < 27 reads {} => GroupSet(cs, g));
      new;
      assert cells[..] == cs;
      assert sets[..] == FromCells(cs).sets;
    }

    /** `Board()`: 81 open cells with the full domain. */
    constructor ()
      ensures Valid() && fresh(cells) && fresh(sets)
      ensures Snapshot() == Fresh()
    {
      var cs := seq(81, k requires 0 <= k < 81 => Cell(0, Digits));
      cells := new Cell[81](k requires 0 <= k < 81 reads {} => cs[k]);
      sets := new set<int>[27](g requires 0 <= g < 27 reads {} => GroupSet(cs, g));
      new;
      assert cells[..] == cs;
      assert sets[..] == FromCells(cs).sets;
    }

    /** `copy(board)`: a new board over copies of the cells; it shares no
        array with this one. */
    method Copy() returns (b: Board)
      requires Valid()
      ensures fresh(b) && fresh(b.cells) && fresh(b.sets) && b.Valid()
      ensures b.Snapshot() == CopyState(Snapshot())
    {
      ghost var s := Snapshot();
      var cs := seq(81, k requires 0 <= k < 81 reads cells => CopyCell(cells[k]));
      assert forall k | 0 <= k < 81 :: cs[k] == CopyCell(s.cells[k]);
      assert cs == seq(81, k requires 0 <= k < 81 => CopyCell(s.cells[k]));
      b := new Board.Over(cs);
    }

    /** `board == other`: row by row, cell by cell, comparing values. */
    method Equals(other: Board) returns (r: bool)
      requires Valid() && other.Valid()
      ensures r <==> SameValues(Snapshot(), other.Snapshot())
    {
      var i := 0;
      while i < 9
        invariant 0 <= i <= 9
        invariant forall k | 0 <= k < 9 * i :: cells[k].value == other.cells[k].value
      {
        var j := 0;
        while j < 9
          invariant 0 <= j <= 9
          invariant forall k | 0 <= k < 9 * i + j :: cells[k].value == other.cells[k].value
        {
          if cells[Index(i, j)].value != other.cells[Index(i, j)].value {
            assert !(Snapshot().cells[Index(i, j)].value == other.Snapshot().cells[Index(i, j)].value);
            return false;
          }
          j := j + 1;
        }
        i := i + 1;
      }
      return true;
    }

    /** `cell.value = v` for the cell at k and v non-zero: the domain check
        (open cells only), the commit, then for each of the cell's groups the
        removal of v from the group's set and from each member domain that
        holds it, raising IllegalBoard as soon as one empties. */
    method Assign(k: nat, v: int) returns (st: Status)
      requires Valid() && Wf(Snapshot()) && k < 81 && v != 0
      modifies cells, sets
      ensures Ended(AssignSpec(old(Snapshot()), k, v), st)
    {
      ghost var s0 := Snapshot();
      var c := cells[k];
      if c.value == 0 && v !in c.values {
        return Threw(IllegalMove(CoordOf(k), v));
      }
      cells[k] := Cell(v, {});
      ghost var s1 := Snapshot();
      assert s1 == State(s0.cells[k := Cell(v, {})], s0.sets);
      st := StripEach(CellGroups(k), v);
    }

    /** The groups of the assignment in turn, stopping at the first that
        raises or crashes. */
    method StripEach(gs: seq<nat>, v: int) returns (st: Status)
      requires Valid() && AllBelow(gs, 27)
      modifies cells, sets
      ensures Ended(StripGroups(old(Snapshot()), gs, v), st)
    {
      ghost var s1 := Snapshot();
      ghost var cur := s1;
      var i := 0;
      while i < |gs|
        invariant 0 <= i <= |gs|
        invariant cur == Snapshot() && StripGroups(s1, gs[..i], v) == Normal(cur)
      {
        StripGroupsStep(s1, gs, i, v, cur);
        var one := StripGroup(gs[i], v);
        if one != Done {
          StripGroupsStops(s1, gs, i + 1, v);
          return one;
        }
        cur := StripInGroup(cur, gs[i], v).st;
        i := i + 1;
      }
      assert gs[..i] == gs;
      return Done;
    }

    /** One group of the assignment: v leaves the group's set, a KeyError
        when it is not there, then each member domain, raising IllegalBoard
        when one empties. */
    method StripGroup(g: nat, v: int) returns (st: Status)
      requires Valid() && g < 27
      modifies cells, sets
      ensures Ended(StripInGroup(old(Snapshot()), g, v), st)
    {
      ghost var s0 := Snapshot();
      if v !in sets[g] {
        return Failed;
      }
      sets[g] := sets[g] - {v};
      var emptied := StripMembers(g, v);
      assert Snapshot() == State(Strip(s0.cells, GroupCells(g), v).0, s0.sets[g := s0.sets[g] - {v}]);
      if emptied {
        return Threw(IllegalBoard);
      }
      return Done;
    }

    /** `Group.reduce` for group g: the naked-subset pass for subsets of two
        cells, then for subsets of three; the returned set gathers what the
        cells that lost values kept. */
    method GroupReduce(g: nat) returns (vals: set<int>)
      requires Valid() && Wf(Snapshot()) && g < 27
      modifies cells
      ensures (Snapshot(), vals) == GroupReduceSpec(old(Snapshot()), g)
    {
      ghost var s0 := Snapshot();
      ghost var cur := s0.cells;
      vals := {};
      var count := 2;
      while count <= M
        invariant 2 <= count <= 4 && sets[..] == s0.sets && cur == cells[..]
        invariant (cur, vals) == PassesBelow(s0.cells, g, count)
      {
        var got := NakedPass(g, count);
        PassesStep(s0.cells, g, count, cur, vals, cells[..], got);
        vals := vals + got;
        cur := cells[..];
        count := count + 1;
      }
      assert Snapshot() == State(cur, s0.sets);
      PassesAll(s0, g, count, cur, vals);
    }

    /** One round of `Group.reduce`: the open cells of g with exactly count
        candidates; when there are at least count of them, each count-subset
        in turn, and when its domains compare equal, the elimination of its
        domain from the other cells of the group. */
    method NakedPass(g: nat, count: nat) returns (got: set<int>)
      requires Valid() && g < 27 && count >= 1
      modifies cells
      ensures (cells[..], got) == NakedSubsets(old(cells[..]), g, count)
    {
      ghost var c0 := cells[..];
      var ms := GroupCells(g);
      var open := OpenAmong(cells[..], ms, Some(count));
      got := {};
      if |open| < count {
        NakedShort(c0, g, count);
        return;
      }
      var ts := Itertools.Combinations(open, count);
      NakedStart(c0, g, count, ts);
      got := EachTuple(g, ts);
    }

    /** The loop over one pass's tuples: each tuple whose domains all agree
        clears its domain from the group's other cells. */
    method EachTuple(g: nat, ts: seq<seq<nat>>) returns (got: set<int>)
      requires Valid() && g < 27 && TuplesPrefix(cells[..], GroupCells(g), ts, 0, cells[..], {})
      modifies cells
      ensures (cells[..], got) == ReduceTuples(old(cells[..]), GroupCells(g), ts)
    {
      ghost var c0 := cells[..];
      var ms := GroupCells(g);
      got := {};
      ghost var cur := c0;
      var q := 0;
      while q < |ts|
        invariant 0 <= q <= |ts|
        invariant cur == cells[..] && TuplesPrefix(c0, ms, ts, q, cur, got)
      {
        var t := ts[q];
        if Fires(cells[..], t) {
          var kept := EliminateFrom(g, t, cells[t[0]].values);
          TuplesFired(c0, ms, ts, q, cur, got, cells[..], kept);
          got := got + kept;
        } else {
          TuplesIdle(c0, ms, ts, q, cur, got);
        }
        cur := cells[..];
        q := q + 1;
      }
      TuplesDone(c0, ms, ts, cur, got);
    }

    /** The innermost loop of `Group.reduce`: every cell of g outside the
        subset t whose domain meets P loses P; what such cells keep is
        collected. */
    method EliminateFrom(g: nat, t: seq<nat>, P: set<int>) returns (kept: set<int>)
      requires Valid() && g < 27
      modifies cells
      ensures (cells[..], kept) == Eliminate(old(cells[..]), GroupCells(g), t, P)
    {
      ghost var c0 := cells[..];
      var ms := GroupCells(g);
      kept := {};
      var p := 0;
      while p < 9
        invariant 0 <= p <= 9
        invariant (cells[..], kept) == Eliminate(c0, ms[..p], t, P)
      {
        assert ms[..p + 1][..p] == ms[..p];
        var c := ms[p];
        var d := cells[c].values;
        if c !in t && d != {} && d * P != {} {
          kept := kept + (d - P);
          cells[c] := cells[c].(values := d - P);
        }
        p := p + 1;
      }
      assert ms[..p] == ms;
    }

    /** `for c in getattr(cell, axis).cells: if c.block is not self and
        c.values and v in c.values: c.values.remove(v)`: line r along the
        axis loses v outside block b; hit says whether any cell did. */
    method ClearLine(b: nat, axis: nat, r: nat, v: int) returns (hit: bool)
      requires Valid() && b < 9 && r < 9
      modifies cells
      ensures cells[..] == Cleared(old(cells[..]), b, axis, r, v)
      ensures hit <==> Hits(old(cells[..]), b, axis, r, v)
    {
      ghost var c0 := cells[..];
      hit := false;
      var q := 0;
      while q < 9
        invariant 0 <= q <= 9
        invariant cells[..] == ClearedUpTo(c0, b, axis, r, v, q)
        invariant hit <==> HitsUpTo(c0, b, axis, r, v, q)
      {
        var c := LineCell(axis, r, q);
        ClearLineStep(c0, b, axis, r, v, q);
        InBlock(c, b);
        if BlockOf(c) != b && cells[c].values != {} && v in cells[c].values {
          cells[c] := cells[c].(values := cells[c].values - {v});
          hit := true;
        } else if BlockOf(c) != b {
          assert v !in c0[c].values;
          assert c0[c].values - {v} == c0[c].values;
        }
        q := q + 1;
      }
      assert cells[..] == Cleared(c0, b, axis, r, v);
    }

    /** `for cell in self.cells: if getattr(cell.coord, axis) == r: ...`:
        each block cell on line r clears the line; only the first call
        changes anything. */
    method ClearAlong(b: nat, axis: nat, r: nat, v: int) returns (hit: bool)
      requires Valid() && b < 9 && r < 9 && BlockMeets(b, axis, r)
      modifies cells
      ensures cells[..] == Cleared(old(cells[..]), b, axis, r, v)
      ensures hit <==> Hits(old(cells[..]), b, axis, r, v)
    {
      ghost var c0 := cells[..];
      var ms := GroupCells(b);
      hit := false;
      ghost var seen := false;
      var p := 0;
      while p < 9
        invariant 0 <= p <= 9
        invariant seen ==> cells[..] == Cleared(c0, b, axis, r, v) && (hit <==> Hits(c0, b, axis, r, v))
        invariant !seen ==> cells[..] == c0 && !hit && forall q | 0 <= q < p :: AxisOf(axis, ms[q]) != r
      {
        if AxisOf(axis, ms[p]) == r {
          ClearedTwice(c0, b, axis, r, v);
          var h := ClearLine(b, axis, r, v);
          hit := hit || h;
          seen := true;
        }
        p := p + 1;
      }
    }

    /** `apply(valdict, axis)`: for each value whose entry names a single
        line, that line loses the value outside the block. The values are
        taken in any order; the result does not depend on it. */
    method Apply(b: nat, axis: nat, dict: map<int, set<nat>>) returns (removed: set<int>)
      requires Valid() && b < 9
      requires forall v | v in dict :: OnBlockLines(b, axis, dict[v])
      modifies cells
      ensures cells[..] == AfterAxis(old(cells[..]), b, axis, dict, dict.Keys)
      ensures removed == AxisRemoved(old(cells[..]), b, axis, dict, dict.Keys)
    {
      ghost var c0 := cells[..];
      ghost var cur := c0;
      removed := {};
      var keys := dict.Keys;
      ghost var done: set<int> := {};
      AxisNone(c0, b, axis, dict);
      while keys != {}
        invariant keys + done == dict.Keys && keys !! done
        invariant cur == cells[..] && AxisInv(c0, b, axis, dict, done, cur, removed)
        decreases keys
      {
        ghost var w := Member(keys);
        var v :| v in keys;
        var hit := ApplyKey(b, axis, dict, c0, done, v, removed);
        if hit {
          removed := removed + {v};
        }
        cur := cells[..];
        keys := keys - {v};
        done := done + {v};
      }
      assert done == dict.Keys;
    }

    /** The loop step of `apply`: value v, not yet processed, moves the
        board and the lost values on as `AfterAxis` and `AxisRemoved` say. */
    method ApplyKey(b: nat, axis: nat, dict: map<int, set<nat>>, ghost c0: seq<Cell>, ghost done: set<int>, v: int,
                    ghost removed: set<int>) returns (hit: bool)
      requires Valid() && b < 9 && |c0| == 81 && v in dict && v !in done && OnBlockLines(b, axis, dict[v])
      requires AxisInv(c0, b, axis, dict, done, cells[..], removed)
      modifies cells
      ensures AxisInv(c0, b, axis, dict, done + {v}, cells[..], removed + (if hit then {v} else {}))
    {
      ghost var cur := cells[..];
      hit := ApplyValue(b, axis, dict[v], v);
      AxisAdvance(c0, b, axis, dict, done, v, cur, removed, cells[..], hit);
    }

    /** One value of `apply`: when its entry names a single line, pop that
        line and clear it of v outside the block. */
    method ApplyValue(b: nat, axis: nat, rs: set<nat>, v: int) returns (hit: bool)
      requires Valid() && b < 9 && OnBlockLines(b, axis, rs)
      modifies cells
      ensures |rs| == 1 ==> cells[..] == Cleared(old(cells[..]), b, axis, Only(rs), v)
      ensures |rs| == 1 ==> (hit <==> Hits(old(cells[..]), b, axis, Only(rs), v))
      ensures |rs| != 1 ==> cells[..] == old(cells[..]) && !hit
    {
      hit := false;
      if |rs| == 1 {
        var r := Only(rs);
        assert r in rs;
        hit := ClearAlong(b, axis, r, v);
      }
    }

    /** The tally of `Block.reduce`: for every block cell with a non-empty
        domain and every value in it, the cell's row and column join that
        value's entries; a value the block does not offer is a missing key.
        Nothing on the board changes. */
    method Tally(b: nat) returns (rowvals: map<int, set<nat>>, colvals: map<int, set<nat>>, ok: bool)
      requires Valid() && b < 9
      ensures ok <==> !BlockKeyError(Snapshot(), b)
      ensures ok ==> rowvals == AxisTally(Snapshot(), b, 0) && colvals == AxisTally(Snapshot(), b, 1)
    {
      ghost var s0 := Snapshot();
      ghost var c0 := s0.cells;
      var ms := GroupCells(b);
      var offered := sets[b];
      assert offered == s0.sets[b];
      rowvals := NoLines(offered);
      colvals := NoLines(offered);
      TallyNone(c0, offered, b, 0);
      TallyNone(c0, offered, b, 1);
      var p := 0;
      while p < 9
        invariant 0 <= p <= 9
        invariant TallyInv(c0, offered, b, p, rowvals, colvals)
      {
        var c := ms[p];
        var d := cells[c].values;
        assert d == c0[GroupCells(b)[p]].values;
        ghost var rv0, cv0 := rowvals, colvals;
        TallyKeys(c0, offered, b, p, rowvals, colvals);
        if d != {} {
          rowvals, colvals, ok := TallyCell(rowvals, colvals, d, RowOf(c), ColumnOf(c));
          if !ok {
            TallyError(s0, b, p);
            return;
          }
        }
        TallyAdvance(c0, offered, b, p, rv0, cv0, rowvals, colvals);
        p := p + 1;
      }
      TallyDone(s0, b, rowvals, colvals);
      ok := true;
    }

    /** The inner loop of the tally, for one cell at (row, column) with
        domain d: each value of d adds the row and the column to its
        entries, and a value that is not a key stops the tally. */
    static method TallyCell(rowvals: map<int, set<nat>>, colvals: map<int, set<nat>>, d: set<int>, row: nat, column: nat)
      returns (rv: map<int, set<nat>>, cv: map<int, set<nat>>, ok: bool)
      requires rowvals.Keys == colvals.Keys
      ensures ok <==> d <= rowvals.Keys
      ensures ok ==> rv == Added(rowvals, d, row) && cv == Added(colvals, d, column)
    {
      rv, cv := rowvals, colvals;
      var rest := d;
      ghost var done: set<int> := {};
      AddedNone(rowvals, row);
      AddedNone(colvals, column);
      assert BothAdded(rowvals, colvals, done, row, column, rv, cv);
      while rest != {}
        invariant rest + done == d && rest !! done && done <= rowvals.Keys
        invariant rv.Keys == rowvals.Keys && cv.Keys == colvals.Keys
        invariant BothAdded(rowvals, colvals, done, row, column, rv, cv)
        decreases rest
      {
        ghost var w := Member(rest);
        var value :| value in rest;
        if value !in rv {
          assert value in d && value !in rowvals.Keys;
          return rv, cv, false;
        }
        BothAddedStep(rowvals, colvals, done, row, column, rv, cv, value);
        rv := rv[value := rv[value] + {row}];
        cv := cv[value := cv[value] + {column}];
        rest := rest - {value};
        done := done + {value};
      }
      assert done == d;
      ok := true;
    }

    /** `Block.reduce` for block b: the naked-subset pass, the tally, then
        the pointing rule along rows and along columns; a missing key
        crashes. */
    method BlockReduce(b: nat) returns (st: Status, vals: set<int>)
      requires Valid() && Wf(Snapshot()) && b < 9
      modifies cells
      ensures st == StatusOf(BlockReduceSpec(old(Snapshot()), b).0)
      ensures st != Failed ==> Snapshot() == BlockReduceSpec(old(Snapshot()), b).0.st
      ensures st != Failed ==> vals == BlockReduceSpec(old(Snapshot()), b).1
    {
      ghost var s0 := Snapshot();
      ghost var spec := BlockReduceSpec(s0, b);
      vals := GroupReduce(b);
      ghost var s1 := Snapshot();
      assert (s1, vals) == GroupReduceSpec(s0, b);
      var rowvals, colvals, ok := Tally(b);
      if !ok {
        assert spec.0 == Crashed;
        return Failed, vals;
      }
      assert spec == (Normal(State(Pointing(s1, b), s1.sets)), vals + PointingRemoved(s1, b));
      TallyLines(s1, b, 0);
      TallyLines(s1, b, 1);
      assert rowvals == AxisTally(s1, b, 0) && colvals == AxisTally(s1, b, 1);
      var fromRows := Apply(b, 0, rowvals);
      ghost var mid := cells[..];
      assert mid == AfterAxis(s1.cells, b, 0, rowvals, rowvals.Keys);
      var fromColumns := Apply(b, 1, colvals);
      assert cells[..] == AfterAxis(mid, b, 1, colvals, colvals.Keys);
      assert fromColumns == AxisRemoved(mid, b, 1, colvals, colvals.Keys);
      PointingAxes(s1, b);
      assert cells[..] == Pointing(s1, b) && sets[..] == s1.sets;
      assert fromRows + fromColumns == PointingRemoved(s1, b);
      assert Snapshot() == spec.0.st;
      vals := vals + fromRows + fromColumns;
      assert vals == spec.1;
      st := Done;
    }

    /** `Board.reduce`: passes of the scan for singles and of the group
        reductions, repeated while some open cell has a single candidate.
        An exception ends the loop and leaves the board where it stopped. */
    method Reduce() returns (st: Status)
      requires Valid() && Wf(Snapshot())
      modifies cells, sets
      ensures Ended(ReduceSpec(old(Snapshot())), st)
    {
      ghost var s0 := Snapshot();
      while true
        invariant Wf(Snapshot())
        invariant ReduceSpec(Snapshot()) == ReduceSpec(s0)
        decreases |OpenSet(Snapshot())| + (if HasSingle(Snapshot()) then 0 else 1)
      {
        ghost var s := Snapshot();
        st := ReduceSingles();
        if st != Done {
          return;
        }
        st := ReduceGroupsPass();
        if st != Done {
          return;
        }
        assert Pass(s) == Normal(Snapshot());
        var more := FindSingle();
        if !more {
          return;
        }
        ReduceMeasure(s);
      }
    }

    /** `for cell in self.open(1): cell.value = next(iter(cell.values))`:
        the cells in row-major order, each examined as the scan reaches it. */
    method ReduceSingles() returns (st: Status)
      requires Valid() && Wf(Snapshot())
      modifies cells, sets
      ensures Ended(Singles(old(Snapshot()), 81), st)
    {
      ghost var s0 := Snapshot();
      ghost var cur := s0;
      var k := 0;
      while k < 81
        invariant 0 <= k <= 81
        invariant cur == Snapshot() && Singles(s0, k) == Normal(cur)
      {
        st := SingleCell(k);
        assert Singles(s0, k + 1) == SingleAt(cur, k);
        if st != Done {
          SinglesStops(s0, k + 1, 81);
          return;
        }
        cur := SingleAt(cur, k).st;
        k := k + 1;
      }
      return Done;
    }

    /** One cell of the scan for singles: an open cell whose domain is a
        single value is assigned that value. */
    method SingleCell(k: nat) returns (st: Status)
      requires Valid() && Wf(Snapshot()) && k < 81
      modifies cells, sets
      ensures Ended(SingleAt(old(Snapshot()), k), st)
    {
      var c := cells[k];
      if c.value == 0 && |c.values| == 1 {
        var v := Only(c.values);
        assert v in c.values;
        st := Assign(k, v);
      } else {
        st := Done;
      }
    }

    /** `for group in chain(self.blocks, self.columns, self.rows):
        group.reduce()`. */
    method ReduceGroupsPass() returns (st: Status)
      requires Valid() && Wf(Snapshot())
      modifies cells
      ensures Ended(ReduceGroups(old(Snapshot()), PassOrder()), st)
    {
      st := ReduceEach(PassOrder());
    }

    /** The groups gs reduced in turn; a block reduction that fails ends
        the chain. */
    method ReduceEach(gs: seq<nat>) returns (st: Status)
      requires Valid() && Wf(Snapshot()) && AllBelow(gs, 27)
      modifies cells
      ensures Ended(ReduceGroups(old(Snapshot()), gs), st)
    {
      ghost var s0 := Snapshot();
      ghost var cur := s0;
      var i := 0;
      while i < |gs|
        invariant 0 <= i <= |gs|
        invariant cur == Snapshot() && ReduceGroups(s0, gs[..i]) == Normal(cur)
      {
        ReduceGroupsStep(s0, gs, i, cur);
        var one := ReduceOne(gs[i]);
        if one == Failed {
          return Failed;
        }
        cur := GroupStep(cur, gs[i]).st;
        i := i + 1;
      }
      assert gs[..i] == gs;
      return Done;
    }

    /** `group.reduce()`, dispatched on the kind of group: a block's reduce
        (which may fail) or a row's or column's. */
    method ReduceOne(g: nat) returns (st: Status)
      requires Valid() && Wf(Snapshot()) && g < 27
      modifies cells
      ensures Ended(GroupStep(old(Snapshot()), g), st)
    {
      if g < 9 {
        var got;
        st, got := BlockReduce(g);
      } else {
        var got := GroupReduce(g);
        st := Done;
      }
    }

    /** `next(self.open(1), None)` is a cell. */
    method FindSingle() returns (found: bool)
      requires Valid()
      ensures found <==> HasSingle(Snapshot())
    {
      var k := 0;
      while k < 81
        invariant 0 <= k <= 81
        invariant forall j | 0 <= j < k :: !(IsOpen(cells[j]) && |cells[j].values| == 1)
      {
        if cells[k].value == 0 && |cells[k].values| == 1 {
          return true;
        }
        k := k + 1;
      }
      return false;
    }

    /** The inner loop of the setter: remove v from each member of group g
        whose domain holds it, in the group's order, stopping when one
        empties. */
    method StripMembers(g: nat, v: int) returns (emptied: bool)
      requires Valid() && g < 27
      modifies cells
      ensures (cells[..], emptied) == Strip(old(cells[..]), GroupCells(g), v)
    {
      ghost var c0 := cells[..];
      var ms := GroupCells(g);
      var p := 0;
      while p < 9
        invariant 0 <= p <= 9
        invariant Strip(c0, ms[..p], v) == (cells[..], false)
      {
        assert ms[..p + 1][..p] == ms[..p];
        var d := cells[ms[p]].values;
        if d != {} && v in d {
          cells[ms[p]] := cells[ms[p]].(values := d - {v});
          if cells[ms[p]].values == {} {
            StripStops(c0, ms, p + 1, v);
            return true;
          }
        }
        p := p + 1;
      }
      assert ms[..p] == ms;
      return false;
    }
  }
}
