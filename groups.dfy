/** The elimination rules of a group: naked subsets for every group
    (`Group.reduce`) and, for blocks, the pointing / box-line rule
    (`Block.reduce`). Both only shrink domains of open cells; neither raises
    when a domain becomes empty. */
module Groups {
  import opened Grid
  import opened Cells
  import opened Wrappers
  import Itertools

  /** The open cells among ms, in order; with Some(n), only those whose
      domain has exactly n values (`open(n)`). */
  function OpenAmong(cells: seq<Cell>, ms: seq<nat>, n: Option<nat>): (r: seq<nat>)
    requires AllBelow(ms, |cells|)
    ensures AllBelow(r, |cells|)
    ensures forall x | x in r :: x in ms && IsOpen(cells[x]) && (n.Some? ==> |cells[x].values| == n.value)
    ensures forall x | x in ms && IsOpen(cells[x]) && (n.Some? ==> |cells[x].values| == n.value) :: x in r
    ensures |r| <= |ms|
  {
    if ms == [] then []
    else
      var c := cells[ms[0]];
      var rest := OpenAmong(cells, ms[1..], n);
      assert forall x | x in ms :: x == ms[0] || x in ms[1..];
      if c.value == 0 && (n.None? || |c.values| == n.value) then [ms[0]] + rest else rest
  }

  // ---------------------------------------------------------------------
  // Naked subsets.

  /** The two kinds of Python value the chained comparison meets. */
  datatype PyObj = PyBool(b: bool) | PySet(s: set<int>)

  /** `operator.eq`: a bool never equals a set. */
  function PyEq(x: PyObj, y: PyObj): bool
  {
    match (x, y)
    case (PyBool(a), PyBool(b)) => a == b
    case (PySet(a), PySet(b)) => a == b
    case _ => false
  }

  function Truthy(x: PyObj): bool
  {
    match x
    case PyBool(b) => b
    case PySet(s) => s != {}
  }

  /** `functools.reduce(operator.eq, xs)`. */
  function ReduceEq(xs: seq<PyObj>): PyObj
    requires xs != []
    decreases |xs|
  {
    if |xs| == 1 then xs[0] else PyBool(PyEq(ReduceEq(xs[..|xs| - 1]), xs[|xs| - 1]))
  }

  function DomainsOf(cells: seq<Cell>, t: seq<nat>): (r: seq<PyObj>)
    requires AllBelow(t, |cells|)
    ensures |r| == |t|
  {
    seq(|t|, i requires 0 <= i < |t| => PySet(cells[t[i]].values))
  }

  /** The test a subset of cells passes to trigger an elimination. */
  predicate Fires(cells: seq<Cell>, t: seq<nat>)
    requires AllBelow(t, |cells|) && t != []
  {
    Truthy(ReduceEq(DomainsOf(cells, t)))
  }

  /** For a pair, the test is set equality of the two domains. */
  lemma PairFires(cells: seq<Cell>, t: seq<nat>)
    requires AllBelow(t, |cells|) && |t| == 2
    ensures Fires(cells, t) <==> cells[t[0]].values == cells[t[1]].values
  {
    var d := DomainsOf(cells, t);
    assert d[0] == PySet(cells[t[0]].values) && d[1] == PySet(cells[t[1]].values);
    assert ReduceEq(d[..1]) == d[0];
    assert ReduceEq(d) == PyBool(PyEq(d[0], d[1]));
  }

  /** For three cells the chain compares a bool with a set: it never fires. */
  lemma TripleNeverFires(cells: seq<Cell>, t: seq<nat>)
    requires AllBelow(t, |cells|) && |t| == 3
    ensures !Fires(cells, t)
  {
    var d := DomainsOf(cells, t);
    assert d[2] == PySet(cells[t[2]].values);
    assert ReduceEq(d[..2]).PyBool?;
    assert ReduceEq(d) == PyBool(PyEq(ReduceEq(d[..2]), d[2]));
  }

  /** Cell j is one of ms, outside the subset t, and its domain meets P. */
  predicate Hit(cells: seq<Cell>, ms: seq<nat>, t: seq<nat>, P: set<int>, j: nat)
    requires j < |cells|
  {
    j in ms && j !in t && cells[j].values * P != {}
  }

  /** What the hit cells keep. */
  function Kept(cells: seq<Cell>, ms: seq<nat>, t: seq<nat>, P: set<int>): set<int>
  {
    set j, v | 0 <= j < |cells| && Hit(cells, ms, t, P, j) && v in cells[j].values - P :: v
  }

  /** Remove P from every listed cell outside t whose domain meets P; the set
      collects what those cells keep (`c.values - P`). */
  function Eliminate(cells: seq<Cell>, ms: seq<nat>, t: seq<nat>, P: set<int>): (r: (seq<Cell>, set<int>))
    requires AllBelow(ms, |cells|)
    ensures |r.0| == |cells|
    ensures forall j | 0 <= j < |cells| ::
      r.0[j] == if Hit(cells, ms, t, P, j) then cells[j].(values := cells[j].values - P) else cells[j]
    ensures r.1 == Kept(cells, ms, t, P)
    decreases |ms|
  {
    if ms == [] then (cells, {})
    else
      var prev := Eliminate(cells, ms[..|ms| - 1], t, P);
      var c := ms[|ms| - 1];
      var d := prev.0[c].values;
      if c !in t && d != {} && d * P != {} then
        KeptSnoc(cells, ms, t, P);
        (prev.0[c := prev.0[c].(values := d - P)], prev.1 + (d - P))
      else prev
  }

  lemma KeptSnoc(cells: seq<Cell>, ms: seq<nat>, t: seq<nat>, P: set<int>)
    requires ms != [] && AllBelow(ms, |cells|)
    requires Hit(cells, ms, t, P, ms[|ms| - 1])
    ensures Kept(cells, ms, t, P) == Kept(cells, ms[..|ms| - 1], t, P) + (cells[ms[|ms| - 1]].values - P)
  {
    var c, ms' := ms[|ms| - 1], ms[..|ms| - 1];
    assert ms == ms' + [c];
    assert c < |cells|;
    forall j | 0 <= j < |cells| ensures Hit(cells, ms, t, P, j) <==> Hit(cells, ms', t, P, j) || j == c {
    }
    forall v ensures v in Kept(cells, ms, t, P) <==> v in Kept(cells, ms', t, P) + (cells[c].values - P) {
      if v in Kept(cells, ms, t, P) {
        var j :| 0 <= j < |cells| && Hit(cells, ms, t, P, j) && v in cells[j].values - P;
        if j != c { assert Hit(cells, ms', t, P, j); }
      }
      if v in Kept(cells, ms', t, P) {
        var j :| 0 <= j < |cells| && Hit(cells, ms', t, P, j) && v in cells[j].values - P;
        assert Hit(cells, ms, t, P, j);
      }
    }
  }

  /** Test each subset in turn against the current domains. */
  function ReduceTuples(cells: seq<Cell>, ms: seq<nat>, ts: seq<seq<nat>>): (r: (seq<Cell>, set<int>))
    requires AllBelow(ms, |cells|)
    requires forall i | 0 <= i < |ts| :: ts[i] != [] && AllBelow(ts[i], |cells|)
    ensures |r.0| == |cells|
    ensures forall j | 0 <= j < |cells| :: r.0[j].value == cells[j].value && r.0[j].values <= cells[j].values
    ensures forall j | 0 <= j < |cells| && j !in ms :: r.0[j] == cells[j]
    decreases |ts|
  {
    if ts == [] then (cells, {})
    else
      var prev := ReduceTuples(cells, ms, ts[..|ts| - 1]);
      var t := ts[|ts| - 1];
      if Fires(prev.0, t) then
        var e := Eliminate(prev.0, ms, t, prev.0[t[0]].values);
        (e.0, prev.1 + e.1)
      else prev
  }

  /** Later subsets only shrink what earlier ones left. */
  lemma {:induction false} ReduceTuplesShrinks(cells: seq<Cell>, ms: seq<nat>, ts: seq<seq<nat>>, m: nat)
    requires AllBelow(ms, |cells|)
    requires forall i | 0 <= i < |ts| :: ts[i] != [] && AllBelow(ts[i], |cells|)
    requires m <= |ts|
    ensures forall j | 0 <= j < |cells| ::
      ReduceTuples(cells, ms, ts).0[j].values <= ReduceTuples(cells, ms, ts[..m]).0[j].values
    decreases |ts|
  {
    if m < |ts| {
      var ts' := ts[..|ts| - 1];
      ReduceTuplesShrinks(cells, ms, ts', m);
      assert ts'[..m] == ts[..m];
    } else {
      assert ts[..m] == ts;
    }
  }

  /** Each subset that fires leaves no other listed cell with any of the
      values it shares: at the end, those cells' domains avoid its domain. */
  lemma FiredSubsetClears(cells: seq<Cell>, ms: seq<nat>, ts: seq<seq<nat>>, i: nat, j: nat)
    requires AllBelow(ms, |cells|)
    requires forall i | 0 <= i < |ts| :: ts[i] != [] && AllBelow(ts[i], |cells|)
    requires i < |ts| && j < |cells| && j in ms && j !in ts[i]
    requires Fires(ReduceTuples(cells, ms, ts[..i]).0, ts[i])
    ensures ReduceTuples(cells, ms, ts).0[j].values * ReduceTuples(cells, ms, ts[..i]).0[ts[i][0]].values == {}
  {
    var before := ReduceTuples(cells, ms, ts[..i]).0;
    assert ts[..i + 1][..i] == ts[..i];
    var mid := ReduceTuples(cells, ms, ts[..i + 1]).0;
    assert mid[j].values * before[ts[i][0]].values == {};
    ReduceTuplesShrinks(cells, ms, ts, i + 1);
  }

  /** Subsets of three cells never fire, so their pass changes nothing. */
  lemma {:induction false} TriplesInert(cells: seq<Cell>, ms: seq<nat>, ts: seq<seq<nat>>)
    requires AllBelow(ms, |cells|)
    requires forall i | 0 <= i < |ts| :: |ts[i]| == 3 && AllBelow(ts[i], |cells|)
    ensures ReduceTuples(cells, ms, ts) == (cells, {})
    decreases |ts|
  {
    if ts != [] {
      TriplesInert(cells, ms, ts[..|ts| - 1]);
      TripleNeverFires(cells, ts[|ts| - 1]);
    }
  }

  function SubsetTuples(cells: seq<Cell>, g: nat, count: nat): (ts: seq<seq<nat>>)
    requires |cells| == 81 && g < 27 && count >= 1
    ensures forall i | 0 <= i < |ts| :: |ts[i]| == count && AllBelow(ts[i], 81)
    ensures forall i, x | 0 <= i < |ts| && x in ts[i] :: x in GroupCells(g)
  {
    var open := OpenAmong(cells, GroupCells(g), Some(count));
    var ts := Itertools.Combinations(open, count);
    forall i | 0 <= i < |ts| ensures |ts[i]| == count && AllBelow(ts[i], 81) && forall x | x in ts[i] :: x in GroupCells(g) {
      Itertools.CombinationsShape(open, count, ts[i]);
    }
    ts
  }

  /** The naked-subset pass for subsets of `count` cells. */
  function NakedSubsets(cells: seq<Cell>, g: nat, count: nat): (r: (seq<Cell>, set<int>))
    requires |cells| == 81 && g < 27 && count >= 1
  {
    ReduceTuples(cells, GroupCells(g), SubsetTuples(cells, g, count))
  }

  /** `Group.reduce`: subsets of two, then of three cells. */
  function GroupReduceSpec(s: State, g: nat): (r: (State, set<int>))
    requires Wf(s) && g < 27
    ensures Wf(r.0) && r.0.sets == s.sets
    ensures forall j | 0 <= j < 81 ::
      r.0.cells[j].value == s.cells[j].value && r.0.cells[j].values <= s.cells[j].values
  {
    var two := NakedSubsets(s.cells, g, 2);
    var three := NakedSubsets(two.0, g, 3);
    (State(three.0, s.sets), two.1 + three.1)
  }

  /** The group pass touches only open cells of the group, only shrinks their
      domains, and leaves the group sets alone; the three-cell pass adds
      nothing to the two-cell one. */
  lemma GroupReduceFacts(s: State, g: nat)
    requires Wf(s) && g < 27
    ensures var two := NakedSubsets(s.cells, g, 2);
      GroupReduceSpec(s, g) == (State(two.0, s.sets), two.1)
    ensures Consistent(s) ==> Consistent(GroupReduceSpec(s, g).0)
    ensures forall j | 0 <= j < 81 && !InGroup(j, g) :: GroupReduceSpec(s, g).0.cells[j] == s.cells[j]
  {
    var two := NakedSubsets(s.cells, g, 2);
    var three := NakedSubsets(two.0, g, 3);
    assert GroupReduceSpec(s, g) == (State(three.0, s.sets), two.1 + three.1);
    TriplesInert(two.0, GroupCells(g), SubsetTuples(two.0, g, 3));
    assert three == (two.0, {});
    assert two.1 + three.1 == two.1;
    ConsistentShrink(s, GroupReduceSpec(s, g).0);
  }

  /** Shrinking domains under unchanged group sets keeps consistency. */
  lemma ConsistentShrink(s: State, s1: State)
    requires Wf(s) && Wf(s1) && s1.sets == s.sets
    requires forall j | 0 <= j < 81 :: s1.cells[j].values <= s.cells[j].values
    ensures Consistent(s) ==> Consistent(s1)
  {
  }

  // ---------------------------------------------------------------------
  // Pointing / box-line rule.

  function RowsWith(cells: seq<Cell>, b: nat, v: int): set<nat>
    requires |cells| == 81 && b < 9
  {
    set p | 0 <= p < 9 && v in cells[GroupCells(b)[p]].values :: RowOf(GroupCells(b)[p])
  }

  function ColumnsWith(cells: seq<Cell>, b: nat, v: int): set<nat>
    requires |cells| == 81 && b < 9
  {
    set p | 0 <= p < 9 && v in cells[GroupCells(b)[p]].values :: ColumnOf(GroupCells(b)[p])
  }

  /** A cell of the block holds a candidate its block no longer offers (the
      per-value dictionary has no entry for it: KeyError). */
  predicate BlockKeyError(s: State, b: nat)
    requires |s.cells| == 81 && |s.sets| == 27 && b < 9
  {
    exists p | 0 <= p < 9 :: !(s.cells[GroupCells(b)[p]].values <= s.sets[b])
  }

  /** The block's values whose candidate cells inside the block all lie in
      row r (resp. column c). */
  function RowConfined(s: State, b: nat, r: nat): set<int>
    requires |s.cells| == 81 && |s.sets| == 27 && b < 9
  {
    set v | v in s.sets[b] && RowsWith(s.cells, b, v) == {r}
  }

  function ColumnConfined(s: State, b: nat, c: nat): set<int>
    requires |s.cells| == 81 && |s.sets| == 27 && b < 9
  {
    set v | v in s.sets[b] && ColumnsWith(s.cells, b, v) == {c}
  }

  /** What a cell outside block b loses to the block rule. */
  function PointingLoss(s: State, b: nat, k: nat): set<int>
    requires |s.cells| == 81 && |s.sets| == 27 && b < 9 && k < 81
  {
    if InGroup(k, b) then {}
    else s.cells[k].values * (RowConfined(s, b, RowOf(k)) + ColumnConfined(s, b, ColumnOf(k)))
  }

  function Pointing(s: State, b: nat): (cells: seq<Cell>)
    requires |s.cells| == 81 && |s.sets| == 27 && b < 9
    ensures |cells| == 81
  {
    seq(81, k requires 0 <= k < 81 => s.cells[k].(values := s.cells[k].values - PointingLoss(s, b, k)))
  }

  function PointingRemoved(s: State, b: nat): set<int>
    requires |s.cells| == 81 && |s.sets| == 27 && b < 9
  {
    set k, v | 0 <= k < 81 && v in PointingLoss(s, b, k) :: v
  }

  /** `Block.reduce`: the naked-subset pass, then the pointing rule on the
      board it leaves; the set returned gathers both passes' sets. */
  function BlockReduceSpec(s: State, b: nat): (r: (Outcome, set<int>))
    requires Wf(s) && b < 9
    ensures r.0.Normal? || r.0.Crashed?
    ensures r.0.Normal? ==> Wf(r.0.st) && r.0.st.sets == s.sets
    ensures r.0.Normal? ==> forall j | 0 <= j < 81 ::
      r.0.st.cells[j].value == s.cells[j].value && r.0.st.cells[j].values <= s.cells[j].values
  {
    var (s1, vals) := GroupReduceSpec(s, b);
    if BlockKeyError(s1, b) then (Crashed, vals)
    else (Normal(State(Pointing(s1, b), s1.sets)), vals + PointingRemoved(s1, b))
  }

  /** On a consistent board every block cell's candidates are on offer in its
      block, so the block pass never hits the missing-key error. */
  lemma BlockReduceNoCrash(s: State, b: nat)
    requires Wf(s) && Consistent(s) && b < 9
    ensures BlockReduceSpec(s, b).0.Normal?
  {
    GroupReduceFacts(s, b);
    var s1 := GroupReduceSpec(s, b).0;
    forall p | 0 <= p < 9 ensures s1.cells[GroupCells(b)[p]].values <= s1.sets[b] {
      BlockCellBlock(b, p);
      assert CellGroups(GroupCells(b)[p])[0] == b;
    }
  }

  /** What the block pass leaves: the block's own cells as the naked-subset
      pass left them, every other cell short of exactly its pointing loss,
      the group sets untouched; consistency survives. */
  lemma BlockReduceFacts(s: State, b: nat)
    requires Wf(s) && Consistent(s) && b < 9
    ensures BlockReduceSpec(s, b).0.Normal?
    ensures var s1 := GroupReduceSpec(s, b).0;
      var t := BlockReduceSpec(s, b).0.st;
      && Wf(t) && Consistent(t) && t.sets == s.sets
      && (forall k | 0 <= k < 81 && InGroup(k, b) :: t.cells[k] == s1.cells[k])
      && (forall k | 0 <= k < 81 ::
            t.cells[k].value == s.cells[k].value && t.cells[k].values <= s.cells[k].values)
      && (forall k | 0 <= k < 81 :: t.cells[k].values == s1.cells[k].values - PointingLoss(s1, b, k))
  {
    BlockReduceNoCrash(s, b);
    GroupReduceFacts(s, b);
  }

  /** A value no block cell can take confines nothing: no cell loses it. */
  lemma NoCandidateNoLoss(s: State, b: nat, v: int)
    requires |s.cells| == 81 && |s.sets| == 27 && b < 9
    requires forall p | 0 <= p < 9 :: v !in s.cells[GroupCells(b)[p]].values
    ensures forall k | 0 <= k < 81 :: v !in PointingLoss(s, b, k)
  {
    assert RowsWith(s.cells, b, v) == {} && ColumnsWith(s.cells, b, v) == {};
  }
}
