/** The search tree (`pysudoku/game.py`): a move copies its parent's board,
    applies a marking and propagates; a game grows the tree depth first with
    `play`, and answers depth, path, leaf, solution and dead-end queries.

    Moves are nodes of an arena: node i's parent is a smaller index and its
    child list holds larger ones. A node's board is a board value; the source
    never changes a move's board once the move is built. */
module Games {
  import opened Wrappers
  import opened Grid
  import opened Cells
  import opened Boards
  import opened Sets
  import Text
  import opened Itertools

  // ---------------------------------------------------------------------
  // Moves.

  /** Every value of the marking is non-zero: a zero value would take the
      setter's unassignment branch, which is not part of this model. */
  predicate NonZero(m: seq<Entry>)
  {
    forall i | 0 <= i < |m| :: m[i].value != 0
  }

  /** `board(row, column)`: the cell a coordinate pair names under Python
      list indexing, or None for an IndexError. */
  function CellAt(c: Coord): (k: Option<nat>)
    ensures k.Some? ==> k.value < 81
    ensures 0 <= c.row < 9 && 0 <= c.column < 9 ==> k == Some(Index(c.row, c.column))
  {
    match (PyIndex(c.row), PyIndex(c.column))
    case (Some(r), Some(j)) => Some(Index(r, j))
    case _ => None
  }

  /** `for cell, value in marking: board(*cell).value = value`, stopping at
      the first exception. */
  function ApplyMarking(s: State, m: seq<Entry>): (o: Outcome)
    requires Wf(s) && NonZero(m)
    ensures !o.Crashed? ==> Wf(o.st)
    decreases |m|
  {
    if m == [] then Normal(s)
    else
      match ApplyMarking(s, m[..|m| - 1])
      case Normal(s1) =>
        var e := m[|m| - 1];
        var k := CellAt(e.coord);
        if k.Some? then AssignSpec(s1, k.value, e.value) else Crashed
      case other => other
  }

  /** The board a move starts from: a copy of the parent's, or a fresh one. */
  function StartBoard(parent: Option<State>): (s: State)
    requires parent.Some? ==> Wf(parent.value)
    ensures Wf(s) && Consistent(s)
  {
    if parent.Some? then
      CopyFacts(parent.value);
      CopyState(parent.value)
    else Fresh()
  }

  /** `Move.__init__`: start from the copied board, apply the marking, then
      reduce. Normal means `valid`; Raised means IllegalMove or IllegalBoard
      was caught and the move is invalid with the board as it was left;
      Crashed means an uncaught error escapes the constructor. */
  function MoveSpec(parent: Option<State>, m: seq<Entry>): (o: Outcome)
    requires parent.Some? ==> Wf(parent.value)
    requires NonZero(m)
    ensures !o.Crashed? ==> Wf(o.st)
  {
    match ApplyMarking(StartBoard(parent), m)
    case Normal(s1) => ReduceSpec(s1)
    case other => other
  }

  /** Applying any marking, legal or not, keeps every placed value placed
      when it ends normally. */
  lemma {:induction false} ApplyPlaced(s: State, m: seq<Entry>)
    requires Wf(s) && Placed(s) && NonZero(m)
    ensures ApplyMarking(s, m).Normal? ==> Placed(ApplyMarking(s, m).st)
    decreases |m|
  {
    if m != [] {
      var m' := m[..|m| - 1];
      assert NonZero(m');
      ApplyPlaced(s, m');
      var o := ApplyMarking(s, m');
      var e := m[|m| - 1];
      var k := CellAt(e.coord);
      if o.Normal? && k.Some? && AssignSpec(o.st, k.value, e.value).Normal? {
        AssignNormal(o.st, k.value, e.value);
        PlacedAssign(o.st, k.value, e.value);
      }
    }
  }

  /** A valid move built from scratch, or from a parent board whose values
      are placed and whose open cells all have candidates, has every value
      placed; when its board is terminal it is a solution: each group holds
      the digits 1..9 once each. */
  lemma MovePlaced(parent: Option<State>, m: seq<Entry>)
    requires parent.Some? ==> Wf(parent.value) && Placed(parent.value)
    requires parent.Some? ==> forall k | 0 <= k < 81 && IsOpen(parent.value.cells[k]) :: parent.value.cells[k].values != {}
    requires NonZero(m)
    ensures var o := MoveSpec(parent, m); o.Normal? ==> Placed(o.st)
    ensures var o := MoveSpec(parent, m); o.Normal? && Terminal(o.st) ==>
      forall g | 0 <= g < 27 :: GroupValues(o.st, g) == Digits
  {
    var b := StartBoard(parent);
    if parent.Some? {
      CopyPlaced(parent.value);
    } else {
      FreshPlaced();
    }
    ApplyPlaced(b, m);
    var a := ApplyMarking(b, m);
    if a.Normal? && ReduceSpec(a.st).Normal? {
      ReducePlaced(a.st);
      var r := ReduceSpec(a.st);
      if Terminal(r.st) {
        TerminalSolved(r.st);
      }
    }
  }

  /** The cell an entry inside the board names. */
  function EntryCell(e: Entry): (k: nat)
    requires OnBoard(e.coord)
    ensures k < 81 && CellAt(e.coord) == Some(k)
  {
    Index(e.coord.row, e.coord.column)
  }

  predicate AllOnBoard(m: seq<Entry>)
  {
    forall i | 0 <= i < |m| :: OnBoard(m[i].coord)
  }

  /** The cells the first n entries name. */
  function CellsOf(m: seq<Entry>, n: nat): (ks: set<nat>)
    requires AllOnBoard(m) && n <= |m|
    ensures forall k | k in ks :: k < 81
  {
    set i | 0 <= i < n :: EntryCell(m[i])
  }

  /** What applying the first n entries of m to s leaves in t: a consistent
      board where those entries' cells hold their values, every other cell
      keeps its value, and the open cells are the old ones minus the
      entries'. */
  predicate Applied(s: State, m: seq<Entry>, n: nat, t: State)
    requires Wf(s) && Wf(t) && AllOnBoard(m) && n <= |m|
  {
    && Consistent(t)
    && (forall i | 0 <= i < n :: t.cells[EntryCell(m[i])].value == m[i].value)
    && (forall k | 0 <= k < 81 && k !in CellsOf(m, n) :: t.cells[k].value == s.cells[k].value)
    && OpenSet(t) == OpenSet(s) - CellsOf(m, n)
  }

  lemma LegalShape(s: State, m: seq<Entry>)
    requires Wf(s) && LegalEntries(s, m)
    ensures NonZero(m) && AllOnBoard(m)
  {
    forall i | 0 <= i < |m| ensures m[i].value != 0 && OnBoard(m[i].coord) {
      assert LegalEntry(s, m[i]);
      assert m[i].value in s.cells[EntryCell(m[i])].values;
    }
  }

  /** Applying a marking whose entries are legal on a consistent board never
      crashes, and when it completes it leaves what Applied describes. */
  lemma {:induction false} ApplyLegal(s: State, m: seq<Entry>, n: nat)
    requires Wf(s) && Consistent(s) && LegalEntries(s, m) && n <= |m|
    ensures NonZero(m) && AllOnBoard(m)
    ensures !ApplyMarking(s, m[..n]).Crashed?
    ensures ApplyMarking(s, m[..n]).Normal? ==> Applied(s, m, n, ApplyMarking(s, m[..n]).st)
    decreases n
  {
    LegalShape(s, m);
    if n == 0 {
      assert m[..0] == [];
      assert CellsOf(m, 0) == {};
    } else {
      ApplyLegal(s, m, n - 1);
      var o1 := ApplyMarking(s, m[..n - 1]);
      ApplyUnfold(s, m, n);
      if o1.Normal? {
        ApplyStep(s, m, n, o1.st);
      }
    }
  }

  lemma ApplyUnfold(s: State, m: seq<Entry>, n: nat)
    requires Wf(s) && NonZero(m) && AllOnBoard(m) && 0 < n <= |m|
    ensures ApplyMarking(s, m[..n - 1]).Normal? ==>
      ApplyMarking(s, m[..n]) == AssignSpec(ApplyMarking(s, m[..n - 1]).st, EntryCell(m[n - 1]), m[n - 1].value)
    ensures !ApplyMarking(s, m[..n - 1]).Normal? ==> ApplyMarking(s, m[..n]) == ApplyMarking(s, m[..n - 1])
  {
    var p := m[..n];
    assert p[..n - 1] == m[..n - 1];
    assert p[|p| - 1] == m[n - 1];
  }

  /** The step of ApplyLegal: entry n-1 on the board t the first n-1 left. */
  lemma ApplyStep(s: State, m: seq<Entry>, n: nat, t: State)
    requires Wf(s) && Consistent(s) && LegalEntries(s, m) && NonZero(m) && AllOnBoard(m) && 0 < n <= |m|
    requires Wf(t) && Applied(s, m, n - 1, t)
    ensures var o := AssignSpec(t, EntryCell(m[n - 1]), m[n - 1].value);
      !o.Crashed? && (o.Normal? ==> Applied(s, m, n, o.st))
  {
    var e := m[n - 1];
    var k := EntryCell(e);
    assert LegalEntry(s, e);
    assert CellsOf(m, n) == CellsOf(m, n - 1) + {k};
    forall i | 0 <= i < n - 1 ensures EntryCell(m[i]) != k {
      assert m[i].coord != e.coord;
    }
    assert k !in CellsOf(m, n - 1);
    assert IsOpen(t.cells[k]);
    if e.value in t.cells[k].values {
      AssignOpen(t, k, e.value);
    } else {
      AssignIllegalMove(t, k, e.value);
    }
    var o := AssignSpec(t, k, e.value);
    if o.Normal? {
      var u := o.st;
      assert u == Assigned(t, k, e.value);
      assert u.cells[k].value == e.value;
      assert forall j | 0 <= j < 81 && j != k :: u.cells[j].value == t.cells[j].value;
      OpenAfterAssign(s, t, u, k, CellsOf(m, n - 1));
      AppliedExtend(s, m, n, t, u);
    }
  }

  /** The step from n - 1 applied entries to n, over any board u that holds
      entry n - 1's value in its cell and changes no other cell's value. */
  lemma AppliedExtend(s: State, m: seq<Entry>, n: nat, t: State, u: State)
    requires Wf(s) && Wf(t) && Wf(u) && AllOnBoard(m) && 0 < n <= |m|
    requires Applied(s, m, n - 1, t) && Consistent(u)
    requires CellsOf(m, n) == CellsOf(m, n - 1) + {EntryCell(m[n - 1])}
    requires u.cells[EntryCell(m[n - 1])].value == m[n - 1].value
    requires forall j | 0 <= j < 81 && j != EntryCell(m[n - 1]) :: u.cells[j].value == t.cells[j].value
    requires forall i | 0 <= i < n - 1 :: EntryCell(m[i]) != EntryCell(m[n - 1])
    requires OpenSet(u) == OpenSet(s) - CellsOf(m, n)
    ensures Applied(s, m, n, u)
  {
  }

  /** Assigning open cell k removes exactly k from the open cells. */
  lemma OpenAfterAssign(s: State, t: State, u: State, k: nat, done: set<nat>)
    requires |s.cells| == 81 && |t.cells| == 81 && |u.cells| == 81 && k < 81
    requires OpenSet(t) == OpenSet(s) - done && k !in done && IsOpen(t.cells[k])
    requires u.cells[k].value != 0
    requires forall j | 0 <= j < 81 && j != k :: u.cells[j].value == t.cells[j].value
    ensures OpenSet(u) == OpenSet(s) - (done + {k})
  {
    forall j | 0 <= j < 81 ensures j in OpenSet(u) <==> j in OpenSet(t) && j != k {
    }
  }

  /** Building a move from a legal marking of its parent's board never lets
      an uncaught error escape. When the move is valid, its board has fewer
      open cells than the parent's, or, for the empty marking that only a
      stale parent offers, the same open cells and no staleness. */
  lemma ChildRank(p: State, m: seq<Entry>)
    requires Wf(p) && LegalMarking(p, m)
    ensures NonZero(m) && !MoveSpec(Some(p), m).Crashed?
    ensures var o := MoveSpec(Some(p), m); o.Normal? ==>
      2 * |OpenSet(o.st)| + (if Stale(o.st) then 1 else 0) < 2 * |OpenSet(p)| + (if Stale(p) then 1 else 0)
  {
    CopyFacts(p);
    var b := StartBoard(Some(p));
    CopyLegal(p, m);
    ApplyLegal(b, m, |m|);
    assert m[..|m|] == m;
    var a := ApplyMarking(b, m);
    if a.Normal? {
      ReduceConsistent(a.st);
      var o := MoveSpec(Some(p), m);
      assert o == ReduceSpec(a.st);
      if o.Normal? {
        ReduceOpen(a.st);
        ReduceRank(p, m, b, a.st, o.st);
      }
    }
  }

  /** Legal entries of a board stay legal on its copy. */
  lemma CopyLegal(p: State, m: seq<Entry>)
    requires Wf(p) && LegalEntries(p, m)
    ensures Wf(CopyState(p)) && LegalEntries(CopyState(p), m)
  {
    CopyFacts(p);
    var b := CopyState(p);
    forall i | 0 <= i < |m| ensures LegalEntry(b, m[i]) {
      assert LegalEntry(p, m[i]);
      assert b.cells[EntryCell(m[i])] == p.cells[EntryCell(m[i])];
    }
  }

  /** The rank step once the marking is applied (a) and then reduced (r). */
  lemma ReduceRank(p: State, m: seq<Entry>, b: State, a: State, r: State)
    requires Wf(p) && LegalMarking(p, m) && b == CopyState(p)
    requires Wf(b) && Wf(a) && Wf(r) && AllOnBoard(m) && !Stale(b) && OpenSet(b) == OpenSet(p)
    requires LegalEntries(b, m) && Applied(b, m, |m|, a)
    requires OpenSet(r) <= OpenSet(a) && (OpenSet(r) == OpenSet(a) ==> r.sets == a.sets)
    requires m == [] ==> a == b
    ensures 2 * |OpenSet(r)| + (if Stale(r) then 1 else 0) < 2 * |OpenSet(p)| + (if Stale(p) then 1 else 0)
  {
    if m != [] {
      var k := EntryCell(m[0]);
      assert k in CellsOf(m, |m|);
      assert k in OpenSet(b) by { assert LegalEntry(b, m[0]); }
      SubsetCard(OpenSet(r), OpenSet(b) - {k});
    } else {
      if OpenSet(r) == OpenSet(b) {
        NotStaleSameOpen(b, r);
      } else {
        OpenStrict(OpenSet(r), OpenSet(b));
      }
    }
  }

  /** A proper subset of a finite set is smaller. */
  lemma OpenStrict(a: set<nat>, b: set<nat>)
    requires a <= b && a != b
    ensures |a| < |b|
  {
    var x :| x in b && x !in a;
    SubsetCard(a, b - {x});
  }

  /** Staleness depends only on the open cells and the group sets. */
  lemma NotStaleSameOpen(b: State, r: State)
    requires Wf(b) && Wf(r) && !Stale(b) && OpenSet(r) == OpenSet(b) && r.sets == b.sets
    ensures !Stale(r)
  {
    forall k | 0 <= k < 81 ensures IsOpen(r.cells[k]) <==> IsOpen(b.cells[k]) {
      assert k in OpenSet(r) <==> k in OpenSet(b);
    }
  }
  // ---------------------------------------------------------------------
  // The move tree.

  /** A `Move`: its parent's index, its marking, its board, whether it is
      valid, and the indices of its children in `moves` order. */
  datatype Node = Node(parent: Option<nat>, marking: seq<Entry>, board: State, valid: bool, moves: seq<nat>)

  /** Node j is well linked: its board is well formed, its parent comes
      before it and lists it, and its children come after it, in increasing
      order, each naming it as parent. */
  predicate NodeOk(nodes: seq<Node>, j: nat)
    requires j < |nodes|
  {
    var n := nodes[j];
    && Wf(n.board)
    && (n.parent.Some? ==> n.parent.value < j && j in nodes[n.parent.value].moves)
    && (forall p | 0 <= p < |n.moves| :: j < n.moves[p] < |nodes| && nodes[n.moves[p]].parent == Some(j))
    && (forall p, q | 0 <= p < q < |n.moves| :: n.moves[p] < n.moves[q])
  }

  predicate ArenaOk(nodes: seq<Node>)
  {
    && (forall j | 0 <= j < |nodes| :: Wf(nodes[j].board))
    && (forall j {:trigger NodeOk(nodes, j)} | 0 <= j < |nodes| :: NodeOk(nodes, j))
  }

  /** What play's recursion runs down: for a valid move, twice its open
      cells plus one if it is stale, plus one; an invalid move never
      recurses and ranks 0. */
  function Rank(n: Node): nat
    requires Wf(n.board)
  {
    if n.valid then BoardRank(n.board) + 1 else 0
  }

  /** Twice the open cells of a board, plus one if it is stale. */
  function BoardRank(s: State): nat
    requires Wf(s)
  {
    2 * |OpenSet(s)| + (if Stale(s) then 1 else 0)
  }

  /** b is a by later children: everything else is the same. */
  predicate Extends(a: Node, b: Node)
  {
    && a.parent == b.parent && a.marking == b.marking && a.board == b.board && a.valid == b.valid
    && |a.moves| <= |b.moves| && b.moves[..|a.moves|] == a.moves
  }

  /** How a call at node i leaves the tree: still well linked, node i has
      only gained children, other old nodes are untouched, and every new
      node hangs below i. */
  predicate Grows(a: seq<Node>, i: nat, b: seq<Node>)
  {
    && ArenaOk(b) && i < |a| <= |b|
    && (forall j | 0 <= j < |a| && j != i :: b[j] == a[j])
    && Extends(a[i], b[i])
    && (forall j | |a| <= j < |b| :: b[j].parent.Some? && (b[j].parent.value == i || |a| <= b[j].parent.value))
  }

  /** One attempt of `play`: `Move(marking, move.board, move)` followed by
      `move.append(attempt)`. The attempt is built from a copy of node i's
      board; it never raises, and when node i is valid it ranks lower. */
  function Attempt(nodes: seq<Node>, i: nat, m: seq<Entry>): (r: seq<Node>)
    requires ArenaOk(nodes) && i < |nodes| && LegalMarking(nodes[i].board, m)
    ensures Grows(nodes, i, r) && |r| == |nodes| + 1
    ensures r[i].moves == nodes[i].moves + [|nodes|]
    ensures r[|nodes|].parent == Some(i) && r[|nodes|].marking == m && r[|nodes|].moves == []
    ensures NonZero(m) && !MoveSpec(Some(nodes[i].board), m).Crashed?
    ensures r[|nodes|].valid == MoveSpec(Some(nodes[i].board), m).Normal?
    ensures r[|nodes|].board == MoveSpec(Some(nodes[i].board), m).st
    ensures nodes[i].valid ==> Rank(r[|nodes|]) < Rank(nodes[i])
  {
    ChildRank(nodes[i].board, m);
    var o := MoveSpec(Some(nodes[i].board), m);
    var child := Node(Some(i), m, o.st, o.Normal?, []);
    var r := nodes[i := nodes[i].(moves := nodes[i].moves + [|nodes|])] + [child];
    AttemptOk(nodes, i, r);
    r
  }

  lemma AttemptOk(nodes: seq<Node>, i: nat, r: seq<Node>)
    requires ArenaOk(nodes) && i < |nodes| && |r| == |nodes| + 1
    requires forall j | 0 <= j < |nodes| && j != i :: r[j] == nodes[j]
    requires r[i] == nodes[i].(moves := nodes[i].moves + [|nodes|])
    requires r[|nodes|].parent == Some(i) && r[|nodes|].moves == [] && Wf(r[|nodes|].board)
    ensures ArenaOk(r)
  {
    forall j | 0 <= j < |r| ensures NodeOk(r, j) {
      if j < |nodes| {
        assert NodeOk(nodes, j);
        var n := r[j];
        if n.parent.Some? {
          assert j in nodes[n.parent.value].moves;
          if n.parent.value == i {
            assert j in r[i].moves;
          }
        }
      }
    }
  }

  /** `play(move)`: the yielded moves, and the tree as the generator leaves
      it once exhausted. A terminal board yields the move itself; otherwise
      each marking of each search list is attempted in turn. */
  function PlaySpec(nodes: seq<Node>, i: nat): (r: (seq<Node>, seq<nat>))
    requires ArenaOk(nodes) && i < |nodes|
    ensures Grows(nodes, i, r.0)
    decreases Rank(nodes[i]), 3, 0
  {
    assert NodeOk(nodes, i);
    if Terminal(nodes[i].board) then (nodes, [i])
    else
      SearchLegal(nodes[i].board);
      ListsSpec(nodes, i, Search(nodes[i].board))
  }

  predicate AllLegal(s: State, ls: seq<seq<seq<Entry>>>)
    requires Wf(s)
  {
    forall l, m | l in ls && m in l :: LegalMarking(s, m)
  }

  /** The last list of legal lists, and the ones before it, are legal. */
  lemma LastLegal(s: State, ls: seq<seq<seq<Entry>>>, l: seq<seq<Entry>>)
    requires Wf(s) && AllLegal(s, ls) && ls != [] && l == ls[|ls| - 1]
    ensures AllLegal(s, ls[..|ls| - 1])
    ensures forall p | 0 <= p < |l| :: LegalMarking(s, l[p])
  {
    assert forall p | 0 <= p < |l| :: l in ls && l[p] in l;
  }

  /** The loop over the search lists. */
  function ListsSpec(nodes: seq<Node>, i: nat, ls: seq<seq<seq<Entry>>>): (r: (seq<Node>, seq<nat>))
    requires ArenaOk(nodes) && i < |nodes| && AllLegal(nodes[i].board, ls)
    ensures Grows(nodes, i, r.0)
    decreases Rank(nodes[i]), 2, |ls|
  {
    if ls == [] then (nodes, [])
    else
      var (n1, y1) := ListsSpec(nodes, i, ls[..|ls| - 1]);
      var l := ls[|ls| - 1];
      assert forall p | 0 <= p < |l| :: l in ls && l[p] in l;
      var (n2, y2) := MarkingsSpec(n1, i, l);
      GrowsTrans(nodes, n1, n2, i);
      (n2, y1 + y2)
  }

  /** The loop over one list's markings. */
  function MarkingsSpec(nodes: seq<Node>, i: nat, ms: seq<seq<Entry>>): (r: (seq<Node>, seq<nat>))
    requires ArenaOk(nodes) && i < |nodes|
    requires forall p | 0 <= p < |ms| :: LegalMarking(nodes[i].board, ms[p])
    ensures Grows(nodes, i, r.0)
    decreases Rank(nodes[i]), 1, |ms|
  {
    if ms == [] then (nodes, [])
    else
      var (n1, y1) := MarkingsSpec(nodes, i, ms[..|ms| - 1]);
      var (n2, y2) := StepSpec(n1, i, ms[|ms| - 1]);
      GrowsTrans(nodes, n1, n2, i);
      (n2, y1 + y2)
  }

  /** One marking: attempt it, then recurse into the attempt unless the
      move being played (not the attempt) is invalid. */
  function StepSpec(nodes: seq<Node>, i: nat, m: seq<Entry>): (r: (seq<Node>, seq<nat>))
    requires ArenaOk(nodes) && i < |nodes| && LegalMarking(nodes[i].board, m)
    ensures Grows(nodes, i, r.0)
    decreases Rank(nodes[i]), 0, 0
  {
    var n1 := Attempt(nodes, i, m);
    if nodes[i].valid then
      var r := PlaySpec(n1, |nodes|);
      StepGrows(nodes, n1, r.0, i);
      r
    else (n1, [])
  }

  lemma GrowsTrans(a: seq<Node>, b: seq<Node>, c: seq<Node>, i: nat)
    requires Grows(a, i, b) && Grows(b, i, c)
    ensures Grows(a, i, c)
  {
    assert c[i].moves[..|a[i].moves|] == c[i].moves[..|b[i].moves|][..|a[i].moves|];
  }

  lemma StepGrows(a: seq<Node>, b: seq<Node>, c: seq<Node>, i: nat)
    requires Grows(a, i, b) && |b| == |a| + 1 && b[|a|].parent == Some(i)
    requires Grows(b, |a|, c)
    ensures Grows(a, i, c)
  {
  }

  // ---------------------------------------------------------------------
  // What play yields.

  predicate Increasing(ys: seq<nat>)
  {
    forall p, q | 0 <= p < q < |ys| :: ys[p] < ys[q]
  }

  /** y is a node created after the first lo that play reaches and finds
      terminal: its board is terminal and its parent is valid (only the
      children of valid moves are recursed into). */
  predicate YieldedNew(r: seq<Node>, lo: nat, y: nat)
    requires ArenaOk(r)
  {
    && lo <= y < |r| && Terminal(r[y].board)
    && r[y].parent.Some? && r[y].parent.value < |r| && r[r[y].parent.value].valid
  }

  /** ys lists, in increasing order, exactly the moves from lo on that
      YieldedNew picks out. */
  ghost predicate YieldsFrom(r: seq<Node>, lo: nat, ys: seq<nat>)
    requires ArenaOk(r)
  {
    && Increasing(ys)
    && (forall y | y in ys :: YieldedNew(r, lo, y))
    && (forall y: nat | YieldedNew(r, lo, y) :: y in ys)
  }

  lemma ConcatIncreasing(a: seq<nat>, b: seq<nat>, mid: nat)
    requires Increasing(a) && Increasing(b)
    requires forall y | y in a :: y < mid
    requires forall y | y in b :: mid <= y
    ensures Increasing(a + b)
  {
    forall p, q | 0 <= p < q < |a + b| ensures (a + b)[p] < (a + b)[q] {
      if q >= |a| && p < |a| {
        assert a[p] in a && b[q - |a|] in b;
      }
    }
  }

  /** `play(move)` yields, in increasing index order, the move itself when
      its board is terminal, and otherwise exactly the new moves with a
      terminal board and a valid parent. */
  lemma PlayYields(nodes: seq<Node>, i: nat)
    requires ArenaOk(nodes) && i < |nodes|
    ensures var (r, ys) := PlaySpec(nodes, i);
      && Increasing(ys)
      && (Terminal(nodes[i].board) ==> r == nodes && ys == [i])
      && (!Terminal(nodes[i].board) ==> forall y | y in ys :: YieldedNew(r, |nodes|, y))
      && (!Terminal(nodes[i].board) ==> forall y: nat | YieldedNew(r, |nodes|, y) :: y in ys)
    decreases Rank(nodes[i]), 3, 0
  {
    if !Terminal(nodes[i].board) {
      SearchLegal(nodes[i].board);
      ListsYields(nodes, i, Search(nodes[i].board));
    }
  }

  lemma ListsYields(nodes: seq<Node>, i: nat, ls: seq<seq<seq<Entry>>>)
    requires ArenaOk(nodes) && i < |nodes| && AllLegal(nodes[i].board, ls)
    ensures var (r, ys) := ListsSpec(nodes, i, ls);
      YieldsFrom(r, |nodes|, ys)
    decreases Rank(nodes[i]), 2, |ls|
  {
    if ls != [] {
      var l := ls[|ls| - 1];
      LastLegal(nodes[i].board, ls, l);
      var (n1, y1) := ListsSpec(nodes, i, ls[..|ls| - 1]);
      assert YieldsFrom(n1, |nodes|, y1) by { ListsYields(nodes, i, ls[..|ls| - 1]); }
      var (n2, y2) := MarkingsSpec(n1, i, l);
      assert YieldsFrom(n2, |n1|, y2) by { MarkingsYields(n1, i, l); }
      Compose(nodes, n1, n2, i, y1, y2);
    }
  }

  lemma MarkingsYields(nodes: seq<Node>, i: nat, ms: seq<seq<Entry>>)
    requires ArenaOk(nodes) && i < |nodes|
    requires forall p | 0 <= p < |ms| :: LegalMarking(nodes[i].board, ms[p])
    ensures var (r, ys) := MarkingsSpec(nodes, i, ms);
      YieldsFrom(r, |nodes|, ys)
    decreases Rank(nodes[i]), 1, |ms|
  {
    if ms != [] {
      var (n1, y1) := MarkingsSpec(nodes, i, ms[..|ms| - 1]);
      assert YieldsFrom(n1, |nodes|, y1) by { MarkingsYields(nodes, i, ms[..|ms| - 1]); }
      var (n2, y2) := StepSpec(n1, i, ms[|ms| - 1]);
      assert YieldsFrom(n2, |n1|, y2) by { StepYields(n1, i, ms[|ms| - 1]); }
      Compose(nodes, n1, n2, i, y1, y2);
    }
  }

  lemma StepYields(nodes: seq<Node>, i: nat, m: seq<Entry>)
    requires ArenaOk(nodes) && i < |nodes| && LegalMarking(nodes[i].board, m)
    ensures var (r, ys) := StepSpec(nodes, i, m);
      YieldsFrom(r, |nodes|, ys)
    decreases Rank(nodes[i]), 0, 0
  {
    var n1 := Attempt(nodes, i, m);
    var c := |nodes|;
    assert n1[i].valid == nodes[i].valid;
    if nodes[i].valid {
      var (r, ys) := PlaySpec(n1, c);
      PlayYields(n1, c);
      PlayedYields(n1, c, i, r, ys);
    } else {
      assert forall y: nat | YieldedNew(n1, c, y) :: y == c;
    }
  }

  /** The yields of playing the attempt c just appended below a valid move i
      are the new moves' yields counted from c on. */
  lemma PlayedYields(n1: seq<Node>, c: nat, i: nat, r: seq<Node>, ys: seq<nat>)
    requires ArenaOk(n1) && |n1| == c + 1 && i < c && n1[c].parent == Some(i) && n1[i].valid
    requires Grows(n1, c, r) && Increasing(ys)
    requires Terminal(n1[c].board) ==> r == n1 && ys == [c]
    requires !Terminal(n1[c].board) ==> forall y | y in ys :: YieldedNew(r, |n1|, y)
    requires !Terminal(n1[c].board) ==> forall y: nat | YieldedNew(r, |n1|, y) :: y in ys
    ensures YieldsFrom(r, c, ys)
  {
    assert r[c].board == n1[c].board && r[c].parent == Some(i) && r[i] == n1[i];
    if Terminal(n1[c].board) {
      assert YieldedNew(r, c, c);
    } else {
      forall y: nat | YieldedNew(r, c, y) ensures y in ys {
        assert y != c;
        assert YieldedNew(r, |n1|, y);
      }
    }
  }

  /** Two calls in a row at node i: the yields of both, in order. */
  lemma Compose(a: seq<Node>, b: seq<Node>, c: seq<Node>, i: nat, y1: seq<nat>, y2: seq<nat>)
    requires ArenaOk(a) && Grows(a, i, b) && Grows(b, i, c)
    requires YieldsFrom(b, |a|, y1) && YieldsFrom(c, |b|, y2)
    ensures YieldsFrom(c, |a|, y1 + y2)
  {
    ConcatIncreasing(y1, y2, |b|);
    forall y | |a| <= y < |b| ensures YieldedNew(c, |a|, y) <==> YieldedNew(b, |a|, y) {
      assert c[y] == b[y];
      assert NodeOk(b, y);
      var p := b[y].parent.value;
      assert p == i || (|a| <= p < y);
      assert c[p].valid == b[p].valid;
    }
    forall y: nat | YieldedNew(c, |a|, y) ensures y in y1 + y2 {
      if y < |b| {
        assert YieldedNew(b, |a|, y);
      } else {
        assert YieldedNew(c, |b|, y);
      }
    }
  }
  // ---------------------------------------------------------------------
  // What play builds.

  /** The markings of the moves cs, in order (cs are indices of nodes). */
  function Markings(nodes: seq<Node>, cs: seq<nat>): (r: seq<seq<Entry>>)
    ensures |r| == |cs|
  {
    seq(|cs|, p requires 0 <= p < |cs| => if cs[p] < |nodes| then nodes[cs[p]].marking else [])
  }

  /** What play gives a move as children: every marking of every search
      list of its board, in order, and none when the board is terminal. */
  function Expected(s: State): seq<seq<Entry>>
  {
    if !Wf(s) || Terminal(s) then [] else Flatten(Search(s))
  }

  /** The subtree at c is what play builds from c, when wants says what a
      board's children should be: c's children carry wants(c's board) in
      order; the children of a valid move are explored in turn, those of an
      invalid one are attempted and left childless. */
  predicate Explored(nodes: seq<Node>, c: nat, wants: State -> seq<seq<Entry>>)
    requires ArenaOk(nodes) && c < |nodes|
    decreases |nodes| - c
  {
    var n := nodes[c];
    && NodeOk(nodes, c)
    && Markings(nodes, n.moves) == wants(n.board)
    && forall p | 0 <= p < |n.moves| ::
         if n.valid then Explored(nodes, n.moves[p], wants) else nodes[n.moves[p]].moves == []
  }

  /** The children of i from position lo on are explored (i valid) or
      childless (i invalid). */
  predicate KidsOk(r: seq<Node>, i: nat, lo: nat, wants: State -> seq<seq<Entry>>)
    requires ArenaOk(r) && i < |r|
  {
    NodeOk(r, i) &&
    forall p | lo <= p < |r[i].moves| ::
      if r[i].valid then Explored(r, r[i].moves[p], wants) else r[r[i].moves[p]].moves == []
  }

  /** Explored depends only on the nodes from c on. */
  lemma {:induction false} ExploredFrame(a: seq<Node>, b: seq<Node>, c: nat, wants: State -> seq<seq<Entry>>)
    requires ArenaOk(a) && ArenaOk(b) && c < |a| <= |b|
    requires forall j | c <= j < |a| :: b[j] == a[j]
    requires Explored(a, c, wants)
    ensures Explored(b, c, wants)
    decreases |a| - c
  {
    var ms := a[c].moves;
    assert NodeOk(a, c) && NodeOk(b, c);
    assert Markings(b, ms) == Markings(a, ms);
    forall p | 0 <= p < |ms| ensures if b[c].valid then Explored(b, ms[p], wants) else b[ms[p]].moves == [] {
      if a[c].valid {
        ExploredFrame(a, b, ms[p], wants);
      }
    }
  }

  /** `play(move)` gives move, as its new children, one attempt per marking
      of its search lists in order (none when its board is terminal), and
      explores each of them when move is valid. */
  lemma PlayExplores(nodes: seq<Node>, i: nat)
    requires ArenaOk(nodes) && i < |nodes|
    ensures var r := PlaySpec(nodes, i).0;
      && Markings(r, r[i].moves[|nodes[i].moves|..]) == Expected(nodes[i].board)
      && KidsOk(r, i, |nodes[i].moves|, Expected)
    decreases Rank(nodes[i]), 3, 0
  {
    assert NodeOk(nodes, i);
    if !Terminal(nodes[i].board) {
      SearchLegal(nodes[i].board);
      ListsExplore(nodes, i, Search(nodes[i].board));
    } else {
      assert nodes[i].moves[|nodes[i].moves|..] == [];
    }
  }

  /** A move played from scratch ends up explored: the whole subtree below
      it is what play builds. */
  lemma PlayFresh(nodes: seq<Node>, i: nat)
    requires ArenaOk(nodes) && i < |nodes| && nodes[i].moves == []
    ensures Explored(PlaySpec(nodes, i).0, i, Expected)
    decreases Rank(nodes[i]), 4, 0
  {
    PlayExplores(nodes, i);
    var r := PlaySpec(nodes, i).0;
    assert r[i].moves[0..] == r[i].moves;
  }

  lemma ListsExplore(nodes: seq<Node>, i: nat, ls: seq<seq<seq<Entry>>>)
    requires ArenaOk(nodes) && i < |nodes| && AllLegal(nodes[i].board, ls)
    ensures var r := ListsSpec(nodes, i, ls).0;
      Markings(r, r[i].moves[|nodes[i].moves|..]) == Flatten(ls) && KidsOk(r, i, |nodes[i].moves|, Expected)
    decreases Rank(nodes[i]), 2, |ls|
  {
    assert NodeOk(nodes, i);
    if ls == [] {
      assert nodes[i].moves[|nodes[i].moves|..] == [];
    } else {
      var l := ls[|ls| - 1];
      LastLegal(nodes[i].board, ls, l);
      var n1 := ListsSpec(nodes, i, ls[..|ls| - 1]).0;
      ListsExplore(nodes, i, ls[..|ls| - 1]);
      var n2 := MarkingsSpec(n1, i, l).0;
      MarkingsExplore(n1, i, l);
      ComposeKids(nodes, n1, n2, i, Flatten(ls[..|ls| - 1]), l, Expected);
    }
  }

  lemma MarkingsExplore(nodes: seq<Node>, i: nat, ms: seq<seq<Entry>>)
    requires ArenaOk(nodes) && i < |nodes|
    requires forall p | 0 <= p < |ms| :: LegalMarking(nodes[i].board, ms[p])
    ensures var r := MarkingsSpec(nodes, i, ms).0;
      Markings(r, r[i].moves[|nodes[i].moves|..]) == ms && KidsOk(r, i, |nodes[i].moves|, Expected)
    decreases Rank(nodes[i]), 1, |ms|
  {
    assert NodeOk(nodes, i);
    if ms == [] {
      assert nodes[i].moves[|nodes[i].moves|..] == [];
    } else {
      assert ms[..|ms| - 1] + [ms[|ms| - 1]] == ms;
      var n1 := MarkingsSpec(nodes, i, ms[..|ms| - 1]).0;
      MarkingsExplore(nodes, i, ms[..|ms| - 1]);
      var n2 := StepSpec(n1, i, ms[|ms| - 1]).0;
      StepExplores(n1, i, ms[|ms| - 1]);
      ComposeKids(nodes, n1, n2, i, ms[..|ms| - 1], [ms[|ms| - 1]], Expected);
    }
  }

  lemma StepExplores(nodes: seq<Node>, i: nat, m: seq<Entry>)
    requires ArenaOk(nodes) && i < |nodes| && LegalMarking(nodes[i].board, m)
    ensures var r := StepSpec(nodes, i, m).0;
      Markings(r, r[i].moves[|nodes[i].moves|..]) == [m] && KidsOk(r, i, |nodes[i].moves|, Expected)
    decreases Rank(nodes[i]), 0, 0
  {
    var n1 := Attempt(nodes, i, m);
    var c := |nodes|;
    var r := StepSpec(nodes, i, m).0;
    if nodes[i].valid {
      PlayFresh(n1, c);
    }
    OneKid(r, i, |nodes[i].moves|, c, m, Expected);
  }

  lemma OneKid(r: seq<Node>, i: nat, lo: nat, c: nat, m: seq<Entry>, wants: State -> seq<seq<Entry>>)
    requires ArenaOk(r) && i < |r| && c < |r| && |r[i].moves| == lo + 1 && r[i].moves[lo] == c
    requires r[c].marking == m
    requires r[i].valid ==> Explored(r, c, wants)
    requires !r[i].valid ==> r[c].moves == []
    ensures Markings(r, r[i].moves[lo..]) == [m] && KidsOk(r, i, lo, wants)
  {
    assert r[i].moves[lo..] == [c];
    assert NodeOk(r, i);
  }

  lemma LinkedAt(nodes: seq<Node>, j: nat)
    requires ArenaOk(nodes) && j < |nodes|
    ensures NodeOk(nodes, j)
  {
  }

  /** The children a call at i adds are nodes it created. */
  lemma NewKids(a: seq<Node>, i: nat, b: seq<Node>, p: nat)
    requires ArenaOk(a) && Grows(a, i, b) && |a[i].moves| <= p < |b[i].moves|
    ensures |a| <= b[i].moves[p]
  {
    var d := b[i].moves[p];
    assert NodeOk(b, i);
    if d < |a| {
      LinkedAt(a, d);
      assert false;
    }
  }

  /** Two calls in a row at node i: the children each adds, in order. */
  lemma ComposeKids(a: seq<Node>, b: seq<Node>, c: seq<Node>, i: nat, f1: seq<seq<Entry>>, f2: seq<seq<Entry>>,
                    wants: State -> seq<seq<Entry>>)
    requires ArenaOk(a) && Grows(a, i, b) && Grows(b, i, c)
    requires Markings(b, b[i].moves[|a[i].moves|..]) == f1 && KidsOk(b, i, |a[i].moves|, wants)
    requires Markings(c, c[i].moves[|b[i].moves|..]) == f2 && KidsOk(c, i, |b[i].moves|, wants)
    ensures Markings(c, c[i].moves[|a[i].moves|..]) == f1 + f2 && KidsOk(c, i, |a[i].moves|, wants)
  {
    var lo := |a[i].moves|;
    var mid := |b[i].moves|;
    var kc := c[i].moves;
    assert NodeOk(b, i) && NodeOk(c, i);
    assert kc[..mid] == b[i].moves;
    assert kc[lo..] == b[i].moves[lo..] + kc[mid..];
    OldKidsKept(a, b, c, i, wants);
    MarkingsConcat(c, b[i].moves[lo..], kc[mid..]);
    MarkingsFrame(b, c, b[i].moves[lo..]);
  }

  /** The children the first call added are untouched by the second, and
      stay explored (or childless). */
  lemma OldKidsKept(a: seq<Node>, b: seq<Node>, c: seq<Node>, i: nat, wants: State -> seq<seq<Entry>>)
    requires ArenaOk(a) && Grows(a, i, b) && Grows(b, i, c)
    requires KidsOk(b, i, |a[i].moves|, wants)
    ensures forall p | |a[i].moves| <= p < |b[i].moves| ::
      && c[i].moves[p] == b[i].moves[p] && c[b[i].moves[p]] == b[b[i].moves[p]]
      && (if c[i].valid then Explored(c, b[i].moves[p], wants) else c[b[i].moves[p]].moves == [])
  {
    var lo := |a[i].moves|;
    var mid := |b[i].moves|;
    var kc := c[i].moves;
    assert NodeOk(b, i);
    assert kc[..mid] == b[i].moves;
    forall p | lo <= p < mid
      ensures kc[p] == b[i].moves[p] && c[kc[p]] == b[kc[p]]
      ensures if c[i].valid then Explored(c, kc[p], wants) else c[kc[p]].moves == []
    {
      var d := kc[p];
      assert d == b[i].moves[p];
      NewKids(a, i, b, p);
      assert |a| <= d < |b| && d != i;
      if c[i].valid {
        forall j | d <= j < |b| ensures c[j] == b[j] {
          assert j != i;
        }
        ExploredFrame(b, c, d, wants);
      }
    }
  }

  lemma MarkingsConcat(nodes: seq<Node>, xs: seq<nat>, ys: seq<nat>)
    ensures Markings(nodes, xs + ys) == Markings(nodes, xs) + Markings(nodes, ys)
  {
  }

  /** Markings reads only the nodes it is given. */
  lemma MarkingsFrame(b: seq<Node>, c: seq<Node>, xs: seq<nat>)
    requires forall p | 0 <= p < |xs| :: xs[p] < |b| <= |c| && c[xs[p]] == b[xs[p]]
    ensures Markings(c, xs) == Markings(b, xs)
  {
  }

  // ---------------------------------------------------------------------
  // The root move.

  /** `Move(marking)`: a move with no parent, built on a fresh board. None
      when an uncaught error escapes the constructor. */
  function RootMove(m: seq<Entry>): (r: Option<Node>)
    requires NonZero(m)
    ensures r.Some? ==> r.value.parent.None? && r.value.marking == m && r.value.moves == [] && Wf(r.value.board)
  {
    match MoveSpec(None, m)
    case Crashed => None
    case Normal(s) => Some(Node(None, m, s, true, []))
    case Raised(_, s) => Some(Node(None, m, s, false, []))
  }

  /** Distinct cells on the board and values from 1 to 9: what a fresh
      board accepts without an escaping error. */
  predicate Placeable(m: seq<Entry>)
  {
    && (forall i | 0 <= i < |m| :: OnBoard(m[i].coord) && 1 <= m[i].value <= 9)
    && (forall i, j | 0 <= i < j < |m| :: m[i].coord != m[j].coord)
  }

  /** A marking of distinct on-board cells with values 1 to 9 builds a root
      move; it is valid exactly when applying it and reducing raise nothing. */
  lemma RootPlaceable(m: seq<Entry>)
    requires Placeable(m)
    ensures NonZero(m) && RootMove(m).Some?
    ensures RootMove(m).value.valid <==> MoveSpec(None, m).Normal?
  {
    var b := Fresh();
    forall i | 0 <= i < |m| ensures LegalEntry(b, m[i]) {
      assert m[i].value in Digits;
    }
    ApplyLegal(b, m, |m|);
    assert m[..|m|] == m;
    var a := ApplyMarking(b, m);
    if a.Normal? {
      ReduceConsistent(a.st);
    }
  }

  /** A game over a root move: the tree holds that move alone. */
  lemma RootArena(root: Node)
    requires root.parent.None? && root.moves == [] && Wf(root.board)
    ensures ArenaOk([root])
  {
    assert NodeOk([root], 0);
  }

  // ---------------------------------------------------------------------
  // Depth and path.

  /** `Game.depth(move)`: the number of parent links up to the root. */
  function DepthOf(nodes: seq<Node>, j: nat): nat
    requires ArenaOk(nodes) && j < |nodes|
    decreases j
  {
    LinkedAt(nodes, j);
    match nodes[j].parent
    case None => 0
    case Some(p) => 1 + DepthOf(nodes, p)
  }

  /** `Game.moves(move)`: the moves from the root down to move. */
  function PathTo(nodes: seq<Node>, j: nat): (ps: seq<nat>)
    requires ArenaOk(nodes) && j < |nodes|
    decreases j
  {
    LinkedAt(nodes, j);
    match nodes[j].parent
    case None => [j]
    case Some(p) => PathTo(nodes, p) + [j]
  }

  /** The path has depth + 1 moves; it starts at a move with no parent, ends
      at j, and each move on it is the parent of the next. */
  lemma {:induction false} PathFacts(nodes: seq<Node>, j: nat)
    requires ArenaOk(nodes) && j < |nodes|
    ensures var ps := PathTo(nodes, j);
      && |ps| == DepthOf(nodes, j) + 1
      && ps[|ps| - 1] == j
      && (forall k | 0 <= k < |ps| :: ps[k] < |nodes|)
      && nodes[ps[0]].parent.None?
      && (forall k | 0 <= k < |ps| - 1 :: nodes[ps[k + 1]].parent == Some(ps[k]))
    decreases j
  {
    LinkedAt(nodes, j);
    if nodes[j].parent.Some? {
      var p := nodes[j].parent.value;
      PathFacts(nodes, p);
      var ps := PathTo(nodes, j);
      assert ps[..|ps| - 1] == PathTo(nodes, p);
    }
  }

  // ---------------------------------------------------------------------
  // Leaves.

  /** x is j or lies in the subtree below j. */
  predicate Descends(nodes: seq<Node>, x: nat, j: nat)
    requires ArenaOk(nodes) && x < |nodes|
    decreases x
  {
    LinkedAt(nodes, x);
    x == j || (nodes[x].parent.Some? && Descends(nodes, nodes[x].parent.value, j))
  }

  /** `leaves` below j: j itself when childless, otherwise the leaves of
      its children in order. */
  function Leaves(nodes: seq<Node>, j: nat): (ls: seq<nat>)
    requires ArenaOk(nodes) && j < |nodes|
    ensures forall k | 0 <= k < |ls| :: ls[k] < |nodes|
    decreases |nodes| - j, |nodes[j].moves| + 1
  {
    if nodes[j].moves == [] then [j] else LeavesOf(nodes, j, 0)
  }

  /** The leaves below the children of j from position p on. */
  function LeavesOf(nodes: seq<Node>, j: nat, p: nat): (ls: seq<nat>)
    requires ArenaOk(nodes) && j < |nodes| && p <= |nodes[j].moves|
    ensures forall k | 0 <= k < |ls| :: ls[k] < |nodes|
    decreases |nodes| - j, |nodes[j].moves| - p
  {
    LinkedAt(nodes, j);
    if p == |nodes[j].moves| then []
    else Leaves(nodes, nodes[j].moves[p]) + LeavesOf(nodes, j, p + 1)
  }

  /** x descends from j through one of its children from position p on. */
  predicate BelowFrom(nodes: seq<Node>, j: nat, p: nat, x: nat)
    requires ArenaOk(nodes) && j < |nodes| && x < |nodes|
  {
    LinkedAt(nodes, j);
    exists q | p <= q < |nodes[j].moves| :: Descends(nodes, x, nodes[j].moves[q])
  }

  /** The leaves below j are exactly the childless moves that descend from
      j. */
  lemma {:induction false} LeavesMember(nodes: seq<Node>, j: nat, x: nat)
    requires ArenaOk(nodes) && j < |nodes| && x < |nodes|
    ensures x in Leaves(nodes, j) <==> Descends(nodes, x, j) && nodes[x].moves == []
    decreases |nodes| - j, |nodes[j].moves| + 1
  {
    LinkedAt(nodes, j);
    if nodes[j].moves == [] {
      if Descends(nodes, x, j) && x != j {
        DescendsChild(nodes, x, j);
      }
    } else {
      LeavesOfMember(nodes, j, 0, x);
      if Descends(nodes, x, j) && nodes[x].moves == [] {
        assert x != j;
        DescendsChild(nodes, x, j);
      }
      if BelowFrom(nodes, j, 0, x) {
        var q :| 0 <= q < |nodes[j].moves| && Descends(nodes, x, nodes[j].moves[q]);
        DescendsTrans(nodes, x, nodes[j].moves[q], j);
      }
    }
  }

  lemma {:induction false} LeavesOfMember(nodes: seq<Node>, j: nat, p: nat, x: nat)
    requires ArenaOk(nodes) && j < |nodes| && p <= |nodes[j].moves| && x < |nodes|
    ensures x in LeavesOf(nodes, j, p) <==> BelowFrom(nodes, j, p, x) && nodes[x].moves == []
    decreases |nodes| - j, |nodes[j].moves| - p
  {
    LinkedAt(nodes, j);
    if p < |nodes[j].moves| {
      var c := nodes[j].moves[p];
      LeavesMember(nodes, c, x);
      LeavesOfMember(nodes, j, p + 1, x);
      if BelowFrom(nodes, j, p, x) && !Descends(nodes, x, c) {
        var q :| p <= q < |nodes[j].moves| && Descends(nodes, x, nodes[j].moves[q]);
        assert BelowFrom(nodes, j, p + 1, x);
      }
    }
  }

  /** A move strictly below j descends from one of j's children. */
  lemma {:induction false} DescendsChild(nodes: seq<Node>, x: nat, j: nat)
    requires ArenaOk(nodes) && x < |nodes| && j < |nodes| && x != j && Descends(nodes, x, j)
    ensures BelowFrom(nodes, j, 0, x)
    decreases x
  {
    LinkedAt(nodes, x);
    LinkedAt(nodes, j);
    var p := nodes[x].parent.value;
    LinkedAt(nodes, p);
    if p == j {
      var q :| 0 <= q < |nodes[j].moves| && nodes[j].moves[q] == x;
      assert Descends(nodes, x, nodes[j].moves[q]);
    } else {
      DescendsChild(nodes, p, j);
      var q :| 0 <= q < |nodes[j].moves| && Descends(nodes, p, nodes[j].moves[q]);
      assert Descends(nodes, x, nodes[j].moves[q]);
    }
  }

  /** Below a child of j is below j. */
  lemma {:induction false} DescendsTrans(nodes: seq<Node>, x: nat, c: nat, j: nat)
    requires ArenaOk(nodes) && x < |nodes| && c < |nodes| && nodes[c].parent == Some(j)
    requires Descends(nodes, x, c)
    ensures Descends(nodes, x, j)
    decreases x
  {
    LinkedAt(nodes, x);
    if x != c {
      DescendsTrans(nodes, nodes[x].parent.value, c, j);
    }
  }

  /** `solutions`: the leaves of the tree with a terminal board. */
  function Solutions(nodes: seq<Node>): seq<nat>
    requires ArenaOk(nodes) && 0 < |nodes|
  {
    Filter(Leaves(nodes, 0), (x: nat) => x < |nodes| && |nodes[x].board.cells| == 81 && Terminal(nodes[x].board))
  }

  /** `dead`: the leaves of the tree whose move is not valid. */
  function Dead(nodes: seq<Node>): seq<nat>
    requires ArenaOk(nodes) && 0 < |nodes|
  {
    Filter(Leaves(nodes, 0), (x: nat) => x < |nodes| && !nodes[x].valid)
  }

  /** The solutions are exactly the childless moves of the tree with a
      terminal board, and the dead ends those that are invalid. */
  lemma SolutionsDead(nodes: seq<Node>, x: nat)
    requires ArenaOk(nodes) && 0 < |nodes| && x < |nodes|
    ensures x in Solutions(nodes) <==> Descends(nodes, x, 0) && nodes[x].moves == [] && Terminal(nodes[x].board)
    ensures x in Dead(nodes) <==> Descends(nodes, x, 0) && nodes[x].moves == [] && !nodes[x].valid
  {
    LeavesMember(nodes, 0, x);
  }
  // ---------------------------------------------------------------------
  // Move text.

  /** One marking entry as `Move.__str__` writes it: `(row,column)=value`. */
  function EntryText(e: Entry): string
  {
    "(" + Text.IntToString(e.coord.row) + "," + Text.IntToString(e.coord.column) + ")=" + Text.IntToString(e.value)
  }

  /** `str(move)`: the entries of the marking, space separated. */
  function MoveText(m: seq<Entry>): string
  {
    Text.Join(seq(|m|, k requires 0 <= k < |m| => EntryText(m[k])), " ")
  }

  /** Reads one `(row,column)=value` token back; None when it is not one. */
  function ParseEntry(t: string): Option<Entry>
  {
    var ps := Text.Split(t, ')');
    if |ps| != 2 || ps[0] == [] || ps[0][0] != '(' || ps[1] == [] || ps[1][0] != '=' then None
    else
      var cs := Text.Split(ps[0][1..], ',');
      if |cs| != 2 then None
      else
        match (Text.ParseInt(cs[0]), Text.ParseInt(cs[1]), Text.ParseInt(ps[1][1..]))
        case (Some(r), Some(c), Some(v)) => Some(Entry(Coord(r, c), v))
        case _ => None
  }

  /** Reads a move's text back into its marking. */
  function ParseMove(s: string): Option<seq<Entry>>
  {
    ParseEach(Text.Words(s))
  }

  function ParseEach(ts: seq<string>): Option<seq<Entry>>
  {
    if ts == [] then Some([])
    else
      var e, es := ParseEntry(ts[0]), ParseEach(ts[1..]);
      if e.Some? && es.Some? then Some([e.value] + es.value) else None
  }

  /** The characters `str` of an integer is made of. */
  predicate NumberChars(s: string)
  {
    forall i | 0 <= i < |s| :: Text.IsDigit(s[i]) || s[i] == '-'
  }

  /** An entry's text is one word and reads back as the entry. */
  lemma EntryRoundTrip(e: Entry)
    ensures EntryText(e) != [] && Text.NoSpace(EntryText(e))
    ensures ParseEntry(EntryText(e)) == Some(e)
  {
    var a := Text.IntToString(e.coord.row);
    var b := Text.IntToString(e.coord.column);
    var c := Text.IntToString(e.value);
    Text.IntToStringPlain(e.coord.row);
    Text.IntToStringPlain(e.coord.column);
    Text.IntToStringPlain(e.value);
    Text.ParseIntToString(e.coord.row);
    Text.ParseIntToString(e.coord.column);
    Text.ParseIntToString(e.value);
    EntryParse(a, b, c, e);
    EntryWord(a, b, c);
  }

  lemma EntryParse(a: string, b: string, c: string, e: Entry)
    requires NumberChars(a) && NumberChars(b) && NumberChars(c)
    requires Text.ParseInt(a) == Some(e.coord.row) && Text.ParseInt(b) == Some(e.coord.column)
    requires Text.ParseInt(c) == Some(e.value)
    ensures ParseEntry("(" + a + "," + b + ")=" + c) == Some(e)
  {
    EntryPieces(a, b, c);
  }

  /** How ParseEntry takes `(a,b)=c` apart. */
  lemma EntryPieces(a: string, b: string, c: string)
    requires NumberChars(a) && NumberChars(b) && NumberChars(c)
    ensures var ps := Text.Split("(" + a + "," + b + ")=" + c, ')');
      && ps == ["(" + a + "," + b, "=" + c]
      && Text.Split(ps[0][1..], ',') == [a, b] && ps[1][1..] == c
  {
    var p0 := ['('] + a + [','] + b;
    var p1 := ['='] + c;
    NotIn(a, ')');
    NotIn(b, ')');
    NotIn(c, ')');
    NotIn(a, ',');
    NotIn(b, ',');
    OuterSplit(p0, p1);
    assert "(" + a + "," + b + ")=" + c == p0 + [')'] + p1;
    InnerSplit(a, b);
  }

  lemma OuterSplit(p0: string, p1: string)
    requires |p0| > 0 && p0[0] == '(' && ')' !in p0[1..] && |p1| > 0 && p1[0] == '=' && ')' !in p1[1..]
    ensures Text.Split(p0 + [')'] + p1, ')') == [p0, p1]
  {
    assert p0 == [p0[0]] + p0[1..];
    assert p1 == [p1[0]] + p1[1..];
    SplitPair(p0, p1, ')');
  }

  lemma InnerSplit(a: string, b: string)
    requires ',' !in a && ',' !in b
    ensures Text.Split((['('] + a + [','] + b)[1..], ',') == [a, b]
  {
    assert (['('] + a + [','] + b)[1..] == a + [','] + b;
    SplitPair(a, b, ',');
  }

  lemma SplitPair(x: string, y: string, ch: char)
    requires ch !in x && ch !in y
    ensures Text.Split(x + [ch] + y, ch) == [x, y]
  {
    assert x + [ch] + y == Text.Join([x, y], [ch]);
    Text.SplitJoin([x, y], ch);
  }

  lemma NotIn(s: string, x: char)
    requires NumberChars(s) && !Text.IsDigit(x) && x != '-'
    ensures x !in s
  {
  }

  /** `(a,b)=c` has no whitespace. */
  lemma EntryWord(a: string, b: string, c: string)
    requires NumberChars(a) && NumberChars(b) && NumberChars(c)
    ensures Text.NoSpace("(" + a + "," + b + ")=" + c)
  {
    var t := "(" + a + "," + b + ")=" + c;
    forall i | 0 <= i < |t| ensures !Text.IsSpace(t[i]) {
      assert Text.IsDigit(t[i]) || t[i] in "(,)=-";
    }
  }

  /** A move's text reads back as its marking. */
  lemma MoveRoundTrip(m: seq<Entry>)
    ensures ParseMove(MoveText(m)) == Some(m)
  {
    var ts := seq(|m|, k requires 0 <= k < |m| => EntryText(m[k]));
    forall k | 0 <= k < |m| ensures ts[k] != [] && Text.NoSpace(ts[k]) && ParseEntry(ts[k]) == Some(m[k]) {
      EntryRoundTrip(m[k]);
    }
    Text.WordsJoin(ts);
    ParseAll(m, ts);
  }

  lemma {:induction false} ParseAll(m: seq<Entry>, ts: seq<string>)
    requires |ts| == |m| && forall k | 0 <= k < |m| :: ParseEntry(ts[k]) == Some(m[k])
    ensures ParseEach(ts) == Some(m)
  {
    if m != [] {
      assert ParseEach(ts[1..]) == Some(m[1..]) by { ParseAll(m[1..], ts[1..]); }
      assert ParseEntry(ts[0]) == Some(m[0]);
      assert m == [m[0]] + m[1..];
    }
  }

  /** One more search list, as the loop in `play` takes it: from the state
      after the first a lists, the next list may be played. */
  lemma ListsSnoc(nodes: seq<Node>, i: nat, ls: seq<seq<seq<Entry>>>, a: nat, cur: seq<Node>, ys: seq<nat>)
    requires ArenaOk(nodes) && i < |nodes| && AllLegal(nodes[i].board, ls) && a < |ls|
    requires ListsSpec(nodes, i, ls[..a]) == (cur, ys)
    ensures ArenaOk(cur) && i < |cur| && Rank(cur[i]) == Rank(nodes[i])
    ensures forall p | 0 <= p < |ls[a]| :: LegalMarking(cur[i].board, ls[a][p])
    ensures ListsSpec(nodes, i, ls[..a + 1]) == (MarkingsSpec(cur, i, ls[a]).0, ys + MarkingsSpec(cur, i, ls[a]).1)
  {
    assert Grows(nodes, i, cur);
    assert cur[i].board == nodes[i].board && cur[i].valid == nodes[i].valid;
    var pre := ls[..a + 1];
    assert pre[..|pre| - 1] == ls[..a] && pre[|pre| - 1] == ls[a];
    assert forall p | 0 <= p < |ls[a]| :: ls[a] in ls && ls[a][p] in ls[a];
  }

  /** One more marking, as the inner loop in `play` takes it: from the state
      after the first b markings, the next marking may be played. */
  lemma MarkingsSnoc(nodes: seq<Node>, i: nat, ms: seq<seq<Entry>>, b: nat, cur: seq<Node>, got: seq<nat>)
    requires ArenaOk(nodes) && i < |nodes| && b < |ms|
    requires forall p | 0 <= p < |ms| :: LegalMarking(nodes[i].board, ms[p])
    requires MarkingsSpec(nodes, i, ms[..b]) == (cur, got)
    ensures ArenaOk(cur) && i < |cur| && Rank(cur[i]) == Rank(nodes[i])
    ensures LegalMarking(cur[i].board, ms[b])
    ensures MarkingsSpec(nodes, i, ms[..b + 1]) == (StepSpec(cur, i, ms[b]).0, got + StepSpec(cur, i, ms[b]).1)
  {
    assert Grows(nodes, i, cur);
    assert cur[i].board == nodes[i].board && cur[i].valid == nodes[i].valid;
    var pre := ms[..b + 1];
    assert pre[..|pre| - 1] == ms[..b] && pre[|pre| - 1] == ms[b];
  }

  lemma StepUnfold(nodes: seq<Node>, i: nat, m: seq<Entry>)
    requires ArenaOk(nodes) && i < |nodes| && LegalMarking(nodes[i].board, m)
    ensures StepSpec(nodes, i, m) ==
      if nodes[i].valid then PlaySpec(Attempt(nodes, i, m), |nodes|) else (Attempt(nodes, i, m), [])
  {
  }

  // ---------------------------------------------------------------------
  // The game object.

  /** `Game`: the tree grown so far; the root is move 0. */
  class Game {
    var nodes: seq<Node>

    /** `Game(move)` over a root move. */
    constructor(root: Node)
      requires root.parent.None? && root.moves == [] && Wf(root.board)
      ensures nodes == [root] && ArenaOk(nodes)
    {
      nodes := [root];
      RootArena(root);
    }

    /** `play(move)`, run to exhaustion: grows the tree exactly as PlaySpec
        says and returns the yielded moves. */
    method Play(i: nat) returns (ys: seq<nat>)
      requires ArenaOk(nodes) && i < |nodes|
      modifies this
      ensures (nodes, ys) == PlaySpec(old(nodes), i)
      decreases Rank(nodes[i]), 3
    {
      LinkedAt(nodes, i);
      if Terminal(nodes[i].board) {
        ys := [i];
        return;
      }
      var ls := Search(nodes[i].board);
      SearchLegal(nodes[i].board);
      ys := PlayLists(i, ls);
    }

    /** The outer loop of `play`: each list the search returns in turn. */
    method PlayLists(i: nat, ls: seq<seq<seq<Entry>>>) returns (ys: seq<nat>)
      requires ArenaOk(nodes) && i < |nodes| && AllLegal(nodes[i].board, ls)
      modifies this
      ensures (nodes, ys) == ListsSpec(old(nodes), i, ls)
      decreases Rank(nodes[i]), 2
    {
      ghost var n0 := nodes;
      ys := [];
      var a := 0;
      while a < |ls|
        invariant 0 <= a <= |ls|
        invariant ListsSpec(n0, i, ls[..a]) == (nodes, ys)
      {
        ListsSnoc(n0, i, ls, a, nodes, ys);
        var got := PlayMarkings(i, ls[a]);
        ys := ys + got;
        a := a + 1;
      }
      assert ls[..a] == ls;
    }

    /** The inner loop of `play`: each marking of one search list in turn. */
    method PlayMarkings(i: nat, ms: seq<seq<Entry>>) returns (got: seq<nat>)
      requires ArenaOk(nodes) && i < |nodes|
      requires forall p | 0 <= p < |ms| :: LegalMarking(nodes[i].board, ms[p])
      modifies this
      ensures (nodes, got) == MarkingsSpec(old(nodes), i, ms)
      decreases Rank(nodes[i]), 1
    {
      ghost var n1 := nodes;
      got := [];
      var b := 0;
      while b < |ms|
        invariant 0 <= b <= |ms|
        invariant MarkingsSpec(n1, i, ms[..b]) == (nodes, got)
      {
        MarkingsSnoc(n1, i, ms, b, nodes, got);
        var y := PlayStep(i, ms[b]);
        got := got + y;
        b := b + 1;
      }
      assert ms[..b] == ms;
    }

    /** One marking: `Move(marking, move.board, move)`, appended to the
        move, then played unless the move being played is invalid. */
    method PlayStep(i: nat, m: seq<Entry>) returns (y: seq<nat>)
      requires ArenaOk(nodes) && i < |nodes| && LegalMarking(nodes[i].board, m)
      modifies this
      ensures (nodes, y) == StepSpec(old(nodes), i, m)
      decreases Rank(nodes[i]), 0
    {
      StepUnfold(nodes, i, m);
      var c := |nodes|;
      var valid := nodes[i].valid;
      nodes := Attempt(nodes, i, m);
      if valid {
        y := Play(c);
      } else {
        y := [];
      }
    }

    /** `Game.depth(move)`: follows parent links up to the root, counting. */
    static method Depth(nodes: seq<Node>, j: nat) returns (depth: nat)
      requires ArenaOk(nodes) && j < |nodes|
      ensures depth == DepthOf(nodes, j)
    {
      depth := 0;
      var move: nat := j;
      LinkedAt(nodes, move);
      while nodes[move].parent.Some?
        invariant move < |nodes|
        invariant depth + DepthOf(nodes, move) == DepthOf(nodes, j)
        decreases move
      {
        depth := depth + 1;
        LinkedAt(nodes, move);
        move := nodes[move].parent.value;
      }
    }

    /** `Game.moves(move)`: collects the moves up to the root, then reverses
        them. */
    static method Moves(nodes: seq<Node>, j: nat) returns (path: seq<nat>)
      requires ArenaOk(nodes) && j < |nodes|
      ensures path == PathTo(nodes, j)
    {
      var moves: seq<nat> := [j];
      var move: nat := j;
      while nodes[move].parent.Some?
        invariant move < |nodes| && moves != [] && moves[|moves| - 1] == move
        invariant PathTo(nodes, move) + Reversed(moves)[1..] == PathTo(nodes, j)
        decreases move
      {
        LinkedAt(nodes, move);
        var p := nodes[move].parent.value;
        assert PathTo(nodes, move) == PathTo(nodes, p) + [move];
        assert Reversed(moves + [p])[1..] == [move] + Reversed(moves)[1..];
        move := p;
        moves := moves + [move];
      }
      assert PathTo(nodes, move) == [move];
      path := Reversed(moves);
      assert path == [move] + path[1..];
    }
  }
}
