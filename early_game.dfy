/** The older search tree (`game.py`): the same moves and `play` as
    pysudoku/game.py, with `leafs` gathering the leaves into a list and a
    `stats` record for every solution. It runs over the board of module
    Boards and the move tree of module Games. */
module EarlyGames {
  import opened Wrappers
  import opened Cells
  import opened Boards
  import opened Games
  import Text

  /** `leafs_(move)`: appends to the list the childless moves below j, left
      to right. */
  method CollectLeafs(nodes: seq<Node>, j: nat, acc: seq<nat>) returns (out: seq<nat>)
    requires ArenaOk(nodes) && j < |nodes|
    ensures out == acc + Leaves(nodes, j)
    decreases |nodes| - j
  {
    if nodes[j].moves == [] {
      return acc + [j];
    }
    LinkedAt(nodes, j);
    out := acc;
    var p := 0;
    while p < |nodes[j].moves|
      invariant 0 <= p <= |nodes[j].moves|
      invariant out + LeavesOf(nodes, j, p) == acc + Leaves(nodes, j)
    {
      var c := nodes[j].moves[p];
      assert LeavesOf(nodes, j, p) == Leaves(nodes, c) + LeavesOf(nodes, j, p + 1);
      out := CollectLeafs(nodes, c, out);
      p := p + 1;
    }
  }

  /** `leafs`: the leaves of the whole tree, in depth-first order. */
  method Leafs(nodes: seq<Node>) returns (ls: seq<nat>)
    requires ArenaOk(nodes) && 0 < |nodes|
    ensures ls == Leaves(nodes, 0)
    ensures forall x | 0 <= x < |nodes| :: x in ls <==> Descends(nodes, x, 0) && nodes[x].moves == []
  {
    ls := CollectLeafs(nodes, 0, []);
    assert ls == Leaves(nodes, 0);
    forall x | 0 <= x < |nodes| ensures x in ls <==> Descends(nodes, x, 0) && nodes[x].moves == [] {
      LeavesMember(nodes, 0, x);
    }
  }

  /** One entry of `stats`. The per-move counter records are not part of
      this model. */
  datatype Record = Record(depth: nat, init: string, moves: seq<string>, board: seq<string>, terminal: bool)

  /** `stats_(move)`: the move's depth, the text of the first move of its
      path, the texts of the rest of the path, the board's lines and
      whether it is terminal. */
  function RecordOf(nodes: seq<Node>, x: nat): Record
    requires ArenaOk(nodes) && x < |nodes|
  {
    var path := PathTo(nodes, x);
    PathFacts(nodes, x);
    Record(
      DepthOf(nodes, x),
      MoveText(nodes[path[0]].marking),
      seq(|path| - 1, k requires 0 <= k < |path| - 1 => MoveText(nodes[path[k + 1]].marking)),
      Text.Split(Render(nodes[x].board), '\n'),
      Terminal(nodes[x].board))
  }

  /** `stats`: one record per solution, in the order of `solutions`. */
  function Stats(nodes: seq<Node>): (rs: seq<Record>)
    requires ArenaOk(nodes) && 0 < |nodes|
  {
    var sols := Solutions(nodes);
    seq(|sols|, k requires 0 <= k < |sols| => assert sols[k] in sols; RecordOf(nodes, sols[k]))
  }

  /** The path of a move below the root starts at the root. */
  lemma {:induction false} PathFromRoot(nodes: seq<Node>, x: nat)
    requires ArenaOk(nodes) && x < |nodes| && Descends(nodes, x, 0)
    ensures PathTo(nodes, x)[0] == 0
    decreases x
  {
    LinkedAt(nodes, x);
    if x != 0 {
      var p := nodes[x].parent.value;
      PathFromRoot(nodes, p);
      PathFacts(nodes, p);
    }
  }

  /** What a record of `stats` says about its solution x: the depth is the
      number of move texts after the first, the first is the root's
      marking, each text reads back as the marking of the move at that
      place on the path, the nine lines are the board's rows, and the board
      is terminal. */
  lemma StatsFacts(nodes: seq<Node>, k: nat)
    requires ArenaOk(nodes) && 0 < |nodes| && k < |Stats(nodes)|
    ensures Solutions(nodes)[k] < |nodes|
    ensures var x := Solutions(nodes)[k];
      var r := Stats(nodes)[k];
      var path := PathTo(nodes, x);
      && |path| == r.depth + 1 && |r.moves| == r.depth
      && r.init == MoveText(nodes[0].marking)
      && (forall q | 0 <= q < |r.moves| :: path[q + 1] < |nodes| && ParseMove(r.moves[q]) == Some(nodes[path[q + 1]].marking))
      && |r.board| == 9 && (forall row | 0 <= row < 9 :: r.board[row] == RowText(nodes[x].board, row))
      && r.terminal
  {
    var sols := Solutions(nodes);
    var x := sols[k];
    assert x in sols;
    assert Stats(nodes)[k] == RecordOf(nodes, x);
    SolutionsDead(nodes, x);
    RecordFacts(nodes, x);
  }

  /** The record of a terminal move below the root. */
  lemma RecordFacts(nodes: seq<Node>, x: nat)
    requires ArenaOk(nodes) && x < |nodes| && Descends(nodes, x, 0) && Terminal(nodes[x].board)
    ensures var r := RecordOf(nodes, x);
      var path := PathTo(nodes, x);
      && |path| == r.depth + 1 && |r.moves| == r.depth
      && r.init == MoveText(nodes[0].marking)
      && (forall q | 0 <= q < |r.moves| :: path[q + 1] < |nodes| && ParseMove(r.moves[q]) == Some(nodes[path[q + 1]].marking))
      && |r.board| == 9 && (forall row | 0 <= row < 9 :: r.board[row] == RowText(nodes[x].board, row))
      && r.terminal
  {
    PathFacts(nodes, x);
    PathFromRoot(nodes, x);
    RenderReadBack(nodes[x].board);
    var path := PathTo(nodes, x);
    var r := RecordOf(nodes, x);
    forall q | 0 <= q < |r.moves| ensures ParseMove(r.moves[q]) == Some(nodes[path[q + 1]].marking) {
      assert r.moves[q] == MoveText(nodes[path[q + 1]].marking);
      MoveRoundTrip(nodes[path[q + 1]].marking);
    }
  }
}
