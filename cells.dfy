/** Cells, the board state they form, and the cell assignment (the `value`
    setter of a cell): check the value against the cell's domain, commit it,
    then strip it from the available set of each of the cell's three groups
    and from every open peer's domain, stopping with IllegalBoard the moment a
    peer's domain empties. */
module Cells {
  import opened Grid

  /** A cell: value 0 is an open cell. The source clears an assigned cell's
      domain to None; here it is the empty set, which every test the source
      makes on a domain (truthiness, membership) treats the same way. */
  datatype Cell = Cell(value: int, values: set<int>)

  predicate IsOpen(c: Cell) { c.value == 0 }

  /** The 81 cells, row-major, and the available set of each of the 27 groups. */
  datatype State = State(cells: seq<Cell>, sets: seq<set<int>>)

  /** Shape of a board: every domain and group set holds digits only, and an
      assigned cell has no domain. */
  predicate Wf(s: State)
  {
    && |s.cells| == 81 && |s.sets| == 27
    && (forall k | 0 <= k < 81 :: s.cells[k].values <= Digits)
    && (forall k | 0 <= k < 81 :: s.cells[k].value != 0 ==> s.cells[k].values == {})
    && (forall g | 0 <= g < 27 :: s.sets[g] <= Digits)
  }

  /** Every open cell's domain lies inside the available set of each of its
      groups. Fresh and copied boards have it, assignment and the reductions
      keep it; only an assignment interrupted by IllegalBoard breaks it. */
  predicate Consistent(s: State)
    requires Wf(s)
  {
    forall k, i | 0 <= k < 81 && 0 <= i < 3 :: s.cells[k].values <= s.sets[CellGroups(k)[i]]
  }

  datatype Exception = IllegalMove(coord: Coord, value: int) | IllegalBoard

  /** How an operation on a board ends: normally, by raising one of the two
      exceptions a move catches (with the board as it was left at that
      point), or with an exception nothing catches (a KeyError from
      `set.remove`, an IndexError). */
  datatype Outcome = Normal(st: State) | Raised(exc: Exception, st: State) | Crashed

  predicate AllBelow(ms: seq<nat>, n: nat)
  {
    forall i | 0 <= i < |ms| :: ms[i] < n
  }

  /** Remove v from the domain of each listed cell that holds it, in order,
      stopping as soon as one becomes empty (the flag). */
  function Strip(cells: seq<Cell>, ms: seq<nat>, v: int): (r: (seq<Cell>, bool))
    requires AllBelow(ms, |cells|)
    ensures |r.0| == |cells|
    ensures forall j | 0 <= j < |cells| :: r.0[j].value == cells[j].value && r.0[j].values <= cells[j].values
    decreases |ms|
  {
    if ms == [] then (cells, false)
    else
      var prev := Strip(cells, ms[..|ms| - 1], v);
      if prev.1 then prev
      else
        var k := ms[|ms| - 1];
        var c := prev.0[k];
        if v in c.values then
          var c' := c.(values := c.values - {v});
          (prev.0[k := c'], c'.values == {})
        else (prev.0, false)
  }

  /** For each listed group in turn: remove v from its set (KeyError when it is
      not there), then strip v from its cells. */
  function StripGroups(s: State, gs: seq<nat>, v: int): (o: Outcome)
    requires |s.cells| == 81 && |s.sets| == 27 && AllBelow(gs, 27)
    ensures !o.Crashed? ==> |o.st.cells| == 81 && |o.st.sets| == 27
    ensures o.Raised? ==> o.exc == IllegalBoard
    ensures !o.Crashed? ==> forall j | 0 <= j < 81 ::
      o.st.cells[j].value == s.cells[j].value && o.st.cells[j].values <= s.cells[j].values
    ensures !o.Crashed? ==> forall g | 0 <= g < 27 :: o.st.sets[g] <= s.sets[g]
    decreases |gs|
  {
    if gs == [] then Normal(s)
    else
      match StripGroups(s, gs[..|gs| - 1], v)
      case Normal(s1) => StripInGroup(s1, gs[|gs| - 1], v)
      case other => other
  }

  /** One group of StripGroups: v leaves the group's set (KeyError when it
      is not there) and then its member cells. */
  function StripInGroup(s: State, g: nat, v: int): Outcome
    requires |s.cells| == 81 && |s.sets| == 27 && g < 27
  {
    if v !in s.sets[g] then Crashed
    else
      var r := Strip(s.cells, GroupCells(g), v);
      var s2 := State(r.0, s.sets[g := s.sets[g] - {v}]);
      if r.1 then Raised(IllegalBoard, s2) else Normal(s2)
  }

  /** Assigning a non-zero value v to cell k. An open cell must hold v in its
      domain; an assigned cell is not checked at all. */
  function AssignSpec(s: State, k: nat, v: int): (o: Outcome)
    requires Wf(s) && k < 81 && v != 0
    ensures !o.Crashed? ==> Wf(o.st)
    ensures !o.Crashed? ==> forall j | 0 <= j < 81 && j != k ::
      o.st.cells[j].value == s.cells[j].value && o.st.cells[j].values <= s.cells[j].values
    ensures !o.Crashed? ==> forall g | 0 <= g < 27 :: o.st.sets[g] <= s.sets[g]
    ensures o.Normal? ==> o.st.cells[k] == Cell(v, {})
    ensures o.Normal? ==> forall j | 0 <= j < 81 && j != k :: s.cells[j].values != {} ==> o.st.cells[j].values != {}
  {
    var c := s.cells[k];
    if c.value == 0 && v !in c.values then Raised(IllegalMove(CoordOf(k), v), s)
    else
      var s1 := State(s.cells[k := Cell(v, {})], s.sets);
      StripGroupsNonEmpty(s1, CellGroups(k), v);
      StripGroups(s1, CellGroups(k), v)
  }

  // ---------------------------------------------------------------------
  // What an assignment does, stated without the step-by-step definition.

  /** The cells sharing a group with k (k included). */
  function Peers(k: nat): set<nat>
    requires k < 81
  {
    MembersOf(CellGroups(k))
  }

  /** The cells of ms with v removed from their domains, the rest as they were. */
  function Without(cells: seq<Cell>, ms: set<nat>, v: int): (r: seq<Cell>)
    ensures |r| == |cells|
  {
    seq(|cells|, j requires 0 <= j < |cells| =>
      if j in ms then cells[j].(values := cells[j].values - {v}) else cells[j])
  }

  function MembersOf(gs: seq<nat>): set<nat>
    requires AllBelow(gs, 27)
  {
    set j, i | 0 <= i < |gs| && 0 <= j < 81 && j in GroupCells(gs[i]) :: j
  }

  function SetsWithout(sets: seq<set<int>>, gs: seq<nat>, v: int): (r: seq<set<int>>)
    ensures |r| == |sets|
  {
    seq(|sets|, g requires 0 <= g < |sets| => if g in gs then sets[g] - {v} else sets[g])
  }

  function SetOf(ms: seq<nat>): set<nat> { set j | j in ms }

  lemma {:induction false} StripFacts(cells: seq<Cell>, ms: seq<nat>, v: int)
    requires AllBelow(ms, |cells|)
    ensures var r := Strip(cells, ms, v);
      && (r.1 <==> exists j | j in ms :: cells[j].values == {v})
      && (!r.1 ==> r.0 == Without(cells, SetOf(ms), v))
  {
    if ms == [] {
      assert Without(cells, {}, v) == cells;
    } else {
      var ms', k := ms[..|ms| - 1], ms[|ms| - 1];
      StripFacts(cells, ms', v);
      assert ms == ms' + [k];
      assert SetOf(ms) == SetOf(ms') + {k};
      var prev := Strip(cells, ms', v);
      if !prev.1 {
        StripLast(cells, SetOf(ms'), k, v, prev.0);
      }
    }
  }

  /** The last step of Strip, once the cells before it lost v without any
      of them emptying. */
  lemma StripLast(cells: seq<Cell>, done: set<nat>, k: nat, v: int, prev: seq<Cell>)
    requires k < |cells| && prev == Without(cells, done, v)
    requires forall j | j in done :: j < |cells| && cells[j].values != {v}
    ensures var c := prev[k];
      var r := if v in c.values then (prev[k := c.(values := c.values - {v})], c.values - {v} == {})
               else (prev, false);
      && (r.1 <==> (cells[k].values == {v} || exists j | j in done :: cells[j].values == {v}))
      && (!r.1 ==> r.0 == Without(cells, done + {k}, v))
  {
    var c := prev[k];
    if k in done {
      assert v !in c.values;
      assert Without(cells, done + {k}, v) == prev;
    } else if v in c.values {
      assert c == cells[k];
      var r0 := prev[k := c.(values := c.values - {v})];
      assert r0 == Without(cells, done + {k}, v);
    } else {
      assert c == cells[k] && c.(values := c.values - {v}) == c;
      assert Without(cells, done + {k}, v) == prev;
    }
  }

  lemma MembersOfSnoc(gs: seq<nat>, g: nat)
    requires AllBelow(gs, 27) && g < 27
    ensures AllBelow(gs + [g], 27)
    ensures MembersOf(gs + [g]) == MembersOf(gs) + SetOf(GroupCells(g))
  {
    var all := gs + [g];
    forall j | j in MembersOf(all) ensures j in MembersOf(gs) + SetOf(GroupCells(g)) {
      var i :| 0 <= i < |all| && 0 <= j < 81 && j in GroupCells(all[i]);
      if i < |gs| { assert all[i] == gs[i]; }
    }
    forall j | j in MembersOf(gs) ensures j in MembersOf(all) {
      var i :| 0 <= i < |gs| && 0 <= j < 81 && j in GroupCells(gs[i]);
      assert all[i] == gs[i];
    }
    forall j | j in SetOf(GroupCells(g)) ensures j in MembersOf(all) {
      assert all[|gs|] == g;
    }
  }

  predicate Distinct(gs: seq<nat>)
  {
    forall i, j | 0 <= i < j < |gs| :: gs[i] != gs[j]
  }

  lemma WithoutTwice(cells: seq<Cell>, a: set<nat>, b: set<nat>, v: int)
    ensures Without(Without(cells, a, v), b, v) == Without(cells, a + b, v)
  {
    var l, r := Without(Without(cells, a, v), b, v), Without(cells, a + b, v);
    forall j | 0 <= j < |cells| ensures l[j] == r[j] {
    }
  }

  /** One step of StripGroups, once the earlier groups went through. */
  lemma StripGroupStep(s: State, s1: State, before: set<nat>, g: nat, v: int)
    requires |s.cells| == 81 && |s.sets| == 27 && g < 27
    requires s1.cells == Without(s.cells, before, v)
    requires forall j | j in before :: j < 81
    requires forall j | j in before :: s.cells[j].values != {v}
    ensures var r := Strip(s1.cells, GroupCells(g), v);
      && (r.1 <==> exists j | j in before + SetOf(GroupCells(g)) :: s.cells[j].values == {v})
      && (!r.1 ==> r.0 == Without(s.cells, before + SetOf(GroupCells(g)), v))
  {
    var ms := GroupCells(g);
    StripFacts(s1.cells, ms, v);
    var r := Strip(s1.cells, ms, v);
    if r.1 {
      var j :| j in ms && s1.cells[j].values == {v};
      assert j !in before;
    } else {
      forall j | j in before + SetOf(ms) ensures s.cells[j].values != {v} {
        if j !in before {
          assert s1.cells[j] == s.cells[j];
        }
      }
      WithoutTwice(s.cells, before, SetOf(ms), v);
    }
  }

  /** Stripping v group by group, when every group still offers v: it never
      crashes; it raises IllegalBoard exactly when some member cell's domain
      is {v}; otherwise every member loses v and so does every group set. */
  lemma {:induction false} StripGroupsFacts(s: State, gs: seq<nat>, v: int)
    requires |s.cells| == 81 && |s.sets| == 27 && AllBelow(gs, 27) && Distinct(gs)
    requires forall i | 0 <= i < |gs| :: v in s.sets[gs[i]]
    ensures var o := StripGroups(s, gs, v);
      && !o.Crashed?
      && (o.Raised? <==> exists j | j in MembersOf(gs) :: s.cells[j].values == {v})
      && (o.Normal? ==> o.st == State(Without(s.cells, MembersOf(gs), v), SetsWithout(s.sets, gs, v)))
  {
    if gs == [] {
      assert Without(s.cells, {}, v) == s.cells;
      assert SetsWithout(s.sets, [], v) == s.sets;
      assert MembersOf([]) == {};
    } else {
      var gs', g := gs[..|gs| - 1], gs[|gs| - 1];
      assert gs == gs' + [g];
      StripGroupsFacts(s, gs', v);
      MembersOfSnoc(gs', g);
      var prev := StripGroups(s, gs', v);
      if prev.Normal? {
        assert g !in gs';
        StripGroupsLast(s, prev.st, gs', g, v);
      } else {
        assert MembersOf(gs') <= MembersOf(gs);
      }
    }
  }

  /** Stripping never empties a domain without raising IllegalBoard. */
  lemma {:induction false} StripGroupsNonEmpty(s: State, gs: seq<nat>, v: int)
    requires |s.cells| == 81 && |s.sets| == 27 && AllBelow(gs, 27)
    ensures var o := StripGroups(s, gs, v);
      o.Normal? ==> forall j | 0 <= j < 81 :: s.cells[j].values != {} ==> o.st.cells[j].values != {}
    decreases |gs|
  {
    if gs != [] {
      StripGroupsNonEmpty(s, gs[..|gs| - 1], v);
      match StripGroups(s, gs[..|gs| - 1], v)
      case Normal(s1) =>
        if v in s1.sets[gs[|gs| - 1]] {
          StripNonEmpty(s1.cells, GroupCells(gs[|gs| - 1]), v);
        }
      case _ =>
    }
  }

  lemma {:induction false} StripNonEmpty(cells: seq<Cell>, ms: seq<nat>, v: int)
    requires AllBelow(ms, |cells|)
    ensures var r := Strip(cells, ms, v);
      !r.1 ==> forall j | 0 <= j < |cells| :: cells[j].values != {} ==> r.0[j].values != {}
    decreases |ms|
  {
    if ms != [] {
      StripNonEmpty(cells, ms[..|ms| - 1], v);
    }
  }

  /** The last group of StripGroups, once the groups before it went through. */
  lemma StripGroupsLast(s: State, s1: State, gs: seq<nat>, g: nat, v: int)
    requires |s.cells| == 81 && |s.sets| == 27 && AllBelow(gs, 27) && g < 27 && g !in gs
    requires v in s.sets[g]
    requires s1 == State(Without(s.cells, MembersOf(gs), v), SetsWithout(s.sets, gs, v))
    requires forall j | j in MembersOf(gs) :: s.cells[j].values != {v}
    ensures v in s1.sets[g]
    ensures var r := Strip(s1.cells, GroupCells(g), v);
      && (r.1 <==> exists j | j in MembersOf(gs) + SetOf(GroupCells(g)) :: s.cells[j].values == {v})
      && (!r.1 ==> State(r.0, s1.sets[g := s1.sets[g] - {v}]) ==
                   State(Without(s.cells, MembersOf(gs) + SetOf(GroupCells(g)), v), SetsWithout(s.sets, gs + [g], v)))
  {
    assert s1.sets[g] == s.sets[g];
    StripGroupStep(s, s1, MembersOf(gs), g, v);
    assert s1.sets[g := s1.sets[g] - {v}] == SetsWithout(s.sets, gs + [g], v);
  }

  /** Assigning v to an open cell whose domain does not hold v raises
      IllegalMove(coord, v) and changes nothing; no other case raises
      IllegalMove. */
  lemma AssignIllegalMove(s: State, k: nat, v: int)
    requires Wf(s) && k < 81 && v != 0
    ensures var o := AssignSpec(s, k, v);
      (o.Raised? && o.exc.IllegalMove?) <==> (IsOpen(s.cells[k]) && v !in s.cells[k].values)
    ensures IsOpen(s.cells[k]) && v !in s.cells[k].values ==>
      AssignSpec(s, k, v) == Raised(IllegalMove(CoordOf(k), v), s)
  {
  }

  lemma CellGroupsShape(k: nat)
    requires k < 81
    ensures AllBelow(CellGroups(k), 27) && Distinct(CellGroups(k))
    ensures forall i | 0 <= i < 3 :: k in GroupCells(CellGroups(k)[i])
  {
    forall i | 0 <= i < 3 ensures k in GroupCells(CellGroups(k)[i]) {
      Partition(k, CellGroups(k)[i]);
    }
  }

  /** Assigning to an open cell of a consistent board a value of its domain:
      never an uncaught error; IllegalBoard exactly when some other cell
      sharing a group has {v} as its whole domain; otherwise the cell holds v
      with no domain, every peer has lost v, each of the three groups' sets
      has lost v, nothing else changed, and the board is still consistent. */
  lemma AssignOpen(s: State, k: nat, v: int)
    requires Wf(s) && Consistent(s) && k < 81 && v != 0
    requires IsOpen(s.cells[k]) && v in s.cells[k].values
    ensures var o := AssignSpec(s, k, v);
      && !o.Crashed?
      && (o.Raised? <==> exists j | j in Peers(k) :: j != k && s.cells[j].values == {v})
      && (o.Raised? ==> o.exc == IllegalBoard)
      && (o.Normal? ==> o.st == Assigned(s, k, v))
      && (o.Normal? ==> Consistent(o.st))
  {
    CellGroupsShape(k);
    var c1 := s.cells[k := Cell(v, {})];
    var s1 := State(c1, s.sets);
    ConsistentOffers(s, k, v);
    StripGroupsFacts(s1, CellGroups(k), v);
    AssignRaises(s, k, v, c1);
    var o := AssignSpec(s, k, v);
    if o.Normal? {
      WithoutAssigned(s, k, v, c1);
      AssignKeepsConsistent(s, k, v);
    }
  }

  /** The board after a successful assignment of v to open cell k. */
  function Assigned(s: State, k: nat, v: int): State
    requires Wf(s) && k < 81
  {
    State(Without(s.cells, Peers(k), v)[k := Cell(v, {})], SetsWithout(s.sets, CellGroups(k), v))
  }

  lemma ConsistentOffers(s: State, k: nat, v: int)
    requires Wf(s) && Consistent(s) && k < 81 && v in s.cells[k].values
    ensures forall i | 0 <= i < |CellGroups(k)| :: v in s.sets[CellGroups(k)[i]]
  {
  }

  lemma WithoutAssigned(s: State, k: nat, v: int, c1: seq<Cell>)
    requires Wf(s) && k < 81 && c1 == s.cells[k := Cell(v, {})]
    ensures Without(c1, Peers(k), v) == Without(s.cells, Peers(k), v)[k := Cell(v, {})]
  {
    var l, r := Without(c1, Peers(k), v), Without(s.cells, Peers(k), v)[k := Cell(v, {})];
    forall j | 0 <= j < 81 ensures l[j] == r[j] {
    }
  }

  lemma AssignRaises(s: State, k: nat, v: int, c1: seq<Cell>)
    requires |s.cells| == 81 && k < 81 && c1 == s.cells[k := Cell(v, {})]
    ensures (exists j | j in Peers(k) :: c1[j].values == {v}) <==>
            (exists j | j in Peers(k) :: j != k && s.cells[j].values == {v})
  {
    if exists j | j in Peers(k) :: c1[j].values == {v} {
      var j :| j in Peers(k) && c1[j].values == {v};
      assert j != k;
    }
    if exists j | j in Peers(k) :: j != k && s.cells[j].values == {v} {
      var j :| j in Peers(k) && j != k && s.cells[j].values == {v};
      assert c1[j] == s.cells[j];
    }
  }

  lemma AssignKeepsConsistent(s: State, k: nat, v: int)
    requires Wf(s) && Consistent(s) && k < 81
    ensures Wf(Assigned(s, k, v)) && Consistent(Assigned(s, k, v))
  {
    var s' := Assigned(s, k, v);
    forall j, i | 0 <= j < 81 && 0 <= i < 3 ensures s'.cells[j].values <= s'.sets[CellGroups(j)[i]] {
      ConsistentAt(s, k, v, j, i);
    }
  }

  lemma ConsistentAt(s: State, k: nat, v: int, j: nat, i: nat)
    requires Wf(s) && Consistent(s) && k < 81 && j < 81 && i < 3
    ensures Assigned(s, k, v).cells[j].values <= Assigned(s, k, v).sets[CellGroups(j)[i]]
  {
    var g := CellGroups(j)[i];
    var w := Without(s.cells, Peers(k), v);
    var sw := SetsWithout(s.sets, CellGroups(k), v);
    assert s.cells[j].values <= s.sets[g];
    if j != k {
      if g in CellGroups(k) {
        PeerByGroup(k, j, g);
        assert w[j].values == s.cells[j].values - {v};
        assert sw[g] == s.sets[g] - {v};
      } else {
        assert sw[g] == s.sets[g];
      }
    }
  }

  lemma PeerByGroup(k: nat, j: nat, g: nat)
    requires k < 81 && j < 81 && g in CellGroups(k) && g in CellGroups(j)
    ensures j in Peers(k)
  {
    var i' :| 0 <= i' < 3 && CellGroups(k)[i'] == g;
    Partition(j, g);
    assert j in GroupCells(CellGroups(k)[i']);
  }

  /** Assigning to a cell that already holds a value skips the domain check;
      when the value is no longer in the cell's block set the removal fails
      with an uncaught KeyError. Re-assigning the value just placed is such a
      case. */
  lemma AssignAssigned(s: State, k: nat, v: int)
    requires Wf(s) && k < 81 && v != 0 && !IsOpen(s.cells[k])
    ensures var o := AssignSpec(s, k, v); !(o.Raised? && o.exc.IllegalMove?)
    ensures v !in s.sets[BlockOf(k)] ==> AssignSpec(s, k, v) == Crashed
  {
    var gs := CellGroups(k);
    var s1 := State(s.cells[k := Cell(v, {})], s.sets);
    if v !in s.sets[BlockOf(k)] {
      assert gs[..1][..0] == [];
      assert StripGroups(s1, gs[..1], v) == Crashed;
      assert gs[..2][..1] == gs[..1];
      assert StripGroups(s1, gs[..2], v) == Crashed;
      assert gs[..2] == gs[..|gs| - 1];
      assert StripGroups(s1, gs, v) == Crashed;
    }
  }

  lemma AssignTwice(s: State, k: nat, v: int)
    requires Wf(s) && Consistent(s) && k < 81 && v != 0
    requires IsOpen(s.cells[k]) && v in s.cells[k].values
    requires AssignSpec(s, k, v).Normal?
    ensures AssignSpec(AssignSpec(s, k, v).st, k, v) == Crashed
  {
    AssignOpen(s, k, v);
    var s' := AssignSpec(s, k, v).st;
    AssignAssigned(s', k, v);
  }

  // ---------------------------------------------------------------------
  // No group holds a value twice.

  /** The value of assigned cell k as seen from one of its groups g: a digit
      the group no longer offers, in no member's domain, and held by no
      other member. */
  predicate PlacedIn(s: State, k: nat, g: nat)
    requires Wf(s) && k < 81 && g < 27
  {
    var v := s.cells[k].value;
    && v in Digits && v !in s.sets[g]
    && forall p | 0 <= p < 9 ::
      v !in s.cells[GroupCells(g)[p]].values && (GroupCells(g)[p] != k ==> s.cells[GroupCells(g)[p]].value != v)
  }

  /** Every assigned cell's value is placed in each of its three groups. */
  predicate Placed(s: State)
    requires Wf(s)
  {
    forall k, i | 0 <= k < 81 && 0 <= i < 3 && !IsOpen(s.cells[k]) :: PlacedIn(s, k, CellGroups(k)[i])
  }

  lemma AssignedWf(s: State, k: nat, v: int)
    requires Wf(s) && k < 81
    ensures Wf(Assigned(s, k, v))
  {
  }

  /** A group loop that ends normally found v in the set of every group it
      visited. */
  lemma {:induction false} StripGroupsOffered(s: State, gs: seq<nat>, v: int)
    requires |s.cells| == 81 && |s.sets| == 27 && AllBelow(gs, 27) && StripGroups(s, gs, v).Normal?
    ensures forall i | 0 <= i < |gs| :: v in s.sets[gs[i]]
    decreases |gs|
  {
    if gs != [] {
      var gs' := gs[..|gs| - 1];
      var prev := StripGroups(s, gs', v);
      assert prev.Normal?;
      StripGroupsOffered(s, gs', v);
      assert v in prev.st.sets[gs[|gs| - 1]];
      forall i | 0 <= i < |gs| ensures v in s.sets[gs[i]] {
        if i < |gs| - 1 {
          assert gs[i] == gs'[i];
        }
      }
    }
  }

  /** Any assignment that ends normally, to an open or an assigned cell,
      found v offered by the cell's three groups and leaves the board
      Assigned describes. */
  lemma AssignNormal(s: State, k: nat, v: int)
    requires Wf(s) && k < 81 && v != 0 && AssignSpec(s, k, v).Normal?
    ensures forall i | 0 <= i < 3 :: v in s.sets[CellGroups(k)[i]]
    ensures AssignSpec(s, k, v).st == Assigned(s, k, v)
  {
    CellGroupsShape(k);
    var c1 := s.cells[k := Cell(v, {})];
    var s1 := State(c1, s.sets);
    assert AssignSpec(s, k, v) == StripGroups(s1, CellGroups(k), v);
    StripGroupsOffered(s1, CellGroups(k), v);
    StripGroupsFacts(s1, CellGroups(k), v);
    WithoutAssigned(s, k, v, c1);
  }

  /** Assigning a value all three groups of the cell still offer keeps every
      placed value placed, the new one included. */
  lemma PlacedAssign(s: State, k: nat, v: int)
    requires Wf(s) && Placed(s) && k < 81
    requires forall i | 0 <= i < 3 :: v in s.sets[CellGroups(k)[i]]
    ensures Wf(Assigned(s, k, v)) && Placed(Assigned(s, k, v))
  {
    AssignedWf(s, k, v);
    var t := Assigned(s, k, v);
    forall x, i | 0 <= x < 81 && 0 <= i < 3 && !IsOpen(t.cells[x]) ensures PlacedIn(t, x, CellGroups(x)[i]) {
      PlacedInAfter(s, k, v, x, i);
    }
  }

  /** The step of PlacedAssign for assigned cell x and its i-th group. */
  lemma PlacedInAfter(s: State, k: nat, v: int, x: nat, i: nat)
    requires Wf(s) && Placed(s) && k < 81 && x < 81 && i < 3
    requires forall i | 0 <= i < 3 :: v in s.sets[CellGroups(k)[i]]
    requires !IsOpen(Assigned(s, k, v).cells[x])
    ensures Wf(Assigned(s, k, v)) && PlacedIn(Assigned(s, k, v), x, CellGroups(x)[i])
  {
    AssignedWf(s, k, v);
    if x == k {
      NewPlacedIn(s, k, v, i);
    } else {
      OldPlacedIn(s, k, v, x, i);
    }
  }

  /** The value just assigned is placed in the cell's i-th group. */
  lemma NewPlacedIn(s: State, k: nat, v: int, i: nat)
    requires Wf(s) && Placed(s) && k < 81 && i < 3
    requires forall i | 0 <= i < 3 :: v in s.sets[CellGroups(k)[i]]
    ensures Wf(Assigned(s, k, v)) && PlacedIn(Assigned(s, k, v), k, CellGroups(k)[i])
  {
    AssignedWf(s, k, v);
    var t := Assigned(s, k, v);
    var g := CellGroups(k)[i];
    var ms := GroupCells(g);
    assert v in s.sets[CellGroups(k)[0]];
    forall p | 0 <= p < 9 ensures v !in t.cells[ms[p]].values && (ms[p] != k ==> t.cells[ms[p]].value != v) {
      var j := ms[p];
      assert j in GroupCells(CellGroups(k)[i]);
      assert j in Peers(k);
      if j != k && !IsOpen(s.cells[j]) {
        Partition(j, g);
        var i' :| 0 <= i' < 3 && CellGroups(j)[i'] == g;
        assert PlacedIn(s, j, CellGroups(j)[i']);
      }
    }
  }

  /** A value placed before the assignment stays placed in the i-th group
      of its cell x. */
  lemma OldPlacedIn(s: State, k: nat, v: int, x: nat, i: nat)
    requires Wf(s) && Placed(s) && k < 81 && x < 81 && i < 3 && x != k
    requires forall i | 0 <= i < 3 :: v in s.sets[CellGroups(k)[i]]
    requires !IsOpen(s.cells[x])
    ensures Wf(Assigned(s, k, v)) && PlacedIn(Assigned(s, k, v), x, CellGroups(x)[i])
  {
    AssignedWf(s, k, v);
    var t := Assigned(s, k, v);
    var g := CellGroups(x)[i];
    var ms := GroupCells(g);
    var u := s.cells[x].value;
    assert PlacedIn(s, x, g);
    AssignedCell(s, k, v, x);
    assert t.sets[g] <= s.sets[g];
    forall p | 0 <= p < 9 ensures u !in t.cells[ms[p]].values && (ms[p] != x ==> t.cells[ms[p]].value != u) {
      var j := ms[p];
      AssignedCell(s, k, v, j);
      if j == k {
        Partition(k, g);
        var i' :| 0 <= i' < 3 && CellGroups(k)[i'] == g;
        assert v in s.sets[g];
      }
    }
  }

  /** What Assigned does to one cell: k holds v with no domain, any other
      cell keeps its value and a domain no larger than before. */
  lemma AssignedCell(s: State, k: nat, v: int, j: nat)
    requires Wf(s) && k < 81 && j < 81
    ensures j == k ==> Assigned(s, k, v).cells[j] == Cell(v, {})
    ensures j != k ==> Assigned(s, k, v).cells[j].value == s.cells[j].value
    ensures j != k ==> Assigned(s, k, v).cells[j].values <= s.cells[j].values
  {
  }

  /** A value some other cell of one of k's groups already holds is refused:
      an open cell raises IllegalMove and nothing changes, and no assignment
      of it ends normally. */
  lemma DuplicateRejected(s: State, k: nat, v: int, i: nat, p: nat)
    requires Wf(s) && Placed(s) && k < 81 && i < 3 && p < 9
    requires GroupCells(CellGroups(k)[i])[p] != k && s.cells[GroupCells(CellGroups(k)[i])[p]].value == v
    requires v != 0
    ensures !AssignSpec(s, k, v).Normal?
    ensures IsOpen(s.cells[k]) ==> AssignSpec(s, k, v) == Raised(IllegalMove(CoordOf(k), v), s)
  {
    var g := CellGroups(k)[i];
    var j := GroupCells(g)[p];
    Partition(j, g);
    var i' :| 0 <= i' < 3 && CellGroups(j)[i'] == g;
    assert PlacedIn(s, j, CellGroups(j)[i']);
    if AssignSpec(s, k, v).Normal? {
      AssignNormal(s, k, v);
      assert false;
    }
    if IsOpen(s.cells[k]) {
      Partition(k, g);
      var q :| 0 <= q < 9 && GroupCells(g)[q] == k;
      assert v !in s.cells[GroupCells(g)[q]].values;
    }
  }
}
