/** Move legality, terminal detection, the winner and distances (game/rules.py). */
module Rules {
  import opened State

  function Abs(x: int): nat
  {
    if x < 0 then -x else x
  }

  /** manhattan_distance */
  function Manhattan(p: Pos, q: Pos): (d: nat)
    ensures d == 0 <==> p == q
  {
    Abs(p.0 - q.0) + Abs(p.1 - q.1)
  }

  lemma ManhattanSymmetric(p: Pos, q: Pos)
    ensures Manhattan(p, q) == Manhattan(q, p)
  {
  }

  /** The four orthogonal neighbours, in the order up, down, left, right. */
  function Directions(p: Pos): seq<Pos>
  {
    [(p.0 - 1, p.1), (p.0 + 1, p.1), (p.0, p.1 - 1), (p.0, p.1 + 1)]
  }

  /** Position of a neighbour in Directions(p): 0 up, 1 down, 2 left, 3 right. */
  function DirectionRank(p: Pos, q: Pos): nat
  {
    if q == (p.0 - 1, p.1) then 0
    else if q == (p.0 + 1, p.1) then 1
    else if q == (p.0, p.1 - 1) then 2
    else 3
  }

  predicate InBounds(s: GameState, q: Pos)
  {
    0 <= q.0 < s.gridSize && 0 <= q.1 < s.gridSize
  }

  predicate Open(s: GameState, q: Pos)
  {
    InBounds(s, q) && q !in s.visited
  }

  /** The open cells among `ds`, in the order of `ds`. */
  function OpenAmong(s: GameState, ds: seq<Pos>): (r: seq<Pos>)
    ensures |r| <= |ds|
    ensures forall q :: q in r <==> q in ds && Open(s, q)
  {
    if ds == [] then []
    else if Open(s, ds[0]) then [ds[0]] + OpenAmong(s, ds[1..])
    else OpenAmong(s, ds[1..])
  }

  /** get_legal_moves, as a value: the open neighbours of the side to move. */
  function LegalMoves(s: GameState): (r: seq<Pos>)
    ensures |r| <= 4
  {
    OpenAmong(s, Directions(CurrentPlayerPos(s)))
  }

  /** Every legal move is on the board, unvisited and one step away; the moves
      come in the order up, down, left, right, so there are at most four and no
      two are equal; and every open neighbour is among them. */
  lemma LegalMovesCharacterised(s: GameState)
    ensures |LegalMoves(s)| <= 4
    ensures forall q :: q in LegalMoves(s) ==>
              InBounds(s, q) && q !in s.visited && Manhattan(CurrentPlayerPos(s), q) == 1
    ensures forall q :: q in Directions(CurrentPlayerPos(s)) && Open(s, q) ==> q in LegalMoves(s)
    ensures forall i, j :: 0 <= i < j < |LegalMoves(s)| ==>
              DirectionRank(CurrentPlayerPos(s), LegalMoves(s)[i]) <
              DirectionRank(CurrentPlayerPos(s), LegalMoves(s)[j])
  {
    var p := CurrentPlayerPos(s);
    var ds := Directions(p);
    assert ds[1..][1..][1..][1..] == [];
    var rank := q => DirectionRank(p, q);
    assert forall i, j :: 0 <= i < j < |ds| ==> rank(ds[i]) < rank(ds[j]) by {
      assert rank(ds[0]) == 0 && rank(ds[1]) == 1 && rank(ds[2]) == 2 && rank(ds[3]) == 3;
    }
    OpenAmongIncreasing(s, ds, rank);
  }

  /** OpenAmong keeps the order of the list it filters: along a list on
      which `key` strictly increases, it strictly increases on the open cells
      too. */
  lemma {:induction false} OpenAmongIncreasing(s: GameState, ds: seq<Pos>, key: Pos -> int)
    requires forall i, j :: 0 <= i < j < |ds| ==> key(ds[i]) < key(ds[j])
    ensures forall i, j :: 0 <= i < j < |OpenAmong(s, ds)| ==>
              key(OpenAmong(s, ds)[i]) < key(OpenAmong(s, ds)[j])
  {
    if ds != [] {
      var tail := ds[1..];
      var rest := OpenAmong(s, tail);
      assert forall i, j :: 0 <= i < j < |tail| ==> key(tail[i]) < key(tail[j]) by {
        forall i, j | 0 <= i < j < |tail| ensures key(tail[i]) < key(tail[j]) {
          assert tail[i] == ds[i + 1] && tail[j] == ds[j + 1];
        }
      }
      OpenAmongIncreasing(s, tail, key);
      if Open(s, ds[0]) {
        var r := OpenAmong(s, ds);
        assert r == [ds[0]] + rest;
        forall i, j | 0 <= i < j < |r| ensures key(r[i]) < key(r[j]) {
          assert r[j] == rest[j - 1];
          if i == 0 {
            assert rest[j - 1] in tail;
            var k :| 0 <= k < |tail| && tail[k] == rest[j - 1];
            assert tail[k] == ds[k + 1];
          } else {
            assert r[i] == rest[i - 1];
          }
        }
      }
    }
  }

  /** get_legal_moves, as the loop the source runs. */
  method GetLegalMoves(s: GameState) returns (moves: seq<Pos>)
    ensures moves == LegalMoves(s)
  {
    var ds := Directions(CurrentPlayerPos(s));
    moves := [];
    var i := 0;
    while i < |ds|
      invariant 0 <= i <= |ds|
      invariant moves + OpenAmong(s, ds[i..]) == OpenAmong(s, ds)
    {
      OpenAmongStep(s, ds, i, moves);
      if InBounds(s, ds[i]) && ds[i] !in s.visited {
        moves := moves + [ds[i]];
      }
      i := i + 1;
    }
    assert ds[i..] == [];
  }

  /** One step of the filter: the cell at `i` is kept when it is open, and
      the open cells after it follow. */
  lemma OpenAmongStep(s: GameState, ds: seq<Pos>, i: nat, kept: seq<Pos>)
    requires i < |ds|
    requires kept + OpenAmong(s, ds[i..]) == OpenAmong(s, ds)
    ensures (if Open(s, ds[i]) then kept + [ds[i]] else kept) + OpenAmong(s, ds[i + 1..]) == OpenAmong(s, ds)
  {
    assert ds[i..][1..] == ds[i + 1..];
    if Open(s, ds[i]) {
      assert kept + ([ds[i]] + OpenAmong(s, ds[i + 1..])) == (kept + [ds[i]]) + OpenAmong(s, ds[i + 1..]);
    }
  }

  /** The state used to ask whether the other side could move: a copy (with its
      visited set reset to the two current cells) with the turn flipped. */
  function TurnSwapped(s: GameState): (r: GameState)
    ensures r.gridSize == s.gridSize && r.humanPos == s.humanPos && r.aiPos == s.aiPos
    ensures r.treasures == s.treasures && r.visited == {s.humanPos, s.aiPos}
    ensures r.isHumanTurn == !s.isHumanTurn
  {
    Copy(s).(isHumanTurn := !s.isHumanTurn)
  }

  /** is_terminal */
  function IsTerminal(s: GameState): (r: bool)
    ensures s.treasures == map[] ==> r
    ensures s.treasures != map[] ==>
              (r <==> LegalMoves(s) == [] && LegalMoves(TurnSwapped(s)) == [])
  {
    if s.treasures == map[] then true
    else if LegalMoves(s) == [] then
      var temp := TurnSwapped(s);
      LegalMoves(temp) == []
    else false
  }

  datatype Winner = Human | AI | Draw

  /** get_winner */
  function GetWinner(s: GameState): (w: Winner)
    ensures w == Human <==> s.humanScore > s.aiScore
    ensures w == AI <==> s.aiScore > s.humanScore
    ensures w == Draw <==> s.humanScore == s.aiScore
  {
    if s.humanScore > s.aiScore then Human
    else if s.aiScore > s.humanScore then AI
    else Draw
  }

  // ---------------------------------------------------------------------
  // Nearest treasure.

  datatype Distance = Finite(value: real) | Infinite

  lemma {:induction false} Minimum(xs: set<nat>) returns (d: nat)
    requires xs != {}
    ensures d in xs && forall e :: e in xs ==> d <= e
    decreases |xs|
  {
    var x :| x in xs;
    var rest := xs - {x};
    if rest == {} {
      d := x;
      forall e | e in xs ensures d <= e {
        assert e !in rest;
      }
    } else {
      var m := Minimum(rest);
      d := if x < m then x else m;
      forall e | e in xs ensures d <= e {
        if e != x { assert e in rest; }
      }
    }
  }

  function Distances(p: Pos, m: map<Pos, int>): (ds: set<nat>)
    ensures forall k {:trigger Manhattan(p, k)} :: k in m ==> Manhattan(p, k) in ds
    ensures forall e :: e in ds ==> exists k :: k in m && Manhattan(p, k) == e
  {
    set k | k in m :: Manhattan(p, k)
  }

  /** The least Manhattan distance from `p` to a key of `m`. */
  function MinDistance(p: Pos, m: map<Pos, int>): (d: nat)
    requires m != map[]
    ensures exists k :: k in m && Manhattan(p, k) == d
    ensures forall k {:trigger Manhattan(p, k)} :: k in m ==> d <= Manhattan(p, k)
  {
    var ds := Distances(p, m);
    assert exists d :: d in ds && forall e :: e in ds ==> d <= e by {
      var least := Minimum(ds);
    }
    var d :| d in ds && forall e :: e in ds ==> d <= e;
    assert forall k :: k in m ==> d <= Manhattan(p, k) by {
      forall k | k in m ensures d <= Manhattan(p, k) {
        assert Manhattan(p, k) in ds;
      }
    }
    d
  }

  /** Distance from `p` to the nearest treasure, infinite when none is left. */
  function NearestDistance(p: Pos, m: map<Pos, int>): (d: Distance)
    ensures m == map[] <==> d == Infinite
    ensures d.Finite? ==>
              d.value >= 0.0 &&
              (forall k {:trigger Manhattan(p, k)} :: k in m ==> d.value <= Manhattan(p, k) as real) &&
              (exists k :: k in m && d.value == Manhattan(p, k) as real)
  {
    if m == map[] then Infinite else Finite(MinDistance(p, m) as real)
  }

  /** get_nearest_treasure: a scan of the treasure keys in the dictionary's
      iteration order `order`, keeping the first key with strictly smaller
      distance.  Returns no key and an infinite distance when no treasure is left;
      otherwise a treasure at the least distance, the first such in `order`. */
  method GetNearestTreasure(s: GameState, position: Pos, order: seq<Pos>)
      returns (nearest: Option<Pos>, distance: Distance)
    requires forall k :: k in order <==> k in s.treasures
    ensures distance == NearestDistance(position, s.treasures)
    ensures s.treasures == map[] ==> nearest == None && distance == Infinite
    ensures s.treasures != map[] ==>
              nearest.Some? && nearest.value in s.treasures &&
              distance == Finite(Manhattan(position, nearest.value) as real)
    ensures nearest.Some? ==>
              exists i :: 0 <= i < |order| && order[i] == nearest.value &&
                forall j :: 0 <= j < i ==> Manhattan(position, order[j]) > Manhattan(position, nearest.value)
  {
    if s.treasures == map[] {
      return None, Infinite;
    }
    nearest, distance := None, Infinite;
    var i := 0;
    ghost var at := 0;
    while i < |order|
      invariant 0 <= i <= |order|
      invariant i == 0 <==> nearest == None
      invariant distance.Infinite? <==> nearest == None
      invariant nearest.Some? ==>
                  0 <= at < i && order[at] == nearest.value &&
                  distance == Finite(Manhattan(position, nearest.value) as real) &&
                  (forall j :: 0 <= j < at ==> Manhattan(position, order[j]) > Manhattan(position, nearest.value)) &&
                  (forall j :: 0 <= j < i ==> Manhattan(position, nearest.value) <= Manhattan(position, order[j]))
    {
      var dist := Manhattan(position, order[i]);
      if distance.Infinite? || (dist as real) < distance.value {
        distance := Finite(dist as real);
        nearest := Some(order[i]);
        at := i;
      }
      i := i + 1;
    }
    var k0 :| k0 in s.treasures;
    assert k0 in order;
    var d := MinDistance(position, s.treasures);
    var kmin :| kmin in s.treasures && Manhattan(position, kmin) == d;
    assert kmin in order;
  }

  /** Positions repeat: from the 4x4 opening with one treasure at (0, 3),
      after the human's (1, 0), the four legal moves (2, 3), (0, 0), (3, 3)
      and (1, 0), none from a terminal position, lead back to the same state.
      A search given no depth limit can therefore run on forever. */
  lemma PositionsRepeat()
    ensures var s0 := NewState(4, (0, 0), (3, 3), 0, 0, map[(0, 3) := 5], {}, true);
            var s1 := ApplyMove(s0, (1, 0));
            var s2 := ApplyMove(s1, (2, 3));
            var s3 := ApplyMove(s2, (0, 0));
            var s4 := ApplyMove(s3, (3, 3));
            var s5 := ApplyMove(s4, (1, 0));
            (1, 0) in LegalMoves(s0) && (2, 3) in LegalMoves(s1) && (0, 0) in LegalMoves(s2) &&
            (3, 3) in LegalMoves(s3) && (1, 0) in LegalMoves(s4) &&
            !IsTerminal(s1) && !IsTerminal(s2) && !IsTerminal(s3) && !IsTerminal(s4) &&
            s5 == s1
  {
    var m := map[(0, 3) := 5];
    var s0 := NewState(4, (0, 0), (3, 3), 0, 0, m, {}, true);
    var s1 := GameState(4, (1, 0), (3, 3), 0, 0, m, {(0, 0), (3, 3), (1, 0)}, false);
    var s2 := GameState(4, (1, 0), (2, 3), 0, 0, m, {(1, 0), (3, 3), (2, 3)}, true);
    var s3 := GameState(4, (0, 0), (2, 3), 0, 0, m, {(1, 0), (2, 3), (0, 0)}, false);
    var s4 := GameState(4, (0, 0), (3, 3), 0, 0, m, {(0, 0), (2, 3), (3, 3)}, true);
    ApplyMoveWithoutTreasure(s0, (1, 0), s1);
    ApplyMoveWithoutTreasure(s1, (2, 3), s2);
    ApplyMoveWithoutTreasure(s2, (0, 0), s3);
    ApplyMoveWithoutTreasure(s3, (3, 3), s4);
    ApplyMoveWithoutTreasure(s4, (1, 0), s1);
    NextToAndOpen(s0, (1, 0), 1);
    NextToAndOpen(s1, (2, 3), 0);
    NextToAndOpen(s2, (0, 0), 0);
    NextToAndOpen(s3, (3, 3), 1);
    NextToAndOpen(s4, (1, 0), 1);
  }

  /** A move onto a cell without treasure only moves the mover, marks the
      cell and passes the turn. */
  lemma ApplyMoveWithoutTreasure(s: GameState, move: Pos, t: GameState)
    requires move !in s.treasures
    requires t.gridSize == s.gridSize && t.treasures == s.treasures
    requires t.humanPos == (if s.isHumanTurn then move else s.humanPos)
    requires t.aiPos == (if s.isHumanTurn then s.aiPos else move)
    requires t.humanScore == s.humanScore && t.aiScore == s.aiScore
    requires t.visited == {s.humanPos, s.aiPos, move} && t.isHumanTurn == !s.isHumanTurn
    ensures ApplyMove(s, move) == t
  {
  }

  /** A cell that is the `k`-th neighbour of the side to move and open is a
      legal move, so that position is not terminal. */
  lemma NextToAndOpen(s: GameState, q: Pos, k: nat)
    requires s.treasures != map[] && k < 4 && Directions(CurrentPlayerPos(s))[k] == q && Open(s, q)
    ensures q in LegalMoves(s) && !IsTerminal(s)
  {
  }

  /** Because the visited set is rebuilt from the two current cells on every
      move, a player may step back onto a cell it has already left: from the
      4x4 opening, after the human moves to (1, 0) and the AI to (2, 3), the
      human's starting cell (0, 0) is legal again. */
  lemma StartCellLegalAgain()
    ensures var s0 := NewState(4, (0, 0), (3, 3), 0, 0, map[(0, 2) := 5], {}, true);
            var s2 := ApplyMove(ApplyMove(s0, (1, 0)), (2, 3));
            (0, 0) in s0.visited && (0, 0) in LegalMoves(s2)
  {
    var s0 := NewState(4, (0, 0), (3, 3), 0, 0, map[(0, 2) := 5], {}, true);
    var s2 := ApplyMove(ApplyMove(s0, (1, 0)), (2, 3));
    assert s2.visited == {(1, 0), (3, 3), (2, 3)};
    assert CurrentPlayerPos(s2) == (1, 0);
    assert Directions((1, 0))[0] == (0, 0);
    assert Open(s2, (0, 0));
  }
}
