/** The game state of Treasure Duel and its transition rule (game/state.py).
    A state is a value: every transition builds a fresh state and the old one
    is left as it was. */
module State {

  datatype Option<T> = None | Some(value: T)

  /** A grid cell (x, y). */
  type Pos = (int, int)

  datatype GameState = GameState(
    gridSize: int,
    humanPos: Pos,
    aiPos: Pos,
    humanScore: int,
    aiScore: int,
    treasures: map<Pos, int>,
    visited: set<Pos>,
    isHumanTurn: bool)

  /** The seven fields that equality and hashing look at (everything but gridSize). */
  datatype StateKey = StateKey(
    humanPos: Pos,
    aiPos: Pos,
    humanScore: int,
    aiScore: int,
    treasures: map<Pos, int>,
    visited: set<Pos>,
    isHumanTurn: bool)

  /** The dataclass constructor followed by __post_init__: whatever `visited`
      is passed in, the new state's visited set is the two start cells. */
  function NewState(gridSize: int, humanPos: Pos, aiPos: Pos, humanScore: int, aiScore: int,
                    treasures: map<Pos, int>, visited: set<Pos>, isHumanTurn: bool): (r: GameState)
    ensures r.gridSize == gridSize && r.humanPos == humanPos && r.aiPos == aiPos
    ensures r.humanScore == humanScore && r.aiScore == aiScore
    ensures r.treasures == treasures && r.isHumanTurn == isHumanTurn
    ensures r.visited == {humanPos, aiPos}
  {
    GameState(gridSize, humanPos, aiPos, humanScore, aiScore, treasures, {humanPos, aiPos}, isHumanTurn)
  }

  /** copy(): every field is carried over except visited, which the
      constructor resets to the two current positions. */
  function Copy(s: GameState): (c: GameState)
    ensures c.gridSize == s.gridSize && c.humanPos == s.humanPos && c.aiPos == s.aiPos
    ensures c.humanScore == s.humanScore && c.aiScore == s.aiScore
    ensures c.treasures == s.treasures && c.isHumanTurn == s.isHumanTurn
    ensures c.visited == {s.humanPos, s.aiPos}
    ensures s.visited == {s.humanPos, s.aiPos} ==> c == s
  {
    NewState(s.gridSize, s.humanPos, s.aiPos, s.humanScore, s.aiScore, s.treasures, s.visited, s.isHumanTurn)
  }

  /** The cell of the side to move. */
  function CurrentPlayerPos(s: GameState): (p: Pos)
    ensures s.isHumanTurn ==> p == s.humanPos
    ensures !s.isHumanTurn ==> p == s.aiPos
  {
    if s.isHumanTurn then s.humanPos else s.aiPos
  }

  /** Score difference from the AI's point of view. */
  function ScoreDifference(s: GameState): (d: int)
    ensures d > 0 <==> s.aiScore > s.humanScore
    ensures d < 0 <==> s.humanScore > s.aiScore
    ensures s.humanScore + d == s.aiScore
  {
    s.aiScore - s.humanScore
  }

  /** apply_move: the mover steps onto `move`, collects any treasure there and
      the turn passes.  Bounds and prior visits are not checked here. */
  function ApplyMove(s: GameState, move: Pos): (r: GameState)
    ensures r.gridSize == s.gridSize
    ensures r.humanPos == (if s.isHumanTurn then move else s.humanPos)
    ensures r.aiPos == (if s.isHumanTurn then s.aiPos else move)
    ensures r.visited == {s.humanPos, s.aiPos, move}
    ensures r.humanPos in r.visited && r.aiPos in r.visited
    ensures move in s.treasures ==> r.treasures == s.treasures - {move}
    ensures move !in s.treasures ==> r.treasures == s.treasures
    ensures r.treasures.Keys <= s.treasures.Keys
    ensures move in s.treasures ==> |r.treasures| == |s.treasures| - 1
    ensures s.isHumanTurn ==>
              r.aiScore == s.aiScore &&
              r.humanScore == s.humanScore + (if move in s.treasures then s.treasures[move] else 0)
    ensures !s.isHumanTurn ==>
              r.humanScore == s.humanScore &&
              r.aiScore == s.aiScore + (if move in s.treasures then s.treasures[move] else 0)
    ensures r.isHumanTurn == !s.isHumanTurn
  {
    assert (s.treasures - {move}).Keys == s.treasures.Keys - {move};
    var c := Copy(s);
    var moved := if s.isHumanTurn then c.(humanPos := move) else c.(aiPos := move);
    var marked := moved.(visited := moved.visited + {move});
    var collected :=
      if move in marked.treasures then
        var value := marked.treasures[move];
        var scored := if s.isHumanTurn then marked.(humanScore := marked.humanScore + value)
                      else marked.(aiScore := marked.aiScore + value);
        scored.(treasures := scored.treasures - {move})
      else marked;
    collected.(isHumanTurn := !s.isHumanTurn)
  }

  /** The tuple that __hash__ hashes and __eq__ compares; the transposition
      table is keyed by it (Python's integer hash of it is not modelled, so
      there are no collisions). */
  function Key(s: GameState): (k: StateKey)
    ensures k.humanPos == s.humanPos && k.aiPos == s.aiPos
    ensures k.humanScore == s.humanScore && k.aiScore == s.aiScore
    ensures k.treasures == s.treasures && k.visited == s.visited && k.isHumanTurn == s.isHumanTurn
  {
    StateKey(s.humanPos, s.aiPos, s.humanScore, s.aiScore, s.treasures, s.visited, s.isHumanTurn)
  }

  /** __eq__: the seven fields agree; gridSize is not compared. */
  function Equals(s: GameState, t: GameState): (r: bool)
    ensures r <==> Key(s) == Key(t)
    ensures r <==> s.(gridSize := t.gridSize) == t
  {
    s.humanPos == t.humanPos && s.aiPos == t.aiPos &&
    s.humanScore == t.humanScore && s.aiScore == t.aiScore &&
    s.treasures == t.treasures && s.visited == t.visited &&
    s.isHumanTurn == t.isHumanTurn
  }

  /** Equal states hash equally. */
  lemma EqualStatesHashEqually(s: GameState, t: GameState)
    requires Equals(s, t)
    ensures Key(s) == Key(t)
  {
  }

  // ---------------------------------------------------------------------
  // Conservation of points: scores plus the treasure still on the board.

  ghost function PickKey(m: map<Pos, int>): (k: Pos)
    requires m != map[]
    ensures k in m
  {
    var k :| k in m; k
  }

  /** Sum of the values of all remaining treasures. */
  ghost function TreasureSum(m: map<Pos, int>): int
    decreases |m|
  {
    if m == map[] then 0
    else
      var k := PickKey(m);
      assert (m - {k}).Keys == m.Keys - {k};
      m[k] + TreasureSum(m - {k})
  }

  lemma {:induction false} TreasureSumRemove(m: map<Pos, int>, k: Pos)
    requires k in m
    ensures TreasureSum(m) == m[k] + TreasureSum(m - {k})
    decreases |m|
  {
    var j := PickKey(m);
    assert (m - {j}).Keys == m.Keys - {j};
    if j != k {
      assert (m - {k}).Keys == m.Keys - {k};
      assert m - {k} != map[] by { assert j in m - {k}; }
      TreasureSumRemove(m - {j}, k);
      TreasureSumRemove(m - {k}, j);
      assert m - {j} - {k} == m - {k} - {j};
    }
  }

  ghost function Points(s: GameState): int
  {
    s.humanScore + s.aiScore + TreasureSum(s.treasures)
  }

  /** A move never creates or destroys points: what one side gains leaves the board. */
  lemma ApplyMoveConservesPoints(s: GameState, move: Pos)
    ensures Points(ApplyMove(s, move)) == Points(s)
  {
    if move in s.treasures {
      TreasureSumRemove(s.treasures, move);
    }
  }

  /** After a move it is the other side's turn, and the side to move stands where it stood. */
  lemma ApplyMovePassesTurn(s: GameState, move: Pos)
    ensures CurrentPlayerPos(ApplyMove(s, move)) == (if s.isHumanTurn then s.aiPos else s.humanPos)
    ensures ApplyMove(s, move).isHumanTurn != s.isHumanTurn
  {
  }

  /** The visited set does not accumulate history: after the human and then the
      AI have moved, the human's starting cell is no longer marked visited. */
  lemma VisitedForgetsHistory()
    ensures var s0 := NewState(4, (0, 0), (3, 3), 0, 0, map[(0, 2) := 5], {}, true);
            var s2 := ApplyMove(ApplyMove(s0, (1, 0)), (2, 3));
            (0, 0) in s0.visited && (0, 0) !in s2.visited && s2.visited == {(1, 0), (3, 3), (2, 3)}
  {
  }
}
