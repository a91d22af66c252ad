/** The search engine of game/engine.py: the opening book, the adaptive
    search depth, alpha-beta with a transposition table, and the choice of
    the move to play.  The transposition table is module-level state in the
    source; here it is the field of an Engine object whose methods update it. */
module Engine {
  import opened State
  import opened Rules
  import opened Heuristic
  import opened ExtReal
  import opened MoveOrdering
  import opened Search

  /** A cached search result: the value found and the depth searched to. */
  datatype TTEntry = TTEntry(value: real, depth: nat)

  /** (human position, AI position, human to move). */
  type BookKey = (Pos, Pos, bool)

  /** OPENING_BOOK: the human's and the AI's first move on the standard
      opening, the human at (0, 0) and the AI at (3, 3). */
  const OpeningBook: map<BookKey, Pos> :=
    map[((0, 0), (3, 3), true) := (1, 0), ((0, 0), (3, 3), false) := (2, 3)]

  /** The book move get_best_move plays: only while the visited set has at
      most two cells, only for a position in the book, and only when the
      suggested move is legal. */
  function BookMove(s: GameState): (r: Option<Pos>)
    ensures r.Some? ==> |s.visited| <= 2 && r.value in LegalMoves(s)
    ensures r.Some? ==> (s.humanPos, s.aiPos, s.isHumanTurn) in OpeningBook &&
                        r.value == OpeningBook[(s.humanPos, s.aiPos, s.isHumanTurn)]
    ensures var key := (s.humanPos, s.aiPos, s.isHumanTurn);
            |s.visited| <= 2 && key in OpeningBook && OpeningBook[key] in LegalMoves(s) ==>
              r == Some(OpeningBook[key])
  {
    var key := (s.humanPos, s.aiPos, s.isHumanTurn);
    if |s.visited| <= 2 && key in OpeningBook && OpeningBook[key] in LegalMoves(s) then
      Some(OpeningBook[key])
    else None
  }

  /** On any board of side 4 or more, from the opening position (a freshly
      built state, whose visited set is the two start cells) the book move of
      either side is legal and is the one played. */
  lemma BookMoveAtOpening(gridSize: int, treasures: map<Pos, int>, humanTurn: bool)
    requires gridSize >= 4
    ensures var s := NewState(gridSize, (0, 0), (3, 3), 0, 0, treasures, {}, humanTurn);
            BookMove(s) == Some(if humanTurn then (1, 0) else (2, 3))
  {
    var s := NewState(gridSize, (0, 0), (3, 3), 0, 0, treasures, {}, humanTurn);
    var target := if humanTurn then (1, 0) else (2, 3);
    assert |s.visited| == 2;
    assert target in Directions(CurrentPlayerPos(s)) && Open(s, target);
  }

  /** The adaptive depth of get_best_move: with at most two treasures left,
      two plies deeper but at most 8; with three or four, one ply deeper but at
      most 6; otherwise the depth asked for. */
  function AdaptiveDepth(depth: nat, treasureCount: nat): (d: nat)
    ensures treasureCount <= 2 ==> d <= 8 && d <= depth + 2 && (d == 8 || d == depth + 2)
    ensures 2 < treasureCount <= 4 ==> d <= 6 && d <= depth + 1 && (d == 6 || d == depth + 1)
    ensures treasureCount > 4 ==> d == depth
  {
    if treasureCount <= 2 then (if depth + 2 <= 8 then depth + 2 else 8)
    else if treasureCount <= 4 then (if depth + 1 <= 6 then depth + 1 else 6)
    else depth
  }

  /** The cap applies to the depth asked for as well: near the end of the
      game a request for 10 plies is searched to 8, and in the middle game a
      request for 7 plies to 6. */
  lemma AdaptiveDepthCaps()
    ensures AdaptiveDepth(10, 1) == 8 && AdaptiveDepth(7, 3) == 6
    ensures forall depth: nat, n: nat :: n <= 4 && depth <= 5 ==> AdaptiveDepth(depth, n) > depth
  {
  }

  class Engine {
    /** transposition_table: search results keyed by the state's hash. */
    var table: map<StateKey, TTEntry>

    constructor()
      ensures table == map[]
    {
      table := map[];
    }

    /** clear_transposition_table */
    method ClearTranspositionTable()
      modifies this
      ensures table == map[]
    {
      table := map[];
    }

    /** The table answers the search of `s` to `depth`: it holds an entry for
        the state searched at least that deep. */
    predicate Hit(s: GameState, depth: nat, useTT: bool)
      reads this
    {
      useTT && Key(s) in table && table[Key(s)].depth >= depth
    }

    /** alpha_beta.  A table hit returns the cached value and no move and
        leaves the table alone.  Otherwise the search of AlphaBetaExpand runs
        and, with the table in use, its result is stored under the state's
        hash with the depth searched (the source stores it on each of its
        three return paths); entries are only added or overwritten, never
        removed. */
    method AlphaBeta(s: GameState, depth: nat, alpha: Ext, beta: Ext, maximizing: bool, useTT: bool)
        returns (value: real, move: Option<Pos>)
      requires Evaluable(s)
      modifies this
      ensures old(Hit(s, depth, useTT)) ==>
                value == old(table)[Key(s)].value && move == None && table == old(table)
      ensures useTT && !old(Hit(s, depth, useTT)) ==>
                Key(s) in table && table[Key(s)] == TTEntry(value, depth)
      ensures old(table).Keys <= table.Keys
      ensures !useTT ==> table == old(table)
      ensures !useTT && Lt(alpha, beta) ==>
                FailSoft(Fin(value), Fin(FullWidthValue(s, depth, maximizing)), alpha, beta)
      ensures !useTT && alpha == NegInf && beta == PosInf ==> value == FullWidthValue(s, depth, maximizing)
      ensures move == None <==> old(Hit(s, depth, useTT)) || depth == 0 || IsTerminal(s) || LegalMoves(s) == []
      ensures move.Some? ==> move.value in LegalMoves(s)
      ensures !useTT && alpha == NegInf && beta == PosInf && move.Some? ==>
                exists k :: 0 <= k < |OrderMoves(s, LegalMoves(s))| && OrderMoves(s, LegalMoves(s))[k] == move.value &&
                  FullWidthChildValues(s, depth, maximizing, OrderMoves(s, LegalMoves(s)))[k] == value
      decreases depth, 3
    {
      var key := Key(s);
      if useTT && key in table {
        var cached := table[key];
        if cached.depth >= depth {
          return cached.value, None;
        }
      }
      value, move := AlphaBetaExpand(s, depth, alpha, beta, maximizing, useTT);
      if useTT {
        table := table[key := TTEntry(value, depth)];
      }
    }

    /** The search alpha_beta runs when the table does not answer.  At depth
        0 in a position that is not terminal, the quiescence search in the
        same window; in a terminal position, or with no legal move, the static
        evaluation; otherwise the loop over the ordered moves.  Without the
        table, inside a non-empty window the value is a fail-soft bound on the
        full-width value, exact with the infinite window, where the move
        reported leads to a successor of that value.  A move is reported
        exactly when the loop ran, and it is a legal move. */
    method AlphaBetaExpand(s: GameState, depth: nat, alpha: Ext, beta: Ext, maximizing: bool, useTT: bool)
        returns (value: real, move: Option<Pos>)
      requires Evaluable(s)
      modifies this
      ensures old(table).Keys <= table.Keys
      ensures !useTT ==> table == old(table)
      ensures !useTT && Lt(alpha, beta) ==>
                FailSoft(Fin(value), Fin(FullWidthValue(s, depth, maximizing)), alpha, beta)
      ensures !useTT && alpha == NegInf && beta == PosInf ==> value == FullWidthValue(s, depth, maximizing)
      ensures move == None <==> depth == 0 || IsTerminal(s) || LegalMoves(s) == []
      ensures move.Some? ==> move.value in LegalMoves(s)
      ensures !useTT && alpha == NegInf && beta == PosInf && move.Some? ==>
                exists k :: 0 <= k < |OrderMoves(s, LegalMoves(s))| && OrderMoves(s, LegalMoves(s))[k] == move.value &&
                  FullWidthChildValues(s, depth, maximizing, OrderMoves(s, LegalMoves(s)))[k] == value
      decreases depth, 2
    {
      var terminal := IsTerminal(s);
      if depth == 0 || terminal {
        if depth == 0 && !terminal {
          value := Quiescence(s, alpha, beta, maximizing);
        } else {
          value := Evaluate(s);
        }
        return value, None;
      }
      var moves := GetLegalMoves(s);
      if moves == [] {
        return Evaluate(s), None;
      }
      var ordered := OrderMoves(s, moves);
      var best;
      if maximizing {
        value, best := AlphaBetaMax(s, depth, ordered, alpha, beta, useTT);
      } else {
        value, best := AlphaBetaMin(s, depth, ordered, alpha, beta, useTT);
      }
      OrderMovesSameMoves(s, moves, best);
      move := Some(best);
    }

    /** The maximizer's loop of alpha_beta over the ordered moves: the best
        value starts at -inf and the best move at the first move; a strictly
        greater successor value replaces both; alpha rises with each value and
        the loop stops once beta <= alpha. */
    method AlphaBetaMax(s: GameState, depth: nat, moves: seq<Pos>, alpha: Ext, beta: Ext, useTT: bool)
        returns (value: real, move: Pos)
      requires Evaluable(s) && depth > 0 && moves != []
      modifies this
      ensures move in moves
      ensures old(table).Keys <= table.Keys
      ensures !useTT ==> table == old(table)
      ensures !useTT && Lt(alpha, beta) ==>
                FailSoft(Fin(value), Fold(true, NegInf, FullWidthChildValues(s, depth, true, moves)), alpha, beta)
      ensures !useTT && alpha == NegInf && beta == PosInf ==>
                exists k :: 0 <= k < |moves| && moves[k] == move &&
                  FullWidthChildValues(s, depth, true, moves)[k] == value
      decreases depth, 1
    {
      ghost var vals := FullWidthChildValues(s, depth, true, moves);
      ghost var open := !useTT && Lt(alpha, beta);
      ghost var full := !useTT && alpha == NegInf && beta == PosInf;
      ghost var at := 0;
      var maxEval := NegInf;
      move := moves[0];
      var a := alpha;
      var i := 0;
      while i < |moves|
        invariant 0 <= i <= |moves|
        invariant if i == 0 then maxEval == NegInf else maxEval.Fin?
        invariant 0 <= at < |moves| && move == moves[at]
        invariant old(table).Keys <= table.Keys
        invariant !useTT ==> table == old(table)
        invariant open ==> FailSoft(maxEval, Fold(true, NegInf, vals[..i]), alpha, beta)
        invariant open ==> Le(alpha, a) && Le(a, Max(alpha, maxEval)) && Lt(a, beta)
        invariant full && 0 < i ==> maxEval == Fin(vals[at])
      {
        var e := AlphaBetaChild(s, depth, moves, i, a, beta, true, useTT);
        ghost var before := maxEval;
        if Lt(maxEval, Fin(e)) {
          maxEval := Fin(e);
          move := moves[i];
          at := i;
        }
        var a' := Max(a, Fin(e));
        if open {
          FoldStep(true, NegInf, vals, i);
          MaxStep(alpha, beta, a, before, Fold(true, NegInf, vals[..i]), Fin(e), Fin(vals[i]), maxEval);
        }
        a := a';
        i := i + 1;
        if Le(beta, a) {
          if open {
            FoldPrefix(true, NegInf, vals, i);
            CutOffAbove(alpha, beta, maxEval, Fold(true, NegInf, vals[..i]), Fold(true, NegInf, vals));
          }
          return maxEval.r, move;
        }
      }
      assert vals[..i] == vals;
      value := maxEval.r;
    }

    /** The minimizer's loop, the mirror image of AlphaBetaMax: the best value
        starts at +inf, beta falls with each value and the loop stops once
        beta <= alpha. */
    method AlphaBetaMin(s: GameState, depth: nat, moves: seq<Pos>, alpha: Ext, beta: Ext, useTT: bool)
        returns (value: real, move: Pos)
      requires Evaluable(s) && depth > 0 && moves != []
      modifies this
      ensures move in moves
      ensures old(table).Keys <= table.Keys
      ensures !useTT ==> table == old(table)
      ensures !useTT && Lt(alpha, beta) ==>
                FailSoft(Fin(value), Fold(false, PosInf, FullWidthChildValues(s, depth, false, moves)), alpha, beta)
      ensures !useTT && alpha == NegInf && beta == PosInf ==>
                exists k :: 0 <= k < |moves| && moves[k] == move &&
                  FullWidthChildValues(s, depth, false, moves)[k] == value
      decreases depth, 1
    {
      ghost var vals := FullWidthChildValues(s, depth, false, moves);
      ghost var open := !useTT && Lt(alpha, beta);
      ghost var full := !useTT && alpha == NegInf && beta == PosInf;
      ghost var at := 0;
      var minEval := PosInf;
      move := moves[0];
      var b := beta;
      var i := 0;
      while i < |moves|
        invariant 0 <= i <= |moves|
        invariant if i == 0 then minEval == PosInf else minEval.Fin?
        invariant 0 <= at < |moves| && move == moves[at]
        invariant old(table).Keys <= table.Keys
        invariant !useTT ==> table == old(table)
        invariant open ==> FailSoft(minEval, Fold(false, PosInf, vals[..i]), alpha, beta)
        invariant open ==> Le(b, beta) && Le(Min(beta, minEval), b) && Lt(alpha, b)
        invariant full && 0 < i ==> minEval == Fin(vals[at])
      {
        var e := AlphaBetaChild(s, depth, moves, i, alpha, b, false, useTT);
        ghost var before := minEval;
        if Lt(Fin(e), minEval) {
          minEval := Fin(e);
          move := moves[i];
          at := i;
        }
        var b' := Min(b, Fin(e));
        if open {
          FoldStep(false, PosInf, vals, i);
          MinStep(alpha, beta, b, before, Fold(false, PosInf, vals[..i]), Fin(e), Fin(vals[i]), minEval);
        }
        b := b';
        i := i + 1;
        if Le(b, alpha) {
          if open {
            FoldPrefix(false, PosInf, vals, i);
            CutOffBelow(alpha, beta, minEval, Fold(false, PosInf, vals[..i]), Fold(false, PosInf, vals));
          }
          return minEval.r, move;
        }
      }
      assert vals[..i] == vals;
      value := minEval.r;
    }

    /** One successor of the alpha-beta loop: the state reached by
        `moves[i]`, searched one ply shallower with the other side to move in
        the window (lo, hi). */
    method AlphaBetaChild(s: GameState, depth: nat, moves: seq<Pos>, i: nat, lo: Ext, hi: Ext,
                          maximizing: bool, useTT: bool) returns (e: real)
      requires Evaluable(s) && depth > 0 && i < |moves|
      modifies this
      ensures old(table).Keys <= table.Keys
      ensures !useTT ==> table == old(table)
      ensures !useTT && Lt(lo, hi) ==>
                FailSoft(Fin(e), Fin(FullWidthChildValues(s, depth, maximizing, moves)[i]), lo, hi)
      decreases depth, 0
    {
      var child := ApplyMove(s, moves[i]);
      e := AlphaBetaValue(child, depth - 1, lo, hi, !maximizing, useTT);
      FullWidthChildValuesAt(s, depth, maximizing, moves, i);
      assert FullWidthChild(s, depth, maximizing, moves[i]) == FullWidthValue(child, depth - 1, !maximizing);
    }

    /** The value of alpha_beta alone, as the loops use it: the move found
        in the successor is discarded. */
    method AlphaBetaValue(s: GameState, depth: nat, alpha: Ext, beta: Ext, maximizing: bool, useTT: bool)
        returns (value: real)
      requires Evaluable(s)
      modifies this
      ensures old(table).Keys <= table.Keys
      ensures !useTT ==> table == old(table)
      ensures !useTT && Lt(alpha, beta) ==>
                FailSoft(Fin(value), Fin(FullWidthValue(s, depth, maximizing)), alpha, beta)
      decreases depth, 4
    {
      var ignored;
      value, ignored := AlphaBeta(s, depth, alpha, beta, maximizing, useTT);
    }

    /** get_best_move for the side to move (the AI maximizes).  A move is
        returned exactly when there is a legal move, and it is legal.  A lone
        legal move and a book move are played without searching.  Otherwise
        the search runs to the adaptive depth: alpha-beta with the table in
        use, or plain minimax, which leaves the table alone and plays the first
        legal move of best minimax value; the first legal move is the fallback
        when the search reports none. */
    method GetBestMove(s: GameState, depth: nat, useAlphaBeta: bool) returns (move: Option<Pos>)
      requires Evaluable(s)
      modifies this
      ensures move.Some? <==> LegalMoves(s) != []
      ensures move.Some? ==> move.value in LegalMoves(s)
      ensures |LegalMoves(s)| == 1 ==> move == Some(LegalMoves(s)[0]) && table == old(table)
      ensures |LegalMoves(s)| != 1 && BookMove(s).Some? ==> move == BookMove(s) && table == old(table)
      ensures old(table).Keys <= table.Keys
      ensures !useAlphaBeta ==> table == old(table)
      ensures !useAlphaBeta && |LegalMoves(s)| > 1 && BookMove(s) == None ==>
                var d := AdaptiveDepth(depth, |s.treasures|);
                if d == 0 || IsTerminal(s) then move == Some(LegalMoves(s)[0])
                else FirstBest(!s.isHumanTurn, LegalMoves(s), MinimaxChildValues(s, d, !s.isHumanTurn, LegalMoves(s)),
                               MinimaxValue(s, d, !s.isHumanTurn), move.value)
    {
      var isMaximizing := !s.isHumanTurn;
      var moves := GetLegalMoves(s);
      if |moves| == 1 {
        return Some(moves[0]);
      }
      var book := BookMove(s);
      if book.Some? {
        return book;
      }
      var searchDepth := AdaptiveDepth(depth, |s.treasures|);
      var best: Option<Pos>;
      var ignored;
      if useAlphaBeta {
        ignored, best := AlphaBeta(s, searchDepth, NegInf, PosInf, isMaximizing, true);
      } else {
        ignored, best := Minimax(s, searchDepth, isMaximizing);
      }
      if best == None && moves != [] {
        best := Some(moves[0]);
      }
      move := best;
    }
  }
}
