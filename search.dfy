/** The search procedures of game/engine.py that do not touch the
    transposition table: quiescence search over capture moves and plain
    minimax, each proved against a specification function; and the value of a
    full-width (unpruned) search, against which the engine's pruned
    alpha-beta search is proved fail-soft. */
module Search {
  import opened State
  import opened Rules
  import opened Heuristic
  import opened ExtReal
  import opened MoveOrdering

  /** The moves of `ms` that land on a treasure, in the order of `ms`. */
  function Captures(s: GameState, ms: seq<Pos>): (r: seq<Pos>)
    ensures |r| <= |ms|
    ensures forall j :: 0 <= j < |r| ==> r[j] in ms && r[j] in s.treasures
    ensures forall q :: q in r <==> q in ms && q in s.treasures
  {
    if ms == [] then []
    else if ms[0] in s.treasures then [ms[0]] + Captures(s, ms[1..])
    else Captures(s, ms[1..])
  }

  /** The capture moves of the side to move: legal moves onto a treasure. */
  function CaptureMoves(s: GameState): (r: seq<Pos>)
    ensures forall j :: 0 <= j < |r| ==> r[j] in LegalMoves(s) && r[j] in s.treasures
    ensures forall q :: q in r <==> q in LegalMoves(s) && q in s.treasures
  {
    Captures(s, LegalMoves(s))
  }

  /** The value of the quiescence search without cut-offs: the running best,
      from the static evaluation (stand-pat), over the values of the capture
      successors. */
  function QValue(s: GameState, maximizing: bool): real
    requires Evaluable(s)
    decreases |s.treasures|, 2
  {
    Fold(maximizing, Fin(Evaluate(s)), QChildValues(s, maximizing, CaptureMoves(s))).r
  }

  /** The quiescence value of the successor reached by the capture `move`,
      the other side to move there. */
  function QChild(s: GameState, maximizing: bool, move: Pos): real
    requires Evaluable(s) && move in s.treasures
    decreases |s.treasures|, 0
  {
    QValue(ApplyMove(s, move), !maximizing)
  }

  /** The quiescence values of the successors reached by the captures `caps`. */
  function QChildValues(s: GameState, maximizing: bool, caps: seq<Pos>): (vs: seq<real>)
    requires Evaluable(s) && forall j :: 0 <= j < |caps| ==> caps[j] in s.treasures
    ensures |vs| == |caps|
    decreases |s.treasures|, 1, |caps|
  {
    if caps == [] then []
    else QChildValues(s, maximizing, caps[..|caps| - 1]) + [QChild(s, maximizing, caps[|caps| - 1])]
  }

  lemma {:induction false} QChildValuesAt(s: GameState, maximizing: bool, caps: seq<Pos>, i: nat)
    requires Evaluable(s) && forall j :: 0 <= j < |caps| ==> caps[j] in s.treasures
    requires i < |caps|
    ensures QChildValues(s, maximizing, caps)[i] == QChild(s, maximizing, caps[i])
    decreases |caps|
  {
    if i < |caps| - 1 {
      QChildValuesAt(s, maximizing, caps[..|caps| - 1], i);
    }
  }

  /** With no capture the quiescence value is the static evaluation, and it
      never falls behind the static evaluation for the side to move. */
  lemma QValueStandPat(s: GameState, maximizing: bool)
    requires Evaluable(s)
    ensures CaptureMoves(s) == [] ==> QValue(s, maximizing) == Evaluate(s)
    ensures maximizing ==> QValue(s, maximizing) >= Evaluate(s)
    ensures !maximizing ==> QValue(s, maximizing) <= Evaluate(s)
  {
    var vs := QChildValues(s, maximizing, CaptureMoves(s));
    FoldFrom(maximizing, Evaluate(s), vs);
    assert QValue(s, maximizing) == Fold(maximizing, Fin(Evaluate(s)), vs).r;
  }

  /** The quiescence value is at least (maximizer) or at most (minimizer) the
      value of every capture successor. */
  lemma QValueBoundsChildren(s: GameState, maximizing: bool)
    requires Evaluable(s)
    ensures var vs := QChildValues(s, maximizing, CaptureMoves(s));
            (maximizing ==> forall i :: 0 <= i < |vs| ==> QValue(s, maximizing) >= vs[i]) &&
            (!maximizing ==> forall i :: 0 <= i < |vs| ==> QValue(s, maximizing) <= vs[i])
  {
    var vs := QChildValues(s, maximizing, CaptureMoves(s));
    FoldFrom(maximizing, Evaluate(s), vs);
    assert QValue(s, maximizing) == Fold(maximizing, Fin(Evaluate(s)), vs).r;
  }

  /** The quiescence value is the static evaluation or the value of one of
      the capture successors. */
  lemma QValueAttained(s: GameState, maximizing: bool)
    requires Evaluable(s)
    ensures QValue(s, maximizing) == Evaluate(s) ||
            exists i :: 0 <= i < |CaptureMoves(s)| &&
              QValue(s, maximizing) == QChildValues(s, maximizing, CaptureMoves(s))[i]
  {
    var vs := QChildValues(s, maximizing, CaptureMoves(s));
    FoldFrom(maximizing, Evaluate(s), vs);
    assert QValue(s, maximizing) == Fold(maximizing, Fin(Evaluate(s)), vs).r;
    if QValue(s, maximizing) != Evaluate(s) {
      var i :| 0 <= i < |vs| && vs[i] == Fold(maximizing, Fin(Evaluate(s)), vs).r;
      assert QValue(s, maximizing) == QChildValues(s, maximizing, CaptureMoves(s))[i];
    }
  }

  /** quiescence_search: stand-pat on the static evaluation and, when there
      is a capture, search the captures only.  The result never falls behind
      the static evaluation for the side to move, and inside a non-empty window
      it is a fail-soft bound on the quiescence value. */
  method Quiescence(s: GameState, alpha: Ext, beta: Ext, maximizing: bool) returns (v: real)
    requires Evaluable(s)
    ensures maximizing ==> v >= Evaluate(s)
    ensures !maximizing ==> v <= Evaluate(s)
    ensures CaptureMoves(s) == [] ==> v == Evaluate(s)
    ensures Lt(alpha, beta) ==> FailSoft(Fin(v), Fin(QValue(s, maximizing)), alpha, beta)
    decreases |s.treasures|, 2
  {
    var moves := GetLegalMoves(s);
    var caps := Captures(s, moves);
    var standPat := Evaluate(s);
    if caps == [] {
      return standPat;
    }
    if maximizing {
      v := QuiescenceMax(s, caps, standPat, alpha, beta);
    } else {
      v := QuiescenceMin(s, caps, standPat, alpha, beta);
    }
  }

  /** One capture: the successor reached by `caps[i]`, searched with the
      other side to move in the window (lo, hi). */
  method SearchCapture(s: GameState, caps: seq<Pos>, i: nat, lo: Ext, hi: Ext, maximizing: bool) returns (e: real)
    requires Evaluable(s) && forall j :: 0 <= j < |caps| ==> caps[j] in s.treasures
    requires i < |caps|
    ensures Lt(lo, hi) ==> FailSoft(Fin(e), Fin(QChildValues(s, maximizing, caps)[i]), lo, hi)
    decreases |s.treasures|, 0
  {
    var child := ApplyMove(s, caps[i]);
    e := Quiescence(child, lo, hi, !maximizing);
    QChildValuesAt(s, maximizing, caps, i);
    assert QChild(s, maximizing, caps[i]) == QValue(child, !maximizing);
  }

  /** The maximizer's capture loop: each capture successor is searched in the
      window (a, beta), a rising from alpha with the best value so far, and
      the loop stops once beta <= a. */
  method QuiescenceMax(s: GameState, caps: seq<Pos>, standPat: real, alpha: Ext, beta: Ext) returns (maxEval: real)
    requires Evaluable(s) && forall j :: 0 <= j < |caps| ==> caps[j] in s.treasures
    ensures maxEval >= standPat
    ensures Lt(alpha, beta) ==>
              FailSoft(Fin(maxEval), Fold(true, Fin(standPat), QChildValues(s, true, caps)), alpha, beta)
    decreases |s.treasures|, 1
  {
    ghost var vals := QChildValues(s, true, caps);
    ghost var open := Lt(alpha, beta);
    maxEval := standPat;
    var a := alpha;
    var i := 0;
    while i < |caps|
      invariant 0 <= i <= |caps|
      invariant maxEval >= standPat
      invariant open ==> FailSoft(Fin(maxEval), Fold(true, Fin(standPat), vals[..i]), alpha, beta)
      invariant open ==> Le(alpha, a) && Le(a, Max(alpha, Fin(maxEval))) && Lt(a, beta)
    {
      var e := SearchCapture(s, caps, i, a, beta, true);
      ghost var before := maxEval;
      maxEval := RMax(maxEval, e);
      var a' := Max(a, Fin(e));
      if open {
        FoldStep(true, Fin(standPat), vals, i);
        MaxStep(alpha, beta, a, Fin(before), Fold(true, Fin(standPat), vals[..i]), Fin(e), Fin(vals[i]), Fin(maxEval));
      }
      a := a';
      i := i + 1;
      if Le(beta, a) {
        if open {
          FoldPrefix(true, Fin(standPat), vals, i);
          CutOffAbove(alpha, beta, Fin(maxEval), Fold(true, Fin(standPat), vals[..i]), Fold(true, Fin(standPat), vals));
        }
        return;
      }
    }
    assert vals[..i] == vals;
  }

  /** The minimizer's capture loop, the mirror image of QuiescenceMax: it
      narrows beta and stops once b <= alpha. */
  method QuiescenceMin(s: GameState, caps: seq<Pos>, standPat: real, alpha: Ext, beta: Ext) returns (minEval: real)
    requires Evaluable(s) && forall j :: 0 <= j < |caps| ==> caps[j] in s.treasures
    ensures minEval <= standPat
    ensures Lt(alpha, beta) ==>
              FailSoft(Fin(minEval), Fold(false, Fin(standPat), QChildValues(s, false, caps)), alpha, beta)
    decreases |s.treasures|, 1
  {
    ghost var vals := QChildValues(s, false, caps);
    ghost var open := Lt(alpha, beta);
    minEval := standPat;
    var b := beta;
    var i := 0;
    while i < |caps|
      invariant 0 <= i <= |caps|
      invariant minEval <= standPat
      invariant open ==> FailSoft(Fin(minEval), Fold(false, Fin(standPat), vals[..i]), alpha, beta)
      invariant open ==> Le(b, beta) && Le(Min(beta, Fin(minEval)), b) && Lt(alpha, b)
    {
      var e := SearchCapture(s, caps, i, alpha, b, false);
      ghost var before := minEval;
      minEval := RMin(minEval, e);
      var b' := Min(b, Fin(e));
      if open {
        FoldStep(false, Fin(standPat), vals, i);
        MinStep(alpha, beta, b, Fin(before), Fold(false, Fin(standPat), vals[..i]), Fin(e), Fin(vals[i]), Fin(minEval));
      }
      b := b';
      i := i + 1;
      if Le(b, alpha) {
        if open {
          FoldPrefix(false, Fin(standPat), vals, i);
          CutOffBelow(alpha, beta, Fin(minEval), Fold(false, Fin(standPat), vals[..i]), Fold(false, Fin(standPat), vals));
        }
        return;
      }
    }
    assert vals[..i] == vals;
  }

  // ---------------------------------------------------------------------
  // Plain minimax.

  /** The minimax value to `depth` plies: the static evaluation at depth 0,
      in a terminal position or when the side to move has no move; otherwise
      the best, for the side to move, of the successors' values one ply
      shallower, the other side to move there. */
  function MinimaxValue(s: GameState, depth: nat, maximizing: bool): real
    requires Evaluable(s)
    decreases depth, 2
  {
    if depth == 0 || IsTerminal(s) || LegalMoves(s) == [] then Evaluate(s)
    else Fold(maximizing, Worst(maximizing), MinimaxChildValues(s, depth, maximizing, LegalMoves(s))).r
  }

  /** The minimax value of the successor reached by `move`. */
  function MinimaxChild(s: GameState, depth: nat, maximizing: bool, move: Pos): real
    requires Evaluable(s) && depth > 0
    decreases depth, 0
  {
    MinimaxValue(ApplyMove(s, move), depth - 1, !maximizing)
  }

  /** The minimax values of the successors reached by `moves`, in order. */
  function MinimaxChildValues(s: GameState, depth: nat, maximizing: bool, moves: seq<Pos>): (vs: seq<real>)
    requires Evaluable(s) && depth > 0
    ensures |vs| == |moves|
    decreases depth, 1, |moves|
  {
    if moves == [] then []
    else MinimaxChildValues(s, depth, maximizing, moves[..|moves| - 1]) + [MinimaxChild(s, depth, maximizing, moves[|moves| - 1])]
  }

  lemma {:induction false} MinimaxChildValuesAt(s: GameState, depth: nat, maximizing: bool, moves: seq<Pos>, i: nat)
    requires Evaluable(s) && depth > 0 && i < |moves|
    ensures MinimaxChildValues(s, depth, maximizing, moves)[i] == MinimaxChild(s, depth, maximizing, moves[i])
    decreases |moves|
  {
    if i < |moves| - 1 {
      MinimaxChildValuesAt(s, depth, maximizing, moves[..|moves| - 1], i);
    }
  }

  /** Below the horizon, in a position that is not terminal and has a move,
      the minimax value is the best of the successors' values: no successor
      is better for the side to move, and one of them attains it. */
  lemma MinimaxValueIsBest(s: GameState, depth: nat, maximizing: bool)
    requires Evaluable(s) && depth > 0 && !IsTerminal(s) && LegalMoves(s) != []
    ensures var vs := MinimaxChildValues(s, depth, maximizing, LegalMoves(s));
            (maximizing ==> forall i :: 0 <= i < |vs| ==> vs[i] <= MinimaxValue(s, depth, maximizing)) &&
            (!maximizing ==> forall i :: 0 <= i < |vs| ==> vs[i] >= MinimaxValue(s, depth, maximizing))
    ensures exists i :: 0 <= i < |LegalMoves(s)| &&
              MinimaxChildValues(s, depth, maximizing, LegalMoves(s))[i] == MinimaxValue(s, depth, maximizing)
  {
    var vs := MinimaxChildValues(s, depth, maximizing, LegalMoves(s));
    FoldBest(maximizing, vs);
    assert MinimaxValue(s, depth, maximizing) == Fold(maximizing, Worst(maximizing), vs).r;
    var i :| 0 <= i < |vs| && vs[i] == Fold(maximizing, Worst(maximizing), vs).r;
    assert MinimaxChildValues(s, depth, maximizing, LegalMoves(s))[i] == MinimaxValue(s, depth, maximizing);
  }

  /** The move a search loop reports: the first of `moves` whose value in
      `vs` is the best value `v`, every earlier move being strictly worse for
      the side to move. */
  ghost predicate FirstBest(maximizing: bool, moves: seq<Pos>, vs: seq<real>, v: real, move: Pos)
    requires |vs| == |moves|
  {
    exists i :: 0 <= i < |moves| && moves[i] == move && vs[i] == v &&
      forall j :: 0 <= j < i ==> (if maximizing then vs[j] < v else vs[j] > v)
  }

  /** minimax: the value is the minimax value; no move is reported at the
      horizon, in a terminal position or without a legal move, and otherwise
      the first legal move whose successor has that value. */
  method Minimax(s: GameState, depth: nat, maximizing: bool) returns (value: real, move: Option<Pos>)
    requires Evaluable(s)
    ensures value == MinimaxValue(s, depth, maximizing)
    ensures move == None <==> depth == 0 || IsTerminal(s) || LegalMoves(s) == []
    ensures move.Some? ==>
              FirstBest(maximizing, LegalMoves(s), MinimaxChildValues(s, depth, maximizing, LegalMoves(s)), value, move.value)
    decreases depth, 2
  {
    if depth == 0 || IsTerminal(s) {
      return Evaluate(s), None;
    }
    var moves := GetLegalMoves(s);
    if moves == [] {
      return Evaluate(s), None;
    }
    var m;
    if maximizing {
      value, m := MinimaxMax(s, depth, moves);
    } else {
      value, m := MinimaxMin(s, depth, moves);
    }
    move := Some(m);
  }

  /** The maximizer's loop of minimax over `moves`: the running best starts at
      -inf and is replaced by a strictly greater successor value, whose move
      becomes the best move. */
  method MinimaxMax(s: GameState, depth: nat, moves: seq<Pos>) returns (value: real, move: Pos)
    requires Evaluable(s) && depth > 0 && moves != []
    ensures Fin(value) == Fold(true, NegInf, MinimaxChildValues(s, depth, true, moves))
    ensures FirstBest(true, moves, MinimaxChildValues(s, depth, true, moves), value, move)
    decreases depth, 1
  {
    ghost var vals := MinimaxChildValues(s, depth, true, moves);
    var best := NegInf;
    var bestMove: Option<Pos> := None;
    ghost var at := 0;
    var i := 0;
    while i < |moves|
      invariant 0 <= i <= |moves|
      invariant best == Fold(true, NegInf, vals[..i])
      invariant i == 0 <==> bestMove == None
      invariant bestMove.Some? ==>
                  at < i && bestMove.value == moves[at] && best == Fin(vals[at]) &&
                  (forall j :: 0 <= j < i ==> vals[j] <= vals[at]) &&
                  (forall j :: 0 <= j < at ==> vals[j] < vals[at])
    {
      var e := MinimaxStep(s, depth, true, moves, i);
      FoldStep(true, NegInf, vals, i);
      if Lt(best, Fin(e)) {
        best := Fin(e);
        bestMove := Some(moves[i]);
        at := i;
      }
      i := i + 1;
    }
    assert vals[..i] == vals;
    return best.r, bestMove.value;
  }

  /** The minimizer's loop, the mirror image of MinimaxMax: the running best
      starts at +inf and is replaced by a strictly smaller successor value. */
  method MinimaxMin(s: GameState, depth: nat, moves: seq<Pos>) returns (value: real, move: Pos)
    requires Evaluable(s) && depth > 0 && moves != []
    ensures Fin(value) == Fold(false, PosInf, MinimaxChildValues(s, depth, false, moves))
    ensures FirstBest(false, moves, MinimaxChildValues(s, depth, false, moves), value, move)
    decreases depth, 1
  {
    ghost var vals := MinimaxChildValues(s, depth, false, moves);
    var best := PosInf;
    var bestMove: Option<Pos> := None;
    ghost var at := 0;
    var i := 0;
    while i < |moves|
      invariant 0 <= i <= |moves|
      invariant best == Fold(false, PosInf, vals[..i])
      invariant i == 0 <==> bestMove == None
      invariant bestMove.Some? ==>
                  at < i && bestMove.value == moves[at] && best == Fin(vals[at]) &&
                  (forall j :: 0 <= j < i ==> vals[j] >= vals[at]) &&
                  (forall j :: 0 <= j < at ==> vals[j] > vals[at])
    {
      var e := MinimaxStep(s, depth, false, moves, i);
      FoldStep(false, PosInf, vals, i);
      if Lt(Fin(e), best) {
        best := Fin(e);
        bestMove := Some(moves[i]);
        at := i;
      }
      i := i + 1;
    }
    assert vals[..i] == vals;
    return best.r, bestMove.value;
  }

  /** One successor of the minimax loop, searched one ply shallower with the
      other side to move. */
  method MinimaxStep(s: GameState, depth: nat, maximizing: bool, moves: seq<Pos>, i: nat) returns (e: real)
    requires Evaluable(s) && depth > 0 && i < |moves|
    ensures e == MinimaxChildValues(s, depth, maximizing, moves)[i]
    decreases depth, 0
  {
    var child := ApplyMove(s, moves[i]);
    var ignored;
    e, ignored := Minimax(child, depth - 1, !maximizing);
    MinimaxChildValuesAt(s, depth, maximizing, moves, i);
  }

  // ---------------------------------------------------------------------
  // The value an alpha-beta search computes when nothing is pruned.

  /** The value of a full-width search to `depth` plies with the engine's
      leaves: at depth 0 the quiescence value unless the position is terminal,
      the static evaluation in a terminal position or without a legal move,
      and otherwise the best of the successors' values in move order. */
  function FullWidthValue(s: GameState, depth: nat, maximizing: bool): real
    requires Evaluable(s)
    decreases depth, 2
  {
    if depth == 0 && !IsTerminal(s) then QValue(s, maximizing)
    else if depth == 0 || IsTerminal(s) || LegalMoves(s) == [] then Evaluate(s)
    else Fold(maximizing, Worst(maximizing), FullWidthChildValues(s, depth, maximizing, OrderMoves(s, LegalMoves(s)))).r
  }

  /** The full-width value of the successor reached by `move`. */
  function FullWidthChild(s: GameState, depth: nat, maximizing: bool, move: Pos): real
    requires Evaluable(s) && depth > 0
    decreases depth, 0
  {
    FullWidthValue(ApplyMove(s, move), depth - 1, !maximizing)
  }

  /** The full-width values of the successors reached by `moves`, in order. */
  function FullWidthChildValues(s: GameState, depth: nat, maximizing: bool, moves: seq<Pos>): (vs: seq<real>)
    requires Evaluable(s) && depth > 0
    ensures |vs| == |moves|
    decreases depth, 1, |moves|
  {
    if moves == [] then []
    else FullWidthChildValues(s, depth, maximizing, moves[..|moves| - 1]) + [FullWidthChild(s, depth, maximizing, moves[|moves| - 1])]
  }

  lemma {:induction false} FullWidthChildValuesAt(s: GameState, depth: nat, maximizing: bool, moves: seq<Pos>, i: nat)
    requires Evaluable(s) && depth > 0 && i < |moves|
    ensures FullWidthChildValues(s, depth, maximizing, moves)[i] == FullWidthChild(s, depth, maximizing, moves[i])
    decreases |moves|
  {
    if i < |moves| - 1 {
      FullWidthChildValuesAt(s, depth, maximizing, moves[..|moves| - 1], i);
    }
  }

  /** Below the horizon, in a position that is not terminal and has a move,
      the full-width value is the best of the successors' values over the
      ordered moves (which are the legal moves, by OrderMovesSameMoves): none
      is better for the side to move, and one of them attains it. */
  lemma FullWidthValueIsBest(s: GameState, depth: nat, maximizing: bool)
    requires Evaluable(s) && depth > 0 && !IsTerminal(s) && LegalMoves(s) != []
    ensures var vs := FullWidthChildValues(s, depth, maximizing, OrderMoves(s, LegalMoves(s)));
            (maximizing ==> forall i :: 0 <= i < |vs| ==> vs[i] <= FullWidthValue(s, depth, maximizing)) &&
            (!maximizing ==> forall i :: 0 <= i < |vs| ==> vs[i] >= FullWidthValue(s, depth, maximizing))
    ensures exists i :: 0 <= i < |LegalMoves(s)| &&
              FullWidthChildValues(s, depth, maximizing, OrderMoves(s, LegalMoves(s)))[i] == FullWidthValue(s, depth, maximizing)
  {
    var vs := FullWidthChildValues(s, depth, maximizing, OrderMoves(s, LegalMoves(s)));
    FoldBest(maximizing, vs);
    assert FullWidthValue(s, depth, maximizing) == Fold(maximizing, Worst(maximizing), vs).r;
    var i :| 0 <= i < |vs| && vs[i] == Fold(maximizing, Worst(maximizing), vs).r;
    assert FullWidthChildValues(s, depth, maximizing, OrderMoves(s, LegalMoves(s)))[i] == FullWidthValue(s, depth, maximizing);
  }
}
