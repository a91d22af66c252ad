/** Move ordering for alpha-beta (order_moves in game/engine.py): candidate
    moves sorted by a priority, best first, keeping the input order among moves
    of equal priority as Python's stable `sorted(..., reverse=True)` does. */
module MoveOrdering {
  import opened State
  import opened Rules

  /** move_priority: 1000 times the treasure value on the destination, minus
      the distance from the destination to the nearest remaining treasure. */
  function Priority(s: GameState, move: Pos): (r: int)
    ensures move in s.treasures ==> r == 1000 * s.treasures[move]
    ensures move !in s.treasures ==> r <= 0
  {
    assert move in s.treasures ==> Manhattan(move, move) == 0;
    (if move in s.treasures then s.treasures[move] * 1000 else 0)
    - (if s.treasures != map[] then MinDistance(move, s.treasures) else 0)
  }

  ghost predicate SortedBy(key: Pos -> int, xs: seq<Pos>)
  {
    forall i, j :: 0 <= i < j < |xs| ==> key(xs[i]) >= key(xs[j])
  }

  /** The elements of `xs` whose key is `p`, in the order of `xs`. */
  function WithKey(key: Pos -> int, xs: seq<Pos>, p: int): seq<Pos>
  {
    if xs == [] then []
    else (if key(xs[0]) == p then [xs[0]] else []) + WithKey(key, xs[1..], p)
  }

  /** Insert `x` before the first element whose key is not above its own. */
  function Insert(key: Pos -> int, x: Pos, ys: seq<Pos>): (r: seq<Pos>)
    ensures |r| == |ys| + 1
  {
    if ys == [] then [x]
    else if key(ys[0]) > key(x) then [ys[0]] + Insert(key, x, ys[1..])
    else [x] + ys
  }

  lemma {:induction false} InsertPermutes(key: Pos -> int, x: Pos, ys: seq<Pos>)
    ensures multiset(Insert(key, x, ys)) == multiset([x] + ys)
  {
    if ys != [] && key(ys[0]) > key(x) {
      var tail := ys[1..];
      InsertPermutes(key, x, tail);
      assert Insert(key, x, ys) == [ys[0]] + Insert(key, x, tail);
      assert ys == [ys[0]] + tail;
      assert [x] + ys == [x] + [ys[0]] + tail;
    }
  }

  lemma {:induction false} InsertSorted(key: Pos -> int, x: Pos, ys: seq<Pos>)
    requires SortedBy(key, ys)
    ensures SortedBy(key, Insert(key, x, ys))
  {
    if ys == [] {
    } else if key(ys[0]) > key(x) {
      var tail := ys[1..];
      assert SortedBy(key, tail);
      InsertSorted(key, x, tail);
      InsertedHead(key, x, ys);
    } else {
      var r := [x] + ys;
      forall i, j | 0 <= i < j < |r| ensures key(r[i]) >= key(r[j]) {
        if i == 0 { assert r[j] == ys[j - 1]; }
        else { assert r[i] == ys[i - 1] && r[j] == ys[j - 1]; }
      }
    }
  }

  lemma {:induction false} InsertStable(key: Pos -> int, x: Pos, ys: seq<Pos>, p: int)
    ensures WithKey(key, Insert(key, x, ys), p) == WithKey(key, [x] + ys, p)
  {
    if ys != [] && key(ys[0]) > key(x) {
      var tail := ys[1..];
      InsertStable(key, x, tail, p);
      var r := Insert(key, x, ys);
      assert r == [ys[0]] + Insert(key, x, tail);
      assert r[1..] == Insert(key, x, tail);
      assert ([x] + tail)[1..] == tail;
      assert ([x] + ys)[1..] == ys;
    }
  }

  /** Inserting adds `x` and keeps every element of `ys`, and nothing else. */
  lemma {:induction false} InsertElements(key: Pos -> int, x: Pos, ys: seq<Pos>, e: Pos)
    ensures e in Insert(key, x, ys) <==> e == x || e in ys
  {
    if ys != [] && key(ys[0]) > key(x) {
      InsertElements(key, x, ys[1..], e);
      assert ys == [ys[0]] + ys[1..];
    }
  }

  /** When x goes past ys[0], the result stays sorted: ys[0] is not below
      anything that follows it. */
  lemma InsertedHead(key: Pos -> int, x: Pos, ys: seq<Pos>)
    requires SortedBy(key, ys) && ys != [] && key(ys[0]) > key(x)
    requires SortedBy(key, Insert(key, x, ys[1..]))
    ensures SortedBy(key, Insert(key, x, ys))
  {
    var rest := Insert(key, x, ys[1..]);
    var tail := ys[1..];
    forall k | 0 <= k < |rest| ensures key(ys[0]) >= key(rest[k]) {
      InsertElements(key, x, tail, rest[k]);
      if rest[k] != x {
        var j :| 0 <= j < |tail| && tail[j] == rest[k];
        assert ys[j + 1] == rest[k];
      }
    }
    var r := Insert(key, x, ys);
    assert r == [ys[0]] + rest;
    forall i, j | 0 <= i < j < |r| ensures key(r[i]) >= key(r[j]) {
      assert r[j] == rest[j - 1];
      if i > 0 { assert r[i] == rest[i - 1]; }
    }
  }

  /** Python's stable sorted(xs, key=key, reverse=True), as an insertion sort. */
  function SortDescending(key: Pos -> int, xs: seq<Pos>): (r: seq<Pos>)
    ensures |r| == |xs|
  {
    if xs == [] then []
    else Insert(key, xs[0], SortDescending(key, xs[1..]))
  }

  /** The sort is a permutation of `xs`, in non-increasing key order, with
      elements of equal key in their input order. */
  lemma {:induction false} SortDescendingCorrect(key: Pos -> int, xs: seq<Pos>)
    ensures multiset(SortDescending(key, xs)) == multiset(xs)
    ensures forall i, j :: 0 <= i < j < |SortDescending(key, xs)| ==>
              key(SortDescending(key, xs)[i]) >= key(SortDescending(key, xs)[j])
    ensures forall p :: WithKey(key, SortDescending(key, xs), p) == WithKey(key, xs, p)
  {
    if xs != [] {
      var tail := SortDescending(key, xs[1..]);
      SortDescendingCorrect(key, xs[1..]);
      InsertPermutes(key, xs[0], tail);
      InsertSorted(key, xs[0], tail);
      SortStep(key, xs, tail);
    }
  }

  lemma SortStep(key: Pos -> int, xs: seq<Pos>, tail: seq<Pos>)
    requires xs != []
    requires multiset(tail) == multiset(xs[1..])
    requires forall p :: WithKey(key, tail, p) == WithKey(key, xs[1..], p)
    ensures multiset([xs[0]] + tail) == multiset(xs)
    ensures forall p :: WithKey(key, Insert(key, xs[0], tail), p) == WithKey(key, xs, p)
  {
    assert xs == [xs[0]] + xs[1..];
    forall p ensures WithKey(key, Insert(key, xs[0], tail), p) == WithKey(key, xs, p) {
      InsertStable(key, xs[0], tail, p);
      assert ([xs[0]] + tail)[1..] == tail;
    }
  }

  /** order_moves: the moves sorted best first by Priority, stably. */
  function OrderMoves(s: GameState, moves: seq<Pos>): (r: seq<Pos>)
    ensures |r| == |moves| && multiset(r) == multiset(moves)
  {
    SortDescendingCorrect(PriorityOf(s), moves);
    SortDescending(PriorityOf(s), moves)
  }

  /** The ordered moves are a permutation of the moves given, best first by
      Priority, and moves of equal priority keep their order (Python's sort
      is stable). */
  lemma OrderMovesCorrect(s: GameState, moves: seq<Pos>)
    ensures multiset(OrderMoves(s, moves)) == multiset(moves)
    ensures forall i, j :: 0 <= i < j < |OrderMoves(s, moves)| ==>
              Priority(s, OrderMoves(s, moves)[i]) >= Priority(s, OrderMoves(s, moves)[j])
    ensures forall p :: WithKey(PriorityOf(s), OrderMoves(s, moves), p) == WithKey(PriorityOf(s), moves, p)
  {
    SortDescendingCorrect(PriorityOf(s), moves);
  }

  function PriorityOf(s: GameState): (key: Pos -> int)
    ensures forall m :: key(m) == Priority(s, m)
  {
    m => Priority(s, m)
  }

  /** The moves are the moves given, each kept as often as it was given. */
  lemma OrderMovesSameMoves(s: GameState, moves: seq<Pos>, q: Pos)
    ensures q in OrderMoves(s, moves) <==> q in moves
  {
    OrderMovesCorrect(s, moves);
    assert q in multiset(OrderMoves(s, moves)) <==> q in multiset(moves);
  }
}
