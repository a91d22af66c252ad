/** Reals extended with the two infinities that the search uses for its
    initial bounds (float('-inf') and float('inf') in game/engine.py). */
module ExtReal {

  datatype Ext = NegInf | Fin(r: real) | PosInf

  predicate Le(a: Ext, b: Ext)
  {
    a.NegInf? || b.PosInf? || (a.Fin? && b.Fin? && a.r <= b.r)
  }

  predicate Lt(a: Ext, b: Ext)
  {
    !Le(b, a)
  }

  function Max(a: Ext, b: Ext): (m: Ext)
    ensures Le(a, m) && Le(b, m) && (m == a || m == b)
  {
    if Le(a, b) then b else a
  }

  function Min(a: Ext, b: Ext): (m: Ext)
    ensures Le(m, a) && Le(m, b) && (m == a || m == b)
  {
    if Le(a, b) then a else b
  }

  /** The maximum for the maximizer, the minimum for the minimizer. */
  function Best(maximizing: bool, a: Ext, b: Ext): Ext
  {
    if maximizing then Max(a, b) else Min(a, b)
  }

  /** The value `v` a fail-soft search returns inside the window (alpha, beta)
      relates to the true value `V` thus: exact strictly inside the window, an
      upper bound at or below alpha, a lower bound at or above beta. */
  predicate FailSoft(v: Ext, V: Ext, alpha: Ext, beta: Ext)
  {
    (Le(v, alpha) ==> Le(V, v)) &&
    (Le(beta, v) ==> Le(v, V)) &&
    (Lt(alpha, v) && Lt(v, beta) ==> V == v)
  }

  /** The starting value of a side's running best: -inf for the maximizer,
      +inf for the minimizer. */
  function Worst(maximizing: bool): Ext
  {
    if maximizing then NegInf else PosInf
  }

  /** The running best of a search loop that starts at `acc` and takes in the
      values `vs` in order. */
  function Fold(maximizing: bool, acc: Ext, vs: seq<real>): (r: Ext)
    ensures acc != Worst(!maximizing) && (acc.Fin? || vs != []) ==> r.Fin?
    decreases |vs|
  {
    if vs == [] then acc
    else Best(maximizing, Fold(maximizing, acc, vs[..|vs| - 1]), Fin(vs[|vs| - 1]))
  }

  /** One more value taken in. */
  lemma FoldStep(maximizing: bool, acc: Ext, vs: seq<real>, i: nat)
    requires i < |vs|
    ensures Fold(maximizing, acc, vs[..i + 1]) == Best(maximizing, Fold(maximizing, acc, vs[..i]), Fin(vs[i]))
  {
    assert vs[..i + 1][..i] == vs[..i];
  }

  /** The fold is the best of its start and its values, and is one of them. */
  lemma {:induction false} FoldBounds(maximizing: bool, acc: Ext, vs: seq<real>)
    ensures maximizing ==> Le(acc, Fold(maximizing, acc, vs))
    ensures !maximizing ==> Le(Fold(maximizing, acc, vs), acc)
    ensures maximizing ==> forall i :: 0 <= i < |vs| ==> Le(Fin(vs[i]), Fold(maximizing, acc, vs))
    ensures !maximizing ==> forall i :: 0 <= i < |vs| ==> Le(Fold(maximizing, acc, vs), Fin(vs[i]))
    ensures Fold(maximizing, acc, vs) == acc || exists i :: 0 <= i < |vs| && Fold(maximizing, acc, vs) == Fin(vs[i])
    decreases |vs|
  {
    if vs != [] {
      var init := vs[..|vs| - 1];
      FoldBounds(maximizing, acc, init);
      assert forall i :: 0 <= i < |init| ==> init[i] == vs[i];
    }
  }

  /** From the side's worst start, the running best over a non-empty list is
      finite, no value of the list beats it, and one of them attains it. */
  lemma FoldBest(maximizing: bool, vs: seq<real>)
    requires vs != []
    ensures Fold(maximizing, Worst(maximizing), vs).Fin?
    ensures maximizing ==> forall i :: 0 <= i < |vs| ==> vs[i] <= Fold(maximizing, Worst(maximizing), vs).r
    ensures !maximizing ==> forall i :: 0 <= i < |vs| ==> vs[i] >= Fold(maximizing, Worst(maximizing), vs).r
    ensures exists i :: 0 <= i < |vs| && vs[i] == Fold(maximizing, Worst(maximizing), vs).r
  {
    FoldBounds(maximizing, Worst(maximizing), vs);
  }

  /** From a finite start `x` the running best is finite, neither the start
      nor any value of the list beats it, and the start or one of the values
      attains it. */
  lemma FoldFrom(maximizing: bool, x: real, vs: seq<real>)
    ensures Fold(maximizing, Fin(x), vs).Fin?
    ensures maximizing ==> x <= Fold(maximizing, Fin(x), vs).r
    ensures !maximizing ==> x >= Fold(maximizing, Fin(x), vs).r
    ensures maximizing ==> forall i :: 0 <= i < |vs| ==> vs[i] <= Fold(maximizing, Fin(x), vs).r
    ensures !maximizing ==> forall i :: 0 <= i < |vs| ==> vs[i] >= Fold(maximizing, Fin(x), vs).r
    ensures Fold(maximizing, Fin(x), vs).r == x || exists i :: 0 <= i < |vs| && vs[i] == Fold(maximizing, Fin(x), vs).r
  {
    FoldBounds(maximizing, Fin(x), vs);
  }

  /** The fold of a prefix is never better than the fold of the whole. */
  lemma {:induction false} FoldPrefix(maximizing: bool, acc: Ext, vs: seq<real>, k: nat)
    requires k <= |vs|
    ensures maximizing ==> Le(Fold(maximizing, acc, vs[..k]), Fold(maximizing, acc, vs))
    ensures !maximizing ==> Le(Fold(maximizing, acc, vs), Fold(maximizing, acc, vs[..k]))
    decreases |vs|
  {
    if k == |vs| {
      assert vs[..k] == vs;
    } else {
      var init := vs[..|vs| - 1];
      FoldPrefix(maximizing, acc, init, k);
      assert init[..k] == vs[..k];
    }
  }

  /** One step of a fail-soft maximizer: the running best `m` against the
      running value `P` of the full search, with the loop still open
      (`a` below `beta`); the child was searched in the window (a, beta) and
      `m2` is the running best once the child's value `e` is taken in. With the
      infinite window a value that beats the running best is exact. */
  lemma MaxStep(alpha: Ext, beta: Ext, a: Ext, m: Ext, P: Ext, e: Ext, c: Ext, m2: Ext)
    requires Lt(alpha, beta) && Le(alpha, a) && Le(a, Max(alpha, m)) && Lt(a, beta)
    requires FailSoft(m, P, alpha, beta) && FailSoft(e, c, a, beta)
    requires Le(m, m2) && Le(e, m2) && (m2 == m || m2 == e)
    ensures FailSoft(m2, Best(true, P, c), alpha, beta)
    ensures Le(alpha, Max(a, e)) && Le(Max(a, e), Max(alpha, m2))
    ensures Le(beta, Max(a, e)) ==> Le(beta, m2)
    ensures alpha == NegInf && beta == PosInf && e.Fin? && Lt(m, e) ==> c == e
  {
  }

  /** The mirror image of MaxStep for the minimizer, which narrows beta. */
  lemma MinStep(alpha: Ext, beta: Ext, b: Ext, m: Ext, P: Ext, e: Ext, c: Ext, m2: Ext)
    requires Lt(alpha, beta) && Le(b, beta) && Le(Min(beta, m), b) && Lt(alpha, b)
    requires FailSoft(m, P, alpha, beta) && FailSoft(e, c, alpha, b)
    requires Le(m2, m) && Le(m2, e) && (m2 == m || m2 == e)
    ensures FailSoft(m2, Best(false, P, c), alpha, beta)
    ensures Le(Min(b, e), beta) && Le(Min(beta, m2), Min(b, e))
    ensures Le(Min(b, e), alpha) ==> Le(m2, alpha)
    ensures alpha == NegInf && beta == PosInf && e.Fin? && Lt(e, m) ==> c == e
  {
  }

  /** A cut-off: a result at or above beta stays a valid lower bound for any
      better final value. */
  lemma CutOffAbove(alpha: Ext, beta: Ext, m: Ext, P: Ext, V: Ext)
    requires Lt(alpha, beta) && Le(beta, m) && FailSoft(m, P, alpha, beta) && Le(P, V)
    ensures FailSoft(m, V, alpha, beta)
  {
  }

  /** A cut-off: a result at or below alpha stays a valid upper bound for any
      lower final value. */
  lemma CutOffBelow(alpha: Ext, beta: Ext, m: Ext, P: Ext, V: Ext)
    requires Lt(alpha, beta) && Le(m, alpha) && FailSoft(m, P, alpha, beta) && Le(V, P)
    ensures FailSoft(m, V, alpha, beta)
  {
  }
}
