/** Depth-limited minimax search with fail-soft alpha-beta pruning over the
    rules oracle's game tree. */
module SearchEngine {
  import opened Material
  import opened Scores
  import opened Oracle

  /** Plain minimax without pruning: the reference value of a position,
      visiting the same moves in the oracle's order. */
  function Minimax(n: Node, depth: nat, maximizing: bool): Score
    decreases depth, 1
  {
    if depth == 0 || n.over then Fin(Evaluate(n.placement))
    else if maximizing then MaxFrom(n.kids, 0, depth - 1)
    else MinFrom(n.kids, 0, depth - 1)
  }

  /** The largest minimax value of kids[i..], or NegInf when there are none. */
  function MaxFrom(kids: seq<Node>, i: nat, d: nat): Score
    requires i <= |kids|
    decreases d, 2, |kids| - i
  {
    if i == |kids| then NegInf
    else Max(Minimax(kids[i], d, false), MaxFrom(kids, i + 1, d))
  }

  /** The smallest minimax value of kids[i..], or PosInf when there are none. */
  function MinFrom(kids: seq<Node>, i: nat, d: nat): Score
    requires i <= |kids|
    decreases d, 2, |kids| - i
  {
    if i == |kids| then PosInf
    else Min(Minimax(kids[i], d, true), MinFrom(kids, i + 1, d))
  }

  /** The value the pruned search computes: a leaf or a finished game is
      scored statically; otherwise the moves are scanned in order. */
  function AlphaBeta(n: Node, depth: nat, alpha: Score, beta: Score, maximizing: bool): (r: Score)
    ensures WellFormed(n) ==> r.Fin?
    decreases depth, 1
  {
    if depth == 0 || n.over then Fin(Evaluate(n.placement))
    else if maximizing then MaxLoop(n.kids, 0, depth - 1, alpha, beta, NegInf)
    else MinLoop(n.kids, 0, depth - 1, alpha, beta, PosInf)
  }

  /** The maximizing scan from move i on: keep the running maximum, raise
      alpha to each child's value, and stop as soon as beta <= alpha. */
  function MaxLoop(kids: seq<Node>, i: nat, d: nat, alpha: Score, beta: Score, best: Score): (r: Score)
    requires i <= |kids|
    ensures Le(best, r)
    ensures (forall k :: k in kids ==> WellFormed(k)) && !best.PosInf? && (i < |kids| || best.Fin?) ==> r.Fin?
    decreases d, 2, |kids| - i
  {
    if i == |kids| then best
    else
      var e := AlphaBeta(kids[i], d, alpha, beta, false);
      var best', alpha' := Max(best, e), Max(alpha, e);
      if Le(beta, alpha') then best' else MaxLoop(kids, i + 1, d, alpha', beta, best')
  }

  /** The minimizing scan from move i on: keep the running minimum, lower
      beta to each child's value, and stop as soon as beta <= alpha. */
  function MinLoop(kids: seq<Node>, i: nat, d: nat, alpha: Score, beta: Score, best: Score): (r: Score)
    requires i <= |kids|
    ensures Le(r, best)
    ensures (forall k :: k in kids ==> WellFormed(k)) && !best.NegInf? && (i < |kids| || best.Fin?) ==> r.Fin?
    decreases d, 2, |kids| - i
  {
    if i == |kids| then best
    else
      var e := AlphaBeta(kids[i], d, alpha, beta, true);
      var best', beta' := Min(best, e), Min(beta, e);
      if Le(beta', alpha) then best' else MinLoop(kids, i + 1, d, alpha, beta', best')
  }

  /** r is a fail-soft answer for true value v under window (alpha, beta):
      exact inside the window, and on the correct side of the true value
      (and of the bound) outside it. */
  ghost predicate FailSoft(r: Score, v: Score, alpha: Score, beta: Score)
  {
    || (Le(r, alpha) && Le(v, r))
    || (Lt(alpha, r) && Lt(r, beta) && r == v)
    || (Le(beta, r) && Le(r, v))
  }

  /** Alpha-beta is a fail-soft approximation of minimax for every window. */
  lemma {:induction false} AlphaBetaFailSoft(n: Node, depth: nat, alpha: Score, beta: Score, maximizing: bool)
    requires Lt(alpha, beta)
    ensures FailSoft(AlphaBeta(n, depth, alpha, beta, maximizing), Minimax(n, depth, maximizing), alpha, beta)
    decreases depth, 1
  {
    if depth == 0 || n.over {
    } else if maximizing {
      MaxLoopFailSoft(n.kids, 0, depth - 1, alpha, beta, NegInf, alpha, NegInf);
    } else {
      MinLoopFailSoft(n.kids, 0, depth - 1, alpha, beta, PosInf, beta, PosInf);
    }
  }

  /** Loop invariant of the maximizing scan. `alpha0` is the window's lower
      bound on entry and `pre` the true maximum of the moves already scanned. */
  lemma {:induction false} MaxLoopFailSoft(kids: seq<Node>, i: nat, d: nat, alpha: Score, beta: Score,
                                           best: Score, alpha0: Score, pre: Score)
    requires i <= |kids|
    requires Lt(alpha0, beta) && alpha == Max(alpha0, best) && Lt(best, beta)
    requires Le(pre, best) && (Lt(alpha0, best) ==> pre == best)
    ensures FailSoft(MaxLoop(kids, i, d, alpha, beta, best), Max(pre, MaxFrom(kids, i, d)), alpha0, beta)
    decreases d, 2, |kids| - i
  {
    if i < |kids| {
      var e := AlphaBeta(kids[i], d, alpha, beta, false);
      var v := Minimax(kids[i], d, false);
      AlphaBetaFailSoft(kids[i], d, alpha, beta, false);
      var best', alpha' := Max(best, e), Max(alpha, e);
      if !Le(beta, alpha') {
        MaxLoopFailSoft(kids, i + 1, d, alpha', beta, best', alpha0, Max(pre, v));
      }
    }
  }

  /** Loop invariant of the minimizing scan, mirroring MaxLoopFailSoft. */
  lemma {:induction false} MinLoopFailSoft(kids: seq<Node>, i: nat, d: nat, alpha: Score, beta: Score,
                                           best: Score, beta0: Score, pre: Score)
    requires i <= |kids|
    requires Lt(alpha, beta0) && beta == Min(beta0, best) && Lt(alpha, best)
    requires Le(best, pre) && (Lt(best, beta0) ==> pre == best)
    ensures FailSoft(MinLoop(kids, i, d, alpha, beta, best), Min(pre, MinFrom(kids, i, d)), alpha, beta0)
    decreases d, 2, |kids| - i
  {
    if i < |kids| {
      var e := AlphaBeta(kids[i], d, alpha, beta, true);
      var v := Minimax(kids[i], d, true);
      AlphaBetaFailSoft(kids[i], d, alpha, beta, true);
      var best', beta' := Min(best, e), Min(beta, e);
      if !Le(beta', alpha) {
        MinLoopFailSoft(kids, i + 1, d, alpha, beta', best', beta0, Min(pre, v));
      }
    }
  }

  /** The window contract in its usual three cases: inside the window the
      pruned value is exact; at or below alpha it is an upper bound of the
      true value no higher than alpha; at or above beta a lower bound of the
      true value no lower than beta. */
  lemma AlphaBetaBounds(n: Node, depth: nat, alpha: Score, beta: Score, maximizing: bool)
    requires Lt(alpha, beta)
    ensures var v, r := Minimax(n, depth, maximizing), AlphaBeta(n, depth, alpha, beta, maximizing);
      && (Lt(alpha, v) && Lt(v, beta) ==> r == v)
      && (Le(v, alpha) ==> Le(v, r) && Le(r, alpha))
      && (Le(beta, v) ==> Le(beta, r) && Le(r, v))
  {
    AlphaBetaFailSoft(n, depth, alpha, beta, maximizing);
  }

  /** With the full window the pruned search equals plain minimax. */
  lemma AlphaBetaFullWindow(n: Node, depth: nat, maximizing: bool)
    ensures AlphaBeta(n, depth, NegInf, PosInf, maximizing) == Minimax(n, depth, maximizing)
  {
    AlphaBetaFailSoft(n, depth, NegInf, PosInf, maximizing);
  }

  lemma {:induction false} MaxFromIsMaximum(kids: seq<Node>, i: nat, d: nat)
    requires i <= |kids|
    ensures forall j :: i <= j < |kids| ==> Le(Minimax(kids[j], d, false), MaxFrom(kids, i, d))
    ensures i < |kids| ==> exists j :: i <= j < |kids| && MaxFrom(kids, i, d) == Minimax(kids[j], d, false)
    decreases |kids| - i
  {
    if i < |kids| {
      MaxFromIsMaximum(kids, i + 1, d);
      forall j | i <= j < |kids|
        ensures Le(Minimax(kids[j], d, false), MaxFrom(kids, i, d))
      {
        LeTotalOrder(Minimax(kids[j], d, false), MaxFrom(kids, i + 1, d), MaxFrom(kids, i, d));
      }
    }
  }

  lemma {:induction false} MinFromIsMinimum(kids: seq<Node>, i: nat, d: nat)
    requires i <= |kids|
    ensures forall j :: i <= j < |kids| ==> Le(MinFrom(kids, i, d), Minimax(kids[j], d, true))
    ensures i < |kids| ==> exists j :: i <= j < |kids| && MinFrom(kids, i, d) == Minimax(kids[j], d, true)
    decreases |kids| - i
  {
    if i < |kids| {
      MinFromIsMinimum(kids, i + 1, d);
      forall j | i <= j < |kids|
        ensures Le(MinFrom(kids, i, d), Minimax(kids[j], d, true))
      {
        LeTotalOrder(MinFrom(kids, i, d), MinFrom(kids, i + 1, d), Minimax(kids[j], d, true));
      }
    }
  }

  /** Away from the leaves, minimax is the best child value for the side to
      move (maximum when maximizing, minimum otherwise), attained by some
      move; with no legal move in a live game it is the starting sentinel. */
  lemma MinimaxIsExtreme(n: Node, depth: nat, maximizing: bool)
    requires depth > 0 && !n.over
    ensures var r := Minimax(n, depth, maximizing);
      && (forall k :: 0 <= k < |n.kids| ==>
            if maximizing then Le(Minimax(n.kids[k], depth - 1, false), r)
            else Le(r, Minimax(n.kids[k], depth - 1, true)))
      && (|n.kids| > 0 ==> exists k :: 0 <= k < |n.kids| && r == Minimax(n.kids[k], depth - 1, !maximizing))
      && (n.kids == [] ==> r == if maximizing then NegInf else PosInf)
  {
    if maximizing {
      MaxFromIsMaximum(n.kids, 0, depth - 1);
    } else {
      MinFromIsMinimum(n.kids, 0, depth - 1);
    }
  }

  /** When every live position has a legal move, every value is a real score. */
  lemma {:induction false} MinimaxFinite(n: Node, depth: nat, maximizing: bool)
    requires WellFormed(n)
    ensures Minimax(n, depth, maximizing).Fin?
    decreases depth, 1
  {
    if depth == 0 || n.over {
    } else if maximizing {
      MaxFromFinite(n.kids, 0, depth - 1);
    } else {
      MinFromFinite(n.kids, 0, depth - 1);
    }
  }

  lemma {:induction false} MaxFromFinite(kids: seq<Node>, i: nat, d: nat)
    requires i < |kids| && forall k :: k in kids ==> WellFormed(k)
    ensures MaxFrom(kids, i, d).Fin?
    decreases d, 2, |kids| - i
  {
    assert kids[i] in kids;
    MinimaxFinite(kids[i], d, false);
    if i + 1 < |kids| {
      MaxFromFinite(kids, i + 1, d);
    }
  }

  lemma {:induction false} MinFromFinite(kids: seq<Node>, i: nat, d: nat)
    requires i < |kids| && forall k :: k in kids ==> WellFormed(k)
    ensures MinFrom(kids, i, d).Fin?
    decreases d, 2, |kids| - i
  {
    assert kids[i] in kids;
    MinimaxFinite(kids[i], d, true);
    if i + 1 < |kids| {
      MinFromFinite(kids, i + 1, d);
    }
  }

  /** The maximizing scan from move i on stops at a cutoff. */
  predicate MaxCutsOff(kids: seq<Node>, i: nat, d: nat, alpha: Score, beta: Score, best: Score)
    requires i <= |kids|
    decreases |kids| - i
  {
    i < |kids| &&
    var e := AlphaBeta(kids[i], d, alpha, beta, false);
    Le(beta, Max(alpha, e)) || MaxCutsOff(kids, i + 1, d, Max(alpha, e), beta, Max(best, e))
  }

  /** The minimizing scan from move i on stops at a cutoff. */
  predicate MinCutsOff(kids: seq<Node>, i: nat, d: nat, alpha: Score, beta: Score, best: Score)
    requires i <= |kids|
    decreases |kids| - i
  {
    i < |kids| &&
    var e := AlphaBeta(kids[i], d, alpha, beta, true);
    Le(Min(beta, e), alpha) || MinCutsOff(kids, i + 1, d, alpha, Min(beta, e), Min(best, e))
  }

  /** Once the maximizing scan has cut off, the moves after the cutoff are
      never searched: appending any further moves leaves the result alone. */
  lemma {:induction false} MaxCutoffIgnoresLaterMoves(kids: seq<Node>, more: seq<Node>, i: nat, d: nat,
                                                      alpha: Score, beta: Score, best: Score)
    requires i <= |kids| && MaxCutsOff(kids, i, d, alpha, beta, best)
    ensures MaxLoop(kids + more, i, d, alpha, beta, best) == MaxLoop(kids, i, d, alpha, beta, best)
    decreases |kids| - i
  {
    assert (kids + more)[i] == kids[i];
    var e := AlphaBeta(kids[i], d, alpha, beta, false);
    if !Le(beta, Max(alpha, e)) {
      MaxCutoffIgnoresLaterMoves(kids, more, i + 1, d, Max(alpha, e), beta, Max(best, e));
    }
  }

  /** Once the minimizing scan has cut off, the moves after the cutoff are
      never searched. */
  lemma {:induction false} MinCutoffIgnoresLaterMoves(kids: seq<Node>, more: seq<Node>, i: nat, d: nat,
                                                      alpha: Score, beta: Score, best: Score)
    requires i <= |kids| && MinCutsOff(kids, i, d, alpha, beta, best)
    ensures MinLoop(kids + more, i, d, alpha, beta, best) == MinLoop(kids, i, d, alpha, beta, best)
    decreases |kids| - i
  {
    assert (kids + more)[i] == kids[i];
    var e := AlphaBeta(kids[i], d, alpha, beta, true);
    if !Le(Min(beta, e), alpha) {
      MinCutoffIgnoresLaterMoves(kids, more, i + 1, d, alpha, Min(beta, e), Min(best, e));
    }
  }

  /** The search itself, on the shared board: every move it pushes is popped
      again before the next move is tried or the call returns, so the board
      is left as it was found, after a cutoff too. */
  method Search(b: Board, depth: nat, alpha: Score, beta: Score, maximizing: bool) returns (v: Score)
    requires b.Valid()
    modifies b
    decreases depth, 1
    ensures b.Valid() && b.history == old(b.history)
    ensures v == AlphaBeta(old(b.Position()), depth, alpha, beta, maximizing)
    ensures depth == 0 || old(b.Position()).over ==> v == Fin(Evaluate(old(b.Position()).placement))
    ensures alpha == NegInf && beta == PosInf ==> v == Minimax(old(b.Position()), depth, maximizing)
  {
    AlphaBetaFullWindow(b.Position(), depth, maximizing);
    if depth == 0 || b.IsGameOver() {
      v := Fin(b.EvaluatePosition());
    } else if maximizing {
      v := MaximizingScan(b, depth - 1, alpha, beta);
    } else {
      v := MinimizingScan(b, depth - 1, alpha, beta);
    }
  }

  /** The maximizing branch of the search: each legal move in turn is pushed,
      searched one ply shallower for the minimizing side, and popped; the
      running maximum and alpha rise with each result, and the scan stops at
      the first move after which beta <= alpha. */
  method MaximizingScan(b: Board, d: nat, alpha: Score, beta: Score) returns (v: Score)
    requires b.Valid()
    modifies b
    decreases d, 2
    ensures b.Valid() && b.history == old(b.history)
    ensures v == MaxLoop(old(b.Position()).kids, 0, d, alpha, beta, NegInf)
  {
    ghost var n := b.Position();
    var count := b.LegalMoveCount();
    var best, lo := NegInf, alpha;
    var i := 0;
    while i < count
      invariant i <= count == |n.kids|
      invariant b.Valid() && b.history == old(b.history)
      invariant MaxLoop(n.kids, i, d, lo, beta, best) == MaxLoop(n.kids, 0, d, alpha, beta, NegInf)
    {
      b.Push(i);
      var e := Search(b, d, lo, beta, false);
      b.Pop();
      best := Max(best, e);
      lo := Max(lo, e);
      if Le(beta, lo) {
        break;
      }
      i := i + 1;
    }
    v := best;
  }

  /** The minimizing branch of the search, mirroring MaximizingScan: the
      running minimum and beta fall with each result. */
  method MinimizingScan(b: Board, d: nat, alpha: Score, beta: Score) returns (v: Score)
    requires b.Valid()
    modifies b
    decreases d, 2
    ensures b.Valid() && b.history == old(b.history)
    ensures v == MinLoop(old(b.Position()).kids, 0, d, alpha, beta, PosInf)
  {
    ghost var n := b.Position();
    var count := b.LegalMoveCount();
    var best, hi := PosInf, beta;
    var i := 0;
    while i < count
      invariant i <= count == |n.kids|
      invariant b.Valid() && b.history == old(b.history)
      invariant MinLoop(n.kids, i, d, alpha, hi, best) == MinLoop(n.kids, 0, d, alpha, beta, PosInf)
    {
      b.Push(i);
      var e := Search(b, d, alpha, hi, true);
      b.Pop();
      best := Min(best, e);
      hi := Min(hi, e);
      if Le(hi, alpha) {
        break;
      }
      i := i + 1;
    }
    v := best;
  }
}
