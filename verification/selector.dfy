/** The root move selector: score every legal move with the search, keep the
    first one that is best for the side to play, and commit it to the board. */
module Selector {
  import opened Material
  import opened Scores
  import opened Oracle
  import opened SearchEngine

  /** The best value found so far and the move that reached it. */
  datatype Choice = Choice(value: Score, move: Option<nat>)

  /** The value the selector starts from: NegInf for White, PosInf for Black,
      the worst value there is for that side. */
  function Sentinel(side: Color): (r: Score)
    ensures side == White ==> forall x :: Le(r, x)
    ensures side == Black ==> forall x :: Le(x, r)
  {
    if side == White then NegInf else PosInf
  }

  /** `x` is strictly better than `best` for `side`: higher for White, lower for Black. */
  function Improves(side: Color, x: Score, best: Score): (b: bool)
    ensures b ==> x != best
    ensures b && side == White ==> x != NegInf && best != PosInf
    ensures b && side == Black ==> x != PosInf && best != NegInf
  {
    if side == White then Lt(best, x) else Lt(x, best)
  }

  /** The true value of every root move, searched one ply shallower with the
      maximizing flag set exactly when the selecting side is Black. Each is
      what the full-window pruned search of that move returns. */
  function RootScores(n: Node, depth: nat, side: Color): (s: seq<Score>)
    requires depth >= 1
    ensures |s| == |n.kids|
    ensures forall i :: 0 <= i < |s| ==> s[i] == AlphaBeta(n.kids[i], depth - 1, NegInf, PosInf, side != White)
  {
    assert forall i :: 0 <= i < |n.kids| ==>
        AlphaBeta(n.kids[i], depth - 1, NegInf, PosInf, side != White) == Minimax(n.kids[i], depth - 1, side != White) by {
      forall i | 0 <= i < |n.kids| {
        AlphaBetaFullWindow(n.kids[i], depth - 1, side != White);
      }
    }
    seq(|n.kids|, i requires 0 <= i < |n.kids| => Minimax(n.kids[i], depth - 1, side != White))
  }

  /** The selection over the scores of the moves scanned so far: the first
      score that is best for `side`, under strict comparison, so ties keep
      the earlier move. */
  function BestSoFar(scores: seq<Score>, side: Color): (c: Choice)
    ensures c.move.None? ==> c.value == Sentinel(side)
    ensures c.move.None? ==> forall j :: 0 <= j < |scores| ==> !Improves(side, scores[j], Sentinel(side))
    ensures c.move.Some? ==> c.move.value < |scores| && c.value == scores[c.move.value]
    ensures c.move.Some? ==> Improves(side, c.value, Sentinel(side))
    ensures c.move.Some? ==> forall j :: 0 <= j < |scores| ==> !Improves(side, scores[j], c.value)
    ensures c.move.Some? ==> forall j :: 0 <= j < c.move.value ==> Improves(side, c.value, scores[j])
    decreases |scores|
  {
    if scores == [] then Choice(Sentinel(side), None)
    else
      var prev := BestSoFar(scores[..|scores| - 1], side);
      var x := scores[|scores| - 1];
      if Improves(side, x, prev.value) then Choice(x, Some(|scores| - 1)) else prev
  }

  /** When the oracle gives every live position a legal move and the game is
      not over, some move is chosen: every root score is a real number and so
      beats the infinite sentinel. */
  lemma {:induction false} SelectionCommits(n: Node, depth: nat, side: Color)
    requires depth >= 1 && WellFormed(n) && !n.over
    ensures BestSoFar(RootScores(n, depth, side), side).move.Some?
  {
    var scores := RootScores(n, depth, side);
    assert n.kids[0] in n.kids;
    MinimaxFinite(n.kids[0], depth - 1, side != White);
    assert Improves(side, scores[0], Sentinel(side));
  }

  /** The selector on the shared board. A finished game is left untouched.
      Otherwise every legal move is probed with a full-window search and
      undone, and the first move with the best score for `side` is pushed:
      the board ends as it started plus that one move. */
  method MakeBestMove(b: Board, depth: nat, side: Color) returns (chosen: Option<nat>)
    requires b.Valid() && depth >= 1
    modifies b
    ensures b.Valid()
    ensures old(b.Position()).over ==> chosen == None
    ensures !old(b.Position()).over ==>
              chosen == BestSoFar(RootScores(old(b.Position()), depth, side), side).move
    ensures chosen.Some? ==> chosen.value < |old(b.Position()).kids|
    ensures b.history == old(b.history) + (if chosen.Some? then [chosen.value] else [])
    ensures WellFormed(old(b.Position())) && !old(b.Position()).over ==> chosen.Some?
  {
    if b.IsGameOver() {
      return None;
    }
    ghost var n := b.Position();
    ghost var scores := RootScores(n, depth, side);
    var count := b.LegalMoveCount();
    var bestValue := if side == White then NegInf else PosInf;
    var bestMove: Option<nat> := None;
    var i := 0;
    while i < count
      invariant i <= count == |scores|
      invariant b.Valid() && b.history == old(b.history)
      invariant Choice(bestValue, bestMove) == BestSoFar(scores[..i], side)
    {
      b.Push(i);
      var boardValue := Search(b, depth - 1, NegInf, PosInf, side != White);
      b.Pop();
      assert scores[..i + 1][..i] == scores[..i];
      if (side == White && Lt(bestValue, boardValue)) || (side == Black && Lt(boardValue, bestValue)) {
        bestValue := boardValue;
        bestMove := Some(i);
      }
      i := i + 1;
    }
    assert scores[..count] == scores;
    if WellFormed(n) {
      SelectionCommits(n, depth, side);
    }
    chosen := bestMove;
    if bestMove.Some? {
      b.Push(bestMove.value);
    }
  }
}
