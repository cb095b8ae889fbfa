/** The rules oracle the search consumes: legal-move enumeration, game-over
    detection, and applying and undoing moves on one shared board.

    The positions reachable from a board form a game tree. A node records the
    placement of the pieces, whether the game is over there, and the position
    after each legal move, in the order the oracle enumerates the moves. A move
    is identified by its index in that order. */
module Oracle {
  import opened Material

  datatype Node = Node(placement: Placement, over: bool, kids: seq<Node>)

  /** The oracle never reports a live game without a legal move: a side to
      move with no legal move is checkmated or stalemated, so the game is over. */
  predicate WellFormed(n: Node)
  {
    (n.over || |n.kids| > 0) && forall k :: k in n.kids ==> WellFormed(k)
  }

  /** `path` is a sequence of legal moves playable from `n`. */
  predicate IsPath(n: Node, path: seq<nat>)
    decreases |path|, 0
  {
    path == [] ||
    (IsPath(n, path[..|path| - 1]) && path[|path| - 1] < |Follow(n, path[..|path| - 1]).kids|)
  }

  /** The position reached from `n` by playing the moves of `path`. */
  function Follow(n: Node, path: seq<nat>): Node
    requires IsPath(n, path)
    decreases |path|, 1
  {
    if path == [] then n
    else Follow(n, path[..|path| - 1]).kids[path[|path| - 1]]
  }

  /** A board whose state is its move stack: the moves pushed since `root`. */
  class Board {
    const root: Node
    var history: seq<nat>

    ghost predicate Valid()
      reads this
    {
      IsPath(root, history)
    }

    constructor (start: Node)
      ensures Valid() && root == start && history == []
    {
      root := start;
      history := [];
    }

    function Position(): Node
      reads this
      requires Valid()
    {
      Follow(root, history)
    }

    function IsGameOver(): bool
      reads this
      requires Valid()
    {
      Position().over
    }

    function LegalMoveCount(): nat
      reads this
      requires Valid()
    {
      |Position().kids|
    }

    /** The static evaluation of the current placement. */
    function EvaluatePosition(): int
      reads this
      requires Valid()
    {
      Evaluate(Position().placement)
    }

    /** Play legal move `m`. */
    method Push(m: nat)
      requires Valid() && m < LegalMoveCount()
      modifies this
      ensures Valid()
      ensures history == old(history) + [m]
      ensures Position() == old(Position()).kids[m]
    {
      assert (history + [m])[..|history|] == history;
      history := history + [m];
    }

    /** Undo the most recent move. */
    method Pop()
      requires Valid() && history != []
      modifies this
      ensures Valid()
      ensures history == old(history)[..|old(history)| - 1]
    {
      history := history[..|history| - 1];
    }
  }
}
