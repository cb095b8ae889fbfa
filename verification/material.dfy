/** Pieces, board placements and the static material evaluation. */
module Material {

  datatype Option<T> = None | Some(value: T)

  datatype Color = White | Black

  datatype Kind = Pawn | Knight | Bishop | Rook | Queen | King

  datatype Piece = Piece(kind: Kind, color: Color)

  /** What stands on each square, indexed as the chess library does:
      a1 = 0, b1 = 1, ..., h1 = 7, a2 = 8, ..., h8 = 63. */
  type Placement = seq<Option<Piece>>

  const SquareCount := 64

  function Opponent(c: Color): Color
  {
    if c == White then Black else White
  }

  /** The fixed material table: pawn 1, knight 3, bishop 3, rook 5, queen 9, king 0. */
  function Worth(k: Kind): nat
  {
    match k
    case Pawn => 1
    case Knight => 3
    case Bishop => 3
    case Rook => 5
    case Queen => 9
    case King => 0
  }

  /** A piece's table value, counted for White and against Black. */
  function PieceValue(p: Piece): (v: int)
    ensures -9 <= v <= 9
    ensures p.color == White ==> v >= 0
    ensures p.color == Black ==> v <= 0
    ensures v == 0 <==> p.kind == King
    ensures (if v < 0 then -v else v) == Worth(p.kind)
  {
    Worth(p.kind) * (if p.color == White then 1 else -1)
  }

  function SquareValue(o: Option<Piece>): int
  {
    match o
    case None => 0
    case Some(p) => PieceValue(p)
  }

  /** The sum of PieceValue over every occupied square. */
  function Evaluate(s: Placement): (r: int)
    ensures -9 * |s| <= r <= 9 * |s|
  {
    if s == [] then 0 else SquareValue(s[0]) + Evaluate(s[1..])
  }

  function SwapPiece(o: Option<Piece>): Option<Piece>
  {
    match o
    case None => None
    case Some(p) => Some(Piece(p.kind, Opponent(p.color)))
  }

  /** The same placement with every piece handed to the other side. */
  function SwapColors(s: Placement): (r: Placement)
    ensures |r| == |s|
    ensures forall i :: 0 <= i < |s| ==> r[i] == SwapPiece(s[i])
  {
    seq(|s|, i requires 0 <= i < |s| => SwapPiece(s[i]))
  }

  predicate IsEmpty(s: Placement)
  {
    forall i :: 0 <= i < |s| ==> s[i].None?
  }

  lemma PieceValueSwap(p: Piece)
    ensures PieceValue(Piece(p.kind, Opponent(p.color))) == -PieceValue(p)
  {
  }

  lemma {:induction false} EvaluateEmpty(s: Placement)
    requires IsEmpty(s)
    ensures Evaluate(s) == 0
  {
    if s != [] {
      EvaluateEmpty(s[1..]);
    }
  }

  /** Material is additive over a split of the board. */
  lemma {:induction false} EvaluateConcat(a: Placement, b: Placement)
    ensures Evaluate(a + b) == Evaluate(a) + Evaluate(b)
  {
    if a == [] {
      assert a + b == b;
    } else {
      assert (a + b)[1..] == a[1..] + b;
      EvaluateConcat(a[1..], b);
    }
  }

  /** Swapping the colour of every piece negates the evaluation. */
  lemma {:induction false} EvaluateSwapColors(s: Placement)
    ensures Evaluate(SwapColors(s)) == -Evaluate(s)
  {
    if s != [] {
      assert SwapColors(s)[1..] == SwapColors(s[1..]);
      EvaluateSwapColors(s[1..]);
      match s[0]
      case None =>
      case Some(p) => PieceValueSwap(p);
    }
  }

  /** Replacing what stands on one square changes the evaluation by exactly
      the difference of the two squares' values. */
  lemma {:induction false} EvaluateUpdate(s: Placement, i: nat, o: Option<Piece>)
    requires i < |s|
    ensures Evaluate(s[i := o]) == Evaluate(s) - SquareValue(s[i]) + SquareValue(o)
  {
    if i == 0 {
      assert s[i := o][1..] == s[1..];
    } else {
      assert s[i := o][1..] == s[1..][i - 1 := o];
      EvaluateUpdate(s[1..], i - 1, o);
    }
  }

  function BackRank(c: Color): Placement
  {
    [Some(Piece(Rook, c)), Some(Piece(Knight, c)), Some(Piece(Bishop, c)), Some(Piece(Queen, c)),
     Some(Piece(King, c)), Some(Piece(Bishop, c)), Some(Piece(Knight, c)), Some(Piece(Rook, c))]
  }

  function PawnRank(c: Color): Placement
  {
    seq(8, _ => Some(Piece(Pawn, c)))
  }

  /** The standard starting position: White on ranks 1 and 2, Black on 7 and 8. */
  function StartingPlacement(): (r: Placement)
    ensures |r| == SquareCount
  {
    BackRank(White) + PawnRank(White) + seq(32, _ => None) + PawnRank(Black) + BackRank(Black)
  }

  /** The starting position is materially level. */
  lemma StartingPlacementLevel()
    ensures Evaluate(StartingPlacement()) == 0
  {
    var empty: Placement := seq(32, _ => None);
    assert SwapColors(BackRank(White)) == BackRank(Black);
    assert SwapColors(PawnRank(White)) == PawnRank(Black);
    EvaluateSwapColors(BackRank(White));
    EvaluateSwapColors(PawnRank(White));
    EvaluateEmpty(empty);
    EvaluateConcat(BackRank(White), PawnRank(White));
    EvaluateConcat(BackRank(White) + PawnRank(White), empty);
    EvaluateConcat(BackRank(White) + PawnRank(White) + empty, PawnRank(Black));
    EvaluateConcat(BackRank(White) + PawnRank(White) + empty + PawnRank(Black), BackRank(Black));
  }
}
