/** Manual board editing with the mouse: a pixel of the 600 x 600 board maps
    to a square; a left click selects a piece or moves the selected one, a
    right click removes a piece. */
module Editor {
  import opened Material

  /** The board is drawn 600 pixels square, eight cells of 75 pixels a side,
      rank 8 at the top. */
  const Width := 600
  const Height := 600
  const CellSize := Width / 8

  const LeftButton := 1
  const RightButton := 3

  /** The square on `file` and `rank`, both counted from 0. */
  function Square(file: nat, rank: nat): nat
  {
    rank * 8 + file
  }

  /** The square under pixel (x, y), or None below the board. */
  function SquareFromMouse(x: int, y: int): (sq: Option<nat>)
    requires 0 <= x < Width && 0 <= y
    ensures sq.None? <==> y >= Height
    ensures sq.Some? ==> sq.value < SquareCount
    ensures sq.Some? ==> sq.value % 8 == x / CellSize && sq.value / 8 == 7 - y / CellSize
  {
    if y >= Height then None else Some(Square(x / CellSize, 7 - y / CellSize))
  }

  /** Every pixel of the cell in which a square is drawn (column = file,
      row from the top = 7 - rank) maps back to that square. */
  lemma SquareFromMouseCoversCell(sq: nat, dx: int, dy: int)
    requires sq < SquareCount && 0 <= dx < CellSize && 0 <= dy < CellSize
    ensures SquareFromMouse((sq % 8) * CellSize + dx, (7 - sq / 8) * CellSize + dy) == Some(sq)
  {
    assert CellSize == 75;
    CellDiv(sq % 8, dx);
    CellDiv(7 - sq / 8, dy);
  }

  lemma CellDiv(q: nat, d: int)
    requires q < 8 && 0 <= d < 75
    ensures (q * 75 + d) / 75 == q
  {
  }

  /** The editor's state: the placement being edited and the selected square. */
  datatype Editing = Editing(squares: Placement, selected: Option<nat>)

  predicate ValidEditing(e: Editing)
  {
    |e.squares| == SquareCount && (e.selected.Some? ==> e.selected.value < SquareCount)
  }

  /** The effect of one click. Only the clicked square and the selected square
      can change. */
  function Click(e: Editing, x: int, y: int, button: int): (r: Editing)
    requires ValidEditing(e) && 0 <= x < Width && 0 <= y
    ensures ValidEditing(r)
    ensures y >= Height ==> r == e
    ensures button != LeftButton && button != RightButton ==> r == e
    ensures forall k :: 0 <= k < SquareCount && SquareFromMouse(x, y) != Some(k) && e.selected != Some(k) ==>
              r.squares[k] == e.squares[k]
  {
    match SquareFromMouse(x, y)
    case None => e
    case Some(sq) =>
      if button == LeftButton then
        match e.selected
        case None => if e.squares[sq].Some? then Editing(e.squares, Some(sq)) else e
        case Some(from) =>
          if sq != from then Editing(e.squares[sq := e.squares[from]][from := None], None)
          else Editing(e.squares, None)
      else if button == RightButton then Editing(e.squares[sq := None], e.selected)
      else e
  }

  /** With nothing selected, a left click selects the clicked square exactly
      when a piece stands on it, and moves nothing. */
  lemma LeftClickSelects(e: Editing, x: int, y: int)
    requires ValidEditing(e) && 0 <= x < Width && 0 <= y < Height && e.selected.None?
    ensures var sq := SquareFromMouse(x, y).value; var r := Click(e, x, y, LeftButton);
      && r.squares == e.squares
      && (r.selected == Some(sq) <==> e.squares[sq].Some?)
      && (r.selected.None? <==> e.squares[sq].None?)
  {
  }

  /** With a square selected, a left click on another square puts the
      selected square's content there, empties the selected square and clears
      the selection. The evaluation changes by minus the value of what stood
      on the target. */
  lemma LeftClickMoves(e: Editing, x: int, y: int)
    requires ValidEditing(e) && 0 <= x < Width && 0 <= y < Height && e.selected.Some?
    requires SquareFromMouse(x, y).value != e.selected.value
    ensures var sq, from := SquareFromMouse(x, y).value, e.selected.value; var r := Click(e, x, y, LeftButton);
      && r.squares[sq] == e.squares[from]
      && r.squares[from] == None
      && r.selected == None
      && Evaluate(r.squares) == Evaluate(e.squares) - SquareValue(e.squares[sq])
  {
    var sq, from := SquareFromMouse(x, y).value, e.selected.value;
    EvaluateUpdate(e.squares, sq, e.squares[from]);
    EvaluateUpdate(e.squares[sq := e.squares[from]], from, None);
  }

  /** A left click on the selected square only clears the selection. */
  lemma LeftClickSameSquareDeselects(e: Editing, x: int, y: int)
    requires ValidEditing(e) && 0 <= x < Width && 0 <= y < Height && e.selected.Some?
    requires SquareFromMouse(x, y).value == e.selected.value
    ensures Click(e, x, y, LeftButton) == Editing(e.squares, None)
  {
  }

  /** A right click empties the clicked square, keeps the selection, and
      lowers the material of the side that owned the removed piece. */
  lemma RightClickRemoves(e: Editing, x: int, y: int)
    requires ValidEditing(e) && 0 <= x < Width && 0 <= y < Height
    ensures var sq := SquareFromMouse(x, y).value; var r := Click(e, x, y, RightButton);
      && r.squares == e.squares[sq := None]
      && r.selected == e.selected
      && Evaluate(r.squares) == Evaluate(e.squares) - SquareValue(e.squares[sq])
  {
    EvaluateUpdate(e.squares, SquareFromMouse(x, y).value, None);
  }

  /** A right click on the selected square leaves it selected though empty;
      a following left click on another square then empties that square too. */
  lemma StaleSelectionErasesTarget(e: Editing, x: int, y: int, x2: int, y2: int)
    requires ValidEditing(e) && 0 <= x < Width && 0 <= y < Height && 0 <= x2 < Width && 0 <= y2 < Height
    requires e.selected == SquareFromMouse(x, y)
    requires SquareFromMouse(x2, y2) != SquareFromMouse(x, y)
    ensures var r := Click(Click(e, x, y, RightButton), x2, y2, LeftButton);
      && r.squares[SquareFromMouse(x2, y2).value] == None
      && r.squares[SquareFromMouse(x, y).value] == None
      && r.selected == None
  {
  }

  /** The puzzle solver's editing state, updated in place by each click. */
  class PuzzleSolver {
    var squares: Placement
    var selected: Option<nat>

    ghost predicate Valid()
      reads this
    {
      ValidEditing(Editing(squares, selected))
    }

    /** A new solver starts from the standard starting position with
        nothing selected. */
    constructor ()
      ensures Valid() && squares == StartingPlacement() && selected == None
    {
      squares := StartingPlacement();
      selected := None;
    }

    method HandleClick(x: int, y: int, button: int)
      requires Valid() && 0 <= x < Width && 0 <= y
      modifies this
      ensures Valid()
      ensures Editing(squares, selected) == Click(old(Editing(squares, selected)), x, y, button)
    {
      var clicked := SquareFromMouse(x, y);
      if clicked.Some? {
        var sq := clicked.value;
        if button == LeftButton {
          if selected.None? {
            if squares[sq].Some? {
              selected := Some(sq);
            }
          } else {
            if sq != selected.value {
              squares := squares[sq := squares[selected.value]];
              squares := squares[selected.value := None];
            }
            selected := None;
          }
        } else if button == RightButton {
          squares := squares[sq := None];
        }
      }
    }
  }
}
