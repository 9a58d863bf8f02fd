/** The human player (`HumanPlayer`): a click selects one of the side's pieces, a second click on
    it drops the selection, and a click on a cell the selected piece can jump to proposes a move. */
module Human {
  import opened Wrappers
  import opened Board
  import opened Moves

  class HumanPlayer {
    const name: Name
    const corner: seq<Coord>
    const winThreshold: int
    /** The piece picked by an earlier click, if any. */
    var selectedPiece: Option<Coord>

    constructor(name: Name, corner: seq<Coord>, winThreshold: int)
      ensures this.name == name && this.corner == corner && this.winThreshold == winThreshold
      ensures selectedPiece == None
    {
      this.name := name;
      this.corner := corner;
      this.winThreshold := winThreshold;
      selectedPiece := None;
    }

    /** `reset_selected_piece`. */
    method ResetSelectedPiece()
      modifies this
      ensures selectedPiece == None
    {
      selectedPiece := None;
    }

    /** `check_move`: a piece is selected, the click is elsewhere, and the clicked cell is one the
        selected piece can jump to. */
    predicate CheckMove(clicked: Coord, grid: Grid): (ok: bool)
      reads this
      ensures ok <==>
        selectedPiece.Some? && selectedPiece.value != clicked && LegalJump(grid, selectedPiece.value, clicked)
    {
      if selectedPiece.Some? && selectedPiece.value != clicked then
        PossibleCorsLegal(selectedPiece.value, grid, clicked);
        clicked in PossibleCors(selectedPiece.value, grid)
      else false
    }

    /** `move`, for one click (`None` when the click hit no cell). It answers the pair
        (selected piece, target): without a selection, a click on one of the side's pieces selects
        it, and a click on a cell the board lacks raises KeyError; a click on the selected piece
        drops the selection; a click on a cell the selected piece can jump to proposes the move and
        keeps the selection; any other click changes nothing. */
    method Move(clicked: Option<Coord>, grid: Grid) returns (r: Result<(Option<Coord>, Option<Coord>)>)
      modifies this
      ensures r.Raised? <==> old(selectedPiece).None? && clicked.Some? && clicked.value !in grid.cells
      ensures r.Raised? ==> r.error == KeyError && selectedPiece == old(selectedPiece)
      ensures r.Ok? ==> r.value.0 == selectedPiece
      ensures selectedPiece != old(selectedPiece) ==>
        clicked.Some? &&
        ((old(selectedPiece).None? && Owns(grid, name, clicked.value) && selectedPiece == clicked) ||
         (old(selectedPiece) == clicked && selectedPiece == None))
      ensures old(selectedPiece).None? && clicked.Some? && Owns(grid, name, clicked.value) ==> selectedPiece == clicked
      ensures old(selectedPiece).Some? && old(selectedPiece) == clicked ==> selectedPiece == None
      ensures r.Ok? && r.value.1.Some? <==>
        clicked.Some? && old(selectedPiece).Some? && old(selectedPiece).value != clicked.value &&
        LegalJump(grid, old(selectedPiece).value, clicked.value)
      ensures r.Ok? && r.value.1.Some? ==> r.value.1 == clicked
    {
      r := Ok((selectedPiece, None));
      if clicked.Some? {
        var c := clicked.value;
        if selectedPiece.None? {
          if c !in grid.cells {
            return Raised(KeyError);
          }
          if grid.cells[c] == Some(name) {
            selectedPiece := clicked;
            r := Ok((clicked, None));
          }
        } else if selectedPiece == clicked {
          selectedPiece := None;
          r := Ok((None, None));
        } else if CheckMove(c, grid) {
          r := Ok((selectedPiece, clicked));
        }
      }
    }
  }

  /** A move proposed by clicks, from one of the side's own pieces, is one the search players
      list for that side as well. */
  lemma ProposedMoveListed(grid: Grid, name: Name, src: Coord, dst: Coord)
    requires grid.WellFormed() && Owns(grid, name, src) && LegalJump(grid, src, dst)
    ensures Moves.Move(src, dst) in AllMoves(grid, name)
  {
    AllMovesSpec(grid, name);
  }
}
