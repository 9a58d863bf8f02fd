/** The random player (`RandomPlayer`): it lists every move of its side and picks one of them. */
module Random {
  import opened Wrappers
  import opened Board
  import opened Moves

  /** The player's settings: its side, its goal corner and the number of pieces home that wins. */
  datatype RandomPlayer = RandomPlayer(name: Name, corner: seq<Coord>, winThreshold: int)

  /** `move`: for each of the side's pieces in iteration order, the moves to each of its landing
      cells are appended; then one of them is picked (`random.choice`, modelled as an arbitrary
      choice). With no move at all `random.choice` raises IndexError. */
  method Move(p: RandomPlayer, grid: Grid) returns (r: Result<Move>, moves: seq<Move>)
    ensures moves == AllMoves(grid, p.name)
    ensures r.Raised? <==> moves == []
    ensures r.Raised? ==> r.error == IndexError
    ensures r.Ok? ==> r.value in moves
  {
    var pieces := Pieces(grid, p.name);
    moves := [];
    var i := 0;
    while i < |pieces|
      invariant 0 <= i <= |pieces|
      invariant moves == MovesOf(pieces[..i], grid)
    {
      var cors := PossibleCors(pieces[i], grid);
      moves := moves + MovesFrom(pieces[i], cors);
      MovesOfSnoc(pieces, i, grid);
      i := i + 1;
    }
    assert pieces[..i] == pieces;
    if moves == [] {
      return Raised(IndexError), moves;
    }
    assert moves[0] in moves;
    var m :| m in moves;
    r := Ok(m);
  }

  /** On a well-formed board the picked move takes one of the side's pieces to a cell the jump
      rule allows, and leaves the side with as many pieces as before. */
  lemma PickedMoveLegal(p: RandomPlayer, grid: Grid, m: Moves.Move)
    requires grid.WellFormed() && m in AllMoves(grid, p.name)
    ensures Owns(grid, p.name, m.src) && LegalJump(grid, m.src, m.dst)
    ensures SimulateMove(grid, m).Ok? && |Pieces(SimulateMove(grid, m).value, p.name)| == |Pieces(grid, p.name)|
  {
    AllMovesSpec(grid, p.name);
    SimulateLegalMove(grid, p.name, m);
  }
}
