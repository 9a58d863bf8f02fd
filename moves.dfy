/** One side's pieces and moves, and the effect of a move on a copy of the board. The MCTS, GRAVE
    and random players each define `get_pieces` with the same body. The MCTS and GRAVE nodes define
    `get_all_moves` with the same body, and the random player's `move` enumerates the same list
    inline. The MCTS and GRAVE players define `simulate_move` and `deepcopy_grid` with the same
    body. */
module Moves {
  import opened Wrappers
  import opened Seqs
  import opened Board

  /** A move as the source's pair (from_cor, to_cor). */
  datatype Move = Move(src: Coord, dst: Coord)

  /** The cell holds a piece of `name`. */
  predicate Owns(g: Grid, name: Name, c: Coord)
  {
    c in g.cells && g.cells[c] == Some(name)
  }

  /** The cells of `order` that hold a piece of `name`, kept in the order of `order`. */
  function Owned(order: seq<Coord>, g: Grid, name: Name): (ps: seq<Coord>)
    ensures |ps| <= |order|
    ensures forall c :: c in ps <==> c in order && Owns(g, name, c)
    ensures Distinct(order) ==> Distinct(ps)
  {
    if order == [] then []
    else
      var rest := Owned(order[1..], g, name);
      assert order == [order[0]] + order[1..];
      assert Distinct(order) ==> order[0] !in order[1..] && Distinct(order[1..]) by {
        if Distinct(order) {
          forall k | 0 <= k < |order[1..]| ensures order[1..][k] != order[0] {
            assert order[1..][k] == order[k + 1];
          }
        }
      }
      if Owns(g, name, order[0]) then [order[0]] + rest else rest
  }

  /** The cells holding `name`'s pieces, in the dictionary's iteration order (`get_pieces`, and the
      same comprehension inside `get_all_moves` and `default_policy`). */
  function Pieces(g: Grid, name: Name): (ps: seq<Coord>)
    ensures g.WellFormed() ==> (forall c :: c in ps <==> Owns(g, name, c))
    ensures g.WellFormed() ==> Distinct(ps)
  {
    Owned(g.order, g, name)
  }

  /** The moves of one piece, one per landing cell, in landing-cell order: exactly the moves from
      `piece` to a cell of `tos`, each once when `tos` has no repeats. */
  function MovesFrom(piece: Coord, tos: seq<Coord>): (ms: seq<Move>)
    ensures |ms| == |tos|
    ensures forall k :: 0 <= k < |ms| ==> ms[k] == Move(piece, tos[k])
    ensures forall m :: m in ms <==> m.src == piece && m.dst in tos
    ensures Distinct(tos) ==> Distinct(ms)
  {
    var ms := seq(|tos|, k requires 0 <= k < |tos| => Move(piece, tos[k]));
    assert forall m: Move :: m.src == piece && m.dst in tos ==> m in ms by {
      forall m: Move | m.src == piece && m.dst in tos ensures m in ms {
        var k :| 0 <= k < |tos| && tos[k] == m.dst;
        assert ms[k] == m;
      }
    }
    ms
  }

  /** The moves of `pieces` in `g`, piece by piece, each piece's landing cells in axis order. */
  function MovesOf(pieces: seq<Coord>, g: Grid): (ms: seq<Move>)
    ensures |ms| <= 6 * |pieces|
  {
    if pieces == [] then []
    else
      var last := pieces[|pieces| - 1];
      MovesOf(pieces[..|pieces| - 1], g) + MovesFrom(last, PossibleCors(last, g))
  }

  /** A listed move starts on one of `pieces` and lands on one of its landing cells; every such
      move is listed, and only once when `pieces` has no duplicates. */
  lemma {:induction false} MovesOfMembers(pieces: seq<Coord>, g: Grid)
    ensures forall m :: m in MovesOf(pieces, g) <==> m.src in pieces && m.dst in PossibleCors(m.src, g)
    ensures Distinct(pieces) ==> Distinct(MovesOf(pieces, g))
  {
    if pieces != [] {
      var init, last := pieces[..|pieces| - 1], pieces[|pieces| - 1];
      assert pieces == init + [last];
      MovesOfMembers(init, g);
      var before, here := MovesOf(init, g), MovesFrom(last, PossibleCors(last, g));
      PossibleCorsSpec(last, g);
      if Distinct(pieces) {
        DistinctInit(pieces);
        DistinctConcat(before, here);
      }
    }
  }

  lemma DistinctConcat<T>(a: seq<T>, b: seq<T>)
    requires Distinct(a) && Distinct(b)
    requires forall x :: x in a ==> x !in b
    ensures Distinct(a + b)
  {
    forall i, j | 0 <= i < j < |a + b| ensures (a + b)[i] != (a + b)[j] {
      if i < |a| && |a| <= j {
        assert (a + b)[i] in a && (a + b)[j] == b[j - |a|];
      }
    }
  }

  lemma MovesFromSnoc(piece: Coord, tos: seq<Coord>, j: nat)
    requires j < |tos|
    ensures MovesFrom(piece, tos[..j + 1]) == MovesFrom(piece, tos[..j]) + [Move(piece, tos[j])]
  {
  }

  lemma AppendAssoc<T>(a: seq<T>, b: seq<T>, x: T)
    ensures a + b + [x] == a + (b + [x])
  {
  }

  lemma MovesOfSnoc(pieces: seq<Coord>, i: nat, g: Grid)
    requires i < |pieces|
    ensures MovesOf(pieces[..i + 1], g) ==
      MovesOf(pieces[..i], g) + MovesFrom(pieces[i], PossibleCors(pieces[i], g))
  {
    assert pieces[..i + 1][..i] == pieces[..i];
  }

  /** Every move of `name` in `g` (`get_all_moves`), piece by piece in iteration order; a piece
      has at most six moves, one per axis. */
  function AllMoves(g: Grid, name: Name): (ms: seq<Move>)
    ensures |ms| <= 6 * |Pieces(g, name)|
  {
    MovesOf(Pieces(g, name), g)
  }

  /** A move of `name` starts on one of `name`'s pieces and lands where the jump rule allows; each
      such move is listed, and only once. */
  lemma AllMovesSpec(g: Grid, name: Name)
    requires g.WellFormed()
    ensures forall m :: m in AllMoves(g, name) <==> Owns(g, name, m.src) && LegalJump(g, m.src, m.dst)
    ensures Distinct(AllMoves(g, name))
  {
    MovesOfMembers(Pieces(g, name), g);
    forall m: Move ensures m.dst in PossibleCors(m.src, g) <==> LegalJump(g, m.src, m.dst) {
      PossibleCorsSpec(m.src, g);
    }
  }

  /** The loops of `get_all_moves`: for each piece in iteration order, append a move per landing
      cell. */
  method GetAllMoves(g: Grid, name: Name) returns (moves: seq<Move>)
    ensures moves == AllMoves(g, name)
  {
    var pieces := Pieces(g, name);
    moves := [];
    var i := 0;
    while i < |pieces|
      invariant 0 <= i <= |pieces|
      invariant moves == MovesOf(pieces[..i], g)
    {
      moves := AppendMoves(moves, pieces[i], PossibleCors(pieces[i], g));
      MovesOfSnoc(pieces, i, g);
      i := i + 1;
    }
    assert pieces[..i] == pieces;
  }

  /** The inner loop of `get_all_moves`: one move per landing cell of `piece`, appended in order. */
  method AppendMoves(moves: seq<Move>, piece: Coord, tos: seq<Coord>) returns (moves': seq<Move>)
    ensures moves' == moves + MovesFrom(piece, tos)
  {
    moves' := moves;
    var j := 0;
    while j < |tos|
      invariant 0 <= j <= |tos|
      invariant moves' == moves + MovesFrom(piece, tos[..j])
    {
      MovesFromSnoc(piece, tos, j);
      AppendAssoc(moves, MovesFrom(piece, tos[..j]), Move(piece, tos[j]));
      moves' := moves' + [Move(piece, tos[j])];
      j := j + 1;
    }
    assert tos[..j] == tos;
  }

  /** `simulate_move` on a copy of the board: the destination takes the source's occupant and the
      source is emptied. Looking up a cell the board lacks raises KeyError; the source cell is
      looked up first. The dictionary keeps its keys and iteration order. */
  function SimulateMove(g: Grid, m: Move): (r: Result<Grid>)
    ensures r.Raised? <==> m.src !in g.cells || m.dst !in g.cells
    ensures r.Raised? ==> r.error == KeyError
    ensures r.Ok? ==> r.value.order == g.order && r.value.cells.Keys == g.cells.Keys
    ensures r.Ok? ==> r.value.cells[m.src] == None
    ensures r.Ok? && m.src != m.dst ==> r.value.cells[m.dst] == g.cells[m.src]
    ensures r.Ok? ==> forall c :: c in g.cells && c != m.src && c != m.dst ==> r.value.cells[c] == g.cells[c]
  {
    if m.src !in g.cells || m.dst !in g.cells then Raised(KeyError)
    else Ok(Grid(g.order, g.cells[m.dst := g.cells[m.src]][m.src := None]))
  }

  /** A simulated move keeps the board a well-formed dictionary. */
  lemma SimulateMoveWellFormed(g: Grid, m: Move)
    requires g.WellFormed() && SimulateMove(g, m).Ok?
    ensures SimulateMove(g, m).value.WellFormed()
  {
  }

  /** A legal move of `name` relocates exactly one of `name`'s pieces: afterwards `name` owns the
      same cells except that the source is replaced by the destination, so the number of pieces is
      unchanged, and no other cell changes hands. */
  lemma {:induction false} SimulateLegalMove(g: Grid, name: Name, m: Move)
    requires g.WellFormed() && m in AllMoves(g, name)
    ensures SimulateMove(g, m).Ok?
    ensures var g' := SimulateMove(g, m).value;
      (forall c :: Owns(g', name, c) <==> (Owns(g, name, c) && c != m.src) || c == m.dst) &&
      |Pieces(g', name)| == |Pieces(g, name)|
  {
    AllMovesSpec(g, name);
    assert Owns(g, name, m.src) && LegalJump(g, m.src, m.dst);
    var i :| 0 <= i < 6 && JumpAlong(g, m.src, m.dst, i);
    NoJumpToSelf(g, m.src);
    assert Vacant(g, m.dst) && m.src != m.dst;
    Relocate(g, name, m);
  }

  lemma Relocate(g: Grid, name: Name, m: Move)
    requires g.WellFormed() && Owns(g, name, m.src) && Vacant(g, m.dst) && m.src != m.dst
    ensures SimulateMove(g, m).Ok?
    ensures var g' := SimulateMove(g, m).value;
      (forall c :: Owns(g', name, c) <==> (Owns(g, name, c) && c != m.src) || c == m.dst) &&
      |Pieces(g', name)| == |Pieces(g, name)|
  {
    var g' := SimulateMove(g, m).value;
    SimulateMoveWellFormed(g, m);
    var before, after := set c | c in Pieces(g, name), set c | c in Pieces(g', name);
    assert after == before - {m.src} + {m.dst};
    DistinctCardinality(Pieces(g, name));
    DistinctCardinality(Pieces(g', name));
  }
}
