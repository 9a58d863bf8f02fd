/** Progress towards the goal corner, as the players measure it: `hex_distance`, the nearest goal
    cell, `is_terminal`, `get_n_pieces_corner`, `check_win`, and the two rollout-free rewards of
    `default_policy` (MCTS and GRAVE). */
module Goals {
  import opened Wrappers
  import opened Seqs
  import opened Board
  import opened Moves

  function Abs(x: int): nat
  {
    if x < 0 then -x else x
  }

  /** `hex_distance`: the number of single steps between two cells of the hex grid, computed from
      the three axial differences and halved with floor division. */
  function HexDistance(a: Coord, b: Coord): (d: nat)
    ensures d == 0 <==> a == b
  {
    (Abs(a.q - b.q) + Abs(a.r - b.r) + Abs((a.q + a.r) - (b.q + b.r))) / 2
  }

  function Max3(x: nat, y: nat, z: nat): nat
  {
    if x >= y && x >= z then x else if y >= z then y else z
  }

  /** The halving is exact: the distance is the largest of the three cube-coordinate differences. */
  lemma HexDistanceIsMax(a: Coord, b: Coord)
    ensures HexDistance(a, b) == Max3(Abs(a.q - b.q), Abs(a.r - b.r), Abs((a.q - b.q) + (a.r - b.r)))
  {
  }

  lemma HexDistanceSymmetric(a: Coord, b: Coord)
    ensures HexDistance(a, b) == HexDistance(b, a)
  {
  }

  lemma HexDistanceTriangle(a: Coord, b: Coord, c: Coord)
    ensures HexDistance(a, c) <= HexDistance(a, b) + HexDistance(b, c)
  {
    HexDistanceIsMax(a, b);
    HexDistanceIsMax(b, c);
    HexDistanceIsMax(a, c);
    CubeTriangle(a, b, c);
  }

  lemma CubeTriangle(a: Coord, b: Coord, c: Coord)
    ensures Max3(Abs(a.q - c.q), Abs(a.r - c.r), Abs((a.q - c.q) + (a.r - c.r))) <=
            Max3(Abs(a.q - b.q), Abs(a.r - b.r), Abs((a.q - b.q) + (a.r - b.r))) +
            Max3(Abs(b.q - c.q), Abs(b.r - c.r), Abs((b.q - c.q) + (b.r - c.r)))
  {
    var m1 := Max3(Abs(a.q - b.q), Abs(a.r - b.r), Abs((a.q - b.q) + (a.r - b.r)));
    var m2 := Max3(Abs(b.q - c.q), Abs(b.r - c.r), Abs((b.q - c.q) + (b.r - c.r)));
    assert Abs(a.q - c.q) <= m1 + m2;
    assert Abs(a.r - c.r) <= m1 + m2;
    assert Abs((a.q - c.q) + (a.r - c.r)) <= m1 + m2;
  }

  /** Each cell of get_cors_by_distance(p, d) is d steps from p; a jump covers two steps. */
  lemma HexDistanceAlongAxis(p: Coord, i: nat, d: int)
    requires i < 6
    ensures HexDistance(p, CorsByDistance(p, d)[i]) == Abs(d)
  {
  }

  /** The distance from `p` to the nearest cell of a non-empty `corner`, what `min(...)` over the
      goal cells computes. */
  function MinDistance(p: Coord, corner: seq<Coord>): (d: nat)
    requires corner != []
    ensures forall c :: c in corner ==> d <= HexDistance(p, c)
    ensures exists k :: 0 <= k < |corner| && d == HexDistance(p, corner[k])
  {
    if |corner| == 1 then HexDistance(p, corner[0])
    else
      var rest := MinDistance(p, corner[1..]);
      assert forall c :: c in corner[1..] ==> c in corner;
      assert forall k :: 0 < k < |corner| ==> corner[k] == corner[1..][k - 1];
      if HexDistance(p, corner[0]) <= rest then HexDistance(p, corner[0]) else rest
  }

  /** A piece is at distance 0 from the goal exactly when it stands on a goal cell. */
  lemma MinDistanceZero(p: Coord, corner: seq<Coord>)
    requires corner != []
    ensures MinDistance(p, corner) == 0 <==> p in corner
  {
  }

  /** The sum of the pieces' distances to the goal, in piece order. */
  function TotalDistance(pieces: seq<Coord>, corner: seq<Coord>): nat
    requires corner != []
  {
    if pieces == [] then 0
    else TotalDistance(pieces[..|pieces| - 1], corner) + MinDistance(pieces[|pieces| - 1], corner)
  }

  /** The total distance is 0 exactly when every piece stands on a goal cell. */
  lemma {:induction false} TotalDistanceZero(pieces: seq<Coord>, corner: seq<Coord>)
    requires corner != []
    ensures TotalDistance(pieces, corner) == 0 <==> forall p :: p in pieces ==> p in corner
  {
    if pieces != [] {
      var init, last := pieces[..|pieces| - 1], pieces[|pieces| - 1];
      assert pieces == init + [last];
      TotalDistanceZero(init, corner);
      MinDistanceZero(last, corner);
    }
  }

  /** `is_terminal`: every piece of `name` stands in the goal corner (true when it has none). On
      a well-formed board: every cell `name` owns is a goal cell. */
  function IsTerminal(g: Grid, name: Name, corner: seq<Coord>): (t: bool)
    ensures g.WellFormed() ==> (t <==> forall c :: Owns(g, name, c) ==> c in corner)
  {
    forall p :: p in Pieces(g, name) ==> p in corner
  }

  /** A position the search cannot leave: `name` is not home and has no move. */
  predicate Stuck(g: Grid, name: Name, corner: seq<Coord>)
  {
    !IsTerminal(g, name, corner) && AllMoves(g, name) == []
  }

  /** How many of `pieces` stand in `corner`. */
  function CountIn(pieces: seq<Coord>, corner: seq<Coord>): (n: nat)
    ensures n <= |pieces|
    ensures n == |pieces| <==> forall p :: p in pieces ==> p in corner
  {
    if pieces == [] then 0
    else
      assert forall p :: p in pieces[1..] ==> p in pieces;
      assert pieces == [pieces[0]] + pieces[1..];
      (if pieces[0] in corner then 1 else 0) + CountIn(pieces[1..], corner)
  }

  /** The cells of `pieces` that lie in `corner`. */
  function InCorner(pieces: seq<Coord>, corner: seq<Coord>): set<Coord>
  {
    set p | p in pieces && p in corner
  }

  /** Counting along a list without repeats counts the distinct pieces in the corner. */
  lemma {:induction false} CountInSet(pieces: seq<Coord>, corner: seq<Coord>)
    requires Distinct(pieces)
    ensures CountIn(pieces, corner) == |InCorner(pieces, corner)|
  {
    if pieces != [] {
      var rest := pieces[1..];
      assert Distinct(rest) by {
        forall i, j | 0 <= i < j < |rest| ensures rest[i] != rest[j] {
          assert rest[i] == pieces[i + 1] && rest[j] == pieces[j + 1];
        }
      }
      assert pieces[0] !in rest by {
        forall k | 0 <= k < |rest| ensures rest[k] != pieces[0] {
          assert rest[k] == pieces[k + 1];
        }
      }
      CountInSet(rest, corner);
      assert pieces == [pieces[0]] + rest;
      if pieces[0] in corner {
        assert InCorner(pieces, corner) == InCorner(rest, corner) + {pieces[0]};
      } else {
        assert InCorner(pieces, corner) == InCorner(rest, corner);
      }
    }
  }

  /** `get_n_pieces_corner`: the number of `name`'s pieces in the goal corner. On a well-formed
      board it is the number of goal cells `name` owns. No more pieces are home than `name` has,
      and all of them are exactly when the position is terminal. */
  function PiecesInCorner(g: Grid, name: Name, corner: seq<Coord>): (n: nat)
    ensures g.WellFormed() ==> n == |set c | c in corner && Owns(g, name, c)|
    ensures n <= |Pieces(g, name)|
    ensures n == |Pieces(g, name)| <==> IsTerminal(g, name, corner)
  {
    var ps := Pieces(g, name);
    assert g.WellFormed() ==> CountIn(ps, corner) == |set c | c in corner && Owns(g, name, c)| by {
      if g.WellFormed() {
        CountInSet(ps, corner);
        assert InCorner(ps, corner) == set c | c in corner && Owns(g, name, c);
      }
    }
    CountIn(ps, corner)
  }

  /** `check_win` (random and human players): at least `winThreshold` pieces are home. With the
      threshold at the side's piece count, winning is reaching a terminal position; a threshold
      above it is never reached, and one of 0 or less always is. */
  function CheckWin(g: Grid, name: Name, corner: seq<Coord>, winThreshold: int): (w: bool)
    ensures winThreshold == |Pieces(g, name)| ==> (w <==> IsTerminal(g, name, corner))
    ensures winThreshold > |Pieces(g, name)| ==> !w
    ensures winThreshold <= 0 ==> w
  {
    PiecesInCorner(g, name, corner) >= winThreshold
  }

  /** The loop of `default_policy` (MCTS and GRAVE): each piece's distance to its nearest goal cell, summed. */
  method SumDistances(pieces: seq<Coord>, corner: seq<Coord>) returns (total: Result<nat>)
    ensures pieces != [] && corner == [] <==> total.Raised?
    ensures total.Raised? ==> total.error == ValueError
    ensures total.Ok? && pieces != [] ==> total.value == TotalDistance(pieces, corner)
    ensures total.Ok? && pieces == [] ==> total.value == 0
  {
    var sum: nat := 0;
    var i := 0;
    while i < |pieces|
      invariant 0 <= i <= |pieces|
      invariant i > 0 ==> corner != []
      invariant i == 0 ==> sum == 0
      invariant corner != [] ==> sum == TotalDistance(pieces[..i], corner)
    {
      if corner == [] {
        return Raised(ValueError);
      }
      assert pieces[..i + 1][..i] == pieces[..i];
      sum := sum + MinDistance(pieces[i], corner);
      i := i + 1;
    }
    assert pieces[..i] == pieces;
    total := Ok(sum);
  }

  /** The constant 1e-6 added to the MCTS denominator. */
  const Epsilon: real := 0.000001

  /** The MCTS `default_policy`: 0 without pieces; otherwise the inverse of the average distance
      to the goal plus 1e-6. With pieces and an empty goal list, `min` raises ValueError. */
  ghost function MctsReward(g: Grid, name: Name, corner: seq<Coord>): Result<real>
  {
    var pieces := Pieces(g, name);
    if pieces == [] then Ok(0.0)
    else if corner == [] then Raised(ValueError)
    else Ok(1.0 / ((TotalDistance(pieces, corner) as real) / (|pieces| as real) + Epsilon))
  }

  /** The MCTS reward is positive with pieces, and reaches its largest value, 1/1e-6, exactly at a
      terminal position. */
  lemma MctsRewardRange(g: Grid, name: Name, corner: seq<Coord>)
    requires MctsReward(g, name, corner).Ok? && Pieces(g, name) != []
    ensures 0.0 < MctsReward(g, name, corner).value <= 1000000.0
    ensures MctsReward(g, name, corner).value == 1000000.0 <==> IsTerminal(g, name, corner)
  {
    var pieces := Pieces(g, name);
    var avg := (TotalDistance(pieces, corner) as real) / (|pieces| as real);
    TotalDistanceZero(pieces, corner);
    InverseBound(avg, Epsilon);
  }

  /** The GRAVE `default_policy`: 0 without pieces; otherwise 1 / (1 + average distance). */
  ghost function GraveReward(g: Grid, name: Name, corner: seq<Coord>): Result<real>
  {
    var pieces := Pieces(g, name);
    if pieces == [] then Ok(0.0)
    else if corner == [] then Raised(ValueError)
    else Ok(1.0 / (1.0 + (TotalDistance(pieces, corner) as real) / (|pieces| as real)))
  }

  /** The GRAVE reward lies in (0, 1] with pieces, and is 1 exactly at a terminal position. */
  lemma GraveRewardRange(g: Grid, name: Name, corner: seq<Coord>)
    requires GraveReward(g, name, corner).Ok? && Pieces(g, name) != []
    ensures 0.0 < GraveReward(g, name, corner).value <= 1.0
    ensures GraveReward(g, name, corner).value == 1.0 <==> IsTerminal(g, name, corner)
  {
    var pieces := Pieces(g, name);
    var avg := (TotalDistance(pieces, corner) as real) / (|pieces| as real);
    TotalDistanceZero(pieces, corner);
    InverseBound(avg, 1.0);
  }

  /** For x >= 0 and e > 0: 0 < 1/(x + e) <= 1/e, with equality exactly at x = 0. */
  lemma InverseBound(x: real, e: real)
    requires x >= 0.0 && e > 0.0
    ensures 0.0 < 1.0 / (x + e) <= 1.0 / e
    ensures 1.0 / (x + e) == 1.0 / e <==> x == 0.0
  {
    if x > 0.0 {
      assert (x + e) * (1.0 / (x + e)) == 1.0;
      assert e * (1.0 / e) == 1.0;
    }
  }
}
