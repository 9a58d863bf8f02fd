/** The search tree shared by the MCTS and GRAVE players: the node record (`MCTSNode`,
    `GRAVENode`), the lazily cached move list (`is_fully_expanded`) and node expansion (`expand`).
    Both node classes and both `expand` methods have the same body; the GRAVE node only adds its
    AMAF tables, carried here in the `stats` field.

    The nodes of one search live in one arena, `Tree.nodes`; a node is named by its index and a
    parent always has a smaller index than its children. */
module SearchTree {
  import opened Wrappers
  import opened Seqs
  import opened Board
  import opened Moves
  import opened Goals

  /** A search node: the board it stands for, the node and move it was reached by (none at the
      root), its children in creation order, its statistics and the cached move list, `None` until
      first needed. */
  datatype Node<X> = Node(
    state: Grid,
    parent: Option<nat>,
    move: Option<Move>,
    children: seq<nat>,
    visits: nat,
    totalReward: real,
    untriedMoves: Option<seq<Move>>,
    stats: X)

  /** A fresh node as the constructor leaves it. */
  function NewNode<X>(state: Grid, parent: Option<nat>, move: Option<Move>, stats: X): Node<X>
  {
    Node(state, parent, move, [], 0, 0.0, None, stats)
  }

  /** `c` is a child of `i`: it was reached from `i` by one of the side's legal moves, and its
      board is the result of that move. */
  ghost predicate ChildOf<X>(ns: seq<Node<X>>, side: Name, i: nat, c: nat)
    requires i < c < |ns|
  {
    ns[c].parent == Some(i) && ns[c].move.Some? &&
    ns[c].move.value in AllMoves(ns[i].state, side) &&
    SimulateMove(ns[i].state, ns[c].move.value) == Ok(ns[c].state)
  }

  /** The moves of node `i`'s children, in order (`tried_moves`): a move is tried exactly when
      some child of `i` was reached by it. */
  function Tried<X>(ns: seq<Node<X>>, i: nat): (t: seq<Option<Move>>)
    requires i < |ns|
    ensures |t| == |ns[i].children|
    ensures forall k :: 0 <= k < |t| ==>
      t[k] == if ns[i].children[k] < |ns| then ns[ns[i].children[k]].move else None
    ensures forall m :: Some(m) in t <==> exists c :: c in ns[i].children && c < |ns| && ns[c].move == Some(m)
  {
    var ch := ns[i].children;
    var t := seq(|ch|, k requires 0 <= k < |ch| => if ch[k] < |ns| then ns[ch[k]].move else None);
    assert forall m :: (exists c :: c in ch && c < |ns| && ns[c].move == Some(m)) ==> Some(m) in t by {
      forall m | exists c :: c in ch && c < |ns| && ns[c].move == Some(m) ensures Some(m) in t {
        var c :| c in ch && c < |ns| && ns[c].move == Some(m);
        var k :| 0 <= k < |ch| && ch[k] == c;
        assert t[k] == Some(m);
      }
    }
    t
  }

  /** Some node of the search stands for a position the side cannot leave (`Stuck`). */
  ghost predicate HasStuck<X>(ns: seq<Node<X>>, side: Name, corner: seq<Coord>)
  {
    exists j :: 0 <= j < |ns| && Stuck(ns[j].state, side, corner)
  }

  /** Node `i` is consistent: its board is a well-formed dictionary, it lies after its parent, its
      children are real children reached by pairwise different moves, and its cached move list,
      once filled, is the side's move list; a node has no children before its list is filled. */
  ghost predicate NodeOk<X>(ns: seq<Node<X>>, side: Name, i: nat)
    requires i < |ns|
  {
    var n := ns[i];
    n.state.WellFormed() &&
    (i == 0 <==> n.parent.None?) &&
    (n.parent.Some? ==> n.parent.value < i) &&
    (forall k :: 0 <= k < |n.children| ==> i < n.children[k] < |ns| && ChildOf(ns, side, i, n.children[k])) &&
    Distinct(Tried(ns, i)) &&
    (n.untriedMoves.None? ==> n.children == []) &&
    (n.untriedMoves.Some? ==> n.untriedMoves.value == AllMoves(n.state, side))
  }

  ghost predicate TreeOk<X>(ns: seq<Node<X>>, side: Name)
  {
    |ns| > 0 && forall i :: 0 <= i < |ns| ==> NodeOk(ns, side, i)
  }

  /** The fields that tie a node to the rest of the tree and never change once it exists. */
  predicate Frame<X>(a: Node<X>, b: Node<X>)
  {
    a.state == b.state && a.parent == b.parent && a.move == b.move
  }

  /** A node stays consistent when no node's frame changes, its own children stay the same and its
      move list stays the same or gets filled. */
  lemma NodeOkKept<X>(ns: seq<Node<X>>, ns': seq<Node<X>>, side: Name, j: nat)
    requires j < |ns| <= |ns'| && NodeOk(ns, side, j)
    requires forall c :: 0 <= c < |ns| ==> Frame(ns[c], ns'[c])
    requires ns'[j].children == ns[j].children
    requires ns'[j].untriedMoves == ns[j].untriedMoves ||
             ns'[j].untriedMoves == Some(AllMoves(ns[j].state, side))
    ensures NodeOk(ns', side, j)
  {
    assert Tried(ns', j) == Tried(ns, j);
    forall k | 0 <= k < |ns[j].children| ensures ChildOf(ns', side, j, ns[j].children[k]) {
      assert ChildOf(ns, side, j, ns[j].children[k]);
      ChildOfFrame(ns, ns', side, j, ns[j].children[k]);
    }
  }

  /** Whether `c` is a child of `i` depends only on the two nodes' frames. */
  lemma ChildOfFrame<X>(ns: seq<Node<X>>, ns': seq<Node<X>>, side: Name, i: nat, c: nat)
    requires i < c < |ns| && c < |ns'| && ChildOf(ns, side, i, c)
    requires Frame(ns[i], ns'[i]) && Frame(ns[c], ns'[c])
    ensures ChildOf(ns', side, i, c)
  {
  }

  /** Updating statistics keeps the tree consistent. */
  lemma StatsOnly<X>(ns: seq<Node<X>>, ns': seq<Node<X>>, side: Name)
    requires TreeOk(ns, side) && |ns'| == |ns|
    requires forall j :: 0 <= j < |ns| ==>
      Frame(ns[j], ns'[j]) && ns'[j].children == ns[j].children && ns'[j].untriedMoves == ns[j].untriedMoves
    ensures TreeOk(ns', side)
  {
    forall j | 0 <= j < |ns| ensures NodeOk(ns', side, j) {
      NodeOkKept(ns, ns', side, j);
    }
  }

  /** The moves of `all` that no child has been created for (`untried` in `expand`). */
  function Pending(all: seq<Move>, tried: seq<Option<Move>>): (r: seq<Move>)
    ensures forall m :: m in r <==> m in all && Some(m) !in tried
  {
    if all == [] then []
    else if Some(all[0]) in tried then Pending(all[1..], tried)
    else [all[0]] + Pending(all[1..], tried)
  }

  /** Every move as an option, to compare against `tried`. */
  function Lift(all: seq<Move>): (r: seq<Option<Move>>)
    ensures |r| == |all|
    ensures forall k :: 0 <= k < |r| ==> r[k] == Some(all[k])
  {
    seq(|all|, k requires 0 <= k < |all| => Some(all[k]))
  }

  /** With duplicate-free move lists and children reached only by listed moves, `is_fully_expanded`
      (as many children as moves) holds exactly when no move is pending. */
  lemma FullIffNonePending(all: seq<Move>, tried: seq<Option<Move>>)
    requires Distinct(all) && Distinct(tried)
    requires forall t :: t in tried ==> t.Some? && t.value in all
    ensures |tried| <= |all|
    ensures |tried| >= |all| <==> Pending(all, tried) == []
  {
    var lifted := Lift(all);
    assert Distinct(lifted) by {
      forall i, j | 0 <= i < j < |lifted| ensures lifted[i] != lifted[j] {
        assert all[i] != all[j];
      }
    }
    var triedSet, allSet := set t | t in tried, set t | t in lifted;
    DistinctCardinality(tried);
    DistinctCardinality(lifted);
    assert triedSet <= allSet by {
      forall t | t in triedSet ensures t in allSet {
        var k :| 0 <= k < |all| && all[k] == t.value;
        assert lifted[k] == t;
      }
    }
    SubsetCardinality(triedSet, allSet);
    if |tried| < |all| {
      MissingElement(lifted, tried);
      var x :| x in lifted && x !in tried;
      assert x.value in Pending(all, tried);
    } else if Pending(all, tried) != [] {
      var m := Pending(all, tried)[0];
      assert Some(m) in allSet - triedSet;
      SubsetCardinality(triedSet, allSet - {Some(m)});
    } else {
      assert allSet <= triedSet;
      SubsetCardinality(allSet, triedSet);
    }
  }

  /** One search: the arena of nodes, and the side the search plays for. */
  class Tree<X> {
    var nodes: seq<Node<X>>
    const side: Name

    ghost predicate Valid()
      reads this
    {
      TreeOk(nodes, side)
    }

    /** The root node, over a copy of the board (`deepcopy_grid`: a value needs no copying). */
    constructor (grid: Grid, side: Name, stats: X)
      requires grid.WellFormed()
      ensures Valid() && this.side == side
      ensures nodes == [NewNode(grid, None, None, stats)]
    {
      this.side := side;
      nodes := [NewNode(grid, None, None, stats)];
    }

    /** Fill node `i`'s move list unless it is already filled (the first lines of
        `is_fully_expanded` and `expand`). */
    method Cache(i: nat)
      requires Valid() && i < |nodes|
      modifies this
      ensures Valid() && Grown(old(nodes), nodes)
      ensures nodes == old(nodes)[i := old(nodes)[i].(untriedMoves := Some(AllMoves(old(nodes)[i].state, side)))]
    {
      GrownCache(nodes, nodes, i, Some(AllMoves(nodes[i].state, side)));
      if nodes[i].untriedMoves.None? {
        var all := GetAllMoves(nodes[i].state, side);
        var ns := nodes[i := nodes[i].(untriedMoves := Some(all))];
        CacheOk(nodes, ns, side, i);
        nodes := ns;
      } else {
        assert NodeOk(nodes, side, i);
        assert nodes[i] == nodes[i].(untriedMoves := Some(AllMoves(nodes[i].state, side)));
      }
    }

    /** `is_fully_expanded`: node `i` has as many children as the side has moves there, that is,
        every move already has its child. */
    method IsFullyExpanded(i: nat) returns (full: bool)
      requires Valid() && i < |nodes|
      modifies this
      ensures Valid() && Grown(old(nodes), nodes)
      ensures nodes == old(nodes)[i := old(nodes)[i].(untriedMoves := Some(AllMoves(old(nodes)[i].state, side)))]
      ensures full <==> |nodes[i].children| >= |AllMoves(nodes[i].state, side)|
      ensures full <==> Pending(AllMoves(nodes[i].state, side), Tried(nodes, i)) == []
    {
      Cache(i);
      var tried := Tried(nodes, i);
      full := |tried| >= |nodes[i].untriedMoves.value|;
      PendingOfValid(nodes, side, i);
    }

    /** `expand`: fill node `i`'s move list; if some move has no child yet, pick one of those,
        append its child and return it; otherwise return a random existing child, which raises
        IndexError when there is none. */
    method Expand(i: nat, stats: X) returns (r: Result<nat>)
      requires Valid() && i < |nodes|
      modifies this
      ensures Valid() && Grown(old(nodes), nodes)
      ensures var n := old(nodes)[i];
        var all := AllMoves(n.state, side);
        var cached := old(nodes)[i := n.(untriedMoves := Some(all))];
        var pending := Pending(all, Tried(old(nodes), i));
        if pending == [] then
          nodes == cached &&
          (r.Raised? <==> n.children == []) &&
          (r.Raised? ==> r.error == IndexError) &&
          (r.Ok? ==> r.value in n.children)
        else
          r.Ok? && r.value == |old(nodes)| && |nodes| == |old(nodes)| + 1 &&
          nodes[..|old(nodes)|] == cached[i := cached[i].(children := n.children + [r.value])] &&
          nodes[r.value].move.Some? && nodes[r.value].move.value in pending &&
          SimulateMove(n.state, nodes[r.value].move.value) == Ok(nodes[r.value].state) &&
          nodes[r.value] == NewNode(nodes[r.value].state, Some(i), nodes[r.value].move, stats)
    {
      Cache(i);
      var tried := Tried(nodes, i);
      assert tried == Tried(old(nodes), i);
      var pending := Pending(nodes[i].untriedMoves.value, tried);
      if pending == [] {
        if nodes[i].children == [] {
          return Raised(IndexError);
        }
        assert nodes[i].children[0] in nodes[i].children;
        var c :| c in nodes[i].children;
        return Ok(c);
      }
      assert pending[0] in pending;
      var m :| m in pending;
      ghost var mid := nodes;
      var c := AddChild(i, m, stats);
      GrownTrans(old(nodes), mid, nodes);
      r := Ok(c);
    }

    /** The step both `tree_policy` loops take at a node that is not terminal: `is_fully_expanded`,
        and when it fails, `expand`. A node that is not fully expanded has a pending move, so
        `expand` then always creates a child, which is returned; `None` means fully expanded. */
    method ExpandIfPending(i: nat, stats: X) returns (child: Option<nat>)
      requires Valid() && i < |nodes|
      modifies this
      ensures Valid() && Grown(old(nodes), nodes)
      ensures child.None? ==> |nodes| == |old(nodes)| && |nodes[i].children| >= |AllMoves(nodes[i].state, side)|
      ensures child.Some? ==>
        child.value == |old(nodes)| && |nodes| == child.value + 1 && child.value in nodes[i].children &&
        nodes[child.value].move.Some? && nodes[child.value].move.value in AllMoves(nodes[i].state, side) &&
        nodes[child.value].stats == stats
    {
      ghost var start := nodes;
      var full := IsFullyExpanded(i);
      if full {
        return None;
      }
      ghost var mid := nodes;
      assert mid[i] == mid[i].(untriedMoves := Some(AllMoves(mid[i].state, side)));
      var r := Expand(i, stats);
      GrownTrans(start, mid, nodes);
      assert nodes[i] == nodes[..|mid|][i];
      child := Some(r.value);
    }

    /** The last lines of `expand`: the child of pending move `m` of node `i`, over the board the
        move produces, appended to the arena and to `i`'s children. */
    method AddChild(i: nat, m: Move, stats: X) returns (c: nat)
      requires Valid() && i < |nodes| && nodes[i].untriedMoves.Some?
      requires m in Pending(nodes[i].untriedMoves.value, Tried(nodes, i))
      modifies this
      ensures Valid() && Grown(old(nodes), nodes)
      ensures c == |old(nodes)| && |nodes| == c + 1
      ensures nodes[..c] == old(nodes)[i := old(nodes)[i].(children := old(nodes)[i].children + [c])]
      ensures SimulateMove(old(nodes)[i].state, m) == Ok(nodes[c].state)
      ensures nodes[c] == NewNode(nodes[c].state, Some(i), Some(m), stats)
    {
      assert NodeOk(nodes, side, i);
      SimulateLegalMove(nodes[i].state, side, m);
      var g := SimulateMove(nodes[i].state, m).value;
      c := |nodes|;
      var ns := nodes[i := nodes[i].(children := nodes[i].children + [c])] + [NewNode(g, Some(i), Some(m), stats)];
      AppendChildOk(nodes, ns, side, i, m, nodes[i].untriedMoves.value, g);
      GrownAppend(nodes, nodes, ns, i);
      nodes := ns;
    }
  }

  /** Filling a move list keeps the tree consistent. */
  lemma CacheOk<X>(ns: seq<Node<X>>, ns': seq<Node<X>>, side: Name, i: nat)
    requires TreeOk(ns, side) && i < |ns|
    requires ns' == ns[i := ns[i].(untriedMoves := Some(AllMoves(ns[i].state, side)))]
    ensures TreeOk(ns', side)
  {
    forall j | 0 <= j < |ns| ensures NodeOk(ns', side, j) {
      NodeOkKept(ns, ns', side, j);
    }
  }

  /** At a node whose move list is filled, the children's moves are pairwise different moves of
      that list, so it has no more children than moves, and a move is pending exactly while it has
      fewer. */
  lemma PendingOfValid<X>(ns: seq<Node<X>>, side: Name, i: nat)
    requires TreeOk(ns, side) && i < |ns|
    ensures |ns[i].children| <= |AllMoves(ns[i].state, side)|
    ensures |ns[i].children| >= |AllMoves(ns[i].state, side)| <==>
      Pending(AllMoves(ns[i].state, side), Tried(ns, i)) == []
  {
    assert NodeOk(ns, side, i);
    var all, tried := AllMoves(ns[i].state, side), Tried(ns, i);
    AllMovesSpec(ns[i].state, side);
    forall t | t in tried ensures t.Some? && t.value in all {
      var k :| 0 <= k < |tried| && tried[k] == t;
      assert ChildOf(ns, side, i, ns[i].children[k]);
    }
    FullIffNonePending(all, tried);
  }

  /** Appending the child of a pending move keeps the tree consistent. */
  lemma AppendChildOk<X>(ns: seq<Node<X>>, ns': seq<Node<X>>, side: Name, i: nat, m: Move, all: seq<Move>, g: Grid)
    requires TreeOk(ns, side) && i < |ns|
    requires ns[i].untriedMoves == Some(all) && m in Pending(all, Tried(ns, i))
    requires SimulateMove(ns[i].state, m) == Ok(g)
    requires |ns'| == |ns| + 1
    requires forall c :: 0 <= c < |ns| && c != i ==> ns'[c] == ns[c]
    requires ns'[i] == ns[i].(children := ns[i].children + [|ns|])
    requires Frame(ns'[|ns|], Node(g, Some(i), Some(m), [], 0, 0.0, None, ns'[|ns|].stats))
    requires ns'[|ns|].children == [] && ns'[|ns|].untriedMoves == None
    ensures TreeOk(ns', side)
  {
    assert NodeOk(ns, side, i);
    ParentOk(ns, ns', side, i, m, all, g);
    SimulateMoveWellFormed(ns[i].state, m);
    forall j | 0 <= j < |ns'| ensures NodeOk(ns', side, j) {
      if j < |ns| && j != i {
        NodeOkKept(ns, ns', side, j);
      } else if j == |ns| {
        LeafOk(ns', side, j, i);
      }
    }
  }

  /** The parent of an appended child stays consistent: the new child's move was pending. */
  lemma ParentOk<X>(ns: seq<Node<X>>, ns': seq<Node<X>>, side: Name, i: nat, m: Move, all: seq<Move>, g: Grid)
    requires i < |ns| && NodeOk(ns, side, i)
    requires ns[i].untriedMoves == Some(all) && m in Pending(all, Tried(ns, i))
    requires SimulateMove(ns[i].state, m) == Ok(g)
    requires |ns'| == |ns| + 1
    requires forall c :: 0 <= c < |ns| && c != i ==> ns'[c] == ns[c]
    requires ns'[i] == ns[i].(children := ns[i].children + [|ns|])
    requires Frame(ns'[|ns|], Node(g, Some(i), Some(m), [], 0, 0.0, None, ns'[|ns|].stats))
    ensures NodeOk(ns', side, i)
  {
    assert ns[i].untriedMoves.value == AllMoves(ns[i].state, side);
    assert m in all && Some(m) !in Tried(ns, i);
    assert forall c :: 0 <= c < |ns| ==> Frame(ns[c], ns'[c]);
    TriedSnoc(ns, ns', i);
    DistinctSnoc(Tried(ns, i), Some(m));
    assert ChildOf(ns', side, i, |ns|);
    ChildrenAppended(ns, ns', side, i);
  }

  /** Appending a real child to a node whose children are real keeps them all real. */
  lemma ChildrenAppended<X>(ns: seq<Node<X>>, ns': seq<Node<X>>, side: Name, i: nat)
    requires i < |ns| < |ns'|
    requires forall k :: 0 <= k < |ns[i].children| ==>
      i < ns[i].children[k] < |ns| && ChildOf(ns, side, i, ns[i].children[k])
    requires forall c :: 0 <= c < |ns| ==> Frame(ns[c], ns'[c])
    requires ns'[i].children == ns[i].children + [|ns|] && ChildOf(ns', side, i, |ns|)
    ensures forall k :: 0 <= k < |ns'[i].children| ==>
      i < ns'[i].children[k] < |ns'| && ChildOf(ns', side, i, ns'[i].children[k])
  {
    var ch, ch' := ns[i].children, ns'[i].children;
    forall k | 0 <= k < |ch'| ensures i < ch'[k] < |ns'| && ChildOf(ns', side, i, ch'[k]) {
      if k < |ch| {
        assert ch'[k] == ch[k] && ChildOf(ns, side, i, ch[k]);
        ChildOfFrame(ns, ns', side, i, ch[k]);
      }
    }
  }

  lemma TriedSnoc<X>(ns: seq<Node<X>>, ns': seq<Node<X>>, i: nat)
    requires i < |ns| < |ns'|
    requires forall k :: 0 <= k < |ns[i].children| ==> ns[i].children[k] < |ns|
    requires forall c :: 0 <= c < |ns| ==> ns'[c].move == ns[c].move
    requires ns'[i].children == ns[i].children + [|ns|]
    ensures Tried(ns', i) == Tried(ns, i) + [ns'[|ns|].move]
  {
  }

  /** A node without children and without a move list, below an earlier node, is consistent. */
  lemma LeafOk<X>(ns: seq<Node<X>>, side: Name, j: nat, i: nat)
    requires i < j < |ns| && ns[j].state.WellFormed()
    requires ns[j].parent == Some(i) && ns[j].children == [] && ns[j].untriedMoves == None
    ensures NodeOk(ns, side, j)
  {
    assert Tried(ns, j) == [];
  }

  // ---------------------------------------------------------------------------------------------
  // Selection

  /** The exploration term c * sqrt(log(parent visits + 1) / (child visits + 1)) of both
      `best_child`s, as a function of the parent's and the child's visit counts. */
  type Explore = (nat, nat) -> real

  /** The term for c = 0, used for the final choice. */
  function NoExplore(): Explore
  {
    (parentVisits: nat, childVisits: nat) => 0.0
  }

  /** The average reward of a node, 0 before its first visit. */
  function Mean<X>(n: Node<X>): (q: real)
    ensures n.visits == 0 ==> q == 0.0
    ensures n.visits > 0 ==> q * (n.visits as real) == n.totalReward
  {
    if n.visits > 0 then n.totalReward / (n.visits as real) else 0.0
  }

  // ---------------------------------------------------------------------------------------------
  // Statistics along parent links

  /** One backed-up simulation: a visit more and the reward added to the total. */
  function Bumped<X>(n: Node<X>, reward: real): (b: Node<X>)
    ensures Frame(n, b) && b.children == n.children && b.untriedMoves == n.untriedMoves && b.stats == n.stats
    ensures b.visits == n.visits + 1 && b.totalReward == n.totalReward + reward
  {
    n.(visits := n.visits + 1, totalReward := n.totalReward + reward)
  }

  /** Node `n` and every node above it, up to the root. */
  function Anc<X>(ns: seq<Node<X>>, n: nat): (s: set<nat>)
    requires n < |ns|
    ensures n in s
    ensures forall a :: a in s ==> a <= n
    decreases n
  {
    if ns[n].parent.Some? && ns[n].parent.value < n then {n} + Anc(ns, ns[n].parent.value) else {n}
  }

  /** Every node lies below the root. */
  lemma {:induction false} RootInAnc<X>(ns: seq<Node<X>>, side: Name, n: nat)
    requires TreeOk(ns, side) && n < |ns|
    ensures 0 in Anc(ns, n)
    decreases n
  {
    assert NodeOk(ns, side, n);
    if n != 0 {
      RootInAnc(ns, side, ns[n].parent.value);
    }
  }

  /** The parent of a node in `Anc(ns, n)` is in it too. */
  lemma {:induction false} AncClosed<X>(ns: seq<Node<X>>, side: Name, n: nat, c: nat)
    requires TreeOk(ns, side) && n < |ns| && c in Anc(ns, n) && ns[c].parent.Some?
    ensures ns[c].parent.value in Anc(ns, n)
    decreases n
  {
    assert NodeOk(ns, side, n);
    if c != n {
      AncClosed(ns, side, ns[n].parent.value, c);
    }
  }

  /** `Anc(ns, n)` is a chain: no two of its nodes share a parent. */
  lemma {:induction false} AncChain<X>(ns: seq<Node<X>>, side: Name, n: nat, x: nat, y: nat)
    requires TreeOk(ns, side) && n < |ns| && x in Anc(ns, n) && y in Anc(ns, n)
    requires ns[x].parent.Some? && ns[x].parent == ns[y].parent
    ensures x == y
    decreases n
  {
    assert NodeOk(ns, side, n) && NodeOk(ns, side, x) && NodeOk(ns, side, y);
    if x != n && y != n {
      AncChain(ns, side, ns[n].parent.value, x, y);
    }
  }

  /** Visits of the nodes `ch`, summed. */
  function ChildVisits<X>(ns: seq<Node<X>>, ch: seq<nat>): nat
  {
    if ch == [] then 0
    else
      var last := ch[|ch| - 1];
      ChildVisits(ns, ch[..|ch| - 1]) + if last < |ns| then ns[last].visits else 0
  }

  /** A node has been visited at least as often as all its children together. */
  ghost predicate VisitsCover<X>(ns: seq<Node<X>>)
  {
    forall i :: 0 <= i < |ns| ==> ChildVisits(ns, ns[i].children) <= ns[i].visits
  }

  /** How many of `ch` lie in `s`. */
  function NumIn(ch: seq<nat>, s: set<nat>): nat
  {
    if ch == [] then 0
    else NumIn(ch[..|ch| - 1], s) + if ch[|ch| - 1] in s then 1 else 0
  }

  lemma {:induction false} ChildVisitsShift<X>(ns: seq<Node<X>>, ns': seq<Node<X>>, ch: seq<nat>, s: set<nat>)
    requires |ns'| == |ns|
    requires forall k :: 0 <= k < |ch| ==> ch[k] < |ns|
    requires forall c :: 0 <= c < |ns| ==> ns'[c].visits == ns[c].visits + if c in s then 1 else 0
    ensures ChildVisits(ns', ch) == ChildVisits(ns, ch) + NumIn(ch, s)
  {
    if ch != [] {
      ChildVisitsShift(ns, ns', ch[..|ch| - 1], s);
    }
  }

  lemma {:induction false} NumInAtMostOne(ch: seq<nat>, s: set<nat>)
    requires Distinct(ch)
    requires forall x, y :: x in ch && y in ch && x in s && y in s ==> x == y
    ensures NumIn(ch, s) <= 1
    ensures (forall c :: c in ch ==> c !in s) ==> NumIn(ch, s) == 0
  {
    if ch != [] {
      DistinctInit(ch);
      NumInAtMostOne(ch[..|ch| - 1], s);
      if ch[|ch| - 1] in s {
        NumInNone(ch[..|ch| - 1], s, ch[|ch| - 1]);
      }
    }
  }

  lemma {:induction false} NumInNone(ch: seq<nat>, s: set<nat>, x: nat)
    requires x !in ch
    requires forall y :: y in ch && y in s ==> y == x
    ensures NumIn(ch, s) == 0
  {
    if ch != [] {
      NumInNone(ch[..|ch| - 1], s, x);
    }
  }

  /** The children of a node are different nodes. */
  lemma ChildrenDistinct<X>(ns: seq<Node<X>>, side: Name, i: nat)
    requires TreeOk(ns, side) && i < |ns|
    ensures Distinct(ns[i].children)
  {
    assert NodeOk(ns, side, i);
    var ch, t := ns[i].children, Tried(ns, i);
    forall k, l | 0 <= k < l < |ch| ensures ch[k] != ch[l] {
      assert t[k] != t[l];
    }
  }

  /** One backup along the parent links from `n` (visits + 1 on `n` and its ancestors) keeps every
      node's visits at least its children's total. */
  lemma BumpCover<X>(ns: seq<Node<X>>, ns': seq<Node<X>>, side: Name, n: nat)
    requires TreeOk(ns, side) && VisitsCover(ns) && n < |ns| && |ns'| == |ns|
    requires forall c :: 0 <= c < |ns| ==>
      ns'[c].children == ns[c].children &&
      ns'[c].visits == ns[c].visits + if c in Anc(ns, n) then 1 else 0
    ensures VisitsCover(ns')
  {
    var s := Anc(ns, n);
    forall i | 0 <= i < |ns| ensures ChildVisits(ns', ns'[i].children) <= ns'[i].visits {
      var ch := ns[i].children;
      assert NodeOk(ns, side, i);
      ChildVisitsShift(ns, ns', ch, s);
      ChildrenDistinct(ns, side, i);
      forall x, y | x in ch && y in ch && x in s && y in s ensures x == y {
        assert NodeOk(ns, side, i);
        var kx :| 0 <= kx < |ch| && ch[kx] == x;
        var ky :| 0 <= ky < |ch| && ch[ky] == y;
        assert ChildOf(ns, side, i, ch[kx]) && ChildOf(ns, side, i, ch[ky]);
        AncChain(ns, side, n, x, y);
      }
      forall c | c in ch && i !in s ensures c !in s {
        var k :| 0 <= k < |ch| && ch[k] == c;
        assert ChildOf(ns, side, i, ch[k]);
        if c in s {
          AncClosed(ns, side, n, c);
        }
      }
      NumInAtMostOne(ch, s);
    }
  }

  /** `ns'` is `ns` after filling move lists and appending unvisited nodes as new children: the
      existing nodes keep their frame, statistics and earlier children. */
  ghost predicate Grown<X>(ns: seq<Node<X>>, ns': seq<Node<X>>)
  {
    |ns| <= |ns'| &&
    (forall c :: 0 <= c < |ns| ==>
      Frame(ns[c], ns'[c]) && ns'[c].visits == ns[c].visits &&
      ns'[c].totalReward == ns[c].totalReward && ns'[c].stats == ns[c].stats &&
      ns[c].children <= ns'[c].children &&
      forall k :: |ns[c].children| <= k < |ns'[c].children| ==> ns'[c].children[k] >= |ns|) &&
    (forall c :: |ns| <= c < |ns'| ==>
      ns'[c].visits == 0 && forall k :: 0 <= k < |ns'[c].children| ==> ns'[c].children[k] >= |ns|)
  }

  /** Filling a move list keeps the growth relation. */
  lemma GrownCache<X>(ns: seq<Node<X>>, ns': seq<Node<X>>, i: nat, moves: Option<seq<Move>>)
    requires Grown(ns, ns') && i < |ns'|
    ensures Grown(ns, ns'[i := ns'[i].(untriedMoves := moves)])
  {
  }

  lemma GrownTrans<X>(a: seq<Node<X>>, b: seq<Node<X>>, c: seq<Node<X>>)
    requires Grown(a, b) && Grown(b, c)
    ensures Grown(a, c)
  {
    forall j | 0 <= j < |a|
      ensures a[j].children <= c[j].children
      ensures forall k :: |a[j].children| <= k < |c[j].children| ==> c[j].children[k] >= |a|
    {
      forall k | |a[j].children| <= k < |c[j].children| ensures c[j].children[k] >= |a| {
        if k < |b[j].children| {
          assert c[j].children[k] == b[j].children[k];
        }
      }
    }
  }

  /** Appending a fresh child of `i` keeps the growth relation. */
  lemma GrownAppend<X>(ns: seq<Node<X>>, mid: seq<Node<X>>, ns': seq<Node<X>>, i: nat)
    requires Grown(ns, mid) && |mid| == |ns| && i < |mid| && |ns'| == |mid| + 1
    requires ns'[..|mid|] == mid[i := mid[i].(children := mid[i].children + [|mid|])]
    requires ns'[|mid|].visits == 0 && ns'[|mid|].children == []
    ensures Grown(ns, ns')
  {
    forall c | 0 <= c < |ns| ensures ns[c].children <= ns'[c].children {
      assert ns'[c] == ns'[..|mid|][c];
    }
    forall c | 0 <= c < |ns|
      ensures forall k :: |ns[c].children| <= k < |ns'[c].children| ==> ns'[c].children[k] >= |ns|
    {
      assert ns'[c] == ns'[..|mid|][c];
    }
    forall c | 0 <= c < |ns| ensures Frame(ns[c], ns'[c]) && ns'[c].visits == ns[c].visits {
      assert ns'[c] == ns'[..|mid|][c];
    }
    forall c | 0 <= c < |ns| ensures ns'[c].totalReward == ns[c].totalReward && ns'[c].stats == ns[c].stats {
      assert ns'[c] == ns'[..|mid|][c];
    }
  }

  lemma {:induction false} ChildVisitsConcat<X>(ns: seq<Node<X>>, a: seq<nat>, b: seq<nat>)
    ensures ChildVisits(ns, a + b) == ChildVisits(ns, a) + ChildVisits(ns, b)
  {
    if b != [] {
      var ab, init, last := a + b, b[..|b| - 1], b[|b| - 1];
      assert ab[..|ab| - 1] == a + init;
      assert ab[|ab| - 1] == last;
      ChildVisitsConcat(ns, a, init);
      assert ChildVisits(ns, ab) == ChildVisits(ns, a + init) + if last < |ns| then ns[last].visits else 0;
    } else {
      assert a + b == a;
    }
  }

  lemma {:induction false} ChildVisitsSame<X>(ns: seq<Node<X>>, ns': seq<Node<X>>, ch: seq<nat>)
    requires |ns| <= |ns'|
    requires forall k :: 0 <= k < |ch| ==> ch[k] < |ns|
    requires forall c :: 0 <= c < |ns| ==> ns'[c].visits == ns[c].visits
    ensures ChildVisits(ns', ch) == ChildVisits(ns, ch)
  {
    if ch != [] {
      ChildVisitsSame(ns, ns', ch[..|ch| - 1]);
    }
  }

  lemma {:induction false} ChildVisitsFresh<X>(ns: seq<Node<X>>, ch: seq<nat>, low: nat)
    requires forall k :: 0 <= k < |ch| ==> ch[k] >= low
    requires forall c :: low <= c < |ns| ==> ns[c].visits == 0
    ensures ChildVisits(ns, ch) == 0
  {
    if ch != [] {
      ChildVisitsFresh(ns, ch[..|ch| - 1], low);
    }
  }

  /** Children are indices into the arena. */
  ghost predicate InArena<X>(ns: seq<Node<X>>)
  {
    forall i, k :: 0 <= i < |ns| && 0 <= k < |ns[i].children| ==> ns[i].children[k] < |ns|
  }

  lemma TreeInArena<X>(ns: seq<Node<X>>, side: Name)
    requires TreeOk(ns, side)
    ensures InArena(ns)
  {
    forall i | 0 <= i < |ns| ensures forall k :: 0 <= k < |ns[i].children| ==> ns[i].children[k] < |ns| {
      assert NodeOk(ns, side, i);
    }
  }

  /** Growth never breaks the visit cover: new children have no visits yet. */
  lemma GrownCover<X>(ns: seq<Node<X>>, ns': seq<Node<X>>, side: Name)
    requires TreeOk(ns, side) && VisitsCover(ns) && Grown(ns, ns')
    ensures VisitsCover(ns')
  {
    TreeInArena(ns, side);
    forall i | 0 <= i < |ns'| ensures ChildVisits(ns', ns'[i].children) <= ns'[i].visits {
      if i < |ns| {
        GrownNodeCover(ns, ns', i);
      } else {
        ChildVisitsFresh(ns', ns'[i].children, |ns|);
      }
    }
  }

  lemma GrownNodeCover<X>(ns: seq<Node<X>>, ns': seq<Node<X>>, i: nat)
    requires InArena(ns) && VisitsCover(ns) && Grown(ns, ns') && i < |ns|
    ensures ChildVisits(ns', ns'[i].children) <= ns'[i].visits
  {
    var old_, ch := ns[i].children, ns'[i].children;
    var added := ch[|old_|..];
    assert ch == old_ + added;
    ChildVisitsConcat(ns', old_, added);
    ChildVisitsSame(ns, ns', old_);
    ChildVisitsFresh(ns', added, |ns|);
  }

  /** A root child was reached by one of the side's moves at the root. */
  lemma RootChildMove<X>(ns: seq<Node<X>>, side: Name, c: nat)
    requires TreeOk(ns, side) && c in ns[0].children
    ensures c < |ns| && ns[c].move.Some? && ns[c].move.value in AllMoves(ns[0].state, side)
  {
    assert NodeOk(ns, side, 0);
    var k :| 0 <= k < |ns[0].children| && ns[0].children[k] == c;
    assert ChildOf(ns, side, 0, ns[0].children[k]);
  }
}
