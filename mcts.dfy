/** The MCTS player (`MCTSPlayer`): UCT selection over the shared search tree, expansion of one
    pending move, a rollout-free reward from the distance to the goal corner, and backup along the
    parent links. */
module Mcts {
  import opened Wrappers
  import opened Seqs
  import opened Board
  import opened Moves
  import opened SearchTree
  import opened Goals

  /** The player's settings: its side, its goal corner (`corner_cors`) and the number of
      simulations per move. */
  datatype MctsPlayer = MctsPlayer(name: Name, corner: seq<Coord>, simulations: int)

  /** The UCT score of child `c` of node `i`: the child's average reward, 0 while it is unvisited,
      plus the exploration term. */
  function Uct<X>(ns: seq<Node<X>>, i: nat, c: nat, explore: Explore): (s: real)
    requires i < |ns| && c < |ns|
    ensures ns[c].visits == 0 ==> s == explore(ns[i].visits, 0)
    ensures ns[c].visits > 0 ==> (s - explore(ns[i].visits, ns[c].visits)) * (ns[c].visits as real) == ns[c].totalReward
  {
    Mean(ns[c]) + explore(ns[i].visits, ns[c].visits)
  }

  function UctScores<X>(ns: seq<Node<X>>, i: nat, explore: Explore): (s: seq<real>)
    requires i < |ns| && InArena(ns)
    ensures |s| == |ns[i].children|
    ensures forall k :: 0 <= k < |s| ==> s[k] == Uct(ns, i, ns[i].children[k], explore)
  {
    var ch := ns[i].children;
    seq(|ch|, k requires 0 <= k < |ch| => Uct(ns, i, ch[k], explore))
  }

  /** `best_child`: the child with the highest UCT score, the first one among equals, as `max`
      returns it; `max` over no children raises ValueError. */
  function BestChild<X>(ns: seq<Node<X>>, i: nat, explore: Explore): (r: Result<nat>)
    requires i < |ns| && InArena(ns)
    ensures r.Raised? <==> ns[i].children == []
    ensures r.Raised? ==> r.error == ValueError
    ensures r.Ok? ==> r.value in ns[i].children && r.value < |ns|
    ensures r.Ok? ==> forall c :: c in ns[i].children ==> Uct(ns, i, c, explore) <= Uct(ns, i, r.value, explore)
    ensures r.Ok? ==>
      exists k :: 0 <= k < |ns[i].children| && ns[i].children[k] == r.value &&
        forall j :: 0 <= j < k ==> Uct(ns, i, ns[i].children[j], explore) < Uct(ns, i, r.value, explore)
  {
    var ch := ns[i].children;
    if ch == [] then Raised(ValueError)
    else
      var scores := UctScores(ns, i, explore);
      var k := FirstMax(scores);
      assert forall c :: c in ch ==> exists j :: 0 <= j < |ch| && ch[j] == c && Uct(ns, i, c, explore) == scores[j];
      Ok(ch[k])
  }

  /** `tree_policy`: from the root, while the node is not terminal, expand it if some move has no
      child yet and return the new child; otherwise descend to the best child. The node returned
      is a fresh leaf or a terminal node. A fully expanded node without children, which is a
      stuck position, makes `best_child` raise ValueError. Existing nodes keep their statistics,
      and a root that is not terminal and has a move has a child afterwards. */
  method TreePolicy(p: MctsPlayer, tree: Tree<()>, explore: Explore) returns (r: Result<nat>)
    requires tree.Valid() && tree.side == p.name
    modifies tree
    ensures tree.Valid() && Grown(old(tree.nodes), tree.nodes)
    ensures r.Ok? ==> r.value < |tree.nodes|
    ensures r.Ok? && r.value < |old(tree.nodes)| ==>
      |tree.nodes| == |old(tree.nodes)| && IsTerminal(tree.nodes[r.value].state, p.name, p.corner)
    ensures r.Ok? && r.value >= |old(tree.nodes)| ==> |tree.nodes| == |old(tree.nodes)| + 1
    ensures r.Raised? ==>
      r.error == ValueError && |tree.nodes| == |old(tree.nodes)| && HasStuck(tree.nodes, p.name, p.corner)
    ensures IsTerminal(old(tree.nodes)[0].state, p.name, p.corner) ==> tree.nodes == old(tree.nodes) && r == Ok(0)
    ensures !IsTerminal(old(tree.nodes)[0].state, p.name, p.corner) && AllMoves(old(tree.nodes)[0].state, p.name) != [] ==>
      tree.nodes[0].children != []
  {
    var node: nat := 0;
    while !IsTerminal(tree.nodes[node].state, p.name, p.corner)
      invariant tree.Valid() && node < |tree.nodes| == |old(tree.nodes)|
      invariant Grown(old(tree.nodes), tree.nodes)
      invariant IsTerminal(old(tree.nodes)[0].state, p.name, p.corner) ==> tree.nodes == old(tree.nodes) && node == 0
      invariant node != 0 ==> tree.nodes[0].children != []
      decreases |tree.nodes| - node
    {
      ghost var before := tree.nodes;
      var next, expanded := Descend(p, tree, node, explore);
      GrownTrans(old(tree.nodes), before, tree.nodes);
      if next.Raised? {
        return Raised(ValueError);
      }
      assert before[0].children <= tree.nodes[0].children;
      if expanded {
        return Ok(next.value);
      }
      node := next.value;
    }
    r := Ok(node);
  }

  /** The body of `tree_policy`'s loop at a node that is not terminal: expand it and return the
      new child, or, when it is fully expanded, return its best child. `best_child` raises
      ValueError exactly when the node has no move at all. */
  method Descend(p: MctsPlayer, tree: Tree<()>, node: nat, explore: Explore) returns (r: Result<nat>, expanded: bool)
    requires tree.Valid() && tree.side == p.name && node < |tree.nodes|
    modifies tree
    ensures tree.Valid() && Grown(old(tree.nodes), tree.nodes)
    ensures r.Raised? ==> r.error == ValueError && |tree.nodes| == |old(tree.nodes)|
    ensures r.Ok? ==> r.value < |tree.nodes| && node < r.value && r.value in tree.nodes[node].children
    ensures r.Ok? && expanded ==> r.value == |old(tree.nodes)| && |tree.nodes| == |old(tree.nodes)| + 1
    ensures r.Ok? && !expanded ==> |tree.nodes| == |old(tree.nodes)|
    ensures r.Raised? <==> AllMoves(old(tree.nodes)[node].state, p.name) == []
    ensures r.Raised? && !IsTerminal(old(tree.nodes)[node].state, p.name, p.corner) ==> HasStuck(tree.nodes, p.name, p.corner)
  {
    var child := tree.ExpandIfPending(node, ());
    if child.Some? {
      return Ok(child.value), true;
    }
    PendingOfValid(tree.nodes, tree.side, node);
    TreeInArena(tree.nodes, tree.side);
    r := BestChild(tree.nodes, node, explore);
    expanded := false;
    if r.Raised? && !IsTerminal(tree.nodes[node].state, p.name, p.corner) {
      assert Stuck(tree.nodes[node].state, p.name, p.corner);
    }
    if r.Ok? {
      assert NodeOk(tree.nodes, tree.side, node);
    }
  }

  /** `default_policy`: no rollout; the inverse of the pieces' average distance to the nearest
      goal cell, plus 1e-6, and 0 for a side without pieces. `min` over an empty goal list raises
      ValueError at the first piece. */
  method DefaultPolicy(p: MctsPlayer, state: Grid) returns (r: Result<real>)
    ensures r == MctsReward(state, p.name, p.corner)
  {
    var pieces := Pieces(state, p.name);
    var total := SumDistances(pieces, p.corner);
    if total.Raised? {
      return Raised(total.error);
    }
    if pieces == [] {
      return Ok(0.0);
    }
    var average := (total.value as real) / (|pieces| as real);
    r := Ok(1.0 / (average + Epsilon));
  }

  /** `backup`: from `node` up to the root along the parent links, one visit more and the reward
      added, on `node` and each of its ancestors and on no other node. */
  method Backup(tree: Tree<()>, node: nat, reward: real)
    requires tree.Valid() && node < |tree.nodes|
    modifies tree
    ensures tree.Valid() && |tree.nodes| == |old(tree.nodes)|
    ensures forall j :: 0 <= j < |tree.nodes| ==>
      tree.nodes[j] == if j in Anc(old(tree.nodes), node) then Bumped(old(tree.nodes)[j], reward) else old(tree.nodes)[j]
    ensures VisitsCover(old(tree.nodes)) ==> VisitsCover(tree.nodes)
  {
    ghost var ns := tree.nodes;
    ghost var whole := Anc(ns, node);
    var cur := Some(node);
    while cur.Some?
      invariant |tree.nodes| == |ns|
      invariant cur.Some? ==> cur.value < |ns| && cur.value in whole
      invariant forall j :: 0 <= j < |ns| ==>
        tree.nodes[j] == if j in whole && (cur.None? || j !in Anc(ns, cur.value)) then Bumped(ns[j], reward) else ns[j]
      decreases if cur.Some? then cur.value + 1 else 0
    {
      var c := cur.value;
      assert NodeOk(ns, tree.side, c);
      tree.nodes := tree.nodes[c := Bumped(tree.nodes[c], reward)];
      cur := tree.nodes[c].parent;
      if cur.Some? {
        AncClosed(ns, tree.side, node, c);
      }
    }
    StatsOnly(ns, tree.nodes, tree.side);
    if VisitsCover(ns) {
      BumpCover(ns, tree.nodes, tree.side, node);
    }
  }

  /** One round of `move`'s loop: select or expand a node, evaluate its board, back the reward
      up. The root keeps its board, gets one visit more, and gets no child while it is terminal; a
      root that is not terminal and has a move has a child afterwards. At most one node is added.
      A round raises ValueError only at a stuck position or, with pieces, an empty goal list. */
  method Simulate(p: MctsPlayer, tree: Tree<()>, explore: Explore) returns (r: Result<()>)
    requires tree.Valid() && tree.side == p.name && VisitsCover(tree.nodes)
    modifies tree
    ensures tree.Valid() && VisitsCover(tree.nodes)
    ensures tree.nodes[0].state == old(tree.nodes)[0].state
    ensures |tree.nodes| <= |old(tree.nodes)| + 1
    ensures r.Raised? ==> r.error == ValueError && (p.corner == [] || HasStuck(tree.nodes, p.name, p.corner))
    ensures r.Ok? ==> tree.nodes[0].visits == old(tree.nodes)[0].visits + 1
    ensures IsTerminal(old(tree.nodes)[0].state, p.name, p.corner) ==> tree.nodes[0].children == old(tree.nodes)[0].children
    ensures !IsTerminal(old(tree.nodes)[0].state, p.name, p.corner) && AllMoves(old(tree.nodes)[0].state, p.name) != [] ==>
      tree.nodes[0].children != []
  {
    ghost var start := tree.nodes;
    var node := TreePolicy(p, tree, explore);
    GrownCover(start, tree.nodes, tree.side);
    if node.Raised? {
      return Raised(node.error);
    }
    var reward := DefaultPolicy(p, tree.nodes[node.value].state);
    if reward.Raised? {
      return Raised(reward.error);
    }
    ghost var before := tree.nodes;
    Backup(tree, node.value, reward.value);
    RootInAnc(before, tree.side, node.value);
    assert tree.nodes[0].children == before[0].children;
    r := Ok(());
  }

  /** The loop of `move`: `simulations` rounds from a root over the given board; a round that
      raises ends the search with its error. */
  method Search(p: MctsPlayer, grid: Grid, explore: Explore) returns (r: Result<()>, tree: Tree<()>)
    requires grid.WellFormed()
    ensures tree.Valid() && tree.side == p.name && VisitsCover(tree.nodes)
    ensures tree.nodes[0].state == grid
    ensures r.Raised? ==> r.error == ValueError && (p.corner == [] || HasStuck(tree.nodes, p.name, p.corner))
    ensures r.Ok? && p.simulations > 0 && !IsTerminal(grid, p.name, p.corner) && AllMoves(grid, p.name) != [] ==>
      tree.nodes[0].children != []
    ensures r.Ok? ==> tree.nodes[0].visits == if p.simulations > 0 then p.simulations else 0
    ensures p.simulations <= 0 || IsTerminal(grid, p.name, p.corner) ==> tree.nodes[0].children == []
  {
    tree := new Tree(grid, p.name, ());
    var i := 0;
    while i < p.simulations
      invariant tree.Valid() && tree.side == p.name && VisitsCover(tree.nodes)
      invariant tree.nodes[0].state == grid && tree.nodes[0].visits == i
      invariant 0 <= i <= if p.simulations > 0 then p.simulations else 0
      invariant (i == 0 || IsTerminal(grid, p.name, p.corner)) ==> tree.nodes[0].children == []
      invariant i > 0 && !IsTerminal(grid, p.name, p.corner) && AllMoves(grid, p.name) != [] ==>
        tree.nodes[0].children != []
    {
      r := Simulate(p, tree, explore);
      if r.Raised? {
        return;
      }
      i := i + 1;
    }
    r := Ok(());
  }

  /** `move`: the search, then the move of the root child with the best average reward (the
      exploration term is 0), the first one among equals. With no rounds, a terminal root or a root
      without moves, ValueError is raised; otherwise it is raised only when the search meets a
      stuck position or, with pieces, an empty goal list. */
  method Move(p: MctsPlayer, grid: Grid, explore: Explore) returns (r: Result<Move>, tree: Tree<()>)
    requires grid.WellFormed()
    ensures tree.Valid() && tree.side == p.name && tree.nodes[0].state == grid && VisitsCover(tree.nodes)
    ensures r.Raised? ==>
      r.error == ValueError &&
      (p.simulations <= 0 || IsTerminal(grid, p.name, p.corner) || p.corner == [] || HasStuck(tree.nodes, p.name, p.corner))
    ensures p.simulations <= 0 || IsTerminal(grid, p.name, p.corner) || AllMoves(grid, p.name) == [] ==> r.Raised?
    ensures r.Ok? ==> 0 < p.simulations && !IsTerminal(grid, p.name, p.corner) && r.value in AllMoves(grid, p.name)
    ensures r.Ok? ==> tree.nodes[0].visits == p.simulations
    ensures r.Ok? ==>
      exists k :: 0 <= k < |tree.nodes[0].children| && FirstBestMean(tree.nodes, k) &&
        tree.nodes[tree.nodes[0].children[k]].move == Some(r.value)
  {
    var searched;
    searched, tree := Search(p, grid, explore);
    if searched.Raised? {
      return Raised(searched.error), tree;
    }
    TreeInArena(tree.nodes, tree.side);
    PendingOfValid(tree.nodes, tree.side, 0);
    var best := BestChild(tree.nodes, 0, NoExplore());
    if best.Raised? {
      if p.simulations > 0 && !IsTerminal(grid, p.name, p.corner) {
        assert Stuck(tree.nodes[0].state, p.name, p.corner);
      }
      return Raised(best.error), tree;
    }
    RootChildMove(tree.nodes, tree.side, best.value);
    FirstBestOfBestChild(tree.nodes, best.value);
    r := Ok(tree.nodes[best.value].move.value);
  }

  /** The child `best_child(c_param=0)` picks at the root is the first with the highest average
      reward. */
  lemma FirstBestOfBestChild<X>(ns: seq<Node<X>>, c: nat)
    requires |ns| > 0 && InArena(ns) && BestChild(ns, 0, NoExplore()) == Ok(c)
    ensures exists k :: 0 <= k < |ns[0].children| && ns[0].children[k] == c && FirstBestMean(ns, k)
  {
    var ch := ns[0].children;
    var k :| 0 <= k < |ch| && ch[k] == c &&
      forall j :: 0 <= j < k ==> Uct(ns, 0, ch[j], NoExplore()) < Uct(ns, 0, c, NoExplore());
    forall d | 0 <= d < |ns| ensures Uct(ns, 0, d, NoExplore()) == Mean(ns[d]) {
    }
    assert FirstBestMean(ns, k);
  }

  /** Root child number `k` has the highest average reward among the root's children, and every
      earlier child a strictly lower one: the child `max` picks with the exploration term at 0. */
  ghost predicate FirstBestMean<X>(ns: seq<Node<X>>, k: nat)
    requires |ns| > 0 && k < |ns[0].children|
  {
    var ch := ns[0].children;
    ch[k] < |ns| &&
    (forall d :: d in ch && d < |ns| ==> Mean(ns[d]) <= Mean(ns[ch[k]])) &&
    (forall j :: 0 <= j < k && ch[j] < |ns| ==> Mean(ns[ch[j]]) < Mean(ns[ch[k]]))
  }
}
