/** The GRAVE player (`GRAVEPlayer`): the MCTS search with per-node AMAF ("all moves as first")
    tables, a selection score that blends a child's own average with the parent's AMAF average for
    the child's move, an explicit path from the root, and a backup that credits every move played
    in the simulation to every node on the path. */
module Grave {
  import opened Wrappers
  import opened Seqs
  import opened Board
  import opened Moves
  import opened SearchTree
  import opened Goals

  /** A node's AMAF tables, `amaf_visits` and `amaf_total_reward`, keyed by move. */
  datatype Amaf = Amaf(visits: map<Move, nat>, totalReward: map<Move, real>)

  /** The tables of a new node: both empty. */
  function NoAmaf(): Amaf
  {
    Amaf(map[], map[])
  }

  /** The player's settings: its side, its goal corner (`corner_cors`) and the number of
      simulations per move. */
  datatype GravePlayer = GravePlayer(name: Name, corner: seq<Coord>, simulations: int)

  /** `amaf_visits.get(move, 0)`: the recorded count, and 0 for a move never credited. */
  function AmafVisits(a: Amaf, move: Option<Move>): (v: nat)
    ensures move.Some? && move.value in a.visits ==> v == a.visits[move.value]
    ensures v > 0 ==> move.Some? && move.value in a.visits
  {
    if move.Some? && move.value in a.visits then a.visits[move.value] else 0
  }

  /** `amaf_total_reward.get(move, 0)`: the recorded total, and 0 for a move never credited. */
  function AmafReward(a: Amaf, move: Option<Move>): (t: real)
    ensures move.Some? && move.value in a.totalReward ==> t == a.totalReward[move.value]
    ensures move.None? || move.value !in a.totalReward ==> t == 0.0
  {
    if move.Some? && move.value in a.totalReward then a.totalReward[move.value] else 0.0
  }

  /** The weight of a child's own average: v / (v + amaf_v + 1e-6). It lies in [0, 1), and is 0
      exactly for an unvisited child. */
  function Beta(v: nat, amafV: nat): (b: real)
    ensures 0.0 <= b < 1.0
    ensures b == 0.0 <==> v == 0
  {
    var d := (v as real) + (amafV as real) + Epsilon;
    assert (v as real) < d;
    (v as real) / d
  }

  /** `grave_q`: the child's average and the AMAF average, weighted by `beta`. */
  function Blend(beta: real, q: real, qAmaf: real): real
  {
    beta * q + (1.0 - beta) * qAmaf
  }

  /** With a weight in [0, 1] the blended value lies between its two averages. */
  lemma BlendBetween(beta: real, q: real, qAmaf: real)
    requires 0.0 <= beta <= 1.0
    ensures q <= qAmaf ==> q <= Blend(beta, q, qAmaf) <= qAmaf
    ensures qAmaf <= q ==> qAmaf <= Blend(beta, q, qAmaf) <= q
  {
    assert Blend(beta, q, qAmaf) == qAmaf + beta * (q - qAmaf);
    assert Blend(beta, q, qAmaf) == q + (1.0 - beta) * (qAmaf - q);
    if q <= qAmaf {
      ScaledDown(beta, qAmaf - q);
      ScaledDown(1.0 - beta, qAmaf - q);
    } else {
      ScaledDown(beta, q - qAmaf);
      ScaledDown(1.0 - beta, q - qAmaf);
    }
  }

  lemma ScaledDown(w: real, x: real)
    requires 0.0 <= w <= 1.0 && 0.0 <= x
    ensures 0.0 <= w * x <= x
  {
    assert x - w * x == (1.0 - w) * x;
  }

  /** The AMAF average of `move` in a node's tables (`q_amaf`), 0 before the move is credited. */
  function AmafMean(a: Amaf, move: Option<Move>): (q: real)
    ensures AmafVisits(a, move) == 0 ==> q == 0.0
    ensures AmafVisits(a, move) > 0 ==> q * (AmafVisits(a, move) as real) == AmafReward(a, move)
  {
    var amafV := AmafVisits(a, move);
    if amafV > 0 then AmafReward(a, move) / (amafV as real) else 0.0
  }

  /** `grave_q` of child `c` of node `i`, from `i`'s AMAF entry for `c`'s move: it lies between the
      child's own average and the AMAF average, and is the AMAF average while the child is
      unvisited. */
  function GraveQ(ns: seq<Node<Amaf>>, i: nat, c: nat): (q: real)
    requires i < |ns| && c < |ns|
    ensures ns[c].visits == 0 ==> q == AmafMean(ns[i].stats, ns[c].move)
    ensures Mean(ns[c]) <= AmafMean(ns[i].stats, ns[c].move) ==> Mean(ns[c]) <= q <= AmafMean(ns[i].stats, ns[c].move)
    ensures AmafMean(ns[i].stats, ns[c].move) <= Mean(ns[c]) ==> AmafMean(ns[i].stats, ns[c].move) <= q <= Mean(ns[c])
  {
    var child, amaf := ns[c], ns[i].stats;
    var beta := Beta(child.visits, AmafVisits(amaf, child.move));
    BlendBetween(beta, Mean(child), AmafMean(amaf, child.move));
    Blend(beta, Mean(child), AmafMean(amaf, child.move))
  }

  /** `grave_score`: the blended value plus the exploration term. An unvisited child is scored by
      its parent's AMAF average for its move and its exploration term. */
  function GraveScore(ns: seq<Node<Amaf>>, i: nat, c: nat, explore: Explore): (s: real)
    requires i < |ns| && c < |ns|
    ensures ns[c].visits == 0 ==> s == AmafMean(ns[i].stats, ns[c].move) + explore(ns[i].visits, 0)
    ensures var q := s - explore(ns[i].visits, ns[c].visits);
      (Mean(ns[c]) <= q <= AmafMean(ns[i].stats, ns[c].move)) || (AmafMean(ns[i].stats, ns[c].move) <= q <= Mean(ns[c]))
  {
    GraveQ(ns, i, c) + explore(ns[i].visits, ns[c].visits)
  }

  function GraveScores(ns: seq<Node<Amaf>>, i: nat, explore: Explore): (s: seq<real>)
    requires i < |ns| && InArena(ns)
    ensures |s| == |ns[i].children|
    ensures forall k :: 0 <= k < |s| ==> s[k] == GraveScore(ns, i, ns[i].children[k], explore)
  {
    var ch := ns[i].children;
    seq(|ch|, k requires 0 <= k < |ch| => GraveScore(ns, i, ch[k], explore))
  }

  /** `best_child`: the child with the highest GRAVE score, the first one among equals; `max` over
      no children raises ValueError. */
  function BestChild(ns: seq<Node<Amaf>>, i: nat, explore: Explore): (r: Result<nat>)
    requires i < |ns| && InArena(ns)
    ensures r.Raised? <==> ns[i].children == []
    ensures r.Raised? ==> r.error == ValueError
    ensures r.Ok? ==> r.value in ns[i].children && r.value < |ns|
    ensures r.Ok? ==>
      forall c :: c in ns[i].children ==> GraveScore(ns, i, c, explore) <= GraveScore(ns, i, r.value, explore)
    ensures r.Ok? ==>
      exists k :: 0 <= k < |ns[i].children| && ns[i].children[k] == r.value &&
        forall j :: 0 <= j < k ==> GraveScore(ns, i, ns[i].children[j], explore) < GraveScore(ns, i, r.value, explore)
  {
    var ch := ns[i].children;
    if ch == [] then Raised(ValueError)
    else
      var scores := GraveScores(ns, i, explore);
      var k := FirstMax(scores);
      assert forall c :: c in ch ==> exists j :: 0 <= j < |ch| && ch[j] == c && GraveScore(ns, i, c, explore) == scores[j];
      Ok(ch[k])
  }

  // ---------------------------------------------------------------------------------------------
  // Selection path

  /** `path` runs down the tree: each entry is a node, and each entry after the first is a child
      of the one before it. */
  ghost predicate Chain(ns: seq<Node<Amaf>>, path: seq<nat>)
  {
    (forall k :: 0 <= k < |path| ==> path[k] < |ns|) &&
    (forall k :: 0 < k < |path| ==> path[k] in ns[path[k - 1]].children)
  }

  /** `node` hangs below the end of `path`: it is the root when the path is empty, and otherwise
      a child of the path's last node. */
  ghost predicate Hangs(ns: seq<Node<Amaf>>, path: seq<nat>, node: nat)
  {
    (path == [] ==> node == 0) &&
    (path != [] ==> path[|path| - 1] < |ns| && node in ns[path[|path| - 1]].children && path[|path| - 1] < node)
  }

  /** The moves recorded in `played_moves` on the way to `node`: those of the path's nodes below
      the root and of `node` itself; none while the path is empty. */
  ghost function Played(ns: seq<Node<Amaf>>, path: seq<nat>, node: nat): set<Move>
  {
    if path == [] then {}
    else
      (set k | 1 <= k < |path| && path[k] < |ns| && ns[path[k]].move.Some? :: ns[path[k]].move.value) +
      (if node < |ns| && ns[node].move.Some? then {ns[node].move.value} else {})
  }

  /** Entering `c` from `node` adds `c`'s move. */
  lemma PlayedStep(ns: seq<Node<Amaf>>, path: seq<nat>, node: nat, c: nat)
    requires node < |ns| && c < |ns| && ns[c].move.Some?
    ensures Played(ns, path + [node], c) == Played(ns, path, node) + {ns[c].move.value}
  {
    var p := path + [node];
    if path != [] {
      assert (set k | 1 <= k < |p| && p[k] < |ns| && ns[p[k]].move.Some? :: ns[p[k]].move.value) ==
        (set k | 1 <= k < |path| && path[k] < |ns| && ns[path[k]].move.Some? :: ns[path[k]].move.value) +
        (if ns[node].move.Some? then {ns[node].move.value} else {}) by {
        assert p[|path|] == node;
        assert forall k :: 1 <= k < |path| ==> p[k] == path[k];
      }
    }
  }

  /** Appending the returned node to the path records nothing new. */
  lemma PlayedLast(ns: seq<Node<Amaf>>, path: seq<nat>, c: nat)
    requires path != [] && c < |ns|
    ensures Played(ns, path + [c], c) == Played(ns, path, c)
  {
    var p := path + [c];
    assert p[|path|] == c;
    assert forall k :: 1 <= k < |path| ==> p[k] == path[k];
  }

  /** Growth keeps the recorded moves. */
  lemma PlayedGrown(ns: seq<Node<Amaf>>, ns': seq<Node<Amaf>>, path: seq<nat>, node: nat)
    requires Grown(ns, ns') && node < |ns| && forall k :: 0 <= k < |path| ==> path[k] < |ns|
    ensures Played(ns', path, node) == Played(ns, path, node)
  {
  }

  /** Growth keeps a chain and what hangs below it. */
  lemma ChainGrown(ns: seq<Node<Amaf>>, ns': seq<Node<Amaf>>, path: seq<nat>, node: nat)
    requires Chain(ns, path) && Hangs(ns, path, node) && Grown(ns, ns')
    ensures Chain(ns', path) && Hangs(ns', path, node)
  {
    forall k | 0 < k < |path| ensures path[k] in ns'[path[k - 1]].children {
      KeptChild(ns, ns', path[k - 1], path[k]);
    }
    if path != [] {
      KeptChild(ns, ns', path[|path| - 1], node);
    }
  }

  lemma KeptChild(ns: seq<Node<Amaf>>, ns': seq<Node<Amaf>>, i: nat, c: nat)
    requires Grown(ns, ns') && i < |ns| && c in ns[i].children
    ensures c in ns'[i].children
  {
    assert ns[i].children <= ns'[i].children;
    var j :| 0 <= j < |ns[i].children| && ns[i].children[j] == c;
    assert ns'[i].children[j] == c;
  }

  /** Appending what hangs below a chain extends it. */
  lemma ChainSnoc(ns: seq<Node<Amaf>>, path: seq<nat>, node: nat)
    requires Chain(ns, path) && Hangs(ns, path, node) && node < |ns|
    ensures Chain(ns, path + [node])
  {
    var p := path + [node];
    forall k | 0 < k < |p| ensures p[k] in ns[p[k - 1]].children {
      if k < |path| {
        assert p[k] == path[k] && p[k - 1] == path[k - 1];
      }
    }
  }

  /** `tree_policy`: from the root, while the node is not terminal, append it to the path; expand
      it if some move has no child yet, and then append the new child, record its move and return
      it; otherwise descend to the best child and record its move. A terminal node reached by
      descending is returned without being appended. The moves recorded are those of the nodes
      entered below the root; a fully expanded node without children makes `best_child` raise
      ValueError. */
  method TreePolicy(p: GravePlayer, tree: Tree<Amaf>, explore: Explore)
    returns (r: Result<nat>, path: seq<nat>, played: set<Move>)
    requires tree.Valid() && tree.side == p.name
    modifies tree
    ensures tree.Valid() && Grown(old(tree.nodes), tree.nodes)
    ensures r.Raised? ==>
      r.error == ValueError && |tree.nodes| == |old(tree.nodes)| && HasStuck(tree.nodes, p.name, p.corner)
    ensures r.Ok? ==> Selected(p, old(tree.nodes), tree.nodes, r.value, path, played)
    ensures IsTerminal(old(tree.nodes)[0].state, p.name, p.corner) ==> r == Ok(0) && tree.nodes == old(tree.nodes)
  {
    var node: nat := 0;
    path, played := [], {};
    while !IsTerminal(tree.nodes[node].state, p.name, p.corner)
      invariant tree.Valid() && Walk(p, old(tree.nodes), tree.nodes, node, path, played)
      decreases |tree.nodes| - node
    {
      var next, expanded;
      next, expanded, path, played := Enter(p, tree, node, explore, old(tree.nodes), path, played);
      if next.Raised? {
        return Raised(ValueError), path, played;
      }
      if expanded {
        return Ok(next.value), path, played;
      }
      node := next.value;
    }
    SelectedLeaf(p, old(tree.nodes), tree.nodes, node, path, played);
    r := Ok(node);
  }

  /** Where `tree_policy`'s loop stands, against the tree `ns0` it started from: no node was added
      yet, `node` hangs below the path, `played` holds the moves recorded so far, and the path is
      empty while the tree is unchanged; a path that is not empty starts at the root, which is
      then not terminal. */
  ghost predicate Walk(p: GravePlayer, ns0: seq<Node<Amaf>>, ns: seq<Node<Amaf>>, node: nat, path: seq<nat>, played: set<Move>)
  {
    node < |ns| == |ns0| && Grown(ns0, ns) &&
    Chain(ns, path) && Hangs(ns, path, node) && played == Played(ns, path, node) &&
    (path == [] ==> ns == ns0) &&
    (path != [] ==> path[0] == 0 && !IsTerminal(ns0[0].state, p.name, p.corner))
  }

  /** One pass of `tree_policy`'s loop at a node that is not terminal: append the node to the path,
      then either raise, or return the new child appended as well, or go on at the best child. */
  method Enter(p: GravePlayer, tree: Tree<Amaf>, node: nat, explore: Explore, ghost ns0: seq<Node<Amaf>>, path: seq<nat>, played: set<Move>)
    returns (r: Result<nat>, expanded: bool, path': seq<nat>, played': set<Move>)
    requires tree.Valid() && tree.side == p.name && Walk(p, ns0, tree.nodes, node, path, played)
    requires !IsTerminal(tree.nodes[node].state, p.name, p.corner)
    modifies tree
    ensures tree.Valid() && Grown(ns0, tree.nodes)
    ensures r.Raised? ==>
      r.error == ValueError && path' == path + [node] && |tree.nodes| == |ns0| && HasStuck(tree.nodes, p.name, p.corner)
    ensures r.Ok? && expanded ==> Selected(p, ns0, tree.nodes, r.value, path', played')
    ensures r.Ok? && !expanded ==> node < r.value && Walk(p, ns0, tree.nodes, r.value, path', played')
  {
    ghost var before := tree.nodes;
    r, expanded := Descend(p, tree, node, explore);
    path', played' := path + [node], played;
    if r.Raised? {
      GrownTrans(ns0, before, tree.nodes);
      return;
    }
    WalkStep(p, ns0, before, tree.nodes, node, path, played, r.value, expanded);
    played' := played + {tree.nodes[r.value].move.value};
    if expanded {
      path' := path' + [r.value];
    }
  }

  /** The step `Enter` takes, on the trees before and after the node was entered. */
  lemma WalkStep(p: GravePlayer, ns0: seq<Node<Amaf>>, ns: seq<Node<Amaf>>, ns': seq<Node<Amaf>>, node: nat, path: seq<nat>,
                 played: set<Move>, next: nat, expanded: bool)
    requires Walk(p, ns0, ns, node, path, played) && !IsTerminal(ns[node].state, p.name, p.corner) && Grown(ns, ns')
    requires next < |ns'| && node < next && next in ns'[node].children && ns'[next].move.Some?
    requires expanded ==> next == |ns| && |ns'| == |ns| + 1 && ns'[next].stats == NoAmaf()
    requires !expanded ==> |ns'| == |ns|
    ensures Grown(ns0, ns')
    ensures expanded ==> Selected(p, ns0, ns', next, path + [node] + [next], played + {ns'[next].move.value})
    ensures !expanded ==> Walk(p, ns0, ns', next, path + [node], played + {ns'[next].move.value})
  {
    GrownTrans(ns0, ns, ns');
    StepPath(ns, ns', path, node, next);
    if expanded {
      SelectedNew(p, ns0, ns', next, path + [node] + [next], played + {ns'[next].move.value});
    }
  }

  /** What `tree_policy` returns, against the tree `ns0` it started from and the tree `ns` it
      leaves: `node` is a node; `path` runs down from the root and is empty exactly when the root
      is terminal, and then the root is returned and the tree is unchanged; `played` holds the
      moves of the nodes entered below the root. Either `node` is the one new node, appended to
      the path, with empty AMAF tables, or no node was added and `node` is a terminal child of
      the path's last node, left off the path. */
  ghost predicate Selected(p: GravePlayer, ns0: seq<Node<Amaf>>, ns: seq<Node<Amaf>>, node: nat, path: seq<nat>, played: set<Move>)
  {
    |ns0| > 0 && node < |ns| && Chain(ns, path) && played == Played(ns, path, node) &&
    (path == [] <==> IsTerminal(ns0[0].state, p.name, p.corner)) &&
    (path == [] ==> node == 0 && ns == ns0) &&
    (path != [] ==> path[0] == 0) &&
    (path != [] && node == path[|path| - 1] ==> node == |ns0| && |ns| == |ns0| + 1 && ns[node].stats == NoAmaf()) &&
    (path != [] && node != path[|path| - 1] ==>
      Hangs(ns, path, node) && |ns| == |ns0| && IsTerminal(ns[node].state, p.name, p.corner))
  }

  /** `tree_policy` adds at most one node, and a new node has empty AMAF tables. */
  lemma SelectedFresh(p: GravePlayer, ns0: seq<Node<Amaf>>, ns: seq<Node<Amaf>>, node: nat, path: seq<nat>, played: set<Move>)
    requires Selected(p, ns0, ns, node, path, played) && |ns0| <= |ns|
    ensures |ns| <= |ns0| + 1 && (|ns| > |ns0| ==> ns[|ns0|].stats == NoAmaf())
  {
  }

  /** A round that starts at a root that is not terminal leaves the root with a child. */
  lemma SelectedRootChild(p: GravePlayer, ns0: seq<Node<Amaf>>, ns: seq<Node<Amaf>>, node: nat, path: seq<nat>, played: set<Move>)
    requires Selected(p, ns0, ns, node, path, played) && !IsTerminal(ns0[0].state, p.name, p.corner)
    ensures ns[0].children != []
  {
    if |path| >= 2 {
      assert path[1] in ns[path[0]].children;
    }
  }

  /** The loop of `tree_policy` ended at a terminal node. */
  lemma SelectedLeaf(p: GravePlayer, ns0: seq<Node<Amaf>>, ns: seq<Node<Amaf>>, node: nat, path: seq<nat>, played: set<Move>)
    requires Walk(p, ns0, ns, node, path, played) && IsTerminal(ns[node].state, p.name, p.corner)
    ensures Selected(p, ns0, ns, node, path, played)
  {
  }

  /** `tree_policy` returned the node `expand` created. */
  lemma SelectedNew(p: GravePlayer, ns0: seq<Node<Amaf>>, ns: seq<Node<Amaf>>, node: nat, path: seq<nat>, played: set<Move>)
    requires |ns0| > 0 && path != [] && path[0] == 0 && !IsTerminal(ns0[0].state, p.name, p.corner)
    requires Chain(ns, path) && played == Played(ns, path, node) && node == path[|path| - 1]
    requires node == |ns0| && |ns| == |ns0| + 1 && ns[node].stats == NoAmaf()
    ensures Selected(p, ns0, ns, node, path, played)
  {
  }

  /** Entering `next` below `node` extends the path by `node` and records `next`'s move; the
      path with `next` appended as well records the same moves. */
  lemma StepPath(ns: seq<Node<Amaf>>, ns': seq<Node<Amaf>>, path: seq<nat>, node: nat, next: nat)
    requires Grown(ns, ns') && Chain(ns, path) && Hangs(ns, path, node) && node < |ns|
    requires next < |ns'| && node < next && next in ns'[node].children && ns'[next].move.Some?
    ensures Chain(ns', path + [node]) && Hangs(ns', path + [node], next)
    ensures Played(ns', path + [node], next) == Played(ns, path, node) + {ns'[next].move.value}
    ensures Chain(ns', path + [node] + [next]) && Played(ns', path + [node] + [next], next) == Played(ns', path + [node], next)
  {
    ChainGrown(ns, ns', path, node);
    PlayedGrown(ns, ns', path, node);
    ChainSnoc(ns', path, node);
    PlayedStep(ns', path, node, next);
    PlayedLast(ns', path + [node], next);
    ChainSnoc(ns', path + [node], next);
  }

  /** The body of `tree_policy`'s loop at a node that is not terminal: expand it and return the
      new child, or, when it is fully expanded, return its best child. `best_child` raises
      ValueError exactly when the node has no move at all. */
  method Descend(p: GravePlayer, tree: Tree<Amaf>, node: nat, explore: Explore) returns (r: Result<nat>, expanded: bool)
    requires tree.Valid() && tree.side == p.name && node < |tree.nodes|
    modifies tree
    ensures tree.Valid() && Grown(old(tree.nodes), tree.nodes)
    ensures r.Raised? ==> r.error == ValueError && |tree.nodes| == |old(tree.nodes)|
    ensures r.Ok? ==>
      r.value < |tree.nodes| && node < r.value && r.value in tree.nodes[node].children && tree.nodes[r.value].move.Some?
    ensures r.Ok? && expanded ==> r.value == |old(tree.nodes)| && |tree.nodes| == |old(tree.nodes)| + 1
    ensures r.Ok? && !expanded ==> |tree.nodes| == |old(tree.nodes)|
    ensures r.Ok? && expanded ==> tree.nodes[r.value].stats == NoAmaf()
    ensures r.Raised? <==> AllMoves(old(tree.nodes)[node].state, p.name) == []
    ensures r.Raised? && !IsTerminal(old(tree.nodes)[node].state, p.name, p.corner) ==> HasStuck(tree.nodes, p.name, p.corner)
  {
    var child := tree.ExpandIfPending(node, NoAmaf());
    if child.Some? {
      return Ok(child.value), true;
    }
    PendingOfValid(tree.nodes, tree.side, node);
    TreeInArena(tree.nodes, tree.side);
    r := BestChild(tree.nodes, node, explore);
    expanded := false;
    if r.Raised? && !IsTerminal(tree.nodes[node].state, p.name, p.corner) {
      assert Stuck(tree.nodes[node].state, p.name, p.corner);
    }
    if r.Ok? {
      DescendStep(tree.nodes, tree.side, node, r.value);
    }
  }

  lemma DescendStep(ns: seq<Node<Amaf>>, side: Name, i: nat, c: nat)
    requires TreeOk(ns, side) && i < |ns| && c in ns[i].children
    ensures c < |ns| && i < c && ns[c].move.Some? && ns[c].parent == Some(i)
  {
    assert NodeOk(ns, side, i);
    var k :| 0 <= k < |ns[i].children| && ns[i].children[k] == c;
    assert ChildOf(ns, side, i, ns[i].children[k]);
  }

  // ---------------------------------------------------------------------------------------------
  // Backup

  /** The inner loop of `backup` on one node's tables: every move of `played` gets one AMAF visit
      more and the reward added; the other entries stay. */
  function Credit(a: Amaf, played: set<Move>, reward: real): Amaf
  {
    Amaf(
      map m | m in a.visits.Keys + played :: if m in played then AmafVisits(a, Some(m)) + 1 else a.visits[m],
      map m | m in a.totalReward.Keys + played :: if m in played then AmafReward(a, Some(m)) + reward else a.totalReward[m])
  }

  /** Each played move gets one AMAF visit more and the reward added to its AMAF total; every
      other move keeps its entries. */
  lemma CreditSpec(a: Amaf, played: set<Move>, reward: real, m: Move)
    ensures AmafVisits(Credit(a, played, reward), Some(m)) == AmafVisits(a, Some(m)) + if m in played then 1 else 0
    ensures AmafReward(Credit(a, played, reward), Some(m)) == AmafReward(a, Some(m)) + if m in played then reward else 0.0
  {
  }

  /** One pass of `backup`'s outer loop over a node. */
  function Backed(n: Node<Amaf>, played: set<Move>, reward: real): Node<Amaf>
  {
    n.(visits := n.visits + 1, totalReward := n.totalReward + reward, stats := Credit(n.stats, played, reward))
  }

  /** `times` passes over the same node, as a path that lists it `times` times gets. */
  function BackedTimes(n: Node<Amaf>, played: set<Move>, reward: real, times: nat): Node<Amaf>
  {
    if times == 0 then n else Backed(BackedTimes(n, played, reward, times - 1), played, reward)
  }

  /** After `times` passes a node has `times` visits more and `times` rewards more; its frame,
      children and move list stay. */
  lemma {:induction false} BackedTimesCounts(n: Node<Amaf>, played: set<Move>, reward: real, times: nat)
    ensures var b := BackedTimes(n, played, reward, times);
      Frame(n, b) && b.children == n.children && b.untriedMoves == n.untriedMoves &&
      b.visits == n.visits + times && b.totalReward == n.totalReward + (times as real) * reward
  {
    if times > 0 {
      BackedTimesCounts(n, played, reward, times - 1);
    }
    BackedTimesReward(n, played, reward, times);
  }

  lemma {:induction false} BackedTimesReward(n: Node<Amaf>, played: set<Move>, reward: real, times: nat)
    ensures BackedTimes(n, played, reward, times).totalReward == n.totalReward + (times as real) * reward
  {
    if times > 0 {
      var prev := BackedTimes(n, played, reward, times - 1);
      BackedTimesReward(n, played, reward, times - 1);
      calc {
        BackedTimes(n, played, reward, times).totalReward;
        prev.totalReward + reward;
        n.totalReward + ((times - 1) as real) * reward + reward;
        { MoreRewards(n.totalReward, reward, times); }
        n.totalReward + (times as real) * reward;
      }
    }
  }

  /** One reward more on top of `k - 1` rewards makes `k`. */
  lemma MoreRewards(total: real, reward: real, k: nat)
    requires k > 0
    ensures total + ((k - 1) as real) * reward + reward == total + (k as real) * reward
  {
  }

  /** After `times` passes each played move has `times` AMAF visits more, and every other move
      the same. */
  lemma {:induction false} BackedTimesAmaf(n: Node<Amaf>, played: set<Move>, reward: real, times: nat, m: Move)
    ensures AmafVisits(BackedTimes(n, played, reward, times).stats, Some(m)) ==
            AmafVisits(n.stats, Some(m)) + if m in played then times else 0
  {
    if times > 0 {
      var prev := BackedTimes(n, played, reward, times - 1);
      BackedTimesAmaf(n, played, reward, times - 1, m);
      assert BackedTimes(n, played, reward, times).stats == Credit(prev.stats, played, reward);
      CreditSpec(prev.stats, played, reward, m);
    }
  }

  /** No AMAF entry of any node counts more simulations than the node's own visits. */
  ghost predicate AmafBounded(ns: seq<Node<Amaf>>)
  {
    forall j, m :: 0 <= j < |ns| ==> AmafVisits(ns[j].stats, Some(m)) <= ns[j].visits
  }

  /** Growth keeps the bound when the new nodes start with empty tables. */
  lemma GrownBounded(ns: seq<Node<Amaf>>, ns': seq<Node<Amaf>>)
    requires Grown(ns, ns') && |ns'| <= |ns| + 1 && (|ns'| > |ns| ==> ns'[|ns|].stats == NoAmaf())
    ensures AmafBounded(ns) ==> AmafBounded(ns')
  {
  }

  /** Backing up keeps the bound: each pass adds one visit to its node and at most one to each of
      the node's AMAF entries. */
  lemma BackupBounded(ns: seq<Node<Amaf>>, ns': seq<Node<Amaf>>, path: seq<nat>, played: set<Move>, reward: real)
    requires |ns'| == |ns| && forall j :: 0 <= j < |ns| ==> ns'[j] == BackedTimes(ns[j], played, reward, Count(path, j))
    ensures AmafBounded(ns) ==> AmafBounded(ns')
  {
    if AmafBounded(ns) {
      forall j, m | 0 <= j < |ns| ensures AmafVisits(ns'[j].stats, Some(m)) <= ns'[j].visits {
        BackedTimesBounded(ns[j], played, reward, Count(path, j), m);
      }
    }
  }

  /** A node whose AMAF entries never exceed its own visits keeps that bound through any number
      of passes: each pass adds one visit to the node and at most one to each entry. */
  lemma BackedTimesBounded(n: Node<Amaf>, played: set<Move>, reward: real, times: nat, m: Move)
    requires AmafVisits(n.stats, Some(m)) <= n.visits
    ensures AmafVisits(BackedTimes(n, played, reward, times).stats, Some(m)) <= BackedTimes(n, played, reward, times).visits
  {
    BackedTimesCounts(n, played, reward, times);
    BackedTimesAmaf(n, played, reward, times, m);
  }

  /** Crediting no move changes nothing. */
  lemma CreditNone(a: Amaf, reward: real)
    ensures Credit(a, {}, reward) == a
  {
    assert Credit(a, {}, reward).visits == a.visits;
    assert Credit(a, {}, reward).totalReward == a.totalReward;
  }

  /** The body of `backup`'s inner loop for one move: `get(move, 0) + 1` and `get(move, 0) + reward`. */
  function CreditMove(a: Amaf, m: Move, reward: real): Amaf
  {
    Amaf(a.visits[m := AmafVisits(a, Some(m)) + 1], a.totalReward[m := AmafReward(a, Some(m)) + reward])
  }

  /** Crediting one move more is one more pass of the inner loop's body. */
  lemma CreditStep(a: Amaf, done: set<Move>, m: Move, reward: real)
    requires m !in done
    ensures Credit(a, done + {m}, reward) == CreditMove(Credit(a, done, reward), m, reward)
  {
    CreditVisitsStep(a, done, m, reward);
    CreditRewardStep(a, done, m, reward);
  }

  /** The inner loop's body applied to `ms` in order. */
  function CreditSeq(a: Amaf, ms: seq<Move>, reward: real): Amaf
  {
    if ms == [] then a else CreditMove(CreditSeq(a, ms[..|ms| - 1], reward), ms[|ms| - 1], reward)
  }

  /** Crediting distinct moves one at a time, in any order, credits exactly the set of them. */
  lemma {:induction false} CreditSeqIsCredit(a: Amaf, ms: seq<Move>, reward: real)
    requires Distinct(ms)
    ensures CreditSeq(a, ms, reward) == Credit(a, Elements(ms), reward)
  {
    if ms == [] {
      CreditNone(a, reward);
    } else {
      var init, last := ms[..|ms| - 1], ms[|ms| - 1];
      DistinctInit(ms);
      CreditSeqIsCredit(a, init, reward);
      var done := Elements(init);
      SnocElements(ms);
      CreditStep(a, done, last, reward);
      calc {
        CreditSeq(a, ms, reward);
        CreditMove(CreditSeq(a, init, reward), last, reward);
        CreditMove(Credit(a, done, reward), last, reward);
        Credit(a, done + {last}, reward);
      }
    }
  }

  /** The moves a sequence lists. */
  function Elements(ms: seq<Move>): set<Move>
  {
    set m | m in ms
  }

  /** The elements of a non-empty sequence are those of its prefix and its last element. */
  lemma SnocElements(ms: seq<Move>)
    requires |ms| > 0
    ensures Elements(ms) == Elements(ms[..|ms| - 1]) + {ms[|ms| - 1]}
  {
    assert ms == ms[..|ms| - 1] + [ms[|ms| - 1]];
  }

  /** The inner loop of `backup`, over the played moves in any order. */
  method AddPlayed(a: Amaf, played: set<Move>, reward: real) returns (a': Amaf)
    ensures a' == Credit(a, played, reward)
  {
    a' := a;
    var rest := played;
    ghost var order: seq<Move> := [];
    while rest != {}
      invariant rest <= played && Distinct(order)
      invariant forall m :: m in order <==> m in played && m !in rest
      invariant a' == CreditSeq(a, order, reward)
      decreases |rest|
    {
      var m :| m in rest;
      DistinctSnoc(order, m);
      a' := CreditMove(a', m, reward);
      order := order + [m];
      rest := rest - {m};
    }
    CreditSeqIsCredit(a, order, reward);
    assert Elements(order) == played;
  }

  lemma CreditVisitsStep(a: Amaf, done: set<Move>, m: Move, reward: real)
    requires m !in done
    ensures var c := Credit(a, done, reward);
      Credit(a, done + {m}, reward).visits == c.visits[m := AmafVisits(c, Some(m)) + 1]
  {
  }

  lemma CreditRewardStep(a: Amaf, done: set<Move>, m: Move, reward: real)
    requires m !in done
    ensures var c := Credit(a, done, reward);
      Credit(a, done + {m}, reward).totalReward == c.totalReward[m := AmafReward(c, Some(m)) + reward]
  {
  }

  /** `backup`: for each node of the path, from its end to its start, one visit more, the reward
      added, and every played move credited in the node's AMAF tables. A node listed `t` times
      gets `t` passes; nothing else changes. */
  method Backup(tree: Tree<Amaf>, path: seq<nat>, played: set<Move>, reward: real)
    requires tree.Valid() && forall k :: 0 <= k < |path| ==> path[k] < |tree.nodes|
    modifies tree
    ensures tree.Valid() && |tree.nodes| == |old(tree.nodes)|
    ensures forall j :: 0 <= j < |tree.nodes| ==>
      tree.nodes[j] == BackedTimes(old(tree.nodes)[j], played, reward, Count(path, j))
    ensures AmafBounded(old(tree.nodes)) ==> AmafBounded(tree.nodes)
  {
    ghost var ns := tree.nodes;
    var i := |path|;
    while i > 0
      invariant 0 <= i <= |path| && |tree.nodes| == |ns|
      invariant forall j :: 0 <= j < |ns| ==> tree.nodes[j] == BackedTimes(ns[j], played, reward, Count(path[i..], j))
    {
      i := i - 1;
      var c := path[i];
      var n := tree.nodes[c];
      var credited := AddPlayed(n.stats, played, reward);
      ghost var prev := tree.nodes;
      tree.nodes := tree.nodes[c := n.(visits := n.visits + 1, totalReward := n.totalReward + reward, stats := credited)];
      assert tree.nodes == prev[c := Backed(prev[c], played, reward)];
      BackupStep(ns, prev, tree.nodes, path, i, played, reward);
    }
    assert path[0..] == path;
    forall j | 0 <= j < |ns|
      ensures Frame(ns[j], tree.nodes[j]) && tree.nodes[j].children == ns[j].children &&
        tree.nodes[j].untriedMoves == ns[j].untriedMoves
    {
      BackedTimesCounts(ns[j], played, reward, Count(path, j));
    }
    StatsOnly(ns, tree.nodes, tree.side);
    BackupBounded(ns, tree.nodes, path, played, reward);
  }

  /** One pass of `backup`'s outer loop over `path[i]`, on top of the passes over `path[i + 1..]`,
      makes the passes over `path[i..]`. */
  lemma BackupStep(ns: seq<Node<Amaf>>, prev: seq<Node<Amaf>>, cur: seq<Node<Amaf>>, path: seq<nat>, i: nat,
                   played: set<Move>, reward: real)
    requires i < |path| && path[i] < |ns| && |prev| == |ns|
    requires forall j :: 0 <= j < |ns| ==> prev[j] == BackedTimes(ns[j], played, reward, Count(path[i + 1..], j))
    requires cur == prev[path[i] := Backed(prev[path[i]], played, reward)]
    ensures forall j :: 0 <= j < |ns| ==> cur[j] == BackedTimes(ns[j], played, reward, Count(path[i..], j))
  {
    var c := path[i];
    assert path[i..] == [c] + path[i + 1..];
    forall j | 0 <= j < |ns| ensures cur[j] == BackedTimes(ns[j], played, reward, Count(path[i..], j)) {
      var t := Count(path[i + 1..], j);
      if j == c {
        assert Count(path[i..], j) == t + 1;
      } else {
        assert Count(path[i..], j) == t;
      }
    }
  }

  /** A chain from the root is the root's line of descent to its last node: its nodes are those
      the parent links lead through from the last one, each once. */
  lemma {:induction false} ChainAnc(ns: seq<Node<Amaf>>, side: Name, path: seq<nat>)
    requires TreeOk(ns, side) && Chain(ns, path) && path != [] && path[0] == 0
    ensures forall j :: j in Anc(ns, path[|path| - 1]) <==> j in path
    ensures Distinct(path)
  {
    var last := path[|path| - 1];
    if |path| == 1 {
      assert NodeOk(ns, side, 0);
    } else {
      var init := path[..|path| - 1];
      assert path == init + [last];
      assert Chain(ns, init) by {
        assert forall k :: 0 <= k < |init| ==> init[k] == path[k];
      }
      ChainAnc(ns, side, init);
      var prev := init[|init| - 1];
      DescendStep(ns, side, prev, last);
      assert Anc(ns, last) == {last} + Anc(ns, prev);
      DistinctSnoc(init, last);
    }
  }

  /** Backing a round up along a chain from the root keeps every node's visits at least its
      children's total, and adds one visit to the root unless the chain is empty. */
  lemma ChainBackup(ns: seq<Node<Amaf>>, ns': seq<Node<Amaf>>, side: Name, path: seq<nat>, played: set<Move>, reward: real)
    requires TreeOk(ns, side) && VisitsCover(ns) && Chain(ns, path) && (path != [] ==> path[0] == 0)
    requires |ns'| == |ns| && forall j :: 0 <= j < |ns| ==> ns'[j] == BackedTimes(ns[j], played, reward, Count(path, j))
    ensures VisitsCover(ns')
    ensures Frame(ns[0], ns'[0]) && ns'[0].children == ns[0].children
    ensures ns'[0].visits == ns[0].visits + if path == [] then 0 else 1
  {
    BackedTimesCounts(ns[0], played, reward, Count(path, 0));
    if path == [] {
      assert ns' == ns;
    } else {
      var last := path[|path| - 1];
      ChainAnc(ns, side, path);
      forall j | 0 <= j < |ns|
        ensures ns'[j].children == ns[j].children
        ensures ns'[j].visits == ns[j].visits + if j in Anc(ns, last) then 1 else 0
      {
        CountDistinct(path, j);
        BackedTimesCounts(ns[j], played, reward, Count(path, j));
      }
      BumpCover(ns, ns', side, last);
    }
  }

  /** The GRAVE `default_policy`: 0 without pieces, else 1 / (1 + the average distance to the
      goal); with pieces and no goal cells `min` raises ValueError. */
  method DefaultPolicy(p: GravePlayer, state: Grid) returns (r: Result<real>)
    ensures r == GraveReward(state, p.name, p.corner)
  {
    var pieces := Pieces(state, p.name);
    if pieces == [] {
      return Ok(0.0);
    }
    var total := SumDistances(pieces, p.corner);
    if total.Raised? {
      return Raised(total.error);
    }
    var average := (total.value as real) / (|pieces| as real);
    r := Ok(1.0 / (1.0 + average));
  }

  /** One round of `move`'s loop: select a path, evaluate the board it ends on, back the reward up
      along the path. The root keeps its board; it gets one visit more unless it is terminal (then
      the path is empty), and no child while it is terminal; after a round that does not raise, a
      root that is not terminal has a child. At most one node is added. A round raises ValueError only at a
      stuck position or, with pieces, an empty goal list. */
  method Simulate(p: GravePlayer, tree: Tree<Amaf>, explore: Explore) returns (r: Result<()>)
    requires tree.Valid() && tree.side == p.name && VisitsCover(tree.nodes) && AmafBounded(tree.nodes)
    modifies tree
    ensures tree.Valid() && VisitsCover(tree.nodes) && AmafBounded(tree.nodes)
    ensures tree.nodes[0].state == old(tree.nodes)[0].state
    ensures |tree.nodes| <= |old(tree.nodes)| + 1
    ensures r.Raised? ==> r.error == ValueError && (p.corner == [] || HasStuck(tree.nodes, p.name, p.corner))
    ensures r.Ok? ==>
      tree.nodes[0].visits == old(tree.nodes)[0].visits + if IsTerminal(old(tree.nodes)[0].state, p.name, p.corner) then 0 else 1
    ensures IsTerminal(old(tree.nodes)[0].state, p.name, p.corner) ==> tree.nodes[0].children == old(tree.nodes)[0].children
    ensures r.Ok? && !IsTerminal(old(tree.nodes)[0].state, p.name, p.corner) ==> tree.nodes[0].children != []
  {
    ghost var start := tree.nodes;
    var node, path, played := TreePolicy(p, tree, explore);
    GrownCover(start, tree.nodes, tree.side);
    if node.Raised? {
      GrownBounded(start, tree.nodes);
      return Raised(node.error);
    }
    SelectedFresh(p, start, tree.nodes, node.value, path, played);
    if !IsTerminal(start[0].state, p.name, p.corner) {
      SelectedRootChild(p, start, tree.nodes, node.value, path, played);
    }
    GrownBounded(start, tree.nodes);
    var reward := DefaultPolicy(p, tree.nodes[node.value].state);
    if reward.Raised? {
      return Raised(reward.error);
    }
    ghost var before := tree.nodes;
    Backup(tree, path, played, reward.value);
    ChainBackup(before, tree.nodes, tree.side, path, played, reward.value);
    assert Frame(start[0], before[0]);
    r := Ok(());
  }

  /** The loop of `move`: `simulations` rounds from a root over the given board; a round that
      raises ends the search with its error. */
  method Search(p: GravePlayer, grid: Grid, explore: Explore) returns (r: Result<()>, tree: Tree<Amaf>)
    requires grid.WellFormed()
    ensures tree.Valid() && tree.side == p.name && VisitsCover(tree.nodes) && AmafBounded(tree.nodes)
    ensures tree.nodes[0].state == grid
    ensures r.Raised? ==> r.error == ValueError && (p.corner == [] || HasStuck(tree.nodes, p.name, p.corner))
    ensures r.Ok? && p.simulations > 0 && !IsTerminal(grid, p.name, p.corner) ==> tree.nodes[0].children != []
    ensures r.Ok? ==>
      tree.nodes[0].visits == if p.simulations <= 0 || IsTerminal(grid, p.name, p.corner) then 0 else p.simulations
    ensures p.simulations <= 0 || IsTerminal(grid, p.name, p.corner) ==> tree.nodes[0].children == []
  {
    tree := new Tree(grid, p.name, NoAmaf());
    var i := 0;
    while i < p.simulations
      invariant tree.Valid() && tree.side == p.name && VisitsCover(tree.nodes) && AmafBounded(tree.nodes)
      invariant tree.nodes[0].state == grid
      invariant tree.nodes[0].visits == if IsTerminal(grid, p.name, p.corner) then 0 else i
      invariant 0 <= i <= if p.simulations > 0 then p.simulations else 0
      invariant (i == 0 || IsTerminal(grid, p.name, p.corner)) ==> tree.nodes[0].children == []
      invariant i > 0 && !IsTerminal(grid, p.name, p.corner) ==> tree.nodes[0].children != []
    {
      r := Simulate(p, tree, explore);
      if r.Raised? {
        return;
      }
      i := i + 1;
    }
    r := Ok(());
  }

  /** `move`: the search, then the move of the root child with the best blended value (the
      exploration term is 0), the first one among equals. With no rounds, a terminal root or a
      root without moves, ValueError is raised; otherwise it is raised only when the search meets
      a stuck position or, with pieces, an empty goal list. */
  method Move(p: GravePlayer, grid: Grid, explore: Explore) returns (r: Result<Move>, tree: Tree<Amaf>)
    requires grid.WellFormed()
    ensures tree.Valid() && tree.side == p.name && tree.nodes[0].state == grid
    ensures VisitsCover(tree.nodes) && AmafBounded(tree.nodes)
    ensures r.Raised? ==>
      r.error == ValueError &&
      (p.simulations <= 0 || IsTerminal(grid, p.name, p.corner) || p.corner == [] || HasStuck(tree.nodes, p.name, p.corner))
    ensures p.simulations <= 0 || IsTerminal(grid, p.name, p.corner) || AllMoves(grid, p.name) == [] ==> r.Raised?
    ensures r.Ok? ==> 0 < p.simulations && !IsTerminal(grid, p.name, p.corner) && r.value in AllMoves(grid, p.name)
    ensures r.Ok? ==> tree.nodes[0].visits == p.simulations
    ensures r.Ok? ==>
      exists k :: 0 <= k < |tree.nodes[0].children| && FirstBestQ(tree.nodes, k) &&
        tree.nodes[tree.nodes[0].children[k]].move == Some(r.value)
  {
    var searched;
    searched, tree := Search(p, grid, explore);
    if searched.Raised? {
      return Raised(searched.error), tree;
    }
    TreeInArena(tree.nodes, tree.side);
    PendingOfValid(tree.nodes, tree.side, 0);
    var best := BestChild(tree.nodes, 0, NoExplore());
    if best.Raised? {
      return Raised(best.error), tree;
    }
    RootChildMove(tree.nodes, tree.side, best.value);
    FirstBestOfBestChild(tree.nodes, best.value);
    r := Ok(tree.nodes[best.value].move.value);
  }

  /** The child `best_child(c_param=0)` picks at the root is the first with the highest blended
      value. */
  lemma FirstBestOfBestChild(ns: seq<Node<Amaf>>, c: nat)
    requires |ns| > 0 && InArena(ns) && BestChild(ns, 0, NoExplore()) == Ok(c)
    ensures exists k :: 0 <= k < |ns[0].children| && ns[0].children[k] == c && FirstBestQ(ns, k)
  {
    var ch := ns[0].children;
    var k :| 0 <= k < |ch| && ch[k] == c &&
      forall j :: 0 <= j < k ==> GraveScore(ns, 0, ch[j], NoExplore()) < GraveScore(ns, 0, c, NoExplore());
    forall d | 0 <= d < |ns| ensures GraveScore(ns, 0, d, NoExplore()) == GraveQ(ns, 0, d) {
      NoExploreScore(ns, d);
    }
    assert FirstBestQ(ns, k);
  }

  /** With the exploration term at 0 a child's score is its blended value. */
  lemma NoExploreScore(ns: seq<Node<Amaf>>, d: nat)
    requires 0 < |ns| && d < |ns|
    ensures GraveScore(ns, 0, d, NoExplore()) == GraveQ(ns, 0, d)
  {
    assert NoExplore()(ns[0].visits, ns[d].visits) == 0.0;
  }

  /** Root child number `k` has the highest blended value among the root's children, and every
      earlier child a strictly lower one: the child `max` picks with the exploration term at 0. */
  ghost predicate FirstBestQ(ns: seq<Node<Amaf>>, k: nat)
    requires |ns| > 0 && k < |ns[0].children|
  {
    var ch := ns[0].children;
    ch[k] < |ns| &&
    (forall d :: d in ch && d < |ns| ==> GraveQ(ns, 0, d) <= GraveQ(ns, 0, ch[k])) &&
    (forall j :: 0 <= j < k && ch[j] < |ns| ==> GraveQ(ns, 0, ch[j]) < GraveQ(ns, 0, ch[k]))
  }
}
