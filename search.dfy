/** The `Astar` navigation engine: the search fields of the graph's nodes
    and the engine's lists, updated in place as the source does, with each
    method proved to perform the step the `Plan`, `Reset`, `Trace` and `Run`
    modules define on an `Engine` value. `Snap` reads that value off the
    heap.

    Two ghost fields record what the source keeps implicit: `depth` ranks
    every node of the search tree above its parent (so parent chains end),
    and `committed` is the path `ReconstructPath` linked, from the start
    node to the destination, that `MoveDirection` walks along. */
module Search {
  import opened Geometry
  import opened Sequences
  import opened Grid
  import opened Graph
  import opened Plan
  import opened Reset
  import opened Trace
  import opened Run

  /** The search fields of the node `n`. */
  ghost function LinksOf(n: Node): Links
    reads n`parent, n`child, n`destination, n`G, n`H, n`state, n`nodeType, n`connected
  {
    Links(n.parent, n.child, n.destination, n.G, n.H, n.state, n.nodeType, n.connected)
  }

  /** The type of every node. */
  ghost function Kinds(nodes: map<Node, Links>): (k: map<Node, NodeType>)
    ensures k.Keys == nodes.Keys
  {
    map x | x in nodes :: nodes[x].kind
  }

  lemma KindsKept(a: map<Node, Links>, b: map<Node, Links>)
    requires a.Keys == b.Keys && forall x :: x in a ==> b[x].kind == a[x].kind
    ensures Kinds(a) == Kinds(b)
  {
  }

  /** A change of state keeps every type. */
  lemma RestatedKinds(e: Engine, n: Node, st: State)
    requires n in e.nodes
    ensures Kinds(Restated(e, n, st).nodes) == Kinds(e.nodes)
  {
    KindsKept(e.nodes, Restated(e, n, st).nodes);
  }

  /** `n` is what `NearestUnobstructedNode(p)` returns on a graph whose nodes
      have the types `kinds`: an unobstructed node nearest to `p`, of the
      least index among those (the scan keeps the first of equals), or the
      node of index 0 when every node is obstructed. */
  ghost predicate Picked(kinds: map<Node, NodeType>, dist: Metric, n: Node, p: Vec3) {
    && n in kinds
    && (kinds[n] != Obstructed ==>
          forall m :: m in kinds && kinds[m] != Obstructed ==>
            && dist(n.position, p) <= dist(m.position, p)
            && (m.index < n.index ==> dist(n.position, p) < dist(m.position, p)))
    && (kinds[n] == Obstructed ==> n.index == 0 && forall m :: m in kinds ==> kinds[m] == Obstructed)
  }

  /** The search's end points are the nodes `BuildPath` picks for the bot
      position `bot` and the target `target`. */
  ghost predicate Picks(e: Engine, dist: Metric, bot: Vec3, target: Vec3) {
    && e.start != null && e.dest != null
    && Picked(Kinds(e.nodes), dist, e.start, bot)
    && Picked(Kinds(e.nodes), dist, e.dest, target)
  }

  /** A search built from end points picked on the graph `e` keeps them
      picked on the graph it leaves behind. */
  lemma BuildPicks(e: Engine, s: Node, d: Node, bound: nat, dist: Metric, bot: Vec3, target: Vec3)
    requires Blank(e) && Wired(e.nodes) && Fits(e, bound) && s in e.nodes && d in e.nodes
    requires Picked(Kinds(e.nodes), dist, s, bot) && Picked(Kinds(e.nodes), dist, d, target)
    ensures Picks(Build(e, s, d, bound), dist, bot, target)
  {
    KindsKept(e.nodes, Build(e, s, d, bound).nodes);
  }

  /** The `k`-th point the loop of `DepthData` samples on the segment from
      `start` to `end`, `spacing` apart from `start`, is below the segment's
      length, and `n` is the node of `among` closest to it. */
  ghost predicate SampledAt(among: set<Node>, dist: Metric, spacing: real, start: Vec3, end: Vec3, n: Node, k: nat) {
    && 0.0 <= Along(k, spacing) < dist(start, end)
    && Closest(n, Lerp(start, end, Along(k, spacing) / dist(start, end)), among, dist)
  }

  /** `marked` are the nodes closest to the points sampled, one per point,
      and the loop stops at the first point not below the length. */
  ghost predicate Sampled(among: set<Node>, dist: Metric, spacing: real, start: Vec3, end: Vec3, marked: seq<Node>) {
    && dist(start, end) <= Along(|marked|, spacing)
    && forall k :: 0 <= k < |marked| ==> SampledAt(among, dist, spacing, start, end, marked[k], k)
  }

  /** `Sampled` without the stopping condition, as the loop builds it. */
  ghost predicate SampledUpTo(among: set<Node>, dist: Metric, spacing: real, start: Vec3, end: Vec3, marked: seq<Node>)
    decreases |marked|
  {
    var k := |marked| - 1;
    marked != [] ==>
      && SampledUpTo(among, dist, spacing, start, end, marked[..k])
      && 0.0 <= Along(k, spacing) < dist(start, end)
      && Closest(marked[k], Lerp(start, end, Along(k, spacing) / dist(start, end)), among, dist)
  }

  lemma {:induction false} SampledEach(among: set<Node>, dist: Metric, spacing: real, start: Vec3, end: Vec3, marked: seq<Node>)
    requires SampledUpTo(among, dist, spacing, start, end, marked)
    ensures forall k :: 0 <= k < |marked| ==> SampledAt(among, dist, spacing, start, end, marked[k], k)
    decreases |marked|
  {
    if marked != [] {
      var init := marked[..|marked| - 1];
      SampledEach(among, dist, spacing, start, end, init);
      assert forall k :: 0 <= k < |init| ==> marked[k] == init[k];
    }
  }

  lemma SampledMore(among: set<Node>, dist: Metric, spacing: real, start: Vec3, end: Vec3, marked: seq<Node>, n: Node)
    requires SampledUpTo(among, dist, spacing, start, end, marked)
    requires 0.0 <= Along(|marked|, spacing) < dist(start, end)
    requires Closest(n, Lerp(start, end, Along(|marked|, spacing) / dist(start, end)), among, dist)
    ensures SampledUpTo(among, dist, spacing, start, end, marked + [n])
  {
    assert (marked + [n])[..|marked|] == marked;
  }

  /** What a depth report leaves, from the engine `e0`: the nodes `marked`
      are cleared and `hit`, when there is one, obstructed (`Reported`); the
      search starts again (`replanned`) exactly when `hit` was on the walk
      `NodeInPath` makes, and then the engine `e` is a fresh search between
      the nodes picked for `bot` and `tgt` on the reported graph; otherwise
      `e` is the reported engine. */
  ghost predicate Reacted(e0: Engine, marked: seq<Node>, hit: Node?, replanned: bool, e: Engine, dist: Metric, bot: Vec3, tgt: Vec3, bound: nat)
    requires Restartable(e0)
  {
    && (forall n :: n in marked ==> n in e0.nodes)
    && (hit != null ==> hit in e0.nodes)
    && var r := Reported(e0, marked, hit);
    && (replanned <==> hit != null && InPath(e0, hit))
    && (!replanned ==> e == r)
    && (replanned ==>
          && e.start != null && e.dest != null
          && Picked(Kinds(r.nodes), dist, e.start, bot) && Picked(Kinds(r.nodes), dist, e.dest, tgt)
          && Fits(r, bound) && e == Restart(r, e.start, e.dest, bound))
  }

  /** After a depth report every node has the type the report gives it,
      whether or not the search started again: a node that was obstructed
      stays obstructed, the hit node is obstructed, the other marked nodes
      are walkable, and every other node keeps its type. */
  lemma ReactedKinds(e0: Engine, marked: seq<Node>, hit: Node?, replanned: bool, e: Engine, dist: Metric, bot: Vec3, tgt: Vec3, bound: nat)
    requires Restartable(e0) && Reacted(e0, marked, hit, replanned, e, dist, bot, tgt, bound)
    ensures e.nodes.Keys == e0.nodes.Keys
    ensures forall x :: x in e0.nodes ==>
      e.nodes[x].kind ==
        if x == hit then Obstructed
        else if x in marked && e0.nodes[x].kind != Obstructed then Walkable
        else e0.nodes[x].kind
  {
    ReportedKinds(e0, marked, hit);
  }

  /** A depth report keeps the engine invariant: the hit node is either off
      the walk of `NodeInPath`, or the search starts again. */
  lemma ReactedConsistent(e0: Engine, marked: seq<Node>, hit: Node?, replanned: bool, e: Engine, dist: Metric, bot: Vec3, tgt: Vec3, bound: nat)
    requires Consistent(e0) && Reacted(e0, marked, hit, replanned, e, dist, bot, tgt, bound)
    ensures Consistent(e) && e.nodes.Keys == e0.nodes.Keys
  {
    ReportedKeeps(e0, marked, hit);
    ReactedKinds(e0, marked, hit, replanned, e, dist, bot, tgt, bound);
  }

  class Astar {
    const graphData: SquareGraph
    var target: Vec3
    var botposition: Vec3
    var open: seq<Node>
    var closed: seq<Node>
    var startNode: Node?
    var destinationNode: Node?
    var nextNodeInPath: Node?
    ghost var depth: map<Node, nat>
    ghost var committed: seq<Node>

    /** The search fields of every graph node. */
    ghost function View(): (v: map<Node, Links>)
      reads graphData, graphData.Repr`parent, graphData.Repr`child, graphData.Repr`destination, graphData.Repr`G
      reads graphData.Repr`H, graphData.Repr`state, graphData.Repr`nodeType, graphData.Repr`connected
      ensures v.Keys == graphData.Repr
    {
      map n | n in graphData.Repr :: LinksOf(n)
    }

    /** The engine as a value. */
    ghost function Snap(): Engine
      reads this`open, this`closed, this`startNode, this`destinationNode, this`nextNodeInPath, this`depth, this`committed
      reads graphData, graphData.Repr
    {
      Engine(View(), open, closed, startNode, destinationNode, nextNodeInPath, depth, committed)
    }

    /** `graphData.graph.Length`, the bound of the `ReconstructPath` loop. */
    function Bound(): nat
      reads graphData
    {
      graphData.nodes.Length
    }

    /** The engine invariant between public calls. */
    ghost predicate Valid()
      reads this`open, this`closed, this`startNode, this`destinationNode, this`nextNodeInPath, this`depth, this`committed
      reads graphData, graphData.nodes, graphData.Repr
    {
      graphData.Valid() && Fits(Snap(), Bound()) && Consistent(Snap())
    }

    /** What a new search needs: the lists are well formed and every node
        off them is idle. The committed path may have been broken by an
        obstruction. */
    ghost predicate Ready()
      reads this`open, this`closed, this`startNode, this`destinationNode, this`nextNodeInPath, this`depth, this`committed
      reads graphData, graphData.nodes, graphData.Repr
    {
      graphData.Indexed() && Wired(View()) && Fits(Snap(), Bound()) && ListsValid(Snap()) && Idle(Snap())
    }

    /** What `NearestUnobstructedNode` returned for `p` is `n`, on the
        node types of the graph. */
    lemma PickedFrom(n: Node, p: Vec3)
      requires graphData.Indexed() && graphData.NearestUnobstructed(n, p)
      ensures Picked(Kinds(View()), graphData.dist, n, p)
    {
      var k := Kinds(View());
      var dist := graphData.dist;
      if n.nodeType != Obstructed {
        forall m | m in k && k[m] != Obstructed
          ensures dist(n.position, p) <= dist(m.position, p)
          ensures m.index < n.index ==> dist(n.position, p) < dist(m.position, p)
        {
          assert graphData.nodes[m.index] == m && m in graphData.Unobstructed();
        }
      } else {
        forall m | m in k
          ensures k[m] == Obstructed
        {
          assert graphData.nodes[m.index] == m;
        }
      }
    }

    /** The graph is wired and no larger than the bound. */
    lemma GraphFits()
      requires graphData.Valid()
      ensures Wired(View()) && Fits(Snap(), Bound())
    {
      graphData.ReprBound();
    }

    /** `Astar()` followed by `SetSearchSpace(searchSpace)` with bounds `min`
        .. `max`: no search over a fresh `n` x `n` graph (`SetSearchSpace`
        passes 50). */
    constructor (min: Vec3, max: Vec3, n: nat, dist: Metric)
      requires n > 0 && NonNegative(dist)
      ensures Valid() && fresh(graphData) && fresh(graphData.Repr)
      ensures graphData.size == n && graphData.dist == dist
      ensures open == [] && closed == [] && startNode == null && destinationNode == null && nextNodeInPath == null
      ensures forall n :: n in graphData.Repr ==> n.Pristine()
    {
      graphData := new SquareGraph(min, max, n, dist);
      target, botposition := Zero, Zero;
      open, closed := [], [];
      startNode, destinationNode, nextNodeInPath := null, null, null;
      depth, committed := map[], [];
      new;
      Pristine();
    }

    /** A graph of untouched nodes and empty lists is a valid engine. */
    lemma Pristine()
      requires graphData.Valid() && forall n :: n in graphData.Repr ==> n.Pristine()
      requires open == [] && closed == [] && startNode == null && nextNodeInPath == null && committed == []
      ensures Valid()
    {
      GraphFits();
      ghost var e := Snap();
      assert Blank(e) by {
        forall x | x in e.nodes
          ensures e.nodes[x].parent == null && e.nodes[x].child == null && e.nodes[x].state == Regular
        {
          assert x.Pristine();
        }
      }
      BlankConsistent(e);
    }

    // ----- The setters of `Node`, on the snapshot -----

    method SetParentOf(n: Node, p: Node?)
      requires n in graphData.Repr
      modifies n`parent, n`G, n`hasChanged
      ensures Snap() == old(Snap()).(nodes := old(View())[n := old(View())[n].(parent := p, G := if p == null then 0.0 else n.GThrough(p, old(p.G)))])
    {
      n.SetParent(p);
    }

    method SetChildOf(n: Node, c: Node?)
      requires n in graphData.Repr
      modifies n`child, n`hasChanged
      ensures Snap() == old(Snap()).(nodes := old(View())[n := old(View())[n].(child := c)])
    {
      n.SetChild(c);
    }

    method SetDestinationOf(n: Node, d: Node?)
      requires n in graphData.Repr
      modifies n`destination, n`H
      ensures Snap() == old(Snap()).(nodes := old(View())[n := Aim(n, old(View())[n], d)])
    {
      n.SetDestination(d);
    }

    method SetStateOf(n: Node, s: State)
      requires n in graphData.Repr
      modifies n`state, n`hasChanged
      ensures Snap() == old(Snap()).(nodes := old(View())[n := old(View())[n].(state := s)])
    {
      n.SetState(s);
    }

    method SetTypeOf(n: Node, k: NodeType)
      requires n in graphData.Repr
      modifies n`nodeType, n`hasChanged
      ensures graphData.nodes[..] == old(graphData.nodes[..])
      ensures Snap() == old(Snap()).(nodes := old(View())[n := old(View())[n].(kind := k)])
    {
      n.SetType(k);
    }

    // ----- StartSearch -----

    /** The body of a reset loop of `StartSearch` on the node `n`: `child`,
        `parent` and `destination` go to null and `state` to `Regular`. */
    method ClearNode(n: Node)
      modifies n`child, n`parent, n`G, n`destination, n`H, n`state, n`hasChanged
      ensures LinksOf(n) == Clear(old(LinksOf(n)))
    {
      n.SetChild(null);
      n.SetParent(null);
      n.SetDestination(null);
      n.SetState(Regular);
    }

    /** One reset loop of `StartSearch`, over `list`. */
    method ClearAll(list: seq<Node>)
      requires forall n :: n in list ==> n in graphData.Repr
      modifies graphData.Repr`child, graphData.Repr`parent, graphData.Repr`G, graphData.Repr`destination, graphData.Repr`H
      modifies graphData.Repr`state, graphData.Repr`hasChanged
      ensures View() == Cleared(old(View()), list)
    {
      for i := 0 to |list|
        invariant forall x :: x in graphData.Repr ==> LinksOf(x) == if x in list[..i] then Clear(old(LinksOf(x))) else old(LinksOf(x))
      {
        ClearNode(list[i]);
        assert forall x :: x in list[..i + 1] <==> x in list[..i] || x == list[i];
      }
      assert list[..|list|] == list;
    }

    /** The first reset loop of `StartSearch`, then `closed.Clear()`. */
    method ClearClosed()
      requires forall n :: n in closed ==> n in graphData.Repr
      modifies this`closed
      modifies graphData.Repr`child, graphData.Repr`parent, graphData.Repr`G, graphData.Repr`destination, graphData.Repr`H
      modifies graphData.Repr`state, graphData.Repr`hasChanged
      ensures Snap() == old(Snap()).(nodes := Cleared(old(View()), old(closed)), closed := [])
    {
      ClearAll(closed);
      closed := [];
    }

    /** The second reset loop of `StartSearch`, then `open.Clear()`. */
    method ClearOpen()
      requires forall n :: n in open ==> n in graphData.Repr
      modifies this`open
      modifies graphData.Repr`child, graphData.Repr`parent, graphData.Repr`G, graphData.Repr`destination, graphData.Repr`H
      modifies graphData.Repr`state, graphData.Repr`hasChanged
      ensures Snap() == old(Snap()).(nodes := Cleared(old(View()), old(open)), open := [])
    {
      ClearAll(open);
      open := [];
    }

    /** The first half of `StartSearch`: forget the previous search. */
    method ForgetSearch()
      requires forall n :: (n in open || n in closed) ==> n in graphData.Repr
      modifies this`startNode, this`nextNodeInPath, this`open, this`closed, this`depth, this`committed
      modifies graphData.Repr`child, graphData.Repr`parent, graphData.Repr`G, graphData.Repr`destination, graphData.Repr`H
      modifies graphData.Repr`state, graphData.Repr`hasChanged
      ensures Snap() == Forget(old(Snap()))
    {
      DropEnds();
      ClearClosed();
      ClearOpen();
    }

    /** The head of `StartSearch`: no start node and no next node. Nothing
        records a path any more. */
    method DropEnds()
      modifies this`startNode, this`nextNodeInPath, this`depth, this`committed
      ensures Snap() == old(Snap()).(start := null, next := null, depth := map[], committed := [])
    {
      startNode, nextNodeInPath := null, null;
      depth, committed := map[], [];
    }

    /** `StartSearch`: the previous search is forgotten (no start node, no
        next node, the closed and open lists cleared) and `BuildPath` runs
        on what is left. */
    method StartSearch()
      requires Ready()
      modifies this`startNode, this`destinationNode, this`open, this`closed, this`depth, this`nextNodeInPath, this`committed
      modifies graphData.Repr`destination, graphData.Repr`H, graphData.Repr`parent, graphData.Repr`G, graphData.Repr`child
      modifies graphData.Repr`state, graphData.Repr`hasChanged
      ensures startNode != null && destinationNode != null
      ensures Picked(Kinds(old(View())), graphData.dist, startNode, old(botposition))
      ensures Picked(Kinds(old(View())), graphData.dist, destinationNode, old(target))
      ensures Snap() == Restart(old(Snap()), startNode, destinationNode, Bound())
      ensures graphData.nodes[..] == old(graphData.nodes[..])
    {
      ghost var e0, bot, tgt := Snap(), botposition, target;
      ForgetSearch();
      Rebuild(e0, bot, tgt);
    }

    /** The second half of `StartSearch`: `BuildPath` on the reset of `e0`. */
    method Rebuild(ghost e0: Engine, ghost bot: Vec3, ghost tgt: Vec3)
      requires graphData.Indexed() && Wired(e0.nodes) && ListsValid(e0) && Idle(e0) && Fits(e0, Bound())
      requires Snap() == Forget(e0) && botposition == bot && target == tgt
      modifies this`startNode, this`destinationNode, this`open, this`closed, this`depth, this`nextNodeInPath, this`committed
      modifies graphData.Repr`destination, graphData.Repr`H, graphData.Repr`parent, graphData.Repr`G, graphData.Repr`child
      modifies graphData.Repr`state, graphData.Repr`hasChanged
      ensures startNode != null && destinationNode != null
      ensures Picked(Kinds(e0.nodes), graphData.dist, startNode, bot)
      ensures Picked(Kinds(e0.nodes), graphData.dist, destinationNode, tgt)
      ensures Snap() == Restart(e0, startNode, destinationNode, Bound())
    {
      ForgetClears(e0);
      ForgetKeeps(e0);
      KindsKept(e0.nodes, Forget(e0).nodes);
      BuildPath();
    }

    // ----- BuildPath -----

    /** `BuildPath` on a blank engine: the start and destination nodes are
        picked and the search runs until the destination node is the open
        node of least F, or the open list runs dry. */
    method BuildPath()
      requires graphData.Indexed() && Blank(Snap()) && Wired(View()) && Fits(Snap(), Bound())
      modifies this`startNode, this`destinationNode, this`open, this`closed, this`depth, this`nextNodeInPath, this`committed
      modifies graphData.Repr`destination, graphData.Repr`H, graphData.Repr`parent, graphData.Repr`G, graphData.Repr`child
      modifies graphData.Repr`state, graphData.Repr`hasChanged
      ensures startNode != null && destinationNode != null
      ensures Picked(Kinds(old(View())), graphData.dist, startNode, old(botposition))
      ensures Picked(Kinds(old(View())), graphData.dist, destinationNode, old(target))
      ensures Snap() == Build(old(Snap()), startNode, destinationNode, Bound())
    {
      ghost var e0 := Snap();
      Head();
      Tail(e0, startNode, destinationNode);
    }

    /** The search from the opened start node `s` of the blank engine `e0`
        towards `d`. */
    method Tail(ghost e0: Engine, ghost s: Node, ghost d: Node)
      requires Blank(e0) && Wired(e0.nodes) && Fits(e0, Bound()) && s in e0.nodes && d in e0.nodes
      requires Snap() == Begin(e0, s, d)
      modifies this`open, this`closed, this`depth, this`nextNodeInPath, this`committed
      modifies graphData.Repr`destination, graphData.Repr`H, graphData.Repr`parent, graphData.Repr`G, graphData.Repr`child
      modifies graphData.Repr`state, graphData.Repr`hasChanged
      ensures Snap() == Build(e0, s, d, Bound())
    {
      BeginSearching(e0, s, d);
      BeginKeeps(e0, s, d);
      Loop(graphData.Repr);
    }

    /** The loop of `BuildPath`. */
    method Loop(ghost nodes: set<Node>)
      requires Searching(Snap(), null) && Fits(Snap(), Bound()) && nodes == graphData.Repr
      modifies this`open, this`closed, this`depth, this`nextNodeInPath, this`committed
      modifies nodes`destination, nodes`H, nodes`parent, nodes`G, nodes`child, nodes`state, nodes`hasChanged
      ensures Snap() == Run.Explore(old(Snap()), Bound())
    {
      ghost var e := Snap();
      ghost var r := Run.Explore(e, Bound());
      while open != []
        invariant e == Snap() && Exploring(e, Bound(), r)
        invariant graphData.Repr == nodes
        decreases |e.nodes.Keys| - |e.closed|
      {
        var found;
        found, e := Iterate(e, r, nodes);
        if found {
          return;
        }
      }
    }

    /** One iteration of the `BuildPath` loop: the open node of least F
        either is in the destination state, and the path is reconstructed,
        or it is expanded. */
    method Iterate(ghost e: Engine, ghost r: Engine, ghost nodes: set<Node>) returns (found: bool, ghost e': Engine)
      requires e == Snap() && Exploring(e, Bound(), r) && e.open != [] && nodes == graphData.Repr
      modifies this`open, this`closed, this`depth, this`nextNodeInPath, this`committed
      modifies nodes`destination, nodes`H, nodes`parent, nodes`G, nodes`child, nodes`state, nodes`hasChanged
      ensures e' == Snap() && graphData.Repr == nodes
      ensures found ==> e' == r
      ensures !found ==> Exploring(e', Bound(), r) && e'.nodes.Keys == e.nodes.Keys && |e.closed| < |e'.closed| <= |e'.nodes.Keys|
    {
      ExploringLists(e, Bound(), r);
      var current := LowestFscoreInOpen(e);
      found := current.state == Destination;
      if found {
        e' := Finish(current, e, r, nodes);
      } else {
        e' := Advance(current, e, r, nodes);
      }
    }

    /** The open node `current` of least F is in the destination state: the
        path is reconstructed. */
    method Finish(current: Node, ghost e: Engine, ghost r: Engine, ghost nodes: set<Node>) returns (ghost e': Engine)
      requires e == Snap() && Exploring(e, Bound(), r) && e.open != [] && nodes == graphData.Repr
      requires current == e.open[LowestAt(e.nodes, e.open)] && current.state == Destination
      modifies this`nextNodeInPath, this`committed
      modifies nodes`child, nodes`state, nodes`hasChanged
      ensures e' == Snap() && e' == r
    {
      ExploreFinds(e, Bound(), r, current);
      ReconstructPath();
      e' := Snap();
    }

    /** The open node `current` of least F is not in the destination state:
        it is expanded. */
    method Advance(current: Node, ghost e: Engine, ghost r: Engine, ghost nodes: set<Node>) returns (ghost e': Engine)
      requires e == Snap() && Exploring(e, Bound(), r) && e.open != [] && nodes == graphData.Repr
      requires current == e.open[LowestAt(e.nodes, e.open)] && current.state != Destination
      modifies this`open, this`closed, this`depth
      modifies nodes`destination, nodes`H, nodes`parent, nodes`G, nodes`state, nodes`hasChanged
      ensures e' == Snap() && Exploring(e', Bound(), r)
      ensures e'.nodes.Keys == e.nodes.Keys && |e.closed| < |e'.closed| <= |e'.nodes.Keys|
    {
      ExploreExpands(e, Bound(), r, current);
      Expand(current);
      e' := Snap();
      ExploringLists(e', Bound(), r);
    }

    /** The head of `BuildPath`: the start node is the node nearest the bot
        that is not obstructed, the destination node the one nearest the
        target; they go to the start and the destination state, and the start
        node is opened. */
    method Head()
      requires graphData.Indexed()
      modifies this`startNode, this`destinationNode, this`open, this`depth
      modifies graphData.Repr`state, graphData.Repr`hasChanged
      ensures startNode != null && destinationNode != null
      ensures Picked(Kinds(old(View())), graphData.dist, startNode, old(botposition))
      ensures Picked(Kinds(old(View())), graphData.dist, destinationNode, old(target))
      ensures Snap() == Begin(old(Snap()), startNode, destinationNode)
    {
      ghost var e0 := Snap();
      var s, d := FindEnds();
      OpenStart(s);
      BeginSplit(e0, s, d);
    }

    /** The start and the destination node, placed in their states. */
    method FindEnds() returns (s: Node, d: Node)
      requires graphData.Indexed()
      modifies this`startNode, this`destinationNode, graphData.Repr`state, graphData.Repr`hasChanged
      ensures startNode == s && destinationNode == d && s in graphData.Repr && d in graphData.Repr
      ensures Picked(Kinds(old(View())), graphData.dist, s, old(botposition))
      ensures Picked(Kinds(old(View())), graphData.dist, d, old(target))
      ensures Snap() == Restated(Restated(old(Snap()), s, Start).(start := s), d, Destination).(dest := d)
    {
      ghost var e0 := Snap();
      s := FindStart();
      RestatedKinds(e0, s, Start);
      d := FindDestination();
    }

    /** `startNode = graphData.NearestUnobstructedNode(botposition)`, then
        the start node goes to the start state. */
    method FindStart() returns (s: Node)
      requires graphData.Indexed()
      modifies this`startNode, graphData.Repr`state, graphData.Repr`hasChanged
      ensures s in graphData.Repr && Picked(Kinds(old(View())), graphData.dist, s, old(botposition))
      ensures Snap() == Restated(old(Snap()), s, Start).(start := s)
    {
      ghost var e0 := Snap();
      s := Pick(botposition);
      assert Snap() == e0;
      PlaceStart(s);
    }

    /** `destinationNode = graphData.NearestUnobstructedNode(target)`, then
        the destination node goes to the destination state. */
    method FindDestination() returns (d: Node)
      requires graphData.Indexed()
      modifies this`destinationNode, graphData.Repr`state, graphData.Repr`hasChanged
      ensures d in graphData.Repr && Picked(Kinds(old(View())), graphData.dist, d, old(target))
      ensures Snap() == Restated(old(Snap()), d, Destination).(dest := d)
    {
      ghost var e0 := Snap();
      d := Pick(target);
      assert Snap() == e0;
      PlaceDestination(d);
    }

    /** `graphData.NearestUnobstructedNode(p)`. */
    method Pick(p: Vec3) returns (n: Node)
      requires graphData.Indexed()
      ensures n in graphData.Repr && Picked(Kinds(View()), graphData.dist, n, p)
    {
      n := graphData.NearestUnobstructedNode(p);
      PickedFrom(n, p);
    }

    /** `startNode = s; startNode.state = Node.State.start`. */
    method PlaceStart(s: Node)
      requires s in graphData.Repr
      modifies this`startNode, s`state, s`hasChanged
      ensures startNode == s
      ensures Snap() == Restated(old(Snap()), s, Start).(start := s)
    {
      startNode := s;
      SetStateOf(s, Start);
    }

    /** `destinationNode = d; destinationNode.state = Node.State.destination`. */
    method PlaceDestination(d: Node)
      requires d in graphData.Repr
      modifies this`destinationNode, d`state, d`hasChanged
      ensures destinationNode == d
      ensures Snap() == Restated(old(Snap()), d, Destination).(dest := d)
    {
      destinationNode := d;
      SetStateOf(d, Destination);
    }

    /** `open.Add(startNode)`. */
    method OpenStart(s: Node)
      modifies this`open, this`depth
      ensures Snap() == Opened(old(Snap()), s)
    {
      open := open + [s];
      depth := depth[s := 0];
    }

    /** An iteration of the `BuildPath` loop that does not stop at the
        open node `c`: close `c`, then examine each of its neighbours. */
    method Expand(c: Node)
      requires c in graphData.Repr && c in depth && forall m :: m in c.connected ==> m in graphData.Repr
      modifies this`open, this`closed, this`depth
      modifies graphData.Repr`destination, graphData.Repr`H, graphData.Repr`parent, graphData.Repr`G
      modifies graphData.Repr`state, graphData.Repr`hasChanged
      ensures Snap() == ExpandStep(old(Snap()), c)
    {
      Close(c);
      ghost var closing := Snap();
      var conn := c.connected;
      for i := 0 to |conn|
        invariant c in depth
        invariant RelaxAll(Snap(), c, conn[i..]) == RelaxAll(closing, c, conn)
      {
        Relax(conn[i], c);
        assert conn[i..][1..] == conn[i + 1..];
      }
    }

    /** The head of an iteration of the `BuildPath` loop: the node `c` gets
        the destination, moves from the open list to the closed list, and is
        put in the closed state unless it is the start node. */
    method Close(c: Node)
      requires c in graphData.Repr
      modifies this`open, this`closed, c`destination, c`H, c`state, c`hasChanged
      ensures Snap() == CloseStep(old(Snap()), c)
    {
      CloseSplit(Snap(), c);
      SetDestinationOf(c, destinationNode);
      Shift(c);
      Mark(c);
    }

    /** `open.Remove(c)`, then `closed.Add(c)`. */
    method Shift(c: Node)
      modifies this`open, this`closed
      ensures Snap() == Shifted(old(Snap()), c)
    {
      open := RemoveFirst(open, c);
      closed := closed + [c];
    }

    /** The closed state for `c`, unless it is the start node. */
    method Mark(c: Node)
      requires c in graphData.Repr
      modifies c`state, c`hasChanged
      ensures Snap() == Marked(old(Snap()), c)
    {
      if c.state != Start {
        SetStateOf(c, Closed);
      }
    }

    /** One pass of the inner `foreach` of `BuildPath`: the neighbour `n` of
        the node `c` being expanded. */
    method Relax(n: Node, c: Node)
      requires n in graphData.Repr && c in graphData.Repr && c in depth
      modifies this`open, this`depth
      modifies graphData.Repr`destination, graphData.Repr`H, graphData.Repr`parent, graphData.Repr`G
      modifies graphData.Repr`state, graphData.Repr`hasChanged
      ensures Snap() == RelaxStep(old(Snap()), n, c)
    {
      if n in closed || n.nodeType == Obstructed {
        return;
      }
      RelaxSplit(Snap(), n, c);
      SetDestinationOf(n, destinationNode);
      Offer(n, c);
    }

    /** The test of the inner `foreach` and what follows it. */
    method Offer(n: Node, c: Node)
      requires n in graphData.Repr && c in graphData.Repr && c in depth
      modifies this`open, this`depth
      modifies n`parent, n`G, n`state, n`hasChanged
      ensures Snap() ==
        if !Improves(old(Snap()), n, c) then old(Snap())
        else if n in old(open) then Adopted(old(Snap()), n, c)
        else Enqueued(Adopted(old(Snap()), n, c), n)
    {
      if n !in open || n.TentativeG(c) < n.G {
        Hang(n, c);
        if n !in open {
          Enqueue(n);
        }
      }
    }

    /** `n.parent = c`, with `n` ranked one below `c`. */
    method Hang(n: Node, c: Node)
      requires n in graphData.Repr && c in graphData.Repr && c in depth
      modifies this`depth, n`parent, n`G, n`hasChanged
      ensures Snap() == Adopted(old(Snap()), n, c)
    {
      SetParentOf(n, c);
      depth := depth[n := depth[c] + 1];
    }

    /** `open.Add(n)`, and `n` goes to the open state unless it is the
        destination. */
    method Enqueue(n: Node)
      requires n in graphData.Repr
      modifies this`open, n`state, n`hasChanged
      ensures Snap() == Enqueued(old(Snap()), n)
    {
      open := open + [n];
      if n.state != Destination {
        SetStateOf(n, Open);
      }
    }

    /** `ReconstructPath`: from the destination up the parent links to the
        start node, linking each parent down to its child and putting closed
        nodes in the path state, giving up once the counter passes the
        number of graph nodes. The node reached becomes the next node. */
    method ReconstructPath()
      requires destinationNode != null && destinationNode in graphData.Repr && Parented(View())
      modifies this`nextNodeInPath, this`committed
      modifies graphData.Repr`child, graphData.Repr`state, graphData.Repr`hasChanged
      ensures Snap() == Retrace(old(Snap()), old(destinationNode), 0, Bound(), [old(destinationNode)])
    {
      ghost var e := Snap();
      ghost var r := Retrace(e, destinationNode, 0, Bound(), [destinationNode]);
      ghost var repr := graphData.Repr;
      var current: Node := destinationNode;
      var i := 0;
      ghost var path: seq<Node> := [current];
      while current != startNode
        invariant e == Snap() && graphData.Repr == repr
        invariant current in e.nodes && Parented(e.nodes) && i <= Bound()
        invariant Retrace(e, current, i, Bound(), path) == r
        decreases Bound() - i
      {
        if current.parent != null {
          var p: Node := current.parent;
          LiftParented(e.nodes, p, current);
          LinkUp(p, current);
          e := Snap();
          current := p;
          path := [p] + path;
        }
        i := i + 1;
        if i > Bound() {
          assert r == e.(next := current, committed := path);
          break;
        }
      }
      Commit(current, path);
    }

    /** `current.parent.child = current`, then the path state for the parent
        if it is closed. */
    method LinkUp(p: Node, cur: Node)
      requires p in graphData.Repr
      modifies p`child, p`state, p`hasChanged
      ensures Snap() == old(Snap()).(nodes := old(View())[p := Lift(old(View())[p], cur)])
    {
      LiftSplit(Snap(), p, cur);
      SetChildOf(p, cur);
      Promote(p);
    }

    /** The path state for `p` if it is closed. */
    method Promote(p: Node)
      requires p in graphData.Repr
      modifies p`state, p`hasChanged
      ensures Snap() == Promoted(old(Snap()), p)
    {
      if p.state == Closed {
        SetStateOf(p, Path);
      }
    }

    /** `nextNodeInPath = current`, with the walked path recorded. */
    method Commit(cur: Node, ghost path: seq<Node>)
      modifies this`nextNodeInPath, this`committed
      ensures Snap() == old(Snap()).(next := cur, committed := path)
    {
      nextNodeInPath := cur;
      committed := path;
    }

    // ----- Queries -----

    /** `SetBotPosition`. */
    method SetBotPosition(position: Vec3)
      requires Valid()
      modifies this`botposition
      ensures Valid() && botposition == position && Snap() == old(Snap())
    {
      ghost var e := Snap();
      botposition := position;
      assert Snap() == e;
    }

    /** `SetDestination`: the new target, and a new search towards it. */
    method SetDestination(destination: Vec3)
      requires Valid()
      modifies this`target, this`startNode, this`destinationNode, this`open, this`closed, this`depth, this`nextNodeInPath, this`committed
      modifies graphData.Repr`destination, graphData.Repr`H, graphData.Repr`parent, graphData.Repr`G, graphData.Repr`child
      modifies graphData.Repr`state, graphData.Repr`hasChanged
      ensures startNode != null && destinationNode != null
      ensures Picked(Kinds(old(View())), graphData.dist, startNode, old(botposition))
      ensures Picked(Kinds(old(View())), graphData.dist, destinationNode, destination)
      ensures Snap() == Restart(old(Snap()), startNode, destinationNode, Bound())
    {
      target := destination;
      assert View() == old(View());
      assert Snap() == old(Snap());
      assert botposition == old(botposition);
      StartSearch();
    }

    /** The bot at `p` is close enough to `n` to move on: within 0.6 grid
        spacings. */
    predicate Near(p: Vec3, n: Node) {
      graphData.dist(p, n.position) < graphData.spacing * 0.6
    }

    /** `MoveDirection(currentPosition)`: without a committed path, no
        direction and nothing changes. Otherwise the bot position is
        recorded, the next node moves one step along the committed path once
        the bot is near it (never past the destination), and the direction
        points from the bot at the next node. */
    method MoveDirection(currentPosition: Vec3) returns (direction: Vec3)
      requires Valid()
      modifies this`botposition, this`nextNodeInPath
      ensures Valid()
      ensures old(nextNodeInPath) == null ==> direction == Zero && botposition == old(botposition)
      ensures old(nextNodeInPath) != null ==>
        && botposition == currentPosition && nextNodeInPath != null
        && direction == Sub(nextNodeInPath.position, currentPosition)
      ensures Snap() == Trace.Advance(old(Snap()), old(nextNodeInPath) != null && Near(currentPosition, old(nextNodeInPath)))
    {
      if nextNodeInPath == null {
        return Zero;
      }
      ghost var e := Snap();
      var near := Near(currentPosition, nextNodeInPath);
      AdvanceKeeps(e, near);
      Follow(e, currentPosition, near);
      direction := Sub(nextNodeInPath.position, currentPosition);
    }

    /** The body of `MoveDirection` past its null test: the bot position is
        recorded and, when `near`, a next node that is not the destination
        gives way to its child. */
    method Follow(ghost e: Engine, currentPosition: Vec3, near: bool)
      requires e == Snap() && e.next != null && e.next in e.nodes
      modifies this`botposition, this`nextNodeInPath
      ensures botposition == currentPosition && Snap() == Trace.Advance(e, near)
    {
      botposition := currentPosition;
      var next: Node := nextNodeInPath;
      if next.state != Destination && near {
        nextNodeInPath := next.child;
      }
    }

    // ----- DepthData -----

    /** `DepthData(start, end, obstructed)`: a depth sensor saw along the
        segment from `start` to `end`. The nodes nearest the points sampled
        every `spacing` along it become walkable unless they are obstructed
        (`marked` are those nodes, in turn); when the sensor reports an
        obstruction at `end`, the node nearest `end` (`hit`) becomes
        obstructed, and the search starts again exactly when `NodeInPath`
        finds that node on the committed path (`replanned`). The source
        loops forever on a positive length when `spacing` is not positive. */
    method DepthData(start: Vec3, end: Vec3, obstructed: bool) returns (ghost marked: seq<Node>, ghost hit: Node?, ghost replanned: bool)
      requires Valid()
      requires graphData.spacing > 0.0 || graphData.dist(start, end) <= 0.0
      modifies this`startNode, this`destinationNode, this`open, this`closed, this`depth, this`nextNodeInPath, this`committed
      modifies graphData.Repr`destination, graphData.Repr`H, graphData.Repr`parent, graphData.Repr`G, graphData.Repr`child
      modifies graphData.Repr`state, graphData.Repr`nodeType, graphData.Repr`hasChanged
      ensures Sampled(old(graphData.Repr), graphData.dist, graphData.spacing, start, end, marked)
      ensures (hit != null <==> obstructed) && (hit != null ==> Closest(hit, end, old(graphData.Repr), graphData.dist))
      ensures Reacted(old(Snap()), marked, hit, replanned, Snap(), graphData.dist, old(botposition), old(target), Bound())
      ensures Valid()
    {
      marked, hit, replanned := React(Snap(), start, end, obstructed, botposition, target);
      Revalid();
    }

    /** The engine is valid whenever the graph's arena and metric are intact
        and the snapshot is consistent and within the node bound: the graph's
        closure under links is the engine's own wiring. */
    lemma Revalid()
      requires graphData.Indexed() && NonNegative(graphData.dist)
      requires forall n :: n in graphData.Repr ==> n.dist == graphData.dist
      requires Consistent(Snap()) && Fits(Snap(), Bound())
      ensures Valid()
    {
      forall n, m | n in graphData.Repr && m in n.connected
        ensures m in graphData.Repr
      {
        assert View()[n].connected == n.connected;
      }
    }

    /** `DepthData` from the engine `e0`. */
    method React(ghost e0: Engine, start: Vec3, end: Vec3, obstructed: bool, ghost bot: Vec3, ghost tgt: Vec3)
      returns (ghost marked: seq<Node>, ghost hit: Node?, ghost replanned: bool)
      requires graphData.Indexed() && Consistent(e0) && Fits(e0, Bound())
      requires Snap() == e0 && botposition == bot && target == tgt
      requires graphData.spacing > 0.0 || graphData.dist(start, end) <= 0.0
      modifies this`startNode, this`destinationNode, this`open, this`closed, this`depth, this`nextNodeInPath, this`committed
      modifies graphData.Repr`destination, graphData.Repr`H, graphData.Repr`parent, graphData.Repr`G, graphData.Repr`child
      modifies graphData.Repr`state, graphData.Repr`nodeType, graphData.Repr`hasChanged
      ensures Sampled(old(graphData.Repr), graphData.dist, graphData.spacing, start, end, marked)
      ensures (hit != null <==> obstructed) && (hit != null ==> Closest(hit, end, old(graphData.Repr), graphData.dist))
      ensures Reacted(e0, marked, hit, replanned, Snap(), graphData.dist, bot, tgt, Bound())
      ensures Consistent(Snap()) && Snap().nodes.Keys == e0.nodes.Keys
      ensures graphData.Indexed()
    {
      graphData.IndexedArena();
      marked := Sweep(start, end);
      hit, replanned := Report(e0, marked, end, obstructed, bot, tgt);
      ReactedConsistent(e0, marked, hit, replanned, Snap(), graphData.dist, bot, tgt, Bound());
      graphData.IndexedArena();
    }

    /** The `obstructed` branch of `DepthData`, on the engine `e0` the call
        started from once the nodes `marked` have been cleared. */
    method Report(ghost e0: Engine, ghost marked: seq<Node>, end: Vec3, obstructed: bool, ghost bot: Vec3, ghost tgt: Vec3)
      returns (ghost hit: Node?, ghost replanned: bool)
      requires graphData.Indexed() && Consistent(e0) && Fits(e0, Bound())
      requires forall n :: n in marked ==> n in e0.nodes
      requires Snap() == Clearing(e0, marked) && botposition == bot && target == tgt
      modifies this`startNode, this`destinationNode, this`open, this`closed, this`depth, this`nextNodeInPath, this`committed
      modifies graphData.Repr`destination, graphData.Repr`H, graphData.Repr`parent, graphData.Repr`G, graphData.Repr`child
      modifies graphData.Repr`state, graphData.Repr`nodeType, graphData.Repr`hasChanged
      ensures (hit != null <==> obstructed) && (hit != null ==> Closest(hit, end, old(graphData.Repr), graphData.dist))
      ensures Reacted(e0, marked, hit, replanned, Snap(), graphData.dist, bot, tgt, Bound())
      ensures graphData.nodes[..] == old(graphData.nodes[..])
    {
      hit, replanned := null, false;
      if obstructed {
        var n := Locate(Snap(), end);
        hit := n;
        replanned := Strike(e0, marked, n, bot, tgt);
      }
    }

    /** The node `n` nearest the obstruction becomes obstructed, and the
        search starts again if `NodeInPath(n)`. */
    method Strike(ghost e0: Engine, ghost marked: seq<Node>, n: Node, ghost bot: Vec3, ghost tgt: Vec3) returns (replanned: bool)
      requires graphData.Indexed() && Consistent(e0) && Fits(e0, Bound())
      requires (forall m :: m in marked ==> m in e0.nodes) && n in graphData.Repr
      requires Snap() == Clearing(e0, marked) && botposition == bot && target == tgt
      modifies this`startNode, this`destinationNode, this`open, this`closed, this`depth, this`nextNodeInPath, this`committed
      modifies graphData.Repr`destination, graphData.Repr`H, graphData.Repr`parent, graphData.Repr`G, graphData.Repr`child
      modifies graphData.Repr`state, graphData.Repr`nodeType, graphData.Repr`hasChanged
      ensures n in e0.nodes && Reacted(e0, marked, n, replanned, Snap(), graphData.dist, bot, tgt, Bound())
      ensures graphData.nodes[..] == old(graphData.nodes[..])
    {
      ReportedKeeps(e0, marked, n);
      replanned := Obstruct(Clearing(e0, marked), Reported(e0, marked, n), n, bot, tgt);
    }

    /** The marking loop of `DepthData`. */
    method Sweep(start: Vec3, end: Vec3) returns (ghost marked: seq<Node>)
      requires graphData.Indexed()
      requires graphData.spacing > 0.0 || graphData.dist(start, end) <= 0.0
      modifies graphData.Repr`nodeType, graphData.Repr`hasChanged
      ensures graphData.Indexed() && graphData.Repr == old(graphData.Repr) && graphData.nodes[..] == old(graphData.nodes[..])
      ensures Sampled(graphData.Repr, graphData.dist, graphData.spacing, start, end, marked)
      ensures forall n :: n in marked ==> n in old(View())
      ensures Snap() == Clearing(old(Snap()), marked)
    {
      ghost var e0 := Snap();
      var length := graphData.dist(start, end);
      var d := 0.0;
      ghost var steps: nat := 0;
      if graphData.spacing > 0.0 {
        steps := SampleBound(length, graphData.spacing);
      }
      marked := [];
      ghost var e := e0;
      while d < length
        invariant graphData.Indexed() && graphData.Repr == old(graphData.Repr)
        invariant d == Along(|marked|, graphData.spacing) && 0.0 <= d
        invariant graphData.spacing > 0.0 ==> length <= Along(steps, graphData.spacing)
        invariant forall n :: n in marked ==> n in graphData.Repr
        invariant SampledUpTo(graphData.Repr, graphData.dist, graphData.spacing, start, end, marked)
        invariant e == Clearing(e0, marked) && Snap() == e
        decreases steps - |marked|
      {
        Fewer(|marked|, steps, graphData.spacing);
        assert Along(|marked| + 1, graphData.spacing) == d + graphData.spacing;
        var mark := Lerp(start, end, d / length);
        var n := Visit(e, marked, mark, start, end);
        e := Sample(e, n, start, end, marked + [n]);
        ClearingMore(e0, marked, n);
        marked := marked + [n];
        d := d + graphData.spacing;
      }
      SampledEach(graphData.Repr, graphData.dist, graphData.spacing, start, end, marked);
    }

    /** `graphData.NearestNode(mark)` at the next sample point. */
    method Visit(ghost e: Engine, ghost marked: seq<Node>, mark: Vec3, ghost start: Vec3, ghost end: Vec3) returns (n: Node)
      requires Snap() == e && graphData.Indexed() && SampledUpTo(graphData.Repr, graphData.dist, graphData.spacing, start, end, marked)
      requires 0.0 <= Along(|marked|, graphData.spacing) < graphData.dist(start, end)
      requires mark == Lerp(start, end, Along(|marked|, graphData.spacing) / graphData.dist(start, end))
      ensures Snap() == e && graphData.Indexed() && n in graphData.Repr
      ensures SampledUpTo(graphData.Repr, graphData.dist, graphData.spacing, start, end, marked + [n])
    {
      n := Locate(e, mark);
      SampledMore(graphData.Repr, graphData.dist, graphData.spacing, start, end, marked, n);
    }

    /** `graphData.NearestNode(p)`, which leaves the engine as it is. */
    method Locate(ghost e: Engine, p: Vec3) returns (n: Node)
      requires Snap() == e && graphData.Indexed()
      ensures Snap() == e && graphData.Indexed() && Closest(n, p, graphData.Repr, graphData.dist)
    {
      n := graphData.NearestNode(p);
      graphData.FirstNearestClosest(n, p);
    }

    /** The body of the marking loop on the node `n`. */
    method Sample(ghost e: Engine, n: Node, ghost start: Vec3, ghost end: Vec3, ghost marked: seq<Node>) returns (ghost e': Engine)
      requires n in graphData.Repr && Snap() == e
      requires graphData.Indexed() && SampledUpTo(graphData.Repr, graphData.dist, graphData.spacing, start, end, marked)
      modifies n`nodeType, n`hasChanged
      ensures n in e.nodes && e' == MarkWalkable(e, n) && Snap() == e'
      ensures graphData.Indexed() && SampledUpTo(graphData.Repr, graphData.dist, graphData.spacing, start, end, marked)
    {
      e' := MarkWalkable(e, n);
      if n.nodeType != Obstructed {
        SetTypeOf(n, Walkable);
      }
    }

    /** The `obstructed` branch of `DepthData` on the engine `c` the marking
        loop left: the node `n` becomes obstructed (giving `r`) and, when
        `NodeInPath` finds it, the search starts again. */
    method Obstruct(ghost c: Engine, ghost r: Engine, n: Node, ghost bot: Vec3, ghost tgt: Vec3) returns (replanned: bool)
      requires graphData.Indexed() && n in graphData.Repr && Snap() == c && n in c.nodes
      requires r == Retyped(c, n, Obstructed) && Restartable(r) && Fits(r, Bound())
      requires r.next != null ==> r.dest != null && r.dest in r.nodes
      requires botposition == bot && target == tgt
      modifies this`startNode, this`destinationNode, this`open, this`closed, this`depth, this`nextNodeInPath, this`committed
      modifies graphData.Repr`destination, graphData.Repr`H, graphData.Repr`parent, graphData.Repr`G, graphData.Repr`child
      modifies graphData.Repr`state, graphData.Repr`nodeType, graphData.Repr`hasChanged
      ensures replanned == InPath(r, n)
      ensures !replanned ==> Snap() == r
      ensures replanned ==>
        && startNode != null && destinationNode != null
        && Picked(Kinds(r.nodes), graphData.dist, startNode, bot)
        && Picked(Kinds(r.nodes), graphData.dist, destinationNode, tgt)
        && Snap() == Restart(r, startNode, destinationNode, Bound())
      ensures graphData.nodes[..] == old(graphData.nodes[..])
    {
      replanned := Block(c, r, n);
      if replanned {
        Replan(r, bot, tgt);
      }
    }

    /** `n.type = Node.Type.obstructed`, then `NodeInPath(n)`, on the engine
        `c`; `r` is `c` with `n` obstructed. */
    method Block(ghost c: Engine, ghost r: Engine, n: Node) returns (found: bool)
      requires graphData.Indexed() && n in graphData.Repr && Snap() == c && n in c.nodes
      requires r == Retyped(c, n, Obstructed) && Ranked(r)
      requires r.next != null ==> r.dest != null && r.dest in r.nodes
      modifies n`nodeType, n`hasChanged
      ensures graphData.Indexed() && found == InPath(r, n) && Snap() == r
      ensures graphData.nodes[..] == old(graphData.nodes[..])
    {
      SetTypeOf(n, Obstructed);
      found := NodeInPath(n);
    }

    /** `StartSearch` on the engine `e`, which an obstruction left. */
    method Replan(ghost e: Engine, ghost bot: Vec3, ghost tgt: Vec3)
      requires graphData.Indexed() && Restartable(e) && Fits(e, Bound())
      requires Snap() == e && botposition == bot && target == tgt
      modifies this`startNode, this`destinationNode, this`open, this`closed, this`depth, this`nextNodeInPath, this`committed
      modifies graphData.Repr`destination, graphData.Repr`H, graphData.Repr`parent, graphData.Repr`G, graphData.Repr`child
      modifies graphData.Repr`state, graphData.Repr`hasChanged
      ensures startNode != null && destinationNode != null
      ensures Picked(Kinds(e.nodes), graphData.dist, startNode, bot)
      ensures Picked(Kinds(e.nodes), graphData.dist, destinationNode, tgt)
      ensures Snap() == Restart(e, startNode, destinationNode, Bound())
      ensures graphData.nodes[..] == old(graphData.nodes[..])
    {
      StartSearch();
    }

    /** `SearchComplete`: a path is committed, ending at the destination. */
    method SearchComplete() returns (complete: bool)
      requires Valid()
      ensures complete <==> committed != []
      ensures complete ==> destinationNode != null && committed[|committed| - 1] == destinationNode
      ensures complete ==> nextNodeInPath in committed
    {
      complete := nextNodeInPath != null;
    }

    /** `LowestFscoreInOpen`: the first open node of least F. */
    method LowestFscoreInOpen(ghost e: Engine) returns (lowest: Node)
      requires e == Snap() && e.open != [] && forall n :: n in e.open ==> n in e.nodes
      ensures e == Snap() && lowest == e.open[LowestAt(e.nodes, e.open)]
    {
      lowest := open[0];
      ghost var at := 0;
      for i := 0 to |open|
        invariant at < |open| && lowest == open[at]
        invariant i == 0 ==> at == 0
        invariant i > 0 ==> at == LowestAt(View(), open[..i])
      {
        var n := open[i];
        ghost var s := open[..i + 1];
        assert s[..i] == open[..i] && s[i] == n;
        assert FScore(View()[n]) == n.F() && FScore(View()[lowest]) == lowest.F();
        assert i > 0 ==> LowestAt(View(), s) == if FScore(View()[n]) < FScore(View()[s[at]]) then i else at;
        if n.F() < lowest.F() {
          lowest, at := n, i;
        }
        assert at == LowestAt(View(), s);
      }
      assert open[..|open|] == open;
    }

    /** `NodeInPath(n)`: the walk from the destination up the parent chain,
        comparing indices, until a node in the start state. */
    method NodeInPath(n: Node) returns (found: bool)
      requires graphData.Indexed() && n in graphData.Repr && Ranked(Snap())
      requires nextNodeInPath != null ==> destinationNode != null && destinationNode in graphData.Repr
      ensures found == InPath(Snap(), n)
    {
      if nextNodeInPath == null {
        return false;
      }
      var current: Node := destinationNode;
      ghost var e := Snap();
      while current.state != Start
        invariant current in graphData.Repr
        invariant InPath(e, n) == (n in Walked(e, current))
        decreases if current in depth then depth[current] else 0
      {
        if current.index == n.index {
          return true;
        }
        if current.parent == null {
          return false;
        }
        current := current.parent;
      }
      return false;
    }
  }
}
