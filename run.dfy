/** The whole of `BuildPath` on values: the choice of `LowestFscoreInOpen`
    and the loop that expands the chosen node until it is in the destination
    state or the open list runs dry. */
module Run {
  import opened Sequences
  import opened Graph
  import opened Plan
  import opened Reset
  import opened Trace

  /** `Node.F`: the G score plus the heuristic. */
  function FScore(l: Links): real {
    l.G + l.H
  }

  /** Where on `s` the loop of `LowestFscoreInOpen` finds its node: it
      starts with the first node and takes a later one only when its F is
      strictly lower. */
  ghost function LowestAt(nodes: map<Node, Links>, s: seq<Node>): (i: nat)
    requires s != [] && forall n :: n in s ==> n in nodes
    ensures i < |s|
    decreases |s|
  {
    if |s| == 1 then 0
    else
      var j := LowestAt(nodes, s[..|s| - 1]);
      if FScore(nodes[s[|s| - 1]]) < FScore(nodes[s[j]]) then |s| - 1 else j
  }

  /** `LowestFscoreInOpen` returns a node of least F, and of those the first
      one on the list. */
  lemma {:induction false} LowestFirst(nodes: map<Node, Links>, s: seq<Node>)
    requires s != [] && forall n :: n in s ==> n in nodes
    ensures var i := LowestAt(nodes, s);
      && (forall k :: 0 <= k < |s| ==> FScore(nodes[s[i]]) <= FScore(nodes[s[k]]))
      && (forall k :: 0 <= k < i ==> FScore(nodes[s[i]]) < FScore(nodes[s[k]]))
    decreases |s|
  {
    if |s| > 1 {
      var init := s[..|s| - 1];
      LowestFirst(nodes, init);
      var j := LowestAt(nodes, init);
      assert forall k :: 0 <= k < |init| ==> s[k] == init[k];
    }
  }

  /** The closed list is no longer than the graph. */
  lemma ClosedFits(e: Engine)
    requires ListsValid(e)
    ensures |e.closed| <= |e.nodes.Keys|
  {
    DistinctWithin(e.closed, e.nodes.Keys);
  }

  /** What the `BuildPath` loop from `e` ends in: a consistent engine over
      the same nodes and with the same start and destination, which either
      failed with an empty open list or committed a path that ends at the
      destination and begins at the start node (or is the destination
      alone). */
  ghost predicate Explored(e: Engine, r: Engine) {
    && Consistent(r) && r.nodes.Keys == e.nodes.Keys && r.start == e.start && r.dest == e.dest
    && (r.next == null ==> Searching(r, null) && r.open == [])
    && (r.next != null ==>
          && r.committed[|r.committed| - 1] == r.dest
          && (r.committed[0] == r.start || r.committed == [r.dest]))
  }

  /** The `BuildPath` loop from the search `e`: while the open list is not
      empty, the node `LowestFscoreInOpen` picks either is in the destination
      state, and `ReconstructPath` (bounded by `bound`, the number of graph
      nodes) ends the search, or is expanded. */
  ghost function Explore(e: Engine, bound: nat): (r: Engine)
    requires Searching(e, null) && Fits(e, bound)
    ensures Explored(e, r)
    decreases |e.nodes.Keys| - |e.closed|
  {
    ClosedFits(e);
    if e.open == [] then e
    else
      var c := e.open[LowestAt(e.nodes, e.open)];
      if e.nodes[c].state == Destination then
        SearchingSettled(e, null);
        RetraceCommits(e, bound);
        Retrace(e, e.dest, 0, bound, [e.dest])
      else
        ExpandKeeps(e, c);
        ClosedFits(ExpandStep(e, c));
        Explore(ExpandStep(e, c), bound)
  }

  /** The `BuildPath` loop keeps the graph: every node's connections and
      type are those it started with. */
  lemma {:induction false} ExploreShape(e: Engine, bound: nat)
    requires Searching(e, null) && Fits(e, bound)
    ensures forall x :: x in e.nodes ==>
      Explore(e, bound).nodes[x].connected == e.nodes[x].connected && Explore(e, bound).nodes[x].kind == e.nodes[x].kind
    decreases |e.nodes.Keys| - |e.closed|
  {
    ClosedFits(e);
    if e.open != [] {
      var c := e.open[LowestAt(e.nodes, e.open)];
      if e.nodes[c].state != Destination {
        ExpandKeeps(e, c);
        ClosedFits(ExpandStep(e, c));
        ExploreShape(ExpandStep(e, c), bound);
      }
    }
  }

  /** The invariant of the `BuildPath` loop, whose outcome is `r`. */
  ghost predicate Exploring(e: Engine, bound: nat, r: Engine) {
    Searching(e, null) && Fits(e, bound) && Explore(e, bound) == r
  }

  /** During the loop the open nodes are graph nodes and the closed list
      is no longer than the graph. */
  lemma ExploringLists(e: Engine, bound: nat, r: Engine)
    requires Exploring(e, bound, r)
    ensures |e.closed| <= |e.nodes.Keys| && forall n :: n in e.open ==> n in e.nodes
  {
    ClosedFits(e);
  }

  /** An iteration that finds the destination node reconstructs the path. */
  lemma ExploreFinds(e: Engine, bound: nat, r: Engine, c: Node)
    requires Exploring(e, bound, r) && e.open != [] && c == e.open[LowestAt(e.nodes, e.open)]
    requires e.nodes[c].state == Destination
    ensures Settled(e) && Parented(e.nodes) && e.dest != null && e.dest in e.nodes
    ensures r == Retrace(e, e.dest, 0, bound, [e.dest])
  {
  }

  /** An iteration that does not find the destination node expands it. */
  lemma ExploreExpands(e: Engine, bound: nat, r: Engine, c: Node)
    requires Exploring(e, bound, r) && e.open != [] && c == e.open[LowestAt(e.nodes, e.open)]
    requires e.nodes[c].state != Destination
    ensures c in e.nodes && c in e.depth && forall m :: m in e.nodes[c].connected ==> m in e.nodes
    ensures Exploring(ExpandStep(e, c), bound, r)
    ensures ExpandStep(e, c).closed == e.closed + [c]
  {
    ExpandKeeps(e, c);
  }

  /** No node listed in `a` has a higher G in `b`. */
  ghost predicate NoRise(a: Engine, b: Engine) {
    forall x :: x in a.nodes && (x in a.open || x in a.closed) ==> x in b.nodes && b.nodes[x].G <= a.nodes[x].G
  }

  /** `NoRise`, with every node listed in `a` still listed in `b`. */
  ghost predicate Lowered(a: Engine, b: Engine) {
    forall x :: x in a.nodes && (x in a.open || x in a.closed) ==>
      x in b.nodes && (x in b.open || x in b.closed) && b.nodes[x].G <= a.nodes[x].G
  }

  lemma NoRiseChain(a: Engine, b: Engine, c: Engine)
    requires Lowered(a, b) && NoRise(b, c)
    ensures NoRise(a, c)
  {
  }

  /** Over the whole `BuildPath` loop, whose outcome is `r`, no listed
      node's G ever rises: each iteration either only reconstructs the path
      or relaxes monotonically. */
  lemma {:induction false} ExploreLowers(e: Engine, bound: nat, r: Engine)
    requires Exploring(e, bound, r)
    ensures NoRise(e, r)
    decreases |e.nodes.Keys| - |e.closed|
  {
    ExploringLists(e, bound, r);
    if e.open != [] {
      var c := e.open[LowestAt(e.nodes, e.open)];
      if e.nodes[c].state == Destination {
        ExploreFinds(e, bound, r, c);
      } else {
        var next := StepLowers(e, bound, r, c);
        ExploreLowers(next, bound, r);
        NoRiseChain(e, next, r);
      }
    }
  }

  /** One expanding iteration of the loop keeps it running towards `r`,
      closes one more node, and keeps listed nodes listed with no higher G. */
  lemma StepLowers(e: Engine, bound: nat, r: Engine, c: Node) returns (next: Engine)
    requires Exploring(e, bound, r) && e.open != [] && c == e.open[LowestAt(e.nodes, e.open)]
    requires e.nodes[c].state != Destination
    ensures Exploring(next, bound, r) && next.nodes.Keys == e.nodes.Keys
    ensures |e.closed| < |next.closed| <= |next.nodes.Keys|
    ensures Lowered(e, next)
  {
    ExploreExpands(e, bound, r, c);
    ExpandLowers(e, c);
    next := ExpandStep(e, c);
    ExploringLists(next, bound, r);
  }

  /** The search fails only when no walkable route leads from the start node
      to the destination. */
  lemma ExploreFails(e: Engine, bound: nat, p: seq<Node>)
    requires Searching(e, null) && Fits(e, bound) && Explore(e, bound).next == null
    requires Route(e.nodes, p) && p[0] == e.start
    ensures p[|p| - 1] != e.dest
  {
    var r := Explore(e, bound);
    ExploreShape(e, bound);
    RouteKept(e.nodes, r.nodes, p);
    Unreachable(r, p);
  }

  /** A route stays a route while connections and types stay. */
  lemma RouteKept(a: map<Node, Links>, b: map<Node, Links>, p: seq<Node>)
    requires Route(a, p) && a.Keys == b.Keys
    requires forall x :: x in a ==> b[x].connected == a[x].connected && b[x].kind == a[x].kind
    ensures Route(b, p)
  {
    forall k | 0 < k < |p|
      ensures p[k] in b[p[k - 1]].connected && b[p[k]].kind != Obstructed
    {
      assert p[k - 1] in a && p[k] in a;
    }
  }

  /** `BuildPath` on a blank engine: the head marks the start node `s` and
      the destination `d` and opens `s`, then the loop runs. */
  ghost function Build(e: Engine, s: Node, d: Node, bound: nat): (r: Engine)
    requires Blank(e) && Wired(e.nodes) && Fits(e, bound) && s in e.nodes && d in e.nodes
    ensures Consistent(r) && r.nodes.Keys == e.nodes.Keys && r.start == s && r.dest == d
    ensures forall x :: x in e.nodes ==> r.nodes[x].connected == e.nodes[x].connected && r.nodes[x].kind == e.nodes[x].kind
    ensures r.next != null ==> r.committed[|r.committed| - 1] == d && (r.committed[0] == s || r.committed == [d])
  {
    BeginSearching(e, s, d);
    BeginKeeps(e, s, d);
    ExploreShape(Begin(e, s, d), bound);
    Explore(Begin(e, s, d), bound)
  }

  /** `StartSearch` on values: forget the previous search, then build a
      path from `s` to `d`. */
  ghost function Restart(e: Engine, s: Node, d: Node, bound: nat): (r: Engine)
    requires Wired(e.nodes) && ListsValid(e) && Idle(e) && Fits(e, bound) && s in e.nodes && d in e.nodes
    ensures Consistent(r) && r.nodes.Keys == e.nodes.Keys && r.start == s && r.dest == d
    ensures forall x :: x in e.nodes ==> r.nodes[x].connected == e.nodes[x].connected && r.nodes[x].kind == e.nodes[x].kind
    ensures r.next != null ==> r.committed[|r.committed| - 1] == d && (r.committed[0] == s || r.committed == [d])
  {
    ForgetClears(e);
    ForgetKeeps(e);
    Build(Forget(e), s, d, bound)
  }

  /** The reset keeps the graph: connections and types. */
  lemma ForgetKeeps(e: Engine)
    ensures Forget(e).nodes.Keys == e.nodes.Keys
    ensures forall x :: x in e.nodes ==>
      Forget(e).nodes[x].connected == e.nodes[x].connected && Forget(e).nodes[x].kind == e.nodes[x].kind
  {
    ForgetNodes(e);
  }

  /** The head of `BuildPath` keeps the graph. */
  lemma BeginKeeps(e: Engine, s: Node, d: Node)
    requires s in e.nodes && d in e.nodes
    ensures Begin(e, s, d).nodes.Keys == e.nodes.Keys
    ensures forall x :: x in e.nodes ==>
      Begin(e, s, d).nodes[x].connected == e.nodes[x].connected && Begin(e, s, d).nodes[x].kind == e.nodes[x].kind
  {
  }

  /** `BuildPath` fails only when no walkable route leads from its start node
      to its destination. */
  lemma BuildFails(e: Engine, s: Node, d: Node, bound: nat, p: seq<Node>)
    requires Blank(e) && Wired(e.nodes) && Fits(e, bound) && s in e.nodes && d in e.nodes
    requires Build(e, s, d, bound).next == null
    requires Route(e.nodes, p) && p[0] == s
    ensures p[|p| - 1] != d
  {
    BeginSearching(e, s, d);
    BeginKeeps(e, s, d);
    var begun := Begin(e, s, d);
    RouteKept(e.nodes, begun.nodes, p);
    ExploreFails(begun, bound, p);
  }

  /** A new search fails only when no walkable route leads from its start
      node to its destination. */
  lemma RestartFails(e: Engine, s: Node, d: Node, bound: nat, p: seq<Node>)
    requires Wired(e.nodes) && ListsValid(e) && Idle(e) && Fits(e, bound) && s in e.nodes && d in e.nodes
    requires Restart(e, s, d, bound).next == null
    requires Route(e.nodes, p) && p[0] == s
    ensures p[|p| - 1] != d
  {
    ForgetClears(e);
    ForgetKeeps(e);
    RouteKept(e.nodes, Forget(e).nodes, p);
    BuildFails(Forget(e), s, d, bound, p);
  }
}
