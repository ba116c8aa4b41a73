/** The search of `Astar` on values. An `Engine` is what the search reads
    and writes: the engine's own fields and, for every graph node, the fields
    the setters of `Node` change. The functions here replay the source's
    steps on such values (closing a node, relaxing a neighbour, clearing the
    lists, reconstructing the path), and the lemmas prove what the steps
    keep: the lists stay disjoint and duplicate-free, parent links stay a
    tree rooted at the start node, and a committed path is a walkable route
    that ends at the destination. The `Search` module ties each method of
    the engine to the step it performs here. */
module Plan {
  import opened Geometry
  import opened Sequences
  import opened Graph

  /** The search fields of one node: its links, its A* scores, its state and
      type, and the nodes it is connected to. */
  datatype Links = Links(
    parent: Node?, child: Node?, destination: Node?,
    G: real, H: real,
    state: State, kind: NodeType,
    connected: seq<Node>)

  /** The engine's search data together with the search fields of every graph
      node. `depth` ranks the search tree (a parent is ranked below its
      children) and `committed` is the path from `next`'s predecessors to the
      destination that `ReconstructPath` linked; neither is kept by the
      source. */
  datatype Engine = Engine(
    nodes: map<Node, Links>,
    open: seq<Node>, closed: seq<Node>,
    start: Node?, dest: Node?, next: Node?,
    depth: map<Node, nat>, committed: seq<Node>)

  // ----- Invariants -----

  /** Every connection stays inside the graph. */
  ghost predicate Wired(nodes: map<Node, Links>) {
    forall n, m :: n in nodes && m in nodes[n].connected ==> m in nodes
  }

  /** A walk through the graph: each node is connected from the one before
      it and, after the first, none is obstructed. */
  ghost predicate Route(nodes: map<Node, Links>, p: seq<Node>) {
    && |p| > 0
    && (forall k :: 0 <= k < |p| ==> p[k] in nodes)
    && (forall k :: 0 < k < |p| ==> p[k] in nodes[p[k - 1]].connected && nodes[p[k]].kind != Obstructed)
  }

  /** The open and closed lists hold distinct graph nodes, and no node is on
      both. */
  ghost predicate ListsValid(e: Engine) {
    && (forall n :: n in e.open ==> n in e.nodes)
    && (forall n :: n in e.closed ==> n in e.nodes)
    && Distinct(e.open) && Distinct(e.closed)
    && (forall n :: n in e.open ==> n !in e.closed)
  }

  /** A node on neither list has no parent, no child and a G of 0, and is in
      the regular or the destination state. Only the destination mark can outlive a
      search: the reset clears listed nodes alone. */
  ghost predicate Idle(e: Engine) {
    forall n :: n in e.nodes && n !in e.open && n !in e.closed ==>
      && e.nodes[n].parent == null && e.nodes[n].child == null && e.nodes[n].G == 0.0
      && (e.nodes[n].state == Regular || e.nodes[n].state == Destination)
  }

  /** Every parent is a graph node ranked strictly below its child, so
      parent chains end. */
  ghost predicate Ranked(e: Engine) {
    forall n :: n in e.nodes && e.nodes[n].parent != null ==>
      e.nodes[n].parent in e.nodes && n in e.depth && e.nodes[n].parent in e.depth
      && e.depth[e.nodes[n].parent] < e.depth[n]
  }

  /** The listed nodes form a tree rooted at the start node: every other
      listed node hangs below a closed node it is connected from, and its G
      is its parent's G plus the step from the parent. */
  ghost predicate Tree(e: Engine) {
    && (e.open != [] || e.closed != [] ==> e.start != null && (e.start in e.open || e.start in e.closed))
    && forall n :: n in e.nodes && (n in e.open || n in e.closed) ==>
         && n in e.depth
         && (e.nodes[n].parent == null <==> n == e.start)
         && (e.nodes[n].parent != null ==>
               && e.nodes[n].parent in e.nodes && e.nodes[n].parent in e.closed
               && n in e.nodes[e.nodes[n].parent].connected
               && e.nodes[n].G == n.GThrough(e.nodes[n].parent, e.nodes[e.nodes[n].parent].G))
  }

  /** Consecutive nodes of a committed path: linked both ways, the first not
      in the destination state and the second not in the start state. */
  ghost predicate Linked(e: Engine, a: Node, b: Node)
    requires a in e.nodes && b in e.nodes
  {
    e.nodes[a].child == b && e.nodes[a].state != Destination && e.nodes[b].parent == a && e.nodes[b].state != Start
  }

  /** The committed path: `next` lies on it, it is a walkable route whose
      consecutive nodes are linked, its first node has no parent, and it
      ends at the destination, the only node on it in the destination state. */
  ghost predicate CommittedValid(e: Engine) {
    && (e.next == null <==> e.committed == [])
    && (e.committed != [] ==>
          && e.next in e.committed
          && Route(e.nodes, e.committed)
          && e.dest == e.committed[|e.committed| - 1]
          && e.nodes[e.dest].state == Destination
          && e.nodes[e.committed[0]].parent == null
          && (forall k :: 0 < k < |e.committed| ==> Linked(e, e.committed[k - 1], e.committed[k])))
  }

  /** The engine invariant between public calls. */
  ghost predicate Consistent(e: Engine) {
    Wired(e.nodes) && ListsValid(e) && Idle(e) && Ranked(e) && Tree(e) && CommittedValid(e)
  }

  /** The roles the search gives nodes: the start node is listed (and the only
      node open before the first expansion), the destination node is never
      closed and keeps its mark, only the start node is in the start state,
      closed nodes are in the start or closed state, and no listed node but
      the start is obstructed. */
  ghost predicate Roles(e: Engine) {
    && e.start != null && e.start in e.nodes
    && e.dest != null && e.dest in e.nodes
    && (e.closed == [] ==> e.open == [e.start])
    && (e.closed != [] ==> e.start in e.closed)
    && e.nodes[e.dest].state == Destination && e.dest !in e.closed
    && (e.nodes[e.start].state == Start || e.start == e.dest)
    && (forall n :: n in e.nodes && n != e.start ==> e.nodes[n].state != Start)
    && (forall n :: n in e.nodes && n in e.closed ==> e.nodes[n].state == Start || e.nodes[n].state == Closed)
    && (forall n :: n in e.nodes && (n in e.open || n in e.closed) && n != e.start ==> e.nodes[n].kind != Obstructed)
  }

  /** Every closed node other than `pending` has had all its neighbours
      examined: each is listed or obstructed. */
  ghost predicate Closure(e: Engine, pending: Node?) {
    forall c, m :: c in e.nodes && c in e.closed && c != pending && m in e.nodes[c].connected && m in e.nodes ==>
      m in e.closed || m in e.open || e.nodes[m].kind == Obstructed
  }

  /** The invariant of the `BuildPath` loop, while the neighbours of
      `pending` (if not null) are being examined. */
  ghost predicate Searching(e: Engine, pending: Node?) {
    && Wired(e.nodes) && ListsValid(e) && Idle(e) && Ranked(e) && Tree(e)
    && e.committed == [] && e.next == null
    && Roles(e)
    && (pending != null ==> pending in e.closed)
    && Closure(e, pending)
  }

  /** A node is covered once it is listed or obstructed. */
  ghost predicate Covered(e: Engine, m: Node)
    requires m in e.nodes
  {
    m in e.closed || m in e.open || e.nodes[m].kind == Obstructed
  }

  // ----- Expanding a node -----

  /** The `destination` setter on a node's fields. */
  function Aim(n: Node, l: Links, d: Node?): Links {
    l.(destination := d, H := n.HeuristicTo(d))
  }

  /** The head of a `BuildPath` iteration: `c` gets the destination, moves
      from the open list to the end of the closed list, and is put in the
      closed state unless it is the start. */
  ghost function CloseStep(e: Engine, c: Node): (r: Engine)
    requires c in e.nodes
    ensures r.nodes.Keys == e.nodes.Keys && r.depth == e.depth
    ensures forall x :: x in e.nodes ==> r.nodes[x].connected == e.nodes[x].connected && r.nodes[x].kind == e.nodes[x].kind
  {
    var l := Aim(c, e.nodes[c], e.dest);
    e.(nodes := e.nodes[c := if l.state != Start then l.(state := Closed) else l],
       open := RemoveFirst(e.open, c), closed := e.closed + [c])
  }

  /** One pass of the inner `foreach` of `BuildPath`: the neighbour `n` of
      the node `c` being expanded is skipped if closed or obstructed;
      otherwise it gets the destination and, if it is not open or `c` offers
      it a smaller G, it is put below `c`, and appended to the open list in
      the open state (a destination keeps its state) if it was not open. */
  ghost function RelaxStep(e: Engine, n: Node, c: Node): (r: Engine)
    requires n in e.nodes && c in e.nodes && c in e.depth
    ensures r.nodes.Keys == e.nodes.Keys && e.depth.Keys <= r.depth.Keys
    ensures forall x :: x in e.nodes ==> r.nodes[x].connected == e.nodes[x].connected && r.nodes[x].kind == e.nodes[x].kind
    ensures r.closed == e.closed && r.start == e.start && r.dest == e.dest
    ensures r.next == e.next && r.committed == e.committed
  {
    if n in e.closed || e.nodes[n].kind == Obstructed then e
    else
      var l := Aim(n, e.nodes[n], e.dest);
      var g := n.GThrough(c, e.nodes[c].G);
      if n !in e.open || g < l.G then
        var below := l.(parent := c, G := g);
        var depth := e.depth[n := e.depth[c] + 1];
        if n !in e.open then
          e.(nodes := e.nodes[n := if below.state != Destination then below.(state := Open) else below],
             open := e.open + [n], depth := depth)
        else
          e.(nodes := e.nodes[n := below], depth := depth)
      else
        e.(nodes := e.nodes[n := l])
  }

  /** `CloseStep` as the source performs it: the destination, the move from
      one list to the other, the closed state. */
  lemma CloseSplit(e: Engine, c: Node)
    requires c in e.nodes
    ensures CloseStep(e, c) == Marked(Shifted(Aimed(e, c), c), c)
  {
  }

  /** `open.Remove(c)`, then `closed.Add(c)`. */
  ghost function Shifted(e: Engine, c: Node): (r: Engine) {
    e.(open := RemoveFirst(e.open, c), closed := e.closed + [c])
  }

  /** The closed state for `c`, unless it is in the start state. */
  ghost function Marked(e: Engine, c: Node): (r: Engine)
    requires c in e.nodes
  {
    if e.nodes[c].state != Start then e.(nodes := e.nodes[c := e.nodes[c].(state := Closed)]) else e
  }

  /** `RelaxStep` after its skip test, as the source performs it: the
      destination is set on `n`, and if `c` improves on `n`, `n` is put below
      `c` and, when it was not open, enqueued. */
  lemma RelaxSplit(e: Engine, n: Node, c: Node)
    requires n in e.nodes && c in e.nodes && c in e.depth
    requires n !in e.closed && e.nodes[n].kind != Obstructed
    ensures var a := Aimed(e, n);
      RelaxStep(e, n, c) ==
        if !Improves(a, n, c) then a
        else if n in e.open then Adopted(a, n, c)
        else Enqueued(Adopted(a, n, c), n)
  {
  }

  /** The `destination` setter applied to the node `n` of an engine. */
  ghost function Aimed(e: Engine, n: Node): (r: Engine)
    requires n in e.nodes
  {
    e.(nodes := e.nodes[n := Aim(n, e.nodes[n], e.dest)])
  }

  /** The test of the inner `foreach`: `n` is not open, or `c` offers it a
      smaller G. */
  ghost predicate Improves(e: Engine, n: Node, c: Node)
    requires n in e.nodes && c in e.nodes
  {
    n !in e.open || n.GThrough(c, e.nodes[c].G) < e.nodes[n].G
  }

  /** `n.parent = c`: `n` gets the G it has through `c` and ranks one below
      `c`. */
  ghost function Adopted(e: Engine, n: Node, c: Node): (r: Engine)
    requires n in e.nodes && c in e.nodes && c in e.depth
  {
    e.(nodes := e.nodes[n := e.nodes[n].(parent := c, G := n.GThrough(c, e.nodes[c].G))],
       depth := e.depth[n := e.depth[c] + 1])
  }

  /** `open.Add(n)`, then the open state unless `n` is the destination. */
  ghost function Enqueued(e: Engine, n: Node): (r: Engine)
    requires n in e.nodes
  {
    e.(nodes := if e.nodes[n].state != Destination then e.nodes[n := e.nodes[n].(state := Open)] else e.nodes,
       open := e.open + [n])
  }

  /** The inner `foreach` of `BuildPath` over the neighbours `ns` of `c`
      that are still to be examined. */
  ghost function RelaxAll(e: Engine, c: Node, ns: seq<Node>): (r: Engine)
    requires c in e.nodes && c in e.depth && forall m :: m in ns ==> m in e.nodes
    ensures r.nodes.Keys == e.nodes.Keys && e.depth.Keys <= r.depth.Keys
    ensures forall x :: x in e.nodes ==> r.nodes[x].connected == e.nodes[x].connected && r.nodes[x].kind == e.nodes[x].kind
    ensures r.closed == e.closed && r.start == e.start && r.dest == e.dest
    ensures r.next == e.next && r.committed == e.committed
    decreases |ns|
  {
    if ns == [] then e
    else RelaxAll(RelaxStep(e, ns[0], c), c, ns[1..])
  }

  /** A whole iteration of the `BuildPath` loop that does not stop at `c`. */
  ghost function ExpandStep(e: Engine, c: Node): (r: Engine)
    requires c in e.nodes && c in e.depth
    requires forall m :: m in e.nodes[c].connected ==> m in e.nodes
    ensures r.nodes.Keys == e.nodes.Keys
    ensures forall x :: x in e.nodes ==> r.nodes[x].connected == e.nodes[x].connected && r.nodes[x].kind == e.nodes[x].kind
  {
    RelaxAll(CloseStep(e, c), c, e.nodes[c].connected)
  }

  /** Closing the open node `c` keeps the search invariant, with `c`
      pending. */
  lemma CloseKeeps(e: Engine, c: Node)
    requires Searching(e, null) && c in e.open && e.nodes[c].state != Destination
    ensures Searching(CloseStep(e, c), c)
  {
    var r := CloseStep(e, c);
    CloseLists(e, c);
    CloseLinks(e, c);
    CloseRoles(e, c);
    assert Closure(r, c) by {
      forall x, m | x in r.nodes && x in r.closed && x != c && m in r.nodes[x].connected && m in r.nodes
        ensures m in r.closed || m in r.open || r.nodes[m].kind == Obstructed
      {
        assert x in e.closed && m in e.nodes[x].connected;
      }
    }
  }

  lemma CloseLists(e: Engine, c: Node)
    requires ListsValid(e) && Wired(e.nodes) && c in e.open
    ensures ListsValid(CloseStep(e, c)) && Wired(CloseStep(e, c).nodes)
    ensures forall n :: n in CloseStep(e, c).open || n in CloseStep(e, c).closed <==> n in e.open || n in e.closed
  {
    var r := CloseStep(e, c);
    RemoveFirstDistinct(e.open, c);
    assert Distinct(r.closed) by {
      forall i, j | 0 <= i < j < |r.closed| ensures r.closed[i] != r.closed[j] {
        if j == |e.closed| {
          assert r.closed[i] in e.closed;
        } else {
          assert r.closed[i] == e.closed[i] && r.closed[j] == e.closed[j];
        }
      }
    }
  }

  lemma CloseLinks(e: Engine, c: Node)
    requires ListsValid(e) && Wired(e.nodes) && Idle(e) && Ranked(e) && Tree(e) && c in e.open
    ensures Idle(CloseStep(e, c)) && Ranked(CloseStep(e, c)) && Tree(CloseStep(e, c))
  {
    CloseKeepsParents(e, c);
    CloseLists(e, c);
    CloseTree(e, c);
  }

  /** Closing a node changes no parent and no child. */
  lemma CloseKeepsParents(e: Engine, c: Node)
    requires c in e.nodes
    ensures forall n :: n in e.nodes ==>
      CloseStep(e, c).nodes[n].parent == e.nodes[n].parent && CloseStep(e, c).nodes[n].child == e.nodes[n].child
  {
  }

  lemma CloseTree(e: Engine, c: Node)
    requires ListsValid(e) && Wired(e.nodes) && Tree(e) && c in e.open
    ensures Tree(CloseStep(e, c))
  {
    CloseKeepsParents(e, c);
    CloseLists(e, c);
  }

  lemma CloseRoles(e: Engine, c: Node)
    requires ListsValid(e) && Wired(e.nodes) && Roles(e) && c in e.open && e.nodes[c].state != Destination
    ensures Roles(CloseStep(e, c)) && c in CloseStep(e, c).closed
  {
    var r := CloseStep(e, c);
    assert c != e.dest;
    assert e.start in r.closed by {
      if e.closed == [] {
        assert c == e.start;
      }
    }
    forall n | n in r.nodes && n != r.start
      ensures r.nodes[n].state != Start
    {
      if n != c {
        assert r.nodes[n] == e.nodes[n];
      }
    }
    forall n | n in r.nodes && n in r.closed
      ensures r.nodes[n].state == Start || r.nodes[n].state == Closed
    {
      if n != c {
        assert n in e.closed && r.nodes[n] == e.nodes[n];
      }
    }
    forall n | n in r.nodes && (n in r.open || n in r.closed) && n != r.start
      ensures r.nodes[n].kind != Obstructed
    {
      assert n in e.open || n in e.closed;
    }
  }

  /** Relaxing a neighbour of the pending node keeps the search invariant,
      covers that neighbour, and leaves every covered node covered. */
  lemma RelaxKeeps(e: Engine, n: Node, c: Node)
    requires Searching(e, c) && n in e.nodes[c].connected
    ensures c in e.depth && n in e.nodes
    ensures Searching(RelaxStep(e, n, c), c)
    ensures Covered(RelaxStep(e, n, c), n)
    ensures forall m :: m in e.nodes && Covered(e, m) ==> Covered(RelaxStep(e, n, c), m)
  {
    RelaxLists(e, n, c);
    RelaxLinks(e, n, c);
    RelaxRoles(e, n, c);
    var r := RelaxStep(e, n, c);
    assert Closure(r, c) by {
      forall x, m | x in r.nodes && x in r.closed && x != c && m in r.nodes[x].connected && m in r.nodes
        ensures m in r.closed || m in r.open || r.nodes[m].kind == Obstructed
      {
        assert x in e.closed && m in e.nodes[x].connected;
        assert Covered(e, m);
      }
    }
  }

  /** Relaxing keeps the lists valid, and only ever appends `n` to the open
      list. */
  lemma RelaxLists(e: Engine, n: Node, c: Node)
    requires ListsValid(e) && Wired(e.nodes) && c in e.nodes && c in e.depth && n in e.nodes
    ensures ListsValid(RelaxStep(e, n, c)) && Wired(RelaxStep(e, n, c).nodes)
    ensures RelaxStep(e, n, c).open == e.open || (n !in e.open && n !in e.closed && RelaxStep(e, n, c).open == e.open + [n])
    ensures n in e.closed || e.nodes[n].kind == Obstructed || n in RelaxStep(e, n, c).open
  {
    var r := RelaxStep(e, n, c);
    if r.open != e.open {
      assert Distinct(r.open) by {
        forall i, j | 0 <= i < j < |r.open| ensures r.open[i] != r.open[j] {
          if j == |e.open| {
            assert r.open[i] in e.open;
          } else {
            assert r.open[i] == e.open[i] && r.open[j] == e.open[j];
          }
        }
      }
    }
  }

  /** Relaxing keeps the idle nodes idle and the parent links a ranked tree:
      `n` is not closed, so no node hangs below it. */
  lemma RelaxLinks(e: Engine, n: Node, c: Node)
    requires ListsValid(e) && Idle(e) && Ranked(e) && Tree(e) && Roles(e)
    requires c in e.nodes && c in e.closed && n in e.nodes[c].connected && n in e.nodes
    ensures c in e.depth
    ensures Idle(RelaxStep(e, n, c)) && Ranked(RelaxStep(e, n, c)) && Tree(RelaxStep(e, n, c))
  {
    if n !in e.closed && e.nodes[n].kind != Obstructed {
      Unclosed(e, n);
      assert n != e.start;
      if n !in e.open {
        OpenLinks(e, n, c);
      } else if n.GThrough(c, e.nodes[c].G) < e.nodes[n].G {
        ReparentLinks(e, n, c);
      } else {
        AimLinks(e, n, c);
      }
    } else {
      assert RelaxStep(e, n, c) == e;
    }
  }

  /** No node hangs below a node that is not closed. */
  lemma Unclosed(e: Engine, n: Node)
    requires Idle(e) && Tree(e) && n !in e.closed
    ensures Childless(e, n)
  {
  }

  lemma AimLinks(e: Engine, n: Node, c: Node)
    requires Idle(e) && Ranked(e) && Tree(e)
    requires c in e.nodes && c in e.depth && n in e.nodes && n in e.open && n !in e.closed && e.nodes[n].kind != Obstructed
    requires !(n.GThrough(c, e.nodes[c].G) < e.nodes[n].G)
    ensures Idle(RelaxStep(e, n, c)) && Ranked(RelaxStep(e, n, c)) && Tree(RelaxStep(e, n, c))
  {
    var r := RelaxStep(e, n, c);
    assert r == e.(nodes := e.nodes[n := Aim(n, e.nodes[n], e.dest)]);
    Relabel(e, r);
  }

  /** Changing the fields of listed nodes other than their parents, G and
      connections keeps the idle nodes idle and the parent links a ranked
      tree. */
  lemma Relabel(e: Engine, r: Engine)
    requires Idle(e) && Ranked(e) && Tree(e)
    requires r.nodes.Keys == e.nodes.Keys && r.depth == e.depth
    requires r.open == e.open && r.closed == e.closed && r.start == e.start
    requires forall x :: x in e.nodes ==>
      && r.nodes[x].parent == e.nodes[x].parent && r.nodes[x].connected == e.nodes[x].connected
      && r.nodes[x].G == e.nodes[x].G
      && (x !in e.open && x !in e.closed ==> r.nodes[x].state == e.nodes[x].state && r.nodes[x].child == e.nodes[x].child)
    ensures Idle(r) && Ranked(r) && Tree(r)
  {
  }

  lemma OpenLinks(e: Engine, n: Node, c: Node)
    requires Idle(e) && Ranked(e) && Tree(e)
    requires c in e.nodes && c in e.depth && c in e.closed && n in e.nodes[c].connected && n in e.nodes && n != e.start
    requires n !in e.closed && n !in e.open && e.nodes[n].kind != Obstructed && Childless(e, n)
    ensures Idle(RelaxStep(e, n, c)) && Ranked(RelaxStep(e, n, c)) && Tree(RelaxStep(e, n, c))
  {
    var r := RelaxStep(e, n, c);
    assert r.open == e.open + [n] && r.depth == e.depth[n := e.depth[c] + 1];
    assert forall x :: x in e.nodes && x != n ==> r.nodes[x] == e.nodes[x];
    assert r.nodes[n].parent == c;
    Hang(e, r, n, c);
  }

  lemma ReparentLinks(e: Engine, n: Node, c: Node)
    requires Idle(e) && Ranked(e) && Tree(e)
    requires c in e.nodes && c in e.depth && c in e.closed && n in e.nodes[c].connected && n in e.nodes && n != e.start
    requires n !in e.closed && n in e.open && e.nodes[n].kind != Obstructed && Childless(e, n)
    requires n.GThrough(c, e.nodes[c].G) < e.nodes[n].G
    ensures Idle(RelaxStep(e, n, c)) && Ranked(RelaxStep(e, n, c)) && Tree(RelaxStep(e, n, c))
  {
    var r := RelaxStep(e, n, c);
    assert r.open == e.open && r.depth == e.depth[n := e.depth[c] + 1];
    assert forall x :: x in e.nodes && x != n ==> r.nodes[x] == e.nodes[x];
    assert r.nodes[n].parent == c;
    Hang(e, r, n, c);
  }

  /** Hanging the childless, unclosed node `n` below the closed node `c` that
      it is connected from, and listing it, keeps the idle nodes idle and the
      parent links a ranked tree. */
  lemma Hang(e: Engine, r: Engine, n: Node, c: Node)
    requires Idle(e) && Ranked(e) && Tree(e)
    requires c in e.nodes && c in e.depth && c in e.closed && n in e.nodes && n in e.nodes[c].connected
    requires n !in e.closed && n != e.start && Childless(e, n)
    requires r.nodes.Keys == e.nodes.Keys && r.depth == e.depth[n := e.depth[c] + 1]
    requires r.closed == e.closed && r.start == e.start && (r.open == e.open || r.open == e.open + [n])
    requires n in r.open && r.nodes[n].parent == c && r.nodes[c] == e.nodes[c]
    requires r.nodes[n].G == n.GThrough(c, e.nodes[c].G)
    requires forall x :: x in e.nodes && x != n ==> r.nodes[x] == e.nodes[x]
    ensures Idle(r) && Ranked(r) && Tree(r)
  {
    HangRanked(e, r, n, c);
  }

  lemma HangRanked(e: Engine, r: Engine, n: Node, c: Node)
    requires Ranked(e) && c in e.nodes && c in e.depth && n in e.nodes && n != c && Childless(e, n)
    requires r.nodes.Keys == e.nodes.Keys && r.depth == e.depth[n := e.depth[c] + 1] && r.nodes[n].parent == c
    requires forall x :: x in e.nodes && x != n ==> r.nodes[x] == e.nodes[x]
    ensures Ranked(r)
  {
  }

  /** No node hangs below `n`. */
  ghost predicate Childless(e: Engine, n: Node) {
    forall x :: x in e.nodes ==> e.nodes[x].parent != n
  }

  /** Relaxing keeps the roles: `n` is opened in the open state unless it is
      a destination, and is not obstructed. */
  lemma RelaxRoles(e: Engine, n: Node, c: Node)
    requires Roles(e) && c in e.nodes && c in e.depth && c in e.closed && n in e.nodes
    ensures Roles(RelaxStep(e, n, c))
  {
    var r := RelaxStep(e, n, c);
    if n !in e.closed && e.nodes[n].kind != Obstructed {
      assert n != e.start;
      assert r.closed == e.closed && r.start == e.start && r.dest == e.dest;
      assert r.open == e.open || r.open == e.open + [n];
      assert r.nodes[n].state == e.nodes[n].state || r.nodes[n].state == Open;
      assert r.nodes[n].state == Destination <==> e.nodes[n].state == Destination;
      assert forall x :: x in e.nodes && x != n ==> r.nodes[x] == e.nodes[x];
    } else {
      assert r == e;
    }
  }

  /** Relaxing the neighbours `ns` of the pending node keeps the search
      invariant, covers each of them, and leaves every covered node
      covered. */
  lemma {:induction false} RelaxAllKeeps(e: Engine, c: Node, ns: seq<Node>)
    requires Searching(e, c) && forall m :: m in ns ==> m in e.nodes[c].connected
    ensures c in e.depth && forall m :: m in ns ==> m in e.nodes
    ensures Searching(RelaxAll(e, c, ns), c)
    ensures forall m :: m in ns ==> Covered(RelaxAll(e, c, ns), m)
    ensures forall m :: m in e.nodes && Covered(e, m) ==> Covered(RelaxAll(e, c, ns), m)
    decreases |ns|
  {
    if ns != [] {
      RelaxKeeps(e, ns[0], c);
      var next := RelaxStep(e, ns[0], c);
      assert next.nodes[c].connected == e.nodes[c].connected;
      RelaxAllKeeps(next, c, ns[1..]);
      assert forall m :: m in ns ==> m == ns[0] || m in ns[1..];
    }
  }

  /** Once every neighbour of `c` is covered, nothing is pending. */
  lemma Settle(e: Engine, c: Node)
    requires Searching(e, c)
    requires forall m :: m in e.nodes[c].connected ==> Covered(e, m)
    ensures Searching(e, null)
  {
    assert Closure(e, null) by {
      forall x, m | x in e.nodes && x in e.closed && m in e.nodes[x].connected && m in e.nodes
        ensures m in e.closed || m in e.open || e.nodes[m].kind == Obstructed
      {
        if x == c {
          assert Covered(e, m);
        }
      }
    }
  }

  /** A whole iteration of the `BuildPath` loop keeps the search invariant and
      closes exactly the node it expands. */
  lemma ExpandKeeps(e: Engine, c: Node)
    requires Searching(e, null) && c in e.open && e.nodes[c].state != Destination
    ensures c in e.nodes && c in e.depth && forall m :: m in e.nodes[c].connected ==> m in e.nodes
    ensures Searching(ExpandStep(e, c), null)
    ensures ExpandStep(e, c).closed == e.closed + [c]
  {
    CloseKeeps(e, c);
    var closing := CloseStep(e, c);
    assert closing.nodes[c].connected == e.nodes[c].connected;
    RelaxAllKeeps(closing, c, e.nodes[c].connected);
    var done := RelaxAll(closing, c, e.nodes[c].connected);
    assert done.nodes[c].connected == e.nodes[c].connected;
    Settle(done, c);
  }

  // ----- Costs -----

  /** Monotone relaxation: a relaxation step changes the G of `n` alone,
      lowers it when `n` is already open (the source re-parents an open
      node only through a strictly smaller tentative G), and whatever G it
      gives `n` is the one through `c`. Listed nodes stay listed. */
  lemma RelaxLowers(e: Engine, n: Node, c: Node)
    requires n in e.nodes && c in e.nodes && c in e.depth
    ensures forall x :: x in e.nodes && x != n ==> RelaxStep(e, n, c).nodes[x].G == e.nodes[x].G
    ensures n in e.open ==> RelaxStep(e, n, c).nodes[n].G <= e.nodes[n].G
    ensures n in e.closed ==> RelaxStep(e, n, c).nodes[n].G == e.nodes[n].G
    ensures RelaxStep(e, n, c).nodes[n].G != e.nodes[n].G ==>
      RelaxStep(e, n, c).nodes[n].parent == c && RelaxStep(e, n, c).nodes[n].G == n.GThrough(c, e.nodes[c].G)
    ensures forall x :: x in e.open ==> x in RelaxStep(e, n, c).open
  {
  }

  /** Relaxing the neighbours `ns` of `c` never raises the G of a listed
      node, and keeps the G of every closed node. */
  lemma {:induction false} RelaxAllLowers(e: Engine, c: Node, ns: seq<Node>)
    requires c in e.nodes && c in e.depth && forall m :: m in ns ==> m in e.nodes
    ensures forall x :: x in e.open && x in e.nodes ==> x in RelaxAll(e, c, ns).open && RelaxAll(e, c, ns).nodes[x].G <= e.nodes[x].G
    ensures forall x :: x in e.closed && x in e.nodes ==> RelaxAll(e, c, ns).nodes[x].G == e.nodes[x].G
    decreases |ns|
  {
    if ns != [] {
      var next := RelaxStep(e, ns[0], c);
      RelaxLowers(e, ns[0], c);
      RelaxAllLowers(next, c, ns[1..]);
      assert RelaxAll(e, c, ns) == RelaxAll(next, c, ns[1..]);
      forall x | x in e.open && x in e.nodes
        ensures x in RelaxAll(e, c, ns).open && RelaxAll(e, c, ns).nodes[x].G <= e.nodes[x].G
      {
        assert x in next.open && next.nodes[x].G <= e.nodes[x].G;
      }
    }
  }

  /** A whole iteration of the `BuildPath` loop keeps every listed node
      listed and never raises its G. */
  lemma ExpandLowers(e: Engine, c: Node)
    requires c in e.nodes && c in e.depth && forall m :: m in e.nodes[c].connected ==> m in e.nodes
    ensures forall x :: x in e.nodes && (x in e.open || x in e.closed) ==>
      && (x in ExpandStep(e, c).open || x in ExpandStep(e, c).closed)
      && ExpandStep(e, c).nodes[x].G <= e.nodes[x].G
  {
    var closing := CloseStep(e, c);
    assert forall x :: x in e.nodes ==> closing.nodes[x].G == e.nodes[x].G;
    RelaxAllLowers(closing, c, e.nodes[c].connected);
    forall x | x in e.nodes && (x in e.open || x in e.closed)
      ensures x in ExpandStep(e, c).open || x in ExpandStep(e, c).closed
      ensures ExpandStep(e, c).nodes[x].G <= e.nodes[x].G
    {
      assert x in closing.open || x in closing.closed;
    }
  }

  /** Along a committed path each node's G is its predecessor's G plus the
      step between them. */
  lemma CommittedCosts(e: Engine)
    requires Idle(e) && Tree(e) && CommittedValid(e)
    ensures forall k :: 0 < k < |e.committed| ==>
      e.nodes[e.committed[k]].G == e.committed[k].GThrough(e.committed[k - 1], e.nodes[e.committed[k - 1]].G)
  {
    var c := e.committed;
    forall k | 0 < k < |c|
      ensures e.nodes[c[k]].G == c[k].GThrough(c[k - 1], e.nodes[c[k - 1]].G)
    {
      assert Linked(e, c[k - 1], c[k]);
      assert c[k] in e.open || c[k] in e.closed;
    }
  }

  /** With non-negative step distances, G never decreases along a committed
      path. */
  lemma {:induction false} CommittedCostsRise(e: Engine, j: nat)
    requires Idle(e) && Tree(e) && CommittedValid(e) && j < |e.committed|
    requires forall x :: x in e.committed ==> NonNegative(x.dist)
    ensures forall i :: 0 <= i <= j ==> e.nodes[e.committed[i]].G <= e.nodes[e.committed[j]].G
  {
    if j > 0 {
      CommittedCostsRise(e, j - 1);
      CommittedCosts(e);
      var c := e.committed;
      assert NonNegative(c[j].dist);
      assert e.nodes[c[j]].G == c[j].GThrough(c[j - 1], e.nodes[c[j - 1]].G);
    }
  }
}
