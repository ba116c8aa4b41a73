/** The two halves of `StartSearch` on values: forgetting the previous
    search (its reset loops over the closed and the open list) and the head
    of `BuildPath`, which marks the start and destination nodes and opens the
    start node. */
module Reset {
  import opened Graph
  import opened Plan

  /** The four assignments of a reset loop on one node: `child` and `parent`
      to null (G drops to 0), `destination` to null (H drops to 0) and
      `state` to `Regular`. */
  function Clear(l: Links): (r: Links)
    ensures r.parent == null && r.child == null && r.destination == null
    ensures r.G == 0.0 && r.H == 0.0 && r.state == Regular
    ensures r.kind == l.kind && r.connected == l.connected
  {
    l.(child := null, parent := null, G := 0.0, destination := null, H := 0.0, state := Regular)
  }

  /** What one reset loop of `StartSearch` leaves: every node on `list` is
      cleared, the others keep their fields. */
  ghost function Cleared(nodes: map<Node, Links>, list: seq<Node>): (r: map<Node, Links>)
    ensures r.Keys == nodes.Keys
  {
    map x | x in nodes :: if x in list then Clear(nodes[x]) else nodes[x]
  }

  /** The first half of `StartSearch`: the start and next nodes are dropped,
      the closed and then the open nodes are cleared, and both lists are
      emptied. The destination node stays, and so do the fields of every
      node on neither list. */
  ghost function Forget(e: Engine): Engine {
    Engine(Cleared(Cleared(e.nodes, e.closed), e.open), [], [], null, e.dest, null, map[], [])
  }

  /** After the reset the listed nodes are cleared and every other node
      keeps its fields: in particular a node left in the destination state by
      a search that never reached it keeps that state. */
  lemma ForgetNodes(e: Engine)
    ensures forall x :: x in e.nodes ==> Forget(e).nodes[x] == if x in e.open || x in e.closed then Clear(e.nodes[x]) else e.nodes[x]
  {
    var r := Forget(e);
    forall x | x in e.nodes
      ensures r.nodes[x] == if x in e.open || x in e.closed then Clear(e.nodes[x]) else e.nodes[x]
    {
      if x in e.closed && x !in e.open {
        assert Cleared(e.nodes, e.closed)[x] == Clear(e.nodes[x]);
      }
    }
  }

  /** The reset leaves no search behind: no node has a parent or a child,
      and the engine invariant holds. */
  lemma ForgetClears(e: Engine)
    requires ListsValid(e) && Idle(e) && Wired(e.nodes)
    ensures Consistent(Forget(e)) && Blank(Forget(e))
  {
    ForgetNodes(e);
    var r := Forget(e);
    forall x | x in r.nodes
      ensures r.nodes[x].parent == null && r.nodes[x].child == null
      ensures r.nodes[x].state == Regular || r.nodes[x].state == Destination
      ensures r.nodes[x].connected == e.nodes[x].connected
    {
    }
    BlankConsistent(r);
  }

  /** No search: empty lists, nothing committed, and no node with a parent or
      a child or in a search state other than the destination mark. */
  ghost predicate Blank(e: Engine) {
    && e.open == [] && e.closed == [] && e.start == null && e.next == null && e.committed == []
    && forall x :: x in e.nodes ==>
         e.nodes[x].parent == null && e.nodes[x].child == null && e.nodes[x].G == 0.0
         && (e.nodes[x].state == Regular || e.nodes[x].state == Destination)
  }

  lemma BlankConsistent(e: Engine)
    requires Blank(e) && Wired(e.nodes)
    ensures Consistent(e)
  {
  }

  /** The head of `BuildPath`: the start node is put in the start state,
      then the destination node in the destination state (so a start that is
      also the destination ends in the destination state), and the start
      node is the only open node. */
  ghost function Begin(e: Engine, s: Node, d: Node): Engine
    requires s in e.nodes && d in e.nodes
  {
    var started := e.nodes[s := e.nodes[s].(state := Start)];
    e.(nodes := started[d := started[d].(state := Destination)],
       open := e.open + [s], start := s, dest := d, depth := e.depth[s := 0])
  }

  /** `Begin` as the source performs it: the start node and its state, the
      destination node and its state, then the open list. */
  lemma BeginSplit(e: Engine, s: Node, d: Node)
    requires s in e.nodes && d in e.nodes
    ensures Begin(e, s, d) == Opened(Restated(Restated(e, s, Start).(start := s), d, Destination).(dest := d), s)
  {
  }

  /** The `state` setter applied to the node `n` of an engine. */
  ghost function Restated(e: Engine, n: Node, st: State): (r: Engine)
    requires n in e.nodes
  {
    e.(nodes := e.nodes[n := e.nodes[n].(state := st)])
  }

  /** `open.Add(s)` for the start node `s`, the root of the search tree. */
  ghost function Opened(e: Engine, s: Node): (r: Engine) {
    e.(open := e.open + [s], depth := e.depth[s := 0])
  }

  /** A search begun on a forgotten engine satisfies the invariant of the
      `BuildPath` loop. */
  lemma BeginSearching(e: Engine, s: Node, d: Node)
    requires Blank(e) && s in e.nodes && d in e.nodes && Wired(e.nodes)
    ensures Searching(Begin(e, s, d), null)
    ensures Begin(e, s, d).open == [s] && Begin(e, s, d).start == s && Begin(e, s, d).dest == d
  {
    BeginLinks(e, s, d);
    BeginRoles(e, s, d);
  }

  lemma BeginLinks(e: Engine, s: Node, d: Node)
    requires Blank(e) && s in e.nodes && d in e.nodes && Wired(e.nodes)
    ensures var r := Begin(e, s, d);
      Wired(r.nodes) && ListsValid(r) && Idle(r) && Ranked(r) && Tree(r)
  {
    var r := Begin(e, s, d);
    BeginFields(e, s, d);
    assert Wired(r.nodes);
    assert Idle(r);
  }

  /** `Begin` changes only the states of the start and destination nodes. */
  lemma BeginFields(e: Engine, s: Node, d: Node)
    requires Blank(e) && s in e.nodes && d in e.nodes
    ensures var r := Begin(e, s, d);
      && r.nodes.Keys == e.nodes.Keys
      && forall x :: x in e.nodes ==>
           && r.nodes[x].parent == null && r.nodes[x].child == null && r.nodes[x].connected == e.nodes[x].connected
           && (x != s ==> r.nodes[x].state == Regular || r.nodes[x].state == Destination)
  {
  }

  lemma BeginRoles(e: Engine, s: Node, d: Node)
    requires Blank(e) && s in e.nodes && d in e.nodes
    ensures Roles(Begin(e, s, d))
  {
    var r := Begin(e, s, d);
    assert forall x :: x in e.nodes && x != s && x != d ==> r.nodes[x] == e.nodes[x];
  }
}
