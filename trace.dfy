/** What the search leaves behind, on values: the path `ReconstructPath`
    links from the destination back to the start, the walk of `NodeInPath`
    up the parent chain, the step `MoveDirection` takes along the committed
    path, and the type changes of `DepthData`. */
module Trace {
  import opened Sequences
  import opened Graph
  import opened Plan

  /** Every parent is a graph node. */
  ghost predicate Parented(nodes: map<Node, Links>) {
    forall x :: x in nodes && nodes[x].parent != null ==> nodes[x].parent in nodes
  }

  /** The search invariant without the closure of the expanded nodes: what
      holds when `BuildPath` stops, whichever way it stops. */
  ghost predicate Settled(e: Engine) {
    && Wired(e.nodes) && ListsValid(e) && Idle(e) && Ranked(e) && Tree(e)
    && e.committed == [] && e.next == null
    && Roles(e)
  }

  lemma SearchingSettled(e: Engine, pending: Node?)
    requires Searching(e, pending)
    ensures Settled(e) && Parented(e.nodes)
  {
  }

  // ----- ReconstructPath -----

  /** The body of the `ReconstructPath` loop on the parent `l` of the current
      node `cur`: its child becomes `cur`, and a closed node goes to the path
      state. */
  function Lift(l: Links, cur: Node): (r: Links)
    ensures r.child == cur && r.state == (if l.state == Closed then Path else l.state)
    ensures r.parent == l.parent && r.connected == l.connected && r.kind == l.kind && r.G == l.G
  {
    var linked := l.(child := cur);
    if linked.state == Closed then linked.(state := Path) else linked
  }

  /** `Lift` as the source performs it: the child link, then the path state
      for a closed node. */
  lemma LiftSplit(e: Engine, p: Node, cur: Node)
    requires p in e.nodes
    ensures var linked := e.(nodes := e.nodes[p := e.nodes[p].(child := cur)]);
      e.(nodes := e.nodes[p := Lift(e.nodes[p], cur)]) == Promoted(linked, p)
  {
  }

  /** The path state for the node `p` if it is closed. */
  ghost function Promoted(e: Engine, p: Node): (r: Engine)
    requires p in e.nodes
  {
    if e.nodes[p].state == Closed then e.(nodes := e.nodes[p := e.nodes[p].(state := Path)]) else e
  }

  /** `ReconstructPath` from the current node `cur` after `i` iterations,
      with `path` the nodes walked so far (`cur` first): while `cur` is not
      the start node, a node with a parent lifts that parent and moves up to
      it, and the loop gives up once the counter passes `bound`, the number
      of graph nodes. The node reached becomes `next`; the walked path is
      recorded as `committed`. */
  ghost function Retrace(e: Engine, cur: Node, i: nat, bound: nat, path: seq<Node>): (r: Engine)
    requires cur in e.nodes && Parented(e.nodes) && i <= bound
    ensures r.nodes.Keys == e.nodes.Keys
    ensures forall x :: x in e.nodes ==> r.nodes[x].kind == e.nodes[x].kind && r.nodes[x].connected == e.nodes[x].connected
    ensures forall x :: x in e.nodes ==> r.nodes[x].G == e.nodes[x].G
    decreases bound - i
  {
    if cur == e.start then e.(next := cur, committed := path)
    else
      var p := e.nodes[cur].parent;
      var e' := if p != null then e.(nodes := e.nodes[p := Lift(e.nodes[p], cur)]) else e;
      var cur' := if p != null then p else cur;
      var path' := if p != null then [p] + path else path;
      if i + 1 > bound then e'.(next := cur', committed := path')
      else Retrace(e', cur', i + 1, bound, path')
  }

  /** Linking a parent down to its child keeps every parent a graph node. */
  lemma LiftParented(nodes: map<Node, Links>, p: Node, cur: Node)
    requires Parented(nodes) && p in nodes
    ensures Parented(nodes[p := Lift(nodes[p], cur)])
  {
    var after := nodes[p := Lift(nodes[p], cur)];
    forall x | x in after && after[x].parent != null
      ensures after[x].parent in after
    {
      assert after[x].parent == nodes[x].parent;
    }
  }

  /** The graph has at most `bound` nodes. */
  ghost predicate Fits(e: Engine, bound: nat) {
    |e.nodes.Keys| <= bound
  }

  /** What `ReconstructPath` leaves: the engine invariant holds, the lists
      and end points are those of the search, and the committed path runs
      from the start node to the destination — unless the destination was
      never reached, which happens only when a node in the destination state
      left over from an earlier search stopped the loop: then the
      destination alone is committed. */
  ghost predicate Committed(e0: Engine, r: Engine) {
    && Consistent(r)
    && r.nodes.Keys == e0.nodes.Keys
    && r.open == e0.open && r.closed == e0.closed && r.start == e0.start && r.dest == e0.dest
    && r.committed != [] && r.next == r.committed[0]
    && (|r.committed| > 1 ==> r.committed[0] == e0.start)
    && (r.committed[0] != e0.start ==>
          r.committed == [e0.dest] && e0.dest !in e0.open && e0.dest !in e0.closed)
  }

  /** The invariant of the `ReconstructPath` loop, in three parts. */
  ghost predicate Tracing(e0: Engine, e: Engine, cur: Node, i: nat, path: seq<Node>) {
    Touched(e0, e) && Chain(e0, cur, i, path) && Lifted(e, path) && (|path| == 1 ==> e == e0)
  }

  /** The loop changes only the child and the state of closed nodes, and a
      closed node stays in the closed, path or (the start node only) start
      state. */
  ghost predicate Touched(e0: Engine, e: Engine) {
    && e.nodes.Keys == e0.nodes.Keys
    && e.open == e0.open && e.closed == e0.closed && e.start == e0.start && e.dest == e0.dest
    && e.depth == e0.depth && e.next == null && e.committed == []
    && forall x :: x in e0.nodes ==>
         && e.nodes[x].parent == e0.nodes[x].parent && e.nodes[x].connected == e0.nodes[x].connected
         && e.nodes[x].kind == e0.nodes[x].kind && e.nodes[x].G == e0.nodes[x].G
         && (x !in e0.closed ==> e.nodes[x] == e0.nodes[x])
         && (x in e0.closed ==>
               e.nodes[x].state == Closed || e.nodes[x].state == Path || (e.nodes[x].state == Start && x == e0.start))
  }

  /** `path` is the parent chain walked from the destination up to `cur`: its
      nodes other than the destination are closed, and each iteration has
      moved up one node, unless the destination has no parent. */
  ghost predicate Chain(e0: Engine, cur: Node, i: nat, path: seq<Node>) {
    && |path| > 0 && path[0] == cur && path[|path| - 1] == e0.dest
    && (forall k :: 0 <= k < |path| ==> path[k] in e0.nodes)
    && (forall k :: 0 <= k < |path| - 1 ==> path[k] in e0.closed && e0.nodes[path[k + 1]].parent == path[k])
    && (|path| == i + 1 || (path == [e0.dest] && e0.nodes[e0.dest].parent == null))
  }

  /** Each node of the walked path links down to the next one, and is in the
      start or the path state. */
  ghost predicate Lifted(e: Engine, path: seq<Node>) {
    forall k :: 0 <= k < |path| - 1 ==>
      path[k] in e.nodes && e.nodes[path[k]].child == path[k + 1]
      && (e.nodes[path[k]].state == Start || e.nodes[path[k]].state == Path)
  }

  /** Where the `ReconstructPath` loop ends: at the start node, or at a
      destination that no search reached, with the loop invariant holding
      of the engine and the walked path. */
  ghost predicate TraceEnd(e0: Engine, r: Engine) {
    && r.committed != [] && r.next == r.committed[0]
    && Tracing(e0, r.(next := null, committed := []), r.committed[0], |r.committed| - 1, r.committed)
    && (r.committed[0] == e0.start || (r.committed == [e0.dest] && e0.dest !in e0.open && e0.dest !in e0.closed))
  }

  /** `ReconstructPath` on a settled search commits a walkable path from the
      start node to the destination, or, when only a stale destination mark
      stopped the search, the destination alone. */
  lemma RetraceCommits(e: Engine, bound: nat)
    requires Settled(e) && Fits(e, bound)
    ensures Parented(e.nodes) && e.dest != null && e.dest in e.nodes
    ensures Committed(e, Retrace(e, e.dest, 0, bound, [e.dest]))
  {
    assert Touched(e, e);
    assert Tracing(e, e, e.dest, 0, [e.dest]);
    var r := Retrace(e, e.dest, 0, bound, [e.dest]);
    TraceFrom(e, e, e.dest, 0, bound, [e.dest], r);
    var walked := r.(next := null, committed := []);
    assert r == walked.(next := r.committed[0], committed := r.committed);
    if r.committed[0] == e.start {
      TraceDone(e, walked, r.committed[0], |r.committed| - 1, r.committed);
    } else {
      CommitAlone(e);
    }
  }

  /** The induction over the loop: `r` is what the rest of the loop makes of
      the current engine `e`. */
  lemma {:induction false} TraceFrom(e0: Engine, e: Engine, cur: Node, i: nat, bound: nat, path: seq<Node>, r: Engine)
    requires Idle(e0) && Ranked(e0) && Tree(e0) && Fits(e0, bound) && i <= bound
    requires Tracing(e0, e, cur, i, path)
    requires cur in e.nodes && Parented(e.nodes) && r == Retrace(e, cur, i, bound, path)
    ensures TraceEnd(e0, r)
    decreases bound - i, 1
  {
    if cur == e.start {
      assert r == e.(next := cur, committed := path);
    } else if e.nodes[cur].parent != null {
      TraceUp(e0, e, cur, i, bound, path, r);
    } else {
      TraceStuck(e0, e, cur, i, path);
      if i + 1 <= bound {
        RetraceWaits(e, cur, i, bound, path);
        TraceFrom(e0, e, cur, i + 1, bound, path, r);
      } else {
        RetraceStops(e, cur, i, bound, path);
      }
    }
  }

  /** An iteration that moves up to the parent of `cur`; it cannot be the
      one that passes the bound, since the chain is no longer than the
      graph. */
  lemma {:induction false} TraceUp(e0: Engine, e: Engine, cur: Node, i: nat, bound: nat, path: seq<Node>, r: Engine)
    requires Idle(e0) && Ranked(e0) && Tree(e0) && Fits(e0, bound) && i <= bound
    requires Tracing(e0, e, cur, i, path)
    requires cur in e.nodes && Parented(e.nodes) && r == Retrace(e, cur, i, bound, path)
    requires cur != e.start && e.nodes[cur].parent != null
    ensures TraceEnd(e0, r)
    decreases bound - i, 0
  {
    var p := e.nodes[cur].parent;
    TraceMove(e0, e, cur, i, path, p);
    if i + 1 > bound {
      TraceTooLong(e0, [p] + path);
      assert false;
    }
    var e' := e.(nodes := e.nodes[p := Lift(e.nodes[p], cur)]);
    RetraceMoves(e, cur, i, bound, path);
    TraceFrom(e0, e', p, i + 1, bound, [p] + path, r);
  }

  /** Unfolding `Retrace` once where the current node has a parent. */
  lemma RetraceMoves(e: Engine, cur: Node, i: nat, bound: nat, path: seq<Node>)
    requires cur in e.nodes && Parented(e.nodes) && i < bound
    requires cur != e.start && e.nodes[cur].parent != null
    ensures var p := e.nodes[cur].parent;
      var e' := e.(nodes := e.nodes[p := Lift(e.nodes[p], cur)]);
      && Parented(e'.nodes) && p in e'.nodes
      && Retrace(e, cur, i, bound, path) == Retrace(e', p, i + 1, bound, [p] + path)
  {
  }

  /** Unfolding `Retrace` once where the current node has no parent. */
  lemma RetraceWaits(e: Engine, cur: Node, i: nat, bound: nat, path: seq<Node>)
    requires cur in e.nodes && Parented(e.nodes) && i < bound
    requires cur != e.start && e.nodes[cur].parent == null
    ensures Retrace(e, cur, i, bound, path) == Retrace(e, cur, i + 1, bound, path)
  {
  }

  /** Ranks strictly decrease up a parent chain. */
  lemma {:induction false} Ascending(e0: Engine, path: seq<Node>)
    requires Ranked(e0) && forall k :: 0 <= k < |path| ==> path[k] in e0.nodes
    requires forall k :: 0 <= k < |path| - 1 ==> e0.nodes[path[k + 1]].parent == path[k]
    ensures forall a, b :: 0 <= a < b < |path| ==>
      path[a] in e0.depth && path[b] in e0.depth && e0.depth[path[a]] < e0.depth[path[b]]
  {
    if |path| >= 2 {
      var rest := path[1..];
      assert forall k :: 0 <= k < |rest| ==> rest[k] == path[k + 1];
      Ascending(e0, rest);
      assert e0.nodes[path[1]].parent == path[0];
      forall a, b | 0 <= a < b < |path|
        ensures path[a] in e0.depth && path[b] in e0.depth && e0.depth[path[a]] < e0.depth[path[b]]
      {
        if a > 0 {
          assert path[a] == rest[a - 1] && path[b] == rest[b - 1];
        } else if b > 1 {
          assert path[1] == rest[0] && path[b] == rest[b - 1];
        }
      }
    }
  }

  /** The walked chain has no repeats, so it is no longer than the graph. */
  lemma TraceTooLong(e0: Engine, path: seq<Node>)
    requires Ranked(e0) && forall k :: 0 <= k < |path| ==> path[k] in e0.nodes
    requires forall k :: 0 <= k < |path| - 1 ==> e0.nodes[path[k + 1]].parent == path[k]
    ensures |path| <= |e0.nodes.Keys|
  {
    Ascending(e0, path);
    DistinctWithin(path, e0.nodes.Keys);
  }

  /** One iteration that moves up: the parent `p` of `cur` is a closed node
      ranked below every node of the path, so it is not on it yet. */
  lemma TraceMove(e0: Engine, e: Engine, cur: Node, i: nat, path: seq<Node>, p: Node)
    requires Idle(e0) && Ranked(e0) && Tree(e0) && Tracing(e0, e, cur, i, path)
    requires cur != e.start && cur in e.nodes && p in e.nodes && e.nodes[cur].parent == p
    ensures Tracing(e0, e.(nodes := e.nodes[p := Lift(e.nodes[p], cur)]), p, i + 1, [p] + path)
  {
    assert e0.nodes[cur].parent == p;
    ParentClosed(e0, cur, p);
    TraceMoveChain(e0, cur, i, path, p);
    TraceMoveTouched(e0, e, cur, p);
    TraceMoveLifted(e0, e, cur, i, path, p);
  }

  lemma TraceMoveTouched(e0: Engine, e: Engine, cur: Node, p: Node)
    requires Touched(e0, e) && p in e0.nodes && p in e0.closed
    ensures Touched(e0, e.(nodes := e.nodes[p := Lift(e.nodes[p], cur)]))
  {
  }

  /** The parent of a node is a closed graph node. */
  lemma ParentClosed(e0: Engine, cur: Node, p: Node)
    requires Idle(e0) && Tree(e0) && cur in e0.nodes && e0.nodes[cur].parent == p
    ensures p in e0.nodes && p in e0.closed
  {
    assert cur in e0.open || cur in e0.closed;
  }

  lemma TraceMoveChain(e0: Engine, cur: Node, i: nat, path: seq<Node>, p: Node)
    requires Ranked(e0) && Chain(e0, cur, i, path)
    requires cur in e0.nodes && e0.nodes[cur].parent == p && p in e0.nodes && p in e0.closed
    ensures Chain(e0, p, i + 1, [p] + path) && p !in path
  {
    var path' := [p] + path;
    forall k | 0 <= k < |path'|
      ensures path'[k] in e0.nodes
    {
      if k > 0 { assert path'[k] == path[k - 1]; }
    }
    forall k | 0 <= k < |path'| - 1
      ensures path'[k] in e0.closed && e0.nodes[path'[k + 1]].parent == path'[k]
    {
      if k > 0 { assert path'[k] == path[k - 1] && path'[k + 1] == path[k]; }
    }
    Ascending(e0, path');
    forall k | 0 <= k < |path|
      ensures path[k] != p
    {
      assert path[k] == path'[k + 1] && p == path'[0];
      assert e0.depth[path'[0]] < e0.depth[path'[k + 1]];
    }
  }

  lemma TraceMoveLifted(e0: Engine, e: Engine, cur: Node, i: nat, path: seq<Node>, p: Node)
    requires Touched(e0, e) && Lifted(e, path) && |path| > 0 && path[0] == cur
    requires p in e0.nodes && p in e0.closed && p !in path
    ensures Lifted(e.(nodes := e.nodes[p := Lift(e.nodes[p], cur)]), [p] + path)
  {
    var path' := [p] + path;
    assert forall k :: 0 < k < |path'| ==> path'[k] == path[k - 1];
  }

  /** One iteration that cannot move: only an unlisted destination has no
      parent while not being the start node, and the loop has not touched
      anything yet. */
  lemma TraceStuck(e0: Engine, e: Engine, cur: Node, i: nat, path: seq<Node>)
    requires Idle(e0) && Tree(e0) && Tracing(e0, e, cur, i, path)
    requires cur != e.start && cur in e.nodes && e.nodes[cur].parent == null
    ensures path == [e0.dest] && cur == e0.dest && e0.dest !in e0.open && e0.dest !in e0.closed
    ensures Tracing(e0, e, cur, i + 1, path)
    ensures e == e0
  {
    assert |path| == 1;
  }

  /** The loop gives up at the destination: the destination alone is
      committed. */
  lemma CommitAlone(e0: Engine)
    requires Settled(e0) && e0.dest != null && e0.dest !in e0.open && e0.dest !in e0.closed
    ensures Committed(e0, e0.(next := e0.dest, committed := [e0.dest]))
  {
    Relabel(e0, e0.(next := e0.dest, committed := [e0.dest]));
  }

  /** Unfolding `Retrace` at the bound where the current node has no parent. */
  lemma RetraceStops(e: Engine, cur: Node, i: nat, bound: nat, path: seq<Node>)
    requires cur in e.nodes && Parented(e.nodes) && i == bound
    requires cur != e.start && e.nodes[cur].parent == null
    ensures Retrace(e, cur, i, bound, path) == e.(next := cur, committed := path)
  {
  }

  /** The loop reaches the start node: the path is committed. */
  lemma TraceDone(e0: Engine, e: Engine, cur: Node, i: nat, path: seq<Node>)
    requires Settled(e0) && Tracing(e0, e, cur, i, path) && cur == e.start
    ensures Committed(e0, e.(next := cur, committed := path))
  {
    var r := e.(next := cur, committed := path);
    TraceKeeps(e0, r);
    TraceValid(e0, e, cur, i, path);
  }

  /** The loop keeps the engine invariant apart from the committed path. */
  lemma TraceKeeps(e0: Engine, r: Engine)
    requires Wired(e0.nodes) && ListsValid(e0) && Idle(e0) && Ranked(e0) && Tree(e0)
    requires Touched(e0, r.(next := null, committed := []))
    ensures Wired(r.nodes) && ListsValid(r) && Idle(r) && Ranked(r) && Tree(r)
  {
    TraceWired(e0, r);
    Relabel(e0, r);
  }

  lemma TraceWired(e0: Engine, r: Engine)
    requires Wired(e0.nodes) && ListsValid(e0)
    requires Touched(e0, r.(next := null, committed := []))
    ensures Wired(r.nodes) && ListsValid(r)
  {
    forall n, m | n in r.nodes && m in r.nodes[n].connected
      ensures m in r.nodes
    {
      assert r.nodes[n].connected == e0.nodes[n].connected;
    }
  }

  /** The path walked from the destination to the start node is a valid
      committed path. */
  lemma TraceValid(e0: Engine, e: Engine, cur: Node, i: nat, path: seq<Node>)
    requires Idle(e0) && Tree(e0) && Roles(e0) && Tracing(e0, e, cur, i, path) && cur == e.start
    ensures CommittedValid(e.(next := cur, committed := path))
  {
    TraceRoute(e0, e, cur, i, path);
    TraceLinked(e0, e, cur, i, path);
  }

  lemma TraceRoute(e0: Engine, e: Engine, cur: Node, i: nat, path: seq<Node>)
    requires Idle(e0) && Tree(e0) && Roles(e0) && Touched(e0, e) && Chain(e0, cur, i, path)
    ensures Route(e.nodes, path)
  {
    forall k | 0 < k < |path|
      ensures path[k] in e.nodes[path[k - 1]].connected && e.nodes[path[k]].kind != Obstructed
    {
      assert e0.nodes[path[k]].parent == path[k - 1];
    }
  }

  lemma TraceLinked(e0: Engine, e: Engine, cur: Node, i: nat, path: seq<Node>)
    requires Idle(e0) && Tree(e0) && Roles(e0) && Tracing(e0, e, cur, i, path) && cur == e.start
    ensures forall k :: 0 < k < |path| ==> Linked(e, path[k - 1], path[k])
  {
  }

  // ----- NodeInPath -----

  /** The nodes `NodeInPath` compares with its argument when it starts from
      `x`: up the parent chain, stopping before the first node in the start
      state, and after the first node without a parent. */
  ghost function Walked(e: Engine, x: Node): (w: seq<Node>)
    requires Ranked(e) && x in e.nodes
    ensures forall k :: 0 <= k < |w| ==> w[k] in e.nodes && e.nodes[w[k]].state != Start
    ensures e.nodes[x].state != Start ==> |w| > 0 && w[0] == x
    decreases if x in e.depth then e.depth[x] else 0
  {
    if e.nodes[x].state == Start then []
    else if e.nodes[x].parent == null then [x]
    else [x] + Walked(e, e.nodes[x].parent)
  }

  /** What `NodeInPath(n)` returns: a path is committed and `n` is met on the
      walk up from the destination. The source compares `index`es, which
      are unique to nodes. */
  ghost predicate InPath(e: Engine, n: Node)
    requires Ranked(e)
  {
    e.next != null && e.dest != null && e.dest in e.nodes && n in Walked(e, e.dest)
  }

  /** Under the engine invariant the walk up from the destination visits
      exactly the committed path, except its first node when that is in the
      start state: `NodeInPath` holds of every committed node but the start. */
  lemma InPathCommitted(e: Engine, n: Node)
    requires Consistent(e)
    ensures InPath(e, n) <==>
      e.committed != [] && (n in e.committed[1..] || (n == e.committed[0] && e.nodes[n].state != Start))
  {
    if e.committed != [] {
      assert Threaded(e);
      WalkedPrefix(e, |e.committed| - 1);
      assert e.committed[1..|e.committed|] == e.committed[1..];
    }
  }

  /** The committed path as a chain of linked nodes. */
  ghost predicate Threaded(e: Engine) {
    && e.committed != []
    && (forall j :: 0 <= j < |e.committed| ==> e.committed[j] in e.nodes)
    && e.nodes[e.committed[0]].parent == null
    && forall j :: 0 < j < |e.committed| ==> Linked(e, e.committed[j - 1], e.committed[j])
  }

  /** The walk from the `k`-th committed node visits the committed nodes up
      to it, the first one only when it is not in the start state. */
  lemma {:induction false} WalkedPrefix(e: Engine, k: nat)
    requires Ranked(e) && Threaded(e) && k < |e.committed|
    ensures forall x :: x in Walked(e, e.committed[k]) <==>
      x in e.committed[1..k + 1] || (x == e.committed[0] && e.nodes[x].state != Start)
  {
    var c := e.committed;
    if k > 0 {
      WalkedPrefix(e, k - 1);
      assert Linked(e, c[k - 1], c[k]);
      assert Walked(e, c[k]) == [c[k]] + Walked(e, c[k - 1]);
      assert c[1..k + 1] == c[1..k] + [c[k]];
    }
  }

  // ----- DepthData -----

  /** The `type` setter on the node `n` of an engine. */
  ghost function Retyped(e: Engine, n: Node, k: NodeType): (r: Engine)
    requires n in e.nodes
    ensures r.nodes.Keys == e.nodes.Keys && r.nodes[n].kind == k
    ensures forall x :: x in e.nodes && x != n ==> r.nodes[x] == e.nodes[x]
    ensures r.nodes[n] == e.nodes[n].(kind := k)
  {
    e.(nodes := e.nodes[n := e.nodes[n].(kind := k)])
  }

  /** The walk of `NodeInPath` does not look at types. */
  lemma {:induction false} WalkedRetyped(e: Engine, n: Node, k: NodeType, x: Node)
    requires Ranked(e) && n in e.nodes && x in e.nodes
    ensures Ranked(Retyped(e, n, k)) && Walked(Retyped(e, n, k), x) == Walked(e, x)
    decreases if x in e.depth then e.depth[x] else 0
  {
    var r := Retyped(e, n, k);
    assert Ranked(r) by {
      assert forall y :: y in e.nodes ==> r.nodes[y].parent == e.nodes[y].parent;
    }
    if e.nodes[x].state != Start && e.nodes[x].parent != null {
      WalkedRetyped(e, n, k, e.nodes[x].parent);
    }
  }

  /** Retyping a node keeps the engine invariant unless it obstructs a node
      that `NodeInPath` finds on the committed path; and it does not change
      what `NodeInPath` finds. */
  lemma RetypeKeeps(e: Engine, n: Node, k: NodeType)
    requires Consistent(e) && n in e.nodes
    ensures Ranked(Retyped(e, n, k))
    ensures forall x :: InPath(Retyped(e, n, k), x) <==> InPath(e, x)
    ensures k != Obstructed || !InPath(e, n) ==> Consistent(Retyped(e, n, k))
  {
    RetypeWalk(e, n, k);
    if k != Obstructed || !InPath(e, n) {
      RetypeLinks(e, n, k);
      InPathCommitted(e, n);
      RetypeCommitted(e, n, k);
    }
  }

  lemma RetypeWalk(e: Engine, n: Node, k: NodeType)
    requires Ranked(e) && n in e.nodes
    ensures Ranked(Retyped(e, n, k))
    ensures forall x :: InPath(Retyped(e, n, k), x) <==> InPath(e, x)
  {
    if e.dest != null && e.dest in e.nodes {
      WalkedRetyped(e, n, k, e.dest);
    } else {
      WalkedRetyped(e, n, k, n);
    }
  }

  lemma RetypeLinks(e: Engine, n: Node, k: NodeType)
    requires Wired(e.nodes) && ListsValid(e) && Idle(e) && Ranked(e) && Tree(e) && n in e.nodes
    ensures var r := Retyped(e, n, k);
      Wired(r.nodes) && ListsValid(r) && Idle(r) && Ranked(r) && Tree(r)
  {
    var r := Retyped(e, n, k);
    Relabel(e, r);
    assert Wired(r.nodes) by {
      assert forall y :: y in e.nodes ==> r.nodes[y].connected == e.nodes[y].connected;
    }
  }

  /** The committed path survives a retype that does not obstruct one of its
      nodes after the first. */
  lemma RetypeCommitted(e: Engine, n: Node, k: NodeType)
    requires CommittedValid(e) && n in e.nodes
    requires k == Obstructed && e.committed != [] ==> n !in e.committed[1..]
    ensures CommittedValid(Retyped(e, n, k))
  {
    var r := Retyped(e, n, k);
    if e.committed != [] {
      var c := e.committed;
      forall j | 0 < j < |c|
        ensures r.nodes[c[j]].kind != Obstructed && Linked(r, c[j - 1], c[j])
      {
        assert c[j] in c[1..];
        assert Linked(e, c[j - 1], c[j]);
      }
    }
  }

  /** One turn of the marking loop of `DepthData` on the node `n`: unless it
      is obstructed, it becomes walkable. */
  ghost function MarkWalkable(e: Engine, n: Node): (r: Engine)
    requires n in e.nodes
    ensures r.nodes.Keys == e.nodes.Keys && r == e.(nodes := r.nodes)
  {
    if e.nodes[n].kind != Obstructed then Retyped(e, n, Walkable) else e
  }

  /** The marking loop of `DepthData` over the nodes `ns` it meets, in turn. */
  ghost function Clearing(e: Engine, ns: seq<Node>): (r: Engine)
    requires forall n :: n in ns ==> n in e.nodes
    ensures r.nodes.Keys == e.nodes.Keys && r == e.(nodes := r.nodes)
    decreases |ns|
  {
    if ns == [] then e else MarkWalkable(Clearing(e, ns[..|ns| - 1]), ns[|ns| - 1])
  }

  /** The marking loop one turn further. */
  lemma ClearingMore(e: Engine, ns: seq<Node>, n: Node)
    requires (forall x :: x in ns ==> x in e.nodes) && n in e.nodes
    ensures Clearing(e, ns + [n]) == MarkWalkable(Clearing(e, ns), n)
  {
    assert (ns + [n])[..|ns|] == ns;
  }

  /** What the marking loop leaves, node by node: a node it met becomes
      walkable unless it was obstructed; every other node is as it was. */
  lemma {:induction false} ClearingKinds(e: Engine, ns: seq<Node>)
    requires forall n :: n in ns ==> n in e.nodes
    ensures forall x :: x in e.nodes ==>
      Clearing(e, ns).nodes[x] ==
        if x in ns && e.nodes[x].kind != Obstructed then e.nodes[x].(kind := Walkable) else e.nodes[x]
  {
    if ns != [] {
      var init := ns[..|ns| - 1];
      ClearingKinds(e, init);
      assert forall x :: x in ns <==> x in init || x == ns[|ns| - 1];
    }
  }

  /** Reporting the same clear segment twice changes nothing the second
      time. */
  lemma ClearingTwice(e: Engine, ns: seq<Node>)
    requires forall n :: n in ns ==> n in e.nodes
    ensures Clearing(Clearing(e, ns), ns) == Clearing(e, ns)
  {
    var r := Clearing(e, ns);
    ClearingKinds(e, ns);
    ClearingKinds(r, ns);
    assert Clearing(r, ns).nodes == r.nodes;
  }

  /** The marking loop keeps the engine invariant and what `NodeInPath`
      finds: it makes no node obstructed. */
  lemma {:induction false} ClearingKeeps(e: Engine, ns: seq<Node>)
    requires Consistent(e) && forall n :: n in ns ==> n in e.nodes
    ensures Consistent(Clearing(e, ns))
    ensures forall x :: InPath(Clearing(e, ns), x) <==> InPath(e, x)
    decreases |ns|
  {
    if ns != [] {
      var init := ns[..|ns| - 1];
      ClearingKeeps(e, init);
      var p := Clearing(e, init);
      if p.nodes[ns[|ns| - 1]].kind != Obstructed {
        RetypeKeeps(p, ns[|ns| - 1], Walkable);
      }
    }
  }

  /** What a new search and `NodeInPath` need of an engine: the engine
      invariant, but for the committed path, which an obstruction may have
      broken. */
  ghost predicate Restartable(e: Engine) {
    Wired(e.nodes) && ListsValid(e) && Idle(e) && Ranked(e) && Tree(e)
  }

  /** The marking loop keeps an engine restartable. */
  lemma {:induction false} ClearingLinks(e: Engine, ns: seq<Node>)
    requires Restartable(e) && forall n :: n in ns ==> n in e.nodes
    ensures Restartable(Clearing(e, ns))
    decreases |ns|
  {
    if ns != [] {
      ClearingLinks(e, ns[..|ns| - 1]);
      MarkLinks(Clearing(e, ns[..|ns| - 1]), ns[|ns| - 1]);
    }
  }

  lemma MarkLinks(e: Engine, n: Node)
    requires Restartable(e) && n in e.nodes
    ensures Restartable(MarkWalkable(e, n))
  {
    if e.nodes[n].kind != Obstructed {
      RetypeLinks(e, n, Walkable);
    }
  }

  /** What `DepthData` does to the engine before any new search: the marking
      loop over `ns`, then, when an obstruction is reported at the node
      `hit`, that node becomes obstructed. The result can start a new
      search. */
  ghost function Reported(e: Engine, ns: seq<Node>, hit: Node?): (r: Engine)
    requires Restartable(e) && forall n :: n in ns ==> n in e.nodes
    requires hit != null ==> hit in e.nodes
    ensures r.nodes.Keys == e.nodes.Keys && r == e.(nodes := r.nodes) && Restartable(r)
  {
    ClearingLinks(e, ns);
    var c := Clearing(e, ns);
    if hit == null then c
    else
      RetypeLinks(c, hit, Obstructed);
      Retyped(c, hit, Obstructed)
  }

  /** A report never frees an obstructed node, obstructs the node it hits,
      makes the other nodes it met walkable and leaves the rest. */
  lemma ReportedKinds(e: Engine, ns: seq<Node>, hit: Node?)
    requires Restartable(e) && forall n :: n in ns ==> n in e.nodes
    requires hit != null ==> hit in e.nodes
    ensures forall x :: x in e.nodes ==>
      Reported(e, ns, hit).nodes[x] ==
        if x == hit then e.nodes[x].(kind := Obstructed)
        else if x in ns && e.nodes[x].kind != Obstructed then e.nodes[x].(kind := Walkable)
        else e.nodes[x]
  {
    ClearingKinds(e, ns);
  }

  /** After a report the lists, links and ranks are still a valid start for
      a new search, what `NodeInPath` finds does not change, and the engine
      invariant survives unless the hit node is one `NodeInPath` finds. */
  lemma ReportedKeeps(e: Engine, ns: seq<Node>, hit: Node?)
    requires Consistent(e) && forall n :: n in ns ==> n in e.nodes
    requires hit != null ==> hit in e.nodes
    ensures var r := Reported(e, ns, hit);
      && (r.next != null ==> r.dest != null && r.dest in r.nodes)
      && (forall x :: InPath(r, x) <==> InPath(e, x))
      && (hit == null || !InPath(e, hit) ==> Consistent(r))
  {
    ClearingKeeps(e, ns);
    var c := Clearing(e, ns);
    if hit != null {
      RetypeKeeps(c, hit, Obstructed);
    }
  }

  /** A report changes nothing on an engine where the node it hits is
      already obstructed and every node it meets is walkable or obstructed. */
  lemma ReportedSettled(e: Engine, ns: seq<Node>, hit: Node?)
    requires Restartable(e)
    requires forall n :: n in ns ==> n in e.nodes && (e.nodes[n].kind == Walkable || e.nodes[n].kind == Obstructed)
    requires hit != null ==> hit in e.nodes && e.nodes[hit].kind == Obstructed
    ensures Reported(e, ns, hit) == e
  {
    var r := Reported(e, ns, hit);
    ReportedKinds(e, ns, hit);
    forall x | x in e.nodes
      ensures r.nodes[x] == e.nodes[x]
    {
    }
    assert r.nodes == e.nodes;
  }

  /** Repeating a report changes nothing. */
  lemma ReportedTwice(e: Engine, ns: seq<Node>, hit: Node?)
    requires Restartable(e) && forall n :: n in ns ==> n in e.nodes
    requires hit != null ==> hit in e.nodes
    ensures Reported(Reported(e, ns, hit), ns, hit) == Reported(e, ns, hit)
  {
    var r := Reported(e, ns, hit);
    ReportedKinds(e, ns, hit);
    forall n | n in ns
      ensures r.nodes[n].kind == Walkable || r.nodes[n].kind == Obstructed
    {
      assert n in e.nodes;
    }
    ReportedSettled(r, ns, hit);
  }

  /** The counter of the sampling loop of `DepthData` after `k` steps of
      `spacing`. */
  ghost function Along(k: nat, spacing: real): (d: real)
    ensures spacing >= 0.0 ==> d >= 0.0
  {
    if k == 0 then 0.0 else Along(k - 1, spacing) + spacing
  }

  /** The counter grows with the steps taken when the step is positive. */
  lemma {:induction false} AlongGrows(j: nat, k: nat, spacing: real)
    requires spacing > 0.0 && j <= k
    ensures Along(j, spacing) + (k - j) as real * spacing == Along(k, spacing)
    decreases k
  {
    if j < k {
      AlongGrows(j, k - 1, spacing);
    }
  }

  /** The sampling loop of `DepthData` ends when its step is positive: some
      whole number of steps reaches `length`. */
  lemma SampleBound(length: real, spacing: real) returns (steps: nat)
    requires spacing > 0.0
    ensures length <= Along(steps, spacing)
  {
    if length <= 0.0 {
      steps := 0;
      assert Along(0, spacing) == 0.0;
    } else {
      var q := length / spacing;
      steps := q.Floor + 1;
      Scaled(length, spacing, steps as real);
      AlongGrows(0, steps, spacing);
      assert Along(0, spacing) == 0.0;
    }
  }

  /** `length` is at most `n` steps of `spacing` when its quotient is. */
  lemma Scaled(length: real, spacing: real, n: real)
    requires spacing > 0.0 && length / spacing <= n
    ensures length <= n * spacing
  {
    var q := length / spacing;
    assert q * spacing == length;
    Monotone(q, n, spacing);
  }

  lemma Monotone(a: real, b: real, s: real)
    requires a <= b && s >= 0.0
    ensures a * s <= b * s
  {
    assert (b - a) * s >= 0.0;
  }

  /** Below the bound the loop has steps left. */
  lemma Fewer(k: nat, steps: nat, spacing: real)
    requires spacing > 0.0 && Along(k, spacing) < Along(steps, spacing)
    ensures k < steps
  {
    if k >= steps {
      AlongGrows(steps, k, spacing);
    }
  }

  /** With a step of 0 (a search space of no extent along x and z), the
      counter of the sampling loop never moves: below a positive length the
      loop runs forever. */
  lemma {:induction false} ZeroStepNeverEnds(length: real, k: nat)
    requires length > 0.0
    ensures Along(k, 0.0) < length
  {
    if k > 0 {
      ZeroStepNeverEnds(length, k - 1);
    }
  }

  // ----- MoveDirection -----

  /** The step of `MoveDirection` on the engine: once the bot is `near` the
      next node, and that node is not the destination, the next node becomes
      its child. */
  ghost function Advance(e: Engine, near: bool): Engine
    requires e.next == null || e.next in e.nodes
  {
    if e.next != null && e.nodes[e.next].state != Destination && near
    then e.(next := e.nodes[e.next].child)
    else e
  }

  /** The committed path has no repeats: ranks strictly increase along it. */
  lemma CommittedDistinct(e: Engine)
    requires Consistent(e)
    ensures Distinct(e.committed)
  {
    var c := e.committed;
    if c != [] {
      forall k | 0 <= k < |c| - 1
        ensures e.nodes[c[k + 1]].parent == c[k]
      {
        assert Linked(e, c[k], c[k + 1]);
      }
      Ascending(e, c);
    }
  }

  /** `MoveDirection` keeps the engine invariant and walks the committed path
      one node at a time: from the `k`-th node it moves, when near, to the
      next one, and it never moves past the destination. */
  lemma AdvanceKeeps(e: Engine, near: bool)
    requires Consistent(e)
    ensures e.next == null || e.next in e.nodes
    ensures Consistent(Advance(e, near))
    ensures e.next == e.dest ==> Advance(e, near) == e
    ensures forall k :: 0 <= k < |e.committed| - 1 && e.next == e.committed[k] ==>
      Advance(e, near).next == if near then e.committed[k + 1] else e.committed[k]
  {
    AdvanceStep(e, near);
    var r := Advance(e, near);
    if r != e {
      Renext(e, r.next);
    }
  }

  lemma AdvanceStep(e: Engine, near: bool)
    requires CommittedValid(e)
    ensures e.next == null || e.next in e.nodes
    ensures Advance(e, near) == e || (Advance(e, near).next in e.committed && Advance(e, near) == e.(next := Advance(e, near).next))
    ensures e.next == e.dest ==> Advance(e, near) == e
    ensures forall k :: 0 <= k < |e.committed| - 1 && e.next == e.committed[k] ==>
      Advance(e, near).next == if near then e.committed[k + 1] else e.committed[k]
  {
    var c := e.committed;
    if e.next != null {
      forall k | 0 <= k < |c| - 1 && e.next == c[k]
        ensures e.nodes[c[k]].child == c[k + 1] && e.nodes[c[k]].state != Destination
      {
        assert Linked(e, c[k], c[k + 1]);
      }
      var r := Advance(e, near);
      if r != e {
        var k :| 0 <= k < |c| && c[k] == e.next;
        assert e.nodes[c[|c| - 1]].state == Destination;
        assert k < |c| - 1;
        assert r.next == c[k + 1];
      }
    }
  }

  /** Moving `next` along the committed path keeps the engine invariant. */
  lemma Renext(e: Engine, x: Node?)
    requires Consistent(e) && x in e.committed
    ensures Consistent(e.(next := x))
  {
    var r := e.(next := x);
    assert ListsValid(r) && Idle(r) && Ranked(r) && Tree(r);
    assert CommittedValid(r) by {
      forall k | 0 < k < |r.committed|
        ensures Linked(r, r.committed[k - 1], r.committed[k])
      {
        assert Linked(e, e.committed[k - 1], e.committed[k]);
      }
    }
  }

  // ----- A search that fails -----

  /** When the open list runs dry, every node a walkable route from the
      start node reaches is closed. */
  lemma {:induction false} RouteClosed(e: Engine, p: seq<Node>, k: nat)
    requires Searching(e, null) && e.open == [] && Route(e.nodes, p) && p[0] == e.start
    requires k < |p|
    ensures p[k] in e.closed
  {
    if k > 0 {
      RouteClosed(e, p, k - 1);
      assert p[k] in e.nodes[p[k - 1]].connected;
    }
  }

  /** A search that empties its open list proves that no walkable route
      leads from the start node to the destination: `BuildPath` reports
      failure only when there is no path. */
  lemma Unreachable(e: Engine, p: seq<Node>)
    requires Searching(e, null) && e.open == []
    requires Route(e.nodes, p) && p[0] == e.start
    ensures p[|p| - 1] != e.dest
  {
    RouteClosed(e, p, |p| - 1);
  }
}
