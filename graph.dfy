/** `Node` and `SquareGraph`: the per-cell search state with its
    side-effecting setters, and the N x N lattice that owns the nodes.

    The two-dimensional `Node[,] graph` is kept as a flat arena `nodes`: node
    (x, y) sits at `Index(size, Cell(x, y)) == x * size + y`, which is also
    the node's `index` (the order in which the constructor's nested loops
    create the nodes). */
module Graph {
  import opened Geometry
  import opened Grid
  import opened Sequences

  /** `Node.State`: the node's role in the current search. */
  datatype State = Regular | Start | Destination | Path | Open | Closed

  /** `Node.Type`: the obstruction classification, kept across searches. */
  datatype NodeType = Walkable | Obstructed | Unexplored

  class Node {
    const index: nat
    const position: Vec3
    /** `Vector3.Distance`, shared by every node of a graph. */
    const dist: Metric
    var connected: seq<Node>
    /** Set when the state, type, parent or child changes. */
    var hasChanged: bool
    var G: real
    var H: real
    var parent: Node?
    var child: Node?
    var destination: Node?
    var state: State
    var nodeType: NodeType

    /** What the setters keep true of G and H: G is 0 without a parent, and H
        is the Manhattan distance to the destination, 0 without one. The
        `parent` and `destination` setters keep it; the other setters do not
        touch the fields it reads. */
    ghost predicate Valid()
      reads this`parent, this`G, this`H, this`destination
    {
      && (parent == null ==> G == 0.0)
      && H == HeuristicTo(destination)
    }

    /** The state of a node that no search has touched. */
    ghost predicate Pristine()
      reads this`parent, this`child, this`destination, this`G, this`H, this`state, this`nodeType, this`hasChanged
    {
      && parent == null && child == null && destination == null
      && G == 0.0 && H == 0.0
      && state == Regular && nodeType == Unexplored && hasChanged
    }

    constructor (index: nat, location: Vec3, dist: Metric)
      ensures this.index == index && position == location && this.dist == dist
      ensures connected == [] && Valid() && Pristine()
    {
      this.index := index;
      position := location;
      this.dist := dist;
      connected := [];
      hasChanged := false;
      G, H := 0.0, 0.0;
      parent, child, destination := null, null, null;
      state, nodeType := Regular, Unexplored;
      new;
      SetState(Regular);
      SetType(Unexplored);
    }

    /** The A* F score. */
    function F(): real
      reads this`G, this`H
    {
      G + H
    }

    /** The G this node would get with `potentialParent` as its parent. */
    function TentativeG(potentialParent: Node): real
      reads potentialParent`G
    {
      GThrough(potentialParent, potentialParent.G)
    }

    /** The G of this node below a parent `via` whose G is `viaG`: the
        parent's G plus the step between them. */
    function GThrough(via: Node, viaG: real): (g: real)
      ensures NonNegative(dist) ==> g >= viaG
    {
      viaG + dist(position, via.position)
    }

    /** The H this node gets for the destination `d`: the Manhattan distance
        to it, and 0 without one. */
    function HeuristicTo(d: Node?): (h: real)
      ensures h >= 0.0 && (d == null ==> h == 0.0)
      ensures d != null ==> (h == 0.0 <==> position == d.position)
    {
      if d == null then 0.0 else Manhattan(position, d.position)
    }

    /** The `parent` setter: G follows the new parent (`TentativeG`), or
        drops to 0 when the parent is cleared. Clearing it also assigns the
        type to itself, which only recolours the node. */
    method SetParent(value: Node?)
      modifies this`parent, this`G, this`hasChanged
      ensures parent == value && hasChanged
      ensures value == null ==> G == 0.0
      ensures value != null ==> G == old(TentativeG(value))
      ensures old(Valid()) ==> Valid()
    {
      parent := value;
      hasChanged := true;
      if parent != null {
        G := parent.G;
        G := G + dist(position, parent.position);
      } else {
        G := 0.0;
      }
    }

    /** The `child` setter. */
    method SetChild(value: Node?)
      modifies this`child, this`hasChanged
      ensures child == value && hasChanged
    {
      child := value;
      hasChanged := true;
    }

    /** The `destination` setter: H becomes the Manhattan distance to the new
        destination, or 0 when it is cleared. It does not set `hasChanged`. */
    method SetDestination(value: Node?)
      modifies this`destination, this`H
      ensures destination == value
      ensures H == HeuristicTo(value)
      ensures old(Valid()) ==> Valid()
    {
      destination := value;
      if destination != null {
        H := Abs(position.x - destination.position.x);
        H := H + Abs(position.y - destination.position.y);
        H := H + Abs(position.z - destination.position.z);
      } else {
        H := 0.0;
      }
    }

    /** The `state` setter. Its colour bookkeeping is not modelled; for
        `Regular` it assigns the type to itself, which only recolours the
        node. */
    method SetState(value: State)
      modifies this`state, this`hasChanged
      ensures state == value && hasChanged
    {
      state := value;
      hasChanged := true;
    }

    /** The `type` setter (colour bookkeeping not modelled). */
    method SetType(value: NodeType)
      modifies this`nodeType, this`hasChanged
      ensures nodeType == value && hasChanged
    {
      nodeType := value;
      hasChanged := true;
    }
  }

  /** `Mathf.Max`. */
  function RealMax(a: real, b: real): (m: real)
    ensures m >= a && m >= b && (m == a || m == b)
  {
    if a >= b then a else b
  }

  /** `n` is a node of `among` at the least distance from `p`, and of the
      least index among those at that distance. */
  ghost predicate Closest(n: Node, p: Vec3, among: set<Node>, dist: Metric) {
    && n in among
    && forall m :: m in among ==>
         && dist(n.position, p) <= dist(m.position, p)
         && (m.index < n.index ==> dist(n.position, p) < dist(m.position, p))
  }

  /** The arena `arena` of a `size` by `size` graph holds exactly the nodes
      `repr`, each in the slot of its index. */
  ghost predicate Arranged(arena: seq<Node?>, size: nat, repr: set<Node>) {
    && 0 < size && |arena| == size * size
    && (forall i :: 0 <= i < |arena| ==> arena[i] != null && arena[i].index == i && arena[i] in repr)
    && (forall n :: n in repr ==> n.index < |arena| && arena[n.index] == n)
  }

  class SquareGraph {
    /** X = Y = the number of nodes per side. */
    const size: nat
    const spacing: real
    /** The world position of node (0, 0). */
    const corner: Vec3
    const dist: Metric
    /** `graph[x, y]` is `nodes[x * size + y]`. */
    const nodes: array<Node?>
    ghost var Repr: set<Node>

    /** The world position the constructor gives node (x, y). */
    function Position(x: int, y: int): Vec3 {
      Add(Vec3(x as real * spacing, 0.0, y as real * spacing), corner)
    }

    /** Every arena slot holds the node whose index is that slot. */
    ghost predicate Filled()
      reads this, nodes
    {
      && 0 < size
      && nodes.Length == size * size
      && forall i :: 0 <= i < nodes.Length ==> nodes[i] != null && nodes[i].index == i && nodes[i] in Repr
    }

    /** `graph[c.x, c.y]`. */
    function NodeAt(c: Cell): (r: Node)
      reads this, nodes
      requires Filled() && InGrid(size, c)
      ensures r in Repr && r.index == Index(size, c) && r.index < nodes.Length && nodes[r.index] == r
    {
      IndexInRange(size, c);
      nodes[Index(size, c)]
    }

    /** The graph invariant the search relies on: `Repr` is exactly the set of
        arena nodes, every node measures with the graph's metric, and
        `connected` never leaves the graph. */
    ghost predicate Valid()
      reads this, nodes, Repr`connected
    {
      && Filled()
      && NonNegative(dist)
      && (forall n :: n in Repr ==> n.index < nodes.Length && nodes[n.index] == n && n.dist == dist)
      && (forall n, m :: n in Repr && m in n.connected ==> m in Repr)
    }

    /** Every node of the graph sits in the arena slot of its index. */
    ghost predicate Indexed()
      reads this, nodes
    {
      Filled() && forall n :: n in Repr ==> n.index < nodes.Length && nodes[n.index] == n
    }

    /** `Indexed()` read off a copy of the arena's contents. */
    lemma IndexedArena()
      ensures Indexed() <==> Arranged(nodes[..], size, Repr)
    {
    }

    /** The nodes at `cells`, in order. */
    function NodesAt(cells: seq<Cell>): (r: seq<Node>)
      reads this, nodes
      requires Filled() && forall c :: c in cells ==> InGrid(size, c)
      ensures |r| == |cells| && forall k :: 0 <= k < |cells| ==> r[k] == NodeAt(cells[k])
      ensures forall m :: m in r ==> m in Repr
    {
      if cells == [] then [] else [NodeAt(cells[0])] + NodesAt(cells[1..])
    }

    /** The node at (x, y) lists exactly the nodes at `Neighbours(size, x, y)`,
        in that order. */
    ghost predicate ConnectedAsGrid(c: Cell)
      reads this, nodes, Repr`connected
      requires Filled() && InGrid(size, c)
    {
      NodeAt(c).connected == NodesAt(Neighbours(size, c.x, c.y))
    }

    /** The lattice as the constructor lays it out. */
    ghost predicate Shaped()
      reads this, nodes, Repr`connected
      requires Filled()
    {
      && (forall c :: InGrid(size, c) ==> NodeAt(c).position == Position(c.x, c.y))
      && (forall c :: InGrid(size, c) ==> ConnectedAsGrid(c))
    }

    /** Cell `d` comes before cell `c` in the x-major scan order. */
    predicate Before(d: Cell, c: Cell) {
      d.x < c.x || (d.x == c.x && d.y < c.y)
    }

    /** The first `b` slots of the arena are filled with fresh, untouched
        nodes at their lattice positions, and `Repr` is exactly those nodes. */
    ghost predicate Created(b: int)
      reads this, nodes, Repr
    {
      && 0 < size && nodes.Length == size * size && b <= nodes.Length
      && NonNegative(dist)
      && (forall j :: 0 <= j < b ==> nodes[j] != null && nodes[j].index == j && nodes[j] in Repr)
      && (forall n :: n in Repr ==>
            n.index < b && nodes[n.index] == n && n.dist == dist
            && n.connected == [] && n.Valid() && n.Pristine())
      && (forall c :: InGrid(size, c) && Index(size, c) < b ==>
            nodes[Index(size, c)] != null && nodes[Index(size, c)].position == Position(c.x, c.y))
    }

    constructor (min: Vec3, max: Vec3, nodeCount: nat, dist: Metric)
      requires nodeCount > 0
      requires NonNegative(dist)
      ensures Valid() && Shaped()
      ensures size == nodeCount && this.dist == dist
      ensures spacing == RealMax((max.x - min.x) / nodeCount as real, (max.z - min.z) / nodeCount as real)
      ensures corner == Vec3(min.x, min.y + (max.y + min.y) / 2.0, min.z)
      ensures fresh(nodes) && fresh(Repr)
      ensures forall n :: n in Repr ==> n.Valid() && n.Pristine()
    {
      size := nodeCount;
      var s := (max.x - min.x) / nodeCount as real;
      s := RealMax(s, (max.z - min.z) / nodeCount as real);
      spacing := s;
      corner := Add(min, Vec3(0.0, (max.y + min.y) / 2.0, 0.0));
      this.dist := dist;
      nodes := new Node?[nodeCount * nodeCount];
      new;
      Repr := {};
      CreateNodes();
      AllCreated();
      ConnectNodes();
    }

    /** The constructor's nested loops: `graph[x, y] = new Node(...)` for
        every cell, x-major. */
    method CreateNodes()
      requires 0 < size && nodes.Length == size * size && NonNegative(dist) && Repr == {}
      modifies this, nodes
      ensures Created(size * size)
      ensures fresh(Repr)
    {
      forall c | InGrid(size, c)
        ensures Index(size, c) >= 0
      {
        IndexInRange(size, c);
      }
      // `b` counts the nodes created so far: the index of the next cell.
      ghost var b := 0;
      for x := 0 to size
        invariant b == x * size
        invariant Created(b) && fresh(Repr)
      {
        for y := 0 to size
          invariant b == x * size + y
          invariant Created(b) && fresh(Repr)
        {
          AddNode(x, y);
          b := b + 1;
        }
        assert b == (x + 1) * size;
      }
    }

    /** Once every slot is filled, the arena is a valid graph with every node
        at its lattice position. */
    lemma AllCreated()
      requires Created(size * size)
      ensures Valid()
      ensures forall c :: InGrid(size, c) ==> NodeAt(c).position == Position(c.x, c.y)
      ensures forall n :: n in Repr ==> n.Valid() && n.Pristine()
    {
      forall c | InGrid(size, c)
        ensures NodeAt(c).position == Position(c.x, c.y)
      {
        IndexInRange(size, c);
      }
    }

    /** One step of the constructor's nested loops: `graph[x, y] = new Node(...)`. */
    method AddNode(x: int, y: int)
      requires InGrid(size, Cell(x, y)) && Created(Index(size, Cell(x, y)))
      modifies this, nodes
      ensures Created(Index(size, Cell(x, y)) + 1)
      ensures fresh(Repr - old(Repr))
    {
      IndexInRange(size, Cell(x, y));
      var n := new Node(Index(size, Cell(x, y)), Position(x, y), dist);
      nodes[Index(size, Cell(x, y))] := n;
      Repr := Repr + {n};
      forall c | InGrid(size, c) && Index(size, c) == Index(size, Cell(x, y))
        ensures c == Cell(x, y)
      {
        IndexOrder(size, c, Cell(x, y));
      }
    }

    /** Gives every node its `connected` list, scanning the lattice in the
        constructor's order. */
    method ConnectNodes()
      requires Valid()
      requires forall c :: InGrid(size, c) ==> NodeAt(c).position == Position(c.x, c.y)
      modifies Repr`connected
      ensures Valid() && Shaped()
      ensures forall n :: n in Repr ==> n.Valid() == old(n.Valid()) && n.Pristine() == old(n.Pristine())
    {
      for x := 0 to size
        invariant Valid()
        invariant forall d :: InGrid(size, d) && Before(d, Cell(x, 0)) ==> ConnectedAsGrid(d)
      {
        ConnectColumn(x);
      }
    }

    /** The inner loop of `ConnectNodes`: connects the nodes of column `x`. */
    method ConnectColumn(x: int)
      requires Valid() && 0 <= x < size
      requires forall d :: InGrid(size, d) && Before(d, Cell(x, 0)) ==> ConnectedAsGrid(d)
      modifies Repr`connected
      ensures Valid()
      ensures forall d :: InGrid(size, d) && Before(d, Cell(x + 1, 0)) ==> ConnectedAsGrid(d)
    {
      for y := 0 to size
        invariant Valid()
        invariant forall d :: InGrid(size, d) && Before(d, Cell(x, y)) ==> ConnectedAsGrid(d)
      {
        Connect(Cell(x, y));
      }
    }

    /** The body of `ConnectNodes` for one node: its `connected` list becomes
        the nodes of the cells that `Neighbours` lists, which are the cells of
        the guarded `Add` calls, in their order. */
    method Connect(c: Cell)
      requires Valid() && InGrid(size, c)
      requires forall d :: InGrid(size, d) && Before(d, c) ==> ConnectedAsGrid(d)
      modifies NodeAt(c)`connected
      ensures Valid()
      ensures forall d :: InGrid(size, d) && Before(d, Cell(c.x, c.y + 1)) ==> ConnectedAsGrid(d)
    {
      var n := NodeAt(c);
      n.connected := NodesAt(Neighbours(size, c.x, c.y));
      forall d | InGrid(size, d) && Before(d, Cell(c.x, c.y + 1))
        ensures ConnectedAsGrid(d)
      {
        if d != c {
          IndexOrder(size, d, c);
          assert old(ConnectedAsGrid(d));
        }
      }
    }

    /** The nodes not typed obstructed: the candidates of
        `NearestUnobstructedNode`. */
    ghost function Unobstructed(): (u: set<Node>)
      reads this, Repr`nodeType
      ensures u <= Repr && forall n :: n in Repr ==> (n in u <==> n.nodeType != Obstructed)
    {
      set n | n in Repr && n.nodeType != Obstructed
    }

    /** `n` is a candidate at the least distance from `p`, and the first such
        in scan order: the strict `d2 < d1` keeps the earliest of equals. */
    ghost predicate FirstNearest(n: Node, p: Vec3, candidates: set<Node>)
      reads this, nodes
      requires Filled()
    {
      && n.index < nodes.Length && nodes[n.index] == n && n in candidates
      && (forall i :: 0 <= i < nodes.Length && nodes[i] in candidates ==>
            dist(n.position, p) <= dist(nodes[i].position, p))
      && (forall i :: 0 <= i < n.index && nodes[i] in candidates ==>
            dist(n.position, p) < dist(nodes[i].position, p))
    }

    /** On a well-formed graph the first nearest of all nodes is the closest
        node, whatever the arena order. */
    lemma FirstNearestClosest(n: Node, p: Vec3)
      requires Indexed() && FirstNearest(n, p, Repr)
      ensures Closest(n, p, Repr, dist)
    {
      forall m | m in Repr
        ensures dist(n.position, p) <= dist(m.position, p)
        ensures m.index < n.index ==> dist(n.position, p) < dist(m.position, p)
      {
        assert nodes[m.index] == m;
      }
    }

    /** The scans are deterministic: at most one node is the first nearest. */
    lemma FirstNearestUnique(a: Node, b: Node, p: Vec3, candidates: set<Node>)
      requires Filled()
      requires FirstNearest(a, p, candidates) && FirstNearest(b, p, candidates)
      ensures a == b
    {
      var da, db := dist(a.position, p), dist(b.position, p);
      assert a.index < b.index ==> db < da;
      assert b.index < a.index ==> da < db;
    }

    /** What `NearestUnobstructedNode` returns: the first nearest unobstructed
        node, or `graph[0, 0]` when every node is obstructed. */
    ghost predicate NearestUnobstructed(n: Node, p: Vec3)
      reads this, nodes, Repr`nodeType
      requires Filled()
    {
      && n in Repr
      && (n.nodeType != Obstructed ==> FirstNearest(n, p, Unobstructed()))
      && (n.nodeType == Obstructed ==>
            n == nodes[0] && forall i :: 0 <= i < nodes.Length ==> nodes[i].nodeType == Obstructed)
    }

    /** The node nearest to `position`. */
    method NearestNode(position: Vec3) returns (nearest: Node)
      requires Filled()
      ensures FirstNearest(nearest, position, Repr)
    {
      nearest := NodeAt(Cell(0, 0));
      // `seen` is false while `d1` would still be `Mathf.Infinity`.
      var seen, d1 := false, 0.0;
      ghost var b := 0;
      for x := 0 to size
        invariant b == x * size && b <= nodes.Length
        invariant ScanSoFar(position, Repr, b, seen, d1, nearest)
      {
        for y := 0 to size
          invariant b == x * size + y && b <= nodes.Length
          invariant ScanSoFar(position, Repr, b, seen, d1, nearest)
        {
          IndexInRange(size, Cell(x, y));
          seen, d1, nearest := ScanStep(position, false, Cell(x, y), b, seen, d1, nearest);
          b := b + 1;
        }
        assert b == (x + 1) * size;
      }
    }

    /** The unobstructed node nearest to `position`; `graph[0, 0]` when every
        node is obstructed. */
    method NearestUnobstructedNode(position: Vec3) returns (nearest: Node)
      requires Filled()
      ensures NearestUnobstructed(nearest, position)
    {
      nearest := NodeAt(Cell(0, 0));
      var seen, d1 := false, 0.0;
      ghost var b := 0;
      for x := 0 to size
        invariant b == x * size && b <= nodes.Length
        invariant ScanSoFar(position, Unobstructed(), b, seen, d1, nearest)
      {
        for y := 0 to size
          invariant b == x * size + y && b <= nodes.Length
          invariant ScanSoFar(position, Unobstructed(), b, seen, d1, nearest)
        {
          IndexInRange(size, Cell(x, y));
          seen, d1, nearest := ScanStep(position, true, Cell(x, y), b, seen, d1, nearest);
          b := b + 1;
        }
        assert b == (x + 1) * size;
      }
      forall i | 0 <= i < nodes.Length && !seen
        ensures nodes[i].nodeType == Obstructed
      {
        assert nodes[i] !in Unobstructed();
      }
    }

    /** The body of both scans at `graph[c.x, c.y]`: keep the node if it is a
        candidate strictly nearer than the best so far. */
    method ScanStep(p: Vec3, skipObstructed: bool, c: Cell, ghost b: int, seen: bool, d1: real, nearest: Node)
      returns (seen': bool, d1': real, nearest': Node)
      requires Filled() && InGrid(size, c) && b == Index(size, c) && b < nodes.Length
      requires ScanSoFar(p, if skipObstructed then Unobstructed() else Repr, b, seen, d1, nearest)
      ensures ScanSoFar(p, if skipObstructed then Unobstructed() else Repr, b + 1, seen', d1', nearest')
    {
      seen', d1', nearest' := seen, d1, nearest;
      var n := NodeAt(c);
      if !skipObstructed || n.nodeType != Obstructed {
        var d2 := dist(n.position, p);
        if !seen || d2 < d1 {
          nearest', d1', seen' := n, d2, true;
        }
      }
    }

    /** The loop invariant of both scans after the first `b` nodes. */
    ghost predicate ScanSoFar(p: Vec3, candidates: set<Node>, b: int, seen: bool, d1: real, nearest: Node)
      reads this, nodes
      requires Filled() && 0 <= b <= nodes.Length
    {
      && (!seen ==> nearest == nodes[0] && forall i :: 0 <= i < b ==> nodes[i] !in candidates)
      && (seen ==>
            && nearest.index < b && nodes[nearest.index] == nearest && nearest in candidates
            && d1 == dist(nearest.position, p)
            && (forall i :: 0 <= i < b && nodes[i] in candidates ==> d1 <= dist(nodes[i].position, p))
            && (forall i :: 0 <= i < nearest.index && nodes[i] in candidates ==> d1 < dist(nodes[i].position, p)))
    }

    /** The graph has at most N * N nodes. */
    lemma ReprBound()
      requires Valid()
      ensures |Repr| <= nodes.Length
    {
      assert Repr <= Arena(nodes.Length);
      ArenaBound(nodes.Length);
      SubsetSize(Repr, Arena(nodes.Length));
    }

    /** The nodes in the first `k` slots of the arena. */
    ghost function Arena(k: nat): set<Node>
      reads this, nodes
      requires k <= nodes.Length
    {
      set i | 0 <= i < k && nodes[i] != null :: nodes[i] as Node
    }

    lemma {:induction false} ArenaBound(k: nat)
      requires k <= nodes.Length
      ensures |Arena(k)| <= k
    {
      if k > 0 {
        ArenaBound(k - 1);
        if nodes[k - 1] != null {
          assert Arena(k) == Arena(k - 1) + {nodes[k - 1] as Node};
        } else {
          assert Arena(k) == Arena(k - 1);
        }
      }
    }
  }
}
