/** The derivation graph and the two questions asked of it: what a metric rests on, and what a column
  * moves. The two walks run the same loop over neighbours in opposite directions.
  */
module Graph {
  import opened Basics

  datatype Kind = Metric | Entity | Dimension | Column

  // An id is the node's kind and name.
  datatype Node = Node(kind: Kind, name: string)

  datatype EdgeKind = JoinsTo | MeasuredOn | GroupsBy | DerivesFrom | ReadsColumn

  datatype Edge = Edge(kind: EdgeKind, source: Node, target: Node)

  datatype Graph = Graph(nodes: seq<Node>, edges: seq<Edge>)

  datatype Direction = Out | In

  const NEIGHBOR_LIMIT: nat := 500
  const LIST_LIMIT: nat := 5000

  const EXPLAIN_KINDS := {DerivesFrom, MeasuredOn, ReadsColumn}
  const IMPACT_KINDS := {ReadsColumn, DerivesFrom}

  // ---------------------------------------------------------------- the store's neighbour query

  function Near(e: Edge, dir: Direction): Node {
    if dir == Out then e.source else e.target
  }

  function Far(e: Edge, dir: Direction): Node {
    if dir == Out then e.target else e.source
  }

  ghost predicate Distinct<T(!new)>(s: seq<T>) {
    forall i, j | 0 <= i < j < |s| :: s[i] != s[j]
  }

  // y is one edge away from x in the given direction, over one of these kinds.
  ghost predicate Linked(nodes: seq<Node>, edges: seq<Edge>, x: Node, dir: Direction, kinds: set<EdgeKind>, y: Node) {
    y in nodes && exists e :: e in edges && e.kind in kinds && Near(e, dir) == x && Far(e, dir) == y
  }

  // The distinct nodes at the other end of x's edges, in edge order.
  function Endpoints(nodes: seq<Node>, edges: seq<Edge>, x: Node, dir: Direction, kinds: set<EdgeKind>): (r: seq<Node>)
    ensures Distinct(r)
    ensures forall y :: y in r <==> Linked(nodes, edges, x, dir, kinds, y)
  {
    if edges == [] then []
    else
      var n := |edges| - 1;
      var e, r := edges[n], Endpoints(nodes, edges[..n], x, dir, kinds);
      assert forall f :: f in edges <==> f == e || f in edges[..n];
      if e.kind in kinds && Near(e, dir) == x && Far(e, dir) in nodes && Far(e, dir) !in r
      then r + [Far(e, dir)] else r
  }

  // What the query returns: no more than its limit.
  function Neighbors(g: Graph, x: Node, dir: Direction, kinds: set<EdgeKind>): seq<Node> {
    var all := Endpoints(g.nodes, g.edges, x, dir, kinds);
    all[..Min(NEIGHBOR_LIMIT, |all|)]
  }

  // How many neighbours a query is for, before it is cut.
  function Degree(g: Graph, x: Node, dir: Direction, kinds: set<EdgeKind>): nat {
    |Endpoints(g.nodes, g.edges, x, dir, kinds)|
  }

  /** The lists the two walks ask for, of metrics outwards and of metrics and columns inwards, have at most n
    * entries.
    */
  ghost predicate ShortLists(g: Graph, n: nat) {
    && (forall x | x in g.nodes && x.kind == Metric :: Degree(g, x, Out, EXPLAIN_KINDS) <= n)
    && (forall x | x in g.nodes && (x.kind == Metric || x.kind == Column) :: Degree(g, x, In, IMPACT_KINDS) <= n)
  }

  // ---------------------------------------------------------------- walks and distances

  // Only metrics are walked through; the start is always walked from.
  ghost predicate Reach(adj: Node -> seq<Node>, start: Node, n: Node, d: nat)
    decreases d
  {
    if d == 0 then n == start
    else exists z :: Reach(adj, start, z, d - 1) && (d == 1 || z.kind == Metric) && n in adj(z)
  }

  ghost predicate Within(adj: Node -> seq<Node>, start: Node, n: Node, d: nat) {
    exists k: nat :: k <= d && Reach(adj, start, n, k)
  }

  /** d is the length of a shortest walk from start to n. */
  ghost predicate Distance(adj: Node -> seq<Node>, start: Node, n: Node, d: nat) {
    Reach(adj, start, n, d) && forall k: nat | k < d :: !Reach(adj, start, n, k)
  }

  // z is walked from when the nodes at distance d are processed.
  ghost predicate OnFrontier(adj: Node -> seq<Node>, start: Node, z: Node, d: nat) {
    Distance(adj, start, z, d) && (d == 0 || z.kind == Metric)
  }

  // The nodes one step further out are the unseen neighbours of the frontier.
  lemma NextLevel(adj: Node -> seq<Node>, start: Node, n: Node, d: nat)
    ensures Distance(adj, start, n, d + 1) <==>
            !Within(adj, start, n, d) && exists z :: OnFrontier(adj, start, z, d) && n in adj(z)
  {
    if Distance(adj, start, n, d + 1) {
      var z :| Reach(adj, start, z, d) && (d == 0 || z.kind == Metric) && n in adj(z);
      forall k: nat | k < d
        ensures !Reach(adj, start, z, k)
      {
        if Reach(adj, start, z, k) {
          assert Reach(adj, start, n, k + 1);
        }
      }
      assert OnFrontier(adj, start, z, d);
    }
    if !Within(adj, start, n, d) && exists z :: OnFrontier(adj, start, z, d) && n in adj(z) {
      var z :| OnFrontier(adj, start, z, d) && n in adj(z);
      assert Reach(adj, start, n, d + 1);
    }
  }

  // Behind an empty frontier there is nothing.
  lemma {:induction false} NothingBeyond(adj: Node -> seq<Node>, start: Node, n: Node, d: nat, k: nat)
    requires forall z :: !OnFrontier(adj, start, z, d)
    requires d < k
    ensures !Distance(adj, start, n, k)
    decreases k
  {
    var j := k - 1;
    NextLevel(adj, start, n, j);
    if j > d {
      forall z
        ensures !OnFrontier(adj, start, z, j)
      {
        NothingBeyond(adj, start, z, d, j);
      }
    }
  }

  datatype Found = Found(node: Node, depth: nat)

  ghost predicate Newly(adj: Node -> seq<Node>, start: Node, d: nat, frontier: seq<Node>, i: nat, hits: seq<Node>,
                        n: Node)
    requires i <= |frontier|
  {
    !Within(adj, start, n, d) && ((exists j :: 0 <= j < i && n in adj(frontier[j])) || n in hits)
  }

  /** Walks out level by level, up to maxDepth levels, and returns every node but the start with its
    * distance, each once.
    */
  method Search(adj: Node -> seq<Node>, start: Node, maxDepth: nat) returns (out: seq<Found>)
    ensures forall n, d: nat :: Found(n, d) in out <==> 1 <= d <= maxDepth && Distance(adj, start, n, d)
    ensures forall i, j | 0 <= i < j < |out| :: out[i].node != out[j].node
  {
    hide Newly;
    var seen, frontier := {start}, [start];
    out := [];
    var depth := 1;
    forall n
      ensures Within(adj, start, n, 0) <==> n == start
    {
      assert Reach(adj, start, n, 0) <==> n == start;
    }
    while depth <= maxDepth && |frontier| > 0
      invariant 1 <= depth <= maxDepth + 1
      invariant forall n: Node :: n in seen <==> Within(adj, start, n, depth - 1)
      invariant forall n: Node :: n in frontier <==> OnFrontier(adj, start, n, depth - 1)
      invariant forall n, d: nat :: Found(n, d) in out <==> 1 <= d < depth && Distance(adj, start, n, d)
      invariant forall i, j | 0 <= i < j < |out| :: out[i].node != out[j].node
    {
      var next := [];
      ghost var was := out;
      NothingNew(adj, start, depth - 1, frontier);
      for i := 0 to |frontier|
        invariant forall n: Node :: n in seen <==>
            Within(adj, start, n, depth - 1) || Newly(adj, start, depth - 1, frontier, i, [], n)
        invariant forall n: Node :: n in next <==> n.kind == Metric && Newly(adj, start, depth - 1, frontier, i, [], n)
        invariant forall f: Found :: f in out <==>
            f in was || (f.depth == depth && Newly(adj, start, depth - 1, frontier, i, [], f.node))
        invariant forall i, j | 0 <= i < j < |out| :: out[i].node != out[j].node
      {
        seen, next, out := Visit(adj, start, depth, frontier, i, seen, next, out, was);
        AllHitsProcessed(adj, start, depth - 1, frontier, i);
      }
      LevelDone(adj, start, depth - 1, frontier);
      frontier := next;
      depth := depth + 1;
    }
    if depth <= maxDepth {
      ghost var last := depth - 1;
      assert forall z :: OnFrontier(adj, start, z, last) ==> z in frontier;
      forall n, d: nat | depth <= d
        ensures !Distance(adj, start, n, d)
      {
        NothingBeyond(adj, start, n, depth - 1, d);
      }
    }
  }

  lemma NothingNew(adj: Node -> seq<Node>, start: Node, d: nat, frontier: seq<Node>)
    ensures forall n :: !Newly(adj, start, d, frontier, 0, [], n)
  {
  }

  // Visits the neighbours of one frontier node.
  method Visit(adj: Node -> seq<Node>, start: Node, depth: nat, frontier: seq<Node>, i: nat, seen0: set<Node>,
               next0: seq<Node>, out0: seq<Found>, ghost was: seq<Found>)
    returns (seen: set<Node>, next: seq<Node>, out: seq<Found>)
    requires 0 < depth && i < |frontier|
    requires forall n: Node :: n in seen0 <==>
               Within(adj, start, n, depth - 1) || Newly(adj, start, depth - 1, frontier, i, [], n)
    requires forall n: Node :: n in next0 <==> n.kind == Metric && Newly(adj, start, depth - 1, frontier, i, [], n)
    requires forall f: Found :: f in out0 <==>
               f in was || (f.depth == depth && Newly(adj, start, depth - 1, frontier, i, [], f.node))
    requires forall f | f in was :: Within(adj, start, f.node, depth - 1)
    requires forall i, j | 0 <= i < j < |out0| :: out0[i].node != out0[j].node
    ensures forall n: Node :: n in seen <==>
              Within(adj, start, n, depth - 1) || Newly(adj, start, depth - 1, frontier, i, adj(frontier[i]), n)
    ensures forall n: Node :: n in next <==>
              n.kind == Metric && Newly(adj, start, depth - 1, frontier, i, adj(frontier[i]), n)
    ensures forall f: Found :: f in out <==>
              f in was || (f.depth == depth && Newly(adj, start, depth - 1, frontier, i, adj(frontier[i]), f.node))
    ensures forall i, j | 0 <= i < j < |out| :: out[i].node != out[j].node
  {
    hide Within;
    var hits := adj(frontier[i]);
    seen, next, out := seen0, next0, out0;
    for j := 0 to |hits|
      invariant forall n: Node :: n in seen <==>
          Within(adj, start, n, depth - 1) || Newly(adj, start, depth - 1, frontier, i, hits[..j], n)
      invariant forall n: Node :: n in next <==>
          n.kind == Metric && Newly(adj, start, depth - 1, frontier, i, hits[..j], n)
      invariant forall f: Found :: f in out <==>
          f in was || (f.depth == depth && Newly(adj, start, depth - 1, frontier, i, hits[..j], f.node))
      invariant forall i, j | 0 <= i < j < |out| :: out[i].node != out[j].node
    {
      var h := hits[j];
      assert hits[..j + 1] == hits[..j] + [h];
      if h in seen {
        continue;
      }
      seen := seen + {h};
      out := out + [Found(h, depth)];
      if h.kind == Metric {
        next := next + [h];
      }
    }
    assert hits[..|hits|] == hits;
  }

  lemma AllHitsProcessed(adj: Node -> seq<Node>, start: Node, d: nat, frontier: seq<Node>, i: nat)
    requires i < |frontier|
    ensures var next := i + 1;
            forall n :: Newly(adj, start, d, frontier, i, adj(frontier[i]), n) <==>
                Newly(adj, start, d, frontier, next, [], n)
  {
  }

  // Processing the whole frontier finds exactly the next level.
  lemma LevelDone(adj: Node -> seq<Node>, start: Node, d: nat, frontier: seq<Node>)
    requires forall n: Node :: n in frontier <==> OnFrontier(adj, start, n, d)
    ensures forall n :: Newly(adj, start, d, frontier, |frontier|, [], n) <==> Distance(adj, start, n, d + 1)
    ensures forall n :: Within(adj, start, n, d + 1) <==> Within(adj, start, n, d) || Distance(adj, start, n, d + 1)
  {
    forall n
      ensures Newly(adj, start, d, frontier, |frontier|, [], n) <==> Distance(adj, start, n, d + 1)
      ensures Within(adj, start, n, d + 1) <==> Within(adj, start, n, d) || Distance(adj, start, n, d + 1)
    {
      NextLevel(adj, start, n, d);
      if z :| OnFrontier(adj, start, z, d) && n in adj(z) {
        assert z in frontier;
      }
    }
  }

  // ---------------------------------------------------------------- the two questions

  function Bound(maxDepth: int): nat {
    if maxDepth <= 0 then 4 else maxDepth
  }

  function OfKind(nodes: seq<Node>, kind: Kind): seq<Node> {
    if nodes == [] then []
    else (if nodes[0].kind == kind then [nodes[0]] else []) + OfKind(nodes[1..], kind)
  }

  // Whether the listing query, which is cut at its own limit, shows the node.
  predicate Exists(g: Graph, n: Node) {
    var all := OfKind(g.nodes, n.kind);
    n in all[..Min(LIST_LIMIT, |all|)]
  }

  function RestsOn(g: Graph): Node -> seq<Node> {
    (x: Node) => Neighbors(g, x, Out, EXPLAIN_KINDS)
  }

  function FeedsInto(g: Graph): Node -> seq<Node> {
    (x: Node) => Neighbors(g, x, In, IMPACT_KINDS)
  }

  /** The metric rests on this node, depth definitions away. */
  ghost predicate Explains(g: Graph, metric: string, maxDepth: int, n: Node, depth: nat) {
    1 <= depth <= Bound(maxDepth) && Distance(RestsOn(g), Node(Metric, metric), n, depth)
  }

  /** A change of the column moves this metric, hops definitions away. */
  ghost predicate Moves(g: Graph, column: string, maxDepth: int, metric: string, hops: nat) {
    1 <= hops <= Bound(maxDepth) && Distance(FeedsInto(g), Node(Column, column), Node(Metric, metric), hops)
  }

  method Explain(g: Graph, metric: string, maxDepth: int) returns (out: Option<seq<Found>>)
    ensures out.Some? <==> Exists(g, Node(Metric, metric))
    ensures out.Some? ==> forall n, d: nat :: Found(n, d) in out.value <==> Explains(g, metric, maxDepth, n, d)
  {
    var start := Node(Metric, metric);
    if !Exists(g, start) {
      return None;
    }
    var found := Search(RestsOn(g), start, Bound(maxDepth));
    out := Some(found);
  }

  datatype Affected = Affected(metric: string, hops: nat)

  method Impact(g: Graph, column: string, maxDepth: int) returns (out: Option<seq<Affected>>)
    ensures out.Some? <==> Exists(g, Node(Column, column))
    ensures out.Some? ==> forall m, h: nat :: Affected(m, h) in out.value <==> Moves(g, column, maxDepth, m, h)
    ensures out.Some? ==> forall i, j | 0 <= i < j < |out.value| :: out.value[i].metric != out.value[j].metric
  {
    var start := Node(Column, column);
    if !Exists(g, start) {
      return None;
    }
    var found := Search(FeedsInto(g), start, Bound(maxDepth));
    var hops := [];
    for i := 0 to |found|
      invariant forall m, h: nat :: Affected(m, h) in hops <==> Found(Node(Metric, m), h) in found[..i]
      invariant forall j, k | 0 <= j < k < |hops| :: hops[j].metric != hops[k].metric
    {
      var f := found[i];
      assert found[..i + 1] == found[..i] + [f];
      if f.node.kind == Metric {
        forall j | 0 <= j < |hops|
          ensures hops[j].metric != f.node.name
        {
          assert Affected(hops[j].metric, hops[j].hops) in hops;
        }
        hops := hops + [Affected(f.node.name, f.depth)];
      }
    }
    assert found[..|found|] == found;
    out := Some(hops);
  }

  // ---------------------------------------------------------------- duality

  // Each edge kind joins the node kinds it is meant for.
  predicate WellTyped(e: Edge) {
    match e.kind
    case JoinsTo => e.source.kind == Entity && e.target.kind == Entity
    case MeasuredOn => e.source.kind == Metric && e.target.kind == Entity
    case GroupsBy => e.source.kind == Dimension && e.target.kind == Entity
    case DerivesFrom => e.source.kind == Metric && e.target.kind == Metric
    case ReadsColumn => (e.source.kind == Metric || e.source.kind == Dimension) && e.target.kind == Column
  }

  ghost predicate Typed(g: Graph) {
    forall e | e in g.edges :: WellTyped(e)
  }

  // p is a walk from start, through metrics, to its last node.
  ghost predicate IsWalk(adj: Node -> seq<Node>, start: Node, p: seq<Node>) {
    && |p| > 0 && p[0] == start
    && (forall i | 0 < i < |p| - 1 :: p[i].kind == Metric)
    && (forall i | 0 <= i < |p| - 1 :: p[i + 1] in adj(p[i]))
  }

  lemma {:induction false} WalkOfReach(adj: Node -> seq<Node>, start: Node, n: Node, d: nat) returns (p: seq<Node>)
    requires Reach(adj, start, n, d)
    ensures IsWalk(adj, start, p) && |p| == d + 1 && p[d] == n
    decreases d
  {
    if d == 0 {
      p := [start];
    } else {
      var z :| Reach(adj, start, z, d - 1) && (d == 1 || z.kind == Metric) && n in adj(z);
      var q := WalkOfReach(adj, start, z, d - 1);
      p := q + [n];
    }
  }

  lemma {:induction false} ReachOfWalk(adj: Node -> seq<Node>, start: Node, p: seq<Node>)
    requires IsWalk(adj, start, p)
    ensures Reach(adj, start, p[|p| - 1], |p| - 1)
    decreases |p|
  {
    if |p| > 1 {
      var q := p[..|p| - 1];
      ReachOfWalk(adj, start, q);
      assert p[|p| - 2 + 1] in adj(p[|p| - 2]);
    }
  }

  function Reverse(p: seq<Node>): (r: seq<Node>) {
    seq(|p|, i requires 0 <= i < |p| => p[|p| - 1 - i])
  }

  // In a list that is not cut, being a neighbour is being linked.
  lemma NeighborIsLinked(g: Graph, x: Node, dir: Direction, kinds: set<EdgeKind>, y: Node)
    requires Degree(g, x, dir, kinds) <= NEIGHBOR_LIMIT
    ensures y in Neighbors(g, x, dir, kinds) <==> Linked(g.nodes, g.edges, x, dir, kinds, y)
  {
    var all := Endpoints(g.nodes, g.edges, x, dir, kinds);
    assert all[..|all|] == all;
  }

  // Between a metric and a metric or column, one step out is one step in, reversed.
  lemma StepReverses(g: Graph, x: Node, y: Node)
    requires ShortLists(g, NEIGHBOR_LIMIT) && Typed(g) && x in g.nodes && y in g.nodes
    requires x.kind == Metric && (y.kind == Metric || y.kind == Column)
    ensures y in RestsOn(g)(x) <==> x in FeedsInto(g)(y)
  {
    NeighborIsLinked(g, x, Out, EXPLAIN_KINDS, y);
    NeighborIsLinked(g, y, In, IMPACT_KINDS, x);
    if e :| e in g.edges && e.kind in EXPLAIN_KINDS && e.source == x && e.target == y {
      assert WellTyped(e);
      assert Near(e, In) == y && Far(e, In) == x && e.kind in IMPACT_KINDS;
    }
    if e :| e in g.edges && e.kind in IMPACT_KINDS && e.source == x && e.target == y {
      assert Near(e, Out) == x && Far(e, Out) == y && e.kind in EXPLAIN_KINDS;
    }
  }

  lemma LinkedIsNode(g: Graph, x: Node, dir: Direction, kinds: set<EdgeKind>, y: Node)
    requires y in Neighbors(g, x, dir, kinds)
    ensures y in g.nodes
  {
    assert y in Endpoints(g.nodes, g.edges, x, dir, kinds);
  }

  // A walk from a metric to a column, read backwards, is a walk the other way.
  lemma ExplanationReverses(g: Graph, metric: Node, column: Node, p: seq<Node>)
    requires ShortLists(g, NEIGHBOR_LIMIT) && Typed(g) && metric in g.nodes && column in g.nodes
    requires metric.kind == Metric && column.kind == Column
    requires IsWalk(RestsOn(g), metric, p) && p[|p| - 1] == column
    ensures IsWalk(FeedsInto(g), column, Reverse(p))
  {
    var q, n := Reverse(p), |p| - 1;
    forall i | 0 <= i < n
      ensures q[i + 1] in FeedsInto(g)(q[i])
    {
      var k := n - i - 1;
      StepsStayInGraph(g, RestsOn(g), metric, p, k);
      assert p[k + 1].kind == Metric || p[k + 1] == column;
      StepReverses(g, p[k], p[k + 1]);
    }
  }

  lemma ImpactReverses(g: Graph, metric: Node, column: Node, q: seq<Node>)
    requires ShortLists(g, NEIGHBOR_LIMIT) && Typed(g) && metric in g.nodes && column in g.nodes
    requires metric.kind == Metric && column.kind == Column
    requires IsWalk(FeedsInto(g), column, q) && q[|q| - 1] == metric
    ensures IsWalk(RestsOn(g), metric, Reverse(q))
  {
    var p, n := Reverse(q), |q| - 1;
    forall k | 0 <= k < n
      ensures p[k + 1] in RestsOn(g)(p[k])
    {
      var i := n - k - 1;
      StepsStayInGraph(g, FeedsInto(g), column, q, i);
      assert q[i + 1].kind == Metric;
      assert q[i].kind == Metric || q[i] == column;
      StepReverses(g, p[k], p[k + 1]);
    }
  }

  lemma StepsStayInGraph(g: Graph, adj: Node -> seq<Node>, start: Node, p: seq<Node>, k: nat)
    requires adj == RestsOn(g) || adj == FeedsInto(g)
    requires start in g.nodes && IsWalk(adj, start, p) && k + 1 < |p|
    ensures p[k] in g.nodes && p[k + 1] in g.nodes && p[k + 1] in adj(p[k])
  {
    WalkStaysInGraph(g, adj, start, p, k);
    WalkStaysInGraph(g, adj, start, p, k + 1);
  }

  lemma WalkStaysInGraph(g: Graph, adj: Node -> seq<Node>, start: Node, p: seq<Node>, k: nat)
    requires adj == RestsOn(g) || adj == FeedsInto(g)
    requires start in g.nodes && IsWalk(adj, start, p) && k < |p|
    ensures p[k] in g.nodes
  {
    if k > 0 {
      var j := k - 1;
      assert p[j + 1] in adj(p[j]);
      if adj == RestsOn(g) {
        LinkedIsNode(g, p[j], Out, EXPLAIN_KINDS, p[k]);
      } else {
        LinkedIsNode(g, p[j], In, IMPACT_KINDS, p[k]);
      }
    }
  }

  lemma ReachReverses(g: Graph, metric: Node, column: Node, d: nat)
    requires ShortLists(g, NEIGHBOR_LIMIT) && Typed(g) && metric in g.nodes && column in g.nodes
    requires metric.kind == Metric && column.kind == Column
    ensures Reach(RestsOn(g), metric, column, d) <==> Reach(FeedsInto(g), column, metric, d)
  {
    if Reach(RestsOn(g), metric, column, d) {
      var p := WalkOfReach(RestsOn(g), metric, column, d);
      ExplanationReverses(g, metric, column, p);
      ReachOfWalk(FeedsInto(g), column, Reverse(p));
    }
    if Reach(FeedsInto(g), column, metric, d) {
      var q := WalkOfReach(FeedsInto(g), column, metric, d);
      ImpactReverses(g, metric, column, q);
      ReachOfWalk(RestsOn(g), metric, Reverse(q));
    }
  }

  /** In every typed graph, cyclic ones included, and for every depth bound, a metric is moved by a column at h
    * hops exactly when the column explains the metric at depth h.
    */
  lemma ImpactIsExplainReversed(g: Graph, metric: string, column: string, maxDepth: int, h: nat)
    requires ShortLists(g, NEIGHBOR_LIMIT) && Typed(g)
    requires Node(Metric, metric) in g.nodes && Node(Column, column) in g.nodes
    ensures Moves(g, column, maxDepth, metric, h) <==> Explains(g, metric, maxDepth, Node(Column, column), h)
  {
    forall d: nat
      ensures Reach(RestsOn(g), Node(Metric, metric), Node(Column, column), d) <==>
              Reach(FeedsInto(g), Node(Column, column), Node(Metric, metric), d)
    {
      ReachReverses(g, Node(Metric, metric), Node(Column, column), d);
    }
  }

  // What Explain of the metric reports.
  ghost predicate ExplainReports(g: Graph, metric: string, maxDepth: int, column: string, h: nat) {
    Exists(g, Node(Metric, metric)) && Explains(g, metric, maxDepth, Node(Column, column), h)
  }

  // What Impact of the column reports.
  ghost predicate ImpactReports(g: Graph, column: string, maxDepth: int, metric: string, h: nat) {
    Exists(g, Node(Column, column)) && Moves(g, column, maxDepth, metric, h)
  }

  /** The two answers are each other's reverse, whatever is asked. */
  ghost predicate Dual(g: Graph) {
    forall metric, column, maxDepth, h: nat ::
      ImpactReports(g, column, maxDepth, metric, h) <==> ExplainReports(g, metric, maxDepth, column, h)
  }

  // There are at most k metrics and at most k columns.
  predicate FewNodes(g: Graph, k: nat) {
    |OfKind(g.nodes, Metric)| <= k && |OfKind(g.nodes, Column)| <= k
  }

  lemma {:induction false} OfKindHolds(nodes: seq<Node>, kind: Kind)
    ensures forall n :: n in OfKind(nodes, kind) <==> n in nodes && n.kind == kind
    ensures |OfKind(nodes, kind)| <= |nodes|
  {
    if nodes != [] {
      OfKindHolds(nodes[1..], kind);
      assert nodes == [nodes[0]] + nodes[1..];
    }
  }

  lemma ExistsMeans(g: Graph, n: Node)
    ensures Exists(g, n) ==> n in g.nodes
    ensures n in g.nodes && |OfKind(g.nodes, n.kind)| <= LIST_LIMIT ==> Exists(g, n)
  {
    OfKindHolds(g.nodes, n.kind);
    var all := OfKind(g.nodes, n.kind);
    assert |all| <= LIST_LIMIT ==> all[..Min(LIST_LIMIT, |all|)] == all;
  }

  lemma ReachedIsNode(g: Graph, adj: Node -> seq<Node>, start: Node, n: Node, d: nat)
    requires adj == RestsOn(g) || adj == FeedsInto(g)
    requires Reach(adj, start, n, d) && d > 0
    ensures n in g.nodes
  {
    var z :| Reach(adj, start, z, d - 1) && (d == 1 || z.kind == Metric) && n in adj(z);
    if adj == RestsOn(g) {
      LinkedIsNode(g, z, Out, EXPLAIN_KINDS, n);
    } else {
      LinkedIsNode(g, z, In, IMPACT_KINDS, n);
    }
  }

  lemma SmallIsDual(g: Graph)
    requires Typed(g) && ShortLists(g, NEIGHBOR_LIMIT) && FewNodes(g, LIST_LIMIT)
    ensures Dual(g)
  {
    hide Reach, ShortLists, Typed;
    forall metric, column, maxDepth, h: nat
      ensures ImpactReports(g, column, maxDepth, metric, h) <==> ExplainReports(g, metric, maxDepth, column, h)
    {
      var m, c := Node(Metric, metric), Node(Column, column);
      ExistsMeans(g, m);
      ExistsMeans(g, c);
      if ImpactReports(g, column, maxDepth, metric, h) {
        ReachedIsNode(g, FeedsInto(g), c, m, h);
      }
      if ExplainReports(g, metric, maxDepth, column, h) {
        ReachedIsNode(g, RestsOn(g), m, c, h);
      }
      if m in g.nodes && c in g.nodes {
        ImpactIsExplainReversed(g, metric, column, maxDepth, h);
      }
    }
  }

  ghost predicate ListsUpToAreDual(n: nat) {
    forall g | Typed(g) && ShortLists(g, n) && FewNodes(g, LIST_LIMIT) :: Dual(g)
  }

  ghost predicate NodesUpToAreDual(k: nat) {
    forall g | Typed(g) && ShortLists(g, NEIGHBOR_LIMIT) && FewNodes(g, k) :: Dual(g)
  }

  lemma LooserBounds(g: Graph, a: nat, b: nat)
    requires a <= b
    ensures ShortLists(g, a) ==> ShortLists(g, b)
    ensures FewNodes(g, a) ==> FewNodes(g, b)
  {
    hide Degree, OfKind;
  }

  lemma WithinTheLimits(g: Graph, n: nat, k: nat)
    requires Typed(g) && ShortLists(g, n) && FewNodes(g, k) && n <= NEIGHBOR_LIMIT && k <= LIST_LIMIT
    ensures Dual(g)
  {
    hide Typed, ShortLists, FewNodes, Dual;
    LooserBounds(g, n, NEIGHBOR_LIMIT);
    LooserBounds(g, k, LIST_LIMIT);
    SmallIsDual(g);
  }

  /** Main result: the answers of Explain and Impact are each other's reverse, in every typed graph whose walked
    * lists have at most n entries and whose nodes are all listed, if and only if n is within the neighbour limit;
    * and with walked lists within that limit, in every typed graph of at most k metrics and k columns, if and only
    * if k is within the listing limit.
    */
  lemma DualExactly(n: nat, k: nat)
    ensures ListsUpToAreDual(n) <==> n <= NEIGHBOR_LIMIT
    ensures NodesUpToAreDual(k) <==> k <= LIST_LIMIT
  {
    hide Shop, Typed, ShortLists, FewNodes, Dual;
    if n <= NEIGHBOR_LIMIT {
      forall g | Typed(g) && ShortLists(g, n) && FewNodes(g, LIST_LIMIT)
        ensures Dual(g)
      {
        WithinTheLimits(g, n, LIST_LIMIT);
      }
    } else {
      StarIsNotDual();
      LooserBounds(Shop(0, NEIGHBOR_LIMIT + 1), NEIGHBOR_LIMIT + 1, n);
    }
    if k <= LIST_LIMIT {
      forall g | Typed(g) && ShortLists(g, NEIGHBOR_LIMIT) && FewNodes(g, k)
        ensures Dual(g)
      {
        WithinTheLimits(g, NEIGHBOR_LIMIT, k);
      }
    } else {
      CrowdIsNotDual(LIST_LIMIT);
      LooserBounds(Shop(LIST_LIMIT, LIST_LIMIT + 1), LIST_LIMIT + 1, k);
    }
  }

  // ---------------------------------------------------------------- what the limits cost

  const ORDERS := Node(Entity, "orders")
  const QTY := Node(Column, "orders.qty")

  function Reader(i: nat): Node {
    Node(Metric, seq(i + 1, _ => 'm'))
  }

  function Readers(n: nat): (r: seq<Node>)
    ensures |r| == n && forall i | 0 <= i < n :: r[i] == Reader(i)
  {
    if n == 0 then [] else Readers(n - 1) + [Reader(n - 1)]
  }

  function Measures(n: nat): (r: seq<Edge>)
    ensures |r| == n && forall i | 0 <= i < n :: r[i] == Edge(MeasuredOn, Reader(i), ORDERS)
  {
    seq(n, i requires 0 <= i < n => Edge(MeasuredOn, Reader(i), ORDERS))
  }

  function Reads(k: nat, n: nat): (r: seq<Edge>)
    requires k <= n
    ensures |r| == n - k && forall i | k <= i < n :: r[i - k] == Edge(ReadsColumn, Reader(i), QTY)
  {
    seq(n - k, i requires 0 <= i < n - k => Edge(ReadsColumn, Reader(k + i), QTY))
  }

  // n metrics measured on one entity, of which all from the k-th on read its one column.
  function Shop(k: nat, n: nat): Graph
    requires k <= n
  {
    Graph([ORDERS] + Readers(n) + [QTY], Measures(n) + Reads(k, n))
  }

  ghost predicate ShopEdge(k: nat, n: nat, e: Edge) {
    || (exists i: nat :: i < n && e == Edge(MeasuredOn, Reader(i), ORDERS))
    || (exists i: nat :: k <= i < n && e == Edge(ReadsColumn, Reader(i), QTY))
  }

  lemma ShopEdges(k: nat, n: nat, e: Edge)
    requires k <= n
    ensures e in Shop(k, n).edges <==> ShopEdge(k, n, e)
  {
    if i: nat :| i < n && e == Edge(MeasuredOn, Reader(i), ORDERS) {
      assert Measures(n)[i] == e;
    }
    if i: nat :| k <= i < n && e == Edge(ReadsColumn, Reader(i), QTY) {
      assert Reads(k, n)[i - k] == e;
    }
  }

  lemma ShopNodes(k: nat, n: nat, x: Node)
    requires k <= n
    ensures x in Shop(k, n).nodes <==> x == ORDERS || x == QTY || exists i: nat :: i < n && x == Reader(i)
  {
    if i: nat :| i < n && x == Reader(i) {
      assert Readers(n)[i] == x;
    }
  }

  lemma ReadersApart(i: nat, j: nat)
    ensures Reader(i) == Reader(j) <==> i == j
  {
    assert |Reader(i).name| == i + 1 && |Reader(j).name| == j + 1;
  }

  lemma ReaderIsNew(n: nat)
    ensures Reader(n) !in Readers(n)
  {
    forall i: nat | i < n
      ensures Readers(n)[i] != Reader(n)
    {
      ReadersApart(i, n);
    }
  }

  lemma ShopIsDistinct(k: nat, n: nat)
    requires k <= n
    ensures Distinct(Shop(k, n).nodes)
  {
    var nodes := Shop(k, n).nodes;
    forall i, j | 0 <= i < j < |nodes|
      ensures nodes[i] != nodes[j]
    {
      if 0 < i && j < n + 1 {
        ReadersApart(i - 1, j - 1);
      }
    }
  }

  lemma ShopIsTyped(k: nat, n: nat)
    requires k <= n
    ensures Typed(Shop(k, n))
  {
    hide Shop;
    forall e | e in Shop(k, n).edges
      ensures WellTyped(e)
    {
      ShopEdges(k, n, e);
    }
  }

  // Who reads the column, in the order of the edges.
  lemma {:induction false} ColumnReaders(nodes: seq<Node>, k: nat, j: nat, n: nat)
    requires k <= j <= n && forall i: nat | i < n :: Reader(i) in nodes
    ensures Endpoints(nodes, Measures(n) + Reads(k, j), QTY, In, IMPACT_KINDS) == Readers(j)[k..]
  {
    hide Endpoints, Readers, Reads, Measures, Reader;
    ReadsOneMore(k, j, n);
    if j == k {
      NobodyReads(nodes, Measures(n));
    } else {
      ColumnReaders(nodes, k, j - 1, n);
      OneMoreEdge(nodes, Measures(n) + Reads(k, j - 1), Edge(ReadsColumn, Reader(j - 1), QTY));
    }
  }

  lemma ReadsOneMore(k: nat, j: nat, n: nat)
    requires k <= j
    ensures forall e | e in Measures(n) :: e.kind !in IMPACT_KINDS
    ensures j == k ==> Measures(n) + Reads(k, j) == Measures(n) && Readers(j)[k..] == []
    ensures j > k ==>
              && Measures(n) + Reads(k, j) == Measures(n) + Reads(k, j - 1) + [Edge(ReadsColumn, Reader(j - 1), QTY)]
              && Readers(j)[k..] == Readers(j - 1)[k..] + [Reader(j - 1)]
              && Reader(j - 1) !in Readers(j - 1)[k..]
              && Reader(j - 1).kind == Metric
  {
    if j > k {
      ReaderIsNew(j - 1);
    }
  }

  lemma OneMoreEdge(nodes: seq<Node>, edges: seq<Edge>, e: Edge)
    requires e.kind in IMPACT_KINDS && e.target == QTY && e.source in nodes
    requires e.source !in Endpoints(nodes, edges, QTY, In, IMPACT_KINDS)
    ensures Endpoints(nodes, edges + [e], QTY, In, IMPACT_KINDS)
         == Endpoints(nodes, edges, QTY, In, IMPACT_KINDS) + [e.source]
  {
    assert (edges + [e])[..|edges|] == edges;
  }

  lemma NobodyReads(nodes: seq<Node>, edges: seq<Edge>)
    requires forall e | e in edges :: e.kind !in IMPACT_KINDS
    ensures Endpoints(nodes, edges, QTY, In, IMPACT_KINDS) == []
  {
    hide Endpoints;
    var r := Endpoints(nodes, edges, QTY, In, IMPACT_KINDS);
    if r != [] {
      assert Linked(nodes, edges, QTY, In, IMPACT_KINDS, r[0]) by { assert r[0] in r; }
    }
  }

  lemma ShopReaders(k: nat, n: nat)
    requires k <= n
    ensures Endpoints(Shop(k, n).nodes, Shop(k, n).edges, QTY, In, IMPACT_KINDS) == Readers(n)[k..]
  {
    forall i: nat | i < n
      ensures Reader(i) in Shop(k, n).nodes
    {
      ShopNodes(k, n, Reader(i));
    }
    hide Endpoints;
    ColumnReaders(Shop(k, n).nodes, k, n, n);
  }

  // What can be next to a metric, and who can read: nothing else has a list that is walked.
  lemma ShopLinks(k: nat, n: nat, x: Node, dir: Direction, kinds: set<EdgeKind>, y: Node)
    requires k <= n && Linked(Shop(k, n).nodes, Shop(k, n).edges, x, dir, kinds, y)
    ensures dir == Out ==> y == ORDERS || y == QTY
    ensures dir == In && kinds == IMPACT_KINDS ==> x == QTY && y.kind == Metric
  {
    hide Shop;
    var e :| e in Shop(k, n).edges && e.kind in kinds && Near(e, dir) == x && Far(e, dir) == y;
    ShopEdges(k, n, e);
  }

  // A list holds no node twice.
  lemma TwoEntries(s: seq<Node>, x: Node, y: Node)
    requires Distinct(s) && forall z | z in s :: z == x || z == y
    ensures |s| <= 2
  {
    if |s| > 2 {
      FirstThree(s);
    }
  }

  lemma FirstThree(s: seq<Node>)
    requires |s| > 2 && Distinct(s)
    ensures s[0] in s && s[1] in s && s[2] in s && s[0] != s[1] && s[0] != s[2] && s[1] != s[2]
  {
  }

  lemma ShopList(k: nat, n: nat, x: Node)
    requires k <= n
    ensures Degree(Shop(k, n), x, Out, EXPLAIN_KINDS) <= 2
    ensures x != QTY ==> Degree(Shop(k, n), x, In, IMPACT_KINDS) == 0
  {
    hide Shop, Endpoints, Linked;
    var g := Shop(k, n);
    var rests := Endpoints(g.nodes, g.edges, x, Out, EXPLAIN_KINDS);
    forall y | y in rests
      ensures y == ORDERS || y == QTY
    {
      ShopLinks(k, n, x, Out, EXPLAIN_KINDS, y);
    }
    TwoEntries(rests, ORDERS, QTY);
    var moves := Endpoints(g.nodes, g.edges, x, In, IMPACT_KINDS);
    if moves != [] && x != QTY {
      assert moves[0] in moves;
      ShopLinks(k, n, x, In, IMPACT_KINDS, moves[0]);
    }
  }

  lemma ShopIsShort(k: nat, n: nat, most: nat)
    requires k <= n && most >= 2 && most >= n - k
    ensures ShortLists(Shop(k, n), most)
  {
    ShopReaders(k, n);
    assert Degree(Shop(k, n), QTY, In, IMPACT_KINDS) == n - k;
    hide Shop, Degree;
    forall x
      ensures Degree(Shop(k, n), x, Out, EXPLAIN_KINDS) <= 2
      ensures x != QTY ==> Degree(Shop(k, n), x, In, IMPACT_KINDS) == 0
    {
      ShopList(k, n, x);
    }
  }

  lemma OfKindStep(s: seq<Node>, kind: Kind)
    ensures OfKind(s, kind) ==
            if s == [] then [] else (if s[0].kind == kind then [s[0]] else []) + OfKind(s[1..], kind)
  {
  }

  lemma {:induction false} OfKindBoth(a: seq<Node>, b: seq<Node>, kind: Kind)
    ensures OfKind(a + b, kind) == OfKind(a, kind) + OfKind(b, kind)
  {
    hide OfKind;
    if a == [] {
      assert a + b == b;
      OfKindStep(a, kind);
    } else {
      assert (a + b)[1..] == a[1..] + b;
      OfKindBoth(a[1..], b, kind);
      OfKindStep(a, kind);
      OfKindStep(a + b, kind);
    }
  }

  lemma {:induction false} ReadersAreMetrics(n: nat)
    ensures OfKind(Readers(n), Metric) == Readers(n) && OfKind(Readers(n), Column) == []
  {
    if n > 0 {
      ReadersAreMetrics(n - 1);
      OneOfKind(Reader(n - 1));
      OfKindBoth(Readers(n - 1), [Reader(n - 1)], Metric);
      OfKindBoth(Readers(n - 1), [Reader(n - 1)], Column);
    }
  }

  lemma OneOfKind(x: Node)
    ensures OfKind([x], Metric) == (if x.kind == Metric then [x] else [])
    ensures OfKind([x], Column) == (if x.kind == Column then [x] else [])
  {
    assert [x][1..] == [];
  }

  lemma ShopCounts(k: nat, n: nat)
    requires k <= n
    ensures OfKind(Shop(k, n).nodes, Metric) == Readers(n) && OfKind(Shop(k, n).nodes, Column) == [QTY]
  {
    hide OfKind, Shop, Readers;
    ReadersAreMetrics(n);
    OneOfKind(ORDERS);
    OneOfKind(QTY);
    ShopKind(k, n, Metric);
    ShopKind(k, n, Column);
  }

  lemma ShopKind(k: nat, n: nat, kind: Kind)
    requires k <= n
    ensures OfKind(Shop(k, n).nodes, kind) == OfKind([ORDERS], kind) + OfKind(Readers(n), kind) + OfKind([QTY], kind)
  {
    hide OfKind, Readers;
    OfKindBoth([ORDERS] + Readers(n), [QTY], kind);
    OfKindBoth([ORDERS], Readers(n), kind);
  }

  // A metric that reads the column rests on it directly, for the list that says so is not cut.
  lemma ReaderRestsOnColumn(k: nat, n: nat, i: nat)
    requires k <= i < n
    ensures Distance(RestsOn(Shop(k, n)), Reader(i), QTY, 1)
  {
    hide Endpoints, Shop;
    var g, x := Shop(k, n), Reader(i);
    var all := Endpoints(g.nodes, g.edges, x, Out, EXPLAIN_KINDS);
    var e := Edge(ReadsColumn, x, QTY);
    ShopEdges(k, n, e);
    ShopNodes(k, n, QTY);
    assert Near(e, Out) == x && Far(e, Out) == QTY;
    assert Linked(g.nodes, g.edges, x, Out, EXPLAIN_KINDS, QTY);
    ShopList(k, n, x);
    assert Neighbors(g, x, Out, EXPLAIN_KINDS) == all;
    assert QTY in RestsOn(g)(x);
    assert Reach(RestsOn(g), x, x, 0);
  }

  // However far the column's readers are followed, only those the list returns are met.
  lemma {:induction false} ReachFromColumn(n: nat, x: Node, d: nat)
    requires n >= NEIGHBOR_LIMIT && Reach(FeedsInto(Shop(0, n)), QTY, x, d)
    ensures x == QTY || x in Readers(NEIGHBOR_LIMIT)
    decreases d
  {
    if d > 0 {
      var g := Shop(0, n);
      var z :| Reach(FeedsInto(g), QTY, z, d - 1) && (d == 1 || z.kind == Metric) && x in FeedsInto(g)(z);
      FedByColumn(n, z, x);
    }
  }

  lemma FedByColumn(n: nat, z: Node, x: Node)
    requires n >= NEIGHBOR_LIMIT && x in FeedsInto(Shop(0, n))(z)
    ensures x in Readers(NEIGHBOR_LIMIT)
  {
    hide Shop, Endpoints, Readers;
    var g := Shop(0, n);
    var all := Endpoints(g.nodes, g.edges, z, In, IMPACT_KINDS);
    assert x in all[..Min(NEIGHBOR_LIMIT, |all|)] && x in all;
    ShopLinks(0, n, z, In, IMPACT_KINDS, x);
    ShopReaders(0, n);
    assert Readers(n)[0..][..NEIGHBOR_LIMIT] == Readers(NEIGHBOR_LIMIT);
  }

  /** With one reader more than the neighbour limit, a metric rests on the column directly, and no depth of
    * impact analysis ever reports it.
    */
  lemma CutListsLoseImpact(maxDepth: int)
    ensures var g, lost := Shop(0, NEIGHBOR_LIMIT + 1), Reader(NEIGHBOR_LIMIT);
            && Explains(g, lost.name, maxDepth, QTY, 1)
            && forall h: nat :: !Moves(g, QTY.name, maxDepth, lost.name, h)
  {
    hide Reach, Shop;
    var n := NEIGHBOR_LIMIT + 1;
    var g, lost := Shop(0, n), Reader(NEIGHBOR_LIMIT);
    ReaderRestsOnColumn(0, n, NEIGHBOR_LIMIT);
    ReaderIsNew(NEIGHBOR_LIMIT);
    forall h: nat
      ensures !Reach(FeedsInto(g), QTY, lost, h)
    {
      if Reach(FeedsInto(g), QTY, lost, h) {
        ReachFromColumn(n, lost, h);
      }
    }
  }

  /** A column with one reader more than the neighbour limit: Explain reports what Impact does not. */
  lemma StarIsNotDual()
    ensures var g := Shop(0, NEIGHBOR_LIMIT + 1);
            Typed(g) && ShortLists(g, NEIGHBOR_LIMIT + 1) && FewNodes(g, LIST_LIMIT) && !Dual(g)
  {
    hide Shop, Readers, OfKind, ShortLists, Typed, Exists, Moves, Explains;
    var n := NEIGHBOR_LIMIT + 1;
    var g, lost := Shop(0, n), Reader(NEIGHBOR_LIMIT);
    CutListsLoseImpact(1);
    ShopIsTyped(0, n);
    ShopIsShort(0, n, n);
    ShopCounts(0, n);
    ShopNodes(0, n, lost);
    ExistsMeans(g, lost);
    assert ExplainReports(g, lost.name, 1, QTY.name, 1) && !ImpactReports(g, QTY.name, 1, lost.name, 1);
  }

  /** One metric more than the listing limit, the last of which reads the column: Impact reports what Explain
    * does not.
    */
  lemma CrowdIsNotDual(n: nat)
    requires n == LIST_LIMIT
    ensures var g := Shop(n, n + 1);
            Typed(g) && ShortLists(g, NEIGHBOR_LIMIT) && FewNodes(g, n + 1) && !Dual(g)
  {
    hide Shop, Readers, OfKind, Degree, Typed, ShortLists, Moves, Explains, Exists, Endpoints;
    var g, lost := Shop(n, n + 1), Reader(n);
    ShopIsTyped(n, n + 1);
    ShopIsShort(n, n + 1, NEIGHBOR_LIMIT);
    ShopCounts(n, n + 1);
    ShopReaders(n, n + 1);
    assert Readers(n + 1)[n..] == [lost];
    LostIsMoved(g, lost);
    UnlistedReader(n);
    assert ImpactReports(g, QTY.name, 1, lost.name, 1) && !ExplainReports(g, lost.name, 1, QTY.name, 1);
  }

  lemma UnlistedReader(n: nat)
    requires n == LIST_LIMIT
    ensures !Exists(Shop(n, n + 1), Reader(n)) && Exists(Shop(n, n + 1), QTY)
  {
    ShopCounts(n, n + 1);
    var all := OfKind(Shop(n, n + 1).nodes, Metric);
    hide Shop, OfKind;
    assert all[..n] == Readers(n);
    ReaderIsNew(n);
    assert [QTY][..1] == [QTY];
  }

  lemma LostIsMoved(g: Graph, lost: Node)
    requires Endpoints(g.nodes, g.edges, QTY, In, IMPACT_KINDS) == [lost] && lost.kind == Metric
    ensures Moves(g, QTY.name, 1, lost.name, 1)
  {
    assert Neighbors(g, QTY, In, IMPACT_KINDS) == [lost];
    assert lost in FeedsInto(g)(QTY);
    assert Reach(FeedsInto(g), QTY, QTY, 0);
    assert Reach(FeedsInto(g), QTY, lost, 1);
    assert !Reach(FeedsInto(g), QTY, lost, 0);
  }
}
