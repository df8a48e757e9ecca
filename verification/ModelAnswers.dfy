/** What Explain and Impact answer, told in the words of the model alone. */
module ModelAnswers {
  import opened Graph
  import opened GraphBuild
  import opened Identifiers

  // The first entity of this name is the i-th, and keeps its rows in this table.
  predicate StoredBy(entities: seq<EntityDef>, name: string, table: string, i: nat) {
    && i < |entities| && entities[i].name == name && entities[i].table == table
    && forall j | 0 <= j < i :: entities[j].name != name
  }

  ghost predicate StoredIn(m: Model, entity: string, table: string) {
    exists i: nat :: StoredBy(m.entities, entity, table, i)
  }

  // A word that an expression on the entity uses as more than a keyword.
  ghost predicate UsedOn(m: Model, entity: string, w: string) {
    exists t :: t in m.metrics && t.entity == entity && IsWordOf(t.expr, w) && Lower(w) !in SQL_WORDS
  }

  // The model says that the entity has this column: as a key of its own or of a join, as a dimension, or in use.
  ghost predicate HasColumn(m: Model, entity: string, w: string) {
    || (exists e :: e in m.entities && e.name == entity && w in e.primaryKey)
    || (exists j :: j in m.joins && j.source == entity && w in j.sourceKey)
    || (exists j :: j in m.joins && j.target == entity && w in j.targetKey)
    || (exists d :: d in m.dimensions && d == DimensionDef(d.name, entity, w))
    || UsedOn(m, entity, w)
  }

  // The text is more than white space.
  predicate Says(text: string) {
    !AllBlank(text)
  }

  ghost predicate Reads(m: Model, entity: string, expr: string, column: string) {
    && entity != "" && Says(expr)
    && exists table, w :: StoredIn(m, entity, table) && table != "" && column == table + "." + w
                       && IsWordOf(expr, w) && HasColumn(m, entity, w)
  }

  // The metric transforms the other one, or computes with it.
  ghost predicate ComputedFrom(m: Model, t: MetricDef, ref: string) {
    || (Says(t.baseMetric) && ref == Trim(t.baseMetric))
    || (!Says(t.baseMetric) && Says(t.formula) && IsWordOf(t.formula, ref) && ref != t.name)
  }

  /** What the definitions of a metric name themselves: the entity it is measured on, the columns its expression
    * reads there, and the metrics it derives from.
    */
  ghost predicate Needs(m: Model, metric: string, n: Node) {
    match n.kind
    case Entity =>
      && n.name != "" && (exists e :: e in m.entities && e.name == n.name)
      && exists t :: t in m.metrics && t.name == metric && t.entity == n.name
    case Column => exists t :: t in m.metrics && t.name == metric && Reads(m, t.entity, t.expr, n.name)
    case Metric =>
      && (exists u :: u in m.metrics && u.name == n.name)
      && exists t :: t in m.metrics && t.name == metric && ComputedFrom(m, t, n.name)
    case Dimension => false
  }

  lemma {:induction false} TableIsStored(entities: seq<EntityDef>, name: string, table: string)
    requires table != ""
    ensures TableOf(entities, name) == table <==>
              exists i: nat :: StoredBy(entities, name, table, i)
  {
    if entities != [] && entities[0].name != name {
      var rest := entities[1..];
      TableIsStored(rest, name, table);
      if i: nat :| StoredBy(rest, name, table, i) {
        assert StoredBy(entities, name, table, i + 1);
      }
      if i: nat :| StoredBy(entities, name, table, i) {
        assert StoredBy(rest, name, table, i - 1);
      }
    } else if entities != [] && entities[0].table == table {
      assert StoredBy(entities, name, table, 0);
    }
  }

  lemma {:induction false} SaysIsTrimmed(s: string)
    ensures Says(s) <==> Trim(s) != ""
  {
    var a, b := TrimExactly(s);
    if Trim(s) != "" {
      assert s[|a|] == Trim(s)[0];
    } else {
      assert s == a + b;
    }
  }

  lemma ColumnIsKnown(m: Model, entity: string, w: string)
    ensures KnownColumn(m, entity, w) <==> HasColumn(m, entity, w)
  {
    hide SplitIdents, Lower, SQL_WORDS, IsWordOf;
    forall t: MetricDef
      ensures w in SplitIdents(t.expr) <==> IsWordOf(t.expr, w)
    {
      WordsExactly(t.expr, w);
    }
  }

  lemma ReadsIsPhysical(m: Model, entity: string, expr: string, column: string)
    ensures ReadsPhysical(m, entity, expr, column) <==> Reads(m, entity, expr, column)
  {
    hide SplitIdents, KnownColumn, HasColumn, IsWordOf, Says, Trim;
    SaysIsTrimmed(expr);
    forall w: string
      ensures w in SplitIdents(expr) && KnownColumn(m, entity, w) <==> IsWordOf(expr, w) && HasColumn(m, entity, w)
    {
      WordsExactly(expr, w);
      ColumnIsKnown(m, entity, w);
    }
    forall table | table != ""
      ensures TableOf(m.entities, entity) == table <==> StoredIn(m, entity, table)
    {
      TableIsStored(m.entities, entity, table);
    }
  }

  lemma DerivesIsComputed(m: Model, t: MetricDef, ref: string)
    ensures (exists u :: u in m.metrics && u.name == ref) && DerivesFromMetric(m, t, ref) <==>
            (exists u :: u in m.metrics && u.name == ref) && ComputedFrom(m, t, ref)
  {
    hide SplitIdents, IsWordOf, Says, Trim;
    SaysIsTrimmed(t.baseMetric);
    SaysIsTrimmed(t.formula);
    WordsExactly(t.formula, ref);
  }

  lemma NeedsMeans(m: Model, metric: string, n: Node)
    ensures n.kind == Column ==>
              (Needs(m, metric, n) <==> exists t :: t in m.metrics && t.name == metric
                                                 && ReadsPhysical(m, t.entity, t.expr, n.name))
    ensures n.kind == Metric ==>
              (Needs(m, metric, n) <==>
                 && (exists u :: u in m.metrics && u.name == n.name)
                 && exists t :: t in m.metrics && t.name == metric && DerivesFromMetric(m, t, n.name))
  {
    hide ReadsPhysical, Reads, DerivesFromMetric, ComputedFrom;
    forall t: MetricDef
      ensures ReadsPhysical(m, t.entity, t.expr, n.name) <==> Reads(m, t.entity, t.expr, n.name)
      ensures (exists u :: u in m.metrics && u.name == n.name) ==>
                (DerivesFromMetric(m, t, n.name) <==> ComputedFrom(m, t, n.name))
    {
      ReadsIsPhysical(m, t.entity, t.expr, n.name);
      DerivesIsComputed(m, t, n.name);
    }
  }

  // d definitions lead from the metric to the node.
  ghost predicate Chain(m: Model, metric: string, n: Node, d: nat)
    decreases d
  {
    if d == 0 then n == Node(Metric, metric)
    else exists z :: Chain(m, metric, Node(Metric, z), d - 1) && Needs(m, z, n)
  }

  ghost predicate ShortestChain(m: Model, metric: string, n: Node, d: nat) {
    Chain(m, metric, n, d) && forall k: nat | k < d :: !Chain(m, metric, n, k)
  }

  lemma NeedIsDeclared(m: Model, metric: string, n: Node)
    ensures Needs(m, metric, n) <==>
            DeclaredNode(m, n) && exists k :: k in EXPLAIN_KINDS && Declared(m, Edge(k, Node(Metric, metric), n))
  {
    hide ReadsPhysical, DerivesFromMetric, Reads, ComputedFrom;
    NeedsMeans(m, metric, n);
    var from := Node(Metric, metric);
    if Needs(m, metric, n) {
      var k := match n.kind case Entity => MeasuredOn case Column => ReadsColumn case _ => DerivesFrom;
      NeededEdge(m, metric, n);
      assert k in EXPLAIN_KINDS && Declared(m, Edge(k, from, n));
    }
    if DeclaredNode(m, n) {
      forall k | k in EXPLAIN_KINDS && Declared(m, Edge(k, from, n))
        ensures Needs(m, metric, n)
      {
        EdgeIsNeed(m, metric, n, k);
      }
    }
  }

  lemma NeededEdge(m: Model, metric: string, n: Node)
    requires Needs(m, metric, n)
    ensures DeclaredNode(m, n)
    ensures Declared(m, Edge(match n.kind case Entity => MeasuredOn case Column => ReadsColumn case _ => DerivesFrom,
                             Node(Metric, metric), n))
  {
    hide ReadsPhysical, DerivesFromMetric, Reads, ComputedFrom;
    NeedsMeans(m, metric, n);
    var from := Node(Metric, metric);
    match n.kind
    case Entity =>
      var t :| t in m.metrics && t.name == metric && t.entity == n.name;
      assert MetricEdge(m, t, Edge(MeasuredOn, from, n));
    case Column =>
      var t :| t in m.metrics && t.name == metric && ReadsPhysical(m, t.entity, t.expr, n.name);
      assert MetricEdge(m, t, Edge(ReadsColumn, from, n));
    case Metric =>
      var t :| t in m.metrics && t.name == metric && DerivesFromMetric(m, t, n.name);
      assert DerivationEdge(m, t, Edge(DerivesFrom, from, n));
  }

  lemma EdgeIsNeed(m: Model, metric: string, n: Node, k: EdgeKind)
    requires k in EXPLAIN_KINDS && DeclaredNode(m, n) && Declared(m, Edge(k, Node(Metric, metric), n))
    ensures Needs(m, metric, n)
  {
    hide ReadsPhysical, DerivesFromMetric, Reads, ComputedFrom;
    NeedsMeans(m, metric, n);
  }

  // In the graph of a model, a metric's uncut neighbours are what its definitions name.
  lemma NeighborIsNeeded(g: Graph, m: Model, metric: string, n: Node)
    requires OfModel(g, m) && ShortLists(g, NEIGHBOR_LIMIT) && Node(Metric, metric) in g.nodes
    ensures n in RestsOn(g)(Node(Metric, metric)) <==> Needs(m, metric, n)
  {
    hide Needs, Declared, DeclaredNode, EXPLAIN_KINDS;
    var from := Node(Metric, metric);
    NeighborIsLinked(g, from, Out, EXPLAIN_KINDS, n);
    NeedIsDeclared(m, metric, n);
    if Linked(g.nodes, g.edges, from, Out, EXPLAIN_KINDS, n) {
      var e :| e in g.edges && e.kind in EXPLAIN_KINDS && e.source == from && e.target == n;
      assert e == Edge(e.kind, from, n);
    }
    if k :| k in EXPLAIN_KINDS && Declared(m, Edge(k, from, n)) {
      var e := Edge(k, from, n);
      assert e in g.edges && Near(e, Out) == from && Far(e, Out) == n;
    }
  }

  lemma {:induction false} ReachIsChain(g: Graph, m: Model, metric: string, n: Node, d: nat)
    requires OfModel(g, m) && ShortLists(g, NEIGHBOR_LIMIT) && Node(Metric, metric) in g.nodes
    ensures Reach(RestsOn(g), Node(Metric, metric), n, d) <==> Chain(m, metric, n, d)
    decreases d
  {
    hide OfModel, ShortLists, RestsOn, Needs;
    var adj, start := RestsOn(g), Node(Metric, metric);
    if d > 0 {
      forall z: Node
        ensures Reach(adj, start, z, d - 1) <==> Chain(m, metric, z, d - 1)
        ensures Reach(adj, start, z, d - 1) && z.kind == Metric ==> (n in adj(z) <==> Needs(m, z.name, n))
      {
        ReachIsChain(g, m, metric, z, d - 1);
        if Reach(adj, start, z, d - 1) && z.kind == Metric {
          if d > 1 {
            ReachedIsNode(g, adj, start, z, d - 1);
          }
          assert z == Node(Metric, z.name);
          NeighborIsNeeded(g, m, z.name, n);
        }
      }
      if Reach(adj, start, n, d) {
        var z :| Reach(adj, start, z, d - 1) && (d == 1 || z.kind == Metric) && n in adj(z);
        assert z == Node(Metric, z.name);
        assert Chain(m, metric, Node(Metric, z.name), d - 1) && Needs(m, z.name, n);
      }
      if Chain(m, metric, n, d) {
        var z :| Chain(m, metric, Node(Metric, z), d - 1) && Needs(m, z, n);
        assert Reach(adj, start, Node(Metric, z), d - 1) && n in adj(Node(Metric, z));
      }
    }
  }

  /** Main result: in the graph of a model whose walked lists are not cut, Explain of a metric reports a node at a
    * depth exactly when that many definitions lead from the metric to it and no fewer do, up to the depth asked for,
    * or four when none is asked for; and Impact of a column reports a metric at so many hops exactly when that many
    * definitions lead from the metric to the column and no fewer do.
    */
  lemma AnswersAreTheModels(g: Graph, m: Model, metric: string, n: Node, maxDepth: int, d: nat)
    requires OfModel(g, m) && ShortLists(g, NEIGHBOR_LIMIT) && DeclaredNode(m, Node(Metric, metric))
    ensures var asked := if maxDepth > 0 then maxDepth else 4;
            && (Explains(g, metric, maxDepth, n, d) <==> 1 <= d <= asked && ShortestChain(m, metric, n, d))
            && (n.kind == Column && DeclaredNode(m, n) ==>
                  (Moves(g, n.name, maxDepth, metric, d) <==> 1 <= d <= asked && ShortestChain(m, metric, n, d)))
  {
    hide ShortLists, Declared, DeclaredNode, RestsOn, Reach, Chain;
    assert Node(Metric, metric) in g.nodes;
    forall k: nat
      ensures Reach(RestsOn(g), Node(Metric, metric), n, k) <==> Chain(m, metric, n, k)
    {
      ReachIsChain(g, m, metric, n, k);
    }
    if n.kind == Column && DeclaredNode(m, n) {
      assert n == Node(Column, n.name);
      GraphOfModelIsTyped(g, m);
      ImpactIsExplainReversed(g, metric, n.name, maxDepth, d);
    }
  }
}
