/** Projecting a semantic model into the derivation graph: which nodes and edges it declares. */
module GraphBuild {
  import opened Graph

  datatype EntityDef = EntityDef(name: string, table: string, primaryKey: seq<string>)

  datatype JoinDef = JoinDef(source: string, target: string, sourceKey: seq<string>, targetKey: seq<string>)

  datatype DimensionDef = DimensionDef(name: string, entity: string, column: string)

  datatype MetricDef = MetricDef(name: string, entity: string, expr: string, formula: string, baseMetric: string)

  datatype Model = Model(
    entities: seq<EntityDef>, joins: seq<JoinDef>, dimensions: seq<DimensionDef>, metrics: seq<MetricDef>)

  // ---------------------------------------------------------------- words of an expression

  predicate IdentChar(c: char) {
    c == '_' || '0' <= c <= '9' || 'a' <= c <= 'z' || 'A' <= c <= 'Z' || c as int > 127
  }

  // The maximal identifier-shaped runs, in order.
  function SplitIdents(s: string): seq<string> {
    Runs(s, "")
  }

  function Runs(s: string, run: string): seq<string> {
    if s == [] then if run == "" then [] else [run]
    else if IdentChar(s[0]) then Runs(s[1..], run + [s[0]])
    else (if run == "" then [] else [run]) + Runs(s[1..], "")
  }

  // Two letters outside ASCII have a small letter of ASCII; no other lower case matters to the words below.
  function LowerChar(c: char): char {
    if 'A' <= c <= 'Z' then c - 'A' + 'a' else if c == '\U{130}' then 'i' else if c == '\U{212a}' then 'k' else c
  }

  function Lower(s: string): string {
    seq(|s|, i requires 0 <= i < |s| => LowerChar(s[i]))
  }

  const SQL_WORDS := {
    "nullif", "coalesce", "case", "when", "then", "else", "end", "cast", "as", "and", "or", "not", "null",
    "distinct", "count", "sum", "avg", "min", "max", "abs", "round"}

  // White space as Unicode has it.
  predicate Blank(c: char) {
    || '\t' <= c <= '\r' || c == ' ' || c == '\U{85}' || c == '\U{a0}' || c == '\U{1680}'
    || '\U{2000}' <= c <= '\U{200a}' || c == '\U{2028}' || c == '\U{2029}' || c == '\U{202f}' || c == '\U{205f}'
    || c == '\U{3000}'
  }

  function TrimLeft(s: string): string {
    if s != [] && Blank(s[0]) then TrimLeft(s[1..]) else s
  }

  function TrimRight(s: string): string {
    if s != [] && Blank(s[|s| - 1]) then TrimRight(s[..|s| - 1]) else s
  }

  function Trim(s: string): string {
    TrimRight(TrimLeft(s))
  }

  // ---------------------------------------------------------------- what the model declares

  // The table of the first entity of this name, "" when there is none.
  function TableOf(entities: seq<EntityDef>, name: string): string {
    if entities == [] then ""
    else if entities[0].name == name then entities[0].table
    else TableOf(entities[1..], name)
  }

  predicate MetricMentions(t: MetricDef, entity: string, w: string) {
    t.entity == entity && w in SplitIdents(t.expr) && Lower(w) !in SQL_WORDS
  }

  // The columns of an entity that the model itself mentions.
  ghost predicate KnownColumn(m: Model, entity: string, w: string) {
    || (exists e :: e in m.entities && e.name == entity && w in e.primaryKey)
    || (exists j :: j in m.joins && j.source == entity && w in j.sourceKey)
    || (exists j :: j in m.joins && j.target == entity && w in j.targetKey)
    || (exists d :: d in m.dimensions && d.entity == entity && d.column == w)
    || (exists t :: t in m.metrics && MetricMentions(t, entity, w))
  }

  // An expression on an entity reads this physical column.
  ghost predicate ReadsPhysical(m: Model, entity: string, expr: string, column: string) {
    var table := TableOf(m.entities, entity);
    && entity != "" && Trim(expr) != "" && table != ""
    && exists w :: w in SplitIdents(expr) && KnownColumn(m, entity, w) && column == table + "." + w
  }

  predicate DerivesFromMetric(m: Model, t: MetricDef, ref: string) {
    if Trim(t.baseMetric) != "" then ref == Trim(t.baseMetric)
    else
      && Trim(t.formula) != ""
      && ref != t.name && ref in SplitIdents(t.formula)
      && exists u :: u in m.metrics && u.name == ref
  }

  predicate JoinEdge(j: JoinDef, e: Edge) {
    e == Edge(JoinsTo, Node(Entity, j.source), Node(Entity, j.target))
  }

  ghost predicate DimensionEdge(m: Model, d: DimensionDef, e: Edge) {
    var from := Node(Dimension, d.name);
    || (d.entity != "" && e == Edge(GroupsBy, from, Node(Entity, d.entity)))
    || (e == Edge(ReadsColumn, from, Node(Column, e.target.name))
        && ReadsPhysical(m, d.entity, d.column, e.target.name))
  }

  ghost predicate MetricEdge(m: Model, t: MetricDef, e: Edge) {
    var from := Node(Metric, t.name);
    || (t.entity != "" && e == Edge(MeasuredOn, from, Node(Entity, t.entity)))
    || (e == Edge(ReadsColumn, from, Node(Column, e.target.name)) && ReadsPhysical(m, t.entity, t.expr, e.target.name))
  }

  ghost predicate DerivationEdge(m: Model, t: MetricDef, e: Edge) {
    e == Edge(DerivesFrom, Node(Metric, t.name), Node(Metric, e.target.name)) && DerivesFromMetric(m, t, e.target.name)
  }

  /** The edges the model states, each traceable to one of its declarations. */
  ghost predicate Declared(m: Model, e: Edge) {
    || (exists j | j in m.joins :: JoinEdge(j, e))
    || (exists d | d in m.dimensions :: DimensionEdge(m, d, e))
    || (exists t | t in m.metrics :: MetricEdge(m, t, e))
    || (exists t | t in m.metrics :: DerivationEdge(m, t, e))
  }

  lemma DeclaredIsTyped(m: Model, e: Edge)
    requires Declared(m, e)
    ensures WellTyped(e)
  {
  }

  // ---------------------------------------------------------------- the builder

  method ColumnsOf(m: Model, entity: string) returns (out: set<string>)
    ensures forall w :: w in out <==> KnownColumn(m, entity, w)
  {
    out := {};
    for i := 0 to |m.entities|
      invariant forall w :: w in out <==>
                exists k :: 0 <= k < i && m.entities[k].name == entity && w in m.entities[k].primaryKey
    {
      if m.entities[i].name == entity {
        out := out + (set w | w in m.entities[i].primaryKey);
      }
    }
    ghost var fromEntities := out;
    for i := 0 to |m.joins|
      invariant forall w :: w in out <==>
                || w in fromEntities
                || (exists k :: 0 <= k < i && m.joins[k].source == entity && w in m.joins[k].sourceKey)
                || (exists k :: 0 <= k < i && m.joins[k].target == entity && w in m.joins[k].targetKey)
    {
      if m.joins[i].source == entity {
        out := out + (set w | w in m.joins[i].sourceKey);
      }
      if m.joins[i].target == entity {
        out := out + (set w | w in m.joins[i].targetKey);
      }
    }
    ghost var fromJoins := out;
    for i := 0 to |m.dimensions|
      invariant forall w :: w in out <==>
                || w in fromJoins
                || (exists k :: 0 <= k < i && m.dimensions[k].entity == entity && m.dimensions[k].column == w)
    {
      if m.dimensions[i].entity == entity {
        out := out + {m.dimensions[i].column};
      }
    }
    ghost var fromDimensions := out;
    for i := 0 to |m.metrics|
      invariant forall w :: w in out <==>
                || w in fromDimensions
                || (exists k :: 0 <= k < i && MetricMentions(m.metrics[k], entity, w))
    {
      var t := m.metrics[i];
      if t.entity == entity && t.expr != "" {
        out := out + (set w | w in SplitIdents(t.expr) && Lower(w) !in SQL_WORDS);
      }
    }
  }

  class Builder {
    var nodes: seq<Node>
    var edges: seq<Edge>
    var seen: set<Node>

    ghost predicate Valid()
      reads this
    {
      (forall n :: n in seen <==> n in nodes) && Distinct(nodes)
    }

    constructor ()
      ensures Valid() && nodes == [] && edges == []
    {
      nodes, edges, seen := [], [], {};
    }

    // A node is written once, whoever mentions it first.
    method AddNode(n: Node)
      requires Valid()
      modifies this
      ensures Valid() && edges == old(edges)
      ensures forall x :: x in nodes <==> x in old(nodes) || x == n
    {
      if n in seen {
        return;
      }
      seen := seen + {n};
      nodes := nodes + [n];
    }

    method AddEdge(kind: EdgeKind, source: Node, target: Node)
      requires Valid()
      modifies this
      ensures Valid() && nodes == old(nodes)
      ensures forall e :: e in edges <==> e in old(edges) || e == Edge(kind, source, target)
    {
      edges := edges + [Edge(kind, source, target)];
    }

    // One edge, and one node, per physical column the expression reads.
    method AddColumns(m: Model, entity: string, expr: string, source: Node)
      requires Valid()
      modifies this
      ensures Valid()
      ensures forall e :: e in edges <==>
                || e in old(edges)
                || (e == Edge(ReadsColumn, source, Node(Column, e.target.name))
                    && ReadsPhysical(m, entity, expr, e.target.name))
      ensures forall n :: n in nodes <==>
                || n in old(nodes)
                || (n.kind == Column && ReadsPhysical(m, entity, expr, n.name))
    {
      if entity == "" || Trim(expr) == "" {
        return;
      }
      var table := TableOf(m.entities, entity);
      if table == "" {
        return;
      }
      var known := ColumnsOf(m, entity);
      var words := SplitIdents(expr);
      for i := 0 to |words|
        invariant Valid()
        invariant forall e :: e in edges <==>
                  || e in old(edges)
                  || (e == Edge(ReadsColumn, source, Node(Column, e.target.name))
                      && exists k :: 0 <= k < i && words[k] in known && e.target.name == table + "." + words[k])
        invariant forall n :: n in nodes <==>
                  || n in old(nodes)
                  || (n.kind == Column
                      && exists k :: 0 <= k < i && words[k] in known && n.name == table + "." + words[k])
      {
        var w := words[i];
        if w !in known {
          continue;
        }
        var column := Node(Column, table + "." + w);
        AddNode(column);
        AddEdge(ReadsColumn, source, column);
      }
    }
  }

  /** The metrics a metric is computed from: its base metric, or the metrics its formula names. */
  method DerivedFrom(m: Model, t: MetricDef) returns (out: seq<string>)
    ensures forall ref :: ref in out <==> DerivesFromMetric(m, t, ref)
  {
    if Trim(t.baseMetric) != "" {
      return [Trim(t.baseMetric)];
    }
    if Trim(t.formula) == "" {
      return [];
    }
    var words := set w | w in SplitIdents(t.formula);
    out := [];
    for i := 0 to |m.metrics|
      invariant forall ref :: ref in out <==>
                ref != t.name && ref in words && exists k :: 0 <= k < i && m.metrics[k].name == ref
    {
      var name := m.metrics[i].name;
      if name != t.name && name in words {
        out := out + [name];
      }
    }
  }

  // ---------------------------------------------------------------- the projection

  ghost predicate DeclaredNode(m: Model, n: Node) {
    match n.kind
    case Entity => exists e :: e in m.entities && e.name == n.name
    case Dimension => exists d :: d in m.dimensions && d.name == n.name
    case Metric => exists t :: t in m.metrics && t.name == n.name
    case Column =>
      || (exists d :: d in m.dimensions && ReadsPhysical(m, d.entity, d.column, n.name))
      || (exists t :: t in m.metrics && ReadsPhysical(m, t.entity, t.expr, n.name))
  }

  /** The graph holds exactly what the model declares: nothing inferred, nothing lost, no node twice. */
  ghost predicate OfModel(g: Graph, m: Model) {
    && (forall e :: e in g.edges <==> Declared(m, e))
    && (forall n :: n in g.nodes <==> DeclaredNode(m, n))
    && Distinct(g.nodes)
  }

  method Build(m: Model) returns (g: Graph)
    ensures OfModel(g, m) && Typed(g)
  {
    var b := new Builder();
    BuildEntities(b, m);
    BuildDimensions(b, m);
    BuildMetrics(b, m);
    BuildDerivations(b, m);
    forall e | Declared(m, e)
      ensures WellTyped(e)
    {
      DeclaredIsTyped(m, e);
    }
    g := Graph(b.nodes, b.edges);
  }

  method BuildEntities(b: Builder, m: Model)
    requires b.Valid() && b.nodes == [] && b.edges == []
    modifies b
    ensures b.Valid()
    ensures forall e :: e in b.edges <==> exists j | j in m.joins :: JoinEdge(j, e)
    ensures forall n :: n in b.nodes <==> n.kind == Entity && exists d | d in m.entities :: d.name == n.name
  {
    for i := 0 to |m.entities|
      invariant b.Valid() && b.edges == []
      invariant forall n :: n in b.nodes <==> n.kind == Entity && exists k | 0 <= k < i :: m.entities[k].name == n.name
    {
      b.AddNode(Node(Entity, m.entities[i].name));
    }
    ghost var nodes := b.nodes;
    for i := 0 to |m.joins|
      invariant b.Valid() && b.nodes == nodes
      invariant forall e :: e in b.edges <==> exists k | 0 <= k < i :: JoinEdge(m.joins[k], e)
    {
      b.AddEdge(JoinsTo, Node(Entity, m.joins[i].source), Node(Entity, m.joins[i].target));
    }
  }

  ghost predicate DimensionNode(m: Model, d: DimensionDef, n: Node) {
    n == Node(Dimension, d.name) || (n.kind == Column && ReadsPhysical(m, d.entity, d.column, n.name))
  }

  ghost predicate MetricNode(m: Model, t: MetricDef, n: Node) {
    n == Node(Metric, t.name) || (n.kind == Column && ReadsPhysical(m, t.entity, t.expr, n.name))
  }

  method BuildDimensions(b: Builder, m: Model)
    requires b.Valid()
    modifies b
    ensures b.Valid()
    ensures forall e :: e in b.edges <==> e in old(b.edges) || exists d | d in m.dimensions :: DimensionEdge(m, d, e)
    ensures forall n :: n in b.nodes <==> n in old(b.nodes) || exists d | d in m.dimensions :: DimensionNode(m, d, n)
  {
    for i := 0 to |m.dimensions|
      invariant b.Valid()
      invariant forall e :: e in b.edges <==>
          e in old(b.edges) || exists k | 0 <= k < i :: DimensionEdge(m, m.dimensions[k], e)
      invariant forall n :: n in b.nodes <==>
          n in old(b.nodes) || exists k | 0 <= k < i :: DimensionNode(m, m.dimensions[k], n)
    {
      hide DimensionEdge, DimensionNode;
      BuildDimension(b, m, m.dimensions[i]);
    }
  }

  method BuildDimension(b: Builder, m: Model, d: DimensionDef)
    requires b.Valid()
    modifies b
    ensures b.Valid()
    ensures forall e :: e in b.edges <==> e in old(b.edges) || DimensionEdge(m, d, e)
    ensures forall n :: n in b.nodes <==> n in old(b.nodes) || DimensionNode(m, d, n)
  {
    hide ReadsPhysical;
    b.AddNode(Node(Dimension, d.name));
    if d.entity != "" {
      b.AddEdge(GroupsBy, Node(Dimension, d.name), Node(Entity, d.entity));
    }
    b.AddColumns(m, d.entity, d.column, Node(Dimension, d.name));
  }

  method BuildMetrics(b: Builder, m: Model)
    requires b.Valid()
    modifies b
    ensures b.Valid()
    ensures forall e :: e in b.edges <==> e in old(b.edges) || exists t | t in m.metrics :: MetricEdge(m, t, e)
    ensures forall n :: n in b.nodes <==> n in old(b.nodes) || exists t | t in m.metrics :: MetricNode(m, t, n)
  {
    for i := 0 to |m.metrics|
      invariant b.Valid()
      invariant forall e :: e in b.edges <==>
          e in old(b.edges) || exists k | 0 <= k < i :: MetricEdge(m, m.metrics[k], e)
      invariant forall n :: n in b.nodes <==>
          n in old(b.nodes) || exists k | 0 <= k < i :: MetricNode(m, m.metrics[k], n)
    {
      hide MetricEdge, MetricNode;
      BuildMetric(b, m, m.metrics[i]);
    }
  }

  method BuildMetric(b: Builder, m: Model, t: MetricDef)
    requires b.Valid()
    modifies b
    ensures b.Valid()
    ensures forall e :: e in b.edges <==> e in old(b.edges) || MetricEdge(m, t, e)
    ensures forall n :: n in b.nodes <==> n in old(b.nodes) || MetricNode(m, t, n)
  {
    hide ReadsPhysical;
    b.AddNode(Node(Metric, t.name));
    if t.entity != "" {
      b.AddEdge(MeasuredOn, Node(Metric, t.name), Node(Entity, t.entity));
    }
    b.AddColumns(m, t.entity, t.expr, Node(Metric, t.name));
  }

  method BuildDerivations(b: Builder, m: Model)
    requires b.Valid()
    modifies b
    ensures b.Valid() && b.nodes == old(b.nodes)
    ensures forall e :: e in b.edges <==> e in old(b.edges) || exists t | t in m.metrics :: DerivationEdge(m, t, e)
  {
    for i := 0 to |m.metrics|
      invariant b.Valid() && b.nodes == old(b.nodes)
      invariant forall e :: e in b.edges <==>
          e in old(b.edges) || exists k | 0 <= k < i :: DerivationEdge(m, m.metrics[k], e)
    {
      hide DerivesFromMetric;
      var t := m.metrics[i];
      var refs := DerivedFrom(m, t);
      ghost var edges := b.edges;
      for j := 0 to |refs|
        invariant b.Valid() && b.nodes == old(b.nodes)
        invariant forall e :: e in b.edges <==>
            e in edges || exists k | 0 <= k < j :: e == Edge(DerivesFrom, Node(Metric, t.name), Node(Metric, refs[k]))
      {
        b.AddEdge(DerivesFrom, Node(Metric, t.name), Node(Metric, refs[j]));
      }
      forall e
        ensures DerivationEdge(m, t, e) <==>
                  exists k | 0 <= k < |refs| :: e == Edge(DerivesFrom, Node(Metric, t.name), Node(Metric, refs[k]))
      {
        if DerivationEdge(m, t, e) {
          assert e.target.name in refs;
        }
      }
    }
  }

  // ---------------------------------------------------------------- the limits over the graphs of models

  // n metrics on one entity: k counts, and sums of one column.
  function ShopModel(k: nat, n: nat): Model {
    Model([EntityDef("orders", "orders", [])], [], [],
          seq(n, i requires 0 <= i < n =>
            MetricDef(Reader(i).name, "orders", if i < k then "count(*)" else "qty", "", "")))
  }

  lemma CountReadsNothing()
    ensures SplitIdents("count(*)") == ["count"] && Lower("count") in SQL_WORDS
  {
    RunOfWord("count", "(*)", "");
    assert "count" + "(*)" == "count(*)" && "" + "count" == "count";
    assert "(*)"[1..] == "*)" && "*)"[1..] == ")" && ")"[1..] == "";
    assert Lower("count") == "count";
  }

  lemma QtyIsAWord()
    ensures SplitIdents("qty") == ["qty"] && Lower("qty") !in SQL_WORDS
  {
    RunOfWord("qty", "", "");
    assert "qty" + "" == "qty" && "" + "qty" == "qty";
    assert Lower("qty") == "qty";
  }

  // A word is read into the run at hand.
  lemma {:induction false} RunOfWord(word: string, rest: string, run: string)
    requires forall c | c in word :: IdentChar(c)
    ensures Runs(word + rest, run) == Runs(rest, run + word)
    decreases |word|
  {
    if word == "" {
      assert word + rest == rest && run + word == run;
    } else {
      assert word[0] in word && (word + rest)[1..] == word[1..] + rest;
      RunOfWord(word[1..], rest, run + [word[0]]);
      assert run + [word[0]] + word[1..] == run + word;
    }
  }

  lemma ShopKnows(k: nat, n: nat, w: string)
    requires k < n
    ensures KnownColumn(ShopModel(k, n), "orders", w) <==> w == "qty"
  {
    CountReadsNothing();
    QtyIsAWord();
    hide SplitIdents, Lower, SQL_WORDS;
    var m := ShopModel(k, n);
    assert m.metrics[n - 1].expr == "qty" && m.metrics[n - 1] in m.metrics;
    assert MetricMentions(m.metrics[n - 1], "orders", "qty");
    forall t | t in m.metrics
      ensures MetricMentions(t, "orders", w) ==> w == "qty"
    {
    }
  }

  // A metric of the shop reads the one column, or none.
  lemma ShopReads(k: nat, n: nat, expr: string, column: string)
    requires k < n && (expr == "qty" || expr == "count(*)")
    ensures ReadsPhysical(ShopModel(k, n), "orders", expr, column) <==> expr == "qty" && column == QTY.name
  {
    CountReadsNothing();
    QtyIsAWord();
    ShopKnows(k, n, "qty");
    ShopKnows(k, n, "count");
    TrimmedExpressions();
    hide SplitIdents, Lower, SQL_WORDS, KnownColumn, Trim;
    assert "orders" + "." + "qty" == QTY.name;
    assert TableOf(ShopModel(k, n).entities, "orders") == "orders";
  }

  lemma TrimmedExpressions()
    ensures Trim("qty") != "" && Trim("count(*)") != "" && Trim("") == ""
  {
  }

  lemma ShopDeclares(k: nat, n: nat, e: Edge)
    requires k < n
    ensures Declared(ShopModel(k, n), e) <==> ShopEdge(k, n, e)
  {
    var m := ShopModel(k, n);
    forall i: nat | i < n
      ensures m.metrics[i] in m.metrics
      ensures MetricEdge(m, m.metrics[i], e) <==>
              e == Edge(MeasuredOn, Reader(i), ORDERS) || (k <= i && e == Edge(ReadsColumn, Reader(i), QTY))
      ensures !DerivationEdge(m, m.metrics[i], e)
    {
      ShopReads(k, n, m.metrics[i].expr, e.target.name);
      TrimmedExpressions();
      hide ReadsPhysical, Trim;
    }
    hide MetricEdge, DerivationEdge;
    forall t | t in m.metrics
      ensures !DerivationEdge(m, t, e)
      ensures exists i: nat :: i < n && m.metrics[i] == t
    {
      var i: nat :| i < n && m.metrics[i] == t;
    }
  }

  lemma ShopMetrics(k: nat, n: nat, t: MetricDef)
    requires k < n && t in ShopModel(k, n).metrics
    ensures exists i: nat :: i < n && ShopModel(k, n).metrics[i] == t && t.name == Reader(i).name
    ensures t.entity == "orders" && (t.expr == "qty" || t.expr == "count(*)")
  {
    var m := ShopModel(k, n);
    var i: nat :| i < n && m.metrics[i] == t;
    assert t.name == Reader(i).name;
  }

  lemma ShopColumns(k: nat, n: nat, name: string)
    requires k < n
    ensures DeclaredNode(ShopModel(k, n), Node(Column, name)) <==> name == QTY.name
  {
    hide ReadsPhysical;
    var m := ShopModel(k, n);
    assert m.metrics[n - 1] in m.metrics && m.metrics[n - 1].expr == "qty" && m.metrics[n - 1].entity == "orders";
    ShopReads(k, n, "qty", name);
    hide ShopModel;
    forall t | t in m.metrics
      ensures ReadsPhysical(m, t.entity, t.expr, name) ==> name == QTY.name
    {
      ShopMetrics(k, n, t);
      ShopReads(k, n, t.expr, name);
    }
    assert m.dimensions == [] by { NoDimensions(k, n); }
  }

  lemma NoDimensions(k: nat, n: nat)
    ensures ShopModel(k, n).dimensions == []
  {
  }

  lemma ShopNames(k: nat, n: nat, x: Node)
    requires k < n
    ensures DeclaredNode(ShopModel(k, n), x) <==> x == ORDERS || x == QTY || exists i: nat :: i < n && x == Reader(i)
  {
    hide ReadsPhysical;
    var m := ShopModel(k, n);
    match x.kind
    case Entity => assert m.entities[0] in m.entities;
    case Dimension =>
    case Metric =>
      if i: nat :| i < n && x == Reader(i) {
        assert m.metrics[i].name == x.name && m.metrics[i] in m.metrics;
      }
      if t :| t in m.metrics && t.name == x.name {
        ShopMetrics(k, n, t);
        var i: nat :| i < n && m.metrics[i] == t && t.name == Reader(i).name;
        assert x == Reader(i);
      }
    case Column =>
      ShopColumns(k, n, x.name);
  }

  lemma ShopIsOfModel(k: nat, n: nat)
    requires k < n
    ensures OfModel(Shop(k, n), ShopModel(k, n))
  {
    hide Shop, Declared, DeclaredNode, ShopModel, ShopEdge;
    forall e
      ensures e in Shop(k, n).edges <==> Declared(ShopModel(k, n), e)
    {
      ShopEdges(k, n, e);
      ShopDeclares(k, n, e);
    }
    forall x
      ensures x in Shop(k, n).nodes <==> DeclaredNode(ShopModel(k, n), x)
    {
      ShopNodes(k, n, x);
      ShopNames(k, n, x);
    }
    ShopIsDistinct(k, n);
  }

  // Whatever the model, and in whatever order its graph is written.
  ghost predicate ModelsUpToAreDual(lists: nat, nodes: nat) {
    forall g, m | OfModel(g, m) && ShortLists(g, lists) && FewNodes(g, nodes) :: Dual(g)
  }

  /** Main result: over the graphs of all models with walked lists of at most so many entries and at most so many
    * metrics and columns, the answers of Explain and Impact are each other's reverse: with all of them listed, if
    * and only if the lists are within the neighbour limit, and with lists within that limit, if and only if the
    * metrics and columns are within the listing limit.
    */
  lemma ModelsAreDualExactly(n: nat, k: nat)
    ensures ModelsUpToAreDual(n, LIST_LIMIT) <==> n <= NEIGHBOR_LIMIT
    ensures ModelsUpToAreDual(NEIGHBOR_LIMIT, k) <==> k <= LIST_LIMIT
  {
    hide OfModel, Shop, ShopModel, Typed, ShortLists, FewNodes, Dual;
    if n > NEIGHBOR_LIMIT {
      var g := Shop(0, NEIGHBOR_LIMIT + 1);
      StarIsNotDual();
      LooserBounds(g, NEIGHBOR_LIMIT + 1, n);
      ShopIsOfModel(0, NEIGHBOR_LIMIT + 1);
    }
    if k > LIST_LIMIT {
      var g := Shop(LIST_LIMIT, LIST_LIMIT + 1);
      CrowdIsNotDual(LIST_LIMIT);
      LooserBounds(g, LIST_LIMIT + 1, k);
      ShopIsOfModel(LIST_LIMIT, LIST_LIMIT + 1);
    }
    forall g, m, a: nat, b: nat | OfModel(g, m) && ShortLists(g, a) && FewNodes(g, b) && a <= NEIGHBOR_LIMIT
                                && b <= LIST_LIMIT
      ensures Dual(g)
    {
      GraphOfModelIsTyped(g, m);
      WithinTheLimits(g, a, b);
    }
  }

  lemma GraphOfModelIsTyped(g: Graph, m: Model)
    requires OfModel(g, m)
    ensures Typed(g)
  {
    hide Declared;
    forall e | e in g.edges
      ensures WellTyped(e)
    {
      DeclaredIsTyped(m, e);
    }
  }
}
