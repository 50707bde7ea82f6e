/**
 * Knowledge-graph generation: entity i becomes node "entity_i"; each
 * relationship is resolved by label (first node with that label, whatever its
 * type); a relationship with an unresolved endpoint is dropped; the directed
 * graph keeps one edge per ordered (source, target) pair, the last
 * relationship written for a pair deciding its type.
 */
module GraphGenerator {
  import opened Wrappers
  import opened OntologyProcessor

  /** A node of the output: id, label and type. */
  datatype Node = Node(id: string, name: string, kind: string)

  /** An edge of the output: source id, target id and type. */
  datatype Edge = Edge(source: string, target: string, kind: string)

  datatype GraphData = GraphData(nodes: seq<Node>, edges: seq<Edge>)

  /** The ontology as received: either key may be missing. */
  datatype Payload = Payload(entities: Option<seq<Entity>>, relationships: Option<seq<Relationship>>)

  /** Edges of a directed graph: one type per ordered (source, target) pair. */
  type EdgeMap = map<(string, string), string>

  // ---------------------------------------------------------------------
  // Node ids
  // ---------------------------------------------------------------------

  function Digit(d: nat): char
    requires d < 10
  {
    "0123456789"[d]
  }

  /** `str(n)` for a natural number. */
  function DecimalString(n: nat): (s: string)
    ensures |s| >= 1
    ensures n < 10 <==> |s| == 1
  {
    if n < 10 then [Digit(n)] else DecimalString(n / 10) + [Digit(n % 10)]
  }

  /** Distinct numbers have distinct decimal renderings. */
  lemma {:induction false} DecimalStringInjective(a: nat, b: nat)
    requires DecimalString(a) == DecimalString(b)
    ensures a == b
  {
    if a >= 10 && b >= 10 {
      var sa, sb := DecimalString(a), DecimalString(b);
      assert sa[..|sa| - 1] == DecimalString(a / 10);
      assert sb[..|sb| - 1] == DecimalString(b / 10);
      DecimalStringInjective(a / 10, b / 10);
      assert Digit(a % 10) == sa[|sa| - 1] == Digit(b % 10);
    }
  }

  /** The id the i-th entity receives: `f"entity_{len(G.nodes)}"`. */
  function EntityId(i: nat): string
  {
    "entity_" + DecimalString(i)
  }

  lemma EntityIdInjective(i: nat, j: nat)
    requires EntityId(i) == EntityId(j)
    ensures i == j
  {
    var p := "entity_";
    assert DecimalString(i) == EntityId(i)[|p|..];
    assert DecimalString(j) == EntityId(j)[|p|..];
    DecimalStringInjective(i, j);
  }

  /** The nodes the first loop creates, in insertion order. */
  function NodesOf(entities: seq<Entity>): (nodes: seq<Node>)
    ensures |nodes| == |entities|
  {
    seq(|entities|, i requires 0 <= i < |entities| => Node(EntityId(i), entities[i].name, entities[i].kind))
  }

  function NodeIds(nodes: seq<Node>): set<string>
  {
    set n | n in nodes :: n.id
  }

  /** One node per entity, duplicates included; node i carries entity i's label and type, and ids are distinct. */
  lemma NodesOfEntities(entities: seq<Entity>)
    ensures |NodesOf(entities)| == |entities|
    ensures forall i :: 0 <= i < |entities| ==>
              NodesOf(entities)[i] == Node(EntityId(i), entities[i].name, entities[i].kind)
    ensures forall i, j :: 0 <= i < j < |entities| ==> NodesOf(entities)[i].id != NodesOf(entities)[j].id
  {
    forall i, j | 0 <= i < j < |entities|
      ensures NodesOf(entities)[i].id != NodesOf(entities)[j].id
    {
      if EntityId(i) == EntityId(j) {
        EntityIdInjective(i, j);
      }
    }
  }

  /** The id the first loop gives entity i is fresh, and adding its node extends the node list by one. */
  lemma NextNode(entities: seq<Entity>, i: nat)
    requires i < |entities|
    ensures EntityId(i) !in NodeIds(NodesOf(entities[..i]))
    ensures NodesOf(entities[..i + 1]) == NodesOf(entities[..i]) + [Node(EntityId(i), entities[i].name, entities[i].kind)]
  {
    var before := NodesOf(entities[..i]);
    if EntityId(i) in NodeIds(before) {
      var n :| n in before && n.id == EntityId(i);
      var j :| 0 <= j < i && before[j] == n;
      EntityIdInjective(i, j);
    }
  }

  // ---------------------------------------------------------------------
  // Label resolution
  // ---------------------------------------------------------------------

  /** Index of the first node, in insertion order, whose label is `name`. */
  function FirstWithLabel(nodes: seq<Node>, name: string): (r: Option<nat>)
    ensures r.None? <==> forall i :: 0 <= i < |nodes| ==> nodes[i].name != name
    ensures r.Some? ==> r.value < |nodes| && nodes[r.value].name == name &&
                        forall j :: 0 <= j < r.value ==> nodes[j].name != name
  {
    if nodes == [] then None
    else if nodes[0].name == name then Some(0)
    else match FirstWithLabel(nodes[1..], name)
      case None => None
      case Some(k) => Some(k + 1)
  }

  /** `[n for n, attr in G.nodes(data=True) if attr['label'] == name][0]`, if any. */
  function Resolve(nodes: seq<Node>, name: string): Option<string>
  {
    match FirstWithLabel(nodes, name)
    case None => None
    case Some(i) => Some(nodes[i].id)
  }

  /** Both endpoints of a relationship, resolved, or None when either is missing. */
  function ResolveEnds(nodes: seq<Node>, r: Relationship): Option<(string, string)>
  {
    match (Resolve(nodes, r.source), Resolve(nodes, r.target))
    case (Some(s), Some(t)) => Some((s, t))
    case _ => None
  }

  /** Resolution ignores type: it yields the id of the first node with the label, or None if no node has it. */
  lemma ResolveFirst(nodes: seq<Node>, name: string)
    ensures Resolve(nodes, name).None? <==> forall i :: 0 <= i < |nodes| ==> nodes[i].name != name
    ensures Resolve(nodes, name).Some? ==>
              exists i :: 0 <= i < |nodes| && nodes[i].id == Resolve(nodes, name).value && nodes[i].name == name &&
                          forall j :: 0 <= j < i ==> nodes[j].name != name
  {
  }

  /** The edge a relationship writes, or None when it is dropped. */
  function EdgeFor(nodes: seq<Node>, r: Relationship): Option<Edge>
  {
    match ResolveEnds(nodes, r)
    case Some(k) => Some(Edge(k.0, k.1, r.kind))
    case None => None
  }

  /** Applies edge writes in order; a later write to the same ordered pair overwrites the type. */
  function Overwrite(writes: seq<Option<Edge>>): EdgeMap
  {
    if writes == [] then map[]
    else
      var m := Overwrite(writes[..|writes| - 1]);
      match writes[|writes| - 1]
      case Some(e) => m[(e.source, e.target) := e.kind]
      case None => m
  }

  /** The writes of the second loop, one per relationship. */
  function Writes(nodes: seq<Node>, rels: seq<Relationship>): (ws: seq<Option<Edge>>)
    ensures |ws| == |rels|
  {
    seq(|rels|, i requires 0 <= i < |rels| => EdgeFor(nodes, rels[i]))
  }

  /** The edge map after the second loop. */
  function EdgeMapOf(nodes: seq<Node>, rels: seq<Relationship>): EdgeMap
  {
    Overwrite(Writes(nodes, rels))
  }

  lemma EdgeMapOfSnoc(nodes: seq<Node>, rels: seq<Relationship>, r: Relationship)
    ensures EdgeMapOf(nodes, rels + [r]) ==
            match EdgeFor(nodes, r)
            case Some(e) => EdgeMapOf(nodes, rels)[(e.source, e.target) := e.kind]
            case None => EdgeMapOf(nodes, rels)
  {
    var ws := Writes(nodes, rels + [r]);
    assert ws[..|ws| - 1] == Writes(nodes, rels);
  }

  /** Referential integrity of a single write: both ends are node ids. */
  lemma EdgeForEndpoints(nodes: seq<Node>, r: Relationship)
    ensures EdgeFor(nodes, r).Some? ==>
              EdgeFor(nodes, r).value.source in NodeIds(nodes) && EdgeFor(nodes, r).value.target in NodeIds(nodes)
  {
    if EdgeFor(nodes, r).Some? {
      var i := FirstWithLabel(nodes, r.source).value;
      var j := FirstWithLabel(nodes, r.target).value;
      assert nodes[i] in nodes && nodes[j] in nodes;
    }
  }

  /** Every pair in the map was written, and its type comes from the last write to it. */
  lemma {:induction false} OverwriteLastWins(writes: seq<Option<Edge>>, k: (string, string))
    ensures k in Overwrite(writes) <==>
              exists i :: 0 <= i < |writes| && writes[i].Some? && (writes[i].value.source, writes[i].value.target) == k
    ensures k in Overwrite(writes) ==>
              exists j :: 0 <= j < |writes| && writes[j] == Some(Edge(k.0, k.1, Overwrite(writes)[k])) &&
                          forall l :: j < l < |writes| ==> !(writes[l].Some? && (writes[l].value.source, writes[l].value.target) == k)
  {
    if writes != [] {
      var init := writes[..|writes| - 1];
      var last := |writes| - 1;
      OverwriteLastWins(init, k);
      var w := writes[last];
      if w.Some? && (w.value.source, w.value.target) == k {
        assert writes[last] == Some(Edge(k.0, k.1, Overwrite(writes)[k]));
      } else {
        assert k in Overwrite(writes) <==> k in Overwrite(init);
        assert k in Overwrite(init) ==> Overwrite(writes)[k] == Overwrite(init)[k];
        if k in Overwrite(init) {
          var j :| 0 <= j < |init| && init[j] == Some(Edge(k.0, k.1, Overwrite(init)[k])) &&
                   forall l :: j < l < |init| ==> !(init[l].Some? && (init[l].value.source, init[l].value.target) == k);
          assert writes[j] == init[j];
          forall l | j < l < |writes|
            ensures !(writes[l].Some? && (writes[l].value.source, writes[l].value.target) == k)
          {
            if l < last {
              assert writes[l] == init[l];
            }
          }
        }
        if exists i :: 0 <= i < |writes| && writes[i].Some? && (writes[i].value.source, writes[i].value.target) == k {
          var i :| 0 <= i < |writes| && writes[i].Some? && (writes[i].value.source, writes[i].value.target) == k;
          assert init[i] == writes[i];
        }
      }
    }
  }

  /** Referential integrity: every edge joins two node ids. */
  lemma {:induction false} EdgeEndpointsAreNodes(nodes: seq<Node>, rels: seq<Relationship>)
    ensures forall k :: k in EdgeMapOf(nodes, rels) ==> k.0 in NodeIds(nodes) && k.1 in NodeIds(nodes)
  {
    forall k | k in EdgeMapOf(nodes, rels)
      ensures k.0 in NodeIds(nodes) && k.1 in NodeIds(nodes)
    {
      var ws := Writes(nodes, rels);
      OverwriteLastWins(ws, k);
      var i :| 0 <= i < |ws| && ws[i].Some? && (ws[i].value.source, ws[i].value.target) == k;
      EdgeForEndpoints(nodes, rels[i]);
    }
  }

  /**
   * An ordered pair has an edge exactly when some relationship resolves to it;
   * its type is that of the last such relationship.
   */
  lemma EdgeIsLastWriter(nodes: seq<Node>, rels: seq<Relationship>, k: (string, string))
    ensures k in EdgeMapOf(nodes, rels) <==> exists i :: 0 <= i < |rels| && ResolveEnds(nodes, rels[i]) == Some(k)
    ensures k in EdgeMapOf(nodes, rels) ==>
              exists j :: 0 <= j < |rels| && ResolveEnds(nodes, rels[j]) == Some(k) &&
                          EdgeMapOf(nodes, rels)[k] == rels[j].kind &&
                          forall l :: j < l < |rels| ==> ResolveEnds(nodes, rels[l]) != Some(k)
  {
    var ws := Writes(nodes, rels);
    OverwriteLastWins(ws, k);
    assert forall i :: 0 <= i < |rels| ==>
             (ResolveEnds(nodes, rels[i]) == Some(k) <==> ws[i].Some? && (ws[i].value.source, ws[i].value.target) == k);
    if k in EdgeMapOf(nodes, rels) {
      var j :| 0 <= j < |ws| && ws[j] == Some(Edge(k.0, k.1, Overwrite(ws)[k])) &&
               forall l :: j < l < |ws| ==> !(ws[l].Some? && (ws[l].value.source, ws[l].value.target) == k);
      assert ResolveEnds(nodes, rels[j]) == Some(k) && EdgeMapOf(nodes, rels)[k] == rels[j].kind;
    }
  }

  /** The relationships whose endpoints both resolve. */
  function Resolvable(nodes: seq<Node>, rels: seq<Relationship>): (kept: seq<Relationship>)
  {
    if rels == [] then []
    else
      var init := Resolvable(nodes, rels[..|rels| - 1]);
      if ResolveEnds(nodes, rels[|rels| - 1]).Some? then init + [rels[|rels| - 1]] else init
  }

  /** Drop rule: relationships with a missing endpoint leave no trace in the graph. */
  lemma {:induction false} UnresolvedAreDropped(nodes: seq<Node>, rels: seq<Relationship>)
    ensures EdgeMapOf(nodes, rels) == EdgeMapOf(nodes, Resolvable(nodes, rels))
    ensures forall r :: r in Resolvable(nodes, rels) <==> r in rels && ResolveEnds(nodes, r).Some?
  {
    if rels != [] {
      var init := rels[..|rels| - 1];
      var last := rels[|rels| - 1];
      assert rels == init + [last];
      UnresolvedAreDropped(nodes, init);
      EdgeMapOfSnoc(nodes, init, last);
      var kept := Resolvable(nodes, init);
      if ResolveEnds(nodes, last).Some? {
        EdgeMapOfSnoc(nodes, kept, last);
      }
    }
  }

  // ---------------------------------------------------------------------
  // The directed graph
  // ---------------------------------------------------------------------

  /** The part of a networkx DiGraph the generator uses: nodes in insertion order and typed edges. */
  class DiGraph {
    var nodes: seq<Node>
    var adj: EdgeMap

    /** Node ids are distinct and every edge joins two nodes. */
    ghost predicate Valid()
      reads this
    {
      (forall i, j :: 0 <= i < j < |nodes| ==> nodes[i].id != nodes[j].id) &&
      forall k :: k in adj ==> k.0 in NodeIds(nodes) && k.1 in NodeIds(nodes)
    }

    constructor ()
      ensures Valid()
      ensures nodes == [] && adj == map[]
    {
      nodes := [];
      adj := map[];
    }

    /** `G.add_node(id, label=..., type=...)` for an id not yet in the graph. */
    method AddNode(id: string, name: string, kind: string)
      requires Valid()
      requires id !in NodeIds(nodes)
      modifies this
      ensures Valid()
      ensures nodes == old(nodes) + [Node(id, name, kind)]
      ensures adj == old(adj)
    {
      nodes := nodes + [Node(id, name, kind)];
      assert NodeIds(old(nodes)) <= NodeIds(nodes);
    }

    /** `G.add_edge(u, v, type=kind)`: creates the edge or overwrites its type. */
    method AddEdge(u: string, v: string, kind: string)
      requires Valid()
      requires u in NodeIds(nodes) && v in NodeIds(nodes)
      modifies this
      ensures Valid()
      ensures nodes == old(nodes)
      ensures adj == old(adj)[(u, v) := kind]
    {
      adj := adj[(u, v) := kind];
    }
  }

  /** `G.edges(data=True)` as a list: each ordered pair once, in some order. */
  method EdgeList(m: EdgeMap) returns (edges: seq<Edge>)
    ensures forall e :: e in edges <==> (e.source, e.target) in m && m[(e.source, e.target)] == e.kind
    ensures forall i, j :: 0 <= i < j < |edges| ==> (edges[i].source, edges[i].target) != (edges[j].source, edges[j].target)
    ensures |edges| == |m|
  {
    edges := [];
    var rest := m.Keys;
    while rest != {}
      invariant rest <= m.Keys
      invariant forall e :: e in edges <==> (e.source, e.target) in m.Keys - rest && m[(e.source, e.target)] == e.kind
      invariant forall i, j :: 0 <= i < j < |edges| ==> (edges[i].source, edges[i].target) != (edges[j].source, edges[j].target)
      invariant |edges| + |rest| == |m|
      decreases |rest|
    {
      var k :| k in rest;
      edges := edges + [Edge(k.0, k.1, m[k])];
      rest := rest - {k};
    }
  }

  /** The first loop: one node per entity, id "entity_<count so far>". */
  method AddEntityNodes(g: DiGraph, entities: seq<Entity>)
    requires g.Valid() && g.nodes == [] && g.adj == map[]
    modifies g
    ensures g.Valid()
    ensures g.nodes == NodesOf(entities) && g.adj == map[]
  {
    for i := 0 to |entities|
      invariant g.Valid()
      invariant g.nodes == NodesOf(entities[..i]) && g.adj == map[]
    {
      NextNode(entities, i);
      g.AddNode("entity_" + DecimalString(|g.nodes|), entities[i].name, entities[i].kind);
    }
    assert entities[..|entities|] == entities;
  }

  /** The second loop: resolve both labels, add or overwrite the edge, or drop the relationship. */
  method AddRelationshipEdges(g: DiGraph, rels: seq<Relationship>)
    requires g.Valid() && g.adj == map[]
    modifies g
    ensures g.Valid()
    ensures g.nodes == old(g.nodes)
    ensures g.adj == EdgeMapOf(g.nodes, rels)
  {
    var nodes := g.nodes;
    assert Writes(nodes, rels[..0]) == [];
    for i := 0 to |rels|
      invariant g.Valid()
      invariant g.nodes == nodes
      invariant g.adj == EdgeMapOf(nodes, rels[..i])
    {
      var rel := rels[i];
      var src := Resolve(g.nodes, rel.source);
      var tgt := Resolve(g.nodes, rel.target);
      assert rels[..i + 1] == rels[..i] + [rel];
      EdgeMapOfSnoc(nodes, rels[..i], rel);
      if src.Some? && tgt.Some? {
        EdgeForEndpoints(nodes, rel);
        assert EdgeFor(nodes, rel) == Some(Edge(src.value, tgt.value, rel.kind));
        g.AddEdge(src.value, tgt.value, rel.kind);
      }
    }
    assert rels[..|rels|] == rels;
  }

  /**
   * `generate_knowledge_graph` on an ontology that has both keys: one node per
   * entity, and one edge per resolved ordered pair with the last written type.
   */
  method BuildGraph(entities: seq<Entity>, rels: seq<Relationship>) returns (graph: GraphData)
    ensures graph.nodes == NodesOf(entities)
    ensures forall e :: e in graph.edges <==>
              (e.source, e.target) in EdgeMapOf(NodesOf(entities), rels) &&
              EdgeMapOf(NodesOf(entities), rels)[(e.source, e.target)] == e.kind
    ensures |graph.edges| == |EdgeMapOf(NodesOf(entities), rels)|
    ensures forall i, j :: 0 <= i < j < |graph.edges| ==>
              (graph.edges[i].source, graph.edges[i].target) != (graph.edges[j].source, graph.edges[j].target)
  {
    var g := new DiGraph();
    AddEntityNodes(g, entities);
    AddRelationshipEdges(g, rels);
    var edges := EdgeList(g.adj);
    graph := GraphData(g.nodes, edges);
  }

  /** `generate_knowledge_graph`: a missing 'entities' or 'relationships' key raises KeyError. */
  method GenerateKnowledgeGraph(ontology: Payload) returns (result: Result<GraphData, string>)
    ensures ontology.entities.None? ==> result == Failure("entities")
    ensures ontology.entities.Some? && ontology.relationships.None? ==> result == Failure("relationships")
    ensures ontology.entities.Some? && ontology.relationships.Some? ==>
              result.Success? &&
              result.value.nodes == NodesOf(ontology.entities.value) &&
              forall e :: e in result.value.edges <==>
                (e.source, e.target) in EdgeMapOf(NodesOf(ontology.entities.value), ontology.relationships.value) &&
                EdgeMapOf(NodesOf(ontology.entities.value), ontology.relationships.value)[(e.source, e.target)] == e.kind
    ensures ontology.entities.Some? && ontology.relationships.Some? ==>
              result.Success? &&
              |result.value.edges| == |EdgeMapOf(NodesOf(ontology.entities.value), ontology.relationships.value)| &&
              forall i, j :: 0 <= i < j < |result.value.edges| ==>
                (result.value.edges[i].source, result.value.edges[i].target) !=
                (result.value.edges[j].source, result.value.edges[j].target)
  {
    if ontology.entities.None? {
      return Failure("entities");
    }
    if ontology.relationships.None? {
      return Failure("relationships");
    }
    var graph := BuildGraph(ontology.entities.value, ontology.relationships.value);
    result := Success(graph);
  }

  /** An empty ontology gives an empty graph. */
  lemma EmptyOntologyEmptyGraph()
    ensures NodesOf([]) == []
    ensures EdgeMapOf(NodesOf([]), []) == map[]
  {
  }

  // ---------------------------------------------------------------------
  // Extraction followed by generation
  // ---------------------------------------------------------------------

  predicate IsWorkOrderLabel(s: string)
  {
    |s| >= |WorkOrderPrefix| && s[..|WorkOrderPrefix|] == WorkOrderPrefix
  }

  /**
   * Extraction never produces a work-order entity, so a label resolves only
   * when some row carries that very string in a label column; in particular a
   * MAINTAINS source "WO_<id>" resolves only then.
   */
  lemma ResolvedLabelComesFromRow(rows: seq<Row>, entities: seq<Entity>, name: string)
    requires forall e :: e in entities <==> e in EntitySet(rows)
    requires Resolve(NodesOf(entities), name).Some?
    ensures exists i :: 0 <= i < |rows| && name in RowLabels(rows[i])
  {
    var nodes := NodesOf(entities);
    var k := FirstWithLabel(nodes, name).value;
    assert nodes[k] == Node(EntityId(k), entities[k].name, entities[k].kind);
    var e := entities[k];
    assert e in entities;
    EntityLabelsFromRows(rows, e);
  }

  /** Every MAINTAINS descriptor in the list has a work-order label as its source. */
  predicate MaintainsFromWorkOrders(rels: seq<Relationship>)
  {
    forall r :: r in rels && r.kind == Maintains ==> IsWorkOrderLabel(r.source)
  }

  /** Extraction writes every MAINTAINS source as "WO_" followed by the work order id. */
  lemma ExtractedMaintainsFromWorkOrders(rows: seq<Row>)
    ensures MaintainsFromWorkOrders(Relationships(rows))
  {
    forall r | r in Relationships(rows) && r.kind == Maintains
      ensures IsWorkOrderLabel(r.source)
    {
      RelationshipFromRow(rows, r);
      var i :| 0 <= i < |rows| && Emits(rows[i], r);
      RowRelationshipRules(rows[i], r);
      var id := Value(rows[i], WorkOrderIdColumn);
      assert r.source == WorkOrderPrefix + id;
    }
  }

  /** Each edge's type is that of a relationship whose source label resolves. */
  lemma EdgeTypeFromResolvedRelationship(nodes: seq<Node>, rels: seq<Relationship>, k: (string, string))
    requires k in EdgeMapOf(nodes, rels)
    ensures exists j :: 0 <= j < |rels| && rels[j].kind == EdgeMapOf(nodes, rels)[k] && Resolve(nodes, rels[j].source).Some?
  {
    var ws := Writes(nodes, rels);
    OverwriteLastWins(ws, k);
    var j :| 0 <= j < |ws| && ws[j] == Some(Edge(k.0, k.1, Overwrite(ws)[k]));
    assert EdgeFor(nodes, rels[j]).Some?;
  }

  /** No row holds a work-order-looking label. */
  predicate NoWorkOrderLabels(rows: seq<Row>)
  {
    forall i, s :: 0 <= i < |rows| && s in RowLabels(rows[i]) ==> !IsWorkOrderLabel(s)
  }

  lemma NoMaintainsEdgesAmong(rows: seq<Row>, entities: seq<Entity>, rels: seq<Relationship>)
    requires forall e :: e in entities <==> e in EntitySet(rows)
    requires NoWorkOrderLabels(rows)
    requires MaintainsFromWorkOrders(rels)
    ensures forall k :: k in EdgeMapOf(NodesOf(entities), rels) ==> EdgeMapOf(NodesOf(entities), rels)[k] != Maintains
  {
    var nodes := NodesOf(entities);
    forall k | k in EdgeMapOf(nodes, rels)
      ensures EdgeMapOf(nodes, rels)[k] != Maintains
    {
      EdgeTypeFromResolvedRelationship(nodes, rels, k);
      var j :| 0 <= j < |rels| && rels[j].kind == EdgeMapOf(nodes, rels)[k] && Resolve(nodes, rels[j].source).Some?;
      var r := rels[j];
      ResolvedLabelComesFromRow(rows, entities, r.source);
      var i :| 0 <= i < |rows| && r.source in RowLabels(rows[i]);
      assert !IsWorkOrderLabel(r.source);
      assert r in rels;
    }
  }

  /**
   * When no label-column value looks like a work-order label, the graph built
   * from an extracted ontology has no MAINTAINS edge at all.
   */
  lemma NoMaintainsEdges(rows: seq<Row>, entities: seq<Entity>)
    requires forall e :: e in entities <==> e in EntitySet(rows)
    requires NoWorkOrderLabels(rows)
    ensures forall k :: k in EdgeMapOf(NodesOf(entities), Relationships(rows)) ==>
              EdgeMapOf(NodesOf(entities), Relationships(rows))[k] != Maintains
  {
    ExtractedMaintainsFromWorkOrders(rows);
    NoMaintainsEdgesAmong(rows, entities, Relationships(rows));
  }
}
