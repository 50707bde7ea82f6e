/**
 * The depth-bounded, cycle-safe traversal of the stored graph, as the
 * recursive common table expression of `recursive_graph_query` defines it:
 *
 *  - the base case is the start node, with path [id] and depth 0;
 *  - the recursive case extends a row along every outgoing edge (of the
 *    requested type, if one is given) to the edge's target node, provided the
 *    row's depth is below the maximum and the target is not on the row's path;
 *  - rows are combined with UNION ALL (no duplicate removal) and ordered by
 *    (depth, id).
 *
 * Level d below is the set of rows the recursion produces at depth d, in the
 * nested-loop order of its joins.
 */
module GraphTraversal {
  import opened Wrappers

  datatype StoredNode = StoredNode(id: int, name: string, kind: string)
  datatype StoredEdge = StoredEdge(source: int, target: int, kind: string)

  /** The node and edge tables. */
  datatype Store = Store(nodes: seq<StoredNode>, edges: seq<StoredEdge>)

  /** One result row: the node reached, the path that reached it and its depth. */
  datatype PathRecord = PathRecord(id: int, name: string, kind: string, path: seq<int>, depth: nat)

  /** `node.id` is the table's primary key. */
  predicate UniqueIds(nodes: seq<StoredNode>)
  {
    forall i, j :: 0 <= i < j < |nodes| ==> nodes[i].id != nodes[j].id
  }

  function Ids(nodes: seq<StoredNode>): set<int>
  {
    set n | n in nodes :: n.id
  }

  /**
   * The optional type filter: `if relationship_type:` adds the condition only
   * for a non-empty type name.
   */
  predicate Follows(relType: Option<string>, e: StoredEdge)
  {
    relType.None? || relType.value == "" || e.kind == relType.value
  }

  /** Some edge of `edges` leads from u to v and passes the filter. */
  predicate HopIn(edges: seq<StoredEdge>, relType: Option<string>, u: int, v: int)
  {
    exists e :: e in edges && e.source == u && e.target == v && Follows(relType, e)
  }

  /** No two edges that pass the filter join the same ordered pair. */
  predicate NoParallelEdges(edges: seq<StoredEdge>, relType: Option<string>)
  {
    forall i, j :: 0 <= i < j < |edges| && Follows(relType, edges[i]) && Follows(relType, edges[j]) ==>
      (edges[i].source, edges[i].target) != (edges[j].source, edges[j].target)
  }

  /**
   * A simple walk from `start`: node ids only, no id twice, and each
   * consecutive pair joined by an outgoing edge that passes the filter.
   */
  predicate SimpleWalk(store: Store, relType: Option<string>, start: int, p: seq<int>)
  {
    |p| >= 1 && p[0] == start && Distinct(p) &&
    (forall i :: 0 <= i < |p| ==> p[i] in Ids(store.nodes)) &&
    (forall i :: 0 <= i < |p| - 1 ==> HopIn(store.edges, relType, p[i], p[i + 1]))
  }

  /** What every row of the result satisfies. */
  predicate Conforms(store: Store, relType: Option<string>, start: int, r: PathRecord)
  {
    SimpleWalk(store, relType, start, r.path) &&
    r.depth == |r.path| - 1 &&
    r.id == r.path[|r.path| - 1] &&
    StoredNode(r.id, r.name, r.kind) in store.nodes
  }

  // ---------------------------------------------------------------------
  // The recursive definition
  // ---------------------------------------------------------------------

  /** Base case: `SELECT ... FROM node n WHERE n.id = :start_node_id`. */
  function Seed(nodes: seq<StoredNode>, start: int): seq<PathRecord>
  {
    if nodes == [] then []
    else
      (if nodes[0].id == start then [PathRecord(start, nodes[0].name, nodes[0].kind, [start], 0)] else []) +
      Seed(nodes[1..], start)
  }

  /** `JOIN node next_node ON e.target_id = next_node.id ... AND NOT next_node.id = ANY(gt.path)`. */
  function Arrive(nodes: seq<StoredNode>, target: int, r: PathRecord): seq<PathRecord>
  {
    if nodes == [] then []
    else
      (if nodes[0].id == target && target !in r.path
       then [PathRecord(target, nodes[0].name, nodes[0].kind, r.path + [target], r.depth + 1)] else []) +
      Arrive(nodes[1..], target, r)
  }

  /** `JOIN edge e ON gt.id = e.source_id`, with the optional type filter. */
  function Step(nodes: seq<StoredNode>, edges: seq<StoredEdge>, relType: Option<string>, r: PathRecord): seq<PathRecord>
  {
    if edges == [] then []
    else
      (if edges[0].source == r.id && Follows(relType, edges[0]) then Arrive(nodes, edges[0].target, r) else []) +
      Step(nodes, edges[1..], relType, r)
  }

  /** The recursive case applied to every row of one level. */
  function Expand(store: Store, relType: Option<string>, rs: seq<PathRecord>): seq<PathRecord>
  {
    if rs == [] then []
    else Step(store.nodes, store.edges, relType, rs[0]) + Expand(store, relType, rs[1..])
  }

  /** Rows at depth d: a row at depth d - 1 is extended only while `gt.depth < :max_depth`. */
  function Level(store: Store, start: int, relType: Option<string>, maxDepth: int, d: nat): seq<PathRecord>
  {
    if d == 0 then Seed(store.nodes, start)
    else if d - 1 < maxDepth then Expand(store, relType, Level(store, start, relType, maxDepth, d - 1))
    else []
  }

  /** Levels 0 to d, combined with UNION ALL. */
  function Levels(store: Store, start: int, relType: Option<string>, maxDepth: int, d: nat): seq<PathRecord>
  {
    if d == 0 then Level(store, start, relType, maxDepth, 0)
    else Levels(store, start, relType, maxDepth, d - 1) + Level(store, start, relType, maxDepth, d)
  }

  /** The deepest level that can be non-empty; a negative maximum still yields the start row. */
  function DepthCap(maxDepth: int): nat
  {
    if maxDepth < 0 then 0 else maxDepth
  }

  /** All rows of the recursive CTE, before ORDER BY. */
  function Traversal(store: Store, start: int, relType: Option<string>, maxDepth: int): seq<PathRecord>
  {
    Levels(store, start, relType, maxDepth, DepthCap(maxDepth))
  }

  // ---------------------------------------------------------------------
  // ORDER BY depth, id
  // ---------------------------------------------------------------------

  predicate KeyLe(a: PathRecord, b: PathRecord)
  {
    a.depth < b.depth || (a.depth == b.depth && a.id <= b.id)
  }

  predicate SortedByDepthId(s: seq<PathRecord>)
  {
    forall i, j :: 0 <= i < j < |s| ==> KeyLe(s[i], s[j])
  }

  function Insert(x: PathRecord, s: seq<PathRecord>): seq<PathRecord>
  {
    if s == [] || KeyLe(x, s[0]) then [x] + s
    else [s[0]] + Insert(x, s[1..])
  }

  /** Insertion adds exactly one copy of `x` and loses nothing. */
  lemma {:induction false} InsertPermutes(x: PathRecord, s: seq<PathRecord>)
    ensures multiset(Insert(x, s)) == multiset(s) + multiset{x}
  {
    if s != [] && !KeyLe(x, s[0]) {
      InsertPermutes(x, s[1..]);
      assert s == [s[0]] + s[1..];
    }
  }

  /** Insertion into a sorted sequence keeps it sorted. */
  lemma {:induction false} InsertSorted(x: PathRecord, s: seq<PathRecord>)
    requires SortedByDepthId(s)
    ensures SortedByDepthId(Insert(x, s))
  {
    if s != [] && !KeyLe(x, s[0]) {
      var t := Insert(x, s[1..]);
      InsertSorted(x, s[1..]);
      InsertPermutes(x, s[1..]);
      forall k | 0 <= k < |t|
        ensures KeyLe(s[0], t[k])
      {
        assert t[k] in multiset(s[1..]) + multiset{x} by { assert t[k] in multiset(t); }
        if t[k] != x {
          assert t[k] in s[1..];
          var j :| 0 <= j < |s[1..]| && s[1..][j] == t[k];
          assert s[j + 1] == t[k];
        }
      }
    }
  }

  /** Rows in ascending (depth, id) order; rows with equal keys keep an order fixed by the model. */
  function SortRecords(s: seq<PathRecord>): (r: seq<PathRecord>)
    ensures SortedByDepthId(r)
    ensures multiset(r) == multiset(s)
  {
    if s == [] then []
    else
      var t := SortRecords(s[1..]);
      InsertSorted(s[0], t);
      InsertPermutes(s[0], t);
      assert s == [s[0]] + s[1..];
      Insert(s[0], t)
  }

  /** Sorting loses no row. */
  lemma SortKeeps(s: seq<PathRecord>, x: PathRecord)
    requires x in s
    ensures x in SortRecords(s)
  {
    assert x in multiset(s);
    assert x in multiset(SortRecords(s));
  }

  /** `recursive_graph_query(start_node_id, relationship_type, max_depth)`. */
  function RecursiveGraphQuery(store: Store, start: int, relType: Option<string>, maxDepth: int): (r: seq<PathRecord>)
    ensures SortedByDepthId(r)
    ensures multiset(r) == multiset(Traversal(store, start, relType, maxDepth))
  {
    SortRecords(Traversal(store, start, relType, maxDepth))
  }

  // ---------------------------------------------------------------------
  // Soundness: every row is a simple walk from the start node
  // ---------------------------------------------------------------------

  lemma {:induction false} SeedSound(nodes: seq<StoredNode>, start: int, x: PathRecord)
    requires x in Seed(nodes, start)
    ensures x.path == [start] && x.depth == 0 && x.id == start
    ensures StoredNode(x.id, x.name, x.kind) in nodes
  {
    if nodes != [] {
      var head := if nodes[0].id == start then [PathRecord(start, nodes[0].name, nodes[0].kind, [start], 0)] else [];
      if x !in head {
        SeedSound(nodes[1..], start, x);
      }
    }
  }

  lemma {:induction false} ArriveSound(nodes: seq<StoredNode>, target: int, r: PathRecord, x: PathRecord)
    requires x in Arrive(nodes, target, r)
    ensures target !in r.path && x.path == r.path + [target] && x.depth == r.depth + 1 && x.id == target
    ensures StoredNode(x.id, x.name, x.kind) in nodes
  {
    if nodes != [] {
      var head := if nodes[0].id == target && target !in r.path
        then [PathRecord(target, nodes[0].name, nodes[0].kind, r.path + [target], r.depth + 1)] else [];
      if x !in head {
        ArriveSound(nodes[1..], target, r, x);
      }
    }
  }

  lemma {:induction false} StepSound(nodes: seq<StoredNode>, edges: seq<StoredEdge>, relType: Option<string>, r: PathRecord, x: PathRecord)
    requires x in Step(nodes, edges, relType, r)
    ensures exists e :: e in edges && e.source == r.id && Follows(relType, e) && x in Arrive(nodes, e.target, r)
  {
    if edges != [] {
      var head := if edges[0].source == r.id && Follows(relType, edges[0]) then Arrive(nodes, edges[0].target, r) else [];
      if x !in head {
        StepSound(nodes, edges[1..], relType, r, x);
      }
    }
  }

  lemma {:induction false} ExpandSound(store: Store, relType: Option<string>, rs: seq<PathRecord>, x: PathRecord)
    requires x in Expand(store, relType, rs)
    ensures exists r :: r in rs && x in Step(store.nodes, store.edges, relType, r)
  {
    if rs != [] && x !in Step(store.nodes, store.edges, relType, rs[0]) {
      ExpandSound(store, relType, rs[1..], x);
    }
  }

  /** One hop along a filtered edge to a node not yet on the path keeps a row conforming. */
  lemma ExtendConforms(store: Store, relType: Option<string>, start: int, r: PathRecord, e: StoredEdge, x: PathRecord)
    requires Conforms(store, relType, start, r)
    requires e in store.edges && e.source == r.id && Follows(relType, e)
    requires x in Arrive(store.nodes, e.target, r)
    ensures Conforms(store, relType, start, x)
  {
    ArriveSound(store.nodes, e.target, r, x);
    var p := x.path;
    assert p[..|p| - 1] == r.path;
    assert StoredNode(x.id, x.name, x.kind) in store.nodes;
    assert forall i :: 0 <= i < |p| - 1 ==> p[i] == r.path[i];
    assert HopIn(store.edges, relType, p[|p| - 2], p[|p| - 1]);
  }

  /** The recursive case keeps rows conforming. */
  lemma ExpandConforms(store: Store, relType: Option<string>, start: int, rs: seq<PathRecord>, x: PathRecord)
    requires forall r :: r in rs ==> Conforms(store, relType, start, r)
    requires x in Expand(store, relType, rs)
    ensures Conforms(store, relType, start, x)
    ensures exists r :: r in rs && x.depth == r.depth + 1
  {
    ExpandSound(store, relType, rs, x);
    var r :| r in rs && x in Step(store.nodes, store.edges, relType, r);
    StepSound(store.nodes, store.edges, relType, r, x);
    var e :| e in store.edges && e.source == r.id && Follows(relType, e) && x in Arrive(store.nodes, e.target, r);
    ExtendConforms(store, relType, start, r, e, x);
    ArriveSound(store.nodes, e.target, r, x);
  }

  /** Every row of level d conforms and has depth d. */
  lemma {:induction false} LevelSound(store: Store, start: int, relType: Option<string>, maxDepth: int, d: nat)
    ensures forall x :: x in Level(store, start, relType, maxDepth, d) ==>
      Conforms(store, relType, start, x) && x.depth == d && d <= DepthCap(maxDepth)
  {
    if d == 0 {
      SeedConforms(store, relType, start);
    } else if d - 1 < maxDepth {
      LevelSound(store, start, relType, maxDepth, d - 1);
      ExpandLevelConforms(store, relType, start, Level(store, start, relType, maxDepth, d - 1), d);
    }
  }

  /** Every row of the base case is a conforming walk of depth 0. */
  lemma SeedConforms(store: Store, relType: Option<string>, start: int)
    ensures forall x :: x in Seed(store.nodes, start) ==> Conforms(store, relType, start, x) && x.depth == 0
  {
    forall x | x in Seed(store.nodes, start)
      ensures Conforms(store, relType, start, x) && x.depth == 0
    {
      SeedSound(store.nodes, start, x);
    }
  }

  /** One recursive step turns conforming rows of depth d - 1 into conforming rows of depth d. */
  lemma ExpandLevelConforms(store: Store, relType: Option<string>, start: int, prev: seq<PathRecord>, d: nat)
    requires forall r :: r in prev ==> Conforms(store, relType, start, r) && r.depth == d - 1
    ensures forall x :: x in Expand(store, relType, prev) ==> Conforms(store, relType, start, x) && x.depth == d
  {
    forall x | x in Expand(store, relType, prev)
      ensures Conforms(store, relType, start, x) && x.depth == d
    {
      ExpandConforms(store, relType, start, prev, x);
    }
  }

  lemma {:induction false} LevelsSound(store: Store, start: int, relType: Option<string>, maxDepth: int, d: nat, x: PathRecord)
    requires x in Levels(store, start, relType, maxDepth, d)
    ensures x.depth <= d && x in Level(store, start, relType, maxDepth, x.depth)
  {
    if d == 0 {
      LevelDepth(store, start, relType, maxDepth, 0, x);
    } else {
      LevelsSplit(store, start, relType, maxDepth, d, x);
      if x in Level(store, start, relType, maxDepth, d) {
        LevelDepth(store, start, relType, maxDepth, d, x);
      } else {
        LevelsSound(store, start, relType, maxDepth, d - 1, x);
      }
    }
  }

  /** A row of level d has depth d. */
  lemma LevelDepth(store: Store, start: int, relType: Option<string>, maxDepth: int, d: nat, x: PathRecord)
    requires x in Level(store, start, relType, maxDepth, d)
    ensures x.depth == d
  {
    LevelSound(store, start, relType, maxDepth, d);
  }

  /** A row of the UNION ALL up to level d > 0 is in the union up to d - 1 or in level d. */
  lemma LevelsSplit(store: Store, start: int, relType: Option<string>, maxDepth: int, d: nat, x: PathRecord)
    requires 0 < d && x in Levels(store, start, relType, maxDepth, d)
    ensures x in Levels(store, start, relType, maxDepth, d - 1) || x in Level(store, start, relType, maxDepth, d)
  {
  }

  lemma {:induction false} LevelsComplete(store: Store, start: int, relType: Option<string>, maxDepth: int, d: nat, k: nat, x: PathRecord)
    requires k <= d && x in Level(store, start, relType, maxDepth, k)
    ensures x in Levels(store, start, relType, maxDepth, d)
  {
    if d > 0 {
      if k < d {
        LevelsComplete(store, start, relType, maxDepth, d - 1, k, x);
      }
      assert x in Levels(store, start, relType, maxDepth, d - 1) + Level(store, start, relType, maxDepth, d);
    }
  }

  /**
   * Soundness of `recursive_graph_query`: each row is a node of the store,
   * reached from the start node by a simple walk along outgoing edges that
   * pass the type filter; the path starts at the start node and ends at the
   * row's node, and the depth is the number of hops, at most max(max_depth, 0).
   */
  lemma QuerySound(store: Store, start: int, relType: Option<string>, maxDepth: int, x: PathRecord)
    requires x in RecursiveGraphQuery(store, start, relType, maxDepth)
    ensures Conforms(store, relType, start, x)
    ensures x.depth <= DepthCap(maxDepth)
  {
    var all := Traversal(store, start, relType, maxDepth);
    assert x in multiset(SortRecords(all));
    assert x in all;
    LevelsSound(store, start, relType, maxDepth, DepthCap(maxDepth), x);
    LevelSound(store, start, relType, maxDepth, x.depth);
  }

  // ---------------------------------------------------------------------
  // Completeness: every simple walk within the depth bound is a row
  // ---------------------------------------------------------------------

  lemma {:induction false} SeedComplete(nodes: seq<StoredNode>, start: int, n: StoredNode)
    requires n in nodes && n.id == start
    ensures PathRecord(start, n.name, n.kind, [start], 0) in Seed(nodes, start)
  {
    if nodes[0] != n {
      SeedComplete(nodes[1..], start, n);
    }
  }

  lemma {:induction false} ArriveComplete(nodes: seq<StoredNode>, target: int, r: PathRecord, n: StoredNode)
    requires n in nodes && n.id == target && target !in r.path
    ensures PathRecord(target, n.name, n.kind, r.path + [target], r.depth + 1) in Arrive(nodes, target, r)
  {
    if nodes[0] != n {
      ArriveComplete(nodes[1..], target, r, n);
    }
  }

  lemma {:induction false} StepComplete(nodes: seq<StoredNode>, edges: seq<StoredEdge>, relType: Option<string>, r: PathRecord, e: StoredEdge, x: PathRecord)
    requires e in edges && e.source == r.id && Follows(relType, e)
    requires x in Arrive(nodes, e.target, r)
    ensures x in Step(nodes, edges, relType, r)
  {
    if edges[0] != e {
      StepComplete(nodes, edges[1..], relType, r, e, x);
    }
  }

  lemma {:induction false} ExpandComplete(store: Store, relType: Option<string>, rs: seq<PathRecord>, r: PathRecord, x: PathRecord)
    requires r in rs && x in Step(store.nodes, store.edges, relType, r)
    ensures x in Expand(store, relType, rs)
  {
    if rs[0] != r {
      ExpandComplete(store, relType, rs[1..], r, x);
    }
  }

  /** A simple walk of d hops, d within the bound, ends in a row of level d. */
  lemma {:induction false} LevelComplete(store: Store, start: int, relType: Option<string>, maxDepth: int, p: seq<int>, n: StoredNode)
    requires SimpleWalk(store, relType, start, p) && |p| - 1 <= DepthCap(maxDepth)
    requires n in store.nodes && n.id == p[|p| - 1]
    ensures PathRecord(n.id, n.name, n.kind, p, |p| - 1) in Level(store, start, relType, maxDepth, |p| - 1)
  {
    var d := |p| - 1;
    if d == 0 {
      SeedComplete(store.nodes, start, n);
      assert p == [start];
    } else {
      var q := p[..d];
      assert SimpleWalk(store, relType, start, q) by {
        assert forall i :: 0 <= i < |q| ==> q[i] == p[i];
      }
      assert q[d - 1] in Ids(store.nodes);
      var m :| m in store.nodes && m.id == q[d - 1];
      LevelComplete(store, start, relType, maxDepth, q, m);
      var r := PathRecord(m.id, m.name, m.kind, q, d - 1);
      assert HopIn(store.edges, relType, p[d - 1], p[d]);
      var e :| e in store.edges && e.source == p[d - 1] && e.target == p[d] && Follows(relType, e);
      assert p[d] !in q by {
        forall i | 0 <= i < d
          ensures q[i] != p[d]
        {
          assert q[i] == p[i];
        }
      }
      ArriveComplete(store.nodes, p[d], r, n);
      assert q + [p[d]] == p;
      StepComplete(store.nodes, store.edges, relType, r, e, PathRecord(n.id, n.name, n.kind, p, d));
      ExpandComplete(store, relType, Level(store, start, relType, maxDepth, d - 1), r, PathRecord(n.id, n.name, n.kind, p, d));
    }
  }

  /**
   * Completeness of `recursive_graph_query`: for every simple walk from the
   * start node of at most max(max_depth, 0) hops, and every stored node at its
   * end, the row for that node with that path is in the result.
   */
  lemma QueryComplete(store: Store, start: int, relType: Option<string>, maxDepth: int, p: seq<int>, n: StoredNode)
    requires SimpleWalk(store, relType, start, p) && |p| - 1 <= DepthCap(maxDepth)
    requires n in store.nodes && n.id == p[|p| - 1]
    ensures PathRecord(n.id, n.name, n.kind, p, |p| - 1) in RecursiveGraphQuery(store, start, relType, maxDepth)
  {
    var x := PathRecord(n.id, n.name, n.kind, p, |p| - 1);
    LevelComplete(store, start, relType, maxDepth, p, n);
    LevelsComplete(store, start, relType, maxDepth, DepthCap(maxDepth), |p| - 1, x);
    SortKeeps(Traversal(store, start, relType, maxDepth), x);
  }

  // ---------------------------------------------------------------------
  // Termination on cyclic graphs
  // ---------------------------------------------------------------------

  lemma {:induction false} DistinctElements(p: seq<int>)
    requires Distinct(p)
    ensures |set x | x in p| == |p|
  {
    if p != [] {
      var last := p[|p| - 1];
      var q := p[..|p| - 1];
      DistinctElements(q);
      assert (set x | x in p) == (set x | x in q) + {last} by {
        assert p == q + [last];
      }
      assert last !in q;
    }
  }

  lemma {:induction false} IdsBound(nodes: seq<StoredNode>)
    ensures |Ids(nodes)| <= |nodes|
  {
    if nodes != [] {
      IdsBound(nodes[1..]);
      assert Ids(nodes) == Ids(nodes[1..]) + {nodes[0].id} by {
        assert nodes == [nodes[0]] + nodes[1..];
      }
    }
  }

  /**
   * The cycle guard alone bounds the recursion: no level at or beyond the
   * number of stored nodes has a row, whatever max_depth is, so the CTE stops
   * on cyclic graphs.
   */
  lemma LevelsVanish(store: Store, start: int, relType: Option<string>, maxDepth: int, d: nat)
    requires d >= |store.nodes|
    ensures Level(store, start, relType, maxDepth, d) == []
  {
    var level := Level(store, start, relType, maxDepth, d);
    if level != [] {
      var x := level[0];
      LevelSound(store, start, relType, maxDepth, d);
      assert Conforms(store, relType, start, x);
      DistinctElements(x.path);
      IdsBound(store.nodes);
      var onPath := set y | y in x.path;
      assert onPath <= Ids(store.nodes) by {
        forall y | y in x.path
          ensures y in Ids(store.nodes)
        {
          var i :| 0 <= i < |x.path| && x.path[i] == y;
        }
      }
      SubsetCard(onPath, Ids(store.nodes));
      assert false;
    }
  }

  lemma SubsetCard(a: set<int>, b: set<int>)
    requires a <= b
    ensures |a| <= |b|
  {
    assert b == a + (b - a);
    assert a * (b - a) == {};
  }

  // ---------------------------------------------------------------------
  // Multiplicity: with a primary key on node.id and no parallel edges,
  // each simple walk within the bound is exactly one row
  // ---------------------------------------------------------------------

  /** The number of rows whose path is p. */
  function Occurrences(s: seq<PathRecord>, p: seq<int>): nat
  {
    if s == [] then 0 else (if s[0].path == p then 1 else 0) + Occurrences(s[1..], p)
  }

  lemma {:induction false} OccurrencesAppend(a: seq<PathRecord>, b: seq<PathRecord>, p: seq<int>)
    ensures Occurrences(a + b, p) == Occurrences(a, p) + Occurrences(b, p)
  {
    if a != [] {
      assert (a + b)[1..] == a[1..] + b;
      OccurrencesAppend(a[1..], b, p);
    } else {
      assert a + b == b;
    }
  }

  lemma {:induction false} OccurrencesAbsent(s: seq<PathRecord>, p: seq<int>)
    requires forall x :: x in s ==> x.path != p
    ensures Occurrences(s, p) == 0
  {
    if s != [] {
      OccurrencesAbsent(s[1..], p);
    }
  }

  lemma {:induction false} OccurrencesInsert(x: PathRecord, s: seq<PathRecord>, p: seq<int>)
    ensures Occurrences(Insert(x, s), p) == Occurrences([x], p) + Occurrences(s, p)
  {
    if s != [] && !KeyLe(x, s[0]) {
      OccurrencesInsert(x, s[1..], p);
      assert ([s[0]] + Insert(x, s[1..]))[1..] == Insert(x, s[1..]);
    } else {
      OccurrencesAppend([x], s, p);
    }
  }

  /** ORDER BY neither adds nor drops rows for any path. */
  lemma {:induction false} OccurrencesSort(s: seq<PathRecord>, p: seq<int>)
    ensures Occurrences(SortRecords(s), p) == Occurrences(s, p)
  {
    if s != [] {
      OccurrencesSort(s[1..], p);
      OccurrencesInsert(s[0], SortRecords(s[1..]), p);
    }
  }

  lemma {:induction false} SeedAbsent(nodes: seq<StoredNode>, start: int)
    requires start !in Ids(nodes)
    ensures Seed(nodes, start) == []
  {
    if nodes != [] {
      assert nodes[0] in nodes;
      SeedAbsent(nodes[1..], start);
    }
  }

  lemma {:induction false} ArriveAbsent(nodes: seq<StoredNode>, target: int, r: PathRecord)
    requires target !in Ids(nodes)
    ensures Arrive(nodes, target, r) == []
  {
    if nodes != [] {
      assert nodes[0] in nodes;
      ArriveAbsent(nodes[1..], target, r);
    }
  }

  /** Ids of a non-empty node list, split at the head. */
  lemma IdsTail(nodes: seq<StoredNode>)
    requires nodes != [] && UniqueIds(nodes)
    ensures Ids(nodes) == Ids(nodes[1..]) + {nodes[0].id}
    ensures UniqueIds(nodes[1..]) && nodes[0].id !in Ids(nodes[1..])
  {
    assert nodes == [nodes[0]] + nodes[1..];
    forall k | 0 <= k < |nodes[1..]|
      ensures nodes[1..][k].id != nodes[0].id
    {
      assert nodes[1..][k] == nodes[k + 1];
    }
  }

  lemma {:induction false} OccurrencesSeed(nodes: seq<StoredNode>, start: int, p: seq<int>)
    requires UniqueIds(nodes)
    ensures Occurrences(Seed(nodes, start), p) == if p == [start] && start in Ids(nodes) then 1 else 0
  {
    if nodes != [] {
      IdsTail(nodes);
      var head := if nodes[0].id == start then [PathRecord(start, nodes[0].name, nodes[0].kind, [start], 0)] else [];
      OccurrencesAppend(head, Seed(nodes[1..], start), p);
      if nodes[0].id == start {
        SeedAbsent(nodes[1..], start);
      } else {
        OccurrencesSeed(nodes[1..], start, p);
      }
    }
  }

  lemma {:induction false} OccurrencesArrive(nodes: seq<StoredNode>, target: int, r: PathRecord, p: seq<int>)
    requires UniqueIds(nodes)
    ensures Occurrences(Arrive(nodes, target, r), p) ==
      if p == r.path + [target] && target !in r.path && target in Ids(nodes) then 1 else 0
  {
    if nodes != [] {
      IdsTail(nodes);
      var head := if nodes[0].id == target && target !in r.path
        then [PathRecord(target, nodes[0].name, nodes[0].kind, r.path + [target], r.depth + 1)] else [];
      OccurrencesAppend(head, Arrive(nodes[1..], target, r), p);
      if nodes[0].id == target {
        ArriveAbsent(nodes[1..], target, r);
      } else {
        OccurrencesArrive(nodes[1..], target, r, p);
      }
    }
  }

  /** Row r extends along some edge of `edges` to the last element of p, and p is r's path plus that node. */
  predicate ExtendsTo(nodes: seq<StoredNode>, edges: seq<StoredEdge>, relType: Option<string>, r: PathRecord, p: seq<int>)
  {
    |p| >= 1 && p == r.path + [p[|p| - 1]] && p[|p| - 1] !in r.path && p[|p| - 1] in Ids(nodes) &&
    HopIn(edges, relType, r.id, p[|p| - 1])
  }

  lemma NoParallelTail(edges: seq<StoredEdge>, relType: Option<string>)
    requires edges != [] && NoParallelEdges(edges, relType)
    ensures NoParallelEdges(edges[1..], relType)
    ensures Follows(relType, edges[0]) ==> !HopIn(edges[1..], relType, edges[0].source, edges[0].target)
  {
    var tail := edges[1..];
    forall i, j | 0 <= i < j < |tail| && Follows(relType, tail[i]) && Follows(relType, tail[j])
      ensures (tail[i].source, tail[i].target) != (tail[j].source, tail[j].target)
    {
      assert tail[i] == edges[i + 1] && tail[j] == edges[j + 1];
    }
    forall k | 0 <= k < |tail| && Follows(relType, edges[0]) && Follows(relType, tail[k])
      ensures (tail[k].source, tail[k].target) != (edges[0].source, edges[0].target)
    {
      assert tail[k] == edges[k + 1];
    }
  }

  lemma {:induction false} OccurrencesStep(nodes: seq<StoredNode>, edges: seq<StoredEdge>, relType: Option<string>, r: PathRecord, p: seq<int>)
    requires UniqueIds(nodes) && NoParallelEdges(edges, relType)
    ensures Occurrences(Step(nodes, edges, relType, r), p) == if ExtendsTo(nodes, edges, relType, r, p) then 1 else 0
  {
    if edges == [] {
      assert !ExtendsTo(nodes, edges, relType, r, p);
    } else {
      var e := edges[0];
      var tail := edges[1..];
      NoParallelTail(edges, relType);
      OccurrencesStep(nodes, tail, relType, r, p);
      var head := if e.source == r.id && Follows(relType, e) then Arrive(nodes, e.target, r) else [];
      OccurrencesAppend(head, Step(nodes, tail, relType, r), p);
      assert edges == [e] + tail;
      if e.source == r.id && Follows(relType, e) {
        OccurrencesArrive(nodes, e.target, r, p);
        if |p| >= 1 && p[|p| - 1] == e.target {
          assert HopIn(edges, relType, r.id, p[|p| - 1]);
          assert !HopIn(tail, relType, r.id, p[|p| - 1]);
        } else if |p| >= 1 && p == r.path + [p[|p| - 1]] {
          assert p != r.path + [e.target];
          assert HopIn(edges, relType, r.id, p[|p| - 1]) <==> HopIn(tail, relType, r.id, p[|p| - 1]);
        }
      } else {
        if |p| >= 1 {
          assert HopIn(edges, relType, r.id, p[|p| - 1]) <==> HopIn(tail, relType, r.id, p[|p| - 1]);
        }
      }
    }
  }

  /** p is a walk of at least one hop whose last hop is a filtered edge to a new stored node. */
  predicate Grows(store: Store, relType: Option<string>, p: seq<int>)
  {
    |p| >= 2 && p[|p| - 1] !in p[..|p| - 1] && p[|p| - 1] in Ids(store.nodes) &&
    HopIn(store.edges, relType, p[|p| - 2], p[|p| - 1])
  }

  /** A row whose id is the last node of its path. */
  predicate EndsAtId(r: PathRecord)
  {
    |r.path| >= 1 && r.id == r.path[|r.path| - 1]
  }

  lemma ExtendsToGrows(store: Store, relType: Option<string>, r: PathRecord, p: seq<int>)
    requires EndsAtId(r)
    ensures ExtendsTo(store.nodes, store.edges, relType, r, p) <==> Grows(store, relType, p) && r.path == p[..|p| - 1]
  {
    if |p| >= 2 && r.path == p[..|p| - 1] {
      assert p == r.path + [p[|p| - 1]];
      assert r.id == p[|p| - 2];
    }
    if ExtendsTo(store.nodes, store.edges, relType, r, p) {
      assert p[..|p| - 1] == r.path;
    }
  }

  lemma {:induction false} OccurrencesExpand(store: Store, relType: Option<string>, rs: seq<PathRecord>, p: seq<int>)
    requires UniqueIds(store.nodes) && NoParallelEdges(store.edges, relType)
    requires forall r :: r in rs ==> EndsAtId(r)
    ensures Occurrences(Expand(store, relType, rs), p) ==
      if Grows(store, relType, p) then Occurrences(rs, p[..|p| - 1]) else 0
  {
    if rs != [] {
      var r := rs[0];
      OccurrencesExpand(store, relType, rs[1..], p);
      OccurrencesStep(store.nodes, store.edges, relType, r, p);
      ExtendsToGrows(store, relType, r, p);
      OccurrencesAppend(Step(store.nodes, store.edges, relType, r), Expand(store, relType, rs[1..]), p);
    }
  }

  /** A simple walk of two or more nodes is a simple walk one node shorter that grows by one hop. */
  lemma SimpleWalkSnoc(store: Store, relType: Option<string>, start: int, p: seq<int>)
    requires |p| >= 2
    ensures SimpleWalk(store, relType, start, p) <==>
      SimpleWalk(store, relType, start, p[..|p| - 1]) && Grows(store, relType, p)
  {
    var q := p[..|p| - 1];
    assert forall i :: 0 <= i < |q| ==> q[i] == p[i];
    if SimpleWalk(store, relType, start, q) && Grows(store, relType, p) {
      forall i, j | 0 <= i < j < |p|
        ensures p[i] != p[j]
      {
        if j == |p| - 1 {
          assert p[i] == q[i];
        }
      }
    }
  }

  lemma {:induction false} OccurrencesLevel(store: Store, start: int, relType: Option<string>, maxDepth: int, d: nat, p: seq<int>)
    requires UniqueIds(store.nodes) && NoParallelEdges(store.edges, relType)
    ensures Occurrences(Level(store, start, relType, maxDepth, d), p) ==
      if SimpleWalk(store, relType, start, p) && |p| == d + 1 && d <= DepthCap(maxDepth) then 1 else 0
  {
    if d == 0 {
      OccurrencesSeedWalk(store, relType, start, p);
    } else if d - 1 < maxDepth {
      if Grows(store, relType, p) {
        OccurrencesLevel(store, start, relType, maxDepth, d - 1, p[..|p| - 1]);
      }
      OccurrencesLevelStep(store, start, relType, maxDepth, d, p);
    }
  }

  /** Level d is the expansion of level d - 1, whose rows all conform. */
  lemma OccurrencesLevelStep(store: Store, start: int, relType: Option<string>, maxDepth: int, d: nat, p: seq<int>)
    requires UniqueIds(store.nodes) && NoParallelEdges(store.edges, relType)
    requires 0 < d && d - 1 < maxDepth
    requires Grows(store, relType, p) ==>
      Occurrences(Level(store, start, relType, maxDepth, d - 1), p[..|p| - 1]) ==
        (if SimpleWalk(store, relType, start, p[..|p| - 1]) && |p| - 1 == d && d - 1 <= DepthCap(maxDepth) then 1 else 0)
    ensures Occurrences(Level(store, start, relType, maxDepth, d), p) ==
      if SimpleWalk(store, relType, start, p) && |p| == d + 1 && d <= DepthCap(maxDepth) then 1 else 0
  {
    LevelSound(store, start, relType, maxDepth, d - 1);
    OccurrencesExpandLevel(store, relType, start, maxDepth, d, Level(store, start, relType, maxDepth, d - 1), p);
  }

  /** The base case holds the one-node walk [start] once, and nothing else. */
  lemma OccurrencesSeedWalk(store: Store, relType: Option<string>, start: int, p: seq<int>)
    requires UniqueIds(store.nodes)
    ensures Occurrences(Seed(store.nodes, start), p) == if SimpleWalk(store, relType, start, p) && |p| == 1 then 1 else 0
  {
    OccurrencesSeed(store.nodes, start, p);
    if p == [start] && start in Ids(store.nodes) {
      assert Distinct(p);
    }
  }

  /** One recursive step: the count of a path at depth d follows from the count of its prefix at depth d - 1. */
  lemma OccurrencesExpandLevel(store: Store, relType: Option<string>, start: int, maxDepth: int, d: nat,
                               prev: seq<PathRecord>, p: seq<int>)
    requires UniqueIds(store.nodes) && NoParallelEdges(store.edges, relType)
    requires 0 < d && d - 1 < maxDepth
    requires forall r :: r in prev ==> Conforms(store, relType, start, r)
    requires Grows(store, relType, p) ==>
      Occurrences(prev, p[..|p| - 1]) ==
        (if SimpleWalk(store, relType, start, p[..|p| - 1]) && |p| - 1 == d && d - 1 <= DepthCap(maxDepth) then 1 else 0)
    ensures Occurrences(Expand(store, relType, prev), p) ==
      if SimpleWalk(store, relType, start, p) && |p| == d + 1 && d <= DepthCap(maxDepth) then 1 else 0
  {
    OccurrencesExpand(store, relType, prev, p);
    if |p| >= 2 {
      SimpleWalkSnoc(store, relType, start, p);
    }
  }

  lemma {:induction false} OccurrencesLevels(store: Store, start: int, relType: Option<string>, maxDepth: int, d: nat, p: seq<int>)
    requires UniqueIds(store.nodes) && NoParallelEdges(store.edges, relType)
    ensures Occurrences(Levels(store, start, relType, maxDepth, d), p) ==
      if SimpleWalk(store, relType, start, p) && |p| - 1 <= d && |p| - 1 <= DepthCap(maxDepth) then 1 else 0
  {
    OccurrencesLevel(store, start, relType, maxDepth, d, p);
    if d > 0 {
      OccurrencesLevels(store, start, relType, maxDepth, d - 1, p);
      OccurrencesAppend(Levels(store, start, relType, maxDepth, d - 1), Level(store, start, relType, maxDepth, d), p);
    }
  }

  /**
   * With node ids unique and no two filtered edges joining the same pair, a
   * path p is the path of exactly one row of `recursive_graph_query` when it
   * is a simple walk from the start node of at most max(max_depth, 0) hops,
   * and of no row otherwise. So a node reachable by k such walks appears k
   * times (UNION ALL keeps them all).
   */
  lemma QueryMultiplicity(store: Store, start: int, relType: Option<string>, maxDepth: int, p: seq<int>)
    requires UniqueIds(store.nodes) && NoParallelEdges(store.edges, relType)
    ensures Occurrences(RecursiveGraphQuery(store, start, relType, maxDepth), p) ==
      if SimpleWalk(store, relType, start, p) && |p| - 1 <= DepthCap(maxDepth) then 1 else 0
  {
    OccurrencesSort(Traversal(store, start, relType, maxDepth), p);
    OccurrencesLevels(store, start, relType, maxDepth, DepthCap(maxDepth), p);
  }

  lemma {:induction false} OccurrencesLevelsAt(store: Store, start: int, relType: Option<string>, maxDepth: int, d: nat, p: seq<int>)
    requires |p| == 1
    ensures Occurrences(Levels(store, start, relType, maxDepth, d), p) ==
      Occurrences(Level(store, start, relType, maxDepth, 0), p)
  {
    if d > 0 {
      OccurrencesLevelsAt(store, start, relType, maxDepth, d - 1, p);
      assert forall x :: x in Level(store, start, relType, maxDepth, d) ==> x.path != p by {
        LevelSound(store, start, relType, maxDepth, d);
      }
      OccurrencesAbsent(Level(store, start, relType, maxDepth, d), p);
      OccurrencesAppend(Levels(store, start, relType, maxDepth, d - 1), Level(store, start, relType, maxDepth, d), p);
    }
  }

  /**
   * When the start node exists and node ids are unique, exactly one row has
   * the path [start]: the start node itself at depth 0, whatever the filter,
   * the edges or max_depth.
   */
  lemma StartRowOnce(store: Store, start: int, relType: Option<string>, maxDepth: int)
    requires UniqueIds(store.nodes) && start in Ids(store.nodes)
    ensures Occurrences(RecursiveGraphQuery(store, start, relType, maxDepth), [start]) == 1
  {
    OccurrencesSort(Traversal(store, start, relType, maxDepth), [start]);
    OccurrencesLevelsAt(store, start, relType, maxDepth, DepthCap(maxDepth), [start]);
    OccurrencesSeed(store.nodes, start, [start]);
  }

  lemma {:induction false} LevelsFromMissingStart(store: Store, start: int, relType: Option<string>, maxDepth: int, d: nat)
    requires start !in Ids(store.nodes)
    ensures Level(store, start, relType, maxDepth, d) == []
    ensures Levels(store, start, relType, maxDepth, d) == []
  {
    if d == 0 {
      SeedAbsent(store.nodes, start);
    } else {
      LevelsFromMissingStart(store, start, relType, maxDepth, d - 1);
    }
  }

  /** A start id with no stored node gives an empty result. */
  lemma MissingStartEmpty(store: Store, start: int, relType: Option<string>, maxDepth: int)
    requires start !in Ids(store.nodes)
    ensures RecursiveGraphQuery(store, start, relType, maxDepth) == []
  {
    LevelsFromMissingStart(store, start, relType, maxDepth, DepthCap(maxDepth));
  }

  // ---------------------------------------------------------------------
  // `if relationship_type:` — an empty type name is no filter at all
  // ---------------------------------------------------------------------

  lemma {:induction false} EmptyFilterStep(nodes: seq<StoredNode>, edges: seq<StoredEdge>, r: PathRecord)
    ensures Step(nodes, edges, Some(""), r) == Step(nodes, edges, None, r)
  {
    if edges != [] {
      EmptyFilterStep(nodes, edges[1..], r);
    }
  }

  lemma {:induction false} EmptyFilterExpand(store: Store, rs: seq<PathRecord>)
    ensures Expand(store, Some(""), rs) == Expand(store, None, rs)
  {
    if rs != [] {
      EmptyFilterStep(store.nodes, store.edges, rs[0]);
      EmptyFilterExpand(store, rs[1..]);
    }
  }

  lemma {:induction false} EmptyFilterLevels(store: Store, start: int, maxDepth: int, d: nat)
    ensures Level(store, start, Some(""), maxDepth, d) == Level(store, start, None, maxDepth, d)
    ensures Levels(store, start, Some(""), maxDepth, d) == Levels(store, start, None, maxDepth, d)
  {
    if d > 0 {
      EmptyFilterLevels(store, start, maxDepth, d - 1);
      EmptyFilterExpand(store, Level(store, start, None, maxDepth, d - 1));
    }
  }

  /** An empty relationship type adds no condition: the result is that of the unfiltered query. */
  lemma EmptyFilterIsNoFilter(store: Store, start: int, maxDepth: int)
    ensures RecursiveGraphQuery(store, start, Some(""), maxDepth) == RecursiveGraphQuery(store, start, None, maxDepth)
  {
    EmptyFilterLevels(store, start, maxDepth, DepthCap(maxDepth));
  }
}
