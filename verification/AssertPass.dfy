/** The pass that rewrites the graph in place, with its edge cache. */
module AssertPass {
  import opened AssertFlags
  import opened AssertElimination
  import opened Ranges

  const MAX_ASSERT_EDGES: nat := 300000

  type EdgeId = int

  datatype Edge = Edge(arc: Arc, flags: Flags)

  /** At most one edge per ordered pair of vertices. */
  ghost predicate Simple(es: seq<Edge>) {
    forall i, j :: 0 <= i < j < |es| ==> es[i].arc != es[j].arc
  }

  ghost function AdjacencyOf(es: seq<Edge>): Adjacency
    requires Simple(es)
  {
    map i | 0 <= i < |es| :: es[i].arc := es[i].flags
  }

  /** The edge table holds exactly the adjacency; cleared vertices have no edges. */
  ghost predicate Holds(edges: map<EdgeId, Edge>, next: EdgeId, adj: Adjacency, cleared: set<Vertex>) {
    && (forall e :: e in edges ==> e < next && edges[e].arc in adj && edges[e].flags == adj[edges[e].arc])
    && (forall k :: k in adj ==> k.u !in cleared && k.v !in cleared)
  }

  ghost predicate OneEdgePerArc(edges: map<EdgeId, Edge>, adj: Adjacency) {
    && (forall d, e :: d in edges && e in edges && edges[d].arc == edges[e].arc ==> d == e)
    && (forall k :: k in adj ==> exists e :: e in edges && edges[e].arc == k)
  }

  /** The cache finds every edge, and finds nothing else at vertices that are still wired. */
  ghost predicate Agrees(cache: map<Arc, EdgeId>, edges: map<EdgeId, Edge>, adj: Adjacency, cleared: set<Vertex>) {
    && (forall k :: k in adj ==> k in cache && cache[k] in edges && edges[cache[k]].arc == k)
    && (forall e :: e in edges ==> edges[e].arc in cache && cache[edges[e].arc] == e)
    && (forall k :: k in cache && k.u !in cleared && k.v !in cleared ==> k in adj)
  }

  /** The edges that touch t. */
  ghost function At(edges: map<EdgeId, Edge>, t: Vertex): map<EdgeId, Edge> {
    map e | e in edges && (edges[e].arc.u == t || edges[e].arc.v == t) :: edges[e]
  }

  lemma InsertKeeps(edges: map<EdgeId, Edge>, next: EdgeId, cache: map<Arc, EdgeId>, adj: Adjacency,
                    cleared: set<Vertex>, k: Arc, f: Flags)
    requires Holds(edges, next, adj, cleared) && Agrees(cache, edges, adj, cleared)
    requires k !in cache && k.u !in cleared && k.v !in cleared
    ensures k !in adj && next !in edges
    ensures Holds(edges[next := Edge(k, f)], next + 1, adj[k := f], cleared)
    ensures Agrees(cache[k := next], edges[next := Edge(k, f)], adj[k := f], cleared)
  {
  }

  lemma KnownArc(edges: map<EdgeId, Edge>, next: EdgeId, cache: map<Arc, EdgeId>, adj: Adjacency,
                 cleared: set<Vertex>, k: Arc)
    requires Holds(edges, next, adj, cleared) && Agrees(cache, edges, adj, cleared)
    requires k in cache && k.u !in cleared && k.v !in cleared
    ensures k in adj && cache[k] in edges && edges[cache[k]] == Edge(k, adj[k])
  {
    var e := cache[k];
    assert edges[e].arc == k && edges[e].flags == adj[k];
  }

  lemma RelabelKeeps(edges: map<EdgeId, Edge>, next: EdgeId, cache: map<Arc, EdgeId>, adj: Adjacency,
                     cleared: set<Vertex>, k: Arc, f: Flags)
    requires Holds(edges, next, adj, cleared) && Agrees(cache, edges, adj, cleared)
    requires k in cache && k.u !in cleared && k.v !in cleared
    ensures Holds(edges[cache[k] := Edge(k, f)], next, adj[k := f], cleared)
    ensures Agrees(cache, edges[cache[k] := Edge(k, f)], adj[k := f], cleared)
  {
    KnownArc(edges, next, cache, adj, cleared, k);
  }

  /** Progress of the double loop at t: the rows in `rows` are done, and the columns `cols` of row `u0`. */
  ghost predicate Bridged(l: Labels, before: Adjacency, t: Vertex, rows: set<Vertex>, u0: Vertex, cols: set<Vertex>, k: Arc) {
    (k.u in rows || (k.u == u0 && k.v in cols)) && Bridges(l, before, t, k.u, k.v)
  }

  ghost predicate Partial(l: Labels, before: Adjacency, t: Vertex, rows: set<Vertex>, u0: Vertex, cols: set<Vertex>,
                          adj: Adjacency)
  {
    && (forall k :: k in adj <==> k in before || Bridged(l, before, t, rows, u0, cols, k))
    && (forall k :: k in adj ==>
          adj[k] == if Bridged(l, before, t, rows, u0, cols, k) then BridgedFlags(l, before, t, k.u, k.v) else before[k])
  }

  /** The edges at t itself stay as they were. */
  lemma PartialAtT(l: Labels, before: Adjacency, t: Vertex, rows: set<Vertex>, u0: Vertex, cols: set<Vertex>,
                   adj: Adjacency, k: Arc)
    requires Partial(l, before, t, rows, u0, cols, adj)
    requires k.u == t || k.v == t
    ensures k in adj <==> k in before
    ensures k in adj ==> adj[k] == before[k]
  {
    assert !Bridged(l, before, t, rows, u0, cols, k);
  }

  lemma NoneDone(l: Labels, before: Adjacency, t: Vertex)
    ensures Partial(l, before, t, {}, t, {}, before)
  {
  }

  lemma RowStart(l: Labels, before: Adjacency, t: Vertex, rows: set<Vertex>, u: Vertex, adj: Adjacency)
    requires Partial(l, before, t, rows, t, {}, adj)
    ensures Partial(l, before, t, rows, u, {}, adj)
  {
    forall k ensures Bridged(l, before, t, rows, u, {}, k) <==> Bridged(l, before, t, rows, t, {}, k) {
    }
  }

  lemma OnePerArc(edges: map<EdgeId, Edge>, next: EdgeId, cache: map<Arc, EdgeId>, adj: Adjacency,
                  cleared: set<Vertex>, d: EdgeId)
    requires Holds(edges, next, adj, cleared) && Agrees(cache, edges, adj, cleared) && d in edges
    ensures forall e :: e in edges && edges[e].arc == edges[d].arc ==> e == d
    ensures edges[d].arc in adj && adj[edges[d].arc] == edges[d].flags
    ensures edges[d].arc.u !in cleared && edges[d].arc.v !in cleared
  {
  }

  /** Once the columns cover the out-edges of t, they cover every path through t. */
  lemma AllColumns(l: Labels, edges: map<EdgeId, Edge>, next: EdgeId, cache: map<Arc, EdgeId>, adj: Adjacency,
                   cleared: set<Vertex>, before: Adjacency, t: Vertex, rows: set<Vertex>, u: Vertex, cols: set<Vertex>)
    requires Holds(edges, next, adj, cleared) && Agrees(cache, edges, adj, cleared)
    requires Partial(l, before, t, rows, u, cols, adj)
    requires forall e :: e in edges && edges[e].arc.u == t ==> edges[e].arc.v in cols
    ensures forall v :: Bridges(l, before, t, u, v) ==> v in cols
  {
    forall v | Bridges(l, before, t, u, v) ensures v in cols {
      PartialAtT(l, before, t, rows, u, cols, adj, Arc(t, v));
      var e := cache[Arc(t, v)];
      assert edges[e].arc == Arc(t, v);
    }
  }

  /** A row without bridges needs no work. */
  lemma EmptyRow(l: Labels, before: Adjacency, t: Vertex, rows: set<Vertex>, u: Vertex, adj: Adjacency)
    requires Partial(l, before, t, rows, t, {}, adj)
    requires u == t || (Arc(u, t) in before && Conjunct(before[Arc(u, t)], l.Of(t)) == DEAD_EDGE)
    ensures Partial(l, before, t, rows + {u}, t, {}, adj)
  {
    RowStart(l, before, t, rows, u, adj);
    RowDone(l, before, t, rows, u, {}, adj);
  }

  lemma AllRows(l: Labels, edges: map<EdgeId, Edge>, next: EdgeId, cache: map<Arc, EdgeId>, adj: Adjacency,
                cleared: set<Vertex>, before: Adjacency, t: Vertex, rows: set<Vertex>)
    requires Holds(edges, next, adj, cleared) && Agrees(cache, edges, adj, cleared)
    requires Partial(l, before, t, rows, t, {}, adj)
    requires forall e :: e in edges && edges[e].arc.v == t ==> edges[e].arc.u in rows
    ensures forall u, v :: Bridges(l, before, t, u, v) ==> u in rows
  {
    forall u, v | Bridges(l, before, t, u, v) ensures u in rows {
      PartialAtT(l, before, t, rows, t, {}, adj, Arc(u, t));
      var e := cache[Arc(u, t)];
      assert edges[e].arc == Arc(u, t);
    }
  }

  lemma ColumnDone(l: Labels, before: Adjacency, t: Vertex, rows: set<Vertex>, u: Vertex, cols: set<Vertex>,
                   v: Vertex, adj: Adjacency, adj': Adjacency)
    requires Partial(l, before, t, rows, u, cols, adj) && u !in rows && v !in cols
    requires var k := Arc(u, v);
             adj' == if !Bridges(l, before, t, u, v) then adj
                     else adj[k := if k in adj then Disjunct(adj[k], PathFlags(before[Arc(u, t)], l.Of(t), before[Arc(t, v)]))
                                   else l.Of(t)]
    ensures Partial(l, before, t, rows, u, cols + {v}, adj')
  {
    hide Bridges, Disjunct, PathFlags;
    forall k ensures Bridged(l, before, t, rows, u, cols + {v}, k) <==>
                     Bridged(l, before, t, rows, u, cols, k) || (k == Arc(u, v) && Bridges(l, before, t, u, v))
    {
    }
    assert !Bridged(l, before, t, rows, u, cols, Arc(u, v));
  }

  lemma RowDone(l: Labels, before: Adjacency, t: Vertex, rows: set<Vertex>, u: Vertex, cols: set<Vertex>, adj: Adjacency)
    requires Partial(l, before, t, rows, u, cols, adj)
    requires forall v :: Bridges(l, before, t, u, v) ==> v in cols
    ensures Partial(l, before, t, rows + {u}, t, {}, adj)
  {
    hide Bridges, BridgedFlags;
    forall k ensures Bridged(l, before, t, rows + {u}, t, {}, k) <==> Bridged(l, before, t, rows, u, cols, k) {
    }
  }

  /** With every row done, clearing t leaves exactly the eliminated adjacency. */
  lemma RowsDone(l: Labels, before: Adjacency, t: Vertex, rows: set<Vertex>, adj: Adjacency)
    requires Partial(l, before, t, rows, t, {}, adj)
    requires forall u, v :: Bridges(l, before, t, u, v) ==> u in rows
    ensures (map k | k in adj && k.u != t && k.v != t :: adj[k]) == Eliminate(l, before, t)
  {
    hide BridgedFlags, Bridges, PathFlags, Eliminate;
    var after := map k | k in adj && k.u != t && k.v != t :: adj[k];
    var spec := Eliminate(l, before, t);
    forall k ensures k in after <==> k in spec
             ensures k in after ==> after[k] == spec[k]
    {
      assert k == Arc(k.u, k.v);
      assert Bridged(l, before, t, rows, t, {}, k) <==> Bridges(l, before, t, k.u, k.v);
      assert Joined(l, before, t, k.u, k.v) <==> k in after;
    }
  }

  // Counting the edges that are added ---------------------------------------------------------------------------

  /** The arcs that replacing t adds. */
  ghost function NewArcs(l: Labels, adj: Adjacency, t: Vertex): set<Arc> {
    set e | e in Pairs(adj) && Bridges(l, adj, t, e.u, e.v) && e !in adj
  }

  /** How many arcs the whole pass adds. */
  ghost function Added(l: Labels, adj: Adjacency, ts: seq<Vertex>): nat
    decreases |ts|
  {
    if ts == [] then 0
    else
      var init := ts[..|ts| - 1];
      Added(l, adj, init) + |NewArcs(l, EliminateAll(l, adj, init), ts[|ts| - 1])|
  }

  lemma AddedStep(l: Labels, adj: Adjacency, vs: seq<Vertex>, i: nat)
    requires i < |vs|
    ensures Added(l, adj, AssertVertices(l, vs[..i + 1])) == Added(l, adj, AssertVertices(l, vs[..i])) +
            if l.IsAssert(vs[i]) then |NewArcs(l, EliminateAll(l, adj, AssertVertices(l, vs[..i])), vs[i])| else 0
  {
    hide EliminateAll, NewArcs;
    AssertVerticesStep(l, vs, i);
    var a := AssertVertices(l, vs[..i]);
    assert (a + [vs[i]])[..|a|] == a;
  }

  lemma {:induction false} AddedGrows(l: Labels, adj: Adjacency, vs: seq<Vertex>, i: nat)
    requires i <= |vs|
    ensures Added(l, adj, AssertVertices(l, vs[..i])) <= Added(l, adj, AssertVertices(l, vs))
    decreases |vs| - i
  {
    hide EliminateAll, NewArcs, Added, AssertVertices;
    if i < |vs| {
      AddedStep(l, adj, vs, i);
      AddedGrows(l, adj, vs, i + 1);
    } else {
      assert vs[..i] == vs;
    }
  }

  /** So many edges were added since `before`, when there were n. */
  ghost predicate Counted(n: nat, before: Adjacency, adj: Adjacency, count: nat) {
    before.Keys <= adj.Keys && count == n + |adj.Keys - before.Keys|
  }

  lemma NoneCounted(adj: Adjacency, n: nat)
    ensures Counted(n, adj, adj, n)
  {
    assert adj.Keys - adj.Keys == {};
  }

  lemma CountOne(n: nat, before: Adjacency, adj: Adjacency, count: nat, k: Arc, f: Flags)
    requires Counted(n, before, adj, count)
    ensures Counted(n, before, adj[k := f], count + if k in adj then 0 else 1)
  {
    assert adj[k := f].Keys == adj.Keys + {k};
    OneMoreKey(adj.Keys, before.Keys, k);
  }

  lemma OneMoreKey(a: set<Arc>, b: set<Arc>, k: Arc)
    requires b <= a
    ensures |a + {k} - b| == |a - b| + if k in a then 0 else 1
  {
    if k in a {
      assert a + {k} == a;
    } else {
      assert a + {k} - b == (a - b) + {k};
    }
  }

  /** No arc is added that is not a bridge. */
  ghost predicate OnlyBridges(l: Labels, before: Adjacency, t: Vertex, adj: Adjacency) {
    forall k :: k in adj ==> k in before || Bridges(l, before, t, k.u, k.v)
  }

  lemma CountBound(l: Labels, before: Adjacency, t: Vertex, adj: Adjacency, n: nat, count: nat)
    requires Counted(n, before, adj, count) && OnlyBridges(l, before, t, adj)
    ensures count <= n + |NewArcs(l, before, t)|
  {
    hide Bridges;
    forall k | k in adj.Keys - before.Keys
      ensures k in NewArcs(l, before, t)
    {
      NewArcIn(l, before, t, k);
    }
    Smaller(adj.Keys - before.Keys, NewArcs(l, before, t));
  }

  lemma NewArcIn(l: Labels, before: Adjacency, t: Vertex, k: Arc)
    requires Bridges(l, before, t, k.u, k.v) && k !in before
    ensures k in NewArcs(l, before, t)
  {
    PairsSuffice(l, before, t, k.u, k.v);
    assert k == Arc(k.u, k.v);
  }

  lemma Smaller(a: set<Arc>, b: set<Arc>)
    requires a <= b
    ensures |a| <= |b|
  {
    assert b == a + (b - a);
  }

  lemma PartialOnly(l: Labels, before: Adjacency, t: Vertex, rows: set<Vertex>, u0: Vertex, cols: set<Vertex>, adj: Adjacency)
    requires Partial(l, before, t, rows, u0, cols, adj)
    ensures OnlyBridges(l, before, t, adj)
  {
    hide Bridges, BridgedFlags;
  }

  /** With every row done the count is exact. */
  lemma CountExact(l: Labels, before: Adjacency, t: Vertex, rows: set<Vertex>, adj: Adjacency, n: nat, count: nat)
    requires Partial(l, before, t, rows, t, {}, adj) && Counted(n, before, adj, count)
    requires forall u, v :: Bridges(l, before, t, u, v) ==> u in rows
    ensures count == n + |NewArcs(l, before, t)|
  {
    hide Bridges, Partial;
    PartialOnly(l, before, t, rows, t, {}, adj);
    CountBound(l, before, t, adj, n, count);
    forall k | k in NewArcs(l, before, t)
      ensures k in adj.Keys - before.Keys
    {
      BridgeDone(l, before, t, rows, adj, k);
    }
    Smaller(NewArcs(l, before, t), adj.Keys - before.Keys);
  }

  lemma BridgeDone(l: Labels, before: Adjacency, t: Vertex, rows: set<Vertex>, adj: Adjacency, k: Arc)
    requires Partial(l, before, t, rows, t, {}, adj) && Bridges(l, before, t, k.u, k.v) && k.u in rows
    ensures k in adj
  {
    hide Bridges, BridgedFlags;
    assert Bridged(l, before, t, rows, t, {}, k);
  }

  ghost predicate HasArc(es: seq<Edge>, k: Arc) {
    exists i :: 0 <= i < |es| && es[i].arc == k
  }

  lemma AdjacencyAt(es: seq<Edge>)
    requires Simple(es)
    ensures forall i :: 0 <= i < |es| ==> es[i].arc in AdjacencyOf(es) && AdjacencyOf(es)[es[i].arc] == es[i].flags
    ensures forall k :: k in AdjacencyOf(es) ==> HasArc(es, k)
  {
  }

  lemma InitiallyHolds(es: seq<Edge>, edges: map<EdgeId, Edge>)
    requires Simple(es) && edges == map i | 0 <= i < |es| :: es[i]
    ensures Holds(edges, |es|, AdjacencyOf(es), {}) && OneEdgePerArc(edges, AdjacencyOf(es))
  {
    hide AdjacencyOf;
    AdjacencyAt(es);
    forall k | k in AdjacencyOf(es)
      ensures exists e :: e in edges && edges[e].arc == k
    {
      assert HasArc(es, k);
      var i :| 0 <= i < |es| && es[i].arc == k;
      assert i in edges;
    }
  }

  /** A graph with one edge descriptor per vertex pair, and the cache of descriptors. */
  class Holder {
    const labels: Labels
    const vertices: seq<Vertex>
    var edges: map<EdgeId, Edge>
    var nextEdge: EdgeId
    var edgeCache: map<Arc, EdgeId>
    var assertEdgeCount: nat

    /** The flagged adjacency that the edge table stands for. */
    ghost var adj: Adjacency
    /** Vertices whose edges have been removed. */
    ghost var cleared: set<Vertex>

    ghost predicate Valid()
      reads this
    {
      Holds(edges, nextEdge, adj, cleared) && Agrees(edgeCache, edges, adj, cleared)
    }

    constructor (labels: Labels, vertices: seq<Vertex>, initial: seq<Edge>)
      requires Simple(initial)
      ensures this.labels == labels && this.vertices == vertices
      ensures adj == AdjacencyOf(initial) && cleared == {}
      ensures Holds(edges, nextEdge, adj, cleared) && OneEdgePerArc(edges, adj)
    {
      this.labels := labels;
      this.vertices := vertices;
      edges := map i | 0 <= i < |initial| :: initial[i];
      nextEdge := |initial|;
      edgeCache := map[];
      assertEdgeCount := 0;
      adj := AdjacencyOf(initial);
      cleared := {};
      new;
      InitiallyHolds(initial, edges);
    }

    /** Replace the path (u, t, v), of composed mask `final`, by a direct edge. */
    method Bridge(k: Arc, flags: Flags, final: Flags) returns (ok: bool)
      requires Valid()
      requires k.u !in cleared && k.v !in cleared
      modifies this`edges, this`nextEdge, this`edgeCache, this`assertEdgeCount, this`adj
      ensures Valid()
      ensures adj == old(adj)[k := if k in old(adj) then Disjunct(old(adj)[k], final) else flags]
      ensures forall t :: t != k.u && t != k.v ==> At(edges, t) == old(At(edges, t))
      ensures assertEdgeCount == old(assertEdgeCount) + if k in old(adj) then 0 else 1
      ensures ok <==> k in old(adj) || assertEdgeCount <= MAX_ASSERT_EDGES
    {
      hide Disjunct, Holds, Agrees;
      if k !in edgeCache {
        InsertKeeps(edges, nextEdge, edgeCache, adj, cleared, k, flags);
        var e := nextEdge;
        nextEdge := nextEdge + 1;
        edges := edges[e := Edge(k, flags)];
        adj := adj[k := flags];
        edgeCache := edgeCache[k := e];
        assertEdgeCount := assertEdgeCount + 1;
        return assertEdgeCount <= MAX_ASSERT_EDGES;
      }
      var e := edgeCache[k];
      KnownArc(edges, nextEdge, edgeCache, adj, cleared, k);
      var merged := Disjunct(edges[e].flags, final);
      RelabelKeeps(edges, nextEdge, edgeCache, adj, cleared, k, merged);
      edges := edges[e := Edge(k, merged)];
      adj := adj[k := merged];
      ok := true;
    }

    /** Remove every edge at t. The cache keeps its stale entries for t. */
    method ClearVertex(t: Vertex)
      requires Valid()
      modifies this`edges, this`adj, this`cleared
      ensures Valid()
      ensures cleared == old(cleared) + {t}
      ensures adj == map k | k in old(adj) && k.u != t && k.v != t :: old(adj)[k]
    {
      edges := map e | e in edges && edges[e].arc.u != t && edges[e].arc.v != t :: edges[e];
      adj := map k | k in adj && k.u != t && k.v != t :: adj[k];
      cleared := cleared + {t};
    }
  
    /** One path (u, t, v): bridged unless it is impassable or barred. */
    method BridgeColumn(u: Vertex, t: Vertex, outEdge: EdgeId, flags: Flags, incIn: Flags,
                        ghost before: Adjacency, ghost rows: set<Vertex>, ghost cols: set<Vertex>, ghost n: nat)
      returns (ok: bool)
      requires Valid()
      requires u !in cleared && u != t && u !in rows
      requires outEdge in edges && edges[outEdge].arc.u == t && edges[outEdge].arc.v !in cols
      requires Arc(u, t) in before && flags == labels.Of(t) && incIn == Conjunct(before[Arc(u, t)], flags) && incIn != DEAD_EDGE
      requires Partial(labels, before, t, rows, u, cols, adj)
      requires Counted(n, before, adj, assertEdgeCount)
      requires assertEdgeCount <= MAX_ASSERT_EDGES
      modifies this`edges, this`nextEdge, this`edgeCache, this`assertEdgeCount, this`adj
      ensures Valid()
      ensures Partial(labels, before, t, rows, u, cols + {old(edges[outEdge].arc.v)}, adj)
      ensures Counted(n, before, adj, assertEdgeCount)
      ensures At(edges, t) == old(At(edges, t))
      ensures ok <==> assertEdgeCount <= MAX_ASSERT_EDGES
    {
      hide Conjunct, Disjunct, Partial, BridgedFlags, Agrees, Counted;
      var v := edges[outEdge].arc.v;
      var final := Conjunct(edges[outEdge].flags, incIn);
      ghost var adj0 := adj;
      PartialAtT(labels, before, t, rows, u, cols, adj, Arc(t, v));
      ok := true;
      if v != t && final != DEAD_EDGE && !labels.Barred(u, v) {
        ghost var count := assertEdgeCount;
        ok := Bridge(Arc(u, v), flags, final);
        CountOne(n, before, adj0, count, Arc(u, v), adj[Arc(u, v)]);
      }
      ColumnDone(labels, before, t, rows, u, cols, v, adj0, adj);
    }
  
    /** Wire the predecessor u of t to every successor of t. */
    method BridgeRow(u: Vertex, t: Vertex, flags: Flags, incIn: Flags, ghost before: Adjacency, ghost rows: set<Vertex>,
                     ghost n: nat)
      returns (ok: bool)
      requires Valid()
      requires u !in cleared && u != t && u !in rows
      requires Arc(u, t) in before && flags == labels.Of(t) && incIn == Conjunct(before[Arc(u, t)], flags) && incIn != DEAD_EDGE
      requires Partial(labels, before, t, rows, t, {}, adj)
      requires Counted(n, before, adj, assertEdgeCount)
      requires assertEdgeCount <= MAX_ASSERT_EDGES
      modifies this`edges, this`nextEdge, this`edgeCache, this`assertEdgeCount, this`adj
      ensures Valid()
      ensures ok ==> Partial(labels, before, t, rows + {u}, t, {}, adj)
      ensures OnlyBridges(labels, before, t, adj) && Counted(n, before, adj, assertEdgeCount)
      ensures At(edges, t) == old(At(edges, t))
      ensures ok <==> assertEdgeCount <= MAX_ASSERT_EDGES
    {
      hide Conjunct, Partial, Bridges, BridgedFlags, Holds, Agrees, Counted, OnlyBridges;
      ghost var cols: set<Vertex> := {};
      ghost var at := At(edges, t);
      var outs := set e | e in edges && edges[e].arc.u == t;
      RowStart(labels, before, t, rows, u, adj);
      while outs != {}
        invariant Valid()
        invariant At(edges, t) == at
        invariant forall e :: e in outs ==> e in at && at[e].arc.u == t && at[e].arc.v !in cols
        invariant forall e :: e in at && at[e].arc.u == t ==> at[e].arc.v in cols || e in outs
        invariant assertEdgeCount <= MAX_ASSERT_EDGES
        invariant Partial(labels, before, t, rows, u, cols, adj)
        invariant Counted(n, before, adj, assertEdgeCount)
        decreases outs
      {
        var outEdge := AnyOf(outs);
        outs := outs - {outEdge};
        assert outEdge in At(edges, t);
        ghost var v := edges[outEdge].arc.v;
        OnePerArc(edges, nextEdge, edgeCache, adj, cleared, outEdge);
        ok := BridgeColumn(u, t, outEdge, flags, incIn, before, rows, cols, n);
        PartialOnly(labels, before, t, rows, u, cols + {v}, adj);
        if !ok { return; }
        cols := cols + {v};
      }
      assert forall e :: e in edges && edges[e].arc.u == t ==> e in At(edges, t);
      AllColumns(labels, edges, nextEdge, edgeCache, adj, cleared, before, t, rows, u, cols);
      RowDone(labels, before, t, rows, u, cols, adj);
      PartialOnly(labels, before, t, rows, u, cols, adj);
      ok := true;
    }
  
    /** Wire the predecessors of the assert vertex t to its successors, then unwire t. */
    method ReplaceAssertVertex(t: Vertex) returns (ok: bool)
      requires Valid()
      requires assertEdgeCount <= MAX_ASSERT_EDGES
      modifies this`edges, this`nextEdge, this`edgeCache, this`assertEdgeCount, this`adj, this`cleared
      ensures Valid()
      ensures ok ==> adj == Eliminate(labels, old(adj), t) && cleared == old(cleared) + {t}
      ensures ok ==> assertEdgeCount == old(assertEdgeCount) + |NewArcs(labels, old(adj), t)|
      ensures ok <==> old(assertEdgeCount) + |NewArcs(labels, old(adj), t)| <= MAX_ASSERT_EDGES
    {
      hide Conjunct, Partial, Bridges, BridgedFlags, Holds, Agrees, Eliminate, Counted, OnlyBridges, NewArcs;
      var flags := labels.Of(t);
      ghost var before, n := adj, assertEdgeCount;
      NoneCounted(before, n);
      NoneDone(labels, before, t);
      ghost var at := At(edges, t);
      ghost var rows: set<Vertex> := {};
      var ins := set e | e in edges && edges[e].arc.v == t;
      while ins != {}
        invariant Valid() && cleared == old(cleared)
        invariant At(edges, t) == at
        invariant forall e :: e in ins ==> e in at && at[e].arc.v == t && at[e].arc.u !in rows
        invariant forall e :: e in at && at[e].arc.v == t ==> at[e].arc.u in rows || e in ins
        invariant assertEdgeCount <= MAX_ASSERT_EDGES
        invariant Partial(labels, before, t, rows, t, {}, adj)
        invariant Counted(n, before, adj, assertEdgeCount)
        decreases ins
      {
        var inEdge := AnyOf(ins);
        ins := ins - {inEdge};
        assert inEdge in At(edges, t);
        var u := edges[inEdge].arc.u;
        OnePerArc(edges, nextEdge, edgeCache, adj, cleared, inEdge);
        PartialAtT(labels, before, t, rows, t, {}, adj, Arc(u, t));
        var incIn := Conjunct(edges[inEdge].flags, flags);
        if u != t && incIn != DEAD_EDGE {
          ok := BridgeRow(u, t, flags, incIn, before, rows, n);
          if !ok {
            CountBound(labels, before, t, adj, n, assertEdgeCount);
            return;
          }
        } else {
          EmptyRow(labels, before, t, rows, u, adj);
        }
        rows := rows + {u};
      }
      assert forall e :: e in edges && edges[e].arc.v == t ==> e in At(edges, t);
      AllRows(labels, edges, nextEdge, edgeCache, adj, cleared, before, t, rows);
      RowsDone(labels, before, t, rows, adj);
      CountExact(labels, before, t, rows, adj, n, assertEdgeCount);
      ClearVertex(t);
      ok := true;
    }
  
    /** Fill the cache from the edge table. */
    method BuildEdgeCache()
      requires Holds(edges, nextEdge, adj, cleared) && OneEdgePerArc(edges, adj) && cleared == {}
      modifies this`edgeCache
      ensures Valid()
    {
      edgeCache := map e | e in edges :: edges[e].arc := e;
    }

    /** The pass up to the point where every assert vertex has been replaced. False is the
        "Pattern is too large" error. */
    method RemoveAssertVertices() returns (ok: bool)
      requires Holds(edges, nextEdge, adj, cleared) && OneEdgePerArc(edges, adj) && cleared == {}
      modifies this
      ensures ok ==> adj == EliminateAll(labels, old(adj), AssertVertices(labels, vertices))
      ensures ok ==> Valid() && cleared == SetOf(AssertVertices(labels, vertices))
      ensures ok <==> Added(labels, old(adj), AssertVertices(labels, vertices)) <= MAX_ASSERT_EDGES
    {
      hide Eliminate, Holds, Agrees, OneEdgePerArc, NewArcs;
      assertEdgeCount := 0;
      BuildEdgeCache();
      for i := 0 to |vertices|
        invariant Valid()
        invariant assertEdgeCount <= MAX_ASSERT_EDGES
        invariant adj == EliminateAll(labels, old(adj), AssertVertices(labels, vertices[..i]))
        invariant cleared == SetOf(AssertVertices(labels, vertices[..i]))
        invariant assertEdgeCount == Added(labels, old(adj), AssertVertices(labels, vertices[..i]))
      {
        AssertVerticesStep(labels, vertices, i);
        AddedStep(labels, old(adj), vertices, i);
        AddedGrows(labels, old(adj), vertices, i + 1);
        if labels.Of(vertices[i]) & WORDBOUNDARY_FLAGS != 0 {
          ok := ReplaceAssertVertex(vertices[i]);
          if !ok { return; }
        }
      }
      assert vertices[..|vertices|] == vertices;
      ok := true;
    }
  }

  /** The assert vertices, in the order of the vertex range. */
  function AssertVertices(l: Labels, vs: seq<Vertex>): seq<Vertex> {
    if vs == [] then []
    else
      var init := AssertVertices(l, vs[..|vs| - 1]);
      if l.IsAssert(vs[|vs| - 1]) then init + [vs[|vs| - 1]] else init
  }

  lemma AssertVerticesStep(l: Labels, vs: seq<Vertex>, i: nat)
    requires i < |vs|
    ensures AssertVertices(l, vs[..i + 1]) ==
            if l.IsAssert(vs[i]) then AssertVertices(l, vs[..i]) + [vs[i]] else AssertVertices(l, vs[..i])
    ensures forall adj :: l.IsAssert(vs[i]) ==>
              EliminateAll(l, adj, AssertVertices(l, vs[..i + 1])) ==
              Eliminate(l, EliminateAll(l, adj, AssertVertices(l, vs[..i])), vs[i])
    ensures l.IsAssert(vs[i]) ==>
              SetOf(AssertVertices(l, vs[..i + 1])) == SetOf(AssertVertices(l, vs[..i])) + {vs[i]}
  {
    hide Eliminate;
    assert vs[..i + 1][..i] == vs[..i];
    var a := AssertVertices(l, vs[..i]);
    assert (a + [vs[i]])[..|a|] == a;
  }

  lemma {:induction false} AssertVerticesExact(l: Labels, vs: seq<Vertex>)
    requires Distinct(vs)
    ensures Distinct(AssertVertices(l, vs))
    ensures forall v :: v in AssertVertices(l, vs) <==> v in vs && l.IsAssert(v)
  {
    if vs != [] {
      AssertVerticesExact(l, vs[..|vs| - 1]);
      assert vs == vs[..|vs| - 1] + [vs[|vs| - 1]];
    }
  }

  /** The whole pass on a simple graph: after it succeeds, an edge between ordinary vertices lets a
      context through whenever the input graph had a walk through assert vertices that does; and,
      for compatible masks, only then. */
  method RunPass(l: Labels, vertices: seq<Vertex>, initial: seq<Edge>, ghost ucp: bool) returns (h: Holder, ok: bool)
    requires Simple(initial) && Distinct(vertices)
    requires forall v :: l.Marked(v) ==> v in vertices
    requires WellFlagged(l, AdjacencyOf(initial), ucp)
    ensures fresh(h)
    ensures ok <==> Added(l, AdjacencyOf(initial), AssertVertices(l, vertices)) <= 300000
    ensures ok ==> h.Valid() && forall e :: e in h.adj ==> !l.Marked(e.u) && !l.Marked(e.v)
    ensures ok ==> forall c: Context, u, v | c.ucp == ucp && !l.Marked(u) && !l.Marked(v) ::
              Follows(l, AdjacencyOf(initial), c, MarkedOf(l, vertices), u, v) ==> EdgeOpen(h.adj, c, u, v)
    ensures ok && MasksCompatible(l, AdjacencyOf(initial)) ==>
              forall c: Context, u, v | c.ucp == ucp && !l.Marked(u) && !l.Marked(v) ::
                EdgeOpen(h.adj, c, u, v) ==> Follows(l, AdjacencyOf(initial), c, MarkedOf(l, vertices), u, v)
  {
    hide Holds, OneEdgePerArc, WellFlagged, MasksCompatible, Follows, EdgeOpen, Labels.Marked, EliminateAll, Added;
    h := new Holder(l, vertices, initial);
    ok := h.RemoveAssertVertices();
    if ok {
      ghost var adj, ts := AdjacencyOf(initial), AssertVertices(l, vertices);
      MarkedVertices(l, vertices);
      forall e | e in h.adj
        ensures !l.Marked(e.u) && !l.Marked(e.v)
      {
        EliminationClears(l, adj, ts, e);
      }
      EliminationCovers(l, adj, ts, ucp);
      if MasksCompatible(l, adj) {
        forall c: Context, u, v | c.ucp == ucp && !l.Marked(u) && !l.Marked(v)
          ensures EdgeOpen(h.adj, c, u, v) ==> Follows(l, adj, c, MarkedOf(l, vertices), u, v)
        {
          EliminationExact(l, adj, ts, c, u, v);
        }
      }
    }
  }

  ghost function MarkedOf(l: Labels, vs: seq<Vertex>): set<Vertex> {
    set v | v in vs && l.Marked(v)
  }

  lemma MarkedVertices(l: Labels, vs: seq<Vertex>)
    requires Distinct(vs) && forall v :: l.Marked(v) ==> v in vs
    ensures Distinct(AssertVertices(l, vs)) && SetOf(AssertVertices(l, vs)) == MarkedOf(l, vs)
    ensures forall v :: v in AssertVertices(l, vs) <==> l.Marked(v)
    ensures forall v :: l.Marked(v) <==> l.IsAssert(v)
  {
    hide Labels.Marked;
    AssertVerticesExact(l, vs);
    forall v
      ensures l.Marked(v) <==> l.IsAssert(v)
    {
      MarkedIsAssert(l, v);
    }
  }
}
