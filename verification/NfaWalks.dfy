/** Declarative meaning of exact matching: walks over the input and the start of match they carry. */
module NfaWalks {
  import opened Common
  import opened NfaGraph

  /** The byte before offset k; zero at the beginning. */
  function Prev(input: seq<Byte>, k: nat): Byte
    requires k <= |input|
  {
    if k == 0 then 0 else input[k - 1]
  }

  /** The byte at offset k; zero past the end. */
  function Cur(input: seq<Byte>, k: nat): Byte
    requires k <= |input|
  {
    if k == |input| then 0 else input[k]
  }

  /** Between bytes both are those of the input; beyond the ends there is no word. */
  lemma Neighbours(input: seq<Byte>, k: nat)
    requires k <= |input|
    ensures if k == 0 then !IsWordChar(Prev(input, k)) else Prev(input, k) == input[k - 1]
    ensures if k == |input| then !IsWordChar(Cur(input, k)) && IsUtf8CodePoint(Cur(input, k)) else Cur(input, k) == input[k]
  {
  }

  predicate Initial(g: Graph, v: Vertex) {
    v == g.start || (v == g.startDs && g.AllowsStartDs())
  }

  /** Reading input[k] takes the walk from u to v. */
  predicate Moves(g: Graph, input: seq<Byte>, k: nat, u: Vertex, v: Vertex)
    requires k < |input|
  {
    && g.HasEdge(u, v)
    && !g.IsAnyAccept(v)
    && (v == g.startDs ==> g.AllowsStartDs())
    && g.Accepts(v, input[k])
    && CanReach(g.edges[Edge(u, v)], Prev(input, k), input[k])
  }

  /** Leaving u restarts the match. */
  predicate Resets(g: Graph, u: Vertex) {
    g.IsAnyStart(u) || u in g.virtualStarts
  }

  /** w[0], ..., w[n] reads the first n bytes of the input. */
  ghost predicate IsWalk(g: Graph, input: seq<Byte>, w: seq<Vertex>) {
    && 1 <= |w| <= |input| + 1
    && Initial(g, w[0])
    && (forall k :: 0 <= k < |w| - 1 ==> Moves(g, input, k, w[k], w[k + 1]))
  }

  /** A step by the edges, bytes and assertions of the graph alone. */
  predicate FreeMove(g: Graph, input: seq<Byte>, k: nat, u: Vertex, v: Vertex)
    requires k < |input|
  {
    && g.HasEdge(u, v) && v != g.accept && v != g.acceptEod && g.Accepts(v, input[k])
    && CanReach(g.edges[Edge(u, v)], Prev(input, k), input[k])
  }

  ghost predicate FreeWalk(g: Graph, input: seq<Byte>, w: seq<Vertex>) {
    && 1 <= |w| <= |input| + 1 && (w[0] == g.start || w[0] == g.startDs)
    && forall k :: 0 <= k < |w| - 1 ==> FreeMove(g, input, k, w[k], w[k + 1])
  }

  /** Leaving startDs out when it leads nowhere loses no walk that could go on to an accept. */
  lemma FreeWalkIsWalk(g: Graph, input: seq<Byte>, w: seq<Vertex>)
    requires |w| > 0 && (w[|w| - 1] == g.startDs ==> exists v :: v != g.startDs && g.HasEdge(g.startDs, v))
    ensures FreeWalk(g, input, w) <==> IsWalk(g, input, w)
  {
    hide CanReach;
    if FreeWalk(g, input, w) {
      if g.startDs in w {
        var k :| 0 <= k < |w| && w[k] == g.startDs;
        Leaves(g, input, w, k);
      }
      forall k | 0 <= k < |w| - 1
        ensures Moves(g, input, k, w[k], w[k + 1])
      {
        assert FreeMove(g, input, k, w[k], w[k + 1]);
      }
    }
    if IsWalk(g, input, w) {
      forall k | 0 <= k < |w| - 1
        ensures FreeMove(g, input, k, w[k], w[k + 1])
      {
        assert Moves(g, input, k, w[k], w[k + 1]);
      }
    }
  }

  lemma {:induction false} Leaves(g: Graph, input: seq<Byte>, w: seq<Vertex>, k: nat)
    requires FreeWalk(g, input, w) && k < |w| && w[k] == g.startDs
    requires w[|w| - 1] == g.startDs ==> exists v :: v != g.startDs && g.HasEdge(g.startDs, v)
    ensures g.AllowsStartDs()
    decreases |w| - k
  {
    hide CanReach;
    if k == |w| - 1 {
      var v :| v != g.startDs && g.HasEdge(g.startDs, v);
      assert Edge(g.startDs, v) in g.edges;
    } else if w[k + 1] == g.startDs {
      Leaves(g, input, w, k + 1);
    } else {
      assert FreeMove(g, input, k, w[k], w[k + 1]) && Edge(w[k], w[k + 1]) in g.edges;
    }
  }

  /** The start of match of a walk: the last offset at which it left a start, else 0. */
  ghost function WalkSom(g: Graph, w: seq<Vertex>): nat {
    if |w| <= 1 then 0
    else if Resets(g, w[|w| - 2]) then |w| - 2
    else WalkSom(g, w[..|w| - 1])
  }

  ghost predicate WalkTo(g: Graph, input: seq<Byte>, n: nat, v: Vertex, som: nat, w: seq<Vertex>) {
    IsWalk(g, input, w) && |w| == n + 1 && w[n] == v && WalkSom(g, w) == som
  }

  /** `active` holds exactly the vertices reached by reading n bytes, each with its leftmost start. */
  ghost predicate Exact(g: Graph, input: seq<Byte>, n: nat, active: map<Vertex, nat>) {
    && (forall v, som, w :: WalkTo(g, input, n, v, som, w) ==> v in active && active[v] <= som)
    && (forall v :: v in active ==> exists w :: WalkTo(g, input, n, v, active[v], w))
  }

  lemma ExtendWalk(g: Graph, input: seq<Byte>, n: nat, u: Vertex, som: nat, w: seq<Vertex>, v: Vertex)
    requires n < |input| && WalkTo(g, input, n, u, som, w) && Moves(g, input, n, u, v)
    ensures WalkTo(g, input, n + 1, v, if Resets(g, u) then n else som, w + [v])
  {
    var x := w + [v];
    assert x[..|x| - 1] == w;
    forall k | 0 <= k < |x| - 1 ensures Moves(g, input, k, x[k], x[k + 1]) {
      assert k < n ==> x[k] == w[k] && x[k + 1] == w[k + 1];
    }
  }

  lemma SplitWalk(g: Graph, input: seq<Byte>, n: nat, v: Vertex, som: nat, w: seq<Vertex>) returns (u: Vertex, som': nat)
    requires WalkTo(g, input, n + 1, v, som, w)
    ensures n < |input| && WalkTo(g, input, n, u, som', w[..n + 1]) && Moves(g, input, n, u, v)
    ensures som == if Resets(g, u) then n else som'
  {
    u, som' := w[n], WalkSom(g, w[..n + 1]);
    assert Moves(g, input, n, w[n], w[n + 1]);
    assert w[..|w| - 1] == w[..n + 1];
    var x := w[..n + 1];
    forall k | 0 <= k < |x| - 1 ensures Moves(g, input, k, x[k], x[k + 1]) {
      assert Moves(g, input, k, w[k], w[k + 1]);
    }
  }

  /** A candidate for the next active set: vertex v with a start inherited or reset from u. */
  ghost predicate Candidate(g: Graph, input: seq<Byte>, n: nat, active: map<Vertex, nat>, u: Vertex, v: Vertex)
    requires n < |input|
  {
    u in active && Moves(g, input, n, u, v)
  }

  ghost function CandidateSom(g: Graph, n: nat, active: map<Vertex, nat>, u: Vertex): nat
    requires u in active
  {
    if Resets(g, u) then n else active[u]
  }

  /** `next` keeps, for every candidate vertex, the least start among its candidates. */
  ghost predicate LeastStep(g: Graph, input: seq<Byte>, n: nat, active: map<Vertex, nat>, next: map<Vertex, nat>)
    requires n < |input|
  {
    && (forall u, v :: Candidate(g, input, n, active, u, v) ==> v in next && next[v] <= CandidateSom(g, n, active, u))
    && (forall v :: v in next ==>
          exists u :: Candidate(g, input, n, active, u, v) && next[v] == CandidateSom(g, n, active, u))
  }

  /** Stepping an exact set with least starts gives an exact set: the minimum over walks is the minimum over
      predecessors of their minima. */
  lemma StepKeepsExact(g: Graph, input: seq<Byte>, n: nat, active: map<Vertex, nat>, next: map<Vertex, nat>)
    requires n < |input| && Exact(g, input, n, active) && LeastStep(g, input, n, active, next)
    ensures Exact(g, input, n + 1, next)
  {
    hide Moves;
    var m := n + 1;
    forall v, som, w | WalkTo(g, input, m, v, som, w) ensures v in next && next[v] <= som {
      var u, som' := SplitWalk(g, input, n, v, som, w);
      assert WalkTo(g, input, n, u, som', w[..m]);
      assert Candidate(g, input, n, active, u, v);
    }
    forall v | v in next ensures exists w :: WalkTo(g, input, m, v, next[v], w) {
      var u :| Candidate(g, input, n, active, u, v) && next[v] == CandidateSom(g, n, active, u);
      var w :| WalkTo(g, input, n, u, active[u], w);
      ExtendWalk(g, input, n, u, active[u], w, v);
    }
  }

  lemma InitialExact(g: Graph, input: seq<Byte>, active: map<Vertex, nat>)
    requires forall v :: v in active <==> Initial(g, v)
    requires forall v :: v in active ==> active[v] == 0
    ensures Exact(g, input, 0, active)
  {
    forall v | v in active ensures exists w :: WalkTo(g, input, 0, v, active[v], w) {
      assert WalkTo(g, input, 0, v, 0, [v]);
    }
  }

  /** Once no vertex is active, no longer walk exists. */
  lemma {:induction false} DeadStaysDead(g: Graph, input: seq<Byte>, n: nat, m: nat, v: Vertex, som: nat, w: seq<Vertex>)
    requires n <= m && Exact(g, input, n, map[])
    ensures !WalkTo(g, input, m, v, som, w)
    decreases m
  {
    if WalkTo(g, input, m, v, som, w) && n < m {
      var u, som' := SplitWalk(g, input, m - 1, v, som, w);
      DeadStaysDead(g, input, n, m - 1, u, som', w[..m]);
    }
  }
}
