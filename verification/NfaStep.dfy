/** One step of the reference matcher over all active nodes. */
module NfaStep {
  import opened Common
  import opened NfaGraph
  import opened StateSets
  import opened Ranges

  /** k is a successor of c in the transition tables. */
  predicate IsSuccessor(g: Graph, f: Fuzz, c: Node, k: Node) {
    && c.level <= k.level <= f.dist
    && k.idx in (if k.helper then HelperTransitions(g, f, c.idx, k.level - c.level)
                 else ShadowTransitions(g, f, c.idx, k.level - c.level))
  }

  /** Reading `cur` after `prev` takes node c to node k. */
  predicate Steps(g: Graph, f: Fuzz, prev: Byte, cur: Byte, c: Node, k: Node) {
    IsSuccessor(g, f, c, k) && Permitted(g, prev, cur, c, k)
  }

  predicate Permitted(g: Graph, prev: Byte, cur: Byte, c: Node, k: Node) {
    var u, v := c.idx, k.idx;
    && !g.IsAnyAccept(v)
    && (g.AllowsStartDs() || v != g.startDs)
    && !(u == g.startDs && v == g.startDs && k.level != 0 && k.level == c.level)
    && !(u == g.start && v == g.startDs && c.level != 0 && k.level != 0)
    && (k.helper || (g.Accepts(v, cur) && (Edge(u, v) in g.edges ==> CanReach(g.edges[Edge(u, v)], prev, cur))))
  }

  predicate ResetsSom(g: Graph, c: Node) {
    (g.IsAnyStart(c.idx) && c.level == 0) || (c.idx in g.virtualStarts && !c.helper)
  }

  function NextSom(g: Graph, c: Node, som: nat, offset: nat): nat {
    if ResetsSom(g, c) then offset else som
  }

  /** `next` holds every node some active node steps to, with the least start on offer. */
  ghost predicate StepsTo(g: Graph, f: Fuzz, prev: Byte, cur: Byte, offset: nat, view: map<Node, nat>, next: map<Node, nat>) {
    && (forall c, k :: c in view && Steps(g, f, prev, cur, c, k) ==> k in next && next[k] <= NextSom(g, c, view[c], offset))
    && (forall k :: k in next ==>
          exists c :: c in view && Steps(g, f, prev, cur, c, k) && next[k] == NextSom(g, c, view[c], offset))
  }

  /** An activation requested by a step. */
  datatype Move = Move(c: Node, k: Node, som: nat)

  /** `next` is the result of the requested activations: least start per node. */
  ghost predicate Summary(next: map<Node, nat>, moves: set<Move>) {
    && (forall m :: m in moves ==> m.k in next && next[m.k] <= m.som)
    && (forall k :: k in next ==> exists m :: m in moves && m.k == k && m.som == next[k])
  }

  lemma SummaryStep(next: map<Node, nat>, moves: set<Move>, m: Move)
    requires Summary(next, moves)
    ensures Summary(Activate(next, m.k, m.som), moves + {m})
  {
    var next', moves' := Activate(next, m.k, m.som), moves + {m};
    forall k | k in next' ensures exists x :: x in moves' && x.k == k && x.som == next'[k] {
      if k == m.k && next'[k] == m.som {
        assert m in moves';
      } else {
        var x :| x in moves && x.k == k && x.som == next[k];
        assert x in moves';
      }
    }
  }

  method GetSuccessors(g: Graph, f: Fuzz, c: Node) returns (result: set<Node>)
    requires c.level <= f.dist
    ensures forall k :: k in result <==> IsSuccessor(g, f, c, k)
  {
    hide HelperTransitions, ShadowTransitions;
    result := {};
    for d := 0 to f.dist - c.level + 1
      invariant forall k :: k in result <==> IsSuccessor(g, f, c, k) && k.level < c.level + d
    {
      var l := c.level + d;
      var shadow := set v | v in ShadowTransitions(g, f, c.idx, d) :: Node(false, l, v);
      var helper := set v | v in HelperTransitions(g, f, c.idx, d) :: Node(true, l, v);
      ghost var before := result;
      result := result + shadow + helper;
      forall k ensures k in result <==> IsSuccessor(g, f, c, k) && k.level < l + 1 {
        assert k == Node(k.helper, k.level, k.idx);
      }
    }
  }

  /** The activations that node c asks for. */
  ghost predicate MovesOf(g: Graph, f: Fuzz, prev: Byte, cur: Byte, offset: nat, view: map<Node, nat>, m: Move) {
    m.c in view && Steps(g, f, prev, cur, m.c, m.k) && m.som == NextSom(g, m.c, view[m.c], offset)
  }

  method StepFrom(g: Graph, f: Fuzz, prev: Byte, cur: Byte, offset: nat, s: State, next: StateSet,
                  ghost view: map<Node, nat>, ghost moves: set<Move>) returns (ghost moves': set<Move>)
    requires next.Valid() && next.dist == f.dist && s.node.level <= f.dist
    requires s.node in view && view[s.node] == s.som
    requires Summary(next.view, moves)
    requires forall m :: m in moves ==> MovesOf(g, f, prev, cur, offset, view, m)
    modifies next
    ensures next.Valid() && Summary(next.view, moves') && moves <= moves'
    ensures forall m :: m in moves' ==> MovesOf(g, f, prev, cur, offset, view, m)
    ensures forall m :: MovesOf(g, f, prev, cur, offset, view, m) && m.c == s.node ==> m in moves'
  {
    hide IsSuccessor, Permitted, Summary, NextSom;
    var c := s.node;
    var succs := GetSuccessors(g, f, c);
    var todo := succs;
    moves' := moves;
    while todo != {}
      invariant todo <= succs
      invariant next.Valid() && Summary(next.view, moves') && moves <= moves'
      invariant forall m :: m in moves' ==> MovesOf(g, f, prev, cur, offset, view, m)
      invariant forall m :: MovesOf(g, f, prev, cur, offset, view, m) && m.c == c && m.k in succs - todo ==> m in moves'
      decreases todo
    {
      var k := AnyOf(todo);
      todo := todo - {k};
      if Permitted(g, prev, cur, c, k) {
        var som := NextSom(g, c, s.som, offset);
        ghost var m := Move(c, k, som);
        SummaryStep(next.view, moves', m);
        SuccessorLevel(g, f, c, k);
        next.ActivateState(k, som);
        moves' := moves' + {m};
      }
    }
  }

  lemma SuccessorLevel(g: Graph, f: Fuzz, c: Node, k: Node)
    requires IsSuccessor(g, f, c, k)
    ensures k.level <= f.dist
  {
  }

  /** Step every active node; `states` itself is left alone. */
  method Step(g: Graph, f: Fuzz, prev: Byte, cur: Byte, offset: nat, states: StateSet, next: StateSet)
    requires states.Valid() && next.Valid() && states != next && states.dist == next.dist == f.dist
    requires forall k :: k in states.view && k.helper ==> k.level > 0
    modifies next
    ensures states.Valid() && next.Valid()
    ensures StepsTo(g, f, prev, cur, offset, states.view, next.view)
    ensures forall k :: k in next.view && k.helper ==> k.level > 0
  {
    hide Steps, Summary, NextSom;
    next.Reset();
    ghost var view := states.view;
    var active := states.GetActiveStates();
    ghost var moves: set<Move> := {};
    NoMoves();
    for i := 0 to |active|
      invariant next.Valid() && states.Valid() && states.view == view
      invariant Summary(next.view, moves)
      invariant forall m :: m in moves ==> MovesOf(g, f, prev, cur, offset, view, m)
      invariant forall m, j :: 0 <= j < i && MovesOf(g, f, prev, cur, offset, view, m) && m.c == active[j].node ==> m in moves
    {
      assert active[i] in active;
      moves := StepFrom(g, f, prev, cur, offset, active[i], next, view, moves);
    }
    forall m | MovesOf(g, f, prev, cur, offset, view, m) ensures m in moves {
      assert State(m.c, view[m.c]) in active;
      var j :| 0 <= j < |active| && active[j] == State(m.c, view[m.c]);
      assert m.c == active[j].node;
    }
    SummaryIsStep(g, f, prev, cur, offset, view, next.view, moves);
  }

  lemma NoMoves()
    ensures Summary(map[], {})
  {
  }

  lemma SummaryIsStep(g: Graph, f: Fuzz, prev: Byte, cur: Byte, offset: nat, view: map<Node, nat>, next: map<Node, nat>,
                      moves: set<Move>)
    requires Summary(next, moves)
    requires forall m :: m in moves <==> MovesOf(g, f, prev, cur, offset, view, m)
    ensures StepsTo(g, f, prev, cur, offset, view, next)
    ensures forall k :: k in next && k.helper ==> k.level > 0
  {
    hide Permitted, NextSom, ShadowTransitions;
    forall c, k | c in view && Steps(g, f, prev, cur, c, k)
      ensures k in next && next[k] <= NextSom(g, c, view[c], offset)
    {
      var m := Move(c, k, NextSom(g, c, view[c], offset));
      assert MovesOf(g, f, prev, cur, offset, view, m);
      assert m in moves;
    }
    forall k | k in next
      ensures exists c :: c in view && Steps(g, f, prev, cur, c, k) && next[k] == NextSom(g, c, view[c], offset)
      ensures k.helper ==> k.level > 0
    {
      var m :| m in moves && m.k == k && m.som == next[k];
      assert MovesOf(g, f, prev, cur, offset, view, m);
    }
  }
}
