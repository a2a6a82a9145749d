/** Sets of automaton states with edit levels and start-of-match values. */
module StateSets {
  import opened Common
  import opened NfaGraph
  import opened Ranges

  /** A shadow or helper node: vertex idx at an edit level. */
  datatype Node = Node(helper: bool, level: nat, idx: Vertex)

  datatype State = State(node: Node, som: nat)

  /** Activation: a node that is already on keeps the smaller start. */
  function Activate(view: map<Node, nat>, k: Node, som: nat): map<Node, nat> {
    view[k := if k in view && view[k] < som then view[k] else som]
  }

  /** One family of nodes: the bits say which are active, the cached starts are theirs. */
  ghost predicate Layer(bits: seq<set<Vertex>>, soms: seq<map<Vertex, nat>>, view: map<Node, nat>, helper: bool, dist: nat) {
    && |bits| == |soms| == dist + 1
    && (forall l, x :: 0 <= l <= dist ==> (x in bits[l] <==> Node(helper, l, x) in view))
    && (forall l, x :: 0 <= l <= dist && x in bits[l] ==> x in soms[l] && soms[l][x] == view[Node(helper, l, x)])
  }

  function WithBit(bits: seq<set<Vertex>>, l: nat, x: Vertex): seq<set<Vertex>>
    requires l < |bits|
  {
    bits[l := bits[l] + {x}]
  }

  function WithSom(bits: seq<set<Vertex>>, soms: seq<map<Vertex, nat>>, l: nat, x: Vertex, som: nat): seq<map<Vertex, nat>>
    requires l < |bits| == |soms|
  {
    soms[l := Lowered(soms[l], x in bits[l], x, som)]
  }

  function Lowered(soms: map<Vertex, nat>, on: bool, x: Vertex, som: nat): map<Vertex, nat> {
    soms[x := if on && x in soms && soms[x] < som then soms[x] else som]
  }

  lemma LayerActivates(bits: seq<set<Vertex>>, soms: seq<map<Vertex, nat>>, view: map<Node, nat>, dist: nat, k: Node, som: nat)
    requires Layer(bits, soms, view, k.helper, dist) && k.level <= dist
    ensures Layer(WithBit(bits, k.level, k.idx), WithSom(bits, soms, k.level, k.idx, som), Activate(view, k, som), k.helper, dist)
  {
    assert k == Node(k.helper, k.level, k.idx);
  }

  lemma LayerKeeps(bits: seq<set<Vertex>>, soms: seq<map<Vertex, nat>>, view: map<Node, nat>, helper: bool, dist: nat,
                   k: Node, som: nat)
    requires Layer(bits, soms, view, helper, dist) && helper != k.helper
    ensures Layer(bits, soms, Activate(view, k, som), helper, dist)
  {
  }

  /** Bit sets of active vertices per level, with cached starts beside them. */
  class StateSet {
    const size: nat
    const dist: nat
    var shadows: seq<set<Vertex>>
    var helpers: seq<set<Vertex>>
    var shadowsSom: seq<map<Vertex, nat>>
    var helpersSom: seq<map<Vertex, nat>>

    /** The active nodes and their starts. */
    ghost var view: map<Node, nat>

    ghost predicate Valid()
      reads this
    {
      && (forall k :: k in view ==> k.level <= dist)
      && Layer(shadows, shadowsSom, view, false, dist)
      && Layer(helpers, helpersSom, view, true, dist)
    }

    constructor (size: nat, dist: nat)
      ensures Valid() && this.size == size && this.dist == dist && view == map[]
    {
      this.size := size;
      this.dist := dist;
      shadows := seq(dist + 1, _ => {});
      helpers := seq(dist + 1, _ => {});
      shadowsSom := seq(dist + 1, _ => map[]);
      helpersSom := seq(dist + 1, _ => map[]);
      view := map[];
    }

    method Reset()
      requires Valid()
      modifies this`shadows, this`helpers, this`shadowsSom, this`helpersSom, this`view
      ensures Valid() && view == map[]
    {
      shadows := seq(dist + 1, _ => {});
      helpers := seq(dist + 1, _ => {});
      shadowsSom := seq(dist + 1, _ => map[]);
      helpersSom := seq(dist + 1, _ => map[]);
      view := map[];
    }

    method ActivateState(k: Node, som: nat)
      requires Valid() && k.level <= dist
      modifies this`shadows, this`helpers, this`shadowsSom, this`helpersSom, this`view
      ensures Valid() && view == Activate(old(view), k, som)
    {
      hide Layer, WithBit, WithSom;
      LayerSize(this);
      if k.helper {
        LayerActivates(helpers, helpersSom, view, dist, k, som);
        LayerKeeps(shadows, shadowsSom, view, false, dist, k, som);
        helpers, helpersSom := WithBit(helpers, k.level, k.idx), WithSom(helpers, helpersSom, k.level, k.idx, som);
      } else {
        LayerActivates(shadows, shadowsSom, view, dist, k, som);
        LayerKeeps(helpers, helpersSom, view, true, dist, k, som);
        shadows, shadowsSom := WithBit(shadows, k.level, k.idx), WithSom(shadows, shadowsSom, k.level, k.idx, som);
      }
      view := Activate(view, k, som);
    }

    /** Every active node with its start; helpers exist from level 1 on. */
    method GetActiveStates() returns (result: seq<State>)
      requires Valid() && forall k :: k in view && k.helper ==> k.level > 0
      ensures forall s :: s in result ==> s.node in view && view[s.node] == s.som
      ensures forall k :: k in view ==> State(k, view[k]) in result
    {
      result := [];
      for l := 0 to dist + 1
        invariant forall s :: s in result ==> s.node in view && view[s.node] == s.som
        invariant forall k :: k in view && k.level < l ==> State(k, view[k]) in result
      {
        assert forall k :: k in view ==> k == Node(k.helper, k.level, k.idx);
        var more := Collect(shadows[l], shadowsSom[l], false, l);
        result := result + more;
        if l > 0 {
          more := Collect(helpers[l], helpersSom[l], true, l);
          result := result + more;
        }
      }
    }

    method Collect(bits: set<Vertex>, soms: map<Vertex, nat>, helper: bool, l: nat) returns (result: seq<State>)
      requires forall x :: x in bits ==> Node(helper, l, x) in view && x in soms && soms[x] == view[Node(helper, l, x)]
      requires forall k :: k in view && k.level == l && k.helper == helper ==> k.idx in bits
      ensures forall s :: s in result ==> s.node in view && view[s.node] == s.som
      ensures forall k :: k in view && k.level == l && k.helper == helper ==> State(k, view[k]) in result
    {
      result := [];
      var todo := bits;
      while todo != {}
        invariant todo <= bits
        invariant forall s :: s in result ==> s.node in view && view[s.node] == s.som
        invariant forall x :: x in bits - todo ==> State(Node(helper, l, x), view[Node(helper, l, x)]) in result
        decreases todo
      {
        var x := AnyOf(todo);
        todo := todo - {x};
        result := result + [State(Node(helper, l, x), soms[x])];
      }
      forall k | k in view && k.level == l && k.helper == helper ensures State(k, view[k]) in result {
        assert k == Node(helper, l, k.idx) && k.idx in bits - todo;
      }
    }

    method IsEmpty() returns (empty: bool)
      requires Valid()
      ensures empty <==> view == map[]
    {
      for l := 0 to dist + 1
        invariant forall k :: k in view ==> k.level >= l
      {
        if shadows[l] != {} || helpers[l] != {} {
          assert view != map[] by { NonEmpty(shadows, shadowsSom, helpers, helpersSom, view, dist, l); }
          return false;
        }
      }
      empty := true;
    }

    /** Take over another set's contents. */
    method CopyFrom(other: StateSet)
      requires Valid() && other.Valid() && other.dist == dist
      modifies this`shadows, this`helpers, this`shadowsSom, this`helpersSom, this`view
      ensures Valid() && view == old(other.view)
    {
      shadows, helpers := other.shadows, other.helpers;
      shadowsSom, helpersSom := other.shadowsSom, other.helpersSom;
      view := other.view;
    }
  }

  lemma LayerSize(s: StateSet)
    requires s.Valid()
    ensures |s.shadows| == |s.helpers| == |s.shadowsSom| == |s.helpersSom| == s.dist + 1
  {
  }

  lemma NonEmpty(shadows: seq<set<Vertex>>, shadowsSom: seq<map<Vertex, nat>>, helpers: seq<set<Vertex>>,
                 helpersSom: seq<map<Vertex, nat>>, view: map<Node, nat>, dist: nat, l: nat)
    requires Layer(shadows, shadowsSom, view, false, dist) && Layer(helpers, helpersSom, view, true, dist) && l <= dist
    requires shadows[l] != {} || helpers[l] != {}
    ensures exists k :: k in view
  {
    if shadows[l] != {} {
      var x := Member(shadows[l]);
      assert Node(false, l, x) in view;
    } else {
      var x := Member(helpers[l]);
      assert Node(true, l, x) in view;
    }
  }

  lemma Member<T>(s: set<T>) returns (x: T)
    requires s != {}
    ensures x in s
  {
    x :| x in s;
  }
}
