/** What approximate matching promises: a stretch of the input that can be edited into a path of the graph. The
    matcher's runs are exactly those edits, but for one kind. */
module NfaSpelling {
  import opened Common
  import opened NfaGraph
  import opened NfaWalks
  import opened StateSets
  import opened NfaStep
  import opened NfaAlign

  /** Graphs that approximate matching is offered for: the special vertices stand as the graph holder puts them, and
      there are no assertions. */
  ghost predicate Fuzzable(g: Graph) {
    && g.Valid() && g.HasEdge(g.startDs, g.startDs) && (forall c: Byte :: g.Accepts(g.startDs, c))
    && (forall e :: e in g.edges ==> InPlace(g, e) && g.edges[e] == 0)
  }

  /** Nothing leads into start, only the starts lead into startDs, and the accepts lead nowhere. */
  predicate InPlace(g: Graph, e: Edge) {
    && e.v != g.start && (e.v == g.startDs ==> g.IsAnyStart(e.u))
    && (g.IsAnyAccept(e.u) ==> e.u == g.accept && e.v == g.acceptEod)
  }

  /** Where a match may begin: start at the beginning of the data, startDs anywhere. */
  predicate Begins(g: Graph, n: nat, v: Vertex) {
    (v == g.start && n == 0) || (v == g.startDs && g.AllowsStartDs())
  }

  /** The script edits the bytes from s to n into a path from a start to v. At a Hamming distance bytes are only
      replaced, and, unless `loops`, not on an edge that stays where it is. Virtual starts are never replaced. */
  ghost predicate Spells(g: Graph, f: Fuzz, loops: bool, input: seq<Byte>, s: nat, ops: seq<Op>, n: nat, v: Vertex)
    requires n <= |input|
    decreases |ops|
  {
    if ops == [] then n == s && Begins(g, n, v)
    else
      var init, op := ops[..|ops| - 1], ops[|ops| - 1];
      match op
      case Insert => !f.hamming && s < n && Spells(g, f, loops, input, s, init, n - 1, v)
      case Delete(w) =>
        !f.hamming && v == w && !g.IsSpecial(v) && exists u :: g.HasEdge(u, v) && Spells(g, f, loops, input, s, init, n, u)
      case Replace(w) =>
        && v == w && !g.IsSpecial(v) && v !in g.virtualStarts && s < n
        && exists u :: g.HasEdge(u, v) && (f.hamming && !loops ==> u != v) && Spells(g, f, loops, input, s, init, n - 1, u)
      case Keep(w) =>
        && v == w && !g.IsSpecial(v) && s < n && g.Accepts(v, input[n - 1])
        && exists u :: g.HasEdge(u, v) && Spells(g, f, loops, input, s, init, n - 1, u)
  }

  /** How many bytes a script reads. */
  function Bytes(ops: seq<Op>): nat {
    if ops == [] then 0 else Bytes(ops[..|ops| - 1]) + if ops[|ops| - 1].Delete? then 0 else 1
  }

  /** The last byte was kept on a virtual start. */
  predicate AtVirtual(g: Graph, ops: seq<Op>) {
    ops != [] &&
    var op := ops[|ops| - 1];
    if op.Delete? then AtVirtual(g, ops[..|ops| - 1]) else op.Keep? && op.v in g.virtualStarts
  }

  /** The start that is reported: the first byte of the script, or the first one behind its last virtual start; a script
      that reads nothing reports the byte before it. */
  function Start(g: Graph, s: nat, ops: seq<Op>): nat
    decreases |ops|, 0
  {
    if ops == [] then (if s == 0 then 0 else s - 1)
    else if ops[|ops| - 1].Delete? then Start(g, s, ops[..|ops| - 1])
    else Later(g, s, ops[..|ops| - 1])
  }

  /** The start once another byte is read. */
  function Later(g: Graph, s: nat, ops: seq<Op>): nat
    decreases |ops|, 1
  {
    if Bytes(ops) == 0 then s else if AtVirtual(g, ops) then s + Bytes(ops) else Start(g, s, ops)
  }

  lemma OneMore(g: Graph, s: nat, ops: seq<Op>, op: Op)
    ensures (ops + [op])[..|ops + [op]| - 1] == ops
    ensures Cost(ops + [op]) == Cost(ops) + if op.Keep? then 0 else 1
    ensures Bytes(ops + [op]) == Bytes(ops) + if op.Delete? then 0 else 1
    ensures AtVirtual(g, ops + [op]) <==>
            if op.Delete? then AtVirtual(g, ops) else op.Keep? && op.v in g.virtualStarts
    ensures Start(g, s, ops + [op]) == if op.Delete? then Start(g, s, ops) else Later(g, s, ops)
    ensures op.Delete? ==> Later(g, s, ops + [op]) == Later(g, s, ops)
  {
    assert (ops + [op])[..|ops + [op]| - 1] == ops;
  }

  lemma {:induction false} SpellsBytes(g: Graph, f: Fuzz, loops: bool, input: seq<Byte>, s: nat, ops: seq<Op>, n: nat,
                                       v: Vertex)
    requires n <= |input| && Spells(g, f, loops, input, s, ops, n, v)
    ensures n == s + Bytes(ops)
    decreases |ops|
  {
    if ops != [] {
      var init, op := ops[..|ops| - 1], ops[|ops| - 1];
      if op.Insert? {
        SpellsBytes(g, f, loops, input, s, init, n - 1, v);
      } else {
        var m := if op.Delete? then n else n - 1;
        var u :| g.HasEdge(u, v) && Spells(g, f, loops, input, s, init, m, u);
        SpellsBytes(g, f, loops, input, s, init, m, u);
      }
    }
  }

  lemma KeepSpells(g: Graph, f: Fuzz, loops: bool, input: seq<Byte>, s: nat, ops: seq<Op>, n: nat, u: Vertex, v: Vertex)
    requires n < |input| && Spells(g, f, loops, input, s, ops, n, u) && g.HasEdge(u, v) && !g.IsSpecial(v)
    requires g.Accepts(v, input[n])
    ensures Spells(g, f, loops, input, s, ops + [Keep(v)], n + 1, v)
  {
    SpellsBytes(g, f, loops, input, s, ops, n, u);
    assert (ops + [Keep(v)])[..|ops|] == ops;
  }

  lemma ReplaceSpells(g: Graph, f: Fuzz, loops: bool, input: seq<Byte>, s: nat, ops: seq<Op>, n: nat, u: Vertex, v: Vertex)
    requires n < |input| && Spells(g, f, loops, input, s, ops, n, u) && g.HasEdge(u, v) && !g.IsSpecial(v)
    requires v !in g.virtualStarts && (f.hamming && !loops ==> u != v)
    ensures Spells(g, f, loops, input, s, ops + [Replace(v)], n + 1, v)
  {
    SpellsBytes(g, f, loops, input, s, ops, n, u);
    assert (ops + [Replace(v)])[..|ops|] == ops;
  }

  lemma InsertSpells(g: Graph, f: Fuzz, loops: bool, input: seq<Byte>, s: nat, ops: seq<Op>, n: nat, v: Vertex)
    requires n < |input| && Spells(g, f, loops, input, s, ops, n, v) && !f.hamming
    ensures Spells(g, f, loops, input, s, ops + [Insert], n + 1, v)
  {
    SpellsBytes(g, f, loops, input, s, ops, n, v);
    assert (ops + [Insert])[..|ops|] == ops;
  }

  // From scripts to runs ----------------------------------------------------------------------------------------

  /** The script stands at v, the run still at u with d vertices to skip. */
  ghost predicate Pending(g: Graph, u: Vertex, d: nat, v: Vertex) {
    if d == 0 then u == v else v in SuccessorsByDepth(g, u, d - 1) && !g.IsSpecial(v)
  }

  /** The run w follows the script: it ends at node k with the same start and no more edits. */
  ghost predicate Tracks(g: Graph, f: Fuzz, input: seq<Byte>, s: nat, ops: seq<Op>, n: nat, v: Vertex, k: Node, d: nat,
                         w: seq<Node>)
  {
    && n == s + Bytes(ops) && RunTo(g, f, input, n, k, Start(g, s, ops), w)
    && NextSom(g, k, Start(g, s, ops), n) == Later(g, s, ops)
    && k.level + d <= Cost(ops) && Pending(g, k.idx, d, v) && (f.hamming ==> d == 0)
    && !g.IsAnyAccept(k.idx) && (k.idx == g.startDs ==> g.AllowsStartDs())
  }

  /** Before a match begins the matcher waits in a start. */
  lemma {:induction false} Waits(g: Graph, f: Fuzz, input: seq<Byte>, n: nat, v: Vertex) returns (w: seq<Node>)
    requires Fuzzable(g) && n <= |input| && Begins(g, n, v)
    ensures RunTo(g, f, input, n, Node(false, 0, v), if n == 0 then 0 else n - 1, w)
    decreases n
  {
    hide CanReach, SuccessorsByDepth;
    var k := Node(false, 0, v);
    if n == 0 {
      w := [k];
    } else {
      var w' := Waits(g, f, input, n - 1, v);
      var som: nat := if n == 1 then 0 else n - 2;
      assert Steps(g, f, Prev(input, n - 1), input[n - 1], k, k) by { Unasserted(g, Prev(input, n - 1), input[n - 1]); }
      ExtendRun(g, f, input, n - 1, k, som, w', k);
      w := w' + [k];
    }
  }

  lemma Unasserted(g: Graph, prev: Byte, cur: Byte)
    requires Fuzzable(g)
    ensures forall e :: e in g.edges ==> CanReach(g.edges[e], prev, cur)
  {
  }

  /** One more edge, if it leads elsewhere. */
  lemma FurtherOn(g: Graph, u: Vertex, d: nat, x: Vertex, v: Vertex)
    requires Pending(g, u, d, x) && g.HasEdge(x, v) && x != v
    ensures v in SuccessorsByDepth(g, u, d)
  {
    assert Edge(x, v).u == x && Edge(x, v).v == v;
  }

  /** The script keeps a byte. */
  lemma KeepMove(g: Graph, f: Fuzz, prev: Byte, cur: Byte, k: Node, d: nat, x: Vertex, v: Vertex) returns (k': Node)
    requires Fuzzable(g) && Pending(g, k.idx, d, x) && (f.hamming ==> d == 0) && k.level + d <= f.dist
    requires g.HasEdge(x, v) && !g.IsSpecial(v) && g.Accepts(v, cur)
    ensures Steps(g, f, prev, cur, k, k') && k' == Node(false, k'.level, v) && k'.level <= k.level + d
  {
    hide CanReach, SuccessorsByDepth, Fuzzable;
    Unasserted(g, prev, cur);
    if x == v {
      k' := Node(false, if d == 0 then k.level else k.level + d - 1, v);
    } else {
      FurtherOn(g, k.idx, d, x, v);
      k' := Node(false, k.level + d, v);
    }
  }

  /** The script replaces a byte. */
  lemma ReplaceMove(g: Graph, f: Fuzz, prev: Byte, cur: Byte, k: Node, d: nat, x: Vertex, v: Vertex) returns (k': Node)
    requires Pending(g, k.idx, d, x) && (f.hamming ==> d == 0 && x != v) && k.level + d + 1 <= f.dist
    requires g.HasEdge(x, v) && !g.IsSpecial(v) && v !in g.virtualStarts && !g.IsAnyAccept(k.idx)
    ensures Steps(g, f, prev, cur, k, k') && k' == Node(true, k'.level, v) && 0 < k'.level <= k.level + d + 1
  {
    hide CanReach, SuccessorsByDepth;
    if x == v {
      k' := Node(true, if d == 0 then k.level + 1 else k.level + d, v);
    } else {
      FurtherOn(g, k.idx, d, x, v);
      k' := Node(true, k.level + d + 1, v);
    }
  }

  /** The script inserts a byte: after skipping, it is read in place of the last vertex skipped, or else before. */
  lemma InsertMove(g: Graph, f: Fuzz, prev: Byte, cur: Byte, k: Node, d: nat, x: Vertex) returns (k': Node, d': nat)
    requires g.Valid() && Pending(g, k.idx, d, x) && !f.hamming && k.level + d + 1 <= f.dist
    requires !g.IsAnyAccept(k.idx) && (k.idx == g.startDs ==> g.AllowsStartDs())
    ensures Steps(g, f, prev, cur, k, k') && k'.helper && 0 < k'.level && k'.level + d' <= k.level + d + 1
    ensures Pending(g, k'.idx, d', x) && (k'.idx == k.idx || !g.IsSpecial(k'.idx))
  {
    hide CanReach, SuccessorsByDepth;
    if d > 0 && x !in g.virtualStarts {
      k', d' := Node(true, k.level + d, x), 0;
    } else {
      k', d' := Node(true, k.level + 1, k.idx), d;
    }
  }

  lemma Advance(g: Graph, f: Fuzz, input: seq<Byte>, s: nat, ops: seq<Op>, n: nat, x: Vertex, k: Node, d: nat, w: seq<Node>,
                op: Op, v: Vertex, k': Node, d': nat)
    requires n < |input| && Tracks(g, f, input, s, ops, n, x, k, d, w) && !op.Delete?
    requires Steps(g, f, Prev(input, n), input[n], k, k') && (k'.idx == k.idx || !g.IsSpecial(k'.idx))
    requires k'.level + d' <= Cost(ops + [op]) && Pending(g, k'.idx, d', v) && (f.hamming ==> d' == 0)
    requires if op.Keep? then k' == Node(false, k'.level, op.v) && !g.IsSpecial(op.v) else k'.helper && k'.level > 0
    ensures Tracks(g, f, input, s, ops + [op], n + 1, v, k', d', w + [k'])
  {
    hide Steps, Pending, RunTo;
    OneMore(g, s, ops, op);
    ExtendRun(g, f, input, n, k, Start(g, s, ops), w, k');
  }

  /** Every script has a run that follows it. */
  lemma {:induction false} FollowScript(g: Graph, f: Fuzz, input: seq<Byte>, s: nat, ops: seq<Op>, n: nat, v: Vertex)
    returns (k: Node, d: nat, w: seq<Node>)
    requires Fuzzable(g) && n <= |input| && Spells(g, f, false, input, s, ops, n, v) && Cost(ops) <= f.dist
    ensures Tracks(g, f, input, s, ops, n, v, k, d, w)
    decreases |ops|
  {
    hide Steps, RunTo, SuccessorsByDepth;
    if ops == [] {
      w := Waits(g, f, input, n, v);
      k, d := Node(false, 0, v), 0;
    } else {
      var init, op := ops[..|ops| - 1], ops[|ops| - 1];
      assert ops == init + [op];
      OneMore(g, s, init, op);
      match op {
        case Insert =>
          var c, e, w' := FollowScript(g, f, input, s, init, n - 1, v);
          k, d := InsertMove(g, f, Prev(input, n - 1), input[n - 1], c, e, v);
          Advance(g, f, input, s, init, n - 1, v, c, e, w', op, v, k, d);
          w := w' + [k];
        case Delete(_) =>
          var u :| g.HasEdge(u, v) && Spells(g, f, false, input, s, init, n, u);
          k, d, w := FollowScript(g, f, input, s, init, n, u);
          if u != v {
            FurtherOn(g, k.idx, d, u, v);
            d := d + 1;
          }
        case Replace(_) =>
          var u :| g.HasEdge(u, v) && (f.hamming ==> u != v) && Spells(g, f, false, input, s, init, n - 1, u);
          var c, e, w' := FollowScript(g, f, input, s, init, n - 1, u);
          k := ReplaceMove(g, f, Prev(input, n - 1), input[n - 1], c, e, u, v);
          d := 0;
          Advance(g, f, input, s, init, n - 1, u, c, e, w', op, v, k, d);
          w := w' + [k];
        case Keep(_) =>
          var u :| g.HasEdge(u, v) && Spells(g, f, false, input, s, init, n - 1, u);
          var c, e, w' := FollowScript(g, f, input, s, init, n - 1, u);
          k := KeepMove(g, f, Prev(input, n - 1), input[n - 1], c, e, u, v);
          d := 0;
          Advance(g, f, input, s, init, n - 1, u, c, e, w', op, v, k, d);
          w := w' + [k];
      }
    }
  }

  // From runs to scripts ----------------------------------------------------------------------------------------

  /** The script tells what a run that ends at node k with this start has read. */
  ghost predicate Tells(g: Graph, f: Fuzz, input: seq<Byte>, s: nat, ops: seq<Op>, n: nat, k: Node, som: nat) {
    && n <= |input| && Spells(g, f, false, input, s, ops, n, k.idx) && Cost(ops) <= k.level
    && som == Start(g, s, ops) && NextSom(g, k, som, n) == Later(g, s, ops)
  }

  /** Skipping d vertices. */
  lemma {:induction false} SkipOver(g: Graph, f: Fuzz, input: seq<Byte>, s: nat, ops: seq<Op>, n: nat, src: Vertex, d: nat,
                                    v: Vertex)
    returns (u: Vertex, ops': seq<Op>)
    requires n <= |input| && Spells(g, f, false, input, s, ops, n, src) && v in SuccessorsByDepth(g, src, d)
    requires f.hamming ==> d == 0
    ensures g.HasEdge(u, v) && u != v && Spells(g, f, false, input, s, ops', n, u) && Cost(ops') == Cost(ops) + d
    ensures Later(g, s, ops') == Later(g, s, ops) && Start(g, s, ops') == Start(g, s, ops)
    ensures if d == 0 then u == src else !g.IsSpecial(u)
    decreases d
  {
    if d == 0 {
      u, ops' := src, ops;
    } else {
      var e :| e in g.edges && e.u in SuccessorsByDepth(g, src, d - 1) && !g.IsSpecial(e.u) && e.v != e.u && e.v == v;
      assert e == Edge(e.u, v);
      var u', ops'' := SkipOver(g, f, input, s, ops, n, src, d - 1, e.u);
      OneMore(g, s, ops'', Delete(e.u));
      u, ops' := e.u, ops'' + [Delete(e.u)];
    }
  }

  /** A step to startDs that is no insertion: the matcher goes on waiting. */
  lemma WaitsOn(g: Graph, f: Fuzz, prev: Byte, cur: Byte, c: Node, k: Node)
    requires Fuzzable(g) && Steps(g, f, prev, cur, c, k) && !k.helper && k.idx == g.startDs
    ensures g.IsAnyStart(c.idx) && c.level == 0 && k.level == 0 && g.AllowsStartDs()
  {
    hide CanReach;
    var d := k.level - c.level;
    if c.idx != g.startDs {
      assert d == 0 && k.idx in SuccessorsByDepth(g, c.idx, 0);
      assert Edge(c.idx, g.startDs) in g.edges;
    }
  }

  /** Any other step to a shadow: skips, and a byte kept. */
  lemma ShadowGoesOn(g: Graph, f: Fuzz, input: seq<Byte>, s: nat, ops: seq<Op>, n: nat, c: Node, k: Node, som: nat)
    returns (ops': seq<Op>)
    requires Fuzzable(g) && n < |input| && Tells(g, f, input, s, ops, n, c, som)
    requires Steps(g, f, Prev(input, n), input[n], c, k) && !k.helper && k.idx != g.startDs
    ensures Tells(g, f, input, s, ops', n + 1, k, NextSom(g, c, som, n))
  {
    hide CanReach, SuccessorsByDepth, Start, Later, AtVirtual, Spells;
    var d, v := k.level - c.level, k.idx;
    var u, pre := c.idx, ops;
    if v in SuccessorsByDepth(g, c.idx, d) && (f.hamming ==> d == 0) {
      u, pre := SkipOver(g, f, input, s, ops, n, c.idx, d, v);
    }
    assert g.HasEdge(u, v) && Spells(g, f, false, input, s, pre, n, u) && Cost(pre) <= k.level;
    assert !g.IsSpecial(v) by { assert InPlace(g, Edge(u, v)); }
    SpellsBytes(g, f, false, input, s, pre, n, u);
    KeepSpells(g, f, false, input, s, pre, n, u, v);
    ops' := pre + [Keep(v)];
    OneMore(g, s, pre, Keep(v));
    ReadOn(g, f, input, s, pre, n, Keep(v), k);
  }

  /** The start of a longer script is that of the longer run. */
  lemma ReadOn(g: Graph, f: Fuzz, input: seq<Byte>, s: nat, ops: seq<Op>, n: nat, op: Op, k: Node)
    requires n == s + Bytes(ops) && !op.Delete?
    requires if op.Keep? then k == Node(false, k.level, op.v) && !g.IsSpecial(op.v) else k.helper && k.level > 0
    ensures Start(g, s, ops + [op]) == Later(g, s, ops)
    ensures NextSom(g, k, Later(g, s, ops), n + 1) == Later(g, s, ops + [op])
  {
    OneMore(g, s, ops, op);
  }

  /** A step to a helper: skips and a byte replaced, or a byte inserted. */
  lemma HelperGoesOn(g: Graph, f: Fuzz, input: seq<Byte>, s: nat, ops: seq<Op>, n: nat, c: Node, k: Node, som: nat)
    returns (ops': seq<Op>)
    requires Fuzzable(g) && n < |input| && Tells(g, f, input, s, ops, n, c, som)
    requires Steps(g, f, Prev(input, n), input[n], c, k) && k.helper
    ensures Tells(g, f, input, s, ops', n + 1, k, NextSom(g, c, som, n))
  {
    hide CanReach, SuccessorsByDepth, Start, Later, AtVirtual, Spells;
    var d, v := k.level - c.level, k.idx;
    assert d > 0;
    if v in SuccessorsByDepth(g, c.idx, d - 1) && (f.hamming ==> d == 1) && CanTransitionToHelper(g, c.idx, v) {
      var u, pre := SkipOver(g, f, input, s, ops, n, c.idx, d - 1, v);
      assert !g.IsSpecial(v) by { assert InPlace(g, Edge(u, v)); }
      SpellsBytes(g, f, false, input, s, pre, n, u);
      ReplaceSpells(g, f, false, input, s, pre, n, u, v);
      ops' := pre + [Replace(v)];
      OneMore(g, s, pre, Replace(v));
      ReadOn(g, f, input, s, pre, n, Replace(v), k);
    } else {
      SpellsBytes(g, f, false, input, s, ops, n, c.idx);
      InsertSpells(g, f, false, input, s, ops, n, c.idx);
      ops' := ops + [Insert];
      OneMore(g, s, ops, Insert);
      ReadOn(g, f, input, s, ops, n, Insert, k);
    }
  }

  /** Every run has a script that tells what it read. */
  lemma {:induction false} TellRun(g: Graph, f: Fuzz, input: seq<Byte>, n: nat, k: Node, som: nat, w: seq<Node>)
    returns (s: nat, ops: seq<Op>)
    requires Fuzzable(g) && n <= |input| && RunTo(g, f, input, n, k, som, w)
    ensures Tells(g, f, input, s, ops, n, k, som)
    decreases n
  {
    hide Steps;
    if n == 0 {
      s, ops := 0, [];
    } else {
      SplitRun(g, f, input, n - 1, k, som, w);
      var c, som' := w[n - 1], RunSom(g, w[..n]);
      s, ops := TellRun(g, f, input, n - 1, c, som', w[..n]);
      if k.helper {
        ops := HelperGoesOn(g, f, input, s, ops, n - 1, c, k, som');
      } else if k.idx != g.startDs {
        ops := ShadowGoesOn(g, f, input, s, ops, n - 1, c, k, som');
      } else {
        WaitsOn(g, f, Prev(input, n - 1), input[n - 1], c, k);
        s, ops := n, [];
      }
    }
  }
}
