/** Declarative meaning of approximate matching: edit scripts that align walks with the input. */
module NfaAlign {
  import opened Common
  import opened NfaGraph
  import opened NfaWalks
  import opened StateSets
  import opened NfaStep

  /** One operation of an alignment: enter a vertex on a byte it accepts, enter it on any byte, read a byte
      in place, or enter it without reading. */
  datatype Op = Keep(v: Vertex) | Replace(v: Vertex) | Insert | Delete(v: Vertex)

  function Cost(ops: seq<Op>): nat {
    if ops == [] then 0 else Cost(ops[..|ops| - 1]) + if ops[|ops| - 1].Keep? then 0 else 1
  }

  /** No vertex was skipped just before. */
  predicate Settled(ops: seq<Op>) { ops == [] || !ops[|ops| - 1].Delete? }

  /** The script leads from a start vertex to v while reading the first n bytes. Edge assertions are those of
      kept steps that do not follow a skip. */
  ghost predicate Aligned(g: Graph, input: seq<Byte>, ops: seq<Op>, n: nat, v: Vertex)
    requires n <= |input|
    decreases |ops|
  {
    if ops == [] then n == 0 && Initial(g, v)
    else
      var init, op := ops[..|ops| - 1], ops[|ops| - 1];
      match op
      case Insert => n > 0 && Aligned(g, input, init, n - 1, v)
      case Delete(w) => v == w && exists u :: g.HasEdge(u, v) && Aligned(g, input, init, n, u)
      case Replace(w) => v == w && n > 0 && exists u :: g.HasEdge(u, v) && Aligned(g, input, init, n - 1, u)
      case Keep(w) =>
        && v == w && n > 0 && g.Accepts(v, input[n - 1])
        && exists u :: g.HasEdge(u, v) && Aligned(g, input, init, n - 1, u) &&
             (Settled(init) ==> CanReach(g.edges[Edge(u, v)], Prev(input, n - 1), input[n - 1]))
  }

  /** Only replacements count as edits. */
  predicate HammingOnly(ops: seq<Op>) {
    forall i :: 0 <= i < |ops| ==> ops[i].Keep? || ops[i].Replace?
  }

  /** A script that justifies node k after n bytes. */
  ghost predicate Justifies(g: Graph, f: Fuzz, input: seq<Byte>, n: nat, k: Node, ops: seq<Op>)
    requires n <= |input|
  {
    Aligned(g, input, ops, n, k.idx) && Cost(ops) <= k.level && Settled(ops) && (f.hamming ==> HammingOnly(ops))
  }

  ghost predicate Justified(g: Graph, f: Fuzz, input: seq<Byte>, n: nat, k: Node)
    requires n <= |input|
  {
    exists ops :: Justifies(g, f, input, n, k, ops)
  }

  /** A run of the matcher: one node before each byte and after the last. */
  ghost predicate IsRun(g: Graph, f: Fuzz, input: seq<Byte>, w: seq<Node>) {
    && 1 <= |w| <= |input| + 1
    && w[0] == Node(false, 0, w[0].idx) && Initial(g, w[0].idx)
    && (forall i :: 0 <= i < |w| - 1 ==> Steps(g, f, Prev(input, i), input[i], w[i], w[i + 1]))
  }

  /** The start of match of a run: the last offset at which it left a start, else 0. */
  ghost function RunSom(g: Graph, w: seq<Node>): nat {
    if |w| <= 1 then 0 else NextSom(g, w[|w| - 2], RunSom(g, w[..|w| - 1]), |w| - 2)
  }

  ghost predicate RunTo(g: Graph, f: Fuzz, input: seq<Byte>, n: nat, k: Node, som: nat, w: seq<Node>) {
    IsRun(g, f, input, w) && |w| == n + 1 && w[n] == k && RunSom(g, w) == som
  }

  /** Some run carries this start to the node. */
  ghost predicate Carried(g: Graph, f: Fuzz, input: seq<Byte>, n: nat, k: Node, som: nat) {
    exists w :: RunTo(g, f, input, n, k, som, w)
  }

  /** Every active node is within the edit budget, has a script, and a run that carries its start. */
  ghost predicate Sound(g: Graph, f: Fuzz, input: seq<Byte>, n: nat, view: map<Node, nat>)
    requires n <= |input|
  {
    forall k :: k in view ==> k.level <= f.dist && Justified(g, f, input, n, k) && Carried(g, f, input, n, k, view[k])
  }

  /** Every run ends at an active node whose start is no later. */
  ghost predicate Complete(g: Graph, f: Fuzz, input: seq<Byte>, n: nat, view: map<Node, nat>) {
    forall k, som, w :: RunTo(g, f, input, n, k, som, w) ==> k in view && view[k] <= som
  }

  lemma ExtendRun(g: Graph, f: Fuzz, input: seq<Byte>, n: nat, c: Node, som: nat, w: seq<Node>, k: Node)
    requires n < |input| && RunTo(g, f, input, n, c, som, w) && Steps(g, f, Prev(input, n), input[n], c, k)
    ensures RunTo(g, f, input, n + 1, k, NextSom(g, c, som, n), w + [k])
  {
    hide Steps;
    var w' := w + [k];
    assert w'[..|w'| - 1] == w;
    forall i | 0 <= i < |w'| - 1
      ensures Steps(g, f, Prev(input, i), input[i], w'[i], w'[i + 1])
    {
    }
  }

  lemma SplitRun(g: Graph, f: Fuzz, input: seq<Byte>, n: nat, k: Node, som: nat, w: seq<Node>)
    requires n < |input| && RunTo(g, f, input, n + 1, k, som, w)
    ensures RunTo(g, f, input, n, w[n], RunSom(g, w[..n + 1]), w[..n + 1])
    ensures Steps(g, f, Prev(input, n), input[n], w[n], k) && som == NextSom(g, w[n], RunSom(g, w[..n + 1]), n)
  {
    hide Steps;
  }

  lemma Append(ops: seq<Op>, op: Op)
    ensures (ops + [op])[..|ops + [op]| - 1] == ops
    ensures Cost(ops + [op]) == Cost(ops) + if op.Keep? then 0 else 1
    ensures Settled(ops + [op]) <==> !op.Delete?
    ensures HammingOnly(ops) && (op.Keep? || op.Replace?) ==> HammingOnly(ops + [op])
  {
    assert (ops + [op])[..|ops + [op]| - 1] == ops;
  }

  /** A vertex d+1 edges away is reached by skipping d vertices and one last edge. */
  lemma {:induction false} SkipTo(g: Graph, input: seq<Byte>, n: nat, src: Vertex, d: nat, v: Vertex, ops: seq<Op>)
    returns (u: Vertex, ops': seq<Op>)
    requires n <= |input| && v in SuccessorsByDepth(g, src, d) && Aligned(g, input, ops, n, src)
    ensures g.HasEdge(u, v) && Aligned(g, input, ops', n, u) && Cost(ops') == Cost(ops) + d
    ensures d == 0 ==> ops' == ops && u == src
    ensures d > 0 ==> !Settled(ops')
    decreases d
  {
    if d == 0 {
      u, ops' := src, ops;
    } else {
      var e :| e in g.edges && e.u in SuccessorsByDepth(g, src, d - 1) && e.v == v;
      assert e == Edge(e.u, v);
      var u', ops'' := SkipTo(g, input, n, src, d - 1, e.u, ops);
      Append(ops'', Delete(e.u));
      u, ops' := e.u, ops'' + [Delete(e.u)];
    }
  }

  /** Any byte may be read on a replaced step. */
  lemma ReplaceStep(g: Graph, input: seq<Byte>, n: nat, u: Vertex, v: Vertex, ops: seq<Op>)
    requires n < |input| && g.HasEdge(u, v) && Aligned(g, input, ops, n, u)
    ensures Aligned(g, input, ops + [Replace(v)], n + 1, v)
  {
    Append(ops, Replace(v));
  }

  lemma KeepStep(g: Graph, input: seq<Byte>, n: nat, u: Vertex, v: Vertex, ops: seq<Op>)
    requires n < |input| && g.HasEdge(u, v) && Aligned(g, input, ops, n, u) && g.Accepts(v, input[n])
    requires Settled(ops) ==> CanReach(g.edges[Edge(u, v)], Prev(input, n), input[n])
    ensures Aligned(g, input, ops + [Keep(v)], n + 1, v)
  {
    Append(ops, Keep(v));
  }

  lemma InsertStep(g: Graph, input: seq<Byte>, n: nat, v: Vertex, ops: seq<Op>)
    requires n < |input| && Aligned(g, input, ops, n, v)
    ensures Aligned(g, input, ops + [Insert], n + 1, v)
  {
    Append(ops, Insert);
  }

  /** A shadow step: skip, then keep. */
  lemma ShadowStepJustified(g: Graph, f: Fuzz, input: seq<Byte>, n: nat, c: Node, k: Node, ops: seq<Op>)
    requires n < |input| && Justifies(g, f, input, n, c, ops) && !k.helper
    requires Steps(g, f, Prev(input, n), input[n], c, k)
    ensures Justified(g, f, input, n + 1, k)
  {
    hide CanReach;
    var d := k.level - c.level;
    if k.idx in SuccessorsByDepth(g, c.idx, d) && (f.hamming ==> d == 0) {
      var u, ops' := SkipTo(g, input, n, c.idx, d, k.idx, ops);
      KeepStep(g, input, n, u, k.idx, ops');
      Append(ops', Keep(k.idx));
      assert Justifies(g, f, input, n + 1, k, ops' + [Keep(k.idx)]);
    } else {
      assert d == 0 && k.idx == c.idx && g.HasEdge(c.idx, c.idx);
      KeepStep(g, input, n, c.idx, k.idx, ops);
      Append(ops, Keep(k.idx));
      assert Justifies(g, f, input, n + 1, k, ops + [Keep(k.idx)]);
    }
  }

  /** A helper step: an insertion, or skips and a replacement. */
  lemma HelperStepJustified(g: Graph, f: Fuzz, input: seq<Byte>, n: nat, c: Node, k: Node, ops: seq<Op>)
    requires n < |input| && Justifies(g, f, input, n, c, ops) && k.helper
    requires Steps(g, f, Prev(input, n), input[n], c, k)
    ensures Justified(g, f, input, n + 1, k)
  {
    var d := k.level - c.level;
    assert d > 0;
    if k.idx in SuccessorsByDepth(g, c.idx, d - 1) && (f.hamming ==> d == 1) {
      var u, ops' := SkipTo(g, input, n, c.idx, d - 1, k.idx, ops);
      ReplaceStep(g, input, n, u, k.idx, ops');
      Append(ops', Replace(k.idx));
      assert Justifies(g, f, input, n + 1, k, ops' + [Replace(k.idx)]);
    } else {
      assert k.idx == c.idx && !f.hamming;
      InsertStep(g, input, n, c.idx, ops);
      Append(ops, Insert);
      assert Justifies(g, f, input, n + 1, k, ops + [Insert]);
    }
  }

  /** Every step of the matcher keeps its states justified. */
  lemma StepKeepsSound(g: Graph, f: Fuzz, input: seq<Byte>, n: nat, view: map<Node, nat>, next: map<Node, nat>)
    requires n < |input| && Sound(g, f, input, n, view)
    requires StepsTo(g, f, Prev(input, n), input[n], n, view, next)
    ensures Sound(g, f, input, n + 1, next)
  {
    hide Steps, Justifies, RunTo;
    forall k | k in next
      ensures k.level <= f.dist && Justified(g, f, input, n + 1, k) && Carried(g, f, input, n + 1, k, next[k])
    {
      var c :| c in view && Steps(g, f, Prev(input, n), input[n], c, k) && next[k] == NextSom(g, c, view[c], n);
      assert Carried(g, f, input, n, c, view[c]);
      var w :| RunTo(g, f, input, n, c, view[c], w);
      ExtendRun(g, f, input, n, c, view[c], w, k);
      assert k.level <= f.dist by { StepLevel(g, f, Prev(input, n), input[n], c, k); }
      var ops :| Justifies(g, f, input, n, c, ops);
      if k.helper {
        HelperStepJustified(g, f, input, n, c, k, ops);
      } else {
        ShadowStepJustified(g, f, input, n, c, k, ops);
      }
    }
  }

  lemma StepLevel(g: Graph, f: Fuzz, prev: Byte, cur: Byte, c: Node, k: Node)
    requires Steps(g, f, prev, cur, c, k)
    ensures k.level <= f.dist
  {
  }

  lemma InitialSound(g: Graph, f: Fuzz, input: seq<Byte>, view: map<Node, nat>)
    requires forall k :: k in view ==> k == Node(false, 0, k.idx) && Initial(g, k.idx) && view[k] == 0
    ensures Sound(g, f, input, 0, view)
  {
    forall k | k in view
      ensures Justified(g, f, input, 0, k) && Carried(g, f, input, 0, k, view[k])
    {
      assert Justifies(g, f, input, 0, k, []);
      assert RunTo(g, f, input, 0, k, 0, [k]);
    }
  }

  /** Every step of the matcher also keeps the least start of every run. */
  lemma StepKeepsComplete(g: Graph, f: Fuzz, input: seq<Byte>, n: nat, view: map<Node, nat>, next: map<Node, nat>)
    requires n < |input| && Complete(g, f, input, n, view)
    requires StepsTo(g, f, Prev(input, n), input[n], n, view, next)
    ensures Complete(g, f, input, n + 1, next)
  {
    hide Steps, RunTo;
    var t := n + 1;
    forall k, som, w | RunTo(g, f, input, t, k, som, w)
      ensures k in next && next[k] <= som
    {
      RunLength(g, f, input, t, k, som, w);
      SplitRun(g, f, input, n, k, som, w);
      var c, s := w[n], RunSom(g, w[..n + 1]);
      assert c in view && view[c] <= s;
    }
  }

  lemma RunLength(g: Graph, f: Fuzz, input: seq<Byte>, n: nat, k: Node, som: nat, w: seq<Node>)
    requires RunTo(g, f, input, n, k, som, w)
    ensures |w| == n + 1
  {
  }

  lemma InitialComplete(g: Graph, f: Fuzz, input: seq<Byte>, view: map<Node, nat>)
    requires forall k: Node :: k == Node(false, 0, k.idx) && Initial(g, k.idx) ==> k in view && view[k] == 0
    ensures Complete(g, f, input, 0, view)
  {
  }

  /** The views of a whole run of the matcher, from the initial one. */
  ghost predicate Views(g: Graph, f: Fuzz, input: seq<Byte>, views: seq<map<Node, nat>>) {
    && 1 <= |views| <= |input| + 1
    && (forall k :: k in views[0] <==> k == Node(false, 0, k.idx) && Initial(g, k.idx))
    && (forall k :: k in views[0] ==> views[0][k] == 0)
    && (forall i :: 0 <= i < |views| - 1 ==> StepsTo(g, f, Prev(input, i), input[i], i, views[i], views[i + 1]))
  }

  /** After any number of bytes: the active nodes are those that runs reach, each with the least start, within the
      edit budget and with an edit script. */
  lemma {:induction false} WholeRunExact(g: Graph, f: Fuzz, input: seq<Byte>, views: seq<map<Node, nat>>, n: nat)
    requires Views(g, f, input, views) && n < |views|
    ensures Sound(g, f, input, n, views[n]) && Complete(g, f, input, n, views[n])
    decreases n
  {
    hide Sound, Complete, StepsTo;
    if n == 0 {
      InitialSound(g, f, input, views[0]);
      InitialComplete(g, f, input, views[0]);
    } else {
      WholeRunExact(g, f, input, views, n - 1);
      StepKeepsSound(g, f, input, n - 1, views[n - 1], views[n]);
      StepKeepsComplete(g, f, input, n - 1, views[n - 1], views[n]);
    }
  }
}
