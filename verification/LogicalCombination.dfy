/** Logical combinations of report keys, evaluated in one pass over the operator table. */
module LogicalCombination {

  datatype OpType = OpNot | OpAnd | OpOr

  datatype LogicalOp = LogicalOp(op: OpType, lo: nat, ro: nat)

  /** Keys below lkeyCount are leaves; key lkeyCount + j is operator number j. */
  datatype Tree = Tree(lkeyCount: nat, ops: seq<LogicalOp>)
  {
    function Size(): nat { lkeyCount + |ops| }

    function Op(i: nat): LogicalOp
      requires lkeyCount <= i < Size()
    {
      ops[i - lkeyCount]
    }

    /** An operand of operator i: a leaf, or an earlier operator of the same range. */
    predicate Operand(start: nat, i: nat, x: nat) {
      x < lkeyCount || start <= x < i
    }

    ghost predicate InRange(start: nat, result: nat) {
      && lkeyCount <= start <= result < Size()
      && (forall i :: start <= i <= result ==>
            Operand(start, i, Op(i).ro) && (Op(i).op.OpNot? || Operand(start, i, Op(i).lo)))
    }
  }

  function Apply(op: OpType, l: bool, r: bool): bool {
    match op
    case OpNot => !r
    case OpAnd => l && r
    case OpOr => l || r
  }

  /** The formula rooted at key i, evaluated recursively over the leaves. */
  ghost function Eval(t: Tree, start: nat, result: nat, leaves: seq<bool>, i: nat): bool
    requires t.InRange(start, result) && |leaves| == t.lkeyCount
    requires i < t.lkeyCount || start <= i <= result
    decreases i
  {
    if i < t.lkeyCount then leaves[i]
    else
      var op := t.Op(i);
      var r := Eval(t, start, result, leaves, op.ro);
      if op.op.OpNot? then !r else Apply(op.op, Eval(t, start, result, leaves, op.lo), r)
  }

  /** Operator i reads leaf x. */
  predicate Reads(t: Tree, i: nat, x: nat)
    requires t.lkeyCount <= i < t.Size()
  {
    x == t.Op(i).ro || (!t.Op(i).op.OpNot? && x == t.Op(i).lo)
  }

  /** No operator of start..upto reads a leaf that is on. */
  ghost predicate LeavesOff(t: Tree, start: nat, upto: nat, leaves: seq<bool>)
    requires t.lkeyCount <= start && upto <= t.Size() && |leaves| == t.lkeyCount
  {
    forall i, x :: start <= i < upto && 0 <= x < t.lkeyCount && Reads(t, i, x) ==> !leaves[x]
  }

  function AllOff(n: nat): seq<bool> { seq(n, _ => false) }

  /** With the leaves it reads off, a formula has the value it has with all leaves off. */
  lemma {:induction false} EvalWithLeavesOff(t: Tree, start: nat, result: nat, leaves: seq<bool>, i: nat)
    requires t.InRange(start, result) && |leaves| == t.lkeyCount && start <= i <= result
    requires LeavesOff(t, start, result + 1, leaves)
    ensures Eval(t, start, result, leaves, i) == Eval(t, start, result, AllOff(t.lkeyCount), i)
    decreases i
  {
    var op := t.Op(i);
    assert Reads(t, i, op.ro);
    if op.ro >= t.lkeyCount {
      EvalWithLeavesOff(t, start, result, leaves, op.ro);
    }
    if !op.op.OpNot? {
      assert Reads(t, i, op.lo);
      if op.lo >= t.lkeyCount {
        EvalWithLeavesOff(t, start, result, leaves, op.lo);
      }
    }
  }

  /** The logical vector of a stream. */
  class LogicalVector {
    const tree: Tree
    var lvec: seq<bool>

    ghost predicate Valid()
      reads this
    {
      |lvec| == tree.Size()
    }

    ghost function Leaves(): seq<bool>
      requires Valid()
      reads this
    {
      lvec[..tree.lkeyCount]
    }

    constructor (tree: Tree)
      ensures Valid() && this.tree == tree && lvec == AllOff(tree.Size())
    {
      this.tree := tree;
      lvec := AllOff(tree.Size());
    }

    /** Entries start..upto hold the values of their formulas; everything else is as it was. */
    ghost predicate Evaluated(start: nat, result: nat, upto: nat, was: seq<bool>)
      requires tree.InRange(start, result) && start <= upto <= result + 1
      reads this
    {
      && |lvec| == |was| == tree.Size()
      && (forall x :: 0 <= x < |was| && !(start <= x < upto) ==> lvec[x] == was[x])
      && (forall x :: start <= x < upto ==> lvec[x] == Eval(tree, start, result, was[..tree.lkeyCount], x))
    }

    method SetFromOperands(i: nat)
      requires Valid() && tree.lkeyCount <= i < tree.Size()
      requires tree.Op(i).ro < tree.Size() && (tree.Op(i).op.OpNot? || tree.Op(i).lo < tree.Size())
      modifies this`lvec
      ensures lvec == old(lvec)[i := if tree.Op(i).op.OpNot? then !old(lvec)[tree.Op(i).ro]
                                     else Apply(tree.Op(i).op, old(lvec)[tree.Op(i).lo], old(lvec)[tree.Op(i).ro])]
    {
      var op := tree.Op(i);
      match op.op
      case OpNot => lvec := lvec[i := !lvec[op.ro]];
      case OpAnd => lvec := lvec[i := lvec[op.lo] && lvec[op.ro]];
      case OpOr => lvec := lvec[i := lvec[op.lo] || lvec[op.ro]];
    }

    /** One pass gives the value of the formula; leaf keys stay untouched. */
    method IsLogicalCombination(start: nat, result: nat) returns (value: bool)
      requires Valid() && tree.InRange(start, result)
      modifies this`lvec
      ensures Valid() && Leaves() == old(Leaves())
      ensures value == Eval(tree, start, result, old(Leaves()), result)
      ensures Evaluated(start, result, result + 1, old(lvec))
    {
      ghost var was := lvec;
      for i := start to result + 1
        invariant Evaluated(start, result, i, was)
      {
        SetFromOperands(i);
      }
      value := lvec[result];
    }

    /** True exactly when every leaf read in the range is off and the formula holds with all leaves off. */
    method IsPurelyNegativeMatch(start: nat, result: nat) returns (value: bool)
      requires Valid() && tree.InRange(start, result)
      modifies this`lvec
      ensures Valid() && Leaves() == old(Leaves())
      ensures value <==>
                LeavesOff(tree, start, result + 1, old(Leaves())) &&
                Eval(tree, start, result, AllOff(tree.lkeyCount), result)
    {
      ghost var was := lvec;
      for i := start to result + 1
        invariant Evaluated(start, result, i, was)
        invariant LeavesOff(tree, start, i, was[..tree.lkeyCount])
      {
        var op := tree.Op(i);
        if (op.ro < tree.lkeyCount && lvec[op.ro]) || (!op.op.OpNot? && op.lo < tree.lkeyCount && lvec[op.lo]) {
          assert Reads(tree, i, op.ro) && (!op.op.OpNot? ==> Reads(tree, i, op.lo));
          return false;
        }
        SetFromOperands(i);
      }
      EvalWithLeavesOff(tree, start, result, was[..tree.lkeyCount], result);
      value := lvec[result];
    }
  }
}
