/** How a linked list of instruction nodes stands for an instruction list value. */
module ListViews {
  import opened Opcodes
  import opened ILCode
  import opened Instructions

  /** The operand of a branch whose target pointer has not been set yet; no encodable branch has it. */
  const UNATTACHED: int := -1

  predicate Attached(ins: Instr)
  {
    HasTarget(ins.op) && ins.arg != UNATTACHED
  }

  /** The value of one node: only the union member its opcode uses counts. */
  ghost function ViewOf(nodes: seq<ILInstr>, x: ILInstr): (v: Instr)
    reads x`opcode, x`arg, x`target
    ensures v.op == x.opcode
  {
    if HasTarget(x.opcode) then
      if x.target == null then Instr(x.opcode, UNATTACHED, 0) else Instr(x.opcode, 0, IndexOf(nodes, x.target))
    else Instr(x.opcode, if OperandOf(x.opcode).NoOperand? then 0 else x.arg, 0)
  }

  ghost function ViewsOf(nodes: seq<ILInstr>, n: nat): (code: Code)
    requires n <= |nodes|
    reads nodes`opcode, nodes`arg, nodes`target
    ensures |code| == n
    ensures forall i :: 0 <= i < n ==> code[i] == ViewOf(nodes, nodes[i])
  {
    if n == 0 then [] else ViewsOf(nodes, n - 1) + [ViewOf(nodes, nodes[n - 1])]
  }

  /** The instruction list held by nodes. */
  ghost function CodeOf(nodes: seq<ILInstr>): (code: Code)
    reads nodes`opcode, nodes`arg, nodes`target
    ensures |code| == |nodes|
    ensures forall i :: 0 <= i < |nodes| ==> code[i] == ViewOf(nodes, nodes[i])
  {
    ViewsOf(nodes, |nodes|)
  }

  /** Position t of a list after n instructions were put in front of position k. */
  function Moved(k: nat, n: nat, t: nat): nat
  {
    if t < k then t else t + n
  }

  function MovedInstr(k: nat, n: nat, ins: Instr): Instr
  {
    if Attached(ins) then ins.(target := Moved(k, n, ins.target)) else ins
  }

  /** code with ins put in front of position k; every old branch still leads to the instruction it led to. */
  function Splice(code: Code, k: nat, ins: Code): (r: Code)
    requires k <= |code|
    ensures |r| == |code| + |ins|
    ensures forall i :: 0 <= i < |code| ==> r[Moved(k, |ins|, i)] == MovedInstr(k, |ins|, code[i])
    ensures forall i :: 0 <= i < |ins| ==> r[k + i] == ins[i]
  {
    var moved := seq(|code|, i requires 0 <= i < |code| => MovedInstr(k, |ins|, code[i]));
    moved[..k] + ins + moved[k..]
  }

  lemma {:induction false} IndexOfInserted(nodes: seq<ILInstr>, k: nat, what: ILInstr, t: ILInstr)
    requires k <= |nodes| && t != what
    ensures IndexOf(Inserted(nodes, k, what), t) == Moved(k, 1, IndexOf(nodes, t))
  {
    hide IndexOf;
    var ns := Inserted(nodes, k, what);
    if k == 0 {
      assert ns == [what] + nodes;
      IndexOfFirst(what, nodes, t);
    } else {
      assert ns == [nodes[0]] + Inserted(nodes[1..], k - 1, what) && nodes == [nodes[0]] + nodes[1..];
      IndexOfFirst(nodes[0], Inserted(nodes[1..], k - 1, what), t);
      IndexOfFirst(nodes[0], nodes[1..], t);
      IndexOfInserted(nodes[1..], k - 1, what, t);
    }
  }

  lemma IndexOfFirst(x: ILInstr, rest: seq<ILInstr>, t: ILInstr)
    ensures IndexOf([x] + rest, t) == if x == t then 0 else 1 + IndexOf(rest, t)
  {
    assert ([x] + rest)[1..] == rest;
  }

  lemma MoveView(nodes: seq<ILInstr>, k: nat, what: ILInstr, x: ILInstr)
    requires k <= |nodes| && x.target != what
    ensures ViewOf(Inserted(nodes, k, what), x) == MovedInstr(k, 1, ViewOf(nodes, x))
  {
    hide OperandOf, Inserted;
    if x.target != null {
      IndexOfInserted(nodes, k, what, x.target);
    }
  }

  /** No branch of the list leads to x. */
  ghost predicate Avoids(nodes: seq<ILInstr>, x: ILInstr)
    reads nodes`target
  {
    forall i :: 0 <= i < |nodes| ==> nodes[i].target != x
  }

  /** Linking a node in front of position k splices its instruction into the list value. */
  lemma InsertedIsSplice(nodes: seq<ILInstr>, k: nat, what: ILInstr)
    requires k <= |nodes| && Avoids(nodes, what)
    ensures CodeOf(Inserted(nodes, k, what)) == Splice(CodeOf(nodes), k, [ViewOf(Inserted(nodes, k, what), what)])
  {
    hide ViewOf, HasTarget, MovedInstr, Attached, Splice, IndexOf;
    var ns, ins := Inserted(nodes, k, what), [ViewOf(Inserted(nodes, k, what), what)];
    var code, code' := CodeOf(nodes), CodeOf(ns);
    SpliceSize(code, k, ins);
    forall i | 0 <= i < |ns| ensures code'[i] == Splice(code, k, ins)[i] {
      if i == k {
        SpliceNew(code, k, ins, 0);
      } else {
        var j := if i < k then i else i - 1;
        MoveView(nodes, k, what, nodes[j]);
        SpliceAt(code, k, ins, j);
      }
    }
  }

  lemma MovedTwice(k: nat, m: nat, n: nat, ins: Instr)
    ensures MovedInstr(k + m, n, MovedInstr(k, m, ins)) == MovedInstr(k, m + n, ins)
  {
    hide HasTarget;
  }

  /** Every branch of a block led past n instructions more, where it leads beyond k. */
  function MovedAll(k: nat, n: nat, block: Code): (r: Code)
    ensures |r| == |block| && forall i :: 0 <= i < |block| ==> r[i] == MovedInstr(k, n, block[i])
  {
    seq(|block|, i requires 0 <= i < |block| => MovedInstr(k, n, block[i]))
  }

  /**
   * Splicing two blocks one after the other in front of the same instruction is splicing them together, the branches of
   * the first block moved by the second one.
   */
  lemma SpliceTwice(code: Code, k: nat, a: Code, b: Code)
    requires k <= |code|
    ensures Splice(Splice(code, k, a), k + |a|, b) == Splice(code, k, MovedAll(k + |a|, |b|, a) + b)
  {
    hide HasTarget, Splice, MovedInstr, MovedAll;
    SpliceSize(code, k, a);
    SpliceSize(Splice(code, k, a), k + |a|, b);
    MovedSize(k + |a|, |b|, a);
    SpliceSize(code, k, MovedAll(k + |a|, |b|, a) + b);
    var left, right := Splice(Splice(code, k, a), k + |a|, b), Splice(code, k, MovedAll(k + |a|, |b|, a) + b);
    forall i | 0 <= i < |left| ensures left[i] == right[i] {
      SpliceTwiceAt(code, k, a, b, i);
    }
  }

  lemma SpliceSize(code: Code, k: nat, ins: Code)
    requires k <= |code|
    ensures |Splice(code, k, ins)| == |code| + |ins|
  {
  }

  lemma MovedSize(k: nat, n: nat, block: Code)
    ensures |MovedAll(k, n, block)| == |block|
  {
  }

  lemma SpliceTwiceAt(code: Code, k: nat, a: Code, b: Code, i: nat)
    requires k <= |code| && i < |code| + |a| + |b|
    ensures |Splice(code, k, a)| == |code| + |a| && |MovedAll(k + |a|, |b|, a)| == |a|
    ensures |Splice(Splice(code, k, a), k + |a|, b)| == |code| + |a| + |b|
    ensures |Splice(code, k, MovedAll(k + |a|, |b|, a) + b)| == |code| + |a| + |b|
    ensures Splice(Splice(code, k, a), k + |a|, b)[i] == Splice(code, k, MovedAll(k + |a|, |b|, a) + b)[i]
  {
    hide HasTarget, Splice, MovedInstr, MovedAll;
    SpliceSize(code, k, a);
    SpliceSize(Splice(code, k, a), k + |a|, b);
    MovedSize(k + |a|, |b|, a);
    var once, both := Splice(code, k, a), MovedAll(k + |a|, |b|, a) + b;
    SpliceSize(code, k, both);
    if k <= i < k + |a| {
      SpliceNew(code, k, a, i - k);
      SpliceNew(code, k, both, i - k);
      SpliceAt(once, k + |a|, b, i);
      MovedAllAt(k + |a|, |b|, a, i - k);
    } else if k + |a| <= i < k + |a| + |b| {
      SpliceNew(code, k, both, i - k);
      SpliceNew(once, k + |a|, b, i - k - |a|);
    } else {
      var j := if i < k then i else i - |a| - |b|;
      SpliceAt(code, k, a, j);
      SpliceAt(once, k + |a|, b, Moved(k, |a|, j));
      SpliceAt(code, k, both, j);
      MovedTwice(k, |a|, |b|, code[j]);
    }
  }

  lemma MovedAllAt(k: nat, n: nat, block: Code, i: nat)
    requires i < |block|
    ensures |MovedAll(k, n, block)| == |block| && MovedAll(k, n, block)[i] == MovedInstr(k, n, block[i])
  {
  }

  predicate Branchless(block: Code)
  {
    forall i :: 0 <= i < |block| ==> !HasTarget(block[i].op)
  }

  lemma NotMoved(k: nat, n: nat, block: Code)
    requires Branchless(block)
    ensures MovedAll(k, n, block) == block
  {
    hide HasTarget;
  }

  lemma SpliceNew(code: Code, k: nat, ins: Code, j: nat)
    requires k <= |code| && j < |ins|
    ensures |Splice(code, k, ins)| == |code| + |ins| && Splice(code, k, ins)[k + j] == ins[j]
  {
  }

  lemma SpliceAt(code: Code, k: nat, ins: Code, j: nat)
    requires k <= |code| && j < |code|
    ensures |Splice(code, k, ins)| == |code| + |ins|
    ensures Splice(code, k, ins)[Moved(k, |ins|, j)] == MovedInstr(k, |ins|, code[j])
  {
  }
}
