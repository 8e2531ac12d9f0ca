/** The running total behind m_maxStack: the pushes of every instruction in the list. */
module StackPushes {
  import opened Opcodes
  import opened ILCode
  import opened Relaxation
  import opened Instructions
  import opened ListViews

  function PushSum(ops: seq<nat>): (n: nat)
  {
    if ops == [] then 0 else PushSum(ops[..|ops| - 1]) + Pushes(ops[|ops| - 1])
  }

  function OpcodesOf(nodes: seq<ILInstr>, n: nat): (ops: seq<nat>)
    requires n <= |nodes|
    reads nodes`opcode
    ensures |ops| == n
    ensures forall i :: 0 <= i < n ==> ops[i] == nodes[i].opcode
  {
    if n == 0 then [] else OpcodesOf(nodes, n - 1) + [nodes[n - 1].opcode]
  }

  lemma {:induction false} PushSumInserted(ops: seq<nat>, k: nat, op: nat)
    requires k <= |ops|
    ensures PushSum(Inserted(ops, k, op)) == PushSum(ops) + Pushes(op)
  {
    hide Pushes;
    var ns, n := Inserted(ops, k, op), |ops|;
    if k == n {
      assert ns[..n] == ops;
    } else {
      assert ns[..n] == Inserted(ops[..n - 1], k, op) && ns[n] == ops[n - 1];
      PushSumInserted(ops[..n - 1], k, op);
    }
  }

  lemma OpcodesInserted(nodes: seq<ILInstr>, k: nat, what: ILInstr)
    requires k <= |nodes|
    ensures var ns := Inserted(nodes, k, what);
            |ns| == |nodes| + 1 && OpcodesOf(ns, |ns|) == Inserted(OpcodesOf(nodes, |nodes|), k, what.opcode)
  {
  }

  /** Inserting an instruction anywhere adds exactly its own pushes to the total. */
  lemma TotalInserted(nodes: seq<ILInstr>, k: nat, what: ILInstr)
    requires k <= |nodes|
    ensures var ns := Inserted(nodes, k, what);
            && |ns| == |nodes| + 1
            && PushSum(OpcodesOf(ns, |ns|)) == PushSum(OpcodesOf(nodes, |nodes|)) + Pushes(what.opcode)
  {
    hide PushSum, Inserted, Pushes;
    OpcodesInserted(nodes, k, what);
    PushSumInserted(OpcodesOf(nodes, |nodes|), k, what.opcode);
  }

  function Ops(code: Code): (ops: seq<nat>)
    ensures |ops| == |code| && forall i :: 0 <= i < |code| ==> ops[i] == code[i].op
  {
    seq(|code|, i requires 0 <= i < |code| => code[i].op)
  }

  lemma OpcodesAreOps(nodes: seq<ILInstr>)
    ensures OpcodesOf(nodes, |nodes|) == Ops(CodeOf(nodes))
  {
  }

  /** Widening a branch changes no push count, so Export leaves the total as it is. */
  lemma {:induction false} WideningKeepsPushes(code: Code, code': Code)
    requires WidenedFrom(code, code')
    ensures PushSum(Ops(code')) == PushSum(Ops(code))
  {
    if code != [] {
      var n := |code| - 1;
      WideningKeepsPushes(code[..n], code'[..n]);
      assert Ops(code)[..n] == Ops(code[..n]) && Ops(code')[..n] == Ops(code'[..n]);
      assert SameOrWidened(code[n], code'[n]);
      if code'[n] != code[n] {
        WidenFacts(code[n].op);
      }
    }
  }
}
