/** class ILRewriterWrapper: every emitter inserts one new node before the current position of the rewriter's list. */
module Wrapper {
  import opened Opcodes
  import opened ILCode
  import opened Instructions
  import opened ListViews
  import opened StackPushes
  import opened Rewriter
  import Emission

  /** The list value of a new node. */
  function NewInstr(opcode: nat, arg: int): (ins: Instr)
    ensures ins.op == opcode && ins.target == 0
  {
    Instr(opcode, if HasTarget(opcode) then UNATTACHED else if OperandOf(opcode).NoOperand? then 0 else arg, 0)
  }

  /** The nodes after has beyond before. */
  function Added(before: seq<ILInstr>, after: seq<ILInstr>): seq<ILInstr>
    requires |before| <= |after|
  {
    after[|before|..]
  }

  predicate Grown(before: seq<ILInstr>, after: seq<ILInstr>)
  {
    |before| <= |after| && after == before + Added(before, after)
  }

  /** No branch leads to the end of the list. */
  predicate NoneToTheEnd(code: Code)
  {
    forall i :: 0 <= i < |code| && HasTarget(code[i].op) ==> code[i].target < |code|
  }

  /** The opcodes the emitters use that take an operand. */
  predicate WithOperand(op: nat)
  {
    || op == LDC_I4_S || op == LDC_I4 || op == LDARG_S || op == LDARG || op == LDLOC_S || op == LDLOC || op == STLOC_S
    || op == STLOC || op == LDLOCA_S || op == LDLOCA || op == LDSTR || op == NEWARR || op == CALL || op == CALLVIRT
  }

  lemma GrownBy(was: seq<ILInstr>, now: seq<ILInstr>, n: nat)
    requires |now| == |was| + n && now[..|was|] == was
    ensures Grown(was, now) && Added(was, now) == now[|was|..|was| + n]
  {
  }

  /** Opcodes without a target; those without operand take none. */
  lemma PlainOpcode(opcode: nat, arg: int)
    requires arg == 0 || WithOperand(opcode)
    requires opcode < BR_S || BLT_UN < opcode < LEAVE || LEAVE_S < opcode < SWITCH_ARG
    ensures NewInstr(opcode, arg) == Instr(opcode, arg, 0)
  {
  }

  lemma AddedTwice(a: seq<ILInstr>, b: seq<ILInstr>, c: seq<ILInstr>)
    requires Grown(a, b) && Grown(b, c)
    ensures Grown(a, c) && Added(a, c) == Added(a, b) + Added(b, c)
  {
  }

  lemma NewView(nodes: seq<ILInstr>, x: ILInstr)
    requires x.target == null
    ensures ViewOf(nodes, x) == NewInstr(x.opcode, x.arg)
  {
  }

  lemma StillIn(nodes: seq<ILInstr>, k: nat, what: ILInstr, x: ILInstr)
    requires k <= |nodes|
    ensures x in nodes ==> x in Inserted(nodes, k, what)
  {
    if x in nodes {
      assert Inserted(nodes, k, what)[Moved(k, 1, IndexOf(nodes, x))] == x;
    }
  }

  /** Splicing at the end appends, as long as no branch leads to the end. */
  lemma SpliceAtEnd(code: Code, block: Code)
    requires NoneToTheEnd(code)
    ensures Splice(code, |code|, block) == code + block
  {
    hide HasTarget;
    var r := Splice(code, |code|, block);
    forall i | 0 <= i < |r| ensures r[i] == (code + block)[i] {
      if i < |code| {
        assert r[Moved(|code|, |block|, i)] == MovedInstr(|code|, |block|, code[i]);
      } else {
        assert r[|code| + (i - |code|)] == block[i - |code|];
      }
    }
  }

  lemma StillNone(code: Code, block: Code)
    requires NoneToTheEnd(code) && forall i :: 0 <= i < |block| ==> block[i].target == 0
    ensures NoneToTheEnd(code + block)
  {
    hide HasTarget;
  }

  class ILRewriterWrapper {
    const rewriter: ILRewriter
    var position: ILInstr

    ghost predicate Ready()
      reads this, rewriter, rewriter.il`next, rewriter.il`prev
      reads rewriter.nodes`next, rewriter.nodes`prev, rewriter.nodes`opcode
    {
      rewriter.Valid() && (position == rewriter.il || position in rewriter.nodes)
    }

    /** Emission goes to the end of the list, and no branch leads to the end. */
    ghost predicate Appending()
      reads this, rewriter, rewriter.il`next, rewriter.il`prev
      reads rewriter.nodes`next, rewriter.nodes`prev, rewriter.nodes`opcode, rewriter.nodes`arg, rewriter.nodes`target
    {
      Ready() && position == rewriter.il && NoneToTheEnd(Emitted())
    }

    ghost function Emitted(): (code: Code)
      reads this, rewriter, rewriter.nodes`opcode, rewriter.nodes`arg, rewriter.nodes`target
      ensures |code| == |rewriter.nodes|
    {
      CodeOf(rewriter.nodes)
    }

    constructor (rewriter: ILRewriter, position: ILInstr)
      requires rewriter.Valid() && (position == rewriter.il || position in rewriter.nodes)
      ensures this.rewriter == rewriter && this.position == position && Ready()
    {
      this.rewriter, this.position := rewriter, position;
    }

    /** New nodes holding block stand in front of the position, which stays where it is; no old branch has moved. */
    twostate predicate Spliced(block: Code)
      reads this, rewriter, rewriter.il`next, rewriter.il`prev
      reads rewriter.nodes`next, rewriter.nodes`prev, rewriter.nodes`opcode, rewriter.nodes`arg, rewriter.nodes`target
    {
      var was, k := old(rewriter.nodes), IndexOf(old(rewriter.nodes), position);
      && Ready() && position == old(position) && |rewriter.nodes| == |was| + |block|
      && rewriter.nodes[..k] == was[..k] && rewriter.nodes[k + |block|..] == was[k..]
      && fresh(rewriter.nodes[k..k + |block|])
      && Emitted() == Splice(old(Emitted()), k, block)
    }

    /** Emission goes to the end of the list, where new nodes have been added. */
    twostate predicate Longer()
      reads this, rewriter, rewriter.il`next, rewriter.il`prev
      reads rewriter.nodes`next, rewriter.nodes`prev, rewriter.nodes`opcode, rewriter.nodes`arg, rewriter.nodes`target
    {
      Appending() && Grown(old(rewriter.nodes), rewriter.nodes) && fresh(Added(old(rewriter.nodes), rewriter.nodes))
    }

    /** What Spliced is when emission goes to the end of the list. */
    twostate predicate Appended(block: Code)
      reads this, rewriter, rewriter.il`next, rewriter.il`prev
      reads rewriter.nodes`next, rewriter.nodes`prev, rewriter.nodes`opcode, rewriter.nodes`arg, rewriter.nodes`target
    {
      Longer() && Emitted() == old(Emitted()) + block
    }

    /** What is known after something was appended. */
    twostate lemma Extends()
      requires Longer()
      ensures Ready() && Appending() && Grown(old(rewriter.nodes), rewriter.nodes)
      ensures fresh(Added(old(rewriter.nodes), rewriter.nodes))
      ensures rewriter.nodes == old(rewriter.nodes) + Added(old(rewriter.nodes), rewriter.nodes)
    {
      hide Ready, Emitted, Added;
    }

    twostate lemma Emits(block: Code)
      requires Appended(block)
      ensures Longer() && Emitted() == old(Emitted()) + block
    {
      hide Longer, Emitted;
    }

    /** Appending twice; mid is the list between the two. */
    twostate lemma StillLonger(new mid: seq<ILInstr>)
      requires Appending() && Grown(old(rewriter.nodes), mid) && fresh(Added(old(rewriter.nodes), mid))
      requires Grown(mid, rewriter.nodes) && fresh(Added(mid, rewriter.nodes))
      ensures Longer()
    {
      hide Appending, Added, Grown;
      AddedTwice(old(rewriter.nodes), mid, rewriter.nodes);
    }

    /** Appending b after a; mid and code are the list and its value between the two. */
    twostate lemma Then(new mid: seq<ILInstr>, new code: Code, new a: Code, new b: Code)
      requires Appending() && Grown(old(rewriter.nodes), mid) && fresh(Added(old(rewriter.nodes), mid))
      requires Grown(mid, rewriter.nodes) && fresh(Added(mid, rewriter.nodes))
      requires code == old(Emitted()) + a && Emitted() == code + b
      ensures Appended(a + b) && Longer() && Emitted() == old(Emitted()) + (a + b)
    {
      hide Longer, Emitted, Added, Grown;
      StillLonger(mid);
    }

    /** What all emitters do: a new node goes in front of the position, which stays where it is. */
    method Insert(opcode: nat, arg: int) returns (x: ILInstr)
      requires Ready()
      modifies rewriter`nodes, rewriter`maxStack, rewriter`nInstrs
      modifies rewriter.nodes`next, rewriter.nodes`prev, rewriter.il`next, rewriter.il`prev
      ensures fresh(x) && x.opcode == opcode && x.target == null
      ensures rewriter.nodes == Inserted(old(rewriter.nodes), IndexOf(old(rewriter.nodes), position), x)
      ensures Spliced([NewInstr(opcode, arg)])
      ensures old(Appending()) ==> Appended([NewInstr(opcode, arg)]) && rewriter.nodes == old(rewriter.nodes) + [x]
    {
      hide Ring, PushSum, OpcodesOf, CodeOf, Splice, HasTarget, Inserted, NewInstr, Spliced, Appended;
      ghost var was := rewriter.nodes;
      RingFacts(was, rewriter.il);
      x := InsertNode(opcode, arg);
      OneSpliced(x, NewInstr(opcode, arg));
      InsertedLast(was, x);
      AtTheEnd([NewInstr(opcode, arg)]);
    }

    method InsertNode(opcode: nat, arg: int) returns (x: ILInstr)
      requires Ready()
      modifies rewriter`nodes, rewriter`maxStack, rewriter`nInstrs
      modifies rewriter.nodes`next, rewriter.nodes`prev, rewriter.il`next, rewriter.il`prev
      ensures Ready() && fresh(x) && x.opcode == opcode && x.target == null
      ensures rewriter.nodes == Inserted(old(rewriter.nodes), IndexOf(old(rewriter.nodes), position), x)
      ensures Emitted() == Splice(old(Emitted()), IndexOf(old(rewriter.nodes), position), [NewInstr(opcode, arg)])
    {
      hide Ring, PushSum, OpcodesOf, CodeOf, Splice, OperandOf, HasTarget, ViewOf, Inserted, NewInstr;
      ghost var was, k := rewriter.nodes, IndexOf(rewriter.nodes, position);
      x := rewriter.NewILInstr(opcode);
      x.arg := arg;
      assert Avoids(was, x);
      rewriter.InsertBefore(position, x);
      InsertedIsSplice(was, k, x);
      NewView(rewriter.nodes, x);
      StillIn(was, k, x, position);
    }

    twostate lemma OneSpliced(new x: ILInstr, ins: Instr)
      requires Ready() && position == old(position) && fresh(x)
      requires rewriter.nodes == Inserted(old(rewriter.nodes), IndexOf(old(rewriter.nodes), position), x)
      requires Emitted() == Splice(old(Emitted()), IndexOf(old(rewriter.nodes), position), [ins])
      ensures Spliced([ins])
    {
      hide Ring, PushSum, OpcodesOf, CodeOf, Splice, Inserted, Emitted;
      InsertedShape(old(rewriter.nodes), IndexOf(old(rewriter.nodes), position), x);
    }

    /** Splicing at the end of the list is appending. */
    twostate lemma AtTheEnd(block: Code)
      requires Spliced(block) && forall i :: 0 <= i < |block| ==> block[i].target == 0
      ensures old(Appending()) ==> Appended(block)
    {
      hide Ring, PushSum, OpcodesOf, CodeOf, Splice, NoneToTheEnd, Grown, Added, Ready, Emitted;
      if old(Appending()) {
        var was, now := old(rewriter.nodes), rewriter.nodes;
        assert IndexOf(was, position) == |was| by { SentinelLast(); }
        SpliceAtEnd(old(Emitted()), block);
        StillNone(old(Emitted()), block);
        GrownBy(was, now, |block|);
      }
    }

    twostate lemma SentinelLast()
      requires old(Ready())
      ensures IndexOf(old(rewriter.nodes), rewriter.il) == |old(rewriter.nodes)|
    {
      hide PushSum, OpcodesOf;
    }

    method LoadInt32(value: int)
      requires Ready()
      modifies rewriter`nodes, rewriter`maxStack, rewriter`nInstrs
      modifies rewriter.nodes`next, rewriter.nodes`prev, rewriter.il`next, rewriter.il`prev
      ensures Spliced([Emission.LoadInt32(value)])
      ensures old(Appending()) ==> Appended([Emission.LoadInt32(value)])
    {
      hide Ring, PushSum, OpcodesOf, CodeOf, HasTarget, Splice, Inserted, Spliced, Appended, Emission.Arg8, Emission.Arg16;
      var x;
      if 0 <= value <= 8 {
        PlainOpcode(LDC_I4_0 + value, 0);
        x := Insert(LDC_I4_0 + value, 0);
      } else if -128 <= value <= 127 {
        PlainOpcode(LDC_I4_S, value);
        x := Insert(LDC_I4_S, value);
      } else {
        PlainOpcode(LDC_I4, value);
        x := Insert(LDC_I4, value);
      }
    }

    method LoadArgument(index: nat)
      requires Ready()
      modifies rewriter`nodes, rewriter`maxStack, rewriter`nInstrs
      modifies rewriter.nodes`next, rewriter.nodes`prev, rewriter.il`next, rewriter.il`prev
      ensures Spliced([Emission.LoadArgument(index)])
      ensures old(Appending()) ==> Appended([Emission.LoadArgument(index)])
    {
      hide Ring, PushSum, OpcodesOf, CodeOf, HasTarget, Splice, Inserted, Spliced, Appended, Emission.Arg8, Emission.Arg16;
      var x;
      if index <= 3 {
        PlainOpcode(LDARG_0 + index, 0);
        x := Insert(LDARG_0 + index, 0);
      } else if index <= 255 {
        PlainOpcode(LDARG_S, Emission.Arg8(index));
        x := Insert(LDARG_S, Emission.Arg8(index));
      } else {
        PlainOpcode(LDARG, Emission.Arg16(index));
        x := Insert(LDARG, Emission.Arg16(index));
      }
    }

    method LoadLocal(index: nat)
      requires Ready()
      modifies rewriter`nodes, rewriter`maxStack, rewriter`nInstrs
      modifies rewriter.nodes`next, rewriter.nodes`prev, rewriter.il`next, rewriter.il`prev
      ensures Spliced([Emission.LoadLocal(index)])
      ensures old(Appending()) ==> Appended([Emission.LoadLocal(index)])
    {
      hide Ring, PushSum, OpcodesOf, CodeOf, HasTarget, Splice, Inserted, Spliced, Appended, Emission.Arg8, Emission.Arg16;
      var x;
      if index <= 3 {
        PlainOpcode(LDLOC_0 + index, 0);
        x := Insert(LDLOC_0 + index, 0);
      } else if index <= 255 {
        PlainOpcode(LDLOC_S, Emission.Arg8(index));
        x := Insert(LDLOC_S, Emission.Arg8(index));
      } else {
        PlainOpcode(LDLOC, Emission.Arg16(index));
        x := Insert(LDLOC, Emission.Arg16(index));
      }
    }

    method StLocal(index: nat)
      requires Ready()
      modifies rewriter`nodes, rewriter`maxStack, rewriter`nInstrs
      modifies rewriter.nodes`next, rewriter.nodes`prev, rewriter.il`next, rewriter.il`prev
      ensures Spliced([Emission.StLocal(index)])
      ensures old(Appending()) ==> Appended([Emission.StLocal(index)])
    {
      hide Ring, PushSum, OpcodesOf, CodeOf, HasTarget, Splice, Inserted, Spliced, Appended, Emission.Arg8, Emission.Arg16;
      var x;
      if index <= 3 {
        PlainOpcode(STLOC_0 + index, 0);
        x := Insert(STLOC_0 + index, 0);
      } else if index <= 255 {
        PlainOpcode(STLOC_S, Emission.Arg8(index));
        x := Insert(STLOC_S, Emission.Arg8(index));
      } else {
        PlainOpcode(STLOC, Emission.Arg16(index));
        x := Insert(STLOC, Emission.Arg16(index));
      }
    }

    method LoadLocalAddress(index: nat)
      requires Ready()
      modifies rewriter`nodes, rewriter`maxStack, rewriter`nInstrs
      modifies rewriter.nodes`next, rewriter.nodes`prev, rewriter.il`next, rewriter.il`prev
      ensures Spliced([Emission.LoadLocalAddress(index)])
      ensures old(Appending()) ==> Appended([Emission.LoadLocalAddress(index)])
    {
      hide Ring, PushSum, OpcodesOf, CodeOf, HasTarget, Splice, Inserted, Spliced, Appended, Emission.Arg8, Emission.Arg16;
      var x;
      if index <= 255 {
        PlainOpcode(LDLOCA_S, Emission.Arg8(index));
        x := Insert(LDLOCA_S, Emission.Arg8(index));
      } else {
        PlainOpcode(LDLOCA, Emission.Arg16(index));
        x := Insert(LDLOCA, Emission.Arg16(index));
      }
    }

    method LoadStr(token: int)
      requires Ready()
      modifies rewriter`nodes, rewriter`maxStack, rewriter`nInstrs
      modifies rewriter.nodes`next, rewriter.nodes`prev, rewriter.il`next, rewriter.il`prev
      ensures Spliced([Instr(LDSTR, token, 0)])
      ensures old(Appending()) ==> Appended([Instr(LDSTR, token, 0)])
    {
      hide Ring, PushSum, OpcodesOf, CodeOf, HasTarget, Splice, Inserted, Spliced, Appended, Emission.Arg8, Emission.Arg16;
      PlainOpcode(LDSTR, token);
      var x := Insert(LDSTR, token);
    }

    method LoadNull()
      requires Ready()
      modifies rewriter`nodes, rewriter`maxStack, rewriter`nInstrs
      modifies rewriter.nodes`next, rewriter.nodes`prev, rewriter.il`next, rewriter.il`prev
      ensures Spliced([Instr(LDNULL, 0, 0)])
      ensures old(Appending()) ==> Appended([Instr(LDNULL, 0, 0)])
    {
      hide Ring, PushSum, OpcodesOf, CodeOf, HasTarget, Splice, Inserted, Spliced, Appended, Emission.Arg8, Emission.Arg16;
      PlainOpcode(LDNULL, 0);
      var x := Insert(LDNULL, 0);
    }

    method Duplicate()
      requires Ready()
      modifies rewriter`nodes, rewriter`maxStack, rewriter`nInstrs
      modifies rewriter.nodes`next, rewriter.nodes`prev, rewriter.il`next, rewriter.il`prev
      ensures Spliced([Instr(DUP, 0, 0)])
      ensures old(Appending()) ==> Appended([Instr(DUP, 0, 0)])
    {
      hide Ring, PushSum, OpcodesOf, CodeOf, HasTarget, Splice, Inserted, Spliced, Appended, Emission.Arg8, Emission.Arg16;
      PlainOpcode(DUP, 0);
      var x := Insert(DUP, 0);
    }

    method Pop()
      requires Ready()
      modifies rewriter`nodes, rewriter`maxStack, rewriter`nInstrs
      modifies rewriter.nodes`next, rewriter.nodes`prev, rewriter.il`next, rewriter.il`prev
      ensures Spliced([Instr(POP, 0, 0)])
      ensures old(Appending()) ==> Appended([Instr(POP, 0, 0)])
    {
      hide Ring, PushSum, OpcodesOf, CodeOf, HasTarget, Splice, Inserted, Spliced, Appended, Emission.Arg8, Emission.Arg16;
      PlainOpcode(POP, 0);
      var x := Insert(POP, 0);
    }

    method NewArray(typeRef: int)
      requires Ready()
      modifies rewriter`nodes, rewriter`maxStack, rewriter`nInstrs
      modifies rewriter.nodes`next, rewriter.nodes`prev, rewriter.il`next, rewriter.il`prev
      ensures Spliced([Instr(NEWARR, typeRef, 0)])
      ensures old(Appending()) ==> Appended([Instr(NEWARR, typeRef, 0)])
    {
      hide Ring, PushSum, OpcodesOf, CodeOf, HasTarget, Splice, Inserted, Spliced, Appended, Emission.Arg8, Emission.Arg16;
      PlainOpcode(NEWARR, typeRef);
      var x := Insert(NEWARR, typeRef);
    }

    method EndLoadValueIntoArray()
      requires Ready()
      modifies rewriter`nodes, rewriter`maxStack, rewriter`nInstrs
      modifies rewriter.nodes`next, rewriter.nodes`prev, rewriter.il`next, rewriter.il`prev
      ensures Spliced([Instr(STELEM_REF, 0, 0)])
      ensures old(Appending()) ==> Appended([Instr(STELEM_REF, 0, 0)])
    {
      hide Ring, PushSum, OpcodesOf, CodeOf, HasTarget, Splice, Inserted, Spliced, Appended, Emission.Arg8, Emission.Arg16;
      PlainOpcode(STELEM_REF, 0);
      var x := Insert(STELEM_REF, 0);
    }

    method CallMember(memberRef: int, isVirtual: bool)
      requires Ready()
      modifies rewriter`nodes, rewriter`maxStack, rewriter`nInstrs
      modifies rewriter.nodes`next, rewriter.nodes`prev, rewriter.il`next, rewriter.il`prev
      ensures Spliced([Instr(if isVirtual then CALLVIRT else CALL, memberRef, 0)])
      ensures old(Appending()) ==> Appended([Instr(if isVirtual then CALLVIRT else CALL, memberRef, 0)])
      ensures var k := IndexOf(old(rewriter.nodes), position);
              && |rewriter.nodes| == |old(rewriter.nodes)| + 1
              && rewriter.nodes == Inserted(old(rewriter.nodes), k, rewriter.nodes[k]) && fresh(rewriter.nodes[k])
              && rewriter.nodes[k].target == null && rewriter.nodes[k].opcode == (if isVirtual then CALLVIRT else CALL)
    {
      hide Ring, PushSum, OpcodesOf, CodeOf, HasTarget, Splice, Appended;
      PlainOpcode(if isVirtual then CALLVIRT else CALL, memberRef);
      var x := Insert(if isVirtual then CALLVIRT else CALL, memberRef);
    }

    twostate lemma SplicedValue(block: Code)
      requires Spliced(block)
      ensures Ready() && Emitted() == Splice(old(Emitted()), IndexOf(old(rewriter.nodes), position), block)
    {
    }

    /** What a spliced block means for the nodes. */
    twostate lemma SplicedFacts(block: Code) returns (added: seq<ILInstr>)
      requires old(Ready()) && Spliced(block)
      ensures Ready() && position == old(position) && |added| == |block| && fresh(added)
      ensures var was, k := old(rewriter.nodes), IndexOf(old(rewriter.nodes), position);
              && k <= |was| && rewriter.nodes == was[..k] + added + was[k..]
              && IndexOf(rewriter.nodes, position) == k + |block|
              && Emitted() == Splice(old(Emitted()), k, block)
    {
      hide PushSum, OpcodesOf, Splice;
      var was, k := old(rewriter.nodes), IndexOf(old(rewriter.nodes), position);
      added := rewriter.nodes[k..k + |block|];
      RingFacts(rewriter.nodes, rewriter.il);
      BlockPutIn(was, rewriter.nodes, k, |block|);
      PositionMoved(was, rewriter.nodes, rewriter.il, k, |block|, position);
    }

    /**
     * Splicing b behind a, in front of the same position; mid and code are the list and its value between the two, first
     * and second the nodes put in.
     */
    twostate lemma SplicedThen(new mid: seq<ILInstr>, new code: Code, new k: nat, new first: seq<ILInstr>, new a: Code,
                               new second: seq<ILInstr>, new b: Code)
      requires Ready() && position == old(position) && Branchless(a) && |first| == |a| && |second| == |b|
      requires k == IndexOf(old(rewriter.nodes), position) && k <= |old(rewriter.nodes)|
      requires mid == old(rewriter.nodes)[..k] + first + old(rewriter.nodes)[k..] && fresh(first)
      requires rewriter.nodes == mid[..k + |a|] + second + mid[k + |a|..] && fresh(second)
      requires code == Splice(old(Emitted()), k, a)
      requires Emitted() == Splice(code, k + |a|, b)
      ensures Spliced(a + b)
    {
      hide *;
      SpliceTwice(old(Emitted()), k, a, b);
      NotMoved(k + |a|, |b|, a);
      PutInTwice(old(rewriter.nodes), k, first, second);
      SplicedIs(k, first + second, a + b);
    }

    twostate lemma SplicedIs(new k: nat, new added: seq<ILInstr>, new block: Code)
      requires Ready() && position == old(position) && k == IndexOf(old(rewriter.nodes), position)
      requires k <= |old(rewriter.nodes)| && rewriter.nodes == old(rewriter.nodes)[..k] + added + old(rewriter.nodes)[k..]
      requires fresh(added) && |added| == |block|
      requires Emitted() == Splice(old(Emitted()), k, block)
      ensures Spliced(block)
    {
      hide Ready, Emitted, Splice;
      assert rewriter.nodes[k..k + |block|] == added;
    }

    method CreateArray(typeRef: int, size: int)
      requires Ready()
      modifies rewriter`nodes, rewriter`maxStack, rewriter`nInstrs
      modifies rewriter.nodes`next, rewriter.nodes`prev, rewriter.il`next, rewriter.il`prev
      ensures Spliced(Emission.CreateArray(typeRef, size))
      ensures old(Appending()) ==> Appended(Emission.CreateArray(typeRef, size))
    {
      hide *;
      TwoEmitted(typeRef, size);
      ghost var k, a, b := IndexOf(rewriter.nodes, position), [Emission.LoadInt32(size)], [Instr(NEWARR, typeRef, 0)];
      LoadInt32(size);
      ghost var first := SplicedFacts(a);
      label between:
      ghost var n, c := rewriter.nodes, Emitted();
      NewArray(typeRef);
      ghost var second := SplicedFacts@between(b);
      SplicedThen(n, c, k, first, a, second, b);
      AtTheEnd(a + b);
    }

    method BeginLoadValueIntoArray(arrayIndex: int)
      requires Ready()
      modifies rewriter`nodes, rewriter`maxStack, rewriter`nInstrs
      modifies rewriter.nodes`next, rewriter.nodes`prev, rewriter.il`next, rewriter.il`prev
      ensures Spliced(Emission.BeginLoadValueIntoArray(arrayIndex))
      ensures old(Appending()) ==> Appended(Emission.BeginLoadValueIntoArray(arrayIndex))
    {
      hide *;
      TwoEmitted(0, arrayIndex);
      ghost var k, a, b := IndexOf(rewriter.nodes, position), [Instr(DUP, 0, 0)], [Emission.LoadInt32(arrayIndex)];
      Duplicate();
      ghost var first := SplicedFacts(a);
      label between:
      ghost var n, c := rewriter.nodes, Emitted();
      LoadInt32(arrayIndex);
      ghost var second := SplicedFacts@between(b);
      SplicedThen(n, c, k, first, a, second, b);
      AtTheEnd(a + b);
    }
  }

  lemma EmittedIs(w: ILRewriterWrapper)
    requires w.Ready()
    ensures w.rewriter.Valid() && w.Emitted() == CodeOf(w.rewriter.nodes)
  {
  }

  lemma BlockPutIn(was: seq<ILInstr>, now: seq<ILInstr>, k: nat, n: nat)
    requires k <= |was| && |now| == |was| + n && now[..k] == was[..k] && now[k + n..] == was[k..]
    ensures now == was[..k] + now[k..k + n] + was[k..]
  {
    assert now == now[..k] + now[k..k + n] + now[k + n..];
  }

  lemma PutInTwice(was: seq<ILInstr>, k: nat, first: seq<ILInstr>, second: seq<ILInstr>)
    requires k <= |was|
    ensures var mid := was[..k] + first + was[k..];
            mid[..k + |first|] + second + mid[k + |first|..] == was[..k] + (first + second) + was[k..]
  {
    var mid := was[..k] + first + was[k..];
    assert mid[..k + |first|] == was[..k] + first && mid[k + |first|..] == was[k..];
  }

  /** What an insertion leaves in place. */
  lemma InsertedShape(was: seq<ILInstr>, k: nat, x: ILInstr)
    requires k <= |was|
    ensures var now := Inserted(was, k, x);
            |now| == |was| + 1 && now[..k] == was[..k] && now[k + 1..] == was[k..] && now[k..k + 1] == [x]
  {
  }

  lemma PositionMoved(was: seq<ILInstr>, now: seq<ILInstr>, il: ILInstr, k: nat, n: nat, position: ILInstr)
    requires k == IndexOf(was, position) && |now| == |was| + n && now[k + n..] == was[k..]
    requires Distinct(now) && il !in now && (position == il || position in was)
    ensures IndexOf(now, position) == k + n
  {
    if k < |was| {
      assert now[k + n] == now[k + n..][0] == was[k..][0] == was[k];
      IndexOfAt(now, k + n);
    }
  }

  /** The two emitters that insert two instructions; neither is a branch. */
  lemma TwoEmitted(typeRef: int, value: int)
    ensures Emission.CreateArray(typeRef, value) == [Emission.LoadInt32(value)] + [Instr(NEWARR, typeRef, 0)]
    ensures Emission.BeginLoadValueIntoArray(value) == [Instr(DUP, 0, 0)] + [Emission.LoadInt32(value)]
    ensures Branchless([Emission.LoadInt32(value)]) && Branchless([Instr(DUP, 0, 0)])
    ensures Emission.LoadInt32(value).target == 0
  {
  }
}
