/** The second pass of Export: displacements are written, and short branches that cannot hold theirs become long. */
module Fixup {
  import opened Words
  import opened Opcodes
  import opened ILCode
  import opened Relaxation
  import opened Assembler
  import opened RoundTrip
  import opened Instructions
  import opened ListViews
  import opened Layout

  /** Operands and targets of the nodes are those of code, whatever their opcodes are by now. */
  ghost predicate OperandsMatch(nodes: seq<ILInstr>, il: ILInstr, code: Code, i: nat)
    requires |code| == |nodes| && i < |nodes|
    reads nodes`arg, nodes`target
  {
    if HasTarget(code[i].op)
    then code[i].arg == 0 && code[i].target <= |nodes| && nodes[i].target == NodeAt(nodes, il, code[i].target)
    else code[i].target == 0 && code[i].arg == if OperandOf(code[i].op).NoOperand? then 0 else nodes[i].arg
  }

  lemma CodeOperandsMatch(nodes: seq<ILInstr>, il: ILInstr, i: nat)
    requires TargetsLinked(nodes, il) && i < |nodes|
    ensures OperandsMatch(nodes, il, CodeOf(nodes), i)
  {
    assert CodeOf(nodes)[i] == ViewOf(nodes, nodes[i]);
  }

  /** Fills in the displacement of the branch or switch argument at position i. */
  method WriteDisplacement(buffer: array<byte>, at: nat, w: nat, delta: int, ghost raw: Code, ghost i: nat)
    requires i < |raw| && NonEmptySizes(raw) && HasTarget(raw[i].op) && w == OperandBytes(raw[i].op)
    requires at == Off(raw, i) + OpcodeBytes(raw[i].op) && delta == raw[i].arg - Origin(raw, i)
    requires forall j :: 0 <= j < |raw| ==> HeadLaid(buffer[..], raw, j)
    modifies buffer
    ensures LaidAt(buffer[..], raw, i)
    ensures forall j :: 0 <= j < |raw| ==> HeadLaid(buffer[..], raw, j)
    ensures forall j :: 0 <= j < |raw| && old(LaidAt(buffer[..], raw, j)) ==> LaidAt(buffer[..], raw, j)
  {
    hide Off, Size, OpcodeCode, OpcodeBytes, Store, OperandOf, HeadLaid, LaidAt, Origin;
    ghost var before := buffer[..];
    assert forall j :: 0 <= j < |raw| ==> HeadLaid(before, raw, j);
    OffStep(raw, i);
    HeadFacts(before, raw, i);
    OperandWidth(raw[i].op);
    WriteBytes(buffer, at, Store(w, delta));
    Patched(before, buffer[..], raw, i);
    forall j | 0 <= j < |raw|
      ensures HeadLaid(buffer[..], raw, j)
      ensures LaidAt(before, raw, j) ==> LaidAt(buffer[..], raw, j)
    {
      if j != i {
        KeptOutside(before, buffer[..], raw, i, at);
        OthersKept(before, buffer[..], raw, i, j);
      }
    }
  }

  lemma OperandWidth(op: nat)
    requires HasTarget(op)
    ensures OperandBytes(op) == 1 || OperandBytes(op) == 4
    ensures forall origin: int, arg: int :: WriteArg(op, origin, arg) == Store(OperandBytes(op), arg - origin)
  {
  }

  lemma HeadFacts(bs: seq<byte>, raw: Code, i: nat)
    requires i < |raw| && HeadLaid(bs, raw, i)
    ensures Off(raw, i + 1) <= |bs|
    ensures bs[Off(raw, i)..Off(raw, i) + OpcodeBytes(raw[i].op)] == OpcodeCode(raw[i].op)
  {
  }

  lemma KeptOutside(bs: seq<byte>, bs': seq<byte>, raw: Code, i: nat, at: nat)
    requires i < |raw| && Off(raw, i + 1) <= |bs| == |bs'| && Off(raw, i) <= at <= Off(raw, i + 1)
    requires bs'[..at] == bs[..at] && bs'[Off(raw, i + 1)..] == bs[Off(raw, i + 1)..]
    ensures bs'[..Off(raw, i)] == bs[..Off(raw, i)]
  {
    SameBefore(bs, bs', at, 0, Off(raw, i));
  }

  lemma Patched(bs: seq<byte>, bs': seq<byte>, raw: Code, i: nat)
    requires i < |raw| && HasTarget(raw[i].op) && HeadLaid(bs, raw, i) && |bs'| == |bs|
    requires var at := Off(raw, i) + OpcodeBytes(raw[i].op);
             && at <= Off(raw, i + 1) <= |bs| && bs'[..at] == bs[..at]
             && bs'[at..Off(raw, i + 1)] == Store(OperandBytes(raw[i].op), raw[i].arg - Origin(raw, i))
    ensures HeadLaid(bs', raw, i) && LaidAt(bs', raw, i)
  {
    hide Off, Size, OpcodeCode, Store, OperandOf, Origin;
    OffStep(raw, i);
    OperandWidth(raw[i].op);
    var p, at, e := Off(raw, i), Off(raw, i) + OpcodeBytes(raw[i].op), Off(raw, i + 1);
    SameBefore(bs, bs', at, p, at);
    assert bs'[p..e] == bs'[p..at] + bs'[at..e];
  }

  /** The long form of a short branch; any other opcode is an error. */
  method WidenOpcode(opcode: nat) returns (ok: bool, wide: nat)
    ensures ok <==> IsShort(opcode)
    ensures ok ==> wide == Widen(opcode)
  {
    if opcode == LEAVE_S {
      return true, LEAVE;
    }
    if !(BR_S <= opcode <= BLT_UN_S) {
      return false, opcode;
    }
    wide := opcode - BR_S + BR;
    ok := BR <= wide <= BLT_UN;
  }

  lemma WidenedAt(code: Code, i: nat)
    requires TargetsInside(code) && i < |code|
    ensures WidenMisfits(code)[i] == if ShortFits(code, i) then code[i] else WidenInstr(code[i])
  {
  }

  /** Handles one branch or switch argument of the list. */
  method FixBranch(ghost nodes: seq<ILInstr>, il: ILInstr, buffer: array<byte>, ghost code: Code, ghost i: nat,
                   p: ILInstr, switchBase: int)
    returns (ok: bool, misfit: bool)
    requires Ring(nodes, il) && |code| == |nodes| && i < |nodes| && p == nodes[i]
    requires TargetsInside(code) && NonEmptySizes(Locate(code)) && OffsetsSet(nodes, il, code)
    requires p.opcode == code[i].op && HasTarget(p.opcode) && OperandsMatch(nodes, il, code, i)
    requires switchBase == Base(code, i)
    requires forall j :: 0 <= j < |code| ==> HeadLaid(buffer[..], Locate(code), j)
    modifies p`opcode, buffer
    ensures ok && misfit == !ShortFits(code, i) && p.opcode == WidenMisfits(code)[i].op
    ensures ShortFits(code, i) ==> LaidAt(buffer[..], Locate(code), i)
    ensures forall j :: 0 <= j < |code| ==> HeadLaid(buffer[..], Locate(code), j)
    ensures forall j :: 0 <= j < |code| && old(LaidAt(buffer[..], Locate(code), j)) ==> LaidAt(buffer[..], Locate(code), j)
  {
    hide Off, Size, OperandOf, HeadLaid, LaidAt, Base, WidenMisfits;
    ghost var raw := Locate(code);
    WidenedAt(code, i);
    OffsetsOf(nodes, il, code, i);
    ShortOrLong(p.opcode);
    DisplacementOf(code, i);
    ok, misfit := true, false;
    if p.opcode == SWITCH_ARG {
      WriteDisplacement(buffer, p.offset, 4, p.target.offset - switchBase, raw, i);
    } else {
      var delta := p.target.offset - p.next.offset;
      if OperandBytes(p.opcode) == 1 {
        if !Fits8(delta) {
          var wide;
          ok, wide := WidenOpcode(p.opcode);
          misfit := true;
          p.opcode := wide;
          return;
        }
        WriteDisplacement(buffer, p.next.offset - 1, 1, delta, raw, i);
      } else {
        WriteDisplacement(buffer, p.next.offset - 4, 4, delta, raw, i);
      }
    }
  }

  lemma ShortOrLong(op: nat)
    requires HasTarget(op)
    ensures OperandBytes(op) == if IsShort(op) then 1 else 4
    ensures OpcodeBytes(SWITCH_ARG) == 0 && !IsShort(SWITCH_ARG)
  {
  }

  /** The nodes around position i carry the offsets its displacement is computed from. */
  lemma OffsetsOf(nodes: seq<ILInstr>, il: ILInstr, code: Code, i: nat)
    requires Ring(nodes, il) && |code| == |nodes| && i < |nodes| && OffsetsSet(nodes, il, code)
    requires HasTarget(code[i].op) && OperandsMatch(nodes, il, code, i)
    ensures nodes[i].next != null && nodes[i].target != null
    ensures nodes[i].next.offset == Off(code, i + 1) && nodes[i].target.offset == Off(code, code[i].target)
    ensures nodes[i].offset == Off(code, i) && Off(code, i + 1) == Off(code, i) + OpcodeBytes(code[i].op) + OperandBytes(code[i].op)
  {
    assert Linked(nodes, il, i);
    OffStep(code, i);
  }

  lemma DisplacementOf(code: Code, i: nat)
    requires TargetsInside(code) && i < |code| && HasTarget(code[i].op)
    ensures var raw := Locate(code);
            && raw[i].op == code[i].op && Off(raw, i) == Off(code, i)
            && raw[i].arg - Origin(raw, i) ==
               if code[i].op == SWITCH_ARG then Off(code, code[i].target) - Base(code, i) else Delta(code, i)
  {
    hide Off, Base, OperandOf, HasTarget;
    var raw := Locate(code);
    LocatedTarget(code, i);
    LocateKeepsShape(code);
    PrefixFacts(code, raw, i);
    PrefixFacts(code, raw, i + 1);
  }

  lemma LocatedTarget(code: Code, i: nat)
    requires TargetsInside(code) && i < |code| && HasTarget(code[i].op)
    ensures Locate(code)[i].op == code[i].op && Locate(code)[i].arg == Off(code, code[i].target)
  {
    hide Off, OperandOf;
    assert Locate(code)[i] == Located(code, code[i]);
  }

  /** Handles one node of the list, whatever it is. */
  method FixNode(ghost nodes: seq<ILInstr>, il: ILInstr, buffer: array<byte>, ghost code: Code, ghost i: nat,
                 p: ILInstr, switchBase: int)
    returns (ok: bool, misfit: bool, switchBase': int)
    requires Ring(nodes, il) && |code| == |nodes| && i < |nodes| && p == nodes[i]
    requires TargetsInside(code) && NonEmptySizes(Locate(code)) && OffsetsSet(nodes, il, code)
    requires p.opcode == code[i].op && OperandsMatch(nodes, il, code, i) && switchBase == Base(code, i)
    requires forall j :: 0 <= j < |code| ==> HeadLaid(buffer[..], Locate(code), j)
    modifies p`opcode, buffer
    ensures ok && misfit == !ShortFits(code, i) && p.opcode == WidenMisfits(code)[i].op
    ensures switchBase' == Base(code, i + 1)
    ensures ShortFits(code, i) ==> LaidAt(buffer[..], Locate(code), i)
    ensures forall j :: 0 <= j < |code| ==> HeadLaid(buffer[..], Locate(code), j)
    ensures forall j :: 0 <= j < |code| && old(LaidAt(buffer[..], Locate(code), j)) ==> LaidAt(buffer[..], Locate(code), j)
  {
    hide Off, Size, OperandOf, HeadLaid, LaidAt, Base, Locate, ShortFits, HasTarget, OperandsMatch, WidenMisfits;
    BaseSteps(code, i);
    OperandsAt(nodes, il, code, i);
    NoTargetIsLaid(buffer[..], code, i);
    ok, misfit, switchBase' := true, false, switchBase;
    if p.opcode == SWITCH {
      switchBase' := p.offset + 1 + 4 * (p.arg + 1);
    } else if HasTarget(p.opcode) {
      ok, misfit := FixBranch(nodes, il, buffer, code, i, p, switchBase);
    }
  }

  /** Walks the list: every position ends up filled in or widened. */
  method FixNodes(ghost nodes: seq<ILInstr>, il: ILInstr, buffer: array<byte>, ghost code: Code)
    returns (ok: bool, fTryAgain: bool)
    requires Ring(nodes, il) && |code| == |nodes| && TargetsInside(code) && NonEmptySizes(Locate(code))
    requires OffsetsSet(nodes, il, code)
    requires forall j :: 0 <= j < |code| ==> nodes[j].opcode == code[j].op && OperandsMatch(nodes, il, code, j)
    requires forall j :: 0 <= j < |code| ==> HeadLaid(buffer[..], Locate(code), j)
    modifies nodes`opcode, buffer
    ensures ok && fTryAgain == !AllFit(code)
    ensures forall j :: 0 <= j < |code| ==> nodes[j].opcode == WidenMisfits(code)[j].op
    ensures !fTryAgain ==> forall j :: 0 <= j < |code| ==> LaidAt(buffer[..], Locate(code), j)
  {
    hide Ring, Off, Size, HeadLaid, LaidAt, Base, Locate, ShortFits, OperandsMatch, WidenMisfits, OffsetsSet, AllFit;
    hide HasTarget, IsShort;
    ghost var raw, next, i := Locate(code), WidenMisfits(code), 0;
    ok, fTryAgain := true, false;
    var switchBase := 0;
    BaseSteps(code, 0);
    RingFacts(nodes, il);
    RingStep(nodes, il, 0);
    var p := il.next;
    while p != il
      invariant 0 <= i <= |nodes| && p == NodeAt(nodes, il, i) && switchBase == Base(code, i)
      invariant forall j :: 0 <= j < |code| ==> HeadLaid(buffer[..], raw, j)
      invariant forall j :: 0 <= j < i ==> nodes[j].opcode == next[j].op
      invariant forall j :: i <= j < |nodes| ==> nodes[j].opcode == code[j].op
      invariant forall j :: 0 <= j < i && ShortFits(code, j) ==> LaidAt(buffer[..], raw, j)
      invariant if fTryAgain then !AllFit(code) else forall j :: 0 <= j < i ==> ShortFits(code, j)
      invariant ok
      decreases |nodes| - i
    {
      var misfit;
      ok, misfit, switchBase := FixNode(nodes, il, buffer, code, i, p, switchBase);
      if !ok {
        return;
      }
      AllFitAt(code, i);
      fTryAgain := fTryAgain || misfit;
      RingStep(nodes, il, i);
      p := p.next;
      i := i + 1;
    }
    EachFits(code);
  }

  lemma AllFitAt(code: Code, i: nat)
    requires TargetsInside(code) && i < |code|
    ensures AllFit(code) ==> ShortFits(code, i)
  {
  }

  lemma EachFits(code: Code)
    requires TargetsInside(code)
    ensures AllFit(code) <==> forall i :: 0 <= i < |code| ==> ShortFits(code, i)
  {
  }

  /** Second pass: the list is widened where it has to be, and complete in the buffer where it has not. */
  method FixupPass(ghost nodes: seq<ILInstr>, il: ILInstr, buffer: array<byte>, ghost code: Code)
    returns (ok: bool, fTryAgain: bool)
    requires Ring(nodes, il) && code == CodeOf(nodes) && WellFormed(code) && TargetsInside(code)
    requires TargetsLinked(nodes, il) && OffsetsSet(nodes, il, code)
    requires forall j :: 0 <= j < |code| ==> HeadLaid(buffer[..], Locate(code), j)
    modifies nodes`opcode, buffer
    ensures ok && CodeOf(nodes) == WidenMisfits(code) && TargetsLinked(nodes, il)
    ensures fTryAgain == !AllFit(code)
    ensures !fTryAgain ==> forall j :: 0 <= j < |code| ==> LaidAt(buffer[..], Locate(code), j)
  {
    hide Ring, Off, Size, InstrOk, HeadLaid, LaidAt, Locate, ShortFits, HasTarget, OperandsMatch, WidenMisfits;
    WellFormedFacts(code);
    LocateKeepsShape(code);
    forall j | 0 <= j < |nodes| ensures OperandsMatch(nodes, il, code, j) {
      CodeOperandsMatch(nodes, il, j);
    }
    ok, fTryAgain := FixNodes(nodes, il, buffer, code);
    WidenedCode(nodes, il, code);
  }

  lemma BaseSteps(code: Code, i: nat)
    requires i <= |code|
    ensures Base(code, 0) == 0
    ensures i < |code| && code[i].op == SWITCH ==> Base(code, i + 1) == Off(code, i) + 1 + 4 * (code[i].arg + 1)
    ensures i < |code| && code[i].op != SWITCH ==> Base(code, i + 1) == Base(code, i)
  {
  }

  lemma OperandsAt(nodes: seq<ILInstr>, il: ILInstr, code: Code, i: nat)
    requires |code| == |nodes| && i < |nodes| && OperandsMatch(nodes, il, code, i)
    ensures code[i].op == SWITCH ==> nodes[i].arg == code[i].arg
    ensures !HasTarget(SWITCH)
  {
  }

  lemma NoTargetIsLaid(bs: seq<byte>, code: Code, i: nat)
    requires TargetsInside(code) && i < |code| && HeadLaid(bs, Locate(code), i)
    ensures !HasTarget(code[i].op) ==> ShortFits(code, i) && LaidAt(bs, Locate(code), i)
    ensures !HasTarget(code[i].op) ==> WidenMisfits(code)[i] == code[i]
  {
    assert Locate(code)[i] == Located(code, code[i]);
    WidenedAt(code, i);
  }

  /** With its opcodes replaced, the list holds the widened code. */
  lemma WidenedCode(nodes: seq<ILInstr>, il: ILInstr, code: Code)
    requires Ring(nodes, il) && |code| == |nodes| && TargetsInside(code)
    requires forall i :: 0 <= i < |nodes| ==> OperandsMatch(nodes, il, code, i)
    requires forall i :: 0 <= i < |nodes| ==> nodes[i].opcode == WidenMisfits(code)[i].op
    ensures CodeOf(nodes) == WidenMisfits(code) && TargetsLinked(nodes, il)
  {
    hide Ring, WidenMisfits;
    RingFacts(nodes, il);
    forall i | 0 <= i < |nodes|
      ensures CodeOf(nodes)[i] == WidenMisfits(code)[i]
      ensures HasTarget(nodes[i].opcode) ==>
                nodes[i].target != null && (nodes[i].target == il || nodes[i].target in nodes)
    {
      WidenedView(nodes, il, code, i);
    }
  }

  lemma WidenedView(nodes: seq<ILInstr>, il: ILInstr, code: Code, i: nat)
    requires il !in nodes && Distinct(nodes) && |code| == |nodes| && TargetsInside(code) && i < |nodes|
    requires OperandsMatch(nodes, il, code, i) && nodes[i].opcode == WidenMisfits(code)[i].op
    ensures ViewOf(nodes, nodes[i]) == WidenMisfits(code)[i]
    ensures HasTarget(nodes[i].opcode) ==>
              nodes[i].target != null && (nodes[i].target == il || nodes[i].target in nodes)
  {
    hide WidenMisfits, OperandOf;
    WidenedAt(code, i);
    WidenHasTarget(code[i].op);
    if HasTarget(code[i].op) && code[i].target < |nodes| {
      IndexOfAt(nodes, code[i].target);
    }
  }

  lemma WidenHasTarget(op: nat)
    ensures IsShort(op) ==> HasTarget(op) && HasTarget(Widen(op))
  {
  }
}
