/** The two passes of Export over the list: laying instructions out, then filling in or widening the branches. */
module Layout {
  import opened Words
  import opened Opcodes
  import opened ILCode
  import opened Assembler
  import opened RoundTrip
  import opened Instructions
  import opened ListViews

  /** m_offset of every node, the sentinel included, is its position in the current layout. */
  ghost predicate OffsetsSet(nodes: seq<ILInstr>, il: ILInstr, code: Code)
    requires |code| == |nodes|
    reads nodes`offset, il`offset
  {
    && il.offset == CodeSize(code)
    && forall i :: 0 <= i < |nodes| ==> nodes[i].offset == Off(code, i)
  }

  ghost predicate OffsetsUpTo(nodes: seq<ILInstr>, code: Code, n: nat)
    requires n <= |code| == |nodes|
    reads nodes`offset
  {
    forall i :: 0 <= i < n ==> nodes[i].offset == Off(code, i)
  }

  /** Every branch points at a node of the list or at the sentinel. */
  ghost predicate TargetsLinked(nodes: seq<ILInstr>, il: ILInstr)
    reads nodes`opcode, nodes`target
  {
    forall i :: 0 <= i < |nodes| && HasTarget(nodes[i].opcode) ==>
      nodes[i].target != null && (nodes[i].target == il || nodes[i].target in nodes)
  }

  /** The opcode of position i is in place, and so is its operand unless it is a displacement. */
  predicate HeadLaid(bs: seq<byte>, raw: Code, i: nat)
    requires i < |raw|
  {
    && Off(raw, i + 1) <= |bs|
    && bs[Off(raw, i)..Off(raw, i) + OpcodeBytes(raw[i].op)] == OpcodeCode(raw[i].op)
    && (!HasTarget(raw[i].op) ==> LaidAt(bs, raw, i))
  }

  method WriteBytes(buffer: array<byte>, at: nat, s: seq<byte>)
    requires at + |s| <= buffer.Length
    modifies buffer
    ensures buffer[at..at + |s|] == s
    ensures buffer[..at] == old(buffer[..at]) && buffer[at + |s|..] == old(buffer[at + |s|..])
  {
    for k := 0 to |s|
      invariant buffer[at..at + k] == s[..k]
      invariant buffer[..at] == old(buffer[..at]) && buffer[at + |s|..] == old(buffer[at + |s|..])
    {
      buffer[at + k] := s[k];
    }
  }

  /** Bytes of other instructions survive a write that stays inside one instruction. */
  lemma OthersKept(bs: seq<byte>, bs': seq<byte>, raw: Code, i: nat, j: nat)
    requires i < |raw| && j < |raw| && i != j && NonEmptySizes(raw) && |bs'| == |bs|
    requires Off(raw, i + 1) <= |bs|
    requires bs'[..Off(raw, i)] == bs[..Off(raw, i)] && bs'[Off(raw, i + 1)..] == bs[Off(raw, i + 1)..]
    ensures HeadLaid(bs, raw, j) ==> HeadLaid(bs', raw, j)
    ensures LaidAt(bs, raw, j) ==> LaidAt(bs', raw, j)
  {
    hide Off, Size, OperandOf, OpcodeCode, InstrCode, OpcodeBytes;
    OffStep(raw, j);
    OffStep(raw, i);
    if Off(raw, j + 1) <= |bs| {
      if j < i {
        OffMonotone(raw, j + 1, i);
        SameBefore(bs, bs', Off(raw, i), Off(raw, j), Off(raw, j + 1));
        SameBefore(bs, bs', Off(raw, i), Off(raw, j), Off(raw, j) + OpcodeBytes(raw[j].op));
      } else {
        OffMonotone(raw, i + 1, j);
        SameAfter(bs, bs', Off(raw, i + 1), Off(raw, j), Off(raw, j + 1));
        SameAfter(bs, bs', Off(raw, i + 1), Off(raw, j), Off(raw, j) + OpcodeBytes(raw[j].op));
      }
    }
  }

  lemma SameBefore(bs: seq<byte>, bs': seq<byte>, m: nat, p: nat, e: nat)
    requires p <= e <= m <= |bs| && |bs'| == |bs| && bs'[..m] == bs[..m]
    ensures bs'[p..e] == bs[p..e]
  {
    assert bs'[p..e] == bs'[..m][p..e];
    assert bs[p..e] == bs[..m][p..e];
  }

  lemma SameAfter(bs: seq<byte>, bs': seq<byte>, m: nat, p: nat, e: nat)
    requires m <= p <= e <= |bs| && |bs'| == |bs| && bs'[m..] == bs[m..]
    ensures bs'[p..e] == bs[p..e]
  {
    forall k | p <= k < e ensures bs'[k] == bs[k] {
      assert bs'[k] == bs'[m..][k - m] && bs[k] == bs[m..][k - m];
    }
  }

  /** Writes opcode and, unless it is a displacement, operand of the instruction at position i. */
  method LayInstr(x: ILInstr, buffer: array<byte>, offset: nat, ghost raw: Code, ghost i: nat) returns (offset': nat)
    requires i < |raw| && x.opcode == raw[i].op
    requires OperandOf(x.opcode).Inline? || OperandOf(x.opcode).SwitchCount? ==> x.arg == raw[i].arg
    requires offset == Off(raw, i) && Off(raw, i + 1) <= buffer.Length
    modifies buffer
    ensures offset' == Off(raw, i + 1) && HeadLaid(buffer[..], raw, i)
    ensures buffer[..offset] == old(buffer[..offset])
  {
    hide Off, Size, OpcodeCode, OpcodeBytes, Store;
    OffStep(raw, i);
    var opcode, op := OpcodeCode(x.opcode), x.opcode;
    WriteBytes(buffer, offset, opcode);
    offset' := offset + |opcode|;
    if OperandOf(op).Inline? || OperandOf(op).SwitchCount? {
      var operand := Store(OperandBytes(op), x.arg);
      WriteBytes(buffer, offset', operand);
      assert buffer[offset..offset' + |operand|] == opcode + operand by {
        assert buffer[offset..offset'] == buffer[..offset'][offset..];
        assert buffer[offset..offset' + |operand|] == buffer[offset..offset'] + buffer[offset'..offset' + |operand|];
      }
    }
    offset' := offset' + OperandBytes(op);
    assert buffer[..offset] == buffer[..offset + |opcode|][..offset];
  }

  /** A laid out instruction always has room in a buffer of ten bytes an instruction, so the range guard never fires. */
  lemma LayoutRoom(code: Code, i: nat)
    requires WellFormed(code) && TargetsInside(code) && i < |code|
    ensures var raw := Locate(code);
            Off(raw, i) < 10 * |code| && Off(raw, i + 1) <= 10 * |code| && NonEmptySizes(raw)
  {
    hide Size, Off, InstrOk;
    var raw := Locate(code);
    OffBound(raw, i);
    OffBound(raw, i + 1);
    WellFormedFacts(code);
    LocateKeepsShape(code);
  }

  lemma LocateKeepsOffset(code: Code, i: nat)
    requires TargetsInside(code) && i <= |code|
    ensures Off(Locate(code), i) == Off(code, i) <= 10 * i
  {
    LocateKeepsShape(code);
    PrefixFacts(code, Locate(code), i);
    OffBound(code, i);
  }

  lemma LocatedOp(nodes: seq<ILInstr>, code: Code, i: nat)
    requires code == CodeOf(nodes) && TargetsInside(code) && i < |nodes|
    ensures var raw, x := Locate(code), nodes[i];
            && x.opcode == raw[i].op == code[i].op
            && (OperandOf(x.opcode).Inline? || OperandOf(x.opcode).SwitchCount? ==> x.arg == raw[i].arg == code[i].arg)
  {
    assert Locate(code)[i] == Located(code, code[i]) && code[i] == ViewOf(nodes, nodes[i]);
  }

  lemma EarlierKept(bs: seq<byte>, bs': seq<byte>, raw: Code, i: nat, j: nat)
    requires j < i < |raw| && NonEmptySizes(raw) && |bs'| == |bs|
    requires Off(raw, i) <= |bs| && bs'[..Off(raw, i)] == bs[..Off(raw, i)] && HeadLaid(bs, raw, j)
    ensures HeadLaid(bs', raw, j)
  {
    hide Off, Size, OperandOf, OpcodeCode, InstrCode, OpcodeBytes;
    OffStep(raw, j);
    OffMonotone(raw, j + 1, i);
    SameBefore(bs, bs', Off(raw, i), Off(raw, j), Off(raw, j + 1));
    SameBefore(bs, bs', Off(raw, i), Off(raw, j), Off(raw, j) + OpcodeBytes(raw[j].op));
  }

  /** Lays out position i and keeps what was written for the positions before it. */
  method LayNext(x: ILInstr, buffer: array<byte>, offset: nat, ghost raw: Code, ghost i: nat) returns (offset': nat)
    requires i < |raw| && x.opcode == raw[i].op && NonEmptySizes(raw)
    requires OperandOf(x.opcode).Inline? || OperandOf(x.opcode).SwitchCount? ==> x.arg == raw[i].arg
    requires offset == Off(raw, i) && Off(raw, i + 1) <= buffer.Length
    requires forall j :: 0 <= j < i ==> HeadLaid(buffer[..], raw, j)
    modifies buffer
    ensures offset' == Off(raw, i + 1) && buffer[..offset] == old(buffer[..offset])
    ensures forall j :: 0 <= j <= i ==> HeadLaid(buffer[..], raw, j)
  {
    hide Off, Size, HeadLaid, OperandOf;
    ghost var before := buffer[..];
    OffStep(raw, i);
    assert forall j :: 0 <= j < i ==> HeadLaid(before, raw, j);
    offset' := LayInstr(x, buffer, offset, raw, i);
    forall j | 0 <= j < i ensures HeadLaid(buffer[..], raw, j) {
      EarlierKept(before, buffer[..], raw, i, j);
    }
  }

  /** Lays out one node; the range guard never fires. */
  method LayNode(ghost nodes: seq<ILInstr>, p: ILInstr, buffer: array<byte>, offset: nat, ghost code: Code, ghost i: nat)
    returns (ok: bool, offset': nat)
    requires code == CodeOf(nodes) && WellFormed(code) && TargetsInside(code) && i < |nodes| && p == nodes[i]
    requires buffer.Length >= 10 * |nodes| && offset == Off(code, i)
    requires Distinct(nodes) && OffsetsUpTo(nodes, code, i)
    requires forall j :: 0 <= j < i ==> HeadLaid(buffer[..], Locate(code), j)
    modifies p`offset, buffer
    ensures ok && OffsetsUpTo(nodes, code, i + 1) && offset' == Off(code, i + 1)
    ensures offset <= buffer.Length && buffer[..offset] == old(buffer[..offset])
    ensures forall j :: 0 <= j <= i ==> HeadLaid(buffer[..], Locate(code), j)
  {
    hide Off, Size, HeadLaid, OperandOf, InstrOk, Locate, HasTarget;
    LayoutRoom(code, i);
    LocateKeepsOffset(code, i);
    if offset >= buffer.Length {
      return false, offset;
    }
    p.offset := offset;
    LocatedOp(nodes, code, i);
    LocateKeepsOffset(code, i + 1);
    offset' := LayNext(p, buffer, offset, Locate(code), i);
    ok := true;
  }

  /** First pass: assigns every node its offset and writes everything but the displacements. */
  method LayoutPass(ghost nodes: seq<ILInstr>, il: ILInstr, buffer: array<byte>, ghost code: Code)
    returns (ok: bool, fBranch: bool, offset: nat)
    requires Ring(nodes, il) && code == CodeOf(nodes) && WellFormed(code) && TargetsInside(code)
    requires buffer.Length >= 10 * |nodes|
    modifies nodes`offset, il`offset, buffer
    ensures ok && offset == CodeSize(code) <= buffer.Length && OffsetsSet(nodes, il, code)
    ensures forall i :: 0 <= i < |nodes| ==> HeadLaid(buffer[..], Locate(code), i)
    ensures !fBranch ==> forall i :: 0 <= i < |nodes| ==> !HasTarget(code[i].op)
  {
    hide Off, Size, HeadLaid, OperandOf, InstrOk, Locate, HasTarget, WellFormed, Distinct, OffsetsUpTo;
    ghost var i := 0;
    fBranch, offset := false, 0;
    var p := il.next;
    LocateKeepsOffset(code, 0);
    NoOffsets(nodes, code);
    while p != il
      invariant 0 <= i <= |nodes| && p == NodeAt(nodes, il, i) && offset == Off(code, i)
      invariant OffsetsUpTo(nodes, code, i)
      invariant forall j :: 0 <= j < i ==> HeadLaid(buffer[..], Locate(code), j)
      invariant !fBranch ==> forall j :: 0 <= j < i ==> !HasTarget(code[j].op)
      decreases |nodes| - i
    {
      ok, offset := LayNode(nodes, p, buffer, offset, code, i);
      if !ok { return; }
      LocatedOp(nodes, code, i);
      fBranch := fBranch || HasTarget(p.opcode);
      assert Linked(nodes, il, i);
      p := p.next;
      i := i + 1;
    }
    il.offset := offset;
    LocateKeepsOffset(code, |code|);
    AllOffsets(nodes, il, code);
    ok := true;
  }

  lemma NoOffsets(nodes: seq<ILInstr>, code: Code)
    requires |code| == |nodes|
    ensures OffsetsUpTo(nodes, code, 0)
  {
  }

  lemma AllOffsets(nodes: seq<ILInstr>, il: ILInstr, code: Code)
    requires |code| == |nodes| && OffsetsUpTo(nodes, code, |nodes|)
    ensures il.offset == CodeSize(code) ==> OffsetsSet(nodes, il, code)
  {
  }
}
