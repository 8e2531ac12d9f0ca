/** class ILRewriter: imports a method body into a linked list of instructions and exports the edited list. */
module Rewriter {
  import opened Words
  import opened Opcodes
  import opened ILCode
  import opened Relaxation
  import opened Assembler
  import opened RoundTrip
  import opened Instructions
  import opened ListViews
  import opened OffsetTable
  import opened StackPushes
  import opened Layout
  import opened Fixup
  import opened Regions

  /** A method body as the runtime decodes it (ECMA-335 Partition II, sections 25.4.2, 25.4.3 and 25.4.6). */
  datatype MethodBody =
    | Tiny(code: seq<byte>)
    | Fat(initLocals: bool, moreSects: bool, maxStack: int, localVarSig: nat, code: seq<byte>, clauses: seq<ClauseData>)

  datatype Exported = Exported(body: MethodBody) | Failed

  /** An instruction as ImportIL leaves it before targets are resolved: m_Arg32 of a branch is a byte offset. */
  ghost function RawOf(nodes: seq<ILInstr>, n: nat): (raw: Code)
    requires n <= |nodes|
    reads nodes`opcode, nodes`arg
    ensures |raw| == n
    ensures forall i :: 0 <= i < n ==> raw[i] == Instr(nodes[i].opcode, nodes[i].arg, 0)
  {
    if n == 0 then [] else RawOf(nodes, n - 1) + [Instr(nodes[n - 1].opcode, nodes[n - 1].arg, 0)]
  }

  lemma RawShape(nodes: seq<ILInstr>)
    ensures |RawOf(nodes, |nodes|)| == |nodes|
    ensures forall i :: 0 <= i < |nodes| ==> nodes[i].opcode == RawOf(nodes, |nodes|)[i].op &&
                                              nodes[i].arg == RawOf(nodes, |nodes|)[i].arg
    ensures |CodeOf(nodes)| == |nodes|
  {
  }

  lemma ResolvesWhen(raw: Code)
    ensures Resolve(raw).Ok? <==> forall i :: 0 <= i < |raw| ==> Resolvable(raw, raw[i])
  {
  }

  lemma RawAt(nodes: seq<ILInstr>, i: nat)
    requires i < |nodes|
    ensures |RawOf(nodes, |nodes|)| == |nodes| && RawOf(nodes, |nodes|)[i] == Instr(nodes[i].opcode, nodes[i].arg, 0)
  {
  }

  class ILRewriter {
    const il: ILInstr
    ghost var nodes: seq<ILInstr>
    ghost var initialStack: int
    var maxStack: int
    var nInstrs: nat
    var codeSize: nat
    var offsetToInstr: array<ILInstr?>
    var initLocals: bool
    var tkLocalVarSig: nat
    var generateTinyHeader: bool
    var eh: seq<EHClause>
    var ehAllocated: bool

    /** The list is a ring of nodes made by NewILInstr, and m_maxStack counts their pushes. */
    ghost predicate Valid()
      reads this, il`next, il`prev, nodes`next, nodes`prev, nodes`opcode
    {
      && Ring(nodes, il)
      && |nodes| <= nInstrs
      && maxStack == initialStack + PushSum(OpcodesOf(nodes, |nodes|))
    }

    constructor ()
      ensures Valid() && nodes == [] && nInstrs == 0 && fresh(il)
      ensures eh == [] && !ehAllocated && !generateTinyHeader
    {
      var sentinel := new ILInstr(0);
      sentinel.next, sentinel.prev := sentinel, sentinel;
      il, nodes, initialStack, nInstrs, codeSize, maxStack := sentinel, [], 0, 0, 0, 0;
      initLocals, tkLocalVarSig, generateTinyHeader, eh, ehAllocated := false, 0, false, [], false;
      offsetToInstr := new ILInstr?[0];
    }

    method InitializeTiny()
      requires Valid() && nodes == []
      modifies this
      ensures Valid() && nodes == [] && nInstrs == old(nInstrs) && maxStack == initialStack == 8
      ensures eh == [] && tkLocalVarSig == 0 && generateTinyHeader && !initLocals
    {
      tkLocalVarSig, maxStack, initialStack, initLocals, codeSize, eh := 0, 8, 8, false, 0, [];
      generateTinyHeader := true;
    }

    method SetTkLocalVarSig(token: nat)
      modifies this`tkLocalVarSig, this`generateTinyHeader
      ensures tkLocalVarSig == token && !generateTinyHeader
    {
      tkLocalVarSig, generateTinyHeader := token, false;
    }

    method NewILInstr(opcode: nat) returns (x: ILInstr)
      requires Valid()
      modifies this`nInstrs
      ensures Valid() && nInstrs == old(nInstrs) + 1
      ensures fresh(x) && x.opcode == opcode && x.arg == 0 && x.target == null
    {
      nInstrs := nInstrs + 1;
      x := new ILInstr(opcode);
    }

    method AdjustState(x: ILInstr)
      modifies this`maxStack
      ensures maxStack == old(maxStack) + Pushes(x.opcode)
    {
      maxStack := maxStack + Pushes(x.opcode);
    }

    /** The new node goes between where_ and its predecessor; all other nodes stay, in the same order. */
    method InsertBefore(where_: ILInstr, what: ILInstr)
      requires Valid() && |nodes| < nInstrs
      requires where_ == il || where_ in nodes
      requires what !in nodes && what != il
      modifies this`nodes, this`maxStack, nodes`next, nodes`prev, il`next, il`prev, what`next, what`prev
      ensures Valid()
      ensures nodes == Inserted(old(nodes), IndexOf(old(nodes), where_), what)
    {
      hide Ring, PushSum, Inserted, Pushes, OpcodesOf;
      ghost var k, was := IndexOf(nodes, where_), nodes;
      LinkBefore(nodes, il, k, where_, what);
      nodes := Inserted(nodes, k, what);
      AdjustState(what);
      TotalInserted(was, k, what);
    }

    method InsertAfter(where_: ILInstr, what: ILInstr)
      requires Valid() && |nodes| < nInstrs
      requires where_ == il || where_ in nodes
      requires what !in nodes && what != il
      modifies this`nodes, this`maxStack, nodes`next, nodes`prev, il`next, il`prev, what`next, what`prev
      ensures Valid()
      ensures nodes == Inserted(old(nodes), if where_ == il then 0 else IndexOf(old(nodes), where_) + 1, what)
    {
      hide Ring, PushSum, Inserted, Pushes, OpcodesOf;
      ghost var k, was := if where_ == il then 0 else IndexOf(nodes, where_) + 1, nodes;
      LinkAfter(nodes, il, k, where_, what);
      nodes := Inserted(nodes, k, what);
      AdjustState(what);
      TotalInserted(was, k, what);
    }

    // ---------- Import ----------

    /** The instructions acc have been read from the front of bs. */
    ghost predicate Importing(bs: seq<byte>, acc: Code)
      reads this, il, nodes, offsetToInstr
    {
      && Valid() && codeSize == |bs|
      && acc == RawOf(nodes, |nodes|) && NonEmptySizes(acc) && CodeSize(acc) <= |bs|
      && offsetToInstr.Length == |bs| + 1 && Filled(offsetToInstr, nodes, acc, il)
    }

    /** Links a new instruction in front of the sentinel. */
    method AppendInstr(opcode: nat, arg: int) returns (x: ILInstr)
      requires Valid()
      modifies this`nodes, this`maxStack, this`nInstrs, il`next, il`prev, nodes`next, nodes`prev
      ensures Valid() && nodes == old(nodes) + [x] && fresh(x)
      ensures RawOf(nodes, |nodes|) == old(RawOf(nodes, |nodes|)) + [Instr(opcode, arg, 0)]
    {
      hide Ring, PushSum, Inserted, RawOf;
      ghost var was := nodes;
      RingFacts(nodes, il);
      x := NewILInstr(opcode);
      InsertBefore(il, x);
      x.arg := arg;
      InsertedLast(was, x);
      RawOfAppend(was, x);
    }

    /** Appends the instruction just read and, unless it is a switch argument, records its offset. */
    method Append(startOffset: nat, opcode: nat, arg: int, ghost bs: seq<byte>, ghost acc: Code)
      requires Importing(bs, acc) && startOffset == CodeSize(acc)
      requires Next(bs, acc) == Ok(Instr(opcode, arg, 0))
      modifies this`nodes, this`maxStack, this`nInstrs, il`next, il`prev, nodes`next, nodes`prev, offsetToInstr
      ensures Importing(bs, acc + [Instr(opcode, arg, 0)])
      ensures old(nodes) <= nodes && fresh(nodes[|old(nodes)|..])
    {
      hide Ring, PushSum, Next, Size, Off, RawOf, Entry;
      ghost var was, ins := nodes, Instr(opcode, arg, 0);
      NextSize(bs, acc);
      var x := AppendInstr(opcode, arg);
      if opcode != SWITCH_ARG {
        offsetToInstr[startOffset] := x;
      }
      CodeSizeExtend(acc, ins);
      forall o | 0 <= o < offsetToInstr.Length - 1 ensures offsetToInstr[o] == Entry(nodes, acc + [ins], o) {
        EntryExtend(was, x, acc, ins, o);
      }
      EntryPast(was, acc, startOffset);
    }

    /** Disassembles the instruction at offset together with the switch arguments it announces. */
    method ReadInstr(bs: seq<byte>, offset: nat, ghost acc: Code)
      returns (ok: bool, offset': nat, branch: bool, ghost acc': Code)
      requires Importing(bs, acc) && offset == CodeSize(acc) < |bs| && Pending(acc, |acc|) <= 0
      modifies this`nodes, this`maxStack, this`nInstrs, il`next, il`prev, nodes`next, nodes`prev, offsetToInstr
      ensures old(nodes) <= nodes && fresh(nodes[|old(nodes)|..])
      ensures Valid() && (ok ==> Importing(bs, acc'))
      ensures ok ==> offset < offset' == CodeSize(acc') && Pending(acc', |acc'|) <= 0
      ensures if ok then Scan(bs, acc') == Scan(bs, acc) else Scan(bs, acc).InvalidProgram?
      ensures ok && !branch && NoTargets(acc) ==> NoTargets(acc')
    {
      hide Ring, PushSum, OpcodesOf, Size, Off, RawOf, OperandOf, Filled, Next, Pending, Base, Scan;
      acc', branch := acc, false;
      ScanStep(bs, acc);
      var opcode, arg;
      ok, opcode, arg, offset' := ParseInstr(bs, offset, acc);
      if ok {
        NextSize(bs, acc);
        Append(offset, opcode, arg, bs, acc);
        ghost var ins := Instr(opcode, arg, 0);
        acc' := acc + [ins];
        CodeSizeExtend(acc, ins);
        PendingExtend(acc, ins);
        branch := HasTarget(opcode) || opcode == SWITCH;
        if opcode == SWITCH {
          ghost var was := nodes;
          ok, offset', acc' := ReadSwitchArgs(bs, offset', arg, acc');
          assert nodes[|old(nodes)|..] == was[|old(nodes)|..] + nodes[|was|..];
        }
      }
    }

    /** One entry of a switch table that ends at base. */
    method ReadSwitchArg(bs: seq<byte>, offset: nat, base: nat, ghost acc: Code) returns (ok: bool, ghost acc': Code)
      requires Importing(bs, acc) && offset == CodeSize(acc) && Pending(acc, |acc|) > 0 && Base(acc, |acc|) == base
      modifies this`nodes, this`maxStack, this`nInstrs, il`next, il`prev, nodes`next, nodes`prev, offsetToInstr
      ensures old(nodes) <= nodes && fresh(nodes[|old(nodes)|..])
      ensures Valid() && (ok ==> Importing(bs, acc') && CodeSize(acc') == offset + 4)
      ensures ok ==> Pending(acc', |acc'|) == Pending(acc, |acc|) - 1 && Base(acc', |acc'|) == base
      ensures if ok then Scan(bs, acc') == Scan(bs, acc) else Scan(bs, acc).InvalidProgram?
    {
      hide Ring, PushSum, OpcodesOf, Size, Off, RawOf, OperandOf, Filled, Next, Load, Pending, Base, Scan;
      ok, acc' := false, acc;
      ScanStep(bs, acc);
      NextSwitchArg(bs, acc);
      if offset + 4 <= codeSize {
        var arg := (base + Load(bs[offset..offset + 4])) % TWO32;
        Append(offset, SWITCH_ARG, arg, bs, acc);
        ghost var ins := Instr(SWITCH_ARG, arg, 0);
        CodeSizeExtend(acc, ins);
        PendingExtend(acc, ins);
        ok, acc' := true, acc + [ins];
      }
    }

    /** The table of nTargets switch arguments that starts at offset. */
    method ReadSwitchArgs(bs: seq<byte>, offset: nat, nTargets: nat, ghost acc: Code)
      returns (ok: bool, offset': nat, ghost acc': Code)
      requires Importing(bs, acc) && offset == CodeSize(acc) && Pending(acc, |acc|) == nTargets
      requires Base(acc, |acc|) == offset + 4 * nTargets
      modifies this`nodes, this`maxStack, this`nInstrs, il`next, il`prev, nodes`next, nodes`prev, offsetToInstr
      ensures old(nodes) <= nodes && fresh(nodes[|old(nodes)|..])
      ensures Valid() && (ok ==> Importing(bs, acc'))
      ensures ok ==> offset <= offset' == CodeSize(acc') && Pending(acc', |acc'|) == 0
      ensures if ok then Scan(bs, acc') == Scan(bs, acc) else Scan(bs, acc).InvalidProgram?
    {
      hide Ring, PushSum, OpcodesOf, Off, RawOf, Filled, Pending, Base, Scan;
      ok, offset', acc' := true, offset, acc;
      var base := offset + 4 * nTargets;
      for i := 0 to nTargets
        invariant ok && Importing(bs, acc') && offset <= offset' == CodeSize(acc')
        invariant Pending(acc', |acc'|) == nTargets - i && Base(acc', |acc'|) == base
        invariant Scan(bs, acc') == Scan(bs, acc)
        invariant old(nodes) <= nodes && fresh(nodes[|old(nodes)|..])
      {
        ghost var was := nodes;
        assert nodes == old(nodes) + nodes[|old(nodes)|..];
        ok, acc' := ReadSwitchArg(bs, offset', base, acc');
        assert nodes[|old(nodes)|..] == was[|old(nodes)|..] + nodes[|was|..];
        if !ok {
          return;
        }
        offset' := offset' + 4;
      }
    }

    method GetInstrFromOffset(offset: int) returns (x: ILInstr?)
      requires offsetToInstr.Length == codeSize + 1 && offset >= 0
      ensures x == if offset <= codeSize then offsetToInstr[offset] else null
    {
      x := if offset <= codeSize then offsetToInstr[offset] else null;
    }

    /** The target of one node. */
    method ResolveTarget(p: ILInstr, ghost raw: Code, ghost i: nat) returns (ok: bool)
      requires i < |nodes| == |raw| && p == nodes[i] && raw[i] == Instr(p.opcode, p.arg, 0)
      requires NonEmptySizes(raw) && CodeSize(raw) == codeSize && offsetToInstr.Length == codeSize + 1
      requires Filled(offsetToInstr, nodes, raw, il) && (HasTarget(p.opcode) ==> p.arg >= 0)
      modifies p`target
      ensures ok <==> Resolvable(raw, raw[i])
      ensures ok && HasTarget(p.opcode) ==> p.target == Lookup(nodes, il, raw, p.arg)
    {
      hide Off, OperandOf, Filled, IndexAt, HasTarget;
      ok := true;
      if HasTarget(p.opcode) {
        FilledIsLookup(offsetToInstr, nodes, raw, il, p.arg);
        var target := GetInstrFromOffset(p.arg);
        p.target := target;
        ok := target != null;
      }
    }

    /** Turns the byte offset in every branch and switch argument into a pointer to the instruction there. */
    method ResolveTargets(ghost raw: Code) returns (ok: bool)
      requires Valid() && raw == RawOf(nodes, |nodes|) && NonEmptySizes(raw) && CodeSize(raw) == codeSize
      requires offsetToInstr.Length == codeSize + 1 && Filled(offsetToInstr, nodes, raw, il)
      requires forall i :: 0 <= i < |nodes| && HasTarget(nodes[i].opcode) ==> nodes[i].arg >= 0
      modifies nodes`target
      ensures ok <==> forall i :: 0 <= i < |raw| ==> Resolvable(raw, raw[i])
      ensures ok ==> forall i :: 0 <= i < |nodes| && HasTarget(nodes[i].opcode) ==>
                       nodes[i].target == Lookup(nodes, il, raw, nodes[i].arg)
    {
      hide Ring, PushSum, OpcodesOf, Off, RawOf, OperandOf, Filled, IndexAt, Resolvable, Lookup, HasTarget;
      var p := il.next;
      ghost var i := 0;
      RingFacts(nodes, il);
      RingStep(nodes, il, 0);
      while p != il
        invariant 0 <= i <= |nodes| && p == NodeAt(nodes, il, i)
        invariant forall j :: 0 <= j < i ==> Resolvable(raw, raw[j])
        invariant forall j :: 0 <= j < i && HasTarget(nodes[j].opcode) ==>
                    nodes[j].target == Lookup(nodes, il, raw, nodes[j].arg)
        decreases |nodes| - i
      {
        RawAt(nodes, i);
        ok := ResolveTarget(p, raw, i);
        if !ok {
          return;
        }
        RingStep(nodes, il, i);
        p := p.next;
        i := i + 1;
      }
      ok := true;
    }

    /** Reads all of bs into the list, branches still holding byte offsets. */
    method ReadInstrs(bs: seq<byte>) returns (ok: bool, fBranch: bool, ghost raw: Code)
      requires Valid() && nodes == []
      modifies this`nodes, this`maxStack, this`nInstrs, this`codeSize, this`offsetToInstr, il`next, il`prev
      ensures Valid() && fresh(nodes)
      ensures if ok then Importing(bs, raw) && Scan(bs, []) == Ok(raw) else Scan(bs, []).InvalidProgram?
      ensures ok ==> CodeSize(raw) == |bs| && (!fBranch ==> NoTargets(raw))
    {
      hide Ring, PushSum, Size, RawOf, OperandOf, Next, Resolve, Off, Entry, Pending;
      StartImport(bs);
      var offset := 0;
      fBranch, raw := false, [];
      NothingRead();
      while offset < codeSize
        invariant Importing(bs, raw) && offset == CodeSize(raw) && Pending(raw, |raw|) <= 0
        invariant Scan(bs, raw) == Scan(bs, []) && (!fBranch ==> NoTargets(raw))
        invariant fresh(nodes) && fresh(offsetToInstr)
        decreases codeSize - offset
      {
        var branch;
        ghost var was := nodes;
        ok, offset, branch, raw := ReadInstr(bs, offset, raw);
        assert nodes == was + nodes[|was|..];
        if !ok {
          return;
        }
        fBranch := fBranch || branch;
      }
      ok := true;
    }

    method StartImport(bs: seq<byte>)
      requires Valid() && nodes == []
      modifies this`codeSize, this`offsetToInstr
      ensures Importing(bs, []) && fresh(offsetToInstr)
    {
      hide Ring, PushSum;
      codeSize := |bs|;
      offsetToInstr := new ILInstr?[|bs| + 1](_ => null);
      offsetToInstr[|bs|] := il;
    }

    /** Disassembles the code bytes of a method into the list. */
    method ImportIL(bs: seq<byte>) returns (ok: bool)
      requires Valid() && nodes == []
      modifies this`nodes, this`maxStack, this`nInstrs, this`codeSize, this`offsetToInstr, il`next, il`prev
      ensures Valid() && fresh(nodes)
      ensures ok <==> Decode(bs).Ok?
      ensures ok ==> CodeOf(nodes) == Decode(bs).value && codeSize == |bs| && TableFilled() && TargetsLinked(nodes, il)
    {
      hide Ring, PushSum, Size, RawOf, OperandOf, Off, Entry, Pending, RawOk, OpcodesOf, CodeOf, Scan, Resolve, Resolvable;
      hide Lookup, HasTarget, IndexAt, TargetsLinked, Filled;
      var fBranch;
      ghost var raw;
      ok, fBranch, raw := ReadInstrs(bs);
      if ok {
        ScannedRaw(bs, raw);
        RawShape(nodes);
        ResolvesWhen(raw);
        if fBranch {
          ok := ResolveTargets(raw);
        }
      }
      if ok {
        ImportedCode(nodes, il, raw);
        ImportedTable(offsetToInstr, nodes, il, raw);
      }
    }

    ghost predicate TableFilled()
      reads this, offsetToInstr, nodes`opcode, nodes`arg, nodes`target
    {
      && offsetToInstr.Length == codeSize + 1
      && CodeSize(CodeOf(nodes)) == codeSize && NonEmptySizes(CodeOf(nodes))
      && forall o :: 0 <= o <= codeSize ==> offsetToInstr[o] == Lookup(nodes, il, CodeOf(nodes), o)
    }

    /** Turns the offsets of every exception clause into list nodes. */
    method ImportEH(clauses: seq<ClauseData>) returns (ok: bool)
      requires Valid() && TableFilled() && codeSize < MAX_CODE
      modifies this`eh, this`ehAllocated
      ensures ok <==> !old(ehAllocated) && AllImportable(clauses)
      ensures ok ==> |eh| == |clauses| && forall i :: 0 <= i < |clauses| ==>
                       eh[i] == ImportClause(nodes, il, CodeOf(nodes), clauses[i])
    {
      hide Ring, PushSum, OpcodesOf, CodeOf, Lookup, PrevOf, Importable, ImportClause;
      if ehAllocated {
        return false;
      }
      eh := [];
      if clauses == [] {
        return true;
      }
      ehAllocated := true;
      for i := 0 to |clauses|
        invariant |eh| == i && forall j :: 0 <= j < i ==>
                    && Importable(nodes, il, CodeOf(nodes), clauses[j])
                    && eh[j] == ImportClause(nodes, il, CodeOf(nodes), clauses[j])
      {
        var clause;
        ok, clause := ImportOne(clauses[i]);
        if !ok {
          return;
        }
        eh := eh + [clause];
      }
      ok := true;
    }

    ghost predicate AllImportable(clauses: seq<ClauseData>)
      reads this, nodes`opcode, nodes`arg, nodes`target
    {
      forall i :: 0 <= i < |clauses| ==> Importable(nodes, il, CodeOf(nodes), clauses[i])
    }

    method ImportOne(d: ClauseData) returns (ok: bool, clause: EHClause)
      requires Valid() && TableFilled() && codeSize < MAX_CODE
      ensures ok <==> Importable(nodes, il, CodeOf(nodes), d)
      ensures ok ==> clause == ImportClause(nodes, il, CodeOf(nodes), d)
    {
      hide Ring, PushSum, OpcodesOf, CodeOf, Lookup, PrevOf;
      hide TableFilled;
      clause := EHClause(d.flags, il, il, il, il, 0, null);
      var tryBegin := FindInstr(d.tryOffset);
      var tryEnd := FindInstr((d.tryOffset + d.tryLength) % TWO32);
      var handlerBegin := FindInstr(d.handlerOffset);
      var handlerEnd := FindInstr((d.handlerOffset + d.handlerLength) % TWO32);
      if tryBegin == null || tryEnd == null || handlerBegin == null || handlerEnd == null {
        return false, clause;
      }
      LookupInList(nodes, il, CodeOf(nodes), (d.handlerOffset + d.handlerLength) % TWO32);
      PrevIs(nodes, il, handlerEnd);
      clause := EHClause(d.flags, tryBegin, tryEnd, handlerBegin, handlerEnd.prev, 0, null);
      if IsFilter(d.flags) {
        var filter := FindInstr(d.tokenOrFilter);
        if filter == null {
          return false, clause;
        }
        clause := clause.(filter := filter);
      } else {
        clause := clause.(classToken := d.tokenOrFilter);
      }
      ok := true;
    }

    method FindInstr(offset: nat) returns (x: ILInstr?)
      requires Valid() && TableFilled()
      ensures x == Lookup(nodes, il, CodeOf(nodes), offset)
    {
      hide Ring, PushSum, OpcodesOf, CodeOf;
      LookupFacts(nodes, il, CodeOf(nodes), offset);
      LookupPast(nodes, il, CodeOf(nodes), offset);
      x := GetInstrFromOffset(offset);
    }

    // ---------- Export ----------

    /** What Export needs of the edited list. */
    ghost predicate Exportable()
      reads this, il`next, il`prev, nodes`next, nodes`prev, nodes`opcode, nodes`arg, nodes`target
    {
      Valid() && TargetsLinked(nodes, il) && WellFormed(CodeOf(nodes))
    }

    /** One round of layout and fixup over the output buffer. */
    method ExportRound(buffer: array<byte>, ghost code: Code) returns (ok: bool, fTryAgain: bool, size: nat)
      requires Exportable() && code == CodeOf(nodes) && TargetsInside(code) && buffer.Length == 10 * nInstrs
      modifies nodes`opcode, nodes`offset, il`offset, buffer
      ensures Exportable() && CodeOf(nodes) == WidenMisfits(code) && OffsetsSet(nodes, il, code)
      ensures ok && size == CodeSize(code) <= buffer.Length && fTryAgain == !AllFit(code)
      ensures !fTryAgain ==> buffer[..size] == Encode(code)
    {
      hide Ring, PushSum, HeadLaid, LaidAt, ShortFits, WellFormed, Off, Locate, Encode, WidenMisfits, CodeOf;
      hide TargetsLinked, OffsetsSet, AllFit, TargetsInside, HasTarget;
      hide OpcodesOf;
      OpcodesAreOps(nodes);
      ok, fTryAgain, size := FillBuffer(buffer, code);
      OpcodesAreOps(nodes);
      MisfitsWellFormed(code);
      if !fTryAgain {
        CompleteCode(buffer[..], code);
      }
    }

    method FillBuffer(buffer: array<byte>, ghost code: Code) returns (ok: bool, fTryAgain: bool, size: nat)
      requires Exportable() && code == CodeOf(nodes) && TargetsInside(code) && buffer.Length == 10 * nInstrs
      modifies nodes`opcode, nodes`offset, il`offset, buffer
      ensures TargetsLinked(nodes, il) && CodeOf(nodes) == WidenMisfits(code) && OffsetsSet(nodes, il, code)
      ensures ok && size == CodeSize(code) <= buffer.Length && fTryAgain == !AllFit(code)
      ensures !fTryAgain ==> forall i :: 0 <= i < |code| ==> LaidAt(buffer[..], Locate(code), i)
    {
      hide Ring, PushSum, HeadLaid, LaidAt, ShortFits, WellFormed, Off, Locate, WidenMisfits, CodeOf, OpcodesOf;
      hide TargetsLinked, OffsetsSet, AllFit, TargetsInside, HasTarget;
      var fBranch;
      ok, fBranch, size := LayoutPass(nodes, il, buffer, code);
      fTryAgain := false;
      if fBranch {
        ok, fTryAgain := FixupPass(nodes, il, buffer, code);
      } else {
        NoBranches(buffer[..], code);
      }
    }

    /** Produces the code bytes: layout is repeated until no branch had to be widened. */
    method ExportCode() returns (ok: bool, bytes: seq<byte>)
      requires Exportable()
      modifies nodes`opcode, nodes`offset, il`offset
      ensures Exportable() && TargetsInside(old(CodeOf(nodes)))
      ensures CodeOf(nodes) == Relax(old(CodeOf(nodes))) && OffsetsSet(nodes, il, CodeOf(nodes))
      ensures ok && bytes == Encode(Relax(old(CodeOf(nodes))))
    {
      hide Ring, PushSum, AllFit, WellFormed, Encode, CodeOf, OpcodesOf, Relax;
      var buffer := new byte[10 * nInstrs];
      ghost var code0, code := CodeOf(nodes), CodeOf(nodes);
      WellFormedFacts(code);
      while true
        invariant Exportable() && code == CodeOf(nodes) && TargetsInside(code)
        invariant Relax(code) == Relax(code0)
        decreases Shorts(code)
      {
        var fTryAgain, size;
        RelaxStep(code);
        ok, fTryAgain, size := ExportRound(buffer, code);
        if !ok {
          return false, [];
        }
        if !fTryAgain {
          return true, buffer[..size];
        }
        code := WidenMisfits(code);
      }
    }

    method ExportEH(ghost code: Code) returns (clauses: seq<ClauseData>)
      requires Valid() && |code| == |nodes| && OffsetsSet(nodes, il, code) && AllLinked(nodes, il, eh)
      ensures clauses == ExportClauses(nodes, il, code, eh)
    {
      hide Ring, PushSum, OpcodesOf, OffsetsSet, OffsetOf, OffsetAfter, Off;
      clauses := [];
      for i := 0 to |eh|
        invariant |clauses| == i && forall j :: 0 <= j < i ==>
                    ClauseLinked(nodes, il, eh[j]) && clauses[j] == ExportClause(nodes, il, code, eh[j])
      {
        var src := eh[i];
        assert ClauseLinked(nodes, il, src);
        NodeOffset(nodes, il, code, src.tryBegin);
        NodeOffset(nodes, il, code, src.tryEnd);
        NodeOffset(nodes, il, code, src.handlerBegin);
        NodeOffset(nodes, il, code, src.handlerEnd);
        if IsFilter(src.flags) {
          NodeOffset(nodes, il, code, src.filter);
        }
        clauses := clauses + [ClauseData(
                                src.flags,
                                src.tryBegin.offset,
                                (src.tryEnd.offset - src.tryBegin.offset) % TWO32,
                                src.handlerBegin.offset,
                                (src.handlerEnd.next.offset - src.handlerBegin.offset) % TWO32,
                                if IsFilter(src.flags) then src.filter.offset else src.classToken)];
      }
    }

    /** The body Export hands to the runtime when code is what it laid out. */
    ghost function BodyOf(code: Code): Exported
      requires |code| == |nodes| && TargetsInside(code) && AllLinked(nodes, il, eh)
      reads this
    {
      if generateTinyHeader then
        if CodeSize(code) >= 64 then Failed else Exported(Tiny(Encode(code)))
      else
        Exported(Fat(initLocals, eh != [], maxStack % 0x1_0000, tkLocalVarSig, Encode(code),
                     ExportClauses(nodes, il, code, eh)))
    }

    method Export() returns (r: Exported)
      requires Exportable() && AllLinked(nodes, il, eh)
      modifies nodes`opcode, nodes`offset, il`offset
      ensures Exportable() && TargetsInside(old(CodeOf(nodes)))
      ensures CodeOf(nodes) == Relax(old(CodeOf(nodes)))
      ensures r == BodyOf(Relax(old(CodeOf(nodes))))
    {
      hide Ring, PushSum, OpcodesOf, OffsetsSet, WellFormed, Encode, CodeOf, Relax, ExportClauses;
      var ok, bytes := ExportCode();
      if !ok {
        return Failed;
      }
      EncodedSize(CodeOf(nodes));
      if generateTinyHeader {
        return if |bytes| >= 64 then Failed else Exported(Tiny(bytes));
      }
      var clauses := ExportEH(CodeOf(nodes));
      r := Exported(Fat(initLocals, |eh| != 0, maxStack % 0x1_0000, tkLocalVarSig, bytes, clauses));
    }

    /** Reads a decoded method body into a fresh rewriter. */
    method Import(body: MethodBody) returns (ok: bool)
      requires Valid() && nodes == [] && |body.code| < MAX_CODE
      modifies this, il`next, il`prev
      ensures Valid() && fresh(nodes) && generateTinyHeader == old(generateTinyHeader)
      ensures ok <==> Decode(body.code).Ok? && !old(ehAllocated) && AllImportable(ClausesOf(body))
      ensures Decode(body.code).Ok? ==> CodeOf(nodes) == Decode(body.code).value
      ensures ok ==> Exportable()
      ensures ok ==> initialStack == StackOf(body) && initLocals == (body.Fat? && body.initLocals)
      ensures ok ==> tkLocalVarSig == if body.Fat? then body.localVarSig else 0
      ensures ok ==> Denote(nodes, il, CodeOf(nodes), eh, ClausesOf(body)) && AllLinked(nodes, il, eh)
    {
      hide Ring, PushSum, OpcodesOf, WellFormed, CodeOf, Decode, TargetsLinked, Importable, ImportClause, AllLinked, TableFilled;
      NoPushes(nodes);
      maxStack, initialStack := StackOf(body), StackOf(body);
      initLocals := body.Fat? && body.initLocals;
      tkLocalVarSig := if body.Fat? then body.localVarSig else 0;
      ok := ImportIL(body.code);
      if ok {
        ok := ImportEH(ClausesOf(body));
        DecodedWellFormed(body.code);
        if ok {
          DenoteLinked(nodes, il, CodeOf(nodes), eh, ClausesOf(body));
        }
      }
    }
  }

  lemma ScannedRaw(bs: seq<byte>, raw: Code)
    requires Scan(bs, []) == Ok(raw)
    ensures NonEmptySizes(raw) && forall i :: 0 <= i < |raw| ==> RawOk(raw, i)
    ensures forall i :: 0 <= i < |raw| && HasTarget(raw[i].op) ==> raw[i].arg >= 0
    ensures NoTargets(raw) ==> forall i :: 0 <= i < |raw| ==> Resolvable(raw, raw[i])
  {
    hide OperandOf, Size;
    ScanExact(bs, raw);
    RawFacts(raw);
    forall i | 0 <= i < |raw| && HasTarget(raw[i].op) ensures raw[i].arg >= 0 {
      assert RawOk(raw, i);
    }
  }

  /** Once its targets are set, the list holds the resolved disassembly. */
  lemma ImportedCode(nodes: seq<ILInstr>, il: ILInstr, raw: Code)
    requires Ring(nodes, il) && raw == RawOf(nodes, |nodes|)
    requires forall i :: 0 <= i < |raw| ==> RawOk(raw, i) && Resolvable(raw, raw[i])
    requires forall i :: 0 <= i < |nodes| && HasTarget(nodes[i].opcode) ==>
               nodes[i].target == Lookup(nodes, il, raw, nodes[i].arg)
    ensures CodeOf(nodes) == Resolve(raw).value && TargetsLinked(nodes, il)
  {
    hide Ring, RawOk, Resolvable, Lookup, HasTarget;
    RingFacts(nodes, il);
    forall i | 0 <= i < |nodes|
      ensures CodeOf(nodes)[i] == Resolve(raw).value[i]
      ensures HasTarget(nodes[i].opcode) ==>
                nodes[i].target != null && (nodes[i].target == il || nodes[i].target in nodes)
    {
      ImportedView(nodes, il, raw, i);
      ResolveAt(raw, i);
    }
  }

  lemma ImportedView(nodes: seq<ILInstr>, il: ILInstr, raw: Code, i: nat)
    requires il !in nodes && Distinct(nodes) && |raw| == |nodes| && i < |nodes|
    requires raw[i] == Instr(nodes[i].opcode, nodes[i].arg, 0) && RawOk(raw, i) && Resolvable(raw, raw[i])
    requires HasTarget(raw[i].op) ==> nodes[i].target == Lookup(nodes, il, raw, nodes[i].arg)
    ensures ViewOf(nodes, nodes[i]) == Resolved(raw, raw[i])
    ensures HasTarget(nodes[i].opcode) ==>
              nodes[i].target != null && (nodes[i].target == il || nodes[i].target in nodes)
  {
    hide Off, Size, OperandOf, Pending;
    if HasTarget(raw[i].op) {
      var k := IndexAt(raw, |raw|, raw[i].arg).value;
      if k < |nodes| {
        IndexOfAt(nodes, k);
      }
    }
  }

  lemma PrevIs(nodes: seq<ILInstr>, il: ILInstr, x: ILInstr)
    requires Ring(nodes, il) && (x == il || x in nodes)
    ensures x.prev == PrevOf(nodes, il, x)
  {
    var k := IndexOf(nodes, x);
    assert k < |nodes| ==> Linked(nodes, il, k);
  }

  lemma LookupPast(nodes: seq<ILInstr>, il: ILInstr, code: Code, o: nat)
    requires |code| == |nodes| && NonEmptySizes(code)
    ensures o > CodeSize(code) ==> Lookup(nodes, il, code, o) == null
  {
    hide Off, Size;
    LookupFacts(nodes, il, code, o);
  }

  lemma RelaxStep(code: Code)
    requires TargetsInside(code)
    ensures var next := WidenMisfits(code);
            && TargetsInside(next) && Relax(next) == Relax(code)
            && (if AllFit(code) then next == code && Relax(code) == code else Shorts(next) < Shorts(code))
  {
    WideningLowersShorts(code, WidenMisfits(code));
    RelaxIdentity(code);
  }

  lemma MisfitsWellFormed(code: Code)
    requires WellFormed(code) && TargetsInside(code)
    ensures WellFormed(WidenMisfits(code))
    ensures PushSum(Ops(WidenMisfits(code))) == PushSum(Ops(code))
  {
    WideningKeepsPushes(code, WidenMisfits(code));
    WideningKeepsWellFormed(code, WidenMisfits(code));
  }

  lemma NoBranches(bs: seq<byte>, code: Code)
    requires TargetsInside(code) && forall i :: 0 <= i < |code| ==> HeadLaid(bs, Locate(code), i) && !HasTarget(code[i].op)
    ensures AllFit(code) && WidenMisfits(code) == code
    ensures forall i :: 0 <= i < |code| ==> LaidAt(bs, Locate(code), i)
  {
    forall i | 0 <= i < |code| ensures ShortFits(code, i) && LaidAt(bs, Locate(code), i) {
      NoTargetIsLaid(bs, code, i);
    }
  }

  /** A buffer in which every position is complete holds the encoded list. */
  lemma CompleteCode(bs: seq<byte>, code: Code)
    requires TargetsInside(code) && forall i :: 0 <= i < |code| ==> LaidAt(bs, Locate(code), i)
    ensures CodeSize(code) <= |bs| && bs[..CodeSize(code)] == Encode(code)
  {
    hide LaidAt, Off;
    LaidIsAssembled(bs, Locate(code), |code|);
    LocateKeepsOffset(code, |code|);
  }

  /** Unfinished scanning continues with the next instruction, or fails with it. */
  lemma ScanStep(bs: seq<byte>, acc: Code)
    requires CodeSize(acc) <= |bs| && (Pending(acc, |acc|) > 0 || CodeSize(acc) < |bs|)
    ensures Next(bs, acc).InvalidProgram? ==> Scan(bs, acc).InvalidProgram?
    ensures Next(bs, acc).Ok? ==> CodeSize(acc + [Next(bs, acc).value]) <= |bs| &&
                                  Scan(bs, acc) == Scan(bs, acc + [Next(bs, acc).value])
  {
    hide Next, Off;
    if Next(bs, acc).Ok? {
      NextSize(bs, acc);
      CodeSizeExtend(acc, Next(bs, acc).value);
    }
  }

  /** The decoder presents a tiny body as one with a stack of eight and no clauses. */
  function StackOf(body: MethodBody): int { if body.Fat? then body.maxStack else 8 }

  function ClausesOf(body: MethodBody): seq<ClauseData> { if body.Fat? then body.clauses else [] }

  lemma DecodedWellFormed(bs: seq<byte>)
    requires |bs| < MAX_CODE && Decode(bs).Ok?
    ensures WellFormed(Decode(bs).value)
  {
    EncodeDecode(bs);
  }

  lemma NoPushes(nodes: seq<ILInstr>)
    requires nodes == []
    ensures PushSum(OpcodesOf(nodes, |nodes|)) == 0
  {
  }

  lemma EncodedSize(code: Code)
    requires TargetsInside(code)
    ensures |Encode(code)| == CodeSize(code)
  {
    LocateKeepsOffset(code, |code|);
  }

  lemma NodeOffset(nodes: seq<ILInstr>, il: ILInstr, code: Code, x: ILInstr)
    requires Ring(nodes, il) && |code| == |nodes| && OffsetsSet(nodes, il, code) && (x == il || x in nodes)
    ensures x.offset == OffsetOf(nodes, code, x)
    ensures x.next != null && x.next.offset == OffsetAfter(nodes, il, code, x)
  {
    var k := IndexOf(nodes, x);
    RingFacts(nodes, il);
    RingStep(nodes, il, k);
  }

  lemma NothingRead()
    ensures CodeSize([]) == 0 && Pending([], 0) == 0
  {
  }

  lemma ImportedTable(table: array<ILInstr?>, nodes: seq<ILInstr>, il: ILInstr, raw: Code)
    requires Filled(table, nodes, raw, il) && NonEmptySizes(raw) && CodeSize(raw) == table.Length - 1
    requires forall i :: 0 <= i < |nodes| ==> nodes[i].opcode == raw[i].op
    ensures CodeSize(CodeOf(nodes)) == CodeSize(raw) && NonEmptySizes(CodeOf(nodes))
    ensures forall o :: 0 <= o < table.Length ==> table[o] == Lookup(nodes, il, CodeOf(nodes), o)
  {
    hide Off, Size, Entry;
    IndexAtSameOps(raw, CodeOf(nodes), |raw|, 0);
    forall o | 0 <= o < table.Length ensures table[o] == Lookup(nodes, il, CodeOf(nodes), o) {
      FilledIsLookup(table, nodes, raw, il, o);
      IndexAtSameOps(raw, CodeOf(nodes), |raw|, o);
    }
  }

  predicate NoTargets(acc: Code)
  {
    forall i :: 0 <= i < |acc| ==> !HasTarget(acc[i].op)
  }

  lemma PendingExtend(acc: Code, ins: Instr)
    ensures Pending(acc + [ins], |acc| + 1) ==
            if ins.op == SWITCH then ins.arg
            else if Pending(acc, |acc|) > 0 then Pending(acc, |acc|) - 1 else 0
    ensures ins.op == SWITCH ==> Base(acc + [ins], |acc| + 1) == CodeSize(acc) + 1 + 4 * (ins.arg + 1)
    ensures ins.op != SWITCH ==> Base(acc + [ins], |acc| + 1) == Base(acc, |acc|)
  {
    PrefixFacts(acc, acc + [ins], |acc|);
  }

  lemma NextSwitchArg(bs: seq<byte>, acc: Code)
    requires CodeSize(acc) <= |bs| && Pending(acc, |acc|) > 0
    ensures var p := CodeSize(acc);
            && Size(SWITCH_ARG) == 4
            && (p + 4 > |bs| ==> Next(bs, acc).InvalidProgram?)
            && (p + 4 <= |bs| ==>
                  Next(bs, acc) == Ok(Instr(SWITCH_ARG, (Base(acc, |acc|) + Load(bs[p..p + 4])) % TWO32, 0)))
  {
  }

  /** Reads opcode and operand of the instruction at offset, not counting the table of a switch. */
  method ParseInstr(bs: seq<byte>, offset: nat, ghost acc: Code) returns (ok: bool, opcode: nat, arg: int, offset': nat)
    requires offset == CodeSize(acc) < |bs| && Pending(acc, |acc|) <= 0
    ensures ok <==> Next(bs, acc).Ok?
    ensures ok ==> Next(bs, acc) == Ok(Instr(opcode, arg, 0)) && opcode != SWITCH_ARG
    ensures ok ==> offset' == offset + Size(opcode)
    ensures ok && opcode == SWITCH ==> arg >= 0 && Size(SWITCH) == 5
  {
    hide OperandOf, Load;
    ok, opcode, arg, offset' := false, bs[offset], 0, offset + 1;
    if opcode == PREFIX1 {
      if offset' >= |bs| {
        return;
      }
      opcode := 0x100 + bs[offset'] as nat;
      offset' := offset' + 1;
    }
    if PREFIX7 <= opcode <= PREFIX2 || opcode >= COUNT {
      return;
    }
    var size := OperandBytes(opcode);
    if offset' + size > |bs| {
      return;
    }
    ok, arg := true, ReadArg(opcode, offset' + size, bs[offset'..offset' + size]);
    offset' := offset' + size;
    if opcode == SWITCH {
      SwitchSize(opcode);
    }
  }

  lemma SwitchSize(op: nat)
    requires op == SWITCH
    ensures OperandOf(op) == SwitchCount && Size(op) == 5
  {
  }

  lemma EntryPast(nodes: seq<ILInstr>, acc: Code, o: nat)
    requires |nodes| == |acc| && o >= CodeSize(acc)
    ensures Entry(nodes, acc, o) == null
  {
  }

  lemma NextSize(bs: seq<byte>, acc: Code)
    requires CodeSize(acc) <= |bs| && Next(bs, acc).Ok?
    ensures var n := Size(Next(bs, acc).value.op); n >= 1 && CodeSize(acc) + n <= |bs|
  {
  }

  lemma InsertedLast<T>(s: seq<T>, x: T)
    ensures Inserted(s, |s|, x) == s + [x]
  {
  }

  lemma RawOfAppend(nodes: seq<ILInstr>, x: ILInstr)
    ensures RawOf(nodes + [x], |nodes| + 1) == RawOf(nodes, |nodes|) + [Instr(x.opcode, x.arg, 0)]
  {
  }
}
