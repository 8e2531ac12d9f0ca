/** The rewrites of the loader: a call put in front of a method body, and the generated loader method. */
module Loader {
  import opened Words
  import opened Opcodes
  import opened ILCode
  import opened Relaxation
  import opened Assembler
  import opened RoundTrip
  import opened Instructions
  import opened ListViews
  import opened OffsetTable
  import opened StackPushes
  import opened Layout
  import opened Regions
  import opened Rewriter
  import opened Wrapper
  import opened Execution

  function CallInstr(method_: int): Instr { Instr(CALL, method_, 0) }

  // ---------- the exported body ----------

  lemma CallIsPlain(method_: int)
    requires FitsSigned(4, method_)
    ensures !HasTarget(CALL) && !IsShort(CALL) && CALL != SWITCH && CALL != SWITCH_ARG && Encodable(CALL)
    ensures ValidArg(CALL, method_)
    ensures NewInstr(CALL, method_) == CallInstr(method_) == Instr(CALL, method_, 0)
  {
  }

  lemma SpliceFront(code: Code, ins: Instr, i: nat)
    requires i < |code|
    ensures var s := Splice(code, 0, [ins]);
            |s| == |code| + 1 && s[i + 1] == MovedInstr(0, 1, code[i])
            && s[i + 1].op == code[i].op && s[i + 1].arg == code[i].arg
  {
    hide OperandOf;
    assert Splice(code, 0, [ins])[Moved(0, 1, i)] == MovedInstr(0, 1, code[i]);
  }

  lemma SpliceFirst(code: Code, ins: Instr)
    ensures |Splice(code, 0, [ins])| == |code| + 1 && Splice(code, 0, [ins])[0] == ins
  {
    assert Splice(code, 0, [ins])[0 + 0] == [ins][0];
  }

  lemma {:induction false} PrefixedPending(code: Code, ins: Instr, i: nat)
    requires i <= |code| && ins.op != SWITCH
    ensures |Splice(code, 0, [ins])| == |code| + 1
    ensures Pending(Splice(code, 0, [ins]), i + 1) == Pending(code, i)
  {
    hide Splice;
    var s := Splice(code, 0, [ins]);
    SpliceFirst(code, ins);
    if i == 0 {
      NothingPendingAtStart(s);
    } else {
      PrefixedPending(code, ins, i - 1);
      SpliceFront(code, ins, i - 1);
    }
  }

  /** Putting a call in front keeps a list well formed. */
  lemma PrefixedWellFormed(code: Code, method_: int)
    requires WellFormed(code) && FitsSigned(4, method_)
    ensures WellFormed(Splice(code, 0, [CallInstr(method_)]))
  {
    hide OperandOf, Pending, ValidArg, MovedInstr, Splice;
    var ins := CallInstr(method_);
    var s := Splice(code, 0, [ins]);
    CallIsPlain(method_);
    SpliceFirst(code, ins);
    NothingPendingAtStart(s);
    forall i | 0 <= i < |s| ensures InstrOk(s, i) {
      if i > 0 {
        assert InstrOk(code, i - 1);
        PrefixedOk(code, ins, i - 1);
      }
    }
    PrefixedPending(code, ins, |code|);
  }

  lemma PrefixedOk(code: Code, ins: Instr, i: nat)
    requires i < |code| && InstrOk(code, i) && ins.op != SWITCH
    ensures |Splice(code, 0, [ins])| == |code| + 1 && InstrOk(Splice(code, 0, [ins]), i + 1)
  {
    hide OperandOf, Pending, ValidArg, MovedInstr, Splice;
    SpliceFront(code, ins, i);
    BranchAttached(code, i);
    PrefixedPending(code, ins, i);
    if code[i].target < |code| {
      SpliceFront(code, ins, code[i].target);
    }
  }

  lemma NothingPendingAtStart(code: Code)
    ensures Pending(code, 0) == 0
  {
  }

  /** Splicing in front of a well-formed list and widening moves every branch target on by one. */
  lemma SplicedIsPrefixed(code: Code, ins: Instr, code': Code)
    requires WellFormed(code) && WidenedFrom(Splice(code, 0, [ins]), code')
    ensures Prefixed(code, ins, code')
  {
    hide OperandOf, Pending, SameOrWidened;
    var s := Splice(code, 0, [ins]);
    assert s[0 + 0] == [ins][0];
    forall i | 0 <= i < |code| ensures SameOrWidened(MovedOn(code[i]), code'[i + 1]) {
      assert InstrOk(code, i);
      assert s[Moved(0, 1, i)] == MovedInstr(0, 1, code[i]);
      BranchAttached(code, i);
    }
  }

  lemma BranchAttached(code: Code, i: nat)
    requires i < |code| && InstrOk(code, i)
    ensures MovedInstr(0, 1, code[i]) == MovedOn(code[i])
  {
    hide Pending;
  }

  /**
   * For every body Import accepts, exporting it behind a loader call gives code that decodes to the call followed by
   * the original instructions, up to branch form; every branch and switch edge leads to the image of its old target.
   */
  lemma PrependedCode(bs: seq<byte>, method_: int)
    requires Decode(bs).Ok? && |bs| < MAX_CODE && 10 * (|Decode(bs).value| + 1) < MAX_CODE && FitsSigned(4, method_)
    ensures var code := Decode(bs).value;
            var list := Splice(code, 0, [CallInstr(method_)]);
            && WellFormed(list) && TargetsInside(list)
            && var exported := Decode(Encode(Relax(list)));
               && exported == Ok(Relax(list)) && |exported.value| == |code| + 1
               && Prefixed(code, CallInstr(method_), exported.value)
               && exported.value[0] == CallInstr(method_)
               && forall i :: 0 <= i < |code| ==>
                    && LongForm(exported.value[i + 1].op) == LongForm(code[i].op)
                    && exported.value[i + 1].arg == code[i].arg
                    && (HasTarget(code[i].op) ==> exported.value[i + 1].target == code[i].target + 1)
  {
    hide Decode, WellFormed, LongForm, HasTarget, Encode, Relax;
    EncodeDecode(bs);
    var code, ins := Decode(bs).value, CallInstr(method_);
    var list := Splice(code, 0, [ins]);
    CallIsPlain(method_);
    PrefixedWellFormed(code, method_);
    ImportAfterExport(list);
    var code' := Relax(list);
    SplicedIsPrefixed(code, ins, code');
    forall i | 0 <= i < |code|
      ensures LongForm(code'[i + 1].op) == LongForm(code[i].op) && code'[i + 1].arg == code[i].arg
      ensures HasTarget(code[i].op) ==> code'[i + 1].target == code[i].target + 1
    {
      PrefixedAt(code, ins, code', i);
    }
    FirstStays(code, ins, code');
  }

  /** Every run of the exported body is one call of the loader, and then a run of the original body. */
  lemma PrependedRuns<D>(bs: seq<byte>, method_: int, m: Machine<D>, eh: seq<Clause>, d: D, n: nat)
    requires Decode(bs).Ok? && |bs| < MAX_CODE && 10 * (|Decode(bs).value| + 1) < MAX_CODE && FitsSigned(4, method_)
    requires m.exec(CALL, method_, d).1 == Next
    ensures var code := Decode(bs).value;
            var list := Splice(code, 0, [CallInstr(method_)]);
            && TargetsInside(list) && Decode(Encode(Relax(list))).Ok?
            && var exported := Decode(Encode(Relax(list))).value;
               && Run(m, exported, ShiftClauses(eh), At(0, d, []), n + 1) ==
                  Shift(Run(m, code, eh, At(0, m.exec(CALL, method_, d).0, []), n))
               && (n > 0 ==> Run(m, exported, ShiftClauses(eh), At(0, d, []), n).At? ==>
                     Run(m, exported, ShiftClauses(eh), At(0, d, []), n).pc != 0)
  {
    hide Decode, Encode, Relax, Prefixed, Run;
    PrependedCode(bs, method_);
    CallIsPlain(method_);
    var code := Decode(bs).value;
    var exported := Relax(Splice(code, 0, [CallInstr(method_)]));
    PrefixedRuns(m, code, CallInstr(method_), exported, eh, d, n);
  }

  // ---------- the exception clauses ----------

  /** The clause in terms of positions; one without filter code has an empty filter in front of its handler. */
  function ClauseAt(code: Code, d: ClauseData): Clause
    requires ClauseFits(code, d)
  {
    var handler := IndexAt(code, |code|, d.handlerOffset).value;
    Clause(d.flags,
           IndexAt(code, |code|, d.tryOffset).value,
           IndexAt(code, |code|, (d.tryOffset + d.tryLength) % TWO32).value,
           handler,
           if IsFilter(d.flags) then IndexAt(code, |code|, d.tokenOrFilter).value else handler,
           if IsFilter(d.flags) then 0 else d.tokenOrFilter)
  }

  lemma EdgeMoves(nodes: seq<ILInstr>, il: ILInstr, code: Code, what: ILInstr, code': Code, ins: Instr, o: int)
    requires il !in nodes && Distinct(nodes) && what !in nodes && what != il && |code| == |nodes|
    requires Prefixed(code, ins, code') && NonEmptySizes(code') && CodeSize(code') < TWO32
    requires Lookup(nodes, il, code, o) != null
    ensures |code'| == |nodes| + 1 && IndexAt(code, |code|, o).Ok?
    ensures var o' := OffsetOf(Inserted(nodes, 0, what), code', Lookup(nodes, il, code, o));
            o' < TWO32 && IndexAt(code', |code'|, o') == Ok(IndexAt(code, |code|, o).value + 1)
  {
    hide Off, Size, Prefixed;
    PrefixedSize(code, ins, code');
    var k := IndexAt(code, |code|, o).value;
    var x := NodeAt(nodes, il, k);
    IndexOfInserted(nodes, 0, what, x);
    if k < |nodes| {
      IndexOfAt(nodes, k);
      PrefixedAt(code, ins, code', k);
    }
    OffMonotone(code', k + 1, |code'|);
    IndexAtOff(code', |code'|, k + 1);
  }

  /** Where the handler ends, as an offset. */
  function HandlerEnd(d: ClauseData): nat
  {
    (d.handlerOffset + d.handlerLength) % TWO32
  }

  /**
   * d' is for code' what d is for code, one instruction later: the kind and the caught class are the same, and both
   * blocks and the filter are the images of the old ones. A handler that ends at offset 0 still ends there.
   */
  predicate ClauseShifted(code: Code, d: ClauseData, code': Code, d': ClauseData)
  {
    && ClauseFits(code, d) && ClauseFits(code', d') && ClauseAt(code', d') == ShiftClause(ClauseAt(code, d))
    && if HandlerEnd(d) != 0 then EdgeShifted(code, HandlerEnd(d), code', HandlerEnd(d')) else HandlerEnd(d') == 0
  }

  predicate EdgeShifted(code: Code, o: int, code': Code, o': int)
  {
    && IndexAt(code, |code|, o).Ok? && IndexAt(code', |code'|, o').Ok?
    && IndexAt(code', |code'|, o').value == IndexAt(code, |code|, o).value + 1
  }

  /** The last instruction of a block that does not end at offset 0 is still directly in front of the block's end. */
  lemma LastMoves(nodes: seq<ILInstr>, il: ILInstr, code: Code, what: ILInstr, code': Code, o: int)
    requires il !in nodes && Distinct(nodes) && what !in nodes && what != il && |code| == |nodes|
    requires |code'| == |nodes| + 1 && Lookup(nodes, il, code, o) != null && o != 0
    ensures var ns, x := Inserted(nodes, 0, what), Lookup(nodes, il, code, o);
            OffsetAfter(ns, il, code', PrevOf(nodes, il, x)) == OffsetOf(ns, code', x)
  {
    hide Off;
    var k := IndexAt(code, |code|, o).value;
    var x := NodeAt(nodes, il, k);
    ZeroFirst(code, k);
    IndexOfInserted(nodes, 0, what, x);
    if k < |nodes| {
      IndexOfAt(nodes, k);
    }
    IndexOfAt(nodes, k - 1);
    IndexOfInserted(nodes, 0, what, nodes[k - 1]);
  }

  /** Nothing is in front of the block's end when that is offset 0; then the block still ends at offset 0. */
  lemma NoneBefore(nodes: seq<ILInstr>, il: ILInstr, code: Code, what: ILInstr, code': Code)
    requires il !in nodes && Distinct(nodes) && |code| == |nodes| && |code'| == |nodes| + 1
    requires NonEmptySizes(code) && Lookup(nodes, il, code, 0) != null
    ensures OffsetAfter(Inserted(nodes, 0, what), il, code', PrevOf(nodes, il, Lookup(nodes, il, code, 0))) == 0
  {
    hide Size;
    var k := IndexAt(code, |code|, 0).value;
    OffMonotone(code, 0, k);
    if nodes != [] {
      IndexOfAt(nodes, 0);
    }
  }

  lemma ZeroFirst(code: Code, k: nat)
    requires k <= |code| && Off(code, k) != 0
    ensures k > 0
  {
  }

  /** Every exported clause protects and enters the images of the instructions it protected and entered before. */
  lemma ClauseMoves(nodes: seq<ILInstr>, il: ILInstr, code: Code, what: ILInstr, code': Code, ins: Instr, d: ClauseData)
    requires il !in nodes && Distinct(nodes) && what !in nodes && what != il && |code| == |nodes|
    requires Prefixed(code, ins, code') && NonEmptySizes(code) && NonEmptySizes(code') && CodeSize(code') < TWO32
    requires Importable(nodes, il, code, d)
    ensures |code'| == |nodes| + 1
    ensures var d' := ExportClause(Inserted(nodes, 0, what), il, code', ImportClause(nodes, il, code, d));
            ClauseShifted(code, d, code', d')
  {
    hide Lookup, OffsetOf, OffsetAfter, PrevOf, Distinct, Inserted, Prefixed, IndexAt, Off, Size, NonEmptySizes;
    hide EdgeShifted, HandlerEnd;
    var e := (d.tryOffset + d.tryLength) % TWO32;
    EdgeMoves(nodes, il, code, what, code', ins, d.tryOffset);
    EdgeMoves(nodes, il, code, what, code', ins, e);
    EdgeMoves(nodes, il, code, what, code', ins, d.handlerOffset);
    var ns := Inserted(nodes, 0, what);
    EndBack(OffsetOf(ns, code', Lookup(nodes, il, code, d.tryOffset)), OffsetOf(ns, code', Lookup(nodes, il, code, e)));
    if IsFilter(d.flags) {
      EdgeMoves(nodes, il, code, what, code', ins, d.tokenOrFilter);
    }
    HandlerEndMoves(nodes, il, code, what, code', ins, d);
  }

  lemma HandlerEndMoves(nodes: seq<ILInstr>, il: ILInstr, code: Code, what: ILInstr, code': Code, ins: Instr,
                        d: ClauseData)
    requires il !in nodes && Distinct(nodes) && what !in nodes && what != il && |code| == |nodes|
    requires Prefixed(code, ins, code') && NonEmptySizes(code) && NonEmptySizes(code') && CodeSize(code') < TWO32
    requires Importable(nodes, il, code, d)
    ensures |code'| == |nodes| + 1
    ensures var d' := ExportClause(Inserted(nodes, 0, what), il, code', ImportClause(nodes, il, code, d));
            if HandlerEnd(d) != 0 then EdgeShifted(code, HandlerEnd(d), code', HandlerEnd(d')) else HandlerEnd(d') == 0
  {
    hide Lookup, OffsetOf, OffsetAfter, PrevOf, Distinct, Inserted, Prefixed, IndexAt, Off, Size, NonEmptySizes;
    var h := HandlerEnd(d);
    EdgeMoves(nodes, il, code, what, code', ins, h);
    var ns := Inserted(nodes, 0, what);
    var begin := OffsetOf(ns, code', Lookup(nodes, il, code, d.handlerOffset));
    if h != 0 {
      LastMoves(nodes, il, code, what, code', h);
      EndBack(begin, OffsetOf(ns, code', Lookup(nodes, il, code, h)));
    } else {
      NoneBefore(nodes, il, code, what, code');
      EndBack(begin, 0);
    }
  }

  lemma EndBack(o: nat, e: nat)
    requires e < TWO32
    ensures (o + (e - o) % TWO32) % TWO32 == e
  {
    var k := (e - o) / TWO32;
    assert o + (e - o) % TWO32 == e + (-k) * TWO32;
  }

  // ---------- the rewrites themselves ----------

  predicate Accepted(body: MethodBody)
  {
    Decode(body.code).Ok? && forall i :: 0 <= i < |ClausesOf(body)| ==> Anchored(Decode(body.code).value, ClausesOf(body)[i])
  }

  /** What the rewritten body is, next to the original one. */
  predicate CallsFirst(body: MethodBody, method_: int, r: MethodBody)
    requires Accepted(body)
  {
    var code := Decode(body.code).value;
    var list := Splice(code, 0, [CallInstr(method_)]);
    && TargetsInside(list) && r.Fat?
    && r.code == Encode(Relax(list))
    && r.maxStack == (StackOf(body) + PushSum(Ops(list))) % 0x1_0000
    && r.initLocals == (body.Fat? && body.initLocals)
    && r.localVarSig == (if body.Fat? then body.localVarSig else 0)
    && r.moreSects == (r.clauses != []) && |r.clauses| == |ClausesOf(body)|
    && forall i :: 0 <= i < |r.clauses| ==>
         ClauseShifted(code, ClausesOf(body)[i], Relax(list), r.clauses[i])
  }

  lemma LinkedAfterInsert(nodes: seq<ILInstr>, il: ILInstr, k: nat, what: ILInstr, eh: seq<EHClause>)
    requires k <= |nodes| && TargetsLinked(nodes, il) && AllLinked(nodes, il, eh) && !HasTarget(what.opcode)
    ensures TargetsLinked(Inserted(nodes, k, what), il) && AllLinked(Inserted(nodes, k, what), il, eh)
  {
    hide HasTarget, ClauseLinked;
    var ns := Inserted(nodes, k, what);
    forall i | 0 <= i < |ns| && HasTarget(ns[i].opcode)
      ensures ns[i].target != null && (ns[i].target == il || ns[i].target in ns)
    {
      var x := ns[i];
      assert i != k;
      assert x == nodes[if i < k then i else i - 1];
      StillIn(nodes, k, what, x.target);
    }
    forall i | 0 <= i < |eh| ensures ClauseLinked(ns, il, eh[i]) {
      assert ClauseLinked(nodes, il, eh[i]);
      ClauseStillLinked(nodes, il, k, what, eh[i]);
    }
  }

  lemma ClauseStillLinked(nodes: seq<ILInstr>, il: ILInstr, k: nat, what: ILInstr, c: EHClause)
    requires k <= |nodes| && ClauseLinked(nodes, il, c)
    ensures ClauseLinked(Inserted(nodes, k, what), il, c)
  {
    hide Inserted;
    StillIn(nodes, k, what, c.tryBegin);
    StillIn(nodes, k, what, c.tryEnd);
    StillIn(nodes, k, what, c.handlerBegin);
    StillIn(nodes, k, what, c.handlerEnd);
    if c.filter != null {
      StillIn(nodes, k, what, c.filter);
    }
  }

  lemma FrontOfRing(nodes: seq<ILInstr>, il: ILInstr)
    requires Ring(nodes, il)
    ensures il.next != null && (il.next == il || il.next in nodes) && IndexOf(nodes, il.next) == 0
  {
    RingFacts(nodes, il);
    if nodes != [] {
      IndexOfAt(nodes, 0);
    }
  }

  method CallFront(rewriter: ILRewriter, method_: int) returns (x: ILInstr)
    requires rewriter.Valid() && FitsSigned(4, method_)
    modifies rewriter`nodes, rewriter`maxStack, rewriter`nInstrs
    modifies rewriter.nodes`next, rewriter.nodes`prev, rewriter.il`next, rewriter.il`prev
    ensures rewriter.Valid() && fresh(x) && rewriter.nodes == Inserted(old(rewriter.nodes), 0, x)
    ensures x.opcode == CALL && x.target == null
    ensures CodeOf(rewriter.nodes) == Splice(old(CodeOf(rewriter.nodes)), 0, [CallInstr(method_)])
  {
    hide *;
    ghost var was, code := rewriter.nodes, CodeOf(rewriter.nodes);
    CallIsPlain(method_);
    ValidRing(rewriter);
    var wrapper := new ILRewriterWrapper(rewriter, rewriter.il.next);
    EmittedIs(wrapper);
    assert wrapper.Emitted() == code;
    label ready:
    wrapper.CallMember(method_, false);
    wrapper.SplicedValue@ready([CallInstr(method_)]);
    EmittedIs(wrapper);
    InsertedFront(was, rewriter.nodes[0]);
    FirstOfRing(rewriter);
    x := rewriter.il.next;
  }

  lemma ValidRing(rewriter: ILRewriter)
    requires rewriter.Valid()
    ensures var first := rewriter.il.next;
            first != null && (first == rewriter.il || first in rewriter.nodes) && IndexOf(rewriter.nodes, first) == 0
  {
    hide PushSum;
    FrontOfRing(rewriter.nodes, rewriter.il);
  }

  /** Puts the call in front of the first instruction. */
  method PrependCall(rewriter: ILRewriter, method_: int) returns (x: ILInstr)
    requires rewriter.Exportable() && AllLinked(rewriter.nodes, rewriter.il, rewriter.eh) && FitsSigned(4, method_)
    modifies rewriter`nodes, rewriter`maxStack, rewriter`nInstrs
    modifies rewriter.nodes`next, rewriter.nodes`prev, rewriter.il`next, rewriter.il`prev
    ensures rewriter.Exportable() && AllLinked(rewriter.nodes, rewriter.il, rewriter.eh)
    ensures rewriter.nodes == Inserted(old(rewriter.nodes), 0, x) && fresh(x)
    ensures CodeOf(rewriter.nodes) == Splice(old(CodeOf(rewriter.nodes)), 0, [CallInstr(method_)])
  {
    hide Ring, PushSum, OpcodesOf, CodeOf, WellFormed, Splice, Inserted, AllLinked, HasTarget, TargetsLinked;
    ghost var was, code := rewriter.nodes, CodeOf(rewriter.nodes);
    x := CallFront(rewriter, method_);
    CallIsPlain(method_);
    LinkedAfterInsert(was, rewriter.il, 0, x, rewriter.eh);
    PrefixedWellFormed(code, method_);
  }

  lemma FirstOfRing(rewriter: ILRewriter)
    requires rewriter.Valid() && rewriter.nodes != []
    ensures rewriter.il.next == rewriter.nodes[0]
  {
  }

  lemma CodeLength(bs: seq<byte>)
    requires Decode(bs).Ok? && |bs| < MAX_CODE
    ensures |Decode(bs).value| <= |bs|
  {
    hide Decode, Off, Size;
    EncodeDecode(bs);
    WellFormedFacts(Decode(bs).value);
    OffMonotone(Decode(bs).value, 0, |Decode(bs).value|);
  }

  lemma AcceptedIsImportable(body: MethodBody, nodes: seq<ILInstr>, il: ILInstr, code: Code)
    requires Decode(body.code) == Ok(code) && |code| == |nodes|
    ensures Accepted(body) <==> forall i :: 0 <= i < |ClausesOf(body)| ==> Importable(nodes, il, code, ClausesOf(body)[i])
  {
    hide Decode, Importable, Anchored;
    forall i | 0 <= i < |ClausesOf(body)|
      ensures Importable(nodes, il, code, ClausesOf(body)[i]) <==> Anchored(code, ClausesOf(body)[i])
    {
      ImportableIsAnchored(nodes, il, code, ClausesOf(body)[i]);
    }
  }

  /** The clause table of the rewritten body, clause by clause. */
  lemma ClausesMove(body: MethodBody, method_: int, nodes: seq<ILInstr>, il: ILInstr, what: ILInstr, eh: seq<EHClause>)
    requires 10 * (|body.code| + 1) < MAX_CODE && FitsSigned(4, method_)
    requires il !in nodes && Distinct(nodes) && what !in nodes && what != il
    requires Decode(body.code).Ok? && |nodes| == |Decode(body.code).value|
    requires Denote(nodes, il, Decode(body.code).value, eh, ClausesOf(body))
    ensures var code := Decode(body.code).value;
            var list := Splice(code, 0, [CallInstr(method_)]);
            var ns := Inserted(nodes, 0, what);
            && TargetsInside(list) && |Relax(list)| == |ns| && AllLinked(ns, il, eh)
            && var ds := ExportClauses(ns, il, Relax(list), eh);
               && |ds| == |ClausesOf(body)|
               && forall i :: 0 <= i < |ds| ==>
                    ClauseShifted(code, ClausesOf(body)[i], Relax(list), ds[i])
  {
    hide Decode, Relax, WellFormed, Importable, ImportClause, ExportClause, ClauseShifted, Inserted;
    var code, ds := Decode(body.code).value, ClausesOf(body);
    var list, ns := Splice(code, 0, [CallInstr(method_)]), Inserted(nodes, 0, what);
    CodeLength(body.code);
    PrependedCode(body.code, method_);
    RelaxKeepsWellFormed(list);
    WellFormedFacts(Relax(list));
    OffBound(Relax(list), |Relax(list)|);
    InsertedSize(nodes, what);
    DenoteLinked(nodes, il, code, eh, ds);
    forall i | 0 <= i < |eh| ensures ClauseLinked(ns, il, eh[i]) {
      assert ClauseLinked(nodes, il, eh[i]);
      ClauseStillLinked(nodes, il, 0, what, eh[i]);
    }
    var exported := ExportClauses(ns, il, Relax(list), eh);
    forall i | 0 <= i < |ds|
      ensures ClauseShifted(code, ds[i], Relax(list), exported[i])
    {
      ClauseMoves(nodes, il, code, what, Relax(list), CallInstr(method_), ds[i]);
    }
  }

  lemma InsertedSize(nodes: seq<ILInstr>, what: ILInstr)
    ensures |Inserted(nodes, 0, what)| == |nodes| + 1
  {
  }

  /** The rewriter holds body, unedited. */
  ghost predicate Imported(rewriter: ILRewriter, body: MethodBody)
    reads rewriter, rewriter.il`next, rewriter.il`prev
    reads rewriter.nodes`next, rewriter.nodes`prev, rewriter.nodes`opcode, rewriter.nodes`arg, rewriter.nodes`target
  {
    && rewriter.Exportable() && !rewriter.generateTinyHeader
    && Decode(body.code).Ok? && CodeOf(rewriter.nodes) == Decode(body.code).value
    && rewriter.initialStack == StackOf(body) && rewriter.initLocals == (body.Fat? && body.initLocals)
    && rewriter.tkLocalVarSig == (if body.Fat? then body.localVarSig else 0)
    && Denote(rewriter.nodes, rewriter.il, CodeOf(rewriter.nodes), rewriter.eh, ClausesOf(body))
    && AllLinked(rewriter.nodes, rewriter.il, rewriter.eh)
  }

  method ImportBody(body: MethodBody) returns (ok: bool, rewriter: ILRewriter)
    requires |body.code| < MAX_CODE
    ensures fresh(rewriter) && fresh(rewriter.il) && fresh(rewriter.nodes)
    ensures ok <==> Accepted(body)
    ensures ok ==> Imported(rewriter, body)
  {
    hide Decode, WellFormed, PushSum, CodeOf, OpcodesOf, Ring, TargetsLinked, Importable, Anchored, Denote, AllLinked;
    rewriter := new ILRewriter();
    ok := rewriter.Import(body);
    if Decode(body.code).Ok? {
      AcceptedIsImportable(body, rewriter.nodes, rewriter.il, CodeOf(rewriter.nodes));
    }
  }

  /** The edit and the export. */
  method ExportWithCall(rewriter: ILRewriter, body: MethodBody, loaderMethod: int) returns (r: Exported)
    requires Imported(rewriter, body) && Accepted(body)
    requires 10 * (|body.code| + 1) < MAX_CODE && FitsSigned(4, loaderMethod)
    modifies rewriter, rewriter.il, rewriter.nodes
    ensures r.Exported? && CallsFirst(body, loaderMethod, r.body)
  {
    hide Decode, Relax, Encode, PushSum, CodeOf, OpcodesOf, Splice, Inserted, Accepted, CallsFirst, ExportClauses;
    hide AllLinked, Denote, Ring, WellFormed, TargetsLinked, TargetsInside, AllFit, ILRewriter.BodyOf;
    ghost var was, code := rewriter.nodes, CodeOf(rewriter.nodes);
    RewriterFacts(rewriter);
    var x := PrependCall(rewriter, loaderMethod);
    RewriterFacts(rewriter);
    InsertedFront(was, x);
    r := rewriter.Export();
    BodyCallsFirst(rewriter, body, loaderMethod, was, x, r);
  }

  lemma RewriterFacts(rewriter: ILRewriter)
    requires rewriter.Valid()
    ensures rewriter.il !in rewriter.nodes && Distinct(rewriter.nodes)
    ensures rewriter.maxStack == rewriter.initialStack + PushSum(Ops(CodeOf(rewriter.nodes)))
  {
    hide PushSum;
    RingFacts(rewriter.nodes, rewriter.il);
    OpcodesAreOps(rewriter.nodes);
  }

  /** The pieces Export puts together are the rewritten body. */
  lemma BodyCallsFirst(rewriter: ILRewriter, body: MethodBody, method_: int, nodes: seq<ILInstr>, what: ILInstr, r: Exported)
    requires Accepted(body) && 10 * (|body.code| + 1) < MAX_CODE && FitsSigned(4, method_)
    requires rewriter.il !in nodes && Distinct(nodes) && what !in nodes && what != rewriter.il
    requires |nodes| == |Decode(body.code).value|
    requires Denote(nodes, rewriter.il, Decode(body.code).value, rewriter.eh, ClausesOf(body))
    requires rewriter.nodes == Inserted(nodes, 0, what) && AllLinked(rewriter.nodes, rewriter.il, rewriter.eh)
    requires !rewriter.generateTinyHeader && rewriter.initLocals == (body.Fat? && body.initLocals)
    requires rewriter.tkLocalVarSig == (if body.Fat? then body.localVarSig else 0)
    requires var list := Splice(Decode(body.code).value, 0, [CallInstr(method_)]);
             && |rewriter.nodes| == |nodes| + 1 && TargetsInside(list) && |Relax(list)| == |rewriter.nodes|
             && rewriter.maxStack == StackOf(body) + PushSum(Ops(list))
             && r == rewriter.BodyOf(Relax(list))
    ensures r.Exported? && CallsFirst(body, method_, r.body)
  {
    hide Decode, Relax, Encode, PushSum, Splice, Inserted, ExportClause, ClauseFits, ClauseAt, Denote, AllLinked;
    ClausesMove(body, method_, nodes, rewriter.il, what, rewriter.eh);
  }

  lemma InsertedFront(nodes: seq<ILInstr>, what: ILInstr)
    ensures Inserted(nodes, 0, what) == [what] + nodes
  {
  }

  /** EmitLoaderCallInMethod: imports a body, puts a call in front of it and exports it again. */
  method EmitLoaderCallInMethod(body: MethodBody, loaderMethod: int) returns (r: Exported)
    requires 10 * (|body.code| + 1) < MAX_CODE && FitsSigned(4, loaderMethod)
    ensures r.Exported? <==> Accepted(body)
    ensures r.Exported? ==> CallsFirst(body, loaderMethod, r.body)
  {
    hide Imported, Accepted;
    var ok, rewriter := ImportBody(body);
    if !ok {
      return Failed;
    }
    r := ExportWithCall(rewriter, body, loaderMethod);
  }

  // ---------- runs of the rewritten method ----------

  /** The clause table in terms of instruction positions. */
  function Positions(code: Code, ds: seq<ClauseData>): (eh: seq<Clause>)
    requires forall i :: 0 <= i < |ds| ==> ClauseFits(code, ds[i])
    ensures |eh| == |ds| && forall i :: 0 <= i < |ds| ==> eh[i] == ClauseAt(code, ds[i])
  {
    seq(|ds|, i requires 0 <= i < |ds| => ClauseAt(code, ds[i]))
  }

  predicate AllClausesFit(code: Code, ds: seq<ClauseData>)
  {
    forall i :: 0 <= i < |ds| ==> ClauseFits(code, ds[i])
  }

  /**
   * What EmitLoaderCallInMethod is for: on any machine, every run of the exported body, exceptions included, is one call
   * of the loader and then a run of the original body.
   */
  lemma RewrittenRuns<D>(body: MethodBody, method_: int, r: MethodBody, m: Machine<D>, d: D, n: nat)
    requires 10 * (|body.code| + 1) < MAX_CODE && FitsSigned(4, method_)
    requires Accepted(body) && CallsFirst(body, method_, r)
    requires m.exec(CALL, method_, d).1 == Next
    ensures Decode(r.code).Ok? && AllClausesFit(Decode(r.code).value, r.clauses)
    ensures AllClausesFit(Decode(body.code).value, ClausesOf(body))
    ensures var code, code' := Decode(body.code).value, Decode(r.code).value;
            Run(m, code', Positions(code', r.clauses), At(0, d, []), n + 1) ==
            Shift(Run(m, code, Positions(code, ClausesOf(body)), At(0, m.exec(CALL, method_, d).0, []), n))
  {
    hide Decode, Encode, Relax, Run, ClauseFits, ClauseAt;
    CodeLength(body.code);
    PrependedCode(body.code, method_);
    var code, code' := Decode(body.code).value, Decode(r.code).value;
    var before, after := Positions(code, ClausesOf(body)), Positions(code', r.clauses);
    assert forall i :: 0 <= i < |after| ==> after[i] == ShiftClause(before[i]) == ShiftClauses(before)[i];
    assert after == ShiftClauses(before);
    PrependedRuns(body.code, method_, m, before, d, n);
  }
}
