/** Exception clauses: regions given by byte offsets in a method body, and by list nodes while the body is edited. */
module Regions {
  import opened Words
  import opened Opcodes
  import opened ILCode
  import opened Assembler
  import opened Instructions
  import opened ListViews
  import opened OffsetTable

  /** IMAGE_COR_ILMETHOD_SECT_EH_CLAUSE_FAT; the last field is a class token or, for a filter clause, an offset. */
  datatype ClauseData =
    ClauseData(flags: nat, tryOffset: nat, tryLength: nat, handlerOffset: nat, handlerLength: nat, tokenOrFilter: nat)

  /** struct EHClause: tryEnd is the first instruction after the try block, handlerEnd the last one of the handler. */
  datatype EHClause = EHClause(
    flags: nat, tryBegin: ILInstr, tryEnd: ILInstr, handlerBegin: ILInstr, handlerEnd: ILInstr,
    classToken: nat, filter: ILInstr?)

  /** COR_ILEXCEPTION_CLAUSE_FILTER is bit 0. */
  predicate IsFilter(flags: nat) { flags % 2 == 1 }

  predicate BlocksInRange(d: ClauseData)
  {
    d.tryOffset < TWO32 && d.tryLength < TWO32 && d.handlerOffset < TWO32 && d.handlerLength < TWO32
  }

  predicate InRange(d: ClauseData)
  {
    BlocksInRange(d) && d.tokenOrFilter < TWO32
  }

  function PrevOf(nodes: seq<ILInstr>, il: ILInstr, x: ILInstr): ILInstr
  {
    var k := IndexOf(nodes, x);
    if k == 0 then il else nodes[k - 1]
  }

  /** The offset of the node after x. */
  function OffsetAfter(nodes: seq<ILInstr>, il: ILInstr, code: Code, x: ILInstr): nat
    requires |code| == |nodes|
  {
    if x == il || x !in nodes then 0 else Off(code, IndexOf(nodes, x) + 1)
  }

  function OffsetOf(nodes: seq<ILInstr>, code: Code, x: ILInstr): nat
    requires |code| == |nodes|
  {
    Off(code, IndexOf(nodes, x))
  }

  predicate Importable(nodes: seq<ILInstr>, il: ILInstr, code: Code, d: ClauseData)
    requires |code| == |nodes|
  {
    && Lookup(nodes, il, code, d.tryOffset) != null
    && Lookup(nodes, il, code, (d.tryOffset + d.tryLength) % TWO32) != null
    && Lookup(nodes, il, code, d.handlerOffset) != null
    && Lookup(nodes, il, code, (d.handlerOffset + d.handlerLength) % TWO32) != null
    && (IsFilter(d.flags) ==> Lookup(nodes, il, code, d.tokenOrFilter) != null)
  }

  /** Blocks and filter begin at instructions of code, and the try block ends at one or at the end. */
  predicate ClauseFits(code: Code, d: ClauseData)
  {
    && IndexAt(code, |code|, d.tryOffset).Ok?
    && IndexAt(code, |code|, (d.tryOffset + d.tryLength) % TWO32).Ok?
    && IndexAt(code, |code|, d.handlerOffset).Ok?
    && (IsFilter(d.flags) ==> IndexAt(code, |code|, d.tokenOrFilter).Ok?)
  }

  /** All offsets of the clause are those of instructions, or of the end. */
  predicate Anchored(code: Code, d: ClauseData)
  {
    ClauseFits(code, d) && IndexAt(code, |code|, (d.handlerOffset + d.handlerLength) % TWO32).Ok?
  }

  lemma ImportableIsAnchored(nodes: seq<ILInstr>, il: ILInstr, code: Code, d: ClauseData)
    requires |code| == |nodes|
    ensures Importable(nodes, il, code, d) <==> Anchored(code, d)
  {
  }

  /** ImportEH on one clause. */
  function ImportClause(nodes: seq<ILInstr>, il: ILInstr, code: Code, d: ClauseData): EHClause
    requires |code| == |nodes| && Importable(nodes, il, code, d)
  {
    EHClause(
      d.flags,
      Lookup(nodes, il, code, d.tryOffset),
      Lookup(nodes, il, code, (d.tryOffset + d.tryLength) % TWO32),
      Lookup(nodes, il, code, d.handlerOffset),
      PrevOf(nodes, il, Lookup(nodes, il, code, (d.handlerOffset + d.handlerLength) % TWO32)),
      if IsFilter(d.flags) then 0 else d.tokenOrFilter,
      if IsFilter(d.flags) then Lookup(nodes, il, code, d.tokenOrFilter) else null)
  }

  /** The clause Export writes for a layout of the list. */
  function ExportClause(nodes: seq<ILInstr>, il: ILInstr, code: Code, c: EHClause): ClauseData
    requires |code| == |nodes| && (IsFilter(c.flags) ==> c.filter != null)
  {
    ClauseData(
      c.flags,
      OffsetOf(nodes, code, c.tryBegin),
      (OffsetOf(nodes, code, c.tryEnd) - OffsetOf(nodes, code, c.tryBegin)) % TWO32,
      OffsetOf(nodes, code, c.handlerBegin),
      (OffsetAfter(nodes, il, code, c.handlerEnd) - OffsetOf(nodes, code, c.handlerBegin)) % TWO32,
      if IsFilter(c.flags) then OffsetOf(nodes, code, c.filter) else c.classToken)
  }

  /** The nodes a clause refers to are in the list, or the sentinel. */
  predicate ClauseLinked(nodes: seq<ILInstr>, il: ILInstr, c: EHClause)
  {
    && (c.tryBegin == il || c.tryBegin in nodes) && (c.tryEnd == il || c.tryEnd in nodes)
    && (c.handlerBegin == il || c.handlerBegin in nodes) && (c.handlerEnd == il || c.handlerEnd in nodes)
    && (IsFilter(c.flags) ==> c.filter != null && (c.filter == il || c.filter in nodes))
  }

  lemma ImportedLinked(nodes: seq<ILInstr>, il: ILInstr, code: Code, d: ClauseData)
    requires |code| == |nodes| && Importable(nodes, il, code, d)
    ensures ClauseLinked(nodes, il, ImportClause(nodes, il, code, d))
  {
  }

  predicate AllLinked(nodes: seq<ILInstr>, il: ILInstr, cs: seq<EHClause>)
  {
    forall i :: 0 <= i < |cs| ==> ClauseLinked(nodes, il, cs[i])
  }

  /** The clause table Export writes. */
  function ExportClauses(nodes: seq<ILInstr>, il: ILInstr, code: Code, cs: seq<EHClause>): (ds: seq<ClauseData>)
    requires |code| == |nodes| && AllLinked(nodes, il, cs)
    ensures |ds| == |cs| && forall i :: 0 <= i < |cs| ==>
              ClauseLinked(nodes, il, cs[i]) && ds[i] == ExportClause(nodes, il, code, cs[i])
  {
    seq(|cs|, i requires 0 <= i < |cs| && ClauseLinked(nodes, il, cs[i]) => ExportClause(nodes, il, code, cs[i]))
  }

  /** The clauses cs are the ones of the clause table ds, in terms of nodes. */
  predicate Denote(nodes: seq<ILInstr>, il: ILInstr, code: Code, cs: seq<EHClause>, ds: seq<ClauseData>)
    requires |code| == |nodes|
  {
    && |cs| == |ds|
    && forall i :: 0 <= i < |ds| ==>
         Importable(nodes, il, code, ds[i]) && cs[i] == ImportClause(nodes, il, code, ds[i])
  }

  lemma DenoteLinked(nodes: seq<ILInstr>, il: ILInstr, code: Code, cs: seq<EHClause>, ds: seq<ClauseData>)
    requires |code| == |nodes| && Denote(nodes, il, code, cs, ds)
    ensures AllLinked(nodes, il, cs)
  {
    forall i | 0 <= i < |cs| ensures ClauseLinked(nodes, il, cs[i]) {
      ImportedLinked(nodes, il, code, ds[i]);
    }
  }

  lemma LookupOffset(nodes: seq<ILInstr>, il: ILInstr, code: Code, o: int)
    requires |code| == |nodes| && il !in nodes && Distinct(nodes) && Lookup(nodes, il, code, o) != null
    ensures OffsetOf(nodes, code, Lookup(nodes, il, code, o)) == o
    ensures OffsetAfter(nodes, il, code, PrevOf(nodes, il, Lookup(nodes, il, code, o))) == o
  {
    hide Size;
    var k := IndexAt(code, |code|, o).value;
    if k < |nodes| {
      IndexOfAt(nodes, k);
    }
    if k > 0 {
      IndexOfAt(nodes, k - 1);
    }
  }

  /** With no edit in between, every clause is written back exactly as it was read. */
  lemma ClauseRoundTrip(nodes: seq<ILInstr>, il: ILInstr, code: Code, d: ClauseData)
    requires |code| == |nodes| && il !in nodes && Distinct(nodes)
    requires InRange(d) && Importable(nodes, il, code, d)
    ensures ExportClause(nodes, il, code, ImportClause(nodes, il, code, d)) == d
  {
    hide Lookup, OffsetOf, OffsetAfter, PrevOf;
    LookupOffset(nodes, il, code, d.tryOffset);
    LookupOffset(nodes, il, code, (d.tryOffset + d.tryLength) % TWO32);
    LookupOffset(nodes, il, code, d.handlerOffset);
    LookupOffset(nodes, il, code, (d.handlerOffset + d.handlerLength) % TWO32);
    if IsFilter(d.flags) {
      LookupOffset(nodes, il, code, d.tokenOrFilter);
    }
    LengthBack(d.tryOffset, d.tryLength);
    LengthBack(d.handlerOffset, d.handlerLength);
  }

  lemma LengthBack(o: nat, n: nat)
    requires n < TWO32
    ensures ((o + n) % TWO32 - o) % TWO32 == n
  {
    var k := (o + n) / TWO32;
    assert (o + n) % TWO32 - o == n - k * TWO32;
  }

  // ---------- regions under insertion ----------

  datatype Edit = Edit(at: nat, what: ILInstr)

  /** A run of InsertBefore and InsertAfter calls, each putting a node not yet in the list somewhere into it. */
  predicate Applicable(nodes: seq<ILInstr>, il: ILInstr, edits: seq<Edit>)
    decreases edits
  {
    edits != [] ==>
      && edits[0].at <= |nodes| && edits[0].what !in nodes && edits[0].what != il
      && Applicable(Inserted(nodes, edits[0].at, edits[0].what), il, edits[1..])
  }

  function Apply(nodes: seq<ILInstr>, il: ILInstr, edits: seq<Edit>): seq<ILInstr>
    requires Applicable(nodes, il, edits)
    decreases edits
  {
    if edits == [] then nodes else Apply(Inserted(nodes, edits[0].at, edits[0].what), il, edits[1..])
  }

  /** All nodes of before are still there, in the same relative order, and still in front of the sentinel. */
  predicate OrderKept(before: seq<ILInstr>, after: seq<ILInstr>, il: ILInstr)
  {
    && il !in before && il !in after && Distinct(after)
    && (forall x :: x in before ==> x in after)
    && forall x, y :: x in before && y in before ==>
         (IndexOf(before, x) < IndexOf(before, y) <==> IndexOf(after, x) < IndexOf(after, y))
  }

  lemma InsertedKeepsOrder(nodes: seq<ILInstr>, il: ILInstr, k: nat, what: ILInstr)
    requires il !in nodes && Distinct(nodes) && k <= |nodes| && what !in nodes && what != il
    ensures OrderKept(nodes, Inserted(nodes, k, what), il)
  {
    var ns := Inserted(nodes, k, what);
    forall x | x in nodes ensures x in ns {
      assert ns[Moved(k, 1, IndexOf(nodes, x))] == x;
    }
    forall x, y | x in nodes && y in nodes
      ensures IndexOf(nodes, x) < IndexOf(nodes, y) <==> IndexOf(ns, x) < IndexOf(ns, y)
    {
      IndexOfInserted(nodes, k, what, x);
      IndexOfInserted(nodes, k, what, y);
    }
  }

  /** Every run of insertions keeps the old nodes, in their old order. */
  lemma {:induction false} EditsKeepOrder(nodes: seq<ILInstr>, il: ILInstr, edits: seq<Edit>)
    requires il !in nodes && Distinct(nodes) && Applicable(nodes, il, edits)
    ensures OrderKept(nodes, Apply(nodes, il, edits), il)
    decreases edits
  {
    if edits != [] {
      hide Inserted;
      var ns := Inserted(nodes, edits[0].at, edits[0].what);
      InsertedKeepsOrder(nodes, il, edits[0].at, edits[0].what);
      EditsKeepOrder(ns, il, edits[1..]);
    }
  }

  /** x lies in the byte range that starts at offset and is length bytes long. */
  predicate InBytes(nodes: seq<ILInstr>, code: Code, offset: nat, length: nat, x: ILInstr)
    requires |code| == |nodes|
  {
    offset <= OffsetOf(nodes, code, x) < offset + length
  }

  lemma OffsetOrder(nodes: seq<ILInstr>, code: Code, x: ILInstr, y: ILInstr)
    requires |code| == |nodes| && NonEmptySizes(code)
    ensures OffsetOf(nodes, code, x) < OffsetOf(nodes, code, y) <==> IndexOf(nodes, x) < IndexOf(nodes, y)
    ensures OffsetOf(nodes, code, x) <= CodeSize(code)
  {
    hide Off, Size;
    var i, j := IndexOf(nodes, x), IndexOf(nodes, y);
    OffMonotone(code, i, |code|);
    if i < j {
      OffMonotone(code, i, j);
    } else {
      OffMonotone(code, j, i);
    }
  }

  /** Nodes keep their offset order from one layout to the next, whatever was inserted or widened in between. */
  lemma OffsetOrderKept(nodes: seq<ILInstr>, code: Code, nodes': seq<ILInstr>, code': Code, il: ILInstr,
                        x: ILInstr, y: ILInstr)
    requires |code| == |nodes| && |code'| == |nodes'| && NonEmptySizes(code) && NonEmptySizes(code')
    requires OrderKept(nodes, nodes', il) && (x in nodes || x == il) && (y in nodes || y == il)
    ensures OffsetOf(nodes, code, x) < OffsetOf(nodes, code, y) <==>
            OffsetOf(nodes', code', x) < OffsetOf(nodes', code', y)
    ensures OffsetOf(nodes', code', x) <= CodeSize(code')
  {
    hide Distinct, OffsetOf;
    OffsetOrder(nodes, code, x, y);
    OffsetOrder(nodes', code', x, y);
  }

  /** The offset after x is at most the offset of y exactly when x comes before y. */
  lemma OffsetAfterOrder(nodes: seq<ILInstr>, il: ILInstr, code: Code, x: ILInstr, y: ILInstr)
    requires |code| == |nodes| && NonEmptySizes(code) && x in nodes && il !in nodes
    ensures OffsetAfter(nodes, il, code, x) <= OffsetOf(nodes, code, y) <==> OffsetOf(nodes, code, x) < OffsetOf(nodes, code, y)
    ensures OffsetAfter(nodes, il, code, x) <= CodeSize(code)
  {
    hide Off, Size;
    var i, j := IndexOf(nodes, x), IndexOf(nodes, y);
    OffMonotone(code, i + 1, |code|);
    if i < j {
      OffMonotone(code, i, j);
      OffMonotone(code, i + 1, j);
    } else {
      OffMonotone(code, j, i);
      OffMonotone(code, i, i + 1);
    }
  }

  lemma LookupInList(nodes: seq<ILInstr>, il: ILInstr, code: Code, o: int)
    requires |code| == |nodes| && Lookup(nodes, il, code, o) != null
    ensures Lookup(nodes, il, code, o) == il || Lookup(nodes, il, code, o) in nodes
  {
  }

  predicate InsideCode(d: ClauseData, size: nat)
  {
    d.tryOffset + d.tryLength <= size && d.handlerOffset + d.handlerLength <= size
  }

  /** x lies in the code of the filter, which ends where the handler begins. */
  predicate InFilter(nodes: seq<ILInstr>, code: Code, d: ClauseData, x: ILInstr)
    requires |code| == |nodes|
  {
    d.tokenOrFilter <= OffsetOf(nodes, code, x) < d.handlerOffset
  }

  /** Where a block that starts at o ends when the 32-bit sum of offset and length is e. */
  function EndAt(o: nat, e: nat): nat
  {
    if e < o then e + TWO32 else e
  }

  lemma LengthEnds(o: nat, length: nat)
    requires o < TWO32 && length < TWO32
    ensures o + length == EndAt(o, (o + length) % TWO32)
  {
  }

  lemma DifferenceEnds(o: nat, e: nat)
    requires o < TWO32 && e < TWO32
    ensures o + (e - o) % TWO32 == EndAt(o, e)
  {
  }

  lemma TryKept(nodes: seq<ILInstr>, code: Code, nodes': seq<ILInstr>, code': Code, il: ILInstr,
                d: ClauseData, x: ILInstr)
    requires |code| == |nodes| && |code'| == |nodes'| && NonEmptySizes(code) && NonEmptySizes(code')
    requires Distinct(nodes) && OrderKept(nodes, nodes', il) && CodeSize(code) < TWO32 && CodeSize(code') < TWO32
    requires Importable(nodes, il, code, d) && BlocksInRange(d) && x in nodes
    ensures var d' := ExportClause(nodes', il, code', ImportClause(nodes, il, code, d));
            && (InBytes(nodes', code', d'.tryOffset, d'.tryLength, x)
                <==> InBytes(nodes, code, d.tryOffset, d.tryLength, x))
            && (d.tryOffset + d.tryLength <= CodeSize(code) ==> d'.tryOffset + d'.tryLength <= CodeSize(code'))
  {
    hide Lookup, OffsetOf, OffsetAfter, PrevOf, OrderKept, Distinct;
    OrderFacts(nodes, nodes', il);
    var e := (d.tryOffset + d.tryLength) % TWO32;
    LookupOffset(nodes, il, code, d.tryOffset);
    LookupOffset(nodes, il, code, e);
    LookupInList(nodes, il, code, d.tryOffset);
    LookupInList(nodes, il, code, e);
    var b, f := Lookup(nodes, il, code, d.tryOffset), Lookup(nodes, il, code, e);
    OffsetOrderKept(nodes, code, nodes', code', il, x, b);
    OffsetOrderKept(nodes, code, nodes', code', il, b, x);
    OffsetOrderKept(nodes, code, nodes', code', il, x, f);
    OffsetOrderKept(nodes, code, nodes', code', il, f, b);
    LengthEnds(d.tryOffset, d.tryLength);
    DifferenceEnds(OffsetOf(nodes', code', b), OffsetOf(nodes', code', f));
    OffsetOrder(nodes, code, x, b);
  }

  lemma OrderFacts(nodes: seq<ILInstr>, nodes': seq<ILInstr>, il: ILInstr)
    requires OrderKept(nodes, nodes', il)
    ensures il !in nodes && il !in nodes' && Distinct(nodes') && forall x :: x in nodes ==> x in nodes'
  {
  }

  /** The last instruction of a block that is not empty. */
  lemma LastInside(nodes: seq<ILInstr>, il: ILInstr, code: Code, o: int)
    requires |code| == |nodes| && il !in nodes && Distinct(nodes)
    requires Lookup(nodes, il, code, o) != null && o > 0
    ensures PrevOf(nodes, il, Lookup(nodes, il, code, o)) in nodes
  {
    var k := IndexAt(code, |code|, o).value;
    assert Off(code, 0) == 0;
    if k < |nodes| {
      IndexOfAt(nodes, k);
    }
  }

  /** Where the handler ends next to where it begins, in the old layout and in the new one. */
  lemma HandlerEnds(nodes: seq<ILInstr>, code: Code, nodes': seq<ILInstr>, code': Code, il: ILInstr, d: ClauseData,
                    e: nat, b: ILInstr, f: ILInstr, last: ILInstr)
    requires |code| == |nodes| && |code'| == |nodes'| && NonEmptySizes(code) && NonEmptySizes(code')
    requires Distinct(nodes) && OrderKept(nodes, nodes', il) && CodeSize(code) < TWO32 && CodeSize(code') < TWO32
    requires Importable(nodes, il, code, d) && BlocksInRange(d) && d.handlerLength > 0
    requires e == (d.handlerOffset + d.handlerLength) % TWO32 && b == Lookup(nodes, il, code, d.handlerOffset)
    requires f == Lookup(nodes, il, code, e) && last == PrevOf(nodes, il, f)
    ensures var o', e' := OffsetOf(nodes', code', b), OffsetAfter(nodes', il, code', last);
            && OffsetOf(nodes, code, b) == d.handlerOffset && OffsetAfter(nodes, il, code, last) == e
            && e != d.handlerOffset && e' != o' && (e < d.handlerOffset <==> e' < o')
            && e' <= CodeSize(code') && o' <= CodeSize(code')
  {
    hide Lookup, OffsetOf, OffsetAfter, PrevOf, OrderKept, Distinct;
    OrderFacts(nodes, nodes', il);
    LengthEnds(d.handlerOffset, d.handlerLength);
    LookupOffset(nodes, il, code, d.handlerOffset);
    LookupOffset(nodes, il, code, e);
    LookupInList(nodes, il, code, d.handlerOffset);
    LookupInList(nodes, il, code, e);
    OffsetOrderKept(nodes, code, nodes', code', il, f, b);
    OffsetOrderKept(nodes, code, nodes', code', il, b, b);
    if e > 0 {
      LastInside(nodes, il, code, e);
      OffsetOrderKept(nodes, code, nodes', code', il, last, b);
      OffsetOrderKept(nodes, code, nodes', code', il, last, f);
      OffsetAfterOrder(nodes, il, code, last, b);
      OffsetAfterOrder(nodes, il, code, last, f);
      OffsetAfterOrder(nodes', il, code', last, b);
      OffsetAfterOrder(nodes', il, code', last, f);
    } else {
      FirstHasNone(nodes, il, code);
      AfterSentinel(nodes', il, code');
    }
  }

  lemma FirstHasNone(nodes: seq<ILInstr>, il: ILInstr, code: Code)
    requires |code| == |nodes| && il !in nodes && Distinct(nodes) && NonEmptySizes(code)
    ensures Lookup(nodes, il, code, 0) != null ==> PrevOf(nodes, il, Lookup(nodes, il, code, 0)) == il
  {
    hide Size;
    if Lookup(nodes, il, code, 0) != null {
      var k := IndexAt(code, |code|, 0).value;
      OffMonotone(code, 0, k);
      if nodes != [] {
        IndexOfAt(nodes, 0);
      }
    }
  }

  lemma AfterSentinel(nodes: seq<ILInstr>, il: ILInstr, code: Code)
    requires |code| == |nodes|
    ensures OffsetAfter(nodes, il, code, il) == 0
  {
  }

  lemma HandlerKept(nodes: seq<ILInstr>, code: Code, nodes': seq<ILInstr>, code': Code, il: ILInstr,
                    d: ClauseData, x: ILInstr)
    requires |code| == |nodes| && |code'| == |nodes'| && NonEmptySizes(code) && NonEmptySizes(code')
    requires Distinct(nodes) && OrderKept(nodes, nodes', il) && CodeSize(code) < TWO32 && CodeSize(code') < TWO32
    requires Importable(nodes, il, code, d) && BlocksInRange(d) && d.handlerLength > 0 && x in nodes
    ensures var d' := ExportClause(nodes', il, code', ImportClause(nodes, il, code, d));
            && (InBytes(nodes', code', d'.handlerOffset, d'.handlerLength, x)
                <==> InBytes(nodes, code, d.handlerOffset, d.handlerLength, x))
            && d'.handlerLength > 0
            && (d.handlerOffset + d.handlerLength <= CodeSize(code) ==>
                  d'.handlerOffset + d'.handlerLength <= CodeSize(code'))
  {
    hide Lookup, OffsetOf, OffsetAfter, PrevOf, OrderKept, Distinct;
    OrderFacts(nodes, nodes', il);
    var e := (d.handlerOffset + d.handlerLength) % TWO32;
    LookupInList(nodes, il, code, d.handlerOffset);
    var b, f := Lookup(nodes, il, code, d.handlerOffset), Lookup(nodes, il, code, e);
    var last := PrevOf(nodes, il, f);
    HandlerEnds(nodes, code, nodes', code', il, d, e, b, f, last);
    var o', e' := OffsetOf(nodes', code', b), OffsetAfter(nodes', il, code', last);
    LengthEnds(d.handlerOffset, d.handlerLength);
    DifferenceEnds(o', e');
    OffsetOrderKept(nodes, code, nodes', code', il, x, b);
    OffsetOrder(nodes, code, x, b);
    OffsetOrderKept(nodes, code, nodes', code', il, x, x);
    if e > d.handlerOffset {
      LastInside(nodes, il, code, e);
      OffsetOrderKept(nodes, code, nodes', code', il, last, x);
      OffsetAfterOrder(nodes, il, code, last, x);
      OffsetAfterOrder(nodes', il, code', last, x);
    }
  }

  lemma FilterKept(nodes: seq<ILInstr>, code: Code, nodes': seq<ILInstr>, code': Code, il: ILInstr,
                   d: ClauseData, x: ILInstr)
    requires |code| == |nodes| && |code'| == |nodes'| && NonEmptySizes(code) && NonEmptySizes(code')
    requires Distinct(nodes) && OrderKept(nodes, nodes', il)
    requires Importable(nodes, il, code, d) && IsFilter(d.flags) && x in nodes
    ensures var d' := ExportClause(nodes', il, code', ImportClause(nodes, il, code, d));
            InFilter(nodes', code', d', x) <==> InFilter(nodes, code, d, x)
  {
    hide Lookup, OffsetOf, OffsetAfter, PrevOf, OrderKept, Distinct;
    OrderFacts(nodes, nodes', il);
    LookupOffset(nodes, il, code, d.tokenOrFilter);
    LookupInList(nodes, il, code, d.tokenOrFilter);
    LookupOffset(nodes, il, code, d.handlerOffset);
    LookupInList(nodes, il, code, d.handlerOffset);
    OffsetOrderKept(nodes, code, nodes', code', il, x, Lookup(nodes, il, code, d.tokenOrFilter));
    OffsetOrderKept(nodes, code, nodes', code', il, x, Lookup(nodes, il, code, d.handlerOffset));
  }

  /**
   * Exception regions survive editing: after any run of insertions and any widening, the try block, the filter code and a
   * handler that was not empty contain exactly the original instructions they contained when they were read, even if
   * offset and length of a block wrap around. A clause inside the code stays inside.
   */
  lemma RegionsKept(nodes: seq<ILInstr>, code: Code, il: ILInstr, edits: seq<Edit>, code': Code,
                    d: ClauseData, x: ILInstr)
    requires il !in nodes && Distinct(nodes) && Applicable(nodes, il, edits)
    requires |code| == |nodes| && |code'| == |Apply(nodes, il, edits)|
    requires NonEmptySizes(code) && NonEmptySizes(code') && CodeSize(code) < TWO32 && CodeSize(code') < TWO32
    requires Importable(nodes, il, code, d) && BlocksInRange(d) && x in nodes
    ensures var nodes' := Apply(nodes, il, edits);
            var d' := ExportClause(nodes', il, code', ImportClause(nodes, il, code, d));
            && (InBytes(nodes', code', d'.tryOffset, d'.tryLength, x)
                <==> InBytes(nodes, code, d.tryOffset, d.tryLength, x))
            && (IsFilter(d.flags) ==> (InFilter(nodes', code', d', x) <==> InFilter(nodes, code, d, x)))
            && (d.handlerLength > 0 ==>
                  && (InBytes(nodes', code', d'.handlerOffset, d'.handlerLength, x)
                      <==> InBytes(nodes, code, d.handlerOffset, d.handlerLength, x))
                  && d'.handlerLength > 0
                  && (InsideCode(d, CodeSize(code)) ==> InsideCode(d', CodeSize(code'))))
  {
    hide Lookup, OffsetOf, OffsetAfter, PrevOf, OrderKept, Distinct, Apply, Applicable, InBytes, InFilter;
    var nodes' := Apply(nodes, il, edits);
    EditsKeepOrder(nodes, il, edits);
    TryKept(nodes, code, nodes', code', il, d, x);
    if d.handlerLength > 0 {
      HandlerKept(nodes, code, nodes', code', il, d, x);
    }
    if IsFilter(d.flags) {
      FilterKept(nodes, code, nodes', code', il, d, x);
    }
  }

  /**
   * The condition on the handler is needed: an empty handler is held as a last instruction before its first one, so
   * putting anything in front of it turns its length negative, which the 32-bit field shows as a huge region.
   */
  lemma EmptyHandlerLost(nodes: seq<ILInstr>, code: Code, il: ILInstr, d: ClauseData, what: ILInstr, code': Code)
    requires il !in nodes && Distinct(nodes) && |code| == |nodes| && NonEmptySizes(code) && CodeSize(code) < TWO32
    requires Importable(nodes, il, code, d) && d.handlerOffset < TWO32 && d.handlerLength == 0
    requires what !in nodes && what != il
    requires |code'| == |nodes| + 1 && NonEmptySizes(code') && CodeSize(code') < TWO32
    ensures var k := IndexOf(nodes, Lookup(nodes, il, code, d.handlerOffset));
            var d' := ExportClause(Inserted(nodes, k, what), il, code', ImportClause(nodes, il, code, d));
            d'.handlerOffset + d'.handlerLength == Off(code', k) + TWO32 > CodeSize(code')
  {
    hide Lookup, OffsetOf, OffsetAfter, PrevOf, Distinct, Inserted, Off, Size;
    var h := Lookup(nodes, il, code, d.handlerOffset);
    var k := IndexOf(nodes, h);
    assert (d.handlerOffset + d.handlerLength) % TWO32 == d.handlerOffset;
    LookupInList(nodes, il, code, d.handlerOffset);
    BesideInserted(nodes, il, k, what, h, code');
    OffMonotone(code', k, k + 1);
    OffMonotone(code', k + 1, |code'|);
  }

  /**
   * So for a clause inside the code, an insertion in front of its handler leaves it inside the code if and only if the
   * handler is not empty.
   */
  lemma InsideExactly(nodes: seq<ILInstr>, code: Code, il: ILInstr, d: ClauseData, what: ILInstr, code': Code)
    requires il !in nodes && Distinct(nodes) && |code| == |nodes| && NonEmptySizes(code) && CodeSize(code) < TWO32
    requires Importable(nodes, il, code, d) && InsideCode(d, CodeSize(code)) && what !in nodes && what != il
    requires |code'| == |nodes| + 1 && NonEmptySizes(code') && CodeSize(code') < TWO32
    ensures var k := IndexOf(nodes, Lookup(nodes, il, code, d.handlerOffset));
            var d' := ExportClause(Inserted(nodes, k, what), il, code', ImportClause(nodes, il, code, d));
            InsideCode(d', CodeSize(code')) <==> d.handlerLength > 0
  {
    hide Lookup, OffsetOf, OffsetAfter, PrevOf, Distinct, Inserted, Off, Size, ExportClause, ImportClause;
    var k := IndexOf(nodes, Lookup(nodes, il, code, d.handlerOffset));
    if d.handlerLength > 0 {
      OneEdit(nodes, il, k, what);
      SomeInstr(code);
      RegionsKept(nodes, code, il, [Edit(k, what)], code', d, nodes[0]);
    } else {
      EmptyHandlerLost(nodes, code, il, d, what, code');
    }
  }

  lemma OneEdit(nodes: seq<ILInstr>, il: ILInstr, k: nat, what: ILInstr)
    requires k <= |nodes| && what !in nodes && what != il
    ensures Applicable(nodes, il, [Edit(k, what)]) && Apply(nodes, il, [Edit(k, what)]) == Inserted(nodes, k, what)
    ensures |Inserted(nodes, k, what)| == |nodes| + 1
  {
    assert [Edit(k, what)][1..] == [];
  }

  lemma SomeInstr(code: Code)
    ensures CodeSize(code) > 0 ==> code != []
  {
  }

  /** Where the two ends of an empty block are once something was put between them. */
  lemma BesideInserted(nodes: seq<ILInstr>, il: ILInstr, k: nat, what: ILInstr, h: ILInstr, code': Code)
    requires il !in nodes && Distinct(nodes) && what !in nodes && what != il
    requires (h == il || h in nodes) && k == IndexOf(nodes, h) && |code'| == |nodes| + 1
    ensures var ns := Inserted(nodes, k, what);
            && |ns| == |code'|
            && OffsetOf(ns, code', h) == Off(code', k + 1)
            && OffsetAfter(ns, il, code', PrevOf(nodes, il, h)) == Off(code', k)
  {
    hide Off;
    var ns := Inserted(nodes, k, what);
    IndexOfInserted(nodes, k, what, h);
    if k > 0 {
      IndexOfAt(nodes, k - 1);
      IndexOfInserted(nodes, k, what, nodes[k - 1]);
    } else {
      NothingBefore(code');
    }
  }

  lemma NothingBefore(code: Code)
    ensures Off(code, 0) == 0
  {
  }
}
