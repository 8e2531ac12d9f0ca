/** m_pOffsetToInstr while ImportIL fills it: the node of every instruction already read, at its byte offset. */
module OffsetTable {
  import opened Opcodes
  import opened ILCode
  import opened Assembler
  import opened Instructions

  /** What the table holds at offset o once the instructions acc have been read into nodes. */
  function Entry(nodes: seq<ILInstr>, acc: Code, o: nat): ILInstr?
    requires |nodes| == |acc|
  {
    if o < CodeSize(acc) && IndexAt(acc, |acc|, o).Ok? && IndexAt(acc, |acc|, o).value < |nodes|
    then nodes[IndexAt(acc, |acc|, o).value] else null
  }

  ghost predicate Filled(table: array<ILInstr?>, nodes: seq<ILInstr>, acc: Code, il: ILInstr)
    reads table
  {
    && |nodes| == |acc| && table.Length > 0 && table[table.Length - 1] == il
    && forall o :: 0 <= o < table.Length - 1 ==> table[o] == Entry(nodes, acc, o)
  }

  lemma {:induction false} IndexAtPrefix(raw: Code, raw': Code, j: nat, o: int)
    requires j < |raw| && j < |raw'| && forall i :: 0 <= i <= j ==> raw[i] == raw'[i]
    ensures IndexAt(raw, j, o) == IndexAt(raw', j, o)
  {
    hide Off;
    PrefixFacts(raw, raw', j);
    if j > 0 {
      IndexAtPrefix(raw, raw', j - 1, o);
    }
  }

  /** Reading one more instruction adds its node at its offset, unless it is a switch argument. */
  lemma EntryExtend(nodes: seq<ILInstr>, x: ILInstr, acc: Code, ins: Instr, o: nat)
    requires |nodes| == |acc| && NonEmptySizes(acc) && Size(ins.op) >= 1
    ensures Entry(nodes + [x], acc + [ins], o) ==
            if o == CodeSize(acc) && ins.op != SWITCH_ARG then x else Entry(nodes, acc, o)
  {
    hide Size, Off;
    var acc', n := acc + [ins], |acc|;
    CodeSizeExtend(acc, ins);
    PrefixFacts(acc, acc', n);
    if n > 0 {
      IndexAtPrefix(acc, acc', n - 1, o);
    }
    assert o < CodeSize(acc') ==> IndexAt(acc', n + 1, o) == IndexAt(acc', n, o);
    assert IndexAt(acc', n, o) == if o == CodeSize(acc) && ins.op != SWITCH_ARG then Ok(n)
                                  else if n == 0 then InvalidProgram else IndexAt(acc', n - 1, o);
    if n > 0 {
      assert o < CodeSize(acc) ==> IndexAt(acc, n, o) == IndexAt(acc, n - 1, o);
      if IndexAt(acc, n - 1, o).Ok? {
        OffMonotone(acc, IndexAt(acc, n - 1, o).value, n);
      }
    }
  }

  /** The table answers lookups the way the specification searches for an offset. */
  lemma LookupFacts(nodes: seq<ILInstr>, il: ILInstr, raw: Code, o: nat)
    requires |nodes| == |raw| && NonEmptySizes(raw)
    ensures o < CodeSize(raw) ==>
              Entry(nodes, raw, o) ==
              if IndexAt(raw, |raw|, o).Ok? then NodeAt(nodes, il, IndexAt(raw, |raw|, o).value) else null
    ensures o == CodeSize(raw) ==> IndexAt(raw, |raw|, o) == Ok(|raw|)
    ensures o > CodeSize(raw) ==> IndexAt(raw, |raw|, o).InvalidProgram?
  {
    hide Size, Off;
    if IndexAt(raw, |raw|, o).Ok? {
      OffMonotone(raw, IndexAt(raw, |raw|, o).value, |raw|);
    }
  }

  lemma {:induction false} IndexAtSameOps(raw: Code, raw': Code, j: nat, o: int)
    requires |raw| == |raw'| && j <= |raw| && forall i :: 0 <= i < |raw| ==> raw[i].op == raw'[i].op
    ensures Off(raw, j) == Off(raw', j) && IndexAt(raw, j, o) == IndexAt(raw', j, o)
  {
    if j > 0 {
      IndexAtSameOps(raw, raw', j - 1, o);
    }
  }

  /** GetInstrFromOffset: the node at a byte offset, the sentinel at the end of the code, else null. */
  function Lookup(nodes: seq<ILInstr>, il: ILInstr, code: Code, o: int): ILInstr?
    requires |nodes| == |code|
  {
    match IndexAt(code, |code|, o)
    case Ok(k) => NodeAt(nodes, il, k)
    case InvalidProgram => null
  }

  lemma FilledIsLookup(table: array<ILInstr?>, nodes: seq<ILInstr>, acc: Code, il: ILInstr, o: int)
    requires Filled(table, nodes, acc, il) && NonEmptySizes(acc) && CodeSize(acc) == table.Length - 1
    ensures Lookup(nodes, il, acc, o) == if 0 <= o < table.Length then table[o] else null
  {
    hide Off, Size;
    if o >= 0 {
      LookupFacts(nodes, il, acc, o);
    }
  }
}
