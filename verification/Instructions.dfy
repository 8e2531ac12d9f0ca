/** The rewriter's instruction nodes and the circular doubly-linked list they form through the sentinel m_IL. */
module Instructions {
  /** struct ILInstr; the union of m_pTarget and the m_Arg fields is split into target and arg. */
  class ILInstr {
    var next: ILInstr?
    var prev: ILInstr?
    var opcode: nat
    var offset: int
    var arg: int
    var target: ILInstr?

    constructor (opcode: nat)
      ensures this.opcode == opcode && arg == 0 && target == null
    {
      this.opcode, arg, offset, target, next, prev := opcode, 0, 0, null, null, null;
    }
  }

  predicate Distinct(nodes: seq<ILInstr>)
  {
    forall i, j :: 0 <= i < j < |nodes| ==> nodes[i] != nodes[j]
  }

  /** Position of t in the list; the length stands for any node outside it, in particular the sentinel. */
  function IndexOf(nodes: seq<ILInstr>, t: ILInstr): (k: nat)
    ensures k <= |nodes|
    ensures k < |nodes| ==> nodes[k] == t
    ensures k == |nodes| <==> t !in nodes
  {
    if nodes == [] then 0
    else if nodes[0] == t then 0
    else 1 + IndexOf(nodes[1..], t)
  }

  lemma IndexOfAt(nodes: seq<ILInstr>, i: nat)
    requires Distinct(nodes) && i < |nodes|
    ensures IndexOf(nodes, nodes[i]) == i
  {
  }

  /** The node at position k, where the position after the last one is the sentinel. */
  function NodeAt(nodes: seq<ILInstr>, il: ILInstr, k: nat): ILInstr
    requires k <= |nodes|
  {
    if k < |nodes| then nodes[k] else il
  }

  /** Following next from the sentinel visits nodes in order and returns; prev is its inverse. */
  ghost predicate Ring(nodes: seq<ILInstr>, il: ILInstr)
    reads nodes`next, nodes`prev, il`next, il`prev
  {
    && il !in nodes && Distinct(nodes)
    && il.next == NodeAt(nodes, il, 0)
    && il.prev == (if nodes == [] then il else nodes[|nodes| - 1])
    && (forall k :: 0 <= k < |nodes| ==> Linked(nodes, il, k))
  }

  ghost predicate Linked(nodes: seq<ILInstr>, il: ILInstr, k: nat)
    requires k < |nodes|
    reads nodes`next, nodes`prev
  {
    && nodes[k].next == NodeAt(nodes, il, k + 1)
    && nodes[k].prev == (if k == 0 then il else nodes[k - 1])
  }

  lemma RingFacts(nodes: seq<ILInstr>, il: ILInstr)
    requires Ring(nodes, il)
    ensures il !in nodes && Distinct(nodes) && IndexOf(nodes, il) == |nodes|
  {
  }

  /** Stepping along next. */
  lemma RingStep(nodes: seq<ILInstr>, il: ILInstr, i: nat)
    requires Ring(nodes, il) && i <= |nodes|
    ensures il.next == NodeAt(nodes, il, 0)
    ensures i < |nodes| ==> nodes[i].next == NodeAt(nodes, il, i + 1)
  {
    assert i < |nodes| ==> Linked(nodes, il, i);
  }

  function Inserted<T>(s: seq<T>, k: nat, x: T): (r: seq<T>)
    requires k <= |s|
    ensures |r| == |s| + 1
    ensures forall i :: 0 <= i < |r| ==> r[i] == if i < k then s[i] else if i == k then x else s[i - 1]
  {
    s[..k] + [x] + s[k..]
  }

  /** Splices what in before the node at position k (the sentinel when k is the length). */
  method LinkBefore(ghost nodes: seq<ILInstr>, ghost il: ILInstr, ghost k: nat, where_: ILInstr, what: ILInstr)
    requires Ring(nodes, il) && k <= |nodes| && where_ == NodeAt(nodes, il, k)
    requires what !in nodes && what != il
    modifies nodes`next, nodes`prev, il`next, il`prev, what`next, what`prev
    ensures Ring(Inserted(nodes, k, what), il)
  {
    assert k < |nodes| ==> Linked(nodes, il, k);
    assert k > 0 ==> Linked(nodes, il, k - 1);
    what.next := where_;
    what.prev := where_.prev;
    what.next.prev := what;
    what.prev.next := what;
    ghost var ns := Inserted(nodes, k, what);
    forall j | 0 <= j < |ns| ensures Linked(ns, il, j) {
      assert j < k ==> old(Linked(nodes, il, j));
      assert j > k ==> old(Linked(nodes, il, j - 1));
    }
  }

  /** Splices what in after where_, which is the node before position k (the sentinel when k is 0). */
  method LinkAfter(ghost nodes: seq<ILInstr>, ghost il: ILInstr, ghost k: nat, where_: ILInstr, what: ILInstr)
    requires Ring(nodes, il) && k <= |nodes| && where_ == (if k == 0 then il else nodes[k - 1])
    requires what !in nodes && what != il
    modifies nodes`next, nodes`prev, il`next, il`prev, what`next, what`prev
    ensures Ring(Inserted(nodes, k, what), il)
  {
    assert k < |nodes| ==> Linked(nodes, il, k);
    assert k > 0 ==> Linked(nodes, il, k - 1);
    what.next := where_.next;
    what.prev := where_;
    what.next.prev := what;
    what.prev.next := what;
    ghost var ns := Inserted(nodes, k, what);
    forall j | 0 <= j < |ns| ensures Linked(ns, il, j) {
      assert j < k ==> old(Linked(nodes, il, j));
      assert j > k ==> old(Linked(nodes, il, j - 1));
    }
  }
}
