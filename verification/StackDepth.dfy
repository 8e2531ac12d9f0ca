/** Why adding up all pushes is enough: the tracked m_maxStack bounds the evaluation stack of every run. */
module StackDepth {
  import opened Opcodes
  import opened StackPushes

  /** A control-flow graph over instruction positions: any set of edges, so loops and handlers are included. */
  type Flow = set<(nat, nat)>

  /**
   * A consistent depth assignment: at most start values are on the stack where execution can begin (the method entry
   * and the exception handlers), and an instruction adds at most what it pushes on the way to any successor.
   */
  ghost predicate Consistent(ops: seq<nat>, flow: Flow, entries: set<nat>, start: int, depth: nat -> int)
  {
    && (forall i :: i in entries ==> depth(i) <= start)
    && (forall e :: e in flow ==> e.0 < |ops| && depth(e.1) <= depth(e.0) + Pushes(ops[e.0]))
  }

  predicate IsPath(flow: Flow, p: seq<nat>)
  {
    forall k :: 0 <= k < |p| - 1 ==> (p[k], p[k + 1]) in flow
  }

  predicate Simple(p: seq<nat>)
  {
    forall a, b :: 0 <= a < b < |p| ==> p[a] != p[b]
  }

  /** All positions on p are below n. */
  predicate Below(p: seq<nat>, n: nat)
  {
    forall k :: 0 <= k < |p| ==> p[k] < n
  }

  function PushesAlong(ops: seq<nat>, p: seq<nat>): nat
    requires Below(p, |ops|)
  {
    if p == [] then 0 else PushesAlong(ops, p[..|p| - 1]) + Pushes(ops[p[|p| - 1]])
  }

  /** Cutting the loops out of a path leaves a path between the same ends that visits nothing twice. */
  lemma {:induction false} CutLoops(flow: Flow, p: seq<nat>) returns (q: seq<nat>)
    requires p != [] && IsPath(flow, p)
    ensures q != [] && IsPath(flow, q) && Simple(q) && q[0] == p[0] && q[|q| - 1] == p[|p| - 1]
    decreases |p|
  {
    if Simple(p) {
      q := p;
    } else {
      var a, b :| 0 <= a < b < |p| && p[a] == p[b];
      var shorter := p[..a] + p[b..];
      forall k | 0 <= k < |shorter| - 1 ensures (shorter[k], shorter[k + 1]) in flow {
        if k + 1 < a {
          assert (p[k], p[k + 1]) in flow;
        } else if k + 1 == a {
          assert (p[k], p[k + 1]) in flow;
        } else {
          assert (p[k - a + b], p[k - a + b + 1]) in flow;
        }
      }
      q := CutLoops(flow, shorter);
    }
  }

  lemma {:induction false} DepthAlong(ops: seq<nat>, flow: Flow, entries: set<nat>, start: int, depth: nat -> int, p: seq<nat>)
    requires Consistent(ops, flow, entries, start, depth)
    requires p != [] && IsPath(flow, p) && p[0] in entries
    ensures Below(p[..|p| - 1], |ops|)
    ensures depth(p[|p| - 1]) <= start + PushesAlong(ops, p[..|p| - 1])
  {
    hide Pushes;
    var n := |p| - 1;
    if n > 0 {
      DepthAlong(ops, flow, entries, start, depth, p[..n]);
      assert p[..n][..n - 1] == p[..n - 1] && p[..n][n - 1] == p[n - 1];
      assert (p[n - 1], p[n]) in flow;
    }
  }

  lemma {:induction false} PushesWithout(ops: seq<nat>, p: seq<nat>, k: nat)
    requires k < |p| && Below(p, |ops|)
    ensures PushesAlong(ops, p) == PushesAlong(ops, p[..k] + p[k + 1..]) + Pushes(ops[p[k]])
  {
    hide Pushes;
    var n := |p| - 1;
    if k == n {
      assert p[..k] + p[k + 1..] == p[..n];
    } else {
      PushesWithout(ops, p[..n], k);
      var q := p[..k] + p[k + 1..];
      assert q[..|q| - 1] == p[..n][..k] + p[..n][k + 1..] && q[|q| - 1] == p[n];
    }
  }

  lemma {:induction false} PushesPrefix(ops: seq<nat>, n: nat, p: seq<nat>)
    requires n <= |ops| && Below(p, n)
    ensures PushesAlong(ops, p) == PushesAlong(ops[..n], p)
  {
    hide Pushes;
    if p != [] {
      PushesPrefix(ops, n, p[..|p| - 1]);
    }
  }

  /** Visiting each instruction at most once pushes at most the sum over the whole list. */
  lemma {:induction false} SimplePushes(ops: seq<nat>, p: seq<nat>)
    requires Simple(p) && Below(p, |ops|)
    ensures PushesAlong(ops, p) <= PushSum(ops)
    decreases |ops|
  {
    hide Pushes;
    if ops == [] {
      assert p == [];
    } else {
      var n := |ops| - 1;
      var q := p;
      if n in p {
        var k :| 0 <= k < |p| && p[k] == n;
        q := p[..k] + p[k + 1..];
        PushesWithout(ops, p, k);
      }
      PushesPrefix(ops, n, q);
      SimplePushes(ops[..n], q);
    }
  }

  /**
   * The evaluation stack is never deeper than the initial value plus the pushes of all instructions, at any
   * instruction some run reaches, loops included.
   */
  lemma DepthBound(ops: seq<nat>, flow: Flow, entries: set<nat>, start: int, depth: nat -> int, run: seq<nat>)
    requires Consistent(ops, flow, entries, start, depth)
    requires run != [] && IsPath(flow, run) && run[0] in entries
    ensures depth(run[|run| - 1]) <= start + PushSum(ops)
  {
    var p := CutLoops(flow, run);
    DepthAlong(ops, flow, entries, start, depth, p);
    SimplePushes(ops, p[..|p| - 1]);
  }

  function StepFrom(i: nat): (nat, nat) { (i, i + 1) }

  function Loads(n: nat): (ops: seq<nat>)
    ensures |ops| == n && forall i :: 0 <= i < n ==> ops[i] == LDNULL
  {
    if n == 0 then [] else Loads(n - 1) + [LDNULL]
  }

  lemma {:induction false} LoadsPush(n: nat)
    ensures PushSum(Loads(n)) == n
  {
    if n > 0 {
      LoadsPush(n - 1);
      assert Loads(n)[..n - 1] == Loads(n - 1);
    }
  }

  /** A body of n loads in a row is consistent and reaches depth n. */
  lemma LoadsReach(n: nat)
    ensures var flow := set i: nat | i < n :: StepFrom(i);
            && Consistent(Loads(n), flow, {0}, 0, (i: nat) => i) && PushSum(Loads(n)) == n
            && exists run: seq<nat> :: run != [] && IsPath(flow, run) && run[0] == 0 && run[|run| - 1] == n
  {
    var flow, run := set i: nat | i < n :: StepFrom(i), seq(n + 1, i => i);
    LoadsPush(n);
    forall k | 0 <= k < |run| - 1 ensures (run[k], run[k + 1]) in flow {
      assert StepFrom(k) in flow;
    }
    assert IsPath(flow, run) && run[0] == 0 && run[|run| - 1] == n;
  }

  /** No run from an entry gets deeper than limit. */
  ghost predicate StaysWithin(flow: Flow, entries: set<nat>, depth: nat -> int, limit: int)
  {
    forall run: seq<nat> :: run != [] && IsPath(flow, run) && run[0] in entries ==> depth(run[|run| - 1]) <= limit
  }

  /** Every body with v as its tracked value has room on the stack the header declares, the low 16 bits of v. */
  ghost predicate HeaderSuffices(v: nat)
  {
    forall ops: seq<nat>, flow: Flow, entries: set<nat>, start: int, depth: nat -> int ::
      Consistent(ops, flow, entries, start, depth) && start + PushSum(ops) == v ==>
      StaysWithin(flow, entries, depth, v % 0x1_0000)
  }

  /** That is so exactly for the values that fit the header. */
  lemma HeaderExactly(v: nat)
    ensures HeaderSuffices(v) <==> v < 0x1_0000
  {
    hide Consistent, IsPath, PushSum;
    if v < 0x1_0000 {
      forall ops: seq<nat>, flow: Flow, entries: set<nat>, start: int, depth: nat -> int |
        Consistent(ops, flow, entries, start, depth) && start + PushSum(ops) == v
        ensures StaysWithin(flow, entries, depth, v % 0x1_0000)
      {
        forall run: seq<nat> | run != [] && IsPath(flow, run) && run[0] in entries ensures depth(run[|run| - 1]) <= v {
          DepthBound(ops, flow, entries, start, depth, run);
        }
      }
    } else {
      LoadsReach(v);
      var flow := set i: nat | i < v :: StepFrom(i);
      var run: seq<nat> :| run != [] && IsPath(flow, run) && run[0] == 0 && run[|run| - 1] == v;
      assert !StaysWithin(flow, {0}, (i: nat) => i, v % 0x1_0000);
      assert Consistent(Loads(v), flow, {0}, 0, (i: nat) => i) && 0 + PushSum(Loads(v)) == v;
    }
  }
}
