/**
 * The canonical ordering loop of normalize32 (section 3.11 of the Unicode Standard). The combining classes are a
 * parameter: the tables they come from are not part of this model.
 */
module CanonicalOrdering {

  type Classes = nat -> nat

  // ---------- stable sorting ----------

  /** x goes behind every element whose class is not greater. */
  function Insert(ccc: Classes, s: seq<nat>, x: nat): (r: seq<nat>)
    ensures |r| == |s| + 1
  {
    if s == [] || ccc(s[|s| - 1]) <= ccc(x) then s + [x]
    else Insert(ccc, s[..|s| - 1], x) + [s[|s| - 1]]
  }

  /** std::stable_sort by combining class. */
  function StableSort(ccc: Classes, s: seq<nat>): (r: seq<nat>)
    ensures |r| == |s|
  {
    if s == [] then [] else Insert(ccc, StableSort(ccc, s[..|s| - 1]), s[|s| - 1])
  }

  predicate Sorted(ccc: Classes, s: seq<nat>)
  {
    forall i, j :: 0 <= i < j < |s| ==> ccc(s[i]) <= ccc(s[j])
  }

  /** The elements of s that are starters or of class c, in order. */
  function Keep(ccc: Classes, c: nat, s: seq<nat>): seq<nat>
  {
    if s == [] then []
    else Keep(ccc, c, s[..|s| - 1]) + (if ccc(s[|s| - 1]) in {0, c} then [s[|s| - 1]] else [])
  }

  lemma {:induction false} KeepAppend(ccc: Classes, c: nat, s: seq<nat>, t: seq<nat>)
    ensures Keep(ccc, c, s + t) == Keep(ccc, c, s) + Keep(ccc, c, t)
    decreases |t|
  {
    if t == [] {
      assert s + t == s;
    } else {
      KeepAppend(ccc, c, s, t[..|t| - 1]);
      assert (s + t)[..|s + t| - 1] == s + t[..|t| - 1];
    }
  }

  /** No two adjacent characters are the wrong way round: the second is a starter or its class is not the smaller one. */
  predicate Canonical(ccc: Classes, s: seq<nat>)
  {
    forall i :: 0 <= i < |s| - 1 ==> ccc(s[i + 1]) == 0 || ccc(s[i]) <= ccc(s[i + 1])
  }

  predicate NoStarters(ccc: Classes, s: seq<nat>)
  {
    forall i :: 0 <= i < |s| ==> ccc(s[i]) != 0
  }

  lemma {:induction false} InsertPermutes(ccc: Classes, s: seq<nat>, x: nat)
    ensures multiset(Insert(ccc, s, x)) == multiset(s + [x])
    decreases |s|
  {
    if s != [] && ccc(s[|s| - 1]) > ccc(x) {
      var front, last := s[..|s| - 1], s[|s| - 1];
      InsertPermutes(ccc, front, x);
      assert s == front + [last];
    }
  }

  lemma InsertFrom(ccc: Classes, s: seq<nat>, x: nat, k: nat)
    requires k < |s| + 1
    ensures Insert(ccc, s, x)[k] == x || exists i :: 0 <= i < |s| && s[i] == Insert(ccc, s, x)[k]
  {
    hide Insert;
    InsertPermutes(ccc, s, x);
    assert Insert(ccc, s, x)[k] in multiset(Insert(ccc, s, x));
    assert Insert(ccc, s, x)[k] in s + [x];
  }

  lemma {:induction false} InsertSorts(ccc: Classes, s: seq<nat>, x: nat)
    requires Sorted(ccc, s)
    ensures Sorted(ccc, Insert(ccc, s, x))
    decreases |s|
  {
    var r := Insert(ccc, s, x);
    if s != [] && ccc(s[|s| - 1]) > ccc(x) {
      var front, last := s[..|s| - 1], s[|s| - 1];
      InsertSorts(ccc, front, x);
      forall i, j | 0 <= i < j < |r| ensures ccc(r[i]) <= ccc(r[j]) {
        if j == |r| - 1 {
          InsertFrom(ccc, front, x, i);
        }
      }
    }
  }

  lemma InsertNoStarter(ccc: Classes, s: seq<nat>, x: nat)
    requires NoStarters(ccc, s) && ccc(x) != 0
    ensures NoStarters(ccc, Insert(ccc, s, x))
  {
    hide Insert;
    forall k | 0 <= k < |s| + 1 ensures ccc(Insert(ccc, s, x)[k]) != 0 {
      InsertFrom(ccc, s, x, k);
    }
  }

  lemma {:induction false} InsertKeeps(ccc: Classes, c: nat, s: seq<nat>, x: nat)
    requires NoStarters(ccc, s) && ccc(x) != 0
    ensures Keep(ccc, c, Insert(ccc, s, x)) == Keep(ccc, c, s + [x])
    decreases |s|
  {
    hide Keep;
    if s != [] && ccc(s[|s| - 1]) > ccc(x) {
      var front, last := s[..|s| - 1], s[|s| - 1];
      InsertKeeps(ccc, c, front, x);
      KeepAppend(ccc, c, Insert(ccc, front, x), [last]);
      KeepAppend(ccc, c, front, [x]);
      KeepAppend(ccc, c, front, [last]);
      KeepAppend(ccc, c, s, [x]);
      assert s == front + [last];
      KeptApart(ccc, c, Keep(ccc, c, front), x, last);
    }
  }

  lemma KeptApart(ccc: Classes, c: nat, k: seq<nat>, x: nat, y: nat)
    requires ccc(x) != ccc(y) && ccc(x) != 0 && ccc(y) != 0
    ensures k + Keep(ccc, c, [x]) + Keep(ccc, c, [y]) == k + Keep(ccc, c, [y]) + Keep(ccc, c, [x])
  {
    hide Keep;
    OneKept(ccc, c, x);
    OneKept(ccc, c, y);
  }

  lemma OneKept(ccc: Classes, c: nat, x: nat)
    ensures Keep(ccc, c, [x]) == if ccc(x) in {0, c} then [x] else []
  {
    assert [x][..0] == [];
  }

  /** Sorting a run without starters orders it, loses nothing and keeps characters of one class in their order. */
  lemma {:induction false} SortRun(ccc: Classes, s: seq<nat>)
    requires NoStarters(ccc, s)
    ensures var r := StableSort(ccc, s);
            && Sorted(ccc, r) && NoStarters(ccc, r) && multiset(r) == multiset(s)
            && forall c :: Keep(ccc, c, r) == Keep(ccc, c, s)
    decreases |s|
  {
    hide Keep, Insert;
    if s != [] {
      var front, last := s[..|s| - 1], s[|s| - 1];
      var sorted := StableSort(ccc, front);
      SortRun(ccc, front);
      InsertSorts(ccc, sorted, last);
      InsertPermutes(ccc, sorted, last);
      InsertNoStarter(ccc, sorted, last);
      assert s == front + [last];
      assert multiset(sorted + [last]) == multiset(front + [last]);
      forall c ensures Keep(ccc, c, StableSort(ccc, s)) == Keep(ccc, c, s) {
        InsertKeeps(ccc, c, sorted, last);
        KeepAppend(ccc, c, sorted, [last]);
        KeepAppend(ccc, c, front, [last]);
      }
    }
  }

  // ---------- the ordering as a function ----------

  /** The length of the run of non-starters at the beginning. */
  function RunLength(ccc: Classes, s: seq<nat>): (n: nat)
    ensures n <= |s| && NoStarters(ccc, s[..n]) && (n < |s| ==> ccc(s[n]) == 0)
  {
    if s == [] || ccc(s[0]) == 0 then 0
    else
      var n := RunLength(ccc, s[1..]);
      assert s[..1 + n] == [s[0]] + s[1..][..n];
      1 + n
  }

  function Order(ccc: Classes, s: seq<nat>): (r: seq<nat>)
    ensures |r| == |s|
    decreases |s|
  {
    if s == [] then []
    else if ccc(s[0]) == 0 then [s[0]] + Order(ccc, s[1..])
    else
      var n := RunLength(ccc, s);
      StableSort(ccc, s[..n]) + Order(ccc, s[n..])
  }

  /** The pieces of one step of the ordering: a starter, or a run of non-starters and its sorted form. */
  lemma OrderPieces(ccc: Classes, s: seq<nat>) returns (n: nat, sorted: seq<nat>)
    requires s != []
    ensures 0 < n <= |s| && s == s[..n] + s[n..] && Order(ccc, s) == sorted + Order(ccc, s[n..]) && |sorted| == n
    ensures if ccc(s[0]) == 0 then n == 1 && sorted == s[..n]
            else NoStarters(ccc, s[..n]) && sorted == StableSort(ccc, s[..n]) && (n < |s| ==> ccc(s[n]) == 0)
  {
    hide StableSort;
    n := if ccc(s[0]) == 0 then 1 else RunLength(ccc, s);
    sorted := if ccc(s[0]) == 0 then s[..n] else StableSort(ccc, s[..n]);
  }

  lemma {:induction false} OrderPermutes(ccc: Classes, s: seq<nat>)
    ensures multiset(Order(ccc, s)) == multiset(s)
    decreases |s|
  {
    hide Order, StableSort;
    if s != [] {
      var n, sorted := OrderPieces(ccc, s);
      OrderPermutes(ccc, s[n..]);
      if ccc(s[0]) != 0 {
        SortRun(ccc, s[..n]);
      }
      assert multiset(s) == multiset(s[..n]) + multiset(s[n..]);
    }
  }

  lemma {:induction false} OrderKeepsStarters(ccc: Classes, s: seq<nat>, i: nat)
    requires i < |s|
    ensures var r := Order(ccc, s);
            (ccc(s[i]) == 0 <==> ccc(r[i]) == 0) && (ccc(s[i]) == 0 ==> r[i] == s[i])
    decreases |s|
  {
    hide Order, StableSort;
    var n, sorted := OrderPieces(ccc, s);
    if i < n {
      if ccc(s[0]) != 0 {
        SortRun(ccc, s[..n]);
        assert ccc(s[..n][i]) != 0 && ccc(sorted[i]) != 0;
      }
    } else {
      OrderKeepsStarters(ccc, s[n..], i - n);
    }
  }

  lemma {:induction false} OrderKeepsClass(ccc: Classes, c: nat, s: seq<nat>)
    ensures Keep(ccc, c, Order(ccc, s)) == Keep(ccc, c, s)
    decreases |s|
  {
    hide Order, StableSort, Keep;
    if s != [] {
      var n, sorted := OrderPieces(ccc, s);
      OrderKeepsClass(ccc, c, s[n..]);
      KeepAppend(ccc, c, s[..n], s[n..]);
      KeepAppend(ccc, c, sorted, Order(ccc, s[n..]));
      if ccc(s[0]) != 0 {
        SortRun(ccc, s[..n]);
      }
    } else {
      OrderNothing(ccc, s);
    }
  }

  lemma {:induction false} OrderCanonical(ccc: Classes, s: seq<nat>)
    ensures Canonical(ccc, Order(ccc, s))
    decreases |s|
  {
    hide Order, StableSort, Keep;
    if s != [] {
      var n, sorted := OrderPieces(ccc, s);
      OrderCanonical(ccc, s[n..]);
      if ccc(s[0]) != 0 {
        SortRun(ccc, s[..n]);
      }
      if n < |s| {
        OrderKeepsStarters(ccc, s[n..], 0);
      }
      JoinRuns(ccc, sorted, Order(ccc, s[n..]));
    } else {
      OrderNothing(ccc, s);
    }
  }

  /**
   * The result is canonically ordered; it is a permutation in which starters keep their index, and deleting all
   * non-starters but those of one class leaves the same characters in the same order.
   */
  lemma OrderOrders(ccc: Classes, s: seq<nat>)
    ensures var r := Order(ccc, s);
            && Canonical(ccc, r) && multiset(r) == multiset(s)
            && (forall i :: 0 <= i < |s| ==> (ccc(s[i]) == 0 <==> ccc(r[i]) == 0) && (ccc(s[i]) == 0 ==> r[i] == s[i]))
            && (forall c :: Keep(ccc, c, r) == Keep(ccc, c, s))
  {
    hide Order, Keep;
    OrderCanonical(ccc, s);
    OrderPermutes(ccc, s);
    forall i | 0 <= i < |s|
      ensures (ccc(s[i]) == 0 <==> ccc(Order(ccc, s)[i]) == 0) && (ccc(s[i]) == 0 ==> Order(ccc, s)[i] == s[i])
    {
      OrderKeepsStarters(ccc, s, i);
    }
    forall c ensures Keep(ccc, c, Order(ccc, s)) == Keep(ccc, c, s) {
      OrderKeepsClass(ccc, c, s);
    }
  }

  lemma JoinRuns(ccc: Classes, s: seq<nat>, t: seq<nat>)
    requires s != [] && Canonical(ccc, t)
    requires Sorted(ccc, s) && (t != [] && |s| > 0 ==> ccc(t[0]) == 0 || ccc(s[|s| - 1]) == 0)
    ensures Canonical(ccc, s + t)
  {
    var r := s + t;
    forall i | 0 <= i < |r| - 1 ensures ccc(r[i + 1]) == 0 || ccc(r[i]) <= ccc(r[i + 1]) {
      if i >= |s| {
        assert r[i] == t[i - |s|] && r[i + 1] == t[i - |s| + 1];
      }
    }
  }

  lemma {:induction false} RunSorted(ccc: Classes, s: seq<nat>, j: nat)
    requires Canonical(ccc, s) && j < |s| && NoStarters(ccc, s[1..j + 1])
    ensures ccc(s[0]) <= ccc(s[j])
    decreases j
  {
    if j > 0 {
      assert s[j] == s[1..j + 1][j - 1];
      assert s[1..j] == s[1..j + 1][..j - 1];
      RunSorted(ccc, s, j - 1);
      assert ccc(s[j - 1 + 1]) == 0 || ccc(s[j - 1]) <= ccc(s[j - 1 + 1]);
    }
  }

  /** The first character that is a starter or of class c. */
  function FirstKept(ccc: Classes, c: nat, s: seq<nat>): (j: nat)
    ensures j <= |s| && (forall i :: 0 <= i < j ==> ccc(s[i]) !in {0, c}) && (j < |s| ==> ccc(s[j]) in {0, c})
  {
    if s == [] || ccc(s[0]) in {0, c} then 0
    else
      var j := FirstKept(ccc, c, s[1..]);
      assert forall i :: 0 < i < 1 + j ==> s[i] == s[1..][i - 1];
      1 + j
  }

  lemma {:induction false} KeepBegins(ccc: Classes, c: nat, s: seq<nat>)
    ensures var j := FirstKept(ccc, c, s);
            if j < |s| then Keep(ccc, c, s) == [s[j]] + Keep(ccc, c, s[j + 1..]) else Keep(ccc, c, s) == []
    decreases |s|
  {
    if s != [] {
      assert s == [s[0]] + s[1..];
      KeepAppend(ccc, c, [s[0]], s[1..]);
      OneKept(ccc, c, s[0]);
      if ccc(s[0]) !in {0, c} {
        KeepBegins(ccc, c, s[1..]);
        var j := FirstKept(ccc, c, s[1..]);
        assert FirstKept(ccc, c, s) == 1 + j;
        assert j < |s[1..]| ==> s[1..][j + 1..] == s[1 + j + 1..];
        assert [] + Keep(ccc, c, s[1..]) == Keep(ccc, c, s[1..]);
      }
    }
  }

  /** Two canonically ordered strings that agree class by class begin with the same character. */
  lemma SameFirst(ccc: Classes, s: seq<nat>, t: seq<nat>)
    requires Canonical(ccc, s) && Canonical(ccc, t) && s != [] && t != []
    requires forall c :: Keep(ccc, c, s) == Keep(ccc, c, t)
    ensures s[0] == t[0]
  {
    hide Keep;
    LowFirst(ccc, s, t);
    LowFirst(ccc, t, s);
    var c := ccc(s[0]);
    KeepBegins(ccc, c, s);
    KeepBegins(ccc, c, t);
    assert Keep(ccc, c, s) == Keep(ccc, c, t);
    assert FirstKept(ccc, c, s) == 0 && FirstKept(ccc, c, t) == 0;
    assert Keep(ccc, c, s)[0] == s[0] && Keep(ccc, c, t)[0] == t[0];
  }

  lemma LowFirst(ccc: Classes, s: seq<nat>, t: seq<nat>)
    requires Canonical(ccc, t) && s != [] && t != []
    requires forall c :: Keep(ccc, c, s) == Keep(ccc, c, t)
    ensures ccc(t[0]) <= ccc(s[0])
  {
    hide Keep;
    var c := ccc(s[0]);
    KeepBegins(ccc, c, s);
    KeepBegins(ccc, c, t);
    assert Keep(ccc, c, s) == Keep(ccc, c, t);
    var j := FirstKept(ccc, c, t);
    assert FirstKept(ccc, c, s) == 0;
    assert Keep(ccc, c, s)[0] == s[0];
    assert j < |t| && t[j] == s[0];
    if c != 0 {
      RunSorted(ccc, t, j);
    } else {
      StarterFirst(ccc, s, t);
    }
  }

  lemma StarterFirst(ccc: Classes, s: seq<nat>, t: seq<nat>)
    requires s != [] && t != [] && ccc(s[0]) == 0
    requires forall c :: Keep(ccc, c, s) == Keep(ccc, c, t)
    ensures ccc(t[0]) == 0
  {
    hide Keep;
    var c := ccc(t[0]);
    KeepBegins(ccc, c, s);
    KeepBegins(ccc, c, t);
    assert Keep(ccc, c, s) == Keep(ccc, c, t);
    assert FirstKept(ccc, c, s) == 0 && FirstKept(ccc, c, t) == 0;
    assert Keep(ccc, c, s)[0] == s[0] && Keep(ccc, c, t)[0] == t[0];
  }

  /** Canonical order is unique: what a string keeps of each class determines its ordered form. */
  lemma {:induction false} CanonicalUnique(ccc: Classes, s: seq<nat>, t: seq<nat>)
    requires Canonical(ccc, s) && Canonical(ccc, t)
    requires forall c :: Keep(ccc, c, s) == Keep(ccc, c, t)
    ensures s == t
    decreases |s|
  {
    hide Keep;
    if s == [] || t == [] {
      EmptyUnique(ccc, s, t);
    } else {
      SameFirst(ccc, s, t);
      var s1, t1 := s[1..], t[1..];
      forall c ensures Keep(ccc, c, s1) == Keep(ccc, c, t1) {
        assert s == [s[0]] + s1 && t == [t[0]] + t1;
        KeepAppend(ccc, c, [s[0]], s1);
        KeepAppend(ccc, c, [t[0]], t1);
        assert Keep(ccc, c, s) == Keep(ccc, c, t);
        DropSame(Keep(ccc, c, [s[0]]), Keep(ccc, c, s1), Keep(ccc, c, t1));
      }
      CanonicalTail(ccc, s);
      CanonicalTail(ccc, t);
      CanonicalUnique(ccc, s1, t1);
    }
  }

  lemma DropSame(a: seq<nat>, b: seq<nat>, c: seq<nat>)
    requires a + b == a + c
    ensures b == c
  {
    assert b == (a + b)[|a|..] && c == (a + c)[|a|..];
  }

  lemma CanonicalTail(ccc: Classes, s: seq<nat>)
    requires Canonical(ccc, s) && s != []
    ensures Canonical(ccc, s[1..])
  {
    forall i | 0 <= i < |s[1..]| - 1 ensures ccc(s[1..][i + 1]) == 0 || ccc(s[1..][i]) <= ccc(s[1..][i + 1]) {
      assert s[1..][i] == s[i + 1] && s[1..][i + 1] == s[i + 1 + 1];
    }
  }

  lemma EmptyUnique(ccc: Classes, s: seq<nat>, t: seq<nat>)
    requires s == [] || t == []
    requires forall c :: Keep(ccc, c, s) == Keep(ccc, c, t)
    ensures s == t
  {
    if s != [] {
      KeepBegins(ccc, ccc(s[0]), s);
    }
    if t != [] {
      KeepBegins(ccc, ccc(t[0]), t);
    }
  }

  /** A canonically ordered string is left alone, so that ordering twice is ordering once. */
  lemma OrderIdle(ccc: Classes, s: seq<nat>)
    ensures Order(ccc, s) == s <==> Canonical(ccc, s)
    ensures Order(ccc, Order(ccc, s)) == Order(ccc, s)
  {
    hide Order, Keep;
    OrderOrders(ccc, s);
    OrderOrders(ccc, Order(ccc, s));
    CanonicalUnique(ccc, Order(ccc, Order(ccc, s)), Order(ccc, s));
    if Canonical(ccc, s) {
      CanonicalUnique(ccc, Order(ccc, s), s);
    }
  }

  // ---------- the loop as written ----------

  method SortRange(ccc: Classes, a: array<nat>, lo: nat, hi: nat)
    requires lo <= hi <= a.Length
    modifies a
    ensures a[..] == old(a[..lo]) + StableSort(ccc, old(a[lo..hi])) + old(a[hi..])
  {
    var sorted := StableSort(ccc, a[lo..hi]);
    for i := 0 to hi - lo
      invariant a[..lo] == old(a[..lo]) && a[hi..] == old(a[hi..])
      invariant a[lo..lo + i] == sorted[..i]
    {
      a[lo + i] := sorted[i];
    }
    assert a[..] == a[..lo] + a[lo..hi] + a[hi..];
  }

  lemma OrderStarter(ccc: Classes, s: seq<nat>)
    requires s != [] && ccc(s[0]) == 0
    ensures Order(ccc, s) == [s[0]] + Order(ccc, s[1..])
  {
  }

  /** What the loop does in one round: sort the run and skip the starter behind it. */
  lemma OrderRun(ccc: Classes, s: seq<nat>, n: nat)
    requires 0 < n <= |s| && NoStarters(ccc, s[..n]) && (n < |s| ==> ccc(s[n]) == 0)
    ensures Order(ccc, s) ==
            if n < |s| then StableSort(ccc, s[..n]) + [s[n]] + Order(ccc, s[n + 1..]) else StableSort(ccc, s[..n])
  {
    hide StableSort;
    assert ccc(s[..n][0]) != 0;
    RunLengthIs(ccc, s, n);
    if n < |s| {
      assert s[n..][0] == s[n] && s[n..][1..] == s[n + 1..];
      OrderStarter(ccc, s[n..]);
    } else {
      assert StableSort(ccc, s[..n]) + [] == StableSort(ccc, s[..n]);
    }
  }

  lemma RunLengthIs(ccc: Classes, s: seq<nat>, n: nat)
    requires n <= |s| && NoStarters(ccc, s[..n]) && (n < |s| ==> ccc(s[n]) == 0)
    ensures RunLength(ccc, s) == n
  {
    var m := RunLength(ccc, s);
    assert forall i :: 0 <= i < n ==> ccc(s[..n][i]) == ccc(s[i]);
    assert forall i :: 0 <= i < m ==> ccc(s[..m][i]) == ccc(s[i]);
  }

  lemma SortOne(ccc: Classes, x: nat)
    ensures StableSort(ccc, [x]) == [x]
  {
    assert [x][..0] == [];
    assert StableSort(ccc, [x][..0]) == [];
  }

  method CanonicalOrder(ccc: Classes, a: array<nat>)
    modifies a
    ensures a[..] == Order(ccc, old(a[..]))
  {
    hide Order, StableSort;
    ghost var s := a[..];
    var start := 0;
    ghost var done := 0;
    while start < a.Length
      invariant done == if start <= a.Length then start else a.Length
      invariant a[done..] == s[done..] && a[..done] + Order(ccc, s[done..]) == Order(ccc, s)
      decreases a.Length - start
    {
      assert a[start] == a[start..][0] == s[start..][0];
      if ccc(a[start]) == 0 {
        OrderStarter(ccc, s[start..]);
        assert s[start..][1..] == s[start + 1..] == a[start + 1..];
        assert a[..start + 1] == a[..start] + [a[start]];
        start := start + 1;
        done := start;
        continue;
      }
      var end := RunEnd(ccc, a, start);
      RunOf(ccc, a[..], s, start, end);
      ghost var front := a[..start];
      if end - start > 1 {
        SortRange(ccc, a, start, end);
      } else {
        SortOne(ccc, s[start]);
        assert a[start..end] == [s[start]];
        assert a[..] == front + StableSort(ccc, s[start..end]) + s[end..];
      }
      assert a[..] == front + StableSort(ccc, s[start..end]) + s[end..];
      start := end + 1;
      done := if start <= a.Length then start else a.Length;
      AfterRun(ccc, a[..], s, front, |front|, end, done);
    }
    OrderNothing(ccc, s[done..]);
    assert a[..] == a[..done];
  }

  /** The inner loop: the end of the run of non-starters. */
  method RunEnd(ccc: Classes, a: array<nat>, start: nat) returns (end: nat)
    requires start < a.Length && ccc(a[start]) != 0
    ensures start < end <= a.Length && NoStarters(ccc, a[start..end]) && (end < a.Length ==> ccc(a[end]) == 0)
  {
    end := start + 1;
    while end < a.Length && ccc(a[end]) != 0
      invariant start < end <= a.Length
      invariant forall i :: start <= i < end ==> ccc(a[i]) != 0
    {
      end := end + 1;
    }
  }

  lemma RunOf(ccc: Classes, a: seq<nat>, s: seq<nat>, start: nat, end: nat)
    requires |a| == |s| && start < end <= |a| && a[start..] == s[start..]
    requires NoStarters(ccc, a[start..end]) && (end < |a| ==> ccc(a[end]) == 0)
    ensures s[start..end] == a[start..end] && s[end..] == a[end..]
    ensures NoStarters(ccc, s[start..end]) && (end < |s| ==> ccc(s[end]) == 0)
  {
    assert s[start..end] == s[start..][..end - start] == a[start..][..end - start];
    assert s[end..] == s[start..][end - start..] == a[start..][end - start..];
    assert end < |s| ==> s[end] == s[end..][0] == a[end..][0];
  }

  lemma AfterRun(ccc: Classes, a: seq<nat>, s: seq<nat>, front: seq<nat>, start: nat, end: nat, done: nat)
    requires start == |front| < end <= |s| == |a| && done == if end < |s| then end + 1 else end
    requires NoStarters(ccc, s[start..end]) && (end < |s| ==> ccc(s[end]) == 0)
    requires a == front + StableSort(ccc, s[start..end]) + s[end..]
    requires front + Order(ccc, s[start..]) == Order(ccc, s)
    ensures a[done..] == s[done..] && a[..done] + Order(ccc, s[done..]) == Order(ccc, s)
  {
    hide Order, StableSort;
    var u := s[start..];
    var n := end - start;
    assert u[..n] == s[start..end];
    if end < |s| {
      assert u[n] == s[end] && u[n + 1..] == s[done..] && s[end..] == [s[end]] + s[done..];
    } else {
      OrderNothing(ccc, s[done..]);
    }
    OrderRun(ccc, u, n);
  }

  lemma OrderNothing(ccc: Classes, s: seq<nat>)
    requires s == []
    ensures Order(ccc, s) == []
  {
  }
}
