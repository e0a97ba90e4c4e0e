/** The binary heap of linksim/min_queue.c on values: what one push and one pop do to the
    array of slots, written with the index formulas of the source (`2x`, `2x + 1`, `x / 2`
    on an array indexed from 0, so that slot 0 has the single child 1).  The class in
    MinQueue.dfy is proved to compute these functions. */
module Heap {

  /** `gt` is the compare function of the queue: non-zero iff its first argument is larger. */
  ghost predicate StrictWeakOrder<T(!new)>(gt: (T, T) -> bool) {
    && (forall a, b :: gt(a, b) ==> !gt(b, a))
    && (forall a, b, c :: !gt(a, b) && !gt(b, c) ==> !gt(a, c))
  }

  ghost predicate HeapOrder<T>(gt: (T, T) -> bool, s: seq<T>) {
    forall i :: 1 <= i < |s| ==> !gt(s[i / 2], s[i])
  }

  ghost predicate IsMinimal<T>(gt: (T, T) -> bool, x: T, m: multiset<T>) {
    x in m && forall y :: y in m ==> !gt(x, y)
  }

  ghost predicate Sorted<T>(gt: (T, T) -> bool, s: seq<T>) {
    forall i, j :: 0 <= i < j < |s| ==> !gt(s[i], s[j])
  }

  // ---------- push ----------

  /** The hole at `i` moves up while its parent is larger than `v`, then receives `v`. */
  function SiftUp<T>(gt: (T, T) -> bool, s: seq<T>, i: nat, v: T): (r: seq<T>)
    requires i < |s|
    ensures |r| == |s|
    decreases i
  {
    if i != 0 && gt(s[i / 2], v) then SiftUp(gt, s[i := s[i / 2]], i / 2, v)
    else s[i := v]
  }

  function SiftUpCost<T>(gt: (T, T) -> bool, s: seq<T>, i: nat, v: T): nat
    requires i < |s|
    decreases i
  {
    if i == 0 then 0
    else if gt(s[i / 2], v) then 1 + SiftUpCost(gt, s[i := s[i / 2]], i / 2, v)
    else 1
  }

  function Pushed<T>(gt: (T, T) -> bool, s: seq<T>, v: T): (r: seq<T>)
    ensures |r| == |s| + 1
  {
    SiftUp(gt, s + [v], |s|, v)
  }

  function PushCost<T>(gt: (T, T) -> bool, s: seq<T>, v: T): nat {
    SiftUpCost(gt, s + [v], |s|, v)
  }

  /** What the hole holds does not matter. */
  lemma HoleIrrelevant<T>(gt: (T, T) -> bool, s: seq<T>, i: nat, v: T, x: T)
    requires i < |s|
    ensures SiftUp(gt, s[i := x], i, v) == SiftUp(gt, s, i, v)
    ensures SiftUpCost(gt, s[i := x], i, v) == SiftUpCost(gt, s, i, v)
  {
    if i != 0 {
      assert s[i := x][i := s[i / 2]] == s[i := s[i / 2]];
    }
    assert s[i := x][i := v] == s[i := v];
  }

  // ---------- pop ----------

  /** Index of the child to compare with, or 0 for "none". */
  function HasChild<T>(gt: (T, T) -> bool, s: seq<T>, i: nat): (c: nat)
    ensures c == 0 || (i < c < |s| && c / 2 == i)
  {
    var left := 2 * i;
    if left >= |s| then 0
    else if left + 1 < |s| && gt(s[left], s[left + 1]) then left + 1
    else left
  }

  function HasChildCost<T>(s: seq<T>, i: nat): nat {
    if 2 * i + 1 < |s| then 1 else 0
  }

  function SiftDown<T>(gt: (T, T) -> bool, s: seq<T>, i: nat): (r: seq<T>)
    requires i <= |s|
    ensures |r| == |s|
    decreases |s| - i
  {
    var c := HasChild(gt, s, i);
    if c != 0 && gt(s[i], s[c]) then SiftDown(gt, s[i := s[c]][c := s[i]], c) else s
  }

  function SiftDownCost<T>(gt: (T, T) -> bool, s: seq<T>, i: nat): nat
    requires i <= |s|
    decreases |s| - i
  {
    var c := HasChild(gt, s, i);
    HasChildCost(s, i) +
    if c == 0 then 0
    else if gt(s[i], s[c]) then 1 + SiftDownCost(gt, s[i := s[c]][c := s[i]], c)
    else 1
  }

  /** The last element replaces the root of the shortened array. */
  function Reroot<T>(s: seq<T>): (r: seq<T>)
    requires |s| > 0
    ensures |r| == |s| - 1
  {
    if |s| == 1 then [] else s[..|s| - 1][0 := s[|s| - 1]]
  }

  function Popped<T>(gt: (T, T) -> bool, s: seq<T>): (r: seq<T>)
    requires |s| > 0
    ensures |r| == |s| - 1
  {
    SiftDown(gt, Reroot(s), 0)
  }

  function PopCost<T>(gt: (T, T) -> bool, s: seq<T>): nat
    requires |s| > 0
  {
    SiftDownCost(gt, Reroot(s), 0)
  }

  // ---------- the heap order is kept ----------

  /** Heap order everywhere but around a hole at `i`, whose value does not matter. */
  ghost predicate HeapWithHole<T>(gt: (T, T) -> bool, s: seq<T>, i: nat) {
    && (forall k :: 1 <= k < |s| && k != i && k / 2 != i ==> !gt(s[k / 2], s[k]))
    && (i != 0 ==> forall k :: 1 <= k < |s| && k / 2 == i ==> !gt(s[i / 2], s[k]))
  }

  lemma {:induction false} SiftUpKeepsOrder<T(!new)>(gt: (T, T) -> bool, s: seq<T>, i: nat, v: T)
    requires StrictWeakOrder(gt)
    requires i < |s| && HeapWithHole(gt, s, i)
    requires forall k :: 1 <= k < |s| && k != i && k / 2 == i ==> !gt(v, s[k])
    ensures HeapOrder(gt, SiftUp(gt, s, i, v))
    decreases i
  {
    if i == 0 || !gt(s[i / 2], v) {
    } else {
      var p := i / 2;
      var t := s[i := s[p]];
      assert HeapWithHole(gt, t, p);
      forall k | 1 <= k < |t| && k != p && k / 2 == p ensures !gt(v, t[k]) {
        assert !gt(s[p], t[k]);
        assert !gt(v, s[p]);
      }
      SiftUpKeepsOrder(gt, t, p, v);
    }
  }

  lemma {:induction false} SiftUpContents<T>(gt: (T, T) -> bool, s: seq<T>, i: nat, v: T)
    requires i < |s|
    ensures multiset(SiftUp(gt, s, i, v)) == multiset(s[i := v])
    decreases i
  {
    if i == 0 || !gt(s[i / 2], v) {
    } else {
      var t := s[i := s[i / 2]];
      SiftUpContents(gt, t, i / 2, v);
      assert multiset(t[i / 2 := v]) == multiset(s[i := v]);
    }
  }

  /** One push keeps the heap order and adds exactly the new element. */
  lemma PushCorrect<T(!new)>(gt: (T, T) -> bool, s: seq<T>, v: T)
    requires StrictWeakOrder(gt) && HeapOrder(gt, s)
    ensures HeapOrder(gt, Pushed(gt, s, v))
    ensures multiset(Pushed(gt, s, v)) == multiset(s) + multiset{v}
  {
    SiftUpKeepsOrder(gt, s + [v], |s|, v);
    SiftUpContents(gt, s + [v], |s|, v);
    assert (s + [v])[|s| := v] == s + [v];
  }

  /** Heap order except between `i` and its children. */
  ghost predicate HeapBut<T>(gt: (T, T) -> bool, s: seq<T>, i: nat) {
    && (forall k :: 1 <= k < |s| && k / 2 != i ==> !gt(s[k / 2], s[k]))
    && (i != 0 ==> forall k :: 1 <= k < |s| && k / 2 == i ==> !gt(s[i / 2], s[k]))
  }

  lemma {:induction false} SiftDownKeepsOrder<T(!new)>(gt: (T, T) -> bool, s: seq<T>, i: nat)
    requires StrictWeakOrder(gt)
    requires i <= |s| && HeapBut(gt, s, i)
    ensures HeapOrder(gt, SiftDown(gt, s, i))
    decreases |s| - i
  {
    var c := HasChild(gt, s, i);
    if c != 0 && gt(s[i], s[c]) {
      var t := s[i := s[c]][c := s[i]];
      SwapDown(gt, s, i, c, t);
      SiftDownKeepsOrder(gt, t, c);
    } else if c != 0 {
      forall k | 1 <= k < |s| ensures !gt(s[k / 2], s[k]) {
        if k / 2 == i { SmallestChild(gt, s, i, k); }
      }
    } else {
      NoChild(gt, s, i);
    }
  }

  /** What the answer 0 of `has_child` means: no child at all, or, at the root, a child
      that is already not smaller. */
  lemma NoChild<T>(gt: (T, T) -> bool, s: seq<T>, i: nat)
    requires HasChild(gt, s, i) == 0
    ensures forall k :: 1 <= k < |s| && k / 2 == i ==> i == 0 && k == 1 && !gt(s[0], s[1])
  {
  }

  lemma SmallestChild<T(!new)>(gt: (T, T) -> bool, s: seq<T>, i: nat, k: nat)
    requires StrictWeakOrder(gt) && HasChild(gt, s, i) != 0
    requires 1 <= k < |s| && k / 2 == i
    ensures !gt(s[HasChild(gt, s, i)], s[k])
    ensures k == 2 * i && HasChild(gt, s, i) != k ==> gt(s[k], s[HasChild(gt, s, i)])
  {
    assert k == 2 * i || k == 2 * i + 1;
  }

  lemma SwapDown<T(!new)>(gt: (T, T) -> bool, s: seq<T>, i: nat, c: nat, t: seq<T>)
    requires StrictWeakOrder(gt)
    requires i < c < |s| && c / 2 == i && c == HasChild(gt, s, i) && gt(s[i], s[c])
    requires HeapBut(gt, s, i)
    requires t == s[i := s[c]][c := s[i]]
    ensures HeapBut(gt, t, c)
  {
    forall k | 1 <= k < |t| && k / 2 != c ensures !gt(t[k / 2], t[k]) {
      if k == c {
      } else if k / 2 == i {
        SmallestChild(gt, s, i, k);
      } else if k == i {
        assert !gt(s[i / 2], s[c]);
      } else {
        assert !gt(s[k / 2], s[k]);
      }
    }
  }

  lemma {:induction false} SiftDownContents<T>(gt: (T, T) -> bool, s: seq<T>, i: nat)
    requires i <= |s|
    ensures multiset(SiftDown(gt, s, i)) == multiset(s)
    decreases |s| - i
  {
    var c := HasChild(gt, s, i);
    if c == 0 || !gt(s[i], s[c]) {
    } else {
      SiftDownContents(gt, s[i := s[c]][c := s[i]], c);
    }
  }

  lemma {:induction false} RootIsLeast<T(!new)>(gt: (T, T) -> bool, s: seq<T>, i: nat)
    requires StrictWeakOrder(gt) && HeapOrder(gt, s) && i < |s|
    ensures !gt(s[0], s[i])
  {
    if i == 0 {
    } else {
      RootIsLeast(gt, s, i / 2);
      assert !gt(s[i / 2], s[i]);
    }
  }

  /** Peek returns a minimal element. */
  lemma PeekMinimal<T(!new)>(gt: (T, T) -> bool, s: seq<T>)
    requires StrictWeakOrder(gt) && HeapOrder(gt, s) && |s| > 0
    ensures IsMinimal(gt, s[0], multiset(s))
  {
    forall y | y in multiset(s) ensures !gt(s[0], y) {
      assert y in s;
      var i :| 0 <= i < |s| && s[i] == y;
      RootIsLeast(gt, s, i);
    }
  }

  /** One pop keeps the heap order and removes exactly one occurrence of the root. */
  lemma PopCorrect<T(!new)>(gt: (T, T) -> bool, s: seq<T>)
    requires StrictWeakOrder(gt) && HeapOrder(gt, s) && |s| > 0
    ensures HeapOrder(gt, Popped(gt, s))
    ensures multiset(Popped(gt, s)) == multiset(s) - multiset{s[0]}
    ensures IsMinimal(gt, s[0], multiset(s))
  {
    var n := |s| - 1;
    var r := Reroot(s);
    assert s == s[..n] + [s[n]];
    assert HeapBut(gt, r, 0);
    SiftDownKeepsOrder(gt, r, 0);
    SiftDownContents(gt, r, 0);
    PeekMinimal(gt, s);
  }

  // ---------- every interleaving; draining ----------

  datatype Op<T> = Push(v: T) | Pop

  datatype Trace<T> = Trace(heap: seq<T>, out: seq<T>)

  /** Runs a list of pushes and pops, logging what `minq_peek` shows before each pop.
      Popping an empty queue does nothing. */
  function RunOps<T>(gt: (T, T) -> bool, s: seq<T>, ops: seq<Op<T>>): Trace<T>
    decreases |ops|
  {
    if ops == [] then Trace(s, [])
    else match ops[0]
      case Push(v) => RunOps(gt, Pushed(gt, s, v), ops[1..])
      case Pop =>
        if |s| == 0 then RunOps(gt, s, ops[1..])
        else
          var t := RunOps(gt, Popped(gt, s), ops[1..]);
          t.(out := [s[0]] + t.out)
  }

  /** The abstract priority queue: a multiset from which each pop takes some minimal element. */
  ghost predicate PriorityQueueRun<T(!new)>(gt: (T, T) -> bool, m: multiset<T>, ops: seq<Op<T>>,
                                           out: seq<T>, end: multiset<T>)
    decreases |ops|
  {
    if ops == [] then out == [] && end == m
    else match ops[0]
      case Push(v) => PriorityQueueRun(gt, m + multiset{v}, ops[1..], out, end)
      case Pop =>
        if m == multiset{} then PriorityQueueRun(gt, m, ops[1..], out, end)
        else
          |out| > 0 && IsMinimal(gt, out[0], m) &&
          PriorityQueueRun(gt, m - multiset{out[0]}, ops[1..], out[1..], end)
  }

  /** The heap refines the multiset priority queue on every interleaving of operations. */
  lemma {:induction false} RefinesPriorityQueue<T(!new)>(gt: (T, T) -> bool, s: seq<T>, ops: seq<Op<T>>)
    requires StrictWeakOrder(gt) && HeapOrder(gt, s)
    ensures var t := RunOps(gt, s, ops);
      HeapOrder(gt, t.heap) && PriorityQueueRun(gt, multiset(s), ops, t.out, multiset(t.heap))
    decreases |ops|
  {
    if ops == [] {
    } else {
      match ops[0]
      case Push(v) =>
        PushCorrect(gt, s, v);
        RefinesPriorityQueue(gt, Pushed(gt, s, v), ops[1..]);
      case Pop =>
        if |s| == 0 {
          RefinesPriorityQueue(gt, s, ops[1..]);
        } else {
          PopCorrect(gt, s);
          assert s[0] in multiset(s);
          RefinesPriorityQueue(gt, Popped(gt, s), ops[1..]);
          var t := RunOps(gt, Popped(gt, s), ops[1..]);
          assert ([s[0]] + t.out)[1..] == t.out;
        }
    }
  }

  /** The elements in the order in which peek and pop hand them out. */
  function DrainAll<T>(gt: (T, T) -> bool, s: seq<T>): (r: seq<T>)
    ensures |r| == |s|
    decreases |s|
  {
    if |s| == 0 then [] else [s[0]] + DrainAll(gt, Popped(gt, s))
  }

  lemma {:induction false} DrainPermutes<T(!new)>(gt: (T, T) -> bool, s: seq<T>)
    requires StrictWeakOrder(gt) && HeapOrder(gt, s)
    ensures multiset(DrainAll(gt, s)) == multiset(s)
    decreases |s|
  {
    hide Popped, HeapOrder, StrictWeakOrder, IsMinimal;
    if |s| > 0 {
      var rest := Popped(gt, s);
      PopCorrect(gt, s);
      DrainPermutes(gt, rest);
      assert s[0] in multiset(s);
      PutBack(s[0], multiset(s), multiset(rest), DrainAll(gt, rest), multiset{});
    } else {
      assert s == [];
    }
  }

  lemma SortedCons<T>(gt: (T, T) -> bool, x: T, d: seq<T>)
    requires Sorted(gt, d) && forall j :: 0 <= j < |d| ==> !gt(x, d[j])
    ensures Sorted(gt, [x] + d)
  {
  }

  /** Draining a heap yields a sorted permutation of its elements. */
  lemma {:induction false} DrainSorts<T(!new)>(gt: (T, T) -> bool, s: seq<T>)
    requires StrictWeakOrder(gt) && HeapOrder(gt, s)
    ensures Sorted(gt, DrainAll(gt, s))
    ensures multiset(DrainAll(gt, s)) == multiset(s)
    decreases |s|
  {
    hide Popped, HeapOrder, StrictWeakOrder, Sorted;
    DrainPermutes(gt, s);
    if |s| > 0 {
      var rest := Popped(gt, s);
      PopCorrect(gt, s);
      DrainSorts(gt, rest);
      var d := DrainAll(gt, rest);
      forall j | 0 <= j < |d| ensures !gt(s[0], d[j]) {
        assert d[j] in multiset(d);
      }
      SortedCons(gt, s[0], d);
    } else {
      SortedNil(gt);
    }
  }

  lemma SortedNil<T>(gt: (T, T) -> bool)
    ensures Sorted(gt, [])
  {
  }

  /** An element taken out of `m` and put in front of the rest. */
  lemma PutBack<T>(x: T, m: multiset<T>, rest: multiset<T>, out: seq<T>, left: multiset<T>)
    requires x in m && rest == m - multiset{x} && rest == multiset(out) + left
    ensures multiset([x] + out) + left == m
  {
    assert multiset([x] + out) == multiset{x} + multiset(out);
  }

  // ---------- cost ----------

  /** The integer part of the binary logarithm. */
  function Log2(n: nat): nat {
    if n < 2 then 0 else 1 + Log2(n / 2)
  }

  lemma {:induction false} Log2Monotone(a: nat, b: nat)
    requires a <= b
    ensures Log2(a) <= Log2(b)
  {
    if a < 2 {
    } else {
      Log2Monotone(a / 2, b / 2);
    }
  }

  lemma {:induction false} SiftUpCostBound<T>(gt: (T, T) -> bool, s: seq<T>, i: nat, v: T)
    requires 0 < i < |s|
    ensures SiftUpCost(gt, s, i, v) <= Log2(i) + 1
    decreases i
  {
    if i < 2 || !gt(s[i / 2], v) {
    } else {
      SiftUpCostBound(gt, s[i := s[i / 2]], i / 2, v);
    }
  }

  /** Pushing onto n elements compares at most floor(log2 n) + 1 times. */
  lemma PushCostBound<T>(gt: (T, T) -> bool, s: seq<T>, v: T)
    requires |s| >= 1
    ensures PushCost(gt, s, v) <= Log2(|s|) + 1
  {
    SiftUpCostBound(gt, s + [v], |s|, v);
  }

  lemma {:induction false} SiftUpCostExact<T>(gt: (T, T) -> bool, s: seq<T>, i: nat, v: T) returns (j: nat)
    requires 0 < i < |s|
    ensures
      var r := SiftUp(gt, s, i, v);
      j < |s| && r[j] == v && (j > 0 ==> !gt(r[j / 2], v)) && SiftUpCost(gt, s, i, v) == Log2(i) - Log2(j) + 1
    decreases i
  {
    if !gt(s[i / 2], v) {
      j := i;
    } else if i < 2 {
      j := 0;
    } else {
      j := SiftUpCostExact(gt, s[i := s[i / 2]], i / 2, v);
    }
  }

  /** One comparison for each level the element climbs, and one at the parent it does not pass: from
      slot n to the slot j where it is put. */
  lemma PushCostExact<T>(gt: (T, T) -> bool, s: seq<T>, v: T) returns (j: nat)
    requires |s| >= 1
    ensures j <= |s| && Pushed(gt, s, v)[j] == v && (j > 0 ==> !gt(Pushed(gt, s, v)[j / 2], v))
    ensures PushCost(gt, s, v) == Log2(|s|) - Log2(j) + 1
  {
    j := SiftUpCostExact(gt, s + [v], |s|, v);
  }

  /** A slot `i` at or above 1 is log2 of the size minus its own depth away from the leaves. */
  lemma {:induction false} SiftDownCostBound<T>(gt: (T, T) -> bool, s: seq<T>, i: nat)
    requires 1 <= i <= |s|
    ensures SiftDownCost(gt, s, i) + 2 * Log2(i) <= 2 * Log2(|s|)
    decreases |s| - i
  {
    Log2Monotone(i, |s|);
    if 2 * i >= |s| {
    } else {
      Log2Monotone(2 * i, |s|);
      assert (2 * i) / 2 == i;
      var c := HasChild(gt, s, i);
      assert Log2(c) == Log2(i) + 1;
      if gt(s[i], s[c]) {
        SiftDownCostBound(gt, s[i := s[c]][c := s[i]], c);
      }
    }
  }

  /** A pop that leaves m elements compares at most 2 (floor(log2 m) + 1) times. */
  lemma PopCostBound<T>(gt: (T, T) -> bool, s: seq<T>)
    requires |s| >= 2
    ensures PopCost(gt, s) <= 2 * (Log2(|s| - 1) + 1)
  {
    var r := Reroot(s);
    var c := HasChild(gt, r, 0);
    if c != 0 && gt(r[0], r[c]) {
      SiftDownCostBound(gt, r[0 := r[c]][c := r[0]], c);
    }
  }

  /** The comparisons made at a slot where the element stays, for its children. */
  function ChildrenOf(j: nat, n: nat): nat {
    if 2 * j + 1 < n then 2 else if 2 * j + 1 == n then 1 else 0
  }

  /** Whether slot j, reached from above, is an only child. */
  function OnlyChild(j: nat, n: nat): nat {
    if j % 2 == 0 && j + 1 == n then 1 else 0
  }

  lemma {:induction false} SiftDownCostExact<T>(gt: (T, T) -> bool, s: seq<T>, i: nat) returns (j: nat)
    requires 1 <= i < |s|
    ensures i <= j < |s| && SiftDown(gt, s, i)[j] == s[i]
    ensures SiftDownCost(gt, s, i) ==
            2 * (Log2(j) - Log2(i)) - (if j > i then OnlyChild(j, |s|) else 0) + ChildrenOf(j, |s|)
    decreases |s| - i
  {
    assert (2 * i) / 2 == i;
    j := i;
    if 2 * i < |s| {
      var c := HasChild(gt, s, i);
      assert Log2(c) == Log2(i) + 1;
      if gt(s[i], s[c]) {
        j := SiftDownCostExact(gt, s[i := s[c]][c := s[i]], c);
      }
    }
  }

  /** Two comparisons for each level the last element sinks, one at an only child, and those with its
      children where it stays, in slot j of m; one if it stays at the root. */
  lemma PopCostExact<T>(gt: (T, T) -> bool, s: seq<T>) returns (j: nat)
    requires |s| >= 3
    ensures j < |s| - 1 && Popped(gt, s)[j] == s[|s| - 1]
    ensures PopCost(gt, s) ==
            if j == 0 then 1
            else 2 * (Log2(j) + 1) - (if j > 1 then OnlyChild(j, |s| - 1) else 0) + ChildrenOf(j, |s| - 1)
  {
    var r := Reroot(s);
    j := 0;
    if HasChild(gt, r, 0) != 0 {
      j := SiftDownCostExact(gt, r[0 := r[1]][1 := r[0]], 1);
    }
  }
}
