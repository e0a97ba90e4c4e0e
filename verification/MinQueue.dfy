/** linksim/min_queue.c: the priority queue as an object over a growing array. */
module MinQueue {
  import opened Heap
  import opened Wrappers

  const SLOTS_PER_MALLOC: nat := 20

  /** Array length after a push onto `size` elements in an array of length `alloc`. */
  function Grown(size: nat, alloc: nat): nat {
    if size == alloc then size + SLOTS_PER_MALLOC else alloc
  }

  /** The least multiple of 20, but not 0, that holds `peak` elements. */
  function Room(peak: nat): nat {
    if peak <= 20 then 20 else (peak + 19) / 20 * 20
  }

  /** The array has room for the largest size so far and no more than it takes. */
  lemma GrowsByNeed(size: nat, peak: nat)
    requires size <= peak
    ensures Grown(size, Room(peak)) == Room(if size + 1 > peak then size + 1 else peak)
  {
    if size == peak > 20 {
      var q, r := (peak + 19) / 20, (peak + 19) % 20;
      assert peak + 19 == 20 * q + r;
      if r == 19 { assert (peak + 20) / 20 == q + 1; } else { assert (peak + 20) / 20 == q; }
    }
  }

  /** minq_new: nothing if either of its two calls of malloc fails. */
  method New<T(0, !new)>(gt: (T, T) -> bool, queueMemory: bool, slotMemory: bool) returns (q: MinQueue?<T>)
    ensures q == null <==> !queueMemory || !slotMemory
    ensures q != null ==> fresh(q) && fresh(q.e) && q.Valid() && q.gt == gt
    ensures q != null ==> q.Contents() == [] && q.alloc == SLOTS_PER_MALLOC
  {
    if !queueMemory { return null; }
    if !slotMemory { return null; }
    q := new MinQueue<T>(gt);
  }

  class MinQueue<T(0, !new)> {
    const gt: (T, T) -> bool
    var size: nat
    var alloc: nat
    var e: array<T>

    ghost predicate Valid()
      reads this, e
    {
      && e.Length == alloc
      && size <= alloc
      && alloc > 0
      && alloc % SLOTS_PER_MALLOC == 0
    }

    ghost function Contents(): (s: seq<T>)
      requires Valid()
      reads this, e
      ensures |s| == size
    {
      e[..size]
    }

    ghost predicate Ordered()
      requires Valid()
      reads this, e
    {
      HeapOrder(gt, Contents())
    }

    /** The structure minq_new sets up. */
    constructor (gt: (T, T) -> bool)
      ensures Valid() && fresh(e) && this.gt == gt
      ensures Contents() == [] && alloc == SLOTS_PER_MALLOC && Ordered()
    {
      this.gt := gt;
      size := 0;
      alloc := SLOTS_PER_MALLOC;
      e := new T[SLOTS_PER_MALLOC];
    }

    /** realloc to `resizeTo` slots; `memory` says whether it succeeds. */
    method Realloc(resizeTo: nat, memory: bool) returns (tmp: array?<T>)
      requires Valid() && resizeTo >= size
      ensures tmp == null <==> !memory
      ensures tmp != null ==> fresh(tmp) && tmp.Length == resizeTo && tmp[..size] == Contents()
    {
      if !memory { return null; }
      tmp := new T[resizeTo];
      forall k | 0 <= k < size {
        tmp[k] := e[k];
      }
    }

    /** minq_push.  `memory` is the outcome of realloc should one be needed.  Returns 0, or
        -1 with the queue untouched; `cost` counts the calls of the compare function. */
    method Push(v: T, memory: bool) returns (status: int, ghost cost: nat)
      requires Valid()
      modifies this, e
      ensures Valid()
      ensures e == old(e) || fresh(e)
      ensures status == if old(size) < old(alloc) || memory then 0 else -1
      ensures status == 0 ==> Contents() == Pushed(gt, old(Contents()), v)
      ensures status == 0 ==> alloc == Grown(old(size), old(alloc))
      ensures status == 0 ==> cost == PushCost(gt, old(Contents()), v)
      ensures status != 0 ==> unchanged(this) && unchanged(e)
      ensures StrictWeakOrder(gt) && old(Ordered()) ==> Ordered()
      ensures StrictWeakOrder(gt) && old(Ordered()) && status == 0 ==>
                multiset(Contents()) == multiset(old(Contents())) + multiset{v}
      ensures status == 0 && old(size) >= 1 ==> cost <= Log2(old(size)) + 1
    {
      hide HeapOrder, StrictWeakOrder, Log2, IsMinimal;
      ghost var s := Contents();
      var room := Reserve(memory);
      if !room {
        return -1, 0;
      }
      size := size + 1;
      cost := SiftUpLast(v, s);
      status := 0;
      if StrictWeakOrder(gt) && HeapOrder(gt, s) { PushCorrect(gt, s, v); }
      if |s| >= 1 { PushCostBound(gt, s, v); }
    }

    /** Makes room for one more slot, or leaves everything as it is. */
    method Reserve(memory: bool) returns (room: bool)
      requires Valid()
      modifies this
      ensures Valid() && (e == old(e) || fresh(e))
      ensures room <==> old(size) < old(alloc) || memory
      ensures size == old(size) && Contents() == old(Contents())
      ensures room ==> alloc == Grown(old(size), old(alloc)) && size < alloc
      ensures !room ==> unchanged(this)
    {
      if size == alloc {
        var resizeTo := size + SLOTS_PER_MALLOC;
        var tmp := Realloc(resizeTo, memory);
        if tmp == null {
          return false;
        }
        e := tmp;
        alloc := resizeTo;
      }
      room := true;
    }

    /** The sift-up loop of minq_push: a hole moves up from the last slot and receives `v`. */
    method SiftUpLast(v: T, ghost s: seq<T>) returns (ghost cost: nat)
      requires Valid() && size == |s| + 1 && e[..size - 1] == s
      modifies e
      ensures Valid() && Contents() == Pushed(gt, s, v) && cost == PushCost(gt, s, v)
    {
      var i := size - 1;
      assert e[..size][i := v] == s + [v];
      HoleIrrelevant(gt, e[..size], i, v, v);
      cost := 0;
      var parent := i / 2;
      while i != 0 && gt(e[parent], v)
        invariant i < size && parent == i / 2
        invariant SiftUp(gt, e[..size], i, v) == Pushed(gt, s, v)
        invariant cost + SiftUpCost(gt, e[..size], i, v) == PushCost(gt, s, v)
        decreases i
      {
        ghost var h := e[..size];
        e[i] := e[parent];
        assert e[..size] == h[i := h[parent]];
        cost := cost + 1;
        i := parent;
        parent := i / 2;
      }
      if i != 0 { cost := cost + 1; }
      ghost var h := e[..size];
      e[i] := v;
      assert e[..size] == h[i := v];
    }

    /** has_child */
    method SmallerChild(i: nat) returns (c: nat, ghost cost: nat)
      requires Valid()
      ensures c == HasChild(gt, Contents(), i)
      ensures cost == HasChildCost(Contents(), i)
    {
      cost := 0;
      var left := 2 * i;
      if left >= size {
        return 0, 0;
      }
      var right := left + 1;
      if right < size { cost := 1; }
      if right < size && gt(e[left], e[right]) {
        return right, cost;
      }
      return left, cost;
    }

    /** minq_pop */
    method Pop() returns (ghost cost: nat)
      requires Valid()
      modifies this`size, e
      ensures Valid()
      ensures old(size) == 0 ==> unchanged(this) && unchanged(e)
      ensures old(size) > 0 ==> Contents() == Popped(gt, old(Contents()))
      ensures old(size) > 0 ==> cost == PopCost(gt, old(Contents()))
      ensures StrictWeakOrder(gt) && old(Ordered()) ==> Ordered()
      ensures StrictWeakOrder(gt) && old(Ordered()) && old(size) > 0 ==>
                && IsMinimal(gt, old(Contents())[0], multiset(old(Contents())))
                && multiset(Contents()) == multiset(old(Contents())) - multiset{old(Contents())[0]}
      ensures old(size) >= 2 ==> cost <= 2 * (Log2(size) + 1)
    {
      hide HeapOrder, StrictWeakOrder, Log2, IsMinimal;
      cost := 0;
      if size == 0 { return; }
      ghost var s := Contents();
      size := size - 1;
      e[0] := e[size];
      assert e[..size] == Reroot(s);
      cost := HeapifyDown();
      if StrictWeakOrder(gt) && HeapOrder(gt, s) { PopCorrect(gt, s); }
      if |s| >= 2 { PopCostBound(gt, s); }
    }

    /** The sift-down loop of minq_pop, from the root. */
    method HeapifyDown() returns (ghost cost: nat)
      requires Valid()
      modifies e
      ensures Contents() == SiftDown(gt, old(Contents()), 0)
      ensures cost == SiftDownCost(gt, old(Contents()), 0)
    {
      ghost var s := Contents();
      var current := 0;
      var minChild, c := SmallerChild(current);
      cost := c;
      while minChild != 0 && gt(e[current], e[minChild])
        invariant current <= size
        invariant minChild == HasChild(gt, e[..size], current)
        invariant SiftDown(gt, e[..size], current) == SiftDown(gt, s, 0)
        invariant cost + SiftDownCost(gt, e[..size], current) ==
                  SiftDownCost(gt, s, 0) + HasChildCost(e[..size], current)
        decreases size - current
      {
        ghost var h := e[..size];
        var tmp := e[current];
        e[current] := e[minChild];
        e[minChild] := tmp;
        assert e[..size] == h[current := h[minChild]][minChild := h[current]];
        current := minChild;
        minChild, c := SmallerChild(current);
        cost := cost + 1 + c;
      }
      if minChild != 0 { cost := cost + 1; }
    }

    /** minq_peek */
    method Peek() returns (r: Option<T>)
      requires Valid()
      ensures r == if size == 0 then None else Some(Contents()[0])
      ensures StrictWeakOrder(gt) && Ordered() && size > 0 ==> IsMinimal(gt, r.value, multiset(Contents()))
    {
      if size == 0 { return None; }
      if StrictWeakOrder(gt) && Ordered() { PeekMinimal(gt, Contents()); }
      return Some(e[0]);
    }

    /** minq_empty */
    predicate Empty()
      reads this
    {
      size == 0
    }
  }
}
