/** An array-backed binary max-heap ordered by a priority function.
    Position `i` has its children at `2i + 1` and `2i + 2`, so the heap is a
    complete binary tree stored level by level. */
module PriorityQueue {
  import opened Failures

  // ---------------------------------------------------------------------
  // Index arithmetic

  /** The parent of position `c`; `Math.floor((c - 1) / 2)`, which Dafny's
      division by a positive divisor computes for every `c`. */
  function ParentIndex(c: int): int {
    (c - 1) / 2
  }

  function LeftChildIndex(p: int): int {
    p * 2 + 1
  }

  function RightChildIndex(p: int): int {
    p * 2 + 2
  }

  /** Every position after the root has a smaller parent, whose left or right
      child it is, and both children of a position have it as their parent. */
  lemma ParentChildInverse(c: int, p: int)
    requires 0 <= p
    ensures ParentIndex(LeftChildIndex(p)) == p && ParentIndex(RightChildIndex(p)) == p
    ensures 0 < c ==> 0 <= ParentIndex(c) < c
    ensures 0 < c ==> c == LeftChildIndex(ParentIndex(c)) || c == RightChildIndex(ParentIndex(c))
  {
  }

  // ---------------------------------------------------------------------
  // Heap order

  /** No element has a strictly higher priority than its parent. */
  ghost predicate HeapOrdered<T>(h: seq<T>, priority: T -> int) {
    forall i :: 0 < i < |h| ==> priority(h[i]) <= priority(h[ParentIndex(i)])
  }

  /** In a heap-ordered sequence the first element has the highest priority. */
  lemma {:induction false} RootIsMax<T>(h: seq<T>, priority: T -> int, i: int)
    requires HeapOrdered(h, priority) && 0 <= i < |h|
    ensures priority(h[i]) <= priority(h[0])
    decreases i
  {
    if i > 0 {
      RootIsMax(h, priority, ParentIndex(i));
    }
  }

  /** Heap order everywhere except between position `p` and its children. */
  ghost predicate OrderedBelowExcept<T>(h: seq<T>, priority: T -> int, p: int) {
    forall i :: 0 < i < |h| && ParentIndex(i) != p ==> priority(h[i]) <= priority(h[ParentIndex(i)])
  }

  /** Heap order everywhere except between position `c` and its parent. */
  ghost predicate OrderedAboveExcept<T>(h: seq<T>, priority: T -> int, c: int) {
    forall i :: 0 < i < |h| && i != c ==> priority(h[i]) <= priority(h[ParentIndex(i)])
  }

  /** The children of a non-root position `p` are not above `p`'s parent. */
  ghost predicate ChildrenBelowGrandparent<T>(h: seq<T>, priority: T -> int, p: int) {
    forall i :: 0 < i < |h| && ParentIndex(i) == p && 0 < p ==> priority(h[i]) <= priority(h[ParentIndex(p)])
  }

  /** One step of the downward pass: swapping `p` with its child `m` of
      highest priority, which is above `p`, moves the one defect to `m`. */
  lemma SiftDownStep<T>(h: seq<T>, priority: T -> int, p: int, m: int)
    requires 0 <= p < m < |h| && ParentIndex(m) == p
    requires OrderedBelowExcept(h, priority, p) && ChildrenBelowGrandparent(h, priority, p)
    requires priority(h[p]) < priority(h[m])
    requires LeftChildIndex(p) < |h| ==> priority(h[LeftChildIndex(p)]) <= priority(h[m])
    requires RightChildIndex(p) < |h| ==> priority(h[RightChildIndex(p)]) <= priority(h[m])
    ensures OrderedBelowExcept(h[p := h[m]][m := h[p]], priority, m)
    ensures ChildrenBelowGrandparent(h[p := h[m]][m := h[p]], priority, m)
  {
    var h' := h[p := h[m]][m := h[p]];
    forall i | 0 < i < |h'| && ParentIndex(i) != m
      ensures priority(h'[i]) <= priority(h'[ParentIndex(i)])
    {
      ParentChildInverse(i, p);
      if ParentIndex(i) == p {
        assert i == LeftChildIndex(p) || i == RightChildIndex(p);
      }
    }
  }

  /** Moving the last element to the root and dropping the last position
      removes the root's element and leaves only the root out of order. */
  lemma RootReplacedByLast<T>(h: seq<T>, priority: T -> int)
    requires HeapOrdered(h, priority) && |h| > 0
    ensures var h' := h[0 := h[|h| - 1]][..|h| - 1];
      && multiset(h') == multiset(h) - multiset{h[0]}
      && (forall x :: x in h' ==> priority(x) <= priority(h[0]))
      && OrderedBelowExcept(h', priority, 0)
  {
    var h' := h[0 := h[|h| - 1]][..|h| - 1];
    assert h == [h[0]] + h[1..];
    if |h| > 1 {
      assert h' == [h[|h| - 1]] + h[1..|h| - 1];
      assert h[1..] == h[1..|h| - 1] + [h[|h| - 1]];
    }
    forall x | x in h'
      ensures priority(x) <= priority(h[0])
    {
      var i :| 0 <= i < |h'| && h'[i] == x;
      RootIsMax(h, priority, if i == 0 then |h| - 1 else i);
    }
  }

  /** One step of the upward pass: swapping `c` with its parent, which it
      is above, moves the one defect to the parent. */
  lemma SiftUpKeepsOrder<T>(h: seq<T>, priority: T -> int, c: int)
    requires 0 < c < |h|
    requires OrderedAboveExcept(h, priority, c) && ChildrenBelowGrandparent(h, priority, c)
    requires priority(h[ParentIndex(c)]) < priority(h[c])
    ensures var p := ParentIndex(c); OrderedAboveExcept(h[c := h[p]][p := h[c]], priority, p)
  {
    var p := ParentIndex(c);
    var h' := h[c := h[p]][p := h[c]];
    ParentChildInverse(c, p);
    forall i | 0 < i < |h'| && i != p
      ensures priority(h'[i]) <= priority(h'[ParentIndex(i)])
    {
      ParentChildInverse(i, 0);
    }
  }

  /** After that swap, the children of the parent position are not above
      its own parent. */
  lemma SiftUpKeepsGrandparent<T>(h: seq<T>, priority: T -> int, c: int)
    requires 0 < c < |h|
    requires OrderedAboveExcept(h, priority, c)
    requires priority(h[ParentIndex(c)]) < priority(h[c])
    ensures var p := ParentIndex(c); ChildrenBelowGrandparent(h[c := h[p]][p := h[c]], priority, p)
  {
    var p := ParentIndex(c);
    var h' := h[c := h[p]][p := h[c]];
    ParentChildInverse(c, p);
    forall i | 0 < i < |h'| && ParentIndex(i) == p && 0 < p
      ensures priority(h'[i]) <= priority(h'[ParentIndex(p)])
    {
      ParentChildInverse(p, 0);
    }
  }

  /** When `c` is the root or not above its parent, the one possible defect
      is absent and the whole sequence is in heap order. */
  lemma SiftUpDone<T>(h: seq<T>, priority: T -> int, c: int)
    requires 0 <= c < |h| && OrderedAboveExcept(h, priority, c)
    requires 0 < c ==> priority(h[c]) <= priority(h[ParentIndex(c)])
    ensures HeapOrdered(h, priority)
  {
  }

  /** When neither child of `p` is above it, the one possible defect is
      absent and the whole sequence is in heap order. */
  lemma SiftDownDone<T>(h: seq<T>, priority: T -> int, p: int)
    requires 0 <= p && OrderedBelowExcept(h, priority, p)
    requires LeftChildIndex(p) < |h| ==> priority(h[LeftChildIndex(p)]) <= priority(h[p])
    requires RightChildIndex(p) < |h| ==> priority(h[RightChildIndex(p)]) <= priority(h[p])
    ensures HeapOrdered(h, priority)
  {
    forall i | 0 < i < |h| && ParentIndex(i) == p
      ensures priority(h[i]) <= priority(h[p])
    {
      ParentChildInverse(i, p);
    }
  }

  /** Exchanging two positions is a permutation. */
  lemma SwapPermutes<T>(h: seq<T>, i: int, j: int)
    requires 0 <= i < |h| && 0 <= j < |h|
    ensures multiset(h[i := h[j]][j := h[i]]) == multiset(h)
  {
    var s := h[i := h[j]];
    assert multiset(s) == multiset(h) - multiset{h[i]} + multiset{h[j]};
    assert multiset(s[j := h[i]]) == multiset(s) - multiset{s[j]} + multiset{h[i]};
  }

  class Heap<T> {
    var heap: seq<T>
    /** The comparator as a priority: `compare(a, b) > 0` exactly when
        `priority(a) > priority(b)`. */
    const priority: T -> int

    ghost predicate Valid()
      reads this
    {
      HeapOrdered(heap, priority)
    }

    /** The stored elements. */
    ghost function Contents(): multiset<T>
      reads this
    {
      multiset(heap)
    }

    constructor (priority: T -> int)
      ensures Valid() && Contents() == multiset{} && this.priority == priority
    {
      heap := [];
      this.priority := priority;
    }

    /** The number of stored elements. */
    function Size(): (n: nat)
      reads this
      ensures n == |Contents()|
    {
      |heap|
    }

    function IsValidIndex(i: int): (b: bool)
      reads this
      ensures b ==> 0 <= i < |heap|
    {
      0 <= i < |heap|
    }

    /** Whether position `i` has strictly higher priority than position `j`,
        a position past the end having the lowest priority of all. At least
        one of the two positions holds an element. */
    function IsBig(i: int, j: int): (b: bool)
      reads this
      requires IsValidIndex(i) || IsValidIndex(j)
      ensures b ==> IsValidIndex(i)
      ensures IsValidIndex(i) && !IsValidIndex(j) ==> b
      ensures IsValidIndex(i) && IsValidIndex(j) ==> (b <==> priority(heap[j]) < priority(heap[i]))
    {
      if IsValidIndex(i) && !IsValidIndex(j) then true
      else if !IsValidIndex(i) && IsValidIndex(j) then false
      else priority(heap[i]) > priority(heap[j])
    }

    /** Appends `value` and restores the heap order. */
    method Enqueue(value: T)
      requires Valid()
      modifies this
      ensures Valid()
      ensures Contents() == old(Contents()) + multiset{value}
      ensures Size() == old(Size()) + 1
    {
      heap := heap + [value];
      ReheapificationUpward();
    }

    /** Takes out the element with the highest priority, which was at the
        root; an empty heap is an error and is left as it was. */
    method Dequeue() returns (result: Result<T>)
      requires Valid()
      modifies this
      ensures Valid()
      ensures result.Err? <==> old(Size()) == 0
      ensures result.Err? ==> result.error == EmptyQueue && heap == old(heap)
      ensures result.Ok? ==>
        && result.value == old(heap[0])
        && Contents() == old(Contents()) - multiset{result.value}
        && Size() == old(Size()) - 1
        && forall x :: x in Contents() ==> priority(x) <= priority(result.value)
    {
      if |heap| == 0 {
        return Err(EmptyQueue);
      }
      var root := heap[0];
      ghost var h := heap;
      RootReplacedByLast(h, priority);
      heap := heap[0 := heap[|heap| - 1]][..|heap| - 1];
      ReheapificationDownward();
      assert multiset(heap) == multiset(h) - multiset{root} && |heap| == |h| - 1;
      result := Ok(root);
    }

    /** Moves the last element up, swapping it with its parent while it has
        strictly higher priority. Every other position is in heap order with
        its parent beforehand. */
    method ReheapificationUpward()
      requires |heap| > 0 && OrderedAboveExcept(heap, priority, |heap| - 1)
      modifies this
      ensures Valid()
      ensures Contents() == old(Contents())
      ensures |heap| == old(|heap|)
    {
      var childIndex := |heap| - 1;
      var parentIndex := ParentIndex(childIndex);
      while childIndex > 0 && IsBig(childIndex, parentIndex)
        invariant 0 <= childIndex < |heap| && parentIndex == ParentIndex(childIndex)
        invariant |heap| == old(|heap|) && multiset(heap) == old(multiset(heap))
        invariant OrderedAboveExcept(heap, priority, childIndex)
        invariant ChildrenBelowGrandparent(heap, priority, childIndex)
        decreases childIndex
      {
        ghost var h := heap;
        assert priority(h[parentIndex]) < priority(h[childIndex]);
        SwapPermutes(h, childIndex, parentIndex);
        SiftUpKeepsOrder(h, priority, childIndex);
        SiftUpKeepsGrandparent(h, priority, childIndex);
        heap := heap[childIndex := heap[parentIndex]][parentIndex := heap[childIndex]];
        childIndex := parentIndex;
        parentIndex := ParentIndex(childIndex);
      }
      SiftUpDone(heap, priority, childIndex);
    }

    /** Moves the root down, swapping it with its higher-priority child (the
        right one on a tie) while some child has strictly higher priority.
        Every position whose parent is not the root is in heap order
        beforehand. */
    method ReheapificationDownward()
      requires OrderedBelowExcept(heap, priority, 0)
      modifies this
      ensures Valid()
      ensures Contents() == old(Contents())
      ensures |heap| == old(|heap|)
    {
      var parentIndex := 0;
      var leftChildIndex := LeftChildIndex(parentIndex);
      var rightChildIndex := RightChildIndex(parentIndex);
      while leftChildIndex < |heap| && (IsBig(leftChildIndex, parentIndex) || IsBig(rightChildIndex, parentIndex))
        invariant 0 <= parentIndex && (parentIndex < |heap| || |heap| == 0)
        invariant leftChildIndex == LeftChildIndex(parentIndex) && rightChildIndex == RightChildIndex(parentIndex)
        invariant |heap| == old(|heap|) && multiset(heap) == old(multiset(heap))
        invariant OrderedBelowExcept(heap, priority, parentIndex)
        invariant ChildrenBelowGrandparent(heap, priority, parentIndex)
        decreases |heap| - parentIndex
      {
        var largeChildIndex;
        if rightChildIndex >= |heap| {
          largeChildIndex := leftChildIndex;
        } else {
          largeChildIndex := if IsBig(leftChildIndex, rightChildIndex) then leftChildIndex else rightChildIndex;
        }
        ghost var h := heap;
        assert priority(h[parentIndex]) < priority(h[largeChildIndex]);
        SwapPermutes(h, parentIndex, largeChildIndex);
        SiftDownStep(h, priority, parentIndex, largeChildIndex);
        heap := heap[parentIndex := heap[largeChildIndex]][largeChildIndex := heap[parentIndex]];
        parentIndex := largeChildIndex;
        leftChildIndex := LeftChildIndex(parentIndex);
        rightChildIndex := RightChildIndex(parentIndex);
      }
      if 0 < |heap| {
        SiftDownDone(heap, priority, parentIndex);
      }
    }
  }
}
