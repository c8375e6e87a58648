/** crsc::priority_queue (priority_queue.h): a binary max-heap kept in a vector, whose
    invariant is that the heap is valid between any two method calls. */
module PriorityQueue {
  import opened Sequences
  import opened Heap

  class PriorityQueue {
    /** heap_cntr, laid out level by level. */
    var heap: seq<int>

    /** The class invariant: heap_cntr is a valid heap. */
    ghost predicate Valid()
      reads this
    {
      IsHeap(heap)
    }

    /** The container and range constructors: the elements of container followed by those
        of the range, heapified. */
    constructor (container: seq<int>, range: seq<int>)
      ensures Valid() && heap == Heapify(container + range)
      ensures multiset(heap) == multiset(container) + multiset(range)
    {
      var h := HeapifyLoop(container + range);
      heap := h;
    }

    /** The copy constructor. */
    constructor Copy(other: PriorityQueue)
      ensures heap == other.heap
    {
      heap := other.heap;
    }

    /** top(): the element at index 0, which no other element outranks. */
    function Top(): (t: int)
      reads this
      requires Valid() && heap != []
      ensures t in heap
      ensures forall k :: 0 <= k < |heap| ==> !Comp(t, heap[k])
    {
      TopOutranksAll(heap);
      heap[0]
    }

    /** find(v): the index of the first element equal to v, or size() when none is. */
    method Find(v: int) returns (i: nat)
      ensures i == IndexOf(heap, v)
    {
      i := 0;
      while i < |heap| && heap[i] != v
        invariant i <= |heap| && IndexOf(heap, v) >= i
        invariant forall j :: 0 <= j < i ==> heap[j] != v
      {
        i := i + 1;
      }
    }

    /** find(p): the index of the first element satisfying p, or size() when none does. */
    method FindIf(p: int -> bool) returns (i: nat)
      ensures i == FirstWhere(heap, p)
    {
      i := 0;
      while i < |heap| && !p(heap[i])
        invariant i <= |heap| && FirstWhere(heap, p) >= i
      {
        i := i + 1;
      }
    }

    /** find_all(v): exactly the positions holding v. */
    method FindAll(v: int) returns (found: set<int>)
      ensures forall i :: i in found <==> 0 <= i < |heap| && heap[i] == v
    {
      found := {};
      var k := 0;
      while k < |heap|
        invariant k <= |heap|
        invariant forall i :: i in found <==> 0 <= i < k && heap[i] == v
      {
        if heap[k] == v {
          found := found + {k};
        }
        k := k + 1;
      }
    }

    /** find_all(p): exactly the positions whose element satisfies p. */
    method FindAllIf(p: int -> bool) returns (found: set<int>)
      ensures found == PositionsWhere(heap, p)
    {
      found := {};
      var k := 0;
      while k < |heap|
        invariant k <= |heap|
        invariant forall i :: i in found <==> 0 <= i < k && p(heap[i])
      {
        if p(heap[k]) {
          found := found + {k};
        }
        k := k + 1;
      }
    }

    /** enqueue(v) and emplace: push v at the back and bubble it up. */
    method Enqueue(v: int)
      modifies this
      requires Valid()
      ensures Valid() && heap == Push(old(heap), v)
      ensures |heap| == |old(heap)| + 1 && multiset(heap) == multiset(old(heap)) + multiset{v}
    {
      PushKeepsHeap(heap, v);
      heap := heap + [v];
      heap := SiftUpLoop(heap, |heap| - 1);
    }

    /** dequeue() through pop_top(): nothing when empty; otherwise swap the top with the
        last element, pop the back, and bubble the new top down. */
    method Dequeue()
      modifies this
      requires Valid()
      ensures Valid() && heap == PopTop(old(heap))
      ensures old(heap) == [] ==> heap == []
      ensures old(heap) != [] ==>
        |heap| == |old(heap)| - 1 && multiset(heap) == multiset(old(heap)) - multiset{old(heap)[0]}
    {
      if heap == [] {
        return;
      }
      ghost var s := heap;
      var last := |heap| - 1;
      heap := Heap.Swap(heap, 0, last);
      heap := heap[..last];
      ghost var moved := heap;
      heap := SiftDownLoop(heap, 0);
      SwapTopWithLast(s, moved);
    }

    /** clear(). */
    method Clear()
      modifies this
      ensures Valid() && heap == []
    {
      heap := [];
    }

    /** alter(pos, v): overwrite the element at pos, then bubble up when v outranks the old
        value and bubble down otherwise. */
    method AlterAt(pos: nat, v: int)
      modifies this
      requires Valid() && pos < |heap|
      ensures Valid() && heap == Heap.AlterAt(old(heap), pos, v)
      ensures multiset(heap) == multiset(old(heap)) - multiset{old(heap)[pos]} + multiset{v}
    {
      AlterAtKeepsHeap(heap, pos, v);
      var up := Comp(heap[pos], v);
      heap := heap[pos := v];
      if up {
        heap := SiftUpLoop(heap, pos);
      } else {
        heap := SiftDownLoop(heap, pos);
      }
    }

    /** alter({target, v}): the first element equal to target becomes v, by the alter rule;
        nothing changes when target is absent. */
    method Alter(target: int, v: int)
      modifies this
      requires Valid()
      ensures Valid()
      ensures target !in old(heap) ==> heap == old(heap)
      ensures target in old(heap) ==>
        heap == Heap.AlterAt(old(heap), IndexOf(old(heap), target), v) &&
        multiset(heap) == multiset(old(heap)) - multiset{target} + multiset{v}
    {
      var i := Find(target);
      if i < |heap| {
        AlterAt(i, v);
      }
    }

    /** alter(v, p): the first element satisfying p becomes v, by the alter rule; nothing
        changes when no element satisfies p. */
    method AlterIf(v: int, p: int -> bool)
      modifies this
      requires Valid()
      ensures Valid()
      ensures FirstWhere(old(heap), p) == |old(heap)| ==> heap == old(heap)
      ensures FirstWhere(old(heap), p) < |old(heap)| ==>
        heap == Heap.AlterAt(old(heap), FirstWhere(old(heap), p), v)
    {
      var i := FindIf(p);
      if i < |heap| {
        AlterAt(i, v);
      }
    }

    /** alter_all({target, v}): every element equal to target becomes v, then heapify. */
    method AlterAll(target: int, v: int)
      modifies this
      ensures Valid() && heap == Heapify(ReplaceWhere(old(heap), x => x == target, v))
    {
      AlterAllIf(v, x => x == target);
    }

    /** alter_all(v, p): every element satisfying p becomes v, then heapify. */
    method AlterAllIf(v: int, p: int -> bool)
      modifies this
      ensures Valid() && heap == Heapify(ReplaceWhere(old(heap), p, v))
    {
      var k := 0;
      while k < |heap|
        invariant k <= |heap| == |old(heap)|
        invariant forall i :: 0 <= i < k ==> heap[i] == (if p(old(heap)[i]) then v else old(heap)[i])
        invariant forall i :: k <= i < |heap| ==> heap[i] == old(heap)[i]
      {
        if p(heap[k]) {
          heap := heap[k := v];
        }
        k := k + 1;
      }
      assert heap == ReplaceWhere(old(heap), p, v);
      heap := HeapifyLoop(heap);
    }

    /** erase(pos) as written: the vector shift followed by one bubble_down, which does not
        always restore the invariant (see EraseAtShiftBreaksHeap). */
    method EraseAt(pos: nat)
      modifies this
      requires pos < |heap|
      ensures heap == EraseAtShift(old(heap), pos)
      ensures |heap| == |old(heap)| - 1
      ensures multiset(heap) == multiset(old(heap)) - multiset{old(heap)[pos]}
    {
      heap := heap[..pos] + heap[pos + 1..];
      heap := SiftDownLoop(heap, pos);
    }

    /** erase(v): erase(pos) at the first element equal to v; v must be present. */
    method EraseValue(v: int)
      modifies this
      requires v in heap
      ensures heap == EraseAtShift(old(heap), IndexOf(old(heap), v))
      ensures multiset(heap) == multiset(old(heap)) - multiset{v}
    {
      var i := Find(v);
      EraseAt(i);
    }

    /** erase(first, last): drop the range, then heapify. */
    method EraseRange(first: nat, last: nat)
      modifies this
      requires first <= last <= |heap|
      ensures Valid() && heap == Heap.EraseRange(old(heap), first, last)
      ensures multiset(heap) + multiset(old(heap)[first..last]) == multiset(old(heap))
    {
      heap := heap[..first] + heap[last..];
      heap := HeapifyLoop(heap);
    }

    /** swap(other): exchange the two heaps. */
    method Swap(other: PriorityQueue)
      modifies this, other
      ensures heap == old(other.heap) && other.heap == old(heap)
    {
      heap, other.heap := other.heap, heap;
    }
  }

  /** dequeue()'s steps on a non-empty heap: swapping the top with the last element,
      popping the back and bubbling down from the top is pop_top, so the heap stays valid
      and loses one copy of its top. */
  lemma SwapTopWithLast(s: seq<int>, moved: seq<int>)
    requires s != [] && moved == Heap.Swap(s, 0, |s| - 1)[..|s| - 1]
    ensures SiftDown(moved, 0) == PopTop(s)
    ensures IsHeap(s) ==> IsHeap(PopTop(s))
  {
    PopTopBySwap(s);
    if IsHeap(s) {
      PopTopKeepsHeap(s);
    }
  }
}
