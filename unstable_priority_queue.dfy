/** crsc::container::unstable_priority_queue (container/unstable_priority_queue.h): the same
    binary heap, but with no class invariant.  Its top() hands out a mutable reference and
    its bubble_up, bubble_down and heapify are public, so keeping the heap valid is the
    caller's job; each method therefore states what it does to an arbitrary sequence and,
    separately, when the result is a valid heap. */
module UnstablePriorityQueue {
  import opened Heap

  class UnstablePriorityQueue {
    /** heap_cntr, laid out level by level. */
    var heap: seq<int>

    /** The container and range constructors: the elements of container followed by those
        of the range, heapified. */
    constructor (container: seq<int>, range: seq<int>)
      ensures IsHeap(heap) && heap == Heap.Heapify(container + range)
      ensures multiset(heap) == multiset(container) + multiset(range)
    {
      var h := HeapifyLoop(container + range);
      heap := h;
    }

    /** The copy constructor. */
    constructor Copy(other: UnstablePriorityQueue)
      ensures heap == other.heap
    {
      heap := other.heap;
    }

    /** The const top(): the element at index 0, which outranks every other one whenever
        the heap is valid. */
    function Top(): (t: int)
      reads this
      requires heap != []
      ensures t in heap
      ensures IsHeap(heap) ==> forall k :: 0 <= k < |heap| ==> !Comp(t, heap[k])
    {
      if IsHeap(heap) then TopOutranksAll(heap); heap[0] else heap[0]
    }

    /** Writing v through the mutable top(): only index 0 changes. */
    method SetTop(v: int)
      modifies this
      requires heap != []
      ensures heap == old(heap)[0 := v]
    {
      heap := heap[0 := v];
    }

    /** enqueue(v): push v at the back and bubble it up. */
    method Enqueue(v: int)
      modifies this
      ensures heap == Push(old(heap), v)
      ensures |heap| == |old(heap)| + 1 && multiset(heap) == multiset(old(heap)) + multiset{v}
      ensures IsHeap(old(heap)) ==> IsHeap(heap)
    {
      if IsHeap(heap) {
        PushKeepsHeap(heap, v);
      }
      heap := heap + [v];
      BubbleUp(|heap| - 1);
    }

    /** dequeue(): nothing when empty; otherwise copy the last element over the top, pop the
        back, and bubble the new top down. */
    method Dequeue()
      modifies this
      ensures heap == PopTop(old(heap))
      ensures old(heap) == [] ==> heap == []
      ensures old(heap) != [] ==>
        |heap| == |old(heap)| - 1 && multiset(heap) == multiset(old(heap)) - multiset{old(heap)[0]}
      ensures IsHeap(old(heap)) ==> IsHeap(heap)
    {
      var size := |heap|;
      if size == 0 {
        return;
      }
      ghost var s := heap;
      heap := heap[0 := heap[size - 1]];
      heap := heap[..size - 1];
      ghost var moved := heap;
      BubbleDown(0);
      CopyLastOverTop(s, moved);
    }

    /** clear(). */
    method Clear()
      modifies this
      ensures heap == []
    {
      heap := [];
    }

    /** erase(pos): the vector shift followed by one bubble_down; returns the index of the
        element that followed the erased one.  A valid heap need not stay valid. */
    method EraseAt(pos: nat) returns (next: nat)
      modifies this
      requires pos < |heap|
      ensures heap == EraseAtShift(old(heap), pos) && next == pos
      ensures multiset(heap) == multiset(old(heap)) - multiset{old(heap)[pos]}
    {
      heap := heap[..pos] + heap[pos + 1..];
      BubbleDown(pos);
      next := pos;
    }

    /** erase(first, last): drop the range, then heapify; returns first. */
    method EraseRange(first: nat, last: nat) returns (next: nat)
      modifies this
      requires first <= last <= |heap|
      ensures IsHeap(heap) && heap == Heap.EraseRange(old(heap), first, last) && next == first
      ensures multiset(heap) + multiset(old(heap)[first..last]) == multiset(old(heap))
    {
      heap := heap[..first] + heap[last..];
      Heapify();
      next := first;
    }

    /** swap(other): exchange the two heaps. */
    method Swap(other: UnstablePriorityQueue)
      modifies this, other
      ensures heap == old(other.heap) && other.heap == old(heap)
    {
      heap, other.heap := other.heap, heap;
    }

    /** The public bubble_down(pos): repairs a heap whose only defect is below pos; only
        the indices on bubble_down's path from pos move. */
    method BubbleDown(pos: nat)
      modifies this
      ensures heap == SiftDown(old(heap), pos)
      ensures multiset(heap) == multiset(old(heap))
      ensures forall k :: 0 <= k < |heap| && k !in DownPath(old(heap), pos) ==> heap[k] == old(heap)[k]
      ensures DownReady(old(heap), 0, pos) ==> IsHeap(heap)
    {
      if DownReady(heap, 0, pos) {
        SiftDownRestores(heap, 0, pos);
      }
      SiftDownMovesOnlyPath(heap, pos);
      heap := SiftDownLoop(heap, pos);
    }

    /** The public bubble_up(pos), defined for pos < size(): repairs a heap whose only
        defect is between pos and its ancestors; only pos and its ancestors move. */
    method BubbleUp(pos: nat)
      modifies this
      requires pos < |heap|
      ensures heap == SiftUp(old(heap), pos)
      ensures multiset(heap) == multiset(old(heap))
      ensures forall k :: 0 <= k < |heap| && !OnPathUp(k, pos) ==> heap[k] == old(heap)[k]
      ensures UpReady(old(heap), pos) ==> IsHeap(heap)
    {
      if UpReady(heap, pos) {
        SiftUpRestores(heap, pos);
      }
      SiftUpMovesOnlyPath(heap, pos);
      heap := SiftUpLoop(heap, pos);
    }

    /** The public heapify(): a valid heap over the same elements, unchanged when the heap
        was already valid. */
    method Heapify()
      modifies this
      ensures IsHeap(heap) && heap == Heap.Heapify(old(heap))
      ensures multiset(heap) == multiset(old(heap))
      ensures IsHeap(old(heap)) ==> heap == old(heap)
    {
      HeapifyIdempotent(heap);
      heap := HeapifyLoop(heap);
    }
  }

  /** dequeue()'s steps on a non-empty sequence: copying the last element over the top,
      popping the back and bubbling down from the top is pop_top, so it removes one copy
      of the top and keeps a valid heap valid. */
  lemma CopyLastOverTop(s: seq<int>, moved: seq<int>)
    requires s != [] && moved == s[0 := s[|s| - 1]][..|s| - 1]
    ensures SiftDown(moved, 0) == PopTop(s)
    ensures |PopTop(s)| == |s| - 1 && multiset(PopTop(s)) == multiset(s) - multiset{s[0]}
    ensures IsHeap(s) ==> IsHeap(PopTop(s))
  {
    if IsHeap(s) {
      PopTopKeepsHeap(s);
    }
  }

  /** Whatever is written through the mutable top() of a valid heap, one bubble_down(0)
      makes it valid again. */
  lemma TopWriteRepairedByBubbleDown(s: seq<int>, v: int)
    requires IsHeap(s) && s != []
    ensures IsHeap(SiftDown(s[0 := v], 0))
  {
    assert DownReady(s[0 := v], 0, 0);
    SiftDownRestores(s[0 := v], 0, 0);
  }
}
