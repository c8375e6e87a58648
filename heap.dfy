/** The binary-heap engine behind crsc::priority_queue (priority_queue.h) and
    crsc::container::unstable_priority_queue (container/unstable_priority_queue.h).

    The heap is a sequence laid out level by level: the children of index i sit at 2*i + 1
    and 2*i + 2, its parent at (i - 1) / 2.  bubble_down, bubble_up, heapify and the pop of
    the top element are the same code in both queues, so they are defined here once, as
    recursive functions mirroring the C++ recursion, and the loops that run them are
    methods proved equal to those functions. */
module Heap {
  import opened Sequences

  /** The comparator of both queues, instantiated with std::less<int>: Comp(a, b) means that
      b has the higher priority, so the queues are max-heaps. */
  predicate Comp(a: int, b: int) { a < b }

  /** Every child whose parent sits at index lo or beyond is not of higher priority than
      that parent. */
  predicate HeapFrom(s: seq<int>, lo: nat) {
    forall p, c :: lo <= p < c < |s| && p == (c - 1) / 2 ==> !Comp(s[p], s[c])
  }

  /** The heap invariant of crsc::priority_queue. */
  predicate IsHeap(s: seq<int>) { HeapFrom(s, 0) }

  /** s with the elements at i and j exchanged (std::swap on two slots). */
  function Swap(s: seq<int>, i: nat, j: nat): (r: seq<int>)
    requires i < |s| && j < |s|
    ensures |r| == |s| && r[i] == s[j] && r[j] == s[i]
    ensures forall k :: 0 <= k < |s| && k != i && k != j ==> r[k] == s[k]
    ensures multiset(r) == multiset(s)
  {
    s[i := s[j]][j := s[i]]
  }

  /** The index one step of bubble_down moves the element at pos to: pos itself when no
      child outranks it; otherwise the left child, or the right child when that outranks
      both pos and the left child. */
  function Pick(s: seq<int>, pos: nat): (m: nat)
    requires 2 * pos + 1 < |s|
    ensures m == pos || m == 2 * pos + 1 || (m == 2 * pos + 2 && m < |s|)
    ensures !Comp(s[m], s[pos]) && !Comp(s[m], s[2 * pos + 1])
    ensures 2 * pos + 2 < |s| ==> !Comp(s[m], s[2 * pos + 2])
    ensures m != pos ==> Comp(s[pos], s[m])
    ensures m == 2 * pos + 2 ==> Comp(s[2 * pos + 1], s[m])
  {
    var left, right := 2 * pos + 1, 2 * pos + 2;
    var best := if Comp(s[pos], s[left]) then left else pos;
    if right < |s| && Comp(s[best], s[right]) then right else best
  }

  /** bubble_down(pos): while a child outranks the element at pos, swap it with the
      higher-priority child and continue from there.  Only the indices on DownPath(s, pos)
      move (SiftDownMovesOnlyPath). */
  function SiftDown(s: seq<int>, pos: nat): (r: seq<int>)
    ensures |r| == |s| && multiset(r) == multiset(s)
    ensures forall k :: 0 <= k < pos && k < |s| ==> r[k] == s[k]
    decreases |s| - pos
  {
    if 2 * pos + 1 >= |s| then s
    else
      var m := Pick(s, pos);
      if m == pos then s else SiftDown(Swap(s, pos, m), m)
  }

  /** bubble_up(pos): while the element at pos outranks its parent, swap the two and
      continue from the parent.  Only pos and its ancestors move (SiftUpMovesOnlyPath). */
  function SiftUp(s: seq<int>, pos: nat): (r: seq<int>)
    requires pos < |s|
    ensures |r| == |s| && multiset(r) == multiset(s)
    ensures forall k :: pos < k < |s| ==> r[k] == s[k]
    decreases pos
  {
    if pos == 0 then s
    else
      var parent := (pos - 1) / 2;
      if Comp(s[parent], s[pos]) then SiftUp(Swap(s, pos, parent), parent) else s
  }

  /** k is p or one of p's ancestors: the indices bubble_up(p) passes through. */
  predicate OnPathUp(k: nat, p: nat)
    decreases p
  {
    k == p || (p > 0 && OnPathUp(k, (p - 1) / 2))
  }

  /** bubble_up(pos) moves only pos and its ancestors: every other element stays put. */
  lemma {:induction false} SiftUpMovesOnlyPath(s: seq<int>, pos: nat)
    requires pos < |s|
    ensures forall k :: 0 <= k < |s| && !OnPathUp(k, pos) ==> SiftUp(s, pos)[k] == s[k]
    decreases pos
  {
    if pos > 0 {
      var parent := (pos - 1) / 2;
      if Comp(s[parent], s[pos]) {
        SiftUpMovesOnlyPath(Swap(s, pos, parent), parent);
        forall k | 0 <= k < |s| && !OnPathUp(k, pos) ensures SiftUp(s, pos)[k] == s[k] {
          assert !OnPathUp(k, parent) && k != pos && k != parent;
        }
      }
    }
  }

  /** The indices bubble_down(pos) passes through: pos, then each child it swaps with, one
      level further down each time. */
  function DownPath(s: seq<int>, pos: nat): (path: seq<nat>)
    ensures path != [] && path[0] == pos
    ensures forall t :: 0 < t < |path| ==>
      path[t] < |s| && (path[t] == 2 * path[t - 1] + 1 || path[t] == 2 * path[t - 1] + 2)
    decreases |s| - pos
  {
    if 2 * pos + 1 >= |s| then [pos]
    else
      var m := Pick(s, pos);
      if m == pos then [pos] else [pos] + DownPath(Swap(s, pos, m), m)
  }

  /** bubble_down(pos) moves only the indices on its path: every other element stays put. */
  lemma {:induction false} SiftDownMovesOnlyPath(s: seq<int>, pos: nat)
    ensures forall k :: 0 <= k < |s| && k !in DownPath(s, pos) ==> SiftDown(s, pos)[k] == s[k]
    decreases |s| - pos
  {
    if 2 * pos + 1 < |s| {
      var m := Pick(s, pos);
      if m != pos {
        var t := Swap(s, pos, m);
        SiftDownMovesOnlyPath(t, m);
        forall k | 0 <= k < |s| && k !in DownPath(s, pos) ensures SiftDown(s, pos)[k] == s[k] {
          assert DownPath(s, pos) == [pos] + DownPath(t, m);
          assert k != pos && k !in DownPath(t, m) && k != m;
        }
      }
    }
  }

  /** The state bubble_down(pos) repairs: the heap property holds from lo on except below
      pos, and pos's parent, when it counts, already outranks pos's children. */
  predicate DownReady(s: seq<int>, lo: nat, pos: nat) {
    && lo <= pos
    && (forall p, c :: lo <= p < c < |s| && p == (c - 1) / 2 && p != pos ==> !Comp(s[p], s[c]))
    && (0 < pos < |s| && lo <= (pos - 1) / 2 ==>
          forall c :: pos < c < |s| && pos == (c - 1) / 2 ==> !Comp(s[(pos - 1) / 2], s[c]))
  }

  /** One swap of bubble_down moves the defect one level down. */
  lemma SiftDownStep(s: seq<int>, lo: nat, pos: nat)
    requires DownReady(s, lo, pos) && 2 * pos + 1 < |s| && Pick(s, pos) != pos
    ensures DownReady(Swap(s, pos, Pick(s, pos)), lo, Pick(s, pos))
  {
    var m := Pick(s, pos);
    var t := Swap(s, pos, m);
    forall p, c | lo <= p < c < |t| && p == (c - 1) / 2 && p != m
      ensures !Comp(t[p], t[c])
    {
      if p == pos {
        assert c == 2 * pos + 1 || c == 2 * pos + 2;
      } else if c == pos {
        assert t[p] == s[p] && t[c] == s[m];
      } else if c == m {
      } else {
      }
    }
  }

  /** bubble_down(pos) restores the heap property from lo on. */
  lemma {:induction false} SiftDownRestores(s: seq<int>, lo: nat, pos: nat)
    requires DownReady(s, lo, pos)
    ensures HeapFrom(SiftDown(s, pos), lo)
    decreases |s| - pos
  {
    if 2 * pos + 1 < |s| {
      var m := Pick(s, pos);
      if m != pos {
        SiftDownStep(s, lo, pos);
        SiftDownRestores(Swap(s, pos, m), lo, m);
      } else {
        forall p, c | lo <= p < c < |s| && p == (c - 1) / 2 ensures !Comp(s[p], s[c]) {
          if p == pos { assert c == 2 * pos + 1 || c == 2 * pos + 2; }
        }
      }
    }
  }

  /** The state bubble_up(pos) repairs: the heap property holds everywhere except between
      pos and its parent, and pos's parent already outranks pos's children. */
  predicate UpReady(s: seq<int>, pos: nat) {
    && pos < |s|
    && (forall p, c :: 0 <= p < c < |s| && p == (c - 1) / 2 && c != pos ==> !Comp(s[p], s[c]))
    && (0 < pos ==>
          forall c :: pos < c < |s| && pos == (c - 1) / 2 ==> !Comp(s[(pos - 1) / 2], s[c]))
  }

  /** One swap of bubble_up moves the defect one level up. */
  lemma SiftUpStep(s: seq<int>, pos: nat)
    requires UpReady(s, pos) && pos > 0 && Comp(s[(pos - 1) / 2], s[pos])
    ensures UpReady(Swap(s, pos, (pos - 1) / 2), (pos - 1) / 2)
  {
    var q := (pos - 1) / 2;
    var t := Swap(s, pos, q);
    forall p, c | 0 <= p < c < |t| && p == (c - 1) / 2 && c != q
      ensures !Comp(t[p], t[c])
    {
      if p == q {
      } else if p == pos {
        assert t[p] == s[q];
      } else if c == pos {
      } else {
      }
    }
    if q > 0 {
      forall c | q < c < |t| && q == (c - 1) / 2 ensures !Comp(t[(q - 1) / 2], t[c]) {
        assert t[(q - 1) / 2] == s[(q - 1) / 2];
        if c == pos {
        } else {
          assert !Comp(s[(q - 1) / 2], s[q]);
        }
      }
    }
  }

  /** bubble_up(pos) restores the heap property everywhere. */
  lemma {:induction false} SiftUpRestores(s: seq<int>, pos: nat)
    requires UpReady(s, pos)
    ensures IsHeap(SiftUp(s, pos))
    decreases pos
  {
    if pos > 0 && Comp(s[(pos - 1) / 2], s[pos]) {
      SiftUpStep(s, pos);
      SiftUpRestores(Swap(s, pos, (pos - 1) / 2), (pos - 1) / 2);
    }
  }

  /** heapify's descending loop: bubble_down from index k - 1, then k - 2, down to 0. */
  function HeapifyFrom(s: seq<int>, k: nat): (r: seq<int>)
    ensures |r| == |s|
    decreases k
  {
    if k == 0 then s else HeapifyFrom(SiftDown(s, k - 1), k - 1)
  }

  /** Each bubble_down of the loop only swaps, so the loop keeps the elements. */
  lemma {:induction false} HeapifyFromPermutes(s: seq<int>, k: nat)
    ensures multiset(HeapifyFrom(s, k)) == multiset(s)
    decreases k
  {
    if k > 0 {
      HeapifyFromPermutes(SiftDown(s, k - 1), k - 1);
    }
  }

  /** If the heap property already holds from k on, the rest of the loop establishes it
      everywhere. */
  lemma {:induction false} HeapifyFromRestores(s: seq<int>, k: nat)
    requires k <= |s| && HeapFrom(s, k)
    ensures IsHeap(HeapifyFrom(s, k))
    decreases k
  {
    if k > 0 {
      assert DownReady(s, k - 1, k - 1);
      SiftDownRestores(s, k - 1, k - 1);
      HeapifyFromRestores(SiftDown(s, k - 1), k - 1);
    }
  }

  /** One turn of heapify's loop: bubble_down from k - 1, then the rest of the loop. */
  lemma HeapifyFromUnfold(s: seq<int>, next: seq<int>, k: nat)
    requires k > 0 && next == SiftDown(s, k - 1)
    ensures HeapifyFrom(s, k) == HeapifyFrom(next, k - 1)
  {
  }

  /** heapify(): a valid heap over the same elements, whatever the starting order. */
  function Heapify(s: seq<int>): (r: seq<int>)
    ensures IsHeap(r) && |r| == |s| && multiset(r) == multiset(s)
  {
    HeapifyFromRestores(s, |s|);
    HeapifyFromPermutes(s, |s|);
    HeapifyFrom(s, |s|)
  }

  /** On a heap, bubble_down from any position performs no swap. */
  lemma SiftDownOnHeap(s: seq<int>, pos: nat)
    requires IsHeap(s)
    ensures SiftDown(s, pos) == s
  {
    if 2 * pos + 1 < |s| {
      assert !Comp(s[pos], s[2 * pos + 1]);
      assert 2 * pos + 2 < |s| ==> !Comp(s[pos], s[2 * pos + 2]);
    }
  }

  /** On a heap, the heapify loop performs no swap. */
  lemma {:induction false} HeapifyFromOnHeap(s: seq<int>, k: nat)
    requires IsHeap(s)
    ensures HeapifyFrom(s, k) == s
    decreases k
  {
    if k > 0 {
      SiftDownOnHeap(s, k - 1);
      HeapifyFromUnfold(s, s, k);
      HeapifyFromOnHeap(s, k - 1);
    }
  }

  /** heapify leaves a valid heap as it is, so applying it twice is applying it once. */
  lemma HeapifyIdempotent(s: seq<int>)
    ensures IsHeap(s) ==> Heapify(s) == s
    ensures Heapify(Heapify(s)) == Heapify(s)
  {
    if IsHeap(s) { HeapifyFromOnHeap(s, |s|); }
    HeapifyFromOnHeap(Heapify(s), |s|);
  }

  /** No element of a heap outranks the element at index 0 (the queue's top()). */
  lemma {:induction false} TopIsMax(s: seq<int>, k: nat)
    requires IsHeap(s) && k < |s|
    ensures !Comp(s[0], s[k])
    decreases k
  {
    if k > 0 { TopIsMax(s, (k - 1) / 2); }
  }

  /** The same fact for every index at once. */
  lemma TopOutranksAll(s: seq<int>)
    requires IsHeap(s)
    ensures forall k :: 0 <= k < |s| ==> !Comp(s[0], s[k])
  {
    forall k | 0 <= k < |s| ensures !Comp(s[0], s[k]) { TopIsMax(s, k); }
  }

  /** pop_top(): nothing on an empty heap; otherwise the last element replaces the top,
      the last slot is dropped, and the new top is bubbled down. */
  function PopTop(s: seq<int>): (r: seq<int>)
    ensures s == [] ==> r == []
    ensures s != [] ==> |r| == |s| - 1 && multiset(r) == multiset(s) - multiset{s[0]}
  {
    if s == [] then []
    else
      var u := s[0 := s[|s| - 1]];
      var t := u[..|s| - 1];
      assert u == t + [s[|s| - 1]];
      assert multiset(u) == multiset(s) - multiset{s[0]} + multiset{s[|s| - 1]};
      assert multiset(t) == multiset(u) - multiset{s[|s| - 1]};
      SiftDown(t, 0)
  }

  /** Swapping the top with the last element and then dropping the last slot, as
      priority_queue's dequeue does, leaves the same sequence as copying the last element
      over the top, as pop_top does; so either way the result is pop_top's. */
  lemma PopTopBySwap(s: seq<int>)
    requires s != []
    ensures Swap(s, 0, |s| - 1)[..|s| - 1] == s[0 := s[|s| - 1]][..|s| - 1]
    ensures PopTop(s) == SiftDown(Swap(s, 0, |s| - 1)[..|s| - 1], 0)
  {
    var n := |s| - 1;
    var swapped, copied := Swap(s, 0, n)[..n], s[0 := s[n]][..n];
    assert |swapped| == |copied|;
    forall k | 0 <= k < n ensures swapped[k] == copied[k] {
      if k == 0 { assert swapped[0] == s[n]; }
    }
  }

  /** pop_top keeps the heap invariant. */
  lemma PopTopKeepsHeap(s: seq<int>)
    requires IsHeap(s)
    ensures IsHeap(PopTop(s))
  {
    if s != [] {
      var t := s[0 := s[|s| - 1]][..|s| - 1];
      assert DownReady(t, 0, 0);
      SiftDownRestores(t, 0, 0);
    }
  }

  /** enqueue(v): append v and bubble it up from the last slot. */
  function Push(s: seq<int>, v: int): (r: seq<int>)
    ensures |r| == |s| + 1 && multiset(r) == multiset(s) + multiset{v}
  {
    SiftUp(s + [v], |s|)
  }

  /** enqueue keeps the heap invariant. */
  lemma PushKeepsHeap(s: seq<int>, v: int)
    requires IsHeap(s)
    ensures IsHeap(Push(s, v))
  {
    assert UpReady(s + [v], |s|);
    SiftUpRestores(s + [v], |s|);
  }

  /** The alter rule: write v over the element at idx, then bubble up when the new value
      outranks the old one and bubble down otherwise. */
  function AlterAt(s: seq<int>, idx: nat, v: int): (r: seq<int>)
    requires idx < |s|
    ensures |r| == |s| && multiset(r) == multiset(s) - multiset{s[idx]} + multiset{v}
  {
    if Comp(s[idx], v) then SiftUp(s[idx := v], idx) else SiftDown(s[idx := v], idx)
  }

  /** A value written over idx that outranks the old one leaves only the defect bubble_up
      repairs. */
  lemma AlterUpReady(s: seq<int>, idx: nat, v: int)
    requires IsHeap(s) && idx < |s| && Comp(s[idx], v)
    ensures UpReady(s[idx := v], idx)
  {
  }

  /** A value written over idx that does not outrank the old one leaves only the defect
      bubble_down repairs. */
  lemma AlterDownReady(s: seq<int>, idx: nat, v: int)
    requires IsHeap(s) && idx < |s| && !Comp(s[idx], v)
    ensures DownReady(s[idx := v], 0, idx)
  {
  }

  /** The alter rule keeps the heap invariant. */
  lemma AlterAtKeepsHeap(s: seq<int>, idx: nat, v: int)
    requires IsHeap(s) && idx < |s|
    ensures IsHeap(AlterAt(s, idx, v))
  {
    if Comp(s[idx], v) {
      AlterUpReady(s, idx, v);
      SiftUpRestores(s[idx := v], idx);
    } else {
      AlterDownReady(s, idx, v);
      SiftDownRestores(s[idx := v], 0, idx);
    }
  }

  /** erase(pos) as the code does it: vector::erase shifts the tail left by one, then a
      single bubble_down runs from pos. */
  function EraseAtShift(s: seq<int>, pos: nat): (r: seq<int>)
    requires pos < |s|
    ensures |r| == |s| - 1 && multiset(r) == multiset(s) - multiset{s[pos]}
  {
    assert s == s[..pos] + [s[pos]] + s[pos + 1..];
    SiftDown(s[..pos] + s[pos + 1..], pos)
  }

  /** The shift breaks parent/child pairs that the single bubble_down never looks at:
      erasing index 1 of a valid heap leaves 7 below 4. */
  lemma EraseAtShiftBreaksHeap()
    ensures IsHeap([10, 5, 9, 4, 3, 8, 7])
    ensures EraseAtShift([10, 5, 9, 4, 3, 8, 7], 1) == [10, 9, 4, 3, 8, 7]
    ensures !IsHeap(EraseAtShift([10, 5, 9, 4, 3, 8, 7], 1))
  {
    var s := [10, 5, 9, 4, 3, 8, 7];
    var t := [10, 9, 4, 3, 8, 7];
    assert s[..1] + s[2..] == t;
    assert Pick(t, 1) == 1;
    assert Comp(t[2], t[5]);
  }

  /** erase(pos) repaired: after the shift, heapify the whole sequence (as erase(first,
      last) already does), which keeps the invariant. */
  function EraseAtRepaired(s: seq<int>, pos: nat): (r: seq<int>)
    requires pos < |s|
    ensures IsHeap(r)
    ensures |r| == |s| - 1 && multiset(r) == multiset(s) - multiset{s[pos]}
  {
    assert s == s[..pos] + [s[pos]] + s[pos + 1..];
    Heapify(s[..pos] + s[pos + 1..])
  }

  /** erase(first, last): drop the range [first, last), then heapify. */
  function EraseRange(s: seq<int>, first: nat, last: nat): (r: seq<int>)
    requires first <= last <= |s|
    ensures IsHeap(r)
    ensures |r| == |s| - (last - first)
    ensures multiset(r) + multiset(s[first..last]) == multiset(s)
  {
    assert s == s[..first] + s[first..last] + s[last..];
    Heapify(s[..first] + s[last..])
  }

  /** The elements in the order repeated top() and dequeue() hand them out. */
  function Drain(s: seq<int>): (r: seq<int>)
    ensures |r| == |s|
    decreases |s|
  {
    if s == [] then [] else [s[0]] + Drain(PopTop(s))
  }

  /** No element outranks an earlier one. */
  predicate Descending(d: seq<int>) {
    forall i, j :: 0 <= i < j < |d| ==> !Comp(d[i], d[j])
  }

  /** Draining hands out every element exactly once. */
  lemma {:induction false} DrainPermutes(s: seq<int>)
    ensures multiset(Drain(s)) == multiset(s)
    decreases |s|
  {
    if s != [] {
      var rest := PopTop(s);
      DrainPermutes(rest);
      assert Drain(s) == [s[0]] + Drain(rest);
      assert multiset(Drain(s)) == multiset{s[0]} + multiset(rest);
      assert s[0] in multiset(s);
    }
  }

  /** The top of a heap outranks everything the drain of the rest hands out. */
  lemma DrainHeadOutranks(s: seq<int>, rest: seq<int>)
    requires IsHeap(s) && s != [] && rest == PopTop(s)
    ensures forall j :: 0 <= j < |rest| ==> !Comp(s[0], Drain(rest)[j])
  {
    TopOutranksAll(s);
    DrainPermutes(rest);
    forall j | 0 <= j < |rest| ensures !Comp(s[0], Drain(rest)[j]) {
      var x := Drain(rest)[j];
      assert x in multiset(Drain(rest));
      assert x in multiset(s);
      var k :| 0 <= k < |s| && s[k] == x;
    }
  }

  /** Putting in front of a non-increasing sequence an element that outranks none of it
      keeps the sequence non-increasing. */
  lemma PrependKeepsDescending(x: int, d: seq<int>)
    requires forall j :: 0 <= j < |d| ==> !Comp(x, d[j])
    requires Descending(d)
    ensures Descending([x] + d)
  {
    forall i, j | 0 <= i < j < |d| + 1 ensures !Comp(([x] + d)[i], ([x] + d)[j]) {
      if i > 0 {
        assert !Comp(d[i - 1], d[j - 1]);
      }
    }
  }

  /** Draining a heap hands its elements out from the highest priority down. */
  lemma {:induction false} DrainSorted(s: seq<int>)
    requires IsHeap(s)
    ensures Descending(Drain(s))
    decreases |s|
  {
    if s != [] {
      var rest := PopTop(s);
      PopTopKeepsHeap(s);
      DrainSorted(rest);
      DrainHeadOutranks(s, rest);
      assert Drain(s) == [s[0]] + Drain(rest);
      PrependKeepsDescending(s[0], Drain(rest));
    }
  }

  /** One round of bubble_down's loop choosing where the element at i goes: the left child
      when it outranks i, then the right child when it outranks that choice. */
  method PickChild(r: seq<int>, i: nat) returns (best: nat)
    requires 2 * i + 1 < |r|
    ensures best == Pick(r, i)
  {
    var left, right := 2 * i + 1, 2 * i + 2;
    best := i;
    if Comp(r[i], r[left]) {
      best := left;
    }
    if right < |r| && Comp(r[best], r[right]) {
      best := right;
    }
  }

  /** The loop form of bubble_down, which the recursion above specifies. */
  method SiftDownLoop(s: seq<int>, pos: nat) returns (r: seq<int>)
    ensures r == SiftDown(s, pos)
  {
    r := s;
    var i: nat := pos;
    while 2 * i + 1 < |r|
      invariant SiftDown(r, i) == SiftDown(s, pos)
      decreases |r| - i
    {
      var best := PickChild(r, i);
      if best == i {
        return;
      }
      r := Swap(r, i, best);
      i := best;
    }
  }

  /** The loop form of bubble_up. */
  method SiftUpLoop(s: seq<int>, pos: nat) returns (r: seq<int>)
    requires pos < |s|
    ensures r == SiftUp(s, pos)
  {
    r := s;
    var i: nat := pos;
    while i > 0
      invariant i < |r| && SiftUp(r, i) == SiftUp(s, pos)
    {
      var parent := (i - 1) / 2;
      if !Comp(r[parent], r[i]) {
        return;
      }
      r := Swap(r, i, parent);
      i := parent;
    }
  }

  /** The loop form of heapify: bubble_down from the last index down to 0. */
  method HeapifyLoop(s: seq<int>) returns (r: seq<int>)
    ensures r == Heapify(s)
  {
    r := s;
    var i: nat := |s|;
    while i > 0
      invariant i <= |r| && HeapifyFrom(r, i) == HeapifyFrom(s, |s|)
    {
      r := HeapifyTurn(r, i);
      i := i - 1;
    }
  }

  /** One turn of heapify's loop: bubble_down from k - 1 leaves to the rest of the loop
      exactly what the whole loop from k would have done. */
  method HeapifyTurn(s: seq<int>, k: nat) returns (r: seq<int>)
    requires 0 < k <= |s|
    ensures |r| == |s| && HeapifyFrom(r, k - 1) == HeapifyFrom(s, k)
  {
    var pos: nat := k - 1;
    r := SiftDownLoop(s, pos);
    HeapifyFromUnfold(s, r, k);
  }
}
