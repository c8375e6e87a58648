/** crsc::dynamic_array (dynamic_array.h): a hand-written vector over one heap block.  The
    block is an array whose length is the capacity; the first size slots hold the
    elements. */
module DynamicArray {
  import opened Outcomes
  import opened Sequences

  /** The capacity push_back reallocates to when the block is full: twice the old one, or 8
      when nothing was allocated. */
  function GrownCapacity(cap: nat): (c: nat)
    ensures c > cap && c >= 2 * cap
  {
    if cap != 0 then cap * 2 else 8
  }

  /** s with v inserted at pos: the elements before pos stay, those from pos move one to
      the right. */
  function Inserted(s: seq<int>, pos: nat, v: int): (r: seq<int>)
    requires pos <= |s|
    ensures |r| == |s| + 1 && r[pos] == v
    ensures forall k :: 0 <= k < pos ==> r[k] == s[k]
    ensures forall k :: pos < k < |r| ==> r[k] == s[k - 1]
  {
    s[..pos] + [v] + s[pos..]
  }

  /** s without the element at pos: the elements before pos stay, those after it move one
      to the left. */
  function Erased(s: seq<int>, pos: nat): (r: seq<int>)
    requires pos < |s|
    ensures |r| == |s| - 1
    ensures forall k :: 0 <= k < pos ==> r[k] == s[k]
    ensures forall k :: pos <= k < |r| ==> r[k] == s[k + 1]
  {
    s[..pos] + s[pos + 1..]
  }

  /** Erasing what was just inserted gives the sequence back. */
  lemma ErasedInserted(s: seq<int>, pos: nat, v: int)
    requires pos <= |s|
    ensures Erased(Inserted(s, pos, v), pos) == s
  {
    var r := Erased(Inserted(s, pos, v), pos);
    assert forall k :: 0 <= k < |s| ==> r[k] == s[k];
  }

  /** Inserting an erased element back where it was gives the sequence back. */
  lemma InsertedErased(s: seq<int>, pos: nat)
    requires pos < |s|
    ensures Inserted(Erased(s, pos), pos, s[pos]) == s
  {
    var r := Inserted(Erased(s, pos), pos, s[pos]);
    assert forall k :: 0 <= k < |s| ==> r[k] == s[k];
  }

  /** Insertion adds exactly v to the elements. */
  lemma InsertedMultiset(s: seq<int>, pos: nat, v: int)
    requires pos <= |s|
    ensures multiset(Inserted(s, pos, v)) == multiset(s) + multiset{v}
  {
    assert s == s[..pos] + s[pos..];
  }

  /** s with count copies of v inserted at pos. */
  function InsertedCopies(s: seq<int>, pos: nat, count: nat, v: int): (r: seq<int>)
    requires pos <= |s|
    ensures |r| == |s| + count
    ensures forall k :: 0 <= k < pos ==> r[k] == s[k]
    ensures forall k :: pos <= k < pos + count ==> r[k] == v
    ensures forall k :: pos + count <= k < |r| ==> r[k] == s[k - count]
  {
    s[..pos] + seq(count, _ => v) + s[pos..]
  }

  /** One more copy inserted at pos lands in front of the copies already there. */
  lemma InsertedCopiesStep(s: seq<int>, pos: nat, count: nat, v: int)
    requires pos <= |s|
    ensures Inserted(InsertedCopies(s, pos, count, v), pos, v) == InsertedCopies(s, pos, count + 1, v)
  {
    var a, b := Inserted(InsertedCopies(s, pos, count, v), pos, v), InsertedCopies(s, pos, count + 1, v);
    assert forall k :: 0 <= k < |a| ==> a[k] == b[k];
  }

  /** The elements in reverse order. */
  function Reversed(s: seq<int>): (r: seq<int>)
    ensures |r| == |s|
    ensures forall k :: 0 <= k < |s| ==> r[k] == s[|s| - 1 - k]
  {
    if s == [] then [] else Reversed(s[1..]) + [s[0]]
  }

  /** Inserting items one at a time, each at the same position pos, leaves them there in
      reverse order. */
  lemma InsertedEachReverses(s: seq<int>, pos: nat, items: seq<int>, k: nat)
    requires pos <= |s| && k < |items|
    ensures Inserted(s[..pos] + Reversed(items[..k]) + s[pos..], pos, items[k])
         == s[..pos] + Reversed(items[..k + 1]) + s[pos..]
  {
    var a := Inserted(s[..pos] + Reversed(items[..k]) + s[pos..], pos, items[k]);
    var b := s[..pos] + Reversed(items[..k + 1]) + s[pos..];
    assert forall t :: 0 <= t < |a| ==> a[t] == b[t];
  }

  /** Inserting item k at position pos + k, for each k in turn, leaves the items in their
      own order. */
  lemma InsertedInOrder(s: seq<int>, pos: nat, items: seq<int>, k: nat)
    requires pos <= |s| && k < |items|
    ensures Inserted(s[..pos] + items[..k] + s[pos..], pos + k, items[k])
         == s[..pos] + items[..k + 1] + s[pos..]
  {
    var a := Inserted(s[..pos] + items[..k] + s[pos..], pos + k, items[k]);
    var b := s[..pos] + items[..k + 1] + s[pos..];
    assert forall t :: 0 <= t < |a| ==> a[t] == b[t];
  }

  /** Two items inserted into an empty array that already has room for both (after
      reserve(2), so that pos stays valid) come out as [2, 1], not [1, 2]. */
  lemma InsertRangeAsWrittenReverses()
    ensures [] + Reversed([1, 2]) + [] == [2, 1] != [] + [1, 2] + []
  {
    assert [1, 2][1..] == [2] && [2][1..] == [];
    assert Reversed([1, 2]) == Reversed([2]) + [1];
    assert [2, 1][0] != [1, 2][0];
  }

  /** s resized to count elements: the first min(count, |s|) kept, any new ones equal to
      v. */
  function Resized(s: seq<int>, count: nat, v: int): (r: seq<int>)
    ensures |r| == count
    ensures forall k :: 0 <= k < Min(count, |s|) ==> r[k] == s[k]
    ensures forall k :: |s| <= k < count ==> r[k] == v
  {
    if count <= |s| then s[..count] else s + seq(count - |s|, _ => v)
  }

  /** Growing and then shrinking back to the old size gives the sequence back. */
  lemma ResizedBack(s: seq<int>, count: nat, v: int, w: int)
    requires |s| <= count
    ensures Resized(Resized(s, count, v), |s|, w) == s
  {
    assert Resized(Resized(s, count, v), |s|, w) == (s + seq(count - |s|, _ => v))[..|s|];
  }

  /** Resizing to the size already reached changes nothing. */
  lemma ResizedIdempotent(s: seq<int>, count: nat, v: int)
    ensures Resized(Resized(s, count, v), count, v) == Resized(s, count, v)
  {
    assert Resized(s, count, v)[..count] == Resized(s, count, v);
  }

  class DynamicArray {
    /** The block arr; its length is arr_capacity. */
    var arr: array<int>
    /** arr_size. */
    var size: nat

    /** size() <= capacity(). */
    ghost predicate Valid()
      reads this
    {
      size <= arr.Length
    }

    /** The elements, arr[0 .. size). */
    function Elements(): (s: seq<int>)
      reads this, arr
      requires Valid()
      ensures |s| == size
    {
      arr[..size]
    }

    /** The default constructor: allocate(0), no elements. */
    constructor ()
      ensures Valid() && Elements() == [] && arr.Length == 0 && fresh(arr)
    {
      arr := new int[0];
      size := 0;
    }

    /** dynamic_array(count): count elements in a block of count. */
    constructor Sized(count: nat)
      ensures Valid() && Elements() == seq(count, _ => 0) && arr.Length == count && fresh(arr)
    {
      arr := new int[count](_ => 0);
      size := count;
    }

    /** dynamic_array(count, val): count copies of val in a block of count. */
    constructor Filled(count: nat, val: int)
      ensures Valid() && Elements() == seq(count, _ => val) && arr.Length == count && fresh(arr)
    {
      arr := new int[count](_ => 0);
      size := count;
      new;
      Fill(val);
    }

    /** dynamic_array(ilist): the list's elements in a block of exactly that size. */
    constructor OfList(list: seq<int>)
      ensures Valid() && Elements() == list && arr.Length == |list| && fresh(arr)
    {
      arr := new int[|list|](k requires 0 <= k < |list| => list[k]);
      size := |list|;
    }

    /** The copy constructor: the same capacity, the first size elements copied. */
    constructor Copy(other: DynamicArray)
      requires other.Valid()
      ensures Valid() && Elements() == other.Elements() && arr.Length == other.arr.Length && fresh(arr)
    {
      var a := new int[other.arr.Length](_ => 0);
      forall k | 0 <= k < other.size {
        a[k] := other.arr[k];
      }
      arr, size := a, other.size;
    }

    /** empty() as written: the size converted to bool, so true exactly when there ARE
        elements. */
    function EmptyAsWritten(): (b: bool)
      reads this, arr
      requires Valid()
      ensures b <==> Elements() != []
    {
      size != 0
    }

    /** empty() as documented: true exactly when there are no elements. */
    function IsEmpty(): (b: bool)
      reads this, arr
      requires Valid()
      ensures b <==> Elements() == []
    {
      size == 0
    }

    /** The written empty() answers the opposite of the documented one on every array. */
    lemma EmptyAsWrittenInverted()
      requires Valid()
      ensures EmptyAsWritten() == !IsEmpty()
    {
    }

    /** at(n): out_of_range exactly when n >= size(), else the element at n. */
    function At(n: nat): (r: Result<int>)
      reads this, arr
      requires Valid()
      ensures r.Failure? <==> n >= |Elements()|
      ensures r.Failure? ==> r.error == OutOfRange
      ensures r.Success? ==> r.value == Elements()[n]
    {
      if n < size then Success(arr[n]) else Failure(OutOfRange)
    }

    /** fill(val): each of the size elements becomes val. */
    method Fill(val: int)
      modifies arr
      requires Valid()
      ensures Elements() == seq(size, _ => val)
    {
      var i := 0;
      while i < size
        invariant i <= size
        invariant forall k :: 0 <= k < i ==> arr[k] == val
      {
        arr[i] := val;
        i := i + 1;
      }
      assert Elements() == seq(size, _ => val);
    }

    /** reallocate(new_cap): a fresh block of new_cap slots receiving the first
        min(new_cap, capacity()) slots of the old one; the size is untouched, and callers
        never pass less than it. */
    method Reallocate(newCap: nat)
      modifies this
      requires Valid() && size <= newCap
      ensures Valid() && fresh(arr) && arr.Length == newCap && size == old(size)
      ensures arr[..Min(newCap, old(arr.Length))] == old(arr[..Min(newCap, arr.Length)])
      ensures Elements() == old(Elements())
    {
      var tmp := new int[newCap](_ => 0);
      var keep := if newCap > arr.Length then arr.Length else newCap;
      var i := 0;
      while i < keep
        modifies tmp
        invariant i <= keep
        invariant forall k :: 0 <= k < i ==> tmp[k] == arr[k]
      {
        tmp[i] := arr[i];
        i := i + 1;
      }
      assert tmp[..keep] == arr[..keep];
      assert tmp[..size] == tmp[..keep][..size];
      arr := tmp;
    }

    /** reserve(new_cap): reallocates only when new_cap exceeds the capacity, so the
        capacity never shrinks; the elements are kept. */
    method Reserve(newCap: nat)
      modifies this
      requires Valid()
      ensures Valid() && Elements() == old(Elements())
      ensures arr.Length == if newCap > old(arr.Length) then newCap else old(arr.Length)
    {
      if newCap > arr.Length {
        Reallocate(newCap);
      }
    }

    /** push_back(v): when full, reallocate to GrownCapacity; then v goes after the last
        element. */
    method PushBack(v: int)
      modifies this, arr
      requires Valid()
      ensures Valid() && Elements() == old(Elements()) + [v]
      ensures arr.Length == if old(size) == old(arr.Length) then GrownCapacity(old(arr.Length)) else old(arr.Length)
      ensures old(size) < old(arr.Length) ==> arr == old(arr)
      ensures arr == old(arr) || fresh(arr)
    {
      if size == arr.Length {
        Reallocate(GrownCapacity(arr.Length));
      }
      ghost var before := Elements();
      arr[size] := v;
      size := size + 1;
      assert Elements() == before + [v];
    }

    /** pop_back(): the last element goes; the block stays.  The array must not be
        empty. */
    method PopBack()
      modifies this
      requires Valid() && size > 0
      ensures Valid() && arr == old(arr) && Elements() == old(Elements())[..old(size) - 1]
    {
      size := size - 1;
    }

    /** clear(): no elements; the capacity is unchanged. */
    method Clear()
      modifies this
      requires Valid()
      ensures Valid() && arr == old(arr) && Elements() == []
    {
      size := 0;
    }

    /** erase(pos): the element at pos is swapped step by step to the end and popped, so
        the ones after it move left in order.  erase(end()) pops the last element. */
    method Erase(pos: nat)
      modifies this, arr
      requires Valid() && 0 < size && pos <= size
      ensures Valid() && arr == old(arr)
      ensures pos < old(size) ==> Elements() == Erased(old(Elements()), pos)
      ensures pos == old(size) ==> Elements() == old(Elements())[..pos - 1]
    {
      ghost var s := Elements();
      var i := pos;
      while i < size - 1
        modifies arr
        invariant pos <= i <= size
        invariant pos < size ==> i < size
        invariant pos == size ==> i == size
        invariant forall k :: 0 <= k < pos ==> arr[k] == s[k]
        invariant forall k :: pos <= k < i ==> arr[k] == s[k + 1]
        invariant i < size ==> arr[i] == s[pos]
        invariant forall k :: i < k < size ==> arr[k] == s[k]
      {
        arr[i], arr[i + 1] := arr[i + 1], arr[i];
        i := i + 1;
      }
      PopBack();
      if pos < |s| {
        assert Elements() == Erased(s, pos);
      } else {
        assert Elements() == s[..pos - 1];
      }
    }

    /** insert(pos, v): push_back(v), then v is swapped step by step down to pos, so the
        elements from pos move right in order. */
    method Insert(pos: nat, v: int)
      modifies this, arr
      requires Valid() && pos <= size
      ensures Valid() && Elements() == Inserted(old(Elements()), pos, v)
      ensures arr.Length == if old(size) == old(arr.Length) then GrownCapacity(old(arr.Length)) else old(arr.Length)
      ensures arr == old(arr) || fresh(arr)
    {
      ghost var s := Elements();
      var i := size;
      PushBack(v);
      var a := arr;
      while i > pos
        modifies a
        invariant pos <= i <= |s| && size == |s| + 1 && a.Length >= size
        invariant forall k :: 0 <= k < i ==> a[k] == s[k]
        invariant a[i] == v
        invariant forall k :: i < k < size ==> a[k] == s[k - 1]
      {
        a[i], a[i - 1] := a[i - 1], a[i];
        i := i - 1;
      }
      assert Elements() == Inserted(s, pos, v);
    }

    /** insert(pos, count, v): count calls of insert(pos, v), each putting one more copy at
        pos in front of the others. */
    method InsertCount(pos: nat, count: nat, v: int)
      modifies this, arr
      requires Valid() && pos <= size
      ensures Valid() && Elements() == InsertedCopies(old(Elements()), pos, count, v)
      ensures arr.Length >= old(arr.Length)
    {
      ghost var s := Elements();
      var c: nat := count;
      while c > 0
        invariant c <= count
        invariant Valid() && pos <= size
        invariant Elements() == InsertedCopies(s, pos, count - c, v)
        invariant arr.Length >= old(arr.Length)
        invariant arr == old(arr) || fresh(arr)
      {
        InsertedCopiesStep(s, pos, count - c, v);
        Insert(pos, v);
        c := c - 1;
      }
    }

    /** insert(pos, first, last) as written: insert(pos, x) for each x in turn at the same
        pos, so the items end up there in reverse order. */
    method InsertRangeAsWritten(pos: nat, items: seq<int>)
      modifies this, arr
      requires Valid() && pos <= size
      ensures Valid() && Elements() == old(Elements())[..pos] + Reversed(items) + old(Elements())[pos..]
      ensures arr.Length >= old(arr.Length)
    {
      ghost var s := Elements();
      var k := 0;
      while k < |items|
        invariant k <= |items|
        invariant Valid() && pos <= size
        invariant Elements() == s[..pos] + Reversed(items[..k]) + s[pos..]
        invariant arr.Length >= old(arr.Length)
        invariant arr == old(arr) || fresh(arr)
      {
        InsertedEachReverses(s, pos, items, k);
        Insert(pos, items[k]);
        k := k + 1;
      }
      assert items[..k] == items;
    }

    /** insert(pos, first, last) keeping the items' order: item k goes to pos + k. */
    method InsertRange(pos: nat, items: seq<int>)
      modifies this, arr
      requires Valid() && pos <= size
      ensures Valid() && Elements() == old(Elements())[..pos] + items + old(Elements())[pos..]
      ensures arr.Length >= old(arr.Length)
    {
      ghost var s := Elements();
      var k := 0;
      while k < |items|
        invariant k <= |items|
        invariant Valid() && size == |s| + k
        invariant Elements() == s[..pos] + items[..k] + s[pos..]
        invariant arr.Length >= old(arr.Length)
        invariant arr == old(arr) || fresh(arr)
      {
        InsertedInOrder(s, pos, items, k);
        Insert(pos + k, items[k]);
        k := k + 1;
      }
      assert items[..k] == items;
    }

    /** resize(count, val): nothing when count == size(); when growing, reallocate to
        exactly count (even below the capacity) and push_back copies of val; when
        shrinking, pop_back down to count with the block unchanged. */
    method ResizeFilled(count: nat, val: int)
      modifies this, arr
      requires Valid()
      ensures Valid() && Elements() == Resized(old(Elements()), count, val)
      ensures arr.Length == if count > old(size) then count else old(arr.Length)
    {
      ghost var s := Elements();
      if count == size {
        assert s[..count] == s;
        return;
      }
      var oldSize := size;
      if count > size {
        Reallocate(count);
        var i := 0;
        while i < count - oldSize
          invariant i <= count - oldSize
          invariant Valid() && arr.Length == count && fresh(arr)
          invariant size == oldSize + i
          invariant Elements() == s + seq(i, _ => val)
        {
          PushBack(val);
          assert seq(i, _ => val) + [val] == seq(i + 1, _ => val);
          i := i + 1;
        }
      } else {
        var i := 0;
        while i < oldSize - count
          invariant i <= oldSize - count
          invariant Valid() && arr == old(arr) && size == oldSize - i
          invariant Elements() == s[..size]
        {
          PopBack();
          i := i + 1;
        }
      }
    }

    /** resize(count): resize with value-initialised (zero) new elements. */
    method Resize(count: nat)
      modifies this, arr
      requires Valid()
      ensures Valid() && Elements() == Resized(old(Elements()), count, 0)
      ensures arr.Length == if count > old(size) then count else old(arr.Length)
    {
      ResizeFilled(count, 0);
    }

    /** swap(other): the blocks, capacities and sizes are exchanged. */
    method Swap(other: DynamicArray)
      modifies this, other
      ensures arr == old(other.arr) && other.arr == old(arr)
      ensures size == old(other.size) && other.size == old(size)
    {
      arr, other.arr := other.arr, arr;
      size, other.size := other.size, size;
    }
  }
}
