/** The free algorithms of algorithm_utilities.h, over ranges of integers: a range is a
    sequence (read-only scans) or an array (algorithms that write through the iterators),
    and a position in it stands for the iterator there. */
module AlgorithmUtilities {
  import opened Sequences

  /** The predicate that holds exactly where q fails (the `!q(x)` of the *_if_not
      algorithms). */
  function Not(q: int -> bool): int -> bool {
    x => !q(x)
  }

  // tag_sort

  /** Every tag is an index into vec, and the elements the tags name ascend. */
  predicate SortedTags(vec: seq<int>, tags: seq<nat>) {
    (forall k :: 0 <= k < |tags| ==> tags[k] < |vec|) &&
    (forall k :: 0 <= k < |tags| - 1 ==> vec[tags[k]] <= vec[tags[k + 1]])
  }

  /** The tag t inserted into ascending tags in front of the first tag whose element is not
      below vec[t]. */
  function InsertTag(vec: seq<int>, t: nat, tags: seq<nat>): (r: seq<nat>)
    requires t < |vec| && SortedTags(vec, tags)
    ensures |r| == |tags| + 1 && SortedTags(vec, r)
    ensures multiset(r) == multiset(tags) + multiset{t}
    ensures r[0] == t || (tags != [] && r[0] == tags[0])
  {
    if tags == [] || vec[t] <= vec[tags[0]] then [t] + tags
    else
      assert tags == [tags[0]] + tags[1..];
      [tags[0]] + InsertTag(vec, t, tags[1..])
  }

  /** The tags ts arranged so that the elements they name ascend. */
  function SortTags(vec: seq<int>, ts: seq<nat>): (r: seq<nat>)
    requires forall k :: 0 <= k < |ts| ==> ts[k] < |vec|
    ensures SortedTags(vec, r) && multiset(r) == multiset(ts)
  {
    if ts == [] then []
    else
      assert ts == [ts[0]] + ts[1..];
      InsertTag(vec, ts[0], SortTags(vec, ts[1..]))
  }

  /** 0, 1, ..., n - 1 (std::iota from 0). */
  function Indices(n: nat): (r: seq<nat>)
    ensures |r| == n
  {
    seq(n, k => k)
  }

  /** Each of 0 .. n - 1 occurs in Indices(n) exactly once, and nothing else does. */
  lemma {:induction false} IndicesMultiset(n: nat)
    ensures forall i :: multiset(Indices(n))[i] == if 0 <= i < n then 1 else 0
  {
    if n > 0 {
      IndicesMultiset(n - 1);
      assert Indices(n) == Indices(n - 1) + [n - 1];
    }
  }

  /** tag_sort(vec): the indices 0 .. |vec| - 1 sorted by the elements they name. */
  function TagSort(vec: seq<int>): (tags: seq<nat>)
    ensures SortedTags(vec, tags)
    ensures multiset(tags) == multiset(Indices(|vec|))
  {
    SortTags(vec, Indices(|vec|))
  }

  /** tag_sort returns a permutation of the indices of vec: |vec| tags, each index once,
      visiting the elements in ascending order. */
  lemma TagSortPermutes(vec: seq<int>)
    ensures |TagSort(vec)| == |vec|
    ensures forall i :: 0 <= i < |vec| ==> multiset(TagSort(vec))[i] == 1
    ensures forall k :: 0 <= k < |vec| - 1 ==> vec[TagSort(vec)[k]] <= vec[TagSort(vec)[k + 1]]
  {
    var tags := TagSort(vec);
    IndicesMultiset(|vec|);
    assert |tags| == |multiset(tags)| == |multiset(Indices(|vec|))| == |vec|;
  }

  // find_all, find_all_if, find_all_if_not

  /** find_all(first, last, value): the positions whose element equals value. */
  method FindAll(s: seq<int>, value: int) returns (found: set<int>)
    ensures forall i :: i in found <==> 0 <= i < |s| && s[i] == value
  {
    found := {};
    var i := 0;
    while i < |s|
      invariant i <= |s|
      invariant forall k :: k in found <==> 0 <= k < i && s[k] == value
    {
      if s[i] == value {
        found := found + {i};
      }
      i := i + 1;
    }
  }

  /** find_all_if(first, last, p): the positions whose element satisfies p. */
  method FindAllIf(s: seq<int>, p: int -> bool) returns (found: set<int>)
    ensures found == PositionsWhere(s, p)
  {
    found := {};
    var i := 0;
    while i < |s|
      invariant i <= |s|
      invariant forall k :: k in found <==> 0 <= k < i && p(s[k])
    {
      if p(s[i]) {
        found := found + {i};
      }
      i := i + 1;
    }
  }

  /** find_all_if_not(first, last, q): the positions whose element fails q. */
  method FindAllIfNot(s: seq<int>, q: int -> bool) returns (found: set<int>)
    ensures found == PositionsWhere(s, Not(q))
  {
    found := {};
    var i := 0;
    while i < |s|
      invariant i <= |s|
      invariant forall k :: k in found <==> 0 <= k < i && !q(s[k])
    {
      if !q(s[i]) {
        found := found + {i};
      }
      i := i + 1;
    }
  }

  /** find_all_if and find_all_if_not with the same predicate split the positions of the
      range between them: disjoint, and together all of them. */
  lemma FindAllIfPartitions(s: seq<int>, p: int -> bool)
    ensures PositionsWhere(s, p) !! PositionsWhere(s, Not(p))
    ensures forall i :: i in PositionsWhere(s, p) + PositionsWhere(s, Not(p)) <==> 0 <= i < |s|
  {
    forall i | 0 <= i < |s|
      ensures i in PositionsWhere(s, p) + PositionsWhere(s, Not(p))
    {
      if !p(s[i]) {
        assert Not(p)(s[i]);
      }
    }
  }

  // find_and_replace_all, find_and_replace_all_if, find_and_replace_all_if_not

  /** The count over a prefix grows by one element at a time. */
  lemma CountWhereNext(s: seq<int>, p: int -> bool, i: nat)
    requires i < |s|
    ensures CountWhere(s[..i + 1], p) == CountWhere(s[..i], p) + (if p(s[i]) then 1 else 0)
  {
    assert s[..i + 1][..i] == s[..i];
  }

  /** find_and_replace_all(first, last, {from, to}): every element equal to from becomes to,
      the others stay, and the result is how many there were. */
  method FindAndReplaceAll(a: array<int>, from: int, to: int) returns (replaced: nat)
    modifies a
    ensures forall i :: 0 <= i < a.Length ==> a[i] == if old(a[i]) == from then to else old(a[i])
    ensures replaced == multiset(old(a[..]))[from]
  {
    ghost var s := a[..];
    replaced := 0;
    var i := 0;
    while i < a.Length
      invariant i <= a.Length
      invariant forall k :: 0 <= k < i ==> a[k] == if s[k] == from then to else s[k]
      invariant forall k :: i <= k < a.Length ==> a[k] == s[k]
      invariant replaced == multiset(s[..i])[from]
    {
      assert s[..i + 1] == s[..i] + [s[i]];
      if a[i] == from {
        a[i] := to;
        replaced := replaced + 1;
      }
      i := i + 1;
    }
    assert s[..i] == s;
  }

  /** find_and_replace_all_if(first, last, value, p): every element satisfying p becomes
      value, the others stay, and the result is how many did. */
  method FindAndReplaceAllIf(a: array<int>, value: int, p: int -> bool) returns (replaced: nat)
    modifies a
    ensures a[..] == ReplaceWhere(old(a[..]), p, value)
    ensures replaced == CountWhere(old(a[..]), p)
  {
    ghost var s := a[..];
    replaced := 0;
    var i := 0;
    while i < a.Length
      invariant i <= a.Length
      invariant forall k :: 0 <= k < i ==> a[k] == if p(s[k]) then value else s[k]
      invariant forall k :: i <= k < a.Length ==> a[k] == s[k]
      invariant replaced == CountWhere(s[..i], p)
    {
      CountWhereNext(s, p, i);
      if p(a[i]) {
        a[i] := value;
        replaced := replaced + 1;
      }
      i := i + 1;
    }
    assert s[..i] == s;
    assert a[..] == ReplaceWhere(s, p, value);
  }

  /** find_and_replace_all_if_not(first, last, value, q): every element failing q becomes
      value, the others stay, and the result is how many did. */
  method FindAndReplaceAllIfNot(a: array<int>, value: int, q: int -> bool) returns (replaced: nat)
    modifies a
    ensures a[..] == ReplaceWhere(old(a[..]), Not(q), value)
    ensures replaced == CountWhere(old(a[..]), Not(q))
  {
    ghost var s := a[..];
    replaced := 0;
    var i := 0;
    while i < a.Length
      invariant i <= a.Length
      invariant forall k :: 0 <= k < i ==> a[k] == if !q(s[k]) then value else s[k]
      invariant forall k :: i <= k < a.Length ==> a[k] == s[k]
      invariant replaced == CountWhere(s[..i], Not(q))
    {
      CountWhereNext(s, Not(q), i);
      if !q(a[i]) {
        a[i] := value;
        replaced := replaced + 1;
      }
      i := i + 1;
    }
    assert s[..i] == s;
    assert a[..] == ReplaceWhere(s, Not(q), value);
  }

  /** The number a find_and_replace_all_if reports is the number of positions find_all_if
      finds, and after it, when value itself fails p, find_all_if finds nothing. */
  lemma ReplaceCountMatchesFind(s: seq<int>, p: int -> bool, value: int)
    ensures CountWhere(s, p) == |PositionsWhere(s, p)|
    ensures !p(value) ==> PositionsWhere(ReplaceWhere(s, p, value), p) == {}
  {
    CountIsNumberOfPositions(s, p);
  }

  // iota_opp

  /** iota_opp(first, last, value): element k becomes value - k. */
  method IotaOpp(a: array<int>, value: int)
    modifies a
    ensures forall k :: 0 <= k < a.Length ==> a[k] == value - k
  {
    var v := value;
    var i := 0;
    while i < a.Length
      invariant i <= a.Length && v == value - i
      invariant forall k :: 0 <= k < i ==> a[k] == value - k
    {
      a[i] := v;
      v := v - 1;
      i := i + 1;
    }
  }

  // construct_ordered_histogram, construct_unordered_histogram

  /** The histogram of s: one bin per distinct element, holding its number of
      occurrences. */
  function Histogram(s: seq<int>): (h: map<int, nat>)
    ensures forall x :: x in h <==> x in s
    ensures forall x :: x in h ==> h[x] == multiset(s)[x]
  {
    if s == [] then map[]
    else
      var init, x := s[..|s| - 1], s[|s| - 1];
      assert s == init + [x];
      var h := Histogram(init);
      h[x := (if x in h then h[x] else 0) + 1]
  }

  /** The distinct elements of s, each once: the bins of its histogram.  The order in which
      the histogram's map holds its bins is not modelled; this list is only what the
      counts are summed over. */
  function Distinct(s: seq<int>): (d: seq<int>)
    ensures forall x :: x in d <==> x in s
    ensures forall i, j :: 0 <= i < j < |d| ==> d[i] != d[j]
  {
    if s == [] then []
    else
      var init, x := s[..|s| - 1], s[|s| - 1];
      assert s == init + [x];
      var d := Distinct(init);
      if x in d then d else d + [x]
  }

  /** The sum of the counts h holds for the given keys, a missing key counting 0. */
  function Sum(h: map<int, nat>, keys: seq<int>): nat {
    if keys == [] then 0
    else
      var k := keys[|keys| - 1];
      Sum(h, keys[..|keys| - 1]) + (if k in h then h[k] else 0)
  }

  /** Changing the count of a key that is not listed leaves the sum alone. */
  lemma {:induction false} SumUpdateOutside(h: map<int, nat>, keys: seq<int>, x: int, v: nat)
    requires x !in keys
    ensures Sum(h[x := v], keys) == Sum(h, keys)
  {
    if keys != [] {
      SumUpdateOutside(h, keys[..|keys| - 1], x, v);
    }
  }

  /** One more occurrence of a key listed once adds one to the sum. */
  lemma {:induction false} SumBump(h: map<int, nat>, keys: seq<int>, x: int)
    requires x in keys && forall i, j :: 0 <= i < j < |keys| ==> keys[i] != keys[j]
    ensures Sum(h[x := (if x in h then h[x] else 0) + 1], keys) == Sum(h, keys) + 1
  {
    var init, k := keys[..|keys| - 1], keys[|keys| - 1];
    assert keys == init + [k];
    if k == x {
      SumUpdateOutside(h, init, x, (if x in h then h[x] else 0) + 1);
    } else {
      SumBump(h, init, x);
    }
  }

  /** The last element of s adds one to its bin, which is new when it did not occur
      before, and then also a new key. */
  lemma HistogramLast(s: seq<int>)
    requires s != []
    ensures var init, x := s[..|s| - 1], s[|s| - 1];
      var h := Histogram(init);
      Histogram(s) == h[x := (if x in h then h[x] else 0) + 1] &&
      Distinct(s) == if x in Distinct(init) then Distinct(init) else Distinct(init) + [x]
  {
  }

  /** The counts of the histogram of s, one per distinct element, add up to the length of
      s. */
  lemma {:induction false} HistogramTotal(s: seq<int>)
    ensures Sum(Histogram(s), Distinct(s)) == |s|
  {
    if s != [] {
      var init, x := s[..|s| - 1], s[|s| - 1];
      HistogramTotal(init);
      HistogramLast(s);
      var h, d := Histogram(init), Distinct(init);
      var h' := h[x := (if x in h then h[x] else 0) + 1];
      if x in d {
        SumBump(h, d, x);
        assert Sum(h', d) == |init| + 1;
      } else {
        assert (d + [x])[..|d|] == d;
        SumUpdateOutside(h, d, x, 1);
        assert Sum(h', d + [x]) == Sum(h', d) + 1;
      }
    }
  }

  /** construct_ordered_histogram / construct_unordered_histogram: ++histogram[x] for each
      element x in turn, a missing bin starting at 0. */
  method ConstructHistogram(s: seq<int>) returns (histogram: map<int, nat>)
    ensures histogram == Histogram(s)
  {
    histogram := map[];
    var i := 0;
    while i < |s|
      invariant i <= |s| && histogram == Histogram(s[..i])
    {
      assert s[..i + 1][..i] == s[..i];
      var x := s[i];
      histogram := histogram[x := (if x in histogram then histogram[x] else 0) + 1];
      i := i + 1;
    }
    assert s[..i] == s;
  }
}
