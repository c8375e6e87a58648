/** Sequence helpers shared by the containers and algorithms: the standard-library loops
    (std::replace_if, std::remove_if, std::count_if) that the library's code leans on,
    stated once as functions with the facts the rest of the model needs about them. */
module Sequences {

  /** std::min on sizes. */
  function Min(x: nat, y: nat): (m: nat)
    ensures m <= x && m <= y && (m == x || m == y)
  {
    if x <= y then x else y
  }

  /** The positions of s whose element satisfies p (the result of a find_all scan). */
  function PositionsWhere<T>(s: seq<T>, p: T -> bool): (r: set<int>)
    ensures forall i :: i in r <==> 0 <= i < |s| && p(s[i])
  {
    set i | 0 <= i < |s| && p(s[i])
  }

  /** The index of the first element satisfying p, or |s| when there is none
      (std::find_if, with the end iterator as |s|). */
  function FirstWhere<T>(s: seq<T>, p: T -> bool): (i: nat)
    ensures i <= |s|
    ensures i < |s| ==> p(s[i])
    ensures forall j :: 0 <= j < i ==> !p(s[j])
  {
    if s == [] then 0 else if p(s[0]) then 0 else 1 + FirstWhere(s[1..], p)
  }

  /** The index of the first element equal to v, or |s| when there is none (std::find). */
  function IndexOf<T(==)>(s: seq<T>, v: T): (i: nat)
    ensures i <= |s|
    ensures i < |s| ==> s[i] == v
    ensures i == |s| <==> v !in s
    ensures forall j :: 0 <= j < i ==> s[j] != v
  {
    if s == [] then 0 else if s[0] == v then 0 else 1 + IndexOf(s[1..], v)
  }

  /** The number of elements of s that satisfy p. */
  function CountWhere<T>(s: seq<T>, p: T -> bool): (n: nat)
    ensures n <= |s|
    ensures n == 0 <==> forall i :: 0 <= i < |s| ==> !p(s[i])
  {
    if s == [] then 0 else CountWhere(s[..|s| - 1], p) + (if p(s[|s| - 1]) then 1 else 0)
  }

  /** The count of matches is the size of the set of matching positions. */
  lemma {:induction false} CountIsNumberOfPositions<T>(s: seq<T>, p: T -> bool)
    ensures CountWhere(s, p) == |PositionsWhere(s, p)|
  {
    if s != [] {
      var init := s[..|s| - 1];
      CountIsNumberOfPositions(init, p);
      var last: set<int> := if p(s[|s| - 1]) then {|s| - 1} else {};
      assert PositionsWhere(s, p) == PositionsWhere(init, p) + last;
      assert PositionsWhere(init, p) !! last;
    }
  }

  /** s with every element satisfying p replaced by v, the others left as they were
      (std::replace_if). */
  function ReplaceWhere<T>(s: seq<T>, p: T -> bool, v: T): (r: seq<T>)
    ensures |r| == |s|
    ensures forall i :: 0 <= i < |s| ==> r[i] == (if p(s[i]) then v else s[i])
  {
    if s == [] then [] else [if p(s[0]) then v else s[0]] + ReplaceWhere(s[1..], p, v)
  }

  /** s without the elements satisfying p, the others kept in their order
      (the erase-remove idiom over std::remove_if). */
  function RemoveWhere<T>(s: seq<T>, p: T -> bool): (r: seq<T>)
    ensures |r| + CountWhere(s, p) == |s|
    ensures forall i :: 0 <= i < |r| ==> !p(r[i])
  {
    if s == [] then []
    else
      var init := s[..|s| - 1];
      if p(s[|s| - 1]) then RemoveWhere(init, p) else RemoveWhere(init, p) + [s[|s| - 1]]
  }

  /** RemoveWhere keeps every occurrence of an element outside p and drops every one inside. */
  lemma {:induction false} RemoveWhereMultiset<T>(s: seq<T>, p: T -> bool)
    ensures forall x :: multiset(RemoveWhere(s, p))[x] == if p(x) then 0 else multiset(s)[x]
  {
    if s != [] {
      var init := s[..|s| - 1];
      RemoveWhereMultiset(init, p);
      assert s == init + [s[|s| - 1]];
    }
  }

  /** Removing from a concatenation removes from each part, keeping the parts in order:
      the survivors keep their relative order. */
  lemma {:induction false} RemoveWhereAppend<T>(a: seq<T>, b: seq<T>, p: T -> bool)
    ensures RemoveWhere(a + b, p) == RemoveWhere(a, p) + RemoveWhere(b, p)
    decreases |b|
  {
    if b == [] {
      assert a + b == a;
    } else {
      var init := b[..|b| - 1];
      assert (a + b)[..|a + b| - 1] == a + init;
      RemoveWhereAppend(a, init, p);
    }
  }

  /** Removing twice removes nothing more. */
  lemma {:induction false} RemoveWhereIdempotent<T>(s: seq<T>, p: T -> bool)
    ensures RemoveWhere(RemoveWhere(s, p), p) == RemoveWhere(s, p)
  {
    if s != [] {
      var init := s[..|s| - 1];
      RemoveWhereIdempotent(init, p);
      var rest := RemoveWhere(init, p);
      if !p(s[|s| - 1]) {
        assert (rest + [s[|s| - 1]])[..|rest|] == rest;
      }
    }
  }
}
