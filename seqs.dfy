/** Sequence helpers shared by the model: the `Array.prototype.filter` and
    `Array.prototype.some` of the frontend, and the first-match lookup that a
    Mongo `findOne` performs over a collection in insertion order. */
module Seqs {

  datatype Option<+T> = None | Some(value: T)

  /** `s.filter(p)`: the elements of `s` satisfying `p`, in their original
      order; each one kept occurs as often as in `s`. */
  function Filter<T(!new)>(p: T -> bool, s: seq<T>): (r: seq<T>)
    ensures |r| <= |s|
    ensures forall x :: x in r <==> x in s && p(x)
    ensures forall x :: multiset(r)[x] == if p(x) then multiset(s)[x] else 0
  {
    if s == [] then []
    else
      assert s == [s[0]] + s[1..];
      if p(s[0]) then [s[0]] + Filter(p, s[1..])
      else Filter(p, s[1..])
  }

  /** `s.some(p)`. */
  function Any<T(!new)>(p: T -> bool, s: seq<T>): (b: bool)
    ensures b <==> exists x :: x in s && p(x)
  {
    if s == [] then false
    else p(s[0]) || Any(p, s[1..])
  }

  /** The position of the first element satisfying `p`, if any. */
  function FindFirst<T(!new)>(p: T -> bool, s: seq<T>): (r: Option<nat>)
    ensures r.Some? ==> r.value < |s| && p(s[r.value])
    ensures r.Some? ==> forall j :: 0 <= j < r.value ==> !p(s[j])
    ensures r.None? <==> forall x :: x in s ==> !p(x)
  {
    if s == [] then None
    else if p(s[0]) then Some(0)
    else
      match FindFirst(p, s[1..])
      case None => None
      case Some(k) => Some(k + 1)
  }

  /** `a` can be obtained from `b` by deleting elements. */
  predicate IsSubsequence<T(==)>(a: seq<T>, b: seq<T>)
    decreases |b|
  {
    if a == [] then true
    else if b == [] then false
    else if a[0] == b[0] then IsSubsequence(a[1..], b[1..])
    else IsSubsequence(a, b[1..])
  }

  /** A filter only removes elements and keeps the order of the rest. */
  lemma {:induction false} FilterIsSubsequence<T(!new)>(p: T -> bool, s: seq<T>)
    ensures IsSubsequence(Filter(p, s), s)
  {
    if s != [] {
      FilterIsSubsequence(p, s[1..]);
      var rest := Filter(p, s[1..]);
      if !p(s[0]) && rest != [] {
        assert rest[0] in rest;
        assert rest[0] != s[0];
      }
    }
  }

  /** A filter that every element passes changes nothing. */
  lemma {:induction false} FilterKeepsAll<T(!new)>(p: T -> bool, s: seq<T>)
    requires forall x :: x in s ==> p(x)
    ensures Filter(p, s) == s
  {
    if s != [] {
      assert s[0] in s;
      FilterKeepsAll(p, s[1..]);
      assert [s[0]] + s[1..] == s;
    }
  }

  /** The first matching position is the one `FindFirst` reports. */
  lemma {:induction false} FindFirstIsFirst<T(!new)>(p: T -> bool, s: seq<T>, i: nat)
    requires i < |s| && p(s[i])
    requires forall j :: 0 <= j < i ==> !p(s[j])
    ensures FindFirst(p, s) == Some(i)
  {
    if i > 0 {
      FindFirstIsFirst(p, s[1..], i - 1);
    }
  }
}
