/** Filtering and sorting, as the loops of the program do them. */
module Sequences {

  /** The elements that satisfy `p`, in order. */
  function Filter<T>(s: seq<T>, p: T -> bool): (r: seq<T>)
    ensures |r| <= |s|
  {
    if s == [] then []
    else
      var kept := Filter(s[..|s| - 1], p);
      if p(s[|s| - 1]) then kept + [s[|s| - 1]] else kept
  }

  lemma FilterSnoc<T>(s: seq<T>, x: T, p: T -> bool)
    ensures Filter(s + [x], p) == if p(x) then Filter(s, p) + [x] else Filter(s, p)
  {
    assert (s + [x])[..|s|] == s;
  }

  /** Every element that satisfies `p` as often as `s` has it, and no other. */
  lemma {:induction false} FilterExact<T>(s: seq<T>, p: T -> bool, x: T)
    ensures multiset(Filter(s, p))[x] == if p(x) then multiset(s)[x] else 0
  {
    if s == [] {
    } else {
      var init, last := s[..|s| - 1], s[|s| - 1];
      assert s == init + [last];
      FilterExact(init, p, x);
      FilterSnoc(init, last, p);
    }
  }

  lemma {:induction false} FilterAll<T>(s: seq<T>, p: T -> bool)
    requires forall i :: 0 <= i < |s| ==> p(s[i])
    ensures Filter(s, p) == s
  {
    if s == [] {
    } else {
      FilterAll(s[..|s| - 1], p);
      assert s == s[..|s| - 1] + [s[|s| - 1]];
    }
  }

  lemma {:induction false} FilterNone<T>(s: seq<T>, p: T -> bool)
    requires forall i :: 0 <= i < |s| ==> !p(s[i])
    ensures Filter(s, p) == []
  {
    if s == [] {
    } else {
      FilterNone(s[..|s| - 1], p);
    }
  }

  ghost predicate TotalOrder<T(!new)>(leq: (T, T) -> bool) {
    && (forall a, b :: leq(a, b) || leq(b, a))
    && (forall a, b, c :: leq(a, b) && leq(b, c) ==> leq(a, c))
  }

  ghost predicate Sorted<T>(s: seq<T>, leq: (T, T) -> bool) {
    forall i, j :: 0 <= i < j < |s| ==> leq(s[i], s[j])
  }

  lemma {:induction false} FilterSorted<T>(s: seq<T>, p: T -> bool, leq: (T, T) -> bool)
    requires Sorted(s, leq)
    ensures Sorted(Filter(s, p), leq)
    ensures forall x :: x in Filter(s, p) ==> x in s
  {
    if s == [] {
    } else {
      var init, last := s[..|s| - 1], s[|s| - 1];
      FilterSorted(init, p, leq);
      assert forall x :: x in init ==> leq(x, last);
      assert forall k :: 0 <= k < |Filter(init, p)| ==> Filter(init, p)[k] in init;
    }
  }

  method Insert<T(!new)>(s: seq<T>, x: T, leq: (T, T) -> bool) returns (r: seq<T>)
    requires TotalOrder(leq) && Sorted(s, leq)
    ensures Sorted(r, leq) && multiset(r) == multiset(s) + multiset{x}
  {
    var i := 0;
    hide Sorted;
    while i < |s| && leq(s[i], x)
      invariant i <= |s| && forall k :: 0 <= k < i ==> leq(s[k], x)
    {
      i := i + 1;
    }
    assert i < |s| ==> leq(x, s[i]);
    InsertAt(s, i, x, leq);
    r := s[..i] + [x] + s[i..];
  }

  lemma SortedConcat<T>(a: seq<T>, b: seq<T>, leq: (T, T) -> bool)
    requires Sorted(a, leq) && Sorted(b, leq)
    requires forall j, k :: 0 <= j < |a| && 0 <= k < |b| ==> leq(a[j], b[k])
    ensures Sorted(a + b, leq)
  {
  }

  lemma InsertAt<T(!new)>(s: seq<T>, i: nat, x: T, leq: (T, T) -> bool)
    requires TotalOrder(leq) && Sorted(s, leq) && i <= |s|
    requires forall k :: 0 <= k < i ==> leq(s[k], x)
    requires i < |s| ==> leq(x, s[i])
    ensures Sorted(s[..i] + [x] + s[i..], leq)
    ensures multiset(s[..i] + [x] + s[i..]) == multiset(s) + multiset{x}
  {
    var before, after := s[..i], s[i..];
    assert s == before + after;
    SortedConcat(before, [x], leq);
    forall k | 0 <= k < |after| ensures leq(x, after[k]) {
      assert k > 0 ==> leq(s[i], s[i + k]);
    }
    hide TotalOrder;
    forall j, k | 0 <= j < |before + [x]| && 0 <= k < |after| ensures leq((before + [x])[j], after[k]) {
      assert j < i ==> leq(s[j], s[i + k]);
    }
    SortedConcat(before + [x], after, leq);
  }

  /** Every element once, in order. */
  method Sort<T(==, !new)>(input: set<T>, leq: (T, T) -> bool) returns (out: seq<T>)
    requires TotalOrder(leq)
    ensures Sorted(out, leq) && multiset(out) == multiset(input)
  {
    out := [];
    var left := input;
    while left != {}
      invariant left <= input && Sorted(out, leq) && multiset(out) == multiset(input - left)
      decreases |left|
    {
      hide TotalOrder, Sorted;
      var x :| x in left;
      out := Insert(out, x, leq);
      assert input - (left - {x}) == (input - left) + {x};
      left := left - {x};
    }
    assert input - {} == input;
  }
}
