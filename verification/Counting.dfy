/** Counting the elements of a sequence that satisfy a predicate, and how one update moves the
    count. The concurrent models count threads and connections by what they are about to do. */
module Counting {

  function Bit(b: bool): nat {
    if b then 1 else 0
  }

  function Count<T>(s: seq<T>, p: T -> bool): nat {
    if s == [] then 0 else Count(s[..|s| - 1], p) + Bit(p(s[|s| - 1]))
  }

  lemma CountAppend<T>(s: seq<T>, x: T, p: T -> bool)
    ensures Count(s + [x], p) == Count(s, p) + Bit(p(x))
  {
    assert (s + [x])[..|s|] == s;
  }

  lemma {:induction false} CountUpdate<T>(s: seq<T>, i: nat, x: T, p: T -> bool)
    requires i < |s|
    ensures Count(s[i := x], p) == Count(s, p) - Bit(p(s[i])) + Bit(p(x))
  {
    var n := |s| - 1;
    if i == n {
      assert s[i := x][..n] == s[..n];
    } else {
      CountUpdate(s[..n], i, x, p);
      assert s[i := x][..n] == s[..n][i := x];
    }
  }

  lemma {:induction false} CountAtMost<T>(s: seq<T>, p: T -> bool)
    ensures Count(s, p) <= |s|
  {
    if s == [] {
    } else {
      CountAtMost(s[..|s| - 1], p);
    }
  }

  lemma {:induction false} CountNone<T>(s: seq<T>, p: T -> bool)
    requires forall i :: 0 <= i < |s| ==> !p(s[i])
    ensures Count(s, p) == 0
  {
    if s == [] {
    } else {
      CountNone(s[..|s| - 1], p);
    }
  }

  /** An element that satisfies `p` is counted. */
  lemma CountSome<T>(s: seq<T>, i: nat, p: T -> bool)
    requires i < |s| && p(s[i])
    ensures Count(s, p) >= 1
    decreases |s|
  {
    if i < |s| - 1 {
      CountSome(s[..|s| - 1], i, p);
    }
  }

  /** A positive count has a witness. */
  lemma {:induction false} CountWitness<T>(s: seq<T>, p: T -> bool) returns (i: nat)
    requires Count(s, p) >= 1
    ensures i < |s| && p(s[i])
  {
    if p(s[|s| - 1]) {
      i := |s| - 1;
    } else {
      i := CountWitness(s[..|s| - 1], p);
    }
  }
}
