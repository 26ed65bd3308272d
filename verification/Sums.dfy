/**
  * Finite sums used to state what the frequency tables and the indices of
  * coincidence add up to. `SumSet` adds a function over a finite set in an
  * arbitrary order, as `foreach` over a C# `Dictionary` does; the lemmas show
  * that the order does not matter.
  */
module Sums {

  /** Some element of a non-empty set (the one a `foreach` happens to visit first). */
  ghost function Pick<T>(ks: set<T>): T
    requires ks != {}
  {
    var k :| k in ks; k
  }

  ghost function SumSet<T>(ks: set<T>, g: T -> int): int
    decreases ks
  {
    if ks == {} then 0 else g(Pick(ks)) + SumSet(ks - {Pick(ks)}, g)
  }

  /** Removing any one element first gives the same sum. */
  lemma {:induction false} SumSetRemove<T>(ks: set<T>, g: T -> int, x: T)
    requires x in ks
    ensures SumSet(ks, g) == g(x) + SumSet(ks - {x}, g)
    decreases ks
  {
    var k := Pick(ks);
    if k != x {
      SumSetRemove(ks - {k}, g, x);
      SumSetRemove(ks - {x}, g, k);
      assert ks - {k} - {x} == ks - {x} - {k};
    }
  }

  lemma SumSetInsert<T>(ks: set<T>, g: T -> int, x: T)
    requires x !in ks
    ensures SumSet(ks + {x}, g) == g(x) + SumSet(ks, g)
  {
    SumSetRemove(ks + {x}, g, x);
    assert ks + {x} - {x} == ks;
  }

  /** Functions that agree on the set have the same sum over it. */
  lemma {:induction false} SumSetExt<T>(ks: set<T>, f: T -> int, g: T -> int)
    requires forall k :: k in ks ==> f(k) == g(k)
    ensures SumSet(ks, f) == SumSet(ks, g)
    decreases ks
  {
    if ks != {} {
      var k := Pick(ks);
      SumSetExt(ks - {k}, f, g);
    }
  }

  lemma {:induction false} SumSetZero<T>(ks: set<T>, g: T -> int)
    requires forall k :: k in ks ==> g(k) == 0
    ensures SumSet(ks, g) == 0
    decreases ks
  {
    if ks != {} {
      SumSetZero(ks - {Pick(ks)}, g);
    }
  }

  lemma {:induction false} SumSetAdd<T>(ks: set<T>, f: T -> int, g: T -> int, h: T -> int)
    requires forall k :: k in ks ==> h(k) == f(k) + g(k)
    ensures SumSet(ks, h) == SumSet(ks, f) + SumSet(ks, g)
    decreases ks
  {
    if ks != {} {
      var k := Pick(ks);
      SumSetAdd(ks - {k}, f, g, h);
      SumSetRemove(ks, f, k);
      SumSetRemove(ks, g, k);
    }
  }

  lemma {:induction false} SumSetMonotone<T>(ks: set<T>, f: T -> int, g: T -> int)
    requires forall k :: k in ks ==> f(k) <= g(k)
    ensures SumSet(ks, f) <= SumSet(ks, g)
    decreases ks
  {
    if ks != {} {
      var k := Pick(ks);
      SumSetMonotone(ks - {k}, f, g);
    }
  }

  /** Elements outside `small` contribute nothing, so summing over the larger set changes nothing. */
  lemma {:induction false} SumSetSuperset<T>(small: set<T>, big: set<T>, g: T -> int)
    requires small <= big
    requires forall k :: k in big && k !in small ==> g(k) == 0
    ensures SumSet(big, g) == SumSet(small, g)
    decreases big
  {
    if big != small {
      var k :| k in big && k !in small;
      SumSetRemove(big, g, k);
      SumSetSuperset(small, big - {k}, g);
    }
  }

  /** A function that is zero everywhere except at `x` sums to its value at `x`. */
  lemma SumSetSingle<T>(ks: set<T>, g: T -> int, x: T)
    requires x in ks
    requires forall k :: k in ks && k != x ==> g(k) == 0
    ensures SumSet(ks, g) == g(x)
  {
    SumSetRemove(ks, g, x);
    SumSetZero(ks - {x}, g);
  }

  /** A constant factor comes out of the sum. */
  lemma {:induction false} SumSetScale<T>(ks: set<T>, f: T -> int, g: T -> int, c: int)
    requires forall k :: k in ks ==> g(k) == c * f(k)
    ensures SumSet(ks, g) == c * SumSet(ks, f)
    decreases ks
  {
    if ks != {} {
      var k := Pick(ks);
      SumSetScale(ks - {k}, f, g, c);
      assert c * f(k) + c * SumSet(ks - {k}, f) == c * (f(k) + SumSet(ks - {k}, f));
    }
  }

  /** The sum of `g` over the elements of a sequence, position by position. */
  function SumSeq<T>(s: seq<T>, g: T -> int): int
  {
    if s == [] then 0 else SumSeq(s[..|s| - 1], g) + g(s[|s| - 1])
  }

  /** The product of `g` over the elements of a sequence, left to right. */
  function ProductSeq<T>(s: seq<T>, g: T -> int): int
  {
    if s == [] then 1 else ProductSeq(s[..|s| - 1], g) * g(s[|s| - 1])
  }
}
