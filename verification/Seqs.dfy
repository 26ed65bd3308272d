/**
  * Sequence helpers shared by the string and trigram algorithms: C#'s
  * `IndexOf`, occurrence counts, and the periodic columns that the index of
  * coincidence splits a message into.
  */
module Seqs {

  /** No value occurs twice. */
  predicate Distinct<T(==)>(s: seq<T>)
  {
    forall i, j :: 0 <= i < j < |s| ==> s[i] != s[j]
  }

  /** `IndexOf`: the first position holding `x`, or -1 when there is none. */
  function IndexOf<T(==)>(s: seq<T>, x: T): (i: int)
    ensures -1 <= i < |s|
    ensures i == -1 <==> x !in s
    ensures 0 <= i ==> s[i] == x && x !in s[..i]
  {
    if |s| == 0 then -1
    else if s[0] == x then 0
    else
      var j := IndexOf(s[1..], x);
      if j == -1 then -1
      else
        assert s[..j + 1] == [s[0]] + s[1..][..j];
        j + 1
  }

  /** In a sequence without repetitions the position of an element is where it stands. */
  lemma IndexOfDistinct<T>(s: seq<T>, k: int)
    requires Distinct(s) && 0 <= k < |s|
    ensures IndexOf(s, s[k]) == k
  {
  }

  /** The number of occurrences of `x` in `s`. */
  function Count<T(==)>(s: seq<T>, x: T): (n: nat)
    ensures n <= |s|
    ensures n == 0 <==> x !in s
  {
    if s == [] then 0
    else
      assert s == s[..|s| - 1] + [s[|s| - 1]];
      Count(s[..|s| - 1], x) + (if s[|s| - 1] == x then 1 else 0)
  }

  lemma CountSnoc<T>(s: seq<T>, y: T, x: T)
    ensures Count(s + [y], x) == Count(s, x) + (if y == x then 1 else 0)
  {
    assert (s + [y])[..|s|] == s;
  }

  lemma {:induction false} CountAppend<T>(a: seq<T>, b: seq<T>, x: T)
    ensures Count(a + b, x) == Count(a, x) + Count(b, x)
    decreases |b|
  {
    if b == [] {
      assert a + b == a;
    } else {
      var b', y := b[..|b| - 1], b[|b| - 1];
      assert a + b == (a + b') + [y];
      assert b == b' + [y];
      CountAppend(a, b', x);
      CountSnoc(a + b', y, x);
      CountSnoc(b', y, x);
    }
  }

  /**
    * The elements at `start`, `start + step`, `start + 2 * step`, ...: the
    * column the `while (ind < msg.Length) { col.Add(msg[ind]); ind += i; }`
    * loops collect.
    */
  function Column<T>(s: seq<T>, step: nat, start: nat): seq<T>
    requires step > 0
    decreases |s| - start
  {
    if start >= |s| then [] else [s[start]] + Column(s, step, start + step)
  }

  /** Column `start` holds exactly the positions `start + k * step` that lie inside `s`. */
  lemma {:induction false} ColumnIndex<T>(s: seq<T>, step: nat, start: nat, k: nat)
    requires step > 0
    ensures k < |Column(s, step, start)| <==> start + k * step < |s|
    ensures k < |Column(s, step, start)| ==> Column(s, step, start)[k] == s[start + k * step]
    decreases |s| - start
  {
    if start >= |s| {
      assert k * step >= 0;
    } else if k > 0 {
      ColumnIndex(s, step, start + step, k - 1);
      assert start + step + (k - 1) * step == start + k * step;
    }
  }

  /**
    * The columns `0 .. step - 1` partition the positions: position `p` is
    * entry `p / step` of column `p % step` (and, by `ColumnIndex`, no column
    * holds a position of another residue).
    */
  lemma ColumnsPartition<T>(s: seq<T>, step: nat, p: nat)
    requires step > 0 && p < |s|
    ensures p % step < step
    ensures p / step < |Column(s, step, p % step)|
    ensures Column(s, step, p % step)[p / step] == s[p]
  {
    ColumnIndex(s, step, p % step, p / step);
  }

  /** Every element of a column is an element of the sequence. */
  lemma {:induction false} ColumnElements<T>(s: seq<T>, step: nat, start: nat)
    requires step > 0
    ensures forall x :: x in Column(s, step, start) ==> x in s
    decreases |s| - start
  {
    if start < |s| {
      ColumnElements(s, step, start + step);
    }
  }

  /** With step 1 the single column is the whole sequence. */
  lemma {:induction false} ColumnOfStepOne<T>(s: seq<T>, start: nat)
    requires start <= |s|
    ensures Column(s, 1, start) == s[start..]
    decreases |s| - start
  {
    if start < |s| {
      ColumnOfStepOne(s, start + 1);
    }
  }

  /** Sequences one after the other (`SelectMany`, or `AddRange` in a loop). */
  function Flatten<T>(ss: seq<seq<T>>): seq<T>
  {
    if ss == [] then [] else Flatten(ss[..|ss| - 1]) + ss[|ss| - 1]
  }

  /** Flattening distributes over concatenation. */
  lemma {:induction false} FlattenAppend<T>(a: seq<seq<T>>, b: seq<seq<T>>)
    ensures Flatten(a + b) == Flatten(a) + Flatten(b)
    decreases |b|
  {
    if b == [] {
      assert a + b == a;
    } else {
      var init, last := b[..|b| - 1], b[|b| - 1];
      assert (a + b)[..|a + b| - 1] == a + init;
      assert (a + b)[|a + b| - 1] == last;
      assert Flatten(a + b) == Flatten(a + init) + last;
      FlattenAppend(a, init);
      assert Flatten(b) == Flatten(init) + last;
    }
  }

  /** `List.Reverse`: the elements in the opposite order. */
  function Reversed<T>(s: seq<T>): (r: seq<T>)
    ensures |r| == |s|
  {
    if s == [] then [] else [s[|s| - 1]] + Reversed(s[..|s| - 1])
  }

  /** Position `i` of the reversal is position `|s| - 1 - i` of the original. */
  lemma {:induction false} ReversedAt<T>(s: seq<T>)
    ensures forall i :: 0 <= i < |s| ==> Reversed(s)[i] == s[|s| - 1 - i]
  {
    if s != [] {
      ReversedAt(s[..|s| - 1]);
    }
  }

  /** Reversing twice restores the sequence, and reversing keeps every element and its multiplicity. */
  lemma ReversedInvolution<T>(s: seq<T>)
    ensures Reversed(Reversed(s)) == s
    ensures multiset(Reversed(s)) == multiset(s)
  {
    ReversedAt(s);
    ReversedAt(Reversed(s));
    ReversedMultiset(s);
  }

  lemma {:induction false} ReversedMultiset<T>(s: seq<T>)
    ensures multiset(Reversed(s)) == multiset(s)
  {
    if s != [] {
      ReversedMultiset(s[..|s| - 1]);
      assert s == s[..|s| - 1] + [s[|s| - 1]];
    }
  }
}
