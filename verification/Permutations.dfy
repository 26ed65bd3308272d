/**
  * `Permute`, the recursive enumeration of all orderings of a list, and
  * `GetAllPossibleMappings`, the 120 orderings of the trigram digits 0..4
  * that the mapped trigram views are tried with. The lazy `IEnumerable` of
  * the source is modelled as an eager sequence in the same order.
  */
module Permutations {
  import opened Primitives
  import opened Seqs

  /** `list.Where((e, i) => i != index)`: the list without position `index`. */
  function RemoveAt<T>(s: seq<T>, index: nat): (r: seq<T>)
    requires index < |s|
    ensures |r| == |s| - 1
  {
    s[..index] + s[index + 1..]
  }

  /** `permutationOfRemainder.Prepend(startingElement)` over every permutation of the remainder. */
  function Prefixed<T>(x: T, ps: seq<seq<T>>): (r: seq<seq<T>>)
    ensures |r| == |ps|
  {
    seq(|ps|, j requires 0 <= j < |ps| => [x] + ps[j])
  }

  /** `Permute`: the empty list has one (empty) ordering; otherwise each element in turn is put first. */
  function Permute<T>(list: seq<T>): seq<seq<T>>
    decreases |list|, 1
  {
    if |list| == 0 then [[]] else PermuteFrom(list, 0)
  }

  /** The orderings that start with the element at `index` or a later one, in the order the `foreach` yields them. */
  function PermuteFrom<T>(list: seq<T>, index: nat): seq<seq<T>>
    requires index <= |list|
    decreases |list|, 0, |list| - index
  {
    if index == |list| then []
    else Prefixed(list[index], Permute(RemoveAt(list, index))) + PermuteFrom(list, index + 1)
  }

  function Factorial(n: nat): (f: nat)
    ensures f >= 1
  {
    if n == 0 then 1 else n * Factorial(n - 1)
  }

  // ---------------------------------------------------------------------
  // n! orderings
  // ---------------------------------------------------------------------

  lemma {:induction false} PermuteLength<T>(list: seq<T>)
    ensures |Permute(list)| == Factorial(|list|)
    decreases |list|, 1
  {
    if |list| > 0 {
      PermuteFromLength(list, 0);
    }
  }

  lemma {:induction false} PermuteFromLength<T>(list: seq<T>, index: nat)
    requires 0 < |list| && index <= |list|
    ensures |PermuteFrom(list, index)| == (|list| - index) * Factorial(|list| - 1)
    decreases |list|, 0, |list| - index
  {
    if index < |list| {
      PermuteLength(RemoveAt(list, index));
      PermuteFromLength(list, index + 1);
      var f := Factorial(|list| - 1);
      assert (|list| - index) * f == f + (|list| - index - 1) * f;
    }
  }

  // ---------------------------------------------------------------------
  // Every entry is an ordering of the list
  // ---------------------------------------------------------------------

  /** Removing one position removes exactly that element from the multiset. */
  lemma RemoveAtMultiset<T>(s: seq<T>, index: nat)
    requires index < |s|
    ensures multiset(s) == multiset(RemoveAt(s, index)) + multiset{s[index]}
  {
    assert s == s[..index] + [s[index]] + s[index + 1..];
  }

  lemma {:induction false} PermuteIsPermutation<T>(list: seq<T>)
    ensures forall p :: p in Permute(list) ==> multiset(p) == multiset(list)
    decreases |list|, 1
  {
    if |list| > 0 {
      PermuteFromIsPermutation(list, 0);
    }
  }

  lemma {:induction false} PermuteFromIsPermutation<T>(list: seq<T>, index: nat)
    requires index <= |list|
    ensures forall p :: p in PermuteFrom(list, index) ==> multiset(p) == multiset(list)
    decreases |list|, 0, |list| - index
  {
    if index < |list| {
      var rest := RemoveAt(list, index);
      var block := Prefixed(list[index], Permute(rest));
      PermuteIsPermutation(rest);
      RemoveAtMultiset(list, index);
      forall p | p in block
        ensures multiset(p) == multiset(list)
      {
        var j :| 0 <= j < |block| && block[j] == p;
        assert Permute(rest)[j] in Permute(rest);
      }
      PermuteFromIsPermutation(list, index + 1);
    }
  }

  // ---------------------------------------------------------------------
  // Every ordering is an entry
  // ---------------------------------------------------------------------

  lemma {:induction false} PermuteComplete<T>(list: seq<T>, p: seq<T>)
    requires multiset(p) == multiset(list)
    ensures p in Permute(list)
    decreases |list|, 1
  {
    if |list| == 0 {
      assert p == [];
    } else {
      assert |p| == |multiset(p)| == |list|;
      assert p[0] in multiset(list);
      PermuteFromComplete(list, 0, p);
    }
  }

  lemma {:induction false} PermuteFromComplete<T>(list: seq<T>, index: nat, p: seq<T>)
    requires index < |list| && |p| > 0
    requires multiset(p) == multiset(list)
    requires p[0] in list[index..]
    ensures p in PermuteFrom(list, index)
    decreases |list|, 0, |list| - index
  {
    if list[index] == p[0] {
      var rest := RemoveAt(list, index);
      RemoveAtMultiset(list, index);
      assert p == [p[0]] + p[1..];
      assert multiset(p) == multiset{p[0]} + multiset(p[1..]);
      forall y
        ensures multiset(p[1..])[y] == multiset(rest)[y]
      {
        assert multiset(p)[y] == multiset(list)[y];
      }
      assert multiset(p[1..]) == multiset(rest);
      PermuteComplete(rest, p[1..]);
      var j :| 0 <= j < |Permute(rest)| && Permute(rest)[j] == p[1..];
      assert Prefixed(list[index], Permute(rest))[j] == p;
    } else {
      assert list[index..] == [list[index]] + list[index + 1..];
      PermuteFromComplete(list, index + 1, p);
    }
  }

  // ---------------------------------------------------------------------
  // Each ordering exactly once
  // ---------------------------------------------------------------------

  lemma RemoveAtDistinct<T>(s: seq<T>, index: nat)
    requires index < |s| && Distinct(s)
    ensures Distinct(RemoveAt(s, index))
  {
    var r := RemoveAt(s, index);
    forall i, j | 0 <= i < j < |r|
      ensures r[i] != r[j]
    {
      var i' := if i < index then i else i + 1;
      var j' := if j < index then j else j + 1;
      assert r[i] == s[i'] && r[j] == s[j'];
    }
  }

  lemma {:induction false} PermuteDistinct<T>(list: seq<T>)
    requires Distinct(list)
    ensures Distinct(Permute(list))
    decreases |list|, 1
  {
    if |list| > 0 {
      PermuteFromDistinct(list, 0);
    }
  }

  /**
    * The orderings from `index` on are distinct and each starts with an
    * element at `index` or later; blocks for different starting elements
    * therefore never share an entry.
    */
  lemma {:induction false} PermuteFromDistinct<T>(list: seq<T>, index: nat)
    requires index <= |list| && Distinct(list)
    ensures Distinct(PermuteFrom(list, index))
    ensures forall p :: p in PermuteFrom(list, index) ==> |p| > 0 && p[0] in list[index..]
    decreases |list|, 0, |list| - index
  {
    if index < |list| {
      var rest := RemoveAt(list, index);
      var block := Prefixed(list[index], Permute(rest));
      var later := PermuteFrom(list, index + 1);
      RemoveAtDistinct(list, index);
      PermuteDistinct(rest);
      PermuteFromDistinct(list, index + 1);
      assert list[index..] == [list[index]] + list[index + 1..];
      forall i, j | 0 <= i < j < |block|
        ensures block[i] != block[j]
      {
        assert block[i][1..] == Permute(rest)[i] && block[j][1..] == Permute(rest)[j];
      }
      forall p | p in later
        ensures p[0] != list[index]
      {
        var k :| index + 1 <= k < |list| && list[k] == p[0];
      }
      DistinctConcat(block, later);
    }
  }

  /** Two sequences without repetitions and without a common element concatenate to one without repetitions. */
  lemma DistinctConcat<T>(a: seq<T>, b: seq<T>)
    requires Distinct(a) && Distinct(b)
    requires forall x :: x in a ==> x !in b
    ensures Distinct(a + b)
  {
    var c := a + b;
    forall i, j | 0 <= i < j < |c|
      ensures c[i] != c[j]
    {
      if i < |a| && j >= |a| {
        assert c[i] in a && c[j] == b[j - |a|];
      } else if i >= |a| {
        assert c[i] == b[i - |a|] && c[j] == b[j - |a|];
      }
    }
  }

  // ---------------------------------------------------------------------
  // GetAllPossibleMappings
  // ---------------------------------------------------------------------

  const Digits: seq<Byte> := [0, 1, 2, 3, 4]

  /** `GetAllPossibleMappings`: every ordering of the digits 0..4. */
  function GetAllPossibleMappings(): seq<seq<Byte>>
  {
    Permute(Digits)
  }

  /** There are 120 mappings. */
  lemma MappingsCount()
    ensures |GetAllPossibleMappings()| == 120
  {
    FiveOrderings(Digits);
  }

  /** Five distinct positions have 5! = 120 orderings. */
  lemma FiveOrderings<T>(list: seq<T>)
    requires |list| == 5
    ensures |Permute(list)| == 120
  {
    PermuteLength(list);
    assert Factorial(5) == 120;
  }

  /** No mapping occurs twice. */
  lemma MappingsDistinct()
    ensures Distinct(GetAllPossibleMappings())
  {
    PermuteDistinct(Digits);
  }

  /** Each mapping is a rearrangement of 0..4. */
  lemma MappingsArePermutations(m: seq<Byte>)
    requires m in GetAllPossibleMappings()
    ensures multiset(m) == multiset(Digits)
  {
    PermuteIsPermutation(Digits);
  }

  /** A rearrangement of 0..4 has five entries, each a valid trigram digit, as the mapped views require. */
  lemma DigitPermutationShape(m: seq<Byte>)
    requires multiset(m) == multiset(Digits)
    ensures |m| == 5 && forall i :: 0 <= i < 5 ==> m[i] < 5
  {
    assert |m| == |multiset(m)| == 5;
    forall i | 0 <= i < 5
      ensures m[i] < 5
    {
      assert m[i] in multiset(Digits);
    }
  }

  /** Every rearrangement of 0..4 is among the mappings. */
  lemma MappingsComplete(m: seq<Byte>)
    requires multiset(m) == multiset(Digits)
    ensures m in GetAllPossibleMappings()
  {
    PermuteComplete(Digits, m);
  }
}
