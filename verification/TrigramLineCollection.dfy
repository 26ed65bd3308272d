/**
  * `TrigramLineCollection`: the list of messages. Its array of lines is
  * shared with the caller and the indexer's setter replaces lines in place,
  * so it is a class over an `array`; the lifted `Reorder` and `GetHalf`
  * build a fresh array and a fresh collection.
  */
module TrigramLineCollections {
  import opened Primitives
  import opened Sums
  import opened Seqs
  import opened Trigrams
  import opened Frequency
  import TrigramCollections

  /** The length of one line, as a function to sum or multiply. */
  function LineLength(line: seq<Trigram>): int
  {
    |line|
  }

  /** `l => Count(l, t)`: the frequency of `t` in a line. */
  function LineCounter(t: Trigram): seq<Trigram> -> int
  {
    line => Count(line, t)
  }

  /** The table entry for `key`, or 0 when there is none (`ContainsKey(t) ? data[t] : 0`). */
  function Lookup(table: map<Trigram, nat>, key: Trigram): nat
  {
    if key in table then table[key] else 0
  }

  /** Two tables merged key by key, the counts of a key in both added. */
  function Merged(into: map<Trigram, nat>, data: map<Trigram, nat>): map<Trigram, nat>
  {
    map k | k in into.Keys + data.Keys :: Lookup(into, k) + Lookup(data, k)
  }

  /** Merging the frequency tables of two messages gives the table of their concatenation. */
  lemma MergedFrequencies(a: seq<Trigram>, b: seq<Trigram>)
    ensures Merged(Frequencies(a), Frequencies(b)) == Frequencies(a + b)
  {
    var merged, whole := Merged(Frequencies(a), Frequencies(b)), Frequencies(a + b);
    assert merged.Keys == whole.Keys by {
      forall k ensures k in a + b <==> k in a || k in b {
      }
    }
    forall k | k in whole
      ensures merged[k] == whole[k]
    {
      CountAppend(a, b, k);
    }
  }

  /** Every line's table merged into the running one: a count is the sum of its per-line counts. */
  lemma {:induction false} MergedCounts(lines: seq<seq<Trigram>>, t: Trigram)
    ensures Lookup(Frequencies(Flatten(lines)), t) == SumSeq(lines, LineCounter(t))
    decreases |lines|
  {
    if lines != [] {
      var init := lines[..|lines| - 1];
      MergedCounts(init, t);
      CountAppend(Flatten(init), lines[|lines| - 1], t);
    }
  }

  /** The merged counts add up to the total length of the lines. */
  lemma {:induction false} MergedTotal(lines: seq<seq<Trigram>>)
    ensures SumSet(Frequencies(Flatten(lines)).Keys, Counter(Flatten(lines))) == SumSeq(lines, LineLength)
    decreases |lines|
  {
    FrequencyTotal(Flatten(lines));
    FlattenLength(lines);
  }

  lemma {:induction false} FlattenLength(lines: seq<seq<Trigram>>)
    ensures |Flatten(lines)| == SumSeq(lines, LineLength)
    decreases |lines|
  {
    if lines != [] {
      FlattenLength(lines[..|lines| - 1]);
    }
  }

  /** The product of `t`'s frequencies over all lines: a trigram absent from some line contributes 0. */
  function CommonCounter(lines: seq<seq<Trigram>>): Trigram -> int
  {
    t => ProductSeq(lines, LineCounter(t))
  }

  /**
    * The product-form index of coincidence: over every trigram that occurs
    * in some line, the product of its frequencies in the lines, summed, over
    * the product of the line lengths.
    */
  ghost function LineIc(lines: seq<seq<Trigram>>): Ratio
  {
    Ratio(SumSet(Frequencies(Flatten(lines)).Keys, CommonCounter(lines)), ProductSeq(lines, LineLength))
  }

  class TrigramLineCollection {
    const lines: array<seq<Trigram>>

    constructor (trigramLines: array<seq<Trigram>>)
      ensures lines == trigramLines
    {
      lines := trigramLines;
    }

    /** The indexer's getter. */
    function Get(index: nat): seq<Trigram>
      requires index < lines.Length
      reads lines
    {
      lines[index]
    }

    /** The indexer's setter: line `index` is replaced and every other line is left as it was. */
    method Set(index: nat, line: seq<Trigram>)
      requires index < lines.Length
      modifies lines
      ensures Get(index) == line
      ensures forall j :: 0 <= j < lines.Length && j != index ==> Get(j) == old(Get(j))
    {
      lines[index] := line;
    }

    /** `Reorder(odd, even)`: a new collection whose line i is line i reordered. */
    method Reorder(odd: ReorderParam, even: ReorderParam) returns (r: TrigramLineCollection)
      ensures fresh(r) && fresh(r.lines) && r.lines.Length == lines.Length
      ensures forall i :: 0 <= i < lines.Length ==> r.lines[i] == TrigramCollections.Reordered(lines[i], odd, even)
    {
      var result := new seq<Trigram>[lines.Length];
      for i := 0 to result.Length
        invariant forall k :: 0 <= k < i ==> result[k] == TrigramCollections.Reordered(lines[k], odd, even)
      {
        result[i] := TrigramCollections.Reorder(lines[i], odd, even);
      }
      r := new TrigramLineCollection(result);
    }

    /** `GetHalf(odd)` (`GetOdd`, `GetEven`): a new collection whose line i is the chosen half of line i. */
    method GetHalf(odd: bool) returns (r: TrigramLineCollection)
      ensures fresh(r) && fresh(r.lines) && r.lines.Length == lines.Length
      ensures forall i :: 0 <= i < lines.Length ==> r.lines[i] == Column(lines[i], 2, if odd then 0 else 1)
    {
      var result := new seq<Trigram>[lines.Length];
      for i := 0 to result.Length
        invariant forall k :: 0 <= k < i ==> result[k] == Column(lines[k], 2, if odd then 0 else 1)
      {
        result[i] := TrigramCollections.GetHalf(lines[i], odd);
      }
      r := new TrigramLineCollection(result);
    }

    /** `GetFrequencyData()`: the per-line tables merged; a count is the count in all lines together. */
    method GetFrequencyData() returns (result: map<Trigram, nat>)
      ensures result == Frequencies(Flatten(lines[..]))
    {
      result := map[];
      for i := 0 to lines.Length
        invariant result == Frequencies(Flatten(lines[..i]))
      {
        var data := Frequency.GetFrequencyData(lines[i]);
        result := MergeCounts(result, data);
        MergedFrequencies(Flatten(lines[..i]), lines[i]);
        assert lines[..i + 1][..i] == lines[..i];
      }
      assert lines[..lines.Length] == lines[..];
    }

    /**
      * `GetIc()`: the product-form index of coincidence. With no line at all
      * the source reads line 0 and throws.
      */
    method GetIc() returns (r: Result<Ratio>)
      ensures lines.Length == 0 ==> r == Err(IndexOutOfRange)
      ensures lines.Length > 0 ==> r == Ok(LineIc(lines[..]))
    {
      if lines.Length == 0 {
        return Err(IndexOutOfRange);
      }
      ghost var all := lines[..];
      var data: seq<map<Trigram, nat>> := [];
      for i := 0 to lines.Length
        invariant |data| == i
        invariant forall k :: 0 <= k < i ==> data[k] == Frequencies(all[k])
      {
        var table := Frequency.GetFrequencyData(lines[i]);
        data := data + [table];
      }
      var denom := |lines[0]|;
      ProductSeqStep(all, 0, LineLength);
      for i := 1 to lines.Length
        invariant denom == ProductSeq(all[..i], LineLength)
      {
        ProductSeqStep(all, i, LineLength);
        denom := denom * |lines[i]|;
      }
      var alphabet: set<Trigram> := {};
      for i := 0 to lines.Length
        invariant alphabet == Frequencies(Flatten(all[..i])).Keys
      {
        FlattenStep(all, i);
        alphabet := alphabet + data[i].Keys;
      }
      assert all[..lines.Length] == all;
      var sum := 0;
      var keys := alphabet;
      while keys != {}
        invariant keys <= alphabet
        invariant sum + SumSet(keys, CommonCounter(all)) == SumSet(alphabet, CommonCounter(all))
        decreases keys
      {
        var trigram :| trigram in keys;
        var partialSum := ProductOfCounts(data, trigram, all);
        SumSetRemove(keys, CommonCounter(all), trigram);
        sum := sum + partialSum;
        keys := keys - {trigram};
      }
      r := Ok(Ratio(sum, denom));
    }
  }

  /** One more element multiplies the product of a prefix by its factor. */
  lemma ProductSeqStep<T>(s: seq<T>, i: nat, g: T -> int)
    requires i < |s|
    ensures ProductSeq(s[..i + 1], g) == ProductSeq(s[..i], g) * g(s[i])
  {
    assert s[..i + 1][..i] == s[..i];
  }

  /** One more line extends the concatenation, and its trigrams join the union. */
  lemma FlattenStep(lines: seq<seq<Trigram>>, i: nat)
    requires i < |lines|
    ensures Flatten(lines[..i + 1]) == Flatten(lines[..i]) + lines[i]
    ensures Frequencies(Flatten(lines[..i + 1])).Keys == Frequencies(Flatten(lines[..i])).Keys + Frequencies(lines[i]).Keys
  {
    assert lines[..i + 1][..i] == lines[..i];
  }

  /**
    * The inner loop of `GetIc`: the running product of one trigram's counts
    * over the line tables, an absent entry counting 0.
    */
  method ProductOfCounts(data: seq<map<Trigram, nat>>, trigram: Trigram, ghost lines: seq<seq<Trigram>>) returns (partialSum: int)
    requires |data| == |lines| > 0
    requires forall k :: 0 <= k < |data| ==> data[k] == Frequencies(lines[k])
    ensures partialSum == CommonCounter(lines)(trigram)
  {
    partialSum := Lookup(data[0], trigram);
    ProductSeqStep(lines, 0, LineCounter(trigram));
    for i := 1 to |data|
      invariant partialSum == ProductSeq(lines[..i], LineCounter(trigram))
    {
      ProductSeqStep(lines, i, LineCounter(trigram));
      partialSum := partialSum * Lookup(data[i], trigram);
    }
    assert lines[..|data|] == lines;
  }

  /** The inner `foreach` of `GetFrequencyData`: add each entry of `data`, inserting keys not yet present. */
  method MergeCounts(into: map<Trigram, nat>, data: map<Trigram, nat>) returns (result: map<Trigram, nat>)
    ensures result == Merged(into, data)
  {
    result := into;
    var keys := data.Keys;
    while keys != {}
      invariant keys <= data.Keys
      invariant result.Keys == into.Keys + (data.Keys - keys)
      invariant forall k :: k in result ==> result[k] == Lookup(into, k) + (if k in data && k !in keys then data[k] else 0)
      decreases keys
    {
      var key :| key in keys;
      if key in result {
        result := result[key := result[key] + data[key]];
      } else {
        result := result[key := data[key]];
      }
      keys := keys - {key};
    }
  }

  // ---------------------------------------------------------------------
  // Properties of the product-form index of coincidence
  // ---------------------------------------------------------------------

  /** A product with a zero factor is zero. */
  lemma {:induction false} ProductSeqZero<T>(s: seq<T>, g: T -> int, i: nat)
    requires i < |s| && g(s[i]) == 0
    ensures ProductSeq(s, g) == 0
    decreases |s|
  {
    if i < |s| - 1 {
      ProductSeqZero(s[..|s| - 1], g, i);
    }
  }

  /** If no trigram occurs in every line, no term survives and the numerator is 0. */
  lemma NoCommonTrigram(lines: seq<seq<Trigram>>)
    requires forall t :: t in Flatten(lines) ==> exists i :: 0 <= i < |lines| && t !in lines[i]
    ensures LineIc(lines).num == 0
  {
    var keys := Frequencies(Flatten(lines)).Keys;
    forall t | t in keys
      ensures CommonCounter(lines)(t) == 0
    {
      var i :| 0 <= i < |lines| && t !in lines[i];
      ProductSeqZero(lines, LineCounter(t), i);
    }
    SumSetZero(keys, CommonCounter(lines));
  }

  /** A product over one element is that element's factor. */
  lemma ProductSeqSingle<T>(x: T, g: T -> int)
    ensures ProductSeq([x], g) == g(x)
  {
    assert [x][..0] == [];
  }

  /** The lines of a one-line collection, concatenated, are that line. */
  lemma FlattenSingle(line: seq<Trigram>)
    ensures Flatten([line]) == line
  {
    assert [line][..0] == [];
  }

  /** With one line the product form is the line's own length over itself, a ratio of 1 when the line is not empty. */
  lemma SingleLine(line: seq<Trigram>)
    ensures LineIc([line]) == Ratio(|line|, |line|)
  {
    FlattenSingle(line);
    ProductSeqSingle(line, LineLength);
    SingleLineSum(line, Frequencies(line).Keys);
    FrequencyTotal(line);
  }

  /** Over one line the product-form terms are the line's own counts. */
  lemma SingleLineSum(line: seq<Trigram>, keys: set<Trigram>)
    ensures SumSet(keys, CommonCounter([line])) == SumSet(keys, Counter(line))
  {
    forall t | t in keys
      ensures CommonCounter([line])(t) == Counter(line)(t)
    {
      ProductSeqSingle(line, LineCounter(t));
    }
    SumSetExt(keys, CommonCounter([line]), Counter(line));
  }

  /** Every term of the product is a natural number. */
  lemma {:induction false} CommonCountNonNegative(lines: seq<seq<Trigram>>, t: Trigram)
    ensures ProductSeq(lines, LineCounter(t)) >= 0
    decreases |lines|
  {
    if lines != [] {
      CommonCountNonNegative(lines[..|lines| - 1], t);
    }
  }

  /** The base case of the bound: over one line the sum is the line's length. */
  lemma BoundedSingle(line: seq<Trigram>, keys: set<Trigram>)
    requires Frequencies(line).Keys <= keys
    ensures SumSet(keys, CommonCounter([line])) == ProductSeq([line], LineLength)
  {
    SingleLineSum(line, keys);
    SumSetSuperset(Frequencies(line).Keys, keys, Counter(line));
    FrequencyTotal(line);
    ProductSeqSingle(line, LineLength);
  }

  /** One more line multiplies a trigram's term by its count there, at most that line's length. */
  lemma TermStep(lines: seq<seq<Trigram>>, t: Trigram)
    requires |lines| > 1
    ensures CommonCounter(lines)(t) <= |lines[|lines| - 1]| * CommonCounter(lines[..|lines| - 1])(t)
  {
    var init, last := lines[..|lines| - 1], lines[|lines| - 1];
    var product := ProductSeq(init, LineCounter(t));
    assert CommonCounter(init)(t) == product;
    assert CommonCounter(lines)(t) == product * Count(last, t);
    CommonCountNonNegative(init, t);
    MulMonotone(Count(last, t), |last|, product);
  }

  /** Summing the term bound: one more line multiplies the sum by at most its length. */
  lemma BoundStep(lines: seq<seq<Trigram>>, keys: set<Trigram>)
    requires |lines| > 1
    requires SumSet(keys, CommonCounter(lines[..|lines| - 1])) <= ProductSeq(lines[..|lines| - 1], LineLength)
    ensures SumSet(keys, CommonCounter(lines)) <= ProductSeq(lines, LineLength)
  {
    var init, n := lines[..|lines| - 1], |lines[|lines| - 1]|;
    var scaled: Trigram -> int := t => n * CommonCounter(init)(t);
    forall t | t in keys
      ensures CommonCounter(lines)(t) <= scaled(t)
    {
      TermStep(lines, t);
    }
    SumSetMonotone(keys, CommonCounter(lines), scaled);
    SumSetScale(keys, CommonCounter(init), scaled, n);
    var before, product := SumSet(keys, CommonCounter(init)), ProductSeq(init, LineLength);
    MulMonotone(before, product, n);
    assert ProductSeq(lines, LineLength) == product * n;
  }

  /** The trigrams of the first lines are among the trigrams of all of them. */
  lemma FlattenKeys(lines: seq<seq<Trigram>>)
    requires |lines| > 0
    ensures Frequencies(Flatten(lines[..|lines| - 1])).Keys <= Frequencies(Flatten(lines)).Keys
  {
  }

  /**
    * The sum over any set of trigrams that contains every trigram of the
    * lines is at most the product of their lengths.
    */
  lemma {:induction false} Bounded(lines: seq<seq<Trigram>>, keys: set<Trigram>)
    requires |lines| > 0
    requires Frequencies(Flatten(lines)).Keys <= keys
    ensures SumSet(keys, CommonCounter(lines)) <= ProductSeq(lines, LineLength)
    decreases |lines|
  {
    if |lines| == 1 {
      assert lines == [lines[0]];
      FlattenSingle(lines[0]);
      BoundedSingle(lines[0], keys);
    } else {
      FlattenKeys(lines);
      Bounded(lines[..|lines| - 1], keys);
      BoundStep(lines, keys);
    }
  }

  /** With at least one line the product-form numerator lies between 0 and the denominator. */
  lemma LineIcBounded(lines: seq<seq<Trigram>>)
    requires |lines| > 0
    ensures 0 <= LineIc(lines).num <= LineIc(lines).den
  {
    var keys := Frequencies(Flatten(lines)).Keys;
    Bounded(lines, keys);
    forall t | t in keys
      ensures CommonCounter(lines)(t) >= 0
    {
      CommonCountNonNegative(lines, t);
    }
    SumSetMonotone(keys, t => 0, CommonCounter(lines));
    SumSetZero(keys, t => 0);
  }
}
