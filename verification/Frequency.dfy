/**
  * Frequency tables and the index of coincidence (`Statics.cs`), generic in
  * the symbol type: the string versions use `char`, the `TrigramCollection`
  * versions the same algorithms over `Trigram`.
  *
  * The C# code returns `float`; here an index of coincidence is the exact
  * `Ratio` of the integer numerator and denominator it divides, each computed
  * with the source's unchecked 32-bit products. A ratio with denominator 0
  * stands for the NaN or infinity the float division yields for messages
  * shorter than two symbols.
  */
module Frequency {
  import opened Primitives
  import opened Sums
  import opened Seqs

  /** A fraction `num / den`, not reduced. */
  datatype Ratio = Ratio(num: int, den: int)
  {
    /** Float addition, done exactly: a / b + c / d == (a * d + c * b) / (b * d). */
    function Plus(other: Ratio): Ratio
    {
      Ratio(num * other.den + other.num * den, den * other.den)
    }

    /** Division of the value by `k`. */
    function DividedBy(k: int): Ratio
    {
      Ratio(num, den * k)
    }

    ghost function Value(): real
      requires den != 0
    {
      num as real / den as real
    }
  }

  /** `Plus` adds the values the ratios stand for. */
  lemma PlusValue(r: Ratio, s: Ratio)
    requires r.den != 0 && s.den != 0
    ensures r.Plus(s).den != 0
    ensures r.Plus(s).Value() == r.Value() + s.Value()
  {
    var x, y := r.Value(), s.Value();
    var b, d := r.den as real, s.den as real;
    assert r.num as real == x * b;
    assert s.num as real == y * d;
    assert (r.num * s.den) as real == x * b * d;
    assert (s.num * r.den) as real == y * d * b;
    assert (r.den * s.den) as real == b * d;
    assert b * d != 0.0;
    calc {
      r.Plus(s).Value();
      (x * b * d + y * d * b) / (b * d);
      x + y;
    }
  }

  /** `DividedBy` divides the value. */
  lemma DividedByValue(r: Ratio, k: int)
    requires r.den != 0 && k != 0
    ensures r.DividedBy(k).den != 0
    ensures r.DividedBy(k).Value() == r.Value() / k as real
  {
    var x, b := r.Value(), r.den as real;
    assert r.num as real == x * b;
    assert (r.den * k) as real == b * k as real;
  }

  // ---------------------------------------------------------------------
  // Frequency tables
  // ---------------------------------------------------------------------

  /** The table `GetFrequencyData` builds: one entry per symbol that occurs, holding its count. */
  function Frequencies<T(==)>(s: seq<T>): map<T, nat>
  {
    map x | x in s :: Count(s, x)
  }

  /** `x => Count(s, x)`, the count as a function to sum. */
  function Counter<T(==)>(s: seq<T>): T -> int
  {
    x => Count(s, x)
  }

  /** Appending one symbol bumps its entry, adding it with count 1 when it is new. */
  lemma FrequenciesSnoc<T>(s: seq<T>, y: T)
    ensures Frequencies(s + [y]) == Frequencies(s)[y := Count(s, y) + 1]
  {
    var f, g := Frequencies(s + [y]), Frequencies(s)[y := Count(s, y) + 1];
    forall x | x in s + [y]
      ensures Count(s + [y], x) == Count(s, x) + (if y == x then 1 else 0)
    {
      CountSnoc(s, y, x);
    }
    assert f.Keys == g.Keys;
  }

  /**
    * `GetFrequencyData`: walks the message once, incrementing the count of a
    * symbol already in the table and adding an unseen one with count 1.
    */
  method GetFrequencyData<T(==)>(msg: seq<T>) returns (result: map<T, nat>)
    ensures result == Frequencies(msg)
  {
    result := map[];
    for i := 0 to |msg|
      invariant result == Frequencies(msg[..i])
    {
      var c := msg[i];
      assert msg[..i + 1] == msg[..i] + [c];
      FrequenciesSnoc(msg[..i], c);
      if c in result {
        result := result[c := result[c] + 1];
      } else {
        result := result[c := 1];
      }
    }
    assert msg[..|msg|] == msg;
  }

  /** Each symbol's entry is its number of occurrences, and there is an entry exactly for the symbols that occur. */
  lemma FrequenciesAreCounts<T>(s: seq<T>, x: T)
    ensures x in Frequencies(s) <==> x in s
    ensures x in Frequencies(s) ==> Frequencies(s)[x] == Count(s, x) && Frequencies(s)[x] > 0
  {
  }

  /** The counts of a frequency table add up to the length of the message. */
  lemma {:induction false} FrequencyTotal<T>(s: seq<T>)
    ensures SumSet(Frequencies(s).Keys, Counter(s)) == |s|
    decreases |s|
  {
    if s != [] {
      var p, y := s[..|s| - 1], s[|s| - 1];
      assert s == p + [y];
      var keys, keys' := Frequencies(p).Keys, Frequencies(s).Keys;
      assert keys' == keys + {y};
      var indicator: T -> int := x => if x == y then 1 else 0;
      forall x | x in keys'
        ensures Counter(s)(x) == Counter(p)(x) + indicator(x)
      {
        CountSnoc(p, y, x);
      }
      SumSetAdd(keys', Counter(p), indicator, Counter(s));
      SumSetSuperset(keys, keys', Counter(p));
      SumSetSingle(keys', indicator, y);
      FrequencyTotal(p);
    }
  }

  // ---------------------------------------------------------------------
  // Index of coincidence
  // ---------------------------------------------------------------------

  /**
    * The number of ordered pairs of distinct positions holding the same
    * symbol, counted as the message grows: a new symbol pairs with each
    * earlier occurrence of itself, in both orders.
    */
  function Coincidences<T(==)>(s: seq<T>): nat
  {
    if s == [] then 0 else Coincidences(s[..|s| - 1]) + 2 * Count(s[..|s| - 1], s[|s| - 1])
  }

  /** `f * (f - 1)` for the count `f` of a symbol, computed exactly. */
  function PairCounter<T(==)>(s: seq<T>): T -> int
  {
    x => Count(s, x) * (Count(s, x) - 1)
  }

  /**
    * The index of coincidence as designed: coinciding pairs over all ordered
    * pairs of positions, with no integer width to lose.
    */
  function ExactIc<T(==)>(s: seq<T>): Ratio
  {
    Ratio(Coincidences(s), |s| * (|s| - 1))
  }

  /** Appending `y` adds `2 * Count(p, y)` to the `f * (f - 1)` term of `y` and nothing to the others. */
  lemma PairCounterSnoc<T>(p: seq<T>, y: T, x: T)
    ensures PairCounter(p + [y])(x) == PairCounter(p)(x) + (if x == y then 2 * Count(p, y) else 0)
  {
    CountSnoc(p, y, x);
    if x == y {
      PairTermStep(Count(p, x));
    }
  }

  lemma PairTermStep(f: int)
    ensures (f + 1) * (f + 1 - 1) == f * (f - 1) + 2 * f
  {
  }

  /** Summing `f * (f - 1)` over the frequency table counts the coinciding pairs. */
  lemma {:induction false} PairSum<T>(s: seq<T>)
    ensures SumSet(Frequencies(s).Keys, PairCounter(s)) == Coincidences(s)
    decreases |s|
  {
    if s != [] {
      var p, y := s[..|s| - 1], s[|s| - 1];
      assert s == p + [y];
      var keys, keys' := Frequencies(p).Keys, Frequencies(s).Keys;
      assert keys' == keys + {y};
      var bump: T -> int := x => if x == y then 2 * Count(p, y) else 0;
      forall x | x in keys'
        ensures PairCounter(s)(x) == PairCounter(p)(x) + bump(x)
      {
        PairCounterSnoc(p, y, x);
      }
      SumSetAdd(keys', PairCounter(p), bump, PairCounter(s));
      SumSetSuperset(keys, keys', PairCounter(p));
      SumSetSingle(keys', bump, y);
      PairSum(p);
    }
  }

  /** At most every ordered pair coincides: for two or more symbols the exact IC lies in 0..1. */
  lemma {:induction false} ExactIcBounded<T>(s: seq<T>)
    ensures 0 <= ExactIc(s).num <= ExactIc(s).den
    decreases |s|
  {
    if s != [] {
      var p := s[..|s| - 1];
      ExactIcBounded(p);
      assert |s| * (|s| - 1) == |p| * (|p| - 1) + 2 * |p|;
    }
  }

  /**
    * `pair.Value * (pair.Value - 1U)`: the subtraction and the product are
    * both `uint`, so each wraps modulo 2^32.
    */
  function PairTerm(f: nat): UInt32
  {
    WrapU32(f * WrapU32(f - 1))
  }

  /** Up to a count of 65536 the `uint` term is exact; 0 gives 0 although `0 - 1U` wraps. */
  lemma PairTermExact(f: nat)
    requires f <= 0x1_0000
    ensures PairTerm(f) == f * (f - 1)
  {
    if f > 0 {
      PairsMonotone(f, 0x1_0000);
    }
  }

  /** The number `n * (n - 1)` of ordered pairs grows with `n`. */
  lemma {:induction false} PairsMonotone(m: nat, n: nat)
    requires m <= n
    ensures m * (m - 1) <= n * (n - 1)
    decreases n - m
  {
    if m < n {
      PairTermStep(n - 1);
      PairsMonotone(m, n - 1);
    }
  }

  /** A count of 65537 gives the term 65536 instead of 65537 * 65536. */
  lemma PairTermWraps()
    ensures PairTerm(0x1_0001) == 0x1_0000
    ensures PairTerm(0x1_0001) != 0x1_0001 * 0x1_0000
  {
  }

  /** The term the IC loops add for a symbol of `s`: `PairTerm` of its count. */
  function WrappedPairCounter<T(==)>(s: seq<T>): T -> int
  {
    x => PairTerm(Count(s, x))
  }

  /** The IC numerator as the source sums it: the `uint` terms over the frequency table. */
  ghost function IcNumerator<T>(s: seq<T>): int
  {
    SumSet(Frequencies(s).Keys, WrappedPairCounter(s))
  }

  /**
    * The index of coincidence `GetIc` computes: the numerator over
    * `msg.Length * (msg.Length - 1)`, an `int` product that wraps.
    */
  ghost function Ic<T>(s: seq<T>): Ratio
  {
    Ratio(IcNumerator(s), Wrap32(|s| * (|s| - 1)))
  }

  /** For up to 65536 symbols no count exceeds 65536, so the numerator counts the coinciding pairs. */
  lemma IcNumeratorExact<T>(s: seq<T>)
    requires |s| <= 0x1_0000
    ensures IcNumerator(s) == Coincidences(s)
  {
    forall x | x in Frequencies(s).Keys
      ensures WrappedPairCounter(s)(x) == PairCounter(s)(x)
    {
      PairTermExact(Count(s, x));
    }
    SumSetExt(Frequencies(s).Keys, WrappedPairCounter(s), PairCounter(s));
    PairSum(s);
  }

  /** For up to 46341 symbols neither product wraps: the source's IC is the exact one. */
  lemma IcExact<T>(s: seq<T>)
    requires |s| <= 46341
    ensures Ic(s) == ExactIc(s)
  {
    var d := |s| * (|s| - 1);
    PairsMonotone(|s|, 46341);
    assert 0 <= d < 0x8000_0000;
    assert Wrap32(d) == d;
    IcNumeratorExact(s);
  }

  /** For up to 46341 symbols the source's IC lies in 0..1. */
  lemma IcBounded<T>(s: seq<T>)
    requires |s| <= 46341
    ensures 0 <= Ic(s).num <= Ic(s).den
  {
    IcExact(s);
    ExactIcBounded(s);
  }

  /**
    * From 46342 to 65536 symbols the numerator is still exact, but
    * `n * (n - 1)` exceeds `int.MaxValue` and wraps to a negative denominator.
    */
  lemma IcNegative<T>(s: seq<T>)
    requires 46342 <= |s| <= 0x1_0000
    ensures Ic(s).num == Coincidences(s) >= 0
    ensures Ic(s).den == |s| * (|s| - 1) - 0x1_0000_0000 < 0
  {
    var d := |s| * (|s| - 1);
    PairsMonotone(46342, |s|);
    PairsMonotone(|s|, 0x1_0000);
    assert 0x8000_0000 <= d < 0x1_0000_0000;
    assert Wrap32(d) == d - 0x1_0000_0000;
    IcNumeratorExact(s);
  }

  /** In `n` copies of one symbol, the count of that symbol is `n`. */
  lemma {:induction false} CountRepeated<T>(n: nat, x: T)
    ensures Count(seq(n, _ => x), x) == n
  {
    if n > 0 {
      assert seq(n, _ => x) == seq(n - 1, _ => x) + [x];
      CountSnoc(seq(n - 1, _ => x), x, x);
      CountRepeated(n - 1, x);
    }
  }

  /** In `n` copies of one symbol every ordered pair of positions coincides. */
  lemma {:induction false} CoincidencesRepeated<T>(n: nat, x: T)
    ensures Coincidences(seq(n, _ => x)) == n * (n - 1)
  {
    if n > 0 {
      var s := seq(n, _ => x);
      assert s[..n - 1] == seq(n - 1, _ => x);
      CountRepeated(n - 1, x);
      CoincidencesRepeated(n - 1, x);
      PairTermStep(n - 1);
    }
  }

  /** 46342 copies of one symbol: a numerator of 2147534622 over a wrapped denominator of -2147432674. */
  lemma IcOfRepeated<T>(x: T)
    ensures Ic(seq(46342, _ => x)) == Ratio(2147534622, -2147432674)
    ensures Ic(seq(46342, _ => x)).num > 0 > Ic(seq(46342, _ => x)).den
  {
    IcNegative(seq(46342, _ => x));
    CoincidencesRepeated(46342, x);
  }

  /** Sums the `uint` term `f * (f - 1U)` over the entries of a table, in whatever order the keys come. */
  method SumPairs<T(==)>(data: map<T, nat>, ghost s: seq<T>) returns (sum: int)
    requires forall x :: x in data ==> data[x] == Count(s, x)
    ensures sum == SumSet(data.Keys, WrappedPairCounter(s))
  {
    sum := 0;
    var keys := data.Keys;
    while keys != {}
      invariant keys <= data.Keys
      invariant sum + SumSet(keys, WrappedPairCounter(s)) == SumSet(data.Keys, WrappedPairCounter(s))
      decreases keys
    {
      var k :| k in keys;
      SumSetRemove(keys, WrappedPairCounter(s), k);
      var f := data[k];
      sum := sum + WrapU32(f * WrapU32(f - 1));
      keys := keys - {k};
    }
  }

  /** `GetIc`: the frequency table's sum of `f * (f - 1U)` over `N * (N - 1)`, both products unchecked. */
  method GetIc<T(==)>(msg: seq<T>) returns (r: Ratio)
    ensures r == Ic(msg)
  {
    var data := GetFrequencyData(msg);
    var sum := SumPairs(data, msg);
    r := Ratio(sum, Wrap32(|msg| * (|msg| - 1)));
  }

  // ---------------------------------------------------------------------
  // Periodic columns
  // ---------------------------------------------------------------------

  /**
    * `columns.Sum(col => col.GetIc())` over the first `m` of the `k` columns
    * a key of length `k` splits the message into: a left fold from 0.
    */
  ghost function ColumnIcSum<T>(s: seq<T>, k: nat, m: nat): Ratio
    requires k > 0
  {
    if m == 0 then Ratio(0, 1) else ColumnIcSum(s, k, m - 1).Plus(Ic(Column(s, k, m - 1)))
  }

  /** The mean IC of the columns for key length `k`: entry `k - 1` of `GetIcs`. */
  ghost function MeanColumnIc<T>(s: seq<T>, k: nat): Ratio
    requires k > 0
  {
    ColumnIcSum(s, k, k).DividedBy(k)
  }

  /** The `while (ind < msg.Length)` loop collecting one column. */
  method CollectColumn<T>(msg: seq<T>, step: nat, start: nat) returns (col: seq<T>)
    requires step > 0
    ensures col == Column(msg, step, start)
  {
    col := [];
    var ind := start;
    while ind < |msg|
      invariant ind >= start
      invariant col + Column(msg, step, ind) == Column(msg, step, start)
      decreases |msg| - ind
    {
      col := col + [msg[ind]];
      ind := ind + step;
    }
  }

  /** The `string[] columns` array: the `k` columns for key length `k`. */
  method CollectColumns<T>(msg: seq<T>, k: nat) returns (columns: seq<seq<T>>)
    requires k > 0
    ensures |columns| == k
    ensures forall l :: 0 <= l < k ==> columns[l] == Column(msg, k, l)
  {
    columns := [];
    for j := 0 to k
      invariant |columns| == j
      invariant forall l :: 0 <= l < j ==> columns[l] == Column(msg, k, l)
    {
      var col := CollectColumn(msg, k, j);
      columns := columns + [col];
    }
  }

  /** One iteration of `GetIcs`: the columns for key length `k`, their ICs summed, divided by `k`. */
  method MeanIcOfColumns<T(==)>(msg: seq<T>, k: nat) returns (mean: Ratio)
    requires k > 0
    ensures mean == MeanColumnIc(msg, k)
  {
    var columns := CollectColumns(msg, k);
    var ic := Ratio(0, 1);
    for j := 0 to k
      invariant ic == ColumnIcSum(msg, k, j)
    {
      var columnIc := GetIc(columns[j]);
      assert columns[j] == Column(msg, k, j);
      ic := ic.Plus(columnIc);
    }
    mean := ic.DividedBy(k);
  }

  /**
    * `GetIcs`: for each key length `i` in 1..maxKeySize, splits the message
    * into `i` columns and records the mean of their ICs.
    */
  method GetIcs<T(==)>(msg: seq<T>, maxKeySize: nat) returns (result: seq<Ratio>)
    ensures |result| == maxKeySize
    ensures forall i :: 0 <= i < maxKeySize ==> result[i] == MeanColumnIc(msg, i + 1)
  {
    var ics := new Ratio[maxKeySize](_ => Ratio(0, 1));
    for i := 1 to maxKeySize + 1
      invariant forall l :: 0 <= l < i - 1 ==> ics[l] == MeanColumnIc(msg, l + 1)
    {
      var mean := MeanIcOfColumns(msg, i);
      ghost var before := ics[..];
      ics[i - 1] := mean;
      forall l | 0 <= l < i
        ensures ics[l] == MeanColumnIc(msg, l + 1)
      {
        if l < i - 1 {
          assert ics[l] == before[l];
        }
      }
    }
    result := ics[..];
  }

  // ---------------------------------------------------------------------
  // Tables over a fixed alphabet
  // ---------------------------------------------------------------------

  /** The table over an alphabet: every alphabet symbol, with its count in `s` (possibly 0). */
  function FrequenciesIn<T(==)>(s: seq<T>, alphabet: seq<T>): map<T, nat>
  {
    map x | x in alphabet :: Count(s, x)
  }

  /** `alphabet.ToDictionary(c => c, c => 0U)`: fails on the first repeated key. */
  method ZeroTable<T(==)>(alphabet: seq<T>) returns (r: Result<map<T, nat>>)
    ensures Distinct(alphabet) <==> r.Ok?
    ensures r.Ok? ==> r.value == map x | x in alphabet :: 0
    ensures r.Err? ==> r.error == DuplicateKey
  {
    var result: map<T, nat> := map[];
    for i := 0 to |alphabet|
      invariant Distinct(alphabet[..i])
      invariant result == map x | x in alphabet[..i] :: 0
    {
      if alphabet[i] in result {
        var k :| 0 <= k < i && alphabet[k] == alphabet[i];
        return Err(DuplicateKey);
      }
      assert alphabet[..i + 1] == alphabet[..i] + [alphabet[i]];
      result := result[alphabet[i] := 0];
    }
    assert alphabet[..|alphabet|] == alphabet;
    r := Ok(result);
  }

  /** Counting one more symbol of the alphabet raises its entry by one and leaves the others. */
  lemma FrequenciesInSnoc<T>(s: seq<T>, c: T, alphabet: seq<T>)
    requires c in alphabet
    ensures FrequenciesIn(s + [c], alphabet) == FrequenciesIn(s, alphabet)[c := FrequenciesIn(s, alphabet)[c] + 1]
  {
    forall x | x in alphabet
      ensures Count(s + [c], x) == Count(s, x) + (if c == x then 1 else 0)
    {
      CountSnoc(s, c, x);
    }
  }

  /**
    * `GetFrequencyData(alphabet)`: `ToDictionary` fails on a repeated
    * alphabet symbol; counting then fails on the first message symbol
    * outside the alphabet.
    */
  method GetFrequencyDataIn<T(==)>(msg: seq<T>, alphabet: seq<T>) returns (r: Result<map<T, nat>>)
    ensures !Distinct(alphabet) ==> r == Err(DuplicateKey)
    ensures Distinct(alphabet) && (exists c :: c in msg && c !in alphabet) ==> r == Err(OutOfAlphabet)
    ensures Distinct(alphabet) && (forall c :: c in msg ==> c in alphabet) ==> r == Ok(FrequenciesIn(msg, alphabet))
  {
    var zeros := ZeroTable(alphabet);
    if zeros.Err? {
      return Err(zeros.error);
    }
    var result := zeros.value;
    assert result == FrequenciesIn(msg[..0], alphabet);
    for i := 0 to |msg|
      invariant forall c :: c in msg[..i] ==> c in alphabet
      invariant result == FrequenciesIn(msg[..i], alphabet)
    {
      var c := msg[i];
      assert msg[..i + 1] == msg[..i] + [c];
      if c !in result {
        assert c in msg;
        return Err(OutOfAlphabet);
      }
      FrequenciesInSnoc(msg[..i], c, alphabet);
      result := result[c := result[c] + 1];
    }
    assert msg[..|msg|] == msg;
    r := Ok(result);
  }

  /**
    * The zero entries of an alphabet table add nothing to the IC, since
    * `0 * (0 - 1U)` is 0 in `uint` too: the numerator equals the plain one.
    */
  lemma PairSumIn<T>(s: seq<T>, alphabet: seq<T>)
    requires forall c :: c in s ==> c in alphabet
    ensures SumSet(FrequenciesIn(s, alphabet).Keys, WrappedPairCounter(s)) == IcNumerator(s)
  {
    SumSetSuperset(Frequencies(s).Keys, FrequenciesIn(s, alphabet).Keys, WrappedPairCounter(s));
  }

  /** `GetIc(alphabet)`: the same ratio as `GetIc`, or the table's failure. */
  method GetIcIn<T(==)>(msg: seq<T>, alphabet: seq<T>) returns (r: Result<Ratio>)
    ensures !Distinct(alphabet) ==> r == Err(DuplicateKey)
    ensures Distinct(alphabet) && (exists c :: c in msg && c !in alphabet) ==> r == Err(OutOfAlphabet)
    ensures Distinct(alphabet) && (forall c :: c in msg ==> c in alphabet) ==> r == Ok(Ic(msg))
  {
    var data := GetFrequencyDataIn(msg, alphabet);
    if data.Err? {
      return Err(data.error);
    }
    var sum := SumPairs(data.value, msg);
    PairSumIn(msg, alphabet);
    r := Ok(Ratio(sum, Wrap32(|msg| * (|msg| - 1))));
  }

  /** When every column lies within the alphabet, so does the message. */
  lemma ColumnsCover<T>(msg: seq<T>, k: nat, alphabet: seq<T>)
    requires k > 0
    requires forall l, c :: 0 <= l < k && c in Column(msg, k, l) ==> c in alphabet
    ensures forall c :: c in msg ==> c in alphabet
  {
    forall c | c in msg
      ensures c in alphabet
    {
      var p :| 0 <= p < |msg| && msg[p] == c;
      ColumnsPartition(msg, k, p);
    }
  }

  /**
    * One iteration of `GetIcs(alphabet)`: every column's IC over the
    * alphabet, failing with the first column that fails. Each message symbol
    * lies in some column, so a symbol outside the alphabet is always met.
    */
  method MeanIcOfColumnsIn<T(==)>(msg: seq<T>, k: nat, alphabet: seq<T>) returns (r: Result<Ratio>)
    requires k > 0
    ensures !Distinct(alphabet) ==> r == Err(DuplicateKey)
    ensures Distinct(alphabet) && (exists c :: c in msg && c !in alphabet) ==> r == Err(OutOfAlphabet)
    ensures Distinct(alphabet) && (forall c :: c in msg ==> c in alphabet) ==> r == Ok(MeanColumnIc(msg, k))
  {
    var columns := CollectColumns(msg, k);
    var ic := Ratio(0, 1);
    for j := 0 to k
      invariant ic == ColumnIcSum(msg, k, j)
      invariant j > 0 ==> Distinct(alphabet)
      invariant forall l, c :: 0 <= l < j && c in Column(msg, k, l) ==> c in alphabet
    {
      ColumnElements(msg, k, j);
      var columnIc := GetIcIn(columns[j], alphabet);
      if columnIc.Err? {
        return Err(columnIc.error);
      }
      assert columns[j] == Column(msg, k, j);
      assert Distinct(alphabet) && forall c :: c in Column(msg, k, j) ==> c in alphabet;
      forall l, c | 0 <= l < j + 1 && c in Column(msg, k, l)
        ensures c in alphabet
      {
      }
      ic := ic.Plus(columnIc.value);
    }
    ColumnsCover(msg, k, alphabet);
    r := Ok(ic.DividedBy(k));
  }

  /**
    * `GetIcs(alphabet)`: as `GetIcs`, each column's IC taken over the
    * alphabet; the first key length that fails ends the computation.
    */
  method GetIcsIn<T(==)>(msg: seq<T>, maxKeySize: nat, alphabet: seq<T>) returns (r: Result<seq<Ratio>>)
    ensures maxKeySize > 0 && !Distinct(alphabet) ==> r == Err(DuplicateKey)
    ensures maxKeySize > 0 && Distinct(alphabet) && (exists c :: c in msg && c !in alphabet) ==> r == Err(OutOfAlphabet)
    ensures maxKeySize == 0 || (Distinct(alphabet) && forall c :: c in msg ==> c in alphabet) ==>
      r.Ok? && |r.value| == maxKeySize &&
      forall i :: 0 <= i < maxKeySize ==> r.value[i] == MeanColumnIc(msg, i + 1)
  {
    var ics := new Ratio[maxKeySize](_ => Ratio(0, 1));
    for i := 1 to maxKeySize + 1
      invariant forall l :: 0 <= l < i - 1 ==> ics[l] == MeanColumnIc(msg, l + 1)
      invariant i > 1 ==> Distinct(alphabet) && forall c :: c in msg ==> c in alphabet
    {
      var mean := MeanIcOfColumnsIn(msg, i, alphabet);
      if mean.Err? {
        return Err(mean.error);
      }
      assert mean.value == MeanColumnIc(msg, i);
      ghost var before := ics[..];
      ics[i - 1] := mean.value;
      forall l | 0 <= l < i
        ensures ics[l] == MeanColumnIc(msg, l + 1)
      {
        if l < i - 1 {
          assert ics[l] == before[l];
        }
      }
    }
    r := Ok(ics[..]);
  }
}
