/**
  * `TrigramCollection`: one message, an array of trigrams that the methods
  * read and copy but never change. The collection is modelled as the
  * sequence of its trigrams. Its frequency table, index of coincidence and
  * periodic indices of coincidence are the generic `Frequency.GetFrequencyData`,
  * `Frequency.GetIc` and `Frequency.GetIcs` taken at trigrams.
  */
module TrigramCollections {
  import opened Primitives
  import opened Seqs
  import opened Trigrams
  import opened Statics

  // ---------------------------------------------------------------------
  // Halves
  // ---------------------------------------------------------------------

  /** `GetHalf(odd)`: positions 0, 2, 4, ... when `odd`, else 1, 3, 5, ... (`GetOdd` and `GetEven`). */
  method GetHalf(trigrams: seq<Trigram>, odd: bool) returns (half: seq<Trigram>)
    ensures half == Column(trigrams, 2, if odd then 0 else 1)
  {
    var start := if odd then 0 else 1;
    var result: seq<Trigram> := [];
    var i := start;
    while i < |trigrams|
      invariant start <= i && (i - start) % 2 == 0
      invariant result + Column(trigrams, 2, i) == Column(trigrams, 2, start)
      decreases |trigrams| - i
    {
      assert Column(trigrams, 2, i) == [trigrams[i]] + Column(trigrams, 2, i + 2);
      assert result + [trigrams[i]] + Column(trigrams, 2, i + 2) == result + Column(trigrams, 2, i);
      result := result + [trigrams[i]];
      i := i + 2;
    }
    assert result + [] == result;
    half := result;
  }

  /** Alternating elements of `a` and `b`, starting with `a`. */
  function Interleave<T>(a: seq<T>, b: seq<T>): seq<T>
    decreases |a| + |b|
  {
    if a == [] then b else [a[0]] + Interleave(b, a[1..])
  }

  /** A column of the tail is the next column of the whole sequence. */
  lemma {:induction false} ColumnOfTail<T>(s: seq<T>, start: nat)
    requires |s| > 0
    ensures Column(s, 2, start + 1) == Column(s[1..], 2, start)
    decreases |s| - start
  {
    if start + 1 < |s| {
      ColumnOfTail(s, start + 2);
    }
  }

  /**
    * The odd half (positions 0, 2, ...) and the even half (1, 3, ...) hold
    * ceil(n/2) and floor(n/2) trigrams, and interleaving them restores the
    * message: together they partition its positions.
    */
  lemma {:induction false} HalvesPartition<T>(s: seq<T>)
    ensures |Column(s, 2, 0)| == (|s| + 1) / 2 && |Column(s, 2, 1)| == |s| / 2
    ensures Interleave(Column(s, 2, 0), Column(s, 2, 1)) == s
  {
    if s != [] {
      ColumnOfTail(s, 0);
      ColumnOfTail(s, 1);
      HalvesPartition(s[1..]);
      assert Column(s, 2, 0) == [s[0]] + Column(s, 2, 2);
      assert s == [s[0]] + s[1..];
    }
  }

  // ---------------------------------------------------------------------
  // Base-10 arrays
  // ---------------------------------------------------------------------

  /** `GetBase10Array()`: the value of every trigram. */
  method GetBase10Array(trigrams: seq<Trigram>) returns (values: seq<int>)
    ensures |values| == |trigrams|
    ensures forall i :: 0 <= i < |trigrams| ==> values[i] == trigrams[i].Base10()
  {
    var result := new int[|trigrams|];
    for i := 0 to result.Length
      invariant forall k :: 0 <= k < i ==> result[k] == trigrams[k].Base10()
    {
      result[i] := trigrams[i].Base10();
    }
    values := result[..];
  }

  /** The values lie in 0..124 and the `int` constructor turns them back into the message. */
  lemma Base10ArrayInverse(trigrams: seq<Trigram>, values: seq<int>)
    requires |values| == |trigrams|
    requires forall i :: 0 <= i < |trigrams| ==> values[i] == trigrams[i].Base10()
    ensures forall i :: 0 <= i < |values| ==> 0 <= values[i] < 125
    ensures ToTrigrams(values, 0) == trigrams
  {
    forall i | 0 <= i < |trigrams|
      ensures ToTrigrams(values, 0)[i] == trigrams[i]
    {
      FromIntOfBase10(trigrams[i]);
    }
  }

  /** `GetBase10Array(mappings)`: the value of every trigram with its digits mapped first. */
  method GetBase10ArrayMapped(trigrams: seq<Trigram>, mappings: seq<Byte>) returns (values: seq<int>)
    requires |mappings| >= 5
    ensures |values| == |trigrams|
    ensures forall i :: 0 <= i < |trigrams| ==> values[i] == trigrams[i].Base10Mapped(mappings)
  {
    var result := new int[|trigrams|];
    for i := 0 to result.Length
      invariant forall k :: 0 <= k < i ==> result[k] == trigrams[k].Base10Mapped(mappings)
    {
      result[i] := trigrams[i].Base10Mapped(mappings);
    }
    values := result[..];
  }

  // ---------------------------------------------------------------------
  // Reorder
  // ---------------------------------------------------------------------

  /** The trigram at position `i` reordered by `odd` at even positions and by `even` at odd ones. */
  function ReorderAt(trigrams: seq<Trigram>, odd: ReorderParam, even: ReorderParam, i: nat): Trigram
    requires i < |trigrams|
  {
    trigrams[i].Reorder(if i % 2 == 0 then odd else even)
  }

  function Reordered(trigrams: seq<Trigram>, odd: ReorderParam, even: ReorderParam): (r: seq<Trigram>)
    ensures |r| == |trigrams|
  {
    seq(|trigrams|, i requires 0 <= i < |trigrams| => ReorderAt(trigrams, odd, even, i))
  }

  /** `Reorder(odd, even)`: a fresh collection; the receiver is a value and is not changed. */
  method Reorder(trigrams: seq<Trigram>, odd: ReorderParam, even: ReorderParam) returns (r: seq<Trigram>)
    ensures r == Reordered(trigrams, odd, even)
  {
    var result := new Trigram[|trigrams|];
    for i := 0 to |trigrams|
      invariant forall k :: 0 <= k < i ==> result[k] == ReorderAt(trigrams, odd, even, k)
    {
      var param := if i % 2 == 0 then odd else even;
      result[i] := trigrams[i].Reorder(param);
    }
    r := result[..];
  }

  /** Reordering with the inverse parameters restores the message. */
  lemma ReorderedInverse(trigrams: seq<Trigram>, odd: ReorderParam, even: ReorderParam)
    ensures Reordered(Reordered(trigrams, odd, even), odd.Inverse(), even.Inverse()) == trigrams
  {
    var once := Reordered(trigrams, odd, even);
    var twice := Reordered(once, odd.Inverse(), even.Inverse());
    forall i | 0 <= i < |trigrams|
      ensures twice[i] == trigrams[i]
    {
      var p := if i % 2 == 0 then odd else even;
      assert once[i] == trigrams[i].Reorder(p);
      assert twice[i] == once[i].Reorder(p.Inverse());
      ReorderInverse(trigrams[i], p);
    }
  }

  /** Reordering keeps the digit sum of every trigram of the message. */
  lemma ReorderedKeepsSums(trigrams: seq<Trigram>, odd: ReorderParam, even: ReorderParam)
    ensures forall i :: 0 <= i < |trigrams| ==> Reordered(trigrams, odd, even)[i].Sum() == trigrams[i].Sum()
  {
    var once := Reordered(trigrams, odd, even);
    forall i | 0 <= i < |trigrams|
      ensures once[i].Sum() == trigrams[i].Sum()
    {
      ReorderKeepsSum(trigrams[i], if i % 2 == 0 then odd else even);
    }
  }

  // ---------------------------------------------------------------------
  // Repeating-key cyphers over Z/125
  // ---------------------------------------------------------------------

  /** Trigram `i` of the message with key trigram `i mod |key|` added, or subtracted when decoding. */
  function ShiftedTrigram(trigrams: seq<Trigram>, key: seq<Trigram>, decode: bool, i: nat): Trigram
    requires i < |trigrams| && |key| > 0
  {
    var k := key[Mod(i, |key|)];
    if decode then trigrams[i].Minus(k) else trigrams[i].Plus(k)
  }

  /** `Cypher(key, decode)`. An empty key is read at index 0 on the first trigram and throws. */
  function CypheredTrigrams(trigrams: seq<Trigram>, key: seq<Trigram>, decode: bool): Result<seq<Trigram>>
  {
    if |trigrams| == 0 then Ok([])
    else if |key| == 0 then Err(IndexOutOfRange)
    else Ok(seq(|trigrams|, i requires 0 <= i < |trigrams| => ShiftedTrigram(trigrams, key, decode, i)))
  }

  method Cypher(trigrams: seq<Trigram>, key: seq<Trigram>, decode: bool) returns (r: Result<seq<Trigram>>)
    ensures r == CypheredTrigrams(trigrams, key, decode)
  {
    var result := new Trigram[|trigrams|];
    var keyIndex := 0;
    for i := 0 to result.Length
      invariant |key| == 0 ==> i == 0 && keyIndex == 0
      invariant |key| > 0 ==> keyIndex == Mod(i, |key|)
      invariant forall k :: 0 <= k < i ==> result[k] == ShiftedTrigram(trigrams, key, decode, k)
    {
      if keyIndex >= |key| {
        return Err(IndexOutOfRange);
      }
      if decode {
        result[i] := trigrams[i].Minus(key[keyIndex]);
      } else {
        result[i] := trigrams[i].Plus(key[keyIndex]);
      }
      KeyIndexStep(i, |key|);
      keyIndex := keyIndex + 1;
      if keyIndex == |key| {
        keyIndex := 0;
      }
    }
    if |trigrams| > 0 {
      assert result[..] == CypheredTrigrams(trigrams, key, decode).value;
    }
    r := Ok(result[..]);
  }

  /** With a non-empty key, decoding undoes encoding and encoding undoes decoding. */
  lemma CypherRoundTrip(trigrams: seq<Trigram>, key: seq<Trigram>)
    requires |key| > 0
    ensures CypheredTrigrams(trigrams, key, false).Ok? && CypheredTrigrams(trigrams, key, true).Ok?
    ensures CypheredTrigrams(CypheredTrigrams(trigrams, key, false).value, key, true) == Ok(trigrams)
    ensures CypheredTrigrams(CypheredTrigrams(trigrams, key, true).value, key, false) == Ok(trigrams)
  {
    if |trigrams| > 0 {
      var encoded := CypheredTrigrams(trigrams, key, false).value;
      var decoded := CypheredTrigrams(trigrams, key, true).value;
      forall i | 0 <= i < |trigrams|
        ensures ShiftedTrigram(encoded, key, true, i) == trigrams[i]
        ensures ShiftedTrigram(decoded, key, false, i) == trigrams[i]
      {
        PlusMinusInverse(trigrams[i], key[Mod(i, |key|)]);
      }
      assert CypheredTrigrams(encoded, key, true).value == trigrams;
      assert CypheredTrigrams(decoded, key, false).value == trigrams;
    }
  }

  /** Trigram `i` moved by the dictionary value of key trigram `i mod |key|`. */
  function ShiftedByAlphabet(trigrams: seq<Trigram>, key: seq<Trigram>, alphabet: map<Trigram, Int32>, decode: bool, i: nat): Trigram
    requires i < |trigrams| && |key| > 0 && key[Mod(i, |key|)] in alphabet
  {
    var offset := alphabet[key[Mod(i, |key|)]];
    if decode then trigrams[i].Sub(offset) else trigrams[i].Add(offset)
  }

  /** Every key trigram the first `n` positions use has a dictionary entry. */
  predicate KeysKnown(n: nat, key: seq<Trigram>, alphabet: map<Trigram, Int32>)
    requires |key| > 0
  {
    forall i :: 0 <= i < n ==> key[Mod(i, |key|)] in alphabet
  }

  /**
    * `Cypher(key, alphabet, decode)`: as `Cypher`, but the offset is the
    * dictionary value of the key trigram; a key trigram without an entry
    * throws `KeyNotFoundException`.
    */
  function CypheredWithAlphabet(trigrams: seq<Trigram>, key: seq<Trigram>, alphabet: map<Trigram, Int32>, decode: bool): Result<seq<Trigram>>
  {
    if |trigrams| == 0 then Ok([])
    else if |key| == 0 then Err(IndexOutOfRange)
    else if !KeysKnown(|trigrams|, key, alphabet) then Err(KeyNotFound)
    else Ok(seq(|trigrams|, i requires 0 <= i < |trigrams| => ShiftedByAlphabet(trigrams, key, alphabet, decode, i)))
  }

  method CypherWithAlphabet(trigrams: seq<Trigram>, key: seq<Trigram>, alphabet: map<Trigram, Int32>, decode: bool)
    returns (r: Result<seq<Trigram>>)
    ensures r == CypheredWithAlphabet(trigrams, key, alphabet, decode)
  {
    var result := new Trigram[|trigrams|];
    var keyIndex := 0;
    for i := 0 to result.Length
      invariant |key| == 0 ==> i == 0 && keyIndex == 0
      invariant |key| > 0 ==> keyIndex == Mod(i, |key|) && KeysKnown(i, key, alphabet)
      invariant |key| > 0 ==> forall k :: 0 <= k < i ==> result[k] == ShiftedByAlphabet(trigrams, key, alphabet, decode, k)
    {
      if keyIndex >= |key| {
        return Err(IndexOutOfRange);
      }
      if key[keyIndex] !in alphabet {
        assert !KeysKnown(|trigrams|, key, alphabet) by {
          assert key[Mod(i, |key|)] !in alphabet;
        }
        return Err(KeyNotFound);
      }
      if decode {
        result[i] := trigrams[i].Sub(alphabet[key[keyIndex]]);
      } else {
        result[i] := trigrams[i].Add(alphabet[key[keyIndex]]);
      }
      KeyIndexStep(i, |key|);
      keyIndex := keyIndex + 1;
      if keyIndex == |key| {
        keyIndex := 0;
      }
    }
    if |trigrams| > 0 {
      assert result[..] == CypheredWithAlphabet(trigrams, key, alphabet, decode).value;
    } else {
      assert result[..] == [];
    }
    r := Ok(result[..]);
    assert r == CypheredWithAlphabet(trigrams, key, alphabet, decode);
  }

  /**
    * No position's shift wraps, neither in the direction `decode` chooses nor
    * in the opposite step that undoes it.
    */
  predicate NoShiftWraps(trigrams: seq<Trigram>, key: seq<Trigram>, alphabet: map<Trigram, Int32>, decode: bool)
  {
    |key| > 0 ==>
      forall i :: 0 <= i < |trigrams| && key[Mod(i, |key|)] in alphabet ==>
        if decode then SubAddFits(trigrams[i], alphabet[key[Mod(i, |key|)]])
        else AddSubFits(trigrams[i], alphabet[key[Mod(i, |key|)]])
  }

  /** Every dictionary value is a shift that wraps for no trigram. */
  predicate ShiftsFit(alphabet: map<Trigram, Int32>)
  {
    forall t :: t in alphabet ==> ShiftFits(alphabet[t])
  }

  /**
    * Whenever the cypher succeeds, running it in the opposite direction with
    * the same key and dictionary restores the message exactly when no shift
    * wraps; in particular it always does when every dictionary value is
    * within 124 of the ends of the `int` range.
    */
  lemma CypherWithAlphabetRoundTrip(trigrams: seq<Trigram>, key: seq<Trigram>, alphabet: map<Trigram, Int32>, decode: bool)
    requires CypheredWithAlphabet(trigrams, key, alphabet, decode).Ok?
    ensures CypheredWithAlphabet(CypheredWithAlphabet(trigrams, key, alphabet, decode).value, key, alphabet, !decode) == Ok(trigrams)
      <==> NoShiftWraps(trigrams, key, alphabet, decode)
    ensures ShiftsFit(alphabet) ==> NoShiftWraps(trigrams, key, alphabet, decode)
  {
    if |trigrams| > 0 {
      var once := CypheredWithAlphabet(trigrams, key, alphabet, decode).value;
      var twice := CypheredWithAlphabet(once, key, alphabet, !decode);
      forall i | 0 <= i < |trigrams|
        ensures twice.Ok? && |twice.value| == |trigrams|
        ensures twice.value[i] == trigrams[i] <==>
          if decode then SubAddFits(trigrams[i], alphabet[key[Mod(i, |key|)]])
          else AddSubFits(trigrams[i], alphabet[key[Mod(i, |key|)]])
        ensures ShiftsFit(alphabet) ==>
          AddSubFits(trigrams[i], alphabet[key[Mod(i, |key|)]]) && SubAddFits(trigrams[i], alphabet[key[Mod(i, |key|)]])
      {
        var offset := alphabet[key[Mod(i, |key|)]];
        ShiftedTwice(trigrams, key, alphabet, decode, i);
        AddSubInverse(trigrams[i], offset);
        SubAddInverse(trigrams[i], offset);
        if ShiftsFit(alphabet) {
          ShiftFitsBoth(trigrams[i], offset);
        }
      }
      if twice.value != trigrams {
        var i :| 0 <= i < |trigrams| && twice.value[i] != trigrams[i];
      }
    }
  }

  /** Position `i` after the cypher and the opposite cypher: shifted by its key value and back. */
  lemma ShiftedTwice(trigrams: seq<Trigram>, key: seq<Trigram>, alphabet: map<Trigram, Int32>, decode: bool, i: nat)
    requires CypheredWithAlphabet(trigrams, key, alphabet, decode).Ok? && i < |trigrams|
    ensures |key| > 0 && key[Mod(i, |key|)] in alphabet
    ensures var once := CypheredWithAlphabet(trigrams, key, alphabet, decode).value;
      var twice := CypheredWithAlphabet(once, key, alphabet, !decode);
      var k := alphabet[key[Mod(i, |key|)]];
      twice.Ok? && |twice.value| == |trigrams| &&
      twice.value[i] == if decode then trigrams[i].Sub(k).Add(k) else trigrams[i].Add(k).Sub(k)
  {
    var once := CypheredWithAlphabet(trigrams, key, alphabet, decode).value;
    assert |once| == |trigrams|;
    assert KeysKnown(|once|, key, alphabet);
  }

  // ---------------------------------------------------------------------
  // Text and byte conversions
  // ---------------------------------------------------------------------

  /** `ToString(offset)`: one character per trigram (`ToString()` is offset 0). */
  function ToText(trigrams: seq<Trigram>, offset: int): (text: seq<Char16>)
    ensures |text| == |trigrams|
  {
    seq(|trigrams|, i requires 0 <= i < |trigrams| => trigrams[i].ToChar(offset))
  }

  /** While the offset keeps every code inside a `char`, `ToTrigrams` with the negated offset reads the text back. */
  lemma ToTextRoundTrip(trigrams: seq<Trigram>, offset: int)
    requires 0 <= offset <= 0xFFFF - 124
    ensures ToTrigrams(ToText(trigrams, offset), -offset) == trigrams
  {
    forall i | 0 <= i < |trigrams|
      ensures ToTrigrams(ToText(trigrams, offset), -offset)[i] == trigrams[i]
    {
      ToTrigramOfToChar(trigrams[i], offset);
    }
  }

  /** `ToByteArray(offset)`: `(byte)((GetBase10() + offset) % 256)` with C#'s truncating `%`. */
  function ToByteArray(trigrams: seq<Trigram>, offset: int): (bytes: seq<Byte>)
    ensures |bytes| == |trigrams|
  {
    seq(|trigrams|, i requires 0 <= i < |trigrams| => ToByte(CsRem(trigrams[i].Base10() + offset, 0x100)))
  }

  /**
    * Byte i is congruent to the trigram value plus the offset modulo 256,
    * and while no value wraps (an offset in 0..131) `ToTrigrams` with the
    * negated offset reads the bytes back.
    */
  lemma ToByteArrayRoundTrip(trigrams: seq<Trigram>, offset: int)
    ensures forall i :: 0 <= i < |trigrams| ==> ToByteArray(trigrams, offset)[i] == (trigrams[i].Base10() + offset) % 0x100
    ensures 0 <= offset <= 0xFF - 124 ==> ToTrigrams(ToByteArray(trigrams, offset), -offset) == trigrams
  {
    var bytes := ToByteArray(trigrams, offset);
    forall i | 0 <= i < |trigrams|
      ensures bytes[i] == (trigrams[i].Base10() + offset) % 0x100
    {
      ByteOfCsRem(trigrams[i].Base10() + offset);
    }
    if 0 <= offset <= 0xFF - 124 {
      forall i | 0 <= i < |trigrams|
        ensures ToTrigrams(bytes, -offset)[i] == trigrams[i]
      {
        var v := trigrams[i].Base10();
        ModUnique(v + offset, 0, v + offset, 0x100);
        FromIntOfBase10(trigrams[i]);
      }
    }
  }
}
