/**
  * The helpers of the static class `Statics` that work on characters and
  * bytes: the printable `char` conversion, the two repeating-key Vigenère
  * cyphers (over bytes and over an alphabet), the binary-string parser and
  * the conversions of characters and bytes into trigrams. The frequency and
  * index-of-coincidence helpers are in module `Frequency`, the lookup tables
  * in `Tables` and the permutations in `Permutations`.
  */
module Statics {
  import opened Primitives
  import opened Seqs
  import opened Trigrams

  // ---------------------------------------------------------------------
  // ToChars
  // ---------------------------------------------------------------------

  /** Codes below the space character are raised to it. */
  function Printable(n: int): int
  {
    if n < 32 then 32 else n
  }

  /**
    * `ToChars(base10, offset)`: every value plus the offset, in unchecked
    * `int` arithmetic, raised to at least 32 and cast to `char`.
    */
  method ToChars(base10: seq<Int32>, offset: Int32) returns (result: seq<Char16>)
    ensures |result| == |base10|
    ensures forall i :: 0 <= i < |base10| ==> result[i] == ToChar16(Printable(Wrap32(base10[i] + offset)))
  {
    var chars := new Char16[|base10|];
    for i := 0 to chars.Length
      invariant forall k :: 0 <= k < i ==> chars[k] == ToChar16(Printable(Wrap32(base10[k] + offset)))
    {
      var n := Wrap32(base10[i] + offset);
      if n < 32 {
        n := 32;
      }
      chars[i] := ToChar16(n);
    }
    result := chars[..];
  }

  /**
    * While the shifted value fits in a `char` the conversion never yields a
    * control character, and a shifted value that is already printable comes
    * back unchanged, so subtracting the offset recovers it.
    */
  lemma PrintableChar(n: int)
    requires n < 0x1_0000
    ensures ToChar16(Printable(n)) >= 32
    ensures n >= 32 ==> ToChar16(Printable(n)) == n
  {
  }

  // ---------------------------------------------------------------------
  // Repeating-key cyphers
  // ---------------------------------------------------------------------

  /** Encoding adds the key value, decoding subtracts it. */
  function KeyShift(x: int, k: int, decode: bool): int
  {
    if decode then x - k else x + k
  }

  /**
    * `Cypher(byte[], byte[], bool)`: byte i is shifted by key byte `i mod
    * |key|`, wrapping modulo 256. An empty key is indexed at 0 on the first
    * byte and throws.
    */
  function CypheredBytes(bytes: seq<Byte>, key: seq<Byte>, decode: bool): Result<seq<Byte>>
  {
    if |bytes| == 0 then Ok([])
    else if |key| == 0 then Err(IndexOutOfRange)
    else Ok(seq(|bytes|, i requires 0 <= i < |bytes| => ToByte(KeyShift(bytes[i], key[Mod(i, |key|)], decode))))
  }

  method CypherBytes(bytes: seq<Byte>, key: seq<Byte>, decode: bool) returns (r: Result<seq<Byte>>)
    ensures r == CypheredBytes(bytes, key, decode)
  {
    var result := new Byte[|bytes|];
    var keyIndex := 0;
    for i := 0 to result.Length
      invariant |key| == 0 ==> i == 0 && keyIndex == 0
      invariant |key| > 0 ==> keyIndex == Mod(i, |key|)
      invariant forall k :: 0 <= k < i ==> result[k] == ToByte(KeyShift(bytes[k], key[Mod(k, |key|)], decode))
    {
      if keyIndex >= |key| {
        return Err(IndexOutOfRange);
      }
      result[i] := ToByte(KeyShift(bytes[i], key[keyIndex], decode));
      KeyIndexStep(i, |key|);
      keyIndex := keyIndex + 1;
      if keyIndex == |key| {
        keyIndex := 0;
      }
    }
    if |bytes| > 0 {
      assert result[..] == CypheredBytes(bytes, key, decode).value;
    }
    r := Ok(result[..]);
  }

  /** Decoding with the same key undoes encoding, and encoding undoes decoding. */
  lemma CypherBytesRoundTrip(bytes: seq<Byte>, key: seq<Byte>)
    requires |key| > 0
    ensures CypheredBytes(bytes, key, false).Ok? && CypheredBytes(bytes, key, true).Ok?
    ensures CypheredBytes(CypheredBytes(bytes, key, false).value, key, true) == Ok(bytes)
    ensures CypheredBytes(CypheredBytes(bytes, key, true).value, key, false) == Ok(bytes)
  {
    var encoded := CypheredBytes(bytes, key, false).value;
    var decoded := CypheredBytes(bytes, key, true).value;
    forall i | 0 <= i < |bytes|
      ensures ToByte(KeyShift(encoded[i], key[Mod(i, |key|)], true)) == bytes[i]
      ensures ToByte(KeyShift(decoded[i], key[Mod(i, |key|)], false)) == bytes[i]
    {
      var k: int := key[Mod(i, |key|)];
      ModIsMod(bytes[i] + k, 0x100);
      ModIsMod(bytes[i] - k, 0x100);
      ModIsMod(encoded[i] - k, 0x100);
      ModIsMod(decoded[i] + k, 0x100);
      ModAddSub(bytes[i], k, 0x100);
      ModAddSub(bytes[i], -k, 0x100);
    }
    if |bytes| > 0 {
      assert CypheredBytes(encoded, key, true).value == bytes;
      assert CypheredBytes(decoded, key, false).value == bytes;
    }
  }

  /**
    * `Cypher(string, string, string, bool)`: character i moves along the
    * alphabet by the alphabet position of key character `i mod |key|`,
    * wrapping around. A character missing from the alphabet counts as
    * position -1. The key is read before the alphabet length is used, so an
    * empty key fails first and an empty alphabet then fails on `%`.
    */
  function CypheredText<T(==)>(msg: seq<T>, alphabet: seq<T>, key: seq<T>, decode: bool): Result<seq<T>>
  {
    if |msg| == 0 then Ok([])
    else if |key| == 0 then Err(IndexOutOfRange)
    else if |alphabet| == 0 then Err(DivideByZero)
    else Ok(seq(|msg|, i requires 0 <= i < |msg| => ShiftedAt(msg, alphabet, key, decode, i)))
  }

  /** Output character i of the alphabet cypher. */
  function ShiftedAt<T(==)>(msg: seq<T>, alphabet: seq<T>, key: seq<T>, decode: bool, i: nat): T
    requires i < |msg| && |key| > 0 && |alphabet| > 0
  {
    alphabet[Mod(KeyShift(IndexOf(alphabet, msg[i]), IndexOf(alphabet, key[Mod(i, |key|)]), decode), |alphabet|)]
  }

  method CypherText<T(==)>(msg: seq<T>, alphabet: seq<T>, key: seq<T>, decode: bool) returns (r: Result<seq<T>>)
    ensures r == CypheredText(msg, alphabet, key, decode)
  {
    var builder: seq<T> := [];
    var keyIndex := 0;
    for i := 0 to |msg|
      invariant |key| == 0 ==> i == 0 && keyIndex == 0
      invariant |key| > 0 ==> keyIndex == Mod(i, |key|)
      invariant i > 0 ==> |alphabet| > 0
      invariant |builder| == i
      invariant forall k :: 0 <= k < i ==> builder[k] == ShiftedAt(msg, alphabet, key, decode, k)
    {
      var fromIndex := IndexOf(alphabet, msg[i]);
      if keyIndex >= |key| {
        return Err(IndexOutOfRange);
      }
      var offset := IndexOf(alphabet, key[keyIndex]);
      var toIndex := KeyShift(fromIndex, offset, decode);
      if |alphabet| == 0 {
        return Err(DivideByZero);
      }
      toIndex := CsMod(toIndex, |alphabet|);
      builder := builder + [alphabet[toIndex]];
      KeyIndexStep(i, |key|);
      keyIndex := keyIndex + 1;
      if keyIndex == |key| {
        keyIndex := 0;
      }
    }
    if |msg| > 0 {
      assert builder == CypheredText(msg, alphabet, key, decode).value;
    }
    r := Ok(builder);
  }

  /**
    * Over an alphabet without repeated characters, and for a message written
    * in it, decoding undoes encoding and encoding undoes decoding. The key
    * may contain any characters.
    */
  lemma CypherTextRoundTrip<T>(msg: seq<T>, alphabet: seq<T>, key: seq<T>)
    requires Distinct(alphabet) && |key| > 0
    requires forall i :: 0 <= i < |msg| ==> msg[i] in alphabet
    ensures CypheredText(msg, alphabet, key, false).Ok? && CypheredText(msg, alphabet, key, true).Ok?
    ensures CypheredText(CypheredText(msg, alphabet, key, false).value, alphabet, key, true) == Ok(msg)
    ensures CypheredText(CypheredText(msg, alphabet, key, true).value, alphabet, key, false) == Ok(msg)
  {
    if |msg| > 0 {
      assert msg[0] in alphabet;
      var n := |alphabet|;
      var encoded := CypheredText(msg, alphabet, key, false).value;
      var decoded := CypheredText(msg, alphabet, key, true).value;
      forall i | 0 <= i < |msg|
        ensures ShiftedAt(encoded, alphabet, key, true, i) == msg[i]
        ensures ShiftedAt(decoded, alphabet, key, false, i) == msg[i]
      {
        var offset := IndexOf(alphabet, key[Mod(i, |key|)]);
        assert encoded[i] == ShiftedAt(msg, alphabet, key, false, i);
        assert decoded[i] == ShiftedAt(msg, alphabet, key, true, i);
        ShiftBack(alphabet, msg[i], offset, false);
        ShiftBack(alphabet, msg[i], offset, true);
      }
      assert CypheredText(encoded, alphabet, key, true).value == msg;
      assert CypheredText(decoded, alphabet, key, false).value == msg;
    }
  }

  /** The cypher keeps the message length and writes only characters of the alphabet. */
  lemma CypherTextShape<T>(msg: seq<T>, alphabet: seq<T>, key: seq<T>, decode: bool)
    requires CypheredText(msg, alphabet, key, decode).Ok?
    ensures |CypheredText(msg, alphabet, key, decode).value| == |msg|
    ensures forall i :: 0 <= i < |msg| ==> CypheredText(msg, alphabet, key, decode).value[i] in alphabet
  {
    if |msg| > 0 {
      var out := CypheredText(msg, alphabet, key, decode).value;
      forall i | 0 <= i < |msg|
        ensures out[i] in alphabet
      {
        assert out[i] == ShiftedAt(msg, alphabet, key, decode, i);
      }
    }
  }

  /** Shifting a character of the alphabet one way and then back gives it again. */
  lemma ShiftBack<T>(alphabet: seq<T>, x: T, offset: int, decode: bool)
    requires Distinct(alphabet) && x in alphabet
    ensures var n := |alphabet|;
      var y := alphabet[Mod(KeyShift(IndexOf(alphabet, x), offset, decode), n)];
      alphabet[Mod(KeyShift(IndexOf(alphabet, y), offset, !decode), n)] == x
  {
    var n, from := |alphabet|, IndexOf(alphabet, x);
    var to := Mod(KeyShift(from, offset, decode), n);
    IndexOfDistinct(alphabet, to);
    IndexShiftBack(from, offset, decode, n);
  }

  /** Shifting a position one way and then back, each modulo `n`, gives it again. */
  lemma IndexShiftBack(from: int, offset: int, decode: bool, n: int)
    requires 0 <= from < n
    ensures Mod(KeyShift(Mod(KeyShift(from, offset, decode), n), offset, !decode), n) == from
  {
    if decode {
      ModAddSub(from, -offset, n);
    } else {
      ModAddSub(from, offset, n);
    }
  }

  // ---------------------------------------------------------------------
  // BinaryStringToByteArray
  // ---------------------------------------------------------------------

  function Pow2(n: nat): (p: nat)
    ensures p >= 1
  {
    if n == 0 then 1 else 2 * Pow2(n - 1)
  }

  lemma Pow2Byte()
    ensures Pow2(7) == 0x80 && Pow2(8) == 0x100
  {
  }

  predicate IsBinary(s: seq<char>)
  {
    forall i :: 0 <= i < |s| ==> s[i] == '0' || s[i] == '1'
  }

  /** The number a string of binary digits denotes, most significant digit first. */
  function BinaryValue(s: seq<char>): (v: nat)
    ensures v < Pow2(|s|)
  {
    if s == [] then 0 else 2 * BinaryValue(s[..|s| - 1]) + (if s[|s| - 1] == '1' then 1 else 0)
  }

  /**
    * A block `Convert.ToByte(s, 2)` accepts: binary digits, optionally after
    * one leading '+' (the parser skips a plus sign in any base).
    */
  predicate IsByteText(s: seq<char>)
  {
    IsBinary(s) || (|s| > 1 && s[0] == '+' && IsBinary(s[1..]))
  }

  /** The digits of a block, without its sign. */
  function Unsigned(s: seq<char>): (d: seq<char>)
    ensures |d| == (if |s| > 0 && s[0] == '+' then |s| - 1 else |s|)
  {
    if |s| > 0 && s[0] == '+' then s[1..] else s
  }

  /**
    * `Convert.ToByte(s, 2)` on an eight-character string: binary digits,
    * possibly after a '+', give their value; anything else throws.
    */
  function ParseByte(s: seq<char>): (r: Result<Byte>)
    requires |s| == 8
    ensures r.Ok? <==> IsByteText(s)
    ensures r.Ok? ==> r.value == BinaryValue(Unsigned(s))
    ensures r.Ok? && s[0] == '+' ==> r.value < 0x80
  {
    if IsByteText(s) then Ok(BlockValue(s)) else Err(NotBinary)
  }

  /** The value of an accepted eight-character block. */
  function BlockValue(s: seq<char>): (v: Byte)
    requires |s| == 8 && IsByteText(s)
    ensures v == BinaryValue(Unsigned(s))
    ensures s[0] == '+' ==> v < 0x80
  {
    Pow2Byte();
    BinaryValue(Unsigned(s))
  }

  /**
    * A string every block of which `Convert.ToByte(_, 2)` accepts: binary
    * digits, with a '+' allowed only where a block starts.
    */
  predicate BinaryText(s: seq<char>)
  {
    forall p :: 0 <= p < |s| ==> s[p] == '0' || s[p] == '1' || (s[p] == '+' && p % 8 == 0)
  }

  /** Eight-character block `i`. */
  function Block(s: seq<char>, i: nat): seq<char>
    requires 8 * i + 8 <= |s|
  {
    s[8 * i..8 * i + 8]
  }

  /** Position `p` of a string whose length is a multiple of eight lies in block `p / 8`, at offset `p % 8`. */
  lemma BlockOf(p: int, len: int)
    requires 0 <= p < len && len % 8 == 0
    ensures 0 <= p / 8 < len / 8 && 8 * (p / 8) + 8 <= len
    ensures 0 <= p % 8 < 8 && 8 * (p / 8) + p % 8 == p
  {
    ModUnique(len, len / 8, 0, 8);
  }

  lemma EightTimes(n: int)
    ensures (8 * n) % 8 == 0 && (8 * n) / 8 == n
  {
    ModUnique(8 * n, n, 0, 8);
  }

  /** `BinaryStringToByteArray`: one byte per block of eight characters. */
  function BinaryBytes(binString: seq<char>): Result<seq<Byte>>
  {
    if |binString| % 8 != 0 then Err(InvalidLength)
    else if !BinaryText(binString) then Err(NotBinary)
    else
      Ok(seq(|binString| / 8, i requires 0 <= i < |binString| / 8 =>
        BlockTextOf(binString, i);
        BlockValue(Block(binString, i))))
  }

  /** Every block of a string in `BinaryText` is accepted by the parser. */
  lemma BlockTextOf(s: seq<char>, i: nat)
    requires |s| % 8 == 0 && BinaryText(s) && i < |s| / 8
    ensures 8 * i + 8 <= |s| && IsByteText(Block(s, i))
  {
    BlockOf(8 * i, |s|);
    EightTimes(i);
    var block := Block(s, i);
    forall j | 1 <= j < 8
      ensures block[j] == '0' || block[j] == '1'
    {
      BlockOffset(i, j);
    }
    if block[0] == '+' {
      assert IsBinary(block[1..]);
    } else {
      assert IsBinary(block);
    }
  }

  /** Offset `j` of block `i` is position `8 * i + j`, which lies `j` past a multiple of eight. */
  lemma BlockOffset(i: nat, j: int)
    requires 0 <= j < 8
    ensures (8 * i + j) % 8 == j
  {
    ModUnique(8 * i + j, i, j, 8);
  }

  lemma BlockInRange(i: int, len: int)
    requires len % 8 == 0 && 0 <= i < len / 8
    ensures 8 * i + 8 <= len
  {
    ModUnique(len, len / 8, 0, 8);
  }

  /** A string whose every block the parser accepts is in `BinaryText`. */
  lemma AcceptedBlocks(s: seq<char>)
    requires |s| % 8 == 0
    requires forall k :: 0 <= k < |s| / 8 ==> 8 * k + 8 <= |s| && IsByteText(Block(s, k))
    ensures BinaryText(s)
  {
    forall p | 0 <= p < |s|
      ensures s[p] == '0' || s[p] == '1' || (s[p] == '+' && p % 8 == 0)
    {
      BlockOf(p, |s|);
      assert s[p] == Block(s, p / 8)[p % 8];
    }
  }

  /** A block the parser rejects holds a character `BinaryText` does not allow. */
  lemma RejectedBlock(s: seq<char>, i: nat)
    requires 8 * i + 8 <= |s| && !IsByteText(Block(s, i))
    ensures !BinaryText(s)
  {
    var block := Block(s, i);
    var j: int;
    if block[0] == '+' {
      assert !IsBinary(block[1..]);
      var j' :| 0 <= j' < 7 && block[1..][j'] != '0' && block[1..][j'] != '1';
      j := j' + 1;
    } else {
      j :| 0 <= j < 8 && block[j] != '0' && block[j] != '1';
    }
    BlockOffset(i, j);
    assert s[8 * i + j] == block[j];
  }

  method BinaryStringToByteArray(binString: seq<char>) returns (r: Result<seq<Byte>>)
    ensures r == BinaryBytes(binString)
  {
    if |binString| % 8 != 0 {
      return Err(InvalidLength);
    }
    var result := new Byte[|binString| / 8];
    for i := 0 to result.Length
      invariant forall k :: 0 <= k < i ==> IsByteText(Block(binString, k)) && result[k] == BlockValue(Block(binString, k))
    {
      BlockInRange(i, |binString|);
      var parsed := ParseByte(binString[8 * i..8 * i + 8]);
      if parsed.Err? {
        RejectedBlock(binString, i);
        return Err(NotBinary);
      }
      result[i] := parsed.value;
    }
    AcceptedBlocks(binString);
    assert result[..] == BinaryBytes(binString).value;
    r := Ok(result[..]);
  }

  /** The `n` low binary digits of `x`, most significant first. */
  function Bits(x: nat, n: nat): (s: seq<char>)
    ensures |s| == n && IsBinary(s)
  {
    if n == 0 then [] else Bits(x / 2, n - 1) + [if x % 2 == 0 then '0' else '1']
  }

  lemma {:induction false} BitsValue(x: nat, n: nat)
    ensures BinaryValue(Bits(x, n)) == x % Pow2(n)
  {
    if n > 0 {
      var s := Bits(x, n);
      assert s[..n - 1] == Bits(x / 2, n - 1);
      BitsValue(x / 2, n - 1);
      HalveMod(x, Pow2(n - 1));
    }
  }

  lemma HalveMod(x: nat, m: nat)
    requires m > 0
    ensures 2 * ((x / 2) % m) + x % 2 == x % (2 * m)
  {
    var q, r := (x / 2) / m, (x / 2) % m;
    assert x == 2 * (x / 2) + x % 2;
    assert x / 2 == q * m + r;
    assert x == q * (2 * m) + (2 * r + x % 2);
    ModUnique(x, q, 2 * r + x % 2, 2 * m);
  }

  lemma {:induction false} BitsOfValue(s: seq<char>)
    requires IsBinary(s)
    ensures Bits(BinaryValue(s), |s|) == s
  {
    if s != [] {
      var n := |s|;
      var v' := BinaryValue(s[..n - 1]);
      var v := BinaryValue(s);
      assert v / 2 == v' && v % 2 == (if s[n - 1] == '1' then 1 else 0);
      BitsOfValue(s[..n - 1]);
      assert s == s[..n - 1] + [s[n - 1]];
    }
  }

  /** A byte written as eight binary digits: the inverse of `ParseByte`. */
  function ByteBits(b: Byte): (s: seq<char>)
    ensures |s| == 8 && IsBinary(s) && BinaryValue(s) == b
  {
    BitsValue(b, 8);
    Pow2Byte();
    ModUnique(b, 0, b, 0x100);
    Bits(b, 8)
  }

  /** `ByteBits` is the inverse of `ParseByte`. */
  lemma ByteBitsParse(b: Byte)
    ensures ParseByte(ByteBits(b)) == Ok(b)
  {
    var s := ByteBits(b);
    assert s[0] == '0' || s[0] == '1';
    assert Unsigned(s) == s;
  }

  /** Bytes written as eight binary digits each. */
  function BytesToBinaryString(bytes: seq<Byte>): (s: seq<char>)
    ensures |s| == 8 * |bytes|
  {
    if bytes == [] then [] else BytesToBinaryString(bytes[..|bytes| - 1]) + ByteBits(bytes[|bytes| - 1])
  }

  lemma {:induction false} BytesToBinaryBlocks(bytes: seq<Byte>, i: nat)
    requires i < |bytes|
    ensures Block(BytesToBinaryString(bytes), i) == ByteBits(bytes[i])
  {
    var n := |bytes|;
    var s := BytesToBinaryString(bytes);
    var prefix := BytesToBinaryString(bytes[..n - 1]);
    var last := ByteBits(bytes[n - 1]);
    assert s == prefix + last;
    if i < n - 1 {
      BytesToBinaryBlocks(bytes[..n - 1], i);
      assert Block(s, i) == Block(prefix, i);
    } else {
      assert |prefix| == 8 * i;
      assert s[8 * i..8 * i + 8] == last;
    }
  }

  /** Parsing the binary form of a byte array gives the array back. */
  lemma BinaryBytesRoundTrip(bytes: seq<Byte>)
    ensures BinaryBytes(BytesToBinaryString(bytes)) == Ok(bytes)
  {
    var s := BytesToBinaryString(bytes);
    EightTimes(|bytes|);
    forall p | 0 <= p < |s|
      ensures s[p] == '0' || s[p] == '1'
    {
      BlockOf(p, |s|);
      BytesToBinaryBlocks(bytes, p / 8);
      assert s[p] == Block(s, p / 8)[p % 8];
    }
    assert BinaryText(s);
    var parsed := BinaryBytes(s).value;
    forall i | 0 <= i < |bytes|
      ensures parsed[i] == bytes[i]
    {
      BytesToBinaryBlocks(bytes, i);
      ByteBitsParse(bytes[i]);
    }
    assert parsed == bytes;
  }

  /** The string with every '+' written as '0'. */
  function SignsAsZero(s: seq<char>): (t: seq<char>)
    ensures |t| == |s|
  {
    seq(|s|, p requires 0 <= p < |s| => if s[p] == '+' then '0' else s[p])
  }

  /**
    * Rendering the bytes of a parsable string gives the string with each
    * block's '+' written as '0'; it gives the string itself exactly when
    * the string has no sign.
    */
  lemma BinaryStringRoundTrip(s: seq<char>)
    requires BinaryBytes(s).Ok?
    ensures BytesToBinaryString(BinaryBytes(s).value) == SignsAsZero(s)
    ensures BytesToBinaryString(BinaryBytes(s).value) == s <==> IsBinary(s)
  {
    var bytes := BinaryBytes(s).value;
    var t := BytesToBinaryString(bytes);
    var zeroed := SignsAsZero(s);
    assert |t| == |s| by {
      ModUnique(|s|, |s| / 8, 0, 8);
    }
    forall i | 0 <= i < |s| / 8
      ensures 8 * i + 8 <= |s| && Block(t, i) == Block(zeroed, i)
    {
      BytesToBinaryBlocks(bytes, i);
      BlockBits(s, i);
    }
    SameBlocks(t, zeroed);
  }

  /** Two strings of the same length, a multiple of eight, with equal blocks are equal. */
  lemma SameBlocks(u: seq<char>, v: seq<char>)
    requires |u| == |v| && |u| % 8 == 0
    requires forall i :: 0 <= i < |u| / 8 ==> 8 * i + 8 <= |u| && Block(u, i) == Block(v, i)
    ensures u == v
  {
    forall p | 0 <= p < |u|
      ensures u[p] == v[p]
    {
      BlockOf(p, |u|);
      assert u[p] == Block(u, p / 8)[p % 8];
      assert v[p] == Block(v, p / 8)[p % 8];
    }
  }

  /**
    * Block `i` of a parsable string renders back from byte `i`, with a
    * leading '+' written as '0'.
    */
  lemma BlockBits(s: seq<char>, i: nat)
    requires BinaryBytes(s).Ok? && i < |s| / 8
    ensures 8 * i + 8 <= |s| && ByteBits(BinaryBytes(s).value[i]) == Block(SignsAsZero(s), i)
  {
    BlockTextOf(s, i);
    BlockRender(Block(s, i));
    assert Block(SignsAsZero(s), i) == SignsAsZero(Block(s, i));
  }

  /** An accepted block renders back from its value, with a leading '+' written as '0'. */
  lemma BlockRender(block: seq<char>)
    requires |block| == 8 && IsByteText(block)
    ensures ByteBits(BlockValue(block)) == SignsAsZero(block)
  {
    if block[0] == '+' {
      var digits := block[1..];
      BitsOfValue(digits);
      BitsLeadingZero(BinaryValue(digits), 7);
      assert SignsAsZero(block) == ['0'] + digits;
    } else {
      BitsOfValue(block);
      assert SignsAsZero(block) == block;
    }
  }

  /** Below `2^n`, the `n + 1` low binary digits are a '0' and the `n` low ones. */
  lemma {:induction false} BitsLeadingZero(x: nat, n: nat)
    requires x < Pow2(n)
    ensures Bits(x, n + 1) == ['0'] + Bits(x, n)
  {
    if n > 0 {
      BitsLeadingZero(x / 2, n - 1);
    }
  }

  // ---------------------------------------------------------------------
  // Characters and bytes to trigrams
  // ---------------------------------------------------------------------

  /**
    * `ToTrigram(char, offset)`: the trigram of the character code plus the
    * offset, summed in unchecked `int` arithmetic and taken modulo 125.
    */
  function ToTrigram(c: Char16, offset: Int32): (t: Trigram)
    ensures t.Base10() == Mod125(Wrap32(offset + c))
    ensures offset + c < 0x8000_0000 ==> t.Base10() == Mod125(offset + c)
  {
    Trigram.FromInt(Wrap32(offset + c))
  }

  /**
    * `ToTrigrams(string, offset)` and `ToTrigrams(byte[], offset)`: both map
    * every code through `ToTrigram`; the model takes the codes as `char`s
    * (a `byte` widens to one).
    */
  function ToTrigrams(codes: seq<Char16>, offset: Int32): (ts: seq<Trigram>)
    ensures |ts| == |codes|
    ensures forall i :: 0 <= i < |codes| ==> ts[i].Base10() == Mod125(Wrap32(offset + codes[i]))
  {
    seq(|codes|, i requires 0 <= i < |codes| => ToTrigram(codes[i], offset))
  }

  /** `ToTrigram` with the negated offset inverts `Trigram.ToChar`. */
  lemma ToTrigramOfToChar(t: Trigram, offset: int)
    requires 0 <= offset <= 0xFFFF - 124
    ensures ToTrigram(t.ToChar(offset), -offset) == t
  {
    Base10Injective(ToTrigram(t.ToChar(offset), -offset), t);
  }

  /**
    * Codes that differ by a multiple of 125 give the same trigram, as long
    * as neither sum with the offset wraps.
    */
  lemma ToTrigramPeriodic(c: Char16, d: Char16, offset: Int32)
    requires (c - d) % 125 == 0
    requires offset + c < 0x8000_0000 && offset + d < 0x8000_0000
    ensures ToTrigram(c, offset) == ToTrigram(d, offset)
  {
    var q := (c - d) / 125;
    assert offset + c == (offset + d) + 125 * q;
    FromIntCongruent(offset + c, offset + d);
    Base10Injective(ToTrigram(c, offset), ToTrigram(d, offset));
  }

  /**
    * A sum that wraps breaks the periodicity: with offset `int.MaxValue`,
    * code 0 gives the residue of `int.MaxValue` while code 125 wraps to
    * `int.MinValue + 124`, whose residue differs by 46 modulo 125.
    */
  lemma ToTrigramWraps(offset: Int32)
    requires offset == 0x7FFF_FFFF
    ensures ToTrigram(0, offset).Base10() == Mod125(ToTrigram(125, offset).Base10() + 46)
    ensures ToTrigram(0, offset) != ToTrigram(125, offset)
  {
    var x := offset + 125 - 0x1_0000_0000;
    assert ToTrigram(125, offset).Base10() == Mod125(x);
    Mod125Sum(x, 46);
    Mod125IsMod(x + 46);
    Mod125IsMod(offset);
    Mod125IsMod(x);
  }
}
