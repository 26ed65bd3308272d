# Noita eye-glyph research library in Dafny

This project models the core of the NoitaEyeGlyphResearch library. That is the C# toolkit used to study the nine "eye messages" of the game Noita. Each eye glyph is a **trigram**: three base-5 digits `(A, B, C)`. The library:

- reads the nine messages from a CSV of digit fields,
- lays each message out in rows of 26 trigrams,
- reads the messages back in several orders (standard, reversed, column by column),
- computes trigram frequencies and indices of coincidence (IC),
- applies Vigenère-style cyphers over bytes, strings and trigrams,
- converts trigrams to characters, bytes and binary strings,
- implements a Trifid fractionation cipher.

The model is organised by the source's own structure:

| module | file | models |
|---|---|---|
| `Primitives` | `Primitives.dfy` | `byte`, `char` and `int` widths, `int` wrap-around, C#'s truncating `%`, error codes, `Result` |
| `Seqs` | `Seqs.dfy` | `IndexOf`, counting, every-k-th-element columns, flattening, reversal |
| `Sums` | `Sums.dfy` | finite sums over sets and sequences, the reference for dictionary aggregates |
| `Tables` | `Tables.dfy` | the diamond matrix and the 5×5×5 Polybius cube of `Statics` |
| `Trigrams` | `Trigrams.dfy` | `Trigram` as a value datatype; class `MutableTrigram` for the setters, swaps, rotations and inversions that change a trigram in place |
| `Frequency` | `Frequency.dfy` | `GetFrequencyData`, `GetIc` and `GetIcs`, with and without an alphabet |
| `Statics` | `Statics.dfy` | `ToChars`, the byte and alphabet cyphers, `BinaryStringToByteArray`, `ToTrigram(s)` |
| `Permutations` | `Permutations.dfy` | `Permute` and `GetAllPossibleMappings` |
| `Extensions` | `Extensions.dfy` | `ExtractTrigrams` |
| `TrigramCollections` | `TrigramCollection.dfy` | `TrigramCollection` |
| `TrigramLineCollections` | `TrigramLineCollection.dfy` | `TrigramLineCollection`, a class over an array of lines |
| `TrigramProviders` | `TrigramProvider.dfy` | `TrigramProvider`, a class holding the 9 messages and their 26-wide row layout |
| `Trifids` | `Trifid.dfy` | the Trifid cipher as functions; each function is the specification of one step |
| `TrifidCiphers` | `TrifidCipher.dfy` | class `Trifid` over a `char` 3-D array, with the imperative fill, encode and decode loops |

**Exceptions.** Every exception the source throws becomes an `Err` of `Result`, except those listed under "## Left out". This includes:

- argument checks,
- `Queue.Dequeue` on an empty queue,
- an index out of range,
- division by zero,
- a duplicate dictionary key.

**Integer width.** C# `int` and `uint` arithmetic is unchecked and wraps around at 2^32. `Primitives.Wrap32` and `Primitives.WrapU32` write those wraps out, and the model applies them wherever a sum or product can leave its range:

- `Trigram + int` and `Trigram - int`. The latter is `trigram + -value`, so the negation wraps too.
- `ToChars`.
- `ToTrigram` and `ToTrigrams`.
- the dictionary cypher of `TrigramCollection`, through `Trigram + int` and `Trigram - int`.
- the index of coincidence (`Statics.cs:135-139` and `173-177`, `TrigramCollection.cs:12-19`). Each term `f * (f - 1U)` is a `uint` product, which wraps for a count above 65536. The denominator `n * (n - 1)` is an `int` product, which wraps to a negative value from n = 46342 on. `Frequency.IcExact` shows that up to 46341 symbols the IC is the exact one. `Frequency.IcNegative` and `Frequency.IcOfRepeated` show an IC below 0 beyond that.

The counts themselves are `uint` and cannot wrap, because a C# string or array holds fewer than 2^31 elements.

`Trigram.ToChar` and `TrigramCollection.ToByteArray` keep only the low 16 or 8 bits of their sum, and 2^32 is a multiple of both 2^16 and 2^8. A wrap therefore does not change their results, and the model leaves their sums unbounded.

**Indices of coincidence.** The source computes ICs in `float`. The model computes them as an exact fraction `Ratio(num, den)`. A denominator of 0 stands for the NaN or infinity that the float division produces.

**Behaviour of the code that the model keeps, where a reader might expect otherwise:**

- **Trifid coordinates.** The coordinate matrix of `Trifid` is allocated with `Layers` rows, but only rows 0, 1 and 2 are ever written. The operations are therefore modelled with `layers == 3`.
  - Encoding indexes the cube with regrouped triples, which mix layer, row and column digits. It fails with an index out of range unless every digit fits every axis. This happens with a 3×3×3 cube, see `Trifids.EncryptSucceeds`.
- **Trifid alphabet.** The constructor never rejects duplicate alphabet characters. `Encode(char)` returns the first match in layer/row/column order, so the round trip holds only for a duplicate-free alphabet.
- **Horizontal cube fill.** The horizontal fill counts columns in a `byte`. When `gridSize * layers > 255` the loop cannot exit, so it keeps dequeuing until the queue is empty. The model returns `EmptyQueue` in that case.
- **Trifid group size.** With a negative group size, `s.Length % groupSize` and `groupSize > s.Length` do not reject the call. There are then no groups, so `Encode` fails on its first dequeue unless the message is empty. `Decode` reads an all-zero matrix.
- **Trifid unit tests.** `Trifids.LayerByLayerVector` and `Trifids.RowByRowVector` prove the expected ciphertexts of `TrifidTest.cs:14` and `:24` for the cube the constructor fills (`Trifids.Filled`). `Trifids.RoundTrip` proves the tests' decoding assertions, and it proves them for every input.
- **Binary strings.** `Convert.ToByte(s, 2)` skips one leading '+', so a block such as `+1111111` parses as 127. Rendering the parsed bytes writes that sign back as '0' (`Statics.BinaryStringRoundTrip`).
- **Wrapped sums.** Adding a shift to a trigram and subtracting it again restores the trigram exactly when neither step wraps (`Trigrams.AddSubInverse`). When one step wraps, the value moves by 2^32, which is 46 modulo 125.
- **Wrapped IC products.** For a message of 46342 to 65536 symbols the IC's `int` denominator wraps negative, so the IC is below 0 (`Frequency.IcNegative`). A symbol counted more than 65536 times contributes its `uint` term reduced mod 2^32.
- **Trigram extraction.** A value count that is not a multiple of three makes `Dequeue` throw. The model returns `EmptyQueue` for it.
- **Duplicate code.** `Extensions.cs` repeats several members of `Statics.cs` with the same bodies. The rows below cite `Statics.cs`, except for `ExtractTrigrams`, which cites `Extensions.cs`. The identical private copy of `ExtractTrigrams` is at `TrigramProvider.cs:16-31`.

## Model

| member | source | states |
|---|---|---|
| Primitives.CsRem | NoitaEyeGlyphResearchLib/Trigram.cs:12 | C#'s truncating remainder: strictly between -n and n, and never of the opposite sign to the dividend |
| Primitives.CsRemCongruent | NoitaEyeGlyphResearchLib/Trigram.cs:12 | the truncating remainder differs from the dividend by a multiple of n |
| Primitives.CsRemNormalised | NoitaEyeGlyphResearchLib/Trigram.cs:12 | `(a % n + n) % n` with truncating `%` is the mathematical a mod n, so the normalisation handles negative inputs |
| Primitives.Mod | NoitaEyeGlyphResearchLib/Statics.cs:114 | the normalised index lies in 0..n-1 |
| Primitives.ModIsMod | NoitaEyeGlyphResearchLib/Statics.cs:114 | the normalised index equals Euclidean x mod n |
| Primitives.CsMod | NoitaEyeGlyphResearchLib/Statics.cs:114 | the source's double-remainder expression equals the normalised index |
| Primitives.KeyIndexStep | NoitaEyeGlyphResearchLib/Statics.cs:100-102 | incrementing the key index and resetting it at the key length keeps it equal to i mod the key length |
| Primitives.ModAddSub | NoitaEyeGlyphResearchLib/Statics.cs:113-114 | shifting an index by k and then by -k, each time modulo n, restores it |
| Primitives.ModUndo | NoitaEyeGlyphResearchLib/Statics.cs:95-97 | adding and then subtracting a key byte with wrap-around restores the byte |
| Primitives.ByteOfCsRem | NoitaEyeGlyphResearchLib/TrigramCollection.cs:134-136 | casting the truncating remainder modulo 256 to `byte` gives the Euclidean value modulo 256, also for negative sums |
| Primitives.Wrap32 | NoitaEyeGlyphResearchLib/Trigram.cs:112-113 | unchecked `int` arithmetic: the result lies in the `int` range and differs from the exact value by a multiple of 2^32; it is the exact value when that fits, and one wrap of 2^32 just outside the range |
| Primitives.WrapU32 | NoitaEyeGlyphResearchLib/Statics.cs:137 | unchecked `uint` arithmetic: the result lies in the `uint` range and is congruent to the exact value mod 2^32; it is the exact value when that fits, one wrap below 2^33, and `0 - 1U` is `uint.MaxValue` |
| Seqs.IndexOf | NoitaEyeGlyphResearchLib/Statics.cs:111-112 | -1 exactly when the element is absent; otherwise the position of its first occurrence |
| Seqs.IndexOfDistinct | NoitaEyeGlyphResearchLib/Statics.cs:111-115 | in a duplicate-free alphabet, looking up the k-th symbol gives back k |
| Seqs.Count | NoitaEyeGlyphResearchLib/Statics.cs:123-133 | an occurrence count is at most the length, and zero exactly when the element is absent |
| Seqs.CountSnoc | NoitaEyeGlyphResearchLib/Statics.cs:125-130 | appending y adds one to y's count and leaves every other count unchanged |
| Seqs.CountAppend | NoitaEyeGlyphResearchLib/TrigramLineCollection.cs:73-79 | counts add up over concatenation |
| Seqs.ColumnIndex | NoitaEyeGlyphResearchLib/Statics.cs:146-151 | the k-th element of the column starting at `start` with stride `step` exists exactly when `start + k*step` is in range, and it is that element |
| Seqs.ColumnsPartition | NoitaEyeGlyphResearchLib/Statics.cs:144-153 | every position p of the message is element p / step of column p % step, so the key-size columns partition the message |
| Seqs.ColumnElements | NoitaEyeGlyphResearchLib/Statics.cs:146-151 | a column holds only symbols of the message |
| Seqs.ColumnOfStepOne | NoitaEyeGlyphResearchLib/Statics.cs:143-153 | with key size 1 the single column is the whole message |
| Seqs.FlattenAppend | NoitaEyeGlyphResearchLib/TrigramProvider.cs:129-137 | concatenating rows distributes over appending rows |
| Seqs.Reversed | NoitaEyeGlyphResearchLib/TrigramProvider.cs:87-95 | reversal keeps the length |
| Seqs.ReversedAt | NoitaEyeGlyphResearchLib/TrigramProvider.cs:87-95 | element i of the reversal is element \|s\|-1-i of the input |
| Seqs.ReversedInvolution | NoitaEyeGlyphResearchLib/TrigramProvider.cs:152-156 | reversing twice gives the input back, and the reversal is a permutation |
| Seqs.ReversedMultiset | NoitaEyeGlyphResearchLib/TrigramProvider.cs:87-95 | the reversal has the same multiset of trigrams |
| Tables.DiamondShape | NoitaEyeGlyphResearchLib/Statics.cs:8-16 | the diamond matrix is 7×7, non-zero exactly within Manhattan distance 3 of the centre, with values 0..25 |
| Tables.DiamondPointSymmetric | NoitaEyeGlyphResearchLib/Statics.cs:8-16 | reflecting a diamond cell through the centre turns value v into 26 - v |
| Tables.PolybiusLayerInverse | NoitaEyeGlyphResearchLib/Statics.cs:28-40 | every value 0..24 occurs in every layer, at row (v/5 - layer) mod 5 and column v mod 5 |
| Tables.PolybiusRange | NoitaEyeGlyphResearchLib/Statics.cs:28-40 | every cube entry lies in 0..24 |
| Tables.PolybiusLayerShift | NoitaEyeGlyphResearchLib/Statics.cs:28-40 | layer i is layer 0 with its rows rotated by i |
| Tables.PolybiusTestValues | NoitaEyeGlyphResearchTest/PolybiusCubeTest.cs:10-18 | the cube entries the unit test asserts |
| Tables.BuildPolybiusCube | NoitaEyeGlyphResearchLib/Statics.cs:18-41 | the static constructor's loops produce a fresh 5×5×5 array whose every entry is the Polybius value of its position |
| Trigrams.Mod125 | NoitaEyeGlyphResearchLib/Trigram.cs:11-18 | the normalised value lies in 0..124 |
| Trigrams.Mod125IsMod | NoitaEyeGlyphResearchLib/Trigram.cs:11-18 | the source's normalisation of an int is Euclidean n mod 125 |
| Trigrams.DiamondOffset | NoitaEyeGlyphResearchLib/Trigram.cs:370-376 | each digit moves the diamond cursor at most one step |
| Trigrams.AppendRun | NoitaEyeGlyphResearchLib/Trigram.cs:261-263 | the `Append` loop adds exactly `count` copies of the character |
| Trigrams.Trigram.Base10 | NoitaEyeGlyphResearchLib/Trigram.cs:196-198 | a trigram's base-10 value lies in 0..124 |
| Trigrams.Trigram.FromInt | NoitaEyeGlyphResearchLib/Trigram.cs:11-18 | the int constructor yields the trigram whose value is n mod 125, also for negative n |
| Trigrams.Trigram.FromBase10 | NoitaEyeGlyphResearchLib/Trigram.cs:11-18 | for 0..124 the constructor's trigram has exactly that value |
| Trigrams.Trigram.FromDigits | NoitaEyeGlyphResearchLib/Trigram.cs:26-30 | the byte constructor succeeds exactly when every digit is at most 4 (the setters' check), keeps the digits, and otherwise fails with a digit overflow |
| Trigrams.Trigram.Add | NoitaEyeGlyphResearchLib/Trigram.cs:111-115 | `t + k` has the value of the wrapped `int` sum mod 125; while the sum fits in an `int`, (value + k) mod 125 |
| Trigrams.Trigram.Sub | NoitaEyeGlyphResearchLib/Trigram.cs:117-119 | `t - k` is `t + -k` with both the negation and the sum wrapped; while value - k fits in an `int`, (value - k) mod 125 |
| Trigrams.Trigram.Plus | NoitaEyeGlyphResearchLib/Trigram.cs:121-123 | `t + u` has value (value t + value u) mod 125 |
| Trigrams.Trigram.Minus | NoitaEyeGlyphResearchLib/Trigram.cs:125-127 | `t - u` has value (value t - value u) mod 125 |
| Trigrams.Trigram.CompareTo | NoitaEyeGlyphResearchLib/Trigram.cs:182-190 | negative exactly when `<`, positive exactly when `>`, zero exactly when equal |
| Trigrams.Trigram.ToChar | NoitaEyeGlyphResearchLib/Trigram.cs:178-180 | for an offset that keeps the code in `char` range, the character's code is value + offset |
| Trigrams.Trigram.Base10Mapped | NoitaEyeGlyphResearchLib/Trigram.cs:205-207 | the mapped value is bounded, and for a mapping into 0..4 it is the value of the trigram with mapped digits |
| Trigrams.Trigram.Sum | NoitaEyeGlyphResearchLib/Trigram.cs:240-242 | the digit sum is A + B + C, at most 12 |
| Trigrams.Trigram.SumMapped | NoitaEyeGlyphResearchLib/Trigram.cs:249-251 | the mapped sum is the sum of the mapped digits whenever that fits in a byte (the cast wraps otherwise), and the digit sum of the mapped trigram |
| Trigrams.Trigram.Polybius | NoitaEyeGlyphResearchLib/Trigram.cs:327-329 | the Polybius lookup lies in 0..24 and its column digit is C |
| Trigrams.Trigram.DiamondEndpoint | NoitaEyeGlyphResearchLib/Trigram.cs:337-358 | walking the three eyes from the centre always ends inside the diamond |
| Trigrams.Trigram.DiamondValue | NoitaEyeGlyphResearchLib/Trigram.cs:336-365 | the diamond cell reached holds a value in 1..25 |
| Trigrams.Trigram.DiamondCypherValue | NoitaEyeGlyphResearchLib/Trigram.cs:336-365 | the method never reaches the `throw`, and it returns the diamond value |
| Trigrams.Trigram.ToBinaryString | NoitaEyeGlyphResearchLib/Trigram.cs:259-271 | the string is A zeros (ones if inverted), then B ones (zeros), then C zeros (ones) |
| Trigrams.Trigram.ToBinaryStringMapped | NoitaEyeGlyphResearchLib/Trigram.cs:279-291 | as above, with run lengths taken from the mapped digits |
| Trigrams.MutableTrigram.FromInt | NoitaEyeGlyphResearchLib/Trigram.cs:11-18 | the int constructor's object holds the normalised trigram |
| Trigrams.MutableTrigram.Copy | NoitaEyeGlyphResearchLib/Trigram.cs:20-24 | the copy constructor's object holds the same digits |
| Trigrams.MutableTrigram.constructor | NoitaEyeGlyphResearchLib/Trigram.cs:26-30 | an object built from valid digits holds exactly them |
| Trigrams.MutableTrigram.FromBytes | NoitaEyeGlyphResearchLib/Trigram.cs:26-30 | the byte constructor fails with a digit overflow exactly when a digit exceeds 4; otherwise a fresh object holds the digits |
| Trigrams.MutableTrigram.SetA | NoitaEyeGlyphResearchLib/Trigram.cs:32-40 | a value ≤ 4 replaces A only; a larger one fails and leaves the trigram unchanged |
| Trigrams.MutableTrigram.SetB | NoitaEyeGlyphResearchLib/Trigram.cs:42-50 | a value ≤ 4 replaces B only; a larger one fails and leaves the trigram unchanged |
| Trigrams.MutableTrigram.SetC | NoitaEyeGlyphResearchLib/Trigram.cs:52-60 | a value ≤ 4 replaces C only; a larger one fails and leaves the trigram unchanged |
| Trigrams.MutableTrigram.SwapAB | NoitaEyeGlyphResearchLib/Trigram.cs:62-66 | A and B trade places in the object |
| Trigrams.MutableTrigram.SwapAC | NoitaEyeGlyphResearchLib/Trigram.cs:68-72 | A and C trade places in the object |
| Trigrams.MutableTrigram.SwapBC | NoitaEyeGlyphResearchLib/Trigram.cs:74-78 | B and C trade places in the object |
| Trigrams.MutableTrigram.RotateCW | NoitaEyeGlyphResearchLib/Trigram.cs:80-85 | the digits rotate clockwise in the object |
| Trigrams.MutableTrigram.RotateCCW | NoitaEyeGlyphResearchLib/Trigram.cs:87-92 | the digits rotate counter-clockwise in the object |
| Trigrams.MutableTrigram.InvertA | NoitaEyeGlyphResearchLib/Trigram.cs:296-298 | A becomes its eye inversion |
| Trigrams.MutableTrigram.InvertB | NoitaEyeGlyphResearchLib/Trigram.cs:303-305 | B becomes its eye inversion |
| Trigrams.MutableTrigram.InvertC | NoitaEyeGlyphResearchLib/Trigram.cs:310-312 | C becomes its eye inversion |
| Trigrams.MutableTrigram.Invert | NoitaEyeGlyphResearchLib/Trigram.cs:317-321 | all three digits become their eye inversions |
| Trigrams.MutableTrigram.Reorder | NoitaEyeGlyphResearchLib/Trigram.cs:214-234 | a fresh object holding the trigram reordered by the parameter |
| Trigrams.Base10Digits | NoitaEyeGlyphResearchLib/Trigram.cs:196-198 | the digits are recovered from the value as v/25, (v/5) mod 5 and v mod 5 |
| Trigrams.FromIntOfBase10 | NoitaEyeGlyphResearchLib/Trigram.cs:11-18 | the int constructor inverts `GetBase10` |
| Trigrams.Base10Injective | NoitaEyeGlyphResearchLib/Trigram.cs:196-198 | trigrams with the same value are equal |
| Trigrams.FromIntCongruent | NoitaEyeGlyphResearchLib/Trigram.cs:11-18 | ints congruent mod 125 give the same trigram |
| Trigrams.FromIntTestValues | NoitaEyeGlyphResearchTest/TrigramTest.cs:9-30 | the int constructor yields the digits the unit test asserts, including negative inputs |
| Trigrams.AddSubInverse | NoitaEyeGlyphResearchLib/Trigram.cs:111-119 | `(t + k) - k == t` if and only if neither step wraps |
| Trigrams.SubAddInverse | NoitaEyeGlyphResearchLib/Trigram.cs:111-119 | `(t - k) + k == t` if and only if neither step wraps |
| Trigrams.AddWrapsFirst | NoitaEyeGlyphResearchLib/Trigram.cs:111-119 | when `t + k` overflows, `(t + k) - k` is not `t` |
| Trigrams.AddWrapsSecond | NoitaEyeGlyphResearchLib/Trigram.cs:111-119 | when `t + k` fits but the following `- k` wraps (for instance k = int.MinValue), `(t + k) - k` is not `t` |
| Trigrams.SubWrapsFirst | NoitaEyeGlyphResearchLib/Trigram.cs:111-119 | when `t - k` wraps, `(t - k) + k` is not `t` |
| Trigrams.SubWrapsSecond | NoitaEyeGlyphResearchLib/Trigram.cs:111-119 | when `t - k` fits but the following `+ k` overflows, `(t - k) + k` is not `t` |
| Trigrams.WrappedRoundTrip | NoitaEyeGlyphResearchLib/Trigram.cs:11-18 | a value moved by 2^32 and reduced mod 125 never comes back to itself |
| Trigrams.PlusMinusInverse | NoitaEyeGlyphResearchLib/Trigram.cs:121-127 | adding and subtracting a trigram undo each other |
| Trigrams.PlusCommutative | NoitaEyeGlyphResearchLib/Trigram.cs:121-123 | trigram addition commutes |
| Trigrams.PlusZero | NoitaEyeGlyphResearchLib/Trigram.cs:121-123 | any trigram of value 0 is a neutral element |
| Trigrams.PlusIdentity | NoitaEyeGlyphResearchLib/Trigram.cs:121-123 | `t + (0,0,0) == t` |
| Trigrams.PlusBase10 | NoitaEyeGlyphResearchLib/Trigram.cs:121-123 | the sum's value is the values' sum mod 125 |
| Trigrams.PlusAssociative | NoitaEyeGlyphResearchLib/Trigram.cs:121-123 | trigram addition is associative |
| Trigrams.OrderIsBase10 | NoitaEyeGlyphResearchLib/Trigram.cs:137-167 | the digit-wise `<` and `>` are exactly the order of the base-10 values, and mirror each other |
| Trigrams.Trigram.Greater | NoitaEyeGlyphResearchLib/Trigram.cs:137-167 | the definition of the digit-wise `>`; `OrderIsBase10` states its properties |
| Trigrams.Trigram.Less | NoitaEyeGlyphResearchLib/Trigram.cs:137-167 | the definition of the digit-wise `<`; `OrderIsBase10` states its properties |
| Trigrams.ComparisonTestValues | NoitaEyeGlyphResearchTest/TrigramTest.cs:41-60 | the equalities and comparisons the unit test asserts |
| Trigrams.EqualsIsEquality | NoitaEyeGlyphResearchLib/Trigram.cs:94-100 | `Equals` holds exactly for equal digits |
| Trigrams.Trigram.Equals | NoitaEyeGlyphResearchLib/Trigram.cs:94-100 | the definition of digit-wise equality; `EqualsIsEquality` states its properties |
| Trigrams.SwapsAreInvolutions | NoitaEyeGlyphResearchLib/Trigram.cs:62-78 | each swap undoes itself |
| Trigrams.RotationsAreInverse | NoitaEyeGlyphResearchLib/Trigram.cs:80-92 | the two rotations undo each other, and three clockwise rotations are the identity |
| Trigrams.ReorderPermutes | NoitaEyeGlyphResearchLib/Trigram.cs:214-234 | every reorder is a permutation of the three digits |
| Trigrams.ReorderInverse | NoitaEyeGlyphResearchLib/Trigram.cs:214-234 | every reorder has an inverse reorder |
| Trigrams.ReorderKeepsSum | NoitaEyeGlyphResearchLib/Trigram.cs:214-242 | reordering keeps the digit sum |
| Trigrams.EndpointOfStepSum | NoitaEyeGlyphResearchLib/Trigram.cs:337-358 | the diamond endpoint is the centre plus (or, reversed, minus) the sum of the three eye offsets |
| Trigrams.ReorderKeepsStepSum | NoitaEyeGlyphResearchLib/Trigram.cs:214-234 | reordering keeps the summed eye offsets |
| Trigrams.ReorderKeepsDiamond | NoitaEyeGlyphResearchLib/Trigram.cs:336-365 | the diamond cypher value does not depend on the order of the eyes |
| Trigrams.InvertDigitInvolution | NoitaEyeGlyphResearchLib/Trigram.cs:382-388 | eye inversion undoes itself, fixes only the centre eye, and negates the eye's diamond offset |
| Trigrams.InvertDigit | NoitaEyeGlyphResearchLib/Trigram.cs:382-388 | the definition of `EyeInversions`; `InvertDigitInvolution` states its properties |
| Trigrams.InvertInvolution | NoitaEyeGlyphResearchLib/Trigram.cs:296-321 | each inversion undoes itself, touches only its own digit, and `Invert` is the three combined |
| Trigrams.DiamondReverseComplement | NoitaEyeGlyphResearchLib/Trigram.cs:336-365 | the reversed diamond value is 26 minus the forward one |
| Trigrams.DiamondInvertedEyes | NoitaEyeGlyphResearchLib/Trigram.cs:336-365 | inverting all eyes swaps the forward and reversed diamond values |
| Trigrams.IdentityMapping | NoitaEyeGlyphResearchLib/Trigram.cs:205-251 | the identity mapping leaves the mapped value and mapped sum equal to the plain ones |
| Trigrams.ToCharInjective | NoitaEyeGlyphResearchLib/Trigram.cs:178-180 | distinct trigrams give distinct characters for an in-range offset |
| Trigrams.BinaryStringShape | NoitaEyeGlyphResearchLib/Trigram.cs:259-271 | the binary string has A+B+C characters, each determined by which run its position falls in |
| Frequency.PlusValue | NoitaEyeGlyphResearchLib/Statics.cs:155 | adding IC fractions adds their values |
| Frequency.DividedByValue | NoitaEyeGlyphResearchLib/Statics.cs:156 | dividing an IC fraction by the key size divides its value |
| Frequency.FrequenciesSnoc | NoitaEyeGlyphResearchLib/Statics.cs:125-130 | one more symbol raises only that symbol's entry by one, inserting it at 1 if new |
| Frequency.GetFrequencyData | NoitaEyeGlyphResearchLib/Statics.cs:123-133 | the dictionary loop computes the frequency table of the message |
| Frequency.FrequenciesAreCounts | NoitaEyeGlyphResearchLib/Statics.cs:123-133 | a symbol is a key exactly when it occurs, and its entry is its positive occurrence count |
| Frequency.FrequencyTotal | NoitaEyeGlyphResearchLib/Statics.cs:123-133 | the frequencies add up to the message length |
| Frequency.PairCounterSnoc | NoitaEyeGlyphResearchLib/Statics.cs:137 | one more occurrence of y adds 2·count(y) to y's f(f-1) term |
| Frequency.PairSum | NoitaEyeGlyphResearchLib/Statics.cs:137 | the sum of f(f-1) over the table counts the ordered pairs of equal symbols at distinct positions |
| Frequency.ExactIcBounded | NoitaEyeGlyphResearchLib/Statics.cs:135-139 | the exact IC, coinciding ordered pairs over all n(n-1) ordered pairs, lies in 0..1 |
| Frequency.PairTermExact | NoitaEyeGlyphResearchLib/Statics.cs:137 | up to a count of 65536 the `uint` term f * (f - 1U) is f(f-1), including 0 although 0 - 1U wraps |
| Frequency.PairTermWraps | NoitaEyeGlyphResearchLib/Statics.cs:137 | a count of 65537 gives the `uint` term 65536, not 65537 * 65536 |
| Frequency.IcNumeratorExact | NoitaEyeGlyphResearchLib/Statics.cs:137 | up to 65536 symbols the sum of `uint` terms is the number of coinciding ordered pairs |
| Frequency.IcExact | NoitaEyeGlyphResearchLib/Statics.cs:135-139 | up to 46341 symbols neither product wraps, and the IC is the exact one |
| Frequency.IcBounded | NoitaEyeGlyphResearchLib/Statics.cs:135-139 | up to 46341 symbols the IC lies in 0..1 |
| Frequency.IcNegative | NoitaEyeGlyphResearchLib/Statics.cs:138 | from 46342 to 65536 symbols the numerator is still exact, but the `int` denominator wraps to n(n-1) - 2^32, which is negative |
| Frequency.CoincidencesRepeated | NoitaEyeGlyphResearchLib/Statics.cs:137 | in n copies of one symbol all n(n-1) ordered pairs coincide |
| Frequency.IcOfRepeated | NoitaEyeGlyphResearchLib/Statics.cs:135-139 | 46342 copies of one symbol give 2147534622 over -2147432674, an IC below 0 |
| Frequency.SumPairs | NoitaEyeGlyphResearchLib/Statics.cs:137 | the aggregate over a frequency table sums the `uint` terms f * (f - 1U), each reduced mod 2^32 |
| Frequency.GetIc | NoitaEyeGlyphResearchLib/Statics.cs:135-139 | the IC is the sum of the `uint` terms f * (f - 1U) over the wrapped `int` product n(n-1) (`IcExact` and `IcBounded` relate it to the exact IC) |
| Frequency.CollectColumn | NoitaEyeGlyphResearchLib/Statics.cs:146-151 | the inner loop collects every k-th symbol from position l |
| Frequency.CollectColumns | NoitaEyeGlyphResearchLib/Statics.cs:144-153 | one column per key position |
| Frequency.MeanIcOfColumns | NoitaEyeGlyphResearchLib/Statics.cs:144-156 | the mean of the column ICs for key size k |
| Frequency.GetIcs | NoitaEyeGlyphResearchLib/Statics.cs:141-159 | entry i is the mean column IC for key size i+1 |
| Frequency.ZeroTable | NoitaEyeGlyphResearchLib/Statics.cs:162 | pre-seeding with the alphabet succeeds exactly for a duplicate-free alphabet and gives every symbol 0; a duplicate fails like `Dictionary.Add` |
| Frequency.FrequenciesInSnoc | NoitaEyeGlyphResearchLib/Statics.cs:163-169 | one more alphabet symbol raises only its entry |
| Frequency.GetFrequencyDataIn | NoitaEyeGlyphResearchLib/Statics.cs:161-171 | duplicate alphabet fails, a symbol outside the alphabet fails, otherwise the table has every alphabet symbol with its count |
| Frequency.PairSumIn | NoitaEyeGlyphResearchLib/Statics.cs:173-177 | the zero entries of alphabet symbols that never occur add nothing to the IC, since 0 * (0 - 1U) is 0 in `uint` too |
| Frequency.GetIcIn | NoitaEyeGlyphResearchLib/Statics.cs:173-177 | same error cases; otherwise the same IC as without an alphabet |
| Frequency.ColumnsCover | NoitaEyeGlyphResearchLib/Statics.cs:183-193 | if every column stays inside the alphabet, so does the message |
| Frequency.MeanIcOfColumnsIn | NoitaEyeGlyphResearchLib/Statics.cs:182-194 | same error cases; otherwise the mean column IC |
| Frequency.GetIcsIn | NoitaEyeGlyphResearchLib/Statics.cs:179-197 | same error cases, raised only when at least one key size is tried; otherwise the same list as without an alphabet |
| Statics.ToChars | NoitaEyeGlyphResearchLib/Statics.cs:43-55 | one character per value: value + offset in wrapping `int` arithmetic, raised to 32 when lower, truncated to 16 bits |
| Statics.PrintableChar | NoitaEyeGlyphResearchLib/Statics.cs:46-53 | the character is never below 32, and codes from 32 up are kept |
| Statics.CypherBytes | NoitaEyeGlyphResearchLib/Statics.cs:90-105 | the loop adds (or subtracts) the cycling key byte modulo 256; an empty key fails on a non-empty input |
| Statics.CypherBytesRoundTrip | NoitaEyeGlyphResearchLib/Statics.cs:90-105 | decoding an encoding, and encoding a decoding, give the bytes back |
| Statics.CypherText | NoitaEyeGlyphResearchLib/Statics.cs:107-121 | the loop shifts each symbol's alphabet index by the cycling key symbol's index, modulo the alphabet length |
| Statics.CypherTextRoundTrip | NoitaEyeGlyphResearchLib/Statics.cs:107-121 | for a duplicate-free alphabet covering the message, decoding and encoding undo each other |
| Statics.CypherTextShape | NoitaEyeGlyphResearchLib/Statics.cs:107-121 | the output has the message's length and only alphabet symbols |
| Statics.ShiftBack | NoitaEyeGlyphResearchLib/Statics.cs:111-115 | shifting a symbol and shifting back with the same offset restores it |
| Statics.IndexShiftBack | NoitaEyeGlyphResearchLib/Statics.cs:113-114 | the index arithmetic of encode and decode are inverse |
| Statics.BinaryValue | NoitaEyeGlyphResearchLib/Statics.cs:209 | an n-digit binary string's value is below 2^n |
| Statics.ParseByte | NoitaEyeGlyphResearchLib/Statics.cs:209 | `Convert.ToByte(s, 2)` on 8 characters succeeds exactly for 0/1 strings, optionally after one leading '+', and gives the value of the digits; a signed block is below 128 |
| Statics.BlockValue | NoitaEyeGlyphResearchLib/Statics.cs:209 | an accepted block's value is its digits' value and fits in a byte |
| Statics.BinaryStringToByteArray | NoitaEyeGlyphResearchLib/Statics.cs:203-212 | the loop parses consecutive 8-character blocks, failing on a length that is not a multiple of 8 or on the first rejected block |
| Statics.BlockTextOf | NoitaEyeGlyphResearchLib/Statics.cs:207-210 | every block of a string of digits with '+' only at block starts is accepted |
| Statics.AcceptedBlocks | NoitaEyeGlyphResearchLib/Statics.cs:207-210 | a string whose every block is accepted has '+' only at block starts |
| Statics.RejectedBlock | NoitaEyeGlyphResearchLib/Statics.cs:207-210 | a rejected block holds a character the whole-string condition forbids |
| Statics.Bits | NoitaEyeGlyphResearchLib/Statics.cs:209 | the n-digit binary rendering is a 0/1 string of length n |
| Statics.BitsValue | NoitaEyeGlyphResearchLib/Statics.cs:209 | parsing the rendering gives x mod 2^n |
| Statics.BitsOfValue | NoitaEyeGlyphResearchLib/Statics.cs:209 | rendering a binary string's value gives the string back |
| Statics.ByteBits | NoitaEyeGlyphResearchLib/Statics.cs:209 | every byte has an 8-digit 0/1 rendering whose value is the byte |
| Statics.ByteBitsParse | NoitaEyeGlyphResearchLib/Statics.cs:209 | `Convert.ToByte(_, 2)` parses a byte's rendering back to the byte |
| Statics.BytesToBinaryString | NoitaEyeGlyphResearchLib/Statics.cs:203-212 | the inverse rendering has 8 characters per byte |
| Statics.BytesToBinaryBlocks | NoitaEyeGlyphResearchLib/Statics.cs:207-210 | block i of the rendering is byte i's bits |
| Statics.BinaryBytesRoundTrip | NoitaEyeGlyphResearchLib/Statics.cs:203-212 | parsing a rendering of bytes gives the bytes |
| Statics.BinaryStringRoundTrip | NoitaEyeGlyphResearchLib/Statics.cs:203-212 | rendering the bytes of a parsable string gives the string with each '+' written as '0'; it gives the string itself exactly when the string has no '+' |
| Statics.BlockBits | NoitaEyeGlyphResearchLib/Statics.cs:207-210 | each parsed byte renders back to its own block, with a leading '+' written as '0' |
| Statics.BlockRender | NoitaEyeGlyphResearchLib/Statics.cs:209 | an accepted block renders back from its value, with a leading '+' written as '0' |
| Statics.BitsLeadingZero | NoitaEyeGlyphResearchLib/Statics.cs:209 | below 2^n, the (n+1)-digit rendering is a '0' followed by the n-digit one |
| Statics.ToTrigram | NoitaEyeGlyphResearchLib/Statics.cs:82-84 | the trigram's value is the wrapped `int` sum of offset and code mod 125; while the sum fits, the plain sum mod 125 |
| Statics.ToTrigrams | NoitaEyeGlyphResearchLib/Statics.cs:86-88 | one trigram per character, each with the value of the wrapped sum of offset and code mod 125; the `byte[]` overload (`Statics.cs:199-201`) is the same function at codes 0..255 |
| Statics.ToTrigramOfToChar | NoitaEyeGlyphResearchLib/Statics.cs:82-84 | `ToTrigram(-offset)` inverts `Trigram.ToChar(offset)` |
| Statics.ToTrigramPeriodic | NoitaEyeGlyphResearchLib/Statics.cs:82-84 | while neither sum wraps, codes congruent mod 125 give the same trigram |
| Statics.ToTrigramWraps | NoitaEyeGlyphResearchLib/Statics.cs:82-84 | with offset int.MaxValue, codes 0 and 125 give different trigrams whose values differ by 46 mod 125, because the second sum wraps |
| Permutations.RemoveAt | NoitaEyeGlyphResearchLib/Statics.cs:229 | removing one element shortens the list by one |
| Permutations.Prefixed | NoitaEyeGlyphResearchLib/Statics.cs:230-233 | prefixing keeps the number of orderings |
| Permutations.Factorial | NoitaEyeGlyphResearchLib/Statics.cs:215-238 | n! is positive |
| Permutations.Permute | NoitaEyeGlyphResearchLib/Statics.cs:215-238 | the definition; `PermuteLength`, `PermuteIsPermutation`, `PermuteComplete` and `PermuteDistinct` state its properties |
| Permutations.PermuteFrom | NoitaEyeGlyphResearchLib/Statics.cs:227-236 | the definition of the `foreach` over the starting element; `PermuteFromLength`, `PermuteFromIsPermutation`, `PermuteFromComplete` and `PermuteFromDistinct` state its properties |
| Permutations.PermuteLength | NoitaEyeGlyphResearchLib/Statics.cs:215-238 | `Permute` yields n! orderings |
| Permutations.PermuteFromLength | NoitaEyeGlyphResearchLib/Statics.cs:227-236 | the starting elements from `index` on contribute (n-index)·(n-1)! orderings |
| Permutations.RemoveAtMultiset | NoitaEyeGlyphResearchLib/Statics.cs:229 | removal takes exactly that element out of the multiset |
| Permutations.PermuteIsPermutation | NoitaEyeGlyphResearchLib/Statics.cs:215-238 | every yielded ordering is a permutation of the list |
| Permutations.PermuteFromIsPermutation | NoitaEyeGlyphResearchLib/Statics.cs:227-236 | the same for the orderings started from `index` on |
| Permutations.PermuteComplete | NoitaEyeGlyphResearchLib/Statics.cs:215-238 | every permutation of the list is yielded |
| Permutations.PermuteFromComplete | NoitaEyeGlyphResearchLib/Statics.cs:227-236 | every permutation whose head is at or after `index` is yielded |
| Permutations.RemoveAtDistinct | NoitaEyeGlyphResearchLib/Statics.cs:229 | removal keeps a list duplicate-free |
| Permutations.PermuteDistinct | NoitaEyeGlyphResearchLib/Statics.cs:215-238 | for a duplicate-free list no ordering is yielded twice |
| Permutations.PermuteFromDistinct | NoitaEyeGlyphResearchLib/Statics.cs:227-236 | the same from `index` on, with every head taken from `index` on |
| Permutations.MappingsCount | NoitaEyeGlyphResearchLib/Statics.cs:77-80 | there are 120 digit mappings |
| Permutations.MappingsDistinct | NoitaEyeGlyphResearchLib/Statics.cs:77-80 | no mapping is listed twice |
| Permutations.MappingsArePermutations | NoitaEyeGlyphResearchLib/Statics.cs:77-80 | every mapping is a permutation of 0..4 |
| Permutations.DigitPermutationShape | NoitaEyeGlyphResearchLib/Trigram.cs:200-207 | a permutation of 0..4 is a valid mapping array: 5 entries, each a digit |
| Permutations.MappingsComplete | NoitaEyeGlyphResearchLib/Statics.cs:77-80 | every permutation of 0..4 is listed |
| Permutations.GetAllPossibleMappings | NoitaEyeGlyphResearchLib/Statics.cs:77-80 | the definition; `MappingsCount`, `MappingsDistinct`, `MappingsArePermutations` and `MappingsComplete` state its properties |
| Extensions.NonBlank | NoitaEyeGlyphResearchLib/Extensions.cs:13-16 | dropping blank fields never lengthens the list |
| Extensions.NonBlankAppend | NoitaEyeGlyphResearchLib/Extensions.cs:13-16 | the filter distributes over concatenation |
| Extensions.NonBlankElements | NoitaEyeGlyphResearchLib/Extensions.cs:15-16 | a value survives the filter exactly when some field holds it |
| Extensions.ExtractTrigrams | NoitaEyeGlyphResearchLib/Extensions.cs:8-23 | the dequeue loop builds the trigrams of the non-blank values after the two label fields |
| Extensions.FlattenDigits | NoitaEyeGlyphResearchLib/Extensions.cs:18-20 | writing trigrams back as digits gives three values each |
| Extensions.ExtractFlattenRoundTrip | NoitaEyeGlyphResearchLib/Extensions.cs:17-22 | extracting the written-back digits gives the trigrams |
| Extensions.ExtractSucceeds | NoitaEyeGlyphResearchLib/Extensions.cs:17-22 | extraction succeeds exactly when the value count is a multiple of three and every value is a digit, and then trigram i is values 3i..3i+2 |
| Extensions.ExtractFailures | NoitaEyeGlyphResearchLib/Extensions.cs:17-22 | a leftover value fails with an empty queue, and an oversized digit with a digit overflow |
| TrigramCollections.GetHalf | NoitaEyeGlyphResearchLib/TrigramCollection.cs:41-47 | the odd half is every second trigram from index 0, the even half from index 1 |
| TrigramCollections.HalvesPartition | NoitaEyeGlyphResearchLib/TrigramCollection.cs:33-47 | the halves have ⌈n/2⌉ and ⌊n/2⌋ trigrams and interleave back into the collection |
| TrigramCollections.GetBase10Array | NoitaEyeGlyphResearchLib/TrigramCollection.cs:49-55 | entry i is trigram i's value |
| TrigramCollections.Base10ArrayInverse | NoitaEyeGlyphResearchLib/TrigramCollection.cs:49-55 | the values lie in 0..124 and convert back to the collection |
| TrigramCollections.GetBase10ArrayMapped | NoitaEyeGlyphResearchLib/TrigramCollection.cs:57-63 | entry i is trigram i's mapped value |
| TrigramCollections.Reordered | NoitaEyeGlyphResearchLib/TrigramCollection.cs:65-71 | reordering keeps the length |
| TrigramCollections.Reorder | NoitaEyeGlyphResearchLib/TrigramCollection.cs:65-71 | the loop reorders even indices with `odd` and odd indices with `even` |
| TrigramCollections.ReorderedInverse | NoitaEyeGlyphResearchLib/TrigramCollection.cs:65-71 | reordering with the inverse parameters restores the collection |
| TrigramCollections.ReorderedKeepsSums | NoitaEyeGlyphResearchLib/TrigramCollection.cs:65-71 | reordering keeps every trigram's digit sum |
| TrigramCollections.Cypher | NoitaEyeGlyphResearchLib/TrigramCollection.cs:92-107 | the loop adds (or subtracts) the cycling key trigram's value modulo 125; an empty key fails on a non-empty collection |
| TrigramCollections.CypherRoundTrip | NoitaEyeGlyphResearchLib/TrigramCollection.cs:92-107 | decoding and encoding with the same key undo each other |
| TrigramCollections.CypherWithAlphabet | NoitaEyeGlyphResearchLib/TrigramCollection.cs:109-124 | the loop shifts by the key trigram's alphabet value; a missing key fails |
| TrigramCollections.CypherWithAlphabetRoundTrip | NoitaEyeGlyphResearchLib/TrigramCollection.cs:109-124 | whenever the cypher succeeds, the opposite direction restores the collection exactly when no shift wraps; that always holds when every dictionary value is within 124 of the ends of the `int` range |
| TrigramCollections.ShiftedTwice | NoitaEyeGlyphResearchLib/TrigramCollection.cs:109-124 | after the cypher and the opposite cypher, each trigram has been shifted by its key value and back |
| TrigramCollections.ToText | NoitaEyeGlyphResearchLib/TrigramCollection.cs:126-128 | one character per trigram |
| TrigramCollections.ToTextRoundTrip | NoitaEyeGlyphResearchLib/TrigramCollection.cs:126-128 | converting the text back with the negated offset gives the collection |
| TrigramCollections.ToByteArray | NoitaEyeGlyphResearchLib/TrigramCollection.cs:134-136 | one byte per trigram |
| TrigramCollections.ToByteArrayRoundTrip | NoitaEyeGlyphResearchLib/TrigramCollection.cs:134-136 | byte i is (value + offset) mod 256, and for a small offset the bytes convert back to the collection |
| TrigramLineCollections.MergedFrequencies | NoitaEyeGlyphResearchLib/TrigramLineCollection.cs:73-79 | merging two lines' tables gives the table of the concatenated lines |
| TrigramLineCollections.MergedCounts | NoitaEyeGlyphResearchLib/TrigramLineCollection.cs:69-82 | a trigram's merged entry is the sum of its counts in the lines |
| TrigramLineCollections.MergedTotal | NoitaEyeGlyphResearchLib/TrigramLineCollection.cs:69-82 | the merged table adds up to the total line length |
| TrigramLineCollections.FlattenLength | NoitaEyeGlyphResearchLib/TrigramLineCollection.cs:91-94 | the concatenated lines' length is the sum of the line lengths |
| TrigramLineCollections.TrigramLineCollection.constructor | NoitaEyeGlyphResearchLib/TrigramLineCollection.cs:7-9 | the collection wraps the given line array |
| TrigramLineCollections.TrigramLineCollection.Set | NoitaEyeGlyphResearchLib/TrigramLineCollection.cs:17-20 | the indexer's setter replaces exactly one line |
| TrigramLineCollections.TrigramLineCollection.Get | NoitaEyeGlyphResearchLib/TrigramLineCollection.cs:18 | the definition of the indexer's getter: the line stored at the index; `Set` states what the setter changes |
| TrigramLineCollections.TrigramLineCollection.Reorder | NoitaEyeGlyphResearchLib/TrigramLineCollection.cs:28-34 | a fresh collection whose every line is reordered |
| TrigramLineCollections.TrigramLineCollection.GetHalf | NoitaEyeGlyphResearchLib/TrigramLineCollection.cs:40-63 | a fresh collection whose every line is that line's odd (or even) half |
| TrigramLineCollections.TrigramLineCollection.GetFrequencyData | NoitaEyeGlyphResearchLib/TrigramLineCollection.cs:69-82 | the merged table is the frequency table of all lines together |
| TrigramLineCollections.TrigramLineCollection.GetIc | NoitaEyeGlyphResearchLib/TrigramLineCollection.cs:88-109 | with no lines, indexing line 0 fails; otherwise the cross-line IC |
| TrigramLineCollections.FlattenStep | NoitaEyeGlyphResearchLib/TrigramLineCollection.cs:95-97 | adding a line adds its trigrams to the alphabet |
| TrigramLineCollections.ProductOfCounts | NoitaEyeGlyphResearchLib/TrigramLineCollection.cs:99-105 | the inner loop multiplies the trigram's counts over all lines |
| TrigramLineCollections.MergeCounts | NoitaEyeGlyphResearchLib/TrigramLineCollection.cs:73-79 | the merge loop adds one table into the other |
| TrigramLineCollections.NoCommonTrigram | NoitaEyeGlyphResearchLib/TrigramLineCollection.cs:95-108 | if no trigram occurs in every line, the IC numerator is 0 |
| TrigramLineCollections.SingleLine | NoitaEyeGlyphResearchLib/TrigramLineCollection.cs:88-109 | for a single line the cross-line IC is n/n |
| TrigramLineCollections.Bounded | NoitaEyeGlyphResearchLib/TrigramLineCollection.cs:95-108 | summed over any superset of the alphabet, the products of counts are at most the product of the line lengths |
| TrigramLineCollections.LineIcBounded | NoitaEyeGlyphResearchLib/TrigramLineCollection.cs:88-109 | the cross-line IC's numerator lies between 0 and its denominator |
| TrigramProviders.Chunk | NoitaEyeGlyphResearchLib/TrigramProvider.cs:56-76 | the number of rows is ⌈n/26⌉ |
| TrigramProviders.ChunkShape | NoitaEyeGlyphResearchLib/TrigramProvider.cs:56-76 | every row but the last has 26 trigrams, the last one the remainder (26 if none), none is empty |
| TrigramProviders.ChunkFlatten | NoitaEyeGlyphResearchLib/TrigramProvider.cs:129-137 | reading the rows in order gives the message back |
| TrigramProviders.ChunkRows | NoitaEyeGlyphResearchLib/TrigramProvider.cs:56-76 | the chunking loops cut the message into those rows |
| TrigramProviders.LoadTrigrams | NoitaEyeGlyphResearchLib/TrigramProvider.cs:51-77 | a message count other than 9 fails; otherwise a fresh provider holds the messages and their row layouts |
| TrigramProviders.TrigramProvider.constructor | NoitaEyeGlyphResearchLib/TrigramProvider.cs:12-14 | the provider holds the given rows and messages, and is valid when the rows are the nine messages' row layouts, which `LoadTrigrams` (the constructor's body) always passes |
| TrigramProviders.TrigramProvider.GetMessageStandard | NoitaEyeGlyphResearchLib/TrigramProvider.cs:129-137 | concatenating a message's rows gives the message |
| TrigramProviders.TrigramProvider.GetStandard | NoitaEyeGlyphResearchLib/TrigramProvider.cs:79-85 | a fresh collection of the nine messages in order |
| TrigramProviders.TrigramProvider.GetReversed | NoitaEyeGlyphResearchLib/TrigramProvider.cs:87-95 | a fresh collection of the nine messages, each reversed |
| TrigramProviders.TrigramProvider.GetVerticalLineTopToBottom | NoitaEyeGlyphResearchLib/TrigramProvider.cs:139-150 | a column index of 26 or more fails; otherwise the column's cells from top to bottom, skipping the last row when it is too short |
| TrigramProviders.TrigramProvider.GetVerticalLineBottomToTop | NoitaEyeGlyphResearchLib/TrigramProvider.cs:152-156 | the same column read from bottom to top |
| TrigramProviders.TrigramProvider.ReadColumn | NoitaEyeGlyphResearchLib/TrigramProvider.cs:102-106 | column j is read downward or upward by the flag for its parity |
| TrigramProviders.TrigramProvider.ReadLeftToRight | NoitaEyeGlyphResearchLib/TrigramProvider.cs:100-107 | one message's columns read left to right |
| TrigramProviders.TrigramProvider.ReadRightToLeft | NoitaEyeGlyphResearchLib/TrigramProvider.cs:116-123 | one message's columns read right to left |
| TrigramProviders.TrigramProvider.GetVerticalLeftToRight | NoitaEyeGlyphResearchLib/TrigramProvider.cs:97-111 | a fresh collection of every message read column by column from the left |
| TrigramProviders.TrigramProvider.GetVerticalRightToLeft | NoitaEyeGlyphResearchLib/TrigramProvider.cs:113-127 | a fresh collection of every message read column by column from the right |
| TrigramProviders.ReadColumnsMultiset | NoitaEyeGlyphResearchLib/TrigramProvider.cs:97-127 | the column readings take the same cells whichever direction each column is read |
| TrigramProviders.ColumnsCoverGrid | NoitaEyeGlyphResearchLib/TrigramProvider.cs:97-127 | when the columns cover every row, they take every cell of the grid exactly once |
| TrigramProviders.VerticalReadingIsPermutation | NoitaEyeGlyphResearchLib/TrigramProvider.cs:97-127 | both vertical readings of a message are permutations of it, for every direction flag |
| TrigramProviders.BottomToTopReverses | NoitaEyeGlyphResearchLib/TrigramProvider.cs:152-156 | reading a column upward is the reversal of reading it downward |
| Trifids.FilledCells | NoitaEyeGlyphResearchLib/Trifid.cs:26-43 | the filled cube has the requested shape, and each cell holds the alphabet symbol at its fill position |
| Trifids.PositionInjective | NoitaEyeGlyphResearchLib/Trifid.cs:26-43 | both fill orders give distinct cells distinct queue positions |
| Trifids.PositionOnto | NoitaEyeGlyphResearchLib/Trifid.cs:26-47 | every queue position is used by some cell, so the queue ends empty |
| Trifids.FilledCoversAlphabet | NoitaEyeGlyphResearchLib/Trifid.cs:26-47 | every alphabet symbol lands in the cube |
| Trifids.FilledDistinct | NoitaEyeGlyphResearchLib/Trifid.cs:26-43 | a duplicate-free alphabet gives a cube with distinct cells |
| Trifids.Locate | NoitaEyeGlyphResearchLib/Trifid.cs:56-67 | the scan returns the first cell in layer/row/column order that holds the character, and fails only when none does |
| Trifids.FindDistinct | NoitaEyeGlyphResearchLib/Trifid.cs:56-67 | in a cube with distinct cells, encoding a cell's character finds that cell |
| Trifids.FindAll | NoitaEyeGlyphResearchLib/Trifid.cs:74-79 | one located coordinate per character, or failure on the first missing character |
| Trifids.FindAllDistinct | NoitaEyeGlyphResearchLib/Trifid.cs:74-79 | in a cube with distinct cells, the coordinates of cells are found exactly |
| Trifids.LayerRow | NoitaEyeGlyphResearchLib/Trifid.cs:149-153 | a matrix row within a group holds the k-th coordinate of each symbol |
| Trifids.Rows | NoitaEyeGlyphResearchLib/Trifid.cs:149-153 | k rows of a group have k·groupSize entries |
| Trifids.Fractionated | NoitaEyeGlyphResearchLib/Trifid.cs:146-154 | fractionation emits three coordinates per symbol |
| Trifids.FractionatedStep | NoitaEyeGlyphResearchLib/Trifid.cs:148-154 | one more group appends its layer row, row row and column row |
| Trifids.Flattened | NoitaEyeGlyphResearchLib/Trifid.cs:101-106 | enqueuing coordinates emits three per symbol |
| Trifids.Unblock | NoitaEyeGlyphResearchLib/Trifid.cs:108-114 | regrouping a block of 3g values gives g coordinates |
| Trifids.Unfractionated | NoitaEyeGlyphResearchLib/Trifid.cs:107-114 | regrouping all groups gives one coordinate per symbol |
| Trifids.UnfractionatedStep | NoitaEyeGlyphResearchLib/Trifid.cs:108-114 | one more group appends its regrouped block |
| Trifids.UnblockRows | NoitaEyeGlyphResearchLib/Trifid.cs:108-114 | regrouping a group's three rows restores the group's coordinates |
| Trifids.UnfractionateFractionated | NoitaEyeGlyphResearchLib/Trifid.cs:107-154 | decoding's regrouping inverts encoding's fractionation |
| Trifids.FlattenedTriples | NoitaEyeGlyphResearchLib/Trifid.cs:101-106 | triple k of the enqueued stream is coordinate k |
| Trifids.FlattenedUnique | NoitaEyeGlyphResearchLib/Trifid.cs:101-106 | a stream whose triples are the coordinates is their flattening |
| Trifids.GroupsOfCheck | NoitaEyeGlyphResearchLib/Trifid.cs:140-146 | after the length check, a positive group size gives a positive number of whole groups, and a negative one gives none |
| Trifids.OutputOk | NoitaEyeGlyphResearchLib/Trifid.cs:155-158 | a successful output has one character per symbol, each the cube cell at the next triple |
| Trifids.Regrouped | NoitaEyeGlyphResearchLib/Trifid.cs:107-114 | decoding's regrouping yields one coordinate per symbol |
| Trifids.Lookups | NoitaEyeGlyphResearchLib/Trifid.cs:190-192 | looking up coordinates succeeds exactly when all are inside the cube, and gives their cells |
| Trifids.Digits | NoitaEyeGlyphResearchLib/Trifid.cs:83-94 | the trigram overload's coordinates, one per trigram |
| Trifids.OutputSucceeds | NoitaEyeGlyphResearchLib/Trifid.cs:155-158 | the output succeeds exactly when there are enough bytes and every triple lies inside the cube |
| Trifids.LookupsFound | NoitaEyeGlyphResearchLib/Trifid.cs:188-193 | looking up found coordinates gives the characters back |
| Trifids.CoordsRoundTrip | NoitaEyeGlyphResearchLib/Trifid.cs:140-194 | decoding an encoded coordinate stream looks up the original coordinates |
| Trifids.OutputFound | NoitaEyeGlyphResearchLib/Trifid.cs:96-106 | in a cube with distinct cells, re-encoding the output recovers the stream |
| Trifids.StreamRegrouped | NoitaEyeGlyphResearchLib/Trifid.cs:107-154 | the fractionated stream has 3 bytes per symbol (none for a negative group size), and regrouping it restores the coordinates |
| Trifids.RoundTrip | NoitaEyeGlyphResearchLib/Trifid.cs:140-194 | for a 3-layer cube with distinct cells, decoding a successful encoding gives the message back |
| Trifids.TrigramRoundTrip | NoitaEyeGlyphResearchLib/Trifid.cs:162-206 | decoding a successful trigram encoding gives the cells the trigrams address |
| Trifids.TrigramOverloads | NoitaEyeGlyphResearchLib/Trifid.cs:162-206 | the trigram overloads equal the string overloads applied to the cells the trigrams address |
| Trifids.FractionatedBounded | NoitaEyeGlyphResearchLib/Trifid.cs:146-157 | fractionation only emits coordinates already present, so the stream stays within their bound |
| Trifids.EncryptSucceeds | NoitaEyeGlyphResearchLib/Trifid.cs:140-160 | with a 3×3×3 cube, a valid group size and a message inside the alphabet, encoding never indexes out of range |
| Trifids.FractionatedAppend | NoitaEyeGlyphResearchLib/Trifid.cs:146-154 | appending one group of cells to the message appends that group's three rows to the queue |
| Trifids.OutputAppend | NoitaEyeGlyphResearchLib/Trifid.cs:155-158 | the output loop over two queues one after the other emits the two outputs one after the other |
| Trifids.QueueOutput | NoitaEyeGlyphResearchLib/Trifid.cs:155-158 | a queue of in-range bytes emits, from a 3×3×3 cube, the alphabet character at each of its triples |
| Trifids.EncryptsTo | NoitaEyeGlyphResearchLib/Trifid.cs:140-158 | on a cube filled from a duplicate-free alphabet, a message whose characters sit at the given cells encrypts to what the queue of those cells emits |
| Trifids.LayerByLayerVector | NoitaEyeGlyphResearchTest/TrifidTest.cs:9-14 | the layer-by-layer cube over "FELIXMARDSTBCGHJKNOPQUVWYZ+" encrypts "AIDETOILECIELTAIDERA" in groups of five to "FMJFVOISSUFTFPUFEQQC" |
| Trifids.RowByRowVector | NoitaEyeGlyphResearchTest/TrifidTest.cs:19-24 | the row-by-row cube over "ABCD.EFGHIJKLMNOPQRSTUVWXYZ" encrypts "WIKIPEDIA" in one group of nine to "DSDPLIHKA" |
| TrifidCiphers.SetColumn | NoitaEyeGlyphResearchLib/Trifid.cs:76-78 | writing a symbol's three coordinates changes that matrix column only |
| TrifidCiphers.ReadRow | NoitaEyeGlyphResearchLib/Trifid.cs:110-112 | the innermost loop fills one layer row of a group from the queue and nothing else |
| TrifidCiphers.ReadGroup | NoitaEyeGlyphResearchLib/Trifid.cs:109-113 | the layer loop fills a group's three rows from the next 3g queue values |
| TrifidCiphers.ReadLayer | NoitaEyeGlyphResearchLib/Trifid.cs:150-152 | the innermost encode loop enqueues one coordinate kind of a group |
| TrifidCiphers.ReadBlock | NoitaEyeGlyphResearchLib/Trifid.cs:149-153 | the layer loop enqueues a group's three rows |
| TrifidCiphers.RegroupGroup | NoitaEyeGlyphResearchLib/Trifid.cs:109-113 | one group's regrouping extends the columns written so far |
| TrifidCiphers.RegroupedColumns | NoitaEyeGlyphResearchLib/Trifid.cs:107-114 | once every group has been read, the matrix columns are the regrouped coordinates |
| TrifidCiphers.Regroup | NoitaEyeGlyphResearchLib/Trifid.cs:107-114 | the group loops write a fresh 3-row matrix whose columns are the regrouped coordinates |
| TrifidCiphers.FillByLayer | NoitaEyeGlyphResearchLib/Trifid.cs:35-42 | the layer-by-layer loops put alphabet[l·g² + r·g + c] in every cell |
| TrifidCiphers.FillHorizontally | NoitaEyeGlyphResearchLib/Trifid.cs:27-34 | the horizontal loops put alphabet[r·g·layers + l·g + c] in every cell; when g·layers exceeds 255 the byte counter makes the queue run dry |
| TrifidCiphers.Trifid.Wrap | NoitaEyeGlyphResearchLib/Trifid.cs:15-17 | the object holds the dimensions and the cube |
| TrifidCiphers.Trifid.Create | NoitaEyeGlyphResearchLib/Trifid.cs:10-48 | fails exactly on an alphabet of the wrong size, or on a horizontal fill wider than 255; otherwise a fresh cube filled in the requested order |
| TrifidCiphers.Trifid.EncodeChar | NoitaEyeGlyphResearchLib/Trifid.cs:56-67 | the triple loop finds the first matching cell or fails |
| TrifidCiphers.Trifid.EncodeByteMatrix | NoitaEyeGlyphResearchLib/Trifid.cs:69-81 | the matrix's columns are the located coordinates, or the first missing character fails |
| TrifidCiphers.Trifid.TrigramByteMatrix | NoitaEyeGlyphResearchLib/Trifid.cs:83-94 | the matrix's columns are the trigrams' digits |
| TrifidCiphers.Trifid.Fractionate | NoitaEyeGlyphResearchLib/Trifid.cs:146-154 | the group/layer/index loops enqueue the fractionated stream |
| TrifidCiphers.Trifid.Emit | NoitaEyeGlyphResearchLib/Trifid.cs:155-159 | the output loop looks up consecutive triples, failing on an empty queue or an out-of-range triple |
| TrifidCiphers.Trifid.Encode | NoitaEyeGlyphResearchLib/Trifid.cs:140-160 | the string encoder computes the Trifid encryption, whose round trip is `Trifids.RoundTrip` |
| TrifidCiphers.Trifid.EncodeTrigrams | NoitaEyeGlyphResearchLib/Trifid.cs:162-182 | the trigram encoder computes the trigram encryption |
| TrifidCiphers.Trifid.DecodeByteMatrix | NoitaEyeGlyphResearchLib/Trifid.cs:96-116 | the matrix's columns are the regrouped coordinates of the located characters, or a missing character fails |
| TrifidCiphers.Trifid.DecodeTrigramMatrix | NoitaEyeGlyphResearchLib/Trifid.cs:118-138 | the matrix's columns are the regrouped trigram digits |
| TrifidCiphers.Trifid.Lookup | NoitaEyeGlyphResearchLib/Trifid.cs:189-193 | the output loop looks up every matrix column, failing on an out-of-range one |
| TrifidCiphers.Trifid.Decode | NoitaEyeGlyphResearchLib/Trifid.cs:184-194 | the string decoder computes the Trifid decryption |
| TrifidCiphers.Trifid.DecodeTrigrams | NoitaEyeGlyphResearchLib/Trifid.cs:196-206 | the trigram decoder computes the trigram decryption |

## Left out

- `GetStandardTrigramLineCollection` (`TrigramProvider.cs:33-49`) reads an embedded CSV resource. This is I/O, so `LoadTrigrams` takes the nine parsed messages as input. Skipping the header line is part of that I/O.
- `byte.Parse` of a CSV field is not modelled. Fields arrive as either blank or a byte, so a malformed field's `FormatException` or `OverflowException` is not represented.
- `GetFrequencyMessage` (`Statics.cs:57-75`) and the `ToString` overrides (`Trigram.cs:169-171`, `TrigramCollection.cs:130-132`) only format text for display.
- `GetHashCode` (`Trigram.cs:102-109`): trigrams are values compared structurally.
- The null handling of `==` and `!=` (`Trigram.cs:129-135`) is left out, because null references do not exist for value trigrams.
- `GetOdd` and `GetEven` (`TrigramCollection.cs:33-39`, `TrigramLineCollection.cs:40-50`) are `GetHalf(true)` and `GetHalf(false)`. They are covered by the `GetHalf` rows.
- The trigram-collection IC members (`TrigramCollection.cs:12-31`, `72-90`) are covered by the generic `Frequency` operations.
- `TrigramLineCollection.Length`, the `TrigramLines` property and `GetEnumerator` are the line array itself.
- `TrigramCollection.Length` and its indexer are `|s|` and `s[i]`. The source's `TrigramCollection` class (`TrigramCollection.cs:5-137`) defines neither, although `Trifid.cs:83-206` uses both.
- Floating point: ICs are exact fractions. Rounding and the float formatting of results are not modelled.
- Sharing of `Trigram` objects between collections is not modelled. Collections hold trigram values. In-place mutation of a single trigram is modelled by `MutableTrigram`.
- `Permute` is a lazy `IEnumerable` in the source. The model builds the whole sequence eagerly, so evaluation order is not modelled.
- The `TrigramProvider` unit tests depend on the data file, which is not part of this model.
- `Program.cs` is not part of this model.
- TrifidCiphers.Trifid.Encode: requires `layers == 3`. The source writes matrix rows 0..2 only, so other layer counts throw or read zeroed rows. That behaviour is not modelled.
- TrifidCiphers.Trifid.Decode: requires `layers == 3`, for the same reason.
- TrifidCiphers.Trifid.EncodeTrigrams: requires `layers == 3`, for the same reason.
- TrifidCiphers.Trifid.DecodeTrigrams: requires `layers == 3`, for the same reason.
- TrifidCiphers.Trifid.EncodeByteMatrix: requires `layers == 3`, for the same reason.
- TrifidCiphers.Trifid.DecodeByteMatrix: requires `layers == 3`, for the same reason.
- TrigramCollections.GetBase10ArrayMapped: requires at least five mappings. The source's `IndexOutOfRangeException` for a shorter array is not modelled. The same precondition is on `Trigrams.Trigram.Base10Mapped`, `Trigrams.Trigram.SumMapped` and `Trigrams.Trigram.ToBinaryStringMapped`.
- Frequency.IcBounded: requires at most 46341 symbols. Beyond that the source's denominator wraps and the bound fails, as `Frequency.IcNegative` and `Frequency.IcOfRepeated` show.
- TrigramLineCollections.TrigramLineCollection.Set: requires the index to be in range. The source's `IndexOutOfRangeException` is not modelled.
- TrigramLineCollections.TrigramLineCollection.Get: requires the index to be in range, for the same reason as `Set`.
- TrigramProviders.TrigramProvider.GetMessageStandard: requires a message index below 9. The source's `IndexOutOfRangeException` for a larger index is not modelled.
- Statics.ParseByte: a leading '-' makes `Convert.ToByte(_, 2)` throw `ArgumentException` rather than `FormatException`. The model reports both as the same `NotBinary` error, and so does `Statics.BinaryStringToByteArray`.
