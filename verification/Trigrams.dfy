/**
  * A trigram is three eye directions, each a digit 0..4; read as a base-5
  * number it is an element of Z/125. `Trigram` is the value the collections
  * hold; `MutableTrigram` is the C# object whose swap, rotate and invert
  * operations change its digits in place.
  */
module Trigrams {
  import opened Primitives
  import Tables

  /** One eye direction: 0 is centred, 1..4 look up, right, down and left. */
  type Digit = x: int | 0 <= x < 5

  /**
    * `x` reduced into 0..124 by adding or subtracting 125 until it fits: the
    * Euclidean remainder modulo 125 (`Mod125IsMod`), written without division
    * so that the trigram arithmetic below is reasoned about by its lemmas.
    */
  function Mod125(x: int): (r: int)
    ensures 0 <= r < 125
    decreases if x < 0 then 1 else 0, if x < 0 then -x else x
  {
    if x < 0 then Mod125(x + 125) else if x >= 125 then Mod125(x - 125) else x
  }

  lemma {:induction false} Mod125IsMod(x: int)
    ensures Mod125(x) == x % 125
    decreases if x < 0 then 1 else 0, if x < 0 then -x else x
  {
    if x < 0 {
      Mod125IsMod(x + 125);
      ModShift(x, 1, 125);
    } else if x >= 125 {
      Mod125IsMod(x - 125);
      ModShift(x - 125, 1, 125);
    } else {
      ModUnique(x, 0, x, 125);
    }
  }

  /** Reducing a partial sum first does not change the result. */
  lemma Mod125Sum(x: int, y: int)
    ensures Mod125(Mod125(x) + y) == Mod125(x + y)
  {
    Mod125IsMod(x);
    Mod125IsMod(Mod125(x) + y);
    Mod125IsMod(x + y);
    ModSum(x, y, 125);
  }

  lemma Mod125Associative(x: int, y: int, z: int)
    ensures Mod125(Mod125(x + y) + z) == Mod125(x + Mod125(y + z))
  {
    Mod125Sum(x + y, z);
    Mod125Sum(y + z, x);
  }

  /** Reducing a partial sum first does not change the remainder. */
  lemma ModSum(x: int, y: int, n: int)
    requires n > 0
    ensures (x % n + y) % n == (x + y) % n
  {
    var q := x / n;
    assert x == q * n + x % n;
    assert x + y == q * n + (x % n + y);
    ModShift(x % n + y, q, n);
  }

  /** Adding a multiple of `n` does not change the remainder. */
  lemma ModShift(x: int, q: int, n: int)
    requires n > 0
    ensures (q * n + x) % n == x % n
  {
    ModUnique(q * n + x, q + x / n, x % n, n);
  }

  /** The six orders in which `Reorder` can rearrange the digits A, B and C. */
  datatype ReorderParam = ABC | BAC | CBA | ACB | BCA | CAB
  {
    /** The order that undoes this one. */
    function Inverse(): ReorderParam
    {
      match this
      case BCA => CAB
      case CAB => BCA
      case _ => this
    }
  }

  /** The eye direction looking the opposite way: centre stays, 1 and 3 swap, 2 and 4 swap. */
  function InvertDigit(d: Digit): Digit
  {
    if d == 0 then 0 else if d == 1 then 3 else if d == 3 then 1 else if d == 2 then 4 else 2
  }

  /** The step on the diamond board that an eye looking in direction `d` takes. */
  function DiamondOffset(d: Digit): (o: (int, int))
    ensures Tables.Abs(o.0) + Tables.Abs(o.1) <= 1
  {
    if d == 0 then (0, 0)
    else if d == 1 then (0, -1)
    else if d == 2 then (1, 0)
    else if d == 3 then (0, 1)
    else (-1, 0)
  }

  lemma Triangle(x: int, y: int, z: int)
    ensures Tables.Abs(x + y + z) <= Tables.Abs(x) + Tables.Abs(y) + Tables.Abs(z)
  {
  }

  /** `count` copies of `ch`. */
  function Run(count: nat, ch: char): seq<char>
  {
    seq(count, _ => ch)
  }

  /**
    * The unary encoding: `x` copies of the outer character, `y` of the inner
    * one, `z` of the outer one again; `invert` swaps '0' and '1'.
    */
  function BinaryString(x: nat, y: nat, z: nat, invert: bool): seq<char>
  {
    var outer, inner := if invert then '1' else '0', if invert then '0' else '1';
    Run(x, outer) + Run(y, inner) + Run(z, outer)
  }

  /** Appends `count` copies of `ch` one at a time, as the `StringBuilder` loops do. */
  method AppendRun(builder: seq<char>, count: nat, ch: char) returns (result: seq<char>)
    ensures result == builder + Run(count, ch)
  {
    result := builder;
    var i := 0;
    while i < count
      invariant 0 <= i <= count
      invariant result == builder + Run(i, ch)
    {
      result := result + [ch];
      i := i + 1;
    }
  }

  datatype Trigram = Trigram(a: Digit, b: Digit, c: Digit)
  {
    /** `GetBase10`: the digits read as a base-5 number, A most significant. */
    function Base10(): (v: int)
      ensures 0 <= v < 125
    {
      c + b * 5 + a * 25
    }

    /**
      * The `int` constructor. The source first reduces `n` with C#'s
      * `(n % 125 + 125) % 125`, which is the Euclidean remainder (see
      * `CsRemNormalised` and `MutableTrigram.FromInt`), then splits off the
      * base-5 digits.
      */
    static function FromInt(n: int): (t: Trigram)
      ensures t.Base10() == Mod125(n)
    {
      FromBase10(Mod125(n))
    }

    /** The base-5 digits of a value in 0..124, most significant first. */
    static function FromBase10(v: int): (t: Trigram)
      requires 0 <= v < 125
      ensures t.Base10() == v
    {
      Trigram(v / 25, (v / 5) % 5, v % 5)
    }

    /** The byte constructor: each digit goes through a setter that rejects values above 4. */
    static function FromDigits(x: Byte, y: Byte, z: Byte): (r: Result<Trigram>)
      ensures r.Ok? <==> x <= 4 && y <= 4 && z <= 4
      ensures r.Ok? ==> r.value.a == x && r.value.b == y && r.value.c == z
      ensures r.Err? ==> r.error == DigitOverflow
    {
      if x > 4 || y > 4 || z > 4 then Err(DigitOverflow) else Ok(Trigram(x, y, z))
    }

    /** `Equals`: digit-wise comparison. */
    predicate Equals(other: Trigram)
    {
      a == other.a && b == other.b && c == other.c
    }

    /**
      * `operator +(Trigram, int)`: the sum, computed in unchecked `int`
      * arithmetic, is reduced through the `int` constructor. While the sum
      * fits in an `int` the result is the sum modulo 125.
      */
    function Add(k: Int32): (r: Trigram)
      ensures r.Base10() == Mod125(Wrap32(Base10() + k))
      ensures Base10() + k < 0x8000_0000 ==> r.Base10() == Mod125(Base10() + k)
    {
      FromInt(Wrap32(Base10() + k))
    }

    /**
      * `operator -(Trigram, int)`, written in the source as `trigram + -value`:
      * both the negation and the sum wrap. While `Base10() - k` fits in an
      * `int` (which excludes `k == int.MinValue`) the result is the
      * difference modulo 125.
      */
    function Sub(k: Int32): (r: Trigram)
      ensures r.Base10() == Mod125(Wrap32(Base10() + Wrap32(-(k as int))))
      ensures Base10() - k < 0x8000_0000 ==> r.Base10() == Mod125(Base10() - k)
    {
      Add(Wrap32(-(k as int)))
    }

    /** `operator +(Trigram, Trigram)`. */
    function Plus(other: Trigram): (r: Trigram)
      ensures r.Base10() == Mod125((Base10() + other.Base10()))
    {
      Add(other.Base10())
    }

    /** `operator -(Trigram, Trigram)`. */
    function Minus(other: Trigram): (r: Trigram)
      ensures r.Base10() == Mod125((Base10() - other.Base10()))
    {
      Sub(other.Base10())
    }

    /** `operator >`: compares A, then B, then C. */
    predicate Greater(other: Trigram)
    {
      if a > other.a then true
      else if a < other.a then false
      else if b > other.b then true
      else if b < other.b then false
      else c > other.c
    }

    /** `operator <`: compares A, then B, then C. */
    predicate Less(other: Trigram)
    {
      if a < other.a then true
      else if a > other.a then false
      else if b < other.b then true
      else if b > other.b then false
      else c < other.c
    }

    /** `CompareTo`: the first non-zero difference of the digits (`byte.CompareTo` returns the difference). */
    function CompareTo(other: Trigram): (r: int)
      ensures r < 0 <==> Less(other)
      ensures r > 0 <==> Greater(other)
      ensures r == 0 <==> this == other
    {
      var aComparison := a - other.a;
      if aComparison != 0 then aComparison
      else
        var bComparison := b - other.b;
        if bComparison != 0 then bComparison else c - other.c
    }

    /** `ToChar(offset)`: the `char` whose code is the base-10 value plus `offset`, cast unchecked. */
    function ToChar(offset: int): (ch: Char16)
      ensures 0 <= offset <= 0xFFFF - 124 ==> ch == Base10() + offset
    {
      ToChar16(Base10() + offset)
    }

    /** `GetBase10(mappings)`: each digit is first replaced by `mappings[digit]`. */
    function Base10Mapped(mappings: seq<Byte>): (v: int)
      requires |mappings| >= 5
      ensures 0 <= v <= 31 * 255
      ensures (forall i :: 0 <= i < 5 ==> mappings[i] < 5) ==> v == MapDigits(mappings).Base10()
    {
      mappings[c] as int + mappings[b] as int * 5 + mappings[a] as int * 25
    }

    /** The trigram whose digits are this one's digits sent through `mappings`. */
    function MapDigits(mappings: seq<Byte>): Trigram
      requires |mappings| >= 5 && forall i :: 0 <= i < 5 ==> mappings[i] < 5
    {
      Trigram(mappings[a], mappings[b], mappings[c])
    }

    /** `GetSum`: the digit sum, cast to `byte`; it never exceeds 12, so the cast never wraps. */
    function Sum(): (s: Byte)
      ensures s == a + b + c && s <= 12
    {
      ToByte(a + b + c)
    }

    /** `GetSum(mappings)`: the sum of the mapped digits, cast to `byte`, which wraps above 255. */
    function SumMapped(mappings: seq<Byte>): (s: Byte)
      requires |mappings| >= 5
      ensures mappings[a] as int + mappings[b] + mappings[c] < 0x100 ==> s == mappings[a] as int + mappings[b] + mappings[c]
      ensures (forall i :: 0 <= i < 5 ==> mappings[i] < 5) ==> s == MapDigits(mappings).Sum()
    {
      ToByte(mappings[a] as int + mappings[b] + mappings[c])
    }

    /** `GetPolybiusValue`: the Polybius cube cell at layer A, row B, column C. */
    function Polybius(): (v: int)
      ensures 0 <= v <= 24
      ensures v % 5 == c
    {
      Tables.PolybiusValue(a, b, c)
    }

    function SwappedAB(): Trigram { Trigram(b, a, c) }
    function SwappedAC(): Trigram { Trigram(c, b, a) }
    function SwappedBC(): Trigram { Trigram(a, c, b) }
    function RotatedCW(): Trigram { Trigram(b, c, a) }
    function RotatedCCW(): Trigram { Trigram(c, a, b) }
    function InvertedA(): Trigram { Trigram(InvertDigit(a), b, c) }
    function InvertedB(): Trigram { Trigram(a, InvertDigit(b), c) }
    function InvertedC(): Trigram { Trigram(a, b, InvertDigit(c)) }
    function Inverted(): Trigram { Trigram(InvertDigit(a), InvertDigit(b), InvertDigit(c)) }

    /** `Reorder`: a copy with its digits rearranged in the order the parameter names. */
    function Reorder(p: ReorderParam): Trigram
    {
      match p
      case ABC => this
      case BAC => SwappedAB()
      case CBA => SwappedAC()
      case ACB => SwappedBC()
      case BCA => RotatedCW()
      case CAB => RotatedCCW()
    }

    /** Where the diamond walk from the centre (3, 3) ends: the three eye steps added, or subtracted when `reverse`. */
    function DiamondEndpoint(reverse: bool): (p: (int, int))
      ensures 0 <= p.0 < 7 && 0 <= p.1 < 7
      ensures Tables.DistanceFromCentre(p.0, p.1) <= 3
    {
      var (oa, ob, oc) := (DiamondOffset(a), DiamondOffset(b), DiamondOffset(c));
      var (dx, dy) := (oa.0 + ob.0 + oc.0, oa.1 + ob.1 + oc.1);
      Triangle(oa.0, ob.0, oc.0);
      Triangle(oa.1, ob.1, oc.1);
      if reverse then (3 - dx, 3 - dy) else (3 + dx, 3 + dy)
    }

    /** The diamond board cell the walk ends on. */
    function DiamondValue(reverse: bool): (v: int)
      ensures 1 <= v <= 25
    {
      var p := DiamondEndpoint(reverse);
      Tables.DiamondShape(p.0, p.1);
      Tables.DiamondMatrix[p.0][p.1]
    }

    /**
      * `GetDiamondCypherValue`: walks from the centre one eye at a time and
      * reads the board. The source throws when the cell is 0; every walk stays
      * on the diamond, so that never happens.
      */
    method DiamondCypherValue(reverse: bool) returns (r: Result<Byte>)
      ensures r.Ok? && 1 <= r.value <= 25
      ensures r.value == DiamondValue(reverse)
    {
      var x, y := 3, 3;
      if !reverse {
        var off := DiamondOffset(a);
        x, y := x + off.0, y + off.1;
        off := DiamondOffset(b);
        x, y := x + off.0, y + off.1;
        off := DiamondOffset(c);
        x, y := x + off.0, y + off.1;
      } else {
        var off := DiamondOffset(a);
        x, y := x - off.0, y - off.1;
        off := DiamondOffset(b);
        x, y := x - off.0, y - off.1;
        off := DiamondOffset(c);
        x, y := x - off.0, y - off.1;
      }
      assert (x, y) == DiamondEndpoint(reverse);
      Tables.DiamondShape(x, y);
      var value := Tables.DiamondMatrix[x][y];
      var failure: Result<Byte> := Err(OutOfDiamond);
      r := if value == 0 then failure else Ok(value);
    }

    /** `ToBinaryString(invert)`: A, B and C copies of alternating characters. */
    method ToBinaryString(invert: bool) returns (s: seq<char>)
      ensures s == BinaryString(a, b, c, invert)
    {
      var outer, inner := if invert then '1' else '0', if invert then '0' else '1';
      s := AppendRun([], a, outer);
      s := AppendRun(s, b, inner);
      s := AppendRun(s, c, outer);
    }

    /** `ToBinaryString(invert, mappings)`: the run lengths are the mapped digits. */
    method ToBinaryStringMapped(invert: bool, mappings: seq<Byte>) returns (s: seq<char>)
      requires |mappings| >= 5
      ensures s == BinaryString(mappings[a], mappings[b], mappings[c], invert)
    {
      var outer, inner := if invert then '1' else '0', if invert then '0' else '1';
      s := AppendRun([], mappings[a], outer);
      s := AppendRun(s, mappings[b], inner);
      s := AppendRun(s, mappings[c], outer);
    }
  }

  /**
    * The C# `Trigram` object. Its digits are private fields behind setters
    * that reject values above 4; the swap, rotate and invert operations
    * rewrite them in place.
    */
  class MutableTrigram {
    var a: Digit
    var b: Digit
    var c: Digit

    function Value(): Trigram
      reads this
    {
      Trigram(a, b, c)
    }

    /** `Trigram(int base10)`. */
    constructor FromInt(n: int)
      ensures Value() == Trigram.FromInt(n)
    {
      CsRemNormalised(n, 125);
      Mod125IsMod(n);
      var v := CsRem(CsRem(n, 125) + 125, 125);
      var digitA := v / 25;
      v := v - digitA * 25;
      var digitB := v / 5;
      v := v - digitB * 5;
      a, b, c := digitA, digitB, v;
    }

    /** `Trigram(Trigram trigram)`: a copy with the same digits. */
    constructor Copy(other: MutableTrigram)
      ensures Value() == other.Value()
    {
      a, b, c := other.a, other.b, other.c;
    }

    /** A trigram with the given digits: `Trigram(byte, byte, byte)` when all three are valid. */
    constructor (x: Digit, y: Digit, z: Digit)
      ensures Value() == Trigram(x, y, z)
    {
      a, b, c := x, y, z;
    }

    /** `Trigram(byte a, byte b, byte c)`: the setters throw on the first digit above 4. */
    static method FromBytes(x: Byte, y: Byte, z: Byte) returns (r: Result<MutableTrigram>)
      ensures r.Err? ==> r == Err(DigitOverflow) && Trigram.FromDigits(x, y, z).Err?
      ensures r.Ok? ==> fresh(r.value) && Trigram.FromDigits(x, y, z) == Ok(r.value.Value())
    {
      var t := new MutableTrigram(0, 0, 0);
      var outcome := t.SetA(x);
      if outcome.Err? { return Err(outcome.error); }
      outcome := t.SetB(y);
      if outcome.Err? { return Err(outcome.error); }
      outcome := t.SetC(z);
      if outcome.Err? { return Err(outcome.error); }
      return Ok(t);
    }

    /** The setter of `A`: rejects a value above 4 and leaves the trigram as it was. */
    method SetA(value: Byte) returns (r: Result<()>)
      modifies this
      ensures value <= 4 ==> r.Ok? && Value() == Trigram(value, old(b), old(c))
      ensures value > 4 ==> r == Err(DigitOverflow) && Value() == old(Value())
    {
      if value > 4 {
        return Err(DigitOverflow);
      }
      a := value;
      return Ok(());
    }

    /** The setter of `B`. */
    method SetB(value: Byte) returns (r: Result<()>)
      modifies this
      ensures value <= 4 ==> r.Ok? && Value() == Trigram(old(a), value, old(c))
      ensures value > 4 ==> r == Err(DigitOverflow) && Value() == old(Value())
    {
      if value > 4 {
        return Err(DigitOverflow);
      }
      b := value;
      return Ok(());
    }

    /** The setter of `C`. */
    method SetC(value: Byte) returns (r: Result<()>)
      modifies this
      ensures value <= 4 ==> r.Ok? && Value() == Trigram(old(a), old(b), value)
      ensures value > 4 ==> r == Err(DigitOverflow) && Value() == old(Value())
    {
      if value > 4 {
        return Err(DigitOverflow);
      }
      c := value;
      return Ok(());
    }

    method SwapAB()
      modifies this
      ensures Value() == old(Value()).SwappedAB()
    {
      var tmp := a;
      a := b;
      b := tmp;
    }

    method SwapAC()
      modifies this
      ensures Value() == old(Value()).SwappedAC()
    {
      var tmp := a;
      a := c;
      c := tmp;
    }

    method SwapBC()
      modifies this
      ensures Value() == old(Value()).SwappedBC()
    {
      var tmp := b;
      b := c;
      c := tmp;
    }

    /** (a, b, c) becomes (b, c, a). */
    method RotateCW()
      modifies this
      ensures Value() == old(Value()).RotatedCW()
    {
      var tmp := a;
      a := b;
      b := c;
      c := tmp;
    }

    /** (a, b, c) becomes (c, a, b). */
    method RotateCCW()
      modifies this
      ensures Value() == old(Value()).RotatedCCW()
    {
      var tmp := a;
      a := c;
      c := b;
      b := tmp;
    }

    method InvertA()
      modifies this
      ensures Value() == old(Value()).InvertedA()
    {
      a := InvertDigit(a);
    }

    method InvertB()
      modifies this
      ensures Value() == old(Value()).InvertedB()
    {
      b := InvertDigit(b);
    }

    method InvertC()
      modifies this
      ensures Value() == old(Value()).InvertedC()
    {
      c := InvertDigit(c);
    }

    method Invert()
      modifies this
      ensures Value() == old(Value()).Inverted()
    {
      a := InvertDigit(a);
      b := InvertDigit(b);
      c := InvertDigit(c);
    }

    /** `Reorder`: copies the trigram and applies the named swap or rotation to the copy only. */
    method Reorder(p: ReorderParam) returns (result: MutableTrigram)
      ensures fresh(result)
      ensures result.Value() == Value().Reorder(p)
    {
      result := new MutableTrigram(a, b, c);
      match p {
        case ABC =>
        case BAC => result.SwapAB();
        case CBA => result.SwapAC();
        case ACB => result.SwapBC();
        case BCA => result.RotateCW();
        case CAB => result.RotateCCW();
      }
    }
  }

  // ---------------------------------------------------------------------
  // Base 5 and Z/125
  // ---------------------------------------------------------------------

  /** Each digit can be read back from the base-10 value. */
  lemma Base10Digits(t: Trigram)
    ensures t.a == t.Base10() / 25 && t.b == (t.Base10() / 5) % 5 && t.c == t.Base10() % 5
  {
    var v := t.Base10();
    ModUnique(v, t.a, t.c + 5 * t.b, 25);
    ModUnique(v, 5 * t.a + t.b, t.c, 5);
    ModUnique(5 * t.a + t.b, t.a, t.b, 5);
  }

  /** The `int` constructor inverts `GetBase10`. */
  lemma FromIntOfBase10(t: Trigram)
    ensures Trigram.FromInt(t.Base10()) == t
  {
    Base10Digits(t);
  }

  /** Distinct digit triples have distinct base-10 values. */
  lemma Base10Injective(t: Trigram, u: Trigram)
    requires t.Base10() == u.Base10()
    ensures t == u
  {
    FromIntOfBase10(t);
    FromIntOfBase10(u);
  }

  /** The `int` constructor depends only on `n` modulo 125. */
  lemma FromIntCongruent(n: int, m: int)
    requires n % 125 == m % 125
    ensures Trigram.FromInt(n) == Trigram.FromInt(m)
  {
    Mod125IsMod(n);
    Mod125IsMod(m);
    Base10Injective(Trigram.FromInt(n), Trigram.FromInt(m));
  }

  /** The constructions the repository's trigram test checks, as (argument, digits) pairs. */
  const FromIntTestCases: seq<(int, Trigram)> := [
    (0, Trigram(0, 0, 0)), (10, Trigram(0, 2, 0)), (125, Trigram(0, 0, 0)),
    (-1, Trigram(4, 4, 4)), (86, Trigram(3, 2, 1))
  ]

  lemma FromIntTestValues(i: nat)
    requires i < |FromIntTestCases|
    ensures Trigram.FromInt(FromIntTestCases[i].0) == FromIntTestCases[i].1
  {
    var (n, t) := FromIntTestCases[i];
    assert Mod125(n) == t.Base10() by {
      if i == 2 {
        assert Mod125(125) == Mod125(0);
      } else if i == 3 {
        assert Mod125(-1) == Mod125(124);
      }
    }
    Base10Injective(Trigram.FromInt(n), t);
  }

  /**
    * Neither `t + k` nor the following `- k` wraps: the sum fits in an `int`,
    * and so does its residue minus `k` (which excludes `k == int.MinValue`).
    */
  predicate AddSubFits(t: Trigram, k: int)
  {
    t.Base10() + k < 0x8000_0000 && Mod125(t.Base10() + k) - k < 0x8000_0000
  }

  /** Neither `t - k` nor the following `+ k` wraps. */
  predicate SubAddFits(t: Trigram, k: int)
  {
    t.Base10() - k < 0x8000_0000 && Mod125(t.Base10() - k) + k < 0x8000_0000
  }

  /**
    * A shift for which no trigram wraps in either order: within 124 of the
    * ends of the `int` range.
    */
  predicate ShiftFits(k: int)
  {
    -0x7FFF_FF83 <= k <= 0x7FFF_FF83
  }

  lemma ShiftFitsBoth(t: Trigram, k: int)
    requires ShiftFits(k)
    ensures AddSubFits(t, k) && SubAddFits(t, k)
  {
  }

  /**
    * A wrap moves a sum by 2^32, which is 46 modulo 125, so a round trip in
    * which one step wraps never restores the trigram.
    */
  lemma WrappedRoundTrip(x: int, r: int)
    requires 0 <= x < 125 && r == Mod125(x - 0x1_0000_0000)
    ensures r != x
  {
    Mod125IsMod(x - 0x1_0000_0000);
  }

  /** Subtracting what was added gives back the original trigram exactly when no step wraps. */
  lemma AddSubInverse(t: Trigram, k: Int32)
    ensures t.Add(k).Sub(k) == t <==> AddSubFits(t, k)
  {
    if AddSubFits(t, k) {
      var v := t.Add(k).Base10();
      assert v == Mod125(t.Base10() + k);
      assert t.Add(k).Sub(k).Base10() == Mod125(v - k);
      Mod125Sum(t.Base10() + k, -k);
      Base10Injective(t.Add(k).Sub(k), t);
    } else if t.Base10() + k >= 0x8000_0000 {
      AddWrapsFirst(t, k);
    } else {
      AddWrapsSecond(t, k);
    }
  }

  lemma AddWrapsFirst(t: Trigram, k: Int32)
    requires t.Base10() + k >= 0x8000_0000
    ensures t.Add(k).Sub(k) != t
  {
    var x, n := t.Base10(), -(k as int);
    var v := t.Add(k).Base10();
    assert Wrap32(x + k) == x + k - 0x1_0000_0000;
    assert Wrap32(n) == n && Wrap32(v + n) == v + n;
    Mod125Sum(x + k - 0x1_0000_0000, n);
    WrappedRoundTrip(x, t.Add(k).Sub(k).Base10());
  }

  lemma AddWrapsSecond(t: Trigram, k: Int32)
    requires t.Base10() + k < 0x8000_0000 && Mod125(t.Base10() + k) - k >= 0x8000_0000
    ensures t.Add(k).Sub(k) != t
  {
    var x, n := t.Base10(), -(k as int);
    var v := t.Add(k).Base10();
    assert v == Mod125(x + k);
    if k == -0x8000_0000 {
      assert Wrap32(n) == -0x8000_0000;
      assert Wrap32(v - 0x8000_0000) == v - 0x8000_0000;
    } else {
      assert Wrap32(n) == n;
      assert Wrap32(v + n) == v + n - 0x1_0000_0000;
    }
    Mod125Sum(x + k, n - 0x1_0000_0000);
    WrappedRoundTrip(x, t.Add(k).Sub(k).Base10());
  }

  /** Adding what was subtracted gives back the original trigram exactly when no step wraps. */
  lemma SubAddInverse(t: Trigram, k: Int32)
    ensures t.Sub(k).Add(k) == t <==> SubAddFits(t, k)
  {
    if SubAddFits(t, k) {
      var v := t.Sub(k).Base10();
      assert v == Mod125(t.Base10() - k);
      assert t.Sub(k).Add(k).Base10() == Mod125(v + k);
      Mod125Sum(t.Base10() - k, k);
      Base10Injective(t.Sub(k).Add(k), t);
    } else if t.Base10() - k >= 0x8000_0000 {
      SubWrapsFirst(t, k);
    } else {
      SubWrapsSecond(t, k);
    }
  }

  lemma SubWrapsFirst(t: Trigram, k: Int32)
    requires t.Base10() - k >= 0x8000_0000
    ensures t.Sub(k).Add(k) != t
  {
    var x, n := t.Base10(), -(k as int);
    var v := t.Sub(k).Base10();
    assert Wrap32(x + Wrap32(n)) == x + n - 0x1_0000_0000;
    assert Wrap32(v + k) == v + k;
    Mod125Sum(x + n - 0x1_0000_0000, k);
    WrappedRoundTrip(x, t.Sub(k).Add(k).Base10());
  }

  lemma SubWrapsSecond(t: Trigram, k: Int32)
    requires t.Base10() - k < 0x8000_0000 && Mod125(t.Base10() - k) + k >= 0x8000_0000
    ensures t.Sub(k).Add(k) != t
  {
    var x, n := t.Base10(), -(k as int);
    var v := t.Sub(k).Base10();
    assert v == Mod125(x + n);
    assert Wrap32(v + k) == v + k - 0x1_0000_0000;
    Mod125Sum(x + n, k - 0x1_0000_0000);
    WrappedRoundTrip(x, t.Sub(k).Add(k).Base10());
  }

  /** `(t + u) - u == t` for trigram operands. */
  lemma PlusMinusInverse(t: Trigram, u: Trigram)
    ensures t.Plus(u).Minus(u) == t
    ensures t.Minus(u).Plus(u) == t
  {
    ShiftFitsBoth(t, u.Base10());
    AddSubInverse(t, u.Base10());
    SubAddInverse(t, u.Base10());
  }

  /** Trigram addition is commutative. */
  lemma PlusCommutative(t: Trigram, u: Trigram)
    ensures t.Plus(u) == u.Plus(t)
  {
    Base10Injective(t.Plus(u), u.Plus(t));
  }

  /** An addend whose value is 0 changes nothing. */
  lemma PlusZero(t: Trigram, zero: Trigram)
    requires zero.Base10() == 0
    ensures t.Plus(zero) == t
  {
    Base10Injective(t.Plus(zero), t);
  }

  /** The all-centre trigram is the identity of trigram addition. */
  lemma PlusIdentity(t: Trigram)
    ensures t.Plus(Trigram(0, 0, 0)) == t
  {
    var zero := Trigram(0, 0, 0);
    assert zero.Base10() == 0;
    PlusZero(t, zero);
  }

  /** The value of a sum of trigrams is the sum of their values modulo 125. */
  lemma PlusBase10(t: Trigram, u: Trigram)
    ensures t.Plus(u).Base10() == Mod125(t.Base10() + u.Base10())
  {
  }

  /** Trigram addition is associative. */
  lemma PlusAssociative(t: Trigram, u: Trigram, v: Trigram)
    ensures t.Plus(u).Plus(v) == t.Plus(u.Plus(v))
  {
    var tu, uv := t.Plus(u), u.Plus(v);
    PlusBase10(t, u);
    PlusBase10(u, v);
    PlusBase10(tu, v);
    PlusBase10(t, uv);
    Mod125Associative(t.Base10(), u.Base10(), v.Base10());
    Base10Injective(tu.Plus(v), t.Plus(uv));
  }

  // ---------------------------------------------------------------------
  // Order
  // ---------------------------------------------------------------------

  /** `<`, `>` and `CompareTo` all order trigrams by their base-10 value. */
  lemma OrderIsBase10(t: Trigram, u: Trigram)
    ensures t.Less(u) <==> t.Base10() < u.Base10()
    ensures t.Greater(u) <==> t.Base10() > u.Base10()
    ensures t.Less(u) <==> u.Greater(t)
  {
  }

  /** The comparisons the repository's trigram test checks. */
  lemma ComparisonTestValues()
    ensures Trigram(0, 0, 0) != Trigram(4, 4, 4) && Trigram(4, 4, 4) != Trigram(2, 4, 4)
    ensures Trigram(2, 4, 4) != Trigram(3, 0, 0) && Trigram(2, 4, 4).Equals(Trigram(2, 4, 4))
    ensures !Trigram(0, 0, 0).Greater(Trigram(4, 4, 4)) && Trigram(4, 4, 4).Greater(Trigram(0, 0, 0))
    ensures !Trigram(2, 4, 4).Greater(Trigram(2, 4, 4)) && Trigram(4, 4, 4).Greater(Trigram(2, 4, 4))
    ensures Trigram(2, 4, 4).Less(Trigram(3, 0, 0))
  {
  }

  /** `Equals` is exactly value equality. */
  lemma EqualsIsEquality(t: Trigram, u: Trigram)
    ensures t.Equals(u) <==> t == u
  {
  }

  // ---------------------------------------------------------------------
  // Permutations and inversions of the digits
  // ---------------------------------------------------------------------

  lemma SwapsAreInvolutions(t: Trigram)
    ensures t.SwappedAB().SwappedAB() == t
    ensures t.SwappedAC().SwappedAC() == t
    ensures t.SwappedBC().SwappedBC() == t
  {
  }

  lemma RotationsAreInverse(t: Trigram)
    ensures t.RotatedCW().RotatedCCW() == t
    ensures t.RotatedCCW().RotatedCW() == t
    ensures t.RotatedCW().RotatedCW().RotatedCW() == t
  {
  }

  /** Reordering only rearranges: the three digits come out as they went in, in some order. */
  lemma ReorderPermutes(t: Trigram, p: ReorderParam)
    ensures multiset{t.Reorder(p).a, t.Reorder(p).b, t.Reorder(p).c} == multiset{t.a, t.b, t.c}
  {
    var r := t.Reorder(p);
    match p
    case ABC =>
    case BAC => assert multiset{r.a, r.b, r.c} == multiset{t.b, t.a, t.c};
    case CBA => assert multiset{r.a, r.b, r.c} == multiset{t.c, t.b, t.a};
    case ACB => assert multiset{r.a, r.b, r.c} == multiset{t.a, t.c, t.b};
    case BCA => assert multiset{r.a, r.b, r.c} == multiset{t.b, t.c, t.a};
    case CAB => assert multiset{r.a, r.b, r.c} == multiset{t.c, t.a, t.b};
  }

  /** Reordering by `p` and then by its inverse restores the trigram. */
  lemma ReorderInverse(t: Trigram, p: ReorderParam)
    ensures t.Reorder(p).Reorder(p.Inverse()) == t
  {
  }

  /** Reordering keeps the digit sum, which does not depend on the order of the eyes. */
  lemma ReorderKeepsSum(t: Trigram, p: ReorderParam)
    ensures t.Reorder(p).Sum() == t.Sum()
  {
    match p
    case ABC =>
    case BAC => assert t.Reorder(p).Sum() == t.b + t.a + t.c;
    case CBA => assert t.Reorder(p).Sum() == t.c + t.b + t.a;
    case ACB => assert t.Reorder(p).Sum() == t.a + t.c + t.b;
    case BCA => assert t.Reorder(p).Sum() == t.b + t.c + t.a;
    case CAB => assert t.Reorder(p).Sum() == t.c + t.a + t.b;
  }

  /** The three diamond steps of a trigram added up. */
  function StepSum(t: Trigram): (int, int)
  {
    Add3(DiamondOffset(t.a), DiamondOffset(t.b), DiamondOffset(t.c))
  }

  function Add3(x: (int, int), y: (int, int), z: (int, int)): (int, int)
  {
    (x.0 + y.0 + z.0, x.1 + y.1 + z.1)
  }

  /** The sum of three steps does not depend on their order. */
  lemma Add3Commutes(x: (int, int), y: (int, int), z: (int, int))
    ensures Add3(y, x, z) == Add3(z, y, x) == Add3(x, z, y) == Add3(y, z, x) == Add3(z, x, y) == Add3(x, y, z)
  {
  }

  /** The diamond walk ends at the centre moved by the sum of the steps. */
  lemma EndpointOfStepSum(t: Trigram, reverse: bool)
    ensures t.DiamondEndpoint(reverse) ==
      if reverse then (3 - StepSum(t).0, 3 - StepSum(t).1) else (3 + StepSum(t).0, 3 + StepSum(t).1)
  {
  }

  /** The steps of a reordered trigram are the same steps in another order. */
  lemma ReorderKeepsStepSum(t: Trigram, p: ReorderParam)
    ensures StepSum(t.Reorder(p)) == StepSum(t)
  {
    var r := t.Reorder(p);
    Add3Commutes(DiamondOffset(t.a), DiamondOffset(t.b), DiamondOffset(t.c));
    match p {
      case ABC =>
      case BAC => assert r == Trigram(t.b, t.a, t.c);
      case CBA => assert r == Trigram(t.c, t.b, t.a);
      case ACB => assert r == Trigram(t.a, t.c, t.b);
      case BCA => assert r == Trigram(t.b, t.c, t.a);
      case CAB => assert r == Trigram(t.c, t.a, t.b);
    }
  }

  /** Reordering keeps the diamond walk, whose three steps commute. */
  lemma ReorderKeepsDiamond(t: Trigram, p: ReorderParam, reverse: bool)
    ensures t.Reorder(p).DiamondValue(reverse) == t.DiamondValue(reverse)
  {
    var r := t.Reorder(p);
    ReorderKeepsStepSum(t, p);
    EndpointOfStepSum(t, reverse);
    EndpointOfStepSum(r, reverse);
    assert r.DiamondEndpoint(reverse) == t.DiamondEndpoint(reverse);
  }

  /**
    * Inverting an eye direction twice restores it, only the centre is its
    * own inverse, and an inverted eye points the opposite way on the diamond.
    */
  lemma InvertDigitInvolution(d: Digit)
    ensures InvertDigit(InvertDigit(d)) == d
    ensures InvertDigit(d) == 0 <==> d == 0
    ensures DiamondOffset(InvertDigit(d)) == (-DiamondOffset(d).0, -DiamondOffset(d).1)
  {
  }

  /** Inverting all eyes twice restores the trigram; `Invert` is the three single inversions in turn, each touching only its own digit. */
  lemma InvertInvolution(t: Trigram)
    ensures t.Inverted().Inverted() == t
    ensures t.InvertedA().InvertedA() == t && t.InvertedB().InvertedB() == t && t.InvertedC().InvertedC() == t
    ensures t.Inverted() == t.InvertedA().InvertedB().InvertedC()
    ensures t.InvertedA().b == t.b && t.InvertedA().c == t.c
    ensures t.InvertedB().a == t.a && t.InvertedB().c == t.c
    ensures t.InvertedC().a == t.a && t.InvertedC().b == t.b
  {
    InvertDigitInvolution(t.a);
    InvertDigitInvolution(t.b);
    InvertDigitInvolution(t.c);
  }

  // ---------------------------------------------------------------------
  // Diamond walk
  // ---------------------------------------------------------------------

  /** Walking backwards ends on the cell opposite the forward walk's, whose value is 26 minus it. */
  lemma DiamondReverseComplement(t: Trigram)
    ensures t.DiamondValue(true) == 26 - t.DiamondValue(false)
  {
    var p := t.DiamondEndpoint(false);
    assert t.DiamondEndpoint(true) == (6 - p.0, 6 - p.1);
    Tables.DiamondPointSymmetric(p.0, p.1);
  }

  /** Inverting every eye is the same as walking in the other direction. */
  lemma DiamondInvertedEyes(t: Trigram, reverse: bool)
    ensures t.Inverted().DiamondValue(reverse) == t.DiamondValue(!reverse)
  {
    InvertDigitInvolution(t.a);
    InvertDigitInvolution(t.b);
    InvertDigitInvolution(t.c);
    assert t.Inverted().DiamondEndpoint(reverse) == t.DiamondEndpoint(!reverse);
  }

  // ---------------------------------------------------------------------
  // Sums, mappings, characters, binary strings
  // ---------------------------------------------------------------------

  /** The identity mapping [0, 1, 2, 3, 4] leaves `GetBase10` and `GetSum` unchanged. */
  lemma IdentityMapping(t: Trigram)
    ensures t.Base10Mapped([0, 1, 2, 3, 4]) == t.Base10()
    ensures t.SumMapped([0, 1, 2, 3, 4]) == t.Sum()
  {
    assert t.MapDigits([0, 1, 2, 3, 4]) == t;
  }

  /** Distinct trigrams give distinct characters while the offset keeps the code in range. */
  lemma ToCharInjective(t: Trigram, u: Trigram, offset: int)
    requires 0 <= offset <= 0xFFFF - 124
    requires t.ToChar(offset) == u.ToChar(offset)
    ensures t == u
  {
    Base10Injective(t, u);
  }

  /** The binary string has one character per unit of its three counts, and inverting it swaps every '0' and '1'. */
  lemma {:induction false} BinaryStringShape(x: nat, y: nat, z: nat)
    ensures |BinaryString(x, y, z, false)| == x + y + z
    ensures |BinaryString(x, y, z, true)| == x + y + z
    ensures forall i :: 0 <= i < x + y + z ==>
      (BinaryString(x, y, z, true)[i] == '1' <==> BinaryString(x, y, z, false)[i] == '0')
    ensures forall i :: 0 <= i < x + y + z ==>
      (BinaryString(x, y, z, false)[i] == '1' <==> x <= i < x + y)
  {
    var plain, inverted := BinaryString(x, y, z, false), BinaryString(x, y, z, true);
    assert plain == Run(x, '0') + Run(y, '1') + Run(z, '0');
    assert inverted == Run(x, '1') + Run(y, '0') + Run(z, '1');
    forall i | 0 <= i < x + y + z
      ensures (inverted[i] == '1' <==> plain[i] == '0')
      ensures (plain[i] == '1' <==> x <= i < x + y)
    {
      if i < x {
        assert plain[i] == '0' && inverted[i] == '1';
      } else if i < x + y {
        assert plain[i] == '1' && inverted[i] == '0';
      } else {
        assert plain[i] == '0' && inverted[i] == '1';
      }
    }
  }
}
