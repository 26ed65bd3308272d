/**
  * The C# value types and failure paths the library relies on.
  *
  * C# `byte` and `char` are fixed-width; the model keeps them as bounded
  * integers and writes every unchecked cast out explicitly. C#'s `%` on `int`
  * truncates toward zero, unlike Dafny's Euclidean `%`; `CsRem` models it.
  */
module Primitives {

  /** A C# `byte`. */
  type Byte = x: int | 0 <= x < 0x100

  /** A C# `char`: one UTF-16 code unit. */
  type Char16 = x: int | 0 <= x < 0x1_0000

  /** The range of a C# `int`. */
  predicate InInt32(x: int)
  {
    -0x8000_0000 <= x < 0x8000_0000
  }

  /** A C# `int`. */
  type Int32 = x: int | -0x8000_0000 <= x < 0x8000_0000

  /**
    * Unchecked `int` arithmetic: the mathematical result reduced into the
    * 32-bit range, wrapping around. It is the one value of that range that
    * differs from `x` by a multiple of 2^32.
    */
  function Wrap32(x: int): (r: Int32)
    ensures InInt32(x) ==> r == x
    ensures 0x8000_0000 <= x < 0x1_8000_0000 ==> r == x - 0x1_0000_0000
    ensures -0x1_8000_0000 <= x < -0x8000_0000 ==> r == x + 0x1_0000_0000
    ensures (x - r) % 0x1_0000_0000 == 0
  {
    var q := (x + 0x8000_0000) / 0x1_0000_0000;
    var r := (x + 0x8000_0000) % 0x1_0000_0000 - 0x8000_0000;
    assert x - r == q * 0x1_0000_0000;
    ModUnique(x - r, q, 0, 0x1_0000_0000);
    assert InInt32(x) ==> r == x by {
      if InInt32(x) {
        ModUnique(x + 0x8000_0000, 0, x + 0x8000_0000, 0x1_0000_0000);
      }
    }
    assert 0x8000_0000 <= x < 0x1_8000_0000 ==> r == x - 0x1_0000_0000 by {
      if 0x8000_0000 <= x < 0x1_8000_0000 {
        ModUnique(x + 0x8000_0000, 1, x - 0x8000_0000, 0x1_0000_0000);
      }
    }
    assert -0x1_8000_0000 <= x < -0x8000_0000 ==> r == x + 0x1_0000_0000 by {
      if -0x1_8000_0000 <= x < -0x8000_0000 {
        ModUnique(x + 0x8000_0000, -1, x + 0x1_8000_0000, 0x1_0000_0000);
      }
    }
    r
  }

  /** A C# `uint`. */
  type UInt32 = x: int | 0 <= x < 0x1_0000_0000

  /**
    * Unchecked `uint` arithmetic: the mathematical result modulo 2^32. It is
    * the result itself when that fits, and `0 - 1U` is `uint.MaxValue`.
    */
  function WrapU32(x: int): (r: UInt32)
    ensures 0 <= x < 0x1_0000_0000 ==> r == x
    ensures 0x1_0000_0000 <= x < 0x2_0000_0000 ==> r == x - 0x1_0000_0000
    ensures x == -1 ==> r == 0xFFFF_FFFF
    ensures (x - r) % 0x1_0000_0000 == 0
  {
    var q := x / 0x1_0000_0000;
    var r := x % 0x1_0000_0000;
    ModUnique(x - r, q, 0, 0x1_0000_0000);
    assert 0 <= x < 0x1_0000_0000 ==> r == x by {
      if 0 <= x < 0x1_0000_0000 {
        ModUnique(x, 0, x, 0x1_0000_0000);
      }
    }
    assert 0x1_0000_0000 <= x < 0x2_0000_0000 ==> r == x - 0x1_0000_0000 by {
      if 0x1_0000_0000 <= x < 0x2_0000_0000 {
        ModUnique(x, 1, x - 0x1_0000_0000, 0x1_0000_0000);
      }
    }
    assert x == -1 ==> r == 0xFFFF_FFFF by {
      if x == -1 {
        ModUnique(x, -1, 0xFFFF_FFFF, 0x1_0000_0000);
      }
    }
    r
  }

  /** The exceptions the modelled code can raise. */
  datatype Error =
    | DigitOverflow          // ApplicationException("Trigram value overflow") from a digit setter
    | OutOfDiamond           // ArgumentOutOfRangeException from the diamond walk
    | KeyNotFound            // KeyNotFoundException from a dictionary lookup
    | DuplicateKey           // ArgumentException from ToDictionary on a repeated key
    | OutOfAlphabet          // InvalidOperationException: a character outside the alphabet
    | EmptyQueue             // InvalidOperationException from Queue.Dequeue
    | IndexOutOfRange        // IndexOutOfRangeException from an array access
    | DivideByZero           // DivideByZeroException from an integer `%`
    | InvalidLength          // ArgumentException: a length check failed
    | NotBinary              // FormatException from Convert.ToByte(_, 2)
    | InvalidMessageCount    // ApplicationException: not exactly nine messages
    | NotInAlphabet          // ArgumentException: a character missing from the Trifid cube
    | AlphabetSizeMismatch   // ArgumentException from the Trifid constructor
    | InvalidColumn          // ArgumentException: a grid column index of 26 or more

  datatype Result<T> = Ok(value: T) | Err(error: Error)

  /** The outcome of a loop that has already produced `done` and whose remaining rounds yield `rest`. */
  function Prepend<T>(done: seq<T>, rest: Result<seq<T>>): Result<seq<T>>
  {
    if rest.Ok? then Ok(done + rest.value) else rest
  }

  /** C#'s `a % n` for `n > 0`: the remainder carries the sign of `a`. */
  function CsRem(a: int, n: int): (r: int)
    requires n > 0
    ensures -n < r < n
    ensures a >= 0 ==> 0 <= r
    ensures a <= 0 ==> r <= 0
  {
    if a >= 0 then a % n else -((-a) % n)
  }

  /** The remainder C# computes differs from `a` by a multiple of `n`. */
  lemma CsRemCongruent(a: int, n: int)
    requires n > 0
    ensures exists q: int :: a == q * n + CsRem(a, n)
  {
    if a >= 0 {
      assert a == (a / n) * n + CsRem(a, n);
    } else {
      var b := -a;
      assert b == (b / n) * n + b % n;
      assert a == (-(b / n)) * n + CsRem(a, n);
    }
  }

  /** The C# idiom `(a % n + n) % n` yields Dafny's Euclidean remainder. */
  lemma CsRemNormalised(a: int, n: int)
    requires n > 0
    ensures CsRem(CsRem(a, n) + n, n) == a % n
  {
    var r := CsRem(a, n);
    CsRemCongruent(a, n);
    var q: int :| a == q * n + r;
    if r >= 0 {
      ModUnique(a, q, r, n);
      ModUnique(r + n, 1, r, n);
    } else {
      assert a == (q - 1) * n + (r + n);
      ModUnique(a, q - 1, r + n, n);
      ModUnique(r + n, 0, r + n, n);
    }
  }

  /** Euclidean division is unique: the quotient and remainder are determined by `a` and `n`. */
  lemma ModUnique(a: int, q: int, r: int, n: int)
    requires n > 0 && 0 <= r < n && a == q * n + r
    ensures a % n == r && a / n == q
  {
    var q', r' := a / n, a % n;
    assert a == q' * n + r';
    assert q * n - q' * n == r' - r;
    assert (q - q') * n == r' - r;
    if q > q' {
      MulAtLeast(q - q', n);
    } else if q < q' {
      MulAtLeast(q' - q, n);
    }
  }

  lemma MulAtLeast(k: int, n: int)
    requires k >= 1 && n > 0
    ensures k * n >= n
  {
    assert k * n == (k - 1) * n + n;
    assert (k - 1) * n >= 0;
  }

  /** Multiplying both sides by a non-negative factor keeps their order. */
  lemma MulMonotone(a: int, b: int, n: int)
    requires 0 <= n && a <= b
    ensures a * n <= b * n
  {
  }

  /** `(a + 1) * n` is `a * n + n`. */
  lemma MulSucc(a: int, n: int)
    ensures a * n + n == (a + 1) * n
  {
  }

  /** Adding `n` does not change the remainder modulo `n`. */
  lemma ModShiftDown(x: int, n: int)
    requires n > 0
    ensures (x + n) % n == x % n
  {
    var q, r := x / n, x % n;
    assert x == q * n + r;
    assert x + n == (q + 1) * n + r;
    ModUnique(x + n, q + 1, r, n);
  }

  /**
    * The Euclidean remainder, computed by repeated subtraction. Stating the
    * repeating-key and alphabet arithmetic with it keeps division by a
    * variable out of the proofs; `ModIsMod` ties it to `%`.
    */
  function Mod(x: int, n: int): (r: int)
    requires n > 0
    ensures 0 <= r < n
    decreases if x < 0 then 1 else 0, if x < 0 then -x else x
  {
    if x < 0 then Mod(x + n, n) else if x >= n then Mod(x - n, n) else x
  }

  lemma {:induction false} ModIsMod(x: int, n: int)
    requires n > 0
    ensures Mod(x, n) == x % n
    decreases if x < 0 then 1 else 0, if x < 0 then -x else x
  {
    if x < 0 {
      ModIsMod(x + n, n);
      ModShiftDown(x, n);
    } else if x >= n {
      ModIsMod(x - n, n);
      ModShiftDown(x - n, n);
    } else {
      ModUnique(x, 0, x, n);
    }
  }

  /** C#'s normalising idiom `(a % n + n) % n`, which yields the Euclidean remainder. */
  function CsMod(a: int, n: int): (r: int)
    requires n > 0
    ensures r == Mod(a, n)
  {
    CsRemNormalised(a, n);
    ModIsMod(a, n);
    CsRem(CsRem(a, n) + n, n)
  }

  /**
    * The repeating-key loops advance `keyIndex` and reset it to 0 when it
    * reaches the key length; it therefore stays equal to `Mod(i, n)`.
    */
  lemma {:induction false} KeyIndexStep(i: nat, n: int)
    requires n > 0
    ensures Mod(i + 1, n) == if Mod(i, n) + 1 == n then 0 else Mod(i, n) + 1
    decreases i
  {
    if i >= n {
      KeyIndexStep(i - n, n);
    } else if i + 1 == n {
      assert Mod(i + 1, n) == Mod(0, n);
    }
  }

  /** Adding a value and subtracting it again, each reduced modulo `n`, gives back a value in 0..n-1. */
  lemma ModAddSub(x: int, k: int, n: int)
    requires n > 0 && 0 <= x < n
    ensures Mod(Mod(x + k, n) - k, n) == x
  {
    var y := Mod(x + k, n);
    ModIsMod(x + k, n);
    ModIsMod(y - k, n);
    ModUndo(x, k, n);
  }

  lemma ModUndo(x: int, k: int, n: int)
    requires n > 0 && 0 <= x < n
    ensures ((x + k) % n - k) % n == x
  {
    var q := (x + k) / n;
    ModUnique((x + k) % n - k, -q, x, n);
  }

  /** An unchecked cast of an `int` to `byte` keeps the low eight bits. */
  function ToByte(x: int): Byte
  {
    x % 0x100
  }

  /** An unchecked cast of an `int` to `char` keeps the low sixteen bits. */
  function ToChar16(x: int): Char16
  {
    x % 0x1_0000
  }

  /** `(byte)(x % 256)` with C#'s truncating `%` is the Euclidean remainder of `x`. */
  lemma ByteOfCsRem(x: int)
    ensures ToByte(CsRem(x, 0x100)) == x % 0x100
  {
    var r := CsRem(x, 0x100);
    CsRemCongruent(x, 0x100);
    var q: int :| x == q * 0x100 + r;
    if r < 0 {
      assert x == (q - 1) * 0x100 + (r + 0x100);
      ModUnique(x, q - 1, r + 0x100, 0x100);
      ModUnique(r, -1, r + 0x100, 0x100);
    } else {
      ModUnique(x, q, r, 0x100);
    }
  }
}
