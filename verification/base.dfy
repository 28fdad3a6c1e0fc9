/** Shared vocabulary of the MIF model: failure-compatible wrappers,
    the error kinds of the word store, fixed-width integer types and
    powers. */
module Base {

  /** Optional value; usable with `:-`. */
  datatype Option<+T> = None | Some(value: T) {
    predicate IsFailure() { None? }

    function PropagateFailure<U>(): Option<U>
      requires None?
    {
      None
    }

    function Extract(): T
      requires Some?
    {
      value
    }
  }

  /** A value or an error; usable with `:-`. */
  datatype Result<+T, +E> = Ok(value: T) | Err(error: E) {
    predicate IsFailure() { Err? }

    function PropagateFailure<U>(): Result<U, E>
      requires Err?
    {
      Err(error)
    }

    function Extract(): T
      requires Ok?
    {
      value
    }
  }

  /** Kinds of I/O failure the byte reader can report. Only the
      shortfall of an exact read is reachable from an in-memory
      byte sequence. */
  datatype IoKind = UnexpectedEof

  /** Errors of the word store (the `Error` enum of the library). */
  datatype Error =
    | NeitherLsbNorMsbFirst
    | WidthOutOfRange(width: nat, maxWidth: nat)
    | ValueOutOfWidth(depth: nat, width: nat)
    | MissingWords(missing: nat)
    | IoError(kind: IoKind)

  /** Whether a mutating operation completed or stopped with an error. */
  datatype Status = Done | Failed(error: Error)

  /** Labels of memory areas and names of output files (paths, kept opaque). */
  type Path = string

  const TWO64: nat := 0x1_0000_0000_0000_0000
  const TWO128: nat := 0x1_0000_0000_0000_0000_0000_0000_0000_0000

  type Byte = x: nat | x < 256
  type U64 = x: nat | x < TWO64
  type U128 = x: nat | x < TWO128

  function Pow(b: nat, e: nat): nat
  {
    if e == 0 then 1 else b * Pow(b, e - 1)
  }

  lemma {:induction false} PowAdd(b: nat, x: nat, y: nat)
    ensures Pow(b, x + y) == Pow(b, x) * Pow(b, y)
  {
    if x > 0 {
      PowAdd(b, x - 1, y);
      assert Pow(b, x + y) == b * Pow(b, x - 1 + y);
      assert b * (Pow(b, x - 1) * Pow(b, y)) == (b * Pow(b, x - 1)) * Pow(b, y);
    }
  }

  lemma {:induction false} PowPositive(b: nat, e: nat)
    requires b > 0
    ensures Pow(b, e) > 0
  {
    if e > 0 {
      PowPositive(b, e - 1);
    }
  }

  /** Powers of a base above one grow strictly with the exponent. */
  lemma {:induction false} PowStrictlyMonotonic(b: nat, x: nat, y: nat)
    requires b > 1 && x < y
    ensures Pow(b, x) < Pow(b, y)
  {
    PowPositive(b, y - 1);
    if y - 1 > x {
      PowStrictlyMonotonic(b, x, y - 1);
    }
    var p := Pow(b, y - 1);
    assert Pow(b, y) == b * p;
    assert b * p == (b - 2) * p + 2 * p;
  }

  lemma PowMonotonic(b: nat, x: nat, y: nat)
    requires b > 1 && x <= y
    ensures Pow(b, x) <= Pow(b, y)
  {
    if x < y {
      PowStrictlyMonotonic(b, x, y);
    }
  }

  /** 256^k == 2^(8k): a byte is eight bits. */
  lemma {:induction false} PowBytes(k: nat)
    ensures Pow(256, k) == Pow(2, 8 * k)
  {
    if k > 0 {
      PowBytes(k - 1);
      PowAdd(2, 8, 8 * (k - 1));
      assert Pow(2, 8) == 256;
    }
  }

  /** 16^k == 2^(4k): a hex digit is four bits. */
  lemma {:induction false} PowNibbles(k: nat)
    ensures Pow(16, k) == Pow(2, 4 * k)
  {
    if k > 0 {
      PowNibbles(k - 1);
      PowAdd(2, 4, 4 * (k - 1));
      assert Pow(2, 4) == 16;
    }
  }

  lemma Pow2Constants()
    ensures Pow(2, 64) == TWO64
    ensures Pow(2, 128) == TWO128
  {
    assert Pow(2, 8) == 256;
    PowAdd(2, 8, 8);
    assert Pow(2, 16) == 0x1_0000;
    PowAdd(2, 16, 16);
    assert Pow(2, 32) == 0x1_0000_0000;
    PowAdd(2, 32, 32);
    assert Pow(2, 64) == TWO64;
    PowAdd(2, 64, 64);
  }

  /** `n` copies of `x`. */
  function Repeat<T>(x: T, n: nat): (r: seq<T>)
    ensures |r| == n
    ensures forall i :: 0 <= i < n ==> r[i] == x
  {
    if n == 0 then [] else Repeat(x, n - 1) + [x]
  }

  lemma RepeatAdd<T>(x: T, a: nat, b: nat)
    ensures Repeat(x, a + b) == Repeat(x, a) + Repeat(x, b)
  {
  }
}
