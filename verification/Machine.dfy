// Machine words, status codes and the small result types shared by every module.
//
// C integers are modelled by their mathematical values. Unsigned 64-bit
// arithmetic wraps through `Wrap`, signed 64-bit arithmetic through `ToSigned`.
module Machine {

  type byte = x: int | 0 <= x < 0x100
  type u16 = x: int | 0 <= x < 0x1_0000
  type u32 = x: int | 0 <= x < 0x1_0000_0000
  type u64 = x: int | 0 <= x < 0x1_0000_0000_0000_0000
  type i64 = x: int | -0x8000_0000_0000_0000 <= x < 0x8000_0000_0000_0000

  const U64_MAX: u64 := 0xffff_ffff_ffff_ffff

  /** The 64-bit word congruent to `x` modulo 2^64. */
  function Wrap(x: int): u64 {
    x % 0x1_0000_0000_0000_0000
  }

  /** The two's complement reading of `x` modulo 2^64. */
  function ToSigned(x: int): i64 {
    (x + 0x8000_0000_0000_0000) % 0x1_0000_0000_0000_0000 - 0x8000_0000_0000_0000
  }

  /** The status codes of the library, plus `Unspecified` for the inputs on which
      the C code reads outside the bytes it was given, so nothing is claimed. */
  datatype Status =
    | Ok
    | InvalidArg
    | UnsupportedArch
    | NotImplemented
    | Io
    | BadFormat
    | NoDebugData
    | CacheFull
    | Unspecified

  type Failure = s: Status | s != Ok witness Io

  datatype Option<+T> = None | Some(value: T)

  /** A value or a failure code. */
  datatype Result<+T> = Pass(value: T) | Fail(status: Failure)
  {
    predicate IsFailure() {
      Fail?
    }

    function PropagateFailure<U>(): Result<U>
      requires Fail?
    {
      Fail(status)
    }

    function Extract(): T
      requires Pass?
    {
      value
    }
  }

  /** 2^k. */
  function Pow2(k: nat): (p: nat)
    ensures p > 0
  {
    if k == 0 then 1 else 2 * Pow2(k - 1)
  }

  lemma Pow2Seven(k: nat)
    ensures Pow2(k + 7) == 128 * Pow2(k)
  {
    assert Pow2(k + 7) == 2 * Pow2(k + 6) == 4 * Pow2(k + 5) == 8 * Pow2(k + 4);
    assert Pow2(k + 4) == 2 * Pow2(k + 3) == 4 * Pow2(k + 2) == 8 * Pow2(k + 1);
  }

  lemma Pow2Eight(k: nat)
    ensures Pow2(k + 8) == 256 * Pow2(k)
  {
    Pow2Seven(k);
    assert Pow2(k + 8) == 2 * Pow2(k + 7);
  }

  lemma WrapAdd(a: int, b: int)
    ensures Wrap(Wrap(a) + b) == Wrap(a + b)
  {
  }

  /** Slicing off two prefixes one after the other. */
  lemma DropDrop<T>(s: seq<T>, a: nat, b: nat)
    requires a + b <= |s|
    ensures s[a..][b..] == s[a + b..]
  {
  }
}
