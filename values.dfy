/** The data that flows through the interpreter: bytes of the instruction
    stream, the fixed-width integers of the runtime, and the tagged values that
    live on the operand stack, in local slots and in array elements. */
module Values {

  /** One byte of the instruction stream (C# `byte`). */
  type Byte = x: int | 0 <= x < 256

  const MinInt32: int := -0x8000_0000
  const MaxInt32: int := 0x7FFF_FFFF
  const MinInt64: int := -0x8000_0000_0000_0000
  const MaxInt64: int := 0x7FFF_FFFF_FFFF_FFFF

  /** C# `int`. */
  type Int32 = x: int | MinInt32 <= x <= MaxInt32

  /** C# `long`. */
  type Int64 = x: int | MinInt64 <= x <= MaxInt64

  datatype Option<+T> = None | Some(value: T)

  /** What a stack slot, a local slot or an array element can hold.
      The interpreter stores everything as `object?`; the run-time types that
      can actually occur there are exactly these:
      - `Null`: the null reference (also the initial content of every local
        slot and of every element of a new array);
      - `I32`: a boxed `int`;
      - `I64`: a boxed `long` (what the `conv.*` instructions push);
      - `F64`: a boxed `double`, kept as the eight little-endian bytes it was
        decoded from (floating point is not interpreted);
      - `Arr`: a reference to an `object[]`, given as a handle into the heap
        arena, so that two equal handles are the same array;
      - `Str`: a string obtained from the user-string heap. */
  datatype Value =
    | Null
    | I32(i: Int32)
    | I64(l: Int64)
    | F64(bits: seq<Byte>)
    | Arr(ref: nat)
    | Str(chars: string)
}
