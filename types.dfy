/** Fixed-width integer types of the C++ sources, as bounded subsets of int, and an option type. */
module Types {

  /** uint8_t: an interrupt vector or a byte-wide register value. */
  type Byte = x: int | 0 <= x < 0x100

  /** uint16_t: a word-wide register value. */
  type Word = x: int | 0 <= x < 0x1_0000

  /** uint32_t: the width of CPU addresses and of the values returned by the acknowledge callback. */
  type U32 = x: int | 0 <= x < 0x1_0000_0000

  /** 2^64: the cycle counter is a uint64_t and wraps modulo this value. */
  const CycleModulus: nat := 0x1_0000_0000_0000_0000

  /** A uint64_t holding `x`: x wrapped modulo 2^64. */
  function Wrap64(x: nat): nat {
    x % CycleModulus
  }

  datatype Option<+T> = None | Some(value: T)

  /** Regrouping a concatenation, for proofs that extend a sequence one piece at a time. */
  lemma AppendAssoc<T>(a: seq<T>, b: seq<T>, c: seq<T>)
    ensures (a + b) + c == a + (b + c)
  {
  }
}
