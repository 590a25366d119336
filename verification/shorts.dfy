/** The unsigned-short helpers of schempy/utils.py: the dimensions of a schematic are
    unsigned 16-bit values, stored in the file as (signed) NBT shorts. */
module Shorts {
  import opened Wrappers
  import opened Errors

  const ShortModulus: int := 0x1_0000

  /** `to_unsigned_short`: passes a value through unchanged when it fits in 16 unsigned
      bits and raises ValueError otherwise. */
  function ToUnsignedShort(v: int): (r: Result<nat, Error>)
    ensures r.Success? <==> 0 <= v < ShortModulus
    ensures r.Success? ==> r.value == v
    ensures r.Failure? ==> r.error == ShortOutOfRange && IsValueError(r.error)
  {
    if 0 <= v <= 65535 then Success(v) else Failure(ShortOutOfRange)
  }

  /** `from_unsigned_short`: `v & 0xFFFF`, the low 16 bits of Python's two's-complement
      integer, which is `v` modulo 65536 rounded towards minus infinity (Dafny's `%`
      with a positive divisor). */
  function FromUnsignedShort(v: int): (r: nat)
    ensures r < ShortModulus
    ensures (v - r) % ShortModulus == 0
    ensures 0 <= v < ShortModulus ==> r == v
  {
    v % ShortModulus
  }

  /** Reading a signed NBT short back as unsigned undoes the two's-complement storage of
      a dimension: negative shorts map to the upper half of the unsigned range, and the
      reading is a bijection from [-32768, 32767] onto [0, 65535]. */
  lemma SignedShortReading(s: int, t: int)
    requires -0x8000 <= s < 0x8000 && -0x8000 <= t < 0x8000
    ensures FromUnsignedShort(s) == (if s < 0 then s + ShortModulus else s)
    ensures FromUnsignedShort(s) == FromUnsignedShort(t) ==> s == t
    ensures ToUnsignedShort(FromUnsignedShort(s)) == Success(FromUnsignedShort(s))
  {
  }

  /** The two helpers agree on every value in range. */
  lemma ShortHelpersAgree(v: int)
    ensures ToUnsignedShort(v).Success? ==> FromUnsignedShort(v) == ToUnsignedShort(v).value
    ensures ToUnsignedShort(FromUnsignedShort(v)).Success?
  {
  }
}
