/** Compile-time packing of an error code into a 32-bit word (constexpr.hpp).
    The word holds the department in bits 24-31, the module in bits 16-23 and
    the code itself in bits 0-15. The C++ `int` argument and result are
    modelled by their 32-bit two's-complement bit patterns. */
module ErrorCodes {

  const DEPARTMENT: bv32 := 1
  const MODULE: bv32 := 21

  /** Bit positions of the department and module fields. */
  const DEPARTMENT_SHIFT: bv32 := 24
  const MODULE_SHIFT: bv32 := 16

  /** The two error numbers #defined beside `fun`. */
  const ERRO_NETWORK: bv32 := 101
  const ERRO_DISK: bv32 := 102

  /** `Getcode`: department and module in the two high bytes, the low 16 bits of `code` below. */
  function Getcode(code: bv32): bv32
  {
    ((DEPARTMENT << DEPARTMENT_SHIFT) & 0xFF00_0000)
    | ((MODULE << MODULE_SHIFT) & 0x00FF_0000)
    | (code & 0x0000_FFFF)
  }

  /** `fun`: the packed code of a network error. */
  function Fun(): (r: bv32)
    ensures r == 0x0115_0065
  {
    Getcode(ERRO_NETWORK)
  }

  /** Each field of the packed word reads back as what was packed into it. */
  lemma GetcodeFields(code: bv32)
    ensures Getcode(code) >> DEPARTMENT_SHIFT == DEPARTMENT
    ensures (Getcode(code) >> MODULE_SHIFT) & 0xFF == MODULE
    ensures Getcode(code) & 0xFFFF == code & 0xFFFF
  {
  }

  /** As a number, the packed word of a 16-bit code is 0x0115_0000 plus the code. */
  lemma GetcodeValue(code: bv32)
    requires code <= 0xFFFF
    ensures Getcode(code) as int == 0x0115_0000 + code as int
  {
    assert Getcode(code) == 0x0115_0000 | code;
    OrBelowIsPlus(code);
  }

  lemma OrBelowIsPlus(x: bv32)
    requires x <= 0xFFFF
    ensures (0x0115_0000 | x) as int == 0x0115_0000 + x as int
  {
    assert 0x0115_0000 | x == 0x0115_0000 + x;
  }

  /** Packing an already packed code changes nothing. */
  lemma GetcodeIdempotent(code: bv32)
    ensures Getcode(Getcode(code)) == Getcode(code)
  {
  }

  /** Equal packed words come from codes with equal low 16 bits ... */
  lemma GetcodeKeepsLowBits(a: bv32, b: bv32)
    requires Getcode(a) == Getcode(b)
    ensures a & 0xFFFF == b & 0xFFFF
  {
  }

  /** ... and codes with equal low 16 bits collide, whatever their high bits. */
  lemma GetcodeDropsHighBits(a: bv32, b: bv32)
    requires a & 0xFFFF == b & 0xFFFF
    ensures Getcode(a) == Getcode(b)
  {
  }

  /** Codes that fit in 16 bits are packed without loss. */
  lemma GetcodeInjective(a: bv32, b: bv32)
    requires a <= 0xFFFF && b <= 0xFFFF
    requires Getcode(a) == Getcode(b)
    ensures a == b
  {
  }

  /** The two #defined errors stay distinct, while a code 2^16 above ERRO_NETWORK is lost in it. */
  lemma DefinedCodes()
    ensures Getcode(ERRO_NETWORK) != Getcode(ERRO_DISK)
    ensures Getcode(ERRO_NETWORK + 0x1_0000) == Getcode(ERRO_NETWORK)
  {
  }
}
