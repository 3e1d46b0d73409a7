/**
 * Registers, operands and the ModR/M, SIB and REX bytes of src/x86.cpp,
 * together with a decoder that reads an address back the way the Intel 64
 * and IA-32 Architectures Software Developer's Manual, Volume 2, section
 * 2.1.5 (Tables 2-2 and 2-3) lays it out.
 */
module X86Encoding {
  import opened Arithmetic
  import opened X86Bytes

  /** Register numbers (src/x86.cpp:18-35). */
  const Rax := 0
  const Rcx := 1
  const Rdx := 2
  const Rbx := 3
  const Rsp := 4
  const Rbp := 5
  const Rsi := 6
  const Rdi := 7
  const R8 := 8
  const R9 := 9
  const R10 := 10

  /** The marker for "no register" in an operand's `high` or `index`. */
  const NoRegister := -1

  type Reg = r: int | 0 <= r < 16

  /** `BytesPerWord`: 4 on a 32-bit target, 8 on x86-64. */
  type WordSize = w: int | w == 4 || w == 8 witness 8

  /**
   * An `int64_t` handed to a parameter of type `intptr_t`, as `isInt8` and
   * `isInt32` receive it: unchanged on x86-64; on a 32-bit target cut to its
   * low 32 bits, read as two's complement.
   */
  function IntPtr(wordSize: WordSize, v: Int64): (r: int)
    ensures wordSize == 8 ==> r == v
    ensures wordSize == 4 ==> IsInt32(r) && r % 0x1_0000_0000 == v % 0x1_0000_0000
  {
    if wordSize == 4 then CongruentMod(v, Int32Cast(v), 0x1_0000_0000); Int32Cast(v) else v
  }

  /** On a 32-bit target, constants equal modulo 2^32 are the same `intptr_t`, and an int32 is its own. */
  lemma IntPtrWord(x: Int64, y: Int64)
    requires x % 0x1_0000_0000 == y % 0x1_0000_0000
    ensures IntPtr(4, x) == IntPtr(4, y)
    ensures IsInt32(x) ==> IntPtr(4, x) == x
  {
    ModWindow(IntPtr(4, x), IntPtr(4, y), 0x1_0000_0000, -0x8000_0000);
    if IsInt32(x) {
      ModWindow(IntPtr(4, x), x, 0x1_0000_0000, -0x8000_0000);
    }
  }

  /**
   * On a 32-bit target, `isInt8` accepts exactly the constants whose low
   * word, read modulo 2^32, is in -0x80..0x7F.
   */
  lemma IntPtrInt8(v: Int64)
    ensures IsInt8(IntPtr(4, v)) <==> v % 0x1_0000_0000 < 0x80 || 0x1_0000_0000 - 0x80 <= v % 0x1_0000_0000
  {
    var m := v % 0x1_0000_0000;
    if m < 0x8000_0000 {
      DivModUnique(m, 0x1_0000_0000, 0, m);
      ModWindow(IntPtr(4, v), m, 0x1_0000_0000, -0x8000_0000);
    } else {
      DivModUnique(m - 0x1_0000_0000, 0x1_0000_0000, -1, m);
      ModWindow(IntPtr(4, v), m - 0x1_0000_0000, 0x1_0000_0000, -0x8000_0000);
    }
  }

  /** `append` and `append4` store the same bytes for v as for v taken as an `intptr_t`. */
  lemma IntPtrBytes(wordSize: WordSize, v: Int64)
    ensures LittleEndian(IntPtr(wordSize, v), 4) == LittleEndian(v, 4)
    ensures LowByte(IntPtr(wordSize, v)) == LowByte(v)
  {
    assert Pow256(4) == 0x1_0000_0000;
    LittleEndianCongruent(IntPtr(wordSize, v), v, 4);
    assert LittleEndian(v, 4)[0] == LowByte(v);
    assert LittleEndian(IntPtr(wordSize, v), 4)[0] == LowByte(IntPtr(wordSize, v));
  }

  /** `Assembler::Register`: a register, or a pair of them for a value wider than a word. */
  datatype Register = Register(low: Reg, high: int)

  /** `Assembler::Memory`: base + offset + index * scale. */
  datatype Memory = Memory(base: Reg, offset: Int32, index: int, scale: int)

  predicate IsReg(r: int)
  {
    0 <= r < 16
  }

  /** The scales an x86 SIB byte can hold. */
  predicate IsScale(scale: int)
  {
    scale == 1 || scale == 2 || scale == 4 || scale == 8
  }

  /** What `encode` demands of an address: a scaled index register, or none. */
  predicate ValidIndex(base: Reg, index: int, scale: int)
  {
    index == NoRegister || (IsReg(index) && IsScale(scale) && base != Rsp)
  }

  /** The runtime's `log(scale)`, on the four scales x86 has. */
  function Log(scale: int): (k: nat)
    requires IsScale(scale)
    ensures k < 4 && Pow2(k) == scale
  {
    if scale == 1 then 0 else if scale == 2 then 1 else if scale == 4 then 2 else 3
  }

  function RegBits(r: Reg): bv8
  {
    r as bv8
  }

  /** A ModR/M or SIB byte put together as the source does: `top | (middle << 3) | bottom`. */
  function Fields(top: bv8, middle: Reg, bottom: Reg): bv8
  {
    top | (RegBits(middle) << 3) | RegBits(bottom)
  }

  /** The two top bits (mod, or a SIB's scale). */
  function Top(m: bv8): int
  {
    (m >> 6) as int
  }

  /** The three middle bits (reg or opcode extension, or a SIB's index). */
  function Middle(m: bv8): int
  {
    ((m >> 3) & 7) as int
  }

  /** The three low bits (r/m, or a SIB's base). */
  function Bottom(m: bv8): int
  {
    (m & 7) as int
  }

  /** With fields of the eight classic registers, the three fields read back. */
  lemma FieldsRoundTrip(top: bv8, middle: Reg, bottom: Reg)
    requires top & 0x3F == 0 && middle < 8 && bottom < 8
    ensures Top(Fields(top, middle, bottom)) == (top >> 6) as int
    ensures Middle(Fields(top, middle, bottom)) == middle
    ensures Bottom(Fields(top, middle, bottom)) == bottom
  {
    var m, b := RegBits(middle), RegBits(bottom);
    assert m < 8 && b < 8;
    assert Fields(top, middle, bottom) >> 6 == top >> 6;
    assert (Fields(top, middle, bottom) >> 3) & 7 == m;
    assert Fields(top, middle, bottom) & 7 == b;
  }

  /** `rex(c, mask, r)`: one prefix byte on x86-64 whose B bit is bit 3 of r, nothing on a 32-bit target. */
  function Rex(wordSize: WordSize, mask: bv8, r: Reg): (bs: seq<bv8>)
    ensures |bs| == (if wordSize == 8 then 1 else 0)
  {
    if wordSize == 8 then [mask | ((RegBits(r) & 8) >> 3)] else []
  }

  /** `rex(c)`: the REX.W prefix that selects a 64-bit operand. */
  function RexW(wordSize: WordSize): seq<bv8>
  {
    Rex(wordSize, 0x48, Rax)
  }

  /**
   * The prefix carries REX's fixed high nibble, REX.W exactly when the mask
   * has it, and REX.B exactly when r is one of r8 to r15.
   */
  lemma RexFields(mask: bv8, r: Reg)
    requires mask == 0x40 || mask == 0x48
    ensures var p := Rex(8, mask, r)[0];
      && p & 0xF0 == 0x40
      && (p & 8 == 8 <==> mask == 0x48)
      && (p & 1 == 1 <==> r >= 8)
      && p & 6 == 0
  {
    var bits := RegBits(r);
    assert bits & 8 == 8 <==> r >= 8;
  }

  /** The mod bits `encode` picks: none for no displacement, 0x40 for an int8 one, 0x80 for an int32 one. */
  function Width(base: Reg, displacement: Int32): bv8
  {
    if displacement == 0 && base != Rbp then 0 else if IsInt8(displacement) then 0x40 else 0x80
  }

  /** The displacement bytes that follow, in the same three cases. */
  function Displacement(base: Reg, displacement: Int32): seq<bv8>
  {
    if displacement == 0 && base != Rbp then []
    else if IsInt8(displacement) then [LowByte(displacement)]
    else LittleEndian(displacement, 4)
  }

  /** The ModR/M byte, the SIB byte if any and the displacement that `encode` appends after the opcode. */
  function Address(a: Reg, base: Reg, displacement: Int32, index: int, scale: int): seq<bv8>
    requires ValidIndex(base, index, scale)
  {
    var width := Width(base, displacement);
    (if index == NoRegister then
       [Fields(width, a, base)] + (if base == Rsp then [0x24] else [])
     else
       [Fields(width, a, Rsp), Fields((Log(scale) as bv8) << 6, index, base)])
    + Displacement(base, displacement)
  }

  /** `encode2`'s two opcode bytes: a `uint16_t`, high byte first. */
  function OpcodeBytes(instruction: int): seq<bv8>
  {
    [LowByte(instruction / 0x100), LowByte(instruction)]
  }

  /** Any `uint16_t` opcode is the two bytes read high byte first. */
  lemma OpcodeBytesValue(instruction: int)
    requires 0 <= instruction < 0x1_0000
    ensures var bs := OpcodeBytes(instruction);
      |bs| == 2 && 0x100 * (bs[0] as int) + bs[1] as int == instruction
  {
    var high, low := instruction / 0x100, instruction % 0x100;
    assert instruction == 0x100 * high + low;
    assert 0 <= high < 0x100;
    LowByteValue(high);
    LowByteValue(instruction);
    DivModUnique(high, 0x100, 0, high);
  }

  /** An address read back from its bytes: the reg field and the operand in memory. */
  datatype Decoded = Decoded(reg: int, base: int, index: int, scale: int, displacement: int, length: nat)

  datatype Option<T> = None | Some(value: T)

  /** The displacement bytes that mod 0, 1 and 2 announce. */
  function DisplacementSize(mode: int): nat
  {
    if mode == 1 then 1 else if mode == 2 then 4 else 0
  }

  /**
   * Reads the address at the start of `bs`. Register operands (mod 3), a
   * disp32 with no base (mod 0 with r/m or SIB base 5, the forms `encode`
   * never emits) and a cut-off input give None. A SIB index field of 4
   * means no index.
   */
  function DecodeAddress(bs: seq<bv8>): Option<Decoded>
  {
    if |bs| == 0 then None
    else
      var m := bs[0];
      var mode := Top(m);
      var sib := Bottom(m) == 4;
      var start := if sib then 2 else 1;
      var size := DisplacementSize(mode);
      if mode == 3 || |bs| < start + size then None
      else if !sib && mode == 0 && Bottom(m) == 5 then None
      else if sib && mode == 0 && Bottom(bs[1]) == 5 then None
      else
        var displacement := if size == 0 then 0 else Signed(bs[start..start + size]);
        if !sib then
          Some(Decoded(Middle(m), Bottom(m), NoRegister, 1, displacement, start + size))
        else
          var s := bs[1];
          var index := if Middle(s) == 4 then NoRegister else Middle(s);
          var scale := if index == NoRegister then 1 else Pow2(Top(s));
          Some(Decoded(Middle(m), Bottom(s), index, scale, displacement, start + size))
  }

  /** The mod bits and the number of displacement bytes agree, and the mod is never the register form. */
  lemma {:induction false} ModeMatchesDisplacement(a: Reg, base: Reg, displacement: Int32, index: int, scale: int)
    requires a < 8 && base < 8 && ValidIndex(base, index, scale)
    ensures var mode := Top(Address(a, base, displacement, index, scale)[0]);
      && mode != 3
      && |Displacement(base, displacement)| == DisplacementSize(mode)
      && (mode == 0 <==> displacement == 0 && base != Rbp)
      && (mode == 1 <==> (displacement != 0 || base == Rbp) && IsInt8(displacement))
  {
    var width := Width(base, displacement);
    var rm := if index == NoRegister then base else Rsp;
    FieldsRoundTrip(width, a, rm);
    assert Address(a, base, displacement, index, scale)[0] == Fields(width, a, rm);
  }

  /** One-byte and four-byte displacements read back as the value written. */
  lemma DisplacementRoundTrip(base: Reg, displacement: Int32)
    requires displacement != 0 || base == Rbp
    ensures var bs := Displacement(base, displacement);
      Signed(bs) == displacement
  {
    if IsInt8(displacement) {
      assert [LowByte(displacement)] == LittleEndian(displacement, 1);
      LittleEndianRoundTrip(displacement, 1);
    } else {
      Int32RoundTrip(displacement);
    }
  }

  /**
   * Whatever follows, the address `encode` writes for the classic registers
   * reads back as the same reg field, base, index, scale and displacement
   * (the scale is 1 when there is no index), and the SIB byte is there
   * exactly when there is an index or the base is rsp.
   */
  lemma {:induction false} AddressRoundTrip(a: Reg, base: Reg, displacement: Int32, index: int, scale: int, rest: seq<bv8>)
    requires a < 8 && base < 8 && ValidIndex(base, index, scale) && index < 8 && index != Rsp
    ensures var bs := Address(a, base, displacement, index, scale);
      var hasSib := index != NoRegister || base == Rsp;
      && |bs| == 1 + (if hasSib then 1 else 0) + |Displacement(base, displacement)|
      && DecodeAddress(bs + rest)
         == Some(Decoded(a, base, index, if index == NoRegister then 1 else scale, displacement, |bs|))
  {
    var bs := Address(a, base, displacement, index, scale);
    var width := Width(base, displacement);
    var disp := Displacement(base, displacement);
    var all := bs + rest;
    ModeMatchesDisplacement(a, base, displacement, index, scale);
    if index == NoRegister {
      FieldsRoundTrip(width, a, base);
      if base == Rsp {
        var s: bv8 := 0x24;
        assert Middle(s) == 4 && Bottom(s) == 4;
        assert all[2..2 + |disp|] == disp;
      } else {
        assert all[1..1 + |disp|] == disp;
      }
    } else {
      FieldsRoundTrip(width, a, Rsp);
      var top := (Log(scale) as bv8) << 6;
      assert top & 0x3F == 0 && (top >> 6) as int == Log(scale);
      FieldsRoundTrip(top, index, base);
      assert all[2..2 + |disp|] == disp;
    }
    if |disp| > 0 {
      DisplacementRoundTrip(base, displacement);
    }
  }
}
