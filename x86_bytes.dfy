/**
 * The integer widths of the x86 code generator (src/x86.cpp): the signed
 * range tests, truncation to a byte, and the little-endian layout of the
 * immediates and displacements it appends to the code buffer.
 */
module X86Bytes {
  import opened Arithmetic

  /** A value held in an `int32_t`. */
  type Int32 = v: int | -0x8000_0000 <= v < 0x8000_0000

  /** A value held in an `int64_t` (and, on a 64-bit target, an `intptr_t`). */
  type Int64 = v: int | -0x8000_0000_0000_0000 <= v < 0x8000_0000_0000_0000

  /** `static_cast<int8_t>(v)`: the low 8 bits of v read as two's complement. */
  function Int8Cast(v: int): (r: int)
    ensures -0x80 <= r < 0x80
    ensures (v - r) % 0x100 == 0
  {
    (v + 0x80) % 0x100 - 0x80
  }

  /** `static_cast<int32_t>(v)`: the low 32 bits of v read as two's complement. */
  function Int32Cast(v: int): (r: int)
    ensures -0x8000_0000 <= r < 0x8000_0000
    ensures (v - r) % 0x1_0000_0000 == 0
  {
    (v + 0x8000_0000) % 0x1_0000_0000 - 0x8000_0000
  }

  /** `isInt8`: v survives the round trip through an `int8_t`. */
  function IsInt8(v: int): (r: bool)
    ensures r <==> -0x80 <= v < 0x80
  {
    v == Int8Cast(v)
  }

  /** `isInt32`: v survives the round trip through an `int32_t`. */
  function IsInt32(v: int): (r: bool)
    ensures r <==> -0x8000_0000 <= v < 0x8000_0000
  {
    v == Int32Cast(v)
  }

  function Pow2(k: nat): (p: nat)
    ensures p > 0
  {
    if k == 0 then 1 else 2 * Pow2(k - 1)
  }

  /** The low k bits of v in two's complement, built one bit at a time from the bottom. */
  function Bits(v: int, k: nat): bv8
    requires k <= 8
    decreases k
  {
    if k == 0 then 0 else (Bits(v / 2, k - 1) << 1) | (if v % 2 == 1 then 1 else 0)
  }

  /** `uint8_t(v)`: the low 8 bits of v, the byte `Vector::append` stores. */
  function LowByte(v: int): bv8
  {
    Bits(v, 8)
  }

  /** Shifting a byte left by one and setting bit 0 doubles it and adds the bit. */
  lemma ShiftIn(b: bv8, c: bv8)
    requires b < 0x80 && c < 2
    ensures ((b << 1) | c) as int == 2 * (b as int) + c as int
  {
  }

  lemma {:induction false} PowBound(k: nat)
    requires k <= 7
    ensures Pow2(k) <= 0x80
    decreases 7 - k
  {
    if k < 7 {
      PowBound(k + 1);
    }
  }

  /** One more bit: twice the value of the higher bits, plus v's lowest bit. */
  lemma BitStep(v: int, k: nat)
    requires 0 < k <= 8 && Bits(v / 2, k - 1) < 0x80
    ensures Bits(v, k) as int == 2 * (Bits(v / 2, k - 1) as int) + v % 2
  {
    var b := Bits(v / 2, k - 1);
    var c: bv8 := if v % 2 == 1 then 1 else 0;
    assert Bits(v, k) == (b << 1) | c;
    ShiftIn(b, c);
    if v % 2 == 1 {
      assert c as int == 1;
    } else {
      assert c as int == 0;
    }
  }

  /** The low k bits, as a number, are v modulo 2^k. */
  lemma {:induction false} BitsValue(v: int, k: nat)
    requires k <= 8
    ensures Bits(v, k) as int == v % Pow2(k)
    decreases k
  {
    if k > 0 {
      BitsValue(v / 2, k - 1);
      PowBound(k - 1);
      BitStep(v, k);
      ModSplit(v, 2, Pow2(k - 1));
    }
  }

  /** The low byte, as a number, is v modulo 256. */
  lemma LowByteValue(v: int)
    ensures LowByte(v) as int == v % 0x100
  {
    BitsValue(v, 8);
    assert Pow2(8) == 0x100;
  }

  function Pow256(n: nat): (p: nat)
    ensures p > 0
  {
    if n == 0 then 1 else 0x100 * Pow256(n - 1)
  }

  /**
   * The low n bytes of v, least significant first: `append4` writes n = 4,
   * `appendAddress` writes a word, as an x86 stores them.
   */
  function LittleEndian(v: int, n: nat): (bs: seq<bv8>)
    ensures |bs| == n
    decreases n
  {
    if n == 0 then [] else [LowByte(v)] + LittleEndian(v / 0x100, n - 1)
  }

  /** The number that little-endian bytes stand for. */
  function Unsigned(bs: seq<bv8>): (u: nat)
    ensures u < Pow256(|bs|)
  {
    if bs == [] then 0 else bs[0] as int + 0x100 * Unsigned(bs[1..])
  }

  /** The same bytes read as a two's complement number, as a processor reads a rel32 or an imm32. */
  function Signed(bs: seq<bv8>): int
  {
    var u := Unsigned(bs);
    if 2 * u >= Pow256(|bs|) then u - Pow256(|bs|) else u
  }

  /** Reading back n little-endian bytes of v gives v modulo 256^n. */
  lemma {:induction false} LittleEndianUnsigned(v: int, n: nat)
    ensures Unsigned(LittleEndian(v, n)) == v % Pow256(n)
    decreases n
  {
    if n > 0 {
      var bs := LittleEndian(v, n);
      assert bs[1..] == LittleEndian(v / 0x100, n - 1);
      LittleEndianUnsigned(v / 0x100, n - 1);
      LowByteValue(v);
      ModSplit(v, 0x100, Pow256(n - 1));
    }
  }

  /** The low n bytes depend only on v modulo 256^n. */
  lemma {:induction false} LittleEndianCongruent(v: int, w: int, n: nat)
    requires v % Pow256(n) == w % Pow256(n)
    ensures LittleEndian(v, n) == LittleEndian(w, n)
    decreases n
  {
    if n > 0 {
      var p := Pow256(n - 1);
      assert Pow256(n) == 0x100 * p;
      ModSplit(v, 0x100, p);
      ModSplit(w, 0x100, p);
      var x := v % Pow256(n);
      DivModUnique(x, 0x100, (v / 0x100) % p, v % 0x100);
      DivModUnique(x, 0x100, (w / 0x100) % p, w % 0x100);
      LowByteValue(v);
      LowByteValue(w);
      LittleEndianCongruent(v / 0x100, w / 0x100, n - 1);
    }
  }

  /** Every value in range of n signed bytes reads back unchanged. */
  lemma {:induction false} LittleEndianRoundTrip(v: int, n: nat)
    requires n > 0 && -(Pow256(n) as int) <= 2 * v < Pow256(n)
    ensures Signed(LittleEndian(v, n)) == v
  {
    LittleEndianUnsigned(v, n);
    if v >= 0 {
      DivModUnique(v, Pow256(n), 0, v);
    } else {
      DivModUnique(v, Pow256(n), -1, v + Pow256(n));
    }
  }

  /** A rel32 or imm32: four bytes that read back as any int32 written into them. */
  lemma Int32RoundTrip(v: Int32)
    ensures Signed(LittleEndian(v, 4)) == v
  {
    LittleEndianRoundTrip(v, 4);
  }
}
