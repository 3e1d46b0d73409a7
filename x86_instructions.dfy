/**
 * The bytes each emitter of src/x86.cpp appends to the code buffer, as
 * functions of the word size and the operands, and what those bytes mean
 * read back by the Intel manual's encodings (Volume 2, chapters 3 and 4:
 * PUSH 50+rd, POP 58+rd, MOV 89 /r and B8+rd, MOVSX 0F BE/BF /r, MOVSXD
 * 63 /r, CDQ 99, SUB 29 /r, 83 /5 ib and 81 /5 id, SBB 19 /r and 83 /3 ib,
 * JMP/CALL rel32 and Jcc 0F 8x rel32).
 */
module X86Instructions {
  import opened Arithmetic
  import opened X86Bytes
  import opened X86Encoding

  /** A register operand for a value the source keeps in one register. */
  function Single(r: Reg): Register
  {
    Register(r, NoRegister)
  }

  /** A register-direct ModR/M byte (mod 3). */
  function Direct(middle: Reg, bottom: Reg): bv8
  {
    Fields(0xc0, middle, bottom)
  }

  /** `pushR`: on a 32-bit target a two-word value pushes its high register, then its low one. */
  function PushCode(wordSize: WordSize, size: nat, a: Register): seq<bv8>
    requires wordSize == 4 && size == 8 ==> IsReg(a.high)
    decreases size
  {
    if wordSize == 4 && size == 8 then
      PushCode(wordSize, 4, Single(a.high)) + PushCode(wordSize, 4, a)
    else
      [0x50 | RegBits(a.low)]
  }

  /** What a move between registers demands of its operands (the source's asserts). */
  predicate MoveOperands(wordSize: WordSize, aSize: nat, a: Register, bSize: nat, b: Register)
  {
    && (wordSize == 4 && aSize == 8 && bSize == 8 ==> IsReg(a.high) && IsReg(b.high))
    && (wordSize == 4 && aSize == 1 && a.low > Rbx ==> b.low <= Rbx)
    && (wordSize == 4 && aSize == 4 && bSize == 8 ==> b.low == Rax && b.high == Rdx)
  }

  /** How deep `moveRR` recurses from these operands. */
  function MoveDepth(wordSize: WordSize, aSize: nat, a: Register, bSize: nat, b: Register): nat
  {
    if wordSize == 4 && aSize == 8 && bSize == 8 then 2
    else if wordSize == 4 && aSize == 1 && a.low > Rbx then 1
    else if wordSize == 4 && aSize == 4 && bSize == 8 && !(a.low == Rax && b.low == Rax && b.high == Rdx) then 1
    else 0
  }

  /** `moveRR`: copy, sign-extend or split a register move by operand sizes. */
  function MoveCode(wordSize: WordSize, aSize: nat, a: Register, bSize: nat, b: Register): seq<bv8>
    requires MoveOperands(wordSize, aSize, a, bSize, b)
    decreases MoveDepth(wordSize, aSize, a, bSize, b)
  {
    if wordSize == 4 && aSize == 8 && bSize == 8 then
      MoveCode(wordSize, 4, a, 4, b) + MoveCode(wordSize, 4, Single(a.high), 4, Single(b.high))
    else if aSize == 1 then
      if wordSize == 4 && a.low > Rbx then
        MoveCode(wordSize, wordSize, a, wordSize, b) + MoveCode(wordSize, 1, b, wordSize, b)
      else
        RexW(wordSize) + [0x0f, 0xbe, Direct(b.low, a.low)]
    else if aSize == 2 then
      RexW(wordSize) + [0x0f, 0xbf, Direct(b.low, a.low)]
    else if aSize == 4 || aSize == 8 then
      if aSize == 4 && bSize == 8 then
        if wordSize == 8 then
          RexW(wordSize) + [0x63, Direct(b.low, a.low)]
        else if a.low == Rax && b.low == Rax && b.high == Rdx then
          [0x99]
        else
          MoveCode(wordSize, 4, a, 4, b) + MoveCode(wordSize, 4, b, 8, b)
      else if a.low != b.low then
        RexW(wordSize) + [0x89, Direct(a.low, b.low)]
      else
        []
    else
      []
  }

  /** `popR`: the reverse of `pushR`; on x86-64 a one-word pop of a 4-byte value sign-extends it in place. */
  function PopCode(wordSize: WordSize, size: nat, a: Register): seq<bv8>
    requires wordSize == 4 && size == 8 ==> IsReg(a.high)
    decreases size
  {
    if wordSize == 4 && size == 8 then
      PopCode(wordSize, 4, a) + PopCode(wordSize, 4, Single(a.high))
    else
      [0x58 | RegBits(a.low)]
      + (if wordSize == 8 && size == 4 then MoveCode(wordSize, 4, a, 8, a) else [])
  }

  /** What a subtraction with borrow demands: equal sizes, and one word at a time on a 32-bit target. */
  predicate BorrowOperands(wordSize: WordSize, aSize: nat, bSize: nat)
  {
    aSize == bSize && (wordSize == 8 || aSize == 4)
  }

  /** `subtractBorrowRR`: SBB b, a. */
  function SubtractBorrowCode(wordSize: WordSize, aSize: nat, a: Register, bSize: nat, b: Register): seq<bv8>
    requires BorrowOperands(wordSize, aSize, bSize)
  {
    (if aSize == 8 then RexW(wordSize) else []) + [0x19, Direct(a.low, b.low)]
  }

  /** `subtractRR`: SUB b, a; on a 32-bit target a two-word value subtracts low halves, then the high halves with the borrow. */
  function SubtractCode(wordSize: WordSize, aSize: nat, a: Register, bSize: nat, b: Register): seq<bv8>
    requires aSize == bSize
    requires wordSize == 4 && aSize == 8 ==> IsReg(a.high) && IsReg(b.high)
  {
    if wordSize == 4 && aSize == 8 then
      SubtractCode(wordSize, 4, a, 4, b) + SubtractBorrowCode(wordSize, 4, Single(a.high), 4, Single(b.high))
    else
      (if aSize == 8 then RexW(wordSize) else []) + [0x29, Direct(a.low, b.low)]
  }

  /** The two 32-bit halves of a 64-bit constant as the source takes them: `(v >> 32) & 0xFFFFFFFF` and `v & 0xFFFFFFFF`. */
  function High(v: Int64): int
  {
    (v / 0x1_0000_0000) % 0x1_0000_0000
  }

  function Low(v: Int64): int
  {
    v % 0x1_0000_0000
  }

  /** The high half, handed to `isInt8` as a 32-bit `intptr_t`, is `v >> 32` sign-extended. */
  lemma HighWord(v: Int64)
    ensures 0 <= High(v) < 0x1_0000_0000
    ensures IntPtr(4, High(v)) == v / 0x1_0000_0000
  {
    var h := v / 0x1_0000_0000;
    DivModUnique(High(v), 0x1_0000_0000, 0, High(v));
    IntPtrWord(h, High(v));
  }

  /** The low half, handed on as a 32-bit `intptr_t`, is `static_cast<int32_t>(v)`. */
  lemma LowWord(v: Int64)
    ensures 0 <= Low(v) < 0x1_0000_0000
    ensures IntPtr(4, Low(v)) == Int32Cast(v)
  {
    DivModUnique(Low(v), 0x1_0000_0000, 0, Low(v));
    IntPtrWord(Low(v), v);
  }

  /** `moveCR` of a resolved constant: MOV r, imm (B8+r) with a word-sized immediate, or two such moves on a 32-bit target. */
  function MoveConstantCode(wordSize: WordSize, aSize: nat, v: Int64, b: Register): seq<bv8>
    requires wordSize == 4 && aSize == 8 ==> IsReg(b.high)
    decreases aSize
  {
    if wordSize == 4 && aSize == 8 then
      MoveConstantCode(wordSize, 4, Low(v), b) + MoveConstantCode(wordSize, 4, High(v), Single(b.high))
    else
      Rex(wordSize, 0x48, b.low) + [0xb8 | RegBits(b.low)] + LittleEndian(v, wordSize)
  }

  /**
   * `subtractBorrowCR`: SBB r, imm8 when the constant, as an `intptr_t`,
   * fits in int8; any other aborts (None). On x86-64 that is the constant
   * itself; on a 32-bit target only its low word counts.
   */
  function SubtractBorrowConstantCode(wordSize: WordSize, v: Int64, b: Register): (r: Option<seq<bv8>>)
    ensures wordSize == 8 ==> (r.Some? <==> -0x80 <= v < 0x80)
    ensures wordSize == 4 ==> (r.Some? <==> v % 0x1_0000_0000 < 0x80 || 0x1_0000_0000 - 0x80 <= v % 0x1_0000_0000)
  {
    IntPtrInt8(v);
    if IsInt8(IntPtr(wordSize, v)) then Some([0x83, 0xd8 | RegBits(b.low), LowByte(v)]) else None
  }

  /** SUB r, imm8 (83 /5 ib) for an int8 constant, SUB r, imm32 (81 /5 id) for any other int32 one. */
  function SubtractImmediateCode(v: int, r: Reg): seq<bv8>
    requires IsInt32(v)
  {
    if IsInt8(v) then [0x83, 0xe8 | RegBits(r), LowByte(v)]
    else [0x81, 0xe8 | RegBits(r)] + LittleEndian(v, 4)
  }

  /**
   * Subtracting a constant from one register: the imm8 or imm32 form when
   * the constant, as an `intptr_t`, fits (always, on a 32-bit target), or
   * through a temporary register.
   */
  function SubtractWordConstantCode(wordSize: WordSize, aSize: nat, v: Int64, b: Register, temporary: Reg): seq<bv8>
    requires !(wordSize == 4 && aSize == 8)
  {
    var t := IntPtr(wordSize, v);
    (if aSize == 8 then RexW(wordSize) else [])
    + (if IsInt32(t) then SubtractImmediateCode(t, b.low)
       else MoveConstantCode(wordSize, aSize, v, Single(temporary))
            + SubtractCode(wordSize, aSize, Single(temporary), aSize, b))
  }

  /**
   * `subtractCR` as written: nothing for zero; on a 32-bit target a two-word
   * constant subtracts its low half and then the high half with the borrow,
   * each handed on as an unsigned 32-bit value; None where `subtractBorrowCR`
   * aborts, which is exactly when `v >> 32` lies outside int8.
   */
  function SubtractConstantCode(wordSize: WordSize, aSize: nat, v: Int64, b: Register, temporary: Reg): (r: Option<seq<bv8>>)
    requires wordSize == 4 && aSize == 8 ==> IsReg(b.high)
    ensures r.None? <==> v != 0 && wordSize == 4 && aSize == 8 && !IsInt8(v / 0x1_0000_0000)
    decreases aSize
  {
    if v == 0 then Some([])
    else if wordSize == 4 && aSize == 8 then
      HighWord(v);
      match SubtractConstantCode(wordSize, 4, Low(v), b, temporary)
      case None => None
      case Some(low) =>
        match SubtractBorrowConstantCode(wordSize, High(v), Single(b.high))
        case None => None
        case Some(high) => Some(low + high)
    else
      Some(SubtractWordConstantCode(wordSize, aSize, v, b, temporary))
  }

  /** `unconditional`: a one-byte opcode (JMP E9, CALL E8) and a rel32 placeholder patched later. */
  function UnconditionalCode(jump: bv8): seq<bv8>
  {
    [jump] + LittleEndian(0, 4)
  }

  /** `conditional`: Jcc 0F cc and a rel32 placeholder patched later. */
  function ConditionalCode(condition: bv8): seq<bv8>
  {
    [0x0f, condition] + LittleEndian(0, 4)
  }

  /** The jump instructions end in their rel32 field: the last four of five or six bytes. */
  lemma JumpLayout(jump: bv8, condition: bv8)
    ensures |UnconditionalCode(jump)| == 5 && UnconditionalCode(jump)[0] == jump
    ensures |ConditionalCode(condition)| == 6 && ConditionalCode(condition)[..2] == [0x0f, condition]
    ensures Signed(UnconditionalCode(jump)[1..]) == 0 && Signed(ConditionalCode(condition)[2..]) == 0
  {
    assert UnconditionalCode(jump)[1..] == LittleEndian(0, 4);
    assert ConditionalCode(condition)[2..] == LittleEndian(0, 4);
    Int32RoundTrip(0);
  }

  // Reading instructions back.

  /** The registers named by a run of one-byte PUSH (base 0x50) or POP (base 0x58) instructions, or None for any other byte. */
  function StackRegisters(bs: seq<bv8>, base: bv8): Option<seq<int>>
  {
    if bs == [] then Some([])
    else if bs[0] & 0xf8 != base then None
    else match StackRegisters(bs[1..], base)
      case None => None
      case Some(rest) => Some([Bottom(bs[0])] + rest)
  }

  /** One PUSH or POP byte of a classic register reads back as that register. */
  lemma StackByte(base: bv8, r: Reg)
    requires r < 8 && (base == 0x50 || base == 0x58)
    ensures (base | RegBits(r)) & 0xf8 == base && Bottom(base | RegBits(r)) == r
    ensures StackRegisters([base | RegBits(r)], base) == Some([r])
  {
    var bs := [base | RegBits(r)];
    assert RegBits(r) < 8;
    assert bs[0] & 0xf8 == base;
    assert Bottom(bs[0]) == r;
    assert bs[1..] == [];
    assert StackRegisters(bs[1..], base) == Some([]);
    assert [Bottom(bs[0])] + [] == [r];
  }

  lemma StackPair(base: bv8, x: Reg, y: Reg)
    requires x < 8 && y < 8 && (base == 0x50 || base == 0x58)
    ensures StackRegisters([base | RegBits(x), base | RegBits(y)], base) == Some([x, y])
  {
    StackByte(base, x);
    StackByte(base, y);
    var bs := [base | RegBits(x), base | RegBits(y)];
    assert bs[1..] == [base | RegBits(y)];
    assert StackRegisters(bs[1..], base) == Some([y]);
    assert [x] + [y] == [x, y];
  }

  /** The registers a value occupies: its pair, high register first, when it takes two words. */
  function Occupied(wordSize: WordSize, size: nat, a: Register): seq<int>
  {
    if wordSize == 4 && size == 8 then [a.high, a.low] else [a.low]
  }

  /** `pushR` pushes the registers of the value, the high register of a pair first. */
  lemma {:induction false} PushOrder(wordSize: WordSize, size: nat, a: Register)
    requires a.low < 8 && (wordSize == 4 && size == 8 ==> 0 <= a.high < 8)
    ensures StackRegisters(PushCode(wordSize, size, a), 0x50) == Some(Occupied(wordSize, size, a))
  {
    if wordSize == 4 && size == 8 {
      assert PushCode(wordSize, size, a) == [0x50 | RegBits(a.high), 0x50 | RegBits(a.low)];
      StackPair(0x50, a.high, a.low);
    } else {
      StackByte(0x50, a.low);
    }
  }

  /**
   * `popR` pops the registers `pushR` pushed in the reverse order, so a pop
   * undoes a push (the x86-64 4-byte pop is PopSignExtends).
   */
  lemma {:induction false} PopReversesPush(wordSize: WordSize, size: nat, a: Register)
    requires a.low < 8 && (wordSize == 4 && size == 8 ==> 0 <= a.high < 8)
    requires !(wordSize == 8 && size == 4)
    ensures var pushed := Occupied(wordSize, size, a);
      StackRegisters(PopCode(wordSize, size, a), 0x58) == Some([pushed[|pushed| - 1]] + pushed[..|pushed| - 1])
  {
    var pushed := Occupied(wordSize, size, a);
    if wordSize == 4 && size == 8 {
      assert PopCode(wordSize, size, a) == [0x58 | RegBits(a.low), 0x58 | RegBits(a.high)];
      StackPair(0x58, a.low, a.high);
      assert [pushed[1]] + pushed[..1] == [a.low, a.high];
    } else {
      assert PopCode(wordSize, size, a) == [0x58 | RegBits(a.low)];
      StackByte(0x58, a.low);
    }
  }

  /** On x86-64 a 4-byte pop is POP r followed by MOVSXD r, r, which sign-extends the value in place. */
  lemma {:induction false} PopSignExtends(a: Register)
    requires a.low < 8
    ensures StackRegisters(PopCode(8, 4, a)[..1], 0x58) == Some([a.low])
    ensures DecodeRegisterForm(PopCode(8, 4, a)[1..], 1) == Some(RegisterForm(true, [0x63], a.low, a.low))
  {
    var pop := PopCode(8, 4, a);
    StackByte(0x58, a.low);
    assert pop[..1] == [0x58 | RegBits(a.low)];
    RexWByte(8);
    assert pop[1..] == [0x48] + [0x63] + [Direct(a.low, a.low)];
    DirectRoundTrip([0x48], [0x63], a.low, a.low);
  }

  /**
   * An instruction whose operands are two registers: an optional REX.W
   * prefix, the opcode bytes, and a ModR/M byte with mod 3 whose reg and
   * r/m fields name the registers.
   */
  datatype RegisterForm = RegisterForm(wide: bool, opcode: seq<bv8>, reg: int, rm: int)

  function DecodeRegisterForm(bs: seq<bv8>, opcodeLength: nat): Option<RegisterForm>
  {
    var wide := |bs| > 0 && bs[0] == 0x48;
    var start := if wide then 1 else 0;
    if |bs| != start + opcodeLength + 1 || Top(bs[|bs| - 1]) != 3 then None
    else Some(RegisterForm(wide, bs[start..start + opcodeLength], Middle(bs[|bs| - 1]), Bottom(bs[|bs| - 1])))
  }

  /** A register-direct ModR/M byte reads back as its two registers. */
  lemma {:induction false} DirectRoundTrip(prefix: seq<bv8>, opcode: seq<bv8>, middle: Reg, bottom: Reg)
    requires middle < 8 && bottom < 8 && (prefix == [] || prefix == [0x48]) && |opcode| > 0 && opcode[0] != 0x48
    ensures DecodeRegisterForm(prefix + opcode + [Direct(middle, bottom)], |opcode|)
         == Some(RegisterForm(prefix != [], opcode, middle, bottom))
  {
    FieldsRoundTrip(0xc0, middle, bottom);
    var bs := prefix + opcode + [Direct(middle, bottom)];
    assert bs[|bs| - 1] == Direct(middle, bottom);
    assert bs[|prefix|..|prefix| + |opcode|] == opcode;
    if prefix == [] {
      assert bs[0] == opcode[0];
    }
  }

  /** The REX.W prefix is 0x48 on x86-64 and absent on a 32-bit target. */
  lemma RexWByte(wordSize: WordSize)
    ensures RexW(wordSize) == (if wordSize == 8 then [0x48] else [])
  {
    assert (RegBits(Rax) & 8) >> 3 == 0;
  }

  /** A move of a 4- or 8-byte register to itself emits nothing, on either target. */
  lemma {:induction false} MoveToSelfIsEmpty(wordSize: WordSize, size: nat, a: Register)
    requires size == 4 || size == 8
    requires wordSize == 4 && size == 8 ==> IsReg(a.high)
    ensures MoveOperands(wordSize, size, a, size, a)
    ensures MoveCode(wordSize, size, a, size, a) == []
  {
    if wordSize == 4 && size == 8 {
      assert MoveCode(wordSize, 4, a, 4, a) == [];
      assert MoveCode(wordSize, 4, Single(a.high), 4, Single(a.high)) == [];
    }
  }

  /**
   * A one-word move between two different registers is MOV r/m, r (89 /r):
   * the destination in r/m, the source in reg; on x86-64 it carries REX.W.
   */
  lemma MoveBetweenRegisters(wordSize: WordSize, size: nat, a: Register, b: Register)
    requires (size == 4 || size == wordSize) && a.low < 8 && b.low < 8 && a.low != b.low
    ensures MoveOperands(wordSize, size, a, size, b)
    ensures DecodeRegisterForm(MoveCode(wordSize, size, a, size, b), 1)
         == Some(RegisterForm(wordSize == 8, [0x89], a.low, b.low))
  {
    RexWByte(wordSize);
    assert MoveCode(wordSize, size, a, size, b) == RexW(wordSize) + [0x89] + [Direct(a.low, b.low)];
    DirectRoundTrip(RexW(wordSize), [0x89], a.low, b.low);
  }

  /**
   * Widening moves are MOVSX r, r/m8 (0F BE /r), MOVSX r, r/m16 (0F BF /r)
   * and, on x86-64, MOVSXD r, r/m32 (63 /r): the destination in reg, the
   * source in r/m.
   */
  lemma {:induction false} SignExtendingMoves(wordSize: WordSize, aSize: nat, a: Register, bSize: nat, b: Register)
    requires a.low < 8 && b.low < 8
    requires aSize == 1 || aSize == 2 || (aSize == 4 && bSize == 8 && wordSize == 8)
    requires wordSize == 4 && aSize == 1 ==> a.low <= Rbx
    ensures MoveOperands(wordSize, aSize, a, bSize, b)
    ensures var opcode: seq<bv8> := if aSize == 1 then [0x0f, 0xbe] else if aSize == 2 then [0x0f, 0xbf] else [0x63];
      DecodeRegisterForm(MoveCode(wordSize, aSize, a, bSize, b), |opcode|)
      == Some(RegisterForm(wordSize == 8, opcode, b.low, a.low))
  {
    RexWByte(wordSize);
    var opcode: seq<bv8> := if aSize == 1 then [0x0f, 0xbe] else if aSize == 2 then [0x0f, 0xbf] else [0x63];
    DirectRoundTrip(RexW(wordSize), opcode, b.low, a.low);
    assert MoveCode(wordSize, aSize, a, bSize, b) == RexW(wordSize) + opcode + [Direct(b.low, a.low)];
  }

  /**
   * On a 32-bit target a 4-byte value widens into edx:eax by moving it into
   * eax (nothing when it is there already) and then CDQ (99).
   */
  lemma {:induction false} WidenIntoPair(a: Register)
    requires a.low < 8
    ensures var pair := Register(Rax, Rdx);
      && MoveOperands(4, 4, a, 8, pair)
      && MoveCode(4, 4, a, 8, pair) == MoveCode(4, 4, a, 4, pair) + [0x99]
      && (a.low == Rax ==> MoveCode(4, 4, a, 8, pair) == [0x99])
  {
    var pair := Register(Rax, Rdx);
    assert MoveCode(4, 4, pair, 8, pair) == [0x99];
    if a.low == Rax {
      assert MoveCode(4, 4, a, 4, pair) == [];
    }
  }

  /** A one-word subtraction is SUB r/m, r (29 /r): b in r/m loses a in reg; REX.W exactly for 8 bytes. */
  lemma SubtractBetweenRegisters(wordSize: WordSize, size: nat, a: Register, b: Register)
    requires (size == 4 || size == wordSize) && a.low < 8 && b.low < 8
    ensures DecodeRegisterForm(SubtractCode(wordSize, size, a, size, b), 1)
         == Some(RegisterForm(size == 8, [0x29], a.low, b.low))
  {
    RexWByte(wordSize);
    var prefix := if size == 8 then RexW(wordSize) else [];
    assert SubtractCode(wordSize, size, a, size, b) == prefix + [0x29] + [Direct(a.low, b.low)];
    DirectRoundTrip(prefix, [0x29], a.low, b.low);
  }

  /** A subtraction with borrow is SBB r/m, r (19 /r), with the same operand order. */
  lemma SubtractBorrowBetweenRegisters(wordSize: WordSize, size: nat, a: Register, b: Register)
    requires BorrowOperands(wordSize, size, size) && a.low < 8 && b.low < 8
    ensures DecodeRegisterForm(SubtractBorrowCode(wordSize, size, a, size, b), 1)
         == Some(RegisterForm(size == 8, [0x19], a.low, b.low))
  {
    RexWByte(wordSize);
    var prefix := if size == 8 then RexW(wordSize) else [];
    assert SubtractBorrowCode(wordSize, size, a, size, b) == prefix + [0x19] + [Direct(a.low, b.low)];
    DirectRoundTrip(prefix, [0x19], a.low, b.low);
  }

  /** On a 32-bit target a two-word subtraction is SUB of the low registers, then SBB of the high ones. */
  lemma {:induction false} SubtractPair(a: Register, b: Register)
    requires a.low < 8 && b.low < 8 && 0 <= a.high < 8 && 0 <= b.high < 8
    ensures var bs := SubtractCode(4, 8, a, 8, b);
      && |bs| == 4
      && DecodeRegisterForm(bs[..2], 1) == Some(RegisterForm(false, [0x29], a.low, b.low))
      && DecodeRegisterForm(bs[2..], 1) == Some(RegisterForm(false, [0x19], a.high, b.high))
  {
    var bs := SubtractCode(4, 8, a, 8, b);
    SubtractBetweenRegisters(4, 4, a, b);
    SubtractBorrowBetweenRegisters(4, 4, Single(a.high), Single(b.high));
    assert bs[..2] == SubtractCode(4, 4, a, 4, b);
    assert bs[2..] == SubtractBorrowCode(4, 4, Single(a.high), 4, Single(b.high));
  }

  /** An arithmetic instruction with an immediate and a register operand: 83 /ext ib or 81 /ext id. */
  datatype ImmediateOp = ImmediateOp(extension: int, reg: int, immediate: int)

  /** The extensions of the 83 and 81 groups that the emitters use. */
  const Sub := 5
  const Sbb := 3

  /** Reads a run of register-immediate instructions; the immediate is read signed, as the processor extends it. */
  function DecodeImmediateOps(bs: seq<bv8>): Option<seq<ImmediateOp>>
    decreases |bs|
  {
    if bs == [] then Some([])
    else
      var size := if bs[0] == 0x83 then 1 else if bs[0] == 0x81 then 4 else 0;
      if size == 0 || |bs| < 2 + size || Top(bs[1]) != 3 then None
      else match DecodeImmediateOps(bs[2 + size..])
        case None => None
        case Some(rest) => Some([ImmediateOp(Middle(bs[1]), Bottom(bs[1]), Signed(bs[2..2 + size]))] + rest)
  }

  lemma GroupByte(top: bv8, extension: Reg, r: Reg)
    requires (top == 0xe8 && extension == Sub) || (top == 0xd8 && extension == Sbb)
    requires r < 8
    ensures top | RegBits(r) == Direct(extension, r)
  {
  }

  /** One group instruction, 83 or 81 with a register ModR/M byte, reads back as its fields and signed immediate. */
  lemma {:induction false} DecodeGroupOp(opcode: bv8, modrm: bv8, immediate: seq<bv8>)
    requires (opcode == 0x83 && |immediate| == 1) || (opcode == 0x81 && |immediate| == 4)
    requires Top(modrm) == 3
    ensures DecodeImmediateOps([opcode, modrm] + immediate)
         == Some([ImmediateOp(Middle(modrm), Bottom(modrm), Signed(immediate))])
  {
    var bs := [opcode, modrm] + immediate;
    var size := |immediate|;
    assert bs[0] == opcode && bs[1] == modrm;
    assert bs[2..2 + size] == immediate;
    assert bs[2 + size..] == [];
    assert DecodeImmediateOps(bs[2 + size..]) == Some([]);
    var op := ImmediateOp(Middle(modrm), Bottom(modrm), Signed(immediate));
    assert [op] + [] == [op];
  }

  /** SUB r, imm8 (83 /5 ib) or SUB r, imm32 (81 /5 id) reads back as the instruction and constant written. */
  lemma {:induction false} SubtractImmediateRoundTrip(v: Int32, r: Reg)
    requires r < 8
    ensures |SubtractImmediateCode(v, r)| == (if IsInt8(v) then 3 else 6)
    ensures DecodeImmediateOps(SubtractImmediateCode(v, r)) == Some([ImmediateOp(Sub, r, v)])
  {
    GroupByte(0xe8, Sub, r);
    FieldsRoundTrip(0xc0, Sub, r);
    if IsInt8(v) {
      assert [LowByte(v)] == LittleEndian(v, 1);
      LittleEndianRoundTrip(v, 1);
      DecodeGroupOp(0x83, Direct(Sub, r), [LowByte(v)]);
      assert SubtractImmediateCode(v, r) == [0x83, Direct(Sub, r)] + [LowByte(v)];
    } else {
      Int32RoundTrip(v);
      DecodeGroupOp(0x81, Direct(Sub, r), LittleEndian(v, 4));
    }
  }

  /** SBB r, imm8 (83 /3 ib) reads back as the constant written. */
  lemma {:induction false} SubtractBorrowImmediateRoundTrip(wordSize: WordSize, v: Int64, b: Register)
    requires b.low < 8 && IsInt8(IntPtr(wordSize, v))
    ensures SubtractBorrowConstantCode(wordSize, v, b).Some?
    ensures DecodeImmediateOps(SubtractBorrowConstantCode(wordSize, v, b).value)
         == Some([ImmediateOp(Sbb, b.low, IntPtr(wordSize, v))])
  {
    var t := IntPtr(wordSize, v);
    GroupByte(0xd8, Sbb, b.low);
    FieldsRoundTrip(0xc0, Sbb, b.low);
    IntPtrBytes(wordSize, v);
    assert [LowByte(t)] == LittleEndian(t, 1);
    LittleEndianRoundTrip(t, 1);
    DecodeGroupOp(0x83, Direct(Sbb, b.low), [LowByte(t)]);
    assert SubtractBorrowConstantCode(wordSize, v, b).value == [0x83, Direct(Sbb, b.low)] + [LowByte(t)];
  }

  /**
   * Subtracting a one-word constant: nothing for zero, otherwise, with t the
   * constant as an `intptr_t`, SUB r, imm8 when t fits in int8 and SUB r,
   * imm32 when it fits in int32 (after REX.W for 8 bytes), reading back as
   * t. On x86-64 t is the constant; on a 32-bit target it is the constant's
   * low word, which always fits in int32, so no temporary is ever taken.
   */
  lemma {:induction false} SubtractConstantForms(wordSize: WordSize, size: nat, v: Int64, b: Register, temporary: Reg)
    requires !(wordSize == 4 && size == 8) && b.low < 8
    ensures var code := SubtractConstantCode(wordSize, size, v, b, temporary);
      var t := IntPtr(wordSize, v);
      && code.Some?
      && (v == 0 ==> code.value == [])
      && (v != 0 && IsInt32(t) ==>
            var prefix := if size == 8 then RexW(wordSize) else [];
            && code.value[..|prefix|] == prefix
            && |code.value| == |prefix| + (if IsInt8(t) then 3 else 6)
            && DecodeImmediateOps(code.value[|prefix|..]) == Some([ImmediateOp(Sub, b.low, t)]))
  {
    var t := IntPtr(wordSize, v);
    if v != 0 && IsInt32(t) {
      var prefix := if size == 8 then RexW(wordSize) else [];
      var code := SubtractConstantCode(wordSize, size, v, b, temporary).value;
      SubtractImmediateRoundTrip(t, b.low);
      var body := SubtractImmediateCode(t, b.low);
      assert code == prefix + body;
      assert code[|prefix|..] == body;
    }
  }

  /** Only no bytes at all read back as no instructions. */
  lemma DecodeNothing(bs: seq<bv8>)
    requires DecodeImmediateOps(bs) == Some([])
    ensures bs == []
  {
    if bs != [] {
      assert false;
    }
  }

  /** A run that reads as one instruction is exactly that instruction's bytes. */
  lemma {:induction false} DecodeSingle(xs: seq<bv8>, op: ImmediateOp)
    requires DecodeImmediateOps(xs) == Some([op])
    ensures xs != []
    ensures var size := if xs[0] == 0x83 then 1 else if xs[0] == 0x81 then 4 else 0;
      && size != 0 && |xs| == 2 + size && Top(xs[1]) == 3
      && op == ImmediateOp(Middle(xs[1]), Bottom(xs[1]), Signed(xs[2..2 + size]))
  {
    assert xs != [];
    var size := if xs[0] == 0x83 then 1 else if xs[0] == 0x81 then 4 else 0;
    assert size != 0 && |xs| >= 2 + size && Top(xs[1]) == 3;
    var tail := DecodeImmediateOps(xs[2 + size..]).value;
    var first := ImmediateOp(Middle(xs[1]), Bottom(xs[1]), Signed(xs[2..2 + size]));
    assert [op] == [first] + tail;
    assert |tail| == 0;
    DecodeNothing(xs[2 + size..]);
    assert [op] == [first];
  }

  /** Reading two runs one after the other reads the first instruction, then the second run. */
  lemma {:induction false} DecodeThen(xs: seq<bv8>, ys: seq<bv8>, op: ImmediateOp, rest: seq<ImmediateOp>)
    requires DecodeImmediateOps(xs) == Some([op]) && DecodeImmediateOps(ys) == Some(rest)
    ensures DecodeImmediateOps(xs + ys) == Some([op] + rest)
  {
    DecodeSingle(xs, op);
    var size := if xs[0] == 0x83 then 1 else if xs[0] == 0x81 then 4 else 0;
    var all := xs + ys;
    assert all[0] == xs[0];
    assert all[1] == xs[1];
    assert all[2..2 + size] == xs[2..2 + size];
    assert all[2 + size..] == ys;
  }

  /** The REX prefix and B8+r opcode of MOV r, imm64 name the register together: REX.B is its bit 3. */
  lemma RexOpcodeRegister(r: Reg)
    ensures var prefix, opcode := 0x48 | ((RegBits(r) & 8) >> 3), 0xb8 | RegBits(r);
      && prefix & 0xf8 == 0x48
      && opcode & 0xf8 == 0xb8
      && 8 * ((prefix & 1) as int) + Bottom(opcode) == r
  {
    var bits := RegBits(r);
    assert (0x48 | ((bits & 8) >> 3)) & 1 == (bits & 8) >> 3;
    assert (0xb8 | bits) & 7 == bits & 7;
    assert 8 * ((((bits & 8) >> 3)) as int) + ((bits & 7) as int) == r;
  }

  /**
   * On x86-64 `moveCR` is MOV r, imm64 (REX.W B8+r, whatever the operand
   * size): REX.B and the opcode's low bits name any of the sixteen
   * registers, and the immediate reads back as the constant.
   */
  lemma {:induction false} MoveConstantWord(aSize: nat, v: Int64, r: Reg)
    ensures var code := MoveConstantCode(8, aSize, v, Single(r));
      && |code| == 10
      && code[0] & 0xf8 == 0x48
      && code[1] & 0xf8 == 0xb8
      && 8 * ((code[0] & 1) as int) + Bottom(code[1]) == r
      && Signed(code[2..]) == v
  {
    var code := MoveConstantCode(8, aSize, v, Single(r));
    var prefix, opcode := 0x48 | ((RegBits(r) & 8) >> 3), 0xb8 | RegBits(r);
    var immediate := LittleEndian(v, 8);
    assert code == [prefix] + [opcode] + immediate;
    assert code[0] == prefix && code[1] == opcode && code[2..] == immediate;
    RexOpcodeRegister(r);
    assert Pow256(8) == 0x1_0000_0000_0000_0000;
    LittleEndianRoundTrip(v, 8);
  }

  /** On a 32-bit target MOV r, imm32 (B8+r) names a classic register in its opcode and holds v modulo 2^32. */
  lemma {:induction false} ShortMoveConstant(v: Int64, b: Register)
    requires b.low < 8
    ensures var code := MoveConstantCode(4, 4, v, b);
      && |code| == 5
      && code[0] & 0xf8 == 0xb8 && Bottom(code[0]) == b.low
      && Unsigned(code[1..]) == v % 0x1_0000_0000
  {
    var code := MoveConstantCode(4, 4, v, b);
    var bits := RegBits(b.low);
    assert bits < 8;
    assert code == [0xb8 | bits] + LittleEndian(v, 4);
    assert code[1..] == LittleEndian(v, 4);
    assert Pow256(4) == 0x1_0000_0000;
    LittleEndianUnsigned(v, 4);
  }

  /** The two halves as the source takes them make up the constant modulo 2^64. */
  lemma {:induction false} HalvesUnsigned(v: Int64)
    ensures 0 <= Low(v) < 0x1_0000_0000 && 0 <= High(v) < 0x1_0000_0000
    ensures Low(v) + 0x1_0000_0000 * High(v) == v % 0x1_0000_0000_0000_0000
  {
    ModSplit(v, 0x1_0000_0000, 0x1_0000_0000);
  }

  /**
   * On a 32-bit target a two-word constant is MOV low, imm32 then MOV high,
   * imm32, and the two immediates, read unsigned, make up the constant
   * modulo 2^64.
   */
  lemma {:induction false} MoveConstantPair(v: Int64, b: Register)
    requires b.low < 8 && 0 <= b.high < 8
    ensures var code := MoveConstantCode(4, 8, v, b);
      && |code| == 10
      && code[0] & 0xf8 == 0xb8 && Bottom(code[0]) == b.low
      && code[5] & 0xf8 == 0xb8 && Bottom(code[5]) == b.high
      && Unsigned(code[1..5]) + 0x1_0000_0000 * Unsigned(code[6..]) == v % 0x1_0000_0000_0000_0000
  {
    var first := MoveConstantCode(4, 4, Low(v), b);
    var second := MoveConstantCode(4, 4, High(v), Single(b.high));
    ShortMoveConstant(Low(v), b);
    ShortMoveConstant(High(v), Single(b.high));
    HalvesUnsigned(v);
    var code := first + second;
    assert MoveConstantCode(4, 8, v, b) == code;
    assert code[0] == first[0] && code[5] == second[0];
    assert code[1..5] == first[1..];
    assert code[6..] == second[1..];
    DivModUnique(Low(v), 0x1_0000_0000, 0, Low(v));
    DivModUnique(High(v), 0x1_0000_0000, 0, High(v));
  }

  /**
   * As written, a two-word constant whose low half is zero (2^32, say)
   * emits nothing for the low half and a lone SBB for the high one, which
   * subtracts whatever borrow an earlier instruction left in the carry flag.
   */
  lemma {:induction false} SubtractPairLowZeroBorrowsAlone(v: Int64, b: Register, temporary: Reg)
    requires v != 0 && Low(v) == 0 && IsInt8(v / 0x1_0000_0000) && b.low < 8 && 0 <= b.high < 8
    ensures SubtractConstantCode(4, 8, v, b, temporary).Some?
    ensures DecodeImmediateOps(SubtractConstantCode(4, 8, v, b, temporary).value)
         == Some([ImmediateOp(Sbb, b.high, v / 0x1_0000_0000)])
  {
    HighWord(v);
    SubtractBorrowImmediateRoundTrip(4, High(v), Single(b.high));
    var high := SubtractBorrowConstantCode(4, High(v), Single(b.high)).value;
    assert SubtractConstantCode(4, 4, Low(v), b, temporary) == Some([]);
    assert SubtractConstantCode(4, 8, v, b, temporary) == Some([] + high);
    assert [] + high == high;
  }

  /**
   * A two-word constant on a 32-bit target with both halves read signed:
   * SUB of the low half, emitted even when it is zero so that it sets the
   * borrow, then SBB of the high half, `v >> 32` sign-extended.
   */
  function SubtractPairConstantCode(v: Int64, b: Register): Option<seq<bv8>>
    requires IsReg(b.high)
  {
    if v == 0 then Some([])
    else
      match SubtractBorrowConstantCode(4, v / 0x1_0000_0000, Single(b.high))
      case None => None
      case Some(high) => Some(SubtractImmediateCode(Int32Cast(v), b.low) + high)
  }

  /**
   * Whenever the low half is not zero, the 32-bit pair subtraction as
   * written is the one above: both halves reach `isInt8` as 32-bit
   * `intptr_t`s, so the low half is `static_cast<int32_t>(v)` and the high
   * half is `v >> 32` sign-extended, and they store the same bytes.
   */
  lemma {:induction false} SubtractPairAsWritten(v: Int64, b: Register, temporary: Reg)
    requires Low(v) != 0 && IsReg(b.high)
    ensures SubtractConstantCode(4, 8, v, b, temporary) == SubtractPairConstantCode(v, b)
  {
    LowWord(v);
    HighWord(v);
    IntPtrBytes(4, High(v));
    var low := SubtractImmediateCode(Int32Cast(v), b.low);
    assert SubtractConstantCode(4, 4, Low(v), b, temporary) == Some([] + low);
    assert [] + low == low;
    assert SubtractBorrowConstantCode(4, High(v), Single(b.high))
        == SubtractBorrowConstantCode(4, v / 0x1_0000_0000, Single(b.high));
  }

  /** The signed low half and the arithmetically shifted high half make up the constant. */
  lemma {:induction false} SignedHalves(v: Int64)
    ensures -0x8000_0000 <= v / 0x1_0000_0000 < 0x8000_0000
    ensures Int32Cast(v) % 0x1_0000_0000 + 0x1_0000_0000 * (v / 0x1_0000_0000) == v
  {
    var q, m := v / 0x1_0000_0000, v % 0x1_0000_0000;
    assert v == q * 0x1_0000_0000 + m;
    var r := Int32Cast(v);
    if m < 0x8000_0000 {
      DivModUnique(m + 0x8000_0000, 0x1_0000_0000, 0, m + 0x8000_0000);
      DivModUnique(v + 0x8000_0000, 0x1_0000_0000, q, m + 0x8000_0000);
      assert r == m;
      DivModUnique(r, 0x1_0000_0000, 0, m);
    } else {
      DivModUnique(v + 0x8000_0000, 0x1_0000_0000, q + 1, m - 0x8000_0000);
      assert r == m - 0x1_0000_0000;
      DivModUnique(r, 0x1_0000_0000, -1, m);
    }
  }

  /**
   * The corrected subtraction assembles exactly when the high half fits in
   * int8, as SUB of the low register then SBB of the high one, with the
   * signed halves of v as immediates (which make up v, by SignedHalves).
   */
  lemma {:induction false} SubtractPairConstantFixed(v: Int64, b: Register)
    requires v != 0 && b.low < 8 && 0 <= b.high < 8
    ensures var code := SubtractPairConstantCode(v, b);
      && (code.Some? <==> IsInt8(v / 0x1_0000_0000))
      && (code.Some? ==>
            DecodeImmediateOps(code.value)
            == Some([ImmediateOp(Sub, b.low, Int32Cast(v)), ImmediateOp(Sbb, b.high, v / 0x1_0000_0000)]))
  {
    var low: Int32 := Int32Cast(v);
    var hi := v / 0x1_0000_0000;
    IntPtrWord(hi, hi);
    var borrow := SubtractBorrowConstantCode(4, hi, Single(b.high));
    assert borrow.Some? <==> IsInt8(hi);
    if IsInt8(hi) {
      SubtractImmediateRoundTrip(low, b.low);
      SubtractBorrowImmediateRoundTrip(4, hi, Single(b.high));
      var subtractLow := SubtractImmediateCode(low, b.low);
      assert SubtractPairConstantCode(v, b) == Some(subtractLow + borrow.value);
      var ops := [ImmediateOp(Sub, b.low, low), ImmediateOp(Sbb, b.high, hi)];
      DecodeThen(subtractLow, borrow.value, ops[0], ops[1..]);
      assert [ops[0]] + ops[1..] == ops;
    } else {
      assert SubtractPairConstantCode(v, b) == None;
    }
  }
}
