/**
 * The `Context` of src/x86.cpp: the code buffer the emitters append to step
 * by step, the jump tasks they record, and the rel32 patch a task writes
 * once the code has been copied to its final address.
 */
module X86Assembler {
  import opened X86Bytes
  import opened X86Encoding
  import opened X86Instructions
  import opened Arithmetic

  /**
   * `OffsetTask`: once the jump target behind `promise` (numbered here) is
   * known, patch the rel32 that ends the instruction at `instructionOffset`.
   */
  datatype Task = OffsetTask(promise: nat, instructionOffset: nat, instructionSize: nat)

  /** The task's instruction, rel32 included, lies inside a buffer of this length. */
  predicate Fits(task: Task, length: nat)
  {
    4 <= task.instructionSize && task.instructionOffset + task.instructionSize <= length
  }

  /** How far into the code the recorded tasks reach: the largest end of their instructions. */
  function End(tasks: seq<Task>): (end: nat)
    ensures forall i :: 0 <= i < |tasks| ==> tasks[i].instructionOffset + tasks[i].instructionSize <= end
  {
    if tasks == [] then 0
    else
      var first := tasks[0].instructionOffset + tasks[0].instructionSize;
      var rest := End(tasks[1..]);
      if first < rest then rest else first
  }

  /** Every task patches a rel32, so its instruction is at least four bytes long. */
  predicate Sized(tasks: seq<Task>)
  {
    forall i :: 0 <= i < |tasks| ==> 4 <= tasks[i].instructionSize
  }

  /** The tasks reach no further than the end of the code exactly when every one of them fits. */
  lemma {:induction false} EndBoundsTasks(tasks: seq<Task>, length: nat)
    requires Sized(tasks)
    ensures End(tasks) <= length <==> forall i :: 0 <= i < |tasks| ==> Fits(tasks[i], length)
  {
    if tasks != [] {
      EndBoundsTasks(tasks[1..], length);
      assert forall i :: 1 <= i < |tasks| ==> tasks[i] == tasks[1..][i - 1];
    }
  }

  /** Appending in two steps is appending the two parts at once. */
  lemma Associative(a: seq<bv8>, b: seq<bv8>, c: seq<bv8>)
    ensures a + b + c == a + (b + c)
  {
  }

  class Context {
    const wordSize: WordSize
    var code: seq<bv8>
    /** The task list, most recently recorded first, as `appendOffsetTask` prepends. */
    var tasks: seq<Task>

    /** Every recorded task patches bytes inside the code (see EndBoundsTasks). */
    ghost predicate Valid()
      reads this
    {
      Sized(tasks) && End(tasks) <= |code|
    }

    constructor (wordSize: WordSize)
      ensures this.wordSize == wordSize && code == [] && tasks == [] && Valid()
    {
      this.wordSize := wordSize;
      code := [];
      tasks := [];
    }

    /** `rex(c, mask, r)`. */
    method Rex(mask: bv8, r: Reg)
      modifies this
      ensures tasks == old(tasks)
      ensures code == old(code) + X86Encoding.Rex(wordSize, mask, r)
    {
      if wordSize == 8 {
        code := code + [mask | ((RegBits(r) & 8) >> 3)];
      }
    }

    /** `rex(c)`. */
    method RexW()
      modifies this
      ensures tasks == old(tasks)
      ensures code == old(code) + X86Encoding.RexW(wordSize)
    {
      Rex(0x48, Rax);
    }

    /** `encode`: the opcode bytes, then the ModR/M byte, the SIB byte if any and the displacement. */
    method Encode(instruction: seq<bv8>, a: Reg, b: Reg, displacement: Int32, index: int, scale: int)
      requires ValidIndex(b, index, scale)
      modifies this
      ensures tasks == old(tasks)
      ensures code == old(code) + (instruction + Address(a, b, displacement, index, scale))
    {
      var width: bv8;
      if displacement == 0 && b != Rbp {
        width := 0;
      } else if IsInt8(displacement) {
        width := 0x40;
      } else {
        width := 0x80;
      }

      var operand: seq<bv8>;
      if index == NoRegister {
        operand := [Fields(width, a, b)];
        if b == Rsp {
          operand := operand + [0x24];
        }
      } else {
        operand := [Fields(width, a, Rsp), Fields((Log(scale) as bv8) << 6, index, b)];
      }

      var tail: seq<bv8> := [];
      if !(displacement == 0 && b != Rbp) {
        if IsInt8(displacement) {
          tail := [LowByte(displacement)];
        } else {
          tail := LittleEndian(displacement, 4);
        }
      }
      code := code + (instruction + (operand + tail));
    }

    /** `encode(c, instruction, a, b, rex)`: an optional REX.W, a one-byte opcode and a memory operand. */
    method EncodeMemory(instruction: bv8, a: Reg, b: Memory, rex: bool)
      requires ValidIndex(b.base, b.index, b.scale)
      modifies this
      ensures tasks == old(tasks)
      ensures code == old(code) + ((if rex then X86Encoding.RexW(wordSize) else []) + [instruction]
                                   + Address(a, b.base, b.offset, b.index, b.scale))
    {
      var prefix := if rex then X86Encoding.RexW(wordSize) else [];
      Encode(prefix + [instruction], a, b.base, b.offset, b.index, b.scale);
    }

    /** `encode2`: the same with a two-byte opcode. */
    method Encode2(instruction: int, a: Reg, b: Memory, rex: bool)
      requires 0 <= instruction < 0x1_0000
      requires ValidIndex(b.base, b.index, b.scale)
      modifies this
      ensures tasks == old(tasks)
      ensures code == old(code) + ((if rex then X86Encoding.RexW(wordSize) else []) + OpcodeBytes(instruction)
                                   + Address(a, b.base, b.offset, b.index, b.scale))
    {
      var prefix := if rex then X86Encoding.RexW(wordSize) else [];
      var i := [LowByte(instruction / 0x100), LowByte(instruction)];
      Encode(prefix + i, a, b.base, b.offset, b.index, b.scale);
    }

    /** `pushR`. */
    method PushR(size: nat, a: Register)
      requires wordSize == 4 && size == 8 ==> IsReg(a.high)
      modifies this
      ensures tasks == old(tasks)
      ensures code == old(code) + PushCode(wordSize, size, a)
      decreases size
    {
      if wordSize == 4 && size == 8 {
        PushR(4, Single(a.high));
        PushR(4, a);
      } else {
        code := code + [0x50 | RegBits(a.low)];
      }
    }

    /** `popR`. */
    method PopR(size: nat, a: Register)
      requires wordSize == 4 && size == 8 ==> IsReg(a.high)
      modifies this
      ensures tasks == old(tasks)
      ensures code == old(code) + PopCode(wordSize, size, a)
      decreases size
    {
      if wordSize == 4 && size == 8 {
        Associative(code, PopCode(wordSize, 4, a), PopCode(wordSize, 4, Single(a.high)));
        PopR(4, a);
        PopR(4, Single(a.high));
      } else {
        Associative(code, [0x58 | RegBits(a.low)], if wordSize == 8 && size == 4 then MoveCode(wordSize, 4, a, 8, a) else []);
        code := code + [0x58 | RegBits(a.low)];
        if wordSize == 8 && size == 4 {
          MoveRR(4, a, 8, a);
        }
      }
    }

    /** `moveRR`. */
    method MoveRR(aSize: nat, a: Register, bSize: nat, b: Register)
      requires MoveOperands(wordSize, aSize, a, bSize, b)
      modifies this
      ensures tasks == old(tasks)
      ensures code == old(code) + MoveCode(wordSize, aSize, a, bSize, b)
      decreases MoveDepth(wordSize, aSize, a, bSize, b)
    {
      if wordSize == 4 && aSize == 8 && bSize == 8 {
        Associative(code, MoveCode(wordSize, 4, a, 4, b), MoveCode(wordSize, 4, Single(a.high), 4, Single(b.high)));
        MoveRR(4, a, 4, b);
        MoveRR(4, Single(a.high), 4, Single(b.high));
      } else if aSize == 1 {
        if wordSize == 4 && a.low > Rbx {
          Associative(code, MoveCode(wordSize, wordSize, a, wordSize, b), MoveCode(wordSize, 1, b, wordSize, b));
          MoveRR(wordSize, a, wordSize, b);
          MoveRR(1, b, wordSize, b);
        } else {
          code := code + (X86Encoding.RexW(wordSize) + [0x0f, 0xbe, Direct(b.low, a.low)]);
        }
      } else if aSize == 2 {
        code := code + (X86Encoding.RexW(wordSize) + [0x0f, 0xbf, Direct(b.low, a.low)]);
      } else if aSize == 4 || aSize == 8 {
        if aSize == 4 && bSize == 8 {
          if wordSize == 8 {
            code := code + (X86Encoding.RexW(wordSize) + [0x63, Direct(b.low, a.low)]);
          } else if a.low == Rax && b.low == Rax && b.high == Rdx {
            code := code + [0x99];
          } else {
            Associative(code, MoveCode(wordSize, 4, a, 4, b), MoveCode(wordSize, 4, b, 8, b));
            MoveRR(4, a, 4, b);
            MoveRR(4, b, 8, b);
          }
        } else if a.low != b.low {
          code := code + (X86Encoding.RexW(wordSize) + [0x89, Direct(a.low, b.low)]);
        }
      }
    }

    /** `subtractBorrowRR`. */
    method SubtractBorrowRR(aSize: nat, a: Register, bSize: nat, b: Register)
      requires BorrowOperands(wordSize, aSize, bSize)
      modifies this
      ensures tasks == old(tasks)
      ensures code == old(code) + SubtractBorrowCode(wordSize, aSize, a, bSize, b)
    {
      var prefix := if aSize == 8 then X86Encoding.RexW(wordSize) else [];
      code := code + (prefix + [0x19, Direct(a.low, b.low)]);
    }

    /** `subtractRR`. */
    method SubtractRR(aSize: nat, a: Register, bSize: nat, b: Register)
      requires aSize == bSize
      requires wordSize == 4 && aSize == 8 ==> IsReg(a.high) && IsReg(b.high)
      modifies this
      ensures tasks == old(tasks)
      ensures code == old(code) + SubtractCode(wordSize, aSize, a, bSize, b)
      decreases aSize
    {
      if wordSize == 4 && aSize == 8 {
        SubtractRR(4, a, 4, b);
        SubtractBorrowRR(4, Single(a.high), 4, Single(b.high));
      } else {
        var prefix := if aSize == 8 then X86Encoding.RexW(wordSize) else [];
        code := code + (prefix + [0x29, Direct(a.low, b.low)]);
      }
    }

    /** `moveCR` of a constant whose value is already known. */
    method MoveCR(aSize: nat, v: Int64, bSize: nat, b: Register)
      requires aSize == bSize
      requires wordSize == 4 && aSize == 8 ==> IsReg(b.high)
      modifies this
      ensures tasks == old(tasks)
      ensures code == old(code) + MoveConstantCode(wordSize, aSize, v, b)
      decreases aSize
    {
      if wordSize == 4 && aSize == 8 {
        HalvesUnsigned(v);
        Associative(code, MoveConstantCode(wordSize, 4, Low(v), b), MoveConstantCode(wordSize, 4, High(v), Single(b.high)));
        MoveCR(4, Low(v), 4, b);
        MoveCR(4, High(v), 4, Single(b.high));
      } else {
        code := code + (X86Encoding.Rex(wordSize, 0x48, b.low) + [0xb8 | RegBits(b.low)] + LittleEndian(v, wordSize));
      }
    }

    /** `subtractBorrowCR`: false where the source aborts, with nothing appended. */
    method SubtractBorrowCR(aSize: nat, v: Int64, bSize: nat, b: Register) returns (ok: bool)
      requires BorrowOperands(wordSize, aSize, bSize)
      modifies this
      ensures tasks == old(tasks)
      ensures ok == SubtractBorrowConstantCode(wordSize, v, b).Some?
      ensures code == old(code) + (if ok then SubtractBorrowConstantCode(wordSize, v, b).value else [])
    {
      if IsInt8(IntPtr(wordSize, v)) {
        code := code + [0x83, 0xd8 | RegBits(b.low), LowByte(v)];
        ok := true;
      } else {
        ok := false;
      }
    }

    /**
     * `subtractCR`, with the register `acquireTemporary` hands out as a
     * parameter: false where the source aborts, after the low half's code.
     */
    method SubtractCR(aSize: nat, v: Int64, bSize: nat, b: Register, temporary: Reg) returns (ok: bool)
      requires aSize == bSize
      requires wordSize == 4 && aSize == 8 ==> IsReg(b.high)
      modifies this
      ensures tasks == old(tasks)
      ensures ok == SubtractConstantCode(wordSize, aSize, v, b, temporary).Some?
      ensures ok ==> code == old(code) + SubtractConstantCode(wordSize, aSize, v, b, temporary).value
      ensures !ok ==> old(code) <= code
      decreases aSize
    {
      ok := true;
      if v != 0 {
        if wordSize == 4 && aSize == 8 {
          ghost var before := code;
          HalvesUnsigned(v);
          ok := SubtractCR(4, Low(v), 4, b, temporary);
          if ok {
            ghost var low := SubtractConstantCode(wordSize, 4, Low(v), b, temporary).value;
            ok := SubtractBorrowCR(4, High(v), 4, Single(b.high));
            if ok {
              Associative(before, low, SubtractBorrowConstantCode(wordSize, High(v), Single(b.high)).value);
            }
          }
        } else {
          var prefix := if aSize == 8 then X86Encoding.RexW(wordSize) else [];
          IntPtrBytes(wordSize, v);
          if IsInt8(IntPtr(wordSize, v)) {
            code := code + (prefix + [0x83, 0xe8 | RegBits(b.low), LowByte(v)]);
          } else if IsInt32(IntPtr(wordSize, v)) {
            code := code + (prefix + ([0x81, 0xe8 | RegBits(b.low)] + LittleEndian(v, 4)));
          } else {
            ghost var move := MoveConstantCode(wordSize, aSize, v, Single(temporary));
            ghost var subtract := SubtractCode(wordSize, aSize, Single(temporary), aSize, b);
            Associative(code, prefix, move + subtract);
            Associative(code + prefix, move, subtract);
            code := code + prefix;
            MoveCR(aSize, v, aSize, Single(temporary));
            SubtractRR(aSize, Single(temporary), bSize, b);
          }
        }
      }
    }

    /** `unconditional`: record the task for the rel32, then append the opcode and a zero rel32. */
    method Unconditional(jump: bv8, promise: nat)
      requires Valid()
      modifies this
      ensures Valid()
      ensures tasks == [OffsetTask(promise, |old(code)|, 5)] + old(tasks)
      ensures code == old(code) + UnconditionalCode(jump)
    {
      tasks := [OffsetTask(promise, |code|, 5)] + tasks;
      code := code + ([jump] + LittleEndian(0, 4));
    }

    /** `conditional`: the same for a two-byte Jcc opcode. */
    method Conditional(condition: bv8, promise: nat)
      requires Valid()
      modifies this
      ensures Valid()
      ensures tasks == [OffsetTask(promise, |old(code)|, 6)] + old(tasks)
      ensures code == old(code) + ConditionalCode(condition)
    {
      tasks := [OffsetTask(promise, |code|, 6)] + tasks;
      code := code + ([0x0f, condition] + LittleEndian(0, 4));
    }
  }

  /** `s` with `bs` copied over it from `at` on, as a `memcpy` into the code does. */
  function Patch(s: seq<bv8>, at: nat, bs: seq<bv8>): (r: seq<bv8>)
    requires at + |bs| <= |s|
    ensures |r| == |s| && r[at..at + |bs|] == bs
    ensures forall i :: 0 <= i < |s| && !(at <= i < at + |bs|) ==> r[i] == s[i]
  {
    s[..at] + bs + s[at + |bs|..]
  }

  /** The rel32 a task writes: from the end of its instruction to the target. */
  function Relative(task: Task, resultAddress: int, target: int): int
  {
    target - (resultAddress + task.instructionOffset + task.instructionSize)
  }

  /**
   * The rel32 a task computes is an `intptr_t`: on x86-64 the pointer
   * difference must not overflow; on a 32-bit target both addresses lie
   * below 2^32 and the difference wraps to the word.
   */
  predicate RelativeInRange(task: Task, resultAddress: int, target: int)
  {
    -0x8000_0000_0000_0000 <= Relative(task, resultAddress, target) < 0x8000_0000_0000_0000
  }

  /**
   * `OffsetTask::run` on the code copied to `result`, which sits at
   * `resultAddress`, with the promise's value `target`: false where the
   * source aborts because the distance, taken as an `intptr_t`, does not
   * fit in 32 bits, which on a 32-bit target never happens.
   */
  method RunOffsetTask(wordSize: WordSize, task: Task, result: array<bv8>, resultAddress: int, target: int) returns (ok: bool)
    requires Fits(task, result.Length) && RelativeInRange(task, resultAddress, target)
    modifies result
    ensures ok <==> IsInt32(IntPtr(wordSize, Relative(task, resultAddress, target)))
    ensures wordSize == 4 ==> ok
    ensures ok ==> result[..] == Patch(old(result[..]), task.instructionOffset + task.instructionSize - 4,
                                       LittleEndian(IntPtr(wordSize, Relative(task, resultAddress, target)), 4))
    ensures !ok ==> result[..] == old(result[..])
  {
    var v := IntPtr(wordSize, target - (resultAddress + task.instructionOffset + task.instructionSize));
    if !IsInt32(v) {
      return false;
    }
    CopyField(result, task.instructionOffset + task.instructionSize - 4, LittleEndian(v, 4));
    ok := true;
  }

  /** The `memcpy` of a patch: `field` copied over `result` from `at` on. */
  method CopyField(result: array<bv8>, at: nat, field: seq<bv8>)
    requires at + |field| <= result.Length
    modifies result
    ensures result[..] == Patch(old(result[..]), at, field)
  {
    for i := 0 to |field|
      invariant forall j :: 0 <= j < result.Length ==>
        result[j] == (if at <= j < at + i then field[j - at] else old(result[j]))
    {
      result[at + i] := field[i];
    }
    assert result[..] == Patch(old(result[..]), at, field);
  }

  /**
   * A rel32 written from the `intptr_t` distance `rel` and read back signed
   * leads from `from` to `target`: exactly on x86-64, and modulo 2^32,
   * where a 32-bit instruction pointer wraps, on a 32-bit target.
   */
  lemma Reaches(wordSize: WordSize, rel: Int64, from: int, target: int)
    requires from + rel == target && IsInt32(IntPtr(wordSize, rel))
    ensures var jump := from + Signed(LittleEndian(IntPtr(wordSize, rel), 4));
      && jump % 0x1_0000_0000 == target % 0x1_0000_0000
      && (wordSize == 8 ==> jump == target)
  {
    Int32RoundTrip(IntPtr(wordSize, rel));
    CongruentAdd(IntPtr(wordSize, rel), rel, from, 0x1_0000_0000);
  }

  /**
   * After the patch, the processor's target for the instruction, the
   * address after it plus the rel32 read signed, is the promised target
   * (on a 32-bit target, modulo 2^32).
   */
  lemma PatchedJumpReaches(wordSize: WordSize, s: seq<bv8>, task: Task, resultAddress: int, target: int)
    requires Fits(task, |s|) && RelativeInRange(task, resultAddress, target)
    requires IsInt32(IntPtr(wordSize, Relative(task, resultAddress, target)))
    ensures var end := task.instructionOffset + task.instructionSize;
      var r := Patch(s, end - 4, LittleEndian(IntPtr(wordSize, Relative(task, resultAddress, target)), 4));
      var jump := resultAddress + end + Signed(r[end - 4..end]);
      && jump % 0x1_0000_0000 == target % 0x1_0000_0000
      && (wordSize == 8 ==> jump == target)
  {
    Reaches(wordSize, Relative(task, resultAddress, target), resultAddress + task.instructionOffset + task.instructionSize, target);
  }

  /** Patching the last field of a code buffer replaces just that field. */
  lemma PatchTail(head: seq<bv8>, field: seq<bv8>, bs: seq<bv8>)
    requires |field| == |bs|
    ensures Patch(head + field, |head|, bs) == head + bs
  {
    assert (head + field)[..|head|] == head;
  }

  /**
   * A JMP or CALL appended by `unconditional` and patched by its task keeps
   * the code before it and its opcode, and transfers to the target (on a
   * 32-bit target, modulo 2^32).
   */
  lemma {:induction false} UnconditionalPatched(wordSize: WordSize, prefix: seq<bv8>, jump: bv8, promise: nat,
                                                resultAddress: int, target: int)
    requires -0x8000_0000_0000_0000 <= target - (resultAddress + |prefix| + 5) < 0x8000_0000_0000_0000
    requires IsInt32(IntPtr(wordSize, target - (resultAddress + |prefix| + 5)))
    ensures var code := prefix + UnconditionalCode(jump);
      var task := OffsetTask(promise, |prefix|, 5);
      && Fits(task, |code|)
      && var r := Patch(code, |prefix| + 1, LittleEndian(IntPtr(wordSize, Relative(task, resultAddress, target)), 4));
      && r[..|prefix|] == prefix
      && r[|prefix|] == jump
      && var destination := resultAddress + |prefix| + 5 + Signed(r[|prefix| + 1..]);
      && destination % 0x1_0000_0000 == target % 0x1_0000_0000
      && (wordSize == 8 ==> destination == target)
  {
    var task := OffsetTask(promise, |prefix|, 5);
    var rel := Relative(task, resultAddress, target);
    var field := LittleEndian(IntPtr(wordSize, rel), 4);
    Associative(prefix, [jump], LittleEndian(0, 4));
    PatchTail(prefix + [jump], LittleEndian(0, 4), field);
    var r := prefix + [jump] + field;
    assert r[..|prefix|] == prefix;
    assert r[|prefix| + 1..] == field;
    Reaches(wordSize, rel, resultAddress + |prefix| + 5, target);
  }

  /** The same for a Jcc appended by `conditional`: both opcode bytes stay. */
  lemma {:induction false} ConditionalPatched(wordSize: WordSize, prefix: seq<bv8>, condition: bv8, promise: nat,
                                              resultAddress: int, target: int)
    requires -0x8000_0000_0000_0000 <= target - (resultAddress + |prefix| + 6) < 0x8000_0000_0000_0000
    requires IsInt32(IntPtr(wordSize, target - (resultAddress + |prefix| + 6)))
    ensures var code := prefix + ConditionalCode(condition);
      var task := OffsetTask(promise, |prefix|, 6);
      && Fits(task, |code|)
      && var r := Patch(code, |prefix| + 2, LittleEndian(IntPtr(wordSize, Relative(task, resultAddress, target)), 4));
      && r[..|prefix|] == prefix
      && r[|prefix|..|prefix| + 2] == [0x0f, condition]
      && var destination := resultAddress + |prefix| + 6 + Signed(r[|prefix| + 2..]);
      && destination % 0x1_0000_0000 == target % 0x1_0000_0000
      && (wordSize == 8 ==> destination == target)
  {
    var task := OffsetTask(promise, |prefix|, 6);
    var rel := Relative(task, resultAddress, target);
    var field := LittleEndian(IntPtr(wordSize, rel), 4);
    Associative(prefix, [0x0f, condition], LittleEndian(0, 4));
    PatchTail(prefix + [0x0f, condition], LittleEndian(0, 4), field);
    var r := prefix + [0x0f, condition] + field;
    assert r[..|prefix|] == prefix;
    assert r[|prefix|..|prefix| + 2] == [0x0f, condition];
    assert r[|prefix| + 2..] == field;
    Reaches(wordSize, rel, resultAddress + |prefix| + 6, target);
  }
}
