# Avian: buffered input and x86 code emission, in Dafny

This project models two parts of the Avian Java virtual machine and proves properties of them.

**`java.io.BufferedInputStream`** is the class library's buffering decorator. It keeps a fixed-size `buffer` and two cursors in front of an `InputStream`:
- `position`, the next byte to hand out;
- `limit`, the number of valid bytes, or -1 after the source reported end of data.

The class keeps its source form: fields updated in place, the buffer an `array`, and `System.arraycopy` a loop. The underlying stream is a scripted source. Each read answers either end of data (-1) or between one and the requested number of bytes. A source that answers 0 to a non-empty request is excluded (`WellFormed`). With this script the proofs state what `read()` and `read(b, offset, length)` hand to their callers, in order, and which requests reach the source. `BufferedInputClients` drives the class through whole read sequences.

**The x86 back end (`src/x86.cpp`)** has four parts:
- **Byte functions** (`X86Bytes`, `X86Encoding`, `X86Instructions`). For each emitter, a function gives the bytes it appends:
  - ModR/M, SIB and displacement (`encode`);
  - the REX prefix;
  - PUSH/POP, MOV/MOVSX/MOVSXD/CDQ, SUB/SBB and JMP/Jcc.
- **Decoders.** They read those bytes back the way the Intel 64 and IA-32 Architectures Software Developer's Manual, Volume 2, lays them out: section 2.1.5 for addresses, section 2.2.1 for REX, chapters 3 and 4 for opcodes. Round-trip lemmas tie each encoder to its decoder.
- **`X86Assembler.Context`.** This is the assembler's context: `code` is a byte sequence that the emitter methods extend step by step, some of them recursively. `tasks` is the list of pending rel32 patches. `RunOffsetTask` patches a copied code array in place.
- **`X86Architecture`.** The dispatch-table index arithmetic, the register conventions and frame alignment.

Model choices:
- `BytesPerWord` is a parameter, `wordSize`, of 4 or 8.
- Integers are unbounded, and every truncation the source relies on is written out:
  - `int8_t`/`int32_t` casts;
  - the `intptr_t` that `isInt8` and `isInt32` take (`IntPtr`), which on a 32-bit target cuts an `int64_t` constant to its low word;
  - the `intptr_t` distance `OffsetTask::run` computes (`IntPtr` again), which on a 32-bit target wraps to the word, so that there the rel32 always fits and the jump lands on the target modulo 2^32;
  - `uint8_t` appends;
  - the unsigned `alignFrameSize`.
- Three things come from headers that are not part of this model:
  - `log(scale)` maps 1, 2, 4, 8 to 0..3;
  - `append4`/`appendAddress` store little-endian;
  - `ceiling(n, d)` is `(n + d - 1) / d`.

Where the source calls `abort` or fails an `expect`, the model returns `false` or `None` instead.

## Model

| member | source | states |
|---|---|---|
| BufferedInput.BufferedInputStream.constructor | classpath/java/io/BufferedInputStream.java:9-12 | a new stream has a fresh buffer of the requested size, position 0, limit 0 and nothing pending |
| BufferedInput.BufferedInputStream.WithDefaultSize | classpath/java/io/BufferedInputStream.java:14-16 | the one-argument constructor gives a 32-byte buffer, position 0, limit 0 |
| BufferedInput.BufferedInputStream.Fill | classpath/java/io/BufferedInputStream.java:18-21 | one source read of the whole buffer; position becomes 0 and limit the read's answer, which is -1 or 1..buffer length; the buffer's prefix holds the bytes served; the class invariant `-1 <= limit <= buffer.Length` and FIFO accounting is kept |
| BufferedInput.BufferedInputStream.Read | classpath/java/io/BufferedInputStream.java:23-32 | with bytes buffered: no source call, returns the sign-extended byte at position, position advances by one, buffer and limit unchanged; otherwise exactly one refill: -1 with limit -1 on end of data (queried again next time), else the first new byte and position 1 |
| BufferedInput.BufferedInputStream.Advance | classpath/java/io/BufferedInputStream.java:31 | moving position by n hands the next n buffered bytes to the caller, in order |
| BufferedInput.BufferedInputStream.Drain | classpath/java/io/BufferedInputStream.java:37-49 | copies min(limit - position, length) buffered bytes in order to b at offset, advances position by as many, leaves limit alone, and leaves nothing pending when fewer than length were copied |
| BufferedInput.BufferedInputStream.Forward | classpath/java/io/BufferedInputStream.java:51-52 | with the buffer drained, exactly one source read of `length` bytes straight into b at offset |
| BufferedInput.BufferedInputStream.ReadInto | classpath/java/io/BufferedInputStream.java:34-63 | buffered bytes first, then at most one direct read just after them; returns -1 iff length > 0, nothing was buffered and the source reported end of data, else copied + fetched, at most length; limit never changes; length 0 returns 0 with no source call |
| BufferedInput.BufferedInputStream.Close | classpath/java/io/BufferedInputStream.java:65-67 | delegates exactly once to the source and changes nothing else |
| BufferedInput.ArrayCopy | classpath/java/io/BufferedInputStream.java:43 | `System.arraycopy` between distinct arrays: the destination is the old one with the source range written at dstPos |
| BufferedInput.ScriptedSource.Read | classpath/java/io/BufferedInputStream.java:20 | the InputStream the stream reads: answers -1 or 1..len bytes from its script, records the request, writes the served bytes at off |
| BufferedInput.Answer | classpath/java/io/BufferedInputStream.java:52 | a read of 0 bytes answers 0, any other answers -1 or between 1 and the length asked |
| BufferedInput.ReadConservesBytes | classpath/java/io/BufferedInputStream.java:20 | one source read neither loses nor reorders the bytes the source will ever serve |
| BufferedInput.SpliceTwice | classpath/java/io/BufferedInputStream.java:43-52 | the direct read lands right after the copied prefix: two adjacent writes are one write of both pieces |
| BufferedInput.SignExtend | classpath/java/io/BufferedInputStream.java:31 | widening a byte as written: -128..127, negative exactly for 0x80..0xFF |
| BufferedInput.SignExtendCollidesWithEndOfStream | classpath/java/io/BufferedInputStream.java:31 | the byte 0xFF comes back as -1, the end-of-data value |
| BufferedInput.BufferedInputStream.ReadUnsigned | classpath/java/io/BufferedInputStream.java:23-32 | corrected read(): the same buffer and source steps as Read, but -1 comes back exactly at end of data and otherwise the next byte as 0..255 |
| BufferedInput.UnsignedByteInjective | classpath/java/io/BufferedInputStream.java:31 | unsigned widening keeps bytes apart, never yields -1 and keeps the low eight bits of the sign-extended value |
| BufferedInputClients.ReadEachByte | classpath/java/io/BufferedInputStream.java:23-32 | reading a run byte by byte returns every byte sign-extended in order, then -1; the source is asked for a whole buffer each time, ceiling(n / capacity) + 1 times |
| BufferedInputClients.ReadNextByte | classpath/java/io/BufferedInputStream.java:23-32 | each read() while bytes remain returns the next byte of the run |
| BufferedInputClients.ReadPastEnd | classpath/java/io/BufferedInputStream.java:24-29 | after the run, read() returns -1 after one more full-buffer request |
| BufferedInputClients.RefillStep | classpath/java/io/BufferedInputStream.java:24-31 | a refill serves the next buffer-full of the run, whose first byte goes to the caller |
| BufferedInputClients.BulkReadFresh | classpath/java/io/BufferedInputStream.java:34-63 | a bulk read with nothing buffered is one direct source read of the whole length, or no read for length 0 |
| BufferedInputClients.ReadAtOnce | classpath/java/io/BufferedInputStream.java:34-63 | on a new stream a bulk read bypasses the buffer: one request for all `length` bytes, answered with min(length, available) bytes, or -1 on an empty source |
| X86Bytes.Int8Cast | src/x86.cpp:37-41 | `static_cast<int8_t>` lands in -128..127 and agrees with v modulo 256 |
| X86Bytes.Int32Cast | src/x86.cpp:43-47 | `static_cast<int32_t>` lands in the int32 range and agrees with v modulo 2^32 |
| X86Bytes.IsInt8 | src/x86.cpp:37-41 | true iff -128 <= v <= 127 |
| X86Bytes.IsInt32 | src/x86.cpp:43-47 | true iff v lies in the signed 32-bit range |
| X86Bytes.LowByteValue | src/x86.cpp:246-252 | appending an int as a byte keeps v modulo 256 |
| X86Bytes.LittleEndianUnsigned | src/x86.cpp:251 | n bytes stored little-endian read back as v modulo 256^n |
| X86Bytes.LittleEndianCongruent | src/x86.cpp:623-629 | the bytes `append` and `append4` store depend only on the value modulo 256^n |
| X86Bytes.LittleEndianRoundTrip | src/x86.cpp:251 | any value in range of n signed bytes reads back unchanged |
| X86Bytes.Int32RoundTrip | src/x86.cpp:178-180 | an int32 written into four bytes reads back as itself |
| X86Encoding.IntPtr | src/x86.cpp:37-47 | the `intptr_t` argument of `isInt8`/`isInt32`: the constant itself on x86-64, on a 32-bit target the int32 equal to it modulo 2^32 |
| X86Encoding.IntPtrWord | src/x86.cpp:37-47 | on a 32-bit target constants equal modulo 2^32 reach `isInt8` as the same value, and an int32 as itself |
| X86Encoding.IntPtrInt8 | src/x86.cpp:37-41 | on a 32-bit target `isInt8` accepts exactly the constants in -0x80..0x7F modulo 2^32 |
| X86Encoding.IntPtrBytes | src/x86.cpp:623-629 | the immediate bytes of the constant and of its `intptr_t` are the same |
| X86Encoding.Log | src/x86.cpp:243 | the scale's logarithm: below 4, and 2^log == scale |
| X86Encoding.FieldsRoundTrip | src/x86.cpp:236-243 | `width | (a << 3) | b` keeps its three fields apart for the eight classic registers |
| X86Encoding.Rex | src/x86.cpp:255-261 | one prefix byte on x86-64, none on a 32-bit target |
| X86Encoding.RexFields | src/x86.cpp:255-267 | the prefix has REX's 0100 nibble, W exactly for mask 0x48, B exactly for r8..r15 |
| X86Encoding.ModeMatchesDisplacement | src/x86.cpp:226-252 | the mod bits and displacement width agree: 0 bytes for a zero displacement off a base other than rbp, 1 for an int8, 4 otherwise; never the register form |
| X86Encoding.DisplacementRoundTrip | src/x86.cpp:246-252 | the one- or four-byte displacement reads back as written |
| X86Encoding.AddressRoundTrip | src/x86.cpp:220-253 | the ModR/M, SIB and displacement decode back to the reg field, base, index, scale and displacement; SIB is present iff there is an index or the base is rsp (0x24) |
| X86Encoding.OpcodeBytesValue | src/x86.cpp:280-289 | `encode2`'s opcode bytes are the `uint16_t`, high byte first |
| X86Instructions.JumpLayout | src/x86.cpp:297-314 | JMP/CALL take 5 bytes and Jcc 6, the opcode bytes first and a zero rel32 last |
| X86Instructions.StackByte | src/x86.cpp:412-443 | `0x50 | r` and `0x58 | r` are PUSH and POP of r |
| X86Instructions.PushOrder | src/x86.cpp:412-423 | pushR pushes one register, or on a 32-bit target an 8-byte value's high register then its low one |
| X86Instructions.PopReversesPush | src/x86.cpp:429-443 | popR pops the registers in the reverse order of pushR |
| X86Instructions.PopSignExtends | src/x86.cpp:436-441 | on x86-64 a 4-byte pop is POP followed by MOVSXD of the register into itself |
| X86Instructions.DirectRoundTrip | src/x86.cpp:464-499 | a register-direct ModR/M after an optional REX.W and the opcode decodes to its two registers |
| X86Instructions.MoveToSelfIsEmpty | src/x86.cpp:496-500 | a 4- or 8-byte move of a register to itself emits nothing |
| X86Instructions.MoveBetweenRegisters | src/x86.cpp:495-500 | otherwise it is MOV 89 /r from a to b, REX.W on x86-64 |
| X86Instructions.SignExtendingMoves | src/x86.cpp:457-484 | 1-, 2- and 4-to-8-byte moves are MOVSX 0F BE, MOVSX 0F BF and MOVSXD 63 into b |
| X86Instructions.WidenIntoPair | src/x86.cpp:485-493 | on a 32-bit target a 4-to-8-byte move into edx:eax is a move into eax then CDQ, or CDQ alone from eax |
| X86Instructions.SubtractBetweenRegisters | src/x86.cpp:687-704 | subtractRR of one word is SUB 29 /r |
| X86Instructions.SubtractBorrowBetweenRegisters | src/x86.cpp:675-685 | subtractBorrowRR is SBB 19 /r |
| X86Instructions.SubtractPair | src/x86.cpp:691-697 | an 8-byte subtraction on a 32-bit target is SUB of the low registers then SBB of the high ones |
| X86Instructions.DecodeGroupOp | src/x86.cpp:623-626 | an 83 or 81 instruction with a register operand reads back as its extension, register and signed immediate |
| X86Instructions.SubtractImmediateRoundTrip | src/x86.cpp:657-664 | an int8 constant gives `83 /5 ib` (3 bytes), any other int32 `81 /5 id` (6 bytes), decoding to SUB of v |
| X86Instructions.SubtractBorrowConstantCode | src/x86.cpp:615-630 | subtractBorrowCR emits `83 /3 ib` exactly when the constant is in -128..127 on x86-64, or is in -0x80..0x7F modulo 2^32 on a 32-bit target; otherwise it aborts |
| X86Instructions.SubtractBorrowImmediateRoundTrip | src/x86.cpp:615-630 | subtractBorrowCR of a constant whose `intptr_t` is int8 is `83 /3 ib`, decoding to SBB of that `intptr_t` |
| X86Instructions.SubtractConstantCode | src/x86.cpp:636-673 | subtractCR aborts exactly for an 8-byte constant on a 32-bit target whose `v >> 32` lies outside int8; every one-word subtraction assembles |
| X86Instructions.SubtractConstantForms | src/x86.cpp:642-670 | subtractCR of one word emits nothing for 0, else an optional REX.W and a SUB of the constant's `intptr_t` (imm8 or imm32); on a 32-bit target never the temporary-register path |
| X86Instructions.DecodeThen | src/x86.cpp:653-654 | decoding two instructions in a row gives the first then the rest |
| X86Instructions.RexOpcodeRegister | src/x86.cpp:604-605 | `rex(0x48, r)` and `0xb8 | r` together name register r, r8..r15 included |
| X86Instructions.MoveConstantWord | src/x86.cpp:603-607 | on x86-64 moveCR is REX.W B8+r and an imm64 that reads back as v |
| X86Instructions.ShortMoveConstant | src/x86.cpp:603-607 | on a 32-bit target a one-word moveCR is B8+r and four bytes holding v modulo 2^32 |
| X86Instructions.HalvesUnsigned | src/x86.cpp:593-596 | the halves `(v >> 32) & 0xFFFFFFFF` and `v & 0xFFFFFFFF` are unsigned 32-bit and make up v modulo 2^64 |
| X86Instructions.MoveConstantPair | src/x86.cpp:590-602 | an 8-byte moveCR on a 32-bit target loads the low half into the low register and the high half into the high one, together v modulo 2^64 |
| X86Instructions.HighWord | src/x86.cpp:645-654 | the high half `(v >> 32) & 0xFFFFFFFF` reaches `isInt8` as `v >> 32`, sign-extended |
| X86Instructions.LowWord | src/x86.cpp:648-653 | the low half `v & 0xFFFFFFFF` reaches `isInt8` as `static_cast<int32_t>(v)` |
| X86Instructions.SubtractPairLowZeroBorrowsAlone | src/x86.cpp:643-654 | as written, an 8-byte constant on a 32-bit target whose low half is 0 (2^32, say) emits only SBB of the high register by `v >> 32` |
| X86Instructions.SignedHalves | src/x86.cpp:645-649 | the signed low half and `v >> 32` make up v exactly |
| X86Instructions.SubtractPairAsWritten | src/x86.cpp:643-654 | whenever the low half is not 0, the 32-bit pair subtraction as written equals the corrected SUB-then-SBB form, aborts included |
| X86Instructions.SubtractPairConstantFixed | src/x86.cpp:645-654 | corrected: SUB of the signed low half then SBB of `v >> 32`, available iff that fits in int8 |
| X86Assembler.Context.Rex | src/x86.cpp:255-261 | appends exactly `Rex(wordSize, mask, r)` |
| X86Assembler.Context.RexW | src/x86.cpp:263-267 | appends exactly REX.W (x86-64) or nothing |
| X86Assembler.Context.Encode | src/x86.cpp:220-253 | appends the opcode bytes then exactly the address that AddressRoundTrip decodes |
| X86Assembler.Context.EncodeMemory | src/x86.cpp:269-278 | appends an optional REX.W, the one-byte opcode and the memory operand |
| X86Assembler.Context.Encode2 | src/x86.cpp:280-289 | appends an optional REX.W, the two opcode bytes and the memory operand |
| X86Assembler.Context.PushR | src/x86.cpp:412-423 | appends exactly PushCode, whose order PushOrder states |
| X86Assembler.Context.PopR | src/x86.cpp:429-443 | appends exactly PopCode, the reverse of the push |
| X86Assembler.Context.MoveRR | src/x86.cpp:445-505 | appends exactly MoveCode, read back by the move lemmas |
| X86Assembler.Context.SubtractBorrowRR | src/x86.cpp:675-685 | appends SBB b, a |
| X86Assembler.Context.SubtractRR | src/x86.cpp:687-704 | appends SUB b, a, or the SUB/SBB pair on a 32-bit target |
| X86Assembler.Context.MoveCR | src/x86.cpp:584-613 | appends exactly MoveConstantCode for a resolved constant |
| X86Assembler.Context.SubtractBorrowCR | src/x86.cpp:615-630 | appends `83 /3 ib` when the constant as an `intptr_t` is int8, and reports the abort (nothing appended) otherwise |
| X86Assembler.Context.SubtractCR | src/x86.cpp:636-673 | succeeds iff SubtractConstantCode is defined and then appends exactly it; on an abort only appends |
| X86Assembler.Context.Unconditional | src/x86.cpp:297-304 | prepends a task for a 5-byte instruction at the old code length, appends the opcode and a zero rel32, and keeps every task inside the code |
| X86Assembler.Context.Conditional | src/x86.cpp:306-314 | the same for the 6-byte `0F cc` form |
| X86Assembler.End | src/x86.cpp:188-194 | no recorded task's instruction reaches beyond End |
| X86Assembler.EndBoundsTasks | src/x86.cpp:172-181 | the tasks reach no further than the code iff every task's rel32 lies inside it |
| X86Assembler.Patch | src/x86.cpp:180 | the `memcpy` overwrites exactly the given bytes and keeps every other one |
| X86Assembler.RunOffsetTask | src/x86.cpp:172-181 | succeeds iff target - (instruction start + size), taken as an `intptr_t`, fits in int32, which always holds on a 32-bit target; then writes it little-endian into the last four bytes of the instruction; on failure the code is unchanged |
| X86Assembler.Reaches | src/x86.cpp:172-181 | a rel32 written from the `intptr_t` distance and read back signed leads to the target, exactly on x86-64 and modulo 2^32 on a 32-bit target |
| X86Assembler.PatchedJumpReaches | src/x86.cpp:172-181 | after the patch, the address after the instruction plus the rel32 is the target on x86-64, and the target modulo 2^32 on a 32-bit target |
| X86Assembler.UnconditionalPatched | src/x86.cpp:297-304 | a patched JMP/CALL keeps the earlier code and its opcode and transfers to the target (modulo 2^32 on a 32-bit target) |
| X86Assembler.ConditionalPatched | src/x86.cpp:306-314 | a patched Jcc keeps the earlier code and both opcode bytes and transfers to the target (modulo 2^32 on a 32-bit target) |
| X86Architecture.UnaryIndex | src/x86.cpp:316-320 | the unary slot: operation plus `UnaryOperationCount` times the operand type |
| X86Architecture.BinaryIndex | src/x86.cpp:322-331 | the binary slot in the table shared by the binary and ternary operations |
| X86Architecture.TernaryIndex | src/x86.cpp:333-342 | the ternary slot as written, the same arithmetic as the binary one |
| X86Architecture.UnaryIndexInTable | src/x86.cpp:316-320 | a unary slot is below `UnaryOperationCount * OperandTypeCount` and gives back its operation and operand type |
| X86Architecture.BinaryIndexInTable | src/x86.cpp:322-331 | a binary slot is below `(Binary + Ternary) * OperandTypeCount^2` and gives back its operation and both operand types |
| X86Architecture.TernaryIndexCollides | src/x86.cpp:333-342 | as written, ternary operation t has binary operation t's slot |
| X86Architecture.TernaryIndexFixedSeparate | src/x86.cpp:78-83 | corrected: a ternary slot lies in the shared table after the binary columns, gives back its operands and is no binary slot |
| X86Architecture.Reserved | src/x86.cpp:762-772 | the `reserved` switch on rbp, rsp and rbx |
| X86Architecture.ReservedRegisters | src/x86.cpp:750-776 | exactly rbp, rsp and rbx are reserved, including the stack and thread registers; the return registers are not |
| X86Architecture.ArgumentRegister | src/x86.cpp:782-801 | a register exactly for indices below `argumentRegisterCount`, never a reserved one, the stack or the thread register; an abort otherwise |
| X86Architecture.ArgumentRegisters | src/x86.cpp:778-801 | indices 0..5 give rdi, rsi, rdx, rcx, r8, r9 (System V AMD64 ABI section 3.2.3), all distinct and unreserved; every other index aborts |
| X86Architecture.AlignFrameSize | src/x86.cpp:813-816 | an `unsigned` multiple of 16 / BytesPerWord, whether or not the 32-bit sum wraps |
| X86Architecture.AlignFrameSizeLeast | src/x86.cpp:813-816 | the least multiple of 16 / BytesPerWord that is at least n + 2, so the frame is a multiple of 16 bytes |

## Left out

- BufferedInput.BufferedInputStream.Read: keeps the sign extension of `buffer[position++]` as written; the corrected ReadUnsigned is stated beside it (see Findings).
- BufferedInput.BufferedInputStream.constructor: requires size > 0. Java accepts size 0, and the first read() then fails with ArrayIndexOutOfBoundsException at `buffer[0]`; a negative size fails at once with NegativeArraySizeException. Neither exception is modelled.
- IOException propagation and the real InputStream: the source is a script of answers, and one answering 0 to a non-empty request is excluded.
- The bounds exceptions of `System.arraycopy` and of `read(b, offset, length)`: preconditions on offset and length instead.
- `populateTables` and the `apply` overloads: function-pointer tables filled by `reinterpret_cast`. Only the index arithmetic that places the handlers is modelled.
- `writeTo`, `updateCall`, `frameIp`, `nextFrame`, `popReturnAddress`, `pushFrame` and `acquire`/`release`: raw memory, live stacks, varargs and reference counting. `writeTo` running the tasks is RunOffsetTask applied to each task.
- `moveMR`, `moveRM`, `moveCR` with an unresolved promise (`ImmediateTask`), and the other emitters of `src/x86.cpp` are not part of this model. X86Assembler.Context.MoveCR takes the constant's value as already resolved.
- Promise resolution and `client->acquireTemporary`/`releaseTemporary`: the resolved target and the temporary register are parameters.
- X86Assembler.Context.SubtractCR: on an abort it states only that code was appended to, because the source stops the process there.
- X86Assembler.Context.Encode: `encode` itself emits no REX.R, REX.X or REX.B. A register of 8 or above spills its fourth bit into the neighbouring ModR/M or SIB field through `a << 3` and `| b`, exactly as in the source, so decoding is proved only for registers below 8 (`registerCount` is 8).
- X86Assembler.Context: the emitters do not carry the task invariant themselves. They keep `tasks` and only append to `code`, so `Valid()` carries over; Unconditional and Conditional require and re-establish it.
- X86Architecture.AlignFrameSizeLeast: proved only when n + 2 + 16 / BytesPerWord - 1 does not wrap around 32 bits; the function itself models the wrap.
- X86Architecture: the operation and operand-type counts come from assembler.h, which is not part of this model. They are parameters, and each enum numbers from 0.
- Pointer widths: resultAddress and target are unbounded integers, and RunOffsetTask requires their distance to be an `int64_t`. On x86-64 a pointer difference that overflowed would be undefined behaviour in the source; on a 32-bit target both addresses lie below 2^32, so the distance is well inside that range before it wraps to the word.

## Findings

| source | as written | input that shows it | evidently intended | confidence | as-written member | corrected member |
|---|---|---|---|---|---|---|
| classpath/java/io/BufferedInputStream.java:31 | `buffer[position++]` widens a signed byte | a source whose next byte is 0xFF: read() returns -1, the end-of-data value | InputStream.read returns the byte as 0..255 | high; not executed | BufferedInput.SignExtendCollidesWithEndOfStream | BufferedInput.BufferedInputStream.ReadUnsigned |
| src/x86.cpp:643-654 | a zero low half emits no SUB (the `if (v)` test), so the SBB consumes whatever carry came before | v = 0x100000000: only `SBB high, 1` is emitted; for every other low half SubtractPairAsWritten shows the source already emits the corrected form | SUB of the low half (which clears the borrow), then SBB | medium; not executed | X86Instructions.SubtractPairLowZeroBorrowsAlone | X86Instructions.SubtractPairConstantFixed |
| src/x86.cpp:333-342 | the ternary index has no `BinaryOperationCount +` offset although the shared table is sized for both | ternary operation 0 with operand types 0, 0 gets slot 0, binary operation 0's handler | ternary slots after the binary columns | medium (depends on assembler.h numbering both enums from 0); not executed | X86Architecture.TernaryIndexCollides | X86Architecture.TernaryIndexFixedSeparate |
