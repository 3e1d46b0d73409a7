/**
 * The pure parts of the x86 `MyArchitecture` and `ArchitectureContext` of
 * src/x86.cpp: where an operation's handler sits in the dispatch tables,
 * which registers are reserved or carry arguments, and how a frame is
 * rounded up to keep the stack 16-byte aligned.
 *
 * The operation enums and the operand type enum live in assembler.h, which
 * is not part of this model: their counts are parameters, and every enum is
 * taken to number its members from 0, as a C++ enum does by default.
 */
module X86Architecture {
  import opened Arithmetic
  import opened X86Encoding

  // Dispatch tables.

  /** `index(UnaryOperation, OperandType)`. */
  function UnaryIndex(unaryCount: nat, operation: nat, operand: nat): nat
  {
    operation + unaryCount * operand
  }

  /** `index(BinaryOperation, OperandType, OperandType)`: the table is shared with the ternary operations. */
  function BinaryIndex(binaryCount: nat, ternaryCount: nat, operandCount: nat, operation: nat, operand1: nat, operand2: nat): nat
  {
    operation + (binaryCount + ternaryCount) * operand1 + (binaryCount + ternaryCount) * operandCount * operand2
  }

  /** `index(TernaryOperation, OperandType, OperandType)`, as written: the same arithmetic as the binary one. */
  function TernaryIndex(binaryCount: nat, ternaryCount: nat, operandCount: nat, operation: nat, operand1: nat, operand2: nat): nat
  {
    operation + (binaryCount + ternaryCount) * operand1 + (binaryCount + ternaryCount) * operandCount * operand2
  }

  /** The ternary slot with the ternary operations placed after the binary ones in each row. */
  function TernaryIndexFixed(binaryCount: nat, ternaryCount: nat, operandCount: nat, operation: nat, operand1: nat, operand2: nat): nat
  {
    binaryCount + operation + (binaryCount + ternaryCount) * operand1 + (binaryCount + ternaryCount) * operandCount * operand2
  }

  /** Multiplying by the same number keeps a weak order. */
  lemma MulMonotone(c: nat, a: nat, b: nat)
    requires a <= b
    ensures c * a <= c * b
  {
    assert c * b == c * a + c * (b - a);
  }

  /** A slot is a row number times the row width plus a column. */
  lemma SlotAsRow(width: nat, operandCount: nat, column: nat, operand1: nat, operand2: nat)
    ensures column + width * operand1 + width * operandCount * operand2
         == (operand1 + operandCount * operand2) * width + column
  {
    assert width * operandCount * operand2 == (operandCount * operand2) * width;
    assert (operand1 + operandCount * operand2) * width == operand1 * width + (operandCount * operand2) * width;
  }

  /** The slot of the last column in the last row is the last of the table. */
  lemma {:induction false} SlotBound(width: nat, row: nat, rows: nat, column: nat)
    requires column < width && row < rows
    ensures row * width + column < width * rows
  {
    assert (row + 1) * width == row * width + width;
    MulMonotone(width, row + 1, rows);
    assert width * (row + 1) == (row + 1) * width;
  }

  /** With both operand types in range, the row number is below the number of rows. */
  lemma {:induction false} RowBound(operandCount: nat, operand1: nat, operand2: nat)
    requires operand1 < operandCount && operand2 < operandCount
    ensures operand1 + operandCount * operand2 < operandCount * operandCount
  {
    assert operandCount * (operand2 + 1) == operandCount * operand2 + operandCount;
    MulMonotone(operandCount, operand2 + 1, operandCount);
  }

  /** A slot of a table with rows of `width` entries, `operandCount` rows per block, read back. */
  lemma {:induction false} SlotDecode(width: nat, operandCount: nat, column: nat, operand1: nat, operand2: nat)
    requires column < width && operand1 < operandCount
    ensures var slot := column + width * operand1 + width * operandCount * operand2;
      && slot % width == column
      && (slot / width) % operandCount == operand1
      && slot / (width * operandCount) == operand2
  {
    var slot := column + width * operand1 + width * operandCount * operand2;
    var row := operand1 + operandCount * operand2;
    SlotAsRow(width, operandCount, column, operand1, operand2);
    DivModUnique(slot, width, row, column);
    assert row == operand2 * operandCount + operand1;
    DivModUnique(row, operandCount, operand2, operand1);
    ModSplit(slot, width, operandCount);
  }

  /** A slot with both operand types in range lies inside a table of `width * operandCount * operandCount` entries. */
  lemma {:induction false} SlotInTable(width: nat, operandCount: nat, column: nat, operand1: nat, operand2: nat)
    requires column < width && operand1 < operandCount && operand2 < operandCount
    ensures column + width * operand1 + width * operandCount * operand2 < width * operandCount * operandCount
  {
    var row := operand1 + operandCount * operand2;
    SlotAsRow(width, operandCount, column, operand1, operand2);
    RowBound(operandCount, operand1, operand2);
    SlotBound(width, row, operandCount * operandCount, column);
    assert width * (operandCount * operandCount) == width * operandCount * operandCount;
  }

  /**
   * A unary slot lies inside `unaryOperations`, and the operation and the
   * operand type can be read back from it, so distinct pairs never share one.
   */
  lemma {:induction false} UnaryIndexInTable(unaryCount: nat, operandCount: nat, operation: nat, operand: nat)
    requires operation < unaryCount && operand < operandCount
    ensures var slot := UnaryIndex(unaryCount, operation, operand);
      && slot < unaryCount * operandCount
      && slot % unaryCount == operation
      && slot / unaryCount == operand
  {
    var slot := UnaryIndex(unaryCount, operation, operand);
    assert slot == operand * unaryCount + operation;
    DivModUnique(slot, unaryCount, operand, operation);
    SlotBound(unaryCount, operand, operandCount, operation);
  }

  /**
   * A binary slot lies inside `binaryOperations`, and the operation and both
   * operand types can be read back from it.
   */
  lemma BinaryIndexInTable(binaryCount: nat, ternaryCount: nat, operandCount: nat, operation: nat, operand1: nat, operand2: nat)
    requires operation < binaryCount && operand1 < operandCount && operand2 < operandCount
    ensures var slot := BinaryIndex(binaryCount, ternaryCount, operandCount, operation, operand1, operand2);
      var width := binaryCount + ternaryCount;
      && slot < width * operandCount * operandCount
      && slot % width == operation
      && (slot / width) % operandCount == operand1
      && slot / (width * operandCount) == operand2
  {
    SlotDecode(binaryCount + ternaryCount, operandCount, operation, operand1, operand2);
    SlotInTable(binaryCount + ternaryCount, operandCount, operation, operand1, operand2);
  }

  /**
   * As written, ternary operation t lands in the slot of binary operation t
   * with the same operand types, whenever both enums have a member t.
   */
  lemma TernaryIndexCollides(binaryCount: nat, ternaryCount: nat, operandCount: nat, operation: nat, operand1: nat, operand2: nat)
    requires operation < binaryCount && operation < ternaryCount
    ensures TernaryIndex(binaryCount, ternaryCount, operandCount, operation, operand1, operand2)
         == BinaryIndex(binaryCount, ternaryCount, operandCount, operation, operand1, operand2)
  {
  }

  /**
   * With the offset, a ternary slot lies inside the shared table, reads back
   * as its operation and operand types, and is the slot of no binary operation.
   */
  lemma {:induction false} TernaryIndexFixedSeparate(binaryCount: nat, ternaryCount: nat, operandCount: nat,
                                                     operation: nat, operand1: nat, operand2: nat)
    requires operation < ternaryCount && operand1 < operandCount && operand2 < operandCount
    ensures var slot := TernaryIndexFixed(binaryCount, ternaryCount, operandCount, operation, operand1, operand2);
      var width := binaryCount + ternaryCount;
      && slot < width * operandCount * operandCount
      && slot % width == binaryCount + operation
      && (slot / width) % operandCount == operand1
      && slot / (width * operandCount) == operand2
      && forall b: nat, p1: nat, p2: nat :: b < binaryCount ==>
           BinaryIndex(binaryCount, ternaryCount, operandCount, b, p1, p2) != slot
  {
    var width := binaryCount + ternaryCount;
    SlotDecode(width, operandCount, binaryCount + operation, operand1, operand2);
    SlotInTable(width, operandCount, binaryCount + operation, operand1, operand2);
    forall b: nat, p1: nat, p2: nat | b < binaryCount
      ensures BinaryIndex(binaryCount, ternaryCount, operandCount, b, p1, p2)
           != TernaryIndexFixed(binaryCount, ternaryCount, operandCount, operation, operand1, operand2)
    {
      BinaryColumn(width, operandCount, b, p1, p2);
    }
  }

  /** Whatever the operand types, a binary slot's column is its operation. */
  lemma BinaryColumn(width: nat, operandCount: nat, column: nat, operand1: nat, operand2: nat)
    requires column < width
    ensures (column + width * operand1 + width * operandCount * operand2) % width == column
  {
    SlotAsRow(width, operandCount, column, operand1, operand2);
    DivModUnique(column + width * operand1 + width * operandCount * operand2, width, operand1 + operandCount * operand2, column);
  }

  // Registers.

  /** `registerCount`: only the eight classic registers are handed out. */
  const RegisterCount := 8

  /** `stack()`, `thread()` and `returnLow()`. */
  const Stack := Rsp
  const Thread := Rbx
  const ReturnLow := Rax

  /** `returnHigh()`: the high half of a two-word result, in edx on a 32-bit target. */
  function ReturnHigh(wordSize: WordSize): int
  {
    if wordSize == 4 then Rdx else NoRegister
  }

  /** `reserved`: the frame, stack and thread registers. */
  predicate Reserved(register: int)
  {
    match register
    case 5 => true
    case 4 => true
    case 3 => true
    case _ => false
  }

  /**
   * Exactly rbp, rsp and rbx are reserved: the stack and thread registers
   * among them, the return registers not, and of the eight registers handed
   * out only rax, rcx, rdx, rsi and rdi remain for values.
   */
  lemma ReservedRegisters(wordSize: WordSize)
    ensures forall r :: Reserved(r) <==> r == Rbp || r == Rsp || r == Rbx
    ensures Reserved(Stack) && Reserved(Thread)
    ensures !Reserved(ReturnLow) && !Reserved(ReturnHigh(wordSize))
    ensures forall r :: 0 <= r < RegisterCount && !Reserved(r) ==> r in {Rax, Rcx, Rdx, Rsi, Rdi}
  {
  }

  /** `argumentRegisterCount`: none on a 32-bit target, six on x86-64. */
  function ArgumentRegisterCount(wordSize: WordSize): nat
  {
    if wordSize == 4 then 0 else 6
  }

  /** `argumentRegister` on x86-64: None where the source aborts, which is past the last argument register. */
  function ArgumentRegister(index: nat): (r: Option<Reg>)
    ensures r.Some? <==> index < ArgumentRegisterCount(8)
    ensures r.Some? ==> !Reserved(r.value) && r.value != Stack && r.value != Thread
  {
    match index
    case 0 => Some(Rdi)
    case 1 => Some(Rsi)
    case 2 => Some(Rdx)
    case 3 => Some(Rcx)
    case 4 => Some(R8)
    case 5 => Some(R9)
    case _ => None
  }

  /**
   * The integer argument registers of section 3.2.3 of the System V AMD64
   * ABI, in order: an index has a register exactly when it is below
   * `argumentRegisterCount`, the registers are pairwise distinct, and none
   * of them is reserved.
   */
  lemma ArgumentRegisters()
    ensures forall i: nat :: ArgumentRegister(i).Some? <==> i < ArgumentRegisterCount(8)
    ensures forall i: nat, j: nat :: i < j < ArgumentRegisterCount(8) ==> ArgumentRegister(i) != ArgumentRegister(j)
    ensures forall i: nat :: i < ArgumentRegisterCount(8) ==> !Reserved(ArgumentRegister(i).value)
    ensures seq(6, i requires 0 <= i < 6 => ArgumentRegister(i).value) == [Rdi, Rsi, Rdx, Rcx, R8, R9]
  {
  }

  // Frames.

  /** An `unsigned` holds its value modulo 2^32. */
  function U32(v: int): int
  {
    v % 0x1_0000_0000
  }

  /**
   * `alignFrameSize`: the frame plus its two header words, rounded up to a
   * multiple of 16 / BytesPerWord words, in 32-bit unsigned arithmetic and
   * with the runtime's `ceiling(n, d)` being `(n + d - 1) / d`. Even when
   * the sum wraps, the result is an `unsigned` multiple of the alignment.
   */
  function AlignFrameSize(wordSize: WordSize, sizeInWords: nat): (r: int)
    requires sizeInWords < 0x1_0000_0000
    ensures 0 <= r < 0x1_0000_0000 && r % (16 / wordSize) == 0
  {
    var alignment := 16 / wordSize;
    var k := U32(U32(sizeInWords + 2) + alignment - 1) / alignment;
    assert k * alignment <= U32(U32(sizeInWords + 2) + alignment - 1);
    DivModUnique(k * alignment, 0x1_0000_0000, 0, k * alignment);
    DivModUnique(k * alignment, alignment, k, 0);
    U32(k * alignment)
  }

  /**
   * Unless the sum wraps around 32 bits, the aligned size is the least
   * multiple of the alignment that holds the frame and its header, and the
   * frame then takes a multiple of 16 bytes.
   */
  lemma {:induction false} AlignFrameSizeLeast(wordSize: WordSize, sizeInWords: nat)
    requires sizeInWords + 2 + 16 / wordSize - 1 < 0x1_0000_0000
    ensures var r := AlignFrameSize(wordSize, sizeInWords);
      var alignment := 16 / wordSize;
      && r % alignment == 0
      && sizeInWords + 2 <= r < sizeInWords + 2 + alignment
      && (r * wordSize) % 16 == 0
  {
    var alignment := 16 / wordSize;
    var n := sizeInWords + 2;
    var m := n + alignment - 1;
    DivModUnique(n, 0x1_0000_0000, 0, n);
    DivModUnique(m, 0x1_0000_0000, 0, m);
    var k := m / alignment;
    var rest := m % alignment;
    assert m == k * alignment + rest;
    assert k * alignment <= m;
    DivModUnique(k * alignment, 0x1_0000_0000, 0, k * alignment);
    var r := k * alignment;
    assert r == AlignFrameSize(wordSize, sizeInWords);
    DivModUnique(r, alignment, k, 0);
    assert r * wordSize == k * 16 by {
      assert alignment * wordSize == 16;
      assert r * wordSize == k * (alignment * wordSize);
    }
    DivModUnique(r * wordSize, 16, k, 0);
  }
}
