// Shared definitions of the Blankspace toolchain: capacity constants, the
// integer typedefs, the opcode enumeration and the three source tokens.

module Blankspace {

  datatype Option<+T> = None | Some(value: T)

  datatype Result<+T, +E> = Success(value: T) | Failure(error: E)

  // Capacity constants (compile-time defaults of the header).
  const MAX_SOURCE_SIZE: nat := 65536
  const MAX_BYTECODE_SIZE: nat := 1048576
  const MAX_LABEL_LENGTH: nat := 65536
  const MAX_N_LABEL: nat := 1024
  const UNDEF_LIST_SIZE: nat := 256
  const STACK_SIZE: nat := 65536
  const HEAP_SIZE: nat := 65536
  const CALL_STACK_SIZE: nat := 65536

  // WsInt is a 32-bit `int`, WsAddrInt a 32-bit `unsigned int`; operands
  // are stored with exactly these widths.
  const WS_INT_SIZE: nat := 4
  const WS_ADDR_SIZE: nat := 4

  type byte = x: int | 0 <= x < 0x100
  type i32 = x: int | -0x8000_0000 <= x < 0x8000_0000
  type u32 = x: int | 0 <= x < 0x1_0000_0000

  // The all-ones address that the source stores in a label entry whose
  // definition has not been seen yet.
  const UNDEF_ADDR: u32 := 0xFFFF_FFFF

  /** UNDEF_ADDR can never be confused with a real bytecode offset. */
  lemma UndefAddrIsNoOffset(offset: nat)
    requires offset < MAX_BYTECODE_SIZE
    ensures offset != UNDEF_ADDR
  {
  }

  /** The only three characters that are significant in a source program. */
  datatype Token = Space | Tab | LF

  // The instruction set. An opcode is the byte that names it, its position
  // in the enumeration; the bytes from 24 on name no instruction.
  type OpCode = b: byte | b < 24

  const FlowHalt: OpCode := 0
  const StackPush: OpCode := 1
  const StackDupN: OpCode := 2
  const StackDup: OpCode := 3
  const StackSlide: OpCode := 4
  const StackSwap: OpCode := 5
  const StackDiscard: OpCode := 6
  const ArithAdd: OpCode := 7
  const ArithSub: OpCode := 8
  const ArithMul: OpCode := 9
  const ArithDiv: OpCode := 10
  const ArithMod: OpCode := 11
  const HeapStore: OpCode := 12
  const HeapLoad: OpCode := 13
  const FlowLabel: OpCode := 14
  const FlowGosub: OpCode := 15
  const FlowJump: OpCode := 16
  const FlowBez: OpCode := 17
  const FlowBltz: OpCode := 18
  const FlowEndSub: OpCode := 19
  const IoPutChar: OpCode := 20
  const IoPutNum: OpCode := 21
  const IoReadChar: OpCode := 22
  const IoReadNum: OpCode := 23
}
