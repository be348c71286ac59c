// The virtual machine of `execute`: a fetch-decode-execute loop over the
// bytecode with the operand stack, a heap of HEAP_SIZE cells and a call
// stack of return offsets. Every `assert` of `execute` (the division guard
// corrected to test the divisor), and the operations there that C leaves
// undefined (signed overflow, a call stack pushed past its end), become
// faults. The loop stops at a zero byte, which is FLOW_HALT.

module Interpreter {
  import opened Blankspace
  import opened Operands
  import opened StackManipulation
  import opened Translator

  /** One item written to standard output: a character (putchar) or a decimal number (printf "%d"). */
  datatype Out = Char(c: byte) | Num(n: i32)

  /** Why the source would stop abnormally. */
  datatype Fault =
    | StackOverflow | StackUnderflow | HeapOutOfRange
    | DivideByZero | ArithOverflow
    | CallStackOverflow | CallStackUnderflow
    | OutsideBytecode

  /**
   * The machine state. The stack and the call stack grow at the end; `pc` is
   * the offset of the byte under the `bytecode` cursor. Standard input is the
   * sequence of values its reads deliver, standard output what was written.
   */
  datatype VM = VM(stack: seq<i32>, heap: seq<i32>, calls: seq<nat>, pc: nat, input: seq<i32>, output: seq<Out>)

  /** The result of one step: the next state, a stop at a zero byte, or a fault. */
  datatype Outcome = Next(next: VM) | Halted | Faulted(fault: Fault)

  datatype ArithOp = Plus | Minus | Times | Quotient | Remainder

  datatype Cond = IfZero | IfNegative

  predicate IsI32(x: int)
  {
    -0x8000_0000 <= x < 0x8000_0000
  }

  /** The stack, heap and call stack fit the arrays of the source. */
  predicate WellSized(s: VM)
  {
    |s.stack| <= STACK_SIZE && |s.heap| == HEAP_SIZE && |s.calls| <= CALL_STACK_SIZE
  }

  /** The state before the first instruction: empty stacks and a zeroed heap. */
  function Initial(input: seq<i32>): VM
  {
    VM([], seq(HEAP_SIZE, _ => 0), [], 0, input, [])
  }

  /** A step only appends to the output and only consumes input from the front. */
  ghost predicate Progressed(s: VM, t: VM)
  {
    && s.output <= t.output
    && |t.input| <= |s.input| && t.input == s.input[|s.input| - |t.input|..]
  }

  // ---------------------------------------------------------------------
  // C integer division.

  function Abs(x: int): int
  {
    if x < 0 then -x else x
  }

  /** C's `/` on int: the quotient rounded toward zero. */
  function Quot(b: int, a: int): int
    requires a != 0
  {
    if (b < 0) == (a < 0) then Abs(b) / Abs(a) else -(Abs(b) / Abs(a))
  }

  /** C's `%` on int: what the truncated quotient leaves over. */
  function Rem(b: int, a: int): int
    requires a != 0
  {
    b - Quot(b, a) * a
  }

  lemma MulMono(x: int, y: int, z: int)
    requires 0 <= x && y <= z
    ensures x * y <= x * z
  {
    assert x * z - x * y == x * (z - y);
  }

  /** The truncated quotient times the divisor is the largest multiple of |a| below |b|, signed like b. */
  lemma QuotTimesDivisor(b: int, a: int)
    requires a != 0
    ensures Quot(b, a) * a == if b < 0 then -(Abs(b) / Abs(a) * Abs(a)) else Abs(b) / Abs(a) * Abs(a)
  {
    var A, q0 := Abs(a), Abs(b) / Abs(a);
    if (b < 0) == (a < 0) {
      assert Quot(b, a) == q0;
      if a < 0 {
        assert q0 * a == q0 * (-A) == -(q0 * A);
      }
    } else {
      assert Quot(b, a) == -q0;
      if a < 0 {
        assert (-q0) * a == (-q0) * (-A) == q0 * A;
      } else {
        assert (-q0) * a == (-q0) * A == -(q0 * A);
      }
    }
  }

  lemma DivNonNegative(x: int, y: int)
    requires 0 <= x && 0 < y
    ensures 0 <= x / y
  {
  }

  /** The remainder is smaller than the divisor and takes the sign of the dividend. */
  lemma QuotRem(b: int, a: int)
    requires a != 0
    ensures Quot(b, a) * a + Rem(b, a) == b
    ensures Abs(Rem(b, a)) < Abs(a)
    ensures Rem(b, a) == 0 || (Rem(b, a) < 0) == (b < 0)
    ensures Abs(Quot(b, a)) * Abs(a) <= Abs(b)
  {
    var A, B := Abs(a), Abs(b);
    var q0, r0 := B / A, B % A;
    var m := q0 * A;
    QuotTimesDivisor(b, a);
    assert Quot(b, a) * a == if b < 0 then -m else m;
    assert B == m + r0 && 0 <= r0 < A;
    assert Rem(b, a) == (if b < 0 then -r0 else r0);
    DivNonNegative(B, A);
    assert Abs(Quot(b, a)) == q0;
  }

  /** The quotient of two 32-bit values overflows exactly for INT_MIN / -1. */
  lemma QuotientOverflow(b: i32, a: i32)
    requires a != 0
    ensures !IsI32(Quot(b, a)) <==> b == -0x8000_0000 && a == -1
  {
    var q := Quot(b, a);
    if a == 1 || a == -1 {
      assert Abs(b) / Abs(a) == Abs(b);
      assert q as int == b as int || q as int == -(b as int);
    } else {
      QuotRem(b, a);
      MulMono(Abs(q), 2, Abs(a));
      assert Abs(q) * 2 <= Abs(b) <= 0x8000_0000;
    }
  }

  // ---------------------------------------------------------------------
  // One step, instruction by instruction. `width` is the opcode byte plus
  // its operand, the distance to the next instruction.

  /** The four operand bytes after the opcode at pc, when the bytecode holds them. */
  function Imm(code: seq<byte>, pc: nat): (r: Option<seq<byte>>)
    ensures r.Some? <==> pc + 1 + WS_INT_SIZE <= |code|
    ensures r.Some? ==> |r.value| == WS_INT_SIZE
  {
    if pc + 1 + WS_INT_SIZE <= |code| then Some(code[pc + 1..pc + 1 + WS_INT_SIZE]) else None
  }

  function Top(s: VM): i32
    requires |s.stack| > 0
  {
    s.stack[|s.stack| - 1]
  }

  /** The stack with its top k elements popped. */
  function Below(s: VM, k: nat): seq<i32>
    requires k <= |s.stack|
  {
    s.stack[..|s.stack| - k]
  }

  /** STACK_PUSH. */
  function PushStep(s: VM, n: i32): (o: Outcome)
    requires WellSized(s)
    ensures o.Next? ==> WellSized(o.next) && Progressed(s, o.next)
    ensures o.Next? ==> o.next.pc == s.pc + 1 + WS_INT_SIZE
  {
    if |s.stack| >= STACK_SIZE then Faulted(StackOverflow)
    else Next(s.(stack := s.stack + [n], pc := s.pc + 1 + WS_INT_SIZE))
  }

  /** STACK_DUP_N and STACK_DUP: the operand goes through a cast to size_t, so a negative one fails the bound. */
  function DupStep(s: VM, n: int, width: nat): (o: Outcome)
    requires WellSized(s)
    ensures o.Next? ==> WellSized(o.next) && Progressed(s, o.next)
    ensures o.Next? ==> o.next.pc == s.pc + width
  {
    if |s.stack| >= STACK_SIZE - 1 then Faulted(StackOverflow)
    else if n < 0 || n >= |s.stack| then Faulted(StackUnderflow)
    else Next(s.(stack := Duplicated(s.stack, n), pc := s.pc + width))
  }

  /** STACK_SLIDE. */
  function SlideStep(s: VM, n: int): (o: Outcome)
    requires WellSized(s)
    ensures o.Next? ==> WellSized(o.next) && Progressed(s, o.next)
    ensures o.Next? ==> o.next.pc == s.pc + 1 + WS_INT_SIZE
  {
    if n < 0 || n >= |s.stack| then Faulted(StackUnderflow)
    else Next(s.(stack := Slid(s.stack, n), pc := s.pc + 1 + WS_INT_SIZE))
  }

  /** STACK_SWAP. */
  function SwapStep(s: VM): (o: Outcome)
    requires WellSized(s)
    ensures o.Next? ==> WellSized(o.next) && Progressed(s, o.next)
    ensures o.Next? ==> o.next.pc == s.pc + 1
  {
    if |s.stack| < 2 then Faulted(StackUnderflow)
    else Next(s.(stack := Swapped(s.stack), pc := s.pc + 1))
  }

  /** STACK_DISCARD. */
  function DiscardStep(s: VM): (o: Outcome)
    requires WellSized(s)
    ensures o.Next? ==> WellSized(o.next) && Progressed(s, o.next)
    ensures o.Next? ==> o.next.pc == s.pc + 1
  {
    if |s.stack| < 1 then Faulted(StackUnderflow)
    else Next(s.(stack := Below(s, 1), pc := s.pc + 1))
  }

  /** The arithmetic of b OP a on C ints, before the result is checked against the int range. */
  function Apply(op: ArithOp, b: int, a: int): Result<int, Fault>
  {
    match op
    case Plus => Success(b + a)
    case Minus => Success(b - a)
    case Times => Success(b * a)
    case Quotient => if a == 0 then Failure(DivideByZero) else Success(Quot(b, a))
    case Remainder =>
      if a == 0 then Failure(DivideByZero)
      else if !IsI32(Quot(b, a)) then Failure(ArithOverflow)
      else Success(Rem(b, a))
  }

  /** ARITH_*: pops a (the top) and then b, pushes b OP a. */
  function ArithStep(s: VM, op: ArithOp): (o: Outcome)
    requires WellSized(s)
    ensures o.Next? ==> WellSized(o.next) && Progressed(s, o.next)
    ensures o.Next? ==> o.next.pc == s.pc + 1
  {
    if |s.stack| < 2 then Faulted(StackUnderflow)
    else
      var a, b := s.stack[|s.stack| - 1], s.stack[|s.stack| - 2];
      match Apply(op, b, a)
      case Failure(f) => Faulted(f)
      case Success(r) =>
        if !IsI32(r) then Faulted(ArithOverflow)
        else Next(s.(stack := Below(s, 2) + [r as i32], pc := s.pc + 1))
  }

  /** HEAP_STORE: pops the value a, then the address b, and sets heap[b] to a. */
  function StoreStep(s: VM): (o: Outcome)
    requires WellSized(s)
    ensures o.Next? ==> WellSized(o.next) && Progressed(s, o.next)
    ensures o.Next? ==> o.next.pc == s.pc + 1
  {
    if |s.stack| < 2 then Faulted(StackUnderflow)
    else
      var a, b := s.stack[|s.stack| - 1], s.stack[|s.stack| - 2];
      if !(0 <= b < HEAP_SIZE) then Faulted(HeapOutOfRange)
      else Next(s.(stack := Below(s, 2), heap := s.heap[b := a], pc := s.pc + 1))
  }

  /** HEAP_LOAD: replaces the address on top with the heap cell it names. */
  function LoadStep(s: VM): (o: Outcome)
    requires WellSized(s)
    ensures o.Next? ==> WellSized(o.next) && Progressed(s, o.next)
    ensures o.Next? ==> o.next.pc == s.pc + 1
  {
    if |s.stack| < 1 then Faulted(StackUnderflow)
    else
      var a := Top(s);
      if !(0 <= a < HEAP_SIZE) then Faulted(HeapOutOfRange)
      else Next(s.(stack := Below(s, 1) + [s.heap[a]], pc := s.pc + 1))
  }

  /** FLOW_GOSUB: records the offset of the operand's last byte, then jumps. */
  function CallStep(s: VM, target: u32): (o: Outcome)
    requires WellSized(s)
    ensures o.Next? ==> WellSized(o.next) && Progressed(s, o.next)
  {
    if |s.calls| >= CALL_STACK_SIZE then Faulted(CallStackOverflow)
    else Next(s.(calls := s.calls + [s.pc + WS_ADDR_SIZE], pc := target))
  }

  /** FLOW_ENDSUB: resumes one byte after the recorded offset. */
  function ReturnStep(s: VM): (o: Outcome)
    requires WellSized(s)
    ensures o.Next? ==> WellSized(o.next) && Progressed(s, o.next)
  {
    if |s.calls| == 0 then Faulted(CallStackUnderflow)
    else Next(s.(calls := s.calls[..|s.calls| - 1], pc := s.calls[|s.calls| - 1] + 1))
  }

  predicate Holds(c: Cond, v: i32)
  {
    match c
    case IfZero => v == 0
    case IfNegative => v < 0
  }

  /** FLOW_BEZ and FLOW_BLTZ: pop, then jump or step over the operand. */
  function BranchStep(code: seq<byte>, s: VM, c: Cond): (o: Outcome)
    requires WellSized(s)
    ensures o.Next? ==> WellSized(o.next) && Progressed(s, o.next)
  {
    if |s.stack| < 1 then Faulted(StackUnderflow)
    else if !Holds(c, Top(s)) then Next(s.(stack := Below(s, 1), pc := s.pc + 1 + WS_ADDR_SIZE))
    else match Imm(code, s.pc)
      case None => Faulted(OutsideBytecode)
      case Some(bs) => Next(s.(stack := Below(s, 1), pc := AddrOf(bs)))
  }

  /** IO_PUT_CHAR: putchar writes the value converted to unsigned char. */
  function PutCharStep(s: VM): (o: Outcome)
    requires WellSized(s)
    ensures o.Next? ==> WellSized(o.next) && Progressed(s, o.next)
    ensures o.Next? ==> o.next.pc == s.pc + 1
  {
    if |s.stack| < 1 then Faulted(StackUnderflow)
    else Next(s.(stack := Below(s, 1), output := s.output + [Char(Top(s) % 0x100)], pc := s.pc + 1))
  }

  /** IO_PUT_NUM. */
  function PutNumStep(s: VM): (o: Outcome)
    requires WellSized(s)
    ensures o.Next? ==> WellSized(o.next) && Progressed(s, o.next)
    ensures o.Next? ==> o.next.pc == s.pc + 1
  {
    if |s.stack| < 1 then Faulted(StackUnderflow)
    else Next(s.(stack := Below(s, 1), output := s.output + [Num(Top(s))], pc := s.pc + 1))
  }

  /** IO_READ_CHAR: stores the next input value, or EOF (-1) once the input is exhausted. */
  function ReadCharStep(s: VM): (o: Outcome)
    requires WellSized(s)
    ensures o.Next? ==> WellSized(o.next) && Progressed(s, o.next)
    ensures o.Next? ==> o.next.pc == s.pc + 1
  {
    if |s.stack| < 1 then Faulted(StackUnderflow)
    else
      var a := Top(s);
      if !(0 <= a < HEAP_SIZE) then Faulted(HeapOutOfRange)
      else if s.input == [] then Next(s.(stack := Below(s, 1), heap := s.heap[a := -1], pc := s.pc + 1))
      else Next(s.(stack := Below(s, 1), heap := s.heap[a := s.input[0]], input := s.input[1..], pc := s.pc + 1))
  }

  /** IO_READ_NUM: stores the next input value; at end of input scanf leaves the cell alone. */
  function ReadNumStep(s: VM): (o: Outcome)
    requires WellSized(s)
    ensures o.Next? ==> WellSized(o.next) && Progressed(s, o.next)
    ensures o.Next? ==> o.next.pc == s.pc + 1
  {
    if |s.stack| < 1 then Faulted(StackUnderflow)
    else
      var a := Top(s);
      if !(0 <= a < HEAP_SIZE) then Faulted(HeapOutOfRange)
      else if s.input == [] then Next(s.(stack := Below(s, 1), pc := s.pc + 1))
      else Next(s.(stack := Below(s, 1), heap := s.heap[a := s.input[0]], input := s.input[1..], pc := s.pc + 1))
  }

  /** The instruction named by a valid opcode byte at pc. */
  function ExecOp(code: seq<byte>, s: VM, op: OpCode): (o: Outcome)
    requires WellSized(s)
    ensures o.Next? ==> WellSized(o.next) && Progressed(s, o.next)
  {
    if op == FlowHalt then Halted
    else if op == StackPush then
      (match Imm(code, s.pc) case None => Faulted(OutsideBytecode) case Some(bs) => PushStep(s, IntOf(bs)))
    else if op == StackDupN then
      (match Imm(code, s.pc) case None => Faulted(OutsideBytecode) case Some(bs) => DupStep(s, IntOf(bs), 1 + WS_INT_SIZE))
    else if op == StackDup then DupStep(s, 0, 1)
    else if op == StackSlide then
      (match Imm(code, s.pc) case None => Faulted(OutsideBytecode) case Some(bs) => SlideStep(s, IntOf(bs)))
    else if op == StackSwap then SwapStep(s)
    else if op == StackDiscard then DiscardStep(s)
    else if op == ArithAdd then ArithStep(s, Plus)
    else if op == ArithSub then ArithStep(s, Minus)
    else if op == ArithMul then ArithStep(s, Times)
    else if op == ArithDiv then ArithStep(s, Quotient)
    else if op == ArithMod then ArithStep(s, Remainder)
    else if op == HeapStore then StoreStep(s)
    else if op == HeapLoad then LoadStep(s)
    else if op == FlowLabel then Next(s.(pc := s.pc + 1))
    else if op == FlowGosub then
      (match Imm(code, s.pc) case None => Faulted(OutsideBytecode) case Some(bs) => CallStep(s, AddrOf(bs)))
    else if op == FlowJump then
      (match Imm(code, s.pc) case None => Faulted(OutsideBytecode) case Some(bs) => Next(s.(pc := AddrOf(bs))))
    else if op == FlowBez then BranchStep(code, s, IfZero)
    else if op == FlowBltz then BranchStep(code, s, IfNegative)
    else if op == FlowEndSub then ReturnStep(s)
    else if op == IoPutChar then PutCharStep(s)
    else if op == IoPutNum then PutNumStep(s)
    else if op == IoReadChar then ReadCharStep(s)
    else ReadNumStep(s)
  }

  /**
   * One pass of the loop body at pc. A byte that names no instruction, and
   * FLOW_LABEL, which the switch has no case for, are reported and skipped.
   */
  function Exec(code: seq<byte>, s: VM): (o: Outcome)
    requires WellSized(s)
    ensures o.Next? ==> WellSized(o.next) && Progressed(s, o.next)
    ensures o.Halted? <==> s.pc < |code| && code[s.pc] == 0
  {
    if s.pc >= |code| then Faulted(OutsideBytecode)
    else if code[s.pc] >= 24 then Next(s.(pc := s.pc + 1))
    else ExecOp(code, s, code[s.pc])
  }

  /**
   * The guard the source asserts before `/` and `%`: it tests b, the
   * dividend, although a, the divisor, is what must not be zero.
   */
  predicate DivisionAllowedAsWritten(b: int, a: int)
  {
    b != 0
  }

  /** That guard lets 1 / 0 through and stops 0 / 5, whose quotient is simply 0. */
  lemma AsWrittenGuardTestsDividend()
    ensures DivisionAllowedAsWritten(1, 0)
    ensures !DivisionAllowedAsWritten(0, 5) && Quot(0, 5) == 0
  {
  }

  /** With the guard on the divisor, `/` and `%` fault on a zero divisor and on nothing else of that kind. */
  lemma DivisionFaultsOnZeroDivisor(s: VM, op: ArithOp)
    requires WellSized(s) && |s.stack| >= 2 && (op == Quotient || op == Remainder)
    ensures ArithStep(s, op) == Faulted(DivideByZero) <==> Top(s) == 0
    ensures s.stack[|s.stack| - 2] == 0 && Top(s) != 0 ==>
      ArithStep(s, op) == Next(s.(stack := Below(s, 2) + [0], pc := s.pc + 1))
  {
    var a, b := Top(s), s.stack[|s.stack| - 2];
    if b == 0 && a != 0 {
      assert Abs(b) / Abs(a) == 0;
      assert Quot(b, a) == 0 && Rem(b, a) == 0;
    }
  }

  /** A call to a subroutine that returns at once resumes right after the call's operand. */
  lemma CallThenReturn(code: seq<byte>, s: VM)
    requires WellSized(s) && |s.calls| < CALL_STACK_SIZE
    requires s.pc + 1 + WS_ADDR_SIZE <= |code| && code[s.pc] == FlowGosub
    requires AddrOf(code[s.pc + 1..s.pc + 1 + WS_ADDR_SIZE]) < |code|
    requires code[AddrOf(code[s.pc + 1..s.pc + 1 + WS_ADDR_SIZE])] == FlowEndSub
    ensures Exec(code, s).Next?
    ensures Exec(code, Exec(code, s).next) == Next(s.(pc := s.pc + 1 + WS_ADDR_SIZE))
  {
    var t := CallEnters(code, s);
    ReturnResumes(code, t, s);
  }

  /** GOSUB records the offset of its operand's last byte and jumps to the operand. */
  lemma CallEnters(code: seq<byte>, s: VM) returns (t: VM)
    requires WellSized(s) && |s.calls| < CALL_STACK_SIZE
    requires s.pc + 1 + WS_ADDR_SIZE <= |code| && code[s.pc] == FlowGosub
    ensures t == s.(calls := s.calls + [s.pc + WS_ADDR_SIZE], pc := AddrOf(code[s.pc + 1..s.pc + 1 + WS_ADDR_SIZE]))
    ensures WellSized(t) && Exec(code, s) == Next(t)
  {
    t := s.(calls := s.calls + [s.pc + WS_ADDR_SIZE], pc := AddrOf(code[s.pc + 1..s.pc + 1 + WS_ADDR_SIZE]));
    ExecAt(code, s, FlowGosub);
    assert Imm(code, s.pc) == Some(code[s.pc + 1..s.pc + 1 + WS_ADDR_SIZE]);
  }

  /** ENDSUB right after that call resumes one byte past the recorded offset. */
  lemma ReturnResumes(code: seq<byte>, t: VM, s: VM)
    requires WellSized(t) && t.pc < |code| && code[t.pc] == FlowEndSub
    requires t == s.(calls := s.calls + [s.pc + WS_ADDR_SIZE], pc := t.pc)
    ensures Exec(code, t) == Next(s.(pc := s.pc + 1 + WS_ADDR_SIZE))
  {
    ExecAt(code, t, FlowEndSub);
    assert t.calls[..|t.calls| - 1] == s.calls;
  }

  /** The instruction at pc sends control somewhere other than the instruction after it. */
  predicate Transfers(code: seq<byte>, s: VM)
    requires s.pc < |code|
  {
    var b := code[s.pc];
    || b == FlowGosub || b == FlowJump || b == FlowEndSub
    || (b == FlowBez && |s.stack| > 0 && Top(s) == 0)
    || (b == FlowBltz && |s.stack| > 0 && Top(s) < 0)
  }

  /**
   * A step that does not transfer control moves pc past the instruction by
   * exactly the width the disassembler steps over.
   */
  lemma StepWidth(code: seq<byte>, s: VM)
    requires WellSized(s) && s.pc < |code| && !Transfers(code, s)
    ensures Exec(code, s).Next? ==> Exec(code, s).next.pc == s.pc + MnemonicWidth(code[s.pc])
  {
    if code[s.pc] < 24 {
      ExecAt(code, s, code[s.pc]);
    }
  }

  /** A jump, a call, or a branch whose condition holds continues at the address in its operand. */
  lemma TransferTarget(code: seq<byte>, s: VM)
    requires WellSized(s) && s.pc + 1 + WS_ADDR_SIZE <= |code| && Transfers(code, s)
    requires code[s.pc] != FlowEndSub
    requires code[s.pc] == FlowGosub ==> |s.calls| < CALL_STACK_SIZE
    ensures Exec(code, s).Next? && Exec(code, s).next.pc == AddrOf(code[s.pc + 1..s.pc + 1 + WS_ADDR_SIZE])
  {
    var op: OpCode := code[s.pc];
    ExecAt(code, s, op);
    assert Imm(code, s.pc) == Some(code[s.pc + 1..s.pc + 1 + WS_ADDR_SIZE]);
    if op == FlowGosub {
    } else if op == FlowJump {
    } else if op == FlowBez {
    } else {
      assert op == FlowBltz;
    }
  }

  /** The step at a valid opcode byte is that opcode's instruction. */
  lemma ExecAt(code: seq<byte>, s: VM, op: OpCode)
    requires WellSized(s) && s.pc < |code| && code[s.pc] == op
    ensures Exec(code, s) == ExecOp(code, s, op)
  {
  }

  /** PUSH, DUP_N and SLIDE act on the number their operand bytes encode. */
  lemma NumberStep(code: seq<byte>, s: VM)
    requires WellSized(s) && s.pc + 1 + WS_INT_SIZE <= |code|
    ensures var n := IntOf(code[s.pc + 1..s.pc + 1 + WS_INT_SIZE]);
      && (code[s.pc] == StackPush ==> Exec(code, s) == PushStep(s, n))
      && (code[s.pc] == StackDupN ==> Exec(code, s) == DupStep(s, n, 1 + WS_INT_SIZE))
      && (code[s.pc] == StackSlide ==> Exec(code, s) == SlideStep(s, n))
  {
    var n := IntOf(code[s.pc + 1..s.pc + 1 + WS_INT_SIZE]);
    assert Imm(code, s.pc) == Some(code[s.pc + 1..s.pc + 1 + WS_INT_SIZE]);
    if code[s.pc] == StackPush {
      ExecAt(code, s, StackPush);
      assert ExecOp(code, s, StackPush) == PushStep(s, n);
    } else if code[s.pc] == StackDupN {
      ExecAt(code, s, StackDupN);
      assert ExecOp(code, s, StackDupN) == DupStep(s, n, 1 + WS_INT_SIZE);
    } else if code[s.pc] == StackSlide {
      ExecAt(code, s, StackSlide);
      assert ExecOp(code, s, StackSlide) == SlideStep(s, n);
    }
  }

  // ---------------------------------------------------------------------
  // The loop, bounded by a number of steps.

  datatype Final = Stopped(state: VM) | Crashed(fault: Fault) | Exhausted(state: VM)

  /** Steps until a zero byte, a fault, or `fuel` steps have been taken. */
  function Run(code: seq<byte>, s: VM, fuel: nat): (r: Final)
    requires WellSized(s)
    ensures !r.Crashed? ==> WellSized(r.state) && Progressed(s, r.state)
    ensures r.Stopped? ==> r.state.pc < |code| && code[r.state.pc] == 0
    decreases fuel
  {
    if fuel == 0 then Exhausted(s)
    else match Exec(code, s)
      case Next(t) =>
        var r := Run(code, t, fuel - 1);
        ProgressedTrans(s, t, if r.Crashed? then t else r.state);
        r
      case Halted => Stopped(s)
      case Faulted(f) => Crashed(f)
  }

  /** A run of n steps from s, once one step has reached t with status st. */
  lemma RunAfterStep(code: seq<byte>, s: VM, t: VM, st: Status, n: nat)
    requires WellSized(s) && WellSized(t) && n > 0 && Reached(Exec(code, s), st, s, t)
    ensures st == Running ==> Run(code, s, n) == Run(code, t, n - 1)
    ensures st == Finished ==> Run(code, s, n) == Stopped(t)
    ensures st.Aborted? ==> Run(code, s, n) == Crashed(st.fault)
  {
  }

  lemma ProgressedTrans(s: VM, t: VM, u: VM)
    requires Progressed(s, t) && Progressed(t, u)
    ensures Progressed(s, u)
  {
    var k := |s.input| - |t.input|;
    assert u.input == s.input[k..][|t.input| - |u.input|..];
  }

  // ---------------------------------------------------------------------
  // The machine of `execute`: the shared operand stack, the static heap and
  // call stack, and the cursor.

  datatype Status = Running | Finished | Aborted(fault: Fault)

  /** A step's status and resulting state agree with its outcome; after a fault nothing is promised. */
  ghost predicate Reached(o: Outcome, st: Status, before: VM, after: VM)
  {
    match o
    case Next(t) => st == Running && after == t
    case Halted => st == Finished && after == before
    case Faulted(f) => st == Aborted(f)
  }

  /** The status and final state of a bounded run agree with Run. */
  ghost predicate Ended(r: Final, st: Status, after: VM)
  {
    match r
    case Stopped(t) => st == Finished && after == t
    case Crashed(f) => st == Aborted(f)
    case Exhausted(t) => st == Running && after == t
  }

  class Machine {
    const stack: OperandStack
    const heap: array<i32>
    const calls: array<nat>
    var depth: nat
    var pc: nat
    var input: seq<i32>
    var output: seq<Out>

    ghost predicate Valid()
      reads this, stack
    {
      && stack.Valid() && stack.data != heap
      && heap.Length == HEAP_SIZE && calls.Length == CALL_STACK_SIZE && depth <= calls.Length
    }

    ghost function State(): (s: VM)
      reads this, stack, stack.data, heap, calls
      requires Valid()
      ensures WellSized(s)
    {
      VM(stack.Contents(), heap[..], calls[..depth], pc, input, output)
    }

    constructor (input: seq<i32>)
      ensures Valid() && State() == Initial(input)
      ensures fresh(stack) && fresh(stack.data) && fresh(heap) && fresh(calls)
    {
      stack := new OperandStack();
      heap := new i32[HEAP_SIZE](_ => 0);
      calls := new nat[CALL_STACK_SIZE](_ => 0);
      depth := 0;
      pc := 0;
      this.input := input;
      output := [];
      new;
      assert heap[..] == seq(HEAP_SIZE, _ => 0);
    }

    method DoPush(n: i32) returns (st: Status)
      requires Valid()
      modifies this, stack, stack.data
      ensures Valid() && Reached(PushStep(old(State()), n), st, old(State()), State())
    {
      if stack.idx >= STACK_SIZE {
        return Aborted(StackOverflow);
      }
      ghost var s := State();
      stack.Push(n);
      pc := pc + 1 + WS_INT_SIZE;
      st := Running;
      assert State() == s.(stack := s.stack + [n], pc := s.pc + 1 + WS_INT_SIZE);
    }

    method DoDup(n: int, width: nat) returns (st: Status)
      requires Valid()
      modifies this, stack, stack.data
      ensures Valid() && Reached(DupStep(old(State()), n, width), st, old(State()), State())
    {
      if stack.idx >= STACK_SIZE - 1 {
        return Aborted(StackOverflow);
      }
      if n < 0 || n >= stack.idx {
        return Aborted(StackUnderflow);
      }
      ghost var s := State();
      stack.DupN(n);
      pc := pc + width;
      st := Running;
      assert State() == s.(stack := Duplicated(s.stack, n), pc := s.pc + width);
    }

    method DoSlide(n: int) returns (st: Status)
      requires Valid()
      modifies this, stack, stack.data
      ensures Valid() && Reached(SlideStep(old(State()), n), st, old(State()), State())
    {
      if n < 0 || n >= stack.idx {
        return Aborted(StackUnderflow);
      }
      ghost var s := State();
      stack.Slide(n);
      pc := pc + 1 + WS_INT_SIZE;
      st := Running;
      assert State() == s.(stack := Slid(s.stack, n), pc := s.pc + 1 + WS_INT_SIZE);
    }

    method DoSwap() returns (st: Status)
      requires Valid()
      modifies this, stack.data
      ensures Valid() && Reached(SwapStep(old(State())), st, old(State()), State())
    {
      if stack.idx < 2 {
        return Aborted(StackUnderflow);
      }
      ghost var s := State();
      stack.Swap();
      pc := pc + 1;
      st := Running;
      assert State() == s.(stack := Swapped(s.stack), pc := s.pc + 1);
    }

    method DoDiscard() returns (st: Status)
      requires Valid()
      modifies this, stack
      ensures Valid() && Reached(DiscardStep(old(State())), st, old(State()), State())
    {
      if stack.idx < 1 {
        return Aborted(StackUnderflow);
      }
      ghost var s := State();
      var _ := stack.Pop();
      pc := pc + 1;
      st := Running;
      assert State() == s.(stack := Below(s, 1), pc := s.pc + 1);
    }

    method DoArith(op: ArithOp) returns (st: Status)
      requires Valid()
      modifies this, stack, stack.data
      ensures Valid() && Reached(ArithStep(old(State()), op), st, old(State()), State())
    {
      if stack.idx < 2 {
        return Aborted(StackUnderflow);
      }
      ghost var s := State();
      var a := stack.Pop();
      var b := stack.Pop();
      assert a == s.stack[|s.stack| - 1] && b == s.stack[|s.stack| - 2];
      assert stack.Contents() == Below(s, 2);
      var r := Apply(op, b, a);
      if r.Failure? {
        return Aborted(r.error);
      }
      if !IsI32(r.value) {
        return Aborted(ArithOverflow);
      }
      stack.Push(r.value as i32);
      pc := pc + 1;
      st := Running;
      assert State() == s.(stack := Below(s, 2) + [r.value as i32], pc := s.pc + 1);
    }

    method DoStore() returns (st: Status)
      requires Valid()
      modifies this, stack, heap
      ensures Valid() && Reached(StoreStep(old(State())), st, old(State()), State())
    {
      if stack.idx < 2 {
        return Aborted(StackUnderflow);
      }
      ghost var s := State();
      var a := stack.Pop();
      var b := stack.Pop();
      assert a == s.stack[|s.stack| - 1] && b == s.stack[|s.stack| - 2];
      assert stack.Contents() == Below(s, 2);
      if !(0 <= b < HEAP_SIZE) {
        return Aborted(HeapOutOfRange);
      }
      heap[b] := a;
      assert heap[..] == s.heap[b := a];
      pc := pc + 1;
      st := Running;
      assert State() == s.(stack := Below(s, 2), heap := s.heap[b := a], pc := s.pc + 1);
    }

    method DoLoad() returns (st: Status)
      requires Valid()
      modifies this, stack, stack.data
      ensures Valid() && Reached(LoadStep(old(State())), st, old(State()), State())
    {
      if stack.idx < 1 {
        return Aborted(StackUnderflow);
      }
      ghost var s := State();
      var a := stack.Pop();
      assert a == Top(s) && stack.Contents() == Below(s, 1);
      if !(0 <= a < HEAP_SIZE) {
        return Aborted(HeapOutOfRange);
      }
      stack.Push(heap[a]);
      pc := pc + 1;
      st := Running;
      assert State() == s.(stack := Below(s, 1) + [s.heap[a]], pc := s.pc + 1);
    }

    method DoCall(target: u32) returns (st: Status)
      requires Valid()
      modifies this, calls
      ensures Valid() && Reached(CallStep(old(State()), target), st, old(State()), State())
    {
      if depth >= CALL_STACK_SIZE {
        return Aborted(CallStackOverflow);
      }
      ghost var s := State();
      calls[depth] := pc + WS_ADDR_SIZE;
      depth := depth + 1;
      pc := target;
      st := Running;
      assert calls[..depth] == s.calls + [s.pc + WS_ADDR_SIZE];
      assert State() == s.(calls := s.calls + [s.pc + WS_ADDR_SIZE], pc := target);
    }

    method DoReturn() returns (st: Status)
      requires Valid()
      modifies this
      ensures Valid() && Reached(ReturnStep(old(State())), st, old(State()), State())
    {
      if depth == 0 {
        return Aborted(CallStackUnderflow);
      }
      ghost var s := State();
      depth := depth - 1;
      pc := calls[depth] + 1;
      st := Running;
      assert calls[..depth] == s.calls[..|s.calls| - 1];
      assert State() == s.(calls := s.calls[..|s.calls| - 1], pc := s.calls[|s.calls| - 1] + 1);
    }

    method DoBranch(code: seq<byte>, c: Cond) returns (st: Status)
      requires Valid()
      modifies this, stack
      ensures Valid() && Reached(BranchStep(code, old(State()), c), st, old(State()), State())
    {
      if stack.idx < 1 {
        return Aborted(StackUnderflow);
      }
      ghost var s := State();
      var v := stack.Pop();
      assert v == Top(s) && stack.Contents() == Below(s, 1);
      if Holds(c, v) {
        if pc + 1 + WS_ADDR_SIZE > |code| {
          return Aborted(OutsideBytecode);
        }
        pc := AddrOf(code[pc + 1..pc + 1 + WS_ADDR_SIZE]);
      } else {
        pc := pc + 1 + WS_ADDR_SIZE;
      }
      st := Running;
      assert State() == s.(stack := Below(s, 1), pc := pc);
    }

    method DoPutChar() returns (st: Status)
      requires Valid()
      modifies this, stack
      ensures Valid() && Reached(PutCharStep(old(State())), st, old(State()), State())
    {
      if stack.idx < 1 {
        return Aborted(StackUnderflow);
      }
      ghost var s := State();
      var v := stack.Pop();
      output := output + [Char(v % 0x100)];
      pc := pc + 1;
      st := Running;
      assert State() == s.(stack := Below(s, 1), output := s.output + [Char(Top(s) % 0x100)], pc := s.pc + 1);
    }

    method DoPutNum() returns (st: Status)
      requires Valid()
      modifies this, stack
      ensures Valid() && Reached(PutNumStep(old(State())), st, old(State()), State())
    {
      if stack.idx < 1 {
        return Aborted(StackUnderflow);
      }
      ghost var s := State();
      var v := stack.Pop();
      output := output + [Num(v)];
      pc := pc + 1;
      st := Running;
      assert State() == s.(stack := Below(s, 1), output := s.output + [Num(Top(s))], pc := s.pc + 1);
    }

    method DoReadChar() returns (st: Status)
      requires Valid()
      modifies this, stack, heap
      ensures Valid() && Reached(ReadCharStep(old(State())), st, old(State()), State())
    {
      if stack.idx < 1 {
        return Aborted(StackUnderflow);
      }
      ghost var s := State();
      var a := stack.Pop();
      assert a == Top(s) && stack.Contents() == Below(s, 1);
      if !(0 <= a < HEAP_SIZE) {
        return Aborted(HeapOutOfRange);
      }
      if input == [] {
        heap[a] := -1;
        pc := pc + 1;
        assert heap[..] == s.heap[a := -1];
        assert State() == s.(stack := Below(s, 1), heap := s.heap[a := -1], pc := s.pc + 1);
      } else {
        heap[a] := input[0];
        input := input[1..];
        pc := pc + 1;
        assert heap[..] == s.heap[a := s.input[0]];
        assert State() == s.(stack := Below(s, 1), heap := s.heap[a := s.input[0]], input := s.input[1..], pc := s.pc + 1);
      }
      st := Running;
    }

    method DoReadNum() returns (st: Status)
      requires Valid()
      modifies this, stack, heap
      ensures Valid() && Reached(ReadNumStep(old(State())), st, old(State()), State())
    {
      if stack.idx < 1 {
        return Aborted(StackUnderflow);
      }
      ghost var s := State();
      var a := stack.Pop();
      assert a == Top(s) && stack.Contents() == Below(s, 1);
      if !(0 <= a < HEAP_SIZE) {
        return Aborted(HeapOutOfRange);
      }
      if input != [] {
        heap[a] := input[0];
        input := input[1..];
        pc := pc + 1;
        assert heap[..] == s.heap[a := s.input[0]];
        assert State() == s.(stack := Below(s, 1), heap := s.heap[a := s.input[0]], input := s.input[1..], pc := s.pc + 1);
      } else {
        pc := pc + 1;
        assert heap[..] == s.heap;
        assert State() == s.(stack := Below(s, 1), pc := s.pc + 1);
      }
      st := Running;
    }

    /** One pass of the loop body of `execute`. */
    method Step(code: seq<byte>) returns (st: Status)
      requires Valid()
      modifies this, stack, stack.data, heap, calls
      ensures Valid() && Reached(Exec(code, old(State())), st, old(State()), State())
    {
      if pc >= |code| {
        return Aborted(OutsideBytecode);
      }
      var op := code[pc];
      if op >= 24 {
        pc := pc + 1;
        return Running;
      }
      var imm := Imm(code, pc);
      if op == FlowHalt {
        st := Finished;
      } else if op == StackPush {
        if imm.None? { return Aborted(OutsideBytecode); }
        st := DoPush(IntOf(imm.value));
      } else if op == StackDupN {
        if imm.None? { return Aborted(OutsideBytecode); }
        st := DoDup(IntOf(imm.value), 1 + WS_INT_SIZE);
      } else if op == StackDup {
        st := DoDup(0, 1);
      } else if op == StackSlide {
        if imm.None? { return Aborted(OutsideBytecode); }
        st := DoSlide(IntOf(imm.value));
      } else if op == StackSwap {
        st := DoSwap();
      } else if op == StackDiscard {
        st := DoDiscard();
      } else if op == ArithAdd {
        st := DoArith(Plus);
      } else if op == ArithSub {
        st := DoArith(Minus);
      } else if op == ArithMul {
        st := DoArith(Times);
      } else if op == ArithDiv {
        st := DoArith(Quotient);
      } else if op == ArithMod {
        st := DoArith(Remainder);
      } else if op == HeapStore {
        st := DoStore();
      } else if op == HeapLoad {
        st := DoLoad();
      } else if op == FlowLabel {
        pc := pc + 1;
        st := Running;
      } else if op == FlowGosub {
        if imm.None? { return Aborted(OutsideBytecode); }
        st := DoCall(AddrOf(imm.value));
      } else if op == FlowJump {
        if imm.None? { return Aborted(OutsideBytecode); }
        pc := AddrOf(imm.value);
        st := Running;
      } else if op == FlowBez {
        st := DoBranch(code, IfZero);
      } else if op == FlowBltz {
        st := DoBranch(code, IfNegative);
      } else if op == FlowEndSub {
        st := DoReturn();
      } else if op == IoPutChar {
        st := DoPutChar();
      } else if op == IoPutNum {
        st := DoPutNum();
      } else if op == IoReadChar {
        st := DoReadChar();
      } else {
        st := DoReadNum();
      }
    }

    /** `execute`: runs the loop until a zero byte or a fault, for at most `fuel` steps. */
    method Execute(code: seq<byte>, fuel: nat) returns (st: Status)
      requires Valid()
      modifies this, stack, stack.data, heap, calls
      ensures Valid() && Ended(Run(code, old(State()), fuel), st, State())
    {
      var steps := 0;
      st := Running;
      ghost var r := Run(code, State(), fuel);
      while steps < fuel && st == Running
        invariant Valid() && steps <= fuel
        invariant st == Running ==> r == Run(code, State(), fuel - steps)
        invariant st == Finished ==> r == Stopped(State())
        invariant st.Aborted? ==> r == Crashed(st.fault)
      {
        ghost var before := State();
        st := Step(code);
        RunAfterStep(code, before, State(), st, fuel - steps);
        steps := steps + 1;
      }
    }
  }
}
