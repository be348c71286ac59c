// What single steps of `execute` do to the machine, stated for all states:
// the operand order of the arithmetic, the one heap cell a store touches,
// and the faults of instructions that pop more than the stack holds.

module Steps {
  import opened Blankspace
  import opened Operands
  import opened Interpreter

  /**
   * The arithmetic instructions pop a, the top, then b, the element below it,
   * and push b OP a in place of both: on `rest + [b, a]` SUB leaves b - a.
   */
  lemma ArithOperandOrder(s: VM, rest: seq<i32>, b: i32, a: i32)
    requires WellSized(s) && s.stack == rest + [b, a]
    ensures IsI32(b + a) ==> ArithStep(s, Plus) == Next(s.(stack := rest + [(b + a) as i32], pc := s.pc + 1))
    ensures IsI32(b - a) ==> ArithStep(s, Minus) == Next(s.(stack := rest + [(b - a) as i32], pc := s.pc + 1))
    ensures IsI32(b * a) ==> ArithStep(s, Times) == Next(s.(stack := rest + [(b * a) as i32], pc := s.pc + 1))
    ensures a != 0 && IsI32(Quot(b, a)) ==>
      ArithStep(s, Quotient) == Next(s.(stack := rest + [Quot(b, a) as i32], pc := s.pc + 1))
    ensures !IsI32(b - a) ==> ArithStep(s, Minus) == Faulted(ArithOverflow)
  {
    assert Below(s, 2) == rest;
  }

  /**
   * STORE pops the value and then the address, writes that one heap cell and
   * leaves every other cell, the call stack, the input and the output alone.
   */
  lemma StoreChangesOnlyItsCell(s: VM)
    requires WellSized(s) && StoreStep(s).Next?
    ensures var t, b := StoreStep(s).next, s.stack[|s.stack| - 2];
      && 0 <= b < HEAP_SIZE && |t.heap| == HEAP_SIZE && t.heap[b] == Top(s)
      && (forall k | 0 <= k < HEAP_SIZE && k != b :: t.heap[k] == s.heap[k])
      && t.stack == s.stack[..|s.stack| - 2]
      && t.calls == s.calls && t.input == s.input && t.output == s.output
  {
  }

  /** Storing v at an address, pushing the address again and loading it gives back v on the rest of the stack. */
  lemma StoreThenLoad(s: VM, rest: seq<i32>, addr: i32, v: i32)
    requires WellSized(s) && s.stack == rest + [addr, v] && 0 <= addr < HEAP_SIZE
    ensures StoreStep(s).Next? && PushStep(StoreStep(s).next, addr).Next?
    ensures var t := StoreStep(s).next;
      LoadStep(PushStep(t, addr).next) == Next(t.(stack := rest + [v], pc := t.pc + 1 + WS_INT_SIZE + 1))
  {
    assert Below(s, 2) == rest;
    var t := StoreStep(s).next;
    var u := PushStep(t, addr).next;
    assert u.stack == rest + [addr] && Below(u, 1) == rest;
  }

  /**
   * Every instruction that pops faults on a stack too short for it, and
   * ENDSUB faults on an empty call stack; nothing is popped from nothing.
   */
  lemma ShortStackFaults(code: seq<byte>, s: VM)
    requires WellSized(s) && s.pc < |code|
    ensures var op := code[s.pc];
      |s.stack| == 0 && op in [StackDup, StackDiscard, HeapLoad, FlowBez, FlowBltz, IoPutChar, IoPutNum, IoReadChar, IoReadNum] ==>
        Exec(code, s) == Faulted(StackUnderflow)
    ensures var op := code[s.pc];
      |s.stack| < 2 && op in [StackSwap, ArithAdd, ArithSub, ArithMul, ArithDiv, ArithMod, HeapStore] ==>
        Exec(code, s) == Faulted(StackUnderflow)
    ensures |s.calls| == 0 && code[s.pc] == FlowEndSub ==> Exec(code, s) == Faulted(CallStackUnderflow)
  {
    if code[s.pc] < 24 {
      ExecAt(code, s, code[s.pc]);
    }
  }

  /** SLIDE and DUP_N fault when their operand reaches past the bottom of the stack. */
  lemma ShortStackFaultsOnOperand(code: seq<byte>, s: VM)
    requires WellSized(s) && s.pc + 1 + WS_INT_SIZE <= |code|
    ensures var n := IntOf(code[s.pc + 1..s.pc + 1 + WS_INT_SIZE]);
      && (code[s.pc] == StackSlide && n >= |s.stack| ==> Exec(code, s) == Faulted(StackUnderflow))
      && (code[s.pc] == StackDupN && n >= |s.stack| && |s.stack| < STACK_SIZE - 1 ==> Exec(code, s) == Faulted(StackUnderflow))
  {
    NumberStep(code, s);
  }
}
