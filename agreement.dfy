// How the machine of `execute` runs the bytecode that `compile` produces:
// the machine decodes each compiled instruction with the width and operand
// the compiler gave it, and branches land on the first definition of their
// label. A compiled program is taken here in its reference form, the image
// that the compiler is proved to write.

module Agreement {
  import opened Blankspace
  import opened Operands
  import opened Bytecode
  import opened Translator
  import opened Interpreter

  /** The bytecode starts with the compiled image of instrs. */
  ghost predicate Holds(code: seq<byte>, instrs: seq<Instr>, orig: seq<byte>)
  {
    && SizeOf(instrs) <= |orig|
    && SizeOf(instrs) <= |code|
    && code[..SizeOf(instrs)] == Image(instrs, Defs(instrs), orig)
  }

  /** A slice of a prefix is the same slice of the whole. */
  lemma SliceOfPrefix(code: seq<byte>, img: seq<byte>, x: nat, y: nat)
    requires |img| <= |code| && code[..|img|] == img && x <= y <= |img|
    ensures code[x..y] == img[x..y]
  {
    assert code[..|img|][x..y] == code[x..y];
  }

  /** The bytes of a compiled instruction where the machine will find them. */
  lemma ChunkInCode(code: seq<byte>, instrs: seq<Instr>, orig: seq<byte>, k: nat)
    requires Holds(code, instrs, orig) && k < |instrs|
    ensures Offset(instrs, k) + Width(instrs[k]) <= SizeOf(instrs)
    ensures code[Offset(instrs, k)..Offset(instrs, k) + Width(instrs[k])]
         == Chunk(instrs[k], Offset(instrs, k), Defs(instrs), orig)
  {
    var off, w := Offset(instrs, k), Width(instrs[k]);
    var img := Image(instrs, Defs(instrs), orig);
    ImageAt(instrs, Defs(instrs), orig, k);
    SliceOfPrefix(code, img, off, off + w);
  }

  /** The opcode byte, and the number or target operand, of one compiled instruction. */
  lemma ChunkParts(c: seq<byte>, i: Instr, off: nat, d: map<string, nat>, orig: seq<byte>)
    requires off + Width(i) <= |orig| && Width(i) > 0 && c == Chunk(i, off, d, orig)
    ensures c[0] == OpOf(i)
    ensures HasNumber(i) ==> IntOf(c[1..]) == NumberOf(i)
    ensures IsRef(i) ==> c[1..] == Target(i.target, off, d, orig)
  {
    if HasNumber(i) {
      assert c[1..] == IntBytes(NumberOf(i));
      IntRoundTrip(NumberOf(i));
    }
  }

  /** The opcode byte, and any operand, the machine finds at an instruction's offset. */
  lemma Fetched(code: seq<byte>, instrs: seq<Instr>, orig: seq<byte>, k: nat)
    requires Holds(code, instrs, orig) && k < |instrs| && Width(instrs[k]) > 0
    ensures Offset(instrs, k) + Width(instrs[k]) <= SizeOf(instrs)
    ensures code[Offset(instrs, k)] == OpOf(instrs[k])
    ensures HasNumber(instrs[k]) ==>
      IntOf(code[Offset(instrs, k) + 1..Offset(instrs, k) + 1 + WS_INT_SIZE]) == NumberOf(instrs[k])
    ensures IsRef(instrs[k]) ==>
      code[Offset(instrs, k) + 1..Offset(instrs, k) + 1 + WS_ADDR_SIZE]
      == Target(instrs[k].target, Offset(instrs, k), Defs(instrs), orig)
  {
    var off, i := Offset(instrs, k), instrs[k];
    ChunkInCode(code, instrs, orig, k);
    var c := Chunk(i, off, Defs(instrs), orig);
    ChunkParts(c, i, off, Defs(instrs), orig);
    SliceParts(code, off, c);
    if HasNumber(i) {
      assert |c| == 1 + WS_INT_SIZE;
    } else if IsRef(i) {
      assert |c| == 1 + WS_ADDR_SIZE;
    }
  }

  /** The first byte and the rest of a slice that spells c. */
  lemma SliceParts(code: seq<byte>, off: nat, c: seq<byte>)
    requires 0 < |c| && off + |c| <= |code| && code[off..off + |c|] == c
    ensures code[off] == c[0] && code[off + 1..off + |c|] == c[1..]
  {
    assert code[off] == code[off..off + |c|][0];
  }

  /** The offset of the next instruction is this one's offset plus its width. */
  lemma OffsetNext(instrs: seq<Instr>, k: nat)
    requires k < |instrs|
    ensures Offset(instrs, k + 1) == Offset(instrs, k) + Width(instrs[k])
  {
    assert instrs[..k + 1] == instrs[..k] + [instrs[k]];
    SizeOfAppend(instrs[..k], instrs[k]);
  }

  /**
   * A compiled branch or call to a label the program defines transfers
   * control to the offset of that label's first definition: always for a
   * jump or a call, and for a conditional branch when its condition holds.
   */
  lemma BranchReachesLabel(code: seq<byte>, instrs: seq<Instr>, orig: seq<byte>, k: nat, m: nat, s: VM)
    requires Holds(code, instrs, orig) && |orig| <= MAX_BYTECODE_SIZE
    requires k < |instrs| && IsRef(instrs[k])
    requires m < |instrs| && instrs[m] == Mark(instrs[k].target)
    requires forall j :: 0 <= j < m ==> instrs[j] != Mark(instrs[k].target)
    requires WellSized(s) && s.pc == Offset(instrs, k)
    requires instrs[k].Call? ==> |s.calls| < CALL_STACK_SIZE
    requires instrs[k].Bez? ==> |s.stack| > 0 && Top(s) == 0
    requires instrs[k].Bltz? ==> |s.stack| > 0 && Top(s) < 0
    ensures Exec(code, s).Next? && Exec(code, s).next.pc == Offset(instrs, m)
  {
    BranchDecoded(code, instrs, orig, k, m, s);
    TransferTarget(code, s);
  }

  /** What the machine decodes at a compiled branch: a transfer whose operand names the label's offset. */
  lemma BranchDecoded(code: seq<byte>, instrs: seq<Instr>, orig: seq<byte>, k: nat, m: nat, s: VM)
    requires Holds(code, instrs, orig) && |orig| <= MAX_BYTECODE_SIZE
    requires k < |instrs| && IsRef(instrs[k])
    requires m < |instrs| && instrs[m] == Mark(instrs[k].target)
    requires forall j :: 0 <= j < m ==> instrs[j] != Mark(instrs[k].target)
    requires s.pc == Offset(instrs, k)
    requires instrs[k].Call? ==> |s.calls| < CALL_STACK_SIZE
    requires instrs[k].Bez? ==> |s.stack| > 0 && Top(s) == 0
    requires instrs[k].Bltz? ==> |s.stack| > 0 && Top(s) < 0
    ensures s.pc + 1 + WS_ADDR_SIZE <= |code| && Transfers(code, s) && code[s.pc] != FlowEndSub
    ensures code[s.pc] == FlowGosub ==> |s.calls| < CALL_STACK_SIZE
    ensures AddrOf(code[s.pc + 1..s.pc + 1 + WS_ADDR_SIZE]) == Offset(instrs, m)
  {
    BranchOperand(code, instrs, orig, k, m);
  }

  /** The operand of a compiled branch to a defined label reads back as the label's first offset. */
  lemma BranchOperand(code: seq<byte>, instrs: seq<Instr>, orig: seq<byte>, k: nat, m: nat)
    requires Holds(code, instrs, orig) && |orig| <= MAX_BYTECODE_SIZE
    requires k < |instrs| && IsRef(instrs[k])
    requires m < |instrs| && instrs[m] == Mark(instrs[k].target)
    requires forall j :: 0 <= j < m ==> instrs[j] != Mark(instrs[k].target)
    ensures Offset(instrs, k) + 1 + WS_ADDR_SIZE <= |code|
    ensures code[Offset(instrs, k)] == OpOf(instrs[k])
    ensures AddrOf(code[Offset(instrs, k) + 1..Offset(instrs, k) + 1 + WS_ADDR_SIZE]) == Offset(instrs, m)
  {
    var off, l := Offset(instrs, k), instrs[k].target;
    Fetched(code, instrs, orig, k);
    DefsFirst(instrs, l, m);
    SizeOfPrefix(instrs, m);
    TargetResolved(l, off, Defs(instrs), orig);
  }

  /**
   * Every other compiled instruction that does not stop the machine hands
   * control to the next instruction; a compiled HALT stops it.
   */
  lemma StepsToNextInstruction(code: seq<byte>, instrs: seq<Instr>, orig: seq<byte>, k: nat, s: VM)
    requires Holds(code, instrs, orig)
    requires k < |instrs| && Width(instrs[k]) > 0 && !IsRef(instrs[k]) && !instrs[k].EndSub?
    requires WellSized(s) && s.pc == Offset(instrs, k)
    ensures instrs[k].Halt? <==> Exec(code, s).Halted?
    ensures Exec(code, s).Next? ==> Exec(code, s).next.pc == Offset(instrs, k + 1)
  {
    Fetched(code, instrs, orig, k);
    OffsetNext(instrs, k);
    WidthsAgree(instrs[k]);
    StepWidth(code, s);
  }

  /** The number a compiled PUSH, DUP_N, DUP or SLIDE carries is the one the machine acts on. */
  lemma NumberOperandsArrive(code: seq<byte>, instrs: seq<Instr>, orig: seq<byte>, k: nat, s: VM)
    requires Holds(code, instrs, orig)
    requires k < |instrs| && HasNumber(instrs[k])
    requires WellSized(s) && s.pc == Offset(instrs, k)
    ensures instrs[k].Push? ==> Exec(code, s) == PushStep(s, instrs[k].n)
    ensures instrs[k].DupN? ==> Exec(code, s) == DupStep(s, instrs[k].n, 1 + WS_INT_SIZE)
    ensures instrs[k].Dup? ==> Exec(code, s) == DupStep(s, 0, 1 + WS_INT_SIZE)
    ensures instrs[k].Slide? ==> Exec(code, s) == SlideStep(s, instrs[k].n)
  {
    NumberDecoded(code, instrs, orig, k, s);
    NumberStep(code, s);
  }

  /** What the machine decodes at a compiled PUSH, DUP_N, DUP or SLIDE: its opcode and its number. */
  lemma NumberDecoded(code: seq<byte>, instrs: seq<Instr>, orig: seq<byte>, k: nat, s: VM)
    requires Holds(code, instrs, orig)
    requires k < |instrs| && HasNumber(instrs[k])
    requires s.pc == Offset(instrs, k)
    ensures s.pc + 1 + WS_INT_SIZE <= |code|
    ensures code[s.pc] == OpOf(instrs[k])
    ensures IntOf(code[s.pc + 1..s.pc + 1 + WS_INT_SIZE]) == NumberOf(instrs[k])
  {
    Fetched(code, instrs, orig, k);
  }
}
