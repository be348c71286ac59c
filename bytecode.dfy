// What the compiler reads and what it writes, as values.
//
// Decoding: the nested prefix dispatch of compile and gen_*_code, one
// instruction at a time, and the whole program as the list of instructions
// it decodes to.
//
// Encoding: the reference image of a program, a definition of the compiled
// bytecode that does not backpatch: every branch or call operand directly
// holds the offset of its label's first definition, and the operand of a
// label that is never defined keeps whatever bytes the buffer held. The
// compiler (compiler.dfy) is proved to produce exactly this image.

module Bytecode {
  import opened Blankspace
  import opened Operands
  import opened Translator

  datatype Instr =
    | Push(n: i32) | DupN(n: i32) | Dup | Slide(n: i32) | Swap | Discard
    | Add | Sub | Mul | Div | Mod
    | Store | Load
    | Mark(target: string)
    | Call(target: string) | Jump(target: string) | Bez(target: string) | Bltz(target: string)
    | EndSub | Halt
    | PutChar | PutNum | ReadChar | ReadNum
    | Undefined   // an unrecognised prefix: reported, nothing emitted
    | Cut         // a prefix cut off by the end of the input: nothing emitted, compilation ends

  type Decoded = Result<Lexeme<Instr>, LexError>

  /** A branch or call: an instruction whose operand is a label reference. */
  predicate IsRef(i: Instr)
  {
    i.Call? || i.Jump? || i.Bez? || i.Bltz?
  }

  // ---------------------------------------------------------------------
  // Decoding

  /** The instruction shaped like `shape`, carrying the number that was read. */
  function WithNumber(r: Result<Lexeme<i32>, LexError>, shape: Instr): (d: Decoded)
    requires shape.Push? || shape.DupN? || shape.Slide?
    ensures d.Success? <==> r.Success?
    ensures d.Success? ==> d.value == Lexeme(shape.(n := r.value.value), r.value.last)
  {
    match r
    case Success(l) => Success(Lexeme(shape.(n := l.value), l.last))
    case Failure(e) => Failure(e)
  }

  /** The instruction shaped like `shape`, carrying the label that was read. */
  function WithLabel(r: Result<Lexeme<string>, LexError>, shape: Instr): (d: Decoded)
    requires shape.Mark? || IsRef(shape)
    ensures d.Success? <==> r.Success?
    ensures d.Success? ==> d.value == Lexeme(shape.(target := r.value.value), r.value.last)
  {
    match r
    case Success(l) => Success(Lexeme(shape.(target := l.value), l.last))
    case Failure(e) => Failure(e)
  }

  /** The instruction when the input ends right after the cursor. */
  function CutAt(code: seq<Token>): Decoded
  {
    Success(Lexeme(Cut, |code|))
  }

  /** gen_stack_code: the stack family; p is the index of its leading space. */
  function DecodeStack(code: seq<Token>, p: nat): Decoded
    requires p < |code|
  {
    if p + 1 >= |code| then CutAt(code)
    else match code[p + 1]
      case Space => WithNumber(NumberAt(code, p + 1), Push(0))
      case Tab =>
        if p + 2 >= |code| then CutAt(code)
        else (match code[p + 2]
          case Space => WithNumber(NumberAt(code, p + 2), DupN(0))
          case Tab => Success(Lexeme(Undefined, p + 2))
          case LF => WithNumber(NumberAt(code, p + 2), Slide(0)))
      case LF =>
        if p + 2 >= |code| then CutAt(code)
        else (match code[p + 2]
          case Space => Success(Lexeme(Dup, p + 2))
          case Tab => Success(Lexeme(Swap, p + 2))
          case LF => Success(Lexeme(Discard, p + 2)))
  }

  /** gen_arith_code: p is the index of the family's second token. */
  function DecodeArith(code: seq<Token>, p: nat): Decoded
    requires p < |code|
  {
    if p + 1 >= |code| then CutAt(code)
    else match code[p + 1]
      case LF => Success(Lexeme(Undefined, p + 1))
      case Space =>
        if p + 2 >= |code| then CutAt(code)
        else Success(Lexeme(match code[p + 2] case Space => Add case Tab => Sub case LF => Mul, p + 2))
      case Tab =>
        if p + 2 >= |code| then CutAt(code)
        else Success(Lexeme(match code[p + 2] case Space => Div case Tab => Mod case LF => Undefined, p + 2))
  }

  /** gen_heap_code: p is the index of the family's second token. */
  function DecodeHeap(code: seq<Token>, p: nat): Decoded
    requires p < |code|
  {
    if p + 1 >= |code| then CutAt(code)
    else Success(Lexeme(match code[p + 1] case Space => Store case Tab => Load case LF => Undefined, p + 1))
  }

  /** gen_io_code: p is the index of the family's second token. */
  function DecodeIO(code: seq<Token>, p: nat): Decoded
    requires p < |code|
  {
    if p + 1 >= |code| then CutAt(code)
    else match code[p + 1]
      case LF => Success(Lexeme(Undefined, p + 1))
      case Space =>
        if p + 2 >= |code| then CutAt(code)
        else Success(Lexeme(match code[p + 2] case Space => PutChar case Tab => PutNum case LF => Undefined, p + 2))
      case Tab =>
        if p + 2 >= |code| then CutAt(code)
        else Success(Lexeme(match code[p + 2] case Space => ReadChar case Tab => ReadNum case LF => Undefined, p + 2))
  }

  /** gen_flow_code: p is the index of its leading line feed. */
  function DecodeFlow(code: seq<Token>, p: nat): Decoded
    requires p < |code|
  {
    if p + 1 >= |code| then CutAt(code)
    else match code[p + 1]
      case Space =>
        if p + 2 >= |code| then CutAt(code)
        else (match code[p + 2]
          case Space => WithLabel(LabelAt(code, p + 2), Mark(""))
          case Tab => WithLabel(LabelAt(code, p + 2), Call(""))
          case LF => WithLabel(LabelAt(code, p + 2), Jump("")))
      case Tab =>
        if p + 2 >= |code| then CutAt(code)
        else (match code[p + 2]
          case Space => WithLabel(LabelAt(code, p + 2), Bez(""))
          case Tab => WithLabel(LabelAt(code, p + 2), Bltz(""))
          case LF => Success(Lexeme(EndSub, p + 2)))
      case LF =>
        // the end of input here is reported as an undefined command
        if p + 2 < |code| && code[p + 2] == LF then Success(Lexeme(Halt, p + 2))
        else Success(Lexeme(Undefined, p + 2))
  }

  /**
   * The dispatch of compile's loop: the instruction starting at index i and
   * the index of its last token; decoding always makes progress.
   */
  function DecodeInstr(code: seq<Token>, i: nat): (r: Decoded)
    requires i < |code|
    ensures r.Success? ==> i < r.value.last <= |code|
  {
    match code[i]
    case Space => DecodeStack(code, i)
    case Tab =>
      if i + 1 >= |code| then CutAt(code)
      else (match code[i + 1]
        case Space => DecodeArith(code, i + 1)
        case Tab => DecodeHeap(code, i + 1)
        case LF => DecodeIO(code, i + 1))
    case LF => DecodeFlow(code, i)
  }

  /** The instructions decoded from index i on, or the first decoding error. */
  function Program(code: seq<Token>, i: nat): Result<seq<Instr>, LexError>
    decreases |code| - i
  {
    if i >= |code| then Success([])
    else match DecodeInstr(code, i)
      case Failure(e) => Failure(e)
      case Success(l) =>
        match Program(code, l.last + 1)
        case Failure(e) => Failure(e)
        case Success(rest) => Success([l.value] + rest)
  }

  // ---------------------------------------------------------------------
  // Encoding

  /** An instruction that emits nothing. */
  predicate Silent(i: Instr)
  {
    i.Mark? || i.Undefined? || i.Cut?
  }

  /** An instruction with a WsInt operand. */
  predicate HasNumber(i: Instr)
  {
    i.Push? || i.DupN? || i.Dup? || i.Slide?
  }

  /** The WsInt operand; the duplicate-top instruction carries 0. */
  function NumberOf(i: Instr): i32
    requires HasNumber(i)
  {
    if i.Dup? then 0 else i.n
  }

  /** Bytes emitted per instruction: opcode plus a fixed-width operand, or nothing. */
  function Width(i: Instr): nat
  {
    if Silent(i) then 0
    else if HasNumber(i) then 1 + WS_INT_SIZE
    else if IsRef(i) then 1 + WS_ADDR_SIZE
    else 1
  }

  /** The opcode an emitting instruction is compiled to. */
  function OpOf(i: Instr): (op: OpCode)
    requires Width(i) > 0
    ensures op != FlowLabel && op != StackDup
  {
    match i
    case Push(_) => StackPush
    case DupN(_) => StackDupN
    case Dup => StackDupN
    case Slide(_) => StackSlide
    case Swap => StackSwap
    case Discard => StackDiscard
    case Add => ArithAdd
    case Sub => ArithSub
    case Mul => ArithMul
    case Div => ArithDiv
    case Mod => ArithMod
    case Store => HeapStore
    case Load => HeapLoad
    case Call(_) => FlowGosub
    case Jump(_) => FlowJump
    case Bez(_) => FlowBez
    case Bltz(_) => FlowBltz
    case EndSub => FlowEndSub
    case Halt => FlowHalt
    case PutChar => IoPutChar
    case PutNum => IoPutNum
    case ReadChar => IoReadChar
    case ReadNum => IoReadNum
  }

  /** The width the compiler emits is the width the disassembler steps over. */
  lemma WidthsAgree(i: Instr)
    requires Width(i) > 0
    ensures MnemonicWidth(OpOf(i)) == Width(i)
  {
  }

  /** The bytes of all instructions before the end of the list. */
  function SizeOf(instrs: seq<Instr>): nat
  {
    if instrs == [] then 0 else SizeOf(instrs[..|instrs| - 1]) + Width(instrs[|instrs| - 1])
  }

  lemma SizeOfAppend(instrs: seq<Instr>, i: Instr)
    ensures SizeOf(instrs + [i]) == SizeOf(instrs) + Width(i)
  {
    assert (instrs + [i])[..|instrs|] == instrs;
  }

  lemma {:induction false} SizeOfPrefix(instrs: seq<Instr>, k: nat)
    requires k <= |instrs|
    ensures SizeOf(instrs[..k]) <= SizeOf(instrs)
    decreases |instrs|
  {
    if k < |instrs| {
      var pre := instrs[..|instrs| - 1];
      assert instrs[..k] == pre[..k];
      SizeOfPrefix(pre, k);
    } else {
      assert instrs[..k] == instrs;
    }
  }

  /** The source's cast of an offset to WsAddrInt. */
  function Addr(offset: nat): u32
  {
    offset % 0x1_0000_0000
  }

  /**
   * The offset of each label's first definition: a label definition emits
   * nothing and names the offset of the next instruction; a later definition
   * of the same name changes nothing.
   */
  function Defs(instrs: seq<Instr>): (d: map<string, nat>)
    ensures forall l :: l in d ==> d[l] <= SizeOf(instrs)
  {
    if instrs == [] then map[]
    else
      var pre := instrs[..|instrs| - 1];
      var d := Defs(pre);
      match instrs[|instrs| - 1]
      case Mark(l) => if l in d then d else d[l := SizeOf(pre)]
      case _ => d
  }

  /** The operand offsets of the references to label l, in order. */
  function Sites(instrs: seq<Instr>, l: string): (s: seq<nat>)
    ensures forall k :: 0 <= k < |s| ==> 1 <= s[k] && s[k] + WS_ADDR_SIZE <= SizeOf(instrs)
  {
    if instrs == [] then []
    else
      var pre := instrs[..|instrs| - 1];
      var last := instrs[|instrs| - 1];
      Sites(pre, l) + (if IsRef(last) && last.target == l then [SizeOf(pre) + 1] else [])
  }

  /** The operand bytes of a reference at offset off to label l. */
  function Target(l: string, off: nat, d: map<string, nat>, orig: seq<byte>): (bs: seq<byte>)
    requires off + 1 + WS_ADDR_SIZE <= |orig|
    ensures |bs| == WS_ADDR_SIZE
  {
    if l in d then AddrBytes(Addr(d[l])) else orig[off + 1..off + 1 + WS_ADDR_SIZE]
  }

  /** The bytes of one instruction placed at offset off. */
  function Chunk(i: Instr, off: nat, d: map<string, nat>, orig: seq<byte>): (bs: seq<byte>)
    requires off + Width(i) <= |orig|
    ensures |bs| == Width(i)
  {
    if Silent(i) then []
    else if HasNumber(i) then [OpOf(i)] + IntBytes(NumberOf(i))
    else if IsRef(i) then [OpOf(i)] + Target(i.target, off, d, orig)
    else [OpOf(i)]
  }

  /** The reference image: every instruction's chunk, back to back from offset 0. */
  function Image(instrs: seq<Instr>, d: map<string, nat>, orig: seq<byte>): (img: seq<byte>)
    requires SizeOf(instrs) <= |orig|
    ensures |img| == SizeOf(instrs)
  {
    if instrs == [] then []
    else
      var pre := instrs[..|instrs| - 1];
      Image(pre, d, orig) + Chunk(instrs[|instrs| - 1], SizeOf(pre), d, orig)
  }

  lemma ImageAppend(instrs: seq<Instr>, i: Instr, d: map<string, nat>, orig: seq<byte>)
    requires SizeOf(instrs) + Width(i) <= |orig|
    ensures SizeOf(instrs + [i]) == SizeOf(instrs) + Width(i)
    ensures Image(instrs + [i], d, orig) == Image(instrs, d, orig) + Chunk(i, SizeOf(instrs), d, orig)
  {
    assert (instrs + [i])[..|instrs|] == instrs;
  }

  // ---------------------------------------------------------------------
  // Overwriting operands

  /** s with the bytes bs written from offset x on. */
  function Write(s: seq<byte>, x: nat, bs: seq<byte>): (r: seq<byte>)
    requires x + |bs| <= |s|
    ensures |r| == |s|
  {
    s[..x] + bs + s[x + |bs|..]
  }

  /** s with the address a written at every site, in order. */
  function PatchAll(s: seq<byte>, sites: seq<nat>, a: u32): (r: seq<byte>)
    requires forall k :: 0 <= k < |sites| ==> sites[k] + WS_ADDR_SIZE <= |s|
    ensures |r| == |s|
  {
    if sites == [] then s
    else Write(PatchAll(s, sites[..|sites| - 1], a), sites[|sites| - 1], AddrBytes(a))
  }

  /** Patching sites inside a prefix leaves the rest alone. */
  lemma {:induction false} PatchAllAppend(s: seq<byte>, t: seq<byte>, sites: seq<nat>, a: u32)
    requires forall k :: 0 <= k < |sites| ==> sites[k] + WS_ADDR_SIZE <= |s|
    ensures PatchAll(s + t, sites, a) == PatchAll(s, sites, a) + t
  {
    if sites != [] {
      var pre := sites[..|sites| - 1];
      PatchAllAppend(s, t, pre, a);
      var x := sites[|sites| - 1];
      var u := PatchAll(s, pre, a);
      assert Write(u + t, x, AddrBytes(a)) == Write(u, x, AddrBytes(a)) + t;
    }
  }

  /** Writing inside the right-hand part of a concatenation. */
  lemma WriteRight(u: seq<byte>, c: seq<byte>, x: nat, bs: seq<byte>)
    requires x + |bs| <= |c|
    ensures Write(u + c, |u| + x, bs) == u + Write(c, x, bs)
  {
  }

  /** Defining the label a reference names overwrites its operand. */
  lemma ChunkPatched(i: Instr, off: nat, d: map<string, nat>, orig: seq<byte>, a: nat)
    requires off + Width(i) <= |orig| && IsRef(i) && i.target !in d
    ensures Chunk(i, off, d[i.target := a], orig) == Write(Chunk(i, off, d, orig), 1, AddrBytes(Addr(a)))
  {
  }

  /** Defining any other label leaves an instruction's bytes alone. */
  lemma ChunkUnaffected(i: Instr, off: nat, d: map<string, nat>, orig: seq<byte>, l: string, a: nat)
    requires off + Width(i) <= |orig| && !(IsRef(i) && i.target == l)
    ensures Chunk(i, off, d[l := a], orig) == Chunk(i, off, d, orig)
  {
  }

  /** One instruction's step of the patching proof, on plain byte sequences. */
  lemma PatchStep(base: seq<byte>, c: seq<byte>, c': seq<byte>, sites: seq<nat>, a: u32, refers: bool)
    requires forall k :: 0 <= k < |sites| ==> sites[k] + WS_ADDR_SIZE <= |base|
    requires refers ==> |c| == 1 + WS_ADDR_SIZE && c' == Write(c, 1, AddrBytes(a))
    requires !refers ==> c' == c
    ensures PatchAll(base, sites, a) + c'
         == PatchAll(base + c, sites + (if refers then [|base| + 1] else []), a)
  {
    PatchAllAppend(base, c, sites, a);
    var u := PatchAll(base, sites, a);
    assert PatchAll(base + c, sites, a) == u + c;
    if refers {
      var sites' := sites + [|base| + 1];
      assert sites'[..|sites|] == sites;
      assert PatchAll(base + c, sites', a) == Write(u + c, |base| + 1, AddrBytes(a));
      WriteRight(u, c, 1, AddrBytes(a));
    } else {
      assert sites + [] == sites;
    }
  }

  /** The image of a non-empty list is the image of all but its last instruction, then that one's chunk. */
  lemma ImageLast(instrs: seq<Instr>, d: map<string, nat>, orig: seq<byte>)
    requires SizeOf(instrs) <= |orig| && instrs != []
    ensures var pre := instrs[..|instrs| - 1];
      Image(instrs, d, orig) == Image(pre, d, orig) + Chunk(instrs[|instrs| - 1], SizeOf(pre), d, orig)
  {
  }

  /**
   * Resolving a label: the image with l defined at a is the image with l
   * undefined, overwritten with a at every operand that refers to l.
   */
  lemma {:induction false} PatchImage(instrs: seq<Instr>, d: map<string, nat>, orig: seq<byte>, l: string, a: nat)
    requires SizeOf(instrs) <= |orig| && l !in d
    ensures Image(instrs, d[l := a], orig) == PatchAll(Image(instrs, d, orig), Sites(instrs, l), Addr(a))
  {
    if instrs != [] {
      PatchImage(instrs[..|instrs| - 1], d, orig, l, a);
      PatchImageStep(instrs, d, orig, l, a);
    }
  }

  /** The step of PatchImage: from all but the last instruction to the whole list. */
  lemma PatchImageStep(instrs: seq<Instr>, d: map<string, nat>, orig: seq<byte>, l: string, a: nat)
    requires SizeOf(instrs) <= |orig| && l !in d && instrs != []
    requires var pre := instrs[..|instrs| - 1];
      Image(pre, d[l := a], orig) == PatchAll(Image(pre, d, orig), Sites(pre, l), Addr(a))
    ensures Image(instrs, d[l := a], orig) == PatchAll(Image(instrs, d, orig), Sites(instrs, l), Addr(a))
  {
    var pre := instrs[..|instrs| - 1];
    var i := instrs[|instrs| - 1];
    var off := SizeOf(pre);
    var refers := IsRef(i) && i.target == l;
    var base, c, c' := Image(pre, d, orig), Chunk(i, off, d, orig), Chunk(i, off, d[l := a], orig);
    ImageLast(instrs, d, orig);
    ImageLast(instrs, d[l := a], orig);
    assert Sites(instrs, l) == Sites(pre, l) + (if refers then [off + 1] else []);
    if refers {
      ChunkPatched(i, off, d, orig, a);
    } else {
      ChunkUnaffected(i, off, d, orig, l, a);
    }
    PatchStep(base, c, c', Sites(pre, l), Addr(a), refers);
  }

  // ---------------------------------------------------------------------
  // What the image promises

  /** The offset of the k-th instruction. */
  function Offset(instrs: seq<Instr>, k: nat): nat
    requires k <= |instrs|
  {
    SizeOf(instrs[..k])
  }

  /** The k-th instruction's chunk sits at its offset in the image. */
  lemma {:induction false} ImageAt(instrs: seq<Instr>, d: map<string, nat>, orig: seq<byte>, k: nat)
    requires SizeOf(instrs) <= |orig| && k < |instrs|
    ensures Offset(instrs, k) + Width(instrs[k]) <= SizeOf(instrs)
    ensures Image(instrs, d, orig)[Offset(instrs, k)..Offset(instrs, k) + Width(instrs[k])]
         == Chunk(instrs[k], Offset(instrs, k), d, orig)
    decreases |instrs|
  {
    if k == |instrs| - 1 {
      ImageAtLast(instrs, d, orig);
    } else {
      var pre := instrs[..|instrs| - 1];
      ImageAt(pre, d, orig, k);
      ImageAtEarlier(instrs, d, orig, k);
    }
  }

  /** The last instruction's chunk ends the image. */
  lemma ImageAtLast(instrs: seq<Instr>, d: map<string, nat>, orig: seq<byte>)
    requires SizeOf(instrs) <= |orig| && instrs != []
    ensures var k := |instrs| - 1;
      && Offset(instrs, k) + Width(instrs[k]) <= SizeOf(instrs)
      && Image(instrs, d, orig)[Offset(instrs, k)..Offset(instrs, k) + Width(instrs[k])]
         == Chunk(instrs[k], Offset(instrs, k), d, orig)
  {
    var k := |instrs| - 1;
    var pre := instrs[..k];
    var left, c := Image(pre, d, orig), Chunk(instrs[k], SizeOf(pre), d, orig);
    assert Image(instrs, d, orig) == left + c;
    SliceRight(left, c);
  }

  /** An earlier instruction's chunk keeps its place when the list grows by one. */
  lemma ImageAtEarlier(instrs: seq<Instr>, d: map<string, nat>, orig: seq<byte>, k: nat)
    requires SizeOf(instrs) <= |orig| && k < |instrs| - 1
    requires var pre := instrs[..|instrs| - 1];
      && Offset(pre, k) + Width(pre[k]) <= SizeOf(pre)
      && Image(pre, d, orig)[Offset(pre, k)..Offset(pre, k) + Width(pre[k])]
         == Chunk(pre[k], Offset(pre, k), d, orig)
    ensures Offset(instrs, k) + Width(instrs[k]) <= SizeOf(instrs)
    ensures Image(instrs, d, orig)[Offset(instrs, k)..Offset(instrs, k) + Width(instrs[k])]
         == Chunk(instrs[k], Offset(instrs, k), d, orig)
  {
    var pre := instrs[..|instrs| - 1];
    assert instrs[..k] == pre[..k];
    assert instrs[k] == pre[k];
    var left, c := Image(pre, d, orig), Chunk(instrs[|instrs| - 1], SizeOf(pre), d, orig);
    assert Image(instrs, d, orig) == left + c;
    SliceLeft(left, c, Offset(pre, k), Offset(pre, k) + Width(pre[k]));
  }

  lemma SliceLeft(left: seq<byte>, right: seq<byte>, x: nat, y: nat)
    requires x <= y <= |left|
    ensures (left + right)[x..y] == left[x..y]
  {
  }

  lemma SliceRight(left: seq<byte>, right: seq<byte>)
    ensures (left + right)[|left|..|left| + |right|] == right
  {
  }

  /** Where a label was first defined, if it was. */
  lemma {:induction false} DefsFirst(instrs: seq<Instr>, l: string, m: nat)
    requires m < |instrs| && instrs[m] == Mark(l)
    requires forall j :: 0 <= j < m ==> instrs[j] != Mark(l)
    ensures l in Defs(instrs) && Defs(instrs)[l] == Offset(instrs, m)
    decreases |instrs|
  {
    var pre := instrs[..|instrs| - 1];
    if m == |instrs| - 1 {
      assert instrs[..m] == pre;
      NeverDefined(pre, l);
    } else {
      assert instrs[..m] == pre[..m];
      DefsFirst(pre, l, m);
    }
  }

  /** A label the program never defines has no definition offset. */
  lemma {:induction false} NeverDefined(instrs: seq<Instr>, l: string)
    requires forall j :: 0 <= j < |instrs| ==> instrs[j] != Mark(l)
    ensures l !in Defs(instrs)
    decreases |instrs|
  {
    if instrs != [] {
      NeverDefined(instrs[..|instrs| - 1], l);
    }
  }

  /**
   * The backpatch theorem, on the image: a branch or call to a label the
   * program defines holds the offset of that label's first definition; one
   * to a label it never defines holds the buffer's original bytes.
   */
  lemma OperandsHoldFirstDefinitions(instrs: seq<Instr>, orig: seq<byte>, k: nat, m: nat)
    requires SizeOf(instrs) <= |orig| <= MAX_BYTECODE_SIZE
    requires k < |instrs| && IsRef(instrs[k])
    requires m < |instrs| && instrs[m] == Mark(instrs[k].target)
    requires forall j :: 0 <= j < m ==> instrs[j] != Mark(instrs[k].target)
    ensures Offset(instrs, k) + 1 + WS_ADDR_SIZE <= SizeOf(instrs)
    ensures AddrOf(Image(instrs, Defs(instrs), orig)[Offset(instrs, k) + 1..Offset(instrs, k) + 1 + WS_ADDR_SIZE])
         == Offset(instrs, m)
  {
    var l := instrs[k].target;
    OperandBytes(instrs, orig, k);
    DefsFirst(instrs, l, m);
    SizeOfPrefix(instrs, m);
    TargetResolved(l, Offset(instrs, k), Defs(instrs), orig);
  }

  /** The operand bytes of the k-th instruction, a reference, in the image. */
  lemma OperandBytes(instrs: seq<Instr>, orig: seq<byte>, k: nat)
    requires SizeOf(instrs) <= |orig|
    requires k < |instrs| && IsRef(instrs[k])
    ensures Offset(instrs, k) + 1 + WS_ADDR_SIZE <= SizeOf(instrs)
    ensures Image(instrs, Defs(instrs), orig)[Offset(instrs, k) + 1..Offset(instrs, k) + 1 + WS_ADDR_SIZE]
         == Target(instrs[k].target, Offset(instrs, k), Defs(instrs), orig)
  {
    var d := Defs(instrs);
    ImageAt(instrs, d, orig, k);
    ReferenceOperand(Image(instrs, d, orig), instrs[k], Offset(instrs, k), d, orig);
  }

  /** A resolved target reads back as its label's offset. */
  lemma TargetResolved(l: string, off: nat, d: map<string, nat>, orig: seq<byte>)
    requires off + 1 + WS_ADDR_SIZE <= |orig| && l in d && d[l] <= MAX_BYTECODE_SIZE
    ensures AddrOf(Target(l, off, d, orig)) == d[l]
  {
    AddrRoundTrip(Addr(d[l]));
  }

  /** Where a reference's chunk sits, its operand bytes are those of its target. */
  lemma ReferenceOperand(img: seq<byte>, i: Instr, off: nat, d: map<string, nat>, orig: seq<byte>)
    requires IsRef(i) && off + Width(i) <= |orig| && off + Width(i) <= |img|
    requires img[off..off + Width(i)] == Chunk(i, off, d, orig)
    ensures img[off + 1..off + 1 + WS_ADDR_SIZE] == Target(i.target, off, d, orig)
  {
    assert img[off + 1..off + 1 + WS_ADDR_SIZE] == img[off..off + Width(i)][1..];
  }

  lemma UndefinedOperandsUntouched(instrs: seq<Instr>, orig: seq<byte>, k: nat)
    requires SizeOf(instrs) <= |orig|
    requires k < |instrs| && IsRef(instrs[k])
    requires forall j :: 0 <= j < |instrs| ==> instrs[j] != Mark(instrs[k].target)
    ensures Offset(instrs, k) + 1 + WS_ADDR_SIZE <= SizeOf(instrs)
    ensures Image(instrs, Defs(instrs), orig)[Offset(instrs, k) + 1..Offset(instrs, k) + 1 + WS_ADDR_SIZE]
         == orig[Offset(instrs, k) + 1..Offset(instrs, k) + 1 + WS_ADDR_SIZE]
  {
    OperandBytes(instrs, orig, k);
    NeverDefined(instrs, instrs[k].target);
  }

  /** The duplicate-top instruction is compiled as STACK_DUP_N with operand 0. */
  lemma DupCompilesToDupN(off: nat, d: map<string, nat>, orig: seq<byte>)
    requires off + Width(Dup) <= |orig|
    ensures Chunk(Dup, off, d, orig)[0] == StackDupN != StackDup
    ensures IntOf(Chunk(Dup, off, d, orig)[1..]) == 0
  {
    IntRoundTrip(0);
    assert Chunk(Dup, off, d, orig)[1..] == IntBytes(0);
  }

  // ---------------------------------------------------------------------
  // The disassembler's walk over the image

  /** The offsets of the instructions that emit bytes. */
  function Starts(instrs: seq<Instr>): seq<nat>
  {
    if instrs == [] then []
    else
      var pre := instrs[..|instrs| - 1];
      Starts(pre) + (if Width(instrs[|instrs| - 1]) > 0 then [SizeOf(pre)] else [])
  }

  /** Stepping by opcode widths from i reaches e exactly. */
  ghost predicate Lands(bytes: seq<byte>, i: nat, e: nat)
    requires e <= |bytes|
    decreases e - i
  {
    i == e || (i < e && Lands(bytes, i + MnemonicWidth(bytes[i]), e))
  }

  lemma {:induction false} WalkConcat(bytes: seq<byte>, i: nat, e: nat, e2: nat)
    requires e <= e2 <= |bytes| && Lands(bytes, i, e)
    ensures Walk(bytes, i, e2) == Walk(bytes, i, e) + Walk(bytes, e, e2)
    ensures Lands(bytes, e, e2) ==> Lands(bytes, i, e2)
    decreases e - i
  {
    if i < e {
      var j := i + MnemonicWidth(bytes[i]);
      assert Lands(bytes, j, e);
      assert Walk(bytes, i, e2) == [i] + Walk(bytes, j, e2);
      assert Walk(bytes, i, e) == [i] + Walk(bytes, j, e);
      WalkConcat(bytes, j, e, e2);
    }
  }

  /** One instruction's step of the walk. */
  lemma WalkOne(bytes: seq<byte>, off: nat, e: nat)
    requires off < e <= |bytes| && e == off + MnemonicWidth(bytes[off])
    ensures Lands(bytes, off, e) && Walk(bytes, off, e) == [off]
  {
  }

  /** A chunk that emits something starts with its opcode. */
  lemma ChunkOpcode(i: Instr, off: nat, d: map<string, nat>, orig: seq<byte>)
    requires off + Width(i) <= |orig| && !Silent(i)
    ensures Chunk(i, off, d, orig)[0] == OpOf(i)
  {
  }

  /** The disassembler visits exactly the instruction offsets of a compiled image. */
  lemma {:induction false} WalkVisitsInstructions(instrs: seq<Instr>, d: map<string, nat>, orig: seq<byte>, bytes: seq<byte>)
    requires SizeOf(instrs) <= |orig| && SizeOf(instrs) <= |bytes|
    requires bytes[..SizeOf(instrs)] == Image(instrs, d, orig)
    ensures Lands(bytes, 0, SizeOf(instrs))
    ensures Walk(bytes, 0, SizeOf(instrs)) == Starts(instrs)
    decreases |instrs|
  {
    if instrs != [] {
      var pre := instrs[..|instrs| - 1];
      var i := instrs[|instrs| - 1];
      var off := SizeOf(pre);
      var end := SizeOf(instrs);
      var c := Chunk(i, off, d, orig);
      assert bytes[..end] == Image(pre, d, orig) + c;
      assert bytes[..off] == Image(pre, d, orig) by {
        SliceLeft(Image(pre, d, orig), c, 0, off);
        assert bytes[..off] == bytes[..end][..off];
      }
      WalkVisitsInstructions(pre, d, orig, bytes);
      if !Silent(i) {
        assert bytes[off] == c[0] by {
          assert bytes[off] == bytes[..end][off];
        }
        ChunkOpcode(i, off, d, orig);
        WidthsAgree(i);
        WalkOne(bytes, off, end);
        WalkConcat(bytes, 0, off, end);
      }
    }
  }
}
