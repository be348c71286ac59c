// The command prefixes of compile's nested switch, and what decoding reads
// back after them: a command followed by an encoded number or by a label run
// decodes to that instruction carrying that number or that label.

module Commands {
  import opened Blankspace
  import opened Translator
  import opened Bytecode

  /** The tokens that introduce a command with a number operand. */
  function NumberCommand(shape: Instr): (ts: seq<Token>)
    requires shape.Push? || shape.DupN? || shape.Slide?
    ensures |ts| == if shape.Push? then 2 else 3
  {
    if shape.Push? then [Space, Space] else if shape.DupN? then [Space, Tab, Space] else [Space, Tab, LF]
  }

  /** Where a number command stands at p, decoding at p reads the number that follows it. */
  lemma NumberCommandDispatch(code: seq<Token>, p: nat, shape: Instr)
    requires shape.Push? || shape.DupN? || shape.Slide?
    requires p + |NumberCommand(shape)| <= |code| && code[p..p + |NumberCommand(shape)|] == NumberCommand(shape)
    ensures DecodeInstr(code, p) == WithNumber(NumberAt(code, p + |NumberCommand(shape)| - 1), shape.(n := 0))
  {
    var cmd := NumberCommand(shape);
    assert code[p] == cmd[0] && code[p + 1] == cmd[1];
    if !shape.Push? {
      assert code[p + 2] == cmd[2];
    }
  }

  /**
   * Where a number command stands at p, followed by an encoded number, the
   * instruction decoded at p is that command carrying the number, and it
   * ends on the number's line feed.
   */
  lemma NumberCommandDecodes(code: seq<Token>, p: nat, shape: Instr, n: i32)
    requires shape.Push? || shape.DupN? || shape.Slide?
    requires n != -0x8000_0000
    requires p + |NumberCommand(shape)| + |EncodeNumber(n)| <= |code|
    requires code[p..p + |NumberCommand(shape)|] == NumberCommand(shape)
    requires code[p + |NumberCommand(shape)|..p + |NumberCommand(shape)| + |EncodeNumber(n)|] == EncodeNumber(n)
    ensures DecodeInstr(code, p)
         == Success(Lexeme(shape.(n := n), p + |NumberCommand(shape)| + |EncodeNumber(n)| - 1))
  {
    var m, enc := p + |NumberCommand(shape)|, EncodeNumber(n);
    NumberCommandDispatch(code, p, shape);
    var pre, post := code[..m], code[m + |enc|..];
    assert code == pre + enc + post;
    NumberRoundTrip(pre, n, post);
  }

  /** The tokens that introduce a command with a label operand. */
  function LabelCommand(shape: Instr): (ts: seq<Token>)
    requires shape.Mark? || IsRef(shape)
    ensures |ts| == 3
  {
    match shape
    case Mark(_) => [LF, Space, Space]
    case Call(_) => [LF, Space, Tab]
    case Jump(_) => [LF, Space, LF]
    case Bez(_) => [LF, Tab, Space]
    case Bltz(_) => [LF, Tab, Tab]
  }

  /** Where a label command stands at p, decoding at p reads the label that follows it. */
  lemma LabelCommandDispatch(code: seq<Token>, p: nat, shape: Instr)
    requires shape.Mark? || IsRef(shape)
    requires p + 3 <= |code| && code[p..p + 3] == LabelCommand(shape)
    ensures DecodeInstr(code, p) == WithLabel(LabelAt(code, p + 2), shape.(target := ""))
  {
    var cmd := LabelCommand(shape);
    assert code[p] == cmd[0] && code[p + 1] == cmd[1] && code[p + 2] == cmd[2];
  }

  /**
   * Where a label command stands at p, followed by a run of spaces and tabs
   * shorter than the limit and a line feed, the instruction decoded at p is
   * that command naming the run, and it ends on the line feed.
   */
  lemma LabelCommandDecodes(code: seq<Token>, p: nat, shape: Instr, ts: seq<Token>)
    requires shape.Mark? || IsRef(shape)
    requires LF !in ts && |ts| < MAX_LABEL_LENGTH && p + 3 + |ts| < |code|
    requires code[p..p + 3] == LabelCommand(shape) && code[p + 3..p + 3 + |ts|] == ts && code[p + 3 + |ts|] == LF
    ensures DecodeInstr(code, p) == Success(Lexeme(shape.(target := LabelName(ts)), p + 3 + |ts|))
  {
    LabelCommandDispatch(code, p, shape);
    LabelRunRead(code, p, shape, ts);
  }

  /** The label that follows a label command's three tokens is the run up to the line feed. */
  lemma LabelRunRead(code: seq<Token>, p: nat, shape: Instr, ts: seq<Token>)
    requires shape.Mark? || IsRef(shape)
    requires LF !in ts && |ts| < MAX_LABEL_LENGTH && p + 3 + |ts| < |code|
    requires code[p + 3..p + 3 + |ts|] == ts && code[p + 3 + |ts|] == LF
    ensures WithLabel(LabelAt(code, p + 2), shape.(target := ""))
         == Success(Lexeme(shape.(target := LabelName(ts)), p + 3 + |ts|))
  {
    LabelAtRun(code, p + 2, ts, p + 3 + |ts|);
  }
}
