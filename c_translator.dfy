// The lexical decoders shared by the compiler (signed numbers and labels),
// the source visualiser and the instruction walk of the disassembler.
//
// A cursor is an index into the token sequence. As in the source, a decoder
// is handed the index of the last token consumed so far and gives back the
// index of the last token it consumed (the terminating line feed); the
// caller steps past it. Positions at or beyond the end of the sequence are
// the source's NUL terminator.

module Translator {
  import opened Blankspace
  import StackManipulation

  datatype LexError =
    | Unterminated    // no line feed before the end of input: the source reads past its buffer
    | NumberOverflow  // a binary literal of 2^31 or more: the source's signed shift overflows
    | LabelTooLong    // a label that does not fit the label buffer with its terminator

  /** A decoded value and the index of the last token consumed. */
  datatype Lexeme<+T> = Lexeme(value: T, last: nat)

  /** The index of the first line feed at or after i, or |code| if none. */
  function RunEnd(code: seq<Token>, i: nat): (e: nat)
    requires i <= |code|
    ensures i <= e <= |code|
    decreases |code| - i
  {
    if i == |code| || code[i] == LF then i else RunEnd(code, i + 1)
  }

  /** The run holds no line feed, and it stops at one unless the input ends first. */
  lemma {:induction false} RunEndStops(code: seq<Token>, i: nat)
    requires i <= |code|
    ensures forall k :: i <= k < RunEnd(code, i) ==> code[k] != LF
    ensures RunEnd(code, i) < |code| ==> code[RunEnd(code, i)] == LF
    decreases |code| - i
  {
    if i < |code| && code[i] != LF {
      RunEndStops(code, i + 1);
    }
  }

  // ---------------------------------------------------------------------
  // read_nstr

  function Bit(t: Token): nat
  {
    if t == Tab then 1 else 0
  }

  /** The value of binary digits, most significant first (space 0, tab 1). */
  function BinValue(ds: seq<Token>): nat
  {
    if ds == [] then 0 else 2 * BinValue(ds[..|ds| - 1]) + Bit(ds[|ds| - 1])
  }

  /** Reading more digits never makes the value smaller. */
  lemma {:induction false} BinValuePrefix(ds: seq<Token>, k: nat)
    requires k <= |ds|
    ensures BinValue(ds[..k]) <= BinValue(ds)
    decreases |ds|
  {
    if k < |ds| {
      var pre := ds[..|ds| - 1];
      assert ds[..k] == pre[..k];
      BinValuePrefix(pre, k);
    } else {
      assert ds[..k] == ds;
    }
  }

  /**
   * The number operand whose sign token (or bare line feed) follows the
   * cursor p: a line feed right after the cursor is 0 with no sign consumed;
   * otherwise a tab there means negative and any other token positive, and
   * the tokens up to the next line feed are binary digits.
   */
  function NumberAt(code: seq<Token>, p: nat): Result<Lexeme<i32>, LexError>
  {
    if p + 1 >= |code| then Failure(Unterminated)
    else if code[p + 1] == LF then Success(Lexeme(0, p + 1))
    else
      var e := RunEnd(code, p + 2);
      var v: int := BinValue(code[p + 2..e]);
      if v >= 0x8000_0000 then Failure(NumberOverflow)
      else if e == |code| then Failure(Unterminated)
      else Success(Lexeme(if code[p + 1] == Tab then -v else v, e))
  }

  /**
   * A number that was read ends on a line feed with none before it, and a
   * line feed right after the cursor reads as 0.
   */
  lemma NumberAtSpec(code: seq<Token>, p: nat)
    ensures NumberAt(code, p).Success? ==>
      var l := NumberAt(code, p).value.last;
      p < l < |code| && code[l] == LF && forall k :: p < k < l ==> code[k] != LF
    ensures p + 1 < |code| && code[p + 1] == LF ==> NumberAt(code, p) == Success(Lexeme(0, p + 1))
  {
    if p + 1 < |code| && code[p + 1] != LF {
      RunEndStops(code, p + 2);
    }
  }

  /** read_nstr: the shift-and-add loop over the digits. */
  method ReadNumber(code: seq<Token>, p: nat) returns (r: Result<Lexeme<i32>, LexError>)
    ensures r == NumberAt(code, p)
  {
    if p + 1 >= |code| {
      return Failure(Unterminated);
    }
    var positive := true;
    match code[p + 1] {
      case LF => return Success(Lexeme(0, p + 1));
      case Tab => positive := false;
      case Space =>
    }
    ghost var e := RunEnd(code, p + 2);
    RunEndStops(code, p + 2);
    var sum := 0;
    var j := p + 2;
    while j < |code| && code[j] != LF
      invariant p + 2 <= j <= e
      invariant sum == BinValue(code[p + 2..j]) < 0x8000_0000
    {
      if sum >= 0x4000_0000 {
        // the shift overflows a 32-bit int
        DigitOverflows(code, p, j);
        return Failure(NumberOverflow);
      }
      sum := 2 * sum + Bit(code[j]);
      assert code[p + 2..j + 1][..j - (p + 2)] == code[p + 2..j];
      j := j + 1;
    }
    assert j == e;
    NumberAtEnd(code, p);
    if j == |code| {
      return Failure(Unterminated);
    }
    r := Success(Lexeme(if positive then sum else -sum, j));
  }

  /** A digit read once the sum has reached 2^30 makes the number overflow. */
  lemma DigitOverflows(code: seq<Token>, p: nat, j: nat)
    requires p + 1 < |code| && code[p + 1] != LF
    requires p + 2 <= j < RunEnd(code, p + 2) && BinValue(code[p + 2..j]) >= 0x4000_0000
    ensures NumberAt(code, p) == Failure(NumberOverflow)
  {
    var e := RunEnd(code, p + 2);
    assert BinValue(code[p + 2..j + 1]) >= 0x8000_0000 by {
      assert code[p + 2..j + 1][..j - (p + 2)] == code[p + 2..j];
    }
    BinValuePrefix(code[p + 2..e], j + 1 - (p + 2));
    assert code[p + 2..e][..j + 1 - (p + 2)] == code[p + 2..j + 1];
  }

  /** A digit run whose value fits in an int ends the number on the run's line feed, if there is one. */
  lemma NumberAtEnd(code: seq<Token>, p: nat)
    requires p + 1 < |code| && code[p + 1] != LF
    requires BinValue(code[p + 2..RunEnd(code, p + 2)]) < 0x8000_0000
    ensures var e := RunEnd(code, p + 2); var v: int := BinValue(code[p + 2..e]);
      NumberAt(code, p) == if e == |code| then Failure(Unterminated)
                           else Success(Lexeme(if code[p + 1] == Tab then -v else v, e))
  {
  }

  /** Binary digits of m, most significant first, without leading zeros. */
  function Digits(m: nat): (ds: seq<Token>)
    ensures LF !in ds
  {
    if m == 0 then [] else Digits(m / 2) + [if m % 2 == 1 then Tab else Space]
  }

  lemma {:induction false} DigitsValue(m: nat)
    ensures BinValue(Digits(m)) == m
  {
    if m > 0 {
      DigitsValue(m / 2);
      var ds := Digits(m);
      assert ds[..|ds| - 1] == Digits(m / 2);
    }
  }

  /** The token pattern of a number operand: sign, digits, line feed. */
  function EncodeNumber(n: int): (ts: seq<Token>)
    ensures |ts| >= 2 && ts[|ts| - 1] == LF && ts[0] != LF
    ensures forall k :: 0 <= k < |ts| - 1 ==> ts[k] != LF
  {
    [if n < 0 then Tab else Space] + Digits(if n < 0 then -n else n) + [LF]
  }

  /** Decoding an encoded number yields it, with the cursor on its line feed. */
  lemma NumberRoundTrip(pre: seq<Token>, n: int, post: seq<Token>)
    requires |pre| > 0 && -0x8000_0000 < n < 0x8000_0000
    ensures NumberAt(pre + EncodeNumber(n) + post, |pre| - 1)
         == Success(Lexeme(n, |pre| + |EncodeNumber(n)| - 1))
  {
    var m := if n < 0 then -n else n;
    var enc := EncodeNumber(n);
    var code := pre + enc + post;
    var p := |pre| - 1;
    var q := |pre| + |enc| - 1;
    assert code[p + 1] == enc[0];
    assert code[q] == LF;
    forall k | p + 2 <= k < q ensures code[k] != LF {
      assert code[k] == enc[k - |pre|];
    }
    var e := RunEnd(code, p + 2);
    RunEndStops(code, p + 2);
    assert e == q;
    assert code[p + 2..e] == Digits(m);
    DigitsValue(m);
  }

  // ---------------------------------------------------------------------
  // read_label

  /** Space becomes 'S', tab becomes 'T'; any other token is skipped. */
  function LabelName(ts: seq<Token>): (name: string)
    ensures forall k :: 0 <= k < |name| ==> name[k] == 'S' || name[k] == 'T'
  {
    if ts == [] then ""
    else
      var pre := LabelName(ts[..|ts| - 1]);
      match ts[|ts| - 1]
      case Space => pre + "S"
      case Tab => pre + "T"
      case LF => pre
  }

  /** On a run without line feeds the name has one letter per token. */
  lemma {:induction false} LabelNameLength(ts: seq<Token>)
    requires LF !in ts
    ensures |LabelName(ts)| == |ts|
  {
    if ts != [] {
      LabelNameLength(ts[..|ts| - 1]);
    }
  }

  /** Distinct token runs give distinct label names. */
  lemma {:induction false} LabelNameInjective(a: seq<Token>, b: seq<Token>)
    requires LF !in a && LF !in b
    ensures LabelName(a) == LabelName(b) <==> a == b
  {
    if LabelName(a) == LabelName(b) {
      LabelNameLength(a);
      LabelNameLength(b);
      if a != [] {
        var a', b' := a[..|a| - 1], b[..|b| - 1];
        LabelNameLength(a');
        LabelNameLength(b');
        assert LabelName(a)[..|a'|] == LabelName(a');
        assert LabelName(b)[..|b'|] == LabelName(b');
        LabelNameInjective(a', b');
        assert a[|a| - 1] == b[|b| - 1] by {
          assert LabelName(a)[|a'|] == LabelName(b)[|b'|];
        }
        assert a == a' + [a[|a| - 1]];
        assert b == b' + [b[|b| - 1]];
      }
    }
  }

  /**
   * The label whose first token follows the cursor p: the letters of the
   * tokens up to the next line feed, with the cursor left on that line feed.
   */
  function LabelAt(code: seq<Token>, p: nat): Result<Lexeme<string>, LexError>
    requires p < |code|
  {
    var e := RunEnd(code, p + 1);
    if e - (p + 1) >= MAX_LABEL_LENGTH then Failure(LabelTooLong)
    else if e == |code| then Failure(Unterminated)
    else Success(Lexeme(LabelName(code[p + 1..e]), e))
  }

  /**
   * A label that was read ends on a line feed, is named by the tokens
   * before it one letter each, and is shorter than MAX_LABEL_LENGTH.
   */
  lemma LabelAtSpec(code: seq<Token>, p: nat)
    requires p < |code|
    ensures LabelAt(code, p).Success? ==>
      var l := LabelAt(code, p).value;
      && p < l.last < |code| && code[l.last] == LF
      && l.value == LabelName(code[p + 1..l.last])
      && |l.value| == l.last - (p + 1) < MAX_LABEL_LENGTH
  {
    var e := RunEnd(code, p + 1);
    RunEndStops(code, p + 1);
    assert LF !in code[p + 1..e];
    LabelNameLength(code[p + 1..e]);
  }

  /** A run of spaces and tabs shorter than the limit, ended by a line feed, reads back as its name. */
  lemma LabelAtRun(code: seq<Token>, p: nat, ts: seq<Token>, q: nat)
    requires q == p + 1 + |ts| < |code| && code[p + 1..q] == ts && code[q] == LF
    requires LF !in ts && |ts| < MAX_LABEL_LENGTH
    ensures LabelAt(code, p) == Success(Lexeme(LabelName(ts), q))
  {
    forall k | p + 1 <= k < q ensures code[k] != LF {
      assert code[k] == ts[k - (p + 1)];
    }
    RunEndAt(code, p + 1, q);
  }

  /** A run of tokens other than line feeds that a line feed ends stops at that line feed. */
  lemma {:induction false} RunEndAt(code: seq<Token>, i: nat, q: nat)
    requires i <= q < |code| && code[q] == LF
    requires forall k :: i <= k < q ==> code[k] != LF
    ensures RunEnd(code, i) == q
    decreases q - i
  {
    if i < q {
      RunEndAt(code, i + 1, q);
    }
  }

  /** read_label: fills the label buffer token by token. */
  method ReadLabel(code: seq<Token>, p: nat) returns (r: Result<Lexeme<string>, LexError>)
    requires p < |code|
    ensures r == LabelAt(code, p)
  {
    ghost var e := RunEnd(code, p + 1);
    RunEndStops(code, p + 1);
    var name := "";
    var j := p + 1;
    while j < |code| && code[j] != LF
      invariant p + 1 <= j <= e
      invariant j - (p + 1) <= MAX_LABEL_LENGTH
      invariant name == LabelName(code[p + 1..j])
    {
      if j - (p + 1) >= MAX_LABEL_LENGTH {
        return Failure(LabelTooLong);
      }
      assert code[p + 1..j + 1][..j - (p + 1)] == code[p + 1..j];
      match code[j] {
        case Space => name := name + "S";
        case Tab => name := name + "T";
      }
      j := j + 1;
    }
    if j - (p + 1) >= MAX_LABEL_LENGTH {
      return Failure(LabelTooLong);
    }
    if j == |code| {
      return Failure(Unterminated);
    }
    r := Success(Lexeme(name, j));
  }

  // ---------------------------------------------------------------------
  // filter: the source visualiser.

  /** The visible rendering of a text: 'S', 'T', line feed; all else dropped. */
  function Visualized(text: seq<char>): (out: seq<char>)
    ensures |out| <= |text|
    ensures forall k :: 0 <= k < |out| ==> out[k] in {'S', 'T', '\n'}
  {
    if text == [] then []
    else
      var pre := Visualized(text[..|text| - 1]);
      var c := text[|text| - 1];
      if c == ' ' then pre + ['S']
      else if c == '\t' then pre + ['T']
      else if c == '\n' then pre + ['\n']
      else pre
  }

  /** The letter a token is shown as. */
  function Letter(t: Token): char
  {
    match t
    case Space => 'S'
    case Tab => 'T'
    case LF => '\n'
  }

  /** The visualiser shows exactly the significant characters, one letter each, in order. */
  lemma {:induction false} VisualizedShowsTokens(text: seq<char>)
    ensures Visualized(text)
         == seq(|StackManipulation.Tokens(text)|, k requires 0 <= k < |StackManipulation.Tokens(text)|
                  => Letter(StackManipulation.Tokens(text)[k]))
  {
    if text != [] {
      VisualizedShowsTokens(text[..|text| - 1]);
    }
  }

  /** filter: writes the rendering of every character in turn. */
  method Filter(code: seq<char>) returns (out: seq<char>)
    ensures out == Visualized(code)
  {
    out := [];
    for i := 0 to |code|
      invariant out == Visualized(code[..i])
    {
      assert code[..i + 1][..i] == code[..i];
      match code[i] {
        case ' ' => out := out + ['S'];
        case '\t' => out := out + ['T'];
        case '\n' => out := out + ['\n'];
        case _ =>
      }
    }
    assert code[..|code|] == code;
  }

  // ---------------------------------------------------------------------
  // show_mnemonic: the walk over instruction widths.

  /** How far the disassembler steps after the opcode byte b. */
  function MnemonicWidth(b: byte): (w: nat)
    ensures w >= 1
  {
    if b == StackPush || b == StackDupN || b == StackSlide then 1 + WS_INT_SIZE
    else if b == FlowGosub || b == FlowJump || b == FlowBez || b == FlowBltz
    then 1 + WS_ADDR_SIZE
    else 1
  }

  /** The offsets at which the disassembler prints an instruction, from i up to end. */
  function Walk(bytes: seq<byte>, i: nat, end: nat): (offs: seq<nat>)
    requires end <= |bytes|
    ensures i < end ==> |offs| > 0 && offs[0] == i
    decreases end - i
  {
    if i >= end then [] else [i] + Walk(bytes, i + MnemonicWidth(bytes[i]), end)
  }

  /**
   * Every offset the walk prints lies in [i, end), and each one after the
   * first is the previous one plus the width of the opcode found there.
   */
  lemma {:induction false} WalkSteps(bytes: seq<byte>, i: nat, end: nat)
    requires end <= |bytes|
    ensures forall k :: 0 <= k < |Walk(bytes, i, end)| ==> i <= Walk(bytes, i, end)[k] < end
    ensures forall k :: 0 <= k < |Walk(bytes, i, end)| - 1 ==>
      Walk(bytes, i, end)[k + 1] == Walk(bytes, i, end)[k] + MnemonicWidth(bytes[Walk(bytes, i, end)[k]])
    decreases end - i
  {
    if i < end {
      var j := i + MnemonicWidth(bytes[i]);
      var offs, rest := Walk(bytes, i, end), Walk(bytes, j, end);
      assert offs == [i] + rest;
      WalkSteps(bytes, j, end);
      assert forall k :: 0 <= k < |rest| ==> j <= rest[k] < end;
      assert forall k :: 0 <= k < |rest| - 1 ==> rest[k + 1] == rest[k] + MnemonicWidth(bytes[rest[k]]);
      forall k | 0 <= k < |offs|
        ensures i <= offs[k] < end
      {
        if k > 0 {
          assert offs[k] == rest[k - 1];
        }
      }
      forall k | 0 <= k < |offs| - 1
        ensures offs[k + 1] == offs[k] + MnemonicWidth(bytes[offs[k]])
      {
        if k > 0 {
          assert offs[k] == rest[k - 1] && offs[k + 1] == rest[k];
        } else {
          assert offs[1] == rest[0] == j;
        }
      }
    }
  }

  /** show_mnemonic: the loop that steps from opcode to opcode. */
  method ShowMnemonic(bytecode: array<byte>, size: nat) returns (offsets: seq<nat>)
    requires size <= bytecode.Length
    ensures offsets == Walk(bytecode[..], 0, size)
  {
    var pc := 0;
    offsets := [];
    while pc < size
      invariant offsets + Walk(bytecode[..], pc, size) == Walk(bytecode[..], 0, size)
      decreases size - pc
    {
      var next := pc + MnemonicWidth(bytecode[pc]);
      assert Walk(bytecode[..], pc, size) == [pc] + Walk(bytecode[..], next, size);
      offsets := offsets + [pc];
      pc := next;
    }
  }
}
