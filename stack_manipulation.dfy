// The operand stack (a fixed array plus an index, with asserted bounds) and
// the source reader that keeps only the three significant characters.

module StackManipulation {
  import opened Blankspace

  // ---------------------------------------------------------------------
  // Stack operations on values; the class below is proved against them.
  // The top of the stack is the LAST element of the sequence.

  /** Copy of the element n below the top pushed onto the top. */
  function Duplicated(s: seq<i32>, n: nat): (r: seq<i32>)
    requires n < |s|
    ensures |r| == |s| + 1 && r[..|s|] == s
    ensures r[|s|] == s[|s| - 1 - n]
  {
    s + [s[|s| - 1 - n]]
  }

  /** The top kept, the n elements beneath it removed. */
  function Slid(s: seq<i32>, n: nat): (r: seq<i32>)
    requires n < |s|
    ensures |r| == |s| - n
    ensures r[|r| - 1] == s[|s| - 1]
    ensures r[..|r| - 1] == s[..|s| - 1 - n]
  {
    s[..|s| - 1 - n] + [s[|s| - 1]]
  }

  /** The top two elements exchanged. */
  function Swapped(s: seq<i32>): (r: seq<i32>)
    requires |s| > 1
    ensures |r| == |s| && r[..|s| - 2] == s[..|s| - 2]
    ensures r[|s| - 1] == s[|s| - 2] && r[|s| - 2] == s[|s| - 1]
  {
    s[..|s| - 2] + [s[|s| - 1], s[|s| - 2]]
  }

  /** Swapping twice is the identity. */
  lemma SwapSwap(s: seq<i32>)
    requires |s| > 1
    ensures Swapped(Swapped(s)) == s
  {
    var r := Swapped(Swapped(s));
    assert forall k :: 0 <= k < |s| ==> r[k] == s[k] by {
      forall k | 0 <= k < |s| ensures r[k] == s[k] {
        if k < |s| - 2 {
          assert r[..|s| - 2] == s[..|s| - 2];
          assert r[k] == r[..|s| - 2][k];
        }
      }
    }
  }

  /** Sliding zero elements leaves the stack as it is. */
  lemma SlideZero(s: seq<i32>)
    requires |s| > 0
    ensures Slid(s, 0) == s
  {
    assert s == s[..|s| - 1] + [s[|s| - 1]];
  }

  /** Duplicating at depth 0 copies the top itself. */
  lemma DupTop(s: seq<i32>)
    requires |s| > 0
    ensures Duplicated(s, 0) == s + [s[|s| - 1]]
  {
  }

  // ---------------------------------------------------------------------
  // The stack object: `stack[STACK_SIZE]` and `stack_idx`.

  class OperandStack {
    const data: array<i32>
    var idx: nat

    ghost predicate Valid()
      reads this
    {
      data.Length == STACK_SIZE && idx <= data.Length
    }

    /** The elements currently on the stack, bottom first. */
    ghost function Contents(): seq<i32>
      reads this, data
      requires Valid()
    {
      data[..idx]
    }

    /** The number of elements on the stack, `stack_idx`. */
    function Size(): (n: nat)
      reads this, data
      requires Valid()
      ensures n == |Contents()| && n <= STACK_SIZE
    {
      idx
    }

    constructor ()
      ensures Valid() && fresh(data) && Contents() == []
    {
      data := new i32[STACK_SIZE];
      idx := 0;
    }

    /** stack_push: the new element on top, all others unchanged. */
    method Push(e: i32)
      requires Valid() && idx < STACK_SIZE
      modifies this, data
      ensures Valid() && Contents() == old(Contents()) + [e]
    {
      data[idx] := e;
      idx := idx + 1;
      assert data[..idx] == old(Contents()) + [e];
    }

    /** stack_pop: returns the old top and removes it. */
    method Pop() returns (e: i32)
      requires Valid() && idx > 0
      modifies this
      ensures Valid()
      ensures old(Contents()) == Contents() + [e]
    {
      idx := idx - 1;
      e := data[idx];
      assert data[..idx + 1] == data[..idx] + [e];
    }

    /** stack_dup_n: pushes a copy of the element n below the top. */
    method DupN(n: nat)
      requires Valid() && n < idx && idx < STACK_SIZE - 1
      modifies this, data
      ensures Valid() && Contents() == Duplicated(old(Contents()), n)
    {
      data[idx] := data[idx - (n + 1)];
      idx := idx + 1;
      assert data[..idx] == old(Contents()) + [data[idx - 1]];
    }

    /** stack_slide: keeps the top and drops the n elements beneath it. */
    method Slide(n: nat)
      requires Valid() && idx > n
      modifies this, data
      ensures Valid() && Contents() == Slid(old(Contents()), n)
    {
      ghost var top := data[idx - 1];
      data[idx - (n + 1)] := data[idx - 1];
      idx := idx - n;
      assert data[..idx] == old(Contents())[..idx - 1] + [top];
    }

    /** stack_swap: exchanges the top two elements. */
    method Swap()
      requires Valid() && idx > 1
      modifies data
      ensures Valid() && Contents() == Swapped(old(Contents()))
    {
      data[idx - 1], data[idx - 2] := data[idx - 2], data[idx - 1];
      assert data[..idx] == old(data[..idx - 2]) + [old(data[idx - 1]), old(data[idx - 2])];
    }
  }

  /** Push then pop returns the pushed value and restores the stack. */
  method PushPop(st: OperandStack, e: i32) returns (r: i32)
    requires st.Valid() && st.idx < STACK_SIZE
    modifies st, st.data
    ensures st.Valid() && r == e && st.Contents() == old(st.Contents())
  {
    st.Push(e);
    r := st.Pop();
  }

  // ---------------------------------------------------------------------
  // read_file: the source reader.

  /** The token a source character stands for, if it is significant. */
  function TokenOf(c: char): (r: Option<Token>)
    ensures r.Some? <==> c == ' ' || c == '\t' || c == '\n'
  {
    if c == ' ' then Some(Space)
    else if c == '\t' then Some(Tab)
    else if c == '\n' then Some(LF)
    else None
  }

  /** The significant characters of a text, in order, as tokens. */
  function Tokens(text: seq<char>): (ts: seq<Token>)
    ensures |ts| <= |text|
  {
    if text == [] then []
    else
      var rest := Tokens(text[..|text| - 1]);
      match TokenOf(text[|text| - 1])
      case Some(t) => rest + [t]
      case None => rest
  }

  /** The character that a token is written with. */
  function CharOf(t: Token): (c: char)
    ensures TokenOf(c) == Some(t)
  {
    match t
    case Space => ' '
    case Tab => '\t'
    case LF => '\n'
  }

  /** A text made only of tokens is read back unchanged. */
  lemma {:induction false} TokensOfTokenText(ts: seq<Token>)
    ensures Tokens(seq(|ts|, k requires 0 <= k < |ts| => CharOf(ts[k]))) == ts
  {
    var text := seq(|ts|, k requires 0 <= k < |ts| => CharOf(ts[k]));
    if ts != [] {
      var pre := ts[..|ts| - 1];
      TokensOfTokenText(pre);
      assert text[..|text| - 1] == seq(|pre|, k requires 0 <= k < |pre| => CharOf(pre[k]));
      assert ts == pre + [ts[|ts| - 1]];
    }
  }

  /**
   * read_file over the characters the stream delivers: keeps the space, tab
   * and line-feed characters in order and fails once a character is read
   * whose zero-based count exceeds `length` (discarded characters count too).
   * Returns the tokens stored, also on failure.
   */
  method ReadFile(input: seq<char>, length: nat) returns (ok: bool, code: seq<Token>)
    ensures ok <==> |input| <= length + 1
    ensures ok ==> code == Tokens(input)
    ensures !ok ==> code == Tokens(input[..length + 1])
  {
    var cnt := 0;
    code := [];
    while cnt < |input|
      invariant cnt <= |input| && cnt <= length + 1
      invariant code == Tokens(input[..cnt])
    {
      if cnt > length {
        return false, code;
      }
      var ch := input[cnt];
      match TokenOf(ch) {
        case Some(t) => code := code + [t];
        case None =>
      }
      assert input[..cnt + 1][..cnt] == input[..cnt];
      cnt := cnt + 1;
    }
    assert input[..cnt] == input;
    ok := true;
  }

  /**
   * The reader accepts a text of length + 1 spaces, and every one of them is
   * stored: the last lands at index `length`, one past a buffer of `length`
   * characters, and no terminating NUL is left inside the buffer.
   */
  lemma ReadFileFillsPastBuffer(length: nat)
    ensures |seq(length + 1, _ => ' ')| <= length + 1
    ensures |Tokens(seq(length + 1, _ => ' '))| == length + 1
  {
    var ts := seq(length + 1, _ => Space);
    TokensOfTokenText(ts);
    assert seq(|ts|, k requires 0 <= k < |ts| => CharOf(ts[k])) == seq(length + 1, _ => ' ');
  }

  /** The tokens of a prefix of a text are a prefix of the text's tokens. */
  lemma {:induction false} TokensPrefix(text: seq<char>, i: nat)
    requires i <= |text|
    ensures |Tokens(text[..i])| <= |Tokens(text)|
    ensures Tokens(text[..i]) == Tokens(text)[..|Tokens(text[..i])|]
    decreases |text|
  {
    if i == |text| {
      assert text[..i] == text;
    } else {
      var pre := text[..|text| - 1];
      assert pre[..i] == text[..i];
      TokensPrefix(pre, i);
    }
  }

  /**
   * read_file with the buffer check it needs: a significant character is
   * stored only while one cell of the `length`-cell buffer stays free for
   * the NUL that compile stops at; otherwise the reader fails.
   */
  method ReadFileBounded(input: seq<char>, length: nat) returns (ok: bool, code: seq<Token>)
    requires length > 0
    ensures ok <==> |Tokens(input)| < length
    ensures ok ==> code == Tokens(input)
    ensures |code| < length && code == Tokens(input)[..|code|]
  {
    var cnt := 0;
    code := [];
    while cnt < |input|
      invariant cnt <= |input| && |code| < length
      invariant code == Tokens(input[..cnt])
    {
      TokensPrefix(input, cnt);
      match TokenOf(input[cnt]) {
        case Some(t) =>
          if |code| + 1 >= length {
            assert input[..cnt + 1][..cnt] == input[..cnt];
            TokensPrefix(input, cnt + 1);
            return false, code;
          }
          code := code + [t];
        case None =>
      }
      assert input[..cnt + 1][..cnt] == input[..cnt];
      cnt := cnt + 1;
    }
    assert input[..cnt] == input;
    ok := true;
  }
}
