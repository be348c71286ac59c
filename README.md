# Blankspace in Dafny

Blankspace runs programs written in Whitespace. In that language only the
space, the tab and the line feed are significant. Blankspace works in stages:

1. It reads the source file and keeps only those three characters (`read_file`).
2. It compiles the program in one pass into a compact bytecode (`compile` and
   the `gen_*_code` functions). Each instruction becomes one opcode byte,
   optionally followed by a 4-byte operand.
3. It resolves jumps with a label table:
   - a jump to a label defined earlier gets the label's address directly;
   - a jump to a label not yet defined records the operand's offset;
   - the label's definition later back-patches every recorded offset
     (`search_label`, `process_label_define`, `process_label_jump`,
     `add_label` and `add_undef_label`).
4. It runs the bytecode on a stack machine (`execute`) that has:
   - an operand stack of 32-bit integers (`stack_manipulation.c`);
   - a heap of `HEAP_SIZE` cells;
   - a call stack.

The translator file adds a source visualiser (`filter`) and a disassembler
(`show_mnemonic`). It also holds the two lexers the compiler uses:
- `read_nstr`, for numbers: a sign, binary digits, then a line feed;
- `read_label`, for labels: a run of spaces and tabs up to a line feed.

The model follows the files of the program.

| file | models |
|---|---|
| `blankspace.dfy` | The constants and types of `blankspace.h`: capacities, the 4-byte integer and address widths, `UNDEF_ADDR`, the opcodes, and the three source tokens. |
| `operands.dfy` | The 4-byte operands as they sit in the bytecode. They are little-endian. Numbers are two's complement and addresses unsigned. |
| `stack_manipulation.dfy` | The operand stack as a class over an `array<i32>` with the index of its top. It also holds `read_file`'s filter. |
| `c_translator.dfy` | `read_nstr` and `read_label`, each as a specification function plus the loop that computes it; `filter`; the width walk of `show_mnemonic`. |
| `bytecode.dfy` | The decoding dispatch of `compile` and `gen_*_code`, as functions. The reference image of a compiled program, with every operand holding its label's first definition. The lemmas about that image. |
| `labels.dfy` | The label table as a class with a sequence of entries. |
| `commands.dfy` | The command prefixes of `compile`'s switch, and what decoding reads after them. |
| `compiler.dfy` | Compilation into an `array<byte>`, with back-patching. `Compile` is proved to write exactly the reference image. |
| `interpreter.dfy` | `execute` in two forms: one step as a function on machine states, and a `Machine` class whose methods update the stack, heap and call-stack arrays in place. Both are proved to agree. |
| `steps.dfy` | Single steps of `execute` stated for all states: operand order, the one cell a store writes, and underflow faults. |
| `agreement.dfy` | How the machine runs compiled code. Each instruction decodes with the width and operand the compiler gave it. Branches land on the first definition of their label. |

Inside `execute`, every `assert` of the source becomes an explicit fault,
except the division guard: it tests the dividend, and the model tests the
divisor instead (see "Findings"). Every operation there that C leaves
undefined also becomes a fault: signed overflow, and a call stack pushed past
its end. The compiler and the lexers report their
overruns as errors instead: a full label table, a full reference list, a full
bytecode buffer, a number that overflows the shift, and an overlong or
unterminated operand (see "Left out"). `read_file`'s one-cell overrun is
modelled as written and listed under "Findings".

## Model

| member | source | states |
|---|---|---|
| Blankspace.UndefAddrIsNoOffset | blankspace.h:48 | The "undefined" marker `(WsAddrInt) -1` can never be a real offset inside a buffer of `MAX_BYTECODE_SIZE` bytes. |
| Operands.AddrRoundTrip | blankspace.h:39-41 | Reading back the 4 bytes written for an unsigned address gives the same address. |
| Operands.AddrBytesRoundTrip | blankspace.h:39-41 | Any 4 operand bytes are the encoding of the address they read as, so an address read followed by a write changes no byte. |
| Operands.IntRoundTrip | blankspace.h:36-38 | Reading back the 4 bytes written for a signed integer gives the same integer (two's complement). |
| Operands.Signed | blankspace.h:36-41 | The signed reading of an unsigned value converts back to that value. |
| StackManipulation.Duplicated | stack_manipulation.c:29-33 | `dup_n n` keeps the stack and appends a copy of the element n places below the top. |
| StackManipulation.Slid | stack_manipulation.c:40-44 | `slide n` drops the n elements under the top and keeps the top and everything below them. |
| StackManipulation.Swapped | stack_manipulation.c:50-53 | `swap` exchanges the two top elements and leaves the rest as it was. |
| StackManipulation.SwapSwap | stack_manipulation.c:50-53 | Swapping twice restores the stack. |
| StackManipulation.SlideZero | stack_manipulation.c:40-44 | `slide 0` changes nothing. |
| StackManipulation.DupTop | stack_manipulation.c:29-33 | `dup_n 0` pushes a copy of the top. |
| StackManipulation.OperandStack.constructor | blankspace.c:7-8 | A new stack is empty and has room for `STACK_SIZE` values. |
| StackManipulation.OperandStack.Size | blankspace.c:7-8 | `stack_idx` is the number of elements on the stack, and never exceeds `STACK_SIZE`. |
| StackManipulation.OperandStack.Push | stack_manipulation.c:10-13 | When the stack is not full, push appends the value. |
| StackManipulation.OperandStack.Pop | stack_manipulation.c:20-23 | When the stack is not empty, pop returns the top, and the old contents are the new ones plus the returned value. |
| StackManipulation.OperandStack.DupN | stack_manipulation.c:29-33 | Under the source's bound (`n < idx < STACK_SIZE - 1`), the contents become `Duplicated(old, n)`. |
| StackManipulation.OperandStack.Slide | stack_manipulation.c:40-44 | When `idx > n`, the contents become `Slid(old, n)`. |
| StackManipulation.OperandStack.Swap | stack_manipulation.c:50-53 | When `idx > 1`, the contents become `Swapped(old)`. |
| StackManipulation.PushPop | stack_manipulation.c:10-23 | A push followed by a pop returns the pushed value and leaves the stack as it was. |
| StackManipulation.TokenOf | stack_manipulation.c:71-77 | A character is kept exactly when it is a space, a tab or a line feed. |
| StackManipulation.Tokens | stack_manipulation.c:66-78 | The filtered code is never longer than the text. |
| StackManipulation.CharOf | stack_manipulation.c:71-77 | Each token's character is one the filter keeps, as that token. |
| StackManipulation.TokensOfTokenText | stack_manipulation.c:66-78 | Filtering a text that holds only significant characters gives back those tokens in order. |
| StackManipulation.ReadFile | stack_manipulation.c:63-80 | Success holds exactly when the input has at most `length + 1` characters. Then the code is the filtered input. On failure, the code is the filtered first `length + 1` characters (the check comes before the store). |
| StackManipulation.ReadFileFillsPastBuffer | stack_manipulation.c:66-75 | A source of `length + 1` spaces passes the check and filters to `length + 1` tokens: the last is stored at index `length`, one past the caller's buffer, and no NUL is left inside it. |
| StackManipulation.TokensPrefix | stack_manipulation.c:66-78 | Filtering a prefix of a text gives a prefix of the text's tokens. |
| StackManipulation.ReadFileBounded | stack_manipulation.c:63-80 | The corrected reader succeeds exactly when the significant characters leave one cell free for the NUL. It then holds them all. It always stores fewer than `length` tokens, and they are the first tokens of the text. |
| Labels.Find | interpreter.c:396-404 | Returns an index at or after i whose entry has the given name, and returns none only when no entry from i on has it. |
| Labels.LabelTable.constructor | blankspace.c:10-11 | A new table has no entries. |
| Labels.LabelTable.SearchLabel | interpreter.c:396-404 | Finds an entry with the name, and finds none exactly when no entry has it. |
| Labels.LabelTable.AddLabel | interpreter.c:471-487 | When the table has room, appends a resolved entry for a new name at the given address; otherwise reports failure and changes nothing. |
| Labels.LabelTable.AddUndefLabel | interpreter.c:495-511 | When the table has room, appends a pending entry whose site list holds the one reference offset; otherwise reports failure and changes nothing. |
| Labels.LabelTable.AddSite | interpreter.c:455-456 | When the site list holds fewer than `UNDEF_LIST_SIZE` offsets, appends the offset to that pending label's list. Only that entry changes. |
| Labels.LabelTable.Resolve | interpreter.c:427-429 | Marks the entry resolved at the address. Only that entry changes. |
| Translator.RunEnd | c_translator.c:424-429 | The end of a run of tokens lies between its start and the end of the code. |
| Translator.NumberAtSpec | c_translator.c:412-432 | A number that was read ends on a line feed with none before it. A line feed right after the cursor reads as 0. |
| Translator.ReadNumber | c_translator.c:412-432 | The shift-and-add loop returns exactly `NumberAt`: sign, binary digits, end index, overflow and missing terminator. |
| Translator.Digits | c_translator.c:424-429 | The digit string of a magnitude contains no line feed. |
| Translator.DigitsValue | c_translator.c:424-429 | The binary digits written for m read back as m. |
| Translator.EncodeNumber | c_translator.c:412-432 | An encoded number is a sign, some non-line-feed digits, and one final line feed. |
| Translator.NumberRoundTrip | c_translator.c:412-432 | Reading an encoded 32-bit number (other than -2^31) from any surrounding code gives the number back and stops at its line feed. |
| Translator.LabelName | c_translator.c:446-455 | A label name consists only of 'S' and 'T'. |
| Translator.LabelNameLength | c_translator.c:446-455 | Each token of a line-feed-free run gives exactly one letter. |
| Translator.LabelNameInjective | c_translator.c:446-455 | Two runs give the same name if and only if they are the same tokens. |
| Translator.LabelAtSpec | c_translator.c:440-459 | A label that was read ends on a line feed, is named one letter per token before it, and is shorter than `MAX_LABEL_LENGTH`. |
| Translator.ReadLabel | c_translator.c:440-459 | The buffer-filling loop returns exactly `LabelAt`, including the too-long and unterminated cases. |
| Translator.Visualized | c_translator.c:597-611 | The rendering contains only 'S', 'T' and line feeds, and is no longer than the text. |
| Translator.VisualizedShowsTokens | c_translator.c:597-611 | The rendering shows the significant characters of the text (the tokens `read_file` keeps), one letter each, in order. |
| Translator.Filter | c_translator.c:597-611 | The loop writes exactly `Visualized(code)`. |
| Translator.MnemonicWidth | c_translator.c:501-587 | The disassembler always advances by at least one byte. |
| Translator.Walk | c_translator.c:499 | A walk below its end starts at its first offset. |
| Translator.WalkSteps | c_translator.c:499-588 | Every printed offset lies in the buffer. Each next offset is the previous one plus the width of its opcode. |
| Translator.ShowMnemonic | c_translator.c:496-589 | The loop visits exactly the offsets of `Walk(bytecode, 0, size)`. |
| Commands.NumberCommandDecodes | interpreter.c:176-199 | The command prefix of PUSH, DUP_N or SLIDE followed by the encoding of any 32-bit number except -2^31 decodes to that instruction with that number. Decoding ends on the number's final line feed. |
| Commands.LabelCommandDecodes | interpreter.c:297-325 | The command prefix of a label definition, call, jump or branch, followed by a run of spaces and tabs shorter than `MAX_LABEL_LENGTH` and a line feed, decodes to that instruction. The instruction carries the run's name and ends on that line feed. |
| Translator.LabelAtRun | c_translator.c:440-459 | A run of spaces and tabs shorter than the limit, ended by a line feed, reads back as its name and ends at that line feed. |
| Bytecode.DecodeInstr | interpreter.c:141-164 | Decoding always consumes at least one token and stays within the code. |
| Bytecode.OpOf | blankspace.h:60-67 | The compiler never emits `FLOW_LABEL` or `STACK_DUP`. |
| Bytecode.WidthsAgree | c_translator.c:501-587 | The disassembler's width for an emitted opcode is the width the compiler gave the instruction. |
| Bytecode.DupCompilesToDupN | interpreter.c:204-208 | Duplicating the top compiles to `STACK_DUP_N` with operand 0, not to `STACK_DUP`. |
| Bytecode.SizeOfPrefix | interpreter.c:141-166 | A prefix of a program compiles to no more bytes than the program. |
| Bytecode.Defs | interpreter.c:419-420 | Every defined label's offset lies within the program's bytes. |
| Bytecode.Sites | interpreter.c:453-456 | Each recorded operand offset of a label leaves room for a whole address within the program's bytes. |
| Bytecode.Target | interpreter.c:453-460 | A reference operand is 4 bytes. |
| Bytecode.Chunk | interpreter.c:176-385 | An instruction compiles to exactly its width in bytes. |
| Bytecode.Image | interpreter.c:141-166 | A program's image has exactly `SizeOf` bytes. |
| Bytecode.ImageAppend | interpreter.c:141-166 | Compiling one more instruction appends its chunk to the image. |
| Bytecode.PatchImage | interpreter.c:422-427 | Back-patching every recorded site of l with address a turns the image with l unresolved into the image with l at a. This is the back-patching theorem. |
| Bytecode.ImageAt | interpreter.c:141-166 | The k-th instruction's bytes sit at its offset in the image. |
| Bytecode.DefsFirst | interpreter.c:419-432 | A label's address is the offset of its first definition. A later duplicate definition is ignored. |
| Bytecode.NeverDefined | interpreter.c:453-456 | A label with no definition has no address. |
| Bytecode.OperandsHoldFirstDefinitions | interpreter.c:413-463 | In a compiled program, the operand of every branch to a defined label reads as the offset of that label's first definition, whether the reference comes before or after it. |
| Bytecode.TargetResolved | interpreter.c:458 | The operand written for a resolved label reads back as its address. |
| Bytecode.UndefinedOperandsUntouched | interpreter.c:453-456 | The operand of a reference to a label that is never defined keeps the bytes the buffer held before compilation. |
| Bytecode.WalkConcat | c_translator.c:499-588 | A walk splits at any offset it lands on. |
| Bytecode.WalkVisitsInstructions | c_translator.c:496-589 | Disassembling a compiled program lands on its end and prints exactly at the start offsets of its non-silent instructions. |
| Compiler.ExpectedAppend | interpreter.c:413-463 | After one more instruction, the correct table entry for each label is given by `Advance`: the first definition resolves; a reference before it adds its operand offset. |
| Compiler.ConsistentStep | interpreter.c:413-463 | A table step that follows `Advance` keeps the table truthful about every label. |
| Compiler.WriteBytes | interpreter.c:425-458 | Writes the bytes at the position and leaves the rest of the buffer unchanged. |
| Compiler.Backpatch | interpreter.c:424-426 | Writes the address at every recorded site and nothing else. |
| Compiler.ProcessLabelDefine | interpreter.c:413-436 | Three cases. A new label is added as resolved. A pending label has all its sites patched and is resolved. A duplicate definition changes nothing. The only error is a full table on a new name, and it changes nothing. |
| Compiler.ProcessLabelJump | interpreter.c:447-463 | A resolved label's address is written into the operand. Otherwise the operand offset is recorded, as a new pending entry or appended to the label's list. It fails, changing nothing, exactly when the table or that list is full. |
| Compiler.LabelCountAppend | interpreter.c:471-511 | The table gains an entry exactly when an instruction names a label that no earlier instruction named. |
| Compiler.MarkTableError | interpreter.c:413-436 | A definition fails, with `TooManyLabels`, exactly when its label is new and the table already holds `MAX_N_LABEL` labels. |
| Compiler.RefTableError | interpreter.c:447-463 | A reference fails exactly when its label is new and the table is full (`TooManyLabels`), or its label is pending with `UNDEF_LIST_SIZE` sites (`TooManyForwardRefs`). A reference to a resolved label never fails. |
| Compiler.TableFitsAppend | interpreter.c:413-463 | A program extended by one instruction fits the table exactly when the program fits and the instruction meets no table error after it. |
| Compiler.TableErrorBreaks | interpreter.c:413-463 | A program with an instruction that meets a table error after its predecessors does not fit the table. |
| Compiler.MarkHolds | interpreter.c:413-436 | Resolving a label and patching its pending sites turns the compiled state of a program into that of the program with the definition appended. |
| Compiler.RefHolds | interpreter.c:447-463 | Writing the opcode, and then the address of a resolved label, while the table records a pending reference, turns the compiled state of a program into that of the program with the reference appended. |
| Compiler.PlainHolds | interpreter.c:176-385 | Writing an instruction's chunk turns the compiled state of a program into that of the program with the instruction appended. |
| Compiler.EmitMark | interpreter.c:303-305 | The error is exactly the table error of the definition after the program so far. On success, the buffer and the table equal those of the program with the definition appended. |
| Compiler.EmitRef | interpreter.c:306-325 | The error is exactly the table error of the reference: a new label on a full table, or a pending label with a full list. On success, the opcode and the resolved or pending operand are written, and buffer and table equal the extended program's. |
| Compiler.EmitPlain | interpreter.c:176-385 | An instruction without a label writes its chunk, keeping buffer and table equal to the compiled program's. |
| Compiler.Emit | interpreter.c:141-166 | The error is exactly the table error of the instruction after the program so far (none for an instruction without a label). On success, the compiled state extends by that instruction. |
| Compiler.EmitFitting | interpreter.c:141-166 | The error is `BytecodeFull` exactly when the instruction does not fit the buffer. Otherwise it is the instruction's table error, and on success the compiled state extends by it. |
| Compiler.StopsOnlyWhatDoesNotFit | interpreter.c:141-166 | No error stops a program that lexes, fits the buffer and fits the table. |
| Compiler.TableErrorEndsFit | interpreter.c:413-463 | An instruction that meets a table error means the whole program does not fit the table. |
| Compiler.LexFails | interpreter.c:141-166 | An instruction the lexer rejects ends the whole program with that error. |
| Compiler.StepOutcome | interpreter.c:143-165 | Emitting one decoded instruction either reports an error that the whole program earns, or leaves the rest of the program to compile after a prefix that fits the table. |
| Compiler.EmitDecoded | interpreter.c:143-165 | Emits a decoded instruction. An error is one the whole program earns. On success the pass advances past the instruction, and the compiled prefix fits the table. |
| Compiler.CompileStep | interpreter.c:143-165 | One loop iteration decodes an instruction. It either extends the compiled prefix, or reports an error the whole program earns: its lexing error, a size beyond the buffer, or a label table it overflows. |
| Compiler.Compile | interpreter.c:141-168 | On success the size is that of the decoded program, the buffer starts with its reference image, and the rest of the buffer is untouched. A lexing error is the program's own. `BytecodeFull` means the program is larger than the buffer. A table error means the program does not fit the table. Conversely, a program that lexes, fits the buffer and fits the table always compiles. |
| Interpreter.QuotRem | interpreter.c:57-68 | C's truncating `/` and `%` satisfy `q*a + r == b`, with `abs(r) < abs(a)`, r taking the sign of b, and `abs(q*a) <= abs(b)`. |
| Interpreter.QuotientOverflow | interpreter.c:57-68 | The only 32-bit division whose quotient leaves the int range is `-2^31 / -1`. |
| Interpreter.Imm | interpreter.c:19-21 | The operand after an opcode exists exactly when the bytecode holds 4 more bytes. |
| Interpreter.PushStep | interpreter.c:18-22 | A successful push keeps the arrays within their sizes, keeps the I/O order, and moves the pc over the 4-byte operand. Its stack effect is checked against the arrays by `Machine.DoPush`. |
| Interpreter.DupStep | interpreter.c:23-30 | A successful duplicate keeps the sizes and the I/O order and moves the pc by the instruction's width: 5 bytes for `STACK_DUP_N`, 1 for `STACK_DUP`. |
| Interpreter.SlideStep | interpreter.c:31-35 | A successful slide keeps the sizes and the I/O order and moves the pc over the 4-byte operand. |
| Interpreter.SwapStep | interpreter.c:36-38 | A successful swap keeps the sizes and the I/O order and moves to the next byte. |
| Interpreter.DiscardStep | interpreter.c:39-41 | A successful discard keeps the sizes and the I/O order and moves to the next byte. |
| Interpreter.ArithStep | interpreter.c:42-68 | A successful arithmetic step keeps the sizes and the I/O order and moves to the next byte. Its faults are characterised by `DivisionFaultsOnZeroDivisor` and `QuotientOverflow`. |
| Interpreter.StoreStep | interpreter.c:69-74 | A successful store keeps the sizes (the heap stays `HEAP_SIZE` cells) and the I/O order and moves to the next byte. |
| Interpreter.LoadStep | interpreter.c:75-79 | A successful load keeps the sizes and the I/O order and moves to the next byte. |
| Interpreter.CallStep | interpreter.c:80-84 | A successful call keeps the call stack within `CALL_STACK_SIZE` and keeps the I/O order. |
| Interpreter.ReturnStep | interpreter.c:105-107 | A successful return keeps the sizes and the I/O order. |
| Interpreter.BranchStep | interpreter.c:89-104 | A successful conditional branch keeps the sizes and the I/O order. |
| Interpreter.PutCharStep | interpreter.c:108-110 | A successful character write only appends to the output and moves to the next byte. |
| Interpreter.PutNumStep | interpreter.c:111-113 | A successful number write only appends to the output and moves to the next byte. |
| Interpreter.ReadCharStep | interpreter.c:114-119 | A successful character read consumes input only from the front and moves to the next byte. |
| Interpreter.ReadNumStep | interpreter.c:120-125 | A successful number read consumes input only from the front and moves to the next byte. |
| Interpreter.ExecOp | interpreter.c:17-128 | Every successful step keeps the arrays within their sizes. Output only grows, and input is only consumed from the front. |
| Interpreter.Exec | interpreter.c:16-131 | The machine stops exactly at a zero byte. Every other step keeps the sizes and the I/O order. |
| Interpreter.AsWrittenGuardTestsDividend | interpreter.c:57-68 | The guard as written lets `1 / 0` through and refuses `0 / 5`. |
| Interpreter.DivisionFaultsOnZeroDivisor | interpreter.c:57-68 | The corrected step faults with division by zero exactly when the divisor is 0, and divides a zero dividend. |
| Interpreter.CallThenReturn | interpreter.c:80-107 | A call to a subroutine that immediately returns resumes right after the call's operand. |
| Interpreter.CallEnters | interpreter.c:80-84 | A call pushes the offset of its operand's last byte and jumps to the operand's address. |
| Interpreter.ReturnResumes | interpreter.c:105-107 | A return from a call resumes at the instruction after the call. |
| Interpreter.StepWidth | interpreter.c:16-131 | Every instruction that does not transfer control moves the pc by exactly the width the disassembler uses. |
| Interpreter.TransferTarget | interpreter.c:80-104 | A transfer of control lands on the address in its operand. |
| Interpreter.NumberStep | interpreter.c:18-35 | PUSH, DUP_N and SLIDE act on the number their operand bytes encode. |
| Steps.ArithOperandOrder | interpreter.c:42-68 | On a stack `rest + [b, a]`, ADD, SUB, MUL and DIV leave `rest + [b OP a]`: the top is the right operand. A SUB that leaves the int range faults. |
| Steps.StoreChangesOnlyItsCell | interpreter.c:69-74 | A store writes the popped value into the cell named by the popped address. Every other cell, the call stack, the input and the output are unchanged, and the stack loses its top two elements. |
| Steps.StoreThenLoad | interpreter.c:69-79 | Storing v at an in-range address, pushing that address and loading it leaves `rest + [v]`. |
| Steps.ShortStackFaults | stack_manipulation.c:20-23 | Every instruction that pops faults with a stack underflow on a stack shorter than it needs: one element for DUP, DISCARD, LOAD, the branches and the I/O instructions, two for SWAP, the arithmetic and STORE. ENDSUB faults on an empty call stack. |
| Steps.ShortStackFaultsOnOperand | interpreter.c:23-35 | SLIDE, and DUP_N on a stack with room, fault with a stack underflow when the operand reaches past the bottom of the stack. |
| Interpreter.Run | interpreter.c:16-132 | A run that does not fault keeps the sizes and the I/O order, and a stopped run is at a zero byte. |
| Interpreter.RunAfterStep | interpreter.c:16-132 | A run is one step followed by a run with one less step of fuel. |
| Interpreter.Machine.constructor | interpreter.c:11-15 | A new machine has empty stacks, a zeroed heap, pc 0 and the given input. |
| Interpreter.Machine.DoPush | interpreter.c:18-22 | Updates the arrays exactly as `PushStep` says. |
| Interpreter.Machine.DoDup | interpreter.c:23-30 | Updates the arrays exactly as `DupStep` says. |
| Interpreter.Machine.DoSlide | interpreter.c:31-35 | Updates the arrays exactly as `SlideStep` says. |
| Interpreter.Machine.DoSwap | interpreter.c:36-38 | Updates the arrays exactly as `SwapStep` says. |
| Interpreter.Machine.DoDiscard | interpreter.c:39-41 | Updates the arrays exactly as `DiscardStep` says. |
| Interpreter.Machine.DoArith | interpreter.c:42-68 | Updates the arrays exactly as `ArithStep` says, with the corrected divisor check. |
| Interpreter.Machine.DoStore | interpreter.c:69-74 | Updates the arrays exactly as `StoreStep` says. |
| Interpreter.Machine.DoLoad | interpreter.c:75-79 | Updates the arrays exactly as `LoadStep` says. |
| Interpreter.Machine.DoCall | interpreter.c:80-84 | Updates the arrays exactly as `CallStep` says. |
| Interpreter.Machine.DoReturn | interpreter.c:105-107 | Updates the arrays exactly as `ReturnStep` says. |
| Interpreter.Machine.DoBranch | interpreter.c:89-104 | Updates the arrays exactly as `BranchStep` says. |
| Interpreter.Machine.DoPutChar | interpreter.c:108-110 | Updates the state exactly as `PutCharStep` says. |
| Interpreter.Machine.DoPutNum | interpreter.c:111-113 | Updates the state exactly as `PutNumStep` says. |
| Interpreter.Machine.DoReadChar | interpreter.c:114-119 | Updates the state exactly as `ReadCharStep` says. |
| Interpreter.Machine.DoReadNum | interpreter.c:120-125 | Updates the state exactly as `ReadNumStep` says. |
| Interpreter.Machine.Step | interpreter.c:17-131 | One pass of the loop body changes the machine exactly as `Exec` says, and reports a stop or a fault when `Exec` does. |
| Interpreter.Machine.Execute | interpreter.c:10-133 | The loop ends exactly as `Run` with the same fuel says: stopped at a zero byte, faulted, or out of fuel. The final state is `Run`'s. |
| Agreement.ChunkInCode | interpreter.c:141-166 | The k-th compiled instruction's bytes are at its offset in the bytecode. |
| Agreement.ChunkParts | interpreter.c:176-385 | A chunk starts with the instruction's opcode and carries its number, or its label operand. |
| Agreement.Fetched | interpreter.c:17-20 | At the k-th instruction's offset the machine finds its opcode and its operand. |
| Agreement.OffsetNext | interpreter.c:141-166 | The next instruction starts one width after the current one. |
| Agreement.BranchReachesLabel | interpreter.c:80-104 | A compiled jump or call, and a conditional branch whose condition holds, transfers control to the first definition of its label. |
| Agreement.BranchDecoded | interpreter.c:80-104 | At a compiled branch the machine decodes a transfer whose operand names the label's offset. |
| Agreement.BranchOperand | interpreter.c:413-463 | The operand of a compiled branch to a defined label reads as the label's first offset. |
| Agreement.StepsToNextInstruction | interpreter.c:16-131 | Every other compiled instruction passes control to the next compiled instruction. A compiled HALT, and only it, stops the machine. |
| Agreement.NumberOperandsArrive | interpreter.c:18-35 | The number a compiled PUSH, DUP_N, DUP or SLIDE carries is the one the machine acts on. |
| Agreement.NumberDecoded | interpreter.c:18-35 | At a compiled number instruction the machine reads the compiled number. |

## Left out

- **Standard streams.** Standard input and output, including `fflush`, are
  modelled as a sequence of input values and a sequence of output items. The
  `"%d"` formatting of `printf` and `scanf` is not modelled; numbers are read
  and written as values.
- **The `HALT` message.** `execute`'s `printf("HALT\n")` is not modelled. The
  loop exits before reaching it, since `FLOW_HALT` is the zero byte that
  stops the loop.
- **Fuel.** `execute` may not terminate. The model runs it for a given number
  of steps (`Run`, `Machine.Execute`) and reports running out of fuel
  separately.
- **Abnormal exit.** A failed `assert` aborts the process. Undefined behaviour
  (overflow, an index past a fixed array, a read past the bytecode) is
  unpredictable. Both become a `Fault`, and the state after a fault is not
  specified.
- **Fixed capacities during compilation.** The source writes past its fixed
  arrays in three places:
  - the label table, past `MAX_N_LABEL` labels;
  - a label's site list, past `UNDEF_LIST_SIZE` forward references;
  - the bytecode buffer.

  The compiler reports these as errors (`TooManyLabels`, `TooManyForwardRefs`
  and `BytecodeFull`) instead of modelling the memory corruption.
- **Overlong labels.** A label at least `MAX_LABEL_LENGTH` tokens long
  overflows `read_label`'s static buffer. It is reported as `LabelTooLong`.
- **Unterminated operands.** A number or label operand without a final line
  feed makes the source read past its buffer. It is reported as
  `Unterminated`.
- **Translator.ReadNumber: overflowing numbers.** A number of `2^31` or more
  overflows `read_nstr`'s signed shift, and the model reports it as
  `NumberOverflow`. So the literal `-2^31` cannot be written, because its
  magnitude does not fit.
- Interpreter.PushStep, DupStep, SlideStep, SwapStep, DiscardStep, ArithStep,
  StoreStep, LoadStep, CallStep, ReturnStep, BranchStep, PutCharStep,
  PutNumStep, ReadCharStep, ReadNumStep: their own contracts state only the
  frame of a step: sizes, I/O order and where the pc goes. What each step
  does to the stack, heap and call stack is its definition. The `Machine`
  methods are proved to carry it out on the arrays. `ArithOperandOrder`,
  `StoreChangesOnlyItsCell`, `StoreThenLoad`, `ShortStackFaults`,
  `ShortStackFaultsOnOperand`, `DivisionFaultsOnZeroDivisor` and the call,
  branch and agreement lemmas state it for all inputs.
- **Translator.NumberRoundTrip:** covers every `i32` except `-2^31`, for the
  reason above.
- Commands.NumberCommandDecodes: covers every `i32` except `-2^31`, for the
  same reason.
- **Compiler.Compile: the label table.** The source's table is global and
  never cleared between compilations. The model compiles with a fresh table.
  `free_label_info_list` and the `calloc` and `exit` error paths of
  `add_label` and `add_undef_label` are not modelled. Diagnostics on
  standard error for undefined commands and duplicate labels are not
  modelled either; the command emits nothing, as in the source.
- **Bytecode.DecodeInstr: an input that ends mid-prefix.** The source reads
  the NUL terminator and emits nothing, and its loop then steps past the
  terminator. The model decodes this as `Cut`, which emits nothing and ends
  compilation.
- **Output routines.** `show_bytecode`, the text `show_mnemonic` prints, and
  the C translator's printers (`translate` and `print_*`) are left out. Only
  the offsets at which `show_mnemonic` prints are modelled.
- **Byte order.** Host endianness is fixed as little-endian. The operand
  casts of the source depend on the host.
- **The command line.** `main` and `parse_arguments` are not part of this
  model.

## Findings

| source | as written | input that shows it | evidently intended | confidence | as-written member | corrected member |
|---|---|---|---|---|---|---|
| interpreter.c:57-68 | `ARITH_DIV` and `ARITH_MOD` pop the divisor `a` and the dividend `b`, then assert `b != 0` before computing `b / a` and `b % a`. | Stack `[1, 0]` passes the guard and divides by zero. Stack `[0, 5]` (computing 0 / 5) is refused. | Check the divisor: fault exactly when `a == 0`. | not executed | Interpreter.AsWrittenGuardTestsDividend | Interpreter.DivisionFaultsOnZeroDivisor |
| stack_manipulation.c:67 | `read_file` fails only when `cnt > length`, where `cnt` counts every character read. It stores each space, tab and line feed at the next cell of a `length`-cell buffer. | A file of `length + 1` spaces passes every check, and its last space is stored at index `length`. For `main`'s buffer (blankspace.c:20, 37) that is one past `code[MAX_SOURCE_SIZE]`, and no NUL is left for `compile`, whose loop stops at one (interpreter.c:143). | Store a significant character only while a cell stays free for the NUL, and fail otherwise. | not executed | StackManipulation.ReadFileFillsPastBuffer | StackManipulation.ReadFileBounded |
