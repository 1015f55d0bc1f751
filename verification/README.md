# plzero compiler core, modelled in Dafny

This project models the core of dodobyte/plzero, a compiler for PL/0
written in Go. The repository holds two versions of the compiler that share
a front end.

- **The assembly-emitting version** is plzero.go with code.go. It has a
  register-stack code generator whose instructions are printed as NASM text,
  and a label stack for `if` and `while`.
- **The native version** is parser.go with pe.go. It writes a Windows PE
  executable around machine code. Its instruction encoder is not part of
  this model.

The model covers four parts.

- **The scanner** `next`: module `Lexer`, with its properties in
  `LexerFacts`. It is a pure function from the unread input bytes and the
  line counter to a token, the rest of the input and the new line counter.
  It is shared by both versions, whose scanners are the same text.
- **The scope rules** `check`, `declare` and the scope bookkeeping of
  `block`: modules `Scopes`, `ScopeFacts` and `ScopeFindings`. They are
  shared by both versions as well.
- **The assembly code generator.**
  - `AsmGen` holds the generators of code.go and the label stack of
    plzero.go.
  - `X86` is a small abstract 32-bit machine. It has the seven pool
    registers, a native stack, named global words and the flags of the last
    comparison.
  - `AsmGenFacts` and `AsmGenSteps` prove what each generator's
    instructions do on that machine. The register pool behaves as a value
    stack of depth `reg`.
  - `AsmParser` is the recursive-descent parser of plzero.go. It reads the
    token sequence the scanner produces, applies the scope rules and drives
    the generators. Each Go `fatal` becomes an `Err` that carries the line
    number. The parser state carries a `Variant`. `AsWritten` is plzero.go
    with code.go as they stand. `Corrected` applies the two corrections of
    the findings below: `cdq` in `genDiv`, and restoring the enclosing scope
    at the end of a block. Every parser and semantics lemma holds for both
    variants.
  - `AsmSemantics` proves that the code emitted for an expression pushes
    the value of the expression tree the parser built, where `/` has the
    meaning of the variant's division. It also proves that
    the conditional jump emitted for a condition is taken exactly when the
    condition is false.
- **The PE container** of pe.go.
  - `LittleEndian` models `writeInt32`, `int2byte` and Go's `copy`.
  - `PeImage` models the import table built by `createImports` and the
    headers written by `dumpExe`. `dumpExe` is modelled as a function from
    the code bytes and the entry point to the bytes of the file.

`Outcomes` provides `Option` and `Result`. `Bytes` provides the byte type
and the ASCII conversions.

## Model

| member | source | states |
|---|---|---|
| `Lexer.Next` | parser.go:85-142 | A token read always consumes input. What is left is a proper suffix of the input. The new line counter is the old one plus the newlines in the bytes consumed. |
| `Lexer.NextInteger` | parser.go:97-103 | The integer branch, entered at a digit, consumes a non-empty prefix of the input. The line counter advances by the newlines in that prefix. |
| `Lexer.NextWord` | parser.go:104-124 | The word branch, entered at `_` or a letter, consumes a non-empty prefix of the input. The line counter advances by the newlines in that prefix. |
| `Lexer.NextOperator` | parser.go:125-141 | The operator branch consumes a non-empty prefix of the input. The line counter advances by the newlines in that prefix. |
| `LexerFacts.NextSkipsSpace` | parser.go:90-96 | A whitespace byte is skipped. Scanning resumes after it, with the line counter advanced by one exactly when the byte is `'\n'`. |
| `LexerFacts.SkipsWhitespace` | parser.go:89-96 | Scanning after any run of whitespace gives the same result as scanning the text after it, with the line counter advanced by the number of newlines in the run. |
| `LexerFacts.ScansInteger` | parser.go:97-103 | A run of digits followed by a non-digit or the end of the input gives an integer token whose value is the decimal value of the run. The following byte stays unread and the line is unchanged. |
| `LexerFacts.ScansWord` | parser.go:104-124 | A word starts with `_` or a letter and covers the longest run of `_`, letters and digits. A keyword gets its own token type; any other word is an identifier carrying its name. The byte after the word stays unread. |
| `LexerFacts.WordAtEndOfInput` | parser.go:106-116 | A word that runs into the end of the input fails with "EOF", because the scanner reads one byte past the word. |
| `LexerFacts.DotNeedsNoLookahead` | parser.go:126-130 | `.` is returned without reading a second byte. |
| `LexerFacts.OperatorLongestMatch` | parser.go:131-141 | For any two bytes, a two-byte operator wins. Failing that, a one-byte operator wins and the second byte is unread. Otherwise the scan fails with "unknown token". |
| `LexerFacts.LoneColonRejected` | parser.go:133-141 | A `:` not followed by `=` is rejected with "unknown token". |
| `LexerFacts.NextSpelled` | parser.go:85-142 | Round trip: a token that has a spelling, written out and followed by a blank, scans back to the same token and leaves the blank unread. |
| `Scopes.Check` | parser.go:158-173 | A use succeeds exactly when the name resolves, active scope first and then global, and is not a constant being assigned. A name found in neither scope fails with "undeclared"; a resolved constant that is assigned fails with "is constant". |
| `Scopes.Declare` | parser.go:175-191 | Declaring fails with "redeclared" exactly when the name is already in the same scope. A global gets address `datap`, `datap` grows by 4 and the value is emitted as data. A local gets `4*nlocal` and `nlocal` grows by 1. No other scope or symbol changes. |
| `Scopes.EnterBlock` | parser.go:310-313 | A new scope record (entry `pc`, empty table) is created and made active only when the scope does not exist. An existing scope and the active scope are then left as they were. |
| `Scopes.LeaveBlock` | parser.go:361 | The end of a block as written makes the global scope active and keeps every table. |
| `Scopes.LeaveBlockRestoring` | plzero.go:374 | The corrected end of a block makes the scope that was active on entry active again and keeps every table. |
| `ScopeFacts.LocalShadowsGlobalConstant` | parser.go:158-169 | A local variable may be assigned even when a global constant has the same name. In the global scope the constant may not be assigned. |
| `ScopeFacts.DeclarePreservesWellFormed` | parser.go:180-190 | Declaring keeps the addressing invariant: globals have distinct addresses below `datap`, and the locals of a procedure have distinct word offsets inside its frame. |
| `ScopeFacts.SuccessiveDeclarations` | parser.go:180-190 | Two globals declared in a row get `datap` and `datap+4`. Two locals get `4k` and `4k+4`, and `nlocal` grows by 2. |
| `ScopeFacts.EnterBlockIdempotent` | parser.go:310-313 | Entering a block again changes nothing: the scope is never reset. |
| `ScopeFacts.EnterBlockPreservesWellFormed` | parser.go:308-313 | Creating a scope keeps the addressing invariant. |
| `ScopeFacts.RestoringKeepsResolution` | parser.go:345-361 | After a nested block that left the enclosing and global tables alone, restoring the enclosing scope resolves every name as before the nested block. |
| `ScopeFindings.NestedProcedureHidesLocals` | parser.go:345-361 | As written: once nested procedure `q` ends, `y := 2` in the body of `p` fails with "y undeclared", although `y` is a local of `p`. |
| `ScopeFindings.RestoredScopeKeepsLocals` | plzero.go:358-374 | With the corrected block exit, `y` is still assignable in the body of `p`. |
| `AsmGen.AddLabel` | plzero.go:149-152 | The new label number is one more than the last one issued and is pushed. It is greater than every pending label, and the pending labels stay strictly increasing. |
| `AsmGen.GetLabel` | plzero.go:154-159 | The stack must be non-empty. The label pushed most recently is popped and returned. |
| `AsmGen.GenImm` | code.go:27-30 | Depth grows by exactly 1. With all seven registers in use, it fails (Go's index panic). |
| `AsmGen.GenIdent` | code.go:8-25 | Depth grows by exactly 1 for a constant as well as for a variable. With all seven registers in use, it fails. |
| `AsmGen.GenMul` | code.go:32-35 | Depth drops by exactly 1 and code is appended. |
| `AsmGen.GenAddSub` | code.go:60-67 | Depth drops by exactly 1 and code is appended. |
| `AsmGen.GenNeg` | code.go:56-58 | Depth is unchanged and code is appended. |
| `AsmGen.GenDiv` | code.go:37-54 | `genDiv` for either variant: `xor edx, edx` as written, `cdq` corrected. Depth drops by exactly 1 and code is appended. |
| `AsmGen.GenOdd` | code.go:69-73 | Depth drops by 1. The last instruction is `jz` to the current label. |
| `AsmGen.GenCond` | code.go:75-96 | It fails with "comparison operator expected" exactly for operators outside the six comparisons. Otherwise depth drops by 2 and the code ends in a conditional jump to the current label. |
| `AsmGen.GenAssign` | code.go:98-111 | Depth drops by exactly 1 and code is appended. |
| `AsmGen.GenCall` | code.go:113-115 | Depth and pending labels are unchanged, and the one instruction appended is `call` of the named procedure. |
| `AsmGen.GenJmp` | code.go:121-123 | Depth and pending labels are unchanged, and the one instruction appended is a jump back to the given loop label. |
| `AsmGen.GenProc` | code.go:125-133 | Depth and pending labels are unchanged. The head emits the procedure's entry label and `sub esp` of `FrameBytes` (`nlocal * 4`); the end emits `add esp` of the same `FrameBytes` and `ret`, so the two parts release exactly what was reserved. What the frame means is stated by `AsmGenSteps.FrameCoversLocals`. |
| `AsmGen.GenLabel` | code.go:117-119 | The most recently pushed pending label is placed and popped. The label order invariant is kept. |
| `AsmGenFacts.ExecPushes` | code.go:38-41 | The pushes spill the live registers onto the native stack in depth order. |
| `AsmGenFacts.ExecPopsDown` | code.go:47-51 | The pops take the top words back into `regs[k-1]` down to `regs[0]`, and the stack below them is restored. |
| `AsmGenFacts.ExtendedDividend` | code.go:45 | The instruction before `idiv` changes only `edx`. As written (`xor edx, edx`) `edx:eax` then reads as the unsigned value of `eax`; corrected (`cdq`) it reads as the signed value. |
| `AsmGenFacts.ExecDivide` | code.go:45-46 | The `edx` setup and `idiv ebx` leave the variant's quotient (`Divide`: the dividend above divided by `ebx`, rounded toward zero) in `eax`, and change only `eax` and `edx`. They fault exactly when the divisor is zero or the quotient does not fit in 32 bits. |
| `AsmGenFacts.ExecSpilledDivide` | code.go:42-48 | With the two operands on top of the native stack, `pop ebx; pop eax`, the division and `push eax` replace them by the variant's quotient, or fault exactly when that quotient does not exist. |
| `AsmGenFacts.DivideInPlace` | code.go:37-54 | With two live values, the code leaves the variant's quotient as the only value and the native stack unchanged, or faults exactly when there is no quotient. |
| `AsmGenFacts.DivideSpilled` | code.go:37-54 | With more than two live values, the lower values survive, the variant's quotient replaces the top two, and the native stack is balanced; without a quotient the code faults. |
| `AsmGenFacts.GenDivSpillsAndRestores` | code.go:37-54 | At any depth `n`, `regs[0..n-3]` keep their values, `regs[n-2]` holds the variant's quotient of the top two values, and the native stack and globals are as before. The code faults exactly when there is no quotient. |
| `AsmGenFacts.GenDivAsWrittenDividesUnsigned` | code.go:37-54 | As written, at any depth: a zero divisor faults; otherwise the result is the unsigned reading of the dividend divided by the divisor, rounded toward zero, and the code faults exactly when that does not fit in 32 bits. |
| `AsmGenFacts.GenDivDividesSigned` | code.go:37-54 | Corrected, at any depth: the result is the signed quotient rounded toward zero. The code faults exactly for a zero divisor and for -2^31 / -1. |
| `AsmGenFacts.SignedQuotientFits` | code.go:45-46 | A signed 32-bit quotient fits in 32 bits except for -2^31 / -1. |
| `AsmGenFacts.ZeroExtendedDivisionCounterexample` | code.go:45-46 | As written, (-7)/2 computes 2147483644. The corrected division computes -3. |
| `AsmGenSteps.GenImmPushes` | code.go:27-30 | The immediate, truncated to 32 bits, is pushed on the value stack. Nothing else changes. |
| `AsmGenSteps.GenIdentFollowsResolve` | code.go:8-23 | A constant becomes an immediate. A variable found in the active procedure scope is loaded from its frame offset; any other variable is loaded by name. |
| `AsmGenSteps.GenIdentPushes` | code.go:8-25 | The value the name denotes at run time is pushed on the value stack. |
| `AsmGenSteps.GenMulCombines` | code.go:32-35 | The top two values are replaced by their 32-bit product. |
| `AsmGenSteps.GenAddSubCombines` | code.go:60-67 | The top two values are replaced by their 32-bit difference for `-`, and by their sum otherwise. |
| `AsmGenSteps.GenNegNegatesTop` | code.go:56-58 | The top value is negated in place. |
| `AsmGenSteps.GenCondJumpsWhenFalse` | code.go:75-96 | The `cmp` makes the inverse jump taken exactly when the comparison of the top two values is false. |
| `AsmGenSteps.GenOddJumpsWhenEven` | code.go:69-73 | `test r, 1` makes `jz` taken exactly when the top value is even. |
| `AsmGenSteps.GenAssignFollowsResolve` | code.go:98-111 | A local of the active procedure scope is stored at its frame offset; any other name is stored by name. |
| `AsmGenSteps.GenAssignStores` | code.go:98-111 | The top value is written into the variable's global or frame slot and dropped from the value stack. |
| `AsmGenSteps.FrameCoversLocals` | code.go:125-133 | The prologue reserves `4*nlocal` bytes, so every local's offset addresses a frame word. The epilogue releases exactly those bytes. |
| `AsmLabels.LabelStackIsLifo` | plzero.go:149-159 | `getLabel` right after `addLabel` returns the label just issued and leaves the stack as it was. |
| `AsmLabels.NestedLabelsReverse` | plzero.go:149-159 | Labels of nested constructs are placed innermost first. |
| `AsmParser.Tokenize` | plzero.go:90-147 | The token sequence is exactly what repeated calls of `next` return, and the stop fault is what the call after the last token raises. |
| `AsmParser.Accept` | plzero.go:161-166 | It succeeds exactly when the next token has the given type. Otherwise it fails with "<type> expected" at that token's line. |
| `AsmParser.Expect` | plzero.go:168-173 | When the current token has the given type, it reads on. Otherwise it fails with "<type> expected". |
| `AsmParser.Factor` | plzero.go:210-226 | On success one value is pushed, labels and scopes are unchanged, and the tree is the name or the number. Any other token fails with "invalid factor". |
| `AsmParser.Term` | plzero.go:228-240 | On success exactly one value is pushed. |
| `AsmParser.TermTail` | plzero.go:230-239 | The loop stops at the first token that is not `*` or `/`, the depth is unchanged, and the variant is kept. The tree is a left fold: the tree built so far is the leftmost operand, under `*` and `/` nodes only; the right operands are not constrained by this clause. |
| `AsmParser.Expression` | plzero.go:242-260 | On success exactly one value is pushed. |
| `AsmParser.ExprTail` | plzero.go:254-259 | The loop stops at the first token that is not `+` or `-`, and the depth is unchanged. The tree is a left fold: the tree built so far is the leftmost operand, under `+` and `-` nodes only; the right operands are not constrained by this clause. |
| `AsmParser.LeftFoldGrows` | plzero.go:230-259 | A fold over `Bin(op, left, x)` is a fold over `left`: each loop round keeps the earlier tree at the bottom of the left spine. |
| `AsmParser.TermAssociatesLeft` | plzero.go:228-240 | For all integers `a`, `b`, `c` and `op1`, `op2` among `*` and `/`, the tokens `a op1 b op2 c ;` give the term `(a op1 b) op2 c` and stop at `;`. |
| `AsmParser.ExpressionAssociatesLeft` | plzero.go:242-260 | For all integers `a`, `b`, `c` and `op1`, `op2` among `+` and `-`, the tokens `a op1 b op2 c ;` give the expression `(a op1 b) op2 c` and stop at `;`. |
| `AsmParser.TermBindsTighter` | plzero.go:228-260 | For `op1` among `+` and `-` and `op2` among `*` and `/`, the tokens `a op1 b op2 c ;` give `a op1 (b op2 c)`. |
| `AsmParser.SignCoversFirstTerm` | plzero.go:243-253 | For `op` among `+` and `-`, the tokens `- a op b ;` give `(-a) op b`: the sign negates the first term only. |
| `AsmParser.Condition` | plzero.go:262-275 | Exactly one fresh label is pushed and the depth is unchanged. The code ends in a conditional jump to that label. A comparison's operator is one of the six. |
| `AsmParser.Statement` | plzero.go:277-316 | A complete statement leaves the depth, the pending labels and the scopes as they were. Any other leading token fails with "invalid statement". |
| `AsmParser.Assignment` | plzero.go:279-285 | The target is checked before anything is read. A failed check is the statement's error. |
| `AsmParser.CallStatement` | plzero.go:286-289 | It emits a call to the name after `call`, without looking it up. |
| `AsmParser.IfStatement` | plzero.go:290-295 | The label the condition pushed is popped and placed after the statement. |
| `AsmParser.WhileStatement` | plzero.go:296-304 | The loop label takes the number `labelid` had before the condition. The body ends with a jump back to it, followed by the condition's exit label. |
| `AsmParser.Compound` | plzero.go:305-312 | `begin ... end` keeps the depth, the labels and the scopes. |
| `AsmParser.StatementTail` | plzero.go:308-311 | The loop stops at the first token that is not `;`. |
| `AsmParser.DeclareHere` | plzero.go:192-208 | A declaration succeeds exactly when the name is new in the scope, and the addressing invariant is kept. A global emits a data word. |
| `AsmParser.ConstList` | plzero.go:324-339 | A constant list ends at `;` and keeps the addressing invariant. |
| `AsmParser.VarList` | plzero.go:341-353 | A variable list ends at `;` and keeps the addressing invariant. |
| `AsmParser.Declarations` | plzero.go:324-357 | The declarations keep the active scope, the scope names, the depth and the labels, and keep the addressing invariant. |
| `AsmParser.ProcDecls` | plzero.go:358-364 | After the procedure declarations the current token is not `procedure`, and the depth and labels are unchanged. Without a `procedure` token nothing changes. As written, after at least one procedure the global scope is active; corrected, the active scope is the one before. |
| `AsmParser.Body` | plzero.go:365-373 | A procedure's code opens with its entry label and `sub esp, 4*nlocal`, and closes with `add esp` of the same amount and `ret`. |
| `AsmParser.Block` | plzero.go:318-375 | A block adds its scope and keeps the depth and the pending labels and the addressing invariant. As written it ends with the global scope active (plzero.go:374); corrected, it hands back the scope that was active on entry. |
| `AsmParser.Program` | plzero.go:377-388 | For either variant, the output opens with the fixed header directives and ends with `push 0; call _exit`. |
| `AsmSemantics.FactorComputes` | plzero.go:210-226 | A factor's code pushes the value of the factor, or faults when it has none. |
| `AsmSemantics.TermComputes` | plzero.go:228-240 | A term's code pushes the value of the tree `Term` returns, with `/` divided as the variant's `genDiv` divides, or faults when that value does not exist. The tree's shape is stated by `AsmParser.TermTail` and `AsmParser.TermAssociatesLeft`. |
| `AsmSemantics.TermTailComputes` | plzero.go:230-239 | Starting with the value so far on top, the loop's code pushes the value of the tree `TermTail` returns, whose leftmost operand is that value (`AsmParser.TermTail`). |
| `AsmSemantics.ExpressionComputes` | plzero.go:242-260 | An expression's code pushes the value of the expression tree, with the native stack and the globals unchanged. It faults exactly when the tree has no value. |
| `AsmSemantics.SignedComputes` | plzero.go:250-253 | A leading minus negates only the first term, before the other terms are combined. |
| `AsmSemantics.ExprTailComputes` | plzero.go:254-259 | Starting with the value so far on top, the loop's code pushes the value of the tree `ExprTail` returns, whose leftmost operand is that value (`AsmParser.ExprTail`). |
| `AsmSemantics.OddDecides` | plzero.go:264-267 | For `odd e`, the `jz` is taken exactly when the value of `e` is even. |
| `AsmSemantics.RelDecides` | plzero.go:268-274 | For a comparison, the inverse jump is taken exactly when the comparison is false. |
| `AsmSemantics.ConditionDecides` | plzero.go:262-275 | A condition's test leaves the value stack as it was, and its jump to the fresh label is taken exactly when the condition is false. |
| `AsmSemantics.ExpressionValueAssociatesLeft` | plzero.go:242-260 | For all integers and `op1`, `op2` among `+` and `-`, the code for `a op1 b op2 c ;` pushes `(a op1 b) op2 c`, each step wrapped to 32 bits. |
| `AsmSemantics.OddQuotientDependsOnVariant` | code.go:45-46 | `(0-7)/2` is 2147483644 as written and -3 corrected, so `odd (0-7)/2` is false as written and true corrected. |
| `LittleEndian.Int2Byte` | pe.go:33-37 | The result is four bytes whose little-endian value is the input modulo 2^32. |
| `LittleEndian.Int2ByteRoundTrip` | pe.go:33-37 | Decoding gives back the `int32` conversion of the value, which is the value itself when it fits. |
| `LittleEndian.Int2ByteOfDecoded` | pe.go:33-37 | Any four bytes are the encoding of the `int32` they decode to. |
| `LittleEndian.CopyAt` | pe.go:51-56 | A copy into `buf[off:]` places the source there and keeps every other byte. |
| `LittleEndian.WriteInt32` | pe.go:27-31 | The four bytes decode to the value and later bytes are kept. |
| `LittleEndian.WriteAt` | pe.go:60-66 | Writing into `buf[off:]` puts the value at `off` and keeps the bytes outside `[off, off+4)`. |
| `PeImage.HintNameOf` | pe.go:52-54 | Each copied entry is a zero hint followed by the NUL-terminated name. |
| `PeImage.CreateImports` | pe.go:57 | The table is cut to exactly `importSize` = 100 bytes. |
| `PeImage.CopiedStringsPlaced` | pe.go:51-56 | The DLL name, the three hint/name entries and the two format strings lie at 56, 67, 74, 82, 91 and 94. |
| `PeImage.ImportStrings` | pe.go:51-66 | The strings survive the cut and the RVA writes. |
| `PeImage.WriteRvasWords` | pe.go:59-66 | The RVA words are 0x1038, 0x1028, 0x1043, 0x104A and 0x1052, and no other byte changes. |
| `PeImage.ImportZeros` | pe.go:45-66 | The unused descriptor fields, the terminating descriptor and the terminating thunk are zero. |
| `PeImage.ImportsLayout` | pe.go:45-66 | The name RVA points at "msvcrt.dll" and the first thunk is at 40. Each thunk points at the hint/name entry of its function. Slot 52 is zero. Every string ends by offset 98. |
| `PeImage.ImportAddresses` | pe.go:68-73 | `imp_exit`, `imp_scanf` and `imp_printf` are the absolute addresses of the thunks naming their functions, 4 bytes apart. The format addresses hold "%d" and "%d\n". `dataBase` follows the table. |
| `PeImage.OptionalHeader` | pe.go:97-133 | The optional header is exactly 0xE0 bytes, its declared size. |
| `PeImage.Headers` | pe.go:86-142 | All the headers together are 352 bytes. |
| `PeImage.DosHeaderFields` | pe.go:86-89 | "MZ", and `e_lfanew` = 0x40, which is the DOS header's own length. |
| `PeImage.FileHeaderFields` | pe.go:91-95 | "PE\0\0", machine 0x14C, 1 section, optional header size 0xE0, flags 0x030F. |
| `PeImage.OptionalHeaderFields` | pe.go:97-133 | Magic 0x10B, SizeOfCode, entry point, bases, alignments, SizeOfImage, SizeOfHeaders 0x200, console subsystem, 16 data directories filling the header exactly, and the import directory. |
| `PeImage.SectionHeaderFields` | pe.go:135-142 | ".dodo", virtual and raw size equal to the code length, RVA 0x1000, raw data at 0x200, characteristics 0xE0500000. |
| `PeImage.SizeOfImageAligned` | pe.go:116-118 | SizeOfImage is a multiple of 0x1000 and exceeds `0x1000 + len(code)` by at most a page. It adds a whole extra page exactly when the code is already page-aligned. |
| `PeImage.DumpExe` | pe.go:80-153 | The file is 0x200 + `len(code)` bytes long: the 352 header bytes (`Headers` for this code size, entry point and import table size), zeros up to 0x200, then the code unchanged. |
| `PeImage.DumpExeFileHeader` | pe.go:86-95 | Read from the file: "MZ", `e_lfanew` pointing at "PE\0\0", i386, one section, and an optional-header size equal to the distance to the section table. |
| `PeImage.DumpExeOptionalHeader` | pe.go:97-109 | Read from the file: PE32 magic, the entry point, image base 0x400000. |
| `PeImage.DumpExeAlignment` | pe.go:111-119 | Read from the file: alignments 0x1000 and 0x200, the page-aligned SizeOfImage, and headers that end where the section data begins. |
| `PeImage.DumpExeImportDirectory` | pe.go:129-133 | Read from the file: the import directory is at RVA 0x1000 and is 100 bytes long. |
| `PeImage.DumpExeSection` | pe.go:135-142 | Read from the file: the section sizes are the code length, the RVA is 0x1000 and the raw data is at 0x200. |
| `PeImage.ImportsInImage` | pe.go:129-142 | With the import table at the front of the code, mapping the import directory's RVA through the section header finds exactly that table in the file. |

## Left out

- Reading the source is left out: `bufio`, `os.Open` and `os.Exit` in
  `fatal`. The scanner works on the byte sequence, and `fatal` is an `Err`
  that carries the line and the message.
- `AsmParser.Program` returns only the `Err` when a `fatal` fires. plzero.go
  prints each instruction as it is generated, so the assembly emitted
  before the error is already on standard output; that partial output is
  not modelled.
- main.go is left out: argument handling, the output name and the
  orchestration.
- `dumpExe` writes its result as bytes rather than to `out.exe`. Its shown
  signature takes one argument, but main.go:40 passes two. The model takes
  the code and the entry point.
- The native version's parser, instruction encoder and fixups are not part
  of this model: parser.go:193-369, `genGlobVar`, `genRead`, `genWrite`,
  `genExit`, `genFixup`, the `code` buffer, `pc`, `datap` and `ep`. The
  entry point is a parameter of `PeImage.DumpExe`.
- `Lexer.NextInteger` does not model what `fmt.Fscanf` does with a number
  too large for a Go `int`. The value is the unbounded decimal value of the
  digit run.
- Labels are numbers on a stack, as in code.go's symbolic assembly labels;
  no branch offsets are computed or patched.
- Locals are addressed at `esp + 4k` after `sub esp`, as code.go:22 and
  code.go:109 emit them.
- A push at depth 7 indexes past code.go's seven-entry `regs` slice, which
  panics in Go. The model returns an `Err` for it instead of stopping.
- X86.Step: the words `sub esp` reserves read as zero. On a real machine
  they hold whatever was on the stack before. No lemma depends on those
  zeros: `AsmGenSteps.FrameCoversLocals` states only where the frame lies.
- Assembly text is not modelled: instructions are the datatype `X86.Instr`,
  and `fmt.Println(name, "dd", val)` is a `DataWord`.
- `X86.Exec` runs straight-line code only. Jumps, labels, calls and `ret`
  end a fragment, so whole procedures and loops are not executed. Their
  control-flow shape is stated instead by `AsmParser.IfStatement`,
  `AsmParser.WhileStatement` and `AsmParser.Body`.
- The parser reads the token sequence of `AsmParser.Tokenize` rather than
  calling the scanner lazily. The scanner is deterministic, so the tokens
  and the final fault are the same.
- `AsmParser.Term` states only that one value is pushed. The value comes
  from `AsmSemantics.TermComputes`. The left fold is stated by
  `AsmParser.TermTail`; the exact tree is pinned only for the token
  patterns of `AsmParser.TermAssociatesLeft`, not for every token sequence.
- `AsmParser.Expression` states only that one value is pushed. The value
  comes from `AsmSemantics.ExpressionComputes` and
  `AsmSemantics.SignedComputes`. The operator order is stated as a left fold
  by `AsmParser.ExprTail`, and as exact trees only for the token patterns of
  `AsmParser.ExpressionAssociatesLeft`, `AsmParser.TermBindsTighter` and
  `AsmParser.SignCoversFirstTerm`.

## Findings

| source | as written | input that shows it | evidently intended | confidence | as-written member | corrected member |
|---|---|---|---|---|---|---|
| code.go:45 | `xor edx, edx` before the signed `idiv ebx` makes the dividend the unsigned reading of `eax` | `(-7)/2`, with `eax` = -7 and `ebx` = 2, gives 2147483644 | sign-extend with `cdq`, so `(-7)/2` = -3, rounding toward zero | high, not executed | `AsmGenFacts.ZeroExtendedDivisionCounterexample` | `AsmGenFacts.GenDivDividesSigned` |
| parser.go:361 | `active = ""` at the end of every block, also in plzero.go:374 | `var x; procedure p; var y; procedure q; x := 1; y := 2; call p .` fails with "y undeclared" | restore the scope that was active when the block began | high, not executed | `ScopeFindings.NestedProcedureHidesLocals` | `ScopeFindings.RestoredScopeKeepsLocals` |
