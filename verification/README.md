# A Dafny model of libgunwinder

libgunwinder turns a sampled register set and a copy of the top of a thread's stack into a call
chain. For each frame it finds the ELF image that holds the PC, interprets that image's call-frame
information (CFI) up to the PC, compiles the resulting row into DWARF operation lists, evaluates them
on the snapshot to get the caller's registers, and repeats. When CFI runs out it follows frame
pointers. Parsed ELF images are shared between processes through a reference-counted cache.

This project models that core and proves what the code promises about it. `dafny verify
dfyconfig.toml` checks everything.

| files | what they model |
|---|---|
| `words`, `leb128`, `operands` | 64-bit words with explicit wrap-around; LEB128 and pointer-encoded operands |
| `dwarf_ops`, `expr_block` | DWARF operations and the decoding of expression blocks |
| `evaluator`, `eval_machine`, `gen_reg` | the stack machine, its loop in place, and the fast path beside it |
| `frame_rules`, `rule_meaning` | rows compiled to operation lists, and what those lists must mean |
| `expressions` | expressions by the values DWARF gives them, and what the machine makes of their blocks |
| `call_frame`, `frame_table` | the call-frame interpreter and the row table it stands for |
| `frame_insns` | call-frame instructions as an assembler writes them, and what each says of a row |
| `interval_index`, `cfi_parser` | the sorted interval index; the CFI parser with its direct-mapped cache |
| `row_recovery` | interpreter, cache, compiler and evaluator together: from a PC to a caller's register |
| `address_map` | maps lines, program headers and the way from a PC to an ELF address |
| `unwind_run`, `unwind_meaning`, `unwind_frames` | the unwind loop and the frame-pointer tail; the callers its turns step to; what the frames say |
| `totals`, `elf_cache`, `cache_runs`, `cache_progress`, `cache_context` | the ELF cache: accounts, sweeping, events, every run, what each step does, and the operations in place |
| `root_path`, `path_laws` | opening a path inside another root, and what each component of a path does |
| `crc32`, `crc_known` | the checksum of separate debug files |

Code that works by updating things in place is a class or a method with loops whose `ensures` ties it
to a specification function on values; the laws are lemmas about those functions.

Where the code and its own words differ, the model follows the code:

- The turn counter of the unwind loop moves only inside a verbose log statement
  (src/gu_stacktrace.c:2682, src/gu_comm.h:34-38). Without verbose logging every frame counts as the
  innermost one, so callers are not looked up one byte back (`UnwindRun.CallerLookup`). The return
  address fallback for innermost frames is then open to every frame, but never produces another one
  (`UnwindRun.FallbackOnlyInnermost`).
- The loop guard is said to compare the return address with the frame just emitted, but the first
  comparison is with 0, so the first two frames may share a PC (`UnwindRun.FirstPairMayRepeat`). They do
  exactly when CFI gives no return address for the innermost frame or gives its own PC
  (`UnwindRun.FirstPairExact`).
- The fallback for an innermost frame without a return address is meant for the link register. On
  x86-64 it reads the sampled PC itself, so a run that goes on with it always repeats its first frame
  (`UnwindRun.FallbackRepeats`, with such a run in `UnwindRun.FallbackRuns`).
- Decoding an unsigned LEB128 shifts a C `int`; shifts that C leaves undefined are taken as x86-64
  performs them. Values from 2^31 up do not survive (`Leb128.UlebRoundTrip`), and neither do signed
  values below -2^62 (`Leb128.SlebRoundTrip`).
- A matched ELF address of 0 is taken for no match, which gives the wrong file offset exactly when the
  first executable segment starts elsewhere (`AddressMap.ChosenExact`, with an input in
  `AddressMap.ZeroMatchMistaken`). Segments in address order rule that out
  (`AddressMap.ZeroMatchIsFirst`).
- A branch to the end of a block ends it. That holds of compiled val_expression lists, whose final
  operation sits there. The lists of expressions and of CFA expressions have nothing there, so they give
  no value (`RuleMeaning.EndBranch`, `RuleMeaning.CfaEndBranch`). A stack_value of its own keeps an
  expression from loading (`RuleMeaning.OwnStackValue`). `RuleMeaning.RowCompiles` says exactly when a row
  is right, and `RuleMeaning.PlainRowAgrees` gives a condition on the blocks alone.
- A path with one slash after a regular file opens it, a path with two gives ENOTDIR
  (`RootPath.SlashedFile`). `RootPath.TrailingSlashes` says exactly when, also behind links.

## Model

| member | source | states |
|---|---|---|
| Leb128.ByteBuilder.EmitUleb | tools/cfi_stress.c:433-442 | appends the unsigned LEB128 bytes of the value and changes nothing before them |
| Leb128.ByteBuilder.EmitSleb | tools/cfi_stress.c:444-459 | appends the signed LEB128 bytes of the value |
| Leb128.DecodeUleb | src/gu_cfi_helper.c:95-113 | value and length with the decoder's int shifts, also after eight bytes without a final one; the reference value when there is a final byte |
| Leb128.DecodeSleb | src/gu_cfi_helper.c:115-140 | value and length with the decoder's sign fill, also after ten bytes without a final one; the reference value when there is a final byte |
| Leb128.UlebRoundTrip | tools/cfi_stress.c:433-442 | decoding what was printed, anywhere in a buffer, gives the value and its length if and only if it is below 2^31 |
| Leb128.SlebRoundTrip | tools/cfi_stress.c:444-459 | the same for signed values, if and only if the value is at least -2^62 |
| Leb128.UlebInt32 | src/gu_cfi_helper.c:95-113 | every decoded unsigned value is a sign-extended 32-bit integer, whatever the bytes |
| Operands.LebFits | src/gu_cfi_helper.c:218-253 | accepts exactly when a terminating byte lies within the size limit and before the end |
| Operands.DecodeReadChecked | src/gu_cfi_helper.c:255-268 | the checked read equals the encoding's reference read, failures included |
| Operands.ReadChecked | src/gu_cfi_helper.c:255-268 | a successful read advances by at least one byte and never past the end |
| Operands.ReadLocal | src/gu_cfi_helper.c:218-268 | a successful read depends on no byte outside the ones it steps over |
| Operands.ReadEncode | src/gu_cfi_helper.c:171-216 | reading back an encoded operand gives it if and only if the encoding can hold it |
| ExprBlock.InitOpsFromBlock | src/gu_cfi_helper.c:1131-1359 | fills the static operation array with exactly the block's operations, wrapped for register rules, or rejects the block |
| ExprBlock.DecodeTiles | src/gu_cfi_helper.c:1131-1359 | the decoded operations tile the bytes from first to last without gap or overlap |
| ExprBlock.AcceptedBlock | src/gu_cfi_helper.c:1131-1359 | an accepted block is tiled, its offsets strictly increase, and the list has at most 256 entries |
| ExprBlock.ShapeIsLayout | src/gu_cfi_helper.c:1131-1359 | every opcode is read with the operands its standard gives it, and unknown ones are rejected |
| ExprBlock.BlockRoundTrip | src/gu_cfi_helper.c:1131-1359 | decoding a list printed by that layout gives the list |
| Evaluator.BSearch | src/gu_unwinder.c:253-258 | a hit of the binary search has the wanted offset |
| Evaluator.CfaSelf | src/gu_unwinder.c:553-564 | a CFA program without a CFA operation evaluates independently of any CFA |
| Evaluator.CfaNestsOnce | src/gu_unwinder.c:553-564 | the CFA operation nests one evaluation deep and no deeper |
| Evaluator.TraceBounded | src/gu_unwinder.c:260-589 | on any operation list an activation takes at most the given number of steps, its stack stays within 256 entries and its position inside the list |
| EvalMachine.DwStack.Push | src/gu_unwinder.c:78-89 | pushes, or refuses a full stack and leaves it alone |
| EvalMachine.DwStack.Pop | src/gu_unwinder.c:91-102 | pops the top, or refuses an empty stack |
| EvalMachine.DwStack.Rot | src/gu_unwinder.c:260-589 | the top goes below the two entries under it |
| EvalMachine.Unwinder.ReadAddr | src/gu_unwinder.c:142-174 | the eight bytes inside a window that does not wrap, or nothing with the failed access noted |
| EvalMachine.FindOp | src/gu_unwinder.c:542-549 | the loop of the C library's search finds what its recursive form finds |
| EvalMachine.Unwinder.ExecAt | src/gu_unwinder.c:260-589 | one operation in place has the effect, next position and location flag of the machine's step |
| EvalMachine.Unwinder.EvalOps | src/gu_unwinder.c:260-589 | the loop returns the machine's value and notes its failed read, for every operation list |
| EvalMachine.Unwinder.Result | src/gu_unwinder.c:572-589 | the final value: the top, or the word it points to for a location |
| GenReg.FastAgrees | src/gu_unwinder.c:176-251 | a fast hit is the general value; a fast failed read is the general failed read |
| GenReg.FastDwarfEval | src/gu_unwinder.c:216-251 | the fast path in place, with the failed access it notes |
| GenReg.RecoverReg | src/gu_unwinder.c:591-627 | stop reason and value are those of the general evaluator alone |
| FrameRules.Field61Exact | src/gu_cfi_helper.h:89-92 | the bit-field keeps a rule's number if and only if it fits 61 signed bits |
| RuleMeaning.BranchExact | src/gu_unwinder.c:541-550 | with increasing offsets a branch finds the unique operation at its target, and fails exactly when there is none |
| RuleMeaning.BSearchZero | src/gu_unwinder.c:541-550 | among a prefix and a block that both start at offset 0 the search finds the block's first operation |
| RuleMeaning.OffsetCompiles | src/gu_cfi_helper.c:1388-1446 | the offset rule loads the word at CFA + N |
| RuleMeaning.ValOffsetCompiles | src/gu_cfi_helper.c:1388-1446 | the val_offset rule gives CFA + N |
| RuleMeaning.RegisterCompiles | src/gu_cfi_helper.c:1388-1446 | the register rule copies that register |
| RuleMeaning.ListExact | src/gu_cfi_helper.c:1388-1446 | a register rule has a list always for offset, val_offset and register, for expressions if and only if their block is there and has 1 to 254 operations, and never otherwise |
| RuleMeaning.CfaListExact | src/gu_cfi_helper.c:1361-1386 | a CFA rule has a list if and only if it is register and offset, or a block of 1 to 255 operations |
| RuleMeaning.ExpressionYields | src/gu_cfi_helper.c:1388-1446 | what an expression list gives for every accepted block, in terms of how the block ends on its own |
| RuleMeaning.ExpressionCompiles | src/gu_cfi_helper.c:1388-1446 | for every accepted block: the expression list gives the word at the value of its block if and only if the block ends past its last operation and on a location, or that word comes out the same |
| RuleMeaning.ValExpressionCompiles | src/gu_cfi_helper.c:1388-1446 | for every accepted block, branches to its end included, the val_expression list gives the value of its block started with the CFA pushed |
| RuleMeaning.RuleCompiles | src/gu_cfi_helper.c:1388-1446 | a compiled register rule evaluates to the meaning section 6.4.1 of DWARF 5 gives it: always, and for expressions if and only if their ending allows it |
| RuleMeaning.CfaCompiles | src/gu_cfi_helper.c:1361-1386 | a compiled CFA rule evaluates to register plus offset or to the value of its block if and only if the block does not end by a branch to its end with a value; it then gives nothing |
| RuleMeaning.RowCompiles | src/gu_cfi_helper.c:1361-1446 | a whole row: the register list evaluated with the CFA list gives the caller's register, failures included, if and only if both rules' blocks end as their lists need |
| RuleMeaning.PlainRowAgrees | src/gu_cfi_helper.c:1131-1359 | blocks without a branch to their end, and expressions without a stack_value of their own, agree on every snapshot |
| RuleMeaning.EndBranch | src/gu_cfi_helper.c:1131-1359 | a block that jumps to its own end gives its meaning, the CFA, as val_expression; as expression it gives nothing where the rule means the word at the CFA |
| RuleMeaning.OwnStackValue | src/gu_cfi_helper.c:1131-1359 | an expression that is just stack_value gives the CFA where the rule means the word there |
| RuleMeaning.CfaEndBranch | src/gu_cfi_helper.c:1131-1359 | a CFA expression that pushes 0 and jumps to its end means 0 and gives nothing |
| Expressions.ExprRuns | src/gu_unwinder.c:260-589 | on any stack and inside any block, an expression with conditionals compiled to postfix operations pushes the value section 2.5.1 of DWARF 5 gives it, or stops the machine with the failure it has |
| Expressions.CfaExpressionMeans | src/gu_unwinder.c:260-589 | the bytes of a compiled expression decode to its list, and as CFA rule they evaluate to its value and mean it |
| Expressions.RegExpressionMeans | src/gu_unwinder.c:260-589 | the same for register rules, where expression loads the word at the value |
| Expressions.PltBlock | src/gu_unwinder.c:416-511 | for every snapshot the CFA block of a procedure linkage table gives rsp + 8, or rsp + 16 from the eleventh byte of an entry on |
| Expressions.BitwiseAt | src/gu_unwinder.c:416-484 | the bitwise operations bit by bit |
| Expressions.DivTruncates | src/gu_unwinder.c:422-433 | the quotient leaves a remainder below the divisor with the sign of the dividend |
| Expressions.StackOperations | src/gu_unwinder.c:335-376 | dup, drop, over, pick, swap and rot on the entries they touch |
| Expressions.StackWord | src/gu_unwinder.c:142-174 | a word of the snapshot is read at its distance from the page of the raw stack pointer |
| Expressions.OutsideSnapshot | src/gu_unwinder.c:142-174 | nothing is read if and only if the eight bytes leave the snapshot or the snapshot wraps |
| CallFrame.DecodeInsn | src/gu_cfi_helper.c:326-606 | an instruction that decodes ends after its start and within the program |
| CallFrame.FrameContext.Apply | src/gu_cfi_helper.c:326-606 | one instruction on the context in place, with the saved chain and the blocks it allocates and frees |
| CallFrame.FrameContext.Interpret | src/gu_cfi_helper.c:326-606 | the cursor loop stops with the row for the PC, or fails where the program is malformed |
| CallFrame.FrameContext.FreeSaved | src/gu_cfi_helper.c:1501-1514 | frees the saved chain from the newest on and keeps the row |
| FrameTable.InterpreterIsTable | src/gu_cfi_helper.c:326-606 | interpreting up to a PC gives the last row of the expanded table at or below it |
| FrameTable.LastUnique | src/gu_cfi_helper.c:326-606 | a table has at most one last row at or below a PC |
| FrameTable.SameRow | src/gu_cfi_helper.c:326-606 | two PCs with no program location between them get the same row, for any program |
| FrameTable.RunsAll | src/gu_cfi_helper.c:326-606 | a PC beyond every location runs the whole program |
| FrameTable.NestedRun | src/gu_cfi_helper.c:447-462 | a piece without an unmatched restore leaves the outer saved states alone |
| FrameTable.BracketRestores | src/gu_cfi_helper.c:447-462 | a balanced remember...restore bracket of any depth restores rules and saved states |
| FrameTable.BracketAdvances | src/gu_cfi_helper.c:447-462 | such a bracket keeps the location its body reached |
| FrameTable.ParseFrees | src/gu_cfi_helper.c:1501-1514 | a parse frees every block it allocated exactly once, and nothing else if and only if the CIE left none outstanding |
| FrameInsns.DirectiveMeans | src/gu_cfi_helper.c:326-606 | each instruction of section 6.4.2 of DWARF 5, printed with unscaled operands, does to row, location and remembered rows what it says, and to nothing else |
| FrameInsns.ProgramRuns | src/gu_cfi_helper.c:326-606 | running a printed program up to a PC gives what its instructions say, failures included |
| FrameInsns.ProgramTable | src/gu_cfi_helper.c:326-606 | its table has the rows they say |
| FrameInsns.ExtentExact | src/gu_cfi_helper.c:326-606 | any bytes: an instruction is rejected if and only if one of its operands is not there, and ends after the last |
| FrameInsns.UnknownPointers | src/gu_cfi_helper.c:171-253 | encodings without a format are not read |
| FrameInsns.BlockNamed | src/gu_cfi_helper.c:541-567 | the section offset an expression rule keeps leads back to its block |
| FrameInsns.HeldExact | src/gu_cfi_helper.h:89-92 | a scaled offset keeps its value in a rule if and only if it has at most 60 bits and a sign |
| FrameInsns.DefaultRow | src/gu_cfi_helper.c:299-304 | the default instructions give CFA = rsp + 8, the return address at CFA - 8, the same rbp and rsp = CFA |
| IntervalIndex.Qsort | src/gu_interval_array.c:33 | sorted by start, a permutation of the input |
| IntervalIndex.FillEnds | src/gu_interval_array.c:35-44 | zero ends are filled from the next start, the last from the limit of its width |
| IntervalIndex.Store | src/gu_interval_array.c:46-70 | the width choice and what narrow storage keeps |
| IntervalIndex.CompactionExact | src/gu_interval_array.c:46-59 | narrow storage is exact if and only if every bound fits 32 bits |
| IntervalIndex.StoredIsFilled | src/gu_interval_array.c:46-70 | for disjoint intervals storage changes nothing, so no answer |
| IntervalIndex.SearchIsScan | src/gu_interval_array.c:151-209 | for disjoint intervals the search returns k if and only if interval k contains the address |
| IntervalIndex.StartsOnly | src/gu_interval_array.c:35-44 | with starts only, the search returns the greatest start at or below the address |
| IntervalIndex.HitContains | src/gu_interval_array.c:151-209 | a hit contains the address even when intervals overlap |
| IntervalIndex.IntervalArray.constructor | src/gu_interval_array.c:22-86 | holds the filled, stored form of a sorted permutation of the input |
| IntervalIndex.IntervalArray.Search | src/gu_interval_array.c:151-209 | the index and untagged item, and the ownership tag set on exactly that item when asked |
| IntervalIndex.IntervalArray.Destroy | src/gu_interval_array.c:116-149 | frees exactly the payloads the array still owns |
| IntervalIndex.OwnedEach | src/gu_interval_array.c:116-149 | each item adds its payload to what is freed unless it has none or it was handed out |
| IntervalIndex.TakingIsSafe | src/gu_interval_array.h:110-132 | tagging an item changes no lookup, keeps its pointer and takes exactly its payload out of the array's ownership |
| CfiParser.CacheIndex | src/gu_cfi_helper.c:1065-1068 | always a slot of the cache |
| CfiParser.ParseCoherent | src/gu_cfi_helper.c:1084-1129 | a parse on a coherent cache returns the uncached result and keeps the cache coherent |
| CfiParser.CacheInvisible | src/gu_cfi_helper.c:1065-1129 | over every sequence of parses each result is that of an uncached parse |
| CfiParser.CacheServes | src/gu_cfi_helper.c:1084-1129 | a parse with short lists is found again by the next one of its PC, and no other slot changes |
| CfiParser.Parser.GetCfaOps | src/gu_cfi_helper.c:1361-1386 | the static array holds the compiled CFA rule, or the rule has none |
| CfiParser.Parser.GetRegsOps | src/gu_cfi_helper.c:1388-1446 | the static array holds the compiled register rule, or the rule has none |
| CfiParser.Parser.CompileRow | src/gu_cfi_helper.c:1516-1557 | the four lists of a row, the RSP list falling back to the CFA list |
| CfiParser.Parser.CacheLoad | src/gu_cfi_helper.c:1084-1099 | a hit restores the flag and all lists of that PC, a miss changes nothing |
| CfiParser.Parser.CacheStore | src/gu_cfi_helper.c:1110-1129 | writes exactly the slot of the PC, and only when every list is small enough |
| CfiParser.Parser.Parse | src/gu_cfi_helper.c:1469-1560 | return code, signal flag, lists and cache of the value-level parse |
| CfiParser.CallerSpIsCfa | src/gu_cfi_helper.c:1526-1534 | without an RSP rule the caller's stack pointer is the CFA |
| RowRecovery.RunDecoded | src/gu_cfi_helper.c:326-606 | every row the interpreter stops at holds 32-bit register numbers, so the compiler theorems apply to it |
| RowRecovery.ParsesLastRow | src/gu_cfi_helper.c:1469-1560 | a parse, cached or not, compiles the last row of the program's table at or below the PC |
| RowRecovery.RowGives | src/gu_cfi_helper.c:1448-1462 | the list chosen for any register gives what its rule says, if and only if the condition on the rules holds; a rule without a list is taken for none |
| RowRecovery.RecoverAt | src/gu_unwinder.c:591-627 | a parse through the cache and then a register recovery give the general evaluation of the uncached row |
| RowRecovery.RecoversLastRow | src/gu_unwinder.c:591-627 | what a parse and an evaluation recover of any register is what the rules of the table's last row at or below the PC say, if and only if the condition on the rules holds; where the row says nothing the stack pointer is the CFA and the others have no value |
| RowRecovery.NoBlockNoMeaning | src/gu_cfi_helper.c:1388-1446 | an expression whose block is missing or does not decode has no value |
| RowRecovery.FdeFound | src/gu_cfi_helper.c:1487-1495 | the FDE for a PC is the payload of the one table entry that contains it |
| RowRecovery.NoFdeFound | src/gu_cfi_helper.c:1487-1495 | there is none when no entry contains the PC |
| RowRecovery.ParsesProgram | src/gu_cfi_helper.c:1469-1560 | a parse compiles what the instructions of that FDE say of the PC, from the rules of its CIE on, and fails where they do |
| RowRecovery.RecoversProgram | src/gu_unwinder.c:591-627 | from the bytes of a section through index, interpreter, compiler and evaluator to the register its instructions describe, under the same exact condition |
| AddressMap.MergeLines | src/gu_comm.c:235-296 | the loop over maps lines, extending the previous entry in place |
| AddressMap.MergeOrdered | src/gu_comm.c:259-275 | ordered lines merge to ordered mappings |
| AddressMap.MergePreserves | src/gu_comm.c:259-275 | an address has a path and file offset in the merged mappings if and only if it has them in the lines |
| AddressMap.MergeMaximal | src/gu_comm.c:259-275 | no two neighbouring mappings that could be merged are left apart |
| AddressMap.LoadRanges | src/gu_elf.c:61-91 | the executable ranges in program-header order |
| AddressMap.RangesFromHeaders | src/gu_elf.c:61-91 | every executable segment has its range and every range its segment |
| AddressMap.FindByOffset | src/gu_elf.c:167-200 | the address in the first range that covers the file bytes |
| AddressMap.MatchExact | src/gu_elf.c:167-200 | a match comes from the first covering range, and there is none exactly when no range covers the bytes |
| AddressMap.TranslationRight | src/gu_stacktrace.c:2705-2707 | the relative PC lies in the matched range and has the PC's file offset under its program header |
| AddressMap.ChosenExact | src/gu_stacktrace.c:1459-1476 | the chosen address translates right if and only if the match is not 0 or the first segment starts at 0 |
| AddressMap.IndexMaps | src/gu_stacktrace.c:1554-1600 | the interval index built over a process's mappings holds them in order, however it sorts |
| AddressMap.EndToEnd | src/gu_stacktrace.c:1478-1493 | from a maps line through merging, index, program headers and their match by offset to the ELF address of the same file byte, right if and only if the match is not mistaken for none |
| AddressMap.ZeroMatchIsFirst | src/gu_stacktrace.c:1459-1476 | with ranges in address order a match at 0 means that the first range starts at 0 |
| AddressMap.EndToEndRising | src/gu_stacktrace.c:1478-1493 | the whole way without exception for files with their segments in address order |
| AddressMap.ZeroMatchMistaken | src/gu_stacktrace.c:1459-1476 | two program headers and a mapping for which byte 0x10 of the file is taken for byte 0x2010 |
| UnwindRun.SnapshotRead | src/gu_stacktrace.c:2297-2318 | reads exactly the words inside the snapshot, by wrapping arithmetic |
| UnwindRun.Backtrace.RecoverCaller | src/gu_stacktrace.c:2766-2791 | the caller's PC, SP and registers, the fallback for the innermost frame and the stop reason |
| UnwindRun.Backtrace.Move | src/gu_stacktrace.c:2800-2827 | the new registers, or the end of stack or lack of progress that stops the run |
| UnwindRun.Backtrace.Enter | src/gu_stacktrace.c:2705-2798 | the frame reported at the PC and the step to its caller |
| UnwindRun.Backtrace.TakeTurn | src/gu_stacktrace.c:2679-2828 | one turn of the loop, the mapping search and its failures included |
| UnwindRun.Backtrace.Unwind | src/gu_stacktrace.c:2647-2848 | the frames given to the callback, in order, and the stop reason of the whole run |
| UnwindRun.AppendPcFrame | src/gu_stacktrace.c:2332-2392 | the frame for a PC of the tail, anonymous mappings and the bottom of the stack included |
| UnwindRun.FollowFramePointers | src/gu_stacktrace.c:2394-2454 | the tail's frames |
| UnwindRun.TurnProgress | src/gu_stacktrace.c:2679-2828 | what holds at the head of a turn holds at the head of the next |
| UnwindRun.MainProgress | src/gu_stacktrace.c:2679-2828 | rising stack pointers, no repeated caller PC and at most one frame per turn, from any point of a run |
| UnwindRun.UnwindProgress | src/gu_stacktrace.c:2804-2824 | the CFI frames of every run: at most 512, strictly rising SP, differing PCs from the second frame on |
| UnwindRun.UnwindBounded | src/gu_stacktrace.c:2677-2848 | every run makes at most 512 + 127 callbacks |
| UnwindRun.HeadRunning | src/gu_stacktrace.c:2679-2682 | at the head of turn k there are k frames, and the turn counter is k or, without verbose logging, 0 |
| UnwindRun.CallerLookup | src/gu_stacktrace.c:2248-2263 | a caller is looked up one byte before its return address if and only if logging is verbose |
| UnwindRun.FallbackOnlyInnermost | src/gu_stacktrace.c:2768-2779 | after the innermost frame an unrecoverable return address always ends the run |
| UnwindRun.FirstPairMayRepeat | src/gu_stacktrace.c:2809-2824 | a concrete run that emits two frames with the same PC |
| UnwindRun.FirstPairExact | src/gu_stacktrace.c:2809-2824 | the second frame repeats the PC of the first if and only if CFI gives no return address or gives that PC |
| UnwindRun.FallbackRepeats | src/gu_stacktrace.c:2768-2779 | a run that goes on after an unrecoverable innermost return address repeats its first frame |
| UnwindRun.FallbackRuns | src/gu_stacktrace.c:2768-2779 | a concrete run without a return address that goes on and emits two frames with the same PC |
| UnwindRun.TailChain | src/gu_stacktrace.c:2426-2448 | one frame pointer per frame of the tail's loop; they rise, are 8-aligned and lie inside the snapshot |
| UnwindRun.ChainFits | src/gu_stacktrace.c:2320-2330 | such a chain has at most one member per eight bytes of snapshot |
| UnwindRun.TailBounds | src/gu_stacktrace.c:2394-2454 | the tail's loop emits at most 127 frames and at most stack_size / 8; the current PC adds at most one |
| UnwindMeaning.TurnFollows | src/gu_stacktrace.c:2705-2827 | a turn that goes on steps to the caller the last table row at or below its lookup PC describes: return address or fallback, stack pointer, frame pointer kept where the row says nothing, other registers unchanged, and the signal flag of its CIE |
| UnwindMeaning.RunFollows | src/gu_stacktrace.c:2679-2828 | the same from each frame to the next of every run |
| UnwindFrames.SymbolFound | src/gu_stacktrace.c:2265-2295 | an address inside a symbol gets its name and the distance from its start |
| UnwindFrames.NoSymbolFound | src/gu_stacktrace.c:2265-2295 | an address outside all symbols gets none |
| UnwindFrames.TurnReports | src/gu_stacktrace.c:2705-2745 | PC, file-relative PC, symbol and offset of the frame a turn reports, and what remains of them for Go files reported by build id |
| UnwindFrames.TurnSilent | src/gu_stacktrace.c:2679-2700 | a turn without a file reports nothing and ends the loop; an anonymous mapping asks for the tail to report the PC |
| UnwindFrames.ImageCovers | src/gu_stacktrace.c:2679-2700 | a turn uses a mapping that holds its PC, searched for or reused |
| UnwindFrames.VisitStops | src/gu_stacktrace.c:2747-2824 | the stop reason of a turn, from the bottom of the stack, missing CFI and undecodable rows to unrecoverable registers and lack of progress |
| UnwindFrames.Appends | src/gu_stacktrace.c:2332-2392 | what a frame of the tail says, and when there is none |
| UnwindFrames.TailFollows | src/gu_stacktrace.c:2394-2454 | each saved frame pointer leads to the next, the word above it is the PC of its frame, and the loop ends after 127 frames, at the bottom of the stack, at a pair that cannot be followed or at a PC outside every mapping |
| UnwindFrames.RunStarts | src/gu_stacktrace.c:2647-2677 | a run starts at the sampled PC and stack pointer |
| UnwindFrames.RunEnds | src/gu_stacktrace.c:2828-2848 | after the CFI loop the tail starts at the frame pointer it left, unless the loop met the bottom of the stack or lost its process; the stop reason either way |
| ElfCache.PutSound | src/gu_stacktrace.c:1449-1457 | giving back a held reference keeps counts, retirement, tallies and the deadline bound |
| ElfCache.AcquireSound | src/gu_stacktrace.c:1310-1416 | so does taking one, on a live, retired or new entry |
| ElfCache.PutAllSound | src/gu_stacktrace.c:1627-1650 | so does giving back all references of some mappings |
| ElfCache.LoadMapsSound | src/gu_stacktrace.c:1554-1595 | so does a load at any point, failed loads and failed allocations included |
| ElfCache.ClearPidSound | src/gu_stacktrace.c:1725-1746 | so does clearing a context |
| ElfCache.LazyIsEager | src/gu_stacktrace.c:345-371 | a sweep leaves what an eager sweep would, and nothing expired, even when it returns early |
| ElfCache.SweepSound | src/gu_stacktrace.c:345-371 | a sweep keeps the accounts |
| CacheRuns.StepKeeps | src/gu_stacktrace.c:1677-1835 | every step keeps accounts, event log and reload spacing |
| CacheRuns.Run | src/gu_stacktrace.c:2590-2636 | every sequence of steps from a good state ends in a good state |
| CacheRuns.ReachableAccounts | src/gu_stacktrace.c:253-343 | in every reachable cache counts are references, retired means unreferenced, counters are set sizes and totals are sums |
| CacheRuns.EventsAlternate | src/gu_stacktrace.c:1748-1792 | in every run a process's events alternate, and DESTROY names the unique id of its CREATE |
| CacheRuns.ContextIffCreated | src/gu_stacktrace.c:2608-2636 | a process has a context exactly when its last event was CREATE, and the counter counts the contexts |
| CacheRuns.ReloadsApart | src/gu_stacktrace.c:1677-1723 | in every run the PC-miss reloads of one process are at least 30 s apart |
| CacheRuns.MissKeeps | src/gu_stacktrace.c:1794-1835 | a PC miss keeps the invariant and destroys no ELF, reload included |
| CacheRuns.FreedOnlyWhenDue | src/gu_stacktrace.c:345-371 | only a sweep frees an ELF, and only an unreferenced one past its deadline |
| CacheRuns.CleanupEmpties | src/gu_stacktrace.c:1884-1890 | cleanup leaves no context, no ELF and zero statistics |
| CacheProgress.OpenProgress | src/gu_stacktrace.c:2608-2636 | a context for another unique id goes with its DESTROY, a missing one comes with its CREATE when the process lives and its maps load, and holds one reference per readable mapping |
| CacheProgress.PreloadProgress | src/gu_stacktrace.c:2031-2070 | a preload makes a missing context of a live process and does nothing else |
| CacheProgress.MissProgress | src/gu_stacktrace.c:1794-1835 | a PC miss reloads when the delay of its context is over and the process lives, and otherwise only reads the clock |
| CacheProgress.ExitProgress | src/gu_stacktrace.c:1993-2005 | an exit drops exactly the context it names |
| CacheProgress.SweepProgress | src/gu_stacktrace.c:345-391 | a pending sweep frees an ELF if and only if it is retired and its time is over, and changes no other |
| CacheProgress.PutProgress | src/gu_stacktrace.c:1449-1457 | the last reference given back retires an ELF for ten seconds |
| CacheProgress.ReloadDue | src/gu_stacktrace.c:1677-1699 | the next reload is due 30 to 90 seconds after the maps were read |
| CacheContext.Context.RetireElf | src/gu_stacktrace.c:320-343 | retirement in place; the guards on the counters never matter |
| CacheContext.Context.PutElf | src/gu_stacktrace.c:1449-1457 | a reference given back in place |
| CacheContext.Context.AcquireElf | src/gu_stacktrace.c:1310-1416 | a cached entry revived or a new one added, in place |
| CacheContext.Context.PutItems | src/gu_stacktrace.c:1627-1650 | the references of all mappings given back |
| CacheContext.Context.ClearContext | src/gu_stacktrace.c:1725-1746 | a context cleared in place |
| CacheContext.Context.LoadContext | src/gu_stacktrace.c:1521-1625 | the loading loop, its failure exits and the first reload time |
| CacheContext.Context.FreeElf | src/gu_stacktrace.c:266-318 | a retired entry leaves the table and the totals |
| CacheContext.Context.SweepAll | src/gu_stacktrace.c:358-370 | the pass over the table in any order equals the eager sweep, new deadline included |
| CacheContext.Context.SweepRetired | src/gu_stacktrace.c:345-371 | the sweep with its early returns |
| CacheContext.Context.MaybeSweepRetired | src/gu_stacktrace.c:373-391 | the sweep a call may start |
| CacheContext.Context.EvictContext | src/gu_stacktrace.c:1769-1772 | DESTROY, then clear |
| CacheContext.Context.AdmitContext | src/gu_stacktrace.c:2624-2636 | load, insert, count, CREATE |
| CacheContext.Context.OpenContext | src/gu_stacktrace.c:2608-2636 | a stale context dropped, a missing one loaded for a live process |
| CacheContext.Context.PreloadContext | src/gu_stacktrace.c:2031-2070 | a missing context loaded for a live process |
| CacheContext.Context.MissedPc | src/gu_stacktrace.c:1794-1835 | throttled, skipped for a dead process, or reloaded |
| CacheContext.Context.ExitContext | src/gu_stacktrace.c:1993-2005 | a matching context dropped with its event |
| CacheContext.Context.Cleanup | src/gu_stacktrace.c:1884-1890 | everything gone, whatever the order of the table |
| RootPath.Resolution.Follow | src/gu_stacktrace.c:1126-1143 | a link's target takes its place, from the root when absolute, within the limits |
| RootPath.Resolution.Descend | src/gu_stacktrace.c:1157-1162 | a directory becomes the top of the chain, or its descriptor is closed at the depth limit |
| RootPath.Resolution.Visit | src/gu_stacktrace.c:1112-1162 | a named component: link, last component, directory or error |
| RootPath.Resolution.Step | src/gu_stacktrace.c:1083-1163 | one turn keeps the descriptors a parent-to-child chain from the root and makes the measure smaller: links left of 40, then bytes left |
| RootPath.Resolution.Run | src/gu_stacktrace.c:1083-1172 | the loop ends and closes every descriptor it opened but the one it returns |
| RootPath.Resolve | src/gu_stacktrace.c:1056-1172 | the exact outcome for every argument: error, limit or descriptor as the verdict says unless the kernel itself fails; a returned descriptor lies inside the root and is the only change to the table, a failure changes nothing |
| RootPath.VerdictAgrees | src/gu_stacktrace.c:1083-1163 | the verdict over path bytes agrees with the walk over components: found means found, ENOENT and ELOOP mean no answer, ENOTDIR means no answer or one that is not a directory |
| RootPath.WithinLimits | src/gu_stacktrace.c:1126-1162 | a path that fits, with what the links it may follow can add, never meets the limits on length and depth |
| RootPath.SingleAgrees | src/gu_stacktrace.c:1146-1156 | where the path in hand at the end has no doubled slashes at its end, ENOTDIR means that the walk has no answer |
| RootPath.DoubledFindsDirs | src/gu_stacktrace.c:1146-1156 | where it has, only directories are found |
| RootPath.FinalIsGiven | src/gu_stacktrace.c:1131-1143 | the path in hand at the end has doubled slashes exactly when the given one has, when no link target has |
| RootPath.TrailingSlashes | src/gu_stacktrace.c:1146-1156 | a path whose walk has an answer is found if and only if the answer is a directory or the path in hand at the end has no doubled slashes, and gives ENOTDIR otherwise; only a limit can come between, and not for a path that fits |
| RootPath.SlashedFile | src/gu_stacktrace.c:1146-1156 | one slash after a regular file opens it, two give ENOTDIR, and the walk has the file either way |
| RootPath.VerdictInRoot | src/gu_stacktrace.c:1051-1055 | whatever a path resolves to is reached from the root downwards |
| RootPath.WalkStaysInRoot | src/gu_stacktrace.c:1051-1055 | any mix of "..", absolute and relative links ends at a node reached from the root downwards |
| RootPath.SplitAtSlash | src/gu_stacktrace.c:1090-1102 | splitting at a slash splits the components |
| PathLaws.EmptyPath | src/gu_stacktrace.c:1083-1102 | the empty path is the directory itself, and slashes in front mean nothing |
| PathLaws.Dots | src/gu_stacktrace.c:1103-1110 | "." stays, ".." goes to the directory before and stays at the root |
| PathLaws.EnterDirectory | src/gu_stacktrace.c:1144-1162 | a directory is found at the end of a path and entered when more follows, within the depth limit |
| PathLaws.FilesAndMissing | src/gu_stacktrace.c:1112-1156 | a file is found at the end of a path or before one slash and gives ENOTDIR otherwise; a missing name gives ENOENT |
| PathLaws.FollowLink | src/gu_stacktrace.c:1126-1143 | a link stands for its target and what follows it, from the root when the target starts with a slash, else from the directory it is in; ELOOP when no link is left, and the length limit |
| PathLaws.InAndOut | src/gu_stacktrace.c:1103-1110 | going into a directory and back changes nothing |
| PathLaws.WalkLaws | src/gu_stacktrace.c:1103-1110 | the walk over components treats dots in the same way |
| PathLaws.WalkLink | src/gu_stacktrace.c:1126-1143 | and links |
| PathLaws.WalkInAndOut | src/gu_stacktrace.c:1103-1110 | and a directory left again |
| Crc32.TableInit | src/gu_stacktrace.c:454-462 | entry i is eight bit steps of i |
| Crc32.Update | src/gu_stacktrace.c:464-472 | the table-driven loop gives the bit-by-bit reflected CRC of section 8 of RFC 1952 |
| Crc32.TableStep | src/gu_stacktrace.c:454-472 | eight bit steps are one table step |
| CrcKnown.Generator | src/gu_stacktrace.c:454-462 | the polynomial is the generator of section 8 of RFC 1952, coefficient by coefficient |
| CrcKnown.KnownChecksum | src/gu_stacktrace.c:464-472 | the checksum of the bytes ff ff ff 7f is 0x12477cdf |
| Crc32.ChunksConcatenate | src/gu_stacktrace.c:484-496 | updating over any number of chunks equals one update over their concatenation |
| Crc32.CrcMatches | src/gu_stacktrace.c:474-500 | the reading loop accepts exactly when the file is read to its end and its checksum is the expected one |

## Left out

- libelf and libdw calls, section scanning and the extraction of CIE and FDE headers: foreign code; decoded records and section bytes are inputs.
- The default CIE rules, which the source computes once with the first CIE's data alignment: `Cie.initial` is an input, and `FrameInsns.DefaultRow` gives the default.
- CfiParser.Parser.Parse: takes CIEs that leave no remembered state outstanding; `FrameTable.ParseFrees` says what the others do.
- CallFrame.FrameContext.Apply: a register-only CFA change on top of a CFA expression overwrites a block pointer; the model gives that row no CFA.
- CallFrame.FrameContext.Interpret: inherits that from `CallFrame.FrameContext.Apply`.
- EvalMachine.Unwinder.EvalOps: CFA programs that themselves ask for the CFA are excluded, because the source recurses on them without end.
- IntervalIndex.SearchIsScan: nothing is claimed for overlapping intervals beyond `IntervalIndex.HitContains`.
- UnwindRun.Backtrace.Unwind: the early returns before the registers are read, the frame-count return value and the samples hinted to use frame pointers only are not modelled; ELF parses are uncached, which `CfiParser.CacheInvisible` justifies.
- RootPath.Resolve: the tree does not change during a call, and open flags and permissions are not modelled beyond a kernel that may fail any call.
- Registers of architectures other than x86-64.
- `openat2` itself, file, /proc, kallsyms, vDSO, MD5 and debug-file search: input and output.
- The timer thread: a nondecreasing clock whose readings leave room for the delays below 2^64 ns, and a pending flag given per call.
- Allocation failure, except where it unwinds references while a process is loaded.
- The payload a caller attaches to a process, Go flags of contexts, comm names and the counters that only count calls.
- The registry of event handlers, logging, profiling dumps and the benchmark tools: they store, print or time what the modelled code produces and add no law of their own.
