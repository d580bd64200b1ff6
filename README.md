# decotlin, modelled in Dafny

decotlin is a decompiler from JVM bytecode back to Kotlin source. This
project models its core: everything it does after a class file's bytes have
been read and before any text is written out. It then proves properties of
that model. The stages follow the repository's own classes.

- **Stack emulator** (`IntermediateCode`; modules `Opcodes`, `Emulation`,
  `EmulationProofs`, `Intermediate`). `applyOpcode` turns one JVM opcode and
  its operand bytes into zero, one or two statements, such as `s3 = v1` or
  `if (s2 <= 0) goto 17`. It also advances the stack-slot counter
  `stackVarIndex`.
  - `Emit` gives, for every opcode, what `applyOpcode` writes and how many
    slots it pushes.
  - The class `IntermediateCode` keeps the statement map and the counter as
    fields. Its methods are proved against `Emit`.
  - Opcode numbers are those of chapter 7 of The Java Virtual Machine
    Specification.
  - The constant pool is a map from index to the display string the pool
    gives for that entry.
- **Translator** (`Parser`; modules `Reading`, `Propagation`, `Marks`,
  `Renumbering`, `Cutting`, `Parsing`). The class `Parser` carries the
  fields `basicBlockMapping`, `jumpEntryIndices` and `jumpTable`. `run` is
  modelled step by step:
  - the byte loop that reads every method;
  - copy propagation up to the point where no right side names a stack
    slot;
  - substitution into conditions and void calls;
  - removal of stack-slot assignments;
  - renumbering of keys to dense ranks, with jump targets remapped;
  - the Entry/Exit/Bounce/None marking of block boundaries;
  - the cut into blocks and the left/right edges.
- **Graph types** (`BasicBlock`, `CFNode`; modules `Blocks`, `Graph`).
  - A block is a class with its statement map, its `jumpTo` and its header
    flag.
  - Nodes live in an arena: a sequence of nodes addressed by their keys.
    Back edges and self-loops are therefore harmless.
  - `compactGraph` and `toString` are breadth-first searches with a visited
    list. They are proved to visit exactly the reachable nodes, each once.
- **Analyzer** (`UDM`; module `Udm`).
  - The breadth-first peephole pass rewrites the `dcmpl` artefact in place
    in each block.
  - The reaching-definition transfer functions.
  - The recursive dominance-frontier walk.
  - The max-propagating forward data flow, over an array.
- **Emitter** (`Generator`; module `Generator`).
  - The reachable blocks are listed by ascending key, one `key\tstatement`
    line per statement.
  - `getLoopHeader` formats `for (x in a..b)`.
- **Run state** (`Context`, `DecompilerConfig`; modules `Context`,
  `Config`). These cover:
  - the symbol table and the reaching-definition maps;
  - deriving the output file's name from the class name;
  - reading `key = value` configuration lines into a map.

Supporting modules:

- `Wrappers`: `Option`, plus `Result` with one `Exception` value per Kotlin
  exception the code can throw.
- `Text`: `split`, `contains`, `replace`, and Kotlin's `Int` text
  conversions, each with its own contract.
- `LinkedMaps`: Kotlin's insertion-ordered `mutableMapOf`, written as a map
  plus the order of its keys. Several steps of `run` depend on that order.
- `Rounds`: generic folds and a bounded fixed-point iteration.

A Kotlin exception is modelled as an `Err` result wherever the source can
throw. Such throws include `split(...)[1]` on a text without the separator,
`toInt()` on a malformed number, `reduce` on an empty list (an
`UnsupportedOperationException`), and an unset
`lateinit` property.

Behaviour of the code worth knowing:

- A two-byte branch offset is `|p0 * 16 + p1 + byteIndex|`
  (`IntermediateCode.kt:152`). The JVM's own branch offset is a big-endian
  signed 16-bit value.
- The last block ends before the last statement (`size - 1`), so the last
  statement belongs to no block (`Parser.kt:173`). `Cutting.BlocksPartition`
  and `Cutting.JumpLandsInOwner` state this.
- A block falls through unless any of its statements, not only the last,
  is a `goto` without `if (` (`Parser.kt:186-191`).
- A jump to an offset with no surviving statement is not rejected. It is
  renumbered to the first surviving statement at or after that offset, and
  to 0 only when the offset lies past every surviving statement
  (`Parser.kt:116-122`, `Renumbering.FirstAtLeast`). With surviving keys 0,
  3 and 5, `goto 2` becomes `goto 1` and `goto 7` becomes `goto 0`.
- `restructureCFG` prints the key of every statement, including the
  negative keys SWAP synthesises (`Generator.kt:76`).
- SWAP's second statement sits under the negative key `-1 - byteIndex`
  (`IntermediateCode.kt:135`). It is a stack assignment and is normally
  removed. If copy propagation puts a pool text holding `goto` on its
  right side, `removeStackVar` keeps it (`IntermediateCode.kt:175`).
  Renumbering then ranks it first, so the keys no longer run in increasing
  order. `Parsing.PreparedReady` and `Parsing.PreparedCutReady` assume that
  no such key is left (`NoShadowKeys`).
- `getLoopHeader` tests `<` before `<=` and `>` before `>=`, so the `<=`
  and `>=` arms can never be chosen (`Generator.kt:93-106`).
  `Generator.ComparatorChoice` proves this. `Generator.LessOrEqualThrows`
  shows that a `<=` header throws.
- `forwardDataFlow` overwrites a node's value with its own transfer value
  when the node is reached. Raises from parents with smaller keys are
  therefore lost. `Udm.FlowResult` states the value each node actually
  ends with.
- Unsupported opcodes add nothing (`Emulation.Emit`).

## Model

| member | source | states |
|---|---|---|
| Opcodes.Unsigned | src/main/kotlin/hr/fer/decotlin/IntermediateCode.kt:70 | `toUByte().toInt()` yields a value in 0..255 congruent to the signed byte modulo 256 |
| Opcodes.PoolIndex | src/main/kotlin/hr/fer/decotlin/IntermediateCode.kt:70 | `(hi shl 8) or lo` is a 16-bit index whose high byte is `hi` and low byte is `lo`, both read unsigned |
| Emulation.ComposeBranchOffset | src/main/kotlin/hr/fer/decotlin/IntermediateCode.kt:151-154 | with two operand bytes the target is the absolute value of `p0*16 + p1 + byteIndex`, so it is never negative; with one it lies in `byteIndex..byteIndex+255`; with none, reading `params[0]` throws |
| Emulation.PoolIndexOf | src/main/kotlin/hr/fer/decotlin/IntermediateCode.kt:66-130 | the pool index a pool-reading opcode names is a 16-bit unsigned value |
| Emulation.SlotEmit | src/main/kotlin/hr/fer/decotlin/IntermediateCode.kt:21-147 | the operand-free arms write one statement at `byteIndex` (SWAP writes a second one at `-1 - byteIndex`); SWAP pushes 2 slots, RETURN and the stores push none, every other arm pushes 1; the statements' texts are stated by `EmitLocalAccess`, `EmitArithmetic` and `EmitCompare` |
| Emulation.BranchEmit | src/main/kotlin/hr/fer/decotlin/IntermediateCode.kt:56-63 | IF_ICMPGE, IFLE and GOTO (lines 137-140) write one statement at `byteIndex` and push nothing; without operand bytes the offset computation throws |
| Emulation.PoolEmit | src/main/kotlin/hr/fer/decotlin/IntermediateCode.kt:66-130 | a pool-reading arm throws when its operand bytes are missing, fails exactly when the pool has no entry at the index, and otherwise writes one statement at `byteIndex`, pushing at most one slot |
| Emulation.StaticEmit | src/main/kotlin/hr/fer/decotlin/IntermediateCode.kt:66-81 | INVOKESTATIC assigns the call to a new slot, pushing exactly one; a signature without `(` throws |
| Emulation.VirtualArgCount | src/main/kotlin/hr/fer/decotlin/IntermediateCode.kt:100-104 | INVOKEVIRTUAL counts at most two argument types, one per type name `D`/`Object` present |
| Emulation.VirtualEmit | src/main/kotlin/hr/fer/decotlin/IntermediateCode.kt:91-116 | INVOKEVIRTUAL writes one statement at `byteIndex` and pushes one slot for a non-void result, none for `V` |
| Emulation.Emit | src/main/kotlin/hr/fer/decotlin/IntermediateCode.kt:14-148 | `applyOpcode` as a value: missing operand bytes throw; only pool lookups can fail otherwise; an opcode outside the chain adds nothing; at most two statements and two pushed slots; no key other than `byteIndex` is written except SWAP's `-1 - byteIndex` |
| Emulation.Apply | src/main/kotlin/hr/fer/decotlin/IntermediateCode.kt:14-148 | applying one instruction never lowers the slot counter and fails exactly when the instruction's translation throws |
| EmulationProofs.EmitStackDiscipline | src/main/kotlin/hr/fer/decotlin/IntermediateCode.kt:14-148 | every accepted instruction pushing `k` slots assigns `s{n}`..`s{n+k-1}` in turn under names `removeStackVar` recognises, and its other statements assign no slot |
| EmulationProofs.BranchOffsetRange | src/main/kotlin/hr/fer/decotlin/IntermediateCode.kt:151-154 | for byte indices below 65536 a branch offset fits Kotlin's 32-bit `Int`, so the plain arithmetic never wraps |
| EmulationProofs.EmitJumpTarget | src/main/kotlin/hr/fer/decotlin/IntermediateCode.kt:56-63 | a branch statement contains `goto`, splits on `"goto "` into two pieces, and its second piece parses back to `composeBranchOffset(byteIndex, params)` |
| EmulationProofs.EmitPushedConstant | src/main/kotlin/hr/fer/decotlin/IntermediateCode.kt:17-43 | ICONST_k and BIPUSH assign to `s{n}` a text that parses back to the constant pushed (k, or the signed operand byte) |
| EmulationProofs.EmitLocalAccess | src/main/kotlin/hr/fer/decotlin/IntermediateCode.kt:21-55 | ISTORE_k/DSTORE_k write `vk = s{n-1}`; ILOAD_k/DLOAD_k write `s{n} = vk` |
| EmulationProofs.EmitIncrement | src/main/kotlin/hr/fer/decotlin/IntermediateCode.kt:141-144 | IINC writes `v{i} = v{i} + {inc}` with both operand bytes read signed |
| EmulationProofs.EmitArithmetic | src/main/kotlin/hr/fer/decotlin/IntermediateCode.kt:117-119 | DMUL and DSUB push one slot: `s{n} = ` a product or difference that splits back into `s{n-2}` and `s{n-1}` (also lines 145-147) |
| EmulationProofs.EmitCompare | src/main/kotlin/hr/fer/decotlin/IntermediateCode.kt:120-123 | DCMPL pushes one slot: `s{n} = (d)/abs(d)`, written with bars, where `d` splits back into `s{n-2}` and `s{n-1}` |
| EmulationProofs.ArgListSplit | src/main/kotlin/hr/fer/decotlin/IntermediateCode.kt:75-79 | the argument text of a call splits on `", "` back into exactly the slot names it lists, from the top slot down |
| Intermediate.ParamsString | src/main/kotlin/hr/fer/decotlin/IntermediateCode.kt:75-79 | the argument loop builds the slot names from `top` downwards with `", "` between them and none after the last |
| Intermediate.CountArgTypes | src/main/kotlin/hr/fer/decotlin/IntermediateCode.kt:101-104 | the loop over `argTypes` counts exactly the argument types the signature names |
| Intermediate.StackAssignmentKeys | src/main/kotlin/hr/fer/decotlin/IntermediateCode.kt:174-179 | a key is selected iff its statement contains `=`, has no `goto`, and its left side is `s` followed by digits |
| Intermediate.WithoutStackAssignments | src/main/kotlin/hr/fer/decotlin/IntermediateCode.kt:172-183 | no stack-slot assignment survives, every other statement keeps its key and text, no key is added, and the order is the old order minus the removed keys |
| Intermediate.RemoveStackVarIdempotent | src/main/kotlin/hr/fer/decotlin/IntermediateCode.kt:172-183 | removing the stack-slot assignments twice is the same as once |
| Intermediate.EmitCall | src/main/kotlin/hr/fer/decotlin/IntermediateCode.kt:66-116 | a call whose pool entry exists is translated by the INVOKESTATIC or INVOKEVIRTUAL arm on the resolved signature |
| Intermediate.CollectStackAssignments | src/main/kotlin/hr/fer/decotlin/IntermediateCode.kt:173-179 | the first loop collects exactly the keys of the stack-slot assignments |
| Intermediate.RemoveEach | src/main/kotlin/hr/fer/decotlin/IntermediateCode.kt:180-182 | the second loop removes exactly the collected keys |
| Intermediate.VirtualEmission | src/main/kotlin/hr/fer/decotlin/IntermediateCode.kt:91-116 | the INVOKEVIRTUAL arm with its loops produces the statement `VirtualEmit` specifies |
| Intermediate.IntermediateCode.constructor | src/main/kotlin/hr/fer/decotlin/IntermediateCode.kt:8-11 | a new translation has no statements and the slot counter at 0 |
| Intermediate.IntermediateCode.ApplyOpcode | src/main/kotlin/hr/fer/decotlin/IntermediateCode.kt:14-149 | the new statements and counter are those `Apply` gives for the old state; on an exception nothing changes; the counter never decreases |
| Intermediate.IntermediateCode.ApplyStatic | src/main/kotlin/hr/fer/decotlin/IntermediateCode.kt:66-81 | the INVOKESTATIC arm stores the call under `byteIndex` and advances the counter by the slots `StaticEmit` pushes, or changes nothing when it throws |
| Intermediate.IntermediateCode.ApplyVirtual | src/main/kotlin/hr/fer/decotlin/IntermediateCode.kt:91-116 | the INVOKEVIRTUAL arm stores its statement under `byteIndex` and advances the counter as `VirtualEmit` says, or changes nothing when it throws |
| Intermediate.IntermediateCode.GetLength | src/main/kotlin/hr/fer/decotlin/IntermediateCode.kt:156-158 | the length is the number of distinct keys |
| Intermediate.IntermediateCode.Set | src/main/kotlin/hr/fer/decotlin/IntermediateCode.kt:164-166 | only `byteIndex` changes, to the new statement; the counter is untouched |
| Intermediate.IntermediateCode.SetCode | src/main/kotlin/hr/fer/decotlin/IntermediateCode.kt:168-170 | the statements are replaced wholesale; the counter is untouched |
| Intermediate.IntermediateCode.RemoveStackVar | src/main/kotlin/hr/fer/decotlin/IntermediateCode.kt:172-183 | the new code is the old one without its stack-slot assignments |
| Intermediate.IntermediateCode.ToString | src/main/kotlin/hr/fer/decotlin/IntermediateCode.kt:186-193 | one line per statement in insertion order: the key only when non-negative, a tab, the statement, a newline |
| Reading.NextBytesCount | src/main/kotlin/hr/fer/decotlin/m01/Parser.kt:263-330 | the operand-length table answers 0..4 for every opcode |
| Reading.OperandsCovered | src/main/kotlin/hr/fer/decotlin/m01/Parser.kt:263-330 | the table reserves at least as many operand bytes as `applyOpcode` reads for each opcode |
| Reading.OperandsAt | src/main/kotlin/hr/fer/decotlin/m01/Parser.kt:51-55 | the operands are the next `nextBytesCount` bytes, cut short only by the end of the code, never read past it |
| Reading.InstructionsFrom | src/main/kotlin/hr/fer/decotlin/m01/Parser.kt:43-62 | the byte loop visits instructions at strictly increasing indices inside the code, each next index being the previous plus its operand count plus one |
| Reading.ShortOnlyAtEnd | src/main/kotlin/hr/fer/decotlin/m01/Parser.kt:52-54 | an instruction gets fewer operand bytes than the emulator reads only at the very end of the code |
| Reading.InstructionAt | src/main/kotlin/hr/fer/decotlin/m01/Parser.kt:45-55 | the instruction at `b` has opcode `bytes[b]` read unsigned and the operands that follow it |
| Reading.TranslateCounts | src/main/kotlin/hr/fer/decotlin/m01/Parser.kt:43-62 | translating a method never lowers the slot counter |
| Reading.EmulateKeys | src/main/kotlin/hr/fer/decotlin/IntermediateCode.kt:14-148 | one instruction adds only its own byte index, or SWAP's `-1 - byteIndex`, to the keys |
| Reading.TranslateKeys | src/main/kotlin/hr/fer/decotlin/m01/Parser.kt:43-62 | every key of a translated method is an instruction's byte index or a SWAP's shadow key |
| Reading.InstructionCount | src/main/kotlin/hr/fer/decotlin/m01/Parser.kt:43-62 | the byte loop turns at most once per byte of the method |
| Reading.TranslateBound | src/main/kotlin/hr/fer/decotlin/m01/Parser.kt:43-62 | each instruction raises the slot counter by at most two |
| Reading.MethodBounds | src/main/kotlin/hr/fer/decotlin/m01/Parser.kt:43-62 | a translated method of `n` bytes ends with a slot counter in `0..2n` and keys in `-n..n-1` |
| Reading.PutAllForward | src/main/kotlin/hr/fer/decotlin/IntermediateCode.kt:131-136 | storing an instruction's statements, at its byte index and at SWAP's negative `-1 - byteIndex`, after keys no larger keeps the non-negative keys increasing |
| Reading.EmulateForward | src/main/kotlin/hr/fer/decotlin/IntermediateCode.kt:14-148 | one instruction at or past every earlier key keeps the non-negative keys increasing |
| Reading.TranslateForward | src/main/kotlin/hr/fer/decotlin/m01/Parser.kt:43-62 | instructions at increasing byte indices add their keys in increasing order, apart from SWAP's negative keys |
| Reading.MethodForward | src/main/kotlin/hr/fer/decotlin/m01/Parser.kt:43-62 | a translated method lists its non-negative keys in increasing order |
| Reading.OperandBytes | src/main/kotlin/hr/fer/decotlin/m01/Parser.kt:51-55 | the operand loop collects exactly `OperandsAt` |
| Reading.ReadInstruction | src/main/kotlin/hr/fer/decotlin/m01/Parser.kt:45-61 | one step of the byte loop applies the instruction at `byteIndex` as `Emulate` specifies and advances by `nextBytesCount + 1` |
| Reading.ReadMethod | src/main/kotlin/hr/fer/decotlin/m01/Parser.kt:39-63 | the byte loop over one method yields the translation `TranslateMethod` specifies, or its exception |
| Reading.ReadMethods | src/main/kotlin/hr/fer/decotlin/m01/Parser.kt:37-66 | the method loop yields one fresh translation per method, each the one `TranslateAll` specifies, or the first exception |
| Propagation.SubstituteNoNames | src/main/kotlin/hr/fer/decotlin/m01/Parser.kt:79-81 | replacing names that do not occur leaves the text unchanged |
| Propagation.ReplaceAll | src/main/kotlin/hr/fer/decotlin/m01/Parser.kt:79-81 | the replace loop over `stackVars.entries.reversed()` is the ordered substitution `Substitute` |
| Propagation.Reducible | src/main/kotlin/hr/fer/decotlin/m01/Parser.kt:209-216 | `isReducible` fails only with the index error that `split(" = ")[1]` throws |
| Propagation.ReducibleIff | src/main/kotlin/hr/fer/decotlin/m01/Parser.kt:209-216 | `isReducible` is true iff some statement with `=` and no `goto` has a right side containing `s` followed by a digit |
| Propagation.RecordName | src/main/kotlin/hr/fer/decotlin/m01/Parser.kt:77 | recording a name sets it to its right side and leaves every other name unchanged |
| Propagation.StepText | src/main/kotlin/hr/fer/decotlin/m01/Parser.kt:73-82 | a statement without `=` or with `goto` is skipped and leaves the names alone; a candidate without `" = "` throws |
| Propagation.Step | src/main/kotlin/hr/fer/decotlin/m01/Parser.kt:72-83 | one statement's rewrite keeps the state well formed and leaves non-candidates unchanged |
| Propagation.RewriteStatement | src/main/kotlin/hr/fer/decotlin/m01/Parser.kt:73-82 | the loop body computes `StepText` |
| Propagation.RoundKeeps | src/main/kotlin/hr/fer/decotlin/m01/Parser.kt:72-83 | one round keeps the keys and their order, and leaves every `goto` and non-assignment statement untouched |
| Propagation.PropagateSettles | src/main/kotlin/hr/fer/decotlin/m01/Parser.kt:71-84 | a finished propagation leaves no reducible statement; it fails only by the split exception or by running out of rounds |
| Propagation.PropagateFuel | src/main/kotlin/hr/fer/decotlin/m01/Parser.kt:71-84 | once propagation settles, more rounds give the same result |
| Propagation.PropagateKeeps | src/main/kotlin/hr/fer/decotlin/m01/Parser.kt:71-84 | the propagation rewrites statements in place: the keys and their order are those it started with |
| Propagation.Resolve | src/main/kotlin/hr/fer/decotlin/m01/Parser.kt:88-103 | only jumps and void calls (no `=`, with `.`) are rewritten by the condition pass; every other statement, in particular every assignment, is kept |
| Propagation.SubstituteAppend | src/main/kotlin/hr/fer/decotlin/m01/Parser.kt:91-93 | the reversed replace loop handles the later names before the earlier ones |
| Propagation.ResolveSlot | src/main/kotlin/hr/fer/decotlin/m01/Parser.kt:88-103 | in a jump or void call naming one recorded slot once, with no other recorded name in the way, the slot is replaced by its recorded text and the rest is kept |
| Propagation.ResolveAll | src/main/kotlin/hr/fer/decotlin/m01/Parser.kt:87-104 | the condition pass keeps keys and order and rewrites each statement by `Resolve` |
| Propagation.CopyPropagation | src/main/kotlin/hr/fer/decotlin/m01/Parser.kt:68-84 | the `while (isReducible)` loop leaves the code and names `Propagate` specifies, or its exception |
| Propagation.RoundStep | src/main/kotlin/hr/fer/decotlin/m01/Parser.kt:72-83 | one loop step rewrites the statement in place as `Step` says |
| Propagation.PropagationRound | src/main/kotlin/hr/fer/decotlin/m01/Parser.kt:72-83 | one pass over the entries computes `Round` |
| Propagation.ResolveStatement | src/main/kotlin/hr/fer/decotlin/m01/Parser.kt:88-103 | only the visited key changes, to its resolved text |
| Propagation.ResolveConditions | src/main/kotlin/hr/fer/decotlin/m01/Parser.kt:87-104 | the loop leaves `ResolveAll` of the old code |
| Marks.MarkedEntry | src/main/kotlin/hr/fer/decotlin/m01/Parser.kt:218-223 | after `markBlockEntry` the entry query holds, and the exit query is as before |
| Marks.MarkedExit | src/main/kotlin/hr/fer/decotlin/m01/Parser.kt:225-230 | after `markBlockExit` the exit query holds, and the entry query is as before |
| Marks.MarkIdempotent | src/main/kotlin/hr/fer/decotlin/m01/Parser.kt:218-230 | marking entry (or exit) twice is the same as once |
| Marks.MarksMeet | src/main/kotlin/hr/fer/decotlin/m01/Parser.kt:218-230 | marking entry and exit in either order yields Bounce |
| Marks.MarkEntryIn | src/main/kotlin/hr/fer/decotlin/m01/Parser.kt:218-223 | marking an entry changes only that key, making it entry-marked and keeping its exit mark |
| Marks.MarkExitIn | src/main/kotlin/hr/fer/decotlin/m01/Parser.kt:225-230 | marking an exit changes only that key, making it exit-marked and keeping its entry mark |
| Marks.EntryKeys | src/main/kotlin/hr/fer/decotlin/m01/Parser.kt:161-166 | the block starts are exactly the entry-marked keys, in map order |
| Marks.EntryKeysDistinct | src/main/kotlin/hr/fer/decotlin/m01/Parser.kt:161-166 | distinct keys give distinct block starts |
| Renumbering.SortedKeys | src/main/kotlin/hr/fer/decotlin/m01/Parser.kt:111 | `toSortedMap().keys` is strictly increasing and holds exactly the keys |
| Renumbering.SortedKeysCount | src/main/kotlin/hr/fer/decotlin/m01/Parser.kt:111 | no key is lost: distinct keys sort to a list of the same length |
| Renumbering.IndexIn | src/main/kotlin/hr/fer/decotlin/m01/Parser.kt:125 | `indexOf` is -1 exactly for a missing key, otherwise the first position holding it |
| Renumbering.RankOrder | src/main/kotlin/hr/fer/decotlin/m01/Parser.kt:110-127 | ranks preserve the order of keys in both directions |
| Renumbering.RanksDense | src/main/kotlin/hr/fer/decotlin/m01/Parser.kt:110-127 | the ranks are exactly `0..N-1` |
| Renumbering.FirstAtLeast | src/main/kotlin/hr/fer/decotlin/m01/Parser.kt:116-122 | the new offset is the least index whose key is at least the target, or 0 when none is |
| Renumbering.NewBranchOffset | src/main/kotlin/hr/fer/decotlin/m01/Parser.kt:116-122 | the search loop with its `break` computes `FirstAtLeast` |
| Renumbering.GetJumpDest | src/main/kotlin/hr/fer/decotlin/m01/Parser.kt:248-250 | reading a target throws the index error without `"goto "`, fails only with the index or number-format error, and yields a 32-bit value |
| Renumbering.Retarget | src/main/kotlin/hr/fer/decotlin/m01/Parser.kt:113-124 | a statement without `goto` is kept; one with it keeps its text before `"goto "` and gets the new offset, or the read exception |
| Renumbering.RetargetStatement | src/main/kotlin/hr/fer/decotlin/m01/Parser.kt:113-124 | the loop body computes `Retarget` |
| Renumbering.RetargetJumpDest | src/main/kotlin/hr/fer/decotlin/m01/Parser.kt:113-124 | reading the target of a retargeted statement gives `FirstAtLeast` of the old target |
| Renumbering.RekeyOk | src/main/kotlin/hr/fer/decotlin/m01/Parser.kt:112-126 | rebuilding the map succeeds iff every statement rewrites, and an error is some statement's error |
| Renumbering.RekeyShape | src/main/kotlin/hr/fer/decotlin/m01/Parser.kt:112-126 | with distinct new keys every statement's rewrite sits under its new key |
| Renumbering.RenumberErrors | src/main/kotlin/hr/fer/decotlin/m01/Parser.kt:115 | renumbering fails only by a missing `"goto "` piece or a malformed number |
| Renumbering.RenumberDense | src/main/kotlin/hr/fer/decotlin/m01/Parser.kt:110-127 | renumbered keys are dense `0..N-1`, in the old order, each the rank of the old key |
| Renumbering.RenumberKeeps | src/main/kotlin/hr/fer/decotlin/m01/Parser.kt:110-127 | every statement survives, retargeted, under its key's rank |
| Cutting.BlockCode | src/main/kotlin/hr/fer/decotlin/m01/Parser.kt:171-176 | a block holds exactly the statements with keys in `[start, end)`, in increasing key order |
| Cutting.Owner | src/main/kotlin/hr/fer/decotlin/m01/Parser.kt:170-178 | the owner of a key is the last start not after it |
| Cutting.BlocksPartition | src/main/kotlin/hr/fer/decotlin/m01/Parser.kt:170-178 | with increasing starts each key from the first start up to `N-2` lies in exactly one block, and key `N-1` lies in none (the last block ends at `N-1`) |
| Cutting.LastHolding | src/main/kotlin/hr/fer/decotlin/m01/Parser.kt:199-201 | the right child is the last block holding the target, or none when no block does |
| Cutting.Cut | src/main/kotlin/hr/fer/decotlin/m01/Parser.kt:168-178 | block i holds the statements in `[start_i, end_i)` |
| Cutting.JumpLandsInOwner | src/main/kotlin/hr/fer/decotlin/m01/Parser.kt:195-201 | a target inside the blocks lands in its owner block; the last statement lands in none |
| Graph.Children | src/main/kotlin/hr/fer/decotlin/CFNode.kt:48-57 | a node's adjacency list is its left child then its right child, and nothing else |
| Graph.BfsVisit | src/main/kotlin/hr/fer/decotlin/CFNode.kt:42-57 | visiting the head of the queue keeps the BFS invariant and strictly shrinks the unvisited set, so the traversal ends even on cycles |
| Graph.BfsDone | src/main/kotlin/hr/fer/decotlin/CFNode.kt:42-58 | when the queue is empty the visited list holds exactly the nodes reachable from the root |
| Graph.BlockTexts | src/main/kotlin/hr/fer/decotlin/CFNode.kt:79 | each node's text is its block's `toString` |
| Graph.PrintFrom | src/main/kotlin/hr/fer/decotlin/CFNode.kt:62-97 | the loop emits one section per node it takes and takes them in exactly the order `BfsWalk` gives from the root: each reachable node once, the root first, nearer nodes before farther ones |
| Graph.PrintedOrder | src/main/kotlin/hr/fer/decotlin/CFNode.kt:62-97 | the order the loop ends with lists every reachable node exactly once, starts at the root, and is nearest-first |
| Graph.BfsWalk | src/main/kotlin/hr/fer/decotlin/CFNode.kt:70-95 | the order in which the queue walk takes nodes (pop the head, skip it if taken, else take it and queue left then right child); what was taken before stays a prefix |
| Graph.NotTakenIsFar | src/main/kotlin/hr/fer/decotlin/CFNode.kt:70-95 | a node not taken yet, when every node within `level - 1` steps has been taken, is at least `level` steps from the root |
| Graph.TakeNearestFirst | src/main/kotlin/hr/fer/decotlin/CFNode.kt:71-75 | taking such a node keeps the taken list nearest-first |
| Graph.NextLevel | src/main/kotlin/hr/fer/decotlin/CFNode.kt:70-95 | once the current level has left the queue, every node within `level` steps has been taken and the queue holds the next level |
| Graph.LevelCovered | src/main/kotlin/hr/fer/decotlin/CFNode.kt:70-95 | when the nodes within `level - 1` steps are taken and their children are all taken too, every node within `level` steps is taken |
| Graph.SkipInLevel | src/main/kotlin/hr/fer/decotlin/CFNode.kt:74 | popping a node already taken keeps the level bookkeeping |
| Graph.TakeInLevel | src/main/kotlin/hr/fer/decotlin/CFNode.kt:71-94 | taking a node of the current level and queueing its children keeps the level bookkeeping |
| Graph.WalkNearestFirst | src/main/kotlin/hr/fer/decotlin/CFNode.kt:70-95 | from any consistent level state the walk goes on listing nearer nodes first |
| Graph.PopNearestFirst | src/main/kotlin/hr/fer/decotlin/CFNode.kt:71-94 | the same, for the step that pops a node of the current level, whether it is skipped or taken |
| Graph.LastNoNearerPairs | src/main/kotlin/hr/fer/decotlin/CFNode.kt:62-97 | an order whose every node is no nearer than any node listed before it is nearest-first for every pair |
| Graph.WalkStep | src/main/kotlin/hr/fer/decotlin/CFNode.kt:71-94 | one step of the walk: a node already taken is dropped from the queue, a new one is taken and its children are queued |
| Graph.BfsNearestFirst | src/main/kotlin/hr/fer/decotlin/CFNode.kt:62-97 | the walk from the root is breadth-first: a node reachable within `d` steps is never listed after one that is not |
| Graph.WithinStepsGrow | src/main/kotlin/hr/fer/decotlin/CFNode.kt:70-95 | the nodes within `d` steps are among those within `e >= d` steps |
| Graph.WalkTakes | src/main/kotlin/hr/fer/decotlin/CFNode.kt:71-94 | one step of the walk on a node not yet taken |
| Graph.WalkOfSampleTree | src/main/kotlin/hr/fer/decotlin/CFNode.kt:62-97 | on the graph 0 -> 1, 2 and 1 -> 3 the walk takes 0, 1, 2, 3 |
| Graph.WalkOfSampleTreeFrom1 | src/main/kotlin/hr/fer/decotlin/CFNode.kt:70-95 | from the state after taking 0, the walk goes on with 1, 2, 3 |
| Graph.WalkOfSampleTreeFrom2 | src/main/kotlin/hr/fer/decotlin/CFNode.kt:70-95 | the last two steps of that walk |
| Graph.DepthFirstRejected | src/main/kotlin/hr/fer/decotlin/CFNode.kt:62-97 | the depth-first order 0, 1, 3, 2 of that graph is not nearest-first, so the sections of `toString` cannot come in that order |
| Graph.ControlFlowGraph.constructor | src/main/kotlin/hr/fer/decotlin/CFNode.kt:5-7 | the graph holds the given nodes with their children |
| Graph.ControlFlowGraph.InsertLeft | src/main/kotlin/hr/fer/decotlin/CFNode.kt:18-20 | only the named node's left child changes |
| Graph.ControlFlowGraph.InsertRight | src/main/kotlin/hr/fer/decotlin/CFNode.kt:22-24 | only the named node's right child changes |
| Graph.ControlFlowGraph.RemoveChildren | src/main/kotlin/hr/fer/decotlin/CFNode.kt:26-29 | only the named node changes, losing both children |
| Graph.ControlFlowGraph.RemoveSingleChildNode | src/main/kotlin/hr/fer/decotlin/CFNode.kt:31-33 | `"left"` clears only the left child, any other argument only the right |
| Graph.Descend | src/main/kotlin/hr/fer/decotlin/CFNode.kt:9-12 | the descent moves to the left child when there is one, else to the right child, and stops exactly at a node without children |
| Graph.ControlFlowGraph.Find | src/main/kotlin/hr/fer/decotlin/CFNode.kt:9-16 | the answer is read off the leaf the left-else-right descent from the start reaches: that leaf if its block holds the index, null otherwise; a found node is reachable; a descent that passes more nodes than the graph has is a stack overflow |
| Graph.ControlFlowGraph.FindWithin | src/main/kotlin/hr/fer/decotlin/CFNode.kt:9-16 | the descent with a depth bound finds only reachable leaves holding the index; exceeding the bound is reported as stack overflow |
| Graph.ControlFlowGraph.FindAnswer | src/main/kotlin/hr/fer/decotlin/CFNode.kt:9-16 | with a budget of `n` calls: a success is the verdict on the leaf the descent reaches within `n` nodes (the leaf, or null when its block lacks the index); an overflow means `n + 1` descent nodes, the first `n` with children |
| Graph.ControlFlowGraph.FindAnswerDescend | src/main/kotlin/hr/fer/decotlin/CFNode.kt:9-11 | `FindAnswer` at a node with a child: the answer of the child, one node further from the start |
| Graph.ControlFlowGraph.FindAnswerLeaf | src/main/kotlin/hr/fer/decotlin/CFNode.kt:12-15 | at a node without children the descent stops there and answers for that node |
| Graph.DescendsWithinStep | src/main/kotlin/hr/fer/decotlin/CFNode.kt:9-11 | a descent from the child `Descend` picks extends to one from the parent, one node longer, ending at the same node |
| Graph.ControlFlowGraph.FindOverflowCycles | src/main/kotlin/hr/fer/decotlin/CFNode.kt:9-16 | when the model reports an overflow the descent revisits a node, so the source's recursion never returns |
| Graph.ControlFlowGraph.FindFuel | src/main/kotlin/hr/fer/decotlin/CFNode.kt:9-16 | a descent that finishes within a bound gives the same answer with any larger bound |
| Graph.ControlFlowGraph.CompactGraph | src/main/kotlin/hr/fer/decotlin/CFNode.kt:35-60 | the keys are exactly the reachable nodes, in the order `BfsWalk` takes them from the root, and each maps to its left-then-right children |
| Graph.ControlFlowGraph.ToString | src/main/kotlin/hr/fer/decotlin/CFNode.kt:62-97 | one section per reachable node, each exactly once, in the order `BfsWalk` takes them from the root; that order is nearest-first (`BfsNearestFirst`) |
| Blocks.RenderPut | src/main/kotlin/hr/fer/decotlin/BasicBlock.kt:21-28 | adding a new statement appends exactly its line |
| Blocks.LinesAppend | src/main/kotlin/hr/fer/decotlin/BasicBlock.kt:21-28 | the rendering of two runs of entries is the concatenation of their renderings |
| Blocks.BasicBlock.constructor | src/main/kotlin/hr/fer/decotlin/BasicBlock.kt:3-7 | a new block is not a header and holds the given code and jump target |
| Blocks.BasicBlock.ContainsByteIndex | src/main/kotlin/hr/fer/decotlin/BasicBlock.kt:9-11 | true iff the index is a key of the block's code |
| Blocks.BasicBlock.SetBlockHeader | src/main/kotlin/hr/fer/decotlin/BasicBlock.kt:13-15 | the block becomes a header (again a no-op when it already is) and its code is unchanged |
| Blocks.BasicBlock.ToString | src/main/kotlin/hr/fer/decotlin/BasicBlock.kt:21-28 | one line per entry in map order: the key only when non-negative, a tab, the statement, a newline |
| Parsing.RenumberCode | src/main/kotlin/hr/fer/decotlin/m01/Parser.kt:110-127 | the renumbering loop replaces the code by `Renumber` of it, or reports its exception and leaves the code |
| Parsing.JumpTarget | src/main/kotlin/hr/fer/decotlin/m01/Parser.kt:133-134 | a target is read exactly for statements with `goto` |
| Parsing.MarkStep | src/main/kotlin/hr/fer/decotlin/m01/Parser.kt:130-142 | scanning one statement records its jump (table and destinations), marks key 0 as entry, and marks a jump or the last key as exit, touching no other key |
| Parsing.ScanDense | src/main/kotlin/hr/fer/decotlin/m01/Parser.kt:130-142 | on dense keys with in-range targets the scan succeeds, marks every key in order, and every destination is a key |
| Parsing.MarkEntries | src/main/kotlin/hr/fer/decotlin/m01/Parser.kt:144-146 | every jump destination becomes entry-marked; other keys are unchanged; the order only grows at the end |
| Parsing.MarkExitsBefore | src/main/kotlin/hr/fer/decotlin/m01/Parser.kt:149-151 | the pass adds no key and changes no entry mark |
| Parsing.ExitsBeforeGet | src/main/kotlin/hr/fer/decotlin/m01/Parser.kt:149-151 | a key is exit-marked by the pass exactly when the next key is entry-marked |
| Parsing.EntriesAfterOk | src/main/kotlin/hr/fer/decotlin/m01/Parser.kt:154-158 | the pass throws a concurrent-modification error iff it would add a key before the last iteration, and otherwise equals `EntriesAfterAll` |
| Parsing.EntriesAfterGet | src/main/kotlin/hr/fer/decotlin/m01/Parser.kt:154-158 | the key after each exit-marked key (other than `size - 1`) becomes entry-marked; nothing else changes |
| Parsing.BoundaryMarks | src/main/kotlin/hr/fer/decotlin/m01/Parser.kt:130-158 | after all passes, key x is exit-marked iff it jumps, is last, or precedes a destination; entry-marked iff it is 0, a destination, or follows an exit |
| Parsing.BoundariesAgree | src/main/kotlin/hr/fer/decotlin/m01/Parser.kt:130-158 | key 0 opens and key `N-1` closes a block; an exit is always followed by an entry and vice versa; every jump closes its block and opens its target's |
| Parsing.RenumberedReady | src/main/kotlin/hr/fer/decotlin/m01/Parser.kt:110-127 | renumbered code has dense keys and every `goto` target in range |
| Renumbering.RenumberIncreasing | src/main/kotlin/hr/fer/decotlin/m01/Parser.kt:110-127 | renumbering keys that were increasing lists the new keys in increasing order |
| Parsing.WithoutForward | src/main/kotlin/hr/fer/decotlin/IntermediateCode.kt:172-183 | removing keys keeps the remaining non-negative keys increasing |
| Parsing.RemovalKeepsKeys | src/main/kotlin/hr/fer/decotlin/m01/Parser.kt:87-107 | the condition pass and the removal of stack assignments keep only original keys, in their order |
| Parsing.StagesKeepKeys | src/main/kotlin/hr/fer/decotlin/m01/Parser.kt:68-107 | propagation, the condition pass and the removal keep only original keys, in their order |
| Parsing.UnnumberedKeys | src/main/kotlin/hr/fer/decotlin/m01/Parser.kt:37-107 | before renumbering every key is a byte index of the first method or a SWAP's negative key, and the byte indices increase |
| Parsing.PreparedReady | src/main/kotlin/hr/fer/decotlin/m01/Parser.kt:37-127 | with no SWAP key left and a method of at most `MaxInt` bytes, the prepared code is numbered `0..N-1` in increasing order and every jump lands on a statement |
| Parsing.PrepareCode | src/main/kotlin/hr/fer/decotlin/m01/Parser.kt:37-127 | reading, propagation, resolution, stack-variable removal and renumbering of the first method compute `Prepare` |
| Parsing.JumpAt | src/main/kotlin/hr/fer/decotlin/m01/Parser.kt:177 | a block's `jumpTo` exists iff its last key `blockEnd - 1` is in the jump table |
| Parsing.CollectBlock | src/main/kotlin/hr/fer/decotlin/m01/Parser.kt:171-176 | the inner loop collects `BlockCode` of the range |
| Parsing.IsConditionalJump | src/main/kotlin/hr/fer/decotlin/m01/Parser.kt:185-191 | the loop with its `break` is true iff no statement has `goto` without `if (` |
| Parsing.FindJumpNode | src/main/kotlin/hr/fer/decotlin/m01/Parser.kt:198-201 | the loop over all nodes keeps the last one holding the target, else the old right child |
| Parsing.LinkedNode | src/main/kotlin/hr/fer/decotlin/m01/Parser.kt:182-203 | a new left edge goes only to the next node of a block that falls through; a new right edge goes to a block holding `jumpTo` |
| Parsing.ConnectNodes | src/main/kotlin/hr/fer/decotlin/m01/Parser.kt:182-203 | the edge loop links every node as `LinkedNode` says |
| Parsing.BuiltClosed | src/main/kotlin/hr/fer/decotlin/m01/Parser.kt:182-203 | every edge of the built graph points at one of its nodes |
| Parsing.JumpEdgeLands | src/main/kotlin/hr/fer/decotlin/m01/Parser.kt:195-201 | a jump edge leads to the owner block of the target; a jump to the last statement gets no edge |
| Parsing.EntryKeysIncreasing | src/main/kotlin/hr/fer/decotlin/m01/Parser.kt:161-166 | the block starts taken from increasing keys increase |
| Parsing.ReadyBlocks | src/main/kotlin/hr/fer/decotlin/m01/Parser.kt:130-166 | on code numbered `0..N-1` in increasing order whose jumps land, marking succeeds and the block starts increase from 0, are statement numbers, and are empty only for empty code |
| Parsing.TableTargets | src/main/kotlin/hr/fer/decotlin/m01/Parser.kt:130-142 | each jump-table entry is a jumping statement and the target it reads, itself a statement |
| Parsing.ReadyCut | src/main/kotlin/hr/fer/decotlin/m01/Parser.kt:130-166 | such code's block starts and jump table are fit for cutting (`CutReady`) |
| Parsing.PreparedCutReady | src/main/kotlin/hr/fer/decotlin/m01/Parser.kt:27-166 | with no SWAP key left and a method of at most `MaxInt` bytes, the starts and jump table `run` computes on the first method are fit for cutting |
| Parsing.BuiltBlocksPartition | src/main/kotlin/hr/fer/decotlin/m01/Parser.kt:168-178 | in a graph built with starts fit for the code, every statement but the last lies in exactly one node's block, the last block starting at or before it, and the last statement in none |
| Parsing.BuiltJumpSource | src/main/kotlin/hr/fer/decotlin/m01/Parser.kt:177 | a node's `jumpTo` is the jump table's entry for the statement before its block's end |
| Parsing.BuiltJumpsLand | src/main/kotlin/hr/fer/decotlin/m01/Parser.kt:177-201 | in such a graph a node's jump target is the `goto` target of the statement before its block's end; its right edge goes to the one block holding the target, or nowhere for the last statement |
| Parsing.ChildBlockText | src/main/kotlin/hr/fer/decotlin/m01/Parser.kt:256-257 | a missing child prints as `null`, a present one as its block |
| Parsing.CFGContentPrefix | src/main/kotlin/hr/fer/decotlin/m01/Parser.kt:252-261 | each node's section appears, in index order, as a prefix-extension of the content |
| Parsing.GetCFGContent | src/main/kotlin/hr/fer/decotlin/m01/Parser.kt:252-261 | the loop produces the sections of every node in index order |
| Parsing.NodeSection | src/main/kotlin/hr/fer/decotlin/m01/Parser.kt:255-258 | one node's section is `BLOCK i`, its block, its left and right blocks and the banner |
| Parsing.Parser.constructor | src/main/kotlin/hr/fer/decotlin/m01/Parser.kt:17-20 | a new parser has empty mapping, destination list and jump table |
| Parsing.Parser.MarkBlockEntry | src/main/kotlin/hr/fer/decotlin/m01/Parser.kt:218-223 | the mapping changes as `MarkEntryIn` says; the other tables are untouched |
| Parsing.Parser.MarkBlockExit | src/main/kotlin/hr/fer/decotlin/m01/Parser.kt:225-230 | the mapping changes as `MarkExitIn` says; the other tables are untouched |
| Parsing.Parser.ScanStatement | src/main/kotlin/hr/fer/decotlin/m01/Parser.kt:131-141 | one scan step updates the tables as `MarkStep` says, or reports its exception |
| Parsing.Parser.ScanStatements | src/main/kotlin/hr/fer/decotlin/m01/Parser.kt:130-142 | the scan loop updates the tables as `Scan` says |
| Parsing.Parser.MarkJumpTargets | src/main/kotlin/hr/fer/decotlin/m01/Parser.kt:144-146 | the mapping becomes `MarkEntries` of the destinations |
| Parsing.Parser.MarkExitsBeforeEntries | src/main/kotlin/hr/fer/decotlin/m01/Parser.kt:149-151 | the mapping becomes `MarkExitsBefore` over its own keys |
| Parsing.Parser.MarkEntriesAfterExits | src/main/kotlin/hr/fer/decotlin/m01/Parser.kt:154-158 | the mapping becomes `MarkEntriesAfter` over its own keys, or the concurrent-modification error |
| Parsing.Parser.BlockStarts | src/main/kotlin/hr/fer/decotlin/m01/Parser.kt:161-166 | the block starts are `EntryKeys` of the mapping |
| Parsing.Parser.FindBlockStarts | src/main/kotlin/hr/fer/decotlin/m01/Parser.kt:130-166 | from fresh tables the marking yields `MarkBoundaries` and its entry keys |
| Parsing.Parser.Partition | src/main/kotlin/hr/fer/decotlin/m01/Parser.kt:168-178 | one fresh, distinct block per start, holding its range and its `jumpTo` |
| Parsing.Parser.Assemble | src/main/kotlin/hr/fer/decotlin/m01/Parser.kt:168-204 | no starts throws at `nodes[0]`; otherwise a fresh graph built as `Built` says |
| Parsing.Parser.BuildGraph | src/main/kotlin/hr/fer/decotlin/m01/Parser.kt:130-206 | marking, partition and edges give the graph `Built` describes, with node 0 as root |
| Parsing.Parser.RunFirstMethod | src/main/kotlin/hr/fer/decotlin/m01/Parser.kt:27-206 | `run` on a named class with given bytecode: first the index error `ctx.setClassFile` raises for a simple class name shorter than two characters (`Context.kt:31`), otherwise the graph of the first method's prepared code, or the first exception of the later stages; with no SWAP key left and a method of at most `MaxInt` bytes, its starts and jump table are fit for cutting, so `BuiltBlocksPartition` and `BuiltJumpsLand` apply |
| Udm.RewriteHeader | src/main/kotlin/hr/fer/decotlin/m02/UDM.kt:116-129 | a statement is left alone iff it lacks `if (` or its condition lacks the `)/` + bar marker of the dcmpl artefact; failures are index errors |
| Udm.RewriteDcmpl | src/main/kotlin/hr/fer/decotlin/m02/UDM.kt:118-129 | the dcmpl artefact (`(x)/`, then `a - b` between bars, then ` cmp rest`) in `if (...) goto br` becomes `if (a cmp b) goto br` |
| Udm.RewritePassSpec | src/main/kotlin/hr/fer/decotlin/m02/UDM.kt:115-130 | the pass over a block succeeds iff every statement rewrites; it keeps keys and order and replaces each statement by its rewrite |
| Udm.RewriteBlock | src/main/kotlin/hr/fer/decotlin/m02/UDM.kt:115-130 | the block's code becomes `RewriteCode` of it, or the error is reported |
| Udm.VisitNode | src/main/kotlin/hr/fer/decotlin/m02/UDM.kt:111-135 | visiting an unvisited node rewrites its block alone |
| Udm.RewriteReachable | src/main/kotlin/hr/fer/decotlin/m02/UDM.kt:102-136 | every reachable block is rewritten once, the others are untouched, or the error comes from a reachable block |
| Udm.HeadersOptimization | src/main/kotlin/hr/fer/decotlin/m02/UDM.kt:101-137 | the BFS pass rewrites each reachable block exactly once, even on cycles, and leaves unreachable blocks alone |
| Udm.Frontier | src/main/kotlin/hr/fer/decotlin/m02/UDM.kt:153-160 | a frontier is computed only for a node of the graph (`graph[node]!!` throws otherwise) |
| Udm.FrontierSpec | src/main/kotlin/hr/fer/decotlin/m02/UDM.kt:153-160 | the frontier holds every successor y with `idom[y] != node` and the frontier of every successor it dominates, and nothing else |
| Udm.FrontierOfFails | src/main/kotlin/hr/fer/decotlin/m02/UDM.kt:157 | a failing recursive frontier makes the whole walk fail |
| Udm.FrontierSelfLoop | src/main/kotlin/hr/fer/decotlin/m02/UDM.kt:153-160 | a node that is its own successor and idom recurses without end |
| Udm.FrontierFuel | src/main/kotlin/hr/fer/decotlin/m02/UDM.kt:153-160 | a walk that finishes within a depth bound gives the same frontier with any larger bound |
| Udm.UnionAll | src/main/kotlin/hr/fer/decotlin/m02/UDM.kt:178 | `reduce` with `union` holds exactly the elements of the inputs |
| Udm.InReachDefs | src/main/kotlin/hr/fer/decotlin/m02/UDM.kt:176-180 | the in-set is exactly the union of the parents' out-sets; no parents throws `UnsupportedOperationException` |
| Udm.OutReachDefs | src/main/kotlin/hr/fer/decotlin/m02/UDM.kt:183-191 | the out-set is exactly `new ∪ (in − overwritten)`: everything new, every incoming definition not overwritten, and nothing else |
| Udm.ReachDefsMonotone | src/main/kotlin/hr/fer/decotlin/m02/UDM.kt:176-191 | both transfer functions are monotone in a parent's out-set |
| Udm.Raise | src/main/kotlin/hr/fer/decotlin/m02/UDM.kt:169-171 | raising children succeeds iff every child index is in range, keeping the length |
| Udm.RaiseValues | src/main/kotlin/hr/fer/decotlin/m02/UDM.kt:169-171 | each child's value becomes the maximum of its value and the parent's; other values stay |
| Udm.RaiseChildren | src/main/kotlin/hr/fer/decotlin/m02/UDM.kt:169-171 | the child loop over the array computes `Raise` or reports the range error |
| Udm.ForwardDataFlow | src/main/kotlin/hr/fer/decotlin/m02/UDM.kt:164-173 | the pass over the array yields `DataFlow` |
| Udm.FlowOver | src/main/kotlin/hr/fer/decotlin/m02/UDM.kt:165-172 | the node loop computes `Flow` over the sorted nodes |
| Udm.FlowResult | src/main/kotlin/hr/fer/decotlin/m02/UDM.kt:164-173 | the pass succeeds iff keys and children are in `0..N-1`; then each node's value is the maximum of its own transfer value and the transfer values of its parents with larger keys |
| Udm.FlowFails | src/main/kotlin/hr/fer/decotlin/m02/UDM.kt:164-173 | a key or child outside the value list throws |
| Udm.FlowLength | src/main/kotlin/hr/fer/decotlin/m02/UDM.kt:166 | the value list keeps its length |
| Generator.ReachableBelow | src/main/kotlin/hr/fer/decotlin/m03/Generator.kt:53-74 | the listed keys are increasing and exactly the reachable nodes |
| Generator.IncreasingUnique | src/main/kotlin/hr/fer/decotlin/m03/Generator.kt:74 | two increasing lists with the same elements are equal, so sorting the visited nodes is determined |
| Generator.StatementsOf | src/main/kotlin/hr/fer/decotlin/m03/Generator.kt:73-79 | a statement is listed iff it belongs to one of the listed blocks |
| Generator.ReachFrom | src/main/kotlin/hr/fer/decotlin/m03/Generator.kt:53-71 | the BFS visits exactly the reachable nodes, even with back edges |
| Generator.AppendLines | src/main/kotlin/hr/fer/decotlin/m03/Generator.kt:75-77 | the inner loop appends one `key\tstatement\n` line per entry |
| Generator.AppendBlock | src/main/kotlin/hr/fer/decotlin/m03/Generator.kt:75-77 | one block's lines are appended in map order |
| Generator.ListBlocks | src/main/kotlin/hr/fer/decotlin/m03/Generator.kt:74-78 | the outer loop lists the given blocks in the given order |
| Generator.RestructureCFG | src/main/kotlin/hr/fer/decotlin/m03/Generator.kt:50-80 | the output lists the reachable blocks in ascending key order, each statement on its own line |
| Generator.SourceLineKey | src/main/kotlin/hr/fer/decotlin/m03/Generator.kt:76 | an output line starts with its key, readable back, even when negative |
| Generator.SourceLineMatchesBlock | src/main/kotlin/hr/fer/decotlin/m03/Generator.kt:76 | for non-negative keys the line equals the block's own rendering; for negative keys it also carries the key |
| Generator.ComparatorChoice | src/main/kotlin/hr/fer/decotlin/m03/Generator.kt:87-107 | the comparator is the first of `==`, `<`, `>` that the condition contains; `<=` and `>=` are never chosen |
| Generator.GetLoopHeader | src/main/kotlin/hr/fer/decotlin/m03/Generator.kt:84-114 | the empty text iff there is no statement at key 0; errors are index errors; otherwise the result starts with `for (` |
| Generator.LoopHeaderShape | src/main/kotlin/hr/fer/decotlin/m03/Generator.kt:108-113 | a header `if (v cmp e) goto ...` becomes `for (v in start..e)` with the previous block's statement at `key - 1` as start |
| Generator.LessOrEqualThrows | src/main/kotlin/hr/fer/decotlin/m03/Generator.kt:96-110 | a `<=` condition picks ` < `, which does not occur, so reading the second piece throws |
| Config.ParseLine | src/main/kotlin/DecompilerConfig.kt:10-11 | a line reads iff it contains `" = "`, else the index error; key and value are free of the separator |
| Config.Parse | src/main/kotlin/DecompilerConfig.kt:6-14 | reading the lines fails only with the index error |
| Config.ParseLineRoundTrip | src/main/kotlin/DecompilerConfig.kt:10-11 | `key = value` with a space-free key and a separator-free value reads back as `(key, value)` |
| Config.ParseLineParts | src/main/kotlin/DecompilerConfig.kt:10-11 | a line that reads begins with its key, the separator and its value |
| Config.ParseOk | src/main/kotlin/DecompilerConfig.kt:9-12 | the lines read iff every line contains the separator |
| Config.ParseKeys | src/main/kotlin/DecompilerConfig.kt:9-12 | a name is a key of the map iff some line's key is that name |
| Config.ParseLast | src/main/kotlin/DecompilerConfig.kt:11 | a later line with the same key wins |
| Config.ParseSize | src/main/kotlin/DecompilerConfig.kt:9-12 | the map never has more entries than there are lines |
| Config.PrefixFails | src/main/kotlin/DecompilerConfig.kt:9-12 | once some lines fail to read, all the lines do |
| Config.DecompilerConfig.Empty | src/main/kotlin/DecompilerConfig.kt:4 | the map starts empty |
| Config.DecompilerConfig.Load | src/main/kotlin/DecompilerConfig.kt:6-14 | the line loop succeeds iff `Parse` does, then holds exactly its map |
| Config.DecompilerConfig.GetConfig | src/main/kotlin/DecompilerConfig.kt:16-18 | the stored value, or null iff no line had that key |
| Context.SimpleName | src/main/kotlin/hr/fer/decotlin/Context.kt:30 | the last `.`-separated segment holds no dot |
| Context.TargetFileName | src/main/kotlin/hr/fer/decotlin/Context.kt:30-31 | succeeds iff the last segment has at least two characters; the name is that segment with its last two characters replaced by `.kt`; a shorter segment throws |
| Context.SimpleNameQualified | src/main/kotlin/hr/fer/decotlin/Context.kt:30 | the segment of `pkg.Name` is `Name` |
| Context.SimpleNameUnqualified | src/main/kotlin/hr/fer/decotlin/Context.kt:30 | a name without a dot is its own segment |
| Context.TargetFileOfFileClass | src/main/kotlin/hr/fer/decotlin/Context.kt:29-33 | `pkg.Base` plus any two final characters (such as the file class `pkg.BaseKt`) is written to `Base.kt` |
| Context.ValuesOf | src/main/kotlin/hr/fer/decotlin/Context.kt:60 | a value is among the table's values iff some symbol maps to it |
| Context.ReplaceWhole | src/main/kotlin/hr/fer/decotlin/Context.kt:61-64 | replacing the whole matched text leaves the empty text |
| Context.Context.Init | src/main/kotlin/hr/fer/decotlin/Context.kt:7-18 | a fresh context has no class or target file and empty tables |
| Context.Context.New | src/main/kotlin/hr/fer/decotlin/Context.kt:10 | creation throws iff the configuration lacks `decompiledCFGPath`; otherwise the graph file is its value |
| Context.Context.SetClassFile | src/main/kotlin/hr/fer/decotlin/Context.kt:20-23 | the class is recorded; the target file is then derived, or the index error leaves the old one |
| Context.Context.SetTargetFile | src/main/kotlin/hr/fer/decotlin/Context.kt:29-33 | the target is the configured sources directory (or `null`) followed by the derived file name; an unset class throws |
| Context.Context.GetClassFile | src/main/kotlin/hr/fer/decotlin/Context.kt:25-27 | the class, or the uninitialised-property error when none was set |
| Context.Context.SetSymbol | src/main/kotlin/hr/fer/decotlin/Context.kt:35-37 | afterwards the symbol reads back its value, and every other symbol is unchanged |
| Context.Context.GetSymbol | src/main/kotlin/hr/fer/decotlin/Context.kt:39-41 | a value is returned iff the symbol was set |
| Context.Context.SetOutReachDef | src/main/kotlin/hr/fer/decotlin/Context.kt:43-45 | the block's out-list becomes `[d]`; other blocks and the in-map are untouched |
| Context.Context.GetOutReachDefs | src/main/kotlin/hr/fer/decotlin/Context.kt:47-49 | the block's out-list, or null iff never set |
| Context.Context.SetInReachDef | src/main/kotlin/hr/fer/decotlin/Context.kt:51-53 | the block's in-list becomes `[d]`; other blocks and the out-map are untouched |
| Context.Context.GetInReachDefs | src/main/kotlin/hr/fer/decotlin/Context.kt:55-57 | the block's in-list, or null iff never set |
| Context.Context.GetBlockForSymbolName | src/main/kotlin/hr/fer/decotlin/Context.kt:59-67 | non-null iff some symbol's value is exactly `t^`, and then the empty text |

## Left out

- Class-file parsing with BCEL (`ClassParser(...).parse()`) is left out, because it is a foreign library. `run` starts from each method's bytecode as a byte sequence plus the constant pool.
- `constantToString` is not modelled. The pool is a map from index to the display string it would return. An index missing from the map is reported as a class-format error.
- The class file itself is not modelled. `Context` records only the class's name, since that is all `setTargetFile` reads.
- File I/O is not modelled. This covers `File(...)` in `Context` (paths are kept as strings), the reading of the configuration file (its lines are a parameter), `writeText` in `UDM.run`, and `println` in `Generator.run`.
- `UDM.run` and `Generator.run` are left out as orchestration. Their only work beyond the modelled `headersOptimization` and `restructureCFG` is output. The result of `compactGraph` in `UDM.run` is unused.
- `Decompiler.kt` is not part of this model. It only wires the stages together.
- `intermediateDump` in `run` (`Parser.kt:64-65`) is left out, because it is built and never read.
- `findDominatingFeatures` is left out: it is private, never called, and its bucket/semidominator indexing is inconsistent.
- `getDomSet` and `getDFronts` are left out, because they are stubs with no effect.
- Regular expressions are modelled as the fixed recognisers the code uses, not as a regex engine:
  - `s\d+` becomes "`s` followed by digits" (a full match in `removeStackVar`, containment in `isReducible`);
  - `\)/\|` becomes the literal `)/|`;
  - `t\^` in `getBlockForSymbolName` becomes the literal text `t^`, so a `t` holding regex metacharacters is not modelled.
- Integers are unbounded. For a method of `n` bytes the slot counter stays in `0..2n` and the keys in `-n..n-1` (`Reading.MethodBounds`), and branch offsets fit 32 bits below 65536 bytes (`EmulationProofs.BranchOffsetRange`). A method's code is at most 65535 bytes, so none of these reaches Kotlin's `Int` limits. The 32-bit range is modelled only where `toInt()` reads a jump target.
- There is no concurrency in the source. DMUL, DSUB and DCMPL are purely textual, so there is no floating point to model.
- The `ConcurrentModificationException` of the "entry after every exit" loop (`Parser.kt:154-158`) is modelled by its outcome: the loop throws iff it inserts a key before its last iteration (`Parsing.EntriesAfterOk`). The iterator itself is not modelled.
- Propagation.CopyPropagation: `while (isReducible)` can loop forever when the slot assignments are cyclic. The model runs at most `fuel` rounds and reports a non-converging run as `Diverged` instead of not terminating.
- Graph.ControlFlowGraph.Find: `find` recurses without end around a left/right cycle. The model bounds the descent by the number of nodes and reports a longer one as `StackOverflow`, the error the JVM would raise. `Graph.ControlFlowGraph.FindOverflowCycles` shows that such a descent has entered a cycle.
- Parsing.PreparedReady and Parsing.PreparedCutReady: both assume that no SWAP key is left before renumbering (`NoShadowKeys`, see above) and that the first method is at most `MaxInt` bytes long. Without the first assumption the renumbered keys need not be listed in increasing order, and nothing is claimed about the cut.
- Parsing.Parser.RunFirstMethod: of `ctx.setClassFile(classFile)` (`Parser.kt:32`) it models only the outcome that matters to `run`, the index error of `Context.TargetFileName`, which comes before everything else. The context's recorded class and target file are modelled on their own, by `Context.Context.SetClassFile`.
- Udm.Frontier: `dominanceFrontier` recurses without end when the idom-child relation along successors is cyclic. The model bounds the recursion depth with `fuel` and reports an exhausted bound as `StackOverflow` (`Udm.FrontierSelfLoop` shows such a graph).
- Udm.HeadersOptimization: requires that distinct nodes hold distinct block objects, as `run` builds them; aliasing of one block between two nodes is not modelled.
- Udm.ForwardDataFlow: the transfer function is a parameter. The values the Kotlin code computes and then discards are returned so that they can be specified.
- Generator.GetLoopHeader: the header's `IntermediateCode` and the previous node are given as their statement maps and the previous node's key. The method's own callers are commented out in the source.
