# Lunar, modelled and proved in Dafny

Lunar is a Lua 5.1 runtime in Go: a one-pass compiler to register bytecode, an executor, a mark-and-sweep collector,
coroutines and a backtracking pattern matcher. This project models its hard parts and proves what they are for. Code
that changes things in place is modelled by classes, arrays and loops that are proved against specification functions;
the main results are lemmas about those functions and invariants over every run.

| part | modules | main results |
|---|---|---|
| short-circuit code generation | Machine, OpenCode, Emitter, Meaning, Lowering, Operands, Writing, Exits, Codegen, ExpressionLaws | compiled code means the expression |
| branches of a whole function | Loops | a function is accepted exactly if no branch waits |
| gotos | GotoSpec, GotoSteps, GotoLeaving, Gotos | a goto closes exactly the locals that it leaves |
| pattern matching | PatternSpec, PatternOrder, PatternLaws, PatternWriting, PatternMatcher | sound and complete, first in backtracking order, leftmost; a pattern means what it is written for |
| collector | CollectorHeap, CollectorFacts, CollectorSpec, CollectorResult, CollectorLaws, Collector | exactly the reachable stays, each finalizer once |
| upvalues | Upvalues | cells refine shared variables |
| call stack and protected calls | StackCapacity, CallStack, CallLaws, CallRuns, ThreadState, ThreadSteps, ProtectedCalls, ProtectedRuns, CallFrames | checkpoints contain every run above them, fast paths refine checked ones |
| coroutines | CoroutineSpec, Coroutines | one active thread, its resumers, native depth |
| lexer over pieces | ChunkInputs, LexerSpec, Lexers, LiteralLaws, SourceLaws, Quoting | the cuts do not matter; what is written is read back |
| binary chunks | ChunkFormat, ChunkLaws, ChunkWriters, ChunkDecoders, Chunks | loading undoes dumping; every byte has its place |
| smaller algorithms | HexNumbers, HexLaws, SortSpec, Sort, PairwiseConcat, ConcatInstruction | correct rounding, sorting, concatenation across suspensions |

How the larger results fit together:

- Compiled code is compared with a direct evaluator. Its semantics stops at jumps that still wait, so that the meaning
  of half-built code can be an invariant of the emitting methods. Everything that is not arithmetic on numbers or
  concatenation of strings and numbers is an event that an arbitrary world answers; the same events in the same order
  are part of the claim.
- What tables and constants of the source mean is said a second time, apart from the functions that the methods
  call: the modules whose names end in Laws speak of raw bytes, slots and events. They say which events a comparison
  asks, which bytes of __mode make a table weak on which side, what each escape and each byte of a chunk is, and what
  every slot holds after a call.
- The pattern matcher is compared with an ordered list of outcomes, which in turn is compared with an unordered
  derivation relation. Apart from both, PatternWriting gives expressions of single items, counts and captures a meaning
  and a spelling; the spelling is matched as the expression means.
- The collector's methods compute a function of the graph, the roots and the queue; what that function keeps is
  characterised by reachability. Predicates with the word Facts, Outcome or Swept in their name hold the definitions
  that the solver is to see only where they are named.
- A protected call is a run of operations with nested native bodies, nested protected calls and error handlers. The
  invariant ThreadDriven is kept by every step and implies that restoring never meets one of its panics. It also says
  that no native frame lies between a driver's stop depth and the frame on top, on which the fast return relies.
- The lexer keeps what it has of a token as a borrowed part of a piece or in a scratch buffer. Its methods are proved
  against functions of the whole remaining text, so tokens cannot depend on the pieces.

Sections of the language are those of the Lua 5.1 Reference Manual: 2.5.2, 2.5.3 and 2.5.4 (expressions), 2.10
(collection), 2.11 (coroutines) and 5.4.1 (patterns); for goto, section 3.3.4 of the Lua 5.2 Reference Manual; for
rounding, section 4.3.1 of IEEE 754-2008.

Two properties hold only with a condition, which is stated exactly: a dumped tree comes back equal if and only if every
function names its source and has no empty debug record (ChunkFormat.DecodedSame), and a quoted string reads back if
and only if its lines stay below the limit on lines (Quoting.LiteralReadsBack).

`dafny verify dfyconfig.toml` checks the whole project.

## Model

| member | source | states |
|---|---|---|
| `Codegen.SourceParser.CompileInto` | compiler_codegen.go:724-801 | Running the code compiled for an expression from its first instruction to the end leaves the expression's Lua value in the target register and every other register below the mark as it was, with the same events in the same order, even when the target is one of the operands; literals, locals, globals, unary, arithmetic, comparison, concatenation, not, and, or. |
| `Codegen.SourceParser.CompileCondition` | compiler_codegen.go:125-161 | The code compiled for a condition falls through exactly when the value is true and otherwise leaves through the returned jumps, and nothing below the mark changes. |
| `Codegen.SourceParser.CompileExpression` | compiler_expression.go:152-261 | A parsed expression is described by its code, kind and two exit lists so that running the code and taking the exits means the value of the expression, whichever operators it has. |
| `Codegen.SourceParser.EmitNot` | compiler_codegen.go:394-422 | Negating an expression swaps its exits, drops the values that they would have carried, inverts a comparison or folds a constant, and the result means the negation. |
| `Codegen.SourceParser.EmitBinary` | compiler_codegen.go:424-507 | Two operands compiled one after the other combine to the value of the operator, whether it is folded, a comparison with swapped operands, or a concatenation that widens the one on its right. |
| `Codegen.SourceParser.FallThroughIf` | compiler_codegen.go:165-252 | After it the code falls through on one truth value with the value discarded, and leaves on the other through the one list that is returned. |
| `Codegen.SourceParser.WriteExpression` | compiler_codegen.go:724-801 | Resolves both exit lists so that whichever way control comes the target holds the value, with Booleans loaded only if an exit needs them. |
| `ExpressionLaws.ComparisonMeaning` | compiler_codegen.go:424-507 | For operands with values x and y each of the six relations asks exactly one event: == and ~= ask whether x equals y, < and <= about x and y in this order, > and >= about y and x; ~= alone is the opposite of its answer. |
| `ExpressionLaws.ComparisonAssigned` | compiler_codegen.go:724-801 | Where numbers are ordered totally, the code compiled for a comparison of two numbers leaves the truth value of the ordinary relation in the target. |
| `ExpressionLaws.ComparisonChosen` | compiler_codegen.go:125-161 | Likewise a condition that compares two numbers falls through exactly if the ordinary relation holds. |
| `ExpressionLaws.AndMeaning` | compiler_codegen.go:125-161 | An and-expression is its left operand if that is nil, false or an error, and otherwise its right one; the right one is evaluated only then. |
| `ExpressionLaws.OrMeaning` | compiler_codegen.go:211-252 | An or-expression is its left operand if that is neither nil nor false, or is an error, and otherwise its right one. |
| `ExpressionLaws.ConcatMeaning` | compiler_codegen.go:305-349 | Strings and numbers are joined from left to right with numbers formatted; anything else is an event with both operands in order. |
| `OpenCode.Simulate` | compiler.go:670-689 | Code with pending jumps may be patched, redirected from TESTSET to TEST or extended without changing what a run does up to the jumps that still wait. |
| `Emitter.FunctionState.JoinJumps` | compiler.go:571-594 | Two disjoint lists become one, first list first, and only the last jump of the first list is rewritten. |
| `Emitter.FunctionState.PatchConditionalJumps` | compiler.go:670-689 | Visits each jump of a list once, sends it to the value target if a TESTSET controls it and to the default target otherwise, and counts it off. |
| `Loops.LoopState.EmitBreak` | compiler_loop.go:21-38 | A break is refused only outside loops or when it is too far; otherwise it is one more waiting jump in the list of the innermost loop, and no other list changes. |
| `Loops.LoopState.LeaveLoop` | compiler_loop.go:40-54 | Exactly the breaks of the loop that is left get the next instruction as their target; every other branch stays as it was. |
| `Loops.LoopState.PatchBranch` | compiler_loop.go:71-85 | A waiting loop branch gets its target and is counted off. |
| `Loops.LoopState.Finish` | compiler.go:763-802 | In every state the count of unresolved jumps is the number of branches that wait, so a function is accepted if and only if none waits, and then each branch goes to the instruction that it was told last, inside the function. |
| `PatternMatcher.MatchState.SearchFrom` | pattern.go:598-612 | A reported match is the first outcome in Lua's backtracking order at the leftmost start that has one, with its captures, and takes at every repeated item the count that its byte asks for; no match is reported only if no start in range has a derivation; and an error only for a malformed pattern or one of at least 8192 bytes. |
| `PatternMatcher.MatchState.Match` | pattern.go:167-179 | One level of recursion reports the first outcome of the ordered specification, which is the preferred matching, restores the depth, and leaves captures as they were when nothing matches. |
| `PatternMatcher.SearchDecides` | pattern.go:183-283 | At one start position the ordered list of outcomes and the derivation relation agree: the first match is derivable, and over a well-formed pattern there is none exactly when nothing is derivable. |
| `PatternOrder.Complete` | pattern.go:183-359 | A match is among the ordered outcomes if and only if the unordered relation derives it, for every pattern, position and captures. |
| `PatternOrder.WellFormedNeverFails` | pattern.go:442-473 | A well-formed pattern has no failing outcome at any position. |
| `PatternLaws.FirstIsPreferred` | pattern.go:253-283 | The first outcome in backtracking order takes at every repeated item the count that wins: with the byte * or + the largest after which the rest can be matched, with - the smallest, with ? one before none. |
| `PatternLaws.PreferredUnique` | pattern.go:253-331 | There is at most one matching whose counts win everywhere, so nothing else needs to be said about end and captures. |
| `PatternLaws.PreferredDerives` | pattern.go:183-359 | A matching whose counts win everywhere is one that the relation derives. |
| `PatternLaws.ClassMeaning` | pattern.go:518-584 | Each class letter stands for its ranges of ASCII bytes, its capital for all others, and a byte that is no letter for itself. |
| `PatternWriting.WrittenMeans` | pattern.go:183-511 | A pattern that is written for an expression of single items, sets, counts, captures, positions, balanced pairs, frontiers, repeated captures and the end is matched as the expression means: it can be derived exactly when the expression can be matched, and the preferred matching is the best one of the expression. |
| `PatternSpec.BalanceEndIsFirst` | pattern.go:402-439 | %b ends at the first place where closings have caught up with openings. |
| `Collector.State.CollectUnreachable` | collection.go:183-229 | A collection leaves the queue, the graph and the ledgers that the specification gives (CollectedTo), clears all marks and work, and is ready for the next; whatever was queued before stays queued first. |
| `CollectorResult.CollectionKeepsReachable` | collection.go:183-229 | What is registered afterwards is exactly what was registered and is reached from the roots or pending finalizers through non-weak references, and nothing kept refers to anything removed. |
| `CollectorResult.CollectionKeepsUpvalues` | collection.go:865-871 | Every closure that stays reads through its upvalues what it read before, although cells that were open on removed threads have been closed. |
| `CollectorResult.CollectionClearsWeakTables` | collection.go:629-699 | A weak table keeps exactly the entries of which both sides stay, with values that are finalized userdata gone; a strong one keeps every live entry. |
| `CollectorLaws.StayingHolds` | collection.go:572-603 | What a collection keeps is closed under holding, which is said for each kind of object without the collector's own functions: a table holds its metatable, keys that are not weak and values that are not weak of live entries, a closure its upvalues, a thread its stack and environment. |
| `CollectorLaws.StayingLeast` | collection.go:302-344 | And it is the least such set that holds the roots and what waits for its finalizer. |
| `CollectorLaws.StrongSidesStay` | collection.go:605-627 | In a table that stays, the value of a live entry stays unless the __mode string has v before its first NUL, and the key stays unless it has k. |
| `CollectorLaws.WeaklyHeldGoes` | collection.go:605-627 | An object that nothing else holds and that occurs only as a key of tables with k or as a value of tables with v does not stay. |
| `CollectorLaws.WeakByText` | collection.go:605-627 | A table is weak on a side exactly if the letter is among the bytes of the string before the first NUL, and on none if __mode is no string. |
| `CollectorLaws.QueueIs` | collection_finalizer.go:11-25 | The queue after a collection is what waited before and then, newest first, the userdata that cannot be reached and whose metatable has __gc. |
| `CollectorLaws.EntriesStay` | collection.go:629-699 | Which entries of a table that stays are left, entry by entry: those of which no weak side has gone. |
| `CollectorResult.HistoryGrows` | collection_finalizer.go:11-25 | Over any sequence of collections no userdata is queued for finalization twice, and each pass appends behind what was queued before. |
| `Collector.State.SeparateFinalizers` | collection_finalizer.go:11-25 | Appends the unreachable userdata with finalizers in reverse order of creation behind the pending ones and flags exactly those it has considered. |
| `Collector.State.NextPendingFinalizer` | collection_finalizer.go:148-168 | Userdata leaves the queue in the order in which all of it was ever queued, each once, with its __gc method. |
| `Collector.State.DrainCollectionWork` | collection.go:540-559 | Tracing stops with empty stacks and keeps the invariant that everything marked is reachable and everything marked and not stacked has been traced. |
| `Collector.State.SweepPhase` | collection.go:743-810 | Sweeping clears weak tables, removes unmarked objects from graph and ledgers in ledger order, and leaves no marks. |
| `Upvalues.UpvalueThread.CaptureUpvalue` | function.go:222-241 | The open list stays strictly descending with at most one cell per slot: capturing a slot again gives the same cell, and the cell stands for the slot's variable. |
| `Upvalues.UpvalueThread.WriteUpvalue` | function.go:247-249 | A write through any closure is an assignment to the shared variable: every closure that shares the cell and, while it is open, the slot see it. |
| `Upvalues.UpvalueThread.CloseUpvalues` | function.go:255-267 | Closes exactly the cells at or above an index; no upvalue reads anything else than before, and slots below stay shared. |
| `Upvalues.UpvalueThread.OpenSlotsDescend` | function.go:222-267 | The slots of the open list are strictly descending, which is what the thread model assumes of its open cells. |
| `Upvalues.UpvalueThread.ReserveValues` | call_frames.go:595-641 | Growing the stack, in place or by moving to a larger array, keeps every local and every variable that an upvalue reads. |
| `Upvalues.UpvalueThread.CompleteLuaReturn` | execute_calls.go:153-193 | A return closes the callee's cells before the results move down, so no upvalue reads anything else, and the caller gets the results. |
| `Upvalues.GrownVariables` | call_frames.go:629-640 | Cells that are redirected to another array with the same values stand for the same variables. |
| `StackCapacity.NewCapacity` | call_frames.go:595-641 | The array grows by half at a time to what is required or more, and never past the limit. |
| `CoroutineSpec.ActiveAndResumers` | coroutine.go:286-444 | In a consistent state the active thread is the only running one and the normal threads are exactly its chain of resumers. |
| `CoroutineSpec.SuspendedShape` | native_frame.go:752-805 | A thread suspended by a yield has no continuations, no native depth and exactly one native frame, on top. |
| `CoroutineSpec.NativeDepthIsSum` | native.go:128-240 | The runtime's native depth is the sum over its threads, in whatever order they are counted. |
| `Coroutines.Runtime.Run` | coroutine.go:286-444 | Any sequence of constructing, resuming, calling, returning, yielding and failing, in any order, keeps the state consistent and keeps a record of the calls for which an instruction waits. |
| `Coroutines.Runtime.ResumeThread` | coroutine.go:286-444 | A resume succeeds exactly if the thread is suspended and its arguments fit; then it is the active one and its resumer is normal, otherwise nothing changes. |
| `Coroutines.Runtime.YieldNative` | native_frame.go:752-805 | A yield succeeds exactly in a coroutine whose only callback is this one and none of whose frames was called by an instruction that waits, by the record of all calls so far; then the resumer is active again, otherwise nothing changes. |
| `Coroutines.Runtime.InvokeNativeCall` | native.go:128-240 | A native call begins a callback with a fresh token, one deeper, unless 200 are nested already. |
| `Coroutines.Runtime.FailNative` | native.go:128-240 | A failing callback unwinds its thread to the frames and continuations of the callback below it, or ends its coroutine. |
| `CallStack.ExtentsRise` | call_frames.go:121-144 | Saved caller extents never decrease up the stack. |
| `CallStack.PushedValid` | call_frames.go:42-67 | A call keeps the stack valid: extents rise and every slot past the live extent is empty. |
| `CallStack.ReplacedValid` | call_frames.go:228-260 | So does a tail call, which takes the place of its caller. |
| `CallStack.FinishedLuaValid` | call_frames.go:262-300 | So does the return of a Lua function, and its range checks cannot fail. |
| `CallStack.FinishedNativeValid` | call_frames.go:304-340 | So does the return of a native function. |
| `CallStack.UnwoundValid` | call_frames.go:342-373 | So does unwinding to any depth, after which no suspended instruction waits for the frame on top. |
| `CallStack.MetamethodCallValid` | execute_continuation.go:50-158 | So does staging a metamethod call for a suspended instruction. |
| `CallStack.ResumedValid` | execute_continuation.go:237-308 | So does going on with the suspended instruction. |
| `CallStack.FinishedYieldValid` | native_frame.go:789-805 | So does a yield. |
| `ThreadState.NoCellInWindow` | execute_calls.go:153-193 | No open cell lies between a call's result base and its frame base, given that every captured slot belongs to a frame's own registers. |
| `ProtectedRuns.RunKept` | protected.go:47-72 | Whatever a driver above its stop depth does - calls, tail calls, returns, metamethod calls, native calls with protected calls inside, unwinding, captures, closing - keeps the thread valid, within its limits and above the checkpoint. |
| `ProtectedRuns.CallerIsLua` | execute_calls.go:117-147 | In every state of such a run no native frame lies between the stop depth and the frame on top, so the caller of a frame more than one above the stop depth is a Lua frame. |
| `ProtectedRuns.CheckpointContains` | protected.go:205-323 | A protected call whose target returns or fails, whose error handler may itself call, protect and fail, never meets a panic of restoring or of entering or leaving the handler, and gives back the captured frames, continuations, top, extent, open cells, token, depths and handler count, with stack and frames within the limits that hold again. |
| `ProtectedRuns.HandledContained` | protected.go:148-165 | Entering an error handler raises the limits, and wherever the handler comes to a stop everything is still above the checkpoint. |
| `ProtectedRuns.LeftValid` | protected.go:167-199 | Leaving the last handler finds the live extent and the frames within the ordinary limits, never fails, and trims only room. |
| `ProtectedRuns.FirstCallValid` | native.go:128-240 | Where a run may start: a native function called by the host on a new thread is in a valid body exactly if the limits allow one value and one frame. |
| `CallLaws.PushedSlots` | call_frames.go:514-569 | Slot by slot: below the callable everything stays; register i of a Lua function is its i-th argument or nil; extra arguments of a vararg function lie below its registers in order, without its parameters; the table of them comes behind the parameters if it is wanted; every other register is nil; and what lies above the frame stays. |
| `CallLaws.ReplacedSlots` | call_frames.go:146-177 | The same for a tail call, whose callable and arguments come from where they were staged. |
| `CallLaws.FinishedLuaSlots` | call_frames.go:262-300 | Slot by slot: results are handed to the caller in order, as many as it wants, missing ones are nil, and what lies below and beside them stays; the caller has its extent and its top back. |
| `CallLaws.UnwoundSlots` | call_frames.go:342-373 | What unwinding leaves: the frames below, the continuations that wait for them, every live slot, and the top and extent of the instruction that waited for the first frame to go, or else of its caller. |
| `CallRuns.RestoredIs` | protected.go:74-116 | Restoring from any state above a checkpoint gives back its frames, continuations, top and extent. |
| `CallRuns.AboveTransitive` | protected.go:52-69 | Checkpoints nest: what is above an inner one is above the outer one. |
| `CallFrames.CallThread.PushFunctionCall` | call_frames.go:42-67 | The checked call succeeds exactly if the frame and value limits allow it, and changes nothing otherwise. Then every slot up to the end of the new frame holds what the call asks for, argument by argument and register by register, and what lies above it is as before. |
| `CallFrames.CallThread.ReplaceFunctionCall` | call_frames.go:146-177 | The checked tail call closes the cells of the frame that it replaces and starts the new one in its place, slot by slot, with the results still going where the old frame's went; or it changes nothing. |
| `CallFrames.CallThread.FinishLuaCall` | call_frames.go:262-300 | The checked return hands the results down slot by slot, pads them with nil, gives the caller its extent and top back, empties what dies and closes the callee's cells. |
| `CallFrames.CallThread.UnwindCalls` | call_frames.go:342-373 | Unwinding drops frames and continuations above a depth, closes their cells, empties their slots, and gives the instruction that waited, or else the caller, its extents back. |
| `CallFrames.CallThread.TryEnterFixedLuaCall` | execute_calls.go:3-63 | If the fast call succeeds the state is the one that the checked call produces and no limit that it tests is exceeded; if it does not, nothing has changed. |
| `CallFrames.CallThread.TryEnterFixedNativeCall` | execute_calls.go:65-116 | The same for a native function whose windows are there. |
| `CallFrames.CallThread.TryCompleteFixedLuaReturn` | execute_calls.go:117-147 | If the fast return succeeds the state is the one that the checked return produces, cells included; its caller is a Lua frame because the frame is above the driver's stop depth, which is all that it is given. |
| `CallFrames.CallThread.Restore` | protected.go:74-116 | Restoring does what the specification says to frames, continuations, values, cells, token and depths, on any state that none of its panics refuses. |
| `CallFrames.CallThread.LeaveErrorHandler` | protected.go:167-199 | Takes the limits back after the last handler and gives up the room that was only for handlers. |
| `Gotos.GotoState.Finish` | compiler.go:772-783 | A function is accepted exactly if no goto failed or still waits; then every goto jumps to the label of its name in the innermost enclosing block that has one; the first goto that still waits has no visible label. |
| `GotoSpec.ClosesExactlyLeft` | compiler_goto.go:105-141 | A resolved goto closes a local of its origin if and only if the label is outside that local's scope. |
| `GotoSpec.WatermarkDecides` | compiler_goto.go:82-98 | Comparing local watermarks decides whether the jump would enter the scope of a local, however many blocks the goto was moved out of. |
| `Gotos.GotoState.DefineLabel` | compiler_goto.go:40-80 | A label is accepted exactly if its block has none of the name and every goto that waits for it in the block may jump to it and is near enough. |
| `Gotos.GotoState.EmitGoto` | compiler_goto.go:18-38 | A goto whose own block has the label already is resolved at once; any other waits with its locals and blocks remembered. |
| `Gotos.GotoState.MoveGotosOut` | compiler_goto.go:143-175 | A goto that leaves a block unresolved finds a label of the outer block or waits there; nothing but distance can go wrong. |
| `Lexers.ReadTokens` | lexer.go:325-548 | The tokens of an input in pieces, or the tokens before a failure and the failure with its line, are those of the whole text, whatever the pieces, the polling windows and the looks ahead. |
| `Lexers.Lexer.ScanToken` | lexer.go:325-548 | One scan over pieces reads what the whole text asks for and leaves exactly the rest. |
| `Lexers.Lexer.Peek` | lexer.go:220-230 | Looking ahead shows the token that the next call takes, and changes nothing that it sees. |
| `Lexers.Lexer.ReadQuoted` | lexer_string.go:121-236 | A quoted string is decoded the same however its escapes, line breaks and plain bytes are cut. |
| `Lexers.Lexer.ReadLong` | lexer_string.go:238-345 | A long string or comment likewise, with its closing bracket, line breaks of one or two bytes and brackets that do not close. |
| `Lexers.Lexer.ReadNumber` | lexer.go:604-643 | A numeral that straddles pieces is collected and parsed as it stands in the text. |
| `LiteralLaws.ReadWritten` | lexer_string.go:121-236 | A quoted string whose bytes are written in any of their ways - as they stand, as the letters of bell, backspace, tab, newline, vertical tab, form feed and carriage return, with one to three decimal digits, behind a backslash, or as a line break behind one - is read in any pieces as one token with these bytes. |
| `LiteralLaws.StringReads` | lexer_string.go:121-236 | The same for either kind of quotes wherever the string stands in a text; the only failure is the limit on lines, and exactly then. |
| `LiteralLaws.TooLarge` | lexer_string.go:215-231 | Three digits above 255 are refused on the line where they are. |
| `SourceLaws.SourceReads` | lexer.go:325-548 | A text of names, signs, numerals and quoted strings with blanks, line breaks and comments between them is read as exactly these tokens, each with the line that it starts on, and the end. |
| `SourceLaws.ReadSource` | lexer.go:325-548 | So it is in whatever pieces it comes and wherever the reader looks ahead. |
| `Quoting.LiteralReadsBack` | library_string_format.go:547-562 | The %q literal of any string is read back as that string wherever it stands; the only failure is the limit on lines, and exactly then. |
| `Quoting.QuoteAndRead` | library_string_format.go:547-562 | Written by the formatting loop and read by the lexer in any pieces it is one string token and the end of the text. |
| `ChunkInputs.ChunkInput.ReadFull` | load.go:212-230 | The next bytes wherever the pieces are cut, or nothing if fewer are left. |
| `ChunkInputs.ChunkInput.ReadSpan` | load.go:234-279 | The same as one text, borrowed from the piece if it is all there. |
| `ChunkInputs.CutUnread` | load.go:351-395 | Cutting a text into pieces of any sizes leaves the same text to read. |
| `Chunks.DumpAndLoad` | chunk.go:37-52 | Dumping a prototype tree and loading the bytes in any pieces gives back the decoded tree if it nests at most 200 deep and is refused as too deep otherwise; dumping fails exactly if something does not fit its field. |
| `ChunkWriters.DumpPrototype` | chunk.go:37-135 | The bytes are twelve of header, written out, and then part after part of the function, its constants, its children and its debug record, nothing else; it fails exactly if something does not fit its field. |
| `ChunkLaws.PutChunkIs` | chunk.go:61-194 | Every part of a chunk is where it should be, with its type byte, its length in front and its bytes by position. |
| `ChunkLaws.WordByte` | chunk.go:226-262 | Byte i of a little-endian word is its value divided by 256 to the i, modulo 256; of a big-endian one the i-th from the end. |
| `ChunkLaws.LoweredWord` | chunk.go:444-471 | An instruction with opcode 38, 39 or 40 is written with 6, 9 or 11 and all else as it is, raw words behind SETLIST included. |
| `ChunkFormat.DecodedSame` | chunk.go:630-740 | The decoded tree is equal to the dumped one if and only if every function names its source and none has an empty debug record; an empty record reads back as none, and a missing name as the parent's. |
| `ChunkFormat.SpecialisedLowered` | chunk.go:444-509 | Specialising table instructions undoes lowering on specialised code. |
| `ChunkFormat.LoweredSpecialised` | chunk.go:444-509 | Lowering undoes specialising on chunk code, and the raw words after SETLIST are left alone. |
| `ChunkFormat.WordRoundTrip` | chunk.go:210-262 | A word that fits its width is read back in either byte order. |
| `HexNumbers.ParseLuaHexInteger` | number.go:127-192 | Accepts exactly hexadecimal digits after the prefix and returns their value rounded to 53 bits, with its sign, and infinity exactly past the double range. |
| `HexLaws.WrittenValue` | number.go:127-192 | A number written in base 16 with small or capital letters stands for itself. |
| `HexLaws.DigitMeaning` | number.go:127-192 | The digits 0 to 9, a to f and A to F stand for 0 to 15 in this order, and no other character is one. |
| `HexNumbers.RoundingError` | number.go:127-192 | The mantissa has at most 53 bits, the error is at most half a unit and a tie goes to the even mantissa. |
| `HexNumbers.NearestInteger` | number.go:127-192 | No integer with as many significant bits is nearer, and one equally near leaves the even mantissa. |
| `HexNumbers.NearestFraction` | number.go:127-192 | No fraction with as many significant bits is nearer either. |
| `HexNumbers.RoundingExact` | number.go:127-192 | Integers of at most 53 bits are exact. |
| `HexNumbers.RoundingUnique` | number.go:127-192 | The rounded result is determined by the integer. |
| `HexNumbers.OverflowBound` | number.go:127-192 | The result is infinite if and only if the integer is at least half a unit of the last place past the largest double. |
| `Sort.SortElements` | library_table.go:431-579 | With a strict weak order the elements of the range are a sorted permutation, no other element moves, and the invalid-order error is never raised. |
| `Sort.SortRange` | library_table.go:431-579 | Calls nest no deeper than the binary logarithm of the range's length. |
| `SortSpec.PermutedWhole` | library_table.go:431-579 | A range that has been permuted makes the whole sequence a permutation with the rest in place. |
| `ConcatInstruction.ConcatThread.RunConcat` | execute_string.go:68-153 | With all its suspensions the instruction makes the metamethod calls that pairs from the right make, in that order, and comes to the same end, whatever the calls return and do to the registers that they may change. |
| `PairwiseConcat.TwoOperands` | execute_string.go:68-153 | Two strings or numbers are joined from left to right; any other pair calls its metamethod with both in order, or else the error is about the left one unless that is a string or a number. |
| `PairwiseConcat.Collapse` | execute_string.go:159-218 | Joining a run of strings and numbers at once is what the pairs come to, whatever is to the left and follows, including the overflow. |
| `PairwiseConcat.ConcatDirectValues` | execute_string.go:159-218 | The joined text of a run, with numbers formatted, or an overflow exactly past the length limit; a single non-empty text is returned itself. |

## Left out

- PatternWriting.WrittenMeans: takes every byte by itself and every count, but not a byte with another meaning that stands for itself only by its place, a set that starts with a closing bracket, or class letters as bounds of a range; what those mean is said by PatternSpec.
- SourceLaws.SourceReads: separates every two tokens by a blank or a line break and does not write long brackets; Lexers.ReadTokens covers every text.
- Codegen.SourceParser.CompileInto: does not take operands that are calls, varargs, upvalues, indexed values, table constructors or function literals; the fragment is the one that its row names. The order of parsing is given by the syntax tree, number operations are uninterpreted, and a metamethod does not assign to locals of the function through a captured cell.
- PatternMatcher.SearchDecides: speaks of one start position only; PatternMatcher.MatchState.SearchFrom adds the leftmost start and the mutable matcher.
- Upvalues.GrownVariables: does not say when the stack grows, by how much or within what limit; Upvalues.UpvalueThread.ReserveValues does the copying, and StackCapacity the growth.
- Upvalues.UpvalueThread.ReserveValues: requires what the source panics without, a request within the limit, and an array that is not past it either; collector charges for the growth are not modelled.
- Coroutines.Runtime.Run: states that the coroutine state stays consistent; what consistency means is stated by ActiveAndResumers, SuspendedShape and NativeDepthIsSum.
- Loops.LoopState.Finish: is stated for any sequence of the branch operations and not for a syntax tree of statements.
- Gotos.GotoState.Finish: does not count unresolved jumps, which that of Loops does.
- Collector.State.CollectUnreachable: states its result by the predicate CollectedTo, which says the same as Outcome, where the equations are written out.
- Chunks.DumpAndLoad: takes the bytecode verifier as a predicate and the canonical form of numbers as a function; names of locals are always present; limits on loading are not modelled.
- HexNumbers.ParseLuaHexInteger: does not cover trimming, decimal numerals or the sign dispatch before it.
- ConcatInstruction.ConcatThread.RunConcat: takes the text of numbers as a parameter; the frames of the metamethod calls are in the call stack model.
- Sort.SortElements: promises nothing for comparators that are inconsistent, have side effects or raise errors.
- Lexers.ReadTokens: keywords are words like names, numerals are parsed by a parameter, and the wording of errors is left out; the lexer over a string without input behaves as one over a single piece.
- ProtectedRuns.CheckpointContains: error values, uncatchable failures, the guard against nested finalizers and the terminal bit of tokens are not modelled; calls are placed above the captured locals of their frame, which the compiler sees to; the limits are kept per thread.
- CallFrames.CallThread.TryCompleteFixedLuaReturn: registers and windows are those that the bytecode verifier accepts.
- Finalizer handlers: the call of a handler and what it may do is an arbitrary program between collections.
- Line numbers of instructions, instruction packing into words and debug ranges of locals.
- Fused test-and-jump execution, which is modelled as two instructions, and the two mirrored methods for falling through on true and on false, which are one method with a parameter.
- Memory of the collector: objects are known by number, and marks and finalized flags are sets; table hashing, byte accounting, vector slack and weak host handles are left out, tables keep their entries in a list, and registration is written out for userdata only.
- Upvalue cells are records known by number; the arrays that they point into are real arrays.
- gsub, captures as values and context polling of the pattern matcher.
- Values passed by resume and yield, limits of threads other than the native depth, contexts and panics of the host.
- Generic for loops as a suspended iterator call, the legacy arg table, which is a parameter, and memory charges of the call stack.
- Statements of the compiler other than control flow, goto scope at the end of repeat, and constant operands past the limit of constants, which is a failure like any other.
- File, process, clock and operating system libraries, library registration, argument coercion and error wording: host calls without a deep property.
