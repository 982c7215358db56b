# dynvar-sync, verified

dynvar-sync shows, inside IDA, the runtime values of Hex-Rays variables while WinDbg
debugs the program. Three processes take part: a WinDbg extension that stops the target
and reads registers and memory, a broker that relays JSON lines, and an IDA plugin that
decides statically where a variable lives and then asks for it. This project models that
system in Dafny and proves that what it calls *fresh* and *exact* is so.

The proofs come in four groups.

**Where a value lives.** `Graphs`, `Cfg` and `Traces` give control-flow graphs, executions
and the worklist search that the three queries share. On top of them,
`ReachingDefinitions`, `Liveness` and `RegisterSurvival` prove each query equal to its
all-paths meaning, up to "the number extracted from the register now is the one the
defining instruction left there". `DefinitionVerdict` and `StorageVerdict` say exactly when
a definition or a storage is accepted, in terms of executions and of what instructions can
change. `NativeEntry` says which entries of a function that covers. `StackSlot`, `StorageClaims` and `MicrocodePoint` do the same for stack slots,
overlapping claims and the current point.

**What the planners remember.** `RecoveryModel` is the local planner as functions on
values, `RecoveryRuns`, `RecoveryHistory`, `RecoveryNewest` and `RecoveryProgress` prove its
properties over every run, `RecoveryRows` says exactly what each row is after each event,
and the class in `VariableRecovery` is proved to do exactly what the model does.
`EntryArguments`, `ArgumentRows`, `EntryContexts` and `DayVarCore` do this for the argument
planner, `Selection` and `SelectionCache` for the choice of locals to analyse.

**The whole system.** `Target` says what the extension answers at one stop of the target,
`IdaNode` puts both planners together, and `ProtocolModel`, `ProtocolNode` and `Protocol`
run all three processes over FIFO links with arbitrary delays while the target moves. The
theorem `FreshIsTrue` is about every run: a fresh value was so at the stop announced under
the row's `pc_seq`, as long as no request of that context is served elsewhere where the
answer differs; `MovedTarget` is a run that breaks this condition and shows a false value.
`Attendance`, `Pursuit`, `Completion` and `Drain` are about the other direction: no request
is forgotten, every row that has to be read becomes fresh, and the traffic ends.
`StepMachine` is the step machine, and `SteppedTarget` lets it drive the protocol: there,
announcing before serving and numbering in order are proved and not assumed. `EndToEnd`
joins both halves: the fresh text of a register, stack or constant local is the number its
defining instruction left.

**Bytes on the wire.** `Framing` and `LineBuffer` prove that lines do not depend on how
bytes arrive. `JsonText` and `JsonWriter` are the escaping and the response writer,
`RequestFields` the extension's field search, `RequestLines` the lines IDA writes,
`RequestHandling` the handlers and `ResponseReading` what IDA decodes. `Wire` closes the
circle: what IDA decodes from the reply to its request line is exactly the answer that
`Target` gives to that request, failures included. `Traffic` shows that in every run of the
protocol all requests are of this kind. `Basics` holds what several modules share.

State that the source updates in place is kept in classes and arrays whose methods are
proved against functions; `dafny verify dfyconfig.toml` checks all files.

## Hypotheses

- A block without predecessors is where a function starts. The searches themselves assume
  this; `LoopHeadEntryIsMissed` and `NativeLoopHeadIsMissed` show what happens to an entry
  block that is also the head of a loop.
- Lvar indexes are distinct, and so are the names of the variables of one function; an
  enumeration lists the variables of one function.
- Both connections stay up, links are FIFO, and every `pc_update` that is sent is parsed by
  broker and IDA. (The module name is written into it unescaped, json_writer.c:36-38, so a
  name with a quotation mark would be lost there.)
- In `Protocol`, requests of the newest context are served at the announced stop or where
  the answer is the same. The theorem is one-way: `TrueElsewhereIff` is exact for an answer,
  but a row can be true although its answer is not, as when two stops differ in a register
  outside the bytes that the row shows. In `SteppedTarget` the condition is a consequence:
  there the hypotheses are that the connection stays up and the update after a step leaves
  (that of `!dvs_pc` may fail to be made, which leaves a gap in the numbers), that the
  debugger takes no command while the target runs, and that the 32-bit counter is not
  exhausted.
- In `Completion`, the pump drops no request, and where a request of the current context is
  served the target can read the registers or bytes it asks for, with all proved slots
  inside the address space. `QuietRowsAreSettled` needs only the first.
- In `StorageVerdict` and `StackSlot`, widths and write sizes are positive where a test is
  proved exact.
- In `Traffic`, PCs and registers have 64 bits, the stack arguments lie inside the address
  space, the counter is not exhausted, evidence names x64 registers, lvar indexes have 32
  bits, and argument names are printable and at most 112 characters long.
- Request ids come back as they were sent: `Wire` proves it for ids of plain characters
  within the buffer, and `EchoIsExactIff` says that plain is exactly what is needed.
- Facts from Hex-Rays, IDA and the debugger engine (instruction facts, register and stack
  writes, decoded instructions) mean what they say: an instruction changes nothing outside
  its recorded writes.

## Where the code and its promises differ

- A local is accepted at an entry block that has predecessors although the first pass
  through it has defined nothing: `LoopHeadEntryIsMissed`, exact condition in
  `EntryIsCoveredIffNotExposed`. The native walk has the same gap:
  `NativeLoopHeadIsMissed`, exact condition in `EntryIsWrittenIffNotExposed`.
- The stack scan accepts a PC in the middle of an instruction: `OvershootIsAccepted`, exact
  condition in `LandsIff`.
- A full history drops each new observation at once when `pc_seq` starts again:
  `RestartedCounterLosesNewest`, exact condition in `NewObservationKeptIff`. The counter is
  32 bits wide and wraps: `CounterWraps`, exact condition in `PcSeqIncreasesIff`.
- After a failed mapping or enumeration the argument rows of the previous context stay
  fresh: `UnmappedLeavesFresh`, exact condition over every run in `FreshIsCurrentIff`. After
  a failed enumeration the plugin also empties its view (ida_plugin/dayvar_plugin.py:448),
  so the user sees these rows only after a failed mapping.
- After a register answer that reports a failure the stack arguments of an entry keep
  waiting with nothing pending: `FailureLeavesStackArguments`. The extension does not send
  such answers.
- After a move by a native debugger command a false value can be shown as fresh:
  `UnannouncedMoveShowsFalse`; `TrueElsewhereIff` says when an answer is true elsewhere.
- A request id with a character that JSON escapes comes back changed, so its response is
  not matched: `EchoIsExactIff` and, on the request line, `IdIsEchoed`.
- "Not live" is not reported when the search region has a loop, even if no path reaches a
  use; it is then "liveness unproven": `IdleLoopIsUnproven`, exact condition in
  `NotLiveIffNoUse`.

## Model

| member | source | states |
|---|---|---|
| Graphs.GraphHasCycle | ida_plugin/v_variable_recovery.py:1140-1159 | answers true if and only if the graph has a cycle, self-loops included |
| Graphs.RankedGraphIsAcyclic | ida_plugin/v_variable_recovery.py:1154-1159 | an order in which all edges ascend (removal order) rules out every cycle |
| Graphs.ResidueHasCycle | ida_plugin/v_variable_recovery.py:1147-1159 | a non-empty residue in which each node has a live source contains a cycle, by a pigeonhole walk |
| Cfg.ValidateReciprocity | ida_plugin/v_variable_recovery.py:1889-1908 | succeeds if and only if every edge exists in both directions and leads to a block |
| Cfg.ReciprocalExecution | ida_plugin/v_variable_recovery.py:1889-1908 | on a reciprocal graph the executions read off successors and off predecessors are the same |
| Cfg.Explore | ida_plugin/v_variable_recovery.py:961-1015 | unless its budget ends it, the search visits exactly the states the query can inspect and its edge record has a cycle if and only if they do; at most one state per block plus the first; only a budget of at most the number of blocks can end it |
| Cfg.VisitedBound | ida_plugin/v_variable_recovery.py:961-965 | any set of search states has at most one state per block plus the first, so the default budget never ends a search |
| Traces.BackwardTrace | ida_plugin/v_variable_recovery.py:968-1015 | every execution into the point is followed backwards by inspected states up to the last instruction that stops the search |
| Traces.ForwardTrace | ida_plugin/v_variable_recovery.py:1048-1098 | every execution out of the point that meets no stop is followed forwards by inspected states |
| ReachingDefinitions.FindReachingDefinitions | ida_plugin/v_variable_recovery.py:948-1030 | the result records exactly what the inspected states contribute; at most blocks+1 states; only an explicit budget can end it, and then as many states as it allows were inspected |
| ReachingDefinitions.SiteReportedIffItReaches | ida_plugin/v_variable_recovery.py:968-1015 | a site is reported if and only if some execution carries its whole definition to the point through code free of definitions |
| ReachingDefinitions.ReportedSitesReach | ida_plugin/v_variable_recovery.py:966-1000 | even a search that the budget ends reports only definitions that do reach |
| DefinitionVerdict.AcceptedIffDefinedAlone | ida_plugin/v_variable_recovery.py:1116-1129 | a complete answer is accepted if and only if one site's whole definition arrives and no other, no partial definition arrives, no execution enters and arrives undefined, and none can go round without a definition |
| Traces.LoopsIffRevolves | ida_plugin/v_variable_recovery.py:1017-1030 | the search record has a cycle if and only if executions into the point can go round without a stop |
| ReachingDefinitions.AcceptedIsLastDefinition | ida_plugin/v_variable_recovery.py:1116-1129 | after acceptance, an execution that defines the variable at all has the one reported site as its last definition |
| ReachingDefinitions.EveryEntryPathIsDefined | ida_plugin/v_variable_recovery.py:948-1030 | after acceptance, every forward execution from a block without predecessors has that site as its last definition |
| ReachingDefinitions.AcceptedValueIsTheDefinedOne | ida_plugin/v_variable_recovery.py:948-1030 | after acceptance the variable holds what the reported site stored when it was executed last, as only defining instructions change it |
| ReachingDefinitions.EntryIsCoveredIffNotExposed | ida_plugin/v_variable_recovery.py:1001-1015 | an accepted answer covers all executions from an entry block if and only if no inspected state passes that block to its top |
| ReachingDefinitions.LoopHeadEntryIsMissed | ida_plugin/v_variable_recovery.py:1003-1006 | a two-block program whose entry is a loop head is accepted although an execution arrives undefined |
| ReachingDefinitions.AcceptedWalksAreShort | ida_plugin/v_variable_recovery.py:1017-1030 | after acceptance every definition-free backward walk has at most blocks+1 states |
| Liveness.FindFutureUses | ida_plugin/v_variable_recovery.py:1033-1113 | the result records exactly the uses, hidden uses, breaks and loops of the inspected states; at most blocks+1 states; only an explicit budget can end it, and then as many states as it allows were inspected |
| Liveness.AcceptedIffLive | ida_plugin/v_variable_recovery.py:1132-1137 | accepted if and only if some forward execution reaches a use with a known EA before any redefinition |
| Liveness.AcceptedIsLive | ida_plugin/v_variable_recovery.py:1041-1098 | acceptance is right even when the budget ends the search |
| Liveness.NotLiveIffNoUse | ida_plugin/v_variable_recovery.py:1132-1137 | "not live" if and only if no forward execution reaches any use first and the region has no loop |
| Bits.ExtractIsWindow | ida_plugin/v_variable_recovery.py:144-152 | bit i of the extracted number is bit offset + i of the register if i lies within the width, and there are no others |
| Values.LittleEndianBits | ida_plugin/v_variable_recovery.py:155-165 | bit 8k + i of the decoded number is bit i of byte k, and there are no others |
| Values.TextHasTheBits | ida_plugin/v_variable_recovery.py:144-152 | the shown text determines every bit of the storage it is shown for |
| Bits.ExtractDependsOnWindow | ida_plugin/v_variable_recovery.py:144-152 | the shifted and masked number depends on the bits of its window alone |
| RegisterSurvival.ValidateRegisterStorage | ida_plugin/v_variable_recovery.py:1162-1298 | valid if and only if both EAs are unique points and everything the backward walk can inspect ends at the covering definition; "clobbered" only if the walk meets a disturbing instruction |
| StorageVerdict.DisturbsIffItCanChange | ida_plugin/v_variable_recovery.py:1238-1250 | the walk objects to an instruction if and only if some execution of it changes the number that is shown |
| StorageVerdict.SurvivesIff | ida_plugin/v_variable_recovery.py:1162-1298 | a storage is found intact if and only if both EAs are single points, one write of the definition holds every bit, an execution of it arrives, and on every execution that arrives the last instruction that can change the number is the definition, with no way in or round without it |
| RegisterSurvival.EveryArrival | ida_plugin/v_variable_recovery.py:1198-1298 | after a valid verdict each execution into the PC has the definition as its last relevant step, or never executes it and does not start at a block without predecessors |
| RegisterSurvival.RegisterValueIsTheDefinedOne | ida_plugin/v_variable_recovery.py:1162-1298 | on each execution that enters at a block without predecessors or executes the definition, the number extracted now equals the one right after the definition, whatever is written elsewhere |
| RegisterSurvival.UndisturbedStep | ida_plugin/v_variable_recovery.py:848-862 | an instruction whose writes do not overlap the storage leaves the extracted number unchanged |
| MicrocodePoint.FindExactPoint | ida_plugin/v_variable_recovery.py:1911-1931 | a point is returned if and only if all microinstructions of the EA form one contiguous run in one block; it is the first of them |
| StackSlot.StackDefinitionRemainsValid | ida_plugin/v_variable_recovery.py:2179-2216 | succeeds if and only if, within the cap, the decode chain passes the current EA, its first write covers the slot and no later one touches it |
| StackSlot.AcceptsIff | ida_plugin/v_variable_recovery.py:2179-2216 | the scan succeeds if and only if, within 4096 instructions, the chain passes the current EA, one write of the first instruction holds every byte, and the slot survives every execution of the others |
| StackSlot.SurvivesIffUntouched | ida_plugin/v_variable_recovery.py:2197-2215 | the slot survives in every execution of the chain if and only if no later instruction may touch it |
| StackSlot.AcceptedSlotIsTheDefinedOne | ida_plugin/v_variable_recovery.py:2179-2216 | if the scan accepts and the chain lands on the PC, every byte of the slot is the one the first covering write stored |
| StackSlot.LandsIff | ida_plugin/v_variable_recovery.py:2192-2194 | an accepted scan ends at the PC if and only if the decode chain has a boundary there |
| StackSlot.OvershootIsAccepted | ida_plugin/v_variable_recovery.py:2193-2194 | a two-instruction program for which a PC inside an instruction is accepted |
| StorageClaims.RejectDuplicateClaims | ida_plugin/v_variable_recovery.py:2575-2610 | a claim is replaced if and only if it overlapped another of its kind, with the reason of its kind; all others and the order are untouched |
| StorageClaims.ClashIsSharing | ida_plugin/v_variable_recovery.py:2584-2608 | for positive widths the interval test is exactly sharing a register bit, or a stack byte for any `rsp` |
| StorageClaims.SurvivorsAreDisjoint | ida_plugin/v_variable_recovery.py:2575-2610 | a surviving claim shares no bit, and for every `rsp` no address, with any other claim |
| StorageClaims.SurvivorsAreIndependent | ida_plugin/v_variable_recovery.py:2575-2610 | changing any bits of the other claims does not change the number a surviving register claim shows |
| RecoveryHistory.PruneSpec | ida_plugin/v_variable_recovery.py:732-741 | pruning keeps exactly the allowed number of entries, all of them old ones |
| RecoveryHistory.PruneOrder | ida_plugin/v_variable_recovery.py:736-741 | each dropped entry precedes each kept one by `pc_seq` and, for ties, by insertion |
| RecoveryHistory.NewObservationKeptIff | ida_plugin/v_variable_recovery.py:719-741 | a new observation is kept if and only if its key exists, there is room, or some entry has no larger `pc_seq` |
| RecoveryHistory.NewestSurvives | ida_plugin/v_variable_recovery.py:719-741 | with no larger `pc_seq` in the history the newest observation is kept |
| RecoveryHistory.RestartedCounterLosesNewest | ida_plugin/v_variable_recovery.py:732-741 | a full history drops an observation whose `pc_seq` is below all others |
| RecoveryRuns.RunIsGood | ida_plugin/v_variable_recovery.py:310-577 | after every run all pending entries carry the current `pc_seq` and `runtime_pc` under their own id, rows are current and the history is within its bound |
| RecoveryRuns.HistoryWasFresh | ida_plugin/v_variable_recovery.py:704-730 | whatever the history holds was shown fresh by some state of the run |
| RecoveryRuns.StaleWasFresh | ida_plugin/v_variable_recovery.py:628-702 | a value shown stale was shown fresh earlier in the run for the same function, index, name, width, type and defining EA |
| RecoveryNewest.HistoryNotAhead | ida_plugin/v_variable_recovery.py:612-626 | if contexts are numbered in order, nothing in the history is newer than the current context |
| RecoveryNewest.StepRecords | ida_plugin/v_variable_recovery.py:704-741 | every event records exactly the observations it marks as fresh, in order, and prunes after each |
| RecoveryNewest.NewestSurvivesInRun | ida_plugin/v_variable_recovery.py:704-741 | in every run with contexts numbered in order, the observation that an event marks last, be it a new context, a register or a memory response, is in the history after the event |
| RecoveryNewest.EveryFreshRowIsRecorded | ida_plugin/v_variable_recovery.py:704-741 | with a new number for every planned context and room for its locals, after every run each fresh row's observation is in the history |
| RecoveryRows.RowsOfContext | ida_plugin/v_variable_recovery.py:350-409 | in a new context each local shows its proved constant, else as stale what the history then holds for the same variable, else nothing |
| RecoveryRows.RowsRepeatTheHistory | ida_plugin/v_variable_recovery.py:628-702 | with room for the locals, a row without a current value is stale if and only if the history holds a value for the same function, index, name, width, type and defining EA |
| RecoveryRows.ContextAsksFor | ida_plugin/v_variable_recovery.py:377-436 | registers are asked for if and only if some local of an exact width has a proved slot or a register at least as wide, and then exactly those needed, for exactly those locals |
| RecoveryRows.RegisterAnswerOutcome | ida_plugin/v_variable_recovery.py:453-541 | a row that waited shows the window of its register, or has exactly its slot asked for, or failed and has no value; all other rows are as before |
| RecoveryRows.MemoryAnswerOutcome | ida_plugin/v_variable_recovery.py:543-577 | the one row shows the bytes if they are as many as asked for, or failed and has no value; all other rows and requests are as before |
| RecoveryRows.AcceptedIff | ida_plugin/v_variable_recovery.py:762-785 | a response is accepted if and only if it names the current number, no other PC, a pending id of its kind and, for memory, no other address or size; otherwise nothing changes |
| RecoveryRuns.AcceptedAtMostOnce | ida_plugin/v_variable_recovery.py:762-785 | within a context a request id is accepted at most once, whatever responses come in between |
| RecoveryProgress.BeginAsks | ida_plugin/v_variable_recovery.py:350-436 | a register request is issued if and only if some row waits, and its registers cover every waiting row |
| RecoveryProgress.NoWaitingRowIsLost | ida_plugin/v_variable_recovery.py:453-577 | a number for each requested register and exact memory answers in any order make every waiting row fresh and empty the table |
| VariableRecovery.VVariableRecovery.BeginPc | ida_plugin/v_variable_recovery.py:310-436 | the mutable planner opens a context exactly as the model does |
| VariableRecovery.VVariableRecovery.ApplyRegResponse | ida_plugin/v_variable_recovery.py:453-541 | the mutable planner applies a register response as the model does; a rejected one changes nothing |
| VariableRecovery.VVariableRecovery.ApplyMemResponse | ida_plugin/v_variable_recovery.py:543-577 | the same for memory responses, including the pop-then-restore on a mismatch |
| VariableRecovery.VVariableRecovery.TakePending | ida_plugin/v_variable_recovery.py:762-785 | a request is taken only by a response of the current context, id and kind; otherwise nothing changes |
| VariableRecovery.VVariableRecovery.PruneHistory | ida_plugin/v_variable_recovery.py:732-741 | the loop drops the oldest entries as `Prune` does |
| Values.HexPairsRoundTrip | ida_plugin/v_variable_recovery.py:155-165 | the hex payload of a memory response decodes to the bytes it was made from |
| Values.MemIdsDiffer | ida_plugin/v_variable_recovery.py:510-541 | memory ids of one context coincide only for the same index |
| Values.IdKindsDiffer | ida_plugin/v_variable_recovery.py:307-309 | register and memory ids never coincide and only the local planner's carry the prefix |
| ArgumentRows.EntryAsksFor | ida_plugin/dynvar_core.py:159-271 | registers are asked for if and only if the context is an entry and the function has an argument: rcx, rdx, r8 and r9 for the first four, rsp for the others |
| ArgumentRows.RebuiltRowIs | ida_plugin/dynvar_core.py:196-219 | away from the entry an argument is stale with the value read for it before if and only if there is one; all other rows start empty |
| ArgumentRows.RegisterAnswerOutcome | ida_plugin/dynvar_core.py:273-381 | a register argument is fresh if its register was given as a number, and otherwise fresh or failed; a stack argument has exactly its slot asked for, or failed if rsp was not given |
| ArgumentRows.MemoryAnswerOutcome | ida_plugin/dynvar_core.py:309-330 | the named rows are fresh, or failed if the answer says so; no other row changes |
| ArgumentRows.AcceptedIff | ida_plugin/dynvar_core.py:383-415 | a response is accepted if and only if it names the current number, no other PC and a pending id of its kind; otherwise nothing changes |
| ArgumentRows.FailureLeavesStackArguments | ida_plugin/dynvar_core.py:279-286 | after a register answer that reports a failure stack arguments stay unavailable and nothing is pending for them |
| EntryArguments.RunOnlyAtEntry | ida_plugin/dynvar_core.py:159-381 | after every run a pending request implies an exact-entry context with the same `pc_seq` and `runtime_pc` |
| EntryArguments.FreshOnlyAtEntry | ida_plugin/dynvar_core.py:273-330 | a step makes a row fresh only at an exact entry of the row's own function |
| EntryArguments.ValuesComeFromEntries | ida_plugin/dynvar_core.py:159-330 | after every run, whatever value a row holds was shown fresh for the same name while the context was an exact entry of the same function |
| EntryContexts.FreshIsCurrentIff | ida_plugin/dynvar_core.py:115-132 | after every run, what is fresh was read since the last update if and only if nothing is fresh or the last update rebuilt the rows |
| EntryContexts.StartIsHarmlessIff | ida_plugin/dayvar_plugin.py:392-396 | an update without an enumeration keeps fresh rows true to their label if and only if there are none |
| EntryContexts.UnmappedLeavesFresh | ida_plugin/dayvar_plugin.py:385-413 | a run of an entry, its answer and a failed mapping that ends with a fresh row of the earlier context, even at the same PC |
| DayVarCoreClass.DayVarCore.BuildEntryPlan | ida_plugin/dynvar_core.py:159-271 | the mutable planner rebuilds rows and asks for entry registers as the model does |
| DayVarCoreClass.DayVarCore.ApplyRegResponse | ida_plugin/dynvar_core.py:273-307 | the mutable planner applies a register response as the model does |
| DayVarCoreClass.DayVarCore.ApplyMemResponse | ida_plugin/dynvar_core.py:309-330 | the same for memory responses |
| IdaNode.RoutingIsComplete | ida_plugin/dayvar_plugin.py:532-582 | after any runs, the planner that routing by prefix passes over would have rejected the response unchanged |
| Selection.Select | ida_plugin/dayvar_plugin.py:103-161 | exactly min(budget, locals) locals are picked, no pick leaves out a local of a better tier, and with everything visible the rotation picks every place it passes |
| Selection.BetterTiersFirst | ida_plugin/dayvar_plugin.py:103-161 | no watched local is left out for another, no recent one for one that is neither, and no matching one for one of the last tier |
| Selection.PicksUpToTheLimit | ida_plugin/dayvar_plugin.py:103-133 | as many locals are picked as there are, up to the limit, and none if it is not positive |
| Selection.AddRotating | ida_plugin/dayvar_plugin.py:135-148 | every place passed from the cursor on is picked, the cursor stops behind them, and it passes at least as many as the budget had free |
| SelectionCache.AnalysisSelectionCache.SelectFor | ida_plugin/dayvar_plugin.py:178-212 | a repeated question gets the stored answer; a new one moves the cursor of its function and no other |
| SelectionCache.HitIsTheSameQuestion | ida_plugin/dayvar_plugin.py:178-212 | a stored answer is used if and only if number, function, PC, filter, watch list and variables are the same |
| SelectionCache.EveryLocalIsPicked | ida_plugin/dayvar_plugin.py:103-212 | over any run of the cache, with everything visible and at most k priority rows, every local is picked within ceil(N/(budget-k)) uncached selections of its function |
| Target.AnswerIsTruthful | windbg_ext/dayvar.c:340-498 | what the extension answers is so at the stop where it answers |
| TrueLocals.RegisterResponseTrue | ida_plugin/v_variable_recovery.py:453-541 | a truthful register answer leaves only rows that are true at the stop and memory requests for the right addresses |
| TrueLocals.MemoryResponseTrue | ida_plugin/v_variable_recovery.py:543-577 | a truthful memory answer shows the bytes of the slot its row is proved to occupy |
| TrueArguments.RegisterResponseTrue | ida_plugin/dynvar_core.py:273-381 | a truthful register answer fills true argument rows and asks for the right stack slots |
| TrueArguments.MemoryResponseTrue | ida_plugin/dynvar_core.py:309-330 | a truthful memory answer fills the argument's own stack slot |
| Protocol.StepIsSafe | broker/dayvar_broker.py:183-218 | every action of the three processes keeps the system invariant, if what is served agrees with the announced stop |
| Protocol.FreshIsTrue | windbg_ext/dayvar.c:541-601 | in every run that serves the newest context only where the answer is that of the announced stop, each fresh local carries the current `pc_seq` and the announced PC and shows its storage there; each fresh argument shows, at the announced entry of its own function, the register or slot that the Windows x64 convention gives its place |
| Pursuit.PendingIsPursued | ida_plugin/dayvar_plugin.py:532-582 | after every run each pending entry of either planner has its very request on the way to WinDbg or its answer on the way back, or that request was dropped by the pump |
| Pursuit.AnswerIsStep | ida_plugin/dayvar_plugin.py:532-582 | handling an answer makes the node wait for nothing but the requests it issues, which follow the register answer they belong to, and ends its wait for what was answered |
| Completion.NothingIsLost | ida_plugin/dayvar_plugin.py:380-582 | in every run that drops nothing and in which the target can read what the context of the moment asks for, once the traffic after an update is over every selected local with a proved register or slot is fresh, and so is every argument at an entry; and true, if the run agrees with its announcements |
| Completion.QuietRowsAreSettled | ida_plugin/dayvar_plugin.py:532-582 | in every run that drops nothing, once the traffic is over each such row is fresh or failed, whatever could be read |
| Drain.TrafficShrinks | broker/dayvar_broker.py:183-218 | every relay, answer, drop and delivery, in any order, leaves fewer hops to do |
| Drain.TrafficEnds | broker/dayvar_broker.py:183-218 | from every state that a run reaches, some relays, answers and deliveries empty all links |
| Protocol.TrueElsewhereIff | windbg_ext/dayvar.c:795-809 | an answer read at one stop is true of another if and only if both agree on what was asked |
| Protocol.AtAnnouncedStopAgrees | windbg_ext/dayvar.c:541-601 | while the target is where it was last announced, serving always meets the hypothesis |
| MovedTarget.UnannouncedMoveShowsFalse | windbg_ext/dayvar.c:795-809 | a run in which the target moves before a request is served ends with a fresh row that is false of the announced stop |
| SteppedTarget.HappeningInStep | windbg_ext/dayvar.c:541-669 | each command, notification, relay and delivery keeps machine and protocol in step: the target is announced whenever it is served, and the counter is one ahead of the numbers drawn |
| SteppedTarget.SteppedFreshIsTrue | windbg_ext/dayvar.c:541-669 | in every run driven by the step machine on a connection that stays up, with gaps where an update could not be made, fresh values are true and the next update carries the number of its announcement |
| EndToEnd.FreshRegisterIsTheDefinedOne | ida_plugin/v_variable_recovery.py:1162-1298 | a fresh register local whose evidence passed the native walk shows the number whose bits are those the sub-register held right after its defining instruction, on every execution that ends at the announced stop and entered at a block without predecessors or executed the definition |
| EndToEnd.FreshConstantIsTheDefinedOne | ida_plugin/v_variable_recovery.py:1724-1749 | a fresh constant local whose query was accepted with a site that stores the constant shows the value the variable holds at the queried point, which that site stored last, on every execution that entered at a block without predecessors or defined the variable |
| EndToEnd.FreshSlotIsTheDefinedOne | ida_plugin/v_variable_recovery.py:2179-2216 | a fresh stack local whose slot passed the scan shows the number whose bits are those of the bytes its defining instruction stored, lowest byte first |
| StepModel.RunKeeps | windbg_ext/dayvar.c:603-669 | every sequence of commands, notifications and failures keeps the step invariant |
| StepModel.PendingIsInProgress | windbg_ext/dayvar.c:101-121 | between events pending, in progress and holding exactly one client reference coincide |
| StepModel.StepsAreConserved | windbg_ext/dayvar.c:603-669 | between events initiated + remaining = count and sent + 1 = initiated |
| StepModel.CompletedIsExact | windbg_ext/dayvar.c:662-669 | a sequence that completes initiated and announced exactly count steps, 1 to 1000 |
| StepModel.EveryStepHasTheMode | windbg_ext/dayvar.c:603-628 | each step is initiated in the mode that the newest sequence was accepted with, and no more than were asked for |
| StepModel.StepStartsIff | windbg_ext/dayvar.c:811-864 | the command starts a sequence if and only if the mode is p or t of either case, the count 1 to 1000, the connection up, no sequence under way and the engine willing; its first step has that mode |
| StepModel.SequenceCompletes | windbg_ext/dayvar.c:630-669 | when nothing fails, a sequence of n steps reports completion after n steps have ended, all n initiated |
| StepModel.SessionEndsSequence | windbg_ext/dayvar.c:101-121 | disconnecting, unloading and the end of the session end the sequence and give the reference back |
| StepModel.FailureEndsSequence | windbg_ext/dayvar.c:630-669 | a status, update or step that fails ends the sequence, and an update that cannot be sent also the connection |
| StepModel.PumpFollowsUpdate | windbg_ext/dayvar.c:541-601 | the pump runs only right behind an update that was sent, apart from `!dvs_poll` |
| StepModel.PcSeqIncreasesIff | windbg_ext/dayvar.c:85-88 | of two updates less than a counter period apart the later has the larger `pc_seq` if and only if the counter did not wrap between them |
| StepModel.PcSeqIncreases | windbg_ext/dayvar.c:85-88 | while fewer than 2^32 numbers were drawn, updates carry strictly increasing numbers |
| StepMachine.Extension.HandlePostStepAccessible | windbg_ext/dayvar.c:630-669 | the globals change exactly as the model's post-step notification |
| StepMachine.Extension.DvsStep | windbg_ext/dayvar.c:811-864 | the command starts a sequence if and only if its arguments, the connection, the idle machine and the engine allow it, and changes the globals as the model does |
| StepMachine.Extension.Handle | windbg_ext/dayvar.c:682-864 | every command and notification is one step of the model |
| Framing.SplitOfJoined | broker/dayvar_broker.py:70-79 | frames without newlines are recovered exactly from their stream |
| Framing.JoinedOfSplit | broker/dayvar_broker.py:70-79 | lines and rest together are the stream: no byte is lost |
| Framing.SplitAppend | broker/dayvar_broker.py:70-79 | splitting more bytes continues where the rest stopped |
| PythonFraming.Drain | ida_plugin/protocol_client.py:136-147 | the loop hands on exactly the non-blank lines of the buffer and returns its rest |
| PythonFraming.ReceiveAll | broker/dayvar_broker.py:67-79 | however a stream is cut into chunks, the lines and the rest are those of the whole stream |
| LineBuffer.SocketClient.TryPopLine | windbg_ext/socket_client.c:147-176 | the in-place scan, copy and shift pop the first line without its carriage return, or report that there is none or that it is too long |
| LineBuffer.SocketClient.SocketReceiveLine | windbg_ext/socket_client.c:178-244 | one call is one step of the receiver model |
| LineBufferModel.LinesArriveIntact | windbg_ext/socket_client.c:147-244 | if all lines are short, no call ever fails, lines come in order without loss, and in the end they are all of them |
| LineBufferModel.FailsIffNotShort | windbg_ext/socket_client.c:147-244 | once a stream is drained, a call has failed if and only if some line is too long for the line buffer or the unfinished one is longer than the receive buffer |
| LineBufferModel.CallMakesProgress | windbg_ext/socket_client.c:178-244 | each call at which bytes arrive makes what is left smaller, so every stream is drained |
| JsonText.QuotedRoundTrip | windbg_ext/json_writer.c:73-138 | an escaped string is read back under section 7 of RFC 8259, wherever it stands |
| JsonText.EchoIsExactIff | windbg_ext/dayvar.c:198-241 | what the extension echoes for an id written by `json.dumps` is the id if and only if all of its characters are printable ASCII other than quotation mark and backslash |
| JsonText.FixedHexRoundTrip | windbg_ext/json_writer.c:172-185 | the sixteen hex digits of a register value read back to it |
| JsonWriter.Append | windbg_ext/json_writer.c:52-71 | a piece is written if and only if it fits with its terminating zero, behind what is there |
| JsonWriter.AppendEscaped | windbg_ext/json_writer.c:73-138 | succeeds if and only if the quoted string fits, and then appends exactly it |
| JsonWriter.WriteRegResponse | windbg_ext/json_writer.c:140-191 | succeeds if and only if the whole response fits, and then the buffer holds exactly it |
| JsonWriter.WriteMemResponse | windbg_ext/json_writer.c:193-239 | the same for memory responses |
| ResponseSize.RegResponseFits | windbg_ext/json_writer.c:140-191 | a register response within the request limits is shorter than 4096 bytes and is one newline-terminated line |
| ResponseSize.MemResponseFits | windbg_ext/json_writer.c:193-239 | a memory response within the request limits is shorter than 12288 bytes and is one newline-terminated line |
| JsonWriter.WriteMemErrorResponse | windbg_ext/json_writer.c:241-277 | succeeds if and only if the whole error response fits, and then the buffer holds exactly it |
| ResponseSize.MemErrorFits | windbg_ext/dayvar.c:385-413 | an error response with at most 42 characters of code and message, as both fixed ones have, fits its 2048-byte buffer and is one line |
| RequestFields.AfterIsFirst | windbg_ext/dayvar.c:212-217 | the search finds the text behind the first place where the pattern stands, and none if it stands nowhere |
| RequestFields.StringFieldIff | windbg_ext/dayvar.c:198-241 | a value is found if and only if behind the first place of the quoted name come text without a colon, a colon, white space and the quoted value, and it fits the buffer |
| RequestFields.ExtractStringField | windbg_ext/dayvar.c:198-241 | the search loops return exactly the value that `StringFieldIff` describes, or none |
| RequestFields.ExtractUnsignedField | windbg_ext/dayvar.c:243-265 | the decimal number behind the first quoted name and its colon, if there is one, as an unsigned 32-bit conversion with an optional sign gives it |
| RequestFields.ParseRegisterList | windbg_ext/dayvar.c:285-338 | the exact list of lower-cased names up to the closing bracket, or none if a name is empty, too long, unterminated or one too many |
| RequestLines.EntryIsFound | windbg_ext/dayvar.c:198-241 | on a line of entries the search stops at the entry with the key, when no earlier key or value can be mistaken for it |
| RequestLines.IdIsEchoed | ida_plugin/protocol_client.py:20-22 | on the line IDA writes, whatever the id, the extension takes its echo for it, if that fits |
| RequestLines.RegRequestIsRead | ida_plugin/v_variable_recovery.py:427-436 | from the line of a register request with a plain id the extension reads its type, number, id, PC and exactly the listed registers |
| RequestLines.MemRequestIsRead | ida_plugin/v_variable_recovery.py:521-536 | from the line of a memory request with a plain id the extension reads its type, number, id, PC, address and size |
| RequestHandling.HandleRegRequest | windbg_ext/dayvar.c:340-383 | an answer is sent if and only if all fields are found and registers can be accessed; it is one line below 4096 bytes with one entry for each listed register, in order, exactly if it can be read |
| RequestHandling.HandleMemRequest | windbg_ext/dayvar.c:415-498 | ignored if and only if a field is missing or the report of a failed read is too long; else answered with the bytes, or with the error of an invalid address, an invalid size or a failed read |
| RequestHandling.RegisterListIsShort | windbg_ext/dayvar.c:285-338 | a register list in one line has at most 32 names of at most 15 characters |
| ResponseReading.RegResponseReadsBack | windbg_ext/json_writer.c:140-191 | a register response decodes to its number, id, PC and exactly the registers that were read with their values |
| ResponseReading.MemResponseReadsBack | windbg_ext/json_writer.c:193-239 | a memory response decodes to its number, id, PC, address, size and bytes |
| ResponseReading.MemErrorReadsBack | windbg_ext/json_writer.c:241-277 | an error response decodes to a failure with its number, id, PC, address and size |
| Wire.RegAnswerTravels | windbg_ext/dayvar.c:340-383 | the reply to the line of a register request decodes to exactly the target's answer to that request |
| Wire.MemAnswerTravels | windbg_ext/dayvar.c:415-498 | the reply to the line of a memory request decodes to exactly the target's answer to that request: the bytes, or the failure of a refused size or an unreadable range |
| Wire.ArgMemIdPasses | ida_plugin/dynvar_core.py:354-372 | the id of a stack argument travels unchanged if its name is plain and at most 112 characters long |
| Traffic.SortedIsListing | ida_plugin/v_variable_recovery.py:807-809 | the sorted list of the needed registers names each of them once and no other |
| Traffic.FittingTravels | windbg_ext/dayvar.c:340-498 | a request with x64 registers, or with a 64-bit address and a supported width, travels at every 64-bit stop, whatever the order of its registers and the message numbers |
| Traffic.StepFits | ida_plugin/dayvar_plugin.py:380-582 | every action of the protocol keeps all requests in transit, and all that pending tables can still lead to, within what the extension reads |
| Traffic.EveryRequestTravels | windbg_ext/dayvar.c:340-498 | in every run on a 64-bit target, whatever request of either planner is on its way, its line is read as written and the reply decodes to the message with which the target answers |
| NativeEntry.EntryIsWrittenIffNotExposed | ida_plugin/v_variable_recovery.py:1250-1269 | a valid register verdict covers the executions from an entry block if and only if no inspected state passes that block to its top |
| NativeEntry.NativeLoopHeadIsMissed | ida_plugin/v_variable_recovery.py:1257-1260 | a two-block function whose entry is a loop head is found valid although an execution arrives without the definition |
| Liveness.IdleLoopIsUnproven | ida_plugin/v_variable_recovery.py:1132-1137 | a loop without a use is reported as unproven although no path reaches a use |
| StepWrap.CounterWraps | windbg_ext/dayvar.c:85-88 | a run of 2^32 updates in which a later one carries a smaller number |

## Left out

- All calls into IDA, Hex-Rays and the debugger engine (microcode collection, register and stack writes, decoding, module lookup): foreign; their results are parameters with a stated meaning.
- Sockets, threads, timers, user interface, logging and diagnostic lines: input and output only. Arrival of bytes and failures of the environment are parameters of the models.
- The display texts of rows (reason, confidence, storage, source EA) and the diagnostic counts of the searches (redefinition paths, crossed blocks, visited block lists): they decide nothing.
- Argument detection from prototypes and printed locations, address mapping, the live view: heuristics or easy members.
- Session registration and envelope validation in the broker: the relay is FIFO delivery by message type.
- Reconnects within a context and a failed post-step update: outside the hypotheses of the protocol theorems.
- Rotation fairness for filters other than All: the cursor is first reduced by the length of the visible list, so the bound does not carry over.
- The size of the report of a failed read and the shape of `pc_update`: their texts are not bounded or not escaped by the source.
- Entry of further notifications while one is being handled: the debugger engine serialises them.
- The order of registers within a request: a set here; no reader depends on it.
- Values.FromHex: does not accept the white space and the upper-case digits that `bytes.fromhex` also takes, because the extension never sends them.
- Values.HexValue: reads texts with a `0x` prefix only, the one form both sides write.
- Selection.Select: takes the sorted index lists and the filter's outcome as given, since sorting and dictionary building are library calls.
- ResponseReading.DecodeReg: decodes the one layout the extension writes and is no general JSON reader.
- JsonText.ReadString: does not decode surrogate escapes, because the writer never produces them.
