# Verified models of CinderX components

Five parts of the CinderX repository, modelled in Dafny 4.11 with machine-checked proofs of what
they are meant to guarantee. `dafny verify dfyconfig.toml` checks everything.

1. **AsyncLazyValue** (`cinderx/async_lazy_value.cpp`). A value moves between NOT_STARTED, RUNNING
   and DONE, driven by interleaved `await`, `ensure_future` and `send`/`throw`/`close` on compute
   objects. `LazyValueProtocol` is the transition system with its invariant, `LazyValueTheorems`
   the guarantees over whole runs, `LazyValue` the objects updating their fields in place, each
   method proved to take exactly one protocol step. `ExcStack` is the discipline of
   `tstate->exc_info` around nested sends.
2. **The bytecode support checker** (`ci_pipeline/check_bytecode_support_311.py`). `Preprocessor`
   (the conditional-inclusion stack machine), `SourceLines` (lines and directives),
   `ConditionalText` (what is selected, said of text alone), `CppScanner` (masking, brace matching,
   case labels), `OpcodeAudit` (the validators), `CacheWalk` (what accepted cache widths mean for
   every instruction stream) and `SupportGate` (the whole checker).
3. **Module state** (`cinderx/_cinderx-lib.cpp`, `cinderx/module_state.cpp`). `ModuleLifecycle`
   and `BuiltinMembers`.
4. **The differential judge** (`ci_pipeline/libtest_diff_311.py` and its two report consumers).
   `Resolver`, `SymmetricDiff` and `Deviations`.
5. **Release tags** (`ci_pipeline/build_with_tag/gitcode_webhook.py`). `ReleaseTag`.

`Basics` and `Text` hold shared helpers.

## Environment rules of the AsyncLazyValue protocol

`LazyValueProtocol.Enabled` writes out what the code relies on: a compute is not driven while it is
being driven, after it finished or after `close()`; `loop.create_task` is atomic and returns a task
that has not taken a step; `throw` gets an exception it can raise; callbacks of futures do not run
inside a notification; `__init__` runs once. Every call into user code (the wrapped callable, a
coroutine's send, throw or close) is split into a `Begin` and a `Resume` action, so any other action
may happen in between. A notification may fail at any position, and the future at that position may
or may not have been completed, because asyncio's setters store the outcome before they schedule
callbacks. `classified = false` is a failing lookup of, or instance test against, CancelledError.
A `Clean` run moreover lets every compute take its first step before a throw or close, drops none
unfinished, and has only successful notifications.

## Where a promise holds only conditionally

- A value stays RUNNING for ever with nobody computing it exactly in the runs where a compute was
  closed or thrown into before its first step, was dropped unfinished, or ended in an error that
  could not be delivered (`RunningWithoutComputeIff`, `AbandonedForEver`; `AbandonedRun` is such a
  run). Its waiters, and those of a flight whose result notification failed (`LostWaiterRun`), stay
  pending exactly until somebody else completes them (`WaitsForEver`).
- `tstate->exc_info` is restored by every send, close and throw. The list it heads is intact afterwards exactly when
  no send that happened inside was to a compute whose item was on that list (`Invoke`); one push of an
  item that is already on the list makes it a cycle (`Push`).
- Freeing a fully initialized module always finalizes the JIT and resets the pointer, also when
  another module owns it by then. `TwoMainModules` is such a run; `CleanupExactly` says when the
  cleanup is the owner's own, and `OnlyOwnerCleansUp` that it always is with one main module at a
  time.
- Cache widths of an accepted list agree with the interpreter on every stream. After rewriting
  opcodes to their bases they still agree on every stream exactly when no base takes its own width
  from a further base (`RewritingKeepsStepIff`); flat families are enough, and
  `NestedFamilyIsAccepted` is an accepted list where it fails.
- The penetration comparer does not enforce a fingerprint registered on a module summary when a
  case of that module is registered too (`UnfitSummaryPasses`), and enforces all others
  (`FingerprintsEnforcedIff`; `FingerprintsEnforcedUntaggedIff` for ordinary case ids).
- A release tag and its text determine each other for ASCII texts only: the pattern takes digits of
  other scripts behind a first ASCII digit (`PrintParsedTag`, `SecondText`). The previous release is
  unique all the same.
- The independence of the module resolver from the order of requests needs no distinctness of
  normalised names, and emptiness of the symmetric differences needs no condition on case ids; the
  exact contents under a key and independence of the visiting order do (`ModuleRecorded`,
  `CaseRecorded`, `DiagnosticRecorded`, `OrderDoesNotMatter`).

## Model

| member | source | states |
|---|---|---|
| `LazyValueProtocol.StepKeepsInv` | cinderx/async_lazy_value.cpp:448-1318 | every action the environment rules allow keeps the invariant tying the state to the newest compute, the futures list to the pending waiters, each future's completion to what its flight announced, and every delivered value to the result |
| `LazyValueProtocol.RunsKeepInv` | cinderx/async_lazy_value.cpp:448-1318 | every state reachable by any interleaving satisfies that invariant |
| `LazyValueProtocol.NewFutureKeepsInv` | cinderx/async_lazy_value.cpp:574-614 | a waiter arriving while RUNNING, with any allocation failure, leaves the invariant intact |
| `LazyValueProtocol.FinishKeepsInv` | cinderx/async_lazy_value.cpp:486-498 | publishing a result keeps the invariant even if notifying fails at any position |
| `LazyValueProtocol.FailKeepsInv` | cinderx/async_lazy_value.cpp:500-522 | delivering an error keeps the invariant, whether classification or notification fails or not |
| `LazyValueTheorems.SingleFlight` | cinderx/async_lazy_value.cpp:616-625 | in every run at most one compute is unfinished and then the value is RUNNING; all earlier ones ended in a delivered error; a compute called the callable once if it took a first step and never otherwise |
| `LazyValueTheorems.FirstStepFindsArgs` | cinderx/async_lazy_value.cpp:961-982 | at the first step of a compute the arguments are still present, it has not called before, and every other flight ended in a delivered error |
| `LazyValueTheorems.RunExtends` | cinderx/async_lazy_value.cpp:448-1318 | extending a run never leaves DONE, changes the result, reopens an ended compute, changes a completed future or forgets a call or delivery |
| `LazyValueTheorems.Agreement` | cinderx/async_lazy_value.cpp:486-498 | every value handed out at any time by compute return, throw ending in StopIteration, fan-out, ensure_future when DONE or send to the value is the one result of every later state, and DONE is never left |
| `LazyValueTheorems.FanOutAtMostOnce` | cinderx/async_lazy_value.cpp:448-476 | over any run the value completes a future at most once, a completed future never changes, and all futures of a flight completed by the value carry that flight's one outcome |
| `LazyValueTheorems.CompletionHasACause` | cinderx/async_lazy_value.cpp:448-476 | a completed future was completed by the value or by an explicit completion of somebody else in the run |
| `LazyValueTheorems.FaultStopsNotification` | cinderx/async_lazy_value.cpp:448-522 | in any run, when a flight ends and notifying fails at position i, earlier listed waiters got the flight's outcome, later ones are untouched, the i-th is completed only if its setter stored the outcome, and the list is kept; a result stays published with the arguments kept, an error leaves the value RUNNING with its newest compute stuck |
| `LazyValueTheorems.FlightEndReachesEveryWaiter` | cinderx/async_lazy_value.cpp:486-522 | in any run a successfully notified end of a flight (a value returned by send or throw, None without a throw method, an error raised, thrown or caused by closing) gives every future ever handed out and still pending exactly that outcome, a cancellation for CancelledError, and touches no other; then the value is DONE with its arguments released, or computable again with them |
| `LazyValueTheorems.StuckIffAbandoned` | cinderx/async_lazy_value.cpp:1180-1197 | the newest compute has ended without the value being told exactly in runs with an abandoning action |
| `LazyValueTheorems.RunningWithoutComputeIff` | cinderx/async_lazy_value.cpp:1164-1306 | the value is RUNNING with no unfinished compute if and only if some compute was closed or thrown into unstarted, dropped, or its error could not be delivered |
| `LazyValueTheorems.AbandonedForEver` | cinderx/async_lazy_value.cpp:616-642 | after such an action no continuation creates a compute, calls the callable or produces a result |
| `LazyValueTheorems.NoLostWaiter` | cinderx/async_lazy_value.cpp:448-522 | in every clean run, when no compute is unfinished the value is not RUNNING and no future ever handed out is pending; NOT_STARTED has no list; DONE has only done futures listed and released its arguments |
| `LazyValueTheorems.DeliveredExactlyOnce` | cinderx/async_lazy_value.cpp:448-522 | in a clean run with no unfinished compute every future was completed by the value exactly once, or by somebody else |
| `LazyValueTheorems.PendingOnlyAfterFault` | cinderx/async_lazy_value.cpp:486-522 | in any run a future pending without an unfinished compute is a listed waiter of the newest flight, and some action of the run abandoned a compute or failed to notify a result |
| `LazyValueTheorems.LostIffNotificationFailed` | cinderx/async_lazy_value.cpp:486-498 | the newest compute has returned with its waiters not all told exactly in runs with an action whose result notification failed |
| `LazyValueTheorems.CleanIff` | cinderx/async_lazy_value.cpp:448-522 | a run is clean, as a condition on its actions, if and only if its newest compute is unfinished, returned, or failed with its error delivered |
| `LazyValueTheorems.SettledForEver` | cinderx/async_lazy_value.cpp:616-642 | once every compute has ended and the value is RUNNING or DONE, no continuation creates a compute, calls the callable, changes state or result, or completes a future that was pending or joins a RUNNING value |
| `LazyValueTheorems.WaitsForEver` | cinderx/async_lazy_value.cpp:448-522 | in every continuation such a future stays pending exactly until somebody other than the value completes it |
| `LazyValueTheorems.AbandonedWaitersWait` | cinderx/async_lazy_value.cpp:1180-1184 | that holds for all waiters of an abandoned flight and all that join later |
| `LazyValueTheorems.AbandonedRun` | cinderx/async_lazy_value.cpp:1180-1184 | two awaits and a close before the first step leave the value RUNNING, nobody computing and the waiter pending |
| `LazyValueTheorems.LostWaiterRun` | cinderx/async_lazy_value.cpp:486-498 | a run without abandonment whose failing notification leaves the value DONE and the waiter pending |
| `LazyValueTheorems.FaultBeyondList` | cinderx/async_lazy_value.cpp:448-476 | a failure past the end of the list of waiters never happens: the step is the one without a failure |
| `LazyValueTheorems.SuspendedCanBeDriven` | cinderx/async_lazy_value.cpp:1062-1306 | in every run a compute whose coroutine yielded last can be driven in every way; a send may be answered by a yield, a value or an error and by nothing else, close and throw(GeneratorExit) only by a closed coroutine or an error, any other throw by a yield, a value, an error or a missing throw method |
| `LazyValueTheorems.DriveEndsFlight` | cinderx/async_lazy_value.cpp:1062-1306 | where such a drive ends the flight, a value is published, returned and given to every waiter, and an error (raised, thrown to close the coroutine, or the GeneratorExit of close) is given to every waiter and the value can be computed again |
| `LazyValueTheorems.UnstartedCanBeDriven` | cinderx/async_lazy_value.cpp:961-982 | the first send calls the callable, which is ready or raises, and goes on into the coroutine when it is ready; close and throw end an unstarted compute and leave the value as it is |
| `LazyValueTheorems.YieldSuspends` | cinderx/async_lazy_value.cpp:1094-1097 | after a yield the compute is suspended again and nothing has changed for the value and its waiters |
| `LazyValueTheorems.MayBeDropped` | cinderx/async_lazy_value.cpp:937-943 | a new or suspended compute may be dropped; the value is not told and the compute is not driven again |
| `LazyValueTheorems.AwaitAndEnsureFuture` | cinderx/async_lazy_value.cpp:616-750 | in every run await and ensure_future start a compute if there is none, add a pending waiter to the list if there is one, and when DONE give the value itself and a future that holds the result |
| `LazyValueTheorems.SendToValueDelivers` | cinderx/async_lazy_value.cpp:806-824 | in every run a send to the value delivers the result once there is one and nothing before |
| `LazyValue.NotifyFutures` | cinderx/async_lazy_value.cpp:448-476 | the loop completes exactly the pending futures before the fault (and the one at it, if it landed) with the same outcome, and succeeds if no fault lies within the list |
| `LazyValue.AsyncLazyValue.constructor` | cinderx/async_lazy_value.cpp:542-557 | a new value is the initial state of the protocol |
| `LazyValue.AsyncLazyValue.SetResult` | cinderx/async_lazy_value.cpp:486-498 | DONE and the result are stored before notifying; the arguments are released only if all waiters were told; every future is as the fan-out makes it |
| `LazyValue.AsyncLazyValue.SetError` | cinderx/async_lazy_value.cpp:500-522 | only a completely delivered error drops the list and returns to NOT_STARTED; waiters get the exception, or a cancellation for CancelledError |
| `LazyValue.AsyncLazyValue.NewFuture` | cinderx/async_lazy_value.cpp:574-614 | takes the protocol's step for a new waiter under each allocation outcome and returns a fresh pending future, the last one issued |
| `LazyValue.AsyncLazyValue.NewComputeObj` | cinderx/async_lazy_value.cpp:524-540 | a fresh compute is registered and the value is RUNNING |
| `LazyValue.AsyncLazyValue.Await` | cinderx/async_lazy_value.cpp:616-642 | takes exactly the protocol's await step and returns the new compute, a new waiter or the value itself according to the state |
| `LazyValue.AsyncLazyValue.EnsureFuture` | cinderx/async_lazy_value.cpp:710-750 | takes exactly the protocol's ensure_future step; when DONE the future returned is finished with the result |
| `LazyValue.AsyncLazyValue.IterSend` | cinderx/async_lazy_value.cpp:806-824 | takes the protocol step of a send to the value, returns the result once DONE and fails before |
| `LazyValue.Compute.Clear` | cinderx/async_lazy_value.cpp:928-935 | target and coroutine are forgotten, the value and its other objects stay in order |
| `LazyValue.Compute.HandleError` | cinderx/async_lazy_value.cpp:995-1045 | the error is delivered as the protocol's failing step says; it is raised again as asked, and an undeliverable one is raised unless closing may swallow it |
| `LazyValue.Compute.BeginSend` | cinderx/async_lazy_value.cpp:1062-1081 | the first send enters the callable, a later one the coroutine, as one protocol step |
| `LazyValue.Compute.CallReturned` | cinderx/async_lazy_value.cpp:961-982 | takes the protocol step for what the callable did |
| `LazyValue.Compute.SendReturned` | cinderx/async_lazy_value.cpp:1062-1100 | takes the protocol step for what the coroutine did; the value is returned only if publishing succeeded; a finished compute forgets its target |
| `LazyValue.Compute.BeginClose` | cinderx/async_lazy_value.cpp:1180-1184 | closing an unstarted compute is quiet and does not touch the value |
| `LazyValue.Compute.CloseReturned` | cinderx/async_lazy_value.cpp:1180-1207 | takes the protocol step for the closed sub-iterator; the target is kept on a quiet end and dropped when an error is raised |
| `LazyValue.Compute.BeginThrow` | cinderx/async_lazy_value.cpp:1266-1274 | throwing into an unstarted compute raises, forgets the target and does not touch the value |
| `LazyValue.Compute.ThrowCloseReturned` | cinderx/async_lazy_value.cpp:1164-1178 | throwing GeneratorExit closes the sub-iterator, delivers the thrown or the closing error and raises |
| `LazyValue.Compute.ThrowReturned` | cinderx/async_lazy_value.cpp:1266-1306 | takes the protocol step for what throw did; an iterator without a throw method ends the compute with None |
| `LazyValue.Compute.Dealloc` | cinderx/async_lazy_value.cpp:937-943 | dropping an unfinished compute does not tell the value |
| `ExcStack.Drive` | cinderx/async_lazy_value.cpp:995-1131 | the code's pushes and pops around the coroutine and around the delivery of its error, in send, close and throw, let all user code see the exception it should, restore exc_info, and leave every pushed item pointing to the old top, another pushed item or one made on the C stack |
| `ExcStack.DeliverError` | cinderx/async_lazy_value.cpp:995-1020 | code run while the waiters are told of an error sees that error, and exc_info is restored |
| `ExcStack.Invoke` | cinderx/async_lazy_value.cpp:995-1318 | for every nesting of send, close and throw, re-entrant or not, including error handling that pushes a second item, code inside sees the exception of the compute it runs in, code run to deliver an error sees that error, and exc_info is on exit what it was on entry; the list it heads is intact if and only if no send that happened was to a compute whose item was on it |
| `ExcStack.InvokeAll` | cinderx/async_lazy_value.cpp:1062-1318 | the same for any sequence of calls made by user code |
| `ExcStack.Push` | cinderx/async_lazy_value.cpp:1105-1115 | the list stays a list if and only if the pushed item is not on it; otherwise it is a cycle no chain describes |
| `ExcStack.CycleHasNoChain` | cinderx/async_lazy_value.cpp:1105-1131 | an item reachable from itself starts no terminating list |
| `ExcStack.RelinkedBreaks` | cinderx/async_lazy_value.cpp:1105-1115 | if items of a list were pushed again, the deepest of them no longer points to its successor, so the list is lost |
| `Preprocessor.PreprocessLines` | ci_pipeline/check_bytecode_support_311.py:110-157 | the loop with its stack computes the machine's run over the lines and fails exactly when that fails or a conditional stays open |
| `Preprocessor.RunTree` | ci_pipeline/check_bytecode_support_311.py:110-157 | from any machine state, running over a printed tree of conditionals emits its first-true-group selection if active, nothing otherwise, and leaves the stack as it was; it fails if a condition, even of a skipped group, has no value |
| `Preprocessor.RunAlts` | ci_pipeline/check_bytecode_support_311.py:134-149 | from the first alternative to the endif at most one more group is selected, and only if none was taken; what follows an else is inactive |
| `Preprocessor.PreprocessPrinted` | ci_pipeline/check_bytecode_support_311.py:110-157 | on the printing of a tree the preprocessor returns its selection or fails if some condition has no value |
| `Preprocessor.ParsePrint` | ci_pipeline/check_bytecode_support_311.py:110-157 | recursive descent inverts printing, so a line list has at most one tree |
| `Preprocessor.UnparsedIsRejected` | ci_pipeline/check_bytecode_support_311.py:128-155 | lines that are no tree make the machine fail or end with an open conditional |
| `Preprocessor.AcceptsExactlyTrees` | ci_pipeline/check_bytecode_support_311.py:110-157 | the preprocessor succeeds if and only if the lines are the printing of a tree all of whose conditions have values, and then returns that one tree's selection |
| `Preprocessor.Idempotent` | ci_pipeline/check_bytecode_support_311.py:120-157 | lines selected once are selected again unchanged under any evaluator; `SourceLines.SelectedTwice` says it of texts |
| `SourceLines.SplitKeeps` | ci_pipeline/check_bytecode_support_311.py:119 | splitting a text into lines loses nothing, and every line but the last has its terminator |
| `SourceLines.SplitOfJoin` | ci_pipeline/check_bytecode_support_311.py:119-157 | joined lines are split again into themselves, but for a lone carriage return that fuses with a line feed behind it |
| `SourceLines.ClassifyExactly` | ci_pipeline/check_bytecode_support_311.py:120-127 | a line is a directive exactly when the pattern matches it under some division, and any match names the same keyword |
| `SourceLines.PreprocessText` | ci_pipeline/check_bytecode_support_311.py:110-157 | from text to text the method computes the selection that the tree semantics is about |
| `SourceLines.SelectedTwice` | ci_pipeline/check_bytecode_support_311.py:110-157 | preprocessing the preprocessed text again gives the same text, under any evaluator |
| `ConditionalText.ConditionalSelects` | ci_pipeline/check_bytecode_support_311.py:110-157 | from text to text: of a conditional opened by if, ifdef or ifndef with elif and else groups, each a properly nested text, the first group whose condition holds is selected; if a condition has no value, needed or not, it is an error; ifdef asks whether the name is PY_VERSION_HEX |
| `ConditionalText.IfElseSelects` | ci_pipeline/check_bytecode_support_311.py:110-157 | the text of an if with two groups selects the first if the condition is true, the second if it is false |
| `ConditionalText.SelectedOfTwo` | ci_pipeline/check_bytecode_support_311.py:110-157 | two texts one after the other select what they select by themselves |
| `ConditionalText.PlainSelectsItself` | ci_pipeline/check_bytecode_support_311.py:119-124 | a text in which no line is matched by the directive pattern is selected as it is |
| `CppScanner.LineEndsFirst` | ci_pipeline/check_bytecode_support_311.py:53-63 | a line comment extends to the first line break or the end |
| `CppScanner.CommentEndsFirst` | ci_pipeline/check_bytecode_support_311.py:53-63 | a block comment ends with the first closing mark and has no end if there is none |
| `CppScanner.QuoteEndsFirst` | ci_pipeline/check_bytecode_support_311.py:53-63 | a literal ends at the first unescaped quote and has no end if there is none |
| `CppScanner.MaskKeepsOffsets` | ci_pipeline/check_bytecode_support_311.py:53-63 | masking keeps the length, changes characters only to blanks, and keeps newlines exactly where they are |
| `CppScanner.MaskSplits` | ci_pipeline/check_bytecode_support_311.py:53-63 | cut where no token reaches across, the two parts are masked independently |
| `CppScanner.KeptIsBoundary` | ci_pipeline/check_bytecode_support_311.py:53-63 | no token reaches across a character that survived masking |
| `CppScanner.TokenIsMasked` | ci_pipeline/check_bytecode_support_311.py:53-63 | a line comment up to the line break, a block comment up to its first closing mark, or a literal up to its first unescaped quote is blanked whole, if no other reaches across its start, and none reaches across its end |
| `CppScanner.OrdinaryIsKept` | ci_pipeline/check_bytecode_support_311.py:53-63 | a character at which none of these starts is kept, and the next one is a start |
| `CppScanner.FoundIsToken` | ci_pipeline/check_bytecode_support_311.py:53-63 | what the scanner takes for a comment or literal is one |
| `CppScanner.MaskOfBody` | ci_pipeline/check_bytecode_support_311.py:66-87 | masking the text between two unmasked braces equals slicing the masked whole, so masking a body again is sound |
| `CppScanner.BracePairIsUnique` | ci_pipeline/check_bytecode_support_311.py:66-79 | the first opening brace and its closing brace are unique |
| `CppScanner.ClosesByCounting` | ci_pipeline/check_bytecode_support_311.py:66-79 | the closing brace is where as many braces were closed as opened since the opening one, with fewer closed at every place between |
| `CppScanner.FindClose` | ci_pipeline/check_bytecode_support_311.py:66-79 | counting finds the position where the depth first returns to zero, or there is none |
| `CppScanner.FindBracedBody` | ci_pipeline/check_bytecode_support_311.py:66-79 | returns the text between the uniquely matching braces outside comments and literals, and an error exactly when there are none |
| `CppScanner.FunctionBody` | ci_pipeline/check_bytecode_support_311.py:82-87 | returns the braced body after the first unmasked occurrence of the signature, or an error exactly when that does not exist |
| `CppScanner.CaseAtExactly` | ci_pipeline/check_bytecode_support_311.py:177 | for any class of word characters, the label scanner finds a label exactly where the pattern matches under some division of the text, and that division is the only one |
| `CppScanner.LabelIsPlain` | ci_pipeline/check_bytecode_support_311.py:175-188 | a label holds no brace and no further label begins in it, which is why skipping over it loses nothing |
| `CppScanner.NextLabel` | ci_pipeline/check_bytecode_support_311.py:175-188 | the incremental brace count is the depth of the whole prefix, and no label is passed over |
| `CppScanner.CollectCases` | ci_pipeline/check_bytecode_support_311.py:175-188 | the collected set is exactly the names of labels at brace depth zero |
| `CppScanner.TopLevelCasesAre` | ci_pipeline/check_bytecode_support_311.py:175-188 | a name is collected if and only if it is the name of a label before which as many braces were closed as opened |
| `CppScanner.OneStartIff` | ci_pipeline/check_bytecode_support_311.py:166-171 | the switch is found once if and only if its pattern matches at one place and neither before it nor behind that match |
| `CppScanner.SwitchCases` | ci_pipeline/check_bytecode_support_311.py:160-188 | returns the depth-zero labels within the matching braces of the one opcode switch, and an error exactly when there is not one switch or its braces do not match |
| `CppScanner.OpcodeSwitchCases` | ci_pipeline/check_bytecode_support_311.py:160-188 | the same for the lines selected by the preprocessor |
| `OpcodeAudit.CheckRow` | ci_pipeline/check_bytecode_support_311.py:458-502 | the checks on one row report an issue if and only if the row has it |
| `OpcodeAudit.CheckRows` | ci_pipeline/check_bytecode_support_311.py:439-504 | the loops report exactly the missing rows, unknown rows and issues of rows |
| `OpcodeAudit.CheckFrontendRow` | ci_pipeline/check_bytecode_support_311.py:217-306 | the front-end checks on one row report an issue if and only if it has it |
| `OpcodeAudit.ValidateReasonRegistry` | ci_pipeline/check_bytecode_support_311.py:386-436 | exactly the registry's issues are reported: categories, names, descriptions, overlap, unused reasons |
| `OpcodeAudit.RegistryIssuesAre` | ci_pipeline/check_bytecode_support_311.py:389-403 | what is said of a category: both must be there, no other may, and each must be a table with entries |
| `OpcodeAudit.MisplacedExactly` | ci_pipeline/check_bytecode_support_311.py:420-434 | an opcode reason overlaps or is unused exactly if both categories allow the comparison and it is a shape reason too, or no refusal row names it |
| `OpcodeAudit.NamespacesAre` | ci_pipeline/check_bytecode_support_311.py:404-416 | the two namespaces of reasons by their prefixes; they have no name in common |
| `OpcodeAudit.RowIssuesAre` | ci_pipeline/check_bytecode_support_311.py:458-502 | what is said of a row with a known state, one issue at a time, on its fields |
| `OpcodeAudit.FrontIssuesAre` | ci_pipeline/check_bytecode_support_311.py:248-306 | what is said of a row and the front end, one issue at a time |
| `OpcodeAudit.InterpreterWidthIs` | ci_pipeline/check_bytecode_support_311.py:469-470 | a variant has the width of its base's last slot, if there is one, and any other opcode that of its own |
| `OpcodeAudit.Validate` | ci_pipeline/check_bytecode_support_311.py:439-504 | exactly the issues of the registry and of the rows are reported |
| `OpcodeAudit.ValidateFrontend` | ci_pipeline/check_bytecode_support_311.py:217-306 | exactly the front-end issues are reported, including unreadable sources and failing decoder probes |
| `OpcodeAudit.AcceptanceIsSound` | ci_pipeline/check_bytecode_support_311.py:439-504 | with no errors every defined opcode is either translated (after an idempotent normalisation to a defined opcode it is supported and dispatched, or is EXTENDED_ARG) or refused (in neither set, with a registered reason and a reason case), never both |
| `OpcodeAudit.AcceptedIff` | ci_pipeline/check_bytecode_support_311.py:9-23 | no errors if and only if there is one lawful row per defined opcode (slot, width, target and reason as its state demands), the two reason tables are well named, described, disjoint and used, and among the rows exactly the translate rows are supported and, but for EXTENDED_ARG, dispatched; the checks on normalize targets follow |
| `OpcodeAudit.SupportedAreTranslateRows` | ci_pipeline/check_bytecode_support_311.py:217-306 | with no errors the supported set restricted to defined opcodes is the set of translate rows, and rows are exactly the defined opcodes |
| `CacheWalk.RowWalkIsInterpreterWalk` | ci_pipeline/check_bytecode_support_311.py:469-475 | on every code stream, walking by accepted row widths visits the interpreter's own instruction offsets |
| `CacheWalk.WidthsNeverDesynchronise` | ci_pipeline/check_bytecode_support_311.py:9-16 | with flat families, row widths, base-opcode widths and row widths after normalising every opcode visit the same offsets on every stream |
| `CacheWalk.RewritingKeepsStepIff` | ci_pipeline/check_bytecode_support_311.py:469-492 | normalising keeps the offsets on every stream if and only if no target's width is taken from a further base |
| `CacheWalk.UnstableBaseShows` | ci_pipeline/check_bytecode_support_311.py:469-492 | one such target is enough for some stream to be walked differently |
| `CacheWalk.NestedFamilyIsAccepted` | ci_pipeline/check_bytecode_support_311.py:469-492 | a concrete list, interpreter, registry and front end that are accepted although a base is itself a variant of another width, with a stream that falls out of step |
| `SupportGate.FunctionCases` | ci_pipeline/check_bytecode_support_311.py:160-214 | from source text to case labels: body, selected lines, one switch, depth-zero labels, or an error exactly when one of them does not exist |
| `SupportGate.FunctionCasesUnique` | ci_pipeline/check_bytecode_support_311.py:160-214 | the source text determines the label set |
| `SupportGate.FrontendSets` | ci_pipeline/check_bytecode_support_311.py:207-214 | succeeds if and only if the builder source has all three label sets, and returns them |
| `SupportGate.RunChecker` | ci_pipeline/check_bytecode_support_311.py:507-533 | the exit code is 0 if and only if the builder source has its three label sets, every decoder probe holds, and list, interpreter tables, registry and front end are accepted together |
| `ModuleLifecycle.SingletonSafety` | cinderx/_cinderx-lib.cpp:780-833 | in every interleaving of exec, failing anywhere, and free over main and subinterpreter modules the pointer is null or a constructed, undestroyed state, and each state is constructed and destroyed at most once, destroyed only after construction |
| `ModuleLifecycle.OwnsIffNotSuperseded` | cinderx/module_state.cpp:128-158 | a published, unfreed module owns the pointer if and only if since then no other was published and no fully initialized one was freed |
| `ModuleLifecycle.CleanupExactly` | cinderx/_cinderx-lib.cpp:780-833 | what freeing does globally: nothing for a state that never published or lost the pointer before completing, everything for a complete one, and that is the owner's cleanup if and only if it was not superseded |
| `ModuleLifecycle.OnlyOwnerCleansUp` | cinderx/_cinderx-lib.cpp:780-833 | with at most one main-interpreter module alive at a time every global cleanup was run by the owner of the pointer |
| `ModuleLifecycle.TwoMainModules` | cinderx/_cinderx-lib.cpp:780-833 | a run with two main modules where freeing the first finalizes under the second and leaves it ready but unreachable |
| `ModuleLifecycle.Process.ExecBegin` | cinderx/_cinderx-lib.cpp:1235-1276 | constructs the state, skips subinterpreters, refuses a wrong version, publishes otherwise, as the machine's steps do |
| `ModuleLifecycle.Process.ExecEnd` | cinderx/_cinderx-lib.cpp:1571-1614 | marks the state fully initialized or leaves it partial, as the machine's step does |
| `ModuleLifecycle.Process.ModuleFree` | cinderx/_cinderx-lib.cpp:780-833 | finalizes, resets and destroys as the machine's free step does |
| `BuiltinMembers.Flatten` | cinderx/module_state.cpp:77-107 | the flattened dictionary answers every name as lookup along the method resolution order does |
| `BuiltinMembers.InitBuiltinMembers` | cinderx/module_state.cpp:57-108 | exactly the types with a method resolution order get a snapshot, and each agrees with lookup on every name |
| `BuiltinMembers.LookupFirst` | cinderx/module_state.cpp:77-107 | that lookup gives the value of the first base defining the name |
| `BuiltinMembers.LookupKeys` | cinderx/module_state.cpp:77-107 | its keys are exactly the union of the bases' keys |
| `BuiltinMembers.DictGetExactly` | cinderx/module_state.cpp:77-107 | a dictionary's value of a name is that of its entry for the name |
| `Resolver.ModuleResolver.Resolve` | ci_pipeline/libtest_diff_311.py:352-393 | over every call sequence the memoised answer is the uncached one |
| `Resolver.ModuleResolver.Search` | ci_pipeline/libtest_diff_311.py:365-391 | the three loops give the specified answer: a requested prefix, then an alias target, then the first part named like a test, then the class name itself or "unknown" |
| `Resolver.SortRequestsSorted` | ci_pipeline/libtest_diff_311.py:352-363 | requests are tried longest first, ties in the order of pairs |
| `Resolver.LongestPrefixFirst` | ci_pipeline/libtest_diff_311.py:352-393 | if some requested name covers the class at a dotted boundary, the first such in the order is the answer before any alias; otherwise none covers it |
| `Resolver.FallbackInOrder` | ci_pipeline/libtest_diff_311.py:377-391 | with no requested name covering the class, the first covering alias with an available target is the answer, even if a part of the name starts with test_; then the first such part; then the name, or unknown if it is empty |
| `Resolver.UnderIsByComponents` | ci_pipeline/libtest_diff_311.py:375 | a class lies under a name exactly when its dotted components begin with those of the name |
| `Resolver.NormalizeDropsTest` | ci_pipeline/libtest_diff_311.py:338-339 | exactly one leading "test." is dropped |
| `Resolver.ProfileBelongsToItself` | ci_pipeline/libtest_diff_311.py:352-366 | a class of test_profile belongs to test_profile if that was requested, and to test_cprofile only if it alone was |
| `Resolver.WinnerIsUnique` | ci_pipeline/libtest_diff_311.py:352-393 | at most one requested name wins |
| `Resolver.WinnerIsLongest` | ci_pipeline/libtest_diff_311.py:352-393 | every other requested name covering the class is shorter or normalises alike |
| `Resolver.OrderIndependent` | ci_pipeline/libtest_diff_311.py:352-393 | order and repetition of the requests do not matter |
| `SymmetricDiff.DiffResultsSymmetric` | ci_pipeline/libtest_diff_311.py:649-715 | the loops compute the difference map, and unexpected and stale are the keys one map has that the other does not repeat |
| `SymmetricDiff.EmptyIffAgree` | ci_pipeline/libtest_diff_311.py:649-715 | there are no differences if and only if modules, states and the diagnostics of non-passing cases read the same |
| `SymmetricDiff.AgreeIffEqual` | ci_pipeline/libtest_diff_311.py:649-715 | without a literal "missing" state that is equality of the module and case maps and of non-passing diagnostics |
| `SymmetricDiff.ModuleRecorded` | ci_pipeline/libtest_diff_311.py:649-715 | what is stored under a module's tagged name is that module's pair of verdicts, if they differ |
| `SymmetricDiff.CaseRecorded` | ci_pipeline/libtest_diff_311.py:649-715 | what is stored under a case id is that case's pair of states, if they differ |
| `SymmetricDiff.DiagnosticRecorded` | ci_pipeline/libtest_diff_311.py:649-715 | what is stored under a case's diagnostic tag is its pair of diagnostics, if the states are equal and not pass and the diagnostics differ |
| `SymmetricDiff.OrderDoesNotMatter` | ci_pipeline/libtest_diff_311.py:649-715 | with untagged case ids the differences do not depend on the order in which results are visited |
| `SymmetricDiff.ExecuteGate` | ci_pipeline/libtest_diff_311.py:1276-1304 | the gate is green if and only if the differences equal the allow-list as maps; recording stores exactly the differences |
| `SymmetricDiff.RecordThenJudge` | ci_pipeline/libtest_diff_311.py:1276-1304 | a freshly recorded baseline judges green |
| `SymmetricDiff.SwappingArms` | ci_pipeline/libtest_diff_311.py:649-715 | swapping the arms swaps the sides of every difference and nothing else |
| `SymmetricDiff.DiffResults` | ci_pipeline/libtest_diff_311.py:575-618 | a changed module is a regression if it passed and is now fail, skip, crash, no_result, missing or absent, and a warning otherwise; a passed case is a regression if it now fails, errs or is skipped, or is gone from a module whose verdict is absent or none of no_result, missing and skip; nothing else is reported |
| `SymmetricDiff.NoDifferencesNoRegressions` | ci_pipeline/libtest_diff_311.py:575-715 | empty symmetric differences imply no regression, no warning and no case regression |
| `Deviations.LoadDeviations` | ci_pipeline/jit311/execution_report.py:277-289 | fails exactly if two entries of the lane name one testcase; otherwise the allow-list has exactly the testcases of the lane's entries with their observables |
| `Deviations.InLaneExactly` | ci_pipeline/jit311/execution_report.py:279 | the entries kept are those of the lane, and they are distinct if the lane's are |
| `Deviations.CompareWithDeviations` | ci_pipeline/jit311/execution_report.py:292-351 | unexpected is exactly what differs unexcused and is not registered as it is or does not fit its fingerprint; stale is what is registered and does not come out so; the verdict is FAIL if anything is unexpected, REVIEW_REQUIRED if not but something is stale, a pass otherwise, with deviations if differences remain; only the test_dis summary is excused, and only if all of that module's differences are registered; a pass does not widen the approval |
| `Deviations.ComparePenetration` | ci_pipeline/jit311/runtime_transition_report.py:81-192 | the same, with every module summary excused that a case difference of its module backs |
| `Deviations.FitsExactly` | ci_pipeline/jit311/runtime_transition_report.py:101-160 | an item's fingerprint fits exactly if all its parts occur, all its patterns match, and its second number is the first plus the expected delta in the one supported direction |
| `Deviations.AllowedIsLast` | ci_pipeline/jit311/runtime_transition_report.py:90-96 | of several registrations of one testcase the last one counts |
| `Deviations.PopDerived` | ci_pipeline/jit311/runtime_transition_report.py:162-176 | popping from the shrinking dictionary removes exactly the summaries backed in the original one |
| `Deviations.ExcusedAreBacked` | ci_pipeline/jit311/execution_report.py:324-341 | the test_dis summary is excused only when a concrete difference backs it |
| `Deviations.ApprovalCannotWiden` | ci_pipeline/jit311/runtime_transition_report.py:81-192 | excusing backed module summaries only, an approval covers exactly the registered non-module differences with fitting fingerprints |
| `Deviations.FingerprintsEnforcedIff` | ci_pipeline/jit311/runtime_transition_report.py:101-176 | over all arms and all ways to register the given testcases, no comparison passes with an unfit fingerprint if and only if no module summary is registered beside a case of that module |
| `Deviations.FingerprintsEnforcedUntaggedIff` | ci_pipeline/jit311/runtime_transition_report.py:101-176 | when no case id carries a tag, such a comparison can pass if and only if moreover each registered diagnostic belongs to an ordinary case that is not registered itself |
| `Deviations.UnfitSummaryPasses` | ci_pipeline/jit311/runtime_transition_report.py:101-176 | two arms and a registry whose summary fingerprint does not fit, and which pass |
| `ReleaseTag.ParsePrintTag` | ci_pipeline/build_with_tag/gitcode_webhook.py:71-75 | every tag is read back from its text, whatever other digits the pattern accepts |
| `ReleaseTag.PrintParsedTag` | ci_pipeline/build_with_tag/gitcode_webhook.py:125-133 | an accepted text is the printing of its tag if and only if it is ASCII, so a tag has one ASCII text |
| `ReleaseTag.SecondText` | ci_pipeline/build_with_tag/gitcode_webhook.py:71-75 | any decimal digit of another script gives some tag a second accepted text |
| `ReleaseTag.KeyTrichotomy` | ci_pipeline/build_with_tag/gitcode_webhook.py:136-152 | keys are totally and strictly ordered |
| `ReleaseTag.KeyTransitive` | ci_pipeline/build_with_tag/gitcode_webhook.py:136-152 | the order of keys is transitive |
| `ReleaseTag.KeyInjective` | ci_pipeline/build_with_tag/gitcode_webhook.py:136-152 | different tags have different keys |
| `ReleaseTag.KeyOrderIsPrecedence` | ci_pipeline/build_with_tag/gitcode_webhook.py:136-152 | the key orders tags exactly as section 11 of Semantic Versioning 2.0.0 does |
| `ReleaseTag.MaxCandidate` | ci_pipeline/build_with_tag/gitcode_webhook.py:302 | the greatest pair, by key and then by tag |
| `ReleaseTag.PreviousReleaseTag` | ci_pipeline/build_with_tag/gitcode_webhook.py:282-302 | fails exactly on an invalid current tag; returns the valid merged tag below it that all other such tags precede (of two texts of one tag the later by code points), or the empty string if there is none or git fails |
| `ReleaseTag.AsciiHasNoTwins` | ci_pipeline/build_with_tag/gitcode_webhook.py:282-302 | no two ASCII texts are the same tag, so among ASCII tags the returned one is strictly greatest |
| `ReleaseTag.PreviousIsUnique` | ci_pipeline/build_with_tag/gitcode_webhook.py:282-302 | that tag is unique and independent of order, repetition and invalid tags |

## Left out

- Reference counting, garbage collection (`tp_clear`, traverse), the weak-reference method tables and the cache of the last task type in `cinderx/async_lazy_value.cpp`.
- Forwarding of awaiters under `ENABLE_GENERATOR_AWAITER`, `#if 0` regions and argument parsing of `throw`.
- `loop.create_task` and the event loop: one atomic action that fails or returns a task.
- A failing iterator creation after `await` has listed its future: the future then simply stays listed and pending, like one whose holder forgot it.
- `_eval_cpp_condition` and the two switch patterns are arbitrary functions; the results hold for each of them.
- Which characters `\w` and `\d` match is a parameter; for the digits of release tags their values are below ten and the ASCII ones are the usual ones. The limit on the length of numbers that `int()` converts is not modelled.
- The order and texts of reported errors: a checker's errors are a set of findings.
- Loading of TOML and JSON, introspection of the running interpreter and the pattern probes of the decoder source are inputs.
- The sorted order in which results are visited: the model takes any order, and the results hold for each; only with case ids that carry one of the two tags can the differences depend on it. The additional fields of report entries are not kept.
- Out-of-memory failures and version gates in `initBuiltinMembers`, and the JIT, watcher and cache initialisation between publication and completion of the module, which is one step that may fail.
- Subprocesses, containers, git, HTTP, virtual environments, JUnit parsing and status bookkeeping in `ci_pipeline`.
