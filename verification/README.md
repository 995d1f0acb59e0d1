# Verified model of the Aurict desktop, CLI and web front ends

This Dafny project models the parts of the repository where correctness spans several functions or a whole run, and
proves what they promise. `dafny verify dfyconfig.toml` checks everything.

**The desktop protocol.** The Electron main process issues requests under fresh ids, keeps them in array queues
(`PendingRequests`) or in a Map (`SidecarRpc`), and sends them as JSON lines over chunked pipes (`Framing`, `Pipes`) to a
sidecar that answers in any order. Both clients are classes proved to refine one abstract table (`RequestTable`), whose
runs settle every call at most once. `Supervisor` is the restart machine of `main.ts` with its class of event handlers.
`SidecarProtocol` puts tables, pipes, children and supervisor together as one transition system and proves end-to-end
correlation over all runs; `SystemRuns` proves that it contains runs of the supervisor and of each table, `SidecarTraffic`
who is written what and says what, `SidecarDelivery` and `RequestPlaces` that nothing pending is ever lost from sight or
answered twice, `AnswerReturn` that answers settle their requests unchanged, `PendingFate` what ends a pending request and
that nothing else does, and `ModelListOrder` that model listings are answered in order.

**The chat turn.** `ChatTurn` is the single-turn lock of the sidecar with its callbacks, cancels and session commands, as
a transition system and as the class that implements it. `runAgent` is a source of callbacks that calls `onFinish` at most
once.

**The command line.** `EditDistance` proves both dynamic-programming loops against shortest edit scripts and the metric
laws; `Suggest` ranks with it over `StableSort`; `SlashTokenizer` and `ArgvParser` are proved against independent grammars,
in both directions, with printers that parse back.

**Bounded and fast forms.** `FileTree` (the capped walk against the whole pre-order), `PathContainment` (string prefixes
against component prefixes), `LocaleProxy` (redirect chains and published URLs), `RecentWorkspaces` (the bounded list against
the whole history), `ModelMerge` (the merge as an algebra) and `SiCount` (three-digit rounding).

Code that changes state is modelled as classes and loops; each method is tied to a function of inputs or old state, and the
lemmas are about that function. Calls whose result the code cannot know (whether `send` throws, whether a directory can be
read, what `localeCompare` and `toLowerCase` return, which timer fires) are parameters or events. A `char` stands for one
UTF-16 code unit, as in JavaScript strings.

## What the code does against its own comments

- `sidecar-rpc.ts` lines 13-15 say that calls are all rejected when the sidecar restarts. A manual restart rejects nothing
  (`PendingFate.RestartEndsNothing`), and neither does the exit of the child it killed, which is no longer current when it
  arrives (`PendingFate.RequestsOutliveTheKilledChild`).
- `rejectPendingRequests` (`main.ts` lines 173-186) leaves out four session queues. Their requests end only by their own
  timers or by their answers, which may still be read from the output of a child that has exited
  (`PendingFate.UndrainedEndByAnswerOrTimer`, `PendingFate.LateAnswersSettle`).
- Lines read from a child that is gone reset the back-off and show "connected" (`Supervisor.HonestUntil`,
  `Supervisor.LateOutputShowsConnected`); the supervisor can then have given up and still show it
  (`Supervisor.LineAfterGivingUp`, `Supervisor.IdleAndConnected`). A child that fails to start schedules no restart of its
  own, but the timer of an earlier exit may still be armed and then starts another child (`Supervisor.BecomesIdleExactly`,
  `Supervisor.FailedStartIsRetriedByAnOlderTimer`). Quitting clears the restart timer but not its variable.
- `ipc-server.ts` lines 168-169 say that the desktop resolves model responses in send order. It resolves them by id; the
  order is kept all the same (`ModelListOrder.ModelListsAreAnsweredInOrder`).
- `checkpoints.begin` (`ipc-server.ts` line 277) runs after the slot is taken and before the `try`. It only reads a length
  (`runtime-rpc.ts` lines 41-44, `snapshot.ts` lines 126-128), so no run loses the slot (`ChatTurn.NoRunLeaks`,
  `ChatTurn.SlotIsAlwaysFreed`); one that threw would lose it for good (`ChatTurn.LeaksExactlyWhenBeginThrows`,
  `ChatTurn.LeakedSlotIsStuck`). `onFinish` may throw after it has changed the history; the turn then ends through the
  catch block with its messages kept.
- A session command during a turn mixes two sessions' histories (`ChatTurn.SwitchDuringTurnMixesSessions`): the turn is
  appended to the new session, or overwrites it with the old session's summary. `ChatTurn.AtomicExactlyUnlessSwitched` says
  for every run when a turn keeps its promise all the same.
- The default-locale URL of a page is served in another locale to visitors who saved one
  (`LocaleProxy.DefaultUrlFollowsTheCookie`), `within` finds nothing below "/", and it accepts
  a link from outside into the root, which resolving refuses (`PathContainment.BothTestsAgree`,
  `PathContainment.LinkIntoTheRoot`).

## Model

| member | source | states |
|---|---|---|
| Framing.SplitIsUnique | apps/desktop/src/main/sidecar-process.ts:25-30 | text made of newline-free lines, each ended by a newline, and a newline-free rest has exactly those lines and that rest: framing finds the only possible split |
| Framing.SplitIsExhaustive | apps/desktop/src/main/sidecar-process.ts:25-30 | every stream is such a text, so nothing is dropped or invented |
| Framing.ChunkingDoesNotMatter | apps/desktop/src/main/sidecar-process.ts:24-31 | what a listener delivers and still holds depends only on the concatenated stream, for every way to cut it into chunks |
| Framing.DecodeEncode | apps/desktop/src/main.ts:135 | framing the concatenation of newline-terminated messages gives the messages back, with nothing left over |
| Framing.AnyChunkingDecodes | packages/cli/src/ipc-server.ts:667-682 | newline-terminated messages cut into chunks anywhere arrive as exactly those messages; the sidecar's stdin loop is the same machine |
| Framing.PrefixDeliversPrefix | apps/desktop/src/main/sidecar-process.ts:24-31 | a stream cut off anywhere has delivered a prefix of the messages, in order |
| Framing.PaddingDoesNotMatter | apps/desktop/src/main/sidecar-process.ts:28-30 | blanks, tabs and carriage returns around a message are dropped and a line of nothing else delivers nothing, so lines may end in either way |
| Framing.LineListener.OnData | apps/desktop/src/main/sidecar-process.ts:24-31 | after each chunk the buffer is the text after the last newline of everything received and the delivered messages are its trimmed non-blank complete lines |
| RequestTable.NextKeepsInv | apps/desktop/src/main/pending-requests.ts:26-99 | every operation on pending requests keeps: ids distinct, timers armed exactly for pending calls, each issued id pending or settled but not both, none settled twice |
| RequestTable.RunKeepsInv | apps/desktop/src/main/pending-requests.ts:26-99 | the same over whole runs, and settlements once made are never withdrawn |
| RequestTable.SettledExactlyOnce | apps/desktop/src/main/pending-requests.ts:62-78 | in every run each call settles at most once, outcomes are final, and timers are armed exactly for the pending calls |
| RequestTable.Conservation | apps/desktop/src/main/sidecar-rpc.ts:16-56 | in every run issued = pending + resolved + rejected |
| RequestTable.OwnVerdictDecides | apps/desktop/src/main/pending-requests.ts:56-61 | a pending call's fate is the first event that names it or a mass rejection; replies to others, unknown and duplicate ids do not touch it |
| RequestTable.OnlyItsVerdict | apps/desktop/src/main/pending-requests.ts:62-78 | a call is settled with an outcome if and only if that outcome is its own first verdict |
| RequestTable.ReorderedRepliesSettleAlike | apps/desktop/src/main/pending-requests.ts:56-61 | the same replies in any other order settle every pending call with the same outcome |
| RequestTable.TimersSettleEverything | apps/desktop/src/main/pending-requests.ts:38-42 | if nothing else happens the armed timers can all fire and then no request is left pending |
| RequestTable.UnsendRestores | apps/desktop/src/main/pending-requests.ts:44-52 | taking a request back after a failed send leaves queue and timers as they were before it |
| RequestTable.RejectsInOrder | apps/desktop/src/main/pending-requests.ts:94-99 | a mass rejection rejects the waiting calls in their order and leaves neither call nor timer |
| RequestTable.FirstIssuedIsAhead | apps/desktop/src/main/pending-requests.ts:44-52 | that order is the one of issue: a call still waiting is ahead of one issued later, whatever happened in between |
| RequestTable.TimeoutSaysHowLong | apps/desktop/src/main/pending-requests.ts:38-42 | a call that times out is rejected with its own name and the least number of seconds that cover its timeout |
| RequestTable.FailedSendSaysWhy | apps/desktop/src/main/pending-requests.ts:44-52 | a call whose sending fails is rejected with that very error and leaves queue and timers alone |
| PendingRequests.SpliceIsWithout | apps/desktop/src/main/pending-requests.ts:63-65 | splicing at the found index removes that request and nothing else, in order |
| PendingRequests.PendingQueue.FindIndex | apps/desktop/src/main/pending-requests.ts:63 | -1 exactly if the id is not queued, otherwise the index of a request with that id |
| PendingRequests.PendingQueue.RequestFromSidecar | apps/desktop/src/main/pending-requests.ts:26-54 | refines issuing a request, or issuing and rejecting it when send throws, with the invariant kept |
| PendingRequests.PendingQueue.SettleById | apps/desktop/src/main/pending-requests.ts:62-78 | resolveById and rejectById refine a reply: a no-op for unknown ids, otherwise exactly that request is removed, its timer cleared, its promise settled |
| PendingRequests.PendingQueue.TimerFires | apps/desktop/src/main/pending-requests.ts:38-42 | refines the timeout of exactly one request |
| PendingRequests.PendingQueue.SettleNext | apps/desktop/src/main/pending-requests.ts:80-92 | resolveNext and rejectNext settle the head of the queue, whoever the answer was meant for |
| PendingRequests.PendingQueue.RejectQueue | apps/desktop/src/main/pending-requests.ts:94-99 | refines the mass rejection: everything rejected in queue order, all timers cleared, queue empty |
| PendingRequests.QueueOrderCrossWires | apps/desktop/src/main/pending-requests.ts:56-61 | two requests answered in the opposite order are cross-wired by queue order and are not by id: why the id-based functions exist |
| JsMaps.SetKeepsValid | apps/desktop/src/main/sidecar-rpc.ts:27 | setting a key keeps the Map consistent: a new one comes last in the iteration order, an old one keeps its place |
| JsMaps.DeleteKeepsValid | apps/desktop/src/main/sidecar-rpc.ts:41 | deleting a key keeps keys distinct and in step with the entries |
| SidecarRpc.DeleteIsWithout | apps/desktop/src/main/sidecar-rpc.ts:41 | deleting an id from the Map takes exactly that call out of the iteration order |
| SidecarRpc.RpcClient.Call | apps/desktop/src/main/sidecar-rpc.ts:19-36 | a method outside the allowlist is refused without any change; otherwise the call refines issuing, or issuing and failing, on the same abstract table as the queues |
| SidecarRpc.RpcClient.TimerFires | apps/desktop/src/main/sidecar-rpc.ts:23-26 | refines the timeout of exactly one call |
| SidecarRpc.RpcClient.Settle | apps/desktop/src/main/sidecar-rpc.ts:38-45 | refines a reply; an unknown id changes nothing |
| SidecarRpc.RpcClient.RejectEverything | apps/desktop/src/main/sidecar-rpc.ts:47-53 | refines the mass rejection in insertion order |
| SidecarRpc.RpcClient.Size | apps/desktop/src/main/sidecar-rpc.ts:55 | the number of calls pending |
| Supervisor.NextKeepsInv | apps/desktop/src/main.ts:94-167 | every event keeps: only the newest child can be current, the delays armed since the last reset are the first of 1, 2, 4 seconds, and an active supervisor with neither child nor armed timer shows that it gave up or that the start failed, or after a late line 'connected' |
| Supervisor.RunLeavesNoOrphan | apps/desktop/src/main.ts:94-167 | along every run each spawned child is the current one, was killed, or has exited or failed |
| Supervisor.EveryRunIsSafe | apps/desktop/src/main.ts:36-42 | both of these from program start for every run, hence at most one child is alive and unkilled |
| Supervisor.NoChildOutlivesTheApp | apps/desktop/src/main.ts:642-663 | in every run from program start, once the app is quitting or its windows are closed every child ever spawned was killed or has ended |
| Supervisor.QuitIsFinal | apps/desktop/src/main.ts:659-663 | over any run after quitting nothing is spawned or armed, no timer is left to fire, and every child was killed or has ended |
| Supervisor.ClosingStopsTheRuntime | apps/desktop/src/main.ts:642-649 | over any run after closing the last window nothing is spawned or armed, on macOS until the app is activated again, and every child was killed or has ended |
| Supervisor.RestartsExactly | apps/desktop/src/main.ts:144-157 | a restart is armed exactly when the current child exits while the app is in use, none is on its way and fewer than three were made; it comes after 1, 2 or 4 seconds and the status announces just that; giving up is never announced with a restart on its way |
| Supervisor.ConnectedExactly | apps/desktop/src/main.ts:110-142 | 'connected' is shown after a step exactly if a line was read, the current child reported its start, or it was shown before and the step neither ended the current child nor started one; a child just started shows 'starting' |
| Supervisor.StaleEventsNeverMatter | apps/desktop/src/main/sidecar-process.ts:37-39 | leaving every late event of replaced children out of a run gives the same final state |
| Supervisor.NothingStartsWhileQuitting | apps/desktop/src/main.ts:138-145 | once quitting no run spawns a child or arms a restart again |
| Supervisor.CrashLoopIsBounded | apps/desktop/src/main.ts:144-157 | without a message, retry or workspace change at most the remaining restarts of three, and one already armed, can spawn children |
| Supervisor.BecomesIdleExactly | apps/desktop/src/main.ts:112-125 | the supervisor comes to be active with neither child nor armed timer exactly when, with no timer armed, the current child fails to start, or exits with all three restarts used up; it then says which |
| Supervisor.IdleUntilRevived | apps/desktop/src/main.ts:138-157 | over any run without retry, new workspace, activation or start of the app an idle supervisor spawns and arms nothing, and its message stays until a line is read and turns it into 'connected' |
| Supervisor.RevivedAtOnce | apps/desktop/src/main.ts:582-590 | a retry, a new workspace or an activation starts a new child where the supervisor is idle |
| Supervisor.FailedStartIsRetriedByAnOlderTimer | apps/desktop/src/main.ts:651-657 | a run in which a child runs and exits, the next one fails to start, and a third is spawned all the same: activation does not clear the timer of an earlier exit |
| Supervisor.CrashingGivesUp | apps/desktop/src/main.ts:144-157 | from any number of attempts, crash after crash spawns exactly the restarts left, arms exactly the delays left, and ends in giving up |
| Supervisor.FourCrashesGiveUp | apps/desktop/src/main.ts:144-157 | four crashes in a row arm 1000, 2000 and 4000 ms, spawn three more children and end in giving up |
| Supervisor.RetryRecovers | apps/desktop/src/main.ts:582-590 | a retry while active always leaves a current child; it kills the one before, and changes nothing if the status says starting |
| Supervisor.LineRenewsTheRestarts | apps/desktop/src/main.ts:202-204 | after a line from a running child its crash is followed by three more restarts, the first again after 1000 ms |
| Supervisor.HonestUntil | apps/desktop/src/main.ts:202-204 | 'connected' is shown without a child exactly after a line read while there is none (output is not guarded by the current-child check) or after a child is dropped while suspended or quitting |
| Supervisor.LateOutputShowsConnected | apps/desktop/src/main.ts:202-204 | a run from program start that ends so: the child exits and the rest of its output is read afterwards |
| Supervisor.LineAfterGivingUp | apps/desktop/src/main.ts:202-204 | after any run of children's events that ends in giving up, one more line of any child leaves the supervisor idle but shown as connected |
| Supervisor.IdleAndConnected | apps/desktop/src/main.ts:202-204 | such a run from program start: a child and the three restarts crash, and the rest of the last one's output is read afterwards |
| Supervisor.Main.StartSidecar | apps/desktop/src/main.ts:138-142 | refines starting: nothing while quitting, suspended or with a child |
| Supervisor.Main.ScheduleSidecarRestart | apps/desktop/src/main.ts:144-157 | refines scheduling: giving up after three, otherwise arming twice the delay of the time before |
| Supervisor.Main.RestartSidecar | apps/desktop/src/main.ts:159-167 | refines the manual restart: counter and timer reset, previous child killed, a new one started |
| Supervisor.Main.OnChildExit | apps/desktop/src/main.ts:118-125 | refines the exit step and keeps the invariant; a no-op for a child that is not current |
| Supervisor.Main.OnChildError | apps/desktop/src/main.ts:112-117 | refines the error step and keeps the invariant |
| Supervisor.Main.OnChildSpawned | apps/desktop/src/main.ts:111 | refines the spawn step and keeps the invariant |
| Supervisor.Main.HandleSidecarMessage | apps/desktop/src/main.ts:202-204 | refines the message step: attempts reset, status connected, whichever child the line came from |
| Supervisor.Main.RestartTimerFires | apps/desktop/src/main.ts:153-156 | refines the firing of the restart timer and keeps the invariant |
| Supervisor.Main.RuntimeRetry | apps/desktop/src/main.ts:582-590 | refines a retry, ignored while the status says starting |
| Supervisor.Main.WindowAllClosed | apps/desktop/src/main.ts:642-649 | refines closing the last window and keeps the invariant |
| Supervisor.Main.Activate | apps/desktop/src/main.ts:651-657 | refines activation and keeps the invariant |
| Supervisor.Main.BeforeQuit | apps/desktop/src/main.ts:659-663 | refines quitting: the timer is cleared but its variable is left set |
| Pipes.ReadKeepsValid | apps/desktop/src/main/sidecar-process.ts:24-31 | a pipe read in arbitrary pieces has delivered what framing makes of the bytes read so far |
| Pipes.TakenIsPrefix | apps/desktop/src/main/sidecar-process.ts:24-31 | what the reader has taken in is a prefix of the lines written |
| Pipes.ArrivalsWereWritten | apps/desktop/src/main/sidecar-process.ts:24-31 | every line that arrives was written to this pipe |
| SidecarProtocol.StepKeepsInv | apps/desktop/src/main.ts:131-311 | every step of the whole system (issue, failed send, chunk, answer, failure, timeout, lifecycle) keeps the invariant that ties tables, bytes in flight and jobs to the requests issued |
| SidecarProtocol.NeverCrossWired | apps/desktop/src/main/pending-requests.ts:26-78 | end to end: under any chunking, reordering and restarts, a request that resolves does so once, through the queue of its own type, with a value some sidecar computed for that same id and parameters |
| SystemRuns.SupervisorRunsInside | apps/desktop/src/main.ts:94-204 | the supervisor within the whole system goes through a run of the supervisor alone, fed with the lifecycle events and one message per readable line, so all results about its runs hold in the system |
| SystemRuns.TablesRunInside | apps/desktop/src/main.ts:173-311 | each table within the system goes through a run of the request table alone, fed with its own calls, answers, timers and rejections |
| SystemRuns.WholeSystemIsSound | apps/desktop/src/main.ts:94-311 | hence in every run of the system: at most one sidecar is alive and unkilled, and in each table issued = pending + resolved + rejected |
| SidecarTraffic.EachChildHearsItsCommands | apps/desktop/src/main.ts:131-136 | over any run each sidecar is written exactly the commands given while it was the current one and could be written to, in order |
| SidecarTraffic.ReplacedHearsNothing | apps/desktop/src/main.ts:159-167 | once a sidecar is replaced, no run writes anything to it |
| SidecarTraffic.RequestGoesToTheCurrent | apps/desktop/src/main.ts:131-136 | a request accepted while a sidecar was current is pending and among what that sidecar was written, whatever happens next |
| SidecarTraffic.UnsendableIsRejected | apps/desktop/src/main/pending-requests.ts:44-52 | without a sidecar, or with its input closed, a request is rejected at once with the reason and nothing is written |
| SidecarTraffic.EachChildSaysItsAnswers | packages/cli/src/ipc-server.ts:372-665 | over any run each sidecar writes exactly what it was given to say, each answer under the id and type of its request, in order |
| RequestPlaces.RunStaysInOnePlace | packages/cli/src/ipc-server.ts:372-665 | over any run a request is sent to one sidecar at most, and what a sidecar took in is exactly what it has in hand, answered or gave up, each once |
| RequestPlaces.AnsweredAtMostOnce | packages/cli/src/ipc-server.ts:372-665 | hence a request is answered at most once over all sidecars, and once answered none of them has it any more |
| AnswerReturn.GivenOutcomeSettles | apps/desktop/src/main.ts:202-311 | in every run, reading the answer to a pending request settles it with exactly the outcome the sidecar was given for it |
| AnswerReturn.RequestsCanBeAnswered | apps/desktop/src/main.ts:131-311 | a request of any type can be sent to a sidecar that has read and said everything, taken in, answered with any outcome and settled with it |
| PendingFate.StepDecides | apps/desktop/src/main.ts:118-186 | a request is pending after a step exactly if it was before and the step is not its own timeout, a read that delivers its answer, or an exit or start failure of the current child while its queue is one of those emptied then |
| PendingFate.RunDecides | apps/desktop/src/main.ts:118-186 | over any run a request stays pending exactly as long as no such step happens, and what is over stays over |
| PendingFate.ExitEndsExactlyTheDrained | apps/desktop/src/main.ts:173-186 | an exit or start failure of the current child ends exactly the requests of all queues but sessionRename, sessionArchive, sessionBranch and sessionSearch |
| PendingFate.UndrainedEndByAnswerOrTimer | apps/desktop/src/main.ts:173-186 | over any run, restarts and exits included, a request in one of these four queues ends only by its own timer or by its answer |
| PendingFate.LateAnswersSettle | apps/desktop/src/main.ts:202-204 | its answer may still be read from the output of the child that has exited; the other requests have been rejected by then |
| PendingFate.RestartEndsNothing | apps/desktop/src/main.ts:159-167 | a retry that is not ignored, or a new workspace, changes no table of pending requests and replaces the current child for good |
| PendingFate.RequestsOutliveTheKilledChild | apps/desktop/src/main/sidecar-process.ts:37-39 | after such a restart, over any run, a request ends only by its timer, its answer or the end of a newer child: the late exit of the killed child rejects nothing, against the comment in sidecar-rpc.ts lines 13-15 |
| PendingFate.SurvivesTheRestart | apps/desktop/src/main.ts:159-167 | such a run from program start: a request is sent, the workspace changes, the killed child exits, and the request is still pending while the second child runs |
| SidecarDelivery.RunLosesNothing | packages/cli/src/ipc-server.ts:372-665 | in every run a pending request is always somewhere: on its way to a sidecar, in a job, given up, or its answer on the way back |
| SidecarDelivery.QuietMeansSettled | packages/cli/src/ipc-server.ts:372-682 | hence when all pipes are read out and no sidecar has a request in hand, a request that no handler gave up is not pending |
| ModelListOrder.ModelListsAreAnsweredInOrder | packages/cli/src/ipc-server.ts:529-547 | the promise chain being a queue whose first listing alone may be answered, in every run each sidecar answers model listings in the order they were sent to it |
| ChatTurn.NextKeepsInv | packages/cli/src/ipc-server.ts:249-370 | every event keeps: controller and turn id set and cleared together and of one turn, an unfinished turn holds the slot, and its history is the one its prompt was sent with until a session command |
| ChatTurn.OnlyTheOwnerReleases | packages/cli/src/ipc-server.ts:339-365 | until a turn's own finish or end nothing frees its slot and every other submit is refused |
| ChatTurn.EndedTurnStaysReleased | packages/cli/src/ipc-server.ts:361-365 | once released a turn never holds the slot again, in any later run |
| ChatTurn.EndReleases | packages/cli/src/ipc-server.ts:347-365 | an accepted turn that has ended never runs and never holds the slot again, in any later run |
| ChatTurn.NothingInterferes | packages/cli/src/ipc-server.ts:269-272 | between acceptance and finish nothing but session commands touches the history, so a submit during a turn changes nothing |
| ChatTurn.FinishedTurnIsAtomic | packages/cli/src/ipc-server.ts:324-342 | whatever happens meanwhile, a finish turns the accepted history into history, prompt and new messages, or compacted history and new messages; the slot stays taken only if recording the artifact revision threw |
| ChatTurn.ConversationIsSerial | packages/cli/src/ipc-server.ts:257-259 | over a whole run without session commands the finished turns form one chain: each reply was computed from exactly the history it is appended to |
| ChatTurn.FailedTurnLeavesNoTrace | packages/cli/src/ipc-server.ts:347-365 | a turn that ends before onFinish leaves the history unchanged and the slot free |
| ChatTurn.CancelHitsOnlyItsTurn | packages/cli/src/ipc-server.ts:382-384 | a cancel aborts exactly the running turn of that id and changes neither slot nor history |
| ChatTurn.CancelledExactlyByItsId | packages/cli/src/ipc-server.ts:273-276 | over any run until it settles, an accepted turn is aborted exactly if it was cancelled by the id it was submitted with or interrupted |
| ChatTurn.RestoresTheDialogue | packages/cli/src/ipc-server.ts:444-462 | selecting a session restores exactly what its user and the assistant said, in order, and branching does the same |
| ChatTurn.LastSwitchDecides | packages/cli/src/ipc-server.ts:444-500 | until a turn settles, over any run, the last session command that took effect alone decides the history |
| ChatTurn.AtomicExactlyUnlessSwitched | packages/cli/src/ipc-server.ts:324-342 | over any run between acceptance and finish: a compacted turn overwrites the then current history, any other is appended to it; the result is the one promised exactly if the turn compacts, no session command took effect, or the last one left the accepted history |
| ChatTurn.SwitchDuringTurnMixesSessions | packages/cli/src/ipc-server.ts:463-468 | a new session during a turn: it starts with the old session's prompt or, if the turn compacts, with its summary; wrong exactly if the old session had any history |
| ChatTurn.NoRunLeaks | packages/cli/src/ipc-server.ts:273-365 | over any run, taking the checkpoint always returning as it does, the slot is only ever held by a turn that is still running |
| ChatTurn.SlotIsAlwaysFreed | packages/cli/src/ipc-server.ts:361-365 | after any run from program start the holder of the slot can end, its end frees the slot and keeps the history, and with no turn running the slot is free for the next prompt |
| ChatTurn.Sidecar.ChatSubmit | packages/cli/src/ipc-server.ts:249-277 | refines submit: refused while a turn holds the slot, otherwise the slot is taken and the turn starts from the current history |
| ChatTurn.Sidecar.OnFinish | packages/cli/src/ipc-server.ts:324-345 | refines finish on the mutable history and slot |
| ChatTurn.Sidecar.TurnSettled | packages/cli/src/ipc-server.ts:347-369 | refines the end of a turn, through the catch block or not |
| ChatTurn.Sidecar.ChatCancel | packages/cli/src/ipc-server.ts:382-384 | refines cancel |
| ChatTurn.Sidecar.SessionSelect | packages/cli/src/ipc-server.ts:444-462 | refines selecting a session: history and reply are the stored user and assistant turns in order |
| ChatTurn.Sidecar.SessionDelete | packages/cli/src/ipc-server.ts:491-500 | refines deleting: the history is emptied only if the session was the active one |
| EditDistance.NeighboursDifferByAtMostOne | packages/cli/src/cli/parser.ts:150-164 | cells next to each other in the dynamic-programming table differ by at most one |
| EditDistance.EqualCharactersTakeTheDiagonal | packages/cli/src/cli/parser.ts:157-159 | for equal characters the minimum is the diagonal cell, which justifies the shortcut |
| EditDistance.SingleRow | packages/cli/src/cli/parser.ts:150-164 | the in-place single-row loop returns the edit distance |
| EditDistance.TwoRows | packages/cli/src/commands/command-input.ts:58-72 | the two-row loop returns the same function, so both agree on every pair of strings |
| EditDistance.DistanceIsShortest | packages/cli/src/cli/parser.ts:150-164 | that function is the length of a shortest script of single-character insertions, deletions and substitutions: some script has it and none is shorter |
| EditDistance.TraceBack | packages/cli/src/cli/parser.ts:150-164 | a script of exactly the cell's length exists for every cell of the table |
| EditDistance.NoScriptIsShorter | packages/cli/src/cli/parser.ts:150-164 | no script turning one string into the other is shorter than the distance |
| EditDistance.DistanceIsAMetric | packages/cli/src/commands/command-input.ts:58-72 | zero exactly for equal strings, symmetric, triangle inequality, at least the length difference and at most the longer length |
| StableSort.SortIsStable | packages/cli/src/cli/parser.ts:143 | the sort is ascending and keeps the order of ties |
| StableSort.RankingIsUnique | packages/cli/src/cli/parser.ts:143 | there is only one such arrangement, so every stable sort gives this result |
| Suggest.NearestIsBest | packages/cli/src/cli/parser.ts:140-148 | nothing is suggested exactly if every candidate is more than two edits away and more than one for every three characters; otherwise the candidate minimal by distance, then name, then position |
| Suggest.TwoTyposAreForgiven | packages/cli/src/cli/parser.ts:140-148 | a candidate at most two edits from the input, case aside, always leads to a suggestion |
| Suggest.ClosestIsLeast | packages/cli/src/commands/command-input.ts:78-79 | a command's distance is the least over its name and aliases |
| Suggest.SuggestsTheBest | packages/cli/src/commands/command-input.ts:74-86 | the suggestions are the best commands within reach in order, at most max(0, limit); one within reach is left out only if the limit is met and it is worse than all suggested |
| Suggest.SuggestsExactlyTheClose | packages/cli/src/commands/command-input.ts:74-86 | what is suggested is within two edits, or one for every three characters, of the input by name or alias, and with room left every such command is suggested |
| Suggest.TypedInFullComesFirst | packages/cli/src/commands/command-input.ts:78-86 | a name or alias typed in full, case aside, brings up first a command called so |
| SlashTokenizer.TokenizeSlashCommand | packages/cli/src/commands/command-input.ts:10-56 | the loop computes the specification: tokens, or which of the two errors |
| SlashTokenizer.RenderingTokenizesToMeaning | packages/cli/src/commands/command-input.ts:10-56 | any line of words written with bare, escaped and quoted characters tokenizes to those words, empty ones included |
| SlashTokenizer.TokenizesExactlyTheRenderings | packages/cli/src/commands/command-input.ts:10-56 | a body tokenizes to given tokens if and only if it is such a line with those words |
| SlashTokenizer.FailsExactlyInside | packages/cli/src/commands/command-input.ts:52-53 | a body fails with an unclosed quote if and only if it is whole items, a word and an open quote of that mark, and with a final escape if and only if it ends so behind a backslash, in a quote or not |
| SlashTokenizer.PrintedTokensComeBack | packages/cli/src/commands/command-input.ts:10-56 | every list of tokens, each quoted or escaped and separated by spaces, tokenizes back to itself |
| SlashTokenizer.QuotesGroupAndSpacesSplit | packages/cli/src/commands/command-input.ts:21-50 | single and double quotes keep what is in them together, and a blank, a tab or a newline ends a token |
| ArgvParser.FindsTheFirst | packages/cli/src/cli/parser.ts:100-107 | an option is found exactly if some option answers to the flag, and then the first that does |
| ArgvParser.AnswersExactly | packages/cli/src/cli/parser.ts:100-107 | an option answers exactly to its name behind two dashes and to its one-character short form, which is no dash, behind one |
| ArgvParser.EachArgumentIsReadOnce | packages/cli/src/cli/parser.ts:32-68 | the items read spell out the arguments exactly: each argument is part of one item, in order, and `--` with all that follows is last |
| ArgvParser.ReadsExactlyTheCommandLines | packages/cli/src/cli/parser.ts:27-68 | arguments are read as given items if and only if these form a legal command line spelled that way, so the reading is unique |
| ArgvParser.ComplaintIsExact | packages/cli/src/cli/parser.ts:74-98 | validation passes exactly when no two options conflict, whichever of them declares it, and number and choice of positionals are legal |
| ArgvParser.AcceptedIsLegal | packages/cli/src/cli/parser.ts:27-98 | an accepted parse has only declared options with values of their kind and choices; unless help was asked for, also no conflicts and legal positionals |
| ArgvParser.PrintedLineParsesBack | packages/cli/src/cli/parser.ts:27-113 | well-typed options, each printed as `--name=value`, `--name value` or `-s value`, words, `--` and more positionals parse back to themselves if and only if they pass validation |
| ArgvParser.HelpLiftsValidation | packages/cli/src/cli/parser.ts:38-41 | help in front of any line that can be read lifts the validation and changes nothing else, and a line that cannot be read fails as before |
| ArgvParser.StopsWithReason | packages/cli/src/cli/parser.ts:47-68 | where the parser stops, all before it is a legal command line, and the error fits: no option answers, a value given to a switch, none or an unusable one to an option, or one that is no choice |
| ArgvParser.ValidationSaysWhy | packages/cli/src/cli/parser.ts:74-98 | too few and too many positionals are reported exactly when there are; a reported choice or conflict is a real one |
| ArgvParser.ReadArguments | packages/cli/src/cli/parser.ts:32-68 | the loop with its index, map and list refines reading item by item |
| ArgvParser.ParseCommand | packages/cli/src/cli/parser.ts:27-72 | loop and validation together compute the specified result, errors included |
| FileTree.Walker.Walk | apps/desktop/src/main/workspace-files.ts:11-30 | adds below a directory exactly what the uncapped pre-order adds, cut off at 500 entries in all |
| FileTree.ReadFileTree | apps/desktop/src/main/workspace-files.ts:9-33 | the listing is exactly the first 500 entries of the uncapped pre-order, for every tree |
| FileTree.ListingIsNested | apps/desktop/src/main/workspace-files.ts:24-29 | wherever the cap falls, each entry is shown by its name, with a slash for a directory, its parent is a directory listed before it, and the depth starts at 0 and rises by at most one |
| FileTree.ListsTheVisible | apps/desktop/src/main/workspace-files.ts:15-18 | a listed path meets nothing hidden and only readable directories and ends in a directory or file as listed, and every such path is listed if the tree fits 500 entries |
| FileTree.DirectoriesFirst | apps/desktop/src/main/workspace-files.ts:18 | within a directory, directories come before files and names ascend |
| FileTree.ListingIsInOrder | apps/desktop/src/main/workspace-files.ts:18-29 | in the whole listing, wherever the cap falls, the entries of one directory come directories first and with names ascending |
| FileTree.NothingIsListedTwice | apps/desktop/src/main/workspace-files.ts:24-29 | where names are unique within each directory no path is listed twice |
| PathContainment.ResolveTestIsContainment | apps/desktop/src/main/workspace-files.ts:38-39 | on normalized paths `startsWith(root + sep)` or equality holds exactly when the root's components are a prefix, the root "/" included |
| PathContainment.WithinTestIsContainment | apps/desktop/src/main/artifact-store.ts:36 | the artifact store's test holds exactly then too, except that nothing but "/" is within "/" |
| PathContainment.ResolveIsClean | apps/desktop/src/main/workspace-files.ts:37 | resolving any string against a normalized path gives a normalized path |
| PathContainment.RelativeResolvesBack | apps/desktop/src/main/workspace-files.ts:27 | the relative path the file tree gives for an entry resolves back to that entry |
| PathContainment.ResolveGoesUp | apps/desktop/src/main/workspace-files.ts:37 | going up k levels and down by names leads below the directory k levels up, or below the file system root if there are fewer |
| PathContainment.ClimbsOutUnlessItReturns | apps/desktop/src/main/workspace-files.ts:37-39 | such a path passes the first check, and is not reported to escape, exactly if it comes back down the way it went up |
| PathContainment.AbsoluteIgnoresBase | apps/desktop/src/main/workspace-files.ts:37 | an absolute path ignores the base |
| PathContainment.DetoursLeadBack | apps/desktop/src/main/workspace-files.ts:37 | empty components and single dots, and going into a directory and up again, change nothing anywhere in a path |
| PathContainment.ResolveWithinRoot | apps/desktop/src/main/workspace-files.ts:35-49 | the climb ends; the path is returned exactly when it and the real path of its deepest existing ancestor have the root's components as a prefix, and each error has its exact condition |
| PathContainment.ExistingIsContained | apps/desktop/src/main/workspace-files.ts:40-47 | an existing path is resolved exactly if its own components and those of its real path have the root's as a prefix |
| PathContainment.BothTestsAgree | apps/desktop/src/main/artifact-store.ts:23-37 | on any existing target both tests agree exactly when, for the root "/", the target really is "/", and for any other root, the target itself lies below the root whenever its real path does |
| PathContainment.LinkIntoTheRoot | apps/desktop/src/main/workspace-files.ts:37-39 | a link outside the root to a place inside is within the root for the artifact store but not resolved |
| LocaleProxy.PathLocaleIsFirstSegment | apps/web/src/proxy.ts:15-17 | a locale is read off a path exactly when it is its first segment |
| LocaleProxy.RedirectsDwindle | apps/web/src/proxy.ts:30-58 | each redirect lowers a bound on the redirects left, so every chain is finite |
| LocaleProxy.WhereItLands | apps/web/src/proxy.ts:30-58 | where any request ends: leading /en segments go, another locale segment decides, else the saved locale or the default; only paths outside the matcher pass through |
| LocaleProxy.UnprefixedKeepsTheChoice | apps/web/src/proxy.ts:48-57 | an unprefixed path with saved locale l is served as that path in l |
| LocaleProxy.UnknownLocaleMeansEnglish | apps/web/src/proxy.ts:6-13 | without a saved locale, or with one the site does not have, an unprefixed path is served in English without a redirect |
| LocaleProxy.PassesThroughExactly | apps/web/src/proxy.ts:60-62 | an unprefixed path passes the proxy exactly if it begins with /api, /_next or /_vercel or has a dot |
| LocaleProxy.TheChoiceLasts | apps/web/src/proxy.ts:34-46 | visiting a prefixed path saves that locale: the same path without prefix is then served in it |
| LocaleProxy.LocalizedUrlIsServed | apps/web/src/i18n/metadata.ts:21-24 | the published URL of a path in a non-default locale is served as that path in that locale whatever is saved, if and only if the path has no dot |
| LocaleProxy.DefaultUrlFollowsTheCookie | apps/web/src/i18n/metadata.ts:21-24 | the default-locale URL of any path is served as that path in the default locale exactly if the path is one the proxy sees, does not begin with a locale segment, and the visitor has saved no other locale |
| LocaleProxy.LocalizedUrlsAreDistinct | apps/web/src/i18n/config.ts:22-24 | different locales or different unprefixed paths never share a URL |
| LocaleProxy.AlternatesAreComplete | apps/web/src/i18n/metadata.ts:26-31 | the alternates have one entry for each locale with its localized URL, and x-default with the default one |
| RecentWorkspaces.WorkspaceStore.WriteWorkspace | apps/desktop/src/main/desktop-stores.ts:55-61 | the stored list is that of the run of choices so far |
| RecentWorkspaces.RecentIsLatestFirst | apps/desktop/src/main/desktop-stores.ts:57 | whatever happens on disk the list starts with the current workspace, is ordered by last choice without repetitions, and has at most eight entries |
| RecentWorkspaces.HistoryIsComplete | apps/desktop/src/main/desktop-stores.ts:57 | the unbounded history is everything chosen, ordered by last choice |
| RecentWorkspaces.TruncatingLosesNothing | apps/desktop/src/main/desktop-stores.ts:57 | the list is the first eight of the whole history, so that cutting at each step lost nothing, exactly if each of those eight has been a directory ever since it was last chosen |
| RecentWorkspaces.ListedHasStayed | apps/desktop/src/main/desktop-stores.ts:57 | whatever is listed has been a directory at every choice since it was last chosen |
| RecentWorkspaces.StayingIsListed | apps/desktop/src/main/desktop-stores.ts:57 | whatever is among the first eight of the history and has stayed so is listed, whatever became of the others |
| RecentWorkspaces.NothingIsLostWhileAllStay | apps/desktop/src/main/desktop-stores.ts:57 | hence while everything chosen stays a directory the list is the first eight of the history |
| RecentWorkspaces.LostWhileAway | apps/desktop/src/main/desktop-stores.ts:57 | a run in which an entry is lost: a workspace away during one choice stays unlisted when it is back |
| RecentWorkspaces.ForgottenOnlyForEightNewer | apps/desktop/src/main/desktop-stores.ts:57 | a workspace that has stayed a directory since it was last chosen is missing only if eight distinct others were chosen after it; while everything stays, these eight are the list |
| ModelMerge.MergeModelLists | packages/cli/src/commands/command-helpers.ts:110-135 | the Map and order loops compute one model for each id |
| ModelMerge.Merger.Put | packages/cli/src/commands/command-helpers.ts:114-128 | adding a model keeps Map and order equal to what the models so far amount to |
| ModelMerge.IdsAreDistinct | packages/cli/src/commands/command-helpers.ts:116-119 | no id occurs twice and every model's id occurs |
| ModelMerge.FirstOccurrencesAscend | packages/cli/src/commands/command-helpers.ts:116-119 | ids come in the order in which each occurs first in the lists |
| ModelMerge.NameIsTheFirst | packages/cli/src/commands/command-helpers.ts:121-125 | the name is that of the first model with the id |
| ModelMerge.ThinkingIsTheFirstGiven | packages/cli/src/commands/command-helpers.ts:126-127 | the thinking flag is the first one given for the id |
| ModelMerge.FieldIsTheLast | packages/cli/src/commands/command-helpers.ts:121-125 | any other field has the last value given for the id |
| ModelMerge.MergeIsAssociative | packages/cli/src/commands/command-helpers.ts:110-135 | merging is associative |
| ModelMerge.MergeIsIdempotent | packages/cli/src/commands/command-helpers.ts:110-135 | merging the same remote list again changes nothing, even if it repeats ids |
| SiCount.SomethingIsShown | packages/cli/src/commands/command-helpers.ts:25-30 | some amount is shown for every value |
| SiCount.RoundedIsNearest | packages/cli/src/commands/command-helpers.ts:26 | the count is the whole number nearest to the value, the upper one of two, and 0 for negative values |
| SiCount.SuffixFits | packages/cli/src/commands/command-helpers.ts:25-30 | below 1000 there is no suffix, M is used exactly from a million on, and the figure shown is at least 1 and, before K, at most 1000 |
| SiCount.SuffixDoesNotMatter | packages/cli/src/commands/command-helpers.ts:28-29 | whether K or M is shown, the amount is the count itself rounded to three significant digits |
| SiCount.ShownAmountsGrow | packages/cli/src/commands/command-helpers.ts:25-30 | a greater count never shows as a smaller amount, across digits, 1000 and the change from K to M, however ties round |
| SiCount.ShownIsAccurate | packages/cli/src/commands/command-helpers.ts:25-30 | exact below 1000 and within half a percent from there on |
| SiCount.ThreeDigitsAreExact | packages/cli/src/commands/command-helpers.ts:29 | a count of three significant digits is shown as it is |

## Left out

- Framing.LineListener.OnData: does not model UTF-8 decoding across chunk boundaries; chunks are already decoded text, as `setEncoding` provides.
- SidecarProtocol.NeverCrossWired: takes the JSON writer and reader as a pair that round-trips and writes non-empty text without newlines or outer white space (section 7 of RFC 8259), instead of modelling JSON.
- SidecarProtocol.StepKeepsInv: the answer to a request is any value, and an asynchronous command may also be given up; what the 27 request types compute is not modelled. `model:list` with an unknown provider id, which breaks the promise chain for good, is excluded: listings are always answered.
- SidecarRpc.RpcClient.Call: promises are a log of settlements; microtask order is not modelled, and ids are fresh by assumption (`crypto.randomUUID`).
- ChatTurn.FinishedTurnIsAtomic: `runAgent`, checkpoints, session storage and artifact stores are events without content; the text added to a prompt for artifacts is part of the prompt.
- ArgvParser.ParseCommand: error texts and "did you mean" hints are not part of the result, and the option map is a plain map: an option or conflict named like a member of `Object.prototype` (none is declared) would be found in the source's object.
- ArgvParser.PrintedLineParsesBack: requires option names that are distinct, non-empty, without `=` and other than `help`, and for options printed short a short form of one character that no other option has and that is neither `-` nor `h`, as all declared in packages/cli/src/cli/commands.ts are.
- ArgvParser: the choice of the command by `parseCli` (parser.ts lines 7-25) and the help and version shortcuts before it.
- SlashTokenizer.TokenizeSlashCommand: iterates over UTF-16 code units where the source iterates over code points; no code unit of a surrogate pair is white space, a quote or a backslash, so the tokens are the same.
- Suggest.NearestIsBest: `localeCompare` is any total preorder and `toLowerCase` any function.
- FileTree.ReadFileTree: `changed` is always false here; marking changed files with git is not modelled. `readdirSync` is a finite tree in which links are files.
- PathContainment.ResolveWithinRoot: POSIX paths only; the file system does not change during the call.
- LocaleProxy.WhereItLands: pathnames without query or fragment; the rewritten request's headers are its locale.
- RecentWorkspaces.WorkspaceStore.WriteWorkspace: does not model the JSON file, its atomic replacement or a file that cannot be read; the stored list is the one last written.
- SiCount.ShownAmountsGrow: the value is a real number; NaN and infinities are not modelled, and neither is the rounding error of the division before `toPrecision`, which for counts below 2^53 can only decide ties.
- Providers, MCP, plugins, memory and design stores, notifications, dialogs, protocol handlers and windows: plumbing around the modelled parts.
- Web and mobile pages, translations, the HTTP client, release scripts and signing: data, presentation or plumbing.
