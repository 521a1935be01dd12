# A verified model of the camera controller and its HTTP response path

The camera controller is an active object: events reach it through a broker, and a
hierarchical state machine dispatches them. Its HTTP interface is served by a vendored
RESTinio, whose pipelined response path and parsers carry most of the protocol logic. This
project models both in Dafny and proves what they are for.

Code that changes state step by step is modelled by classes and loops. Each method is proved
against a short mathematical specification, and the theorems are about that specification, so
they hold for every input and every run.

| modules | what they model | main results |
|---|---|---|
| `StateTree`, `StartUp`, `Hsm`, `CameraStates` | the hierarchical dispatcher | the case split over the path buffer computes exit to the least common ancestor, entry to the target and the INIT drill; an event is answered by the first state on the way up that does not pass it on; over every run the states entered and not exited are the ancestor chain of the current state; exactly when start-up ends as intended |
| `WriteGroups`, `PipelineSpec`, `PipelineProof`, `PipelineClosing`, `ResponseCoordinator`, `Connection` | write groups, the ring of response contexts, the gather-write splitter and the connection's write path | whatever the order of the answers, the stream is in request order; no stall; callbacks are conserved; nothing follows a connection-close response; exactly when the connection closes and which answers are accepted |
| `ChunkedOutput` | the chunked response builder | for any calls the body decodes (section 4.1.3 of RFC 7230) to the appended data, with one last-chunk, at the end; a flush leaves nothing pending |
| `MultipartBody` | the multipart splitter | of a body that the grammar allows (section 5.1.1 of RFC 2046) it finds all parts or none, and exactly when; what it finds are always the parts of such a body |
| `PegSemantics`, `EasyParser` | the parser combinators with a cut | the interpreter that moves a position and rolls it back computes a pure parsing expression grammar; a cut leaves no choice and is innermost; repetition is bounded; exactly when a failing clause leaves its target and its position alone |
| `Base64` | base64 (section 4 of RFC 4648) | round trip for exactly the non-empty data; which texts are encodings; the number denoted is kept |
| `Events`, `EventScheduling`, `EventDelivery`, `SubscriberOrder`, `EventSystem`, `EventBroker` | delayed events, topic fan-out and handlers' queues | deadline order with post order among equals; each event is in exactly one place; a handler gets the posts it is subscribed to in their global order, each as often as it is subscribed, whatever is sent to it past the broker; subscribers are told in the order in which they subscribed |
| `RequestTarget` | the incremental request-target splitter (section 3 of RFC 3986) | pieces and whole agree; the parts reassemble the target and come back out of it |

`dafny verify dfyconfig.toml` checks everything.

## How the models stand to the code

- State handlers enter a dispatch as a table from state and signal to their reply: what they
  return and what they assign to `temp`. A dispatch calls a handler with one signal at most
  once, except EMPTY, whose answer is fixed, so a table per dispatch loses nothing. `Obeys` is
  the contract between `HSM<T>` and the handlers of `T`: EMPTY and unanswered signals name the
  superstate, transitions do not target `Hsm_top`, INIT leads to a proper substate. A signal that a
  table does not list is a handler's `default:` branch. ENTRY may answer anything.
- A tree is any numbering of states with superstates first and chains of at most
  `HSM_MAX_NEST_DEPTH` entries. The path buffer has exactly that many slots; the code writes a
  slot before its assert, and the proofs show every such write to be in range. Start-up, whose
  climbing index has a bound of its own, is modelled with that bound.
- Start-up sends INIT to whatever state `temp` names after the entries. `StartUp` follows it turn by
  turn for every table: it ends with the states and actions intended if and only if INIT of those
  states leads down to where INIT of the entered states would (`StartsAsIntended`). It is enough that
  ENTRY leaves `temp` alone. A state without a case for EV_ENTRY does not: its default branch names
  the superstate, and with a superstate whose INIT leads to it start-up never ends properly
  (`MissingEntryCaseLosesStartUp`).
- An ENTRY handler that asks for a transition is not obeyed: the dispatcher ignores what ENTRY
  answers. `CameraStates` gives the case in which the camera controller relies on the opposite:
  an unresponsive camera is meant to lead from Idle to the error state, and does not.
- Write groups are move-only and never shared, so they are values; the queues and rings that
  hold them are updated in place. Request ids are 32-bit and wrap. `PipelineSpec` takes the
  environment as atomic steps: a request arrives, a handler answers, a write completes or
  fails, the connection closes. The callbacks in `faulty` throw. Runs have any length, and the
  table any capacity.
- Once the ids in flight wrap around, the lookup finds no request at all. The stream stays in
  order then, but no request in flight can be answered: `RequestsAreFoundUnlessWrapped` is the
  exact condition, and `WrappedRunCloses` a run of 2^32 + 1 requests in which an answer to either
  of the last two closes the connection.
- `PipelineClosing` says what the flags of the coordinator stand for, from the accepted answers
  alone: which answers are accepted (`AcceptedIff`), what can still be handed out once one of them
  was final with connection-close (`NothingAfterClosingAnswer`), and when the connection is closed
  (`ClosesIff`). A closing answer that waits behind requests not yet answered closes nothing before
  its turn has come.
- In the runs a write ends with "operation aborted" only after a close, as the source's comment
  has it. `AbortWhileOpenLosesItems` shows what would follow otherwise: items of the next group
  are passed over.
- The branch of the code for "nothing to write, but the coordinator is closed"
  (libs/restinio/impl/connection.hpp:1201-1240) is never taken: the close happens when the
  last group is finished.
- The documentation of `merge` asks for a first group without callback and a second without
  status line; `MergeKeepsTokens` shows that the first half is what conserves callbacks.
- The splitter is stricter than the grammar, which forbids the mark only at the start of a line,
  lets padding follow a mark, and lets a body end with its last mark. `SplitOfLegalBody` is the exact
  condition for it to find the parts of a body that the grammar allows: no mark inside of a line of
  the preamble or a part, no padding, and a line end after the last mark. Otherwise it finds none
  (`MarkInLineIsRefused`, `MissingLineEndIsRefused`, `PaddingIsRefused`).
- `repeat` writes to the target directly, so turns that succeeded, and the turn that failed,
  leave their mark on it even if the repetition falls short (`RepeatMarksTarget`): the target is
  spared if and only if no turn wrote anything (`RepeatSparesTargetIff`), for which `Silent` is a
  guard that needs no input. A bare producer that fails does not return to where it started
  (`ProducerDoesNotRollBack`), unless the items before the failing one consumed nothing and that one
  returned (`ProducerReturnsIff`). Every other clause restores what its documentation says.
- Encoding no data gives the empty text, which the decoder refuses as shorter than four
  characters, so the round trip holds if and only if there is something to encode.
- A text is only checked to be valid, not to consist of whole groups of four, which is what the
  reads of the decoder assume. `ReadOutOfRange` stands for the first read beyond the end;
  `InRangeIffQuads` is the exact condition and `FiveCharactersAreReadOutOfRange` an input.
- Event ids are post numbers modulo 2^16. `RemoveHitsIffIdIsUnshared` is the exact condition
  for a removal to hit the event meant, `StaleIdIsHarmlessIffUnshared` that for a removal to do
  nothing once the event is gone; `WrappedIdRemovesAnother` is a run of 65537 posts in
  which it hits another one.
- Broker and handlers are taken as atomic critical sections. A post holds the subscriber lock,
  but its puts into the handlers' queues are steps of their own, between which handlers take
  events, are stopped, and are sent events past the broker: `postEvent` is public, and the camera
  controller calls it on itself for deferred events. Such an event is handled besides those that
  the handler is owed by the broker (`SelfPostIsHandledBesides`); the queue is first in, first out
  for all of them together.

## Model

| member | source | states |
|---|---|---|
| StateTree.LcaContains | src/events/HSM.h:199-312 | the LCA contains both states |
| StateTree.LcaIsLeast | src/events/HSM.h:199-312 | every common ancestor contains the LCA |
| StateTree.TranLcaContains | src/events/HSM.h:160-312 | the state a transition exits up to contains source and target |
| StateTree.TranLcaCases | src/events/HSM.h:160-312 | it is the parent for a self-transition, the source above the target, the target above the source, and otherwise the least proper common ancestor |
| StateTree.AnswerIsAncestor | src/events/HSM.h:118-130 | the state that answers an event is the current one or an ancestor, and never Hsm_top for a transition |
| StateTree.FirstReplyAnswers | src/events/HSM.h:118-130 | the first state on the way up that does not pass the event on answers it, with its own reply |
| StateTree.TopAnswersIff | src/events/HSM.h:118-130 | the event is left to Hsm_top if and only if every state on the way up passes it on |
| StateTree.DispatchOfFirstReply | src/events/HSM.h:110-363 | a transition that this first state asks for exits from the current state up to the LCA of that state and the target, enters down to the target and follows INIT; any other reply changes nothing |
| StateTree.PassedOnEventChangesNothing | src/events/HSM.h:118-133 | an event that every state passes on changes nothing |
| StateTree.InitLeafWithin | src/events/HSM.h:329-357 | the INIT drill ends in the target or below it |
| StateTree.InitFollowsChain | src/events/HSM.h:329-357 | INIT is followed to the end of the chain that the handlers name, entering everything on the way |
| StateTree.ConfigIsAncestors | src/events/HSM.h:110-363 | the active configuration of a state is exactly its ancestors below Hsm_top |
| StateTree.ReplayExits | src/events/HSM.h:145-156 | the exits from a state to an ancestor lead from the one configuration to the other, innermost first |
| StateTree.ReplayEntries | src/events/HSM.h:319-324 | the entries below an ancestor lead back, outermost first, none twice |
| StateTree.ReplayInit | src/events/HSM.h:329-357 | so do the entries of the INIT drill |
| StateTree.ReplayDispatch | src/events/HSM.h:110-363 | one dispatch leads from the configuration of the current state to that of the next one |
| StateTree.ReplayBoot | src/events/HSM.h:373-412 | start-up leads from no active state to the configuration of its final state |
| StateTree.RunKeepsConfiguration | src/events/HSM.h:110-412 | after start-up and any events, the states entered and not exited are the ancestors of the state, and none was entered twice without an exit |
| StateTree.BootFollowsChain | src/events/HSM.h:373-412 | the intended start-up ends at the end of the INIT chain from the initial target, entering all of it |
| StateTree.AfterDispatches | src/events/EventHandler.h:73-80 | a run of events is their dispatches one after the other |
| StateTree.EntryTransitionIsDiscarded | src/events/HSM.h:319-324 | handlers that differ in their ENTRY answers only are dispatched alike |
| StateTree.InitIgnoresEntry | src/events/HSM.h:329-357 | ENTRY answers do not influence the drill |
| StateTree.AnswerIgnoresEntry | src/events/HSM.h:118-130 | ENTRY answers do not influence who answers an event |
| StateTree.EmptyIsPassedToTop | src/events/HSM.h:118-130 | every handler passes EMPTY on |
| StateTree.EmptyEventChangesNothing | src/events/EventHandler.h:58-80 | the EV_EMPTY that wakes the thread on stop changes no state and runs no action |
| CameraStates.CameraIsTree | src/cameracontroller/cameramanager/CameraManager.cpp:28-342 | the camera states are a hierarchy within the nesting limit |
| CameraStates.UnresponsiveCameraStaysIdle | src/cameracontroller/cameramanager/CameraManager.cpp:184-302 | the transition to the error state that Idle asks for on ENTRY does not happen |
| CameraStates.ErrorIsAnsweredByConnected | src/cameracontroller/cameramanager/CameraManager.cpp:147-303 | a critical error in CaptureWired is answered by its superstate Connected: both are exited and Error is entered |
| Hsm.WithinIsUp | src/events/HSM.h:199-312 | ancestors are found at the path index given by the difference of levels |
| Hsm.CaseTable | src/events/HSM.h:160-312 | each of the cases (A) to (G) with its LCA and the number of states to enter |
| Hsm.InitUnfold | src/events/HSM.h:329-357 | one turn of the drill goes strictly down and adds the entries on the way |
| Hsm.Hsm.constructor | src/events/HSM.h:56-60 | the machine starts outside every state with the initial target in temp |
| Hsm.Hsm.Invoke | src/events/HSM.h:365-371 | one handler call: its return value, temp, and the logged action |
| Hsm.Hsm.AskSuper | src/events/HSM.h:75-89 | EMPTY leaves the superstate in temp and logs nothing |
| Hsm.Hsm.Bubble | src/events/HSM.h:118-130 | the loop finds the answering state, its verdict and the target |
| Hsm.Hsm.ExitUpTo | src/events/HSM.h:145-156 | exits from the current state up to the source, leaf to root |
| Hsm.Hsm.FindInPath | src/events/HSM.h:242-312 | the downward search over the path finds an occurrence or shows there is none |
| Hsm.Hsm.FullPathHolds | src/events/HSM.h:242-312 | a complete path holds exactly the ancestors of the target, at the index of their level |
| Hsm.Hsm.ClimbFromTarget | src/events/HSM.h:199-241 | case (E): every index written is in range; found exactly if the source is an ancestor of the target |
| Hsm.Hsm.ExitUntilOnPath | src/events/HSM.h:273-312 | case (G): exits superstates of the source up to the LCA and returns its place on the path |
| Hsm.Hsm.ResolvePath | src/events/HSM.h:160-312 | cases (A) to (G): exits from source to LCA, and the path left to enter ends just below the LCA |
| Hsm.Hsm.EnterPath | src/events/HSM.h:319-324 | enters the rest of the path, root to leaf |
| Hsm.Hsm.ClimbTo | src/events/HSM.h:330-345 | collects the path below an ancestor, in range, and restores temp |
| Hsm.Hsm.Drill | src/events/HSM.h:329-357 | follows INIT to the final state with all entries on the way |
| Hsm.Hsm.TakeTransition | src/events/HSM.h:133-357 | exits to the LCA, enters the target, follows INIT |
| Hsm.Hsm.HandleEvent | src/events/HSM.h:110-363 | state, temp and log after an event are those of the specification; the log accounts for the active states before and after |
| StartUp.PathDown | src/events/HSM.h:386-405 | a turn of start-up that goes down makes the entries on the way and no others |
| StartUp.TempDown | src/events/HSM.h:386-408 | after it `temp` names what the last assigning ENTRY handler says |
| StartUp.PathElsewhere | src/events/HSM.h:386-405 | a turn that does not go down climbs to Hsm_top and enters that first |
| StartUp.BootIsEntries | src/events/HSM.h:373-412 | the intended start-up enters exactly the chain down to its final state |
| StartUp.TurnDown | src/events/HSM.h:382-409 | what one turn downwards leaves behind |
| StartUp.NotDownIsLost | src/events/HSM.h:382-409 | after INIT has led elsewhere start-up never ends with its actions in place |
| StartUp.EndsInStartLeaf | src/events/HSM.h:373-412 | for every table and number of turns: where start-up ends, if it does |
| StartUp.ReachesStartLeaf | src/events/HSM.h:373-412 | and it does end if INIT leads down |
| StartUp.ReachesBootIffStartsAsIntended | src/events/HSM.h:373-412 | start-up reaches the intended state with the intended actions if and only if INIT of the states that `temp` names leads down to the same state |
| StartUp.LastAssignmentCounts | src/events/HSM.h:398-408 | `temp` names what the last of the entries that assigns to it has assigned |
| StartUp.SilentEntriesSuffice | src/events/HSM.h:403-408 | it does if the ENTRY handlers on the way leave `temp` alone |
| StartUp.MissingEntryCaseLosesStartUp | src/events/HSM.h:403-408 | a table without an EV_ENTRY case for which it does not, in any number of turns |
| Hsm.Hsm.StartPath | src/events/HSM.h:384-396 | collects the path within its bound, for every target, and restores temp |
| Hsm.Hsm.StartEntries | src/events/HSM.h:398-405 | enters the path and leaves in temp what the handlers assign |
| Hsm.Hsm.StartTurn | src/events/HSM.h:382-409 | is one turn of the specified start-up, for every table |
| Hsm.Hsm.Start | src/events/HSM.h:373-412 | ends in the state that INIT leads down to, with the entries of its whole chain; that is the intended start-up when INIT goes where it should |
| Hsm.Hsm.Serve | src/events/HSM.h:110-412 | start-up and any sequence of events keep the configuration, and are a run of the specification when start-up is as intended |
| WriteGroups.MergeKeepsTokens | libs/restinio/buffers.hpp:871-889 | merging keeps all items and callbacks in place if and only if the first group has no callback |
| WriteGroups.EnqueueKeepsTokens | libs/restinio/impl/response_coordinator.hpp:61-77 | queueing a group, merged or not, adds its items and its callback at the end and changes nothing before |
| WriteGroups.EnqueueKeepsStatusLines | libs/restinio/impl/response_coordinator.hpp:61-77 | a status line always stays at the beginning of a group, and whatever can be merged is |
| WriteGroups.QueueTokensFront | libs/restinio/impl/response_coordinator.hpp:83-110 | dequeueing takes the first group's items and callback off the front |
| PipelineSpec.Lookup | libs/restinio/impl/response_coordinator.hpp:195-206 | a found context is one in flight |
| PipelineSpec.UnwrappedAreFound | libs/restinio/impl/response_coordinator.hpp:195-206 | unless the ids in flight have wrapped, a request is found under its own id and nothing else is |
| PipelineSpec.WrappedAreNotFound | libs/restinio/impl/response_coordinator.hpp:195-206 | once they have, the newest id is smaller than the oldest and nothing is found |
| PipelineSpec.LookupFindsUnlessWrapped | libs/restinio/impl/response_coordinator.hpp:195-206 | requests in flight are found under their own ids, and nothing else is, if and only if the ids in flight have not wrapped |
| PipelineSpec.PopShrinks | libs/restinio/impl/response_coordinator.hpp:370-406 | taking a group strictly reduces what is queued, so the write loop ends |
| PipelineSpec.BufferRun | libs/restinio/impl/write_group_output_ctx.hpp:332-353 | a batch is a longest run of buffers within the limit |
| PipelineProof.CloseCore | libs/restinio/impl/connection.hpp:1288-1351 | closing keeps order and callbacks |
| PipelineProof.PopCore | libs/restinio/impl/response_coordinator.hpp:370-406 | taking the next group keeps order and callbacks |
| PipelineProof.ContinueInv | libs/restinio/impl/connection.hpp:966-996 | starting the next operation keeps the invariant |
| PipelineProof.FinishInv | libs/restinio/impl/connection.hpp:1142-1199 | finishing a group keeps the invariant |
| PipelineProof.InitWriteInv | libs/restinio/impl/connection.hpp:868-947 | starting a write keeps the invariant |
| PipelineProof.WriteDoneInv | libs/restinio/impl/connection.hpp:1247-1282 | a completed write keeps the invariant |
| PipelineProof.WriteErrorInv | libs/restinio/impl/connection.hpp:1247-1282 | a failed write keeps the invariant |
| PipelineProof.ArriveInv | libs/restinio/impl/response_coordinator.hpp:313-320 | registering a request keeps the invariant |
| PipelineProof.AnswerInv | libs/restinio/impl/connection.hpp:776-864 | an answer, accepted or refused, keeps the invariant |
| PipelineProof.StepInv | libs/restinio/impl/connection.hpp:736-1351 | every step keeps the invariant |
| PipelineProof.RunInv | libs/restinio/impl/connection.hpp:736-1351 | the invariant holds in every run |
| PipelineProof.WireInRequestOrder | libs/restinio/impl/connection.hpp:776-996 | in every run, what was handed to the socket and told to callbacks is a prefix of the answers concatenated in request order |
| PipelineProof.IdleHasWrittenEverything | libs/restinio/impl/connection.hpp:868-947 | open and idle: everything answered was written, up to and including the oldest request not answered in full |
| PipelineProof.NeverStalls | libs/restinio/impl/response_coordinator.hpp:370-406 | open and idle: nothing that could be written waits, and every final context still has a group |
| PipelineProof.InterleavingIsIrrelevant | libs/restinio/impl/response_coordinator.hpp:323-406 | two runs with the same answers per request put the same stream out, up to how far they got |
| PipelineProof.CallbacksAreInvokedOnce | libs/restinio/impl/write_group_output_ctx.hpp:281-329 | no callback is invoked more often than submitted; closed and drained, exactly as often |
| PipelineProof.NothingAfterConnectionClose | libs/restinio/impl/connection.hpp:1142-1199 | after a final response with connection-close was taken up, only the rest of its group follows, in every continuation |
| PipelineProof.DrainedStaysDrained | libs/restinio/impl/write_group_output_ctx.hpp:281-289 | closed and drained, no group ever starts, so the stale item index is not used |
| PipelineProof.RequestsAreFoundUnlessWrapped | libs/restinio/impl/response_coordinator.hpp:195-206 | in every run all requests in flight can be found if and only if their ids have not wrapped |
| PipelineProof.AnswersReachTheirRequests | libs/restinio/impl/response_coordinator.hpp:323-361 | in every run an accepted answer is recorded for the request that its id names, counted from the first one |
| PipelineProof.WrappedRunCloses | libs/restinio/impl/response_coordinator.hpp:313-361 | a run with ids 2^32 - 1 and 0 in flight, where an answer to either closes the connection |
| PipelineProof.AbortWhileOpenLosesItems | libs/restinio/impl/connection.hpp:1247-1282 | were a write aborted on an open connection, the items of the next group would not be written |
| PipelineClosing.NothingBeyond | libs/restinio/impl/connection.hpp:1142-1199 | whatever is handed out or on its way when some answer was final with connection-close lies within the answers up to that one |
| PipelineClosing.PopFlags | libs/restinio/impl/response_coordinator.hpp:370-406 | taking a group keeps the contexts in step with what the answers said; the coordinator closes exactly when the context that leaves was answered with connection-close |
| PipelineClosing.AppendFlags | libs/restinio/impl/response_coordinator.hpp:323-361 | an accepted answer sets the flags of the request that it names, and of no other |
| PipelineClosing.StepFlagged | libs/restinio/impl/connection.hpp:736-1351 | every step keeps contexts, coordinator and stream in step with what the accepted answers said |
| PipelineClosing.RunFlagged | libs/restinio/impl/connection.hpp:736-1351 | so does every run |
| PipelineClosing.FinalFlagsStay | libs/restinio/impl/response_coordinator.hpp:349-356 | what was said of a request that is answered in full is not taken back, however the run goes on |
| PipelineClosing.NothingAfterClosingAnswer | libs/restinio/impl/response_coordinator.hpp:392-401 | once an accepted answer to the k-th request was final with connection-close, in every continuation nothing beyond the answers to the first k + 1 requests is handed to the socket |
| PipelineClosing.EndedIsClosed | libs/restinio/impl/connection.hpp:1194-1198 | once everything up to such an answer is complete and written the connection is closed |
| PipelineClosing.FinishOutcome | libs/restinio/impl/connection.hpp:1142-1199 | a finished group leaves the connection open unless its callback throws or it was the last one of a closing answer |
| PipelineClosing.ClosedStaysClosed | libs/restinio/impl/connection.hpp:1288-1351 | a closed connection is not opened again, and once drained nothing changes any more |
| PipelineClosing.ClosesIff | libs/restinio/impl/connection.hpp:736-1351 | in every run the connection is closed if and only if a shutdown, a failed write or a refused answer met it open, or a callback that throws was told, or everything up to a closing answer is complete and written |
| PipelineClosing.InFlightIsFound | libs/restinio/impl/response_coordinator.hpp:195-206 | while ids have not wrapped, an id from the last 2^32 - 1 requests is found exactly if its request is in flight, and at its place |
| PipelineClosing.AcceptedIff | libs/restinio/impl/response_coordinator.hpp:323-361 | while ids have not wrapped, an open connection accepts an answer if and only if its request was not answered in full before and none that has left was to close the connection |
| ResponseCoordinator.ContextTable.constructor | libs/restinio/impl/response_coordinator.hpp:159-162 | a table of the given capacity with nothing in flight |
| ResponseCoordinator.ContextTable.SlotHolds | libs/restinio/impl/response_coordinator.hpp:156-275 | the i-th context in flight is in the i-th slot from the first, around the end of the ring |
| ResponseCoordinator.ContextTable.Empty | libs/restinio/impl/response_coordinator.hpp:164-169 | true exactly if nothing is in flight |
| ResponseCoordinator.ContextTable.IsFull | libs/restinio/impl/response_coordinator.hpp:171-176 | true exactly if every slot is in flight |
| ResponseCoordinator.ContextTable.Front | libs/restinio/impl/response_coordinator.hpp:178-183 | the oldest context |
| ResponseCoordinator.ContextTable.GetByReqId | libs/restinio/impl/response_coordinator.hpp:195-206 | the slot of the request with that id, or none |
| ResponseCoordinator.NumberedSpan | libs/restinio/impl/response_coordinator.hpp:195-206 | an id between the oldest and the newest one is in flight, so the slot computed for it is |
| ResponseCoordinator.ContextTable.Reinit | libs/restinio/impl/response_coordinator.hpp:48-58 | resets id and flags of a free slot, which holds no groups, without touching the queue |
| ResponseCoordinator.ContextTable.Extend | libs/restinio/impl/response_coordinator.hpp:209-227 | takes the first free slot in as the newest context |
| ResponseCoordinator.ContextTable.Push | libs/restinio/impl/response_coordinator.hpp:209-227 | appends a context without groups to the queue, or refuses if full; reusing a slot leaks no groups |
| ResponseCoordinator.ContextTable.DropFirst | libs/restinio/impl/response_coordinator.hpp:251-260 | moves the window on by one slot, around the end of the ring |
| ResponseCoordinator.ContextTable.PopFront | libs/restinio/impl/response_coordinator.hpp:230-260 | drops the oldest context; the free slots stay without groups if and only if it had none left |
| ResponseCoordinator.ContextTable.Update | libs/restinio/impl/response_coordinator.hpp:195-206 | a write through the reference found changes that context of the queue and no other |
| ResponseCoordinator.ContextTable.UpdateFront | libs/restinio/impl/response_coordinator.hpp:178-183 | the same for the oldest context |
| ResponseCoordinator.ResponseCoordinator.constructor | libs/restinio/impl/response_coordinator.hpp:291-295 | nothing in flight, the first id is 0 |
| ResponseCoordinator.ResponseCoordinator.RegisterNewRequest | libs/restinio/impl/response_coordinator.hpp:313-320 | the next id and a context for it, or a refusal if the table is full |
| ResponseCoordinator.ResponseCoordinator.AppendResponse | libs/restinio/impl/response_coordinator.hpp:323-361 | queues the group at its request and sets its flags, or reports closed, unknown or already complete and changes nothing |
| ResponseCoordinator.ResponseCoordinator.PopReadyBuffers | libs/restinio/impl/response_coordinator.hpp:370-406 | the oldest request's next group; a finished final request leaves and decides whether the coordinator closes |
| ResponseCoordinator.ResponseCoordinator.Reset | libs/restinio/impl/response_coordinator.hpp:415-444 | empties the table and tells every queued callback, each once |
| ResponseCoordinator.ResponseCoordinator.FailFront | libs/restinio/impl/response_coordinator.hpp:415-444 | empties one context and tells its callbacks |
| Connection.OperationsPartition | libs/restinio/impl/write_group_output_ctx.hpp:251-278 | the successive operations partition the items in order, each one file or 1 to max_iov_len buffers |
| Connection.OperationsAreMaximal | libs/restinio/impl/write_group_output_ctx.hpp:332-353 | neighbouring buffers are written apart only if the first operation is full |
| Connection.BatchIsOperation | libs/restinio/impl/write_group_output_ctx.hpp:251-278 | one operation is never empty, never mixes and never exceeds the limit |
| Connection.WriteGroupOutputCtx.StartNextWriteGroup | libs/restinio/impl/write_group_output_ctx.hpp:237-241 | installs the group and leaves the index alone |
| Connection.WriteGroupOutputCtx.ExtractNextWriteOperation | libs/restinio/impl/write_group_output_ctx.hpp:251-278 | hands out the next operation and moves the index past it; none exactly if the group is exhausted |
| Connection.WriteGroupOutputCtx.PrepareTrivialBuffers | libs/restinio/impl/write_group_output_ctx.hpp:332-353 | the loop takes the longest run of buffers within the limit |
| Connection.WriteGroupOutputCtx.FinishWriteGroup | libs/restinio/impl/write_group_output_ctx.hpp:292-329 | tells the callback success and resets, also if the callback throws |
| Connection.WriteGroupOutputCtx.FailWriteGroup | libs/restinio/impl/write_group_output_ctx.hpp:281-329 | tells the callback an error; the index stays stale unless the callback throws |
| Connection.Connection.constructor | libs/restinio/impl/response_coordinator.hpp:291-295 | a fresh connection is the initial state of the step system |
| Connection.Connection.Close | libs/restinio/impl/connection.hpp:1288-1351 | closes and fails everything queued |
| Connection.Connection.InitWrite | libs/restinio/impl/connection.hpp:868-947 | takes the next ready group, if any, and starts it |
| Connection.Connection.HandleCurrentWriteCtx | libs/restinio/impl/connection.hpp:966-996 | starts the next operation or finishes the group |
| Connection.Connection.FinishHandlingCurrentWriteCtx | libs/restinio/impl/connection.hpp:1142-1199 | closes after a throwing callback or a closing response, otherwise goes on |
| Connection.Connection.OnRequest | libs/restinio/impl/connection.hpp:553-566 | is the step "request arrives" |
| Connection.Connection.WriteResponseParts | libs/restinio/impl/connection.hpp:736-773 | is the step "handler answers"; an exception closes the connection |
| Connection.Connection.WriteResponsePartsImpl | libs/restinio/impl/connection.hpp:776-864 | refuses when closed, appends otherwise, and starts a write if none is in flight |
| Connection.Connection.AppendOrDestroy | libs/restinio/buffers.hpp:742-752 | a group that cannot be queued tells its callback on destruction |
| Connection.Connection.AfterWrite | libs/restinio/impl/connection.hpp:1247-1282 | is the step "write completed" or "write failed", whatever the error and whether open or closed |
| Connection.Connection.AfterWriteSuccess | libs/restinio/impl/connection.hpp:1247-1282 | logs the operation as written and goes on |
| Connection.Connection.AfterWriteFailure | libs/restinio/impl/connection.hpp:1247-1282 | closes unless aborted, and fails the current group |
| ChunkedOutput.HexRoundTrip | libs/restinio/message_builders.hpp:791-860 | the hexadecimal size line reads back as the size |
| ChunkedOutput.HexIsPlain | libs/restinio/message_builders.hpp:791-860 | it is upper case and has no leading zero |
| ChunkedOutput.DecodeChunks | libs/restinio/message_builders.hpp:791-860 | non-empty chunks and the last-chunk decode to their data and leave what follows alone |
| ChunkedOutput.ChunkBufsBytes | libs/restinio/message_builders.hpp:791-860 | size line and data buffers, with the CRLF that is carried over, are the chunks |
| ChunkedOutput.BufsBytes | libs/restinio/message_builders.hpp:791-860 | one send writes the header at most once, the pending chunks, and the last-chunk if final |
| ChunkedOutput.SendBytes | libs/restinio/message_builders.hpp:723-760 | a send appends just that to the stream, also if it is empty |
| ChunkedOutput.ProgressAlways | libs/restinio/message_builders.hpp:655-760 | for any calls: sent bytes and pending chunks together are header and appended chunks, only the last group is final, only the first has a status line |
| ChunkedOutput.BodyDecodes | libs/restinio/message_builders.hpp:655-860 | after done() the body decodes to the concatenation of what was appended, wherever the flushes fell |
| ChunkedOutput.AppendSendsNothing | libs/restinio/message_builders.hpp:655-665 | appending sends nothing |
| ChunkedOutput.SendingLeavesNothingPending | libs/restinio/message_builders.hpp:678-760 | for any calls before done(), a flush or done() puts the header and everything appended so far on the wire, with the last-chunk for done() only, and leaves nothing pending |
| ChunkedOutput.SendingHandsOverOneGroup | libs/restinio/message_builders.hpp:678-760 | it hands over exactly one group, with its callback; a flush with nothing to send and no callback hands over none |
| ChunkedOutput.NothingAfterDone | libs/restinio/message_builders.hpp:655-720 | after done() nothing is handed over any more |
| ChunkedOutput.ChunkedResponseBuilder.constructor | libs/restinio/message_builders.hpp:639-651 | a new builder |
| ChunkedOutput.ChunkedResponseBuilder.AppendChunk | libs/restinio/message_builders.hpp:655-665 | keeps a non-empty chunk |
| ChunkedOutput.ChunkedResponseBuilder.Flush | libs/restinio/message_builders.hpp:678-690 | sends what is pending as a part that is not final |
| ChunkedOutput.ChunkedResponseBuilder.Done | libs/restinio/message_builders.hpp:700-720 | sends the final part once; a second call throws |
| ChunkedOutput.ChunkedResponseBuilder.SendReadyData | libs/restinio/message_builders.hpp:723-760 | emits a group unless it would have neither buffers nor callback |
| ChunkedOutput.ChunkedResponseBuilder.CreateBufs | libs/restinio/message_builders.hpp:791-860 | the loop builds the specified buffers and empties the pending chunks |
| MultipartBody.FindFirst | libs/restinio/helpers/multipart_body.hpp:70-133 | the search returns the first occurrence or shows that there is none |
| MultipartBody.NextPart | libs/restinio/helpers/multipart_body.hpp:97-132 | every turn leaves strictly less of the body |
| MultipartBody.FirstMark | libs/restinio/helpers/multipart_body.hpp:70-133 | text that ends a line and holds no mark cannot make an earlier one with the mark that follows |
| MultipartBody.SplitRestOfJoined | libs/restinio/helpers/multipart_body.hpp:97-132 | the loop finds the parts of a joined body |
| MultipartBody.SplitOfAssembled | libs/restinio/helpers/multipart_body.hpp:70-133 | splitting an assembled body gives exactly its parts, whatever preamble and epilogue |
| MultipartBody.SplitReassembles | libs/restinio/helpers/multipart_body.hpp:70-133 | a non-empty result reassembles to the body, and neither parts nor preamble contain the mark |
| MultipartBody.SplitIffEncloses | libs/restinio/helpers/multipart_body.hpp:70-133 | for every accepted boundary, these parts are found if and only if they reassemble to the body with no mark in them or in the preamble |
| MultipartBody.MarkInside | libs/restinio/helpers/multipart_body.hpp:84-113 | a mark inside of a line is found first and not at the start of a line |
| MultipartBody.SplitRestOfDelimited | libs/restinio/helpers/multipart_body.hpp:97-132 | with padding and marks inside of lines, the loop finds all parts or gives up |
| MultipartBody.SplitOfMultipartBody | libs/restinio/helpers/multipart_body.hpp:70-133 | what the splitter finds in any body that the grammar allows |
| MultipartBody.SplitOfLegalBody | libs/restinio/helpers/multipart_body.hpp:70-133 | for every accepted boundary and every body that the grammar allows, all parts are found if and only if no mark stands inside of a line, no mark is padded and a line end follows the last one; otherwise none |
| MultipartBody.SplitFindsLegalParts | libs/restinio/helpers/multipart_body.hpp:70-133 | whatever is found are the parts of a body that the grammar allows |
| MultipartBody.MarkInLineIsRefused | libs/restinio/helpers/multipart_body.hpp:106-113 | a legal body with a mark inside of a line of its part, of which nothing is found |
| MultipartBody.MissingLineEndIsRefused | libs/restinio/helpers/multipart_body.hpp:118-132 | a legal body without a line end after the last mark, of which nothing is found |
| MultipartBody.PaddingIsRefused | libs/restinio/helpers/multipart_body.hpp:102-102 | a legal body with padding after a mark, of which nothing is found |
| MultipartBody.CheckBoundaryValue | libs/restinio/helpers/multipart_body.hpp:455-475 | accepts exactly the boundary values of RFC 2046 |
| MultipartBody.BoundaryFollowsGrammar | libs/restinio/helpers/multipart_body.hpp:455-475 | a boundary value is up to 69 of the characters that the grammar lists and one more that is no space |
| MultipartBody.BcharsAreListed | libs/restinio/helpers/multipart_body.hpp:401-426 | which characters those are |
| MultipartBody.SplitMultipartBody | libs/restinio/helpers/multipart_body.hpp:70-133 | the loop over the remaining body computes the specified split |
| PegSemantics.Peg | libs/restinio/helpers/easy_parser.hpp:1304-1997 | a match never moves backwards or beyond the input |
| PegSemantics.CutComesFromForced | libs/restinio/helpers/easy_parser.hpp:1791-1819 | a forced failure stems from a forced clause, through sequences and producers only |
| PegSemantics.AlternativesFailPlainly | libs/restinio/helpers/easy_parser.hpp:1477-1516 | alternatives never pass a forced failure on and leave the target alone when they fail |
| PegSemantics.AlternativesChooseFirst | libs/restinio/helpers/easy_parser.hpp:1465-1517 | alternatives match as the first item that matches with no forced failure before it, and fail exactly if there is none |
| PegSemantics.CutIsInnermost | libs/restinio/helpers/easy_parser.hpp:1791-1819 | a forced failure decides the innermost alternatives and the enclosing ones go on |
| PegSemantics.ForcedLeavesNoChoice | libs/restinio/helpers/easy_parser.hpp:1791-1819 | a forced alternative leaves no choice: what comes after it is never tried |
| PegSemantics.ForcedBehindPrefixLeavesNoChoice | libs/restinio/helpers/easy_parser.hpp:1791-1819 | nor does one behind items that match |
| PegSemantics.ForcedItemCuts | libs/restinio/helpers/easy_parser.hpp:1791-1819 | a sequence whose failing item is a forced one fails by force, where that item starts |
| PegSemantics.ForcedItemCutsProducer | libs/restinio/helpers/easy_parser.hpp:1838-1872 | and so does a producer |
| PegSemantics.SequenceDivides | libs/restinio/helpers/easy_parser.hpp:1738-1776 | a sequence is its first part and then its second, and writes to its target only if both match |
| PegSemantics.SequenceOfOne | libs/restinio/helpers/easy_parser.hpp:1738-1776 | a sequence of one item is that item, but for the target when it fails |
| PegSemantics.ProducerWrapsSequence | libs/restinio/helpers/easy_parser.hpp:1838-1872 | a producer does to an empty target what the sequence of its items does, and adds the outcome as one value |
| PegSemantics.LooksAhead | libs/restinio/helpers/easy_parser.hpp:1546-1713 | look-aheads tell whether the sequence matches without moving or writing; maybe makes it optional |
| PegSemantics.TurnsAreARow | libs/restinio/helpers/easy_parser.hpp:1890-1947 | the turns of a repetition are as many copies of its items in a row |
| PegSemantics.RepeatIsLongestRow | libs/restinio/helpers/easy_parser.hpp:1890-1947 | a repetition matches the longest row within its maximum, and fails behind it if that falls short of its minimum |
| PegSemantics.SymbolTakesOne | libs/restinio/helpers/easy_parser.hpp:1961-1997 | a symbol takes one character of its class, or fails where it stands with the error for its reason |
| PegSemantics.ClassesAreListed | libs/restinio/helpers/easy_parser.hpp:614-680 | what the character classes contain |
| PegSemantics.OnlyAppends | libs/restinio/helpers/easy_parser.hpp:1304-1997 | a clause does to any target what it does to the empty one, behind what is there; so matching, failing and errors do not depend on it |
| PegSemantics.TargetDoesNotMatter | libs/restinio/helpers/easy_parser.hpp:1304-1997 | where a clause matches or fails does not depend on the target |
| PegSemantics.FailureSparesTarget | libs/restinio/helpers/easy_parser.hpp:1465-1819 | a failing clause other than a repetition leaves the target alone |
| PegSemantics.RepeatMarksTarget | libs/restinio/helpers/easy_parser.hpp:1909-1946 | a failing repetition that marks its target |
| PegSemantics.RepeatWritesTurns | libs/restinio/helpers/easy_parser.hpp:1909-1946 | a repetition writes what its turns write, the failing one included |
| PegSemantics.RepeatSparesTargetIff | libs/restinio/helpers/easy_parser.hpp:1909-1946 | a failing repetition leaves its target alone if and only if none of its turns wrote anything |
| PegSemantics.SilentSparesTarget | libs/restinio/helpers/easy_parser.hpp:1304-1997 | a clause without kept symbols and producers outside of look-aheads leaves its target alone on every input |
| PegSemantics.NotNotIsAnd | libs/restinio/helpers/easy_parser.hpp:1609-1713 | not of not is and, for every pattern |
| PegSemantics.MaybeIsRepeatOnce | libs/restinio/helpers/easy_parser.hpp:1546-1581 | maybe is at most one repetition of the sequence |
| PegSemantics.Advances | libs/restinio/helpers/easy_parser.hpp:1304-1997 | a clause that is not nullable consumes something when it matches |
| PegSemantics.RepeatIsBounded | libs/restinio/helpers/easy_parser.hpp:1909-1946 | over a body that is not nullable at most as many turns succeed as characters are consumed |
| PegSemantics.RepeatLimitIsIrrelevant | libs/restinio/helpers/easy_parser.hpp:1909-1946 | there any maximum beyond the remaining input, such as N, gives the same result |
| EasyParser.Source.constructor | libs/restinio/helpers/easy_parser.hpp:720-737 | a source at its start |
| EasyParser.Source.Getch | libs/restinio/helpers/easy_parser.hpp:744-754 | the next character, or end of input without moving |
| EasyParser.Source.Putback | libs/restinio/helpers/easy_parser.hpp:757-762 | one back, but not before the start |
| EasyParser.Source.Backto | libs/restinio/helpers/easy_parser.hpp:774-779 | back to a position within the input |
| EasyParser.ContentConsumer.constructor | libs/restinio/helpers/easy_parser.hpp:831-845 | remembers the position |
| EasyParser.ContentConsumer.Commit | libs/restinio/helpers/easy_parser.hpp:865-869 | keeps what was read |
| EasyParser.ContentConsumer.Leave | libs/restinio/helpers/easy_parser.hpp:847-851 | restores the position unless committed |
| EasyParser.TryProcess | libs/restinio/helpers/easy_parser.hpp:1304-1997 | every clause computes the semantics: the same error, position and target; on failure the position is back at the start except after a bare producer |
| EasyParser.TrySymbol | libs/restinio/helpers/easy_parser.hpp:1961-1997 | so does a symbol, with the two errors it can report |
| EasyParser.AllOf | libs/restinio/helpers/easy_parser.hpp:1857-1863 | running items in turn on one source and target is their sequence |
| EasyParser.TryProduce | libs/restinio/helpers/easy_parser.hpp:1838-1872 | a producer builds a new value and hands it over only on success |
| EasyParser.TrySequence | libs/restinio/helpers/easy_parser.hpp:1738-1776 | sequence |
| EasyParser.TryForced | libs/restinio/helpers/easy_parser.hpp:1791-1819 | forced alternative: any failure becomes a forced one at its start |
| EasyParser.TryAlternatives | libs/restinio/helpers/easy_parser.hpp:1465-1517 | alternatives, with a copy of the target and a rollback per item |
| EasyParser.TryMaybe | libs/restinio/helpers/easy_parser.hpp:1546-1581 | optional part |
| EasyParser.TryNot | libs/restinio/helpers/easy_parser.hpp:1609-1649 | negative look-ahead restores the position in both outcomes |
| EasyParser.TryAnd | libs/restinio/helpers/easy_parser.hpp:1677-1713 | positive look-ahead restores the position in both outcomes |
| EasyParser.TryRepeat | libs/restinio/helpers/easy_parser.hpp:1890-1947 | the two nested rollbacks compute the repetition |
| EasyParser.ProducerDoesNotRollBack | libs/restinio/helpers/easy_parser.hpp:1853-1871 | a bare producer that fails may leave the position advanced; within a sequence it is restored |
| EasyParser.ItemFails | libs/restinio/helpers/easy_parser.hpp:1857-1863 | the failing item starts where the items before it have matched to, and leaves the position where it stops itself |
| EasyParser.ProducerReturnsIff | libs/restinio/helpers/easy_parser.hpp:1853-1871 | a failing producer is back at its start if and only if the items before the failing one consumed nothing and that one is itself back |
| EasyParser.Trimmed | libs/restinio/helpers/easy_parser.hpp:1424-1432 | the longest prefix that does not end with a space |
| EasyParser.RemoveTrailingSpaces | libs/restinio/helpers/easy_parser.hpp:1424-1432 | the loop computes it |
| EasyParser.EnsureNoRemainingContent | libs/restinio/helpers/easy_parser.hpp:1396-1414 | accepts exactly spaces; otherwise reports the first other character |
| EasyParser.TryParse | libs/restinio/helpers/easy_parser.hpp:4447-4473 | succeeds exactly if the producer matches the trimmed text to its end |
| Base64.TablesAreInverse | libs/restinio/utils/base64_lut.ipp:54-119 | the decode table inverts the alphabet, and the plain characters are exactly those of the alphabet |
| Base64.AlphabetInRuns | libs/restinio/utils/base64_lut.ipp:54-119 | the alphabet is that of section 4 of RFC 4648 |
| Base64.FoobaIsEncoded | libs/restinio/utils/base64.hpp:122-175 | an example from section 10 of RFC 4648 |
| Base64.IsValidBase64String | libs/restinio/utils/base64.hpp:43-107 | the automaton accepts exactly four or more characters, two or more plain ones first, then at most two of padding |
| Base64.PadsFrom | libs/restinio/utils/base64.hpp:43-107 | plain characters with padding behind are valid if and only if there are four or more, two of them plain, and at most two of padding |
| Base64.Encode | libs/restinio/utils/base64.hpp:122-175 | the loop computes the specified encoding |
| Base64.EncodeRemaining | libs/restinio/utils/base64.hpp:151-172 | so do the branches for one or two bytes left |
| Base64.TryDecode | libs/restinio/utils/base64.hpp:183-245 | the loop computes the specified decoding, or reads beyond the end exactly if the valid text is not in whole groups |
| Base64.InRangeIffQuads | libs/restinio/utils/base64.hpp:197-225 | all reads are in range if and only if the text consists of whole groups |
| Base64.FiveCharactersAreReadOutOfRange | libs/restinio/utils/base64.hpp:43-225 | a valid text that is read beyond its end |
| Base64.EncodedShape | libs/restinio/utils/base64.hpp:122-175 | four characters for every three bytes begun, plain but for the padding at the end; valid if and only if there was something to encode |
| Base64.GroupsRoundTrip | libs/restinio/utils/base64.hpp:122-245 | whole groups decode to what they encode |
| Base64.RestRoundTrip | libs/restinio/utils/base64.hpp:151-172 | so do one or two bytes left |
| Base64.RoundTrip | libs/restinio/utils/base64.hpp:122-245 | decoding the encoding of some data gives the data back if and only if it is not empty |
| Base64.GroupsKeepNumber | libs/restinio/utils/base64.hpp:139-149 | whole groups denote to base 64 the number that the bytes denote to base 256 |
| Base64.EncodingKeepsNumber | libs/restinio/utils/base64.hpp:122-175 | so does every encoding, but for the zero bits that fill its last character |
| Base64.PlainRoundTrip | libs/restinio/utils/base64.hpp:183-245 | unpadded groups encode back to themselves |
| Base64.ReencodesIffCanonical | libs/restinio/utils/base64.hpp:183-245 | a valid text in whole groups encodes back to itself if and only if its unused bits are zero |
| Base64.IsEncodingOf | libs/restinio/utils/base64.hpp:122-245 | a text encodes some data if and only if it is valid, in whole groups, canonical and decodes to them |
| EventScheduling.Slot | src/events/EventBroker.cpp:59-75 | a new event goes behind all with an earlier or equal deadline and before all later ones |
| EventScheduling.Find | src/events/EventBroker.cpp:82-93 | the first event with that id |
| EventScheduling.InsertKeepsOrder | src/events/EventBroker.cpp:59-75 | insertion keeps the list sorted by deadline, posts with equal deadlines in order |
| EventScheduling.RunInv | src/events/EventBroker.cpp:49-175 | in every run the list is sorted, every event is accounted for, and firing was fair |
| EventScheduling.FiredInDeadlineOrder | src/events/EventBroker.cpp:95-129 | of two posted events the first was due, and went before the second or the second had not been posted when the first was taken |
| EventScheduling.TakesTheEarliest | src/events/EventBroker.cpp:113-121 | the event taken is due and goes before all others pending; if none is taken, none is due or one is on its way |
| EventScheduling.EveryEventIsInOnePlace | src/events/EventBroker.cpp:49-175 | each event is pending, on its way, posted, removed or cleared, exactly one of these, unaltered |
| EventScheduling.LogIsWhatWasPosted | src/events/EventBroker.cpp:49-75 | in every run the k-th event posted with a delay is filed with its own event, topic and deadline |
| EventScheduling.FiresWhatWasPosted | src/events/EventBroker.cpp:95-129 | whatever is fired was posted with a delay before, with the same event, topic and deadline, and was due |
| EventScheduling.TakenIsPosted | src/events/EventBroker.cpp:113-175 | what was taken is fired next; clearing leaves nothing pending |
| EventScheduling.RemoveHitsIffIdIsUnshared | src/events/EventBroker.cpp:82-93 | removal by id hits the event meant if and only if none ahead of it in the list shares the id |
| EventScheduling.StaleIdIsHarmlessIffUnshared | src/events/EventBroker.cpp:82-93 | removal by the id of an event that is gone changes nothing if and only if no pending event shares the id, as while all stem from the last 2^16 posts |
| EventScheduling.RecentIdsAreDistinct | src/events/EventBroker.cpp:55-55 | pending events from fewer than 2^16 successive posts have distinct ids |
| EventScheduling.WrappedIdRemovesAnother | src/events/EventBroker.cpp:55-93 | after 2^16 further posts the id of a pending event may remove a younger one |
| EventDelivery.CountWithout | src/events/EventBroker.cpp:153-169 | deleting a subscriber deletes all its subscriptions and nobody else's |
| EventDelivery.SubscribedCounts | src/events/EventBroker.cpp:131-169 | one critical section changes the lists as it changes the multiplicities |
| EventDelivery.ListsCount | src/events/EventBroker.cpp:131-169 | the subscriber lists hold each handler as often as its subscriptions since the last unsubscription say |
| EventDelivery.PutKeeps | src/events/EventBroker.cpp:34-46 | one put of a post in progress turns one event still coming into one received |
| EventDelivery.StepReceives | src/collections/SyncQueue.h:48-68 | what each step puts into a handler's queue goes behind what it handled and has queued; taking moves the front to what was handled |
| EventDelivery.OthersKeep | src/events/EventHandler.h:53-80 | taking, stopping and events sent past the broker leave alone what comes from the broker |
| EventDelivery.RunInv | src/events/EventBroker.cpp:30-169 | in every run, direct posts included, what came and is still coming from the broker are the posts owed |
| EventDelivery.HandlesWhatItIsOwed | src/events/EventHandler.h:53-80 | the broker's posts that a handler handled are a prefix of those it was subscribed to, in global order, with multiplicity, whatever is sent to it directly |
| EventDelivery.NothingIsLost | src/events/EventBroker.cpp:30-47 | with no post in progress, those handled and queued together are all of them |
| EventDelivery.HandledInArrivalOrder | src/collections/SyncQueue.h:48-68 | handled and then queued is everything that was ever put into the queue, by whom ever, in order of arrival |
| EventDelivery.DirectPostsAreHandledInOrder | src/events/EventHandler.h:53-56 | the events sent to a handler past the broker are handled in their own order, and none is lost |
| EventDelivery.SelfPostIsHandledBesides | src/cameracontroller/cameramanager/CameraManager.cpp:204-207 | a handler that sends itself a deferred event handles it besides what it is owed |
| EventDelivery.OneMarkPerStop | src/events/EventHandler.h:58-68 | every stop that puts its EV_EMPTY leaves that one mark; an EV_EMPTY that is posted counts as a post |
| EventDelivery.UndisturbedPost | src/events/EventBroker.cpp:30-47 | a post that runs to its end with nothing in between adds the event to each queue as often as its handler is subscribed |
| SubscriberOrder.StandingAfter | src/events/EventBroker.cpp:137-169 | an unsubscription takes out the subscriptions that it ends and keeps the others in order |
| SubscriberOrder.ListsAreInOrder | src/events/EventBroker.cpp:131-169 | the list of a topic holds the subscriptions that no later critical section has ended, in the order in which they were made |
| SubscriberOrder.SubscribersAreToldInOrder | src/events/EventBroker.cpp:30-47 | in every run a post tells the subscribers in that order: after n puts just the first n have been served |
| SubscriberOrder.TurnsEmptyTheQueue | src/events/EventHandler.h:73-80 | each turn of a handler handles the oldest entry queued, so that as many turns as there are entries leave none |
| EventSystem.RunsOfEach | src/events/EventBroker.cpp:30-175 | a run of timers and delivery together is a run of each, so what holds in those holds here |
| EventSystem.BothGoOn | src/events/EventBroker.cpp:30-175 | timers and delivery both go on and keep out of each other's way, but for the post of the broker's thread |
| EventSystem.FiringsAreMarked | src/events/EventBroker.cpp:113-127 | in every run the posts of the broker's thread within the history are the events fired, in the order of firing |
| EventSystem.PostIsOwedAt | src/events/EventBroker.cpp:30-47 | where in what a handler is owed the copies of a post stand |
| EventSystem.DelayedEventsAreHandledInDeadlineOrder | src/events/EventBroker.cpp:95-129 | in every run each handler is owed, and so handles, delayed events in deadline order among those posted by then, whatever happens in between |
| EventSystem.DelayedPostsAreScheduled | src/events/EventBroker.cpp:49-75 | the events posted with a delay are those that the timers file |
| EventSystem.DelayedEventsKeepTheirTopic | src/events/EventBroker.cpp:49-127 | in every run the i-th event fired stands in the history with the event and topic of the delayed post that its ticket numbers |
| EventSystem.TakenEntersHistory | src/events/EventBroker.cpp:113-127 | and an event taken does enter it, once the lock is free |
| EventBroker.SynchronizedQueue.constructor | src/collections/SyncQueue.h:34-46 | an empty queue |
| EventBroker.SynchronizedQueue.Put | src/collections/SyncQueue.h:48-55 | appends at the back |
| EventBroker.SynchronizedQueue.Get | src/collections/SyncQueue.h:57-68 | takes from the front |
| EventBroker.EventHandler.constructor | src/events/EventHandler.h:49-49 | a handler that is not running, with an empty queue |
| EventBroker.EventHandler.Start | src/async/ActiveObject.h:58-73 | launches only once and never after a stop |
| EventBroker.EventHandler.PostEvent | src/events/EventHandler.h:53-56 | puts the event into the handler's queue |
| EventBroker.EventHandler.Stop | src/events/EventHandler.h:58-68 | asks a running handler to stop, wakes it with EV_EMPTY, and marks it as stopped; nothing otherwise |
| EventBroker.EventHandler.Run | src/events/EventHandler.h:73-80 | handles from the front of the queue, in order, losing nothing |
| EventBroker.EventBroker.constructor | src/events/EventBroker.cpp:28-28 | a fresh broker is the initial state of the step system |
| EventBroker.EventBroker.PostDelayed | src/events/EventBroker.cpp:49-80 | the loop inserts at the specified place; the id is the post's number to 16 bits |
| EventBroker.EventBroker.RemoveDelayed | src/events/EventBroker.cpp:82-93 | the loop erases the first event with the id |
| EventBroker.EventBroker.ClearDelayedEvents | src/events/EventBroker.cpp:171-175 | drops everything pending |
| EventBroker.EventBroker.RunTurn | src/events/EventBroker.cpp:95-129 | takes a due front event off the list and posts it to its topic, as often as each handler is subscribed, and otherwise does nothing |
| EventBroker.EventBroker.Post | src/events/EventBroker.cpp:30-47 | every handler's queue gains just what the post adds to what the handler is owed |
| EventBroker.EventBroker.Deliver | src/events/EventBroker.cpp:33-46 | the loop puts the event into each queue as often as its handler is in the topic's list |
| EventBroker.EventBroker.Subscribe | src/events/EventBroker.cpp:131-135 | is the critical section of a subscription: the lists are those of the extended history |
| EventBroker.EventBroker.Unsubscribe | src/events/EventBroker.cpp:137-142 | the same for an unsubscription; throws, changing nothing, for an unknown topic |
| EventBroker.EventBroker.UnsubscribeAll | src/events/EventBroker.cpp:144-151 | the same for an unsubscription from all topics |
| EventBroker.EventBroker.DeleteSubscriber | src/events/EventBroker.cpp:153-169 | the erasing loop removes all occurrences and keeps the others in order |
| RequestTarget.IndexOf | libs/restinio/http_headers.hpp:1592-1599 | the first occurrence, or the size |
| RequestTarget.AppendWhole | libs/restinio/http_headers.hpp:1685-1710 | how a further piece moves the separators of the whole, from the piece alone |
| RequestTarget.RequestHeader.SetRequestTarget | libs/restinio/http_headers.hpp:1624-1634 | separators of the whole target |
| RequestTarget.RequestHeader.AppendRequestTarget | libs/restinio/http_headers.hpp:1685-1710 | the same separators after appending a piece |
| RequestTarget.RequestHeader.Path | libs/restinio/http_headers.hpp:1644-1648 | the path view |
| RequestTarget.RequestHeader.Query | libs/restinio/http_headers.hpp:1655-1664 | the query view |
| RequestTarget.RequestHeader.Fragment | libs/restinio/http_headers.hpp:1672-1681 | the fragment view |
| RequestTarget.Feed | libs/restinio/http_headers.hpp:1624-1710 | any split into pieces gives the separators of the whole |
| RequestTarget.PartsReassemble | libs/restinio/http_headers.hpp:1644-1681 | path, query and fragment with their separators are the target |
| RequestTarget.AssemblySplits | libs/restinio/http_headers.hpp:1644-1681 | and parts assembled to a target come back out of it |

## Left out

- Hsm.Hsm.constructor: the initial pseudo-state is represented by the state that it transitions to.
- Hsm.Hsm.Start: covers the tables for which start-up ends with its actions in place; for all others, where it may not end at all, Hsm.Hsm.StartTurn is one turn and StartUp says what any number of turns does.
- Hsm.Hsm.Serve: the same tables at start-up.
- EventBroker.EventHandler.Run: stops where the queue would make it wait, and records what it handles; what others do meanwhile, and what the handler does while handling, are steps of EventDelivery.
- EventBroker.EventHandler.Stop: the thread is not modelled, so neither is waiting for its end.
- EventBroker.EventBroker.RunTurn: one turn after the wait; the wait itself, its wake-ups and the liveness of `stop` are not modelled, as the flag is set without the lock.
- EventBroker.EventBroker.PostDelayed: the clock is a parameter and the delay is not bounded to 32 bits.
- PipelineProof.RunInv: in the runs "operation aborted" comes only after a close, as the source's comment says; PipelineProof.AbortWhileOpenLosesItems is about the other case.
- Connection.Connection.InitWrite: resuming to read and the write timers are not part of this model.
- Connection.Connection.HandleCurrentWriteCtx: starting an operation does not throw.
- Connection.Connection.FinishHandlingCurrentWriteCtx: its reading and upgrade branches are not part of this model.
- Connection.Connection.WriteResponsePartsImpl: its branch for an upgrade request is not part of this model.
- Connection.Connection.OnRequest: reading, timeouts, upgrade and TLS are not part of this model; handler answers are separate steps, so an answer given inside the read callback of a finishing write is not covered.
- ChunkedOutput.BodyDecodes: the decoder knows neither chunk extensions nor trailers, which the builder does not emit; header text is a parameter.
- ChunkedOutput.ChunkedResponseBuilder.SendReadyData: the keep-alive attribute, which is fixed when the header is sent, is not part of this model.
- ChunkedOutput.ChunkedResponseBuilder.AppendChunk: chunks are byte strings; writable items that are files cannot be chunks in the source either.
- MultipartBody.SplitOfLegalBody: the headers inside a part are not parsed, and the boundary parameter is given rather than read from Content-Type.
- The producers for numbers, tokens, quoted strings and the other ready-made parsers over the combinators: each is a further clause.
- gphoto2 wrappers, loggers, settings, acceptor, thread pool, injector and sniffer: foreign calls and plumbing.
- http_parser, asio and threads: environment, entering as atomic steps.
- path2regex, the express router and query parsing: they rest on regular expression libraries or percent decoding.
- Overflow detection of the integer accumulators, the circular buffer and command line help: easier than what is here.
