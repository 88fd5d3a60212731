# gridmq in Dafny

A model of the C library's hard core, with proofs: the subscription trie, the request, survey
and timer state machines over the worker thread, backtrace routing through chains of devices,
ancillary data, the byte streams of connected sockets, holding and closing sockets, and the
data structures underneath. `dafny verify dfyconfig.toml` checks all of it.

## How it is organised

Each subject has two layers. One says on values what the code computes, and lemmas prove what
that is good for. The other is the code in its own form, classes with fields, arrays and linked
nodes that methods update in place and loops walk over; each method is proved equal to a
function of the first layer.

- **Trie** (`src/protocols/pubsub/trie.c`, `xsub.c`). `ChildTable` is the sparse or dense array
  behind a node, `TrieTree` what each operation makes of a tree of nodes. `TrieSubscribe`,
  `TrieUnsubscribe` and `TrieMatch` give a trie its meaning, a multiset of strings asked whether
  a member is a prefix of a message, `TrieTight` says how compact it is kept; `TrieExamples` are
  runs on which it fails. `TrieMemory`, `TrieNodes`, `TrieHeap` and `Trie` are the nodes in
  memory. `XSub` filters a queue with one.
- **State machines** (`timer.c`, `fsm.c`, `ctx.c`, `worker.c`, `req.c`, `surveyor.c`).
  `TimerModel`, `ReqModel` and `Surveyor` are steps on one state: a step is one stretch of code
  under the context mutex, or one step of the worker outside it, like popping a task or an
  expired timer. `None` is an abort. `ReqProofs` has the invariant over every run, `ReqEffects`
  and `SurveyorEffects` what a step does as seen from outside. `Timer`, `ReqSocket` and
  `SurveyorSocket` are the objects.
- **Routing** (`wire.c`, `xrep.c`, `rep.c`, `xreq.c`, `device.c`, the ancillary data of
  `global.c`). `Wire`, `Cmsg` and `Routing` on values; `XReq` and `XRep` the sockets.
- **Sockets** (`sock.c`, `global.c`). `SockModel` every interleaving of calls, endpoint events,
  `grid_term` and `grid_close`, `SockEffects` what each does to the endpoints; `Sock` and
  `Global` the objects.
- **Underneath**: `List`, `Queue`, `TimerSet`, `Hash`, `Chunk` with `ChunkRuns`, and the byte
  streams of `Usock`.

I/O, clocks and random numbers are parameters: what `recvmsg` and `sendmsg` answer, the time, the
first request id and the first pipe key. The fair queue is the sequence of messages it is going
to yield, the load balancer picks any pipe that can be written to.

## Where the code departs from what it is meant to do

Each is kept as the code has it, with the exact condition and an input that shows it.

- A node that changes between sparse and dense loses its count (`trie.c:384`, `trie.c:609`). A
  subscription or unsubscription is right exactly when the node converted has no count
  (`SubscribeExact`, `UnsubscribeExact`, over runs `RunExact`; `LossHappens`, `DropHappens`).
- `grid_trie_match` reads the bytes behind the message (`trie.c:467`). It matches wrongly exactly
  when the message ends at a node, nobody wants it, and some subscribed string extends it along
  the memory behind it (`MatchExact`; `OverreadHappens`).
- An unsubscription follows a null pointer or leaves an ill-formed trie exactly when its walk
  meets a null pointer, with data left or in a slot of a dense array (`SoundExact`, over runs
  `RunSoundExact`; `NullFollowed`, `HoleMiscounted`). Otherwise it does what unsubscribing from
  its target would do, which is another string when the data run out in front of a node
  (`UnsubscribeAny`; `WrongStringHit`), and nothing when the target is not subscribed to
  (`AbsentExact`). Then it may still answer 1, as if the string had been removed
  (`trie.h:103-105`, `AbsentUnchanged`; `NothingRemoved`).
- A node without subscribers is merged with an only child when it loses a subscriber or a
  child, but not when a subscription cuts the child's prefix short enough (`trie.c:287-302`;
  `SubscribeTight`, over runs `RunTightExact`; `LoosenHappens`).
- A message that arrives after the reply was accepted takes its place (`req.c:160`): `crecv`
  returns the accepted reply exactly when no later message was taken off the queue or the last
  one fits as well, with the same body (`DoneDelivers`; `StaleReplyClobbers`, `StaleReplyReached`).
- Options accept negative intervals that the timer does not (`req.c:310`, `surveyor.c:291`,
  `timer.c:79`): that is the one abort of those sockets (`StepInv`; `NegativeIntervalAborts`,
  `NegativeDeadlineAborts`).
- The walk over ancillary data, and the search for the SP header with it, goes on forever exactly
  when it comes back to an offset (`WalkCycleExact`, `CycleExact`): with lengths inside the
  buffer, at a property of no length (`global.c:428`, `StuckExact`; `EmptyPropertyHangs`),
  otherwise also by a length that wraps around (`LongPropertyHangs`).
- `grid_recvmsg` does not say where the list ends that it writes into a buffer of the caller. In
  one that was zero, an application's walk goes on forever exactly when sixteen bytes or more
  are left over (`LeftoverExact`).
- `grid_sendmsg` copies from outside the control buffer exactly when the SP header it finds is said
  to be longer than what is left of the buffer and the property's own length is shorter than its
  head or wraps around (`global.c:823-831`, `NoHeaderExact`; `ShortPropertyOverruns`).
- Routing back fails when a link that parses messages comes after one that does not
  (`BackRetraces`; `ParsingLinkBehind`). No transport of the library sets `GRID_PIPE_PARSED`.
- After 2^31 additions a pipe key can clash with a living one (`KeyFreeExact`; `KeyClashes`).
- References to one chunk share its size and its bytes (`chunk.c:183-205`). They all lead to the
  header and show their messages exactly as long as every trim that takes something off is by the
  only reference (`RunFaithful`). After any other trim another reference shows fewer bytes, some
  of them possibly overwritten (`OtherShows`; `TrimOverwrites`), and it does not find the header
  any more exactly when the eight bytes in front of it are partly overwritten, unless by what
  was there (`OtherReference`; `TrimDestroys`).
- The documentation lets `grid_close` work after `grid_term` (`man/grid_term.txt:24-26`); the
  code does not (`ZombieStays`). `grid_term` in the middle of a close, events of endpoints and
  pipes after `grid_term`, and an endpoint added to a socket being closed can abort (`StepInv`;
  `TermWhileStoppingCrashes`, `PipeEventAfterTermCrashes`, `LateEndpointCrashes`); without them
  nothing does (`OrderlyNeverCrashes`).

## Model

| member | source | states |
|---|---|---|
| ChildTable.GrowAt | src/protocols/pubsub/trie.c:304-402 | making room for a child, in whatever layout, keeps the array well formed and gives the new character its child and every other character the child it had |
| ChildTable.ShrinkAt | src/protocols/pubsub/trie.c:521-627 | dropping a child never fails an assertion, keeps the array well formed and changes no other character |
| ChildTable.ShrinkHole | src/protocols/pubsub/trie.c:558-627 | dropping an empty slot breaks `nbr` or fails the assertion |
| ChildTable.FirstLive | src/protocols/pubsub/trie.c:564-575 | the leftmost slot in use, to which a dense array is trimmed |
| ChildTable.LastLive | src/protocols/pubsub/trie.c:584-590 | the rightmost one |
| ChildTable.GatherChars | src/protocols/pubsub/trie.c:612-622 | the characters of the slots in use, each once |
| ChildTable.GatherAt | src/protocols/pubsub/trie.c:612-622 | each of them leads where it did |
| TrieSubscribe.CompactCount | src/protocols/pubsub/trie.c:203-234 | merging a node with its only child changes no count |
| TrieSubscribe.ChainCount | src/protocols/pubsub/trie.c:404-430 | a chain of prefixes of at most ten bytes holds exactly one string, for any length |
| TrieSubscribe.SplitCount | src/protocols/pubsub/trie.c:287-302 | splitting a prefix anywhere changes no count |
| TrieSubscribe.BranchCount | src/protocols/pubsub/trie.c:304-402 | hanging a subtree below a node adds exactly its strings |
| TrieSubscribe.SubscribeCount | src/protocols/pubsub/trie.c:236-439 | the count of every string after any subscription, and a well-formed trie |
| TrieSubscribe.LostWasCounted | src/protocols/pubsub/trie.c:376-402 | the string wiped out by a conversion had a count and is another one |
| TrieSubscribe.SubscribeExact | src/protocols/pubsub/trie.c:236-439 | one count raised and all others kept, exactly when no counted node is converted |
| TrieSubscribe.SubscribeFresh | src/protocols/pubsub/trie.c:404-438 | 1 is returned exactly for a string that had no count |
| TrieUnsubscribe.FoundEffect | src/protocols/pubsub/trie.c:629-656 | dropping one subscription at its node: one count less, removed or merged as needed |
| TrieUnsubscribe.PruneEffect | src/protocols/pubsub/trie.c:515-627 | taking an emptied child away changes no count but that of a converted node |
| TrieUnsubscribe.UnsubscribeCount | src/protocols/pubsub/trie.c:474-657 | for a subscribed string: no fault, the count of every string afterwards, 1 exactly when its own falls to zero |
| TrieUnsubscribe.DroppedWasCounted | src/protocols/pubsub/trie.c:604-627 | the string wiped out by a conversion had a count |
| TrieUnsubscribe.UnsubscribeExact | src/protocols/pubsub/trie.c:474-657 | one count lowered and all others kept, exactly when no counted node is converted |
| TrieUnsubscribe.AbsentUnchanged | src/protocols/pubsub/trie.c:479-513 | when the string the walk ends at is not subscribed to, nothing is done; the answer is -EINVAL at the root, 0 off the trie, 1 at a node below |
| TrieUnsubscribe.UnsubscribeAny | src/protocols/pubsub/trie.c:474-657 | for any string: all counts and the answer, if the walk meets no null pointer |
| TrieUnsubscribe.SoundExact | src/protocols/pubsub/trie.c:490-627 | no fault and a well-formed trie afterwards exactly when the walk meets no null pointer |
| TrieUnsubscribe.CountedIsTarget | src/protocols/pubsub/trie.c:490-512 | the walk for a string that is subscribed to meets none and ends at that string |
| TrieUnsubscribe.AbsentExact | src/protocols/pubsub/trie.c:479-513 | nothing changes exactly when the walk meets no null pointer and ends at a string that is not subscribed to |
| TrieMatch.MatchExact | src/protocols/pubsub/trie.c:441-472 | the answer is 1 exactly when a subscribed string is a prefix of the message, or the message ends at a node and a subscribed string extends it along the memory behind it |
| TrieMatch.MatchByCounts | src/protocols/pubsub/trie.c:441-472 | the answer depends on the counts alone, not on the shape of the trie |
| TrieMatch.EmptyExact | src/protocols/pubsub/trie.c:50-60 | the root is NULL exactly when no string has a count |
| TrieMatch.StepRefines | src/protocols/pubsub/trie.c:236-477 | a step without loss keeps trie and multiset together and answers whether the string entered or left |
| TrieMatch.StepExact | src/protocols/pubsub/trie.c:236-477 | the trie goes on standing for the multiset exactly when the step converts no counted node |
| TrieMatch.RunSoundExact | src/protocols/pubsub/trie.c:236-657 | a run of any subscriptions and unsubscriptions keeps the trie well formed all along, no assertion fails and no null pointer is followed, exactly when no unsubscription meets one |
| TrieMatch.RunWellFormed | src/protocols/pubsub/trie.c:236-657 | so does every run whose unsubscriptions are of counted strings, with or without losses, and the root is NULL exactly when nothing is counted |
| TrieMatch.RunRefines | src/protocols/pubsub/trie.c:236-657 | over every run without losses the trie is an index of the multiset |
| TrieMatch.RunAnswers | src/protocols/pubsub/trie.c:236-657 | from the empty trie, every answer after a run is that of the multiset |
| TrieMatch.RunExact | src/protocols/pubsub/trie.c:236-657 | a run keeps the trie an index of the multiset all along exactly when it converts no counted node |
| TrieMatch.MatchUnbounded | src/protocols/pubsub/trie.c:441-472 | once the size has wrapped, the walk finds whatever subscribed string lies in memory |
| TrieTight.UnsubscribeTight | src/protocols/pubsub/trie.c:203-234 | where no null pointer is met, an unsubscription leaves no uncounted node in front of an only child that it could be merged with |
| TrieTight.SubscribeTight | src/protocols/pubsub/trie.c:287-302 | a subscription leaves none exactly when it does not cut the prefix of an only child below an uncounted node short enough |
| TrieTight.RunTightExact | src/protocols/pubsub/trie.c:236-657 | a run leaves none all along exactly when no subscription of it does that |
| TrieTight.LoosenHappens | src/protocols/pubsub/trie.c:287-302 | a run after which a subscription does |
| TrieExamples.LossHappens | src/protocols/pubsub/trie.c:376-402 | subscriptions after which one more loses a count |
| TrieExamples.DropHappens | src/protocols/pubsub/trie.c:604-627 | subscriptions after which an unsubscription loses a count |
| TrieExamples.WrongStringHit | src/protocols/pubsub/trie.c:490-502 | a subscription after which unsubscribing from another string takes it away |
| TrieExamples.HoleMiscounted | src/protocols/pubsub/trie.c:504-602 | subscriptions after which an unsubscription leaves an ill-formed trie |
| TrieExamples.NullFollowed | src/protocols/pubsub/trie.c:493-512 | subscriptions after which an unsubscription follows a null pointer |
| TrieExamples.NothingRemoved | src/protocols/pubsub/trie.c:512-513 | subscriptions after which unsubscribing from another string answers 1 and removes nothing |
| TrieExamples.OverreadHappens | src/protocols/pubsub/trie.c:466-471 | subscriptions and a message for which the byte behind it matches |
| TrieNodes.CheckPrefix | src/protocols/pubsub/trie.c:156-170 | the loop finds the longest common prefix |
| TrieNodes.CheckMemory | src/protocols/pubsub/trie.c:156-170 | the same over memory, where the size may have wrapped: how much of the prefix matches |
| TrieNodes.Next | src/protocols/pubsub/trie.c:179-201 | the slot of a character |
| TrieNodes.AppendChild | src/protocols/pubsub/trie.c:312-323 | room in a sparse array |
| TrieNodes.WidenChildren | src/protocols/pubsub/trie.c:326-359 | room in a dense array, moved as needed |
| TrieNodes.SparseToDense | src/protocols/pubsub/trie.c:362-402 | the same children in a dense array; the count is gone |
| TrieNodes.BuildChain | src/protocols/pubsub/trie.c:404-430 | the loop that builds a chain of nodes |
| TrieNodes.RemoveSparse | src/protocols/pubsub/trie.c:521-542 | a child less in a sparse array |
| TrieNodes.TrimDense | src/protocols/pubsub/trie.c:558-602 | a child less in a dense array, trimmed on the left or right |
| TrieNodes.DenseToSparse | src/protocols/pubsub/trie.c:604-627 | the remaining children in a sparse array; the count is gone |
| TrieHeap.Compact | src/protocols/pubsub/trie.c:203-234 | merging in memory, equal to the function on trees |
| TrieHeap.SplitNode | src/protocols/pubsub/trie.c:287-302 | splitting in memory |
| TrieHeap.AddBranch | src/protocols/pubsub/trie.c:304-438 | branching in memory |
| TrieHeap.Splice | src/protocols/pubsub/trie.c:236-302 | storing a new node through the slot that the walk came by replaces that subtree and nothing else |
| Trie.Trie.Subscribe | src/protocols/pubsub/trie.c:236-439 | the descent loop and the update at its end make of the nodes in memory what the function makes of the tree |
| Trie.Trie.Unsubscribe | src/protocols/pubsub/trie.c:474-657 | the same for the recursive removal, wherever it does not fault |
| Trie.Trie.Match | src/protocols/pubsub/trie.c:441-472 | the cursor loop answers as the function does |
| XSub.FirstAcceptedIs | src/protocols/pubsub/xsub.c:162-186 | what is received is the first message that a subscription is a prefix of or whose walk runs off its end; all in front of it are wanted by nobody |
| XSub.XSub.Subscribe | src/protocols/pubsub/xsub.c:188-203 | a subscription reaches the trie |
| XSub.XSub.Unsubscribe | src/protocols/pubsub/xsub.c:206-211 | and so does its end, wherever the trie does not fault |
| XSub.XSub.Recv | src/protocols/pubsub/xsub.c:162-186 | the loop drops exactly the messages in front of the first accepted one |
| TimerModel.StartInv | src/aio/timer.c:76-83 | starting fails an assertion exactly when the interval is negative or the timer not idle |
| TimerModel.StopInv | src/aio/timer.c:85-88 | stopping never fails, whether or not the start task has run or the timeout was popped |
| TimerModel.WorkInv | src/aio/worker.c:158-254 | no step of the worker fails an assertion; STOPPED and TIMEOUT are raised exactly where they should be; a running timer goes on ticking, with the interval it was started with |
| TimerModel.LiveInv | src/aio/timer.c:90-177 | a step of the owner, the worker or an event keeps the protocol between them |
| TimerModel.LivesWell | src/aio/timer.c:76-177 | in every run nothing is queued twice, the owner sees start, at most one timeout, stop, stopped, over and over, and until it fires the timer ticks with the interval of its last start |
| TimerModel.LivesFromInit | src/aio/timer.c:45-88 | and when it sees stopped, nothing of that arming is left anywhere |
| TimerModel.StoppingProgress | src/aio/worker.c:182-242 | a stop is always answered, after a bounded number of worker steps |
| TimerModel.FiringProgress | src/aio/worker.c:182-242 | a started timer that is left alone fires, after a bounded number of worker steps |
| Timer.TimerObject.Start | src/aio/timer.c:76-83 | the method is the step |
| Timer.TimerObject.Stop | src/aio/timer.c:85-88 | the method is the step |
| Timer.TimerObject.Feed | src/aio/fsm.c:69-76 | the method is the step, through handler and shutdown |
| Timer.TimerObject.Work | src/aio/worker.c:182-242 | a step of the worker in any state of the invariant |
| Timer.TimerObject.RunBatch | src/aio/worker.c:216-242 | the loop over a batch runs it in order up to the next event |
| ReqProofs.SendInv | src/protocols/reqrep/req.c:621-653 | sending aborts exactly when a pipe is there and the interval is negative |
| ReqProofs.InInv | src/protocols/reqrep/req.c:146-201 | the loop over arrived messages reaches no abort |
| ReqProofs.WorkerInv | src/protocols/reqrep/req.c:361-615 | nor does a worker step with the events it raises, but for a negative interval |
| ReqProofs.StepInv | src/protocols/reqrep/req.c:338-653 | every step keeps the timer running exactly in ACTIVE, stopping and idle where it should be, and `sent_to` set exactly in ACTIVE; it aborts exactly when it starts the timer with a negative interval |
| ReqProofs.RunSafe | src/protocols/reqrep/req.c:338-653 | so does every run of calls, pipe events, worker steps and a stop |
| ReqProofs.DoneDelivers | src/protocols/reqrep/req.c:241-295 | DONE is entered only with a reply to the latest request, and when `crecv` returns it |
| ReqProofs.StaleReplyClobbers | src/protocols/reqrep/req.c:157-186 | in DONE a message that does not fit releases the accepted reply, and crecv returns it |
| ReqProofs.StaleReplyReached | src/protocols/reqrep/req.c:157-186 | a run from the start that ends so |
| ReqProofs.ShutdownProgress | src/protocols/reqrep/req.c:338-359 | a shutdown from any state reports stopped exactly once, after a bounded number of worker steps |
| ReqProofs.NegativeIntervalAborts | src/protocols/reqrep/req.c:307-312 | a run that sends with a negative interval aborts |
| ReqEffects.StepEffects | src/protocols/reqrep/req.c:241-264 | what each step does to the id, the request, the messages sent, the pipes and the interval: only the latest body of the application is sent, to the pipe that was picked |
| ReqEffects.InTakes | src/protocols/reqrep/req.c:146-201 | which messages an arrival takes off the queue, and which of them becomes the reply |
| ReqEffects.StateAfter | src/protocols/reqrep/req.c:361-615 | the state after each step |
| ReqEffects.RunRequests | src/protocols/reqrep/req.c:241-295 | after every run, -EFSM exactly when no reply is owed, -EAGAIN until it is there, and what is sent is the latest request |
| ReqEffects.ResendProgress | src/protocols/reqrep/req.c:621-653 | a request is sent again, after a bounded number of worker steps, until its reply comes |
| ReqSocket.ReqSocket.CSend | src/protocols/reqrep/req.c:241-264 | the method is the step and reaches no abort |
| ReqSocket.ReqSocket.CRecv | src/protocols/reqrep/req.c:273-295 | the method is the step, with its result |
| ReqSocket.ReqSocket.PipeIn | src/protocols/reqrep/req.c:146-201 | the method, with its loop, is the step |
| ReqSocket.ReqSocket.PipeOut | src/protocols/reqrep/req.c:203-215 | the method is the step |
| ReqSocket.ReqSocket.PipeRm | src/protocols/reqrep/req.c:667-676 | the method is the step |
| ReqSocket.ReqSocket.StopSocket | src/protocols/reqrep/req.c:119-126 | the method is the step |
| ReqSocket.ReqSocket.Drain | src/aio/ctx.c:51-64 | the loop that drains the events is the recursive one of the model |
| ReqSocket.ReqSocket.Work | src/protocols/reqrep/req.c:361-615 | a worker step and what the socket does about it |
| Surveyor.StepInv | src/protocols/survey/surveyor.c:319-502 | every step keeps the invariant; it aborts exactly when it starts the timer with a negative deadline |
| Surveyor.RunSafe | src/protocols/survey/surveyor.c:195-502 | no run reaches an abort, and -ETIMEDOUT is returned at most once per expired survey |
| Surveyor.SearchFinds | src/protocols/survey/surveyor.c:253-273 | the first response with the id and nothing else in its header, if no malformed one comes before it; what is in front of it is gone, or everything up to the malformed one |
| Surveyor.RecvAnswers | src/protocols/survey/surveyor.c:236-276 | when recv returns -ETIMEDOUT, when -EFSM, when which response, and what is left of the queue |
| Surveyor.ShutdownProgress | src/protocols/survey/surveyor.c:319-340 | a stop is reported once, after a bounded number of worker steps |
| Surveyor.NegativeDeadlineAborts | src/protocols/survey/surveyor.c:288-293 | a survey with a negative deadline aborts |
| SurveyorEffects.StepEffects | src/protocols/survey/surveyor.c:195-276 | what each step does to the id, the survey, what is sent, the queue and what is remembered of an expiry |
| SurveyorEffects.StateAfter | src/protocols/survey/surveyor.c:342-492 | the state after each step |
| SurveyorEffects.SurveyProgress | src/protocols/survey/surveyor.c:342-492 | a survey ends, and a newer one is sent, after a bounded number of worker steps |
| SurveyorSocket.SurveyorSocket.Send | src/protocols/survey/surveyor.c:195-234 | the method is the step |
| SurveyorSocket.SurveyorSocket.Recv | src/protocols/survey/surveyor.c:236-276 | the method, with its loop, is the step |
| SurveyorSocket.SurveyorSocket.StopSocket | src/protocols/survey/surveyor.c:150-157 | the method is the step |
| SurveyorSocket.SurveyorSocket.Work | src/protocols/survey/surveyor.c:342-492 | a worker step and what the socket does about it |
| Wire.GetPut | src/utils/wire.c:38-52 | reading what was written |
| Wire.PutGet | src/utils/wire.c:38-52 | writing what was read |
| Wire.WriteL | src/utils/wire.c:46-52 | writing into a buffer changes four bytes, and they read as the word |
| Cmsg.ForeverMeans | src/core/global.c:818-837 | the search is said to go on forever exactly when no number of moves ends it |
| Cmsg.CycleExact | src/core/global.c:397-440 | for any buffer, it does so exactly when the walk comes back to an offset |
| Cmsg.StuckExact | src/core/global.c:425-437 | with lengths inside the buffer, that is exactly at a property of no length |
| Cmsg.EmptyPropertyHangs | src/core/global.c:428-429 | a buffer with a property of no length |
| Cmsg.LongPropertyHangs | src/core/global.c:428-437 | a buffer with two properties of which the second leads back to the first |
| Cmsg.NoHeaderExact | src/core/global.c:819-837 | when sendmsg does not end or copies from outside the buffer |
| Cmsg.ShortPropertyOverruns | src/core/global.c:823-831 | a buffer from outside of which sendmsg copies |
| Cmsg.HeaderRoundTrip | src/core/global.c:818-837 | for an SP header of any length and whatever follows, sendmsg finds the header that recvmsg wrote |
| Cmsg.ControlledCarries | src/core/global.c:935-982 | in any buffer with room for it, truncated properties or not |
| Cmsg.FillControl | src/core/global.c:942-982 | filling in the buffer in place |
| Cmsg.TakeHeader | src/core/global.c:818-837 | the loop of sendmsg, on any buffer |
| Cmsg.WalkCycleExact | src/core/global.c:397-440 | over any buffer the walk goes on forever exactly when it comes back to an offset |
| Cmsg.WalkVisitsAll | src/core/global.c:397-440 | over any list of properties (section 20.3 of RFC 3542) the walk visits each once, in order, and ends behind the last |
| Cmsg.WalkReceived | src/core/global.c:935-982 | over what recvmsg fills in, it visits the SP header and then each property there is room for, and ends at the first that was cut off |
| Cmsg.LeftoverExact | src/core/global.c:425-437 | over a larger buffer of zeros it ends exactly when less than a head is left over |
| Cmsg.SearchFindsFirst | src/core/global.c:818-837 | in any list, sendmsg finds the first SP_HDR property, if there is one |
| Routing.SplitUndoes | src/protocols/reqrep/xrep.c:208-238 | splitting at the first word with its top bit set undoes concatenation exactly when the header is a stack of keys above an id |
| Routing.ScanFound | src/protocols/reqrep/xrep.c:210-228 | the scan finds the first such word, and gives up exactly when there is none |
| Routing.ReceivePushes | src/protocols/reqrep/xrep.c:191-249 | a hop makes of the wire bytes its key and the wire bytes |
| Routing.ReceiveExact | src/protocols/reqrep/xrep.c:191-249 | a request is dropped exactly when no word of it has its top bit set; otherwise its header ends at the first such word |
| Routing.PushKeepsStack | src/protocols/reqrep/xrep.c:240-248 | a key on a stack is a stack |
| Routing.SendPops | src/protocols/reqrep/xrep.c:154-189 | the reply's hop takes off exactly that key and goes to its pipe, if that is there and writable |
| Routing.MoveKeeps | src/devices/device.c:287-320 | a device hands a message on unchanged, header and body, through the ancillary data |
| Routing.ForwardCollects | src/protocols/reqrep/xrep.c:191-249 | over any number of hops the request collects their keys and keeps its body |
| Routing.BackCut | src/protocols/reqrep/xreq.c:178-205 | the way back behind a link that does not parse |
| Routing.BackRetraces | src/protocols/reqrep/xrep.c:154-189 | the reply comes back with the request's header and its own body exactly when every pipe is still there and no parsing link follows one that does not parse |
| Routing.ParsingLinkBehind | src/protocols/reqrep/xreq.c:191-202 | two hops on which a reply does not come back |
| Routing.EndToEnd | src/devices/device.c:287-320 | request and reply together, over any chain of devices |
| Routing.EndToEndUnparsed | src/protocols/reqrep/xreq.c:191-202 | with the library's own transports the pipes alone decide |
| XReq.XReq.Recv | src/protocols/reqrep/xreq.c:178-205 | four bytes become the header and the wire bytes stay the same |
| XRep.XRep.KeyFreeExact | src/utils/hash.c:98-101 | the assertion against a duplicate key holds exactly when no pipe is left from a multiple of 2^31 additions ago |
| XRep.KeyClashes | src/protocols/reqrep/xrep.c:102-104 | a socket whose next key is taken |
| XRep.XRep.AsStage | src/protocols/reqrep/xrep.c:86-112 | the pipes of a socket are stages of a chain, ready exactly when writable |
| XRep.XRep.Add | src/protocols/reqrep/xrep.c:86-112 | a new pipe gets the next key; keys and pipes stay one to one |
| XRep.XRep.Rm | src/protocols/reqrep/xrep.c:114-127 | a pipe goes with its key and its messages, and nothing else does; the order of the other messages stays |
| XRep.XRep.Recv | src/protocols/reqrep/xrep.c:191-249 | the scanning loop receives as the function does |
| XRep.XRep.Send | src/protocols/reqrep/xrep.c:154-189 | the reply goes where the function says or is dropped |
| XRep.Rep.Recv | src/protocols/reqrep/rep.c:117-142 | a new request, or none, forgets the one before; its backtrace is kept from the application |
| XRep.Rep.Send | src/protocols/reqrep/rep.c:92-115 | one reply a request, -EFSM otherwise; it goes to the pipe the request came by, unless 2^31 pipes were added, and only that pipe may become unwritable |
| SockModel.StepInv | src/core/sock.c:869-1078 | every step aborts exactly in the cases listed and otherwise keeps every endpoint in one of eps, sdeps and destroyed, holds and semaphore posts as they should be |
| SockModel.RunInv | src/core/sock.c:869-1078 | so does every run |
| SockModel.OrderlyNeverCrashes | src/core/sock.c:512-580 | without grid_term and late endpoints no interleaving aborts, and the protocol part stops only when both lists are empty |
| SockModel.SemaphoresMeaning | src/core/sock.c:213-248 | each semaphore is posted at most once, the release one only when no call holds the socket |
| SockModel.NoHoldAfter | src/core/sock.c:1171-1186 | no hold is granted after stop or grid_term |
| SockModel.ZombieStays | src/core/global.c:518-530 | a socket that grid_term finds open is never closed |
| SockModel.ClosingProgress | src/core/sock.c:213-260 | closing is never stuck: something can always go on and brings it nearer to the end, and nothing that happens takes it away from there |
| SockModel.PipeEventAfterTermCrashes | src/core/sock.c:1046-1047 | a binding, grid_term and one event of a pipe |
| SockModel.LateEndpointCrashes | src/core/sock.c:512-542 | an interleaving of two bindings and a close in which the second endpoint aborts the close |
| SockModel.TermWhileStoppingCrashes | src/core/sock.c:933-937 | one in which grid_term does |
| SockEffects.EndpointsAfter | src/core/sock.c:512-580 | where each endpoint is after a step |
| SockEffects.HoldAnswers | src/core/sock.c:1171-1186 | a hold is granted exactly by a socket that is in use; ETERM exactly after grid_term |
| SockEffects.PhaseAfter | src/core/sock.c:869-960 | the phase after a step, the calls in progress, and what is freed |
| Sock.SockObject.Hold | src/core/sock.c:1171-1186 | the method is the step |
| Sock.SockObject.Rele | src/core/sock.c:1188-1194 | the method is the step |
| Sock.SockObject.AddEp | src/core/sock.c:512-542 | the method is the step, and the id is new; a failing endpoint changes nothing |
| Sock.SockObject.RmEp | src/core/sock.c:544-580 | the method, with its search, is the step |
| Sock.SockObject.EpStopped | src/core/sock.c:905-932 | the method is the step |
| Sock.SockObject.Close | src/core/global.c:518-541 | the method, which moves the endpoints one by one, is the step |
| Global.Global.Create | src/core/global.c:442-486 | a descriptor that is not in use, or exactly one of the four failures, with nothing changed |
| Global.Global.Remove | src/core/global.c:553-559 | that descriptor, and no other, can be handed out again |
| List.List.Insert | src/utils/list.c:72-87 | rewiring puts the item exactly there |
| List.List.Erase | src/utils/list.c:89-111 | rewiring takes exactly that item out |
| Queue.Queue.Push | src/utils/queue.c:45-55 | behind the last |
| Queue.Queue.Pop | src/utils/queue.c:81-93 | the first, or none |
| Queue.Queue.Remove | src/utils/queue.c:57-79 | that item out of the middle; an item of another queue is left alone |
| TimerSet.TimerSet.Add | src/aio/timerset.c:41-65 | sorted by deadline, behind equal ones; 1 exactly when the head changes |
| TimerSet.TimerSet.Rm | src/aio/timerset.c:67-80 | exactly that handle, 1 exactly when the head changes |
| TimerSet.TimerSet.Timeout | src/aio/timerset.c:82-92 | how long to wait for the head, -1 for none, cast to an int as the code does |
| TimerSet.TimerSet.Event | src/aio/timerset.c:94-113 | the earliest handle and only once it is due; none is lost |
| Hash.DoubleFits | src/utils/hash.c:108-111 | doubling below the limit does not overflow |
| Hash.AddAgrees | src/utils/hash.c:96-106 | an item more, in the slot of its key |
| Hash.RemoveAgrees | src/utils/hash.c:114-121 | an item less, from the slot of its key |
| Hash.HashTable.Get | src/utils/hash.c:123-140 | the item of the map, or NULL |
| Hash.HashTable.Insert | src/utils/hash.c:90-112 | the map with the item added, under any hash function; at most half full below 2^31 slots |
| Hash.HashTable.Erase | src/utils/hash.c:114-121 | the map without the item |
| Hash.HashTable.Rehash | src/utils/hash.c:55-87 | the loops lose and duplicate nothing |
| Chunk.TaggedRecovers | src/utils/chunk.c:183-216 | the header is found again from a trimmed data pointer |
| Chunk.OtherReference | src/utils/chunk.c:183-216 | after a trim another reference finds the header exactly when its eight bytes in front were not overwritten, or with what was there |
| ChunkRuns.RunCounted | src/utils/chunk.c:146-175 | after every run the count is that of the references there are and the copies promised, and the chunk is freed exactly when there are none |
| ChunkRuns.StepReferences | src/utils/chunkref.c:67-155 | which references each step makes and ends, what it promises, when it aborts; what was freed is not found again |
| ChunkRuns.StepFaithful | src/utils/chunkref.c:67-155 | a step keeps all references leading to the header and showing what inline ones would, exactly when it is no trim, one by nothing, or one by the only reference |
| ChunkRuns.RunFaithful | src/utils/chunkref.c:42-155 | so does every run of copies, bulk copies, moves, trims and terminations |
| ChunkRuns.OtherShows | src/utils/chunk.c:183-205 | how many and which bytes another reference shows after a trim |
| ChunkRuns.TrimOverwrites | src/utils/chunk.c:183-205 | a trim that overwrites the message of another reference |
| ChunkRuns.TrimDestroys | src/utils/chunk.c:183-216 | a trim after which another reference cannot be terminated |
| Chunk.ChunkObject.Trim | src/utils/chunk.c:183-205 | the visible bytes are the matching suffix, and what the trim writes |
| Chunk.ChunkObject.Free | src/utils/chunk.c:146-166 | freed exactly when neither a reference nor a bare pointer is left |
| Chunk.ChunkRef.Trim | src/utils/chunkref.c:127-140 | inline and heap messages are trimmed alike, and what becomes of the chunk |
| Chunk.ChunkRef.GetChunk | src/utils/chunkref.c:77-94 | the same bytes as a chunk that the reference does not own any more |
| Chunk.ChunkRef.CopyTo | src/utils/chunkref.c:102-111 | the same bytes, and both own the chunk |
| Chunk.ChunkRef.MoveTo | src/utils/chunkref.c:96-100 | the same bytes, owned by the destination instead of the source |
| Chunk.ChunkRef.BulkStart | src/utils/chunkref.c:142-150 | that many copies promised |
| Chunk.ChunkRef.BulkCopyTo | src/utils/chunkref.c:152-155 | the same bytes by one of the promised copies |
| Chunk.ChunkRef.Term | src/utils/chunkref.c:67-75 | the reference is gone, and the chunk exactly with the last one |
| Usock.In.RecvRaw | src/aio/usock.c:1051-1176 | the caller gets, in order, what was in the batch buffer and what the kernel returned; the rest is kept; a file descriptor is handed over or closed |
| Usock.In.Recv | src/aio/usock.c:456-486 | RECEIVED exactly when the request is filled, with the latest bytes of the stream |
| Usock.In.HandleIn | src/aio/usock.c:762-776 | the same in the background |
| Usock.FreshExact | src/aio/usock.c:1070-1090 | when the kernel is asked, and how much is taken from it |
| Usock.FdExact | src/aio/usock.c:1122-1154 | a descriptor is handed over once or closed |
| Usock.Out.SendRaw | src/aio/usock.c:1005-1049 | what remains is the old rest without the bytes written; 0 exactly when nothing does |
| Usock.Out.Send | src/aio/usock.c:413-454 | exactly the bytes of the buffers that are not empty, in order |
| Usock.Out.HandleOut | src/aio/usock.c:777-788 | the same in the background |

## Left out

- Overflow of a 32-bit count and failed allocations in the trie: counts are unbounded.
- Identity of reallocated nodes in the trie: a converted node is a new one, the old one is garbage.
- The bodies of the load balancer and the fair queue, and the transports: only what their callers rely on.
- The hash function (`src/utils/hash.c:142-153`): any function will do.
- Hash.HashTable.Insert: a slot holds the sequence of items that its list stands for; the linking is proved in List.
- Cmsg.NoHeaderExact: buffers of less than half the address space, which is all there are.
- Routing.EndToEnd: headers and other properties have to fit in `size_t`.
- Timer.TimerObject.RunBatch: one timer's part of the worker's queue, not other owners' tasks nor the stop of the worker itself.
- The device's polling of two sockets and its endless loops: one forwarding is modelled, and chains of them.
- SockModel.StepInv: pipe events occur only while there is an endpoint, each endpoint reports its stop once, and the protocol part does so after it was asked.
- Sending, receiving and polling with timeouts on a socket, its options, statistics and error reports.
- grid_chunk_realloc, whose treatment of trimmed chunks is unclear.
- Respondent sockets, pair, push, pull, pub and bus: the same routing or mere delegation.
- The connect, listen and accept states of `usock.c`, the poller and the threads.
