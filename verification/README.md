# aimee module bus and sandbox policy: a verified model

This project models three parts of the aimee server and proves what they promise.

- **The module bus** (`server-go/bus/`). Two processes share a memory mapping that holds a
  single-producer/single-consumer ring with wrapping 64-bit indices. A client writes 64-byte frames
  with inline payloads into ring slots; a 40-byte envelope in front of a payload makes it a fragment of
  a request or of a result. A caller cuts a request into fragments and puts the reply together again; a
  serving process collects fragments per correlation, runs handlers concurrently, and answers.
- **The learned-toolchain parser and store** (`server-go/modules/sandbox/sandbox.go`). A tokenizer and a
  nested-loop parser find the package names a shell command installs through apt; a capped, deduplicated
  list per project is kept in one document.
- **The package proxy's request policy** (`server-go/modules/sandbox/proxy_policy.go`). A classifier for
  authority-form, absolute-form and origin-form request lines (sections 3.2.1 to 3.2.3 of RFC 9112), and a
  head rewriter that removes hop-by-hop fields (section 7.6.1 of RFC 9110).

## How the model is built

| file | what it holds |
|---|---|
| `Bytes`, `Bits`, `Text`, `Sequences` | little-endian fields, masks and wrapping indices, string searches, lists of parts |
| `Wire`, `ModuleProtocol` | the two codecs: a value, its bytes, and the in-place encoders |
| `Ring` | attach geometry, and the class `SharedRing` over a shared byte array |
| `RingProtocol` | the ring as a system of single atomic loads and stores of both sides |
| `RingSteps` | the class is an instance of the step system, operation by operation |
| `Client` | the class `Client`: `emit` with its public senders, and `Poll` with its pinned slot |
| `ClientOrder` | what one client emits is what the other polls, call by call and step by step |
| `Rpc` | fragments of a message, and the narrow outbound surface both ends use |
| `ModuleCaller` | the class that sends a request and waits for its reply |
| `ModuleRuntime` | the serving process as a step system, and the class `Process` whose methods take its steps |
| `RuntimeSafety` | what every run of that system keeps |
| `RuntimeHistory` | a run told from its steps: which cancels reach which job, what each job is answered, why a frame is refused |
| `EndToEnd` | one call through caller, FIFO host, process and back, over runs of the step system |
| `Service` | the process and the caller as objects, driven from outside |
| `BusCall` | the outbound surface is a client over a ring, and one call over two rings and a host each way |
| `CallSequence` | calls of one caller, one after another, over one inbound stream |
| `AptTokens`, `AptParser`, `AptLaws` | the tokenizer and parser loops, the automaton they compute, and its laws |
| `AptInstall` | what is found in commands written out word by word: flags, options, pins, sudo, assignments |
| `LearnedStore`, `LearnedLaws` | the class `Store`, and laws over histories of calls |
| `ProxyRequest`, `ProxyHead`, `ProxyLaws` | the classifier, the rewriter, and what forwarding preserves |
| `ProxyFields` | which fields arrive, told from the characters of the head alone |

Code that changes state is a class whose methods are proved against functions of the old state; the laws are
lemmas about those functions. The host that connects the two rings is not part of the repository: it is
taken to forward kind, correlation, flags and payload unchanged and in order. Time, cancellation and the
answers of the bus are inputs of each step, so every theorem holds for all of them. Integer widths are
written out: `u16`, `u32` and `u64` are ranges, and each place where the source wraps says so.

## Where the source does less than it seems to promise

For each of these a lemma gives the exact condition under which the promise holds, and another an input for
which it does not.

- The request-length guard of `Call` compares a 32-bit truncation of the length: `ModuleCaller.GuardIsLimitIff`
  (a length of 2^32 passes).
- A document above the size a read accepts is still written, and then reads as empty for every project:
  `LearnedLaws.LearnedIsReadBack` and `LearnedLaws.ObserveAcrossIff`, whose condition is on the store before the
  call; `LearnedLaws.LongRootIsLost` (the first package of a project whose root is longer than the limit).
- Above the retention limit, which names a project keeps depends on their order: `LearnedLaws.OrderMattersIff`,
  `LearnedLaws.OneTooMany` (129 names).
- A last header line without its newline, if it is kept, swallows `Connection: close`: `ProxyLaws.ForwardedLines`,
  `ProxyLaws.UnendedLineIsGlued`.
- A head that classifies as absolute-form can still be unrewritable: `ProxyLaws.TargetSplits`,
  `ProxyLaws.UnendedIsNotRewritten`.
- `Poll` bounds an inline payload by its wrapped 64-bit end: `Client.DeliversWholeIff` says when the payload
  arrives whole, `Client.FaultExample` gives a valid frame for which the slice is out of range, and
  `Client.PlacedNeverFaults` shows that the placement rules are enough.

Wrapping 64-bit indices name the right slot only because the capacity divides 2^64 (`Bits.WrapSafeIff`), which
attach guarantees.

## Model

| member | source | states |
|---|---|---|
| `Bits.PowerOfTwoTest` | server-go/bus/ring.go:58-61 | the check c & (c-1) == 0 holds of exactly the powers of two |
| `Bits.MaskIsMod` | server-go/bus/ring.go:88-91 | masking an index with 2^k - 1 is reducing it modulo 2^k, for every index |
| `Bits.WrapSafeIff` | server-go/bus/ring.go:88-91 | wrapping indices modulo 2^64 keeps every slot position if and only if the capacity divides 2^64 |
| `Bits.WrappedDistance` | server-go/bus/ring.go:84-86 | head - tail in 64-bit arithmetic is the true distance of the unwrapped counters |
| `Ring.AttachedSlotsInside` | server-go/bus/ring.go:46-91 | in every geometry attach accepts, the slot of an index stands at 192 plus the index modulo the capacity times the slot size, inside the mapping and behind the header, and the size product fits a signed 64-bit int |
| `Ring.SlotsDisjoint` | server-go/bus/ring.go:88-91 | slots of indices less than the capacity apart do not overlap |
| `Ring.Init` | server-go/bus/ring.go:130-149 | succeeds exactly on a legal geometry that fits; then the ring attaches empty, its slots are zero and bytes past it untouched; a refusal changes nothing |
| `Ring.EmptyRingAttaches` | server-go/bus/ring.go:141-148 | the header written by the initializer passes every check of attach with the geometry asked for |
| `Ring.AttachIff` | server-go/bus/ring.go:46-75 | attach adopts a mapping as a ring exactly when the header bytes of that ring stand at their offsets and the slots fit behind them |
| `Ring.SharedRing.constructor` | server-go/bus/ring.go:71-74 | an attached ring is valid and keeps the indices found in the mapping |
| `Ring.SharedRing.Count` | server-go/bus/ring.go:84-86 | the snapshot is the number of queued slots |
| `Ring.SharedRing.ProduceBegin` | server-go/bus/ring.go:96-103 | offers the slot at the head, inside the mapping, exactly when the queue is below capacity |
| `Ring.SharedRing.ProduceCommit` | server-go/bus/ring.go:106-109 | appends the slot at the head to the queue, changes nothing else in it, and advances the head by one modulo 2^64 |
| `Ring.SharedRing.ConsumeBegin` | server-go/bus/ring.go:113-120 | offers the oldest committed slot exactly when there is one |
| `Ring.SharedRing.ConsumeCommit` | server-go/bus/ring.go:123-126 | removes the oldest slot from the queue and advances the tail by one modulo 2^64 |
| `RingProtocol.StepRefinesQueue` | server-go/bus/ring.go:96-126 | every single atomic load or store of either side, and a producer giving up a begun slot, keeps the invariant and refines a FIFO queue bounded by the capacity |
| `RingProtocol.BeginOutcomes` | server-go/bus/ring.go:96-120 | a begin that saw a possibly stale index still answers full or empty only in agreement with the queue |
| `RingProtocol.ReadIsOldestAndDisjoint` | server-go/bus/ring.go:96-126 | the slot being read is the oldest committed one and never the slot being written |
| `RingProtocol.RunIsFifo` | server-go/bus/ring.go:84-126 | over every interleaving of steps: what was consumed is a prefix of what was produced, the queue is the rest, and head - tail modulo 2^64 is its length |
| `RingProtocol.ReadSlotIsStable` | server-go/bus/ring.go:111-120 | a slot handed to the reader keeps its value through any number of producer steps |
| `RingProtocol.InvisibleUntilCommit` | server-go/bus/ring.go:93-109 | until a commit store, whatever else both sides do, the head stays, everything released was committed before, and the slot a reader holds is a committed one and not the one being written |
| `RingSteps.AttachedIsState` | server-go/bus/ring.go:71-86 | any valid ring, with whatever it holds, shows a state in which the step system's invariant holds and whose queue is the ring's contents |
| `RingSteps.ShownQueue` | server-go/bus/ring.go:84-91 | in every state a ring shows, the slots between its indices are the state's queue |
| `RingSteps.ProduceBegin` | server-go/bus/ring.go:96-103 | beginning a write is the producer's two loads, with their outcome |
| `RingSteps.WriteSlot` | server-go/bus/ring.go:93-102 | filling the begun slot is one write step: one entry of the slot table changes |
| `RingSteps.Abandoning` | server-go/bus/client.go:212-214 | an emit that cannot encode gives up its begun slot: the ring shows the state with the producer idle again and the same queue |
| `RingSteps.ProduceCommit` | server-go/bus/ring.go:106-109 | committing is the load and the store of the head, and appends the written slot |
| `RingSteps.ConsumeBegin` | server-go/bus/ring.go:113-120 | beginning a read is the consumer's two loads, and offers the slot the reader then holds |
| `RingSteps.ConsumeCommit` | server-go/bus/ring.go:123-126 | releasing is the load and the store of the tail, and drops the oldest slot |
| `Wire.ParseOfHeader` | server-go/bus/wire.go:164-213 | decoding the fields of an encoded header gives the frame back |
| `Wire.HeaderOfParse` | server-go/bus/wire.go:164-213 | encoding the fields of a header gives its 64 bytes back |
| `Wire.DecodeIff` | server-go/bus/wire.go:114-218 | decode returns a frame if and only if it is valid and the first 64 bytes are its header |
| `Wire.Encode` | server-go/bus/wire.go:164-189 | writes exactly the header bytes of a valid frame, or leaves the buffer untouched |
| `Wire.ValidIff` | server-go/bus/wire.go:114-158 | a frame is valid if and only if its version is 3 and its flags are one pattern, at most one placement, the control bit or not, and FMore where allowed, all in literal bits, with the payload, generation and correlation that these call for |
| `Wire.WhyRejected` | server-go/bus/wire.go:114-158 | which of its rules an invalid frame breaks first: the version, the payload length or reference, the correlation alone, or else the flags |
| `Wire.WhyNotDecoded` | server-go/bus/wire.go:193-216 | decoding fails as short exactly below 64 bytes, as unmarked exactly without the magic letters, and else with the reason the frame it spells is invalid |
| `Wire.HeaderLayout` | server-go/bus/wire.go:175-187 | each field stands at its literal offset in little-endian order, behind the magic letters |
| `ModuleProtocol.HeaderOfParse` | server-go/bus/module_protocol.go:58-90 | encoding the parsed envelope gives its 40 bytes back |
| `ModuleProtocol.DecodeIff` | server-go/bus/module_protocol.go:48-95 | an envelope decodes if and only if it is valid, its header stands in front, and its body is there |
| `ModuleProtocol.EnvelopeRoundTrip` | server-go/bus/module_protocol.go:58-95 | header plus body decodes to that message and that body |
| `ModuleProtocol.Encode` | server-go/bus/module_protocol.go:58-74 | refuses a short buffer or an invalid message untouched, and otherwise writes exactly its header |
| `ModuleProtocol.HeaderLayout` | server-go/bus/module_protocol.go:58-74 | each field of the envelope stands at its literal offset |
| `Client.BuiltFramesArePlaced` | server-go/bus/client.go:203-211 | every frame the public senders build that fits a slot passes validation and the placement check, without wrap-around |
| `Client.SendableOutcome` | server-go/bus/client.go:188-220 | for those senders each error occurs exactly when its cause does and no earlier one does: not attached, too large for the budget or slot, the epoch, no room; encoding never fails |
| `Client.PlacedNeverFaults` | server-go/bus/client.go:299-302 | within the placement rules the payload slice of a poll is in range and is the whole payload |
| `Client.DeliversWholeIff` | server-go/bus/client.go:299-302 | a valid inline payload is delivered whole, byte for byte, if and only if its unwrapped end lies in the slot, and the slice is out of range if and only if the end lies between 2^64 and 2^64 plus the slot size |
| `Client.DeliversNone` | server-go/bus/client.go:299-302 | a frame that is not inline, or whose end lies outside the slot and does not fault, is delivered without payload |
| `Client.FaultExample` | server-go/bus/client.go:299-302 | in every slot size there is a slot with a valid inline frame of two payload bytes whose slice is out of range |
| `Client.BuiltSlotDelivers` | server-go/bus/client.go:290-304 | a slot that holds the header of a built frame and its payload delivers exactly both |
| `Client.Client.Emit` | server-go/bus/client.go:188-220 | which error in which order; on success one more queued slot that delivers exactly this frame and payload; on failure the queue is as before |
| `Client.SentBytes` | server-go/bus/client.go:203-217 | the bytes an emit leaves in the slot, offset by offset: magic, flags with FInline for a payload, version, kind, correlation, handle, reference, length, and the payload behind the header |
| `Client.Client.Publish` | server-go/bus/client.go:223-225 | queues a notification without correlation exactly when emit succeeds, with emit's error otherwise and nothing changed |
| `Client.Client.Fragment` | server-go/bus/client.go:234-267 | queues one request or reply fragment with FMore exactly as asked; correlation 0 and an empty fragment with more to come are refused, anything else has emit's outcome, and no failure changes anything |
| `Client.Client.Cancel` | server-go/bus/client.go:270-275 | queues an empty cancel frame; correlation 0 is refused, anything else has emit's outcome |
| `Client.Client.Poll` | server-go/bus/client.go:279-305 | releases the pinned slot even when nothing else is queued, takes the next one, drops it if undecodable, and otherwise pins it so that the ring still holds it; after an error everything is as before |
| `Client.FillSlot` | server-go/bus/client.go:203-217 | filling a begun slot leaves every queued slot as it was and makes the slot deliver the frame |
| `Client.Transmit` | server-go/bus/client.go:199-219 | begin, fill and commit queue one slot that delivers the frame, or leave the queue alone |
| `ClientOrder.Exchange` | server-go/bus/client.go:188-305 | over any sequence of emits at one end and polls at the other, the events polled and then the events unread are exactly the frames and payloads of the emits that succeeded, in order; the unread slots deliver theirs one for one |
| `ClientOrder.RunCommits` | server-go/bus/client.go:199-219 | over every interleaving of loads, stores and slot writes, begun slots given up among them, the slots committed deliver exactly the frames and payloads emitted, in order |
| `ClientOrder.PolledThenQueued` | server-go/bus/client.go:279-305 | over every interleaving the slots handed to polls, the pinned one included, are a prefix of the slots committed, and from an empty ring deliver a prefix of the events emitted |
| `Rpc.PartsExact` | server-go/bus/module_caller.go:140-161 | the parts join to the body and all but the last are full |
| `Rpc.PartsCount` | server-go/bus/module_caller.go:140-161 | there are max(1, ceil(len / (budget - 40))) parts |
| `Rpc.PacketsCarryParts` | server-go/bus/module_caller.go:149-157 | one packet a part, within the budget, FMore on all but the last |
| `Rpc.PacketDecodes` | server-go/bus/module_caller.go:150-157 | the envelope of a packet decodes to the message and delivers the part |
| `Rpc.PacketSays` | server-go/bus/module_caller.go:150-157 | a packet carries the kind, correlation and flags of its fragment, and its payload decodes to the operation, status, stage, deadline, trace and length of its message |
| `Rpc.EmittedPacket` | server-go/bus/client.go:203-211 | the event a client delivers for an emitted fragment is that packet |
| `Rpc.BuildPayload` | server-go/bus/module_runtime.go:244-250 | a scratch frame with the encoded envelope and the copied part is the packet's payload, and fails exactly on an invalid message |
| `Rpc.WaitsMakeNoDifference` | server-go/bus/module_runtime.go:251-271 | whether n sends are taken does not depend on how often the ring was full in between |
| `Rpc.OnlyFullRingsAreWaitedOut` | server-go/bus/module_runtime.go:251-271 | what a waiting send passes over is full rings with the context not done and the epoch unchanged, and the first other answer decides |
| `ModuleCaller.AwaitIgnoresOthers` | server-go/bus/module_caller.go:169-223 | deleting every event of other correlations from the inbound stream does not change the result of waiting |
| `ModuleCaller.FirstWordDecides` | server-go/bus/module_caller.go:169-223 | the first poll that is not waited through decides the wait: a failed poll, a done context, an expiry, the control kinds, a result of another status or one too long end it; a fragment is collected; what is malformed or of another kind is skipped |
| `ModuleCaller.RequestOnBus` | server-go/bus/module_caller.go:134-163 | each packet of a request invokes the stage with the deadline and trace of the call, bears FMore unless it is the last, and carries its part |
| `ModuleCaller.CorrelationsFresh` | server-go/bus/module_caller.go:107-108 | correlations of calls fewer than 2^64 apart differ, so late fragments never match a later call |
| `CallSequence.LateEventsIgnored` | server-go/bus/module_caller.go:107-108 | once a call has ended, deleting everything that still arrives for it changes how no later call of that caller ends |
| `CallSequence.OwnEventsDecide` | server-go/bus/module_caller.go:165-223 | how a call in a sequence ends depends only on the events of its own correlation among those the calls before it left |
| `CallSequence.RestIs` | server-go/bus/module_caller.go:165-223 | a call leaves to the next exactly the polls behind the one that decided it |
| `CallSequence.InSequence` | server-go/bus/module_caller.go:96-130 | calls of one caller made one after another end as their shared stream says, each taking up the stream where the one before left it |
| `ModuleCaller.LengthSumExact` | server-go/bus/module_caller.go:214-217 | the 32-bit sum of collected and new length never wraps |
| `ModuleCaller.GuardIsLimitIff` | server-go/bus/module_caller.go:101-103 | the truncated length guard is the 16 MiB limit exactly for lengths below 2^32 or whose low 32 bits exceed the limit; 2^32 passes it |
| `ModuleCaller.ModuleCaller.Send` | server-go/bus/module_caller.go:134-163 | exactly the packets the bus takes at once go out, in order, and the error says why no more did: no room for a header, an invalid envelope, or the answer of the bus; all of them are success |
| `ModuleCaller.ModuleCaller.AwaitReply` | server-go/bus/module_caller.go:169-223 | the loop computes the outcome of the poll stream and stops at the very poll that decides it |
| `ModuleCaller.ModuleCaller.Call` | server-go/bus/module_caller.go:96-130 | a refused length sends nothing; otherwise the next correlation is used; the call gets to wait exactly when every packet is taken at once, else the packets taken went out in order, no cancel follows, and the error is that of the first one refused; after waiting, the outcome of the polls, and unless it is a reply a cancel frame, sent exactly when the bus takes it |
| `ModuleRuntime.StageTable` | server-go/bus/module_runtime.go:112-128 | accepts exactly configurations with socket, name, principal and a non-empty list of non-zero stages of distinct kinds, and builds their table |
| `ModuleRuntime.Process.SendReplyPart` | server-go/bus/module_runtime.go:251-271 | succeeds exactly when the bus takes the fragment after any number of full rings, enqueues it exactly once, or not at all, and fails with the error of the first answer that is no full ring, of the done context, or of the changed epoch |
| `ModuleRuntime.Process.SendFragments` | server-go/bus/module_runtime.go:236-274 | succeeds exactly when each fragment is taken after any number of full rings; each goes out once and in order, otherwise a prefix |
| `ModuleRuntime.Process.ReplyResult` | server-go/bus/module_runtime.go:223-275 | sends the packets of the normalized result: an impossible one becomes an internal error, a non-OK one loses its body; succeeds exactly for a correlation and a stage, a budget above the header, and fragments each taken after any number of full rings; otherwise only first packets of it went out |
| `ModuleRuntime.AnswerOnBus` | server-go/bus/module_runtime.go:236-250 | each packet of an answer is a result with the status, stage and trace of the answer, bears FMore unless it is the last, and carries its part |
| `ModuleRuntime.Process.HandleEvent` | server-go/bus/module_runtime.go:345-428 | handling a polled event is one receive step of the system; it sends something only if the event is refused, the whole refusal exactly when the bus takes each fragment, else first packets of it |
| `ModuleRuntime.Process.TakeEvent` | server-go/bus/module_runtime.go:345-374 | a polled event meets exactly the fate the decision gives it: a cancel raises the flag of the running job and resets its correlation, a frame that is no request is ignored, an unacceptable one is refused |
| `ModuleRuntime.Process.TakeFragment` | server-go/bus/module_runtime.go:375-399 | an acceptable fragment is refused for want of room in the table or in its body, absorbed if more is to come, or completes its request |
| `ModuleRuntime.Process.OpenAssembly` | server-go/bus/module_runtime.go:375-385 | the assembly is the one in the table or a new one if fewer than 16 are open |
| `ModuleRuntime.Process.TakeWhole` | server-go/bus/module_runtime.go:399-427 | a completed request is refused as expired, unserved or over the job limit, in that order, or starts one job |
| `ModuleRuntime.Process.CheckHandler` | server-go/bus/module_runtime.go:196-219 | a handler's return and its final cancel and deadline checks are one step, which settles the outcome, cancelled before expired before the handler's own, but leaves the handler running |
| `ModuleRuntime.Process.SendResult` | server-go/bus/module_runtime.go:220-220 | the send into the channel is a step of its own: it queues the outcome settled earlier, whatever was cancelled or sent in between |
| `ModuleRuntime.Process.FinishWork` | server-go/bus/module_runtime.go:286-291 | collecting is one step: the oldest result leaves the channel and its job the table; its answer goes out whole exactly when the bus takes each fragment, else first packets of it and the loop ends |
| `ModuleRuntime.Process.BeginShutdown` | server-go/bus/module_runtime.go:314-319 | a finished context raises every job's cancel flag and starts the drain |
| `ModuleRuntime.Process.Leave` | server-go/bus/module_runtime.go:326-340 | a restarted host or a failed poll ends the loop with jobs still in the table |
| `ModuleRuntime.Process.DrainResult` | server-go/bus/module_runtime.go:319-322 | one receive of the drain removes one job and stops when none is left |
| `RuntimeSafety.StepKeepsInv` | server-go/bus/module_runtime.go:293-429 | every step keeps the job bijection, the table bounds, assembly contents, provenance and accounts |
| `RuntimeSafety.RunKeepsInv` | server-go/bus/module_runtime.go:293-429 | every run keeps them |
| `RuntimeSafety.JobsAreRunningPlusQueued` | server-go/bus/module_runtime.go:298-312 | running handlers plus queued results are exactly the jobs, at most 16 |
| `RuntimeSafety.SendNeverBlocks` | server-go/bus/module_runtime.go:220-220 | until a handler has sent its result the channel has room for it |
| `RuntimeSafety.RunNeverBlocks` | server-go/bus/module_runtime.go:298-325 | in every run, serving, draining or stopped early, no handler's send finds the channel full |
| `RuntimeSafety.DrainEndsAfterJobs` | server-go/bus/module_runtime.go:314-323 | the drain stops after exactly as many receives as there were jobs, and until then a result is queued or a handler runs |
| `RuntimeSafety.RunProvenance` | server-go/bus/module_runtime.go:345-427 | in every run each handler start ran on the concatenation, in order, of all request frames of its correlation since that correlation's last reset; all agree on kind, stage, deadline and trace, only the last lacks FMore, the total is at most 16 MiB; jobs and assemblies are disjoint and at most 16 each |
| `RuntimeSafety.RunConserves` | server-go/bus/module_runtime.go:345-427 | while serving, each request frame polled was absorbed, refused with exactly one bodiless non-OK answer, or started one job; no job is answered twice, starts are answered jobs plus jobs, and each job's answer is what its return came to |
| `RuntimeSafety.OutcomeOkIff` | server-go/bus/module_runtime.go:196-221 | a result is OK exactly when the handler returned OK within the limit and its final check saw neither cancel nor expiry |
| `RuntimeHistory.CancelledIff` | server-go/bus/module_runtime.go:314-352 | in every run, a job's cancel flag is up if and only if a cancel frame of its correlation was polled, or a shutdown began, while the job was in the table |
| `RuntimeHistory.CheckIsRecorded` | server-go/bus/module_runtime.go:196-219 | the return recorded of a job is that of its one final check, and it saw a cancel exactly when one had reached the job by then |
| `RuntimeHistory.JobAnswersReport` | server-go/bus/module_runtime.go:196-221 | in every run, every answer to a job goes to the correlation, kind, stage and trace it was started for, and says: cancelled if its check saw a cancel; else deadline exceeded if expired; else internal for an undefined status or an oversized body; else the status without a body; else OK with the response |
| `RuntimeHistory.CancelWins` | server-go/bus/module_runtime.go:210-212 | a job that a cancel reached before its final check is answered nothing but cancelled, without a body |
| `RuntimeHistory.FateOfRequest` | server-go/bus/module_runtime.go:353-427 | in every state of a run, which of refused (and with which status), absorbed or started a request frame meets, by what arrived before it for its correlation |
| `RuntimeHistory.FateOfOthers` | server-go/bus/module_runtime.go:345-355 | a cancel frame is always taken as one, and a frame that is neither a cancel nor a request is passed over |
| `EndToEnd.RequestArrives` | server-go/bus/module_runtime.go:345-427 | a call's packets arriving in order among any other events start the handler on exactly the request bytes, once |
| `EndToEnd.ResultReturns` | server-go/bus/module_runtime.go:286-291 | a job that is not cancelled is answered once, with what its handler's return came to |
| `EndToEnd.ReplyArrives` | server-go/bus/module_caller.go:169-223 | the packets of a result, among any other events, make the caller return its body or its status |
| `EndToEnd.SelectOutbound` | server-go/bus/module_runtime.go:236-273 | the packets sent for a correlation are the packets of its answers, in order |
| `EndToEnd.ServesOnce` | server-go/bus/module_runtime.go:293-429 | over a whole run a fresh call runs its handler exactly once and gets exactly one answer |
| `EndToEnd.CallEndToEnd` | server-go/bus/module_caller.go:96-223 | after any history, a call over a FIFO host whose fragments find a table slot, and whose last one finds a job slot and an unexpired deadline, runs the handler exactly once on exactly the request bytes and returns deadline exceeded if the handler ended too late, else internal for an undefined status or an oversized body, else its non-OK status, else exactly its body; for every body and every pair of budgets |
| `Service.React` | server-go/bus/module_runtime.go:302-428 | whatever happens next, the process takes the one step that this and the answers of the bus call for, and what it has put on the bus is still exactly its answers |
| `Service.Drive` | server-go/bus/module_runtime.go:293-429 | over any sequence of events, returns, sends, shutdowns and restarts from a fresh process, these and the answers of the bus determine the run it takes; while it serves, it has put exactly the packets of its answers on the bus |
| `Service.StillServing` | server-go/bus/module_runtime.go:302-428 | a serving process goes on serving if and only if nobody ends it and the bus takes the answer it owes, if it owes one |
| `Service.GoesOutDespiteWaits` | server-go/bus/module_runtime.go:251-271 | whether an answer goes out does not depend on how often the ring was full in between |
| `Service.CallServed` | server-go/bus/module_caller.go:96-130 | a call on a caller, connected by FIFO hosts to a process that has served it, returns what the handler returned: its body, its non-OK status, internal for an impossible result, or deadline exceeded; and the handler ran once on exactly the request |
| `BusCall.OfferThrough` | server-go/bus/client.go:234-267 | offering a fragment through a client over a ring is an offer to the outbound surface: accepted exactly when emit succeeds, with one more slot that delivers the offered packet; full exactly when emit would block; otherwise nothing is queued |
| `BusCall.CarriedWhole` | server-go/bus/client.go:279-305 | what is polled off the second of two rings joined by a forwarding host is, for one correlation, everything emitted on the first, in order, once no unread slot carries that correlation |
| `BusCall.Cross` | server-go/bus/client.go:188-305 | two clients that emit and poll in any order over an empty ring have crossed it for a correlation exactly when the unread slots carry nothing of it |
| `BusCall.CallOverRings` | server-go/bus/module_caller.go:96-130 | a call whose packets cross a ring, a forwarding host and a second ring each way returns what a handler returned that ran once, on exactly the request: its body, its non-OK status, internal or deadline exceeded |
| `AptTokens.Tokenize` | server-go/modules/sandbox/sandbox.go:146-190 | the index loops compute the token list |
| `AptTokens.TokensWellFormed` | server-go/modules/sandbox/sandbox.go:141-190 | every token is an operator or a non-empty word without the literal delimiters |
| `AptTokens.TokensOfJoin` | server-go/modules/sandbox/sandbox.go:146-190 | joining any list of well-formed tokens with single spaces between them and tokenizing gives the list back |
| `AptTokens.TokensLoseOnlyBlanks` | server-go/modules/sandbox/sandbox.go:146-190 | the tokens of any command, joined, are the command without spaces, tabs and returns |
| `AptTokens.TokensAcrossSemicolon` | server-go/modules/sandbox/sandbox.go:174-176 | a semicolon between two commands is one token between their tokens |
| `AptTokens.TokensAreSubstrings` | server-go/modules/sandbox/sandbox.go:146-190 | every token occurs in the command |
| `AptParser.CheckPackage` | server-go/modules/sandbox/sandbox.go:85-100 | accepts exactly the package-name grammar |
| `AptParser.CheckEnvAssign` | server-go/modules/sandbox/sandbox.go:115-126 | accepts exactly a non-empty name of letters, digits and underscores before the first equals sign |
| `AptParser.ParseApt` | server-go/modules/sandbox/sandbox.go:196-268 | the nested loops with look-back and early exits compute what a one-token-at-a-time automaton emits, deduplicated and capped; they terminate |
| `AptParser.ReadApt` | server-go/modules/sandbox/sandbox.go:219-265 | reading apt's words moves the automaton to the next command word, also after another subcommand or at the limit |
| `AptParser.SkipOption` | server-go/modules/sandbox/sandbox.go:226-230 | an option's value is consumed unless an operator or the end stands there |
| `AptLaws.ParsePrefix` | server-go/modules/sandbox/sandbox.go:196-268 | the result for a smaller limit is the first names of the result for a larger one |
| `AptLaws.ParseShape` | server-go/modules/sandbox/sandbox.go:244-262 | results are valid, distinct, shorter than 64 bytes, prefixes of tokens, and within the limit |
| `AptLaws.PrefilterSound` | src/modules/sandbox/sandbox_learned.c:90-96 | a command that yields a package contains both words the C prefilter requires |
| `AptLaws.SudoIsTransparent` | server-go/modules/sandbox/sandbox.go:204-208 | sudo in front of a command that does not start with a flag changes no result |
| `AptLaws.ParseAcross` | server-go/modules/sandbox/sandbox.go:201-266 | parsing a; b adds the names of b to the result for a |
| `AptInstall.InstallYields` | server-go/modules/sandbox/sandbox.go:196-268 | after apt or apt-get, with any flags and options with their values in front of install, and any flags, options, version pins, paths and misspelt names among the packages: exactly the package names are found, each once, in order, cut to 63 bytes and up to the limit |
| `AptInstall.CollectIs` | server-go/modules/sandbox/sandbox.go:259-261 | deduplicating up to a limit keeps the first occurrences of the names, up to the limit |
| `AptInstall.DebianNameIff` | server-go/modules/sandbox/sandbox.go:85-104 | the package-name grammar in literal characters |
| `AptInstall.AssignmentIsTransparent` | server-go/modules/sandbox/sandbox.go:115-126 | a word with an equals sign behind a name of letters, digits and underscores, in front of any command, changes no result |
| `AptInstall.SudoFlagIsTransparent` | server-go/modules/sandbox/sandbox.go:204-208 | sudo and a flag of its own in front of any command change no result |
| `AptInstall.OtherCommandYieldsNothing` | server-go/modules/sandbox/sandbox.go:209-217 | nothing is found among the words of any other command, apt and install included |
| `AptInstall.OtherSubcommand` | server-go/modules/sandbox/sandbox.go:234-242 | after another subcommand of apt, whatever options precede it, the rest reads as a command of its own |
| `LearnedStore.TakeValid` | server-go/modules/sandbox/sandbox.go:325-335 | takes the first max valid names of the list |
| `LearnedStore.Store.Read` | server-go/modules/sandbox/sandbox.go:300-314 | the document, or an empty one when missing, empty, oversized or unreadable |
| `LearnedStore.Store.Load` | server-go/modules/sandbox/sandbox.go:317-338 | the valid names in learned order, capped, and then sorted |
| `LearnedStore.SortStrings` | server-go/modules/sandbox/sandbox.go:336-336 | a sorted permutation in byte order |
| `LearnedStore.Store.Record` | server-go/modules/sandbox/sandbox.go:343-394 | the file changes only if something was added and the write went through, and only at that project; the count is the list's growth |
| `LearnedStore.Store.Observe` | server-go/modules/sandbox/module.go:47-58 | parses with the retention limit and records what was found |
| `LearnedLaws.CollectAbsorbs` | server-go/modules/sandbox/sandbox.go:353-364 | capping and deduplicating names before offering them to a capped list changes nothing |
| `LearnedLaws.LearnAcross` | server-go/modules/sandbox/sandbox.go:343-369 | learning from a; b is learning from a and then from b, for all lists and commands and despite both limits |
| `LearnedLaws.ObserveAcross` | server-go/modules/sandbox/sandbox.go:300-394 | if the first command adds nothing or the document it would write fits, observing a and then b leaves the same file as observing a; b |
| `LearnedLaws.ObserveAcrossIff` | server-go/modules/sandbox/sandbox.go:300-394 | every second command composes if and only if the first adds nothing or the document it would write is within the size a read accepts |
| `LearnedLaws.LearnedIsReadBack` | server-go/modules/sandbox/sandbox.go:300-314 | what was learned is there for the next call, with every other project, if and only if the document to be written is within the size a read accepts |
| `LearnedLaws.LongRootIsLost` | server-go/modules/sandbox/sandbox.go:300-394 | for any encoding at least as long as the roots it holds, a fresh store loses the first package of a project whose root is longer than the limit, and some second command does not compose with the first |
| `LearnedLaws.RunLearns` | server-go/modules/sandbox/sandbox.go:343-394 | over a history of calls a project's list depends only on what was offered to that project, one after another |
| `LearnedLaws.LoadForgetsOrder` | server-go/modules/sandbox/sandbox.go:317-370 | two histories that offer a fresh project the same valid names, at most 128 of them and at most the limit asked for, load the same, whatever their order, grouping, repeats and other projects |
| `LearnedLaws.OrderMattersIff` | server-go/modules/sandbox/sandbox.go:353-364 | for distinct valid names the order makes no difference if and only if there are at most 128 |
| `LearnedLaws.OneTooMany` | server-go/modules/sandbox/sandbox.go:353-364 | 129 distinct valid names that load differently in another order |
| `LearnedLaws.RunKeeps` | server-go/modules/sandbox/sandbox.go:343-394 | every history keeps every list valid, distinct and capped, and while files read back nothing learned is lost |
| `LearnedLaws.LearnIs` | server-go/modules/sandbox/sandbox.go:353-364 | a project's list becomes the first occurrences among what it held and the valid names offered, up to 128 |
| `LearnedLaws.LoadsFirstLearned` | server-go/modules/sandbox/sandbox.go:317-338 | from any file a history left, loading gives exactly the first names learned, up to the limit asked for, in the order of their bytes |
| `LearnedLaws.LessEqIff` | server-go/modules/sandbox/sandbox.go:336-336 | the sorting order is that of the first differing byte, a prefix first |
| `ProxyRequest.CopyHost` | server-go/modules/sandbox/proxy_policy.go:181-202 | accepts exactly the legal host texts and returns the lower-case host, without brackets if it starts with one |
| `ProxyRequest.HostIff` | server-go/modules/sandbox/proxy_policy.go:181-202 | a host text is 1 to 255 bytes without slash, blank, at sign, line end or NUL, and not brackets alone |
| `ProxyRequest.HostIs` | server-go/modules/sandbox/proxy_policy.go:185-199 | a bracketed host stands for what is between the brackets, any other for itself, in lower case |
| `ProxyRequest.BracketsAreDropped` | server-go/modules/sandbox/proxy_policy.go:185-191 | in a text that starts with a bracket every further bracket is dropped as well |
| `ProxyRequest.VersionIff` | server-go/modules/sandbox/proxy_policy.go:234-237 | a version is HTTP/1.0 or HTTP/1.1, followed by nothing, a line end, a blank or a NUL |
| `ProxyRequest.ParsePort` | server-go/modules/sandbox/proxy_policy.go:204-219 | accepts exactly non-empty digit strings of value 1 to 65535, despite its early exit, and returns the value |
| `ProxyRequest.ValueOfDecimal` | server-go/modules/sandbox/proxy_policy.go:204-219 | reading a printed number gives the number |
| `ProxyRequest.LeadingZero` | server-go/modules/sandbox/proxy_policy.go:204-219 | leading zeros do not change a port |
| `ProxyRequest.ClassifyRequestLine` | server-go/modules/sandbox/proxy_policy.go:221-284 | the scanning code computes the classification |
| `ProxyRequest.ClassifyAbsolute` | server-go/modules/sandbox/proxy_policy.go:262-283 | the two index loops split an authority as the classification says |
| `ProxyRequest.ConnectIff` | server-go/modules/sandbox/proxy_policy.go:239-254 | a line is CONNECT for a host and a port if and only if it is an authority-form request printed from a text of that host and digits of that port |
| `ProxyRequest.AbsoluteIff` | server-go/modules/sandbox/proxy_policy.go:259-283 | a line is absolute-form for a host and a port if and only if it is printed from a colon-free host text, an optional port and an empty or rooted path |
| `ProxyRequest.ApiIff` | server-go/modules/sandbox/proxy_policy.go:256-258 | a line is origin-form if and only if it has a method other than CONNECT, a rooted target and a version |
| `ProxyRequest.ConnectRoundTrip` | server-go/modules/sandbox/proxy_policy.go:239-254 | classifying a printed CONNECT gives the lower-case host and the port back, for every port |
| `ProxyRequest.AbsoluteRoundTrip` | server-go/modules/sandbox/proxy_policy.go:259-283 | the same for a printed absolute-form line, for every rooted path |
| `ProxyHead.ReadHeaders` | server-go/modules/sandbox/proxy_policy.go:351-382 | accepts exactly heads whose lines up to the first of at most two bytes are all fields with good names and options, and collects every name any of them nominates |
| `ProxyHead.ReadStart` | server-go/modules/sandbox/proxy_policy.go:312-337 | the first-line scan computes method, forwarded path and version |
| `ProxyHead.WriteKept` | server-go/modules/sandbox/proxy_policy.go:383-390 | writes the kept lines and nothing else |
| `ProxyHead.RewriteHead` | server-go/modules/sandbox/proxy_policy.go:307-393 | succeeds exactly on rewritable heads, with the forwarded first line, the kept lines and Connection: close |
| `ProxyLaws.OptionsSplitExactly` | server-go/modules/sandbox/proxy_policy.go:372-373 | the options of a Connection value are its comma-free pieces, and joining them gives it back |
| `ProxyLaws.TrimsEnds` | server-go/modules/sandbox/proxy_policy.go:374-374 | trimming an option drops exactly the white space at its ends |
| `ProxyLaws.KeptPositions` | server-go/modules/sandbox/proxy_policy.go:383-390 | the kept lines are exactly the lines that are neither hop-by-hop nor nominated, verbatim, each once and in order |
| `ProxyLaws.ForwardedLines` | server-go/modules/sandbox/proxy_policy.go:351-392 | splitting the output again gives the kept lines and one Connection: close if and only if the last kept line has its newline; otherwise that line swallows it |
| `ProxyLaws.UnendedLineIsGlued` | server-go/modules/sandbox/proxy_policy.go:351-392 | a head whose last line lacks its newline, with the line that arrives glued to Connection: close |
| `ProxyLaws.NeverForwarded` | server-go/modules/sandbox/proxy_policy.go:348-391 | no line that arrives bears a hop-by-hop name or one nominated by any earlier or later line, but for Connection: close |
| `ProxyLaws.AbsoluteBecomesOrigin` | server-go/modules/sandbox/proxy_policy.go:307-346 | an absolute-form head that is rewritten classifies as origin-form, for no host |
| `ProxyLaws.TargetSplits` | server-go/modules/sandbox/proxy_policy.go:320-337 | the target splits without loss into http://, the text of the classified host, the text of its port and the forwarded path, which is / when empty; the first line is readable if and only if it ends inside the version, and then is rewritten to method, path and version |
| `ProxyLaws.UnendedIsNotRewritten` | server-go/modules/sandbox/proxy_policy.go:308-311 | a head without any newline classifies as absolute-form and is not rewritten |
| `ProxyFields.NothingWithheldArrives` | server-go/modules/sandbox/proxy_policy.go:286-391 | for every head that is rewritten, no arriving line but Connection: close bears, in any letter case, one of the ten literal hop-by-hop and credential names or an option that a Connection or Proxy-Connection line lists |
| `ProxyFields.EverythingElseArrives` | server-go/modules/sandbox/proxy_policy.go:383-391 | every original line that bears none of these arrives, verbatim; only a last line without newline has Connection: close behind it |
| `ProxyFields.FieldIff` | server-go/modules/sandbox/proxy_policy.go:351-382 | the lines a head may consist of are exactly the fields all of whose listed options are names |
| `ProxyFields.LinesExact` | server-go/modules/sandbox/proxy_policy.go:351-360 | the lines of a head are its text up to the first line of at most two bytes, cut behind each newline |
| `ProxyFields.StartIff` | server-go/modules/sandbox/proxy_policy.go:308-337 | the first line of a head can be rewritten if and only if the head is a method, a space, http://, an authority, an empty or rooted path, a space and at least eight bytes of version before the line end |
| `ProxyFields.StartIs` | server-go/modules/sandbox/proxy_policy.go:308-346 | and then what is forwarded is the method, the path or a slash, eight bytes of the version, and the kept lines |

## Left out

- Sockets, descriptor passing, mapping, the attach handshake, connect retries and heartbeats: a valid geometry is the starting state.
- Geometry the handshake fixes and `emit` and `Poll` trust: both rings have the client's slot size, and an inline budget is at most the 1 MiB payload limit.
- The C host and its grants: only the assumption that it forwards in order and unchanged is used.
- Clocks, sleeps, logging and `moduleDetail`: time and context are inputs of a step, and nothing is claimed about when steps happen, except that a waiting side has something to wait for.
- The head and tail words inside the mapping: `Ring.SharedRing` keeps them as fields, and `RingProtocol` treats each load and store of them, and each write of a slot, as one step. Weaker memory orders than the atomics used are not modelled.
- Goroutines and pointers to work records: a job is named by the index of its start, and a cancel flag is membership in a set.
- An event and the sending of its refusal are one step, as are a taken result and the sending of its answer: what a handler does in between is taken to happen after both, which the loop cannot tell apart.
- The check in `awaitReply` that a body ends inside its payload (server-go/bus/module_caller.go:211-213): decoding already implies it.
- The second length check in `copyProxyHost` (server-go/modules/sandbox/proxy_policy.go:196-198): the first one already implies it.
- The bit operations on frame flags are written as arithmetic on single-bit values.
- JSON, temporary files and renames: the stored document is a map with an abstract encoded size, and a failed write changes nothing. The document `null`, which the decoder turns into a map that cannot be written to, is not part of this model.
- The mutex of the store: calls are taken one after another, as it makes them.
- Text that is not ASCII: rune-stepped loops, `strings.ToLower` and `strings.TrimSpace` agree with the model on ASCII.
- `server-go/bus/region.go`, the stage dispatch in `server-go/modules/sandbox/module.go`, address blocking, allowed ports and host allowlists are outside the model.
- `src/modules/sandbox/sandbox_pkg_proxy.c`: resolving, dialing and pumping bytes.
