# AsterCtrl in Dafny

A model of the parts of AsterCtrl in which correctness is hardest to see, with proofs about every
input, every run or every reachable state. `dafny verify dfyconfig.toml` checks all of it.

- **Reliable CAN path** (`ReliablePath`, `ReliableRun`, `ReliableLimits`, `ReliablePump`, `ReliableFeed`,
  `ReliableTiming`, `ReliableExchange`, `ReliableEnds`): stop-and-wait sender and reassembling receiver with four-bit
  sequence numbers. The first module has both ends as values, the next three join them to a hostile channel, with
  the exact limits of what it may do, and to a frame writer; then come what the receiver makes of a message in
  whatever state it is, its timeout, and whole exchanges with losses and retries; the last has the objects.
- **Fast CAN path** (`FastPath`, `FastEnds`): unacknowledged fragments with a six-bit sequence window.
- **Linux executor and RPC manager** (`Executor`, `ExecutorRun`, `ExecutorHistory`, `RpcCalls`, `RpcReports`): the work
  queue with its reservations, the life of a call record shared by server, caller and shutdown, and what callers are
  told.
- **Bounded Protocol Buffers** (`Varint`, `Scalars`, `Utf8`, `Messages`, `Decoding`, `WireWriter`,
  `WireReader`, `WireFormat`, `WireSizes`, `DecodingLaw`, `Groups`, `SchemaOrder`): what the generated encoders and decoders
  do, for every schema the generator accepts, against the public wire format and a field-by-field meaning of
  messages, and how the generator orders messages and bounds their sizes.
- **USB framing** (`Cobs`, `Crc32c`, `Framing`, `StreamTransport`): byte stuffing, checksum, packets and
  the incremental stream receiver.
- **Zephyr CAN adapter** (`CanDevice`, `CanDeviceRun`, `CanDeviceCounts`): thread code under the control lock against
  interrupt callbacks.
- **CAN remote calls** (`RpcPayload`, `CanRpc`, `CanRpcRun`, `CanRpcLimits`, `CanRpcPath`, `CanRpcEnds`,
  `CanRpcStuck`): one client and one server joined by paths that deliver anything begun on them, any number of
  times or never, and then by two reliable paths, one for requests and one for responses; the objects own their
  reliable senders and receivers.
- **Link control** (`ControlPlane`, `LinkControl`, `LinkBeacon`, `LinkControlEnds`): the gate that holds application
  frames back until the peer is known to be compatible, alive and synchronised, and the heartbeats it sends.
- **Startup order** (`StartupOrder`): the level-by-level sort of the graph compiler.
- Shared: `Bytes`, `LittleEndian`, `CanProtocol`, `Fragments`, `ReassemblyBuffer`, `FrameWriting`, and `Layouts`, the
  frames and headers byte by byte.

Modules named `...Run` hold state machines and theorems over whole runs; modules named `...Ends` hold
the objects, each method proved against the value model. Concurrency is interleaving of atomic steps.
The outside world enters as inputs: frame writers, clocks, drivers, handlers and the reliable layer
below a remote call may answer anything at any time.

Seven promises hold only under a condition, which is proved to be exact or shown to be needed:

- Reliable delivery is at most once, in order and byte for byte, with sound acknowledgements, in every run
  exactly if no frame is more than 8 messages behind the last completed one or more than 15 ahead of it, none
  is 16 from the one assembled before the first completion, and no acknowledgement is 16 off
  (`ReliableLimits.SafeExactly`).
- An answered remote call got the answer to its own request, in every run, exactly while at most
  16 (2^32 - 1) request ids were used (`CanRpcLimits.AnswerExactly`): id and sequence come back together then.
- A packet survives USB framing exactly if its payload is at most 65535 bytes
  (`Framing.PacketRoundTrip`): the length is written as 16 bits.
- `Stop` on an adapter that is already stopped returns without waiting. It is safe unless the last `Start`
  ended at a refused receive filter, where callbacks are detached and not waited for, and an earlier one had
  added a filter (`CanDeviceRun.EarlyStopTheorem`, `CanDeviceRun.EarlyStopGap`).
- The transmit statistics balance exactly when no completion callback is between clearing the in-flight
  mark and raising its counter (`CanDeviceRun.StatisticsBalance`). Stop waits for such callbacks, so after
  it they always balance.
- After any `Shutdown` has returned the executor starts nothing. Nothing is in progress after the call that joined
  the workers; a call that returns at once guarantees it exactly if it did not find another one joining them
  (`ExecutorRun.InProgressExactly`, `ExecutorRun.EarlyReturn`).
- A heartbeat of a restarted peer gives it away exactly if the reported uptime fell by at most 2^31 ms, about
  24.8 days, and its number is at most 127 past the last one heard, or 0 or 1
  (`ControlPlane.RestartNoticed`, `ControlPlane.RestartNoticedInRun`). A peer that kept running is
  mistaken for a restarted one exactly by a heartbeat with such a number after a silence of 2^31 to 2^32 - 1 ms,
  modulo 2^32 (`ControlPlane.LongSilence`).

The remote call objects can get stuck, and one method each leads there from new objects. A client whose call is
answered before its request is acknowledged refuses every later call until that acknowledgement or a peer reset
comes (`CanRpcStuck.AnsweredFirst`); a client whose retry stopped at a refused frame sends nothing more and times
out only at its deadline (`CanRpcStuck.RetryRefused`); a response whose acknowledgement could not be written does
not complete the call (`CanRpcStuck.AnswerLost`); a server whose response stopped at a refused frame takes up
nothing until the peer is reset (`CanRpcStuck.ResponseRefused`).

## Model

| member | source | states |
|---|---|---|
| `CanProtocol.IdRoundTrip` | src/runtime/aster_runtime/transport/can/protocol.hpp:33-54 | every arbitration id the encoder accepts decodes to the same priority and route, and it accepts exactly routes 1 to 511 and priorities 0 to 3 |
| `Layouts.IdLayout` | src/runtime/aster_runtime/transport/can/protocol.hpp:33-54 | an arbitration id is two bits of priority above nine bits of route, and there is one exactly for routes 1 to 511 and priorities 0 to 3 |
| `ReliablePath.ParseDataFrame` | src/runtime/aster_runtime/transport/can/reliable_path.hpp:86-113 | the receiver reads out of any fragment exactly the sequence, index, count and bytes the sender put in |
| `ReliablePath.ParseFitting` | src/runtime/aster_runtime/transport/can/reliable_path.hpp:267-300 | also of a message that may be too long for it: then it reads that or refuses the fragment |
| `Layouts.ReliableLayout` | src/runtime/aster_runtime/transport/can/reliable_path.hpp:86-113 | a fragment of a reliable message is exactly the header byte 1000ssss, a byte with the number of fragments less one above the index, and up to six bytes from six times the index on; an acknowledgement is the byte 1001ssss |
| `ReliablePath.BeginKeepsValid` | src/runtime/aster_runtime/transport/can/reliable_path.hpp:53-84 | Begin keeps the sender invariant for every argument |
| `ReliablePath.SenderKeepsValid` | src/runtime/aster_runtime/transport/can/reliable_path.hpp:86-188 | fetching, acknowledgement, retry, arming and write reports keep the sender invariant |
| `ReliablePath.ReceiverKeepsValid` | src/runtime/aster_runtime/transport/can/reliable_path.hpp:267-341 | any frame keeps the receiver invariant |
| `Fragments.JoinIsPayload` | src/runtime/aster_runtime/transport/can/reliable_path.hpp:267-341 | a complete set of fragments of one payload joins to that payload byte for byte |
| `Fragments.JoinBuffer` | src/runtime/aster_runtime/transport/can/reliable_path.hpp:267-341 | fragments laid out at their offsets in the buffer make up its front in order |
| `ReliableRun.DeliveryTheorem` | src/runtime/aster_runtime/transport/can/reliable_path.hpp:267-385 | over every run of a sender and a receiver of any capacities on a channel that loses, repeats and reorders frames, none more than 8 messages behind the last completed one or 15 ahead of it, nor 16 from the one assembled first: messages are delivered at most once, in strictly increasing order, each with exactly the bytes given to Begin |
| `ReliableRun.AckTheorem` | src/runtime/aster_runtime/transport/can/reliable_path.hpp:115-132 | in every such run, with no acknowledgement 16 messages off, the sender is complete for a message only if the receiver has delivered that message with that payload |
| `ReliableLimits.SafeExactly` | src/runtime/aster_runtime/transport/can/reliable_path.hpp:115-132 | those two theorems hold in every run exactly under those four bounds: with any bound one larger there is a run that breaks them |
| `ReliableLimits.TooLate` | src/runtime/aster_runtime/transport/can/reliable_path.hpp:348-381 | the run for a frame 9 behind: message 0 is handed up after message 9 |
| `ReliableLimits.TooEarly` | src/runtime/aster_runtime/transport/can/reliable_path.hpp:321-341 | the run for a frame 16 ahead: message 16 is acknowledged as complete and was never handed up |
| `ReliableLimits.TooFarApart` | src/runtime/aster_runtime/transport/can/reliable_path.hpp:267-341 | the run for fragments 16 apart before the first completion: one message is handed up made of two |
| `ReliableLimits.AckTooOld` | src/runtime/aster_runtime/transport/can/reliable_path.hpp:115-132 | the run for an acknowledgement 16 off: it completes a message the receiver never had |
| `ReliableLimits.WindowIsExact` | src/runtime/aster_runtime/transport/can/reliable_path.hpp:383-385 | the four-bit sequence comparison is right around every base exactly for messages at most 8 behind and 15 ahead |
| `ReliableFeed.RedeliveryExactly` | src/runtime/aster_runtime/transport/can/reliable_path.hpp:348-385 | all frames of a message of any length, repeated from fewer than 16 messages ago, hand it up again exactly if it is more than 8 messages old |
| `ReliableFeed.FeedTheorem` | src/runtime/aster_runtime/transport/can/reliable_path.hpp:267-381 | what the frames of a message, fed in order to a receiver in any state, come to, reply by reply: refused with what is being assembled kept, if that looks newer; otherwise that is dropped, and the message is refused if it looks older than the last one handed up, acknowledged only if it is that one, and else handed up with its bytes and acknowledged with its last frame |
| `ReliableFeed.SupersedesExactly` | src/runtime/aster_runtime/transport/can/reliable_path.hpp:348-381 | a message left half received is replaced exactly by the next seven of the same id, and of these exactly the ones that look newer than the last one handed up are handed up; one behind it leaves it as it was |
| `ReliableFeed.OtherIdReplaces` | src/runtime/aster_runtime/transport/can/reliable_path.hpp:348-354 | a message of another id always replaces it |
| `ReliableFeed.ResumeTheorem` | src/runtime/aster_runtime/transport/can/reliable_path.hpp:296-341 | whichever fragments of a message the receiver holds, its frames sent again conclude it with the one that fills the last gap |
| `ReliableFeed.InvalidKeeps` | src/runtime/aster_runtime/transport/can/reliable_path.hpp:267-306 | a malformed or disagreeing frame changes nothing |
| `ReliableFeed.DisagreementKept` | src/runtime/aster_runtime/transport/can/reliable_path.hpp:304-306 | a fragment that disagrees with the message being assembled in the number of fragments is such a frame |
| `ReliableTiming.TimelyExactly` | src/runtime/aster_runtime/transport/can/reliable_path.hpp:387-394 | a new message whose frames come in order at any times is handed up exactly if it has one frame, there is no timeout, or the last frame comes before the time of the first plus the timeout, which stops at 2^64 - 1; otherwise nothing is handed up or acknowledged |
| `ReliableTiming.PolledExactly` | src/runtime/aster_runtime/transport/can/reliable_path.hpp:246-253 | a poll gives a message up exactly as its next frame would and says so, and a time before the last one seen changes nothing |
| `ReliableExchange.BeginExactly` | src/runtime/aster_runtime/transport/can/reliable_path.hpp:53-84 | Begin succeeds exactly for an idle, complete or failed sender, 1 to 96 bytes that fit, a legal address, a four-bit sequence and a timeout; the message is then about to be sent from its first frame |
| `ReliableExchange.AttemptTheorem` | src/runtime/aster_runtime/transport/can/reliable_path.hpp:86-113 | an attempt whose frames are all taken offers every fragment once, in order, and then waits for the acknowledgement |
| `ReliableExchange.AckExactly` | src/runtime/aster_runtime/transport/can/reliable_path.hpp:115-132 | a waiting sender is completed by exactly one frame, the acknowledgement with its id and sequence; any other changes nothing |
| `ReliableExchange.ExchangeTheorem` | src/runtime/aster_runtime/transport/can/reliable_path.hpp:53-341 | without losses the frames of an attempt have the receiver hand the message up and answer with the acknowledgement that completes the sender |
| `ReliableExchange.LossTheorem` | src/runtime/aster_runtime/transport/can/reliable_path.hpp:296-341 | whichever frames of an attempt get through, in any order and any number of times, short of all of them, are held |
| `ReliableExchange.RecoveryTheorem` | src/runtime/aster_runtime/transport/can/reliable_path.hpp:134-151 | and then the next attempt has the message handed up and acknowledged so that the sender is complete |
| `ReliableExchange.RetryTheorem` | src/runtime/aster_runtime/transport/can/reliable_path.hpp:134-151 | a message that is never acknowledged, polled at any times: a poll starts another attempt exactly if the timeout has passed since the last one began and fewer than the allowed number were started, and the first one due after those gives the message up |
| `ReliableExchange.ClockStarts` | src/runtime/aster_runtime/transport/can/reliable_path.hpp:153-159 | Begin and the arming of the acknowledgement deadline start that clock |
| `ReliablePump.PumpTheorem` | src/runtime/aster_runtime/transport/can/reliable_path.hpp:86-188 | under every pattern of accepted, refused, late and stale writes and timeouts, the accepted frames are the first fragments in order, the sender waits for an acknowledgement exactly when all were accepted, and there are at most maximum_retries + 1 attempts, all used up on failure |
| `ReliablePump.StaleReportIgnored` | src/runtime/aster_runtime/transport/can/reliable_path.hpp:174-188 | in every run the report of any write but the last, fewer than 2^32 - 1 frames ago, changes nothing, since its token is another |
| `ReliableEnds.ReliableSender.Begin` | src/runtime/aster_runtime/transport/can/reliable_path.hpp:53-84 | the object does what the value model does, message stored in its buffer, for every argument and every error |
| `ReliableEnds.ReliableSender.NextFrame` | src/runtime/aster_runtime/transport/can/reliable_path.hpp:86-113 | the object fetches the same frame and reaches the same state as the model |
| `ReliableEnds.ReliableSender.HandleAck` | src/runtime/aster_runtime/transport/can/reliable_path.hpp:115-132 | does what the value model does, whose effect AckExactly states |
| `ReliableEnds.ReliableSender.Poll` | src/runtime/aster_runtime/transport/can/reliable_path.hpp:134-151 | does what the value model does, whose effect RetryTheorem states |
| `ReliableEnds.ReliableSender.ArmAckDeadline` | src/runtime/aster_runtime/transport/can/reliable_path.hpp:153-159 | does what the value model does, whose effect ClockStarts states |
| `ReliableEnds.ReliableSender.OnFrameWrite` | src/runtime/aster_runtime/transport/can/reliable_path.hpp:174-188 | same state as the model, for every token and status |
| `ReliableEnds.ReliableReceiver.Accept` | src/runtime/aster_runtime/transport/can/reliable_path.hpp:233-244 | the object with its buffers, lengths and mask gives the same reply and state as the model |
| `ReliableEnds.ReliableReceiver.AcceptImpl` | src/runtime/aster_runtime/transport/can/reliable_path.hpp:267-341 | same reply and state as the model, whatever the frame |
| `ReliableEnds.ReliableReceiver.PrepareMessage` | src/runtime/aster_runtime/transport/can/reliable_path.hpp:348-381 | refuses, keeps or drops what is being assembled as the value model does, whose effect FeedTheorem states for every state |
| `ReliableEnds.ReliableReceiver.ExpireIfDue` | src/runtime/aster_runtime/transport/can/reliable_path.hpp:387-394 | drops the assembly exactly when the value model does, whose effect TimelyExactly states |
| `ReliableEnds.ReliableReceiver.Poll` | src/runtime/aster_runtime/transport/can/reliable_path.hpp:246-253 | same status and state as the model |
| `ReliableEnds.ReliableReceiver.ResetPeerHistory` | src/runtime/aster_runtime/transport/can/reliable_path.hpp:255-262 | forgets assembly, last message and clock |
| `FastPath.Encode` | src/runtime/aster_runtime/transport/can/fast_path.hpp:15-62 | the loop emits exactly the frames of the message, single or fragmented, or the documented error |
| `FastPath.ArrivalTheorem` | src/runtime/aster_runtime/transport/can/fast_path.hpp:81-234 | for every arrival order with any repetition, also while an older message or one of another route is half received, the reassembler answers Ok exactly when the last missing frame comes in, with the original route, sequence and payload, and Unavailable otherwise |
| `FastPath.RefusedTheorem` | src/runtime/aster_runtime/transport/can/fast_path.hpp:162-234 | frames of a message that looks older than the one being assembled are refused and leave it alone; of one that replaces it but looks no newer than the last completed one, refused |
| `FastPath.DisagreementDrops` | src/runtime/aster_runtime/transport/can/fast_path.hpp:127-130 | a fragment that disagrees with the message being assembled in the number of fragments ends it; all its frames have to come again |
| `Layouts.FastLayout` | src/runtime/aster_runtime/transport/can/fast_path.hpp:15-62 | a message of up to seven bytes is one frame, the byte 00ssssss before it; a longer one comes in fragments under 01ssssss |
| `FastPath.ExactlyOnce` | src/runtime/aster_runtime/transport/can/fast_path.hpp:81-160 | once all frames have arrived there is exactly one such moment |
| `FastEnds.FastReassembler.Accept` | src/runtime/aster_runtime/transport/can/fast_path.hpp:81-160 | the object gives the same reply and state as the value model for every frame |
| `FastEnds.FastReassembler.PrepareSequence` | src/runtime/aster_runtime/transport/can/fast_path.hpp:177-212 | same verdict and state as the value model |
| `FastEnds.FastReassembler.Complete` | src/runtime/aster_runtime/transport/can/fast_path.hpp:221-234 | hands up the front of the buffer and records the sequence |
| `Executor.ThreadExecutor.Enqueue` | src/runtime/aster_runtime/platform/linux/runtime_services.hpp:248-269 | Ok exactly for work given while prepared or running with a free slot; then the entry really is stored under a fresh ticket |
| `Executor.ThreadExecutor.ScheduleReserved` | src/runtime/aster_runtime/platform/linux/runtime_services.hpp:213-226 | a live ticket can always be armed while the executor admits work: its entry then has the new time, is armed and keeps its work, and every other entry is the same |
| `Executor.ThreadExecutor.CancelReserved` | src/runtime/aster_runtime/platform/linux/runtime_services.hpp:227-240 | removes exactly the entry of a live ticket |
| `Executor.ThreadExecutor.NextIndex` | src/runtime/aster_runtime/platform/linux/runtime_services.hpp:278-289 | the least armed entry by timestamp and sequence, or none exactly if none is armed |
| `Executor.ThreadExecutor.Take` | src/runtime/aster_runtime/platform/linux/runtime_services.hpp:291-321 | takes an entry exactly if running and the least armed one is due, and removes just that one |
| `Executor.ThreadExecutor.Prepare` | src/runtime/aster_runtime/platform/linux/runtime_services.hpp:126-145 | only from constructed, with a name, a queue and threads; failed if the threads could not be created |
| `Executor.OccupiedIsSize` | src/runtime/aster_runtime/platform/linux/runtime_services.hpp:248-269 | with distinct tickets the occupied slots are as many as the entries |
| `Executor.ThreadExecutor.Activate` | src/runtime/aster_runtime/platform/linux/runtime_services.hpp:147-157 | only from prepared |
| `Executor.ThreadExecutor.BeginShutdown` | src/runtime/aster_runtime/platform/linux/runtime_services.hpp:170-185 | which states shut down and that the queue is given up |
| `Executor.ThreadExecutor.EndShutdown` | src/runtime/aster_runtime/platform/linux/runtime_services.hpp:187-191 | stopped after the workers have joined |
| `ExecutorRun.AtMostOnce` | src/runtime/aster_runtime/platform/linux/runtime_services.hpp:248-321 | in every run each accepted entry is started at most once, armed, and never before its timestamp |
| `ExecutorHistory.QueueTheorem` | src/runtime/aster_runtime/platform/linux/runtime_services.hpp:206-321 | at every moment of every run the queue holds exactly the entries that, by the steps so far, were enqueued and neither withdrawn nor started, each with its work and ticket, the time it was last given, and armed exactly if enqueued so or scheduled since |
| `ExecutorHistory.StartTheorem` | src/runtime/aster_runtime/platform/linux/runtime_services.hpp:278-321 | work is started no earlier than the time last given to it by Enqueue or ScheduleReserved, not after it was withdrawn, and before every other armed entry that is due later or as early with a later ticket |
| `ExecutorRun.NothingStartedAfterShutdown` | src/runtime/aster_runtime/platform/linux/runtime_services.hpp:170-191 | once any call of Shutdown has returned, in every continuation nothing is started again |
| `ExecutorRun.InProgressExactly` | src/runtime/aster_runtime/platform/linux/runtime_services.hpp:174-178 | from a Shutdown that returned at once a caller may conclude that nothing is in progress exactly if it did not find the executor quiescing |
| `ExecutorRun.JoinedShutdown` | src/runtime/aster_runtime/platform/linux/runtime_services.hpp:180-191 | after the Shutdown that joined the workers nothing is in progress or started, in every continuation |
| `ExecutorRun.NothingAfterShutdown` | src/runtime/aster_runtime/platform/linux/runtime_services.hpp:187-191 | once the state is stopped or failed nothing is in progress and nothing is started, in every continuation |
| `ExecutorRun.EarlyReturn` | src/runtime/aster_runtime/platform/linux/runtime_services.hpp:174-178 | a run in which a second Shutdown returns while work is in progress |
| `RpcCalls.CallbackTheorem` | src/platform/linux/rpc_manager.cpp:48-98 | in every interleaving of admission, Invoke, Complete, timers, shutdown and cancellation: no access to an erased record, at most one erasure, at most one callback, none for a refused call |
| `RpcCalls.OkTheorem` | src/platform/linux/rpc_manager.cpp:161-228 | Ok is reported only if the handler answered Ok and the completion came before the deadline |
| `RpcReports.ReportTheorem` | src/platform/linux/rpc_manager.cpp:161-228 | what a caller is told, in every run and read off the steps: Cancelled exactly if Quiesce cancelled the call; else Timeout if its completion comes at or after the deadline or before the server is done, else the clock error, Timeout if the handler was begun or ended at or after the deadline, or what the handler said; Ok exactly if all of that went well |
| `RpcReports.OnceEach` | src/platform/linux/rpc_manager.cpp:161-228 | admission, handler, the two locks that decide, and cancellation each happen at most once in the life of a call |
| `RpcReports.AwaitedTheorem` | src/platform/linux/rpc_manager.cpp:85-90 | no accepted call is forgotten: once it has a deadline or its server is done, its queued completion is armed, unless the executor of the caller has been told to shut down |
| `RpcCalls.QuiesceTheorem` | src/platform/linux/node_runtime.cpp:59-66 | once quiesce has finished every accepted call was called back exactly once and every record erased exactly once |
| `RpcCalls.CancelPending` | src/platform/linux/rpc_manager.cpp:261-281 | the cancellation loop ends, answers exactly the calls nobody has answered, and leaves the others alone |
| `RpcCalls.StepInv` | src/platform/linux/rpc_manager.cpp:161-228 | every critical section and executor step keeps the invariant of all call records |
| `Varint.VarintSize` | tools/aster_cli/src/aster_cli/protobuf.py:515-520 | the generator's count is the number of bytes the writer emits |
| `Varint.VarintReadsBack` | tools/aster_cli/src/aster_cli/protobuf.py:294-362 | every 64-bit value reads back, whatever follows |
| `Varint.TakenIs64Bits` | tools/aster_cli/src/aster_cli/protobuf.py:352-362 | no accepted varint exceeds 64 bits |
| `Varint.TagReadsBack` | tools/aster_cli/src/aster_cli/protobuf.py:321-402 | every legal field number and wire type reads back |
| `Varint.BytesReadBack` | tools/aster_cli/src/aster_cli/protobuf.py:331-392 | length-delimited bytes read back, whatever follows |
| `Scalars.ZigZagReadsBack` | tools/aster_cli/src/aster_cli/protobuf.py:445-461 | zigzag decoding undoes zigzag encoding on the whole signed range, both widths |
| `Scalars.ScalarReadsBack` | tools/aster_cli/src/aster_cli/protobuf.py:614-660 | every value of every scalar type reads back, whatever follows |
| `Scalars.ScalarFits` | tools/aster_cli/src/aster_cli/protobuf.py:523-544 | no value takes more bytes than the generator reserves for its type |
| `WireFormat.WordExactly` | tools/aster_cli/src/aster_cli/protobuf.py:614-660 | the bytes of a scalar are exactly those of the wire format: the varint of 2n or -2n - 1 for sint, of n modulo 2^64 for int and enum, 0 or 1 for bool, or the 4 or 8 base-256 digits of n modulo 2^32 or 2^64, lowest first |
| `WireFormat.ReadExactly` | tools/aster_cli/src/aster_cli/protobuf.py:864-907 | a reader takes a scalar off any input exactly if a varint of at most ten bytes and 64 bits, or a fixed word, comes first, and gives the value it stands for: 32-bit types take the low half, any number but 0 is true |
| `Utf8.ValidUtf8` | tools/aster_cli/src/aster_cli/protobuf.py:463-493 | the byte scan decides validity as defined recursively |
| `Utf8.ValidIsEncoded` | tools/aster_cli/src/aster_cli/protobuf.py:463-493 | everything accepted is the encoding of a sequence of Unicode scalar values (section 4 of RFC 3629) |
| `Utf8.EncodedIsValid` | tools/aster_cli/src/aster_cli/protobuf.py:463-493 | the encoding of every sequence of Unicode scalar values is accepted |
| `Messages.WireFits` | tools/aster_cli/src/aster_cli/protobuf.py:577-611 | an in-bounds value never encodes to more than the computed maximum wire size, for every schema |
| `WireSizes.SizeExactly` | tools/aster_cli/src/aster_cli/protobuf.py:577-611 | the bound is reached: with positive bounds and non-empty nested messages some in-bounds value needs exactly that many bytes |
| `WireFormat.WireExactly` | tools/aster_cli/src/aster_cli/protobuf.py:685-861 | the bytes of a message are exactly those the wire format prescribes, and no others are: fields in number order, tags with the wire types 0, 1, 2 and 5, defaults left out, packed fields as one run |
| `WireWriter.Writer.Varint` | tools/aster_cli/src/aster_cli/protobuf.py:294-303 | succeeds exactly if the bytes fit, and then appends exactly them |
| `WireWriter.Writer.Fixed` | tools/aster_cli/src/aster_cli/protobuf.py:305-319 | the same for 32- and 64-bit words |
| `WireWriter.Writer.LengthDelimited` | tools/aster_cli/src/aster_cli/protobuf.py:331-334 | the same for a tagged, length-prefixed payload |
| `WireWriter.Encode` | tools/aster_cli/src/aster_cli/protobuf.py:685-861 | Ok exactly for an in-bounds value with valid UTF-8 whose encoding fits the output, which then holds the bytes the wire format prescribes; never an internal error |
| `WireWriter.EncodePacked` | tools/aster_cli/src/aster_cli/protobuf.py:704-720 | an in-bounds packed field never overruns its scratch buffer |
| `WireWriter.BufferSuffices` | tools/aster_cli/src/aster_cli/protobuf.py:577-611 | the scratch buffer of a nested message is always large enough |
| `WireReader.Reader.Varint` | tools/aster_cli/src/aster_cli/protobuf.py:352-362 | accepts exactly what the specification accepts, with its value, and moves past it |
| `WireReader.Reader.Pass` | tools/aster_cli/src/aster_cli/protobuf.py:404-425 | skips exactly one well-formed value, groups nested at most sixteen deep included |
| `WireReader.ReadMessage` | tools/aster_cli/src/aster_cli/protobuf.py:1112-1153 | the decoding loop computes the decoding function on all bytes |
| `Decoding.RoundTrip` | tools/aster_cli/src/aster_cli/protobuf.py:925-1153 | decoding the encoding gives the value back, for every schema and in-bounds value: presence, omitted defaults, packed and unpacked repetition, zigzag, nesting |
| `Decoding.DecodeSound` | tools/aster_cli/src/aster_cli/protobuf.py:925-1110 | whatever bytes are accepted, the value is of the type and within every bound, strings valid UTF-8 |
| `Decoding.DecodeFailures` | tools/aster_cli/src/aster_cli/protobuf.py:925-1110 | every failure is a protocol error or an exceeded capacity |
| `DecodingLaw.DecodeExactly` | tools/aster_cli/src/aster_cli/protobuf.py:925-1153 | decoding succeeds exactly if the input is a sequence of tagged values in which every field has only readable values within its bounds, and gives each field by itself what they come to: all of them for a repeated field, packed or not, and the last one otherwise |
| `Groups.SkipExactly` | tools/aster_cli/src/aster_cli/protobuf.py:402-440 | a group of an unknown field is passed over exactly if reading its nesting by recursion, at most 16 deep and every end with the number of its start, succeeds, and to the same place; an end without a start is refused |
| `Groups.StackIsRecursion` | tools/aster_cli/src/aster_cli/protobuf.py:402-428 | the loop with its stack of open numbers does what that recursion does, from any stack |
| `Decoding.Canonical` | tools/aster_cli/src/aster_cli/protobuf.py:925-1153 | accepted bytes in any layout re-encode within the maximum size to the same value |
| `Decoding.UnknownField` | tools/aster_cli/src/aster_cli/protobuf.py:1130-1147 | the bytes of a field the schema lacks are passed over |
| `Decoding.OlderReader` | tools/aster_cli/src/aster_cli/protobuf.py:1112-1153 | a reader that knows only some fields decodes the full message to exactly those |
| `SchemaOrder.Resolve` | tools/aster_cli/src/aster_cli/protobuf.py:1331-1359 | accepts exactly the schemas without recursive or unresolved messages, each message after its dependencies, with the size of the type it stands for |
| `SchemaOrder.MessageMaxWireSize` | tools/aster_cli/src/aster_cli/protobuf.py:577-611 | the loop computes the maximum wire size of the unfolded type |
| `SchemaOrder.TypesWellFormed` | tools/aster_cli/src/aster_cli/protobuf.py:1331-1359 | every type an accepted schema stands for is well formed |
| `SchemaOrder.AcceptedSchema` | tools/aster_cli/src/aster_cli/protobuf.py:1331-1359 | for every message of every accepted schema an in-bounds value fits the recorded size and survives the round trip |
| `Crc32c.Compute` | src/runtime/aster_runtime/transport/usb/crc32c.hpp:9-19 | the bit loop computes the CRC-32C of section 12.1 of RFC 3720 |
| `Crc32c.CheckValue` | src/runtime/aster_runtime/transport/usb/crc32c.hpp:9-19 | the published check value: the digits 1 to 9 give 0xe3069283 |
| `Crc32c.BurstDetected` | src/runtime/aster_runtime/transport/usb/crc32c.hpp:9-19 | inputs of any equal length that differ only within 32 consecutive bits, at any bit offset, have different checksums |
| `Crc32c.ResidueExactly` | src/runtime/aster_runtime/transport/usb/crc32c.hpp:9-19 | an input followed by four bytes leaves one fixed register value exactly if they are its checksum, least significant first |
| `Cobs.CobsEncode` | src/runtime/aster_runtime/transport/usb/cobs.hpp:10-50 | fails exactly when the output is too short; otherwise it holds the encoding |
| `Cobs.CobsDecode` | src/runtime/aster_runtime/transport/usb/cobs.hpp:52-78 | verdict and bytes of the decoding function, for every input |
| `Cobs.EncodedLength` | src/runtime/aster_runtime/transport/usb/cobs.hpp:10-50 | the length is n + 1 plus the number of full runs, at most n + n/254 + 1 |
| `Cobs.RoundTrip` | src/runtime/aster_runtime/transport/usb/cobs.hpp:10-78 | decoding the encoding returns the input, and the encoding has no zero byte |
| `Cobs.CobsExactly` | src/runtime/aster_runtime/transport/usb/cobs.hpp:10-50 | the encoding is exactly what the stuffing rule says: the bytes up to the next zero, 254 at most, after a byte one more than their number, and a zero left out after fewer than 254 |
| `Framing.PacketRoundTrip` | src/runtime/aster_runtime/transport/usb/framing.hpp:49-136 | a sendable packet comes back with every header field exactly if its payload is at most 65535 bytes |
| `Layouts.PacketLayout` | src/runtime/aster_runtime/transport/usb/framing.hpp:49-72 | the unstuffed packet has every header field at its offset, lowest byte first, then the payload and the checksum of all before it, and nothing else has |
| `Layouts.AcceptedExactly` | src/runtime/aster_runtime/transport/usb/framing.hpp:87-136 | a packet is accepted exactly if it is laid out so, with a legal kind and route and a payload that fits |
| `Framing.EncodingFits` | src/runtime/aster_runtime/transport/usb/framing.hpp:46-47 | the encoding never exceeds the capacity constant |
| `Framing.CorruptionRejected` | src/runtime/aster_runtime/transport/usb/framing.hpp:115-119 | an unstuffed packet altered only within 32 consecutive bits, in the body, the checksum or across their border, is never accepted |
| `StreamTransport.PacketCodec.Encode` | src/runtime/aster_runtime/transport/usb/framing.hpp:49-85 | refuses exactly the unsendable packets and too short outputs; otherwise writes the encoding |
| `StreamTransport.PacketCodec.Decode` | src/runtime/aster_runtime/transport/usb/framing.hpp:87-136 | the verdict of the decoding function, for every input |
| `StreamTransport.StreamTransport.Poll` | src/runtime/aster_runtime/transport/usb/stream_transport.hpp:51-96 | buffer, packets handed up and status are those of the byte-by-byte specification, for a receiver whose answer depends on everything it was handed |
| `StreamTransport.ChunkingTheorem` | src/runtime/aster_runtime/transport/usb/stream_transport.hpp:51-96 | however the encodings of a list of packets are cut into reads, the receiver gets exactly those packets in order, and no read fails |
| `StreamTransport.ResyncTheorem` | src/runtime/aster_runtime/transport/usb/stream_transport.hpp:51-96 | in whatever state the receiver is, after a read of any bytes that ends with a delimiter or is answered with an error, the packets of the following reads are all handed up in order |
| `StartupOrder.CycleExactly` | tools/aster_cli/src/aster_cli/graph.py:220-243 | the level-by-level order reports a cycle exactly if the dependency relation has one |
| `StartupOrder.ListingOrderExactly` | tools/aster_cli/src/aster_cli/graph.py:220-243 | the outcome depends only on which instances there are exactly if at most one of them causes a complaint; of several complaints the first listed is raised |
| `StartupOrder.ListingOrderIrrelevant` | tools/aster_cli/src/aster_cli/graph.py:232-243 | the order or the cycle itself never depends on the listing |
| `StartupOrder.StartupTheorem` | tools/aster_cli/src/aster_cli/graph.py:220-243 | for well-formed instances the result is an order of all of them with every dependency first, or a cycle exactly if there is one |
| `StartupOrder.StartupOrder` | tools/aster_cli/src/aster_cli/graph.py:220-243 | the loops compute that outcome: the complaint about the first malformed instance, the order, or the cycle |
| `CanDeviceRun.FenceTheorem` | src/platform/zephyr/can_device.cpp:216-273 | from the return of a Stop that had something to stop, in every continuation, no callback has the adapter's address and none can get it |
| `CanDeviceRun.EarlyStopTheorem` | src/platform/zephyr/can_device.cpp:216-226 | a Stop that returns at once on a stopped adapter is as safe, in every continuation up to the next Start, unless the last Start ended at a refused filter and an earlier one had added one |
| `CanDeviceRun.EarlyStopGap` | src/platform/zephyr/can_device.cpp:97-106 | in that case it is not: from every state in which Start may be called and a filter was added before, steps with one late callback of that filter lead to an Ok Stop while the callback has the address |
| `CanDeviceRun.FilterGivenReached` | src/platform/zephyr/can_device.cpp:97-120 | such states are reached: by a Start whose controller fails after its filter was added |
| `CanDeviceRun.ConservationTheorem` | src/platform/zephyr/can_device.cpp:331-398 | whenever the control lock is free, frames accepted = completed + failed + aborted + queued + in flight + being counted by a completion callback |
| `CanDeviceCounts.CounterTheorem` | src/platform/zephyr/can_device.cpp:331-398 | in every run, counted over the steps: completions are the completion callbacks that took the mark without error, failures those with an ordinary error and the frames rejected with one, aborts those with an abort, the frames rejected with one, those discarded at Stop and the one whose mark Stop found; accepted frames are those of the Sends that found room, in order, and the other Sends are counted as rejected |
| `CanDeviceRun.StatisticsBalance` | src/platform/zephyr/can_device.cpp:331-357 | the statistics alone balance exactly when no completion callback is between taking the mark and raising its counter, so always while no callback is counted |
| `CanDeviceRun.StatisticsGap` | src/platform/zephyr/can_device.cpp:331-357 | a run to a free lock with such a callback, where they do not balance |
| `CanDeviceRun.NothingLeftTheorem` | src/platform/zephyr/can_device.cpp:216-273 | after Stop nothing is queued or in flight and the counters account for every accepted frame, in every continuation |
| `CanDeviceRun.FifoTheorem` | src/platform/zephyr/can_device.cpp:359-391 | the frame about to be offered is the oldest whose fate is open, and the frames handed to the driver are exactly the accepted ones with fate transmitted, in order |
| `CanDeviceRun.NextIsOffered` | src/platform/zephyr/can_device.cpp:359-391 | whenever a running adapter has nothing in flight, Poll, and Send if there is room, puts the oldest frame in the hands of the driver; without a mailbox it stays first |
| `RpcPayload.RequestReadsBack` | src/runtime/aster_runtime/transport/can/rpc_bridge.hpp:203-258 | the server reads back the id, deadline and body the client wrote |
| `RpcPayload.ResponseReadsBack` | src/runtime/aster_runtime/transport/can/rpc_bridge.hpp:582-610 | the client reads back the status, id and body the server wrote |
| `Layouts.RequestLayout` | src/runtime/aster_runtime/transport/can/rpc_bridge.hpp:226-243 | a request is exactly four bytes of id, eight of deadline, lowest first, and the body |
| `Layouts.RequestExactly` | src/runtime/aster_runtime/transport/can/rpc_bridge.hpp:511-518 | anything of at least twelve bytes is read as the one request it is the bytes of |
| `Layouts.ResponseLayout` | src/runtime/aster_runtime/transport/can/rpc_bridge.hpp:582-610 | a response is exactly the status byte, four bytes of id, lowest first, and the body |
| `CanRpcRun.ClientTheorem` | src/runtime/aster_runtime/transport/can/rpc_bridge.hpp:203-364 | in every run accepted = completed, plus one while a call is pending |
| `CanRpcRun.OutcomesFinal` | src/runtime/aster_runtime/transport/can/rpc_bridge.hpp:274-364 | a refused call is never completed and a completed one never again |
| `CanRpcRun.AnswerTheorem` | src/runtime/aster_runtime/transport/can/rpc_bridge.hpp:274-327 | an answered call got the one response the server began for a request with its id and sequence; while at most 16 (2^32 - 1) ids were used, for that very call |
| `CanRpcRun.PairsDiffer` | src/runtime/aster_runtime/transport/can/rpc_bridge.hpp:226-236 | id and sequence, given out in step, come back together only after 16 (2^32 - 1) ids |
| `CanRpcLimits.AnswerExactly` | src/runtime/aster_runtime/transport/can/rpc_bridge.hpp:226-236 | every answer is the call's own, in every run that used at most n ids, exactly if n is at most 16 (2^32 - 1); beyond that there is a failing run in which the sender takes the message of every call, as an idle sender does |
| `CanRpcLimits.WrongAnswer` | src/runtime/aster_runtime/transport/can/rpc_bridge.hpp:246-258 | the run one id longer: ids are used up by calls whose frame is refused, and then the late response to the first call answers the last |
| `CanRpcRun.ServerTheorem` | src/runtime/aster_runtime/transport/can/rpc_bridge.hpp:481-610 | the server begins at most one response for a request it took up, with its id, and none after a peer reset |
| `CanRpcRun.OncePerCall` | src/runtime/aster_runtime/transport/can/rpc_bridge.hpp:481-610 | if every message is handed up at most once, a client call is taken up at most once and at most one response is begun for it |
| `CanRpcPath.DeliveredRequest` | src/runtime/aster_runtime/transport/can/rpc_bridge.hpp:481-523 | in every reachable state of client, server and two reliable paths, what the receiver of requests hands up under a number is byte for byte the request of the call with that number |
| `CanRpcPath.DeliveredResponse` | src/runtime/aster_runtime/transport/can/rpc_bridge.hpp:274-327 | what the receiver of responses hands up under a number is byte for byte the one response begun for that call |
| `CanRpcPath.RefinementTheorem` | src/runtime/aster_runtime/transport/can/rpc_bridge.hpp:203-610 | whatever client and server do over two reliable paths within their bounds, dropping delivered messages or not, is a run of the client and server that the other theorems speak of |
| `CanRpcPath.PathTheorem` | src/runtime/aster_runtime/transport/can/rpc_bridge.hpp:203-610 | end to end, over any run of both paths within their bounds, also where delivered messages are dropped because an acknowledgement was refused: calls are taken up in the order they were made, each at most once and with exactly its request, at most one response is begun for each, and while at most 16 (2^32 - 1) ids were used an answered call got the status and body of that very response |
| `CanRpcEnds.Pump` | src/runtime/aster_runtime/transport/can/rpc_bridge.hpp:381-391 | the frames of a message are offered in order up to the first refused one, and the sender waits for an acknowledgement exactly if none was |
| `CanRpcEnds.CanRpcClient.Seal` | src/runtime/aster_runtime/transport/can/rpc_bridge.hpp:260-270 | calls are let through only after registration, with a writer, a clock and a retry timeout |
| `CanRpcEnds.CanRpcClient.CallAsync` | src/runtime/aster_runtime/transport/can/rpc_bridge.hpp:203-258 | Ok means the call is pending and every frame of its request, with its id, deadline, sequence and retry settings, was written in order; a call that passed the checks fails only if the route cannot be encoded or one of its frames was refused, and then the books are as before and the sender is idle; a blocked or stalled client refuses every call |
| `CanRpcEnds.CanRpcClient.Accept` | src/runtime/aster_runtime/transport/can/rpc_bridge.hpp:274-327 | a frame completes the pending call exactly if it completes a message with its sequence and id that reads as a response, and the acknowledgement could be written; the callback gets that response; the client is blocked exactly if the request was not acknowledged yet |
| `CanRpcEnds.CanRpcClient.Poll` | src/runtime/aster_runtime/transport/can/rpc_bridge.hpp:329-348 | a pending call times out exactly if its deadline has passed or its request is out of retries; a due request is offered again from the start; one that stopped at a refused frame never is |
| `CanRpcEnds.CanRpcClient.ResetPeer` | src/runtime/aster_runtime/transport/can/rpc_bridge.hpp:350-364 | a pending call ends as unavailable, and sender and receiver forget everything |
| `CanRpcEnds.CanRpcServer.Bind` | src/runtime/aster_runtime/transport/can/rpc_bridge.hpp:469-479 | bound once, if the local backend registers it |
| `CanRpcEnds.CanRpcServer.Accept` | src/runtime/aster_runtime/transport/can/rpc_bridge.hpp:481-540 | a frame makes a request active exactly if it completes a usable request in time that the backend accepts; a late or refused one is answered at once under its id and sequence, whenever the clock can be read and the route encoded; an active request is never disturbed, a blocked server takes up nothing |
| `CanRpcEnds.CanRpcServer.Complete` | src/runtime/aster_runtime/transport/can/rpc_bridge.hpp:563-580 | ends the active request; unless the peer was reset in between, a sendable response is begun, with its id and sequence, whenever the clock can be read and the route encoded, and the server is blocked exactly if a frame of it was refused |
| `CanRpcEnds.CanRpcServer.Respond` | src/runtime/aster_runtime/transport/can/rpc_bridge.hpp:582-610 | a sendable response is begun exactly if the clock can be read, the route encoded and there is a retry timeout, and its frames are written up to the first refused one; anything else leaves bus and sender alone |
| `CanRpcEnds.CanRpcServer.Poll` | src/runtime/aster_runtime/transport/can/rpc_bridge.hpp:542-545 | a due response is offered again from the start; one that stopped at a refused frame never is |
| `CanRpcEnds.CanRpcServer.ResetPeer` | src/runtime/aster_runtime/transport/can/rpc_bridge.hpp:547-551 | the active request, if any, will not be answered, and sender and receiver forget everything |
| `CanRpcStuck.AnsweredFirst` | src/runtime/aster_runtime/transport/can/rpc_bridge.hpp:274-327 | a new client whose first call is answered before its request is acknowledged ends up blocked, and refuses the next call |
| `CanRpcStuck.AnswerLost` | src/runtime/aster_runtime/transport/can/rpc_bridge.hpp:288-294 | a new client that cannot write the acknowledgement of the answer stays pending however often the answer is repeated |
| `CanRpcStuck.RetryRefused` | src/runtime/aster_runtime/transport/can/rpc_bridge.hpp:329-348 | a new client whose retry is refused stays pending and offers nothing more at any later poll |
| `CanRpcStuck.ResponseRefused` | src/runtime/aster_runtime/transport/can/rpc_bridge.hpp:563-610 | a new server whose response is refused is blocked and stays so at any later poll |
| `ControlPlane.HandshakeReadsBack` | src/runtime/aster_runtime/transport/can/control_plane.hpp:36-63 | every legal handshake decodes to itself |
| `ControlPlane.HeartbeatReadsBack` | src/runtime/aster_runtime/transport/can/control_plane.hpp:80-110 | every legal heartbeat decodes to itself |
| `ControlPlane.TimeSyncReadsBack` | src/runtime/aster_runtime/transport/can/control_plane.hpp:112-145 | every 48-bit time sync decodes to itself |
| `Layouts.HandshakeLayout` | src/runtime/aster_runtime/transport/can/control_plane.hpp:36-52 | a handshake is exactly version, node, and the two 16-byte hashes |
| `Layouts.HeartbeatLayout` | src/runtime/aster_runtime/transport/can/control_plane.hpp:80-97 | a heartbeat is exactly a frame with id 2: 0xc0, node, number, flags and four bytes of uptime, lowest first |
| `Layouts.TimeSyncLayout` | src/runtime/aster_runtime/transport/can/control_plane.hpp:112-129 | a time sync is exactly a frame with id 3: 0xc1, number and six bytes of microseconds, lowest first |
| `Layouts.HandshakeExactly` | src/runtime/aster_runtime/transport/can/control_plane.hpp:54-65 | exactly those with a version and a node other than 0 are read, each as the handshake it is |
| `Layouts.HeartbeatExactly` | src/runtime/aster_runtime/transport/can/control_plane.hpp:99-110 | exactly those of a node other than 0 are read, each as the heartbeat it is |
| `Layouts.TimeSyncExactly` | src/runtime/aster_runtime/transport/can/control_plane.hpp:131-145 | exactly those are read, each as the time sync it is |
| `ControlPlane.Check` | src/runtime/aster_runtime/transport/can/control_plane.hpp:167-178 | compatible exactly if version, deployment and schema all agree |
| `ControlPlane.RestartNoticed` | src/runtime/aster_runtime/transport/can/link_control.hpp:278-309 | a heartbeat with an earlier uptime gives a restart away exactly if the uptime fell by at most 2^31 ms and its number is at most 127 past the last one heard, or 0 or 1 |
| `ControlPlane.RestartNoticedInRun` | src/runtime/aster_runtime/transport/can/link_control.hpp:278-309 | whichever heartbeats get through while uptimes stay below, the restart is noticed exactly if one of them is such a one |
| `ControlPlane.NoticedOnceReached` | src/runtime/aster_runtime/transport/can/link_control.hpp:278-309 | at the latest by the first one that gets through numbered from the last one heard to 127 beyond |
| `ControlPlane.RunningPeerIsNext` | src/runtime/aster_runtime/transport/can/link_control.hpp:278-309 | a peer that kept running and is heard again within less than 2^31 ms is not taken for a restarted one, however many heartbeats were lost, and is accepted once its uptime has moved |
| `ControlPlane.LongSilence` | src/runtime/aster_runtime/transport/can/link_control.hpp:278-309 | a peer that kept running, after any silence, is taken for a restarted one exactly if the milliseconds passed are at least 2^31 modulo 2^32 and the number of beats, modulo 256, is at most 127 or the new number 0 or 1; with another number it is taken for an old one |
| `LinkControl.SteadyIsStreak` | src/runtime/aster_runtime/transport/can/control_plane.hpp:187-225 | counting heartbeats decides exactly whether the last n were consecutive with no lost poll since |
| `LinkControl.LearnAgrees` | src/runtime/aster_runtime/transport/can/link_control.hpp:249-363 | every event changes the fields as it changes the history |
| `LinkControl.OpenIsGate` | src/runtime/aster_runtime/transport/can/link_control.hpp:360-363 | the flag computed from the fields is the gate defined over the history |
| `LinkControlEnds.LinkControlPlane.Accept` | src/runtime/aster_runtime/transport/can/link_control.hpp:162-190 | adds to the history what the frame tells, leaves the flag equal to the gate, and answers Ok exactly for a welcome event or an acknowledgement the handshake sender takes |
| `LinkControlEnds.LinkControlPlane.Poll` | src/runtime/aster_runtime/transport/can/link_control.hpp:66-159 | takes only times that do not run backwards, leaves the flag equal to the gate, and once the handshake is through offers exactly the heartbeat and the time sync that are due, the second only if the first is not refused |
| `LinkBeacon.NeverLooksRestarted` | src/runtime/aster_runtime/transport/can/link_control.hpp:120-141 | over every run of polls: whichever heartbeats get through to the peer, none less than 2^31 ms after another is taken for that of a restarted plane, and each is accepted once the uptime has moved or if at most 127 were offered since |
| `LinkBeacon.LooksRestartedExactly` | src/runtime/aster_runtime/transport/can/link_control.hpp:120-141 | over every run of polls, for any two heartbeats however far apart: the later one is taken for that of a restarted plane exactly if the milliseconds between them are at least 2^31 modulo 2^32 and the heartbeats offered since, modulo 256, are at most 127 or its number is 0 or 1 |
| `LinkBeacon.Spaced` | src/runtime/aster_runtime/transport/can/link_control.hpp:120-141 | a heartbeat sent after another lies at least a period later exactly if the time of the first plus the period does not exceed 2^64 - 1 ns |
| `LinkBeacon.AlwaysDue` | src/runtime/aster_runtime/transport/can/link_control.hpp:120-141 | after a heartbeat sent so late that its time plus the period exceeds 2^64 - 1 ns, every poll offers one |
| `LinkBeacon.OfferedExactly` | src/runtime/aster_runtime/transport/can/link_control.hpp:120-139 | over every run of polls, while the time plus the period does not exceed 2^64 - 1 ns: a poll offers a heartbeat exactly if every one sent before lies at least a period back |
| `LinkBeacon.SyncOfferedExactly` | src/runtime/aster_runtime/transport/can/link_control.hpp:141-157 | and, within the same limit, the time authority offers a time sync exactly if its heartbeat is not refused and every time sync sent before lies at least a period back |
| `LinkControlEnds.LinkControlPlane.HandlePeerRestart` | src/runtime/aster_runtime/transport/can/link_control.hpp:311-321 | the gate closes and everything heard before is forgotten |
| `LinkControlEnds.LinkControlPlane.WriteApplication` | src/runtime/aster_runtime/transport/can/link_control.hpp:333-350 | a frame reaches the writer exactly if it is an application frame and the gate is open |

## Left out

- Weak memory: atomics and locks are sequentially consistent, and work between two atomic operations is one step.
- Liveness: nothing is said about when a worker, callback, retry or acknowledgement happens, only what holds if it does.
- Statistics that no property needs are not modelled; those that are modelled are unbounded and do not wrap at 32 bits.
- The received masks of both reassemblers are sets of bit positions, not machine words.
- Write tokens of the reliable sender wrap in the model; executor tickets and call record identities do not.
- The reliable path is stated for one sender and one receiver on one arbitration id.
- RpcCalls.StepInv: a call's request and response bytes are not modelled, only statuses and times; Quiesce is not called twice at once.
- RpcCalls.CancelPending: works on the state as a value; the list with stable iterators and the unlocking around the callback are the steps of the state machine.
- Executor worker threads: a thread body is the steps take and finish; condition variables and the 100 ms cap on waits are not modelled.
- Protocol Buffers text generation, service stubs, descriptor parsing and YAML bounds; the model starts from declared messages with their fields in number order.
- WireWriter.Encode: the contents of the output after a failure are not described.
- WireReader.ReadMessage: the partly filled message after a failure is not described.
- Decoding.RoundTrip: encodings above 2^64 - 1 bytes are excluded, since sizes are 64-bit in the emitted code.
- Framing.CorruptionRejected: is about the unstuffed packet; a change to the stuffed bytes can spread over more than 32 bits.
- StreamTransport.ChunkingTheorem: for a receiver that accepts every packet and does not send from inside its callback, as is ResyncTheorem.
- DecodingLaw.DecodeExactly: which of the two errors a failure is reported as is not described.
- ReliableTiming.TimelyExactly: for frames in order.
- CanDevice: receive queue, receiver dispatch and the poll mutex; of Poll only its effect on transmission.
- CanDeviceRun.FenceTheorem: the driver calls the completion of each accepted frame once; receive callbacks may begin at any time once a filter was added.
- CanRpcRun: a writer or backend that calls back from inside a call is not modelled.
- CanRpcEnds: the call fields and statistics of an object are one record it updates through CanRpc; whether a service descriptor matches, a clock is there and the backend registers are inputs.
- CanRpcPath.PathTheorem: until a peer reset, after which a receiver no longer knows which messages it handed up; the four bounds of the reliable path hold on both paths.
- LinkControlEnds.LinkControlPlane.Poll: what becomes of the handshake's own frames before the heartbeat is an input, as are the reliable path's answers in Accept; the time offset filter is left out.
- FreshnessGuard, FastChannelEgress and the channel bridges.
- Runtime and supervisor life cycle beyond the order of Quiesce.
- SocketCAN, TTY, UART, USB CDC and plugin loading; the C ABI tables and reference facades; registries, routers and configurators, which would add only easy members.
