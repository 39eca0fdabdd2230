# Verified model of the mini_dds reliable protocol

mini_dds is a small RTPS stack. This project models the parts of it that carry samples
reliably and proves what they promise:

- **The reliable protocol** (section 8.4 of DDSI-RTPS 2.5). `Reception` is what a reader
  knows about one writer and how DATA, HEARTBEAT and GAP change it; `ReaderRuns` proves
  what holds after every sequence of submessages and `ReaderProgress` how far the reader
  has got by then; `Acks`, `AckLimits` and `AckMatching` relate the ACKNACK a reader sends
  to the verdict the writer draws from it; `Skipping` says when a reader moves over a
  number without committing it; `Protocol` puts a writer, readers and a network that
  loses, repeats, delays and reorders datagrams together, with every packet crossing the
  network as bytes, and `ProtocolProgress` shows that it gets on; `ReliableReader` and
  `ReliableWriter` are the two endpoints as mutable classes with the loops of the source,
  with the books of a delivery in `Delivery` and its timing in `Pacing`;
  `WriterInProtocol` shows that what the writer class does are steps of the protocol, with
  the class's own contract in `DeliveryPlays`. `UnknownReaders` is about proxies with an
  unknown reader id. `IntegerRange` says when the 64-bit arithmetic of the reader is the
  arithmetic of the model.
- **The asynchronous queue.** `AsyncQueue` is the step system of callers, worker, waiters
  and destructor under both mutexes; `AsyncWaits` says how each wait ends; `AsyncWriter` is
  the code of its critical sections;
  `AsyncProtocol` puts the queue on top of the protocol.
- **The router.** `Routing` compares `route_target` with the checks of the endpoints;
  `Router` is the step system of the receiver thread and the channels; `MessageRouter` is
  its code.
- **Histories.** `History` relates the bounded caches to full logs.
- **Wire formats.** `Cdr` and `CdrStreams` (CDR in both byte orders), `Message`,
  `SequenceSet`, `Submessages`, `Data`, `Reliability`, `ReliabilityCodec`, `Incoming`,
  `SerializedPayload`, `ParameterList`, `DiscoveryValues`, `Discovery` and
  `DiscoveryCodec`. Each decoder is a function of bytes; the methods that append to a
  writer or advance a reader are proved equal to those functions. `WireLayout` and
  `DiscoveryLayout` say byte by byte where everything stands, and `DecodedExactly` that a
  decoder accepts exactly the bytes that stand for a submessage.
- `Types`, `Bits` and `Seqs` hold what the others share.

Every file is one module of the same name. `dafny verify dfyconfig.toml` checks all of
them.

## What turned out false, and the exact condition

- **A true delivery does not always mean that every matched reader has the change**, as
  README.md and docs/architecture.md of the repository promise. A reader proxy with an
  unknown id is settled by any reader at its endpoint: `UnknownReaders.OneIsMissed` is an
  execution in which a write is confirmed and one of two readers committed nothing. The
  promise holds for a proxy in every execution if and only if its id is known or its
  endpoint carries at most one reader (`UnknownReaders.PromiseExact`). What holds for
  every proxy is that some reader it stands for has the change
  (`Protocol.ConfirmedMeansCommitted`).
- **An ACKNACK does not always mean what the writer reads out of it.** For a reader that
  knows the writer's range and is below 2^63 - 1 the verdict is exactly the intended one
  (`Acks.VerdictExact`); at the top a committed number is asked for again
  (`Acks.VerdictAtMaximum`). A reader that does not know the range has committed nothing;
  it is taken to acknowledge n exactly when n and the whole window of the ACKNACK arrived
  or were declared irrelevant (`Acks.UnrangedExact`, `AckLimits.UnrangedRun`), which takes
  a GAP that declared number 1 (`Acks.UnrangedAsks`); `AckLimits.UnrangedAccepts` is an
  input. A number that was never announced is accepted exactly when the reader knows the
  range and has gone beyond what was announced (`Acks.OvertakenExact`,
  `AckLimits.StaleExact` for every run); `AckLimits.GapOvertakes` is an input. This writer
  sends no GAP, and without GAP neither happens (`Acks.StaleAckRejected`).
- **A reader does not pass on only the contiguous sequence**, as docs/architecture.md
  says: `Skipping.SkipsOne` is an input. A step commits every number it moves over if and
  only if no HEARTBEAT starts above the next number, no GAP covers it, and the commit loop
  meets no irrelevant number (`Skipping.StepSkips`), and a run has committed the
  contiguous sequence from 1 if and only if none of its steps skipped
  (`Skipping.RunSkips`). `ReaderRuns.NoSilentLoss` says what a skipped number must be.
- **The 64-bit arithmetic of a step can overflow.** It does exactly when a HEARTBEAT or
  GAP reaches a reader that has committed number 2^63 - 1, when a GAP list runs past that
  number, or when a GAP starts at 2^63 - 256 and is remembered number by number: the
  source guards start + 256 - 1 but computes start + 256 first
  (`IntegerRange.StepFits`, `IntegerRange.RunExact` for runs). `IntegerRange.TopOverflows`
  and `IntegerRange.GuardOverflows` are inputs. No run overflows while the network names
  only numbers below 2^63 - 1 and sends no GAP with that start (`IntegerRange.RunFits`).
- **A discovery lease does not always come back**: it does exactly when its milliseconds
  are a multiple of 125, and is one millisecond short otherwise; a lease of one
  millisecond does not decode (`DiscoveryValues.DurationRoundTrip`,
  `Discovery.ParticipantRoundTrip`).

## How to read the model

- The network, the clock, the stop flag and the thread schedule are nondeterministic.
  `ReliableWriter.Environment` assumes that the clock advances from one pass of the
  delivery loop to the next and that a pass takes at most a given time; termination and
  the time bound of `deliver_change` rest on that and on nothing else.
- Error texts are left out: a failing decoder returns None, a failing method false.
- A CDR string longer than a 32-bit length can announce throws in the source; here the
  writing method refuses it.
- In `Protocol` a write begins when its delivery does. A synchronous write delivers at
  once; the asynchronous queue hands the changes over in write order, and `AsyncProtocol`
  is the system of both.
- Integers are unbounded with the casts of the source written out; `IntegerRange` says
  when the reader's signed 64-bit arithmetic stays in range.
- Addresses are byte strings. `ParseIpv4` takes digits and dots only.

## Model

| member | source | states |
|---|---|---|
| Protocol.ConfirmedMeansCommitted | src/rtps/ReliableEndpoint.cpp:180-368 | in every execution over a lossy, duplicating, delaying and reordering network, if deliver_change returned true for change n then for every proxy of its snapshot some reader it stands for has committed exactly that number and payload, and if the id is known it is that reader itself |
| UnknownReaders.PromiseExact | src/rtps/ReliableEndpoint.cpp:58-66 | the promise that every reader a proxy stands for has committed each confirmed write holds in every execution if and only if the proxy's id is known or its endpoint carries at most one reader |
| UnknownReaders.OneIsMissed | src/rtps/ReliableEndpoint.cpp:329-346 | an execution: with an unknown id and two readers at the endpoint a write is confirmed while one of them committed nothing |
| Protocol.LogsFollowWrites | src/rtps/ReliableEndpoint.cpp:644-842 | in every execution each reader's committed log is a strictly increasing selection of the writer's writes, with the payloads that were written |
| Protocol.SettledMeansCommitted | src/rtps/ReliableEndpoint.cpp:298-346 | a datagram from the network that settles a proxy for the latest change is an ACKNACK of a reader the proxy stands for, and that reader has committed the change, however old the datagram is |
| Protocol.AckMeansCommitted | src/rtps/ReliableEndpoint.cpp:24-44 | an ACKNACK built from what a reader heard of this writer is accepted for the latest change only if that change is in the reader's log |
| Protocol.AcceptedIsTold | src/rtps/ReliableEndpoint.cpp:656-746 | whatever a reader accepts from the network is a change or range the writer really sent |
| Protocol.DataUnderstood | src/rtps/ReliableEndpoint.cpp:121-147 | the bytes of a sent DATA are accepted as that change by exactly the readers they address, and are no ACKNACK to the writer |
| Protocol.HeartbeatUnderstood | src/rtps/ReliableEndpoint.cpp:149-178 | the bytes of a sent HEARTBEAT are accepted as the range (n, n) by exactly the readers they address, and are no ACKNACK to the writer |
| Protocol.AckUnderstood | src/rtps/ReliableEndpoint.cpp:298-327 | the bytes of a sent ACKNACK are ignored by readers and read back unchanged by the writer they name |
| Protocol.StepKeeps | src/rtps/ReliableEndpoint.cpp:180-842 | every step of writer, reader and network keeps the invariant: readers heard only what was sent, every ACKNACK in flight reports an earlier state of its reader, every confirmed change is committed by a reader each proxy stands for |
| Protocol.ExecutionInvariant | src/rtps/ReliableEndpoint.cpp:180-842 | the invariant holds in every world of every execution |
| ProtocolProgress.OfferSettles | src/rtps/ReliableEndpoint.cpp:704-766 | once the network has handed DATA and HEARTBEAT of the latest change to a reader, in either order, an ACKNACK that settles every proxy standing for it is in the network |
| ProtocolProgress.LatestSettles | src/rtps/ReliableEndpoint.cpp:722-766 | whoever got the latest change and its HEARTBEAT has sent an ACKNACK that settles every proxy standing for it |
| ProtocolProgress.AllGotConfirms | src/rtps/ReliableEndpoint.cpp:225-367 | in every execution: once every proxy of the snapshot stands for a reader that got both, the delivery can end with success |
| ProtocolProgress.LatestReached | src/rtps/ReliableEndpoint.cpp:701-766 | such a reader stands at the latest change with nothing announced beyond |
| ProtocolProgress.HandedIsHeard | src/rtps/ReliableEndpoint.cpp:644-766 | a reader that is handed a packet for it hears what the packet says |
| ProtocolProgress.ExecutionReplies | src/rtps/ReliableEndpoint.cpp:722-766 | in every execution every reader has sent the ACKNACK of what it knows now |
| ReaderRuns.NoSilentLoss | src/rtps/ReliableEndpoint.cpp:687-839 | after any submessages, every number up to the contiguous one was committed, declared irrelevant by a received GAP, or lies below the first number of a received HEARTBEAT |
| Skipping.StepSkips | src/rtps/ReliableEndpoint.cpp:687-839 | a step commits every number it moves over if and only if no HEARTBEAT starts above the next number, no GAP covers it and the commit loop meets no irrelevant number |
| Skipping.RunSkips | src/rtps/ReliableEndpoint.cpp:687-839 | a run has committed the contiguous sequence from 1 if and only if none of its steps skipped |
| Skipping.StepCommits | src/rtps/ReliableEndpoint.cpp:553-578 | number by number, what one submessage makes the reader commit |
| Skipping.SkipsOne | src/rtps/ReliableEndpoint.cpp:749-752 | an input: a HEARTBEAT that starts at 2 and DATA(2) leave the reader at 2 with 1 never committed |
| ReaderRuns.CommitsInOrder | src/rtps/ReliableEndpoint.cpp:553-578 | for any submessages, commits are strictly increasing and each is the change of the first DATA with its number |
| ReaderRuns.HighestNeverDecreases | src/rtps/ReliableEndpoint.cpp:687-839 | no submessage moves the contiguous number back |
| ReaderRuns.ArrivedStays | src/rtps/ReliableEndpoint.cpp:708-718 | a number whose DATA arrived is pending or at most the contiguous number ever after |
| ReaderRuns.RunInvariant | src/rtps/ReliableEndpoint.cpp:687-839 | the invariant of every run: received equals the pending keys, pending numbers are announced, an unknown range means nothing committed and 1 not received, and once the range is known the next number is neither pending nor irrelevant |
| ReaderRuns.StepKeeps | src/rtps/ReliableEndpoint.cpp:687-839 | each submessage keeps that invariant |
| ReaderProgress.RunExact | src/rtps/ReliableEndpoint.cpp:687-765 | where a reader stands after any DATA and HEARTBEATs in any order: at 0 until it knows where the writer starts, then at the end of the run of arrived numbers above the highest first - 1 it was told |
| ReaderProgress.OneEnd | src/rtps/ReliableEndpoint.cpp:553-578 | that place is unique |
| ReaderProgress.HeardReaches | src/rtps/ReliableEndpoint.cpp:749-762 | with or without GAP, whoever heard a HEARTBEAT stands at its first - 1 or beyond ever after |
| ReaderProgress.SeenReaches | src/rtps/ReliableEndpoint.cpp:708-766 | with or without GAP, a number that arrived is passed once a HEARTBEAT (n, n) is heard |
| ReaderProgress.HeartbeatMoves | src/rtps/ReliableEndpoint.cpp:749-765 | a HEARTBEAT moves the reader to the larger of where it stands and first - 1, and loses nothing beyond |
| ReaderProgress.GapMoves | src/rtps/ReliableEndpoint.cpp:794-827 | a GAP that covers the next number moves the reader to its base - 1; any other marks exactly its list and the first 256 of its range, or the whole range if it starts within 254 of the top |
| ReaderProgress.DataMoves | src/rtps/ReliableEndpoint.cpp:701-718 | a DATA is kept unless its number was passed or has arrived |
| ReaderProgress.StepReaches | src/rtps/ReliableEndpoint.cpp:553-578 | the commit loop then goes on to the first number that is neither at hand nor irrelevant, and only if the range is known |
| Reception.CommitSpec | src/rtps/ReliableEndpoint.cpp:553-578 | commit_contiguous stops at the largest number reachable without a hole, empties the containers up to it, and delivers exactly the changes that are not irrelevant |
| Reception.SliceExact | src/rtps/ReliableEndpoint.cpp:566-575 | what is delivered is strictly increasing and is every pending change of the range that no GAP declared, and nothing else |
| Reception.OneFrontier | src/rtps/ReliableEndpoint.cpp:556-570 | the stopping point is unique |
| Acks.AckExact | src/rtps/ReliableEndpoint.cpp:580-642 | the encoder accepts every ACKNACK a reader builds, and behind any tail it decodes to itself; below 2^63 - 1 its base is the next number, its size the distance to the last known number capped at 256, and it asks for exactly those of these numbers that neither arrived nor are irrelevant; at 2^63 - 1 it asks for that number or nothing; the final flag is set exactly when it asks for nothing |
| Acks.MissingExact | src/rtps/ReliableEndpoint.cpp:592-621 | base, size and missing numbers of the window by the last known number, the larger of the announced one and the largest pending one |
| Acks.VerdictExact | src/rtps/ReliableEndpoint.cpp:24-44 | the writer counts n as delivered exactly when the reader has reached n and nothing announced is beyond what it has reached |
| Acks.VerdictAtMaximum | src/rtps/ReliableEndpoint.cpp:592-602 | the exact verdict at the top of the 64-bit range, where the base stays on the committed number |
| Acks.UnrangedExact | src/rtps/ReliableEndpoint.cpp:24-44 | a reader that does not know the range is taken to acknowledge n exactly when n is in the window and every number of the window arrived or was declared irrelevant |
| Acks.OvertakenExact | src/rtps/ReliableEndpoint.cpp:24-44 | a reader that knows the range acknowledges some number that was never announced exactly when it stands above what was announced |
| Acks.RunAnnounced | src/rtps/ReliableEndpoint.cpp:708-765 | with or without GAP, the numbers announced to a reader are exactly those up to last_announced |
| AckLimits.StaleExact | src/rtps/ReliableEndpoint.cpp:342-346 | for every run with GAP: an ACKNACK is accepted for a number never announced to its reader exactly when the reader knows the range and stands above what was announced, the top number excepted |
| AckLimits.UnrangedRun | src/rtps/ReliableEndpoint.cpp:701-721 | for every run that leaves the range unknown: nothing is committed, the exact condition for being taken to acknowledge n, and that it takes a GAP declaring number 1 |
| Acks.UnrangedAsks | src/rtps/ReliableEndpoint.cpp:701-721 | a reader that does not know the range is never taken to acknowledge anything unless number 1 is irrelevant to it |
| Acks.StaleAckRejected | src/rtps/ReliableEndpoint.cpp:342-346 | without GAP, an ACKNACK sent before n was announced to its reader never counts for n |
| Acks.NoRequests | src/rtps/ReliableEndpoint.cpp:38-44 | some word of an ACKNACK is non-zero exactly when a number is missing |
| Acks.NoGapRun | src/rtps/ReliableEndpoint.cpp:701-764 | without GAP nothing becomes irrelevant, nothing is skipped beyond what was announced, and every number up to the announced one was announced by a submessage that arrived |
| AckLimits.GapOvertakes | src/rtps/ReliableEndpoint.cpp:794-803 | an input: after one GAP a reader acknowledges a number that was never announced |
| AckLimits.UnrangedAccepts | src/rtps/ReliableEndpoint.cpp:821-830 | an input: a GAP that names 1 and a DATA make the writer take a change for delivered while nothing was committed |
| IntegerRange.StepFits | src/rtps/ReliableEndpoint.cpp:749-827 | every signed 64-bit expression of a step, intermediate sums included, fits if and only if the step is none of the four overflowing ones |
| IntegerRange.RunExact | src/rtps/ReliableEndpoint.cpp:553-842 | every expression of every step of a run fits if and only if no step is an overflowing one |
| IntegerRange.GuardOverflows | src/rtps/ReliableEndpoint.cpp:805-814 | an input: a GAP that starts at 2^63 - 256 overflows in a new reader although its guard lets it through |
| IntegerRange.RunFits | src/rtps/ReliableEndpoint.cpp:553-842 | no expression of any run overflows while the network names only numbers below 2^63 - 1 and sends no GAP that starts at 2^63 - 256 |
| IntegerRange.TopOverflows | src/rtps/ReliableEndpoint.cpp:753-754 | an input: with number 2^63 - 1 the next HEARTBEAT overflows, so the bound cannot be raised |
| IntegerRange.GapMemory | src/rtps/ReliableEndpoint.cpp:794-820 | for every GAP the decoder accepts, the range loop inserts at most 256 numbers, all inside the gap, its counter stays in range, and a gap of up to 256 numbers is remembered whole |
| Incoming.ParsedIsGenuine | src/rtps/ReliableEndpoint.cpp:656-713 | what receive_once accepts has positive numbers in order and carries the writer GUID of its header |
| ReliableReader.WriterState.AbsorbData | src/rtps/ReliableEndpoint.cpp:704-718 | the in-place update by DATA is the specified one |
| ReliableReader.WriterState.EraseBelow | src/rtps/ReliableEndpoint.cpp:756-760 | the erase loop removes exactly the pending numbers below the bound, and their marks |
| ReliableReader.WriterState.AbsorbHeartbeat | src/rtps/ReliableEndpoint.cpp:749-765 | the in-place update by HEARTBEAT is the specified one: a reader that knows the range moves to first - 1 unless it is beyond, any other one moves there, and nothing pending beyond that is lost |
| ReliableReader.WriterState.AbsorbGap | src/rtps/ReliableEndpoint.cpp:794-827 | the in-place update by GAP is the specified one |
| ReliableReader.WriterState.RememberRange | src/rtps/ReliableEndpoint.cpp:805-819 | the range loop adds exactly the remembered numbers |
| ReliableReader.WriterState.RememberList | src/rtps/ReliableEndpoint.cpp:821-827 | the list loop adds exactly the members of the set |
| ReliableReader.ReliableReader.constructor | src/rtps/ReliableEndpoint.cpp:519-529 | a new reader has heard and committed nothing |
| ReliableReader.ReliableReader.FindWriter | src/rtps/ReliableEndpoint.cpp:531-551 | finds or makes the record of a writer and moves its reply endpoint; neither the state nor the endpoint of another record changes |
| ReliableReader.ReliableReader.AddWriter | src/rtps/ReliableEndpoint.cpp:546-550 | a writer heard for the first time gets the initial record, and no other record changes |
| ReliableReader.ReliableReader.CommitContiguous | src/rtps/ReliableEndpoint.cpp:553-578 | the commit loop refines its specification; the history takes every change, so its duplicate branch is not reached and the count is the number added |
| ReliableReader.ReliableReader.Append | src/rtps/ReliableEndpoint.cpp:571-571 | a committed change is never a duplicate in the history |
| ReliableReader.ReliableReader.BuildAckNack | src/rtps/ReliableEndpoint.cpp:580-642 | encoding never fails, the count wraps from 2^31 - 1 to 1, and behind the message header the bytes decode to this reader's request for exactly the numbers the record lacks up to the last one it knows of, at most 256 |
| ReliableReader.ReliableReader.FindLastKnown | src/rtps/ReliableEndpoint.cpp:600-603 | the larger of the announced number and the largest pending one |
| ReliableReader.ReliableReader.FillBitmap | src/rtps/ReliableEndpoint.cpp:606-620 | the bitmap loop sets exactly the bits of numbers that are not at hand |
| ReliableReader.ReliableReader.Process | src/rtps/ReliableEndpoint.cpp:704-721 | a submessage changes its writer's record by one step, appends that step's commits to the history, and leaves other writers alone |
| ReliableReader.ReliableReader.ReceiveOnce | src/rtps/ReliableEndpoint.cpp:644-842 | the whole receive_once: which inputs are errors, ignored or accepted, the new states (`ReaderProgress` says what each submessage does to them) and reply endpoints, the commits, the status, and the reply with the ACKNACK of the new state; and the states and the log stay those of the runs heard |
| ReliableReader.ReliableReader.Take | src/rtps/ReliableEndpoint.cpp:844-847 | taking a sample disturbs neither states nor commits |
| ReliableReader.NothingAhead | src/rtps/ReliableEndpoint.cpp:553-578 | no accepted change of a writer is above that writer's contiguous number |
| ReliableReader.HearMore | src/rtps/ReliableEndpoint.cpp:531-578 | one more submessage keeps every record and the shared history equal to the runs of all writers |
| ReliableWriter.ReliableWriter.DeliverChange | src/rtps/ReliableEndpoint.cpp:180-368 | terminates; true only after every reader answered with a settling ACKNACK during the call; false only after a failed transport, a stop, an unencodable payload or a reader out of retries; every datagram that came in met its demand at once: it settled the first pending reader it matches, or made DATA and HEARTBEAT go to it, or ended the call at the retry limit; with known ids no settling datagram is lost, and a reader out of retries is one none came in for; each pass scans once and waits once; no DATA comes before the timeout unless asked for, no HEARTBEAT alone before the period, and no scan leaves either overdue; at most 1 + max_retries DATA per reader, none after it settled, the counter grows by the repeats, and no pass begins at (max_retries + 1) * (timeout + longest pass) or later |
| ReliableWriter.ReliableWriter.Deliver | src/rtps/ReliableEndpoint.cpp:215-367 | the same for the first round and the loop, from fresh records |
| ReliableWriter.ReliableWriter.NothingLost | src/rtps/ReliableEndpoint.cpp:340-357 | for known ids: every reader a settling datagram came in for has settled, and unless something else ended the call a false return names a reader out of retries that nothing received settles |
| ReliableWriter.ReliableWriter.RunPasses | src/rtps/ReliableEndpoint.cpp:225-367 | the loop ends by retries left and then time to the retry deadlines, with the books kept |
| ReliableWriter.ReliableWriter.Pass | src/rtps/ReliableEndpoint.cpp:231-364 | one pass either fails for a stated reason or makes the termination measure smaller, and begins before the give-up time |
| ReliableWriter.ReliableWriter.BeginPass | src/rtps/ReliableEndpoint.cpp:231-265 | the scan of a pass, which makes the measure smaller and leaves every pending deadline ahead |
| ReliableWriter.ReliableWriter.AwaitReply | src/rtps/ReliableEndpoint.cpp:271-364 | waits once; a datagram that comes in is handled now and in order, and what it demands is done or cuts the call short; never makes the measure larger |
| ReliableWriter.ReliableWriter.InitialTransmission | src/rtps/ReliableEndpoint.cpp:215-223 | sends DATA and HEARTBEAT to every reader in order and arms both deadlines, or stops at the first failure with nothing sent behind it; the trace is stated in both cases |
| ReliableWriter.ReliableWriter.Scan | src/rtps/ReliableEndpoint.cpp:231-265 | exactly which readers are retried or reminded, the datagrams sent for them in order, and the new deadlines |
| ReliableWriter.ReliableWriter.ScanOne | src/rtps/ReliableEndpoint.cpp:232-264 | the three cases of one record |
| ReliableWriter.ReliableWriter.Retransmit | src/rtps/ReliableEndpoint.cpp:245-253 | counts one retry in the record and in the counter and sends DATA and HEARTBEAT once more |
| ReliableWriter.ReliableWriter.Transmit | src/rtps/ReliableEndpoint.cpp:217-220 | sends DATA and then HEARTBEAT to one reader; if the DATA cannot be encoded or sent nothing follows, and if the HEARTBEAT fails the DATA had been sent |
| ReliableWriter.ReliableWriter.Remind | src/rtps/ReliableEndpoint.cpp:256-264 | sends one HEARTBEAT and moves its deadline |
| ReliableWriter.ReliableWriter.Rearm | src/rtps/ReliableEndpoint.cpp:254-255 | sets both deadlines of one reader |
| ReliableWriter.ReliableWriter.ReceiveTimeout | src/rtps/ReliableEndpoint.cpp:271-287 | waits between 1 and 50 milliseconds, past no deadline by more than a millisecond, and not needlessly short |
| ReliableWriter.ReliableWriter.FindPending | src/rtps/ReliableEndpoint.cpp:329-338 | finds the first pending reader the ACKNACK matches |
| ReliableWriter.ReliableWriter.HandleReply | src/rtps/ReliableEndpoint.cpp:298-364 | exactly what a received datagram does: settle, retransmit, fail at the retry limit, or nothing; and that this meets what the datagram demands |
| ReliableWriter.ReliableWriter.Close | src/rtps/ReliableEndpoint.cpp:342-346 | marks the reader acknowledged and records the datagram that settled it |
| ReliableWriter.ReliableWriter.AllAcknowledged | src/rtps/ReliableEndpoint.cpp:198-205 | true exactly when every record is acknowledged |
| ReliableWriter.ReliableWriter.SendChange | src/rtps/ReliableEndpoint.cpp:121-147 | hands exactly one encoded DATA to the transport unless the payload cannot be encoded |
| ReliableWriter.ReliableWriter.SendHeartbeatTo | src/rtps/ReliableEndpoint.cpp:149-178 | hands exactly one HEARTBEAT (n, n) to the transport, with a count that wraps from 2^31 - 1 to 1 |
| ReliableWriter.ReliableWriter.Write | src/rtps/ReliableEndpoint.cpp:370-398 | synchronous write: refused without readers or while stopping, otherwise the payload gets the next number and is delivered to the readers of that moment, with all that a delivery promises |
| ReliableWriter.ReliableWriter.constructor | src/rtps/ReliableEndpoint.cpp:86-110 | periods that are not positive become one millisecond, and readers are made unique |
| ReliableWriter.ReliableWriter.SetReaders | src/rtps/ReliableEndpoint.cpp:445-449 | replaces the readers by the distinct ones given |
| ReliableWriter.UniqueReaders | src/rtps/ReliableEndpoint.cpp:46-56 | keeps each proxy once, in order of first occurrence |
| Delivery.ScanProgress | src/rtps/ReliableEndpoint.cpp:231-265 | a later scan uses up retries or brings a pending reader closer to its retry deadline and none farther from it |
| Delivery.ReplyProgress | src/rtps/ReliableEndpoint.cpp:329-364 | a reply changes nothing or reduces readers and retries left |
| Delivery.ScannedTimely | src/rtps/ReliableEndpoint.cpp:237-255 | after a scan every pending reader's retry deadline lies ahead, at most retries times (timeout + longest pass) after the first |
| Delivery.ReplyTimely | src/rtps/ReliableEndpoint.cpp:361-363 | a retransmission on request keeps that bound |
| Delivery.PassBegins | src/rtps/ReliableEndpoint.cpp:225-243 | a pass with a pending reader begins before (max_retries + 1) times (timeout + longest pass) |
| Delivery.TracksRetry | src/rtps/ReliableEndpoint.cpp:245-246 | one retry is one more DATA for that reader and one more in the sum of retries |
| Delivery.TracksSettle | src/rtps/ReliableEndpoint.cpp:342-346 | settling a reader keeps the books, after which nothing more may be sent to it |
| Delivery.RetriesAreRepeats | src/rtps/ReliableEndpoint.cpp:244-246 | the retries of the records are the DATA beyond the first of each reader |
| Delivery.SettlingSettles | src/rtps/ReliableEndpoint.cpp:329-346 | for known ids each once: a settling datagram that came in for a reader found it settled or settled it |
| Delivery.ReplyAnswers | src/rtps/ReliableEndpoint.cpp:329-364 | what handling a datagram did meets its demand: the first pending reader it matches is settled, or sent the change again, or out of retries |
| Delivery.HeedsMore | src/rtps/ReliableEndpoint.cpp:289-364 | one more datagram, handled behind the others, keeps every datagram heeded, each at a moment of its own |
| Pacing.RoundPaced | src/rtps/ReliableEndpoint.cpp:215-223 | after the first round every reader was last sent DATA and HEARTBEAT at its start |
| Pacing.ScanPaced | src/rtps/ReliableEndpoint.cpp:231-265 | a scan sends DATA again only when the timeout has passed since the last and a lone HEARTBEAT only when the period has passed, and keeps the deadlines counted from what was sent |
| Pacing.ScheduleScanned | src/rtps/ReliableEndpoint.cpp:231-265 | a scan leaves no pending reader whose last DATA is a timeout old or whose last HEARTBEAT is a period old |
| Pacing.ScheduleReplied | src/rtps/ReliableEndpoint.cpp:342-364 | handling a datagram keeps the schedule: DATA out of turn only when it was asked for |
| WriterInProtocol.HandedIsStep | src/rtps/ReliableEndpoint.cpp:121-178 | every datagram deliver_change hands to the transport is an enabled step of the protocol with the bytes of its packet, and it hands over none exactly when that step is not enabled |
| WriterInProtocol.DeliveredConfirms | src/rtps/ReliableEndpoint.cpp:329-346 | if the network forged nothing the writer received, a true result is the confirming step of the protocol |
| WriterInProtocol.PlayOn | src/rtps/ReliableEndpoint.cpp:215-364 | a call in progress can go on with any action its contract allows, or any reader that is handed a packet, and stays a path of enabled protocol steps |
| WriterInProtocol.CallEnds | src/rtps/ReliableEndpoint.cpp:215-367 | a whole call, interleaved with what readers hear, can end by giving up, and by confirming the write once every reader has settled on datagrams the network holds |
| WriterInProtocol.CallIsExecution | src/rtps/ReliableEndpoint.cpp:215-367 | behind an execution that began the delivery, the call is an execution |
| DeliveryPlays.ResultPlays | src/rtps/ReliableEndpoint.cpp:180-368 | what the writer class guarantees after deliver_change makes the whole call, interleaved with anything readers hear, a path of the protocol that can end by giving up and, after a true result, by confirming the write |
| DeliveryPlays.LawfulPlays | src/rtps/ReliableEndpoint.cpp:215-367 | any trace of lawful actions plays as such a path and ends in the world it led to, if the network forged none of the datagrams a reader was settled on |
| DeliveryPlays.GroundedPossible | src/rtps/ReliableEndpoint.cpp:329-346 | every action of a trace the books of the call account for is possible in a world whose network holds the datagrams the writer received |
| AsyncQueue.CleanWait | src/rtps/ReliableEndpoint.cpp:451-484 | after a true wait_for_acknowledgments every change up to its target was taken by the worker, was delivered with success exactly if no earlier false return reported its failure, and no recorded failure is unreported |
| AsyncProtocol.CleanWaitCommitted | src/rtps/ReliableEndpoint.cpp:411-484 | queue and protocol together: after a true wait_for_acknowledgments every change up to its target whose failure was not reported before is committed, exactly as written, by every known-id reader of its snapshot, and by some reader behind every other proxy |
| AsyncProtocol.CleanWaitConfirmed | src/rtps/ReliableEndpoint.cpp:433-484 | of the changes up to the target of a true wait, the protocol has confirmed exactly those whose failure no earlier false return reported |
| AsyncProtocol.ExecutionInvariant | src/rtps/ReliableEndpoint.cpp:411-443 | in every interleaving of both, the protocol's writes are what the worker took and every success is a confirmed write |
| AsyncQueue.CleanWaitCovers | src/rtps/ReliableEndpoint.cpp:459-483 | everything submitted before a wait that returned true had completed, with the writer not stopping and no failure unobserved |
| AsyncQueue.QueueNumbers | src/rtps/ReliableEndpoint.cpp:400-441 | submission id equals sequence number, queued ids are consecutive, and submitted minus completed is the queue length plus the one in flight |
| AsyncQueue.DeliveredInOrder | src/rtps/ReliableEndpoint.cpp:411-431 | the worker takes the changes in write order, each once |
| AsyncQueue.SnapshotKept | src/rtps/ReliableEndpoint.cpp:374-406 | a queued change keeps its payload and the readers of the moment its write began |
| AsyncQueue.WaitTarget | src/rtps/ReliableEndpoint.cpp:459-459 | the target of a wait is what had been submitted when it began |
| AsyncQueue.ReturnOrigin | src/rtps/ReliableEndpoint.cpp:463-483 | each return stems from the end of a wait and was a stop, a timeout before the target was completed, an unobserved failure, or clean, by what held at that moment |
| AsyncQueue.ExecutionInvariant | src/rtps/ReliableEndpoint.cpp:370-484 | the invariant of all interleavings |
| AsyncWaits.WaitVerdict | src/rtps/ReliableEndpoint.cpp:459-483 | in every interleaving a wait ends true exactly when the writer is not stopping, everything submitted before it has completed and every recorded failure was told to an earlier caller; it times out exactly when its target is not completed, and reports a failure exactly when there is one nobody was told |
| AsyncWaits.TrueAgain | src/rtps/ReliableEndpoint.cpp:478-483 | behind the false return that told a failure, and unless another delivery fails, each wait whose target is completed is true again |
| AsyncWaits.FailureOrigin | src/rtps/ReliableEndpoint.cpp:433-438 | exactly the deliveries that failed and completed while nobody was stopping the writer count as failures |
| AsyncWaits.ToldExact | src/rtps/ReliableEndpoint.cpp:478-481 | the two failure counts agree exactly when every recorded failure was told |
| AsyncWriter.AsyncWriter.BeginWriting | src/rtps/ReliableEndpoint.cpp:374-389 | the first critical section of write is that step; refused without readers or while stopping |
| AsyncWriter.AsyncWriter.Record | src/rtps/ReliableEndpoint.cpp:391-391 | adding to the history is that step |
| AsyncWriter.AsyncWriter.Submit | src/rtps/ReliableEndpoint.cpp:400-406 | the last critical section of write is that step |
| AsyncWriter.AsyncWriter.TestForWork | src/rtps/ReliableEndpoint.cpp:413-422 | the worker's test is the matching step, or none while there is nothing to do |
| AsyncWriter.AsyncWriter.TakeFront | src/rtps/ReliableEndpoint.cpp:423-424 | the pop is that step and yields the oldest entry |
| AsyncWriter.AsyncWriter.Return | src/rtps/ReliableEndpoint.cpp:427-431 | the end of a delivery is that step |
| AsyncWriter.AsyncWriter.Finish | src/rtps/ReliableEndpoint.cpp:433-440 | completing, with the failure counted unless the writer is stopping, is that step |
| AsyncWriter.AsyncWriter.Target | src/rtps/ReliableEndpoint.cpp:454-459 | the beginning of a wait is that step |
| AsyncWriter.AsyncWriter.EndOfWait | src/rtps/ReliableEndpoint.cpp:460-483 | the end of a wait is that step; it returns true exactly when the writer is not stopping, the target is completed and no failure is unobserved, and observes the failures exactly when it gets that far |
| Routing.ReaderAgrees | src/rtps/ParticipantMessageRouter.cpp:31-100 | a datagram is routed to a reader exactly when the reader's own header, decode and target checks accept it |
| Routing.WriterAgrees | src/rtps/ParticipantMessageRouter.cpp:86-96 | every ACKNACK the writer would take is routed to it; what is routed beyond that comes from an unknown reader or names an unknown writer |
| Router.ExactStream | src/rtps/ParticipantMessageRouter.cpp:259-303 | in every interleaving, what an endpoint took is a beginning, without a gap and in arrival order, of the datagrams addressed to it since it was added, and while it is active that stream is exactly what was taken, what is queued and, if the receiver is about to push to it, the last routed datagram |
| Router.RoutedExact | src/rtps/ParticipantMessageRouter.cpp:259-291 | in every interleaving the routed datagrams, and the one about to be routed, are exactly those the transport handed over with a target, in order |
| Router.StreamOfTargeted | src/rtps/ParticipantMessageRouter.cpp:274-289 | for an endpoint it makes no difference whether datagrams without a target are counted |
| Router.FailureTold | src/rtps/ParticipantMessageRouter.cpp:304-322 | once the receiver has ended because the transport failed, every channel that is still open reports the failure |
| Router.NoDuplicates | src/rtps/ParticipantMessageRouter.cpp:155-188 | no two active channels share kind and id, whether in the list or already taken out of it by stop |
| Router.OneChannel | src/rtps/ParticipantMessageRouter.cpp:280-301 | a datagram with a known target id goes into at most one channel |
| Router.ReaderChannelAccepted | src/rtps/ParticipantMessageRouter.cpp:280-301 | every datagram in a reader's channel passes the reader's own checks |
| Router.StepKeeps | src/rtps/ParticipantMessageRouter.cpp:132-322 | every step of receiver, endpoints and stop keeps the invariant behind these |
| Router.ExecutionInvariant | src/rtps/ParticipantMessageRouter.cpp:132-322 | the invariant of all interleavings |
| MessageRouter.Channel.Receive | src/rtps/ParticipantMessageRouter.cpp:364-398 | a queued datagram is handed over in order even after a failure or a close; otherwise an error or a timeout, and nothing changes |
| MessageRouter.Impl.FindDuplicate | src/rtps/ParticipantMessageRouter.cpp:166-172 | finds an active channel with the same kind and id exactly if there is one |
| MessageRouter.Impl.AddChannel | src/rtps/ParticipantMessageRouter.cpp:155-188 | adds a channel exactly when the router runs and there is no duplicate |
| MessageRouter.Impl.Close | src/rtps/ParticipantMessageRouter.cpp:195-199 | deactivating and emptying a channel is that step |
| MessageRouter.Impl.EraseChannel | src/rtps/ParticipantMessageRouter.cpp:202-205 | taking this channel out of the list is that step |
| MessageRouter.Impl.AllBut | src/rtps/ParticipantMessageRouter.cpp:203-205 | the erase-remove loop keeps every other channel, in order |
| MessageRouter.Impl.Matching | src/rtps/ParticipantMessageRouter.cpp:283-289 | the loop collects exactly the channels the target concerns, in list order |
| MessageRouter.Impl.Collect | src/rtps/ParticipantMessageRouter.cpp:280-290 | collecting the targets is that step |
| MessageRouter.Impl.PushTo | src/rtps/ParticipantMessageRouter.cpp:292-301 | pushing to the next target, if it is still active, is that step |
| History.WriterHistory.Add | src/history/History.cpp:14-28 | the change gets the next number, the full log grows by it, and the cache stays the last min(depth, n) changes |
| History.WriterHistory.Find | src/history/History.cpp:30-43 | succeeds exactly for the last depth numbers written and returns that write |
| History.WriterHistory.constructor | src/history/History.cpp:8-12 | a depth of zero becomes one |
| History.ReaderHistory.Add | src/history/History.cpp:56-75 | refuses exactly what is still cached, otherwise the accepted log grows and the cache stays its end |
| History.ReaderHistory.Holds | src/history/History.cpp:89-101 | finds a cached change by writer and number |
| History.ReaderHistory.Append | src/history/History.cpp:70-73 | appending and evicting keep the cache the end of the accepted log and the taken stream an in-order selection of what came before |
| History.ReaderHistory.Take | src/history/History.cpp:77-87 | hands out the oldest cached change |
| History.ReaderHistory.constructor | src/history/History.cpp:51-54 | a depth of zero becomes one |
| History.WindowMoves | src/history/History.cpp:70-73 | the window invariant survives one append with eviction |
| Seqs.SubsequencePositions | src/history/History.cpp:77-87 | what an in-order selection means: its elements sit at strictly increasing positions of the log |
| Reliability.HeartbeatRoundTrip | src/rtps/Reliability.cpp:197-290 | a HEARTBEAT is encodable exactly when its range and count are valid, takes 32 bytes, and survives both byte orders and any tail |
| Reliability.AckNackRoundTrip | src/rtps/Reliability.cpp:292-377 | the same for ACKNACK with its set |
| Reliability.GapRoundTrip | src/rtps/Reliability.cpp:379-462 | the same for GAP |
| Reliability.DecodedSurvives | src/rtps/Reliability.cpp:241-462 | whatever a decoder accepts, from any bytes, re-encodes in either byte order and decodes to itself |
| ReliabilityCodec.EncodeHeartbeatSubmessage | src/rtps/Reliability.cpp:197-239 | the code on a CdrWriter is the encoder function |
| ReliabilityCodec.EncodeAckNackSubmessage | src/rtps/Reliability.cpp:292-328 | the code on a CdrWriter is the encoder function |
| ReliabilityCodec.EncodeGapSubmessage | src/rtps/Reliability.cpp:379-413 | the code on a CdrWriter is the encoder function |
| ReliabilityCodec.DecodeHeartbeatSubmessage | src/rtps/Reliability.cpp:241-290 | the code on a CdrReader is the decoder function, on every input |
| ReliabilityCodec.DecodeAckNackSubmessage | src/rtps/Reliability.cpp:330-377 | the code on a CdrReader is the decoder function, on every input |
| ReliabilityCodec.DecodeGapSubmessage | src/rtps/Reliability.cpp:415-462 | the code on a CdrReader is the decoder function, on every input |
| SequenceSet.BitmapCanonical | src/rtps/Reliability.cpp:80-106 | validated sets with the same base, size and members have equal words |
| SequenceSet.AnyBitMeansNonEmpty | src/rtps/ReliableEndpoint.cpp:38-44 | some word of a validated set is non-zero exactly when the set has a member |
| SequenceSet.UnusedBitsMatter | src/rtps/Reliability.cpp:96-104 | an input: without the check of the unused bits that fails |
| SequenceSet.NoUnusedBits | src/rtps/Reliability.cpp:96-104 | a validated bitmap has no bit beyond its size |
| SequenceSet.ContainsIsBit | src/rtps/Reliability.cpp:181-195 | contains tests the bit counted from the most significant one |
| SequenceSet.FillBitsExact | src/rtps/ReliableEndpoint.cpp:604-621 | the bitmap loop yields a set the encoder accepts whose members are exactly the numbers of the window not at hand |
| SequenceSet.SplitJoin | src/rtps/Data.cpp:15-32 | splitting a 64-bit number into words and joining them are inverse both ways |
| Submessages.FrameRoundTrip | src/rtps/Reliability.cpp:151-166 | a framed content is found again behind its header, whatever follows |
| Submessages.SetRoundTrip | src/rtps/Reliability.cpp:108-149 | a validated set survives the wire in either byte order |
| Submessages.WriteSet | src/rtps/Reliability.cpp:108-117 | the writing loop emits the fields of the set |
| Submessages.ReadSetFrom | src/rtps/Reliability.cpp:119-149 | the reading loop is the set decoder, on every input |
| Data.RoundTrip | src/rtps/Data.cpp:48-182 | DATA is encodable exactly when its number is positive and it fits 16 bits of length, and survives both byte orders and any tail |
| Data.DecodedIsEncodable | src/rtps/Data.cpp:93-182 | what the decoder accepts re-encodes and decodes to itself, exactly unless its payload came in a zero-length frame too long for 16 bits |
| Data.EncodeSubmessage | src/rtps/Data.cpp:48-91 | the code on a CdrWriter is the encoder function |
| Data.DecodeSubmessage | src/rtps/Data.cpp:93-182 | the code on a CdrReader is the decoder function, on every input |
| Message.MessageHeaderRoundTrip | src/rtps/Message.cpp:7-37 | a message header survives whatever follows it |
| Message.MessageHeaderInverse | src/rtps/Message.cpp:23-37 | what decodes as a header is the encoding of what it decodes to |
| Message.SubmessageHeaderRoundTrip | src/rtps/Message.cpp:46-85 | a submessage header survives in the byte order its flags announce |
| Message.WriteMessageHeader | src/rtps/Message.cpp:7-21 | the array writes produce the 20 bytes of the header |
| Message.WriteSubmessageHeader | src/rtps/Message.cpp:46-62 | the array writes produce the 4 bytes of the header: kind, flags, and the length with its low byte first exactly if bit 0 of the flags is set |
| WireLayout.ChunkStands | src/serialization/Cdr.cpp:14-75 | every field begins at the next multiple of its size behind zeros, with its digits in the byte order of the stream; a string is its length with the terminator, its bytes, and a zero |
| WireLayout.MessageHeaderLayout | src/rtps/Message.cpp:7-21 | where magic, version, vendor and prefix stand |
| WireLayout.FrameLayout | src/rtps/Reliability.cpp:151-166 | where kind, flags and length of a submessage stand |
| WireLayout.HeartbeatLayout | src/rtps/Reliability.cpp:197-239 | every byte of an encoded HEARTBEAT, by offset |
| WireLayout.AckNackLayout | src/rtps/Reliability.cpp:292-328 | every byte of an encoded ACKNACK, by offset |
| WireLayout.GapLayout | src/rtps/Reliability.cpp:379-413 | every byte of an encoded GAP, by offset |
| WireLayout.DataLayout | src/rtps/Data.cpp:48-91 | every byte of an encoded DATA, by offset |
| WireLayout.PayloadLayout | src/serialization/SerializedPayload.cpp:9-32 | every byte of a serialized string, by offset |
| DecodedExactly.HeartbeatExactly | src/rtps/Reliability.cpp:241-290 | the decoder returns a HEARTBEAT exactly from the bytes that stand for it: kind, known flags, announced or remaining length, and every field at its place with valid values |
| DecodedExactly.AckNackExactly | src/rtps/Reliability.cpp:330-377 | the same for ACKNACK, its set valid |
| DecodedExactly.GapExactly | src/rtps/Reliability.cpp:415-462 | the same for GAP |
| DecodedExactly.DataExactly | src/rtps/Data.cpp:93-182 | the same for DATA: extra flags zero, a payload that begins where the octets to the inline QoS end, the data flag set and no key, inline QoS or other payload flag |
| DecodedExactly.AcceptedExactly | src/rtps/ReliableEndpoint.cpp:656-793 | byte by byte, which datagrams make a reader accept which event of which writer |
| DecodedExactly.TakenExactly | src/rtps/ReliableEndpoint.cpp:298-327 | byte by byte, which datagrams carry which ACKNACK to this writer |
| Cdr.FieldsRoundTrip | src/serialization/Cdr.cpp:14-227 | writing any list of fields and reading it back in order in the same byte order returns every value, strings with zero bytes included, and stops exactly where the written bytes end, whatever surrounds them; the bytes of each field are those of `WireLayout.ChunkStands` |
| Cdr.StringRoundTrip | src/serialization/Cdr.cpp:66-75 | a string comes back whatever bytes it holds |
| Cdr.IntegerRoundTrip | src/serialization/Cdr.cpp:20-34 | an integer that fits its width stands there digit by digit to the base 256, lowest first in little-endian order and last in big-endian order, and comes back as the sum of these digits |
| Cdr.GetSum | src/serialization/Cdr.cpp:131-150 | what is read is the sum of the bytes, each times its power of 256 in the byte order of the stream |
| Cdr.GetDigits | src/serialization/Cdr.cpp:131-150 | the bytes read are the digits of the value |
| Cdr.DigitsPut | src/serialization/Cdr.cpp:20-34 | no other bytes are the digits of the value written |
| Cdr.PadAligns | src/serialization/Cdr.cpp:14-18 | after padding the next field starts at a multiple of its size |
| Cdr.ReadField | src/serialization/Cdr.cpp:112-227 | a read never moves the cursor back or past the end |
| CdrStreams.CdrWriter.Align | src/serialization/Cdr.cpp:14-18 | appends exactly the padding in zeros |
| CdrStreams.CdrWriter.WriteUnsigned | src/serialization/Cdr.cpp:20-34 | behind the padding the byte loops append the digits of the value, lowest first in little-endian order and last in big-endian order |
| CdrStreams.CdrWriter.WriteUint8 | src/serialization/Cdr.cpp:36-39 | the stream stands for one more field |
| CdrStreams.CdrWriter.WriteUint16 | src/serialization/Cdr.cpp:41-44 | the stream stands for one more field |
| CdrStreams.CdrWriter.WriteUint32 | src/serialization/Cdr.cpp:46-49 | the stream stands for one more field |
| CdrStreams.CdrWriter.WriteUint64 | src/serialization/Cdr.cpp:51-54 | the stream stands for one more field |
| CdrStreams.CdrWriter.WriteInt32 | src/serialization/Cdr.cpp:56-59 | the stream stands for one more field |
| CdrStreams.CdrWriter.WriteBytes | src/serialization/Cdr.cpp:61-64 | the stream stands for one more field |
| CdrStreams.CdrWriter.WriteString | src/serialization/Cdr.cpp:66-75 | the stream stands for one more field, unless the string is too long |
| CdrStreams.CdrReader.Require | src/serialization/Cdr.cpp:112-119 | succeeds exactly when that much is left, and a failure sticks |
| CdrStreams.CdrReader.Align | src/serialization/Cdr.cpp:121-129 | skips exactly the padding, within the buffer |
| CdrStreams.CdrReader.ReadUnsigned | src/serialization/Cdr.cpp:131-150 | succeeds exactly when padding and value fit into what is left, and returns the value whose digits stand there, lowest first in little-endian order and last in big-endian order |
| CdrStreams.CdrReader.ReadUint8 | src/serialization/Cdr.cpp:152-159 | returns the next field, or marks the reader invalid |
| CdrStreams.CdrReader.ReadUint16 | src/serialization/Cdr.cpp:161-169 | returns the next field, or marks the reader invalid |
| CdrStreams.CdrReader.ReadUint32 | src/serialization/Cdr.cpp:171-179 | returns the next field, or marks the reader invalid |
| CdrStreams.CdrReader.ReadUint64 | src/serialization/Cdr.cpp:181-184 | returns the next field, or marks the reader invalid |
| CdrStreams.CdrReader.ReadInt32 | src/serialization/Cdr.cpp:186-194 | returns the next field, or marks the reader invalid |
| CdrStreams.CdrReader.ReadBytes | src/serialization/Cdr.cpp:196-207 | returns the next field, or marks the reader invalid |
| CdrStreams.CdrReader.ReadString | src/serialization/Cdr.cpp:209-227 | returns the next field, or marks the reader invalid |
| SerializedPayload.PayloadRoundTrip | src/serialization/SerializedPayload.cpp:9-83 | a serialized string comes back in either byte order exactly when at most three zero bytes follow it, and is refused otherwise |
| SerializedPayload.DeserializedSurvives | src/serialization/SerializedPayload.cpp:34-83 | what deserializes serializes again in either byte order |
| SerializedPayload.SerializeStringPayload | src/serialization/SerializedPayload.cpp:9-32 | header and CDR writer together produce exactly the serialized payload, or nothing for a string that is too long |
| SerializedPayload.DeserializeStringPayload | src/serialization/SerializedPayload.cpp:34-83 | accepts and returns exactly what the function does, on every input, malformed ones included |
| SerializedPayload.PaddedStringExact | src/discovery/DiscoveryData.cpp:66-86 | a written string is read back exactly when only zero padding follows |
| SerializedPayload.DecodePaddedString | src/discovery/DiscoveryData.cpp:79-86 | the code with its padding loop is the function, on every input |
| ParameterList.RoundTrip | src/discovery/ParameterList.cpp:45-147 | a list is encodable exactly when no parameter is PID_SENTINEL or longer than 0xFFFC, and then decodes, whatever follows, to itself with values zero-padded to four bytes and PID_PAD entries dropped |
| ParameterList.DecodedSurvives | src/discovery/ParameterList.cpp:87-147 | what decodes, from any bytes, re-encodes in either byte order and decodes to itself |
| ParameterList.DecodedExactly | src/discovery/ParameterList.cpp:87-147 | the decoder accepts exactly the payloads with a known header, parameters of whole words and a sentinel of length zero, and returns those parameters without PID_PAD |
| ParameterList.FindNormal | src/discovery/ParameterList.cpp:149-160 | the first parameter with an id is still found, padded, after the way through the codec |
| ParameterList.EncodeParameterList | src/discovery/ParameterList.cpp:45-85 | the appending loop is the encoder function, with an empty payload on failure |
| ParameterList.DecodeParameterList | src/discovery/ParameterList.cpp:87-147 | the loop with its moving offset is the decoder function, on every input |
| ParameterList.FindParameter | src/discovery/ParameterList.cpp:149-160 | finds the first parameter with the id |
| ParameterList.AppendUint16 | src/discovery/ParameterList.cpp:12-24 | appends the low byte and then the high one in little-endian order, the high one first in big-endian order |
| ParameterList.AlignedSize | src/discovery/ParameterList.cpp:38-41 | the next multiple of four |
| DiscoveryValues.DurationRoundTrip | src/discovery/DiscoveryData.cpp:172-218 | a lease is encodable exactly when positive with 32 bits of seconds; it comes back exactly when its milliseconds are a multiple of 125, one short otherwise, and not at all when it is one millisecond |
| DiscoveryValues.FractionLoss | src/discovery/DiscoveryData.cpp:190-214 | what the binary fraction of r milliseconds reads as |
| DiscoveryValues.LocatorRoundTrip | src/discovery/DiscoveryData.cpp:121-170 | a locator is encodable exactly when its port is not zero and its address parses; it comes back with a canonical address |
| DiscoveryValues.AddressRoundTrip | src/discovery/DiscoveryData.cpp:88-119 | printed octets parse back to themselves |
| DiscoveryValues.NameRoundTrip | src/discovery/DiscoveryData.cpp:57-86 | a name survives the padding of the parameter list |
| DiscoveryValues.GuidRoundTrip | src/discovery/DiscoveryData.cpp:20-37 | a GUID survives |
| DiscoveryValues.Uint32RoundTrip | src/discovery/DiscoveryData.cpp:39-55 | a 32-bit number survives |
| DiscoveryValues.ReliabilityRoundTrip | src/discovery/DiscoveryData.cpp:220-244 | the reliability kind survives |
| Discovery.ParticipantRoundTrip | src/discovery/DiscoveryData.cpp:261-384 | a participant record is encodable exactly when its locators, lease and name are; it decodes unless the lease is one millisecond, with canonical addresses, the lease exact or one short, and the decoder's old name if the name is empty |
| Discovery.ParticipantExact | src/discovery/DiscoveryData.cpp:261-384 | for canonical addresses the round trip is exact if and only if the lease's milliseconds are a multiple of 125 |
| Discovery.EndpointRoundTrip | src/discovery/DiscoveryData.cpp:386-465 | an endpoint record is encodable exactly when its names are neither empty nor too long and its locator is; it comes back with a canonical address |
| DiscoveryLayout.ListLayout | src/discovery/ParameterList.cpp:45-85 | an encoded list byte by byte: header, id, length, value and zeros of each parameter at its offset, and the sentinel |
| DiscoveryLayout.ParticipantLayout | src/discovery/DiscoveryData.cpp:261-307 | at which offset and under which id each parameter of a participant record stands |
| DiscoveryLayout.EndpointLayout | src/discovery/DiscoveryData.cpp:386-411 | the same for an endpoint record |
| DiscoveryLayout.LocatorLayout | src/discovery/DiscoveryData.cpp:121-140 | kind 1, port, twelve zeros, and the four parsed octets of the address |
| DiscoveryLayout.DurationLayout | src/discovery/DiscoveryData.cpp:172-197 | whole seconds, then the rest as a 32-bit binary fraction |
| DiscoveryLayout.StringLayout | src/discovery/DiscoveryData.cpp:57-64 | the length with the terminating zero, the text, and that zero |
| DiscoveryLayout.Uint32Layout | src/discovery/DiscoveryData.cpp:39-46 | the four digits of the number |
| DiscoveryLayout.ReliabilityLayout | src/discovery/DiscoveryData.cpp:220-230 | 2 for reliable and 1 for best effort, then eight zeros |
| DiscoveryCodec.EncodeLocatorValue | src/discovery/DiscoveryData.cpp:121-140 | port check, address parser and four CDR writes produce exactly the encoded locator, or nothing |
| DiscoveryCodec.DecodeLocatorValue | src/discovery/DiscoveryData.cpp:142-170 | the three CDR reads and the loop over the twelve leading bytes accept and return exactly what the decoder function does, on every input |
| DiscoveryCodec.EncodeDurationValue | src/discovery/DiscoveryData.cpp:172-197 | seconds and fraction always fit their fields, and the two CDR writes produce exactly the encoded lease, or nothing |
| DiscoveryCodec.DecodeDurationValue | src/discovery/DiscoveryData.cpp:199-218 | the two CDR reads return exactly the decoded lease, on every input, truncated or negative ones included |
| DiscoveryCodec.EncodeParticipantData | src/discovery/DiscoveryData.cpp:261-307 | fails exactly where the encoder function does and otherwise sends the same parameters in the same order, the name only if there is one; a failure clears the caller's payload only if it comes from the parameter list |
| DiscoveryCodec.DecodeParticipantData | src/discovery/DiscoveryData.cpp:309-384 | looking up the parameters and filling the record field by field, optional ones last, accepts and returns exactly what the decoder function does, on every input |
| DiscoveryCodec.EncodeEndpointData | src/discovery/DiscoveryData.cpp:386-411 | fails exactly where the encoder function does and otherwise sends the same parameters in the same order; a failure clears the caller's payload only if it comes from the parameter list |
| DiscoveryCodec.DecodeEndpointData | src/discovery/DiscoveryData.cpp:413-465 | looking up the parameters and filling the record field by field, with the default participant GUID and reliability, accepts and returns exactly what the decoder function does, on every input |

## Left out

- UDP sockets, multicast, threads, mutexes and condition variables: atomic steps and nondeterministic environments stand for them.
- Error texts, and with them `last_error` and the synchronous branch of wait_for_acknowledgments, which only reads that text.
- src/discovery/DiscoveryService.cpp, src/discovery/PortMapping.cpp, src/dds and src/rtps/StatelessEndpoint.cpp: polling, wiring and members that would only add easy properties.
- More than one writer in `Protocol`: the reader class keeps one record per writer and `ReliableReader.ReliableReader.ReceiveOnce` shows that they do not disturb each other.
- `Protocol` stops before write number 2^63 - 1, and the overflow of the writer's own number is not modelled.
- ReliableReader.ReliableReader.ReceiveOnce: computes with unbounded integers; in the four kinds of step that overflow (`IntegerRange.StepFits`, the GAP that starts at 2^63 - 256 among them) the source has undefined behaviour and this contract says nothing about it.
- ReliableReader.ReliableReader.FindWriter: the vector of records with its search by GUID is a map; the order of the records is not modelled.
- ReliableWriter.ReliableWriter.DeliverChange: in a pass that fails the actions of that pass carry no times, so the schedule says nothing about them.
- ReliableWriter.ReliableWriter.Write: the synchronous form only; the asynchronous one is `AsyncQueue`, with its deliveries in `AsyncProtocol`.
- DiscoveryValues.AddressRoundTrip: the parser behind it takes only digits and dots; the white space and signs that a string stream would skip are refused.
- DiscoveryCodec.DecodeParticipantData: the fields a failing decoder has already filled are not described.
- DiscoveryCodec.DecodeEndpointData: the fields a failing decoder has already filled are not described.
- Null buffers, and values of the source's enumerations outside their range.
- The second test for completion right after a scan in deliver_change: a scan acknowledges nobody, so it never succeeds.
