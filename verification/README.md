# Congestion control above TCP: a verified model

The library lets an application bring its own congestion control to an ordinary TCP socket.
`alcc_send` puts bytes in a ring; a sender thread takes them out in packets of at most one MTU,
within a credit; an acknowledgement thread turns the 32-bit cumulative TCP acknowledgements that
a kernel module reports into packet numbers; a controller (a fixed window, Copa, or Verus)
decides how much may be outstanding.  The repository also holds the applications that were moved
onto it: an FTP server with its MD5 and path code, and a Copa/Remy/CUBIC sender.

| file | models |
|---|---|
| `Bytes.dfy` | bytes, word sizes, and small facts about sequences and remainders |
| `CircularQueue.dfy` | the ring between the application and the sender, an array with two indices |
| `AckReceiver.dfy` | from 32-bit acknowledgements to packet counts, for both MTUs |
| `AlccProtocol.dfy` | the sender, acknowledgement and tick steps over their shared counters |
| `ExtremeWindow.dfy`, `RttWindow.dfy` | sliding extremes over windows of changing length, and the four Copa reads |
| `CopaDelta.dfy`, `CopaWindow.dfy` | the laws of delta, window and velocity |
| `PacketLedger.dfy`, `CopaController.dfy`, `CopaFlow.dfy` | the packet map, the whole controller, and the controller driven by the two threads |
| `DelayCurve.dfy` | Verus's delay curve, kept as a table |
| `Cubic.dfy` | CUBIC's integer cube root and friendliness loop |
| `Md5Stream.dfy` | streaming MD5 (RFC 1321, sections 3.1 to 3.4) over an abstract compression function |
| `MemoryRange.dfy`, `WhiskerTree.dfy`, `WhiskerNode.dfy` | Remy's rule tree: half-open boxes, lookup and replacement, as a value and in place |
| `PathMapper.dfy` | the FTP server's path mapping in a C buffer |

Conventions.  Objects that the source updates in place are classes; each method's contract ties
the new state to a function of the old one, and the lemmas speak about those functions.  Doubles
are real numbers.  Fixed-width integers are reduced explicitly where the source can wrap.  A
protocol is a sequence of states, each following from the last by one enabled event, and a safety
result holds for every such sequence.  True stream positions (unbounded) are kept in ghost state
beside the 32-bit ones.  Clocks, measured times, medians and the loss estimator's verdicts are
inputs.  A failed `assert` of the source is an outcome of the model.

## Where the code falls short of its promise

Each of these is stated as an exact condition, proved for all inputs:

- A ring that is empty accepts a request of its whole length and then reads as empty, so all
  those bytes are lost; every shorter request is queued exactly (`CircularQueue.Insert`).
- The sender writes its two credit counters one after the other.  A tick between the writes
  overshoots the window by one packet; the next tick's unsigned subtraction then yields 2^64 - 1,
  unless an ack has released a packet first.  `WrapsExactly` says this of every run.
- An ack that counts a packet the sender has sent but not yet registered settles nothing: all it
  counts stays in flight until a later ack.  Every other accepted ack settles all it counts
  (`AckSettles`).
- The base receiver takes a cursor of 0 for "not started": after an acknowledgement of value 0 it
  ignores every ack until the next outgoing packet, which starts a second controller thread and
  sets the cursor to its own first byte; exactly the bytes between are never counted
  (`ZeroAckStalls`).  It also drops the remainder of every acknowledgement; `BaseRunExact` says
  exactly when that costs a packet.
- Acks less than 2^31 apart are not enough for the Copa receiver, whose cursor lags by the
  remainder it keeps (`HalfTurnGapFails`); `CopaRunExact` gives the exact condition.
- The wrap test is right for all forward distances below half the sequence space; `WrapTestExact`
  gives the exact condition for every distance up to a whole turn, either way.
- A maximum tracker starts from the least positive normal double, not from the least one, so it is
  wrong exactly while every sample has been below that (`TrackerRunExact`, `ZeroDelayMisreported`).
- `Memory::operator==` compares one of its four fields with itself.  The branch of `bisect` that
  would keep an unsplittable box whole therefore always fails its own assertion, and `replace`
  accepts a rule whose box differs from the leaf's in that field; then, and only then, the tree is
  no longer a partition (`UnsplittableFails`, `RuleKeepsIff`, `SecondAxisSlips`).
- `CubicRoot` is within a factor of two in the cube, both ways, for every 64-bit value but 3.
- The CUBIC friendliness loop never ends when the window is less than one segment and
  acknowledgements are pending (`LoopEnds`).
- Verus's two curve functions are inverse where the next window size has been measured, and
  otherwise only in the cases named for a window of one (`RoundTrip`, `UnmeasuredRoundTrip`).
- Native Copa with slow start switched off, as it is unless a configuration string asks for it,
  aborts on its own assertion as soon as it measures a queuing delay past the probing phase
  (`NativeAborts`).
- The ALCC variant of Copa's loss walk removes the oldest packet, whichever was acknowledged, and
  counts no loss; it is right exactly when the acknowledged packet is the oldest (`AlccExact`),
  which the in-order expansion of acknowledgements guarantees (`NamesLeast`).

## Model

| member | source | states |
|---|---|---|
| AlccProtocol.RunSafe | libalcc/libalcc.cpp:127-298 | every state reachable by any interleaving of producer, sender, acks (of any value) and ticks, with the sender's hand-over, debit, count and registration as four separate steps, keeps: accepted bytes = packets on the wire + chunk in hand + ring; packets of 1 to 1448 bytes; in flight = counted - settled; the acknowledged count never exceeds the sent one; only registered packets are settled; credit + in flight <= cwnd + 1 |
| AlccProtocol.StepSafe | libalcc/libalcc.cpp:127-298 | each single step keeps that invariant |
| AlccProtocol.StreamKept | libalcc/libalcc.cpp:144-164 | no step loses, repeats or reorders a byte |
| AlccProtocol.AckKept | libalcc/libalcc.cpp:241-254 | an ack never moves the packet counter past the bytes acknowledged |
| AlccProtocol.CountersKept | libalcc/libalcc.cpp:256-275 | every step keeps the counters balanced: an ack settles only packets that are registered, hence counted |
| AlccProtocol.LoadKept | libalcc/libalcc.cpp:158-159 | what each step does to credit + in flight + debited packet: only a tick raises it, to the window, or to one more between the two counter writes |
| AlccProtocol.PacketsFull | libalcc/libalcc.cpp:144-155 | on every run each packet on the wire, and the chunk in hand, is what one take found in the ring: MTU bytes, or fewer only because that take emptied the ring |
| AlccProtocol.TakeFills | libalcc/libalcc.cpp:145 | from a ring with bytes in it, a take leaves the oldest bytes in hand: MTU of them, or all there are |
| AlccProtocol.BatchLasts | libalcc/libalcc.cpp:139-148 | on every run: until it finds the ring empty, the for loop may still take the credit it saw on entry, less the packets registered since |
| AlccProtocol.AckSettles | libalcc/libalcc.cpp:241-275 | an accepted ack leaves in flight exactly the packets counted beyond it, unless it counts one not yet registered: then it settles nothing |
| AlccProtocol.AtomicRunSafe | libalcc/libalcc.cpp:144-165 | on every run in which sending and registering is one step: in flight = sent - acknowledged, every counted ack is settled at once, credit + in flight <= cwnd |
| AlccProtocol.CreditNeverWraps | libalcc/libalcc.cpp:283-288 | on every run in which sending and registering is one step, the unsigned cwnd - pktsInFlight - tempS is the mathematical difference in every state, and a tick fills the credit to exactly the window |
| AlccProtocol.CloseDrains | libalcc/libalcc.cpp:366-376 | when close sees an empty ring, the wire carries exactly the accepted bytes if and only if the sender holds no chunk between remove and send |
| AlccProtocol.SplitOvershootsByOne | libalcc/libalcc.cpp:158-159 | over every interleaving, with mathematical integers, credit + in flight is at most cwnd + 1 and neither is negative |
| AlccProtocol.UnsignedCreditExact | libalcc/libalcc.cpp:288 | the unsigned subtraction equals the intended maximum of 0 and the difference if and only if credit + in flight is at most cwnd |
| AlccProtocol.WrapsExactly | libalcc/libalcc.cpp:156-163 | in every reachable state: the tick's subtraction is wrong if and only if the sender is not between its two counter writes, an earlier tick fell between them, and no ack has released a packet since; it then yields 2^64 - 1 |
| AlccProtocol.OvershotExact | libalcc/libalcc.cpp:156-163 | credit + in flight is one over the window exactly on such runs |
| AlccProtocol.OvershotMeaning | libalcc/libalcc.cpp:156-163 | what such a run is, event by event |
| AlccProtocol.SplitRunWraps | libalcc/libalcc.cpp:158-159 | an eight-step run of the whole protocol after which the tick's subtraction yields 2^64 - 1 |
| AlccProtocol.UnsplitNeverWraps | libalcc/libalcc.cpp:158-159 | if no tick falls between the two writes, credit + in flight stays within the window |
| AlccProtocol.AlccSocket.Transmit | libalcc/libalcc.cpp:150-163 | the class method is the protocol's four sending steps on the socket's whole state |
| AlccProtocol.AlccSocket.Take | libalcc/libalcc.cpp:144-148 | the class method is the Take step, of which TakeFills says what is taken: one chunk of exactly MTU bytes, or of all there are if fewer, or the loop ends on an empty ring |
| AlccProtocol.AlccSocket.Send | libalcc/libalcc.cpp:355-364 | alcc_send is the Offer step with the length insert chose |
| AlccProtocol.AlccSocket.OnMessage | libalcc/libalcc.cpp:228-276 | one netlink message is a report of an outgoing packet or of an ack, as in the protocol |
| AlccProtocol.AlccSocket.OnAck | libalcc/libalcc.cpp:241-276 | one ack is the protocol's Ack step |
| AlccProtocol.AlccSocket.Tick | libalcc/libalcc.cpp:283-293 | one controller epoch adds the unsigned difference, and is the Tick step whenever that difference is the intended one |
| CircularQueues.CircularQueue.Insert | libalcc/libalcc.cpp:30-54 | the accepted bytes are appended if and only if the request is not a full-ring one on an empty ring; a full-ring one loses everything |
| CircularQueues.CircularQueue.Remove | libalcc/libalcc.cpp:56-77 | hands out the oldest bytes, at most len, and leaves the rest of the destination alone |
| CircularQueues.CircularQueue.Length | libalcc/libalcc.cpp:79-90 | the number of queued bytes |
| CircularQueues.CircularQueue.InsertWhileRemoving | libalcc/libalcc.cpp:30-54 | an insert whose length came from a front that any number of removes have outdated: exactly the removes' sum goes out first, then exactly the admitted bytes join behind the rest |
| CircularQueues.CircularQueue.TakeAll | libalcc/libalcc.cpp:56-77 | any sequence of removes is one remove of their sum |
| CircularQueues.Run | libalcc/libalcc.cpp:22-90 | every run of one producer and one consumer accepts, delivers and keeps exactly the bytes of the same run of a first-in first-out queue of capacity MAX - 1 |
| CircularQueues.FifoFaithful | libalcc/libalcc.cpp:22-90 | that queue loses, repeats and reorders nothing and never exceeds its capacity, over every run |
| CircularQueues.OnlyTheEndsCut | libalcc/libalcc.cpp:30-77 | an offer is cut short only by a full queue, and a take only by an empty one |
| CircularQueues.StaleAdmitsLess | libalcc/libalcc.cpp:30-42 | an insert with an outdated front admits a prefix of what one with the current front would |
| CircularQueues.ContiguousWrite | libalcc/libalcc.cpp:43-45 | the one-piece copy appends exactly the copied bytes to the stored contents |
| CircularQueues.SplitWrite | libalcc/libalcc.cpp:46-50 | the two-piece copy appends exactly the copied bytes to the stored contents |
| CircularQueues.SplitRead | libalcc/libalcc.cpp:69-73 | the two-piece copy out delivers exactly the oldest bytes |
| AckReceiver.SignTest | libalcc/libalcc.cpp:245-253 | for MTU 1448 and 1484: every backward distance d with 2^31 < d <= 2^32 gives a negative int, every forward distance below 2^32 a nonnegative one |
| AckReceiver.ForwardCount | libalcc/libalcc.cpp:245-253 | an ack up to 2^32 ahead is counted as its distance over MTU, across the wrap |
| AckReceiver.WrapTestExact | libalcc/libalcc.cpp:241-253 | for any true ack within 2^32 of the cursor, exactly when the acceptance test and the packet count are right |
| AckReceiver.BaseRunBalance | libalcc/libalcc.cpp:241-254 | after any run of in-order acks: MTU * rcvSeq + the dropped remainders = bytes acknowledged |
| AckReceiver.BaseRunExact | libalcc/libalcc.cpp:241-254 | the base receiver never exceeds floor(acknowledged / MTU) and equals it if and only if the dropped remainders sum to less than MTU |
| AckReceiver.AlignedDropsNothing | libalcc/libalcc.cpp:241-254 | MTU-aligned acks drop nothing |
| AckReceiver.ZeroAckStalls | libalcc/libalcc.cpp:231-254 | an accepted ack empties the cursor exactly when its value is 0; every later ack is then ignored until the next outgoing packet, which sets the cursor to its own first byte, and exactly the bytes between are never counted |
| AckReceiver.HeardRunBalance | libalcc/libalcc.cpp:231-254 | over every run of messages, acks of value 0 included: MTU * rcvSeq + dropped + skipped bytes = bytes up to the cursor |
| AckReceiver.HeardKept | libalcc/libalcc.cpp:231-254 | each message keeps that account, and no ack behind the cursor is taken for one ahead of it |
| AckReceiver.CopaRunExact | libalcc/copa/libalcc_copa.cpp:720-746 | over every run of in-order acks, any number of wraps: after each ack rcvSeq = floor((ack - start) / MTU) and the cursor stands for start + MTU * rcvSeq, if and only if each ack is less than 2^31 past the last packet boundary, or in the cursor's own turn |
| AckReceiver.CopaStepExact | libalcc/copa/libalcc_copa.cpp:727-746 | one ack is counted in full exactly under that condition |
| AckReceiver.HalfTurnGapFails | libalcc/copa/libalcc_copa.cpp:727-737 | a run of acks less than 2^31 apart whose second ack is not counted |
| AckReceiver.ShortGapsReach | libalcc/copa/libalcc_copa.cpp:727-737 | acks at most 2^31 - MTU apart always meet the condition |
| AckReceiver.BatchingIrrelevant | libalcc/copa/libalcc_copa.cpp:729-746 | two such runs that end at the same ack leave the same receiver, however they were batched |
| AckReceiver.CopaReceiver.OnMessage | libalcc/copa/libalcc_copa.cpp:712-746 | one message hands on exactly the packet numbers rcvSeq + 1 up to the new rcvSeq, in order |
| ExtremeWindows.SampledGood | libalcc/copa/rtt-window.cc:23-58 | one sample keeps the deque equal to the suffix-extreme record of the window and the extreme equal to the extreme over all past samples at or after the largest cutoff seen (once some sample is no worse than the seed) |
| ExtremeWindows.ExtremeIffSeeded | libalcc/copa/rtt-window.cc:10-21 | the stored extreme is the window's extreme if and only if a sample so far was no worse than the initial value: always for minima, for maxima only above the least positive normal double |
| ExtremeWindows.TrackerRunExact | libalcc/copa/rtt-window.cc:8-58 | over every run of measurements in time order, under any nonnegative window lengths, the deque is the record of the window, and the value is the extreme of all samples no older than the largest cutoff exactly when some sample has reached the initial value |
| ExtremeWindows.MaximumBelowSeed | libalcc/copa/rtt-window.cc:10-21 | while every sample is below the initial value, the maximum reported was never measured |
| ExtremeWindows.ZeroDelayMisreported | libalcc/copa/rtt-window.cc:10-21 | one such sample: a delay of zero |
| ExtremeWindows.SeededMeaning | libalcc/copa/rtt-window.cc:10-21 | what seeded means in terms of the samples |
| ExtremeWindows.RecordsPush | libalcc/copa/rtt-window.cc:44-52 | popping beaten entries and pushing the sample gives the record of the longer history |
| ExtremeWindows.RecordsCut | libalcc/copa/rtt-window.cc:23-41 | dropping expired entries from the front gives the record of the shorter window |
| ExtremeWindows.ExpireOnce | libalcc/copa/rtt-window.cc:23-41 | keeping one entry never changes the result: the newest sample is inside every window |
| ExtremeWindows.ExtremeWindow.NewSample | libalcc/copa/rtt-window.cc:44-58 | the class method makes the specified step and keeps the invariant |
| ExtremeWindows.ExtremeWindow.PopBeaten | libalcc/copa/rtt-window.cc:47-49 | the loop removes exactly the entries the sample beats |
| ExtremeWindows.ExtremeWindow.ClearOldHist | libalcc/copa/rtt-window.cc:23-41 | the loop removes exactly the expired entries but the last |
| RttWindows.RttRunOrdered | libalcc/copa/rtt-window.cc:78-96 | over every run of nonnegative samples in time order, each leaves min_rtt <= is_copa_min <= unjittered_rtt <= latest_rtt <= is_copa_max |
| RttWindows.RttSampledInv | libalcc/copa/rtt-window.cc:78-96 | one sample keeps the four trackers' windows nested although srtt and min_rtt change their lengths |
| RttWindows.CutoffsNested | libalcc/copa/rtt-window.cc:78-96 | pointwise longer windows have running cutoffs no later |
| RttWindows.ExtremesNested | libalcc/copa/rtt-window.cc:78-96 | a wider window's extreme is at least as extreme |
| RttWindows.RttWindow.NewRttSample | libalcc/copa/rtt-window.cc:78-96 | the class method makes the specified step; the order holds after it |
| RttWindows.SmoothedExactly | libalcc/copa/rtt-window.cc:78-82 | srtt is the first sample, and then moves a sixteenth of the way to each new one |
| RttWindows.SpansExactly | libalcc/copa/rtt-window.cc:85-91 | the four window lengths of one sample: the larger of 10 s and twenty old minima; half a new srtt and four new srtts, none longer than the first |
| RttWindows.CopaLikeMeaning | libalcc/copa/rtt-window.cc:110-113 | is_copa holds if and only if some sample of the last four smoothed round trips lies less than a tenth of the way from the minimum to the recent maximum; it is false when the recent minimum and maximum agree |
| CopaDelta.DeltaBounded | libalcc/copa/libalcc_copa.cpp:331-361 | from the first call on, 0 < delta <= default_delta |
| CopaDelta.DeltaFollowsLaw | libalcc/copa/libalcc_copa.cpp:331-361 | every call moves 1/delta by one law: reset, halve with floor 1/default_delta, add one, or keep (which one, ModeSelects says) |
| CopaDelta.ModeSelects | libalcc/copa/libalcc_copa.cpp:320-361 | from the call's own fields: in the automatic mode a Copa-like verdict makes delta the default once a round trip has passed since the last loss; any other verdict halves 1/delta on a loss, at most once a round trip, and otherwise adds one to it once a round trip; TCP cooperation always does the latter |
| CopaDelta.LossFreeRun | libalcc/copa/libalcc_copa.cpp:342-360 | over any run in the automatic mode without losses or Copa-like verdicts, 1/delta gains exactly the number of calls that came more than a round trip after the one before of that kind, told from the times alone |
| CopaDelta.IncreasesAdd | libalcc/copa/libalcc_copa.cpp:342-360 | over a run without reset or loss, the first call after init included, 1/delta grows by exactly the number of qualifying updates |
| CopaDelta.RunBounded | libalcc/copa/libalcc_copa.cpp:331-361 | over any run, the first call after init included, 1/delta stays between 1/default_delta and its start plus the increases |
| CopaWindow.ReachableVelocity | libalcc/copa/libalcc_copa.cpp:371-441 | in every state reachable from init: step size a power of two, last direction 1 or -1, window at least 2, slow start never re-entered |
| CopaWindow.UpdateWindowKeeps | libalcc/copa/libalcc_copa.cpp:398-441 | one update keeps that, leaves a step size of at most max(1, old, window * delta), and never takes the "< 0.006" branch |
| CopaWindow.UpdateWindowDirection | libalcc/copa/libalcc_copa.cpp:398-435 | outside slow start a step moves the window strictly up below the target and down (to no less than 2) otherwise; GrowsExactly says what the target is |
| CopaWindow.GrowsExactly | libalcc/copa/libalcc_copa.cpp:383-435 | outside slow start, from the measurements alone: the window grows if and only if the unjittered round trip is the minimum, or window * queuing delay * delta is below the unjittered round trip; otherwise it shrinks, to no less than 2 |
| CopaWindow.SlowStartExactly | libalcc/copa/libalcc_copa.cpp:394-399 | in slow start the window grows by one, and slow start is left if and only if the new window fails that test; switched off, with a queuing delay, nothing moves |
| CopaWindow.TurnExactly | libalcc/copa/libalcc_copa.cpp:410-422 | a turn doubles the step size if the window kept its way, and otherwise starts from one with the way reversed |
| CopaWindow.StepSizeExactly | libalcc/copa/libalcc_copa.cpp:410-427 | the step size, the time of the last turn and the way after one update: a turn falls due more than a round trip after the last, and a step above window * delta is halved, not below one |
| CopaWindow.MoveExactly | libalcc/copa/libalcc_copa.cpp:430-440 | one move times delta * window is the step size, up or down, unless cut off at 2; moves up and down since the last turn are counted |
| CopaWindow.ReducedExactly | libalcc/copa/libalcc_copa.cpp:508-526 | a reduction leaves seven tenths of the window, but at least 2 |
| CopaControllers.AckKeeps | libalcc/copa/libalcc_copa.cpp:445-526 | one acknowledgement keeps the whole controller invariant and the round-trip estimates in order |
| CopaControllers.ControlRunSafe | libalcc/copa/libalcc_copa.cpp:445-561 | every state reachable by acknowledgements and sends keeps the invariant; in the ALCC variant num_pkts_lost stays 0 |
| CopaControllers.WindowFollowsQueue | libalcc/copa/libalcc_copa.cpp:318-441 | for a whole acknowledgement past probing and slow start: the window grows if and only if the new estimates show no queue, or window * queuing delay * delta is below the unjittered round trip; a turn falls due if and only if the packet was sent after the last one |
| CopaControllers.DeltaFollowsVerdict | libalcc/copa/libalcc_copa.cpp:318-361 | for a whole acknowledgement without a loss in the automatic mode: delta is the default if the estimates look Copa-like and the packet was sent after the last loss; one is added to 1/delta if they do not and it was sent after the last update; otherwise it stays |
| CopaControllers.LossHalvesDelta | libalcc/copa/libalcc_copa.cpp:342-350 | a counted loss under delays that do not look Copa-like halves 1/delta, down to 1/default_delta, after the acknowledgement itself has added one if that was due |
| CopaControllers.CopaController.UpdateDelta | libalcc/copa/libalcc_copa.cpp:318-362 | the field-by-field method is the delta step that ModeSelects describes |
| CopaControllers.CopaController.UpdateIntersendTime | libalcc/copa/libalcc_copa.cpp:371-441 | the field-by-field method is, after the probing phase, the window step that GrowsExactly, SlowStartExactly, StepSizeExactly and MoveExactly describe |
| CopaControllers.CopaController.OnAck | libalcc/copa/libalcc_copa.cpp:445-526 | one acknowledgement is the specified step of trackers, delta, window, packet map and counters, and keeps the invariant, or ends in the source's own assertion exactly when specified |
| CopaControllers.CopaController.OnPktSent | libalcc/copa/libalcc_copa.cpp:528-561 | registers the packet and counts it |
| PacketLedgers.Acknowledge | libalcc/copa/libalcc_copa.cpp:475-507 | the loop over the map computes the specified walk, map and loss count, in both variants |
| PacketLedgers.AlccWalk | libalcc/copa/libalcc_copa.cpp:475-507 | in the ALCC walk the early erase leaves the counting branch no smaller key: nothing is counted as lost, and exactly the oldest packet is removed |
| PacketLedgers.AlccExact | libalcc/copa/libalcc_copa.cpp:475-507 | the ALCC walk removes exactly the acknowledged packet if and only if it is the oldest |
| CopaFlows.FlowRunSafe | libalcc/copa/libalcc_copa.cpp:563-797 | over every run of sends and cumulative acks that name sent bytes: every packet counted was sent, the map's keys are exactly rcvSeq+1 .. seq_num-1 and num_pkts_lost is 0 |
| CopaFlows.CountedWereSent | libalcc/copa/libalcc_copa.cpp:727-741 | since packets have 1 to 1484 bytes and acks name sent bytes, no more packets are counted, or still to be, than were sent |
| CopaFlows.MessageCounts | libalcc/copa/libalcc_copa.cpp:727-737 | one ack in reach sets the loop to go through exactly the whole packets it adds |
| CopaFlows.SendBounded | libalcc/copa/libalcc_copa.cpp:595-634 | each send leaves fewer than window + 1 packets outstanding |
| CopaFlows.NamesLeast | libalcc/copa/libalcc_copa.cpp:739-795 | each turn of the loop names a packet that was sent, the smallest outstanding one, and removes exactly it |
| CopaFlows.TimesOfSends | libalcc/copa/libalcc_copa.cpp:622-634 | on every run the recorded sending time of a packet is the time of the event that sent it |
| CopaFlows.MeasuresRoundTrip | libalcc/copa/libalcc_copa.cpp:756-795 | on every run, what the controller samples in a turn of the loop is the time since the event that sent the packet counted |
| CopaFlows.GuardMeaning | libalcc/copa/libalcc_copa.cpp:595 | the send guard in terms of outstanding packets; it never blocks a sender with none |
| CopaFlows.CopaSocket.SendPacket | libalcc/copa/libalcc_copa.cpp:595-634 | one turn of the sender's loop is the specified step or nothing |
| CopaFlows.CopaSocket.OnMessage | libalcc/copa/libalcc_copa.cpp:712-800 | a cumulative ack is expanded into one acknowledgement per whole packet it adds, in order: rcvSeq becomes floor((ack - start) / MTU), the map holds exactly the rest, and nothing is lost |
| CopaFlows.CopaSocket.AckPacket | libalcc/copa/libalcc_copa.cpp:740-797 | one turn of the loop is the specified step |
| PacketLedgers.NativeWalk | Applications/genericCC/markoviancc.cc:243-262 | the native walk removes every key up to the acknowledged one and counts exactly the smaller ones as lost |
| PacketLedgers.LedgerBalance | Applications/genericCC/markoviancc.cc:243-301 | over any run, number by number: sent = outstanding + hits + lost + displaced; so sent = outstanding + hits + lost if and only if no send reused an outstanding number |
| PacketLedgers.NativeBooks | Applications/genericCC/markoviancc.cc:243-262 | the walk and the count agree with that account |
| CopaControllers.NativeRunBalance | Applications/genericCC/markoviancc.cc:243-301 | the controller's own counters satisfy it after every run |
| CopaControllers.NativeAborts | Applications/genericCC/markoviancc.cc:158-171 | on every run: native Copa aborts exactly on a packet acknowledged no later than it was sent, or, with slow start switched off, on the first acknowledgement past probing after which some queuing delay is measured |
| Md5Streams.SignInPieces | Applications/bftpd/md5.c:282-448 | for every message and every way of cutting it into chunks, init, process and finish give the one-shot digest of section 3 of RFC 1321 over the padded message |
| Md5Streams.Md5.Process | Applications/bftpd/md5.c:317-366 | the message grows by the chunk and the invariant (at most 64 bytes buffered, chaining value = fold of the rest) is kept |
| Md5Streams.Md5.FillBuffer | Applications/bftpd/md5.c:323-352 | filling the buffer keeps message and invariant, including the lazy flush at 64 |
| Md5Streams.Md5.Finish | Applications/bftpd/md5.c:387-448 | the signature is the digest of the message processed; PaddedShape, SignatureValue and FoldNext say what that digest is |
| Md5Streams.Md5.PadBuffer | Applications/bftpd/md5.c:407-443 | the buffer becomes the tail of the padded message |
| Md5Streams.PaddedShape | Applications/bftpd/md5.c:407-443 | the padded message: the message, a 0x80 byte, zeros, and the bit count in its last eight bytes, with 9 to 72 bytes added |
| Md5Streams.LengthValue | Applications/bftpd/md5.c:431-443 | those eight bytes, the low order byte first, have the bit count as their value |
| Md5Streams.LittleEndian32 | Applications/bftpd/md5.c:239-258 | four bytes whose value, the low order byte first, is the word |
| Md5Streams.SignatureValue | Applications/bftpd/md5.c:239-258 | the signature is A, B, C and D in this order, each as such bytes |
| Md5Streams.InitialSignature | Applications/bftpd/md5.c:282-287 | the initial accumulators, in bytes, are 01 23 45 67 89 ab cd ef fe dc ba 98 76 54 32 10, as in section 3.3 of RFC 1321 |
| Md5Streams.FoldNext | Applications/bftpd/md5.c:85-219 | each block is compressed into the result of the blocks before it |
| Md5Streams.AddBytes | Applications/bftpd/md5.c:101-113 | the two-word byte counter counts modulo 2^64 |
| Md5Streams.LengthWords | Applications/bftpd/md5.c:431-443 | the two trailer words are the bit count modulo 2^64 |
| Md5Streams.FoldAppend | Applications/bftpd/md5.c:85-219 | the compression of a concatenation at a block boundary is the compression of the parts in turn |
| Md5Streams.SigToString | Applications/bftpd/md5.c:507-532 | writes exactly the two hexadecimal digits of every byte that fits, and a terminator if there is room |
| Md5Streams.SigFromString | Applications/bftpd/md5.c:553-569 | reading back what was written gives the signature |
| Md5Streams.HexAt | Applications/bftpd/md5.c:507-532 | where each byte's digits stand in the text |
| Md5Streams.DigitMeaning | Applications/bftpd/md5.c:522-526 | the sixteen digits are 0 to 9 and a to f |
| MemoryRanges.Bisect | Applications/genericCC/memoryrange.cc:8-41 | succeeds unless the box has no room on the last axis, the first axis is cut on a bound and the third median is the upper bound; on success sixteen boxes that partition the original half-open box; when every median lies strictly between its bounds, each box has on each axis the lower bound and the median, or the median and the upper bound |
| MemoryRanges.EveryCorner | Applications/genericCC/memoryrange.cc:13-36 | all sixteen combinations of lower and upper parts are among those boxes |
| MemoryRanges.CutPointExact | Applications/genericCC/memoryrange.cc:16-22 | a piece with room on its axis is cut at the median, unless every other axis that operator== looks at is flat and (on such an axis) the median is its lower bound: then in the middle |
| MemoryRanges.BoundsMeaning | Applications/genericCC/memoryrange.cc:52-55 | a box holds the points from its lower bound up to, and without, its upper bound on every axis |
| MemoryRanges.UnsplittableFails | Applications/genericCC/memoryrange.cc:24-28 | the branch that keeps an unsplittable box whole always trips its own assertion; it is reached if and only if the bounds compare equal under operator== |
| MemoryRanges.RoomyBoxFails | Applications/genericCC/memoryrange.cc:13-36 | a box with room on three axes on which bisect fails |
| MemoryRanges.HalvesPartition | Applications/genericCC/memoryrange.cc:16-32 | a cut at the median or, when that lies on a bound, at the midpoint puts each point in exactly one half |
| MemoryRanges.BisectAxis | Applications/genericCC/memoryrange.cc:13-36 | one axis doubles the boxes and leaves every point in as many boxes as before, or fails exactly when some box's bounds compare equal |
| MemoryRanges.RangeMedian | Applications/genericCC/memoryrange.cc:43-50 | the point as far from the lower as from the upper bound on every axis, inside the box if and only if the box is nonempty |
| WhiskerTrees.FindTotal | Applications/genericCC/whiskertree.cc:62-82 | lookup in a well-formed tree finds a leaf for every point of its domain and never reaches the assertion |
| WhiskerTrees.LeavesPartition | Applications/genericCC/whiskertree.cc:62-82 | every point of the domain lies in exactly one leaf |
| WhiskerTrees.Bisected | Applications/genericCC/whiskertree.cc:17-29 | a tree built by bisecting is well-formed over the original domain, every lookup in it finds the original rule's action with a fresh count, and medians strictly inside give the pieces that Bisect promises |
| WhiskerTrees.ReplaceOutcome | Applications/genericCC/whiskertree.cc:137-180 | replacement succeeds if and only if the target's box compares equal to that of the leaf found through its midpoint |
| WhiskerTrees.ReplaceExact | Applications/genericCC/whiskertree.cc:137-180 | replacing a leaf, by a rule or a subtree over the same nonempty domain, succeeds, keeps the tree well-formed and changes lookup only inside that domain |
| WhiskerTrees.RuleKeepsIff | Applications/genericCC/whiskertree.cc:137-157 | a rule replacement keeps the tree well-formed if and only if the new rule's box really is the old one |
| WhiskerTrees.SecondAxisSlips | Applications/genericCC/whiskertree.cc:137-157 | a rule whose box differs in the second memory field is accepted |
| WhiskerTrees.GrownTreeTotal | Applications/genericCC/whiskertree.cc:17-180 | lookup stays total over any sequence of fitting replacements |
| WhiskerTrees.UseCounts | Applications/genericCC/whiskertree.cc:42-60 | one use raises the total count by one |
| WhiskerTrees.UseExact | Applications/genericCC/whiskertree.cc:42-60 | a use raises the count of the rule that a lookup finds, and changes no other point's lookup |
| WhiskerTrees.UseAllCounts | Applications/genericCC/whiskertree.cc:182-195 | after any sequence of uses the total is their number, modulo the counter's width |
| WhiskerNodes.WhiskerNode.UseWhisker | Applications/genericCC/whiskertree.cc:42-60 | the in-place counter update is the tree function |
| WhiskerNodes.WhiskerNode.ReplaceLeaf | Applications/genericCC/whiskertree.cc:137-180 | the in-place replacement is the tree function |
| WhiskerNodes.WhiskerNode.ReplaceInChildren | Applications/genericCC/whiskertree.cc:137-180 | the loop over children tries them in order and stops at the first that accepts |
| DelayCurves.DelayCurve.CalcDelayCurve | libalcc/verus/libalcc_verus.cpp:409-444 | terminates for every delay, and returns one less than the first w >= 2 with wList[w] > delay - 2k for the least such k |
| DelayCurves.IsWindowUnique | libalcc/verus/libalcc_verus.cpp:409-444 | that answer and that k are unique |
| DelayCurves.DelayCurve.CalcDelayCurveInv | libalcc/verus/libalcc_verus.cpp:446-461 | the last measured entry up to w, or the minimum delay when larger |
| DelayCurves.RoundTrip | libalcc/verus/libalcc_verus.cpp:409-461 | on rising measured delays of at least the minimum, the window of the delay of w is w if and only if w >= 1 and w + 1 is measured (or w = 1 with nothing measured above it) |
| DelayCurves.UnmeasuredRoundTrip | libalcc/verus/libalcc_verus.cpp:409-461 | the same where nothing is measured up to w: the window comes back exactly when the next entry exceeds the minimum, or, when no entry does, in the two cases named |
| DelayCurves.FullRoundTrip | libalcc/verus/libalcc_verus.cpp:409-461 | on a fully measured rising table the two are inverse if and only if 1 <= w <= 39998 |
| DelayCurves.DelayCurve.UpdateUponReceivingPacket | libalcc/verus/libalcc_verus.cpp:476-497 | one entry and the mean become moving averages, the minimum falls to the new delay if that is smaller, the outstanding count goes down, and measured entries stay at or above the minimum |
| DelayCurves.DelayCurve.RestartSlowStart | libalcc/verus/libalcc_verus.cpp:367-402 | every entry is -1 again and minimum, mean, window and count are reset |
| DelayCurves.EwmaExactly | libalcc/verus/libalcc_verus.cpp:359-365 | the mean starts from the first delay and then moves an eighth of the way to each new one |
| Cubic.Fls | Applications/genericCC/cubiccc.cc:230-257 | the number of bits of a 32-bit value |
| Cubic.Fls64 | Applications/genericCC/cubiccc.cc:215-222 | the number of bits of a 64-bit value |
| Cubic.BitLengthUnique | Applications/genericCC/cubiccc.cc:215-257 | that number is unique |
| Cubic.CubicRoot | Applications/genericCC/cubiccc.cc:264-315 | for every 64-bit a: r^3 <= 2a and a <= 2r^3 if and only if a is not 3; no intermediate result wraps |
| Cubic.SixBits | Applications/genericCC/cubiccc.cc:290-297 | the shift leaves a table index in 8..63 |
| Cubic.LeadingCubes | Applications/genericCC/cubiccc.cc:272-286 | every table entry used is 64 times a cube root, to within a sixth below and a third of a percent above in the cube |
| Cubic.LargeGuess | Applications/genericCC/cubiccc.cc:311-313 | one Newton step from a good guess of at least 16 lands within the bounds |
| Cubic.SmallGuess | Applications/genericCC/cubiccc.cc:311-313 | the same for the guesses 4 to 15 |
| Cubic.NoWrap | Applications/genericCC/cubiccc.cc:311-313 | the divisor is not zero and the sum times 341 stays below 2^32 |
| Cubic.LoopEnds | Applications/genericCC/cubiccc.cc:503-508 | the friendliness loop ends if and only if delta is positive or no acknowledgement is counted |
| Cubic.TcpCubic.CubicTcpFriendliness | Applications/genericCC/cubiccc.cc:494-529 | acknowledgements are traded for segments at exactly delta each, and the count returned is at least 1 |
| Cubic.LimitGreatest | Applications/genericCC/cubiccc.cc:511-519 | the limit is the greatest count, up to the given one, that times TCP's lead is at most the window |
| Cubic.CountedExactly | Applications/genericCC/cubiccc.cc:521-526 | the count returned is 16 times the limit over the delayed-ack ratio, rounded down, but at least 1 |
| PathMapper.MapPath | Applications/bftpd/cwd.c:69-102 | for every clean absolute directory and every path, the buffer holds a clean text denoting the stack machine's result over the split path: absolute, without a doubled slash, of length at most len(cwd) + 1 + len(path) |
| PathMapper.AppendPath | Applications/bftpd/cwd.c:45-65 | the in-place edit is one step of the stack machine |
| PathMapper.TextDenotes | Applications/bftpd/cwd.c:45-65 | the text of a directory denotes its names |
| PathMapper.TextShape | Applications/bftpd/cwd.c:45-65 | the text of a directory is absolute, has no doubled slash, and is "/" only for the root |
| PathMapper.EnterAllNames | Applications/bftpd/cwd.c:69-102 | the buffer's names follow the stack machine alone, whatever closing slashes it carries |
| PathMapper.ResolveLaws | Applications/bftpd/cwd.c:45-65 | wherever they stand, empty components and dots change nothing, a name and a dot-dot after it cancel, and a dot-dot at the root stays there |
| PathMapper.SplitConcat | Applications/bftpd/cwd.c:90-97 | splitting at slashes distributes over a slash |
| PathMapper.WorkingDirectory.Chdir | Applications/bftpd/cwd.c:16-35 | an accepted change of directory keeps the remembered directory clean |
| PathMapper.CutTo | Applications/bftpd/mystring.c:26-29 | moves the string down over its first characters |

## Left out

- AlccProtocol.RunSafe: processing one acknowledgement and one tick are atomic steps; ticks are mathematical up to the first that wraps, since what the source does after that is undefined.
- AlccProtocol.RunSafe: acknowledgements arrive in stream order and less than 2^31 apart, a packet that sets an emptied cursor lies less than 2^31 past it, and `alcc_send` requests are shorter than the ring.
- CircularQueues.CircularQueue.InsertWhileRemoving: the front that `insert` reads several times without the lock is one snapshot.
- AckReceiver.CopaRunExact: acknowledgements come in stream order, at most 2^32 - MTU apart, and the first byte's sequence number is not 0.
- PacketLedgers.Acknowledge: erasing the current element inside a range-for over the map is ordered removal; the stale copies of a packet's pacing figures, which nothing reads, are not kept.
- CopaControllers.CopaController.OnAck: the loss estimator's verdict and the clock are inputs; interarrival averages, intersend times and logging are not modelled.
- CopaFlows.FlowRunSafe: acknowledgements come in stream order, name sent bytes and are in reach of the one before; one packet per train, which is the constructor's train length; the first byte's sequence number is not 0.
- RttWindows.RttRunOrdered: samples are nonnegative and no later sample carries an earlier time.
- CopaWindow.UpdateWindowKeeps: a double-to-int conversion of the step size stays in range.
- DelayCurves.DelayCurve.CalcDelayCurve: the branches with a fitted spline are foreign code; the table has been reset once, since the constructor leaves it uninitialised.
- DelayCurves.DelayCurve.CalcDelayCurveInv: a window of 40000 or more would read past the table and is excluded.
- DelayCurves.RoundTrip: measured delays rise with the window and none is below the minimum; Verus's raising of its minimum (`RaiseMinimum`) can end the second.
- Cubic.Fls: the argument is a 32-bit pattern; the source shifts a signed int.
- Md5Streams.SignInPieces: the 64-byte compression with its round constants is a parameter, and the byte order is little-endian.
- Md5Streams.Md5.Process: the buffered length plus the chunk stays below 2^32, where the source's unsigned sum would wrap.
- Md5Streams.SigFromString: strings that are not the text of a signature are not modelled.
- MemoryRanges.Bisect: the accumulator's median is any value between the box's bounds on that axis.
- PathMapper.MapPath: allocation never fails, and the directory remembered at the start is clean.
- PathMapper.WorkingDirectory.Chdir: the system call's answer is an input.
- Sockets, netlink, the kernel module, thread creation and sleeping; send errors and partial sends.
- PCC, whose utility and monitor callbacks belong to the UDT library and which the sender does not reach.
- The rest of CUBIC's update (its timestamps come from a simulator's clock), the generated protobuf code, the FTP command handlers and the experiment scripts.
- The copies of the ring in the Verus and Copa libraries and of the round-trip windows in the sender: the same code, modelled once.
- The small estimators and the getters.
