# Verified model of the ioHdlc stack

A Dafny model of an HDLC (ISO/IEC 13239) protocol stack, with proofs. It follows
the C code section by section: what runs under one mutex, or under the system
lock, is one atomic step; whatever the operating system, the port hardware, the
clock or the application decides is an input of that step.

Each component has two layers. A specification on values (records, sequences,
functions) says what each step does; classes and methods in the code's own form
(loops, buffers, objects updated in place) are proved against it; the theorems
are about every run of the specification.

| files | what they model |
|---|---|
| `Peer`, `Session`, `Station` | numbered frames: go-back-N with checkpoint and REJ recovery, two stations over lossy FIFO channels |
| `Reception`, `Recovery`, `FlowControl` | what every reception, rewind, REJ, busy condition, poll and retry of a run does, in every mode |
| `TurnToken`, `Progress` | the NRM/TWA turn, and when a session can still be completed |
| `Control` | control fields modulo 8 and 128, the octets of I- and S-frames, from protocol frame to line and back |
| `Fcs`, `Framing`, `Receiver`, `Provenance`, `RxPath`, `TxFrame`, `Carriage` | FCS-16, frame format field, octet stuffing, the receive parser and where its frames come from, the transmit image and the zero-copy plan, and one frame all the way |
| `TxPipeline`, `TxStarts` | the transmit queue: one frame in flight, gates, references, and no idling while frames wait |
| `Stream`, `StreamContents`, `StreamEnds`, `Fragment`, `Transfer`, `EndToEnd` | the byte stream: writes against link events, what their fragments carry, what the reader is told, vectored fragmentation and reassembly, whole writes on the wire and over a lossy session |
| `FrameQueue`, `FramePool`, `RetryBudget`, `RoundRobin` | intrusive queues, the frame pool, the retry schedule, the peer round robin |
| `Bytes`, `Numbers`, `Wrappers` | octets, numbers, optional results |

`dafny verify dfyconfig.toml` checks the project.

Conventions:

- Unsigned subtraction masked with the modulus is `%` on integers; 8-, 16- and
  32-bit wrap-around is written out where a value can reach it; frame lengths, encoded
  lengths and transmit lengths are sixteen bits (`Framing.Sixteen`).
- The peer and its station are one object (`Station.Station`, `Peer.State`): the
  flags a station keeps for its current peer are in the record `Flags`.
- In `Session` a T1 or T3 expiry may happen at any moment; `TurnToken` adds that
  T1 expires only after the token has been lost.
- `Flight` tags and `epoch` are history for the proofs; no branch depends on them.
- Pool exhaustion, the pool level, line idle, port busy and the delivery
  endpoint's answer are inputs.

Where the code and its documentation differ, the code is modelled:

- `doc/PROTOCOL.md:102` says that the length in the frame format field excludes
  the field itself; `src/ioHdlcswdriver.c:427` includes it.
- `include/ioHdlcframepool.h:61` describes the normal pool level as more free
  frames than the high threshold; in fact it only means more than the low one
  (the level is normal until the low threshold is reached).
- Pool thresholds are documented as percentages; the 32-bit product wraps for very
  large pools, and can even put them in the wrong order
  (`FramePool.ThresholdsCanCross` is such a total).

Results that hold only under a condition, stated exactly:

- A frame can be received only if it meets `Carriable`: among others a TYPE0
  frame of length 126 never is (`Receiver.CarriableIff`).
- The parser's assertion on an empty request fails exactly for a TYPE1 length of
  one (`Receiver.ArmsUnlessLengthOne`).
- A full information field fits its frame buffer if and only if no 32-bit sum wraps
  (`Fragment.FullFrameFitsIff`; 0xFFFFFFFF does not, `Fragment.LargestLengthWraps`).
- Without transparency every fragment of every write arrives, whole and alone, if and
  only if the configured length is one that `Fragment.SafeLength` accepts
  (`Transfer.WritesArriveIff`): without a format field, buffer sizes up to 65535 octets,
  and an FCS or a two-octet control field. There, data must keep the frame free of
  flags, which nothing else protects. With 70000 configured, one write of 70000 octets
  is reported as written and 4464 of them arrive (`Transfer.SeventyThousand`); with
  65533, two octets are sent and none arrives (`Transfer.SixtyFiveThousand`).
- With transparency no configured length is safe: a full fragment of flags never fits
  its frame (`Transfer.TransparencyOverflows`). A fragment is good if and only if its
  encoding is neither too short nor too long (`Transfer.StuffedFragmentIff`). That is so
  for every fragment no longer than the configured length, when that
  length and the framing overhead come to at most 0x7FFF octets and there is an FCS or a
  two-octet control field (`Transfer.ShortStuffedIsGood`).
- The parser's length field keeps up with what it collects, and its requests stay inside
  the frame, if and only if pool frames are below 65536 octets
  (`Receiver.LengthKeepsUpIff`).
- In two-way simultaneous with REJ in use, an I-frame out of sequence raises a REJ if and
  only if no exception is marked (`Recovery.EveryReceiptRecovers`). Link-up does not reset
  that mark: one left by an earlier session holds back every REJ until its number is taken
  or a timer expires.
- In NRM/TWA a session can be completed, from any state a run reaches, if and only if
  the primary has a retry left, the turn is held or on the line, or what is on the line
  acknowledges all that is held (`Progress.ProgressIff`); busy conditions never prevent it.
- The link API's timeout equals the retry schedule plus twice T1 if and only if
  the retry limit is below 32 and the sum fits 32 bits (`RetryBudget.BudgetIff`).
- One more reference keeps the pool sound if and only if fewer than 255 exist
  (`FramePool.AddRefKeepsSlotsIff`).
- The pool's hysteresis holds in every run if and only if the pool has frames and its
  thresholds are in order, both for the defaults and for any later configuration
  (`FramePool.PoolIsSound`, `FramePool.ConfigureIsSoundIff`). They are in order in
  every pool below 2^32 / 100 frames (`FramePool.SmallPoolsAreOrdered`); a pool without
  frames starts at the wrong level (`FramePool.EmptyPoolIsNotNormal`).

## Model

| member | source | states |
|---|---|---|
| Session.ExactlyOnceInOrder | src/ioHdlc_core.c:861-963 | in every run of a session over lossy FIFO channels, both directions at once, for modulus 8 and 128 and every legal ks, with every interleaving of writes, sends, losses, receptions and timer expiries, the payloads delivered at one end are a prefix of those written at the other, and every payload the sender no longer holds has been delivered: once it holds none, all of them |
| Session.NeverRejectsNR | src/ioHdlc_core.c:837-850 | in every such run the N(R) of whatever frame arrives next passes validation, so the frame-reject condition is never raised |
| Session.WindowInvariant | include/ioHdlc.h:406-422 | the documented queue invariant at every step of both stations: retransmission queue length is V(S)-N(R), the numbered frames come first and are consecutive from N(R), at most ks of them, the pending count is the sum of both queues, and the next N(S) emitted equals V(S) |
| Session.HeldFramesStep | src/ioHdlc_core.c:861-963 | one step changes the frames held only by dropping a prefix that the peer has already delivered or by appending a write; a numbered frame keeps its number |
| Session.ProcessNRClosedForm | src/ioHdlc_core.c:861-899 | the acknowledgment loop retires exactly min(N(R) distance, queue length) frames, also when N(R) is ahead of a rewound V(S) |
| Session.ProcessNRWindow | src/ioHdlc_core.c:861-899 | an N(R) between A and H is valid, and afterwards A is min(N(R), V) while V and H are unchanged |
| Session.RewoundWindow | src/ioHdlc_core.c:910-963 | a rewind brings V(S) back to the oldest unacknowledged frame and keeps the window invariant, the high-water mark and every frame |
| Session.ReceiveSender | src/ioHdlc_core.c:980-1053 | the sender's half of any reception: acceptance, exactly the frames below min(N(R), V) retired, at most a rewind after it |
| Session.ReceiveReceiver | src/ioHdlc_core.c:1066-1141 | the receiver's half: a payload is taken exactly when N(S) equals V(R) and the endpoint takes it, and V(R) then moves by one |
| Session.AdvanceWindow | src/ioHdlc_core.c:1803-1863 | sending an I-frame emits N(S) = V(S) with payload number V of all writes, moves V and H as the window requires, and keeps the window invariant |
| Session.HeadIsExpected | src/ioHdlc_core.c:1079-1082 | the modular comparison of N(S) with V(R) agrees with the comparison of absolute counts, so a duplicate is never taken for the next frame |
| Session.HeadIsValid | src/ioHdlc_core.c:837-850 | the N(R) at the head of a channel lies within the receiver's own window in absolute counts |
| Session.RunKeepsInv | src/ioHdlc_core.c:1681-1996 | the two-station invariant is kept by every run |
| Reception.EveryReceiptTakes | src/ioHdlc_core.c:1247-1391 | in every run, in every mode and at both stations: the frame at the head of a channel is never ignored; the delivered octets grow by its payload exactly when it is the next I-frame and the endpoint takes it, everything sent below its acknowledgment is retired, and busy, turn, poll and retry flags become what the frame says |
| Reception.StrangeFramesAreRefused | src/ioHdlc_core.c:837-850 | in every reachable state: a frame for another station changes nothing; an N(R) that is the number of no frame from the oldest unacknowledged one to the high-water mark raises the reject condition and changes nothing else, after which no I- or S-frame does anything; any other never raises it |
| Reception.ValidNRIff | src/ioHdlc_core.c:837-850 | the modular distance test passes exactly the numbers from the oldest unacknowledged frame to the high-water mark |
| Recovery.EveryReceiptRecovers | src/ioHdlc_core.c:910-1229 | in every run and mode: V(S), the checkpoint reference, the checkpoint mark and the frames held after a reception, in absolute numbers, for an acknowledgment, a checkpoint and a REJ together; and the receiver's own exception |
| Recovery.RejRecovers | src/ioHdlc_core.c:1188-1221 | in two-way simultaneous, a REJ without P/F after no checkpoint leaves A and V at min(N(R), V), nothing awaiting acknowledgment, every frame still held at the head of the transmit queue in order and the reference at V(S); after a checkpoint it leaves V(S), and the next REJ counts |
| Recovery.GapIsRejected | src/ioHdlc_core.c:1066-1141 | in two-way simultaneous with REJ in use and no exception active: an I-frame out of sequence makes the next S-frame for which there is a turn and a buffer a REJ with the number expected, whatever happens in between, and there is one only until that number is taken or a timer expires |
| Recovery.AckReference | src/ioHdlc_core.c:861-899 | the acknowledgment loop carries the checkpoint reference along with the frame it belongs to and otherwise leaves it |
| FlowControl.BusyPeerGetsNoInfo | src/ioHdlc_core.c:1761-1879 | in every run and mode: from an RNR heard until an RR, or an I-frame with P/F that is taken, no step puts an I-frame on the line; otherwise a turn of the loop puts one there exactly when there is one, the window is free and the station has the turn, and it carries number and payload V |
| FlowControl.SupervisoryGoesOut | src/ioHdlc_core.c:1928-1969 | in every run an S-frame goes out exactly when there is the turn and a reason (a gap, local busy to report or to end, a poll to answer or to send), with the function that the reason asks for and the current N(R) |
| FlowControl.PollsAlternate | src/ioHdlc_core.c:1617-1669 | in every run no second poll leaves before F or a retry, F leaves only in answer to P, a combined station that owes an answer sends nothing but answers, with F unless it is busy, and in two-way simultaneous the next command carries P |
| FlowControl.SilentPeerGetsAllRetries | src/ioHdlc_core.c:303-326 | an expiry is a retry exactly when fewer than the limit have passed since the last F, and each counts one: the link goes down after the limit and one more, not before |
| TurnToken.TurnIsUnique | src/ioHdlc_core.c:450-494 | in NRM/TWA, when T1 expires only after the token is lost, primary-may-send plus polls in flight plus secondary-may-send plus finals in flight is at most one in every run |
| TurnToken.CheckpointResynchronises | src/ioHdlc_core.c:910-1053 | under the same rule every final bit, in every run, leaves the retransmission queue empty and V(S) and N(R) equal to the responder's V(R) |
| TurnToken.RunKeepsTokenInv | src/ioHdlc_core.c:1617-1669 | the turn rules (a P or F is the last frame on its line, the checkpoint reference is V(S) while the poll is out) are kept by every timely run, and V(S) is never behind what was delivered or is on the line |
| TurnToken.FinalWindow | src/ioHdlc_core.c:980-1053 | what one frame with F does to the primary's window, for any window and any N(R) in it |
| Progress.ProgressIff | src/ioHdlc_core.c:1681-1996 | in NRM/TWA, from every state a timely run reaches, whatever was lost and whichever station is busy or thinks the other is: some timely continuation delivers and acknowledges everything written so far, in both directions, if and only if the turn is held or on the line, or the primary has a retry left, or for each station nothing waits to be sent and the newest frame on its way in acknowledges all it holds; otherwise no continuation at all, timely or not, leaves both stations with nothing |
| Progress.Finish | src/ioHdlc_core.c:1681-1996 | builds such a continuation, without writing: the turn goes to the primary, both busy conditions end, the primary's frames are sent and resent until acknowledged, then the secondary's |
| Progress.DeadForEver | src/ioHdlc_core.c:303-494 | with the turn lost, no retry left and something unsettled, every run leaves a station holding frames |
| Progress.BurstX | src/ioHdlc_core.c:1761-1879 | from any state in which the primary has the turn and may send: its I-frames up to the poll, received, advance the secondary's V(R) if V(S) was not ahead of it |
| Progress.Answer | src/ioHdlc_core.c:980-1053 | a final bit given back at once resynchronises the primary and ends the secondary's local busy condition, whatever went before |
| Station.Station.ProcessNR | src/ioHdlc_core.c:861-899 | the in-place loop computes the specified state and reports whether a frame was released |
| Station.Station.CheckpointRetransmit | src/ioHdlc_core.c:910-963 | the scan up to the checkpoint reference moves the whole queue back exactly when the oldest frame is not the reference |
| Station.Station.HandleCheckpointAndAck | src/ioHdlc_core.c:980-1053 | refuses exactly an invalid N(R) and leaves the state alone then; otherwise acknowledgment, checkpoint and P/F flags in the specified order, with the two signals |
| Station.Station.HandleIFrame | src/ioHdlc_core.c:1066-1141 | new state as specified in the three cases out of sequence, refused and accepted |
| Station.Station.HandleSFrame | src/ioHdlc_core.c:1151-1229 | new state for RR, RNR, REJ (with the checkpoint inhibiting it once) and SREJ; what it does to the sender in a run is `Recovery.RejRecovers` |
| Station.Station.Receive | src/ioHdlc_core.c:1247-1391 | new state for any I- or S-frame, with the address filters of both modes and the frame-reject condition; what it does in a run, in every mode, is `Reception.EveryReceiptTakes` |
| Station.Station.SendIFrame | src/ioHdlc_core.c:1803-1879 | new state and emitted frame of one turn of the I-frame loop |
| Station.Station.PrepareSFrame | src/ioHdlc_core.c:1617-1669 | new state and emitted S-frame |
| Station.Station.SendSFrame | src/ioHdlc_core.c:1935-1969 | at most one S-frame, chosen in the code's order, and the state after it |
| Station.Station.ConnectedTx | src/ioHdlc_core.c:1761-1969 | one uninterrupted pass: the burst of I-frames followed by at most one S-frame, and the state after it; when an I-frame may go out is `FlowControl.BusyPeerGetsNoInfo` |
| Station.Station.HandleTimeoutRetry | src/ioHdlc_core.c:1686-1703 | the T1 section: with retries left, one is used and a new checkpoint is requested; otherwise the link goes down |
| Station.Station.HandleT3 | src/ioHdlc_core.c:1706-1725 | the T3 section in both of its uses, with the same outcome when the retries are used up |
| Station.Station.AbortPeerLink | src/ioHdlc_core.c:228-316 | the state after a link loss: sequence variables and transmit queues cleared, what was received kept |
| Station.BurstIsConsecutive | src/ioHdlc_core.c:1761-1926 | a burst carries consecutive numbers from V(S) with the right payloads, never leaves the window, all with the current N(R), and in two-way alternate only its last frame can carry P/F |
| Station.BurstIsMaximal | src/ioHdlc_core.c:1761-1926 | a burst ends only for want of a frame, a free window, the turn or a ready peer, or at the limit, or in two-way alternate with the P/F bit |
| Station.LinkLostStartsAfresh | src/ioHdlc_core.c:228-316 | after a link loss the sequence variables, queues and flags are those of a new start, what was received is kept and the primary may poll |
| Control.NSCodec | src/ioHdlc_core.c:110-116 | writing N(S) makes it the number read back and changes neither N(R), P/F nor the frame type, for both moduli and any previous octets |
| Control.NRCodec | src/ioHdlc_core.c:118-124 | the same for N(R) |
| Control.PFCodec | src/ioHdlc_core.c:126-138 | the same for P/F |
| Control.TxFrame.PrepareIFrameHeader | src/ioHdlc_core.c:1519-1542 | the header built is an I-frame with the given N(R) and P/F; a first transmission takes the seed as N(S), a retransmission keeps the number it had |
| Control.PreparedHeader | src/ioHdlc_core.c:1519-1542 | the same of the control octets, whatever they held before |
| Control.BuilderFindsTheNumber | src/ioHdlc_core.c:1519-1542 | what the header builder finds in and leaves in the control field is the number the protocol emits and the frame that joins the retransmission queue, on a first sending and on every later one |
| Control.PreparedSupervisory | src/ioHdlc_core.c:1584-1603 | an S-frame written over any octets is read back with its function, N(R) and P/F |
| Control.SerializeRoundTrip | src/ioHdlc_core.c:802-828 | every I- or S-frame of the protocol, modulo 8 or 128, is parsed back as it was |
| Control.LineCarriesFrames | src/ioHdlcswdriver.c:854-1085 | protocol frames serialised, printed on a clean line with any sharing of flags, parsed, checked and read back are the same frames in the same order |
| Control.SessionFramesSurvive | src/ioHdlc_core.c:1519-1603 | every frame in flight in any run of a session has fields that fit the control octets and is read back unchanged |
| Control.ParsedKinds | include/ioHdlc.h:85-87 | an even control octet is an I-frame, one that is one modulo four an S-frame, and a U-frame is neither |
| Control.OctetsSent | src/ioHdlc_core.c:110-138 | the octets of every I- and S-frame, bit for bit: N(R), P/F and N(S) in their places for both moduli, and the codes of RR, RNR, REJ and SREJ |
| Fcs.TableIsEightShifts | src/ioHdlcll.c:55-88 | each of the 256 table entries is eight steps of the polynomial 0x8408 |
| Fcs.StepIsSerial | src/ioHdlcll.c:97-108 | one table step is the shift register fed with the octet's eight bits, least significant first |
| Fcs.UpdateIsSerial | src/ioHdlcll.c:97-108 | the octet loop is the bit-serial register over the whole message |
| Fcs.UpdateConcat | src/ioHdlcll.c:119-121 | the result does not depend on how the input is cut |
| Fcs.CheckIffTrailingFcs | src/ioHdlcll.c:162-169 | a string leaves 0xF0B8 if and only if it is a message followed by exactly its FCS |
| Fcs.AppendedFcsPasses | src/ioHdlcll.c:144-154 | every message followed by its FCS passes the check |
| Fcs.BurstErrorsRejected | src/ioHdlcswdriver.c:115-125 | of two different frames that agree outside sixteen consecutive bits, at any bit position, at most one passes |
| Fcs.AdjacentOctetErrorsRejected | src/ioHdlcswdriver.c:115-125 | a nonzero error confined to two adjacent octets of a valid frame is rejected |
| Fcs.OddErrorsRejected | src/ioHdlcswdriver.c:115-125 | an error in an odd number of bits, anywhere, is rejected |
| Fcs.UpdateFcs | src/ioHdlcll.c:97-108 | the loop over a buffer range computes the specified register |
| Fcs.AddFcsAt | src/ioHdlcll.c:144-154 | writes the FCS behind the message and nothing else, after which the whole passes the check |
| Fcs.CheckFcsAt | src/ioHdlcll.c:162-169 | true exactly when the last two octets are the FCS of the others |
| Fcs.ComputeFcs | src/ioHdlcswdriver.c:144-162 | the FCS over a list of segments is that of their concatenation |
| Fcs.KnownAnswers | src/ioHdlcll.c:130-154 | the FCS of no octets is zero and that of the nine digits 0x906E, low octet first |
| Framing.OctetsOnTheLine | src/ioHdlcll.c:178-195 | a flag goes out as 7D 5E, an escape as 7D 5D, every other octet as itself, wherever it stands |
| Framing.OctetsDecoded | src/ioHdlcll.c:202-215 | of any octets, encoded or not: an escape toggles bit five of the octet behind it, one in the last place takes the closing flag for it, everything else is itself, wherever it stands |
| Framing.AcceptIff | src/ioHdlcswdriver.c:1033-1085 | exactly a message with its FCS, if there is one, whose stated length, if there is one, is right, is accepted, and as that message |
| Framing.StuffRoundTrip | src/ioHdlcll.c:178-215 | decoding undoes encoding, and encoded octets contain no flag |
| Framing.FffStatesLength | src/ioHdlcswdriver.c:419-448 | the format field is refused exactly when the sixteen-bit total does not fit it, and otherwise states that total with the right type bits |
| Framing.AcceptsEncoded | src/ioHdlcswdriver.c:1033-1085 | every frame that can be encoded is accepted by the receiving driver, with the format field in front and without the FCS |
| Framing.AcceptedIsIntact | src/ioHdlcswdriver.c:1056-1085 | whatever octets are accepted with an FCS configured were a message with exactly its FCS and, with a format field, of the stated length |
| Receiver.StepKeepsInv | src/ioHdlcswdriver.c:854-1031 | in every state the armed request is nonempty and stays inside the pool frame, and what has been collected has the shape of the format; only well-shaped frames are handed over |
| Receiver.RunKeepsInv | src/ioHdlcswdriver.c:854-1031 | the same for every sequence of octets, timeouts, errors and pool shortages |
| Receiver.ArmsUnlessLengthOne | src/ioHdlcswdriver.c:1019-1031 | the assertion on an empty request fails exactly on a TYPE1 field stating length one |
| Provenance.HandedOverStoodBetweenFlags | src/ioHdlcswdriver.c:854-1031 | after any events whatever: a frame handed over is an unbroken stretch of octets without timeout or line error, directly behind a flag (or a flag and an idle line) and closed by one |
| Provenance.OneBufferAtATime | src/ioHdlcswdriver.c:854-1031 | a pool frame is under construction only if it was taken at a flag while the pool had one and has not been handed over; a line error gives it up |
| Provenance.IdleKeepsTheFlag | src/ioHdlcswdriver.c:861-879 | any number of timeouts between two frames costs nothing of the second |
| Receiver.FrameRoundTrip | src/ioHdlcswdriver.c:887-1000 | one encoded frame and its closing flag are handed over as that frame, in stuffed, TYPE0 and TYPE1 mode, with flags inside the counted chunk |
| Receiver.CarriableIff | src/ioHdlcswdriver.c:887-1000 | the length and flag conditions for that are exact: a frame that does not meet them is never handed over by any run at all |
| Receiver.SequenceRoundTrip | src/ioHdlcswdriver.c:887-1017 | any sequence of frames with any choice of shared or own opening flags is handed over in order |
| Receiver.OneFlagSynchronises | src/ioHdlcswdriver.c:887-1017 | without a format field one flag leads from any reachable state to the same open and empty state |
| Receiver.SelfSynchronises | src/ioHdlcswdriver.c:854-1031 | after any noise, timeouts, errors or pool shortage, every frame printed behind one flag is recovered |
| Receiver.WireRoundTrip | src/ioHdlcswdriver.c:614-1085 | what is encoded and printed is what the receiving driver returns, frame by frame, in every mode |
| RxPath.TransparentEncode | src/ioHdlcll.c:178-195 | the encoding loop writes exactly the stuffed octets into the second buffer and reports whether any octet was escaped |
| RxPath.TransparentDecode | src/ioHdlcll.c:202-215 | decoding a frame inside its own buffer gives the pure decoding, including a trailing escape that consumes the closing flag |
| RxPath.RxDriver.OnOctet | src/ioHdlcswdriver.c:887-1031 | the in-place parser, on arrays from the pool, refines the specification: state, indices in bounds, and the frames queued for the reader |
| RxPath.RxDriver.OnTimeout | src/ioHdlcswdriver.c:861-876 | an intra-frame timeout drops the partial frame, an inter-frame one changes nothing and signals idle to the reader |
| RxPath.RxDriver.OnLineError | src/ioHdlcswdriver.c:878-885 | a line error drops the partial frame and closes the receiver |
| RxPath.RxDriver.ContinueFrame | src/ioHdlcswdriver.c:916-998 | the format-field and length branches refine the specification |
| RxPath.RxDriver.CheckFrame | src/ioHdlcswdriver.c:1056-1085 | decode, FCS check, length check and strip in place accept exactly the specified frames with the specified content |
| RxPath.SkipsToTheFirst | src/ioHdlcswdriver.c:1033-1085 | the first acceptable frame is returned, and only it and those in front of it leave the queue |
| RxPath.RxDriver.RecvFrame | src/ioHdlcswdriver.c:1033-1085 | the reader returns the first acceptable frame, drops those before it and leaves the rest of the queue and the parser untouched |
| TxFrame.EmitInto | src/ioHdlcswdriver.c:419-448 | the format field goes into the reserved octets; on EMSGSIZE the buffer is unchanged |
| TxFrame.Materialize | src/ioHdlcswdriver.c:614-646 | the frame's own buffer becomes the encoded frame and closing flag, or stays as it was on EMSGSIZE; the sixteen-bit transmit length covers all of it if and only if it fits |
| TxFrame.Transparent | src/ioHdlcswdriver.c:710-757 | the second buffer and the transmit length, with all three sixteen-bit lengths of this path; what is sent is the stuffed frame and closing flag if and only if that fits sixteen bits; the original keeps its octets |
| TxFrame.BuildPlan | src/ioHdlcswdriver.c:450-612 | for any opening flag and whoever computes the FCS, the segments with the FCS in its place are the octets of the contiguous image, wire_len is their number, the FCS range covers exactly the octets before the FCS, and the errors are those of the image |
| TxPipeline.StartsInOrder | src/ioHdlcswdriver.c:657-827 | in every run frames start on the port in acceptance order, none overtakes a waiting one, and of the started frames only the newest can still be out |
| TxPipeline.GatesAndReferences | src/ioHdlcswdriver.c:657-827 | a gate is taken exactly while its frame is prepared, queued or in flight, and the driver has exactly one reference to each frame queued or in flight |
| TxPipeline.ReleasedExactlyOnce | src/ioHdlcswdriver.c:1092-1172 | each acceptance's reference is given back exactly once, by completion, failure or abort, and not before; an abort leaves none |
| TxStarts.WorkIsConserved | src/ioHdlcswdriver.c:657-690 | in every run, after a completion, a port that becomes ready or a commit, with the slot free: the oldest waiting frame is in flight if the port is idle and takes it; frames wait beside an empty slot only after the port was busy or refused one |
| TxStarts.CompletionsEmptyTheQueue | src/ioHdlcswdriver.c:1094-1119 | completions alone, on a port that takes everything, start and give back every queued frame, oldest first |
| TxStarts.GatesOpenAndClose | src/ioHdlcswdriver.c:696-770 | in every run a sender gets a frame exactly when it is neither prepared nor queued nor in flight; giving up, replacing and completing make it idle again |
| TxPipeline.RunKeepsInv | src/ioHdlcswdriver.c:696-827 | gate, order and accounting invariants hold in every run |
| TxPipeline.TxDriver.TryStartNext | src/ioHdlcswdriver.c:657-689 | the queue head is started, put back at the head or given up as specified |
| TxPipeline.TxDriver.SendPrepared | src/ioHdlcswdriver.c:764-826 | the locked section of a send: kickstart, queueing on a busy port, failure |
| TxPipeline.TxDriver.OnTxDone | src/ioHdlcswdriver.c:1092-1117 | completion frees the slot, gives the frame back and starts the next; that this starts the next frame is `TxStarts.WorkIsConserved` |
| TxPipeline.TxDriver.OnTxError | src/ioHdlcswdriver.c:1146-1172 | an abort gives back the frame in flight and every queued one |
| Stream.WriteStaysInItsSession | src/ioHdlc.c:1402-1543 | under every interleaving of a writer's sections with connects, closes, aborts, refusals and resets: no stale reset when a writer is admitted, a writer without a pending reset is in the session that admitted it, and everything queued in a session comes from calls admitted in it; a link that has just come up has nothing queued (the corollary `Stream.NothingSurvivesConnect`) |
| StreamContents.QueuedIsWritten | src/ioHdlc.c:1480-1525 | in every interleaving what the admitted call has queued is the beginning of its data, in order, without gap or repetition; a call that ends with success has queued exactly its data; what the sender still holds is the newest of what was queued, in order |
| StreamContents.WriterProceeds | src/ioHdlc.c:1419-1525 | while the session that admitted the call is up each section takes it on by what it offers, and after the session has ended each makes it leave with a reset and nothing queued |
| StreamEnds.ReaderLearnsTheEnd | src/ioHdlc_core.c:228-348 | in every run the connected state, the terminal state and the results kept for the reader are what the link events were: one for every session that ended, until taken, by the way it ended; a close, an abort and a connect empty the queues |
| Stream.OutcomeTellsBoundary | src/ioHdlc.c:1502-1543 | a call ends with ECONNRESET if and only if its session ended before it left, with success only if everything was queued in the session still up, and the branches for a disconnected link without a reset are never taken |
| Stream.RunKeepsInv | src/ioHdlc_core.c:149-348 | the invariant behind the three theorems is kept by every run |
| Stream.StreamPeer.SetDisconnectedWith | src/ioHdlc_core.c:149-162 | new state, terminal results and writer notification |
| Stream.StreamPeer.CloseOrderly | src/ioHdlc_core.c:266-280 | new state after an orderly close |
| Stream.StreamPeer.AbortLink | src/ioHdlc_core.c:282-291 | new state after a link loss |
| Stream.StreamPeer.ResetVars | src/ioHdlc_core.c:336-348 | new state after a reset, which forgets the writer only after notifying it |
| Stream.StreamPeer.ModeSet | src/ioHdlc_core.c:660-667 | reset and connect in one section |
| Stream.StreamPeer.AdmitWriter | src/ioHdlc.c:1405-1416 | admission, with the code's own assertion proved |
| Stream.StreamPeer.LoopHead | src/ioHdlc.c:1419-1461 | the section at the head of the write loop; it reports a reset exactly across a session boundary |
| Stream.StreamPeer.Insert | src/ioHdlc.c:1502-1521 | the section that queues a fragment; that the fragments are the written octets in order is `StreamContents.QueuedIsWritten` |
| Stream.StreamPeer.Leave | src/ioHdlc.c:1527-1536 | the closing section and the outcome it reports |
| Carriage.ArrivesIff | src/ioHdlcswdriver.c:614-1085 | one frame all the way, from the queued buffer through port and parser to the receiving driver, for pool frames of any size: it arrives, whole and alone, if and only if it can be encoded and its encoding can be carried and fits the sixteen-bit transmit length |
| Carriage.ArrivedWasSent | src/ioHdlcswdriver.c:614-646 | for pool frames of any size: a frame that arrives was sent whole within the sixteen-bit transmit length and handed over as it was encoded |
| Carriage.CarriedArrives | src/ioHdlcswdriver.c:614-1085 | for pool frames of any size: a frame whose encoding can be carried and fits the transmit length arrives |
| Receiver.LengthKeepsUpIff | src/ioHdlcswdriver.c:986-997 | in every format and every run the sixteen-bit length field says where the parser is and requests stay inside the frame, if and only if pool frames are below 65536 octets |
| Transfer.RoundTrip | src/ioHdlc.c:1419-1761 | any split of the data into write vectors, any address and control octets and any series of vectored reads: what is read is, in order and as far as asked for, what arrives of the frames; that is what was written whenever all fragments are good, and so for every safe configured length, with a format field whatever the data |
| Transfer.WritesArriveIff | src/ioHdlc.c:1461-1500 | without transparency: every fragment of every write fits its buffer and arrives, with any address and control octets, if and only if the configured length is safe |
| Transfer.GoodFragmentIff | src/ioHdlc.c:1461-1500 | without transparency, for pool frames of any size, a fragment fits its buffer and arrives if and only if its length is good and, without a format field, no flag occurs in its frame |
| Transfer.StuffedFragmentIff | src/ioHdlcll.c:178-195 | with transparency, for pool frames of any size, a fragment is good if and only if its encoding is neither too short nor too long for the pool's frames and, with its closing flag, fits the sixteen-bit transmit length |
| Transfer.TransparencyOverflows | src/ioHdlc.c:226-254 | with transparency, for every configured length, a full fragment of flags does not fit its frame |
| Transfer.ShortStuffedIsGood | src/ioHdlc.c:226-254 | with transparency every fragment no longer than the configured length is good, whatever its data, when that length and the framing overhead come to at most 0x7FFF octets and there is an FCS or a two-octet control field |
| Fragment.WriteV | src/ioHdlc.c:1419-1525 | the fragments are the data in order, also when the call is cut short, and the ones the code's length rule gives, with their sixteen-bit frame lengths; for a safe configured length each length is good |
| Fragment.FillFragment | src/ioHdlc.c:1480-1499 | the copying loop takes exactly the next octets of the vectors, skipping empty ones, with every index in range |
| Fragment.Reader.ReadV | src/ioHdlc.c:1655-1761 | one call fills the buffers front to back with the next octets and leaves the rest of the stream |
| Fragment.Reader.CopyFrame | src/ioHdlc.c:1724-1744 | the inner copying loop, until the frame or the buffers are used up |
| Fragment.FullFrameFitsIff | src/ioHdlc.c:226-254 | for every configured length, zero meaning the default: a full information field fits the buffer if and only if no 32-bit sum wraps |
| Fragment.ChunksAreGoodIff | src/ioHdlc.c:1461-1470 | the length of every fragment of every write is one the format field accepts, never states 126, fits the buffer and the sixteen-bit transmit length and is not too short for the receiver, if and only if the configured length is safe |
| EndToEnd.Exchange | src/ioHdlc.c:1419-1761 | a vectored write whose fragments, as the write loop cuts them, a lossy session enqueues in any interleaving, followed by any vectored reads at the other end: the octets read are a prefix of the octets written, and all of them, as far as asked for, once every fragment has been enqueued and none is held |
| EndToEnd.FrameCrossesTheWire | src/ioHdlcswdriver.c:614-1085 | every I-frame in flight in such an exchange, serialised and sent, arrives whole and alone and is parsed as the frame the protocol sent, for a safe configured length and free of flags where that is needed |
| EndToEnd.ScheduledLog | src/ioHdlc.c:1502-1525 | what a session's writes enqueue is the first fragments, in order |
| Fragment.DefaultIsLongest | src/ioHdlc.c:493-503 | with a format field the default length gives the longest frame that the field can state |
| Fragment.FullOrHalf | src/ioHdlc.c:1461-1470 | a fragment is as long as data and information length allow, except that it is half of that where a TYPE0 field would read as a flag |
| Fragment.MiflIsRequested | src/ioHdlc.c:653-665 | where it fits it is as long as requested, up to the format field's limit |
| FrameQueue.Insert | include/ioHdlcqueue.h:67-72 | appends the node: the list behind the head is the old sequence and the node |
| FrameQueue.InsertHead | include/ioHdlcqueue.h:81-86 | prepends the node |
| FrameQueue.Remove | include/ioHdlcqueue.h:93-98 | unlinks and returns the oldest node |
| FrameQueue.RemoveLookAhead | include/ioHdlcqueue.h:106-120 | the same, and the node behind it or null |
| FrameQueue.LifoRemove | include/ioHdlcqueue.h:127-132 | unlinks and returns the newest node |
| FrameQueue.Delete | include/ioHdlcqueue.h:139-142 | unlinks a node anywhere, leaving its own pointers |
| FrameQueue.Move | include/ioHdlcqueue.h:149-159 | a stretch of one queue moves, in order, in front of another; its source loses exactly that stretch; both stay well-formed |
| FrameQueue.MoveTail | include/ioHdlcqueue.h:172-181 | a node moves to the tail of its queue |
| FrameQueue.MoveTailAcross | include/ioHdlcqueue.h:172-181 | a node moves from one queue to the tail of another; both stay well-formed |
| FrameQueue.RingCut | include/ioHdlcqueue.h:149-159 | a circular list is well-formed if and only if its parts are and their ends meet |
| RetryBudget.BudgetIff | src/ioHdlc.c:127-154 | the sum of the n2+1 reply windows plus twice T1 equals the API timeout if and only if n2 is below 32 and the exact total fits 32 bits |
| RetryBudget.ApiOutlastsRetries | src/ioHdlc.c:127-154 | the API never gives up while the core still retries |
| RetryBudget.DoublingWindows | src/ioHdlc_core.c:75-88 | the windows before the last double; their sum is exact or beyond 32 bits |
| RetryBudget.WindowCount | src/ioHdlc_core.c:303-326 | n2+1 windows from a fresh start, fewer from any nonzero retry count |
| RoundRobin.PeerList.NextPeer | src/ioHdlc_core.c:515-542 | terminates on any list and moves to the next eligible peer in cyclic order, or stays |
| RoundRobin.EachServedOnce | src/ioHdlc_core.c:515-542 | with k eligible peers k calls return each of them exactly once and nobody else |
| RoundRobin.ServedGoesLast | src/ioHdlc_core.c:515-542 | serving a peer moves it from the front of the eligible ones to their end |
| FramePool.SlotsAreSound | include/ioHdlcfmempool_layout.h:37-87 | slots lie inside the arena, are aligned with an aligned payload, hold header and frame, and are disjoint |
| FramePool.PoolIsSound | os/linux/src/ioHdlcfmempool.c:46-123 | in every run free plus allocated is the total, no slot is free twice, a slot has references exactly when allocated, and reported transitions alternate; normal means more free than the low threshold and low water at most the high one, in every run with configurations in order, if and only if the pool has frames and its default thresholds are in order |
| FramePool.ConfigureIsSoundIff | os/linux/src/ioHdlcfmempool.c:183-222 | configuring any pool makes the hysteresis hold from there on, in every run, if and only if the new thresholds are in order |
| FramePool.OrderedIffSound | src/ioHdlcpool_common.c:71-114 | from any sound state the hysteresis holds in all of the future if and only if the thresholds are in order |
| FramePool.AddRefKeepsSlotsIff | os/linux/src/ioHdlcfmempool.c:118-123 | one more reference is sound if and only if fewer than 255 exist |
| FramePool.FrameMemPool.AddReference | os/linux/src/ioHdlcfmempool.c:118-123 | the new state: one more reference to an allocated slot, everything else as it was |
| FramePool.LevelChanges | src/ioHdlcpool_common.c:71-114 | only a take that leaves no more than the low threshold free ends the normal level, and only a last reference given back that leaves more than the high one restores it, each with one note; the counts and references after every take, release and further reference |
| FramePool.ConfiguredLevel | os/linux/src/ioHdlcfmempool.c:183-222 | below 2^32 / 100 frames the thresholds are the percentages rounded down, and the level is low exactly at or below the low one |
| FramePool.SlotsFillTheArena | include/ioHdlcfmempool_layout.h:37-87 | less than one alignment is lost in front of the slots and inside each, and one more slot would not fit |
| FramePool.ReleaseKeepsSlots | os/linux/src/ioHdlcfmempool.c:84-112 | a release keeps the slots sound, and the count of allocated slots never goes below zero |
| FramePool.InitInv | src/ioHdlcpool_common.c:43-52 | a fresh pool has sound slots; its level is right if and only if it has frames, and its thresholds are in order if and only if the default percentages come out so |
| FramePool.CrossedThresholdsBreak | src/ioHdlcpool_common.c:71-114 | from any state with crossed thresholds, a run of takes and releases that breaks the hysteresis |
| FramePool.FrameMemPool.TakeFrame | os/linux/src/ioHdlcfmempool.c:46-79 | the new state, the slot handed out with one reference, or none when the list is empty |
| FramePool.FrameMemPool.ReleaseFrame | os/linux/src/ioHdlcfmempool.c:84-112 | the new state, with the slot back on the list with its last reference |
| FramePool.FrameMemPool.constructor | os/linux/src/ioHdlcfmempool.c:147-177 | the list built by the loop holds every slot |
| FramePool.FrameMemPool.ConfigWatermark | os/linux/src/ioHdlcfmempool.c:183-222 | new thresholds and the level they give at once |

## Left out

- U-frames and multi-session claims across both ends: mode setting, DISC, TEST, UI and FRMR exchanges are not modelled; a session starts with zero sequence variables, empty queues and nothing in flight, and everything link-up leaves alone is arbitrary.
- ARM, selective reject and moduli above 128.
- Timer bookkeeping and delays: timers expire at any moment.
- Progress.ProgressIff: in NRM/TWA; progress in two-way simultaneous and in balanced mode is not stated. That a continuation exists is proved, not that a scheduler takes it; in it the line stops losing, the endpoint takes what it is offered and the pool returns to its normal level.
- Switching the primary to another peer inside the scheduler; the round robin itself is modelled.
- Station.Station.HandleCheckpointAndAck: the reply and T3 timers it starts and stops are not modelled.
- Station.Station.Receive: while rejecting, the repeated FRMR response to a poll is not modelled.
- Station.Station.HandleTimeoutRetry: the session ends with the link-down branch; its events, and the connected flag, are in `Stream`.
- Station.Station.ConnectedTx: one pass without interruption; the steps of other threads between its sections are the interleavings of `Session.Run`, and the wait for a frame's gate is not part of it.
- Station.Station: the C fields are kept in three record fields (transmit, receive, flags) that the methods reassign, and queues are sequences; the pointer structure of the queues is proved separately in `FrameQueue`.
- Session.ExactlyOnceInOrder: the channels lose frames but do not corrupt, duplicate or reorder them; corruption is the FCS theorems' subject.
- Framing.AcceptsEncoded: frame lengths are below 65536, the width of the length field.
- Receiver.StepKeepsInv: for pool frames below 65536 octets, the exact limit by `Receiver.LengthKeepsUpIff`.
- Receiver.WireRoundTrip: under transparency the encoded length is assumed to fit the frame buffer, which the configured information length does not guarantee.
- Fragment.FullFrameFitsIff: without transparency, where the buffer size is doubled after the information length was derived.
- Carriage.ArrivesIff: on a port that sends the contiguous image by its transmit length; a port that sends the segments of a plan is not cut at sixteen bits.
- Transfer.TransparencyOverflows: the octets the encoder then writes behind the frame, and what becomes of them.
- Transfer.RoundTrip: the write is not promised to arrive where its frames do not fit their buffers, or contain flags that nothing protects.
- Fragment.Reader.ReadV: one call with data at hand; waiting, terminal results and several connections in one call are not modelled.
- RxPath.RxDriver.RecvFrame: the wait for a frame and its timeout; an empty queue returns none at once.
- EndToEnd.Exchange: one write in one session with a safe configured length, whose channels lose frames whole or not at all; that its frames cross the wire is `EndToEnd.FrameCrossesTheWire`, and a frame that an unprotected flag cuts is outside it.
- Fragment.WriteV: the stream of one writer; flow control and link events are in `Stream`.
- TxPipeline.StartsInOrder: the port reports a frame it was given once, and the assertion that a queued frame is not refused by an idle port is not assumed: the code behind it is modelled.
- TxPipeline.TxDriver.SendPrepared: taking the gate, encoding and the acceptance of the frame are separate steps; what a sender does with an error is not modelled.
- FramePool.SlotsAreSound: sizes near the end of the address space, where the align-up sum wraps, are excluded; masking low bits is written as taking off the remainder, which is the same for powers of two.
- RetryBudget.BudgetIff: for a retry limit of at least one.
- The connected-peer counter, which a reset leaves behind, and the multi-station side effects of going down.
- Board ports, DMA, the operating system layer, logging, statistics and the shells.
