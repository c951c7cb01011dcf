# The AER receive path, modelled and proved

An event camera reports pixels row by row over a four-phase, delay-insensitive handshake: 12 DATA
lines carrying 1-of-4 coded words, one ACK line. Firmware polls the lines, queues raw words in a ring
buffer, decodes them, assembles `ROW COL* TAIL` bursts into (row, col) events and writes each as a
packet to USB; a Python program on the host reads the packets back. A host-side transmitter model
prints words as a waveform and a replay engine reads them back from it, optionally through fault
injectors. Every stage is modelled here as the source writes it (a class for each object updated in
place), each method is proved equal to a specification function, and the properties are proved of
those functions, their runs and their composition.

| file | what it models |
|---|---|
| `Words.dfy` | C integer ranges and bit operations, on naturals |
| `Codec.dfy` | 1-of-4 encoder and decoder, for any number of groups |
| `Burst.dfy`, `Loss.dfy` | burst assembler, its split-at-TAIL specification; lost words |
| `RingBuf.dfy`, `Spsc.dfy` | ring buffer called sequentially; the same with push and pop cut into single shared accesses |
| `HalTime.dfy` | wrapping microsecond deadlines |
| `RxPoll.dfy`, `PollRuns.dfy`, `PollReturns.dfy`, `Drops.dfy`, `Budget.dfy` | polling receiver; every run of it; when and how a call returns; what becomes of the latched words; how many calls a time budget allows |
| `MainLoop.dfy` | the firmware's main loop |
| `Framing.dfy`, `Joining.dfy` | packet writer and incremental reader; a reader that joins in mid-frame |
| `UsbStream.dfy`, `PrintEvents.dfy`, `Viewer.dfy` | event records; the printing tool; the viewer |
| `Link.dfy`, `Fairness.dfy`, `Skew.dfy` | transmitter and device interleaved; endless fair executions; exactly what a skewed bus can do |
| `EndToEnd.dfy`, `SkewCost.dfy` | from sensor bursts to the host's list of events; exactly when skew costs pixels |
| `Waveform.dfy`, `Replay.dfy` | transmitter model; replay and fault injectors |

How the pieces meet. `RxPoll.Poll` is one step of a receive call (one access to the bus, the ACK line
or the ring); the class `Receiver` runs exactly those steps, and `MainLoop.Firmware` runs exactly the
steps of `MainLoop.Next`. `Link` interleaves `MainLoop.Next` with a transmitter that may only follow the
four phases, and `Link.DeviceIsFirmware` says that the device in such a run is the `Firmware` in the
environment that shows it the transmitter's lines. The atomic bus (all lines of a word switch at once)
and the skewed bus (lines switch in any grouping and order) are two modes of the same system.

Where the code and its own documentation disagree the model follows the code, and a lemma says exactly
when the documented property holds (paths, `README.md` among them, are the repository's):

- Backpressure (`pico_aer_rx/aer_rx_poll.h:25-27`): a full ring does not hold back ACK, the word is dropped
  (`pico_aer_rx/aer_rx_poll.c:73-78`). No word is acknowledged without being stored exactly if the ring has
  room when the call begins (`Drops.AcknowledgedIsStoredIff`); `AER_RX_POLL_NO_SPACE` is never returned
  (part of `PollRuns.Accounting`).
- Order (`pico_aer_rx/aer_rx_poll.h:17-23`): the push comes before the wait for neutral. Only words of
  completed handshakes are stored exactly if there is no neutral timeout or nothing can be stored
  (`Drops.StoredIsCompletedIff`).
- Count (`pico_aer_rx/aer_rx_poll.h:80`): `aer_rx_poll_service` returns completed handshakes. That is the
  number of words pushed exactly if it makes no call, or there is no neutral timeout and room for all the
  words (`Drops.ServiceCountsStoredIff`).
- Once per word (`README.md:110`): after a neutral timeout the receiver does not wait for neutral
  (`README.md:186-189`) and can latch the word again. It latches at most once per word exactly if there is
  no neutral timeout, as in the firmware (`PollRuns.ExactlyOnceIffNoNeutralTimeout`).
- Delay insensitivity (`README.md:94-119`): the receiver latches as soon as any line is high. Whole words
  are delivered in every run exactly on an atomic bus, or if no word raises more than one line
  (`Skew.WholeWordsIff`), and all pixels exactly on an atomic bus, or if there is at most one burst and it
  has none (`SkewCost.AllPixelsIff`).
- Four phases of the generated waveform (`host/aer_tx_model.c:112-131`): kept exactly if ACK is low at the
  start or the first word is no change (`Waveform.WaveformShape`).
- `read_packet` never returns `None` (`scripts/print_events.py:59-62`): it blocks, exactly as long as no
  packet is whole (`Framing.BlocksIffNoPacket`).
- The viewer means to pull the packets that are available (`scripts/view_events.py:152-153`), but it asks for
  one only while bytes wait at the port (`scripts/view_events.py:161-164`), and each read hands out one. Two
  packets that arrive in one read show one (`Viewer.TwoPacketsOneRead`). All packets are shown exactly if
  after none of its reads more of them were still to come than reads (`Viewer.AllReturnedIff`), which end to
  end is a condition on byte counts (`EndToEnd.ViewerShowsAllIff`). The printing tool's reads go on timing
  out, so it shows them all.
- Any number of groups (`README.md:196-206`): the code keeps the payload in eight bits. Decoding and encoding
  undo each other, and some word is a tail, exactly for up to four groups (`Codec.NarrowRoundTripIff`,
  `Codec.NarrowTailIff`).

Lost words: a lost column costs its own event only. A lost row re-frames its burst, which is harmless
exactly if the burst has at most one column or its first column equals its row (`Loss.LostRowReframes`). A
lost tail merges two bursts, which is harmless exactly if the first is full, or the second has its row and
contains it suitably (`Loss.LostTailMerges`, `Loss.ExpendableIffFull`); the last tail costs its burst's
events only. Harmless means that what is shown is what the sensor reported with some pixels missing. A host
that opens the port in the middle of an event frame loses no later packet exactly if there is none or the
rest of the frame does not hold tick bytes that read "AERS" (`Joining.JoiningIsHarmlessIff`).

## Model

| member | source | states |
|---|---|---|
| EndToEnd.HostShowsExactlyThePixels | pico_aer_rx/pico_aer_rx.c:123-142 | for every list of in-range bursts, every interleaving of transmitter and main loop, every chunking of the USB bytes: once all is quiet and read, the host has exactly the sensor's (row, col) pairs, in order |
| EndToEnd.HostNeverShowsAnythingElse | README.md:122-130 | at every moment of every such run, and for any part of the bytes delivered so far, the host's list is a prefix of the sensor's pairs |
| EndToEnd.WireHoldsEvents | pico_aer_rx/pico_aer_rx.c:123-142 | on either bus the wire is one whole packet per event of the fed words, nothing is dropped, and the ring is empty at every peek |
| EndToEnd.HostShowsExactlyTheSurvivors | README.md:94-119 | on any bus, once all is quiet and read, the host has exactly the events of the sensor's words with the torn ones left out |
| EndToEnd.SkewOnlyLosesWords | README.md:94-119 | on any bus and at every moment the host shows a prefix of those events: words can be torn, never changed |
| EndToEnd.SkewOnlyTearsWords | pico_aer_rx/aer_rx_poll.c:56-68 | what the assembler makes of the words received is what it makes of the whole ones among them |
| EndToEnd.HostShowsAllOfFed | scripts/print_events.py:145-152 | all bytes read, in any chunks, and reads that go on timing out: the host has exactly the events of the words fed to the assembler |
| EndToEnd.ViewerShowsAllIff | scripts/view_events.py:152-171 | all bytes read: the viewer has shown the first events of the words fed, and all of them iff, counted in bytes, after none of its reads more packets were still to come than reads |
| EndToEnd.EventsOnGrid | scripts/view_events.py:169-171 | whatever words are fed, no event falls off the viewer's grid |
| EndToEnd.FairSchedulesDeliver | pico_aer_rx/pico_aer_rx.c:123-142 | every endless execution that gives each side its turn often enough ends with exactly the sensor's pixels on the host |
| SkewCost.AllPixelsIff | README.md:94-119 | every run that becomes quiet shows exactly the sensor's pixels iff the bus is atomic, or there is at most one burst and it has none |
| SkewCost.TornRun | pico_aer_rx/aer_rx_poll.c:56-68 | for every word of the sensor a skewed run that becomes quiet and shows what remains without that word |
| Skew.OutcomesAreParts | pico_aer_rx/aer_rx_poll.c:56-68 | what can have been latched once all is quiet is exactly: one non-empty part of each word, in every combination (on an atomic bus the words) |
| Skew.WholeWordsIff | README.md:94-119 | whole words are latched in every run iff the bus is atomic or every word has one line |
| Skew.Carried | pico_aer_rx/aer_rx_poll.c:56-68 | the run that realises any such combination |
| Fairness.FairRunsEndQuiet | README.md:94-103 | on either bus every fair endless execution reaches a quiet state, stays there, and has fed every word |
| Fairness.SomethingChanges | README.md:94-103 | until then it always changes something again |
| EndToEnd.EverythingCanBeDelivered | README.md:94-103 | from every reachable state a bounded number of moves completes delivery |
| Link.Reachable | pico_aer_rx/aer_rx_poll.c:45-103 | the phase-by-phase invariant between transmitter, receiver, ring, assembler and USB holds in every state of every run |
| Link.TransmitterKeeps | README.md:94-103 | every transmitter move, of any group of lines, keeps the invariant |
| Link.ReceiverKeeps | pico_aer_rx/pico_aer_rx.c:123-142 | every step of the main loop keeps it |
| Link.DeviceIsFirmware | pico_aer_rx/pico_aer_rx.c:123-142 | in every run the device's state is what the firmware's loop reaches in the environment that shows it the driven lines |
| Link.ExactlyOnce | README.md:105-111 | in every run on either bus, latched words match the first words sent one for one and in order (as whole words on an atomic bus, as non-empty parts on a skewed one), none dropped; all of them once quiet |
| Link.AckDiscipline | README.md:105-111 | ACK rises only when the word on the lines has been latched, falls only on neutral lines, and nothing is latched while it is high or twice |
| Link.SkewSafety | pico_aer_rx/aer_rx_poll.c:56-96 | a latched value that decodes is the whole word sent, and the events are those of the sent words without the torn ones |
| Link.SurvivorsFeedAlike | common/src/aer_burst.c:61-64 | the assembler cannot tell parts of words from the surviving whole ones |
| Link.EveryMoveDescends | pico_aer_rx/aer_rx_poll.c:45-103 | every step that is not a spin lowers a measure that stays non-negative |
| Link.MovesAreBounded | pico_aer_rx/aer_rx_poll.c:45-103 | however scheduled, a run has at most that many steps that are not spins |
| Link.NeverStuck | README.md:94-103 | no deadlock: until all is quiet some enabled step changes something, however far the next word is to be raised first |
| Link.FollowPlan | README.md:94-103 | from every state on a plan of parts to be latched, the plan can be carried out to the end |
| Link.CanFinish | README.md:94-103 | from every reachable state all words can be delivered |
| MainLoop.Firmware.constructor | pico_aer_rx/pico_aer_rx.c:107-121 | the firmware as `main` sets it up is the initial state of the model: ring of 2048 slots, both timeouts off |
| MainLoop.Firmware.Turn | pico_aer_rx/pico_aer_rx.c:123-142 | one turn is exactly the steps from one peek to the next; on a neutral peek it makes one reading and changes nothing else; otherwise it completes one handshake, latching the first non-zero reading after the peek, drops ACK, and feeds the whole ring, that word included unless the ring was full, in order, leaving it empty |
| MainLoop.TurnIs | pico_aer_rx/pico_aer_rx.c:123-142 | that effect follows from being the first return to the peek, for every environment |
| MainLoop.Firmware.Receive | pico_aer_rx/pico_aer_rx.c:133-134 | exactly one receive call, as model steps |
| MainLoop.Firmware.DrainRing | pico_aer_rx/pico_aer_rx.c:136-141 | the drain loop pops until empty, as model steps |
| MainLoop.Firmware.PopAndFeed | pico_aer_rx/pico_aer_rx.c:138-141 | one pop, decode and feed is one model step |
| MainLoop.CallIsRun | pico_aer_rx/pico_aer_rx.c:133-134 | while a call runs, the loop's steps are the receiver's |
| RxPoll.Receiver.constructor | pico_aer_rx/aer_rx_poll.c:12-28 | counters zero, ACK low, the model's initial state on a ring that may already hold words |
| RxPoll.Receiver.Step | pico_aer_rx/aer_rx_poll.c:45-103 | on every bus and clock for which the call returns: ring, ACK, reads made, all four statistics (wrapped) and the status are those of the step model |
| RxPoll.Receiver.AwaitValid | pico_aer_rx/aer_rx_poll.c:50-66 | the first wait ends with the first non-zero reading or, timed, with the timeout |
| RxPoll.Receiver.Complete | pico_aer_rx/aer_rx_poll.c:68-102 | from the latched word to the end of the call |
| RxPoll.Receiver.Deposit | pico_aer_rx/aer_rx_poll.c:73-78 | pushed if there is room, counted as dropped if not |
| RxPoll.Receiver.AwaitNeutral | pico_aer_rx/aer_rx_poll.c:80-96 | the second wait ends with a zero reading or, timed, with the timeout |
| RxPoll.Receiver.Finish | pico_aer_rx/aer_rx_poll.c:89-102 | ACK dropped either way, the handshake counted only if completed |
| RxPoll.Receiver.Service | pico_aer_rx/aer_rx_poll.c:105-130 | the calls made under word limit and time budget, as `Budget.ServiceEnds` determines them; the result is exactly the rise in completed handshakes |
| Budget.ServiceEnds | pico_aer_rx/aer_rx_poll.c:109-129 | in every environment and in terms of clock readings: the loop makes k calls that return OK, none begun past the budget, and then ends at the limit, at a reading past the budget with nothing done after it, or with a call that is not OK |
| Budget.BudgetEndsService | pico_aer_rx/aer_rx_poll.c:115-117 | if the reading before call k is past the budget, at most k handshakes complete and nothing is read after it |
| Budget.ServiceGoesOn | pico_aer_rx/aer_rx_poll.c:114-127 | conversely it completes fewer than the limit only after such a reading or a call that timed out |
| Budget.PastIff | pico_aer_rx/hal/hal_time.c:60-64 | past the budget means that much true time has gone by, up to 2^63 microseconds beyond, across wrap-around |
| RxPoll.CallCountsHandshake | pico_aer_rx/aer_rx_poll.c:98-102 | a call completes one handshake if it returns OK and none otherwise |
| Drops.CallOutcome | pico_aer_rx/aer_rx_poll.c:45-103 | every call that returns: nothing changed, or one word latched, acknowledged, and stored unless the ring was full when the call began |
| Drops.AcknowledgedIsStoredIff | pico_aer_rx/aer_rx_poll.h:25-28 | no word is acknowledged without being stored, in every environment, iff the ring has room |
| Drops.StoredIsCompletedIff | pico_aer_rx/aer_rx_poll.h:17-23 | a word is stored only if its handshake completes, in every environment, iff there is no neutral timeout or the ring is full |
| Drops.ServiceCountsStoredIff | pico_aer_rx/aer_rx_poll.h:76-82 | the service result is the number of words pushed, in every environment, iff no call is to be made, or there is no neutral timeout and room for all the words |
| Drops.PromptService | pico_aer_rx/aer_rx_poll.c:105-130 | with a word ready at every call all handshakes complete and the ring takes what it has room for |
| Drops.HeldCall | pico_aer_rx/aer_rx_poll.c:85-96 | a word held past the neutral timeout ends the call with a timeout |
| PollRuns.Accounting | pico_aer_rx/aer_rx_poll.c:45-103 | over every sequence of bus readings, clock readings and pops, on any ring: latched = pushed + dropped (+1 in flight), pushed + dropped = `words_ok` + `timeouts_neutral` (+1 in flight), calls = `words_ok` + both timeouts (+1 in progress), ring and popped together are what the ring held and the pushed words in order, ACK is high exactly from after a latch to the end of the call |
| PollRuns.ExactlyOnceIffNoNeutralTimeout | pico_aer_rx/aer_rx_poll.c:80-96 | in every run at most one latch per excursion of the bus from neutral, if and only if the neutral timeout is 0 |
| PollRuns.TimedOutWordIsLatchedAgain | pico_aer_rx/aer_rx_poll.c:89-94 | for every non-zero neutral timeout, a run that latches one held word twice |
| PollReturns.ReturnsIffTimedOutOrOffered | pico_aer_rx/aer_rx_poll.c:50-96 | without a neutral timeout, on any bus and clock, a call returns iff its first wait times out or the bus will be read non-zero and later zero |
| PollReturns.ReturnsIffHandshakeOffered | pico_aer_rx/aer_rx_poll.c:56-96 | without timeouts a call returns iff the bus will be read non-zero and later zero |
| PollReturns.ReturnsIffValidRead | pico_aer_rx/aer_rx_poll.c:56-96 | with a neutral timeout only, and a clock that goes on, a call returns iff the bus will be read non-zero |
| PollReturns.TimeoutsEndEveryCall | README.md:113-118 | with both timeouts, and a clock that never goes back and does not stand still for ever, every call returns, on every bus behaviour, across clock wrap-around |
| PollReturns.NoWordInTime | pico_aer_rx/aer_rx_poll.c:57-66 | a call times out waiting for a word if a clock reading past the deadline comes before the first non-zero reading |
| PollReturns.WordInTime | pico_aer_rx/aer_rx_poll.c:57-83 | otherwise it latches exactly the first non-zero reading, and its second deadline starts at the next clock reading |
| PollReturns.WordEnds | pico_aer_rx/aer_rx_poll.c:85-102 | and then completes if a zero reading comes first, or times out if a clock reading past the second deadline does |
| PollReturns.ValidWaitEnds | pico_aer_rx/aer_rx_poll.c:56-66 | the first wait, timed, ends |
| PollReturns.NeutralWaitEnds | pico_aer_rx/aer_rx_poll.c:85-96 | the second wait, timed, ends |
| HalTime.ExpiredIffTimeoutPassed | pico_aer_rx/hal/hal_time.c:60-64 | under 64-bit wrap-around a deadline reads as expired iff the timeout has passed, for all elapsed times up to timeout + 2^63, and exactly which later ones |
| HalTime.ExpiryForgetsEventually | pico_aer_rx/hal/hal_time.c:60-64 | one microsecond beyond that range the comparison is wrong |
| RingBuf.RingBuf.Init | common/src/ringbuf.c:12-27 | refused for no storage or fewer than two slots, else an empty queue |
| RingBuf.RingBuf.Clear | common/src/ringbuf.c:29-34 | an empty queue |
| RingBuf.RingBuf.IsEmpty | common/src/ringbuf.c:36-40 | true exactly when the queue is empty |
| RingBuf.RingBuf.IsFull | common/src/ringbuf.c:42-47 | true exactly when it holds capacity - 1 items |
| RingBuf.RingBuf.Count | common/src/ringbuf.c:49-59 | the length of the queue, wrapped or not |
| RingBuf.RingBuf.Free | common/src/ringbuf.c:61-66 | how many pushes will still succeed |
| RingBuf.RingBuf.Push | common/src/ringbuf.c:68-84 | appends, or fails exactly when full and then changes nothing |
| RingBuf.RingBuf.Pop | common/src/ringbuf.c:86-100 | removes the oldest item, or fails exactly when empty |
| RingBuf.RingBuf.Peek | common/src/ringbuf.c:102-113 | the oldest item, if any |
| Spsc.Reachable | common/src/ringbuf.c:68-100 | the invariant of producer and consumer mid-operation, over every interleaving of single accesses |
| Spsc.PoppedIsPrefixOfPushed | common/include/ringbuf.h:7-8 | pushed = popped followed by what the buffer stores, at every moment of every interleaving |
| Spsc.NoSlotRace | common/src/ringbuf.c:79-82 | the slot being written is never one the consumer reads or has yet to read |
| Spsc.NoPushFailsAfterRoomSeen | pico_aer_rx/aer_rx_poll.c:74-78 | after `is_full` was seen false the next push cannot fail, whatever the consumer does between |
| Spsc.PopOperation | common/src/ringbuf.c:86-100 | a whole pop, whatever the producer does between its accesses: it returns empty iff nothing was stored when it read `head`, and otherwise takes exactly the oldest item stored then |
| Spsc.PeekOperation | common/src/ringbuf.c:102-113 | a whole peek likewise reads the oldest item, or returns empty iff nothing was stored |
| Spsc.PushOperation | common/src/ringbuf.c:68-84 | a whole push, whatever the consumer does: it fails iff capacity - 1 items were stored when it read `tail`, and otherwise publishes its item last |
| Spsc.IsFullOperation | common/src/ringbuf.c:42-47 | `is_full` answers no iff there was room when it read `tail` |
| Spsc.ProducerCount | common/src/ringbuf.c:49-59 | a whole count by the producer gives what is stored at its second reading |
| Spsc.ConsumerCount | common/src/ringbuf.c:49-59 | a whole count by the consumer gives what was stored at its first reading |
| Spsc.CountReadings | common/src/ringbuf.c:49-59 | the producer's count is exact when read; the consumer's is never too high, and too low by exactly the pushes between its two reads |
| Codec.PopCount4 | common/src/aer_codec.c:14-20 | the SWAR trick counts the high lines |
| Codec.Ctz4 | common/src/aer_codec.c:25-31 | the index of the one high line |
| Codec.DecodeWord | common/src/aer_codec.c:35-101 | the decoder gives the per-group meaning of the word, its payload cut to eight bits: payload, tail, and every error flag, for any number of groups; up to four, nothing is cut |
| Codec.DecodeGroups | common/src/aer_codec.c:56-79 | its loop, with the invalid groups contributing nothing |
| Codec.EncodePayload | common/src/aer_codec.c:115-139 | accepted exactly when the payload fits; then the per-group encoding, else 0 and OUT_OF_RANGE |
| Codec.EncodeGroups | common/src/aer_codec.c:131-135 | its loop |
| Codec.EncodedGroup | README.md:57-72 | group g of an encoded word has high exactly the line that symbol g of the payload names |
| Codec.FlagsMean | common/src/aer_codec.c:43-98 | each error flag is set exactly for its cause, said of the lines: bits above the bus, all low, some group all low, some group with more than one high, pad bits of an accepted non-tail word |
| Codec.EncodeThenDecode | README.md:196-206 | for any number of groups, decoding an encoded payload gives it back, without errors |
| Codec.DecodeThenEncode | README.md:196-206 | for any number of groups, encoding the whole payload of an accepted word gives its lines back |
| Codec.NarrowRoundTripIff | common/src/aer_codec.c:81-81 | with the eight bits of the code it does for every accepted word iff there are at most four groups |
| Codec.NarrowTailIff | common/src/aer_codec.c:83-86 | some word is read as a tail iff there are at most four groups |
| Codec.AcceptedIffEveryGroupOneHot | README.md:74-74 | a word is accepted iff every group has exactly one high line |
| Codec.NoValidWordInsideAnother | README.md:76-82 | no valid word is a proper sub-mask of another |
| Codec.Distance | README.md:63-72 | words of two payloads differ in exactly two lines per differing symbol |
| Codec.OddFlipIsRejected | README.md:84-90 | flipping an odd number of lines of a valid word is always rejected |
| Codec.PartThatDecodesIsWhole | README.md:76-90 | part of a valid word decodes only if it is the whole word |
| Codec.WordOfDecodes | README.md:151-162 | every 6-bit payload travels as a non-neutral 12-line word and comes back; only 63 is the tail |
| Codec.DecodeRawBound | README.md:151-162 | payloads stay below 64, and tail means accepted and 63 |
| Burst.Assembler.constructor | common/src/aer_burst.c:10-19 | the initial state |
| Burst.Assembler.Clear | common/src/aer_burst.c:21-33 | state and flags reset, counters kept unless asked |
| Burst.Assembler.EmitAndClear | common/src/aer_burst.c:36-52 | every buffered column handed to the callback, in order, counted (wrapping), and cleared |
| Burst.Assembler.Feed | common/src/aer_burst.c:54-113 | new state, callbacks made and result are those of the step function, with or without callback |
| Burst.AssemblesBursts | common/src/aer_burst.c:54-113 | over every stream since a reset: the events are those of the bursts between tails, each cut to 32 columns; COL_OVERFLOW and TAIL_WITHOUT_ROW are set exactly when their cause occurred, the range warnings never |
| Burst.SplitIsExact | README.md:122-130 | splitting at tails loses nothing: the bursts, their tails and the open burst are the stream |
| Burst.SplitUndoesUnsplit | README.md:122-130 | and finds again the bursts a stream was made of |
| Burst.Conservation | common/src/aer_burst.c:36-112 | accepted non-tail words = bursts completed + open burst + events + buffered + dropped columns; callbacks = `events_emitted` <= 32 * `bursts_completed` |
| Burst.CountersAreCumulative | common/src/aer_burst.c:21-52 | over every stream the counters go on from zero after a clearing reset and from where they were after the other, and count bursts ended by a tail and events |
| Burst.IndexIsLowBits | common/src/aer_burst.c:3-8 | an index is what the mask of five ones leaves |
| Burst.PadBitIsIgnored | common/src/aer_burst.c:3-8 | a word with its pad bit set, the tail apart, is flagged and taken for the index below |
| Burst.OneTailResynchronises | common/src/aer_burst.c:66-98 | from any two states, after one common tail both emit the same events for ever |
| Burst.SensorWordsAssemble | README.md:210-217 | the words of any in-range bursts assemble into exactly their pixels |
| Burst.WireWordsAssemble | common/src/aer_burst.c:54-113 | whatever bursts are on the wire, empty, over-long or left open, exactly the events of the closed ones come out |
| Burst.SensorWordsRange | README.md:132-147 | all those words are valid and non-neutral |
| Loss.LostColumnsOnlyLoseEvents | common/src/aer_burst.c:100-103 | with any column words lost, the events are the sensor's with some left out, in order |
| Loss.LostColumn | common/src/aer_burst.c:100-103 | one lost column word, of any burst in any list: what is shown, its own event missing and nothing else |
| Loss.LostRowReframes | common/src/aer_burst.c:87-98 | a lost row word, of any burst in any list: what is shown, and that it is among what the sensor reported iff the burst has at most one column or its first column equals its row |
| Loss.LostTailMerges | common/src/aer_burst.c:66-82 | a lost tail word, of any burst in any list: two bursts merged and cut to 32 columns (or the last left open), and exactly when that is harmless |
| Loss.ExpendableIffFull | common/src/aer_burst.c:100-110 | for columns reported once each: iff the burst is full, or one short of full before a burst of the same row that has this row as a column |
| Framing.HalStream.Write | pico_aer_rx/hal/hal_stdio.c:87-110 | header and payload in one write each, on a port that may be closed at any question and take any number of bytes; after a failure nothing more |
| Framing.HalStream.WriteBytesLocked | pico_aer_rx/hal/hal_stdio.c:80-85 | nothing on a closed port, else as many bytes as are taken, and whether that is all |
| Framing.WritesPartOfFrame | pico_aer_rx/hal/hal_stdio.c:87-110 | whatever the port does, the wire gains the beginning of the frame, and success is reported iff it gains all of it |
| Framing.FramedStreamReader.ReadPacket | scripts/print_events.py:58-92 | the packet returned, the buffer left and the reads consumed are those of the turn-by-turn specification; it stops at the first packet, and comes back without one only when reads run out |
| Framing.FramedStreamReader.TakePacket | scripts/print_events.py:66-92 | one turn on the buffer: the packet taken, if one is whole, and what is kept |
| Framing.TryLosesNothing | scripts/print_events.py:66-92 | one turn of the reader, whatever bytes come later, takes and keeps exactly what there was to read; three kept bytes are enough |
| Framing.ChunkingIndependent | scripts/print_events.py:50-92 | for any bytes and any split, empty reads included: yielded packets, then the parse of the buffer, are the one-shot parse of all bytes |
| Framing.IdleReaderDrains | scripts/print_events.py:63-92 | timed-out reads bring out every whole packet still buffered |
| Framing.HeldIsBounded | scripts/print_events.py:66-88 | after a turn without a packet at most three bytes are kept, or the beginning of one packet |
| Framing.EveryChunkingYieldsTheParse | scripts/print_events.py:58-92 | so every split ends with exactly the one-shot parse |
| Framing.BlocksIffNoPacket | scripts/print_events.py:58-65 | after any reads, no packet has been returned iff none is whole in the bytes read |
| Framing.ParseGrows | scripts/print_events.py:66-92 | more bytes never change the packets already complete |
| Framing.GarbageThenFrame | pico_aer_rx/hal/hal_stdio.c:18-26 | magic-free garbage before a frame is skipped and the frame is found, even if the garbage ends like the magic begins |
| Framing.ParseFrames | pico_aer_rx/hal/hal_stdio.c:87-110 | written frames are read back exactly, even if payloads contain the magic |
| Joining.TailIsMagicFreeIff | pico_aer_rx/hal/hal_stdio.c:18-26 | the rest of an event frame cut anywhere is free of magic iff its tick bytes are cut too or do not read like it |
| Joining.JoiningIsHarmlessIff | pico_aer_rx/hal/hal_stdio.c:25-25 | a reader that joins there gets exactly the later packets iff there are none or that rest is free of magic |
| Viewer.Viewer.constructor | scripts/view_events.py:132-136 | nothing read, nothing shown, no pixel lit |
| Viewer.Viewer.Pump | scripts/view_events.py:152-171 | what is shown are the pixels of the packets the reader has returned for all reads made, each with the time it was shown last; a read that gave nothing was made only with no whole packet in the buffer; every turn but the last found the slice not over and bytes waiting, and read; and it stops only when the slice is over, nothing waits, or the reader blocks |
| Viewer.Viewer.TakeTurn | scripts/view_events.py:164-171 | one packet taken and shown, with at least one read |
| Viewer.Viewer.ShowPacket | scripts/view_events.py:168-171 | every event of a packet on the grid sets its pixel to the time read after the packet |
| Viewer.AllReturnedIff | scripts/view_events.py:161-166 | of any bytes in any reads, the first packets are returned, and all of them iff after none of the reads more were still to come than reads |
| Viewer.TwoPacketsOneRead | scripts/view_events.py:161-166 | of two packets in one read, any two, the second stays in the buffer |
| Viewer.WholeFramesAfter | pico_aer_rx/hal/hal_stdio.c:87-110 | of frames of one size behind garbage, cut anywhere, as many are whole as the bytes hold |
| UsbStream.UsbStream.SendEvent | pico_aer_rx/usb_stream.c:67-95 | one packet with one record of the configured kind, counted if all of it is written, or a counted drop when not connected |
| UsbStream.EventSink.OnEvent | pico_aer_rx/aer_event_sink.c:41-56 | one event logged, counted, and sent if the sink is enabled, the outcome counted |
| UsbStream.SinkCounts | pico_aer_rx/aer_event_sink.c:41-56 | over any events and whatever the port does, emitted counts them all and sent + failed as many (modulo 2^32) |
| UsbStream.DisabledSinkSendsNothing | pico_aer_rx/aer_event_sink.c:46-51 | a disabled sink leaves the stream alone and counts every event as failed |
| UsbStream.ClosedPortDrops | pico_aer_rx/usb_stream.c:69-72 | on a port that stays closed nothing is written and every event counts as dropped |
| UsbStream.ReliablePortSends | pico_aer_rx/usb_stream.c:93-94 | on a port that takes every write every event counts as sent |
| UsbStream.BytesOnTheWire | pico_aer_rx/usb_stream.c:25-40 | the bytes of either kind of event packet, header included |
| UsbStream.SendWrites | pico_aer_rx/usb_stream.c:67-95 | one event with any flags adds exactly those bytes |
| UsbStream.OtherPacketsShowNothing | scripts/view_events.py:165-166 | packets of other types show nothing, wherever they are |
| UsbStream.ExtractOnEvents | scripts/view_events.py:83-110 | the ON events of the records up to the first cut short or unknown |
| UsbStream.RecordsRoundTrip | scripts/view_events.py:83-110 | records of both kinds packed in any order are read back exactly, and a bad tail loses nothing before it |
| PrintEvents.DecodeAndPrintEvents | scripts/print_events.py:95-123 | the text of the lines printed for any payload, ticks and the closing warning with its payload length included |
| PrintEvents.TextTellsLine | scripts/print_events.py:109-122 | kind and numbers of a line can be read back from its text |
| PrintEvents.OneEventText | scripts/print_events.py:103-119 | the very text for one event: ON or not, with ticks sent or not, wanted or not |
| PrintEvents.BadRecordText | scripts/print_events.py:104-123 | a record cut short prints nothing, one of unknown type its warning |
| PrintEvents.TwoDigitsIs | scripts/print_events.py:109-119 | numbers are padded to two digits with a zero |
| PrintEvents.RecordsPrintBack | scripts/print_events.py:95-123 | records as the firmware packs them print back one line per ON record, with the very cycle-counter value written |
| PrintEvents.ToolsAgree | scripts/view_events.py:83-110 | printing tool and viewer show the same events for every payload, malformed ones included |
| UsbStream.DeliveryWritesPackets | pico_aer_rx/usb_stream.c:67-95 | on a port that stays open and takes every write, every delivered event is one whole packet, in order, and none fails |
| UsbStream.PacketsReadBack | scripts/view_events.py:83-110 | the host gets exactly the delivered events from those packets, timestamps or not |
| Waveform.Vector.Reserve | host/aer_tx_model.c:25-43 | room for the request iff there was enough or the reallocation succeeds; contents unchanged either way |
| Waveform.Vector.PushTransition | host/aer_tx_model.c:46-70 | appended exactly if something changes, refused exactly if time goes back or memory fails |
| Waveform.TxModel.constructor | host/aer_tx_model.c:85-107 | the initial levels pushed onto a waveform that may already hold samples |
| Waveform.BeginOnEmpty | host/aer_tx_model.c:103-106 | on an empty one that is the start all theorems on generated waveforms begin from |
| Waveform.BeginOnOthers | host/aer_tx_model.c:98-106 | on others it is one more sample, unless it is no change or its time goes back |
| Waveform.LevelsAreLast | host/aer_tx_model.c:109-136 | wherever a transaction stops, the current levels are those of the last sample, and time moves only when it is whole |
| Waveform.TxModel.EmitWord | host/aer_tx_model.c:109-136 | one transaction with 64-bit wrapping times, stopping where a push fails for time or memory |
| Waveform.TxModel.EmitWords | host/aer_tx_model.c:138-149 | all of them; on failure the words before are whole and the next one stops at a known push |
| Waveform.CutShort | host/aer_tx_model.c:138-149 | a waveform cut short for want of memory is the beginning of the whole one |
| Waveform.EmitFromLow | host/aer_tx_model.c:109-136 | a transaction succeeds iff the clock does not overflow, and what it then appends |
| Waveform.EmitFromHigh | host/aer_tx_model.c:112-131 | the same with ACK high at the start: no ACK rise |
| Waveform.EmitAllFromLow | host/aer_tx_model.c:138-149 | the ACK rises of a generated waveform carry exactly the words, word i at t0 + i * period + rise delay |
| Waveform.RisesOfGenerated | host/aer_tx_model.c:85-149 | for all words and all settings, either ACK level at the start: generation succeeds iff the clock does not overflow, and where every word is latched |
| Waveform.RoundTrip | host/aer_tx_model.c:85-149 | so reading at ACK rises gives the words back, less the first if ACK starts high |
| Waveform.GeneratedShape | host/aer_tx_model.c:45-70 | from a state with ACK low, generating more neither makes nor mends a defect of the waveform |
| Waveform.WaveformShape | host/aer_tx_model.c:109-136 | every generated waveform is in time order and changes exactly one of DATA and ACK at a time; it follows the four phases iff ACK is low at the start or the first word is no change |
| Replay.Replayer.ApplyFault | host/aer_rx_replay.c:272-327 | the effect of each injector, or of one a user writes, on a sample, its own state and the static kept by the third, as the next four rows determine it |
| Replay.FlipIsByLine | host/aer_rx_replay.c:278-280 | a glitch changes exactly the lines in its mask, and twice changes nothing |
| Replay.GlitchAt | host/aer_rx_replay.c:272-282 | it does so to every sample in the window, ends included, and to nothing else |
| Replay.DropNeutralAt | host/aer_rx_replay.c:309-327 | missing neutral shows at every sample the last DATA that was not neutral; switched off it changes nothing |
| Replay.UserAt | host/aer_rx_replay.c:107-118 | a user's injector sets the levels of every sample up to its first refusal, which ends the run |
| Replay.Replayer.Run | host/aer_rx_replay.c:85-165 | for every waveform, setting and injector, aborting ones included: the assembler is reset with its counters kept and fed the words at ACK rises up to the abort; statistics are reported iff there is none, and are the true counts, wrapped; `ignore_invalid_words` makes no difference |
| Replay.Replayer.LatchWord | host/aer_rx_replay.c:127-150 | one latched word decoded, counted and fed |
| Replay.CountsMean | host/aer_rx_replay.c:135-144 | `codec_ok` counts the accepted words and `codec_neutral` those without any line of the bus |
| Replay.LatchesWhatWasEmitted | host/aer_rx_replay.c:107-156 | for either ACK level at the start, replay latches the words emitted that have an ACK rise |
| Replay.DelayInsensitive | host/aer_rx_replay.c:107-156 | two generated waveforms of the same words are latched alike, whatever the delays and start times, iff nothing is latched at all or ACK starts at the same level |
| Replay.RejectedWordsDoNotMatter | host/aer_rx_replay.c:147-149 | leaving invalid words out changes neither events nor state |
| Replay.RepeatsDoNotMatter | host/aer_tx_model.c:50-55 | dropping repeated samples of any time-ordered waveform does not change what is latched |
| Replay.GlitchDeletesTheWordsItHits | host/aer_rx_replay.c:272-282 | on valid words, flipping any odd set of lines in any time window does to the assembler exactly what deleting the words latched in it does |
| Replay.HitIsAcceptedIff | host/aer_rx_replay.c:272-282 | for any mask, a hit valid word is still accepted iff the mask is on the 12 lines its difference from a valid word, and then reads as that word |
| Replay.GlitchReplacesTheWordsItHits | host/aer_rx_replay.c:272-282 | for any mask, replay does what the assembler does with hit words replaced by what they read as, or deleted |
| Codec.FlipIsAcceptedIff | README.md:84-90 | the same of the code, for any number of groups |
| Replay.GlitchOnGenerated | host/aer_rx_replay.c:272-282 | the same on every generated waveform, where the deleted words are those whose latch time lies in the window |
| Replay.StuckAckEndsLatching | host/aer_rx_replay.c:290-300 | on any time-ordered waveform, ACK stuck from t on keeps the latches before t and adds none if low, at most one if high, and which |
| Replay.MissingNeutralIsHarmless | host/aer_rx_replay.c:309-327 | replacing neutral changes what is latched iff a neutral word is latched after a non-neutral sample; so not at all if no latched word is neutral |

## Left out

- Words: bit masks and shifts are remainders, products and quotients by powers of two, so that the codec holds for any number of groups.
- RxPoll.Receiver.Step: specified for calls that return; `PollReturns` says when they do. NULL arguments, on which initialisation hangs, are not modelled, nor is `aer_rx_poll_reset`.
- PollRuns.Accounting: full-check, push and deadline are one step of a call here; `Spsc` cuts the push into its single accesses.
- MainLoop.Firmware.Turn: specified for turns that end; `tud_task` and the wait for the host to open the port are not modelled.
- RingBuf: NULL arguments are modelled for `Init` only.
- Spsc.PoppedIsPrefixOfPushed: sequential consistency is assumed; `volatile` gives no order between cores.
- EndToEnd.HostShowsExactlyThePixels: the port is open throughout and takes every write; what the host makes of a frame cut short by a failing write is not stated, only what is on the wire then.
- Framing.FramedStreamReader.ReadPacket: blocking is a finite list of reads; no packet means still blocked when it runs out.
- Viewer.Viewer.Pump: drawing and fading are left out.
- Framing.HalStream.Write: interrupt locking and the log channel are not modelled.
- UsbStream.UsbStream.SendEvent: the n-th reading of the cycle counter is given by an arbitrary function.
- UsbStream.ExtractOnEvents: the generator is a list.
- Loss.LostTailMerges: for bursts that report a column twice, the condition of the last case is on the column lists (one is a subsequence of the other); `Loss.ExpendableIffFull` gives it outright for columns reported once.
- Link.ExactlyOnce: the transmitter sends non-neutral words; one that sends neutral as a word would never be seen by the receiver.
- Link.TransmitterKeeps: a line that has not risen when its word is withdrawn never rises. A late rise would be one more excursion of the bus from neutral, which the receiver latches as another word (`PollRuns.ExactlyOnceIffNoNeutralTimeout` counts per excursion).
- GPIO registers, pin setup and polarity: DATA is a number read at once, ACK a boolean.
- `aer_waveform_load_file`: its meaning is that of `sscanf` and `strtoul`.
- `hal_stream_marker`, `hal_stream_write_event_u16`, cycle and microsecond conversions: not on this path.
- pygame drawing, serial port discovery and arguments of the scripts: user interface.
- RESET: `main` only holds the pin low, so there is no behaviour to model.
