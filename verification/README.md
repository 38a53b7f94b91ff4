# A verified model of the dtmc_base message path

This Dafny project models the parts of the dtmc_base library whose correctness is hard to see from one function alone,
and proves what they promise over every input and every run. Code that works in place is modelled in place (classes,
arrays, loops) and proved to compute a specification function; the promises are then proved of the specification. What is
said of threads holds in every interleaving, for a manifold with its semaphore. The netportal's private manifold has none
(`dtnetportal_iox.c:218-220`), so what is proved from publish to callback holds for callers that do not meet at its
tables, and the schedules that break it otherwise are given.

| files | what they model |
|---|---|
| `FramerSpec`, `FramerTheorems`, `Framer` | `dtframer_simple`: topic and payload to a byte stream and back, with a five-phase incremental decoder |
| `FramerTears`, `PortalTears`, `PortalForgery` | what a receiver makes of a frame that its sender's device left unfinished, of one decoder and of whole runs |
| `ManifoldSpec`, `ManifoldTheorems`, `Manifold`, `Slots` | `dtmanifold`: fixed slot tables for subjects and recipients, publish with a snapshot and one copy per recipient |
| `ManifoldThreads`, `ManifoldCalls`, `ManifoldRaces` | any number of threads calling one manifold, step by step, with and without its semaphore |
| `Portal`, `PortalSystem`, `PortalDelivery` | `dtnetportal_iox`: the partial-write loop and the drain loop over a byte device, and the whole path from publish to a recipient's callback as a state machine |
| `PortalRuns`, `PortalThreads`, `PortalExecutions` | why the loops of `dtnetportal_iox`, and the calls of several threads on its manifold, are runs of that state machine |
| `Debouncer`, `Interval`, `Clock` | `dtdebouncer` and `dtinterval_scheduled` over real time, of which the code sees 32 bits |
| `Records`, `AdcSpec`, `AdcScanList` | `dtadc_scan` and `dtadc_scanlist`: one allocation cut into slices, a nested packer with bounds |
| `ProfileSpec`, `NetProfile` | `dtnetprofile`: newline-separated lists, a bounded printer and a packer |
| `BusyworkSpec`, `BusyworkTheorems`, `Busywork` | `dtbusywork`: workers triggered by a counting semaphore and told to stop |
| `Bytes` | octets, C strings, slices and what a write leaves alone |

## How it is modelled

- **Callbacks** are functions from the number of the invocation to an answer (and, in the manifold, to the calls that the
  callback makes itself), so a statement about all such functions covers every behaviour of the application.
- **The device** follows the contract in `dtiox.h`: it takes some beginning of what it is offered, loses and reorders
  nothing, and gives back any chunk of at most 128 bytes. Its answers are a script of any length.
- **Threads** take one step at a time (one read or write of the tables, one wait, one post, one callback), in the order of
  an arbitrary schedule.
- **A wait for a token** takes one if there is one and otherwise times out, or, for the manifold's semaphore, waits or
  fails as the schedule says.
- **Time** is real and unbounded; the code's clock is its value modulo 2^32. Sleeps last at least what was asked.
- **dtpackx** is an abstract codec of which only this is known: an integer takes 4 or 8 bytes and comes back as it went
  in, a string is its bytes and a NUL. `dtstr_concat_format` with a separator starts a NULL list and appends to any other.

## What the proofs found

- The topic of a frame with an empty topic is lost: the receiver is shown the topic of an earlier frame
  (`EmptyTopicIsLost`; exactly when, `RoundTrip`). A topic or payload of 64 KiB or more is cut (`LongMessageIsCut`).
- A write that fails leaves part of a frame on the wire. What was published before arrives all the same
  (`FannedOutIsPrefixOfPublished`). If only the first byte was written, nothing else suffers
  (`ShortTearsLoseOnlyTheirOwn`). Two to six bytes make one header with the beginning of the next frame, and end the
  receiver unless it happens to be acceptable (`TornHeaderIsFatalIff`); two bytes always do, under any version but A5
  (`TwoTornBytesAreFatal`). A part that ends behind its header takes the beginning of the next frame for its own
  (`TornFrameIsFilled`): subscribers can be handed a message that nobody published, while the one that was is lost
  (`ForgedMessage`).
- `dtframer_simple.h` says at the version field that with 0 "decoding accepts any version". The code replaces 0 by 1 in
  `configure`, so a configured framer accepts version 1 only; the model follows the code.
- Subscribing to the empty name fills a slot that stays free, and the next subject inherits the recipient
  (`EmptyNameBreaksTable`, `EmptyNameIsInherited`).
- Without an attached semaphore two subscribes that both report success can leave one of them unsubscribed
  (`SubscriptionIsLost`). Nobody attaches one to the netportal's private manifold, while `dtnetportal_iox_subscribe` runs
  on the caller's thread (`dtnetportal_iox.c:310-319`) and the fan-out on the rx task: a recipient can be called for a
  topic that it never subscribed to (`ForeignSubscriberIsCalled`), and one that is subscribed can be lost through another's
  subscribe (`StandingSubscriberIsLost`). With subscriptions made before activation
  (`OneAfterAnotherIsSerial`), or by the callbacks (`InsideCallbacksIsSerial`), or otherwise kept from meeting a fan-out
  at the tables (`ComesAloneIsSerial`), delivery is as promised (`SerialIsLinear`, `SerialExecutionIsARun`,
  `SubscriberReceivesWhatWasPublished`).
- A pause issued while the callback runs is overwritten, unless the callback fails (`PauseIsHonouredIff`); one that has
  ended the loop is never cleared, so that a later start makes no callback. The first tick is not awaited when it lies
  beyond the clock's wrap (`FirstTickIsAwaitedIff`).
- A change that has held for more than 2^32 ms can be missed by the debouncer (`WrappedRunIsMissed`).
- `dtadc_scanlist_packx_length` refuses an empty list that `dtadc_scanlist_packx` packs, and a list with scans but
  without channels, which only a caller can fill in, is packed, if its channel pointers are not NULL, but cannot be
  unpacked (`Carry`; `AdcSpec.RoundTrip` says exactly when a packed list can).
- A list of a net profile loses an empty last entry and splits an entry that holds a newline (`ListedAsAdded`), and an
  entry added behind an empty one brings that back (`AddedAppends`).
- `dtbusywork_stop` leaves tokens in the semaphore, so a worker added afterwards gets busy without a start
  (`AddedAfterStopIsTriggered`); its comment that workers have to be re-added does not match the slots, which stay taken
  until dispose.
- `dtnetportal_iox_init` makes the encoding buffer 1024 bytes long whatever `max_encoded_buffer_length` says later; the
  model has 1024. The waiting branch of the drain loop is never taken.

## Model

| member | source | states |
|---|---|---|
| `FramerSpec.ApplyDefaults` | dtmc_base_library/src/dtframer_simple.c:99-124 | what is configured is kept, and a zero field takes its documented default, for the maxima that of the mode; so a configured framer never has version 0 or a zero maximum |
| `FramerSpec.StoreU16` | dtmc_base_library/src/dtframer_simple.c:272-285 | a 16-bit length stored big endian is loaded back as it was |
| `FramerSpec.FrameHeader` | dtmc_base_library/src/dtframer_simple.c:325-356 | the header carries the version and both lengths, each narrowed to 16 bits |
| `FramerSpec.FrameLayout` | dtmc_base_library/src/dtframer_simple.c:325-379 | a frame byte by byte: A5, 5A, the version, both lengths modulo 2^16 with the high byte first, the topic, the payload |
| `FramerSpec.Run` | dtmc_base_library/src/dtframer_simple.c:414-605 | every reachable decoder state keeps its fill counters within the current lengths and these within the storage; an error leaves the machine idle; what was handed over is never taken back |
| `FramerTheorems.ChunkingIsInvisible` | dtmc_base_library/src/dtframer_simple.c:386-609 | however a byte stream is cut into decode calls, given up at the first that fails, the callbacks and the final state are those of one call with all of it |
| `FramerTheorems.RunAppend` | dtmc_base_library/src/dtframer_simple.c:386-609 | decoding a then b is decoding a ++ b, unless a fails: then b is dropped |
| `FramerTheorems.TurnIsRun` | dtmc_base_library/src/dtframer_simple.c:418-596 | a turn of the loop, with its bulk copy of what the phase still wants, does what those bytes do one at a time |
| `FramerTheorems.TurnRefines` | dtmc_base_library/src/dtframer_simple.c:414-605 | every turn takes bytes, except one that only hands over an owed empty-payload message; after it the rest of the call means the same |
| `FramerTheorems.NextByteReleases` | dtmc_base_library/src/dtframer_simple.c:542-596 | a message with an empty payload is handed over when the next byte arrives, and that byte is then processed normally |
| `FramerTheorems.FrameIsRead` | dtmc_base_library/src/dtframer_simple.c:453-597 | from a hunting state, even one whose last byte looked like a frame start, one frame ends in its message, handed over or, with an empty payload, owed |
| `FramerTheorems.TopicShown` | dtmc_base_library/src/dtframer_simple.c:536-536 | the callback is shown the frame's topic up to its first NUL, or, for an empty one, what the topic storage held before |
| `FramerTheorems.StreamConservation` | dtmc_base_library/src/dtframer_simple.c:386-609 | from between frames, any frames of sendable messages: handed over is owed + sent, in order and once, cut short only by a callback that fails |
| `FramerTheorems.RoundTrip` | dtmc_base_library/src/dtframer_simple.c:290-609 | for all lists of sendable messages decoding the frames succeeds, and receives what was sent if and only if no empty topic follows a nonempty one |
| `FramerTheorems.CleanRoundTrip` | dtmc_base_library/src/dtframer_simple.c:290-609 | nonempty NUL-free topics and nonempty payloads of any bytes, magic bytes included, arrive exactly and leave the decoder idle |
| `FramerTheorems.NoCallbackDiscards` | dtmc_base_library/src/dtframer_simple.c:580-597 | of any bytes in any state, a decoder without a callback does what one with a callback that always succeeds does, the same errors included, only that nothing is handed over |
| `FramerTheorems.FramesAreDiscarded` | dtmc_base_library/src/dtframer_simple.c:580-597 | without a callback the frames of sendable messages are decoded without an error and discarded |
| `FramerTheorems.ReceivedAsSent` | dtmc_base_library/src/dtframer_simple.c:514-515 | what is shown is what was sent if and only if no empty topic follows a nonempty one |
| `FramerTheorems.EmptyTopicIsLost` | dtmc_base_library/src/dtframer_simple.c:386-609 | from any idle decoder with nothing handed over, decoding the two frames of a message on a topic and of one on the empty topic hands over both under the first topic |
| `FramerTheorems.PrefixOfStream` | dtmc_base_library/src/dtframer_simple.c:386-609 | a stream of frames cut anywhere hands over a prefix of its messages |
| `FramerTheorems.NoiseIsSkipped` | dtmc_base_library/src/dtframer_simple.c:420-451 | noise without an adjacent A5 5A only moves the machine between its hunting phases |
| `FramerTheorems.HuntingMeansNoPair` | dtmc_base_library/src/dtframer_simple.c:420-451 | the machine hunts through all of some noise if and only if no adjacent A5 5A is in it |
| `FramerTheorems.NoiseThenFrames` | dtmc_base_library/src/dtframer_simple.c:420-451 | such noise, even ending in A5, followed by frames delivers those frames |
| `FramerTheorems.ResumesAfterError` | dtmc_base_library/src/dtframer_simple.c:473-507 | whatever failed and from whatever state, the machine is idle and the frames of the next calls are delivered |
| `FramerTheorems.HeaderIsRejected` | dtmc_base_library/src/dtframer_simple.c:473-507 | a frame whose header fails a check hands nothing over, and all the rest of it is dropped |
| `FramerTheorems.LongMessageIsCut` | dtmc_base_library/src/dtframer_simple.c:325-326 | of a message with a topic or a payload of 64 KiB or more the first that is handed over has a shorter topic or a shorter payload |
| `FramerTheorems.ComesOutAsItWentIn` | dtmc_base_library/src/dtframer_simple.c:290-609 | one message comes out as it went in if and only if the versions agree, its lengths fit 16 bits, the payload is within the receiver's maximum, and a topic is given or none was shown |
| `FramerTears.ShortTearIsHarmless` | dtmc_base_library/src/dtframer_simple.c:420-451 | a frame left unfinished after its first byte does no harm: the frames behind it are conserved |
| `FramerTears.SpacedStream` | dtmc_base_library/src/dtframer_simple.c:386-609 | frames with any number of such lone first bytes before, between and behind them: what is handed over and owed are the messages of the frames, in order and once |
| `FramerTears.TornHeaderIsFatalIff` | dtmc_base_library/src/dtframer_simple.c:453-507 | a frame left unfinished inside its header, with another behind it: the decoder fails, and the receiver with it, if and only if the header mixed from both announces another version or lengths beyond the maxima; each of its fields is given |
| `FramerTears.TwoTornBytesAreFatal` | dtmc_base_library/src/dtframer_simple.c:473-480 | after two bytes of a frame the next frame, whatever it is, ends the receiver, unless versions are not looked at or the version is A5 |
| `FramerTears.TornFrameIsFilled` | dtmc_base_library/src/dtframer_simple.c:453-597 | a frame left unfinished behind its header takes the bytes that follow for its own: with as many as it lacks it is another message's frame, which is handed over in its place, its topic shown up to the first NUL |
| `FramerTears.TornPayloadIsNextFrame` | dtmc_base_library/src/dtframer_simple.c:542-597 | left unfinished in front of its payload, it hands over the beginning of the next frame as a payload on its topic |
| `Framer.FramerSimple.constructor` | dtmc_base_library/src/dtframer_simple.c:171-253 | a configured framer: the mode and each nonzero field as configured, each zero field its documented default, and a fresh decoder over storage that is not cleared |
| `Framer.FramerSimple.Configure` | dtmc_base_library/src/dtframer_simple.c:192-253 | new storage, decoder reset, callback kept; the mode and each nonzero field as configured, each zero field its documented default |
| `Framer.FramerSimple.ResetDecodeState` | dtmc_base_library/src/dtframer_simple.c:128-136 | every decode field back to its start, the storage untouched |
| `Framer.FramerSimple.Encode` | dtmc_base_library/src/dtframer_simple.c:290-381 | the frame is written and nothing behind it; a topic beyond the maximum or a buffer too small refuses and writes nothing; the payload maximum is not checked |
| `Framer.EncodeConfigured` | dtmc_base_library/src/dtframer_simple.c:99-381 | a framer configured with any values: its frames carry the configured version, or 1, and a topic is refused exactly beyond the configured maximum, or the default of the mode; where each part of the frame lies |
| `Framer.FramerSimple.TakeHeader` | dtmc_base_library/src/dtframer_simple.c:453-518 | one turn in the header phase, in place, is the header turn of the byte machine |
| `Framer.FramerSimple.TakeTopic` | dtmc_base_library/src/dtframer_simple.c:520-540 | one turn in the topic phase, in place |
| `Framer.FramerSimple.TakePayload` | dtmc_base_library/src/dtframer_simple.c:542-597 | one turn in the payload phase, in place, with the hand-over |
| `Framer.FramerSimple.Decode` | dtmc_base_library/src/dtframer_simple.c:386-609 | the in-place bulk-copying loop computes what the byte machine computes, for every input and state, in at most two turns a byte; a negative length changes nothing |
| `ManifoldTheorems.ZeroTableIsGood` | dtmc_base_library/src/dtmanifold.c:222-232 | the zeroed tables of init are good and stand for the empty map |
| `ManifoldTheorems.SubscribeRefines` | dtmc_base_library/src/dtmanifold.c:270-316 | subscribing succeeds if and only if it can (name known or a free subject, recipient known or a free slot), then routes the callback; a failure changes nothing at all |
| `ManifoldTheorems.FullRowIsNamed` | dtmc_base_library/src/dtmanifold.c:111-217 | only a subject that was already there can lack recipient slots, so an overflow adds no subject |
| `ManifoldTheorems.RowCapacity` | dtmc_base_library/src/dtmanifold.c:168-217 | a row has room for a recipient if and only if it is there or fewer than all slots are taken, holes counted as free |
| `ManifoldTheorems.RoutesAfterName` | dtmc_base_library/src/dtmanifold.c:111-165 | creating a subject adds a route without recipients |
| `ManifoldTheorems.UnsubscribeRefines` | dtmc_base_library/src/dtmanifold.c:320-368 | unsubscribing removes just that recipient of that subject, and a missing one changes nothing |
| `ManifoldTheorems.TouchRefines` | dtmc_base_library/src/dtmanifold.c:406-406 | a publish creates its subject when it is absent and there is room, and otherwise leaves the routes alone |
| `ManifoldTheorems.RunRefines` | dtmc_base_library/src/dtmanifold.c:270-481 | over any sequence of calls with nonempty names the slot tables stay good (unique names, unique recipients in spite of holes, unnamed subjects empty) and stand for the map that the same calls build |
| `ManifoldTheorems.QueriesAgree` | dtmc_base_library/src/dtmanifold.c:575-665 | what has_subject and subject_recipient_count report is in the map |
| `ManifoldTheorems.TopicsAgree` | dtmc_base_library/src/dtmanifold.c:497-563 | foreach_topic reports each subject of the map once, with its number of recipients, and no other |
| `ManifoldTheorems.SnapshotAgrees` | dtmc_base_library/src/dtmanifold.c:407-420 | the snapshot holds the recipients subscribed at that moment, each once with its own callback, and no others |
| `ManifoldSpec.SnapshotSlots` | dtmc_base_library/src/dtmanifold.c:407-420 | the snapshot is taken slot by slot: its recipients lie in ascending slots, and just the slots with a recipient and a callback are in it |
| `ManifoldTheorems.SnapshotInOrder` | dtmc_base_library/src/dtmanifold.c:407-420 | of two recipients in the snapshot the one called first is subscribed in the lower slot |
| `ManifoldSpec.TopicSlots` | dtmc_base_library/src/dtmanifold.c:517-545 | the topics are collected slot by slot: those of the named subjects, in ascending slots, with name and number of recipients |
| `ManifoldTheorems.EmptyNameBreaksTable` | dtmc_base_library/src/dtmanifold.c:126-152 | subscribing keeps the tables good if and only if the name is nonempty or every subject slot is taken |
| `ManifoldTheorems.EmptyNameIsInherited` | dtmc_base_library/src/dtmanifold.c:126-152 | the next subject created inherits a recipient subscribed to the empty name |
| `Manifold.Manifold.SearchSubject` | dtmc_base_library/src/dtmanifold.c:56-83 | the slot of the subject, or the number of slots |
| `Manifold.Manifold.SearchRecipient` | dtmc_base_library/src/dtmanifold.c:86-108 | the slot of the recipient, or the number of slots |
| `Manifold.Manifold.FindOrAddSubject` | dtmc_base_library/src/dtmanifold.c:111-165 | the known slot, else the first free one, named; overflow changes nothing |
| `Manifold.Manifold.FindOrAddRecipient` | dtmc_base_library/src/dtmanifold.c:168-217 | the known slot, else the first free one, with the recipient; overflow changes nothing |
| `Manifold.Manifold.Subscribe` | dtmc_base_library/src/dtmanifold.c:270-316 | the tables and the error are those of the value-level subscribe, and the semaphore's count is restored on every path; each error, just when, and that all but an overflow change nothing |
| `Manifold.Manifold.Unsubscribe` | dtmc_base_library/src/dtmanifold.c:320-368 | the same for unsubscribe |
| `Manifold.Manifold.Publish` | dtmc_base_library/src/dtmanifold.c:377-481 | calls the recipients with a callback in slot order, none left out but behind the first callback to fail, each once with its own equal copy, even if callbacks change the tables; the tables are then those after the calls that the callbacks made; the semaphore is free while they run; each error, just when |
| `Manifold.Manifold.Deliver` | dtmc_base_library/src/dtmanifold.c:436-465 | the deliveries of a snapshot, with the semaphore released |
| `ManifoldSpec.ReactionsAreCalls` | dtmc_base_library/src/dtmanifold.c:436-465 | what the callbacks of one publish do to the tables is what the same calls do one after another |
| `Manifold.Manifold.ForeachTopic` | dtmc_base_library/src/dtmanifold.c:509-571 | the named subjects are visited in slot order, all of them if every visit says yes, and otherwise none left out but behind the first that does not; the tables are unchanged and the semaphore is restored |
| `Manifold.Manifold.SubjectRecipientCount` | dtmc_base_library/src/dtmanifold.c:575-622 | the number of recipients of the subject, 0 if there is none |
| `Manifold.Manifold.HasSubject` | dtmc_base_library/src/dtmanifold.c:626-665 | whether the name is a subject's |
| `ManifoldThreads.MutualExclusion` | dtmc_base_library/src/dtmanifold.c:399-472 | in every interleaving of any number of threads count + holders is 1, no two threads are at the tables, and none in a user callback holds the semaphore |
| `ManifoldThreads.OnlyHolderWrites` | dtmc_base_library/src/dtmanifold.c:287-356 | a step that changes the tables is the holder's |
| `ManifoldThreads.Linearizable` | dtmc_base_library/src/dtmanifold.c:270-665 | in every interleaving the turns taken are a linear order of the calls: each thread's calls are there once and in its program's order, each was answered, with its result, its snapshot, its topics or its count, as the calls before it leave the tables, and whenever nobody is at the tables they are what the turns make of them; the callbacks in progress are over the snapshot, or the topics, of their own turn |
| `ManifoldCalls.CallsEach` | dtmc_base_library/src/dtmanifold.c:436-563 | in any interleaving the callbacks behind a snapshot are made one after another, each once; the first that fails ends the publish with its error; a visitor's no ends the iteration without one |
| `ManifoldCalls.CountAgrees` | dtmc_base_library/src/dtmanifold.c:575-665 | a thread's query of good tables reports the number of recipients in the map, and nothing of an absent subject |
| `ManifoldRaces.SerialIsLinear` | dtmc_base_library/src/dtmanifold.c:270-665 | without a semaphore the same holds in every interleaving in which no call comes to the tables while another is there |
| `ManifoldRaces.OneThreadIsSerial` | dtmc_base_library/src/dtmanifold.c:270-665 | all calls on one thread never meet at the tables |
| `ManifoldRaces.ComesAloneIsSerial` | dtmc_base_library/src/dtmanifold.c:270-665 | nor do calls if whoever comes to the tables finds all other threads at rest, waiting or in user code |
| `ManifoldRaces.OneAfterAnotherIsSerial` | dtmc_base_library/src/dtmanifold.c:270-665 | nor do calls of threads of which each ends its program before another begins, as when all subscriptions are made before activation |
| `ManifoldRaces.InsideCallbacksIsSerial` | dtmc_base_library/src/dtmanifold.c:436-465 | nor do calls that are made, from begin to end, while one thread is in user code, as those that callbacks make |
| `ManifoldRaces.ForeignSubscriberIsCalled` | dtmc_base_library/src/dtmanifold.c:126-152 | without a semaphore, a subscribe of x and a publish on y that meet at any free slot: the snapshot for y holds the subscriber of x |
| `ManifoldRaces.StandingSubscriberIsLost` | dtmc_base_library/src/dtmanifold.c:126-152 | without a semaphore, a subscribe of another recipient that is overtaken by a publish can undo a subscription that has succeeded: the next publish on its subject has an empty snapshot |
| `ManifoldRaces.SubscriptionIsLost` | dtmc_base_library/src/dtmanifold.c:168-217 | without a semaphore two subscribes to one subject can both succeed and leave one recipient unsubscribed |
| `ManifoldRaces.SubscribersNeedASemaphore` | dtmc_base_library/src/dtmanifold.c:287-307 | subscribing any number of recipients to one subject, a thread each and without a semaphore, every subscribe that succeeds has subscribed its recipient in all interleavings if and only if there is at most one |
| `Portal.Device.Write` | dtmc_base_library/include/dtmc_base/dtiox.h:40-45 | a write takes some beginning of what it is given and appends it to the wire, or fails |
| `Portal.Device.Read` | dtmc_base_library/include/dtmc_base/dtiox.h:40-45 | a read takes the front of the wire, as many bytes as the device gives, the buffer holds and the wire has, whichever is least |
| `Portal.AbsorbedIff` | dtmc_base_library/src/dtnetportal_iox.c:351-374 | against any answers of the device a publish is complete if and only if they take as many bytes as the frame has before one fails, failed if and only if one fails before, and still writing if and only if they end before either |
| `Portal.NetPortal.WriteAll` | dtmc_base_library/src/dtnetportal_iox.c:352-374 | the partial-write loop puts the bytes on the wire in order and once, whatever the device takes each time; it ends when the amounts taken add up to the length, or at the first write that fails, and uses no further answer of the device |
| `Portal.NetPortal.Publish` | dtmc_base_library/src/dtnetportal_iox.c:322-383 | a refused message puts nothing on the wire; otherwise the wire grows by the frame if what the device takes before a failure adds up to its length, and by just as many of its first bytes as were taken if the device fails before or has not yet taken all |
| `Portal.NetPortal.ReadAndDecode` | dtmc_base_library/src/dtnetportal_iox.c:139-160 | one read of at most 128 bytes, decoded |
| `Portal.NetPortal.RxDrain` | dtmc_base_library/src/dtnetportal_iox.c:125-167 | what is read and what is left are together what was on the wire; the decoder has been through every chunk in order, up to the first error; without one the last read gave nothing, so that a device that always gives something leaves the wire empty |
| `PortalSystem.FannedOutIsPrefixOfPublished` | dtmc_base_library/src/dtnetportal_iox.c:125-374 | in every reachable state of publish, partial and failing writes, chunked drains and changing subscriptions, the messages handed to the fan-out are in order, without loss or duplication, a prefix of those published; all of them once everything is written and drained, but for an owed last one; only a failed fan-out ends the receiver. Once a frame was left unfinished the same is said of what was published before it: it has all arrived, or is owed, when a live receiver has drained everything, and a receiver that ended before was ended by its callback |
| `PortalTears.ShortTearsLoseOnlyTheirOwn` | dtmc_base_library/src/dtnetportal_iox.c:352-374 | if the device fails, but never after more than the first byte of a frame, all this holds of the messages published without the unfinished ones |
| `PortalTears.FinishedAreSent` | dtmc_base_library/src/dtnetportal_iox.c:322-383 | those are messages that were published, and all of them where no frame was left unfinished |
| `PortalForgery.ForgedMessage` | dtmc_base_library/src/dtnetportal_iox.c:352-374 | from any initial state and whatever the subscribers do there is a run in which the device fails after eight bytes, the next publish succeeds, everything is drained, and all that is handed over is one message that was never published |
| `PortalSystem.ExpectedIsPublished` | dtmc_base_library/src/dtnetportal_iox.c:125-374 | with nonempty topics what is expected is what was published |
| `PortalSystem.InvRun` | dtmc_base_library/src/dtnetportal_iox.c:125-374 | in every run the bytes drained, on the wire and not yet written are together the frames of everything published; once a frame was left unfinished they begin with the frames of what was published before |
| `PortalDelivery.SubscriberReceivesWhatWasFinished` | dtmc_base_library/src/dtnetportal_iox.c:59-76 | as long as no call comes to the manifold's tables while another is there and no frame was left unfinished after more than its first byte: a recipient that stays subscribed is called with a prefix of the payloads published on its topic in frames that were finished, in order and each once, whatever the other recipients and callbacks do; with all of them once everything is drained and no fan-out has failed |
| `PortalDelivery.SubscriberReceivesWhatWasPublished` | dtmc_base_library/src/dtnetportal_iox.c:59-76 | where no frame was left unfinished, the same with all that was published on the topic |
| `PortalDelivery.PublishReaches` | dtmc_base_library/src/dtmanifold.c:406-420 | a publish reaches exactly the recipients routed for its topic at that moment |
| `PortalDelivery.FanOutSucceeds` | dtmc_base_library/src/dtnetportal_iox.c:59-76 | the fan-out of a message succeeds if and only if, at its turn at the tables, its topic fits a subject name, has a subject or finds a free one, and no callback fails |
| `PortalDelivery.OnlyLastIsRejected` | dtmc_base_library/src/dtframer_simple.c:580-589 | a decode call hands nothing over after a message that was rejected |
| `PortalDelivery.AnswersOnlyTruncate` | dtmc_base_library/src/dtframer_simple.c:580-589 | what the callbacks answer only cuts short what is handed over |
| `PortalDelivery.DrainIsPossible` | dtmc_base_library/src/dtnetportal_iox.c:137-163 | whatever the fan-outs will do, a drain of any chunk is a step of the system |
| `PortalRuns.PublishIsARun` | dtmc_base_library/src/dtnetportal_iox.c:322-383 | a publish of a sendable message, against any script of the device, is a Publish and writes that put on the wire what NetPortal.Publish puts there and leave unsent what it leaves, and then a failed write if the device fails in the middle of the frame |
| `PortalRuns.DrainIsARun` | dtmc_base_library/src/dtnetportal_iox.c:125-167 | what RxDrain does with its chunks is a drain step for each, which end with its decoder and what it left on the wire, the receiver alive unless the last chunk failed, and the tables and calls of the fan-outs of all that was handed over |
| `PortalRuns.DrainedWireIsAll` | dtmc_base_library/src/dtnetportal_iox.c:125-374 | a drain that empties a wire on which no byte is missing, and that leaves the receiver alive, completes what was published: all of it has then been handed over or is owed |
| `PortalRuns.AgreementExists` | dtmc_base_library/src/dtnetportal_iox.c:137-163 | whatever the fan-outs will do and however the bytes are read, there are answers with which all the chunks are such steps |
| `PortalThreads.TurnsAreCalls` | dtmc_base_library/src/dtmanifold.c:270-481 | turns taken at the tables leave them as the same calls do one after another |
| `PortalThreads.TurnIsFanOut` | dtmc_base_library/src/dtnetportal_iox.c:59-76 | the receiver's turn, successful or not, and the turns of others up to its next are the fan-out of the message: the same tables, the same calls and the same answer |
| `PortalThreads.FanOutIsPublish` | dtmc_base_library/src/dtnetportal_iox.c:59-76 | the fan-out of the state machine is what the manifold's publish does: the same recipients, up to the first that fails, and the same tables after their calls |
| `PortalThreads.TurnIsRoute` | dtmc_base_library/src/dtnetportal_iox.c:310-319 | another's turn is a step of the portal's |
| `PortalThreads.SerialPublishReachesSubscriber` | dtmc_base_library/src/dtnetportal_iox.c:218-220 | without a semaphore, a recipient that stays subscribed is in the snapshot of every publish on its topic, in every interleaving in which no call comes to the tables while another is there |
| `PortalExecutions.TurnsAreFanOuts` | dtmc_base_library/src/dtnetportal_iox.c:59-76 | in a history of calls made one after another, the publishes of one thread, with the turns of others in between, are the fan-outs of its messages: tables, calls and answers |
| `PortalExecutions.SerialExecutionIsARun` | dtmc_base_library/src/dtnetportal_iox.c:125-167 | any execution without a semaphore in which no call comes to the tables while another is there, and in which one thread publishes what its decoder hands over, is a run of the portal's state machine: the calls of others before its first publish, then the drains; they leave the execution's tables and make the calls of its snapshots |
| `Debouncer.AcceptedIff` | dtmc_base_library/src/dtdebouncer.c:39-86 | a transition is accepted with a sample if and only if the sample continues a run that differs from the accepted state and whose real length modulo 2^32 has reached the debounce time |
| `Debouncer.AcceptedNeedsStableRun` | dtmc_base_library/src/dtdebouncer.c:58-62 | an accepted transition is preceded by an unbroken run of at least two equal samples spanning at least the debounce time of real, unbounded time |
| `Debouncer.LongRunIsAccepted` | dtmc_base_library/src/dtdebouncer.c:58-62 | a differing run that reaches the debounce time within 2^32 ms is accepted at its first such sample and not before |
| `Debouncer.WrappedRunIsMissed` | dtmc_base_library/src/dtdebouncer.c:61-61 | a concrete run of more than 2^32 ms that is not accepted |
| `Debouncer.CounterLaws` | dtmc_base_library/src/dtdebouncer.c:66-83 | accepted edges alternate and are what the callback is called with; rises are the calls with true and falls those with false; raw edges are the changes in the history and at least the accepted ones; the state is the initial one flipped once an edge |
| `Debouncer.TimeLaw` | dtmc_base_library/src/dtdebouncer.c:39-86 | accepted edges times the debounce time is at most the real time since init |
| `Debouncer.DebouncerObject.constructor` | dtmc_base_library/src/dtdebouncer.c:9-36 | the fields stand for the history of the one initial sample |
| `Debouncer.DebouncerObject.Update` | dtmc_base_library/src/dtdebouncer.c:39-86 | the fields stand for the history with one sample more, the counters modulo 2^32 |
| `Interval.NextTickIsNextPoint` | dtmc_base_library/src/dtinterval_scheduled.c:139-141 | below the clock's wrap the 32-bit recomputation finds the first tick of the grid after the callback's end |
| `Interval.NextTickModulo` | dtmc_base_library/src/dtinterval_scheduled.c:139-141 | whatever the clock shows, the tick aimed at is the first of the grid behind the time elapsed in 32 bits since the first tick, in 32 bits |
| `Interval.NoDrift` | dtmc_base_library/src/dtinterval_scheduled.c:114-142 | whatever the delays: every callback, a failing one included, starts at or after its tick, every next tick is on the grid start + k * interval and within one interval after the callback's end, and successive callbacks start in ever later cells |
| `Interval.ExactTicks` | dtmc_base_library/src/dtinterval_scheduled.c:114-142 | with exact sleeps and callbacks shorter than the interval the k-th callback, a failing one included, starts exactly on tick k |
| `Interval.FailureEndsTheLoop` | dtmc_base_library/src/dtinterval_scheduled.c:133-134 | the callback that fails is the last, and the only one after which no tick is aimed at |
| `Interval.FirstTickIsAwaitedIff` | dtmc_base_library/src/dtinterval_scheduled.c:114-128 | the first tick is awaited if and only if it is below the clock's wrap; otherwise the callback is made at once |
| `Interval.StartIsTimed` | dtmc_base_library/src/dtinterval_scheduled.c:107-142 | when every callback of a start is made, wraps included: from the end of the one before, at the next instant at which the 32-bit clock shows the tick aimed at, or at once if it shows that tick or a later one |
| `Interval.StartEndsIn` | dtmc_base_library/src/dtinterval_scheduled.c:114-148 | a start makes a callback for each lap up to the first that is paused in time, fails or asks for a pause, and ends as that lap says: how many callbacks there were, the result and the flag that is left; if no lap does, it goes on |
| `Interval.PauseInCallbackIsLost` | dtmc_base_library/src/dtinterval_scheduled.c:133-135 | a pause called while the callback runs changes nothing, for any run in which the callback succeeds |
| `Interval.PauseIsHonouredIff` | dtmc_base_library/src/dtinterval_scheduled.c:117-135 | a pause in a lap that is reached makes a difference if and only if it falls before the callback or the callback fails; then the loop ends in that lap, no callback follows, and the flag stays set, so that the next start makes none; otherwise the lap's callback is made and all goes on as without it |
| `Interval.IntervalScheduled.Start` | dtmc_base_library/src/dtinterval_scheduled.c:107-148 | the loop as written, with its fields and locals, makes just the callbacks of the specification and ends as it does |
| `Interval.IntervalScheduled.RunLap` | dtmc_base_library/src/dtinterval_scheduled.c:117-142 | one turn of the loop |
| `AdcScanList.SlicesTile` | dtmc_base_library/src/dtadc_scanlist.c:37-46 | every reading of the channel block belongs to exactly one scan: the slices are disjoint and tile the block |
| `AdcScanList.ScanListObject.Allocate` | dtmc_base_library/src/dtadc_scanlist.c:15-50 | init succeeds if and only if both counts are positive, and then lays out the slices |
| `AdcScanList.ScanListObject.Of` | dtmc_base_library/include/dtmc_base/dtadc_scanlist.h:24-29 | any list, filled in by hand, is an object that shows just that list; its scans may have no channels, and any of their channel pointers may be NULL |
| `AdcScanList.ScanListObject.PackxLength` | dtmc_base_library/src/dtadc_scanlist.c:54-87 | the length of the packed list; an empty list without structs is refused, although it can be packed |
| `AdcScanList.PackScan` | dtmc_base_library/src/dtadc_scan.c:36-68 | one scan's bytes if they fit, and otherwise nothing beyond the length |
| `AdcScanList.ScanListObject.Packx` | dtmc_base_library/src/dtadc_scanlist.c:93-136 | exactly the list's bytes, packx_length of them, if they fit and no channel pointer is NULL; otherwise the offset does not move and nothing outside offset..length is written |
| `AdcScanList.UnpackScan` | dtmc_base_library/src/dtadc_scan.c:77-115 | one scan into its own storage if enough bytes remain; the scans before it are untouched |
| `AdcScanList.ScanListObject.Unpackx` | dtmc_base_library/src/dtadc_scanlist.c:142-174 | what the bytes say, if they suffice and a positive count of scans comes with channels, in a list whose channel pointers are all set; otherwise an empty object and the offset unmoved |
| `AdcScanList.ScanListObject.ViewIsPackable` | dtmc_base_library/src/dtadc_scanlist.c:93-136 | whatever packx accepts is a list that the round trip covers |
| `AdcSpec.ListBytesLength` | dtmc_base_library/src/dtadc_scanlist.c:54-136 | packx writes as many bytes as packx_length says |
| `AdcSpec.Signed` | dtmc_base_library/src/dtadc_scan.c:36-68 | a stamp goes out as the number it is if it is below 2^63, and as an equal one modulo 2^64 otherwise |
| `AdcSpec.ScanLayout` | dtmc_base_library/src/dtadc_scan.c:36-68 | a packed scan by its positions: the timestamp at 0, the sequence number at 8, the j-th reading at 16 + 4j |
| `AdcSpec.ListLayout` | dtmc_base_library/src/dtadc_scanlist.c:93-136 | a packed list by its positions: the count of scans at 0, the count of channels at 4, the i-th scan at 8 + i(16 + 4 channels) |
| `AdcSpec.UnpacksIff` | dtmc_base_library/src/dtadc_scanlist.c:142-174 | any bytes unpack if and only if there are two counts, and then no scans are promised, or scans with channels that are all there |
| `AdcSpec.UnpackedIs` | dtmc_base_library/src/dtadc_scanlist.c:142-174 | what unpacks has the two counts that come first, as many scans, and ends behind them |
| `AdcSpec.UnpackedScanIs` | dtmc_base_library/src/dtadc_scanlist.c:142-174 | each scan is read from its own place |
| `AdcSpec.ScanIsReadFrom` | dtmc_base_library/src/dtadc_scan.c:77-115 | a scan is read as its two stamps and its readings, by their positions |
| `AdcSpec.ReadScanBack` | dtmc_base_library/src/dtadc_scan.c:36-115 | one packed scan, anywhere in a buffer, is read back |
| `AdcSpec.RoundTrip` | dtmc_base_library/src/dtadc_scanlist.c:93-174 | a packed list, anywhere in a buffer, unpacks to an equal list and the offset behind it if and only if it is empty or has channels |
| `AdcScanList.Carry` | dtmc_base_library/src/dtadc_scanlist.c:93-174 | both ends in place: packing succeeds for just the lists with counts that are not negative, their scans there, no NULL channel pointer and room in the buffer, and the other end then unpacks an equal list if and only if it is empty or has channels |
| `Records.TotalIsProduct` | dtmc_base_library/src/dtadc_scanlist.c:33-46 | the sizes and offsets computed as products |
| `ProfileSpec.AddedAreListed` | dtmc_base_library/src/dtnetprofile.c:32-38 | of one-line items a list shows all, except that an empty last one is lost |
| `ProfileSpec.ListedAsAdded` | dtmc_base_library/src/dtnetprofile.c:32-85 | a list gives back exactly what was added if and only if every item is one line and the last is not empty |
| `ProfileSpec.AddedAppends` | dtmc_base_library/src/dtnetprofile.c:32-85 | adding any item to any list: the tokens are those it had and the item if and only if the item is one line and either it is empty or the list ends in an empty line, but not both |
| `NetProfile.NextToken` | dtmc_base_library/src/dtnetprofile.c:69-85 | the token at the cursor and the cursor of the rest, until the text is used up |
| `NetProfile.Get` | dtmc_base_library/src/dtnetprofile.c:152-187 | the index-th token, NULL beyond the last or below 0 |
| `NetProfile.BufAppend` | dtmc_base_library/src/dtnetprofile.c:40-57 | appends what fits: the buffer goes on showing a NUL-terminated beginning of the unbounded text, and nothing beyond the buffer is written |
| `NetProfile.AppendListLine` | dtmc_base_library/src/dtnetprofile.c:87-108 | one line of a list that is not empty |
| `NetProfile.Profile.ToString` | dtmc_base_library/src/dtnetprofile.c:189-210 | the buffer shows the rendering cut to size and trimmed, with its NUL, and nothing beyond it is written |
| `NetProfile.Profile.FieldsInOrder` | dtmc_base_library/src/dtnetprofile.c:189-286 | which field is which: the seven lines of the rendering in their order, each list with its own label, and the seven packed texts in the same order |
| `ProfileSpec.ShownWhole` | dtmc_base_library/src/dtnetprofile.c:189-210 | what is shown is a beginning of the whole rendering, at least min(full - 1, size - 2) long, and all of it if and only if the buffer has room for it and its NUL |
| `ProfileSpec.LineOfTwo` | dtmc_base_tests/src/test_dtnetprofile.c:86-86 | two items a and b added to a list are printed after its label as a, b and a newline |
| `ProfileSpec.LineShowsText` | dtmc_base_library/src/dtnetprofile.c:87-108 | a list prints as one line with its label and its text, with a comma and a blank for each newline but a final one, if and only if it has any text |
| `ProfileSpec.NothingToSay` | dtmc_base_library/src/dtnetprofile.c:205-206 | the rendering is (empty) if and only if no list has any text |
| `ProfileSpec.ShownIsText` | dtmc_base_library/src/dtnetprofile.c:189-210 | nothing that is shown contains a NUL |
| `NetProfile.Profile.AddName` | dtmc_base_library/src/dtnetprofile.c:114-118 | the tokens of the list are those it had and the name if and only if the name joins them; for a nonempty one-line name, if the list is NULL or does not end in an empty line; the other lists are untouched |
| `NetProfile.Profile.AddVersion` | dtmc_base_library/src/dtnetprofile.c:119-125 | the tokens of the list are those it had and the entry component=version, cut to 127 characters, if and only if the entry is one line and the list does not end in an empty one; it is one line if component and version are |
| `ProfileSpec.EntryIsWhole` | dtmc_base_library/src/dtnetprofile.c:119-125 | the entry is component=version, with (null) for NULL, in full up to 126 characters of the two and its first 127 beyond; of fw and 1.0 it is fw=1.0 |
| `NetProfile.Profile.BytesNeeded` | dtmc_base_library/src/dtnetprofile.c:231-242 | pack_length is just the number of bytes that packing takes |
| `NetProfile.Profile.Pack` | dtmc_base_library/src/dtnetprofile.c:243-286 | the seven texts with their NULs if they fit, NULL as empty; otherwise -1 and nothing outside offset..length is written |
| `NetProfile.Profile.Unpack` | dtmc_base_library/src/dtnetprofile.c:288-330 | the strings found replace the first lists; the bytes used if there are seven, else -1 |
| `ProfileSpec.RoundTrip` | dtmc_base_library/src/dtnetprofile.c:243-330 | packed texts, anywhere in a buffer, come back as they were from exactly their bytes |
| `ProfileSpec.CutShort` | dtmc_base_library/src/dtnetprofile.c:288-330 | of packed texts that are cut off just those are found that are there with their NUL |
| `ProfileSpec.SentSaysTheSame` | dtmc_base_library/src/dtnetprofile.c:189-330 | a profile packed and unpacked into any other renders the same, and uses pack_length bytes |
| `BusyworkSpec.TokensAreConserved` | dtmc_base_library/src/dtbusywork.c:59-312 | for any commands and any interleaving tokens + triggered workers = posts |
| `BusyworkTheorems.NobodyIsBusyBeforeStart` | dtmc_base_library/src/dtbusywork.c:75-87 | no worker is triggered before start is called |
| `BusyworkTheorems.TokensLeftAreWorkersWaiting` | dtmc_base_library/src/dtbusywork.c:222-247 | between start and stop, in every interleaving, the tokens left equal the workers still waiting |
| `BusyworkTheorems.StartReachesEveryone` | dtmc_base_library/src/dtbusywork.c:222-247 | after start every worker is triggered, or told to stop, within three steps of its own, whatever the others do |
| `BusyworkTheorems.NobodyStarves` | dtmc_base_library/src/dtbusywork.c:75-87 | the same from any state in which there have been as many posts as workers |
| `BusyworkTheorems.SpinsUntilTold` | dtmc_base_library/src/dtbusywork.c:92-105 | a triggered worker spins at every second step of its own for as long as it has not been told to stop |
| `BusyworkTheorems.StopIsPrompt` | dtmc_base_library/src/dtbusywork.c:75-105 | a worker that has been told to stop has exited after two steps of its own, from any phase and in any interleaving |
| `BusyworkTheorems.StopWaits` | dtmc_base_library/src/dtbusywork.c:295-306 | after any commands and in any interleaving, when a stop returns all workers have exited if and only if it was not a join that timed out that ended it |
| `BusyworkTheorems.StopOutlastsItsWorkers` | dtmc_base_library/src/dtbusywork.c:295-306 | over a whole life and any schedule, once stop has returned a worker is still there only if a join timed out |
| `BusyworkTheorems.StopReturns` | dtmc_base_library/src/dtbusywork.c:267-312 | once the workers have been told, two steps of each and then one of the manager for each slot and one more bring the stop to its end, with all workers gone, however they interleave |
| `BusyworkTheorems.StopLeavesTokens` | dtmc_base_library/src/dtbusywork.c:267-312 | when stop has returned, every worker has been told and the semaphore keeps a token for each post of stop and for each worker never triggered |
| `BusyworkTheorems.AddedAfterStopIsTriggered` | dtmc_base_library/src/dtbusywork.c:267-312 | a worker added after a whole life of k workers gets busy without a start if and only if k > 0 |
| `Busywork.Manager.AddWorker` | dtmc_base_library/src/dtbusywork.c:158-219 | the first free slot is taken; an error, and no change, if and only if all ten are |
| `Busywork.Manager.Start` | dtmc_base_library/src/dtbusywork.c:222-247 | one post for each worker |
| `Busywork.StartAlone` | dtmc_base_library/src/dtbusywork.c:222-247 | the steps of start, with nobody in between, make one post for each worker and nothing else |
| `Busywork.Manager.SignalStop` | dtmc_base_library/src/dtbusywork.c:279-293 | every worker is told and one post is made for each |
| `Busywork.StopAlone` | dtmc_base_library/src/dtbusywork.c:279-293 | the steps of that loop, with nobody in between, one for each free slot and two for each worker, do the same and come to the joins |

## Left out

- Vtables, registries and facades, object classes and equality, string forms for logging, error chains and their texts,
  debug hex dumps.
- Allocation failure, and NULL handles, buffers and out parameters, but for the NULL checks on recipients and callbacks
  and NULL lists, which are modelled.
- Negative maxima in a framer configuration, and frame lengths that overflow `int32_t`: lengths are unbounded here.
- FramerTheorems.ComesOutAsItWentIn: the topic storage of the receiver shows less than 64 KiB, as it does after any topic
  that came in a frame; uncleared storage under a larger configured maximum might show more.
- FramerTheorems.LongMessageIsCut: the same.
- FramerTears.TornHeaderIsFatalIff: speaks of a decoder that owes nothing; an owed message is handed over with the first
  byte of the unfinished frame.
- PortalSystem.FannedOutIsPrefixOfPublished: publishes one at a time, because the encoding buffer is shared by all
  publishers of a portal; of what comes behind a frame left unfinished after more than a byte it says nothing, and
  `ForgedMessage` is what can happen.
- PortalDelivery.SubscriberReceivesWhatWasFinished: covers runs in which no call comes to the private manifold's tables
  while another is there, since that manifold has no semaphore, and in which no frame was left unfinished after more than
  its first byte.
- PortalDelivery.SubscriberReceivesWhatWasPublished: the same, and no frame left unfinished at all.
- PortalExecutions.SerialExecutionIsARun: the threads of one batch of chunks; publishing, writing and further batches are
  steps of their own before and after it. Which callbacks fail is given by their numbers, not read off the schedule.
- PortalThreads.SerialPublishReachesSubscriber: says nothing of two calls that meet at the tables;
  `StandingSubscriberIsLost` is what can happen then.
- The drain after a drain that failed: the receiver ends with the first error, so `PortalSystem` drains no more.
- The fan-out flag before activation and after disposal; overflow errors of a device's read.
- Messages that callbacks publish back to the same manifold are calls on its tables (`Reactions`, `Fate`), but the
  deliveries nested in them are not followed.
- CString: the storage of a topic that has never held a NUL is read to its end, where the code would read on.
- ManifoldThreads.Linearizable: the reads and writes of one slot are one step each; torn reads of a name are not modelled,
  and a failing wait is a timeout or an error without distinction.
- An interval of 0, which divides by zero, and a configuration changed while the interval's loop runs.
- Interval.NoDrift: speaks of callbacks that end at least one interval below the clock's wrap; beyond it the raw
  comparison fails, as `FirstTickIsAwaitedIff` shows for the first tick.
- Debouncer.DebouncerObject.Update: a missing object or time function, for which the code does nothing.
- AdcScanList.ScanListObject.Allocate: counts whose sizes overflow `int32_t`, which C leaves undefined; `Allocatable` is the
  bound under which they do not.
- AdcScanList.ScanListObject.Unpackx: the same for counts read from the wire.
- AdcScanList.Carry: the same for the counts of the list that is carried.
- AdcScanList.ScanListObject.Of: scans whose channel pointers overlap or have gaps between them; packing reads one slice
  after another and does not see where they lie.
- AdcScanList.UnpackScan: takes a list as init leaves it, in which no channel pointer is NULL; what a failed unpack leaves
  in the scan it was filling is not stated, and the list is then disposed.
- The bytes that `dtpackx` makes of an integer, and what it does with a buffer that ends inside one, beyond refusing it.
- NetProfile.Get: the scratch buffer that all calls of `dtnetprofile_get` share, so that a value lasts until the next call.
- NetProfile.BufAppend: format errors of vsnprintf, and its guard against a full buffer, which the printer's invariant
  never meets.
- NetProfile.Profile.Unpack: whether a failed read of a string clears the list it was read for; it is left as it was.
- Busywork.Manager.SignalStop: the joins of `dtbusywork_stop` wait for other threads and are steps of `BusyworkSpec`, of
  which `StopWaits` speaks.
- Errors of the tasker and the semaphore in `dtbusywork`, task priorities, core affinity, CPU registries and dispose.
- The distributors (`dtbuffer_distributor`, `dtpackable_object_distributor`, `dtnetprofile_distributor`): the chunker and
  packable helpers they rest on are not part of this model.
- `dtiox_dummy` and the other dummies, Modbus packing, radio configuration, the flow monitor, UART helpers, demos,
  benchmarks and display code: no hard property, or an easier copy of one above.
