# Motion-triggered MJPEG pipeline: verified model

The repository captures MJPEG frames when a motion sensor fires and streams them over UDP to a viewer
that re-finds the frames in the byte stream. Four periodic tasks (detector, camera, transcoder, nvm) share
two single-producer single-consumer ring buffers and one bounded event queue, and are released by a timer
tick. This project models these parts in Dafny and proves that they agree with each other.

| file | models |
|---|---|
| `Types.dfy`, `Arithmetic.dfy` | C scalar types, result codes, subsequences; quotients and remainders |
| `StreamViewer.dfy` | the viewer's frame reassembly (`FrameTransform`) |
| `RingBuffers.dfy` | the ring macros: masked 32-bit arithmetic, the ring as a bounded queue |
| `FrameBuffers.dfy`, `Images.dfy`, `Transcoders.dfy`, `NvmTasks.dfy` | the C modules on the frame path, as classes over rings in memory |
| `ColorConversion.dfy` | the YUYV to RGB tables and loop |
| `Pipeline.dfy`, `PipelineProofs.dfy`, `PipelineTheorems.dfy` | camera, transcoder and nvm as an interleaved transition system, its invariant, and what holds of every run |
| `PipelinePasses.dfy` | one task's micro-steps add up to what the sequential code does |
| `Events.dfy`, `Detection.dfy`, `Cameras.dfy`, `Alerts.dfy` | the event queue, the detector, the camera state machine, and their agreement |
| `Osal.dfy` | the tick sequencer and its release accounting |
| `TimedPipeline.dfy`, `ScheduledPipeline.dfy`, `ScheduledRuns.dfy` | the frame path against the clock: every timing that meets the deadlines, what holds of all of them, and runs that exist |
| `FrameRates.dfy` | arrivals, backlogs and the exact rate |
| `AlertTiming.dfy` | detector, queue and camera in every timing |
| `Surveillance.dfy`, `WholeRuns.dfy` | all of it together, from sensor to viewer, and that such runs exist |

Code that updates objects in place is a class whose methods are proved equal to functions on values; the
theorems are about those functions, and the transition system uses the same ones.

Main results:

- **Viewer.** The loop computes the only decomposition of a byte stream into gaps without a start marker,
  frames that end at their first end marker, and an incomplete rest (`ParseSplits`, `SplitIsParse`); how the
  stream is cut into datagrams does not matter (`ChunkingIndependence`); after garbage at most one frame is
  spoiled, and exactly when the garbage left a frame open (`SelfSynchronisation`).
- **Every interleaving.** Each ring is a queue of size - 1 places, a slot held by a reader is never
  written, stale slot tails never hold a start marker, frames are conserved, and without loss the viewer
  has pushed exactly the payloads whose last byte was sent (`EndToEnd`). Each byte of a slot is handed to
  `sendto` once, lost or not (`HandedOverOnce`); with losses, frames recover, and
  the first of them is exact unless the bytes before left a frame open (`RecoveryAfterLoss`).
- **Detector and camera.** The detector is characterised by its samples and clock alone (`DetectedExactly`,
  `LostExactly`). From a state in which it agrees with the camera, a poll keeps the agreement if and only if
  the queue has room or the sample does not turn the alert (`AgreementStep`), so a whole run ends in
  agreement if and only if refused events have turned the alert an even number of times since the last
  accepted one (`AgreementByTurns`; `RefusedLost` gives a run in which a full queue breaks it). With the
  configured periods no send is refused: in any timing at most three events wait (`CameraFollowsAlert`), and
  at most two when the detector polls first in every tick (`CameraFollows`).
- **Rates.** In a timed run the tasks' micro-steps interleave freely with the ticks, and an instance only has
  to end before its next release. No such run drops a frame at the raw ring if and only if every m
  consecutive hyperperiods of six ticks bring at most 2m + 123 frames (`NoDropsExactly`, `ConfiguredRings`),
  and then every frame arrives, by a hyperperiod that its backlog determines (`EveryFrameArrives`).
- **From sensor to viewer.** In every run of the whole system, whatever the samples, the clock, the driver's
  frames and the timing, below that rate and without loss the viewer pushes exactly the frames that the
  camera kept while capturing, in order and in time, and each was kept as the detector's alert was around its
  tick (`SensorToViewer`, `FirstFrameArrives`). Such runs exist for every input (`WholeRunExists`).

Assumptions, in the system's terms:

- A driver buffer fits a slot (`bytesused` is at most FRAME_SIZE), and a camera payload has one start
  marker, at its start, and one end marker, at its end (`IsJpeg`).
- `sendto` fails or takes between one and all of the bytes it is given. Datagrams are lost or arrive in
  order. In `EndToEnd`, `EveryFrameArrives` and `SensorToViewer` none is lost and no send fails. A datagram that arrives
  reaches the viewer within the `sendto` step, so none is ever in flight.
- The readable side of the viewer's transform is drained: without a reader Node stops calling `_transform`
  once its buffer is full, and the stream then waits.
- Memory is sequentially consistent, a copy is a sequence of single-byte steps, and `sendto` takes its bytes
  in one step.
- Results about the schedule take one pass of the sequencer per tick and each released instance finishing
  before its next release; nothing is asked of the order in which released tasks run, nor that one ends
  within its tick. Every task also makes one pass when it is created, before it first waits for a release:
  that is tick 0, and the rings and the event queue are empty before it. Only `Alerts.CreditHolds`,
  `Alerts.CameraFollows` and `FirstFrameArrives` take an order, the detector's poll before the camera's
  receive, and say so.
- A pass of the camera may wait in `select`, which has no timeout, for as long as its deadline lets it. In
  the frame rates a shot is the frame that a capturing pass dequeues; a pass without one is a pass that is
  not capturing, or whose `select` or dequeue fails.
- One poll of the detector and one receive of the camera are single steps.
- `clock_gettime` fills in nanoseconds below 10^9. Of the doubles in which the elapsed time is compared only
  this is used: rounding keeps the order and leaves alone whole numbers and multiples of 1 / 2^30 that fit a
  significand (`RoundsToDouble`); it then never decides the comparison (`ElapsedIsExact`).

Two places where the code differs from what its documentation or names suggest, modelled as the code is:
`osal_task_start` marks slot `task_idx` and not slot `id` (utils/osal/osal.c:261); and the documented
state diagram sends the detected state to the timeout, while the code returns to detecting at once and
remembers the motion in a flag (src/detection/detection.c:156-163).

## Model

| member | source | states |
|---|---|---|
| `StreamViewer.IndexOf` | utils/stream-viewer/stream-viewer.js:26-27 | the first marker at or after an offset, -1 exactly when there is none |
| `StreamViewer.ParseSplits` | utils/stream-viewer/stream-viewer.js:24-32 | every input splits into gaps without SOI, frames ending at their first EOI and a rest with no whole frame, and the loop's frames and rest are those |
| `StreamViewer.SplitIsParse` | utils/stream-viewer/stream-viewer.js:24-32 | the converse: any such split is the one the loop finds |
| `StreamViewer.ParseAppend` | utils/stream-viewer/stream-viewer.js:21-35 | parsing B then C on what B left equals parsing B ++ C, markers across the cut included |
| `StreamViewer.ChunkingIndependence` | utils/stream-viewer/stream-viewer.js:21-35 | frames pushed and bytes kept do not depend on how the stream is cut into chunks |
| `StreamViewer.ParseStep` | utils/stream-viewer/stream-viewer.js:26-31 | one turn takes the bytes from the first SOI to the first EOI after it, at least four of them |
| `StreamViewer.ParseBlock` | utils/stream-viewer/stream-viewer.js:26-31 | a whole payload with part of a stale tail yields one frame, closing a frame left open if there is one, and leaves no frame open |
| `StreamViewer.ParsePartialBlock` | utils/stream-viewer/stream-viewer.js:26-31 | nothing is pushed before a payload's last byte |
| `StreamViewer.ParseBlocks` | utils/stream-viewer/stream-viewer.js:21-35 | consecutive slot blocks come out as exactly their payloads |
| `StreamViewer.SelfSynchronisation` | utils/stream-viewer/stream-viewer.js:26-31 | after any garbage, n intact blocks give n frames, all exact from the second on, the first exact if and only if the garbage left no frame open |
| `StreamViewer.OneFrameInBytes` | utils/stream-viewer/stream-viewer.js:12-13 | FF D8, any body without FF D9, FF D9 comes out as exactly itself |
| `StreamViewer.JpegInBytes` | utils/stream-viewer/stream-viewer.js:12-13 | what a camera payload is, byte by byte |
| `StreamViewer.FrameTransform.Transform` | utils/stream-viewer/stream-viewer.js:21-35 | the method on the object's field is the function the results are about; the kept bytes hold no whole frame; termination by four bytes a turn |
| `RingBuffers.AndMask` | utils/ringbuffer/ringbuffer.h:43-64 | masking with 2^k - 1 is reduction modulo 2^k |
| `RingBuffers.MasksAreModular` | utils/ringbuffer/ringbuffer.h:43-66 | for every power-of-two size and all pointers in range, increment and wrapped difference are modular |
| `RingBuffers.EmptyAndFull` | utils/ringbuffer/ringbuffer.h:64-66 | empty and full hold exactly at 0 and size - 1 queued items |
| `RingBuffers.IncWriteAppends` | utils/ringbuffer/ringbuffer.h:43-53 | moving the write pointer appends the slot it stood on |
| `RingBuffers.IncReadDrops` | utils/ringbuffer/ringbuffer.h:55-60 | moving the read pointer removes the oldest slot |
| `RingBuffers.PutKeepsContents` | utils/ringbuffer/ringbuffer.h:44-53 | storing into the free slot does not change the queue |
| `RingBuffers.RingBuffer.Write` | utils/ringbuffer/ringbuffer.h:44-48 | store then move: the value is appended unless the ring is full |
| `RingBuffers.RingBuffer.Read` | utils/ringbuffer/ringbuffer.h:56-60 | load then move: the oldest value comes out |
| `RingBuffers.RingBuffer.Status` | utils/ringbuffer/ringbuffer.h:64-66 | length, empty and full answer for the queue |
| `FrameBuffers.CaptureAppends` | middleware/frameBuffer/framebuffer.c:136-145 | a captured payload is appended over the stale slot, or dropped exactly when the ring is full |
| `FrameBuffers.FrameBuffer.WriteFrame` | middleware/frameBuffer/framebuffer.c:112-161 | the ring and the result for every answer of select, dequeue and requeue, frames stored only when asked |
| `FrameBuffers.FrameBuffer.GetFramePtr` | middleware/frameBuffer/framebuffer.c:72-82 | the oldest slot without moving it, or SYS_IGNORE when empty |
| `FrameBuffers.FrameBuffer.GetFrame` | middleware/frameBuffer/framebuffer.c:60-70 | the oldest frame copied out and removed |
| `FrameBuffers.FrameBuffer.FreeFrame` | middleware/frameBuffer/framebuffer.c:84-94 | the oldest frame removed, SYS_FAILURE exactly when empty |
| `Images.StoreAppends` | middleware/image/image.c:72-86 | a converted frame is appended, or dropped exactly when the ring is full |
| `Images.ImageBuffer.StartRead` | middleware/image/image.c:39-54 | the oldest slot without moving it, or SYS_IGNORE when empty |
| `Images.ImageBuffer.EndRead` | middleware/image/image.c:55-70 | the oldest slot removed, SYS_IGNORE exactly when empty |
| `Images.ImageBuffer.Write` | middleware/image/image.c:72-86 | the store and its result |
| `Images.ImageConvert` | middleware/image/image.c:88-151 | which format pairs are ignored, refused and converted, and the converted frame |
| `Images.ImageSave` | middleware/image/image.c:186-223 | datagrams are consecutive pieces, each the answer to a request for 1024 bytes or what is left; it fails exactly when the socket or a sendto does, else all bytes went out once in order; a network that takes everything gets (size + 1023) / 1024 datagrams, all but the last of 1024 bytes |
| `Transcoders.ProcessFramesMoves` | src/transcoder/transcoder.c:58-71 | the oldest raw frame moves to the end of the image queue, or is dropped exactly when that is full |
| `Transcoders.PassesMove` | src/transcoder/transcoder.c:36-39 | the same for any number of passes |
| `Transcoders.Transcoder.ProcessOne` | src/transcoder/transcoder.c:58-71 | the method does that to both rings, converting the whole slot, stale tail included |
| `Transcoders.Transcoder.Release` | src/transcoder/transcoder.c:36-39 | a release moves the first two raw frames, or as many as there are, to the image queue as far as it has room, and drops the others of them |
| `NvmTasks.SendOldestDrops` | src/nvm/nvm.c:41-49 | a turn removes the oldest image frame, sent or not |
| `NvmTasks.Nvm.SendOne` | src/nvm/nvm.c:41-49 | the oldest slot is handed to sendto in requests of 1024 bytes or what is left; it fails exactly when the socket or a sendto does, else all of it went out; the slot is released either way |
| `NvmTasks.Nvm.Release` | src/nvm/nvm.c:39-50 | a release takes the two oldest slots; what goes out is a beginning of the first, then of the second; all of both when no send fails, and none fails on a socket and networks that answer no error |
| `ColorConversion.ConstantsAreRounded` | middleware/image/color_lut.c:10-15 | each constant is its decimal coefficient scaled by 32768, rounded to the nearest integer |
| `ColorConversion.TruncationIsRounding` | middleware/image/image.c:164-177 | truncating division then clamp equals clamp of round-half-up |
| `ColorConversion.SumsFit` | middleware/image/image.c:160-162 | no intermediate sum leaves the 32-bit int |
| `ColorConversion.PixelIsAccurate` | middleware/image/image.c:158-183 | every channel is within 0.503 of the clamped rational formula |
| `ColorConversion.Yuv2Rgb` | middleware/image/image.c:158-183 | the table code computes the rounded pixel for all inputs |
| `ColorConversion.PixelInNumbers` | middleware/image/color_lut.c:10-15 | that pixel with the constants written out |
| `ColorConversion.ConvertYuyv` | middleware/image/image.c:122-135 | every output byte is the channel of its pixel with the pair's shared chroma; nothing else is written |
| `PipelineProofs.StepKeepsInv` | middleware/frameBuffer/framebuffer.c:134-146 | every micro-step of camera, transcoder, nvm and viewer keeps the invariant of the whole path |
| `PipelineProofs.RunKeepsInv` | src/transcoder/transcoder.c:58-71 | so every state of every interleaving has it |
| `PipelineProofs.FilledSlotIsBlock` | middleware/frameBuffer/framebuffer.c:138-138 | a payload over stale bytes is a block whatever its length |
| `PipelineProofs.InitIsBlank` | utils/ringbuffer/ringbuffer.h:32-41 | at power-up both rings are empty and every byte of every slot is zero |
| `PipelineTheorems.NoStepOutOfBounds` | utils/ringbuffer/ringbuffer.h:43-66 | no reachable step touches memory outside a ring, a slot or a frame |
| `PipelineTheorems.StaleTailsHoldNoSoi` | middleware/frameBuffer/framebuffer.c:138-140 | in every run, no slot outside a copy in progress has an SOI above index 0 |
| `PipelineTheorems.RingsAreBoundedQueues` | utils/ringbuffer/ringbuffer.h:43-66 | every micro-step is a step of two bounded queues, and the ring tests answer for them: drops exactly when full, releases never refused |
| `PipelineTheorems.HeldSlotsNeverChange` | src/nvm/nvm.c:41-49 | a slot held by a reader is not written until it is released, over any stretch of any run |
| `PipelineTheorems.FramesAreConserved` | middleware/image/image.c:72-86 | offered frames = dropped + in hand + in rings + sent; sent frames are a subsequence of the offered ones |
| `PipelineTheorems.RunIsLossless` | middleware/image/image.c:203-220 | without loss, what has arrived of each frame is exactly the part of its one unchanged slot handed to sendto |
| `PipelineTheorems.HandedOverOnce` | middleware/image/image.c:203-220 | in every run, whatever is lost or fails: since nvm took its slot each sendto took the next piece of it, of at most the chunk size, arrived or not; what arrived is exactly the pieces that did; all of the slot was handed over unless a send failed |
| `PipelineTheorems.EndToEnd` | utils/stream-viewer/stream-viewer.js:21-35 | in every lossless interleaving the viewer's output is exactly the queued payloads whose last byte was sent |
| `PipelineTheorems.RecoveryAfterLoss` | middleware/image/image.c:211-216 | with any losses and failed sends, consecutive intact frames come out consecutively after what the bytes before gave; the first is exact if and only if those bytes left no frame open, and otherwise closes that frame |
| `PipelinePasses.CameraPass` | middleware/frameBuffer/framebuffer.c:134-146 | a pass of the camera, its own micro-steps alone and begun once, adds up to the sequential capture |
| `PipelinePasses.TranscoderPass` | src/transcoder/transcoder.c:58-71 | a pass of the transcoder, its own micro-steps alone and begun once, adds up to process_frames |
| `PipelinePasses.NvmPass` | src/nvm/nvm.c:41-49 | a turn of nvm, its own micro-steps alone and begun once, hands over any datagrams image_save can produce, any of them lost, and releases the slot |
| `Events.EventQueue.Send` | utils/osal/osal.c:562-565 | a full queue refuses the message and stays |
| `Events.EventQueue.Receive` | utils/osal/osal.c:567-570 | the oldest message, or failure exactly when empty |
| `Detection.ElapsedIsExact` | src/detection/detection.c:189-192 | the elapsed-time test, rounded to double at every operation, is the nanosecond comparison |
| `Detection.FailedReadingIsMotion` | src/detection/detection.c:146-147 | a failed reading counts as motion |
| `Detection.MotionDetector.ProcessNextState` | src/detection/detection.c:236-256 | the state, sub-state and flag after the sample |
| `Detection.MotionDetector.Task` | src/detection/detection.c:144-213 | the loop body is the poll function the results are about, and sends what it says |
| `Detection.EveryStateExplained` | src/detection/detection.c:144-213 | the detector's state after any polls, told from samples and clock alone |
| `Detection.DetectedExactly` | src/detection/detection.c:156-164 | DETECTED is sent exactly at a high sample after a low one, also during and after the hold-off |
| `Detection.LostExactly` | src/detection/detection.c:174-207 | LOST is sent exactly two polls after the first reading five seconds past the start of an unbroken low stretch |
| `Detection.LoopHead` | src/detection/detection.c:144-213 | motion is remembered only while detecting, exactly after a high sample; no timeout waits unentered |
| `Detection.EventsAlternate` | src/detection/detection.c:156-172 | the events of every run form a prefix of (DETECTED+ LOST)* |
| `Detection.EventsAreSpaced` | src/detection/detection.c:156-172 | a LOST follows the event before it by at least four polls, anything follows a DETECTED by at least two |
| `Cameras.CameraTask.Pass` | src/camera/camera.c:161-218 | one event at most, then one frame, stored and counted only while capturing |
| `Alerts.Agreement` | src/camera/camera.c:165-187 | camera after its queue equals detector alert if and only if the last accepted event is the last tried one; always while no send is refused |
| `Alerts.AgreementStep` | src/detection/detection.c:156-171 | from any agreement a poll keeps it if and only if the queue has room or the sample does not turn the alert on or off |
| `Alerts.AgreementReturns` | src/detection/detection.c:156-171 | a lost agreement returns exactly with a poll whose event is accepted or, refused, turns the alert back |
| `Alerts.PassKeepsAgreement` | src/camera/camera.c:161-187 | a pass of the camera never changes whether they agree |
| `Alerts.AgreementByTurns` | src/detection/detection.c:156-171 | a whole run ends in agreement if and only if refused events have turned the alert an even number of times since the last accepted one |
| `Alerts.DisagreementIsPending` | src/camera/camera.c:191-204 | without refused sends, capturing off alert means a LOST is queued, idling on alert a DETECTED |
| `Alerts.RefusedLost` | src/detection/detection.c:166-171 | a run without the camera in which a LOST meets a full queue of ten, is refused, and the camera will keep capturing |
| `Alerts.CreditHolds` | src/main.c:45-53 | the credit invariant behind the queue bound, when each tick's poll comes before the camera's receive |
| `Alerts.CameraFollows` | src/main.c:45-53 | in that order, for every trace and clock: no send is refused, the queue holds at most one event between ticks and two within one, and the camera has received exactly the events of all but at most the last two polls |
| `Osal.SequencePosts` | utils/osal/osal.c:676-688 | one pass posts exactly the used slots whose period divides the tick, and marks slot task_idx running if there is one, no other |
| `Osal.TaskSequencer.GenericSequencer` | utils/osal/osal.c:676-688 | the loop over the arrays is that pass |
| `Osal.TaskSequencer.Tick` | utils/osal/osal.c:627-656 | the timer signal advances the tick and causes one pass |
| `Osal.TaskSequencer.TaskStart` | utils/osal/osal.c:248-264 | semaphore id goes up by one, slot task_idx is marked running, nothing else changes |
| `Osal.TaskSequencer.Suspend` | utils/osal/osal.c:292-302 | the slot is marked suspended |
| `Osal.TaskSequencer.SemWait` | utils/osal/osal.c:402-410 | a wait passes exactly when the semaphore is positive, and takes one from it |
| `Osal.TaskSequencer.SetPeriod` | utils/osal/osal.c:434-441 | the period in ticks |
| `Osal.TaskSequencer.TaskCreate` | utils/osal/osal.c:200-237 | the next slot gets its period and an empty semaphore |
| `Osal.ReleaseAccounting` | utils/osal/osal.c:676-688 | in every run task i is posted floor(n / period) times by tick n, posts = waits passed in the run + semaphore value, its slot is marked suspended, and the fifth slot, never posted, is marked running from the first post on |
| `Osal.StepsAreFree` | utils/osal/osal.c:292-302 | a tick or a suspension may come at any moment, and a wait passes whenever its semaphore is positive |
| `Osal.ReleasePattern` | utils/osal/osal.c:682-685 | a tick posts a task exactly when its period divides it, and the pattern repeats with any common multiple |
| `Osal.ConfiguredReleases` | src/main.c:45-69 | main's periods are 11, 22, 66 and 66 ms: 1, 2, 6 and 6 ticks |
| `AlertTiming.PollEarns` | src/detection/detection.c:149-208 | what a poll can send is paid for by the polls before it: the allowance of the detector's state |
| `AlertTiming.PollInStep` | src/detection/detection.c:156-172 | a poll keeps the allowance invariant and is never refused, wherever the camera is in its period |
| `AlertTiming.ReceiveInStep` | src/camera/camera.c:163-187 | a receive keeps it, early or late |
| `AlertTiming.AtMostThreeWait` | src/main.c:45-53 | so in any timing at most three events wait |
| `AlertTiming.ReceivedWhat` | src/camera/camera.c:163-187 | what the camera has received is exactly what the detector had sent after some poll of the last few, and its state is the alert of then |
| `TimedPipeline.StepLoad` | middleware/frameBuffer/framebuffer.c:134-146 | every micro-step, counted: what it does to the frames in each place |
| `TimedPipeline.TicksInNumbers` | utils/osal/osal.c:676-688 | what holds up a tick, and what a tick releases: the camera every second, the others two turns every sixth |
| `TimedPipeline.StepsAreFree` | utils/osal/osal.c:676-688 | between ticks any step may come at any moment, if its task was released for what it begins |
| `TimedPipeline.RunIsSteady` | src/nvm/nvm.c:39-50 | in every timed run the frames offered are those of the camera's passes, and the image ring never drops one, whatever arrives |
| `TimedPipeline.RunInTime` | src/transcoder/transcoder.c:36-39 | while the peaks fit, no timing drops a frame at the raw ring or leaves more behind than the worst one |
| `FrameRates.BacklogIsExcess` | src/transcoder/transcoder.c:36-39 | the worst backlog is the largest excess of arrivals over service in a window ending now |
| `FrameRates.WaitingExactly` | src/main.c:53-69 | the worst backlog is at most b + 2 at every hyperperiod if and only if every m bring at most 2m + b |
| `FrameRates.PeaksExactly` | src/main.c:53-69 | the worst moments fit a ring's room if and only if m hyperperiods bring at most room + 2(m - 2), one at most room |
| `FrameRates.ConfiguredRate` | src/main.c:53-69 | for the 127 places of the raw ring that is 2m + 123 |
| `ScheduledPipeline.TimedRunIsRun` | utils/osal/osal.c:676-688 | without its ticks a timed run is one of the interleavings |
| `ScheduledPipeline.RunOnTime` | src/nvm/nvm.c:39-50 | in every timed run the frames of earlier hyperperiods are freed and sent at the pace of two a hyperperiod |
| `ScheduledPipeline.EveryFrameArrives` | src/main.c:53-69 | in every timed run whose peaks fit, without loss: no drops, the viewer's output is the first frames of the camera's passes, all of them by the hyperperiod their backlog determines, and at rest only frames in the rings are missing, no more than the worst timing leaves |
| `ScheduledRuns.NoDropsExactly` | middleware/frameBuffer/framebuffer.c:136-145 | for every ring size: no timed run drops a frame if and only if the windows fit; beyond that some timing drops one |
| `ScheduledRuns.ConfiguredRings` | src/main.c:53-69 | with 128 and 256 slots no timed run drops at the raw ring if and only if every m hyperperiods bring at most 2m + 123, and none ever drops at the image ring |
| `ScheduledRuns.FullRateLastsExactly` | src/main.c:53-69 | a frame at every pass of the camera is dropped by no timing for exactly 123 hyperperiods |
| `ScheduledRuns.DeadlinesCanBeMet` | utils/osal/osal.c:676-688 | for every sequence of frames there is a timed run that meets all deadlines, and without a drop it leaves the worst backlog |
| `Surveillance.PathIsTimed` | src/camera/camera.c:161-218 | the frame path of a run of the whole system is a timed run on the frames its camera kept |
| `Surveillance.EventsAreFree` | utils/osal/osal.c:676-688 | polls, receives and steps come in any order; only the deadlines hold up a tick |
| `Surveillance.CameraFollowsAlert` | src/camera/camera.c:161-204 | in every run of the whole system no event is refused, at most three wait, and each pass keeps its frame as some poll left the alert, from the third before its tick's to the first after |
| `Surveillance.SensorToViewer` | src/main.c:45-69 | in every run of the whole system whose kept frames stay within 2m + b, b at most 123, without loss: no drops, the viewer has exactly the first kept frames in order, those of all but the last (b + 7) / 2 hyperperiods, all but b + 4 at rest, each kept as the alert was |
| `Surveillance.FirstFrameArrives` | src/camera/camera.c:161-218 | in every run in which the detector polls first: the first pass keeps its frame if and only if the first sample is high, and after five hyperperiods that frame is the viewer's first, and its only one when no other came |
| `WholeRuns.WholeRunExists` | src/main.c:45-69 | for every samples, clock and driver a run of the whole system meets every deadline |

## Left out

- V4L2, GPIO, sockets and the HTTP output: only their answers (a buffer, a sample, a send result) appear, as parameters.
- Initialisation of the camera, rings, threads, priorities and mutexes: straight-line configuration; imagebuffer_init runs twice because its flag is never set, before any frame is stored.
- Shutdown, task deletion and the EXIT states: flags are set from another thread in mid-iteration; the model is of steady running. The camera's EXITING state is never entered.
- The file-saving build of image_save and file_write_blocking: not configured.
- osal_task_wait_start, the SIMPLE_TASKS demo, and more than four tasks: not used, and with five tasks slot task_idx would not exist.
- Late or coalesced ticks, and the wrap-around of the 64-bit tick and of semaphore values: release counts take one pass per tick and values that stay in range.
- Reordering or duplication of datagrams by the network.
- mjpeg_convert, syslog and the build files: no property worth stating.
- Images.ImageConvert: requires a destination of 3/2 of the source for YUYV, which the configured MJPEG build never reaches.
- Images.ImageSave: takes the size as a natural number, so the narrowing to ssize_t is not modelled.
- Cameras.CameraTask.Pass: a frame dropped at a full ring still counts in numWrites, as in the code.
