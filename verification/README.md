# Verified model of the climate bridge

This project models the logic of an air-conditioner bridge that sits between a
wall panel and a main board on two 9600 baud UART lines, and proves properties
of that model with Dafny. It covers the frame protocol and its two command
rewriters, byte-at-a-time framing, the bridge engine with its command overlay
(five tasks sharing state under one lock), the persistent flash capture ring
and its export, the generated UART waveform with its two readers, and the
telemetry ring.

`dafny verify dfyconfig.toml` checks everything.

## How it is organised

| file | module | what it models |
|---|---|---|
| `Wire.dfy` | `Wire` | bytes, XOR of a byte string, lists of chunks |
| `Protocol.dfy` | `Protocol` | `main/ac_protocol.c`: checks, parsers, the two rewriters, in place on arrays |
| `ControlAlgebra.dfy` | `ControlAlgebra` | laws of the rewriters, the bench acknowledgement, echo and confirmation tests |
| `Commands.dfy` | `Commands` | merging of queued requests |
| `Framing.dfy` | `Framing` | the receiver's frame buffer (a class) and the offline extractor |
| `Bridge.dfy` | `Bridge` | the bridge engine: a class whose methods are the locked steps, each proved to be a step function on values |
| `BridgeRuns.dfy`, `BridgeForwarding.dfy`, `BridgeReport.dfy` | same names | theorems over every interleaving of those steps: invariants, what is passed on, what is reported |
| `Replacement.dfy`, `EventMarker.dfy` | same names | overlay frames on the UART-regenerated route, and the event marker they carry |
| `Shown.dfy`, `CommandFate.dfy` | same names | what a frame shows of the commands accepted so far, in bytes, and which frames confirm or cancel a command |
| `Acceptance.dfy` | `Acceptance` | which requests are accepted, told from the times and bytes of the frames published |
| `Route.dfy`, `Interlock.dfy` | same names | who owns the line to the main board and what each byte writes; takeover, interlock, and what follows the end of a command |
| `StateReport.dfy` | `StateReport` | the reported state and counters, in bytes of the frames published |
| `LegalRuns.dfy` | `LegalRuns` | legal runs, built step by step: a stale confirmation, a lost marker, a mixed frame, commands that nothing can confirm |
| `ShiftRegister.dfy`, `Crc.dfy` | same names | the record check value and its strength |
| `RecordCodec.dfy` | `RecordCodec` | the 128-byte flash record |
| `CaptureStore.dfy` | `CaptureStore` | the capture ring: a class over the partition's bytes and a RAM index |
| `CaptureRuns.dfy` | `CaptureRuns` | runs with flash errors and power cuts, recovery |
| `Retention.dfy`, `Export.dfy` | same names | what the ring retains, and reading it with a cursor |
| `Waveform.dfy`, `Decoding.dfy` | same names | the waveform encoder, the offline decoder, the software sampler; what the decoder makes of any waveform |
| `KnownAnswers.dfy` | `KnownAnswers` | captured frames, their listed rewrites, and the CRC-32 check value |
| `Telemetry.dfy` | `Telemetry` | the telemetry ring as a refinement of an unbounded log |

State that the firmware updates in place is a class; each of its methods is
proved equal to a pure step function, and the theorems are about those
functions. A run is a list of events, one locked step or one received byte at
a time, so a theorem over all runs covers every interleaving of the tasks.

The theorems hold for every build profile that meets their conditions. The
profiles that exist are named in `Bridge`: `BRIDGE` is transparent, `MITM_NTS`
forwards in hardware and controls through the panel loop, and `REGENERATED` is
the control variant that regenerates panel frames on the UART. `TransparentImage`,
`ControlImage` and `RegeneratedImage` instantiate the forwarding theorems at them.

### Assumptions

- One step holds the lock from beginning to end; the clock never runs
  backwards (`Legal`), and a stream task publishes a completed frame before it
  reads its next byte (`Enabled`). The firmware reads the clock of a queued
  command, a publication or a watchdog round just before it takes the lock
  (`main/bridge_service.c`, lines 1037, 1074, 1868 and 2117), so such a time can
  precede the step before it by the wait for the lock; a step of the model reads
  the clock as it takes the lock. Only `NoCommandOutlivesTheWatchdog` and
  `TimedOutOnlyWhenLate` depend on this.
- Flash: a program operation that fails or is cut leaves its slot as it was or
  unreadable, unless the cut comes after the record is complete; a failed erase
  changes nothing; a cut erase leaves each slot of the sector as it was, erased
  or unreadable (`CaptureRuns.Possible`). In the theorems over runs a
  reboot reads every slot; `ReadErrorsMatterExactly` and `SoundAfterReadErrors`
  say what a boot scan with read errors restores and what the runs after it do.
- The capture partition has at least two sectors (the partition table gives
  28). `OneSectorRestarts` shows why.
- Sequence numbers of records stay below 2^32 - 1 in the theorems over runs;
  `NumbersWrap` and `BootWraps` say what happens at the end of the numbers.

### Where the code does not do what one would expect

Each of these is proved as stated, with the exact condition where there is one.

- Merging two queued requests is not the same as sending them one after the
  other; `MergeEqualsSequenceExactly` says for every valid panel frame, cold
  panels and raw codes included, when it is. `OnThenOffDiffers`,
  `SetpointThenOnDiffers`, `RawThenFanDiffers` and `FanThenCoolDiffers` are inputs
  for which it is not.
- An accepted command may be one that no main frame confirms.
  `InForceConfirmableExactly` says for every run when a pending command can still
  be confirmed, `AcceptedConfirmableExactly` which requests keep it so.
  `SetpointThenOtherModeNeverConfirms`, `DryThenSetpointIsStranded` and
  `SetpointThenRawIsStranded` are ways to lose it.
- A main frame completed before a command was queued, but published after it,
  can confirm that command. `ConfirmedFreshExactly` says when the confirming
  frame is newer than the command, `StaleFrameDecides` what a waiting frame does,
  and `StaleFrameConfirms` constructs legal runs in which it confirms.
- The commuting square between the rewriters and the bench acknowledgement
  closes on bytes 8 and 21 exactly when the request leaves the power bit alone
  (`RewriteCommutesWithAck`).
- An idle flush of the panel stream in the middle of a frame whose replacement
  has been written lets the rest of the source frame follow the overlay frame
  (`FlushAfterReplacementMixes`, and `FlushMixesFrames` as a legal run).
  `WholeExactlyWhenUncut` is the exact condition for whole frames; flushes between
  frames are harmless (`FlushesBetweenFramesAreUncut`).
- A command queued in the middle of a panel frame loses its event marker
  (`MarkerIsLost` is such a run); `MarkerSentFromBetweenFrames` and
  `MarkerSentExactly` say exactly which commands have theirs sent.
- A takeover whose command ends between its two locked steps leaves the hardware
  route off although no command is pending, until the next end of a command or
  loss of the interlock (`TakeoverExactly`, `MirrorExactly`); the processor then
  forwards the bytes itself (`UntilNextCommand`).
- The write after record 2^32 - 1 is lost (`NumbersWrap`).
- The receiver drops the third byte of a broken header without trying it as a
  new start, so it loses a frame that the offline extractor finds
  (`StrayHeaderLosesFrame`); `CompletesExactly` says in which states it recovers
  the next frame.
- A boot scan that cannot read the latest record goes on with a number that is
  not above every stored one (`ReadErrorsMatterExactly`).
- The reported record counts go stale when a program operation fails right
  after an erase, and stay so until the next append or boot
  (`InfoCurrentExactly`).
- A telemetry cursor at the greatest 64-bit value reads from the beginning
  again (`Telemetry.Ring.GetAfter`).

## Model

| member | source | states |
|---|---|---|
| Protocol.Finalize | main/ac_protocol.c:45-55 | in place on the array: a frame of a known size gets its check byte, anything else is left alone |
| Protocol.FinalizedIsValid | main/ac_protocol.c:17-55 | finalizing makes any frame of a known size pass the checksum test and touches only its last byte |
| Protocol.ValidIsFinalized | main/ac_protocol.c:17-55 | the check byte is unique: finalizing a valid frame changes nothing |
| Protocol.ComputeXor | main/ac_protocol.c:5-15 | the loop computes the XOR of the first `length` bytes |
| KnownAnswers.PanelCaptures | tests/protocol_host_test.c:9-26 | every frame captured from the panel is a valid panel frame |
| KnownAnswers.MainCaptures | tests/protocol_host_test.c:28-42 | every frame captured from the main board is a valid main frame |
| Protocol.ApplyControl | main/ac_protocol.c:182-251 | all or nothing, in place: refuses exactly when the frame or a requested value is invalid and then leaves the frame untouched, otherwise leaves the rewritten valid frame |
| KnownAnswers.TurnedOnAt32 | tests/protocol_host_test.c:186-200 | the captured OFF frame turned on at 32 degrees, byte for byte |
| KnownAnswers.SwitchedToDry | tests/protocol_host_test.c:202-208 | then switched to Dry |
| KnownAnswers.SwitchedToFan | tests/protocol_host_test.c:210-215 | then to FAN, with the panel-side code 0x22 |
| KnownAnswers.SwitchedToCoolHigh | tests/protocol_host_test.c:217-224 | then to Cool with the fan on High |
| KnownAnswers.TurnedOff | tests/protocol_host_test.c:226-233 | then turned off |
| KnownAnswers.FeaturesSet | tests/protocol_host_test.c:235-244 | then with quiet, Fahrenheit and timer set |
| KnownAnswers.ColdPanelTurnedOn | tests/protocol_host_test.c:246-261 | a cold panel turned on gives the frame captured as the panel was turned on |
| Protocol.ApplyControlMain | main/ac_protocol.c:253-321 | the same for main frames |
| ControlAlgebra.PanelRewriteShape | main/ac_protocol.c:182-251 | a rewritten valid panel frame is a valid panel frame and differs only in bytes 3, 4, 5, 6, 9 and the check byte |
| ControlAlgebra.MainRewriteShape | main/ac_protocol.c:253-321 | a rewritten valid main frame is a valid main frame and differs only in bytes 3 to 6, 14 and the check byte |
| ControlAlgebra.FlagsPreserveUnasked | main/ac_protocol.c:215-246 | every requested flag bit takes the requested value and every other bit of the flag byte is preserved |
| ControlAlgebra.PanelRewriteIdempotent | main/ac_protocol.c:182-251 | applying the same request to its own result changes nothing |
| ControlAlgebra.MainRewriteIdempotent | main/ac_protocol.c:253-321 | the same for main frames |
| ControlAlgebra.EncodedSetpointIsNearest | main/ac_protocol.c:146-151 | the companion byte of a setpoint is its Fahrenheit value rounded to the nearest degree |
| ControlAlgebra.Acknowledge | main/bridge_service.c:795-808 | the bench reply is updated in place from the last valid panel frame and otherwise left alone |
| ControlAlgebra.ReplyFollowsPanel | main/bridge_service.c:795-808 | the reply shows the panel's state byte by byte, operation 2 exactly with the power on, and follows only a panel frame that was heard and is valid |
| ControlAlgebra.AckIsMainFrame | main/bridge_service.c:795-808 | an acknowledgement is always a valid main frame |
| ControlAlgebra.CodeCommutes | main/ac_protocol.c:57-65 | the 0x22/0x21 normalization commutes with every code rewrite |
| ControlAlgebra.CodeReturns | main/ac_protocol.c:57-65 | the square back: rewriting on the main board's side and translating back is the panel-side rewrite exactly unless that leaves 0x21 |
| ControlAlgebra.CodesAreCaptured | main/ac_protocol.c:153-180 | a request for a mode or fan leaves one of the four captured panel codes, which spells the mode and in Cool the fan asked for, and the square back closes |
| ControlAlgebra.OtherCodes | main/ac_protocol.c:199-217 | any other request leaves its raw code, the cold-start code or the code that was there |
| ControlAlgebra.PanelRewriteValues | main/ac_protocol.c:182-251 | marker, temperature and Fahrenheit byte of a rewritten panel frame: as asked, cold-started at 18, or unchanged |
| ControlAlgebra.MainRewriteValues | main/ac_protocol.c:253-321 | the same for main frames |
| ControlAlgebra.RewriteCommutesWithAck | main/ac_protocol.c:182-321 | commuting square: rewriting a panel frame and acknowledging it, or acknowledging it and rewriting the acknowledgement, both succeed or both refuse and agree on every byte but 8 and 21, and on those exactly when the power bit does not change |
| ControlAlgebra.RewriteOutcome | main/bridge_service.c:1209-1243 | an accepted rewrite is recognised as an echo exactly when its raw code is consistent, and its acknowledgement passes the confirmation test exactly when also a setpoint only goes into Cool |
| ControlAlgebra.ConfirmableExactly | main/bridge_service.c:1099-1133 | some valid main frame confirms a request if and only if the request is consistent in itself |
| Commands.FoldIsLastWriterWins | main/bridge_service.c:2136-2166 | merging request after request is the last-writer-wins reading of the whole history, raw codes and modes or fans retiring each other |
| Commands.FoldedIsAdmissible | main/bridge_service.c:2092-2166 | a pending request passes the range checks, never asks for the timer, and mixes a raw code with mode or fan only if one single request did |
| Commands.SetpointThenOtherModeNeverConfirms | main/bridge_service.c:2136-2166 | a setpoint merged with a later other mode is confirmed by no main frame at all |
| Commands.MergeConfirmableExactly | main/bridge_service.c:2136-2166 | merged into a confirmable request, another gives a confirmable one if and only if its raw code is consistent, it gives no other mode than Cool to a setpoint asked for before or now, and it asks for no setpoint over a pending other mode that it leaves in force |
| Commands.DryThenSetpointUnconfirmable | main/bridge_service.c:2127-2135 | Dry and a setpoint are each confirmable, their merge is not |
| Commands.SetpointThenRawUnconfirmable | main/bridge_service.c:2136-2166 | a setpoint and a raw code for Dry are each confirmable, their merge is not |
| Commands.MergeEqualsSequenceExactly | main/bridge_service.c:2136-2166 | on every valid panel frame and for any two requests in range, sending their merge equals sending them in turn if and only if a stated condition on code, remembered temperature and the requests holds; cold start and raw codes are part of it |
| Commands.OnThenOffDiffers | main/ac_protocol.c:199-214 | power on, then power off: a panel without a setpoint is left cold-started by the sequence but not by the merge |
| Commands.SetpointThenOnDiffers | main/ac_protocol.c:199-214 | a setpoint, then power on, on a panel without a setpoint: merge and sequence agree exactly when the code already is the cold-start code |
| Commands.RawThenFanDiffers | main/bridge_service.c:2146-2166 | a raw code, then a fan, in Dry: the merge drops the raw code, the sequence does not |
| Commands.FanThenCoolDiffers | main/bridge_service.c:2146-2166 | a fan, then Cool, in Dry: the merge keeps the fan, the sequence loses it |
| Shown.ConfirmsExactly | main/bridge_service.c:1099-1133 | the confirmation test is: the bytes of the main frame show what the last writer of every field in force asked for |
| Shown.EchoesExactly | main/bridge_service.c:1209-1243 | the echo test is: the bytes of the panel frame contradict nothing in force |
| Bridge.MergeInto | main/bridge_service.c:2136-2166 | the field-by-field update computes the merge |
| Framing.FrameStream.ConsumeByte | main/bridge_service.c:1580-1653 | the buffer, the retry loop and the completed frame are exactly one step of the reaction function; the retry terminates and the overflow branch is dead |
| Framing.FrameStream.Flush | main/bridge_service.c:1556-1578 | an idle stream loses its partial frame and keeps its synchronisation |
| Framing.ConsumeKeepsWellformed | main/bridge_service.c:1580-1653 | on any byte the buffer stays a proper prefix of a frame with a good header, strictly shorter than the size it announces |
| Framing.FramesAreDisjointSlices | main/bridge_service.c:1580-1653 | on any input at all the frames handed on are disjoint slices of it in stream order |
| Framing.SynchronizedExactly | main/bridge_service.c:1642-1648 | the first frame a new receiver hands on is valid, and it counts as synchronized exactly from then on |
| Framing.WholeIsHandedOn | main/bridge_service.c:1640-1652 | bytes of an announced size are handed on at the last one exactly if they are valid or the receiver is synchronized |
| Framing.StreamYieldsItsFrames | main/bridge_service.c:1580-1653 | any mix of valid frames and noise without the first header byte yields exactly its frames, in order |
| Framing.CompleteFrames | tools/analyze_protocol.py:31-45 | the offline loop computes the extraction function |
| Framing.ExtractorAgreesWithReceiver | tools/analyze_protocol.py:31-45 | on any such mix the offline extractor and the device read the same frames |
| Framing.CompletesExactly | main/bridge_service.c:1580-1653 | in any state the receiver can be in, a valid frame is completed at its own end if and only if at most one byte is held as it begins |
| Framing.StrayHeaderLosesFrame | main/bridge_service.c:1631-1639 | right behind a stray header any frame goes uncompleted although the extractor finds it, and nothing at all is completed if it holds no other first header byte |
| Bridge.BridgeService.PreparePanelFrame | main/bridge_service.c:1259-1282 | snapshot and private rewrite of the last panel frame |
| Bridge.BridgeService.HandlePanelIndex | main/bridge_service.c:1284-1343 | one panel byte goes out as it is, as part of a prepared frame, as a whole prepared frame, or not at all, as the route says |
| Bridge.BridgeService.Overrule | main/bridge_service.c:1446-1498 | a changed event frame from the panel that is no echo cancels the pending command |
| Bridge.BridgeService.SpendMarker | main/bridge_service.c:1494-1554 | a completed panel frame spends the event marker |
| Bridge.BridgeService.PanelByte | main/bridge_service.c:1580-1653 | one byte from the panel is exactly one step of the model |
| Bridge.BridgeService.FlushPanel | main/bridge_service.c:1556-1578 | an idle panel stream loses its partial frame and nothing else changes |
| Bridge.BridgeService.FlushMain | main/bridge_service.c:1556-1578 | an idle main stream loses its partial frame and nothing else changes |
| Bridge.BridgeService.PublishPanel | main/bridge_service.c:1023-1062 | the panel part of the report after a judged frame |
| Bridge.BridgeService.HandleMainFrame | main/bridge_service.c:1403-1443 | the panel is shown the received main frame or its rewrite |
| Bridge.BridgeService.MainByte | main/bridge_service.c:1580-1653 | one byte from the main board is exactly one step of the model |
| Bridge.BridgeService.PublishMain | main/bridge_service.c:1064-1207 | report and confirmation of a completed main frame |
| Bridge.BridgeService.QueueControl | main/bridge_service.c:2081-2208 | which of the four answers a request gets, in the order the checks are made, and the overlay it leaves |
| Bridge.BridgeService.ArmTakeover | main/bridge_service.c:1805-1834 | a takeover is armed after 30 ms of panel silence |
| Bridge.BridgeService.FinishTakeover | main/bridge_service.c:1835-1861 | what a route switch that worked or failed does to the overlay |
| Bridge.BridgeService.Watchdog | main/bridge_service.c:1863-1909 | a command unconfirmed for 5 s is timed out and cleared |
| Bridge.BridgeService.SetHardwareReady | main/bridge_service.c:2216-2239 | losing the interlock cancels the pending command |
| BridgeRuns.AlwaysAgreed | main/bridge_service.c:1134-1149 | in every reachable state active, confirmation pending, command pending, override active and status Pending agree, and an inactive overlay has no takeover flag |
| BridgeRuns.SequenceCounts | main/bridge_service.c:2167-2179 | the command number equals the number of accepted commands |
| BridgeRuns.SequenceWraps | main/bridge_service.c:2167-2179 | and past 2^32 commands it is that number modulo 2^32 |
| BridgeRuns.RequestInForce | main/bridge_service.c:2136-2166 | in every reachable state the request in force is the last-writer-wins reading of exactly the requests accepted since the overlay was last inactive, in range and without timer |
| BridgeRuns.NoCommandOutlivesTheWatchdog | main/bridge_service.c:1863-1909 | if the watchdog runs at least every D microseconds, no command stays pending for 5 s + D after its last queueing |
| BridgeRuns.TimedOutOnlyWhenLate | main/bridge_service.c:1872-1886 | only a watchdog step times a command out, and only 5 s or more after its last queueing |
| BridgeForwarding.AlwaysFrames | main/bridge_service.c:1385-1554 | every frame stored, prepared or written to the panel in any reachable state is valid |
| BridgeForwarding.ShownIsTheCommand | main/bridge_service.c:1403-1443 | with k the step that completed the i-th main frame, the i-th frame written to the panel is that frame, unless the profile controls through the panel loop and a command was pending at step k; then it is that frame rewritten by the fold of the commands accepted since the overlay was last inactive |
| BridgeForwarding.PanelSeesMainFrames | main/bridge_service.c:1403-1443 | over any run the panel is written one valid main frame per valid main frame received, in order, identical without loop control and otherwise differing only in bytes 3 to 6, 14 and 21 |
| BridgeForwarding.BridgeIsTransparent | main/bridge_service.c:1284-1343 | in the transparent profile the bytes written to the main board equal the bytes received from the panel, for any bytes |
| BridgeForwarding.LoopControlLeavesMainBoardAlone | main/bridge_service.c:1284-1343 | with hardware forwarding and control through the panel loop the hardware route never opens: over any run the processor writes nothing to the main board but bytes outside frames |
| BridgeForwarding.OutOfFrameBytes | main/bridge_service.c:1580-1653 | those are exactly the bytes that neither begin nor continue a header |
| BridgeForwarding.TransparentImage | main/bridge_service.c:1284-1443 | in the transparent image both sides get exactly what the other side sent, the panel in whole valid frames |
| BridgeForwarding.ControlImage | main/bridge_service.c:1284-1443 | in the shipped control image the main board is left to the hardware route, and the panel is shown one frame per main frame |
| Replacement.AtomicReplacement | main/bridge_service.c:1259-1343 | on the UART-regenerated route, when the panel sends whole valid frames, then under every interleaving that cuts no frame the main board is sent as many whole valid frames; the i-th is the overlay frame due at the step that brings the first byte of the i-th source frame, or else the source frame; event-marked replacements never outnumber accepted commands |
| Replacement.WholeExactlyWhenUncut | main/bridge_service.c:1259-1343 | the condition is exact: at every moment of a run whole frames have been sent if and only if no byte met a receiver that was flushed after the replacement of its frame was written, or took the byte for a new start with a replacement due |
| Replacement.FlushesBetweenFramesAreUncut | main/bridge_service.c:1556-1578 | idle flushes between frames cut none |
| Replacement.FlushAfterReplacementMixes | main/bridge_service.c:1695-1698 | an idle flush after the replacement of a frame was written lets the next source byte follow the overlay frame |
| Replacement.RegeneratedImage | main/bridge_service.c:1259-1343 | in the regenerating control image, with flushes only between frames, whole frames stand for whole frames at every moment of a run |
| Replacement.ReplacementIsTheCommand | main/bridge_service.c:1259-1282 | if step k makes the j-th write and that is a whole frame, then k brings the first byte of a source frame, a command is pending, and the write is the last valid panel state of that moment rewritten by the fold of the commands accepted since the overlay was last inactive |
| Replacement.StepOfWrite | main/bridge_service.c:1284-1343 | every write to the main board is made by one step |
| Route.WrittenExactly | main/bridge_service.c:1284-1343 | for every profile and run, what a step writes to the main board: nothing but for a panel byte; that byte outside frames; nothing inside while the hardware forwards; otherwise the overlay frame due or the byte, and the rest of a frame exactly if none was due |
| Route.DueExactly | main/bridge_service.c:1259-1282 | an overlay frame is due exactly with a command pending that owns the line and a panel frame published, and is that frame rewritten by the fold |
| Route.PendingOwnsLine | main/bridge_service.c:2170-2173 | on the regenerated route every pending command owns the line at once |
| Route.ArmedExactly | main/bridge_service.c:1812-1834 | a takeover is under way exactly if one was begun for a waiting command after 30 ms without a panel byte |
| Route.TakeoverExactly | main/bridge_service.c:1835-1861 | on a hardware line a command comes to own it exactly at a successful switch begun for it; a failed switch cancels it; without one begun nothing happens |
| Route.MirrorExactly | main/bridge_service.c:1805-1861 | the hardware route is off exactly from a successful takeover to the next end of a command or loss of the interlock |
| Interlock.UntilNextCommand | main/bridge_service.c:1284-1443 | from the end of a command to the next one accepted none is pending, the main board is written only panel bytes as they arrive, and the panel is shown main frames as they are |
| Interlock.InterlockEndsCommand | main/bridge_service.c:2216-2239 | over runs, losing the interlock cancels the pending command, gives the line back to the hardware, and nothing of the command reaches either wire until the next one is accepted |
| Interlock.ReadyIsReported | main/bridge_service.c:2210-2221 | control is reported as possible exactly while the interlock was last released and the profile can control |
| EventMarker.MarkerSentExactly | main/bridge_service.c:1494-1554 | over runs, a frame start after an accepted command writes an event-marked replacement if and only if the command is still pending and no panel frame was completed since it was accepted |
| EventMarker.MarkerSentFromBetweenFrames | main/bridge_service.c:1494-1497 | on a stream of valid panel frames the next frame carries the command's marker if and only if the command was queued between two frames and is still pending as that frame begins |
| BridgeReport.ReportIgnoresCommands | main/bridge_service.c:1064-1098 | noninterference: removing every command, panel, takeover, watchdog and interlock step from a run, or changing the profile, leaves everything reported about the main board as it is |
| BridgeReport.ReportIsLastMainFrame | main/bridge_service.c:1064-1098 | the reported state is the parse of the last valid main frame received |
| StateReport.MainReportInBytes | main/bridge_service.c:1064-1098 | each reported field of the main board is the stated byte, bit or half byte of its last frame |
| StateReport.ReportIsLastPanelFrame | main/bridge_service.c:1040-1054 | the panel part of the report is the last valid panel frame and its event mark |
| StateReport.ForwardedIsReported | main/bridge_service.c:1043-1052 | the forwarded frame reported is that of the last publication, and rewritten frames are counted |
| StateReport.SetpointIsLastShown | main/bridge_service.c:1023-1098 | the setpoint reported is the one last shown by the panel, or by the main board in Cool |
| StateReport.TimeoutsAreCounted | main/bridge_service.c:1863-1909 | the number of timeouts reported is the number of commands that timed out |
| CommandFate.ConfirmedExactlyInBytes | main/bridge_service.c:1099-1149 | over legal runs, the status becomes Confirmed if and only if the last main frame received is published with a command pending and its bytes show every field in force; any other publication leaves the command as it is |
| CommandFate.OverruledExactlyInBytes | main/bridge_service.c:1446-1554 | over legal runs, a completed panel frame cancels the pending command if and only if it is an event with a changed payload and, under loop control, contradicts a field in force; otherwise the command stays, spends its marker, and owns the frame passed on |
| BridgeReport.ConfirmedFreshExactly | main/bridge_service.c:1064-1149 | over legal runs, the frame that confirms was completed by an earlier step, and after a command's queueing if and only if it is not a frame that was already waiting to be published then |
| BridgeReport.StaleFrameDecides | main/bridge_service.c:1099-1149 | over legal runs, a frame waiting as a command is queued is the one published next, and confirms the pending command exactly when it already shows what was asked |
| LegalRuns.StaleFrameConfirms | main/bridge_service.c:1099-1149 | for every profile that can control there are legal runs in which a power-on command is confirmed by a main frame received before it was queued |
| LegalRuns.FlushMixesFrames | main/bridge_service.c:1695-1698 | on the regenerated route there is a legal run in which an idle flush mixes an overlay frame with the rest of a source frame |
| LegalRuns.MarkerIsLost | main/bridge_service.c:1494-1497 | on the regenerated route there is a legal run in which a command queued inside a frame goes out without its event marker, and no marked frame was ever sent |
| LegalRuns.DryThenSetpointIsStranded | main/bridge_service.c:2127-2135 | while the main board shows Cool, Dry and then a setpoint are accepted, and no main frame confirms the two |
| LegalRuns.SetpointThenRawIsStranded | main/bridge_service.c:2136-2166 | a setpoint and then a raw code for Dry are accepted, and no main frame confirms the two |
| BridgeReport.EchoOverrulesExactly | main/bridge_service.c:1446-1493 | a panel that shows the pending command back as a changed event overrules it exactly when the profile does not control through the panel loop or the raw code is inconsistent |
| BridgeReport.AcknowledgedReplacementConfirms | main/bridge_service.c:1099-1133 | over runs, when the main board acknowledges the overlay frame written at step k and no command was accepted since, publishing this confirms the command exactly when its raw code is consistent and a setpoint goes into Cool |
| BridgeReport.InForceConfirmableExactly | main/bridge_service.c:1099-1133 | over runs, some main frame confirms the pending command if and only if the fold of its requests is consistent in itself |
| BridgeReport.AcceptedConfirmableExactly | main/bridge_service.c:2081-2166 | over runs, a request accepted over a command that can be confirmed, or over none, leaves one that can be confirmed if and only if a stated condition on the two holds |
| Acceptance.AnsweredExactly | main/bridge_service.c:2081-2135 | over legal runs, a request is accepted if and only if the profile can control, the interlock was read released, it asks for something known and not the timer, both boards had a frame published within 1000 ms, and a setpoint comes with Cool or while Cool is shown; each refusal has its own reason |
| Acceptance.AnswerTakesEffect | main/bridge_service.c:2136-2183 | an accepted request is numbered with the count of accepted commands, is pending and joins the history in force; a refused one changes nothing |
| Crc.ComputeCrc32 | main/capture_store.c:63-74 | the masked bit loop computes the check value |
| KnownAnswers.CheckValue | main/capture_store.c:63-74 | the published check value of the digits one to nine |
| Crc.LoopIsTableDriven | main/capture_store.c:63-74 | the bit loop is the table-driven CRC of section 8 of RFC 1952 |
| Crc.Shift8IsBijection | main/capture_store.c:68-71 | the byte step is a bijection on the 32-bit register |
| Crc.RegisterLinear | main/capture_store.c:63-74 | the register is XOR-linear in start value and data together |
| Crc.RegisterInjective | main/capture_store.c:63-74 | two registers never meet over equal data |
| Crc.BurstChangesCrc | main/capture_store.c:63-74 | two equally long strings that differ only inside four consecutive bytes never share a check value |
| Crc.SealedLeavesResidue | main/capture_store.c:76-82 | a string carries its own check value if and only if running the register over all of it leaves one constant |
| Crc.BurstUnseals | main/capture_store.c:76-82 | damage inside four consecutive bytes, check value included, is always detected |
| RecordCodec.EncodeRoundTrip | main/capture_store.c:158-171 | whatever is programmed reads back as the same number and the same request |
| RecordCodec.ErasedIsBlank | main/capture_store.c:84-93 | erased flash is classified as blank, and nothing else is |
| RecordCodec.StoredExactly | main/capture_store.c:76-82 | the bytes taken for a record: the letters KCP1, a nonzero number, type 1 to 4, at most 104 bytes of data, and the check value |
| RecordCodec.StoredSays | main/capture_store.c:361-398 | number, type, direction, kind, time and data of a record are the stated bytes of it |
| RecordCodec.BurstIsNoRecord | main/capture_store.c:76-82 | a record damaged inside four consecutive bytes is never taken for a record |
| RecordCodec.CheckErased | main/capture_store.c:84-93 | the loop decides whether every byte is 0xFF |
| RecordCodec.CheckRecord | main/capture_store.c:76-82 | the test decides record validity |
| CaptureStore.Store.constructor | main/capture_store.c:253-276 | the boot scan over the partition's bytes, whichever of its slots can be read, rebuilds index, next number, write position and counts |
| CaptureStore.Store.RefreshInfo | main/capture_store.c:95-116 | count, oldest and latest of the index |
| CaptureStore.Store.ForgetSector | main/capture_store.c:118-125 | the index entries of one sector are cleared and no others |
| CaptureStore.Store.PrepareNextSlot | main/capture_store.c:127-149 | the write position, the erased sector and the cleared index, and what a failed read or erase leaves |
| CaptureStore.Store.WriteRequest | main/capture_store.c:151-187 | one write, under every outcome of its flash operations, is exactly one step of the model |
| CaptureStore.Store.GetAfter | main/capture_store.c:361-398 | the cursor read is the model's cursor read |
| CaptureRuns.AlwaysSound | main/capture_store.c:84-187 | over every run with flash errors and power cuts the index agrees with the flash, every stored number is below the next one and the ring is in order |
| CaptureRuns.WalkIncreases | main/capture_store.c:127-187 | walking the slots circularly from the write position meets strictly increasing numbers |
| CaptureRuns.ReadyIsWritable | main/capture_store.c:127-149 | every program operation hits an erased slot |
| CaptureRuns.Recovery | main/capture_store.c:253-276 | wherever in a write the power fails, the boot scan restores a sound store, a next number above every stored one, the target slot of the uninterrupted run, and every record outside the sector being erased |
| CaptureRuns.RecoveryIndexes | main/capture_store.c:253-276 | on any flash whatever the rebuilt index agrees with it and the next number is above every stored one |
| CaptureRuns.BootIsSound | main/capture_store.c:253-276 | a reboot between writes keeps the index and the target slot |
| CaptureRuns.ReadErrorsMatterExactly | main/capture_store.c:253-276 | a boot scan with read errors indexes exactly the readable records; it restores write position and next number, and a next number above every stored one, if and only if it read the latest record |
| CaptureRuns.SoundAfterReadErrors | main/capture_store.c:253-276 | a run after a boot scan that read at least the latest record stays sound but for its index, and leaves on the flash what it would have left after a scan without errors |
| CaptureRuns.NumbersNeverReused | main/capture_store.c:151-187 | over every run, reboots included, the numbers made durable grow strictly |
| CaptureRuns.NumbersWrap | main/capture_store.c:151-187 | the write after record 2^32 - 1 gets number zero and is lost, the one after it is number one |
| CaptureRuns.BootWraps | main/capture_store.c:269-271 | a boot that finds record 2^32 - 1 goes on with number one |
| CaptureRuns.ErrorsAreCounted | main/capture_store.c:182-186 | over every run the error count is the number of writes since the boot that made no record durable |
| CaptureRuns.ErasesOldest | main/capture_store.c:141-147 | an erase gives up only records older than every record it keeps |
| CaptureRuns.InfoCurrentExactly | main/capture_store.c:127-187 | over every run with flash errors and power cuts from a state with true counts, the counts are wrong if and only if a program operation failed right after an erase that forgot records, and no record was appended and the store not booted since |
| CaptureRuns.ErasedPartitionIsSound | main/capture_store.c:253-276 | an erased partition boots to number one in slot zero |
| Retention.RetainsLatest | main/capture_store.c:95-187 | after n fault-free writes exactly the last n records are held if n <= S, else the last S - 32 + ((n - 1) mod 32) + 1, each unaltered, and the counts describe precisely that set |
| Retention.OneSectorRestarts | main/capture_store.c:239-246 | a partition of one sector, which boot accepts, filled any number of times holds its last 32 records and goes on counting, yet a cut after the next erase restarts the numbers at one |
| Export.CursorFindsNext | main/capture_store.c:361-398 | a cursor read returns the retained record with the least number above the cursor, or nothing exactly if there is none |
| Export.CursorRevalidates | main/capture_store.c:361-398 | on any store at all the slot with the least indexed number above the cursor is returned exactly if the flash holds a record there now |
| Export.ExportRises | main/capture_store.c:361-398 | iterating the cursor on an idle store returns retained records in strictly increasing order |
| Export.ExportIsComplete | main/capture_store.c:361-398 | and returns every retained record above the start |
| Export.ExportStaysOrdered | main/capture_store.c:361-398 | with any writes, erases and reboots between the reads the numbers still grow strictly |
| Export.ExportDuringRun | main/capture_store.c:361-398 | over every run with flash errors and power cuts, reads made at any points of it return strictly growing numbers |
| Export.SurvivorsAreExported | main/capture_store.c:361-398 | no record that survives a whole export is skipped by it |
| Export.ValidateRecords | tools/export_capture.py:31-43 | accepts exactly the lists without an objection, and otherwise names the first objection |
| Export.AcceptedExactly | tools/export_capture.py:31-43 | the lists accepted are those of complete lines with strictly rising numbers above the start |
| Export.ComplaintExactly | tools/export_capture.py:31-43 | the objection named is about the first of number, time and text that is wrong |
| Export.OrderingIsNeverRejected | tools/export_capture.py:31-43 | the ordering check never objects to what an export returned |
| Export.AcceptedIsOrdered | tools/export_capture.py:31-43 | an accepted list is strictly increasing |
| Waveform.EncodeFrame | main/bridge_service.c:552-575 | the symbols, flattened, are one run per bit of the 8N1 transmission |
| Waveform.DurationsTelescope | main/bridge_service.c:540-550 | the durations of any number of bits add up to the edge after the last |
| Waveform.EdgeDrift | main/bridge_service.c:540-550 | every edge is within half a tick of its ideal instant, however long the transmission |
| Waveform.RunsAreShort | main/bridge_service.c:552-564 | no run of equal levels is longer than nine bits |
| Waveform.DurationRounds | tools/decode_rmt_uart.py:22-28 | for every bit length from 1014 to 1071 ticks, fractional ones included, and every floating-point rounding that errs by at most 1/10000 in this range, a run of up to nine bits rounds to as many bits, without a timing error |
| Waveform.DecodeRuns | tools/decode_rmt_uart.py:19-43 | both loops compute the decoding function and the number of mistimed runs, for any real bit length and any rounding of the floating-point operations |
| Decoding.CountIsNearest | tools/decode_rmt_uart.py:25 | without rounding errors a run is taken for the nearest positive number of bits, ties going to the even one |
| Decoding.MistimedExactly | tools/decode_rmt_uart.py:26-27 | and is mistimed exactly if it lies further than a quarter bit from every positive multiple of the bit length |
| Decoding.MistakesAreFarRuns | tools/decode_rmt_uart.py:19-28 | so the error count is the number of such nonempty runs |
| Decoding.FarIsMistimed | tools/decode_rmt_uart.py:25-27 | with floating-point rounding, a run half a tick further than that from every multiple is counted |
| Decoding.NearIsNotMistimed | tools/decode_rmt_uart.py:25-27 | and one half a tick closer to some multiple is not, and is taken for that multiple |
| Decoding.GroupsExactly | tools/decode_rmt_uart.py:30-43 | on any bits at all the bytes found come from disjoint positions between a start and a stop bit, and every other such position lies inside one taken |
| Waveform.WaveformRoundTrip | tools/decode_rmt_uart.py:19-43 | merging the encoder's runs and decoding them at any bit length from 1014 to 1071 ticks, the default 1038 among them, with floating-point rounding, gives back every byte string, with no timing error |
| Waveform.SampleMargin | main/bridge_service.c:988-1003 | every sampling instant lies in its bit with at least 51 microseconds to either edge |
| Waveform.SampleFrame | main/bridge_service.c:983-1004 | the sampling loops assemble each byte from its eight levels and check every stop bit |
| Waveform.SamplerReadsFrame | main/bridge_service.c:983-1004 | sampling the encoded waveform, each sample up to 51 microseconds late, gives back every byte with a high stop bit |
| Telemetry.Ring.Publish | main/telemetry.c:22-39 | the log grows by one and the ring holds its last 96 entries |
| Telemetry.Ring.GetAfter | main/telemetry.c:51-72 | below the greatest cursor the answer is the log entry numbered max(after + 1, oldest retained), or nothing exactly when there is no newer one |
| Telemetry.ReadAllIsSuffix | main/telemetry.c:51-72 | repeated reads return every retained entry above the cursor once, in order |
| Telemetry.NothingLostExactly | main/telemetry.c:51-72 | a reader that polls after every batch of publications gets every entry ever published, once and in order, if and only if no batch is longer than 96 |

## Left out

- Null-argument guards, lock acquisition timeouts and queue-full drops: they only return early.
- Mask bits of a control request above bit 7: the firmware defines eight.
- Diagnostic counters (checksum errors, framing errors, frame counts, dropped records) and every log line.
- GPIO, ETM, RMT and UART driver set-up, and the pin wiring of the probe builds.
- Route switching in the middle of a frame when hardware forwarding is used without loop control: the firmware drops the lock before it switches, so who owns the line depends on hardware timing; the takeover is modelled by its locked steps.
- The TAP, headless, mirror, wake, edge-forwarding, boot-force-off and synchronised-transmit builds of the bridge.
- Runs that go on after a boot scan that could not read the latest record; what such a scan restores is proved.
- A flash driver that reports a write error although the complete record is on the flash.
- Wrap of the record number past 2^32 - 1 in the theorems; the step itself wraps in the model.
- Byte offsets of the capture ring: positions are slot numbers, of which the offsets are multiples.
- Infinities and the overflow errors of floating-point numbers in the offline decoder; rounding is modelled.
- Formatting and truncation of telemetry text, JSON, HTTP, MQTT, Zigbee and Wi-Fi services, the web page, over-the-air updates and the hardware test runner.
- `nts0104_preflight.c`: a few flags over pin reads.
