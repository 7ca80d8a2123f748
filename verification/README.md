# The ventilation-unit gateway: model and proofs

The firmware runs on an ESP32 beside a ventilation unit. Over a serial line it keeps a 241-byte copy
of the unit's EEPROM (the mirror), which an app reads and overwrites through MQTT or BLE. This project
models the firmware's logic as Dafny methods on the same variables and buffers, specifies each by a
function on values, and proves on those functions what holds in every run.

## How it is built

- `UnitTask` is `src/unit_comm.c`: class `Task` has its globals as fields. `Iteration` is one pass through the
  Connected case, `ConnectToUnit` one call of the handshake. Their contracts equate the new state with
  `Firmware.Iterate` and `Handshake.Connect`, and keep a log in which every request that the model says
  was sent is a frame on the wire from which a unit reads back that request.
- `Mailbox` is the receive path (`src/Uart1.c`, `src/WBM_Serial.c`), `Codec` and `Requests` the frames,
  `ReplyPath` the way of a reply from the unit's frame to the firmware's decision.
- `UnitModel` is the other side: a unit that answers requests and changes its own sections, and the
  runs of both together. `SectionCell` is the same protocol seen from one section; `Simulation` proves
  that every step of the full system is a step of the cell of each section; `Coherence` carries the
  cell's invariants back to runs, and `StaleSection` shows the three ways to lose a section. `Drain`,
  `StopAndWait`, `ImageToWire` and `Timing` are the other theorems about Connected runs, and
  `ImageDelivery` joins them: an app image is on the wire after a bounded number of results. `Polling` is what
  the timers send, exactly and at least, and `Noticed` joins it to `Coherence`: a change made at the unit is
  noticed and copied.
- `Handshake` is the way to Connected: `HandshakeLoad` what it loads from a unit that may change meanwhile
  and with app images that may arrive meanwhile, `Seeking` what it does while nobody answers,
  `HandshakeTrace` what it sends and how long it takes, `HandshakeShift` and `ShiftedRun` what a poll left
  unanswered does to it. `HandshakeLoad.HandshakeStartsCoherence` joins it to the Connected runs.
- `Greeting` is the way into the bootloader and through its transfer, from the bytes on the line.
- `BootTransfer`, `PreparedWrite`, `Provisioning`, `WifiQueue`, `Printer` and `FirmwareStore` are the
  bootloader transfer, the queued BLE writes, the credential pipeline, the payload printer and the
  firmware download.

`dafny verify dfyconfig.toml` checks everything.

## What the proofs rest on

- Each UART arrival, `Read_Message` call, BLE event, MQTT event and iteration of the unit task is one
  step. In the Wi-Fi queue every queue operation is a step of its own.
- The unit changes its own sections whenever it likes and serves the outstanding request, and no other,
  whenever it likes. It may refuse any write, and leave any counter on a section that it does write; its
  own changes step the counter by one.
- App images may arrive at any moment, before and during the handshake too.
- In Connected a rejected message stands for the answer to the outstanding request, damaged on the line: an
  answer to an earlier request does not arrive after the next one was sent.
- Theorems about a counter need fewer than 256 changes that the mirror has not seen, the point at which a
  one-byte counter repeats; a copy whose read or write was dropped counts as many as its counter is behind.
- Every reading of the clock is a value of its own. Delays and transmission times enter as the distance
  between readings.
- `char` is unsigned, as it is for this target, and 32-bit words are stored low byte first.
- A copy that would leave its buffer is a precondition (`CopyInBounds`, `LoadInBounds`, `Fits`, the first
  BLE fragment), because C gives it no meaning. A read beyond a buffer (a short MQTT image, a firmware file
  of more bytes than Buffer_Test) finds bytes of which nothing is assumed.

## Where the code does less than one would expect

Each of these is proved, with the exact condition or an input that shows it.

- Connected does not time out after 15 seconds: the poll timer restarts the timeout even when it sends
  nothing, so a lost reply stops all traffic for good (`Timing.LostReplyHangs`). What does lead to the
  error state is a counter that wraps between a restart of the timeout and its next test
  (`Timing.ConnectedExactly`): inside one iteration (`Timing.WrapInsideIterationIsFatal`) or at the entry
  (`Timing.WrapAtEntryIsFatal`).
- A write reply makes the mirror adopt every counter at once, before the re-reads it asks for, and its result
  byte is not looked at; a rejected request is not repeated. So a section can become stale for good: other
  bytes than the unit's under the unit's own counter, nothing pending, nothing outstanding. In every run a
  section is coherent in all states exactly if no result loses it (`Coherence.CoherentExactly`). A result
  loses it if it ends the outstanding read or write of the section by a rejection, or by a refusal with the
  mirror's own counter, while no newer read or write of it is pending; the mirror's bytes are not known to be
  the unit's (an image, or a counter adopted since), and differ from them; and the counters coincide: for a
  re-read, the unit's changes since the counter was adopted are a multiple of 256; for a rejected write, the
  frame has the unit's counter; for a refused one, the unit's changes since are a multiple of 256.
  `StaleSection` has a run for each. The shortest: an app image that edits Info and keeps its counter, and one
  rejected message, after which the edit is lost (`StaleSection.OneRejectedWriteGoesStale`).
- An app image that arrives before the handshake has read a section is overwritten by that read, and what goes
  out for the section is the unit's own copy; a later one goes out as it is (`HandshakeLoad.HandshakeLoads`,
  `ImageDelivery.EarlyImageDelivered`).
- The handshake checks neither type nor address of a reply. If a poll is left unanswered when the link is
  found, every state takes the answer to an earlier request (`HandshakeShift.EachTakesEarlierAnswer`), for
  example after a first answer that is late (`ShiftedRun.LateAnswerSpoilsLoad`); if nothing is lost after the
  link is found, the load is right exactly if every other poll was lost before, up to bytes that coincide
  (`HandshakeShift.RightExactlyIfOthersLost`). Later losses make the answers catch up, and every section from
  then on is right (`HandshakeShift.RightOnceCaughtUp`).
- The text `ACK` or `Bootloader` anywhere before the first NUL skips all validation
  (`Codec.AckSkipsValidation`).
- A firmware file whose size is not a multiple of four is sent with trailing NULs and does not decode, and
  an empty one is waited on for ever (`BootTransfer.DeliversFile`, `BootTransfer.EmptyFileNeverEnds`).
- The byte count of the version check is never reset, so a later check stores a wrong file unless the bytes
  counted before are a multiple of 2^16
  (`FirmwareStore.ReplacedByBodyIffFirst`); a stored file whose version reads 0 is never replaced
  (`FirmwareStore.StoredFileKept`).
- An empty SSID chunk whose allocation succeeds, while the SSID has no bytes, shows WAIT_PASSWORD or READY
  without an SSID; an empty password chunk after an SSID shows READY without a password. Nothing else makes
  the status wrong (`Provisioning.StepKeepsExactly`, `Provisioning.RunKeepsExactly`).

## Model

| member | source | states |
|---|---|---|
| EepromLayout.SectionMap | include/protocol_serial.h:304-336 | the record has 241 bytes, and each section the start and length that offsetof and sizeof give for the packed layout |
| EepromLayout.WrittenSectionsPartition | include/protocol_serial.h:304-336 | the five written sections cover exactly bytes 0..126 and 133..237, each byte once; two sections share a byte only if they have the same range |
| EepromLayout.WriteKeepsOthers | include/eeprom_data_struct.h:25-148 | overwriting one section changes no byte and no counter of a section with another range |
| Codec.CalcCksum16 | src/WBM_Serial.c:81-89 | the loop computes the one's complement of the 16-bit byte sum |
| Codec.WriteMessage | src/WBM_Serial.c:94-116 | for every checksum position inside the buffer: head stamped, checksum of what lies before its position put there, low byte first, and the prefix of the masked length sent |
| Codec.CompletedIsSealed | src/WBM_Serial.c:94-116 | for positions 3 to 125 what is sent is the stamped prefix followed by its checksum; at 126 the masked length is 0 and nothing is sent |
| Codec.SentShape | src/WBM_Serial.c:94-116 | for those positions a frame goes out that carries the buffer's own bytes after the head |
| Codec.SentIsFrame | src/WBM_Serial.c:94-116 | everything sent is a frame, whose length is the checksum position plus 2 and fits an int8_t |
| Codec.FrameAccepted | src/WBM_Serial.c:142-186 | a frame that arrives unchanged is accepted with its full length and identical bytes |
| Codec.AlteredByteRejected | src/WBM_Serial.c:142-186 | a frame with exactly one byte altered, anywhere, is rejected exactly if the result does not contain the ACK or Bootloader text |
| Codec.AckSkipsValidation | src/WBM_Serial.c:153-185 | a buffer with the ACK text and no valid head is accepted |
| Codec.TextIsSpelt | src/WBM_Serial.c:153-155 | the zeroed buffer a message is copied to has a text in it exactly if the message has it before any NUL |
| Mailbox.SerialPort.constructor | src/Uart1.c:50-65 | the port starts with an empty slot, a zeroed buffer and no flag set |
| Mailbox.SerialPort.Receive | src/Uart1.c:50-65 | an arrival replaces the slot: at most 128 bytes, the rest of the cache zero |
| Mailbox.SerialPort.SerialAvailable | src/Uart1.c:157-170 | claiming returns the length, empties the slot and points the reader at its start |
| Mailbox.SerialPort.SerialRead | src/WBM_Serial.c:55-65 | returns the byte under the cursor and moves on, or 0 without a cursor |
| Mailbox.SerialPort.Download | src/WBM_Serial.c:142-151 | moves the pending length's bytes from the cache to a zeroed buffer |
| Mailbox.SerialPort.Validate | src/WBM_Serial.c:153-186 | returns the verdict on the buffer and raises the ACK and Bootloader flags by the text found |
| Mailbox.SerialPort.Read | src/WBM_Serial.c:118-188 | one call turns the port into AfterRead of it and returns ReadResult of it |
| Mailbox.DownloadsAreLatestArrivals | src/WBM_Serial.c:124-149 | over every interleaving of arrivals and calls, each downloaded buffer is one whole arrival, the latest at that moment, and no arrival is downloaded twice |
| Mailbox.DownloadedWithinTwoPolls | src/WBM_Serial.c:124-149 | an arrival followed by silence is downloaded by the first or second call, which returns its verdict; 128 bytes or more are always rejected |
| Mailbox.FrameDelivered | src/WBM_Serial.c:118-188 | a frame sent to a port in any state comes out within two calls, complete and accepted |
| Mailbox.ZerosAreRejected | src/WBM_Serial.c:157-159 | the empty download of a 128-byte arrival fails the head test |
| ReplyPath.ReplyDelivered | src/WBM_Serial.c:118-188 | a reply frame that arrives intact is, within two calls, exactly that reply to the unit task |
| ReplyPath.DamagedReplyRejected | src/WBM_Serial.c:142-186 | a reply frame with one byte altered on the line comes out as a negative result, unless the result contains one of the two texts |
| Requests.RequestBytes | src/WBM_Serial.c:94-116 | every request frame byte for byte: "sm", the checksum's position, the command letter, start and length and data of its section, and the complement of the byte sum, low byte first |
| Requests.PollBytes | src/WBM_Serial.c:190-208 | a poll frame is 0x50, the error byte and the serial number |
| Requests.SendPollingBase | src/WBM_Serial.c:190-208 | sends a frame from which a unit reads back a poll with the error byte and the serial number |
| Requests.SendDataDebug | src/WBM_Serial.c:260-269 | sends a frame read back as a debug request, although its two data bytes are never set |
| Requests.SendReadEeprom | src/WBM_Serial.c:210-258 | sends a frame read back as a read of exactly the section's range |
| Requests.SendWriteRange | src/WBM_Serial.c:271-287 | sends nothing for a range beyond the record, an empty message for 120 bytes, and for up to 119 a frame read back as a write of exactly those EEPROM bytes |
| Requests.SendWriteEeprom | src/WBM_Serial.c:289-319 | sends a frame read back as a write of the section's range with the mirror's bytes |
| UnitTask.Task.constructor | src/unit_comm.c:60-79 | the unit task starts initialising, with a zero mirror, an empty mask and both poll timers at the present time |
| UnitTask.Task.RunDebugTimer | src/unit_comm.c:120-135 | in Running mode, once 4000 ms are over, a debug request goes on the wire if the line is free; both poll timers and the timeout restart even if not, each at a reading taken after the send |
| UnitTask.Task.RunPollTimer | src/unit_comm.c:137-151 | outside initialising, once 1000 or 5000 ms are over by mode, a poll goes on the wire if the line is free; poll timer and timeout restart even if not, at readings taken after the send |
| UnitTask.Task.CheckTimeout | src/unit_comm.c:153-159 | after 15000 ms: error state, retries, busy flag and mask cleared |
| UnitTask.Task.ParsePoll | src/unit_comm.c:774-814 | raises exactly the read bits of the sections whose counter differs |
| UnitTask.Task.ParseRead | src/unit_comm.c:837-842 | copies the reply's bytes to the reply's own address, and nothing else |
| UnitTask.Task.AdoptCounter | src/unit_comm.c:854-860 | raises the bit if the counters differ by one or more either way, and adopts the reply's |
| UnitTask.Task.ParseWrite | src/unit_comm.c:843-887 | all four counters are compared and adopted; every other mirror byte stays |
| UnitTask.Task.HandleMessage | src/unit_comm.c:161-229 | a message restarts the timeout and is parsed by its command byte, which frees the line if recognised; a rejected one frees the line and is wiped from the buffer; nothing else does |
| UnitTask.Task.DispatchRequest | src/unit_comm.c:231-348 | with the line free, the first set bit in the source's order is taken and its request put on the wire; the six retired bits only block the line |
| UnitTask.Task.Iteration | src/unit_comm.c:105-350 | a whole pass is debug timer, poll timer, timeout, one Read_Message, its handling and the dispatcher, in this order, every test and every setting with its own reading of the clock, on the state the theorems about runs use |
| UnitTask.Task.ReceiveImage | src/mqtt_app.c:208-217 | 241 bytes from the start of the payload, and from what lies behind a shorter one, replace the whole mirror, and the five write bits are raised |
| UnitTask.Task.AskNext | src/unit_comm.c:416-423 | sends the request of the following state, enters it and restarts the timeout at the reading taken after the send |
| UnitTask.Task.LoadSection | src/unit_comm.c:424-555 | a load state fails when late, waits without a message, or copies the reply to its own address and asks for the next section |
| UnitTask.Task.TryLink | src/unit_comm.c:382-415 | waiting for the first reply: the second silence restarts at 9600 baud, the first asks again, Bootloader text wins over a message |
| UnitTask.Task.AwaitPoll | src/unit_comm.c:556-571 | the closing poll's reply leads to the last state, its absence for 15 s to the error state |
| UnitTask.Task.EnterConnected | src/unit_comm.c:572-599 | chooses the running mode by the power byte, starts the timers and compares counters with the buffer |
| UnitTask.Task.SeekLink | src/unit_comm.c:367-381 | start; and poll at most twice while no link was ever found, with the timeout restarted after the send |
| UnitTask.Task.StepUnread | src/unit_comm.c:367-599 | the states that read nothing: those two, the first section request, and the entry to Connected |
| UnitTask.Task.ConnectToUnit | src/unit_comm.c:360-599 | one call is one step of the handshake function that the theorems use, with one pair of readings for the timeout test and a later one for the timer; Read_Message is called exactly by a waiting state that is not late |
| Firmware.HandleResult | src/unit_comm.c:161-229 | handling a result sends nothing, leaves mode and poll timers, and sets the timeout timer to now or not at all |
| Firmware.Dispatch | src/unit_comm.c:231-348 | dispatching leaves mirror, mode and timers |
| RequestMask.RaisedBits | src/unit_comm.c:796-814 | comparing counters raises exactly the read bits of the differing sections, no write bit, and no bit outside 0xF80F |
| RequestMask.TakesLowestBit | src/unit_comm.c:231-348 | for every mask, retired bits included: with the line free exactly the lowest bit is taken; 0 to 3 read, 4 to 9 send nothing and hold the line, 11 to 15 write |
| RequestMask.PollCounters | src/unit_comm.c:796-814 | bytes 38 to 41 of a poll reply are compared with mirror bytes 58, 126, 152 and 237, one read bit each |
| RequestMask.WriteCounters | src/unit_comm.c:854-885 | bytes 7 to 10 of a write reply are compared with the same mirror bytes and replace them |
| RequestMask.ReadBytes | src/unit_comm.c:837-842 | a read reply puts its bytes from the seventh on at the address in byte 4, as many as byte 5 says |
| RequestMask.CommandByte | src/unit_comm.c:161-229 | a message restarts the timeout and frees the line exactly if its command is one of the four; each command touches only what it is for |
| RequestMask.OtherResults | src/unit_comm.c:161-229 | a negative result frees the line and does nothing else; 0 and 1 do nothing |
| RequestMask.Choice | src/unit_comm.c:233-345 | a pending request is chosen, a write only if no read is pending |
| RequestMask.DispatchSendsChoice | src/unit_comm.c:231-348 | with the line free and anything pending, exactly the chosen request is sent, a write with the mirror's bytes, and exactly its bit is taken |
| SectionCell.StepKeepsInv | src/unit_comm.c:161-348 | every cell event but one that loses the section keeps: the copy is the unit's of `unseen` changes ago, or the section is pending or outstanding |
| SectionCell.CoincidesExactly | src/unit_comm.c:854-885 | when a result drops the section, the counters are equal exactly if the history says so: changes since the adoption, the counter in the frame, or changes since the refusal |
| SectionCell.LostIsStale | src/unit_comm.c:161-229 | an event that loses the section leaves it with other bytes under the unit's counter, nothing pending and nothing outstanding |
| SectionCell.KnownIsVersion | src/unit_comm.c:796-814 | a copy of known age has the unit's counter exactly when it has the unit's bytes |
| SectionCell.PollMakesCurrent | src/unit_comm.c:796-814 | a poll reply carrying the unit's counter makes the section equal, pending or outstanding |
| SectionCell.InvIsCoherent | src/unit_comm.c:796-814 | with fewer than 256 unseen changes the invariant is coherence |
| StaleSection.HandshakeLeavesFresh | src/unit_comm.c:556-599 | the state in which the runs below start is reached by every handshake with a quiet unit and app whose last two calls are less than 15 s apart |
| StaleSection.OneRejectionGoesStale | src/unit_comm.c:854-885 | from every such state and for every change of Info: a run whose only rejected message is its last, a re-read of Info, after which Info is incoherent exactly if the change was to more than its counter |
| StaleSection.OneRejectedWriteGoesStale | src/unit_comm.c:222-348 | an app image, its write of Info sent and one rejected message: Info is incoherent afterwards exactly if the image edits Info and keeps its counter |
| StaleSection.OneRefusedWriteGoesStale | src/unit_comm.c:843-862 | the same with no rejected message, if the unit refuses the write: the result byte of the reply is not looked at |
| Simulation.ServeSimulated | src/unit_comm.c:843-887 | a unit serving any request is one event of every section's cell |
| Simulation.RefuseSimulated | src/unit_comm.c:843-887 | a unit refusing a write is one event of every section's cell |
| Simulation.TimersSimulated | src/unit_comm.c:117-159 | the timers are one event of every section's cell |
| Simulation.HandleSimulated | src/unit_comm.c:161-229 | a result of Read_Message is one event of every section's cell |
| Simulation.DispatchSimulated | src/unit_comm.c:231-348 | the dispatcher is one event of every section's cell |
| Coherence.CoherentWithWrites | src/unit_comm.c:161-348 | from a copy of any age or an image still pending, app images, unit changes, refused writes and rejected results at any moment: in every Connected state before a result loses the section it is equal, has another counter, is pending, or is the outstanding one |
| Coherence.LostIsStale | src/unit_comm.c:161-348 | one iteration whose result loses the section leaves it stale and incoherent, whatever timers and dispatcher do |
| Coherence.StaleForGood | src/unit_comm.c:796-885 | a stale section stays so in every state, whatever is polled, read, written, refused or rejected, until the unit changes it or an app image arrives |
| Coherence.CoherentExactly | src/unit_comm.c:161-348 | over every run with fewer than 256 unseen changes: the section is coherent in every state exactly if no result loses it |
| Coherence.KnownIsVersion | src/unit_comm.c:796-814 | in every such run, while the copy's age is known, the section has the unit's counter exactly when it has the unit's bytes |
| Coherence.CounterIsVersion | src/unit_comm.c:796-814 | from a copy of any age, without app images, whatever is rejected: nothing is lost, and a section has the unit's counter exactly when it has the unit's bytes |
| Coherence.QuietUnitIsCopied | src/unit_comm.c:796-842 | after any such history, once unit and app are quiet and no result drops the section, one poll reply and a drained mask make it equal to the unit's |
| Drain.DispatchCost | src/unit_comm.c:231-348 | every dispatched request takes one from the measure 5 per write bit plus 1 per read bit plus 4 for an outstanding write |
| Drain.ReplyCost | src/unit_comm.c:854-885 | no reply adds to the measure: a write reply turns its 4 into at most four re-reads |
| Drain.RoundTripsBounded | src/unit_comm.c:231-348 | however replies turn out, what is sent while the mask is served is reads and writes only, no more than the measure at the start |
| Drain.ServingEndsDrained | src/unit_comm.c:117-231 | no iteration gives the line to a poll or debug request, or leaves it free, while anything is pending |
| Drain.AnswersAreRoundTrips | src/unit_comm.c:161-348 | while the mask is served every result that is a reply or a rejection is followed at once by the next request |
| Drain.ServedStep | src/unit_comm.c:161-348 | one step while the mask is served leaves less work by the answer that came in, or an empty mask and a free line |
| Drain.DrainsWithin | src/unit_comm.c:231-348 | without a new image, once more results have come in, good or rejected, than there was work, some state on the way had an empty mask and a free line |
| Drain.TwentyNineRoundTrips | src/unit_comm.c:231-348 | from a free line with any mask, once the first request has gone out, 29 results bring the run through a state with an empty mask and a free line |
| Drain.DrainsFromAnywhere | src/unit_comm.c:117-348 | from any state at all, a poll or debug request outstanding included, 30 results do, or 34 if a write is outstanding |
| StopAndWait.StepAlternates | src/unit_comm.c:105-350 | one iteration keeps the alternation of requests and releases, and the mask inside 0xF80F |
| StopAndWait.RunAlternates | src/unit_comm.c:105-350 | in every Connected run there is a rejection or recognised reply between two requests, and the busy flag is set exactly while a request that was really sent is unanswered |
| ImageToWire.WrittenOnce | src/unit_comm.c:307-345 | from an image to the next, whatever lands in the mirror: each section is written in exactly one frame when its bit is taken, and in none before |
| ImageToWire.WrittenIntact | src/unit_comm.c:307-345 | with exactly the bytes it had if no read reply, counter-changing write reply or image landed in the section before |
| ImageToWire.PendingReachesWire | src/unit_comm.c:307-345 | a pending write, wherever its bit came from: nothing goes out for the section while it is pending and then exactly one write; with the bytes the mirror had if nothing landed in the section before |
| ImageToWire.ImageReachesWire | src/unit_comm.c:307-345 | so after an image in Connected, with the image's bytes |
| ImageToWire.QueuedImageReachesWire | src/ble.c:585-649 | the same for an image that arrives in BLE fragments, split and ordered in any way: all are accepted, and what is executed goes out |
| ImageToWire.EachByteWrittenOnce | src/WBM_Serial.c:271-319 | once all sections' pending writes have gone out, whatever landed meanwhile, each byte of 0..126 and 133..237 has gone out in exactly one write frame and every other byte in none; with the value it had if nothing landed in its section before |
| ImageDelivery.PendingDelivered | src/unit_comm.c:231-348 | with all write bits pending in any state of firmware and unit, that is so 30 results later, or 34 if a write is outstanding |
| ImageDelivery.ImageDelivered | src/mqtt_app.c:208-217 | an app image in any Connected state: 30 or 34 results later every byte of its sections has gone out in exactly one frame, with the image's value if nothing landed in its section before |
| ImageDelivery.EarlyImageDelivered | src/ble.c:628-649 | an app image before or during the load goes out from Connected in the same way: of sections not read since with the image's bytes, of the others with the bytes read |
| Timing.ElapsedExactly | src/unit_comm.c:123-153 | for true times less than 2^32 ms apart the test fires exactly when its first reading reaches the limit or the counter has wrapped by its second |
| Timing.PollingRate | src/unit_comm.c:117-151 | between wraps any window of T ms in Running mode holds at most T/1000+1 polls and T/4000+1 debug requests |
| Polling.TimersSendExactly | src/unit_comm.c:120-151 | in true time: on a free line an iteration sends exactly one debug request if it is Running and 4 s are over or the counter has wrapped, else exactly one poll if 1 s (Running) or 5 s (PowerOff) are over or it has wrapped, and holds the line; else nothing; on a held line nothing |
| Polling.SendsAtLeast | src/unit_comm.c:120-151 | over runs between wraps, whatever is read: if the line is free whenever a timer fires, the timers send at least once per period and `d`, the time from one poll test to the end of the next poll |
| Polling.PolledAtLeast | src/unit_comm.c:137-151 | so at least one poll per 5 s and `d` in PowerOff, and per 1 s and `d` in Running, less one debug request per 4 s |
| Noticed.SilenceEndsInPoll | src/unit_comm.c:137-151 | while nothing is read and no debug request is due, a free line with nothing pending is polled exactly when the poll timer is a period old at a poll test |
| Noticed.WaitEndsInPoll | src/unit_comm.c:137-151 | whatever the unit changes meanwhile: exactly one poll has then gone out, and the unit's answer to it carries its present counters |
| Noticed.AnswerBringsUpToDate | src/unit_comm.c:796-842 | from the answer to a poll, 30 results bring the section up to date if nothing changes meanwhile and no result drops it |
| Noticed.ChangeIsNoticed | src/unit_comm.c:137-348 | so a change made at the unit is noticed: from a free line with nothing pending, the poll goes out, and 30 results after its answer the section has been the unit's |
| Timing.TimeoutExactly | src/unit_comm.c:153-159 | the timeout test in true time: at 15 s or at a wrap the error state with the line free and nothing pending, else nothing |
| Timing.TimesOutExactly | src/unit_comm.c:123-159 | an iteration leaves Connected exactly if the counter wraps between the last restart of the timeout timer and its test; the 15 seconds themselves never pass |
| Timing.WrapIsInsideIteration | src/unit_comm.c:137-159 | unless the timeout timer was set before the poll timer in another run of the counter, that wrap falls between the poll test and the timeout test of one iteration |
| Timing.ConnectedExactly | src/unit_comm.c:123-159 | over whole runs, whatever is read, rejected or lost: still Connected exactly if no iteration has such a wrap |
| Timing.NeverTimesOut | src/unit_comm.c:130-159 | so always, if no wrap falls inside the tests of an iteration or between the timers at entry |
| Timing.LostReplyHangs | src/unit_comm.c:130-149 | if nothing more is read while a request is out, nothing is ever sent again, whatever the clock shows |
| Timing.WrapInsideIterationIsFatal | src/unit_comm.c:137-159 | readings of one iteration that lead to the error state half a second after all timers were set |
| Timing.WrapAtEntryIsFatal | src/unit_comm.c:153-159 | a counter that wraps between the last two handshake steps sends the first iteration to the error state, if that comes within 900 ms |
| Greeting.FirstAnswerDecides | src/unit_comm.c:402-414 | a call that is not late while the first answer is waited for leads to the bootloader exactly if its flag is up after Read_Message, whatever that returned; else to LinkConnected exactly on a message; and changes nothing else |
| Greeting.GreetingSkipsValidation | src/WBM_Serial.c:153-185 | the ten bytes of "Bootloader" alone are accepted with their length |
| Greeting.GreetingEntersBootloader | src/unit_comm.c:402-414 | from the bytes on the line, for any port: an arrival takes the waiting handshake to the bootloader within two calls exactly if it has fewer than 128 bytes and "Bootloader" before any NUL, or the flag was up before |
| Greeting.OnlyGreetingEntersBootloader | src/unit_comm.c:360-615 | over every run of arrivals and calls from power-up: in the bootloader only if some arrival had that text |
| Greeting.AckBringsChunk | src/unit_comm.c:663-713 | an arrival and the two calls after it bring exactly one more chunk if it has "ACK" before any NUL and not "Bootloader", and none otherwise |
| Greeting.AcksDeliverFile | src/unit_comm.c:601-713 | from the bytes on the line to the file: whatever arrives, the transfer has ended exactly once 16 bytes per acknowledgement cover the file, and its payloads then decode to it exactly if the size is a multiple of four |
| Seeking.SilentRound | src/unit_comm.c:365-401 | a whole round without an answer sends exactly two polls, the second once the first has waited 15 s; when that has waited its own 15 s the handshake is back at its start, at 9600 baud |
| Handshake.ConnectLoads | src/unit_comm.c:424-555 | the six load states do the same thing at their own addresses |
| Handshake.TakesShape | src/unit_comm.c:424-555 | what a load state does with a message: one reply fewer, one request more, and the payload at its own address, whatever was answered |
| HandshakeLoad.StepKeeps | src/unit_comm.c:416-571 | every step of firmware, unit, line and app keeps: a section read so far is the unit's of `unseen` changes ago, or an app image came since and its write is pending; uncovered bytes are the last image's or untouched; only the awaited request is unanswered |
| HandshakeLoad.EntersKnowing | src/unit_comm.c:572-586 | entering Connected raises exactly the read bits of the sections whose counter was another when the unit served the closing poll: of a copy, because the unit changed it (modulo 256) after serving its read; of an image, because it carries another |
| HandshakeLoad.HandshakeLoads | src/unit_comm.c:416-599 | for any initial mirror, any changes of the unit and app images at any moment, reaching Connected with no poll left unanswered means that each section is what the unit held `unseen` changes ago, or has the bytes of an image that came after its read and its write pending; the line is free, and pending are exactly the images' writes and the reads of differing sections |
| HandshakeLoad.HandshakeStartsCoherence | src/unit_comm.c:572-599 | every such handshake ends, for each section, in a state from which the coherence theorems start |
| HandshakeLoad.QuietUnitIsLoaded | src/unit_comm.c:416-599 | with a unit and an app that change nothing, bytes 0..126 and 133..237 are the unit's, the rest is unchanged and nothing is pending |
| Handshake.FoundWithUnanswered | src/unit_comm.c:372-415 | from power-up, the polls unanswered when the link is found are those sent but for the answered and the lost ones; until then only app images touch mirror and mask |
| HandshakeShift.EachTakesEarlierAnswer | src/unit_comm.c:424-571 | with `k` polls left unanswered, whatever is lost: the answers taken come in the order sent and none later than the state's own; each of the six states copies its one to its own address, and Connected is entered with `k` less the lost requests unanswered; with nothing lost, each comes exactly `k` places early |
| HandshakeShift.OwnFromThere | src/unit_comm.c:424-571 | how many places early an answer comes never grows from state to state |
| HandshakeShift.RightOnceCaughtUp | src/unit_comm.c:424-571 | whatever is lost: from the first state that takes its own answer on, every section read is right; all are if it is the first state |
| HandshakeShift.RightAfterOneExactly | src/unit_comm.c:424-571 | with one poll left unanswered and nothing lost afterwards, every byte of the loaded mirror, 59..143 holding DayProg bytes 153..237 among them; the load is right exactly if these bytes happen to coincide |
| HandshakeShift.RightExactlyIfNoneUnanswered | src/unit_comm.c:424-571 | with none left unanswered the load is right whatever is lost; with up to five and nothing lost afterwards, for every unit whose bytes tell, it is right exactly if there is none; the line is free of old requests exactly if as many were lost as were left unanswered |
| HandshakeShift.RightExactlyIfOthersLost | src/unit_comm.c:372-571 | from power-up: right if every poll but the answered one was lost; and only then, if nothing is lost after the link is found, under the same condition on the unit and on the number of polls |
| HandshakeShift.SixPollsLoadNothing | src/unit_comm.c:424-571 | with six or more left unanswered and nothing lost afterwards nothing of the unit's EEPROM is loaded |
| ShiftedRun.LateAnswerSpoilsLoad | src/unit_comm.c:372-571 | for every unit and initial mirror: a run from power-up in which nothing is lost, the first poll is answered after its timeout, and Connected is entered with bytes 59..143 wrong and a poll unanswered |
| HandshakeTrace.StepTrace | src/unit_comm.c:365-582 | one call, whatever it reads, keeps the order of frames: rounds of two polls, one or two polls, the six section reads, a poll; it starts at most one new round |
| HandshakeTrace.FramesInOrder | src/unit_comm.c:365-582 | whatever is read, whole runs keep that order, and retries never exceed 2 |
| HandshakeTrace.FramesFromPowerUp | src/unit_comm.c:365-582 | so from power-up the frames sent are whole rounds of two polls, then one or two polls, then the first frames of: six section reads in order and a poll; none of these before the link is found |
| HandshakeTrace.StepOnTime | src/unit_comm.c:424-571 | no load state outlives its 15 seconds by a call, and each earlier one took less than that and the time `d` a call may take from its test to the restart of the timer |
| HandshakeTrace.LoadStarts | src/unit_comm.c:416-423 | the load's clock starts when the first section request has gone out |
| HandshakeTrace.LoadEnds | src/unit_comm.c:416-582 | whatever is read, the load has ended in Connected or Error one call after seven times 15 seconds and `d`, for any bound `d` on the time inside a call |
| BootTransfer.WordDecodes | src/unit_comm.c:676-684 | the eight characters of a word decode to its bytes in file order |
| BootTransfer.TextDecodes | src/unit_comm.c:674-684 | the text of whole words decodes to the bytes |
| BootTransfer.HeaderDecodes | src/unit_comm.c:626-647 | the header reads back as the size modulo 2^24 and the first word |
| BootTransfer.Progress | src/unit_comm.c:663-713 | after n ACKs the payloads sent are the text of the first 16 n bytes, until all are sent |
| BootTransfer.DeliversFile | src/unit_comm.c:624-713 | exactly ceil(size/16) ACKs end the transfer of a non-empty file, and the payloads decode to the file exactly if the size is a multiple of four |
| BootTransfer.AckProgress | src/unit_comm.c:670-708 | each ACK but the last leaves strictly fewer bytes, and the last ends the transfer |
| BootTransfer.EmptyFileNeverEnds | src/unit_comm.c:688-710 | an empty file is announced with size 0 and never reaches the end state |
| BootTransfer.NoFileSendsZeros | src/unit_comm.c:607-621 | without a file the header reads back as size 0 and first word 0 |
| BootTransfer.Transfer.Begin | src/unit_comm.c:601-661 | the opening state sends the header and opens the transfer, or waits for the server update |
| BootTransfer.Transfer.Continue | src/unit_comm.c:663-713 | one call reads the port and, if an ACK came, clears the flag and sends the next chunk |
| BootTransfer.Transfer.FillWords | src/unit_comm.c:674-684 | the word loop leaves exactly the encoded chunk at the front of the send buffer |
| BootTransfer.Transfer.WriteSize | src/unit_comm.c:631-636 | the size's six nibbles, highest first, as characters at the front of the buffer |
| PreparedWrite.PrepareEnv.Prepare | src/ble.c:585-626 | a fragment is stored at its offset, or refused with the source's status and nothing changed |
| PreparedWrite.PrepareEnv.Execute | src/ble.c:628-649 | executing hands the first 241 bytes to the unit task as an image; cancelling changes nothing; either way the buffer is gone |
| PreparedWrite.AcceptedExactly | src/ble.c:588-601 | the first fragment is accepted exactly if there is memory, a later one exactly if it ends within 1024 bytes, and a refusal tells whether it begins there |
| PreparedWrite.RunGathersAccepted | src/ble.c:585-626 | over any fragments: the buffer is what the accepted ones leave, in their order; a refused one changes nothing |
| PreparedWrite.QueuedWriteGathersImage | src/ble.c:585-649 | any split of an image, overlapping or not, in any order: every fragment is accepted, and they are gathered to that image whatever the fresh buffer held |
| Provisioning.BleProvisioning.WriteSsidChunk | src/ble.c:481-497 | an SSID chunk restarts the timer, extends the packet or empties it with ERROR, refreshes the string, and shows READY with an offered request if a password is there, else WAIT_PASSWORD |
| Provisioning.BleProvisioning.WritePasswordChunk | src/ble.c:498-512 | the same for a password chunk, which without an SSID shows WAIT_SSID |
| Provisioning.BleProvisioning.ConnectToCloud | src/ble.c:513-528 | with both parts the request is offered, then DONE with both cleared, or ERROR if the SSID string is empty; without one of them ERROR |
| Provisioning.BleProvisioning.Disconnect | src/ble.c:742-748 | a disconnect clears both parts and waits for an SSID with the timer running |
| Provisioning.BleProvisioning.Timeout | src/ble.c:142-147 | the timer clears both parts and shows ERROR with the timer stopped |
| Provisioning.BleProvisioning.SetStatus | src/ble.c:155-170 | the timer runs exactly in WAIT_SSID, WAIT_PASSWORD and READY |
| Provisioning.BleProvisioning.SetRuntimeReady | src/ble.c:172-179 | the runtime flag replaces the status and stops the timer |
| Provisioning.BleProvisioning.CopyToString | src/ble.c:113-127 | as much of the packet as fits, then a NUL |
| Provisioning.StepKeepsExactly | src/ble.c:69-179 | an event keeps the invariant below exactly if it is not an empty chunk, with a successful allocation, of an SSID without bytes, or of a password without bytes after an SSID |
| Provisioning.RunKeepsExactly | src/ble.c:481-528 | over every event sequence READY has both parts, WAIT_PASSWORD only the SSID, WAIT_SSID no SSID, DONE neither, and in the first three the timer runs, all along exactly if no event is such a chunk |
| Provisioning.Reassembles | src/ble.c:69-127 | chunks of both parts in any order within the limits: packets and NUL-terminated strings are their concatenations, and the state says what is missing |
| Provisioning.OverflowEmpties | src/ble.c:83-90 | a later chunk that would pass the limit empties its packet, shows ERROR and leaves the strings |
| Provisioning.LongFirstChunkIsCut | src/ble.c:70-81 | the first chunk is not checked: the packet keeps it whole and the string is cut |
| Provisioning.ReadyOffersTexts | src/ble.c:490-512 | the write that completes both parts offers exactly the two strings to the queue |
| Provisioning.ConnectOffersExactly | src/ble.c:513-528 | the connect command with both parts there offers exactly the two strings, and ends in DONE with both gone exactly if the SSID string is not empty, else in ERROR with both kept; with a part missing it offers nothing and ends in ERROR |
| Provisioning.DoneIffAccepted | src/ble.c:518-527 | DONE is shown exactly if the queue accepts the request, whatever its consumer does, and what it accepts are the two strings |
| Provisioning.ConnectDeliversChunks | src/ble.c:481-528 | chunks of both parts and the connect command: DONE, and the queue has accepted exactly the SSID and password written |
| Provisioning.NothingIsLeftOver | src/ble.c:742-748 | after a disconnect or the timer, whatever was written before, the next request has the chunks written since only |
| Provisioning.ActivityStartsTimer | src/ble.c:131-147 | a connection or any other write starts the timer in every state, which forgets both parts if nothing more comes |
| Provisioning.TimerIsOver | src/ble.c:155-179 | the connect command, the runtime flag and the timer itself end the wait: the timer then does nothing |
| Provisioning.AcceptedAsWritten | src/mqtt_app.c:59-95 | an SSID and password within the limits are accepted as they are, with the caller's choice to keep them: true for BLE, false at boot |
| Provisioning.ChunksReachQueue | src/ble.c:481-512 | from chunks to queue: the request accepted has exactly the SSID and password written |
| WifiQueue.WifiManager.Enqueue | src/mqtt_app.c:59-95 | send; if full, drop the oldest and send again, with any number of consumer receives in between; nothing at all for an empty SSID |
| WifiQueue.WifiManager.ConsumeOne | src/mqtt_app.c:342-347 | one receive takes the oldest request and passes over the one held, or applies it on an empty queue |
| WifiQueue.WifiManager.ConsumerRuns | src/mqtt_app.c:342-347 | any number of turns of the drain loop has the effect of as many single receives |
| WifiQueue.EnqueueKeeps | src/mqtt_app.c:59-83 | making and first sending a request keeps the queue's invariant |
| WifiQueue.ProceedKeeps | src/mqtt_app.c:83-91 | dropping the oldest request and sending again never fails and keeps the invariant |
| WifiQueue.ConsumeKeeps | src/mqtt_app.c:342-347 | a receive keeps the invariant |
| WifiQueue.RunKeeps | src/mqtt_app.c:59-95 | under every interleaving of queue operations no enqueue fails and the invariant holds |
| WifiQueue.EnqueueNeverFails | src/mqtt_app.c:59-95 | whatever the consumer does meanwhile, an enqueue with an SSID succeeds and is the last one accepted |
| WifiQueue.EmptySsidIsIgnored | src/mqtt_app.c:59-71 | without an SSID nothing happens: no number is used up and nothing is dropped |
| WifiQueue.QueueIsOrdered | src/mqtt_app.c:59-95 | at most eight requests with ascending ids, applied ids ascend, and each dropped or passed-over request is superseded by a later accepted one |
| WifiQueue.QueueIsNewest | src/mqtt_app.c:83-91 | under every interleaving the queue is a tail of the accepted requests: to make room the oldest is dropped |
| WifiQueue.NinthDropsFirst | src/mqtt_app.c:83-91 | a ninth request that nobody makes room for drops exactly the first of the eight |
| WifiQueue.DrainSelectsLast | src/mqtt_app.c:342-347 | once producers stop, the next full drain applies the last accepted request last, and every accepted request was applied or superseded exactly once |
| Printer.Publish | src/mqtt_app.c:124-143 | json_len equals the text's length at every step, and the whole text is published |
| Printer.ParserRecovers | src/mqtt_app.c:124-137 | a decimal-list parser recovers exactly the bytes, whatever topic and address are |
| Printer.MembersReadBack | src/mqtt_app.c:124-137 | a parser that looks members up by their keys finds the list under "message", the topic under "topic" and the address under "address", for every topic and address without a double quote |
| Printer.JsonLength | src/mqtt_app.c:124-137 | the exact length of the text as a sum of decimal widths, so exactly which payloads fit the buffer; at most 37+4n+topic+address for n>0 bytes |
| Printer.EepromPublicationFits | src/mqtt_app.c:124-137 | a publication of the 241-byte EEPROM fits whatever it holds exactly if topic and address have at most 22 characters together |
| FirmwareStore.HttpStore.OnConnected | src/main.c:186-212 | without a file a new one is opened if possible; with one its version is read over the buffer, which is then cleared |
| FirmwareStore.HttpStore.OnChunk | src/main.c:220-272 | while a version is known the chunk is loaded and the third decides: keep, replace or lose the file; otherwise it is appended to a file being written or ignored |
| FirmwareStore.HttpStore.OnFinish | src/main.c:290-299 | finishing closes a file being written |
| FirmwareStore.HttpStore.OnError | src/main.c:174-185 | an error removes a file being written |
| FirmwareStore.NoFileTakesBody | src/main.c:189-198 | without a stored file the whole body becomes the file for any chunking |
| FirmwareStore.StoredFileKept | src/main.c:199-235 | a stored file stays if its version reads 0 or the chunks do not bring the load counter to three; they stay counted for the next check |
| FirmwareStore.StoredFileReplaced | src/main.c:222-272 | otherwise, in whatever state earlier checks left the counters: it stays if the deciding chunks have its version, is lost if no file can be opened, and else is replaced by as many bytes from the buffer on as were counted and the later chunks; the chunk count starts again at 0, the bytes stay counted |
| FirmwareStore.FirstCheck | src/main.c:189-272 | the first check after boot leaves the file unchanged if the versions match and stores the whole body otherwise |
| FirmwareStore.LeadingTellsVersion | src/main.c:230-233 | deciding chunks of 1174 bytes or more have the version of the whole body |
| FirmwareStore.VersionReads | src/main.c:204-204 | byte 1173 is the hundreds, byte 1172 tens and ones in binary-coded decimal |
| FirmwareStore.InterruptedLeavesNoPart | src/main.c:174-185 | a download that fails after any chunks leaves no partly written file; a stored file not yet given up stays as it was |
| FirmwareStore.ReplacedByBodyIffFirst | src/main.c:222-272 | a check that replaces the file, whatever the load counter was, stores the body exactly if the bytes that earlier checks counted are a multiple of 2^16 |

## Left out

- UnitTask.Task.ConnectToUnit: the transfer to the bootloader is a class of its own on the same port.
- UnitTask.Task.HandleMessage: takes the copy of a read reply to stay inside the record; leaves out publishing replies over MQTT and BLE, the measurements, alarms and debug fields copied out of them, and their conversion to floating point.
- The request mask is a set of bit positions: the source only sets, clears and tests single bits of its 16-bit word.
- Codec.WriteMessage: takes the checksum position to be at most 126; beyond it the source writes outside the buffer.
- Requests.SendWriteRange: takes the count to be at most 120; beyond it the source writes outside its local buffer.
- Requests.SendPollingBase: the serial number has at most 120 bytes here, 20 in the source.
- UnitTask.Task.ParseRead: a reply whose range leaves the record is a precondition and not a behaviour.
- Coherence.CoherentExactly: starts from a handshake with no poll left unanswered, and takes the answer to a rejected request never to arrive later, although a message of another origin could free the line while it is still under way.
- Coherence.CoherentWithWrites: does not cover the states after a result that loses the section, because Coherence.LostIsStale and Coherence.StaleForGood refute it there.
- Coherence.QuietUnitIsCopied: does not cover the HWSetting section, which has no counter and is read by the handshake only.
- Drain.DrainsWithin: counts results of Read_Message; a reply that is lost altogether gives none (Timing.LostReplyHangs).
- HandshakeLoad.HandshakeLoads: takes no poll to be left unanswered when the link is found; HandshakeShift says what happens otherwise.
- HandshakeShift.EachTakesEarlierAnswer: takes neither the unit nor an app to change anything meanwhile.
- HandshakeShift.RightExactlyIfNoneUnanswered: the direction from right to none is about runs that lose nothing, because a shifted load that catches up is wrong only where a poll reply's bytes show, and is about units whose bytes 0, 59, 76, 133 and 153 tell the sections apart; for other units a shifted load may be right by coincidence, byte for byte as HandshakeShift.RightAfterOneExactly says for one poll.
- Timing.ConnectedExactly: takes an iteration to need less than five seconds from its poll test to its timeout test, iterations to be less than 2^32 - 10000 ms apart, and the handshake to end within five seconds of its last reply.
- Timing.PollingRate: is about windows without a wrap of the 32-bit counter; at a wrap every timer fires at once.
- The error state of the unit task: nothing leaves it.
- Printer.MembersReadBack: its parser knows no escapes, because the source writes none; a topic or address with a double quote would end its member early.
- Noticed.ChangeIsNoticed: the line is free at its start and no debug request is due while it waits; Timing.LostReplyHangs says what a line that is never freed does.
- Printer.Publish: does not cover texts of 1024 characters or more, for which the source's next address lies beyond its buffer; Printer.JsonLength says exactly which payloads these are.
- PreparedWrite.PrepareEnv.Prepare: does not cover a first fragment that leaves the buffer, which the source copies unchecked.
- Provisioning.Reassembles: takes no concurrent change of the global strings by the Wi-Fi manager.
- Provisioning.RunKeepsExactly: takes timer operations to succeed.
- WifiQueue.QueueIsOrdered: is about fewer than 2^32 requests, after which ids repeat; producers do not overlap each other.
- WifiQueue.WifiManager.ConsumeOne: what applying a request does to the Wi-Fi driver, NVS and the MQTT client.
- FirmwareStore.HttpStore.OnChunk: takes the copy into the buffer to stay inside its 1536 bytes.
- FirmwareStore.HttpStore.OnError: that the file handle stays open.
- BootTransfer.Transfer.Begin: the exclusion between the server download and the transfer beyond the flag read here.
- The ESP32's own OTA update, Wi-Fi start and stop, GATT tables, certificates, GPIO and LEDs.
