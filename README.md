# HLK-LD2450 hub driver, modelled in Dafny

This project models the ESPHome driver for the HLK-LD2450 millimetre-wave
radar (`components/LD2450/LD2450.cpp`). The radar talks a vendor-specific
serial protocol, and the driver handles both directions of it:

- **Target-update frames.** A frame is `AA FF 03 00`, then three 8-byte
  target records, then `55 CC`. Each record holds x, y, speed and the
  distance resolution as little-endian 16-bit pairs: x and speed in
  sign-magnitude, y offset by 0x8000 with 0 as "no data".
- **Configuration frames.** A frame is `FD FC FB FA`, then a 2-byte length,
  then the payload, then `04 03 02 01`. The driver sends commands in this
  form and receives the acknowledgements in this form.

One call of `loop` does four things, in this order:

1. **Command queue engine.** Outside configuration mode it puts
   ENTER_CONFIG in front of a non-empty queue, unless ENTER_CONFIG is
   already at its front. It retransmits the front command after a retry
   delay and drops it after a retry cap. Outside configuration mode the
   front is always the injected ENTER_CONFIG, so only that is ever dropped
   there. It appends LEAVE_CONFIG once the queue has drained in
   configuration mode.
2. **Header scanner.** It skips input until it recognises one of the two
   headers, and records which one in `peek_status_`.
3. **Target-frame reader.** It takes the 26 bytes after a target header
   once 28 are available. When the trailer is `55 CC` it hands them to
   `process_message`. That function decodes the three records, flips x if
   configured, gates each slot by distance with a hysteresis margin, and
   recomputes occupancy.
4. **Config-frame reader.** It reads the payload length once and caches it
   across polls, unless the length is zero (see below). When the payload
   and trailer are complete it consumes them and, on a good trailer, hands
   them to `process_config_message`. That function pops an acknowledged
   front command and tracks configuration mode.

`write_command` lays out an outbound config frame.

## Modules

- `wire.dfy` (module `Wire`) covers bytes and the byte layout. It holds:
  - the field decoding of lines 182-191, including the `int16_t` narrowing;
  - its inverse encoding, with the round-trip lemmas;
  - the outbound frame layout.
- `targets.dfy` (module `Targets`) covers a slot and what a target-update
  frame does to it, plus occupancy.
- `framesync.dfy` (module `FrameSync`) covers the header scanner and the
  resumable config-frame reader, specified as functions over the received
  bytes and a cursor.
- `commands.dfy` (module `Commands`) covers the queue engine and the
  acknowledgement handler, specified on a value `Engine`.
- `hub.dfy` (module `Hub`) holds the class `LD2450`, with the driver's own
  fields. Its methods mirror the driver's code: the `while` loop of the
  scanner with its nested `for` loop, the two loops of `process_message`,
  and the step-by-step writes of `write_command`. Each method is proved
  against a specification function. `LD2450.Loop` is proved to perform
  `LoopStep`, one poll on a value `State` made of exactly those fields.

The UART is modelled by two fields. `rx` holds every byte received, with a
read cursor `cursor`; `tx` holds every byte written. Time is a parameter
`now` of `Loop`.

## Where the code differs from what one might expect

The model follows the code as written in each of these cases.

- **Unconditional update.** `update_values` is called unconditionally at
  line 196, before the gate at lines 199-202. So a slot always takes the
  frame's values unless it is cleared, and `is_present()` in the gate is
  read after that update (`Targets.SlotAfter`).
- **Hysteresis boundary.** A target that is still present with
  `y == D + M` is kept, not cleared (`Targets.MarginBoundary`).
- **Scanner discard.** On a mismatch the scanner discards every byte it
  read, up to and including the mismatching one, not just one. A stray
  `AA` right before a real target header therefore makes the scanner lose
  that header (`FrameSync.ScanLosesOverlappedHeader`).
- **Length high byte.** `write_command` writes
  `static_cast<uint8_t>(len << 8)` as the length high byte, which is always
  zero (`Wire.LengthHighAsWritten`). Commands shorter than 256 bytes are
  read back intact (`FrameSync.FrameReadBack`). A 256-byte command reads
  back as length 0 (`FrameSync.FrameLengthWrapsAt256`), so it is never
  delivered whole. If its first four bytes happen to be `04 03 02 01`,
  exactly those four are delivered, as a frame with an empty payload.
  Commands in this driver are a few bytes long, so this is recorded as behaviour, not as a
  defect.
- **Zero length is not cached.** Zero is also the value meaning "no length
  cached", which line 151 tests. Suppose a config frame's length bytes
  `00 00` arrive in one poll and its trailer in the next. The next poll
  then reads `04 03` as the length 0x0304 and delivers nothing
  (`FrameSync.ZeroLengthNotCached`). When the trailer is already there in
  the same poll, the empty frame is delivered.
- **Retry cap outside configuration mode.** Lines 76-79 put ENTER_CONFIG
  back in front of the queue on every poll outside configuration mode,
  before the cap test at lines 86-91. So the cap only ever drops the
  injected ENTER_CONFIG, never the command queued behind it. With a sensor
  that does not answer, ENTER_CONFIG goes out `COMMAND_MAX_RETRIES` times,
  is dropped, and the engine is back where it started. The command is never
  sent and never dropped, the queue never drains, and the cap warning
  repeats every `COMMAND_MAX_RETRIES + 1` polls
  (`Commands.RetryCapStallsOutsideConfig`). The retry cap drops a command
  only in configuration mode, or when the command is ENTER_CONFIG itself
  (`Commands.RetryCapDrops`).
- **Empty queue.** `process_config_message` copies `front()` before it
  tests the queue's size (line 231). On an empty queue that copy is
  undefined behaviour in C++. The model assumes it is harmless and reads
  the front only when the queue is non-empty.
- **Ack marker.** The acknowledgement test is `msg[1] == 0x01` (lines 232,
  239, 244), on the bytes that follow the length in a config frame.

## Model

| member | source | states |
|---|---|---|
| Wire.Word | components/LD2450/LD2450.cpp:182-191 | `hi << 8 \| lo` is a 16-bit word whose low byte is lo and high byte hi |
| Wire.SignBit | components/LD2450/LD2450.cpp:183-189 | bit 7 of the high byte (`& 0x80`), the sign flag of x and of the speed (a predicate, defined by its body) |
| Wire.Int16 | components/LD2450/LD2450.cpp:182-187 | narrowing to `int16_t` lands in [-32768, 32767], is congruent modulo 2^16, and leaves in-range values alone |
| Wire.DecodeX | components/LD2450/LD2450.cpp:182-184 | x is minus the low 15 bits when bit 7 of the high byte is set, the word otherwise, so always within ±32767, despite the `int16_t` arithmetic |
| Wire.DecodeY | components/LD2450/LD2450.cpp:185-187 | y is 0 for the zero word and `word - 0x8000` otherwise |
| Wire.DecodeSpeed | components/LD2450/LD2450.cpp:188-190 | speed, computed in a plain `int`, equals the sign-magnitude decoding of x |
| Wire.DecodeRecord | components/LD2450/LD2450.cpp:180-191 | a record decodes into the value ranges and the resolution is the plain word |
| Wire.DecodePayload | components/LD2450/LD2450.cpp:178-191 | the three records sit at offsets 0, 8 and 16 |
| Wire.RecordRoundTrip | components/LD2450/LD2450.cpp:182-191 | encoding any in-range reading and decoding it gives the reading back |
| Wire.RecordBytesRoundTrip | components/LD2450/LD2450.cpp:182-191 | decoding then encoding 8 bytes gives them back unless a signed word is 0x8000, the second spelling of zero |
| Wire.PayloadRoundTrip | components/LD2450/LD2450.cpp:178-191 | a 24-byte payload without 0x8000 words is reproduced by decoding and encoding |
| Wire.LengthHighAsWritten | components/LD2450/LD2450.cpp:262 | the high length byte as written is always 0 |
| Wire.CommandFrame | components/LD2450/LD2450.cpp:257-268 | the frame is header, `len mod 256`, 0, the command, trailer: len + 10 bytes |
| Targets.UpdateValues | components/LD2450/LD2450.cpp:196 | `update_values` stores the values it is given |
| Targets.Flipped | components/LD2450/LD2450.cpp:194 | x is negated exactly when `flip_x_axis_` is set; y, speed and resolution are untouched |
| Targets.SlotAfter | components/LD2450/LD2450.cpp:193-202 | a slot takes the flipped values or is cleared; near targets are kept; present targets are kept up to `D + M`; farther ones not held are cleared; inside the band an absent one keeps the unconditional update; a kept target is the result of storing the values twice, so presence is decided a second time |
| Targets.TargetsAfter | components/LD2450/LD2450.cpp:178-203 | the first loop of `process_message` keeps the number of slots; `TargetsAfterSlots` gives each slot |
| Targets.TargetsAfterSlots | components/LD2450/LD2450.cpp:178-203 | `process_message` gates slot i < 3 against record i and leaves any further slot alone |
| Targets.TargetsAfterPrefix | components/LD2450/LD2450.cpp:178-191 | only the first 24 bytes of the message affect the slots |
| Targets.CountPresent | components/LD2450/LD2450.cpp:205-209 | the target count is at most the slot count; it is 0 iff no slot is present and full iff all are |
| Targets.Occupied | components/LD2450/LD2450.cpp:205-210 | `is_occupied_`, computed as `target_count > 0`, holds iff some slot is present |
| Targets.MarginBoundary | components/LD2450/LD2450.cpp:199-202 | at `y == D + M` a present target is kept and an absent one cleared |
| Commands.Injected | components/LD2450/LD2450.cpp:76-79 | ENTER_CONFIG is put in front exactly when not in configuration mode and not already at the front; otherwise the queue is unchanged |
| Commands.QueueStep | components/LD2450/LD2450.cpp:73-105 | retries stay within the cap; a sent command is the front, sent in configuration mode or ENTER_CONFIG itself; at the cap the front is dropped and nothing sent; LEAVE_CONFIG is appended exactly when the queue is empty in configuration mode |
| Commands.AckStep | components/LD2450/LD2450.cpp:228-247 | only the front is removed, and only by its acknowledgement, which resets retries and timestamp; mode follows successful ENTER/LEAVE_CONFIG replies and nothing else |
| Commands.Acknowledges | components/LD2450/LD2450.cpp:232 | a reply acknowledges the front when the queue is non-empty, the opcodes agree and byte 1 is 0x01 (a predicate, defined by its body) |
| Commands.ReadVersionChangesNothing | components/LD2450/LD2450.cpp:249-252 | a READ_VERSION reply that does not acknowledge the front changes nothing |
| Commands.Replay | components/LD2450/LD2450.cpp:73-105 | polling without acknowledgements keeps the queue well-formed and the mode unchanged |
| Commands.RetryCapDrops | components/LD2450/LD2450.cpp:76-97 | in configuration mode, or when the front is ENTER_CONFIG itself, an unacknowledged front is sent until the count reaches the cap, from zero exactly `COMMAND_MAX_RETRIES` times, then dropped with the count reset |
| Commands.RetryCapStallsOutsideConfig | components/LD2450/LD2450.cpp:76-97 | outside configuration mode, with no answer, ENTER_CONFIG is sent `COMMAND_MAX_RETRIES` times and then dropped; the queued command is never sent, and the queue, the retry count and the mode are as they started |
| Commands.EnterConfigGoesFirst | components/LD2450/LD2450.cpp:73-97 | a command queued outside configuration mode is preceded on the line by ENTER_CONFIG and stays queued behind it |
| Commands.LeaveConfigAppendedOnce | components/LD2450/LD2450.cpp:99-104 | LEAVE_CONFIG is appended once, then sent without another being appended |
| Commands.AckOfEnterReleasesNext | components/LD2450/LD2450.cpp:228-241 | an acknowledged ENTER_CONFIG enters configuration mode and the next command goes out on the next poll |
| FrameSync.HeaderFor | components/LD2450/LD2450.cpp:114-123 | the header tried is one of the two headers, chosen by the peeked byte |
| FrameSync.KindFor | components/LD2450/LD2450.cpp:114-123 | a matched header always records a frame kind |
| FrameSync.FirstMismatch | components/LD2450/LD2450.cpp:125-129 | the index found is the first mismatch: every byte before it agrees with the header, and the byte there differs (or it is 4) |
| FrameSync.NoMismatch | components/LD2450/LD2450.cpp:125-129 | no mismatch means the four bytes are the header |
| FrameSync.Scan | components/LD2450/LD2450.cpp:108-135 | the scanner moves forward only; stopping with nothing means fewer than 4 bytes are left; stopping with a kind means a header was consumed |
| FrameSync.ScanNeedsFour | components/LD2450/LD2450.cpp:108 | with fewer than 4 bytes available nothing is consumed or recorded |
| FrameSync.ScanStopsAfterHeader | components/LD2450/LD2450.cpp:108-135 | `peek_status_` becomes 1 (or 2) only right after exactly `AA FF 03 00` (or `FD FC FB FA`) was consumed |
| FrameSync.ScanAfterMismatch | components/LD2450/LD2450.cpp:125-131 | a failed attempt resumes after the mismatching byte |
| FrameSync.ScanAfterMatch | components/LD2450/LD2450.cpp:125-134 | a successful attempt stops right after the header |
| FrameSync.ScanSlidesOne | components/LD2450/LD2450.cpp:114-131 | a byte that starts neither header is discarded alone |
| FrameSync.ScanFindsHeader | components/LD2450/LD2450.cpp:108-135 | a header at the cursor is recognised at once |
| FrameSync.ScanSkipsNoise | components/LD2450/LD2450.cpp:108-135 | after noise holding neither first byte, the scanner consumes exactly the noise and the header that follows |
| FrameSync.ScanFailsAtSecond | components/LD2450/LD2450.cpp:125-131 | an attempt failing at the second byte consumes two bytes |
| FrameSync.ScanLosesOverlappedHeader | components/LD2450/LD2450.cpp:125-131 | a stray `AA` before a target header makes the scanner skip the header |
| FrameSync.ConfigReady | components/LD2450/LD2450.cpp:149 | the config-frame reader has work: two bytes to read the length from, or a length already cached (a predicate, defined by its body) |
| FrameSync.HasConfigTrailer | components/LD2450/LD2450.cpp:166 | the four bytes after the payload are `04 03 02 01` (a predicate, defined by its body) |
| FrameSync.FrameLength | components/LD2450/LD2450.cpp:151-157 | the cached length is kept; otherwise the little-endian length is read |
| FrameSync.ReadConfig | components/LD2450/LD2450.cpp:149-173 | the reader moves forward only and leaves the classification as config or none |
| FrameSync.AwaitFrame | components/LD2450/LD2450.cpp:159-172 | an incomplete frame consumes nothing more and keeps the length; a complete one is consumed whole, resets length and classification, and is delivered exactly when its trailer is right |
| FrameSync.ReadConfigCases | components/LD2450/LD2450.cpp:149-173 | nothing happens without input; a cached length is neither re-read nor changed; a length just read is stored (a zero one only as "none cached", see `ZeroLengthNotCached`); completion consumes length, payload and trailer and resets both fields; what is delivered is exactly the received payload with a good trailer, and a complete frame with a good trailer is always delivered |
| FrameSync.FrameReadBack | components/LD2450/LD2450.cpp:255-268 | a written command shorter than 256 bytes is classified as a config frame and delivered intact in one poll |
| FrameSync.FrameLengthWrapsAt256 | components/LD2450/LD2450.cpp:261-262 | a 256-byte command reads back as length 0 and is never delivered whole; at most its first four bytes come through, and only when they are the trailer |
| FrameSync.ZeroLengthNotCached | components/LD2450/LD2450.cpp:149-157 | a zero length is not kept across polls: the next poll reads the trailer's first two bytes as the length and delivers nothing |
| Hub.CommandPhase | components/LD2450/LD2450.cpp:73-105 | the engine step writes its transmission to the line as a command frame and touches nothing else |
| Hub.ScanPhase | components/LD2450/LD2450.cpp:108-135 | the scanner runs only with nothing pending and touches only cursor and classification |
| Hub.TargetFrame | components/LD2450/LD2450.cpp:137-148 | the reader stays within the input and keeps the slot count |
| Hub.UpdateReady | components/LD2450/LD2450.cpp:137 | the target-frame reader runs with a target header pending and at least 28 bytes available (a predicate, defined by its body) |
| Hub.UpdatePhase | components/LD2450/LD2450.cpp:137-148 | 26 bytes are consumed only with a target header pending and 28 available; the slots change only through a frame with a `55 CC` trailer, and then occupancy is recomputed |
| Hub.ConfigPhase | components/LD2450/LD2450.cpp:149-173 | the config reader runs only with a config header pending; the engine changes only by the acknowledgement of a delivered frame |
| Hub.ScanPhaseIs | components/LD2450/LD2450.cpp:108-135 | what the scanner leaves in its two fields fixes the scan phase's result |
| Hub.ConfigPhaseIs | components/LD2450/LD2450.cpp:149-173 | what the config reader leaves in its fields fixes the config phase's result |
| Hub.IncomingPhase | components/LD2450/LD2450.cpp:108-173 | receiving writes nothing and consumes the input in order |
| Hub.TargetFrameReadThrough | components/LD2450/LD2450.cpp:108-148 | a whole target frame at the cursor, with nothing pending, is read in one poll: the slots are gated against its payload and trailer, occupancy follows them, and 30 bytes are consumed |
| Hub.LoopStep | components/LD2450/LD2450.cpp:70-174 | a poll keeps the invariant, consumes input in order, and appends at most one command frame to the output |
| Hub.LD2450.constructor | components/LD2450/LD2450.cpp:15-19 | the hub starts with three cleared slots, nothing queued, pending, received or sent |
| Hub.LD2450.Available | components/LD2450/LD2450.cpp:108 | `available()`: the number of received bytes not yet read |
| Hub.LD2450.Peek | components/LD2450/LD2450.cpp:114 | `peek()`: the byte at the cursor, not consumed |
| Hub.LD2450.Read | components/LD2450/LD2450.cpp:127 | `read()` returns the byte at the cursor and consumes it |
| Hub.LD2450.ReadArray | components/LD2450/LD2450.cpp:140 | `read_array(buf, n)` returns the next n bytes and consumes them |
| Hub.LD2450.Loop | components/LD2450/LD2450.cpp:70-174 | `loop` performs `LoopStep` on the hub's fields and keeps the invariant |
| Hub.LD2450.ReadIncoming | components/LD2450/LD2450.cpp:108-173 | the receiving half of `loop` performs `IncomingPhase` |
| Hub.LD2450.CommandPhaseStep | components/LD2450/LD2450.cpp:73-105 | the queue engine performs `CommandPhase` |
| Hub.LD2450.ProcessCommandQueue | components/LD2450/LD2450.cpp:73-105 | the engine fields become `QueueStep`'s and its transmission is appended to the output |
| Hub.LD2450.ScanPhaseStep | components/LD2450/LD2450.cpp:108-135 | the scanner performs `ScanPhase` |
| Hub.LD2450.ScanHeader | components/LD2450/LD2450.cpp:108-135 | the `while` loop leaves cursor and classification as `Scan` does, and touches nothing with a frame pending |
| Hub.LD2450.ScanOnce | components/LD2450/LD2450.cpp:110-134 | one attempt consumes at least a byte and either records the kind `Scan` reports or leaves `Scan`'s result unchanged |
| Hub.LD2450.MatchHeader | components/LD2450/LD2450.cpp:125-129 | the `for` loop reads through the first mismatching byte, or all four, and reports whether one mismatched |
| Hub.LD2450.UpdatePhaseStep | components/LD2450/LD2450.cpp:137-148 | the target-frame reader performs `UpdatePhase` |
| Hub.LD2450.ReadUpdateFrame | components/LD2450/LD2450.cpp:137-148 | cursor, classification, slots and occupancy become `TargetFrame`'s |
| Hub.LD2450.ConfigPhaseStep | components/LD2450/LD2450.cpp:149-173 | the config-frame reader performs `ConfigPhase` |
| Hub.LD2450.ReadConfigFrame | components/LD2450/LD2450.cpp:149-173 | with a config header pending, cursor, classification, cached length and engine follow `ReadConfig` and the acknowledgement of what it delivers; otherwise nothing changes |
| Hub.LD2450.ReadConfigPayload | components/LD2450/LD2450.cpp:151-172 | once the reader has input, it follows `ReadConfig` |
| Hub.LD2450.AwaitConfigFrame | components/LD2450/LD2450.cpp:159-172 | with the length known, it follows `AwaitFrame` |
| Hub.LD2450.ReadConfigLength | components/LD2450/LD2450.cpp:151-157 | the length is read, two bytes, only when none is cached |
| Hub.LD2450.ConsumeConfigFrame | components/LD2450/LD2450.cpp:160-172 | payload and trailer are consumed, acknowledged only with a good trailer, and both fields reset |
| Hub.LD2450.ProcessMessage | components/LD2450/LD2450.cpp:176-210 | the slots become `TargetsAfter`; the returned count is the present slots; occupied iff some slot is present |
| Hub.LD2450.ProcessSlot | components/LD2450/LD2450.cpp:180-202 | one iteration sets slot i to `SlotAfter` of record i and nothing else |
| Hub.LD2450.CountTargets | components/LD2450/LD2450.cpp:205-209 | the second loop counts the present slots |
| Hub.LD2450.ProcessConfigMessage | components/LD2450/LD2450.cpp:228-253 | the engine fields become `AckStep`'s and keep the invariant |
| Hub.LD2450.WriteCommand | components/LD2450/LD2450.cpp:255-271 | the writes append exactly `CommandFrame(msg)` to the output |

## Left out

- `setup`: the UART settings check, allocating `Target` objects and names,
  and the initial sensor publish are platform glue. The constructor only
  gives the hub three cleared slots.
- `dump_config`, every `ESP_LOG*` call, and the firmware-version log at
  line 251 are diagnostics text.
- Sensor publishing (lines 212-219) and `zone->update` (lines 222-225)
  belong to the ESPHome sensor and zone layers, which are not part of this
  model.
- Target internals: `is_present` and its fast-off logic live in `Target`,
  which is not part of this model. A slot's presence after `update_values`
  is an abstract `PresenceRule` given to the hub.
- The header defining the `COMMAND_*` constants is not part of this model.
  - The opcodes are taken as `0xFF` (ENTER_CONFIG), `0xFE` (LEAVE_CONFIG)
    and `0xA0` (READ_VERSION); only their distinctness matters to the
    proofs.
  - The retry delay and the retry cap are constructor parameters.
- Hub.LD2450.ProcessCommandQueue: does not model the unsigned wrap-around
  of `millis() - command_last_sent_`, because time is an unbounded `nat`
  and the difference is an integer.
- The UART transport, `flush()` and the variable-length array at line 162
  are not modelled. Input is a byte sequence with a cursor, and output is
  an appended sequence.
- `LD2450.Receive` and `LD2450.EnqueueCommand` stand in for the UART and
  for the callers that queue commands. Those callers are not part of this
  model.
- Queued commands are assumed non-empty, because lines 76 and 231 index
  byte 0 of a command.
- Concurrency: none exists in the driver.
