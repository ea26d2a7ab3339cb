# EzVille wall-pad gateway: a verified model of its bus protocol engine

`ezville_loop` in `simple_mqtt_ezville_control/ezville.py` bridges an EzVille
RS-485 wall-pad to Home Assistant, with an EW11 adapter in between. The bus
carries frames as upper-case hex text: the sync `F7`, a device id, a room,
a command code, a payload length, the payload, and a two-byte trailer.
The trailer is the XOR of the bytes and `(sum + XOR) & 0xFF`. This project
models the protocol engine of the gateway and proves what it promises:

- `Hex`: hex digits, the `'02X'` format, `str`, `int`, `{:0>2d}` and `str.split`.
- `Codec`: `checksum` and frame validity, with the XOR loop as a method.
- `Extractor`: the cursor scan of `EW11_process` over a residue and new data.
- `Protocol`: the `RS485_DEVICE` tables, the header filter, the light and
  thermostat decoders, frame builders as their partners, and the
  `HOMESTATE` keys.
- `Discovery`: the discovery payload templates and what `mqtt_discovery` adds.
- `Engine`: the gateway state as a value `Gw`. It holds `RESIDUE`, the
  discovery mode, `HOMESTATE`, `DISCOVERY_LIST`, the command queue and the
  published messages. This module has the publish gate, discovery routing,
  frame handling, ack removal, the `send_to_elfin` step and the end of the
  discovery period.
- `Commands`: `HA_process`, which turns a Home Assistant command into a
  queued job.
- `Gateway`: a class whose fields are those globals. Its methods update the
  fields in place, with the source's loops. Each method is proved to move
  the fields exactly as its `Engine` or `Commands` counterpart moves a `Gw`.
  Most counterparts share the method's name. `SendToElfin` matches
  `Engine.SendStep`, `HaProcess` matches `Commands.HaCommand`, and the
  cursor steps `ScanAt`, `CheckAt`, `TakeAt` and `Verdict` match the scan
  `Extractor.Scan` and the check `Codec.IsValid`.

The model follows the code where it is evidently intended and a name or
scope slip would stop it from running:

- `RESIDUE` and `DISCOVERY_MODE` are one shared state. The source's
  assignments inside nested functions would make them locals.
- `QUEUE` and `CMD_QUEUE` are one queue.
- `data` at line 345 is read as `packet`.
- `mttq_discovery` is read as `mqtt_discovery`.
- `HOMESTATE` is a dictionary that starts empty.
- `update_temperature` stores each temperature as two upper-case hex digits
  of its value. Line 399 applies `int(x, 16)` to a value that is already an int.

The model also adopts the corrected reading of each row of "## Findings",
and keeps the code as written beside it as a separate member:

- `Engine.Receive`, `Engine.ReceiveAll` and `Gateway.Gateway.Receive` start
  each pass with `RESIDUE` cleared (row 1). As written, a stored residue
  survives a pass that handles no frame; `Extractor.PassAsWritten` and
  `Extractor.StaleResidue` model that.
- `Protocol.ThermostatObservations` reads room `rid`'s power flag as bit
  `rc - rid` of `x & 0x1F` (`Protocol.PowerOn`, row 2), not the literal
  `x & 0x1F >> (rc - rid) & 1` (`Protocol.PowerAsWritten`).
- The `setTemp` branch of `Commands.HaCommand` reads the cached target in
  base 16 (`Commands.SetTemp`, row 3), not with `int(setTemp)`
  (`Commands.SetTempAsWritten`).

A job is sent six times, with counts 0 to 5, and then dropped. The code
re-appends a job while its count is below 5, so line 451's "over 5 times"
describes it; a description that says five sends does not. The model
follows the code.

A light command writes the room and the light number with `str`, so its
text has an odd length when the two take an odd number of digits between
them. Then `checksum` fails and nothing is queued: room 10 with light 1,
or room 1 with light 10 (`Commands.LightQueuedIff`). Room 10 with light 10
is queued. Its ack header `F70E110C1` has nine characters, though, and the
handler compares only the first eight characters of each frame. So the job
is never settled and is sent six times (`Commands.LightWideRoomUnacked`).
The decoders do report rooms 10 to 15 for the hex room digits `A`-`F`. The
model keeps all of this.

`HA_process` compares the normalised payload text with the cached text
before it looks at the topic (line 174). For a target request that means
the cached target, two hex digits, is compared with the decimal payload.
With 25 cached as `19`, the payload `19` is dropped although it asks for a
different temperature, while `19.0` gets through to the target branch
(`Commands.HaTargetTextMatch`). The model follows the code.

## Model

| member | source | states |
|---|---|---|
| Hex.Hex2 | simple_mqtt_ezville_control/ezville.py:95 | `format(n, '02X')` of a byte is two upper-case hex digits that read back as `n` |
| Hex.Hex2OfByteAt | simple_mqtt_ezville_control/ezville.py:399 | two upper-case hex digits are the `'02X'` form of the byte they spell |
| Hex.Hex2Injective | simple_mqtt_ezville_control/ezville.py:95 | different bytes have different `'02X'` forms |
| Hex.Format02XOfByte | simple_mqtt_ezville_control/ezville.py:198 | `"{:02X}".format(n)` of a byte is the same two digits as `'02X'` |
| Hex.ParseHex2 | simple_mqtt_ezville_control/ezville.py:399 | `int(s, 16)` reads back the two digits written for a byte |
| Hex.DecRoundTrip | simple_mqtt_ezville_control/ezville.py:169-170 | `int` reads back what `str` and `{:0>2d}` write; the padded form has at least two digits |
| Hex.Pad2Injective | simple_mqtt_ezville_control/ezville.py:288 | different numbers have different `{:0>2d}` forms |
| Hex.SplitAt | simple_mqtt_ezville_control/ezville.py:152 | `split` cuts at the first separator and splits the rest |
| Codec.ParseBytes | simple_mqtt_ezville_control/ezville.py:84 | `bytes.fromhex` succeeds exactly on even-length hex text, and byte `j` is digits `2j`, `2j+1` |
| Codec.Checksum | simple_mqtt_ezville_control/ezville.py:79-97 | `None` exactly when `s[:-4]` is not whole hex bytes; otherwise `s[:-4]` is kept and the result has the length of `s` (at least 4) |
| Codec.ChecksumIdempotent | simple_mqtt_ezville_control/ezville.py:79-97 | whatever `checksum` returns is a valid frame: `checksum(checksum(s)) == checksum(s)` |
| Codec.ValidIffTrailer | simple_mqtt_ezville_control/ezville.py:272 | a frame is valid iff its last four characters are the XOR and `(sum + XOR) & 0xFF` of the bytes before them |
| Codec.TrailerBytes | simple_mqtt_ezville_control/ezville.py:92-95 | the trailer's first byte is the XOR and its second the sum byte |
| Codec.SingleByteChangeInvalidates | simple_mqtt_ezville_control/ezville.py:272 | changing any one byte in front of the trailer of a valid frame makes it invalid |
| Codec.ComputeChecksum | simple_mqtt_ezville_control/ezville.py:79-97 | the method with the `checksum ^= b` loop returns `checksum(s)` |
| Extractor.FrameLength | simple_mqtt_ezville_control/ezville.py:261-262 | `10 + 2·len + 4` is even and between 14 and 524 |
| Extractor.ClassifyCases | simple_mqtt_ezville_control/ezville.py:253-274 | a cursor step takes a frame iff there is a sync, the whole frame is present and it passes the check; it stops iff a sync's frame is incomplete, leaving an unfinished tail |
| Extractor.ScanYieldsAccepted | simple_mqtt_ezville_control/ezville.py:253-274 | every frame a scan hands on is a whole frame that passes the check |
| Extractor.ScanResidue | simple_mqtt_ezville_control/ezville.py:255-266 | the residue after a scan is the starting one, empty, or an unfinished tail of the text |
| Extractor.Extract | simple_mqtt_ezville_control/ezville.py:246-364 | one pass yields valid whole frames, and leaves as residue nothing or an unfinished suffix of its text |
| Extractor.ExtractFrames | simple_mqtt_ezville_control/ezville.py:246-364 | valid frames sent back to back come out all and in order, with no residue |
| Extractor.SplitResume | simple_mqtt_ezville_control/ezville.py:247-266 | splitting such a stream into two passes at any point except right after a frame's first character gives the same frames, and no residue |
| Extractor.ScanStreamFront | simple_mqtt_ezville_control/ezville.py:247-266 | one pass over an even-length front of a stream of valid frames yields the frames wholly inside it, in order, and keeps as residue the even-length start of the next one |
| Extractor.StaleResidue | simple_mqtt_ezville_control/ezville.py:247-266 | as written, a residue `F7` followed by data with no valid frame stays stored; with the residue cleared at the start of the pass it is dropped |
| Protocol.HeaderTables | simple_mqtt_ezville_control/ezville.py:59-70 | `STATE_HEADER` maps `0E` to light/`81` and `36` to thermostat/`81`; `ACK_HEADER` maps `0E` to `C1` and `36` to `C4`, the later `target` entry overwriting `away` |
| Protocol.OccursSameLength | simple_mqtt_ezville_control/ezville.py:277 | between strings of the same length, `in` is equality |
| Protocol.AcceptedIff | simple_mqtt_ezville_control/ezville.py:277 | a frame is decoded iff its id is `0E` with cmd `81`/`C1`, or `36` with cmd `81`/`C4` |
| Protocol.Len | simple_mqtt_ezville_control/ezville.py:285 | the length byte `n` of a frame gives its length `14 + 2n` |
| Protocol.LightObservations | simple_mqtt_ezville_control/ezville.py:283-300 | a light frame reports `len - 1` lights |
| Protocol.RoomCount | simple_mqtt_ezville_control/ezville.py:304 | `int((len - 5) / 2)` rooms; with at least one room every temperature read lies in front of the trailer; below length 7 there is none |
| Protocol.ThermostatObservations | simple_mqtt_ezville_control/ezville.py:308-324 | a thermostat frame reports one room per counted room (corrected reading) |
| Protocol.PowerAsWrittenMeaning | simple_mqtt_ezville_control/ezville.py:322 | as written, `x & 0x1F >> s & 1` holds iff `x` is odd and `s < 5`: it reads bit 0 for every room |
| Protocol.PowerByteBit | simple_mqtt_ezville_control/ezville.py:322 | in a flag byte written most significant first, bit `j` is flag `n-1-j` |
| Protocol.PowerRoundTrip | simple_mqtt_ezville_control/ezville.py:322 | with the shift applied first, room `r` reads back its own power flag from a byte of up to five flags |
| Protocol.PowerPrecedenceCounterexample | simple_mqtt_ezville_control/ezville.py:322 | rooms (on, off) give byte 2; as written room 1 reads off, corrected it reads on |
| Protocol.BuildFrameValid | simple_mqtt_ezville_control/ezville.py:79-97 | a frame built from a header and a payload passes the check |
| Protocol.BuildFrameFacts | simple_mqtt_ezville_control/ezville.py:255-269 | a built frame has the announced length, its header, and its payload bytes where the decoders read them |
| Protocol.LightRoundTrip | simple_mqtt_ezville_control/ezville.py:283-300 | a light frame for a room and a list of flags passes the filter, and the decoder reads back the room and every flag |
| Protocol.ThermostatRoundTrip | simple_mqtt_ezville_control/ezville.py:304-324 | a thermostat frame for up to five rooms passes the filter, and the decoder reads back each room's power flag and both temperatures |
| Protocol.KeyInjective | simple_mqtt_ezville_control/ezville.py:382-383 | `HOMESTATE` keys of different devices or attributes differ |
| Discovery.RegistrationFields | simple_mqtt_ezville_control/ezville.py:367-377 | a registration goes to `homeassistant/<intg>/ezville_wallpad/<name>/config`, drops `_intg`, and sets `uniq_id` to the name, `device` to the wall-pad, and `~` to the device's topic |
| Discovery.DiscoveryKeeps | simple_mqtt_ezville_control/ezville.py:367-377 | every other template field reaches the registration unchanged |
| Discovery.ExpandTilde | simple_mqtt_ezville_control/ezville.py:36-50 | a `~/...` field stands for the device topic followed by the path |
| Discovery.AnnouncedPath | simple_mqtt_ezville_control/ezville.py:36-50 | a template topic field is announced as `ezville/<device>/<attr>/<kind>` |
| Discovery.StateTopicsAgree | simple_mqtt_ezville_control/ezville.py:39-49 | every state topic a registration announces is the topic the gate publishes that attribute on |
| Discovery.CommandTopicsParse | simple_mqtt_ezville_control/ezville.py:152-168 | every announced command topic splits into `ezville`, the device, the attribute and `command`, as `HA_process` reads it |
| Discovery.DeviceIdSplits | simple_mqtt_ezville_control/ezville.py:161-170 | a device name splits on `_` into its family and its two zero-padded numbers, which `int` reads back |
| Discovery.DeviceIdNoSlash | simple_mqtt_ezville_control/ezville.py:288 | a device name has no `/` |
| Engine.GateSpec | simple_mqtt_ezville_control/ezville.py:383-389 | after the gate the cache holds the value; one state message is published iff the cached value was missing or different; nothing else changes |
| Engine.GateIdempotent | simple_mqtt_ezville_control/ezville.py:383-394 | repeating a value changes neither cache nor output |
| Engine.GateOtherKeys | simple_mqtt_ezville_control/ezville.py:383-386 | the gate for one key leaves every other key alone |
| Engine.UpdateStateIndependent | simple_mqtt_ezville_control/ezville.py:380-395 | `update_state` for one device leaves every other device's attributes, and its own other attributes, alone |
| Engine.TemperatureGates | simple_mqtt_ezville_control/ezville.py:397-412 | both temperatures are stored, and each is published iff it differs from its cached value, `curTemp` first |
| Engine.RemoveAckFirst | simple_mqtt_ezville_control/ezville.py:329-334 | ack removal deletes exactly the first job the header settles and keeps the rest in order |
| Engine.RemoveAckNone | simple_mqtt_ezville_control/ezville.py:329-334 | when no job is settled the queue is unchanged |
| Engine.ApplyAllQueue | simple_mqtt_ezville_control/ezville.py:287-359 | decoded devices never touch the queue |
| Engine.HandleFrameQueue | simple_mqtt_ezville_control/ezville.py:327-334 | in normal mode a frame changes the queue only by ack removal, and only when it passes the filter |
| Engine.ApplyAllEvolves | simple_mqtt_ezville_control/ezville.py:287-359 | routing decoded devices keeps the mode, only appends to `DISCOVERY_LIST`, keeps the queue in discovery mode and the list in normal mode |
| Engine.ApplyFramesEvolves | simple_mqtt_ezville_control/ezville.py:279-359 | handling frames keeps the mode, only appends to `DISCOVERY_LIST`, leaves the queue alone in discovery mode and the list alone in normal mode |
| Engine.ReceiveEvolves | simple_mqtt_ezville_control/ezville.py:246-364 | a whole pass does the same, and leaves as residue nothing or an unfinished tail of its input |
| Engine.ApplyAllNoDup | simple_mqtt_ezville_control/ezville.py:290-312 | `DISCOVERY_LIST` never holds a name twice |
| Engine.LightSighting | simple_mqtt_ezville_control/ezville.py:287-300 | in discovery mode an unseen light is listed with exactly one discovery payload; a listed one goes to `update_state` |
| Engine.ThermostatSighting | simple_mqtt_ezville_control/ezville.py:308-324 | in discovery mode an unseen thermostat `_01` is listed with exactly one discovery payload, leaving cache and queue alone; a listed one goes to `update_state`, then `update_temperature` |
| Engine.ReceiveFrames | simple_mqtt_ezville_control/ezville.py:246-364 | valid frames sent back to back with no residue pending are all handled, in order, leaving no residue |
| Engine.ReceiveReads | simple_mqtt_ezville_control/ezville.py:246-364 | valid frames sent back to back and delivered in any number of messages of whole bytes are all handled, in order, leaving no residue |
| Engine.SendStepBudget | simple_mqtt_ezville_control/ezville.py:440-451 | in normal mode each step sends the head job's bytes, uses up one unit of the budget, and keeps the queue sendable |
| Engine.DrainSends | simple_mqtt_ezville_control/ezville.py:415-455 | `n` steps on a sendable queue send `min(n, budget)` frames; once `n` reaches the budget the queue is empty |
| Engine.DrainIdle | simple_mqtt_ezville_control/ezville.py:440 | with an empty queue `send_to_elfin` changes nothing |
| Engine.SentSixTimes | simple_mqtt_ezville_control/ezville.py:446-451 | a fresh job that is alone in the queue is sent six times and then dropped; with several jobs, `DrainSends` bounds the sends of the whole queue |
| Engine.SendStepDiscovery | simple_mqtt_ezville_control/ezville.py:416 | nothing is sent in discovery mode |
| Engine.AdvanceOneWay | simple_mqtt_ezville_control/ezville.py:477-478 | discovery mode ends once the deadline has passed and never resumes |
| Commands.Upper | simple_mqtt_ezville_control/ezville.py:172 | `upper()` maps each character to its upper-case form |
| Commands.ChecksumBuilds | simple_mqtt_ezville_control/ezville.py:81-95 | `checksum` over a header, a length, a payload and the `0000` placeholder gives the frame of that header and payload |
| Commands.LightCommandFrame | simple_mqtt_ezville_control/ezville.py:225-231 | for a room and light below 10 the light command is the frame `F7 0E 1<room> 41` with payload light, `01`/`00`, `00`, acked by `F70E1<room>C1` |
| Commands.LightCommandWideRoom | simple_mqtt_ezville_control/ezville.py:227-236 | for rooms 10 to 99 with a light below 10 no light command is queued |
| Commands.LightQueuedIff | simple_mqtt_ezville_control/ezville.py:227-236 | a light command is queued iff the room and light numbers have an even number of decimal digits between them |
| Commands.LightWideRoomUnacked | simple_mqtt_ezville_control/ezville.py:330 | for rooms 10 and up a queued light command is settled by no eight-character header |
| Commands.AwayCommandFrame | simple_mqtt_ezville_control/ezville.py:183-187 | the away command is the frame `F7 36 1<room> 45` with payload `01`, acked by `NULL` |
| Commands.TargetCommandFrame | simple_mqtt_ezville_control/ezville.py:197-202 | the target command is the frame `F7 36 1<room> 44` with the temperature as payload, acked by `F7361<room>C4` |
| Commands.ValidParses | simple_mqtt_ezville_control/ezville.py:444 | a valid frame is whole hex bytes, so `bytes.fromhex` accepts it |
| Commands.EnqueueValid | simple_mqtt_ezville_control/ezville.py:186-231 | a job made from `checksum`'s output is a valid frame, sendable, with count 0 |
| Commands.SetTempValid | simple_mqtt_ezville_control/ezville.py:193-202 | a target request that is queued is a valid frame with count 0 |
| Commands.HaQueuedOnlyOnChange | simple_mqtt_ezville_control/ezville.py:161-177 | a job is queued only for a light or thermostat whose cached attribute is set and differs from the normalised payload |
| Commands.HaQueuedValid | simple_mqtt_ezville_control/ezville.py:182-231 | every queued job passes `packet == checksum(packet)`, is sendable, and has count 0 |
| Commands.HaProcessQueue | simple_mqtt_ezville_control/ezville.py:160-242 | a command message changes only the queue, appends at most one job, and keeps a sendable queue sendable |
| Commands.HaLight | simple_mqtt_ezville_control/ezville.py:224-231 | on a light's power topic the light command is queued iff the cached state is set and differs from the normalised payload |
| Commands.HaAway | simple_mqtt_ezville_control/ezville.py:161-187 | on a thermostat's away topic the away command is queued iff the cached state is set and differs |
| Commands.HaTarget | simple_mqtt_ezville_control/ezville.py:171-202 | on a thermostat's target topic a request is sent iff its payload text differs from the cached text and its temperature from the cached one (corrected reading) |
| Commands.HaTargetTextMatch | simple_mqtt_ezville_control/ezville.py:174 | with 25 cached as `19`, the payload `19` is dropped by the text test, while `19.0` is sent |
| Commands.SetTempSuppressesSame | simple_mqtt_ezville_control/ezville.py:193-202 | the corrected target branch ignores exactly a request for the cached temperature |
| Commands.SetTempRaisesOnHexDigit | simple_mqtt_ezville_control/ezville.py:193 | as written, a cached target `1A` makes the request raise; corrected, a request for 26 is ignored |
| Commands.SetTempMisreadsDecimal | simple_mqtt_ezville_control/ezville.py:193 | as written, a cached target of 25 (`19`) suppresses a request for 19 that reaches the branch, such as the payload `19.0`; corrected, it is sent |
| Commands.AckAccepted | simple_mqtt_ezville_control/ezville.py:277 | the ack header of a light or a target command passes the frame filter |
| Commands.AwayNeverSettled | simple_mqtt_ezville_control/ezville.py:330 | no frame settles an away command |
| Commands.LightAcked | simple_mqtt_ezville_control/ezville.py:329-334 | in normal mode the ack of a queued light command removes that job and keeps the rest in order |
| Gateway.Gateway.constructor | simple_mqtt_ezville_control/ezville.py:117-125 | the gateway starts in discovery mode with everything empty |
| Gateway.Gateway.Gate | simple_mqtt_ezville_control/ezville.py:383-389 | the in-place dictionary write and publish match the gate |
| Gateway.Gateway.UpdateState | simple_mqtt_ezville_control/ezville.py:380-395 | `update_state` on the fields matches `Engine.UpdateState` |
| Gateway.Gateway.UpdateTemperature | simple_mqtt_ezville_control/ezville.py:397-412 | `update_temperature` on the fields matches `Engine.UpdateTemperature` |
| Gateway.Gateway.Register | simple_mqtt_ezville_control/ezville.py:367-377 | the list append and the discovery publish match `Engine.Register` |
| Gateway.Gateway.ApplyObs | simple_mqtt_ezville_control/ezville.py:287-359 | routing one decoded device matches `Engine.ApplyObs` |
| Gateway.Gateway.RemoveAck | simple_mqtt_ezville_control/ezville.py:329-334 | the search-and-remove loop removes the first settled job, as `Engine.RemoveAck` does, and changes nothing else |
| Gateway.Gateway.HandleFrame | simple_mqtt_ezville_control/ezville.py:277-359 | the filter, the ack loop and the decoder loops match `Engine.HandleFrame` |
| Gateway.Gateway.ApplyAll | simple_mqtt_ezville_control/ezville.py:287-359 | the loop over a frame's decoded devices routes them in order, as `Engine.ApplyAll` does |
| Gateway.Gateway.Verdict | simple_mqtt_ezville_control/ezville.py:272 | the candidate passes exactly when it is a valid frame, `packet == checksum(packet)` |
| Gateway.Gateway.TakeAt | simple_mqtt_ezville_control/ezville.py:274-362 | handling a taken frame and clearing `RESIDUE` is the scan's take step: the cursor jumps past the frame |
| Gateway.Gateway.CheckAt | simple_mqtt_ezville_control/ezville.py:269-274 | a whole candidate at a sync is handled and jumped over when it passes the check, and otherwise the cursor moves one character; either way the rest of the pass is unchanged |
| Gateway.Gateway.ScanAt | simple_mqtt_ezville_control/ezville.py:255-274 | one turn of the cursor loop is one step of the scan: skip a character, take a whole valid frame, or keep the tail and stop |
| Gateway.Gateway.Receive | simple_mqtt_ezville_control/ezville.py:246-364 | the cursor loop over residue and data matches `Engine.Receive`, so `ReceiveEvolves` and `ReceiveFrames` hold for it (corrected reading) |
| Gateway.Gateway.SendToElfin | simple_mqtt_ezville_control/ezville.py:415-455 | one call pops, sends and re-appends the head job as `Engine.SendStep` does |
| Gateway.Gateway.HaProcess | simple_mqtt_ezville_control/ezville.py:160-242 | a command message queues exactly the job `Commands.HaCommand` yields |
| Gateway.Gateway.Advance | simple_mqtt_ezville_control/ezville.py:477-478 | the end of the discovery period matches `Engine.Advance` |

## Left out

- The MQTT client: connection, subscriptions, `on_connect` error codes and publish transport (lines 127-141, 459-464). Publishes are events appended to `out`.
- The thread hand-off through `MSG_QUEUE` and topic dispatch (lines 140-157), and the asyncio `gather`/`sleep` main loop (lines 470-482). These are concurrency and scheduling. A command message enters the model as its split topic and payload.
- The wall clock (lines 466, 477-478). `Advance` takes the time and the deadline as parameters.
- `log`, time formatting and debug output (lines 73-76), and the JSON text of a discovery payload (line 377). The payload is modelled as its fields.
- `int(float(value))` (line 192). This is float parsing, so `HaCommand` takes its result, or its failure, as a parameter.
- Exceptions end the handler, and an uncaught one ends the loop. The model reports `Raised` and changes nothing. In `send_to_elfin` a job whose text `bytes.fromhex` rejects is popped and lost, as in the source.
- `int` of text with a sign, surrounding whitespace or underscores, and `upper()` beyond ASCII. Device names and payloads are modelled as ASCII.
- `bytes.fromhex` accepting spaces between bytes. Queued commands never contain spaces.
- The commented-out telnet restart and fan code (lines 206-222, 418-439), and loading the configuration file (lines 484-488).
- Extractor.SplitResume: excludes a split right after the first character of a frame. There the `F` ends one pass, no sync is seen, and the character is lost. Data arriving as whole bytes always splits at even offsets. `Engine.ReceiveReads` covers any number of such messages.
- Gateway.Gateway.UpdateTemperature: the loop over the two-entry dictionary is written out as two gate calls, `curTemp` then `setTemp`.

## Findings

| source | as written | input that shows it | evidently intended | confidence | as-written member | corrected member |
|---|---|---|---|---|---|---|
| simple_mqtt_ezville_control/ezville.py:247, 258, 266, 361 | `RESIDUE` is cleared only after a handled frame, so a stored tail survives a pass that handles none | residue `F7`, then data `000000000000`: `F7000000000000` is not valid, so `F7` stays and heads the next pass | the tail is taken into `raw_data` and then cleared, so each pass starts with an empty residue | medium, not executed | Extractor.StaleResidue | Extractor.Extract |
| simple_mqtt_ezville_control/ezville.py:322, 357 | `x & 0x1F >> (rc - rid) & 1` parses as `x & (0x1F >> (rc - rid)) & 1` and reads bit 0 for every room | two rooms, (on, off): byte 2; room 1 reads off | `(x & 0x1F) >> (rc - rid) & 1`, room `rid`'s own bit | high, not executed | Protocol.PowerPrecedenceCounterexample | Protocol.PowerRoundTrip |
| simple_mqtt_ezville_control/ezville.py:193 | `int(setTemp)` reads the cached target, stored as two hex digits, in base 10 | cached `1A` (26): every target request raises; cached `19` (25): a request `19.0` for 19 is ignored (the payload `19` is already dropped at line 174) | `int(setTemp, 16)`, the base it was written in | high, not executed | Commands.SetTempRaisesOnHexDigit | Commands.SetTempSuppressesSame |
