# PMS5003T frame protocol, modelled in Dafny

This project models the protocol core of a UART driver for the PMS5003T laser
particulate-matter sensor. The driver is a C++ class, `PMS5003T`, with twelve
`uint16_t` measurement fields. Its logic is the sensor's binary frame protocol:

- a 16-bit wrapping checksum (`calculate_check`);
- the 7-byte outbound command frame `0x42 0x4D cmd d0 d1 chk_hi chk_lo`
  (`send_command`), and the three helpers that pick its opcode and argument
  bytes (`request_data`, `passive_mode`, `sleep`);
- the validity check of the 32-byte inbound measurement frame
  (`check_packet_validity`): start bytes first, then the checksum of bytes
  [0, 30) against the big-endian word in bytes 30-31;
- the field decode (`unpack_into_struct`) and the receive cycle
  (`receive_data`, `update_data`): a valid frame overwrites the fields, an
  invalid one is reported and changes nothing.

The repository holds this class twice: `lib/PMS5003T/src/PMS5003T.cpp` is the
full copy, and `lib/src/PMS5003T.cpp` has the same logic for the constructor,
checksum, validity check, decode, receive cycle and getters, without the
command methods. The two differ only outside the modelled logic: the reduced
copy guards one debug dump with `#ifdef` instead of `#if`, and its `sleep(1)`
wait calls the global `sleep`, since its header declares no member `sleep`.
One model covers both; the table cites whichever copy states the property
most directly.

Files:

- `protocol.dfy`, module `Protocol` (the header `lib/src/PMS5003T.h`): the
  `byte` and `u16` types, the status codes, the command opcodes and the
  argument codes.
- `frames.dfy`, module `Frames`: the pure codec. `Sum`/`Check16` is the
  checksum, `CommandFrame` the outbound frame, `CheckPacketValidity` the
  inbound check, and `Unpack` the decode as the code performs it. `Pack` is
  an independent reference encoder of measurement frames, with the fields in
  frame order. The lemmas state round trips and corruption behaviour against it.
- `sensor.dfy`, module `Sensor`: the class `PMS5003T`. It has the twelve fields,
  the checksum loop over an array, the command encoder that patches its checksum
  into the array in place, the command helpers, the decode and the receive cycle.
  Two ghost logs record what the transport saw:
  - `sent` holds every frame written;
  - `accepted` holds every received frame that passed validation.

  The invariant `Valid()` says that the fields are what construction followed by
  decoding the accepted frames makes them (`Replay`).

Bytes are unsigned 0..255. The code keeps them in `char` buffers. If `char` is
signed on the target, a byte of 0x80 or more would sign-extend in
`packet[i] << 8 | packet[i+1]` and in the checksum sum, and the model would not
describe that.

Behaviour of the code that the model keeps as written:

- The decode assigns `PM10_atm` twice
  (`lib/PMS5003T/src/PMS5003T.cpp:167-168`). The second assignment, from bytes
  12-13, wins. `PM25_atm` is never written, so it stays at the zero the
  constructor gave it (`GetPM25Atm` ensures `r == 0`). Bytes 10-11 affect no
  field (`UnpackIgnoresUnreadBytes`). `PackUnpack` shows the consequence: after
  a round trip through the reference encoder, `pm10Atm` holds the atmospheric
  PM2.5 value. The frame layout has one field per 2-byte slot; the code does
  not follow it, and the model follows the code.
- The code keeps no mode or sleep state. `passive_mode` and `sleep` only send
  a frame, and the comments say `request_data` and
  `update_data` are meant for passive mode. The model has no mode field.
- `send_command` sums all seven bytes of the frame while the two checksum
  bytes are still zero, which equals the sum of the first five
  (`PaddedChecksum`).
- A worked frame whose 30 checked bytes sum to 0x01E6 is accepted with that
  checksum and decodes as expected; with a wrong checksum such as 0x033C it is
  rejected with `CHECKBIT_ERROR` (`ExampleFrame`).
- The `n` argument of `check_packet_validity` is ignored
  (`ValidityIgnoresLength`). The header gives it a default of 30, while the
  comment in the full copy says 32. `receive_data` relies on the default.
- `GENERIC_ERROR` is declared but nothing returns it.

## Model

| member | source | states |
|---|---|---|
| `Protocol.Code` | lib/src/PMS5003T.h:8-13 | each status has a numeric value below 4, and the value is 0 exactly for `OK` |
| `Protocol.StatusOf` | lib/src/PMS5003T.h:8-13 | exactly the values 0..3 name a status |
| `Protocol.StatusCodeRoundTrip` | lib/src/PMS5003T.h:8-13 | the four statuses have four distinct values: the value determines the status, both ways |
| `Protocol.Opcode` | lib/src/PMS5003T.h:15-19 | each command's opcode is one of 0xE1, 0xE2, 0xE4 (READ_REQUEST_PASSIVE = 0xE2, CHANGE_MODE = 0xE1, SLEEP_SET = 0xE4) |
| `Protocol.CommandOf` | lib/src/PMS5003T.h:15-19 | a byte names a command exactly when it is one of the three opcodes |
| `Protocol.OpcodeRoundTrip` | lib/src/PMS5003T.h:15-19 | the opcodes are pairwise distinct: the opcode byte identifies the command, both ways |
| `Protocol.SwitchArg` | lib/PMS5003T/src/PMS5003T.cpp:194-209 | `enable ? 0x00 : 0x01` is PASSIVE (and SLEEP) when enabled and ACTIVE (and WAKEUP) otherwise, per the header's CMD_ARG values |
| `Frames.Check16` | lib/PMS5003T/src/PMS5003T.cpp:263-276 | the checksum is 0 for no bytes, and each further byte is added modulo 65536, as the `uint16_t` accumulator `sum += packet[i]` does |
| `Frames.BigEndian` | lib/PMS5003T/src/PMS5003T.cpp:164-175 | the word the code forms from `packet[i] << 8` and `packet[i+1]` has high byte `packet[i]` and low byte `packet[i+1]` |
| `Frames.PaddedChecksum` | lib/PMS5003T/src/PMS5003T.cpp:52-54 | trailing zero bytes do not change the checksum, so summing all seven bytes of the unpatched frame gives the sum of its first five |
| `Frames.Split` | lib/PMS5003T/src/PMS5003T.cpp:56-57 | `c >> 8`, `c & 0xFF` are two bytes that read back big-endian as `c` |
| `Frames.SplitUnique` | lib/PMS5003T/src/PMS5003T.cpp:240 | two bytes that read big-endian as a word are that word's high and low byte |
| `Frames.Seal` | lib/PMS5003T/src/PMS5003T.cpp:52-57 | a sealed frame keeps its body and carries the body's checksum big-endian right after it |
| `Frames.CommandFrame` | lib/PMS5003T/src/PMS5003T.cpp:51-57 | a command frame is 7 bytes long |
| `Frames.CommandFrameCharacterized` | lib/PMS5003T/src/PMS5003T.cpp:51-57 | a 7-byte frame is `0x42 0x4D cmd d0 d1 hi lo` with `hi*256+lo` equal to the sum of the first five bytes mod 65536 exactly when it is `CommandFrame(cmd, d0, d1)` |
| `Frames.CheckPacketValidity` | lib/PMS5003T/src/PMS5003T.cpp:239-258 | wrong start bytes give STARTBIT_ERROR whatever the checksum; with correct start bytes the result is OK iff the sum of bytes [0,30) mod 65536 equals `bytes[30]*256 + bytes[31]`, and CHECKBIT_ERROR otherwise |
| `Frames.ValidityIgnoresLength` | lib/src/PMS5003T.cpp:114-133 | the `n` argument has no effect on the verdict |
| `Frames.AcceptedIffSealed` | lib/src/PMS5003T.cpp:114-133 | a 32-byte frame is accepted exactly when it has the start bytes and its last two bytes are the checksum of the first 30 |
| `Frames.CorruptStartByte` | lib/src/PMS5003T.cpp:118-120 | changing either start byte of an accepted frame gives STARTBIT_ERROR |
| `Frames.CorruptCheckedByte` | lib/src/PMS5003T.cpp:128-130 | changing any byte in [2,30) of an accepted frame without fixing the checksum gives CHECKBIT_ERROR |
| `Frames.Unpack` | lib/PMS5003T/src/PMS5003T.cpp:163-176 | the decode keeps the old `pm25Atm`; every other field splits into its big-endian byte pair, 4-5 through 26-27, with `pm10Atm` from bytes 12-13 (the second assignment) |
| `Frames.UnpackIgnoresUnreadBytes` | lib/PMS5003T/src/PMS5003T.cpp:163-176 | two frames that agree on bytes 4-9 and 12-27 decode identically: bytes 2-3, 10-11 and 28-31 affect no field |
| `Frames.UnpackLastWins` | lib/src/PMS5003T.cpp:99-112 | decoding a second frame overwrites everything the first wrote, and `pm25Atm` is never written by a decode |
| `Frames.PackAccepted` | lib/PMS5003T/src/PMS5003T.cpp:239-258 | every frame from the reference encoder passes the validity check |
| `Frames.PackUnpack` | lib/PMS5003T/src/PMS5003T.cpp:163-176 | decoding a reference-encoded measurement returns every field except that `pm10Atm` gets the PM2.5-atmospheric value (bytes 12-13) and `pm25Atm` keeps its old value; so the round trip fails whenever the two atmospheric values differ |
| `Frames.ExampleChecksum` | lib/PMS5003T/src/PMS5003T.cpp:263-276 | the 30 checked bytes of the worked frame sum to 0x01E6 |
| `Frames.ExampleFrame` | lib/PMS5003T/src/PMS5003T.cpp:239-258 | the worked frame with checksum 0x01E6 is accepted and decodes to 10, 20, 30, 50, 0, 60, 5, 10, 15, 20, 25, 30; with 0x033C it is CHECKBIT_ERROR |
| `Sensor.ReplayLatest` | lib/src/PMS5003T.cpp:99-112 | after any sequence of decodes from construction, the fields equal the decode of the last frame alone, and `pm25Atm` is 0 |
| `Sensor.PMS5003T.constructor` | lib/src/PMS5003T.cpp:4-20 | all twelve fields start at 0; nothing has been sent or accepted |
| `Sensor.PMS5003T.CalculateCheck` | lib/PMS5003T/src/PMS5003T.cpp:263-276 | the 16-bit accumulator that wraps on every addition returns the sum of `packet[0..n)` mod 65536, which depends only on those bytes |
| `Sensor.PMS5003T.SendCommand` | lib/PMS5003T/src/PMS5003T.cpp:51-76 | appends exactly one frame `0x42 0x4D cmd d0 d1 hi lo` (checksum patched in place) to the outbound log and returns OK |
| `Sensor.PMS5003T.RequestData` | lib/PMS5003T/src/PMS5003T.cpp:183-187 | sends one frame with opcode 0xE2 and arguments (0, 0) and returns OK |
| `Sensor.PMS5003T.PassiveMode` | lib/PMS5003T/src/PMS5003T.cpp:194-198 | sends one frame with opcode 0xE1 and arguments (0, PASSIVE) when enabled, (0, ACTIVE) otherwise, and returns OK |
| `Sensor.PMS5003T.Sleep` | lib/PMS5003T/src/PMS5003T.cpp:205-209 | sends one frame with opcode 0xE4 and arguments (0, SLEEP) when enabled, (0, WAKEUP) otherwise, and returns OK |
| `Sensor.PMS5003T.UnpackIntoStruct` | lib/PMS5003T/src/PMS5003T.cpp:163-176 | the fields become the decode of the packet from the old fields: big-endian pairs 4-5 through 26-27, `pm10Atm` from 12-13, `pm25Atm` unchanged |
| `Sensor.PMS5003T.ReceiveData` | lib/PMS5003T/src/PMS5003T.cpp:116-157 | returns the validator's verdict; on a non-OK verdict no field changes; on OK the fields are the decode of the frame and the frame joins the accepted log; nothing is sent |
| `Sensor.PMS5003T.UpdateData` | lib/PMS5003T/src/PMS5003T.cpp:218-232 | sends one 0xE2 request, then returns exactly the receive's status with the receive's effect on the fields |
| `Sensor.PMS5003T.GetPM10Std` | lib/src/PMS5003T.cpp:154-156 | 0 before any accepted frame, otherwise bytes 4-5 of the latest accepted frame |
| `Sensor.PMS5003T.GetPM25Std` | lib/src/PMS5003T.cpp:157-159 | 0 before any accepted frame, otherwise bytes 6-7 of the latest accepted frame |
| `Sensor.PMS5003T.GetPM100Std` | lib/src/PMS5003T.cpp:160-162 | 0 before any accepted frame, otherwise bytes 8-9 of the latest accepted frame |
| `Sensor.PMS5003T.GetPM10Atm` | lib/src/PMS5003T.cpp:163-165 | 0 before any accepted frame, otherwise bytes 12-13 (not 10-11) of the latest accepted frame |
| `Sensor.PMS5003T.GetPM25Atm` | lib/src/PMS5003T.cpp:166-168 | always 0 |
| `Sensor.PMS5003T.GetCnsAtm` | lib/src/PMS5003T.cpp:169-171 | 0 before any accepted frame, otherwise bytes 14-15 of the latest accepted frame |
| `Sensor.PMS5003T.GetPart03` | lib/src/PMS5003T.cpp:172-174 | 0 before any accepted frame, otherwise bytes 16-17 of the latest accepted frame |
| `Sensor.PMS5003T.GetPart05` | lib/src/PMS5003T.cpp:175-177 | 0 before any accepted frame, otherwise bytes 18-19 of the latest accepted frame |
| `Sensor.PMS5003T.GetPart10` | lib/src/PMS5003T.cpp:178-180 | 0 before any accepted frame, otherwise bytes 20-21 of the latest accepted frame |
| `Sensor.PMS5003T.GetPart25` | lib/src/PMS5003T.cpp:181-183 | 0 before any accepted frame, otherwise bytes 22-23 of the latest accepted frame |
| `Sensor.PMS5003T.GetPart50` | lib/src/PMS5003T.cpp:184-186 | 0 before any accepted frame, otherwise bytes 24-25 of the latest accepted frame |
| `Sensor.PMS5003T.GetPart100` | lib/src/PMS5003T.cpp:187-189 | 0 before any accepted frame, otherwise bytes 26-27 of the latest accepted frame |

## Left out

- Transport: the `SoftwareSerial` construction, `setTimeout(5)`, `begin(9600)`, `write`, `flush` and `readBytes` are hardware I/O. A read is modelled as the 32 bytes the method receives, and a write as an append to the ghost log `sent`. The constructor's pin arguments go with the transport.
- Destructor: `free` of the transport handle is manual memory management with no protocol logic.
- Busy-wait loops: the loops on `availableForWrite()` and `available() < 32` wait on hardware and need not terminate.
  - In the full copy, the unqualified `sleep(0.1)` and `sleep(1)` inside these loops resolve to the member `sleep(bool)`. So each wait would send a SLEEP_SET frame.
  - This is a defect of the code, and it is not modelled.
- Debug output: the `SERIAL_DEBUG` printing wrapper of `receive_data` and the hex dumps are console output. `ReceiveData` models the logic of `receive_data_hook`.
- `src/main.cpp` is an example polling loop with delays; it has no protocol logic.
- Signed `char`: the effect of sign extension on bytes of 0x80 or more is not modelled; bytes are unsigned.
- Mode and sleep state, and read timeouts: the code has neither, so the model adds neither.
