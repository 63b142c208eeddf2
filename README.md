# act_controller in Dafny

A verified model of `act_controller`, the C++ class that drives a linear
actuator over a serial link with Modbus-RTU framing. The model covers:

- **The frame codec** (`codec.dfy`, module `Codec`):
  - the CRC-16/MODBUS checksum: reflected polynomial 0xA001, initial value 0xFFFF, as in section 2.5.1.2 of the MODBUS over Serial Line Specification V1.02;
  - the two-byte trailer, which goes on the wire low byte first, and its validation;
  - the byte and 16-bit register arithmetic the controller does with casts and shifts.
- **The hex-literal parser** (`hex.dfy`, module `Hex`). The controller writes its fixed commands as hex strings and parses them with this.
- **Response decoding** (`response.dfy`, module `Response`):
  - reading one read-holding-registers response (section 6.3 of the MODBUS Application Protocol Specification V1.1b3) from the bytes the link delivers;
  - the signed, rounded position decoding;
  - as its inverse, the answer a device at a given position sends.
- **The command frames** (`commands.dfy`, module `Commands`):
  - the write-multiple-registers requests of section 6.12 of the MODBUS Application Protocol Specification V1.1b3 that load a relative or absolute move, and the trigger, a write-multiple-registers request that starts it;
  - the single-coil and multiple-coil writes of sections 6.5 and 6.11 of the MODBUS Application Protocol Specification V1.1b3;
  - the speed clamps;
  - the targets the blocking moves wait for.
- **Port discovery** (`ports.dfy`, module `Ports`):
  - the candidate port list;
  - the serial device as an oracle;
  - which port a connection attempt ends up on, both as written and as intended.
- **The controller object** (`controller.dfy`, class `Controller.ActController`).
  - Its fields are the link state (`connected`, `portName`, and whether the serial handle is open) and the trace `written` of every frame written to the link.
  - Each public operation is a method that updates those fields and appends to the trace.
  - The methods' postconditions tie the new state to the specification functions above.

The serial device is a parameter.

- For `connect` it is a map from port name to the bytes that port answers the probe with. A name that is absent cannot be opened.
- For position reads it is the bytes the device sends back.
- For the blocking moves it is the finite sequence of answers to the polls made before the deadline.

The command bodies are built the way the controller builds them. The checksums of the fixed frames are proved by folding their bytes one at a time.

## Model

| member | source | states |
|---|---|---|
| Codec.Crc16Modbus | act_controller.cpp:633-643 | The byte loop with its inner eight-step shift loop computes `Crc16(data)`, the register folded over the data from 0xFFFF. |
| Codec.WithCrc | act_controller.cpp:645-649 | A frame with its trailer is two bytes longer, keeps the original bytes as its prefix, and its last two bytes reassemble, low byte first, to the checksum of the prefix. |
| Codec.AppendCrc | act_controller.cpp:645-649 | The frame followed by its two trailer bytes, low byte first, is exactly `WithCrc(frame)`. These are the same bytes the moves append inline. |
| Codec.ReceivedOfCrc | act_controller.cpp:647-648 | Reassembling the two trailer bytes, low then high, gives back the 16-bit checksum. |
| Codec.ReceivedInjective | act_controller.cpp:654-655 | Two trailers that reassemble to the same value are the same two bytes. |
| Codec.ReceivedDiffers | act_controller.cpp:654-655 | Trailers that differ in either byte reassemble to different values. |
| Codec.ValidateWithCrc | act_controller.cpp:645-657 | A frame with an appended trailer validates exactly when the frame had at least two bytes, because validation rejects frames shorter than four. |
| Codec.ValidateIffTrailer | act_controller.cpp:651-657 | A frame validates exactly when it has at least four bytes and is its first `n-2` bytes followed by their trailer. |
| Codec.ValidateCrc | act_controller.cpp:651-657 | A frame shorter than four bytes never validates. |
| Codec.ValidateOfTrailer | act_controller.cpp:651-657 | A body of at least two bytes followed by two bytes that reassemble to its checksum validates. |
| Codec.CrcOverSnoc | act_controller.cpp:635-641 | Folding in one more byte applies one byte step to the register reached so far. |
| Codec.CrcOverAppend | act_controller.cpp:635-641 | The checksum of `p + q` is the fold of `q` starting from the register after `p`. |
| Codec.ShiftsInjective | act_controller.cpp:637-640 | The eight shift steps lose no information: equal results mean equal starting registers. |
| Codec.UpdateByteInjectiveInByte | act_controller.cpp:636-640 | From the same register, different bytes give different registers. |
| Codec.CrcOverInjective | act_controller.cpp:635-641 | Folding the same bytes into different registers gives different checksums. |
| Codec.DetectsSingleByteChange | act_controller.cpp:645-657 | Changing any single byte of a frame with its trailer, payload or trailer, makes validation fail. |
| Codec.Wrap16 | act_controller.cpp:248 | The `uint16_t` cast keeps the representative of `x` modulo 2^16 in [0, 2^16), and leaves values already in range unchanged. |
| Codec.ByteOfValue | act_controller.cpp:241-242 | The byte kept by `& 0xFF` is the value modulo 256. |
| Codec.Be16OfSplit | act_controller.cpp:248-250 | The high and low bytes taken with `>> 8` and `& 0xFF` reassemble, big-endian, to the value modulo 2^16. |
| Hex.HexToBytes | act_controller.cpp:659-677 | The character loop, carrying the pending high nibble, returns exactly `HexBytes(hex)`: the hex digits of the string paired up, most significant nibble first. |
| Hex.HexDigitsSnoc | act_controller.cpp:663-669 | Appending a character adds its digit value when it is a hex digit of either case and nothing otherwise. |
| Hex.PairUpEven | act_controller.cpp:670 | A digit after an even number of digits becomes a pending high nibble and adds no byte. |
| Hex.PairUpOdd | act_controller.cpp:671-674 | A digit after an odd number of digits completes the byte `16 * hi + lo`. |
| Hex.HexDigitsAppend | act_controller.cpp:663-669 | The digits of a concatenation are the digits of each part. |
| Hex.HexBytesIgnoresNonDigit | act_controller.cpp:664-669 | Inserting whitespace or any other non-hex character anywhere leaves the parsed bytes unchanged. |
| Hex.HexBytesDropsUnpairedDigit | act_controller.cpp:670-676 | A final unpaired digit is dropped: it adds no byte and leaves an odd digit count. |
| Hex.HexChar | act_controller.cpp:666-668 | Each nibble has a digit that parses back to it. |
| Hex.PackOfByte | act_controller.cpp:672 | The high and low nibble of a byte pack back to that byte. |
| Hex.HexLiteralDigits | act_controller.cpp:663-669 | The digits of a space-separated two-digit literal are the bytes' nibbles, high first. |
| Hex.PairUpNibbles | act_controller.cpp:670-674 | Pairing up the nibbles of a byte sequence gives back the bytes. |
| Hex.HexBytesOfLiteral | act_controller.cpp:659-677 | Round trip: parsing the space-separated literal of any byte sequence yields those bytes. |
| Hex.HexLiteralJoin | act_controller.cpp:63-70 | The literal of two non-empty byte sequences is their literals joined by a space. |
| Hex.InitCommandLiteral | test_act_controller.cpp:49-51 | `"01 03 00 0e 00 08 25 cf"` parses to its 8 bytes, the first two 0x01 and 0x03. |
| Response.ReadModbusResponse | act_controller.cpp:686-700 | The read succeeds exactly when at least 3 bytes, and then at least `5 + byteCount` bytes, are available. The frame is the header followed by `byteCount + 2` bytes, and frame plus unread rest is the input. |
| Response.ReadResponseOfFrame | act_controller.cpp:686-700 | A whole response followed by anything reads back as that response, the rest unread. |
| Response.Int16BE | act_controller.cpp:460-461 | Bytes 5 and 6 read as a big-endian `int16_t` lie in [-2^15, 2^15). |
| Response.Int16BEOfSplit | act_controller.cpp:460-461 | Every 16-bit signed value survives being split into big-endian bytes and read back. |
| Response.TruncDiv | act_controller.cpp:465-467 | C++ integer division: the remainder takes the sign of the dividend and is smaller than the divisor. |
| Response.RoundToUnits | act_controller.cpp:462-467 | The rounding yields the nearest multiple of 100, with halves going away from zero. |
| Response.RoundToUnitsRange | act_controller.cpp:459-468 | Any 16-bit signed register decodes to a position in [-328, 328]. |
| Response.RoundToUnitsOdd | act_controller.cpp:464-467 | Rounding is symmetric: negating the register negates the position. |
| Response.RoundToUnitsExamples | act_controller.cpp:464-467 | 150 and -150 round to 2 and -2, 49 and -49 to 0, and 50 and -50 to 1 and -1. |
| Response.RoundToUnitsOfMultiple | act_controller.cpp:464-467 | A register holding exactly `100 * p` decodes to `p`. |
| Response.DecodePosition | act_controller.cpp:452-470 | The decoded position lies in [-328, 328]. It is 0 when the frame is shorter than 7 bytes or fails its checksum. |
| Response.PositionOf | act_controller.cpp:438-470 | The position a read yields for the bytes the device sends lies in [-328, 328], a failed read included. |
| Response.PositionOfFailedRead | act_controller.cpp:471-472 | A read that fails because the device sent too few bytes yields 0, as the source's catch returns 0. |
| Response.DecodeChecked | act_controller.cpp:452-468 | A frame of at least 7 bytes that passes its checksum decodes to the rounded signed value of bytes 5 and 6. |
| Response.ReplyBody | act_controller.cpp:458-461 | The answer of a device at position `p` carries `100 * p` as the signed big-endian value in bytes 5 and 6. |
| Response.PositionReply | act_controller.cpp:438-456 | That answer, with its trailer, is a well-formed response that passes the checksum. |
| Response.PositionReplyRegister | act_controller.cpp:458-461 | The answer is 9 bytes and its bytes 5 and 6 read as `100 * p`. |
| Response.PositionReplyRoundTrip | act_controller.cpp:438-468 | Round trip: a device at any position in [-327, 327] is read back at exactly that position, whatever follows on the link. |
| Commands.RequestOfBody | act_controller.cpp:260-262 | A register-write body of the right shape becomes, with its trailer, a well-formed write-multiple-registers request whose register values are the body's. |
| Commands.ProbeChecked | act_controller.cpp:40 | The probe frame's trailer is its checksum. |
| Commands.TriggerChecked | act_controller.cpp:267 | The trigger frame's trailer is its checksum. |
| Commands.CoilOffChecked | act_controller.cpp:294 | The coil-off frame's trailer is its checksum. |
| Commands.CoilOnChecked | act_controller.cpp:374 | The coil-on frame's trailer is its checksum. |
| Commands.CoilBlockChecked | act_controller.cpp:373 | The eight-coil write's trailer is its checksum. |
| Commands.RelativeSpeed | act_controller.cpp:235-237 | The relative-move speed lies in [1, 30] and is the requested speed when that is in range. |
| Commands.RelativeSpeedNearest | act_controller.cpp:235-237 | The clamped speed is the closest value in [1, 30] to the requested one. |
| Commands.MinSpeed | act_controller.cpp:327 | The absolute-move speed is at least 1 and at least the requested one. It is unchanged when already at least 1, and exactly 1 when the requested speed is below 1. |
| Commands.MinSpeedIdempotent | act_controller.cpp:575-584 | Clamping twice (in the blocking move and again in the move it calls) is clamping once. |
| Commands.RelativeBody | act_controller.cpp:253-259 | A relative-move body is 39 bytes. |
| Commands.RelativeBodyFields | act_controller.cpp:241-282 | It addresses sixteen registers from 0x9102. Register 1 holds the speed modulo 2^16, the sign register holds 0 for a positive move and 0xFFFF otherwise, and the next register holds `magnitude * 100` modulo 2^16. |
| Commands.RelativeFramesLayout | act_controller.cpp:247-297 | A relative move writes its checked command and then the trigger (a write of 0x0100 to register 0x9100). Only a negative move adds the coil-0x1A-off frame. |
| Commands.RelativeFrames | act_controller.cpp:247-297 | A relative move writes two frames when the move is positive and three otherwise. The second frame is the trigger, and the third is the coil-0x1A-off frame. |
| Commands.WrapOfDistance | act_controller.cpp:248-272 | The 16-bit distance field is exact exactly when the magnitude is at most 655 in absolute value. |
| Commands.Int32OfSignedPair | act_controller.cpp:255-278 | Sign register 0 or 0xFFFF followed by a low register reads as a 32-bit value: the low register, or the low register minus 2^16. |
| Commands.RelativeDistanceExact | act_controller.cpp:248-278 | The distance registers hold `magnitude * 100` as a signed 32-bit value exactly when the magnitude is in [-655, 655]. |
| Commands.ScaledTarget | act_controller.cpp:332-335 | The scaled target lies in [0, 0xFFFF]. It equals `position * 100` when that is in range, 0 when the product is negative and 0xFFFF when it is above 0xFFFF. |
| Commands.SpeedFrameLayout | act_controller.cpp:339-349 | The speed frame is a checked one-register write at 0x0411 holding the speed modulo 2^16. |
| Commands.PositionFrameLayout | act_controller.cpp:351-359 | The target frame is a checked two-register write at 0x0412 whose registers read as the 32-bit scaled target. |
| Commands.TargetOfRegisters | act_controller.cpp:353-356 | A zero high register and a low register `s` read as the 32-bit value `s`. |
| Commands.AbsoluteTailLayout | act_controller.cpp:371-377 | The coil sequence is coil 0x1A off, the eight-coil write, on, off, each with a valid checksum. |
| Commands.AbsoluteFramesOf | act_controller.cpp:339-377 | Two checked frames followed by the coil sequence are six checked frames in that order. |
| Commands.AbsoluteFrames | act_controller.cpp:339-377 | An absolute move writes six frames, and the last four are the fixed coil sequence. |
| Commands.AbsoluteFramesLayout | act_controller.cpp:324-377 | An absolute move writes six checked frames: the speed register, the two target registers holding the scaled target, and then the coil sequence. |
| Commands.ExpectedAbsolute | act_controller.cpp:579-582 | The value an absolute blocking move waits for lies in [0, 655]. |
| Commands.ExpectedAbsoluteIsClamp | act_controller.cpp:579-582 | That value is the requested position clamped to [0, 655]. |
| Commands.ExpectedAbsoluteIsDecodedTarget | act_controller.cpp:579-582 | That value is what a device that reached the loaded target register decodes to. |
| Commands.ExpectedRelative | act_controller.cpp:482 | The value a relative blocking move waits for is never negative and never below the start position plus the magnitude. It equals that sum when the sum is not negative, and 0 when it is. |
| Ports.NatToString | act_controller.cpp:604 | A port number's decimal spelling is non-empty and all digits, with at least two digits from 10 on. |
| Ports.NatToStringInjective | act_controller.cpp:604-610 | Different numbers have different spellings. |
| Ports.NumberedDistinct | act_controller.cpp:604-610 | The names of one numbered family are pairwise distinct. |
| Ports.PortListDistinct | act_controller.cpp:601-614 | The candidate list has 32 entries on Windows and 106 elsewhere, with no name repeated. |
| Ports.PortNamesNonEmpty | act_controller.cpp:601-614 | No candidate name is empty. |
| Ports.PortListEnds | act_controller.cpp:601-614 | The Windows list runs COM1..COM32 with the default COM7 at index 6. Elsewhere it starts with the default /dev/ttyUSB0, then /dev/ttyS0 at 10 and /dev/tty0 at 42, and ends with /dev/tty63. |
| Ports.MakePortList | act_controller.cpp:601-614 | The Windows list holds 32 names. Elsewhere the list holds 106 names: 10 USB adapters, 32 serial ports and 64 terminals. |
| Ports.Preferred | act_controller.cpp:29-36 | The preferred port is the requested one when given, otherwise the platform default, and is never empty. |
| Ports.ScanFindsFirst | act_controller.cpp:95-109 | The scan finds a port exactly when some candidate it can open responds, and then it is the first such candidate in list order. It probes only ports that exist. |
| Ports.Responds | act_controller.cpp:40-43 | A port answers the probe only if it exists and sent at least five bytes: the three-byte header and the two-byte trailer. |
| Ports.ScanFrom | act_controller.cpp:95-109 | A scan that finds a port finds one that it probed and that answered with a valid response. |
| Ports.ScanPicksCandidate | act_controller.cpp:97-103 | The port the scan stops at is one of the candidates. |
| Ports.DiscoverFindsFirst | act_controller.cpp:26-114 | The intended connection attempt succeeds exactly when the preferred port or some candidate responds. It ends on the preferred port when that responds, otherwise on the first candidate that does. |
| Ports.Discover | act_controller.cpp:26-114 | A connection attempt that finds a port, with the preferred port closed before the scan, finds one that it probed and that answered with a valid response. |
| Ports.DiscoverAsWritten | act_controller.cpp:26-114 | A connection attempt as written, with the preferred port left open, also ends only on a port that it probed and that answered with a valid response. |
| Ports.AsWrittenResponds | act_controller.cpp:37-107 | Whatever port the written attempt ends on responds, and is the preferred port or a candidate. |
| Ports.HeldScanAgrees | act_controller.cpp:97-107 | A handle left open only costs the first candidate, so it changes nothing when that candidate does not respond. |
| Ports.AsWrittenAgrees | act_controller.cpp:37-107 | The written and the intended attempt end on the same port unless the preferred port opens without responding and the first candidate responds. |
| Ports.AsWrittenMissesFirst | act_controller.cpp:37-107 | In that case, with no other candidate responding, the written attempt finds nothing while the intended one connects to the first candidate. |
| Ports.ConnectSkipsFirstCandidate | act_controller.cpp:37-107 | Concrete instance: with COM3 requested on Windows, COM3 answering a whole reply with a bad checksum and the actuator on COM1, the written attempt fails and the intended one connects to COM1. |
| Controller.SettledFrom | act_controller.cpp:563-566 | The poll a blocking move stops at is the first reading from poll `i` on that lies within tolerance of the expected value. When there is none, no reading does. |
| Controller.FirstSettled | act_controller.cpp:563-566 | The poll a blocking move stops at is the first reading within tolerance of the expected value. When there is none, no reading is within tolerance. |
| Controller.PollCount | act_controller.cpp:563-567 | A blocking move polls at most as many times as there are readings before the deadline. |
| Controller.ScanAdvance | act_controller.cpp:97-109 | One scan step: a responding candidate that opens ends the scan, and any other candidate is passed over, recorded as probed when it opens. |
| Controller.ActController.constructor | act_controller.cpp:16-17 | A new controller is disconnected, with no port name, the handle closed and nothing written. |
| Controller.ActController.OpenAndConfigure | act_controller.cpp:616-623 | Opening fails when the handle is already open or the port does not exist. Otherwise the handle is open afterwards. |
| Controller.ActController.SafeClose | act_controller.cpp:625-630 | Afterwards the handle is closed and nothing else has changed. |
| Controller.ActController.Write | act_controller.cpp:679-683 | Writing on an open port appends the frame to the trace. |
| Controller.ActController.WriteAll | act_controller.cpp:58-71 | Writing a list of frames in order appends the list to the trace. |
| Controller.ActController.Probe | act_controller.cpp:39-43 | The probe is written, and the result is whether the port's answer reads as a response that passes its checksum. |
| Controller.ActController.TryCandidate | act_controller.cpp:98-107 | A candidate succeeds exactly when the handle was closed, the port exists and it responds. The probe is written only when the open succeeded, and the handle stays open only on success. |
| Controller.ActController.ScanPorts | act_controller.cpp:95-109 | The scan loop ends as `ScanFrom` says: the port found, and one probe written per port opened. |
| Controller.ActController.FinishScan | act_controller.cpp:110-160 | After the scan: 1 when nothing was found. Otherwise the initialisation frames are written and the controller records the port and is connected, returning 0. |
| Controller.ActController.Connect | act_controller.cpp:26-167 | Already connected: 0, and nothing written or changed. Otherwise the result, the state and the frames written are those of the intended discovery `Discover`: 0 and connected to the port found, or 1 and disconnected. |
| Controller.ActController.ConnectVia | act_controller.cpp:29-166 | The same, given the preferred port and the candidate list. |
| Controller.ActController.ConnectAsWritten | act_controller.cpp:26-167 | As `Connect`, but following `DiscoverAsWritten`, with the handle left open after a preferred port that does not respond. |
| Controller.ActController.ConnectViaAsWritten | act_controller.cpp:29-166 | The same, given the preferred port and the candidate list. |
| Controller.ActController.Disconnect | act_controller.cpp:220-224 | Always leaves the controller disconnected, with no port name and the handle closed, and writes nothing. |
| Controller.ActController.IsConnected | act_controller.cpp:400-402 | Connected exactly when a port name is recorded. |
| Controller.ActController.GetPortName | act_controller.cpp:597 | The port name is empty exactly when disconnected. |
| Controller.ActController.Reset | act_controller.cpp:169-206 | Writes the reset frames when connected, and nothing otherwise. |
| Controller.ActController.SendRelative | act_controller.cpp:247-297 | Appends exactly the relative-move frames to the trace. |
| Controller.ActController.MoveRelative | act_controller.cpp:233-297 | Writes nothing when disconnected or for magnitude 0. Otherwise it writes the relative-move frames at the speed clamped to [1, 30]. |
| Controller.ActController.SendAbsolute | act_controller.cpp:339-377 | Appends exactly the absolute-move frames to the trace. |
| Controller.ActController.MoveAbsolute | act_controller.cpp:324-378 | Writes nothing when disconnected. Otherwise it writes the absolute-move frames, with the speed raised to at least 1 and the clamped scaled target. |
| Controller.ActController.MoveToOrigin | act_controller.cpp:228-230 | An absolute move to 0 at the default speed 10. |
| Controller.ActController.GetCurrentPosition | act_controller.cpp:406-474 | 0 with nothing written when disconnected. Otherwise it writes the position request and returns `PositionOf` the answer. |
| Controller.ActController.DecodeReply | act_controller.cpp:451-470 | The length check, the checksum computed by the byte loop and compared with the trailer, and the rounding compute exactly `DecodePosition`, the pure decoding the other lemmas are about. |
| Controller.ActController.Poll | act_controller.cpp:560-568 | Returns 0 exactly when `FirstSettled` finds a reading within tolerance, and 1 otherwise. It writes one position request per poll up to and including that reading. |
| Controller.ActController.MoveRelativeBlocking | act_controller.cpp:478-569 | 1 with nothing written when disconnected, for magnitude 0 or for a non-positive timeout. Otherwise it writes a position request, the relative frames at the speed raised to at least 1, and one request per poll. It returns 0 exactly when some reading lies within tolerance of `ExpectedRelative`. |
| Controller.ActController.MoveAbsoluteBlocking | act_controller.cpp:573-595 | 1 with nothing written when disconnected or for a non-positive timeout. Otherwise it writes the absolute-move frames and one request per poll. It returns 0 exactly when some reading lies within tolerance of `ExpectedAbsolute`. |

## Left out

- Serial I/O through asio (open, set_option, write, read, read_some, async reads, timers, cancel, close). The device is an oracle: a map from port name to probe answer, the bytes of a position answer, and the sequence of poll answers. A write never fails, so the catch blocks around writes are not modelled.
- `sleep_for` delays, wall-clock deadlines and the 120 ms poll cadence. The readings made before the deadline are a finite sequence.
- The drain loop at act_controller.cpp:410-431 is left out; the answer given to a position read is the one the device sends after draining.
- The trailing short reads after the initialisation sequence, after a reset and after each move (act_controller.cpp:73-78, 152-157, 207-215, 299-319, 380-396, 543-558). Their bytes are discarded by the source.
- Console output in `connect` and the blocking moves.
- `init()`, which does nothing, and `read_exact`, which no operation calls.
- The randomized stress tests and `main` (act_controller.cpp:720-1029). test_act_controller.cpp is used only for its hex-parsing assertion.
- The literal initialisation and reset tables (act_controller.cpp:63-71, 141-149, 171-201) are constructor parameters `initFrames` and `resetFrames`. The fixed probe, trigger and coil frames are written as byte constants with proved checksums; only the test's hex literal is proved to parse to its bytes.
- `connect` on the preferred-port path writes the same initialisation frames as on the scan path. Both are `initFrames`.
- Commands.RelativeBody: does not model C++ signed overflow of `magnitude * 100` for magnitudes beyond about 2^31/100. The model takes the mathematical product modulo 2^16.
- Commands.ScaledTarget: does not model C++ signed overflow of `position * 100` for huge positions. The model clamps the mathematical product.
- Controller.ActController.GetCurrentPosition: a device that never answers makes the source block. The model treats too few bytes as a failed read that yields 0, as a read exception does.
- Ports.Responds / Controller.ActController.Probe: a port that opens and never answers blocks the source's `connect`, because the read has no time limit. The model treats it as a failed probe, so `ScanFrom`, `ScanFindsFirst` and `DiscoverFindsFirst` pass over it.
- Commands.ExpectedRelative: does not model overflow of `start + magnitude` near the `int` range.

## Findings

| source | as written | input that shows it | evidently intended | confidence | as-written member | corrected member |
|---|---|---|---|---|---|---|
| act_controller.cpp:37-107 | When the preferred port opens but does not answer the probe with a valid response, no exception is thrown and the handle is never closed before the scan. The first candidate's open then throws because the handle is already open, so that candidate is skipped. | Windows, `connect("COM3")`, COM3 answers a frame with a bad checksum, the actuator on COM1: the attempt returns 1. | Close the preferred port before scanning, so every candidate is tried in order. With that input it connects on COM1. | not executed | Ports.DiscoverAsWritten, Controller.ActController.ConnectAsWritten, shown by Ports.ConnectSkipsFirstCandidate and Ports.AsWrittenMissesFirst | Ports.Discover, Controller.ActController.Connect, proved by Ports.DiscoverFindsFirst |
