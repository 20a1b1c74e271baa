# GT521F32 fingerprint driver — a Dafny model

This project models the host-side driver of the GT521F32 fingerprint
sensor from the `gt521f32` package, in two parts.

The wire codec of `gt521f32/packets.py`:
- A packet is an ordered dictionary of struct-typed fields.
- It is encoded as the packed fields followed by a little-endian 16-bit
  checksum, which is the byte sum modulo 65536.
- Decoding reads the fields in order from a byte stream. A read that stops
  exactly at a field boundary gives `None`. A read that stops inside a
  field raises `struct.error`. A bad checksum gives `None`. Extra bytes
  after the packet are ignored.
- The command catalogue and the NACK catalogue are modelled with it.

The `GT521F32` session of `gt521f32/gt521f32.py`:
- `send_command` sends a 12-byte command frame and reads a 12-byte response.
- `open`, `module_info`, `get_image` and `_get_raw_image` read a trailing
  data frame.
- Modelled operations:
  - the interface choice from the port name;
  - the baud-rate change;
  - the single-shot operations (`capture`, `is_id_enrolled`, `delete_id`, …);
  - the finger prompt, with its LED context manager and its cancellable
    poll loop;
  - the `retry` decorator;
  - enrollment (`enroll_start`, `enroll_n` and `enroll_user`).

The model has four parts:
- **Codec**: a packet is a `seq<Field>` with a key, a struct format (`B`,
  `<H`, `<L` or `nB`) and the struct argument tuple. `Packets.Put` is
  ordered-dictionary assignment.
- **Transport**: the device is the byte stream `rx` it will send. A read
  of `n` bytes takes `min(n, |rx|)` bytes off its front, so a silent
  device is a short read.
- **Trace**: every frame written, every read and every open and close of
  the interface is recorded in `trace`. `Commands(trace)` projects out
  the commands sent.
- **Exceptions**: a call that raises is an `Err` outcome in a
  `Step(outcome, after)`. `after` keeps what was written and read before
  the exception.

The cancellation flag is the `cancel` field. Calls of `cancel()` from
another thread are the sequence `interrupts`, which is consulted at every
`_cancel.is_set()` check.

Files:
- `basics.dfy`: Option and Result, little-endian integers, byte sums.
- `catalog.dfy`: `command_codes`, `response_error` and `reverse`.
- `codec.dfy`: the generic packet, `_field_bytes`, `to_bytes` and `from_bytes_static`.
- `codec_laws.dfy`: the laws of the codec.
- `packets.py` is split across three files:
  - `packets.dfy`: the packet classes and their ordered-dictionary layout;
  - `text.dfy`: the string properties (`hex(..).lstrip("0x")`, `.hex().upper()` and the C-string read);
  - `views.dfy`: what decoding each data frame yields.
- `ports.dfy`: `_choose_interface_type`.
- `driver.dfy`: the session and the single-shot commands.
- `prompt.dfy`: the finger prompt, identify and verify.
- `retry.dfy`: the `retry` decorator.
- `enroll.dfy`: enrollment.

## Model

Verify with `dafny verify --resource-limit 2000000 --verification-time-limit 0 --warn-contradictory-assumptions *.dfy`.

| member | source | states |
|---|---|---|
| Basics.FromLeLe | gt521f32/packets.py:24-30 | unpacking the little-endian `<H`/`<L` encoding of a value that fits the width gives the value back |
| Basics.LeFromLe | gt521f32/packets.py:24-30 | re-packing the value of any little-endian byte string in its own width gives the same bytes |
| Basics.SumAppend | gt521f32/packets.py:103-104 | the byte sum that the checksum is built from is additive over concatenation |
| Catalog.CommandCodesFit | gt521f32/packets.py:33-70 | every catalogued command code fits the 16-bit Command field |
| Catalog.ReverseKeys | gt521f32/packets.py:16 | a value is a key of `reverse(d)` exactly when some entry of `d` carries it |
| Catalog.ReverseLastWins | gt521f32/packets.py:16 | when values repeat, `reverse` maps a value to the last name that carries it |
| Catalog.ConsecutiveReverse | gt521f32/packets.py:16 | for a table of consecutive codes, `reverse` is defined exactly on that range and inverts every entry |
| Catalog.ResponseErrorBijection | gt521f32/packets.py:74-93 | the NACK codes that `reverse(response_error)` knows are exactly 0x1001..0x1012, and each maps back to its own name |
| Catalog.KnownErrorRange | gt521f32/packets.py:74-93 | a parameter has a `response_error` name exactly when it lies in 0x1001..0x1012 |
| Codec.Pack | gt521f32/packets.py:113-117 | `struct.pack` of a conforming field yields exactly `calcsize(format)` bytes |
| Codec.UnpackFits | gt521f32/packets.py:138-139 | every value that `struct.unpack` produces can be packed again in the same format |
| Codec.PackUnpack | gt521f32/packets.py:138-139 | packing what was unpacked from a chunk reproduces the chunk |
| Codec.UnpackPack | gt521f32/packets.py:116 | unpacking what was packed gives back the struct arguments |
| Codec.FieldBytes | gt521f32/packets.py:113-117 | the concatenated field bytes are as long as the sum of the field sizes |
| Codec.ToBytes | gt521f32/packets.py:119-123 | encoding succeeds exactly when every field's contents fit its format; the result is `byte_size()` long, starts with the field bytes and ends with their byte sum mod 65536 in little-endian |
| Codec.ReadFieldsShape | gt521f32/packets.py:131-139 | a full field read keeps the template's keys and formats, yields packable contents and consumes exactly the field bytes; a stopped read never yields a packet |
| Codec.FromBytes | gt521f32/packets.py:125-156 | a decoded packet has as many fields as the template and needed at least `byte_size()` input bytes |
| CodecLaws.FieldBytesInjective | gt521f32/packets.py:113-117 | two packets of the same shape with the same field bytes are equal |
| CodecLaws.ReadFieldsLong | gt521f32/packets.py:131-139 | with enough bytes every field is read, and re-packing the fields gives exactly the bytes consumed |
| CodecLaws.ReadFieldsShort | gt521f32/packets.py:131-139 | with too few bytes the loop returns `None` when the input ends at a field boundary and raises `struct.error` when it ends inside a field |
| CodecLaws.FromBytesLong | gt521f32/packets.py:141-156 | with at least `byte_size()` bytes, the result is the packet read when the stored checksum matches, and `None` otherwise |
| CodecLaws.FromBytesShort | gt521f32/packets.py:131-146 | a shorter input is `None` exactly when it ends at a field boundary (the checksum's start included), and `struct.error` otherwise |
| CodecLaws.DecodeIff | gt521f32/packets.py:125-156 | decoding succeeds exactly when the input holds `byte_size()` bytes whose last two are the little-endian sum of the field bytes |
| CodecLaws.DecodeEncode | gt521f32/packets.py:113-156 | decoding the encoding of a conforming packet, against a template of the same shape, gives the packet back |
| CodecLaws.ToBytesOf | gt521f32/packets.py:119-123 | `to_bytes` is the field bytes followed by the two checksum bytes |
| CodecLaws.EncodeDecoded | gt521f32/packets.py:113-156 | re-encoding a decoded packet reproduces the first `byte_size()` bytes of the input |
| CodecLaws.ExtraBytesIgnored | gt521f32/packets.py:153-156 | bytes after the packet only produce a log line and do not change the result |
| CodecLaws.SameLeadingBytes | gt521f32/packets.py:153-156 | two inputs that agree on their first `byte_size()` bytes decode alike |
| CodecLaws.ChecksumFieldChange | gt521f32/packets.py:103-104 | changing any one byte changes the checksum |
| CodecLaws.ChecksumSensitive | gt521f32/packets.py:141-151 | changing any single byte of a frame that decodes makes it fail the checksum test |
| CodecLaws.FieldAt | gt521f32/packets.py:131-139 | field i of a read holds the unpacking of the bytes at that field's offset |
| CodecLaws.ReadFieldsFrom | gt521f32/packets.py:131-139 | the field loop agrees with the positional reading that unpacks each field at its offset |
| CodecLaws.DecodedFields | gt521f32/packets.py:125-156 | a decoded packet is the positional reading of its input |
| CodecLaws.FieldOfDecoded | gt521f32/packets.py:131-139 | each field of a decoded packet holds the unpacking of its own byte range |
| Packets.FindSpec | gt521f32/packets.py:167 | a dictionary lookup finds the first entry with the key, and fails exactly when no entry has it |
| Packets.PutSameKey | gt521f32/packets.py:201-203 | assigning an existing key replaces its entry in place; assigning a new key appends it |
| Packets.PutOtherKey | gt521f32/packets.py:201-204 | assigning one key leaves the lookup of every other key unchanged |
| Packets.PutAllFresh | gt521f32/packets.py:159-163 | assigning fresh keys in order lays the fields out in that order after the existing ones |
| Packets.HeaderLayout | gt521f32/packets.py:96-101 | `Packet()` holds the two command start codes and the device id, in that order |
| Packets.FrameLayout | gt521f32/packets.py:159-178 | a command or response packet is the header, then a `<L` Parameter, then a `<H` Command or Response |
| Packets.DataLayout | gt521f32/packets.py:198-206 | `DataPacket()` keeps one start byte, 0xA5, because both start codes are written under the same key |
| Packets.ModuleInfoLayout | gt521f32/packets.py:242-251 | the module-info packet is the header, two 12-byte names, then seven `<H` numbers in declaration order |
| Packets.OpenDataLayout | gt521f32/packets.py:306-309 | the open-data packet is the header, then the `<L` firmware version, the `<L` iso-area size and the 16-byte serial |
| Packets.ImageLayout | gt521f32/packets.py:332-353 | each image packet is the header followed by one bitmap byte-array field |
| Packets.DecodedGet | gt521f32/packets.py:131-139 | looking up a key of a decoded packet gives the unpacking of that key's bytes |
| Packets.HeaderFacts | gt521f32/packets.py:18-24 | the header packs to 55 AA 01 00, and its field boundaries are 0, 1, 2 and 4 |
| Packets.FrameShape | gt521f32/packets.py:159-178 | a command or response frame is 12 bytes: Parameter at offset 4 and the code at offset 8 |
| Packets.FrameKeys | gt521f32/packets.py:165-186 | the `parameter`, `command` and `response_code` properties read the values they were built with |
| Packets.FrameBytes | gt521f32/packets.py:159-163 | a frame packs exactly when the parameter fits 32 bits and the code fits 16 bits, as 55 AA 01 00 then both values in little-endian |
| Packets.FrameBoundaries | gt521f32/packets.py:159-178 | a frame's field boundaries are 0, 1, 2, 4, 8 and 10 |
| Packets.CommandWire | gt521f32/packets.py:159-171 | the bytes written for a command are the 10 field bytes plus their checksum, and a parameter that does not fit 32 bits makes packing fail |
| Packets.CommandRoundTrip | gt521f32/packets.py:159-171 | a command packet decodes from its own bytes to itself |
| Packets.ResponseRoundTrip | gt521f32/packets.py:174-195 | a response packet decodes from its own bytes to itself |
| Packets.ResponseOutcome | gt521f32/packets.py:192-195 | a response decodes exactly when 12 bytes with a matching checksum are present, and raises `struct.error` exactly for short reads of 3, 5, 6, 7, 9 or 11 bytes |
| Packets.ResponseFields | gt521f32/packets.py:180-186 | the parameter of a decoded response is bytes 4..8 and its code is bytes 8..10 |
| Packets.DataWire | gt521f32/packets.py:198-215 | `DataPacket().byte_size()` is 6, and it packs only with exactly one data byte |
| Text.DigitRoundTrip | gt521f32/packets.py:311-321 | each hex digit reads back as its value, and only the digit 0 is '0' |
| Text.HexDigitsFacts | gt521f32/packets.py:311-313 | the hex digits of v start with '0' only for v = 0 and parse back to v |
| Text.FirmwareStringFacts | gt521f32/packets.py:311-313 | `hex(v).lstrip("0x")` is empty for 0, otherwise it is v's hex digits with no leading zero, and it parses back to v |
| Text.SerialRoundTrip | gt521f32/packets.py:319-321 | the serial string has two upper-case hex digits per byte and parses back to the bytes |
| Text.CStringFacts | gt521f32/packets.py:253-261 | the sensor and engine names are the bytes before the first NUL, one character per byte |
| Ports.ChooseInterfaceSpec | gt521f32/gt521f32.py:48-61 | COM… and /dev/tty… ports are serial; /dev/sg… and two-character drive names such as "E:" are SCSI; every other name is rejected, never with an IndexError |
| Ports.AsWrittenDiffers | gt521f32/gt521f32.py:52-61 | the code as written raises IndexError exactly on the empty port name and on one-letter names that match no prefix, and otherwise agrees with the corrected choice |
| Ports.IndexErrorWitness | gt521f32/gt521f32.py:56-58 | "" and "C" raise IndexError as written, and the corrected choice rejects them as unknown ports |
| Driver.Init | gt521f32/gt521f32.py:63-80 | construction succeeds exactly when the port names an interface, a baud rate is given only for a serial port, and the interface opens. An unknown port and a baud rate for SCSI each give their own error. An open failure that is an InterfaceException gives the wrapped "Failed to open" error, and any other open failure escapes as itself |
| Driver.WindowsExceptionDiffers | gt521f32/interfaces/scsi_windows.py:116-147 | the Windows open failures are exactly the ones that escape `__init__` unwrapped as written but are wrapped once WindowsSCSIInterfaceException is an InterfaceException; a second serial `open()`, a pyserial ValueError and any other OSError escape either way |
| Driver.InitWindowsWitness | gt521f32/gt521f32.py:63-80 | a drive-type failure on "E:" escapes the constructor as written as WindowsSCSIInterfaceException; the corrected constructor raises the wrapped error |
| Driver.InitAsWritten | gt521f32/gt521f32.py:48-80 | the constructor as written raises IndexError exactly on the empty port name and on one-letter names that match no prefix; a Windows open failure escapes unwrapped exactly where `Driver.Init` gives the wrapped error; on every other input the two agree |
| Driver.InitIndexErrorWitness | gt521f32/gt521f32.py:56-66 | constructing with "" or "C" raises IndexError as written; the corrected constructor rejects both as unknown ports |
| Driver.DecodeReply | gt521f32/gt521f32.py:99-105 | a response is accepted exactly when it is a valid 12-byte frame, with (code, parameter) taken from its bytes; a read cut inside a field is an unpack error, any other failure is "Command failed" |
| Driver.ReplyPrefix | gt521f32/gt521f32.py:99-102 | reading the first 12 bytes of the stream validates and decodes like the whole stream |
| Driver.SendCommand | gt521f32/gt521f32.py:86-114 | an unknown name raises before anything is written; a parameter too wide for 32 bits fails packing; otherwise one frame is written, 12 bytes are read and the result is the decoded reply |
| Driver.SendCommandOutcome | gt521f32/gt521f32.py:86-114 | `send_command` returns exactly when the command is known, the parameter fits and the device's next 12 bytes are a valid reply, and it returns that reply's code and parameter |
| Driver.SendCommandFollows | gt521f32/gt521f32.py:86-96 | `send_command` appends exactly its own command to the command log and only consumes the stream |
| Driver.SendCatalogued | gt521f32/gt521f32.py:86-114 | for a catalogued command, `send_command` returns exactly when the parameter fits and the reply is valid, appends exactly that command, and keeps the cached info and baud rate |
| Driver.CheckedCommand | gt521f32/gt521f32.py:359-405 | for a catalogued command, the check-the-ACK pattern gives True exactly on ACK and False exactly on a known NACK, and sends only that command |
| Driver.Checked | gt521f32/gt521f32.py:359-368 | the check-the-ACK pattern gives True on ACK, False on a known NACK, and KeyError on a NACK code `response_error` does not know |
| Driver.LogNack | gt521f32/gt521f32.py:119-127 | logging a NACK raises KeyError exactly when the code is not ACK and the parameter is outside 0x1001..0x1012 |
| Driver.UsbInternalCheck | gt521f32/gt521f32.py:116-117 | succeeds exactly on a valid reply, whatever it says |
| Driver.ChangeBaudRate | gt521f32/gt521f32.py:119-127 | returns normally on ACK or on a known NACK, and leaves the cached info and baud rate alone |
| Driver.Reopen | gt521f32/gt521f32.py:139-140 | the interface is closed, then reopened at the new rate when the open succeeds |
| Driver.ChangeBaudRateAndReopen | gt521f32/gt521f32.py:129-140 | SCSI sessions raise NotImplementedError untouched; serial ones send CHANGE_BAUDRATE, close, and reopen at the new rate |
| Driver.Open | gt521f32/gt521f32.py:154-176 | OPEN returns the firmware string, iso-area size and serial string decoded from the 30-byte data frame and caches them; an undecodable frame raises and leaves the cache alone |
| Driver.ReadModuleInfo | gt521f32/gt521f32.py:182-211 | reading fewer than 44 bytes, or a frame that does not decode, raises; otherwise the nine values come from the frame |
| Driver.ModuleInfo | gt521f32/gt521f32.py:178-183 | after the reply, exactly parameter + `DataPacket().byte_size()` bytes are requested |
| Driver.ModuleInfoResult | gt521f32/gt521f32.py:178-211 | `module_info` returns exactly when the reply is valid, parameter + 6 is at least 44 and the data frame decodes; the values are the frame's |
| Driver.ModuleInfoConsumes | gt521f32/gt521f32.py:179-183 | `module_info` consumes the 12-byte reply plus parameter + 6 data bytes from the stream |
| Driver.ModuleInfoCommands | gt521f32/gt521f32.py:178-183 | `module_info` sends MODULE_INFO and nothing else |
| Driver.RestoreAndClose | gt521f32/gt521f32.py:219-220 | the baud-rate reset is sent, and the interface is closed only when that call returned |
| Driver.Close | gt521f32/gt521f32.py:216-220 | close sends CLOSE then CHANGE_BAUDRATE 9600; a failing CLOSE reply raises before the reset; success needs both replies |
| Driver.SetLed | gt521f32/gt521f32.py:338-341 | CMOS_LED 1 or 0 is sent; any valid reply counts as success |
| Driver.Capture | gt521f32/gt521f32.py:343-352 | True on ACK, False on a known NACK; CAPTURE carries best_image as 0 or 1 |
| Driver.GetEnrolledCount | gt521f32/gt521f32.py:354-357 | the count is the reply parameter, whatever the code |
| Driver.IsIdEnrolled | gt521f32/gt521f32.py:359-368 | True on ACK, False on a known NACK; an id outside 32 bits fails before anything is sent |
| Driver.DeleteId | gt521f32/gt521f32.py:370-380 | True on ACK, False on a known NACK; an id outside 32 bits fails before anything is sent |
| Driver.DeleteAll | gt521f32/gt521f32.py:382-391 | True on ACK, False on a known NACK |
| Driver.IsFingerPressed | gt521f32/gt521f32.py:414-422 | pressed exactly when an ACK carries parameter 0; False for a non-zero parameter or a known NACK |
| Driver.GetImage | gt521f32/gt521f32.py:315-330 | a known NACK gives None; on ACK the bitmap is bytes 4..52120 of a 52122-byte frame that decodes |
| Driver.GetRawImage | gt521f32/gt521f32.py:294-313 | a known NACK gives None; on ACK the raw bitmap is bytes 4..19204 of a 19206-byte frame that decodes |
| Views.OpenDataSize | gt521f32/packets.py:302-309 | the open-data frame is 30 bytes |
| Views.OpenDataOutcome | gt521f32/packets.py:323-326 | the open-data frame decodes exactly when 30 bytes with a matching checksum are present |
| Views.OpenDataValuesWith | gt521f32/packets.py:311-321 | firmware version, iso-area size and serial come from bytes 4..8, 8..12 and 12..28 |
| Views.DecodeOpenData | gt521f32/packets.py:302-326 | the three open-data properties: the firmware hex string, the iso-area size and the upper-case serial hex |
| Views.ModuleInfoSize | gt521f32/packets.py:229-251 | the module-info frame is 44 bytes |
| Views.ModuleInfoValuesWith | gt521f32/packets.py:253-289 | the names come from bytes 4..16 and 16..28, and the seven numbers from the `<H` slots from byte 28 on |
| Views.ModuleInfoOutcome | gt521f32/packets.py:291-294 | the module-info frame decodes exactly when 44 bytes with a matching checksum are present |
| Views.InfoOfFields | gt521f32/packets.py:253-289 | the properties read the C strings and the little-endian numbers of the decoded frame |
| Views.DecodeModuleInfo | gt521f32/packets.py:229-294 | module info decodes exactly on 44 bytes with a matching checksum, giving the two names and the seven numbers at their offsets |
| Views.ImageDecoded | gt521f32/packets.py:329-362 | an image frame decodes exactly when the bitmap plus 6 bytes with a matching checksum are present, and the bitmap is bytes 4 onward |
| Views.DecodeImage | gt521f32/packets.py:329-344 | GET_IMAGE yields bytes 4..52120 of a valid 52122-byte frame |
| Views.DecodeRawImage | gt521f32/packets.py:347-362 | GET_RAWIMAGE yields bytes 4..19204 of a valid 19206-byte frame |
| Views.OpenDataPrefix | gt521f32/gt521f32.py:158-161 | reading 30 or more bytes for the open-data frame decodes as the whole stream would |
| Views.ModuleInfoPrefix | gt521f32/gt521f32.py:182-189 | fewer than 44 bytes never decode; 44 or more decode as the whole stream would |
| Views.ModuleInfoFirst44 | gt521f32/packets.py:153-156 | module info depends only on the first 44 bytes |
| Views.ImagePrefix | gt521f32/gt521f32.py:306-309 | reading exactly the frame size loses nothing to a longer stream |
| Prompt.Poll | gt521f32/gt521f32.py:428 | an `is_set()` check sees the flag set by this thread or by an interrupt arriving now, and changes nothing else |
| Prompt.WaitFollows | gt521f32/gt521f32.py:427-433 | the poll loop only consumes the stream and keeps the cached info |
| Prompt.WaitClearsFlag | gt521f32/gt521f32.py:431-433 | whenever the loop returns, the cancel flag is clear |
| Prompt.WaitOnlyPolls | gt521f32/gt521f32.py:427-429 | the loop sends IS_PRESS_FINGER and nothing else |
| Prompt.WaitCancelled | gt521f32/gt521f32.py:428-433 | a flag seen before polling ends the loop at once, with the flag cleared and nothing sent |
| Prompt.WaitPressed | gt521f32/gt521f32.py:428-433 | a pressed reply ends the loop |
| Prompt.WaitEndsOnPress | gt521f32/gt521f32.py:427-429 | without cancellation, a loop that returns has just received a pressed reply |
| Prompt.PressedReply | gt521f32/gt521f32.py:414-422 | a pressed reply is the last thing in the trace after `is_finger_pressed` |
| Prompt.CancelledWait | gt521f32/gt521f32.py:427-433 | with the flag already set, the loop sends and reads nothing |
| Prompt.PressEndsWait | gt521f32/gt521f32.py:427-429 | when the next reply says pressed, the loop sends exactly one IS_PRESS_FINGER |
| Prompt.Led | gt521f32/gt521f32.py:332-336 | LED on, body, then LED off; an exception in the body skips the LED-off command |
| Prompt.CaptureStep | gt521f32/gt521f32.py:435-437 | the capture result is discarded, but its exceptions propagate |
| Prompt.CaptureAfterCancelledWait | gt521f32/gt521f32.py:435-443 | after a cancelled wait the capture is still sent |
| Prompt.CaptureAfterCancel | gt521f32/gt521f32.py:435-443 | after `cancel()`, the next commands of `prompt_finger_and_capture` are LED on and then CAPTURE |
| Prompt.LedReturnsDark | gt521f32/gt521f32.py:332-336 | whenever the LED context returns normally, its last command is LED off |
| Prompt.PromptFingerReturnsDark | gt521f32/gt521f32.py:439-443 | whenever `prompt_finger` returns normally, its last command is LED off |
| Prompt.LedKeepsBody | gt521f32/gt521f32.py:332-336 | the LED wrapper keeps every command its body sent |
| Prompt.GetRawImageSafeCommands | gt521f32/gt521f32.py:290-292 | the raw image download runs with the LED on: LED on, GET_RAWIMAGE, LED off |
| Prompt.IdentifyReply | gt521f32/gt521f32.py:278-288 | on ACK the id is the reply parameter; a known NACK gives None; an unknown NACK raises KeyError |
| Prompt.VerifyReply | gt521f32/gt521f32.py:393-405 | True on ACK, False on a known NACK, for the id sent with VERIFY |
| Retry.RetryCalls | gt521f32/gt521f32.py:20-27 | retry returns the result of the first call that is not False, in the state after that call, or False after `count` Falses |
| Retry.RetryOutcome | gt521f32/gt521f32.py:20-27 | retry returns False exactly when all `count` calls return False, and True exactly when a True follows only Falses |
| Retry.RetryBound | gt521f32/gt521f32.py:20-27 | retry makes at least one and at most `count` calls |
| Retry.RetrySummary | gt521f32/gt521f32.py:20-27 | the outcome and the bound on the number of calls, together |
| Enroll.EnrollNames | gt521f32/gt521f32.py:248 | `"ENROLL%d"` for steps 1 to 3 names catalogued commands |
| Enroll.EnrollStart | gt521f32/gt521f32.py:222-230 | True on ACK, False on a known NACK, KeyError on an unknown one |
| Enroll.EnrollReply | gt521f32/gt521f32.py:248-259 | only a known NACK asks for a retry; ACK and unknown NACK codes (a duplicate id) both return True |
| Enroll.PhotoStep | gt521f32/gt521f32.py:238-246 | without photos nothing is sent; with photos GET_IMAGE runs and only its exceptions matter |
| Enroll.EnrollNFalseOnlyAfterThree | gt521f32/gt521f32.py:232-259 | `enroll_n` returns False only after three attempts that each returned False |
| Enroll.EnrollNThreeFalsesGiveFalse | gt521f32/gt521f32.py:232-259 | three False attempts make `enroll_n` return False |
| Enroll.EnrollNTrueOnlyAfterFalses | gt521f32/gt521f32.py:232-259 | `enroll_n` returns True only when an attempt returns True after only Falses |
| Enroll.EnrollNFalsesThenTrueGiveTrue | gt521f32/gt521f32.py:232-259 | an attempt returning True after only Falses makes `enroll_n` return True |
| Enroll.EnrollNAttempts | gt521f32/gt521f32.py:232-259 | `enroll_n` makes one, two or three attempts |
| Enroll.EnrollUserRefused | gt521f32/gt521f32.py:261-263 | a refused ENROLL_START returns False with nothing else sent |
| Enroll.EnrollUserSucceeds | gt521f32/gt521f32.py:261-276 | `enroll_user` returns True exactly when ENROLL_START is accepted and then steps 1, 2 and 3 each return True, each run from the state the previous one left |
| Enroll.EnrollUserFalseEndsQuietly | gt521f32/gt521f32.py:261-276 | when `enroll_user` returns False, the last command it sent is the refused ENROLL_START or the LED-off of the step that failed |
| Enroll.EnrollStepsFalseEndsDark | gt521f32/gt521f32.py:265-271 | a loop over the steps that returns False ends with the LED switched off |
| Enroll.EnrollStepReturnsDark | gt521f32/gt521f32.py:267-269 | an enroll step that returns normally has switched the LED off last |
| Enroll.EnrollStepsAllTrue | gt521f32/gt521f32.py:265-274 | the loop completes exactly when steps 1, 2 and 3 each return True, each from the state the previous one left |

## Left out

- The `GT521F32/` draft package and the viewer programs are not part of this model; they sit outside the driver package.
- `SerialInterface` and `SCSIInterface` are not part of this model:
  - their reads and writes are the byte stream `rx` and the trace;
  - how opening the interface in the constructor ends is the parameter `opening`: None, or the `OpenFailure` the interface class raised;
  - whether the reopen in `change_baud_rate_and_reopen` succeeds is the parameter `reopens`.
- The platform is not modelled. Nothing ties an `OpenFailure` to the interface kind or to the platform that raises it: a serial failure on a SCSI port is accepted as input, and it is classified as that failure would be.
- `_delay` and the poll interval are left out. Time does not affect what is sent or read.
- Every `logger` call is left out. Logging never changes a result.
- `save_bitmap_to_file` and `save_image_to_bmp` are left out: they write BMP files through PIL. `Enroll.PhotoStep` keeps the GET_IMAGE exchange and its exceptions.
- `__del__` is left out: garbage-collector timing cannot be modelled. `Driver.Close` models what it calls.
- The `firmware_version`, `iso_area_max_size` and `device_serial_number` properties only return the cache. The cache is the `info` field that `Driver.Open` fills.
- The `assert isinstance(…, bool)` checks in `set_led` and `capture` are left out: the parameters are typed `bool`.
- Concurrency is left out apart from `cancel()`. A call from another thread is an entry of `interrupts`, observed at the next `is_set()` check; no other interleaving is modelled.
- Exception messages are left out. Errors are told apart by kind only.
- `Ports.ChooseInterfaceSpec`, `Ports.ChooseInterfaceAsWritten`, `Ports.AsWrittenDiffers`, `Ports.IndexErrorWitness`, `Driver.Init` and `Driver.InitAsWritten`: `IsAlpha` accepts ASCII letters only. Python's `str.isalpha` accepts every Unicode letter, so non-ASCII drive letters are not covered. For example, Python raises IndexError on "é" where `Ports.ChooseInterfaceAsWritten` rejects it as an unknown port, and accepts "é:" as a SCSI drive where the model rejects it.
- `Prompt.WaitForFingerPress` is not in the table: its properties are stated by the Wait lemmas.
  - Its recursion is bounded by the finite reply stream, and each poll consumes 12 bytes.
  - A device that answers "not pressed" forever would need an infinite stream. Such a run is cut off where the stream ends, with the error a silent device gives.
- `Enroll.Decimal` is not in the table. Its contract only says the digits are non-empty; `Enroll.EnrollNames` pins down the three names the driver uses.
- `Driver.Cancel`, `Prompt.PromptFinger`, `Prompt.PromptFingerAndCapture`, `Prompt.GetRawImageSafe`, `Prompt.Identify`, `Prompt.Verify`, `Enroll.EnrollAttempt`, `Enroll.EnrollN`, `Enroll.EnrollStep`, `Enroll.EnrollSteps` and `Enroll.EnrollUser` have no `ensures` of their own. The lemmas above state their behaviour.
- Driver.Init: it uses the corrected interface choice, so "" and one-letter port names are rejected as unknown ports. `Driver.InitAsWritten` is the constructor as written: there the IndexError escapes, because the `except InterfaceException` at gt521f32/gt521f32.py:76 does not catch it. `Driver.Init` also takes WindowsSCSIInterfaceException to be an InterfaceException, so a Windows open failure is wrapped; `Driver.InitAsWritten` lets it escape, as the code does.
- Transport failures are left out: in the model a write, a read or a close of the interface never raises. Not modelled: the exceptions of `SerialInterface.write` and of pyserial reads, the `assert` in `_buffered_read` (gt521f32/interfaces/serial.py), and `sgio.execute` and the size asserts of the SCSI reads and writes (gt521f32/interfaces/scsi_linux.py and scsi_windows.py).
- The buffered serial read loops until it has `count` bytes for reads over 512 bytes. `Driver.Read` takes whatever the stream holds, so the 52122-byte raw image and 19206-byte image reads are over-approximated by a short read.
- `Driver.ModuleInfo`: its own contract only fixes the bytes consumed. `Driver.ModuleInfoResult` states what it returns.

## Behaviour worth knowing

- **Cancelling a prompt.** A cancelled prompt does not skip its action: `wait_for_finger_press` only returns, and the body of the `with` block (the capture, the enroll step) runs anyway. See `Prompt.CaptureAfterCancel`.
- **LED off on normal exit only.** `led()` is a generator context manager without `try/finally`. An exception in the body skips `set_led(False)` and leaves the LED on. A normal return always ends with LED off. See `Prompt.Led` and `Prompt.LedReturnsDark`.
- **Short module-info frames.** Fewer than 44 bytes make `from_bytes` return `None` or raise `struct.error`, and the property reads that follow then raise. See `Driver.ModuleInfoResult`.
- **Closing the session.** `close` lets every exception of `send_command` escape. See `Driver.Close`.
- **Truncated input.** Decoding input that ends exactly at a field boundary gives `None`, but a read that ends inside a field raises `struct.error`. See `CodecLaws.ReadFieldsShort`.
- **The encode(decode(b)) round trip.** It holds for the first `byte_size()` bytes only: extra bytes are logged and dropped. See `CodecLaws.EncodeDecoded`.
- **Unknown NACK codes.** On a non-ACK reply whose code `response_error` does not know, these raise KeyError: `change_baud_rate` (and so `close`), `enroll_start`, `identify`, `_get_raw_image`, `get_image`, `capture`, `is_id_enrolled`, `delete_id`, `delete_all`, `verify` and `is_finger_pressed`. `usb_internal_check`, `set_led`, `get_enrolled_count`, `open` and `module_info` never look at the code. `enroll_n` looks it up with `.get` and treats an unknown code as a duplicate id, returning True.
- **The DataPacket start codes.** `DataPacket` assigns both start codes to the key `DataStartCode1`, so only 0xA5 remains and `byte_size()` is 6. That equals the header-plus-checksum overhead of a data frame, so `module_info` still requests the right number of bytes. See `Packets.DataLayout` and `Packets.DataWire`.

## Findings

| source | as written | input that shows it | evidently intended | confidence | as-written member | corrected member |
|---|---|---|---|---|---|---|
| gt521f32/gt521f32.py:56-58 | `port[0].isalpha() and port[1] == ":"` is evaluated before `len(port) == 2`, so a port name shorter than two characters that matches no prefix raises IndexError | `""` and `"C"` | such a name is rejected with GT521F32Exception "Could not derive interface type from port path" | high; not executed | Ports.ChooseInterfaceAsWritten, Ports.IndexErrorWitness, Driver.InitAsWritten, Driver.InitIndexErrorWitness | Ports.ChooseInterface, Ports.ChooseInterfaceSpec, Driver.Init |
| gt521f32/interfaces/scsi_windows.py:116 | `WindowsSCSIInterfaceException` derives from `Exception`, while `SerialInterfaceException` and `LinuxSCSIInterfaceException` derive from `InterfaceException`; the constructor's `except InterfaceException` at gt521f32/gt521f32.py:76 therefore misses it | `GT521F32("E:")` on Windows where the drive type check at scsi_windows.py:132-133 fails | the failure is wrapped as GT521F32Exception "Failed to open the fingerprint device.", as on the other platforms | medium; not executed | Driver.IsInterfaceExceptionAsWritten, Driver.InitAsWritten, Driver.InitWindowsWitness | Driver.IsInterfaceException, Driver.WindowsExceptionDiffers, Driver.Init |
