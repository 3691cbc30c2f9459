# VESC serial protocol: a verified model

This project models the serial-protocol library that an ESP32 remote uses to
talk to VESC motor controllers (`lib/vesccomm`). The library has three layers:

- **`vesc::buffer<N>`** is a fixed-capacity byte array with a cursor `_head` and
  a logical length `_len`. Appends write big-endian integers at `head + len`.
  Reads consume from `head`. `get_string` takes a zero-terminated string.
  `reload`, `advance`, `truncate` and `reset` move the cursor.
- **`vesc::packet`** frames a payload as
  `[0x02 | 0x03] [length u8 | u16] [payload] [crc16 u16] [0x03]`. `validate`
  classifies a received byte run as VALID, INCOMPLETE, BAD_START,
  INVALID_CRC or BAD_END, and on VALID leaves the payload in the buffer's
  window.
- **`vesc::controller`** works on top of the framing:
  - `parse_command` validates a packet, dispatches on its first payload
    byte and then runs the callback registered for that opcode;
  - the firmware-info decoder (`handleFw`);
  - the selective telemetry decoder (`handleGetValuesSelective`) and the
    routing of the decoded record to the primary or the second controller's
    slot;
  - the command encoders `getValues`, `setCurrent`, `setRPM`, `setDuty` and
    their pairwise wrappers.

The buffer is an immutable datatype `Buffer(data, head, len)`. Each operation
that mutates the C++ object is a pure function returning the new buffer, and a
consuming read returns `Read(value, rest)`. The checksum `crc16` is a function
parameter `crc: seq<byte> -> u16`. A decoded telemetry record is a map from
field to reading. A field absent from the map is one the source leaves
uninitialised.

Modules, in dependency order:

| file | module | models |
|---|---|---|
| bytes.dfy | `Wrappers`, `Bytes` | `Option`, bytes, big-endian encodings of the six integer types |
| buffer.dfy | `ByteBuffer` | `buffer<N>` |
| packet.dfy | `Packet` | `packet::construct`, `packet::validate` |
| telemetry.dfy | `Telemetry` | the `values::` mask bits and `handleGetValuesSelective`'s decoding |
| firmware.dfy | `Firmware` | `fw_params` and `handleFw` |
| commands.dfy | `Commands` | the command encoders and the transmit sink |
| controller.dfy | `Controller` | the controller state, `parse_command`, slot routing, the callback map |
| vectors.dfy | `Vectors` | the byte runs of `test/test_packet.cpp` |

## Model

| member | source | states |
|---|---|---|
| Bytes.EncodeDecode | lib/vesccomm/buffer.h:82-90 | Reading back the bytes `append<T>` writes for any representable value of the six integer types returns that value. |
| Bytes.DecodeEncode | lib/vesccomm/buffer.h:41-47 | Every byte string of the type's width is the encoding of the value `get<T>` assembles from it, so the encoding is onto and decoding is injective. |
| Bytes.FixedRawValue | lib/vesccomm/buffer.h:112-120 | getfp's OR of `bytes` big-endian bytes into an int32 is the unsigned value below four bytes and the two's-complement int32 at four. |
| Bytes.SignedBEDecode | lib/vesccomm/buffer.h:82-90 | The sign-extended reading of a signed type's bytes equals what `get<T>` returns for it. |
| Bytes.SignedBEWidths | lib/vesccomm/buffer.h:82-90 | At one, two and four bytes the sign-extended reading equals `get<int8_t>`, `get<int16_t>` and `get<int32_t>` respectively. |
| ByteBuffer.AppendBytes | lib/vesccomm/buffer.h:75-79 | Appending raw bytes keeps head, grows len by their count and extends the window by exactly those bytes. |
| ByteBuffer.AppendBytesWritesAtEnd | lib/vesccomm/buffer.h:50-53 | The bytes land at index head + len, and every byte before and after them is unchanged. |
| ByteBuffer.AppendInt | lib/vesccomm/buffer.h:41-47 | `append<T>(v)` keeps head, grows len by sizeof(T) and extends the window by the big-endian encoding of v. |
| ByteBuffer.AppendIntWritesAtEnd | lib/vesccomm/buffer.h:41-47 | The sizeof(T) bytes are written at index head + len, most significant first, and nothing else in the array changes. |
| ByteBuffer.GetInt | lib/vesccomm/buffer.h:82-90 | `get<T>` moves head forward and len back by sizeof(T) and returns the value the consumed bytes encode. |
| ByteBuffer.GetIntConsumes | lib/vesccomm/buffer.h:82-90 | The window before a read is the encoding of the value read followed by the window after it. |
| ByteBuffer.GetIntOfEncoding | lib/vesccomm/buffer.h:82-90 | On a window that starts with the encoding of v, `get<T>` returns v and leaves exactly the bytes after it. |
| ByteBuffer.GetFixed | lib/vesccomm/buffer.h:112-120 | getfp's integer part consumes `bytes` bytes and is their unsigned value below four bytes and their int32 value at four, with no sign extension. |
| ByteBuffer.GetString | lib/vesccomm/buffer.h:122-136 | Corrected get_string: the string is found exactly when a zero lies in the window. It is the zero-free run before the first zero, and the cursor moves past that zero. With no zero, the placeholder carries the head offset and the cursor does not move. |
| ByteBuffer.GetStringAsWritten | lib/vesccomm/buffer.h:122-136 | get_string as written: a string is found exactly when a zero lies anywhere from head to the end of the array, not just in the window. The string is the zero-free run before the first such zero, and the cursor moves past it. len drops by the distance moved, as a wrapping size_t. With no zero, the placeholder carries the head offset and the cursor does not move. |
| ByteBuffer.GetStringAgrees | lib/vesccomm/buffer.h:122-136 | When the window holds a zero, the source's get_string and the corrected one return the same string and leave the same buffer. |
| ByteBuffer.GetStringPastEnd | lib/vesccomm/buffer.h:124-133 | For a one-byte window whose zero lies just past its end, the source's search returns the string and wraps len to 2^32 - 1. The corrected search returns the placeholder. |
| ByteBuffer.Reset | lib/vesccomm/buffer.h:142-145 | `reset()` empties the window and changes no data byte. |
| ByteBuffer.ResetThenAppend | lib/vesccomm/buffer.h:142-172 | After reset, appended bytes are written from index 0 of the array, the address `operator uint8_t*` hands out, and they make up the whole window. |
| ByteBuffer.Reload | lib/vesccomm/buffer.h:148-155 | `reload()` sets head to 0 and len to the old head + len, which is the capacity when head was at the array's end. No data byte changes. |
| ByteBuffer.ReloadWindow | lib/vesccomm/buffer.h:148-155 | After reload the window is every consumed byte followed by the old window. |
| ByteBuffer.AdvanceWindow | lib/vesccomm/buffer.h:158-161 | advance(n) drops exactly the first n bytes of the window. |
| ByteBuffer.Truncate | lib/vesccomm/buffer.h:164 | `truncate(n)` leaves a prefix of the window: it is n bytes shorter, or empty when at most n bytes were held. The cursor does not move. |
| ByteBuffer.AppendAll | lib/vesccomm/buffer.h:41-47 | A sequence of appends extends the window by the concatenated encodings, in order. |
| ByteBuffer.ReadAllEncoding | lib/vesccomm/buffer.h:82-90 | Reads of the types of a sequence of encoded values, in order, return those values and leave what follows. |
| ByteBuffer.AppendsReadBackInOrder | test/test_packet.cpp:91-127 | Appends read back in the same order return the appended values (FIFO), and the buffer ends empty. |
| ByteBuffer.AppendThenGet | test/test_packet.cpp:25-77 | A single append then get of the same type returns the value and leaves the buffer empty. |
| Packet.Header | lib/vesccomm/packet.h:31-39 | The header is as long as the start marker says: 2 with a one-byte length, 3 with a two-byte length. |
| Packet.AppendHeader | lib/vesccomm/packet.h:33-39 | construct's first step appends the marker and the length field. |
| Packet.AppendTrailer | lib/vesccomm/packet.h:43-46 | construct's last steps append the big-endian checksum and the end byte 0x03. |
| Packet.ConstructWith | lib/vesccomm/packet.h:28-47 | construct appends exactly the frame of the payload's window: header, payload, checksum, end byte. Its length is n + 5 or n + 6. |
| Packet.ConstructAsWritten | lib/vesccomm/packet.h:28-47 | construct as written appends header, payload, checksum and end byte, with the long marker and a two-byte length only for payloads above 256 bytes. |
| Packet.Construct | lib/vesccomm/packet.h:28-47 | Corrected construct appends the same frame, with the long marker above 255 bytes, so that every length fits its length field. |
| Packet.FramingsAgree | lib/vesccomm/packet.h:33 | The source's framing and the corrected one produce the same bytes at every payload length except 256. |
| Packet.Validate | lib/vesccomm/packet.h:59-92 | Corrected validate: BAD_START iff a byte is held and it is not a marker, and then exactly that byte is consumed. INCOMPLETE always leaves the cursor reloaded to index 0, and an empty buffer is INCOMPLETE with the buffer reloaded. The full classification is Packet.ValidateClassifies. |
| Packet.CheckLength | lib/vesccomm/packet.h:62-91 | After a marker the result is never BAD_START. Fewer bytes than the length field needs give INCOMPLETE with the buffer reloaded, and every INCOMPLETE leaves the cursor at index 0. |
| Packet.CheckCrc | lib/vesccomm/packet.h:71-86 | On a held frame, INVALID_CRC iff the CRC field differs from the checksum of physical indices `[start, start + mlen)`. BAD_END iff it matches and the next byte is not 0x03. VALID otherwise. The cursor ends where each path leaves it. |
| Packet.CheckEnd | lib/vesccomm/packet.h:75-83 | VALID iff the byte after the CRC is 0x03, after which the window starts after the header and stops three bytes short of the end. Otherwise BAD_END with one more byte consumed. |
| Packet.ValidateUnheld | lib/vesccomm/packet.h:59-91 | When the frame is not held whole: BAD_START with one byte consumed if the first byte is not a marker. Otherwise INCOMPLETE with the cursor reloaded. |
| Packet.ValidateClassifies | lib/vesccomm/packet.h:59-92 | The five results partition all byte runs, each characterised iff by the marker, whether the declared frame is held, the CRC comparison and the end byte. |
| Packet.ValidateMatchesIndex | lib/vesccomm/packet.h:59-92 | validate equals an independent by-index reading of the buffer (marker, declared length, CRC field, end byte), result and cursor alike. |
| Packet.ValidateHeldOutcome | lib/vesccomm/packet.h:71-86 | On a held frame the result and the cursor each path leaves, in terms of the bytes at fixed offsets. |
| Packet.ValidWindowIsPayload | lib/vesccomm/packet.h:76-80 | On VALID with no trailing bytes the window is exactly the declared payload. |
| Packet.ValidateFramed | lib/vesccomm/packet.h:59-92 | For a frame at index 0 with any CRC field and end byte: INVALID_CRC iff the field is not the payload's checksum, BAD_END iff it is and the end byte is not 0x03, VALID otherwise, with the window after the header. |
| Packet.ValidateFrame | lib/vesccomm/packet.h:59-92 | An intact frame at index 0 validates and leaves exactly its payload in the window. |
| Packet.RoundTrip | lib/vesccomm/packet.h:28-92 | Every payload of up to 512 bytes, framed by the corrected construct into an empty buffer, validates and leaves the payload. |
| Packet.RoundTripAsWritten | lib/vesccomm/packet.h:28-92 | The source's construct round-trips at every length up to 512 except 256. |
| Packet.Boundary256 | lib/vesccomm/packet.h:33-38 | At 256 bytes the source writes the short marker with length byte 0. validate reads an empty payload and judges the CRC and end byte from payload bytes, never INCOMPLETE or BAD_START. |
| Packet.Boundary256Zeros | lib/vesccomm/packet.h:33-38 | 256 zero bytes framed by the source never validate, whatever the checksum function. |
| Packet.Boundary256Corrected | lib/vesccomm/packet.h:33-38 | With the corrected threshold a 256-byte payload gets the long header 03 01 00. |
| Packet.PrefixIncomplete | lib/vesccomm/packet.h:89-91 | A proper prefix of a frame at index 0 is INCOMPLETE and the buffer is left exactly as it was. |
| Packet.SplitDelivery | lib/vesccomm/packet.h:89-91 | A frame delivered in two parts is INCOMPLETE after the first. Appending the rest then validates to the payload. |
| Packet.ValidateAsWritten | lib/vesccomm/packet.h:59-92 | validate as written: the marker and length are read unguarded and every len update wraps as a size_t. None when a read leaves the array. |
| Packet.ValidateAgrees | lib/vesccomm/packet.h:59-92 | When the buffer holds the marker and length field, the source's validate and the corrected one agree on result and cursor. |
| Packet.ValidateShortHeader | lib/vesccomm/packet.h:60-65 | A buffer holding only the 0x02 marker: the corrected validate waits (INCOMPLETE, buffer unchanged). The source reads a stale length, wraps len, and rejects the run as INVALID_CRC or BAD_END with a cursor past the array. |
| Telemetry.Value | lib/vesccomm/vesc.h:281-296 | Corrected reading: a fixed-point field keeps its scale, is negative iff its first byte's top bit is set, and at one, two and four bytes equals `get<int8_t>`, `get<int16_t>` and `get<int32_t>` of its bytes. A counter is an int32 and a code is a byte. |
| Telemetry.ValueAsWritten | lib/vesccomm/buffer.h:112-120 | getfp's reading: below four bytes a fixed-point field is the unsigned value of its bytes, never negative. At four bytes it is `get<int32_t>` of them. The scale is the field's. |
| Telemetry.ValueAsWrittenDiffers | lib/vesccomm/buffer.h:112-120 | getfp's number and the sign-extended one differ exactly on fixed-point fields narrower than four bytes whose top bit is set. |
| Telemetry.NegativeDutyAsWritten | lib/vesccomm/vesc.h:287 | duty_now sent as int16 -2 (FF FE) comes out of getfp as 65534 / 1000. The corrected reading is -2 / 1000. |
| Telemetry.FixedRoundTrip | lib/vesccomm/vesc.h:281-293 | Every value the controller appends as the field's signed integer of the field's width reads back, in the corrected reading, as that value over the field's scale. |
| Telemetry.ReadField | lib/vesccomm/vesc.h:281-296 | A field read takes exactly the layout's width, tags the bytes with the layout and moves the cursor past them. The reading is valid for widths 1 to 4. Which bytes it takes is Telemetry.ReadAt. |
| Telemetry.ReadAt | lib/vesccomm/vesc.h:281-296 | A field read k bytes into the window holds window bytes k to k + width. |
| Telemetry.ReadByCall | lib/vesccomm/vesc.h:281-296 | Each buffer call consumes exactly the field's width. getfp yields a scaled number with the field's scale, and `get<int32_t>` and `get<uint8_t>` yield whole numbers. |
| Telemetry.ReadByCallIsReadField | lib/vesccomm/vesc.h:281-296 | The buffer call each field uses (getfp, `get<int32_t>`, `get<uint8_t>`) yields the source's number for the field's bytes and consumes exactly its width. |
| Telemetry.FixedFieldsInOrder | lib/vesccomm/vesc.h:34-49 | The fixed part is exactly the sixteen fields of bits 0..15, in bit order. |
| Telemetry.DecodeFixed | lib/vesccomm/vesc.h:281-296 | The unguarded reads succeed iff the window holds the widths of all selected fields. They consume exactly that many bytes. |
| Telemetry.FixedKeys | lib/vesccomm/vesc.h:281-296 | Decoding adds exactly the selected fields and keeps every other entry. |
| Telemetry.FixedValue | lib/vesccomm/vesc.h:281-296 | Each selected field holds the bytes after those of every selected field before it. |
| Telemetry.DecodeFixedAgrees | lib/vesccomm/vesc.h:281-296 | The sequential decoder equals the by-offset reference record, and it fails iff the window is shorter than the sum of selected widths. |
| Telemetry.TailPosition | lib/vesccomm/vesc.h:298-302 | Position is -1 with fewer than four bytes left. It is the next four bytes when selected, and unset when not. |
| Telemetry.TailId | lib/vesccomm/vesc.h:304-308 | vesc_id is 255 with no byte left. It is the next byte when selected, and unset when not. |
| Telemetry.TailMosx | lib/vesccomm/vesc.h:310-316 | The three extra MOSFET temperatures take six bytes only when selected with six bytes left; otherwise nothing changes. |
| Telemetry.TailVdVq | lib/vesccomm/vesc.h:318-321 | One check for eight bytes, made once, guards both VD and VQ. Each takes four bytes when selected. |
| Telemetry.DecodeTail | lib/vesccomm/vesc.h:298-321 | The tail only consumes, within the window. What each tail field holds is stated by Telemetry.PositionRule, Telemetry.IdRule, Telemetry.MosxRule, Telemetry.VdRule and Telemetry.VqRule, and Telemetry.TailKeeps states that the fixed fields are untouched. |
| Telemetry.PositionRule | lib/vesccomm/vesc.h:298-302 | Position is the sentinel -1 with fewer than four bytes, the next four bytes when selected, and unset otherwise. |
| Telemetry.IdRule | lib/vesccomm/vesc.h:304-308 | vesc_id is 255 when no byte follows the position, the byte there when selected, and unset otherwise. |
| Telemetry.MosxRule | lib/vesccomm/vesc.h:310-316 | When read, the three extra temperatures are the three two-byte fields after position and id. |
| Telemetry.VdRule | lib/vesccomm/vesc.h:318-319 | When read, VD is the four bytes at the single eight-byte check. |
| Telemetry.VqRule | lib/vesccomm/vesc.h:318-320 | When read, VQ is the four bytes after VD's, or at VD's place when VD was not read. |
| Telemetry.TailKeeps | lib/vesccomm/vesc.h:298-321 | The tail leaves the sixteen fixed fields exactly as the fixed part set them. |
| Telemetry.DecodeValues | lib/vesccomm/vesc.h:273-321 | The decoder fails iff the fixed fields overrun the window. Otherwise it decodes within the window. |
| Telemetry.ValuesFixed | lib/vesccomm/vesc.h:281-296 | In the decoded record a fixed field is present iff its bit is set, and holds the bytes at its offset. |
| Telemetry.ValuesPosition | lib/vesccomm/vesc.h:298-302 | Whatever the mask, position is the sentinel -1 when fewer than four bytes follow the fixed part. It is the next four bytes when selected, and unset otherwise. |
| Telemetry.ValuesId | lib/vesccomm/vesc.h:304-308 | Whatever the mask, vesc_id is the sentinel 255 when no byte follows the position. It is the byte there when selected, and unset otherwise. |
| Telemetry.ValuesMosxPresent | lib/vesccomm/vesc.h:310-316 | The three extra temperatures are present together iff selected with six bytes left after position and id. |
| Telemetry.ValuesMosx | lib/vesccomm/vesc.h:310-316 | When present they are the three consecutive two-byte fields at that point. |
| Telemetry.ValuesVdVqPresent | lib/vesccomm/vesc.h:318-321 | VD and VQ are each present iff selected and eight bytes remained at the single check. |
| Telemetry.ValuesVd | lib/vesccomm/vesc.h:319 | VD holds the four bytes at the check's position. |
| Telemetry.ValuesVq | lib/vesccomm/vesc.h:320 | VQ holds the four bytes after VD's, or at VD's place when VD is not selected. |
| Firmware.ReadChars | lib/vesccomm/vesc.h:258-261 | The twelve `get<int8_t>` pushes give exactly the first twelve window bytes and advance past them. |
| Firmware.HwStage | lib/vesccomm/vesc.h:251-255 | major, minor and hw are read only when len > 2; otherwise nothing is read or changed. |
| Firmware.UuidStage | lib/vesccomm/vesc.h:257-262 | The uuid is replaced by the next twelve bytes only when len > 12; otherwise nothing changes. |
| Firmware.ReadFlag | lib/vesccomm/vesc.h:264-267 | One flag is the first window byte, and is consumed, only when more than one byte is held. Otherwise the old value stays and nothing is consumed. |
| Firmware.FlagsStage | lib/vesccomm/vesc.h:264-267 | Each of the four flags is the k-th byte only when more than k + 1 bytes are held, so a final lone byte is never read. Other fields are untouched. |
| Firmware.HandleFw | lib/vesccomm/vesc.h:249-268 | handleFw never fails and only consumes. It never consumes the last byte of a non-empty reply unless the major/minor/hw stage ran. |
| Firmware.FwRoundTrip | lib/vesccomm/vesc.h:249-268 | A reply laid out as major, minor, zero-terminated hw, 12-byte uuid and four flags, followed by at least one more byte, decodes to exactly that description. |
| Firmware.FwLastFlagUnread | lib/vesccomm/vesc.h:264-267 | With nothing after the reply, customConfigNum keeps its old value and its byte stays in the buffer. |
| Firmware.HwStageUnterminated | lib/vesccomm/vesc.h:251-255 | On a reply `05 02 41` whose zero lies just past the held bytes, the corrected stage records the placeholder where the source's get_string would return "A". |
| Firmware.FwShortResponse | lib/vesccomm/vesc.h:249-268 | A reply of two bytes or fewer changes at most isPaired and never fails. |
| Commands.Payload | lib/vesccomm/vesc.h:152-166 | The payload fits the 7-byte buffer and starts with COMM_FORWARD_CAN exactly when id > 0, else with the opcode. |
| Commands.PayloadBody | lib/vesccomm/vesc.h:173-191 | The payload is `[COMM_FORWARD_CAN, id mod 256]` only when id > 0, then the opcode, then the big-endian int32 for a set command. |
| Commands.PayloadRoundTrip | lib/vesccomm/vesc.h:152-234 | Reading a payload back as the firmware does (optional forward header, opcode, argument) recovers the command and its target. |
| Commands.CommandPacket | lib/vesccomm/vesc.h:160 | The packet handed to the sink is construct's frame of the payload, from index 0. At seven payload bytes or fewer the source's framing and the corrected one give the same bytes. |
| Commands.Send | lib/vesccomm/vesc.h:173-191 | Without a sink nothing is sent and the result is false. With one, exactly one frame is sent with the response flag set only for getValues, and the result is true. |
| Commands.GetValuesCmd | lib/vesccomm/vesc.h:152-166 | getValues sends one frame that expects a reply iff a sink is set. |
| Commands.GetSecondValues | lib/vesccomm/vesc.h:168-170 | getSecondValues sends one reply-expecting frame iff a sink is set. |
| Commands.SendPair | lib/vesccomm/vesc.h:192 | The pairwise setters send the first command locally, then the second to the second controller. They send nothing and return false without a sink. |
| Commands.SentRoundTrip | lib/vesccomm/vesc.h:152-234 | Every frame an encoder sends, received at index 0, validates and reads back as the command and its target. |
| Commands.GetValuesIgnoresMask | lib/vesccomm/vesc.h:152-166 | getValues sends the same bytes whatever its mask argument. |
| Commands.OnlyGetValuesExpectsReply | lib/vesccomm/vesc.h:161 | The sink's response flag is set iff the command is getValues. |
| Commands.SendPairFirst | lib/vesccomm/vesc.h:214 | The first frame of a pair carries the first command with no forward header. |
| Commands.SendPairSecond | lib/vesccomm/vesc.h:236 | The second frame carries the second command forwarded to the second controller's id, or unforwarded when that id is 0. |
| Controller.SetCallback | lib/vesccomm/vesc.h:142-145 | setCallback returns true and overwrites the entry for its opcode only. |
| Controller.ClearCallback | lib/vesccomm/vesc.h:147 | clearCallback removes the entry for its opcode only. |
| Controller.SetTx | lib/vesccomm/vesc.h:149 | setTX changes only whether a sink is set. |
| Controller.Route | lib/vesccomm/vesc.h:325-334 | A record whose id is the second controller's replaces the second slot. Otherwise one whose id is 28 replaces the primary slot. Anything else changes neither. |
| Controller.RouteOneSlot | lib/vesccomm/vesc.h:325-334 | Routing never changes both slots. |
| Controller.HandleValues | lib/vesccomm/vesc.h:273-335 | handleGetValuesSelective overruns iff the fixed fields do not fit. Otherwise it routes the decoded record. |
| Controller.HandleSelective | lib/vesccomm/vesc.h:114 | The selective reply's mask is one byte read after the opcode, and decoding uses that byte as the mask. |
| Controller.ParseCommand | lib/vesccomm/vesc.h:94-129 | parse_command returns validate's result. Unless VALID it changes nothing and calls nothing. It never changes the callbacks, sink or second id, and invokes at most one callback. |
| Controller.ParseValid | lib/vesccomm/vesc.h:107-126 | On VALID the first payload byte selects the built-in handling of the rest. Unless the built-in handling overran, the callback registered for it is invoked exactly once with the payload packet, and none when none is registered. |
| Controller.Dispatch | lib/vesccomm/vesc.h:110-116 | Only the two telemetry opcodes can overrun. The firmware reply changes only the firmware description, and the telemetry replies leave it alone. Any other opcode leaves the controller and the payload untouched. No opcode changes the callbacks, sink or second id. |
| Controller.PayloadPacket | lib/vesccomm/vesc.h:98 | The copy handed to the handlers holds exactly the validated window, from index 0 of an array exactly as long. |
| Controller.DispatchFw | lib/vesccomm/vesc.h:112 | COMM_FW_VERSION updates the firmware description by handleFw and nothing else. |
| Controller.DispatchValues | lib/vesccomm/vesc.h:113 | COMM_GET_VALUES decodes with mask 0xFFFFFFFF, whose fixed fields take 53 bytes. The record is routed and the firmware description is untouched. |
| Controller.AllFieldsWidth | lib/vesccomm/vesc.h:281-296 | The sixteen fixed widths 2,2,4,4,4,4,2,4,2,4,4,4,4,4,4,1 add up to 53. |
| Controller.DispatchOther | lib/vesccomm/vesc.h:115 | Any other opcode has no built-in handling. |
| Controller.ByteMaskSelects | lib/vesccomm/vesc.h:114 | A one-byte mask can select none of the fields of bits 8 and above. |
| Controller.SelectiveLeavesHighFields | lib/vesccomm/vesc.h:289-296 | A selective reply never fills the fixed fields of bits 8..15. |
| Controller.DecodedId | lib/vesccomm/vesc.h:304-305 | When the id byte is read, the record's id is that byte. |
| Controller.RouteDecoded | lib/vesccomm/vesc.h:325-334 | A reply whose id byte was read goes to the second slot for the second controller's id, else to the primary slot for 28, else nowhere. |
| Controller.RouteUndecoded | lib/vesccomm/vesc.h:304-308 | A reply with no byte for the id (sentinel 255) goes nowhere unless 255 is the second id. One with the id unselected goes nowhere. |
| Controller.RegisteredCallbackRuns | lib/vesccomm/vesc.h:118-126 | After setCallback the handler runs exactly once on the next valid packet with its opcode that does not overrun. After clearCallback it does not run. |
| Vectors.SimplePacket | test/test_packet.cpp:233-241 | A one-byte zero payload with checksum 0 frames as 02 01 00 00 00 03, under the source's threshold as well as the corrected one. |
| Vectors.FrameLengths | test/test_packet.cpp:198-220 | Payloads of 6, 1 and 512 bytes frame to 11, 6 and 518 bytes, under the source's threshold as well as the corrected one. |
| Vectors.BadStartVector | test/test_packet.cpp:243-248 | 04 01 00 00 00 03 is BAD_START. |
| Vectors.BadEndVector | test/test_packet.cpp:250-255 | 02 01 00 00 00 FF, with checksum 0 for [0], is BAD_END. |
| Vectors.FwPacketValid | test/test_packet.cpp:265-276 | The 30-byte firmware frame with CRC 0x5b23 validates and leaves its 25-byte payload. |
| Vectors.FwPacketBadCrc | test/test_packet.cpp:257-263 | The same frame with CRC field 0x5b24 is INVALID_CRC. |
| Vectors.FwPayloadDecodes | test/test_packet.cpp:265-276 | The reply after its opcode reads as firmware 5.2 on "UNITY" with the test uuid. Its last flag byte stays unread. |
| Vectors.FwPacketParsed | lib/vesccomm/vesc.h:94-129 | parse_command on the firmware frame returns VALID and stores firmware 5.2 "UNITY". It invokes no callback when none is registered. |
| Vectors.ReloadVector | test/test_packet.cpp:176-196 | Two u32 reads then reload bring back the whole buffer. |
| Vectors.AdvanceVector | test/test_packet.cpp:176-196 | After advance(2) on the test frame the next byte read is 0x00. |
| Vectors.ByteOrder | test/test_packet.cpp:222-231 | `append<uint32_t>(0x11223344)` writes 11 22 33 44. |

## Left out

- Floating point. `append(float)`, `getf` and getfp's final division by `scale` are left out, because they rely on `frexpf`/`ldexpf` and float division. A fixed-point reading keeps its raw integer and its scale constant (`Scaled(raw, scale)`).
- Commands.Payload: takes the int32 argument that `setCurrent`, `setRPM` and `setDuty` compute from a float times the scale (1000 for current, 1 for rpm and duty). The float-to-int conversion is left out.
- `crc16`: it is defined in `crc.h`, which is not part of this model. It is a function parameter. The test vectors state the checksums they rely on as hypotheses: 0 for `[0x00]` and 0x5b23 for the firmware payload.
- Opcode values. `COMM_*` come from `datatypes.h`, which is not part of this model. They are named constants with the VESC firmware's numbering; the repository itself shows only COMM_FW_VERSION = 0.
- `parse_command`'s cleanup of the received packet. `p.valid_len()` and `p.clean()` do not exist in `packet.h`. The model dispatches on a copy of the validated window (`PayloadPacket`) and leaves the received buffer as validate leaves it.
- Reads past the payload in the controller's decoders. The opcode byte, the selective mask byte and the unguarded fixed telemetry fields may read past the payload. These are reported as an overrun: no state change and no callback. The source would decode stale bytes and then run the callback.
- Uninitialised telemetry fields: `vals` is uninitialised, so a field the decoder does not write is absent from the record. When the id is unselected but bytes remain, the source compares an indeterminate byte with the slot ids. The model routes such a record to neither slot.
- The callback and sink objects. A `std::function` is a `Handler` identifier, and the transmit sink is a log of (bytes, response flag) transmissions. The invocation is recorded, not executed.
- Getters (`getHW`, `getUUID`, `isPaired`, `isTestFW`, `type`, `getVoltage`, `values`, `values2`) and the empty `scanCAN` and `shift`. These only read fields or do nothing.
- Firmware.HandleFw: hw holds the bytes of the string, and get_string's placeholder text `"(Unknown)" + offset` is the value `Unknown(offset)`. The `sprintf` formatting is left out.
- `Serial` logging, the radio (BLE), display, joystick and application tasks (`src/`, `include/`), which are hardware and UI code outside the protocol library.
- The buffer is a value, not an object. In C++ a copy of `buffer<N>` copies the `_head` iterator, which still points into the original's array. The core never reads through such a copy: `construct` and `copy` take their argument by value but only read it through `begin()` and `end()` while the original is alive, and `parse_command` builds its packet from a pointer and a length. So a value model matches the core's paths. Test code that leaves a copied `_head` dangling (`test/test_packet.cpp:245-267`) is not modelled.
- Controller.PayloadPacket: the source's copy `vp` is a `buffer<PACKET_MAX_LEN>` of 520 bytes whose bytes past the payload are indeterminate. The model's copy is an array exactly as long as the payload, so a read past the payload is reported as an overrun instead of returning those indeterminate bytes.
- Firmware.HwStage: uses the corrected get_string. On the reply `05 02 41` held in an array `05 02 41 00`, it records `Unknown(2)`, where the source's get_string returns "A" and wraps len (Firmware.HwStageUnterminated).
- Firmware.HandleFw: composes Firmware.HwStage, so on the same input it also differs from the source in hw and in the cursor the source leaves.
- Controller.ParseCommand: composes the corrected Packet.Validate. On a buffer holding only the `0x02` marker it returns INCOMPLETE, where the source returns INVALID_CRC or BAD_END (Packet.ValidateShortHeader). A firmware reply with an unterminated hw string differs as in Firmware.HwStage.

## Findings

| source | as written | input that shows it | evidently intended | confidence | as-written member | corrected member |
|---|---|---|---|---|---|---|
| lib/vesccomm/packet.h:60-71 | validate reads the marker and the length field without checking that len covers them. `_len` is a size_t and wraps below zero, so the `len >= mlen + 3` check passes. | A buffer holding only `0x02` (len 1, stale zeros after it) | INCOMPLETE with the buffer unchanged, as for any other partial frame | medium, not executed | Packet.ValidateAsWritten (shown by Packet.ValidateShortHeader) | Packet.Validate (Packet.ValidateClassifies, Packet.ValidateAgrees) |
| lib/vesccomm/buffer.h:124-133 | get_string searches for the zero up to the end of the array, not the end of the window, and `_len` wraps when the zero lies beyond it | Window `[0x41]` in a 2-byte array `[0x41, 0x00]` | The "(Unknown)" result when no zero lies within the window | medium, not executed | ByteBuffer.GetStringAsWritten (shown by ByteBuffer.GetStringPastEnd) | ByteBuffer.GetString (ByteBuffer.GetStringAgrees, Firmware.GetStringOfTerminated) |
| lib/vesccomm/packet.h:33-38 | `mlen > 256` picks the long marker, so a 256-byte payload gets the short marker and `append<uint8_t>(256)` writes length 0 | A payload of 256 zero bytes | A long header `03 01 00`, so the frame round-trips | high, not executed | Packet.ConstructAsWritten (shown by Packet.Boundary256, Packet.Boundary256Zeros) | Packet.Construct (Packet.RoundTrip, Packet.Boundary256Corrected) |
| lib/vesccomm/buffer.h:112-120 | getfp ORs fewer than four bytes into an int32 without sign extension, so negative int16 fields read as large positives | duty_now bytes `FF FE` (-2) read as 65534 | The value sign-extended from the field's width | medium, not executed | Telemetry.ValueAsWritten (shown by Telemetry.NegativeDutyAsWritten, Telemetry.ValueAsWrittenDiffers) | Telemetry.Value (Telemetry.FixedRoundTrip) |
