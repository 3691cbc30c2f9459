/**
 * Concrete byte runs from the library's own unit tests, stated as facts of
 * the model. The checksum is an uninterpreted function here, so the CRC
 * values the tests rely on are hypotheses of the lemmas that need them.
 */
module Vectors {
  import opened Wrappers
  import opened Bytes
  import opened ByteBuffer
  import opened Packet
  import opened Firmware
  import opened Commands
  import opened Controller

  /** An empty packet buffer of the library's capacity. */
  const EMPTY_PACKET: Buffer := Buffer(seq(PACKET_MAX_LEN, _ => 0), 0, 0)

  /** The payload of the firmware reply in the tests: COMM_FW_VERSION,
      firmware 5.2, hardware "UNITY", a 12-byte uuid and four zero flags. */
  const FW_PAYLOAD: seq<byte> :=
    [0x00, 0x05, 0x02, 0x55, 0x4e, 0x49, 0x54, 0x59, 0x00,
     0x23, 0x00, 0x1d, 0x00, 0x17, 0x47, 0x39, 0x34, 0x35, 0x38, 0x34, 0x38,
     0x00, 0x00, 0x00, 0x00]

  /** The frame the tests receive around it, carrying CRC 0x5b23. */
  const FW_FRAME: seq<byte> := [0x02, 0x19] + FW_PAYLOAD + [0x5b, 0x23, 0x03]

  /** The same frame with its CRC field damaged to 0x5b24. */
  const FW_FRAME_BAD_CRC: seq<byte> := [0x02, 0x19] + FW_PAYLOAD + [0x5b, 0x24, 0x03]

  /** "UNITY" as bytes. */
  const UNITY: seq<byte> := [0x55, 0x4e, 0x49, 0x54, 0x59]

  /** What the firmware reply describes. */
  const FW_UNITY: FwParams := FwParams(
    5, 2, Chars(UNITY),
    [0x23, 0x00, 0x1d, 0x00, 0x17, 0x47, 0x39, 0x34, 0x35, 0x38, 0x34, 0x38],
    0, 0, 0, 0)

  // ---------------------------------------------------------------------
  // Framing

  /** A one-byte zero payload frames as 02 01 00 00 00 03 when its checksum
      is zero, under both thresholds. */
  lemma SimplePacket(b: Buffer, payload: Buffer, crc: Crc16)
    requires b.WellFormed() && b.len == 0 && b.head + 6 <= |b.data|
    requires payload.WellFormed() && payload.Window() == [0] && crc([0]) == 0
    ensures Construct(b, payload, crc).Window() == [0x02, 0x01, 0x00, 0x00, 0x00, 0x03]
    ensures ConstructAsWritten(b, payload, crc).Window() == [0x02, 0x01, 0x00, 0x00, 0x00, 0x03]
  {
    FrameOfZero(crc);
    FramingsAgree([0], crc);
    assert b.Window() == [];
  }

  /** The frame of the one-byte zero payload under a zero checksum. */
  lemma FrameOfZero(crc: Crc16)
    requires crc([0]) == 0
    ensures Frame([0], crc, LONG_ABOVE) == [0x02, 0x01, 0x00, 0x00, 0x00, 0x03]
  {
    assert Header(1, LONG_ABOVE) == [0x02, 0x01];
    assert Encode(U16, 0) == [0x00, 0x00];
  }

  /** Frame lengths: six payload bytes take eleven, one takes six and the
      largest payload takes PACKET_MAX_PL_LEN + 6, under both thresholds. */
  lemma FrameLengths(payload: Buffer, crc: Crc16)
    requires payload.WellFormed() && payload.len <= PACKET_MAX_PL_LEN
    ensures payload.len == 6 ==> Construct(EMPTY_PACKET, payload, crc).len == 11
    ensures payload.len == 1 ==> Construct(EMPTY_PACKET, payload, crc).len == 6
    ensures payload.len == PACKET_MAX_PL_LEN ==>
      Construct(EMPTY_PACKET, payload, crc).len == PACKET_MAX_PL_LEN + 6
    ensures payload.len == 6 ==> ConstructAsWritten(EMPTY_PACKET, payload, crc).len == 11
    ensures payload.len == 1 ==> ConstructAsWritten(EMPTY_PACKET, payload, crc).len == 6
    ensures payload.len == PACKET_MAX_PL_LEN ==>
      ConstructAsWritten(EMPTY_PACKET, payload, crc).len == PACKET_MAX_PL_LEN + 6
  {
  }

  /** A first byte that is no start marker is BAD_START. */
  lemma BadStartVector(crc: Crc16)
    ensures Validate(Buffer([0x04, 0x01, 0x00, 0x00, 0x00, 0x03], 0, 6), crc).result == BadStart
  {
    DecodeU8([0x04]);
  }

  /** An intact checksum followed by 0xFF instead of the end marker is BAD_END. */
  lemma BadEndVector(crc: Crc16)
    requires crc([0]) == 0
    ensures Validate(Buffer([0x02, 0x01, 0x00, 0x00, 0x00, 0xFF], 0, 6), crc).result == BadEnd
  {
    var b := Buffer([0x02, 0x01, 0x00, 0x00, 0x00, 0xFF], 0, 6);
    assert Header(1, LONG_ABOVE) == [0x02, 0x01];
    assert Encode(U16, 0) == [0x00, 0x00];
    assert b.data[..6] == Framed([0], 0, 0xFF, LONG_ABOVE);
    ValidateFramed(b, [0], 0, 0xFF, LONG_ABOVE, crc);
  }

  /** The firmware frame is the frame of its payload under CRC 0x5b23, and
      the damaged one the same frame with a different CRC field. */
  lemma FwFrameLayout(crc: Crc16)
    requires crc(FW_PAYLOAD) == 0x5b23
    ensures FW_FRAME == Frame(FW_PAYLOAD, crc, LONG_ABOVE)
    ensures FW_FRAME_BAD_CRC == Framed(FW_PAYLOAD, 0x5b24, END_BYTE, LONG_ABOVE)
  {
    assert |FW_PAYLOAD| == 25;
    assert Header(25, LONG_ABOVE) == [0x02, 0x19];
    assert Encode(U16, 0x5b23) == [0x5b, 0x23];
    assert Encode(U16, 0x5b24) == [0x5b, 0x24];
  }

  /** The firmware frame validates and leaves its payload in the window. */
  lemma FwPacketValid(crc: Crc16)
    requires crc(FW_PAYLOAD) == 0x5b23
    ensures var v := Validate(Buffer(FW_FRAME, 0, |FW_FRAME|), crc);
      v.result == Valid && v.rest.Window() == FW_PAYLOAD
  {
    FwFrameLayout(crc);
    ValidateFrame(Buffer(FW_FRAME, 0, |FW_FRAME|), FW_PAYLOAD, LONG_ABOVE, crc);
  }

  /** With its CRC field changed by one it is INVALID_CRC. */
  lemma FwPacketBadCrc(crc: Crc16)
    requires crc(FW_PAYLOAD) == 0x5b23
    ensures Validate(Buffer(FW_FRAME_BAD_CRC, 0, |FW_FRAME_BAD_CRC|), crc).result == InvalidCrc
  {
    var b := Buffer(FW_FRAME_BAD_CRC, 0, |FW_FRAME_BAD_CRC|);
    FwFrameLayout(crc);
    assert b.data[..FrameSize(25, LONG_ABOVE)] == FW_FRAME_BAD_CRC;
    ValidateFramed(b, FW_PAYLOAD, 0x5b24, END_BYTE, LONG_ABOVE, crc);
  }

  // ---------------------------------------------------------------------
  // The firmware reply

  /** The reply after the opcode is the reply FW_UNITY describes. */
  lemma FwPayloadIsResponse()
    ensures Sendable(FW_UNITY) && FW_PAYLOAD[1..] == FwResponse(FW_UNITY)
  {
    assert 0 !in UNITY;
    assert FW_PAYLOAD[1..] == [5, 2] + UNITY + [0] + FW_UNITY.uuid + [0, 0, 0, 0];
  }

  /** After the opcode the reply reads as firmware 5.2 on "UNITY" with the
      test uuid; its last flag is the lone final byte and stays unread. */
  lemma FwPayloadDecodes(b: Buffer, out: FwParams)
    requires b.WellFormed() && b.Window() == FW_PAYLOAD[1..]
    ensures HandleFw(b, out).value == FW_UNITY.(customConfigNum := out.customConfigNum)
    ensures HandleFw(b, out).rest.Window() == [0x00]
  {
    FwPayloadIsResponse();
    FwLastFlagUnread(b, out, FW_UNITY);
  }

  /** parse_command on the firmware frame: VALID, and the controller now
      describes firmware 5.2 on "UNITY"; with no callback registered none runs. */
  lemma FwPacketParsed(c: Controller, p: Buffer, crc: Crc16)
    requires p == Buffer(FW_FRAME, 0, |FW_FRAME|) && crc(FW_PAYLOAD) == 0x5b23
    ensures var r := ParseCommand(c, p, crc);
      && r.result == Valid && !r.overrun
      && r.next.fw == FW_UNITY.(customConfigNum := c.fw.customConfigNum)
      && (COMM_FW_VERSION !in c.callbacks ==> r.calls == [])
  {
    FwPacketValid(crc);
    var w := Validate(p, crc).rest.Window();
    assert w[0] == COMM_FW_VERSION;
    ParseValid(c, p, crc);
    DispatchFw(c, AfterOpcode(w));
    FwPayloadDecodes(AfterOpcode(w), c.fw);
  }

  // ---------------------------------------------------------------------
  // The buffer

  /** Two u32 reads then reload() on a buffer filled from index 0 bring
      the whole buffer back. */
  lemma ReloadVector(b: Buffer)
    requires b.WellFormed() && b.head == 0 && b.len == |b.data| >= 8
    ensures Reload(GetInt(GetInt(b, U32).rest, U32).rest) == b
  {
    GetIntConsumes(b, U32);
    GetIntConsumes(GetInt(b, U32).rest, U32);
  }

  /** On the thirty-byte test frame, after advance(2) the next byte read is
      the payload's first, 0x00. */
  lemma AdvanceVector(b: Buffer)
    requires b == Buffer(FW_FRAME, 0, |FW_FRAME|)
    ensures GetInt(Advance(b, 2), U8).value == 0x00
  {
    var a := Advance(b, 2);
    assert FW_FRAME[2] == 0x00;
    assert a.data[a.head..a.head + 1] == [0x00];
    DecodeU8([0x00]);
  }

  /** append<uint32_t>(0x11223344) writes its bytes most significant first. */
  lemma ByteOrder()
    ensures AppendInt(Buffer(seq(4, _ => 0), 0, 0), U32, 0x11223344).Window() == [0x11, 0x22, 0x33, 0x44]
  {
    assert Encode(U32, 0x11223344) == [0x11, 0x22, 0x33, 0x44];
  }
}
