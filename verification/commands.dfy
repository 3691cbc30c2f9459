/**
 * The command encoders of vesc::controller: getValues, setCurrent, setRPM
 * and setDuty build a payload of at most seven bytes, optionally prefixed
 * by a CAN-forward header naming the target controller, frame it with
 * packet::construct and hand the frame to the transmit sink.
 */
module Commands {
  import opened Wrappers
  import opened Bytes
  import opened ByteBuffer
  import opened Packet

  // COMM_PACKET_ID values of the VESC firmware (datatypes.h is not part
  // of this model; only COMM_FW_VERSION = 0 is shown by the repository).
  const COMM_FW_VERSION: byte := 0
  const COMM_GET_VALUES: byte := 4
  const COMM_SET_DUTY: byte := 5
  const COMM_SET_CURRENT: byte := 6
  const COMM_SET_RPM: byte := 8
  const COMM_FORWARD_CAN: byte := 34
  const COMM_GET_VALUES_SELECTIVE: byte := 50

  /** The `_secondVescId` the controller's constructor sets. */
  const SECOND_VESC_ID: byte := 73
  /** The id the default target argument `id = -1` stands for: no forwarding. */
  const LOCAL: int := -1

  /** The `buffer<7u>` each encoder builds its payload in. */
  const PAYLOAD_CAPACITY: nat := 7

  /** A command as sent; the set commands carry the int32_t the source
      converts its scaled float argument to. */
  datatype Command = GetValues | SetCurrent(arg: int) | SetRpm(arg: int) | SetDuty(arg: int) {

    predicate Valid() {
      !GetValues? ==> I32.Holds(arg)
    }

    function Opcode(): byte {
      match this
      case GetValues => COMM_GET_VALUES
      case SetCurrent(_) => COMM_SET_CURRENT
      case SetRpm(_) => COMM_SET_RPM
      case SetDuty(_) => COMM_SET_DUTY
    }

    /** Whether the sink is told to expect a reply. */
    predicate Response() {
      GetValues?
    }
  }

  /** A command with the controller it is meant for: None for the one on
      the serial link, Some(id) for one reached over its CAN bus. */
  datatype Request = Request(cmd: Command, target: Option<byte>)

  /** The target the `id` argument selects: forwarding for a positive id,
      whose uint8_t conversion keeps it modulo 256. */
  function Target(id: int): Option<byte> {
    if id > 0 then Some(id % 256) else None
  }

  /** An id that already fits in a byte is forwarded to unchanged. */
  lemma TargetOfByte(id: byte)
    ensures Target(id) == if id > 0 then Some(id) else None
  {
  }

  /** The payload buffer as the encoder leaves it: `[COMM_FORWARD_CAN, id]`
      when id > 0, then the opcode, then for a set command its argument as a
      big-endian int32_t. */
  function Payload(cmd: Command, id: int): (r: Buffer)
    requires cmd.Valid()
    ensures r.WellFormed() && r.head == 0 && |r.data| == PAYLOAD_CAPACITY
    ensures 1 <= r.len <= PAYLOAD_CAPACITY
    ensures r.Window()[0] == if id > 0 then COMM_FORWARD_CAN else cmd.Opcode()
  {
    var empty := Buffer(seq(PAYLOAD_CAPACITY, _ => 0), 0, 0);
    var prefixed :=
      if id > 0 then AppendInt(AppendInt(empty, U8, COMM_FORWARD_CAN), U8, id % 256) else empty;
    var coded := AppendInt(prefixed, U8, cmd.Opcode());
    if cmd.GetValues? then coded else AppendInt(coded, I32, cmd.arg)
  }

  /** The forward header for a target: none for the local controller. */
  function ForwardHeader(target: Option<byte>): (h: seq<byte>) {
    match target
    case None => []
    case Some(t) => [COMM_FORWARD_CAN, t]
  }

  /** A payload read the way the receiving firmware reads it: an optional
      forward header, then the opcode and the argument its command takes. */
  function ParseRequest(s: seq<byte>): (r: Option<Request>)
    ensures r.Some? ==> r.value.cmd.Valid()
  {
    if |s| >= 2 && s[0] == COMM_FORWARD_CAN then ParseBody(s[2..], Some(s[1]))
    else ParseBody(s, None)
  }

  /** The opcode and its argument, for the given target. */
  function ParseBody(body: seq<byte>, target: Option<byte>): (r: Option<Request>)
    ensures r.Some? ==> r.value.cmd.Valid() && r.value.target == target
  {
    if |body| == 1 && body[0] == COMM_GET_VALUES then Some(Request(GetValues, target))
    else if |body| == 5 && body[0] in {COMM_SET_CURRENT, COMM_SET_RPM, COMM_SET_DUTY} then
      var arg := Decode(I32, body[1..]);
      var cmd := if body[0] == COMM_SET_CURRENT then SetCurrent(arg)
                 else if body[0] == COMM_SET_RPM then SetRpm(arg) else SetDuty(arg);
      Some(Request(cmd, target))
    else None
  }

  /** The bytes of a command after the forward header. */
  function Body(cmd: Command): (s: seq<byte>)
    requires cmd.Valid()
    ensures |s| >= 1 && s[0] == cmd.Opcode()
  {
    [cmd.Opcode()] + (if cmd.GetValues? then [] else Encode(I32, cmd.arg))
  }

  /** The payload is the forward header its id selects, then the command. */
  lemma PayloadBody(cmd: Command, id: int)
    requires cmd.Valid()
    ensures Payload(cmd, id).Window() == ForwardHeader(Target(id)) + Body(cmd)
  {
    EncodeU8(COMM_FORWARD_CAN);
    EncodeU8(cmd.Opcode());
    if id > 0 {
      EncodeU8(id % 256);
    }
  }

  /** A command's bytes read back as the command. */
  lemma BodyRoundTrip(cmd: Command, target: Option<byte>)
    requires cmd.Valid()
    ensures ParseBody(Body(cmd), target) == Some(Request(cmd, target))
  {
    if !cmd.GetValues? {
      assert Body(cmd)[1..] == Encode(I32, cmd.arg);
      EncodeDecode(I32, cmd.arg);
    }
  }

  /** Every payload an encoder builds reads back as the command it encodes,
      addressed to the target its id selects. */
  lemma PayloadRoundTrip(cmd: Command, id: int)
    requires cmd.Valid()
    ensures ParseRequest(Payload(cmd, id).Window()) == Some(Request(cmd, Target(id)))
  {
    var w, body := Payload(cmd, id).Window(), Body(cmd);
    PayloadBody(cmd, id);
    BodyRoundTrip(cmd, Target(id));
    if id > 0 {
      assert w[2..] == body;
    }
  }

  /** The packet a command is framed into: construct on a fresh
      buffer<PACKET_MAX_LEN>, whose array starts at the frame. A payload of
      at most seven bytes frames the same under the source's threshold. */
  function CommandPacket(cmd: Command, id: int, crc: Crc16): (r: Buffer)
    requires cmd.Valid()
    ensures r.WellFormed() && r.head == 0 && |r.data| == PACKET_MAX_LEN
    ensures r.Window() == Frame(Payload(cmd, id).Window(), crc, LONG_ABOVE)
    ensures r.Window() == Frame(Payload(cmd, id).Window(), crc, LONG_ABOVE_AS_WRITTEN)
  {
    var empty := Buffer(seq(PACKET_MAX_LEN, _ => 0), 0, 0);
    FramingsAgree(Payload(cmd, id).Window(), crc);
    Construct(empty, Payload(cmd, id), crc)
  }

  /** One call of the transmit sink: `(uint8_t *)p`, which is the start of
      the packet's array, `p.len()` bytes of it, and the reply flag. */
  datatype Transmission = Transmission(bytes: seq<byte>, response: bool)

  /** What an encoder returns, with the calls it made to the sink. */
  datatype Sent = Sent(ok: bool, log: seq<Transmission>)

  /** The body shared by getValues, setCurrent, setRPM and setDuty: without
      a sink nothing is sent and the result is false; with one, the framed
      payload goes out in a single call and the result is true. */
  function Send(hasTx: bool, cmd: Command, id: int, crc: Crc16): (r: Sent)
    requires cmd.Valid()
    ensures r.ok == hasTx
    ensures !hasTx ==> r.log == []
    ensures hasTx ==> |r.log| == 1 && r.log[0].response == cmd.Response()
    ensures hasTx ==> r.log[0].bytes == Frame(Payload(cmd, id).Window(), crc, LONG_ABOVE)
  {
    if hasTx then
      var p := CommandPacket(cmd, id, crc);
      Sent(true, [Transmission(p.data[..p.len], cmd.Response())])
    else Sent(false, [])
  }

  /** `getValues(mask, id)`: the mask is not sent; the reply carries every field. */
  function GetValuesCmd(hasTx: bool, mask: int, id: int, crc: Crc16): (r: Sent)
    ensures r.ok == hasTx && (hasTx ==> |r.log| == 1 && r.log[0].response)
  {
    Send(hasTx, GetValues, id, crc)
  }

  /** `getSecondValues(mask)`: getValues forwarded to the second controller. */
  function GetSecondValues(hasTx: bool, secondId: byte, mask: int, crc: Crc16): (r: Sent)
    ensures r.ok == hasTx && (hasTx ==> |r.log| == 1 && r.log[0].response)
  {
    GetValuesCmd(hasTx, mask, secondId, crc)
  }

  /** `setCurrents`, `setRPMs` and `setDuties`: the first command to the
      local controller, and only if that succeeded, the second forwarded to
      the second one. */
  function SendPair(hasTx: bool, secondId: byte, first: Command, second: Command, crc: Crc16): (r: Sent)
    requires first.Valid() && second.Valid()
    ensures r.ok == hasTx
    ensures !hasTx ==> r.log == []
    ensures hasTx ==> (
      && |r.log| == 2
      && r.log[0] == Send(hasTx, first, LOCAL, crc).log[0]
      && r.log[1] == Send(hasTx, second, secondId, crc).log[0])
  {
    var a := Send(hasTx, first, LOCAL, crc);
    if !a.ok then a
    else
      var b := Send(hasTx, second, secondId, crc);
      Sent(b.ok, a.log + b.log)
  }

  /** A frame sent by an encoder, received whole at the start of a packet
      buffer, validates, and its payload reads back as the command and the
      target it was sent with. */
  lemma SentRoundTrip(hasTx: bool, cmd: Command, id: int, crc: Crc16, rx: Buffer)
    requires cmd.Valid() && hasTx
    requires rx.WellFormed() && rx.head == 0
    requires rx.Window() == Send(hasTx, cmd, id, crc).log[0].bytes
    ensures Validate(rx, crc).result == Valid
    ensures ParseRequest(Validate(rx, crc).rest.Window()) == Some(Request(cmd, Target(id)))
  {
    var p := Payload(cmd, id).Window();
    ValidateFrame(rx, p, LONG_ABOVE, crc);
    PayloadRoundTrip(cmd, id);
  }

  /** The mask argument of getValues changes nothing that is sent. */
  lemma GetValuesIgnoresMask(hasTx: bool, m1: int, m2: int, id: int, crc: Crc16)
    ensures GetValuesCmd(hasTx, m1, id, crc) == GetValuesCmd(hasTx, m2, id, crc)
    ensures hasTx ==> GetValuesCmd(hasTx, m1, id, crc).log[0].response
  {
  }

  /** Only getValues asks for a reply. */
  lemma OnlyGetValuesExpectsReply(hasTx: bool, cmd: Command, id: int, crc: Crc16)
    requires cmd.Valid() && hasTx
    ensures Send(hasTx, cmd, id, crc).log[0].response <==> cmd == GetValues
  {
  }

  /** The pairwise setters address the local controller first: its
      frame, received whole, reads back as the first command. */
  lemma SendPairFirst(secondId: byte, first: Command, second: Command, crc: Crc16, rx: Buffer)
    requires first.Valid() && second.Valid()
    requires rx.WellFormed() && rx.head == 0
    requires rx.Window() == SendPair(true, secondId, first, second, crc).log[0].bytes
    ensures ParseRequest(Validate(rx, crc).rest.Window()) == Some(Request(first, None))
  {
    SentRoundTrip(true, first, LOCAL, crc, rx);
  }

  /** The second frame is forwarded over CAN to the second controller (a
      second id of 0 would send it to the local one instead). */
  lemma SendPairSecond(secondId: byte, first: Command, second: Command, crc: Crc16, rx: Buffer)
    requires first.Valid() && second.Valid()
    requires rx.WellFormed() && rx.head == 0
    requires rx.Window() == SendPair(true, secondId, first, second, crc).log[1].bytes
    ensures ParseRequest(Validate(rx, crc).rest.Window()) ==
      Some(Request(second, if secondId > 0 then Some(secondId) else None))
  {
    TargetOfByte(secondId);
    SentRoundTrip(true, second, secondId, crc, rx);
  }
}
