/**
 * vesc::controller: the session state the protocol layer keeps (firmware
 * description, two telemetry slots, the callback registry, whether a
 * transmit sink is set) and parse_command, which validates a received
 * packet, dispatches its payload on the opcode and then calls the callback
 * registered for that opcode.
 */
module Controller {
  import opened Wrappers
  import opened Bytes
  import opened ByteBuffer
  import opened Packet
  import opened Telemetry
  import opened Firmware
  import opened Commands

  /** The vesc_id whose telemetry goes to the primary slot. */
  const PRIMARY_VESC_ID: byte := 28

  /** A registered std::function, known only by which registration it was. */
  type Handler = nat

  /** Every field of mc_values, in decoding order. */
  const ALL_FIELD_LIST: seq<Field> :=
    FIXED_FIELDS + [Position, VescId, TempMos1, TempMos2, TempMos3, Vd, Vq]

  /** `mc_values{}`: every field value-initialised to zero. */
  const ZERO_VALUES: Record := map f | f in ALL_FIELD_LIST :: Sentinel(0)

  datatype Controller = Controller(
    fw: FwParams,
    values: Record,
    values2: Record,
    secondId: byte,
    callbacks: map<byte, Handler>,
    hasTx: bool)

  /** `controller()`: zeroed state, second controller id 73, no callbacks,
      no sink. */
  const INITIAL: Controller :=
    Controller(INITIAL_FW, ZERO_VALUES, ZERO_VALUES, SECOND_VESC_ID, map[], false)

  /** `setCallback(type, f)`: registers f for the opcode, replacing any
      earlier registration; it always reports success. */
  function SetCallback(c: Controller, opcode: byte, h: Handler): (r: (bool, Controller))
    ensures r.0
    ensures opcode in r.1.callbacks && r.1.callbacks[opcode] == h
    ensures forall k :: k != opcode ==>
      (k in r.1.callbacks <==> k in c.callbacks) && (k in c.callbacks ==> r.1.callbacks[k] == c.callbacks[k])
    ensures r.1.(callbacks := c.callbacks) == c
  {
    (true, c.(callbacks := c.callbacks[opcode := h]))
  }

  /** `clearCallback(type)`: no callback for the opcode afterwards. */
  function ClearCallback(c: Controller, opcode: byte): (r: Controller)
    ensures opcode !in r.callbacks
    ensures forall k :: k != opcode ==>
      (k in r.callbacks <==> k in c.callbacks) && (k in c.callbacks ==> r.callbacks[k] == c.callbacks[k])
    ensures r.(callbacks := c.callbacks) == c
  {
    c.(callbacks := c.callbacks - {opcode})
  }

  /** `setTX(tx)`: whether the function set is callable. */
  function SetTx(c: Controller, present: bool): (r: Controller)
    ensures r.hasTx == present && r.(hasTx := c.hasTx) == c
  {
    c.(hasTx := present)
  }

  // ---------------------------------------------------------------------
  // Telemetry slots

  /** The controller id a decoded record carries, when it carries one. */
  function IdOf(vals: Record): Option<int> {
    if VescId in vals && vals[VescId].Valid() && Value(vals[VescId]).Whole?
    then Some(Value(vals[VescId]).value) else None
  }

  /** The routing step of handleGetValuesSelective: a record from the
      second controller replaces `_mc_values2`, one from the primary
      replaces `_mc_values`, and any other is dropped. The second id is
      compared first. */
  function Route(c: Controller, vals: Record): (r: Controller)
    ensures r.(values := c.values, values2 := c.values2) == c
    ensures r.values2 == (if IdOf(vals) == Some(c.secondId as int) then vals else c.values2)
    ensures r.values ==
      (if IdOf(vals) == Some(PRIMARY_VESC_ID as int) && c.secondId != PRIMARY_VESC_ID then vals else c.values)
  {
    var id := IdOf(vals);
    if id == Some(c.secondId as int) then c.(values2 := vals)
    else if id == Some(PRIMARY_VESC_ID as int) then c.(values := vals)
    else c
  }

  /** Routing writes at most one slot. */
  lemma RouteOneSlot(c: Controller, vals: Record)
    ensures Route(c, vals).values == c.values || Route(c, vals).values2 == c.values2
  {
  }

  /** `handleGetValuesSelective(p, mask)`: decode, then route; None when
      the fixed fields overrun the payload. */
  function HandleValues(c: Controller, b: Buffer, mask: u32): (r: Option<Read<Controller>>)
    requires b.WellFormed()
    ensures r.None? <==> b.len < FixedWidth(mask)
    ensures r.Some? ==> r.value.rest.WellFormed() && r.value.rest.data == b.data
    ensures r.Some? ==> r.value.value == Route(c, DecodeValues(b, mask).value.value)
  {
    match DecodeValues(b, mask)
    case None => None
    case Some(x) => Some(Read(Route(c, x.value), x.rest))
  }

  // ---------------------------------------------------------------------
  // parse_command

  /** One invocation of a registered callback with the packet it was given. */
  datatype Call = Call(opcode: byte, handler: Handler, packet: Buffer)

  /** What parse_command returns and leaves: validate's result, the
      received packet's buffer as validate leaves it, the new controller
      state, the callbacks it invoked and whether a read ran past the
      payload (a decoding the source performs on stale bytes). */
  datatype Parsed = Parsed(
    result: ValidateResult, rx: Buffer, next: Controller, calls: seq<Call>, overrun: bool)

  /** The built-in handling of one opcode on the payload after it: the
      firmware reply, the full telemetry reply, the selective telemetry
      reply after its one-byte mask; any other opcode is left alone. */
  function Dispatch(c: Controller, opcode: byte, b: Buffer): (r: Option<Read<Controller>>)
    requires b.WellFormed()
    ensures r.Some? ==> r.value.rest.WellFormed() && r.value.rest.data == b.data
    ensures r.Some? ==> r.value.value.callbacks == c.callbacks && r.value.value.hasTx == c.hasTx
    ensures r.Some? ==> r.value.value.secondId == c.secondId
    ensures r.None? ==> opcode == COMM_GET_VALUES || opcode == COMM_GET_VALUES_SELECTIVE
    ensures r.Some? && opcode != COMM_FW_VERSION ==> r.value.value.fw == c.fw
    ensures r.Some? && opcode == COMM_FW_VERSION ==>
      r.value.value.values == c.values && r.value.value.values2 == c.values2
    ensures opcode != COMM_FW_VERSION && opcode != COMM_GET_VALUES && opcode != COMM_GET_VALUES_SELECTIVE ==>
      r == Some(Read(c, b))
  {
    if opcode == COMM_FW_VERSION then
      var f := HandleFw(b, c.fw);
      Some(Read(c.(fw := f.value), f.rest))
    else if opcode == COMM_GET_VALUES then HandleValues(c, b, ALL_FIELDS)
    else if opcode == COMM_GET_VALUES_SELECTIVE then HandleSelective(c, b)
    else Some(Read(c, b))
  }

  /** COMM_GET_VALUES_SELECTIVE: the mask is a single u8, then the fields. */
  function HandleSelective(c: Controller, b: Buffer): (r: Option<Read<Controller>>)
    requires b.WellFormed()
    ensures r.None? <==> b.len == 0 || b.len - 1 < FixedWidth(b.data[b.head])
    ensures r.Some? ==> r.value.rest.WellFormed() && r.value.rest.data == b.data
    ensures r.Some? ==> r.value.value == Route(c, DecodeValues(Advance(b, 1), b.data[b.head]).value.value)
  {
    if b.len == 0 then None
    else
      var m := GetInt(b, U8);
      DecodeU8(b.data[b.head..b.head + 1]);
      assert m.rest == Advance(b, 1) && m.value == b.data[b.head];
      HandleValues(c, m.rest, m.value)
  }

  /** The packet parse_command dispatches on: a fresh packet holding a copy
      of the validated payload. */
  function PayloadPacket(v: Buffer): (r: Buffer)
    requires v.WellFormed()
    ensures r.WellFormed() && r.head == 0 && r.Window() == v.Window()
    ensures |r.data| == v.len
  {
    Buffer(v.Window(), 0, v.len)
  }

  /** `parse_command(p)`. */
  function ParseCommand(c: Controller, p: Buffer, crc: Crc16): (r: Parsed)
    requires p.WellFormed()
    ensures r.result == Validate(p, crc).result && r.rx == Validate(p, crc).rest
    ensures r.result != Valid ==> r.next == c && r.calls == [] && !r.overrun
    ensures r.overrun ==> r.next == c && r.calls == []
    ensures r.next.callbacks == c.callbacks && r.next.hasTx == c.hasTx && r.next.secondId == c.secondId
    ensures |r.calls| <= 1
  {
    var v := Validate(p, crc);
    if v.result != Valid then Parsed(v.result, v.rest, c, [], false)
    else
      var vp := PayloadPacket(v.rest);
      if vp.len == 0 then Parsed(v.result, v.rest, c, [], true)
      else
        var op := GetInt(vp, U8);
        var opcode: byte := op.value;
        match Dispatch(c, opcode, op.rest)
        case None => Parsed(v.result, v.rest, c, [], true)
        case Some(d) =>
          var calls := if opcode in c.callbacks then [Call(opcode, c.callbacks[opcode], d.rest)] else [];
          Parsed(v.result, v.rest, d.value, calls, false)
  }

  // ---------------------------------------------------------------------
  // What parse_command does with a valid packet

  /** The payload after its opcode, in the packet parse_command dispatches on. */
  function AfterOpcode(w: seq<byte>): (b: Buffer)
    requires |w| >= 1
    ensures b.WellFormed() && b.Window() == w[1..]
  {
    Buffer(w, 1, |w| - 1)
  }

  /** On a valid packet with a non-empty payload, the first payload byte
      is the opcode: parse_command runs its built-in handling on the rest,
      and then, unless that overran, invokes the callback registered for
      the opcode exactly once, if there is one, and no callback otherwise. */
  lemma ParseValid(c: Controller, p: Buffer, crc: Crc16)
    requires p.WellFormed()
    requires Validate(p, crc).result == Valid && Validate(p, crc).rest.len >= 1
    ensures var w := Validate(p, crc).rest.Window();
      var r, d := ParseCommand(c, p, crc), Dispatch(c, w[0], AfterOpcode(w));
      && (r.overrun <==> d.None?)
      && (d.Some? ==> r.next == d.value.value)
      && (d.Some? && w[0] in c.callbacks ==>
            r.calls == [Call(w[0], c.callbacks[w[0]], d.value.rest)])
      && (w[0] !in c.callbacks ==> r.calls == [])
  {
    var v := Validate(p, crc);
    var w := v.rest.Window();
    var vp := PayloadPacket(v.rest);
    assert vp == Buffer(w, 0, |w|);
    DecodeU8(w[0..1]);
    assert GetInt(vp, U8).rest == AfterOpcode(w);
  }

  /** A packet with an empty payload has no opcode to read. */
  lemma ParseEmptyPayload(c: Controller, p: Buffer, crc: Crc16)
    requires p.WellFormed()
    requires Validate(p, crc).result == Valid && Validate(p, crc).rest.len == 0
    ensures ParseCommand(c, p, crc).overrun
  {
  }

  /** The firmware reply updates the firmware description and nothing else. */
  lemma DispatchFw(c: Controller, b: Buffer)
    requires b.WellFormed()
    ensures var d := Dispatch(c, COMM_FW_VERSION, b);
      d.Some? && d.value.value == c.(fw := HandleFw(b, c.fw).value)
  {
  }

  /** A telemetry reply leaves the firmware description alone and writes
      at most one slot; COMM_GET_VALUES decodes with every bit set and
      overruns exactly when the payload after the opcode is shorter than
      the 53 bytes of the sixteen fixed fields. */
  lemma DispatchValues(c: Controller, b: Buffer)
    requires b.WellFormed()
    ensures var d := Dispatch(c, COMM_GET_VALUES, b);
      && (d.None? <==> b.len < 53)
      && (d.Some? ==> d.value.value == Route(c, DecodeValues(b, ALL_FIELDS).value.value))
      && (d.Some? ==> d.value.value.fw == c.fw)
  {
    AllFieldsWidth();
  }

  /** The fixed part of a full telemetry reply is 53 bytes. */
  lemma AllFieldsWidth()
    ensures FixedWidth(ALL_FIELDS) == 53
  {
    SpanAll(FIXED_FIELDS, 0);
    assert FIXED_FIELDS[0..] == FIXED_FIELDS;
    FixedWidthsSum();
  }

  /** The sixteen widths: 2, 2, 4, 4, 4, 4, 2, 4, 2, 4, 4, 4, 4, 4, 4, 1. */
  lemma FixedWidthsSum()
    ensures WidthsFrom(FIXED_FIELDS, 0) == 53
  {
    FixedWidthsHigh();
    assert WidthsFrom(FIXED_FIELDS, 7) == 31;
    assert WidthsFrom(FIXED_FIELDS, 6) == 33;
    assert WidthsFrom(FIXED_FIELDS, 5) == 37;
    assert WidthsFrom(FIXED_FIELDS, 4) == 41;
    assert WidthsFrom(FIXED_FIELDS, 3) == 45;
    assert WidthsFrom(FIXED_FIELDS, 2) == 49;
    assert WidthsFrom(FIXED_FIELDS, 1) == 51;
    assert WidthsFrom(FIXED_FIELDS, 0) == 53;
  }

  /** The last eight of them: 2, 4, 4, 4, 4, 4, 4, 1. */
  lemma FixedWidthsHigh()
    ensures WidthsFrom(FIXED_FIELDS, 8) == 27
  {
    assert WidthsFrom(FIXED_FIELDS, 15) == 1;
    assert WidthsFrom(FIXED_FIELDS, 14) == 5;
    assert WidthsFrom(FIXED_FIELDS, 13) == 9;
    assert WidthsFrom(FIXED_FIELDS, 12) == 13;
    assert WidthsFrom(FIXED_FIELDS, 11) == 17;
    assert WidthsFrom(FIXED_FIELDS, 10) == 21;
    assert WidthsFrom(FIXED_FIELDS, 9) == 25;
    assert WidthsFrom(FIXED_FIELDS, 8) == 27;
  }

  /** The widths of fs[k..] added up. */
  function WidthsFrom(fs: seq<Field>, k: nat): nat
    requires k <= |fs|
    decreases |fs| - k
  {
    if k == |fs| then 0 else fs[k].Layout().Width() + WidthsFrom(fs, k + 1)
  }

  /** Under the all-ones mask every field takes its width. */
  lemma {:induction false} SpanAll(fs: seq<Field>, k: nat)
    requires k <= |fs|
    ensures Span(ALL_FIELDS, fs[k..]) == WidthsFrom(fs, k)
    decreases |fs| - k
  {
    if k < |fs| {
      assert fs[k..][1..] == fs[k + 1..];
      AllSelected(fs[k]);
      SpanAll(fs, k + 1);
    }
  }

  /** Every mask bit is set in the all-ones mask. */
  lemma AllSelected(f: Field)
    ensures Selected(ALL_FIELDS, f.Bit())
  {
  }

  /** An opcode without built-in handling changes nothing and consumes nothing. */
  lemma DispatchOther(c: Controller, opcode: byte, b: Buffer)
    requires b.WellFormed()
    requires opcode != COMM_FW_VERSION && opcode != COMM_GET_VALUES
    requires opcode != COMM_GET_VALUES_SELECTIVE
    ensures Dispatch(c, opcode, b) == Some(Read(c, b))
  {
  }

  /** The selective request's mask is read as one byte, so only the first
      eight fields can be selected by it. */
  lemma ByteMaskSelects(mask: byte, f: Field)
    ensures f.Index() >= 8 ==> !Selected(mask, f.Bit())
  {
    if f.Index() >= 8 {
      assert f.Bit() >= 0x100;
      assert mask / f.Bit() == 0;
    }
  }

  /** So in a selective reply the fixed fields from v_in on are never
      present. */
  lemma SelectiveLeavesHighFields(b: Buffer, mask: byte, f: Field)
    requires b.WellFormed() && b.len >= FixedWidth(mask)
    requires 8 <= f.Index() < 16
    ensures f !in DecodeValues(b, mask).value.value
  {
    ValuesFixed(b, mask, f);
    ByteMaskSelects(mask, f);
  }

  // ---------------------------------------------------------------------
  // Routing of decoded records

  /** The id byte a decoded record carries reads as that byte. */
  lemma IdOfCode(vals: Record, t: seq<byte>, p: nat)
    requires p < |t| && VescId in vals && vals[VescId] == Encoded(Code, t[p..p + 1])
    ensures IdOf(vals) == Some(t[p] as int)
  {
    assert t[p..p + 1][0] == t[p];
  }

  /** The id a decoded record carries is the id byte of the reply, when
      that byte was read. */
  lemma DecodedId(b: Buffer, mask: u32)
    requires b.WellFormed() && b.len >= FixedWidth(mask)
    ensures var m, t := DecodeValues(b, mask).value.value, b.Window()[FixedWidth(mask)..];
      var p := PositionBytes(|t|, mask);
      IdBytes(|t| - p, mask) == 1 ==> IdOf(m) == Some(t[p] as int)
  {
    var m, t := DecodeValues(b, mask).value.value, b.Window()[FixedWidth(mask)..];
    var p := PositionBytes(|t|, mask);
    if IdBytes(|t| - p, mask) == 1 {
      ValuesId(b, mask);
      IdOfCode(m, t, p);
    }
  }

  /** Where a record goes by the id it carries: to the second slot when it
      is the second controller's id, else to the primary slot when it is
      28, else nowhere. */
  lemma RouteById(c: Controller, vals: Record, y: byte)
    requires IdOf(vals) == Some(y as int)
    ensures y == c.secondId ==> Route(c, vals) == c.(values2 := vals)
    ensures y == PRIMARY_VESC_ID && c.secondId != PRIMARY_VESC_ID ==> Route(c, vals) == c.(values := vals)
    ensures y != c.secondId && y != PRIMARY_VESC_ID ==> Route(c, vals) == c
  {
  }

  /** Where a decoded reply goes when its id byte was read. */
  lemma RouteDecoded(c: Controller, b: Buffer, mask: u32)
    requires b.WellFormed() && b.len >= FixedWidth(mask)
    ensures var m, t := DecodeValues(b, mask).value.value, b.Window()[FixedWidth(mask)..];
      var p, r := PositionBytes(|t|, mask), Route(c, m);
      IdBytes(|t| - p, mask) == 1 ==>
        && (t[p] == c.secondId ==> r == c.(values2 := m))
        && (t[p] == PRIMARY_VESC_ID && c.secondId != PRIMARY_VESC_ID ==> r == c.(values := m))
        && (t[p] != c.secondId && t[p] != PRIMARY_VESC_ID ==> r == c)
  {
    var m, t := DecodeValues(b, mask).value.value, b.Window()[FixedWidth(mask)..];
    var p := PositionBytes(|t|, mask);
    if IdBytes(|t| - p, mask) == 1 {
      DecodedId(b, mask);
      RouteById(c, m, t[p]);
    }
  }

  /** Where it goes without an id byte: with no byte left for the id the
      sentinel 255 routes nowhere (unless it is the second id); with the id
      unselected and bytes left, the source compares an uninitialised
      field, and the record is routed nowhere. */
  lemma RouteUndecoded(c: Controller, b: Buffer, mask: u32)
    requires b.WellFormed() && b.len >= FixedWidth(mask)
    ensures var m, t := DecodeValues(b, mask).value.value, b.Window()[FixedWidth(mask)..];
      var p, r := PositionBytes(|t|, mask), Route(c, m);
      && (|t| == p && c.secondId != NO_ID ==> r == c)
      && (|t| > p && !Selected(mask, VESC_ID) ==> r == c)
  {
    ValuesId(b, mask);
  }

  // ---------------------------------------------------------------------
  // The callback registry seen through parse_command

  /** A callback registered for an opcode runs once on the next valid
      packet with that opcode whose handling does not overrun; after it is
      cleared, it does not run. */
  lemma RegisteredCallbackRuns(c: Controller, opcode: byte, h: Handler, p: Buffer, crc: Crc16)
    requires p.WellFormed()
    requires Validate(p, crc).result == Valid && Validate(p, crc).rest.len >= 1
    requires Validate(p, crc).rest.Window()[0] == opcode
    ensures var r := ParseCommand(SetCallback(c, opcode, h).1, p, crc);
      !r.overrun ==> |r.calls| == 1 && r.calls[0].opcode == opcode && r.calls[0].handler == h
    ensures ParseCommand(ClearCallback(c, opcode), p, crc).calls == []
  {
    ParseValid(SetCallback(c, opcode, h).1, p, crc);
    ParseValid(ClearCallback(c, opcode), p, crc);
  }
}
