/**
 * The telemetry decoder of vesc::controller, `handleGetValuesSelective`:
 * sixteen fixed fields read unconditionally for every set mask bit, then
 * tail fields read only when enough bytes remain, with sentinel values for
 * the position and the controller id when they do not.
 *
 * A decoded record maps each field to its reading; a field absent from the
 * map is one the source leaves uninitialised.
 */
module Telemetry {
  import opened Wrappers
  import opened Bytes
  import opened ByteBuffer

  /** A request mask: the uint32_t whose set bits select fields. */
  type u32 = x: int | 0 <= x < 0x1_0000_0000

  /** A single request-mask bit, as the value `1u << k`. */
  type Flag = x: nat | 1 <= x witness 1

  // The values:: request-mask bits.
  const TEMP_MOS: Flag := 0x1
  const TEMP_MOTOR: Flag := 0x2
  const CURRENT_MOTOR: Flag := 0x4
  const CURRENT_IN: Flag := 0x8
  const ID: Flag := 0x10
  const IQ: Flag := 0x20
  const DUTY_NOW: Flag := 0x40
  const RPM: Flag := 0x80
  const V_IN: Flag := 0x100
  const AMP_HOURS: Flag := 0x200
  const AMP_HOURS_CHARGED: Flag := 0x400
  const WATT_HOURS: Flag := 0x800
  const WATT_HOURS_CHARGED: Flag := 0x1000
  const TACHOMETER: Flag := 0x2000
  const TACHOMETER_ABS: Flag := 0x4000
  const FAULT_CODE: Flag := 0x8000
  const POSITION: Flag := 0x10000
  const VESC_ID: Flag := 0x20000
  const TEMP_MOSX: Flag := 0x40000
  const VD: Flag := 0x80000
  const VQ: Flag := 0x100000

  /** The mask handleGetValues decodes with. */
  const ALL_FIELDS: u32 := 0xFFFF_FFFF

  /** `mask & flag` is non-zero, for a flag with a single bit set. */
  predicate Selected(mask: nat, flag: Flag) {
    (mask / flag) % 2 == 1
  }

  /** The sentinel position when fewer than four bytes remain (-1.0). */
  const NO_POSITION: int := -1
  /** The sentinel controller id when no byte remains. */
  const NO_ID: int := 255

  /** How a field's bytes become its value. */
  datatype Layout =
    | Fixed(width: nat, scale: nat)   // getfp(width, scale)
    | Int32                           // get<int32_t>()
    | Code                            // get<uint8_t>()
  {
    function Width(): nat {
      match this
      case Fixed(w, _) => w
      case Int32 => 4
      case Code => 1
    }
  }

  /** A decoded number: getfp's integer with the scale it divides by, or a
      whole number. */
  datatype Quantity = Scaled(raw: int, scale: nat) | Whole(value: int)

  /** What the decoder stores for a field: the bytes it was read from, under
      the field's layout, or a sentinel it writes when too few bytes remain. */
  datatype Reading = Encoded(layout: Layout, bytes: seq<byte>) | Sentinel(value: int) {

    predicate Valid() {
      Encoded? ==> |bytes| == layout.Width() && 1 <= |bytes| <= 4
    }
  }

  // The layouts of the fields after the fixed part.
  const POSITION_LAYOUT: Layout := Fixed(4, 1000000)
  const MOSX_LAYOUT: Layout := Fixed(2, 10)
  const VDVQ_LAYOUT: Layout := Fixed(4, 1000)

  datatype Field =
    | TempMos | TempMotor | CurrentMotor | CurrentIn | Id | Iq | DutyNow | Rpm
    | VIn | AmpHours | AmpHoursCharged | WattHours | WattHoursCharged
    | Tachometer | TachometerAbs | FaultCode
    | Position | VescId | TempMos1 | TempMos2 | TempMos3 | Vd | Vq
  {
    /** Place in the order the decoder reads fields. */
    function Index(): nat {
      match this
      case TempMos => 0 case TempMotor => 1 case CurrentMotor => 2 case CurrentIn => 3
      case Id => 4 case Iq => 5 case DutyNow => 6 case Rpm => 7
      case VIn => 8 case AmpHours => 9 case AmpHoursCharged => 10 case WattHours => 11
      case WattHoursCharged => 12 case Tachometer => 13 case TachometerAbs => 14
      case FaultCode => 15 case Position => 16 case VescId => 17
      case TempMos1 => 18 case TempMos2 => 19 case TempMos3 => 20 case Vd => 21 case Vq => 22
    }

    /** The mask bit that requests the field. */
    function Bit(): Flag {
      match this
      case TempMos => TEMP_MOS case TempMotor => TEMP_MOTOR
      case CurrentMotor => CURRENT_MOTOR case CurrentIn => CURRENT_IN
      case Id => ID case Iq => IQ case DutyNow => DUTY_NOW case Rpm => RPM
      case VIn => V_IN case AmpHours => AMP_HOURS case AmpHoursCharged => AMP_HOURS_CHARGED
      case WattHours => WATT_HOURS case WattHoursCharged => WATT_HOURS_CHARGED
      case Tachometer => TACHOMETER case TachometerAbs => TACHOMETER_ABS
      case FaultCode => FAULT_CODE case Position => POSITION case VescId => VESC_ID
      case TempMos1 | TempMos2 | TempMos3 => TEMP_MOSX
      case Vd => VD case Vq => VQ
    }

    function Layout(): (l: Layout)
      ensures 1 <= l.Width() <= 4
    {
      match this
      case TempMos | TempMotor | VIn => Fixed(2, 10)
      case CurrentMotor | CurrentIn | Id | Iq => Fixed(4, 100)
      case DutyNow => Fixed(2, 1000)
      case Rpm => Fixed(4, 1)
      case AmpHours | AmpHoursCharged | WattHours | WattHoursCharged => Fixed(4, 10000)
      case Tachometer | TachometerAbs => Int32
      case FaultCode | VescId => Code
      case Position => POSITION_LAYOUT
      case TempMos1 | TempMos2 | TempMos3 => MOSX_LAYOUT
      case Vd | Vq => VDVQ_LAYOUT
    }
  }

  type Record = map<Field, Reading>

  /** The number a reading stands for, with a fixed-point field
      sign-extended from its own width as the firmware's int16/int32
      encoding requires. */
  function Value(r: Reading): (q: Quantity)
    requires r.Valid()
    ensures r.Sentinel? ==> q == Whole(r.value)
    ensures r.Encoded? && r.layout.Fixed? ==>
      && q.Scaled? && q.scale == r.layout.scale
      && (q.raw < 0 <==> r.bytes[0] >= 0x80)
      && (|r.bytes| == 1 ==> q.raw == Decode(I8, r.bytes))
      && (|r.bytes| == 2 ==> q.raw == Decode(I16, r.bytes))
      && (|r.bytes| == 4 ==> q.raw == Decode(I32, r.bytes))
    ensures r.Encoded? && r.layout.Int32? ==> q.Whole? && I32.Holds(q.value)
    ensures r.Encoded? && r.layout.Code? ==> q.Whole? && 0 <= q.value < 256
  {
    match r
    case Sentinel(v) => Whole(v)
    case Encoded(Fixed(_, scale), s) =>
      SignedBETop(s);
      SignedBEWidths(s);
      Scaled(SignedBE(s), scale)
    case Encoded(Int32, s) => Whole(Decode(I32, s))
    case Encoded(Code, s) => Whole(s[0])
  }

  /** The number the source computes: getfp ORs the bytes in without sign
      extension. */
  function ValueAsWritten(r: Reading): (q: Quantity)
    requires r.Valid()
    ensures r.Sentinel? ==> q == Whole(r.value)
    ensures r.Encoded? && r.layout.Fixed? ==> q.Scaled? && q.scale == r.layout.scale
    ensures r.Encoded? && r.layout.Fixed? && |r.bytes| < 4 ==>
      q.raw == FromBE(r.bytes) && 0 <= q.raw < Pow256(|r.bytes|)
    ensures r.Encoded? && r.layout.Fixed? && |r.bytes| == 4 ==> q.raw == Decode(I32, r.bytes)
    ensures r.Encoded? && r.layout.Int32? ==> q.Whole? && I32.Holds(q.value)
    ensures r.Encoded? && r.layout.Code? ==> q.Whole? && 0 <= q.value < 256
  {
    match r
    case Sentinel(v) => Whole(v)
    case Encoded(Fixed(_, scale), s) =>
      FixedRawValue(s);
      Scaled(FixedRaw(s), scale)
    case Encoded(Int32, s) => Whole(Decode(I32, s))
    case Encoded(Code, s) => Whole(s[0])
  }

  /** The two readings differ exactly on fixed-point fields narrower than
      four bytes whose top bit is set: the negative values. */
  lemma ValueAsWrittenDiffers(r: Reading)
    requires r.Valid()
    ensures ValueAsWritten(r) != Value(r) <==>
      r.Encoded? && r.layout.Fixed? && |r.bytes| < 4 && r.bytes[0] >= 0x80
  {
    if r.Encoded? && r.layout.Fixed? {
      FixedRawValue(r.bytes);
      SignedBETop(r.bytes);
    }
  }

  /** A two-byte field holding `getfp` of an int16 the firmware appended as
      [0xFF, 0xFE] (-2) comes out as 65534 instead. */
  lemma NegativeDutyAsWritten()
    ensures ValueAsWritten(Encoded(DutyNow.Layout(), [0xFF, 0xFE])) == Scaled(65534, 1000)
    ensures Value(Encoded(DutyNow.Layout(), [0xFF, 0xFE])) == Scaled(-2, 1000)
  {
    FixedRawValue([0xFF, 0xFE]);
    SignedBETop([0xFF, 0xFE]);
    assert [0xFF, 0xFE][..1] == [0xFF];
    assert [0xFF][..0] == [];
  }

  /** Every value the firmware appends as the field's signed integer of the
      same width reads back as that value. */
  lemma FixedRoundTrip(f: Field, t: IntType, v: int)
    requires f.Layout().Fixed? && t.Signed() && t.Size() == f.Layout().Width() && t.Holds(v)
    ensures Value(Encoded(f.Layout(), Encode(t, v))) == Scaled(v, f.Layout().scale)
  {
    SignedBEDecode(t, Encode(t, v));
    EncodeDecode(t, v);
  }

  /** One field with layout l read at the cursor: its bytes under the
      layout, and the cursor moved past them. */
  function ReadField(b: Buffer, l: Layout): (r: Read<Reading>)
    requires b.WellFormed() && b.len >= l.Width()
    ensures r.value.Encoded? && r.value.layout == l
    ensures r.rest.WellFormed() && r.rest.data == b.data && r.rest.head == b.head + l.Width()
    ensures |r.value.bytes| == l.Width()
    ensures 1 <= l.Width() <= 4 ==> r.value.Valid()
  {
    Read(Encoded(l, b.Window()[..l.Width()]), Advance(b, l.Width()))
  }

  /** The field read with the buffer call its layout names:
      `getfp(width, scale)`, `get<int32_t>()` or `get<uint8_t>()`. */
  function ReadByCall(b: Buffer, l: Layout): (r: Read<Quantity>)
    requires b.WellFormed() && l.Width() <= 4 && b.len >= l.Width()
    ensures r.rest.WellFormed() && r.rest.data == b.data
    ensures r.rest.head == b.head + l.Width() && r.rest.len == b.len - l.Width()
    ensures l.Fixed? ==> r.value.Scaled? && r.value.scale == l.scale
    ensures !l.Fixed? ==> r.value.Whole?
  {
    match l
    case Fixed(w, scale) =>
      var x := GetFixed(b, w);
      Read(Scaled(x.value, scale), x.rest)
    case Int32 =>
      var x := GetInt(b, I32);
      Read(Whole(x.value), x.rest)
    case Code =>
      var x := GetInt(b, U8);
      Read(Whole(x.value), x.rest)
  }

  /** Every buffer call returns the source's number for the field's bytes
      and consumes exactly its width. */
  lemma ReadByCallIsReadField(b: Buffer, l: Layout)
    requires b.WellFormed() && 1 <= l.Width() <= 4 && b.len >= l.Width()
    ensures var x, y := ReadByCall(b, l), ReadField(b, l);
      y.value.Valid() && x == Read(ValueAsWritten(y.value), y.rest)
  {
    var w := l.Width();
    assert b.data[b.head..b.head + w] == b.Window()[..w];
    FixedRawValue(b.Window()[..w]);
    if l.Code? {
      assert FromBE(b.Window()[..1]) == b.Window()[0] by {
        assert b.Window()[..1][..0] == [];
      }
    }
  }

  /** Reading a field k bytes into the window reads the k-th to
      (k + width)-th bytes. */
  lemma ReadAt(b: Buffer, l: Layout, k: nat)
    requires b.WellFormed() && k + l.Width() <= b.len
    ensures ReadField(Advance(b, k), l).value == Encoded(l, b.Window()[k..k + l.Width()])
  {
    var w := l.Width();
    AdvanceWindow(b, k);
    assert b.Window()[k..][..w] == b.Window()[k..k + w];
  }

  /** Two moves of the cursor make one. */
  lemma Advance2(b: Buffer, m: nat, n: nat)
    requires b.WellFormed() && m + n <= b.len
    ensures Advance(Advance(b, m), n) == Advance(b, m + n)
  {
  }

  // ---------------------------------------------------------------------
  // The fixed part: bits 0..15, read with no length check.

  const FIXED_FIELDS: seq<Field> := [
    TempMos, TempMotor, CurrentMotor, CurrentIn, Id, Iq, DutyNow, Rpm,
    VIn, AmpHours, AmpHoursCharged, WattHours, WattHoursCharged,
    Tachometer, TachometerAbs, FaultCode
  ]

  /** The fixed part lists the first sixteen fields, in their reading order. */
  lemma FixedFieldsInOrder()
    ensures |FIXED_FIELDS| == 16
    ensures forall k :: 0 <= k < 16 ==> FIXED_FIELDS[k].Index() == k
    ensures forall f: Field :: f in FIXED_FIELDS <==> f.Index() < 16
  {
    forall f: Field | f.Index() < 16
      ensures f in FIXED_FIELDS
    {
      assert FIXED_FIELDS[f.Index()] == f;
    }
  }

  /** No field is listed twice. */
  predicate Distinct(fs: seq<Field>) {
    forall i, j :: 0 <= i < j < |fs| ==> fs[i] != fs[j]
  }

  /** Bytes field f takes under mask: its width when selected. */
  function Step(mask: u32, f: Field): nat {
    if Selected(mask, f.Bit()) then f.Layout().Width() else 0
  }

  /** Bytes the selected fields of fs take. */
  function Span(mask: u32, fs: seq<Field>): nat {
    if fs == [] then 0 else Step(mask, fs[0]) + Span(mask, fs[1..])
  }

  /** The length of the fixed part: the widths of the selected fields. */
  function FixedWidth(mask: u32): nat {
    Span(mask, FIXED_FIELDS)
  }

  lemma {:induction false} SpanSplit(mask: u32, fs: seq<Field>, j: nat)
    requires j <= |fs|
    ensures Span(mask, fs) == Span(mask, fs[..j]) + Span(mask, fs[j..])
  {
    if j > 0 {
      assert fs[..j][1..] == fs[1..][..j - 1];
      assert fs[j..] == fs[1..][j - 1..];
      SpanSplit(mask, fs[1..], j - 1);
    }
  }

  /** The fields of fs as the decoder reads them, into vals: None when a
      selected field runs past the window, which the source reads anyway. */
  function DecodeFixed(b: Buffer, mask: u32, fs: seq<Field>, vals: Record): (r: Option<Read<Record>>)
    requires b.WellFormed()
    ensures r.Some? <==> b.len >= Span(mask, fs)
    ensures r.Some? ==> r.value.rest == Advance(b, Span(mask, fs))
    decreases |fs|
  {
    if fs == [] then Some(Read(vals, b))
    else
      var f := fs[0];
      if !Selected(mask, f.Bit()) then DecodeFixed(b, mask, fs[1..], vals)
      else if b.len < f.Layout().Width() then None
      else
        var x := ReadField(b, f.Layout());
        DecodeFixed(x.rest, mask, fs[1..], vals[f := x.value])
  }

  /** The decoder adds exactly the selected fields of fs and keeps every
      other field as it was. */
  lemma {:induction false} FixedKeys(b: Buffer, mask: u32, fs: seq<Field>, vals: Record)
    requires b.WellFormed() && DecodeFixed(b, mask, fs, vals).Some?
    ensures var m := DecodeFixed(b, mask, fs, vals).value.value;
      && (forall f :: f in m <==> f in vals || (f in fs && Selected(mask, f.Bit())))
      && (forall f :: f in vals && f !in fs ==> m[f] == vals[f])
    decreases |fs|
  {
    if fs != [] {
      var f := fs[0];
      assert forall g :: g in fs <==> g == f || g in fs[1..];
      if !Selected(mask, f.Bit()) {
        FixedKeys(b, mask, fs[1..], vals);
      } else {
        var x := ReadField(b, f.Layout());
        FixedKeys(x.rest, mask, fs[1..], vals[f := x.value]);
      }
    }
  }

  /** Where the bytes of fs[j] start: after those of every selected field
      before it. */
  function Offset(mask: u32, fs: seq<Field>, j: nat): nat
    requires j <= |fs|
  {
    Span(mask, fs[..j])
  }

  /** A selected field ends within the bytes the whole list takes. */
  lemma EntryFits(mask: u32, fs: seq<Field>, j: nat)
    requires j < |fs| && Selected(mask, fs[j].Bit())
    ensures Offset(mask, fs, j) + fs[j].Layout().Width() <= Span(mask, fs)
  {
    SpanSplit(mask, fs, j);
    assert fs[j..][1..] == fs[j + 1..];
  }

  /** The bytes of fs[j] within the window w. */
  function EntryBytes(w: seq<byte>, mask: u32, fs: seq<Field>, j: nat): (s: seq<byte>)
    requires j < |fs| && Offset(mask, fs, j) + fs[j].Layout().Width() <= |w|
    ensures |s| == fs[j].Layout().Width()
  {
    var at := Offset(mask, fs, j);
    w[at..at + fs[j].Layout().Width()]
  }

  /** Past the first field, entry j starts Step(fs[0]) bytes later than
      entry j - 1 of the rest of the list. */
  lemma OffsetShift(mask: u32, fs: seq<Field>, j: nat)
    requires 0 < j <= |fs|
    ensures Offset(mask, fs, j) == Step(mask, fs[0]) + Offset(mask, fs[1..], j - 1)
  {
    assert fs[..j][1..] == fs[1..][..j - 1];
  }

  /** Past the first field, the bytes of entry j are those of entry j - 1
      of the rest of the list, in the rest of the window. */
  lemma EntryBytesShift(w: seq<byte>, mask: u32, fs: seq<Field>, j: nat)
    requires 0 < j < |fs| && Offset(mask, fs, j) + fs[j].Layout().Width() <= |w|
    ensures Offset(mask, fs, j) == Step(mask, fs[0]) + Offset(mask, fs[1..], j - 1)
    ensures Step(mask, fs[0]) <= |w|
    ensures EntryBytes(w, mask, fs, j) == EntryBytes(w[Step(mask, fs[0])..], mask, fs[1..], j - 1)
  {
    OffsetShift(mask, fs, j);
  }

  /** Each selected field of a list without repeats holds what its own
      bytes denote. */
  lemma {:induction false} FixedValue(b: Buffer, mask: u32, fs: seq<Field>, vals: Record, j: nat)
    requires b.WellFormed() && Distinct(fs) && j < |fs| && Selected(mask, fs[j].Bit())
    requires DecodeFixed(b, mask, fs, vals).Some?
    ensures Offset(mask, fs, j) + fs[j].Layout().Width() <= b.len
    ensures var m := DecodeFixed(b, mask, fs, vals).value.value;
      fs[j] in m && m[fs[j]] == Encoded(fs[j].Layout(), EntryBytes(b.Window(), mask, fs, j))
    decreases |fs|
  {
    EntryFits(mask, fs, j);
    var f, rest := fs[0], fs[1..];
    var m := DecodeFixed(b, mask, fs, vals).value.value;
    if j == 0 {
      var x := ReadField(b, f.Layout());
      assert m == DecodeFixed(x.rest, mask, rest, vals[f := x.value]).value.value;
      FixedKeys(x.rest, mask, rest, vals[f := x.value]);
      assert f !in rest;
      assert fs[..0] == [];
    } else {
      EntryBytesShift(b.Window(), mask, fs, j);
      assert rest[j - 1] == fs[j];
      assert Distinct(rest);
      if !Selected(mask, f.Bit()) {
        FixedValue(b, mask, rest, vals, j - 1);
      } else {
        var x := ReadField(b, f.Layout());
        AdvanceWindow(b, f.Layout().Width());
        FixedValue(x.rest, mask, rest, vals[f := x.value], j - 1);
      }
    }
  }

  lemma FixedFieldsFit(mask: u32)
    ensures forall k :: 0 <= k < |FIXED_FIELDS| && Selected(mask, FIXED_FIELDS[k].Bit()) ==>
      Offset(mask, FIXED_FIELDS, k) + FIXED_FIELDS[k].Layout().Width() <= FixedWidth(mask)
  {
    forall k | 0 <= k < |FIXED_FIELDS| && Selected(mask, FIXED_FIELDS[k].Bit()) {
      EntryFits(mask, FIXED_FIELDS, k);
    }
  }

  /** The fixed part of the record by offset: each selected field from the
      bytes after those of every selected field before it. */
  function FixedReference(w: seq<byte>, mask: u32): Record
    requires |w| >= FixedWidth(mask)
  {
    FixedFieldsInOrder();
    FixedFieldsFit(mask);
    map f | f in FIXED_FIELDS && Selected(mask, f.Bit()) ::
      Encoded(f.Layout(), EntryBytes(w, mask, FIXED_FIELDS, f.Index()))
  }

  /** The decoder produces exactly the selected fixed fields. */
  lemma FixedRecordKeys(b: Buffer, mask: u32)
    requires b.WellFormed() && b.len >= FixedWidth(mask)
    ensures var m := DecodeFixed(b, mask, FIXED_FIELDS, map[]).value.value;
      forall f :: f in m <==> f in FIXED_FIELDS && Selected(mask, f.Bit())
  {
    FixedKeys(b, mask, FIXED_FIELDS, map[]);
  }

  /** The by-offset record holds exactly the selected fixed fields. */
  lemma ReferenceKeys(w: seq<byte>, mask: u32)
    requires |w| >= FixedWidth(mask)
    ensures forall f :: f in FixedReference(w, mask) <==> f in FIXED_FIELDS && Selected(mask, f.Bit())
  {
  }

  /** The decoder and the by-offset record agree on each field. */
  lemma FixedRecordValue(b: Buffer, mask: u32, f: Field)
    requires b.WellFormed() && b.len >= FixedWidth(mask)
    requires f in FIXED_FIELDS && Selected(mask, f.Bit())
    ensures var m := DecodeFixed(b, mask, FIXED_FIELDS, map[]).value.value;
      f in m && m[f] == FixedReference(b.Window(), mask)[f]
  {
    FixedFieldsInOrder();
    assert Distinct(FIXED_FIELDS);
    FixedValue(b, mask, FIXED_FIELDS, map[], f.Index());
  }

  /** The fixed-part decoder reads a window too short for the selected
      fields as an overrun, and otherwise produces the by-offset record
      and consumes exactly the widths of the selected fields. */
  lemma DecodeFixedAgrees(b: Buffer, mask: u32)
    requires b.WellFormed()
    ensures var r := DecodeFixed(b, mask, FIXED_FIELDS, map[]);
      && (r.None? <==> b.len < FixedWidth(mask))
      && (r.Some? ==> r.value == Read(FixedReference(b.Window(), mask), Advance(b, FixedWidth(mask))))
  {
    var r := DecodeFixed(b, mask, FIXED_FIELDS, map[]);
    if r.Some? {
      var m, e := r.value.value, FixedReference(b.Window(), mask);
      FixedRecordKeys(b, mask);
      ReferenceKeys(b.Window(), mask);
      forall f | f in m
        ensures f in e && m[f] == e[f]
      {
        FixedRecordValue(b, mask, f);
      }
      assert m.Keys == e.Keys;
      assert m == e;
    }
  }

  // ---------------------------------------------------------------------
  // The tail: fields read only when enough bytes remain.

  /** Bytes the position read takes from n remaining bytes. */
  function PositionBytes(n: nat, mask: u32): nat {
    if n >= 4 && Selected(mask, POSITION) then 4 else 0
  }

  /** Bytes the id read takes from n remaining bytes. */
  function IdBytes(n: nat, mask: u32): nat {
    if n >= 1 && Selected(mask, VESC_ID) then 1 else 0
  }

  /** Bytes the three extra MOSFET temperatures take from n remaining bytes. */
  function MosxBytes(n: nat, mask: u32): nat {
    if n >= 6 && Selected(mask, TEMP_MOSX) then 6 else 0
  }

  /** Bytes VD takes once the VD/VQ check has seen n bytes. */
  function VdBytes(n: nat, mask: u32): nat {
    if n >= 8 && Selected(mask, VD) then 4 else 0
  }

  /** Bytes VQ takes once the VD/VQ check has seen n bytes. */
  function VqBytes(n: nat, mask: u32): nat {
    if n >= 8 && Selected(mask, VQ) then 4 else 0
  }

  /** Field f read into vals when take holds; nothing read otherwise. */
  function ReadIf(b: Buffer, f: Field, l: Layout, take: bool, vals: Record): (r: Read<Record>)
    requires b.WellFormed() && (take ==> b.len >= l.Width())
    ensures take ==> r.rest == Advance(b, l.Width())
    ensures take ==> r.value == vals[f := Encoded(l, b.Window()[..l.Width()])]
    ensures !take ==> r == Read(vals, b)
  {
    if take then
      var x := ReadField(b, l);
      Read(vals[f := x.value], x.rest)
    else
      Read(vals, b)
  }

  /** The position: read when selected and four bytes remain; -1 whenever
      fewer remain, selected or not. */
  function TailPosition(b: Buffer, mask: u32, vals: Record): (r: Read<Record>)
    requires b.WellFormed()
    ensures r.rest == Advance(b, PositionBytes(b.len, mask))
    ensures b.len < 4 ==> r.value == vals[Position := Sentinel(NO_POSITION)]
    ensures PositionBytes(b.len, mask) == 4 ==>
      r.value == vals[Position := Encoded(POSITION_LAYOUT, b.Window()[..4])]
    ensures b.len >= 4 && !Selected(mask, POSITION) ==> r.value == vals
  {
    if b.len >= 4 then ReadIf(b, Position, POSITION_LAYOUT, Selected(mask, POSITION), vals)
    else Read(vals[Position := Sentinel(NO_POSITION)], b)
  }

  /** The controller id: read when selected and a byte remains; 255
      whenever none remains, selected or not. */
  function TailId(b: Buffer, mask: u32, vals: Record): (r: Read<Record>)
    requires b.WellFormed()
    ensures r.rest == Advance(b, IdBytes(b.len, mask))
    ensures b.len == 0 ==> r.value == vals[VescId := Sentinel(NO_ID)]
    ensures IdBytes(b.len, mask) == 1 ==> r.value == vals[VescId := Encoded(Code, b.Window()[..1])]
    ensures b.len >= 1 && !Selected(mask, VESC_ID) ==> r.value == vals
  {
    if b.len >= 1 then ReadIf(b, VescId, Code, Selected(mask, VESC_ID), vals)
    else Read(vals[VescId := Sentinel(NO_ID)], b)
  }

  const MOSX_FIELDS: seq<Field> := [TempMos1, TempMos2, TempMos3]
  const VDVQ_FIELDS: seq<Field> := [Vd, Vq]

  /** The three extra MOSFET temperatures, read together when selected and
      six bytes remain. */
  function TailMosx(b: Buffer, mask: u32, vals: Record): (r: Read<Record>)
    requires b.WellFormed()
    ensures r.rest == Advance(b, MosxBytes(b.len, mask))
    ensures MosxBytes(b.len, mask) == 0 ==> r.value == vals
  {
    if b.len >= 6 && Selected(mask, TEMP_MOSX) then
      var x1 := ReadField(b, MOSX_LAYOUT);
      var x2 := ReadField(x1.rest, MOSX_LAYOUT);
      var x3 := ReadField(x2.rest, MOSX_LAYOUT);
      Read(vals[TempMos1 := x1.value][TempMos2 := x2.value][TempMos3 := x3.value], x3.rest)
    else
      Read(vals, b)
  }

  /** VD then VQ, each when selected, after a single check that eight bytes
      remain: VQ is read even if VD, read first, left only four. */
  function TailVdVq(b: Buffer, mask: u32, vals: Record): (r: Read<Record>)
    requires b.WellFormed()
    ensures r.rest == Advance(b, VdBytes(b.len, mask) + VqBytes(b.len, mask))
    ensures b.len < 8 ==> r.value == vals
  {
    if b.len >= 8 then
      var d := ReadIf(b, Vd, VDVQ_LAYOUT, Selected(mask, VD), vals);
      ReadIf(d.rest, Vq, VDVQ_LAYOUT, Selected(mask, VQ), d.value)
    else
      Read(vals, b)
  }

  /** The two guarded groups. */
  function TailGroups(b: Buffer, mask: u32, vals: Record): (r: Read<Record>)
    requires b.WellFormed()
    ensures r.rest.WellFormed() && r.rest.data == b.data
    ensures r.rest.head + r.rest.len == b.head + b.len
  {
    var x := TailMosx(b, mask, vals);
    TailVdVq(x.rest, mask, x.value)
  }

  /** The id, then the guarded groups. */
  function TailAfterPosition(b: Buffer, mask: u32, vals: Record): (r: Read<Record>)
    requires b.WellFormed()
    ensures r.rest.WellFormed() && r.rest.data == b.data
    ensures r.rest.head + r.rest.len == b.head + b.len
  {
    var i := TailId(b, mask, vals);
    TailGroups(i.rest, mask, i.value)
  }

  /** The tail fields, in the order the decoder reads them. */
  function DecodeTail(b: Buffer, mask: u32, vals: Record): (r: Read<Record>)
    requires b.WellFormed()
    ensures r.rest.WellFormed() && r.rest.data == b.data
    ensures r.rest.head + r.rest.len == b.head + b.len
  {
    var p := TailPosition(b, mask, vals);
    TailAfterPosition(p.rest, mask, p.value)
  }

  /** `handleGetValuesSelective`'s decoding of the payload after the
      opcode (and after the mask byte for the selective request): None when
      the fixed part overruns the window. */
  function DecodeValues(b: Buffer, mask: u32): (r: Option<Read<Record>>)
    requires b.WellFormed()
    ensures r.None? <==> b.len < FixedWidth(mask)
    ensures r.Some? ==> r.value.rest.data == b.data && r.value.rest.WellFormed()
  {
    match DecodeFixed(b, mask, FIXED_FIELDS, map[])
    case None => None
    case Some(x) => Some(DecodeTail(x.rest, mask, x.value))
  }

  // ---------------------------------------------------------------------
  // What each tail step leaves alone

  lemma MosxKeeps(b: Buffer, mask: u32, vals: Record, f: Field)
    requires b.WellFormed() && f !in MOSX_FIELDS
    ensures var m := TailMosx(b, mask, vals).value;
      (f in m <==> f in vals) && (f in vals ==> m[f] == vals[f])
  {
    assert f != TempMos1 && f != TempMos2 && f != TempMos3;
  }

  lemma VdVqKeeps(b: Buffer, mask: u32, vals: Record, f: Field)
    requires b.WellFormed() && f !in VDVQ_FIELDS
    ensures var m := TailVdVq(b, mask, vals).value;
      (f in m <==> f in vals) && (f in vals ==> m[f] == vals[f])
  {
    assert f != Vd && f != Vq;
  }

  lemma GroupsKeep(b: Buffer, mask: u32, vals: Record, f: Field)
    requires b.WellFormed() && f !in MOSX_FIELDS && f !in VDVQ_FIELDS
    ensures var m := TailGroups(b, mask, vals).value;
      (f in m <==> f in vals) && (f in vals ==> m[f] == vals[f])
  {
    var x := TailMosx(b, mask, vals);
    MosxKeeps(b, mask, vals, f);
    VdVqKeeps(x.rest, mask, x.value, f);
  }

  lemma AfterPositionKeeps(b: Buffer, mask: u32, vals: Record, f: Field)
    requires b.WellFormed() && f != VescId && f !in MOSX_FIELDS && f !in VDVQ_FIELDS
    ensures var m := TailAfterPosition(b, mask, vals).value;
      (f in m <==> f in vals) && (f in vals ==> m[f] == vals[f])
  {
    var i := TailId(b, mask, vals);
    GroupsKeep(i.rest, mask, i.value, f);
  }

  // ---------------------------------------------------------------------
  // The tail, field by field, by offset into the bytes after the fixed part

  /** The position is -1 whenever fewer than four bytes follow the fixed
      part, whatever the mask; otherwise it is the next four bytes when
      selected and left unset when not. */
  lemma PositionRule(c: Buffer, mask: u32, vals: Record)
    requires c.WellFormed() && Position !in vals
    ensures var v := DecodeTail(c, mask, vals).value;
      && (c.len < 4 ==> Position in v && v[Position] == Sentinel(NO_POSITION))
      && (PositionBytes(c.len, mask) == 4 ==>
            Position in v && v[Position] == Encoded(POSITION_LAYOUT, c.Window()[..4]))
      && (c.len >= 4 && !Selected(mask, POSITION) ==> Position !in v)
  {
    var p := TailPosition(c, mask, vals);
    AfterPositionKeeps(p.rest, mask, p.value, Position);
  }

  /** The id is 255 whenever no byte is left after the position, whatever
      the mask; otherwise it is the next byte when selected and left unset
      when not. */
  lemma IdRule(c: Buffer, mask: u32, vals: Record)
    requires c.WellFormed() && VescId !in vals
    ensures var v, p := DecodeTail(c, mask, vals).value, PositionBytes(c.len, mask);
      && (c.len == p ==> VescId in v && v[VescId] == Sentinel(NO_ID))
      && (IdBytes(c.len - p, mask) == 1 ==> VescId in v && v[VescId] == Encoded(Code, c.Window()[p..p + 1]))
      && (c.len > p && !Selected(mask, VESC_ID) ==> VescId !in v)
  {
    var p := TailPosition(c, mask, vals);
    var n := PositionBytes(c.len, mask);
    AdvanceWindow(c, n);
    assert p.value == vals || p.value == vals[Position := p.value[Position]];
    var i := TailId(p.rest, mask, p.value);
    GroupsKeep(i.rest, mask, i.value, VescId);
  }

  /** Where the extra MOSFET temperatures would start among n bytes after
      the fixed part: after the position and the id. */
  function MosxAt(n: nat, mask: u32): (r: nat)
    ensures r <= n
  {
    var p := PositionBytes(n, mask);
    p + IdBytes(n - p, mask)
  }

  /** Where VD would start among n bytes after the fixed part. */
  function VdVqAt(n: nat, mask: u32): (r: nat)
    ensures MosxAt(n, mask) <= r <= n
  {
    var at := MosxAt(n, mask);
    at + MosxBytes(n - at, mask)
  }

  /** Where VQ would start: after VD's four bytes if VD is read. */
  function VqAt(n: nat, mask: u32): (r: nat)
    ensures VdVqAt(n, mask) <= r <= n
  {
    var o := VdVqAt(n, mask);
    o + VdBytes(n - o, mask)
  }

  /** A slice of the window after moving the cursor by k is the same slice
      k bytes further into the window before. */
  lemma ShiftedSlice(c: Buffer, k: nat, a: nat, e: nat)
    requires c.WellFormed() && a <= e && k + e <= c.len
    ensures Advance(c, k).Window()[a..e] == c.Window()[k + a..k + e]
  {
  }

  lemma PositionKeeps(b: Buffer, mask: u32, vals: Record, f: Field)
    requires b.WellFormed() && f != Position
    ensures var m := TailPosition(b, mask, vals).value;
      (f in m <==> f in vals) && (f in vals ==> m[f] == vals[f])
  {
  }

  lemma IdKeeps(b: Buffer, mask: u32, vals: Record, f: Field)
    requires b.WellFormed() && f != VescId
    ensures var m := TailId(b, mask, vals).value;
      (f in m <==> f in vals) && (f in vals ==> m[f] == vals[f])
  {
  }

  /** The position and the id take MosxAt bytes before the groups. */
  lemma GroupsStart(c: Buffer, mask: u32, vals: Record)
    requires c.WellFormed()
    ensures var p := TailPosition(c, mask, vals);
      var i := TailId(p.rest, mask, p.value);
      && i.rest == Advance(c, MosxAt(c.len, mask))
      && DecodeTail(c, mask, vals) == TailGroups(i.rest, mask, i.value)
  {
  }

  /** Neither the position nor the id step touches another field. */
  lemma StartKeeps(c: Buffer, mask: u32, vals: Record, f: Field)
    requires c.WellFormed() && f != Position && f != VescId
    ensures var p := TailPosition(c, mask, vals);
      var i := TailId(p.rest, mask, p.value);
      (f in i.value <==> f in vals) && (f in vals ==> i.value[f] == vals[f])
  {
    var p := TailPosition(c, mask, vals);
    PositionKeeps(c, mask, vals, f);
    IdKeeps(p.rest, mask, p.value, f);
  }

  /** Within the groups, the MOSFET temperatures are read exactly when
      selected and six bytes remain. */
  lemma GroupsMosxPresent(b: Buffer, mask: u32, vals: Record)
    requires b.WellFormed()
    requires TempMos1 !in vals && TempMos2 !in vals && TempMos3 !in vals
    ensures var m, on := TailGroups(b, mask, vals).value, MosxBytes(b.len, mask) == 6;
      (TempMos1 in m <==> on) && (TempMos2 in m <==> on) && (TempMos3 in m <==> on)
  {
    var x := TailMosx(b, mask, vals);
    VdVqKeeps(x.rest, mask, x.value, TempMos1);
    VdVqKeeps(x.rest, mask, x.value, TempMos2);
    VdVqKeeps(x.rest, mask, x.value, TempMos3);
  }

  /** When read, the MOSFET temperatures hold the first six bytes, two each. */
  lemma GroupsMosxBytes(b: Buffer, mask: u32, vals: Record)
    requires b.WellFormed() && MosxBytes(b.len, mask) == 6
    ensures var m, w := TailGroups(b, mask, vals).value, b.Window();
      && TempMos1 in m && m[TempMos1] == Encoded(MOSX_LAYOUT, w[0..2])
      && TempMos2 in m && m[TempMos2] == Encoded(MOSX_LAYOUT, w[2..4])
      && TempMos3 in m && m[TempMos3] == Encoded(MOSX_LAYOUT, w[4..6])
  {
    var x := TailMosx(b, mask, vals);
    ReadAt(b, MOSX_LAYOUT, 0);
    ReadAt(b, MOSX_LAYOUT, 2);
    ReadAt(b, MOSX_LAYOUT, 4);
    Advance2(b, 2, 2);
    VdVqKeeps(x.rest, mask, x.value, TempMos1);
    VdVqKeeps(x.rest, mask, x.value, TempMos2);
    VdVqKeeps(x.rest, mask, x.value, TempMos3);
  }

  /** Within the groups, VD and VQ are read exactly when selected and eight
      bytes remain after the MOSFET temperatures. */
  lemma GroupsVdVqPresent(b: Buffer, mask: u32, vals: Record)
    requires b.WellFormed() && Vd !in vals && Vq !in vals
    ensures var m, x := TailGroups(b, mask, vals).value, MosxBytes(b.len, mask);
      && (Vd in m <==> VdBytes(b.len - x, mask) == 4)
      && (Vq in m <==> VqBytes(b.len - x, mask) == 4)
  {
    MosxKeeps(b, mask, vals, Vd);
    MosxKeeps(b, mask, vals, Vq);
  }

  /** When read, VD holds the four bytes after the MOSFET temperatures. */
  lemma GroupsVdBytes(b: Buffer, mask: u32, vals: Record)
    requires b.WellFormed()
    ensures var m, x := TailGroups(b, mask, vals).value, MosxBytes(b.len, mask);
      VdBytes(b.len - x, mask) == 4 ==> Vd in m && m[Vd] == Encoded(VDVQ_LAYOUT, b.Window()[x..x + 4])
  {
    var k := MosxBytes(b.len, mask);
    if VdBytes(b.len - k, mask) == 4 {
      var x := TailMosx(b, mask, vals);
      var c := x.rest;
      ShiftedSlice(b, k, 0, 4);
      assert c.Window()[..4] == c.Window()[0..4];
    }
  }

  /** When read, VQ holds the four bytes after those VD took. */
  lemma GroupsVqBytes(b: Buffer, mask: u32, vals: Record)
    requires b.WellFormed()
    ensures var m, x := TailGroups(b, mask, vals).value, MosxBytes(b.len, mask);
      var d := VdBytes(b.len - x, mask);
      VqBytes(b.len - x, mask) == 4 ==>
        Vq in m && m[Vq] == Encoded(VDVQ_LAYOUT, b.Window()[x + d..x + d + 4])
  {
    var k := MosxBytes(b.len, mask);
    if VqBytes(b.len - k, mask) == 4 {
      var x := TailMosx(b, mask, vals);
      var c := x.rest;
      var n := VdBytes(c.len, mask);
      ShiftedSlice(b, k, n, n + 4);
      AdvanceWindow(c, n);
      assert c.Window()[n..][..4] == c.Window()[n..n + 4];
    }
  }

  /** The extra MOSFET temperatures are present exactly when selected with
      six bytes left after the position and the id. */
  lemma MosxPresence(c: Buffer, mask: u32, vals: Record)
    requires c.WellFormed()
    requires TempMos1 !in vals && TempMos2 !in vals && TempMos3 !in vals
    ensures var v, at := DecodeTail(c, mask, vals).value, MosxAt(c.len, mask);
      var on := MosxBytes(c.len - at, mask) == 6;
      (TempMos1 in v <==> on) && (TempMos2 in v <==> on) && (TempMos3 in v <==> on)
  {
    var p := TailPosition(c, mask, vals);
    var i := TailId(p.rest, mask, p.value);
    GroupsStart(c, mask, vals);
    StartKeeps(c, mask, vals, TempMos1);
    StartKeeps(c, mask, vals, TempMos2);
    StartKeeps(c, mask, vals, TempMos3);
    GroupsMosxPresent(i.rest, mask, i.value);
  }

  /** The groups started after the position and the id, with the MOSFET
      temperatures located by offset into the bytes t before those two. */
  lemma MosxInGroups(c: Buffer, t: seq<byte>, mask: u32, e: Record)
    requires c.WellFormed() && c.Window() == t
    ensures var at := MosxAt(|t|, mask);
      var v := TailGroups(Advance(c, at), mask, e).value;
      MosxBytes(|t| - at, mask) == 6 ==>
        && TempMos1 in v && v[TempMos1] == Encoded(MOSX_LAYOUT, t[at..at + 2])
        && TempMos2 in v && v[TempMos2] == Encoded(MOSX_LAYOUT, t[at + 2..at + 4])
        && TempMos3 in v && v[TempMos3] == Encoded(MOSX_LAYOUT, t[at + 4..at + 6])
  {
    assert |t| == c.len;
    var at := MosxAt(c.len, mask);
    if MosxBytes(c.len - at, mask) == 6 {
      GroupsMosxBytes(Advance(c, at), mask, e);
      ShiftedSlice(c, at, 0, 2);
      ShiftedSlice(c, at, 2, 4);
      ShiftedSlice(c, at, 4, 6);
    }
  }

  /** When present, they hold the next three 2-byte values of the bytes t
      the tail starts on. */
  lemma MosxRule(c: Buffer, t: seq<byte>, mask: u32, vals: Record)
    requires c.WellFormed() && c.Window() == t
    ensures var v, at := DecodeTail(c, mask, vals).value, MosxAt(|t|, mask);
      MosxBytes(|t| - at, mask) == 6 ==>
        && TempMos1 in v && v[TempMos1] == Encoded(MOSX_LAYOUT, t[at..at + 2])
        && TempMos2 in v && v[TempMos2] == Encoded(MOSX_LAYOUT, t[at + 2..at + 4])
        && TempMos3 in v && v[TempMos3] == Encoded(MOSX_LAYOUT, t[at + 4..at + 6])
  {
    var p := TailPosition(c, mask, vals);
    var i := TailId(p.rest, mask, p.value);
    GroupsStart(c, mask, vals);
    MosxInGroups(c, t, mask, i.value);
  }

  /** VD and VQ are present exactly when selected with eight bytes left
      after the position, the id and the MOSFET temperatures. */
  lemma VdVqPresence(c: Buffer, mask: u32, vals: Record)
    requires c.WellFormed() && Vd !in vals && Vq !in vals
    ensures var v, o := DecodeTail(c, mask, vals).value, VdVqAt(c.len, mask);
      && (Vd in v <==> VdBytes(c.len - o, mask) == 4)
      && (Vq in v <==> VqBytes(c.len - o, mask) == 4)
  {
    var p := TailPosition(c, mask, vals);
    var i := TailId(p.rest, mask, p.value);
    GroupsStart(c, mask, vals);
    StartKeeps(c, mask, vals, Vd);
    StartKeeps(c, mask, vals, Vq);
    var at := MosxAt(c.len, mask);
    assert i.rest.len == c.len - at;
    assert VdVqAt(c.len, mask) - at == MosxBytes(i.rest.len, mask);
    assert Vd !in i.value && Vq !in i.value;
    GroupsVdVqPresent(i.rest, mask, i.value);
  }

  /** VD in the groups started after the position and the id, located by
      offset into the bytes t before those two. */
  lemma VdInGroups(c: Buffer, t: seq<byte>, mask: u32, e: Record)
    requires c.WellFormed() && c.Window() == t
    ensures var at, o := MosxAt(|t|, mask), VdVqAt(|t|, mask);
      var v := TailGroups(Advance(c, at), mask, e).value;
      VdBytes(|t| - o, mask) == 4 ==> Vd in v && v[Vd] == Encoded(VDVQ_LAYOUT, t[o..o + 4])
  {
    assert |t| == c.len;
    var at, o := MosxAt(c.len, mask), VdVqAt(c.len, mask);
    if VdBytes(c.len - o, mask) == 4 {
      var g := Advance(c, at);
      assert MosxBytes(g.len, mask) == o - at;
      GroupsVdBytes(g, mask, e);
      ShiftedSlice(c, at, o - at, o - at + 4);
    }
  }

  /** VQ likewise. */
  lemma VqInGroups(c: Buffer, t: seq<byte>, mask: u32, e: Record)
    requires c.WellFormed() && c.Window() == t
    ensures var at, o, q := MosxAt(|t|, mask), VdVqAt(|t|, mask), VqAt(|t|, mask);
      var v := TailGroups(Advance(c, at), mask, e).value;
      VqBytes(|t| - o, mask) == 4 ==> Vq in v && v[Vq] == Encoded(VDVQ_LAYOUT, t[q..q + 4])
  {
    assert |t| == c.len;
    var at, o, q := MosxAt(c.len, mask), VdVqAt(c.len, mask), VqAt(c.len, mask);
    if VqBytes(c.len - o, mask) == 4 {
      var g := Advance(c, at);
      assert MosxBytes(g.len, mask) == o - at;
      assert VdBytes(g.len - (o - at), mask) == q - o;
      GroupsVqBytes(g, mask, e);
      ShiftedSlice(c, at, q - at, q - at + 4);
    }
  }

  /** When present, VD holds the next four bytes of the bytes t the tail
      starts on. */
  lemma VdRule(c: Buffer, t: seq<byte>, mask: u32, vals: Record)
    requires c.WellFormed() && c.Window() == t
    ensures var v, o := DecodeTail(c, mask, vals).value, VdVqAt(|t|, mask);
      VdBytes(|t| - o, mask) == 4 ==> Vd in v && v[Vd] == Encoded(VDVQ_LAYOUT, t[o..o + 4])
  {
    var p := TailPosition(c, mask, vals);
    var i := TailId(p.rest, mask, p.value);
    GroupsStart(c, mask, vals);
    assert |t| == c.len;
    assert DecodeTail(c, mask, vals) == TailGroups(Advance(c, MosxAt(|t|, mask)), mask, i.value);
    VdInGroups(c, t, mask, i.value);
  }

  /** When present, VQ holds the four bytes after VD's, if VD was read. */
  lemma VqRule(c: Buffer, t: seq<byte>, mask: u32, vals: Record)
    requires c.WellFormed() && c.Window() == t
    ensures var v, o, q := DecodeTail(c, mask, vals).value, VdVqAt(|t|, mask), VqAt(|t|, mask);
      VqBytes(|t| - o, mask) == 4 ==> Vq in v && v[Vq] == Encoded(VDVQ_LAYOUT, t[q..q + 4])
  {
    var p := TailPosition(c, mask, vals);
    var i := TailId(p.rest, mask, p.value);
    GroupsStart(c, mask, vals);
    assert |t| == c.len;
    assert DecodeTail(c, mask, vals) == TailGroups(Advance(c, MosxAt(|t|, mask)), mask, i.value);
    VqInGroups(c, t, mask, i.value);
  }

  // ---------------------------------------------------------------------
  // The whole decoder, by offset into the payload

  /** The tail leaves the sixteen fixed fields as the fixed part set them. */
  lemma TailKeeps(c: Buffer, mask: u32, vals: Record, f: Field)
    requires c.WellFormed() && f.Index() < 16
    ensures var m := DecodeTail(c, mask, vals).value;
      (f in m <==> f in vals) && (f in vals ==> m[f] == vals[f])
  {
    var p := TailPosition(c, mask, vals);
    PositionKeeps(c, mask, vals, f);
    AfterPositionKeeps(p.rest, mask, p.value, f);
  }

  lemma NoTailInFixed()
    ensures Position !in FIXED_FIELDS && VescId !in FIXED_FIELDS
    ensures TempMos1 !in FIXED_FIELDS && TempMos2 !in FIXED_FIELDS && TempMos3 !in FIXED_FIELDS
    ensures Vd !in FIXED_FIELDS && Vq !in FIXED_FIELDS
  {
    FixedFieldsInOrder();
  }

  /** The decoder runs the tail on the bytes after the fixed part, starting
      from a record that holds no tail field. */
  lemma ValuesStart(b: Buffer, mask: u32)
    requires b.WellFormed() && b.len >= FixedWidth(mask)
    ensures var x := DecodeFixed(b, mask, FIXED_FIELDS, map[]).value;
      && DecodeValues(b, mask).value == DecodeTail(x.rest, mask, x.value)
      && x.rest.Window() == b.Window()[FixedWidth(mask)..]
      && Position !in x.value && VescId !in x.value && Vd !in x.value && Vq !in x.value
      && TempMos1 !in x.value && TempMos2 !in x.value && TempMos3 !in x.value
  {
    FixedKeys(b, mask, FIXED_FIELDS, map[]);
    NoTailInFixed();
    AdvanceWindow(b, FixedWidth(mask));
  }

  /** Each fixed field is present exactly when its bit is set, and holds
      the bytes after those of every selected field before it. */
  lemma ValuesFixed(b: Buffer, mask: u32, f: Field)
    requires b.WellFormed() && b.len >= FixedWidth(mask) && f.Index() < 16
    ensures var m := DecodeValues(b, mask).value.value;
      && (f in m <==> Selected(mask, f.Bit()))
      && (f in m ==> m[f] == FixedReference(b.Window(), mask)[f])
  {
    var x := DecodeFixed(b, mask, FIXED_FIELDS, map[]).value;
    DecodeFixedAgrees(b, mask);
    ReferenceKeys(b.Window(), mask);
    FixedFieldsInOrder();
    TailKeeps(x.rest, mask, x.value, f);
  }

  /** The position: -1 when fewer than four bytes follow the fixed part,
      whatever the mask; the next four bytes when selected; unset when not. */
  lemma ValuesPosition(b: Buffer, mask: u32)
    requires b.WellFormed() && b.len >= FixedWidth(mask)
    ensures var m, t := DecodeValues(b, mask).value.value, b.Window()[FixedWidth(mask)..];
      && (|t| < 4 ==> Position in m && m[Position] == Sentinel(NO_POSITION))
      && (PositionBytes(|t|, mask) == 4 ==>
            Position in m && m[Position] == Encoded(POSITION_LAYOUT, t[..4]))
      && (|t| >= 4 && !Selected(mask, POSITION) ==> Position !in m)
  {
    ValuesStart(b, mask);
    var x := DecodeFixed(b, mask, FIXED_FIELDS, map[]).value;
    PositionRule(x.rest, mask, x.value);
  }

  /** The id: 255 when no byte follows the position, whatever the mask; the
      next byte when selected; unset when not. */
  lemma ValuesId(b: Buffer, mask: u32)
    requires b.WellFormed() && b.len >= FixedWidth(mask)
    ensures var m, t := DecodeValues(b, mask).value.value, b.Window()[FixedWidth(mask)..];
      var p := PositionBytes(|t|, mask);
      && (|t| == p ==> VescId in m && m[VescId] == Sentinel(NO_ID))
      && (IdBytes(|t| - p, mask) == 1 ==> VescId in m && m[VescId] == Encoded(Code, t[p..p + 1]))
      && (|t| > p && !Selected(mask, VESC_ID) ==> VescId !in m)
  {
    ValuesStart(b, mask);
    var x := DecodeFixed(b, mask, FIXED_FIELDS, map[]).value;
    IdRule(x.rest, mask, x.value);
  }

  /** The extra MOSFET temperatures: present exactly when selected with six
      bytes left after the position and the id. */
  lemma ValuesMosxPresent(b: Buffer, mask: u32)
    requires b.WellFormed() && b.len >= FixedWidth(mask)
    ensures var m, n := DecodeValues(b, mask).value.value, b.len - FixedWidth(mask);
      var on := MosxBytes(n - MosxAt(n, mask), mask) == 6;
      (TempMos1 in m <==> on) && (TempMos2 in m <==> on) && (TempMos3 in m <==> on)
  {
    ValuesStart(b, mask);
    var x := DecodeFixed(b, mask, FIXED_FIELDS, map[]).value;
    MosxPresence(x.rest, mask, x.value);
  }

  /** When present, they hold the next three 2-byte values. */
  lemma ValuesMosx(b: Buffer, mask: u32)
    requires b.WellFormed() && b.len >= FixedWidth(mask)
    ensures var m, t := DecodeValues(b, mask).value.value, b.Window()[FixedWidth(mask)..];
      var at := MosxAt(|t|, mask);
      MosxBytes(|t| - at, mask) == 6 ==>
        && TempMos1 in m && m[TempMos1] == Encoded(MOSX_LAYOUT, t[at..at + 2])
        && TempMos2 in m && m[TempMos2] == Encoded(MOSX_LAYOUT, t[at + 2..at + 4])
        && TempMos3 in m && m[TempMos3] == Encoded(MOSX_LAYOUT, t[at + 4..at + 6])
  {
    var t := b.Window()[FixedWidth(mask)..];
    if MosxBytes(|t| - MosxAt(|t|, mask), mask) == 6 {
      ValuesStart(b, mask);
      var x := DecodeFixed(b, mask, FIXED_FIELDS, map[]).value;
      MosxRule(x.rest, t, mask, x.value);
    }
  }

  /** VD and VQ: present exactly when selected with eight bytes left after
      the groups before them. */
  lemma ValuesVdVqPresent(b: Buffer, mask: u32)
    requires b.WellFormed() && b.len >= FixedWidth(mask)
    ensures var m, n := DecodeValues(b, mask).value.value, b.len - FixedWidth(mask);
      var o := VdVqAt(n, mask);
      && (Vd in m <==> VdBytes(n - o, mask) == 4)
      && (Vq in m <==> VqBytes(n - o, mask) == 4)
  {
    ValuesStart(b, mask);
    var x := DecodeFixed(b, mask, FIXED_FIELDS, map[]).value;
    VdVqPresence(x.rest, mask, x.value);
  }

  /** When present, VD holds the four bytes after those groups. */
  lemma ValuesVd(b: Buffer, mask: u32)
    requires b.WellFormed() && b.len >= FixedWidth(mask)
    ensures var m, t := DecodeValues(b, mask).value.value, b.Window()[FixedWidth(mask)..];
      var o := VdVqAt(|t|, mask);
      VdBytes(|t| - o, mask) == 4 ==> Vd in m && m[Vd] == Encoded(VDVQ_LAYOUT, t[o..o + 4])
  {
    var t := b.Window()[FixedWidth(mask)..];
    if VdBytes(|t| - VdVqAt(|t|, mask), mask) == 4 {
      ValuesStart(b, mask);
      var x := DecodeFixed(b, mask, FIXED_FIELDS, map[]).value;
      VdRule(x.rest, t, mask, x.value);
    }
  }

  /** When present, VQ holds the four bytes after VD's, if VD was read,
      and otherwise the four VD would have taken. */
  lemma ValuesVq(b: Buffer, mask: u32)
    requires b.WellFormed() && b.len >= FixedWidth(mask)
    ensures var m, t := DecodeValues(b, mask).value.value, b.Window()[FixedWidth(mask)..];
      var o, q := VdVqAt(|t|, mask), VqAt(|t|, mask);
      VqBytes(|t| - o, mask) == 4 ==> Vq in m && m[Vq] == Encoded(VDVQ_LAYOUT, t[q..q + 4])
  {
    var t := b.Window()[FixedWidth(mask)..];
    if VqBytes(|t| - VdVqAt(|t|, mask), mask) == 4 {
      ValuesStart(b, mask);
      var x := DecodeFixed(b, mask, FIXED_FIELDS, map[]).value;
      VqRule(x.rest, t, mask, x.value);
    }
  }
}
