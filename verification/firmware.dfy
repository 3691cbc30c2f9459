/**
 * controller::handleFw: the reply to COMM_FW_VERSION, decoded into
 * fw_params by a sequence of reads each guarded by the length still held,
 * so a short reply from older firmware leaves the fields it lacks as they
 * were instead of failing.
 */
module Firmware {
  import opened Bytes
  import opened ByteBuffer

  /** fw_params. `hw` is what get_string() returned; `uuid` holds the chars
      pushed into the std::string, each the bit pattern of one int8_t. */
  datatype FwParams = FwParams(
    major: byte, minor: byte, hw: Text, uuid: seq<byte>,
    isPaired: byte, isTestFW: byte, hwType: byte, customConfigNum: byte)

  /** The controller's `_fw{}`: every number zero, both strings empty. */
  const INITIAL_FW: FwParams := FwParams(0, 0, Chars([]), [], 0, 0, 0, 0)

  const UUID_BYTES: nat := 12

  /** r is b after reading forward: same array, the cursor moved on within
      the window, the logical end where it was. */
  predicate Consumes(b: Buffer, r: Buffer) {
    r.data == b.data && b.head <= r.head && r.head + r.len == b.head + b.len
  }

  /** A char pushed into a std::string from an int8_t keeps its bit pattern. */
  function CharOf(v: int): (c: byte)
    requires I8.Holds(v)
    ensures c == Encode(I8, v)[0]
  {
    if v < 0 then v + 256 else v
  }

  /** n `get<int8_t>()` calls, each pushed as a char. */
  function ReadChars(b: Buffer, n: nat): (r: Read<seq<byte>>)
    requires b.WellFormed() && n <= b.len
    ensures r.value == b.Window()[..n]
    ensures r.rest == Advance(b, n)
    decreases n
  {
    if n == 0 then Read([], b)
    else
      var x := GetInt(b, I8);
      GetIntConsumes(b, I8);
      var more := ReadChars(x.rest, n - 1);
      assert b.Window()[1..] == x.rest.Window();
      Read([CharOf(x.value)] + more.value, more.rest)
  }

  /** First guard (len > 2): major and minor as u8, then the hardware name
      by get_string(). */
  function HwStage(b: Buffer, out: FwParams): (r: Read<FwParams>)
    requires b.WellFormed()
    ensures r.rest.WellFormed() && Consumes(b, r.rest)
    ensures b.len <= 2 ==> r == Read(out, b)
    ensures b.len > 2 ==>
      var s := GetString(Advance(b, 2));
      && r.value == out.(major := b.Window()[0], minor := b.Window()[1], hw := s.value)
      && r.rest == s.rest
  {
    if b.len > 2 then
      var major := GetInt(b, U8);
      var minor := GetInt(major.rest, U8);
      var hw := GetString(minor.rest);
      Read(out.(major := major.value, minor := minor.value, hw := hw.value), hw.rest)
    else Read(out, b)
  }

  /** Second guard (len > 12): the uuid is cleared and refilled with 12 chars. */
  function UuidStage(b: Buffer, out: FwParams): (r: Read<FwParams>)
    requires b.WellFormed()
    ensures r.rest.WellFormed() && Consumes(b, r.rest)
    ensures b.len <= UUID_BYTES ==> r == Read(out, b)
    ensures b.len > UUID_BYTES ==>
      r.value == out.(uuid := b.Window()[..UUID_BYTES]) && r.rest == Advance(b, UUID_BYTES)
  {
    if b.len > UUID_BYTES then
      var u := ReadChars(b, UUID_BYTES);
      Read(out.(uuid := u.value), u.rest)
    else Read(out, b)
  }

  /** One trailing flag: a u8 read only while more than one byte is held. */
  function ReadFlag(b: Buffer, keep: byte): (r: Read<byte>)
    requires b.WellFormed()
    ensures b.len > 1 ==> r.value == b.Window()[0] && r.rest == Advance(b, 1)
    ensures b.len <= 1 ==> r == Read(keep, b)
  {
    if b.len > 1 then
      var x := GetInt(b, U8);
      Read(x.value, x.rest)
    else Read(keep, b)
  }

  /** The four trailing flags, each behind its own `len > 1` guard: the
      k-th is read exactly when the window holds more than k bytes, so at
      most four bytes are consumed and a last held byte never is. */
  function FlagsStage(b: Buffer, out: FwParams): (r: Read<FwParams>)
    requires b.WellFormed()
    ensures r.rest.WellFormed() && Consumes(b, r.rest)
    ensures r.rest.len == if b.len <= 1 then b.len else if b.len >= 5 then b.len - 4 else 1
    ensures r.value.major == out.major && r.value.minor == out.minor
    ensures r.value.hw == out.hw && r.value.uuid == out.uuid
    ensures r.value.isPaired == if b.len > 1 then b.Window()[0] else out.isPaired
    ensures r.value.isTestFW == if b.len > 2 then b.Window()[1] else out.isTestFW
    ensures r.value.hwType == if b.len > 3 then b.Window()[2] else out.hwType
    ensures r.value.customConfigNum == if b.len > 4 then b.Window()[3] else out.customConfigNum
  {
    var paired := ReadFlag(b, out.isPaired);
    var test := ReadFlag(paired.rest, out.isTestFW);
    var hwType := ReadFlag(test.rest, out.hwType);
    var custom := ReadFlag(hwType.rest, out.customConfigNum);
    Read(out.(isPaired := paired.value, isTestFW := test.value,
              hwType := hwType.value, customConfigNum := custom.value), custom.rest)
  }

  /** `handleFw(p, out)` on the payload window after the opcode. Every read
      is guarded, so it is defined on every window. */
  function HandleFw(b: Buffer, out: FwParams): (r: Read<FwParams>)
    requires b.WellFormed()
    ensures r.rest.WellFormed() && Consumes(b, r.rest)
    ensures r.rest.len <= b.len
    ensures b.len >= 1 ==> r.rest.len >= 1 || b.len > 2
  {
    var hw := HwStage(b, out);
    var uuid := UuidStage(hw.rest, hw.value);
    FlagsStage(uuid.rest, uuid.value)
  }

  // ---------------------------------------------------------------------
  // The reply the decoder expects, and what it makes of it

  /** A firmware description the reply format can carry: a name with no
      zero byte in it and a 12-byte uuid. */
  predicate Sendable(fw: FwParams) {
    fw.hw.Chars? && 0 !in fw.hw.bytes && |fw.uuid| == UUID_BYTES
  }

  /** The reply in the order handleFw reads it: major, minor, the
      zero-terminated name, the uuid, then the four flags. */
  function FwResponse(fw: FwParams): (s: seq<byte>)
    requires Sendable(fw)
    ensures |s| == |fw.hw.bytes| + 19
  {
    [fw.major, fw.minor] + fw.hw.bytes + [0] + fw.uuid + FlagBytes(fw)
  }

  /** The four flags as they close the reply. */
  function FlagBytes(fw: FwParams): seq<byte> {
    [fw.isPaired, fw.isTestFW, fw.hwType, fw.customConfigNum]
  }

  /** get_string() on a window that starts with a zero-terminated run
      returns that run and leaves what follows the terminator. */
  lemma GetStringOfTerminated(b: Buffer, s: seq<byte>, tail: seq<byte>)
    requires b.WellFormed() && 0 !in s && b.Window() == s + [0] + tail
    ensures GetString(b).value == Chars(s) && GetString(b).rest.Window() == tail
  {
    var w := b.Window();
    var g := GetString(b);
    assert w[|s|] == 0;
    var t := g.value.bytes;
    assert w == t + [0] + g.rest.Window();
    assert forall i :: 0 <= i < |s| ==> w[i] == s[i];
    assert forall i :: 0 <= i < |t| ==> w[i] == t[i];
    assert w[|s|] == 0 && w[|t|] == 0;
    assert |t| == |s|;
    assert t == w[..|t|] && s == w[..|s|];
    assert g.rest.Window() == w[|t| + 1..] && tail == w[|s| + 1..];
  }

  /** The name stage on a reply with anything after it. */
  lemma HwStageOfResponse(b: Buffer, out: FwParams, fw: FwParams, tail: seq<byte>)
    requires b.WellFormed() && Sendable(fw)
    requires b.Window() == FwResponse(fw) + tail
    ensures var r := HwStage(b, out);
      && r.value == out.(major := fw.major, minor := fw.minor, hw := fw.hw)
      && r.rest.Window() == fw.uuid + (FlagBytes(fw) + tail)
  {
    var w, name := b.Window(), fw.hw.bytes;
    var after := fw.uuid + (FlagBytes(fw) + tail);
    assert w == [fw.major, fw.minor] + (name + [0] + after);
    var c := Advance(b, 2);
    assert c.Window() == w[2..] == name + [0] + after;
    GetStringOfTerminated(c, name, after);
  }

  /** The uuid stage on what follows the name. */
  lemma UuidStageOfResponse(b: Buffer, out: FwParams, uuid: seq<byte>, after: seq<byte>)
    requires b.WellFormed() && |uuid| == UUID_BYTES && |after| >= 1
    requires b.Window() == uuid + after
    ensures var r := UuidStage(b, out);
      r.value == out.(uuid := uuid) && r.rest.Window() == after
  {
    var w := b.Window();
    assert w[..UUID_BYTES] == uuid;
    assert Advance(b, UUID_BYTES).Window() == w[UUID_BYTES..] == after;
  }

  /** The flag stage on the four flags with at least one byte after them. */
  lemma FlagsStageOfResponse(b: Buffer, out: FwParams, fw: FwParams, tail: seq<byte>)
    requires b.WellFormed() && |tail| >= 1
    requires b.Window() == FlagBytes(fw) + tail
    ensures var r := FlagsStage(b, out);
      && r.value == out.(isPaired := fw.isPaired, isTestFW := fw.isTestFW,
                         hwType := fw.hwType, customConfigNum := fw.customConfigNum)
      && r.rest.Window() == tail
  {
    var r := FlagsStage(b, out);
    assert b.Window()[..4] == FlagBytes(fw);
    assert r.rest.Window() == b.Window()[4..];
  }

  /** The flag stage on the four flags with nothing after them. */
  lemma FlagsStageOfLast(b: Buffer, out: FwParams, fw: FwParams)
    requires b.WellFormed() && b.Window() == FlagBytes(fw)
    ensures var r := FlagsStage(b, out);
      && r.value == out.(isPaired := fw.isPaired, isTestFW := fw.isTestFW, hwType := fw.hwType)
      && r.rest.Window() == [fw.customConfigNum]
  {
    var r := FlagsStage(b, out);
    assert r.rest.Window() == b.Window()[3..];
  }

  /** Decoding a whole reply followed by at least one more byte recovers
      every field of the description it was built from, whatever `out`
      held before, and leaves exactly the extra bytes. */
  lemma FwRoundTrip(b: Buffer, out: FwParams, fw: FwParams, tail: seq<byte>)
    requires b.WellFormed() && Sendable(fw) && |tail| >= 1
    requires b.Window() == FwResponse(fw) + tail
    ensures HandleFw(b, out).value == fw
    ensures HandleFw(b, out).rest.Window() == tail
  {
    var hw := HwStage(b, out);
    HwStageOfResponse(b, out, fw, tail);
    var uuid := UuidStage(hw.rest, hw.value);
    UuidStageOfResponse(hw.rest, hw.value, fw.uuid, FlagBytes(fw) + tail);
    FlagsStageOfResponse(uuid.rest, uuid.value, fw, tail);
  }

  /** With nothing after the reply the last flag is the lone final byte and
      is not read: customConfigNum keeps its previous value and that byte
      stays in the window. */
  lemma FwLastFlagUnread(b: Buffer, out: FwParams, fw: FwParams)
    requires b.WellFormed() && Sendable(fw)
    requires b.Window() == FwResponse(fw)
    ensures HandleFw(b, out).value == fw.(customConfigNum := out.customConfigNum)
    ensures HandleFw(b, out).rest.Window() == [fw.customConfigNum]
  {
    assert b.Window() == FwResponse(fw) + [];
    var hw := HwStage(b, out);
    HwStageOfResponse(b, out, fw, []);
    var uuid := UuidStage(hw.rest, hw.value);
    assert FlagBytes(fw) + [] == FlagBytes(fw);
    UuidStageOfResponse(hw.rest, hw.value, fw.uuid, FlagBytes(fw));
    FlagsStageOfLast(uuid.rest, uuid.value, fw);
  }

  /** A reply of at most two bytes changes nothing but isPaired, which
      takes the first byte when there are two. */
  lemma FwShortResponse(b: Buffer, out: FwParams)
    requires b.WellFormed() && b.len <= 2
    ensures HandleFw(b, out).value ==
      if b.len == 2 then out.(isPaired := b.Window()[0]) else out
  {
  }

  /** A hardware name whose terminator lies just past the reply: the
      corrected stage records the placeholder, while the source's get_string
      would return "A" from the zero beyond the window. */
  lemma HwStageUnterminated(out: FwParams)
    ensures var b := Buffer([5, 2, 0x41, 0x00], 0, 3);
      && HwStage(b, out).value.hw == Unknown(2)
      && GetStringAsWritten(Advance(b, 2)).value == Chars([0x41])
  {
    var b := Buffer([5, 2, 0x41, 0x00], 0, 3);
    var a := Advance(b, 2);
    assert a == Buffer([5, 2, 0x41, 0x00], 2, 1);
    assert a.Window() == [0x41];
    assert GetString(a).value == Unknown(2);
    assert FindZero(a.data, 2) == 3 by {
      assert a.data[2] != 0 && a.data[3] == 0;
    }
    assert a.data[2..3] == [0x41];
  }
}
