/**
 * vesc::packet: framing of a payload as
 *   [0x02 | 0x03] [length: u8 | u16] [payload] [crc16: u16] [0x03]
 * and validation of a received byte run against that framing. The packet
 * owns a buffer<PACKET_MAX_LEN>; construct appends a frame to it and
 * validate consumes from it, leaving the payload window behind on success.
 */
module Packet {
  import opened Wrappers
  import opened Bytes
  import opened ByteBuffer

  datatype ValidateResult = Valid | Incomplete | BadStart | InvalidCrc | BadEnd

  /** What `validate()` returns, with the packet's buffer as it leaves it. */
  datatype Validation = Validation(result: ValidateResult, rest: Buffer)

  const SHORT_START: byte := 2
  const LONG_START: byte := 3
  const END_BYTE: byte := 3
  /** crc_end_bytes: the CRC and the end marker after the payload. */
  const CRC_END_BYTES: nat := 3

  predicate IsStart(x: byte) {
    x == SHORT_START || x == LONG_START
  }

  /** Payload lengths above this take the long marker in construct as
      written (`mlen > 256`), so 256 itself gets a one-byte length field. */
  const LONG_ABOVE_AS_WRITTEN: nat := 256
  /** The threshold under which every length fits its field (see Findings in
      the README); the rest of the model frames with it. */
  const LONG_ABOVE: nat := 255

  /** Bytes before the payload: the marker and a 1- or 2-byte length. The
      marker value equals this count, which validate relies on. */
  function HeaderSize(n: nat, longAbove: nat): nat {
    if n > longAbove then 3 else 2
  }

  function FrameSize(n: nat, longAbove: nat): nat {
    HeaderSize(n, longAbove) + n + CRC_END_BYTES
  }

  /** The marker and the length field for an n-byte payload; the length is
      `mlen` converted to the field's unsigned type. */
  function Header(n: nat, longAbove: nat): (h: seq<byte>)
    ensures |h| == HeaderSize(n, longAbove) && h[0] == HeaderSize(n, longAbove)
  {
    if n > longAbove then [LONG_START] + Encode(U16, n % 0x1_0000)
    else [SHORT_START] + Encode(U8, n % 0x100)
  }

  /** A frame with an arbitrary CRC field and end byte (to state what
      validate makes of damaged frames). */
  function Framed(payload: seq<byte>, sent: u16, end: byte, longAbove: nat): (f: seq<byte>)
    ensures |f| == FrameSize(|payload|, longAbove)
  {
    Header(|payload|, longAbove) + payload + Encode(U16, sent) + [end]
  }

  /** The frame construct writes for a payload: its own checksum and the end marker. */
  function Frame(payload: seq<byte>, crc: Crc16, longAbove: nat): (f: seq<byte>)
    ensures |f| == FrameSize(|payload|, longAbove)
  {
    Framed(payload, crc(payload), END_BYTE, longAbove)
  }

  lemma EncodeU8(v: byte)
    ensures Encode(U8, v) == [v]
  {
  }

  lemma ConcatAssoc4<T>(a: seq<T>, b: seq<T>, c: seq<T>, d: seq<T>, e: seq<T>)
    ensures a + b + c + d + e == a + (b + c + d + e)
  {
  }

  /** The first two appends of construct: the marker, then the length. */
  function AppendHeader(b: Buffer, mlen: nat, longAbove: nat): (r: Buffer)
    requires b.WellFormed() && b.head + b.len + HeaderSize(mlen, longAbove) <= |b.data|
    ensures r.WellFormed() && r.head == b.head && |r.data| == |b.data|
    ensures r.Window() == b.Window() + Header(mlen, longAbove)
  {
    var long := mlen > longAbove;
    var start := if long then LONG_START else SHORT_START;
    var field := if long then Encode(U16, mlen % 0x1_0000) else Encode(U8, mlen % 0x100);
    var b1 := AppendInt(b, U8, start);
    var r := if long then AppendInt(b1, U16, mlen % 0x1_0000) else AppendInt(b1, U8, mlen % 0x100);
    assert r.Window() == b.Window() + Header(mlen, longAbove) by {
      EncodeU8(start);
      ConcatAssoc(b.Window(), [start], field);
    }
    r
  }

  /** The last two appends of construct: the CRC, then the end marker. */
  function AppendTrailer(b: Buffer, sum: u16): (r: Buffer)
    requires b.WellFormed() && b.head + b.len + CRC_END_BYTES <= |b.data|
    ensures r.WellFormed() && r.head == b.head && |r.data| == |b.data|
    ensures r.Window() == b.Window() + Encode(U16, sum) + [END_BYTE]
  {
    EncodeU8(END_BYTE);
    AppendInt(AppendInt(b, U16, sum), U8, END_BYTE)
  }

  /** `construct(buffer)` with the long marker for lengths above `longAbove`:
      appends marker and length, copies the payload window, appends the
      payload's crc() and the end marker. The packet's buffer must have room
      for all of it. */
  function ConstructWith(b: Buffer, payload: Buffer, crc: Crc16, longAbove: nat): (r: Buffer)
    requires b.WellFormed() && payload.WellFormed()
    requires b.head + b.len + FrameSize(payload.len, longAbove) <= |b.data|
    ensures r.WellFormed() && r.head == b.head && |r.data| == |b.data|
    ensures r.Window() == b.Window() + Frame(payload.Window(), crc, longAbove)
  {
    var p := payload.Window();
    var w := b.Window();
    var b2 := AppendBytes(AppendHeader(b, payload.len, longAbove), p);
    var sum := Crc(payload, crc);
    var r := AppendTrailer(b2, sum);
    ConcatAssoc4(w, Header(|p|, longAbove), p, Encode(U16, sum), [END_BYTE]);
    r
  }

  /** `construct` as written: a 256-byte payload gets the short marker. */
  function ConstructAsWritten(b: Buffer, payload: Buffer, crc: Crc16): (r: Buffer)
    requires b.WellFormed() && payload.WellFormed()
    requires b.head + b.len + FrameSize(payload.len, LONG_ABOVE_AS_WRITTEN) <= |b.data|
    ensures r.WellFormed() && r.head == b.head
    ensures r.Window() == b.Window() + Frame(payload.Window(), crc, LONG_ABOVE_AS_WRITTEN)
  {
    ConstructWith(b, payload, crc, LONG_ABOVE_AS_WRITTEN)
  }

  /** `construct` with every length in a field that holds it. */
  function Construct(b: Buffer, payload: Buffer, crc: Crc16): (r: Buffer)
    requires b.WellFormed() && payload.WellFormed()
    requires b.head + b.len + FrameSize(payload.len, LONG_ABOVE) <= |b.data|
    ensures r.WellFormed() && r.head == b.head
    ensures r.Window() == b.Window() + Frame(payload.Window(), crc, LONG_ABOVE)
  {
    ConstructWith(b, payload, crc, LONG_ABOVE)
  }

  /** The two framings differ only at a 256-byte payload. */
  lemma FramingsAgree(p: seq<byte>, crc: Crc16)
    requires |p| != 256
    ensures Frame(p, crc, LONG_ABOVE) == Frame(p, crc, LONG_ABOVE_AS_WRITTEN)
  {
  }

  // ---------------------------------------------------------------------
  // validate()

  /** The type of the length field after a start marker. */
  function LengthField(start: byte): IntType {
    if start == SHORT_START then U8 else U16
  }

  /** `validate()`, with the marker and the length field read only when the
      buffer holds them (see Findings in the README; ValidateAsWritten is the
      source's unguarded reading). The frame must be held whole, else
      INCOMPLETE with the cursor reloaded; on BAD_START one byte has been
      consumed. */
  function Validate(b: Buffer, crc: Crc16): (r: Validation)
    requires b.WellFormed()
    ensures r.rest.WellFormed() && r.rest.data == b.data
    ensures r.result == BadStart <==> b.len >= 1 && !IsStart(b.data[b.head])
    ensures r.result == BadStart ==> r.rest.head == b.head + 1 && r.rest.len == b.len - 1
    ensures r.result == Incomplete ==> r.rest.head == 0
    ensures b.len == 0 ==> r.result == Incomplete && r.rest == Reload(b)
  {
    if b.len == 0 then Validation(Incomplete, Reload(b))
    else
      var s := GetInt(b, U8);
      assert s.value == b.data[b.head] by { DecodeU8(b.data[b.head..b.head + 1]); }
      if !IsStart(s.value) then Validation(BadStart, s.rest)
      else CheckLength(s.rest, s.value, crc)
  }

  /** The length field after a valid marker, and the check that the whole
      frame it announces is held. */
  function CheckLength(b: Buffer, start: byte, crc: Crc16): (r: Validation)
    requires b.WellFormed() && IsStart(start) && 1 <= b.head
    ensures r.rest.WellFormed() && r.rest.data == b.data
    ensures r.result != BadStart
    ensures r.result == Incomplete ==> r.rest.head == 0
    ensures b.len < start - 1 ==> r.result == Incomplete && r.rest == Reload(b)
  {
    if b.len < start - 1 then Validation(Incomplete, Reload(b))
    else
      var m := GetInt(b, LengthField(start));
      if m.rest.len < m.value + CRC_END_BYTES then Validation(Incomplete, Reload(m.rest))
      else CheckCrc(m.rest, start, m.value, crc)
  }

  /** The CRC comparison of `validate()` on a buffer holding the whole frame:
      the CRC field is compared with the checksum of the physical indices
      [start, start + mlen) of the array (`_buffer + start`), which is the
      payload only when the frame sits at index 0. INVALID_CRC leaves the
      cursor after the CRC field. */
  function CheckCrc(b: Buffer, start: byte, mlen: nat, crc: Crc16): (r: Validation)
    requires b.WellFormed() && IsStart(start) && start <= b.head
    requires b.len >= mlen + CRC_END_BYTES
    ensures r.rest.WellFormed() && r.rest.data == b.data
    ensures
      var sent := Word(b.data, b.head + mlen);
      var computed := Checksum(b.data, start, mlen, crc);
      var end := b.data[b.head + mlen + 2];
      && (r.result == InvalidCrc <==> sent != computed)
      && (r.result == BadEnd <==> sent == computed && end != END_BYTE)
      && (r.result == Valid <==> sent == computed && end == END_BYTE)
      && (r.result == InvalidCrc ==> r.rest.head == b.head + mlen + 2 && r.rest.len == b.len - mlen - 2)
      && (r.result == BadEnd ==> r.rest.head == b.head + mlen + 3 && r.rest.len == b.len - mlen - 3)
      && (r.result == Valid ==> r.rest.head == start && r.rest.len == b.head + b.len - start - CRC_END_BYTES)
  {
    var computed := crc(b.data[start..start + mlen]);
    var b3 := Advance(b, mlen);
    var c := GetInt(b3, U16);
    assert c.value == Word(b.data, b.head + mlen) by { GetUnsigned(b3, U16); WordIsBE(b.data, b.head + mlen); }
    if c.value == computed then CheckEnd(c.rest, start)
    else Validation(InvalidCrc, c.rest)
  }

  /** The last byte of `validate()`: VALID when it is the end marker, after
      which the cursor is reloaded, advanced past the header and the window
      trimmed of the CRC and end bytes; BAD_END otherwise. */
  function CheckEnd(b: Buffer, start: byte): (r: Validation)
    requires b.WellFormed() && b.len >= 1 && start + 2 <= b.head
    ensures r.rest.WellFormed() && r.rest.data == b.data
    ensures r.result == Valid <==> b.data[b.head] == END_BYTE
    ensures r.result == BadEnd <==> b.data[b.head] != END_BYTE
    ensures r.result == BadEnd ==> r.rest.head == b.head + 1 && r.rest.len == b.len - 1
    ensures r.result == Valid ==>
      r.rest.head == start && r.rest.len == b.head + b.len - start - CRC_END_BYTES
  {
    var e := GetInt(b, U8);
    assert e.value == b.data[b.head] by { DecodeU8(b.data[b.head..b.head + 1]); }
    if e.value == END_BYTE then
      Validation(Valid, Truncate(Advance(Reload(e.rest), start), CRC_END_BYTES))
    else Validation(BadEnd, e.rest)
  }

  /** The big-endian 16-bit word at index i of the array. */
  function Word(d: seq<byte>, i: nat): nat
    requires i + 2 <= |d|
  {
    var high: nat := d[i];
    high * 256 + d[i + 1]
  }

  lemma WordIsBE(d: seq<byte>, i: nat)
    requires i + 2 <= |d|
    ensures Word(d, i) == FromBE(d[i..i + 2])
  {
    var s := d[i..i + 2];
    assert s[..1][..0] == [];
  }

  /** crc16(_buffer + start, n): the checksum of the physical indices [start, start + n). */
  function Checksum(d: seq<byte>, start: nat, n: nat, crc: Crc16): u16
    requires start + n <= |d|
  {
    crc(d[start..start + n])
  }

  // The bytes validate() looks at, by physical index, for a buffer whose
  // marker is valid and whose length field is held.

  predicate HeaderHeld(b: Buffer)
    requires b.WellFormed()
  {
    b.len >= 1 && IsStart(b.data[b.head]) && b.len >= b.data[b.head]
  }

  /** The payload length the header announces. */
  function DeclaredLength(b: Buffer): nat
    requires b.WellFormed() && HeaderHeld(b)
  {
    if b.data[b.head] == SHORT_START then b.data[b.head + 1]
    else Word(b.data, b.head + 1)
  }

  /** The buffer holds the whole announced frame. */
  predicate FrameHeld(b: Buffer)
    requires b.WellFormed()
  {
    HeaderHeld(b) && b.len - b.data[b.head] >= DeclaredLength(b) + CRC_END_BYTES
  }

  /** Index of the CRC field. */
  function CrcAt(b: Buffer): nat
    requires b.WellFormed() && FrameHeld(b)
  {
    b.head + b.data[b.head] + DeclaredLength(b)
  }

  function SentCrc(b: Buffer): nat
    requires b.WellFormed() && FrameHeld(b)
  {
    Word(b.data, CrcAt(b))
  }

  /** crc16(_buffer + start, mlen): the physical bytes [start, start + mlen). */
  function CheckedCrc(b: Buffer, crc: Crc16): u16
    requires b.WellFormed() && FrameHeld(b)
  {
    Checksum(b.data, b.data[b.head], DeclaredLength(b), crc)
  }

  function EndAt(b: Buffer): byte
    requires b.WellFormed() && FrameHeld(b)
  {
    b.data[CrcAt(b) + 2]
  }

  lemma DecodeU8(s: seq<byte>)
    requires |s| == 1
    ensures Decode(U8, s) == s[0]
  {
    assert s[..0] == [];
  }

  /** The header: the marker and then the length field that follows it. */
  lemma ValidateHeader(b: Buffer)
    requires b.WellFormed() && b.len >= 1
    ensures GetInt(b, U8).value == b.data[b.head]
    ensures HeaderHeld(b) ==>
      var s := GetInt(b, U8);
      GetInt(s.rest, LengthField(s.value)).value == DeclaredLength(b)
  {
    DecodeU8(b.data[b.head..b.head + 1]);
    if HeaderHeld(b) {
      var s := GetInt(b, U8);
      GetUnsigned(s.rest, LengthField(s.value));
      if s.value == SHORT_START {
        DecodeU8(b.data[b.head + 1..b.head + 2]);
      } else {
        WordIsBE(b.data, b.head + 1);
      }
    }
  }

  /** Without a whole frame behind a valid marker, validate() stops at the
      header: BAD_START after one byte, or INCOMPLETE with the cursor reloaded. */
  lemma ValidateUnheld(b: Buffer, crc: Crc16)
    requires b.WellFormed() && !FrameHeld(b)
    ensures var v := Validate(b, crc);
      if b.len >= 1 && !IsStart(b.data[b.head]) then
        v.result == BadStart && v.rest.head == b.head + 1 && v.rest.len == b.len - 1
      else
        v.result == Incomplete && v.rest.head == 0 && v.rest.len == b.head + b.len
  {
    if b.len >= 1 {
      ValidateHeader(b);
    }
  }

  /** After a valid marker, validate() goes on to the length field. */
  lemma ValidateMarker(b: Buffer, crc: Crc16)
    requires b.WellFormed() && b.len >= 1 && IsStart(b.data[b.head])
    ensures Validate(b, crc) == CheckLength(Buffer(b.data, b.head + 1, b.len - 1), b.data[b.head], crc)
  {
    var g := GetInt(b, U8);
    assert Validate(b, crc) == CheckLength(g.rest, g.value, crc);
    ValidateHeader(b);
    assert g.rest == Buffer(b.data, b.head + 1, b.len - 1);
  }

  /** The length field read after the marker of a held frame. */
  lemma LengthRead(b: Buffer)
    requires b.WellFormed() && FrameHeld(b)
    ensures var k := b.data[b.head];
      var m := GetInt(Buffer(b.data, b.head + 1, b.len - 1), LengthField(k));
      m.rest == Buffer(b.data, b.head + k, b.len - k) && m.value == DeclaredLength(b)
  {
    var k := b.data[b.head];
    var s := Buffer(b.data, b.head + 1, b.len - 1);
    ValidateHeader(b);
    assert GetInt(b, U8).rest == s;
  }

  /** With a whole frame held, validate() reads marker and length and hands
      the rest to the CRC comparison. */
  lemma ValidateHeldStages(b: Buffer, crc: Crc16)
    requires b.WellFormed() && FrameHeld(b)
    ensures var k := b.data[b.head];
      Validate(b, crc) == CheckCrc(Buffer(b.data, b.head + k, b.len - k), k, DeclaredLength(b), crc)
  {
    ValidateMarker(b, crc);
    LengthRead(b);
  }

  /** The CRC comparison on the rest of a held frame, by physical index. */
  lemma CheckCrcHeld(b: Buffer, crc: Crc16)
    requires b.WellFormed() && FrameHeld(b)
    ensures var k := b.data[b.head];
      var v := CheckCrc(Buffer(b.data, b.head + k, b.len - k), k, DeclaredLength(b), crc);
      && (v.result == InvalidCrc <==> SentCrc(b) != CheckedCrc(b, crc))
      && (v.result == BadEnd <==> SentCrc(b) == CheckedCrc(b, crc) && EndAt(b) != END_BYTE)
      && (v.result == Valid <==> SentCrc(b) == CheckedCrc(b, crc) && EndAt(b) == END_BYTE)
      && (v.result == InvalidCrc ==>
            v.rest.head == CrcAt(b) + 2 && v.rest.head + v.rest.len == b.head + b.len)
      && (v.result == BadEnd ==>
            v.rest.head == CrcAt(b) + 3 && v.rest.head + v.rest.len == b.head + b.len)
      && (v.result == Valid ==>
            v.rest.head == k && v.rest.len == b.head + b.len - k - CRC_END_BYTES)
  {
    var k, n := b.data[b.head], DeclaredLength(b);
    var r := Buffer(b.data, b.head + k, b.len - k);
    var c := CrcAt(b);
    assert r.head + n == c;
    assert Word(r.data, c) == SentCrc(b);
    assert Checksum(r.data, k, n, crc) == CheckedCrc(b, crc);
    assert r.data[c + 2] == EndAt(b);
  }

  /** validate() on a held frame, by physical index: the outcome and where
      each leaves the cursor. */
  lemma ValidateHeldOutcome(b: Buffer, crc: Crc16)
    requires b.WellFormed() && FrameHeld(b)
    ensures var v := Validate(b, crc);
      && (v.result == InvalidCrc <==> SentCrc(b) != CheckedCrc(b, crc))
      && (v.result == BadEnd <==> SentCrc(b) == CheckedCrc(b, crc) && EndAt(b) != END_BYTE)
      && (v.result == Valid <==> SentCrc(b) == CheckedCrc(b, crc) && EndAt(b) == END_BYTE)
      && (v.result == InvalidCrc ==>
            v.rest.head == CrcAt(b) + 2 && v.rest.head + v.rest.len == b.head + b.len)
      && (v.result == BadEnd ==>
            v.rest.head == CrcAt(b) + 3 && v.rest.head + v.rest.len == b.head + b.len)
      && (v.result == Valid ==>
            v.rest.head == b.data[b.head]
            && v.rest.len == b.head + b.len - b.data[b.head] - CRC_END_BYTES)
  {
    ValidateHeldStages(b, crc);
    CheckCrcHeld(b, crc);
  }

  /** validate() sorts every byte run into exactly one of its five outcomes,
      decided by the marker, how much is held, the CRC field against the
      checksum of [start, start + mlen), and the end byte. */
  lemma ValidateClassifies(b: Buffer, crc: Crc16)
    requires b.WellFormed()
    ensures var r := Validate(b, crc).result;
      && (r == BadStart <==> b.len >= 1 && !IsStart(b.data[b.head]))
      && (r == Incomplete <==>
            b.len == 0 || (IsStart(b.data[b.head]) && !FrameHeld(b)))
      && (r == InvalidCrc <==> FrameHeld(b) && SentCrc(b) != CheckedCrc(b, crc))
      && (r == BadEnd <==>
            FrameHeld(b) && SentCrc(b) == CheckedCrc(b, crc) && EndAt(b) != END_BYTE)
      && (r == Valid <==>
            FrameHeld(b) && SentCrc(b) == CheckedCrc(b, crc) && EndAt(b) == END_BYTE)
  {
    if FrameHeld(b) {
      ValidateHeldOutcome(b, crc);
    } else {
      ValidateUnheld(b, crc);
    }
  }

  /** validate() restated by physical index, as a reference: BAD_START
      after one byte, INCOMPLETE with the cursor reloaded while the frame is
      not held, then the CRC field against the checksum of [start, start +
      mlen), then the end byte. */
  function ValidateByIndex(b: Buffer, crc: Crc16): Validation
    requires b.WellFormed()
  {
    var d, end := b.data, b.head + b.len;
    if b.len >= 1 && !IsStart(d[b.head]) then Validation(BadStart, Buffer(d, b.head + 1, b.len - 1))
    else if !FrameHeld(b) then Validation(Incomplete, Buffer(d, 0, end))
    else
      var c := CrcAt(b);
      if SentCrc(b) != CheckedCrc(b, crc) then Validation(InvalidCrc, Buffer(d, c + 2, end - c - 2))
      else if EndAt(b) != END_BYTE then Validation(BadEnd, Buffer(d, c + 3, end - c - 3))
      else Validation(Valid, Buffer(d, d[b.head], end - d[b.head] - CRC_END_BYTES))
  }

  /** The buffer-operation reading of validate() and the physical-index
      reference agree on every buffer. */
  lemma ValidateMatchesIndex(b: Buffer, crc: Crc16)
    requires b.WellFormed()
    ensures Validate(b, crc) == ValidateByIndex(b, crc)
  {
    var v := Validate(b, crc);
    if FrameHeld(b) {
      ValidateHeldOutcome(b, crc);
    } else {
      ValidateUnheld(b, crc);
    }
    assert v.rest == Buffer(b.data, v.rest.head, v.rest.len);
  }

  /** A frame at index 0 with nothing after it leaves exactly its payload in
      the window when it validates. */
  lemma ValidWindowIsPayload(b: Buffer, crc: Crc16)
    requires b.WellFormed() && b.head == 0 && FrameHeld(b)
    requires Validate(b, crc).result == Valid
    requires b.len == b.data[0] + DeclaredLength(b) + CRC_END_BYTES
    ensures Validate(b, crc).rest.Window() == b.data[b.data[0]..b.data[0] + DeclaredLength(b)]
  {
    ValidateHeldOutcome(b, crc);
  }

  // ---------------------------------------------------------------------
  // validate() on constructed frames

  /** A length field holds the payload length when it is in range. */
  lemma LengthFieldHolds(n: nat, longAbove: nat)
    requires n < 0x1_0000 && (n <= longAbove ==> n < 0x100)
    ensures var h := Header(n, longAbove);
      FromBE(h[1..]) == n && h[0] == HeaderSize(n, longAbove)
  {
    var h := Header(n, longAbove);
    if n > longAbove {
      assert h[1..] == ToBE(n, 2);
      FromToBE(n, 2);
    } else {
      assert h[1..] == ToBE(n, 1);
      FromToBE(n, 1);
    }
  }

  /** Each part of a four-part concatenation is the slice at its offset. */
  lemma Parts(a: seq<byte>, b: seq<byte>, c: seq<byte>, d: seq<byte>)
    ensures var f, i, j := a + b + c + d, |a|, |a| + |b|;
      f[..i] == a && f[i..j] == b && f[j..j + |c|] == c && f[j + |c|..] == d
  {
  }

  /** Where the parts of a frame sit. */
  lemma FramedLayout(p: seq<byte>, sent: u16, end: byte, longAbove: nat)
    ensures var f, k, n := Framed(p, sent, end, longAbove), HeaderSize(|p|, longAbove), |p|;
      && f[..k] == Header(n, longAbove)
      && f[k..k + n] == p
      && FromBE(f[k + n..k + n + 2]) == sent
      && f[k + n + 2] == end
  {
    var h, e := Header(|p|, longAbove), Encode(U16, sent);
    Parts(h, p, e, [end]);
    FromToBE(sent, 2);
  }

  /** A slice of an array prefix is the same slice of the prefix. */
  lemma PrefixSlice(d: seq<byte>, f: seq<byte>, i: nat, j: nat)
    requires |f| <= |d| && d[..|f|] == f && i <= j <= |f|
    ensures d[i..j] == f[i..j]
  {
    assert forall x :: i <= x < j ==> d[i..j][x - i] == d[..|f|][x];
  }

  lemma WindowAtZero(b: Buffer)
    requires b.WellFormed() && b.head == 0
    ensures b.data[..b.len] == b.Window()
  {
  }

  /** validate()'s view of the header of a frame at index 0. */
  lemma HeaderSeen(b: Buffer, n: nat, longAbove: nat)
    requires b.WellFormed() && b.head == 0
    requires n < 0x1_0000 && (n <= longAbove ==> n < 0x100)
    requires HeaderSize(n, longAbove) <= b.len
    requires b.data[..HeaderSize(n, longAbove)] == Header(n, longAbove)
    ensures HeaderHeld(b) && b.data[0] == HeaderSize(n, longAbove)
    ensures DeclaredLength(b) == n
  {
    var h, k := Header(n, longAbove), HeaderSize(n, longAbove);
    LengthFieldHolds(n, longAbove);
    assert b.data[0] == h[0];
    PrefixSlice(b.data, h, 1, k);
    if k == 3 {
      WordIsBE(b.data, 1);
    }
  }

  /** What the physical-index view of validate() sees in a buffer whose
      array starts with a frame. */
  lemma FrameSeen(b: Buffer, p: seq<byte>, sent: u16, end: byte, longAbove: nat, crc: Crc16)
    requires b.WellFormed() && b.head == 0
    requires |p| < 0x1_0000 && (|p| <= longAbove ==> |p| < 0x100)
    requires FrameSize(|p|, longAbove) <= b.len
    requires b.data[..FrameSize(|p|, longAbove)] == Framed(p, sent, end, longAbove)
    ensures FrameHeld(b) && b.data[0] == HeaderSize(|p|, longAbove)
    ensures DeclaredLength(b) == |p| && CrcAt(b) == HeaderSize(|p|, longAbove) + |p|
    ensures SentCrc(b) == sent && CheckedCrc(b, crc) == crc(p) && EndAt(b) == end
  {
    var f := Framed(p, sent, end, longAbove);
    FramedLayout(p, sent, end, longAbove);
    PartsSeen(b, f, p, sent, end, longAbove, crc);
  }

  /** FrameSeen for any byte run laid out as a frame. */
  lemma PartsSeen(b: Buffer, f: seq<byte>, p: seq<byte>, sent: u16, end: byte, longAbove: nat, crc: Crc16)
    requires b.WellFormed() && b.head == 0
    requires |p| < 0x1_0000 && (|p| <= longAbove ==> |p| < 0x100)
    requires |f| == FrameSize(|p|, longAbove) <= b.len && b.data[..|f|] == f
    requires var k, n := HeaderSize(|p|, longAbove), |p|;
      && f[..k] == Header(n, longAbove) && f[k..k + n] == p
      && FromBE(f[k + n..k + n + 2]) == sent && f[k + n + 2] == end
    ensures FrameHeld(b) && b.data[0] == HeaderSize(|p|, longAbove)
    ensures DeclaredLength(b) == |p| && CrcAt(b) == HeaderSize(|p|, longAbove) + |p|
    ensures SentCrc(b) == sent && CheckedCrc(b, crc) == crc(p) && EndAt(b) == end
  {
    var k, n := HeaderSize(|p|, longAbove), |p|;
    PrefixSlice(b.data, f, 0, k);
    HeaderSeen(b, n, longAbove);
    assert CrcAt(b) == k + n;
    PrefixSlice(b.data, f, k, k + n);
    PrefixSlice(b.data, f, k + n, k + n + 2);
    WordIsBE(b.data, k + n);
    assert b.data[k + n + 2] == b.data[..|f|][k + n + 2];
  }

  /** validate() on a buffer whose array starts with a frame carrying an
      arbitrary CRC field and end byte, with anything after it: the CRC
      field decides INVALID_CRC, then the end byte decides BAD_END against
      VALID; a VALID window starts after the header and ends three bytes
      short of the buffer's end. */
  lemma ValidateFramed(b: Buffer, p: seq<byte>, sent: u16, end: byte, longAbove: nat, crc: Crc16)
    requires b.WellFormed() && b.head == 0
    requires |p| < 0x1_0000 && (|p| <= longAbove ==> |p| < 0x100)
    requires FrameSize(|p|, longAbove) <= b.len
    requires b.data[..FrameSize(|p|, longAbove)] == Framed(p, sent, end, longAbove)
    ensures var v := Validate(b, crc);
      && (v.result == InvalidCrc <==> sent != crc(p))
      && (v.result == BadEnd <==> sent == crc(p) && end != END_BYTE)
      && (v.result == Valid <==> sent == crc(p) && end == END_BYTE)
      && (v.result == Valid ==>
            v.rest.head == HeaderSize(|p|, longAbove)
            && v.rest.len == b.len - HeaderSize(|p|, longAbove) - CRC_END_BYTES
            && v.rest.Window() == b.data[HeaderSize(|p|, longAbove)..b.len - CRC_END_BYTES])
  {
    FrameSeen(b, p, sent, end, longAbove, crc);
    ValidateHeldOutcome(b, crc);
  }

  /** A buffer holding exactly one intact frame at index 0 validates and
      leaves exactly the payload in the window. */
  lemma ValidateFrame(b: Buffer, p: seq<byte>, longAbove: nat, crc: Crc16)
    requires b.WellFormed() && b.head == 0
    requires |p| < 0x1_0000 && (|p| <= longAbove ==> |p| < 0x100)
    requires b.Window() == Frame(p, crc, longAbove)
    ensures Validate(b, crc).result == Valid
    ensures Validate(b, crc).rest.Window() == p
  {
    var k, n := HeaderSize(|p|, longAbove), |p|;
    FramePayloadAt(b, p, longAbove, crc);
    ValidateFramed(b, p, crc(p), END_BYTE, longAbove, crc);
  }

  /** An intact frame in the window at index 0 puts its payload right after the header. */
  lemma FramePayloadAt(b: Buffer, p: seq<byte>, longAbove: nat, crc: Crc16)
    requires b.WellFormed() && b.head == 0
    requires b.Window() == Frame(p, crc, longAbove)
    ensures b.len == FrameSize(|p|, longAbove)
    ensures b.data[..b.len] == Framed(p, crc(p), END_BYTE, longAbove)
    ensures var k := HeaderSize(|p|, longAbove); b.data[k..k + |p|] == p
  {
    var f, k, n := Frame(p, crc, longAbove), HeaderSize(|p|, longAbove), |p|;
    WindowAtZero(b);
    FramedLayout(p, crc(p), END_BYTE, longAbove);
    PrefixSlice(b.data, f, k, k + n);
  }

  /** The round trip: a payload of up to PACKET_MAX_PL_LEN bytes framed by
      construct into an empty packet buffer at index 0 validates, and the
      window validate leaves is the payload. */
  lemma RoundTrip(b: Buffer, payload: Buffer, crc: Crc16)
    requires b.WellFormed() && b.head == 0 && b.len == 0 && payload.WellFormed()
    requires payload.len <= PACKET_MAX_PL_LEN && FrameSize(payload.len, LONG_ABOVE) <= |b.data|
    ensures var v := Validate(Construct(b, payload, crc), crc);
      v.result == Valid && v.rest.Window() == payload.Window()
  {
    var r := Construct(b, payload, crc);
    assert r.Window() == Frame(payload.Window(), crc, LONG_ABOVE);
    ValidateFrame(r, payload.Window(), LONG_ABOVE, crc);
  }

  /** The same round trip for construct as written, at every length but 256. */
  lemma RoundTripAsWritten(b: Buffer, payload: Buffer, crc: Crc16)
    requires b.WellFormed() && b.head == 0 && b.len == 0 && payload.WellFormed()
    requires payload.len <= PACKET_MAX_PL_LEN && payload.len != 256
    requires FrameSize(payload.len, LONG_ABOVE_AS_WRITTEN) <= |b.data|
    ensures var v := Validate(ConstructAsWritten(b, payload, crc), crc);
      v.result == Valid && v.rest.Window() == payload.Window()
  {
    var r := ConstructAsWritten(b, payload, crc);
    assert r.Window() == Frame(payload.Window(), crc, LONG_ABOVE_AS_WRITTEN);
    ValidateFrame(r, payload.Window(), LONG_ABOVE_AS_WRITTEN, crc);
  }

  /** The 256 boundary of construct as written: the short marker with
      length byte 0x00. validate() then reads an empty payload, takes the
      first two payload bytes for the CRC field and the third for the end
      marker, so the frame is accepted only when those bytes happen to
      match; when it is, the window still covers the 256 payload bytes. */
  lemma Boundary256(b: Buffer, p: seq<byte>, crc: Crc16)
    requires b.WellFormed() && b.head == 0 && |p| == 256
    requires b.Window() == Frame(p, crc, LONG_ABOVE_AS_WRITTEN)
    ensures Header(|p|, LONG_ABOVE_AS_WRITTEN) == [SHORT_START, 0]
    ensures var v := Validate(b, crc);
      && v.result != Incomplete && v.result != BadStart
      && (v.result == Valid <==> Word(p, 0) == crc([]) && p[2] == END_BYTE)
      && (v.result == Valid ==> v.rest.Window() == p)
  {
    var f := Frame(p, crc, LONG_ABOVE_AS_WRITTEN);
    var h := Header(|p|, LONG_ABOVE_AS_WRITTEN);
    assert h == [SHORT_START, 0];
    WindowAtZero(b);
    FramedLayout(p, crc(p), END_BYTE, LONG_ABOVE_AS_WRITTEN);
    PrefixSlice(b.data, f, 0, 2);
    HeaderSeen(b, 0, LONG_ABOVE_AS_WRITTEN);
    assert CrcAt(b) == 2;
    PrefixSlice(b.data, f, 2, 2 + |p|);
    assert SentCrc(b) == Word(p, 0);
    assert b.data[2..2] == [];
    assert CheckedCrc(b, crc) == crc([]);
    assert EndAt(b) == p[2];
    ValidateHeldOutcome(b, crc);
  }

  /** A 256-byte payload of zeros framed as written never validates,
      whatever the checksum function. */
  lemma Boundary256Zeros(b: Buffer, crc: Crc16)
    requires b.WellFormed() && b.head == 0
    requires b.Window() == Frame(seq(256, _ => 0), crc, LONG_ABOVE_AS_WRITTEN)
    ensures Validate(b, crc).result != Valid
  {
    Boundary256(b, seq(256, _ => 0), crc);
  }

  /** With the corrected threshold a 256-byte payload takes the long marker
      and round-trips like every other length. */
  lemma Boundary256Corrected(p: seq<byte>)
    requires |p| == 256
    ensures Header(|p|, LONG_ABOVE) == [LONG_START, 1, 0]
  {
    assert ToBE(256, 2) == [1, 0];
  }

  /** A proper prefix of a frame at index 0 starts with a start marker but
      does not hold the frame it announces. */
  lemma PrefixUnheld(b: Buffer, f: seq<byte>, n: nat, longAbove: nat)
    requires b.WellFormed() && b.head == 0
    requires n < 0x1_0000 && (n <= longAbove ==> n < 0x100)
    requires b.len < |f| == FrameSize(n, longAbove) && b.data[..b.len] == f[..b.len]
    requires f[..HeaderSize(n, longAbove)] == Header(n, longAbove)
    ensures !FrameHeld(b) && (b.len >= 1 ==> IsStart(b.data[0]))
  {
    var h, k := HeaderSize(n, longAbove), b.len;
    if k >= h {
      assert f[..k][..h] == f[..h];
      PrefixSlice(b.data, f[..k], 0, h);
      HeaderSeen(b, n, longAbove);
    } else if k >= 1 {
      assert b.data[0] == b.data[..k][0] == f[..h][0];
    }
  }

  /** A proper prefix of a frame at index 0 is INCOMPLETE, and reload()
      leaves the buffer as it was. */
  lemma PrefixIncomplete(b: Buffer, p: seq<byte>, crc: Crc16)
    requires b.WellFormed() && b.head == 0 && |p| <= PACKET_MAX_PL_LEN
    requires b.len < FrameSize(|p|, LONG_ABOVE)
    requires b.data[..b.len] == Frame(p, crc, LONG_ABOVE)[..b.len]
    ensures Validate(b, crc).result == Incomplete && Validate(b, crc).rest == b
  {
    FramedLayout(p, crc(p), END_BYTE, LONG_ABOVE);
    PrefixUnheld(b, Frame(p, crc, LONG_ABOVE), |p|, LONG_ABOVE);
    ValidateUnheld(b, crc);
  }

  /** A frame delivered in two parts: the first part alone is INCOMPLETE and
      reload() leaves it whole in the window, so appending the second part
      to the buffer validate() left behind yields the whole frame, which
      validates to its payload. */
  lemma SplitDelivery(b: Buffer, p: seq<byte>, k: nat, crc: Crc16)
    requires b.WellFormed() && b.head == 0 && |p| <= PACKET_MAX_PL_LEN
    requires k < FrameSize(|p|, LONG_ABOVE) <= |b.data|
    requires b.Window() == Frame(p, crc, LONG_ABOVE)[..k]
    ensures var v := Validate(b, crc);
      && v.result == Incomplete && v.rest == b
      && var r := AppendBytes(v.rest, Frame(p, crc, LONG_ABOVE)[k..]);
        Validate(r, crc).result == Valid && Validate(r, crc).rest.Window() == p
  {
    var f := Frame(p, crc, LONG_ABOVE);
    WindowAtZero(b);
    PrefixIncomplete(b, p, crc);
    var r := AppendBytes(b, f[k..]);
    assert r.Window() == f by {
      assert f == f[..k] + f[k..];
    }
    ValidateFrame(r, p, LONG_ABOVE, crc);
  }

  // ---------------------------------------------------------------------
  // validate() as written: marker and length read unguarded

  /** `validate()` as written, by physical index. The marker and the length
      field are read whether or not len covers them, and every `_len--` and
      `_len -= n` is a size_t operation that wraps below zero. The result is
      None when a read falls outside the array. */
  function ValidateAsWritten(b: Buffer, crc: Crc16): (r: Option<Validation>)
    requires b.WellFormed() && b.len < SIZE_MOD && |b.data| < SIZE_MOD
    ensures r.Some? ==> r.value.rest.data == b.data
  {
    var d := b.data;
    if b.head >= |d| then None
    else
      var start := d[b.head];
      var len1 := SizeSub(b.len, 1);
      if !IsStart(start) then Some(Validation(BadStart, Buffer(d, b.head + 1, len1)))
      else if b.head + start > |d| then None
      else
        var at, len2 := b.head + start, SizeSub(len1, start - 1);
        var mlen := if start == SHORT_START then d[b.head + 1] else Word(d, b.head + 1);
        if len2 < mlen + CRC_END_BYTES then
          Some(Validation(Incomplete, Buffer(d, 0, if at == |d| then |d| else SizeAdd(len2, at))))
        else if at + mlen + 2 > |d| then None
        else
          var len4 := SizeSub(SizeSub(len2, mlen), 2);
          if Word(d, at + mlen) != Checksum(d, start, mlen, crc) then
            Some(Validation(InvalidCrc, Buffer(d, at + mlen + 2, len4)))
          else if at + mlen + 3 > |d| then None
          else
            var e, len5 := at + mlen + 3, SizeSub(len4, 1);
            if d[at + mlen + 2] != END_BYTE then Some(Validation(BadEnd, Buffer(d, e, len5)))
            else
              // reload(), advance(start), truncate(crc_end_bytes)
              var reloaded := if e == |d| then |d| else SizeAdd(len5, e);
              var advanced := SizeSub(reloaded, start);
              Some(Validation(Valid, Buffer(d, start, if advanced > CRC_END_BYTES then advanced - CRC_END_BYTES else 0)))
  }

  /** When the buffer holds the marker and the length field, the unguarded
      reading and Validate agree on every byte run. */
  lemma ValidateAgrees(b: Buffer, crc: Crc16)
    requires b.WellFormed() && |b.data| < SIZE_MOD && b.len >= 1
    requires IsStart(b.data[b.head]) ==> HeaderHeld(b)
    ensures ValidateAsWritten(b, crc) == Some(Validate(b, crc))
  {
    if !IsStart(b.data[b.head]) {
      ValidateUnheld(b, crc);
    } else if FrameHeld(b) {
      ValidateAgreesHeld(b, crc);
    } else {
      ValidateUnheld(b, crc);
    }
  }

  lemma ValidateAgreesHeld(b: Buffer, crc: Crc16)
    requires b.WellFormed() && |b.data| < SIZE_MOD && FrameHeld(b)
    ensures ValidateAsWritten(b, crc) == Some(Validate(b, crc))
  {
    var d, k, n := b.data, b.data[b.head], DeclaredLength(b);
    var c := CrcAt(b);
    assert c == b.head + k + n && c + 3 <= b.head + b.len;
    assert ValidateAsWritten(b, crc) == Some(ValidateByIndex(b, crc));
    ValidateMatchesIndex(b, crc);
  }

  /** A buffer holding only the short marker: Validate waits for more, while
      the source reads the stale length byte after it, wraps len to nearly
      SIZE_MOD and rejects the run on bytes it never received. */
  lemma ValidateShortHeader(crc: Crc16)
    ensures var b := Buffer([2, 0, 0, 0, 0, 0], 0, 1);
      && Validate(b, crc) == Validation(Incomplete, b)
      && var r := ValidateAsWritten(b, crc);
        && r.Some? && (r.value.result == InvalidCrc || r.value.result == BadEnd)
        && !r.value.rest.WellFormed()
  {
    ShortHeaderWaits(crc);
    ShortHeaderAsWritten(crc);
  }

  lemma ShortHeaderWaits(crc: Crc16)
    ensures var b := Buffer([2, 0, 0, 0, 0, 0], 0, 1);
      Validate(b, crc) == Validation(Incomplete, b)
  {
    var b := Buffer([2, 0, 0, 0, 0, 0], 0, 1);
    assert !HeaderHeld(b);
    ValidateUnheld(b, crc);
    assert Reload(b) == b;
  }

  lemma ShortHeaderAsWritten(crc: Crc16)
    ensures var r := ValidateAsWritten(Buffer([2, 0, 0, 0, 0, 0], 0, 1), crc);
      && r.Some? && (r.value.result == InvalidCrc || r.value.result == BadEnd)
      && !r.value.rest.WellFormed()
  {
    var d := [2, 0, 0, 0, 0, 0];
    assert d[2..2] == [];
    assert Word(d, 2) == 0;
  }
}
