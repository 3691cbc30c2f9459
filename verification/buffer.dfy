/**
 * vesc::buffer<N>: N bytes of storage with one cursor shared by reads and
 * writes. `head` is where reads consume from and `len` is the number of
 * bytes logically held after it, so appends land at head + len. Each member
 * of the class that repositions the cursor or writes is a function here from
 * the buffer before the call to the buffer after it.
 */
module ByteBuffer {
  import opened Wrappers
  import opened Bytes

  const PACKET_MAX_PL_LEN: nat := 512
  const PACKET_EXTRA_BYTES: nat := 8
  const PACKET_MAX_LEN: nat := PACKET_MAX_PL_LEN + PACKET_EXTRA_BYTES

  /** size_t on the 32-bit target: a length driven below zero wraps modulo this. */
  const SIZE_MOD: nat := 0x1_0000_0000

  /** a - k on a size_t: below zero it wraps to the top of the range. */
  function SizeSub(a: nat, k: nat): (r: nat)
    requires a < SIZE_MOD && k <= SIZE_MOD
    ensures r < SIZE_MOD
  {
    if a >= k then a - k else a + SIZE_MOD - k
  }

  /** a + k on a size_t: past the top it wraps to zero. */
  function SizeAdd(a: nat, k: nat): (r: nat)
    requires a < SIZE_MOD && k < SIZE_MOD
    ensures r < SIZE_MOD
  {
    if a + k < SIZE_MOD then a + k else a + k - SIZE_MOD
  }

  /** `data` is the whole std::array (its length is the capacity N). */
  datatype Buffer = Buffer(data: seq<byte>, head: nat, len: nat) {

    /** The cursor and the logical end stay inside the array. */
    predicate WellFormed() {
      head + len <= |data|
    }

    /** [begin(), end()): the bytes held and not yet consumed. */
    function Window(): seq<byte>
      requires WellFormed()
    {
      data[head..head + len]
    }
  }

  /** What a consuming read returns, together with the buffer it leaves. */
  datatype Read<T> = Read(value: T, rest: Buffer)

  /** `append(const uint8_t *data, size_t mlen)` and `copy(t)`: the bytes are
      written at end() and the logical length grows by their number. */
  function AppendBytes(b: Buffer, s: seq<byte>): (r: Buffer)
    requires b.WellFormed() && b.head + b.len + |s| <= |b.data|
    ensures r.WellFormed() && |r.data| == |b.data|
    ensures r.head == b.head && r.len == b.len + |s|
    ensures r.Window() == b.Window() + s
  {
    var end := b.head + b.len;
    var data := b.data[..end] + s + b.data[end + |s|..];
    assert data[b.head..end] == b.data[b.head..end];
    assert data[end..end + |s|] == s;
    assert data[b.head..end + |s|] == data[b.head..end] + data[end..end + |s|];
    Buffer(data, b.head, b.len + |s|)
  }

  /** Appending writes the new bytes at index head + len and leaves every
      other byte of the array as it was. */
  lemma AppendBytesWritesAtEnd(b: Buffer, s: seq<byte>)
    requires b.WellFormed() && b.head + b.len + |s| <= |b.data|
    ensures var r := AppendBytes(b, s);
      && r.data[b.head + b.len..b.head + b.len + |s|] == s
      && r.data[..b.head + b.len] == b.data[..b.head + b.len]
      && r.data[b.head + b.len + |s|..] == b.data[b.head + b.len + |s|..]
  {
  }

  /** `append<T>(v)` for an integral T: sizeof(T) bytes, most significant
      first, after the held bytes; the cursor does not move. */
  function AppendInt(b: Buffer, t: IntType, v: int): (r: Buffer)
    requires b.WellFormed() && t.Holds(v)
    requires b.head + b.len + t.Size() <= |b.data|
    ensures r.WellFormed() && |r.data| == |b.data|
    ensures r.head == b.head && r.len == b.len + t.Size()
    ensures r.Window() == b.Window() + Encode(t, v)
  {
    AppendBytes(b, Encode(t, v))
  }

  /** `append<T>(v)` writes exactly the sizeof(T) bytes at index head + len:
      the earlier bytes and the later ones are unchanged. */
  lemma AppendIntWritesAtEnd(b: Buffer, t: IntType, v: int)
    requires b.WellFormed() && t.Holds(v)
    requires b.head + b.len + t.Size() <= |b.data|
    ensures var r := AppendInt(b, t, v);
      && r.data[b.head + b.len..b.head + b.len + t.Size()] == Encode(t, v)
      && r.data[..b.head + b.len] == b.data[..b.head + b.len]
      && r.data[b.head + b.len + t.Size()..] == b.data[b.head + b.len + t.Size()..]
  {
    AppendBytesWritesAtEnd(b, Encode(t, v));
  }

  /** `get<T>()`: consumes sizeof(T) bytes at head, most significant first.
      The source does no bounds check, so the caller must hold that many. */
  function GetInt(b: Buffer, t: IntType): (r: Read<int>)
    requires b.WellFormed() && b.len >= t.Size()
    ensures r.rest.WellFormed() && r.rest.data == b.data
    ensures r.rest.head == b.head + t.Size() && r.rest.len == b.len - t.Size()
    ensures t.Holds(r.value) && r.value == Decode(t, b.data[b.head..b.head + t.Size()])
  {
    var k := t.Size();
    Read(Decode(t, b.data[b.head..b.head + k]), Buffer(b.data, b.head + k, b.len - k))
  }

  /** The window is its first k bytes followed by the window k bytes on. */
  lemma WindowSplit(b: Buffer, k: nat)
    requires b.WellFormed() && k <= b.len
    ensures b.Window() == b.data[b.head..b.head + k] + Buffer(b.data, b.head + k, b.len - k).Window()
  {
  }

  /** `get<T>()` consumes exactly the encoding of the value it returns: the
      window before is that encoding followed by the window after. */
  lemma GetIntConsumes(b: Buffer, t: IntType)
    requires b.WellFormed() && b.len >= t.Size()
    ensures var r := GetInt(b, t);
      b.Window() == Encode(t, r.value) + r.rest.Window()
  {
    var k := t.Size();
    WindowSplit(b, k);
    DecodeEncode(t, b.data[b.head..b.head + k]);
  }

  /** `get<T>()` on a window that starts with the encoding of v returns v
      and leaves what follows the encoding. */
  lemma GetIntOfEncoding(b: Buffer, t: IntType, v: int, tail: seq<byte>)
    requires b.WellFormed() && t.Holds(v)
    requires b.Window() == Encode(t, v) + tail
    ensures b.len >= t.Size()
    ensures GetInt(b, t).value == v && GetInt(b, t).rest.Window() == tail
  {
    var k, w := t.Size(), b.Window();
    var r := GetInt(b, t);
    GetIntConsumes(b, t);
    assert w[..k] == Encode(t, r.value) && w[..k] == Encode(t, v);
    EncodeDecode(t, v);
    EncodeDecode(t, r.value);
    assert w[k..] == r.rest.Window() && w[k..] == tail;
  }

  /** For an unsigned T the value is the plain big-endian number. */
  lemma GetUnsigned(b: Buffer, t: IntType)
    requires b.WellFormed() && b.len >= t.Size() && !t.Signed()
    ensures GetInt(b, t).value == FromBE(b.data[b.head..b.head + t.Size()])
  {
  }

  /** The integer part of `getfp(bytes, scale)`: `bytes` bytes ORed into an
      int32_t with no sign extension (the division by scale is left to the
      caller, see Telemetry.Quantity). A shift of 32 or more is undefined, so
      at most four bytes. */
  function GetFixed(b: Buffer, width: nat): (r: Read<int>)
    requires b.WellFormed() && width <= 4 && b.len >= width
    ensures r.rest.WellFormed() && r.rest.data == b.data
    ensures r.rest.head == b.head + width && r.rest.len == b.len - width
    ensures width < 4 ==> r.value == FromBE(b.Window()[..width])
    ensures width == 4 ==> r.value == Decode(I32, b.Window()[..4])
  {
    var bytes := b.data[b.head..b.head + width];
    assert forall i :: 0 <= i < width ==> bytes[i] == b.Window()[i];
    assert bytes == b.Window()[..width];
    FixedRawValue(bytes);
    Read(FixedRaw(bytes), Buffer(b.data, b.head + width, b.len - width))
  }

  /** The std::string `get_string()` returns: either the bytes before a
      terminator, or the placeholder "(Unknown)" followed by the head offset
      (the sprintf formatting is abstracted to the offset itself). */
  datatype Text = Chars(bytes: seq<byte>) | Unknown(offset: nat)

  /** The index of the first zero byte of s at or after `from`, or |s|. */
  function FindZero(s: seq<byte>, from: nat): (i: nat)
    requires from <= |s|
    ensures from <= i <= |s|
    ensures i < |s| ==> s[i] == 0
    ensures forall k :: from <= k < i ==> s[k] != 0
    decreases |s| - from
  {
    if from == |s| || s[from] == 0 then from else FindZero(s, from + 1)
  }

  /** `get_string()` with the search kept inside the window (see Findings in
      the README: the source searches to the end of the array). With a
      terminator the bytes before it are returned and consumed together with
      it; without one the placeholder comes back and the cursor stays put. */
  function GetString(b: Buffer): (r: Read<Text>)
    requires b.WellFormed()
    ensures r.rest.WellFormed() && r.rest.data == b.data
    ensures r.rest.head + r.rest.len == b.head + b.len
    ensures r.value.Chars? <==> 0 in b.Window()
    ensures r.value.Chars? ==>
      0 !in r.value.bytes && b.Window() == r.value.bytes + [0] + r.rest.Window()
    ensures r.value.Unknown? ==> r.value.offset == b.head && r.rest == b
  {
    var w := b.Window();
    var z := FindZero(w, 0);
    if z < |w| then
      var rest := Buffer(b.data, b.head + z + 1, b.len - z - 1);
      assert w == w[..z] + [0] + rest.Window();
      assert forall k :: 0 <= k < z ==> w[..z][k] == w[k];
      Read(Chars(w[..z]), rest)
    else
      Read(Unknown(b.head), b)
  }

  /** The search from `from` stops inside d exactly when a zero lies at or
      after `from`. */
  lemma FindZeroFinds(d: seq<byte>, from: nat)
    requires from <= |d|
    ensures FindZero(d, from) < |d| <==> 0 in d[from..]
  {
    var z := FindZero(d, from);
    if 0 in d[from..] {
      var j :| 0 <= j < |d[from..]| && d[from..][j] == 0;
      assert d[from + j] == 0;
    }
    if z < |d| {
      assert d[from..][z - from] == 0;
    }
  }

  /** `get_string()` as written: std::find runs from head to the end of the
      whole array, not to head + len, and len (a size_t) is reduced by the
      number of bytes passed over, wrapping when the terminator lay beyond
      the logical end. */
  function GetStringAsWritten(b: Buffer): (r: Read<Text>)
    requires b.WellFormed() && |b.data| < SIZE_MOD
    ensures r.rest.data == b.data
    ensures r.value.Chars? ==>
      && b.head < r.rest.head <= |b.data| && b.data[r.rest.head - 1] == 0
      && r.value.bytes == b.data[b.head..r.rest.head - 1]
      && r.rest.len == SizeSub(b.len, r.rest.head - b.head)
    ensures r.value.Unknown? ==> r.value.offset == b.head && r.rest == b
    ensures r.value.Chars? <==> 0 in b.data[b.head..]
    ensures r.value.Chars? ==> 0 !in r.value.bytes
  {
    var z := FindZero(b.data, b.head);
    FindZeroFinds(b.data, b.head);
    if z < |b.data| then
      var s := b.data[b.head..z];
      assert forall i :: 0 <= i < |s| ==> s[i] == b.data[b.head + i];
      Read(Chars(s), Buffer(b.data, z + 1, SizeSub(b.len, z + 1 - b.head)))
    else
      Read(Unknown(b.head), b)
  }

  /** When the window holds a terminator the first zero from head lies inside
      it, so the unbounded search of the source finds the same one. */
  lemma GetStringAgrees(b: Buffer)
    requires b.WellFormed() && |b.data| < SIZE_MOD && 0 in b.Window()
    ensures GetStringAsWritten(b) == GetString(b)
  {
    var w := b.Window();
    var z := FindZero(w, 0);
    var y := FindZero(b.data, b.head);
    assert z < |w|;
    assert w[z] == b.data[b.head + z];
    assert forall k :: b.head <= k < b.head + z ==> b.data[k] == w[k - b.head];
    assert y == b.head + z;
    assert b.data[b.head..y] == w[..z] by {
      assert forall i :: 0 <= i < z ==> w[..z][i] == b.data[b.head + i];
    }
  }

  /** A terminator past the logical end: the source hands back the byte
      before it and leaves len wrapped to SIZE_MOD - 1, a cursor past the
      end of the data, where the bounded search reports no string. */
  lemma GetStringPastEnd()
    ensures var b := Buffer([0x41, 0x00], 0, 1);
      && GetStringAsWritten(b) == Read(Chars([0x41]), Buffer([0x41, 0x00], 2, SIZE_MOD - 1))
      && !GetStringAsWritten(b).rest.WellFormed()
      && GetString(b) == Read(Unknown(0), b)
  {
    var b := Buffer([0x41, 0x00], 0, 1);
    assert FindZero(b.data, 1) == 1;
    assert b.Window() == [0x41];
    assert FindZero(b.Window(), 1) == 1;
  }

  /** `crc()`: the checksum of the unread window [head, head + len). */
  function Crc(b: Buffer, crc: Crc16): (r: u16)
    requires b.WellFormed()
    ensures r == crc(b.Window())
  {
    crc(b.data[b.head..b.head + b.len])
  }

  /** `reset()`: empty, with the cursor back at the start of the array. */
  function Reset(b: Buffer): (r: Buffer)
    ensures r.WellFormed() && r.data == b.data && r.Window() == []
  {
    Buffer(b.data, 0, 0)
  }

  /** After reset() the next bytes appended are written from index 0, the
      address `operator uint8_t*` hands out, and they are all the buffer
      holds. */
  lemma ResetThenAppend(b: Buffer, s: seq<byte>)
    requires |s| <= |b.data|
    ensures AppendBytes(Reset(b), s).data[..|s|] == s
    ensures AppendBytes(Reset(b), s).Window() == s
  {
    AppendBytesWritesAtEnd(Reset(b), s);
  }

  /** `reload()`: the cursor returns to the start of the array and the window
      grows backwards over everything that was consumed; when head sat at the
      end of the array the length becomes the capacity. */
  function Reload(b: Buffer): (r: Buffer)
    requires b.WellFormed()
    ensures r.WellFormed() && r.data == b.data && r.head == 0
    ensures r.len == b.head + b.len
  {
    if b.head == |b.data| then Buffer(b.data, 0, |b.data|)
    else Buffer(b.data, 0, b.len + b.head)
  }

  /** What reload() brings back into the window: everything consumed so far. */
  lemma ReloadWindow(b: Buffer)
    requires b.WellFormed()
    ensures Reload(b).Window() == b.data[..b.head] + b.Window()
  {
  }

  /** `advance(n)`: skip n held bytes. Every call in the core skips at most
      the bytes held (validate advances past a payload it has checked is
      held, and past a header it has just read), so n <= len is required. */
  function Advance(b: Buffer, n: nat): (r: Buffer)
    requires b.WellFormed() && n <= b.len
    ensures r.WellFormed() && r.data == b.data
    ensures r.head == b.head + n && r.head + r.len == b.head + b.len
  {
    Buffer(b.data, b.head + n, b.len - n)
  }

  /** What advance(n) leaves in the window: the held bytes after the first n. */
  lemma AdvanceWindow(b: Buffer, n: nat)
    requires b.WellFormed() && n <= b.len
    ensures Advance(b, n).Window() == b.Window()[n..]
    ensures b.Window() == b.Window()[..n] + Advance(b, n).Window()
  {
  }

  /** `truncate(n)`: drop n bytes off the end, or all of them when fewer
      are held; what stays is a prefix of the window. */
  function Truncate(b: Buffer, n: nat): (r: Buffer)
    requires b.WellFormed()
    ensures r.WellFormed() && r.data == b.data && r.head == b.head
    ensures b.len - r.len == if n < b.len then n else b.len
    ensures r.Window() == b.Window()[..r.len]
  {
    var k := if b.len > n then b.len - n else 0;
    var r := Buffer(b.data, b.head, k);
    assert r.Window() == b.data[b.head..b.head + k];
    assert b.Window()[..k] == b.data[b.head..b.head + k];
    r
  }

  // ---------------------------------------------------------------------
  // A stream of integers appended and read back

  /** One `append<T>(v)` of a test: the type and the value. */
  datatype Item = Item(t: IntType, v: int)

  predicate Representable(items: seq<Item>) {
    forall i :: 0 <= i < |items| ==> items[i].t.Holds(items[i].v)
  }

  /** Total sizeof of a run of types. */
  function SizeOf(types: seq<IntType>): nat {
    if |types| == 0 then 0 else types[0].Size() + SizeOf(types[1..])
  }

  function TypesOf(items: seq<Item>): (r: seq<IntType>)
    ensures |r| == |items|
  {
    if |items| == 0 then [] else [items[0].t] + TypesOf(items[1..])
  }

  function ValuesOf(items: seq<Item>): (r: seq<int>)
    ensures |r| == |items|
  {
    if |items| == 0 then [] else [items[0].v] + ValuesOf(items[1..])
  }

  /** The bytes a run of appends writes, back to back. */
  function Encoding(items: seq<Item>): (r: seq<byte>)
    requires Representable(items)
    ensures |r| == SizeOf(TypesOf(items))
  {
    if |items| == 0 then []
    else Encode(items[0].t, items[0].v) + Encoding(items[1..])
  }

  /** The appends of a test, in order. */
  function AppendAll(b: Buffer, items: seq<Item>): (r: Buffer)
    requires b.WellFormed() && Representable(items)
    requires b.head + b.len + SizeOf(TypesOf(items)) <= |b.data|
    ensures r.WellFormed() && r.head == b.head && |r.data| == |b.data|
    ensures r.Window() == b.Window() + Encoding(items)
    decreases |items|
  {
    if |items| == 0 then b
    else
      RepresentableTail(items);
      var b1 := AppendInt(b, items[0].t, items[0].v);
      var r := AppendAll(b1, items[1..]);
      assert r.Window() == b.Window() + Encoding(items) by {
        ConcatAssoc(b.Window(), Encode(items[0].t, items[0].v), Encoding(items[1..]));
      }
      r
  }

  /** The items after the first are representable, and take the first's
      size fewer bytes. */
  lemma RepresentableTail(items: seq<Item>)
    requires Representable(items) && |items| > 0
    ensures items[0].t.Holds(items[0].v) && Representable(items[1..])
    ensures SizeOf(TypesOf(items)) == items[0].t.Size() + SizeOf(TypesOf(items[1..]))
  {
    var first, rest := items[0], items[1..];
    assert first.t.Holds(first.v);
    assert TypesOf(items) == [first.t] + TypesOf(rest);
  }

  /** The gets of a test, in order: one value per type. */
  function ReadAll(b: Buffer, types: seq<IntType>): (r: Read<seq<int>>)
    requires b.WellFormed() && b.len >= SizeOf(types)
    ensures r.rest.WellFormed() && |r.value| == |types|
    ensures r.rest.len == b.len - SizeOf(types)
    decreases |types|
  {
    if |types| == 0 then Read([], b)
    else
      var first := GetInt(b, types[0]);
      var more := ReadAll(first.rest, types[1..]);
      Read([first.value] + more.value, more.rest)
  }

  /** Reading a window that starts with the encodings of some items, with the
      same types in the same order, returns their values and leaves the rest. */
  lemma {:induction false} ReadAllEncoding(b: Buffer, items: seq<Item>, tail: seq<byte>)
    requires b.WellFormed() && Representable(items)
    requires b.Window() == Encoding(items) + tail
    ensures b.len >= SizeOf(TypesOf(items))
    ensures ReadAll(b, TypesOf(items)).value == ValuesOf(items)
    ensures ReadAll(b, TypesOf(items)).rest.Window() == tail
    decreases |items|
  {
    if |items| > 0 {
      var t, v := items[0].t, items[0].v;
      var types, rest := TypesOf(items), items[1..];
      assert types[0] == t && types[1..] == TypesOf(rest);
      RepresentableTail(items);
      var first := GetInt(b, t);
      GetIntOfEncoding(b, t, v, Encoding(rest) + tail);
      ReadAllEncoding(first.rest, rest, tail);
      var more := ReadAll(first.rest, types[1..]);
      assert ReadAll(b, types) == Read([v] + more.value, more.rest);
    }
  }

  /** A run of appends to an empty buffer, read back with the same types,
      yields the appended values in the order they were written. */
  lemma AppendsReadBackInOrder(b: Buffer, items: seq<Item>)
    requires b.WellFormed() && b.len == 0 && Representable(items)
    requires b.head + SizeOf(TypesOf(items)) <= |b.data|
    ensures ReadAll(AppendAll(b, items), TypesOf(items)).value == ValuesOf(items)
    ensures ReadAll(AppendAll(b, items), TypesOf(items)).rest.len == 0
  {
    var a := AppendAll(b, items);
    ReadAllEncoding(a, items, []);
  }

  /** A single append read back: `get<T>()` returns the `v` of `append<T>(v)`. */
  lemma AppendThenGet(b: Buffer, t: IntType, v: int)
    requires b.WellFormed() && b.len == 0 && t.Holds(v)
    requires b.head + t.Size() <= |b.data|
    ensures GetInt(AppendInt(b, t, v), t).value == v
    ensures GetInt(AppendInt(b, t, v), t).rest.len == 0
  {
    var a := AppendInt(b, t, v);
    var r := GetInt(a, t);
    GetIntConsumes(a, t);
    assert Encode(t, r.value) == Encode(t, v);
    EncodeDecode(t, v);
    EncodeDecode(t, r.value);
  }
}
