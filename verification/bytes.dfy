/** Option, for values the source leaves unspecified or reads that cannot complete. */
module Wrappers {

  datatype Option<+T> = None | Some(value: T)
}

/**
 * Bytes and the big-endian integer encodings of buffer.h: every integral
 * `append<T>` writes sizeof(T) bytes most significant first, and `get<T>`
 * reassembles them in the same order.
 */
module Bytes {

  type byte = x: int | 0 <= x < 0x100
  type u16 = x: int | 0 <= x < 0x1_0000

  /** crc16 over a byte run. Its table lives in crc.h, which is not part of
      this model, so every member that checksums takes it as a parameter. */
  type Crc16 = seq<byte> -> u16

  lemma ConcatAssoc<T>(a: seq<T>, b: seq<T>, c: seq<T>)
    ensures a + (b + c) == (a + b) + c
  {
  }

  /** 256^k, the number of values k bytes can represent. */
  function Pow256(k: nat): (r: nat)
    ensures r >= 1
  {
    if k == 0 then 1 else 256 * Pow256(k - 1)
  }

  /** The number s denotes when read most significant byte first. */
  function FromBE(s: seq<byte>): (r: nat)
    ensures r < Pow256(|s|)
  {
    if |s| == 0 then 0
    else
      var high := FromBE(s[..|s| - 1]);
      assert high * 256 + s[|s| - 1] <= (Pow256(|s| - 1) - 1) * 256 + 255;
      high * 256 + s[|s| - 1]
  }

  /** The k bytes that spell v most significant byte first. */
  function ToBE(v: nat, k: nat): (r: seq<byte>)
    requires v < Pow256(k)
    ensures |r| == k
  {
    if k == 0 then []
    else ToBE(v / 256, k - 1) + [v % 256]
  }

  /** Reading back what ToBE wrote gives the number that was written. */
  lemma {:induction false} FromToBE(v: nat, k: nat)
    requires v < Pow256(k)
    ensures FromBE(ToBE(v, k)) == v
  {
    if k > 0 {
      var s := ToBE(v, k);
      assert s[..k - 1] == ToBE(v / 256, k - 1);
      FromToBE(v / 256, k - 1);
    }
  }

  /** Splitting off the last byte of a big-endian number undoes appending it. */
  lemma DivModByte(high: nat, low: byte)
    ensures (high * 256 + low) / 256 == high
    ensures (high * 256 + low) % 256 == low
  {
  }

  /** Writing out what FromBE read gives back the same bytes. */
  lemma {:induction false} ToFromBE(s: seq<byte>)
    ensures ToBE(FromBE(s), |s|) == s
  {
    if |s| > 0 {
      var n := |s|;
      var high := FromBE(s[..n - 1]);
      var v := FromBE(s);
      assert v == high * 256 + s[n - 1];
      DivModByte(high, s[n - 1]);
      assert ToBE(v, n) == ToBE(high, n - 1) + [s[n - 1]];
      ToFromBE(s[..n - 1]);
      assert s == s[..n - 1] + [s[n - 1]];
    }
  }

  /** Equal big-endian values of equal width come from equal bytes. */
  lemma FromBEInjective(s: seq<byte>, t: seq<byte>)
    requires |s| == |t| && FromBE(s) == FromBE(t)
    ensures s == t
  {
    ToFromBE(s);
    ToFromBE(t);
  }

  /** The integral types the protocol code instantiates `append<T>` and `get<T>` with. */
  datatype IntType = U8 | I8 | U16 | I16 | U32 | I32 {

    /** sizeof(T) */
    function Size(): nat {
      match this
      case U8 | I8 => 1
      case U16 | I16 => 2
      case U32 | I32 => 4
    }

    predicate Signed() {
      this == I8 || this == I16 || this == I32
    }

    /** The least value of T. */
    function Min(): int {
      if Signed() then -(Pow256(Size()) / 2) else 0
    }

    /** One past the greatest value of T. */
    function Bound(): int {
      if Signed() then Pow256(Size()) / 2 else Pow256(Size())
    }

    predicate Holds(v: int) {
      Min() <= v < Bound()
    }
  }

  /** The bytes `append<T>(v)` writes: `(v >> 8i) & 0xFF` for i from sizeof(T)-1
      down to 0, which for a negative v is its two's-complement pattern. */
  function Encode(t: IntType, v: int): (r: seq<byte>)
    requires t.Holds(v)
    ensures |r| == t.Size()
  {
    ToBE(if v < 0 then v + Pow256(t.Size()) else v, t.Size())
  }

  /** The value `get<T>()` assembles from sizeof(T) bytes; a signed T takes the
      top bit as the sign. */
  function Decode(t: IntType, s: seq<byte>): (r: int)
    requires |s| == t.Size()
    ensures t.Holds(r)
  {
    var u := FromBE(s);
    if t.Signed() && u >= Pow256(t.Size()) / 2 then u - Pow256(t.Size()) else u
  }

  /** The value range of every T has an even number of elements. */
  lemma RangeEven(t: IntType)
    ensures Pow256(t.Size()) == 2 * (Pow256(t.Size()) / 2)
  {
    assert Pow256(t.Size()) == 256 * Pow256(t.Size() - 1);
  }

  /** Every value of T survives being written and read back. */
  lemma EncodeDecode(t: IntType, v: int)
    requires t.Holds(v)
    ensures Decode(t, Encode(t, v)) == v
  {
    var p := Pow256(t.Size());
    var u := if v < 0 then v + p else v;
    RangeEven(t);
    FromToBE(u, t.Size());
    assert FromBE(Encode(t, v)) == u;
    assert t.Signed() ==> (u >= p / 2 <==> v < 0);
  }

  /** Every byte pattern of width sizeof(T) is what some value of T encodes to. */
  lemma DecodeEncode(t: IntType, s: seq<byte>)
    requires |s| == t.Size()
    ensures Encode(t, Decode(t, s)) == s
  {
    var p := Pow256(t.Size());
    var u := FromBE(s);
    var v := Decode(t, s);
    RangeEven(t);
    assert v < 0 <==> t.Signed() && u >= p / 2;
    assert (if v < 0 then v + p else v) == u;
    ToFromBE(s);
  }

  /** The bytes of s ORed together at shifts 8*(|s|-1) down to 0, for the
      at most four bytes an int32_t holds. */
  function ShiftedOr(s: seq<byte>): nat
    requires |s| <= 4
  {
    var t: seq<int> := s;
    if |t| == 0 then 0
    else if |t| == 1 then t[0]
    else if |t| == 2 then t[0] * 0x100 + t[1]
    else if |t| == 3 then t[0] * 0x1_0000 + t[1] * 0x100 + t[2]
    else t[0] * 0x100_0000 + t[1] * 0x1_0000 + t[2] * 0x100 + t[3]
  }

  /** The int32_t `getfp(bytes, scale)` accumulates before dividing by scale:
      the bytes ORed in with no sign extension, so only a 4-byte field with
      its top bit set comes out negative. */
  function FixedRaw(s: seq<byte>): int
    requires |s| <= 4
  {
    var u := ShiftedOr(s);
    if u >= 0x8000_0000 then u - 0x1_0000_0000 else u
  }

  /** Below four bytes getfp's integer is the plain big-endian value; at
      four it is the two's-complement value `get<int32_t>()` reads. */
  lemma FixedRawValue(s: seq<byte>)
    requires |s| <= 4
    ensures |s| < 4 ==> FixedRaw(s) == FromBE(s) && FixedRaw(s) < Pow256(|s|)
    ensures |s| == 4 ==> FixedRaw(s) == Decode(I32, s)
  {
    var n := |s|;
    if n >= 1 { assert FromBE(s[..1]) == s[0] by { assert s[..1][..0] == []; } }
    if n >= 2 { assert s[..2][..1] == s[..1]; }
    if n >= 3 { assert s[..3][..2] == s[..2]; }
    if n >= 4 { assert s[..4][..3] == s[..3]; }
    assert s[..n] == s;
    assert Pow256(4) == 0x1_0000_0000;
  }

  /** The bytes of s read most significant first as a two's-complement
      number of their own width. */
  function SignedBE(s: seq<byte>): int {
    var u := FromBE(s);
    if |s| > 0 && u >= Pow256(|s|) / 2 then u - Pow256(|s|) else u
  }

  /** The top bit of the first byte decides the sign. */
  lemma SignedBETop(s: seq<byte>)
    requires |s| > 0
    ensures SignedBE(s) < 0 <==> s[0] >= 0x80
    ensures SignedBE(s) >= 0 ==> SignedBE(s) == FromBE(s)
  {
    FromBEFirst(s);
    var p, r := Pow256(|s| - 1), FromBE(s[1..]);
    assert Pow256(|s|) / 2 == 128 * p;
    if s[0] >= 0x80 {
      MulMonotone(0x80, s[0], p);
    } else {
      MulMonotone(s[0], 0x7F, p);
    }
  }

  lemma MulMonotone(a: nat, b: nat, p: nat)
    requires a <= b
    ensures a * p <= b * p
  {
  }

  /** The first byte of a big-endian number weighs 256^(|s|-1). */
  lemma {:induction false} FromBEFirst(s: seq<byte>)
    requires |s| > 0
    ensures FromBE(s) == s[0] * Pow256(|s| - 1) + FromBE(s[1..])
  {
    var n := |s|;
    if n == 1 {
      assert s[..0] == [] && s[1..] == [];
    } else {
      var init, tail := s[..n - 1], s[1..];
      var a, p := s[0], Pow256(n - 2);
      FromBEFirst(init);
      assert init[1..] == tail[..n - 2];
      assert FromBE(init) == a * p + FromBE(init[1..]);
      assert FromBE(tail) == FromBE(init[1..]) * 256 + s[n - 1];
      assert Pow256(n - 1) == 256 * p;
      ShiftWeight(a, p);
    }
  }

  lemma ShiftWeight(a: nat, p: nat)
    ensures (a * p) * 256 == a * (256 * p)
  {
  }

  /** For the widths of the signed integral types SignedBE is `get<T>()`. */
  lemma SignedBEDecode(t: IntType, s: seq<byte>)
    requires t.Signed() && |s| == t.Size()
    ensures SignedBE(s) == Decode(t, s)
  {
  }

  /** SignedBE at each width a signed integer type has. */
  lemma SignedBEWidths(s: seq<byte>)
    ensures |s| == 1 ==> SignedBE(s) == Decode(I8, s)
    ensures |s| == 2 ==> SignedBE(s) == Decode(I16, s)
    ensures |s| == 4 ==> SignedBE(s) == Decode(I32, s)
  {
    if |s| == 1 { SignedBEDecode(I8, s); }
    if |s| == 2 { SignedBEDecode(I16, s); }
    if |s| == 4 { SignedBEDecode(I32, s); }
  }
}
