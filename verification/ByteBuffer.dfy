/** The buffer class `Bytes` with its variable-width integer accessors, on top of DataView's fixed-width ones. */
module ByteBuffer {
  import opened HexCodec
  import opened ByteCodec

  // ---- Conversion of a BigInt to a JavaScript number

  function Pow2(n: nat): (p: nat)
    ensures p > 0
  {
    if n == 0 then 1 else 2 * Pow2(n - 1)
  }

  const TWO53 := 0x20_0000_0000_0000

  /** How many low bits of `n` do not fit into the 53 bits of a number. */
  function ExcessBits(n: nat): nat {
    if n < TWO53 then 0 else 1 + ExcessBits(n / 2)
  }

  /** `Number(n)`: rounded to 53 significant bits, ties to even. */
  function NumberOf(n: nat): nat {
    var u := Pow2(ExcessBits(n));
    var q, r := n / u, n % u;
    (if 2 * r > u || (2 * r == u && q % 2 == 1) then q + 1 else q) * u
  }

  /** `Number(n)` is the nearest multiple of the unit in the last place, and of two equally near ones the even one;
      the unit is the power of two that leaves 53 significant bits. */
  lemma NumberIsNearest(n: nat) returns (u: nat, m: nat)
    ensures u == Pow2(ExcessBits(n)) && NumberOf(n) == m * u
    ensures n < 0x20_0000_0000_0000 * u && (u == 1 || n >= 0x10_0000_0000_0000 * u)
    ensures 2 * (m * u) <= 2 * n + u && 2 * n <= 2 * (m * u) + u
    ensures 2 * (m * u) == 2 * n + u || 2 * n == 2 * (m * u) + u ==> m % 2 == 0
  {
    hide ExcessBits;
    u := Pow2(ExcessBits(n));
    var q, r := n / u, n % u;
    assert n == q * u + r;
    m := if 2 * r > u || (2 * r == u && q % 2 == 1) then q + 1 else q;
    assert (q + 1) * u == q * u + u;
    UnitOf(n);
  }

  lemma {:induction false} UnitOf(n: nat)
    ensures var u := Pow2(ExcessBits(n));
            n < 0x20_0000_0000_0000 * u && (u == 1 || n >= 0x10_0000_0000_0000 * u)
  {
    if n >= TWO53 {
      UnitOf(n / 2);
      assert n / 2 >= 0x10_0000_0000_0000;
    }
  }

  lemma SmallNumberIsExact(n: nat)
    requires n < TWO53
    ensures NumberOf(n) == n
  {
  }

  lemma {:induction false} ExcessBound(n: nat, k: nat)
    requires n < TWO53 * Pow2(k)
    ensures ExcessBits(n) <= k
  {
    if n >= TWO53 {
      assert k > 0;
      assert n / 2 < TWO53 * Pow2(k - 1);
      ExcessBound(n / 2, k - 1);
    }
  }

  lemma {:induction false} Pow2Add(a: nat, b: nat)
    ensures Pow2(a + b) == Pow2(a) * Pow2(b)
    decreases a
  {
    if a > 0 {
      Pow2Add(a - 1, b);
      assert 2 * (Pow2(a - 1) * Pow2(b)) == (2 * Pow2(a - 1)) * Pow2(b);
    } else {
      assert Pow2(0) == 1;
    }
  }

  lemma Pow2Values()
    ensures Pow2(11) == 0x800 && Pow2(32) == 0x1_0000_0000
  {
    assert Pow2(4) == 16 && Pow2(3) == 8;
    Pow2Add(4, 4);
    Pow2Add(8, 8);
    Pow2Add(16, 16);
    Pow2Add(8, 3);
  }

  lemma FloorAtLeast(n: nat, u: nat, k: nat)
    requires u > 0 && n >= u * k
    ensures n / u >= k
  {
    assert n == u * (n / u) + n % u;
    assert u * (n / u - k) == u * (n / u) - u * k;
    MulBound(u, n / u - k);
  }

  lemma RoundsAtLeastDown(n: nat)
    ensures NumberOf(n) >= (n / Pow2(ExcessBits(n))) * Pow2(ExcessBits(n))
  {
  }

  lemma MultipleReached(n: nat, u: nat, w: nat, high: nat)
    requires u > 0 && n >= (u * w) * high
    ensures (n / u) * u >= (u * w) * high
  {
    var k := w * high;
    assert (u * w) * high == u * k;
    FloorAtLeast(n, u, k);
    assert (n / u) * u == u * k + u * (n / u - k);
  }

  /** Rounding never goes below a multiple of 2^32 that the number has reached. */
  lemma NumberKeepsHighPart(high: nat, low: nat)
    requires high < TWO32 && low < TWO32
    ensures NumberOf(TWO32 * high + low) >= TWO32 * high
  {
    hide Pow2, NumberOf, ExcessBits;
    var n := TWO32 * high + low;
    var e := ExcessBits(n);
    Pow2Values();
    ExcessBound(n, 11);
    Pow2Add(e, 32 - e);
    RoundsAtLeastDown(n);
    MultipleReached(n, Pow2(e), Pow2(32 - e), high);
  }

  // ---- What the big-endian reader returns

  /** For 5 and 6 bytes, the first four are shifted by 32 bits whatever the width. */
  function ReadBE(s: seq<byte>): nat {
    if |s| <= 4 then ValueBE(s) else NumberOf(TWO32 * ValueBE(s[..4]) + ValueBE(s[4..]))
  }

  lemma {:induction false} ValueBound(s: seq<byte>)
    ensures ValueLE(s) < Pow256(|s|)
  {
    if s != [] {
      ValueBound(s[1..]);
    }
  }

  lemma BEParts(v: nat, low: nat)
    requires low == 1 || low == 2
    ensures var s := DigitsBE(v, 4 + low);
            && ValueBE(s[..4]) == (v / Pow256(low)) % TWO32
            && ValueBE(s[4..]) == v % Pow256(low)
  {
    BESplit(v, low, 4);
    Powers();
    var s := DigitsBE(v, 4 + low);
    assert s == DigitsBE(v, low + 4);
    assert s[..4] == DigitsBE(v / Pow256(low), 4) && s[4..] == DigitsBE(v, low);
    ReverseTwice(DigitsLE(v / Pow256(low), 4));
    ReverseTwice(DigitsLE(v, low));
    ValueOfDigits(v / Pow256(low), 4);
    ValueOfDigits(v, low);
  }

  lemma HighPartFits(v: nat, low: nat)
    requires (low == 1 || low == 2) && v < Pow256(4 + low)
    ensures v / Pow256(low) < TWO32
  {
    Powers();
    assert Pow256(5) == 256 * Pow256(4) && Pow256(6) == 256 * Pow256(5);
  }

  /** Big-endian round trip for 5 and 6 bytes: of the values that fit, exactly those come back whose upper four
      bytes are zero. */
  lemma WideBigEndianRoundTripIff(v: nat, width: nat)
    requires (width == 5 || width == 6) && v < Pow256(width)
    ensures ReadBE(DigitsBE(v, width)) == v <==> v < Pow256(width - 4)
  {
    hide Pow256, DigitsBE, ValueBE, NumberOf;
    var m := Pow256(width - 4);
    Powers();
    BEParts(v, width - 4);
    HighPartFits(v, width - 4);
    var high, rest := v / m, v % m;
    assert high % TWO32 == high;
    assert v == m * high + rest;
    if high == 0 {
      SmallNumberIsExact(rest);
    } else {
      NumberKeepsHighPart(high, rest);
    }
  }

  /** The example in the reader's documentation does not come out as documented. */
  lemma DocumentedExampleFails()
    ensures ReadBE(DigitsBE(0x1234567890ab, 6)) != 0x1234567890ab
  {
    Powers();
    assert Pow256(5) == 256 * Pow256(4) && Pow256(6) == 256 * Pow256(5);
    WideBigEndianRoundTripIff(0x1234567890ab, 6);
  }

  /** Up to 4 bytes, the big-endian reader undoes the writer exactly for the values that fit. */
  lemma NarrowBigEndianRoundTripIff(v: int, width: nat)
    requires 1 <= width <= 4
    ensures ReadBE(DigitsBE(v, width)) == v <==> 0 <= v < Pow256(width)
  {
    UnsignedFits(v, width);
  }

  // ---- What the writers and readers do, on the contents of the buffer

  /** If the bytes fit, exactly they change; otherwise nothing does. */
  ghost predicate WroteLE(before: seq<byte>, after: seq<byte>, value: int, offset: nat, width: nat, r: Access) {
    if offset + width <= |before|
    then r == At(offset + width) && after == Stored(before, offset, DigitsLE(value, width))
    else r == RangeError && after == before
  }

  ghost predicate WroteBE(before: seq<byte>, after: seq<byte>, value: int, offset: nat, width: nat, r: Access) {
    if offset + width <= |before|
    then r == At(offset + width) && after == Stored(before, offset, DigitsBE(value, width))
    else r == RangeError && after == before
  }

  /** After a range error, the first `n` bytes have been written: a write in several parts stops at the first part
      that does not fit. */
  ghost predicate Failed(before: seq<byte>, after: seq<byte>, offset: nat, digits: seq<byte>, n: nat, r: Access) {
    && r == RangeError && n <= |digits|
    && if n == 0 then after == before else offset + n <= |before| && after == Stored(before, offset, digits[..n])
  }

  /** How many of `width` bytes are written if there is only `room` for fewer. */
  function PartialLE(width: nat, room: int): nat {
    if width == 3 && room >= 2 then 2 else if (width == 5 || width == 6) && room >= 4 then 4 else 0
  }

  function PartialBE(width: nat, room: int): nat {
    if width == 3 && room >= 2 then 2
    else if width == 7 && room >= 6 then 6
    else if (width == 5 || width == 6 || width == 7) && room >= 4 then 4
    else 0
  }

  /** For signed big-endian integers, the single byte comes first. */
  function PartialSignedBE(width: nat, room: int): nat {
    if width == 3 && room >= 1 then 1 else 0
  }

  lemma TwoPartsLE(b: seq<byte>, c: seq<byte>, d: seq<byte>, value: int, low: int, high: int, offset: nat, n: nat,
                   m: nat,
                   r1: Access, r2: Access)
    requires WroteLE(b, c, low, offset, n, r1) && r1.At? && WroteLE(c, d, high, offset + n, m, r2)
    requires low % Pow256(n) == value % Pow256(n)
    requires high % Pow256(m) == (value / Pow256(n)) % Pow256(m)
    ensures if offset + n + m <= |b| then r2 == At(offset + n + m) && d == Stored(b, offset, DigitsLE(value, n + m))
            else Failed(b, d, offset, DigitsLE(value, n + m), n, r2)
  {
    hide Pow256, DigitsLE;
    DigitsMod(low, value, n);
    DigitsMod(high, value / Pow256(n), m);
    DigitsSplit(value, n, m);
    if offset + n + m <= |b| {
      StoredTwice(b, offset, DigitsLE(value, n), DigitsLE(value / Pow256(n), m));
    }
  }

  lemma TwoPartsBE(b: seq<byte>, c: seq<byte>, d: seq<byte>, value: int, high: int, low: int, offset: nat, n: nat,
                   m: nat,
                   r1: Access, r2: Access)
    requires WroteBE(b, c, high, offset, n, r1) && r1.At? && WroteBE(c, d, low, offset + n, m, r2)
    requires low % Pow256(m) == value % Pow256(m)
    requires high % Pow256(n) == (value / Pow256(m)) % Pow256(n)
    ensures if offset + n + m <= |b| then r2 == At(offset + n + m) && d == Stored(b, offset, DigitsBE(value, n + m))
            else Failed(b, d, offset, DigitsBE(value, n + m), n, r2)
  {
    hide Pow256, DigitsLE, Reverse;
    DigitsMod(low, value, m);
    DigitsMod(high, value / Pow256(m), n);
    BESplit(value, m, n);
    assert m + n == n + m;
    if offset + n + m <= |b| {
      StoredTwice(b, offset, DigitsBE(value / Pow256(m), n), DigitsBE(value, m));
    }
  }

  lemma OneByteBoth(value: int)
    ensures DigitsBE(value, 1) == DigitsLE(value, 1)
  {
  }

  // ---- The buffer

  class Bytes {
    const data: array<byte>

    constructor (data: array<byte>)
      ensures this.data == data
    {
      this.data := data;
    }

    /** DataView's `setUint8` to `setInt32`: the value is taken modulo the width. */
    method SetInteger(value: int, offset: nat, size: nat, littleEndian: bool) returns (r: Access)
      modifies data
      ensures if littleEndian then WroteLE(old(data[..]), data[..], value, offset, size, r)
              else WroteBE(old(data[..]), data[..], value, offset, size, r)
    {
      if offset + size > data.Length {
        return RangeError;
      }
      var digits := if littleEndian then DigitsLE(value, size) else DigitsBE(value, size);
      forall i | 0 <= i < size {
        data[offset + i] := digits[i];
      }
      return At(offset + size);
    }

    method WriteUInt8(value: int, offset: nat) returns (r: Access)
      modifies data
      ensures WroteLE(old(data[..]), data[..], value, offset, 1, r)
    {
      r := SetInteger(value, offset, 1, true);
    }

    method WriteUInt16LE(value: int, offset: nat) returns (r: Access)
      modifies data
      ensures WroteLE(old(data[..]), data[..], value, offset, 2, r)
    {
      r := SetInteger(value, offset, 2, true);
    }

    method WriteUInt16BE(value: int, offset: nat) returns (r: Access)
      modifies data
      ensures WroteBE(old(data[..]), data[..], value, offset, 2, r)
    {
      r := SetInteger(value, offset, 2, false);
    }

    method WriteUInt32LE(value: int, offset: nat) returns (r: Access)
      modifies data
      ensures WroteLE(old(data[..]), data[..], value, offset, 4, r)
    {
      r := SetInteger(value, offset, 4, true);
    }

    method WriteUInt32BE(value: int, offset: nat) returns (r: Access)
      modifies data
      ensures WroteBE(old(data[..]), data[..], value, offset, 4, r)
    {
      r := SetInteger(value, offset, 4, false);
    }

    /** `writeUIntLE`: widths 1 to 6. */
    method WriteUIntLE(value: int, offset: nat, byteLength: nat) returns (r: Access)
      modifies data
      ensures if 1 <= byteLength <= 6 && offset + byteLength <= data.Length
              then r == At(offset + byteLength)
                  && data[..] == Stored(old(data[..]), offset, DigitsLE(value, byteLength))
              else Failed(old(data[..]), data[..], offset, DigitsLE(value, byteLength),
                          PartialLE(byteLength, data.Length - offset), r)
    {
      hide DigitsLE, Pow256, ToUint32, And16;
      match byteLength
      case 1 => r := WriteUInt8(value, offset);
      case 2 => r := WriteUInt16LE(value, offset);
      case 3 =>
        ghost var before := data[..];
        r := WriteUInt16LE(And16(value), offset);
        if r.At? {
          ghost var middle, r1 := data[..], r;
          r := WriteUInt8(ToUint32(value) / 0x1_0000, r.offset);
          ShiftParts(value);
          TwoPartsLE(before, middle, data[..], value, And16(value), ToUint32(value) / 0x1_0000, offset, 2, 1, r1, r);
        }
      case 4 => r := WriteUInt32LE(value, offset);
      case 5 => r := WriteLowHighLE(value, offset, 1);
      case 6 => r := WriteLowHighLE(value, offset, 2);
      case _ => r := RangeError;
    }

    /** The cases that go through BigInt: the low 32 bits, then the rest. */
    method WriteLowHighLE(value: int, offset: nat, rest: nat) returns (r: Access)
      requires rest == 1 || rest == 2
      modifies data
      ensures if offset + 4 + rest <= data.Length
              then r == At(offset + 4 + rest) && data[..] == Stored(old(data[..]), offset, DigitsLE(value, 4 + rest))
              else Failed(old(data[..]), data[..], offset, DigitsLE(value, 4 + rest),
                          PartialLE(4 + rest, data.Length - offset), r)
    {
      hide DigitsLE, Pow256;
      var low, high := value % TWO32, value / TWO32;
      ghost var before := data[..];
      r := WriteUInt32LE(low, offset);
      if r.At? {
        ghost var middle, r1 := data[..], r;
        if rest == 1 {
          r := WriteUInt8(high, r.offset);
        } else {
          r := WriteUInt16LE(high, r.offset);
        }
        Powers();
        TwoPartsLE(before, middle, data[..], value, low, high, offset, 4, rest, r1, r);
      }
    }

    method WriteInt8(value: int, offset: nat) returns (r: Access)
      modifies data
      ensures WroteLE(old(data[..]), data[..], value, offset, 1, r)
    {
      r := SetInteger(value, offset, 1, true);
    }

    method WriteInt16LE(value: int, offset: nat) returns (r: Access)
      modifies data
      ensures WroteLE(old(data[..]), data[..], value, offset, 2, r)
    {
      r := SetInteger(value, offset, 2, true);
    }

    method WriteInt16BE(value: int, offset: nat) returns (r: Access)
      modifies data
      ensures WroteBE(old(data[..]), data[..], value, offset, 2, r)
    {
      r := SetInteger(value, offset, 2, false);
    }

    method WriteInt32LE(value: int, offset: nat) returns (r: Access)
      modifies data
      ensures WroteLE(old(data[..]), data[..], value, offset, 4, r)
    {
      r := SetInteger(value, offset, 4, true);
    }

    method WriteInt32BE(value: int, offset: nat) returns (r: Access)
      modifies data
      ensures WroteBE(old(data[..]), data[..], value, offset, 4, r)
    {
      r := SetInteger(value, offset, 4, false);
    }

    /** `writeUIntBE`: widths 1 to 8. */
    method WriteUIntBE(value: int, offset: nat, byteLength: nat) returns (r: Access)
      modifies data
      ensures if 1 <= byteLength <= 8 && offset + byteLength <= data.Length
              then r == At(offset + byteLength)
                  && data[..] == Stored(old(data[..]), offset, DigitsBE(value, byteLength))
              else Failed(old(data[..]), data[..], offset, DigitsBE(value, byteLength),
                          PartialBE(byteLength, data.Length - offset), r)
    {
      hide DigitsLE, Reverse, Pow256, ToInt32, And8;
      match byteLength
      case 1 => r := WriteUInt8(value, offset); OneByteBoth(value);
      case 2 => r := WriteUInt16BE(value, offset);
      case 3 =>
        ghost var before := data[..];
        r := WriteUInt16BE(ToInt32(value) / 0x100, offset);
        if r.At? {
          ghost var middle, r1 := data[..], r;
          r := WriteUInt8(And8(value), r.offset);
          OneByteBoth(And8(value));
          ShiftEight(value);
          TwoPartsBE(before, middle, data[..], value, ToInt32(value) / 0x100, And8(value), offset, 2, 1, r1, r);
        }
      case 4 => r := WriteUInt32BE(value, offset);
      case 5 => r := WriteHighLowBE(value, offset, 1);
      case 6 => r := WriteHighLowBE(value, offset, 2);
      case 7 => r := WriteSevenBE(value, offset);
      case 8 => r := SetInteger(value, offset, 8, false);
      case _ => r := RangeError;
    }

    /** Seven bytes: 32 bits, 16 bits and 8 bits. */
    method WriteSevenBE(value: int, offset: nat) returns (r: Access)
      modifies data
      ensures if offset + 7 <= data.Length
              then r == At(offset + 7) && data[..] == Stored(old(data[..]), offset, DigitsBE(value, 7))
              else Failed(old(data[..]), data[..], offset, DigitsBE(value, 7), PartialBE(7, data.Length - offset), r)
    {
      hide DigitsLE, Reverse, Pow256;
      ghost var before := data[..];
      r := WriteHighLowBE(value / 0x100, offset, 2);
      Powers();
      if r.At? {
        ghost var middle, r1 := data[..], r;
        r := WriteUInt8(value % 0x100, r.offset);
        OneByteBoth(value % 0x100);
        TwoPartsBE(before, middle, data[..], value, value / 0x100, value % 0x100, offset, 6, 1, r1, r);
      } else {
        BESplit(value, 1, 6);
      }
    }

    /** The cases that go through BigInt: 32 bits first, then the lowest one or two bytes. */
    method WriteHighLowBE(value: int, offset: nat, rest: nat) returns (r: Access)
      requires rest == 1 || rest == 2
      modifies data
      ensures if offset + 4 + rest <= data.Length
              then r == At(offset + 4 + rest) && data[..] == Stored(old(data[..]), offset, DigitsBE(value, 4 + rest))
              else Failed(old(data[..]), data[..], offset, DigitsBE(value, 4 + rest),
                          PartialBE(4 + rest, data.Length - offset), r)
    {
      hide DigitsLE, Reverse, Pow256;
      var unit := if rest == 1 then 0x100 else 0x1_0000;
      var high, low := value / unit, value % unit;
      ghost var before := data[..];
      r := WriteUInt32BE(high, offset);
      if r.At? {
        ghost var middle, r1 := data[..], r;
        if rest == 1 {
          r := WriteUInt8(low, r.offset);
          OneByteBoth(low);
        } else {
          r := WriteUInt16BE(low, r.offset);
        }
        Powers();
        TwoPartsBE(before, middle, data[..], value, high, low, offset, 4, rest, r1, r);
      }
    }

    /** `writeIntLE`: widths 1 to 4, the others are not implemented. */
    method WriteIntLE(value: int, offset: nat, byteLength: nat) returns (r: Access)
      modifies data
      ensures if 1 <= byteLength <= 4 && offset + byteLength <= data.Length
              then r == At(offset + byteLength)
                  && data[..] == Stored(old(data[..]), offset, DigitsLE(value, byteLength))
              else Failed(old(data[..]), data[..], offset, DigitsLE(value, byteLength),
                          PartialLE(if byteLength <= 4 then byteLength else 0, data.Length - offset), r)
    {
      hide DigitsLE, Pow256, ToInt32, And16;
      match byteLength
      case 1 => r := WriteInt8(value, offset);
      case 2 => r := WriteInt16LE(value, offset);
      case 3 =>
        ghost var before := data[..];
        r := WriteInt16LE(And16(value), offset);
        if r.At? {
          ghost var middle, r1 := data[..], r;
          r := WriteInt8(ToInt32(value) / 0x1_0000, r.offset);
          ShiftSixteen(value);
          TwoPartsLE(before, middle, data[..], value, And16(value), ToInt32(value) / 0x1_0000, offset, 2, 1, r1, r);
        }
      case 4 => r := WriteInt32LE(value, offset);
      case _ => r := RangeError;
    }

    /** `writeIntBE`: widths 1 to 4, the others are not implemented. */
    method WriteIntBE(value: int, offset: nat, byteLength: nat) returns (r: Access)
      modifies data
      ensures if 1 <= byteLength <= 4 && offset + byteLength <= data.Length
              then r == At(offset + byteLength)
                  && data[..] == Stored(old(data[..]), offset, DigitsBE(value, byteLength))
              else Failed(old(data[..]), data[..], offset, DigitsBE(value, byteLength),
                          PartialSignedBE(byteLength, data.Length - offset), r)
    {
      hide DigitsLE, Reverse, Pow256, ToInt32, And16;
      match byteLength
      case 1 => r := WriteInt8(value, offset); OneByteBoth(value);
      case 2 => r := WriteInt16BE(value, offset);
      case 3 =>
        ghost var before := data[..];
        r := WriteInt8(ToInt32(value) / 0x1_0000, offset);
        if r.At? {
          ghost var middle, r1 := data[..], r;
          r := WriteInt16BE(And16(value), r.offset);
          OneByteBoth(ToInt32(value) / 0x1_0000);
          ShiftSixteen(value);
          TwoPartsBE(before, middle, data[..], value, ToInt32(value) / 0x1_0000, And16(value), offset, 1, 2, r1, r);
        }
      case 4 => r := WriteInt32BE(value, offset);
      case _ => r := RangeError;
    }

    /** DataView's `getUint8` to `getInt32`. */
    method GetInteger(offset: nat, size: nat, littleEndian: bool, signed: bool) returns (r: Read)
      ensures r == if offset + size > data.Length then OutOfRange
                   else
                     var s := data[offset..offset + size];
                     var v := if littleEndian then ValueLE(s) else ValueBE(s);
                     Value(if signed then Signed(v, size) else v)
    {
      if offset + size > data.Length {
        return OutOfRange;
      }
      var v := if littleEndian then ValueLE(data[offset..offset + size]) else ValueBE(data[offset..offset + size]);
      return Value(if signed then Signed(v, size) else v);
    }

    method ReadUInt8(offset: nat) returns (r: Read)
      ensures r == if offset + 1 <= data.Length then Value(ValueLE(data[offset..offset + 1])) else OutOfRange
    {
      r := GetInteger(offset, 1, true, false);
    }

    method ReadUInt16LE(offset: nat) returns (r: Read)
      ensures r == if offset + 2 <= data.Length then Value(ValueLE(data[offset..offset + 2])) else OutOfRange
    {
      r := GetInteger(offset, 2, true, false);
    }

    method ReadUInt16BE(offset: nat) returns (r: Read)
      ensures r == if offset + 2 <= data.Length then Value(ValueBE(data[offset..offset + 2])) else OutOfRange
    {
      r := GetInteger(offset, 2, false, false);
    }

    method ReadUInt32LE(offset: nat) returns (r: Read)
      ensures r == if offset + 4 <= data.Length then Value(ValueLE(data[offset..offset + 4])) else OutOfRange
    {
      r := GetInteger(offset, 4, true, false);
    }

    method ReadUInt32BE(offset: nat) returns (r: Read)
      ensures r == if offset + 4 <= data.Length then Value(ValueBE(data[offset..offset + 4])) else OutOfRange
    {
      r := GetInteger(offset, 4, false, false);
    }

    method ReadInt8(offset: nat) returns (r: Read)
      ensures r == if offset + 1 <= data.Length then Value(Signed(ValueLE(data[offset..offset + 1]), 1)) else OutOfRange
    {
      r := GetInteger(offset, 1, true, true);
    }

    method ReadInt16LE(offset: nat) returns (r: Read)
      ensures r == if offset + 2 <= data.Length then Value(Signed(ValueLE(data[offset..offset + 2]), 2)) else OutOfRange
    {
      r := GetInteger(offset, 2, true, true);
    }

    method ReadInt16BE(offset: nat) returns (r: Read)
      ensures r == if offset + 2 <= data.Length then Value(Signed(ValueBE(data[offset..offset + 2]), 2)) else OutOfRange
    {
      r := GetInteger(offset, 2, false, true);
    }

    method ReadInt32LE(offset: nat) returns (r: Read)
      ensures r == if offset + 4 <= data.Length then Value(Signed(ValueLE(data[offset..offset + 4]), 4)) else OutOfRange
    {
      r := GetInteger(offset, 4, true, true);
    }

    method ReadInt32BE(offset: nat) returns (r: Read)
      ensures r == if offset + 4 <= data.Length then Value(Signed(ValueBE(data[offset..offset + 4]), 4)) else OutOfRange
    {
      r := GetInteger(offset, 4, false, true);
    }

    /** `readUIntLE`: widths 1 to 6. */
    method ReadUIntLE(offset: nat, byteLength: nat) returns (r: Read)
      ensures r == if 1 <= byteLength <= 6 && offset + byteLength <= data.Length
                   then Value(ValueLE(data[offset..offset + byteLength])) else OutOfRange
    {
      hide ValueLE, Pow256;
      match byteLength
      case 1 => r := ReadUInt8(offset);
      case 2 => r := ReadUInt16LE(offset);
      case 3 =>
        var low := ReadUInt16LE(offset);
        var high := ReadUInt8(offset + 2);
        r := if low.Value? && high.Value? then Value(low.value + 0x1_0000 * high.value) else OutOfRange;
        if offset + 3 <= data.Length {
          Powers();
          SliceLE(data[..], offset, 2, 1);
        }
      case 4 => r := ReadUInt32LE(offset);
      case 5 =>
        var low := ReadUInt32LE(offset);
        var high := ReadUInt8(offset + 4);
        r := if low.Value? && high.Value? then Value(low.value + TWO32 * high.value) else OutOfRange;
        if offset + 5 <= data.Length {
          Powers();
          SliceLE(data[..], offset, 4, 1);
        }
      case 6 =>
        var low := ReadUInt32LE(offset);
        var high := ReadUInt16LE(offset + 4);
        r := if low.Value? && high.Value? then Value(low.value + TWO32 * high.value) else OutOfRange;
        if offset + 6 <= data.Length {
          Powers();
          SliceLE(data[..], offset, 4, 2);
        }
      case _ => r := OutOfRange;
    }

    /** `readUIntBE`: widths 1 to 6. */
    method ReadUIntBE(offset: nat, byteLength: nat) returns (r: Read)
      ensures r == if 1 <= byteLength <= 6 && offset + byteLength <= data.Length
                   then Value(ReadBE(data[offset..offset + byteLength])) else OutOfRange
    {
      hide ValueBE, ValueLE, Pow256, NumberOf;
      match byteLength
      case 1 =>
        r := ReadUInt8(offset);
        if offset + 1 <= data.Length { OneByteValue(data[offset..offset + 1]); }
      case 2 => r := ReadUInt16BE(offset);
      case 3 =>
        var high := ReadUInt8(offset);
        var low := ReadUInt16BE(offset + 1);
        r := if low.Value? && high.Value? then Value(0x1_0000 * high.value + low.value) else OutOfRange;
        if offset + 3 <= data.Length {
          Powers();
          SliceBE(data[..], offset, 1, 2);
          OneByteValue(data[offset..offset + 1]);
        }
      case 4 => r := ReadUInt32BE(offset);
      case 5 =>
        var high := ReadUInt32BE(offset);
        var low := ReadUInt8(offset + 4);
        r := if low.Value? && high.Value? then Value(NumberOf(TWO32 * high.value + low.value)) else OutOfRange;
        if offset + 5 <= data.Length {
          SliceParts(data[..], offset, 4, 1);
          OneByteValue(data[offset + 4..offset + 5]);
        }
      case 6 =>
        var high := ReadUInt32BE(offset);
        var low := ReadUInt16BE(offset + 4);
        r := if low.Value? && high.Value? then Value(NumberOf(TWO32 * high.value + low.value)) else OutOfRange;
        if offset + 6 <= data.Length {
          SliceParts(data[..], offset, 4, 2);
        }
      case _ => r := OutOfRange;
    }

    /** `readIntLE`: widths 1 to 4. */
    method ReadIntLE(offset: nat, byteLength: nat) returns (r: Read)
      ensures r == if 1 <= byteLength <= 4 && offset + byteLength <= data.Length
                   then Value(Signed(ValueLE(data[offset..offset + byteLength]), byteLength)) else OutOfRange
    {
      hide ValueLE, Pow256;
      match byteLength
      case 1 => r := ReadInt8(offset);
      case 2 => r := ReadInt16LE(offset);
      case 3 =>
        var low := ReadUInt16LE(offset);
        var high := ReadInt8(offset + 2);
        r := if low.Value? && high.Value? then Value(low.value + 0x1_0000 * high.value) else OutOfRange;
        if offset + byteLength <= data.Length {
          var s := data[offset..offset + 3];
          assert s[..2] == data[offset..offset + 2] && s[2..] == data[offset + 2..offset + 2 + 1];
          JoinLE(s, 2);
          ValueBound(s[..2]);
          SignedThree(ValueLE(s[..2]), ValueLE(s[2..]));
        }
      case 4 => r := ReadInt32LE(offset);
      case _ => r := OutOfRange;
    }

    /** `readIntBE`: widths 1 to 4. */
    method ReadIntBE(offset: nat, byteLength: nat) returns (r: Read)
      ensures r == if 1 <= byteLength <= 4 && offset + byteLength <= data.Length
                   then Value(Signed(ValueBE(data[offset..offset + byteLength]), byteLength)) else OutOfRange
    {
      hide ValueBE, ValueLE, Pow256;
      match byteLength
      case 1 =>
        r := ReadInt8(offset);
        if offset < data.Length { OneByteValue(data[offset..offset + 1]); }
      case 2 => r := ReadInt16BE(offset);
      case 3 =>
        var high := ReadInt8(offset);
        var low := ReadUInt16BE(offset + 1);
        r := if low.Value? && high.Value? then Value(0x1_0000 * high.value + low.value) else OutOfRange;
        if offset + byteLength <= data.Length {
          var s := data[offset..offset + 3];
          assert s[..1] == data[offset..offset + 1] && s[1..] == data[offset + 1..offset + 1 + 2];
          JoinBE(s, 1);
          OneByteValue(s[..1]);
          ValueBoundBE(s[1..]);
          SignedThree(ValueBE(s[1..]), ValueBE(s[..1]));
        }
      case 4 => r := ReadInt32BE(offset);
      case _ => r := OutOfRange;
    }
  }

  lemma ShiftParts(value: int)
    ensures And16(value) % Pow256(2) == value % Pow256(2)
    ensures (ToUint32(value) / 0x1_0000) % Pow256(1) == (value / Pow256(2)) % Pow256(1)
  {
    Powers();
    var q, r := value / TWO32, value % TWO32;
    assert value == 0x1_0000 * (0x1_0000 * q + r / 0x1_0000) + r % 0x1_0000;
    ModUnique(value, 0x1_0000, 0x1_0000 * q + r / 0x1_0000, r % 0x1_0000);
    var h := r / 0x1_0000;
    assert 0x1_0000 * q + h == 0x100 * (0x100 * q + h / 0x100) + h % 0x100;
    ModUnique(0x1_0000 * q + h, 0x100, 0x100 * q + h / 0x100, h % 0x100);
  }

  lemma ShiftEight(value: int)
    ensures And8(value) % Pow256(1) == value % Pow256(1)
    ensures (ToInt32(value) / 0x100) % Pow256(2) == (value / Pow256(1)) % Pow256(2)
  {
    Powers();
    var q, r := value / TWO32, ToInt32(value);
    var k := if value % TWO32 >= 0x8000_0000 then q + 1 else q;
    assert value == TWO32 * k + r;
    var h := r / 0x100;
    ModUnique(value, 0x100, 0x100_0000 * k + h, r % 0x100);
    ModUnique(0x100_0000 * k + h, 0x1_0000, 0x100 * k + h / 0x1_0000, h % 0x1_0000);
    ModUnique(value % TWO32, 0x100, (value % TWO32) / 0x100, r % 0x100) by {
      assert (value % TWO32) % 0x100 == r % 0x100;
    }
  }

  lemma ShiftSixteen(value: int)
    ensures And16(value) % Pow256(2) == value % Pow256(2)
    ensures (ToInt32(value) / 0x1_0000) % Pow256(1) == (value / Pow256(2)) % Pow256(1)
  {
    ShiftParts(value);
    Powers();
    var q, r := value / TWO32, ToInt32(value);
    var k := if value % TWO32 >= 0x8000_0000 then q + 1 else q;
    assert value == TWO32 * k + r;
    var h := r / 0x1_0000;
    ModUnique(value, 0x1_0000, 0x1_0000 * k + h, r % 0x1_0000);
    ModUnique(0x1_0000 * k + h, 0x100, 0x100 * k + h / 0x100, h % 0x100);
  }

  // ---- Reading in two parts

  lemma {:induction false} JoinLE(s: seq<byte>, n: nat)
    requires n <= |s|
    ensures ValueLE(s) == ValueLE(s[..n]) + Pow256(n) * ValueLE(s[n..])
  {
    if n == 0 {
      assert s[0..] == s;
    } else {
      var t, v, p := s[1..], ValueLE(s[n..]), Pow256(n - 1);
      JoinLE(t, n - 1);
      assert t[n - 1..] == s[n..];
      assert ValueLE(s[..n]) == s[0] + 256 * ValueLE(t[..n - 1]) by {
        assert s[..n][1..] == t[..n - 1];
      }
      MulAssoc(p, v);
    }
  }

  lemma MulAssoc(p: int, v: int)
    ensures 256 * (p * v) == (256 * p) * v
  {
  }

  lemma JoinBE(s: seq<byte>, n: nat)
    requires n <= |s|
    ensures ValueBE(s) == Pow256(|s| - n) * ValueBE(s[..n]) + ValueBE(s[n..])
  {
    assert s == s[..n] + s[n..];
    ReverseConcat(s[..n], s[n..]);
    var r, k := Reverse(s), |s| - n;
    JoinLE(r, k);
    assert r[..k] == Reverse(s[n..]) && r[k..] == Reverse(s[..n]);
  }

  lemma SliceParts(b: seq<byte>, o: nat, n: nat, m: nat)
    requires o + n + m <= |b|
    ensures var s := b[o..o + (n + m)]; s[..n] == b[o..o + n] && s[n..] == b[o + n..o + n + m]
  {
  }

  lemma SliceLE(b: seq<byte>, o: nat, n: nat, m: nat)
    requires o + n + m <= |b|
    ensures ValueLE(b[o..o + (n + m)]) == ValueLE(b[o..o + n]) + Pow256(n) * ValueLE(b[o + n..o + n + m])
  {
    SliceParts(b, o, n, m);
    JoinLE(b[o..o + (n + m)], n);
  }

  lemma SliceBE(b: seq<byte>, o: nat, n: nat, m: nat)
    requires o + n + m <= |b|
    ensures ValueBE(b[o..o + (n + m)]) == Pow256(m) * ValueBE(b[o..o + n]) + ValueBE(b[o + n..o + n + m])
  {
    SliceParts(b, o, n, m);
    JoinBE(b[o..o + (n + m)], n);
  }

  lemma OneByteValue(s: seq<byte>)
    requires |s| == 1
    ensures ValueBE(s) == ValueLE(s)
  {
    assert s[1..] == [];
    assert Reverse(s) == [s[0]] == s;
  }

  lemma ValueBoundBE(s: seq<byte>)
    ensures ValueBE(s) < Pow256(|s|)
  {
    ValueBound(Reverse(s));
  }

  /** The sign of a three-byte value is that of its upper byte. */
  lemma SignedThree(low: nat, high: nat)
    requires low < Pow256(2)
    ensures low + 0x1_0000 * Signed(high, 1) == Signed(low + Pow256(2) * high, 3)
  {
  }

  // ---- Writing and reading back

  /** Writing and reading at the same place and width gives the value back exactly if it fits the width; big-endian
      unsigned values of 5 and 6 bytes are the exception (see `WideBigEndianRoundTripIff`). */
  lemma WriteThenRead(before: seq<byte>, offset: nat, v: int, width: nat)
    requires offset + width <= |before| && width > 0
    ensures var le := Stored(before, offset, DigitsLE(v, width))[offset..offset + width];
            var be := Stored(before, offset, DigitsBE(v, width))[offset..offset + width];
            && (ValueLE(le) == v <==> 0 <= v < Pow256(width))
            && (width <= 4 ==> (ReadBE(be) == v <==> 0 <= v < Pow256(width)))
            && (Signed(ValueLE(le), width) == v <==> -Pow256(width) <= 2 * v < Pow256(width))
            && (Signed(ValueBE(be), width) == v <==> -Pow256(width) <= 2 * v < Pow256(width))
  {
    hide DigitsLE, Reverse, ValueLE, Pow256;
    StoredSlice(before, offset, DigitsLE(v, width));
    StoredSlice(before, offset, DigitsBE(v, width));
    UnsignedFits(v, width);
    SignedFits(v, width);
  }

  lemma StoredSlice(b: seq<byte>, offset: nat, s: seq<byte>)
    requires offset + |s| <= |b|
    ensures Stored(b, offset, s)[offset..offset + |s|] == s
  {
  }
}
