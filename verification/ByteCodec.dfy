/** Integers of 1 to 8 bytes in a buffer: the writers and readers of `Bytes`. */
module ByteCodec {
  import opened HexCodec

  /** Either the offset after the access, or JavaScript's RangeError. */
  datatype Access = At(offset: nat) | RangeError

  datatype Read = Value(value: int) | OutOfRange

  // ---- Positional digits

  function Pow256(n: nat): (p: int)
    ensures p > 0
  {
    if n == 0 then 1 else 256 * Pow256(n - 1)
  }

  /** The base-256 digits of an integer, least significant first; negative numbers in two's complement. */
  function DigitsLE(v: int, width: nat): (s: seq<byte>)
    ensures |s| == width
    decreases width
  {
    if width == 0 then [] else [v % 256] + DigitsLE(v / 256, width - 1)
  }

  function Reverse(s: seq<byte>): (r: seq<byte>)
    ensures |r| == |s|
  {
    if s == [] then [] else Reverse(s[1..]) + [s[0]]
  }

  function DigitsBE(v: int, width: nat): (s: seq<byte>)
    ensures |s| == width
  {
    Reverse(DigitsLE(v, width))
  }

  function ValueLE(s: seq<byte>): nat {
    if s == [] then 0 else s[0] + 256 * ValueLE(s[1..])
  }

  function ValueBE(s: seq<byte>): nat {
    ValueLE(Reverse(s))
  }

  /** A value of `width` bytes read as two's complement. */
  function Signed(v: int, width: nat): int {
    if 2 * v >= Pow256(width) then v - Pow256(width) else v
  }

  lemma DivMod(v: int, m: int)
    requires m > 0
    ensures v % (256 * m) == v % 256 + 256 * ((v / 256) % m)
  {
    var q, r := v / 256, v % 256;
    var a, b := q / m, q % m;
    assert v == 256 * (m * a + b) + r;
    assert v == (256 * m) * a + (256 * b + r) by {
      assert 256 * (m * a) == (256 * m) * a;
    }
    assert 0 <= 256 * b + r < 256 * m;
    ModUnique(v, 256 * m, a, 256 * b + r);
  }

  lemma ModUnique(v: int, m: int, q: int, r: int)
    requires m > 0 && v == m * q + r && 0 <= r < m
    ensures v % m == r && v / m == q
  {
    var d := v / m - q;
    assert v == m * (v / m) + v % m;
    assert m * d == r - v % m by {
      assert m * d == m * (v / m) - m * q;
    }
    MulBound(m, d);
  }

  lemma MulBound(m: int, d: int)
    requires m > 0
    ensures d >= 1 ==> m * d >= m
    ensures d <= -1 ==> m * d <= -m
  {
  }

  /** The stored digits have the value modulo the width. */
  lemma {:induction false} ValueOfDigits(v: int, width: nat)
    ensures ValueLE(DigitsLE(v, width)) == v % Pow256(width)
    decreases width
  {
    if width > 0 {
      ValueOfDigits(v / 256, width - 1);
      DivMod(v, Pow256(width - 1));
      assert DigitsLE(v, width)[1..] == DigitsLE(v / 256, width - 1);
    }
  }

  lemma {:induction false} ReverseTwice(s: seq<byte>)
    ensures Reverse(Reverse(s)) == s
  {
    if s != [] {
      ReverseTwice(s[1..]);
      ReverseAppend(Reverse(s[1..]), s[0]);
    }
  }

  lemma {:induction false} ReverseAppend(s: seq<byte>, b: byte)
    ensures Reverse(s + [b]) == [b] + Reverse(s)
  {
    if s == [] {
      assert s + [b] == [b];
      assert [b][1..] == [];
    } else {
      assert (s + [b])[1..] == s[1..] + [b];
      ReverseAppend(s[1..], b);
    }
  }

  lemma {:induction false} ReverseConcat(s: seq<byte>, t: seq<byte>)
    ensures Reverse(s + t) == Reverse(t) + Reverse(s)
  {
    if s == [] {
      assert s + t == t;
      assert Reverse(t) + [] == Reverse(t);
    } else {
      assert (s + t)[1..] == s[1..] + t;
      ReverseConcat(s[1..], t);
    }
  }

  /** Unsigned round trip, exactly for the values that fit. */
  lemma UnsignedFits(v: int, width: nat)
    ensures ValueLE(DigitsLE(v, width)) == v <==> 0 <= v < Pow256(width)
    ensures ValueBE(DigitsBE(v, width)) == v <==> 0 <= v < Pow256(width)
  {
    ValueOfDigits(v, width);
    ReverseTwice(DigitsLE(v, width));
    if 0 <= v < Pow256(width) {
      ModUnique(v, Pow256(width), 0, v);
    }
  }

  /** Signed round trip, exactly for the values that fit. */
  lemma SignedFits(v: int, width: nat)
    requires width > 0
    ensures Signed(ValueLE(DigitsLE(v, width)), width) == v <==> -Pow256(width) <= 2 * v < Pow256(width)
    ensures Signed(ValueBE(DigitsBE(v, width)), width) == v <==> -Pow256(width) <= 2 * v < Pow256(width)
  {
    ValueOfDigits(v, width);
    var m := Pow256(width);
    ReverseTwice(DigitsLE(v, width));
    if 0 <= v < m {
      ModUnique(v, m, 0, v);
    } else if -m <= v < 0 {
      ModUnique(v, m, -1, v + m);
    }
  }

  // ---- Splitting a value for two partial writes

  lemma {:induction false} DigitsSplit(v: int, low: nat, high: nat)
    ensures DigitsLE(v, low + high) == DigitsLE(v, low) + DigitsLE(v / Pow256(low), high)
    decreases low
  {
    if low == 0 {
      assert v / Pow256(0) == v;
    } else {
      var m := Pow256(low - 1);
      DigitsSplit(v / 256, low - 1, high);
      DivDiv(v, m);
      assert Pow256(low) == 256 * m;
      var rest := DigitsLE(v / 256 / m, high);
      assert DigitsLE(v, low + high) == [v % 256] + (DigitsLE(v / 256, low - 1) + rest);
      assert DigitsLE(v, low) == [v % 256] + DigitsLE(v / 256, low - 1);
    }
  }

  lemma DivDiv(v: int, m: int)
    requires m > 0
    ensures v / 256 / m == v / (256 * m)
  {
    var q, r := v / 256, v % 256;
    var a, b := q / m, q % m;
    assert v == (256 * m) * a + (256 * b + r) by {
      assert 256 * (m * a) == (256 * m) * a;
    }
    ModUnique(v, 256 * m, a, 256 * b + r);
  }

  /** Only the value modulo the width matters. */
  lemma {:induction false} DigitsMod(v: int, w: int, width: nat)
    requires v % Pow256(width) == w % Pow256(width)
    ensures DigitsLE(v, width) == DigitsLE(w, width)
    decreases width
  {
    if width > 0 {
      var m := Pow256(width - 1);
      DivMod(v, m);
      DivMod(w, m);
      DigitsMod(v / 256, w / 256, width - 1);
    }
  }

  lemma BESplit(v: int, low: nat, high: nat)
    ensures DigitsBE(v, low + high) == DigitsBE(v / Pow256(low), high) + DigitsBE(v, low)
  {
    DigitsSplit(v, low, high);
    ReverseConcat(DigitsLE(v, low), DigitsLE(v / Pow256(low), high));
  }

  lemma Powers()
    ensures Pow256(1) == 0x100 && Pow256(2) == 0x1_0000 && Pow256(3) == 0x100_0000 && Pow256(4) == 0x1_0000_0000
  {
  }

  // ---- JavaScript's integer operators

  const TWO32 := 0x1_0000_0000

  /** The value as an unsigned 32-bit integer. */
  function ToUint32(v: int): nat {
    v % TWO32
  }

  /** The value as a signed 32-bit integer. */
  function ToInt32(v: int): int {
    if v % TWO32 >= 0x8000_0000 then v % TWO32 - TWO32 else v % TWO32
  }

  /** `v & 0xffff` */
  function And16(v: int): nat {
    ToUint32(v) % 0x1_0000
  }

  /** `v & 0xff` */
  function And8(v: int): nat {
    ToUint32(v) % 0x100
  }

  /** The bytes `s` written over `old` at `offset`. */
  function Stored(old': seq<byte>, offset: nat, s: seq<byte>): seq<byte>
    requires offset + |s| <= |old'|
  {
    old'[..offset] + s + old'[offset + |s|..]
  }

  lemma StoredTwice(b: seq<byte>, offset: nat, s: seq<byte>, t: seq<byte>)
    requires offset + |s| + |t| <= |b|
    ensures Stored(Stored(b, offset, s), offset + |s|, t) == Stored(b, offset, s + t)
  {
  }
}
