/** Hexadecimal encoding and decoding of byte arrays, and concatenation. */
module HexCodec {
  import opened Wrappers

  type byte = x: nat | x < 256

  datatype Error = OddLength | InvalidCharacter(position: nat)

  // ---- Single digits

  function HexDigit(d: nat): char
    requires d < 16
  {
    if d < 10 then '0' + d as char else 'a' + (d - 10) as char
  }

  /** The lookup table for hexadecimal digits; `None` is JavaScript's `undefined`. */
  function NibbleOf(c: char): (n: Option<nat>)
    ensures n.Some? ==> n.value < 16
  {
    if '0' <= c <= '9' then Some((c - '0') as nat)
    else if 'a' <= c <= 'f' then Some((c - 'a') as nat + 10)
    else if 'A' <= c <= 'F' then Some((c - 'A') as nat + 10)
    else None
  }

  function LowerCase(c: char): char {
    if 'A' <= c <= 'F' then 'a' + (c - 'A') else c
  }

  /** `n.toString(16)`. */
  function ToBase16(n: nat): string {
    if n < 16 then [HexDigit(n)] else ToBase16(n / 16) + [HexDigit(n % 16)]
  }

  function PadStart(s: string, length: nat): string
    decreases if |s| < length then length - |s| else 0
  {
    if |s| >= length then s else PadStart("0" + s, length)
  }

  /** An entry of the byte-to-hex lookup table. */
  function HexOf(b: byte): string {
    PadStart(ToBase16(b), 2)
  }

  lemma HexOfIsTwoDigits(b: byte)
    ensures HexOf(b) == [HexDigit(b / 16), HexDigit(b % 16)]
  {
    if b < 16 {
      assert ToBase16(b) == [HexDigit(b)];
      assert PadStart("0" + [HexDigit(b)], 2) == "0" + [HexDigit(b)];
    } else {
      assert ToBase16(b / 16) == [HexDigit(b / 16)];
    }
  }

  // ---- Whole arrays

  function ToHex(bytes: seq<byte>): string {
    if bytes == [] then "" else ToHex(bytes[..|bytes| - 1]) + HexOf(bytes[|bytes| - 1])
  }

  /** The bytes of the first `n` pairs of characters. */
  function FromPairs(s: string, n: nat): Result<seq<byte>, Error>
    requires 2 * n <= |s|
  {
    if n == 0 then Ok([])
    else
      var init := FromPairs(s, n - 1);
      var high, low := NibbleOf(s[2 * n - 2]), NibbleOf(s[2 * n - 1]);
      if init.Err? then init
      else if high.None? || low.None? then Err(InvalidCharacter(2 * n - 2))
      else Ok(init.value + [16 * high.value + low.value])
  }

  function FromHex(s: string): Result<seq<byte>, Error> {
    if |s| % 2 != 0 then Err(OddLength) else FromPairs(s, |s| / 2)
  }

  /** `uint8ArrayToHex`. */
  method Uint8ArrayToHex(bytes: array<byte>) returns (hex: string)
    ensures hex == ToHex(bytes[..])
  {
    hex := "";
    for index := 0 to bytes.Length
      invariant hex == ToHex(bytes[..index])
    {
      assert bytes[..index + 1][..index] == bytes[..index];
      hex := hex + HexOf(bytes[index]);
    }
    assert bytes[..bytes.Length] == bytes[..];
  }

  /** `hexToUint8Array`. */
  method HexToUint8Array(hexString: string) returns (r: Result<array<byte>, Error>)
    ensures r.Ok? ==> fresh(r.value) && FromHex(hexString) == Ok(r.value[..])
    ensures r.Err? ==> FromHex(hexString) == Err(r.error)
  {
    hide NibbleOf;
    if |hexString| % 2 != 0 {
      return Err(OddLength);
    }
    var resultLength := |hexString| / 2;
    var bytes := new byte[resultLength](_ => 0);
    for index := 0 to resultLength
      invariant FromPairs(hexString, index) == Ok(bytes[..index])
    {
      var high := NibbleOf(hexString[index * 2]);
      var low := NibbleOf(hexString[index * 2 + 1]);
      if high.None? || low.None? {
        FirstErrorStays(hexString, index + 1, resultLength);
        return Err(InvalidCharacter(index * 2));
      }
      bytes[index] := high.value * 16 + low.value;
      assert bytes[..index + 1] == bytes[..index] + [bytes[index]];
    }
    assert bytes[..resultLength] == bytes[..];
    return Ok(bytes);
  }

  lemma {:induction false} FirstErrorStays(s: string, n: nat, m: nat)
    requires n <= m && 2 * m <= |s| && FromPairs(s, n).Err?
    ensures FromPairs(s, m) == FromPairs(s, n)
    decreases m - n
  {
    if n < m {
      FirstErrorStays(s, n, m - 1);
    }
  }

  // ---- Encoding and decoding are inverse

  lemma NibbleOfDigit(d: nat)
    requires d < 16
    ensures NibbleOf(HexDigit(d)) == Some(d)
  {
  }

  lemma {:induction false} HexLength(bytes: seq<byte>)
    ensures |ToHex(bytes)| == 2 * |bytes|
  {
    if bytes != [] {
      HexLength(bytes[..|bytes| - 1]);
      HexOfIsTwoDigits(bytes[|bytes| - 1]);
    }
  }

  lemma {:induction false} PairsOfPrefix(s: string, t: string, n: nat)
    requires 2 * n <= |s|
    ensures FromPairs(s + t, n) == FromPairs(s, n)
  {
    if n > 0 {
      PairsOfPrefix(s, t, n - 1);
    }
  }

  lemma EncodedLast(bytes: seq<byte>)
    requires bytes != []
    ensures ToHex(bytes) == ToHex(bytes[..|bytes| - 1]) + HexOf(bytes[|bytes| - 1])
  {
  }

  /** Decoding what was encoded gives the bytes back. */
  lemma {:induction false} DecodeEncoded(bytes: seq<byte>)
    ensures FromHex(ToHex(bytes)) == Ok(bytes)
  {
    hide NibbleOf, HexDigit, HexOf;
    HexLength(bytes);
    if bytes != [] {
      var n := |bytes| - 1;
      var s := ToHex(bytes[..n]);
      HexLength(bytes[..n]);
      DecodeEncoded(bytes[..n]);
      hide ToHex;
      assert ToHex(bytes) == s + HexOf(bytes[n]) by { EncodedLast(bytes); }
      HexOfIsTwoDigits(bytes[n]);
      PairsOfPrefix(s, HexOf(bytes[n]), n);
      NibbleOfDigit(bytes[n] / 16);
      NibbleOfDigit(bytes[n] % 16);
      assert bytes == bytes[..n] + [bytes[n]];
    }
  }

  predicate AllHex(s: string) {
    forall i | 0 <= i < |s| :: '0' <= s[i] <= '9' || 'a' <= s[i] <= 'f' || 'A' <= s[i] <= 'F'
  }

  function Lower(s: string): string {
    seq(|s|, i requires 0 <= i < |s| => LowerCase(s[i]))
  }

  lemma DigitOfNibble(c: char)
    requires NibbleOf(c).Some?
    ensures HexDigit(NibbleOf(c).value) == LowerCase(c)
  {
  }

  lemma {:induction false} PairsOkIff(s: string, n: nat)
    requires 2 * n <= |s|
    ensures FromPairs(s, n).Ok? <==> forall i | 0 <= i < 2 * n :: NibbleOf(s[i]).Some?
  {
    hide NibbleOf;
    if n > 0 {
      PairsOkIff(s, n - 1);
    }
  }

  lemma {:induction false} EncodePairs(s: string, n: nat)
    requires 2 * n <= |s| && FromPairs(s, n).Ok?
    ensures ToHex(FromPairs(s, n).value) == Lower(s[..2 * n])
  {
    hide NibbleOf, HexDigit, LowerCase, HexOf;
    if n > 0 {
      EncodePairs(s, n - 1);
      var m := 2 * n - 2;
      var init, high, low := FromPairs(s, n - 1).value, NibbleOf(s[m]).value, NibbleOf(s[m + 1]).value;
      var b := 16 * high + low;
      assert (init + [b])[..|init|] == init;
      HexOfIsTwoDigits(b);
      assert b / 16 == high && b % 16 == low;
      DigitOfNibble(s[m]);
      DigitOfNibble(s[m + 1]);
      assert Lower(s[..2 * n]) == Lower(s[..m]) + [LowerCase(s[m]), LowerCase(s[m + 1])];
    }
  }

  /** Decoding succeeds exactly for an even number of hexadecimal digits, and encoding the result gives the string
      back in lower case. */
  lemma EncodeDecoded(s: string)
    ensures FromHex(s).Ok? <==> |s| % 2 == 0 && AllHex(s)
    ensures FromHex(s).Ok? ==> ToHex(FromHex(s).value) == Lower(s)
  {
    if |s| % 2 == 0 {
      assert s[..2 * (|s| / 2)] == s;
      PairsOkIff(s, |s| / 2);
      if FromHex(s).Ok? {
        EncodePairs(s, |s| / 2);
      }
    }
  }

  /** Decoding fails exactly for an odd length, and otherwise at the first pair that holds anything but two hexadecimal
      digits. */
  lemma DecodingFailsIff(s: string)
    ensures FromHex(s) == Err(OddLength) <==> |s| % 2 == 1
    ensures forall p: nat :: FromHex(s) == Err(InvalidCharacter(p)) <==>
                        |s| % 2 == 0 && p % 2 == 0 && p + 2 <= |s| && AllHex(s[..p]) && !AllHex(s[p..p + 2])
  {
    hide AllHex, FromPairs;
    if |s| % 2 == 0 {
      PairsFailIff(s, |s| / 2, 0);
      forall p: nat ensures FromHex(s) == Err(InvalidCharacter(p)) <==>
                       p % 2 == 0 && p + 2 <= |s| && AllHex(s[..p]) && !AllHex(s[p..p + 2])
      {
        PairsFailIff(s, |s| / 2, p);
      }
    }
  }

  lemma {:induction false} PairsFailIff(s: string, n: nat, p: nat)
    requires 2 * n <= |s|
    ensures FromPairs(s, n) == Err(InvalidCharacter(p)) <==>
            p % 2 == 0 && p + 2 <= 2 * n && AllHex(s[..p]) && !AllHex(s[p..p + 2])
    ensures FromPairs(s, n) != Err(OddLength)
  {
    hide AllHex;
    if n > 0 {
      PairsFailIff(s, n - 1, p);
      PairIsHex(s, 2 * n - 2);
      PairsOkIff(s, n - 1);
      PrefixIsHex(s, 2 * n - 2);
    }
  }

  lemma PairIsHex(s: string, p: nat)
    requires p + 2 <= |s|
    ensures AllHex(s[p..p + 2]) <==> NibbleOf(s[p]).Some? && NibbleOf(s[p + 1]).Some?
  {
    assert s[p..p + 2] == [s[p], s[p + 1]];
    assert AllHex([s[p], s[p + 1]]) ==> AllHex([s[p]]) by {
      assert [s[p], s[p + 1]][0] == s[p] && [s[p], s[p + 1]][1] == s[p + 1];
    }
  }

  lemma PrefixIsHex(s: string, n: nat)
    requires n <= |s|
    ensures AllHex(s[..n]) <==> forall i | 0 <= i < n :: NibbleOf(s[i]).Some?
  {
    assert forall i | 0 <= i < n :: s[..n][i] == s[i];
  }

  // ---- Concatenation

  /** What can be joined: byte arrays, and other arrays of integers, which are converted when they are copied. */
  datatype Part = Uint8Array(bytes: seq<byte>) | ArrayLike(numbers: seq<int>)

  /** The bytes that end up in the result: numbers modulo 256. */
  function BytesOf(part: Part): seq<byte> {
    match part
    case Uint8Array(bytes) => bytes
    case ArrayLike(numbers) => seq(|numbers|, i requires 0 <= i < |numbers| => numbers[i] % 256)
  }

  function Flatten(parts: seq<Part>): seq<byte> {
    if parts == [] then [] else Flatten(parts[..|parts| - 1]) + BytesOf(parts[|parts| - 1])
  }

  function Zeros(n: nat): seq<byte> {
    seq(n, _ => 0)
  }

  lemma {:induction false} FlattenPrefix(parts: seq<Part>, n: nat)
    requires n <= |parts|
    ensures Flatten(parts[..n]) <= Flatten(parts)
    decreases |parts| - n
  {
    if n < |parts| {
      FlattenPrefix(parts, n + 1);
      assert parts[..n + 1][..n] == parts[..n];
    } else {
      assert parts[..n] == parts;
    }
  }

  /** Each array is joined behind all arrays before it, and takes up its length. */
  lemma JoinedLength(parts: seq<Part>, k: nat)
    requires k < |parts|
    ensures |Flatten(parts[..k + 1])|
            == |Flatten(parts[..k])| + match parts[k]
                                       case Uint8Array(bytes) => |bytes|
                                       case ArrayLike(numbers) => |numbers|
    ensures Flatten(parts[..0]) == [] && Flatten(parts[..|parts|]) == Flatten(parts)
  {
    assert parts[..k + 1][..k] == parts[..k] && parts[..|parts|] == parts;
  }

  /** The i-th element of the k-th array ends up, modulo 256, at position i behind all arrays before it. */
  lemma {:induction false} JoinedAt(parts: seq<Part>, k: nat, i: nat)
    requires k < |parts| && i < (match parts[k] case Uint8Array(bytes) => |bytes| case ArrayLike(numbers) => |numbers|)
    ensures var at := |Flatten(parts[..k])| + i;
            at < |Flatten(parts)|
            && Flatten(parts)[at] == match parts[k]
                                     case Uint8Array(bytes) => bytes[i]
                                     case ArrayLike(numbers) => numbers[i] % 256
    decreases |parts|
  {
    var n := |parts| - 1;
    if k < n {
      JoinedAt(parts[..n], k, i);
      assert parts[..n][..k] == parts[..k];
    }
  }

  /** `target.set(source, offset)`. */
  method SetAt(target: array<byte>, source: seq<byte>, offset: nat)
    requires offset + |source| <= target.Length
    modifies target
    ensures target[..] == old(target[..offset]) + source + old(target[offset + |source|..])
  {
    forall i | 0 <= i < |source| {
      target[offset + i] := source[i];
    }
  }

  /** The sum of the lengths. */
  method SumOfLengths(parts: seq<Part>) returns (sum: nat)
    ensures sum == |Flatten(parts)|
  {
    sum := 0;
    for i := 0 to |parts|
      invariant sum == |Flatten(parts[..i])|
    {
      assert parts[..i + 1][..i] == parts[..i];
      sum := sum + |BytesOf(parts[i])|;
    }
    assert parts[..|parts|] == parts;
  }

  /** `concatUint8Arrays`: the joined arrays; with a total length, they are cut off or filled up with zeros to that
      length, but no arrays at all give an empty result, whatever the length. */
  method ConcatUint8Arrays(parts: seq<Part>, totalLength: Option<nat>) returns (r: array<byte>)
    ensures fresh(r)
    ensures totalLength.None? ==> r[..] == Flatten(parts)
    ensures totalLength.Some? && parts != [] ==>
              r[..] == (Flatten(parts) + Zeros(totalLength.value))[..totalLength.value]
    ensures parts == [] ==> r[..] == []
  {
    if |parts| == 0 {
      r := new byte[0](_ => 0);
      return;
    }
    var length: nat;
    if totalLength.Some? {
      length := totalLength.value;
    } else {
      length := SumOfLengths(parts);
    }
    r := Fill(parts, length);
  }

  /** The loop that copies one array after the other until the result is full. */
  method Fill(parts: seq<Part>, totalLength: nat) returns (r: array<byte>)
    ensures fresh(r) && r[..] == (Flatten(parts) + Zeros(totalLength))[..totalLength]
  {
    hide BytesOf;
    r := new byte[totalLength](_ => 0);
    var offset := 0;
    for i := 0 to |parts|
      invariant r.Length == totalLength && offset == |Flatten(parts[..i])| <= totalLength
      invariant r[..] == Flatten(parts[..i]) + Zeros(totalLength - offset)
    {
      ghost var before := Flatten(parts[..i]);
      assert parts[..i + 1][..i] == parts[..i];
      FlattenPrefix(parts, i + 1);
      var part := BytesOf(parts[i]);
      if offset + |part| > totalLength {
        part := part[..totalLength - offset];
      }
      SetAt(r, part, offset);
      assert r[..] == before + part + Zeros(totalLength - offset - |part|);
      offset := offset + |part|;
      if offset >= totalLength {
        assert r[..] == before + part == (before + BytesOf(parts[i]))[..totalLength];
        return;
      }
    }
    assert parts[..|parts|] == parts;
  }
}
