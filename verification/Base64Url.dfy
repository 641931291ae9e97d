/**
 * base64url without padding (RFC 4648 sections 5 and 3.5): the strict codec of every binary
 * field in links, bodies and stored token hashes. The repository has two hand-written
 * versions, one for the drop page and one for the TypeScript SDK; their decoders differ in
 * whether they mask the 32-bit accumulator.
 *
 * Bit operations are written as integer arithmetic: a shift left is a product reduced to a
 * signed 32-bit integer, an arithmetic shift right a floored division, a mask a remainder,
 * and an "or" with bits known to be clear a sum.
 */
module Base64Url {
  import opened Prelude
  import Utf8

  type sextet = v: int | 0 <= v < 64

  datatype DecodeError = InvalidLength | InvalidCharacter | NonCanonical

  /** The alphabet of RFC 4648 table 2: A-Z, a-z, 0-9, minus, underscore. */
  function Digit(v: sextet): char {
    if v < 26 then 'A' + v as char
    else if v < 52 then 'a' + (v - 26) as char
    else if v < 62 then '0' + (v - 52) as char
    else if v == 62 then '-'
    else '_'
  }

  /** The lookup table of both decoders: the value of a digit, or -1. */
  function Lookup(c: char): (v: int)
    ensures -1 <= v < 64
  {
    if 'A' <= c <= 'Z' then c as int - 'A' as int
    else if 'a' <= c <= 'z' then c as int - 'a' as int + 26
    else if '0' <= c <= '9' then c as int - '0' as int + 52
    else if c == '-' then 62
    else if c == '_' then 63
    else -1
  }

  lemma LookupDigit(v: sextet)
    ensures Lookup(Digit(v)) == v
  {
  }

  lemma DigitLookup(c: char)
    requires Lookup(c) >= 0
    ensures Digit(Lookup(c)) == c
  {
  }

  // ----- What an encoding is: which bits of the input each output unit holds -----

  function EncodedLength(n: nat): nat {
    n / 3 * 4 + (if n % 3 == 0 then 0 else n % 3 + 1)
  }

  function DecodedLength(n: nat): nat {
    n / 4 * 3 + (if n % 4 == 2 then 1 else if n % 4 == 3 then 2 else 0)
  }

  /** Byte k of b, with zero bits past the end. */
  function ByteOrZero(b: seq<byte>, k: nat): byte {
    if k < |b| then b[k] else 0
  }

  /** The sextet at offset r of the four that hold three bytes. */
  function Sextet(b0: byte, b1: byte, b2: byte, r: nat): sextet {
    if r == 0 then b0 / 4
    else if r == 1 then b0 % 4 * 16 + b1 / 16
    else if r == 2 then b1 % 16 * 4 + b2 / 64
    else b2 % 64
  }

  /** Bits 6i to 6i+5 of b. */
  function SextetAt(b: seq<byte>, i: nat): sextet {
    var q := i / 4 * 3;
    Sextet(ByteOrZero(b, q), ByteOrZero(b, q + 1), ByteOrZero(b, q + 2), i % 4)
  }

  function Encode(b: seq<byte>): (s: string) {
    seq(EncodedLength(|b|), i requires 0 <= i => Digit(SextetAt(b, i)))
  }

  /** The alphabet of section 5 of RFC 4648. */
  lemma AlphabetExactly(v: sextet)
    ensures
      Digit(v) as int == if v < 26 then v + 65 else if v < 52 then v + 71 else if v < 62 then v - 4
        else if v == 62 then 45 else 95
  {
  }

  predicate DigitsUpTo(s: string, i: nat)
    requires i <= |s|
  {
    forall k :: 0 <= k < i ==> Lookup(s[k]) >= 0
  }

  /** The value of digit k of s, or 0 where s has no such digit. */
  function DigitOrZero(s: string, k: nat): sextet {
    if k < |s| && Lookup(s[k]) >= 0 then Lookup(s[k]) else 0
  }

  /** The byte at offset r of the three that four sextets hold. */
  function Octet(v0: sextet, v1: sextet, v2: sextet, v3: sextet, r: nat): byte {
    if r == 0 then v0 * 4 + v1 / 16
    else if r == 1 then v1 % 16 * 16 + v2 / 4
    else v2 % 4 * 64 + v3
  }

  /** Bits 8j to 8j+7 of the digits of s. */
  function ByteAt(s: string, j: nat): byte {
    var q := j / 3 * 4;
    Octet(DigitOrZero(s, q), DigitOrZero(s, q + 1), DigitOrZero(s, q + 2), DigitOrZero(s, q + 3), j % 3)
  }

  /** The bits left over after the last whole byte are zero. */
  predicate NoTrailingBits(s: string) {
    if |s| % 4 == 2 then Lookup(s[|s| - 1]) % 16 == 0
    else if |s| % 4 == 3 then Lookup(s[|s| - 1]) % 4 == 0
    else true
  }

  function Decode(s: string): (r: Result<seq<byte>, DecodeError>) {
    if |s| % 4 == 1 then Failure(InvalidLength)
    else if !DigitsUpTo(s, |s|) then Failure(InvalidCharacter)
    else if !NoTrailingBits(s) then Failure(NonCanonical)
    else Success(seq(DecodedLength(|s|), j requires 0 <= j => ByteAt(s, j)))
  }

  // ----- The codec laws -----

  lemma OctetOfSextets(b0: byte, b1: byte, b2: byte)
    ensures Octet(Sextet(b0, b1, b2, 0), Sextet(b0, b1, b2, 1), Sextet(b0, b1, b2, 2), Sextet(b0, b1, b2, 3), 0) == b0
    ensures Octet(Sextet(b0, b1, b2, 0), Sextet(b0, b1, b2, 1), Sextet(b0, b1, b2, 2), Sextet(b0, b1, b2, 3), 1) == b1
    ensures Octet(Sextet(b0, b1, b2, 0), Sextet(b0, b1, b2, 1), Sextet(b0, b1, b2, 2), Sextet(b0, b1, b2, 3), 2) == b2
  {
  }

  lemma SextetOfOctets(v0: sextet, v1: sextet, v2: sextet, v3: sextet)
    ensures Sextet(Octet(v0, v1, v2, v3, 0), Octet(v0, v1, v2, v3, 1), Octet(v0, v1, v2, v3, 2), 0) == v0
    ensures Sextet(Octet(v0, v1, v2, v3, 0), Octet(v0, v1, v2, v3, 1), Octet(v0, v1, v2, v3, 2), 1) == v1
    ensures Sextet(Octet(v0, v1, v2, v3, 0), Octet(v0, v1, v2, v3, 1), Octet(v0, v1, v2, v3, 2), 2) == v2
    ensures Sextet(Octet(v0, v1, v2, v3, 0), Octet(v0, v1, v2, v3, 1), Octet(v0, v1, v2, v3, 2), 3) == v3
  {
  }

  lemma MultipleAtLeast(m: int, t: int)
    requires m > 0
    ensures t >= 1 ==> m * t >= m
    ensures t <= -1 ==> m * t <= -m
  {
  }

  /** Quotient and remainder are unique. */
  lemma Unique(m: int, q: int, r: int, d: int, e: int)
    requires m * q + r == m * d + e
    requires 0 <= r < m && 0 <= e < m
    ensures q == d && r == e
  {
    assert m * (q - d) == e - r;
    MultipleAtLeast(m, q - d);
  }

  lemma Group(q: int, m: int, r: int)
    requires 0 <= r < m
    ensures (m * q + r) / m == q && (m * q + r) % m == r
  {
    var x := m * q + r;
    var d, e := x / m, x % m;
    assert m * d + e == x;
    Unique(m, q, r, d, e);
  }

  lemma EncodeDigit(b: seq<byte>, i: nat)
    requires i < |Encode(b)|
    ensures Lookup(Encode(b)[i]) == SextetAt(b, i)
  {
    LookupDigit(SextetAt(b, i));
  }

  /** Past its end an encoding stands for zero bits, as the bytes do. */
  lemma EncodeGroup(b: seq<byte>, k: nat, r: nat)
    requires 3 * k < |b| && r < 4
    ensures DigitOrZero(Encode(b), 4 * k + r) == Sextet(b[3 * k], ByteOrZero(b, 3 * k + 1), ByteOrZero(b, 3 * k + 2), r)
  {
    Group(k, 4, r);
    if 4 * k + r < |Encode(b)| {
      EncodeDigit(b, 4 * k + r);
    } else {
      EncodeShort(|b|, k, r);
    }
  }

  /** Three bytes and their four digits are the same number of 24 bits. */
  lemma SameBits(b: seq<byte>, k: nat)
    requires 3 * k + 2 < |b|
    ensures
      var s := Encode(b);
      && 4 * k + 3 < |s|
      && Lookup(s[4 * k]) * 262144 + Lookup(s[4 * k + 1]) * 4096 + Lookup(s[4 * k + 2]) * 64 + Lookup(s[4 * k + 3])
        == b[3 * k] as int * 65536 + b[3 * k + 1] as int * 256 + b[3 * k + 2]
  {
    hide Sextet, SextetAt, Lookup;
    EncodeShort(|b|, k, 3);
    EncodeGroup(b, k, 0);
    EncodeGroup(b, k, 1);
    EncodeGroup(b, k, 2);
    EncodeGroup(b, k, 3);
    EncodeDigit(b, 4 * k);
    EncodeDigit(b, 4 * k + 1);
    EncodeDigit(b, 4 * k + 2);
    EncodeDigit(b, 4 * k + 3);
    SameBitsOf(b[3 * k], b[3 * k + 1], b[3 * k + 2]);
  }

  lemma SameBitsOf(b0: byte, b1: byte, b2: byte)
    ensures
      Sextet(b0, b1, b2, 0) * 262144 + Sextet(b0, b1, b2, 1) * 4096 + Sextet(b0, b1, b2, 2) * 64 + Sextet(b0, b1, b2, 3)
      == b0 as int * 65536 + b1 as int * 256 + b2
  {
  }

  lemma EncodeShort(n: nat, k: nat, r: nat)
    requires 3 * k < n && r < 4
    ensures EncodedLength(n) <= 4 * k + r ==> r >= 2 && n <= 3 * k + r - 1
  {
  }

  /** Decoding an encoding gives the bytes back, whatever they are. */
  lemma DecodeEncode(b: seq<byte>)
    ensures Decode(Encode(b)) == Success(b)
  {
    hide ByteAt, NoTrailingBits, DigitsUpTo, SextetAt;
    var s := Encode(b);
    EncodeLengths(|b|);
    EncodeCanonical(b);
    forall j | 0 <= j < |b| ensures ByteAt(s, j) == b[j] {
      ByteOfEncoding(b, j / 3, j % 3);
    }
    assert Decode(s).value == b;
  }

  lemma EncodeLengths(n: nat)
    ensures EncodedLength(n) % 4 != 1
    ensures DecodedLength(EncodedLength(n)) == n
  {
    var k, r := n / 3, n % 3;
    EncodedLengthOf(k, r);
    DecodedLengthOf(k, if r == 0 then 0 else r + 1);
  }

  lemma EncodeCanonical(b: seq<byte>)
    ensures DigitsUpTo(Encode(b), |Encode(b)|)
    ensures NoTrailingBits(Encode(b))
  {
    hide SextetAt, NoTrailingBits;
    forall i | 0 <= i < |Encode(b)| ensures Lookup(Encode(b)[i]) >= 0 {
      EncodeDigit(b, i);
    }
    EncodeNoTrailing(b, |b| / 3, |b| % 3);
  }

  lemma EncodeNoTrailing(b: seq<byte>, k: nat, r: nat)
    requires |b| == 3 * k + r && r < 3
    ensures NoTrailingBits(Encode(b))
  {
    hide Sextet, SextetAt;
    EncodedLengthOf(k, r);
    Group(k, 4, if r == 0 then 0 else r + 1);
    if r != 0 {
      EncodeGroup(b, k, r);
      EncodeDigit(b, 4 * k + r);
      LastSextet(b[3 * k], ByteOrZero(b, 3 * k + 1));
    }
  }

  /** With no third byte the last digit has zero bits at its end. */
  lemma LastSextet(b0: byte, b1: byte)
    ensures Sextet(b0, 0, 0, 1) % 16 == 0
    ensures Sextet(b0, b1, 0, 2) % 4 == 0
  {
  }

  lemma EncodedLengthOf(k: nat, r: nat)
    requires r < 3
    ensures EncodedLength(3 * k + r) == 4 * k + (if r == 0 then 0 else r + 1)
  {
    Group(k, 3, r);
  }

  lemma DecodedLengthOf(k: nat, r: nat)
    requires r < 4 && r != 1
    ensures (4 * k + r) % 4 != 1
    ensures DecodedLength(4 * k + r) == 3 * k + (if r == 0 then 0 else r - 1)
  {
    Group(k, 4, r);
  }

  lemma BytesWithin(b: seq<byte>, i: nat)
    requires i < |b|
    ensures ByteOrZero(b, i) == b[i]
  {
  }

  lemma ByteOfEncoding(b: seq<byte>, k: nat, r: nat)
    requires 3 * k + r < |b| && r < 3
    ensures ByteAt(Encode(b), 3 * k + r) == b[3 * k + r]
  {
    hide Encode, Sextet, Octet, ByteAt, DigitOrZero, ByteOrZero;
    assert ByteOrZero(b, 3 * k) == b[3 * k] && ByteOrZero(b, 3 * k + r) == b[3 * k + r] by {
      BytesWithin(b, 3 * k);
      BytesWithin(b, 3 * k + r);
    }
    ByteAtGroup(Encode(b), k, r);
    EncodeGroup(b, k, 0);
    EncodeGroup(b, k, 1);
    EncodeGroup(b, k, 2);
    EncodeGroup(b, k, 3);
    OctetOfSextets(b[3 * k], ByteOrZero(b, 3 * k + 1), ByteOrZero(b, 3 * k + 2));
  }

  /** Whatever a decoder accepts is the one encoding of what it returns. */
  lemma EncodeDecode(s: string)
    requires Decode(s).Success?
    ensures Encode(Decode(s).value) == s
  {
    var b := Decode(s).value;
    DecodeLengths(|s|);
    forall i | 0 <= i < |s| ensures Digit(SextetAt(b, i)) == s[i] {
      DecodeGroups(s, i / 4);
      SextetOfGroup(b, s, i);
    }
    assert |Encode(b)| == |s|;
  }

  lemma DecodeLengths(n: nat)
    requires n % 4 != 1
    ensures EncodedLength(DecodedLength(n)) == n
  {
    var k, r := n / 4, n % 4;
    DecodedLengthOf(k, r);
    EncodedLengthOf(k, if r == 0 then 0 else r - 1);
  }

  lemma DecodeGroup(s: string, k: nat, r: nat)
    requires Decode(s).Success? && 4 * k < |s| && r < 3
    ensures
      ByteOrZero(Decode(s).value, 3 * k + r)
      == Octet(DigitOrZero(s, 4 * k), DigitOrZero(s, 4 * k + 1), DigitOrZero(s, 4 * k + 2), DigitOrZero(s, 4 * k + 3),
        r)
  {
    Group(k, 3, r);
    if 3 * k + r >= |Decode(s).value| {
      DecodeShort(|s|, k, r);
      if |s| == 4 * k + 2 {
        Group(k, 4, 2);
      } else {
        Group(k, 4, 3);
      }
    }
  }

  lemma DecodeShort(n: nat, k: nat, r: nat)
    requires 4 * k < n && r < 3 && n % 4 != 1
    ensures DecodedLength(n) <= 3 * k + r ==> (n == 4 * k + 2 && r >= 1) || (n == 4 * k + 3 && r == 2)
  {
  }

  lemma DecodeGroups(s: string, k: nat)
    requires Decode(s).Success? && 4 * k < |s|
    ensures GroupDecoded(Decode(s).value, s, k)
  {
    DecodeGroup(s, k, 0);
    DecodeGroup(s, k, 1);
    DecodeGroup(s, k, 2);
  }

  /** The k-th three bytes of b come from the k-th four digits of s. */
  ghost predicate GroupDecoded(b: seq<byte>, s: string, k: nat) {
    var v0, v1, v2, v3 := DigitOrZero(s, 4 * k), DigitOrZero(s, 4 * k + 1), DigitOrZero(s, 4 * k + 2),
      DigitOrZero(s, 4 * k + 3);
    && ByteOrZero(b, 3 * k) == Octet(v0, v1, v2, v3, 0)
    && ByteOrZero(b, 3 * k + 1) == Octet(v0, v1, v2, v3, 1)
    && ByteOrZero(b, 3 * k + 2) == Octet(v0, v1, v2, v3, 2)
  }

  lemma SextetOfGroup(b: seq<byte>, s: string, i: nat)
    requires i < |s| && Lookup(s[i]) >= 0
    requires GroupDecoded(b, s, i / 4)
    ensures Digit(SextetAt(b, i)) == s[i]
  {
    hide Octet, Sextet, Lookup, Digit;
    var k := i / 4;
    SextetOfOctets(DigitOrZero(s, 4 * k), DigitOrZero(s, 4 * k + 1), DigitOrZero(s, 4 * k + 2),
      DigitOrZero(s, 4 * k + 3));
    Thrice(i);
    assert SextetAt(b, i) == DigitOrZero(s, 4 * k + i % 4);
    DigitLookup(s[i]);
  }

  lemma Thrice(i: nat)
    ensures i / 4 * 3 == 3 * (i / 4) && 4 * (i / 4) + i % 4 == i && i % 4 in {0, 1, 2, 3}
  {
  }

  /** Two different byte strings never share an encoding. */
  lemma EncodeInjective(a: seq<byte>, b: seq<byte>)
    requires Encode(a) == Encode(b)
    ensures a == b
  {
    DecodeEncode(a);
    DecodeEncode(b);
  }

  predicate InAlphabet(c: char) {
    'A' <= c <= 'Z' || 'a' <= c <= 'z' || '0' <= c <= '9' || c == '-' || c == '_'
  }

  /** What encodes nothing is refused: for its length, for a character outside the alphabet, or for bits left over. */
  lemma RefusedExactly(s: string)
    ensures Decode(s).Success? <==> exists b: seq<byte> :: Encode(b) == s
    ensures
      Decode(s).Failure? ==>
        Decode(s).error ==
          if |s| % 4 == 1 then InvalidLength
          else if forall k :: 0 <= k < |s| ==> InAlphabet(s[k]) then NonCanonical
          else InvalidCharacter
  {
    hide Encode, ByteAt, NoTrailingBits, DecodedLength;
    if Decode(s).Success? {
      EncodeDecode(s);
      assert Encode(Decode(s).value) == s;
    }
    if b: seq<byte> :| Encode(b) == s {
      DecodeEncode(b);
    }
    forall k | 0 <= k < |s|
      ensures InAlphabet(s[k]) <==> Lookup(s[k]) >= 0
    {
    }
  }

  lemma DigitIsAscii(v: sextet)
    ensures Digit(v) < 0x80 as char
  {
  }

  lemma EncodeIsAscii(b: seq<byte>)
    ensures Utf8.Ascii(Encode(b))
  {
    hide SextetAt, Digit;
    forall i | 0 <= i < |Encode(b)|
      ensures Encode(b)[i] < 0x80 as char
    {
      DigitIsAscii(SextetAt(b, i));
    }
  }

  // ----- The two decoders -----

  /** The signed 32-bit integer JavaScript's shift operators produce. */
  function ToInt32(x: int): (r: int)
    ensures -0x8000_0000 <= r < 0x8000_0000
    ensures (r - x) % 0x1_0000_0000 == 0
  {
    var m := x % 0x1_0000_0000;
    if m >= 0x8000_0000 then m - 0x1_0000_0000 else m
  }

  /** 1 << bits for the bit counts a decoder can have pending. */
  function Mask(bits: nat): (m: nat)
    ensures m in {1, 4, 16, 64}
  {
    if bits == 0 then 1 else if bits == 2 then 4 else if bits == 4 then 16 else 64
  }

  /** Shifting six bits in, wrap-around or not, keeps the pending bits above the new digit. */
  lemma Shift(acc: int, v: sextet) returns (k: int)
    ensures ToInt32(acc * 64) + v == 64 * acc + 0x1_0000_0000 * k + v
  {
    k := (ToInt32(acc * 64) - acc * 64) / 0x1_0000_0000;
  }

  lemma Shift1(acc: int, v: sextet)
    ensures (ToInt32(acc * 64) + v) % 64 == v
  {
    var k := Shift(acc, v);
    Group(acc + 0x400_0000 * k, 64, v);
  }

  lemma Shift4(acc: int, v: sextet)
    ensures (ToInt32(acc * 64) + v) % 256 == acc % 4 * 64 + v
  {
    var k := Shift(acc, v);
    Group(acc / 4 + 0x100_0000 * k, 256, acc % 4 * 64 + v);
  }

  lemma Shift16(acc: int, v: sextet)
    ensures (ToInt32(acc * 64) + v) % 1024 == acc % 16 * 64 + v
  {
    var k := Shift(acc, v);
    Group(acc / 16 + 0x40_0000 * k, 1024, acc % 16 * 64 + v);
  }

  lemma Shift64(acc: int, v: sextet)
    ensures (ToInt32(acc * 64) + v) % 4096 == acc % 64 * 64 + v
  {
    var k := Shift(acc, v);
    Group(acc / 64 + 0x10_0000 * k, 4096, acc % 64 * 64 + v);
  }

  /** Taking a byte out of an accumulator only looks at its low bits. */
  lemma TakeByte4(acc: int)
    ensures acc / 4 % 256 == acc % 1024 / 4 && acc % 4 == acc % 1024 % 4
  {
    var q, low := acc / 1024, acc % 1024;
    var a, c := low / 4, low % 4;
    Group(256 * q + a, 4, c);
    Group(q, 256, a);
  }

  lemma TakeByte16(acc: int)
    ensures acc / 16 % 256 == acc % 4096 / 16 && acc % 16 == acc % 4096 % 16
  {
    var q, low := acc / 4096, acc % 4096;
    var a, c := low / 16, low % 16;
    Group(256 * q + a, 16, c);
    Group(q, 256, a);
  }

  /** The low bits a decoder carries after r digits of group k. */
  function Pending(s: string, k: nat, r: nat): (low: nat)
    requires r < 4
  {
    if r == 0 then 0
    else if r == 1 then DigitOrZero(s, 4 * k)
    else if r == 2 then DigitOrZero(s, 4 * k + 1) % 16
    else DigitOrZero(s, 4 * k + 2) % 4
  }

  function PendingBits(r: nat): nat
    requires r < 4
  {
    if r == 0 then 0 else 8 - 2 * r
  }

  /** The position after digit r of group k. */
  function NextGroup(k: nat, r: nat): nat {
    if r == 3 then k + 1 else k
  }

  function NextOffset(r: nat): nat {
    if r == 3 then 0 else r + 1
  }

  /** One digit more: the byte it completes, if any, and what is carried on. */
  lemma NextDigit(s: string, k: nat, r: nat, v: sextet)
    requires r < 4 && DigitOrZero(s, 4 * k + r) == v
    ensures
      var x := Pending(s, k, r) * 64 + v;
      && (r == 0 ==> x == Pending(s, k, 1))
      && (r == 1 ==> x / 16 == ByteAt(s, 3 * k) && x % 16 == Pending(s, k, 2))
      && (r == 2 ==> x / 4 == ByteAt(s, 3 * k + 1) && x % 4 == Pending(s, k, 3))
      && (r == 3 ==> x == ByteAt(s, 3 * k + 2))
  {
    hide ByteAt, DigitOrZero;
    if r == 1 {
      ByteAtGroup(s, k, 0);
      NextDigitArithmetic(DigitOrZero(s, 4 * k), v);
    } else if r == 2 {
      ByteAtGroup(s, k, 1);
      NextDigitArithmetic(DigitOrZero(s, 4 * k + 1), v);
    } else if r == 3 {
      ByteAtGroup(s, k, 2);
    }
  }

  lemma ByteAtGroup(s: string, k: nat, r: nat)
    requires r < 3
    ensures ByteAt(s, 3 * k + r)
      == Octet(DigitOrZero(s, 4 * k), DigitOrZero(s, 4 * k + 1), DigitOrZero(s, 4 * k + 2), DigitOrZero(s, 4 * k + 3),
        r)
  {
    Group(k, 3, r);
  }

  lemma NextDigitArithmetic(u: sextet, v: sextet)
    ensures (u * 64 + v) / 16 == u * 4 + v / 16 && (u * 64 + v) % 16 == v % 16
    ensures (u % 16 * 64 + v) / 4 == u % 16 * 16 + v / 4 && (u % 16 * 64 + v) % 4 == v % 4
  {
  }

  /** The same step on an accumulator that still holds earlier digits above the pending bits. */
  lemma NextDigitUnmasked(s: string, k: nat, r: nat, v: sextet, acc: int)
    requires r < 4 && DigitOrZero(s, 4 * k + r) == v
    requires acc % Mask(PendingBits(r)) == Pending(s, k, r)
    ensures
      var shifted := ToInt32(acc * 64) + v;
      && (r >= 1 ==> shifted / Mask(PendingBits(r) - 2) % 256 == ByteAt(s, 3 * k + r - 1))
      && shifted % Mask(PendingBits(NextOffset(r))) == Pending(s, NextGroup(k, r), NextOffset(r))
  {
    hide Pending, ByteAt, DigitOrZero, ToInt32;
    NextDigit(s, k, r, v);
    StaleBits(acc, Pending(s, k, r), v, r);
    PendingSmall(s, k + 1, 0);
    if r >= 1 {
      ByteMod(ByteAt(s, 3 * k + r - 1));
    }
  }

  /** Bits above the pending ones change neither the byte taken out nor what stays pending. */
  lemma StaleBits(acc: int, low: nat, v: sextet, r: nat)
    requires r < 4 && acc % Mask(PendingBits(r)) == low
    ensures
      var shifted, x := ToInt32(acc * 64) + v, low * 64 + v;
      && (r == 0 ==> shifted % 64 == x)
      && (r == 1 ==> shifted / 16 % 256 == x / 16 && shifted % 16 == x % 16)
      && (r == 2 ==> shifted / 4 % 256 == x / 4 && shifted % 4 == x % 4)
      && (r == 3 ==> shifted % 256 == x)
  {
    if r == 0 {
      Shift1(acc, v);
    } else if r == 1 {
      Shift64(acc, v);
      TakeByte16(ToInt32(acc * 64) + v);
    } else if r == 2 {
      Shift16(acc, v);
      TakeByte4(ToInt32(acc * 64) + v);
    } else {
      Shift4(acc, v);
    }
  }

  lemma ToInt32Small(x: int)
    requires 0 <= x < 0x8000_0000
    ensures ToInt32(x) == x
  {
  }

  /** The same step on an accumulator that holds the pending bits and nothing else. */
  lemma NextDigitMasked(s: string, k: nat, r: nat, v: sextet)
    requires r < 4 && DigitOrZero(s, 4 * k + r) == v
    ensures
      var shifted := Pending(s, k, r) * 64 + v;
      && ToInt32(Pending(s, k, r) * 64) + v == shifted
      && (r == 0 ==> shifted == Pending(s, k, 1))
      && (r >= 1 ==> shifted / Mask(PendingBits(r) - 2) % 256 == ByteAt(s, 3 * k + r - 1))
      && (r >= 1 ==> shifted % Mask(PendingBits(r) - 2) == Pending(s, NextGroup(k, r), NextOffset(r)))
  {
    hide Pending, ByteAt, DigitOrZero;
    var shifted := Pending(s, k, r) * 64 + v;
    PendingSmall(s, k, r);
    PendingSmall(s, k + 1, 0);
    ToInt32Small(Pending(s, k, r) * 64);
    NextDigit(s, k, r, v);
    if r >= 1 {
      var m := Mask(PendingBits(r) - 2);
      assert shifted / m == ByteAt(s, 3 * k + r - 1);
      ByteMod(ByteAt(s, 3 * k + r - 1));
    }
  }

  lemma PendingSmall(s: string, k: nat, r: nat)
    requires r < 4
    ensures Pending(s, k, r) < 64 && Pending(s, k, 0) == 0
  {
  }

  lemma ByteMod(b: byte)
    ensures b % 256 == b
  {
  }

  /** What is pending after the last digit are exactly the trailing bits. */
  lemma PendingAtEnd(s: string, k: nat, r: nat)
    requires |s| == 4 * k + r && r < 4 && r != 1 && DigitsUpTo(s, |s|)
    ensures NoTrailingBits(s) <==> Pending(s, k, r) == 0
  {
    Group(k, 4, r);
  }

  /** A byte is only written when the output was sized for it. */
  lemma OutputFits(n: nat, k: nat, t: nat)
    requires 4 * k + t < n && 1 <= t < 4 && n % 4 != 1
    ensures 3 * k + t - 1 < DecodedLength(n)
  {
  }

  /** Both decoders after i = 4k + t digits: what has been written, and where the next byte goes. */
  ghost predicate Written(s: string, i: nat, k: nat, t: nat, out: seq<byte>, o: nat) {
    && i == 4 * k + t <= |s|
    && t < 4
    && DigitsUpTo(s, i)
    && o == 3 * k + (if t == 0 then 0 else t - 1)
    && |out| == DecodedLength(|s|)
    && o <= |out|
    && forall x :: 0 <= x < o ==> out[x] == ByteAt(s, x)
  }

  lemma WrittenStart(s: string, out: seq<byte>)
    requires |out| == DecodedLength(|s|)
    ensures Written(s, 0, 0, 0, out, 0) && Pending(s, 0, 0) == 0
  {
  }

  lemma WrittenBounds(s: string, i: nat, k: nat, t: nat, out: seq<byte>, o: nat)
    requires Written(s, i, k, t, out, o)
    ensures i == 4 * k + t <= |s| && t < 4 && o <= |out| == DecodedLength(|s|)
    ensures o == 3 * k + (if t == 0 then 0 else t - 1)
  {
  }

  lemma BadLength(s: string)
    requires |s| % 4 == 1
    ensures Decode(s) == Failure(InvalidLength)
  {
  }

  lemma BadDigit(s: string, i: nat)
    requires |s| % 4 != 1 && i < |s| && Lookup(s[i]) < 0
    ensures Decode(s) == Failure(InvalidCharacter)
  {
  }

  lemma OutputLength(n: nat, rem: nat)
    requires rem == n % 4
    ensures n / 4 * 3 + (if rem == 2 then 1 else if rem == 3 then 2 else 0) == DecodedLength(n)
  {
  }

  lemma WrittenStep(s: string, i: nat, k: nat, t: nat, before: seq<byte>, after: seq<byte>, o: nat)
    requires |s| % 4 != 1 && i < |s| && Written(s, i, k, t, before, o) && Lookup(s[i]) >= 0
    requires if t == 0 then after == before else o < |before| && after == before[o := ByteAt(s, 3 * k + t - 1)]
    ensures Written(s, i + 1, NextGroup(k, t), NextOffset(t), after, if t == 0 then o else o + 1)
  {
  }

  /** A decoder that has read all digits and found no bits left over holds the decoding. */
  lemma AllWritten(s: string, k: nat, t: nat, out: seq<byte>, o: nat)
    requires |s| % 4 != 1 && Written(s, |s|, k, t, out, o)
    ensures Decode(s) == if Pending(s, k, t) == 0 then Success(out) else Failure(NonCanonical)
    ensures t == 0 ==> Pending(s, k, t) == 0
  {
    Group(k, 4, t);
    PendingAtEnd(s, k, t);
    DecodedLengthOf(k, t);
    assert out == seq(DecodedLength(|s|), j requires 0 <= j => ByteAt(s, j));
  }

  /** The decoder of the drop page: it never clears the bits it has consumed. */
  method DecodeWeb(s: string) returns (r: Result<seq<byte>, DecodeError>)
    ensures r == Decode(s)
  {
    hide Written, Decode, ByteAt, Pending, NextGroup, DecodedLength;
    var rem := |s| % 4;
    if rem == 1 {
      BadLength(s);
      return Failure(InvalidLength);
    }
    OutputLength(|s|, rem);
    var out := new byte[|s| / 4 * 3 + (if rem == 2 then 1 else if rem == 3 then 2 else 0)];
    var bits, acc, o := 0, 0, 0;
    ghost var k, t := 0, 0;
    WrittenStart(s, out[..]);
    for i := 0 to |s|
      invariant Written(s, i, k, t, out[..], o)
      invariant t < 4 && bits == PendingBits(t) && acc % Mask(bits) == Pending(s, k, t)
    {
      var v := Lookup(s[i]);
      if v < 0 {
        BadDigit(s, i);
        return Failure(InvalidCharacter);
      }
      WrittenBounds(s, i, k, t, out[..], o);
      NextDigitUnmasked(s, k, t, v, acc);
      ghost var before, at := out[..], o;
      acc := ToInt32(acc * 64) + v;
      bits := bits + 6;
      if bits >= 8 {
        bits := bits - 8;
        OutputFits(|s|, k, t);
        out[o] := acc / Mask(bits) % 256;
        o := o + 1;
      }
      WrittenStep(s, i, k, t, before, out[..], at);
      k, t := NextGroup(k, t), NextOffset(t);
    }
    AllWritten(s, k, t, out[..], o);
    if bits > 0 && acc % Mask(bits) != 0 {
      return Failure(NonCanonical);
    }
    r := Success(out[..]);
  }

  /** The decoder of the TypeScript SDK: it masks its accumulator after every byte. */
  method DecodeSdk(s: string) returns (r: Result<seq<byte>, DecodeError>)
    ensures r == Decode(s)
  {
    hide Written, Decode, ByteAt, Pending, NextGroup, DecodedLength;
    var rem := |s| % 4;
    if rem == 1 {
      BadLength(s);
      return Failure(InvalidLength);
    }
    OutputLength(|s|, rem);
    var out := new byte[|s| / 4 * 3 + (if rem == 2 then 1 else if rem == 3 then 2 else 0)];
    var acc, bits, j := 0, 0, 0;
    ghost var k, t := 0, 0;
    WrittenStart(s, out[..]);
    for i := 0 to |s|
      invariant Written(s, i, k, t, out[..], j)
      invariant t < 4 && bits == PendingBits(t) && acc == Pending(s, k, t)
    {
      var v := Lookup(s[i]);
      if v < 0 {
        BadDigit(s, i);
        return Failure(InvalidCharacter);
      }
      WrittenBounds(s, i, k, t, out[..], j);
      NextDigitMasked(s, k, t, v);
      ghost var before, at := out[..], j;
      acc := ToInt32(acc * 64) + v;
      bits := bits + 6;
      if bits >= 8 {
        bits := bits - 8;
        OutputFits(|s|, k, t);
        out[j] := acc / Mask(bits) % 256;
        j := j + 1;
        acc := acc % Mask(bits);
      }
      WrittenStep(s, i, k, t, before, out[..], at);
      k, t := NextGroup(k, t), NextOffset(t);
    }
    AllWritten(s, k, t, out[..], j);
    if bits > 0 && acc != 0 {
      return Failure(NonCanonical);
    }
    r := Success(out[..]);
  }

  // ----- The two encoders -----

  /** The four digits of one group of three bytes, packed into one 24-bit integer first. */
  lemma PackedSextets(b0: byte, b1: byte, b2: byte)
    ensures
      var n := b0 * 0x1_0000 + b1 * 0x100 + b2;
      && n / 0x4_0000 == n / 0x4_0000 % 64 == Sextet(b0, b1, b2, 0)
      && n / 0x1000 % 64 == Sextet(b0, b1, b2, 1)
      && n / 0x40 % 64 == Sextet(b0, b1, b2, 2)
      && n % 64 == Sextet(b0, b1, b2, 3)
  {
    var s0: int, s1: int, s2: int, s3: int := Sextet(b0, b1, b2, 0), Sextet(b0, b1, b2, 1), Sextet(b0, b1, b2, 2),
      Sextet(b0, b1, b2, 3);
    var n := b0 as int * 0x1_0000 + b1 * 0x100 + b2;
    SextetsPack(b0, b1, b2);
    assert n == ((s0 * 64 + s1) * 64 + s2) * 64 + s3;
    Group(s0, 0x4_0000, (s1 * 64 + s2) * 64 + s3);
    Group(s0 * 64 + s1, 0x1000, s2 * 64 + s3);
    Group(s0, 64, s1);
    Group((s0 * 64 + s1) * 64 + s2, 64, s3);
    Group(s0 * 64 + s1, 64, s2);
  }

  lemma SextetsPack(b0: byte, b1: byte, b2: byte)
    ensures
      b0 * 0x1_0000 + b1 * 0x100 + b2
      == ((Sextet(b0, b1, b2, 0) * 64 + Sextet(b0, b1, b2, 1)) * 64 + Sextet(b0, b1, b2, 2)) * 64
        + Sextet(b0, b1, b2, 3)
  {
  }

  /** The first i bytes, a whole number of groups, are encoded in out. */
  ghost predicate Encoded(b: seq<byte>, k: nat, out: string) {
    3 * k <= |b| && |out| == 4 * k && forall x :: 0 <= x < 4 * k ==> out[x] == Digit(SextetAt(b, x))
  }

  lemma EncodeStep(b: seq<byte>, k: nat, r: nat)
    requires r < 4
    ensures SextetAt(b, 4 * k + r)
      == Sextet(ByteOrZero(b, 3 * k), ByteOrZero(b, 3 * k + 1), ByteOrZero(b, 3 * k + 2), r)
  {
    Group(k, 4, r);
  }

  lemma EncodeSteps(b: seq<byte>, k: nat, n: int)
    requires n == ByteOrZero(b, 3 * k) * 0x1_0000 + ByteOrZero(b, 3 * k + 1) * 0x100 + ByteOrZero(b, 3 * k + 2)
    ensures n / 0x4_0000 == n / 0x4_0000 % 64 == SextetAt(b, 4 * k)
    ensures n / 0x1000 % 64 == SextetAt(b, 4 * k + 1)
    ensures n / 0x40 % 64 == SextetAt(b, 4 * k + 2)
    ensures n % 64 == SextetAt(b, 4 * k + 3)
  {
    EncodeStep(b, k, 0);
    EncodeStep(b, k, 1);
    EncodeStep(b, k, 2);
    EncodeStep(b, k, 3);
    PackedSextets(ByteOrZero(b, 3 * k), ByteOrZero(b, 3 * k + 1), ByteOrZero(b, 3 * k + 2));
  }

  /** Appending the digits of the next group. */
  lemma EncodedStep(b: seq<byte>, k: nat, out: string, more: string)
    requires Encoded(b, k, out) && |more| <= 4
    requires forall r :: 0 <= r < |more| ==> more[r] == Digit(SextetAt(b, 4 * k + r))
    ensures |more| == 4 && 3 * k + 3 <= |b| ==> Encoded(b, k + 1, out + more)
    ensures |more| == EncodedLength(|b|) - 4 * k ==> out + more == Encode(b)
  {
    forall x | 0 <= x < |out + more| ensures (out + more)[x] == Digit(SextetAt(b, x)) {
      if x >= 4 * k {
        assert more[x - 4 * k] == Digit(SextetAt(b, 4 * k + (x - 4 * k)));
      }
    }
  }

  /** The encoder of the drop page. */
  method EncodeWeb(b: seq<byte>) returns (out: string)
    ensures out == Encode(b)
  {
    hide Encode, SextetAt, Digit;
    out := "";
    var i := 0;
    ghost var k := 0;
    while i + 2 < |b|
      invariant i == 3 * k && Encoded(b, k, out)
    {
      var n := b[i] as int * 0x1_0000 + b[i + 1] as int * 0x100 + b[i + 2];
      var four := [Digit(n / 0x4_0000 % 64), Digit(n / 0x1000 % 64), Digit(n / 0x40 % 64), Digit(n % 64)];
      EncodeSteps(b, k, n);
      EncodedStep(b, k, out, four);
      out := out + four;
      i, k := i + 3, k + 1;
    }
    out := FinishEncoding(b, i, k, out);
  }

  /** The encoder of the TypeScript SDK: it does not mask its first digit. */
  method EncodeSdk(b: seq<byte>) returns (out: string)
    ensures out == Encode(b)
  {
    hide Encode, SextetAt, Digit;
    out := "";
    var i := 0;
    ghost var k := 0;
    while i + 3 <= |b|
      invariant i == 3 * k && Encoded(b, k, out)
    {
      var n := b[i] as int * 0x1_0000 + b[i + 1] as int * 0x100 + b[i + 2];
      EncodeSteps(b, k, n);
      var four := [Digit(n / 0x4_0000), Digit(n / 0x1000 % 64), Digit(n / 0x40 % 64), Digit(n % 64)];
      EncodedStep(b, k, out, four);
      out := out + four;
      i, k := i + 3, k + 1;
    }
    out := FinishEncoding(b, i, k, out);
  }

  /** The last one or two bytes; the two encoders differ in nothing but an idle mask here. */
  method FinishEncoding(b: seq<byte>, i: nat, ghost k: nat, out: string) returns (s: string)
    requires i == 3 * k && |b| - 2 <= i <= |b| && Encoded(b, k, out)
    ensures s == Encode(b)
  {
    var rest := |b| - i;
    EncodedLengthOf(k, rest);
    var more := "";
    if rest == 1 {
      var n := b[i] as int * 0x1_0000;
      EncodeSteps(b, k, n);
      more := [Digit(n / 0x4_0000 % 64), Digit(n / 0x1000 % 64)];
    } else if rest == 2 {
      var n := b[i] as int * 0x1_0000 + b[i + 1] as int * 0x100;
      EncodeSteps(b, k, n);
      more := [Digit(n / 0x4_0000 % 64), Digit(n / 0x1000 % 64), Digit(n / 0x40 % 64)];
    }
    EncodedStep(b, k, out, more);
    s := out + more;
  }
}
