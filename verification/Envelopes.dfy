/**
 * The envelope a secret travels in, and what sealing it does. JSON, the sealed box, the
 * authenticated cipher and SHA-256 are idealised: functions with the laws they are used for.
 * Texts are sequences of bytes, one char each.
 */
module Envelopes {
  import opened Prelude
  import opened Padding
  import Base64Url
  import Storage
  import Utf8

  const KEY_SIZE := 32

  const MAX_NAME_LEN := 100
  const MAX_TEXT_LEN := 200

  const TYPE_DROP := "drop"
  const TYPE_REVEAL := "reveal"
  const FORMAT_TEXT := "text"
  const FORMAT_BASE64 := "base64"

  datatype Envelope = Envelope(
    v: int,
    kind: string,
    name: string,
    purpose: string,
    storage: string,
    retention: string,
    fingerprint: string,
    format: string,
    secret: string)

  function Text(b: seq<byte>): (s: string)
    ensures |s| == |b| && Storage.IsBytes(s)
  {
    seq(|b|, i requires 0 <= i < |b| => b[i] as char)
  }

  function Octets(s: string): (b: seq<byte>)
    requires Storage.IsBytes(s)
    ensures |b| == |s|
  {
    seq(|s|, i requires 0 <= i < |s| => s[i] as int)
  }

  lemma OctetsText(b: seq<byte>)
    ensures Octets(Text(b)) == b
  {
  }

  // ----- Secrets -----

  predicate HasBinaryControl(b: seq<byte>) {
    exists k :: 0 <= k < |b| && b[k] < 0x20 && b[k] != 9 && b[k] != 10 && b[k] != 13
  }

  function SetSecret(e: Envelope, value: seq<byte>): Envelope {
    if Utf8.Valid(Text(value)) && !HasBinaryControl(value) then e.(format := FORMAT_TEXT, secret := Text(value))
    else e.(format := FORMAT_BASE64, secret := Base64Url.Encode(value))
  }

  function SecretBytes(e: Envelope): Option<seq<byte>> {
    if e.format == FORMAT_BASE64 then
      var r := Base64Url.Decode(e.secret);
      if r.Success? then Some(r.value) else None
    else if Storage.IsBytes(e.secret) then Some(Octets(e.secret))
    else None
  }

  /** A secret comes back byte for byte, whatever bytes it has. */
  lemma SecretRoundTrip(e: Envelope, value: seq<byte>)
    ensures SecretBytes(SetSecret(e, value)) == Some(value)
  {
    OctetsText(value);
    Base64Url.DecodeEncode(value);
  }

  /** A secret travels as text exactly if it is UTF-8 without control characters but tab, newline and return. */
  lemma SecretExactly(e: Envelope, value: seq<byte>)
    ensures
      var f := SetSecret(e, value);
      var plain := Utf8.Valid(Text(value)) && forall k :: 0 <= k < |value| ==>
        value[k] >= 32 || value[k] in {9, 10, 13};
      f == if plain then e.(format := "text", secret := Text(value))
           else e.(format := "base64", secret := Base64Url.Encode(value))
  {
  }

  // ----- Validation -----

  function RuneCount(s: string): nat {
    if s == "" then 0 else 1 + RuneCount(s[Utf8.First(s).1..])
  }

  function TwoBytes(a: int, b: int): string
    requires 0 <= a < 256 && 0 <= b < 256
  {
    [a as char, b as char]
  }

  function ThreeBytes(a: int, b: int, c: int): string
    requires 0 <= a < 256 && 0 <= b < 256 && 0 <= c < 256
  {
    [a as char, b as char, c as char]
  }

  /** Whether s is the UTF-8 of one white space character. */
  predicate Space(s: string) {
    || (|s| == 1 && (s[0] == ' ' || 9 as char <= s[0] <= 13 as char))
    || s == TwoBytes(0xC2, 0x85) || s == TwoBytes(0xC2, 0xA0)
    || s == ThreeBytes(0xE1, 0x9A, 0x80) || s == ThreeBytes(0xE2, 0x80, 0xA8) || s == ThreeBytes(0xE2, 0x80, 0xA9)
    || s == ThreeBytes(0xE2, 0x80, 0xAF) || s == ThreeBytes(0xE2, 0x81, 0x9F) || s == ThreeBytes(0xE3, 0x80, 0x80)
    || (|s| == 3 && s[..2] == TwoBytes(0xE2, 0x80) && 0x80 as char <= s[2] <= 0x8A as char)
  }

  predicate Trimmed(s: string) {
    && (forall k :: 1 <= k <= |s| && k <= 3 ==> !Space(s[..k]))
    && (forall k :: 0 <= k < |s| && k >= |s| - 3 ==> !Space(s[k..]))
  }

  predicate NoControl(s: string, newlines: bool) {
    forall k :: 0 <= k < |s| ==> (s[k] >= 0x20 as char || (newlines && s[k] == '\n')) && s[k] != 0x7F as char
  }

  predicate ValidName(name: string) {
    name != "" && RuneCount(name) <= MAX_NAME_LEN && Trimmed(name) && NoControl(name, false)
  }

  predicate ValidText(s: string) {
    RuneCount(s) <= MAX_TEXT_LEN && Utf8.Valid(s) && NoControl(s, true)
  }

  predicate Hex(c: char) {
    '0' <= c <= '9' || 'a' <= c <= 'f'
  }

  /** Four groups of four lower-case hexadecimal digits. */
  predicate ValidFingerprint(f: string) {
    |f| == 19 && forall k :: 0 <= k < 19 ==> if k == 4 || k == 9 || k == 14 then f[k] == '-' else Hex(f[k])
  }

  /** Everything an implementation of this protocol is given: JSON, cryptography and dates. */
  datatype Ideal = Ideal(
    json: Envelope -> seq<byte>,
    unjson: seq<byte> -> Option<Envelope>,
    sha256: seq<byte> -> seq<byte>,
    public: seq<byte> -> seq<byte>,
    seal: (seq<byte>, seq<byte>, seq<byte>) -> seq<byte>,
    open: (seq<byte>, seq<byte>) -> Option<seq<byte>>,
    encrypt: (seq<byte>, seq<byte>, seq<byte>, seq<byte>) -> seq<byte>,
    decrypt: (seq<byte>, seq<byte>, seq<byte>) -> Option<seq<byte>>,
    date: string -> bool)
  {
    /** JSON round-trips texts that are UTF-8; no two keys have the same SHA-256; the right key opens a box. */
    ghost predicate Lawful() {
      && (forall e: Envelope :: Clean(e) ==> unjson(json(e)) == Some(e))
      && (forall a: seq<byte> :: |a| == KEY_SIZE ==> |sha256(a)| == 32)
      && (forall a: seq<byte>, b: seq<byte> :: |a| == |b| == KEY_SIZE && sha256(a) == sha256(b) ==> a == b)
      && (forall k: seq<byte>, m: seq<byte>, r: seq<byte> :: |seal(k, m, r)| == |m| + SEALED_OVERHEAD)
      && (forall priv: seq<byte>, m: seq<byte>, r: seq<byte> :: open(priv, seal(public(priv), m, r)) == Some(m))
      && (forall k: seq<byte>, a: seq<byte>, m: seq<byte>, r: seq<byte> :: |encrypt(k, a, m, r)| == |m| + AEAD_OVERHEAD)
      && (forall k: seq<byte>, a: seq<byte>, m: seq<byte>,
        r: seq<byte> :: decrypt(k, a, encrypt(k, a, m, r)) == Some(m))
    }

    predicate Valid(e: Envelope) {
      && e.v == 1
      && (e.kind == TYPE_DROP || e.kind == TYPE_REVEAL)
      && (e.format == FORMAT_TEXT || e.format == FORMAT_BASE64)
      && ValidName(e.name) && ValidText(e.purpose) && ValidText(e.storage)
      && (if e.kind == TYPE_DROP then Storage.ValidRetention(e.retention, date) && ValidFingerprint(e.fingerprint)
          else e.retention == "" && e.fingerprint == "" && e.purpose == "" && e.storage == "")
      && (if e.format == FORMAT_BASE64 then Base64Url.Decode(e.secret).Success? else Utf8.Valid(e.secret))
    }

    function Encode(e: Envelope): Option<seq<byte>> {
      if Valid(e) then Some(json(e)) else None
    }

    function Decode(b: seq<byte>): Option<Envelope> {
      var e := unjson(b);
      if e.Some? && Valid(e.value) then e else None
    }

    function Commitment(key: seq<byte>): string {
      Base64Url.Encode(sha256(key))
    }

    /** Encodes, pads and seals; None if the envelope is malformed or too large. */
    function SealEnvelope(key: seq<byte>, e: Envelope, r: seq<byte>): Option<seq<byte>> {
      var plain := Encode(e);
      if plain == None || |plain.value| > MAX_PLAINTEXT then None
      else Some(seal(key, Padded(plain.value, PAD_BLOCK), r))
    }

    function OpenEnvelope(priv: seq<byte>, sealed: seq<byte>): Option<Envelope> {
      if |sealed| > MAX_PLAINTEXT + PAD_BLOCK + SEALED_OVERHEAD then None
      else
        var padded := open(priv, sealed);
        if padded == None then None
        else
          var plain := Unpadded(padded.value, PAD_BLOCK);
          if plain == None then None else Decode(plain.value)
    }

    function EncryptEnvelope(key: seq<byte>, e: Envelope, aad: seq<byte>, r: seq<byte>): Option<seq<byte>> {
      var plain := Encode(e);
      if plain == None || |plain.value| > MAX_PLAINTEXT then None
      else Some(encrypt(key, aad, Padded(plain.value, PAD_BLOCK), r))
    }

    function DecryptEnvelope(key: seq<byte>, aad: seq<byte>, blob: seq<byte>): Option<Envelope> {
      if |blob| > MAX_PLAINTEXT + PAD_BLOCK + AEAD_OVERHEAD then None
      else
        var padded := decrypt(key, aad, blob);
        if padded == None then None
        else
          var plain := Unpadded(padded.value, PAD_BLOCK);
          if plain == None then None else Decode(plain.value)
    }
  }

  predicate Clean(e: Envelope) {
    && Utf8.Valid(e.kind) && Utf8.Valid(e.name) && Utf8.Valid(e.purpose) && Utf8.Valid(e.storage)
    && Utf8.Valid(e.retention) && Utf8.Valid(e.fingerprint) && Utf8.Valid(e.format) && Utf8.Valid(e.secret)
  }

  // ----- What is valid -----

  /** An ASCII text has one rune a byte. */
  lemma {:induction false} AsciiRunes(s: string)
    requires Utf8.Ascii(s)
    ensures RuneCount(s) == |s|
  {
    if s != "" {
      assert s[..1] == [s[0]];
      assert Utf8.First(s) == ([s[0]], 1);
      AsciiRunes(s[1..]);
    }
  }

  /** A reference name of the agent's stores can stand in an envelope. */
  lemma StoredNameIsValid(name: string)
    requires Storage.ValidName(name)
    ensures ValidName(name)
  {
    Storage.ValidNameIsText(name);
    assert Utf8.Ascii(name);
    AsciiRunes(name);
    forall k | 0 <= k < |name|
      ensures !(name[k] == ' ' || 9 as char <= name[k] <= 13 as char) && name[k] < 0x80 as char
    {
    }
    forall t | t != "" && forall k :: 0 <= k < |t| ==> t[k] in name
      ensures !Space(t)
    {
      assert t[0] in name;
    }
    TrimmedPlain(name);
  }

  lemma TrimmedPlain(s: string)
    requires forall t :: t != "" && (forall k :: 0 <= k < |t| ==> t[k] in s) ==> !Space(t)
    ensures Trimmed(s)
  {
    forall k | 1 <= k <= |s| && k <= 3
      ensures !Space(s[..k])
    {
      assert s[..k] != "" && forall i :: 0 <= i < k ==> s[..k][i] in s;
    }
    forall k | 0 <= k < |s| && k >= |s| - 3
      ensures !Space(s[k..])
    {
      assert s[k..] != "" && forall i :: 0 <= i < |s[k..]| ==> s[k..][i] in s;
    }
  }

  /** A name of ASCII is valid exactly up to a hundred characters on one line with no space at either end. */
  lemma AsciiNameExactly(s: string)
    requires Utf8.Ascii(s)
    ensures
      ValidName(s) <==>
        && 1 <= |s| <= 100 && (forall k :: 0 <= k < |s| ==> 32 <= s[k] as int < 127)
        && s[0] != ' ' && s[|s| - 1] != ' '
  {
    AsciiRunes(s);
    if s != "" && NoControl(s, false) {
      TrimmedAscii(s);
    }
  }

  lemma TrimmedAscii(s: string)
    requires Utf8.Ascii(s) && s != "" && forall k :: 0 <= k < |s| ==> s[k] >= ' '
    ensures Trimmed(s) <==> s[0] != ' ' && s[|s| - 1] != ' '
  {
    forall t: string | Utf8.Ascii(t)
      ensures Space(t) <==> |t| == 1 && (t[0] == ' ' || 9 as char <= t[0] <= 13 as char)
    {
    }
    assert s[..1][0] == s[0] && s[|s| - 1..][0] == s[|s| - 1];
  }

  /** A text of ASCII is valid exactly up to two hundred characters without controls but line feeds. */
  lemma AsciiTextExactly(s: string)
    requires Utf8.Ascii(s)
    ensures ValidText(s) <==> |s| <= 200 && forall k :: 0 <= k < |s| ==> 32 <= s[k] as int < 127 || s[k] == '\n'
  {
    AsciiRunes(s);
    Utf8.AsciiValid(s);
  }

  /**
   * What no envelope is: another version, another kind, a drop without a fingerprint, a reveal with
   * more than a name.
   */
  lemma ValidRefuses(c: Ideal, e: Envelope)
    ensures
      c.Valid(e) ==>
        && e.v == 1 && e.kind in {"drop", "reveal"} && e.format in {"text", "base64"} && e.name != ""
        && (e.kind == "drop" ==> |e.fingerprint| == 19 && e.retention != "")
        && (e.kind == "reveal" ==> e.retention == e.fingerprint == e.purpose == e.storage == "")
        && SecretBytes(e).Some?
  {
    if Utf8.Valid(e.secret) {
      Storage.TextIsBytes(e.secret);
    }
  }

  /** The additional data of a reveal, letter by letter. */
  lemma RevealAADLooks()
    ensures RevealAAD("k", true) == "burndrop/reveal/v1\nk\n1" && RevealAAD("k", false) == "burndrop/reveal/v1\nk\n0"
  {
  }

  /** The commitment to a key is the encoding of its digest, and of nothing else. */
  lemma CommitmentExactly(c: Ideal, key: seq<byte>)
    requires c.Lawful() && |key| == KEY_SIZE
    ensures Base64Url.Decode(c.Commitment(key)) == Success(c.sha256(key)) && |c.Commitment(key)| == 43
  {
    Base64Url.DecodeEncode(c.sha256(key));
  }

  /** Sealing fails exactly for an envelope that is malformed or more than 64 KiB long. */
  lemma SealedExactly(c: Ideal, key: seq<byte>, e: Envelope, r: seq<byte>)
    ensures c.SealEnvelope(key, e, r).Some? <==> c.Valid(e) && |c.json(e)| <= 65536
  {
  }

  /** Two keys never share a commitment. */
  lemma CommitmentInjective(c: Ideal, a: seq<byte>, b: seq<byte>)
    requires c.Lawful() && |a| == |b| == KEY_SIZE && c.Commitment(a) == c.Commitment(b)
    ensures a == b
  {
    Base64Url.EncodeInjective(c.sha256(a), c.sha256(b));
  }

  /** What was sealed to a key opens with it to the same envelope. */
  lemma OpenSeal(c: Ideal, priv: seq<byte>, e: Envelope, r: seq<byte>)
    requires c.Lawful() && Clean(e) && c.SealEnvelope(c.public(priv), e, r).Some?
    ensures c.OpenEnvelope(priv, c.SealEnvelope(c.public(priv), e, r).value) == Some(e)
  {
    var plain := c.json(e);
    PaddedSize(plain);
    UnpadPad(plain, PAD_BLOCK);
  }

  /** A reveal decrypts with the display fields it was made for. */
  lemma DecryptEncrypt(c: Ideal, key: seq<byte>, e: Envelope, aad: seq<byte>, r: seq<byte>)
    requires c.Lawful() && Clean(e) && c.EncryptEnvelope(key, e, aad, r).Some?
    ensures c.DecryptEnvelope(key, aad, c.EncryptEnvelope(key, e, aad, r).value) == Some(e)
  {
    var plain := c.json(e);
    PaddedSize(plain);
    UnpadPad(plain, PAD_BLOCK);
  }

  /** The additional data of a reveal tells the name and whether a copy is kept. */
  function RevealAAD(name: string, keepsCopy: bool): string {
    "burndrop/reveal/v1\n" + name + "\n" + (if keepsCopy then "1" else "0")
  }

  lemma RevealAADInjective(a: string, x: bool, b: string, y: bool)
    requires RevealAAD(a, x) == RevealAAD(b, y)
    ensures a == b && x == y
  {
    var s := RevealAAD(a, x);
    var n := |"burndrop/reveal/v1\n"|;
    assert |s| == n + |a| + 2 == n + |b| + 2;
    assert a == s[n..n + |a|] == b;
    assert s[|s| - 1] == if x then '1' else '0';
    assert s[|s| - 1] == if y then '1' else '0';
  }

  /** Every sealed or encrypted envelope is within the relay's default limits and above its minimum. */
  lemma CiphertextSizes(c: Ideal, key: seq<byte>, e: Envelope, aad: seq<byte>, r: seq<byte>)
    requires c.Lawful()
    ensures
      var s := c.SealEnvelope(key, e, r);
      s.Some? ==>
        && 304 <= |s.value| <= 65840 && (|s.value| - 48) % 256 == 0
        && |Base64Url.Encode(s.value)| <= DEFAULT_CIPHERTEXT * 4 / 3 + 4
    ensures
      var s := c.EncryptEnvelope(key, e, aad, r);
      s.Some? ==>
        && 296 <= |s.value| <= 65832 && (|s.value| - 40) % 256 == 0
        && |Base64Url.Encode(s.value)| <= DEFAULT_CIPHERTEXT * 4 / 3 + 4
  {
    var plain := c.Encode(e);
    if plain.Some? && |plain.value| <= MAX_PLAINTEXT {
      PaddedSize(plain.value);
      EncodedWithinPrefilter(|c.SealEnvelope(key, e, r).value|, DEFAULT_CIPHERTEXT);
      EncodedWithinPrefilter(|c.EncryptEnvelope(key, e, aad, r).value|, DEFAULT_CIPHERTEXT);
    }
  }
}
