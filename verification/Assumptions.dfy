/**
 * What is assumed of JSON, base64 and cryptography can be had: toy versions that are lawful, so
 * that no statement resting on the laws is empty. Nothing in them is secret or short.
 */
module Assumptions {
  import opened Prelude
  import opened Storage
  import Dotenv
  import Envelopes
  import Escaping
  import Keychain
  import Padding
  import Utf8

  // ----- Any number of byte strings in one ASCII line -----

  predicate AllBytes(fields: seq<string>) {
    forall i :: 0 <= i < |fields| ==> IsBytes(fields[i])
  }

  function Pack(fields: seq<string>): string
    requires AllBytes(fields)
  {
    Escaping.Join(seq(|fields|, i requires 0 <= i < |fields| => Escaping.Escape(fields[i])))
  }

  function Unpack(s: string): Option<seq<string>> {
    var parts := Escaping.Split(s);
    if forall i :: 0 <= i < |parts| ==> Escaping.Unpercent(parts[i], true).Some? then
      Some(seq(|parts|, i requires 0 <= i < |parts| => Escaping.Unpercent(parts[i], true).value))
    else None
  }

  lemma UnpackPack(fields: seq<string>)
    requires AllBytes(fields) && fields != []
    ensures Unpack(Pack(fields)) == Some(fields)
  {
    hide Escaping.Unpercent, Escaping.Escape, Escaping.Join, Escaping.Split, Escaping.EscapeByte;
    var parts := seq(|fields|, i requires 0 <= i < |fields| => Escaping.Escape(fields[i]));
    forall i | 0 <= i < |fields|
      ensures Escaping.Separable(parts[i]) && Escaping.Unpercent(parts[i], true) == Some(fields[i])
    {
      Escaping.EscapedSeparable(fields[i]);
      Escaping.UnpercentEscape(fields[i]);
    }
    Escaping.SplitJoin(parts);
    assert Unpack(Pack(fields)).value == fields;
  }

  predicate Plain(s: string) {
    forall k :: 0 <= k < |s| ==> 0x20 as char < s[k] < 0x80 as char
  }

  lemma {:induction false} EscapePlain(s: string)
    requires IsBytes(s)
    ensures Plain(Escaping.Escape(s))
  {
    if s != "" {
      EscapePlain(s[1..]);
      EscapeBytePlain(s[0]);
    }
  }

  lemma EscapeBytePlain(c: char)
    requires c < 0x100 as char
    ensures Plain(Escaping.EscapeByte(c))
  {
  }

  lemma {:induction false} JoinPlain(parts: seq<string>)
    requires forall i :: 0 <= i < |parts| ==> Plain(parts[i])
    ensures Plain(Escaping.Join(parts))
  {
    if |parts| > 1 {
      JoinPlain(parts[1..]);
    }
  }

  lemma PackPlain(fields: seq<string>)
    requires AllBytes(fields)
    ensures Plain(Pack(fields)) && IsBytes(Pack(fields)) && Dotenv.OneLine(Pack(fields))
  {
    var parts := seq(|fields|, i requires 0 <= i < |fields| => Escaping.Escape(fields[i]));
    forall i | 0 <= i < |parts|
      ensures Plain(parts[i])
    {
      EscapePlain(fields[i]);
    }
    JoinPlain(parts);
  }

  function Number(n: int): string {
    if n < 0 then "-" + Keychain.Itoa(-n) else "+" + Keychain.Itoa(n)
  }

  function ReadNumber(s: string): int {
    if s == "" || exists k :: 1 <= k < |s| && !('0' <= s[k] <= '9') then 0
    else
      var n: int := Keychain.Value(s[1..]);
      if s[0] == '-' then -n else n
  }

  lemma NumberReads(n: int)
    ensures ReadNumber(Number(n)) == n && IsBytes(Number(n)) && Number(n) != ""
  {
    var m := if n < 0 then -n else n;
    Keychain.ValueItoa(m);
    assert Number(n)[1..] == Keychain.Itoa(m);
  }

  // ----- Metadata -----

  function MetaFields(m: Metadata): seq<string> {
    [ m.name, m.backend, m.retention, Number(m.createdAt), if m.expiresAt.Some? then Number(m.expiresAt.value) else "",
      m.purpose, m.source, if m.sendable then "1" else "", m.fingerprint, Number(m.sizeBytes), m.kind]
  }

  function ReadMeta(f: seq<string>): Metadata
    requires |f| >= 11
  {
    var size := ReadNumber(f[9]);
    Metadata(
      f[0], f[1], f[2], ReadNumber(f[3]),
      if f[4] == "" then None else Some(ReadNumber(f[4])),
      f[5], f[6], f[7] != "", f[8],
      if size < 0 then 0 else size, f[10])
  }

  lemma MetaReads(m: Metadata)
    requires m.Clean()
    ensures AllBytes(MetaFields(m)) && ReadMeta(MetaFields(m)) == m
  {
    hide Utf8.Valid, Number, ReadNumber;
    NumberReads(m.createdAt);
    NumberReads(m.sizeBytes);
    if m.expiresAt.Some? {
      NumberReads(m.expiresAt.value);
    }
    TextIsBytes(m.name);
    TextIsBytes(m.backend);
    TextIsBytes(m.retention);
    TextIsBytes(m.purpose);
    TextIsBytes(m.source);
    TextIsBytes(m.fingerprint);
    TextIsBytes(m.kind);
  }

  // ----- The codec of the .env file -----

  function EntryFields(e: Dotenv.Entry): seq<string> {
    MetaFields(e.meta) + [e.name, e.encoding]
  }

  function EntryJson(e: Dotenv.Entry): string {
    var fields := EntryFields(e.Sanitized());
    if AllBytes(fields) then Pack(fields) else ""
  }

  function EntryUnjson(s: string): Option<Dotenv.Entry> {
    var f := Unpack(s);
    if f == None || |f.value| != 13 then None
    else
      var e := Dotenv.Entry(f.value[11], ReadMeta(f.value), f.value[12]);
      if e.Clean() then Some(e) else None
  }

  function Encode64(v: string): string {
    if IsBytes(v) then Escaping.Escape(v) else ""
  }

  function Decode64(s: string): Option<string> {
    var v := Escaping.Unpercent(s, true);
    if v.Some? && IsBytes(v.value) then v else None
  }

  lemma EntryReads(e: Dotenv.Entry)
    ensures EntryUnjson(EntryJson(e)) == Some(e.Sanitized())
  {
    hide Utf8.Valid, Utf8.Sanitize, Pack, Unpack, Number, Dotenv.Entry.Sanitized;
    Dotenv.SanitizedEntry(e);
    var clean := e.Sanitized();
    MetaReads(clean.meta);
    TextIsBytes(clean.name);
    TextIsBytes(clean.encoding);
    UnpackPack(EntryFields(clean));
    assert ReadMeta(EntryFields(clean)) == ReadMeta(MetaFields(clean.meta));
  }

  lemma Encode64Reads(v: string)
    ensures IsBytes(v) ==> Decode64(Encode64(v)) == Some(v)
    ensures Utf8.Valid(Encode64(v))
  {
    if IsBytes(v) {
      Escaping.UnpercentEscape(v);
      EscapePlain(v);
    }
    Utf8.AsciiValid(Encode64(v));
  }

  lemma EntryJsonOneLine(e: Dotenv.Entry)
    ensures Dotenv.OneLine(EntryJson(e))
  {
    var fields := EntryFields(e.Sanitized());
    if AllBytes(fields) {
      PackPlain(fields);
    }
  }

  /** The laws the .env file's codec is taken to have are consistent. */
  lemma DotenvLawsHold()
    ensures Dotenv.Codec(EntryJson, EntryUnjson, Encode64, Decode64).Lawful()
  {
    hide EntryJson, EntryUnjson, Encode64, Utf8.Valid, Dotenv.OneLine, Dotenv.Entry.Clean;
    forall e: Dotenv.Entry
      ensures Dotenv.OneLine(EntryJson(e)) && EntryUnjson(EntryJson(e)) == Some(e.Sanitized())
    {
      EntryJsonOneLine(e);
      EntryReads(e);
    }
    forall v: string
      ensures (IsBytes(v) ==> Decode64(Encode64(v)) == Some(v)) && Utf8.Valid(Encode64(v))
    {
      Encode64Reads(v);
    }
    forall s: string
      ensures EntryUnjson(s).Some? ==> EntryUnjson(s).value.Clean()
    {
      EntryUnjsonClean(s);
    }
  }

  lemma EntryUnjsonClean(s: string)
    ensures EntryUnjson(s).Some? ==> EntryUnjson(s).value.Clean()
  {
  }

  // ----- The codec of keychain records -----

  function RecordJson(m: Metadata, v: string): string {
    var fields := MetaFields(m.Sanitized()) + [v];
    if AllBytes(fields) then "{" + Pack(fields) else "{"
  }

  function RecordUnjson(s: string): Option<(string, Metadata)> {
    if s == "" then None
    else
      var f := Unpack(s[1..]);
      if f == None || |f.value| != 12 then None else Some((f.value[11], ReadMeta(f.value)))
  }

  lemma RecordReads(m: Metadata, v: string)
    requires IsBytes(v)
    ensures RecordUnjson(RecordJson(m, v)) == Some((v, m.Sanitized()))
  {
    hide Utf8.Valid, Utf8.Sanitize, Pack, Unpack, Number, Metadata.Sanitized;
    SanitizedMeta(m);
    var fields := MetaFields(m.Sanitized()) + [v];
    MetaReads(m.Sanitized());
    UnpackPack(fields);
    assert ("{" + Pack(fields))[1..] == Pack(fields);
    assert ReadMeta(fields) == ReadMeta(MetaFields(m.Sanitized()));
  }

  /** So are those of the keychain's codec. */
  lemma KeychainLawsHold()
    ensures Keychain.Codec(RecordJson, RecordUnjson).Lawful()
  {
    hide RecordUnjson, Metadata.Clean;
    forall m: Metadata, v: string
      ensures IsBytes(v) ==> RecordUnjson(RecordJson(m, v)) == Some((v, m.Sanitized()))
    {
      if IsBytes(v) {
        RecordReads(m, v);
      }
    }
  }

  // ----- A record that is stored and cannot be read back -----

  lemma {:induction false} EscapeLonger(s: string)
    requires IsBytes(s)
    ensures |Escaping.Escape(s)| >= |s|
  {
    if s != "" {
      EscapeLonger(s[1..]);
    }
  }

  lemma {:induction false} JoinLonger(parts: seq<string>, i: nat)
    requires i < |parts|
    ensures |Escaping.Join(parts)| >= |parts[i]|
  {
    if |parts| > 1 && i > 0 {
      JoinLonger(parts[1..], i - 1);
    }
  }

  /** Metadata with a purpose of n characters. */
  function LongMeta(n: nat): Metadata {
    Metadata("k", "keychain", "", 0, None, seq(n, i => 'p'), "", false, "", 0, "")
  }

  lemma LongMetaClean(n: nat)
    ensures LongMeta(n).Clean()
  {
    Utf8.AsciiValid("k");
    Utf8.AsciiValid("keychain");
    Utf8.AsciiValid("");
    Utf8.AsciiValid(LongMeta(n).purpose);
  }

  /** With pieces of 2000 bytes, two million of metadata are too many, though every value is within its limit. */
  lemma TooManyPieces()
    ensures LongMeta(2_000_000).Clean() && LongMeta(2_000_000).name == "k" && ValidName("k")
    ensures |Keychain.Chunks(RecordJson(LongMeta(2_000_000), ""), 2000)| > Keychain.MAX_CHUNKS
  {
    hide Keychain.Chunks, Utf8.Valid, Utf8.Sanitize, Metadata.Sanitized, Number, Escaping.Escape, Escaping.Join;
    var m := LongMeta(2_000_000);
    LongMetaClean(2_000_000);
    SanitizedMeta(m);
    MetaReads(m);
    var fields := MetaFields(m) + [""];
    EscapeLonger(fields[5]);
    JoinLonger(seq(|fields|, i requires 0 <= i < |fields| => Escaping.Escape(fields[i])), 5);
    Keychain.FitsInPieces(RecordJson(m, ""), 2000);
  }

  // ----- Cryptography -----

  function EnvelopeFields(e: Envelopes.Envelope): seq<string> {
    [Number(e.v), e.kind, e.name, e.purpose, e.storage, e.retention, e.fingerprint, e.format, e.secret]
  }

  function EnvelopeJson(e: Envelopes.Envelope): seq<byte> {
    if AllBytes(EnvelopeFields(e)) && IsBytes(Pack(EnvelopeFields(e))) then Envelopes.Octets(Pack(EnvelopeFields(e)))
      else []
  }

  function EnvelopeUnjson(b: seq<byte>): Option<Envelopes.Envelope> {
    var f := Unpack(Envelopes.Text(b));
    if f == None || |f.value| != 9 then None
    else
      var g := f.value;
      Some(Envelopes.Envelope(ReadNumber(g[0]), g[1], g[2], g[3], g[4], g[5], g[6], g[7], g[8]))
  }

  lemma EnvelopeReads(e: Envelopes.Envelope)
    requires Envelopes.Clean(e)
    ensures EnvelopeUnjson(EnvelopeJson(e)) == Some(e)
  {
    hide Utf8.Valid, Pack, Unpack, Number;
    NumberReads(e.v);
    TextIsBytes(e.kind);
    TextIsBytes(e.name);
    TextIsBytes(e.purpose);
    TextIsBytes(e.storage);
    TextIsBytes(e.retention);
    TextIsBytes(e.fingerprint);
    TextIsBytes(e.format);
    TextIsBytes(e.secret);
    var fields := EnvelopeFields(e);
    PackPlain(fields);
    UnpackPack(fields);
    assert Envelopes.Text(Envelopes.Octets(Pack(fields))) == Pack(fields);
  }

  function Same(b: seq<byte>): seq<byte> {
    b
  }

  function ToySeal(key: seq<byte>, m: seq<byte>, r: seq<byte>): seq<byte> {
    m + Zeros(Padding.SEALED_OVERHEAD)
  }

  function ToyOpen(key: seq<byte>, c: seq<byte>): Option<seq<byte>> {
    if |c| < Padding.SEALED_OVERHEAD then None else Some(c[..|c| - Padding.SEALED_OVERHEAD])
  }

  function ToyEncrypt(key: seq<byte>, aad: seq<byte>, m: seq<byte>, r: seq<byte>): seq<byte> {
    m + Zeros(Padding.AEAD_OVERHEAD)
  }

  function ToyDecrypt(key: seq<byte>, aad: seq<byte>, c: seq<byte>): Option<seq<byte>> {
    if |c| < Padding.AEAD_OVERHEAD then None else Some(c[..|c| - Padding.AEAD_OVERHEAD])
  }

  /** And those of the idealised cryptography. */
  lemma IdealLawsHold()
    ensures
      Envelopes.Ideal(EnvelopeJson, EnvelopeUnjson, Same, Same, ToySeal, ToyOpen, ToyEncrypt, ToyDecrypt,
        s => false).Lawful()
  {
    hide EnvelopeJson, EnvelopeUnjson, Envelopes.Clean, ToySeal, ToyOpen, ToyEncrypt, ToyDecrypt;
    forall e: Envelopes.Envelope | Envelopes.Clean(e)
      ensures EnvelopeUnjson(EnvelopeJson(e)) == Some(e)
    {
      EnvelopeReads(e);
    }
    forall k: seq<byte>, m: seq<byte>, r: seq<byte>
      ensures |ToySeal(k, m, r)| == |m| + Padding.SEALED_OVERHEAD
    {
      ToysOpen(m, k, [], r);
    }
    forall priv: seq<byte>, m: seq<byte>, r: seq<byte>
      ensures ToyOpen(priv, ToySeal(Same(priv), m, r)) == Some(m)
    {
      ToysOpen(m, Same(priv), priv, r);
    }
    forall k: seq<byte>, a: seq<byte>, m: seq<byte>, r: seq<byte>
      ensures |ToyEncrypt(k, a, m, r)| == |m| + Padding.AEAD_OVERHEAD
      ensures ToyDecrypt(k, a, ToyEncrypt(k, a, m, r)) == Some(m)
    {
      ToysOpen(m, k, a, r);
    }
  }

  lemma ToysOpen(m: seq<byte>, k: seq<byte>, a: seq<byte>, r: seq<byte>)
    ensures |ToySeal(k, m, r)| == |m| + Padding.SEALED_OVERHEAD && ToyOpen(a, ToySeal(k, m, r)) == Some(m)
    ensures |ToyEncrypt(k, a, m, r)| == |m| + Padding.AEAD_OVERHEAD
    ensures ToyDecrypt(k, a, ToyEncrypt(k, a, m, r)) == Some(m)
  {
    assert (m + Zeros(Padding.SEALED_OVERHEAD))[..|m|] == m && (m + Zeros(Padding.AEAD_OVERHEAD))[..|m|] == m;
  }
}
