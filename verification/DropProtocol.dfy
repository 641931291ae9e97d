/**
 * A drop from end to end. The agent registers a commitment to its key with the relay; the page
 * seals what the human typed, with everything it showed, to the key in its link; the agent
 * fetches once, opens, compares and stores. The relay is the slot machine, so its other
 * clients may do anything at any time; cryptography is idealised.
 */
module DropProtocol {
  import opened Prelude
  import opened Slots
  import opened SlotRuns
  import opened ExactlyOnce
  import opened Envelopes
  import Base64Url
  import Manager
  import Redactor
  import Storage
  import Utf8

  /** The link as the page has it: a key, and the fields it shows. */
  datatype Shown = Shown(key: seq<byte>, name: string, purpose: string, storage: string, retention: string)

  /** What the agent keeps of a request. */
  datatype Pending = Pending(
    id: Id,
    fetchToken: string,
    uploadToken: string,
    priv: seq<byte>,
    pub: seq<byte>,
    name: string,
    purpose: string,
    retention: string,
    storage: string,
    sendable: bool,
    fingerprint: string)

  function HexDigit(n: nat): char
    requires n < 16
  {
    if n < 10 then '0' + n as char else 'a' + (n - 10) as char
  }

  function Group(b: seq<byte>, i: nat): string
    requires i + 1 < |b|
  {
    [HexDigit(b[i] / 16), HexDigit(b[i] % 16), HexDigit(b[i + 1] / 16), HexDigit(b[i + 1] % 16)]
  }

  /** The first eight bytes of a key's digest, in four groups of hexadecimal digits. */
  function Fingerprint(c: Ideal, key: seq<byte>): string
    requires |c.sha256(key)| >= 8
  {
    var d := c.sha256(key);
    Group(d, 0) + "-" + Group(d, 2) + "-" + Group(d, 4) + "-" + Group(d, 6)
  }

  function FingerprintOf(c: Ideal, key: seq<byte>): string {
    if |c.sha256(key)| >= 8 then Fingerprint(c, key) else ""
  }

  /** The envelope the page fills in: what it showed, the fingerprint of the key it used, the secret. */
  function PageEnvelope(c: Ideal, shown: Shown, value: seq<byte>): Envelope {
    SetSecret(
      Envelope(1, TYPE_DROP, shown.name, shown.purpose, shown.storage, shown.retention, FingerprintOf(c, shown.key),
        "", ""),
      value)
  }

  /** The envelope tells what the page showed and the fingerprint of the key it sealed to. */
  lemma PageEnvelopeExactly(c: Ideal, shown: Shown, value: seq<byte>)
    ensures
      var e := PageEnvelope(c, shown, value);
      && e.v == 1 && e.kind == "drop" && e.name == shown.name && e.purpose == shown.purpose
        && e.storage == shown.storage
      && e.retention == shown.retention && e.fingerprint == FingerprintOf(c, shown.key) && SecretBytes(e) == Some(value)
  {
    SecretRoundTrip(
      Envelope(1, TYPE_DROP, shown.name, shown.purpose, shown.storage, shown.retention, FingerprintOf(c, shown.key),
        "", ""),
      value);
  }

  /** A fingerprint is the first eight bytes of the digest in lower-case hexadecimal, in groups of four digits. */
  lemma FingerprintExactly(c: Ideal, key: seq<byte>)
    requires |c.sha256(key)| >= 8
    ensures
      var (f, d) := (Fingerprint(c, key), c.sha256(key));
      && ValidFingerprint(f) && f[4] == f[9] == f[14] == '-'
      && HexPair(f[0], f[1]) == d[0] && HexPair(f[2], f[3]) == d[1]
      && HexPair(f[5], f[6]) == d[2] && HexPair(f[7], f[8]) == d[3]
      && HexPair(f[10], f[11]) == d[4] && HexPair(f[12], f[13]) == d[5]
      && HexPair(f[15], f[16]) == d[6] && HexPair(f[17], f[18]) == d[7]
  {
    hide Group, HexPair, Hex;
    var d := c.sha256(key);
    GroupExactly(d, 0);
    GroupExactly(d, 2);
    GroupExactly(d, 4);
    GroupExactly(d, 6);
    GroupsJoined(Group(d, 0), Group(d, 2), Group(d, 4), Group(d, 6));
  }

  lemma GroupsJoined(a: string, b: string, c: string, d: string)
    requires |a| == |b| == |c| == |d| == 4
    ensures
      var f := a + "-" + b + "-" + c + "-" + d;
      && |f| == 19 && f[4] == f[9] == f[14] == '-'
      && f[0] == a[0] && f[1] == a[1] && f[2] == a[2] && f[3] == a[3]
      && f[5] == b[0] && f[6] == b[1] && f[7] == b[2] && f[8] == b[3]
      && f[10] == c[0] && f[11] == c[1] && f[12] == c[2] && f[13] == c[3]
      && f[15] == d[0] && f[16] == d[1] && f[17] == d[2] && f[18] == d[3]
  {
  }

  /** The byte two lower-case hexadecimal digits stand for. */
  function HexPair(a: char, b: char): int {
    HexOf(a) * 16 + HexOf(b)
  }

  function HexOf(c: char): int {
    if '0' <= c <= '9' then (c - '0') as int else (c as int) - ('a' as int) + 10
  }

  lemma GroupExactly(b: seq<byte>, i: nat)
    requires i + 1 < |b|
    ensures |Group(b, i)| == 4 && forall k :: 0 <= k < 4 ==> Hex(Group(b, i)[k])
    ensures HexPair(Group(b, i)[0], Group(b, i)[1]) == b[i] && HexPair(Group(b, i)[2], Group(b, i)[3]) == b[i + 1]
  {
    HexDigits(b[i]);
    HexDigits(b[i + 1]);
  }

  lemma HexDigits(n: nat)
    requires n < 256
    ensures Hex(HexDigit(n / 16)) && Hex(HexDigit(n % 16)) && HexPair(HexDigit(n / 16), HexDigit(n % 16)) == n
  {
  }

  /** The page can seal what it shows, whatever is typed, unless it is too long. */
  lemma PageCanSeal(c: Ideal, shown: Shown, value: seq<byte>, r: seq<byte>)
    requires c.Lawful() && |shown.key| == KEY_SIZE
    requires ValidName(shown.name) && ValidText(shown.purpose) && ValidText(shown.storage)
    requires Storage.ValidRetention(shown.retention, c.date)
    ensures c.Valid(PageEnvelope(c, shown, value))
    ensures
      c.SealEnvelope(shown.key, PageEnvelope(c, shown, value), r).Some?
      <==> |c.json(PageEnvelope(c, shown, value))| <= 65536
  {
    hide ValidName, ValidText, ValidFingerprint, Utf8.Valid, Storage.ValidRetention, Fingerprint, Base64Url.Decode,
      Base64Url.Encode, HasBinaryControl;
    FingerprintExactly(c, shown.key);
    Base64Url.DecodeEncode(value);
    SealedExactly(c, shown.key, PageEnvelope(c, shown, value), r);
  }

  datatype Mismatch = NotADrop | WrongName | WrongFingerprint | WrongRetention | WrongPurpose | WrongStorage

  /** The first difference between an opened envelope and the request, if any. */
  function CheckEnvelope(e: Envelope, rec: Pending, describe: string -> string): Option<Mismatch> {
    if e.kind != TYPE_DROP then Some(NotADrop)
    else if e.name != rec.name then Some(WrongName)
    else if e.fingerprint != "" && e.fingerprint != rec.fingerprint then Some(WrongFingerprint)
    else if e.retention != rec.retention then Some(WrongRetention)
    else if e.purpose != rec.purpose then Some(WrongPurpose)
    else if e.storage != describe(rec.storage) then Some(WrongStorage)
    else None
  }

  datatype Received = Rejected | Unreadable | Accepted(value: seq<byte>)

  /** What the agent makes of a ciphertext. */
  function Receive(c: Ideal, rec: Pending, describe: string -> string, ct: seq<byte>): Received {
    var e := c.OpenEnvelope(rec.priv, ct);
    if e == None then Rejected
    else if CheckEnvelope(e.value, rec, describe).Some? then Rejected
    else
      var v := SecretBytes(e.value);
      if v == None then Unreadable else Accepted(v.value)
  }

  /**
   * A secret is accepted exactly if the ciphertext opens to a drop's envelope whose name, purpose,
   * retention and storage are the request's and whose fingerprint, if any, is its own.
   */
  lemma ReceiveExactly(c: Ideal, rec: Pending, describe: string -> string, ct: seq<byte>, value: seq<byte>)
    ensures
      Receive(c, rec, describe, ct) == Accepted(value)
      <==>
      var e := c.OpenEnvelope(rec.priv, ct);
      && e.Some? && e.value.kind == "drop" && e.value.name == rec.name && e.value.purpose == rec.purpose
      && e.value.retention == rec.retention && e.value.storage == describe(rec.storage)
      && (e.value.fingerprint == "" || e.value.fingerprint == rec.fingerprint)
      && SecretBytes(e.value) == Some(value)
  {
  }

  /** The display fields the human saw are those of the request. */
  predicate Matches(shown: Shown, rec: Pending, describe: string -> string) {
    shown.name == rec.name && shown.purpose == rec.purpose && shown.retention == rec.retention
    && shown.storage == describe(rec.storage)
  }

  predicate ShownIsText(shown: Shown) {
    Utf8.Valid(shown.name) && Utf8.Valid(shown.purpose) && Utf8.Valid(shown.storage) && Utf8.Valid(shown.retention)
  }

  lemma PageEnvelopeClean(c: Ideal, shown: Shown, value: seq<byte>)
    requires ShownIsText(shown)
    ensures Clean(PageEnvelope(c, shown, value))
  {
    hide Utf8.Valid, Base64Url.Encode, FingerprintOf;
    Utf8.AsciiValid(TYPE_DROP);
    Utf8.AsciiValid(FORMAT_TEXT);
    Utf8.AsciiValid(FORMAT_BASE64);
    FingerprintIsText(c, shown.key);
    EncodedIsText(value);
  }

  lemma EncodedIsText(b: seq<byte>)
    ensures Utf8.Valid(Base64Url.Encode(b))
  {
    Base64Url.EncodeIsAscii(b);
    Utf8.AsciiValid(Base64Url.Encode(b));
  }

  lemma FingerprintIsText(c: Ideal, key: seq<byte>)
    ensures Utf8.Valid(FingerprintOf(c, key))
  {
    if |c.sha256(key)| >= 8 {
      var d := c.sha256(key);
      var f := Group(d, 0) + "-" + Group(d, 2) + "-" + Group(d, 4) + "-" + Group(d, 6);
      GroupIsAscii(d, 0);
      GroupIsAscii(d, 2);
      GroupIsAscii(d, 4);
      GroupIsAscii(d, 6);
      Utf8.AsciiValid(f);
    } else {
      Utf8.AsciiValid("");
    }
  }

  lemma GroupIsAscii(b: seq<byte>, i: nat)
    requires i + 1 < |b|
    ensures forall k :: 0 <= k < 4 ==> Group(b, i)[k] < 0x80 as char
  {
  }

  /** The request was made with this key pair. */
  predicate OwnKey(c: Ideal, rec: Pending) {
    |rec.pub| == KEY_SIZE && rec.pub == c.public(rec.priv) && rec.fingerprint == FingerprintOf(c, rec.pub)
  }

  /**
   * A secret sealed to the request's key is stored byte for byte if the human saw the right fields,
   * and rejected if not.
   */
  lemma SealedIsReceived(c: Ideal, rec: Pending, describe: string -> string, shown: Shown, value: seq<byte>,
      r: seq<byte>)
    requires c.Lawful() && OwnKey(c, rec) && shown.key == rec.pub && ShownIsText(shown)
    requires c.SealEnvelope(shown.key, PageEnvelope(c, shown, value), r).Some?
    ensures
      var ct := c.SealEnvelope(shown.key, PageEnvelope(c, shown, value), r).value;
      Receive(c, rec, describe, ct) == if Matches(shown, rec, describe) then Accepted(value) else Rejected
  {
    hide Utf8.Valid, Base64Url.Encode, Ideal.Valid;
    var e := PageEnvelope(c, shown, value);
    PageEnvelopeClean(c, shown, value);
    OpenSeal(c, rec.priv, e, r);
    SecretRoundTrip(
      Envelope(1, TYPE_DROP, shown.name, shown.purpose, shown.storage, shown.retention, FingerprintOf(c, shown.key),
        "", ""),
      value);
  }

  // ----- Over a run of the relay -----

  /** Step i of the run created the request's slot, and its id was never used for another. */
  ghost predicate RequestedAt(c: Ideal, o: Options, ops: seq<Op>, i: nat, rec: Pending) {
    && CreatedAt(o, ops, i, rec.id)
    && ops[i].drop.kind == KindDrop && ops[i].drop.commitment == c.Commitment(rec.pub)
    && forall k :: 0 <= k < |ops| && CreatedAt(o, ops, k, rec.id) ==> k == i
  }

  /**
   * An upload the relay accepts was made with the request's own key: a link with another key has
   * another commitment.
   */
  lemma AcceptedKeyIsOurs(c: Ideal, o: Options, ops: seq<Op>, i: nat, rec: Pending, j: nat, key: seq<byte>)
    requires c.Lawful() && ProperRun(ops) && OwnKey(c, rec) && RequestedAt(c, o, ops, i, rec)
    requires UploadedAt(o, ops, j, rec.id) && |key| == KEY_SIZE && ops[j].commitment == c.Commitment(key)
    ensures key == rec.pub
  {
    UploadEffect(o, StateAt(o, ops, j), ops[j]);
    LiveSlotExplained(o, ops, j, rec.id);
    CommitmentInjective(c, key, rec.pub);
  }

  /** Step j is an upload by an honest page: sealed to the key in its link and sent with that key's commitment. */
  ghost predicate PageUpload(c: Ideal, op: Op, id: Id, shown: Shown, value: seq<byte>) {
    && op.OpUpload? && op.id == id && |shown.key| == KEY_SIZE && ShownIsText(shown)
    && op.commitment == c.Commitment(shown.key)
    && exists r: seq<byte> :: c.SealEnvelope(shown.key, PageEnvelope(c, shown, value), r) == Some(op.ct)
  }

  /**
   * From end to end: whatever else happens at the relay, if an honest page's upload is the one
   * that was accepted, then a fetch that gets a ciphertext gets the bytes the human typed when
   * the page showed the request's fields, and is rejected when it showed others.
   */
  lemma EndToEnd(c: Ideal, o: Options, ops: seq<Op>, i: nat, rec: Pending, describe: string -> string,
      u: nat, shown: Shown, value: seq<byte>, j: nat)
    requires c.Lawful() && ProperRun(ops) && OwnKey(c, rec) && RequestedAt(c, o, ops, i, rec)
    requires UploadedAt(o, ops, u, rec.id) && PageUpload(c, ops[u], rec.id, shown, value)
    requires DeliveredAt(o, ops, j, rec.id) && ops[j].OpFetch?
    ensures shown.key == rec.pub && i < u < j
    ensures ReplyAt(o, ops, j).Payload?
    ensures Receive(c, rec, describe, ReplyAt(o, ops, j).ciphertext) == if Matches(shown, rec, describe) then
      Accepted(value) else Rejected
  {
    hide Receive, Matches, Ideal.SealEnvelope, Ideal.Commitment, PageEnvelope, OwnKey;
    AcceptedKeyIsOurs(c, o, ops, i, rec, u, shown.key);
    DeliveredIsStored(o, ops, j, rec.id);
    OneUpload(o, ops, i, u, Last(o, ops, j, rec.id), rec.id);
    var r: seq<byte> :| c.SealEnvelope(shown.key, PageEnvelope(c, shown, value), r) == Some(ops[u].ct);
    SealedIsReceived(c, rec, describe, shown, value, r);
  }

  /** A slot accepts one upload. */
  lemma OneUpload(o: Options, ops: seq<Op>, i: nat, u: nat, v: nat, id: Id)
    requires ProperRun(ops) && CreatedAt(o, ops, i, id)
    requires forall k :: 0 <= k < |ops| && CreatedAt(o, ops, k, id) ==> k == i
    requires UploadedAt(o, ops, u, id) && UploadedAt(o, ops, v, id)
    ensures u == v && i < u
  {
    UploadAfterCreation(o, ops, u, id);
    UploadAfterCreation(o, ops, v, id);
  }

  lemma UploadAfterCreation(o: Options, ops: seq<Op>, u: nat, id: Id)
    requires ProperRun(ops) && UploadedAt(o, ops, u, id)
    ensures var c := Last(o, ops, u, id); 0 <= c < u && CreatedAt(o, ops, c, id) && forall k :: c < k < u ==>
      !Event(o, ops, k, id)
  {
    UploadEffect(o, StateAt(o, ops, u), ops[u]);
    LiveSlotExplained(o, ops, u, id);
  }

  /** However many fetch, and whoever they are, at most one gets something to store. */
  lemma AtMostOneStores(c: Ideal, o: Options, ops: seq<Op>, i: nat, rec: Pending, describe: string -> string, j: nat,
      k: nat)
    requires ProperRun(ops) && RequestedAt(c, o, ops, i, rec)
    requires j < |ops| && ops[j].OpFetch? && ops[j].id == rec.id && Stores(c, rec, describe, ReplyAt(o, ops, j))
    requires k < |ops| && ops[k].OpFetch? && ops[k].id == rec.id && Stores(c, rec, describe, ReplyAt(o, ops, k))
    ensures j == k
  {
    DeliveredIsStored(o, ops, j, rec.id);
    DeliveredIsStored(o, ops, k, rec.id);
    AtMostOnce(o, ops, j, k, rec.id);
  }

  /** The reply to a fetch lets the agent store a secret. */
  predicate Stores(c: Ideal, rec: Pending, describe: string -> string, r: Reply) {
    r.Payload? && Receive(c, rec, describe, r.ciphertext).Accepted?
  }
}
