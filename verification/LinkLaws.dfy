/** Building and parsing links undo each other. */
module LinkLaws {
  import opened Prelude
  import opened Escaping
  import opened Links
  import Base64Url
  import Envelopes
  import Storage
  import Utf8

  /** A relay that is written as it is normalized, or none. */
  predicate Normalized(relay: string) {
    relay == "" || NormalizeOrigin(relay) == Some(relay)
  }

  // ----- The fragment -----

  lemma DropFieldsReadable(d: DropLink, date: string -> bool)
    requires AsciiDates(date) && ValidDrop(d, date) && Normalized(d.relay) && Utf8.Valid(d.relay)
    ensures Readable(DropFields(d), DROP_KEYS) && DistinctKeys(DropFields(d)) && Encodable(DropFields(d))
  {
    hide Utf8.Valid, Envelopes.ValidName, NormalizeOrigin, Base64Url.Encode, Base64Url.Decode;
    DropFieldsEncodable(d, date);
    TokenIsAscii(d.id);
    AsciiIsText(d.id);
    TokenIsAscii(d.uploadToken);
    AsciiIsText(d.uploadToken);
    Base64Url.EncodeIsAscii(d.recipientKey);
    AsciiIsText(Base64Url.Encode(d.recipientKey));
    RetentionIsAscii(d.retention, date);
    AsciiIsText(d.retention);
    Storage.TextIsBytes(d.relay);
    AsciiIsText(VERSION);
  }

  lemma RevealFieldsReadable(r: RevealLink)
    requires ValidReveal(r) && Normalized(r.relay) && Utf8.Valid(r.relay)
    ensures Readable(RevealFields(r), REVEAL_KEYS) && DistinctKeys(RevealFields(r)) && Encodable(RevealFields(r))
  {
    hide Utf8.Valid, Envelopes.ValidName, NormalizeOrigin, Base64Url.Encode, Base64Url.Decode;
    RevealFieldsEncodable(r);
    TokenIsAscii(r.id);
    AsciiIsText(r.id);
    TokenIsAscii(r.revealToken);
    AsciiIsText(r.revealToken);
    Base64Url.EncodeIsAscii(r.key);
    AsciiIsText(Base64Url.Encode(r.key));
    Base64Url.EncodeIsAscii(r.salt);
    AsciiIsText(Base64Url.Encode(r.salt));
    Storage.TextIsBytes(r.relay);
    AsciiIsText(VERSION);
    AsciiIsText("0");
  }

  lemma ExactlyDecoded(b: seq<byte>, length: nat, size: nat)
    requires |b| == size && Base64Url.EncodedLength(size) == length
    ensures DecodeExactly(Base64Url.Encode(b), length, size) == Some(b)
    ensures Base64Url.Encode(b) == "" <==> length == 0
  {
    Base64Url.DecodeEncode(b);
  }

  /** What a fragment says about a key: the value of the field that has it. */
  ghost predicate Says(m: map<string, string>, fields: seq<Field>) {
    && (forall k :: k in m <==> exists i :: 0 <= i < |fields| && fields[i].key == k)
    && (forall i :: 0 <= i < |fields| ==> m[fields[i].key] == fields[i].value)
  }

  lemma SaysAt(m: map<string, string>, fields: seq<Field>, i: nat)
    requires Says(m, fields) && i < |fields|
    ensures Get(m, fields[i].key) == fields[i].value
  {
  }

  lemma SaysNot(m: map<string, string>, fields: seq<Field>, key: string)
    requires Says(m, fields) && forall i :: 0 <= i < |fields| ==> fields[i].key != key
    ensures Get(m, key) == ""
  {
  }

  lemma RelaySaid(m: map<string, string>, front: seq<Field>, relay: string)
    requires ValidRelay(relay) && Normalized(relay) && Says(m, front + RelayField(relay))
    requires forall i :: 0 <= i < |front| ==> front[i].key != "r"
    ensures Get(m, "r") == relay
  {
    var fields := front + RelayField(relay);
    if relay == "" {
      assert fields == front;
      SaysNot(m, fields, "r");
    } else {
      assert fields[|front|] == Field("r", relay);
      SaysAt(m, fields, |front|);
    }
  }

  lemma SaltSaid(m: map<string, string>, front: seq<Field>, salt: seq<byte>, back: seq<Field>)
    requires Says(m, front + SaltField(salt) + back) && (salt == [] || |salt| == SALT_BYTES)
    requires forall i :: 0 <= i < |front| ==> front[i].key != "s"
    requires forall i :: 0 <= i < |back| ==> back[i].key != "s"
    ensures ReadSalt(Get(m, "s")) == Some(salt)
  {
    var fields := front + SaltField(salt) + back;
    if salt == [] {
      assert fields == front + back;
      SaysNot(m, fields, "s");
    } else {
      assert fields[|front|] == Field("s", Base64Url.Encode(salt));
      SaysAt(m, fields, |front|);
      ExactlyDecoded(salt, SALT_LEN, SALT_BYTES);
    }
  }

  lemma ReadDropBack(d: DropLink, date: string -> bool, m: map<string, string>)
    requires AsciiDates(date) && ValidDrop(d, date) && Normalized(d.relay) && Says(m, DropFields(d))
    ensures ReadDrop(m, date) == Some(d)
  {
    hide Utf8.Valid, Envelopes.ValidName, Envelopes.ValidText, NormalizeOrigin, Base64Url.Encode, Base64Url.Decode,
      Says;
    var f := DropFields(d);
    assert f[1].key == "i" && f[2].key == "u" && f[3].key == "k" && f[4].key == "n" && f[5].key == "p"
      && f[6].key == "s" && f[7].key == "t";
    SaysAt(m, f, 1);
    SaysAt(m, f, 2);
    SaysAt(m, f, 3);
    SaysAt(m, f, 4);
    SaysAt(m, f, 5);
    SaysAt(m, f, 6);
    SaysAt(m, f, 7);
    assert f == f[..8] + RelayField(d.relay);
    RelaySaid(m, f[..8], d.relay);
    TokenIsAscii(d.id);
    TokenIsAscii(d.uploadToken);
    ExactlyDecoded(d.recipientKey, KEY_LEN, KEY_BYTES);
    RetentionIsAscii(d.retention, date);
    assert d.name != "" by { NameNotEmpty(d.name); }
  }

  lemma NameNotEmpty(name: string)
    requires ValidName(name)
    ensures name != ""
  {
  }

  lemma ReadRevealBack(r: RevealLink, m: map<string, string>)
    requires ValidReveal(r) && Normalized(r.relay) && Says(m, RevealFields(r))
    ensures ReadReveal(m) == Some(r)
  {
    hide Utf8.Valid, Envelopes.ValidName, NormalizeOrigin, Base64Url.Encode, Base64Url.Decode, Says, ReadSalt;
    var f := RevealFields(r);
    assert f[1].key == "i" && f[2].key == "o" && f[3].key == "k" && f[4].key == "n" && f[5].key == "c";
    SaysAt(m, f, 1);
    SaysAt(m, f, 2);
    SaysAt(m, f, 3);
    SaysAt(m, f, 4);
    SaysAt(m, f, 5);
    assert f == f[..6] + SaltField(r.salt) + RelayField(r.relay);
    SaltSaid(m, f[..6], r.salt, RelayField(r.relay));
    assert f == (f[..6] + SaltField(r.salt)) + RelayField(r.relay);
    RelaySaid(m, f[..6] + SaltField(r.salt), r.relay);
    TokenIsAscii(r.id);
    TokenIsAscii(r.revealToken);
    ExactlyDecoded(r.key, KEY_LEN, KEY_BYTES);
    assert r.name != "" by { NameNotEmpty(r.name); }
  }

  // ----- The whole link -----

  lemma PlainPath(path: string)
    requires path == PATH_DROP || path == PATH_REVEAL
    ensures Unpercent(path, false) == Some(path) && Utf8.Valid(path) && DropSlash(path) == path
    ensures '?' !in path && '#' !in path && path[0] == '/'
  {
    hide Unpercent, Utf8.Valid;
    UnpercentPlain(path);
    Utf8.AsciiValid(path);
  }

  lemma {:induction false} UnpercentPlain(s: string)
    requires forall k :: 0 <= k < |s| ==> s[k] != '%'
    ensures Unpercent(s, false) == Some(s)
  {
    if s != "" {
      UnpercentPlain(s[1..]);
      assert [s[0]] + s[1..] == s;
    }
  }

  /** A link is split where it was put together. */
  lemma SplitBuilt(origin: string, path: string, frag: string)
    requires NormalizeOrigin(origin) == Some(origin) && (path == PATH_DROP || path == PATH_REVEAL)
    requires |origin + path + "#" + frag| <= MAX_LINK
    ensures SplitLink(origin + path + "#" + frag) == Some(Raw(origin, path, frag))
  {
    hide NormalizeOrigin, SplitUrl, AuthorityLength, Unpercent, Utf8.Valid, Scheme;
    var raw := origin + path + "#" + frag;
    var base := origin + path;
    NormalizeIdempotent(origin);
    var scheme, authority :| Scheme(scheme) && AuthorityLength(authority) == |authority| && '@' !in authority
      && origin == Origin(scheme, authority);
    PlainPath(path);
    SplitUrlOf(scheme, authority, path);
    assert base == scheme + "://" + authority + path;
    NoHash(scheme, authority);
    Pieces(base, "#", frag);
    assert forall k :: 0 <= k < |base| ==> base[k] != '#';
    IndexOfIs(raw, '#', |base|);
  }

  lemma NoHash(scheme: string, authority: string)
    requires Scheme(scheme) && AuthorityLength(authority) == |authority|
    ensures forall k :: 0 <= k < |Origin(scheme, authority)| ==> Origin(scheme, authority)[k] != '#'
  {
    var s := Origin(scheme, authority);
    assert forall k :: 0 <= k < |scheme| ==> scheme[k] != '#';
    assert forall k :: 0 <= k < |authority| ==> authority[k] != '#';
    assert forall k :: 0 <= k < |"://"| ==> "://"[k] != '#';
    Pieces(scheme, "://", authority);
    assert forall k :: |scheme| + 3 <= k < |s| ==> s[k] == authority[k - |scheme| - 3];
    assert forall k :: |scheme| <= k < |scheme| + 3 ==> s[k] == "://"[k - |scheme|];
  }

  /** A valid drop link, its relay normalized, is what parsing its URL gives, with the page's origin. */
  lemma DropRoundTrip(d: DropLink, pageOrigin: string, date: string -> bool)
    requires AsciiDates(date) && Normalized(d.relay) && Utf8.Valid(d.relay)
    requires BuildDrop(d, pageOrigin, date).Some? && |BuildDrop(d, pageOrigin, date).value| <= MAX_LINK
    ensures ParseLink(BuildDrop(d, pageOrigin, date).value, date)
      == Some(ParsedDrop(NormalizeOrigin(pageOrigin).value, d))
  {
    hide NormalizeOrigin, SplitLink, FieldsOf, EncodeFields, DropFields, ReadDrop, ValidDrop, Readable, DistinctKeys;
    var origin := NormalizeOrigin(pageOrigin).value;
    NormalizeIdempotent(pageOrigin);
    DropFieldsReadable(d, date);
    Storage.TextIsBytes(d.relay);
    FirstIsVersion(d);
    SplitBuilt(origin, PATH_DROP, EncodeFields(DropFields(d)));
    FieldsRoundTrip(DropFields(d), DROP_KEYS);
    ReadDropBack(d, date, FieldsOf(EncodeFields(DropFields(d)), DROP_KEYS).value);
  }

  lemma FirstIsVersion(d: DropLink)
    requires ValidRelay(d.relay)
    ensures DropFields(d) != [] && DropFields(d)[0] == Field("v", VERSION)
  {
  }

  lemma FirstRevealIsVersion(r: RevealLink)
    requires ValidRelay(r.relay)
    ensures RevealFields(r) != [] && RevealFields(r)[0] == Field("v", VERSION)
  {
  }

  lemma RevealRoundTrip(r: RevealLink, pageOrigin: string, date: string -> bool)
    requires Normalized(r.relay) && Utf8.Valid(r.relay)
    requires BuildReveal(r, pageOrigin).Some? && |BuildReveal(r, pageOrigin).value| <= MAX_LINK
    ensures ParseLink(BuildReveal(r, pageOrigin).value, date)
      == Some(ParsedReveal(NormalizeOrigin(pageOrigin).value, r))
  {
    hide NormalizeOrigin, SplitLink, FieldsOf, EncodeFields, RevealFields, ReadReveal, ValidReveal, Readable,
      DistinctKeys;
    var origin := NormalizeOrigin(pageOrigin).value;
    NormalizeIdempotent(pageOrigin);
    RevealFieldsReadable(r);
    Storage.TextIsBytes(r.relay);
    FirstRevealIsVersion(r);
    SplitBuilt(origin, PATH_REVEAL, EncodeFields(RevealFields(r)));
    FieldsRoundTrip(RevealFields(r), REVEAL_KEYS);
    ReadRevealBack(r, FieldsOf(EncodeFields(RevealFields(r)), REVEAL_KEYS).value);
  }

  /** Whatever parses is valid, its relay and the page's origin normalized. */
  lemma ParsedIsValid(raw: string, date: string -> bool)
    requires ParseLink(raw, date).Some?
    ensures
      var p := ParseLink(raw, date).value;
      && NormalizeOrigin(p.pageOrigin) == Some(p.pageOrigin)
      && (p.ParsedDrop? ==> ValidDrop(p.drop, date) && Normalized(p.drop.relay) && Utf8.Valid(p.drop.relay))
      && (p.ParsedReveal? ==> ValidReveal(p.link) && Normalized(p.link.relay) && Utf8.Valid(p.link.relay))
  {
    hide NormalizeOrigin, FieldsOf, ValidDrop, ValidReveal, DecodeExactly, Utf8.Valid;
    Utf8.AsciiValid("");
    var s := SplitLink(raw).value;
    var u := SplitUrl(raw[..IndexOf(raw, '#')]).value;
    NormalizeIdempotent(Origin(u.scheme, u.authority));
    if s.path == PATH_DROP {
      var m := FieldsOf(s.frag, DROP_KEYS).value;
      FieldsAreText(s.frag, DROP_KEYS);
      if Get(m, "r") != "" {
        NormalizeIdempotent(Get(m, "r"));
        NormalizedText(Get(m, "r"));
      }
    } else {
      var m := FieldsOf(s.frag, REVEAL_KEYS).value;
      FieldsAreText(s.frag, REVEAL_KEYS);
      if Get(m, "r") != "" {
        NormalizeIdempotent(Get(m, "r"));
        NormalizedText(Get(m, "r"));
      }
    }
  }

  /** A parsed link, built again, parses to the same: building is a normal form of every accepted link. */
  lemma RebuiltParsesSame(raw: string, date: string -> bool)
    requires AsciiDates(date) && ParseLink(raw, date).Some?
    ensures
      var p := ParseLink(raw, date).value;
      var again := if p.ParsedDrop? then BuildDrop(p.drop, p.pageOrigin, date) else BuildReveal(p.link, p.pageOrigin);
      again.Some? && (|again.value| <= MAX_LINK ==> ParseLink(again.value, date) == Some(p))
  {
    hide NormalizeOrigin, ParseLink, EncodeFields, ValidDrop, ValidReveal;
    var p := ParseLink(raw, date).value;
    ParsedIsValid(raw, date);
    if p.ParsedDrop? {
      var again := BuildDrop(p.drop, p.pageOrigin, date);
      if |again.value| <= MAX_LINK {
        DropRoundTrip(p.drop, p.pageOrigin, date);
      }
    } else {
      var again := BuildReveal(p.link, p.pageOrigin);
      if |again.value| <= MAX_LINK {
        RevealRoundTrip(p.link, p.pageOrigin, date);
      }
    }
  }

  // ----- What a normalized origin is -----

  /** It is in lower case, and plain http is only for this machine. */
  lemma NormalizedIsPlain(s: string)
    requires NormalizeOrigin(s).Some?
    ensures
      var t := NormalizeOrigin(s).value;
      && Lower(t) == t
      && (Storage.HasPrefix(t, "https://")
          || exists h: HostPort ::
               t == Written("http", h) && Lower(Hostname(h.host)) in {"localhost", "127.0.0.1", "::1"})
  {
    hide SplitUrl, SplitHost, HostnameOk, Hostname;
    var u := SplitUrl(s).value;
    var h := SplitHost(u.authority).value;
    var t := NormalizeOrigin(s).value;
    SplitHostParts(u.authority);
    LowerTwice(u.scheme);
    LowerTwice(h.host);
    LowerConcat(u.scheme, h);
    if Lower(u.scheme) == "https" {
      assert t[..8] == "https://";
    } else {
      assert Lower("http") == "http";
      assert t == Written("http", h);
    }
  }

  lemma LowerConcat(scheme: string, h: HostPort)
    requires h.port == "" || Digits(h.port)
    ensures Lower(Written(scheme, h)) == Written(scheme, h)
  {
    var t := Written(scheme, h);
    forall k | 0 <= k < |t|
      ensures LowerChar(t[k]) == t[k]
    {
    }
  }

  /** An origin written with the default port, or with a slash behind it, is the same origin. */
  lemma SameOrigin(host: string)
    requires Plain(host) && HostnameOk(host) && '@' !in host && AuthorityLength(host) == |host|
    requires |"https://" + host + ":443"| <= MAX_ORIGIN
    ensures NormalizeOrigin("https://" + host) == Some("https://" + Lower(host))
    ensures NormalizeOrigin("https://" + host + "/") == Some("https://" + Lower(host))
    ensures NormalizeOrigin("https://" + host + ":443") == Some("https://" + Lower(host))
  {
    hide SplitUrl, SplitHost, AuthorityLength, HostnameOk, Plain, NormalizeOrigin;
    PlainHostname(host);
    PortAuthority(host);
    SplitPlainAlone(host);
    assert Digits("443");
    SplitPlainPort(host, "443");
    assert host + ":" + "443" == host + ":443";
    assert "https://" + (host + ":443") == "https://" + host + ":443";
    NormalizeHttps(host, "", HostPort(host, ""));
    NothingBehind("https://" + host);
    NormalizeHttps(host, "/", HostPort(host, ""));
    NormalizeHttps(host + ":443", "", HostPort(host, "443"));
    NothingBehind("https://" + (host + ":443"));
    WrittenHttps(host);
  }

  lemma WrittenHttps(host: string)
    ensures Written("https", HostPort(host, "")) == Written("https", HostPort(host, "443")) == "https://" + Lower(host)
  {
    assert Lower("https") == "https";
  }

  lemma NormalizeHttps(authority: string, rest: string, h: HostPort)
    requires AuthorityLength(authority) == |authority| && '@' !in authority && (rest == "" || rest == "/")
    requires SplitHost(authority) == Some(h) && HostnameOk(Hostname(h.host))
    requires |"https://" + authority + rest| <= MAX_ORIGIN
    ensures NormalizeOrigin("https://" + authority + rest) == Some(Written("https", h))
  {
    hide SplitUrl, SplitHost, AuthorityLength, HostnameOk, Hostname, Written, Scheme;
    SchemeHttps();
    SplitUrlOf("https", authority, rest);
    assert "https" + "://" == "https://";
    assert Lower("https") == "https";
  }

  lemma SchemeHttps()
    ensures Scheme("https")
  {
  }

  lemma PlainHostname(host: string)
    requires Plain(host)
    ensures Hostname(host) == host
  {
  }

  lemma PortAuthority(host: string)
    requires AuthorityLength(host) == |host| && '@' !in host
    ensures AuthorityLength(host + ":443") == |host + ":443"| && '@' !in host + ":443"
  {
    AuthorityPlain(host + ":443");
  }
}
