/**
 * What a link looks like, letter by letter, and exactly which fragments are read. Whatever
 * tells the drop from others stands behind the "#", where no server sees it.
 */
module LinkTexts {
  import opened Prelude
  import opened Escaping
  import opened Links
  import Base64Url
  import Storage
  import Utf8

  // ----- What is written -----

  lemma {:induction false} EscapeOwn(s: string)
    requires forall k :: 0 <= k < |s| ==> Unreserved(s[k])
    ensures Storage.IsBytes(s) && Escape(s) == s
  {
    if s != "" {
      EscapeOwn(s[1..]);
      assert [s[0]] + s[1..] == s;
    }
  }

  /** Tokens and keys are written as they are. */
  lemma EncodedOwn(s: string)
    requires Base64Url.Decode(s).Success?
    ensures Storage.IsBytes(s) && Escape(s) == s
  {
    Base64Url.EncodeDecode(s);
    EncodedUnreserved(Base64Url.Decode(s).value);
    EscapeOwn(s);
  }

  lemma EncodedUnreserved(b: seq<byte>)
    ensures forall k :: 0 <= k < |Base64Url.Encode(b)| ==> Unreserved(Base64Url.Encode(b)[k])
  {
    hide Base64Url.SextetAt;
    forall k | 0 <= k < |Base64Url.Encode(b)|
      ensures Unreserved(Base64Url.Encode(b)[k])
    {
      DigitUnreserved(Base64Url.SextetAt(b, k));
    }
  }

  lemma DigitUnreserved(v: Base64Url.sextet)
    ensures Unreserved(Base64Url.Digit(v))
  {
  }

  lemma TokenOwn(s: string)
    requires ValidToken(s)
    ensures Storage.IsBytes(s) && Escape(s) == s
  {
    EncodedOwn(s);
  }

  lemma KeyOwn(b: seq<byte>)
    ensures Storage.IsBytes(Base64Url.Encode(b)) && Escape(Base64Url.Encode(b)) == Base64Url.Encode(b)
  {
    Base64Url.DecodeEncode(b);
    EncodedOwn(Base64Url.Encode(b));
  }

  /** The relay of a link, if it has one of its own. */
  function RelayPart(relay: string): seq<string> {
    if relay == "" || NormalizeOrigin(relay) == None || !Storage.IsBytes(NormalizeOrigin(relay).value) then []
    else ["r=" + Escape(NormalizeOrigin(relay).value)]
  }

  /** The parts of a drop link. */
  lemma DropParts(d: DropLink)
    requires ValidRelay(d.relay) && Encodable(DropFields(d)) && ValidToken(d.id) && ValidToken(d.uploadToken)
    ensures Storage.IsBytes(d.name) && Storage.IsBytes(d.purpose) && Storage.IsBytes(d.storage)
      && Storage.IsBytes(d.retention)
    ensures d.relay != "" ==> Storage.IsBytes(NormalizeOrigin(d.relay).value)
    ensures
      EncodedParts(DropFields(d)) ==
        [ "v=1", "i=" + d.id, "u=" + d.uploadToken, "k=" + Base64Url.Encode(d.recipientKey), "n=" + Escape(d.name),
          "p=" + Escape(d.purpose), "s=" + Escape(d.storage), "t=" + Escape(d.retention)] + RelayPart(d.relay)
  {
    hide NormalizeOrigin, Escape, Base64Url.Encode, Base64Url.Decode, ValidToken, Storage.IsBytes;
    var fields := DropFields(d);
    EncodableFields(fields);
    TokenOwn(d.id);
    TokenOwn(d.uploadToken);
    KeyOwn(d.recipientKey);
    VersionOwn();
    assert fields[4].value == d.name && fields[5].value == d.purpose && fields[6].value == d.storage
      && fields[7].value == d.retention;
    assert d.relay != "" ==> fields[8].value == NormalizeOrigin(d.relay).value;
    var parts := EncodedParts(fields);
    assert parts[0] == "v=" + Escape("1") && parts[1] == "i=" + Escape(d.id)
      && parts[2] == "u=" + Escape(d.uploadToken);
    assert parts[3] == "k=" + Escape(Base64Url.Encode(d.recipientKey)) && parts[4] == "n=" + Escape(d.name);
    assert parts[5] == "p=" + Escape(d.purpose) && parts[6] == "s=" + Escape(d.storage)
      && parts[7] == "t=" + Escape(d.retention);
    assert d.relay != "" ==> parts[8] == "r=" + Escape(NormalizeOrigin(d.relay).value);
  }

  /** A drop link is the page's origin, its path and, behind the "#", the fields in this order. */
  lemma DropText(d: DropLink, pageOrigin: string, date: string -> bool)
    requires AsciiDates(date) && BuildDrop(d, pageOrigin, date).Some?
    ensures NormalizeOrigin(pageOrigin).Some?
    ensures Storage.IsBytes(d.name) && Storage.IsBytes(d.purpose) && Storage.IsBytes(d.storage)
      && Storage.IsBytes(d.retention)
    ensures
      BuildDrop(d, pageOrigin, date).value ==
        NormalizeOrigin(pageOrigin).value + "/drop" + "#" + Join(
          [ "v=1", "i=" + d.id, "u=" + d.uploadToken, "k=" + Base64Url.Encode(d.recipientKey), "n=" + Escape(d.name),
            "p=" + Escape(d.purpose), "s=" + Escape(d.storage), "t=" + Escape(d.retention)] + RelayPart(d.relay))
  {
    hide NormalizeOrigin, Escape, Join, Base64Url.Encode, Utf8.Valid, ValidToken, Storage.IsBytes, EncodedParts,
      DropFields,
      ValidRelay, RelayPart;
    DropFieldsEncodable(d, date);
    DropParts(d);
  }

  /** The parts of a reveal link. */
  lemma RevealParts(r: RevealLink)
    requires ValidRelay(r.relay) && Encodable(RevealFields(r)) && ValidToken(r.id) && ValidToken(r.revealToken)
    ensures Storage.IsBytes(r.name)
    ensures
      EncodedParts(RevealFields(r)) ==
        [ "v=1", "i=" + r.id, "o=" + r.revealToken, "k=" + Base64Url.Encode(r.key), "n=" + Escape(r.name),
          if r.keepsCopy then "c=1" else "c=0"]
        + (if r.salt == [] then [] else ["s=" + Base64Url.Encode(r.salt)]) + RelayPart(r.relay)
  {
    hide NormalizeOrigin, Escape, Base64Url.Encode, Base64Url.Decode, ValidToken, Storage.IsBytes;
    var fields := RevealFields(r);
    EncodableFields(fields);
    TokenOwn(r.id);
    TokenOwn(r.revealToken);
    KeyOwn(r.key);
    KeyOwn(r.salt);
    VersionOwn();
    FlagsOwn();
    assert fields[4].value == r.name;
    assert r.relay != "" ==> fields[|fields| - 1].value == NormalizeOrigin(r.relay).value;
    var parts := EncodedParts(fields);
    assert parts[0] == "v=" + Escape("1") && parts[1] == "i=" + Escape(r.id)
      && parts[2] == "o=" + Escape(r.revealToken);
    assert parts[3] == "k=" + Escape(Base64Url.Encode(r.key)) && parts[4] == "n=" + Escape(r.name);
    assert parts[5] == "c=" + Escape(if r.keepsCopy then "1" else "0");
    assert r.salt != [] ==> parts[6] == "s=" + Escape(Base64Url.Encode(r.salt));
    assert r.relay != "" ==> parts[|parts| - 1] == "r=" + Escape(NormalizeOrigin(r.relay).value);
  }

  lemma FlagsOwn()
    ensures Storage.IsBytes("0") && Storage.IsBytes("1") && "c=" + Escape("0") == "c=0" && "c=" + Escape("1") == "c=1"
  {
    EscapeOwn("0");
    EscapeOwn("1");
  }

  /** A reveal link likewise. */
  lemma RevealText(r: RevealLink, pageOrigin: string)
    requires BuildReveal(r, pageOrigin).Some?
    ensures NormalizeOrigin(pageOrigin).Some? && Storage.IsBytes(r.name)
    ensures
      BuildReveal(r, pageOrigin).value ==
        NormalizeOrigin(pageOrigin).value + "/reveal" + "#" + Join(
          [ "v=1", "i=" + r.id, "o=" + r.revealToken, "k=" + Base64Url.Encode(r.key), "n=" + Escape(r.name),
            if r.keepsCopy then "c=1" else "c=0"]
          + (if r.salt == [] then [] else ["s=" + Base64Url.Encode(r.salt)]) + RelayPart(r.relay))
  {
    hide NormalizeOrigin, Escape, Join, Base64Url.Encode, Utf8.Valid, ValidToken, Storage.IsBytes, EncodedParts,
      RevealFields,
      ValidRelay, RelayPart;
    RevealFieldsEncodable(r);
    RevealParts(r);
  }

  /** Sixteen bytes in base64url. */
  lemma TokenExactly(s: string)
    ensures ValidToken(s) <==> Base64Url.Decode(s).Success? && |Base64Url.Decode(s).value| == 16
  {
    if Base64Url.Decode(s).Success? {
      Base64Url.EncodeDecode(s);
    }
  }

  /**
   * A drop link is built exactly if its tokens, key, name, texts and retention are in order and its
   * origins are origins.
   */
  lemma DropBuiltExactly(d: DropLink, pageOrigin: string, date: string -> bool)
    requires AsciiDates(date)
    ensures
      BuildDrop(d, pageOrigin, date).Some? <==>
        && NormalizeOrigin(pageOrigin).Some?
        && (d.relay == "" || (Storage.IsBytes(d.relay) && NormalizeOrigin(d.relay).Some?))
        && Base64Url.Decode(d.id).Success? && |Base64Url.Decode(d.id).value| == 16
        && Base64Url.Decode(d.uploadToken).Success? && |Base64Url.Decode(d.uploadToken).value| == 16
        && |d.recipientKey| == 32 && Utf8.Valid(d.name) && Envelopes.ValidName(d.name)
        && Envelopes.ValidText(d.purpose) && Envelopes.ValidText(d.storage)
        && (d.retention in {"session", "until-revoked"}
          || (Storage.HasPrefix(d.retention, "until:") && date(d.retention[6..])))
  {
    hide NormalizeOrigin, Envelopes.ValidName, Envelopes.ValidText, Utf8.Valid, DropFields, ValidToken,
      Base64Url.Decode, EncodeFields;
    TokenExactly(d.id);
    TokenExactly(d.uploadToken);
    assert Storage.IsBytes("");
  }

  lemma RevealBuiltExactly(r: RevealLink, pageOrigin: string)
    ensures
      BuildReveal(r, pageOrigin).Some? <==>
        && NormalizeOrigin(pageOrigin).Some?
        && (r.relay == "" || (Storage.IsBytes(r.relay) && NormalizeOrigin(r.relay).Some?))
        && Base64Url.Decode(r.id).Success? && |Base64Url.Decode(r.id).value| == 16
        && Base64Url.Decode(r.revealToken).Success? && |Base64Url.Decode(r.revealToken).value| == 16
        && |r.key| == 32 && |r.salt| in {0, 16} && Utf8.Valid(r.name) && Envelopes.ValidName(r.name)
  {
    hide NormalizeOrigin, Envelopes.ValidName, Envelopes.ValidText, Utf8.Valid, RevealFields, ValidToken,
      Base64Url.Decode, EncodeFields;
    TokenExactly(r.id);
    TokenExactly(r.revealToken);
    assert Storage.IsBytes("");
    assert r.salt == [] <==> |r.salt| == 0;
  }

  lemma EncodableFields(fields: seq<Field>)
    requires Encodable(fields)
    ensures forall i :: 0 <= i < |fields| ==> Storage.IsBytes(fields[i].value)
  {
  }

  lemma VersionOwn()
    ensures Storage.IsBytes("1") && "v=" + Escape("1") == "v=1"
  {
    EscapeOwn("1");
  }

  // ----- What is read -----

  function KeyOf(part: string): string {
    part[..IndexOf(part, '=')]
  }

  /** What a part gives its key; None if there is no value or it cannot be unescaped. */
  function ValueOf(part: string): Option<string> {
    var eq := IndexOf(part, '=');
    if eq == |part| then None else Unescape(part[eq + 1..])
  }

  /** Parts with known keys, no two the same, and readable values. */
  ghost predicate Proper(parts: seq<string>, allowed: set<string>) {
    && (forall i :: 0 <= i < |parts| ==> KeyOf(parts[i]) != "" && KeyOf(parts[i]) in allowed && ValueOf(parts[i]).Some?)
    && (forall i, j :: 0 <= i < j < |parts| ==> KeyOf(parts[i]) != KeyOf(parts[j]))
  }

  /** Parts are read exactly if each is proper and none has been read before; then each key has its value. */
  lemma {:induction false} ReadExactly(parts: seq<string>, allowed: set<string>, out: map<string, string>)
    ensures
      var r := ReadParts(parts, allowed, out);
      && (r.Some? <==> Proper(parts, allowed) && forall i :: 0 <= i < |parts| ==> KeyOf(parts[i]) !in out)
      && (r.Some? ==>
        && (forall k :: k in r.value <==> k in out || exists i :: 0 <= i < |parts| && KeyOf(parts[i]) == k)
        && (forall k :: k in out ==> r.value[k] == out[k])
        && (forall i :: 0 <= i < |parts| ==>
          KeyOf(parts[i]) in r.value && ValueOf(parts[i]) == Some(r.value[KeyOf(parts[i])])))
    decreases |parts|
  {
    hide KeyOf, ValueOf, ReadPart;
    if parts != [] {
      var part, rest := parts[0], parts[1..];
      assert forall i :: 0 <= i < |rest| ==> rest[i] == parts[i + 1];
      ReadOne(part, allowed, out);
      var next := ReadPart(part, allowed, out);
      if next.Some? {
        ReadExactly(rest, allowed, next.value);
        ProperNext(parts, allowed);
      } else {
        assert !(Proper(parts, allowed) && forall i :: 0 <= i < |parts| ==> KeyOf(parts[i]) !in out);
      }
    }
  }

  lemma ReadOne(part: string, allowed: set<string>, out: map<string, string>)
    ensures
      ReadPart(part, allowed, out) ==
        if KeyOf(part) != "" && KeyOf(part) in allowed && ValueOf(part).Some? && KeyOf(part) !in out then
          Some(out[KeyOf(part) := ValueOf(part).value])
        else None
  {
  }

  lemma ProperNext(parts: seq<string>, allowed: set<string>)
    requires parts != []
    ensures
      Proper(parts, allowed) <==>
        && KeyOf(parts[0]) != "" && KeyOf(parts[0]) in allowed && ValueOf(parts[0]).Some?
        && Proper(parts[1..], allowed) && forall i :: 1 <= i < |parts| ==> KeyOf(parts[i]) != KeyOf(parts[0])
  {
    hide KeyOf, ValueOf;
    var rest := parts[1..];
    assert forall i :: 0 <= i < |rest| ==> rest[i] == parts[i + 1];
    assert forall i :: 1 <= i < |parts| ==> parts[i] == rest[i - 1];
  }

  /**
   * A fragment is read exactly if it has the version 1 and nothing but known fields, each once and
   * readable; then it says what its parts say, and nothing more.
   */
  lemma FieldsExactly(frag: string, allowed: set<string>)
    ensures
      var (r, parts) := (FieldsOf(frag, allowed), Split(frag));
      && (r.Some? <==>
        && frag != "" && Proper(parts, allowed)
        && exists i :: 0 <= i < |parts| && KeyOf(parts[i]) == "v" && ValueOf(parts[i]) == Some("1"))
      && (r.Some? ==>
        && (forall k :: k in r.value <==> exists i :: 0 <= i < |parts| && KeyOf(parts[i]) == k)
        && (forall i :: 0 <= i < |parts| ==> ValueOf(parts[i]) == Some(r.value[KeyOf(parts[i])])))
  {
    hide KeyOf, ValueOf, ReadParts, Split;
    var parts := Split(frag);
    ReadExactly(parts, allowed, map[]);
    var r := ReadParts(parts, allowed, map[]);
    if r.Some? && "v" in r.value {
      var i :| 0 <= i < |parts| && KeyOf(parts[i]) == "v";
      assert ValueOf(parts[i]) == Some(r.value["v"]);
      assert forall j :: 0 <= j < |parts| && KeyOf(parts[j]) == "v" ==> ValueOf(parts[j]) == Some(r.value["v"]);
    }
  }

  lemma NoQuery(base: string)
    requires SplitUrl(base).Some? && '?' !in SplitUrl(base).value.rest
    ensures '?' !in base
  {
    hide AuthorityLength, IndexOf;
    var n := IndexOf(base, ':');
    var after := base[n + 3..];
    forall k | 0 <= k < |base|
      ensures base[k] != '?'
    {
      if k < n {
        assert base[k] == base[..n][k];
      } else if k < n + 3 {
        assert base[k] == base[n..n + 3][k - n];
      } else if k < n + 3 + AuthorityLength(after) {
        assert base[k] == after[k - n - 3];
      } else {
        assert base[k] == after[AuthorityLength(after)..][k - n - 3 - AuthorityLength(after)];
      }
    }
  }

  /** What stands in front of the "#": an origin with a path, without a query or a user. */
  ghost predicate Strict(raw: string, origin: string) {
    var h := IndexOf(raw, '#');
    && |raw| <= 8192 && h < |raw| && '?' !in raw[..h]
    && var u := SplitUrl(raw[..h]);
    && u.Some? && '@' !in u.value.authority
    && NormalizeOrigin(u.value.scheme + "://" + u.value.authority) == Some(origin)
  }

  lemma SplitStrict(raw: string)
    requires SplitLink(raw).Some?
    ensures Strict(raw, SplitLink(raw).value.origin) && SplitLink(raw).value.frag == raw[IndexOf(raw, '#') + 1..]
  {
    hide NormalizeOrigin, SplitUrl, Unpercent, Utf8.Valid, DropSlash;
    NoQuery(raw[..IndexOf(raw, '#')]);
  }

  /** The fields say the drop, each under its key, and only purpose, storage and relay may be missing. */
  ghost predicate SaysDrop(m: map<string, string>, d: DropLink) {
    && "i" in m && m["i"] == d.id && "u" in m && m["u"] == d.uploadToken
    && "k" in m && Base64Url.Decode(m["k"]) == Success(d.recipientKey)
    && "n" in m && m["n"] == d.name && "t" in m && m["t"] == d.retention
    && d.purpose == (if "p" in m then m["p"] else "") && d.storage == (if "s" in m then m["s"] else "")
    && if "r" !in m || m["r"] == "" then d.relay == "" else NormalizeOrigin(m["r"]) == Some(d.relay)
  }

  ghost predicate SaysReveal(m: map<string, string>, r: RevealLink) {
    && "i" in m && m["i"] == r.id && "o" in m && m["o"] == r.revealToken
    && "k" in m && Base64Url.Decode(m["k"]) == Success(r.key)
    && "n" in m && m["n"] == r.name && "c" in m && m["c"] == (if r.keepsCopy then "1" else "0")
    && (if "s" !in m || m["s"] == "" then r.salt == [] else Base64Url.Decode(m["s"]) == Success(r.salt))
    && if "r" !in m || m["r"] == "" then r.relay == "" else NormalizeOrigin(m["r"]) == Some(r.relay)
  }

  lemma ReadSays(m: map<string, string>, date: string -> bool)
    ensures ReadDrop(m, date).Some? ==> SaysDrop(m, ReadDrop(m, date).value) && ValidDrop(ReadDrop(m, date).value, date)
    ensures ReadReveal(m).Some? ==> SaysReveal(m, ReadReveal(m).value) && ValidReveal(ReadReveal(m).value)
  {
    hide NormalizeOrigin, ValidDrop, ValidReveal, Base64Url.Decode;
  }

  /**
   * What parses is a page with a known path and a fragment of known fields, which say the link, all of it;
   * nothing stands in a query or before the host.
   */
  lemma ParsedStrict(raw: string, date: string -> bool)
    requires ParseLink(raw, date).Some?
    ensures
      var p := ParseLink(raw, date).value;
      var frag := raw[IndexOf(raw, '#') + 1..];
      && Strict(raw, p.pageOrigin)
      && SplitLink(raw).value.path == (if p.ParsedDrop? then "/drop" else "/reveal")
      && if p.ParsedDrop? then
          var m := FieldsOf(frag, {"v", "i", "u", "k", "n", "p", "s", "t", "r"});
          m.Some? && SaysDrop(m.value, p.drop)
        else
          var m := FieldsOf(frag, {"v", "i", "o", "k", "n", "c", "s", "r"});
          m.Some? && SaysReveal(m.value, p.link)
  {
    hide NormalizeOrigin, SplitLink, FieldsOf, ReadDrop, ReadReveal, Strict, SaysDrop, SaysReveal;
    SplitStrict(raw);
    var frag := SplitLink(raw).value.frag;
    assert DROP_KEYS == {"v", "i", "u", "k", "n", "p", "s", "t", "r"};
    assert REVEAL_KEYS == {"v", "i", "o", "k", "n", "c", "s", "r"};
    if FieldsOf(frag, DROP_KEYS).Some? {
      ReadSays(FieldsOf(frag, DROP_KEYS).value, date);
    }
    if FieldsOf(frag, REVEAL_KEYS).Some? {
      ReadSays(FieldsOf(frag, REVEAL_KEYS).value, date);
    }
  }

  // ----- Origins of this machine -----

  /** Plain http is accepted for localhost, with any port; the port 80 is left out. */
  lemma LocalOrigin(port: string)
    requires Digits(port) && |port| <= 5
    ensures
      NormalizeOrigin("http://localhost:" + port)
        == Some(if port == "80" then "http://localhost" else "http://localhost:" + port)
  {
    hide SplitUrl, SplitHost, AuthorityLength, HostnameOk, Plain, Scheme, NormalizeOrigin, Written, Hostname;
    LocalAuthority(port);
    LocalHost();
    SplitPlainPort("localhost", port);
    assert "localhost" + ":" + port == "localhost:" + port;
    NormalizeHttp("localhost:" + port, HostPort("localhost", port));
    WrittenLocal(port);
    assert "http://" + ("localhost:" + port) == "http://localhost:" + port;
  }

  lemma LocalAuthority(port: string)
    requires Digits(port)
    ensures AuthorityLength("localhost:" + port) == |"localhost:" + port| && '@' !in "localhost:" + port
  {
    AuthorityPlain("localhost:" + port);
  }

  lemma NormalizeHttp(authority: string, h: HostPort)
    requires AuthorityLength(authority) == |authority| && '@' !in authority && |"http://" + authority| <= MAX_ORIGIN
    requires SplitHost(authority) == Some(h) && Hostname(h.host) == "localhost"
    ensures NormalizeOrigin("http://" + authority) == Some(Written("http", h))
  {
    hide SplitUrl, SplitHost, AuthorityLength, HostnameOk, Hostname, Written, Scheme;
    LocalHost();
    SplitUrlOf("http", authority, "");
    assert "http" + "://" + authority + "" == "http://" + authority;
    assert Lower("http") == "http" && Lower("localhost") == "localhost";
  }

  lemma WrittenLocal(port: string)
    requires Digits(port)
    ensures Written("http", HostPort("localhost", port)) == if port == "80" then "http://localhost"
      else "http://localhost:" + port
  {
    assert Lower("http") == "http" && Lower("localhost") == "localhost";
    assert "http" + "://" + "localhost" == "http://localhost";
    assert "http://localhost" + ":" + port == "http://localhost:" + port;
  }

  lemma LocalHost()
    ensures Scheme("http") && Plain("localhost") && Hostname("localhost") == "localhost" && HostnameOk("localhost")
  {
  }
}
