/**
 * Links as the TypeScript SDK builds and parses them. All that matters travels behind the "#".
 * Texts are sequences of bytes, one char each; origins are taken to be ASCII. Every failure is
 * a LinkError there and None here. The date format of a retention is a parameter.
 */
module Links {
  import opened Prelude
  import opened Escaping
  import Base64Url
  import Envelopes
  import Storage
  import Utf8

  // ----- Origins -----

  function LowerChar(c: char): char {
    if 'A' <= c <= 'Z' then c - 'A' + 'a' else c
  }

  function Lower(s: string): (t: string)
    ensures |t| == |s| && forall k :: 0 <= k < |s| ==> t[k] == LowerChar(s[k])
  {
    seq(|s|, i requires 0 <= i < |s| => LowerChar(s[i]))
  }

  predicate Letter(c: char) {
    'A' <= c <= 'Z' || 'a' <= c <= 'z'
  }

  predicate Digits(s: string) {
    s != "" && forall k :: 0 <= k < |s| ==> '0' <= s[k] <= '9'
  }

  predicate Scheme(s: string) {
    s != "" && Letter(s[0])
    && forall k :: 0 <= k < |s| ==> Letter(s[k]) || '0' <= s[k] <= '9' || s[k] == '+' || s[k] == '.' || s[k] == '-'
  }

  /** How far a text goes before a slash, a question mark or a hash. */
  function AuthorityLength(s: string): (n: nat)
    ensures n <= |s| && (n < |s| ==> s[n] in {'/', '?', '#'})
    ensures forall k :: 0 <= k < n ==> s[k] !in {'/', '?', '#'}
  {
    if s == "" || s[0] in {'/', '?', '#'} then 0 else AuthorityLength(s[1..]) + 1
  }

  datatype Url = Url(scheme: string, authority: string, rest: string)

  /** Scheme, authority and what follows. */
  function SplitUrl(s: string): Option<Url> {
    var n := IndexOf(s, ':');
    if n + 3 > |s| || s[n..n + 3] != "://" || !Scheme(s[..n]) then None
    else
      var after := s[n + 3..];
      var a := AuthorityLength(after);
      Some(Url(s[..n], after[..a], after[a..]))
  }

  /** The last position of c, or the length if there is none. */
  function LastIndexOf(s: string, c: char): (n: nat)
    ensures n <= |s| && (n < |s| ==> s[n] == c)
    ensures forall k :: n < k < |s| ==> s[k] != c
    ensures n == |s| ==> forall k :: 0 <= k < |s| ==> s[k] != c
  {
    if s == "" then 0
    else if s[|s| - 1] == c then |s| - 1
    else
      var n := LastIndexOf(s[..|s| - 1], c);
      if n == |s| - 1 then |s| else n
  }

  /** A host that is a name. */
  predicate Plain(host: string) {
    forall k :: 0 <= k < |host| ==>
      !(host[k] == ' ' || 9 as char <= host[k] <= 13 as char || host[k] in {'[', ']', ':'})
  }

  datatype HostPort = HostPort(host: string, port: string)

  /** The host, in brackets or without any colon, and the port if one is given. */
  function SplitHost(authority: string): Option<HostPort> {
    if authority != "" && authority[0] == '[' then
      var close := IndexOf(authority, ']');
      if close == |authority| then None
      else
        var after := authority[close + 1..];
        if after == "" then Some(HostPort(authority, ""))
        else if after[0] == ':' && Digits(after[1..]) then Some(HostPort(authority[..close + 1], after[1..]))
        else None
    else
      var colon := LastIndexOf(authority, ':');
      if colon < |authority| && !Digits(authority[colon + 1..]) then None
      else
        var host := authority[..colon];
        if !Plain(host) then None
        else Some(HostPort(host, if colon < |authority| then authority[colon + 1..] else ""))
  }

  function Hostname(host: string): string {
    if host != "" && host[0] == '[' && |host| >= 2 then host[1..|host| - 1] else host
  }

  predicate HostnameOk(name: string) {
    name != "" && forall k :: 0 <= k < |name| ==> name[k] > 0x20 as char && name[k] != 0x7F as char
  }

  predicate SchemeAllowed(scheme: string, name: string) {
    scheme == "https" || (scheme == "http" && name in {"localhost", "127.0.0.1", "::1"})
  }

  predicate DefaultPort(scheme: string, port: string) {
    (scheme == "https" && port == "443") || (scheme == "http" && port == "80")
  }

  const MAX_ORIGIN := 512
  const MAX_LINK := 8192

  /** What an origin is written as: scheme and host in lower case, a port only if it is not the default. */
  function Written(scheme: string, h: HostPort): string {
    Lower(scheme) + "://" + Lower(h.host)
      + (if h.port == "" || DefaultPort(Lower(scheme), h.port) then "" else ":" + h.port)
  }

  function NormalizeOrigin(s: string): Option<string> {
    if |s| > MAX_ORIGIN then None
    else
      var u := SplitUrl(s);
      if u == None || (u.value.rest != "" && u.value.rest != "/") || '@' in u.value.authority then None
      else
        var h := SplitHost(u.value.authority);
        if h == None || !HostnameOk(Hostname(h.value.host)) then None
        else if !SchemeAllowed(Lower(u.value.scheme), Lower(Hostname(h.value.host))) then None
        else Some(Written(u.value.scheme, h.value))
  }

  lemma SplitUrlOf(scheme: string, authority: string, rest: string)
    requires Scheme(scheme) && AuthorityLength(authority) == |authority|
    requires rest == "" || rest[0] in {'/', '?', '#'}
    ensures SplitUrl(scheme + "://" + authority + rest) == Some(Url(scheme, authority, rest))
  {
    hide AuthorityLength, IndexOf, Scheme, SplitUrl;
    var after := authority + rest;
    var s := scheme + "://" + after;
    Regroup(scheme + "://", authority, rest);
    Pieces(scheme, "://", after);
    NoColon(scheme);
    IndexOfIs(s, ':', |scheme|);
    AuthorityLengthOf(authority, rest);
    Pieces(authority, rest, "");
    NothingBehind(after);
    SplitUrlAt(s, |scheme|, |authority|);
  }

  lemma NothingBehind(a: string)
    ensures a + "" == a && a[|a|..] == ""
  {
  }

  lemma SplitUrlAt(s: string, n: nat, a: nat)
    requires n + 3 <= |s| && IndexOf(s, ':') == n && s[n..n + 3] == "://" && Scheme(s[..n])
    requires AuthorityLength(s[n + 3..]) == a && a <= |s[n + 3..]|
    ensures SplitUrl(s) == Some(Url(s[..n], s[n + 3..][..a], s[n + 3..][a..]))
  {
  }

  lemma Pieces(a: string, b: string, c: string)
    ensures
      var s := a + b + c;
      && s[..|a|] == a && s[|a|..|a| + |b|] == b && s[|a| + |b|..] == c
      && (forall k :: 0 <= k < |a| ==> s[k] == a[k])
      && (b != "" ==> s[|a|] == b[0])
  {
  }

  lemma NoColon(scheme: string)
    requires Scheme(scheme)
    ensures forall k :: 0 <= k < |scheme| ==> scheme[k] != ':'
  {
  }

  lemma IndexOfIs(s: string, c: char, n: nat)
    requires n < |s| && s[n] == c && forall k :: 0 <= k < n ==> s[k] != c
    ensures IndexOf(s, c) == n
  {
  }

  lemma LastIndexOfIs(s: string, c: char, n: nat)
    requires n < |s| && s[n] == c && forall k :: n < k < |s| ==> s[k] != c
    ensures LastIndexOf(s, c) == n
  {
  }

  lemma {:induction false} AuthorityLengthOf(a: string, rest: string)
    requires AuthorityLength(a) == |a| && (rest == "" || rest[0] in {'/', '?', '#'})
    ensures AuthorityLength(a + rest) == |a|
  {
    if a == "" {
      assert a + rest == rest;
    } else {
      assert (a + rest)[1..] == a[1..] + rest;
      AuthorityLengthOf(a[1..], rest);
    }
  }

  lemma {:induction false} AuthorityPlain(s: string)
    requires forall k :: 0 <= k < |s| ==> s[k] !in {'/', '?', '#'}
    ensures AuthorityLength(s) == |s|
  {
    if s != "" {
      AuthorityPlain(s[1..]);
    }
  }

  /** A host in brackets, as SplitHost finds it. */
  predicate Bracketed(host: string) {
    |host| >= 2 && host[0] == '[' && host[|host| - 1] == ']' && forall k :: 0 <= k < |host| - 1 ==> host[k] != ']'
  }

  lemma SplitHostKinds(authority: string)
    requires SplitHost(authority).Some?
    ensures
      var h := SplitHost(authority).value;
      (Bracketed(h.host) || Plain(h.host)) && (h.port == "" || Digits(h.port))
  {
  }

  lemma KindsLower(host: string)
    ensures Bracketed(host) ==> Bracketed(Lower(host))
    ensures Plain(host) ==> Plain(Lower(host))
  {
    assert forall k :: 0 <= k < |host| ==> Lower(host)[k] == LowerChar(host[k]);
  }

  function WithPort(host: string, port: string): string {
    host + (if port == "" then "" else ":" + port)
  }

  lemma SplitBracketed(host: string, port: string)
    requires Bracketed(host) && (port == "" || Digits(port))
    ensures SplitHost(WithPort(host, port)) == Some(HostPort(host, port))
  {
    hide Digits;
    var s := WithPort(host, port);
    var after := if port == "" then "" else ":" + port;
    Pieces(host, after, "");
    assert host + after + "" == s;
    IndexOfIs(s, ']', |host| - 1);
    assert s[|host|..] == after;
    assert port != "" ==> after[1..] == port;
    assert port == "" ==> s == host;
  }

  lemma SplitPlainAlone(host: string)
    requires Plain(host)
    ensures SplitHost(host) == Some(HostPort(host, ""))
  {
    assert LastIndexOf(host, ':') == |host|;
    assert host[..|host|] == host;
  }

  lemma SplitAtColon(s: string, colon: nat)
    requires s != "" && s[0] != '[' && colon < |s| && LastIndexOf(s, ':') == colon
    requires Digits(s[colon + 1..]) && Plain(s[..colon])
    ensures SplitHost(s) == Some(HostPort(s[..colon], s[colon + 1..]))
  {
    hide Digits, LastIndexOf;
  }

  lemma SplitPlainPort(host: string, port: string)
    requires Plain(host) && Digits(port)
    ensures SplitHost(host + ":" + port) == Some(HostPort(host, port))
  {
    hide SplitHost, Plain, LastIndexOf;
    var s := host + ":" + port;
    Pieces(host, ":", port);
    assert forall k :: |host| < k < |s| ==> s[k] == port[k - |host| - 1];
    LastIndexOfIs(s, ':', |host|);
    NoPlainBracket(host, ":" + port);
    assert s == host + (":" + port);
    SplitAtColon(s, |host|);
  }

  lemma NoPlainBracket(host: string, after: string)
    requires Plain(host) && after != "" && after[0] != '['
    ensures (host + after)[0] != '['
  {
  }

  lemma SplitPlain(host: string, port: string)
    requires Plain(host) && (port == "" || Digits(port))
    ensures SplitHost(WithPort(host, port)) == Some(HostPort(host, port))
  {
    hide SplitHost, Plain, Digits;
    if port == "" {
      SplitPlainAlone(host);
      assert WithPort(host, port) == host;
    } else {
      SplitPlainPort(host, port);
      assert WithPort(host, port) == host + ":" + port;
    }
  }

  lemma LowerTwice(s: string)
    ensures Lower(Lower(s)) == Lower(s)
  {
  }

  lemma HostnameLower(host: string)
    ensures Hostname(Lower(host)) == Lower(Hostname(host))
    ensures HostnameOk(Hostname(host)) ==> HostnameOk(Lower(Hostname(host)))
  {
    assert Hostname(Lower(host)) == Lower(Hostname(host));
  }

  /** No part of an authority is longer than it, or holds what it does not. */
  lemma SplitHostParts(authority: string)
    requires SplitHost(authority).Some?
    ensures
      var h := SplitHost(authority).value;
      && |h.host| + (if h.port == "" then 0 else 1 + |h.port|) <= |authority|
      && (forall k :: 0 <= k < |h.host| ==> h.host[k] in authority)
      && (h.port == "" || Digits(h.port))
  {
  }

  lemma WrittenAuthority(authority: string, suffix: string)
    requires SplitHost(authority).Some? && '@' !in authority
    requires forall k :: 0 <= k < |authority| ==> authority[k] !in {'/', '?', '#'}
    requires suffix == "" || (suffix[0] == ':' && Digits(suffix[1..]))
    ensures
      var t := Lower(SplitHost(authority).value.host) + suffix;
      && AuthorityLength(t) == |t| && '@' !in t
  {
    var host := SplitHost(authority).value.host;
    var t := Lower(host) + suffix;
    SplitHostParts(authority);
    forall k | 0 <= k < |t|
      ensures t[k] !in {'/', '?', '#', '@'}
    {
      if k < |host| {
        assert host[k] in authority;
      } else if k > |host| {
        assert t[k] == suffix[1..][k - |host| - 1];
      }
    }
    AuthorityPlain(t);
  }

  /** The parts of a normalized origin: in lower case, with a port only if it is not the default. */
  predicate NormalParts(scheme: string, host: string, port: string) {
    && Scheme(scheme) && Lower(scheme) == scheme && Lower(host) == host
    && (Bracketed(host) || Plain(host)) && (port == "" || (Digits(port) && !DefaultPort(scheme, port)))
    && HostnameOk(Hostname(host)) && SchemeAllowed(scheme, Hostname(host))
    && AuthorityLength(WithPort(host, port)) == |WithPort(host, port)| && '@' !in WithPort(host, port)
  }

  lemma NormalizedParts(s: string) returns (scheme: string, host: string, port: string)
    requires NormalizeOrigin(s).Some?
    ensures NormalParts(scheme, host, port)
    ensures NormalizeOrigin(s) == Some(Origin(scheme, WithPort(host, port)))
    ensures |Origin(scheme, WithPort(host, port))| <= |s|
  {
    hide SplitUrl, SplitHost, AuthorityLength, HostnameOk, Hostname, SchemeAllowed, DefaultPort, Digits, Bracketed,
      Plain, Scheme;
    var u := SplitUrl(s).value;
    var h := SplitHost(u.authority).value;
    scheme, host := Lower(u.scheme), Lower(h.host);
    port := if h.port != "" && !DefaultPort(scheme, h.port) then h.port else "";
    SplitUrlParts(s);
    SplitHostParts(u.authority);
    SplitHostKinds(u.authority);
    KindsLower(h.host);
    assert port != "" ==> (":" + port)[1..] == port;
    WrittenAuthority(u.authority, if port == "" then "" else ":" + port);
    SchemeLower(u.scheme);
    HostnameLower(h.host);
    LowerTwice(u.scheme);
    LowerTwice(h.host);
    Regroup(scheme + "://", host, if port == "" then "" else ":" + port);
  }

  lemma NormalIsFixed(scheme: string, host: string, port: string)
    requires NormalParts(scheme, host, port) && |Origin(scheme, WithPort(host, port))| <= MAX_ORIGIN
    ensures NormalizeOrigin(Origin(scheme, WithPort(host, port))) == Some(Origin(scheme, WithPort(host, port)))
  {
    hide SplitUrl, SplitHost, AuthorityLength, HostnameOk, Hostname, SchemeAllowed, DefaultPort, Digits, Bracketed,
      Plain, Scheme;
    SplitUrlOf(scheme, WithPort(host, port), "");
    NothingBehind(Origin(scheme, WithPort(host, port)));
    if Bracketed(host) {
      SplitBracketed(host, port);
    } else {
      SplitPlain(host, port);
    }
    HostnameLower(host);
    Regroup(scheme + "://", host, if port == "" then "" else ":" + port);
  }

  /** A normalized origin is normalized already. */
  lemma NormalizeIdempotent(s: string)
    requires NormalizeOrigin(s).Some?
    ensures NormalizeOrigin(NormalizeOrigin(s).value) == NormalizeOrigin(s)
    ensures OriginParts(NormalizeOrigin(s).value)
  {
    hide NormalizeOrigin, AuthorityLength, HostnameOk, Hostname, SchemeAllowed, DefaultPort, Digits, Bracketed, Plain,
      Scheme;
    OriginLength(s);
    var scheme, host, port := NormalizedParts(s);
    NormalIsFixed(scheme, host, port);
    OriginPartsOf(scheme, WithPort(host, port));
  }

  lemma OriginLength(s: string)
    requires NormalizeOrigin(s).Some?
    ensures |s| <= MAX_ORIGIN
  {
  }

  lemma SchemeLower(s: string)
    requires Scheme(s)
    ensures Scheme(Lower(s))
  {
  }

  lemma SplitUrlParts(s: string)
    requires SplitUrl(s).Some?
    ensures
      var u := SplitUrl(s).value;
      && Scheme(u.scheme) && |u.scheme| + 3 + |u.authority| <= |s|
      && forall k :: 0 <= k < |u.authority| ==> u.authority[k] !in {'/', '?', '#'}
  {
  }

  /** A text made of a scheme and an authority and nothing else. */
  ghost predicate OriginParts(s: string) {
    exists scheme, authority ::
      && Scheme(scheme) && AuthorityLength(authority) == |authority| && '@' !in authority
      && s == Origin(scheme, authority)
  }

  function Origin(scheme: string, authority: string): string {
    scheme + "://" + authority
  }

  lemma OriginPartsOf(scheme: string, authority: string)
    requires Scheme(scheme) && AuthorityLength(authority) == |authority| && '@' !in authority
    ensures OriginParts(scheme + "://" + authority)
  {
    assert scheme + "://" + authority == Origin(scheme, authority);
  }

  // ----- Links -----

  const TOKEN_LEN := 22
  const TOKEN_BYTES := 16
  const KEY_LEN := 43
  const KEY_BYTES := 32
  const SALT_LEN := 22
  const SALT_BYTES := 16
  const PATH_DROP := "/drop"
  const PATH_REVEAL := "/reveal"

  /** A link without a relay of its own has "" there; a reveal without a password an empty salt. */
  datatype DropLink = DropLink(
    relay: string,
    id: string,
    uploadToken: string,
    recipientKey: seq<byte>,
    name: string,
    purpose: string,
    storage: string,
    retention: string)

  datatype RevealLink = RevealLink(
    relay: string,
    id: string,
    revealToken: string,
    key: seq<byte>,
    name: string,
    keepsCopy: bool,
    salt: seq<byte>)

  datatype Parsed = ParsedDrop(pageOrigin: string, drop: DropLink) | ParsedReveal(pageOrigin: string, link: RevealLink)

  function DecodeExactly(s: string, length: nat, size: nat): Option<seq<byte>> {
    if |s| != length then None
    else
      var b := Base64Url.Decode(s);
      if b.Success? && |b.value| == size then Some(b.value) else None
  }

  predicate ValidToken(s: string) {
    DecodeExactly(s, TOKEN_LEN, TOKEN_BYTES).Some?
  }

  predicate ValidRelay(relay: string) {
    Storage.IsBytes(relay) && (relay == "" || NormalizeOrigin(relay).Some?)
  }

  predicate ValidName(name: string) {
    Utf8.Valid(name) && Envelopes.ValidName(name)
  }

  /** The date format only has ASCII texts. */
  ghost predicate AsciiDates(date: string -> bool) {
    forall s: string :: date(s) ==> Utf8.Ascii(s)
  }

  predicate ValidDrop(d: DropLink, date: string -> bool) {
    && ValidRelay(d.relay) && ValidToken(d.id) && ValidToken(d.uploadToken) && |d.recipientKey| == KEY_BYTES
    && ValidName(d.name) && Envelopes.ValidText(d.purpose) && Envelopes.ValidText(d.storage)
      && Storage.ValidRetention(d.retention, date)
  }

  predicate ValidReveal(r: RevealLink) {
    && ValidRelay(r.relay) && ValidToken(r.id) && ValidToken(r.revealToken) && |r.key| == KEY_BYTES
    && (r.salt == [] || |r.salt| == SALT_BYTES) && ValidName(r.name)
  }

  function RelayField(relay: string): seq<Field>
    requires ValidRelay(relay)
  {
    if relay == "" then [] else [Field("r", NormalizeOrigin(relay).value)]
  }

  function DropFields(d: DropLink): seq<Field>
    requires ValidRelay(d.relay)
  {
    [ Field("v", VERSION), Field("i", d.id), Field("u", d.uploadToken), Field("k", Base64Url.Encode(d.recipientKey)),
      Field("n", d.name), Field("p", d.purpose), Field("s", d.storage), Field("t", d.retention)]
    + RelayField(d.relay)
  }

  function SaltField(salt: seq<byte>): seq<Field> {
    if salt == [] then [] else [Field("s", Base64Url.Encode(salt))]
  }

  function RevealFields(r: RevealLink): seq<Field>
    requires ValidRelay(r.relay)
  {
    [ Field("v", VERSION), Field("i", r.id), Field("o", r.revealToken), Field("k", Base64Url.Encode(r.key)),
      Field("n", r.name), Field("c", if r.keepsCopy then "1" else "0")]
    + SaltField(r.salt) + RelayField(r.relay)
  }

  function BuildDrop(d: DropLink, pageOrigin: string, date: string -> bool): Option<string>
    requires AsciiDates(date)
  {
    if !ValidDrop(d, date) then None
    else
      var origin := NormalizeOrigin(pageOrigin);
      if origin == None then None
      else
        DropFieldsEncodable(d, date);
        Some(origin.value + PATH_DROP + "#" + EncodeFields(DropFields(d)))
  }

  function BuildReveal(r: RevealLink, pageOrigin: string): Option<string> {
    if !ValidReveal(r) then None
    else
      var origin := NormalizeOrigin(pageOrigin);
      if origin == None then None
      else
        RevealFieldsEncodable(r);
        Some(origin.value + PATH_REVEAL + "#" + EncodeFields(RevealFields(r)))
  }

  datatype Raw = Raw(origin: string, path: string, frag: string)

  function DropSlash(s: string): string {
    if s != "" && s[|s| - 1] == '/' then s[..|s| - 1] else s
  }

  function SplitLink(raw: string): Option<Raw> {
    if |raw| > MAX_LINK then None
    else
      var hash := IndexOf(raw, '#');
      if hash == |raw| then None
      else
        var u := SplitUrl(raw[..hash]);
        if u == None || '?' in u.value.rest || '@' in u.value.authority then None
        else
          var origin := NormalizeOrigin(Origin(u.value.scheme, u.value.authority));
          var path := Unpercent(u.value.rest, false);
          if origin == None || path == None || !Utf8.Valid(path.value) then None
          else Some(Raw(origin.value, DropSlash(path.value), raw[hash + 1..]))
  }

  function Get(m: map<string, string>, key: string): string {
    if key in m then m[key] else ""
  }

  const DROP_KEYS := {"v", "i", "u", "k", "n", "p", "s", "t", "r"}
  const REVEAL_KEYS := {"v", "i", "o", "k", "n", "c", "s", "r"}

  /** The relay field of a link, normalized; None if it is no origin. */
  function ReadRelay(r: string): Option<string> {
    if r == "" then Some("") else NormalizeOrigin(r)
  }

  function ReadDrop(m: map<string, string>, date: string -> bool): Option<DropLink> {
    if Get(m, "i") == "" || Get(m, "u") == "" || Get(m, "k") == "" || Get(m, "n") == "" || Get(m, "t") == "" then None
    else
      var key := DecodeExactly(Get(m, "k"), KEY_LEN, KEY_BYTES);
      var relay := ReadRelay(Get(m, "r"));
      if key == None || relay == None then None
      else
        var d := DropLink(relay.value, Get(m, "i"), Get(m, "u"), key.value, Get(m, "n"), Get(m, "p"), Get(m, "s"),
          Get(m, "t"));
        if ValidDrop(d, date) then Some(d) else None
  }

  function ReadSalt(s: string): Option<seq<byte>> {
    if s == "" then Some([]) else DecodeExactly(s, SALT_LEN, SALT_BYTES)
  }

  function ReadReveal(m: map<string, string>): Option<RevealLink> {
    if Get(m, "i") == "" || Get(m, "o") == "" || Get(m, "k") == "" || Get(m, "n") == "" || Get(m, "c") == "" then None
    else if Get(m, "c") != "0" && Get(m, "c") != "1" then None
    else
      var key := DecodeExactly(Get(m, "k"), KEY_LEN, KEY_BYTES);
      var salt := ReadSalt(Get(m, "s"));
      var relay := ReadRelay(Get(m, "r"));
      if key == None || salt == None || relay == None then None
      else
        var r := RevealLink(relay.value, Get(m, "i"), Get(m, "o"), key.value, Get(m, "n"), Get(m, "c") == "1",
          salt.value);
        if ValidReveal(r) then Some(r) else None
  }

  function ParseLink(raw: string, date: string -> bool): Option<Parsed> {
    var s := SplitLink(raw);
    if s == None then None
    else if s.value.path == PATH_DROP then
      var m := FieldsOf(s.value.frag, DROP_KEYS);
      if m == None then None
      else
        var d := ReadDrop(m.value, date);
        if d == None then None else Some(ParsedDrop(s.value.origin, d.value))
    else if s.value.path == PATH_REVEAL then
      var m := FieldsOf(s.value.frag, REVEAL_KEYS);
      if m == None then None
      else
        var r := ReadReveal(m.value);
        if r == None then None else Some(ParsedReveal(s.value.origin, r.value))
    else None
  }

  // ----- Texts of fields -----

  lemma AsciiIsText(s: string)
    requires Utf8.Ascii(s)
    ensures Utf8.Valid(s) && Storage.IsBytes(s)
  {
    Utf8.AsciiValid(s);
  }

  lemma TokenIsAscii(s: string)
    requires ValidToken(s)
    ensures Utf8.Ascii(s) && s != ""
  {
    Base64Url.EncodeDecode(s);
    Base64Url.EncodeIsAscii(Base64Url.Decode(s).value);
  }

  lemma RetentionIsAscii(r: string, date: string -> bool)
    requires AsciiDates(date) && Storage.ValidRetention(r, date)
    ensures Utf8.Ascii(r) && r != ""
  {
    if Storage.HasPrefix(r, Storage.UNTIL) && date(r[|Storage.UNTIL|..]) {
      var rest := r[|Storage.UNTIL|..];
      assert Utf8.Ascii(rest) && Utf8.Ascii(Storage.UNTIL);
      assert r == Storage.UNTIL + rest;
    }
  }

  lemma NormalizedBytes(s: string)
    requires NormalizeOrigin(s).Some?
    ensures Storage.IsBytes(s) ==> Storage.IsBytes(NormalizeOrigin(s).value)
    ensures NormalizeOrigin(s).value != ""
  {
    hide SplitHost, Storage.IsBytes;
    var u := SplitUrl(s).value;
    var h := SplitHost(u.authority).value;
    SplitHostParts(u.authority);
    if Storage.IsBytes(s) {
      SplitUrlBytes(s);
      BytesOfParts(u.scheme, u.authority, h);
    }
  }

  // A normalized origin of a text is a text.

  lemma {:induction false} LowerText(s: string)
    requires Utf8.Valid(s)
    ensures Utf8.Valid(Lower(s))
  {
    if s != "" {
      var n := Utf8.RuneLength(s);
      LowerRune(s);
      assert Lower(s)[n..] == Lower(s[n..]);
      LowerText(s[n..]);
    }
  }

  lemma LowerRune(s: string)
    ensures Utf8.RuneLength(Lower(s)) == Utf8.RuneLength(s)
  {
    assert forall k :: 0 <= k < |s| ==> Lower(s)[k] == LowerChar(s[k]);
  }

  lemma SplitUrlJoins(s: string)
    requires SplitUrl(s).Some?
    ensures
      var u := SplitUrl(s).value;
      && s == u.scheme + "://" + (u.authority + u.rest) && Utf8.Ascii(u.scheme + "://")
      && (u.rest == "" || u.rest[0] < 0x80 as char)
  {
    hide Scheme, IndexOf, AuthorityLength;
    var n := IndexOf(s, ':');
    var after := s[n + 3..];
    SchemeIsAscii(s[..n]);
    assert after == after[..AuthorityLength(after)] + after[AuthorityLength(after)..];
    assert s == s[..n] + s[n..n + 3] + after;
    Regroup(s[..n], "://", after);
  }

  lemma SchemeIsAscii(scheme: string)
    requires Scheme(scheme)
    ensures Utf8.Ascii(scheme + "://")
  {
  }

  lemma SplitHostJoins(authority: string) returns (suffix: string)
    requires SplitHost(authority).Some?
    ensures authority == SplitHost(authority).value.host + suffix && (suffix == "" || suffix[0] == ':')
  {
    var h := SplitHost(authority).value;
    suffix := authority[|h.host|..];
    assert authority == authority[..|h.host|] + suffix;
  }

  lemma NormalizedText(s: string)
    requires NormalizeOrigin(s).Some? && Utf8.Valid(s)
    ensures Utf8.Valid(NormalizeOrigin(s).value)
  {
    hide SplitUrl, SplitHost, Utf8.Valid, HostnameOk, SchemeAllowed, Digits;
    var u := SplitUrl(s).value;
    var h := SplitHost(u.authority).value;
    SplitUrlJoins(s);
    Utf8.ValidAfterAscii(u.scheme + "://", u.authority + u.rest);
    Utf8.ValidCut(u.authority, u.rest);
    var suffix := SplitHostJoins(u.authority);
    Utf8.ValidCut(h.host, suffix);
    LowerText(h.host);
    SplitHostParts(u.authority);
    WrittenText(u.scheme, h);
  }

  lemma WrittenText(scheme: string, h: HostPort)
    requires Utf8.Ascii(scheme + "://") && Utf8.Valid(Lower(h.host)) && (h.port == "" || Digits(h.port))
    ensures Utf8.Valid(Written(scheme, h))
  {
    hide Utf8.Valid;
    var front, back := Lower(scheme) + "://",
      if h.port == "" || DefaultPort(Lower(scheme), h.port) then "" else ":" + h.port;
    assert forall k :: 0 <= k < |scheme| ==> scheme[k] == (scheme + "://")[k];
    assert Utf8.Ascii(front) && Utf8.Ascii(back);
    Utf8.AsciiValid(front);
    Utf8.AsciiValid(back);
    Utf8.ValidAppend(front, Lower(h.host));
    Utf8.ValidAppend(front + Lower(h.host), back);
  }

  lemma SplitUrlBytes(s: string)
    requires SplitUrl(s).Some? && Storage.IsBytes(s)
    ensures Storage.IsBytes(SplitUrl(s).value.scheme) && Storage.IsBytes(SplitUrl(s).value.authority)
  {
  }

  lemma BytesOfParts(scheme: string, authority: string, h: HostPort)
    requires Storage.IsBytes(scheme) && Storage.IsBytes(authority)
    requires (forall k :: 0 <= k < |h.host| ==> h.host[k] in authority) && (h.port == "" || Digits(h.port))
    ensures Storage.IsBytes(Written(scheme, h))
  {
    LowerBytes(scheme);
    LowerBytes(h.host);
    assert Storage.IsBytes(h.port);
    BytesConcat(Lower(scheme), "://");
    BytesConcat(Lower(scheme) + "://", Lower(h.host));
    BytesConcat(":", h.port);
    BytesConcat(Lower(scheme) + "://" + Lower(h.host), if h.port == "" || DefaultPort(Lower(scheme), h.port) then ""
      else ":" + h.port);
  }

  lemma LowerBytes(s: string)
    requires Storage.IsBytes(s)
    ensures Storage.IsBytes(Lower(s))
  {
  }

  lemma BytesConcat(a: string, b: string)
    requires Storage.IsBytes(a) && Storage.IsBytes(b)
    ensures Storage.IsBytes(a + b)
  {
  }

  lemma DropFieldsEncodable(d: DropLink, date: string -> bool)
    requires AsciiDates(date) && ValidDrop(d, date)
    ensures Encodable(DropFields(d))
  {
    hide Utf8.Valid, Envelopes.ValidName, NormalizeOrigin, Base64Url.Encode, Base64Url.Decode;
    TokenIsAscii(d.id);
    TokenIsAscii(d.uploadToken);
    Base64Url.EncodeIsAscii(d.recipientKey);
    Storage.TextIsBytes(d.name);
    Storage.TextIsBytes(d.purpose);
    Storage.TextIsBytes(d.storage);
    RetentionIsAscii(d.retention, date);
    if d.relay != "" {
      NormalizedBytes(d.relay);
    }
  }

  lemma RevealFieldsEncodable(r: RevealLink)
    requires ValidReveal(r)
    ensures Encodable(RevealFields(r))
  {
    hide Utf8.Valid, Envelopes.ValidName, NormalizeOrigin, Base64Url.Encode, Base64Url.Decode;
    TokenIsAscii(r.id);
    TokenIsAscii(r.revealToken);
    Base64Url.EncodeIsAscii(r.key);
    Base64Url.EncodeIsAscii(r.salt);
    Storage.TextIsBytes(r.name);
    if r.relay != "" {
      NormalizedBytes(r.relay);
    }
  }
}
