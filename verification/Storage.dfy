/**
 * What every secret store shares: names, metadata, retention. Values and texts are sequences of bytes,
 * one char each.
 */
module Storage {
  import opened Prelude
  import Utf8

  const MAX_VALUE_BYTES := 64 * 1024

  datatype StorageError = NotFound | InvalidName | TooLarge | Permission | BadRetention | Unavailable | Corrupt

  datatype Metadata = Metadata(
    name: string,
    backend: string,
    retention: string,
    createdAt: int,
    expiresAt: Option<int>,
    purpose: string,
    source: string,
    sendable: bool,
    fingerprint: string,
    sizeBytes: nat,
    kind: string)
  {
    predicate Expired(now: int) {
      expiresAt.Some? && expiresAt.value <= now
    }

    /** What JSON gives back: every text read rune by rune and written again. */
    function Sanitized(): Metadata {
      Metadata(
        Utf8.Sanitize(name), Utf8.Sanitize(backend), Utf8.Sanitize(retention), createdAt, expiresAt,
        Utf8.Sanitize(purpose), Utf8.Sanitize(source), sendable, Utf8.Sanitize(fingerprint), sizeBytes,
          Utf8.Sanitize(kind))
    }

    /** Every text is UTF-8, so that JSON gives it back as it is. */
    predicate Clean() {
      && Utf8.Valid(name) && Utf8.Valid(backend) && Utf8.Valid(retention) && Utf8.Valid(purpose)
      && Utf8.Valid(source) && Utf8.Valid(fingerprint) && Utf8.Valid(kind)
    }
  }

  lemma SanitizedMeta(m: Metadata)
    ensures m.Sanitized().Clean() && (m.Clean() ==> m.Sanitized() == m)
  {
    hide Utf8.Sanitize, Utf8.Valid;
    Utf8.SanitizeFixed(m.name);
    Utf8.SanitizeFixed(m.backend);
    Utf8.SanitizeFixed(m.retention);
    Utf8.SanitizeFixed(m.purpose);
    Utf8.SanitizeFixed(m.source);
    Utf8.SanitizeFixed(m.fingerprint);
    Utf8.SanitizeFixed(m.kind);
  }

  predicate IsBytes(s: string) {
    forall k :: 0 <= k < |s| ==> s[k] < 0x100 as char
  }

  lemma {:induction false} TextIsBytes(s: string)
    requires Utf8.Valid(s)
    ensures IsBytes(s)
  {
    if s != "" {
      var n := Utf8.RuneLength(s);
      assert forall k :: 0 <= k < n ==> s[k] < 0x100 as char;
      TextIsBytes(s[n..]);
      assert forall k :: n <= k < |s| ==> s[k] == s[n..][k - n];
    }
  }

  predicate Alphanumeric(c: char) {
    'A' <= c <= 'Z' || 'a' <= c <= 'z' || '0' <= c <= '9'
  }

  /** Reference names: 1 to 100 characters of a small alphabet, no double dot. */
  predicate ValidName(name: string) {
    && 1 <= |name| <= 100
    && Alphanumeric(name[0])
    && (forall k :: 0 <= k < |name| ==> Alphanumeric(name[k]) || name[k] == '.' || name[k] == '_' || name[k] == '-')
    && (forall k :: 0 <= k < |name| - 1 ==> !(name[k] == '.' && name[k + 1] == '.'))
  }

  lemma ValidNameIsText(name: string)
    requires ValidName(name)
    ensures Utf8.Valid(name) && forall k :: 0 <= k < |name| ==> name[k] !in {'#', '=', '\n', '\r', '"', ' '}
  {
    Utf8.AsciiValid(name);
  }

  /** A valid name can stand for a file in a directory, and leads nowhere else. */
  lemma NameIsFileName(name: string)
    requires ValidName(name)
    ensures name !in {"", ".", ".."} && forall k :: 0 <= k < |name| ==> name[k] !in {'/', '\\', ':', '*', '~', '$', '%'}
    ensures forall a: string, b: string :: a + ".." + b != name
  {
    forall a: string, b: string
      ensures a + ".." + b != name
    {
      var s := a + ".." + b;
      assert s[|a|] == '.' && s[|a| + 1] == '.';
    }
  }

  /** Some names, and some that are none. */
  lemma NamesLook()
    ensures ValidName("a") && ValidName("api-key") && ValidName("DB_2.main")
    ensures !ValidName("") && !ValidName(".env") && !ValidName("-x") && !ValidName("a..b") && !ValidName("a/b")
      && !ValidName("a b")
    ensures ValidName(seq(100, i => 'a')) && !ValidName(seq(101, i => 'a'))
  {
    assert "a..b"[1] == '.' && "a..b"[2] == '.';
    assert "a/b"[1] == '/' && "a b"[1] == ' ';
  }

  const RETENTION_SESSION := "session"
  const RETENTION_UNTIL_REVOKED := "until-revoked"
  const UNTIL := "until:"

  predicate HasPrefix(s: string, p: string) {
    |p| <= |s| && s[..|p|] == p
  }

  lemma PrefixFirst(s: string, p: string)
    requires p != "" && HasPrefix(s, p)
    ensures s[0] == p[0]
  {
    assert s[..|p|][0] == s[0];
  }

  /** The expiry a policy implies, if any; how a date is read is the caller's. */
  function ParseRetention(policy: string, now: int, date: string -> Option<int>): (r: Result<Option<int>, StorageError>)
    ensures r.Success? && r.value.Some? ==> r.value.value > now
    ensures r == Success(None) <==> policy in {RETENTION_SESSION, RETENTION_UNTIL_REVOKED}
  {
    if policy == RETENTION_SESSION || policy == RETENTION_UNTIL_REVOKED then Success(None)
    else if HasPrefix(policy, UNTIL) then
      var t := date(policy[|UNTIL|..]);
      if t == None || t.value <= now then Failure(BadRetention) else Success(t)
    else Failure(BadRetention)
  }

  /** A policy is accepted exactly if it is one of the two words, or names a date that is still to come. */
  lemma RetentionExactly(policy: string, now: int, date: string -> Option<int>)
    ensures
      var r := ParseRetention(policy, now, date);
      && (policy in {"session", "until-revoked"} ==> r == Success(None))
      && (|policy| >= 6 && policy[..6] == "until:" ==>
        var t := date(policy[6..]);
        r == if t.Some? && t.value > now then Success(t) else Failure(BadRetention))
      && (policy !in {"session", "until-revoked"} && !(|policy| >= 6 && policy[..6] == "until:") ==>
        r == Failure(BadRetention))
  {
    if policy == "session" {
      assert policy[0] == 's';
    } else if policy == "until-revoked" {
      assert policy[5] == '-';
    }
    assert "until:"[0] == 'u' && "until:"[5] == ':';
    if |policy| >= 6 && policy[..6] == "until:" {
      assert policy[0] == policy[..6][0] && policy[5] == policy[..6][5];
    }
  }

  /** The policies a link or an envelope may carry; whether the date is one is the caller's. */
  predicate ValidRetention(policy: string, date: string -> bool) {
    || policy == RETENTION_SESSION || policy == RETENTION_UNTIL_REVOKED
    || (HasPrefix(policy, UNTIL) && date(policy[|UNTIL|..]))
  }
}
