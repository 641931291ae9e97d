/**
 * Form-style percent-encoding (RFC 3986 section 2.1, with "+" for a space) as the SDKs write
 * it out, and the fields of a fragment. Texts are sequences of bytes, one char each.
 */
module Escaping {
  import opened Prelude
  import Storage
  import Utf8

  predicate Unreserved(c: char) {
    '0' <= c <= '9' || 'A' <= c <= 'Z' || 'a' <= c <= 'z' || c == '-' || c == '_' || c == '.' || c == '~'
  }

  function HexUpper(n: nat): char
    requires n < 16
  {
    if n < 10 then '0' + n as char else 'A' + (n - 10) as char
  }

  function HexValue(c: char): (v: int)
    ensures -1 <= v < 16
  {
    if '0' <= c <= '9' then (c - '0') as int
    else if 'a' <= c <= 'f' then (c - 'a') as int + 10
    else if 'A' <= c <= 'F' then (c - 'A') as int + 10
    else -1
  }

  function EscapeByte(c: char): string
    requires c < 0x100 as char
  {
    if Unreserved(c) then [c]
    else if c == ' ' then "+"
    else ['%', HexUpper(c as nat / 16), HexUpper(c as nat % 16)]
  }

  function Escape(s: string): string
    requires Storage.IsBytes(s)
  {
    if s == "" then "" else EscapeByte(s[0]) + Escape(s[1..])
  }

  /**
   * Digits, letters, "-", "_", "." and "~" stand for themselves, "+" for a space; the rest is two
   * hexadecimal digits.
   */
  lemma EscapeByteExactly(c: char)
    requires c < 0x100 as char
    ensures
      var e := EscapeByte(c);
      if 'a' <= c <= 'z' || 'A' <= c <= 'Z' || '0' <= c <= '9' || c in {'-', '_', '.', '~'} then e == [c]
      else if c == ' ' then e == "+"
      else
        && |e| == 3 && e[0] == '%' && e[1] in "0123456789ABCDEF" && e[2] in "0123456789ABCDEF"
        && c as int == 16 * HexValue(e[1]) + HexValue(e[2])
  {
    if !Unreserved(c) && c != ' ' {
      HexUpperExactly(c as nat / 16);
      HexUpperExactly(c as nat % 16);
    }
  }

  lemma HexUpperExactly(n: nat)
    requires n < 16
    ensures HexValue(HexUpper(n)) == n && HexUpper(n) in "0123456789ABCDEF"
  {
    var digits := "0123456789ABCDEF";
    assert HexUpper(n) == digits[n];
  }

  /** Hexadecimal digits of either case. */
  lemma HexValueExactly()
    ensures forall c: char :: HexValue(c) >= 0 <==> '0' <= c <= '9' || 'a' <= c <= 'f' || 'A' <= c <= 'F'
    ensures HexValue('0') == 0 && HexValue('9') == 9 && HexValue('a') == HexValue('A') == 10
    ensures HexValue('f') == HexValue('F') == 15
  {
  }

  method QueryEscape(s: string) returns (out: string)
    requires Storage.IsBytes(s)
    ensures out == Escape(s)
  {
    out := "";
    assert s[0..] == s;
    for i := 0 to |s|
      invariant out + Escape(s[i..]) == Escape(s)
    {
      assert s[i..][0] == s[i] && s[i..][1..] == s[i + 1..];
      assert out + (EscapeByte(s[i]) + Escape(s[i + 1..])) == (out + EscapeByte(s[i])) + Escape(s[i + 1..]);
      out := out + EscapeByte(s[i]);
    }
  }

  function Prepend(c: char, s: Option<string>): Option<string> {
    if s.Some? then Some([c] + s.value) else None
  }

  /** The bytes an escaped text stands for; None for a bad escape. */
  function Unpercent(s: string, plus: bool): Option<string> {
    if s == "" then Some("")
    else if s[0] == '%' then
      if |s| < 3 || HexValue(s[1]) < 0 || HexValue(s[2]) < 0 then None
      else Prepend((HexValue(s[1]) * 16 + HexValue(s[2])) as char, Unpercent(s[3..], plus))
    else Prepend(if plus && s[0] == '+' then ' ' else s[0], Unpercent(s[1..], plus))
  }

  /** The text an escaped field stands for: it has to be UTF-8. */
  function Unescape(s: string): Option<string> {
    var b := Unpercent(s, true);
    if b.Some? && Utf8.Valid(b.value) then b else None
  }

  function Append(a: string, b: Option<string>): Option<string> {
    if b.Some? then Some(a + b.value) else None
  }

  lemma AppendPrepend(a: string, c: char, b: Option<string>)
    ensures Append(a, Prepend(c, b)) == Append(a + [c], b)
  {
    if b.Some? {
      assert a + ([c] + b.value) == (a + [c]) + b.value;
    }
  }

  lemma AppendEnds(a: string, b: Option<string>)
    ensures Append("", b) == b && Append(a, Some("")) == Some(a)
  {
    assert a + "" == a;
    if b.Some? {
      assert "" + b.value == b.value;
    }
  }

  /** The loop of the Python SDK: byte by byte into a buffer, which must then decode. */
  method QueryUnescape(s: string) returns (r: Option<string>)
    ensures r == Unescape(s)
  {
    var out := "";
    var i := 0;
    assert s[0..] == s;
    AppendEnds("", Unpercent(s, true));
    while i < |s|
      invariant i <= |s| && Append(out, Unpercent(s[i..], true)) == Unpercent(s, true)
    {
      var rest := s[i..];
      var c := s[i];
      assert rest[0] == c && rest[1..] == s[i + 1..];
      if c == '%' {
        if i + 2 >= |s| || HexValue(s[i + 1]) < 0 || HexValue(s[i + 2]) < 0 {
          return None;
        }
        var b := (HexValue(s[i + 1]) * 16 + HexValue(s[i + 2])) as char;
        assert rest[1] == s[i + 1] && rest[2] == s[i + 2] && rest[3..] == s[i + 3..];
        AppendPrepend(out, b, Unpercent(s[i + 3..], true));
        out := out + [b];
        i := i + 3;
      } else {
        var b := if c == '+' then ' ' else c;
        AppendPrepend(out, b, Unpercent(s[i + 1..], true));
        out := out + [b];
        i := i + 1;
      }
    }
    AppendEnds(out, None);
    if !Utf8.Valid(out) {
      return None;
    }
    return Some(out);
  }

  function PlusToSpace(s: string): string {
    if s == "" then "" else [if s[0] == '+' then ' ' else s[0]] + PlusToSpace(s[1..])
  }

  lemma {:induction false} PlusToSpaceLength(s: string)
    ensures |PlusToSpace(s)| == |s|
    ensures forall k :: 0 <= k < |s| ==> PlusToSpace(s)[k] == if s[k] == '+' then ' ' else s[k]
  {
    if s != "" {
      PlusToSpaceLength(s[1..]);
    }
  }

  /** The TypeScript SDK replaces plus signs first and then decodes a URI component: the same. */
  lemma {:induction false} ReplaceThenDecode(s: string)
    ensures Unpercent(PlusToSpace(s), false) == Unpercent(s, true)
  {
    if s != "" {
      var t := PlusToSpace(s);
      PlusToSpaceLength(s);
      assert t[1..] == PlusToSpace(s[1..]);
      ReplaceThenDecode(s[1..]);
      if s[0] == '%' && |s| >= 3 {
        var u := PlusToSpace(s[1..]);
        assert u == [u[0]] + PlusToSpace(s[1..][1..]);
        var w := PlusToSpace(s[2..]);
        assert s[1..][1..] == s[2..] && s[2..][1..] == s[3..];
        assert t[3..] == PlusToSpace(s[3..]);
        ReplaceThenDecode(s[3..]);
      }
    }
  }

  lemma UnpercentByte(c: char, rest: string)
    requires c < 0x100 as char
    ensures Unpercent(EscapeByte(c) + rest, true) == Prepend(c, Unpercent(rest, true))
  {
    var e := EscapeByte(c) + rest;
    if Unreserved(c) || c == ' ' {
      assert e[1..] == rest;
    } else {
      HexRoundTrip(c as nat);
      assert e[3..] == rest;
    }
  }

  lemma HexRoundTrip(n: nat)
    requires n < 256
    ensures HexValue(HexUpper(n / 16)) * 16 + HexValue(HexUpper(n % 16)) == n
  {
  }

  lemma {:induction false} UnpercentEscape(s: string)
    requires Storage.IsBytes(s)
    ensures Unpercent(Escape(s), true) == Some(s)
  {
    if s != "" {
      UnpercentByte(s[0], Escape(s[1..]));
      UnpercentEscape(s[1..]);
      assert [s[0]] + s[1..] == s;
    }
  }

  /** An escaped text is read back exactly if it is UTF-8. */
  lemma UnescapeEscape(s: string)
    requires Storage.IsBytes(s)
    ensures Unescape(Escape(s)) == if Utf8.Valid(s) then Some(s) else None
  {
    UnpercentEscape(s);
  }

  /** Nothing in an escaped text can be taken for a separator. */
  predicate Separable(s: string) {
    forall k :: 0 <= k < |s| ==> s[k] != '&' && s[k] != '=' && s[k] != '#'
  }

  lemma {:induction false} EscapedSeparable(s: string)
    requires Storage.IsBytes(s)
    ensures Separable(Escape(s)) && forall k :: 0 <= k < |Escape(s)| ==> Escape(s)[k] < 0x80 as char
  {
    if s != "" {
      EscapedSeparable(s[1..]);
      HexUpperPlain(s[0]);
    }
  }

  lemma HexUpperPlain(c: char)
    requires c < 0x100 as char
    ensures Separable(EscapeByte(c)) && forall k :: 0 <= k < |EscapeByte(c)| ==> EscapeByte(c)[k] < 0x80 as char
  {
  }

  // ----- Fields -----

  datatype Field = Field(key: string, value: string)

  function IndexOf(s: string, c: char): (n: nat)
    ensures n <= |s| && (n < |s| ==> s[n] == c)
    ensures forall k :: 0 <= k < n ==> s[k] != c
  {
    if s == "" || s[0] == c then 0 else IndexOf(s[1..], c) + 1
  }

  lemma {:induction false} IndexOfFirst(a: string, c: char, b: string)
    requires forall k :: 0 <= k < |a| ==> a[k] != c
    ensures IndexOf(a + [c] + b, c) == |a|
  {
    if a != "" {
      assert (a + [c] + b)[1..] == a[1..] + [c] + b;
      IndexOfFirst(a[1..], c, b);
    }
  }

  /** The parts between separators; at least one. */
  function Split(s: string): (parts: seq<string>)
    ensures parts != []
  {
    var n := IndexOf(s, '&');
    [s[..n]] + (if n < |s| then Split(s[n + 1..]) else [])
  }

  function EncodeField(f: Field): string
    requires Storage.IsBytes(f.value)
  {
    f.key + "=" + Escape(f.value)
  }

  predicate Encodable(fields: seq<Field>) {
    forall i :: 0 <= i < |fields| ==> Storage.IsBytes(fields[i].value)
  }

  function EncodedParts(fields: seq<Field>): seq<string>
    requires Encodable(fields)
  {
    seq(|fields|, i requires 0 <= i < |fields| => EncodeField(fields[i]))
  }

  function Join(parts: seq<string>): string {
    if parts == [] then "" else if |parts| == 1 then parts[0] else parts[0] + "&" + Join(parts[1..])
  }

  function EncodeFields(fields: seq<Field>): string
    requires Encodable(fields)
  {
    Join(EncodedParts(fields))
  }

  lemma SplitFirst(p: string, rest: string)
    requires forall k :: 0 <= k < |p| ==> p[k] != '&'
    ensures Split(p + "&" + rest) == [p] + Split(rest)
  {
    var s := p + "&" + rest;
    IndexOfFirst(p, '&', rest);
    assert s == p + ['&'] + rest;
    assert s[..|p|] == p && s[|p| + 1..] == rest;
  }

  lemma SplitOne(p: string)
    requires forall k :: 0 <= k < |p| ==> p[k] != '&'
    ensures Split(p) == [p]
  {
    assert IndexOf(p, '&') == |p|;
    assert p[..|p|] == p;
  }

  lemma {:induction false} SplitJoin(parts: seq<string>)
    requires parts != [] && forall i, k :: 0 <= i < |parts| && 0 <= k < |parts[i]| ==> parts[i][k] != '&'
    ensures Split(Join(parts)) == parts
  {
    hide Split;
    if |parts| == 1 {
      SplitOne(parts[0]);
    } else {
      SplitFirst(parts[0], Join(parts[1..]));
      SplitJoin(parts[1..]);
    }
  }

  /** Reads one part into what has been read; None if it is malformed, unknown or repeated. */
  function ReadPart(part: string, allowed: set<string>, out: map<string, string>): Option<map<string, string>> {
    var eq := IndexOf(part, '=');
    if eq == 0 || eq == |part| then None
    else
      var key := part[..eq];
      if key !in allowed || key in out then None
      else
        var value := Unescape(part[eq + 1..]);
        if value == None then None else Some(out[key := value.value])
  }

  function ReadParts(parts: seq<string>, allowed: set<string>, out: map<string, string>): Option<map<string, string>> {
    if parts == [] then Some(out)
    else
      var next := ReadPart(parts[0], allowed, out);
      if next == None then None else ReadParts(parts[1..], allowed, next.value)
  }

  const VERSION := "1"

  function FieldsOf(frag: string, allowed: set<string>): Option<map<string, string>> {
    if frag == "" then None
    else
      var out := ReadParts(Split(frag), allowed, map[]);
      if out == None || "v" !in out.value || out.value["v"] != VERSION then None else out
  }

  method ParseFields(frag: string, allowed: set<string>) returns (r: Option<map<string, string>>)
    ensures r == FieldsOf(frag, allowed)
  {
    if frag == "" {
      return None;
    }
    var out: map<string, string> := map[];
    var parts := Split(frag);
    assert parts[0..] == parts;
    for i := 0 to |parts|
      invariant ReadParts(parts[i..], allowed, out) == ReadParts(parts, allowed, map[])
    {
      var part := parts[i];
      assert parts[i..][0] == part && parts[i..][1..] == parts[i + 1..];
      var eq := IndexOf(part, '=');
      if eq == 0 || eq == |part| {
        return None;
      }
      var key := part[..eq];
      if key !in allowed {
        return None;
      }
      if key in out {
        return None;
      }
      var value := QueryUnescape(part[eq + 1..]);
      if value == None {
        return None;
      }
      out := out[key := value.value];
    }
    if "v" !in out || out["v"] != VERSION {
      return None;
    }
    return Some(out);
  }

  ghost predicate DistinctKeys(fields: seq<Field>) {
    forall i, j :: 0 <= i < j < |fields| ==> fields[i].key != fields[j].key
  }

  /** Fields that can be written down and read back. */
  ghost predicate Readable(fields: seq<Field>, allowed: set<string>) {
    forall i :: 0 <= i < |fields| ==>
      && fields[i].key in allowed && fields[i].key != "" && Separable(fields[i].key)
      && Storage.IsBytes(fields[i].value) && Utf8.Valid(fields[i].value)
  }

  lemma ReadEncoded(f: Field, allowed: set<string>, out: map<string, string>)
    requires f.key in allowed && f.key != "" && Separable(f.key) && f.key !in out
    requires Storage.IsBytes(f.value) && Utf8.Valid(f.value)
    ensures ReadPart(EncodeField(f), allowed, out) == Some(out[f.key := f.value])
  {
    var part := EncodeField(f);
    IndexOfFirst(f.key, '=', Escape(f.value));
    assert part == f.key + ['='] + Escape(f.value);
    assert part[..|f.key|] == f.key && part[|f.key| + 1..] == Escape(f.value);
    UnescapeEscape(f.value);
  }

  /** Writing fields down and reading the parts gives every field its value, and no others. */
  lemma {:induction false} ReadEncodedParts(fields: seq<Field>, allowed: set<string>, out: map<string, string>)
    requires Readable(fields, allowed) && DistinctKeys(fields) && Encodable(fields)
    requires forall i :: 0 <= i < |fields| ==> fields[i].key !in out
    ensures
      var r := ReadParts(EncodedParts(fields), allowed, out);
      && r.Some?
      && (forall k :: k in r.value <==> k in out || exists i :: 0 <= i < |fields| && fields[i].key == k)
      && (forall k :: k in out ==> r.value[k] == out[k])
      && (forall i :: 0 <= i < |fields| ==> r.value[fields[i].key] == fields[i].value)
    decreases |fields|
  {
    hide Utf8.Valid, Separable, Unescape, ReadPart, EncodeField;
    if fields != [] {
      var f, rest := fields[0], fields[1..];
      ReadEncoded(f, allowed, out);
      assert EncodedParts(fields)[1..] == EncodedParts(rest);
      assert forall i :: 0 <= i < |rest| ==> rest[i] == fields[i + 1];
      ReadEncodedParts(rest, allowed, out[f.key := f.value]);
    }
  }

  lemma PartsSplit(fields: seq<Field>, allowed: set<string>)
    requires fields != [] && Readable(fields, allowed) && Encodable(fields)
    ensures Split(EncodeFields(fields)) == EncodedParts(fields) && EncodeFields(fields) != ""
    ensures forall k :: 0 <= k < |EncodeFields(fields)| ==> EncodeFields(fields)[k] != '#'
  {
    var parts := EncodedParts(fields);
    forall i | 0 <= i < |parts|
      ensures forall k :: 0 <= k < |parts[i]| ==> parts[i][k] != '&' && parts[i][k] != '#'
      ensures parts[i] != ""
    {
      EscapedSeparable(fields[i].value);
    }
    SplitJoin(parts);
    JoinPlain(parts);
  }

  lemma {:induction false} JoinPlain(parts: seq<string>)
    requires forall i, k :: 0 <= i < |parts| && 0 <= k < |parts[i]| ==> parts[i][k] != '#'
    ensures forall k :: 0 <= k < |Join(parts)| ==> Join(parts)[k] != '#'
  {
    if |parts| > 1 {
      JoinPlain(parts[1..]);
    }
  }

  /** Reading the fragment of a built link gives its fields back. */
  lemma FieldsRoundTrip(fields: seq<Field>, allowed: set<string>)
    requires fields != [] && fields[0] == Field("v", VERSION)
    requires Readable(fields, allowed) && DistinctKeys(fields) && Encodable(fields)
    ensures
      var r := FieldsOf(EncodeFields(fields), allowed);
      && r.Some?
      && (forall k :: k in r.value <==> exists i :: 0 <= i < |fields| && fields[i].key == k)
      && (forall i :: 0 <= i < |fields| ==> r.value[fields[i].key] == fields[i].value)
  {
    PartsSplit(fields, allowed);
    ReadEncodedParts(fields, allowed, map[]);
  }

  /** Values that have been read are UTF-8. */
  lemma {:induction false} ReadValuesValid(parts: seq<string>, allowed: set<string>, out: map<string, string>)
    requires forall k :: k in out ==> Utf8.Valid(out[k])
    ensures
      var r := ReadParts(parts, allowed, out);
      r.Some? ==> forall k :: k in r.value ==> Utf8.Valid(r.value[k])
    decreases |parts|
  {
    if parts != [] {
      var next := ReadPart(parts[0], allowed, out);
      if next.Some? {
        ReadValuesValid(parts[1..], allowed, next.value);
      }
    }
  }

  lemma FieldsAreText(frag: string, allowed: set<string>)
    ensures
      var r := FieldsOf(frag, allowed);
      r.Some? ==> forall k :: k in r.value ==> Utf8.Valid(r.value[k])
  {
    hide ReadParts, Split, Utf8.Valid;
    ReadValuesValid(Split(frag), allowed, map[]);
  }
}
