/**
 * The .env backend: a hand-written parser and printer. An entry is a marker comment with its
 * metadata in JSON, followed by a KEY="value" line; every other line is kept. Files, lines and
 * values are sequences of bytes, one char each. JSON and base64 are taken as codecs with their
 * laws; splitting into lines is as Go's scanner does it, without its limit on a line's length.
 */
module Dotenv {
  import opened Prelude
  import opened Storage
  import Names
  import Utf8

  // ----- Quoting -----

  /** The first rune of s as it is quoted, and how many bytes it took. */
  function EscapeFirst(s: string): (r: (string, nat))
    requires s != ""
    ensures 1 <= r.1 <= |s|
  {
    if s[0] == '"' then ("\\\"", 1)
    else if s[0] == '\\' then ("\\\\", 1)
    else if s[0] == '\n' then ("\\n", 1)
    else if s[0] == '\r' then ("\\r", 1)
    else if s[0] == '\t' then ("\\t", 1)
    else if s[0] == '$' then ("\\$", 1)
    else Utf8.First(s)
  }

  function Escape(s: string): string {
    if s == "" then "" else EscapeFirst(s).0 + Escape(s[EscapeFirst(s).1..])
  }

  function Quoted(s: string): string {
    "\"" + Escape(s) + "\""
  }

  method Quote(s: string) returns (out: string)
    ensures out == Quoted(s)
  {
    hide EscapeFirst;
    out := "\"";
    var i := 0;
    assert s[0..] == s;
    while i < |s|
      invariant i <= |s| && out + Escape(s[i..]) == "\"" + Escape(s)
    {
      var r := EscapeFirst(s[i..]);
      assert s[i..][r.1..] == s[i + r.1..];
      assert out + Escape(s[i..]) == out + r.0 + Escape(s[i + r.1..]);
      out := out + r.0;
      i := i + r.1;
    }
    out := out + "\"";
  }

  function Unescape(body: string): Option<string> {
    if body == "" then Some("")
    else if body[0] != '\\' then Prepend([body[0]], Unescape(body[1..]))
    else if |body| == 1 then None
    else if body[1] == 'n' then Prepend("\n", Unescape(body[2..]))
    else if body[1] == 'r' then Prepend("\r", Unescape(body[2..]))
    else if body[1] == 't' then Prepend("\t", Unescape(body[2..]))
    else if body[1] == '"' || body[1] == '\\' || body[1] == '$' then Prepend([body[1]], Unescape(body[2..]))
    else None
  }

  function Prepend(p: string, s: Option<string>): Option<string> {
    if s.Some? then Some(p + s.value) else None
  }

  function Unquoted(raw: string): Option<string> {
    if |raw| < 2 || raw[0] != '"' || raw[|raw| - 1] != '"' then None
    else Unescape(raw[1..|raw| - 1])
  }

  lemma PrependTwice(p: string, q: string, s: Option<string>)
    ensures Prepend(p, Prepend(q, s)) == Prepend(p + q, s)
  {
    if s.Some? {
      assert p + (q + s.value) == (p + q) + s.value;
    }
  }

  lemma PrependNothing(p: string, s: Option<string>)
    ensures Prepend("", s) == s && Prepend(p, Some("")) == Some(p)
  {
    assert p + "" == p;
    if s.Some? {
      assert "" + s.value == s.value;
    }
  }

  method Unquote(raw: string) returns (out: Option<string>)
    ensures out == Unquoted(raw)
  {
    if |raw| < 2 || raw[0] != '"' || raw[|raw| - 1] != '"' {
      return None;
    }
    var body := raw[1..|raw| - 1];
    var done := "";
    var i := 0;
    assert body[0..] == body;
    PrependNothing("", Unescape(body));
    while i < |body|
      invariant i <= |body| && Prepend(done, Unescape(body[i..])) == Unescape(body)
    {
      var c := body[i];
      var rest := body[i..];
      if c != '\\' {
        assert rest[1..] == body[i + 1..];
        PrependTwice(done, [c], Unescape(body[i + 1..]));
        done := done + [c];
        i := i + 1;
        continue;
      }
      if i + 1 >= |body| {
        return None;
      }
      var d := body[i + 1];
      assert rest[1] == d && rest[2..] == body[i + 2..];
      var e: char;
      if d == 'n' {
        e := '\n';
      } else if d == 'r' {
        e := '\r';
      } else if d == 't' {
        e := '\t';
      } else if d == '"' || d == '\\' || d == '$' {
        e := d;
      } else {
        return None;
      }
      PrependTwice(done, [e], Unescape(body[i + 2..]));
      done := done + [e];
      i := i + 2;
    }
    PrependNothing(done, None);
    return Some(done);
  }

  lemma {:induction false} UnescapePlain(p: string, b: string)
    requires forall k :: 0 <= k < |p| ==> p[k] != '\\'
    ensures Unescape(p + b) == Prepend(p, Unescape(b))
  {
    if p == "" {
      assert p + b == b;
      PrependNothing("", Unescape(b));
    } else {
      assert (p + b)[1..] == p[1..] + b;
      UnescapePlain(p[1..], b);
      PrependTwice([p[0]], p[1..], Unescape(b));
      assert [p[0]] + p[1..] == p;
    }
  }

  /** A rune is one ASCII byte or has none. */
  lemma FirstBytes(s: string)
    requires s != ""
    ensures var p := Utf8.First(s).0; p == [s[0]] || forall k :: 0 <= k < |p| ==> p[k] >= 0x80 as char
  {
  }

  /** Quoting and unquoting writes the value back rune by rune. */
  lemma {:induction false} UnescapeEscape(s: string)
    ensures Unescape(Escape(s)) == Some(Utf8.Sanitize(s))
  {
    if s != "" {
      var r := EscapeFirst(s);
      var rest := Escape(s[r.1..]);
      UnescapeEscape(s[r.1..]);
      FirstBytes(s);
      if s[0] in {'"', '\\', '\n', '\r', '\t', '$'} {
        assert Utf8.First(s) == ([s[0]], 1);
        assert (r.0 + rest)[2..] == rest;
      } else {
        UnescapePlain(r.0, rest);
      }
    }
  }

  lemma UnquoteQuote(s: string)
    ensures Unquoted(Quoted(s)) == Some(Utf8.Sanitize(s))
    ensures Unquoted(Quoted(s)) == Some(s) <==> Utf8.Valid(s)
  {
    assert Quoted(s)[1..|Quoted(s)| - 1] == Escape(s);
    UnescapeEscape(s);
    Utf8.SanitizeFixed(s);
  }

  /** What a quoted value looks like: the special characters behind a backslash, three of them under a letter. */
  lemma QuotedLooks()
    ensures Quoted("") == "\"\""
    ensures Quoted("\"") == "\"\\\"\"" && Quoted("\\") == "\"\\\\\"" && Quoted("$") == "\"\\$\""
    ensures Quoted("\n") == "\"\\n\"" && Quoted("\r") == "\"\\r\"" && Quoted("\t") == "\"\\t\""
  {
    OneEscaped("\"");
    OneEscaped("\\");
    OneEscaped("$");
    OneEscaped("\n");
    OneEscaped("\r");
    OneEscaped("\t");
  }

  lemma OneEscaped(c: string)
    requires |c| == 1
    ensures Escape(c) == EscapeFirst(c).0
  {
    assert c[1..] == "";
    assert Escape("") == "";
  }

  /** Every other ASCII character stands for itself. */
  lemma {:induction false} PlainQuoted(s: string)
    requires Utf8.Ascii(s) && forall k :: 0 <= k < |s| ==> s[k] !in {'"', '\\', '$', '\n', '\r', '\t'}
    ensures Escape(s) == s && Quoted(s) == "\"" + s + "\""
  {
    if s != "" {
      assert s[..1] == [s[0]];
      PlainQuoted(s[1..]);
      assert [s[0]] + s[1..] == s;
    }
  }

  /** What is not a quoted value: a missing quote, a backslash at the end or before a character that needs none. */
  lemma UnquotedRefuses(raw: string)
    ensures Unquoted(raw).Some? ==> |raw| >= 2 && raw[0] == '"' && raw[|raw| - 1] == '"'
    ensures raw in {"", "\"", "a", "\"\\\"", "\"\\q\"", "\"\\0\"", "'a'"} ==> Unquoted(raw) == None
  {
    BodyRefused("\\");
    BodyRefused("\\q");
    BodyRefused("\\0");
    assert "\"\\\""[1..2] == "\\";
    assert "\"\\q\""[1..3] == "\\q";
    assert "\"\\0\""[1..3] == "\\0";
  }

  lemma BodyRefused(body: string)
    requires body in {"\\", "\\q", "\\0"}
    ensures Unescape(body) == None
  {
  }

  predicate OneLine(s: string) {
    forall k :: 0 <= k < |s| ==> s[k] != '\n' && s[k] != '\r'
  }

  lemma {:induction false} EscapeIsOneLine(s: string)
    ensures OneLine(Escape(s))
  {
    if s != "" {
      FirstBytes(s);
      EscapeIsOneLine(s[EscapeFirst(s).1..]);
    }
  }

  // ----- Lines -----

  function DropCR(s: string): string {
    if s != "" && s[|s| - 1] == '\r' then s[..|s| - 1] else s
  }

  /** How many bytes come before the first newline. */
  function LineLength(s: string): (n: nat)
    ensures n <= |s| && (n < |s| ==> s[n] == '\n')
    ensures forall k :: 0 <= k < n ==> s[k] != '\n'
  {
    if s == "" || s[0] == '\n' then 0 else LineLength(s[1..]) + 1
  }

  function Lines(s: string): seq<string> {
    if s == "" then []
    else
      var n := LineLength(s);
      [DropCR(s[..n])] + (if n < |s| then Lines(s[n + 1..]) else [])
  }

  function Join(lines: seq<string>): string {
    if lines == [] then "" else lines[0] + "\n" + Join(lines[1..])
  }

  /** A line the scanner gives back as it was written. */
  predicate Kept(line: string) {
    (forall k :: 0 <= k < |line| ==> line[k] != '\n') && DropCR(line) == line
  }

  lemma {:induction false} LineLengthOf(line: string, rest: string)
    requires forall k :: 0 <= k < |line| ==> line[k] != '\n'
    ensures LineLength(line + "\n" + rest) == |line|
  {
    if line != "" {
      assert (line + "\n" + rest)[1..] == line[1..] + "\n" + rest;
      LineLengthOf(line[1..], rest);
    }
  }

  lemma {:induction false} LinesJoin(lines: seq<string>)
    requires forall l :: l in lines ==> Kept(l)
    ensures Lines(Join(lines)) == lines
  {
    if lines != [] {
      var rest := Join(lines[1..]);
      assert Kept(lines[0]);
      LineLengthOf(lines[0], rest);
      assert Join(lines) == lines[0] + "\n" + rest;
      assert Join(lines)[..|lines[0]|] == lines[0] && Join(lines)[|lines[0]| + 1..] == rest;
      LinesJoin(lines[1..]);
    }
  }

  lemma {:induction false} JoinAppend(a: seq<string>, b: seq<string>)
    ensures Join(a + b) == Join(a) + Join(b)
  {
    if a == [] {
      assert a + b == b;
    } else {
      assert (a + b)[1..] == a[1..] + b;
      JoinAppend(a[1..], b);
      assert a[0] + "\n" + (Join(a[1..]) + Join(b)) == a[0] + "\n" + Join(a[1..]) + Join(b);
    }
  }

  /** Lines hold no newline, and in a text without carriage returns they are kept as they are. */
  lemma {:induction false} LinesKept(s: string)
    requires forall k :: 0 <= k < |s| ==> s[k] != '\r'
    ensures forall l :: l in Lines(s) ==> Kept(l)
  {
    if s != "" {
      var n := LineLength(s);
      assert Kept(DropCR(s[..n]));
      if n < |s| {
        LinesKept(s[n + 1..]);
      }
    }
  }

  // ----- The file -----

  datatype Entry = Entry(name: string, meta: Metadata, encoding: string) {
    predicate Clean() {
      Utf8.Valid(name) && meta.Clean() && Utf8.Valid(encoding)
    }

    /** What JSON gives back. */
    function Sanitized(): Entry {
      Entry(Utf8.Sanitize(name), meta.Sanitized(), Utf8.Sanitize(encoding))
    }
  }

  datatype Record = Record(entry: Entry, value: string)

  datatype File = File(entries: map<string, Record>, others: seq<string>)

  /** JSON and standard base64. */
  datatype Codec = Codec(
    json: Entry -> string,
    unjson: string -> Option<Entry>,
    encode64: string -> string,
    decode64: string -> Option<string>)
  {
    /**
     * JSON fits in a line and gives every text back rune by rune; what it has read is UTF-8.
     * Base64 round-trips bytes as text.
     */
    ghost predicate Lawful() {
      && (forall e: Entry :: OneLine(json(e)))
      && (forall e: Entry :: unjson(json(e)) == Some(e.Sanitized()))
      && (forall s: string :: unjson(s).Some? ==> unjson(s).value.Clean())
      && (forall v: string :: IsBytes(v) ==> decode64(encode64(v)) == Some(v))
      && (forall v: string :: Utf8.Valid(encode64(v)))
      && (forall s: string :: decode64(s).Some? ==> IsBytes(decode64(s).value))
    }
  }

  const MARKER := "# burndrop: "

  /** An ASCII letter in upper case. */
  function Upper(c: char): char {
    if 'a' <= c <= 'z' then c - 'a' + 'A' else c
  }

  function KeyChar(c: char): char {
    if 'A' <= Upper(c) <= 'Z' || '0' <= Upper(c) <= '9' then Upper(c) else '_'
  }

  /** The environment variable of a reference name. */
  function EnvKey(name: string): (key: string)
    requires ValidName(name)
    ensures |key| == |name|
  {
    seq(|name|, i requires 0 <= i < |name| => KeyChar(name[i]))
  }

  /** Two names share a variable exactly if they differ in nothing but case and punctuation. */
  lemma EnvKeyExactly(m: string, n: string)
    requires ValidName(m) && ValidName(n)
    ensures forall k :: 0 <= k < |m| ==>
      EnvKey(m)[k] == if 'a' <= m[k] <= 'z' then m[k] - ' ' else if m[k] in {'.', '-', '_'} then '_' else m[k]
    ensures EnvKey(m) == EnvKey(n) <==> |m| == |n| && forall k :: 0 <= k < |m| ==> SameKey(m[k], n[k])
  {
    hide ValidName;
    NameChars(m);
    NameChars(n);
    forall k | 0 <= k < |m| && k < |n|
      ensures EnvKey(m)[k] == EnvKey(n)[k] <==> SameKey(m[k], n[k])
    {
      KeyChars(m[k], n[k]);
    }
  }

  lemma NameChars(name: string)
    requires ValidName(name)
    ensures forall k :: 0 <= k < |name| ==> NameChar(name[k])
  {
  }

  predicate NameChar(c: char) {
    'A' <= c <= 'Z' || 'a' <= c <= 'z' || '0' <= c <= '9' || c in {'.', '-', '_'}
  }

  predicate SameKey(a: char, b: char) {
    || a == b
    || (a in {'.', '-', '_'} && b in {'.', '-', '_'})
    || ('a' <= a <= 'z' && a - ' ' == b) || ('a' <= b <= 'z' && b - ' ' == a)
  }

  lemma KeyChars(a: char, b: char)
    requires NameChar(a) && NameChar(b)
    ensures KeyChar(a) == KeyChar(b) <==> SameKey(a, b)
  {
  }

  /** The entry a marker line announces. */
  function Announced(c: Codec, line: string): Option<Entry> {
    if !HasPrefix(line, MARKER) then None
    else
      var e := c.unjson(line[|MARKER|..]);
      if e.Some? && ValidName(e.value.name) then e else None
  }

  /** The value a line gives to the entry announced before it. */
  function Given(c: Codec, e: Entry, line: string): Option<string>
    requires ValidName(e.name)
  {
    var key := EnvKey(e.name) + "=";
    if !HasPrefix(line, key) then None
    else
      var v := Unquoted(line[|key|..]);
      if v.Some? && e.encoding == "base64" then c.decode64(v.value) else v
  }

  datatype Scan = Scan(file: File, pending: Option<Entry>)

  predicate Scanning(st: Scan) {
    st.pending.Some? ==> ValidName(st.pending.value.name)
  }

  /** What one line does. */
  function Feed(c: Codec, st: Scan, line: string): (next: Scan)
    requires Scanning(st)
    ensures Scanning(next)
  {
    var e := Announced(c, line);
    if e.Some? then Scan(st.file, e)
    else if st.pending == None then Scan(File(st.file.entries, st.file.others + [line]), None)
    else
      var p := st.pending.value;
      var v := Given(c, p, line);
      if v.Some? then Scan(File(st.file.entries[p.name := Record(p, v.value)], st.file.others), None)
      else Scan(File(st.file.entries, st.file.others + [MARKER + c.json(p), line]), None)
  }

  function FeedAll(c: Codec, st: Scan, lines: seq<string>): (next: Scan)
    requires Scanning(st)
    ensures Scanning(next)
    decreases |lines|
  {
    if lines == [] then st else FeedAll(c, Feed(c, st, lines[0]), lines[1..])
  }

  const NOTHING := Scan(File(map[], []), None)

  /** The parsed form of a file. */
  function Parse(c: Codec, text: string): File {
    FeedAll(c, NOTHING, Lines(text)).file
  }

  function EntryLines(c: Codec, r: Record): seq<string>
    requires ValidName(r.entry.name)
  {
    [ MARKER + c.json(r.entry),
      EnvKey(r.entry.name) + "=" + Quoted(if r.entry.encoding == "base64" then c.encode64(r.value) else r.value)]
  }

  ghost predicate Named(f: File) {
    forall n :: n in f.entries ==> ValidName(n) && f.entries[n].entry.name == n
  }

  ghost function LinesOf(c: Codec, f: File, names: seq<string>): seq<string>
    requires Named(f) && forall n :: n in names ==> n in f.entries
  {
    if names == [] then [] else EntryLines(c, f.entries[names[0]]) + LinesOf(c, f, names[1..])
  }

  /** The lines of a saved file: the other lines, then the entries by name. */
  ghost function PrintedLines(c: Codec, f: File): seq<string>
    requires Named(f)
  {
    Names.SortedNames(f.entries.Keys);
    f.others + LinesOf(c, f, Names.Sorted(f.entries.Keys))
  }

  ghost function Print(c: Codec, f: File): string
    requires Named(f)
  {
    Join(PrintedLines(c, f))
  }

  // ----- Printing and parsing again -----

  lemma {:induction false} FeedAppend(c: Codec, st: Scan, a: seq<string>, b: seq<string>)
    requires Scanning(st)
    ensures FeedAll(c, st, a + b) == FeedAll(c, FeedAll(c, st, a), b)
    decreases |a|
  {
    if a == [] {
      assert a + b == b;
    } else {
      assert (a + b)[0] == a[0] && (a + b)[1..] == a[1..] + b;
      FeedAppend(c, Feed(c, st, a[0]), a[1..], b);
    }
  }

  /** Fed again on their own, the other lines are what they were. */
  ghost predicate Replays(c: Codec, others: seq<string>) {
    FeedAll(c, NOTHING, others) == Scan(File(map[], others), None)
  }

  ghost predicate RecordOk(r: Record) {
    r.entry.Clean() && (r.entry.encoding == "base64" ==> IsBytes(r.value))
  }

  /** A record that reads back when it is printed. */
  ghost predicate Printable(r: Record) {
    Utf8.Valid(r.entry.encoding) && (r.entry.encoding == "base64" ==> IsBytes(r.value))
  }

  ghost predicate AllPrintable(f: File) {
    Named(f) && forall n :: n in f.entries ==> Printable(f.entries[n])
  }

  /** What every parsed file is. */
  ghost predicate FileOk(c: Codec, f: File) {
    Named(f) && Replays(c, f.others) && forall n :: n in f.entries ==> RecordOk(f.entries[n])
  }

  lemma SanitizedEntry(e: Entry)
    ensures e.Sanitized().Clean() && (e.Clean() ==> e.Sanitized() == e)
    ensures ValidName(e.name) ==> e.Sanitized().name == e.name
    ensures Utf8.Valid(e.encoding) ==> e.Sanitized().encoding == e.encoding
  {
    hide Utf8.Sanitize, Utf8.Valid;
    SanitizedMeta(e.meta);
    Utf8.SanitizeFixed(e.name);
    Utf8.SanitizeFixed(e.encoding);
    if ValidName(e.name) {
      ValidNameIsText(e.name);
    }
  }

  lemma AnnouncedMarker(c: Codec, e: Entry)
    requires c.Lawful() && ValidName(e.name)
    ensures Announced(c, MARKER + c.json(e)) == Some(e.Sanitized())
  {
    SanitizedEntry(e);
    assert (MARKER + c.json(e))[|MARKER|..] == c.json(e);
  }

  lemma FeedOne(c: Codec, st: Scan, line: string)
    requires Scanning(st)
    ensures FeedAll(c, st, [line]) == Feed(c, st, line)
  {
    assert FeedAll(c, Feed(c, st, line), []) == Feed(c, st, line);
  }

  lemma FeedTwo(c: Codec, st: Scan, a: string, b: string)
    requires Scanning(st)
    ensures FeedAll(c, st, [a, b]) == Feed(c, Feed(c, st, a), b)
  {
    assert [a, b][1..] == [b];
    FeedOne(c, Feed(c, st, a), b);
  }

  lemma FeedKeeps(c: Codec, st: Scan, line: string)
    requires c.Lawful() && Scanning(st) && FileOk(c, st.file) && (st.pending.Some? ==> st.pending.value.Clean())
    ensures var next := Feed(c, st, line); FileOk(c, next.file) && (next.pending.Some? ==> next.pending.value.Clean())
  {
    var others := st.file.others;
    var base := Scan(File(map[], others), None);
    if Announced(c, line).None? {
      if st.pending == None {
        FeedAppend(c, NOTHING, others, [line]);
        FeedOne(c, base, line);
      } else if Given(c, st.pending.value, line).None? {
        var marker := MARKER + c.json(st.pending.value);
        AnnouncedMarker(c, st.pending.value);
        SanitizedEntry(st.pending.value);
        FeedAppend(c, NOTHING, others, [marker, line]);
        FeedTwo(c, base, marker, line);
      }
    }
  }

  lemma {:induction false} FeedAllKeeps(c: Codec, st: Scan, lines: seq<string>)
    requires c.Lawful() && Scanning(st) && FileOk(c, st.file) && (st.pending.Some? ==> st.pending.value.Clean())
    ensures FileOk(c, FeedAll(c, st, lines).file)
    decreases |lines|
  {
    if lines != [] {
      FeedKeeps(c, st, lines[0]);
      FeedAllKeeps(c, Feed(c, st, lines[0]), lines[1..]);
    }
  }

  lemma ParsedOk(c: Codec, text: string)
    requires c.Lawful()
    ensures FileOk(c, Parse(c, text))
  {
    assert Replays(c, []);
    FeedAllKeeps(c, NOTHING, Lines(text));
  }

  /** A record after it has been written and read: texts rune by rune, bytes as they are. */
  function CleanRecord(r: Record): Record {
    Record(r.entry.Sanitized(), if r.entry.encoding == "base64" then r.value else Utf8.Sanitize(r.value))
  }

  function Cleaned(f: File): File {
    File(map n | n in f.entries :: CleanRecord(f.entries[n]), f.others)
  }

  lemma KeyLineIsNoMarker(c: Codec, name: string, rest: string)
    requires ValidName(name)
    ensures Announced(c, EnvKey(name) + "=" + rest) == None
  {
    var line := EnvKey(name) + "=" + rest;
    assert line[0] == EnvKey(name)[0] == KeyChar(name[0]);
    assert MARKER[0] == '#';
    if HasPrefix(line, MARKER) {
      PrefixFirst(line, MARKER);
      assert false;
    }
  }

  lemma FeedEntry(c: Codec, st: Scan, r: Record)
    requires c.Lawful() && Scanning(st) && Printable(r) && ValidName(r.entry.name)
    ensures FeedAll(c, st, EntryLines(c, r))
      == Scan(File(st.file.entries[r.entry.name := CleanRecord(r)], st.file.others), None)
  {
    var text := if r.entry.encoding == "base64" then c.encode64(r.value) else r.value;
    var key := EnvKey(r.entry.name) + "=";
    var lines := EntryLines(c, r);
    FeedTwo(c, st, lines[0], lines[1]);
    AnnouncedMarker(c, r.entry);
    SanitizedEntry(r.entry);
    KeyLineIsNoMarker(c, r.entry.name, Quoted(text));
    assert lines[1] == key + Quoted(text);
    assert lines[1][..|key|] == key && lines[1][|key|..] == Quoted(text);
    UnquoteQuote(text);
    if r.entry.encoding == "base64" {
      Utf8.SanitizeSame(text);
    }
  }

  lemma {:induction false} FeedEntries(c: Codec, st: Scan, f: File, names: seq<string>)
    requires c.Lawful() && Scanning(st) && AllPrintable(f) && forall n :: n in names ==> n in f.entries
    ensures
      var next := FeedAll(c, st, LinesOf(c, f, names));
      && (names != [] ==> next.pending == None) && next.file.others == st.file.others
      && (forall n :: n in next.file.entries <==> n in st.file.entries || n in names)
      && (forall n :: n in next.file.entries ==>
            next.file.entries[n] == if n in names then CleanRecord(f.entries[n]) else st.file.entries[n])
    decreases |names|
  {
    if names != [] {
      var r := f.entries[names[0]];
      FeedEntry(c, st, r);
      var mid := FeedAll(c, st, EntryLines(c, r));
      FeedAppend(c, st, EntryLines(c, r), LinesOf(c, f, names[1..]));
      FeedEntries(c, mid, f, names[1..]);
    }
  }

  lemma MarkerLineKept(c: Codec, e: Entry)
    requires c.Lawful()
    ensures Kept(MARKER + c.json(e))
  {
    hide OneLine, Kept;
    assert OneLine(c.json(e));
    OneLineKept(c.json(e));
  }

  lemma OneLineKept(s: string)
    requires OneLine(s)
    ensures Kept(MARKER + s)
  {
    assert OneLine(MARKER);
    assert OneLine(MARKER + s);
  }

  lemma EntryLinesKept(c: Codec, r: Record)
    requires c.Lawful() && ValidName(r.entry.name)
    ensures forall l :: l in EntryLines(c, r) ==> Kept(l)
  {
    hide Kept, Escape;
    MarkerLineKept(c, r.entry);
    KeyLineKept(r.entry.name, if r.entry.encoding == "base64" then c.encode64(r.value) else r.value);
  }

  lemma KeyLineKept(name: string, value: string)
    requires ValidName(name)
    ensures Kept(EnvKey(name) + "=" + Quoted(value))
  {
    EscapeIsOneLine(value);
    assert OneLine(EnvKey(name));
    assert OneLine(EnvKey(name) + "=" + Quoted(value));
  }

  lemma {:induction false} LinesOfKept(c: Codec, f: File, names: seq<string>)
    requires c.Lawful() && Named(f) && forall n :: n in names ==> n in f.entries
    ensures forall l :: l in LinesOf(c, f, names) ==> Kept(l)
  {
    if names != [] {
      EntryLinesKept(c, f.entries[names[0]]);
      LinesOfKept(c, f, names[1..]);
    }
  }

  ghost predicate OthersKept(f: File) {
    forall l :: l in f.others ==> Kept(l)
  }

  lemma OkIsPrintable(c: Codec, f: File)
    requires FileOk(c, f)
    ensures AllPrintable(f)
  {
    hide Replays;
    forall n | n in f.entries
      ensures Printable(f.entries[n])
    {
      assert RecordOk(f.entries[n]);
    }
  }

  /** What a saved file reads as: every line and every entry, text values written back rune by rune. */
  lemma ParsePrint(c: Codec, f: File)
    requires c.Lawful() && AllPrintable(f) && Replays(c, f.others) && OthersKept(f)
    ensures Parse(c, Print(c, f)) == Cleaned(f)
  {
    hide Kept, Lines, Join, FeedAll, LinesOf, Codec.Lawful, Printable, CleanRecord, Names.Sorted, Names.Increasing;
    var names := Names.Sorted(f.entries.Keys);
    Names.SortedNames(f.entries.Keys);
    assert forall n :: n in names <==> n in Names.Elements(names);
    LinesOfKept(c, f, names);
    LinesJoin(PrintedLines(c, f));
    FeedAppend(c, NOTHING, f.others, LinesOf(c, f, names));
    FeedEntries(c, Scan(File(map[], f.others), None), f, names);
    assert Parse(c, Print(c, f)).entries == Cleaned(f).entries;
  }

  /** Every value that is kept as text is UTF-8. */
  ghost predicate TextsValid(f: File) {
    forall n :: n in f.entries && f.entries[n].entry.encoding != "base64" ==> Utf8.Valid(f.entries[n].value)
  }

  lemma CleanRecordSame(r: Record)
    requires RecordOk(r)
    ensures CleanRecord(r) == r <==> r.entry.encoding == "base64" || Utf8.Valid(r.value)
    ensures RecordOk(CleanRecord(r)) && CleanRecord(r).entry == r.entry
    ensures r.entry.encoding != "base64" ==> Utf8.Valid(CleanRecord(r).value)
  {
    hide Utf8.Sanitize, Utf8.Valid, Entry.Sanitized, Entry.Clean;
    SanitizedEntry(r.entry);
    Utf8.SanitizeFixed(r.value);
  }

  lemma CleanedSame(c: Codec, f: File)
    requires FileOk(c, f)
    ensures Cleaned(f) == f <==> TextsValid(f)
    ensures TextsValid(Cleaned(f))
    ensures TextsValid(f) ==> forall n :: n in f.entries ==> CleanRecord(f.entries[n]) == f.entries[n]
  {
    hide CleanRecord, RecordOk, Replays, Utf8.Valid;
    forall n | n in f.entries
      ensures CleanRecord(f.entries[n]) == f.entries[n]
        <==> f.entries[n].entry.encoding == "base64" || Utf8.Valid(f.entries[n].value)
      ensures CleanRecord(f.entries[n]).entry == f.entries[n].entry
      ensures f.entries[n].entry.encoding != "base64" ==> Utf8.Valid(CleanRecord(f.entries[n]).value)
    {
      CleanRecordSame(f.entries[n]);
    }
    if Cleaned(f) == f {
      forall n | n in f.entries
        ensures CleanRecord(f.entries[n]) == f.entries[n]
      {
        assert Cleaned(f).entries[n] == CleanRecord(f.entries[n]);
      }
    } else {
      assert Cleaned(f).entries != f.entries;
      assert Cleaned(f).entries.Keys == f.entries.Keys;
    }
  }

  /** Saved and loaded again. */
  ghost function Reload(c: Codec, f: File): File {
    if Named(f) then Parse(c, Print(c, f)) else f
  }

  lemma ReloadCleans(c: Codec, f: File)
    requires c.Lawful() && FileOk(c, f) && OthersKept(f)
    ensures Reload(c, f) == Cleaned(f)
    ensures FileOk(c, Cleaned(f)) && OthersKept(Cleaned(f))
  {
    hide Parse, Print;
    OkIsPrintable(c, f);
    ParsePrint(c, f);
    forall n | n in f.entries
      ensures RecordOk(CleanRecord(f.entries[n])) && CleanRecord(f.entries[n]).entry == f.entries[n].entry
    {
      CleanRecordSame(f.entries[n]);
    }
  }

  // What a carriage return at the end of a kept line does.

  /** How many carriage returns a line ends in. */
  function Returns(line: string): nat {
    if line != "" && line[|line| - 1] == '\r' then 1 + Returns(line[..|line| - 1]) else 0
  }

  ghost predicate NoNewline(lines: seq<string>) {
    forall l, k :: l in lines && 0 <= k < |l| ==> l[k] != '\n'
  }

  /** No line ends in more than n carriage returns. */
  ghost predicate Bounded(lines: seq<string>, n: nat) {
    forall l :: l in lines ==> Returns(l) <= n
  }

  function MostReturns(lines: seq<string>): nat {
    if lines == [] then 0
    else
      var rest := MostReturns(lines[1..]);
      if Returns(lines[0]) > rest then Returns(lines[0]) else rest
  }

  lemma {:induction false} MostReturnsBounds(lines: seq<string>)
    ensures Bounded(lines, MostReturns(lines))
  {
    if lines != [] {
      MostReturnsBounds(lines[1..]);
      assert forall l :: l in lines ==> l == lines[0] || l in lines[1..];
    }
  }

  function Dropped(lines: seq<string>): seq<string> {
    seq(|lines|, i requires 0 <= i < |lines| => DropCR(lines[i]))
  }

  /** Lines that are written and scanned lose one carriage return each. */
  lemma {:induction false} LinesJoinDropped(lines: seq<string>)
    requires NoNewline(lines)
    ensures Lines(Join(lines)) == Dropped(lines)
  {
    hide Lines, DropCR;
    if lines == [] {
      NoLinesInNothing();
    } else {
      FirstLine(lines[0], Join(lines[1..]));
      assert forall l :: l in lines[1..] ==> l in lines;
      LinesJoinDropped(lines[1..]);
      assert Dropped(lines) == [DropCR(lines[0])] + Dropped(lines[1..]);
    }
  }

  lemma NoLinesInNothing()
    ensures Lines("") == []
  {
  }

  lemma FirstLine(line: string, rest: string)
    requires forall k :: 0 <= k < |line| ==> line[k] != '\n'
    ensures Lines(line + "\n" + rest) == [DropCR(line)] + Lines(rest)
  {
    hide DropCR, LineLength;
    var text := line + "\n" + rest;
    LineLengthOf(line, rest);
    assert text[..|line|] == line && text[|line| + 1..] == rest;
  }

  lemma DroppedBounded(lines: seq<string>, n: nat)
    requires Bounded(lines, n)
    ensures Bounded(Dropped(lines), if n == 0 then 0 else n - 1)
  {
    forall l | l in Dropped(lines)
      ensures Returns(l) <= if n == 0 then 0 else n - 1
    {
      var i :| 0 <= i < |lines| && l == DropCR(lines[i]);
      assert lines[i] in lines;
    }
  }

  lemma DropCRPlain(line: string)
    requires forall k :: 0 <= k < |line| ==> line[k] != '\n'
    ensures forall k :: 0 <= k < |DropCR(line)| ==> DropCR(line)[k] != '\n'
  {
  }

  lemma {:induction false} LinesPlain(s: string)
    ensures NoNewline(Lines(s))
  {
    hide DropCR;
    if s != "" {
      var n := LineLength(s);
      var first := DropCR(s[..n]);
      DropCRPlain(s[..n]);
      if n < |s| {
        LinesPlain(s[n + 1..]);
        assert forall l :: l in Lines(s) <==> l == first || l in Lines(s[n + 1..]);
      } else {
        assert Lines(s) == [first];
      }
    }
  }

  lemma MarkerLinePlain(c: Codec, e: Entry)
    requires c.Lawful()
    ensures Returns(MARKER + c.json(e)) == 0 && NoNewline([MARKER + c.json(e)])
  {
    MarkerLineKept(c, e);
  }

  /** Feeding lines leaves no other lines than there were, lines fed, and markers. */
  lemma {:induction false} OthersBounded(c: Codec, st: Scan, lines: seq<string>, n: nat)
    requires c.Lawful() && Scanning(st)
    requires Bounded(lines, n) && Bounded(st.file.others, n) && NoNewline(lines) && NoNewline(st.file.others)
    ensures Bounded(FeedAll(c, st, lines).file.others, n) && NoNewline(FeedAll(c, st, lines).file.others)
    decreases |lines|
  {
    hide Returns, Announced, Given;
    if lines != [] {
      if st.pending.Some? {
        MarkerLinePlain(c, st.pending.value);
        assert MARKER + c.json(st.pending.value) in [MARKER + c.json(st.pending.value)];
      }
      assert lines[0] in lines;
      OthersBounded(c, Feed(c, st, lines[0]), lines[1..], n);
    }
  }

  /** Every save takes one carriage return off the lines that end in most. */
  lemma ReloadBounded(c: Codec, f: File, n: nat)
    requires c.Lawful() && FileOk(c, f) && NoNewline(f.others) && Bounded(f.others, n)
    ensures Bounded(Reload(c, f).others, if n == 0 then 0 else n - 1)
  {
    hide Lines, Join, FeedAll, LinesOf, Codec.Lawful, RecordOk, Returns, Names.Sorted, Names.Increasing, Kept;
    var names := Names.Sorted(f.entries.Keys);
    Names.SortedNames(f.entries.Keys);
    assert forall k :: k in names <==> k in Names.Elements(names);
    LinesOfKept(c, f, names);
    KeptPlain(LinesOf(c, f, names));
    PrintedBounded(f.others, LinesOf(c, f, names), n);
    LinesJoinDropped(PrintedLines(c, f));
    NothingYet(n);
    OthersBounded(c, NOTHING, Lines(Print(c, f)), if n == 0 then 0 else n - 1);
  }

  lemma NothingYet(n: nat)
    ensures Bounded(NOTHING.file.others, n) && NoNewline(NOTHING.file.others)
  {
  }

  lemma KeptPlain(lines: seq<string>)
    requires forall l :: l in lines ==> Kept(l)
    ensures NoNewline(lines) && Bounded(lines, 0)
  {
    forall l | l in lines
      ensures Returns(l) == 0
    {
      assert Kept(l);
    }
  }

  lemma PrintedBounded(a: seq<string>, b: seq<string>, n: nat)
    requires NoNewline(a) && NoNewline(b) && Bounded(a, n) && Bounded(b, 0)
    ensures NoNewline(a + b) && Bounded(Dropped(a + b), if n == 0 then 0 else n - 1) && NoNewline(Dropped(a + b))
  {
    assert Bounded(a + b, n);
    DroppedBounded(a + b, n);
    forall l, k | l in Dropped(a + b) && 0 <= k < |l|
      ensures l[k] != '\n'
    {
      var i :| 0 <= i < |a + b| && l == DropCR((a + b)[i]);
      assert (a + b)[i] in a + b;
    }
  }

  /** A file that reads back as it is has no carriage return at the end of a kept line. */
  lemma {:induction false} SameHasNoReturns(c: Codec, f: File, n: nat)
    requires c.Lawful() && FileOk(c, f) && NoNewline(f.others) && Bounded(f.others, n) && Reload(c, f) == f
    ensures Bounded(f.others, 0)
  {
    if n > 0 {
      ReloadBounded(c, f, n);
      SameHasNoReturns(c, f, n - 1);
    }
  }

  lemma NoReturnsKept(f: File)
    requires NoNewline(f.others) && Bounded(f.others, 0)
    ensures OthersKept(f)
  {
    forall l | l in f.others
      ensures Kept(l)
    {
      assert Returns(l) == 0;
    }
  }

  lemma ParsedPlain(c: Codec, text: string)
    requires c.Lawful()
    ensures NoNewline(Parse(c, text).others)
  {
    hide Lines, FeedAll;
    var n := MostReturns(Lines(text));
    MostReturnsBounds(Lines(text));
    LinesPlain(text);
    NothingYet(n);
    OthersBounded(c, NOTHING, Lines(text), n);
  }

  /**
   * Loading, saving and loading again gives the same file exactly if every text value in it is
   * UTF-8 and no kept line ends in a carriage return, for any text at all.
   */
  lemma SaveLoadSame(c: Codec, text: string)
    requires c.Lawful()
    ensures Reload(c, Parse(c, text)) == Parse(c, text) <==> TextsValid(Parse(c, text)) && OthersKept(Parse(c, text))
  {
    hide Parse, Print, FileOk, Cleaned, TextsValid, OthersKept, NoNewline, Bounded, Reload;
    var f := Parse(c, text);
    ParsedOk(c, text);
    ParsedPlain(c, text);
    if Reload(c, f) == f {
      MostReturnsBounds(f.others);
      SameHasNoReturns(c, f, MostReturns(f.others));
      NoReturnsKept(f);
    }
    if OthersKept(f) {
      ReloadCleans(c, f);
      CleanedSame(c, f);
    }
  }

  /** Whatever the text, once its kept lines survive, a second save changes nothing. */
  lemma SecondSaveSame(c: Codec, text: string)
    requires c.Lawful() && OthersKept(Parse(c, text))
    ensures Reload(c, Reload(c, Parse(c, text))) == Reload(c, Parse(c, text))
  {
    hide Parse, Print, FileOk, Cleaned, TextsValid, OthersKept, Reload;
    var f := Parse(c, text);
    ParsedOk(c, text);
    ReloadCleans(c, f);
    CleanedSame(c, f);
    ReloadCleans(c, Cleaned(f));
    CleanedSame(c, Cleaned(f));
  }

  const NO_META := Metadata("", "", "", 0, None, "", "", false, "", 0, "")

  /** A file with one entry whose quoted value is the single byte 0xFF. */
  function BadByteText(c: Codec): string {
    MARKER + c.json(Entry("k", NO_META, "")) + "\n" + "K=" + ['"', 0xFF as char, '"'] + "\n"
  }

  function BadByteFile(value: string): File {
    File(map["k" := Record(Entry("k", NO_META, ""), value)], [])
  }

  /** Such a value is read as it is and written as U+FFFD: a text that does not come back. */
  lemma BadByteLost(c: Codec)
    requires c.Lawful()
    ensures Parse(c, BadByteText(c)) == BadByteFile([0xFF as char])
    ensures Reload(c, Parse(c, BadByteText(c))) == BadByteFile(Utf8.REPLACEMENT)
  {
    hide Parse, Reload, Cleaned, FileOk, Kept;
    BadByteRead(c);
    ParsedOk(c, BadByteText(c));
    ReloadCleans(c, BadByteFile([0xFF as char]));
    BadByteCleaned();
  }

  lemma BadByteCleaned()
    ensures Cleaned(BadByteFile([0xFF as char])) == BadByteFile(Utf8.REPLACEMENT)
  {
    hide Utf8.Sanitize, Utf8.Valid, Metadata.Sanitized;
    EntryIsClean(Entry("k", NO_META, ""));
    SanitizedEntry(Entry("k", NO_META, ""));
    Utf8.SanitizeBadByte(0xFF as char);
    assert Cleaned(BadByteFile([0xFF as char])).entries == BadByteFile(Utf8.REPLACEMENT).entries;
  }

  lemma BadByteRead(c: Codec)
    requires c.Lawful()
    ensures Parse(c, BadByteText(c)) == BadByteFile([0xFF as char])
  {
    hide Lines, Join, Announced, Given, Kept, FeedAll, Entry.Clean, ValidName;
    var e, line := Entry("k", NO_META, ""), "K=" + ['"', 0xFF as char, '"'];
    var marker := MARKER + c.json(e);
    EntryIsClean(e);
    MarkerLineKept(c, e);
    BadLineKept();
    LinesJoin([marker, line]);
    JoinTwo(marker, line);
    SameText(marker, "K=", ['"', 0xFF as char, '"']);
    FeedTwo(c, NOTHING, marker, line);
    AnnouncedMarker(c, e);
    SanitizedEntry(e);
    KeyLine(c, e);
  }

  lemma BadLineKept()
    ensures Kept("K=" + ['"', 0xFF as char, '"'])
  {
  }

  lemma SameText(a: string, b: string, c: string)
    ensures a + "\n" + b + c + "\n" == a + "\n" + (b + c + "\n")
  {
  }

  lemma EntryIsClean(e: Entry)
    requires e == Entry("k", NO_META, "")
    ensures e.Clean() && ValidName(e.name)
  {
    Utf8.AsciiValid("");
    Utf8.AsciiValid("k");
  }

  lemma KeyLine(c: Codec, e: Entry)
    requires e.name == "k" && ValidName(e.name) && e.encoding == ""
    ensures
      var line := "K=" + ['"', 0xFF as char, '"'];
      Announced(c, line) == None && Given(c, e, line) == Some([0xFF as char])
  {
    var raw := ['"', 0xFF as char, '"'];
    var line := "K=" + raw;
    assert line[0] == 'K' && MARKER[0] == '#';
    if HasPrefix(line, MARKER) {
      PrefixFirst(line, MARKER);
      assert false;
    }
    assert EnvKey("k") == "K";
    assert line[..2] == "K=" && line[2..] == raw;
    assert raw[1..2] == [0xFF as char];
    assert Unescape([0xFF as char]) == Prepend([0xFF as char], Unescape(""));
    assert [0xFF as char] + "" == [0xFF as char];
  }

  /** The other lines are lines of the text, or markers written again. */
  lemma {:induction false} OthersFrom(c: Codec, st: Scan, lines: seq<string>)
    requires c.Lawful() && Scanning(st)
    requires (forall l :: l in lines ==> Kept(l)) && OthersKept(st.file)
    ensures OthersKept(FeedAll(c, st, lines).file)
    decreases |lines|
  {
    if lines != [] {
      if st.pending.Some? {
        MarkerLineKept(c, st.pending.value);
      }
      assert Kept(lines[0]);
      OthersFrom(c, Feed(c, st, lines[0]), lines[1..]);
    }
  }

  /** Without carriage returns in the text the scanner strips nothing. */
  lemma NoCarriageReturns(c: Codec, text: string)
    requires c.Lawful() && forall k :: 0 <= k < |text| ==> text[k] != '\r'
    ensures OthersKept(Parse(c, text))
  {
    LinesKept(text);
    OthersFrom(c, NOTHING, Lines(text));
  }

  /** With them, a kept line can lose one on every save. */
  lemma CarriageReturnLost(c: Codec)
    requires c.Lawful()
    ensures
      var f := Parse(c, "x\r\r\n");
      f == File(map[], ["x\r"]) && Parse(c, Print(c, f)) == File(map[], ["x"])
  {
    PlainLine(c, "x\r\r", "x\r");
    PlainLine(c, "x\r", "x");
    var f := File(map[], ["x\r"]);
    assert Names.Sorted({}) == [] by { Names.NoNames(); }
    assert f.entries.Keys == {};
    assert PrintedLines(c, f) == ["x\r"];
    assert Join(["x\r"]) == "x\r" + "\n" + Join([]) == "x\r\n";
    assert "x\r\r" + "\n" == "x\r\r\n";
    assert "x\r" + "\n" == "x\r\n";
  }

  lemma PlainLine(c: Codec, line: string, kept: string)
    requires (forall k :: 0 <= k < |line| ==> line[k] != '\n') && kept == DropCR(line) && !HasPrefix(kept, MARKER)
    ensures Parse(c, line + "\n") == File(map[], [kept])
  {
    var text := line + "\n";
    LineLengthOf(line, "");
    assert line + "\n" + "" == text;
    assert text[..|line|] == line && text[|line| + 1..] == "";
    assert Lines("") == [] && Lines(text) == [kept];
    FeedOne(c, NOTHING, kept);
    assert [] + [kept] == [kept];
  }

  /** A marker at the end of the file is dropped, and so is one that another marker follows. */
  lemma MarkersDropped(c: Codec, lines: seq<string>, marker: string, next: string)
    requires Announced(c, marker).Some? && Announced(c, next).Some?
    ensures FeedAll(c, NOTHING, lines + [marker]).file == FeedAll(c, NOTHING, lines).file
    ensures FeedAll(c, NOTHING, lines + [marker, next]) == FeedAll(c, NOTHING, lines + [next])
  {
    var st := FeedAll(c, NOTHING, lines);
    FeedAppend(c, NOTHING, lines, [marker]);
    FeedAppend(c, NOTHING, lines, [next]);
    FeedAppend(c, NOTHING, lines, [marker, next]);
    FeedOne(c, st, marker);
    FeedOne(c, st, next);
    FeedTwo(c, st, marker, next);
  }

  /**
   * A marker and the line behind it are an entry exactly if that line is the name's own variable with a quoted
   * value that decodes; otherwise both lines are kept.
   */
  lemma MarkerAndLine(c: Codec, st: Scan, marker: string, e: Entry, line: string)
    requires st.pending == None && ValidName(e.name)
    requires HasPrefix(marker, "# burndrop: ") && c.unjson(marker[12..]) == Some(e) && !HasPrefix(line, "# burndrop: ")
    ensures
      var next := FeedAll(c, st, [marker, line]);
      var key := EnvKey(e.name) + "=";
      var raw := if HasPrefix(line, key) then Unquoted(line[|key|..]) else None;
      var value := if raw.Some? && e.encoding == "base64" then c.decode64(raw.value) else raw;
      && next.pending == None
      && (value.Some? ==>
        next.file == File(st.file.entries[e.name := Record(e, value.value)], st.file.others))
      && (value == None ==>
        next.file == File(st.file.entries, st.file.others + ["# burndrop: " + c.json(e), line]))
  {
    hide Unquoted, EnvKey, ValidName;
    FeedTwo(c, st, marker, line);
  }

  // ----- The store -----

  /** Whether a value is kept as a quoted text. */
  predicate Textual(v: string) {
    Utf8.Valid(v) && forall k :: 0 <= k < |v| ==> v[k] >= 0x20 as char || v[k] in {'\n', '\r', '\t'}
  }

  /** A name that is there already, under another spelling of the same variable. */
  predicate Clashes(f: File, name: string)
    requires Named(f) && ValidName(name)
  {
    exists n :: n in f.entries && n != name && EnvKey(n) == EnvKey(name)
  }

  /** No two entries share an environment variable. */
  ghost predicate DistinctKeys(f: File)
    requires Named(f)
  {
    forall m, n :: m in f.entries && n in f.entries && EnvKey(m) == EnvKey(n) ==> m == n
  }

  /** A name that clashes with none can be put in, and only such a name. */
  lemma PutKeepsKeysDistinct(f: File, name: string, r: Record)
    requires Named(f) && DistinctKeys(f) && ValidName(name) && r.entry.name == name
    ensures Named(File(f.entries[name := r], f.others))
    ensures DistinctKeys(File(f.entries[name := r], f.others)) <==> !Clashes(f, name)
  {
    hide EnvKey, ValidName;
    var g := File(f.entries[name := r], f.others);
    if n :| n in f.entries && n != name && EnvKey(n) == EnvKey(name) {
      assert n in g.entries && name in g.entries;
    }
  }

  /** The record of a value. */
  function NewRecord(name: string, value: string, meta: Metadata): Record {
    var full := meta.(name := name, backend := "dotenv", sizeBytes := |value|);
    Record(Entry(name, full, if Textual(value) then "" else "base64"), value)
  }

  lemma NewRecordOk(name: string, value: string, meta: Metadata)
    requires ValidName(name) && IsBytes(value)
    ensures Printable(NewRecord(name, value, meta))
    ensures CleanRecord(NewRecord(name, value, meta)) == NewRecord(name, value, meta.Sanitized())
  {
    hide Utf8.Valid, Utf8.Sanitize, ValidName;
    ValidNameIsText(name);
    Utf8.SanitizeFixed(name);
    AsciiFixed("dotenv");
    AsciiFixed("base64");
    AsciiFixed("");
    assert "" != "base64";
    if Textual(value) {
      Utf8.SanitizeSame(value);
    }
  }

  lemma AsciiFixed(s: string)
    requires Utf8.Ascii(s)
    ensures Utf8.Valid(s) && Utf8.Sanitize(s) == s
  {
    Utf8.AsciiValid(s);
    Utf8.SanitizeSame(s);
  }

  lemma NewRecordHolds(name: string, value: string, meta: Metadata)
    ensures
      var r := NewRecord(name, value, meta);
      && r.entry.name == name && r.value == value
      && r.entry.meta == meta.(name := name, backend := "dotenv", sizeBytes := |value|)
  {
  }

  /** What is stored with a value, and that its bytes are kept as text exactly if they are printable UTF-8. */
  lemma NewRecordExactly(name: string, value: string, meta: Metadata)
    ensures
      var r := NewRecord(name, value, meta);
      var text := Utf8.Valid(value) && forall k :: 0 <= k < |value| ==>
        value[k] as int >= 32 || value[k] as int in {9, 10, 13};
      && r.value == value && r.entry.name == name && r.entry.encoding == (if text then "" else "base64")
      && r.entry.meta.name == name && r.entry.meta.backend == "dotenv" && r.entry.meta.sizeBytes == |value|
      && r.entry.meta.retention == meta.retention && r.entry.meta.expiresAt == meta.expiresAt
      && r.entry.meta.createdAt == meta.createdAt && r.entry.meta.purpose == meta.purpose
      && r.entry.meta.source == meta.source && r.entry.meta.sendable == meta.sendable
      && r.entry.meta.fingerprint == meta.fingerprint && r.entry.meta.kind == meta.kind
  {
    assert forall k :: 0 <= k < |value| ==>
      (value[k] in {'\n', '\r', '\t'} <==> value[k] as int in {9, 10, 13});
  }

  /** The text of a file with one secret: the lines that were there, a comment, the variable. */
  lemma SavedText(c: Codec, others: seq<string>, r: Record)
    requires ValidName(r.entry.name)
    ensures
      var value := if r.entry.encoding == "base64" then c.encode64(r.value) else r.value;
      Print(c, File(map[r.entry.name := r], others)) ==
        Join(others) + ("# burndrop: " + c.json(r.entry) + "\n" + (EnvKey(r.entry.name) + "=" + Quoted(value) + "\n"))
  {
    hide ValidName, EnvKey, Quoted;
    var f := File(map[r.entry.name := r], others);
    var names := Names.Sorted(f.entries.Keys);
    Names.SortedNames(f.entries.Keys);
    assert f.entries.Keys == {r.entry.name};
    assert names == [r.entry.name];
    assert names[1..] == [];
    assert LinesOf(c, f, names) == EntryLines(c, r) + [] == EntryLines(c, r);
    JoinAppend(others, EntryLines(c, r));
    var value := if r.entry.encoding == "base64" then c.encode64(r.value) else r.value;
    JoinTwo(MARKER + c.json(r.entry), EnvKey(r.entry.name) + "=" + Quoted(value));
  }

  /** A file with a record put in, or taken out. */
  function Stored(f: File, name: string, r: Record): File {
    File(f.entries[name := r], f.others)
  }

  function Without(f: File, name: string): File {
    File(f.entries - {name}, f.others)
  }

  /** Whatever the other lines turn into, every printed entry reads back, and later ones with its name do not come. */
  lemma EntriesReadBack(c: Codec, f: File)
    requires c.Lawful() && AllPrintable(f) && NoNewline(f.others)
    ensures
      var v := Parse(c, Print(c, f));
      forall n :: n in f.entries ==> n in v.entries && v.entries[n] == CleanRecord(f.entries[n])
  {
    hide Kept, Lines, Join, FeedAll, LinesOf, Codec.Lawful, Printable, CleanRecord, Names.Sorted, Names.Increasing;
    var names := Names.Sorted(f.entries.Keys);
    Names.SortedNames(f.entries.Keys);
    assert forall n :: n in names <==> n in Names.Elements(names);
    var lines := LinesOf(c, f, names);
    LinesOfKept(c, f, names);
    KeptPlain(lines);
    assert NoNewline(f.others + lines);
    LinesJoinDropped(f.others + lines);
    DroppedAppend(f.others, lines);
    FeedAppend(c, NOTHING, Dropped(f.others), lines);
    FeedEntries(c, FeedAll(c, NOTHING, Dropped(f.others)), f, names);
  }

  lemma DroppedAppend(a: seq<string>, b: seq<string>)
    requires forall l :: l in b ==> Kept(l)
    ensures Dropped(a + b) == Dropped(a) + b
  {
    forall i | 0 <= i < |b|
      ensures DropCR(b[i]) == b[i]
    {
      assert Kept(b[i]);
    }
  }

  /** The file after a record has been put in. */
  lemma PutView(c: Codec, f: File, name: string, r: Record)
    requires c.Lawful() && FileOk(c, f) && NoNewline(f.others) && ValidName(name) && r.entry.name == name
      && Printable(r)
    ensures
      var g := Stored(f, name, r);
      && Named(g)
      && var v := Parse(c, Print(c, g));
      && name in v.entries && v.entries[name] == CleanRecord(r)
      && (forall n :: n in f.entries && n != name ==> n in v.entries && v.entries[n] == CleanRecord(f.entries[n]))
      && (OthersKept(f) ==> v == Cleaned(f).(entries := Cleaned(f).entries[name := CleanRecord(r)]))
  {
    hide Parse, Print, Printable, CleanRecord, RecordOk, Replays, ValidName, NoNewline;
    OkIsPrintable(c, f);
    var g := Stored(f, name, r);
    EntriesReadBack(c, g);
    if OthersKept(f) {
      ParsePrint(c, g);
      assert Cleaned(g).entries == Cleaned(f).entries[name := CleanRecord(r)];
    }
  }

  lemma DeleteView(c: Codec, f: File, name: string)
    requires c.Lawful() && FileOk(c, f) && NoNewline(f.others)
    ensures
      var g := Without(f, name);
      && Named(g)
      && var v := Parse(c, Print(c, g));
      && (forall n :: n in f.entries && n != name ==> n in v.entries && v.entries[n] == CleanRecord(f.entries[n]))
      && (OthersKept(f) ==> v == Cleaned(f).(entries := Cleaned(f).entries - {name}))
  {
    hide Parse, Print, Printable, CleanRecord, RecordOk, Replays, ValidName, NoNewline;
    OkIsPrintable(c, f);
    var g := Without(f, name);
    EntriesReadBack(c, g);
    if OthersKept(f) {
      ParsePrint(c, g);
      assert Cleaned(g).entries == Cleaned(f).entries - {name};
    }
  }

  class Dotenv {
    const codec: Codec
    /** The file, if there is one. */
    var text: Option<string>

    ghost predicate Valid() {
      codec.Lawful()
    }

    constructor (codec: Codec)
      requires codec.Lawful()
      ensures Valid() && text == None
    {
      this.codec := codec;
      text := None;
    }

    /** What the file holds. */
    ghost function View(): (f: File)
      reads this
      requires Valid()
      ensures FileOk(codec, f) && NoNewline(f.others)
    {
      ParsedPlain(codec, if text == None then "" else text.value);
      ParsedOk(codec, if text == None then "" else text.value);
      Parse(codec, if text == None then "" else text.value)
    }

    method Load() returns (f: File)
      requires Valid()
      ensures f == View()
    {
      f := File(map[], []);
      if text == None {
        return;
      }
      var rest := Lines(text.value);
      var pending: Option<Entry> := None;
      while rest != []
        invariant Scanning(Scan(f, pending))
        invariant FeedAll(codec, Scan(f, pending), rest) == FeedAll(codec, NOTHING, Lines(text.value))
        decreases |rest|
      {
        var line := rest[0];
        rest := rest[1..];
        var e := Announced(codec, line);
        if e.Some? {
          pending := e;
          continue;
        }
        if pending.Some? {
          var v := Given(codec, pending.value, line);
          if v.Some? {
            f := File(f.entries[pending.value.name := Record(pending.value, v.value)], f.others);
            pending := None;
            continue;
          }
          f := File(f.entries, f.others + [MARKER + codec.json(pending.value), line]);
          pending := None;
          continue;
        }
        f := File(f.entries, f.others + [line]);
      }
    }

    method Save(f: File)
      requires Valid() && Named(f)
      modifies this
      ensures text == Some(Print(codec, f))
    {
      hide Join, Lines, LinesOf, EntryLines, Quoted, EnvKey, ValidName, Codec.Lawful, Names.Sorted, Names.Increasing;
      var out := SaveOthers(f.others);
      Names.SortedNames(f.entries.Keys);
      var names := Names.Sort(f.entries.Keys);
      assert forall n :: n in names <==> n in Names.Elements(names);
      JoinAppend(f.others, LinesOf(codec, f, names));
      assert names[0..] == names;
      for i := 0 to |names|
        invariant out + Join(LinesOf(codec, f, names[i..])) == Print(codec, f)
      {
        var r := f.entries[names[i]];
        assert names[i..][0] == names[i] && names[i..][1..] == names[i + 1..];
        var entry := SaveEntry(r);
        NextLines(codec, f, names[i..]);
        Regroup(out, entry, Join(LinesOf(codec, f, names[i + 1..])));
        out := out + entry;
      }
      NoLines(codec, f);
      assert names[|names|..] == [] && out + "" == out;
      text := Some(out);
    }

    method SaveOthers(others: seq<string>) returns (out: string)
      ensures out == Join(others)
    {
      out := "";
      assert others[0..] == others;
      for i := 0 to |others|
        invariant out + Join(others[i..]) == Join(others)
      {
        assert others[i..][0] == others[i] && others[i..][1..] == others[i + 1..];
        Regroup(out, others[i] + "\n", Join(others[i + 1..]));
        out := out + (others[i] + "\n");
      }
      assert others[|others|..] == [] && out + "" == out;
    }

    method SaveEntry(r: Record) returns (out: string)
      requires ValidName(r.entry.name)
      ensures out == Join(EntryLines(codec, r))
    {
      hide ValidName, EnvKey, Quoted;
      var value := r.value;
      if r.entry.encoding == "base64" {
        value := codec.encode64(r.value);
      }
      var quoted := Quote(value);
      JoinTwo(MARKER + codec.json(r.entry), EnvKey(r.entry.name) + "=" + quoted);
      out := MARKER + codec.json(r.entry) + "\n" + (EnvKey(r.entry.name) + "=" + quoted + "\n");
    }

    /** Stores a value; `safe` is whether git would not commit the file. */
    method Put(name: string, value: string, meta: Metadata, safe: bool) returns (err: Option<StorageError>)
      requires Valid() && IsBytes(value)
      modifies this
      ensures err == (
        if !ValidName(name) then Some(InvalidName)
        else if |value| > MAX_VALUE_BYTES then Some(TooLarge)
        else if !safe then Some(Permission)
        else if Clashes(old(View()), name) then Some(InvalidName)
        else None)
      ensures err.Some? ==> text == old(text)
      ensures err == None ==> text == Some(Print(codec, Stored(old(View()), name, NewRecord(name, value, meta))))
      ensures err == None ==>
        && name in View().entries && View().entries[name] == NewRecord(name, value, meta.Sanitized())
        && forall n :: n in old(View()).entries && n != name ==>
             n in View().entries && View().entries[n] == CleanRecord(old(View()).entries[n])
      ensures err == None && OthersKept(old(View())) ==>
        View() == Cleaned(old(View())).(
          entries := Cleaned(old(View())).entries[name := NewRecord(name, value, meta.Sanitized())])
    {
      hide Parse, Print, Cleaned, CleanRecord, OthersKept, Replays, RecordOk, Printable, Codec.Lawful, ValidName,
        EnvKey,
        NewRecord, NoNewline;
      if !ValidName(name) {
        return Some(InvalidName);
      }
      if |value| > MAX_VALUE_BYTES {
        return Some(TooLarge);
      }
      if !safe {
        return Some(Permission);
      }
      var f := Load();
      if exists n :: n in f.entries && n != name && EnvKey(n) == EnvKey(name) {
        return Some(InvalidName);
      }
      NewRecordHolds(name, value, meta);
      var g := Stored(f, name, NewRecord(name, value, meta));
      NewRecordOk(name, value, meta);
      PutView(codec, f, name, NewRecord(name, value, meta));
      Save(g);
      return None;
    }

    method Get(name: string) returns (r: Result<(string, Metadata), StorageError>)
      requires Valid()
      ensures r == (
        if !ValidName(name) then Failure(InvalidName)
        else if name !in View().entries then Failure(NotFound)
        else Success((View().entries[name].value, View().entries[name].entry.meta)))
    {
      if !ValidName(name) {
        return Failure(InvalidName);
      }
      var f := Load();
      if name !in f.entries {
        return Failure(NotFound);
      }
      return Success((f.entries[name].value, f.entries[name].entry.meta));
    }

    method Delete(name: string) returns (err: Option<StorageError>)
      requires Valid()
      modifies this
      ensures err == (
        if !ValidName(name) then Some(InvalidName)
        else if name !in old(View()).entries then Some(NotFound)
        else None)
      ensures err.Some? ==> text == old(text)
      ensures err == None ==> text == Some(Print(codec, Without(old(View()), name)))
      ensures err == None ==>
        forall n :: n in old(View()).entries && n != name ==>
          n in View().entries && View().entries[n] == CleanRecord(old(View()).entries[n])
      ensures err == None && OthersKept(old(View())) ==>
        View() == Cleaned(old(View())).(entries := Cleaned(old(View())).entries - {name})
    {
      hide Parse, Print, Cleaned, CleanRecord, OthersKept, Replays, RecordOk, Printable, Codec.Lawful, ValidName,
        EnvKey,
        NewRecord, NoNewline;
      if !ValidName(name) {
        return Some(InvalidName);
      }
      var f := Load();
      if name !in f.entries {
        return Some(NotFound);
      }
      var g := Without(f, name);
      DeleteView(codec, f, name);
      Save(g);
      return None;
    }
  }

  lemma NextLines(c: Codec, f: File, names: seq<string>)
    requires Named(f) && names != [] && forall n :: n in names ==> n in f.entries
    ensures Join(LinesOf(c, f, names)) == Join(EntryLines(c, f.entries[names[0]])) + Join(LinesOf(c, f, names[1..]))
  {
    JoinAppend(EntryLines(c, f.entries[names[0]]), LinesOf(c, f, names[1..]));
  }

  lemma NoLines(c: Codec, f: File)
    requires Named(f)
    ensures Join(LinesOf(c, f, [])) == ""
  {
  }

  lemma JoinTwo(a: string, b: string)
    ensures Join([a, b]) == a + "\n" + (b + "\n")
  {
    assert [a, b][1..] == [b] && [b][1..] == [];
    assert Join([b]) == b + "\n" + "" == b + "\n";
  }

  lemma CleanedOthers(f: File)
    ensures Cleaned(f).others == f.others
  {
  }

  /** A value that was stored is what a lookup returns, and so is its metadata. */
  method PutThenGet(d: Dotenv, name: string, value: string, meta: Metadata, safe: bool)
    returns (err: Option<StorageError>, r: Result<(string, Metadata), StorageError>)
    requires d.Valid() && IsBytes(value)
    modifies d
    ensures err == (
      if !ValidName(name) then Some(InvalidName)
      else if |value| > MAX_VALUE_BYTES then Some(TooLarge)
      else if !safe then Some(Permission)
      else if Clashes(old(d.View()), name) then Some(InvalidName)
      else None)
    ensures err.Some? ==> d.text == old(d.text)
    ensures err == None ==>
      r == Success((value, meta.Sanitized().(name := name, backend := "dotenv", sizeBytes := |value|)))
    ensures err == None && TextsValid(old(d.View())) ==>
      forall n :: n in old(d.View()).entries && n != name ==>
        n in d.View().entries && d.View().entries[n] == old(d.View()).entries[n]
    ensures err == None && TextsValid(old(d.View())) && OthersKept(old(d.View())) ==>
      && d.View().others == old(d.View()).others
      && d.View().entries - {name} == old(d.View()).entries - {name}
  {
    hide Parse, Print, Cleaned, CleanRecord, TextsValid, OthersKept, FileOk, Codec.Lawful, ValidName, NewRecord,
      Clashes;
    CleanedSame(d.codec, d.View());
    NewRecordHolds(name, value, meta.Sanitized());
    CleanedOthers(d.View());
    err := d.Put(name, value, meta, safe);
    r := d.Get(name);
  }
}
