/**
 * UTF-8 as Go reads it. A string is a sequence of bytes, one char each; what does not decode
 * is read one byte at a time and written back as U+FFFD.
 */
module Utf8 {
  /** How many bytes a rune beginning with c has; 0 if none does. */
  function Need(c: char): (n: nat)
    ensures n <= 4
  {
    if c < 0x80 as char then 1
    else if 0xC2 as char <= c <= 0xDF as char then 2
    else if 0xE0 as char <= c <= 0xEF as char then 3
    else if 0xF0 as char <= c <= 0xF4 as char then 4
    else 0
  }

  /** The second byte of a rune: overlong forms, surrogates and runes past U+10FFFF are out. */
  predicate Second(c: char, d: char) {
    && (if c == 0xE0 as char then 0xA0 as char else if c == 0xF0 as char then 0x90 as char else 0x80 as char) <= d
    && d <= if c == 0xED as char then 0x9F as char else if c == 0xF4 as char then 0x8F as char else 0xBF as char
  }

  predicate Continues(d: char) {
    0x80 as char <= d <= 0xBF as char
  }

  /** The length of the rune s begins with; 0 if it begins with none. */
  function RuneLength(s: string): (n: nat)
    ensures n <= |s| && n <= 4
  {
    if s == "" || |s| < Need(s[0]) then 0
    else if Need(s[0]) >= 2 && !Second(s[0], s[1]) then 0
    else if Need(s[0]) >= 3 && !Continues(s[2]) then 0
    else if Need(s[0]) == 4 && !Continues(s[3]) then 0
    else Need(s[0])
  }

  /** A rune is told from its own bytes. */
  lemma RuneLengthPrefix(s: string, rest: string)
    requires RuneLength(s) == |s| && s != ""
    ensures RuneLength(s + rest) == |s|
  {
  }

  lemma RuneLengthTake(s: string)
    ensures RuneLength(s[..RuneLength(s)]) == RuneLength(s)
  {
  }

  predicate Valid(s: string) {
    s == "" || (RuneLength(s) > 0 && Valid(s[RuneLength(s)..]))
  }

  const REPLACEMENT: string := [0xEF as char, 0xBF as char, 0xBD as char]

  /** The first rune of s as it is written back, and how many bytes it took. */
  function First(s: string): (r: (string, nat))
    requires s != ""
    ensures 1 <= r.1 <= |s|
  {
    if RuneLength(s) == 0 then (REPLACEMENT, 1) else (s[..RuneLength(s)], RuneLength(s))
  }

  /** s read rune by rune and written back. */
  function Sanitize(s: string): string {
    if s == "" then "" else First(s).0 + Sanitize(s[First(s).1..])
  }

  lemma {:induction false} SanitizeSame(s: string)
    requires Valid(s)
    ensures Sanitize(s) == s
  {
    if s != "" {
      SanitizeSame(s[RuneLength(s)..]);
    }
  }

  lemma {:induction false} SanitizeValid(s: string)
    ensures Valid(Sanitize(s))
  {
    if s != "" {
      var r := First(s);
      SanitizeValid(s[r.1..]);
      FirstIsRune(s);
      RuneLengthPrefix(r.0, Sanitize(s[r.1..]));
      assert Sanitize(s)[|r.0|..] == Sanitize(s[r.1..]);
    }
  }

  lemma FirstIsRune(s: string)
    requires s != ""
    ensures RuneLength(First(s).0) == |First(s).0| > 0
  {
    RuneLengthTake(s);
  }

  /** Writing a text back changes nothing exactly if it is valid. */
  lemma SanitizeFixed(s: string)
    ensures Sanitize(s) == s <==> Valid(s)
    ensures Sanitize(Sanitize(s)) == Sanitize(s) && Valid(Sanitize(s))
  {
    SanitizeValid(s);
    SanitizeSame(Sanitize(s));
    if Valid(s) {
      SanitizeSame(s);
    }
  }

  /** A byte that begins no rune is written back as U+FFFD. */
  lemma SanitizeBadByte(c: char)
    requires Need(c) == 0
    ensures Sanitize([c]) == REPLACEMENT
  {
    assert First([c]) == (REPLACEMENT, 1);
    assert [c][1..] == "" && Sanitize("") == "";
    assert REPLACEMENT + "" == REPLACEMENT;
  }

  predicate Ascii(s: string) {
    forall k :: 0 <= k < |s| ==> s[k] < 0x80 as char
  }

  lemma {:induction false} AsciiValid(s: string)
    requires Ascii(s)
    ensures Valid(s)
  {
    if s != "" {
      AsciiValid(s[1..]);
    }
  }

  // ----- Putting texts together and taking them apart -----

  lemma {:induction false} ValidAppend(a: string, b: string)
    requires Valid(a) && Valid(b)
    ensures Valid(a + b)
  {
    if a == "" {
      assert a + b == b;
    } else {
      var n := RuneLength(a);
      assert a == a[..n] + a[n..] && a + b == a[..n] + (a[n..] + b);
      RuneLengthTake(a);
      RuneLengthPrefix(a[..n], a[n..] + b);
      assert (a + b)[n..] == a[n..] + b;
      ValidAppend(a[n..], b);
    }
  }

  /** A rune ends in front of an ASCII byte. */
  lemma RuneBefore(a: string, b: string)
    requires a != "" && RuneLength(a + b) > 0 && (b == "" || b[0] < 0x80 as char)
    ensures RuneLength(a + b) <= |a| && RuneLength(a) == RuneLength(a + b)
  {
    var s := a + b;
    assert b != "" ==> s[|a|] == b[0];
    assert forall k :: 1 <= k < RuneLength(s) ==> s[k] >= 0x80 as char;
  }

  /** A text that is cut in front of an ASCII byte is two texts. */
  lemma {:induction false} ValidCut(a: string, b: string)
    requires Valid(a + b) && (b == "" || b[0] < 0x80 as char)
    ensures Valid(a) && Valid(b)
  {
    if a == "" {
      assert a + b == b;
    } else {
      RuneBefore(a, b);
      var n := RuneLength(a);
      assert (a + b)[n..] == a[n..] + b;
      ValidCut(a[n..], b);
    }
  }

  lemma {:induction false} ValidAfterAscii(a: string, b: string)
    requires Ascii(a) && Valid(a + b)
    ensures Valid(b)
  {
    if a == "" {
      assert a + b == b;
    } else {
      assert (a + b)[1..] == a[1..] + b;
      ValidAfterAscii(a[1..], b);
    }
  }

  // ----- Runes as numbers -----

  /** A Unicode scalar value: no surrogates. */
  predicate Scalar(r: int) {
    0 <= r < 0xD800 || 0xE000 <= r <= 0x10FFFF
  }

  function Tail(v: nat): char {
    (0x80 + v % 64) as char
  }

  /** The UTF-8 form of a scalar value (RFC 3629 section 3). */
  function EncodeRune(r: nat): string
    requires Scalar(r)
  {
    if r < 0x80 then [r as char]
    else if r < 0x800 then [(0xC0 + r / 64) as char, Tail(r)]
    else if r < 0x1_0000 then [(0xE0 + r / 4096) as char, Tail(r / 64), Tail(r)]
    else [(0xF0 + r / 262144) as char, Tail(r / 4096), Tail(r / 64), Tail(r)]
  }

  /** The scalar value of the rune s begins with. */
  function Rune(s: string): int
    requires RuneLength(s) > 0
  {
    var n := RuneLength(s);
    if n == 1 then s[0] as int
    else if n == 2 then (s[0] as int - 0xC0) * 64 + (s[1] as int - 0x80)
    else if n == 3 then (s[0] as int - 0xE0) * 4096 + (s[1] as int - 0x80) * 64 + (s[2] as int - 0x80)
    else (s[0] as int - 0xF0) * 262144 + (s[1] as int - 0x80) * 4096 + (s[2] as int - 0x80) * 64 + (s[3] as int - 0x80)
  }

  /** What is read as a rune is the form of one scalar value. */
  lemma RuneIsEncoded(s: string)
    requires RuneLength(s) > 0
    ensures Scalar(Rune(s)) && EncodeRune(Rune(s)) == s[..RuneLength(s)]
  {
    var n, r := RuneLength(s), Rune(s);
    if n == 2 {
      Quotient(s[0] as int - 0xC0, s[1] as int - 0x80);
    } else if n == 3 {
      ThreeBytes(s);
    } else if n == 4 {
      FourBytes(s);
    }
  }

  lemma Quotient(q: nat, d: nat)
    requires d < 64
    ensures (q * 64 + d) / 64 == q && (q * 64 + d) % 64 == d
  {
  }

  lemma ThreeBytes(s: string)
    requires RuneLength(s) == 3
    ensures Scalar(Rune(s)) && EncodeRune(Rune(s)) == s[..3]
  {
    var a, b, c := s[0] as int - 0xE0, s[1] as int - 0x80, s[2] as int - 0x80;
    assert Rune(s) == (a * 64 + b) * 64 + c;
    Quotient(a, b);
    Quotient(a * 64 + b, c);
    Quotients(Rune(s));
  }

  lemma FourBytes(s: string)
    requires RuneLength(s) == 4
    ensures Scalar(Rune(s)) && EncodeRune(Rune(s)) == s[..4]
  {
    var a, b, c, d := s[0] as int - 0xF0, s[1] as int - 0x80, s[2] as int - 0x80, s[3] as int - 0x80;
    assert Rune(s) == ((a * 64 + b) * 64 + c) * 64 + d;
    Quotient(a, b);
    Quotient(a * 64 + b, c);
    Quotient((a * 64 + b) * 64 + c, d);
    Quotients(Rune(s));
  }

  lemma Quotients(r: nat)
    ensures r / 4096 == r / 64 / 64 && r / 262144 == r / 64 / 64 / 64
  {
  }

  /** And every scalar value's form is read as that rune. */
  lemma EncodedIsRune(r: nat)
    requires Scalar(r)
    ensures RuneLength(EncodeRune(r)) == |EncodeRune(r)| > 0 && Rune(EncodeRune(r)) == r
  {
    if r >= 0x1_0000 {
      LongRune(r);
    } else {
      Quotients(r);
    }
  }

  lemma LongRune(r: nat)
    requires 0x1_0000 <= r <= 0x10FFFF
    ensures RuneLength(EncodeRune(r)) == |EncodeRune(r)| == 4 && Rune(EncodeRune(r)) == r
  {
    Quotients(r);
  }
}
