/**
 * The redactor: replaces registered secret values and their encodings in text that is about
 * to leave the process. Text is a sequence of bytes, one char each. How the encodings of a
 * value are computed plays no part; they are what Add is given beside the value.
 */
module Redactor {
  import opened Prelude

  // ----- Occurrences and replacement -----

  predicate Occurs(s: string, f: string, i: nat) {
    i + |f| <= |s| && s[i..i + |f|] == f
  }

  lemma Slice(s: string, i: nat, j: nat, k: nat, l: nat)
    requires i <= j <= |s| && k <= l <= j - i
    ensures s[i..j][k..l] == s[i + k..i + l]
  {
    var a, b := s[i..j], s[i..j][k..l];
    forall x | 0 <= x < l - k
      ensures b[x] == s[i + k..i + l][x]
    {
      assert a[k + x] == s[i + k + x];
    }
  }

  ghost predicate Contains(s: string, f: string) {
    exists i: nat :: Occurs(s, f, i)
  }

  /** The leftmost occurrence of f in s. */
  function Index(s: string, f: string): (r: Option<nat>)
    ensures r.None? ==> !Contains(s, f)
    ensures r.Some? ==> Occurs(s, f, r.value) && forall i :: 0 <= i < r.value ==> !Occurs(s, f, i)
  {
    if Occurs(s, f, 0) then Some(0)
    else if s == "" then None
    else
      OccursLater(s, f);
      var r := Index(s[1..], f);
      if r.Some? then Some(r.value + 1) else None
  }

  lemma OccursLater(s: string, f: string)
    requires s != ""
    ensures forall i: nat :: 0 < i ==> (Occurs(s, f, i) <==> Occurs(s[1..], f, i - 1))
    ensures forall i: nat :: Occurs(s[1..], f, i) ==> Occurs(s, f, i + 1)
  {
    forall i: nat | 0 < i
      ensures Occurs(s, f, i) <==> Occurs(s[1..], f, i - 1)
    {
      if i + |f| <= |s| {
        Slice(s, 1, |s|, i - 1, i - 1 + |f|);
      }
    }
    forall i: nat | Occurs(s[1..], f, i)
      ensures Occurs(s, f, i + 1)
    {
      Slice(s, 1, |s|, i, i + |f|);
    }
  }

  /** Replaces every occurrence, from the left, none overlapping. */
  function ReplaceAll(s: string, f: string, m: string): string
    requires f != ""
  {
    var i := Index(s, f);
    if i.None? then s else s[..i.value] + m + ReplaceAll(s[i.value + |f|..], f, m)
  }

  lemma ReplaceNext(s: string, f: string, m: string, start: nat)
    requires f != "" && start <= |s|
    ensures
      var j := Index(s[start..], f);
      if j.None? then ReplaceAll(s[start..], f, m) == s[start..]
      else
        ReplaceAll(s[start..], f, m) == s[start..start + j.value] + m + ReplaceAll(s[start + j.value + |f|..], f, m)
  {
    hide Index, Occurs;
    var t := s[start..];
    var j := Index(t, f);
    if j.Some? {
      OccursWithin(t, f, j.value);
      Tail(s, start, j.value, j.value + |f|);
    }
  }

  lemma Tail(s: string, start: nat, i: nat, j: nat)
    requires start <= |s| && i <= j <= |s| - start
    ensures s[start..][..i] == s[start..start + i] && s[start..][j..] == s[start + j..]
  {
  }

  /** The loop that does it, copying up to each occurrence and going on behind it. */
  method Replace(s: string, f: string, m: string) returns (out: string)
    requires f != ""
    ensures out == ReplaceAll(s, f, m)
  {
    hide ReplaceAll, Index, Occurs;
    out := "";
    var start := 0;
    assert s[0..] == s;
    while true
      invariant start <= |s|
      invariant out + ReplaceAll(s[start..], f, m) == ReplaceAll(s, f, m)
      decreases |s| - start
    {
      ReplaceNext(s, f, m, start);
      var j := Index(s[start..], f);
      if j == None {
        out := out + s[start..];
        return;
      }
      OccursWithin(s[start..], f, j.value);
      var at := start + j.value;
      Regroup(out, s[start..at] + m, ReplaceAll(s[at + |f|..], f, m));
      out := out + (s[start..at] + m);
      start := at + |f|;
    }
  }

  lemma OccursWithin(s: string, f: string, i: nat)
    requires Occurs(s, f, i)
    ensures i + |f| <= |s|
  {
  }

  lemma ContainsPart(s: string, i: nat, j: nat, f: string)
    requires i <= j <= |s| && Contains(s[i..j], f)
    ensures Contains(s, f)
  {
    var k: nat :| Occurs(s[i..j], f, k);
    Slice(s, i, j, k, k + |f|);
    assert Occurs(s, f, i + k);
  }

  predicate BracketFree(f: string) {
    forall k :: 0 <= k < |f| ==> f[k] != '[' && f[k] != ']'
  }

  /** What has no bracket and occurs across a marker lies in front of it, inside it or behind it. */
  lemma AroundMarker(a: string, inner: string, b: string, f: string)
    requires f != "" && BracketFree(f) && Contains(a + ("[" + inner + "]") + b, f)
    ensures Contains(a, f) || Contains(inner, f) || Contains(b, f)
  {
    var s := a + ("[" + inner + "]") + b;
    var i: nat :| Occurs(s, f, i);
    var open, close := |a|, |a| + 1 + |inner|;
    assert s[open] == '[' && s[close] == ']';
    assert forall k :: i <= k < i + |f| ==> s[k] == f[k - i];
    assert forall k :: i <= k < i + |f| ==> s[k] != '[' && s[k] != ']';
    if i + |f| <= open {
      assert s[i..i + |f|] == a[i..i + |f|];
      assert Occurs(a, f, i);
    } else if i > close {
      assert s[i..i + |f|] == b[i - close - 1..i - close - 1 + |f|];
      assert Occurs(b, f, i - close - 1);
    } else if i > open && i + |f| <= close {
      assert s[i..i + |f|] == inner[i - open - 1..i - open - 1 + |f|];
      assert Occurs(inner, f, i - open - 1);
    } else {
      assert false;
    }
  }

  // ----- The rewrite -----

  datatype Form = Form(name: string, text: string)

  function Inner(name: string): string {
    "redacted:" + name
  }

  function Marker(name: string): string {
    "[" + Inner(name) + "]"
  }

  function RedactWith(f: Form, s: string): string
    requires f.text != ""
  {
    ReplaceAll(s, f.text, Marker(f.name))
  }

  ghost predicate NonEmpty(forms: seq<Form>) {
    forall f :: f in forms ==> f.text != ""
  }

  /** One pass after the other, in order. */
  ghost function RedactAll(forms: seq<Form>, s: string): string
    requires NonEmpty(forms)
  {
    if forms == [] then s else RedactAll(forms[1..], RedactWith(forms[0], s))
  }

  /** A marker never holds a form whose pass has been or is its own. */
  ghost predicate Separate(forms: seq<Form>) {
    && (forall f :: f in forms ==> BracketFree(f.text))
    && (forall i, j :: 0 <= i <= j < |forms| ==> !Contains(Inner(forms[j].name), forms[i].text))
  }

  /** A pass brings nothing bracket-free into the text that the marker does not hold; its own form goes. */
  lemma {:induction false} PassKeepsOut(f: Form, s: string, g: string)
    requires f.text != "" && g != "" && BracketFree(g) && !Contains(Inner(f.name), g)
    requires g == f.text || !Contains(s, g)
    ensures !Contains(RedactWith(f, s), g)
    decreases |s|
  {
    hide Contains, Index, Occurs, Inner;
    var i := Index(s, f.text);
    if i.Some? {
      OccursWithin(s, f.text, i.value);
      var a, rest := s[..i.value], s[i.value + |f.text|..];
      if g != f.text {
        NotInPart(s, 0, i.value, g);
        NotInPart(s, i.value + |f.text|, |s|, g);
      } else {
        NotBefore(s, g, i.value);
      }
      assert s[0..i.value] == a && s[i.value + |f.text|..|s|] == rest;
      PassKeepsOut(f, rest, g);
      if Contains(RedactWith(f, s), g) {
        AroundMarker(a, Inner(f.name), RedactWith(f, rest), g);
      }
    }
  }

  lemma NotInPart(s: string, i: nat, j: nat, f: string)
    requires i <= j <= |s| && !Contains(s, f)
    ensures !Contains(s[i..j], f)
  {
    if Contains(s[i..j], f) {
      ContainsPart(s, i, j, f);
    }
  }

  /** The text in front of the leftmost occurrence has none. */
  lemma NotBefore(s: string, f: string, i: nat)
    requires f != "" && i <= |s| && forall k :: 0 <= k < i ==> !Occurs(s, f, k)
    ensures !Contains(s[..i], f)
  {
    forall k: nat
      ensures !Occurs(s[..i], f, k)
    {
      if Occurs(s[..i], f, k) {
        Slice(s, 0, i, k, k + |f|);
        assert s[0..i] == s[..i];
        assert Occurs(s, f, k);
      }
    }
  }

  lemma {:induction false} PassesKeepOut(forms: seq<Form>, s: string, g: string)
    requires NonEmpty(forms) && g != "" && BracketFree(g) && !Contains(s, g)
    requires forall f :: f in forms ==> !Contains(Inner(f.name), g)
    ensures !Contains(RedactAll(forms, s), g)
  {
    if forms != [] {
      PassKeepsOut(forms[0], s, g);
      PassesKeepOut(forms[1..], RedactWith(forms[0], s), g);
    }
  }

  /** No registered form survives. */
  lemma {:induction false} NothingSurvives(forms: seq<Form>, s: string)
    requires NonEmpty(forms) && Separate(forms)
    ensures forall f :: f in forms ==> !Contains(RedactAll(forms, s), f.text)
  {
    if forms != [] {
      var f, rest := forms[0], forms[1..];
      var t := RedactWith(f, s);
      PassKeepsOut(f, s, f.text);
      forall h | h in rest ensures !Contains(Inner(h.name), f.text) {
        var j :| 0 <= j < |rest| && rest[j] == h;
        assert forms[j + 1] == h;
      }
      PassesKeepOut(rest, t, f.text);
      assert forall i :: 0 <= i < |rest| ==> rest[i] == forms[i + 1];
      NothingSurvives(rest, t);
    }
  }

  /** Text without any form is left alone. */
  lemma {:induction false} CleanTextUnchanged(forms: seq<Form>, s: string)
    requires NonEmpty(forms) && forall f :: f in forms ==> !Contains(s, f.text)
    ensures RedactAll(forms, s) == s
  {
    if forms != [] {
      CleanTextUnchanged(forms[1..], s);
    }
  }

  lemma RedactIsIdempotent(forms: seq<Form>, s: string)
    requires NonEmpty(forms) && Separate(forms)
    ensures RedactAll(forms, RedactAll(forms, s)) == RedactAll(forms, s)
  {
    NothingSurvives(forms, s);
    CleanTextUnchanged(forms, RedactAll(forms, s));
  }

  /** For one form without brackets, that it is not part of its own marker is also necessary. */
  lemma OneFormSurvives(f: Form)
    requires f.text != "" && BracketFree(f.text)
    ensures (forall s :: !Contains(RedactAll([f], s), f.text)) <==> !Contains(Inner(f.name), f.text)
  {
    if Contains(Inner(f.name), f.text) {
      AloneBecomesMarker(f);
      var m := Marker(f.name);
      assert m[1..|m| - 1] == Inner(f.name);
      ContainsPart(m, 1, |m| - 1, f.text);
      assert RedactAll([f], f.text) == m;
    } else {
      forall s ensures !Contains(RedactAll([f], s), f.text) {
        NothingSurvives([f], s);
        assert f in [f];
      }
    }
  }

  lemma AloneBecomesMarker(f: Form)
    requires f.text != ""
    ensures RedactWith(f, f.text) == Marker(f.name)
  {
    assert Occurs(f.text, f.text, 0);
    assert f.text[|f.text|..] == "";
    assert ReplaceAll("", f.text, Marker(f.name)) == "";
  }

  /** Around the one occurrence of a form everything stays, and in its place is its name. */
  lemma OneOccurrence(f: Form, a: string, b: string)
    requires f.text != "" && !Contains(b, f.text)
    requires forall k :: 0 <= k < |a| ==> !Occurs(a + f.text + b, f.text, k)
    ensures RedactWith(f, a + f.text + b) == a + "[redacted:" + f.name + "]" + b
  {
    var s := a + f.text + b;
    assert s[|a|..|a| + |f.text|] == f.text && s[..|a|] == a && s[|a| + |f.text|..] == b;
    assert Occurs(s, f.text, |a|);
    assert Index(s, f.text) == Some(|a|);
    assert ReplaceAll(b, f.text, Marker(f.name)) == b;
    assert Marker(f.name) == "[redacted:" + f.name + "]";
  }

  /** A form with a bracket can survive although no marker holds it: a later marker completes it. */
  lemma BracketsCanSurvive()
    ensures
      var forms := [Form("n", "z[redac"), Form("n", "secret")];
      && !Contains(Inner("n"), "z[redac") && !Contains(Inner("n"), "secret")
      && RedactAll(forms, "zsecret") == "z[redacted:n]" && Contains("z[redacted:n]", "z[redac")
  {
    hide Index, Occurs, ReplaceAll, Contains;
    var f, g := Form("n", "z[redac"), Form("n", "secret");
    assert Inner("n") == "redacted:n";
    NoFirst("redacted:n", f.text);
    NoFirst("redacted:n", g.text);
    NoBracket();
    LeadingThenForm();
    Completed();
    assert Marker("n") == "[redacted:n]";
    assert [f, g][1..] == [g] && [g][1..] == [];
    assert RedactAll([f, g], "zsecret") == RedactAll([g], RedactWith(f, "zsecret"));
    assert RedactAll([g], "zsecret") == RedactAll([], RedactWith(g, "zsecret"));
  }

  lemma Completed()
    ensures Contains("z[redacted:n]", "z[redac")
  {
    assert Occurs("z[redacted:n]", "z[redac", 0);
  }

  lemma NoFirst(s: string, f: string)
    requires f != ""
    requires forall i: nat :: i + |f| <= |s| ==> s[i] != f[0]
    ensures !Contains(s, f)
  {
    forall i: nat
      ensures !Occurs(s, f, i)
    {
      if Occurs(s, f, i) {
        FirstOf(s, f, i);
        assert false;
      }
    }
  }

  lemma FirstOf(s: string, f: string, i: nat)
    requires f != "" && Occurs(s, f, i)
    ensures s[i] == f[0]
  {
    assert s[i..i + |f|][0] == s[i];
  }

  lemma NoBracket()
    ensures ReplaceAll("zsecret", "z[redac", "[redacted:n]") == "zsecret"
  {
    assert "zsecret"[0..7][1] == 's';
    assert Index("zsecret", "z[redac") == None;
  }

  lemma LeadingThenForm()
    ensures ReplaceAll("zsecret", "secret", "[redacted:n]") == "z[redacted:n]"
  {
    assert "zsecret"[0..6][0] == 'z' && "zsecret"[1..] == "secret";
    assert "secret"[0..6] == "secret";
    assert Index("secret", "secret") == Some(0);
    assert Index("zsecret", "secret") == Some(1);
    assert "zsecret"[7..] == "" && "zsecret"[..1] == "z";
    assert ReplaceAll("", "secret", "[redacted:n]") == "";
  }

  // ----- The exact condition for a list of forms -----

  /** No form is left in a text. */
  ghost predicate Free(forms: seq<Form>, s: string) {
    forall f :: f in forms ==> !Contains(s, f.text)
  }

  predicate Bracket(c: char) {
    c == '[' || c == ']'
  }

  /** Around a bracket a text without brackets occurs in front of it or behind it. */
  lemma OccursAround(a: string, c: char, b: string, f: string, i: nat)
    requires f != "" && BracketFree(f) && Bracket(c)
    ensures Occurs(a + [c] + b, f, i) <==> Occurs(a, f, i) || (i > |a| && Occurs(b, f, i - |a| - 1))
  {
    var s := a + [c] + b;
    assert s[|a|] == c;
    if Occurs(s, f, i) {
      assert forall k :: i <= k < i + |f| ==> s[k] == f[k - i];
      assert !(i <= |a| < i + |f|);
    }
    if i + |f| <= |a| {
      assert s[i..i + |f|] == a[i..i + |f|];
    } else if i > |a| && i + |f| <= |s| {
      assert s[i..i + |f|] == b[i - |a| - 1..i - |a| - 1 + |f|];
    }
  }

  lemma ContainsAround(a: string, c: char, b: string, f: string)
    requires f != "" && BracketFree(f) && Bracket(c)
    ensures Contains(a + [c] + b, f) <==> Contains(a, f) || Contains(b, f)
  {
    hide Occurs;
    var s := a + [c] + b;
    if i: nat :| Occurs(s, f, i) {
      OccursAround(a, c, b, f, i);
    }
    if i: nat :| Occurs(a, f, i) {
      OccursAround(a, c, b, f, i);
    }
    if i: nat :| Occurs(b, f, i) {
      OccursAround(a, c, b, f, |a| + 1 + i);
      assert Occurs(s, f, |a| + 1 + i);
    }
  }

  lemma FreeAround(forms: seq<Form>, a: string, c: char, b: string)
    requires NonEmpty(forms) && Bracket(c) && forall f :: f in forms ==> BracketFree(f.text)
    ensures Free(forms, a + [c] + b) <==> Free(forms, a) && Free(forms, b)
  {
    hide Contains;
    forall f | f in forms
      ensures Contains(a + [c] + b, f.text) <==> Contains(a, f.text) || Contains(b, f.text)
    {
      ContainsAround(a, c, b, f.text);
    }
  }

  /** Where the leftmost occurrence is, across a bracket. */
  lemma IndexAround(a: string, c: char, b: string, f: string)
    requires f != "" && BracketFree(f) && Bracket(c)
    ensures Index(a, f).Some? ==> Index(a + [c] + b, f).Some? && Index(a + [c] + b, f).value == Index(a, f).value
    ensures Index(a, f).None? && Index(b, f).Some? ==>
      Index(a + [c] + b, f).Some? && Index(a + [c] + b, f).value == |a| + 1 + Index(b, f).value
    ensures Index(a, f).None? && Index(b, f).None? ==> Index(a + [c] + b, f).None?
  {
    hide Occurs, Index, Contains, BracketFree, Bracket;
    if Index(a, f).Some? {
      FoundInFront(a, c, b, f);
    } else if Index(b, f).Some? {
      LeftmostBehind(a + [c] + b, a, c, b, f, Index(b, f).value);
    } else {
      Nowhere(a, c, b, f);
    }
  }

  lemma FoundInFront(a: string, c: char, b: string, f: string)
    requires f != "" && BracketFree(f) && Bracket(c) && Index(a, f).Some?
    ensures Index(a + [c] + b, f) == Index(a, f)
  {
    hide Occurs, Index, BracketFree;
    LeftmostAround(a, c, b, f, Index(a, f).value);
    IndexIs(a + [c] + b, f, Index(a, f).value);
  }

  lemma NotInFront(a: string, f: string)
    requires !Contains(a, f)
    ensures forall x: nat :: !Occurs(a, f, x)
  {
    forall x: nat
      ensures !Occurs(a, f, x)
    {
    }
  }

  lemma LeftmostBehind(s: string, a: string, c: char, b: string, f: string, j: nat)
    requires f != "" && BracketFree(f) && Bracket(c) && s == a + [c] + b
    requires !Contains(a, f) && Occurs(b, f, j) && forall x :: 0 <= x < j ==> !Occurs(b, f, x)
    ensures Index(s, f).Some? && Index(s, f).value == |a| + 1 + j
  {
    hide Occurs, Index, BracketFree;
    NotInFront(a, f);
    OccursAround(a, c, b, f, |a| + 1 + j);
    forall x: nat | x < |a| + 1 + j
      ensures !Occurs(s, f, x)
    {
      OccursAround(a, c, b, f, x);
    }
    IndexIs(s, f, |a| + 1 + j);
  }

  lemma Nowhere(a: string, c: char, b: string, f: string)
    requires f != "" && BracketFree(f) && Bracket(c) && !Contains(a, f) && !Contains(b, f)
    ensures Index(a + [c] + b, f) == None
  {
    hide Index, Contains;
    ContainsAround(a, c, b, f);
    IndexFound(a + [c] + b, f);
  }

  lemma LeftmostAround(a: string, c: char, b: string, f: string, j: nat)
    requires f != "" && BracketFree(f) && Bracket(c)
    requires Occurs(a, f, j) && forall x :: 0 <= x < j ==> !Occurs(a, f, x)
    ensures Occurs(a + [c] + b, f, j) && forall x :: 0 <= x < j ==> !Occurs(a + [c] + b, f, x)
  {
    hide Occurs;
    OccursWithin(a, f, j);
    forall x: nat | x <= j
      ensures Occurs(a + [c] + b, f, x) <==> Occurs(a, f, x)
    {
      OccursAround(a, c, b, f, x);
    }
  }

  lemma IndexIs(s: string, f: string, i: nat)
    requires Occurs(s, f, i) && forall x :: 0 <= x < i ==> !Occurs(s, f, x)
    ensures Index(s, f).Some? && Index(s, f).value == i
  {
    hide Occurs, Index;
    var r := Index(s, f);
    assert r.Some? by {
      assert Contains(s, f);
    }
  }

  /** Replacement works on either side of a bracket by itself. */
  lemma {:induction false} ReplaceAround(a: string, c: char, b: string, f: string, m: string)
    requires f != "" && BracketFree(f) && Bracket(c)
    ensures ReplaceAll(a + [c] + b, f, m) == ReplaceAll(a, f, m) + [c] + ReplaceAll(b, f, m)
    decreases |a|
  {
    hide Index, Occurs, BracketFree, ReplaceAll;
    IndexAround(a, c, b, f);
    Unfolded(a, f, m);
    Unfolded(b, f, m);
    Unfolded(a + [c] + b, f, m);
    var j, k := Index(a, f), Index(b, f);
    if j.Some? {
      OccursWithin(a, f, j.value);
      CutFront(a, c, b, j.value, |f|);
      ReplaceAround(a[j.value + |f|..], c, b, f, m);
      Regroup(a[..j.value] + m, ReplaceAll(a[j.value + |f|..], f, m), [c]);
      Regroup(a[..j.value] + m, ReplaceAll(a[j.value + |f|..], f, m) + [c], ReplaceAll(b, f, m));
    } else if k.Some? {
      OccursWithin(b, f, k.value);
      CutBack(a, c, b, k.value, |f|);
      Regroup(a + [c], b[..k.value], m);
      Regroup(a + [c], b[..k.value] + m, ReplaceAll(b[k.value + |f|..], f, m));
    }
  }

  lemma CutFront(a: string, c: char, b: string, i: nat, n: nat)
    requires i + n <= |a|
    ensures (a + [c] + b)[..i] == a[..i] && (a + [c] + b)[i + n..] == a[i + n..] + [c] + b
  {
  }

  lemma CutBack(a: string, c: char, b: string, i: nat, n: nat)
    requires i + n <= |b|
    ensures (a + [c] + b)[..|a| + 1 + i] == a + [c] + b[..i] && (a + [c] + b)[|a| + 1 + i + n..] == b[i + n..]
  {
  }

  lemma {:induction false} RedactAround(forms: seq<Form>, a: string, c: char, b: string)
    requires NonEmpty(forms) && Bracket(c) && forall f :: f in forms ==> BracketFree(f.text)
    ensures RedactAll(forms, a + [c] + b) == RedactAll(forms, a) + [c] + RedactAll(forms, b)
  {
    if forms != [] {
      var f := forms[0];
      ReplaceAround(a, c, b, f.text, Marker(f.name));
      RedactAround(forms[1..], RedactWith(f, a), c, RedactWith(f, b));
    }
  }

  /** Longest first, no text twice, no brackets. */
  ghost predicate Plain(forms: seq<Form>) {
    Registered(forms) && forall f :: f in forms ==> BracketFree(f.text)
  }

  /** A form becomes what the later passes make of its marker: no earlier pass touches it. */
  lemma FormBecomes(forms: seq<Form>, i: nat)
    requires Plain(forms) && i < |forms| && NonEmpty(forms[i..]) && NonEmpty(forms[i + 1..])
    ensures RedactAll(forms[i..], forms[i].text) == "[" + RedactAll(forms[i + 1..], Inner(forms[i].name)) + "]"
    ensures forall j :: i < j < |forms| ==>
      RedactAll(forms[i..], forms[j].text) == RedactAll(forms[i + 1..], forms[j].text)
  {
    hide ReplaceAll, Index, Occurs, Contains;
    var f, rest := forms[i], forms[i + 1..];
    assert forms[i..][0] == f && forms[i..][1..] == rest;
    AloneBecomesMarker(f);
    MarkerBecomes(rest, Inner(f.name));
    forall j | i < j < |forms|
      ensures RedactAll(forms[i..], forms[j].text) == RedactAll(rest, forms[j].text)
    {
      NotInAnother(forms[j].text, f.text);
      ReplaceFirst(forms[j].text, f.text, Marker(f.name));
      IndexFound(forms[j].text, f.text);
    }
  }

  lemma IndexFound(s: string, f: string)
    ensures Index(s, f).Some? ==> Contains(s, f)
  {
  }

  lemma Alone(s: string)
    ensures "" + ("[" + s + "]") + "" == "[" + s + "]" == "" + ['['] + (s + [']'] + "")
  {
  }

  /** The brackets of a marker stay, and what is between them is redacted by itself. */
  lemma MarkerBecomes(forms: seq<Form>, inner: string)
    requires NonEmpty(forms) && forall f :: f in forms ==> BracketFree(f.text)
    ensures RedactAll(forms, "[" + inner + "]") == "[" + RedactAll(forms, inner) + "]"
  {
    hide RedactAll;
    MarkerBetween(forms, forms, "", inner, "");
    NothingFromNothing(forms);
    Alone(inner);
    Alone(RedactAll(forms, inner));
  }

  lemma {:induction false} NothingFromNothing(forms: seq<Form>)
    requires NonEmpty(forms)
    ensures RedactAll(forms, "") == ""
  {
    if forms != [] {
      NothingFromNothing(forms[1..]);
    }
  }

  /** A bracket-free text without the earlier forms comes out of the later passes free, if the later forms do. */
  lemma {:induction false} PlainTextFree(forms: seq<Form>, i: nat, t: string)
    requires Plain(forms) && NonEmpty(forms) && i <= |forms| && NonEmpty(forms[i..])
    requires BracketFree(t) && forall k :: 0 <= k < i ==> !Contains(t, forms[k].text)
    requires forall j :: i <= j < |forms| ==> Free(forms, RedactAll(forms[i..], forms[j].text))
    ensures Free(forms, RedactAll(forms[i..], t))
    decreases |forms| - i, |t|
  {
    hide Contains, Index, Occurs, ReplaceAll, Registered;
    if i == |forms| {
      assert forms[i..] == [];
    } else {
      var f, rest := forms[i], forms[i + 1..];
      assert forms[i..][0] == f && forms[i..][1..] == rest;
      assert NonEmpty(rest);
      FormBecomes(forms, i);
      ReplaceFirst(t, f.text, Marker(f.name));
      var at := Index(t, f.text);
      if at == None {
        PlainTextFree(forms, i + 1, t);
      } else {
        var a, b := t[..at.value], t[at.value + |f.text|..];
        PieceOf(forms, i, t, a, b, at.value, f.text);
        PlainTextFree(forms, i + 1, a);
        PlainTextFree(forms, i, b);
        MarkerBetween(forms, rest, a, Inner(f.name), RedactWith(f, b));
        MarkerFree(forms, RedactAll(rest, Inner(f.name)));
        Around(forms, RedactAll(rest, a), RedactAll(rest, Inner(f.name)), RedactAll(rest, RedactWith(f, b)));
      }
    }
  }

  /** One occurrence replaced, and the rest. */
  lemma ReplaceFirst(t: string, f: string, m: string)
    requires f != ""
    ensures
      var i := Index(t, f);
      if i.None? then ReplaceAll(t, f, m) == t && !Contains(t, f)
      else i.value + |f| <= |t| && ReplaceAll(t, f, m) == t[..i.value] + m + ReplaceAll(t[i.value + |f|..], f, m)
           && !Contains(t[..i.value], f)
  {
    hide Occurs, Contains, Index, ReplaceAll;
    var i := Index(t, f);
    Unfolded(t, f, m);
    if i.Some? {
      OccursWithin(t, f, i.value);
      NotBefore(t, f, i.value);
    }
  }

  lemma Unfolded(t: string, f: string, m: string)
    requires f != ""
    ensures
      var i := Index(t, f);
      ReplaceAll(t, f, m) == if i.None? then t else t[..i.value] + m + ReplaceAll(t[i.value + |f|..], f, m)
  {
    hide Index, Occurs;
  }

  lemma PieceOf(forms: seq<Form>, i: nat, t: string, a: string, b: string, at: nat, f: string)
    requires i < |forms| && at + |f| <= |t| && a == t[..at] && b == t[at + |f|..] && forms[i].text == f
    requires BracketFree(t) && !Contains(a, f) && forall k :: 0 <= k < i ==> !Contains(t, forms[k].text)
    ensures BracketFree(a) && BracketFree(b)
    ensures forall k :: 0 <= k < i + 1 ==> !Contains(a, forms[k].text)
    ensures forall k :: 0 <= k < i ==> !Contains(b, forms[k].text)
  {
    hide Contains;
    assert t[0..at] == a && t[at + |f|..|t|] == b;
    forall k | 0 <= k < i
      ensures !Contains(a, forms[k].text) && !Contains(b, forms[k].text)
    {
      NotInPart(t, 0, at, forms[k].text);
      NotInPart(t, at + |f|, |t|, forms[k].text);
    }
  }

  lemma MarkerBetween(forms: seq<Form>, rest: seq<Form>, a: string, inner: string, b: string)
    requires NonEmpty(rest) && forall f :: f in rest ==> BracketFree(f.text)
    ensures RedactAll(rest, a + ("[" + inner + "]") + b) == RedactAll(rest, a) + ['[']
      + (RedactAll(rest, inner) + [']'] + RedactAll(rest, b))
  {
    assert a + ("[" + inner + "]") + b == a + ['['] + (inner + [']'] + b);
    RedactAround(rest, a, '[', inner + [']'] + b);
    RedactAround(rest, inner, ']', b);
  }

  lemma MarkerFree(forms: seq<Form>, inner: string)
    requires NonEmpty(forms) && (forall f :: f in forms ==> BracketFree(f.text)) && Free(forms, "[" + inner + "]")
    ensures Free(forms, inner)
  {
    hide Contains;
    assert "[" + inner + "]" == "" + ['['] + (inner + [']'] + "");
    FreeAround(forms, "", '[', inner + [']'] + "");
    FreeAround(forms, inner, ']', "");
  }

  lemma Around(forms: seq<Form>, a: string, inner: string, b: string)
    requires NonEmpty(forms) && forall f :: f in forms ==> BracketFree(f.text)
    requires Free(forms, a) && Free(forms, inner) && Free(forms, b)
    ensures Free(forms, a + ['['] + (inner + [']'] + b))
  {
    hide Contains;
    FreeAround(forms, inner, ']', b);
    FreeAround(forms, a, '[', inner + [']'] + b);
  }

  function FirstBracket(s: string): (n: nat)
    ensures n <= |s| && (n < |s| ==> Bracket(s[n])) && BracketFree(s[..n])
  {
    if s == "" || Bracket(s[0]) then 0
    else
      assert s[..FirstBracket(s[1..]) + 1] == [s[0]] + s[1..][..FirstBracket(s[1..])];
      FirstBracket(s[1..]) + 1
  }

  lemma {:induction false} AnyTextFree(forms: seq<Form>, s: string)
    requires Plain(forms) && NonEmpty(forms) && forall g :: g in forms ==> Free(forms, RedactAll(forms, g.text))
    ensures Free(forms, RedactAll(forms, s))
    decreases |s|
  {
    hide Contains, Registered, RedactAll, Free;
    var n := FirstBracket(s);
    assert forms[0..] == forms;
    PlainTextFree(forms, 0, s[..n]);
    if n == |s| {
      assert s[..n] == s;
    } else {
      assert s == s[..n] + [s[n]] + s[n + 1..];
      AnyTextFree(forms, s[n + 1..]);
      RedactAround(forms, s[..n], s[n], s[n + 1..]);
      FreeAround(forms, RedactAll(forms, s[..n]), s[n], RedactAll(forms, s[n + 1..]));
    }
  }

  /**
   * The exact condition for a registered list without brackets: no form survives in any text
   * if and only if none survives in what becomes of the forms themselves.
   */
  lemma NothingSurvivesIff(forms: seq<Form>)
    requires Plain(forms) && NonEmpty(forms)
    ensures (forall s :: Free(forms, RedactAll(forms, s)))
      <==> (forall g :: g in forms ==> Free(forms, RedactAll(forms, g.text)))
  {
    if forall g :: g in forms ==> Free(forms, RedactAll(forms, g.text)) {
      forall s
        ensures Free(forms, RedactAll(forms, s))
      {
        AnyTextFree(forms, s);
      }
    }
  }

  // ----- The registered forms -----

  const MIN_REDACT_LEN := 6

  ghost function Texts(forms: seq<Form>): set<string> {
    set f | f in forms :: f.text
  }

  /** What Add appends: the candidates long enough and not registered yet, each once. */
  ghost function Unseen(seen: set<string>, name: string, candidates: seq<string>): seq<Form>
    decreases |candidates|
  {
    if candidates == [] then []
    else
      var c := candidates[0];
      if |c| < MIN_REDACT_LEN || c in seen then Unseen(seen, name, candidates[1..])
      else [Form(name, c)] + Unseen(seen + {c}, name, candidates[1..])
  }

  /** Longest first. */
  ghost predicate Sorted(forms: seq<Form>) {
    forall i, j :: 0 <= i < j < |forms| ==> |forms[i].text| >= |forms[j].text|
  }

  ghost predicate Distinct(forms: seq<Form>) {
    forall i, j :: 0 <= i < j < |forms| ==> forms[i].text != forms[j].text
  }

  ghost predicate LongEnough(forms: seq<Form>) {
    forall f :: f in forms ==> |f.text| >= MIN_REDACT_LEN
  }

  /** Puts a form behind every form at least as long. */
  function Place(forms: seq<Form>, f: Form): seq<Form> {
    if forms == [] || |forms[|forms| - 1].text| >= |f.text| then forms + [f]
    else Place(forms[..|forms| - 1], f) + [forms[|forms| - 1]]
  }

  /** The stable sort, longest first. */
  function SortLongest(forms: seq<Form>): seq<Form> {
    if forms == [] then []
    else Place(SortLongest(forms[..|forms| - 1]), forms[|forms| - 1])
  }

  lemma {:induction false} PlaceHolds(forms: seq<Form>, f: Form)
    ensures multiset(Place(forms, f)) == multiset(forms) + multiset{f}
  {
    if forms != [] {
      var last, front := forms[|forms| - 1], forms[..|forms| - 1];
      assert front + [last] == forms;
      PlaceHolds(front, f);
    }
  }

  lemma Holding(forms: seq<Form>, f: Form)
    ensures forall g :: g in Place(forms, f) <==> g in forms || g == f
  {
    PlaceHolds(forms, f);
    forall g
      ensures g in Place(forms, f) <==> g in forms || g == f
    {
      assert g in Place(forms, f) <==> g in multiset(Place(forms, f));
      assert g in forms <==> g in multiset(forms);
    }
  }

  lemma {:induction false} PlaceSorts(forms: seq<Form>, f: Form)
    requires Sorted(forms)
    ensures Sorted(Place(forms, f))
  {
    if forms != [] && |forms[|forms| - 1].text| < |f.text| {
      var last, front := forms[|forms| - 1], forms[..|forms| - 1];
      PlaceSorts(front, f);
      Holding(front, f);
      var placed := Place(front, f);
      forall i | 0 <= i < |placed|
        ensures |placed[i].text| >= |last.text|
      {
        assert placed[i] in placed;
      }
    }
  }

  lemma {:induction false} PlaceDistinct(forms: seq<Form>, f: Form)
    requires Distinct(forms) && f.text !in Texts(forms)
    ensures Distinct(Place(forms, f))
  {
    if forms != [] {
      var last, front := forms[|forms| - 1], forms[..|forms| - 1];
      forall g | g in forms
        ensures g.text != f.text
      {
        assert g.text in Texts(forms);
      }
      if |last.text| < |f.text| {
        assert f.text !in Texts(front);
        PlaceDistinct(front, f);
        Holding(front, f);
        var placed := Place(front, f);
        forall i | 0 <= i < |placed|
          ensures placed[i].text != last.text
        {
          assert placed[i] in placed;
        }
      }
    }
  }

  lemma {:induction false} SortLongestSorts(forms: seq<Form>)
    ensures Sorted(SortLongest(forms)) && multiset(SortLongest(forms)) == multiset(forms)
    ensures forall g :: g in SortLongest(forms) <==> g in forms
  {
    if forms != [] {
      var last, front := forms[|forms| - 1], forms[..|forms| - 1];
      assert front + [last] == forms;
      SortLongestSorts(front);
      PlaceSorts(SortLongest(front), last);
      PlaceHolds(SortLongest(front), last);
      Holding(SortLongest(front), last);
    }
  }

  lemma {:induction false} SortLongestDistinct(forms: seq<Form>)
    requires Distinct(forms)
    ensures Distinct(SortLongest(forms))
  {
    if forms != [] {
      var front := forms[..|forms| - 1];
      SortLongestDistinct(front);
      SortLongestSorts(front);
      PlaceDistinct(SortLongest(front), forms[|forms| - 1]);
    }
  }

  /** The forms of one length, in order. */
  function OfLength(forms: seq<Form>, n: nat): seq<Form> {
    if forms == [] then []
    else
      var last := forms[|forms| - 1];
      OfLength(forms[..|forms| - 1], n) + (if |last.text| == n then [last] else [])
  }

  lemma {:induction false} OfLengthPlace(forms: seq<Form>, f: Form, n: nat)
    requires Sorted(forms)
    ensures OfLength(Place(forms, f), n) == OfLength(forms, n) + (if |f.text| == n then [f] else [])
  {
    if forms == [] || |forms[|forms| - 1].text| >= |f.text| {
      assert (forms + [f])[..|forms|] == forms;
    } else {
      var last, front := forms[|forms| - 1], forms[..|forms| - 1];
      OfLengthPlace(front, f, n);
      assert (Place(front, f) + [last])[..|Place(front, f)|] == Place(front, f);
    }
  }

  /** Forms of equal length keep the order in which they came. */
  lemma {:induction false} SortLongestIsStable(forms: seq<Form>, n: nat)
    ensures OfLength(SortLongest(forms), n) == OfLength(forms, n)
  {
    if forms != [] {
      var front := forms[..|forms| - 1];
      SortLongestIsStable(front, n);
      SortLongestSorts(front);
      OfLengthPlace(SortLongest(front), forms[|forms| - 1], n);
    }
  }

  /** New forms carry the name, and are exactly the long candidates that were not registered. */
  lemma {:induction false} UnseenForms(seen: set<string>, name: string, candidates: seq<string>)
    ensures var u := Unseen(seen, name, candidates);
      && LongEnough(u) && Distinct(u)
      && (forall f :: f in u ==> f.name == name)
      && (forall t :: t in Texts(u) <==> t in candidates && |t| >= MIN_REDACT_LEN && t !in seen)
    decreases |candidates|
  {
    if candidates != [] {
      var c, rest := candidates[0], candidates[1..];
      assert forall t :: t in candidates <==> t == c || t in rest;
      if |c| < MIN_REDACT_LEN || c in seen {
        UnseenForms(seen, name, rest);
      } else {
        UnseenForms(seen + {c}, name, rest);
        var u := Unseen(seen + {c}, name, rest);
        TextsAppend([Form(name, c)], u);
        assert Texts([Form(name, c)]) == {c};
        forall i | 0 <= i < |u|
          ensures u[i].text != c
        {
          assert u[i].text in Texts(u);
        }
      }
    }
  }

  lemma TextsAppend(a: seq<Form>, b: seq<Form>)
    ensures Texts(a + b) == Texts(a) + Texts(b)
  {
    assert forall f :: f in a + b <==> f in a || f in b;
  }

  lemma DistinctAppend(a: seq<Form>, b: seq<Form>)
    requires Distinct(a) && Distinct(b) && Texts(a) !! Texts(b)
    ensures Distinct(a + b)
  {
    forall i, j | 0 <= i < |a| && 0 <= j < |b|
      ensures a[i].text != b[j].text
    {
      assert a[i].text in Texts(a) && b[j].text in Texts(b);
    }
  }

  /** The forms under any other name, in order. */
  function Without(forms: seq<Form>, name: string): seq<Form> {
    if forms == [] then []
    else
      var last := forms[|forms| - 1];
      Without(forms[..|forms| - 1], name) + (if last.name != name then [last] else [])
  }

  lemma {:induction false} WithoutHolds(forms: seq<Form>, name: string)
    ensures forall f :: f in Without(forms, name) <==> f in forms && f.name != name
  {
    if forms != [] {
      var last, front := forms[|forms| - 1], forms[..|forms| - 1];
      assert front + [last] == forms;
      WithoutHolds(front, name);
    }
  }

  lemma {:induction false} WithoutForms(forms: seq<Form>, name: string)
    ensures forall f :: f in Without(forms, name) <==> f in forms && f.name != name
    ensures Sorted(forms) ==> Sorted(Without(forms, name))
    ensures Distinct(forms) ==> Distinct(Without(forms, name))
  {
    WithoutHolds(forms, name);
    if forms != [] {
      var front := forms[..|forms| - 1];
      WithoutHolds(front, name);
      WithoutForms(front, name);
      var w := Without(front, name);
      forall i | 0 <= i < |w|
        ensures w[i] in front
      {
        assert w[i] in w;
      }
    }
  }

  /** What Add makes of the forms there are. */
  ghost function Added(forms: seq<Form>, name: string, value: string, encoded: seq<string>): seq<Form> {
    if |value| < MIN_REDACT_LEN then forms
    else SortLongest(forms + Unseen(Texts(forms), name, [value] + encoded))
  }

  ghost predicate Registered(forms: seq<Form>) {
    Sorted(forms) && Distinct(forms) && LongEnough(forms)
  }

  /** After Add, every long candidate is registered; what was registered stays, under its old name. */
  lemma AddedForms(forms: seq<Form>, name: string, value: string, encoded: seq<string>)
    requires Registered(forms) && |value| >= MIN_REDACT_LEN
    ensures var after := Added(forms, name, value, encoded);
      && Registered(after)
      && (forall t :: t in Texts(after) <==> t in Texts(forms) || (t in [value] + encoded && |t| >= MIN_REDACT_LEN))
      && (forall f :: f in after && f.text in Texts(forms) <==> f in forms)
      && (forall f :: f in after && f.text !in Texts(forms) ==> f.name == name)
  {
    var u := Unseen(Texts(forms), name, [value] + encoded);
    UnseenForms(Texts(forms), name, [value] + encoded);
    TextsAppend(forms, u);
    DistinctAppend(forms, u);
    SortLongestSorts(forms + u);
    SortLongestDistinct(forms + u);
    assert Texts(SortLongest(forms + u)) == Texts(forms + u);
    forall f | f in u
      ensures f.text !in Texts(forms)
    {
      assert f.text in Texts(u);
    }
  }

  /** Values of less than six bytes are not registered, longer ones are, with each encoding that is as long. */
  lemma AddExactly(forms: seq<Form>, name: string, value: string, encoded: seq<string>)
    requires Registered(forms)
    ensures |value| <= 5 ==> Added(forms, name, value, encoded) == forms
    ensures |value| >= 6 ==>
      var after := Added(forms, name, value, encoded);
      && value in Texts(after)
      && forall f :: f in after <==>
        f in forms || (f.name == name && f.text !in Texts(forms) && f.text in [value] + encoded && |f.text| >= 6)
  {
    if |value| >= 6 {
      AddedForms(forms, name, value, encoded);
      var after := Added(forms, name, value, encoded);
      forall f: Form | f in forms
        || (f.name == name && f.text !in Texts(forms) && f.text in [value] + encoded && |f.text| >= 6)
        ensures f in after
      {
        assert f.text in Texts(after);
      }
      assert value in [value] + encoded;
    }
  }

  /**
   * A value registered under a second name is kept under the first one only. Removing the
   * first name forgets it: of the second name's forms exactly those survive that the first
   * had not registered before.
   */
  lemma RemoveForgetsShared(forms: seq<Form>, name: string, value: string, encoded: seq<string>, other: string,
      t: string)
    requires Registered(forms) && |value| >= MIN_REDACT_LEN && other != name
    requires t in [value] + encoded && |t| >= MIN_REDACT_LEN
    ensures t in Texts(Without(Added(forms, name, value, encoded), other)) <==> Form(other, t) !in forms
  {
    var after := Added(forms, name, value, encoded);
    AddedForms(forms, name, value, encoded);
    WithoutForms(after, other);
    assert t in Texts(after);
    var f :| f in after && f.text == t;
    OneForm(after, f);
    assert f in Without(after, other) <==> f.name != other;
    assert forall g :: g in Without(after, other) && g.text == t ==> g == f;
    assert Form(other, t) in forms ==> t in Texts(forms) && Form(other, t) in after;
    assert f.name == other ==> f in forms;
  }

  lemma OneForm(forms: seq<Form>, f: Form)
    requires Distinct(forms) && f in forms
    ensures forall g :: g in forms && g.text == f.text ==> g == f
  {
  }

  /** A registered value on its own becomes its own marker, not pieces around that of a shorter form. */
  lemma {:induction false} WholeValueRedacted(forms: seq<Form>, j: nat)
    requires Registered(forms) && j < |forms|
    requires forall k :: j < k < |forms| ==> !Contains(Marker(forms[j].name), forms[k].text)
    ensures RedactAll(forms, forms[j].text) == Marker(forms[j].name)
  {
    var rest := forms[1..];
    assert forall k :: 0 <= k < |rest| ==> rest[k] == forms[k + 1];
    if j == 0 {
      AloneBecomesMarker(forms[0]);
      CleanTextUnchanged(rest, Marker(forms[0].name));
    } else {
      NotInAnother(forms[j].text, forms[0].text);
      WholeValueRedacted(rest, j - 1);
    }
  }

  lemma NotInAnother(s: string, f: string)
    requires |f| >= |s| && f != s
    ensures !Contains(s, f)
  {
    assert s[0..|s|] == s;
    forall i: nat
      ensures !Occurs(s, f, i)
    {
    }
  }

  class Redactor {
    var forms: seq<Form>

    ghost predicate Valid()
      reads this
    {
      Registered(forms)
    }

    constructor ()
      ensures Valid() && forms == []
    {
      forms := [];
    }

    /** Registers a value under a name, with the encodings of the value the caller works out. */
    method Add(name: string, value: string, encoded: seq<string>)
      requires Valid()
      modifies this
      ensures Valid()
      ensures forms == Added(old(forms), name, value, encoded)
      ensures |value| >= MIN_REDACT_LEN ==> value in Texts(forms)
    {
      hide Sorted, Distinct, LongEnough, SortLongest, Unseen, Texts;
      if |value| < MIN_REDACT_LEN {
        return;
      }
      AddedForms(forms, name, value, encoded);
      NoTexts(forms);
      ghost var was := forms;
      var seen := {};
      for i := 0 to |forms|
        invariant forms == was && seen == Texts(forms[..i])
      {
        TextsAppend(forms[..i], [forms[i]]);
        OneText(forms[i]);
        assert forms[..i] + [forms[i]] == forms[..i + 1];
        seen := seen + {forms[i].text};
      }
      assert forms[..|forms|] == forms;
      var candidates := [value] + encoded;
      assert candidates[0..] == candidates;
      for i := 0 to |candidates|
        invariant forms + Unseen(seen, name, candidates[i..]) == was + Unseen(Texts(was), name, candidates)
      {
        var f := candidates[i];
        assert candidates[i..][0] == f && candidates[i..][1..] == candidates[i + 1..];
        UnseenNext(seen, name, candidates[i..]);
        if |f| < MIN_REDACT_LEN || f in seen {
          continue;
        }
        seen := seen + {f};
        Regroup(forms, [Form(name, f)], Unseen(seen, name, candidates[i + 1..]));
        forms := forms + [Form(name, f)];
      }
      AllUnseen(seen, name, candidates);
      assert forms + [] == forms;
      forms := SortLongest(forms);
    }

    /** Forgets every form registered under a name. */
    method Remove(name: string)
      requires Valid()
      modifies this
      ensures Valid() && forms == Without(old(forms), name)
    {
      WithoutForms(forms, name);
      var kept := [];
      for i := 0 to |forms|
        invariant kept == Without(forms[..i], name)
      {
        assert forms[..i + 1][..i] == forms[..i];
        if forms[i].name != name {
          kept := kept + [forms[i]];
        }
      }
      assert forms[..|forms|] == forms;
      forms := kept;
    }

    /** The text with every known form replaced by the marker of its name. */
    method Redact(s: string) returns (out: string)
      requires Valid()
      ensures NonEmpty(forms) && out == RedactAll(forms, s)
      ensures Separate(forms) ==> forall f :: f in forms ==> !Contains(out, f.text)
    {
      hide Index, Occurs, Separate, Sorted, Distinct;
      if Separate(forms) {
        NothingSurvives(forms, s);
      }
      if |forms| == 0 || s == "" {
        NothingInNothing(forms);
        return s;
      }
      out := s;
      assert forms[0..] == forms;
      for i := 0 to |forms|
        invariant RedactAll(forms[i..], out) == RedactAll(forms, s)
      {
        var f := forms[i];
        assert forms[i..][0] == f && forms[i..][1..] == forms[i + 1..];
        if Index(out, f.text) != None {
          out := Replace(out, f.text, Marker(f.name));
        }
      }
    }
  }

  lemma NoTexts(forms: seq<Form>)
    ensures Texts(forms[..0]) == {}
  {
  }

  lemma OneText(f: Form)
    ensures Texts([f]) == {f.text}
  {
  }

  lemma UnseenNext(seen: set<string>, name: string, candidates: seq<string>)
    requires candidates != []
    ensures
      var c := candidates[0];
      Unseen(seen, name, candidates) ==
        if |c| < MIN_REDACT_LEN || c in seen then Unseen(seen, name, candidates[1..])
        else [Form(name, c)] + Unseen(seen + {c}, name, candidates[1..])
  {
  }

  lemma AllUnseen(seen: set<string>, name: string, candidates: seq<string>)
    ensures Unseen(seen, name, candidates[|candidates|..]) == []
  {
  }

  lemma NothingInNothing(forms: seq<Form>)
    requires LongEnough(forms)
    ensures RedactAll(forms, "") == ""
  {
    CleanTextUnchanged(forms, "");
  }
}
