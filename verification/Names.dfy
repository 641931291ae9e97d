/** Names in the order Go sorts strings: byte by byte, a prefix first. */
module Names {
  predicate Less(a: string, b: string) {
    if b == "" then false
    else if a == "" then true
    else a[0] < b[0] || (a[0] == b[0] && Less(a[1..], b[1..]))
  }

  lemma {:induction false} LessTrans(a: string, b: string, c: string)
    requires Less(a, b) && Less(b, c)
    ensures Less(a, c)
    decreases |a|
  {
    if a != "" && a[0] == b[0] == c[0] {
      LessTrans(a[1..], b[1..], c[1..]);
    }
  }

  lemma {:induction false} LessTotal(a: string, b: string)
    ensures Less(a, b) || Less(b, a) || a == b
    ensures !(Less(a, b) && Less(b, a))
    ensures !Less(a, a)
    decreases |a|
  {
    if a != "" {
      LessTotal(a[1..], a[1..]);
    }
    if a != "" && b != "" && a[0] == b[0] {
      LessTotal(a[1..], b[1..]);
      assert a == [a[0]] + a[1..] && b == [b[0]] + b[1..];
    }
  }

  /** The first difference decides; a text comes before those it begins. */
  lemma {:induction false} LessExactly(a: string, b: string)
    ensures
      Less(a, b) <==> exists k: nat :: k <= |a| && k < |b| && Same(a, b, k) && (k == |a| || a[k] < b[k])
    decreases |a|
  {
    if a != "" && b != "" && a[0] == b[0] {
      LessExactly(a[1..], b[1..]);
      forall k: nat | k < |a| && k < |b|
        ensures Same(a, b, k + 1) <==> Same(a[1..], b[1..], k)
      {
        SameNext(a, b, k);
      }
      var c, d := a[1..], b[1..];
      if k: nat :| k <= |c| && k < |d| && Same(c, d, k) && (k == |c| || c[k] < d[k]) {
        SameNext(a, b, k);
        assert Same(a, b, k + 1);
      }
      if k: nat :| k <= |a| && k < |b| && Same(a, b, k) && (k == |a| || a[k] < b[k]) {
        assert k > 0;
        SameNext(a, b, k - 1);
        assert Same(a[1..], b[1..], k - 1);
      }
    } else if b != "" && (a == "" || a[0] < b[0]) {
      assert Same(a, b, 0);
    }
  }

  /** Equal up to k. */
  predicate Same(a: string, b: string, k: nat) {
    k <= |a| && k <= |b| && forall i :: 0 <= i < k ==> a[i] == b[i]
  }

  lemma SameNext(a: string, b: string, k: nat)
    requires a != "" && b != "" && a[0] == b[0]
    ensures Same(a, b, k + 1) <==> Same(a[1..], b[1..], k)
  {
    if Same(a[1..], b[1..], k) {
      forall i | 0 <= i < k + 1
        ensures a[i] == b[i]
      {
        if i > 0 {
          assert a[i] == a[1..][i - 1] && b[i] == b[1..][i - 1];
        }
      }
    }
  }

  ghost predicate Increasing(s: seq<string>) {
    forall i, j :: 0 <= i < j < |s| ==> Less(s[i], s[j])
  }

  ghost function Elements(s: seq<string>): set<string> {
    set n | n in s
  }

  ghost predicate IsLeast(m: string, names: set<string>) {
    m in names && forall n :: n in names && n != m ==> Less(m, n)
  }

  lemma LeastExists(names: set<string>)
    requires names != {}
    ensures exists m :: IsLeast(m, names)
    decreases |names|
  {
    var a :| a in names;
    if names == {a} {
      assert IsLeast(a, names);
    } else {
      var rest := names - {a};
      assert names == rest + {a};
      LeastExists(rest);
      var m :| IsLeast(m, rest);
      LessTotal(a, m);
      if Less(a, m) {
        forall n | n in names && n != a
          ensures Less(a, n)
        {
          if n != m {
            LessTrans(a, m, n);
          }
        }
        assert IsLeast(a, names);
      } else {
        assert IsLeast(m, names);
      }
    }
  }

  /** The names in increasing order. */
  ghost function Sorted(names: set<string>): seq<string>
    decreases |names|
  {
    if names == {} then []
    else
      LeastExists(names);
      var m :| IsLeast(m, names);
      [m] + Sorted(names - {m})
  }

  lemma SortedStep(names: set<string>)
    requires names != {}
    ensures
      var s := Sorted(names);
      s != [] && IsLeast(s[0], names) && s[1..] == Sorted(names - {s[0]})
  {
    LeastExists(names);
  }

  lemma {:induction false} SortedNames(names: set<string>)
    ensures Increasing(Sorted(names)) && Elements(Sorted(names)) == names
    decreases |names|
  {
    hide Less, Sorted;
    if names != {} {
      SortedStep(names);
      var s := Sorted(names);
      var m, rest := s[0], s[1..];
      SortedNames(names - {m});
      assert s == [m] + rest;
      forall j | 0 <= j < |rest|
        ensures Less(m, rest[j])
      {
        assert rest[j] in Elements(rest);
      }
      forall n
        ensures n in s <==> n in names
      {
        assert n in s <==> n == m || n in rest;
        assert n in rest <==> n in Elements(rest);
      }
    } else {
      NoNames();
    }
  }

  lemma NoNames()
    ensures Sorted({}) == []
  {
  }

  /** There is only one increasing sequence of given names. */
  lemma {:induction false} IncreasingIsSorted(s: seq<string>)
    requires Increasing(s)
    ensures s == Sorted(Elements(s))
    decreases |s|
  {
    if s == [] {
      assert Elements(s) == {};
    } else {
      var m := s[0];
      assert m in Elements(s);
      LeastExists(Elements(s));
      var k := Sorted(Elements(s))[0];
      assert IsLeast(k, Elements(s));
      LessTotal(m, k);
      assert m == k;
      LessTotal(m, m);
      assert Elements(s[1..]) == Elements(s) - {m};
      IncreasingIsSorted(s[1..]);
    }
  }

  /** Sorts the names of a set. */
  method Sort(names: set<string>) returns (s: seq<string>)
    ensures s == Sorted(names)
  {
    var rest := names;
    s := [];
    while rest != {}
      invariant s + Sorted(rest) == Sorted(names)
      decreases |rest|
    {
      var m := Least(rest);
      OnlyLeast(rest, m);
      assert s + Sorted(rest) == (s + [m]) + Sorted(rest - {m});
      s := s + [m];
      rest := rest - {m};
    }
  }

  lemma OnlyLeast(names: set<string>, m: string)
    requires IsLeast(m, names)
    ensures Sorted(names) == [m] + Sorted(names - {m})
  {
    var k := Sorted(names)[0];
    assert IsLeast(k, names);
    LessTotal(m, k);
  }

  method Least(names: set<string>) returns (m: string)
    requires names != {}
    ensures IsLeast(m, names)
  {
    m :| m in names;
    var rest := names - {m};
    while rest != {}
      invariant m in names && m !in rest && rest <= names
      invariant forall n :: n in names && n !in rest && n != m ==> Less(m, n)
      decreases |rest|
    {
      var a :| a in rest;
      LessTotal(a, m);
      ghost var was := m;
      if Less(a, m) {
        forall n | n in names && n !in rest && n != was
          ensures Less(a, n)
        {
          LessTrans(a, was, n);
        }
        m := a;
      }
      rest := rest - {a};
    }
  }
}
