/**
 * The timer queue of the memory store: a binary min-heap in a slice, ordered by time, with
 * the sift-up and sift-down that container/heap runs on it.
 */
module ExpiryHeap {
  import opened Slots

  /** Schedules the expiry of a live slot, or the removal of a tombstone. */
  datatype Entry = Entry(at: int, id: Id, remove: bool)

  function Parent(i: nat): nat
    requires i > 0
  {
    (i - 1) / 2
  }

  ghost predicate Heap(h: seq<Entry>) {
    forall i :: 0 < i < |h| ==> h[Parent(i)].at <= h[i].at
  }

  /** The first entry is due no later than any other. */
  lemma {:induction false} RootIsLeast(h: seq<Entry>, i: nat)
    requires Heap(h) && i < |h|
    ensures h[0].at <= h[i].at
  {
    if i > 0 {
      RootIsLeast(h, Parent(i));
    }
  }

  lemma FirstIsLeast(h: seq<Entry>)
    requires Heap(h) && |h| > 0
    ensures forall e :: e in h ==> h[0].at <= e.at
  {
    forall i | 0 <= i < |h| ensures h[0].at <= h[i].at {
      RootIsLeast(h, i);
    }
  }

  function Swap(h: seq<Entry>, i: nat, j: nat): (s: seq<Entry>)
    requires i < |h| && j < |h|
    ensures |s| == |h| && multiset(s) == multiset(h)
  {
    var s := h[i := h[j]][j := h[i]];
    SwapSame(h, i, j);
    s
  }

  lemma SwapSame(h: seq<Entry>, i: nat, j: nat)
    requires i < |h| && j < |h|
    ensures multiset(h[i := h[j]][j := h[i]]) == multiset(h)
  {
  }

  /** A heap but for the edge from i to its parent; i's children respect i's parent. */
  ghost predicate HeapButUp(h: seq<Entry>, i: nat) {
    && (forall k :: 0 < k < |h| && k != i ==> h[Parent(k)].at <= h[k].at)
    && (forall k :: 0 < k < |h| && Parent(k) == i && i > 0 ==> h[Parent(i)].at <= h[k].at)
  }

  lemma SiftUp(h: seq<Entry>, j: nat)
    requires 0 < j < |h| && HeapButUp(h, j) && h[j].at < h[Parent(j)].at
    ensures HeapButUp(Swap(h, Parent(j), j), Parent(j))
  {
    var i := Parent(j);
    var s := Swap(h, i, j);
    forall k | 0 < k < |s| && k != i ensures s[Parent(k)].at <= s[k].at {
      if k != j && Parent(k) == i {
        assert h[i].at <= h[k].at;
      }
    }
  }

  method Push(h: seq<Entry>, e: Entry) returns (s: seq<Entry>)
    requires Heap(h)
    ensures Heap(s) && multiset(s) == multiset(h) + multiset{e}
  {
    s := h + [e];
    var j := |s| - 1;
    while j > 0 && s[j].at < s[Parent(j)].at
      invariant 0 <= j < |s|
      invariant multiset(s) == multiset(h) + multiset{e}
      invariant HeapButUp(s, j)
    {
      SiftUp(s, j);
      s := Swap(s, Parent(j), j);
      j := Parent(j);
    }
  }

  /** A heap but for the edges from i to its children; those respect i's parent. */
  ghost predicate HeapButDown(h: seq<Entry>, n: nat, i: nat)
    requires n <= |h|
  {
    && (forall k :: 0 < k < n && Parent(k) != i ==> h[Parent(k)].at <= h[k].at)
    && (forall k :: 0 < k < n && Parent(k) == i && i > 0 ==> h[Parent(i)].at <= h[k].at)
  }

  /** j is the child of i that sifting down continues with. */
  ghost predicate LesserChild(h: seq<Entry>, n: nat, i: nat, j: nat)
    requires n <= |h|
  {
    i < j < n && Parent(j) == i && forall k :: 0 < k < n && Parent(k) == i ==> h[j].at <= h[k].at
  }

  lemma SiftDown(h: seq<Entry>, n: nat, i: nat, j: nat)
    requires n <= |h| && HeapButDown(h, n, i) && LesserChild(h, n, i, j)
    requires h[j].at < h[i].at
    ensures HeapButDown(Swap(h, i, j), n, j)
  {
  }

  lemma SiftedDown(h: seq<Entry>, n: nat, i: nat)
    requires n <= |h| && HeapButDown(h, n, i)
    requires forall k :: 0 < k < n && Parent(k) == i ==> h[i].at <= h[k].at
    ensures Heap(h[..n])
  {
  }

  lemma RootSwapped(h: seq<Entry>)
    requires Heap(h) && |h| > 0
    ensures HeapButDown(Swap(h, 0, |h| - 1), |h| - 1, 0)
  {
  }

  /** The lesser child of i, if i has children below n. */
  method PickChild(h: seq<Entry>, n: nat, i: nat) returns (j: nat)
    requires n <= |h|
    ensures j >= n ==> forall k :: 0 < k < n ==> Parent(k) != i
    ensures j < n ==> LesserChild(h, n, i, j)
  {
    j := 2 * i + 1;
    if j + 1 < n && h[j + 1].at < h[j].at {
      j := j + 1;
    }
  }

  /** Sifts the first entry of h[..n] down to where it belongs. */
  method Down(h: seq<Entry>, n: nat) returns (s: seq<Entry>)
    requires n <= |h| && HeapButDown(h, n, 0)
    ensures |s| == |h| && Heap(s[..n]) && multiset(s) == multiset(h)
    ensures s[n..] == h[n..]
  {
    s := h;
    var i: nat := 0;
    var sifting := true;
    while sifting
      invariant |s| == |h| && multiset(s) == multiset(h)
      invariant s[n..] == h[n..]
      invariant HeapButDown(s, n, i)
      invariant !sifting ==> Heap(s[..n])
      decreases sifting, n - i
    {
      var j := PickChild(s, n, i);
      if j < n && s[j].at < s[i].at {
        SiftDown(s, n, i, j);
        SwapAbove(s, n, i, j);
        s := Swap(s, i, j);
        i := j;
      } else {
        SiftedDown(s, n, i);
        sifting := false;
      }
    }
  }

  lemma SwapAbove(h: seq<Entry>, n: nat, i: nat, j: nat)
    requires i < n && j < n <= |h|
    ensures Swap(h, i, j)[n..] == h[n..]
  {
  }

  lemma CutLast(s: seq<Entry>)
    requires |s| > 0
    ensures multiset(s) == multiset(s[..|s| - 1]) + multiset{s[|s| - 1]}
  {
    assert s == s[..|s| - 1] + [s[|s| - 1]];
  }

  /** Takes the first entry: swap it to the end, sift down the one that took its place, cut the end off. */
  method Pop(h: seq<Entry>) returns (s: seq<Entry>, e: Entry)
    requires Heap(h) && |h| > 0
    ensures e == h[0]
    ensures Heap(s) && multiset(h) == multiset(s) + multiset{e}
  {
    var n := |h| - 1;
    RootSwapped(h);
    var t := Swap(h, 0, n);
    s := Down(t, n);
    assert s[n..][0] == t[n..][0];
    e := s[n];
    CutLast(s);
    s := s[..n];
  }
}
