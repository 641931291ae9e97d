/**
 * How the timer queue and the slots agree: every slot has exactly one removal timer, every
 * live slot one expiry timer, and nothing else is queued. Because the queue is in time order
 * and the grace period is positive, the expiry timer of a slot always leaves the queue before
 * its removal timer, so a removal only ever meets a tombstone.
 */
module Timers {
  import opened Slots
  import opened ExpiryHeap

  function ExpiryEntry(id: Id, d: Drop): Entry {
    Entry(d.expiresAt, id, false)
  }

  function RemovalEntry(id: Id, d: Drop, grace: int): Entry {
    Entry(d.expiresAt + grace, id, true)
  }

  function EntryFor(id: Id, remove: bool, d: Drop, grace: int): Entry {
    if remove then RemovalEntry(id, d, grace) else ExpiryEntry(id, d)
  }

  /** Every queued timer belongs to a slot, and is queued once. */
  ghost predicate Backed(q: multiset<Entry>, s: Slots, grace: int) {
    forall e :: e in q ==> q[e] == 1 && e.id in s && e == EntryFor(e.id, e.remove, s[e.id], grace)
  }

  ghost predicate Scheduled(q: multiset<Entry>, s: Slots, grace: int) {
    forall id :: id in s ==>
      && RemovalEntry(id, s[id], grace) in q
      && (s[id].Live() ==> ExpiryEntry(id, s[id]) in q)
  }

  ghost predicate TimersOk(h: seq<Entry>, s: Slots, grace: int) {
    && Heap(h)
    && Backed(multiset(h), s, grace)
    && Scheduled(multiset(h), s, grace)
  }

  /** A new slot gets both its timers. */
  lemma TimersAfterCreate(h: seq<Entry>, t: seq<Entry>, s: Slots, id: Id, d: Drop, grace: int)
    requires TimersOk(h, s, grace) && id !in s && Heap(t)
    requires multiset(t) == multiset(h) + multiset{ExpiryEntry(id, d)} + multiset{RemovalEntry(id, d, grace)}
    ensures TimersOk(t, s[id := d], grace)
  {
    var q, p := multiset(h), multiset(t);
    assert ExpiryEntry(id, d) !in q && RemovalEntry(id, d, grace) !in q;
    forall e | e in p ensures p[e] == 1 && e.id in s[id := d]
      && e == EntryFor(e.id, e.remove, s[id := d][e.id], grace) {
      if e.id != id {
        assert e in q;
      }
    }
  }

  /** A slot may stop being live, or stay as it is, without any timer moving. */
  lemma TimersAfterChange(h: seq<Entry>, s: Slots, id: Id, d: Drop, grace: int)
    requires TimersOk(h, s, grace) && id in s
    requires d.expiresAt == s[id].expiresAt && (d.Live() ==> s[id].Live())
    ensures TimersOk(h, s[id := d], grace)
  {
    var q, t := multiset(h), s[id := d];
    forall k | k in t ensures RemovalEntry(k, t[k], grace) in q && (t[k].Live() ==> ExpiryEntry(k, t[k]) in q) {
      assert RemovalEntry(k, t[k], grace) == RemovalEntry(k, s[k], grace);
      assert ExpiryEntry(k, t[k]) == ExpiryEntry(k, s[k]);
    }
    forall e | e in q ensures e.id in t && e == EntryFor(e.id, e.remove, t[e.id], grace) {
      assert EntryFor(e.id, e.remove, t[e.id], grace) == EntryFor(e.id, e.remove, s[e.id], grace);
    }
  }

  /** The first timer is a removal only if the expiry timer of its slot has gone before. */
  lemma RemovalMeetsTombstone(h: seq<Entry>, s: Slots, grace: int)
    requires TimersOk(h, s, grace) && grace > 0
    requires |h| > 0 && h[0].remove
    ensures h[0].id in s && ExpiryEntry(h[0].id, s[h[0].id]) !in multiset(h)
    ensures !s[h[0].id].Live()
  {
    var e := h[0];
    assert e in multiset(h);
    var x := ExpiryEntry(e.id, s[e.id]);
    FirstIsLeast(h);
    assert x in multiset(h) ==> x in h;
  }

  lemma BackedAfterRemoval(q: multiset<Entry>, p: multiset<Entry>, e: Entry, s: Slots, grace: int)
    requires Backed(q, s, grace) && q == p + multiset{e} && e.remove && e.id in s
    requires ExpiryEntry(e.id, s[e.id]) !in q
    ensures Backed(p, s - {e.id}, grace)
  {
    assert e in q && q[e] == 1;
    forall k | k in p
      ensures p[k] == 1 && k.id in s - {e.id} && k == EntryFor(k.id, k.remove, (s - {e.id})[k.id], grace)
    {
      assert k in q && q[k] == 1;
      assert k != e;
    }
  }

  lemma ScheduledAfterRemoval(q: multiset<Entry>, p: multiset<Entry>, e: Entry, s: Slots, grace: int)
    requires Scheduled(q, s, grace) && q == p + multiset{e} && e.id in s
    ensures Scheduled(p, s - {e.id}, grace)
  {
    var t := s - {e.id};
    forall id | id in t
      ensures RemovalEntry(id, t[id], grace) in p && (t[id].Live() ==> ExpiryEntry(id, t[id]) in p)
    {
      assert RemovalEntry(id, s[id], grace) in q;
      assert s[id].Live() ==> ExpiryEntry(id, s[id]) in q;
    }
  }

  /** Removing that slot with its last timer leaves queue and slots in agreement. */
  lemma TimersAfterRemoval(h: seq<Entry>, rest: seq<Entry>, s: Slots, grace: int)
    requires TimersOk(h, s, grace) && grace > 0
    requires |h| > 0 && Heap(rest) && multiset(h) == multiset(rest) + multiset{h[0]}
    requires h[0].remove
    ensures TimersOk(rest, s - {h[0].id}, grace)
  {
    hide Heap, Backed, Scheduled, ExpiryEntry, RemovalEntry;
    RemovalMeetsTombstone(h, s, grace);
    BackedAfterRemoval(multiset(h), multiset(rest), h[0], s, grace);
    ScheduledAfterRemoval(multiset(h), multiset(rest), h[0], s, grace);
  }

  /** After its expiry timer has gone, a slot must be a tombstone; d is what became of it. */
  lemma TimersAfterExpiry(h: seq<Entry>, rest: seq<Entry>, s: Slots, d: Drop, grace: int)
    requires TimersOk(h, s, grace)
    requires |h| > 0 && Heap(rest) && multiset(h) == multiset(rest) + multiset{h[0]}
    requires !h[0].remove && h[0].id in s
    requires d.expiresAt == s[h[0].id].expiresAt && !d.Live()
    ensures TimersOk(rest, s[h[0].id := d], grace)
  {
    var e, q, p := h[0], multiset(h), multiset(rest);
    var t := s[e.id := d];
    TimersAfterChange(h, s, e.id, d, grace);
    forall k | k in p ensures k in q && p[k] == 1 {
      assert k in q && q[k] == 1;
    }
    forall id | id in t ensures RemovalEntry(id, t[id], grace) in p && (t[id].Live() ==> ExpiryEntry(id, t[id]) in p) {
      assert RemovalEntry(id, t[id], grace) in q;
      assert t[id].Live() ==> ExpiryEntry(id, t[id]) in q;
    }
  }

  lemma FirstTimer(h: seq<Entry>, s: Slots, grace: int)
    requires TimersOk(h, s, grace) && |h| > 0
    ensures Heap(h) && h[0].id in s && h[0] == EntryFor(h[0].id, h[0].remove, s[h[0].id], grace)
  {
    assert h[0] in multiset(h);
  }

  /** Once nothing due is queued, nothing is overdue and nothing is stale. */
  lemma NothingDue(h: seq<Entry>, s: Slots, grace: int, now: int)
    requires TimersOk(h, s, grace)
    requires |h| > 0 ==> h[0].at > now
    ensures forall id :: id in s ==> s[id].expiresAt + grace > now
    ensures forall id :: id in s && s[id].Live() ==> s[id].expiresAt > now
  {
    if |h| > 0 {
      FirstIsLeast(h);
    }
    forall id | id in s ensures s[id].expiresAt + grace > now {
      assert RemovalEntry(id, s[id], grace) in h;
    }
    forall id | id in s && s[id].Live() ensures s[id].expiresAt > now {
      assert ExpiryEntry(id, s[id]) in h;
    }
  }
}
