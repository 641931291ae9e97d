/** A sweep under way: both stores expire and remove one slot at a time. */
module SweepProgress {
  import opened Slots

  /** How far a sweep of slots `was` is, at slots s: what it has expired and what it has removed. */
  ghost predicate Sweeping(o: Options, was: Slots, s: Slots, expired: set<Id>, removed: set<Id>, now: int) {
    && expired <= Overdue(was, now) && removed <= Stale(o, was, now)
    && s.Keys == was.Keys - removed
    && (forall id :: id in s ==> s[id] == if id in expired then was[id].Expire() else was[id])
    && (forall id :: id in removed && was[id].Live() ==> id in expired)
  }

  lemma SweepStarts(o: Options, s: Slots, now: int)
    ensures Sweeping(o, s, s, {}, {}, now)
  {
  }

  lemma SweepRemoves(o: Options, was: Slots, s: Slots, expired: set<Id>, removed: set<Id>, now: int, id: Id)
    requires Sweeping(o, was, s, expired, removed, now)
    requires id in s && !s[id].Live() && s[id].expiresAt + o.grace <= now
    ensures Sweeping(o, was, s - {id}, expired, removed + {id}, now)
    ensures |removed + {id}| == |removed| + 1
  {
  }

  lemma SweepExpires(o: Options, was: Slots, s: Slots, expired: set<Id>, removed: set<Id>, now: int, id: Id)
    requires Sweeping(o, was, s, expired, removed, now)
    requires id in s && s[id].Live() && s[id].expiresAt <= now
    ensures Sweeping(o, was, s[id := s[id].Expire()], expired + {id}, removed, now)
    ensures |expired + {id}| == |expired| + 1
  {
  }

  /** When nothing that is left is due, the sweep has done exactly its job. */
  lemma SweepIsDone(o: Options, was: Slots, s: Slots, expired: set<Id>, removed: set<Id>, now: int)
    requires forall id :: id in s ==> s[id].expiresAt + o.grace > now
    requires forall id :: id in s && s[id].Live() ==> s[id].expiresAt > now
    requires Sweeping(o, was, s, expired, removed, now)
    ensures expired == Overdue(was, now) && removed == Stale(o, was, now)
    ensures s == Sweep(o, was, now)
  {
    assert forall id :: id in s ==> s[id].expiresAt == was[id].expiresAt;
    assert Stale(o, was, now) <= removed;
    assert forall id :: id in s && id !in expired ==> s[id] == was[id];
    assert Overdue(was, now) <= expired;
  }

  /**
   * A sweep leaves nothing overdue and nothing past its grace, and leaves alone every slot that
   * was neither; what it expires stays, expired, until its own grace has passed.
   */
  lemma SweepIsComplete(o: Options, was: Slots, now: int)
    requires o.grace > 0
    ensures
      var s := Sweep(o, was, now);
      && Overdue(s, now) == {} && Stale(o, s, now) == {}
      && s.Keys <= was.Keys && (forall id :: id in was && id !in s ==> was[id].expiresAt + o.grace <= now)
      && (forall id :: id in was && id !in Overdue(was, now) && id !in Stale(o, was, now) ==>
        id in s && s[id] == was[id])
      && (forall id :: id in Overdue(was, now) && id !in Stale(o, was, now) ==>
            id in s && s[id].state == Expired && s[id].ciphertext == [] && s[id].expiresAt == was[id].expiresAt)
      && Sweep(o, s, now) == s
  {
    var s := Sweep(o, was, now);
    forall id | id in s
      ensures s[id].expiresAt == was[id].expiresAt && s[id].expiresAt + o.grace > now
      ensures s[id].Live() ==> s[id].expiresAt > now
    {
    }
    assert Sweep(o, s, now) == s;
  }
}
