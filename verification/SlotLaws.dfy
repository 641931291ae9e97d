/**
 * What each call answers and leaves behind, told from the slot's fields alone: exactly when it
 * succeeds, exactly which error it gives otherwise, and the slot afterwards, field by field.
 */
module SlotLaws {
  import opened Prelude
  import opened Slots

  /** Whether a slot can still be used at time now. */
  predicate Usable(d: Drop, now: int) {
    (d.state == Created || d.state == Uploaded) && now < d.expiresAt
  }

  /** Whether it has run out without anyone having noticed. */
  predicate RunOut(d: Drop, now: int) {
    (d.state == Created || d.state == Uploaded) && now >= d.expiresAt
  }

  /** A slot without its secrets. */
  function Bare(d: Drop): Drop {
    d.(ciphertext := [], commitment := "", tokenA := Hash(Zeros(32)), tokenB := Hash(Zeros(32)))
  }

  /** The slots as a refused call leaves them: a slot that has run out has expired, nothing else changes. */
  function Refused(s: Slots, id: Id, now: int): Slots {
    if id in s && RunOut(s[id], now) then s[id := Bare(s[id]).(state := Expired)] else s
  }

  /** When a slot that is no longer usable ended. */
  function EndedAt(d: Drop, now: int): int {
    if RunOut(d, now) || d.state == Expired then d.expiresAt
    else if d.state == Revoked then d.revokedAt
    else d.fetchedAt
  }

  /** The error for a slot that is no longer usable. */
  function Ended(d: Drop, now: int): Error {
    ErrState(if RunOut(d, now) then Expired else d.state, EndedAt(d, now))
  }

  /** What the two counts count. */
  lemma CountsExactly(s: Slots)
    ensures Live(s) == |set id | id in s && (s[id].state == Created || s[id].state == Uploaded)|
    ensures Bytes(map[]) == 0 && forall id :: id in s ==> Bytes(s) == |s[id].ciphertext| + Bytes(s - {id})
  {
    assert LiveIds(s) == set id | id in s && (s[id].state == Created || s[id].state == Uploaded);
    forall id | id in s
      ensures Bytes(s) == |s[id].ciphertext| + Bytes(s - {id})
    {
      BytesWithout(s, id);
    }
  }

  lemma SeenExactly(d: Drop, now: int)
    ensures d.Seen(now) == if RunOut(d, now) then Bare(d).(state := Expired) else d
    ensures d.Seen(now).Live() <==> Usable(d, now)
    ensures !Usable(d, now) ==> d.Seen(now).StateError() == Ended(d, now)
  {
  }

  lemma Untouched(s: Slots, id: Id, now: int)
    requires id in s
    ensures s[id := s[id].Seen(now)] == Refused(s, id, now)
    ensures Touch(s, id, now) == Refused(s, id, now)
  {
    SeenExactly(s[id], now);
    assert s[id := s[id]] == s;
  }

  /** A creation succeeds exactly if the id is free and there is room, and stores the slot as it is. */
  lemma CreateExactly(o: Options, s: Slots, id: Id, d: Drop, now: int)
    ensures
      var (t, reply) := Step(o, s, OpCreate(id, d, now));
      if id !in s && (o.maxLive > 0 ==> Live(s) < o.maxLive)
        && (o.maxBytes > 0 ==> Bytes(s) + |d.ciphertext| <= o.maxBytes)
      then reply == Done && t == s[id := d]
      else reply == Failed(ErrFull) && t == s
  {
  }

  /**
   * An upload succeeds exactly for a drop that is created and has not run out, with its upload
   * token and its commitment, if the ciphertext fits; otherwise the first of these that fails tells the error.
   */
  lemma UploadExactly(o: Options, s: Slots, id: Id, token: Hash, commitment: string, ct: seq<byte>, now: int, at: int)
    ensures
      var (t, reply) := Step(o, s, OpUpload(id, token, commitment, ct, now, at));
      if id !in s then reply == Failed(ErrNotFound) && t == s
      else
        var d := s[id];
        if d.kind != KindDrop then reply == Failed(ErrWrongKind) && t == Refused(s, id, now)
        else if !Usable(d, now) then reply == Failed(Ended(d, now)) && t == Refused(s, id, now)
        else if token != d.tokenA then reply == Failed(ErrBadToken) && t == s
        else if d.state == Uploaded then reply == Failed(ErrState(Uploaded, d.uploadedAt)) && t == s
        else if commitment != d.commitment then reply == Failed(ErrCommitment) && t == s
        else if o.maxBytes > 0 && Bytes(s) + |ct| > o.maxBytes then reply == Failed(ErrFull) && t == s
        else reply == Done && t == s[id := d.(ciphertext := ct, state := Uploaded, uploadedAt := at)]
  {
    hide Bytes, Drop.Tombstoned;
    if id in s {
      SeenExactly(s[id], now);
      Untouched(s, id, now);
    }
  }

  /** A fetch delivers exactly for a drop that is uploaded and has not run out, with its fetch token. */
  lemma FetchExactly(o: Options, s: Slots, id: Id, token: Hash, now: int, at: int)
    ensures
      var (t, reply) := Step(o, s, OpFetch(id, token, now, at));
      if id !in s then reply == Failed(ErrNotFound) && t == s
      else
        var d := s[id];
        if d.kind != KindDrop then reply == Failed(ErrWrongKind) && t == Refused(s, id, now)
        else if !Usable(d, now) then reply == Failed(Ended(d, now)) && t == Refused(s, id, now)
        else if token != d.tokenB then reply == Failed(ErrBadToken) && t == s
        else if d.state == Created then reply == Failed(ErrState(Created, d.createdAt)) && t == s
        else reply == Payload(d.ciphertext, d.uploadedAt) && t == s[id := Bare(d).(state := Fetched, fetchedAt := at)]
  {
    if id in s {
      SeenExactly(s[id], now);
      Untouched(s, id, now);
    }
  }

  /** An open delivers exactly for a reveal that has not run out, with its reveal token. */
  lemma OpenExactly(o: Options, s: Slots, id: Id, token: Hash, now: int, at: int)
    ensures
      var (t, reply) := Step(o, s, OpOpen(id, token, now, at));
      if id !in s then reply == Failed(ErrNotFound) && t == s
      else
        var d := s[id];
        if d.kind != KindReveal then reply == Failed(ErrWrongKind) && t == Refused(s, id, now)
        else if !Usable(d, now) then reply == Failed(Ended(d, now)) && t == Refused(s, id, now)
        else if token != d.tokenA then reply == Failed(ErrBadToken) && t == s
        else reply == Payload(d.ciphertext, d.createdAt) && t == s[id := Bare(d).(state := Opened, fetchedAt := at)]
  {
    if id in s {
      SeenExactly(s[id], now);
      Untouched(s, id, now);
    }
  }

  /** A revocation succeeds exactly for a slot that has not run out, with either of its tokens. */
  lemma RevokeExactly(o: Options, s: Slots, id: Id, token: Hash, now: int, at: int)
    ensures
      var (t, reply) := Step(o, s, OpRevoke(id, token, now, at));
      if id !in s then reply == Failed(ErrNotFound) && t == s
      else
        var d := s[id];
        if !Usable(d, now) then reply == Failed(Ended(d, now)) && t == Refused(s, id, now)
        else if token != d.tokenA && token != d.tokenB then reply == Failed(ErrBadToken) && t == s
        else reply == Done && t == s[id := Bare(d).(state := Revoked, revokedAt := at)]
  {
    if id in s {
      SeenExactly(s[id], now);
      Untouched(s, id, now);
    }
  }

  /** A status query reports every public field of the slot, expired if it has run out. */
  lemma StatusExactly(o: Options, s: Slots, id: Id, now: int)
    ensures
      var (t, reply) := Step(o, s, OpStatus(id, now));
      if id !in s then reply == Failed(ErrNotFound) && t == s
      else
        var d := s[id];
        && t == Refused(s, id, now)
        && reply == Report(StatusReport(d.kind, if RunOut(d, now) then Expired else d.state, d.createdAt, d.expiresAt,
                                        d.uploadedAt, d.fetchedAt, d.revokedAt))
  {
    if id in s {
      SeenExactly(s[id], now);
      Untouched(s, id, now);
    }
  }

  /** A sweep removes what is past its grace, expires what else has run out, and counts both. */
  lemma SweepExactly(o: Options, s: Slots, now: int)
    ensures
      var (t, reply) := Step(o, s, OpSweep(now));
      && (forall id :: id in t <==> id in s && now < s[id].expiresAt + o.grace)
      && (forall id :: id in t ==> t[id] == if RunOut(s[id], now) then Bare(s[id]).(state := Expired) else s[id])
      && reply ==
        Swept(|set id | id in s && RunOut(s[id], now)| + |set id | id in s && s[id].expiresAt + o.grace <= now|)
  {
    forall id | id in s
      ensures s[id].Seen(now) == if RunOut(s[id], now) then Bare(s[id]).(state := Expired) else s[id]
      ensures id in Overdue(s, now) <==> RunOut(s[id], now)
    {
      SeenExactly(s[id], now);
    }
    assert Overdue(s, now) == set id | id in s && RunOut(s[id], now);
    assert Stale(o, s, now) == set id | id in s && s[id].expiresAt + o.grace <= now;
  }

  /** One id of a sweep. */
  lemma ExpireExactly(o: Options, s: Slots, id: Id, now: int)
    ensures
      var (t, reply) := Step(o, s, OpExpire(id, now));
      t == Refused(s, id, now) && reply == Swept(if id in s && RunOut(s[id], now) then 1 else 0)
  {
  }

  lemma RemoveExactly(o: Options, s: Slots, id: Id, now: int)
    ensures
      var (t, reply) := Step(o, s, OpRemove(id, now));
      if id in s && s[id].expiresAt + o.grace <= now then t == s - {id} && reply == Swept(1)
        else t == s && reply == Swept(0)
  {
  }

  /** A store that is not told how long to keep tombstones keeps them a day; every other option stays as given. */
  lemma DefaultsExactly(o: Options)
    ensures WithDefaults(o) == o.(grace := if o.grace == 0 then 86_400_000 else o.grace)
  {
  }

  // ----- From creation to delivery -----

  /**
   * A drop that is created, filled and read in time, with the right tokens, is reported as uploaded in
   * between and delivers the uploaded bytes.
   */
  lemma DropDelivers(o: Options, s: Slots, id: Id, d: Drop, commitment: string, ct: seq<byte>, t0: int, t1: int,
      t2: int)
    requires d.kind == KindDrop && d.state == Created && d.commitment == commitment
    requires Step(o, s, OpCreate(id, d, t0)).1 == Done && t1 < d.expiresAt && t2 < d.expiresAt
    requires o.maxBytes > 0 ==> Bytes(s[id := d]) + |ct| <= o.maxBytes
    ensures
      var created := Step(o, s, OpCreate(id, d, t0)).0;
      var uploaded := Step(o, created, OpUpload(id, d.tokenA, commitment, ct, t1, t1));
      var seen := Step(o, uploaded.0, OpStatus(id, t2));
      var fetched := Step(o, seen.0, OpFetch(id, d.tokenB, t2, t2));
      && created == s[id := d] && uploaded.1 == Done
      && seen.0 == uploaded.0 && seen.1.Report? && seen.1.status.state == Uploaded
      && fetched.1 == Payload(ct, t1)
      && id in fetched.0 && fetched.0[id].state == Fetched && fetched.0[id].fetchedAt == t2
        && fetched.0[id].ciphertext == []
      && fetched.0 - {id} == s - {id}
  {
    hide Step, Bytes;
    CreateExactly(o, s, id, d, t0);
    var created := Step(o, s, OpCreate(id, d, t0)).0;
    UploadExactly(o, created, id, d.tokenA, commitment, ct, t1, t1);
    var uploaded := Step(o, created, OpUpload(id, d.tokenA, commitment, ct, t1, t1)).0;
    StatusExactly(o, uploaded, id, t2);
    FetchExactly(o, uploaded, id, d.tokenB, t2, t2);
  }

  /** A reveal that is created and opened in time with its token delivers what it was created with. */
  lemma RevealDelivers(o: Options, s: Slots, id: Id, d: Drop, t0: int, t1: int)
    requires d.kind == KindReveal && d.state == Created && Step(o, s, OpCreate(id, d, t0)).1 == Done && t1 < d.expiresAt
    ensures
      var seen := Step(o, Step(o, s, OpCreate(id, d, t0)).0, OpOpen(id, d.tokenA, t1, t1));
      seen.1 == Payload(d.ciphertext, d.createdAt) && id in seen.0 && seen.0[id].state == Opened
        && seen.0[id].fetchedAt == t1
  {
    hide Step, Bytes;
    CreateExactly(o, s, id, d, t0);
    OpenExactly(o, Step(o, s, OpCreate(id, d, t0)).0, id, d.tokenA, t1, t1);
  }
}
