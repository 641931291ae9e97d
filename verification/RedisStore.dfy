/**
 * The Redis store: each slot a hash, live ids and all ids in two sorted sets scored by time,
 * and two counters. Every operation is one Lua script and so one step; the methods below are
 * those scripts, with the clock reading they are given. A hash field that is not there is
 * None. Numbers are not formatted as text here, tokens are: scripts compare encoded hashes.
 */
module RedisStore {
  import opened Prelude
  import opened Slots
  import opened SweepProgress
  import Base64Url
  import Names

  datatype SlotHash = SlotHash(
    kind: Kind,
    state: State,
    ct: Option<seq<byte>>,
    commitment: Option<string>,
    ta: Option<string>,
    tb: Option<string>,
    agent: string,
    created: int,
    expires: int,
    uploaded: int,
    fetched: int,
    revoked: int,
    dropAt: int)

  /** The table a script works on: the fields of a hash, absent ones empty. */
  datatype Table = Table(
    kind: Kind,
    state: State,
    created: int,
    expires: int,
    uploaded: int,
    fetched: int,
    revoked: int,
    commitment: string,
    ta: string,
    tb: string)
  {
    function Status(): StatusReport {
      StatusReport(kind, state, created, expires, uploaded, fetched, revoked)
    }
  }

  function OrEmpty(f: Option<string>): string {
    if f.Some? then f.value else ""
  }

  function Read(h: SlotHash): Table {
    Table(h.kind, h.state, h.created, h.expires, h.uploaded, h.fetched, h.revoked, OrEmpty(h.commitment),
      OrEmpty(h.ta), OrEmpty(h.tb))
  }

  datatype Code = CodeOk | CodeNotFound | CodeBadToken | CodeCommitment | CodeFull | CodeWrongKind | CodeState

  /** What a script returns: a code, and for some codes the slot and a payload. */
  datatype ScriptReply = ScriptReply(code: Code, table: Option<Table>, payload: seq<byte>)

  function Bare(code: Code): ScriptReply {
    ScriptReply(code, None, [])
  }

  function Encoded(h: Hash): string {
    Base64Url.Encode(h.bytes)
  }

  lemma EncodedInjective(a: Hash, b: Hash)
    ensures Encoded(a) == Encoded(b) <==> a == b
  {
    if Encoded(a) == Encoded(b) {
      Base64Url.EncodeInjective(a.bytes, b.bytes);
    }
  }

  /** The error a reply stands for; a state error is told from the table in the reply. */
  function ReplyError(r: ScriptReply): Option<Error>
    requires r.code == CodeState ==> r.table.Some?
  {
    match r.code
    case CodeOk => None
    case CodeNotFound => Some(ErrNotFound)
    case CodeBadToken => Some(ErrBadToken)
    case CodeCommitment => Some(ErrCommitment)
    case CodeFull => Some(ErrFull)
    case CodeWrongKind => Some(ErrWrongKind)
    case CodeState =>
      var t := r.table.value;
      var at :=
        match t.state
        case Uploaded => t.uploaded
        case Fetched | Opened => t.fetched
        case Revoked => t.revoked
        case Expired => t.expires
        case Created => t.created;
      Some(ErrState(t.state, at))
  }

  /** The reply of the store method that ran a script and got r. */
  function Outcome(r: ScriptReply): Reply
    requires r.code == CodeState ==> r.table.Some?
  {
    var e := ReplyError(r);
    if e == None then Done else Failed(e.value)
  }

  /** The hash stored for a slot of the slot machine. */
  ghost predicate Represents(h: SlotHash, d: Drop) {
    && h.kind == d.kind && h.state == d.state && h.agent == d.agentKeyId
    && h.created == d.createdAt && h.expires == d.expiresAt
    && h.uploaded == d.uploadedAt && h.fetched == d.fetchedAt && h.revoked == d.revokedAt
    && (h.ct == Some(d.ciphertext) || (h.ct == None && d.ciphertext == []))
    && (if d.Live() then
          h.commitment == Some(d.commitment) && h.ta == Some(Encoded(d.tokenA)) && h.tb == Some(Encoded(d.tokenB))
        else
          h.commitment == None && h.ta == None && h.tb == None
          && d.commitment == "" && d.tokenA == ZERO_HASH && d.tokenB == ZERO_HASH)
  }

  /** The table a script reads for a slot of the slot machine. */
  ghost predicate Shows(t: Table, d: Drop) {
    && t.Status() == d.Status()
    && (d.Live() ==> t.commitment == d.commitment && t.ta == Encoded(d.tokenA) && t.tb == Encoded(d.tokenB))
  }

  /** The hashes are the slots. */
  ghost predicate Stored(hashes: map<Id, SlotHash>, s: Slots) {
    hashes.Keys == s.Keys && (forall id :: id in hashes ==> Represents(hashes[id], s[id]))
  }

  /** Every slot is scheduled for removal; ids whose slot is gone may be as well. */
  ghost predicate Scheduled(removal: map<Id, int>, s: Slots, grace: int) {
    forall id :: id in s ==> id in removal && removal[id] == s[id].expiresAt + grace
  }

  /** No hash is set to be dropped before its slot is due for removal. */
  ghost predicate Lasting(hashes: map<Id, SlotHash>, removal: map<Id, int>) {
    forall id :: id in hashes ==> id in removal && hashes[id].dropAt >= removal[id]
  }

  /** The live slots, by expiry. */
  ghost predicate Listed(expiry: map<Id, int>, s: Slots) {
    expiry.Keys == LiveIds(s) && (forall id :: id in expiry ==> id in s && expiry[id] == s[id].expiresAt)
  }

  lemma StoredPut(hashes: map<Id, SlotHash>, s: Slots, id: Id, h: SlotHash, d: Drop)
    requires Stored(hashes, s) && Represents(h, d)
    ensures Stored(hashes[id := h], s[id := d])
  {
    hide Represents;
  }

  lemma StoredWithout(hashes: map<Id, SlotHash>, s: Slots, id: Id)
    requires Stored(hashes, s)
    ensures Stored(hashes - {id}, s - {id})
  {
    hide Represents;
  }

  lemma ScheduledPut(removal: map<Id, int>, s: Slots, grace: int, id: Id, d: Drop)
    requires Scheduled(removal, s, grace)
    ensures Scheduled(removal[id := d.expiresAt + grace], s[id := d], grace)
    ensures id in s && s[id].expiresAt == d.expiresAt ==> Scheduled(removal, s[id := d], grace)
  {
  }

  lemma ScheduledWithout(removal: map<Id, int>, s: Slots, grace: int, id: Id)
    requires Scheduled(removal, s, grace)
    ensures Scheduled(removal, s - {id}, grace) && Scheduled(removal - {id}, s - {id}, grace)
  {
  }

  lemma LastingPut(hashes: map<Id, SlotHash>, removal: map<Id, int>, id: Id, h: SlotHash, at: int)
    requires Lasting(hashes, removal)
    ensures h.dropAt >= at ==> Lasting(hashes[id := h], removal[id := at])
    ensures id in hashes && h.dropAt == hashes[id].dropAt ==> Lasting(hashes[id := h], removal)
  {
  }

  lemma LastingWithout(hashes: map<Id, SlotHash>, removal: map<Id, int>, id: Id)
    requires Lasting(hashes, removal)
    ensures Lasting(hashes - {id}, removal) && Lasting(hashes - {id}, removal - {id})
  {
  }

  lemma ListedPut(expiry: map<Id, int>, s: Slots, id: Id, d: Drop)
    requires Listed(expiry, s)
    ensures d.Live() ==> Listed(expiry[id := d.expiresAt], s[id := d])
    ensures d.Live() && id in s && s[id].Live() && s[id].expiresAt == d.expiresAt ==> Listed(expiry, s[id := d])
    ensures !d.Live() ==> Listed(expiry - {id}, s[id := d])
  {
    if d.Live() {
      assert LiveIds(s[id := d]) == LiveIds(s) + {id};
      assert id in s && s[id].Live() ==> LiveIds(s[id := d]) == LiveIds(s);
    } else {
      assert LiveIds(s[id := d]) == LiveIds(s) - {id};
    }
  }

  /** A hash that goes away leaves the set of live ids right if and only if its slot was a tombstone. */
  lemma ListedWithout(expiry: map<Id, int>, s: Slots, id: Id)
    requires Listed(expiry, s) && id in s
    ensures Listed(expiry, s - {id}) <==> !s[id].Live()
    ensures Listed(expiry - {id}, s - {id})
    ensures id in expiry <==> s[id].Live()
  {
    assert LiveIds(s - {id}) == LiveIds(s) - {id};
    assert !s[id].Live() ==> LiveIds(s) - {id} == LiveIds(s);
    assert id in LiveIds(s) <==> s[id].Live();
  }

  class Redis {
    const opts: Options
    var hashes: map<Id, SlotHash>
    var expiry: map<Id, int>
    var removal: map<Id, int>
    var live: int
    var bytes: int
    /** What the store holds, as a state of the slot machine. */
    ghost var slots: Slots

    ghost predicate Mirrors()
      reads this
    {
      WellFormed(slots) && Stored(hashes, slots) && Scheduled(removal, slots, opts.grace) && Lasting(hashes, removal)
    }

    /** The counters and the set of live ids are exact. */
    ghost predicate Exact()
      reads this
    {
      live == Live(slots) && bytes == Bytes(slots) && Listed(expiry, slots)
    }

    ghost predicate Valid()
      reads this
    {
      opts.grace > 0 && Mirrors() && Exact()
    }

    constructor (o: Options)
      requires o.grace >= 0
      ensures Valid() && opts == WithDefaults(o) && slots == map[]
    {
      opts := WithDefaults(o);
      hashes, expiry, removal, live, bytes := map[], map[], map[], 0, 0;
      slots := map[];
      new;
      assert LiveIds(slots) == {};
    }

    /** Takes a live slot out of the counters and the set of live ids. */
    method Release(id: Id)
      requires id in hashes
      modifies this`live, this`bytes, this`expiry
      ensures live == old(live) - 1
      ensures bytes == old(bytes) - (if hashes[id].ct == None then 0 else |hashes[id].ct.value|)
      ensures expiry == old(expiry) - {id}
    {
      var n := if hashes[id].ct == None then 0 else |hashes[id].ct.value|;
      if n > 0 {
        bytes := bytes - n;
      }
      live := live - 1;
      expiry := expiry - {id};
    }

    /** Deletes all secrets of a slot and sets its final state, in the hash and in the table. */
    method Tombstone(id: Id, d: Table, to: State, at: int) returns (e: Table)
      requires id in hashes && to.Terminal()
      modifies this`hashes
      ensures hashes == old(hashes)[id := Buried(old(hashes)[id], to, at)]
      ensures e == d.(state := to, commitment := "", ta := "", tb := "",
                      fetched := if to == Fetched || to == Opened then at else d.fetched,
                      revoked := if to == Revoked then at else d.revoked)
    {
      var h := hashes[id].(ct := None, commitment := None, ta := None, tb := None);
      e := d.(state := to, commitment := "", ta := "", tb := "");
      if to == Fetched || to == Opened {
        e := e.(fetched := at);
        h := h.(state := to, fetched := at);
      } else if to == Revoked {
        e := e.(revoked := at);
        h := h.(state := to, revoked := at);
      } else {
        h := h.(state := to);
      }
      hashes := hashes[id := h];
    }

    /** A terminal transition: out of the counters and the set, secrets deleted. */
    method Retire(id: Id, d: Table, to: State, at: int) returns (e: Table)
      requires Valid() && id in slots && slots[id].Live() && Shows(d, slots[id])
      requires to.Terminal() && (to == Fetched ==> slots[id].kind == KindDrop)
        && (to == Opened ==> slots[id].kind == KindReveal)
      modifies this
      ensures Valid()
      ensures slots == old(slots)[id := old(slots)[id].Tombstoned(to, at)]
      ensures removal == old(removal) && expiry == old(expiry) - {id}
      ensures Shows(e, slots[id])
    {
      hide Represents, Live, Bytes, WellFormed, LiveIds, Scheduled, Lasting, Listed, Drop.Tombstoned;
      SizeOf(hashes[id], slots[id]);
      TombstoneCounts(slots, id, to, at);
      BuriedRepresents(hashes[id], slots[id], to, at);
      ScheduledPut(removal, slots, opts.grace, id, slots[id].Tombstoned(to, at));
      LastingPut(hashes, removal, id, Buried(hashes[id], to, at), 0);
      ListedPut(expiry, slots, id, slots[id].Tombstoned(to, at));
      BuriedTerminal(slots[id], to, at);
      BuriedShows(d, slots[id], to, at);
      Release(id);
      e := Tombstone(id, d, to, at);
      slots := slots[id := slots[id].Tombstoned(to, at)];
    }

    /** Reads a slot, applying lazy expiry; None if there is none. */
    method Get(id: Id, now: int) returns (d: Option<Table>)
      requires Valid()
      modifies this
      ensures Valid() && removal == old(removal)
      ensures d == None ==> id !in slots && slots == old(slots)
      ensures d.Some? ==> id in old(slots) && slots == Touch(old(slots), id, now) && Shows(d.value, slots[id])
    {
      hide Lasting, Represents, Live, Bytes, WellFormed, Drop.Tombstoned, Shows;
      d := None;
      if id in hashes {
        ReadShows(hashes[id], slots[id]);
        var t := Read(hashes[id]);
        assert slots[id := slots[id]] == slots;
        if !t.state.Terminal() && now >= t.expires {
          t := Retire(id, t, Expired, t.expires);
        }
        d := Some(t);
      }
    }

    /** A new slot: its hash, its place in both sets and its share of the counters. */
    method Insert(id: Id, d: Drop, now: int)
      requires Valid() && NewSlot(d) && id !in slots
      modifies this
      ensures Valid() && slots == old(slots)[id := d]
      ensures removal.Keys == old(removal.Keys) + {id}
    {
      hide Live, Bytes, WellFormed, LiveIds, Stored, Scheduled, Lasting, Listed, Represents, NewHash;
      CreatedCounts(slots, id, d);
      var n := |d.ciphertext|;
      var removeAt := d.expiresAt + opts.grace;
      var ttl := removeAt - now;
      if ttl < 1 {
        ttl := 1;
      }
      NewRepresents(d, now + ttl);
      StoredPut(hashes, slots, id, NewHash(d, now + ttl), d);
      ScheduledPut(removal, slots, opts.grace, id, d);
      LastingPut(hashes, removal, id, NewHash(d, now + ttl), removeAt);
      ListedPut(expiry, slots, id, d);
      hashes := hashes[id := NewHash(d, now + ttl)];
      if n > 0 {
        bytes := bytes + n;
      }
      live := live + 1;
      expiry := expiry[id := d.expiresAt];
      removal := removal[id := removeAt];
      slots := slots[id := d];
    }

    method Create(id: Id, d: Drop, now: int) returns (r: ScriptReply)
      requires Valid() && NewSlot(d)
      modifies this
      ensures Valid() && r.code != CodeState
      ensures (slots, Outcome(r)) == Step(opts, old(slots), OpCreate(id, d, now))
      ensures removal.Keys <= old(removal.Keys) + {id}
    {
      hide Live, Bytes, WellFormed, LiveIds, Represents, Step;
      StepCreates(opts, slots, id, d, now);
      if id in hashes {
        return Bare(CodeFull);
      }
      var n := |d.ciphertext|;
      if opts.maxLive > 0 && live >= opts.maxLive {
        return Bare(CodeFull);
      }
      if opts.maxBytes > 0 && bytes + n > opts.maxBytes {
        return Bare(CodeFull);
      }
      Insert(id, d, now);
      return Bare(CodeOk);
    }

    /** An accepted upload. */
    method Accept(id: Id, ct: seq<byte>, now: int)
      requires Valid() && id in slots && slots[id].state == Created && slots[id].kind == KindDrop
      modifies this
      ensures Valid() && removal == old(removal) && slots == old(slots)[id := old(slots)[id].Filled(ct, now)]
    {
      hide Live, Bytes, WellFormed, LiveIds, Scheduled, Lasting, Listed, Represents, Drop.Filled;
      FilledCounts(slots, id, ct, now);
      FilledRepresents(hashes[id], slots[id], ct, now);
      FilledLive(slots[id], ct, now);
      StoredPut(hashes, slots, id, FilledHash(hashes[id], ct, now), slots[id].Filled(ct, now));
      ScheduledPut(removal, slots, opts.grace, id, slots[id].Filled(ct, now));
      LastingPut(hashes, removal, id, FilledHash(hashes[id], ct, now), 0);
      ListedPut(expiry, slots, id, slots[id].Filled(ct, now));
      var n := |ct|;
      hashes := hashes[id := FilledHash(hashes[id], ct, now)];
      if n > 0 {
        bytes := bytes + n;
      }
      slots := slots[id := slots[id].Filled(ct, now)];
    }

    method Upload(id: Id, token: Hash, commitment: string, ct: seq<byte>, now: int) returns (r: ScriptReply)
      requires Valid()
      modifies this
      ensures Valid() && removal == old(removal) && (r.code == CodeState ==> r.table.Some?)
      ensures (slots, Outcome(r)) == Step(opts, old(slots), OpUpload(id, token, commitment, ct, now, now))
    {
      hide Live, Bytes, WellFormed, Mirrors, Represents, LiveIds, Step, Drop.Filled, Drop.Seen, Touch;
      ghost var op := OpUpload(id, token, commitment, ct, now, now);
      var t := Get(id, now);
      if t == None {
        StepMissing(opts, slots, op);
        return Bare(CodeNotFound);
      }
      var d := t.value;
      ghost var room := HasRoom(opts, old(slots), op);
      StepAddressed(opts, old(slots), op, slots, UploadSlot(slots[id], token, commitment, ct, room, now));
      EncodedInjective(slots[id].tokenA, token);
      if d.kind != KindDrop {
        return Bare(CodeWrongKind);
      }
      if d.state.Terminal() {
        return ScriptReply(CodeState, Some(d), []);
      }
      if d.ta != Encoded(token) {
        return Bare(CodeBadToken);
      }
      if d.state != Created {
        return ScriptReply(CodeState, Some(d), []);
      }
      if d.commitment != commitment {
        return Bare(CodeCommitment);
      }
      if opts.maxBytes > 0 && bytes + |ct| > opts.maxBytes {
        return Bare(CodeFull);
      }
      Accept(id, ct, now);
      return Bare(CodeOk);
    }

    /** The ciphertext field of a slot, empty if it has none. */
    method ReadCiphertext(id: Id) returns (ct: seq<byte>)
      requires Mirrors() && id in slots
      ensures ct == slots[id].ciphertext
    {
      assert Represents(hashes[id], slots[id]);
      ct := if hashes[id].ct == None then [] else hashes[id].ct.value;
    }

    method Fetch(id: Id, token: Hash, now: int) returns (r: ScriptReply)
      requires Valid()
      modifies this
      ensures Valid() && removal == old(removal) && (r.code in {CodeState, CodeOk} ==> r.table.Some?)
      ensures (slots, FetchOutcome(r)) == Step(opts, old(slots), OpFetch(id, token, now, now))
    {
      hide Live, Bytes, WellFormed, Mirrors, Exact, Represents, LiveIds, Step, Drop.Tombstoned, Drop.Seen, Touch;
      ghost var op := OpFetch(id, token, now, now);
      var t := Get(id, now);
      if t == None {
        StepMissing(opts, slots, op);
        return Bare(CodeNotFound);
      }
      var d := t.value;
      StepAddressed(opts, old(slots), op, slots, FetchSlot(slots[id], token, now));
      EncodedInjective(slots[id].tokenB, token);
      if d.kind != KindDrop {
        return Bare(CodeWrongKind);
      }
      if d.state.Terminal() {
        return ScriptReply(CodeState, Some(d), []);
      }
      if d.tb != Encoded(token) {
        return Bare(CodeBadToken);
      }
      if d.state != Uploaded {
        return ScriptReply(CodeState, Some(d), []);
      }
      TombstonedTimes(slots[id], Fetched, now);
      var ct := ReadCiphertext(id);
      var e := Retire(id, d, Fetched, now);
      return ScriptReply(CodeOk, Some(e), ct);
    }

    method Open(id: Id, token: Hash, now: int) returns (r: ScriptReply)
      requires Valid()
      modifies this
      ensures Valid() && removal == old(removal) && (r.code in {CodeState, CodeOk} ==> r.table.Some?)
      ensures (slots, OpenOutcome(r)) == Step(opts, old(slots), OpOpen(id, token, now, now))
    {
      hide Live, Bytes, WellFormed, Mirrors, Exact, Represents, LiveIds, Step, Drop.Tombstoned, Drop.Seen, Touch;
      ghost var op := OpOpen(id, token, now, now);
      var t := Get(id, now);
      if t == None {
        StepMissing(opts, slots, op);
        return Bare(CodeNotFound);
      }
      var d := t.value;
      StepAddressed(opts, old(slots), op, slots, OpenSlot(slots[id], token, now));
      EncodedInjective(slots[id].tokenA, token);
      if d.kind != KindReveal {
        return Bare(CodeWrongKind);
      }
      if d.state.Terminal() {
        return ScriptReply(CodeState, Some(d), []);
      }
      if d.ta != Encoded(token) {
        return Bare(CodeBadToken);
      }
      TombstonedTimes(slots[id], Opened, now);
      var ct := ReadCiphertext(id);
      var e := Retire(id, d, Opened, now);
      return ScriptReply(CodeOk, Some(e), ct);
    }

    method Revoke(id: Id, token: Hash, now: int) returns (r: ScriptReply)
      requires Valid()
      modifies this
      ensures Valid() && removal == old(removal) && (r.code == CodeState ==> r.table.Some?)
      ensures (slots, Outcome(r)) == Step(opts, old(slots), OpRevoke(id, token, now, now))
    {
      hide Live, Bytes, WellFormed, Mirrors, Exact, Represents, LiveIds, Step, Drop.Tombstoned, Drop.Seen, Touch;
      ghost var op := OpRevoke(id, token, now, now);
      var t := Get(id, now);
      if t == None {
        StepMissing(opts, slots, op);
        return Bare(CodeNotFound);
      }
      var d := t.value;
      StepAddressed(opts, old(slots), op, slots, RevokeSlot(slots[id], token, now));
      EncodedInjective(slots[id].tokenA, token);
      EncodedInjective(slots[id].tokenB, token);
      if d.state.Terminal() {
        return ScriptReply(CodeState, Some(d), []);
      }
      if d.ta != Encoded(token) && d.tb != Encoded(token) {
        return Bare(CodeBadToken);
      }
      var _ := Retire(id, d, Revoked, now);
      return Bare(CodeOk);
    }

    method Status(id: Id, now: int) returns (r: ScriptReply)
      requires Valid()
      modifies this
      ensures Valid() && removal == old(removal) && (r.code in {CodeState, CodeOk} ==> r.table.Some?)
      ensures (slots, StatusOutcome(r)) == Step(opts, old(slots), OpStatus(id, now))
    {
      hide Live, Bytes, WellFormed, Mirrors, Exact, Represents, LiveIds, Step, Drop.Seen, Touch;
      ghost var op := OpStatus(id, now);
      var t := Get(id, now);
      if t == None {
        StepMissing(opts, slots, op);
        return Bare(CodeNotFound);
      }
      StepAddressed(opts, old(slots), op, slots, (slots[id], Report(slots[id].Status())));
      return ScriptReply(CodeOk, t, []);
    }

    /**
     * The server drops the hash of a slot on its own, without any script running. At the time
     * set for it that is a removal step of the slot machine. It keeps the counters and the set
     * of live ids exact if and only if the slot was a tombstone.
     */
    method KeyExpires(id: Id, ghost now: int)
      requires Valid() && id in slots
      modifies this`hashes, this`slots
      ensures slots == old(slots) - {id} && Mirrors()
      ensures id in old(hashes) && old(hashes)[id].dropAt <= now ==>
        (slots, Swept(1)) == Step(opts, old(slots), OpRemove(id, now))
      ensures Exact() <==> !old(slots)[id].Live()
      ensures live == Live(slots) <==> !old(slots)[id].Live()
    {
      hide Live, Bytes, WellFormed, LiveIds, Stored, Scheduled, Lasting, Listed, Represents, Step;
      NoSuchHash(hashes, slots, id);
      DueWhenDropped(hashes, removal, slots, opts.grace, id);
      RemovalStep(opts, slots, id, now);
      StoredWithout(hashes, slots, id);
      ScheduledWithout(removal, slots, opts.grace, id);
      LastingWithout(hashes, removal, id);
      ListedWithout(expiry, slots, id);
      if slots[id].Live() {
        LiveWithout(slots, id);
      } else {
        TombstoneIsEmpty(slots, id);
      }
      hashes := hashes - {id};
      slots := slots - {id};
    }

    /** The script that moves one due live slot to expired; 1 when it did. A step of the slot machine. */
    method ExpireScript(id: Id, now: int) returns (n: nat)
      requires Valid()
      modifies this
      ensures Valid() && removal == old(removal)
      ensures (slots, Swept(n)) == Step(opts, old(slots), OpExpire(id, now))
      ensures n == if id in Overdue(old(slots), now) then 1 else 0
      ensures slots == if n == 1 then old(slots)[id := old(slots)[id].Expire()] else old(slots)
      ensures expiry == if n == 1 then old(expiry) - {id} else old(expiry)
    {
      hide Lasting, Live, Bytes, WellFormed, LiveIds, Represents, Scheduled, Drop.Tombstoned;
      NoSuchHash(hashes, slots, id);
      if id !in hashes || hashes[id].state.Terminal() {
        NotListed(expiry, slots, id);
        expiry := expiry - {id};
        return 0;
      }
      ReadShows(hashes[id], slots[id]);
      if now < hashes[id].expires {
        return 0;
      }
      var _ := Retire(id, Read(hashes[id]), Expired, hashes[id].expires);
      return 1;
    }

    /**
     * The script that deletes a slot; 1 when there was one. It looks at no time itself: it is a
     * step of the slot machine exactly if the slot's grace period is over, or there is no slot.
     */
    method RemoveScript(id: Id, ghost now: int) returns (n: nat)
      requires Valid()
      modifies this
      ensures (slots, Swept(n)) == Step(opts, old(slots), OpRemove(id, now))
        <==> (id in old(slots) ==> id in Stale(opts, old(slots), now))
      ensures Valid() && removal == old(removal) - {id}
      ensures n == if id in old(slots) then 1 else 0
      ensures slots == old(slots) - {id} && expiry == old(expiry) - {id}
    {
      hide Live, Bytes, WellFormed, LiveIds, Stored, Scheduled, Lasting, Listed, Represents, Step;
      RemovalStep(opts, slots, id, now);
      ScheduledWithout(removal, slots, opts.grace, id);
      LastingWithout(hashes, removal, id);
      NoSuchHash(hashes, slots, id);
      if id !in hashes {
        NotListed(expiry, slots, id);
        assert slots - {id} == slots && hashes - {id} == hashes;
        removal := removal - {id};
        expiry := expiry - {id};
        return 0;
      }
      StoredWithout(hashes, slots, id);
      ListedWithout(expiry, slots, id);
      SizeOf(hashes[id], slots[id]);
      LeavingCounts(slots, id);
      assert expiry - {id} - {id} == expiry - {id};
      removal := removal - {id};
      if !hashes[id].state.Terminal() {
        Release(id);
      }
      hashes := hashes - {id};
      expiry := expiry - {id};
      slots := slots - {id};
      return 1;
    }

    /** The set a sweep works through: live ids by expiry, or all ids by removal time. */
    function Queue(remove: bool): map<Id, int>
      reads this
    {
      if remove then removal else expiry
    }

    method SweepScript(remove: bool, id: Id, now: int) returns (n: nat)
      requires Valid() && id in Queue(remove) && Queue(remove)[id] <= now
      modifies this
      ensures Valid() && Queue(remove) == old(Queue(remove)) - {id}
      ensures !remove ==> removal == old(removal)
      ensures remove ==> slots == old(slots) - {id} && n == if id in old(slots) then 1 else 0
      ensures id in old(slots) ==> old(slots)[id].expiresAt + (if remove then opts.grace else 0) <= now
      ensures !remove ==> n == 1 && id in Overdue(old(slots), now) && slots == old(slots)[id := old(slots)[id].Expire()]
    {
      hide Live, Bytes, WellFormed, Stored;
      if remove {
        n := RemoveScript(id, now);
      } else {
        assert id in LiveIds(slots);
        n := ExpireScript(id, now);
      }
    }

    /** One batch of a sweep: the script on each id in turn. */
    method SweepBatch(remove: bool, ids: seq<Id>, now: int, ghost was: Slots, ghost expired: set<Id>,
        ghost removed: set<Id>)
      returns (touched: nat, ghost e: set<Id>, ghost r: set<Id>)
      requires Valid() && Sweeping(opts, was, slots, expired, removed, now)
      requires forall i, j :: 0 <= i < j < |ids| ==> ids[i] != ids[j]
      requires forall i :: 0 <= i < |ids| ==> ids[i] in Queue(remove) && Queue(remove)[ids[i]] <= now
      requires remove ==> Overdue(slots, now) == {}
      modifies this
      ensures Valid() && Sweeping(opts, was, slots, e, r, now)
      ensures !remove ==> removal == old(removal)
      ensures touched == |e| + |r| - |expired| - |removed|
      ensures Queue(remove) == old(Queue(remove)) - Members(ids)
      ensures remove ==> Overdue(slots, now) == {}
    {
      hide Live, Bytes, WellFormed, LiveIds, Mirrors, Exact, Sweeping;
      touched, e, r := 0, expired, removed;
      ghost var before := Queue(remove);
      var i := 0;
      while i < |ids|
        invariant i <= |ids|
        invariant Valid() && Sweeping(opts, was, slots, e, r, now)
        invariant !remove ==> removal == old(removal)
        invariant Queue(remove) == before - Members(ids[..i])
        invariant remove ==> Overdue(slots, now) == {}
        invariant touched == |e| + |r| - |expired| - |removed|
      {
        ghost var s := slots;
        StillQueued(before, ids, i);
        var n := SweepScript(remove, ids[i], now);
        touched := touched + n;
        if !remove {
          SweepExpires(opts, was, s, e, r, now, ids[i]);
          e := e + {ids[i]};
        } else if ids[i] in s {
          assert ids[i] !in Overdue(s, now);
          SweepRemoves(opts, was, s, e, r, now, ids[i]);
          r := r + {ids[i]};
        } else {
          assert slots == s;
        }
        i := i + 1;
      }
      assert ids[..|ids|] == ids;
    }

    /**
     * Runs the script on every member scored at or before now, a batch at a time. `was` is
     * where the whole sweep began; expired and removed are what it has done so far.
     */
    method SweepSet(remove: bool, now: int, ghost was: Slots, ghost expired: set<Id>, ghost removed: set<Id>)
      returns (touched: nat, ghost e: set<Id>, ghost r: set<Id>)
      requires Valid() && "" !in Queue(remove)
      requires Sweeping(opts, was, slots, expired, removed, now)
      requires remove ==> Overdue(slots, now) == {}
      modifies this
      ensures Valid() && Sweeping(opts, was, slots, e, r, now)
      ensures !remove ==> removal == old(removal)
      ensures touched == |e| + |r| - |expired| - |removed|
      ensures Queue(remove).Keys <= old(Queue(remove)).Keys
      ensures forall id :: id in Queue(remove) ==> Queue(remove)[id] > now
      ensures remove ==> Overdue(slots, now) == {}
    {
      hide Live, Bytes, WellFormed, LiveIds, Mirrors, Exact, Sweeping;
      touched, e, r := 0, expired, removed;
      var last := "";
      while true
        invariant Valid() && Sweeping(opts, was, slots, e, r, now)
        invariant !remove ==> removal == old(removal)
        invariant Queue(remove).Keys <= old(Queue(remove)).Keys
        invariant "" !in Queue(remove) && last !in Queue(remove)
        invariant remove ==> Overdue(slots, now) == {}
        invariant touched == |e| + |r| - |expired| - |removed|
        decreases Queue(remove).Keys
      {
        var ids := RangeByScore(Queue(remove), now, BATCH);
        if |ids| == 0 || ids[0] == last {
          return;
        }
        ghost var before := Queue(remove);
        var n;
        n, e, r := SweepBatch(remove, ids, now, was, e, r);
        touched := touched + n;
        assert ids[0] in Members(ids);
        assert ids[0] in before && before.Keys != Queue(remove).Keys;
        if |ids| < BATCH {
          return;
        }
        last := ids[0];
      }
    }

    /** Ids are never empty, or the check for a stuck loop would stop a sweep at once. */
    method Sweep(now: int) returns (touched: nat)
      requires Valid() && "" !in removal
      modifies this
      ensures Valid() && removal.Keys <= old(removal.Keys)
      ensures (slots, Swept(touched)) == Step(opts, old(slots), OpSweep(now))
    {
      hide Live, Bytes, WellFormed, LiveIds, Stored, Scheduled, Listed, Sweeping;
      ghost var was := slots;
      SweepStarts(opts, was, now);
      ListedMeans(expiry, slots, now);
      ScheduledMeans(removal, slots, opts.grace, now);
      var n, e, r := SweepSet(false, now, was, {}, {});
      assert Queue(false) == expiry;
      ListedMeans(expiry, slots, now);
      var m, expired, removed := SweepSet(true, now, was, e, r);
      assert Queue(true) == removal;
      ScheduledMeans(removal, slots, opts.grace, now);
      NotOverdue(slots, now);
      SweepIsDone(opts, was, slots, expired, removed, now);
      return n + m;
    }
  }

  /** The reply of Fetch. */
  function FetchOutcome(r: ScriptReply): Reply
    requires r.code in {CodeState, CodeOk} ==> r.table.Some?
  {
    var e := ReplyError(r);
    if e == None then Payload(r.payload, r.table.value.uploaded) else Failed(e.value)
  }

  function OpenOutcome(r: ScriptReply): Reply
    requires r.code in {CodeState, CodeOk} ==> r.table.Some?
  {
    var e := ReplyError(r);
    if e == None then Payload(r.payload, r.table.value.created) else Failed(e.value)
  }

  function StatusOutcome(r: ScriptReply): Reply
    requires r.code in {CodeState, CodeOk} ==> r.table.Some?
  {
    var e := ReplyError(r);
    if e == None then Report(r.table.value.Status()) else Failed(e.value)
  }

  function NewHash(d: Drop, dropAt: int): SlotHash {
    SlotHash(
      d.kind, d.state, if |d.ciphertext| > 0 then Some(d.ciphertext) else None,
      Some(d.commitment), Some(Encoded(d.tokenA)), Some(Encoded(d.tokenB)), d.agentKeyId,
      d.createdAt, d.expiresAt, d.uploadedAt, d.fetchedAt, d.revokedAt, dropAt)
  }

  lemma NewRepresents(d: Drop, dropAt: int)
    requires d.Live()
    ensures Represents(NewHash(d, dropAt), d) && NewHash(d, dropAt).dropAt == dropAt
  {
  }

  function FilledHash(h: SlotHash, ct: seq<byte>, now: int): SlotHash {
    h.(ct := Some(ct), state := Uploaded, uploaded := now)
  }

  lemma FilledRepresents(h: SlotHash, d: Drop, ct: seq<byte>, now: int)
    requires Represents(h, d) && d.state == Created
    ensures Represents(FilledHash(h, ct, now), d.Filled(ct, now))
  {
  }

  lemma FilledLive(d: Drop, ct: seq<byte>, now: int)
    ensures d.Filled(ct, now).Live() && d.Filled(ct, now).expiresAt == d.expiresAt
  {
  }

  lemma BuriedTerminal(d: Drop, to: State, at: int)
    requires to.Terminal()
    ensures !d.Tombstoned(to, at).Live() && d.Tombstoned(to, at).expiresAt == d.expiresAt
  {
  }

  lemma TombstonedTimes(d: Drop, to: State, at: int)
    ensures d.Tombstoned(to, at).uploadedAt == d.uploadedAt && d.Tombstoned(to, at).createdAt == d.createdAt
  {
  }

  lemma SizeOf(h: SlotHash, d: Drop)
    requires Represents(h, d)
    ensures |d.ciphertext| == if h.ct == None then 0 else |h.ct.value|
  {
  }

  lemma BuriedShows(t: Table, d: Drop, to: State, at: int)
    requires Shows(t, d) && to.Terminal()
    ensures
      Shows(t.(state := to, commitment := "", ta := "", tb := "",
               fetched := if to == Fetched || to == Opened then at else t.fetched,
               revoked := if to == Revoked then at else t.revoked),
            d.Tombstoned(to, at))
  {
  }

  lemma ReadShows(h: SlotHash, d: Drop)
    requires Represents(h, d)
    ensures Shows(Read(h), d)
    ensures h.state == d.state && h.expires == d.expiresAt && h.kind == d.kind
  {
  }

  function Buried(h: SlotHash, to: State, at: int): SlotHash {
    SlotHash(
      h.kind, to, None, None, None, None, h.agent, h.created, h.expires, h.uploaded,
      if to == Fetched || to == Opened then at else h.fetched,
      if to == Revoked then at else h.revoked,
      h.dropAt)
  }

  lemma BuriedRepresents(h: SlotHash, d: Drop, to: State, at: int)
    requires Represents(h, d) && to.Terminal()
    ensures Represents(Buried(h, to, at), d.Tombstoned(to, at))
  {
  }

  const BATCH := 256

  ghost function Members(ids: seq<Id>): set<Id> {
    set i | 0 <= i < |ids| :: ids[i]
  }

  /** The order of a sorted set: by score, members of one score by name. */
  predicate Ahead(queue: map<Id, int>, a: Id, b: Id)
    requires a in queue && b in queue
  {
    queue[a] < queue[b] || (queue[a] == queue[b] && Names.Less(a, b))
  }

  /** The first members scored at or before max, in order; all of them if fewer than count. */
  method RangeByScore(queue: map<Id, int>, max: int, count: nat) returns (ids: seq<Id>)
    ensures |ids| <= count
    ensures forall i, j :: 0 <= i < j < |ids| ==> ids[i] != ids[j]
    ensures forall i :: 0 <= i < |ids| ==> ids[i] in queue && queue[ids[i]] <= max
    ensures forall i, j :: 0 <= i < j < |ids| ==> Ahead(queue, ids[i], ids[j])
    ensures forall id, i :: id in queue && id !in Members(ids) && 0 <= i < |ids| ==> Ahead(queue, ids[i], id)
    ensures |ids| < count ==> forall id :: id in queue && queue[id] <= max ==> id in Members(ids)
  {
    hide Members, Names.Less;
    assert Members([]) == {} by { NoMembers(); }
    var rest := set id | id in queue && queue[id] <= max;
    ids := [];
    while rest != {} && |ids| < count
      invariant |ids| <= count
      invariant forall i, j :: 0 <= i < j < |ids| ==> ids[i] != ids[j]
      invariant forall i :: 0 <= i < |ids| ==> ids[i] in queue && queue[ids[i]] <= max && ids[i] !in rest
      invariant forall i, j :: 0 <= i < j < |ids| ==> Ahead(queue, ids[i], ids[j])
      invariant forall id, i :: id in rest && id in queue && 0 <= i < |ids| ==> Ahead(queue, ids[i], id)
      invariant forall id :: id in queue && queue[id] <= max ==> id in Members(ids) || id in rest
      invariant forall id :: id in rest ==> id in queue && queue[id] <= max
      decreases |rest|
    {
      var id := Foremost(queue, rest);
      MembersAppend(ids, id);
      ids := ids + [id];
      rest := rest - {id};
    }
  }

  method Foremost(queue: map<Id, int>, rest: set<Id>) returns (first: Id)
    requires rest != {} && rest <= queue.Keys
    ensures first in rest && forall id :: id in rest && id != first ==> Ahead(queue, first, id)
  {
    first :| first in rest;
    var left := rest - {first};
    while left != {}
      invariant first in rest && first !in left && left <= rest
      invariant forall id :: id in rest && id !in left && id != first ==> Ahead(queue, first, id)
      decreases |left|
    {
      var id :| id in left;
      Names.LessTotal(id, first);
      if Ahead(queue, id, first) {
        forall other | other in rest && other !in left && other != first
          ensures Ahead(queue, id, other)
        {
          if queue[id] == queue[first] == queue[other] {
            Names.LessTrans(id, first, other);
          }
        }
        first := id;
      }
      left := left - {id};
    }
  }

  lemma NoMembers()
    ensures Members([]) == {}
  {
  }

  lemma MembersAppend(ids: seq<Id>, id: Id)
    ensures Members(ids + [id]) == Members(ids) + {id}
  {
    assert (ids + [id])[|ids|] == id;
    assert forall i :: 0 <= i < |ids| ==> (ids + [id])[i] == ids[i];
  }

  lemma StillQueued(queue: map<Id, int>, ids: seq<Id>, i: nat)
    requires i < |ids| && forall i, j :: 0 <= i < j < |ids| ==> ids[i] != ids[j]
    requires ids[i] in queue
    ensures ids[i] in queue - Members(ids[..i])
    ensures queue - Members(ids[..i]) - {ids[i]} == queue - Members(ids[..i + 1])
  {
    assert Members(ids[..i + 1]) == Members(ids[..i]) + {ids[i]} by {
      assert ids[..i + 1][i] == ids[i];
      assert forall k :: 0 <= k < i ==> ids[..i + 1][k] == ids[..i][k];
    }
  }

  lemma ListedMeans(expiry: map<Id, int>, s: Slots, now: int)
    requires Listed(expiry, s)
    ensures expiry.Keys <= s.Keys
    ensures (forall id :: id in expiry ==> expiry[id] > now) ==> Overdue(s, now) == {}
  {
    forall id | id in Overdue(s, now)
      ensures id in expiry
    {
      assert id in LiveIds(s);
    }
  }

  lemma NotOverdue(s: Slots, now: int)
    requires Overdue(s, now) == {}
    ensures forall id :: id in s && s[id].Live() ==> s[id].expiresAt > now
  {
    forall id | id in s && s[id].Live()
      ensures s[id].expiresAt > now
    {
      assert id !in Overdue(s, now);
    }
  }

  lemma ScheduledMeans(removal: map<Id, int>, s: Slots, grace: int, now: int)
    requires Scheduled(removal, s, grace)
    ensures s.Keys <= removal.Keys
    ensures (forall id :: id in removal ==> removal[id] > now) ==> forall id :: id in s ==>
      s[id].expiresAt + grace > now
  {
  }

  lemma NotListed(expiry: map<Id, int>, s: Slots, id: Id)
    requires Listed(expiry, s) && (id !in s || !s[id].Live())
    ensures id !in expiry && expiry - {id} == expiry
  {
    assert id !in LiveIds(s);
  }

  lemma NoSuchHash(hashes: map<Id, SlotHash>, s: Slots, id: Id)
    requires Stored(hashes, s)
    ensures id in hashes <==> id in s
    ensures id in hashes ==> Represents(hashes[id], s[id]) && hashes[id].state == s[id].state
  {
  }

  lemma RemovalStep(o: Options, s: Slots, id: Id, now: int)
    ensures id in Stale(o, s, now) ==> Step(o, s, OpRemove(id, now)) == (s - {id}, Swept(1))
    ensures id !in Stale(o, s, now) ==> Step(o, s, OpRemove(id, now)) == (s, Swept(0))
    ensures id in s ==> s - {id} != s && (id in Stale(o, s, now) <==> s[id].expiresAt + o.grace <= now)
    ensures id !in s ==> s - {id} == s && id !in Stale(o, s, now)
  {
    assert id in s ==> id !in s - {id};
  }

  lemma DueWhenDropped(hashes: map<Id, SlotHash>, removal: map<Id, int>, s: Slots, grace: int, id: Id)
    requires Scheduled(removal, s, grace) && Lasting(hashes, removal) && id in s && id in hashes
    ensures hashes[id].dropAt >= s[id].expiresAt + grace
  {
  }

  lemma LeavingCounts(s: Slots, id: Id)
    requires WellFormed(s) && id in s
    ensures WellFormed(s - {id}) && Bytes(s - {id}) == Bytes(s) - |s[id].ciphertext|
    ensures Live(s - {id}) == Live(s) - (if s[id].Live() then 1 else 0)
    ensures !s[id].Live() ==> s[id].ciphertext == []
  {
    BytesWithout(s, id);
    if s[id].Live() {
      LiveWithout(s, id);
    } else {
      assert WellFormedSlot(s[id]);
      TombstoneIsEmpty(s, id);
    }
  }
}
