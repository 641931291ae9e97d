/**
 * The relay's one-time slots: what a slot is, how it moves through its life, and the slot
 * machine every store implements. A step of the machine is one call of a store, made under
 * the store's lock (or as one script), so any interleaving of clients is a sequence of steps.
 *
 * Times are integers on the relay's clock; 0 is a time that was never set. Operations that
 * read the clock twice take both readings: `now` decides expiry, `at` is what gets recorded.
 */
module Slots {
  import opened Prelude

  type Id = string

  /** A SHA-256 digest; the relay stores digests of tokens, never tokens. */
  datatype Hash = Hash(bytes: seq<byte>)

  const ZERO_HASH := Hash(Zeros(32))

  datatype Kind = KindDrop | KindReveal

  datatype State = Created | Uploaded | Fetched | Opened | Revoked | Expired {
    /** No further transition is possible. */
    predicate Terminal() {
      match this
      case Created | Uploaded => false
      case Fetched | Opened | Revoked | Expired => true
    }
  }

  datatype Drop = Drop(
    kind: Kind,
    state: State,
    ciphertext: seq<byte>,
    commitment: string,
    tokenA: Hash,
    tokenB: Hash,
    agentKeyId: string,
    createdAt: int,
    expiresAt: int,
    uploadedAt: int,
    fetchedAt: int,
    revokedAt: int)
  {
    predicate Live() {
      !state.Terminal()
    }

    /** When the current state was entered. */
    function EnteredAt(): int {
      match state
      case Created => createdAt
      case Uploaded => uploadedAt
      case Fetched | Opened => fetchedAt
      case Revoked => revokedAt
      case Expired => expiresAt
    }

    /** Clears everything but state and timestamps. */
    function Tombstoned(to: State, at: int): Drop {
      Drop(
        kind, to, [], "", ZERO_HASH, ZERO_HASH, agentKeyId, createdAt, expiresAt, uploadedAt,
        if to == Fetched || to == Opened then at else fetchedAt,
        if to == Revoked then at else revokedAt)
    }

    /** The slot without its ciphertext. */
    function Emptied(): Drop {
      this.(ciphertext := [])
    }

    /** The slot after an accepted upload. */
    function Filled(ct: seq<byte>, at: int): Drop {
      this.(ciphertext := ct, state := Uploaded, uploadedAt := at)
    }

    function Expire(): Drop {
      Tombstoned(Expired, expiresAt)
    }

    /** The slot as any call at time now finds it: a live slot past its expiry has expired. */
    function Seen(now: int): Drop {
      if Live() && now >= expiresAt then Expire() else this
    }

    function Status(): StatusReport {
      StatusReport(kind, state, createdAt, expiresAt, uploadedAt, fetchedAt, revokedAt)
    }

    function StateError(): Error {
      ErrState(state, EnteredAt())
    }
  }

  datatype StatusReport = StatusReport(
    kind: Kind,
    state: State,
    createdAt: int,
    expiresAt: int,
    uploadedAt: int,
    fetchedAt: int,
    revokedAt: int)

  datatype Error =
    | ErrNotFound
    | ErrBadToken
    | ErrCommitment
    | ErrFull
    | ErrWrongKind
    | ErrState(state: State, at: int)

  /** Limits of a store; 0 means unlimited. */
  datatype Options = Options(maxLive: int, maxBytes: int, grace: int)

  const DAY_MS := 24 * 60 * 60 * 1000

  /** A grace period that was not set becomes one day. */
  function WithDefaults(o: Options): (r: Options)
    ensures o.grace >= 0 ==> r.grace > 0
  {
    if o.grace == 0 then o.(grace := DAY_MS) else o
  }

  type Slots = map<Id, Drop>

  // ----- Occupancy -----

  ghost function LiveIds(s: Slots): set<Id> {
    set id | id in s && s[id].Live()
  }

  /** Slots that are not tombstones. */
  ghost function Live(s: Slots): nat {
    |LiveIds(s)|
  }

  ghost function Pick(s: Slots): Id
    requires s != map[]
    ensures Pick(s) in s
  {
    assert s.Keys != {};
    var id :| id in s.Keys;
    id
  }

  /** Ciphertext bytes held by all slots together. */
  ghost function Bytes(s: Slots): nat {
    if s == map[] then 0 else |s[Pick(s)].ciphertext| + Bytes(s - {Pick(s)})
  }

  lemma {:induction false} BytesWithout(s: Slots, id: Id)
    requires id in s
    ensures Bytes(s) == |s[id].ciphertext| + Bytes(s - {id})
    decreases |s|
  {
    var k := Pick(s);
    if k != id {
      BytesWithout(s - {k}, id);
      BytesWithout(s - {id}, k);
      assert s - {k} - {id} == s - {id} - {k};
    }
  }

  lemma BytesPut(s: Slots, id: Id, d: Drop)
    ensures Bytes(s[id := d]) == |d.ciphertext| + Bytes(s) - (if id in s then |s[id].ciphertext| else 0)
  {
    BytesWithout(s[id := d], id);
    assert s[id := d] - {id} == s - {id};
    if id in s {
      BytesWithout(s, id);
    } else {
      assert s - {id} == s;
    }
  }

  lemma LivePut(s: Slots, id: Id, d: Drop)
    ensures Live(s[id := d]) == Live(s) - (if id in s && s[id].Live() then 1 else 0) + (if d.Live() then 1 else 0)
  {
    if d.Live() {
      assert LiveIds(s[id := d]) == LiveIds(s) + {id};
    } else {
      assert LiveIds(s[id := d]) == LiveIds(s) - {id};
    }
  }

  // ----- The operations -----

  datatype Reply =
    | Done
    | Payload(ciphertext: seq<byte>, at: int)
    | Report(status: StatusReport)
    | Swept(touched: nat)
    | Failed(error: Error)

  datatype Op =
    | OpCreate(id: Id, drop: Drop, now: int)
    | OpUpload(id: Id, token: Hash, commitment: string, ct: seq<byte>, now: int, at: int)
    | OpFetch(id: Id, token: Hash, now: int, at: int)
    | OpOpen(id: Id, token: Hash, now: int, at: int)
    | OpRevoke(id: Id, token: Hash, now: int, at: int)
    | OpStatus(id: Id, now: int)
    | OpSweep(now: int)
    | OpExpire(id: Id, now: int)
    | OpRemove(id: Id, now: int)
  {
    /** A client's call on a slot it names. */
    predicate Addressed() {
      OpUpload? || OpFetch? || OpOpen? || OpRevoke? || OpStatus?
    }

    /** What a store does on its own: a whole sweep, or one id of a sweep that others come between. */
    predicate Housekeeping() {
      OpSweep? || OpExpire? || OpRemove?
    }
  }

  // What each call does to the slot it addresses, once lazy expiry has been applied to it.

  function UploadSlot(d: Drop, token: Hash, commitment: string, ct: seq<byte>, room: bool, at: int): (Drop, Reply) {
    if d.kind != KindDrop then (d, Failed(ErrWrongKind))
    else if !d.Live() then (d, Failed(d.StateError()))
    else if d.tokenA != token then (d, Failed(ErrBadToken))
    else if d.state != Created then (d, Failed(d.StateError()))
    else if d.commitment != commitment then (d, Failed(ErrCommitment))
    else if !room then (d, Failed(ErrFull))
    else (d.Filled(ct, at), Done)
  }

  function FetchSlot(d: Drop, token: Hash, at: int): (Drop, Reply) {
    if d.kind != KindDrop then (d, Failed(ErrWrongKind))
    else if !d.Live() then (d, Failed(d.StateError()))
    else if d.tokenB != token then (d, Failed(ErrBadToken))
    else if d.state != Uploaded then (d, Failed(d.StateError()))
    else (d.Tombstoned(Fetched, at), Payload(d.ciphertext, d.uploadedAt))
  }

  function OpenSlot(d: Drop, token: Hash, at: int): (Drop, Reply) {
    if d.kind != KindReveal then (d, Failed(ErrWrongKind))
    else if !d.Live() then (d, Failed(d.StateError()))
    else if d.tokenA != token then (d, Failed(ErrBadToken))
    else (d.Tombstoned(Opened, at), Payload(d.ciphertext, d.createdAt))
  }

  function RevokeSlot(d: Drop, token: Hash, at: int): (Drop, Reply) {
    if !d.Live() then (d, Failed(d.StateError()))
    else if d.tokenA != token && d.tokenB != token then (d, Failed(ErrBadToken))
    else (d.Tombstoned(Revoked, at), Done)
  }

  function SlotStep(d: Drop, op: Op, room: bool): (Drop, Reply)
    requires op.Addressed()
  {
    match op
    case OpUpload(_, token, commitment, ct, _, at) => UploadSlot(d, token, commitment, ct, room, at)
    case OpFetch(_, token, _, at) => FetchSlot(d, token, at)
    case OpOpen(_, token, _, at) => OpenSlot(d, token, at)
    case OpRevoke(_, token, _, at) => RevokeSlot(d, token, at)
    case OpStatus(_, _) => (d, Report(d.Status()))
  }

  /** Lazy expiry of one slot in place. */
  function Touch(s: Slots, id: Id, now: int): (t: Slots)
    requires id in s
    ensures t.Keys == s.Keys
    ensures forall k :: k in s && k != id ==> t[k] == s[k]
  {
    s[id := s[id].Seen(now)]
  }

  /** Whether n more ciphertext bytes fit. */
  ghost predicate Room(o: Options, s: Slots, n: nat) {
    o.maxBytes > 0 ==> Bytes(s) + n <= o.maxBytes
  }

  ghost predicate CanCreate(o: Options, s: Slots, id: Id, d: Drop) {
    && id !in s
    && (o.maxLive > 0 ==> Live(s) < o.maxLive)
    && Room(o, s, |d.ciphertext|)
  }

  /** Live slots whose time has passed. */
  function Overdue(s: Slots, now: int): set<Id> {
    set id | id in s && s[id].Live() && s[id].expiresAt <= now
  }

  /** Slots whose grace period has passed. */
  function Stale(o: Options, s: Slots, now: int): set<Id> {
    set id | id in s && s[id].expiresAt + o.grace <= now
  }

  /** Expires what is overdue, removes what is stale, leaves every other slot alone. */
  function Sweep(o: Options, s: Slots, now: int): Slots {
    map id | id in s && id !in Stale(o, s, now) :: s[id].Seen(now)
  }

  /** Whether the ciphertext of an upload fits, as seen by the call that brings it. */
  ghost predicate HasRoom(o: Options, s: Slots, op: Op)
    requires op.Addressed() && op.id in s
  {
    op.OpUpload? ==> Room(o, Touch(s, op.id, op.now), |op.ct|)
  }

  ghost function Step(o: Options, s: Slots, op: Op): (Slots, Reply) {
    if op.OpCreate? then
      if CanCreate(o, s, op.id, op.drop) then (s[op.id := op.drop], Done) else (s, Failed(ErrFull))
    else if op.OpSweep? then
      (Sweep(o, s, op.now), Swept(|Overdue(s, op.now)| + |Stale(o, s, op.now)|))
    else if op.OpExpire? then
      if op.id in Overdue(s, op.now) then (s[op.id := s[op.id].Expire()], Swept(1)) else (s, Swept(0))
    else if op.OpRemove? then
      if op.id in Stale(o, s, op.now) then (s - {op.id}, Swept(1)) else (s, Swept(0))
    else if op.id !in s then
      (s, Failed(ErrNotFound))
    else
      var r := SlotStep(s[op.id].Seen(op.now), op, HasRoom(o, s, op));
      (s[op.id := r.0], r.1)
  }

  /** A step on a known slot, told from the slots after lazy expiry. */
  lemma StepAddressed(o: Options, s: Slots, op: Op, t: Slots, r: (Drop, Reply))
    requires op.Addressed() && op.id in s
    requires t == Touch(s, op.id, op.now)
    requires r == SlotStep(t[op.id], op, HasRoom(o, s, op))
    ensures Step(o, s, op) == (t[op.id := r.0], r.1)
    ensures r.0 == t[op.id] ==> Step(o, s, op) == (t, r.1)
  {
    assert t[op.id] == s[op.id].Seen(op.now);
    assert t[op.id := r.0] == s[op.id := r.0];
    assert t[op.id := t[op.id]] == t;
  }

  lemma TombstonedKeeps(d: Drop, to: State, at: int)
    ensures d.Tombstoned(to, at).state == to && d.Tombstoned(to, at).expiresAt == d.expiresAt
  {
  }

  lemma StepCreates(o: Options, s: Slots, id: Id, d: Drop, now: int)
    ensures CanCreate(o, s, id, d) ==> Step(o, s, OpCreate(id, d, now)) == (s[id := d], Done)
    ensures !CanCreate(o, s, id, d) ==> Step(o, s, OpCreate(id, d, now)) == (s, Failed(ErrFull))
  {
  }

  lemma StepMissing(o: Options, s: Slots, op: Op)
    requires op.Addressed() && op.id !in s
    ensures Step(o, s, op) == (s, Failed(ErrNotFound))
  {
  }

  // ----- What callers pass, and what every slot then looks like -----

  /** A new slot as both handlers build it: created, never used, and empty if it is a drop. */
  predicate NewSlot(d: Drop) {
    && d.state == Created
    && d.uploadedAt == 0 && d.fetchedAt == 0 && d.revokedAt == 0
    && (d.kind == KindDrop ==> d.ciphertext == [])
  }

  predicate Proper(op: Op) {
    op.OpCreate? ==> NewSlot(op.drop)
  }

  /** Tombstones hold no secret; a drop holds ciphertext only while it is uploaded; reveals never are. */
  predicate WellFormedSlot(d: Drop) {
    && (d.state.Terminal() ==>
      d.ciphertext == [] && d.commitment == "" && d.tokenA == ZERO_HASH && d.tokenB == ZERO_HASH)
    && (d.state == Created && d.kind == KindDrop ==> d.ciphertext == [])
    && (d.state in {Uploaded, Fetched} ==> d.kind == KindDrop)
    && (d.state == Opened ==> d.kind == KindReveal)
  }

  ghost predicate WellFormed(s: Slots) {
    forall id :: id in s ==> WellFormedSlot(s[id])
  }

  // ----- How each change of one slot moves the two counts -----

  lemma CreatedCounts(s: Slots, id: Id, d: Drop)
    requires WellFormed(s) && id !in s && NewSlot(d)
    ensures LiveIds(s[id := d]) == LiveIds(s) + {id}
    ensures Live(s[id := d]) == Live(s) + 1 && Bytes(s[id := d]) == Bytes(s) + |d.ciphertext| && WellFormed(s[id := d])
  {
    LivePut(s, id, d);
    BytesPut(s, id, d);
  }

  /** Counting a stored slot as one more live slot is right exactly if it is live. */
  lemma StoredCounts(s: Slots, id: Id, d: Drop)
    requires id !in s
    ensures Live(s[id := d]) == Live(s) + 1 <==> d.Live()
    ensures Bytes(s[id := d]) == Bytes(s) + |d.ciphertext|
  {
    LivePut(s, id, d);
    BytesPut(s, id, d);
  }

  /** Adding an upload's length without taking off what was there is right exactly if nothing was. */
  lemma RefilledCounts(s: Slots, id: Id, ct: seq<byte>, at: int)
    requires id in s
    ensures Bytes(s[id := s[id].Filled(ct, at)]) == Bytes(s) + |ct| <==> s[id].ciphertext == []
  {
    BytesPut(s, id, s[id].Filled(ct, at));
  }

  /** An accepted upload adds exactly its own length: a created drop held nothing. */
  lemma FilledCounts(s: Slots, id: Id, ct: seq<byte>, at: int)
    requires WellFormed(s) && id in s && s[id].state == Created && s[id].kind == KindDrop
    ensures
      var e := s[id].Filled(ct, at);
      var t := s[id := e];
      && Live(t) == Live(s) && Bytes(t) == Bytes(s) + |ct| && WellFormed(t)
      && LiveIds(t) == LiveIds(s) && e.expiresAt == s[id].expiresAt
  {
    LivePut(s, id, s[id].Filled(ct, at));
    BytesPut(s, id, s[id].Filled(ct, at));
    assert WellFormedSlot(s[id]);
  }

  /** A live slot that becomes a tombstone leaves both counters and stays well formed. */
  lemma TombstoneCounts(s: Slots, id: Id, to: State, at: int)
    requires WellFormed(s) && id in s && s[id].Live() && to.Terminal()
    requires (to == Fetched ==> s[id].kind == KindDrop) && (to == Opened ==> s[id].kind == KindReveal)
    ensures
      var t := s[id := s[id].Tombstoned(to, at)];
      && Live(t) == Live(s) - 1 && Bytes(t) == Bytes(s) - |s[id].ciphertext| && WellFormed(t)
      && LiveIds(t) == LiveIds(s) - {id} && t[id].expiresAt == s[id].expiresAt
  {
    LivePut(s, id, s[id].Tombstoned(to, at));
    BytesPut(s, id, s[id].Tombstoned(to, at));
  }

  lemma TombstoneIsEmpty(s: Slots, id: Id)
    requires WellFormed(s) && id in s && !s[id].Live()
    ensures LiveIds(s - {id}) == LiveIds(s) && id !in LiveIds(s)
    ensures Live(s - {id}) == Live(s) && Bytes(s - {id}) == Bytes(s) && WellFormed(s - {id})
  {
    assert WellFormedSlot(s[id]);
    BytesWithout(s, id);
    assert LiveIds(s - {id}) == LiveIds(s);
  }

  /** Handing the ciphertext over first changes nothing about the tombstone. */
  lemma HandOverCounts(s: Slots, id: Id, to: State, at: int)
    requires WellFormed(s) && id in s && to.Terminal()
    ensures
      var e := s[id].Emptied();
      var t := s[id := e];
      && Live(t) == Live(s) && Bytes(t) == Bytes(s) - |s[id].ciphertext| && WellFormed(t)
      && e.Tombstoned(to, at) == s[id].Tombstoned(to, at)
      && t[id := e.Tombstoned(to, at)] == s[id := s[id].Tombstoned(to, at)]
  {
    LivePut(s, id, s[id].Emptied());
    BytesPut(s, id, s[id].Emptied());
    assert WellFormedSlot(s[id]);
  }

  /** Losing a live slot behind the back of the counters leaves them one too high. */
  lemma LiveWithout(s: Slots, id: Id)
    requires WellFormed(s) && id in s && s[id].Live()
    ensures LiveIds(s - {id}) == LiveIds(s) - {id} && id in LiveIds(s)
    ensures Live(s - {id}) == Live(s) - 1 && WellFormed(s - {id})
  {
  }
}
