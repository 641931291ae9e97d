/**
 * The two stores give the same answers. Each runs the slot machine step by step; the one
 * difference is that the Redis server also drops old hashes on its own. From then until the
 * memory store sweeps, a call on that slot tells the two apart. No call made before the end of
 * a slot's grace period does, as long as only tombstones are dropped, and not before that.
 */
module StoreEquivalence {
  import opened Prelude
  import opened Slots
  import opened SlotRuns
  import MemoryStore
  import RedisStore

  /** A call made to both stores, or the server dropping a hash. */
  datatype Event = Call(op: Op) | KeyExpiry(id: Id, at: int) {
    function Time(): int {
      if Call? then op.now else at
    }
  }

  /** The Redis slots r hold what the memory slots m hold, but for some tombstones. */
  ghost predicate Agree(m: Slots, r: Slots) {
    && r.Keys <= m.Keys
    && (forall id :: id in r ==> r[id] == m[id])
    && (forall id :: id in m && id !in r ==> !m[id].Live())
  }

  predicate OneReading(op: Op) {
    if op.OpUpload? || op.OpFetch? || op.OpOpen? || op.OpRevoke? then op.at == op.now else true
  }

  /** A call of the stores' interface. */
  predicate StoreCall(op: Op) {
    !op.OpExpire? && !op.OpRemove?
  }

  /** A call as the relay makes it: of the interface, at one clock reading, with an id that is not empty. */
  predicate Regular(op: Op) {
    Proper(op) && OneReading(op) && StoreCall(op) && (op.OpCreate? ==> op.id != "")
  }

  /** Both stores have the id a call names, or neither has; a dropped hash was a tombstone. */
  predicate Allowed(m: Slots, r: Slots, e: Event) {
    match e
    case Call(op) => Regular(op) && (op.OpSweep? || op.id in r || op.id !in m)
    case KeyExpiry(id, _) => id in r && !r[id].Live()
  }

  /**
   * A call on a slot there is comes before the end of its grace period; the server drops a hash
   * only after that, and only if it is a tombstone.
   */
  predicate Timely(o: Options, m: Slots, r: Slots, e: Event) {
    match e
    case Call(op) => Regular(op) && (!op.OpSweep? && op.id in m ==> op.now < m[op.id].expiresAt + o.grace)
    case KeyExpiry(id, at) => id in r && !r[id].Live() && r[id].expiresAt + o.grace <= at
  }

  ghost function MemoryAfter(o: Options, m: Slots, e: Event): Slots {
    if e.Call? then Step(o, m, e.op).0 else m
  }

  ghost function RedisAfter(o: Options, r: Slots, e: Event): Slots {
    if e.Call? then Step(o, r, e.op).0 else r - {e.id}
  }

  /** The memory slots after a run of events, and the replies to its calls. */
  ghost function MemoryRun(o: Options, m: Slots, events: seq<Event>): (Slots, seq<Reply>) {
    if events == [] then (m, [])
    else
      var e := events[|events| - 1];
      var before := MemoryRun(o, m, events[..|events| - 1]);
      (MemoryAfter(o, before.0, e), before.1 + (if e.Call? then [Step(o, before.0, e.op).1] else []))
  }

  ghost function RedisRun(o: Options, r: Slots, events: seq<Event>): (Slots, seq<Reply>) {
    if events == [] then (r, [])
    else
      var e := events[|events| - 1];
      var before := RedisRun(o, r, events[..|events| - 1]);
      (RedisAfter(o, before.0, e), before.1 + (if e.Call? then [Step(o, before.0, e.op).1] else []))
  }

  /** The clock does not run back, and every event of the run is timely when it comes. */
  ghost predicate AllTimely(o: Options, m: Slots, r: Slots, events: seq<Event>) {
    && (forall i, j :: 0 <= i <= j < |events| ==> events[i].Time() <= events[j].Time())
    && (forall i :: 0 <= i < |events| ==>
          Timely(o, MemoryRun(o, m, events[..i]).0, RedisRun(o, r, events[..i]).0, events[i]))
  }

  /** What only the memory store still holds is past its grace period at time t. */
  ghost predicate Past(o: Options, m: Slots, r: Slots, t: int) {
    forall id :: id in m && id !in r ==> m[id].expiresAt + o.grace <= t
  }

  /** The same result; what a sweep counts is the store's own business. */
  predicate SameReply(a: Reply, b: Reply) {
    a == b || (a.Swept? && b.Swept?)
  }

  /** Dropped tombstones are in no count. */
  lemma {:induction false} AgreeCounts(m: Slots, r: Slots)
    requires Agree(m, r) && WellFormed(m)
    ensures LiveIds(m) == LiveIds(r) && Bytes(m) == Bytes(r)
    decreases |m|
  {
    if id :| id in m && id !in r {
      TombstoneIsEmpty(m, id);
      AgreeCounts(m - {id}, r);
    } else {
      assert m.Keys == r.Keys;
      assert m == r;
    }
  }

  /** Lazy expiry keeps the two in agreement and the memory slots well formed. */
  lemma TouchAgrees(m: Slots, r: Slots, id: Id, now: int)
    requires Agree(m, r) && WellFormed(m) && id in r
    ensures Agree(Touch(m, id, now), Touch(r, id, now)) && WellFormed(Touch(m, id, now))
  {
    SeenFollows(m[id], now);
  }

  lemma SameRoom(o: Options, m: Slots, r: Slots, op: Op)
    requires Agree(m, r) && WellFormed(m) && op.OpUpload? && op.id in r
    ensures HasRoom(o, m, op) == HasRoom(o, r, op)
  {
    TouchAgrees(m, r, op.id, op.now);
    AgreeCounts(Touch(m, op.id, op.now), Touch(r, op.id, op.now));
  }

  /** One event: the same reply from both, and they still agree. */
  lemma StepsAgree(o: Options, m: Slots, r: Slots, e: Event)
    requires Agree(m, r) && WellFormed(m) && Allowed(m, r, e)
    ensures Agree(MemoryAfter(o, m, e), RedisAfter(o, r, e)) && WellFormed(MemoryAfter(o, m, e))
    ensures e.Call? ==> SameReply(Step(o, m, e.op).1, Step(o, r, e.op).1)
  {
    if e.Call? {
      StepWellFormed(o, m, e.op);
      if e.op.OpCreate? {
        AgreeCounts(m, r);
      } else if !e.op.OpSweep? && e.op.id in r {
        if e.op.OpUpload? {
          SameRoom(o, m, r, e.op);
        }
        AddressedAgree(o, m, r, e.op);
      }
    }
  }

  lemma AddressedAgree(o: Options, m: Slots, r: Slots, op: Op)
    requires Agree(m, r) && op.Addressed() && op.id in r && HasRoom(o, m, op) == HasRoom(o, r, op)
    ensures Step(o, m, op).1 == Step(o, r, op).1 && Agree(Step(o, m, op).0, Step(o, r, op).0)
  {
    hide SlotStep, Drop.Seen, HasRoom;
  }

  /**
   * On which calls two agreeing stores differ: on those that name a slot whose hash is dropped
   * and whose tombstone memory still holds, and for a creation only if there is room for it.
   */
  lemma StepsAgreeExactly(o: Options, m: Slots, r: Slots, op: Op)
    requires Agree(m, r) && WellFormed(m) && Regular(op) && !op.OpSweep?
    ensures
      SameReply(Step(o, m, op).1, Step(o, r, op).1)
      <==> op.id in r || op.id !in m || (op.OpCreate? && !CanCreate(o, r, op.id, op.drop))
  {
    if op.id in r || op.id !in m {
      StepsAgree(o, m, r, Call(op));
    }
  }

  /** A timely event never meets a slot the stores differ on. */
  lemma TimelyIsAllowed(o: Options, m: Slots, r: Slots, e: Event, t: int)
    requires Past(o, m, r, t) && t <= e.Time() && Timely(o, m, r, e)
    ensures Allowed(m, r, e)
  {
  }

  lemma StaysPast(o: Options, m: Slots, r: Slots, e: Event)
    requires Agree(m, r) && WellFormed(m) && Past(o, m, r, e.Time()) && Timely(o, m, r, e) && Allowed(m, r, e)
    ensures Past(o, MemoryAfter(o, m, e), RedisAfter(o, r, e), e.Time())
  {
    var s, t := MemoryAfter(o, m, e), RedisAfter(o, r, e);
    StepsAgree(o, m, r, e);
    if e.Call? && e.op.OpSweep? {
      AfterSweep(o, m, r, e.op.now);
    } else {
      forall id | id in s && id !in t
        ensures s[id].expiresAt + o.grace <= e.Time()
      {
        if id in m && e.Call? {
          StepFollows(o, m, e.op, id);
        }
      }
    }
  }

  lemma AfterSweep(o: Options, m: Slots, r: Slots, now: int)
    requires Agree(m, r) && Past(o, m, r, now)
    ensures Past(o, Sweep(o, m, now), Sweep(o, r, now), now)
  {
  }

  lemma RunNext(o: Options, m: Slots, r: Slots, events: seq<Event>, i: nat)
    requires i < |events|
    ensures
      var s := MemoryRun(o, m, events[..i]);
      MemoryRun(o, m, events[..i + 1])
        == (MemoryAfter(o, s.0, events[i]), s.1 + (if events[i].Call? then [Step(o, s.0, events[i].op).1] else []))
    ensures
      var s := RedisRun(o, r, events[..i]);
      RedisRun(o, r, events[..i + 1])
        == (RedisAfter(o, s.0, events[i]), s.1 + (if events[i].Call? then [Step(o, s.0, events[i].op).1] else []))
  {
    assert events[..i + 1][..i] == events[..i];
  }

  /** Over any run of timely events both stores give the same replies, and still agree in the end. */
  lemma {:induction false} RunsAgree(o: Options, m: Slots, r: Slots, events: seq<Event>, i: nat)
    requires Agree(m, r) && WellFormed(m) && AllTimely(o, m, r, events) && i <= |events|
    requires events != [] ==> Past(o, m, r, events[0].Time())
    ensures
      var (s, a) := MemoryRun(o, m, events[..i]);
      var (t, b) := RedisRun(o, r, events[..i]);
      && Agree(s, t) && WellFormed(s) && |a| == |b| && (forall k :: 0 <= k < |a| ==> SameReply(a[k], b[k]))
      && (i < |events| ==> Past(o, s, t, events[i].Time()) && Allowed(s, t, events[i]))
  {
    hide Step, Agree, WellFormed, Allowed, Timely, SameReply, MemoryRun, RedisRun, MemoryAfter, RedisAfter, Past;
    if i == 0 {
      NoEvents(o, m, r);
      assert events[..0] == [];
    } else {
      RunsAgree(o, m, r, events, i - 1);
      RunNext(o, m, r, events, i - 1);
      var s, t, e := MemoryRun(o, m, events[..i - 1]).0, RedisRun(o, r, events[..i - 1]).0, events[i - 1];
      StepsAgree(o, s, t, e);
      StaysPast(o, s, t, e);
    }
    var s, t := MemoryRun(o, m, events[..i]).0, RedisRun(o, r, events[..i]).0;
    if i < |events| {
      PastLater(o, s, t, if i == 0 then events[0].Time() else events[i - 1].Time(), events[i].Time());
      TimelyIsAllowed(o, s, t, events[i], events[i].Time());
    }
  }

  lemma PastLater(o: Options, m: Slots, r: Slots, t: int, u: int)
    requires Past(o, m, r, t) && t <= u
    ensures Past(o, m, r, u)
  {
  }

  // ----- What a call after the grace period can see -----

  /** A drop that expires at 5. */
  function Brief(): Drop {
    Drop(KindDrop, Created, [], "", ZERO_HASH, ZERO_HASH, "", 1, 5, 0, 0, 0)
  }

  /** It is created, swept at its expiry, dropped by the server at the end of its grace, and asked about. */
  function LateRun(): seq<Event> {
    [ Call(OpCreate("a", Brief(), 1)), Call(OpSweep(5)), KeyExpiry("a", 15), Call(OpStatus("a", 15)) ]
  }

  /**
   * A call at the end of the grace period, the first that is not timely, tells the stores apart:
   * memory still knows the tombstone, Redis nothing.
   */
  lemma LateCallDiffers()
    ensures
      var o := Options(0, 0, 10);
      var (a, b) := (MemoryRun(o, map[], LateRun()), RedisRun(o, map[], LateRun()));
      && AllTimely(o, map[], map[], LateRun()[..3])
      && Agree(MemoryRun(o, map[], LateRun()[..3]).0, RedisRun(o, map[], LateRun()[..3]).0)
      && a.1 == [Done, Swept(1), Report(Brief().Expire().Status())]
      && b.1 == [Done, Swept(1), Failed(ErrNotFound)]
  {
    hide MemoryRun, RedisRun, Timely, Step, Agree;
    var o, events := Options(0, 0, 10), LateRun();
    var none: Slots, one: Slots, dead: Slots := map[], map["a" := Brief()], map["a" := Brief().Expire()];
    NoEvents(o, none, none);
    assert events[..0] == [] && events[..4] == events;
    RunNext(o, none, none, events, 0);
    RunNext(o, none, none, events, 1);
    RunNext(o, none, none, events, 2);
    RunNext(o, none, none, events, 3);
    LateSteps(o);
    LateTimely(o);
    assert forall i :: 0 <= i < 3 ==> events[..3][..i] == events[..i];
  }

  lemma LateSteps(o: Options)
    requires o == Options(0, 0, 10)
    ensures
      var none: Slots, one: Slots, dead: Slots := map[], map["a" := Brief()], map["a" := Brief().Expire()];
      && Step(o, none, OpCreate("a", Brief(), 1)) == (one, Done)
      && Step(o, one, OpSweep(5)) == (dead, Swept(1))
      && Step(o, dead, OpStatus("a", 15)) == (dead, Report(Brief().Expire().Status()))
      && Step(o, none, OpStatus("a", 15)) == (none, Failed(ErrNotFound))
      && dead - {"a"} == none && Agree(dead, none)
  {
    var one: Slots := map["a" := Brief()];
    assert Overdue(one, 5) == {"a"} && Stale(o, one, 5) == {};
    var dead: Slots := map["a" := Brief().Expire()];
    assert Sweep(o, one, 5) == dead;
    assert dead["a"].Seen(15) == dead["a"] && dead["a" := dead["a"]] == dead;
  }

  lemma LateTimely(o: Options)
    requires o == Options(0, 0, 10)
    ensures
      var none: Slots, one: Slots, dead: Slots := map[], map["a" := Brief()], map["a" := Brief().Expire()];
      var e := LateRun();
      Timely(o, none, none, e[0]) && Timely(o, one, one, e[1]) && Timely(o, dead, dead, e[2])
        && !Timely(o, dead, none, e[3])
  {
  }

  lemma NoEvents(o: Options, m: Slots, r: Slots)
    ensures MemoryRun(o, m, []) == (m, []) && RedisRun(o, r, []) == (r, [])
  {
  }

  /** A call of the memory store is a step of the slot machine. */
  method CallMemory(m: MemoryStore.Memory, op: Op) returns (reply: Reply)
    requires m.Valid() && Proper(op) && StoreCall(op)
    modifies m.Repr, m.parked
    ensures m.Valid() && m.parked == old(m.parked) && fresh(m.Repr - old(m.Repr))
    ensures (m.slots, reply) == Step(m.opts, old(m.slots), op)
  {
    hide Step, MemoryStore.Memory.Valid;
    if op.OpCreate? {
      var ct := MemoryStore.Buffer(op.drop.ciphertext);
      var err := m.Create(op.id, op.drop, ct, op.now);
      reply := MemoryStore.Outcome(err);
    } else if op.OpUpload? {
      var ct := MemoryStore.Buffer(op.ct);
      var err := m.Upload(op.id, op.token, op.commitment, ct, op.now, op.at);
      reply := MemoryStore.Outcome(err);
    } else if op.OpFetch? {
      var ct, at, err := m.Fetch(op.id, op.token, op.now, op.at);
      reply := MemoryStore.Delivery(if ct == null then [] else ct[..], at, err);
    } else if op.OpOpen? {
      var ct, at, err := m.Open(op.id, op.token, op.now, op.at);
      reply := MemoryStore.Delivery(if ct == null then [] else ct[..], at, err);
    } else if op.OpRevoke? {
      var err := m.Revoke(op.id, op.token, op.now, op.at);
      reply := MemoryStore.Outcome(err);
    } else if op.OpStatus? {
      var r := m.Status(op.id, op.now);
      reply := MemoryStore.Reported(r);
    } else {
      var n := m.SweepDue(op.now);
      reply := Swept(n);
    }
  }

  /** A call of the Redis store is a step of the slot machine. */
  method CallRedis(r: RedisStore.Redis, op: Op) returns (reply: Reply)
    requires r.Valid() && Proper(op) && OneReading(op) && StoreCall(op)
    requires "" !in r.removal && (op.OpCreate? ==> op.id != "")
    modifies r
    ensures r.Valid() && "" !in r.removal
    ensures r.removal.Keys <= old(r.removal.Keys) + (if op.OpCreate? then {op.id} else {})
    ensures (r.slots, reply) == Step(r.opts, old(r.slots), op)
  {
    hide Step, RedisStore.Redis.Valid;
    if op.OpCreate? {
      var s := r.Create(op.id, op.drop, op.now);
      reply := RedisStore.Outcome(s);
    } else if op.OpUpload? {
      var s := r.Upload(op.id, op.token, op.commitment, op.ct, op.now);
      reply := RedisStore.Outcome(s);
    } else if op.OpFetch? {
      var s := r.Fetch(op.id, op.token, op.now);
      reply := RedisStore.FetchOutcome(s);
    } else if op.OpOpen? {
      var s := r.Open(op.id, op.token, op.now);
      reply := RedisStore.OpenOutcome(s);
    } else if op.OpRevoke? {
      var s := r.Revoke(op.id, op.token, op.now);
      reply := RedisStore.Outcome(s);
    } else if op.OpStatus? {
      var s := r.Status(op.id, op.now);
      reply := RedisStore.StatusOutcome(s);
    } else {
      var n := r.Sweep(op.now);
      reply := Swept(n);
    }
  }

  /** Whatever is called afterwards, the buffer a fetch or open handed out is left as it was. */
  method DeliverThen(m: MemoryStore.Memory, op: Op, later: seq<Op>) returns (ct: array?<byte>, reply: Reply)
    requires m.Valid() && (op.OpFetch? || op.OpOpen?)
    requires forall i :: 0 <= i < |later| ==> Proper(later[i]) && StoreCall(later[i])
    modifies m.Repr, m.parked
    ensures m.Valid()
    ensures reply == Step(m.opts, old(m.slots), op).1
    ensures m.slots == From(m.opts, Step(m.opts, old(m.slots), op).0, later)
    ensures reply.Payload? ==> MemoryStore.Contents(ct) == reply.ciphertext
  {
    hide Step, MemoryStore.Memory.Valid, From;
    var at: int, err: Option<Error>;
    if op.OpOpen? {
      ct, at, err := m.Open(op.id, op.token, op.now, op.at);
    } else {
      ct, at, err := m.Fetch(op.id, op.token, op.now, op.at);
    }
    reply := MemoryStore.Delivery(if ct == null then [] else ct[..], at, err);
    ghost var handed, s := MemoryStore.Contents(ct), m.slots;
    NoLater(m.opts, s);
    for i := 0 to |later|
      invariant m.Valid() && m.parked == old(m.parked) && fresh(m.Repr - old(m.Repr))
      invariant ct != null ==> ct !in m.Repr
      invariant MemoryStore.Contents(ct) == handed && m.slots == From(m.opts, s, later[..i])
    {
      FromNext(m.opts, s, later[..i], later[i]);
      assert later[..i] + [later[i]] == later[..i + 1];
      var _ := CallMemory(m, later[i]);
    }
    assert later[..|later|] == later;
  }

  lemma NoLater(o: Options, s: Slots)
    ensures From(o, s, []) == s
  {
  }

  /** Runs the same calls on both stores, dropping Redis hashes in between. */
  method RunBoth(m: MemoryStore.Memory, r: RedisStore.Redis, events: seq<Event>) returns (a: seq<Reply>, b: seq<Reply>)
    requires m.Valid() && r.Valid() && r !in m.Repr && m.opts == r.opts && "" !in r.removal
    requires Agree(m.slots, r.slots) && AllTimely(m.opts, m.slots, r.slots, events)
    requires events != [] ==> Past(m.opts, m.slots, r.slots, events[0].Time())
    modifies m.Repr, m.parked, r
    ensures m.Valid() && r.Valid()
    ensures (m.slots, a) == MemoryRun(m.opts, old(m.slots), events)
    ensures (r.slots, b) == RedisRun(r.opts, old(r.slots), events)
    ensures Agree(m.slots, r.slots) && r.live == m.live && r.bytes == m.bytes
    ensures |a| == |b| && forall i :: 0 <= i < |a| ==> SameReply(a[i], b[i])
  {
    hide Step, Agree, Allowed, Timely, Past, SameReply, MemoryRun, RedisRun, RedisStore.Redis.Mirrors,
      RedisStore.Redis.Exact,
      MemoryStore.Memory.Valid;
    a, b := [], [];
    ghost var o, was, held := m.opts, m.slots, r.slots;
    MemoryWellFormed(m);
    NoEvents(o, was, held);
    for i := 0 to |events|
      invariant m.Valid() && r.Valid() && r !in m.Repr && "" !in r.removal
      invariant m.parked == old(m.parked) && fresh(m.Repr - old(m.Repr))
      invariant (m.slots, a) == MemoryRun(o, was, events[..i])
      invariant (r.slots, b) == RedisRun(o, held, events[..i])
    {
      var e := events[i];
      RunsAgree(o, was, held, events, i);
      AllowedMeans(m.slots, r.slots, e);
      RunNext(o, was, held, events, i);
      assert a + [] == a && b + [] == b;
      if e.Call? {
        var x := CallMemory(m, e.op);
        var y := CallRedis(r, e.op);
        a, b := a + [x], b + [y];
      } else {
        r.KeyExpires(e.id, e.at);
      }
    }
    assert events[..|events|] == events;
    RunsAgree(o, was, held, events, |events|);
    SameCounters(m, r);
  }

  lemma AllowedMeans(m: Slots, r: Slots, e: Event)
    requires Allowed(m, r, e)
    ensures e.Call? ==> Regular(e.op)
    ensures e.KeyExpiry? ==> e.id in r && !r[e.id].Live()
  {
  }

  lemma MemoryWellFormed(m: MemoryStore.Memory)
    requires m.Valid()
    ensures WellFormed(m.slots)
  {
  }

  lemma SameCounters(m: MemoryStore.Memory, r: RedisStore.Redis)
    requires m.Valid() && r.Valid() && Agree(m.slots, r.slots)
    ensures r.live == m.live && r.bytes == m.bytes
  {
    AgreeCounts(m.slots, r.slots);
  }

  /**
   * When the server drops a hash it is a tombstone, provided a sweep ran at or after its expiry.
   * That the time has come is not enough: expiry by the clock alone changes no stored slot.
   */
  lemma SweptBeforeDropped(o: Options, ops: seq<Op>, i: nat, j: nat, id: Id, r: Slots)
    requires ProperRun(ops) && i < j <= |ops|
    requires id in StateAt(o, ops, i) && id in r && Agree(StateAt(o, ops, j), r)
    requires ops[i].OpSweep? || ops[i] == OpExpire(id, ops[i].now)
    requires StateAt(o, ops, i)[id].expiresAt <= ops[i].now
    requires forall k :: i < k < j ==> !CreatedAt(o, ops, k, id)
    ensures forall at :: Allowed(StateAt(o, ops, j), r, KeyExpiry(id, at))
  {
    RunFollows(o, ops, i + 1, j, id);
    StateNext(o, ops, i);
  }
}
