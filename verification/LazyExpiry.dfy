/**
 * Lazy expiry equals eager expiry. With a clock that never runs backwards and no capacity
 * limits, sweeps, whole or one id at a time, can be inserted into a run or removed from it
 * without changing the result of any call on a slot, as long as the calls on that slot come
 * before its grace period has passed. Other slots may be used in any way. With any limit at
 * all this fails.
 */
module LazyExpiry {
  import opened Prelude
  import opened Slots
  import opened SlotRuns

  predicate Unlimited(o: Options) {
    o.maxLive <= 0 && o.maxBytes <= 0
  }

  function Last(ops: seq<Op>): Op
    requires ops != []
  {
    ops[|ops| - 1]
  }

  function Front(ops: seq<Op>): seq<Op>
    requires ops != []
  {
    ops[..|ops| - 1]
  }

  /** The run without its sweeps. */
  function Strip(ops: seq<Op>): seq<Op> {
    if ops == [] then []
    else if Last(ops).Housekeeping() then Strip(Front(ops))
    else Strip(Front(ops)) + [Last(ops)]
  }

  /** The clock never runs backwards. */
  ghost predicate Ticking(ops: seq<Op>) {
    forall i, j :: 0 <= i <= j < |ops| ==> ops[i].now <= ops[j].now
  }

  predicate Addresses(op: Op, id: Id) {
    !op.Housekeeping() && op.id == id
  }

  /** Every call on slot id comes before the slot's grace period has passed. */
  ghost predicate Timely(o: Options, plain: seq<Op>, id: Id) {
    plain == [] || (
      && Timely(o, Front(plain), id)
      && var s := After(o, Front(plain));
      && (Addresses(Last(plain), id) && id in s ==> Last(plain).now < s[id].expiresAt + o.grace))
  }

  /** The results of all calls on slot id, in order. */
  ghost function Answers(o: Options, ops: seq<Op>, id: Id): seq<Reply> {
    if ops == [] then []
    else
      Answers(o, Front(ops), id)
      + (if Addresses(Last(ops), id) then [Step(o, After(o, Front(ops)), Last(ops)).1] else [])
  }

  /** Slot id in a swept store s and in a never-swept store u, at time t: the same to any caller. */
  ghost predicate Alike(o: Options, s: Slots, u: Slots, id: Id, t: int) {
    if id in s then id in u && s[id].Seen(t) == u[id].Seen(t)
    else id in u ==> u[id].expiresAt + o.grace <= t
  }

  lemma SeenLater(d: Drop, t: int, t': int)
    requires t <= t'
    ensures d.Seen(t).Seen(t') == d.Seen(t')
    ensures d.Seen(t).expiresAt == d.expiresAt
  {
  }

  lemma AlikeLater(o: Options, s: Slots, u: Slots, id: Id, t: int, t': int)
    requires Alike(o, s, u, id, t) && t <= t'
    ensures Alike(o, s, u, id, t')
  {
    if id in s {
      SeenLater(s[id], t, t');
      SeenLater(u[id], t, t');
    }
  }

  lemma SweepAlike(o: Options, s: Slots, u: Slots, op: Op, id: Id)
    requires Alike(o, s, u, id, op.now) && op.Housekeeping()
    ensures Alike(o, Step(o, s, op).0, u, id, op.now)
  {
    if id in s {
      SeenLater(s[id], op.now, op.now);
      SeenLater(u[id], op.now, op.now);
    }
  }

  /** A call leaves both stores alike, and if it addresses the slot in time it answers alike. */
  lemma CallAlike(o: Options, s: Slots, u: Slots, op: Op, id: Id)
    requires Unlimited(o) && !op.Housekeeping()
    requires Alike(o, s, u, id, op.now)
    requires Addresses(op, id) && id in u ==> op.now < u[id].expiresAt + o.grace
    ensures Alike(o, Step(o, s, op).0, Step(o, u, op).0, id, op.now)
    ensures Addresses(op, id) ==> Step(o, s, op).1 == Step(o, u, op).1
  {
  }

  lemma {:induction false} SweptRunAlike(o: Options, ops: seq<Op>, id: Id)
    requires Unlimited(o) && Ticking(ops) && Timely(o, Strip(ops), id)
    ensures Answers(o, ops, id) == Answers(o, Strip(ops), id)
    ensures ops != [] ==> Alike(o, After(o, ops), After(o, Strip(ops)), id, Last(ops).now)
    ensures ops == [] ==> After(o, ops) == After(o, Strip(ops)) == map[]
  {
    if ops != [] {
      var front, op := Front(ops), Last(ops);
      assert Ticking(front);
      assert !op.Housekeeping() ==> Front(Strip(ops)) == Strip(front) && Last(Strip(ops)) == op;
      SweptRunAlike(o, front, id);
      var s, u := After(o, front), After(o, Strip(front));
      if front != [] {
        AlikeLater(o, s, u, id, Last(front).now, op.now);
      }
      if op.Housekeeping() {
        SweepAlike(o, s, u, op, id);
      } else {
        CallAlike(o, s, u, op, id);
      }
    }
  }

  /** Two runs that differ only in where they sweep answer every timely caller alike. */
  lemma SweepsAreInvisible(o: Options, a: seq<Op>, b: seq<Op>, id: Id)
    requires Unlimited(o) && Ticking(a) && Ticking(b)
    requires Strip(a) == Strip(b) && Timely(o, Strip(a), id)
    ensures Answers(o, a, id) == Answers(o, b, id)
  {
    SweptRunAlike(o, a, id);
    SweptRunAlike(o, b, id);
  }

  // ----- With a limit -----

  /** Where a store sweeps cannot be told by any timely caller, whatever the run. */
  ghost predicate Invisible(o: Options) {
    forall a, b, id ::
      Ticking(a) && Ticking(b) && Strip(a) == Strip(b) && Timely(o, Strip(a), id) ==>
        Answers(o, a, id) == Answers(o, b, id)
  }

  /** A slot created at time 1 that expires at the given time. */
  function Fresh(kind: Kind, ct: seq<byte>, expiresAt: int): Drop {
    Drop(kind, Created, ct, "", ZERO_HASH, ZERO_HASH, "", 1, expiresAt, 0, 0, 0)
  }

  const LAST := "b"

  function LastCreate(ct: seq<byte>): Op {
    OpCreate(LAST, Fresh(KindReveal, ct, 30), 20)
  }

  /** Creations at time 1 of other slots than the last. */
  ghost predicate Filling(ops: seq<Op>) {
    forall i :: 0 <= i < |ops| ==> ops[i].OpCreate? && ops[i].id != LAST && ops[i].now == 1
  }

  lemma OneMore(o: Options, ops: seq<Op>, op: Op, id: Id)
    ensures After(o, ops + [op]) == Step(o, After(o, ops), op).0
    ensures Answers(o, ops + [op], id) == Answers(o, ops, id)
      + (if Addresses(op, id) then [Step(o, After(o, ops), op).1] else [])
    ensures Strip(ops + [op]) == Strip(ops) + (if op.Housekeeping() then [] else [op])
    ensures Timely(o, ops + [op], id) <==>
      Timely(o, ops, id) && (Addresses(op, id) && id in After(o, ops) ==>
        op.now < After(o, ops)[id].expiresAt + o.grace)
  {
    assert Front(ops + [op]) == ops;
  }

  lemma {:induction false} FillingRun(o: Options, ops: seq<Op>)
    requires Filling(ops)
    ensures Strip(ops) == ops && Timely(o, ops, LAST) && Answers(o, ops, LAST) == [] && LAST !in After(o, ops)
  {
    if ops != [] {
      FillingRun(o, Front(ops));
      assert Front(ops) + [Last(ops)] == ops;
      OneMore(o, Front(ops), Last(ops), LAST);
    }
  }

  /** A sweep that makes room shows: one more creation is refused without it and accepted with it. */
  lemma RoomShows(o: Options, ops: seq<Op>, ct: seq<byte>)
    requires Filling(ops)
    requires !CanCreate(o, After(o, ops), LAST, Fresh(KindReveal, ct, 30))
    requires CanCreate(o, Sweep(o, After(o, ops), 10), LAST, Fresh(KindReveal, ct, 30))
    ensures !Invisible(o)
  {
    hide Answers, After, Strip, Timely, CanCreate, Sweep;
    var op := LastCreate(ct);
    FillingRun(o, ops);
    OneMore(o, ops, op, LAST);
    OneMore(o, ops, OpSweep(10), LAST);
    OneMore(o, ops + [OpSweep(10)], op, LAST);
    StepCreates(o, After(o, ops), LAST, op.drop, 20);
    StepCreates(o, Sweep(o, After(o, ops), 10), LAST, op.drop, 20);
    var a, b := ops + [op], ops + [OpSweep(10)] + [op];
    assert Answers(o, a, LAST) == [Failed(ErrFull)] && Answers(o, b, LAST) == [Done];
    assert Ticking(a) && Ticking(b);
  }

  // A run that uses up a limit on live slots.

  function Name(i: nat): Id {
    seq(i, k => 'a')
  }

  function Creation(i: nat): Op {
    OpCreate(Name(i), Fresh(KindDrop, [], 10), 1)
  }

  function Creations(n: nat): seq<Op> {
    seq(n, i requires 0 <= i < n => Creation(i))
  }

  /** The slots after n of the creations. */
  ghost predicate Many(s: Slots, n: nat) {
    && (forall id :: id in s ==> s[id] == Fresh(KindDrop, [], 10) && |id| < n)
    && Live(s) == n && Bytes(s) == 0 && WellFormed(s)
  }

  lemma OneMoreLive(o: Options, s: Slots, n: nat)
    requires n < o.maxLive && Many(s, n)
    ensures Many(Step(o, s, Creation(n)).0, n + 1)
  {
    hide Live, Bytes, WellFormed, Step;
    var d := Fresh(KindDrop, [], 10);
    assert |Name(n)| == n;
    CreatedCounts(s, Name(n), d);
    StepCreates(o, s, Name(n), d, 1);
  }

  lemma {:induction false} ManyLive(o: Options, n: nat)
    requires n <= o.maxLive
    ensures Filling(Creations(n)) && Many(After(o, Creations(n)), n)
  {
    hide Many, Step;
    if n == 0 {
      NoneLive();
    } else {
      ManyLive(o, n - 1);
      assert Creations(n) == Creations(n - 1) + [Creation(n - 1)];
      OneMore(o, Creations(n - 1), Creation(n - 1), LAST);
      OneMoreLive(o, After(o, Creations(n - 1)), n - 1);
      assert Name(n - 1) != LAST by { NotLast(n - 1); }
    }
  }

  lemma NoneLive()
    ensures Many(map[], 0)
  {
    assert LiveIds(map[]) == {};
  }

  lemma NotLast(i: nat)
    ensures Name(i) != LAST
  {
    assert i > 0 ==> Name(i)[0] == 'a';
  }

  /** After a sweep at time 10 a store whose slots all expired then has nothing live. */
  lemma AllSwept(o: Options, s: Slots)
    requires o.grace > 0 && forall id :: id in s ==> s[id].expiresAt == 10
    ensures Live(Sweep(o, s, 10)) == 0
    ensures (forall id :: id in s ==> s[id].Live()) ==> Bytes(Sweep(o, s, 10)) == 0
  {
    var t := Sweep(o, s, 10);
    assert LiveIds(t) == {};
    if forall id :: id in s ==> s[id].Live() {
      NoBytes(t);
    }
  }

  lemma {:induction false} NoBytes(s: Slots)
    requires forall id :: id in s ==> s[id].ciphertext == []
    ensures Bytes(s) == 0
    decreases |s|
  {
    if s != map[] {
      NoBytes(s - {Pick(s)});
    }
  }

  lemma LiveLimitShows(o: Options)
    requires o.grace > 0 && o.maxLive > 0
    ensures !Invisible(o)
  {
    hide Invisible, After, Live, Bytes, Sweep;
    var ops := Creations(o.maxLive);
    ManyLive(o, o.maxLive);
    FillingRun(o, ops);
    AllSwept(o, After(o, ops));
    SweptKeys(o, After(o, ops));
    RoomShows(o, ops, []);
  }

  lemma SweptKeys(o: Options, s: Slots)
    ensures Sweep(o, s, 10).Keys <= s.Keys
  {
  }

  /** One reveal as large as all that may be stored, and a byte more. */
  lemma ByteLimitShows(o: Options)
    requires o.grace > 0 && o.maxBytes > 0 && o.maxLive <= 0
    ensures !Invisible(o)
  {
    hide Invisible, After, Live, Bytes, Sweep;
    var d := Fresh(KindReveal, Zeros(o.maxBytes), 10);
    var op := OpCreate("a", d, 1);
    var ops := [op];
    OneMore(o, [], op, LAST);
    assert [] + [op] == ops;
    OneSlot(d);
    StepCreates(o, map[], "a", d, 1);
    NoSteps(o);
    AllSwept(o, After(o, ops));
    SweptKeys(o, After(o, ops));
    RoomShows(o, ops, [0]);
  }

  lemma NoSteps(o: Options)
    ensures After(o, []) == map[]
  {
  }

  lemma OneSlot(d: Drop)
    ensures Bytes(map[]) == 0 && Bytes(map["a" := d]) == |d.ciphertext|
  {
    BytesPut(map[], "a", d);
  }

  /** Lazy expiry is eager expiry for every run exactly if nothing is limited. */
  lemma LazyIsEagerIffUnlimited(o: Options)
    requires o.grace > 0
    ensures Invisible(o) <==> Unlimited(o)
  {
    if o.maxLive > 0 {
      LiveLimitShows(o);
    } else if o.maxBytes > 0 {
      ByteLimitShows(o);
    } else {
      forall a, b, id | Ticking(a) && Ticking(b) && Strip(a) == Strip(b) && Timely(o, Strip(a), id)
        ensures Answers(o, a, id) == Answers(o, b, id)
      {
        SweepsAreInvisible(o, a, b, id);
      }
    }
  }
}
