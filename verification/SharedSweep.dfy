/**
 * A Redis sweep as it runs: a loop of range queries and scripts, each script with its own clock
 * reading, and before each of them any calls other clients make, other relays' sweeps included,
 * finitely many in all. It is no step of the slot machine but a run of many; what it promises
 * it still keeps. New slots have ids that were never scheduled before, as random ids do.
 */
module SharedSweep {
  import opened Prelude
  import opened Slots
  import opened SlotRuns
  import opened RedisStore
  import opened StoreEquivalence
  import LazyExpiry

  /** What may happen between two scripts. */
  predicate Foreign(op: Op) {
    Proper(op) && OneReading(op) && StoreCall(op)
  }

  function Created(row: seq<Op>): set<Id> {
    set i | 0 <= i < |row| && row[i].OpCreate? :: row[i].id
  }

  /** Calls of others that create only ids not known yet. */
  ghost predicate FreshRow(row: seq<Op>, known: set<Id>) {
    && (forall i :: 0 <= i < |row| ==> Foreign(row[i]))
    && (forall id :: id in Created(row) ==> id != "" && id !in known)
  }

  ghost predicate FreshRows(rows: seq<seq<Op>>, known: set<Id>)
    decreases |rows|
  {
    rows == [] || (FreshRow(rows[0], known) && FreshRows(rows[1..], known + Created(rows[0])))
  }

  function Flatten(rows: seq<seq<Op>>): seq<Op> {
    if rows == [] then [] else rows[0] + Flatten(rows[1..])
  }

  /** The calls of a run that are not the sweep's own scripts. */
  function Calls(ops: seq<Op>): seq<Op> {
    if ops == [] then []
    else
      var last := ops[|ops| - 1];
      Calls(ops[..|ops| - 1]) + (if StoreCall(last) then [last] else [])
  }

  lemma {:induction false} CallsAppend(a: seq<Op>, b: seq<Op>)
    ensures Calls(a + b) == Calls(a) + Calls(b)
  {
    if b == [] {
      assert a + b == a;
    } else {
      assert (a + b)[..|a + b| - 1] == a + b[..|b| - 1];
      CallsAppend(a, b[..|b| - 1]);
    }
  }

  lemma {:induction false} CallsOfRow(row: seq<Op>)
    requires forall i :: 0 <= i < |row| ==> StoreCall(row[i])
    ensures Calls(row) == row
  {
    if row != [] {
      CallsOfRow(row[..|row| - 1]);
      assert row[..|row| - 1] + [row[|row| - 1]] == row;
    }
  }

  /** What becomes of a slot that is not created anew. */
  predicate Aged(d: Drop, e: Drop) {
    e.expiresAt == d.expiresAt && (!d.Live() ==> !e.Live())
  }

  /** Slots with known ids only age or go. */
  ghost predicate Ages(was: Slots, s: Slots, known: set<Id>) {
    forall id :: id in known && id in s ==> id in was && Aged(was[id], s[id])
  }

  lemma AgesTrans(a: Slots, b: Slots, c: Slots, known: set<Id>)
    requires Ages(a, b, known) && Ages(b, c, known)
    ensures Ages(a, c, known)
  {
  }

  lemma StepAges(o: Options, s: Slots, op: Op, known: set<Id>)
    requires WellFormed(s) && Proper(op) && (op.OpCreate? ==> op.id !in known)
    ensures Ages(s, Step(o, s, op).0, known)
  {
    hide Step;
    forall id | id in known && id in Step(o, s, op).0
      ensures id in s && Aged(s[id], Step(o, s, op).0[id])
    {
      if id in s {
        StepFollows(o, s, op, id);
      } else {
        NotAppearing(o, s, op, id);
      }
    }
  }

  lemma NotAppearing(o: Options, s: Slots, op: Op, id: Id)
    requires id !in s && (op.OpCreate? ==> op.id != id)
    ensures id !in Step(o, s, op).0
  {
  }

  lemma {:induction false} RowAges(o: Options, s: Slots, row: seq<Op>, known: set<Id>)
    requires WellFormed(s) && ProperRun(row) && Created(row) !! known
    ensures WellFormed(From(o, s, row)) && Ages(s, From(o, s, row), known)
  {
    if row != [] {
      var front, last := row[..|row| - 1], row[|row| - 1];
      assert last.OpCreate? ==> last.id in Created(row);
      assert Created(front) <= Created(row);
      RowAges(o, s, front, known);
      StepWellFormed(o, From(o, s, front), last);
      StepAges(o, From(o, s, front), last, known);
      AgesTrans(s, From(o, s, front), From(o, s, row), known);
    }
  }

  /** Other clients' calls, one after the other. */
  method RunRow(r: Redis, row: seq<Op>, ghost known: set<Id>)
    requires r.Valid() && "" !in r.removal && FreshRow(row, known)
    modifies r
    ensures r.Valid() && "" !in r.removal
    ensures r.slots == From(r.opts, old(r.slots), row)
    ensures r.removal.Keys <= old(r.removal.Keys) + Created(row)
  {
    hide Redis.Mirrors, Redis.Exact, Step, From;
    NoLater(r.opts, r.slots);
    for i := 0 to |row|
      invariant r.Valid() && "" !in r.removal
      invariant r.slots == From(r.opts, old(r.slots), row[..i])
      invariant r.removal.Keys <= old(r.removal.Keys) + Created(row)
    {
      assert row[i].OpCreate? ==> row[i].id in Created(row);
      FromNext(r.opts, old(r.slots), row[..i], row[i]);
      assert row[..i] + [row[i]] == row[..i + 1];
      var _ := CallRedis(r, row[i]);
    }
    assert row[..|row|] == row;
  }

  /** One script of the sweep on one id. */
  method Script(r: Redis, remove: bool, id: Id, ghost now: int, time: int) returns (n: nat, ghost op: Op)
    requires r.Valid() && "" !in r.removal && now <= time
    requires remove && id in r.slots ==> r.slots[id].expiresAt + r.opts.grace <= now
    requires !remove && id in r.slots && r.slots[id].Live() ==> r.slots[id].expiresAt <= now
    modifies r
    ensures r.Valid() && "" !in r.removal && r.removal.Keys <= old(r.removal.Keys)
      && r.expiry.Keys <= old(r.expiry.Keys)
    ensures op == if remove then OpRemove(id, time) else OpExpire(id, time)
    ensures (r.slots, Swept(n)) == Step(r.opts, old(r.slots), op)
    ensures remove ==> id !in r.slots && id !in r.removal
    ensures !remove ==> !(id in r.slots && r.slots[id].Live())
  {
    hide Redis.Mirrors, Redis.Exact, Drop.Tombstoned;
    if remove {
      op := OpRemove(id, time);
      n := r.RemoveScript(id, time);
    } else {
      op := OpExpire(id, time);
      if id in r.slots {
        TombstonedKeeps(r.slots[id], Expired, r.slots[id].expiresAt);
      }
      n := r.ExpireScript(id, time);
    }
  }

  /** An id the sweep has dealt with: removed and not scheduled any more, or not live any more. */
  ghost predicate Settled(remove: bool, removal: set<Id>, s: Slots, id: Id) {
    if remove then id !in s && id !in removal else !(id in s && s[id].Live())
  }

  /** What stays true of known ids while a sweep and others go on. */
  ghost predicate Onward(was: Slots, s: Slots, removalWas: set<Id>, removal: set<Id>, known: set<Id>) {
    Ages(was, s, known) && (forall id :: id in known && id in removal ==> id in removalWas)
  }

  lemma OnwardTrans(a: Slots, b: Slots, c: Slots, p: set<Id>, q: set<Id>, r: set<Id>, known: set<Id>, more: set<Id>)
    requires Onward(a, b, p, q, known) && Onward(b, c, q, r, more) && known <= more
    ensures Onward(a, c, p, r, known)
  {
  }

  /** What is settled stays so. */
  lemma SettledStays(remove: bool, was: Slots, s: Slots, p: set<Id>, q: set<Id>, known: set<Id>, id: Id)
    requires Onward(was, s, p, q, known) && id in known && Settled(remove, p, was, id)
    ensures Settled(remove, q, s, id)
  {
  }

  /** How many slots the scripts of a run touched. */
  ghost function Touched(o: Options, s: Slots, ops: seq<Op>): nat {
    if ops == [] then 0
    else
      var front, last := ops[..|ops| - 1], ops[|ops| - 1];
      var reply := Step(o, From(o, s, front), last).1;
      Touched(o, s, front) + (if !StoreCall(last) && reply.Swept? then reply.touched else 0)
  }

  lemma TouchedNext(o: Options, s: Slots, ops: seq<Op>, op: Op)
    ensures
      var reply := Step(o, From(o, s, ops), op).1;
      Touched(o, s, ops + [op]) == Touched(o, s, ops) + (if !StoreCall(op) && reply.Swept? then reply.touched else 0)
  {
    assert (ops + [op])[..|ops|] == ops;
  }

  lemma {:induction false} TouchedRow(o: Options, s: Slots, ops: seq<Op>, row: seq<Op>)
    requires forall i :: 0 <= i < |row| ==> StoreCall(row[i])
    ensures Touched(o, s, ops + row) == Touched(o, s, ops)
  {
    hide Step, From, Touched;
    if row == [] {
      assert ops + row == ops;
    } else {
      TouchedRow(o, s, ops, row[..|row| - 1]);
      TouchedNext(o, s, ops + row[..|row| - 1], row[|row| - 1]);
      assert (ops + row[..|row| - 1]) + [row[|row| - 1]] == ops + row;
    }
  }

  /** The run so far, from slots `was`: the rows used up and the scripts between them. */
  ghost predicate Trace(o: Options, was: Slots, s: Slots, trace: seq<Op>, touched: nat, rows: seq<seq<Op>>,
      left: seq<seq<Op>>) {
    && s == From(o, was, trace) && ProperRun(trace) && touched == Touched(o, was, trace)
    && Flatten(rows) == Calls(trace) + Flatten(left)
  }

  lemma TraceStarts(o: Options, was: Slots, rows: seq<seq<Op>>)
    ensures Trace(o, was, was, [], 0, rows, rows)
  {
  }

  lemma TraceRow(o: Options, was: Slots, s: Slots, trace: seq<Op>, touched: nat, rows: seq<seq<Op>>, left: seq<seq<Op>>)
    requires Trace(o, was, s, trace, touched, rows, left) && left != []
    requires forall i :: 0 <= i < |left[0]| ==> Foreign(left[0][i])
    ensures Trace(o, was, From(o, s, left[0]), trace + left[0], touched, rows, left[1..])
  {
    FromAppend(o, was, trace, left[0]);
    TouchedRow(o, was, trace, left[0]);
    CallsAppend(trace, left[0]);
    CallsOfRow(left[0]);
    Regroup(Calls(trace), left[0], Flatten(left[1..]));
  }

  lemma TraceScript(o: Options, was: Slots, s: Slots, trace: seq<Op>, touched: nat, rows: seq<seq<Op>>,
      left: seq<seq<Op>>, op: Op, n: nat)
    requires Trace(o, was, s, trace, touched, rows, left) && !StoreCall(op) && Step(o, s, op).1 == Swept(n)
    ensures Trace(o, was, Step(o, s, op).0, trace + [op], touched + n, rows, left)
  {
    FromNext(o, was, trace, op);
    TouchedNext(o, was, trace, op);
    assert (trace + [op])[..|trace|] == trace;
    assert Calls(trace + [op]) == Calls(trace);
  }

  /** Where a sweep stands: its run so far, the rows still to come, the ids that are known. */
  datatype Progress = Progress(trace: seq<Op>, touched: nat, left: seq<seq<Op>>, known: set<Id>)

  ghost predicate Standing(r: Redis, was: Slots, rows: seq<seq<Op>>, p: Progress)
    reads r
  {
    && r.Valid() && "" !in r.removal && r.removal.Keys <= p.known && FreshRows(p.left, p.known)
    && Trace(r.opts, was, r.slots, p.trace, p.touched, rows, p.left)
  }

  /** The next row of other clients' calls, if any is left. */
  method NextRow(r: Redis, left: seq<seq<Op>>, ghost was: Slots, ghost rows: seq<seq<Op>>, ghost p: Progress)
    returns (rest: seq<seq<Op>>, ghost q: Progress)
    requires Standing(r, was, rows, p) && left == p.left
    modifies r
    ensures Standing(r, was, rows, q) && q.left == rest && p.known <= q.known && q.touched == p.touched
    ensures Onward(old(r.slots), r.slots, old(r.removal.Keys), r.removal.Keys, p.known)
    ensures left == [] ==>
      rest == [] && r.slots == old(r.slots) && r.removal == old(r.removal) && r.expiry == old(r.expiry)
    ensures left != [] ==> |rest| < |left|
  {
    hide Redis.Mirrors, Redis.Exact, Trace, From, Step;
    rest, q := left, p;
    if left == [] {
      AgesSame(r.slots, p.known);
      return;
    }
    WellFormedSlots(r);
    RowIsProper(left[0], p.known);
    RowAges(r.opts, r.slots, left[0], p.known);
    TraceRow(r.opts, was, r.slots, p.trace, p.touched, rows, left);
    RunRow(r, left[0], p.known);
    rest := left[1..];
    q := Progress(p.trace + left[0], p.touched, rest, p.known + Created(left[0]));
  }

  lemma AgesSame(s: Slots, known: set<Id>)
    ensures Ages(s, s, known)
  {
  }

  lemma WellFormedSlots(r: Redis)
    requires r.Valid()
    ensures WellFormed(r.slots) && r.slots.Keys <= r.removal.Keys
  {
    ScheduledMeans(r.removal, r.slots, r.opts.grace, 0);
  }

  lemma RowIsProper(row: seq<Op>, known: set<Id>)
    requires FreshRow(row, known)
    ensures ProperRun(row) && Created(row) !! known
  {
  }

  /** The script on one id, after whatever others do first. */
  method NextScript(r: Redis, remove: bool, id: Id, now: int, time: int, left: seq<seq<Op>>,
      ghost was: Slots, ghost rows: seq<seq<Op>>, ghost p: Progress)
    returns (rest: seq<seq<Op>>, n: nat, ghost q: Progress)
    requires Standing(r, was, rows, p) && left == p.left && now <= time
    requires id in p.known && Due(r, remove, id, now)
    modifies r
    ensures Standing(r, was, rows, q) && q.left == rest && p.known <= q.known && q.touched == p.touched + n
    ensures Onward(old(r.slots), r.slots, old(r.removal.Keys), r.removal.Keys, p.known)
    ensures Settled(remove, r.removal.Keys, r.slots, id)
    ensures left == [] ==> rest == [] && r.removal.Keys <= old(r.removal.Keys) && r.expiry.Keys <= old(r.expiry.Keys)
    ensures left != [] ==> |rest| < |left|
  {
    hide Redis.Mirrors, Redis.Exact, Trace, From, Step, Aged;
    ghost var mid;
    rest, mid := NextRow(r, left, was, rows, p);
    StillDue(old(r.slots), r.slots, remove, id, now, r.opts.grace, p.known);
    ghost var s, removal := r.slots, r.removal.Keys;
    ghost var op;
    WellFormedSlots(r);
    n, op := Script(r, remove, id, now, time);
    StepAges(r.opts, s, op, mid.known);
    TraceScript(r.opts, was, s, mid.trace, mid.touched, rows, rest, op, n);
    q := Progress(mid.trace + [op], mid.touched + n, rest, mid.known);
    OnwardTrans(old(r.slots), s, r.slots, old(r.removal.Keys), removal, r.removal.Keys, p.known, mid.known);
  }

  /** A slot a script is meant for is due by the time the sweep began. */
  ghost predicate DueIn(s: Slots, remove: bool, id: Id, now: int, grace: int) {
    id in s ==> if remove then s[id].expiresAt + grace <= now else s[id].expiresAt <= now
  }

  ghost predicate Due(r: Redis, remove: bool, id: Id, now: int)
    reads r
  {
    DueIn(r.slots, remove, id, now, r.opts.grace)
  }

  lemma StillDue(was: Slots, s: Slots, remove: bool, id: Id, now: int, grace: int, known: set<Id>)
    requires Ages(was, s, known) && id in known && DueIn(was, remove, id, now, grace)
    ensures DueIn(s, remove, id, now, grace)
  {
  }

  /** A queued id is due when its score is. */
  lemma QueuedIsDue(r: Redis, remove: bool, id: Id, now: int)
    requires r.Valid() && id in r.Queue(remove) && r.Queue(remove)[id] <= now
    ensures Due(r, remove, id, now) && id in r.removal
  {
    WellFormedSlots(r);
  }

  /** The scripts of one batch. */
  method Batch(r: Redis, remove: bool, ids: seq<Id>, now: int, clock: (bool, Id) -> int, left: seq<seq<Op>>,
      ghost was: Slots, ghost rows: seq<seq<Op>>, ghost p: Progress)
    returns (rest: seq<seq<Op>>, n: nat, ghost q: Progress)
    requires Standing(r, was, rows, p) && left == p.left && forall id :: now <= clock(remove, id)
    requires forall i :: 0 <= i < |ids| ==> ids[i] in p.known && Due(r, remove, ids[i], now)
    modifies r
    ensures Standing(r, was, rows, q) && q.left == rest && p.known <= q.known && q.touched == p.touched + n
    ensures Onward(old(r.slots), r.slots, old(r.removal.Keys), r.removal.Keys, p.known)
    ensures forall i :: 0 <= i < |ids| ==> Settled(remove, r.removal.Keys, r.slots, ids[i])
    ensures left == [] ==> rest == [] && r.removal.Keys <= old(r.removal.Keys) && r.expiry.Keys <= old(r.expiry.Keys)
    ensures left != [] && ids != [] ==> |rest| < |left|
    ensures |rest| <= |left|
  {
    hide Redis.Mirrors, Redis.Exact, Standing, Settled, DueIn, Aged;
    rest, n, q := left, 0, p;
    OnwardSame(r.slots, r.removal.Keys, p.known);
    for i := 0 to |ids|
      invariant Standing(r, was, rows, q) && q.left == rest && p.known <= q.known && q.touched == p.touched + n
      invariant Onward(old(r.slots), r.slots, old(r.removal.Keys), r.removal.Keys, p.known)
      invariant forall k :: 0 <= k < i ==> Settled(remove, r.removal.Keys, r.slots, ids[k])
      invariant left == [] ==>
        rest == [] && r.removal.Keys <= old(r.removal.Keys) && r.expiry.Keys <= old(r.expiry.Keys)
      invariant |rest| <= |left| && (i > 0 && left != [] ==> |rest| < |left|)
    {
      StillDue(old(r.slots), r.slots, remove, ids[i], now, r.opts.grace, p.known);
      ghost var s, removal, known := r.slots, r.removal.Keys, q.known;
      var m;
      rest, m, q := NextScript(r, remove, ids[i], now, clock(remove, ids[i]), rest, was, rows, q);
      n := n + m;
      forall k | 0 <= k < i
        ensures Settled(remove, r.removal.Keys, r.slots, ids[k])
      {
        SettledStays(remove, s, r.slots, removal, r.removal.Keys, known, ids[k]);
      }
      OnwardLess(s, r.slots, removal, r.removal.Keys, p.known, known);
      OnwardTrans(old(r.slots), s, r.slots, old(r.removal.Keys), removal, r.removal.Keys, p.known, p.known);
    }
  }

  lemma OnwardSame(s: Slots, removal: set<Id>, known: set<Id>)
    ensures Onward(s, s, removal, removal, known)
  {
  }

  lemma OnwardLess(was: Slots, s: Slots, p: set<Id>, q: set<Id>, known: set<Id>, more: set<Id>)
    requires Onward(was, s, p, q, more) && known <= more
    ensures Onward(was, s, p, q, known)
  {
  }

  /** What a pass is to settle: the slots overdue, or past their grace, when it began. */
  ghost function Pass(o: Options, s: Slots, remove: bool, now: int): set<Id> {
    if remove then Stale(o, s, now) else Overdue(s, now)
  }

  /** An id that still needs the pass. */
  ghost predicate Needs(s: Slots, remove: bool, id: Id) {
    id in s && (remove || s[id].Live())
  }

  /** What the pass is for and still needs is queued and due. */
  lemma NeedyIsQueued(r: Redis, was: Slots, remove: bool, now: int, known: set<Id>, id: Id)
    requires r.Valid() && Ages(was, r.slots, known) && id in known && id in Pass(r.opts, was, remove, now)
    requires Needs(r.slots, remove, id)
    ensures id in r.Queue(remove) && r.Queue(remove)[id] <= now
  {
    if !remove {
      assert id in LiveIds(r.slots);
    }
  }

  lemma SettledNotQueued(r: Redis, remove: bool, id: Id)
    requires r.Valid() && "" !in r.removal && (id == "" || Settled(remove, r.removal.Keys, r.slots, id))
    ensures id !in r.Queue(remove)
  {
    ListedLive(r);
  }

  lemma ListedLive(r: Redis)
    requires r.Valid()
    ensures forall id :: id in r.expiry ==> id in r.slots && r.slots[id].Live() && id in r.removal
  {
    WellFormedSlots(r);
    forall id | id in r.expiry
      ensures id in r.slots && r.slots[id].Live()
    {
      assert id in LiveIds(r.slots);
    }
  }

  lemma BatchIsDue(r: Redis, remove: bool, ids: seq<Id>, now: int, known: set<Id>)
    requires r.Valid() && r.removal.Keys <= known
    requires forall i :: 0 <= i < |ids| ==> ids[i] in r.Queue(remove) && r.Queue(remove)[ids[i]] <= now
    ensures forall i :: 0 <= i < |ids| ==> ids[i] in known && Due(r, remove, ids[i], now)
  {
    forall i | 0 <= i < |ids|
      ensures ids[i] in known && Due(r, remove, ids[i], now)
    {
      QueuedIsDue(r, remove, ids[i], now);
    }
  }

  /** A batch that is not full holds everything the pass is for and still needs. */
  lemma NeedyInBatch(r: Redis, was: Slots, remove: bool, now: int, known: set<Id>, ids: seq<Id>)
    requires r.Valid() && Ages(was, r.slots, known) && Pass(r.opts, was, remove, now) <= known
    requires forall id :: id in r.Queue(remove) && r.Queue(remove)[id] <= now ==> id in Members(ids)
    ensures forall id :: id in Pass(r.opts, was, remove, now) && Needs(r.slots, remove, id) ==> id in Members(ids)
  {
    forall id | id in Pass(r.opts, was, remove, now) && Needs(r.slots, remove, id)
      ensures id in Members(ids)
    {
      NeedyIsQueued(r, was, remove, now, known, id);
    }
  }

  /** What was not needed before a batch, or was settled by it, is not needed after it. */
  lemma NoneNeeds(pass: set<Id>, remove: bool, s: Slots, t: Slots, removal: set<Id>, known: set<Id>, ids: seq<Id>)
    requires Ages(s, t, known) && pass <= known
    requires forall id :: id in pass && Needs(s, remove, id) ==> id in Members(ids)
    requires forall i :: 0 <= i < |ids| ==> Settled(remove, removal, t, ids[i])
    ensures forall id :: id in pass ==> !Needs(t, remove, id)
  {
  }

  /** Calls of others before a range query: what the pass has done so far stays done. */
  method Interlude(r: Redis, remove: bool, last: Id, left: seq<seq<Op>>,
      ghost start: Slots, ghost scheduled: set<Id>, ghost known: set<Id>,
      ghost was: Slots, ghost rows: seq<seq<Op>>, ghost p: Progress)
    returns (rest: seq<seq<Op>>, ghost q: Progress)
    requires Standing(r, was, rows, p) && left == p.left && known <= p.known
    requires Onward(start, r.slots, scheduled, r.removal.Keys, known)
    requires last == "" || (last in p.known && Settled(remove, r.removal.Keys, r.slots, last))
    modifies r
    ensures Standing(r, was, rows, q) && q.left == rest && p.known <= q.known && q.touched == p.touched
    ensures Onward(start, r.slots, scheduled, r.removal.Keys, known)
    ensures last == "" || (last in q.known && Settled(remove, r.removal.Keys, r.slots, last))
    ensures left == [] ==> rest == [] && r.removal == old(r.removal) && r.expiry == old(r.expiry)
    ensures left != [] ==> |rest| < |left|
  {
    hide Redis.Mirrors, Redis.Exact, Standing, Settled, Onward;
    rest, q := NextRow(r, left, was, rows, p);
    if last != "" {
      SettledStays(remove, old(r.slots), r.slots, old(r.removal.Keys), r.removal.Keys, p.known, last);
    }
    OnwardLess(old(r.slots), r.slots, old(r.removal.Keys), r.removal.Keys, known, p.known);
    OnwardTrans(start, old(r.slots), r.slots, scheduled, old(r.removal.Keys), r.removal.Keys, known, known);
  }

  /** One pass of a sweep, batch by batch, until nothing it is for is left, whatever others do. */
  method SharedSet(r: Redis, remove: bool, now: int, clock: (bool, Id) -> int, left: seq<seq<Op>>,
      ghost was: Slots, ghost rows: seq<seq<Op>>, ghost p: Progress)
    returns (touched: nat, rest: seq<seq<Op>>, ghost q: Progress)
    requires Standing(r, was, rows, p) && left == p.left && forall id :: now <= clock(remove, id)
    modifies r
    ensures Standing(r, was, rows, q) && q.left == rest && p.known <= q.known && q.touched == p.touched + touched
    ensures Onward(old(r.slots), r.slots, old(r.removal.Keys), r.removal.Keys, p.known)
    ensures forall id :: id in Pass(r.opts, old(r.slots), remove, now) ==> !Needs(r.slots, remove, id)
  {
    hide Redis.Mirrors, Redis.Exact, Trace, FreshRows, Settled, DueIn, Aged, Needs, Pass;
    touched, rest, q := 0, left, p;
    var last := "";
    ghost var start := r.slots;
    PassIsKnown(r, remove, now);
    OnwardSame(r.slots, r.removal.Keys, p.known);
    while true
      invariant Standing(r, was, rows, q) && q.left == rest && p.known <= q.known && q.touched == p.touched + touched
      invariant Onward(start, r.slots, old(r.removal.Keys), r.removal.Keys, p.known)
      invariant last == "" || (last in q.known && Settled(remove, r.removal.Keys, r.slots, last))
      decreases |rest|, r.Queue(remove).Keys
    {
      rest, q := Interlude(r, remove, last, rest, start, old(r.removal.Keys), p.known, was, rows, q);
      SettledNotQueued(r, remove, last);
      ghost var s, removal, known := r.slots, r.removal.Keys, q.known;
      var ids := RangeByScore(r.Queue(remove), now, BATCH);
      if |ids| == 0 || ids[0] == last {
        NeedyInBatch(r, start, remove, now, p.known, ids);
        NoMembers();
        return;
      }
      if |ids| < BATCH {
        NeedyInBatch(r, start, remove, now, p.known, ids);
      }
      BatchIsDue(r, remove, ids, now, q.known);
      var n;
      rest, n, q := Batch(r, remove, ids, now, clock, rest, was, rows, q);
      touched := touched + n;
      OnwardLess(s, r.slots, removal, r.removal.Keys, p.known, known);
      OnwardTrans(start, s, r.slots, old(r.removal.Keys), removal, r.removal.Keys, p.known, p.known);
      SettledNotQueued(r, remove, ids[0]);
      if |ids| < BATCH {
        NoneNeeds(Pass(r.opts, start, remove, now), remove, s, r.slots, r.removal.Keys, p.known, ids);
        return;
      }
      last := ids[0];
    }
  }

  lemma PassIsKnown(r: Redis, remove: bool, now: int)
    requires r.Valid()
    ensures Pass(r.opts, r.slots, remove, now) <= r.removal.Keys
  {
    WellFormedSlots(r);
  }

  /**
   * A whole sweep with others at work: both passes. What was overdue when it began is expired
   * or gone when it ends, what was past its grace is gone, and all that happened is a run of
   * the slot machine made of the others' calls and of scripts on single ids.
   */
  method Sweep(r: Redis, now: int, clock: (bool, Id) -> int, rows: seq<seq<Op>>)
    returns (touched: nat, left: seq<seq<Op>>, ghost trace: seq<Op>)
    requires r.Valid() && "" !in r.removal && FreshRows(rows, r.removal.Keys)
    requires forall remove, id :: now <= clock(remove, id)
    modifies r
    ensures r.Valid() && "" !in r.removal
    ensures r.slots == From(r.opts, old(r.slots), trace) && ProperRun(trace)
      && touched == Touched(r.opts, old(r.slots), trace)
    ensures Flatten(rows) == Calls(trace) + Flatten(left)
    ensures forall id :: id in Overdue(old(r.slots), now) ==> !(id in r.slots && r.slots[id].Live())
    ensures forall id :: id in Stale(r.opts, old(r.slots), now) ==> id !in r.slots
  {
    hide Redis.Mirrors, Redis.Exact, FreshRows, Aged, From, Step, Touched, Calls, Flatten;
    ghost var was, known := r.slots, r.removal.Keys;
    TraceStarts(r.opts, was, rows);
    WellFormedSlots(r);
    ghost var p := Progress([], 0, rows, known);
    var n, m;
    n, left, p := SharedSet(r, false, now, clock, rows, was, rows, p);
    ghost var mid := r.slots;
    m, left, p := SharedSet(r, true, now, clock, left, was, rows, p);
    touched, trace := n + m, p.trace;
    PassesDone(r.opts, was, mid, r.slots, known, now);
  }

  lemma PassesDone(o: Options, was: Slots, mid: Slots, s: Slots, known: set<Id>, now: int)
    requires Ages(was, mid, known) && Ages(mid, s, known) && was.Keys <= known
    requires forall id :: id in Pass(o, was, false, now) ==> !Needs(mid, false, id)
    requires forall id :: id in Pass(o, mid, true, now) ==> !Needs(s, true, id)
    ensures forall id :: id in Overdue(was, now) ==> !(id in s && s[id].Live())
    ensures forall id :: id in Stale(o, was, now) ==> id !in s
  {
    forall id | id in Overdue(was, now)
      ensures !(id in s && s[id].Live())
    {
      assert id in Pass(o, was, false, now);
      assert !Needs(mid, false, id);
    }
    forall id | id in Stale(o, was, now)
      ensures id !in s
    {
      assert id in mid ==> id in Pass(o, mid, true, now);
    }
  }

  // ----- Such a sweep within a whole run -----

  /**
   * A store that is where a run led is, after a sweep, where that run and the sweep's lead: every law
   * of runs holds of both.
   */
  lemma SweepExtendsRun(o: Options, before: seq<Op>, trace: seq<Op>)
    requires ProperRun(before) && ProperRun(trace)
    ensures From(o, After(o, before), trace) == After(o, before + trace) && ProperRun(before + trace)
  {
    AfterFrom(o, before);
    AfterFrom(o, before + trace);
    FromAppend(o, map[], before, trace);
  }

  lemma {:induction false} StripAppend(a: seq<Op>, b: seq<Op>)
    ensures LazyExpiry.Strip(a + b) == LazyExpiry.Strip(a) + LazyExpiry.Strip(b)
  {
    if b == [] {
      assert a + b == a;
    } else {
      assert LazyExpiry.Front(a + b) == a + LazyExpiry.Front(b) && LazyExpiry.Last(a + b) == LazyExpiry.Last(b);
      StripAppend(a, LazyExpiry.Front(b));
    }
  }

  lemma {:induction false} StripCalls(trace: seq<Op>)
    ensures LazyExpiry.Strip(Calls(trace)) == LazyExpiry.Strip(trace)
  {
    if trace != [] {
      var front, last := LazyExpiry.Front(trace), LazyExpiry.Last(trace);
      StripCalls(front);
      if StoreCall(last) {
        StripAppend(Calls(front), [last]);
        assert LazyExpiry.Front([last]) == [] && LazyExpiry.Strip([]) == [];
        assert LazyExpiry.Strip([last]) == if last.Housekeeping() then [] else [last];
      } else {
        assert Calls(trace) == Calls(front);
      }
    }
  }

  /**
   * Without limits not even a sweep that is half done shows: a run with the scripts of one among
   * its calls answers every timely call on a slot as any run of the same calls does, wherever
   * that one sweeps, be it in the other store.
   */
  lemma HalfDoneSweepInvisible(o: Options, before: seq<Op>, trace: seq<Op>, after: seq<Op>, other: seq<Op>, id: Id)
    requires LazyExpiry.Unlimited(o) && LazyExpiry.Ticking(before + trace + after) && LazyExpiry.Ticking(other)
    requires LazyExpiry.Strip(other) == LazyExpiry.Strip(before + Calls(trace) + after)
    requires LazyExpiry.Timely(o, LazyExpiry.Strip(other), id)
    ensures LazyExpiry.Answers(o, before + trace + after, id) == LazyExpiry.Answers(o, other, id)
  {
    StripAppend(before, trace);
    StripAppend(before + trace, after);
    StripAppend(before, Calls(trace));
    StripAppend(before + Calls(trace), after);
    StripCalls(trace);
    LazyExpiry.SweepsAreInvisible(o, before + trace + after, other, id);
  }
}
