/**
 * Whole runs of the slot machine: any finite sequence of steps by any number of clients,
 * starting from an empty store. What a slot can become, what the limits bound, and that a
 * ciphertext is handed out exactly once.
 */
module SlotRuns {
  import opened Prelude
  import opened Slots

  // ----- One step -----

  /** The documented edges of the life cycle; any live slot may also stay as it is. */
  predicate Edge(kind: Kind, from: State, to: State) {
    || from == to
    || (kind == KindDrop && from == Created && to == Uploaded)
    || (kind == KindDrop && from == Uploaded && to == Fetched)
    || (kind == KindReveal && from == Created && to == Opened)
    || (!from.Terminal() && to in {Revoked, Expired})
  }

  /** What may become of a slot over any number of steps that do not remove it. */
  predicate Follows(d: Drop, e: Drop) {
    && e.kind == d.kind && e.createdAt == d.createdAt && e.expiresAt == d.expiresAt
    && (d.state.Terminal() ==> e == d)
    && (d.state == e.state ==> e == d)
  }

  predicate Removable(o: Options, d: Drop, op: Op) {
    (op.OpSweep? || op.OpRemove?) && d.expiresAt + o.grace <= op.now
  }

  lemma SlotStepFollows(d: Drop, op: Op, room: bool)
    requires WellFormedSlot(d) && op.Addressed()
    ensures
      var e := SlotStep(d, op, room).0;
      Edge(d.kind, d.state, e.state) && Follows(d, e) && WellFormedSlot(e)
  {
  }

  lemma SeenFollows(d: Drop, now: int)
    requires WellFormedSlot(d)
    ensures
      var e := d.Seen(now);
      (e == d || e.state == Expired) && Edge(d.kind, d.state, e.state) && Follows(d, e) && WellFormedSlot(e)
  {
  }

  /** A step moves a slot along a documented edge, or removes it once its grace has passed. */
  lemma StepFollows(o: Options, s: Slots, op: Op, id: Id)
    requires WellFormed(s) && Proper(op) && id in s
    ensures
      var t := Step(o, s, op).0;
      if id in t then Edge(s[id].kind, s[id].state, t[id].state) && Follows(s[id], t[id])
      else Removable(o, s[id], op)
  {
    if op.OpSweep? || op.OpExpire? {
      SeenFollows(s[id], op.now);
    } else if op.Addressed() && op.id == id {
      SeenFollows(s[id], op.now);
      SlotStepFollows(s[id].Seen(op.now), op, HasRoom(o, s, op));
    }
  }

  lemma StepWellFormed(o: Options, s: Slots, op: Op)
    requires WellFormed(s) && Proper(op)
    ensures WellFormed(Step(o, s, op).0)
  {
    if op.OpSweep? {
      forall id | id in s ensures WellFormedSlot(s[id].Seen(op.now)) {
        SeenFollows(s[id], op.now);
      }
    } else if op.OpExpire? && op.id in s {
      SeenFollows(s[op.id], op.now);
    } else if op.Addressed() && op.id in s {
      SeenFollows(s[op.id], op.now);
      SlotStepFollows(s[op.id].Seen(op.now), op, HasRoom(o, s, op));
    }
  }

  // ----- Runs -----

  /** The slots after a run that began with an empty store. */
  ghost function After(o: Options, ops: seq<Op>): Slots {
    if ops == [] then map[] else Step(o, After(o, ops[..|ops| - 1]), ops[|ops| - 1]).0
  }

  /** The slots after a run that began with slots s. */
  ghost function From(o: Options, s: Slots, ops: seq<Op>): Slots {
    if ops == [] then s else Step(o, From(o, s, ops[..|ops| - 1]), ops[|ops| - 1]).0
  }

  lemma FromNext(o: Options, s: Slots, ops: seq<Op>, op: Op)
    ensures From(o, s, ops + [op]) == Step(o, From(o, s, ops), op).0
  {
    assert (ops + [op])[..|ops|] == ops;
  }

  /** One run after another is one run. */
  lemma {:induction false} FromAppend(o: Options, s: Slots, a: seq<Op>, b: seq<Op>)
    ensures From(o, s, a + b) == From(o, From(o, s, a), b)
  {
    if b == [] {
      assert a + b == a;
    } else {
      var front := b[..|b| - 1];
      assert a + b == (a + front) + [b[|b| - 1]];
      FromNext(o, s, a + front, b[|b| - 1]);
      FromAppend(o, s, a, front);
    }
  }

  lemma {:induction false} AfterFrom(o: Options, ops: seq<Op>)
    ensures After(o, ops) == From(o, map[], ops)
  {
    if ops != [] {
      AfterFrom(o, ops[..|ops| - 1]);
    }
  }

  ghost function StateAt(o: Options, ops: seq<Op>, i: nat): Slots
    requires i <= |ops|
  {
    After(o, ops[..i])
  }

  ghost function ReplyAt(o: Options, ops: seq<Op>, i: nat): Reply
    requires i < |ops|
  {
    Step(o, StateAt(o, ops, i), ops[i]).1
  }

  ghost predicate ProperRun(ops: seq<Op>) {
    forall i :: 0 <= i < |ops| ==> Proper(ops[i])
  }

  lemma StateNext(o: Options, ops: seq<Op>, i: nat)
    requires i < |ops|
    ensures StateAt(o, ops, i + 1) == Step(o, StateAt(o, ops, i), ops[i]).0
  {
    assert ops[..i + 1][..i] == ops[..i];
  }

  lemma {:induction false} RunWellFormed(o: Options, ops: seq<Op>, i: nat)
    requires ProperRun(ops) && i <= |ops|
    ensures WellFormed(StateAt(o, ops, i))
  {
    if i > 0 {
      RunWellFormed(o, ops, i - 1);
      StateNext(o, ops, i - 1);
      StepWellFormed(o, StateAt(o, ops, i - 1), ops[i - 1]);
    }
  }

  /** The states a slot of this kind can be in at some later time. */
  predicate Leads(kind: Kind, from: State, to: State) {
    || from == to
    || (!from.Terminal() && to in {Revoked, Expired})
    || (kind == KindDrop && from == Created && to in {Uploaded, Fetched})
    || (kind == KindDrop && from == Uploaded && to == Fetched)
    || (kind == KindReveal && from == Created && to == Opened)
  }

  ghost predicate CreatedAt(o: Options, ops: seq<Op>, i: nat, id: Id) {
    i < |ops| && ops[i].OpCreate? && ops[i].id == id && ReplyAt(o, ops, i) == Done
  }

  /**
   * The life of a slot over any part of a run in which its id is not created anew: kind and
   * times stay, the state only moves along the life cycle, and a terminal slot never changes.
   */
  lemma {:induction false} RunFollows(o: Options, ops: seq<Op>, i: nat, j: nat, id: Id)
    requires ProperRun(ops) && i <= j <= |ops|
    requires forall k :: i <= k < j ==> !CreatedAt(o, ops, k, id)
    requires id in StateAt(o, ops, j)
    ensures id in StateAt(o, ops, i)
    ensures
      var d, e := StateAt(o, ops, i)[id], StateAt(o, ops, j)[id];
      Follows(d, e) && Leads(d.kind, d.state, e.state)
  {
    if i < j {
      var s := StateAt(o, ops, j - 1);
      StateNext(o, ops, j - 1);
      assert !CreatedAt(o, ops, j - 1, id);
      assert id in s;
      RunFollows(o, ops, i, j - 1, id);
      RunWellFormed(o, ops, j - 1);
      StepFollows(o, s, ops[j - 1], id);
    }
  }

  /**
   * The revoke endpoint asks for the status first and revokes in a second call. Whatever
   * happens between the two, as long as the id is not created anew, the slot it revokes has
   * the kind the first call reported.
   */
  lemma RevokeHandlerKind(o: Options, ops: seq<Op>, i: nat, j: nat, id: Id)
    requires ProperRun(ops) && i < j < |ops|
    requires ops[i].OpStatus? && ops[i].id == id && ReplyAt(o, ops, i).Report?
    requires ops[j].OpRevoke? && ops[j].id == id && ReplyAt(o, ops, j) == Done
    requires forall k :: i < k < j ==> !CreatedAt(o, ops, k, id)
    ensures id in StateAt(o, ops, j) && StateAt(o, ops, j)[id].kind == ReplyAt(o, ops, i).status.kind
    ensures id in StateAt(o, ops, j + 1) && StateAt(o, ops, j + 1)[id].state == Revoked
    ensures StateAt(o, ops, j + 1)[id].kind == ReplyAt(o, ops, i).status.kind
  {
    RunFollows(o, ops, i, j, id);
    StateNext(o, ops, j);
  }

  // ----- Limits -----

  lemma {:induction false} BytesMonotone(s: Slots, t: Slots)
    requires forall id :: id in t ==> id in s && |t[id].ciphertext| <= |s[id].ciphertext|
    ensures Bytes(t) <= Bytes(s)
    decreases |t|
  {
    if t != map[] {
      var id := Pick(t);
      BytesWithout(s, id);
      BytesMonotone(s - {id}, t - {id});
    }
  }

  ghost predicate WithinLimits(o: Options, s: Slots) {
    (o.maxLive > 0 ==> Live(s) <= o.maxLive) && (o.maxBytes > 0 ==> Bytes(s) <= o.maxBytes)
  }

  lemma SubsetLive(s: Slots, t: Slots)
    requires LiveIds(t) <= LiveIds(s)
    ensures Live(t) <= Live(s)
  {
    assert LiveIds(s) == LiveIds(t) + (LiveIds(s) - LiveIds(t));
  }

  /** A call can only grow a slot by an upload it had room for; it brings no slot back to life. */
  lemma SlotStepSize(d: Drop, op: Op, room: bool)
    requires WellFormedSlot(d) && op.Addressed()
    ensures
      var e := SlotStep(d, op, room).0;
      && (e.Live() ==> d.Live())
      && (|e.ciphertext| <= |d.ciphertext| || (op.OpUpload? && room && d.ciphertext == [] && e.ciphertext == op.ct))
  {
  }

  /** No step exceeds a limit that is set. */
  lemma StepWithinLimits(o: Options, s: Slots, op: Op)
    requires WellFormed(s) && WithinLimits(o, s)
    ensures WithinLimits(o, Step(o, s, op).0)
  {
    if op.OpCreate? {
      LivePut(s, op.id, op.drop);
      BytesPut(s, op.id, op.drop);
    } else if op.OpSweep? {
      SubsetLive(s, Sweep(o, s, op.now));
      BytesMonotone(s, Sweep(o, s, op.now));
    } else if op.Housekeeping() {
      SubsetLive(s, Step(o, s, op).0);
      BytesMonotone(s, Step(o, s, op).0);
    } else if op.id in s {
      AddressedWithinLimits(o, s, op);
    }
  }

  lemma AddressedWithinLimits(o: Options, s: Slots, op: Op)
    requires WellFormed(s) && WithinLimits(o, s)
    requires op.Addressed() && op.id in s
    ensures WithinLimits(o, Step(o, s, op).0)
  {
    var t := Step(o, s, op).0;
    var u := Touch(s, op.id, op.now);
    var d := s[op.id].Seen(op.now);
    var e := SlotStep(d, op, HasRoom(o, s, op)).0;
    SeenFollows(s[op.id], op.now);
    SlotStepSize(d, op, HasRoom(o, s, op));
    assert t == s[op.id := e] == u[op.id := e];
    LivePut(s, op.id, e);
    BytesPut(u, op.id, e);
    BytesMonotone(s, u);
  }

  lemma {:induction false} RunWithinLimits(o: Options, ops: seq<Op>, i: nat)
    requires ProperRun(ops) && i <= |ops|
    ensures WithinLimits(o, StateAt(o, ops, i))
  {
    if i > 0 {
      RunWithinLimits(o, ops, i - 1);
      RunWellFormed(o, ops, i - 1);
      StateNext(o, ops, i - 1);
      StepWithinLimits(o, StateAt(o, ops, i - 1), ops[i - 1]);
    }
  }
}
