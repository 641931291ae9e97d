/**
 * "Read exactly once": over any interleaving of any number of clients, the ciphertext of a
 * slot is handed out at most once, is the one accepted upload (or, for a reveal, the one the
 * slot was created with), and is never handed out after a revocation or past the expiry.
 *
 * An id that is created again after its slot was removed starts a new slot, so the
 * statements speak of what happens since the last successful creation.
 */
module ExactlyOnce {
  import opened Prelude
  import opened Slots
  import opened SlotRuns

  /** Step i changed slot id on a client's request: it created, filled, emptied or revoked it. */
  ghost predicate Event(o: Options, ops: seq<Op>, i: nat, id: Id)
    requires i < |ops|
  {
    && !ops[i].Housekeeping() && !ops[i].OpStatus? && ops[i].id == id
    && !ReplyAt(o, ops, i).Failed?
  }

  ghost predicate UploadedAt(o: Options, ops: seq<Op>, i: nat, id: Id) {
    i < |ops| && ops[i].OpUpload? && Event(o, ops, i, id)
  }

  /** Step i handed out the ciphertext of slot id. */
  ghost predicate DeliveredAt(o: Options, ops: seq<Op>, i: nat, id: Id) {
    i < |ops| && (ops[i].OpFetch? || ops[i].OpOpen?) && Event(o, ops, i, id)
  }

  ghost predicate RevokedAt(o: Options, ops: seq<Op>, i: nat, id: Id) {
    i < |ops| && ops[i].OpRevoke? && Event(o, ops, i, id)
  }

  /** The last event on a slot before step i, or -1. */
  ghost function Last(o: Options, ops: seq<Op>, i: nat, id: Id): (l: int)
    requires i <= |ops|
    ensures -1 <= l < i
    ensures l >= 0 ==> Event(o, ops, l, id)
    ensures forall k :: l < k < i ==> !Event(o, ops, k, id)
  {
    if i == 0 then -1
    else if Event(o, ops, i - 1, id) then i - 1
    else Last(o, ops, i - 1, id)
  }

  /** A slot that is still created is exactly the slot its last event created. */
  ghost predicate AsCreated(o: Options, ops: seq<Op>, l: int, id: Id, d: Drop) {
    && 0 <= l < |ops|
    && CreatedAt(o, ops, l, id)
    && d == ops[l].drop
  }

  /** An uploaded slot is exactly what its creation and the one accepted upload since made it. */
  ghost predicate AsUploaded(o: Options, ops: seq<Op>, l: int, id: Id, d: Drop) {
    && 0 <= l < |ops|
    && UploadedAt(o, ops, l, id)
    && var c := Last(o, ops, l, id);
    && c >= 0
    && CreatedAt(o, ops, c, id)
    && d == ops[c].drop.(ciphertext := ops[l].ct, state := Uploaded, uploadedAt := ops[l].at)
    && ops[l].commitment == ops[c].drop.commitment
    && ops[l].token == ops[c].drop.tokenA
    && ops[l].now < ops[c].drop.expiresAt
  }

  ghost predicate Explained(o: Options, ops: seq<Op>, l: int, id: Id, d: Drop) {
    && (d.state == Created ==> AsCreated(o, ops, l, id, d))
    && (d.state == Uploaded ==> AsUploaded(o, ops, l, id, d))
  }

  /** What one step that is no event does to a live slot: nothing, or it expires it. */
  lemma NoEvent(o: Options, s: Slots, op: Op, id: Id)
    requires op.Housekeeping() || op.OpStatus? || op.id != id || Step(o, s, op).1.Failed?
    requires id in Step(o, s, op).0 && Step(o, s, op).0[id].Live()
    ensures id in s && Step(o, s, op).0[id] == s[id]
  {
  }

  /** An accepted upload filled a created slot, with its token and its commitment, in time. */
  lemma UploadEffect(o: Options, s: Slots, op: Op)
    requires op.OpUpload? && !Step(o, s, op).1.Failed?
    ensures op.id in s
    ensures
      var d := s[op.id];
      && d.state == Created && d.kind == KindDrop && op.now < d.expiresAt
      && d.tokenA == op.token && d.commitment == op.commitment
      && Step(o, s, op) == (s[op.id := d.(ciphertext := op.ct, state := Uploaded, uploadedAt := op.at)], Done)
  {
  }

  /** A delivery emptied a live slot in time and returned what it held. */
  lemma DeliveryEffect(o: Options, s: Slots, op: Op)
    requires (op.OpFetch? || op.OpOpen?) && !Step(o, s, op).1.Failed?
    ensures op.id in s
    ensures
      var d := s[op.id];
      && op.now < d.expiresAt
      && (if op.OpFetch? then d.state == Uploaded && d.kind == KindDrop else d.Live() && d.kind == KindReveal)
      && op.token == (if op.OpFetch? then d.tokenB else d.tokenA)
      && Step(o, s, op).1 == Payload(d.ciphertext, if op.OpFetch? then d.uploadedAt else d.createdAt)
      && Step(o, s, op).0[op.id].state.Terminal()
  {
  }

  lemma CreateEffect(o: Options, s: Slots, op: Op)
    requires op.OpCreate? && !Step(o, s, op).1.Failed?
    ensures Step(o, s, op) == (s[op.id := op.drop], Done)
  {
  }

  lemma RevokeEffect(o: Options, s: Slots, op: Op)
    requires op.OpRevoke? && !Step(o, s, op).1.Failed?
    ensures op.id in Step(o, s, op).0 && Step(o, s, op).0[op.id].state.Terminal()
  {
  }

  /** Every live slot is accounted for by the events since its creation. */
  lemma {:induction false} LiveSlotExplained(o: Options, ops: seq<Op>, i: nat, id: Id)
    requires ProperRun(ops) && i <= |ops|
    requires id in StateAt(o, ops, i) && StateAt(o, ops, i)[id].Live()
    ensures Explained(o, ops, Last(o, ops, i, id), id, StateAt(o, ops, i)[id])
  {
    hide Step;
    if i > 0 {
      var s, op := StateAt(o, ops, i - 1), ops[i - 1];
      StateNext(o, ops, i - 1);
      if !Event(o, ops, i - 1, id) {
        NoEvent(o, s, op, id);
        LiveSlotExplained(o, ops, i - 1, id);
      } else if op.OpUpload? {
        UploadEffect(o, s, op);
        LiveSlotExplained(o, ops, i - 1, id);
      } else if op.OpCreate? {
        CreateEffect(o, s, op);
      } else if op.OpRevoke? {
        RevokeEffect(o, s, op);
      } else {
        DeliveryEffect(o, s, op);
      }
    }
  }

  /** The step that created the slot a delivery empties. */
  ghost function Origin(o: Options, ops: seq<Op>, j: nat, id: Id): int
    requires j < |ops|
  {
    var l := Last(o, ops, j, id);
    if l >= 0 && ops[l].OpUpload? then Last(o, ops, l, id) else l
  }

  /**
   * What a delivery hands out is byte for byte what the one accepted upload brought (for a
   * reveal, what the slot was created with); no other event lies between, the token is the
   * one registered for reading, and the slot had not expired.
   */
  lemma DeliveredIsStored(o: Options, ops: seq<Op>, j: nat, id: Id)
    requires ProperRun(ops) && DeliveredAt(o, ops, j, id)
    ensures
      var l, c := Last(o, ops, j, id), Origin(o, ops, j, id);
      && 0 <= c <= l < j
      && CreatedAt(o, ops, c, id)
      && ops[j].now < ops[c].drop.expiresAt
      && (if ops[j].OpFetch? then
            && c < l && UploadedAt(o, ops, l, id)
            && (forall k :: c < k < j && k != l ==> !Event(o, ops, k, id))
            && ops[l].commitment == ops[c].drop.commitment
            && ops[j].token == ops[c].drop.tokenB
            && ReplyAt(o, ops, j) == Payload(ops[l].ct, ops[l].at)
          else
            && c == l
            && (forall k :: c < k < j ==> !Event(o, ops, k, id))
            && ops[j].token == ops[c].drop.tokenA
            && ReplyAt(o, ops, j) == Payload(ops[c].drop.ciphertext, ops[c].drop.createdAt))
  {
    DeliveryEffect(o, StateAt(o, ops, j), ops[j]);
    LiveSlotExplained(o, ops, j, id);
    RunWellFormed(o, ops, j);
    assert WellFormedSlot(StateAt(o, ops, j)[id]);
  }

  /** After a delivery or a revocation nothing is delivered before the id is created anew. */
  lemma ClosedUntilCreated(o: Options, ops: seq<Op>, i: nat, j: nat, id: Id)
    requires ProperRun(ops) && i < j
    requires DeliveredAt(o, ops, j, id)
    requires DeliveredAt(o, ops, i, id) || RevokedAt(o, ops, i, id)
    ensures i < Origin(o, ops, j, id) < j && CreatedAt(o, ops, Origin(o, ops, j, id), id)
  {
    DeliveredIsStored(o, ops, j, id);
    assert Last(o, ops, j, id) >= i;
  }

  /** At most one delivery per slot. */
  lemma AtMostOnce(o: Options, ops: seq<Op>, i: nat, j: nat, id: Id)
    requires ProperRun(ops)
    requires DeliveredAt(o, ops, i, id) && DeliveredAt(o, ops, j, id)
    requires forall k :: 0 <= k < |ops| && CreatedAt(o, ops, k, id) ==> k <= i && k <= j
    ensures i == j
  {
    if i < j {
      ClosedUntilCreated(o, ops, i, j, id);
    } else if j < i {
      ClosedUntilCreated(o, ops, j, i, id);
    }
  }
}
