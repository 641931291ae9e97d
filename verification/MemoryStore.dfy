/**
 * The in-memory store: a map of slots guarded by one mutex, a min-heap of timers, two running
 * counters, and the channels of the long polls. Every method holds the mutex throughout, so
 * each is one step of the slot machine; Wait takes it twice and is two methods here, with
 * anything at all happening in between.
 */
module MemoryStore {
  import opened Prelude
  import opened Slots
  import opened ExpiryHeap
  import opened Timers
  import opened SweepProgress

  ghost function Contents(b: array?<byte>): seq<byte>
    reads b
  {
    if b == null then [] else b[..]
  }

  function Length(b: array?<byte>): nat {
    if b == null then 0 else b.Length
  }

  lemma LengthOfContents(b: array?<byte>)
    ensures Length(b) == |Contents(b)|
  {
  }

  /** Overwrites a buffer with zeros. */
  method Zero(b: array?<byte>)
    modifies b
    ensures b != null ==> forall i :: 0 <= i < b.Length ==> b[i] == 0
  {
    if b != null {
      for i := 0 to b.Length
        invariant forall k :: 0 <= k < i ==> b[k] == 0
      {
        b[i] := 0;
      }
    }
  }

  /** A buffer of a caller's. */
  method Buffer(ct: seq<byte>) returns (b: array<byte>)
    ensures fresh(b) && b[..] == ct
  {
    b := new byte[|ct|](i requires 0 <= i < |ct| => ct[i]);
  }

  /** A private copy of a caller's buffer; an empty one is copied to nothing. */
  method Copy(b: array?<byte>) returns (c: array?<byte>)
    ensures Contents(c) == Contents(b)
    ensures c != null ==> fresh(c)
  {
    c := null;
    if b != null && b.Length > 0 {
      c := new byte[b.Length];
      for i := 0 to b.Length
        invariant forall k :: 0 <= k < i ==> c[k] == b[k]
      {
        c[i] := b[i];
      }
      assert c[..] == b[..];
    }
  }

  /** One stored slot. */
  class Slot {
    const id: Id
    const kind: Kind
    const agentKeyId: string
    const createdAt: int
    const expiresAt: int
    var state: State
    var ciphertext: array?<byte>
    var commitment: string
    var tokenA: Hash
    var tokenB: Hash
    var uploadedAt: int
    var fetchedAt: int
    var revokedAt: int

    ghost function Value(): Drop
      reads this, ciphertext
    {
      Drop(kind, state, Contents(ciphertext), commitment, tokenA, tokenB, agentKeyId, createdAt, expiresAt,
        uploadedAt, fetchedAt, revokedAt)
    }

    constructor (id: Id, d: Drop, ct: array?<byte>)
      requires Contents(ct) == d.ciphertext
      ensures this.id == id && Value() == d && ciphertext == ct
    {
      this.id := id;
      kind, agentKeyId, createdAt, expiresAt := d.kind, d.agentKeyId, d.createdAt, d.expiresAt;
      state, ciphertext, commitment, tokenA, tokenB := d.state, ct, d.commitment, d.tokenA, d.tokenB;
      uploadedAt, fetchedAt, revokedAt := d.uploadedAt, d.fetchedAt, d.revokedAt;
    }

    /** Zeroes the ciphertext in place and clears everything but state and timestamps. */
    method Tombstone(to: State, at: int)
      modifies this, ciphertext
      ensures Value() == old(Value()).Tombstoned(to, at) && ciphertext == null
    {
      Zero(ciphertext);
      ciphertext := null;
      commitment := "";
      tokenA := ZERO_HASH;
      tokenB := ZERO_HASH;
      state := to;
      if to == Fetched || to == Opened {
        fetchedAt := at;
      } else if to == Revoked {
        revokedAt := at;
      }
    }

    /** Gives the ciphertext away. */
    method Take() returns (ct: array?<byte>)
      modifies this`ciphertext
      ensures ct == old(ciphertext) && ciphertext == null
      ensures Value() == old(Value()).Emptied()
    {
      ct := ciphertext;
      ciphertext := null;
    }

    /** Takes an uploaded ciphertext in. */
    method Fill(ct: array?<byte>, at: int)
      modifies this
      ensures ciphertext == ct
      ensures Value() == old(Value()).Filled(Contents(ct), at)
    {
      ciphertext := ct;
      state := Uploaded;
      uploadedAt := at;
    }

    method StateError() returns (e: Error)
      ensures e == Value().StateError()
    {
      var at := createdAt;
      match state {
        case Uploaded => at := uploadedAt;
        case Fetched => at := fetchedAt;
        case Opened => at := fetchedAt;
        case Revoked => at := revokedAt;
        case Expired => at := expiresAt;
        case Created =>
      }
      e := ErrState(state, at);
    }

    method Status() returns (s: StatusReport)
      ensures s == Value().Status()
    {
      s := StatusReport(kind, state, createdAt, expiresAt, uploadedAt, fetchedAt, revokedAt);
    }
  }

  /** Schedules the expiry of a new slot and the removal of its tombstone. */
  method Schedule(h: seq<Entry>, ghost s: Slots, id: Id, d: Drop, grace: int) returns (t: seq<Entry>)
    requires TimersOk(h, s, grace) && id !in s
    ensures TimersOk(t, s[id := d], grace)
  {
    t := Push(h, Entry(d.expiresAt, id, false));
    t := Push(t, Entry(d.expiresAt + grace, id, true));
    TimersAfterCreate(h, t, s, id, d, grace);
  }

  lemma PopShrinks(h: seq<Entry>, rest: seq<Entry>, e: Entry)
    requires multiset(h) == multiset(rest) + multiset{e}
    ensures |h| == |rest| + 1
  {
    assert |multiset(h)| == |multiset(rest)| + 1;
  }

  /** The channel of one long poll: buffered, holding at most one wake-up. */
  class Channel {
    ghost const id: Id
    /** The state the poll saw when it registered and waits to see changed. */
    ghost const current: State
    var full: bool

    constructor (ghost id: Id, ghost current: State)
      ensures this.id == id && this.current == current && !full
    {
      this.id, this.current, full := id, current, false;
    }
  }

  class Memory {
    const opts: Options
    var drops: map<Id, Slot>
    var waiters: map<Id, set<Channel>>
    var timers: seq<Entry>
    var live: int
    var bytes: int
    /** What the store holds, as a state of the slot machine. */
    ghost var slots: Slots
    /** The long polls between their two critical sections. */
    ghost var parked: set<Channel>
    /** Which slot each stored buffer belongs to: no two slots share one. */
    ghost var owner: map<array<byte>, Id>
    ghost var Repr: set<object>

    /** Slot id is stored as the slot machine has it, in objects of this store and no other slot. */
    ghost predicate Stored(id: Id)
      reads this, Repr
      requires id in drops && id in slots
    {
      var d := drops[id];
      && d in Repr && d.id == id
      && (d.ciphertext != null ==> d.ciphertext in Repr && d.ciphertext in owner && owner[d.ciphertext] == id)
      && d.Value() == slots[id]
    }

    ghost predicate SlotsOk()
      reads this, Repr
    {
      && this in Repr
      && slots.Keys == drops.Keys
      && (forall id :: id in drops ==> Stored(id))
    }

    ghost predicate CountersOk()
      reads this
    {
      live == Live(slots) && bytes == Bytes(slots)
    }

    /** A poll that waits on a live state and has not been woken: its slot is there, in that state. */
    ghost predicate Waiting(ch: Channel)
      reads this, ch
    {
      !ch.full && !ch.current.Terminal() ==>
        && ch.id in slots && slots[ch.id].state == ch.current
        && ch.id in waiters && ch in waiters[ch.id]
    }

    ghost predicate WaitersOk()
      reads this, parked
    {
      && (forall id, ch :: id in waiters && ch in waiters[id] ==> ch in parked && ch.id == id)
      && (forall ch :: ch in parked ==> Waiting(ch))
    }

    /** Everything but the timers. */
    ghost predicate Consistent()
      reads this, Repr, parked
    {
      SlotsOk() && CountersOk() && WaitersOk() && WellFormed(slots)
    }

    ghost predicate Valid()
      reads this, Repr, parked
    {
      opts.grace > 0 && Consistent() && TimersOk(timers, slots, opts.grace)
    }

    constructor (o: Options)
      requires o.grace >= 0
      ensures Valid() && fresh(Repr) && opts == WithDefaults(o) && slots == map[] && parked == {}
    {
      opts := WithDefaults(o);
      drops, waiters, timers, live, bytes := map[], map[], [], 0, 0;
      slots, parked, owner, Repr := map[], {}, map[], {this};
      new;
      assert LiveIds(slots) == {};
    }

    /** Wakes every long poll on a slot, without waiting for any of them to listen. */
    method Notify(id: Id)
      requires id in waiters ==> waiters[id] <= parked
      modifies parked`full
      ensures forall ch :: ch in parked ==> ch.full == (old(ch.full) || (id in waiters && ch in waiters[id]))
    {
      if id in waiters {
        var todo := waiters[id];
        while todo != {}
          invariant todo <= waiters[id]
          invariant forall ch :: ch in parked ==> ch.full == (old(ch.full) || (ch in waiters[id] && ch !in todo))
          decreases |todo|
        {
          var ch :| ch in todo;
          ch.full := true;
          todo := todo - {ch};
        }
      }
    }

    lemma Found(d: Slot)
      requires SlotsOk() && d.id in slots && d == drops[d.id]
      ensures this in Repr && d in Repr && (d.ciphertext != null ==> d.ciphertext in Repr)
      ensures d.id in drops && d.Value() == slots[d.id]
    {
    }

    lemma FoundAt(id: Id)
      requires SlotsOk() && id in slots
      ensures id in drops && drops[id].id == id && drops[id].Value() == slots[id]
    {
      assert Stored(id);
    }

    /** Counters, timers and polls play no part in how the slots are stored. */
    twostate lemma SlotsKept()
      requires old(SlotsOk())
      requires drops == old(drops) && slots == old(slots) && owner == old(owner) && Repr == old(Repr)
      requires forall x :: x in Repr && x != this ==> unchanged(x)
      ensures SlotsOk()
    {
      forall id | id in drops ensures Stored(id) {
        assert old(Stored(id));
      }
    }

    /** Tombstones a stored slot. */
    method Entomb(d: Slot, to: State, at: int)
      requires SlotsOk()
      requires d.id in drops && d == drops[d.id]
      modifies d, d.ciphertext, this`slots
      ensures SlotsOk()
      ensures slots == old(slots)[d.id := old(slots)[d.id].Tombstoned(to, at)]
    {
      hide Drop.Tombstoned, Slot.Value, Contents;
      assert Stored(d.id);
      d.Tombstone(to, at);
      slots := slots[d.id := slots[d.id].Tombstoned(to, at)];
      forall id | id in drops ensures Stored(id) {
        assert old(Stored(id));
      }
    }

    /** What a call leaves alone when it only changes slots. */
    twostate predicate OnlySlots()
      reads this
    {
      drops == old(drops) && waiters == old(waiters) && timers == old(timers) && parked == old(parked)
        && owner == old(owner) && Repr == old(Repr)
    }

    /** Every poll waits for a change still to come, except perhaps the registered ones of slot id. */
    ghost predicate WaitersOkBut(id: Id)
      reads this, parked
    {
      && (forall i, ch :: i in waiters && ch in waiters[i] ==> ch in parked && ch.id == i)
      && (forall ch :: ch in parked && ch.id != id ==> Waiting(ch))
      && (forall ch :: ch in parked && ch.id == id && !ch.full && !ch.current.Terminal() ==>
        id in waiters && ch in waiters[id])
    }

    /** Changing one slot can only let its own polls down. */
    twostate lemma WaitersAfterChange(id: Id)
      requires old(WaitersOk())
      requires waiters == old(waiters) && parked == old(parked)
      requires forall ch :: ch in parked ==> ch.full == old(ch.full)
      requires forall k :: k in old(slots) && k != id ==> k in slots && slots[k] == old(slots[k])
      ensures WaitersOkBut(id)
    {
    }

    /** Waking the long polls of a slot leaves none of them waiting for its state to change. */
    method Wake(id: Id)
      requires SlotsOk() && WaitersOkBut(id)
      modifies parked`full
      ensures SlotsOk() && WaitersOk()
    {
      Notify(id);
    }

    /**
     * The end of every terminal transition: tombstone the slot, wake its long polls. The
     * caller has already taken it out of the counters.
     */
    method Bury(d: Slot, to: State, at: int)
      requires SlotsOk() && WaitersOk() && WellFormed(slots)
      requires d.id in slots && d == drops[d.id]
      requires slots[d.id].Live() && to.Terminal()
      requires (to == Fetched ==> slots[d.id].kind == KindDrop) && (to == Opened ==> slots[d.id].kind == KindReveal)
      requires live == Live(slots) - 1 && bytes == Bytes(slots) - |slots[d.id].ciphertext|
      modifies Repr, parked
      ensures Consistent() && OnlySlots()
      ensures live == old(live) && bytes == old(bytes)
      ensures slots == old(slots)[d.id := old(slots)[d.id].Tombstoned(to, at)]
    {
      hide SlotsOk, WaitersOk, WaitersOkBut, Waiting, WellFormed, Live, Bytes, Drop.Tombstoned;
      Found(d);
      TombstoneCounts(slots, d.id, to, at);
      Entomb(d, to, at);
      WaitersAfterChange(d.id);
      Wake(d.id);
    }

    /** Counts ciphertext bytes taken in. */
    method Count(n: nat)
      requires SlotsOk()
      modifies this`bytes
      ensures SlotsOk() && bytes == old(bytes) + n
    {
      hide SlotsOk;
      bytes := bytes + n;
      SlotsKept();
    }

    /** Takes a live slot out of the two counters. */
    method Release(d: Slot)
      requires Consistent()
      requires d.id in slots && d == drops[d.id]
      modifies this`bytes, this`live
      ensures SlotsOk() && WaitersOk()
      ensures live == Live(slots) - 1 && bytes == Bytes(slots) - |slots[d.id].ciphertext|
    {
      hide Live, Bytes, SlotsOk, WaitersOk, Waiting;
      Found(d);
      bytes := bytes - Length(d.ciphertext);
      live := live - 1;
      SlotsKept();
      WaitersKept();
    }

    /** Moves a live slot to the expired tombstone state. */
    method Expire(d: Slot)
      requires Consistent()
      requires d.id in slots && d == drops[d.id] && slots[d.id].Live()
      modifies Repr, parked
      ensures Consistent() && OnlySlots()
      ensures slots == old(slots)[d.id := old(slots)[d.id].Expire()]
    {
      hide SlotsOk, WaitersOk, Waiting, Live, Bytes;
      Found(d);
      Release(d);
      Bury(d, Expired, d.expiresAt);
    }

    /** Finds a slot, applying lazy expiry; null if there is none. */
    method Get(id: Id, now: int) returns (d: Slot?)
      requires Valid()
      modifies Repr, parked
      ensures Valid() && OnlySlots()
      ensures d == null ==> id !in slots && slots == old(slots)
      ensures d != null ==> id in old(slots) && slots == Touch(old(slots), id, now) && d.id == id && d == drops[id]
    {
      hide SlotsOk, WaitersOk, Waiting, Live, Bytes, WellFormed, TimersOk, Drop.Tombstoned;
      SameKeys();
      d := null;
      if id in drops {
        d := drops[id];
        FoundAt(id);
        TombstonedKeeps(slots[id], Expired, slots[id].expiresAt);
        assert slots[id := slots[id]] == slots;
        if !d.state.Terminal() && now >= d.expiresAt {
          TimersAfterChange(timers, slots, id, slots[id].Expire(), opts.grace);
          Expire(d);
        }
      }
    }

    /** A call that changed one slot without bringing any back to life left the timers right. */
    twostate lemma TimersUnmoved(id: Id)
      requires old(TimersOk(timers, slots, opts.grace)) && timers == old(timers)
      requires id in old(slots) && id in slots && slots == old(slots)[id := slots[id]]
      requires slots[id].expiresAt == old(slots)[id].expiresAt && (slots[id].Live() ==> old(slots)[id].Live())
      ensures TimersOk(timers, slots, opts.grace)
    {
      TimersAfterChange(timers, old(slots), id, slots[id], opts.grace);
    }

    /** A terminal transition: out of the counters, tombstoned, everyone woken. */
    method Retire(d: Slot, to: State, at: int)
      requires Valid()
      requires d.id in slots && d == drops[d.id]
      requires slots[d.id].Live() && to.Terminal()
      requires (to == Fetched ==> slots[d.id].kind == KindDrop) && (to == Opened ==> slots[d.id].kind == KindReveal)
      modifies Repr, parked
      ensures Valid() && OnlySlots()
      ensures slots == old(slots)[d.id := old(slots)[d.id].Tombstoned(to, at)]
    {
      hide SlotsOk, WaitersOk, Waiting, Live, Bytes, WellFormed, TimersOk, Drop.Tombstoned;
      Found(d);
      Release(d);
      Bury(d, to, at);
      TombstonedKeeps(old(slots)[d.id], to, at);
      TimersUnmoved(d.id);
    }

    /** Empties a stored slot, handing its buffer to the caller. */
    method Empty(d: Slot) returns (ct: array?<byte>)
      requires SlotsOk()
      requires d.id in drops && d == drops[d.id]
      modifies d`ciphertext, this`slots
      ensures SlotsOk()
      ensures ct == old(d.ciphertext)
      ensures ct != null ==> forall id :: id in drops ==> drops[id].ciphertext != ct
      ensures slots == old(slots)[d.id := old(slots)[d.id].Emptied()]
    {
      hide Drop.Emptied, Slot.Value, Contents;
      assert Stored(d.id);
      ct := d.Take();
      slots := slots[d.id := slots[d.id].Emptied()];
      forall id | id in drops ensures Stored(id) && (ct != null ==> drops[id].ciphertext != ct) {
        assert old(Stored(id));
      }
    }

    /** Takes the only copy of a slot's ciphertext out of the store. */
    method HandOver(d: Slot) returns (ct: array?<byte>)
      requires SlotsOk() && WaitersOk()
      requires d.id in slots && d == drops[d.id]
      modifies d`ciphertext, this`slots, this`Repr
      ensures SlotsOk() && WaitersOk()
      ensures Repr == (if ct == null then old(Repr) else old(Repr) - {ct})
        && (ct != null ==> ct in old(Repr) && ct !in Repr)
      ensures ct == old(d.ciphertext)
      ensures slots == old(slots)[d.id := old(slots)[d.id].Emptied()]
    {
      hide WaitersOk, Waiting, SlotsOk;
      Found(d);
      ct := Empty(d);
      label L:
      if ct != null {
        Repr := Repr - {ct};
        Disowned@L(ct);
      }
      WaitersKept();
    }

    /** A buffer no slot holds need not be part of the store. */
    twostate lemma Disowned(ct: array<byte>)
      requires old(SlotsOk()) && Repr == old(Repr) - {ct}
      requires drops == old(drops) && slots == old(slots) && owner == old(owner)
      requires forall id :: id in drops ==> drops[id].ciphertext != ct && unchanged(drops[id])
      requires forall id :: id in drops && drops[id].ciphertext != null ==>
        drops[id].ciphertext[..] == old(drops[id].ciphertext[..])
      ensures SlotsOk()
    {
    }

    /** As long as no slot changes state, no poll is let down. */
    twostate lemma WaitersKept()
      requires old(WaitersOk())
      requires waiters == old(waiters) && parked == old(parked)
      requires forall ch :: ch in parked ==> ch.full == old(ch.full)
      requires forall k :: k in old(slots) ==> k in slots && slots[k].state == old(slots[k].state)
      ensures WaitersOk()
    {
    }

    /** A terminal transition that hands the ciphertext to the caller. */
    method RetireTo(d: Slot, to: State, at: int) returns (ct: array?<byte>)
      requires Valid()
      requires d.id in slots && d == drops[d.id]
      requires slots[d.id].Live() && to.Terminal()
      requires (to == Fetched ==> slots[d.id].kind == KindDrop) && (to == Opened ==> slots[d.id].kind == KindReveal)
      modifies Repr, parked
      ensures Valid() && parked == old(parked)
      ensures Repr == (if ct == null then old(Repr) else old(Repr) - {ct})
        && (ct != null ==> ct in old(Repr) && ct !in Repr)
      ensures Contents(ct) == old(slots)[d.id].ciphertext
      ensures slots == old(slots)[d.id := old(slots)[d.id].Tombstoned(to, at)]
    {
      hide SlotsOk, WaitersOk, Waiting, Live, Bytes, WellFormed, TimersOk, Drop.Tombstoned;
      Found(d);
      HandOverCounts(slots, d.id, to, at);
      Release(d);
      ct := HandOver(d);
      Bury(d, to, at);
      TombstonedKeeps(old(slots)[d.id], to, at);
      TimersUnmoved(d.id);
    }

    method Revoke(id: Id, token: Hash, now: int, at: int) returns (err: Option<Error>)
      requires Valid()
      modifies Repr, parked
      ensures Valid() && parked == old(parked) && Repr == old(Repr)
      ensures (slots, Outcome(err)) == Step(opts, old(slots), OpRevoke(id, token, now, at))
    {
      hide SlotsOk, WaitersOk, CountersOk, Waiting, Live, Bytes, WellFormed, TimersOk, Step, Drop.Tombstoned,
        Drop.Seen, Touch;
      var d := Get(id, now);
      if d == null {
        StepMissing(opts, slots, OpRevoke(id, token, now, at));
        return Some(ErrNotFound);
      }
      Found(d);
      StepAddressed(opts, old(slots), OpRevoke(id, token, now, at), slots, RevokeSlot(slots[id], token, at));
      if d.state.Terminal() {
        var e := d.StateError();
        return Some(e);
      }
      if d.tokenA != token && d.tokenB != token {
        return Some(ErrBadToken);
      }
      Retire(d, Revoked, at);
      return None;
    }

    /**
     * Returns and deletes a drop's ciphertext in one step. The buffer it returns is no longer
     * the store's: nothing the store does later can write to it.
     */
    method Fetch(id: Id, token: Hash, now: int, at: int) returns (ct: array?<byte>, uploadedAt: int, err: Option<Error>)
      requires Valid()
      modifies Repr, parked
      ensures Valid() && parked == old(parked)
      ensures Repr == (if ct == null then old(Repr) else old(Repr) - {ct})
        && (ct != null ==> ct in old(Repr) && ct !in Repr)
      ensures (slots, Delivery(Contents(ct), uploadedAt, err)) == Step(opts, old(slots), OpFetch(id, token, now, at))
    {
      hide SlotsOk, WaitersOk, CountersOk, Waiting, Live, Bytes, WellFormed, TimersOk, Step, Drop.Tombstoned,
        Drop.Seen, Touch;
      ct, uploadedAt := null, 0;
      var d := Get(id, now);
      if d == null {
        StepMissing(opts, slots, OpFetch(id, token, now, at));
        err := Some(ErrNotFound);
        return;
      }
      Found(d);
      StepAddressed(opts, old(slots), OpFetch(id, token, now, at), slots, FetchSlot(slots[id], token, at));
      if d.kind != KindDrop {
        err := Some(ErrWrongKind);
        return;
      }
      if d.state.Terminal() {
        var e := d.StateError();
        err := Some(e);
        return;
      }
      if d.tokenB != token {
        err := Some(ErrBadToken);
        return;
      }
      if d.state != Uploaded {
        var e := d.StateError();
        err := Some(e);
        return;
      }
      uploadedAt := d.uploadedAt;
      ct := RetireTo(d, Fetched, at);
      err := None;
    }

    /** Returns and deletes a reveal's ciphertext in one step. */
    method Open(id: Id, token: Hash, now: int, at: int) returns (ct: array?<byte>, createdAt: int, err: Option<Error>)
      requires Valid()
      modifies Repr, parked
      ensures Valid() && parked == old(parked)
      ensures Repr == (if ct == null then old(Repr) else old(Repr) - {ct})
        && (ct != null ==> ct in old(Repr) && ct !in Repr)
      ensures (slots, Delivery(Contents(ct), createdAt, err)) == Step(opts, old(slots), OpOpen(id, token, now, at))
    {
      hide SlotsOk, WaitersOk, CountersOk, Waiting, Live, Bytes, WellFormed, TimersOk, Step, Drop.Tombstoned,
        Drop.Seen, Touch;
      ct, createdAt := null, 0;
      var d := Get(id, now);
      if d == null {
        StepMissing(opts, slots, OpOpen(id, token, now, at));
        err := Some(ErrNotFound);
        return;
      }
      Found(d);
      StepAddressed(opts, old(slots), OpOpen(id, token, now, at), slots, OpenSlot(slots[id], token, at));
      if d.kind != KindReveal {
        err := Some(ErrWrongKind);
        return;
      }
      if d.state.Terminal() {
        var e := d.StateError();
        err := Some(e);
        return;
      }
      if d.tokenA != token {
        err := Some(ErrBadToken);
        return;
      }
      createdAt := d.createdAt;
      ct := RetireTo(d, Opened, at);
      err := None;
    }

    method Status(id: Id, now: int) returns (r: Result<StatusReport, Error>)
      requires Valid()
      modifies Repr, parked
      ensures Valid() && parked == old(parked) && Repr == old(Repr)
      ensures (slots, Reported(r)) == Step(opts, old(slots), OpStatus(id, now))
    {
      hide SlotsOk, WaitersOk, CountersOk, Waiting, Live, Bytes, WellFormed, TimersOk, Step, Drop.Seen, Touch;
      var d := Get(id, now);
      if d == null {
        StepMissing(opts, slots, OpStatus(id, now));
        return Failure(ErrNotFound);
      }
      Found(d);
      StepAddressed(opts, old(slots), OpStatus(id, now), slots, (slots[id], Report(slots[id].Status())));
      var st := d.Status();
      r := Success(st);
    }

    /** Adds a new slot that no one else refers to. */
    method Insert(slot: Slot)
      requires SlotsOk() && slot.id !in drops
      requires slot.ciphertext != null ==> slot.ciphertext !in Repr && slot.ciphertext !in owner
      modifies this`drops, this`slots, this`owner, this`Repr
      ensures SlotsOk()
      ensures Repr == old(Repr) + {slot} + (if slot.ciphertext == null then {} else {slot.ciphertext})
      ensures slots == old(slots)[slot.id := slot.Value()]
    {
      hide SlotsOk, Stored, Slot.Value, Contents;
      SameKeys();
      drops := drops[slot.id := slot];
      slots := slots[slot.id := slot.Value()];
      Repr := Repr + {slot};
      if slot.ciphertext != null {
        Repr := Repr + {slot.ciphertext};
        owner := owner[slot.ciphertext := slot.id];
      }
      OthersStored(slot.id);
      StoredFrom(slot.id);
      SlotsOkFrom();
    }

    lemma StoredFrom(id: Id)
      requires id in drops && id in slots && drops[id] in Repr && drops[id].id == id
      requires drops[id].ciphertext != null ==>
        drops[id].ciphertext in Repr && drops[id].ciphertext in owner && owner[drops[id].ciphertext] == id
      requires drops[id].Value() == slots[id]
      ensures Stored(id)
    {
    }

    /** Slots that are left alone stay stored as they were. */
    twostate lemma OthersStored(id: Id)
      requires old(SlotsOk())
      requires drops.Keys == slots.Keys && drops.Keys - {id} <= old(drops.Keys)
      requires forall k :: k in drops && k != id ==> drops[k] == old(drops[k]) && slots[k] == old(slots[k])
      requires forall k :: k in drops && k != id ==> unchanged(drops[k])
      requires forall b: array<byte> :: b in old(owner) && old(owner)[b] != id ==>
        b in owner && owner[b] == old(owner)[b]
      requires forall k :: k in drops && k != id && drops[k].ciphertext != null ==> unchanged(drops[k].ciphertext)
      requires old(Repr) <= Repr
      ensures forall k :: k in drops && k != id ==> Stored(k)
    {
      forall k | k in drops && k != id ensures Stored(k) {
        assert old(Stored(k));
      }
    }

    lemma SlotsOkFrom()
      requires this in Repr && slots.Keys == drops.Keys
      requires forall k :: k in drops ==> Stored(k)
      ensures SlotsOk()
    {
    }

    /** Counts a new slot. */
    method CountNew(n: nat)
      requires SlotsOk() && WaitersOk()
      modifies this`bytes, this`live
      ensures SlotsOk() && WaitersOk() && bytes == old(bytes) + n && live == old(live) + 1
    {
      hide SlotsOk, WaitersOk;
      live := live + 1;
      bytes := bytes + n;
      SlotsKept();
      WaitersKept();
    }

    /** Changes the timer queue and nothing else. */
    method SetTimers(t: seq<Entry>)
      requires SlotsOk() && WaitersOk()
      modifies this`timers
      ensures SlotsOk() && WaitersOk() && timers == t
    {
      hide SlotsOk, WaitersOk;
      timers := t;
      SlotsKept();
      WaitersKept();
    }

    /** Inserts a new slot. The store keeps a copy of the ciphertext of its own. */
    method Create(id: Id, d: Drop, ct: array?<byte>, ghost now: int) returns (err: Option<Error>)
      requires Valid()
      requires NewSlot(d) && d.ciphertext == Contents(ct)
      modifies Repr
      ensures Valid() && parked == old(parked) && fresh(Repr - old(Repr))
      ensures (slots, Outcome(err)) == Step(opts, old(slots), OpCreate(id, d, now))
    {
      hide SlotsOk, WaitersOk, Waiting, Live, Bytes, WellFormed, TimersOk, Contents, Length, Slot.Value;
      SameKeys();
      LengthOfContents(ct);
      if id in drops {
        return Some(ErrFull);
      }
      if opts.maxLive > 0 && live >= opts.maxLive {
        return Some(ErrFull);
      }
      if opts.maxBytes > 0 && bytes + Length(ct) > opts.maxBytes {
        return Some(ErrFull);
      }
      CreatedCounts(slots, id, d);
      var cp := Copy(ct);
      LengthOfContents(cp);
      var slot := new Slot(id, d, cp);
      Insert(slot);
      WaitersKept();
      CountNew(Length(cp));
      var t := Schedule(timers, old(slots), id, d, opts.grace);
      SetTimers(t);
      return None;
    }

    lemma SameKeys()
      requires SlotsOk()
      ensures this in Repr && drops.Keys == slots.Keys
    {
    }

    /** Puts an uploaded ciphertext into a stored slot. */
    method Put(d: Slot, cp: array?<byte>, at: int)
      requires SlotsOk()
      requires d.id in drops && d == drops[d.id]
      requires cp != null ==> cp !in Repr
      modifies d, this`slots, this`owner, this`Repr
      ensures SlotsOk()
      ensures Repr == (if cp == null then old(Repr) else old(Repr) + {cp})
      ensures slots == old(slots)[d.id := old(slots)[d.id].Filled(Contents(cp), at)]
    {
      hide Drop.Filled, Slot.Value, Contents;
      assert Stored(d.id);
      d.Fill(cp, at);
      slots := slots[d.id := slots[d.id].Filled(Contents(cp), at)];
      if cp != null {
        Repr := Repr + {cp};
        owner := owner[cp := d.id];
      }
      forall id | id in drops ensures Stored(id) {
        assert old(Stored(id));
      }
    }

    /** An accepted upload. */
    method Accept(d: Slot, ct: array?<byte>, at: int)
      requires Valid()
      requires d.id in slots && d == drops[d.id]
      requires slots[d.id].state == Created && slots[d.id].kind == KindDrop
      modifies Repr, parked
      ensures Valid() && parked == old(parked) && fresh(Repr - old(Repr))
      ensures slots == old(slots)[d.id := old(slots)[d.id].Filled(old(Contents(ct)), at)]
    {
      hide SlotsOk, WaitersOk, WaitersOkBut, Waiting, Live, Bytes, WellFormed, TimersOk, Drop.Filled, Contents,
        Length, Slot.Value;
      Found(d);
      FilledCounts(slots, d.id, Contents(ct), at);
      var cp := Copy(ct);
      LengthOfContents(cp);
      Put(d, cp, at);
      Count(Length(cp));
      WaitersAfterChange(d.id);
      Wake(d.id);
      TimersUnmoved(d.id);
    }

    /**
     * Stores ciphertext in a drop slot, once, for the holder of the upload token who names the
     * recipient key the slot was created for. The store keeps a copy of its own.
     */
    method Upload(id: Id, token: Hash, commitment: string, ct: array?<byte>, now: int, at: int)
        returns (err: Option<Error>)
      requires Valid()
      requires ct != null ==> ct !in Repr
      modifies Repr, parked
      ensures Valid() && parked == old(parked) && fresh(Repr - old(Repr))
      ensures (slots, Outcome(err))
        == Step(opts, old(slots), OpUpload(id, token, commitment, old(Contents(ct)), now, at))
    {
      hide SlotsOk, WaitersOk, Waiting, Live, Bytes, WellFormed, TimersOk, Step, Drop.Filled, Drop.Seen, Touch;
      ghost var op := OpUpload(id, token, commitment, Contents(ct), now, at);
      var d := Get(id, now);
      if d == null {
        StepMissing(opts, slots, op);
        return Some(ErrNotFound);
      }
      Found(d);
      ghost var room := HasRoom(opts, old(slots), op);
      StepAddressed(opts, old(slots), op, slots, UploadSlot(slots[id], token, commitment, Contents(ct), room, at));
      if d.kind != KindDrop {
        return Some(ErrWrongKind);
      }
      if d.state.Terminal() {
        var e := d.StateError();
        return Some(e);
      }
      if d.tokenA != token {
        return Some(ErrBadToken);
      }
      if d.state != Created {
        var e := d.StateError();
        return Some(e);
      }
      if d.commitment != commitment {
        return Some(ErrCommitment);
      }
      if opts.maxBytes > 0 && bytes + Length(ct) > opts.maxBytes {
        return Some(ErrFull);
      }
      Accept(d, ct, at);
      return None;
    }

    /** Adds a poll on a slot that is in the state the poll waits to see changed. */
    method Enlist(id: Id, ch: Channel)
      requires SlotsOk() && WaitersOk()
      requires id in slots && ch.id == id && ch.current == slots[id].state && ch !in parked
      modifies this`waiters, this`parked
      ensures SlotsOk() && WaitersOk()
      ensures parked == old(parked) + {ch}
    {
      hide SlotsOk;
      var ws := if id in waiters then waiters[id] else {};
      waiters := waiters[id := ws + {ch}];
      parked := parked + {ch};
      SlotsKept();
    }

    /** Removes a poll, and the slot's set of polls with the last of them. */
    method Leave(id: Id, ch: Channel)
      requires SlotsOk() && WaitersOk()
      requires ch.id == id
      modifies this`waiters, this`parked
      ensures SlotsOk() && WaitersOk()
      ensures parked == old(parked) - {ch}
    {
      hide SlotsOk;
      if id in waiters {
        var ws := waiters[id] - {ch};
        waiters := if ws == {} then waiters - {id} else waiters[id := ws];
      }
      parked := parked - {ch};
      SlotsKept();
    }

    /**
     * The first half of Wait: answer at once if the slot is unknown or no longer in the given
     * state, otherwise register a channel to park on.
     */
    method Register(id: Id, current: State, timeout: int, now: int)
        returns (r: Option<Result<StatusReport, Error>>, ch: Channel?)
      requires Valid()
      modifies Repr, parked
      ensures Valid() && Repr == old(Repr)
      ensures slots == Step(opts, old(slots), OpStatus(id, now)).0
      ensures r.Some? ==>
        && ch == null && parked == old(parked)
        && Reported(r.value) == Step(opts, old(slots), OpStatus(id, now)).1
      ensures r == None ==>
        ch != null && fresh(ch) && parked == old(parked) + {ch} && ch.id == id && ch.current == current
      ensures r == None <==> id in slots && slots[id].state == current && timeout > 0
    {
      hide SlotsOk, WaitersOk, Waiting, Live, Bytes, WellFormed, TimersOk, Step, Drop.Seen, Touch;
      ch := null;
      var d := Get(id, now);
      if d == null {
        StepMissing(opts, slots, OpStatus(id, now));
        r := Some(Failure(ErrNotFound));
        return;
      }
      Found(d);
      StepAddressed(opts, old(slots), OpStatus(id, now), slots, (slots[id], Report(slots[id].Status())));
      if d.state != current || timeout <= 0 {
        var st := d.Status();
        r := Some(Success(st));
        return;
      }
      ch := new Channel(id, current);
      Enlist(id, ch);
      r := None;
    }

    /** The second half of Wait, once woken, timed out or cancelled: unregister, then report the state. */
    method Unregister(id: Id, ch: Channel, now: int) returns (r: Result<StatusReport, Error>)
      requires Valid() && ch in parked && ch.id == id
      modifies Repr, parked
      ensures Valid() && Repr == old(Repr) && parked == old(parked) - {ch}
      ensures (slots, Reported(r)) == Step(opts, old(slots), OpStatus(id, now))
    {
      hide SlotsOk, WaitersOk, Waiting, Live, Bytes, WellFormed, TimersOk, Step, Drop.Seen, Touch;
      SameKeys();
      Leave(id, ch);
      r := Status(id, now);
    }

    /**
     * No lost wake-up. In every reachable state, a parked poll that registered on a live state
     * and whose channel is empty still has its slot, in exactly that state, and is among those
     * the next change of the slot will wake.
     */
    lemma NoLostWakeUp(ch: Channel)
      requires Valid() && ch in parked && !ch.current.Terminal()
      ensures !ch.full ==>
        && ch.id in slots && slots[ch.id].state == ch.current && ch.id in waiters
        && ch in waiters[ch.id]
      ensures ch.id !in slots || slots[ch.id].state != ch.current ==> ch.full
    {
      assert Waiting(ch);
    }

    /** Forgetting a tombstone lets no poll on a live state down. */
    twostate lemma WaitersAfterRemoval(id: Id)
      requires old(WaitersOk()) && id in old(slots) && !old(slots[id].Live())
      requires waiters == old(waiters) - {id} && parked == old(parked) && slots == old(slots) - {id}
      requires forall ch :: ch in parked ==> ch.full == old(ch.full)
      ensures WaitersOk()
    {
      forall ch | ch in parked ensures Waiting(ch) {
        assert old(Waiting(ch));
      }
    }

    /** Forgets a tombstone and the polls on it. */
    method Remove(id: Id)
      requires Consistent() && id in slots && !slots[id].Live()
      modifies this`drops, this`waiters, this`slots
      ensures Consistent()
      ensures slots == old(slots) - {id}
    {
      hide Bytes, Live, WellFormed, WaitersOk, Waiting;
      TombstoneIsEmpty(slots, id);
      drops := drops - {id};
      waiters := waiters - {id};
      slots := slots - {id};
      forall k | k in drops ensures Stored(k) {
        assert old(Stored(k));
      }
      WaitersAfterRemoval(id);
    }

    /** One timer of a sweep: takes the first one off the queue and does what it says. */
    method Fire(ghost was: Slots, ghost expired: set<Id>, ghost removed: set<Id>, now: int)
      returns (touched: nat, ghost expired': set<Id>, ghost removed': set<Id>)
      requires Valid() && |timers| > 0 && timers[0].at <= now
      requires Sweeping(opts, was, slots, expired, removed, now)
      modifies Repr, parked
      ensures Valid() && parked == old(parked) && Repr == old(Repr) && |timers| < |old(timers)|
      ensures Sweeping(opts, was, slots, expired', removed', now)
      ensures |expired'| + |removed'| == |expired| + |removed| + touched
    {
      hide SlotsOk, WaitersOk, Live, Bytes, WellFormed, TimersOk, Drop.Tombstoned, Sweeping;
      SameKeys();
      FirstTimer(timers, slots, opts.grace);
      var rest, e := Pop(timers);
      PopShrinks(timers, rest, e);
      touched, expired', removed' := 0, expired, removed;
      if e.id in drops {
        var d := drops[e.id];
        FoundAt(e.id);
        if e.remove {
          RemovalMeetsTombstone(timers, slots, opts.grace);
          TimersAfterRemoval(timers, rest, slots, opts.grace);
          SweepRemoves(opts, was, slots, expired, removed, now, e.id);
          SetTimers(rest);
          Remove(e.id);
          removed' := removed + {e.id};
          touched := 1;
        } else if !d.state.Terminal() {
          TombstonedKeeps(slots[e.id], Expired, slots[e.id].expiresAt);
          SweepExpires(opts, was, slots, expired, removed, now, e.id);
          TimersAfterExpiry(timers, rest, slots, slots[e.id].Expire(), opts.grace);
          SetTimers(rest);
          Expire(d);
          expired' := expired + {e.id};
          touched := 1;
        } else {
          TimersAfterExpiry(timers, rest, slots, slots[e.id], opts.grace);
          assert slots[e.id := slots[e.id]] == slots;
          SetTimers(rest);
        }
      }
    }

    /** Expires and removes everything due, in the order the timers come. */
    method SweepDue(now: int) returns (touched: nat)
      requires Valid()
      modifies Repr, parked
      ensures Valid() && parked == old(parked) && Repr == old(Repr)
      ensures (slots, Reply.Swept(touched)) == Step(opts, old(slots), OpSweep(now))
    {
      hide Consistent, Live, Bytes, WellFormed, TimersOk, Drop.Seen, Overdue, Stale;
      touched := 0;
      ghost var expired: set<Id>, removed: set<Id> := {}, {};
      SweepStarts(opts, slots, now);
      while |timers| > 0 && timers[0].at <= now
        invariant Valid() && parked == old(parked) && Repr == old(Repr)
        invariant Sweeping(opts, old(slots), slots, expired, removed, now)
        invariant touched == |expired| + |removed|
        decreases |timers|
      {
        var t;
        t, expired, removed := Fire(old(slots), expired, removed, now);
        touched := touched + t;
      }
      NothingDue(timers, slots, opts.grace, now);
      SweepIsDone(opts, old(slots), slots, expired, removed, now);
    }

    /** Slots that are not tombstones, ciphertext bytes held, slots in all. */
    method Stats() returns (l: int, b: int, total: nat)
      requires Valid()
      ensures l == Live(slots) && b == Bytes(slots) && total == |slots|
    {
      assert |drops| == |drops.Keys| && |slots| == |slots.Keys|;
      l, b, total := live, bytes, |drops|;
    }
  }

  /** The reply of a call that returns an error or nothing. */
  function Outcome(err: Option<Error>): Reply {
    if err == None then Done else Failed(err.value)
  }

  /** The reply of a call that returns a ciphertext and a time, or an error. */
  function Delivery(ct: seq<byte>, at: int, err: Option<Error>): Reply {
    if err == None then Payload(ct, at) else Failed(err.value)
  }

  function Reported(r: Result<StatusReport, Error>): Reply {
    match r
    case Success(st) => Report(st)
    case Failure(e) => Failed(e)
  }
}
