/**
 * One drop from the request to the store, through every part: the agent asks the relay for a
 * slot, a page opened with the link seals what was typed and uploads it, the agent waits and
 * fetches. Between the three anything may have happened at the relay to other slots.
 */
module DropJourney {
  import opened Prelude
  import opened Slots
  import opened Envelopes
  import opened DropProtocol
  import opened Agents
  import LinkLaws
  import Links
  import Manager
  import MemoryStore
  import Redactor
  import SlotLaws
  import Storage
  import Utf8

  datatype SubmitError = BadLink | TooLong | UploadRefused(error: Error)

  /** Agent and relay share no object. */
  ghost predicate Apart(agent: Agent, relay: MemoryStore.Memory)
    reads agent, agent.store, relay
  {
    && {agent, agent.redactor, agent.store} !! relay.Repr
    && {agent.store.session, agent.store.persistent, agent.store.index} !! relay.Repr
  }

  /** What the page uploads for a typed value. */
  function Sealed(c: Ideal, d: Links.DropLink, value: seq<byte>, r: seq<byte>): Option<seq<byte>> {
    c.SealEnvelope(d.recipientKey, PageEnvelope(c, ShownOf(d), value), r)
  }

  /** A page reads its link, seals what was typed with everything it shows, and uploads it. */
  method Submit(relay: MemoryStore.Memory, c: Ideal, url: string, value: seq<byte>, r: seq<byte>,
      hash: string -> Hash, now: int)
    returns (problem: Option<SubmitError>)
    requires relay.Valid()
    modifies relay.Repr, relay.parked
    ensures relay.Valid() && relay.parked == old(relay.parked) && fresh(relay.Repr - old(relay.Repr))
    ensures
      var d := PageOpens(url, c.date);
      if d == None then problem == Some(BadLink) && relay.slots == old(relay.slots)
      else
        var ct := Sealed(c, d.value, value, r);
        if ct == None then problem == Some(TooLong) && relay.slots == old(relay.slots)
        else
          var step := Step(relay.opts, old(relay.slots),
            OpUpload(d.value.id, hash(d.value.uploadToken), c.Commitment(d.value.recipientKey), ct.value, now, now));
          relay.slots == step.0 && problem == if step.1.Failed? then Some(UploadRefused(step.1.error)) else None
  {
    hide MemoryStore.Memory.Valid, Step, PageOpens, Sealed;
    var d := PageOpens(url, c.date);
    if d == None {
      return Some(BadLink);
    }
    var ct := Sealed(c, d.value, value, r);
    if ct == None {
      return Some(TooLong);
    }
    var buffer := MemoryStore.Buffer(ct.value);
    var err := relay.Upload(d.value.id, hash(d.value.uploadToken), c.Commitment(d.value.recipientKey), buffer, now,
      now);
    problem := if err.Some? then Some(UploadRefused(err.value)) else None;
  }

  /** What comes of a status query and, if something was uploaded, of a fetch with the request's own token. */
  ghost function Collected(a: Surroundings, o: Options, s: Slots, rec: Pending, id: Id, hash: string -> Hash,
      view: Manager.Layers, forms: seq<Redactor.Form>, now: int): (Slots, Settled)
  {
    var seen := Step(o, s, OpStatus(id, now));
    if !seen.1.Report? then (seen.0, Waited(a, rec, Failure(ErrNotFound), Failed(ErrNotFound), view, forms, now))
    else if seen.1.status.state != Uploaded then
      (seen.0, Waited(a, rec, Success(seen.1.status), Failed(ErrNotFound), view, forms, now))
    else
      var got := Step(o, seen.0, OpFetch(id, hash(rec.fetchToken), now, now));
      var reply := if got.1.Payload? then got.1 else Failed(if got.1.Failed? then got.1.error else ErrNotFound);
      (got.0, Waited(a, rec, Success(seen.1.status), reply, view, forms, now))
  }

  /** The agent asks the relay how its request stands and, if something was uploaded, fetches it. */
  method Collect(agent: Agent, relay: MemoryStore.Memory, id: Id, hash: string -> Hash, now: int)
    returns (status: Status)
    requires agent.Valid() && relay.Valid() && id != "" && id in agent.pending
    requires Apart(agent, relay)
    modifies agent`pending, agent.redactor, agent.store.session, agent.store.persistent, agent.store.index
    modifies relay.Repr, relay.parked
    ensures agent.Valid() && relay.Valid()
    ensures
      var c := Collected(agent.around, relay.opts, old(relay.slots), old(agent.pending)[id], id, hash,
        old(agent.store.View()), old(agent.redactor.forms), now);
      && relay.slots == c.0 && status == c.1.status && agent.store.View() == c.1.view
        && agent.redactor.forms == c.1.forms
      && agent.pending == if c.1.forget then old(agent.pending) - {id} else old(agent.pending)
  {
    hide MemoryStore.Memory.Valid, Step, Ideal.Lawful, Redactor.Registered, Links.AsciiDates, Manager.Proper,
      Manager.Known, Waited, AsRequested;
    ghost var rec := agent.pending[id];
    SlotLaws.StatusExactly(relay.opts, relay.slots, id, now);
    var waited := relay.Status(id, now);
    var reply := Failed(ErrNotFound);
    if waited.Success? && waited.value.state == Uploaded {
      SlotLaws.FetchExactly(relay.opts, relay.slots, id, hash(rec.fetchToken), now, now);
      var ct, at, err := relay.Fetch(id, hash(agent.pending[id].fetchToken), now, now);
      reply := MemoryStore.Delivery(if ct == null then [] else ct[..], at, err);
    }
    status := agent.Fetch(id, waited, reply, now);
  }

  // ----- The whole way -----

  /** What the page uploads is accepted by the agent that made the link. */
  lemma SubmittedIsReceived(a: Surroundings, rec: Pending, d: Links.DropLink, value: seq<byte>, r: seq<byte>)
    requires a.ideal.Lawful() && Links.AsciiDates(a.ideal.date) && OwnKey(a.ideal, rec)
      && Links.ValidDrop(d, a.ideal.date)
    requires d.recipientKey == rec.pub && Matches(ShownOf(d), rec, a.describe)
    ensures
      Sealed(a.ideal, d, value, r).Some? <==> |a.ideal.json(PageEnvelope(a.ideal, ShownOf(d), value))| <= 65536
    ensures
      Sealed(a.ideal, d, value, r).Some? ==>
        Receive(a.ideal, rec, a.describe, Sealed(a.ideal, d, value, r).value) == Accepted(value)
  {
    hide Utf8.Valid, Ideal.Lawful, OwnKey, Receive, PageEnvelope, Links.AsciiDates, ValidName;
    Links.RetentionIsAscii(d.retention, a.ideal.date);
    Utf8.AsciiValid(d.retention);
    ShownText(d, a.ideal.date);
    PageCanSeal(a.ideal, ShownOf(d), value, r);
    if Sealed(a.ideal, d, value, r).Some? {
      SealedIsReceived(a.ideal, rec, a.describe, ShownOf(d), value, r);
    }
  }

  lemma ShownText(d: Links.DropLink, date: string -> bool)
    requires Links.ValidDrop(d, date) && Utf8.Valid(d.retention)
    ensures ShownIsText(ShownOf(d))
  {
  }

  /** The typed value is neither too long for anyone nor late for anything. */
  ghost predicate GetsThrough(a: Surroundings, o: Options, s: Slots, rec: Pending, relay: string, link: string,
      value: seq<byte>, r: seq<byte>, expiresAt: int, typed: int, collected: int)
  {
    var ct := Sealed(a.ideal, LinkOf(rec, a.describe, relay), value, r);
    && |link| <= 8192 && ct.Some? && (o.maxBytes > 0 ==> Bytes(s) + |ct.value| <= o.maxBytes)
    && typed < expiresAt && collected < expiresAt
    && |value| <= 65536 && Storage.ParseRetention(rec.retention, Manager.Seconds(collected), a.stores.date).Success?
  }

  /** What a drop that was stored has left behind: the secret with the agent, a tombstone at the relay. */
  ghost predicate ThroughTo(a: Surroundings, rec: Pending, value: seq<byte>, status: Status, before: Manager.Layers,
      after: Manager.Layers, s: Slots, t: Slots)
  {
    && status.StatusStored? && AsRequested(a.stores, rec, status.meta)
    && rec.id in t && t[rec.id].state == Fetched && t[rec.id].ciphertext == [] && t - {rec.id} == s - {rec.id}
    && var item := Manager.Item(Text(value), status.meta);
    if rec.retention == "session" then after == before.(session := before.session[rec.name := item])
    else after == before.(persistent := before.persistent[rec.name := item])
  }

  /** The agent stores what it collects if its request, the upload and the slot are as they should be. */
  lemma CollectedIsStored(a: Surroundings, rec: Pending, report: StatusReport, value: seq<byte>, ct: seq<byte>, at: int,
      view: Manager.Layers, forms: seq<Redactor.Form>, now: int, s: Slots, t: Slots)
    requires report.state == Uploaded && Receive(a.ideal, rec, a.describe, ct) == Accepted(value)
    requires Storage.ValidName(rec.name) && |value| <= 65536
    requires Storage.ParseRetention(rec.retention, Manager.Seconds(now), a.stores.date).Success?
    requires rec.id in t && t[rec.id].state == Fetched && t[rec.id].ciphertext == [] && t - {rec.id} == s - {rec.id}
    ensures
      var end := Waited(a, rec, Success(report), Payload(ct, at), view, forms, now);
      && end.forget && ThroughTo(a, rec, value, end.status, view, end.view, s, t)
      && end.forms == Redactor.Added(forms, rec.name, Text(value), a.encodings(Text(value)))
  {
    hide Receive, Waited, AsRequested;
    StatusesExactly(a, rec, Success(report), Payload(ct, at), view, forms, now);
    StoredAsRequested(a, rec, Success(report), Payload(ct, at), view, forms, now);
  }

  lemma BuiltIsValid(a: Surroundings, rec: Pending, relay: string, pageOrigin: string)
    requires Links.AsciiDates(a.ideal.date)
    requires Links.BuildDrop(LinkOf(rec, a.describe, relay), pageOrigin, a.ideal.date).Some?
    ensures Links.ValidDrop(LinkOf(rec, a.describe, relay), a.ideal.date) && |rec.id| == 22
  {
    hide Links.NormalizeOrigin, Links.ValidName, ValidText, Storage.ValidRetention, Links.DropFields, Links.ValidRelay;
  }

  /**
   * The page opened with the request's own link makes an upload that the request's slot takes and the
   * agent accepts.
   */
  lemma SlotServes(a: Surroundings, o: Options, s: Slots, w: Wish, g: Grant, persistent: string, hash: string -> Hash,
      key: string, relay: string, pageOrigin: string, value: seq<byte>, r: seq<byte>,
      asked: int, expiresAt: int, typed: int, collected: int)
    requires a.ideal.Lawful() && Links.AsciiDates(a.ideal.date) && LinkLaws.Normalized(relay) && Utf8.Valid(relay)
    requires
      var rec := Record(a.ideal, w, g, persistent);
      var link := Links.BuildDrop(LinkOf(rec, a.describe, relay), pageOrigin, a.ideal.date);
      && OwnKey(a.ideal, rec) && link.Some?
      && GetsThrough(a, o, s, rec, relay, link.value, value, r, expiresAt, typed, collected)
      && Step(o, s, OpCreate(g.id, RequestedSlot(a.ideal, rec, hash, key, asked, expiresAt), asked)).1 == Done
    ensures
      var rec := Record(a.ideal, w, g, persistent);
      var d := LinkOf(rec, a.describe, relay);
      var created := Step(o, s, OpCreate(g.id, RequestedSlot(a.ideal, rec, hash, key, asked, expiresAt), asked)).0;
      var ct := Sealed(a.ideal, d, value, r);
      && PageOpens(Links.BuildDrop(d, pageOrigin, a.ideal.date).value, a.ideal.date) == Some(d) && ct.Some?
      && Receive(a.ideal, rec, a.describe, ct.value) == Accepted(value)
      && var uploaded := Step(o, created,
          OpUpload(d.id, hash(d.uploadToken), a.ideal.Commitment(d.recipientKey), ct.value, typed, typed));
      var seen := Step(o, uploaded.0, OpStatus(g.id, collected));
      var fetched := Step(o, seen.0, OpFetch(g.id, hash(rec.fetchToken), collected, collected));
      && uploaded.1 == Done && seen.1.Report? && seen.1.status.state == Uploaded
        && fetched.1 == Payload(ct.value, typed)
      && g.id in fetched.0 && fetched.0[g.id].state == Fetched && fetched.0[g.id].ciphertext == []
      && fetched.0 - {g.id} == s - {g.id}
  {
    hide Step, Bytes, Links.BuildDrop, PageOpens, PageSees, Links.ValidDrop, Receive, Sealed, OwnKey, Ideal.Lawful,
      Ideal.Commitment, Utf8.Valid, LinkLaws.Normalized, Links.AsciiDates;
    var rec := Record(a.ideal, w, g, persistent);
    var d := LinkOf(rec, a.describe, relay);
    var slot := RequestedSlot(a.ideal, rec, hash, key, asked, expiresAt);
    BuiltIsValid(a, rec, relay, pageOrigin);
    LinkShowsRequest(a.ideal, rec, a.describe, relay, pageOrigin);
    SubmittedIsReceived(a, rec, d, value, r);
    RequestedExactly(a.ideal, w, g, persistent, hash, key, asked, expiresAt);
    SlotLaws.CreateExactly(o, s, g.id, slot, asked);
    SlotLaws.CountsExactly(s[g.id := slot]);
    assert s[g.id := slot] - {g.id} == s;
    SlotLaws.DropDelivers(o, s, g.id, slot, a.ideal.Commitment(rec.pub), Sealed(a.ideal, d, value, r).value, asked,
      typed, collected);
  }

  /** So the agent that collects in time stores what was typed. */
  lemma JourneyEnds(a: Surroundings, o: Options, s: Slots, w: Wish, g: Grant, persistent: string, hash: string -> Hash,
      key: string, relay: string, pageOrigin: string, value: seq<byte>, r: seq<byte>,
      asked: int, expiresAt: int, typed: int, collected: int, view: Manager.Layers, forms: seq<Redactor.Form>)
    requires a.ideal.Lawful() && Links.AsciiDates(a.ideal.date) && LinkLaws.Normalized(relay) && Utf8.Valid(relay)
    requires
      var rec := Record(a.ideal, w, g, persistent);
      var link := Links.BuildDrop(LinkOf(rec, a.describe, relay), pageOrigin, a.ideal.date);
      && Storage.ValidName(w.name) && OwnKey(a.ideal, rec) && link.Some?
      && GetsThrough(a, o, s, rec, relay, link.value, value, r, expiresAt, typed, collected)
      && Step(o, s, OpCreate(g.id, RequestedSlot(a.ideal, rec, hash, key, asked, expiresAt), asked)).1 == Done
    ensures
      var rec := Record(a.ideal, w, g, persistent);
      var d := LinkOf(rec, a.describe, relay);
      var created := Step(o, s, OpCreate(g.id, RequestedSlot(a.ideal, rec, hash, key, asked, expiresAt), asked)).0;
      var ct := Sealed(a.ideal, d, value, r);
      && PageOpens(Links.BuildDrop(d, pageOrigin, a.ideal.date).value, a.ideal.date) == Some(d) && ct.Some?
      && var uploaded := Step(o, created,
          OpUpload(d.id, hash(d.uploadToken), a.ideal.Commitment(d.recipientKey), ct.value, typed, typed));
      var end := Collected(a, o, uploaded.0, rec, g.id, hash, view, forms, collected);
      && uploaded.1 == Done && end.1.forget
      && ThroughTo(a, rec, value, end.1.status, view, end.1.view, s, end.0)
      && end.1.forms == Redactor.Added(forms, rec.name, Text(value), a.encodings(Text(value)))
  {
    hide Step, Bytes, Links.BuildDrop, PageOpens, Receive, Sealed, OwnKey, Ideal.Lawful, Ideal.Commitment, Utf8.Valid,
      LinkLaws.Normalized, Links.AsciiDates, Waited, ThroughTo, Storage.ValidName, Redactor.Added;
    SlotServes(a, o, s, w, g, persistent, hash, key, relay, pageOrigin, value, r, asked, expiresAt, typed, collected);
    var rec := Record(a.ideal, w, g, persistent);
    var d := LinkOf(rec, a.describe, relay);
    var created := Step(o, s, OpCreate(g.id, RequestedSlot(a.ideal, rec, hash, key, asked, expiresAt), asked)).0;
    var ct := Sealed(a.ideal, d, value, r).value;
    var uploaded := Step(o, created,
      OpUpload(d.id, hash(d.uploadToken), a.ideal.Commitment(d.recipientKey), ct, typed, typed)).0;
    var seen := Step(o, uploaded, OpStatus(g.id, collected));
    var fetched := Step(o, seen.0, OpFetch(g.id, hash(rec.fetchToken), collected, collected)).0;
    CollectedIsStored(a, rec, seen.1.status, value, ct, typed, view, forms, collected, s, fetched);
  }

  lemma RelayOfNormalized(relayOrigin: string, pageOrigin: string)
    requires LinkLaws.Normalized(relayOrigin) && Utf8.Valid(relayOrigin)
    ensures LinkLaws.Normalized(RelayOf(relayOrigin, pageOrigin)) && Utf8.Valid(RelayOf(relayOrigin, pageOrigin))
  {
    hide Links.NormalizeOrigin;
  }

  /** From the request to the store, at one relay. */
  method Journey(agent: Agent, relay: MemoryStore.Memory, w: Wish, g: Grant, hash: string -> Hash, key: string,
      value: seq<byte>, r: seq<byte>, asked: int, expiresAt: int, typed: int, collected: int)
    returns (link: Result<string, RequestError>, problem: Option<SubmitError>, status: Option<Status>)
    requires agent.Valid() && relay.Valid() && |agent.around.ideal.public(g.priv)| == KEY_SIZE
    requires LinkLaws.Normalized(agent.relayOrigin) && Utf8.Valid(agent.relayOrigin)
    requires Apart(agent, relay)
    modifies agent`pending, agent.redactor, agent.store.session, agent.store.persistent, agent.store.index
    modifies relay.Repr, relay.parked
    ensures agent.Valid() && relay.Valid()
    ensures
      var rec := Record(agent.around.ideal, w, g, agent.store.persistent.title);
      link.Success? && GetsThrough(agent.around, relay.opts, old(relay.slots), rec,
        RelayOf(agent.relayOrigin, agent.pageOrigin), link.value, value, r, expiresAt, typed, collected)
      ==>
        && problem == None && status.Some? && agent.pending == old(agent.pending) - {g.id}
        && ThroughTo(agent.around, rec, value, status.value, old(agent.store.View()), agent.store.View(),
          old(relay.slots), relay.slots)
        && agent.redactor.forms == Redactor.Added(old(agent.redactor.forms), w.name, Text(value),
          agent.around.encodings(Text(value)))
  {
    hide MemoryStore.Memory.Valid, Step, Ideal.Lawful, Redactor.Registered, Links.AsciiDates, Manager.Proper,
      Manager.Known, Links.BuildDrop, OwnKey, PageOpens, Sealed, Utf8.Valid, LinkLaws.Normalized, Ideal.Commitment,
      ThroughTo, Receive, Collected, GetsThrough, Redactor.Added, Storage.ValidName, ValidText, Blank,
        Storage.ParseRetention,
      FingerprintOf, SlotLaws.Refused, Bytes, Live, RelayOf, Links.ValidDrop;
    problem, status := None, None;
    ghost var s := relay.slots;
    ghost var rec := Record(agent.around.ideal, w, g, agent.store.persistent.title);
    ghost var origin := RelayOf(agent.relayOrigin, agent.pageOrigin);
    link := agent.Request(relay, w, g, hash, key, asked, expiresAt);
    if link.Failure? {
      return;
    }
    RelayOfNormalized(agent.relayOrigin, agent.pageOrigin);
    ghost var slot := RequestedSlot(agent.around.ideal, rec, hash, key, asked, expiresAt);
    SlotLaws.CreateExactly(relay.opts, s, g.id, slot, asked);
    BuiltIsValid(agent.around, rec, origin, agent.pageOrigin);
    ghost var through :=
      GetsThrough(agent.around, relay.opts, s, rec, origin, link.value, value, r, expiresAt, typed, collected);
    if through {
      JourneyEnds(agent.around, relay.opts, s, w, g, agent.store.persistent.title, hash, key, origin, agent.pageOrigin,
        value, r, asked, expiresAt, typed, collected, agent.store.View(), agent.redactor.forms);
    }
    problem := Submit(relay, agent.around.ideal, link.value, value, r, hash, typed);
    if problem.Some? {
      return;
    }
    var end := Collect(agent, relay, g.id, hash, collected);
    status := Some(end);
  }
}
