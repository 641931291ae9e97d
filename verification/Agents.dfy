/**
 * The agent's side of a drop: it asks the relay for a slot and remembers the request, turns
 * what a fetch got into a stored secret or a refusal, and revokes. The relay's answers to the
 * long poll and to fetch and revoke calls are arguments, since others use the relay too. Saving
 * a record of a request succeeds; fresh keys, ids and tokens are arguments. What the agent
 * remembers of requests and of reveals it sent is kept apart from the secrets.
 */
module Agents {
  import opened Prelude
  import opened Slots
  import opened SlotRuns
  import opened Envelopes
  import opened DropProtocol
  import ExactlyOnce
  import Handlers
  import LinkLaws
  import Links
  import MemoryStore
  import Manager
  import Redactor
  import Storage
  import SlotLaws
  import Utf8

  datatype Status =
    | StatusWaiting
    | StatusStored(meta: Storage.Metadata)
    | StatusExpired
    | StatusRevoked
    | StatusRejected
    | StatusGone
    | StatusFailed

  datatype RequestError = BadInput | RelayRefused(error: Error) | NoLink

  /** Nothing but white space. */
  predicate Blank(s: string) {
    s == "" || (Space(s[..Utf8.First(s).1]) && Blank(s[Utf8.First(s).1..]))
  }

  /** An ASCII text is blank exactly if it has nothing but spaces, tabs, line feeds and their like. */
  lemma {:induction false} BlankExactly(s: string)
    requires Utf8.Ascii(s)
    ensures Blank(s) <==> forall k :: 0 <= k < |s| ==> s[k] == ' ' || 9 as char <= s[k] <= 13 as char
  {
    if s != "" {
      assert s[..1] == [s[0]];
      assert Utf8.First(s) == ([s[0]], 1);
      BlankExactly(s[1..]);
      assert forall k :: 1 <= k < |s| ==> s[k] == s[1..][k - 1];
    }
  }

  /** Whether a relay error means the ciphertext is out of reach for good. */
  predicate IsGone(e: Error) {
    e.ErrState? && e.state != Created
  }

  /** The final state a revoke call tells, or None if it failed otherwise. */
  function RevokeState(r: Reply): Option<State> {
    if !r.Failed? then Some(Revoked)
    else if r.error.ErrState? then Some(r.error.state)
    else if r.error == ErrNotFound || r.error == ErrWrongKind then Some(Expired)
    else None
  }

  /** The agent goes by the response: what it takes for gone is what the relay calls gone, and likewise for a revoke. */
  lemma ResponsesTell(e: Error)
    ensures IsGone(e) <==> Handlers.StoreError(e, Handlers.CallFetch).code == Handlers.Gone
    ensures
      var response := Handlers.StoreError(e, Handlers.CallRevoke);
      RevokeState(Failed(e)) ==
        if response.state.Some? then Some(response.state.value.0)
        else if response.code == Handlers.NotFound then Some(Expired)
        else None
  {
  }

  /**
   * What a revoke call tells is the state the slot is in, or that the relay no longer knows it. It tells
   * nothing exactly if the token was wrong for a slot that was still usable.
   */
  lemma RevokeTellsState(o: Options, s: Slots, op: Op)
    requires WellFormed(s) && op.OpRevoke?
    ensures
      var (t, reply) := Step(o, s, op);
      var state := RevokeState(reply);
      if op.id !in s then state == Some(Expired) && op.id !in t
      else if SlotLaws.Usable(s[op.id], op.now) && op.token != s[op.id].tokenA && op.token != s[op.id].tokenB then
        state == None && t == s
      else op.id in t && state == Some(t[op.id].state) && t[op.id].state.Terminal()
  {
    hide Step;
    SlotLaws.RevokeExactly(o, s, op.id, op.token, op.now, op.at);
  }

  /**
   * When a fetch is told that the ciphertext is gone, the drop has ended, for good. As long as nothing was
   * uploaded it is not told so.
   */
  lemma GoneIsFinal(o: Options, s: Slots, id: Id, token: Hash, now: int, at: int)
    requires id in s && s[id].kind == KindDrop
    ensures
      var (t, reply) := Step(o, s, OpFetch(id, token, now, at));
      && (reply.Failed? && IsGone(reply.error) <==> !SlotLaws.Usable(s[id], now))
      && (reply.Failed? && IsGone(reply.error) ==>
        id in t && t[id].state in {Expired, Revoked, Fetched, Opened}
          && reply.error == ErrState(t[id].state, SlotLaws.EndedAt(s[id], now)))
  {
    hide Step;
    SlotLaws.FetchExactly(o, s, id, token, now, at);
  }

  // ----- A request and its link -----

  /** What a request is asked with, once its retention is known. */
  datatype Wish = Wish(name: string, purpose: string, retention: string, sendable: bool)

  /** What the relay and the key generator gave it. */
  datatype Grant = Grant(id: Id, uploadToken: string, fetchToken: string, priv: seq<byte>)

  predicate GoodWish(w: Wish, now: int, date: string -> Option<int>) {
    Storage.ValidName(w.name) && ValidText(w.purpose) && !Blank(w.purpose)
    && Storage.ParseRetention(w.retention, now, date).Success?
  }

  /** A wish is good with a proper name, a purpose that says something, and a retention that has not run out. */
  lemma GoodWishExactly(w: Wish, now: int, date: string -> Option<int>)
    ensures
      GoodWish(w, now, date) <==>
        && Storage.ValidName(w.name) && ValidText(w.purpose) && !Blank(w.purpose)
        && (w.retention in {"session", "until-revoked"}
          || (|w.retention| >= 6 && w.retention[..6] == "until:" && date(w.retention[6..]).Some?
            && date(w.retention[6..]).value > now))
    ensures w.purpose == "" || w.purpose == " " ==> !GoodWish(w, now, date)
  {
    hide Storage.ValidName, ValidText;
    Storage.RetentionExactly(w.retention, now, date);
    assert Blank("");
    BlankExactly(" ");
  }

  function StorageName(w: Wish, persistent: string): string {
    if w.retention == Storage.RETENTION_SESSION then "memory" else persistent
  }

  function Record(c: Ideal, w: Wish, g: Grant, persistent: string): Pending {
    var pub := c.public(g.priv);
    Pending(g.id, g.fetchToken, g.uploadToken, g.priv, pub, w.name, w.purpose, w.retention,
      StorageName(w, persistent), w.sendable,
            FingerprintOf(c, pub))
  }

  /** The slot a request asks for. */
  function RequestedSlot(c: Ideal, rec: Pending, hash: string -> Hash, key: string, createdAt: int,
      expiresAt: int): Drop {
    Drop(KindDrop, Created, [], c.Commitment(rec.pub), hash(rec.uploadToken), hash(rec.fetchToken), key, createdAt,
      expiresAt, 0, 0, 0)
  }

  /**
   * A request's slot is a drop under the commitment to the fresh key, to be filled with the token in the
   * link and emptied with the one the agent keeps.
   */
  lemma RequestedExactly(c: Ideal, w: Wish, g: Grant, persistent: string, hash: string -> Hash, key: string,
      createdAt: int, expiresAt: int)
    ensures
      var rec := Record(c, w, g, persistent);
      var d := RequestedSlot(c, rec, hash, key, createdAt, expiresAt);
      && rec.id == g.id && rec.uploadToken == g.uploadToken && rec.fetchToken == g.fetchToken
      && rec.priv == g.priv && rec.pub == c.public(g.priv) && rec.fingerprint == FingerprintOf(c, c.public(g.priv))
      && rec.name == w.name && rec.purpose == w.purpose && rec.retention == w.retention && rec.sendable == w.sendable
      && rec.storage == (if w.retention == "session" then "memory" else persistent)
      && d.kind == KindDrop && d.state == Created && d.ciphertext == []
        && d.commitment == c.Commitment(c.public(g.priv))
      && d.tokenA == hash(g.uploadToken) && d.tokenB == hash(g.fetchToken)
      && d.createdAt == createdAt && d.expiresAt == expiresAt && NewSlot(d)
  {
  }

  /** The relay field of a link: only a relay that is not the page's own origin is named. */
  function RelayOf(relayOrigin: string, pageOrigin: string): string {
    if relayOrigin != pageOrigin then relayOrigin else ""
  }

  function LinkOf(rec: Pending, describe: string -> string, relay: string): Links.DropLink {
    Links.DropLink(relay, rec.id, rec.uploadToken, rec.pub, rec.name, rec.purpose, describe(rec.storage), rec.retention)
  }

  /** What a page that is opened with a link reads from it. */
  function PageOpens(url: string, date: string -> bool): Option<Links.DropLink> {
    var p := Links.ParseLink(url, date);
    if p.Some? && p.value.ParsedDrop? then Some(p.value.drop) else None
  }

  function ShownOf(d: Links.DropLink): Shown {
    Shown(d.recipientKey, d.name, d.purpose, d.storage, d.retention)
  }

  /** What it shows. */
  function PageSees(url: string, date: string -> bool): Option<Shown> {
    var d := PageOpens(url, date);
    if d.Some? then Some(ShownOf(d.value)) else None
  }

  /**
   * A page opened with the link as it was built knows the slot, its upload token and the request's key, and
   * shows the request as it is remembered.
   */
  lemma LinkShowsRequest(c: Ideal, rec: Pending, describe: string -> string, relay: string, pageOrigin: string)
    requires Links.AsciiDates(c.date) && LinkLaws.Normalized(relay) && Utf8.Valid(relay) && OwnKey(c, rec)
    requires
      var url := Links.BuildDrop(LinkOf(rec, describe, relay), pageOrigin, c.date);
      url.Some? && |url.value| <= Links.MAX_LINK
    ensures
      var url := Links.BuildDrop(LinkOf(rec, describe, relay), pageOrigin, c.date).value;
      var d := PageOpens(url, c.date);
      && d.Some? && d.value.id == rec.id && d.value.uploadToken == rec.uploadToken && d.value.relay == relay
      && d.value.recipientKey == rec.pub && d.value.name == rec.name && d.value.purpose == rec.purpose
      && d.value.storage == describe(rec.storage) && d.value.retention == rec.retention
      && PageSees(url, c.date) == Some(ShownOf(d.value))
      && ShownOf(d.value).key == rec.pub && Matches(ShownOf(d.value), rec, describe)
  {
    hide Links.BuildDrop, Links.ParseLink, Links.NormalizeOrigin;
    LinkLaws.DropRoundTrip(LinkOf(rec, describe, relay), pageOrigin, c.date);
  }

  /** The relay a page talks to: the one its link names, or its own origin. */
  function RelayOrigin(p: Links.Parsed): string {
    var relay := if p.ParsedDrop? then p.drop.relay else p.link.relay;
    if relay != "" then relay else p.pageOrigin
  }

  /** A page that opens a request's link talks to the agent's relay, whichever origin serves the page. */
  lemma LinkLeadsToRelay(c: Ideal, rec: Pending, describe: string -> string, relayOrigin: string, pageOrigin: string)
    requires Links.AsciiDates(c.date) && Utf8.Valid(relayOrigin)
    requires Links.NormalizeOrigin(relayOrigin) == Some(relayOrigin)
    requires
      var url := Links.BuildDrop(LinkOf(rec, describe, RelayOf(relayOrigin, pageOrigin)), pageOrigin, c.date);
      url.Some? && |url.value| <= Links.MAX_LINK
    ensures
      var url := Links.BuildDrop(LinkOf(rec, describe, RelayOf(relayOrigin, pageOrigin)), pageOrigin, c.date).value;
      Links.ParseLink(url, c.date).Some? && RelayOrigin(Links.ParseLink(url, c.date).value) == relayOrigin
  {
    hide Links.BuildDrop, Links.ParseLink, Links.NormalizeOrigin;
    Utf8.AsciiValid("");
    OriginNotEmpty(relayOrigin);
    LinkLaws.DropRoundTrip(LinkOf(rec, describe, RelayOf(relayOrigin, pageOrigin)), pageOrigin, c.date);
  }

  lemma OriginNotEmpty(s: string)
    requires Links.NormalizeOrigin(s).Some?
    ensures s != ""
  {
  }

  /**
   * From link to secret: an honest page opened with the request's own link, and whose upload the
   * relay accepted, makes the one fetch that gets a ciphertext get exactly the typed bytes.
   */
  lemma UnalteredLinkDelivers(c: Ideal, o: Options, ops: seq<Op>, i: nat, rec: Pending, describe: string -> string,
      relay: string, pageOrigin: string, u: nat, value: seq<byte>, j: nat)
    requires c.Lawful() && ProperRun(ops) && OwnKey(c, rec) && RequestedAt(c, o, ops, i, rec)
    requires Links.AsciiDates(c.date) && LinkLaws.Normalized(relay) && Utf8.Valid(relay)
    requires
      var url := Links.BuildDrop(LinkOf(rec, describe, relay), pageOrigin, c.date);
      url.Some? && |url.value| <= Links.MAX_LINK
    requires ExactlyOnce.UploadedAt(o, ops, u, rec.id)
    requires
      var shown := PageSees(Links.BuildDrop(LinkOf(rec, describe, relay), pageOrigin, c.date).value, c.date);
      shown.Some? && PageUpload(c, ops[u], rec.id, shown.value, value)
    requires ExactlyOnce.DeliveredAt(o, ops, j, rec.id) && ops[j].OpFetch?
    ensures ReplyAt(o, ops, j).Payload? && Receive(c, rec, describe, ReplyAt(o, ops, j).ciphertext) == Accepted(value)
  {
    hide Links.BuildDrop, PageSees, Receive, PageUpload, RequestedAt, Matches, OwnKey, Ideal.Lawful;
    LinkShowsRequest(c, rec, describe, relay, pageOrigin);
    var shown := PageSees(Links.BuildDrop(LinkOf(rec, describe, relay), pageOrigin, c.date).value, c.date).value;
    EndToEnd(c, o, ops, i, rec, describe, u, shown, value, j);
  }

  // ----- What a fetch comes to -----

  /** How a call ends: its status, what the stores and the redactor hold then, and whether the request is forgotten. */
  datatype Settled = Settled(status: Status, view: Manager.Layers, forms: seq<Redactor.Form>, forget: bool)

  /** What is stored with a secret that came through a drop. */
  function Meta(rec: Pending): Storage.Metadata {
    Storage.Metadata("", "", rec.retention, 0, None, rec.purpose, Manager.SOURCE_DROP, rec.sendable, rec.fingerprint,
      0, "")
  }

  /** What the agent is set up with. */
  datatype Surroundings = Surroundings(
    ideal: Ideal,
    describe: string -> string,
    encodings: string -> seq<string>,
    stores: Manager.Setup)

  /** What becomes of the answer to a fetch. */
  ghost function Answered(a: Surroundings, rec: Pending, reply: Reply, view: Manager.Layers,
      forms: seq<Redactor.Form>, now: int): Settled
    requires reply.Payload? || reply.Failed?
  {
    if reply.Failed? then
      if IsGone(reply.error) then Settled(StatusGone, view, forms, true) else Settled(StatusFailed, view, forms, false)
    else
      match Receive(a.ideal, rec, a.describe, reply.ciphertext)
      case Rejected => Settled(StatusRejected, view, forms, true)
      case Unreadable => Settled(StatusFailed, view, forms, false)
      case Accepted(value) =>
        var op := Manager.OpPut(rec.name, Text(value), Meta(rec), now);
        if Manager.PutError(a.stores, op).Some? then Settled(StatusFailed, view, forms, false)
        else
          Settled(
            StatusStored(Manager.Stored(a.stores, op).meta), Manager.Step(a.stores, view, op),
            Redactor.Added(forms, rec.name, Text(value), a.encodings(Text(value))), true)
  }

  /** What becomes of the answer to the long poll, and then of that to the fetch if it comes to one. */
  ghost function Waited(a: Surroundings, rec: Pending, waited: Result<StatusReport, Error>, reply: Reply,
      view: Manager.Layers, forms: seq<Redactor.Form>, now: int): Settled
    requires reply.Payload? || reply.Failed?
  {
    if waited.Failure? then
      if waited.error == ErrNotFound || waited.error == ErrWrongKind then Settled(StatusExpired, view, forms, true)
      else Settled(StatusFailed, view, forms, false)
    else
      match waited.value.state
      case Created => Settled(StatusWaiting, view, forms, false)
      case Revoked => Settled(StatusRevoked, view, forms, true)
      case Expired => Settled(StatusExpired, view, forms, true)
      case Fetched => Settled(StatusGone, view, forms, true)
      case Uploaded => Answered(a, rec, reply, view, forms, now)
      case Opened => Settled(StatusFailed, view, forms, false)
  }

  /**
   * A stored status means the typed bytes can be looked up under the requested name, unless a session
   * entry shadows them.
   */
  lemma StoredIsFound(a: Surroundings, rec: Pending, waited: Result<StatusReport, Error>, reply: Reply,
      view: Manager.Layers, forms: seq<Redactor.Form>, now: int, value: seq<byte>)
    requires reply.Payload? || reply.Failed?
    requires Waited(a, rec, waited, reply, view, forms, now).status.StatusStored?
    requires reply.Payload? && Receive(a.ideal, rec, a.describe, reply.ciphertext) == Accepted(value)
    requires rec.retention == Storage.RETENTION_SESSION || rec.name !in view.session
    ensures
      var r := Waited(a, rec, waited, reply, view, forms, now);
      var found := Manager.Lookup(r.view, rec.name, Manager.Seconds(now));
      found.Some? && found.value.value == Text(value) && found.value.meta == r.status.meta
  {
    hide Receive;
  }

  // ----- What may be sent on -----

  datatype SendError = Unfound(error: Storage.StorageError) | NotSendable

  const INTERNAL_KINDS := {"pending", "sent"}

  /** Why a stored secret may not be sent to a human; None if it may. */
  function SendRefusal(view: Manager.Layers, name: string, now: int): Option<SendError> {
    if !Storage.ValidName(name) then Some(Unfound(Storage.InvalidName))
    else
      var found := Manager.Lookup(view, name, now);
      if found == None || found.value.meta.kind in INTERNAL_KINDS then Some(Unfound(Storage.NotFound))
      else if !found.value.meta.sendable then Some(NotSendable)
      else None
  }

  /** A secret that came through a request may be sent on, until its date, exactly if the request said so. */
  lemma SentOnlyIfAsked(a: Surroundings, rec: Pending, waited: Result<StatusReport, Error>, reply: Reply,
      view: Manager.Layers, forms: seq<Redactor.Form>, now: int, later: int)
    requires reply.Payload? || reply.Failed?
    requires Waited(a, rec, waited, reply, view, forms, now).status.StatusStored?
    requires rec.retention == Storage.RETENTION_SESSION || rec.name !in view.session
    ensures
      var r := Waited(a, rec, waited, reply, view, forms, now);
      var date := r.status.meta.expiresAt;
      SendRefusal(r.view, rec.name, later) ==
        if date.Some? && date.value <= later then Some(Unfound(Storage.NotFound))
        else if rec.sendable then None
        else Some(NotSendable)
  {
    hide Receive, Manager.Lookup, Waited, Redactor.Added;
    StatusesExactly(a, rec, waited, reply, view, forms, now);
    StoredAsRequested(a, rec, waited, reply, view, forms, now);
    Manager.LookupExactly(Waited(a, rec, waited, reply, view, forms, now).view, rec.name, later);
  }

  /** A request ends exactly as the relay's two answers, what they open to and the store say. */
  lemma StatusesExactly(a: Surroundings, rec: Pending, waited: Result<StatusReport, Error>, reply: Reply,
      view: Manager.Layers, forms: seq<Redactor.Form>, now: int)
    requires reply.Payload? || reply.Failed?
    ensures
      var r := Waited(a, rec, waited, reply, view, forms, now);
      var uploaded := waited.Success? && waited.value.state == Uploaded;
      && (r.status == StatusWaiting <==> waited.Success? && waited.value.state == Created)
      && (r.status == StatusRevoked <==> waited.Success? && waited.value.state == Revoked)
      && (r.status == StatusExpired <==>
        if waited.Success? then waited.value.state == Expired else waited.error in {ErrNotFound, ErrWrongKind})
      && (r.status == StatusGone <==>
        || (waited.Success? && waited.value.state == Fetched)
        || (uploaded && reply.Failed? && reply.error.ErrState? && reply.error.state != Created))
      && (r.status == StatusRejected
        <==> uploaded && reply.Payload? && Receive(a.ideal, rec, a.describe, reply.ciphertext) == Rejected)
      && (r.status.StatusStored? <==>
        uploaded && reply.Payload?
        && var got := Receive(a.ideal, rec, a.describe, reply.ciphertext);
          got.Accepted? && Storage.ValidName(rec.name) && |got.value| <= 65536
          && Storage.ParseRetention(rec.retention, Manager.Seconds(now), a.stores.date).Success?)
      && (r.forget <==> r.status != StatusWaiting && r.status != StatusFailed)
      && (!r.status.StatusStored? ==> r.view == view && r.forms == forms)
  {
    hide Receive;
  }

  /** What is stored is told as the request asked for it, and goes to the layer its retention names. */
  lemma StoredAsRequested(a: Surroundings, rec: Pending, waited: Result<StatusReport, Error>, reply: Reply,
      view: Manager.Layers, forms: seq<Redactor.Form>, now: int)
    requires reply.Payload? || reply.Failed?
    requires Waited(a, rec, waited, reply, view, forms, now).status.StatusStored?
    ensures reply.Payload? && Receive(a.ideal, rec, a.describe, reply.ciphertext).Accepted?
    ensures
      var r := Waited(a, rec, waited, reply, view, forms, now);
      var m := r.status.meta;
      var value := Text(Receive(a.ideal, rec, a.describe, reply.ciphertext).value);
      var session := rec.retention == "session";
      && AsRequested(a.stores, rec, m) && m.sizeBytes == |value| && m.createdAt == Manager.Seconds(now)
      && r.forms == Redactor.Added(forms, rec.name, value, a.encodings(value))
      && r.view.session == (if session then view.session[rec.name := Manager.Item(value, m)] else view.session)
      && r.view.persistent == if session then view.persistent else view.persistent[rec.name := Manager.Item(value, m)]
  {
    hide Receive, Manager.Stored, Manager.Step, Redactor.Added;
    var op := Manager.OpPut(rec.name, Text(Receive(a.ideal, rec, a.describe, reply.ciphertext).value), Meta(rec), now);
    Manager.PutExactly(a.stores, view, op);
    Manager.StoredExactly(a.stores, op);
    Manager.NoDateWithout();
  }

  /** The metadata of a secret that came through this request. */
  predicate AsRequested(s: Manager.Setup, rec: Pending, m: Storage.Metadata) {
    && m.name == rec.name && m.purpose == rec.purpose && m.retention == rec.retention && m.sendable == rec.sendable
    && m.fingerprint == rec.fingerprint && m.source == "drop" && m.kind == ""
    && m.backend == (if rec.retention == "session" then s.session else s.persistent)
    && m.expiresAt == if Storage.HasPrefix(rec.retention, "until:") then s.date(rec.retention[6..]) else None
  }

  ghost function Only(pending: map<Id, Pending>): Id
    requires |pending| == 1
    ensures Only(pending) in pending
  {
    assert |pending.Keys| == 1;
    var id :| id in pending.Keys;
    id
  }

  lemma OnlyOne(pending: map<Id, Pending>, id: Id)
    requires |pending| == 1 && id in pending
    ensures id == Only(pending)
  {
    assert |pending.Keys| == 1;
    assert |pending.Keys - {id}| == 0;
    assert Only(pending) !in pending.Keys - {id};
  }

  /** The request a fetch is about: the one named, or the only one there is. */
  ghost function Choice(pending: map<Id, Pending>, id: Id): Option<Id> {
    if id != "" then if id in pending then Some(id) else None
    else if |pending| == 1 then Some(Only(pending))
    else None
  }

  /** A named request is that one; without a name it must be the only one. */
  lemma ChoiceExactly(pending: map<Id, Pending>, id: Id, chosen: Id)
    ensures Choice(pending, id) == Some(chosen)
      <==> chosen in pending && if id == "" then pending.Keys == {chosen} else id == chosen
  {
    assert |pending.Keys| == |pending|;
    if id == "" && chosen in pending {
      if |pending| == 1 {
        OnlyOne(pending, chosen);
        assert |pending.Keys - {chosen}| == 0;
      }
    }
  }

  class Agent {
    const around: Surroundings
    const store: Manager.Manager
    const redactor: Redactor.Redactor
    const pageOrigin: string
    const relayOrigin: string
    /** Requests not settled yet, and the revoke tokens of reveals not opened yet. */
    var pending: map<Id, Pending>
    var sent: map<Id, string>

    ghost predicate Valid()
      reads this, redactor, store, store.session, store.persistent, store.index
    {
      && around.ideal.Lawful() && Links.AsciiDates(around.ideal.date)
      && store.Valid() && redactor.Valid() && around.stores == store.Config()
      && forall id :: id in pending ==> pending[id].id == id
    }

    constructor (ideal: Ideal, describe: string -> string, encodings: string -> seq<string>, store: Manager.Manager,
        pageOrigin: string, relayOrigin: string)
      requires ideal.Lawful() && Links.AsciiDates(ideal.date) && store.Valid()
      ensures Valid() && pending == map[] && sent == map[] && this.store == store && fresh(redactor)
        && redactor.forms == []
      ensures around == Surroundings(ideal, describe, encodings, store.Config())
      ensures this.pageOrigin == pageOrigin && this.relayOrigin == relayOrigin
    {
      around := Surroundings(ideal, describe, encodings, store.Config());
      this.store := store;
      redactor := new Redactor.Redactor();
      this.pageOrigin, this.relayOrigin := pageOrigin, relayOrigin;
      pending, sent := map[], map[];
    }

    function Url(rec: Pending): Option<string>
      requires Links.AsciiDates(around.ideal.date)
    {
      Links.BuildDrop(LinkOf(rec, around.describe, RelayOf(relayOrigin, pageOrigin)), pageOrigin, around.ideal.date)
    }

    /**
     * Asks the relay for a slot under the commitment of a fresh key and returns a link for the
     * human. It fails for bad input, if the relay refuses, or if no link can be built, and then
     * the slot is revoked again; otherwise it succeeds and the request is remembered.
     */
    method Request(relay: MemoryStore.Memory, w: Wish, g: Grant, hash: string -> Hash, key: string, now: int,
        expiresAt: int)
      returns (r: Result<string, RequestError>)
      requires Valid() && relay.Valid() && |around.ideal.public(g.priv)| == KEY_SIZE
      requires {this, redactor, store, store.session, store.persistent, store.index} !! relay.Repr
      modifies this`pending, relay.Repr, relay.parked
      ensures Valid() && relay.Valid() && relay.parked == old(relay.parked) && fresh(relay.Repr - old(relay.Repr))
      ensures
        var rec := Record(around.ideal, w, g, store.persistent.title);
        var step := Step(relay.opts, old(relay.slots),
          OpCreate(g.id, RequestedSlot(around.ideal, rec, hash, key, now, expiresAt), now));
        if !GoodWish(w, now, store.date) then
          r == Failure(BadInput) && relay.slots == old(relay.slots) && pending == old(pending)
        else if step.1.Failed? then
          r == Failure(RelayRefused(step.1.error)) && relay.slots == step.0 && pending == old(pending)
        else if Url(rec) == None then
          && r == Failure(NoLink) && pending == old(pending)
          && relay.slots == Step(relay.opts, step.0, OpRevoke(g.id, hash(g.uploadToken), now, now)).0
        else
          && r == Success(Url(rec).value) && relay.slots == step.0
          && pending == old(pending)[g.id := rec] && OwnKey(around.ideal, rec)
      ensures r.Success? ==>
        && g.id in relay.slots && relay.slots[g.id].tokenA == hash(g.uploadToken)
        && relay.slots[g.id].tokenB == hash(g.fetchToken)
        && relay.slots[g.id].commitment == around.ideal.Commitment(around.ideal.public(g.priv))
        && g.id in pending && pending[g.id].fetchToken == g.fetchToken && pending[g.id].uploadToken == g.uploadToken
        && pending[g.id].priv == g.priv && pending[g.id].sendable == w.sendable
    {
      hide MemoryStore.Memory.Valid, FingerprintOf, Storage.ValidName, ValidText, Blank, Manager.Manager.Valid,
        Redactor.Registered, Step,
        Ideal.Lawful, Links.AsciiDates, Links.BuildDrop;
      if !Storage.ValidName(w.name) || !ValidText(w.purpose) || Blank(w.purpose) {
        return Failure(BadInput);
      }
      if Storage.ParseRetention(w.retention, now, store.date).Failure? {
        return Failure(BadInput);
      }
      var rec := Record(around.ideal, w, g, store.persistent.title);
      var slot := RequestedSlot(around.ideal, rec, hash, key, now, expiresAt);
      SlotLaws.CreateExactly(relay.opts, relay.slots, g.id, slot, now);
      var err := relay.Create(g.id, slot, null, now);
      if err.Some? {
        return Failure(RelayRefused(err.value));
      }
      var url := Url(rec);
      if url == None {
        var _ := relay.Revoke(g.id, hash(g.uploadToken), now, now);
        return Failure(NoLink);
      }
      pending := pending[g.id := rec];
      r := Success(url.value);
    }

    /** Turns what the relay answered to a fetch into a stored secret, or says why there is none. */
    method FetchUploaded(rec: Pending, reply: Reply, now: int) returns (status: Status)
      requires Valid() && (reply.Payload? || reply.Failed?)
      modifies this`pending, redactor, store.session, store.persistent, store.index
      ensures Valid()
      ensures
        var r := Answered(around, rec, reply, old(store.View()), old(redactor.forms), now);
        && status == r.status && store.View() == r.view && redactor.forms == r.forms
        && pending == if r.forget then old(pending) - {rec.id} else old(pending)
    {
      hide Ideal.OpenEnvelope, Ideal.Lawful, CheckEnvelope, SecretBytes, Manager.Step, Manager.PutError,
        Manager.Stored, Redactor.Added,
        Redactor.Registered, Manager.Proper, Manager.Known, Links.AsciiDates;
      if reply.Failed? {
        if IsGone(reply.error) {
          pending := pending - {rec.id};
          return StatusGone;
        }
        return StatusFailed;
      }
      var env := around.ideal.OpenEnvelope(rec.priv, reply.ciphertext);
      if env == None {
        pending := pending - {rec.id};
        return StatusRejected;
      }
      if CheckEnvelope(env.value, rec, around.describe).Some? {
        pending := pending - {rec.id};
        return StatusRejected;
      }
      var value := SecretBytes(env.value);
      if value == None {
        return StatusFailed;
      }
      RefusedPut(around.stores, store.View(), Manager.OpPut(rec.name, Text(value.value), Meta(rec), now));
      var meta := store.Put(rec.name, Text(value.value), Meta(rec), now);
      if meta.Failure? {
        return StatusFailed;
      }
      redactor.Add(rec.name, Text(value.value), around.encodings(Text(value.value)));
      pending := pending - {rec.id};
      return StatusStored(meta.value);
    }

    /** Waits for the upload, then fetches; waited is the answer of the long poll, reply that of the fetch. */
    method Fetch(id: Id, waited: Result<StatusReport, Error>, reply: Reply, now: int) returns (status: Status)
      requires Valid() && (reply.Payload? || reply.Failed?)
      modifies this`pending, redactor, store.session, store.persistent, store.index
      ensures Valid()
      ensures
        var chosen := Choice(old(pending), id);
        if chosen == None then
          status == StatusFailed && store.View() == old(store.View()) && redactor.forms == old(redactor.forms)
            && pending == old(pending)
        else
          var r := Waited(around, old(pending)[chosen.value], waited, reply, old(store.View()), old(redactor.forms),
            now);
          && status == r.status && store.View() == r.view && redactor.forms == r.forms
          && pending == if r.forget then old(pending) - {chosen.value} else old(pending)
      ensures status.StatusStored? ==>
        && Choice(old(pending), id).Some?
        && AsRequested(around.stores, old(pending)[Choice(old(pending), id).value], status.meta)
    {
      hide Ideal.Lawful, Redactor.Registered, Manager.Proper, Manager.Known, Answered, AsRequested, Links.AsciiDates;
      var chosen := id;
      if id == "" {
        if |pending| != 1 {
          return StatusFailed;
        }
        assert Only(pending) in pending;
        chosen :| chosen in pending;
        OnlyOne(pending, chosen);
      } else if id !in pending {
        return StatusFailed;
      }
      var rec := pending[chosen];
      if waited.Failure? {
        if waited.error == ErrNotFound || waited.error == ErrWrongKind {
          pending := pending - {rec.id};
          return StatusExpired;
        }
        return StatusFailed;
      }
      var state := waited.value.state;
      if state == Created {
        return StatusWaiting;
      } else if state == Revoked {
        pending := pending - {rec.id};
        return StatusRevoked;
      } else if state == Expired {
        pending := pending - {rec.id};
        return StatusExpired;
      } else if state == Fetched {
        pending := pending - {rec.id};
        return StatusGone;
      } else if state == Uploaded {
        ghost var view, forms := store.View(), redactor.forms;
        status := FetchUploaded(rec, reply, now);
        if status.StatusStored? {
          StoredAsRequested(around, rec, waited, reply, view, forms, now);
        }
      } else {
        return StatusFailed;
      }
    }

    /** Whether a stored secret may be sent to a human, without reading its value. */
    method CanSend(name: string, now: int) returns (refusal: Option<SendError>)
      requires Valid()
      ensures refusal == SendRefusal(store.View(), name, now)
    {
      hide Ideal.Lawful, Redactor.Registered, Links.AsciiDates, Storage.ValidName;
      if !Storage.ValidName(name) {
        return Some(Unfound(Storage.InvalidName));
      }
      var meta := store.Stat(name, now);
      if meta.Failure? {
        return Some(Unfound(meta.error));
      }
      if meta.value.kind in INTERNAL_KINDS {
        return Some(Unfound(Storage.NotFound));
      }
      if !meta.value.sendable {
        return Some(NotSendable);
      }
      return None;
    }

    /**
     * Cancels a request, or a reveal that was sent, and forgets it, unless it is unknown or the
     * relay's answer leaves open what became of it.
     */
    method Revoke(id: Id, reply: Reply) returns (state: Option<State>)
      requires Valid()
      modifies this`pending, this`sent
      ensures Valid()
      ensures state == if id in old(pending) || id in old(sent) then RevokeState(reply) else None
      ensures state.Some? && id in old(pending) ==> id !in pending && sent == old(sent)
      ensures state.Some? && id !in old(pending) ==> id !in sent && pending == old(pending)
      ensures forall k :: k != id ==>
        && (k in pending <==> k in old(pending)) && (k in pending ==> pending[k] == old(pending)[k])
        && (k in sent <==> k in old(sent)) && (k in sent ==> sent[k] == old(sent)[k])
      ensures state == None ==> pending == old(pending) && sent == old(sent)
    {
      hide Ideal.Lawful, Redactor.Registered, Manager.Manager.Valid, Links.AsciiDates;
      if id !in pending {
        if id !in sent {
          return None;
        }
        state := RevokeState(reply);
        if state.Some? {
          sent := sent - {id};
        }
        return;
      }
      state := RevokeState(reply);
      if state == None {
        return;
      }
      pending := pending - {pending[id].id};
    }
  }

  lemma RefusedPut(s: Manager.Setup, v: Manager.Layers, op: Manager.Op)
    requires op.OpPut?
    ensures Manager.PutError(s, op).Some? ==> Manager.Step(s, v, op) == v
  {
  }

  /** A request that got no link left nothing open at the relay, if it had not expired already. */
  lemma NoLinkIsRevoked(o: Options, s: Slots, id: Id, d: Drop, token: Hash, now: int)
    requires Step(o, s, OpCreate(id, d, now)).1 == Done && d.state == Created && d.tokenA == token && now < d.expiresAt
    ensures
      var t := Step(o, Step(o, s, OpCreate(id, d, now)).0, OpRevoke(id, token, now, now));
      t.1 == Done && id in t.0 && t.0[id].state == Revoked
  {
  }
}
