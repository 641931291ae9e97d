/**
 * The relay's handlers around the store calls: the checks of a ciphertext field, the buffers
 * they own and zero, and the response an error becomes. HTTP, JSON bodies, authentication and
 * rate limits are not part of the model; a request arrives as its fields.
 */
module Handlers {
  import opened Prelude
  import opened Slots
  import opened MemoryStore
  import Base64Url
  import Padding
  import SlotLaws

  datatype Response =
    | UploadedOk
    | CreatedOk(expiresAt: int)
    | CiphertextOk(encoded: string, at: int)
    | RevokedOk
    | BadRequest(detail: Detail)
    | TooLarge
    | StoreRefused(code: Code, state: Option<(State, int)>)

  datatype Detail = MalformedToken | MalformedCommitment | NoCiphertext | NotBase64 | TooShort

  datatype Code = NotFound | BadToken | CommitmentMismatch | StoreFull | AlreadyUploaded | NotUploaded | Gone

  datatype Call = CallCreate | CallUpload | CallFetch | CallOpen | CallRevoke

  const TOKEN_BYTES := 16
  const HASH_BYTES := 32

  predicate Encodes(s: string, n: nat) {
    var b := Base64Url.Decode(s);
    b.Success? && |b.value| == n
  }

  /** The response for an error of the store. */
  function StoreError(e: Error, call: Call): (r: Response)
    ensures r.StoreRefused?
  {
    match e
    case ErrNotFound | ErrWrongKind => StoreRefused(NotFound, None)
    case ErrBadToken => StoreRefused(BadToken, None)
    case ErrCommitment => StoreRefused(CommitmentMismatch, None)
    case ErrFull => StoreRefused(StoreFull, None)
    case ErrState(state, at) =>
      StoreRefused(
        if call == CallUpload && state == Uploaded then AlreadyUploaded
        else if call == CallFetch && state == Created then NotUploaded
        else Gone,
        Some((state, at)))
  }

  // ----- Ciphertext fields -----

  function DecodeCiphertext(encoded: string, max: nat, minLen: nat): Result<seq<byte>, Response> {
    if encoded == "" then Failure(BadRequest(NoCiphertext))
    else if |encoded| > max * 4 / 3 + 4 then Failure(TooLarge)
    else
      var ct := Base64Url.Decode(encoded);
      if ct.Failure? then Failure(BadRequest(NotBase64))
      else if |ct.value| > max then Failure(TooLarge)
      else if |ct.value| < minLen then Failure(BadRequest(TooShort))
      else Success(ct.value)
  }

  /**
   * What is accepted is exactly what encodes bytes within the bounds: the first look at the length
   * refuses nothing else.
   */
  lemma AcceptedCiphertexts(encoded: string, max: nat, minLen: nat, ct: seq<byte>)
    requires minLen > 0
    ensures DecodeCiphertext(encoded, max, minLen) == Success(ct)
      <==> encoded == Base64Url.Encode(ct) && minLen <= |ct| <= max
  {
    var r := Base64Url.Decode(encoded);
    if r == Success(ct) {
      Base64Url.EncodeDecode(encoded);
    }
    Base64Url.DecodeEncode(ct);
    if encoded == Base64Url.Encode(ct) && |ct| <= max {
      Padding.EncodedWithinPrefilter(|ct|, max);
      assert |encoded| == Base64Url.EncodedLength(|ct|);
    }
  }

  /** Why a ciphertext field is refused: nothing there, too long, not base64url, too short. */
  lemma RefusedCiphertexts(encoded: string, max: nat, minLen: nat)
    requires minLen > 0
    ensures
      var (r, b) := (DecodeCiphertext(encoded, max, minLen), Base64Url.Decode(encoded));
      && (encoded == "" ==> r == Failure(BadRequest(NoCiphertext)))
      && (b.Success? && encoded != "" ==>
        r == if |b.value| > max then Failure(TooLarge) else if |b.value| < minLen then Failure(BadRequest(TooShort))
          else Success(b.value))
      && (b.Failure? && encoded != "" ==>
        r == if |encoded| > max * 4 / 3 + 4 then Failure(TooLarge) else Failure(BadRequest(NotBase64)))
  {
    var b := Base64Url.Decode(encoded);
    if b.Success? {
      Base64Url.EncodeDecode(encoded);
      assert |encoded| == Base64Url.EncodedLength(|b.value|);
      if |b.value| <= max {
        Padding.EncodedWithinPrefilter(|b.value|, max);
      }
    }
  }

  /** Ids and tokens are 22 characters for 16 bytes, commitments 43 for 32. */
  lemma FieldLengths(s: string)
    ensures Encodes(s, TOKEN_BYTES) <==> |s| == 22 && Base64Url.Decode(s).Success?
    ensures Encodes(s, HASH_BYTES) <==> |s| == 43 && Base64Url.Decode(s).Success?
  {
    if Base64Url.Decode(s).Success? {
      Base64Url.EncodeDecode(s);
      assert |s| == Base64Url.EncodedLength(|Base64Url.Decode(s).value|);
    }
  }

  // ----- Handlers -----

  /** The reply of the upload endpoint to a call of the store. */
  function UploadResponse(r: Reply): Response {
    if r.Failed? then StoreError(r.error, CallUpload) else UploadedOk
  }

  function ReadResponse(r: Reply, call: Call): Response {
    if r.Failed? then StoreError(r.error, call)
    else if r.Payload? then CiphertextOk(Base64Url.Encode(r.ciphertext), r.at)
    else CiphertextOk("", 0)
  }

  /** The response that says a slot is no longer usable: what became of it, and when. */
  function Over(d: Drop, now: int): Response {
    StoreRefused(Gone, Some((if SlotLaws.RunOut(d, now) then Expired else d.state, SlotLaws.EndedAt(d, now))))
  }

  /** What an upload is answered, from the slot's fields. */
  lemma UploadTells(o: Options, s: Slots, id: Id, token: Hash, commitment: string, ct: seq<byte>, now: int, at: int)
    ensures
      UploadResponse(Step(o, s, OpUpload(id, token, commitment, ct, now, at)).1) ==
        if id !in s || s[id].kind == KindReveal then StoreRefused(NotFound, None)
        else if !SlotLaws.Usable(s[id], now) then Over(s[id], now)
        else if token != s[id].tokenA then StoreRefused(BadToken, None)
        else if s[id].state == Uploaded then StoreRefused(AlreadyUploaded, Some((Uploaded, s[id].uploadedAt)))
        else if commitment != s[id].commitment then StoreRefused(CommitmentMismatch, None)
        else if o.maxBytes > 0 && Bytes(s) + |ct| > o.maxBytes then StoreRefused(StoreFull, None)
        else UploadedOk
  {
    hide Step, Bytes;
    SlotLaws.UploadExactly(o, s, id, token, commitment, ct, now, at);
  }

  lemma FetchTells(o: Options, s: Slots, id: Id, token: Hash, now: int, at: int)
    ensures
      ReadResponse(Step(o, s, OpFetch(id, token, now, at)).1, CallFetch) ==
        if id !in s || s[id].kind == KindReveal then StoreRefused(NotFound, None)
        else if !SlotLaws.Usable(s[id], now) then Over(s[id], now)
        else if token != s[id].tokenB then StoreRefused(BadToken, None)
        else if s[id].state == Created then StoreRefused(NotUploaded, Some((Created, s[id].createdAt)))
        else CiphertextOk(Base64Url.Encode(s[id].ciphertext), s[id].uploadedAt)
  {
    hide Step;
    SlotLaws.FetchExactly(o, s, id, token, now, at);
  }

  lemma OpenTells(o: Options, s: Slots, id: Id, token: Hash, now: int, at: int)
    ensures
      ReadResponse(Step(o, s, OpOpen(id, token, now, at)).1, CallOpen) ==
        if id !in s || s[id].kind == KindDrop then StoreRefused(NotFound, None)
        else if !SlotLaws.Usable(s[id], now) then Over(s[id], now)
        else if token != s[id].tokenA then StoreRefused(BadToken, None)
        else CiphertextOk(Base64Url.Encode(s[id].ciphertext), s[id].createdAt)
  {
    hide Step;
    SlotLaws.OpenExactly(o, s, id, token, now, at);
  }

  /** What a revocation is answered and what it leaves; a slot of the other kind is not found, and stays. */
  lemma RevokeTells(o: Options, s: Slots, id: Id, kind: Kind, token: Hash, now: int, at: int)
    ensures
      var (t, response) := RevokeCalls(o, s, id, kind, token, now, at);
      if id !in s || s[id].kind != kind then
        response == StoreRefused(NotFound, None) && t == SlotLaws.Refused(s, id, now)
      else if !SlotLaws.Usable(s[id], now) then response == Over(s[id], now) && t == SlotLaws.Refused(s, id, now)
      else if token != s[id].tokenA && token != s[id].tokenB then response == StoreRefused(BadToken, None) && t == s
      else
        && response == RevokedOk && id in t && t[id].state == State.Revoked && t[id].ciphertext == []
        && t == s[id := t[id]]
  {
    hide Step;
    SlotLaws.StatusExactly(o, s, id, now);
    var seen := Step(o, s, OpStatus(id, now)).0;
    SlotLaws.RevokeExactly(o, seen, id, token, now, at);
  }

  /** The status query of a revocation and then, for a slot of the right kind, the revocation. */
  ghost function RevokeCalls(o: Options, s: Slots, id: Id, kind: Kind, token: Hash, now: int, at: int)
      : (Slots, Response)
  {
    var (seen, answer) := Step(o, s, OpStatus(id, now));
    if answer.Failed? then (seen, StoreError(answer.error, CallRevoke))
    else if answer.Report? && answer.status.kind != kind then (seen, StoreRefused(NotFound, None))
    else
      var (t, reply) := Step(o, seen, OpRevoke(id, token, now, at));
      (t, if reply.Failed? then StoreError(reply.error, CallRevoke) else RevokedOk)
  }

  /** The revoke endpoint of one kind of slot, when nothing comes between its two calls. */
  method Revoke(m: Memory, id: string, kind: Kind, token: string, hash: string -> Hash, now: int, at: int)
    returns (response: Response)
    requires m.Valid()
    modifies m.Repr, m.parked
    ensures m.Valid()
    ensures
      if !Encodes(id, TOKEN_BYTES) || !Encodes(token, TOKEN_BYTES) then response == BadRequest(MalformedToken)
        && m.slots == old(m.slots)
      else (m.slots, response) == RevokeCalls(m.opts, old(m.slots), id, kind, hash(token), now, at)
  {
    hide Step, Memory.Valid, Encodes;
    if !Encodes(id, TOKEN_BYTES) || !Encodes(token, TOKEN_BYTES) {
      return BadRequest(MalformedToken);
    }
    var st := m.Status(id, now);
    if st.Failure? {
      return StoreError(st.error, CallRevoke);
    }
    if st.value.kind != kind {
      return StoreRefused(NotFound, None);
    }
    var err := m.Revoke(id, hash(token), now, at);
    response := if err.Some? then StoreError(err.value, CallRevoke) else RevokedOk;
  }

  /** A new drop takes the upload token for uploads and the fetch token for fetches. */
  method CreateDrop(m: Memory, commitment: string, id: string, uploadToken: string, fetchToken: string, key: string,
      hash: string -> Hash, ghost now: int, createdAt: int, expiresAt: int)
    returns (response: Response)
    requires m.Valid()
    modifies m.Repr
    ensures m.Valid()
    ensures
      if !Encodes(commitment, HASH_BYTES) then response == BadRequest(MalformedCommitment) && m.slots == old(m.slots)
      else if id in old(m.slots) || (m.opts.maxLive > 0 && Live(old(m.slots)) >= m.opts.maxLive)
        || (m.opts.maxBytes > 0 && Bytes(old(m.slots)) > m.opts.maxBytes)
      then response == StoreRefused(StoreFull, None) && m.slots == old(m.slots)
      else
        && response == CreatedOk(expiresAt) && id in m.slots && m.slots == old(m.slots)[id := m.slots[id]]
        && var d := m.slots[id];
        && d.kind == KindDrop && d.state == Created && d.ciphertext == [] && d.commitment == commitment
        && d.tokenA == hash(uploadToken) && d.tokenB == hash(fetchToken)
        && d.createdAt == createdAt && d.expiresAt == expiresAt
  {
    hide Step, Memory.Valid, Encodes, Bytes, Live;
    if !Encodes(commitment, HASH_BYTES) {
      return BadRequest(MalformedCommitment);
    }
    var d := Drop(KindDrop, Created, [], commitment, hash(uploadToken), hash(fetchToken), key, createdAt, expiresAt,
      0, 0, 0);
    SlotLaws.CreateExactly(m.opts, m.slots, id, d, now);
    var err := m.Create(id, d, null, now);
    response := if err.Some? then StoreError(err.value, CallCreate) else CreatedOk(expiresAt);
  }

  /** Zeroing the handler's own buffer after the call changes nothing the store holds. */
  method Upload(m: Memory, max: nat, id: string, token: string, commitment: string, encoded: string,
      hash: string -> Hash, now: int, at: int)
    returns (response: Response)
    requires m.Valid()
    modifies m.Repr, m.parked
    ensures m.Valid()
    ensures
      var ct := DecodeCiphertext(encoded, max, Padding.SEALED_OVERHEAD + Padding.PAD_BLOCK);
      if !Encodes(id, TOKEN_BYTES) || !Encodes(token, TOKEN_BYTES) then response == BadRequest(MalformedToken)
        && m.slots == old(m.slots)
      else if !Encodes(commitment, HASH_BYTES) then response == BadRequest(MalformedCommitment)
        && m.slots == old(m.slots)
      else if ct.Failure? then response == ct.error && m.slots == old(m.slots)
      else
        var step := Step(m.opts, old(m.slots), OpUpload(id, hash(token), commitment, ct.value, now, at));
        m.slots == step.0 && response == UploadResponse(step.1)
  {
    hide Step, Memory.Valid, DecodeCiphertext, Encodes;
    if !Encodes(id, TOKEN_BYTES) || !Encodes(token, TOKEN_BYTES) {
      return BadRequest(MalformedToken);
    }
    if !Encodes(commitment, HASH_BYTES) {
      return BadRequest(MalformedCommitment);
    }
    var decoded := DecodeCiphertext(encoded, max, Padding.SEALED_OVERHEAD + Padding.PAD_BLOCK);
    if decoded.Failure? {
      return decoded.error;
    }
    var ct := Buffer(decoded.value);
    var err := m.Upload(id, hash(token), commitment, ct, now, at);
    Zero(ct);
    response := UploadResponse(Outcome(err));
  }

  method CreateReveal(m: Memory, max: nat, id: string, revealToken: string, revokeToken: string, encoded: string,
      key: string,
      hash: string -> Hash, ghost now: int, createdAt: int, expiresAt: int)
    returns (response: Response)
    requires m.Valid()
    modifies m.Repr
    ensures m.Valid()
    ensures
      var ct := DecodeCiphertext(encoded, max, Padding.AEAD_OVERHEAD + Padding.PAD_BLOCK);
      if ct.Failure? then response == ct.error && m.slots == old(m.slots)
      else
        var d := Drop(KindReveal, Created, ct.value, "", hash(revealToken), hash(revokeToken), key, createdAt,
          expiresAt, 0, 0, 0);
        var step := Step(m.opts, old(m.slots), OpCreate(id, d, now));
        && m.slots == step.0
        && response == if step.1.Failed? then StoreError(step.1.error, CallCreate) else CreatedOk(expiresAt)
  {
    hide Step, Memory.Valid, DecodeCiphertext;
    var decoded := DecodeCiphertext(encoded, max, Padding.AEAD_OVERHEAD + Padding.PAD_BLOCK);
    if decoded.Failure? {
      return decoded.error;
    }
    var ct := Buffer(decoded.value);
    var d := Drop(KindReveal, Created, decoded.value, "", hash(revealToken), hash(revokeToken), key, createdAt,
      expiresAt, 0, 0, 0);
    var err := m.Create(id, d, ct, now);
    Zero(ct);
    response := if err.Some? then StoreError(err.value, CallCreate) else CreatedOk(expiresAt);
  }

  /** The buffer a fetch returns is the handler's alone: it is encoded, then zeroed, and the store stays as it is. */
  method Fetch(m: Memory, id: string, token: string, hash: string -> Hash, now: int, at: int)
      returns (response: Response)
    requires m.Valid()
    modifies m.Repr, m.parked
    ensures m.Valid()
    ensures
      if !Encodes(id, TOKEN_BYTES) || !Encodes(token, TOKEN_BYTES) then response == BadRequest(MalformedToken)
        && m.slots == old(m.slots)
      else
        var step := Step(m.opts, old(m.slots), OpFetch(id, hash(token), now, at));
        m.slots == step.0 && response == ReadResponse(step.1, CallFetch)
  {
    hide Step, Memory.Valid, Encodes;
    if !Encodes(id, TOKEN_BYTES) || !Encodes(token, TOKEN_BYTES) {
      return BadRequest(MalformedToken);
    }
    var ct, uploadedAt, err := m.Fetch(id, hash(token), now, at);
    response := Deliver(ct, uploadedAt, err, CallFetch);
  }

  method Open(m: Memory, id: string, token: string, hash: string -> Hash, now: int, at: int)
      returns (response: Response)
    requires m.Valid()
    modifies m.Repr, m.parked
    ensures m.Valid()
    ensures
      if !Encodes(id, TOKEN_BYTES) || !Encodes(token, TOKEN_BYTES) then response == BadRequest(MalformedToken)
        && m.slots == old(m.slots)
      else
        var step := Step(m.opts, old(m.slots), OpOpen(id, hash(token), now, at));
        m.slots == step.0 && response == ReadResponse(step.1, CallOpen)
  {
    hide Step, Memory.Valid, Encodes;
    if !Encodes(id, TOKEN_BYTES) || !Encodes(token, TOKEN_BYTES) {
      return BadRequest(MalformedToken);
    }
    var ct, createdAt, err := m.Open(id, hash(token), now, at);
    response := Deliver(ct, createdAt, err, CallOpen);
  }

  /** Writes the response first and zeroes the buffer afterwards. */
  method Deliver(ct: array?<byte>, at: int, err: Option<Error>, call: Call) returns (response: Response)
    modifies ct
    ensures response == ReadResponse(Delivery(old(Contents(ct)), at, err), call)
    ensures err == None && ct != null ==> forall i :: 0 <= i < ct.Length ==> ct[i] == 0
  {
    if err.Some? {
      return StoreError(err.value, call);
    }
    response := CiphertextOk(Base64Url.Encode(if ct == null then [] else ct[..]), at);
    Zero(ct);
  }
}
