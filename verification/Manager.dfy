/**
 * The storage manager: session secrets in process memory over one persistent backend, with a
 * local index of what the backend holds. Every backend call succeeds; the clock reading of a
 * call is its argument, in milliseconds. The persistent backend is any store that keeps what
 * it is given, and is modelled by the memory backend under its own name.
 */
module Manager {
  import opened Prelude
  import opened Storage
  import Names

  datatype Item = Item(value: string, meta: Metadata)

  const SOURCE_DROP := "drop"

  /** A backend that holds its records in a map. */
  class Store {
    const title: string
    var entries: map<string, Item>

    ghost predicate Valid()
      reads this
    {
      Proper(entries)
    }

    constructor (title: string)
      ensures Valid() && this.title == title && entries == map[]
    {
      this.title := title;
      entries := map[];
    }

    method Put(name: string, value: string, meta: Metadata) returns (err: Option<StorageError>)
      requires Valid()
      modifies this
      ensures Valid()
      ensures err == (if !ValidName(name) then Some(InvalidName) else if |value| > MAX_VALUE_BYTES then Some(TooLarge)
        else None)
      ensures entries ==
        if err == None then old(entries)[name :=
          Item(value, meta.(name := name, backend := title, sizeBytes := |value|))]
        else old(entries)
    {
      if !ValidName(name) {
        return Some(InvalidName);
      }
      if |value| > MAX_VALUE_BYTES {
        return Some(TooLarge);
      }
      entries := entries[name := Item(value, meta.(name := name, backend := title, sizeBytes := |value|))];
      return None;
    }

    method Get(name: string) returns (r: Result<Item, StorageError>)
      ensures r == (
        if !ValidName(name) then Failure(InvalidName)
        else if name in entries then Success(entries[name]) else Failure(NotFound))
    {
      if !ValidName(name) {
        return Failure(InvalidName);
      }
      if name !in entries {
        return Failure(NotFound);
      }
      return Success(entries[name]);
    }

    method Delete(name: string) returns (err: Option<StorageError>)
      requires Valid()
      modifies this
      ensures Valid() && entries == old(entries) - (if ValidName(name) then {name} else {})
      ensures err == (
        if !ValidName(name) then Some(InvalidName)
        else if name in old(entries) then None else Some(NotFound))
    {
      if !ValidName(name) {
        return Some(InvalidName);
      }
      if name !in entries {
        return Some(NotFound);
      }
      entries := entries - {name};
      return None;
    }

    method List() returns (list: seq<Metadata>)
      requires Valid()
      ensures list == Metas(Known(entries))
    {
      var known := Known(entries);
      list := ByName(known);
    }
  }

  /** The local list of names and metadata. */
  class Index {
    var entries: map<string, Metadata>

    constructor ()
      ensures entries == map[]
    {
      entries := map[];
    }

    method Put(meta: Metadata)
      modifies this
      ensures entries == old(entries)[meta.name := meta]
    {
      entries := entries[meta.name := meta];
    }

    method Get(name: string) returns (r: Result<Metadata, StorageError>)
      ensures r == if name in entries then Success(entries[name]) else Failure(NotFound)
    {
      if name !in entries {
        return Failure(NotFound);
      }
      return Success(entries[name]);
    }

    method Delete(name: string)
      modifies this
      ensures entries == old(entries) - {name}
    {
      entries := entries - {name};
    }

    method List() returns (list: seq<Metadata>)
      ensures list == Metas(entries)
    {
      list := ByName(entries);
    }
  }

  /** The metadata of a store, as an index should have it. */
  function Known(entries: map<string, Item>): map<string, Metadata> {
    map n | n in entries :: entries[n].meta
  }

  lemma KnownPut(entries: map<string, Item>, name: string, item: Item)
    ensures Known(entries[name := item]) == Known(entries)[name := item.meta]
  {
  }

  ghost function Metas(known: map<string, Metadata>): seq<Metadata> {
    var names := Names.Sorted(known.Keys);
    seq(|names|, i requires 0 <= i < |names| => if names[i] in known then known[names[i]] else NoMetadata())
  }

  function NoMetadata(): Metadata {
    Metadata("", "", "", 0, None, "", "", false, "", 0, "")
  }

  lemma MetasAt(known: map<string, Metadata>, i: nat)
    requires i < |Names.Sorted(known.Keys)|
    ensures Names.Sorted(known.Keys)[i] in known && Metas(known)[i] == known[Names.Sorted(known.Keys)[i]]
  {
    Names.SortedNames(known.Keys);
    assert Names.Sorted(known.Keys)[i] in Names.Elements(Names.Sorted(known.Keys));
  }

  lemma MetasHas(known: map<string, Metadata>, name: string)
    requires name in known
    ensures known[name] in Metas(known)
  {
    Names.SortedNames(known.Keys);
    var names := Names.Sorted(known.Keys);
    assert name in Names.Elements(names);
    var i :| 0 <= i < |names| && names[i] == name;
    assert Metas(known)[i] == known[name];
  }

  lemma MetaListed(known: map<string, Metadata>, m: Metadata)
    requires m in Metas(known)
    ensures exists n :: n in known && known[n] == m
  {
    var i :| 0 <= i < |Metas(known)| && Metas(known)[i] == m;
    MetasAt(known, i);
  }

  method ByName(known: map<string, Metadata>) returns (list: seq<Metadata>)
    ensures list == Metas(known)
  {
    var names := Names.Sort(known.Keys);
    list := [];
    for i := 0 to |names|
      invariant list == Metas(known)[..i]
    {
      MetasAt(known, i);
      list := list + [known[names[i]]];
    }
  }

  // ----- The two layers -----

  datatype Layers = Layers(session: map<string, Item>, persistent: map<string, Item>)

  /** What a lookup finds: the session entry if there is one, else the persistent one, unless expired. */
  function Lookup(v: Layers, name: string, now: int): Option<Item> {
    if name in v.session then if v.session[name].meta.Expired(now) then None else Some(v.session[name])
    else if name in v.persistent && !v.persistent[name].meta.Expired(now) then Some(v.persistent[name])
    else None
  }

  function Seconds(now: int): int {
    now - now % 1000
  }

  /** The metadata a Put stores under, apart from the backend's name. */
  function Filled(name: string, value: string, meta: Metadata, now: int, expires: Option<int>): Metadata {
    meta.(name := name, createdAt := Seconds(now), expiresAt := expires, sizeBytes := |value|,
          source := if meta.source == "" then SOURCE_DROP else meta.source)
  }

  datatype Op =
    | OpPut(name: string, value: string, meta: Metadata, now: int)
    | OpGet(name: string, now: int)
    | OpDelete(name: string, now: int)
    | OpPurge(now: int)

  /** How a manager is set up: how it reads dates and what its backends are called. */
  datatype Setup = Setup(date: string -> Option<int>, session: string, persistent: string)

  function PutError(s: Setup, op: Op): Option<StorageError>
    requires op.OpPut?
  {
    if !ValidName(op.name) then Some(InvalidName)
    else if |op.value| > MAX_VALUE_BYTES then Some(TooLarge)
    else
      var r := ParseRetention(op.meta.retention, Seconds(op.now), s.date);
      if r.Failure? then Some(r.error) else None
  }

  /** The item an accepted Put stores. */
  function Stored(s: Setup, op: Op): Item
    requires op.OpPut? && PutError(s, op) == None
  {
    var expires := ParseRetention(op.meta.retention, Seconds(op.now), s.date).value;
    var backend := if op.meta.retention == RETENTION_SESSION then s.session else s.persistent;
    Item(op.value, Filled(op.name, op.value, op.meta, op.now, expires).(backend := backend))
  }

  function Unexpired(entries: map<string, Item>, now: int): map<string, Item> {
    map n | n in entries && !entries[n].meta.Expired(now) :: entries[n]
  }

  /** A lookup deletes the entry it finds expired; it looks no further than the session's. */
  function LookedUp(v: Layers, name: string, now: int): Layers {
    if !ValidName(name) then v
    else if name in v.session then
      if v.session[name].meta.Expired(now) then v.(session := v.session - {name}) else v
    else if name in v.persistent && v.persistent[name].meta.Expired(now) then v.(persistent := v.persistent - {name})
    else v
  }

  function Step(s: Setup, v: Layers, op: Op): Layers {
    match op
    case OpPut(name, _, meta, _) =>
      if PutError(s, op).Some? then v
      else if meta.retention == RETENTION_SESSION then Layers(v.session[name := Stored(s, op)], v.persistent)
      else Layers(v.session, v.persistent[name := Stored(s, op)])
    case OpGet(name, now) => LookedUp(v, name, now)
    case OpDelete(name, _) => if ValidName(name) then Layers(v.session - {name}, v.persistent - {name}) else v
    case OpPurge(now) => Layers(Unexpired(v.session, now), Unexpired(v.persistent, now))
  }

  // ----- What a call stores and finds, field by field -----

  /** Whether an entry's date has come. */
  predicate Over(m: Metadata, now: int) {
    m.expiresAt.Some? && m.expiresAt.value <= now
  }

  /** A put is refused for a bad name, a large value, an unknown policy and a date that has come, in this order. */
  lemma PutErrorExactly(s: Setup, op: Op)
    requires op.OpPut?
    ensures
      var policy := op.meta.retention;
      PutError(s, op) ==
        if !ValidName(op.name) then Some(InvalidName)
        else if |op.value| > 65536 then Some(TooLarge)
        else if policy == "session" || policy == "until-revoked" then None
        else if HasPrefix(policy, "until:") && s.date(policy[6..]).Some?
          && s.date(policy[6..]).value > op.now - op.now % 1000 then None
        else Some(BadRetention)
  {
  }

  /**
   * What an accepted put stores: the value, and the caller's metadata with the name, the backend,
   * the time in whole seconds, the expiry its retention implies and the size filled in.
   */
  lemma StoredExactly(s: Setup, op: Op)
    requires op.OpPut? && PutError(s, op) == None
    ensures
      var (m, policy) := (Stored(s, op).meta, op.meta.retention);
      && Stored(s, op).value == op.value
      && m.name == op.name && m.sizeBytes == |op.value| && m.retention == policy
      && m.backend == (if policy == "session" then s.session else s.persistent)
      && m.createdAt <= op.now < m.createdAt + 1000 && m.createdAt % 1000 == 0
      && m.expiresAt == (if policy == "session" || policy == "until-revoked" then None else s.date(policy[6..]))
      && m.purpose == op.meta.purpose && m.sendable == op.meta.sendable && m.fingerprint == op.meta.fingerprint
      && m.kind == op.meta.kind && m.source == (if op.meta.source == "" then "drop" else op.meta.source)
  {
  }

  lemma StoredDate(s: Setup, op: Op)
    requires op.OpPut?
    ensures PutError(s, op) == None ==>
      Stored(s, op).meta.expiresAt == if HasPrefix(op.meta.retention, "until:") then s.date(op.meta.retention[6..])
        else None
  {
    NoDateWithout();
  }

  lemma NoDateWithout()
    ensures !HasPrefix("session", "until:") && !HasPrefix("until-revoked", "until:")
  {
    assert "session"[0] == 's';
    assert "until-revoked"[5] == '-' && "until:"[5] == ':';
    assert "until-revoked"[..6][5] == '-';
  }

  /** What a put changes: one layer, at one name. */
  lemma PutExactly(s: Setup, v: Layers, op: Op)
    requires op.OpPut?
    ensures
      Step(s, v, op) ==
        if PutError(s, op).Some? then v
        else if op.meta.retention == "session" then v.(session := v.session[op.name := Stored(s, op)])
        else v.(persistent := v.persistent[op.name := Stored(s, op)])
  {
  }

  /** A lookup finds the session's entry if there is one, else the persistent one, if its date has not come. */
  lemma LookupExactly(v: Layers, name: string, now: int)
    ensures
      var layer := if name in v.session then v.session else v.persistent;
      Lookup(v, name, now) == if name in layer && !Over(layer[name].meta, now) then Some(layer[name]) else None
  {
  }

  /** Looking up an entry whose date has come deletes it from the layer it was found in, and does nothing else. */
  lemma GetExactly(s: Setup, v: Layers, name: string, now: int)
    ensures
      Step(s, v, OpGet(name, now)) ==
        if ValidName(name) && name in v.session && Over(v.session[name].meta, now) then
          v.(session := v.session - {name})
        else if ValidName(name) && name !in v.session && name in v.persistent && Over(v.persistent[name].meta, now)
          then v.(persistent := v.persistent - {name})
        else v
  {
  }

  lemma DeleteExactly(s: Setup, v: Layers, name: string, now: int)
    requires ValidName(name)
    ensures
      var t := Step(s, v, OpDelete(name, now));
      && name !in t.session && name !in t.persistent
      && t.session == v.session - {name} && t.persistent == v.persistent - {name}
  {
  }

  /** A purge leaves exactly the entries whose date has not come, as they were. */
  lemma PurgeExactly(s: Setup, v: Layers, now: int)
    ensures
      var t := Step(s, v, OpPurge(now));
      && (forall n :: n in t.session <==> n in v.session && !Over(v.session[n].meta, now))
      && (forall n :: n in t.persistent <==> n in v.persistent && !Over(v.persistent[n].meta, now))
      && (forall n :: n in t.session ==> t.session[n] == v.session[n])
      && (forall n :: n in t.persistent ==> t.persistent[n] == v.persistent[n])
  {
  }

  class Manager {
    const session: Store
    const persistent: Store
    const index: Index
    const date: string -> Option<int>

    /** Index and backend hold the same names with the same metadata. */
    ghost predicate Valid()
      reads this, session, persistent, index
    {
      && session != persistent
      && session.Valid() && persistent.Valid()
      && index.entries == Known(persistent.entries)
    }

    function View(): Layers
      reads session, persistent
    {
      Layers(session.entries, persistent.entries)
    }

    function Config(): Setup {
      Setup(date, session.title, persistent.title)
    }

    constructor (persistent: Store, date: string -> Option<int>)
      requires persistent.Valid() && persistent.entries == map[]
      ensures Valid() && fresh(session) && fresh(index) && this.persistent == persistent && this.date == date
      ensures View() == Layers(map[], map[])
    {
      session := new Store("memory");
      index := new Index();
      this.persistent := persistent;
      this.date := date;
    }

    method Put(name: string, value: string, meta: Metadata, now: int) returns (r: Result<Metadata, StorageError>)
      requires Valid()
      modifies session, persistent, index
      ensures Valid()
      ensures
        var op := OpPut(name, value, meta, now);
        && View() == Step(Config(), old(View()), op)
        && r == if PutError(Config(), op).Some? then Failure(PutError(Config(), op).value)
          else Success(Stored(Config(), op).meta)
      ensures r.Success? ==>
        r.value.expiresAt == if HasPrefix(meta.retention, "until:") then date(meta.retention[6..]) else None
    {
      hide ValidName, Metadata.Expired, ParseRetention, HasPrefix, Known;
      StoredDate(Config(), OpPut(name, value, meta, now));
      if !ValidName(name) {
        return Failure(InvalidName);
      }
      if |value| > MAX_VALUE_BYTES {
        return Failure(TooLarge);
      }
      var expires := ParseRetention(meta.retention, Seconds(now), date);
      if expires.Failure? {
        return Failure(expires.error);
      }
      var full := Filled(name, value, meta, now, expires.value);
      if meta.retention == RETENTION_SESSION {
        full := full.(backend := session.title);
        var _ := session.Put(name, value, full);
        return Success(full);
      }
      full := full.(backend := persistent.title);
      KnownPut(persistent.entries, name, Item(value, full));
      var _ := persistent.Put(name, value, full);
      index.Put(full);
      return Success(full);
    }

    method Get(name: string, now: int) returns (r: Result<Item, StorageError>)
      requires Valid()
      modifies session, persistent, index
      ensures Valid() && View() == Step(Config(), old(View()), OpGet(name, now))
      ensures r == (
        if !ValidName(name) then Failure(InvalidName)
        else if Lookup(old(View()), name, now).Some? then Success(Lookup(old(View()), name, now).value)
        else Failure(NotFound))
    {
      hide ValidName, Metadata.Expired;
      if !ValidName(name) {
        return Failure(InvalidName);
      }
      var s := session.Get(name);
      if s.Success? {
        if s.value.meta.Expired(now) {
          var _ := session.Delete(name);
          return Failure(NotFound);
        }
        return s;
      }
      var p := persistent.Get(name);
      if p.Failure? {
        if p.error == NotFound {
          index.Delete(name);
        }
        return p;
      }
      if p.value.meta.Expired(now) {
        var _ := persistent.Delete(name);
        index.Delete(name);
        return Failure(NotFound);
      }
      return p;
    }

    method FindSession(name: string) returns (r: Option<Metadata>)
      requires Valid()
      ensures r == if name in session.entries then Some(session.entries[name].meta) else None
    {
      hide Names.Sorted, Metas;
      ghost var known := Known(session.entries);
      var list := session.List();
      for i := 0 to |list|
        invariant forall k :: 0 <= k < i ==> list[k].name != name
      {
        if list[i].name == name {
          MetaListed(known, list[i]);
          return Some(list[i]);
        }
      }
      if name in session.entries {
        MetasHas(known, name);
      }
      return None;
    }

    /** Finds what Get finds, without changing anything. */
    method Stat(name: string, now: int) returns (r: Result<Metadata, StorageError>)
      requires Valid()
      ensures r == (
        if !ValidName(name) then Failure(InvalidName)
        else if Lookup(View(), name, now).Some? then Success(Lookup(View(), name, now).value.meta)
        else Failure(NotFound))
    {
      if !ValidName(name) {
        return Failure(InvalidName);
      }
      var s := FindSession(name);
      if s.Some? {
        if s.value.Expired(now) {
          return Failure(NotFound);
        }
        return Success(s.value);
      }
      var meta := index.Get(name);
      if meta.Failure? {
        return meta;
      }
      if meta.value.Expired(now) {
        return Failure(NotFound);
      }
      return meta;
    }

    method Delete(name: string, ghost now: int) returns (err: Option<StorageError>)
      requires Valid()
      modifies session, persistent, index
      ensures Valid() && View() == Step(Config(), old(View()), OpDelete(name, now))
      ensures err == (
        if !ValidName(name) then Some(InvalidName)
        else if name in old(View()).session || name in old(View()).persistent then None
        else Some(NotFound))
    {
      hide ValidName, Metadata.Expired;
      if !ValidName(name) {
        return Some(InvalidName);
      }
      var s := session.Delete(name);
      var p := persistent.Delete(name);
      index.Delete(name);
      if s == None || p == None {
        return None;
      }
      if p == Some(NotFound) {
        return Some(NotFound);
      }
      return p;
    }

    method PurgeSession(now: int) returns (count: nat)
      requires Valid()
      modifies session
      ensures Valid() && session.entries == Unexpired(old(session.entries), now)
      ensures count == |Overdue(Known(old(session.entries)), now)|
    {
      hide Names.Sorted, Metas, Known, Unexpired, ValidName, OverdueIn, Overdue, Step;
      ghost var was := session.entries;
      var list := session.List();
      ProperNames(was);
      NoneOverdue(list, now);
      assert was - {} == was;
      MetasDistinct(Known(was));
      count := 0;
      ghost var gone := {};
      for i := 0 to |list|
        invariant Valid() && gone == OverdueIn(list[..i], now) && count == |gone|
        invariant session.entries == was - gone
      {
        ListedName(was, list[i]);
        OneMoreOverdue(list, i, now);
        if list[i].Expired(now) {
          var err := session.Delete(list[i].name);
          if err == None {
            count := count + 1;
          }
          assert was - gone - {list[i].name} == was - (gone + {list[i].name});
          gone := gone + {list[i].name};
        }
      }
      assert list[..|list|] == list;
      AllOverdue(was, now);
    }

    method PurgeIndexed(now: int) returns (count: nat)
      requires Valid()
      modifies persistent, index
      ensures Valid() && persistent.entries == Unexpired(old(persistent.entries), now)
      ensures count == |Overdue(Known(old(persistent.entries)), now)|
    {
      hide Names.Sorted, Metas, Known, Unexpired, ValidName, OverdueIn, Overdue, Step;
      ghost var was := persistent.entries;
      var list := index.List();
      ProperNames(was);
      NoneOverdue(list, now);
      assert was - {} == was;
      MetasDistinct(Known(was));
      count := 0;
      ghost var gone := {};
      for i := 0 to |list|
        invariant Valid() && gone == OverdueIn(list[..i], now) && count == |gone|
        invariant persistent.entries == was - gone
      {
        ListedName(was, list[i]);
        OneMoreOverdue(list, i, now);
        if list[i].Expired(now) {
          KnownWithout(persistent.entries, list[i].name);
          var _ := persistent.Delete(list[i].name);
          index.Delete(list[i].name);
          count := count + 1;
          assert was - gone - {list[i].name} == was - (gone + {list[i].name});
          gone := gone + {list[i].name};
        }
      }
      assert list[..|list|] == list;
      AllOverdue(was, now);
    }

    /** Deletes every entry whose time has passed, and says how many there were. */
    method PurgeExpired(now: int) returns (count: nat)
      requires Valid()
      modifies session, persistent, index
      ensures Valid() && View() == Step(Config(), old(View()), OpPurge(now))
      ensures count == |Overdue(Known(old(View()).session), now)| + |Overdue(Known(old(View()).persistent), now)|
    {
      hide Names.Sorted, Metas, Unexpired, Overdue, Proper;
      var n := PurgeSession(now);
      var m := PurgeIndexed(now);
      return n + m;
    }

    /** Everything a lookup finds, each name once, in order. */
    method List(now: int) returns (list: seq<Metadata>)
      requires Valid()
      modifies session, persistent, index
      ensures Valid() && View() == Step(Config(), old(View()), OpPurge(now))
      ensures list == Metas(Found(View(), now))
    {
      hide Names.Sorted, Metas, Unexpired, Lookup, ByTheirNames, Proper;
      var _ := PurgeExpired(now);
      var s := session.List();
      var p := index.List();
      var out := Merge(s, p);
      ProperNames(session.entries);
      ProperNames(persistent.entries);
      AllByName(Known(session.entries));
      AllByName(Known(persistent.entries));
      NothingExpired(old(View()), View(), now);
      list := ByName(out);
    }
  }

  /** Session entries first, then the others whose name has not been seen. */
  method Merge(s: seq<Metadata>, p: seq<Metadata>) returns (out: map<string, Metadata>)
    ensures out == ByTheirNames(p) + ByTheirNames(s)
  {
    var seen := map[];
    for i := 0 to |s|
      invariant seen == ByTheirNames(s[..i])
    {
      assert s[..i + 1][..i] == s[..i];
      seen := seen[s[i].name := s[i]];
    }
    assert s[..|s|] == s;
    out := seen;
    for i := 0 to |p|
      invariant out == ByTheirNames(p[..i]) + seen
    {
      assert p[..i + 1][..i] == p[..i];
      if p[i].name !in seen {
        out := out[p[i].name := p[i]];
      }
    }
    assert p[..|p|] == p;
  }

  lemma NothingExpired(was: Layers, v: Layers, now: int)
    requires v == Layers(Unexpired(was.session, now), Unexpired(was.persistent, now))
    ensures Known(v.persistent) + Known(v.session) == Found(v, now)
  {
  }

  /** The metadata of every name a lookup finds. */
  function Found(v: Layers, now: int): map<string, Metadata> {
    map n | n in v.session.Keys + v.persistent.Keys && Lookup(v, n, now).Some? :: Lookup(v, n, now).value.meta
  }

  function Overdue(known: map<string, Metadata>, now: int): set<string> {
    set n | n in known && known[n].Expired(now)
  }

  ghost function OverdueIn(list: seq<Metadata>, now: int): set<string> {
    set i | 0 <= i < |list| && list[i].Expired(now) :: list[i].name
  }

  ghost predicate OwnNames(known: map<string, Metadata>) {
    forall n :: n in known ==> known[n].name == n
  }

  lemma MetasDistinct(known: map<string, Metadata>)
    requires OwnNames(known)
    ensures forall i, j :: 0 <= i < j < |Metas(known)| ==> Metas(known)[i].name != Metas(known)[j].name
  {
    Names.SortedNames(known.Keys);
    forall i, j | 0 <= i < j < |Metas(known)|
      ensures Metas(known)[i].name != Metas(known)[j].name
    {
      MetasAt(known, i);
      MetasAt(known, j);
      Names.LessTotal(Metas(known)[i].name, Metas(known)[j].name);
    }
  }

  lemma OneMoreOverdue(list: seq<Metadata>, i: nat, now: int)
    requires i < |list| && forall i, j :: 0 <= i < j < |list| ==> list[i].name != list[j].name
    ensures OverdueIn(list[..i + 1], now) == OverdueIn(list[..i], now)
      + (if list[i].Expired(now) then {list[i].name} else {})
    ensures list[i].name !in OverdueIn(list[..i], now)
  {
    assert forall k :: 0 <= k < i ==> list[..i + 1][k] == list[..i][k] == list[k];
    assert list[..i + 1][i] == list[i];
  }

  ghost predicate Proper(entries: map<string, Item>) {
    forall n :: n in entries ==> ValidName(n) && entries[n].meta.name == n
  }

  lemma ProperNames(entries: map<string, Item>)
    requires Proper(entries)
    ensures OwnNames(Known(entries))
  {
  }

  lemma NoneOverdue(list: seq<Metadata>, now: int)
    ensures OverdueIn(list[..0], now) == {}
  {
  }

  lemma ListedName(entries: map<string, Item>, m: Metadata)
    requires Proper(entries) && m in Metas(Known(entries))
    ensures m.name in entries && ValidName(m.name) && entries[m.name].meta == m
  {
    MetaListed(Known(entries), m);
  }

  lemma KnownWithout(entries: map<string, Item>, name: string)
    ensures Known(entries - {name}) == Known(entries) - {name}
  {
  }

  lemma AllOverdue(entries: map<string, Item>, now: int)
    requires OwnNames(Known(entries))
    ensures OverdueIn(Metas(Known(entries)), now) == Overdue(Known(entries), now)
    ensures entries - OverdueIn(Metas(Known(entries)), now) == Unexpired(entries, now)
  {
    var known := Known(entries);
    var list := Metas(known);
    forall n | n in Overdue(known, now)
      ensures n in OverdueIn(list, now)
    {
      MetasHas(known, n);
      var i :| 0 <= i < |list| && list[i] == known[n];
    }
    forall n | n in OverdueIn(list, now)
      ensures n in Overdue(known, now)
    {
      var i :| 0 <= i < |list| && list[i].Expired(now) && list[i].name == n;
      MetaListed(known, list[i]);
    }
  }

  function ByTheirNames(list: seq<Metadata>): map<string, Metadata> {
    if list == [] then map[] else ByTheirNames(list[..|list| - 1])[list[|list| - 1].name := list[|list| - 1]]
  }

  lemma {:induction false} NamesIn(list: seq<Metadata>)
    ensures forall n :: n in ByTheirNames(list) ==> ByTheirNames(list)[n] in list && ByTheirNames(list)[n].name == n
    ensures forall m :: m in list ==> m.name in ByTheirNames(list)
  {
    if list != [] {
      NamesIn(list[..|list| - 1]);
      assert list == list[..|list| - 1] + [list[|list| - 1]];
    }
  }

  lemma AllByName(known: map<string, Metadata>)
    requires OwnNames(known)
    ensures ByTheirNames(Metas(known)) == known
  {
    var list := Metas(known);
    NamesIn(list);
    forall n | n in known
      ensures n in ByTheirNames(list)
    {
      MetasHas(known, n);
    }
    forall n | n in ByTheirNames(list)
      ensures n in known && known[n] == ByTheirNames(list)[n]
    {
      MetaListed(known, ByTheirNames(list)[n]);
    }
  }

  // ----- Histories -----

  ghost function After(s: Setup, ops: seq<Op>): Layers {
    if ops == [] then Layers(map[], map[]) else Step(s, After(s, ops[..|ops| - 1]), ops[|ops| - 1])
  }

  ghost predicate Ticking(ops: seq<Op>) {
    forall i, j :: 0 <= i <= j < |ops| ==> ops[i].now <= ops[j].now
  }

  predicate Puts(s: Setup, op: Op, name: string) {
    op.OpPut? && op.name == name && PutError(s, op) == None
  }

  predicate Deletes(op: Op, name: string) {
    op.OpDelete? && op.name == name && ValidName(name)
  }

  /** The latest accepted Put of a name, into the session or not, since it was last deleted. */
  ghost function Latest(s: Setup, ops: seq<Op>, name: string, session: bool): Option<Item> {
    if ops == [] then None
    else
      var op := ops[|ops| - 1];
      if Deletes(op, name) then None
      else if Puts(s, op, name) && (op.meta.retention == RETENTION_SESSION) == session then Some(Stored(s, op))
      else Latest(s, ops[..|ops| - 1], name, session)
  }

  function At(entries: map<string, Item>, name: string): Option<Item> {
    if name in entries then Some(entries[name]) else None
  }

  /** A session entry never expires: what is there is the latest one put. */
  lemma {:induction false} SessionHistory(s: Setup, ops: seq<Op>, name: string)
    ensures At(After(s, ops).session, name) == Latest(s, ops, name, true)
    ensures name in After(s, ops).session ==> After(s, ops).session[name].meta.expiresAt == None
  {
    if ops != [] {
      SessionHistory(s, ops[..|ops| - 1], name);
    }
  }

  /** A persistent entry that is no longer there, though it was put last, has expired. */
  lemma {:induction false} PersistentHistory(s: Setup, ops: seq<Op>, name: string, now: int)
    requires Ticking(ops) && (ops != [] ==> ops[|ops| - 1].now <= now)
    ensures
      var (here, last) := (At(After(s, ops).persistent, name), Latest(s, ops, name, false));
      here == last || (here == None && last.Some? && last.value.meta.Expired(now))
  {
    if ops != [] {
      var front := ops[..|ops| - 1];
      assert Ticking(front);
      assert front != [] ==> front[|front| - 1].now <= ops[|ops| - 1].now;
      PersistentHistory(s, front, name, ops[|ops| - 1].now);
    }
  }

  /** What a lookup finds after any history: the latest session Put if any, else the latest other one unless expired. */
  lemma LookupHistory(s: Setup, ops: seq<Op>, name: string, now: int)
    requires Ticking(ops) && (ops != [] ==> ops[|ops| - 1].now <= now)
    ensures
      var (mine, kept) := (Latest(s, ops, name, true), Latest(s, ops, name, false));
      Lookup(After(s, ops), name, now) ==
        if mine.Some? then mine
        else if kept.Some? && !kept.value.meta.Expired(now) then kept
        else None
  {
    SessionHistory(s, ops, name);
    PersistentHistory(s, ops, name, now);
  }

  /** A session entry goes on shadowing whatever is put persistently after it. */
  lemma SessionShadowsLaterPut(s: Setup, ops: seq<Op>, op: Op, name: string, now: int)
    requires Ticking(ops + [op]) && op.now <= now
    requires Puts(s, op, name) && op.meta.retention != RETENTION_SESSION && Latest(s, ops, name, true).Some?
    ensures Lookup(After(s, ops + [op]), name, now) == Latest(s, ops, name, true)
    ensures Lookup(After(s, ops + [op]), name, now) != Some(Stored(s, op)) || s.session == s.persistent
  {
    assert (ops + [op])[..|ops|] == ops;
    LookupHistory(s, ops + [op], name, now);
    SessionBackend(s, ops, name);
  }

  lemma {:induction false} SessionBackend(s: Setup, ops: seq<Op>, name: string)
    requires Latest(s, ops, name, true).Some?
    ensures Latest(s, ops, name, true).value.meta.backend == s.session
  {
    if !(Puts(s, ops[|ops| - 1], name) && ops[|ops| - 1].meta.retention == RETENTION_SESSION) {
      SessionBackend(s, ops[..|ops| - 1], name);
    }
  }

  lemma {:induction false} LatestKept(s: Setup, ops: seq<Op>, later: seq<Op>, name: string, session: bool)
    requires forall op :: op in later ==> !Puts(s, op, name) && !Deletes(op, name)
    ensures Latest(s, ops + later, name, session) == Latest(s, ops, name, session)
  {
    if later == [] {
      assert ops + later == ops;
    } else {
      var front := later[..|later| - 1];
      assert (ops + later)[..|ops + later| - 1] == ops + front;
      LatestKept(s, ops, front, name, session);
    }
  }

  /**
   * A secret kept until a date is found up to that date and never from then on; one kept until
   * revoked is found for good. Nothing else may put or delete the name, and no session entry shadow it.
   */
  lemma KeptUntilItsDate(s: Setup, ops: seq<Op>, op: Op, later: seq<Op>, name: string, now: int)
    requires Ticking(ops + [op] + later) && (ops + [op] + later)[|ops + [op] + later| - 1].now <= now
    requires Puts(s, op, name) && op.meta.retention != "session" && Latest(s, ops, name, true) == None
    requires forall op :: op in later ==> !Puts(s, op, name) && !Deletes(op, name)
    ensures
      var date := if op.meta.retention == "until-revoked" then None else s.date(op.meta.retention[6..]);
      Lookup(After(s, ops + [op] + later), name, now) == if date.Some? && date.value <= now then None
        else Some(Stored(s, op))
    ensures Stored(s, op).value == op.value
  {
    hide PutError, Stored, Lookup, After;
    LookupHistory(s, ops + [op] + later, name, now);
    LatestKept(s, ops + [op], later, name, true);
    LatestKept(s, ops + [op], later, name, false);
    assert (ops + [op])[..|ops|] == ops;
    PutIsNone(s, op, name);
    StoredExactly(s, op);
  }

  lemma PutIsNone(s: Setup, op: Op, name: string)
    requires Puts(s, op, name)
    ensures op.OpPut? && op.name == name && PutError(s, op) == None
    ensures !Deletes(op, name)
  {
  }
}
