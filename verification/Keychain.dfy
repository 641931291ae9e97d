/**
 * Records in the operating system's credential store, which holds one string per user name and
 * caps its length: a longer record is split over numbered entries behind a header that counts
 * them. The JSON of a record is a codec with its law. Calls on the credential store succeed,
 * except that a missing entry is reported as such.
 */
module Keychain {
  import opened Prelude
  import opened Storage

  // ----- Decimal numbers -----

  function DigitChar(d: nat): char
    requires d < 10
  {
    '0' + d as char
  }

  function Itoa(n: nat): (s: string)
    ensures s != "" && forall k :: 0 <= k < |s| ==> '0' <= s[k] <= '9'
  {
    if n < 10 then [DigitChar(n)] else Itoa(n / 10) + [DigitChar(n % 10)]
  }

  function Value(s: string): nat
    requires forall k :: 0 <= k < |s| ==> '0' <= s[k] <= '9'
  {
    if s == "" then 0 else Value(s[..|s| - 1]) * 10 + (s[|s| - 1] - '0') as nat
  }

  const MAX_INT := 0x7FFF_FFFF_FFFF_FFFF

  /** Reads a signed 64-bit decimal number. */
  function Atoi(s: string): Option<int> {
    var negative := s != "" && s[0] == '-';
    var digits := if s != "" && (s[0] == '-' || s[0] == '+') then s[1..] else s;
    if digits == "" || exists k :: 0 <= k < |digits| && !('0' <= digits[k] <= '9') then None
    else
      var n: int := Value(digits);
      if n <= (if negative then MAX_INT + 1 else MAX_INT) then Some(if negative then -n else n) else None
  }

  lemma {:induction false} ValueItoa(n: nat)
    ensures Value(Itoa(n)) == n
  {
    if n >= 10 {
      ValueItoa(n / 10);
      assert Itoa(n)[..|Itoa(n)| - 1] == Itoa(n / 10);
    }
  }

  lemma AtoiItoa(n: nat)
    ensures Atoi(Itoa(n)) == if n <= MAX_INT then Some(n as int) else None
  {
    ValueItoa(n);
    assert '0' <= Itoa(n)[0] <= '9';
  }

  lemma ItoaInjective(m: nat, n: nat)
    requires Itoa(m) == Itoa(n)
    ensures m == n
  {
    ValueItoa(m);
    ValueItoa(n);
  }

  // ----- Keys -----

  function ChunkUser(name: string, i: nat): string {
    name + "#" + Itoa(i)
  }

  /** Number i of a name's entries is called so. */
  lemma ChunkUserLooks(name: string)
    ensures ChunkUser(name, 0) == name + "#0" && ChunkUser(name, 9) == name + "#9"
    ensures ChunkUser(name, 10) == name + "#10" && ChunkUser(name, 999) == name + "#999"
  {
    assert Itoa(0) == "0" && Itoa(9) == "9" && Itoa(10) == "10";
    assert Itoa(99) == "99" && Itoa(999) == "999";
  }

  predicate NoHash(name: string) {
    forall k :: 0 <= k < |name| ==> name[k] != '#'
  }

  lemma ChunkUserHasHash(name: string, i: nat)
    ensures !NoHash(ChunkUser(name, i))
  {
    assert ChunkUser(name, i)[|name|] == '#';
  }

  /** A chunk key tells whose chunk it is, and which. */
  lemma ChunkUserInjective(a: string, i: nat, b: string, j: nat)
    requires NoHash(a) && NoHash(b) && ChunkUser(a, i) == ChunkUser(b, j)
    ensures a == b && i == j
  {
    var s := ChunkUser(a, i);
    assert s[|a|] == '#' && s[|b|] == '#';
    assert forall k :: 0 <= k < |a| ==> s[k] == a[k];
    assert forall k :: 0 <= k < |b| ==> s[k] == b[k];
    assert |a| == |b|;
    assert a == s[..|a|] == b;
    assert s[|a| + 1..] == Itoa(i) && s[|b| + 1..] == Itoa(j);
    ItoaInjective(i, j);
  }

  // ----- Chunks -----

  /** The pieces of a record: all of the size but the last. */
  function Chunks(rec: string, size: nat): (chunks: seq<string>)
    requires size > 0
    ensures chunks != []
    decreases |rec|
  {
    if |rec| <= size then [rec] else [rec[..size]] + Chunks(rec[size..], size)
  }

  function Concat(parts: seq<string>): string {
    if parts == [] then "" else parts[0] + Concat(parts[1..])
  }

  lemma {:induction false} ConcatChunks(rec: string, size: nat)
    requires size > 0
    ensures Concat(Chunks(rec, size)) == rec
    decreases |rec|
  {
    if |rec| <= size {
      assert Concat([]) == "";
    } else {
      ConcatChunks(rec[size..], size);
      assert Chunks(rec, size)[1..] == Chunks(rec[size..], size);
    }
  }

  lemma {:induction false} ConcatSnoc(parts: seq<string>, p: string)
    ensures Concat(parts + [p]) == Concat(parts) + p
  {
    if parts == [] {
      assert [] + [p] == [p];
      assert [p][1..] == [];
    } else {
      assert (parts + [p])[1..] == parts[1..] + [p];
      ConcatSnoc(parts[1..], p);
    }
  }

  lemma DivNext(x: nat, size: nat)
    requires size > 0
    ensures (x + size) / size == x / size + 1
  {
    var q, r := x / size, x % size;
    assert x + size == (q + 1) * size + r;
    DivUnique(x + size, size, q + 1, r);
  }

  lemma DivUnique(x: nat, size: nat, q: nat, r: nat)
    requires size > 0 && x == q * size + r && r < size
    ensures x / size == q
  {
    var d := x / size;
    assert x == d * size + x % size;
    if d < q {
      assert (d + 1) * size <= q * size by { Multiply(d + 1, q, size); }
    } else if d > q {
      assert (q + 1) * size <= d * size by { Multiply(q + 1, d, size); }
    }
  }

  lemma Multiply(a: nat, b: nat, size: nat)
    requires a <= b
    ensures a * size <= b * size
  {
  }

  /** How many pieces there are. */
  lemma {:induction false} ChunkCount(rec: string, size: nat)
    requires size > 0 && rec != ""
    ensures |Chunks(rec, size)| == (|rec| + size - 1) / size
    decreases |rec|
  {
    if |rec| <= size {
      DivUnique(|rec| + size - 1, size, 1, |rec| - 1);
    } else {
      ChunkCount(rec[size..], size);
      DivNext(|rec| - 1, size);
    }
  }

  /** Where each piece is in the record. */
  lemma {:induction false} ChunkAt(rec: string, size: nat, i: nat)
    requires size > 0 && i < |Chunks(rec, size)|
    ensures 0 <= i * size <= |rec|
    ensures Chunks(rec, size)[i] == rec[i * size..if (i + 1) * size < |rec| then (i + 1) * size else |rec|]
    decreases |rec|
  {
    if i == 0 {
      assert 0 * size == 0;
    } else {
      var rest := rec[size..];
      ChunkAt(rest, size, i - 1);
      assert (i - 1) * size + size == i * size && i * size + size == (i + 1) * size;
    }
  }

  /** No piece is longer than the size, and all but the last are as long. */
  lemma ChunksFit(rec: string, size: nat, i: nat)
    requires size > 0 && i < |Chunks(rec, size)|
    ensures |Chunks(rec, size)[i]| <= size
    ensures i + 1 < |Chunks(rec, size)| ==> |Chunks(rec, size)[i]| == size
  {
    ChunkAt(rec, size, i);
    assert (i + 1) * size == i * size + size;
    if i + 1 < |Chunks(rec, size)| {
      ChunkAt(rec, size, i + 1);
    }
  }

  // ----- What the store holds for a name -----

  type Entries = map<string, string>

  const HEADER := "burndrop-chunks:"
  const MAX_CHUNKS := 1000

  /** JSON of a record. */
  datatype Codec = Codec(encode: (Metadata, string) -> string, decode: string -> Option<(string, Metadata)>) {
    ghost predicate Lawful() {
      && (forall m: Metadata, v: string :: encode(m, v) != "" && encode(m, v)[0] == '{')
      && (forall m: Metadata, v: string :: IsBytes(v) ==> decode(encode(m, v)) == Some((v, m.Sanitized())))
    }
  }

  /** The number a header gives. */
  function Counted(s: string): Option<int> {
    if HasPrefix(s, HEADER) then Atoi(s[|HEADER|..]) else None
  }

  /** Exactly the first n chunks of a name are there. */
  ghost predicate HasChunks(e: Entries, name: string, n: nat) {
    forall i: nat :: ChunkUser(name, i) in e <==> i < n
  }

  /** The chunks there are for a name are those its header counts; without one there are none. */
  ghost predicate Tidy(e: Entries, name: string) {
    var n := if name in e then Counted(e[name]) else None;
    HasChunks(e, name, if n.Some? && 0 < n.value <= MAX_CHUNKS then n.value else 0)
  }

  /** Whether a key belongs to a name. */
  ghost predicate Owned(name: string, key: string) {
    key == name || exists i: nat :: key == ChunkUser(name, i)
  }

  /** Nothing changed but entries of one name. */
  ghost predicate OthersSame(was: Entries, e: Entries, name: string) {
    forall key :: !Owned(name, key) ==> (key in was <==> key in e) && (key in was ==> e[key] == was[key])
  }

  lemma NotOwned(name: string, other: string, i: nat)
    requires NoHash(name) && NoHash(other) && name != other
    ensures !Owned(name, other) && !Owned(name, ChunkUser(other, i))
  {
    ChunkUserHasHash(other, i);
    forall j: nat
      ensures other != ChunkUser(name, j) && ChunkUser(other, i) != ChunkUser(name, j)
    {
      ChunkUserHasHash(name, j);
      if ChunkUser(other, i) == ChunkUser(name, j) {
        ChunkUserInjective(other, i, name, j);
      }
    }
  }

  /** Other names are as tidy as they were, and read the same. */
  lemma OtherNames(c: Codec, was: Entries, e: Entries, name: string, other: string)
    requires NoHash(name) && NoHash(other) && name != other && OthersSame(was, e, name)
    ensures Tidy(was, other) <==> Tidy(e, other)
    ensures ReadBack(c, was, other) == ReadBack(c, e, other)
  {
    NotOwned(name, other, 0);
    forall i: nat
      ensures ChunkUser(other, i) in was <==> ChunkUser(other, i) in e
      ensures ChunkUser(other, i) in was ==> e[ChunkUser(other, i)] == was[ChunkUser(other, i)]
    {
      NotOwned(name, other, i);
    }
    var n := if other in e then Counted(e[other]) else None;
    if n.Some? && 0 < n.value <= MAX_CHUNKS {
      PartsSame(was, e, other, n.value);
    }
  }

  /** The first n chunks of a name put together, if they are all there. */
  function Parts(e: Entries, name: string, n: nat): Option<string> {
    if n == 0 then Some("")
    else
      var front := Parts(e, name, n - 1);
      if front == None || ChunkUser(name, n - 1) !in e then None
      else Some(front.value + e[ChunkUser(name, n - 1)])
  }

  lemma {:induction false} PartsSame(was: Entries, e: Entries, name: string, n: nat)
    requires forall i: nat :: i < n ==> (ChunkUser(name, i) in was <==> ChunkUser(name, i) in e)
    requires forall i: nat :: i < n && ChunkUser(name, i) in was ==> e[ChunkUser(name, i)] == was[ChunkUser(name, i)]
    ensures Parts(was, name, n) == Parts(e, name, n)
  {
    if n > 0 {
      PartsSame(was, e, name, n - 1);
    }
  }

  /** What a lookup reads. */
  function ReadBack(c: Codec, e: Entries, name: string): Result<(string, Metadata), StorageError> {
    if name !in e then Failure(NotFound)
    else
      var s := e[name];
      if HasPrefix(s, HEADER) then
        var n := Counted(s);
        if n == None || n.value <= 0 || n.value > MAX_CHUNKS then Failure(Corrupt)
        else
          var all := Parts(e, name, n.value);
          if all == None then Failure(Corrupt) else Decoded(c, all.value)
      else Decoded(c, s)
  }

  function Decoded(c: Codec, s: string): Result<(string, Metadata), StorageError> {
    var r := c.decode(s);
    if r == None then Failure(Corrupt) else Success(r.value)
  }

  lemma {:induction false} PartsExactly(e: Entries, name: string, n: nat)
    ensures Parts(e, name, n).Some? <==> forall i: nat :: i < n ==> ChunkUser(name, i) in e
  {
    hide ChunkUser;
    if n > 0 {
      PartsExactly(e, name, n - 1);
    }
  }

  /**
   * What stands under a name is read as a record, or as the count of its pieces, from 1 to a thousand
   * and all there.
   */
  lemma ReadExactly(c: Codec, e: Entries, name: string)
    ensures
      var r := ReadBack(c, e, name);
      if name !in e then r == Failure(NotFound)
      else
        var s := e[name];
        if |s| < 16 || s[..16] != "burndrop-chunks:" then
          r == if c.decode(s).Some? then Success(c.decode(s).value) else Failure(Corrupt)
        else
          var n := Atoi(s[16..]);
          if n.Some? && 1 <= n.value <= 1000 && forall i: nat :: i < n.value ==> ChunkUser(name, i) in e then
            && Parts(e, name, n.value).Some?
            && var rec := Parts(e, name, n.value).value;
            r == if c.decode(rec).Some? then Success(c.decode(rec).value) else Failure(Corrupt)
          else r == Failure(Corrupt)
  {
    hide ChunkUser, Atoi, Parts;
    if name in e && HasPrefix(e[name], HEADER) {
      var n := Atoi(e[name][16..]);
      if n.Some? && n.value >= 0 {
        PartsExactly(e, name, n.value);
      }
    }
  }

  lemma {:induction false} PartsMissing(e: Entries, name: string, i: nat, n: nat)
    requires i <= n && Parts(e, name, i) == None
    ensures Parts(e, name, n) == None
  {
    if i < n {
      PartsMissing(e, name, i, n - 1);
    }
  }

  ghost function Keys(name: string, n: nat): set<string> {
    set i: nat | i < n :: ChunkUser(name, i)
  }

  lemma KeysNext(name: string, n: nat)
    ensures Keys(name, n + 1) == Keys(name, n) + {ChunkUser(name, n)} && Keys(name, 0) == {}
  {
  }

  lemma KeysHold(name: string, n: nat)
    requires NoHash(name)
    ensures forall i: nat :: ChunkUser(name, i) in Keys(name, n) <==> i < n
    ensures name !in Keys(name, n) && forall key :: key in Keys(name, n) ==> Owned(name, key)
  {
    forall i: nat | ChunkUser(name, i) in Keys(name, n)
      ensures i < n
    {
      var j: nat :| j < n && ChunkUser(name, i) == ChunkUser(name, j);
      ChunkUserInjective(name, i, name, j);
    }
    forall i: nat
      ensures name != ChunkUser(name, i)
    {
      ChunkUserHasHash(name, i);
    }
  }

  /** Of contiguous chunks, deletion up to the first gap or a thousand leaves those past a thousand. */
  lemma LeftOver(was: Entries, name: string, m: nat, k: nat)
    requires NoHash(name) && HasChunks(was, name, k) && m <= MAX_CHUNKS
      && (m < MAX_CHUNKS ==> ChunkUser(name, m) !in was)
    requires forall i: nat :: i < m ==> ChunkUser(name, i) in was
    ensures forall i: nat :: ChunkUser(name, i) in was - Keys(name, m) <==> MAX_CHUNKS <= i < k
  {
    KeysHold(name, m);
    assert m > k ==> ChunkUser(name, k) in was;
    assert m < MAX_CHUNKS ==> m == k;
    assert m == MAX_CHUNKS ==> k >= m by {
      assert m == MAX_CHUNKS ==> ChunkUser(name, MAX_CHUNKS - 1) in was;
    }
  }

  /** A record can be read back exactly if it is no longer than a thousand pieces. */
  lemma FitsInPieces(rec: string, size: nat)
    requires size > 0 && rec != ""
    ensures |Chunks(rec, size)| <= MAX_CHUNKS <==> |rec| <= MAX_CHUNKS * size
  {
    ChunkCount(rec, size);
    var n := (|rec| + size - 1) / size;
    DivBounds(|rec| + size - 1, size);
    if n <= MAX_CHUNKS {
      Multiply(n, MAX_CHUNKS, size);
    } else {
      Multiply(MAX_CHUNKS + 1, n, size);
      assert (MAX_CHUNKS + 1) * size == MAX_CHUNKS * size + size;
    }
  }

  lemma DivBounds(x: nat, size: nat)
    requires size > 0
    ensures x / size * size <= x < x / size * size + size
  {
  }

  lemma HeaderCounts(n: nat)
    ensures HasPrefix(HEADER + Itoa(n), HEADER)
    ensures Counted(HEADER + Itoa(n)) == if n <= MAX_INT then Some(n as int) else None
  {
    assert (HEADER + Itoa(n))[|HEADER|..] == Itoa(n);
    AtoiItoa(n);
  }

  lemma RecordIsNoHeader(s: string)
    requires s != "" && s[0] == '{'
    ensures !HasPrefix(s, HEADER)
  {
    if HasPrefix(s, HEADER) {
      PrefixFirst(s, HEADER);
      assert false;
    }
  }

  lemma WholeReadsBack(c: Codec, e: Entries, name: string)
    requires name in e && !HasPrefix(e[name], HEADER)
    ensures ReadBack(c, e, name) == Decoded(c, e[name])
  {
  }

  /** How a record that is split is read back. */
  lemma SplitReadsBack(c: Codec, e: Entries, name: string, rec: string, size: nat)
    requires size > 0
    requires var n := |Chunks(rec, size)|; name in e && e[name] == HEADER + Itoa(n) && Parts(e, name, n) == Some(rec)
    ensures ReadBack(c, e, name) == if |Chunks(rec, size)| <= MAX_CHUNKS then Decoded(c, rec) else Failure(Corrupt)
  {
    HeaderCounts(|Chunks(rec, size)|);
  }

  lemma PutPart(e: Entries, name: string, i: nat, p: string)
    requires NoHash(name)
    ensures
      var f := e[ChunkUser(name, i) := p];
      && Parts(f, name, i) == Parts(e, name, i)
      && (Parts(e, name, i).Some? ==> Parts(f, name, i + 1) == Some(Parts(e, name, i).value + p))
      && (forall j: nat :: ChunkUser(name, j) in f <==> j == i || ChunkUser(name, j) in e)
      && (name in f <==> name in e)
      && OthersSame(e, f, name)
  {
    ChunkUserHasHash(name, i);
    var f := e[ChunkUser(name, i) := p];
    forall j: nat | j != i
      ensures ChunkUser(name, j) != ChunkUser(name, i)
    {
      if ChunkUser(name, j) == ChunkUser(name, i) {
        ChunkUserInjective(name, j, name, i);
      }
    }
    PartsSame(e, f, name, i);
  }

  lemma PutName(e: Entries, name: string, s: string, n: nat)
    requires NoHash(name)
    ensures
      var f := e[name := s];
      && Parts(f, name, n) == Parts(e, name, n) && OthersSame(e, f, name)
      && (forall j: nat :: ChunkUser(name, j) in f <==> ChunkUser(name, j) in e)
  {
    forall j: nat
      ensures ChunkUser(name, j) != name
    {
      ChunkUserHasHash(name, j);
    }
    PartsSame(e, e[name := s], name, n);
  }

  lemma ValidNameNoHash(name: string)
    requires ValidName(name)
    ensures NoHash(name)
  {
    ValidNameIsText(name);
  }

  class Keychain {
    const codec: Codec
    const chunkSize: nat
    var entries: Entries

    ghost predicate Valid() {
      codec.Lawful() && chunkSize > 0
    }

    constructor (codec: Codec, windows: bool)
      requires codec.Lawful()
      ensures Valid() && entries == map[] && this.codec == codec
      ensures chunkSize == if windows then 2000 else 1_048_576
    {
      this.codec := codec;
      chunkSize := if windows then 2000 else 0x10_0000;
      entries := map[];
    }

    /** Deletes numbered entries up to the first gap, which is at m. */
    method DeleteChunks(name: string) returns (ghost m: nat)
      requires NoHash(name)
      modifies this
      ensures m <= MAX_CHUNKS && (m < MAX_CHUNKS ==> ChunkUser(name, m) !in old(entries))
      ensures forall i: nat :: i < m ==> ChunkUser(name, i) in old(entries)
      ensures entries == old(entries) - Keys(name, m)
    {
      hide ChunkUser;
      m := 0;
      KeysHold(name, MAX_CHUNKS);
      KeysNext(name, 0);
      for i := 0 to MAX_CHUNKS
        invariant m == i && entries == old(entries) - Keys(name, i)
        invariant forall k: nat :: k < i ==> ChunkUser(name, k) in old(entries)
      {
        KeysHold(name, i);
        if ChunkUser(name, i) !in entries {
          return;
        }
        KeysNext(name, i);
        entries := entries - {ChunkUser(name, i)};
        m := m + 1;
      }
    }

    /** Writes the pieces of a record. */
    method PutChunks(name: string, rec: string)
      requires NoHash(name) && chunkSize > 0 && rec != "" && |rec| > chunkSize
      modifies this
      ensures OthersSame(old(entries), entries, name)
      ensures Parts(entries, name, |Chunks(rec, chunkSize)|) == Some(rec)
      ensures forall i: nat ::
        ChunkUser(name, i) in entries <==> i < |Chunks(rec, chunkSize)| || ChunkUser(name, i) in old(entries)
      ensures Laid(entries, name, Chunks(rec, chunkSize))
    {
      hide ChunkUser, Chunks, Owned, Laid;
      ChunkCount(rec, chunkSize);
      NothingLaid(entries, name);
      var n := (|rec| + chunkSize - 1) / chunkSize;
      ghost var chunks := Chunks(rec, chunkSize);
      assert chunks[..0] == [];
      for i := 0 to n
        invariant OthersSame(old(entries), entries, name)
        invariant Parts(entries, name, i) == Some(Concat(chunks[..i]))
        invariant forall j: nat :: ChunkUser(name, j) in entries <==> j < i || ChunkUser(name, j) in old(entries)
        invariant Laid(entries, name, chunks[..i])
      {
        ChunkAt(rec, chunkSize, i);
        var start := i * chunkSize;
        var end := if (i + 1) * chunkSize < |rec| then (i + 1) * chunkSize else |rec|;
        assert start <= end by { Multiply(i, i + 1, chunkSize); }
        assert chunks[..i + 1] == chunks[..i] + [chunks[i]];
        ConcatSnoc(chunks[..i], chunks[i]);
        PutPart(entries, name, i, rec[start..end]);
        LaidNext(entries, name, chunks[..i], rec[start..end]);
        entries := entries[ChunkUser(name, i) := rec[start..end]];
      }
      assert chunks[..n] == chunks;
      ConcatChunks(rec, chunkSize);
    }

    /**
     * Stores a record. It can be read back exactly if it takes no more than a thousand pieces.
     * Then, if the name's chunks were contiguous from 0, whatever its header said, no stale one
     * is left exactly if there were no more than a thousand of them either.
     */
    method Put(name: string, value: string, meta: Metadata) returns (err: Option<StorageError>)
      requires Valid() && IsBytes(value)
      modifies this
      ensures err == (if !ValidName(name) then Some(InvalidName) else if |value| > MAX_VALUE_BYTES then Some(TooLarge)
        else None)
      ensures err.Some? ==> entries == old(entries)
      ensures err == None ==> OthersSame(old(entries), entries, name)
      ensures err == None ==>
        var m := meta.(name := name, backend := "keychain", sizeBytes := |value|);
        var fits := |Chunks(codec.encode(m, value), chunkSize)| <= MAX_CHUNKS;
        && (fits ==> ReadBack(codec, entries, name) == Success((value, m.Sanitized())))
        && (!fits ==> ReadBack(codec, entries, name) == Failure(Corrupt))
        && (forall k: nat :: fits && HasChunks(old(entries), name, k) ==> (Tidy(entries, name) <==> k <= MAX_CHUNKS))
        && Written(entries, name, codec.encode(m, value), chunkSize)
    {
      hide ChunkUser, Chunks, OthersSame, Owned, Parts, ValidName, Metadata.Sanitized, Codec.Lawful, ReadBack, Tidy,
        HasChunks, Cleared, Laid;
      if !ValidName(name) {
        return Some(InvalidName);
      }
      if |value| > MAX_VALUE_BYTES {
        return Some(TooLarge);
      }
      ValidNameNoHash(name);
      var m := meta.(name := name, backend := "keychain", sizeBytes := |value|);
      var rec := codec.encode(m, value);
      RecordDecodes(codec, meta, name, value);
      err := None;
      ghost var was := entries;
      ghost var gap := DeleteChunks(name);
      LeftOvers(was, name, gap);
      DeletedChunks(was, name, gap);
      ghost var bare := entries;
      if |rec| <= chunkSize {
        OneChunk(rec, chunkSize);
        PutName(entries, name, rec, 0);
        entries := entries[name := rec];
        WholeReadsBack(codec, entries, name);
        WholeTidy(was, bare, entries, name, rec);
      } else {
        PutChunks(name, rec);
        ghost var n := |Chunks(rec, chunkSize)|;
        PutName(entries, name, HEADER + Itoa((|rec| + chunkSize - 1) / chunkSize), n);
        ChunkCount(rec, chunkSize);
        OthersSameTrans(bare, entries, entries[name := HEADER + Itoa(n)], name);
        LaidBesideName(entries, name, Chunks(rec, chunkSize), HEADER + Itoa(n));
        entries := entries[name := HEADER + Itoa((|rec| + chunkSize - 1) / chunkSize)];
        SplitReadsBack(codec, entries, name, rec, chunkSize);
        SplitTidy(was, bare, entries, name, n);
      }
      OthersSameTrans(was, bare, entries, name);
    }

    method Get(name: string) returns (r: Result<(string, Metadata), StorageError>)
      ensures r == if ValidName(name) then ReadBack(codec, entries, name) else Failure(InvalidName)
    {
      hide ChunkUser, ValidName, Atoi;
      if !ValidName(name) {
        return Failure(InvalidName);
      }
      if name !in entries {
        return Failure(NotFound);
      }
      var s := entries[name];
      if HasPrefix(s, HEADER) {
        var n := Atoi(s[|HEADER|..]);
        if n == None || n.value <= 0 || n.value > MAX_CHUNKS {
          return Failure(Corrupt);
        }
        var all := "";
        for i := 0 to n.value
          invariant Parts(entries, name, i) == Some(all)
        {
          if ChunkUser(name, i) !in entries {
            PartsMissing(entries, name, i + 1, n.value);
            return Failure(Corrupt);
          }
          all := all + entries[ChunkUser(name, i)];
        }
        s := all;
      }
      var d := codec.decode(s);
      if d == None {
        return Failure(Corrupt);
      }
      return Success(d.value);
    }

    /**
     * Deletes a record. If the name's chunks were contiguous from 0, nothing of it is left
     * exactly if there were none, or a header and at most a thousand.
     */
    method Delete(name: string) returns (err: Option<StorageError>)
      modifies this
      ensures err == (if !ValidName(name) then Some(InvalidName) else if name in old(entries) then None
        else Some(NotFound))
      ensures err.Some? ==> entries == old(entries)
      ensures err == None ==> OthersSame(old(entries), entries, name) && name !in entries
      ensures err == None ==>
        forall k: nat :: HasChunks(old(entries), name, k) ==>
          ((forall key :: key in entries ==> !Owned(name, key))
            <==> k == 0 || (k <= MAX_CHUNKS && HasPrefix(old(entries)[name], HEADER)))
    {
      hide ChunkUser, ValidName;
      if !ValidName(name) {
        return Some(InvalidName);
      }
      ValidNameNoHash(name);
      if name !in entries {
        return Some(NotFound);
      }
      ghost var was := entries;
      ghost var gap := 0;
      KeysNext(name, 0);
      if HasPrefix(entries[name], HEADER) {
        gap := DeleteChunks(name);
      }
      KeysHold(name, gap);
      ghost var bare := entries;
      entries := entries - {name};
      forall k: nat | HasChunks(was, name, k)
        ensures (forall key :: key in entries ==> !Owned(name, key))
          <==> k == 0 || (k <= MAX_CHUNKS && HasPrefix(was[name], HEADER))
      {
        if HasPrefix(was[name], HEADER) {
          LeftOver(was, name, gap, k);
        }
        OwnedLeft(bare, name, k, HasPrefix(was[name], HEADER));
      }
      return None;
    }
  }

  /** What is left of a name when its own entry goes too. */
  lemma OwnedLeft(bare: Entries, name: string, k: nat, deleted: bool)
    requires NoHash(name)
    requires forall i: nat :: ChunkUser(name, i) in bare <==> i < k && (deleted ==> MAX_CHUNKS <= i)
    ensures (forall key :: key in bare - {name} ==> !Owned(name, key)) <==> k == 0 || (k <= MAX_CHUNKS && deleted)
  {
    ChunkUserHasHash(name, 0);
    ChunkUserHasHash(name, MAX_CHUNKS);
    if k > 0 && (k > MAX_CHUNKS || !deleted) {
      var i := if deleted then MAX_CHUNKS else 0;
      assert ChunkUser(name, i) in bare - {name} && Owned(name, ChunkUser(name, i));
    }
  }

  lemma RecordDecodes(c: Codec, meta: Metadata, name: string, value: string)
    requires c.Lawful() && IsBytes(value) && ValidName(name)
    ensures
      var m := meta.(name := name, backend := "keychain", sizeBytes := |value|);
      && Decoded(c, c.encode(m, value)) == Success((value, m.Sanitized()))
      && c.encode(m, value) != "" && !HasPrefix(c.encode(m, value), HEADER)
  {
    var m := meta.(name := name, backend := "keychain", sizeBytes := |value|);
    RecordIsNoHeader(c.encode(m, value));
  }

  /** The pieces stand under their numbers. */
  ghost predicate Laid(e: Entries, name: string, chunks: seq<string>) {
    forall i :: 0 <= i < |chunks| ==> ChunkUser(name, i) in e && e[ChunkUser(name, i)] == chunks[i]
  }

  lemma LaidNext(e: Entries, name: string, chunks: seq<string>, p: string)
    requires NoHash(name) && Laid(e, name, chunks)
    ensures Laid(e[ChunkUser(name, |chunks|) := p], name, chunks + [p])
  {
    hide ChunkUser;
    forall i | 0 <= i < |chunks|
      ensures ChunkUser(name, i) != ChunkUser(name, |chunks|)
    {
      if ChunkUser(name, i) == ChunkUser(name, |chunks|) {
        ChunkUserInjective(name, i, name, |chunks|);
      }
    }
  }

  lemma NothingLaid(e: Entries, name: string)
    ensures Laid(e, name, [])
  {
  }

  lemma LaidBesideName(e: Entries, name: string, chunks: seq<string>, s: string)
    requires NoHash(name) && Laid(e, name, chunks)
    ensures Laid(e[name := s], name, chunks)
  {
    hide ChunkUser;
    forall i | 0 <= i < |chunks|
      ensures ChunkUser(name, i) != name
    {
      ChunkUserHasHash(name, i);
    }
  }

  /** What stands under the name itself and its numbers: the record, or how many pieces and the pieces. */
  ghost predicate Written(e: Entries, name: string, rec: string, size: nat)
    requires size > 0
  {
    name in e
    && if |rec| <= size then e[name] == rec
      else e[name] == "burndrop-chunks:" + Itoa(|Chunks(rec, size)|) && Laid(e, name, Chunks(rec, size))
  }

  lemma OneChunk(rec: string, size: nat)
    requires size > 0 && |rec| <= size
    ensures |Chunks(rec, size)| == 1
  {
  }

  lemma OthersSameTrans(a: Entries, b: Entries, c: Entries, name: string)
    requires OthersSame(a, b, name) && OthersSame(b, c, name)
    ensures OthersSame(a, c, name)
  {
    hide Owned;
  }

  lemma DeletedChunks(was: Entries, name: string, gap: nat)
    requires NoHash(name)
    ensures OthersSame(was, was - Keys(name, gap), name)
  {
    KeysHold(name, gap);
  }

  /** What is left over, for every number of chunks there may have been. */
  ghost predicate Cleared(was: Entries, bare: Entries, name: string) {
    forall k: nat :: HasChunks(was, name, k) ==> forall i: nat :: ChunkUser(name, i) in bare <==> MAX_CHUNKS <= i < k
  }

  lemma LeftOvers(was: Entries, name: string, m: nat)
    requires NoHash(name) && m <= MAX_CHUNKS && (m < MAX_CHUNKS ==> ChunkUser(name, m) !in was)
    requires forall i: nat :: i < m ==> ChunkUser(name, i) in was
    ensures Cleared(was, was - Keys(name, m), name)
  {
    forall k: nat | HasChunks(was, name, k)
      ensures forall i: nat :: ChunkUser(name, i) in was - Keys(name, m) <==> MAX_CHUNKS <= i < k
    {
      LeftOver(was, name, m, k);
    }
  }

  lemma WholeTidy(was: Entries, bare: Entries, e: Entries, name: string, rec: string)
    requires NoHash(name) && Cleared(was, bare, name) && e == bare[name := rec] && !HasPrefix(rec, HEADER)
    ensures forall k: nat :: HasChunks(was, name, k) ==> (Tidy(e, name) <==> k <= MAX_CHUNKS)
  {
    PutName(bare, name, rec, 0);
    forall k: nat | HasChunks(was, name, k)
      ensures Tidy(e, name) <==> k <= MAX_CHUNKS
    {
      TidyExactly(e, name, 0, k);
    }
  }

  lemma SplitTidy(was: Entries, bare: Entries, e: Entries, name: string, n: nat)
    requires NoHash(name) && Cleared(was, bare, name) && name in e && e[name] == HEADER + Itoa(n) && 0 < n
    requires forall i: nat :: ChunkUser(name, i) in e <==> i < n || ChunkUser(name, i) in bare
    ensures forall k: nat :: n <= MAX_CHUNKS && HasChunks(was, name, k) ==> (Tidy(e, name) <==> k <= MAX_CHUNKS)
  {
    HeaderCounts(n);
    forall k: nat | n <= MAX_CHUNKS && HasChunks(was, name, k)
      ensures Tidy(e, name) <==> k <= MAX_CHUNKS
    {
      TidyExactly(e, name, n, k);
    }
  }

  /** With the right n chunks and those past a thousand that were left over. */
  lemma TidyExactly(e: Entries, name: string, n: nat, k: nat)
    requires n <= MAX_CHUNKS && name in e
    requires var c := Counted(e[name]); n == if c.Some? && 0 < c.value <= MAX_CHUNKS then c.value else 0
    requires forall i: nat :: ChunkUser(name, i) in e <==> i < n || MAX_CHUNKS <= i < k
    ensures Tidy(e, name) <==> k <= MAX_CHUNKS
  {
    if k > MAX_CHUNKS {
      assert ChunkUser(name, MAX_CHUNKS) in e;
    }
  }
}
