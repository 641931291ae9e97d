/**
 * ISO/IEC 7816-4 padding and the size limits built on it: a marker byte 0x80, then zeros up to
 * the next multiple of the block.
 */
module Padding {
  import opened Prelude
  import Base64Url

  const PAD_BLOCK := 256
  const MAX_PLAINTEXT := 64 * 1024
  const SEALED_OVERHEAD := 48
  const AEAD_OVERHEAD := 40
  const DEFAULT_CIPHERTEXT := MAX_PLAINTEXT + PAD_BLOCK + SEALED_OVERHEAD

  function Padded(data: seq<byte>, block: nat): seq<byte>
    requires block > 0
  {
    data + [0x80] + Zeros(block - |data| % block - 1)
  }

  /** Scans back from position i to the marker; nothing but zeros may come after it. */
  function ScanBack(data: seq<byte>, i: int, stop: int): Option<seq<byte>>
    requires 0 <= stop && -1 <= i < |data|
    decreases i
  {
    if i < stop then None
    else if data[i] == 0x80 then Some(data[..i])
    else if data[i] == 0 then ScanBack(data, i - 1, stop)
    else None
  }

  function Unpadded(data: seq<byte>, block: nat): Option<seq<byte>>
    requires block > 0
  {
    if |data| == 0 || |data| % block != 0 then None
    else
      BlockFits(|data|, block);
      ScanBack(data, |data| - 1, |data| - block)
  }

  lemma SmallRemainder(n: nat, block: nat)
    requires n < block
    ensures n % block == n
  {
  }

  lemma BlockFits(n: nat, block: nat)
    requires block > 0 && n > 0 && n % block == 0
    ensures n >= block
  {
    SmallRemainder(if n < block then n else 0, block);
  }

  method Pad(data: array<byte>, block: nat) returns (out: array<byte>)
    requires block > 0
    ensures fresh(out) && out[..] == Padded(data[..], block)
  {
    var padLen := block - data.Length % block;
    out := new byte[data.Length + padLen](i => 0);
    for i := 0 to data.Length
      invariant out[..i] == data[..i]
      invariant forall k :: i <= k < out.Length ==> out[k] == 0
    {
      out[i] := data[i];
    }
    out[data.Length] := 0x80;
    assert out[..data.Length] == data[..];
    assert out[data.Length + 1..] == Zeros(padLen - 1);
    assert out[..] == out[..data.Length] + [out[data.Length]] + out[data.Length + 1..];
  }

  method Unpad(data: array<byte>, block: nat) returns (r: Option<seq<byte>>)
    requires block > 0
    ensures r == Unpadded(data[..], block)
  {
    if data.Length == 0 || data.Length % block != 0 {
      return None;
    }
    BlockFits(data.Length, block);
    var stop := data.Length - block;
    var i := data.Length - 1;
    while i >= stop
      invariant stop - 1 <= i < data.Length
      invariant Unpadded(data[..], block) == ScanBack(data[..], i, stop)
    {
      if data[i] == 0x80 {
        return Some(data[..i]);
      } else if data[i] != 0 {
        return None;
      }
      i := i - 1;
    }
    return None;
  }

  /** What the scan finds: a marker with zeros behind it. */
  lemma {:induction false} ScanBackFinds(data: seq<byte>, i: int, stop: int, at: int)
    requires 0 <= stop <= at <= i < |data|
    requires data[at] == 0x80 && forall k :: at < k <= i ==> data[k] == 0
    ensures ScanBack(data, i, stop) == Some(data[..at])
    decreases i
  {
    if i > at {
      ScanBackFinds(data, i - 1, stop, at);
    }
  }

  lemma {:induction false} ScanBackFound(data: seq<byte>, i: int, stop: int)
    requires 0 <= stop && -1 <= i < |data| && ScanBack(data, i, stop).Some?
    ensures
      var at := |ScanBack(data, i, stop).value|;
      && stop <= at <= i && data[at] == 0x80 && ScanBack(data, i, stop).value == data[..at]
      && forall k :: at < k <= i ==> data[k] == 0
    decreases i
  {
    if data[i] != 0x80 {
      ScanBackFound(data, i - 1, stop);
    }
  }

  lemma Multiple(q: nat, block: nat, r: nat)
    requires r < block
    ensures (q * block + r) % block == r && (q * block + r) / block == q
  {
    Base64Url.Group(q, block, r);
    assert block * q == q * block;
  }

  /** Padded data is a whole number of blocks, the marker in the last one. */
  lemma PaddedLength(n: nat, block: nat)
    requires block > 0
    ensures (n + (block - n % block)) % block == 0
  {
    var q := n / block;
    assert n + (block - n % block) == (q + 1) * block + 0;
    Multiple(q + 1, block, 0);
  }

  /** The last block of n bytes begins at a multiple of the block. */
  lemma InLastBlock(n: nat, block: nat, at: nat)
    requires block > 0 && n > 0 && n % block == 0 && n - block <= at < n
    ensures block - at % block == n - at
  {
    BlockFits(n, block);
    var q := n / block;
    assert n == q * block;
    assert n - block == (q - 1) * block;
    Multiple(q - 1, block, at - (n - block));
  }

  lemma UnpadPad(x: seq<byte>, block: nat)
    requires block > 0
    ensures Unpadded(Padded(x, block), block) == Some(x)
  {
    var d := Padded(x, block);
    PaddedLength(|x|, block);
    assert |d| == |x| + (block - |x| % block);
    ScanBackFinds(d, |d| - 1, |d| - block, |x|);
    assert d[..|x|] == x;
  }

  /** Whatever Unpad accepts is the padding of what it returns. */
  lemma PadUnpad(d: seq<byte>, block: nat)
    requires block > 0 && Unpadded(d, block).Some?
    ensures Padded(Unpadded(d, block).value, block) == d
  {
    var x := Unpadded(d, block).value;
    BlockFits(|d|, block);
    ScanBackFound(d, |d| - 1, |d| - block);
    InLastBlock(|d|, block, |x|);
    assert Padded(x, block) == d;
  }

  // ----- Sizes -----

  /** A plaintext within the limit pads to between one block and the limit plus one block. */
  lemma PaddedSize(x: seq<byte>)
    requires |x| <= MAX_PLAINTEXT
    ensures PAD_BLOCK <= |Padded(x, PAD_BLOCK)| <= MAX_PLAINTEXT + PAD_BLOCK
    ensures |Padded(x, PAD_BLOCK)| % PAD_BLOCK == 0
  {
    PaddedLength(|x|, PAD_BLOCK);
  }

  /** The data, one byte 0x80, and as few zeros as fill a block. */
  lemma PaddedExactly(data: seq<byte>, block: nat)
    requires block > 0
    ensures
      var p := Padded(data, block);
      && |data| < |p| <= |data| + block && |p| % block == 0
      && p[..|data|] == data && p[|data|] == 128 && forall k :: |data| < k < |p| ==> p[k] == 0
  {
    PaddedLength(|data|, block);
  }

  /** The relay's first look at an encoded ciphertext never turns away one that is within its limit. */
  lemma EncodedWithinPrefilter(n: nat, max: nat)
    requires n <= max
    ensures Base64Url.EncodedLength(n) <= max * 4 / 3 + 4
  {
    var q, r := n / 3, n % 3;
    assert Base64Url.EncodedLength(n) <= q * 4 + 3;
    assert max * 4 / 3 >= q * 4;
  }
}
