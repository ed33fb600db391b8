/**
 The encrypted object format: a five-byte header, then one record per plaintext chunk made of a
 nonce and the sealed chunk. This module defines the format and proves its layout; the streams
 that write and read it are in CryptoStreams.

 AES-GCM is a parameter: any pair of functions that satisfies Lawful. Nonces are a parameter
 too, one for each chunk index.
 */
module ChunkFormat {
  import opened Arithmetic
  import opened Wrappers

  type Byte = b: int | 0 <= b < 256
  type Bytes = seq<Byte>
  type Nonce = n: Bytes | |n| == 12 witness seq(12, _ => 0)

  const CRYPTO_VERSION: Byte := 1
  const DEFAULT_CHUNK_SIZE := 65536
  const HEADER_SIZE := 5
  const NONCE_SIZE := 12
  const TAG_SIZE := 16
  const OVERHEAD := 28

  /** seal(key, nonce, plaintext, aad) and open(key, nonce, ciphertext, aad). */
  datatype Aead = Aead(
    seal: (Bytes, Bytes, Bytes, Bytes) -> Bytes,
    open: (Bytes, Bytes, Bytes, Bytes) -> Option<Bytes>)

  ghost predicate Lawful(c: Aead) {
    forall k, n, p, a ::
      c.open(k, n, c.seal(k, n, p, a), a) == Some(p) && |c.seal(k, n, p, a)| == |p| + TAG_SIZE
  }

  /** The laws are consistent: a cipher that appends a constant tag satisfies them. */
  lemma LawfulIsInhabited() returns (c: Aead)
    ensures Lawful(c)
  {
    var tag: Bytes := seq(TAG_SIZE, _ => 0);
    c := Aead(
      (k, n, p, a) => p + tag,
      (k, n, x, a) => if |x| >= TAG_SIZE then Some(x[..|x| - TAG_SIZE]) else None);
    forall k, n, p, a
      ensures c.open(k, n, c.seal(k, n, p, a), a) == Some(p) && |c.seal(k, n, p, a)| == |p| + TAG_SIZE
    {
      assert (p + tag)[..|p + tag| - TAG_SIZE] == p;
    }
  }

  // ----- Big-endian integers --------------------------------------------------------------

  function BigEndian(v: nat, width: nat): (r: Bytes)
    ensures |r| == width
  {
    if width == 0 then [] else BigEndian(v / 256, width - 1) + [v % 256]
  }

  function FromBigEndian(b: Bytes): nat {
    if b == [] then 0 else FromBigEndian(b[..|b| - 1]) * 256 + b[|b| - 1]
  }

  function Pow256(width: nat): nat {
    if width == 0 then 1 else 256 * Pow256(width - 1)
  }

  lemma {:induction false} BigEndianRoundTrip(v: nat, width: nat)
    requires v < Pow256(width)
    ensures FromBigEndian(BigEndian(v, width)) == v
  {
    if width > 0 {
      BigEndianRoundTrip(v / 256, width - 1);
      var b := BigEndian(v, width);
      assert b[..|b| - 1] == BigEndian(v / 256, width - 1);
    }
  }

  lemma {:induction false} FromBigEndianRoundTrip(b: Bytes)
    ensures FromBigEndian(b) < Pow256(|b|) && BigEndian(FromBigEndian(b), |b|) == b
  {
    if b != [] {
      FromBigEndianRoundTrip(b[..|b| - 1]);
      assert b == b[..|b| - 1] + [b[|b| - 1]];
      DivUnique(FromBigEndian(b), 256, FromBigEndian(b[..|b| - 1]), b[|b| - 1]);
    }
  }

  /** The most significant byte comes first. */
  lemma {:induction false} BigEndianAt(v: nat, width: nat, i: nat)
    requires i < width
    ensures Pow256(width - 1 - i) > 0 && BigEndian(v, width)[i] == v / Pow256(width - 1 - i) % 256
  {
    if i == width - 1 {
      assert Pow256(0) == 1;
    } else {
      BigEndianAt(v / 256, width - 1, i);
      DivDiv(v, 256, Pow256(width - 2 - i));
    }
  }

  /** The header of an object with the default chunk size, and the associated data of its second chunk. */
  lemma DefaultBytes()
    ensures Header(DEFAULT_CHUNK_SIZE) == [1, 0, 1, 0, 0]
    ensures ChunkAad(1) == [0, 0, 0, 0, 0, 0, 0, 1]
  {
    assert BigEndian(65536, 4) == BigEndian(256, 3) + [0] == BigEndian(1, 2) + [0, 0] == BigEndian(0, 1) + [1, 0, 0];
    assert BigEndian(1, 8) == BigEndian(0, 7) + [1];
    ZeroBytes(7);
    ZeroBytes(1);
  }

  lemma {:induction false} ZeroBytes(width: nat)
    ensures BigEndian(0, width) == seq(width, _ => 0)
  {
    if width > 0 {
      ZeroBytes(width - 1);
      assert seq(width, _ => 0) == seq(width - 1, _ => 0) + [0];
    }
  }

  /** The associated data of a chunk is its index. */
  function ChunkAad(index: nat): Bytes {
    BigEndian(index, 8)
  }

  // ----- The object -----------------------------------------------------------------------

  function Header(chunkSize: nat): (h: Bytes)
    ensures |h| == HEADER_SIZE
  {
    [CRYPTO_VERSION] + BigEndian(chunkSize, 4)
  }

  function Min(a: int, b: int): int {
    if a < b then a else b
  }

  function Max(a: int, b: int): int {
    if a > b then a else b
  }

  /** The record of chunk `index` with plaintext `p`. */
  function Record(c: Aead, key: Bytes, nonces: nat -> Nonce, index: nat, p: Bytes): Bytes {
    nonces(index) + c.seal(key, nonces(index), p, ChunkAad(index))
  }

  lemma RecordLength(c: Aead, key: Bytes, nonces: nat -> Nonce, index: nat, p: Bytes)
    requires Lawful(c)
    ensures |Record(c, key, nonces, index, p)| == |p| + OVERHEAD
  {
  }

  /** The records of plaintext `p`, numbered from `index`. */
  function Records(c: Aead, key: Bytes, nonces: nat -> Nonce, chunkSize: nat, index: nat, p: Bytes): Bytes
    requires chunkSize > 0
    decreases |p|
  {
    if p == [] then []
    else
      var n := Min(chunkSize, |p|);
      Record(c, key, nonces, index, p[..n]) + Records(c, key, nonces, chunkSize, index + 1, p[n..])
  }

  function Object(c: Aead, key: Bytes, nonces: nat -> Nonce, chunkSize: nat, p: Bytes): Bytes
    requires chunkSize > 0
  {
    Header(chunkSize) + Records(c, key, nonces, chunkSize, 0, p)
  }

  /** Length of the object of a plaintext of `size` bytes. */
  function ObjectSize(size: nat, chunkSize: nat): nat
    requires chunkSize > 0
  {
    HEADER_SIZE + size + CeilDiv(size, chunkSize) * OVERHEAD
  }

  lemma {:induction false} RecordsLength(c: Aead, key: Bytes, nonces: nat -> Nonce, chunkSize: nat, index: nat,
                                         p: Bytes)
    requires Lawful(c) && chunkSize > 0
    ensures |Records(c, key, nonces, chunkSize, index, p)| == |p| + CeilDiv(|p|, chunkSize) * OVERHEAD
    decreases |p|
  {
    if p != [] {
      var n := Min(chunkSize, |p|);
      RecordLength(c, key, nonces, index, p[..n]);
      RecordsLength(c, key, nonces, chunkSize, index + 1, p[n..]);
      if |p| > chunkSize {
        CeilDivStep(|p|, chunkSize);
      } else {
        CeilDivUnique(|p|, chunkSize, 1);
      }
    }
  }

  /** The object is exactly as long as the size formula says. */
  lemma ObjectLength(c: Aead, key: Bytes, nonces: nat -> Nonce, chunkSize: nat, p: Bytes)
    requires Lawful(c) && chunkSize > 0
    ensures |Object(c, key, nonces, chunkSize, p)| == ObjectSize(|p|, chunkSize)
  {
    RecordsLength(c, key, nonces, chunkSize, 0, p);
  }

  lemma DropBeyond(all: Bytes, first: Bytes, rest: Bytes, n: nat)
    requires all == first + rest && |first| <= n <= |all|
    ensures all[n..] == rest[n - |first|..]
  {
  }

  /** The first of several chunks is a whole one. */
  lemma RecordsStep(c: Aead, key: Bytes, nonces: nat -> Nonce, chunkSize: nat, index: nat, p: Bytes)
    requires Lawful(c) && 0 < chunkSize <= |p|
    ensures var first := Record(c, key, nonces, index, p[..chunkSize]);
            |first| == chunkSize + OVERHEAD
            && Records(c, key, nonces, chunkSize, index, p)
               == first + Records(c, key, nonces, chunkSize, index + 1, p[chunkSize..])
  {
    RecordLength(c, key, nonces, index, p[..chunkSize]);
  }

  /** One chunk of RecordsFrom: `cut` and `at` are positions after the first chunk. */
  lemma RecordsFromStep(
    c: Aead, key: Bytes, nonces: nat -> Nonce, chunkSize: nat, index: nat, p: Bytes, at: nat, tail: Bytes)
    requires Lawful(c) && 0 < chunkSize <= |p|
    requires at <= |Records(c, key, nonces, chunkSize, index + 1, p[chunkSize..])|
    requires Records(c, key, nonces, chunkSize, index + 1, p[chunkSize..])[at..] == tail
    ensures at + (chunkSize + OVERHEAD) <= |Records(c, key, nonces, chunkSize, index, p)|
    ensures Records(c, key, nonces, chunkSize, index, p)[at + (chunkSize + OVERHEAD)..] == tail
  {
    RecordsStep(c, key, nonces, chunkSize, index, p);
    DropBeyond(Records(c, key, nonces, chunkSize, index, p), Record(c, key, nonces, index, p[..chunkSize]),
               Records(c, key, nonces, chunkSize, index + 1, p[chunkSize..]), at + (chunkSize + OVERHEAD));
  }

  lemma {:induction false} RecordsFrom(
    c: Aead, key: Bytes, nonces: nat -> Nonce, chunkSize: nat, index: nat, p: Bytes, i: nat, cut: nat, at: nat,
        tail: Bytes)
    requires Lawful(c) && chunkSize > 0 && cut <= |p|
    requires cut == Times(i, chunkSize) && at == Times(i, chunkSize + OVERHEAD)
    requires tail == Records(c, key, nonces, chunkSize, index + i, p[cut..])
    ensures at <= |Records(c, key, nonces, chunkSize, index, p)|
    ensures Records(c, key, nonces, chunkSize, index, p)[at..] == tail
    decreases i
  {
    if i == 0 {
      assert p[0..] == p;
    } else {
      assert p[chunkSize..][cut - chunkSize..] == p[cut..];
      RecordsFrom(c, key, nonces, chunkSize, index + 1, p[chunkSize..], i - 1,
                  cut - chunkSize, at - (chunkSize + OVERHEAD), tail);
      RecordsFromStep(c, key, nonces, chunkSize, index, p, at - (chunkSize + OVERHEAD), tail);
    }
  }

  /** Whole records before chunk `i` have a fixed size, so its records start at a known offset. */
  lemma RecordsAt(c: Aead, key: Bytes, nonces: nat -> Nonce, chunkSize: nat, index: nat, p: Bytes, i: nat)
    requires Lawful(c) && chunkSize > 0 && i * chunkSize <= |p|
    ensures 0 <= i * (chunkSize + OVERHEAD) <= |Records(c, key, nonces, chunkSize, index, p)|
    ensures 0 <= i * chunkSize
    ensures Records(c, key, nonces, chunkSize, index, p)[i * (chunkSize + OVERHEAD)..]
         == Records(c, key, nonces, chunkSize, index + i, p[i * chunkSize..])
  {
    TimesIsProduct(i, chunkSize);
    TimesIsProduct(i, chunkSize + OVERHEAD);
    RecordsFrom(c, key, nonces, chunkSize, index, p, i, i * chunkSize, i * (chunkSize + OVERHEAD),
                Records(c, key, nonces, chunkSize, index + i, p[i * chunkSize..]));
  }
}
