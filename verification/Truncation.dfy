/**
 What the decoder makes of an object that has been cut short (auth/crypto.go): which cuts it
 reports, and which it takes for the end of the stream.
 */
module Truncation {
  import opened Wrappers
  import opened Arithmetic
  import opened ChunkFormat
  import opened CryptoStreams

  /** Chunk sizes are 32-bit numbers. */
  const MAX_CHUNK := 0x1_0000_0000

  /** A third law of the cipher: what is left of a sealed text does not open. */
  ghost predicate Authentic(c: Aead) {
    forall k, n, p, a, m :: |p| < MAX_CHUNK && 0 <= m < |c.seal(k, n, p, a)| ==>
      c.open(k, n, c.seal(k, n, p, a)[..m], a) == None
  }

  /** The laws are consistent: a cipher that puts the length in front satisfies them. */
  lemma AuthenticIsInhabited() returns (c: Aead)
    ensures Lawful(c) && Authentic(c)
  {
    c := Aead(
      (k, n, p, a) => BigEndian(|p|, TAG_SIZE) + p,
      (k, n, x, a) => if |x| >= TAG_SIZE && x[..TAG_SIZE] == BigEndian(|x| - TAG_SIZE, TAG_SIZE)
                      then Some(x[TAG_SIZE..]) else None);
    forall k, n, p, a
      ensures c.open(k, n, c.seal(k, n, p, a), a) == Some(p) && |c.seal(k, n, p, a)| == |p| + TAG_SIZE
    {
      var x := BigEndian(|p|, TAG_SIZE) + p;
      assert x[..TAG_SIZE] == BigEndian(|p|, TAG_SIZE) && x[TAG_SIZE..] == p;
    }
    forall k, n, p, a, m | |p| < MAX_CHUNK && 0 <= m < |c.seal(k, n, p, a)|
      ensures c.open(k, n, c.seal(k, n, p, a)[..m], a) == None
    {
      if m >= TAG_SIZE {
        var x := (BigEndian(|p|, TAG_SIZE) + p)[..m];
        assert x[..TAG_SIZE] == BigEndian(|p|, TAG_SIZE);
        LengthsDiffer(|p|, m - TAG_SIZE);
      }
    }
  }

  lemma LengthsDiffer(a: nat, b: nat)
    requires a < MAX_CHUNK && b < a
    ensures BigEndian(a, TAG_SIZE) != BigEndian(b, TAG_SIZE)
  {
    Pow256Grows(4, TAG_SIZE);
    assert Pow256(4) == MAX_CHUNK by {
      assert Pow256(1) == 256 && Pow256(2) == 65536 && Pow256(3) == 16777216;
    }
    BigEndianRoundTrip(a, TAG_SIZE);
    BigEndianRoundTrip(b, TAG_SIZE);
  }

  lemma {:induction false} Pow256Grows(a: nat, b: nat)
    requires a <= b
    ensures Pow256(a) <= Pow256(b)
    decreases b
  {
    if a < b {
      Pow256Grows(a, b - 1);
    }
  }

  // ----- One record -----------------------------------------------------------------------

  /** What a cut `r` bytes into the record of chunk `index` is answered with. */
  function CutResult(index: nat, r: nat): Result {
    if r < NONCE_SIZE then None
    else if r == NONCE_SIZE then Some(ReadError)
    else Some(AuthenticationFailed(index))
  }

  lemma CutRecord(c: Aead, key: Bytes, nonces: nat -> Nonce, chunkSize: nat, index: nat, p: Bytes, r: nat)
    requires Lawful(c) && |p| <= chunkSize && r < |p| + OVERHEAD
    requires r > NONCE_SIZE ==> Authentic(c) && chunkSize < MAX_CHUNK
    ensures r <= |Record(c, key, nonces, index, p)|
    ensures Decoded(c, key, chunkSize, index, Record(c, key, nonces, index, p)[..r], false) == ([], CutResult(index, r))
  {
    RecordLength(c, key, nonces, index, p);
    var data := Record(c, key, nonces, index, p)[..r];
    if r >= NONCE_SIZE {
      var sealed := c.seal(key, nonces(index), p, ChunkAad(index));
      assert data[..NONCE_SIZE] == nonces(index);
      assert data[NONCE_SIZE..] == sealed[..r - NONCE_SIZE];
    }
  }

  // ----- The whole object -----------------------------------------------------------------

  lemma {:induction false} CutRecords(
    c: Aead, key: Bytes, nonces: nat -> Nonce, chunkSize: nat, index: nat, p: Bytes, k: nat, cut: nat, at: nat, r: nat)
    requires Lawful(c) && chunkSize > 0 && cut == Times(k, chunkSize) && at == Times(k, chunkSize + OVERHEAD)
    requires cut < |p| && r < Min(chunkSize, |p| - cut) + OVERHEAD
    requires r > NONCE_SIZE ==> Authentic(c) && chunkSize < MAX_CHUNK
    ensures at + r <= |Records(c, key, nonces, chunkSize, index, p)|
    ensures Decoded(c, key, chunkSize, index, Records(c, key, nonces, chunkSize, index, p)[..at + r], false)
         == (p[..cut], CutResult(index + k, r))
    decreases k
  {
    hide Decoded, Record, CutResult;
    var n := Min(chunkSize, |p|);
    var records := Records(c, key, nonces, chunkSize, index, p);
    RecordLength(c, key, nonces, index, p[..n]);
    if k == 0 {
      CutRecord(c, key, nonces, chunkSize, index, p[..n], r);
      assert records[..r] == Record(c, key, nonces, index, p[..n])[..r];
    } else {
      var cut1, at1 := cut - chunkSize, at - (chunkSize + OVERHEAD);
      CutRecords(c, key, nonces, chunkSize, index + 1, p[chunkSize..], k - 1, cut1, at1, r);
      LaterCut(c, key, nonces, chunkSize, index, p, at1 + r);
      assert p[..chunkSize] + p[chunkSize..][..cut1] == p[..cut];
    }
  }

  /** A cut after the first record. */
  lemma LaterCut(c: Aead, key: Bytes, nonces: nat -> Nonce, chunkSize: nat, index: nat, p: Bytes, at: nat)
    requires Lawful(c) && 0 < chunkSize <= |p|
    requires at <= |Records(c, key, nonces, chunkSize, index + 1, p[chunkSize..])|
    ensures chunkSize + OVERHEAD + at <= |Records(c, key, nonces, chunkSize, index, p)|
    ensures var d := Decoded(c, key, chunkSize, index + 1,
                             Records(c, key, nonces, chunkSize, index + 1, p[chunkSize..])[..at], false);
            Decoded(c, key, chunkSize, index, Records(c, key, nonces, chunkSize, index, p)[..chunkSize + OVERHEAD + at],
                false)
            == (p[..chunkSize] + d.0, d.1)
  {
    hide Decoded, Records;
    var rest := Records(c, key, nonces, chunkSize, index + 1, p[chunkSize..]);
    RecordsStep(c, key, nonces, chunkSize, index, p);
    DecodedRecord(c, key, nonces, chunkSize, index, p[..chunkSize], rest[..at]);
    assert Records(c, key, nonces, chunkSize, index, p)[..chunkSize + OVERHEAD + at]
        == Record(c, key, nonces, index, p[..chunkSize]) + rest[..at];
  }

  /**
   Every cut inside the records, by the chunk it falls into and the position in that record: all
   earlier chunks are decoded, and the cut is passed over in silence if and only if it falls before
   the end of the nonce. Between two records and inside a nonce the plaintext is cut short without
   an error, although something of it is missing.
   */
  lemma CutObject(c: Aead, key: Bytes, nonces: nat -> Nonce, chunkSize: nat, p: Bytes, k: nat, r: nat)
    requires Lawful(c) && chunkSize > 0 && 0 <= k * chunkSize < |p|
    requires r < Min(chunkSize, |p| - k * chunkSize) + OVERHEAD
    requires r > NONCE_SIZE ==> Authentic(c) && chunkSize < MAX_CHUNK
    ensures 0 <= k * (chunkSize + OVERHEAD)
            && k * (chunkSize + OVERHEAD) + r <= |Records(c, key, nonces, chunkSize, 0, p)|
    ensures var d := Decoded(c, key, chunkSize, 0,
                             Records(c, key, nonces, chunkSize, 0, p)[..k * (chunkSize + OVERHEAD) + r], false);
            && d == (p[..k * chunkSize], CutResult(k, r))
            && (d.1 == None <==> r < NONCE_SIZE) && d.0 != p
  {
    TimesIsProduct(k, chunkSize);
    TimesIsProduct(k, chunkSize + OVERHEAD);
    CutRecords(c, key, nonces, chunkSize, 0, p, k, k * chunkSize, k * (chunkSize + OVERHEAD), r);
  }

  // ----- A reader that fails --------------------------------------------------------------

  /** A failure inside a record, or behind a short one, is reported and nothing of the record is given. */
  lemma FailsInRecord(c: Aead, key: Bytes, chunkSize: nat, index: nat, data: Bytes)
    requires |data| < chunkSize + OVERHEAD
    ensures Decoded(c, key, chunkSize, index, data, true) == ([], Some(ReadError))
  {
  }

  /**
   Reading the records fails somewhere: the whole chunks before that are given, and a read error. `cut`
   and `at` are their plaintext and their records, and `r` bytes more could be read.
   */
  lemma {:induction false} FailedRecords(
    c: Aead, key: Bytes, nonces: nat -> Nonce, chunkSize: nat, index: nat, p: Bytes, k: nat, cut: nat, at: nat, r: nat)
    requires Lawful(c) && chunkSize > 0 && cut == Times(k, chunkSize) && at == Times(k, chunkSize + OVERHEAD)
    requires cut <= |p| && r < chunkSize + OVERHEAD
    requires at + r <= |Records(c, key, nonces, chunkSize, index, p)|
    ensures Decoded(c, key, chunkSize, index, Records(c, key, nonces, chunkSize, index, p)[..at + r], true)
         == (p[..cut], Some(ReadError))
    decreases k
  {
    hide Decoded, Record, Records;
    if k == 0 {
      FailsInRecord(c, key, chunkSize, index, Records(c, key, nonces, chunkSize, index, p)[..r]);
    } else {
      var cut1, at1 := cut - chunkSize, at - (chunkSize + OVERHEAD);
      var rest := Records(c, key, nonces, chunkSize, index + 1, p[chunkSize..]);
      RecordsStep(c, key, nonces, chunkSize, index, p);
      FailedRecords(c, key, nonces, chunkSize, index + 1, p[chunkSize..], k - 1, cut1, at1, r);
      DecodedWhole(c, key, nonces, chunkSize, index, p[..chunkSize], rest[..at1 + r], true);
      assert Records(c, key, nonces, chunkSize, index, p)[..at + r]
          == Record(c, key, nonces, index, p[..chunkSize]) + rest[..at1 + r];
      assert p[..chunkSize] + p[chunkSize..][..cut1] == p[..cut];
    }
  }

  // ----- Records in another place ---------------------------------------------------------

  /** Another law of the cipher: a sealed text opens only with the chunk number it was sealed with. */
  ghost predicate Binding(c: Aead) {
    forall k, n, p, a, b :: |a| == 8 && |b| == 8 && a != b ==> c.open(k, n, c.seal(k, n, p, a), b) == None
  }

  /** The laws are consistent: a cipher that appends the number satisfies them. */
  lemma BindingIsInhabited() returns (c: Aead)
    ensures Lawful(c) && Binding(c)
  {
    c := Aead(
      (k, n, p, a) => p + Tag(a),
      (k, n, x, a) => if |x| >= TAG_SIZE && x[|x| - TAG_SIZE..] == Tag(a) then Some(x[..|x| - TAG_SIZE]) else None);
    forall k, n, p, a
      ensures c.open(k, n, c.seal(k, n, p, a), a) == Some(p) && |c.seal(k, n, p, a)| == |p| + TAG_SIZE
      ensures (p + Tag(a))[|p|..] == Tag(a)
    {
      assert (p + Tag(a))[..|p|] == p && (p + Tag(a))[|p|..] == Tag(a);
    }
    forall k, n, p, a, b | |a| == 8 && |b| == 8 && a != b
      ensures c.open(k, n, c.seal(k, n, p, a), b) == None
    {
      assert Tag(a)[..8] == a && Tag(b)[..8] == b;
    }
  }

  /** Eight bytes made a tag. */
  function Tag(a: Bytes): (tag: Bytes)
    ensures |tag| == TAG_SIZE
  {
    if |a| == 8 then a + a else seq(TAG_SIZE, _ => 0)
  }

  /** Chunks with different numbers have different associated data. */
  lemma AadInjective(i: nat, j: nat)
    requires i < Pow256(8) && j < Pow256(8) && ChunkAad(i) == ChunkAad(j)
    ensures i == j
  {
    BigEndianRoundTrip(i, 8);
    BigEndianRoundTrip(j, 8);
  }

  /** So the record of a chunk is refused in the place of another, and nothing behind it is given. */
  lemma MovedRecord(c: Aead, key: Bytes, nonces: nat -> Nonce, chunkSize: nat, i: nat, j: nat, p: Bytes, rest: Bytes)
    requires Lawful(c) && Binding(c) && i != j && i < Pow256(8) && j < Pow256(8)
    requires |p| <= chunkSize && (|p| < chunkSize ==> rest == [])
    ensures Decoded(c, key, chunkSize, j, Record(c, key, nonces, i, p) + rest, false)
         == ([], Some(AuthenticationFailed(j)))
  {
    if ChunkAad(i) == ChunkAad(j) {
      AadInjective(i, j);
    }
    var sealed := c.seal(key, nonces(i), p, ChunkAad(i));
    var data := Record(c, key, nonces, i, p) + rest;
    assert data[..NONCE_SIZE] == nonces(i);
    assert data[NONCE_SIZE..] == sealed + rest;
    assert |p| < chunkSize ==> sealed + rest == sealed;
    assert |p| == chunkSize ==> (sealed + rest)[..chunkSize + TAG_SIZE] == sealed;
  }

  lemma CutParts(chunkSize: nat, records: Bytes, size: nat)
    requires size <= |records|
    ensures var data := (Header(chunkSize) + records)[..HEADER_SIZE + size];
            && data[0] == CRYPTO_VERSION && data[1..HEADER_SIZE] == BigEndian(chunkSize, 4)
            && data[HEADER_SIZE..] == records[..size]
  {
    var h, data := Header(chunkSize), (Header(chunkSize) + records)[..HEADER_SIZE + size];
    assert data == h + records[..size];
    assert data[1..HEADER_SIZE] == h[1..];
  }

  /** The decoder on an object of EncryptStream that has been cut, at any position after the header. */
  method DecryptCut(c: Aead, key: Bytes, nonces: nat -> Nonce, p: Bytes, k: nat, r: nat)
    returns (plain: Bytes, err: Result)
    requires Lawful(c) && k * DEFAULT_CHUNK_SIZE < |p|
    requires r < Min(DEFAULT_CHUNK_SIZE, |p| - k * DEFAULT_CHUNK_SIZE) + OVERHEAD
    requires r > NONCE_SIZE ==> Authentic(c)
    ensures plain == p[..k * DEFAULT_CHUNK_SIZE] && err == CutResult(k, r)
  {
    hide Decoded, Records, Header, BigEndian, FromBigEndian;
    var stored := Object(c, key, nonces, DEFAULT_CHUNK_SIZE, p);
    CutObject(c, key, nonces, DEFAULT_CHUNK_SIZE, p, k, r);
    var size := k * (DEFAULT_CHUNK_SIZE + OVERHEAD) + r;
    ghost var records := Records(c, key, nonces, DEFAULT_CHUNK_SIZE, 0, p);
    var data := stored[..HEADER_SIZE + size];
    CutParts(DEFAULT_CHUNK_SIZE, records, size);
    BigEndianRoundTrip(DEFAULT_CHUNK_SIZE, 4);
    var source := new Reader(data, false);
    var sink := new Writer(None);
    err := DecryptStream(c, key, source, sink);
    plain := sink.written;
  }

  /** A one-byte file cut off after its header reads as an empty file, without an error. */
  method OneByteLost(c: Aead, key: Bytes, nonces: nat -> Nonce) returns (plain: Bytes, err: Result)
    requires Lawful(c)
    ensures plain == [] != [7] && err == None
  {
    plain, err := DecryptCut(c, key, nonces, [7], 0, 0);
  }
}
