/**
 The decrypting response stream of the service worker (sw.js): bounded ciphertext fetches,
 windows of at most six decrypted chunks, and one enqueued slice per pull.

 The object store is the stored object itself: a fetch of an inclusive byte range returns those
 bytes or fails. Cancellation and the browser's queue are not modelled; a failed fetch is.
 */
module ServiceWorker {
  import opened Wrappers
  import opened Arithmetic
  import opened ChunkFormat
  import opened CryptoStreams
  import opened FiniteSets

  const CIPHER_FETCH_BYTES := 4194304
  const MAX_CHUNK_SIZE := 1048576
  const DECRYPT_WINDOW := 6

  function Flatten(parts: seq<Bytes>): Bytes {
    if parts == [] then [] else Flatten(parts[..|parts| - 1]) + parts[|parts| - 1]
  }

  lemma {:induction false} FlattenFirst(parts: seq<Bytes>)
    requires parts != []
    ensures Flatten(parts) == parts[0] + Flatten(parts[1..])
    decreases |parts|
  {
    if |parts| > 1 {
      var n := |parts| - 1;
      FlattenFirst(parts[..n]);
      assert parts[..n][1..] == parts[1..][..n - 1];
    }
  }

  // ----- Assembling a body from network reads ---------------------------------------------

  /**
   The header buffer of discoverSize: filled from the front of whatever pieces arrive, until it
   is full.
   */
  method FillHeader(pieces: seq<Bytes>) returns (header: Option<Bytes>)
    ensures header == if |Flatten(pieces)| >= HEADER_SIZE then Some(Flatten(pieces)[..HEADER_SIZE]) else None
  {
    var buffer: Bytes := [];
    var i := 0;
    while |buffer| < HEADER_SIZE
      invariant i <= |pieces|
      invariant buffer == Flatten(pieces[..i])[..Min(HEADER_SIZE, |Flatten(pieces[..i])|)]
      decreases |pieces| - i
    {
      if i == |pieces| {
        assert pieces[..i] == pieces;
        return None;
      }
      assert pieces[..i + 1][..i] == pieces[..i];
      var part := pieces[i][..Min(HEADER_SIZE - |buffer|, |pieces[i]|)];
      buffer := buffer + part;
      i := i + 1;
    }
    PrefixOfPieces(pieces, i);
    assert Flatten(pieces[..i])[..HEADER_SIZE] == Flatten(pieces)[..HEADER_SIZE];
    header := Some(buffer);
  }

  lemma {:induction false} PrefixOfPieces(pieces: seq<Bytes>, i: nat)
    requires i <= |pieces|
    ensures Flatten(pieces[..i]) <= Flatten(pieces)
    decreases |pieces| - i
  {
    if i < |pieces| {
      PrefixOfPieces(pieces, i + 1);
      assert pieces[..i + 1][..i] == pieces[..i];
    } else {
      assert pieces[..i] == pieces;
    }
  }

  // ----- The records of an object ---------------------------------------------------------

  /** What is known about the object being served. */
  datatype Source = Source(c: Aead, key: Bytes, nonces: nat -> Nonce, chunkSize: nat, plain: Bytes) {
    ghost predicate Valid() {
      Lawful(c) && 0 < chunkSize <= MAX_CHUNK_SIZE
    }

    function Stored(): Bytes
      requires chunkSize > 0
    {
      Object(c, key, nonces, chunkSize, plain)
    }

    function Unit(): nat {
      chunkSize + OVERHEAD
    }

    /** Where chunk `i` starts in the plaintext. */
    ghost function Off(i: nat): nat {
      Times(i, chunkSize)
    }

    /** Plaintext bytes in chunk `i`. */
    ghost function ChunkLength(i: nat): int {
      Min(chunkSize, |plain| - Off(i))
    }

    ghost function ChunkAt(i: nat): Bytes
      requires Off(i) <= |plain|
    {
      plain[Off(i)..Off(i) + ChunkLength(i)]
    }

    ghost function RecordStart(i: nat): nat {
      HEADER_SIZE + Times(i, Unit())
    }

    ghost function RecordEnd(i: nat): int {
      RecordStart(i) + ChunkLength(i) + OVERHEAD
    }
  }

  /** Where the record of an existing chunk lies, and that opening it gives the chunk. */
  lemma RecordInObject(src: Source, i: nat)
    requires src.Valid() && src.Off(i) < |src.plain|
    ensures 0 < src.ChunkLength(i) <= src.chunkSize
    ensures src.RecordEnd(i) <= |src.Stored()|
    ensures Opens(src, i, src.Stored()[src.RecordStart(i)..src.RecordEnd(i)], src.ChunkAt(i))
  {
    hide Opens, Lawful, Records;
    TimesIsProduct(i, src.chunkSize);
    TimesIsProduct(i, src.Unit());
    RecordsAt(src.c, src.key, src.nonces, src.chunkSize, 0, src.plain, i);
    RecordFrom(src, i, src.Off(i), Times(i, src.Unit()));
  }

  ghost predicate Opens(src: Source, i: nat, bytes: Bytes, chunk: Bytes) {
    |bytes| >= NONCE_SIZE
    && src.c.open(src.key, bytes[..NONCE_SIZE], bytes[NONCE_SIZE..], ChunkAad(i)) == Some(chunk)
  }

  /** The same with the products named: plaintext offset `off`, record offset `at`. */
  lemma RecordFrom(src: Source, i: nat, off: nat, at: nat)
    requires src.Valid() && off < |src.plain|
    requires var all := Records(src.c, src.key, src.nonces, src.chunkSize, 0, src.plain);
             at <= |all| && all[at..] == Records(src.c, src.key, src.nonces, src.chunkSize, i, src.plain[off..])
    ensures var n := Min(src.chunkSize, |src.plain| - off);
            && HEADER_SIZE + at + n + OVERHEAD <= |src.Stored()|
            && Opens(src, i, src.Stored()[HEADER_SIZE + at..HEADER_SIZE + at + n + OVERHEAD], src.plain[off..off + n])
  {
    var rest := src.plain[off..];
    var n := Min(src.chunkSize, |rest|);
    var record := Record(src.c, src.key, src.nonces, i, rest[..n]);
    RecordLength(src.c, src.key, src.nonces, i, rest[..n]);
    SliceOfObject(src.Stored(), Records(src.c, src.key, src.nonces, src.chunkSize, 0, src.plain), at, record,
                  Records(src.c, src.key, src.nonces, src.chunkSize, i + 1, rest[n..]));
    RecordOpens(src, i, record, rest[..n]);
    assert rest[..n] == src.plain[off..off + n];
  }

  lemma RecordOpens(src: Source, i: nat, record: Bytes, chunk: Bytes)
    requires src.Valid() && record == Record(src.c, src.key, src.nonces, i, chunk)
    ensures Opens(src, i, record, chunk)
  {
    assert record[..NONCE_SIZE] == src.nonces(i);
    assert record[NONCE_SIZE..] == src.c.seal(src.key, src.nonces(i), chunk, ChunkAad(i));
  }

  lemma SliceOfObject(stored: Bytes, all: Bytes, at: nat, first: Bytes, later: Bytes)
    requires |stored| == HEADER_SIZE + |all| && stored[HEADER_SIZE..] == all
    requires at <= |all| && all[at..] == first + later
    ensures HEADER_SIZE + at + |first| <= |stored|
    ensures stored[HEADER_SIZE + at..HEADER_SIZE + at + |first|] == first
  {
    assert all[at..at + |first|] == first;
  }

  /** Within a batch of whole chunks the records are adjacent. */
  lemma NextInBatch(src: Source, next: nat, end: nat)
    requires src.Valid() && next < end && src.Off(end - 1) < |src.plain|
    ensures src.Off(next) < |src.plain|
    ensures src.RecordEnd(next) <= src.RecordEnd(end - 1)
    ensures next + 1 < end ==> src.RecordEnd(next) == src.RecordStart(next + 1)
  {
    TimesMonotone(next, end - 1, src.chunkSize);
    if next + 1 < end {
      TimesMonotone(next + 1, end - 1, src.chunkSize);
      TimesMonotone(next + 1, end - 1, src.Unit());
    }
  }

  /** What has been produced once all chunks before `i` are done. */
  ghost function Upto(src: Source, pStart: int, pEnd: int, i: nat): Bytes {
    Clip(src.plain, pStart, Min(src.Off(i), pEnd + 1))
  }

  /** subarray: out-of-range bounds are clamped. */
  function Slice(chunk: Bytes, off: int, pStart: int, pEnd: int): Bytes {
    Clip(chunk, pStart - off, pEnd + 1 - off)
  }

  lemma SliceStep(plain: Bytes, off: nat, n: nat, pStart: int, pEnd: int)
    requires off + n <= |plain| && 0 <= pStart
    ensures Clip(plain, pStart, Min(off + n, pEnd + 1))
         == Clip(plain, pStart, Min(off, pEnd + 1)) + Slice(plain[off..off + n], off, pStart, pEnd)
  {
    ClipConcat(plain[..off], plain[off..off + n], pStart, pEnd + 1);
    assert plain[..off] + plain[off..off + n] == plain[..off + n];
    ClipPrefix(plain, off, pStart, pEnd + 1);
    ClipPrefix(plain, off + n, pStart, pEnd + 1);
  }

  lemma ClipPrefix(p: Bytes, m: nat, lo: int, hi: int)
    requires m <= |p|
    ensures Clip(p[..m], lo, hi) == Clip(p, lo, Min(m, hi))
  {
    var a, b := Min(Max(lo, 0), |p|), Min(Max(hi, Max(lo, 0)), |p|);
    if a <= m {
      assert Clip(p[..m], lo, hi) == p[..m][a..Min(b, m)] == p[a..Min(b, m)];
    } else {
      assert Clip(p[..m], lo, hi) == [];
    }
  }

  lemma UptoStep(src: Source, pStart: int, pEnd: int, i: nat)
    requires src.Valid() && src.Off(i) < |src.plain| && 0 <= pStart && pEnd < |src.plain|
    ensures Upto(src, pStart, pEnd, i + 1)
         == Upto(src, pStart, pEnd, i) + Slice(src.ChunkAt(i), src.Off(i), pStart, pEnd)
  {
    SliceStep(src.plain, src.Off(i), src.ChunkLength(i), pStart, pEnd);
  }

  /** Every chunk kept for the cache is that chunk of the plaintext. */
  ghost predicate CacheSound(src: Source, chunks: map<nat, Bytes>) {
    forall i :: i in chunks ==> src.Off(i) < |src.plain| && chunks[i] == src.ChunkAt(i)
  }

  /** The unread part of a fetched batch is exactly the records of chunks `next` to `end - 1`. */
  ghost predicate Cursor(src: Source, stored: Bytes, cipher: Bytes, offset: nat, next: nat, end: nat) {
    && next <= end && offset <= |cipher|
    && if next == end then offset == |cipher|
       else && src.Off(end - 1) < |src.plain|
            && src.RecordStart(next) <= src.RecordEnd(end - 1) <= |stored|
            && cipher[offset..] == stored[src.RecordStart(next)..src.RecordEnd(end - 1)]
  }

  /** The chunk size a header carries, for any five bytes. */
  method ParseHeader(header: Bytes) returns (chunkSize: Option<nat>)
    requires |header| == HEADER_SIZE
    ensures forall n :: chunkSize == Some(n) <==> 0 < n <= MAX_CHUNK_SIZE && header == Header(n)
  {
    FromBigEndianRoundTrip(header[1..]);
    forall n: nat | 0 < n <= MAX_CHUNK_SIZE && header == Header(n)
      ensures header[0] == CRYPTO_VERSION && FromBigEndian(header[1..]) == n
    {
      assert header[1..] == BigEndian(n, 4);
      BigEndianRoundTrip(n, 4);
    }
    if header[0] != CRYPTO_VERSION {
      return None;
    }
    var n := FromBigEndian(header[1..]);
    if n <= 0 || n > MAX_CHUNK_SIZE {
      return None;
    }
    assert header == [header[0]] + header[1..];
    chunkSize := Some(n);
  }

  // ----- The stream -----------------------------------------------------------------------

  class DecryptStream {
    const c: Aead
    const key: Bytes
    const stored: Bytes
    const size: nat
    const pStart: int
    const pEnd: int
    const caching: bool
    ghost const src: Source
    ghost const before: map<nat, Bytes>   // what had been collected for the cache

    var chunkSize: nat              // 0 until the header has been read
    var stopped: bool
    var failed: bool
    var started: bool
    var nextChunk: nat
    var lastChunk: nat
    var cipher: Option<Bytes>
    var cipherOffset: nat
    var ready: seq<Bytes>
    var chunks: map<nat, Bytes>     // the accumulator for the response cache
    ghost var first: nat                  // the first chunk of the range
    ghost var batchEnd: nat
    ghost var sent: Bytes           // everything enqueued so far
    ghost var fetches: seq<(int, int)>

    ghost predicate Served()
      reads this`chunkSize
    {
      && src.Valid() && c == src.c && key == src.key && stored == src.Stored() && size == |src.plain|
      && 0 <= pStart <= pEnd + 1 <= size
      && (chunkSize == 0 || chunkSize == src.chunkSize)
    }

    /** Each request was non-empty, inside the object and bounded, and nothing was requested twice. */
    ghost predicate FetchesBounded()
      reads this`fetches
    {
      && (forall i :: 0 <= i < |fetches| ==>
            0 <= fetches[i].0 <= fetches[i].1 < |stored| && fetches[i].1 - fetches[i].0 + 1 <= CIPHER_FETCH_BYTES)
      && forall i, j :: 0 <= i < j < |fetches| ==> fetches[i].1 < fetches[j].0
    }

    /** What has been requested lies before the place given. */
    ghost predicate FetchedBefore(at: int)
      reads this`fetches
    {
      forall i :: 0 <= i < |fetches| ==> fetches[i].1 < at
    }

    /** Between pulls: the range is fixed and what was sent or is ready is all of it so far. */
    ghost predicate Running()
      reads this
    {
      && pStart <= pEnd && chunkSize == src.chunkSize
      && src.Off(lastChunk) <= pEnd < src.Off(lastChunk + 1) && nextChunk <= lastChunk + 1 && batchEnd <= lastChunk + 1
      && (cipher.Some? ==> Cursor(src, stored, cipher.value, cipherOffset, nextChunk, batchEnd))
      && (cipher == None ==> batchEnd <= nextChunk) && FetchedBefore(src.RecordStart(batchEnd))
      && sent + Flatten(ready) == Upto(src, pStart, pEnd, nextChunk)
    }

    /** The chunks so far have been collected, and nothing else. */
    ghost predicate Collected()
      reads this`started, this`stopped, this`failed, this`chunks, this`nextChunk, this`lastChunk, this`first
    {
      && (!started || !caching ==> chunks == before)
      && (started ==> pStart <= pEnd && first <= nextChunk && src.Off(first) <= pStart < src.Off(first + 1))
      && (started && caching ==> forall i :: i in chunks <==> i in before || first <= i < nextChunk)
      && (started && stopped && !failed ==>
            nextChunk == lastChunk + 1 && src.Off(lastChunk) <= pEnd < src.Off(lastChunk + 1))
    }

    ghost predicate Valid()
      reads this
    {
      && Served() && FetchesBounded() && CacheSound(src, chunks) && Collected() && |ready| <= DECRYPT_WINDOW
      && (stopped && !failed && !started ==> pEnd < pStart)
      && (failed ==> stopped)
      && (started && !stopped ==> Running())
      && (!started && !stopped ==>
            sent == [] && ready == [] && cipher == None && FetchedBefore(HEADER_SIZE)
            && (chunkSize == 0 ==> fetches == []))
      && (stopped && !failed ==> sent == Clip(src.plain, pStart, pEnd + 1))
      && sent <= Clip(src.plain, pStart, pEnd + 1)
    }

    /** Decreases with every pull. */
    ghost function Remaining(): nat
      requires Valid()
      reads this
    {
      if stopped then 0
      else if !started then Max(0, pEnd) + 3
      else lastChunk + 1 - nextChunk + |ready| + 1
    }

    constructor (c: Aead, key: Bytes, stored: Bytes, size: nat, pStart: int, pEnd: int, chunkSize: nat,
                 caching: bool, chunks: map<nat, Bytes>, ghost src: Source)
      requires src.Valid() && c == src.c && key == src.key && stored == src.Stored() && size == |src.plain|
      requires 0 <= pStart <= pEnd + 1 <= size && (chunkSize == 0 || chunkSize == src.chunkSize)
      requires CacheSound(src, chunks)
      ensures Valid() && !stopped && !failed && sent == []
      ensures this.src == src && this.pStart == pStart && this.pEnd == pEnd && this.stored == stored
      ensures this.caching == caching && before == chunks
    {
      this.c, this.key, this.stored, this.size := c, key, stored, size;
      this.pStart, this.pEnd, this.chunkSize, this.caching := pStart, pEnd, chunkSize, caching;
      this.src := src;
      this.chunks, before := chunks, chunks;
      stopped, failed, started := false, false, false;
      nextChunk, lastChunk, cipher, cipherOffset, ready := 0, 0, None, 0, [];
      first, batchEnd, sent, fetches := 0, 0, [], [];
    }

    /** finish(): drops everything that is buffered. */
    method Finish(failure: bool)
      requires Served() && FetchesBounded() && CacheSound(src, chunks)
      requires sent <= Clip(src.plain, pStart, pEnd + 1)
      requires Collected() && !stopped
      requires !failure ==> sent == Clip(src.plain, pStart, pEnd + 1)
      requires !failure && !started ==> pEnd < pStart
      requires !failure && started ==>
                 nextChunk == lastChunk + 1 && src.Off(lastChunk) <= pEnd < src.Off(lastChunk + 1)
      modifies this`stopped, this`failed, this`cipher, this`ready
      ensures Valid() && stopped && failed == failure && cipher == None && ready == []
    {
      hide CacheSound, Lawful, FetchesBounded, Clip, Running;
      stopped, failed := true, failure;
      cipher := None;
      ready := [];
    }

    method FetchBytes(start: int, end: int, network: bool) returns (bytes: Option<Bytes>)
      requires FetchesBounded() && FetchedBefore(start)
      requires 0 <= start <= end < |stored| && end - start + 1 <= CIPHER_FETCH_BYTES
      modifies this`fetches
      ensures FetchesBounded() && fetches == old(fetches) + [(start, end)] && FetchedBefore(end + 1)
      ensures bytes == if network then Some(stored[start..end + 1]) else None
    {
      fetches := fetches + [(start, end)];
      bytes := if network then Some(stored[start..end + 1]) else None;
    }

    /** Reads the header when the metadata did not carry the chunk size. */
    method LearnChunkSize(network: bool) returns (ok: bool)
      requires Valid() && !started && !stopped && pStart <= pEnd
      modifies this`chunkSize, this`fetches
      ensures Served() && FetchesBounded() && ok == (old(chunkSize) != 0 || network)
      ensures ok ==> Valid() && chunkSize == src.chunkSize
    {
      if chunkSize != 0 {
        return true;
      }
      assert stored[..HEADER_SIZE] == Header(src.chunkSize);
      var header := FetchBytes(0, HEADER_SIZE - 1, network);
      if header == None {
        return false;
      }
      var parsed := ParseHeader(header.value);
      assert header.value == Header(src.chunkSize);
      if parsed == None {
        return false;
      }
      chunkSize := parsed.value;
      ok := true;
    }

    /** The first pull fixes the range of chunks. */
    method Start()
      requires Valid() && !started && !stopped && pStart <= pEnd && chunkSize == src.chunkSize
      modifies this`started, this`nextChunk, this`lastChunk, this`batchEnd, this`first
      ensures Valid() && started && nextChunk <= lastChunk && Remaining() < old(Remaining())
    {
      hide CacheSound, Lawful, FetchesBounded, Clip;
      nextChunk, lastChunk := FirstAndLast(pStart, pEnd, chunkSize);
      NothingBeforeStart(src, pStart, pEnd, nextChunk);
      first, batchEnd := nextChunk, 0;
      started := true;
    }

    /** The next batch starts behind everything that has been requested. */
    lemma FetchesFrom()
      requires Valid() && started && !stopped && (cipher.Some? ==> cipherOffset == |cipher.value|)
      ensures FetchedBefore(src.RecordStart(nextChunk)) && (cipher.Some? ==> nextChunk == batchEnd)
    {
      if cipher.Some? {
        CursorInside();
      }
      TimesMonotone(batchEnd, nextChunk, src.Unit());
    }

    lemma FetchedUpTo(last: nat)
      requires FetchedBefore(src.RecordEnd(last))
      ensures FetchedBefore(src.RecordStart(last + 1))
    {
      TimesIsProduct(last, src.Unit());
      TimesIsProduct(last + 1, src.Unit());
      MulSucc(last, src.Unit());
    }

    /** Fetches the ciphertext of as many whole chunks as fit one bounded request. */
    method FetchBatch(network: bool) returns (ok: bool)
      requires Valid() && started && !stopped && ready == [] && nextChunk <= lastChunk
      requires cipher.Some? ==> cipherOffset == |cipher.value|
      modifies this`cipher, this`cipherOffset, this`batchEnd, this`fetches
      ensures Served() && FetchesBounded() && Collected() && ok == network
      ensures ok ==> Valid() && cipher.Some? && cipherOffset == 0 && nextChunk < batchEnd
      ensures ok ==> batchEnd == lastChunk + 1
                     || Times(batchEnd - nextChunk + 1, src.Unit()) > CIPHER_FETCH_BYTES
    {
      hide Cursor, Upto, CacheSound, Lawful, Records, Flatten, Clip, Collected, Times, FetchedBefore,
        FetchesBounded;
      var count := Min(CIPHER_FETCH_BYTES / (chunkSize + NONCE_SIZE + TAG_SIZE), lastChunk - nextChunk + 1);
      var last := nextChunk + count - 1;
      BatchGeometry(src, pEnd, nextChunk, lastChunk, count);
      BatchIsFull(src.Unit(), count, lastChunk - nextChunk + 1);
      var encStart, encEnd := CipherRange(chunkSize, size, nextChunk, last);
      FetchesFrom();
      var bytes := FetchBytes(encStart, encEnd, network);
      if bytes == None {
        return false;
      }
      FreshCursor(src, stored, nextChunk, last, bytes.value);
      cipher := bytes;
      cipherOffset := 0;
      FetchedUpTo(last);
      batchEnd := last + 1;
      ok := true;
    }

    /** Decrypts up to six chunks of the current batch. */
    method DecryptWindow() returns (ok: bool)
      requires Valid() && started && !stopped && ready == [] && nextChunk <= lastChunk
      requires cipher.Some? && nextChunk < batchEnd
      modifies this`cipherOffset, this`nextChunk, this`ready, this`chunks, this`cipher
      ensures Valid() && ok && ready != [] && Remaining() == old(Remaining())
      ensures |ready| == DECRYPT_WINDOW || nextChunk == batchEnd
      ensures cipher == None <==> nextChunk == batchEnd
    {
      hide Upto, CacheSound, Lawful, Records, Flatten, Clip, Collected, Cursor;
      CursorInside();
      while |ready| < DECRYPT_WINDOW && cipherOffset < |cipher.value| && nextChunk <= lastChunk
        invariant Valid() && started && !stopped && cipher.Some?
        invariant nextChunk == old(nextChunk) + |ready|
        invariant ready == [] ==> cipherOffset < |cipher.value|
        decreases lastChunk + 1 - nextChunk
      {
        CursorInside();
        ok := DecryptOne();
      }
      CursorInside();
      if cipherOffset == |cipher.value| {
        cipher := None;
      }
      ok := true;
    }

    /** Exactly before the end of a batch there is ciphertext left. */
    lemma CursorInside()
      requires Valid() && started && !stopped && cipher.Some?
      ensures cipherOffset <= |cipher.value| && (cipherOffset < |cipher.value| <==> nextChunk < batchEnd)
      ensures nextChunk <= batchEnd <= lastChunk + 1
    {
      if nextChunk < batchEnd {
        NextInBatch(src, nextChunk, batchEnd);
        RecordInObject(src, nextChunk);
      }
    }

    /** Opens the record at the cursor. */
    method OpenNext() returns (plain: Option<Bytes>, length: nat)
      requires Served() && chunkSize == src.chunkSize && cipher.Some? && nextChunk < batchEnd
      requires Cursor(src, stored, cipher.value, cipherOffset, nextChunk, batchEnd)
      ensures src.Off(nextChunk) < |src.plain| && plain == Some(src.ChunkAt(nextChunk))
      ensures Cursor(src, stored, cipher.value, cipherOffset + length, nextChunk + 1, batchEnd)
    {
      hide Records, Lawful;
      NextInBatch(src, nextChunk, batchEnd);
      RecordInObject(src, nextChunk);
      length := CipherLength(chunkSize, size, nextChunk);
      CursorSlice(cipher.value, cipherOffset, stored, src.RecordStart(nextChunk), src.RecordEnd(batchEnd - 1), length);
      var bytes := cipher.value[cipherOffset..cipherOffset + length];
      plain := c.open(key, bytes[..NONCE_SIZE], bytes[NONCE_SIZE..], ChunkAad(nextChunk));
    }

    method KeepForCache(i: nat, chunk: Bytes)
      requires CacheSound(src, chunks) && src.Off(i) < |src.plain| && chunk == src.ChunkAt(i)
      modifies this`chunks
      ensures CacheSound(src, chunks)
      ensures chunks == if caching then old(chunks)[i := chunk] else old(chunks)
    {
      if caching {
        chunks := chunks[i := chunk];
      }
    }

    /** One chunk of a window: opened, kept for the cache, and cut to the requested range. */
    method DecryptOne() returns (ok: bool)
      requires Valid() && started && !stopped && nextChunk <= lastChunk && |ready| < DECRYPT_WINDOW
      requires cipher.Some? && nextChunk < batchEnd
      modifies this`cipherOffset, this`nextChunk, this`ready, this`chunks
      ensures Valid() && ok && nextChunk == old(nextChunk) + 1 && |ready| == |old(ready)| + 1
    {
      hide Cursor, Upto, CacheSound, Lawful, Flatten, Slice, FetchesBounded, Records, Clip, FetchedBefore;
      var plain, length := OpenNext();
      if plain == None {
        return false;
      }
      var slice := CutToRange(plain.value, nextChunk, chunkSize, pStart, pEnd);
      ReadyGrows(src, pStart, pEnd, nextChunk, sent, ready, slice);
      KeepForCache(nextChunk, plain.value);
      ready := ready + [slice];
      cipherOffset := cipherOffset + length;
      nextChunk := nextChunk + 1;
      ok := true;
    }

    /** Fills `ready`: fetches a batch if none is left over, then decrypts a window of it. */
    method Refill(network: bool) returns (ok: bool)
      requires Valid() && started && !stopped && ready == [] && nextChunk <= lastChunk
      modifies this`cipher, this`cipherOffset, this`batchEnd, this`fetches, this`nextChunk, this`ready, this`chunks
      ensures Served() && FetchesBounded() && CacheSound(src, chunks) && Collected()
      ensures !ok ==> !network
      ensures ok ==> Valid() && ready != [] && Remaining() == old(Remaining())
    {
      hide Upto, CacheSound, Lawful, Records, Flatten, Clip;
      if cipher == None || cipherOffset == |cipher.value| {
        var fetched := FetchBatch(network);
        if !fetched {
          return false;
        }
      }
      ok := DecryptWindow();
    }

    /** Hands the next slice to the browser, and closes the stream behind the last one. */
    method Enqueue() returns (slice: Bytes)
      requires Valid() && started && !stopped && ready != []
      modifies this`sent, this`ready, this`stopped, this`failed, this`cipher
      ensures Valid() && !failed && sent == old(sent) + slice && Remaining() < old(Remaining())
      ensures stopped <==> |old(ready)| == 1 && nextChunk > lastChunk
    {
      hide Cursor, Upto, CacheSound, Lawful, Records, Flatten, Clip;
      slice := ready[0];
      SendFirst(src, pStart, pEnd, nextChunk, sent, ready);
      sent := sent + slice;
      ready := ready[1..];
      if ready == [] && nextChunk > lastChunk {
        AllSent(src, pStart, pEnd, nextChunk, sent);
        Finish(false);
      }
    }

    method Deliver(network: bool) returns (slice: Option<Bytes>)
      requires Valid() && started && !stopped
      modifies this
      ensures Valid() && Remaining() < old(Remaining())
      ensures sent == if slice.Some? then old(sent) + slice.value else old(sent)
      ensures failed ==> !network
    {
      hide Cursor, Upto, CacheSound, Lawful, Records, Flatten, Clip;
      if ready == [] {
        if nextChunk > lastChunk {
          AllSent(src, pStart, pEnd, nextChunk, sent);
          Finish(false);
          return None;
        }
        var ok := Refill(network);
        if !ok {
          Finish(true);
          return None;
        }
      }
      var first := Enqueue();
      slice := Some(first);
    }

    /**
     pull(): one slice, or the end of the stream. The two flags say whether a fetch of the header
     and of a batch would succeed; nothing else can make the stream fail.
     */
    method Pull(headerOk: bool, batchOk: bool) returns (slice: Option<Bytes>)
      requires Valid()
      modifies this
      ensures Valid()
      ensures sent == if slice.Some? then old(sent) + slice.value else old(sent)
      ensures old(stopped) ==> stopped && slice == None && failed == old(failed)
      ensures !old(stopped) ==> Remaining() < old(Remaining()) && (failed ==> !headerOk || !batchOk)
    {
      hide Cursor, Upto, CacheSound, Lawful, Records, Flatten;
      if stopped {
        return None;
      }
      if pEnd < pStart {
        Finish(false);
        return None;
      }
      if !started {
        var ok := LearnChunkSize(headerOk);
        if !ok {
          Finish(true);
          return None;
        }
        Start();
      }
      slice := Deliver(batchOk);
    }

    /** A stream that has not been failed has collected exactly the chunks that meet its range. */
    lemma AllCollected()
      requires Valid() && stopped && !failed && caching
      ensures forall i :: i in chunks <==> i in before || Meets(src, pStart, pEnd, i)
    {
      hide CacheSound, Running, Lawful, Meets, FetchesBounded;
      MeetingChunks(src, pStart, pEnd, first, lastChunk, started);
    }
  }

  /** Moving the cursor inside a fetched slice of the object. */
  lemma CursorSlice(cipher: Bytes, offset: nat, stored: Bytes, at: nat, end: nat, length: nat)
    requires offset <= |cipher| && at <= end <= |stored| && cipher[offset..] == stored[at..end]
    requires at + length <= end
    ensures offset + length <= |cipher|
    ensures cipher[offset..offset + length] == stored[at..at + length]
    ensures cipher[offset + length..] == stored[at + length..end]
    ensures at + length == end ==> offset + length == |cipher|
  {
    assert |cipher| - offset == end - at;
    assert cipher[offset..][..length] == cipher[offset..offset + length];
    assert stored[at..end][..length] == stored[at..at + length];
    assert cipher[offset..][length..] == cipher[offset + length..];
    assert stored[at..end][length..] == stored[at + length..end];
  }

  lemma FreshCursor(src: Source, stored: Bytes, next: nat, last: nat, bytes: Bytes)
    requires next <= last && src.Off(last) < |src.plain|
    requires src.RecordStart(next) < src.RecordEnd(last) <= |stored|
    requires bytes == stored[src.RecordStart(next)..src.RecordEnd(last)]
    ensures Cursor(src, stored, bytes, 0, next, last + 1)
  {
    assert bytes[0..] == bytes;
  }

  /** A batch is a bounded, non-empty range inside the object. */
  lemma BatchGeometry(src: Source, pEnd: nat, next: nat, lastChunk: nat, count: int)
    requires src.Valid() && src.Off(lastChunk) <= pEnd < |src.plain| && next <= lastChunk
    requires count == Min(CIPHER_FETCH_BYTES / src.Unit(), lastChunk - next + 1)
    ensures count >= 1
    ensures src.Off(next + count - 1) < |src.plain|
    ensures 0 <= src.RecordStart(next) < src.RecordEnd(next + count - 1) <= |src.Stored()|
    ensures src.RecordEnd(next + count - 1) - src.RecordStart(next) <= CIPHER_FETCH_BYTES
  {
    BatchCount(src.Unit());
    var last := next + count - 1;
    TimesMonotone(last, lastChunk, src.chunkSize);
    RecordInObject(src, last);
    TimesIsProduct(next, src.Unit());
    TimesIsProduct(last, src.Unit());
    BatchBytes(src.Unit(), next, count);
  }

  /** One chunk more would not fit a batch, or there is none. */
  lemma BatchIsFull(unit: nat, count: int, rest: nat)
    requires unit > 0 && count == Min(CIPHER_FETCH_BYTES / unit, rest) >= 1
    ensures count == rest || Times(count + 1, unit) > CIPHER_FETCH_BYTES
  {
    QuotientBounds(CIPHER_FETCH_BYTES, unit);
    TimesIsProduct(count + 1, unit);
  }

  lemma BatchBytes(unit: nat, next: nat, count: nat)
    requires 0 < unit <= MAX_CHUNK_SIZE + OVERHEAD && 1 <= count <= CIPHER_FETCH_BYTES / unit
    ensures 0 <= next * unit <= (next + count - 1) * unit
    ensures (next + count - 1) * unit + unit - next * unit <= CIPHER_FETCH_BYTES
  {
    BatchCount(unit);
    MulMonotone(next, next + count - 1, unit);
    assert (next + count - 1) * unit == next * unit + (count - 1) * unit;
    MulMonotone(count, CIPHER_FETCH_BYTES / unit, unit);
    MulSucc(count - 1, unit);
  }

  lemma BatchCount(unit: nat)
    requires 0 < unit <= MAX_CHUNK_SIZE + OVERHEAD
    ensures CIPHER_FETCH_BYTES / unit >= 1
    ensures CIPHER_FETCH_BYTES / unit * unit <= CIPHER_FETCH_BYTES
  {
    var q, r := CIPHER_FETCH_BYTES / unit, CIPHER_FETCH_BYTES % unit;
    assert CIPHER_FETCH_BYTES == q * unit + r;
    if q < 1 {
      MulMonotone(q, 0, unit);
    }
  }

  lemma SendFirst(src: Source, pStart: int, pEnd: int, i: nat, sent: Bytes, ready: seq<Bytes>)
    requires ready != [] && sent + Flatten(ready) == Upto(src, pStart, pEnd, i)
    ensures sent + ready[0] + Flatten(ready[1..]) == Upto(src, pStart, pEnd, i)
    ensures sent + ready[0] <= Clip(src.plain, pStart, pEnd + 1)
  {
    FlattenFirst(ready);
    Assoc(sent, ready[0], Flatten(ready[1..]));
    ClipGrows(src.plain, pStart, Min(src.Off(i), pEnd + 1), pEnd + 1);
  }

  lemma ClipGrows(p: Bytes, lo: int, m: int, hi: int)
    requires m <= hi
    ensures Clip(p, lo, m) <= Clip(p, lo, hi)
  {
  }

  lemma AllSent(src: Source, pStart: int, pEnd: int, i: nat, sent: Bytes)
    requires sent + Flatten([]) == Upto(src, pStart, pEnd, i) && pEnd < src.Off(i)
    ensures sent == Clip(src.plain, pStart, pEnd + 1)
  {
  }

  method CipherLength(chunkSize: nat, size: nat, i: nat) returns (length: int)
    ensures length == Min(chunkSize, size - Times(i, chunkSize)) + OVERHEAD
  {
    TimesIsProduct(i, chunkSize);
    var plainLength := Min(chunkSize, size - i * chunkSize);
    length := plainLength + NONCE_SIZE + TAG_SIZE;
  }

  method CutToRange(chunk: Bytes, i: nat, chunkSize: nat, pStart: int, pEnd: int) returns (slice: Bytes)
    ensures slice == Slice(chunk, Times(i, chunkSize), pStart, pEnd)
  {
    TimesIsProduct(i, chunkSize);
    slice := Slice(chunk, i * chunkSize, pStart, pEnd);
  }

  lemma ReadyGrows(src: Source, pStart: int, pEnd: int, i: nat, sent: Bytes, ready: seq<Bytes>, slice: Bytes)
    requires src.Valid() && src.Off(i) < |src.plain| && 0 <= pStart && pEnd < |src.plain|
    requires sent + Flatten(ready) == Upto(src, pStart, pEnd, i)
    requires slice == Slice(src.ChunkAt(i), src.Off(i), pStart, pEnd)
    ensures sent + Flatten(ready + [slice]) == Upto(src, pStart, pEnd, i + 1)
  {
    UptoStep(src, pStart, pEnd, i);
    assert (ready + [slice])[..|ready|] == ready;
    Assoc(sent, Flatten(ready), slice);
  }

  method FirstAndLast(pStart: nat, pEnd: nat, chunkSize: nat) returns (first: nat, last: nat)
    requires pStart <= pEnd && chunkSize > 0
    ensures first <= last <= pEnd && Times(first, chunkSize) <= pStart < Times(first + 1, chunkSize)
    ensures Times(last, chunkSize) <= pEnd < Times(last + 1, chunkSize)
  {
    RangeInChunks(pStart, pEnd, chunkSize);
    first, last := pStart / chunkSize, pEnd / chunkSize;
    TimesIsProduct(first, chunkSize);
    TimesIsProduct(first + 1, chunkSize);
    TimesIsProduct(last, chunkSize);
    TimesIsProduct(last + 1, chunkSize);
  }

  lemma NothingBeforeStart(src: Source, pStart: nat, pEnd: nat, first: nat)
    requires src.Off(first) <= pStart
    ensures Upto(src, pStart, pEnd, first) == []
  {
  }

  /** The inclusive byte range of the records of chunks `first` to `last`. */
  method CipherRange(chunkSize: nat, size: nat, first: nat, last: nat) returns (start: int, end: int)
    ensures start == HEADER_SIZE + Times(first, chunkSize + OVERHEAD)
    ensures end == HEADER_SIZE + Times(last, chunkSize + OVERHEAD)
                   + Min(chunkSize, size - Times(last, chunkSize)) + OVERHEAD - 1
  {
    var encChunk := chunkSize + NONCE_SIZE + TAG_SIZE;
    TimesIsProduct(first, encChunk);
    TimesIsProduct(last, encChunk);
    TimesIsProduct(last, chunkSize);
    start := HEADER_SIZE + first * encChunk;
    var plainEnd := Min(chunkSize, size - last * chunkSize);
    end := HEADER_SIZE + last * encChunk + plainEnd + NONCE_SIZE + TAG_SIZE - 1;
  }

  lemma RangeInChunks(pStart: nat, pEnd: nat, chunkSize: nat)
    requires pStart <= pEnd && chunkSize > 0
    ensures pStart / chunkSize <= pEnd / chunkSize <= pEnd
    ensures pStart / chunkSize * chunkSize <= pStart < (pStart / chunkSize + 1) * chunkSize
    ensures pEnd / chunkSize * chunkSize <= pEnd < (pEnd / chunkSize + 1) * chunkSize
  {
    QuotientBounds(pStart, chunkSize);
    QuotientBounds(pEnd, chunkSize);
    var first, last := pStart / chunkSize, pEnd / chunkSize;
    if last < first {
      MulMonotone(last + 1, first, chunkSize);
    }
    if pEnd < last {
      MulMonotone(pEnd + 1, last, chunkSize);
      MulMonotone(1, chunkSize, pEnd + 1);
    }
  }

  lemma QuotientBounds(a: nat, b: nat)
    requires b > 0
    ensures a / b * b <= a < (a / b + 1) * b
  {
    var q, r := a / b, a % b;
    assert a == q * b + r;
    MulSucc(q, b);
  }

  // ----- A whole response -----------------------------------------------------------------

  /**
   Pulling until the stream closes. Whatever the network does the slices are a prefix of the
   requested plaintext; if the stream was not failed by a fetch they are all of it. Every request
   was a non-empty range inside the object of at most 4 MiB. What is kept for the cache is
   plaintext: what was kept before, and if the file is cacheable and the stream was not failed exactly
   the chunks that meet the range.
   */
  method Respond(c: Aead, key: Bytes, stored: Bytes, size: nat, pStart: int, pEnd: int, chunkSize: nat,
                 caching: bool, chunks: map<nat, Bytes>, network: nat -> (bool, bool), ghost src: Source)
    returns (body: seq<Bytes>, ok: bool, kept: map<nat, Bytes>, ghost fetches: seq<(int, int)>)
    requires src.Valid() && c == src.c && key == src.key && stored == src.Stored() && size == |src.plain|
    requires 0 <= pStart <= pEnd + 1 <= size && (chunkSize == 0 || chunkSize == src.chunkSize)
    requires CacheSound(src, chunks)
    ensures Flatten(body) <= src.plain[pStart..pEnd + 1]
    ensures ok ==> Flatten(body) == src.plain[pStart..pEnd + 1]
    ensures (forall i :: network(i) == (true, true)) ==> ok
    ensures forall i :: 0 <= i < |fetches| ==>
              0 <= fetches[i].0 <= fetches[i].1 < |stored| && fetches[i].1 - fetches[i].0 + 1 <= CIPHER_FETCH_BYTES
    ensures forall i, j :: 0 <= i < j < |fetches| ==> fetches[i].1 < fetches[j].0
    ensures CacheSound(src, kept) && (!caching ==> kept == chunks) && (forall i :: i in chunks ==> i in kept)
    ensures ok && caching ==> forall i :: i in kept <==> i in chunks || Meets(src, pStart, pEnd, i)
  {
    var stream := new DecryptStream(c, key, stored, size, pStart, pEnd, chunkSize, caching, chunks, src);
    body := [];
    var pulls := 0;
    while !stream.stopped
      invariant fresh(stream) && stream.Valid() && stream.sent == Flatten(body)
      invariant stream.src == src && stream.pStart == pStart && stream.pEnd == pEnd
      invariant stream.caching == caching && stream.before == chunks
      invariant stream.failed ==> exists i :: network(i) != (true, true)
      decreases stream.Remaining()
    {
      hide Cursor, Upto, CacheSound, Lawful, Records, Clip;
      var (headerOk, batchOk) := network(pulls);
      var slice := stream.Pull(headerOk, batchOk);
      if slice.Some? {
        assert (body + [slice.value])[..|body|] == body;
        body := body + [slice.value];
      }
      pulls := pulls + 1;
    }
    assert Clip(src.plain, pStart, pEnd + 1) == src.plain[pStart..pEnd + 1];
    ok := !stream.failed;
    kept := stream.chunks;
    if ok && caching {
      stream.AllCollected();
    }
    fetches := stream.fetches;
  }

  /** Some byte of the chunk lies in the range. */
  ghost predicate Meets(src: Source, pStart: int, pEnd: int, i: nat) {
    src.Off(i) <= pEnd && pStart < src.Off(i + 1) && pStart <= pEnd
  }

  /** The chunks that meet the range are those from the one its start lies in to the one its end lies in. */
  lemma MeetingChunks(src: Source, pStart: int, pEnd: int, first: nat, last: nat, started: bool)
    requires src.Valid() && (!started ==> pEnd < pStart)
    requires started ==> src.Off(first) <= pStart < src.Off(first + 1) && src.Off(last) <= pEnd < src.Off(last + 1)
    requires started ==> pStart <= pEnd
    ensures started ==> forall i: nat :: Meets(src, pStart, pEnd, i) <==> first <= i <= last
    ensures !started ==> forall i: nat :: !Meets(src, pStart, pEnd, i)
  {
    forall i: nat | started
      ensures Meets(src, pStart, pEnd, i) <==> first <= i <= last
    {
      if i < first {
        TimesMonotone(i + 1, first, src.chunkSize);
      } else {
        TimesMonotone(first + 1, i + 1, src.chunkSize);
      }
      if last < i {
        TimesMonotone(last + 1, i, src.chunkSize);
      } else {
        TimesMonotone(i, last, src.chunkSize);
      }
    }
  }

  // ----- The response cache ---------------------------------------------------------------

  /** What has been collected of a file so far, by all streams of it. */
  datatype Accum = Accum(chunks: map<nat, Bytes>, totalChunks: nat)

  ghost predicate AccumSound(src: Source, acc: Accum)
    requires src.Valid()
  {
    CacheSound(src, acc.chunks) && acc.totalChunks == CeilDiv(|src.plain|, src.chunkSize)
  }

  /**
   tryFlushAccum: what has been collected under the hash is written to the cache exactly when every
   chunk of the file has been decrypted, by one stream or by several, and the entry has not been
   closed; what is written is the plaintext, and it is no longer collected. Otherwise the collection
   stays, and in either case those of other files.
   */
  method TryFlush(accums: map<string, Accum>, hash: string, closed: bool, ghost src: Source)
    returns (after: map<string, Accum>, cached: Option<Bytes>)
    requires src.Valid() && (hash in accums ==> AccumSound(src, accums[hash]))
    ensures cached.Some? <==>
              hash in accums && !closed && forall i :: src.Off(i) < |src.plain| ==> i in accums[hash].chunks
    ensures cached.Some? ==> cached.value == src.plain
    ensures after == if cached.Some? then accums - {hash} else accums
  {
    after := accums;
    if hash !in accums {
      return after, None;
    }
    var chunks, totalChunks := accums[hash].chunks, accums[hash].totalChunks;
    AllChunks(src, chunks, totalChunks);
    if |chunks| != totalChunks || closed {
      return after, None;
    }
    var blob: Bytes := [];
    var i := 0;
    while i < totalChunks
      invariant i <= totalChunks
      invariant blob == src.plain[..Min(src.Off(i), |src.plain|)]
    {
      hide Lawful, Records, CacheSound;
      ChunkExists(src, i, totalChunks);
      KeptChunk(src, chunks, i);
      if i !in chunks {
        return after, None;
      }
      blob := blob + chunks[i];
      i := i + 1;
    }
    ChunkExists(src, totalChunks, totalChunks);
    after := accums - {hash};
    cached := Some(blob);
  }

  /**
   A response to the whole of a cacheable file that is not failed by a fetch, and the flush at its
   end: the plaintext is written to the cache, whatever had been collected before.
   */
  method RespondAndFlush(c: Aead, key: Bytes, stored: Bytes, size: nat, chunkSize: nat, acc: Accum, hash: string,
                         network: nat -> (bool, bool), ghost src: Source)
    returns (body: seq<Bytes>, ok: bool, cached: Option<Bytes>)
    requires src.Valid() && c == src.c && key == src.key && stored == src.Stored() && size == |src.plain|
    requires (chunkSize == 0 || chunkSize == src.chunkSize) && AccumSound(src, acc) && size > 0
    ensures ok ==> Flatten(body) == src.plain && cached == Some(src.plain)
    ensures (forall i :: network(i) == (true, true)) ==> ok
  {
    hide CacheSound, Lawful, Records, Flatten;
    var kept;
    ghost var fetches;
    body, ok, kept, fetches := Respond(c, key, stored, size, 0, size - 1, chunkSize, true, acc.chunks, network, src);
    var after;
    after, cached := TryFlush(map[hash := Accum(kept, acc.totalChunks)], hash, false, src);
    if ok {
      forall i: nat | src.Off(i) < |src.plain|
        ensures i in kept
      {
        ChunksAreNotEmpty(src, i);
        assert Meets(src, 0, size - 1, i);
      }
      assert src.plain[0..size] == src.plain;
    }
  }

  lemma ChunksAreNotEmpty(src: Source, i: nat)
    requires src.Valid()
    ensures 0 <= src.Off(i) < src.Off(i + 1)
  {
    TimesMonotone(0, i, src.chunkSize);
  }

  /** A kept chunk continues the plaintext where the chunks before it end. */
  lemma KeptChunk(src: Source, chunks: map<nat, Bytes>, i: nat)
    requires CacheSound(src, chunks) && src.Off(i) < |src.plain|
    ensures i in chunks ==>
              src.plain[..Min(src.Off(i), |src.plain|)] + chunks[i]
              == src.plain[..Min(src.Off(i + 1), |src.plain|)]
  {
  }

  lemma ChunkExists(src: Source, i: nat, totalChunks: nat)
    requires src.Valid() && totalChunks == CeilDiv(|src.plain|, src.chunkSize)
    ensures i < totalChunks <==> src.Off(i) < |src.plain|
  {
    CeilDivAtMost(|src.plain|, src.chunkSize, i);
    TimesIsProduct(i, src.chunkSize);
  }

  /** As many chunks as the file has can only be all of them. */
  lemma AllChunks(src: Source, chunks: map<nat, Bytes>, totalChunks: nat)
    requires src.Valid() && CacheSound(src, chunks) && totalChunks == CeilDiv(|src.plain|, src.chunkSize)
    ensures |chunks| == totalChunks <==> forall i :: src.Off(i) < |src.plain| ==> i in chunks
  {
    forall i: nat
      ensures i < totalChunks <==> src.Off(i) < |src.plain|
    {
      ChunkExists(src, i, totalChunks);
    }
    var all := Below(totalChunks);
    assert chunks.Keys <= all;
    if forall i :: src.Off(i) < |src.plain| ==> i in chunks {
      assert chunks.Keys == all;
    }
    if |chunks| == totalChunks {
      FullSubset(chunks.Keys, all);
    }
  }

  // ----- Ranges of a request --------------------------------------------------------------

  const MAX_SAFE_INTEGER := 9007199254740991
  const MEDIA_RANGE_BYTES := 4194304

  /** The two numbers of a "bytes=first-last" header that matched; either may be absent. */
  datatype RangeSpec = RangeSpec(first: Option<nat>, last: Option<nat>)

  /** The positions the header names, as the HTTP semantics give them. */
  ghost predicate Names(spec: RangeSpec, size: nat, i: int) {
    0 <= i < size
    && match spec.first
       case Some(first) => first <= i && (spec.last.Some? ==> i <= spec.last.value)
       case None => spec.last.Some? && size - spec.last.value <= i
  }

  predicate Safe(spec: RangeSpec) {
    && (spec.first.Some? ==> spec.first.value <= MAX_SAFE_INTEGER)
    && (spec.last.Some? ==> spec.last.value <= MAX_SAFE_INTEGER)
  }

  /**
   parseRange: the bounds returned select exactly the positions the header names, and a header is
   refused exactly when it names none or carries a number outside the exact range.
   */
  method ParseRange(spec: RangeSpec, totalSize: nat) returns (bounds: Option<(nat, nat)>)
    requires totalSize <= MAX_SAFE_INTEGER
    ensures bounds.Some? ==> bounds.value.0 <= bounds.value.1 < totalSize
    ensures bounds.Some? ==> forall i :: Names(spec, totalSize, i) <==> bounds.value.0 <= i <= bounds.value.1
    ensures bounds == None <==> !Safe(spec) || !exists i :: Names(spec, totalSize, i)
  {
    if spec.first == None && spec.last == None {
      return None;
    }
    var start, end;
    if spec.first == None {
      var count := spec.last.value;
      if count > MAX_SAFE_INTEGER || count <= 0 {
        return None;
      }
      start := Max(0, totalSize - count);
      end := totalSize - 1;
    } else {
      start := spec.first.value;
      end := if spec.last.Some? then spec.last.value else totalSize - 1;
    }
    if start > MAX_SAFE_INTEGER || end > MAX_SAFE_INTEGER || start > end || start >= totalSize {
      return None;
    }
    assert Names(spec, totalSize, start);
    bounds := Some((start, Min(end, totalSize - 1)));
  }

  /**
   The bounds a response is streamed with: they always satisfy what the stream needs, and a
   bounded media response is a non-empty prefix of the range asked for.
   */
  method ResponseBounds(range: Option<RangeSpec>, size: nat, media: bool) returns (bounds: Option<(int, int)>)
    requires size <= MAX_SAFE_INTEGER
    ensures bounds.Some? ==> 0 <= bounds.value.0 <= bounds.value.1 + 1 <= size
    ensures range == None ==> bounds == Some((0, size - 1))
    ensures range.Some? ==> (bounds.Some? <==> Safe(range.value) && exists i :: Names(range.value, size, i))
    ensures range.Some? && bounds.Some? ==>
              forall i :: bounds.value.0 <= i <= bounds.value.1 <==>
                          && Names(range.value, size, i)
                          && (media ==> i < bounds.value.0 + MEDIA_RANGE_BYTES)
    ensures range.Some? && bounds.Some? ==> bounds.value.0 <= bounds.value.1
  {
    if range == None {
      return Some((0, size - 1));
    }
    var parsed := ParseRange(range.value, size);
    if parsed == None {
      return None;
    }
    var (start, end) := parsed.value;
    bounds := Some((start, if media then Min(end, start + MEDIA_RANGE_BYTES - 1) else end));
  }
}
