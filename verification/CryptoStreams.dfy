/**
 The three stream operations of crypto.go over a reader and a writer object, and what they
 promise each other: decryption undoes encryption, and a range is a slice of the whole.
 */
module CryptoStreams {
  import opened Wrappers
  import opened Arithmetic
  import opened ChunkFormat

  // ----- Readers and writers --------------------------------------------------------------

  datatype ReadStatus = Full | Eof | Short | Failed

  /** io.ReadFull on the remaining bytes of a reader that ends cleanly or in an error. */
  function ReadFullOf(rest: Bytes, broken: bool, n: nat): (Bytes, Bytes, ReadStatus) {
    if n <= |rest| then (rest[..n], rest[n..], Full)
    else (rest, [], if broken then Failed else if rest == [] then Eof else Short)
  }

  class Reader {
    const broken: bool
    var rest: Bytes

    constructor (data: Bytes, broken: bool)
      ensures rest == data && this.broken == broken
    {
      rest := data;
      this.broken := broken;
    }

    method ReadFull(n: nat) returns (got: Bytes, status: ReadStatus)
      modifies this
      ensures (got, rest, status) == ReadFullOf(old(rest), broken, n)
    {
      if n <= |rest| {
        got, rest, status := rest[..n], rest[n..], Full;
      } else {
        status := if broken then Failed else if rest == [] then Eof else Short;
        got, rest := rest, [];
      }
    }
  }

  /** What a writer that takes no more than `room` bytes has taken of these. */
  function Accepted(room: Option<nat>, data: Bytes): Bytes {
    if HasRoom(room, data) then data else data[..room.value]
  }

  predicate HasRoom(room: Option<nat>, data: Bytes) {
    room.Some? ==> |data| <= room.value
  }

  /** What comes after a failed write makes no difference. */
  lemma AcceptedFirst(room: Option<nat>, a: Bytes, b: Bytes)
    ensures !HasRoom(room, a) ==> !HasRoom(room, a + b) && Accepted(room, a + b) == Accepted(room, a)
  {
  }

  /** A writer that fails at any chosen byte, or never; a failing write has taken what came before that byte. */
  class Writer {
    const room: Option<nat>
    var written: Bytes

    predicate Valid()
      reads this
    {
      HasRoom(room, written)
    }

    constructor (room: Option<nat>)
      ensures Valid() && written == [] && this.room == room
    {
      written := [];
      this.room := room;
    }

    method Write(data: Bytes) returns (ok: bool)
      requires Valid()
      modifies this
      ensures Valid() && written == Accepted(room, old(written) + data)
      ensures ok == HasRoom(room, old(written) + data)
    {
      ok := HasRoom(room, written + data);
      written := Accepted(room, written + data);
    }
  }

  datatype Error =
    | HeaderUnreadable | UnsupportedVersion(v: Byte) | ReadError | WriteError | AuthenticationFailed(chunk: nat)

  type Result = Option<Error> // None is success

  lemma Assoc(a: Bytes, b: Bytes, c: Bytes)
    ensures (a + b) + c == a + (b + c)
  {
  }

  // ----- Encryption -----------------------------------------------------------------------

  method WriteRecord(c: Aead, key: Bytes, nonces: nat -> Nonce, index: nat, p: Bytes, w: Writer) returns (ok: bool)
    requires w.Valid()
    modifies w
    ensures w.Valid() && w.written == Accepted(w.room, old(w.written) + Record(c, key, nonces, index, p))
    ensures ok == HasRoom(w.room, old(w.written) + Record(c, key, nonces, index, p))
  {
    ghost var sealed := c.seal(key, nonces(index), p, ChunkAad(index));
    Assoc(w.written, nonces(index), sealed);
    AcceptedFirst(w.room, w.written + nonces(index), sealed);
    ok := w.Write(nonces(index));
    if ok {
      ok := w.Write(c.seal(key, nonces(index), p, ChunkAad(index)));
    }
  }

  /**
   EncryptStream: the object of all that can be read is written, as far as the writer takes it. The
   writer's failure is what is reported if there is one, else the reader's.
   */
  method EncryptStream(c: Aead, key: Bytes, nonces: nat -> Nonce, r: Reader, w: Writer) returns (err: Result)
    requires w.Valid()
    modifies r, w
    ensures w.Valid()
    ensures var goal := old(w.written) + Object(c, key, nonces, DEFAULT_CHUNK_SIZE, old(r.rest));
            && w.written == Accepted(w.room, goal)
            && err == if !HasRoom(w.room, goal) then Some(WriteError) else if r.broken then Some(ReadError) else None
  {
    ghost var start, records := w.written, Records(c, key, nonces, DEFAULT_CHUNK_SIZE, 0, r.rest);
    ghost var goal := (start + Header(DEFAULT_CHUNK_SIZE)) + records;
    Assoc(start, Header(DEFAULT_CHUNK_SIZE), records);
    AcceptedFirst(w.room, start + Header(DEFAULT_CHUNK_SIZE), records);
    var ok := w.Write(Header(DEFAULT_CHUNK_SIZE));
    if !ok {
      return Some(WriteError);
    }
    var chunkIdx := 0;
    while true
      invariant w.Valid() && goal == w.written + Records(c, key, nonces, DEFAULT_CHUNK_SIZE, chunkIdx, r.rest)
      decreases |r.rest|
    {
      hide Accepted, HasRoom;
      ghost var before := r.rest;
      var n, status := r.ReadFull(DEFAULT_CHUNK_SIZE);
      if |n| > 0 {
        assert before == n + r.rest;
        FirstRecord(c, key, nonces, chunkIdx, n, r.rest, w.written);
        AcceptedFirst(w.room, w.written + Record(c, key, nonces, chunkIdx, n),
                      Records(c, key, nonces, DEFAULT_CHUNK_SIZE, chunkIdx + 1, r.rest));
        AcceptedWhole(w.room, w.written + Record(c, key, nonces, chunkIdx, n));
        ok := WriteRecord(c, key, nonces, chunkIdx, n, w);
        if !ok {
          return Some(WriteError);
        }
        chunkIdx := chunkIdx + 1;
      }
      if status != Full {
        assert w.written + [] == goal;
        AcceptedWhole(w.room, goal);
      }
      if status == Eof || status == Short {
        return None;
      }
      if status == Failed {
        return Some(ReadError);
      }
    }
  }

  lemma AcceptedWhole(room: Option<nat>, data: Bytes)
    ensures HasRoom(room, data) ==> Accepted(room, data) == data
  {
  }

  lemma FirstRecord(c: Aead, key: Bytes, nonces: nat -> Nonce, index: nat, n: Bytes, rest: Bytes, out: Bytes)
    requires 0 < |n| <= DEFAULT_CHUNK_SIZE && (|n| < DEFAULT_CHUNK_SIZE ==> rest == [])
    ensures out + Records(c, key, nonces, DEFAULT_CHUNK_SIZE, index, n + rest)
         == (out + Record(c, key, nonces, index, n)) + Records(c, key, nonces, DEFAULT_CHUNK_SIZE, index + 1, rest)
  {
    var k := Min(DEFAULT_CHUNK_SIZE, |n + rest|);
    assert (n + rest)[..k] == n && (n + rest)[k..] == rest;
    Assoc(out, Record(c, key, nonces, index, n), Records(c, key, nonces, DEFAULT_CHUNK_SIZE, index + 1, rest));
  }

  // ----- Decryption -----------------------------------------------------------------------

  datatype Step =
    | Stop(err: Result)                 // nothing more to decrypt, or an error
    | Chunk(plain: Bytes, last: bool)   // a chunk; `last` if the stream ended inside its record

  /** Reading and opening one record. */
  function NextChunk(c: Aead, key: Bytes, chunkSize: nat, index: nat, data: Bytes, broken: bool): (r: (Step, Bytes))
    ensures r.0.Chunk? && !r.0.last ==> |r.1| < |data|
  {
    var (nonce, body, status) := ReadFullOf(data, broken, NONCE_SIZE);
    if status == Eof || status == Short then (Stop(None), body)
    else if status == Failed then (Stop(Some(ReadError)), body)
    else
      var (ciphertext, rest, bodyStatus) := ReadFullOf(body, broken, chunkSize + TAG_SIZE);
      if bodyStatus == Eof || bodyStatus == Failed then (Stop(Some(ReadError)), rest)
      else match c.open(key, nonce, ciphertext, ChunkAad(index))
        case None => (Stop(Some(AuthenticationFailed(index))), rest)
        case Some(p) => (Chunk(p, bodyStatus == Short), rest)
  }

  /** What decrypting records, numbered from `index`, yields before it stops, and why it stops. */
  function Decoded(c: Aead, key: Bytes, chunkSize: nat, index: nat, data: Bytes, broken: bool): (Bytes, Result)
    decreases |data|
  {
    match NextChunk(c, key, chunkSize, index, data, broken)
    case (Stop(err), _) => ([], err)
    case (Chunk(p, last), rest) =>
      if last then (p, None)
      else var (ps, err) := Decoded(c, key, chunkSize, index + 1, rest, broken); (p + ps, err)
  }

  /** Decoding never ends well when the reader fails, whatever bytes came before. */
  lemma {:induction false} BrokenFails(c: Aead, key: Bytes, chunkSize: nat, index: nat, data: Bytes)
    ensures Decoded(c, key, chunkSize, index, data, true).1.Some?
    decreases |data|
  {
    var (step, rest) := NextChunk(c, key, chunkSize, index, data, true);
    if step.Chunk? && !step.last {
      BrokenFails(c, key, chunkSize, index + 1, rest);
    }
  }

  method ReadChunk(c: Aead, key: Bytes, r: Reader, chunkSz: nat, chunkIdx: nat) returns (step: Step)
    modifies r
    ensures (step, r.rest) == NextChunk(c, key, chunkSz, chunkIdx, old(r.rest), r.broken)
  {
    var nonce, nonceStatus := r.ReadFull(NONCE_SIZE);
    if nonceStatus == Eof || nonceStatus == Short {
      return Stop(None);
    }
    if nonceStatus == Failed {
      return Stop(Some(ReadError));
    }
    var ciphertext, bodyStatus := r.ReadFull(chunkSz + TAG_SIZE);
    if bodyStatus == Eof || bodyStatus == Failed {
      return Stop(Some(ReadError));
    }
    var plaintext := c.open(key, nonce, ciphertext, ChunkAad(chunkIdx));
    if plaintext == None {
      return Stop(Some(AuthenticationFailed(chunkIdx)));
    }
    return Chunk(plaintext.value, bodyStatus == Short);
  }

  /**
   DecryptStream, on any bytes: the header checks, and then what decoding record by record yields is
   written, as far as the writer takes it. The writer's failure is what is reported if there is one,
   else what stopped the decoding. A reader that fails is always reported, or hidden by another failure.
   */
  method DecryptStream(c: Aead, key: Bytes, r: Reader, w: Writer) returns (err: Result)
    requires w.Valid()
    modifies r, w
    ensures w.Valid()
    ensures r.broken ==> err.Some?
    ensures |old(r.rest)| < HEADER_SIZE ==> err == Some(HeaderUnreadable) && w.written == old(w.written)
    ensures |old(r.rest)| >= HEADER_SIZE && old(r.rest)[0] != CRYPTO_VERSION ==>
              err == Some(UnsupportedVersion(old(r.rest)[0])) && w.written == old(w.written)
    ensures |old(r.rest)| >= HEADER_SIZE && old(r.rest)[0] == CRYPTO_VERSION ==>
              var d := Decoded(c, key, FromBigEndian(old(r.rest)[1..HEADER_SIZE]), 0,
                               old(r.rest)[HEADER_SIZE..], r.broken);
              && w.written == Accepted(w.room, old(w.written) + d.0)
              && err == if HasRoom(w.room, old(w.written) + d.0) then d.1 else Some(WriteError)
  {
    var header, status := r.ReadFull(HEADER_SIZE);
    if status != Full {
      return Some(HeaderUnreadable);
    }
    if header[0] != CRYPTO_VERSION {
      return Some(UnsupportedVersion(header[0]));
    }
    assert header[1..] == old(r.rest)[1..HEADER_SIZE];
    var chunkSz := FromBigEndian(header[1..]);
    var chunkIdx := 0;
    ghost var goal := Decoded(c, key, chunkSz, 0, r.rest, r.broken);
    BrokenFails(c, key, chunkSz, 0, r.rest);
    ghost var full := w.written + goal.0;
    while true
      invariant w.Valid()
      invariant var d := Decoded(c, key, chunkSz, chunkIdx, r.rest, r.broken);
                w.written + d.0 == full && d.1 == goal.1
      decreases |r.rest|
    {
      hide Accepted, HasRoom;
      AcceptedWhole(w.room, w.written);
      var step := ReadChunk(c, key, r, chunkSz, chunkIdx);
      if step.Stop? {
        assert w.written + [] == w.written;
        return step.err;
      }
      ghost var later := Decoded(c, key, chunkSz, chunkIdx + 1, r.rest, r.broken).0;
      Assoc(w.written, step.plain, later);
      AcceptedFirst(w.room, w.written + step.plain, later);
      AcceptedWhole(w.room, w.written + step.plain);
      var ok := w.Write(step.plain);
      if !ok {
        return Some(WriteError);
      }
      chunkIdx := chunkIdx + 1;
      if step.last {
        return None;
      }
    }
  }

  /** A whole record in front of others decrypts on its own, also if the reader fails later. */
  lemma DecodedWhole(c: Aead, key: Bytes, nonces: nat -> Nonce, chunkSize: nat, index: nat, p: Bytes, rest: Bytes,
                     broken: bool)
    requires Lawful(c) && |p| == chunkSize
    ensures var d := Decoded(c, key, chunkSize, index + 1, rest, broken);
            Decoded(c, key, chunkSize, index, Record(c, key, nonces, index, p) + rest, broken) == (p + d.0, d.1)
  {
    var sealed := c.seal(key, nonces(index), p, ChunkAad(index));
    var data := Record(c, key, nonces, index, p) + rest;
    assert data[..NONCE_SIZE] == nonces(index);
    assert data[NONCE_SIZE..] == sealed + rest;
    assert (sealed + rest)[..chunkSize + TAG_SIZE] == sealed;
    assert (sealed + rest)[chunkSize + TAG_SIZE..] == rest;
  }

  /** One record in front of others decrypts on its own. */
  lemma DecodedRecord(c: Aead, key: Bytes, nonces: nat -> Nonce, chunkSize: nat, index: nat, p: Bytes, rest: Bytes)
    requires Lawful(c) && |p| <= chunkSize && (|p| < chunkSize ==> rest == [])
    ensures var d := Decoded(c, key, chunkSize, index + 1, rest, false);
            Decoded(c, key, chunkSize, index, Record(c, key, nonces, index, p) + rest, false)
            == if |p| < chunkSize then (p, None) else (p + d.0, d.1)
  {
    if |p| < chunkSize {
      var sealed := c.seal(key, nonces(index), p, ChunkAad(index));
      var data := Record(c, key, nonces, index, p) + rest;
      assert data[..NONCE_SIZE] == nonces(index);
      assert data[NONCE_SIZE..] == sealed + rest == sealed;
    } else {
      DecodedWhole(c, key, nonces, chunkSize, index, p, rest, false);
    }
  }

  lemma NothingDecoded(c: Aead, key: Bytes, chunkSize: nat, index: nat)
    ensures Decoded(c, key, chunkSize, index, [], false) == ([], None)
  {
  }

  /** Decrypting the records of a plaintext gives the plaintext back. */
  lemma {:induction false} DecodedRecords(c: Aead, key: Bytes, nonces: nat -> Nonce, chunkSize: nat, index: nat,
                                          p: Bytes)
    requires Lawful(c) && chunkSize > 0
    ensures Decoded(c, key, chunkSize, index, Records(c, key, nonces, chunkSize, index, p), false) == (p, None)
    decreases |p|
  {
    hide Record, NextChunk;
    if p == [] {
      NothingDecoded(c, key, chunkSize, index);
    } else {
      var n := Min(chunkSize, |p|);
      DecodedRecords(c, key, nonces, chunkSize, index + 1, p[n..]);
      DecodedRecord(c, key, nonces, chunkSize, index, p[..n], Records(c, key, nonces, chunkSize, index + 1, p[n..]));
      assert p[..n] + p[n..] == p;
      assert n < chunkSize ==> p[..n] == p;
    }
  }

  /** DecryptStream undoes EncryptStream, for every plaintext, and the object has the promised size. */
  method RoundTrip(c: Aead, key: Bytes, nonces: nat -> Nonce, p: Bytes)
    returns (stored: Bytes, plain: Bytes, err: Result)
    requires Lawful(c)
    ensures plain == p && err == None && |stored| == ObjectSize(|p|, DEFAULT_CHUNK_SIZE)
  {
    var source := new Reader(p, false);
    var sink := new Writer(None);
    var sealErr := EncryptStream(c, key, nonces, source, sink);
    stored := sink.written;
    ObjectLength(c, key, nonces, DEFAULT_CHUNK_SIZE, p);
    assert stored == Header(DEFAULT_CHUNK_SIZE) + Records(c, key, nonces, DEFAULT_CHUNK_SIZE, 0, p);
    assert stored[1..HEADER_SIZE] == BigEndian(DEFAULT_CHUNK_SIZE, 4);
    BigEndianRoundTrip(DEFAULT_CHUNK_SIZE, 4);
    assert stored[HEADER_SIZE..] == Records(c, key, nonces, DEFAULT_CHUNK_SIZE, 0, p);
    DecodedRecords(c, key, nonces, DEFAULT_CHUNK_SIZE, 0, p);
    var cipher := new Reader(stored, false);
    var out := new Writer(None);
    err := DecryptStream(c, key, cipher, out);
    plain := out.written;
  }

  // ----- Ranges ---------------------------------------------------------------------------

  /** The bytes from `lo` up to and excluding `hi`, clipped to what exists. */
  function Clip(p: Bytes, lo: int, hi: int): Bytes {
    var a := Min(Max(lo, 0), |p|);
    var b := Min(Max(hi, a), |p|);
    p[a..b]
  }

  lemma SliceConcat(p: Bytes, q: Bytes, a: nat, b: nat)
    requires a <= b <= |p| + |q|
    ensures var n := |p|;
            (p + q)[a..b] == p[Min(a, n)..Min(b, n)] + q[Max(a - n, 0)..Max(b - n, 0)]
  {
    var n := |p|;
    var left, right := p[Min(a, n)..Min(b, n)], q[Max(a - n, 0)..Max(b - n, 0)];
    assert |left + right| == b - a;
    forall k | 0 <= k < b - a
      ensures (p + q)[a..b][k] == (left + right)[k]
    {
      assert (p + q)[a..b][k] == (p + q)[a + k];
      if a + k < n {
        assert left[k] == p[a + k];
      } else {
        assert right[k - |left|] == q[a + k - n];
      }
    }
  }

  lemma ClipConcat(p: Bytes, q: Bytes, lo: int, hi: int)
    ensures var n := |p|; Clip(p + q, lo, hi) == Clip(p, lo, hi) + Clip(q, lo - n, hi - n)
  {
    var n, a := |p|, Min(Max(lo, 0), |p + q|);
    var b := Min(Max(hi, a), |p + q|);
    SliceConcat(p, q, a, b);
  }

  /**
   DecryptRange on any bytes at all: it writes exactly the clipped slice of what decrypting
   everything would yield, as far as the writer takes it, and it fails exactly when the writer does or
   that decryption fails before the slice is complete; so it does if the reader fails before that.
   */
  method DecryptRange(c: Aead, key: Bytes, r: Reader, w: Writer, chunkSz: nat, startChunk: nat,
                      trimStart: int, trimEnd: int)
    returns (err: Result)
    requires w.Valid()
    modifies r, w
    ensures w.Valid()
    ensures var d := Decoded(c, key, chunkSz, startChunk, old(r.rest), r.broken);
            var slice := Clip(d.0, trimStart, trimEnd + 1);
            && w.written == Accepted(w.room, old(w.written) + slice)
            && err == if !HasRoom(w.room, old(w.written) + slice) then Some(WriteError)
                      else if |slice| < trimEnd - trimStart + 1 then d.1 else None
    ensures r.broken && err == None ==>
              var d := Decoded(c, key, chunkSz, startChunk, old(r.rest), r.broken);
              |Clip(d.0, trimStart, trimEnd + 1)| >= trimEnd - trimStart + 1
  {
    hide NextChunk, Overlap, Accepted, HasRoom;
    var written := 0;
    var target := trimEnd - trimStart + 1;
    var chunkIdx := startChunk;
    var plaintextPos := 0;
    ghost var goal := Decoded(c, key, chunkSz, startChunk, r.rest, r.broken);
    BrokenFails(c, key, chunkSz, startChunk, r.rest);
    ghost var start, done := w.written, [];
    assert done + goal.0 == goal.0;
    while written < target
      invariant var d := Decoded(c, key, chunkSz, chunkIdx, r.rest, r.broken);
                goal == (done + d.0, d.1)
      invariant w.Valid() && plaintextPos == |done|
      invariant w.written == start + Clip(done, trimStart, trimEnd + 1)
      invariant written == |Clip(done, trimStart, trimEnd + 1)|
      decreases |r.rest|
    {
      AcceptedWhole(w.room, w.written);
      var step := ReadChunk(c, key, r, chunkSz, chunkIdx);
      if step.Stop? {
        assert done + [] == done;
        return step.err;
      }
      var p := step.plain;
      ghost var later := Decoded(c, key, chunkSz, chunkIdx + 1, r.rest, r.broken).0;
      ClipChunk(start, done, p, trimStart, trimEnd);
      Assoc(done, p, later);
      ClipAccepted(w.room, start, done + p, later, trimStart, trimEnd + 1);
      AcceptedWhole(w.room, w.written + Overlap(p, plaintextPos, trimStart, trimEnd));
      var ok, n := WriteOverlap(w, p, plaintextPos, trimStart, trimEnd);
      if !ok {
        return Some(WriteError);
      }
      written := written + n;
      done := done + p;
      plaintextPos := plaintextPos + |p|;
      chunkIdx := chunkIdx + 1;
      AcceptedWhole(w.room, w.written);
      if step.last {
        return None;
      }
    }
    AcceptedWhole(w.room, w.written);
    ClipFull(done, Decoded(c, key, chunkSz, chunkIdx, r.rest, r.broken).0, trimStart, trimEnd + 1);
    err := None;
  }

  /** The part of a chunk at plaintext position `pos` that lies in the requested range. */
  function Overlap(p: Bytes, pos: nat, trimStart: int, trimEnd: int): Bytes {
    var sliceStart := if trimStart > pos then trimStart - pos else 0;
    var sliceEnd := if trimEnd + 1 < pos + |p| then trimEnd + 1 - pos else |p|;
    if sliceStart < sliceEnd then p[sliceStart..sliceEnd] else []
  }

  method WriteOverlap(w: Writer, p: Bytes, pos: nat, trimStart: int, trimEnd: int) returns (ok: bool, n: nat)
    requires w.Valid()
    modifies w
    ensures w.Valid() && w.written == Accepted(w.room, old(w.written) + Overlap(p, pos, trimStart, trimEnd))
    ensures ok == HasRoom(w.room, old(w.written) + Overlap(p, pos, trimStart, trimEnd))
    ensures n == |Overlap(p, pos, trimStart, trimEnd)|
  {
    var sliceStart := 0;
    if trimStart > pos {
      sliceStart := trimStart - pos;
    }
    var sliceEnd := |p|;
    if trimEnd + 1 < pos + |p| {
      sliceEnd := trimEnd + 1 - pos;
    }
    if sliceStart < sliceEnd {
      n := sliceEnd - sliceStart;
      ok := w.Write(p[sliceStart..sliceEnd]);
    } else {
      ok, n := true, 0;
      assert w.written + [] == w.written;
    }
  }

  /** If the slice of what comes first is too much for the writer, so is the slice of all. */
  lemma ClipAccepted(room: Option<nat>, start: Bytes, p: Bytes, q: Bytes, lo: int, hi: int)
    ensures !HasRoom(room, start + Clip(p, lo, hi)) ==>
              && !HasRoom(room, start + Clip(p + q, lo, hi))
              && Accepted(room, start + Clip(p + q, lo, hi)) == Accepted(room, start + Clip(p, lo, hi))
  {
    hide Accepted, HasRoom;
    var rest := Clip(q, lo - |p|, hi - |p|);
    ClipConcat(p, q, lo, hi);
    Assoc(start, Clip(p, lo, hi), rest);
    AcceptedFirst(room, start + Clip(p, lo, hi), rest);
  }

  /** The overlaps of successive chunks are the clipped slice of their concatenation. */
  lemma ClipChunk(start: Bytes, done: Bytes, p: Bytes, trimStart: int, trimEnd: int)
    ensures var overlap := Overlap(p, |done|, trimStart, trimEnd);
            && Clip(done + p, trimStart, trimEnd + 1) == Clip(done, trimStart, trimEnd + 1) + overlap
            && start + Clip(done + p, trimStart, trimEnd + 1)
               == (start + Clip(done, trimStart, trimEnd + 1)) + overlap
  {
    ClipConcat(done, p, trimStart, trimEnd + 1);
  }

  /** A slice that is already complete gains nothing from later bytes. */
  lemma ClipFull(p: Bytes, q: Bytes, lo: int, hi: int)
    requires |Clip(p, lo, hi)| >= hi - lo
    ensures Clip(p + q, lo, hi) == Clip(p, lo, hi)
  {
  }

  /**
   On the stored records from `startChunk` on, a range request yields the slice of the plaintext
   that it names, counted from that chunk's start.
   */
  method RangeOfObject(c: Aead, key: Bytes, nonces: nat -> Nonce, chunkSize: nat, p: Bytes, startChunk: nat,
                       trimStart: int, trimEnd: int)
    returns (slice: Bytes, err: Result)
    requires Lawful(c) && chunkSize > 0 && startChunk * chunkSize <= |p|
    ensures err == None
    ensures startChunk * chunkSize >= 0 && slice == Clip(p[startChunk * chunkSize..], trimStart, trimEnd + 1)
  {
    var stored := Object(c, key, nonces, chunkSize, p);
    var at := startChunk * (chunkSize + OVERHEAD);
    ghost var tail := p[startChunk * chunkSize..];
    RecordsAt(c, key, nonces, chunkSize, 0, p, startChunk);
    DecodedRecords(c, key, nonces, chunkSize, startChunk, tail);
    var raw := stored[HEADER_SIZE + at..];
    assert raw == Records(c, key, nonces, chunkSize, 0, p)[at..];
    var r := new Reader(raw, false);
    var w := new Writer(None);
    err := DecryptRange(c, key, r, w, chunkSize, startChunk, trimStart, trimEnd);
    slice := w.written;
  }
}
