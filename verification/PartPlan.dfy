/**
 Packing the encrypted chunks of an object into multipart parts.

 Parts split only between chunks. The server counts parts (encryptedMultipartPartCount), the
 browser fills them batch by batch (engine.ts), and both are the next-fit packing `Parts`. The
 packing is the shortest one possible, and it has a closed form.
 */
module PartPlan {
  import opened Arithmetic
  import opened ChunkFormat

  const CHUNK := 65536
  const ENC_CHUNK := 65564

  /** Sizes of the encrypted chunks of `size` plaintext bytes. */
  function ChunkSizes(size: nat): seq<nat>
    decreases size
  {
    if size == 0 then []
    else if size < CHUNK then [size + OVERHEAD]
    else [ENC_CHUNK] + ChunkSizes(size - CHUNK)
  }

  /** Next-fit: the sizes of the parts when the current part already holds `used` bytes. */
  function Parts(used: nat, items: seq<nat>, limit: nat): (parts: seq<nat>)
    ensures |parts| >= 1
    decreases |items|
  {
    if items == [] then [used]
    else if used + items[0] > limit then [used] + Parts(items[0], items[1..], limit)
    else Parts(used + items[0], items[1..], limit)
  }

  /** The parts of an object: the first one also holds the header. */
  function PartSizes(size: nat, limit: nat): (parts: seq<nat>)
    ensures |parts| >= 1
  {
    Parts(HEADER_SIZE, ChunkSizes(size), limit)
  }

  function Sum(xs: seq<nat>): nat {
    if xs == [] then 0 else xs[0] + Sum(xs[1..])
  }

  // ----- Counting, as the server does it --------------------------------------------------

  method PartCount(plainSize: nat, partSize: int) returns (parts: nat)
    ensures partSize <= 0 ==> parts == 1
    ensures partSize > 0 ==> parts == |PartSizes(plainSize, partSize)|
  {
    if partSize <= 0 {
      return 1;
    }
    parts := 1;
    var used: nat := HEADER_SIZE;
    var fullChunks := plainSize / CHUNK;
    ghost var left := plainSize;
    for i := 0 to fullChunks
      invariant left == plainSize - i * CHUNK && left >= (fullChunks - i) * CHUNK
      invariant parts + |Parts(used, ChunkSizes(left), partSize)| == 1 + |PartSizes(plainSize, partSize)|
    {
      parts, used := PlaceChunk(parts, used, ENC_CHUNK, partSize);
      left := left - CHUNK;
    }
    var rem := plainSize % CHUNK;
    if rem > 0 {
      assert ChunkSizes(left) == [rem + OVERHEAD];
      parts, used := PlaceChunk(parts, used, NONCE_SIZE + rem + TAG_SIZE, partSize);
    }
  }

  method PlaceChunk(parts: nat, used: nat, chunkSize: nat, partSize: nat) returns (parts1: nat, used1: nat)
    ensures (parts1, used1) == if used + chunkSize > partSize then (parts + 1, chunkSize)
                               else (parts, used + chunkSize)
  {
    parts1, used1 := parts, used;
    if used1 + chunkSize > partSize {
      parts1 := parts1 + 1;
      used1 := 0;
    }
    used1 := used1 + chunkSize;
  }

  // ----- Filling parts, as the browser does it --------------------------------------------

  /** Taking whole chunks that fit, several at a time, is the same packing. */
  lemma {:induction false} PartsTake(used: nat, size: nat, limit: nat, k: nat)
    requires k * CHUNK <= size && used + k * ENC_CHUNK <= limit
    ensures Parts(used, ChunkSizes(size), limit)
         == Parts(used + k * ENC_CHUNK, ChunkSizes(size - k * CHUNK), limit)
    decreases k
  {
    if k > 0 {
      PartsTake(used + ENC_CHUNK, size - CHUNK, limit, k - 1);
    }
  }

  /** One part: whole chunks in batches of six while they fit, then a short last chunk. */
  method PreparePart(size: nat, partSize: nat, start: nat, first: bool) returns (length: nat, offset: nat)
    requires partSize >= ENC_CHUNK + HEADER_SIZE
    requires start <= size && (start % CHUNK == 0 || start == size)
    requires !first ==> start < size
    ensures start <= offset <= size && (offset % CHUNK == 0 || offset == size)
    ensures offset > start || start == size
    ensures var used := if first then HEADER_SIZE else 0;
            Parts(used, ChunkSizes(size - start), partSize)
            == if offset == size then [length]
               else [length] + Parts(0, ChunkSizes(size - offset), partSize)
  {
    hide Parts, ChunkSizes;
    length := if first then HEADER_SIZE else 0;
    offset := start;
    ghost var goal := Parts(length, ChunkSizes(size - start), partSize);
    while offset < size
      invariant start <= offset <= size && (offset % CHUNK == 0 || offset == size)
      invariant length <= partSize
      invariant offset == start ==> length <= HEADER_SIZE
      invariant goal == Parts(length, ChunkSizes(size - offset), partSize)
      decreases size - offset
    {
      var room := partSize - length;
      var remaining := size - offset;
      var k := Min(6, Min(room / ENC_CHUNK, remaining / CHUNK));
      if k == 0 {
        if remaining < CHUNK && remaining + OVERHEAD <= room {
          LastFits(length, remaining, partSize);
          length := length + remaining + OVERHEAD;
          offset := size;
        } else {
          NothingFits(length, remaining, partSize);
          break;
        }
      } else {
        assert k * ENC_CHUNK <= room && k * CHUNK <= remaining;
        PartsTake(length, remaining, partSize, k);
        length := length + k * ENC_CHUNK;
        offset := offset + k * CHUNK;
      }
    }
    NothingLeft(length, partSize);
  }

  /** The short last chunk fits the part. */
  lemma LastFits(used: nat, size: nat, limit: nat)
    requires 0 < size < CHUNK && used + size + OVERHEAD <= limit
    ensures Parts(used, ChunkSizes(size), limit) == Parts(used + size + OVERHEAD, ChunkSizes(0), limit)
  {
    assert ChunkSizes(size) == [size + OVERHEAD];
  }

  lemma NothingLeft(used: nat, limit: nat)
    ensures Parts(used, ChunkSizes(0), limit) == [used]
  {
  }

  lemma NothingFits(used: nat, size: nat, limit: nat)
    requires size > 0 && used <= limit
    requires (limit - used) / ENC_CHUNK == 0 || size / CHUNK == 0
    requires !(size < CHUNK && size + OVERHEAD <= limit - used)
    requires size >= CHUNK || size + OVERHEAD > limit - used
    requires limit >= ENC_CHUNK
    ensures Parts(used, ChunkSizes(size), limit) == [used] + Parts(0, ChunkSizes(size), limit)
  {
  }

  /** The parts the browser uploads are exactly the parts the server counts. */
  method UploadParts(size: nat, partSize: nat) returns (lengths: seq<nat>)
    requires partSize >= ENC_CHUNK + HEADER_SIZE
    ensures lengths == PartSizes(size, partSize)
  {
    var length, offset := PreparePart(size, partSize, 0, true);
    lengths := [length];
    while offset < size
      invariant offset <= size && (offset % CHUNK == 0 || offset == size)
      invariant PartSizes(size, partSize)
             == if offset == size then lengths
                else lengths + Parts(0, ChunkSizes(size - offset), partSize)
      decreases size - offset
    {
      length, offset := PreparePart(size, partSize, offset, false);
      lengths := lengths + [length];
    }
  }

  // ----- What the packing guarantees ------------------------------------------------------

  lemma {:induction false} ChunkSizesSum(size: nat)
    ensures Sum(ChunkSizes(size)) == size + CeilDiv(size, CHUNK) * OVERHEAD
    decreases size
  {
    if size >= CHUNK {
      ChunkSizesSum(size - CHUNK);
      CeilDivStep(size, CHUNK);
    } else if size > 0 {
      CeilDivUnique(size, CHUNK, 1);
    }
  }

  lemma {:induction false} PartsSum(used: nat, items: seq<nat>, limit: nat)
    ensures Sum(Parts(used, items, limit)) == used + Sum(items)
    decreases |items|
  {
    if items != [] {
      if used + items[0] > limit {
        PartsSum(items[0], items[1..], limit);
      } else {
        PartsSum(used + items[0], items[1..], limit);
      }
    }
  }

  /** The parts add up to exactly the encrypted object. */
  lemma PartSizesSum(size: nat, limit: nat)
    ensures Sum(PartSizes(size, limit)) == ObjectSize(size, CHUNK)
  {
    PartsSum(HEADER_SIZE, ChunkSizes(size), limit);
    ChunkSizesSum(size);
  }

  lemma {:induction false} ChunkSizesBounded(size: nat, i: nat)
    requires i < |ChunkSizes(size)|
    ensures OVERHEAD < ChunkSizes(size)[i] <= ENC_CHUNK
    decreases i
  {
    if i > 0 {
      ChunkSizesBounded(size - CHUNK, i - 1);
    }
  }

  /** No part exceeds the limit, none is empty, and every part but the last is nearly full. */
  lemma {:induction false} PartsBounded(used: nat, items: seq<nat>, limit: nat, j: nat)
    requires 0 < used <= limit && j < |Parts(used, items, limit)|
    requires forall i :: 0 <= i < |items| ==> 0 < items[i] <= ENC_CHUNK <= limit
    ensures 0 < Parts(used, items, limit)[j] <= limit
    ensures j < |Parts(used, items, limit)| - 1 ==> Parts(used, items, limit)[j] > limit - ENC_CHUNK
    decreases |items|
  {
    if items != [] {
      if used + items[0] > limit {
        if j > 0 {
          PartsBounded(items[0], items[1..], limit, j - 1);
        }
      } else {
        PartsBounded(used + items[0], items[1..], limit, j);
      }
    }
  }

  lemma PartSizesBounded(size: nat, limit: nat, j: nat)
    requires limit >= ENC_CHUNK && j < |PartSizes(size, limit)|
    ensures 0 < PartSizes(size, limit)[j] <= limit
    ensures j < |PartSizes(size, limit)| - 1 ==> PartSizes(size, limit)[j] > limit - ENC_CHUNK
  {
    forall i | 0 <= i < |ChunkSizes(size)| ensures 0 < ChunkSizes(size)[i] <= ENC_CHUNK {
      ChunkSizesBounded(size, i);
    }
    PartsBounded(HEADER_SIZE, ChunkSizes(size), limit, j);
  }

  // ----- Minimality -----------------------------------------------------------------------

  function Concat(ps: seq<seq<nat>>): seq<nat> {
    if ps == [] then [] else ps[0] + Concat(ps[1..])
  }

  /** `ps` splits the chunks into parts of at most `limit` bytes, the first one preloaded. */
  ghost predicate IsPartition(ps: seq<seq<nat>>, preload: nat, items: seq<nat>, limit: nat) {
    && ps != [] && Concat(ps) == items
    && preload + Sum(ps[0]) <= limit
    && forall j :: 1 <= j < |ps| ==> Sum(ps[j]) <= limit
  }

  /** A fuller current part never leads to fewer parts, and an emptier one saves at most one. */
  lemma {:induction false} PartsMonotone(u: nat, v: nat, items: seq<nat>, limit: nat)
    ensures u <= v ==> |Parts(u, items, limit)| <= |Parts(v, items, limit)|
    ensures |Parts(u, items, limit)| <= 1 + |Parts(v, items, limit)|
    decreases |items|
  {
    if items != [] {
      var x, rest := items[0], items[1..];
      PartsMonotone(u + x, v + x, rest, limit);
      PartsMonotone(u + x, x, rest, limit);
      PartsMonotone(x, v + x, rest, limit);
    }
  }

  lemma {:induction false} GreedyIsShortest(used: nat, preload: nat, items: seq<nat>, limit: nat, ps: seq<seq<nat>>)
    requires used <= preload && IsPartition(ps, preload, items, limit)
    ensures |Parts(used, items, limit)| <= |ps|
    decreases |ps|, |ps[0]|
  {
    if items != [] {
      if ps[0] == [] {
        assert ps[0] + Concat(ps[1..]) == Concat(ps[1..]);
        GreedyIsShortest(0, 0, items, limit, ps[1..]);
        PartsMonotone(used, 0, items, limit);
      } else {
        var x: nat := ps[0][0];
        var qs := [ps[0][1..]] + ps[1..];
        assert Concat(qs) == items[1..] by {
          assert (ps[0][1..]) + Concat(ps[1..]) == (ps[0] + Concat(ps[1..]))[1..];
        }
        GreedyIsShortest(used + x, preload + x, items[1..], limit, qs);
      }
    }
  }

  /** The packing itself is such a partition. */
  lemma {:induction false} GreedyIsPartition(used: nat, items: seq<nat>, limit: nat) returns (ps: seq<seq<nat>>)
    requires used <= limit && forall i :: 0 <= i < |items| ==> items[i] <= limit
    ensures IsPartition(ps, used, items, limit) && |ps| == |Parts(used, items, limit)|
    decreases |items|
  {
    if items == [] {
      ps := [[]];
      assert Concat(ps) == [];
    } else {
      var x: nat := items[0];
      var opens := used + x > limit;
      var qs := GreedyIsPartition(if opens then x else used + x, items[1..], limit);
      var first: seq<nat> := [x] + qs[0];
      assert [x] + (qs[0] + Concat(qs[1..])) == first + Concat(qs[1..]);
      var empty: seq<seq<nat>> := if opens then [[]] else [];
      ps := empty + [first] + qs[1..];
      assert ([first] + qs[1..])[1..] == qs[1..];
      if opens {
        assert ps[1..] == [first] + qs[1..];
      } else {
        assert ps == [first] + qs[1..];
      }
    }
  }

  /** The part count is the least number of parts of any split at chunk boundaries. */
  lemma PartCountIsMinimal(size: nat, limit: nat)
    requires limit >= ENC_CHUNK
    ensures exists ps :: IsPartition(ps, HEADER_SIZE, ChunkSizes(size), limit) && |ps| == |PartSizes(size, limit)|
    ensures forall ps :: IsPartition(ps, HEADER_SIZE, ChunkSizes(size), limit) ==> |PartSizes(size, limit)| <= |ps|
  {
    forall i | 0 <= i < |ChunkSizes(size)| ensures ChunkSizes(size)[i] <= limit {
      ChunkSizesBounded(size, i);
    }
    var ps := GreedyIsPartition(HEADER_SIZE, ChunkSizes(size), limit);
    forall ps | IsPartition(ps, HEADER_SIZE, ChunkSizes(size), limit)
      ensures |PartSizes(size, limit)| <= |ps|
    {
      GreedyIsShortest(HEADER_SIZE, HEADER_SIZE, ChunkSizes(size), limit, ps);
    }
  }
}
