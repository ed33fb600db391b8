/**
 Sizes of encrypted uploads: the part size the server chooses, exactly which files it accepts,
 the validation of the parts the object store reports, and the inverse size computation of the
 service worker. Arithmetic that Go does in int64 is written with explicit wrap-around.
 */
module UploadGeometry {
  import opened Wrappers
  import opened Arithmetic
  import opened ChunkFormat
  import opened PartPlan

  const DIRECT_PART_SIZE := 8388608
  const MAX_PARTS := 10000
  const MIN_PART := 5242880
  const MAX_PART := 5368709120
  const MAX_INT64 := 0x7FFF_FFFF_FFFF_FFFF

  // ----- int64 arithmetic -----------------------------------------------------------------

  function Wrap(x: int): int {
    var m := x % 0x1_0000_0000_0000_0000;
    if m > MAX_INT64 then m - 0x1_0000_0000_0000_0000 else m
  }

  lemma WrapInRange(x: int)
    ensures -MAX_INT64 - 1 <= Wrap(x) <= MAX_INT64
  {
  }

  /** Go's integer division truncates toward zero. */
  function Quot(a: int, b: nat): int
    requires b > 0
  {
    if a >= 0 then a / b else -(-a / b)
  }

  /** What is left over has the sign of the dividend and is smaller than the divisor. */
  lemma QuotTruncates(a: int, b: nat)
    requires b > 0
    ensures var r: int := a - Quot(a, b) * b; if a >= 0 then 0 <= r < b else 0 <= 0 - r < b
  {
    var m := if a >= 0 then a else 0 - a;
    var q, r := m / b, m % b;
    assert m == q * b + r;
    if a < 0 {
      assert Quot(a, b) * b == 0 - q * b;
    }
  }

  // ----- Sizes ----------------------------------------------------------------------------

  method EncryptedFileSize(plainSize: int) returns (size: int)
    requires plainSize <= MAX_INT64
    ensures plainSize <= 0 ==> size == HEADER_SIZE
    ensures 0 < plainSize <= 0x4000_0000_0000_0000 ==> size == ObjectSize(plainSize, CHUNK)
    ensures -MAX_INT64 - 1 <= size <= MAX_INT64
  {
    if plainSize <= 0 {
      return HEADER_SIZE;
    }
    var numChunks := Quot(Wrap(plainSize + CHUNK - 1), CHUNK);
    size := Wrap(HEADER_SIZE + plainSize + Wrap(numChunks * OVERHEAD));
    WrapInRange(HEADER_SIZE + plainSize + Wrap(numChunks * OVERHEAD));
    if plainSize <= 0x4000_0000_0000_0000 {
      SizeFits(plainSize);
    }
  }

  lemma SizeFits(size: nat)
    requires size <= 0x4000_0000_0000_0000
    ensures size + CHUNK - 1 <= MAX_INT64 && ObjectSize(size, CHUNK) + MAX_PARTS <= MAX_INT64
    ensures CeilDiv(size, CHUNK) * OVERHEAD <= MAX_INT64
  {
    CeilDivBounds(size, CHUNK);
  }

  /** The part size before the ceilings are checked. */
  function PartSizeOf(size: nat): (p: nat)
    ensures p >= DIRECT_PART_SIZE
  {
    var needed := CeilDiv(ObjectSize(size, CHUNK), MAX_PARTS);
    if needed <= DIRECT_PART_SIZE then DIRECT_PART_SIZE else CeilDiv(needed, ENC_CHUNK) * ENC_CHUNK
  }

  /** The answer of uploadPartSizeFor, in plain integers. */
  function ChosenPartSize(size: nat): Option<nat> {
    var p := PartSizeOf(size);
    if p <= MAX_PART && |PartSizes(size, p)| <= MAX_PARTS then Some(p) else None
  }

  /** For every int64 size, wrap-around never changes the answer. */
  method UploadPartSizeFor(plainSize: int) returns (r: Option<nat>)
    requires plainSize <= MAX_INT64
    ensures r == if plainSize < 0 then None else ChosenPartSize(plainSize)
  {
    if plainSize < 0 {
      return None;
    }
    var partSize := DIRECT_PART_SIZE;
    var encrypted := EncryptedFileSize(plainSize);
    var needed := Quot(Wrap(encrypted + MAX_PARTS - 1), MAX_PARTS);
    if needed > partSize {
      partSize := needed;
      var remainder := partSize % ENC_CHUNK;
      if remainder != 0 {
        partSize := partSize + ENC_CHUNK - remainder;
      }
    }
    if plainSize <= 0x4000_0000_0000_0000 {
      SizeFits(plainSize);
      assert partSize == PartSizeOf(plainSize) by {
        RoundUp(needed, ENC_CHUNK);
      }
    } else {
      HugeIsRefused(plainSize, PartSizeOf(plainSize));
      HugeIsRefused(plainSize, partSize);
    }
    if partSize > MAX_PART {
      return None;
    }
    var count := PartCount(plainSize, partSize);
    r := if count > MAX_PARTS then None else Some(partSize);
  }

  lemma RoundUp(a: int, b: nat)
    requires a > 0 && b > 0
    ensures CeilDiv(a, b) * b == if a % b == 0 then a else a + b - a % b
  {
    var q, r := a / b, a % b;
    assert a == q * b + r;
    MulSucc(q, b);
    MulSucc(q - 1, b);
    if r == 0 {
      CeilDivUnique(a, b, q);
    } else {
      CeilDivUnique(a, b, q + 1);
    }
  }

  lemma {:induction false} SumBounded(xs: seq<nat>, limit: nat)
    requires forall i :: 0 <= i < |xs| ==> xs[i] <= limit
    ensures Sum(xs) <= |xs| * limit
  {
    if xs != [] {
      SumBounded(xs[1..], limit);
      MulSucc(|xs| - 1, limit);
    }
  }

  lemma HugeIsRefused(size: nat, limit: nat)
    requires size > 0x4000_0000_0000_0000 && limit >= DIRECT_PART_SIZE
    ensures limit <= MAX_PART ==> |PartSizes(size, limit)| > MAX_PARTS
  {
    if limit <= MAX_PART {
      var parts := PartSizes(size, limit);
      forall j | 0 <= j < |parts| ensures parts[j] <= MAX_PART {
        PartSizesBounded(size, limit, j);
      }
      SumBounded(parts, MAX_PART);
      PartSizesSum(size, limit);
      CeilDivBounds(size, CHUNK);
    }
  }

  // ----- The part count in closed form ----------------------------------------------------

  /** Parts needed by `full` whole chunks and `rem` more bytes when a part starts empty. */
  function CountFromEmpty(full: nat, rem: nat, limit: nat): nat
    requires limit >= ENC_CHUNK
  {
    if full == 0 then 1
    else
      var per := limit / ENC_CHUNK;
      var last := ((full - 1) % per + 1) * ENC_CHUNK;
      CeilDiv(full, per) + if rem > 0 && last + rem + OVERHEAD > limit then 1 else 0
  }

  /** The closed form over the header, the whole chunks and the remainder. */
  function ClosedCount(size: nat, limit: nat): nat
    requires limit >= ENC_CHUNK + HEADER_SIZE
  {
    var full, rem := size / CHUNK, size % CHUNK;
    var first := (limit - HEADER_SIZE) / ENC_CHUNK;
    if full > first then 1 + CountFromEmpty(full - first, rem, limit)
    else if rem > 0 && HEADER_SIZE + full * ENC_CHUNK + rem + OVERHEAD > limit then 2
    else 1
  }

  /** Removing one part's worth of whole chunks removes one part. */
  lemma CountStep(full: nat, rem: nat, limit: nat)
    requires limit >= ENC_CHUNK && full > limit / ENC_CHUNK
    ensures CountFromEmpty(full, rem, limit) == 1 + CountFromEmpty(full - limit / ENC_CHUNK, rem, limit)
  {
    var per := limit / ENC_CHUNK;
    CeilDivStep(full, per);
    var q, r := (full - per - 1) / per, (full - per - 1) % per;
    MulSucc(q, per);
    DivUnique(full - 1, per, q + 1, r);
  }

  lemma CountOnePart(full: nat, rem: nat, limit: nat)
    requires limit >= ENC_CHUNK && full <= limit / ENC_CHUNK && rem < CHUNK
    ensures CountFromEmpty(full, rem, limit)
         == if rem > 0 && full * ENC_CHUNK + rem + OVERHEAD > limit then 2 else 1
  {
    if full > 0 {
      CeilDivUnique(full, limit / ENC_CHUNK, 1);
      DivUnique(full - 1, limit / ENC_CHUNK, 0, full - 1);
    }
  }

  lemma {:induction false} FromEmpty(full: nat, rem: nat, limit: nat)
    requires limit >= ENC_CHUNK && rem < CHUNK
    ensures |Parts(0, ChunkSizes(full * CHUNK + rem), limit)| == CountFromEmpty(full, rem, limit)
    decreases full
  {
    var per := limit / ENC_CHUNK;
    if full <= per {
      PartsTake(0, full * CHUNK + rem, limit, full);
      CountOnePart(full, rem, limit);
      LastChunk(full * ENC_CHUNK, rem, limit);
    } else {
      PartsTake(0, full * CHUNK + rem, limit, per);
      NextPart(per * ENC_CHUNK, (full - per) * CHUNK + rem, limit);
      FromEmpty(full - per, rem, limit);
      CountStep(full, rem, limit);
    }
  }

  lemma LastChunk(used: nat, rem: nat, limit: nat)
    requires rem < CHUNK
    ensures |Parts(used, ChunkSizes(rem), limit)| == if rem > 0 && used + rem + OVERHEAD > limit then 2 else 1
  {
  }

  /** A whole chunk that no longer fits opens a new, empty part. */
  lemma NextPart(used: nat, size: nat, limit: nat)
    requires size >= CHUNK && used + ENC_CHUNK > limit && ENC_CHUNK <= limit
    ensures Parts(used, ChunkSizes(size), limit) == [used] + Parts(0, ChunkSizes(size), limit)
  {
  }

  lemma PartCountClosedForm(size: nat, limit: nat)
    requires limit >= ENC_CHUNK + HEADER_SIZE
    ensures |PartSizes(size, limit)| == ClosedCount(size, limit)
  {
    var full, rem := size / CHUNK, size % CHUNK;
    var first := (limit - HEADER_SIZE) / ENC_CHUNK;
    var take := Min(full, first);
    PartsTake(HEADER_SIZE, size, limit, take);
    if full > first {
      NextPart(HEADER_SIZE + first * ENC_CHUNK, size - first * CHUNK, limit);
      FromEmpty(full - first, rem, limit);
    } else {
      LastChunk(HEADER_SIZE + full * ENC_CHUNK, rem, limit);
    }
  }

  // ----- Which files are accepted ---------------------------------------------------------

  /** While the encrypted file fits 10000 parts of 8 MiB. */
  lemma AcceptedAtDirectSize(size: nat)
    requires ObjectSize(size, CHUNK) <= MAX_PARTS * DIRECT_PART_SIZE
    ensures PartSizeOf(size) == DIRECT_PART_SIZE
    ensures ChosenPartSize(size).Some? <==> size <= 1_270_000 * CHUNK + 61_952
  {
    CeilDivAtMost(ObjectSize(size, CHUNK), MAX_PARTS, DIRECT_PART_SIZE);
    PartCountClosedForm(size, DIRECT_PART_SIZE);
  }

  /** Chunks per part for larger files. */
  function ChunksPerPart(size: nat): nat {
    CeilDiv(CeilDiv(ObjectSize(size, CHUNK), MAX_PARTS), ENC_CHUNK)
  }

  /** Count of a part size of `k` whole chunks: the header costs one chunk in the first part. */
  lemma AlignedCount(size: nat, k: nat)
    requires k >= 2 && size / CHUNK >= k
    ensures |PartSizes(size, k * ENC_CHUNK)| == 1 + CeilDiv(CeilDiv(size, CHUNK) - (k - 1), k)
  {
    var full, rem := size / CHUNK, size % CHUNK;
    var limit := k * ENC_CHUNK;
    DivUnique(limit - HEADER_SIZE, ENC_CHUNK, k - 1, ENC_CHUNK - HEADER_SIZE);
    DivUnique(limit, ENC_CHUNK, k, 0);
    PartCountClosedForm(size, limit);
    var m := full - (k - 1);
    assert |PartSizes(size, limit)| == 1 + CountFromEmpty(m, rem, limit);
    if rem == 0 {
      CeilDivUnique(size, CHUNK, full);
    } else {
      CeilDivUnique(size, CHUNK, full + 1);
      LastFullPart(m, k, rem);
      CeilDivSuccessor(m, k);
    }
  }

  /** The short chunk overflows exactly when the last part is full of whole chunks. */
  lemma LastFullPart(m: nat, k: nat, rem: nat)
    requires m >= 1 && k >= 1 && 0 < rem < CHUNK
    ensures ((m - 1) % k + 1) * ENC_CHUNK + rem + OVERHEAD > k * ENC_CHUNK <==> m % k == 0
  {
    var q, r := (m - 1) / k, (m - 1) % k;
    assert m - 1 == q * k + r;
    MulSucc(q, k);
    if r + 1 == k {
      DivUnique(m, k, q + 1, 0);
    } else {
      DivUnique(m, k, q, r + 1);
    }
  }

  /** Beyond that, the part size is a multiple of the chunk size, and the header costs one chunk. */
  lemma AcceptedAtLargerSize(size: nat)
    requires ObjectSize(size, CHUNK) > MAX_PARTS * DIRECT_PART_SIZE
    ensures var k := ChunksPerPart(size);
            && PartSizeOf(size) == k * ENC_CHUNK
            && (ChosenPartSize(size).Some? <==>
                  k * ENC_CHUNK <= MAX_PART && CeilDiv(size, CHUNK) <= MAX_PARTS * k - 1)
  {
    var total := ObjectSize(size, CHUNK);
    var needed := CeilDiv(total, MAX_PARTS);
    var k := ChunksPerPart(size);
    CeilDivAtMost(total, MAX_PARTS, DIRECT_PART_SIZE);
    CeilDivBounds(total, MAX_PARTS);
    CeilDivBounds(needed, ENC_CHUNK);
    CeilDivBounds(size, CHUNK);
    AlignedCount(size, k);
    CeilDivAtMost(CeilDiv(size, CHUNK) - (k - 1), k, MAX_PARTS - 1);
  }

  /** Exactly the files that can be uploaded. */
  ghost predicate Uploadable(size: nat) {
    if ObjectSize(size, CHUNK) <= MAX_PARTS * DIRECT_PART_SIZE then size <= 1_270_000 * CHUNK + 61_952
    else ChunksPerPart(size) * ENC_CHUNK <= MAX_PART
         && CeilDiv(size, CHUNK) <= MAX_PARTS * ChunksPerPart(size) - 1
  }

  lemma AcceptedExactlyWhenUploadable(size: nat)
    ensures ChosenPartSize(size).Some? <==> Uploadable(size)
  {
    if ObjectSize(size, CHUNK) <= MAX_PARTS * DIRECT_PART_SIZE {
      AcceptedAtDirectSize(size);
    } else {
      AcceptedAtLargerSize(size);
    }
  }

  /** Not every file below the 10000-part ceiling of 8 MiB is accepted. */
  lemma SomeSmallFilesAreRefused()
    ensures var size := 1_270_001 * CHUNK;
            ObjectSize(size, CHUNK) <= MAX_PARTS * DIRECT_PART_SIZE && ChosenPartSize(size) == None
  {
    AcceptedAtDirectSize(1_270_001 * CHUNK);
  }

  // ----- Completing an upload -------------------------------------------------------------

  datatype PartInfo = PartInfo(number: int, etag: string, size: int)
  datatype CompletePart = CompletePart(number: int, etag: string)

  /** The Unicode white space that TrimSpace removes. */
  predicate IsSpace(c: char) {
    || '\t' <= c <= '\r' || c == ' ' || c == '\U{85}' || c == '\U{A0}' || c == '\U{1680}'
    || '\U{2000}' <= c <= '\U{200A}' || c == '\U{2028}' || c == '\U{2029}' || c == '\U{202F}'
    || c == '\U{205F}' || c == '\U{3000}'
  }

  /** All characters with the property, one by one. */
  lemma SpacesAre(c: char)
    ensures IsSpace(c) <==> c in {
              '\t', '\n', '\U{B}', '\U{C}', '\r', ' ', '\U{85}', '\U{A0}', '\U{1680}',
              '\U{2000}', '\U{2001}', '\U{2002}', '\U{2003}', '\U{2004}', '\U{2005}', '\U{2006}', '\U{2007}',
              '\U{2008}', '\U{2009}', '\U{200A}', '\U{2028}', '\U{2029}', '\U{202F}', '\U{205F}', '\U{3000}'}
  {
  }

  predicate Blank(s: string) {
    forall i :: 0 <= i < |s| ==> IsSpace(s[i])
  }

  /** Trimming leaves nothing of a string exactly if all its characters are spaces. */
  lemma BlankIs(s: string)
    ensures Blank(s) <==> forall c :: c in s ==> IsSpace(c)
  {
    hide IsSpace;
    forall i | 0 <= i < |s|
      ensures s[i] in s
    {
    }
  }

  predicate GoodPart(p: PartInfo, index: nat, count: nat) {
    p.number == index + 1 && !Blank(p.etag) && 0 < p.size <= MAX_PART
    && (index < count - 1 ==> p.size >= MIN_PART)
  }

  function TotalSize(parts: seq<PartInfo>): int {
    if parts == [] then 0 else TotalSize(parts[..|parts| - 1]) + parts[|parts| - 1].size
  }

  /** The list the object store reports describes this upload. */
  predicate Describes(parts: seq<PartInfo>, maximumCount: int, expectedSize: int) {
    && 0 < |parts| <= maximumCount
    && (forall i :: 0 <= i < |parts| ==> GoodPart(parts[i], i, |parts|))
    && TotalSize(parts) == expectedSize
  }

  lemma {:induction false} TotalGrows(parts: seq<PartInfo>, n: nat)
    requires n <= |parts| && forall i :: 0 <= i < |parts| ==> parts[i].size > 0
    ensures TotalSize(parts[..n]) <= TotalSize(parts)
    decreases |parts|
  {
    if n < |parts| {
      var shorter := parts[..|parts| - 1];
      TotalGrows(shorter, n);
      assert shorter[..n] == parts[..n];
    } else {
      assert parts[..n] == parts;
    }
  }

  /** Accepts exactly the lists that describe the upload; no int64 step can overflow. */
  method AuthoritativeCompleteParts(parts: seq<PartInfo>, maximumCount: int, expectedSize: int)
    returns (complete: seq<CompletePart>, ok: bool)
    requires expectedSize <= MAX_INT64
    ensures ok <==> Describes(parts, maximumCount, expectedSize)
    ensures ok ==> |complete| == |parts|
                   && forall i :: 0 <= i < |parts| ==> complete[i] == CompletePart(i + 1, parts[i].etag)
  {
    complete := [];
    if |parts| == 0 || |parts| > maximumCount || expectedSize <= 0 {
      TotalIsPositive(parts);
      return [], false;
    }
    var totalSize := 0;
    for i := 0 to |parts|
      invariant forall j :: 0 <= j < i ==> GoodPart(parts[j], j, |parts|)
      invariant 0 <= totalSize == TotalSize(parts[..i]) <= expectedSize
      invariant |complete| == i
      invariant forall j :: 0 <= j < i ==> complete[j] == CompletePart(j + 1, parts[j].etag)
    {
      var part := parts[i];
      if part.number != i + 1 || Blank(part.etag) || part.size <= 0 || part.size > MAX_PART {
        return [], false;
      }
      if i < |parts| - 1 && part.size < MIN_PART {
        return [], false;
      }
      assert parts[..i + 1][..i] == parts[..i];
      assert -MAX_INT64 <= expectedSize - part.size <= MAX_INT64;
      if totalSize > expectedSize - part.size {
        if Describes(parts, maximumCount, expectedSize) {
          TotalGrows(parts, i + 1);
        }
        return [], false;
      }
      totalSize := totalSize + part.size;
      complete := complete + [CompletePart(part.number, part.etag)];
    }
    assert parts[..|parts|] == parts;
    ok := totalSize == expectedSize;
  }

  lemma TotalIsPositive(parts: seq<PartInfo>)
    ensures parts != [] && (forall i :: 0 <= i < |parts| ==> parts[i].size > 0) ==> TotalSize(parts) > 0
  {
    if parts != [] && forall i :: 0 <= i < |parts| ==> parts[i].size > 0 {
      TotalGrows(parts, 1);
      assert parts[..1][..0] == [];
    }
  }

  /** The list an honest store reports for the planned parts. */
  function Reported(sizes: seq<nat>, etags: seq<string>): seq<PartInfo>
    requires |etags| == |sizes|
  {
    seq(|sizes|, i requires 0 <= i < |sizes| => PartInfo(i + 1, etags[i], sizes[i]))
  }

  lemma {:induction false} ReportedTotal(sizes: seq<nat>, etags: seq<string>)
    requires |etags| == |sizes|
    ensures TotalSize(Reported(sizes, etags)) == Sum(sizes)
    decreases |sizes|
  {
    if sizes != [] {
      var n := |sizes| - 1;
      ReportedTotal(sizes[..n], etags[..n]);
      assert Reported(sizes, etags)[..n] == Reported(sizes[..n], etags[..n]);
      SumLast(sizes);
    }
  }

  lemma {:induction false} SumLast(xs: seq<nat>)
    requires xs != []
    ensures Sum(xs) == Sum(xs[..|xs| - 1]) + xs[|xs| - 1]
    decreases |xs|
  {
    if |xs| > 1 {
      SumLast(xs[1..]);
      assert xs[1..][..|xs| - 2] == xs[..|xs| - 1][1..];
    }
  }

  /** Whatever size is accepted for upload, its parts are accepted on completion. */
  lemma PlannedUploadCompletes(size: nat, etags: seq<string>)
    requires ChosenPartSize(size).Some?
    requires var sizes := PartSizes(size, ChosenPartSize(size).value);
             |etags| == |sizes| && forall i :: 0 <= i < |etags| ==> !Blank(etags[i])
    ensures var sizes := PartSizes(size, ChosenPartSize(size).value);
            && |sizes| <= MAX_PARTS
            && ObjectSize(size, CHUNK) <= MAX_INT64
            && Describes(Reported(sizes, etags), |sizes|, ObjectSize(size, CHUNK))
  {
    var limit := ChosenPartSize(size).value;
    var sizes := PartSizes(size, limit);
    forall i | 0 <= i < |sizes| ensures GoodPart(Reported(sizes, etags)[i], i, |sizes|) {
      PartSizesBounded(size, limit, i);
    }
    ReportedTotal(sizes, etags);
    PartSizesSum(size, limit);
    if size > 0x4000_0000_0000_0000 {
      HugeIsRefused(size, limit);
    } else {
      SizeFits(size);
    }
  }

  // ----- Recovering the plaintext size ----------------------------------------------------

  /** What discoverSize computes from the object length and the chunk size in the header. */
  method DiscoverSize(length: int, version: Byte, chunkSize: nat) returns (size: Option<nat>)
    ensures size.Some? <==>
              version == CRYPTO_VERSION && 0 < chunkSize <= 1048576
              && exists n: nat :: ObjectSize(n, chunkSize) == length
    ensures size.Some? ==> ObjectSize(size.value, chunkSize) == length
  {
    if length < HEADER_SIZE {
      return None;
    }
    if version != CRYPTO_VERSION || chunkSize <= 0 || chunkSize > 1048576 {
      return None;
    }
    var payload: nat := length - HEADER_SIZE;
    var chunks := CeilDiv(payload, chunkSize + NONCE_SIZE + TAG_SIZE);
    var plain := payload - chunks * (NONCE_SIZE + TAG_SIZE);
    forall n: nat | ObjectSize(n, chunkSize) == length ensures plain == n && CeilDiv(n, chunkSize) == chunks {
      SameChunkCount(n, chunkSize);
    }
    if plain < 0 || CeilDiv(plain, chunkSize) != chunks {
      return None;
    }
    size := Some(plain);
    assert ObjectSize(plain, chunkSize) == length;
  }

  /** The encrypted length has as many encrypted chunks as the plaintext has chunks. */
  lemma SameChunkCount(n: nat, chunkSize: nat)
    requires chunkSize > 0
    ensures CeilDiv(n + CeilDiv(n, chunkSize) * OVERHEAD, chunkSize + OVERHEAD) == CeilDiv(n, chunkSize)
  {
    var m := CeilDiv(n, chunkSize);
    CeilDivBounds(n, chunkSize);
    if m > 0 {
      assert m * (chunkSize + OVERHEAD) == m * chunkSize + m * OVERHEAD;
      assert (m - 1) * (chunkSize + OVERHEAD) == (m - 1) * chunkSize + (m - 1) * OVERHEAD;
    }
    CeilDivUnique(n + m * OVERHEAD, chunkSize + OVERHEAD, m);
  }

  /** The size determines the length and the length determines the size. */
  lemma SizeIsDetermined(a: nat, b: nat, chunkSize: nat)
    requires chunkSize > 0 && ObjectSize(a, chunkSize) == ObjectSize(b, chunkSize)
    ensures a == b
  {
    SameChunkCount(a, chunkSize);
    SameChunkCount(b, chunkSize);
  }
}
