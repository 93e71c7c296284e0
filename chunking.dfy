/** Chunk planning of the download orchestrator: the chunk size, the chunk
    count and the inclusive byte range each chunk asks the server for (the
    `first-last` byte-range-spec of section 14.1.2 of RFC 9110, sent as a
    `bytes=first-last` Range header). Sizes are unbounded integers; Go's
    truncating `/` and `%` are written out, so a negative size is planned
    exactly as the code plans it. */
module Chunking {

  /** The smallest chunk the planner produces: 1 MiB. */
  const MinChunkSize: int := 1024 * 1024
  /** The number of chunks the planner aims for. */
  const IdealChunks: int := 10

  // ---------------------------------------------------------------------
  // Go's integer division (truncation toward zero) for a positive divisor

  /** Go's `a / b`: the quotient rounded toward zero. */
  function Quot(a: int, b: int): int
    requires b > 0
  {
    if a >= 0 then a / b else -((-a) / b)
  }

  /** Go's `a % b`: what is left after truncating division; it has the sign of `a`. */
  function Rem(a: int, b: int): int
    requires b > 0
  {
    a - Quot(a, b) * b
  }

  /** Truncating division rounds toward zero, and the remainder is smaller than
      the divisor and has the sign of the dividend. */
  lemma QuotRem(a: int, b: int)
    requires b > 0
    ensures a == Quot(a, b) * b + Rem(a, b)
    ensures a >= 0 ==> 0 <= Quot(a, b) * b <= a < Quot(a, b) * b + b && 0 <= Rem(a, b) < b
    ensures a < 0 ==> Quot(a, b) * b - b < a <= Quot(a, b) * b <= 0 && -b < Rem(a, b) <= 0
  {
    if a >= 0 {
      EuclidNonNegative(a, b);
    } else {
      EuclidNonNegative(-a, b);
      var m := (-a) / b;
      assert (-m) * b == -(m * b);
    }
  }

  /** Dafny's `/` and `%` agree with Go's on a non-negative dividend. */
  lemma EuclidNonNegative(a: int, b: int)
    requires a >= 0 && b > 0
    ensures 0 <= (a / b) * b <= a < (a / b) * b + b
  {
    assert a == (a / b) * b + a % b;
    MulLeft(0, a / b, b);
  }

  // ---------------------------------------------------------------------
  // calculateChunkSize and numChunks

  /** `calculateChunkSize(size)`: the larger of 1 MiB and a tenth of the size. */
  function ChunkSize(size: int): (cs: int)
    ensures cs >= MinChunkSize && cs >= Quot(size, IdealChunks)
    ensures cs == MinChunkSize || cs == Quot(size, IdealChunks)
  {
    var cs := Quot(size, IdealChunks);
    if cs < MinChunkSize then MinChunkSize else cs
  }

  /** `numChunks(size, cs)`: one chunk per whole `cs` bytes, plus one for a
      remainder. */
  function NumChunks(size: int, cs: int): int
    requires cs > 0
  {
    var q := Quot(size, cs);
    if Rem(size, cs) != 0 then q + 1 else q
  }

  /** The chunk count is the ceiling of `size / cs`. For a negative size Go's
      truncating arithmetic gives one chunk when `size > -cs` and none otherwise. */
  lemma NumChunksIsCeiling(size: int, cs: int)
    requires cs > 0
    ensures var n := NumChunks(size, cs);
      && (size == 0 ==> n == 0)
      && (size > 0 ==> 1 <= n && (n - 1) * cs < size <= n * cs)
      && (size < 0 ==> if -cs < size then n == 1 else n <= 0)
  {
    QuotRem(size, cs);
    var q := Quot(size, cs);
    if size < 0 && size <= -cs {
      if q > 0 {
        MulLeft(1, q, cs);
      }
    }
    if size < 0 && -cs < size && q <= -1 {
      MulLeft(q, -1, cs);
    }
    if size > 0 {
      if q < 0 {
        MulLeft(q, -1, cs);
      }
      MulSucc(q, cs);
      MulSucc(q - 1, cs);
    }
  }

  /** How many times the loops `for i := 0; i < numChunks(size, cs); i++` run. */
  function Iterations(size: int, cs: int): (k: nat)
    requires cs > 0
    ensures k == NumChunks(size, cs) || (k == 0 && NumChunks(size, cs) < 0)
    ensures size >= 0 ==> k == NumChunks(size, cs)
  {
    var n := NumChunks(size, cs);
    if n < 0 then 0 else n
  }

  // ---------------------------------------------------------------------
  // Byte ranges

  /** An inclusive byte range `first-last`. */
  datatype ByteRange = ByteRange(first: int, last: int)
  {
    /** Number of bytes the range names. */
    function Length(): int { last - first + 1 }
  }

  /** The range chunk `i` asks for: it starts at `i * cs`; it ends one byte before
      the next chunk starts, except the last chunk, which ends at `size - 1`. */
  function ChunkRange(size: int, cs: int, i: int): ByteRange
    requires cs > 0
  {
    var last := if i == NumChunks(size, cs) - 1 then size - 1 else (i + 1) * cs - 1;
    ByteRange(i * cs, last)
  }

  /** The ranges of all chunks, in index order, for a given chunk size. */
  function Ranges(size: int, cs: int): seq<ByteRange>
    requires cs > 0
  {
    seq(Iterations(size, cs), i => ChunkRange(size, cs, i))
  }

  /** The plan `DownloadFile` follows for a file of `size` bytes. */
  function Plan(size: int): seq<ByteRange>
  {
    Ranges(size, ChunkSize(size))
  }

  /** How many chunks `DownloadFile` fetches and reassembles for a file of `size` bytes. */
  function PlannedChunks(size: int): (k: nat)
    ensures k == |Plan(size)|
  {
    Iterations(size, ChunkSize(size))
  }

  // ---------------------------------------------------------------------
  // Arithmetic helpers

  lemma MulLeft(a: int, b: int, c: int)
    requires a <= b && c >= 0
    ensures a * c <= b * c
  {
  }

  lemma MulSucc(i: int, c: int)
    ensures (i + 1) * c == i * c + c
  {
  }

  // ---------------------------------------------------------------------
  // Properties of the plan

  /** The chunk a byte offset falls into. */
  function Owner(b: int, cs: int): int
    requires cs > 0
  {
    b / cs
  }

  /** Chunk `i` of a non-negative size starts at `i * cs`, is non-empty and lies
      inside the file; every chunk but the last ends where the next one starts. */
  lemma ChunkInsideFile(size: int, cs: int, i: int)
    requires size >= 0 && cs > 0 && 0 <= i < NumChunks(size, cs)
    ensures var r := ChunkRange(size, cs, i);
      && r.first == i * cs && 0 <= r.first <= r.last < size
      && (i < NumChunks(size, cs) - 1 ==> r.last == (i + 1) * cs - 1 < (NumChunks(size, cs) - 1) * cs)
  {
    var n := NumChunks(size, cs);
    NumChunksIsCeiling(size, cs);
    MulLeft(0, i, cs);
    MulSucc(i, cs);
    if i < n - 1 {
      MulLeft(i + 1, n - 1, cs);
    }
  }

  /** A chunk ends before every later chunk starts. */
  lemma ChunksInOrder(size: int, cs: int, i: int, j: int)
    requires size >= 0 && cs > 0 && 0 <= i < j < NumChunks(size, cs)
    ensures ChunkRange(size, cs, i).last < ChunkRange(size, cs, j).first
  {
    ChunkInsideFile(size, cs, i);
    MulSucc(i, cs);
    MulLeft(i + 1, j, cs);
  }

  /** Every byte of the file lies in the range of the chunk `Owner` names. */
  lemma OwnerHoldsByte(size: int, cs: int, b: int)
    requires cs > 0 && 0 <= b < size
    ensures 0 <= Owner(b, cs) < NumChunks(size, cs)
    ensures ChunkRange(size, cs, Owner(b, cs)).first <= b <= ChunkRange(size, cs, Owner(b, cs)).last
  {
    var n := NumChunks(size, cs);
    NumChunksIsCeiling(size, cs);
    var o := Owner(b, cs);
    assert b == o * cs + b % cs;
    MulSucc(o, cs);
    if o >= n {
      MulLeft(n, o, cs);
    }
    if o < 0 {
      MulLeft(o, -1, cs);
    }
  }

  /** For a non-negative size the ranges tile `[0, size - 1]`: there are
      `numChunks` of them; chunk `i` starts at `i * cs`; every range is non-empty
      and inside the file; each range but the last ends at `(i + 1) * cs - 1` and
      the next one starts right after it; the first starts at 0 and the last ends
      at `size - 1`. */
  lemma RangesTile(size: int, cs: int)
    requires size >= 0 && cs > 0
    ensures var p := Ranges(size, cs);
      && |p| == NumChunks(size, cs)
      && (forall i :: 0 <= i < |p| ==> p[i].first == i * cs && p[i].first <= p[i].last)
      && (forall i :: 0 <= i < |p| ==> 0 <= p[i].first && p[i].last < size)
      && (forall i :: 0 <= i < |p| - 1 ==> p[i].last == (i + 1) * cs - 1 && p[i + 1].first == p[i].last + 1)
      && (|p| > 0 ==> p[0].first == 0 && p[|p| - 1].last == size - 1)
  {
    var p := Ranges(size, cs);
    var n := NumChunks(size, cs);
    NumChunksIsCeiling(size, cs);
    forall i | 0 <= i < n
      ensures 0 <= p[i].first <= p[i].last < size && p[i].first == i * cs
      ensures i < n - 1 ==> p[i].last == (i + 1) * cs - 1 && p[i + 1].first == p[i].last + 1
    {
      ChunkInsideFile(size, cs, i);
      if i < n - 1 {
        ChunkInsideFile(size, cs, i + 1);
        MulSucc(i, cs);
      }
    }
  }

  /** Ranges never overlap: each one ends before every later one starts. */
  lemma RangesDisjoint(size: int, cs: int)
    requires size >= 0 && cs > 0
    ensures var p := Ranges(size, cs);
      forall i, j :: 0 <= i < j < |p| ==> p[i].last < p[j].first
  {
    var p := Ranges(size, cs);
    NumChunksIsCeiling(size, cs);
    forall i, j | 0 <= i < j < |p|
      ensures p[i].last < p[j].first
    {
      ChunksInOrder(size, cs, i, j);
    }
  }

  /** The ranges cover the file: byte `b` lies in the range of chunk `b / cs`. */
  lemma RangesCoverFile(size: int, cs: int)
    requires size >= 0 && cs > 0
    ensures var p := Ranges(size, cs);
      forall b :: 0 <= b < size ==>
        0 <= Owner(b, cs) < |p| && p[Owner(b, cs)].first <= b <= p[Owner(b, cs)].last
  {
    var p := Ranges(size, cs);
    NumChunksIsCeiling(size, cs);
    forall b | 0 <= b < size
      ensures 0 <= Owner(b, cs) < |p| && p[Owner(b, cs)].first <= b <= p[Owner(b, cs)].last
    {
      OwnerHoldsByte(size, cs, b);
    }
  }

  /** The plan of a non-negative size is contiguous: it is empty only for an
      empty file, starts at byte 0, each range starts right after the previous
      one ends, every range lies inside the file, and the last one ends at the
      file's last byte. */
  lemma PlanIsContiguous(size: int)
    requires size >= 0
    ensures var p := Plan(size);
      && (|p| > 0 <==> size > 0)
      && (forall i :: 0 <= i < |p| ==> 0 <= p[i].first <= p[i].last < size)
      && (|p| > 0 ==> p[0].first == 0 && p[|p| - 1].last == size - 1)
      && (forall i :: 0 <= i < |p| - 1 ==> p[i + 1].first == p[i].last + 1)
  {
    var cs := ChunkSize(size);
    var p := Plan(size);
    var n := NumChunks(size, cs);
    NumChunksIsCeiling(size, cs);
    forall i | 0 <= i < n
      ensures 0 <= p[i].first <= p[i].last < size
      ensures i < n - 1 ==> p[i + 1].first == p[i].last + 1
    {
      ChunkInsideFile(size, cs, i);
      if i < n - 1 {
        ChunkInsideFile(size, cs, i + 1);
        MulSucc(i, cs);
      }
    }
  }

  /** For a negative size (a Content-Range total such as `-5`) the plan is one
      chunk whose end lies before its start when `size > -1 MiB`, and empty
      otherwise. */
  lemma NegativeSizePlan(size: int)
    requires size < 0
    ensures -MinChunkSize < size ==> Plan(size) == [ByteRange(0, size - 1)]
    ensures -MinChunkSize < size ==> Plan(size)[0].last < Plan(size)[0].first
    ensures size <= -MinChunkSize ==> Plan(size) == []
  {
    assert ChunkSize(size) == MinChunkSize;
  }

  /** A file of at most 1 MiB (and at least one byte) is fetched as one chunk
      covering the whole file. */
  lemma SmallFileSingleChunk(size: int)
    requires 0 < size <= MinChunkSize
    ensures Plan(size) == [ByteRange(0, size - 1)]
  {
    var cs := ChunkSize(size);
    assert cs == MinChunkSize;
    var n := NumChunks(size, cs);
    if n >= 2 {
      MulLeft(1, n - 1, cs);
    }
  }

  /** An empty file has an empty plan. */
  lemma EmptyFileNoChunks()
    ensures Plan(0) == []
  {
  }

  /** A file of exactly 10 MiB is fetched as ten chunks of exactly 1 MiB each,
      the last one ending at the file's last byte. */
  lemma TenMiBPlan()
    ensures var size := 10 * MinChunkSize; var p := Plan(size);
      && |p| == 10
      && (forall i :: 0 <= i < 10 ==> p[i].Length() == MinChunkSize)
      && p[9].last == size - 1
  {
    var size := 10 * MinChunkSize;
    assert ChunkSize(size) == MinChunkSize;
    var n := NumChunks(size, MinChunkSize);
    if n < 10 {
      MulLeft(n, 9, MinChunkSize);
    } else if n > 10 {
      MulLeft(11, n, MinChunkSize);
    }
    RangesTile(size, MinChunkSize);
  }

  /** The planner never produces more than eleven chunks. It produces eleven
      exactly when the size is at least 10 MiB and not a multiple of ten: the
      remainder of the division by ten (one to nine bytes) gets a chunk of its own. */
  lemma {:induction false} AtMostElevenChunks(size: int)
    requires size >= 0
    ensures |Plan(size)| <= 11
    ensures |Plan(size)| == 11 <==> size >= 10 * MinChunkSize && size % 10 != 0
  {
    var cs := ChunkSize(size);
    var n := NumChunks(size, cs);
    NumChunksIsCeiling(size, cs);
    if size >= 10 * MinChunkSize {
      assert cs == size / 10;
      assert size == 10 * cs + size % 10;
      if n <= 10 {
        MulLeft(n, 10, cs);
      }
      if n >= 12 {
        MulLeft(11, n - 1, cs);
      }
      if size % 10 != 0 {
        assert n != 10;
      } else {
        assert 10 * cs == size;
        if n >= 11 {
          MulLeft(10, n - 1, cs);
        }
      }
    } else if size > 0 {
      assert cs == MinChunkSize;
      if n >= 11 {
        MulLeft(10, n - 1, cs);
      }
    }
  }

  /** The three-chunk plan of a 25-byte file with the chunk size forced to 10. */
  lemma TwentyFiveBytesByTen()
    ensures Ranges(25, 10) == [ByteRange(0, 9), ByteRange(10, 19), ByteRange(20, 24)]
  {
    assert NumChunks(25, 10) == 3;
  }
}
