/**
 * crates/casync-rs/src/chunker.rs: cutting a byte string into chunks, by fixed size or where a
 * rolling gear hash meets a mask.
 *
 * SHA-256 is the argument `sha`; nothing is assumed of it here.
 */
module Chunking {
  import opened Bits
  import opened Cutting

  type ChunkHash(==, !new)

  type U64 = x: nat | x < TWO_TO_THE_64

  /** `size` is the length cast to 32 bits. */
  datatype Chunk = Chunk(offset: nat, size: nat, data: Bytes, hash: ChunkHash)

  function NewChunk(sha: Bytes -> ChunkHash, offset: nat, data: Bytes): Chunk {
    Chunk(offset, |data| % TWO_TO_THE_32, data, sha(data))
  }

  /** The chunks of consecutive pieces, the first at `offset`. */
  function Chunks(sha: Bytes -> ChunkHash, pieces: seq<Bytes>, offset: nat): (r: seq<Chunk>)
    ensures |r| == |pieces|
  {
    if pieces == [] then []
    else [NewChunk(sha, offset, pieces[0])] + Chunks(sha, pieces[1..], offset + |pieces[0]|)
  }

  lemma {:induction false} ChunksAppend(sha: Bytes -> ChunkHash, a: seq<Bytes>, b: seq<Bytes>, offset: nat)
    ensures Chunks(sha, a + b, offset) == Chunks(sha, a, offset) + Chunks(sha, b, offset + |Concat(a)|)
    decreases |a|
  {
    if a == [] {
      assert a + b == b;
    } else {
      assert (a + b)[1..] == a[1..] + b;
      ChunksAppend(sha, a[1..], b, offset + |a[0]|);
    }
  }

  lemma ChunksSnoc(sha: Bytes -> ChunkHash, a: seq<Bytes>, p: Bytes, offset: nat)
    ensures Chunks(sha, a + [p], offset) == Chunks(sha, a, offset) + [NewChunk(sha, offset + |Concat(a)|, p)]
  {
    ChunksAppend(sha, a, [p], offset);
    assert [p][1..] == [];
  }

  // ---------------------------------------------------------------------------
  // The gear hash

  const GEAR_FACTOR: nat := 0x9E37_79B9_7F4A_7C15

  /** `GEAR_TABLE[b]`. */
  function Gear(b: Byte): U64 {
    (b * GEAR_FACTOR) % TWO_TO_THE_64
  }

  /** `(hash << 1).wrapping_add(GEAR_TABLE[b])`. */
  function GearStep(hash: U64, b: Byte): U64 {
    ((hash * 2) % TWO_TO_THE_64 + Gear(b)) % TWO_TO_THE_64
  }

  function GearHash(s: Bytes): U64 {
    if s == [] then 0 else GearStep(GearHash(s[..|s| - 1]), s[|s| - 1])
  }

  /** The sum, over the last k bytes, of 2^j times the table value of the byte j positions back. */
  function SumBack(s: Bytes, k: nat): nat
    requires k <= |s|
  {
    if k == 0 then 0 else SumBack(s, k - 1) + Pow2(k - 1) * Gear(s[|s| - k])
  }

  lemma DoubleWeight(k: nat, g: nat)
    ensures Pow2(k + 1) * g == 2 * (Pow2(k) * g)
  {
    var p := Pow2(k);
    assert Pow2(k + 1) == 2 * p;
    assert (2 * p) * g == 2 * (p * g);
  }

  /** Shifting the window by one byte doubles every weight. */
  lemma {:induction false} SumBackShift(s: Bytes, b: Byte, k: nat)
    requires k <= |s|
    ensures SumBack(s + [b], k + 1) == 2 * SumBack(s, k) + Gear(b)
  {
    var t := s + [b];
    if k > 0 {
      SumBackShift(s, b, k - 1);
      assert t[|t| - (k + 1)] == s[|s| - k];
      DoubleWeight(k - 1, Gear(s[|s| - k]));
    } else {
      assert SumBack(t, 0) == 0 && t[|t| - 1] == b;
      assert SumBack(t, 1) == SumBack(t, 0) + Pow2(0) * Gear(b);
    }
  }

  lemma StepCongruent(hash: U64, sum: nat, b: Byte)
    requires hash == sum % TWO_TO_THE_64
    ensures GearStep(hash, b) == (2 * sum + Gear(b)) % TWO_TO_THE_64
  {
    hide Gear;
    var q, a := sum / TWO_TO_THE_64, (2 * hash) / TWO_TO_THE_64;
    var low := (hash * 2) % TWO_TO_THE_64;
    assert sum == q * TWO_TO_THE_64 + hash;
    assert 2 * hash == a * TWO_TO_THE_64 + low;
    assert 2 * sum + Gear(b) == (low + Gear(b)) + (2 * q + a) * TWO_TO_THE_64;
    ModDrop(low + Gear(b), TWO_TO_THE_64, 2 * q + a);
  }

  /** Without wrap-around the hash would be the whole weighted sum; with it, that sum mod 2^64. */
  lemma {:induction false} GearHashIsSum(s: Bytes)
    ensures GearHash(s) == SumBack(s, |s|) % TWO_TO_THE_64
    decreases |s|
  {
    if s != [] {
      var front, b := s[..|s| - 1], s[|s| - 1];
      GearHashIsSum(front);
      assert s == front + [b];
      SumBackShift(front, b, |front|);
      StepCongruent(GearHash(front), SumBack(front, |front|), b);
    }
  }

  /** Bytes more than k positions back carry weights divisible by 2^k. */
  lemma {:induction false} FarBytesVanish(s: Bytes, k: nat, n: nat)
    requires k <= n <= |s|
    ensures SumBack(s, n) % Pow2(k) == SumBack(s, k) % Pow2(k)
    decreases n
  {
    if n > k {
      FarBytesVanish(s, k, n - 1);
      var g := Gear(s[|s| - n]);
      Pow2Add(n - 1 - k, k);
      assert Pow2(n - 1) * g == (Pow2(n - 1 - k) * g) * Pow2(k) by {
        assert Pow2(n - 1) == Pow2(n - 1 - k) * Pow2(k);
        Regroup(Pow2(n - 1 - k), Pow2(k), g);
      }
      ModDrop(SumBack(s, n - 1), Pow2(k), Pow2(n - 1 - k) * g);
    }
  }

  lemma Regroup(a: nat, b: nat, c: nat)
    ensures (a * b) * c == (a * c) * b
  {
  }

  lemma Pow64()
    ensures Pow2(64) == TWO_TO_THE_64
  {
    assert Pow2(4) == 16;
    Pow2Add(4, 4);
    assert Pow2(8) == 256;
    Pow2Add(8, 8);
    assert Pow2(16) == 0x1_0000;
    Pow2Add(16, 16);
    assert Pow2(32) == 0x1_0000_0000;
    Pow2Add(32, 32);
  }

  /** The low k bits of the hash are the weighted sum of the last k bytes. */
  lemma LowBitsAreLastBytes(s: Bytes, k: nat)
    requires k <= 64 && k <= |s|
    ensures GearHash(s) % Pow2(k) == SumBack(s, k) % Pow2(k)
  {
    GearHashIsSum(s);
    Pow64();
    Pow2Add(k, 64 - k);
    ModMod(SumBack(s, |s|), Pow2(k), Pow2(64 - k));
    FarBytesVanish(s, k, |s|);
  }

  lemma {:induction false} SumBackLocal(s: Bytes, t: Bytes, k: nat)
    requires k <= |s| && k <= |t| && s[|s| - k..] == t[|t| - k..]
    ensures SumBack(s, k) == SumBack(t, k)
  {
    if k > 0 {
      assert s[|s| - k] == s[|s| - k..][0] == t[|t| - k];
      assert s[|s| - (k - 1)..] == s[|s| - k..][1..];
      assert t[|t| - (k - 1)..] == t[|t| - k..][1..];
      SumBackLocal(s, t, k - 1);
    }
  }

  /** The sum, over the last k bytes, of 2^j times the byte j positions back. */
  function ByteSum(s: Bytes, k: nat): nat
    requires k <= |s|
  {
    if k == 0 then 0 else ByteSum(s, k - 1) + Pow2(k - 1) * s[|s| - k]
  }

  /** The table is linear, so the weighted sum of its values is a multiple of that of the bytes, mod 2^64. */
  lemma {:induction false} TableIsLinear(s: Bytes, k: nat) returns (q: nat)
    requires k <= |s|
    ensures GEAR_FACTOR * ByteSum(s, k) == SumBack(s, k) + q * TWO_TO_THE_64
  {
    q := 0;
    if k > 0 {
      var q0 := TableIsLinear(s, k - 1);
      var b, p := s[|s| - k], Pow2(k - 1);
      var r := (b * GEAR_FACTOR) / TWO_TO_THE_64;
      assert b * GEAR_FACTOR == Gear(b) + r * TWO_TO_THE_64;
      LinearTerm(GEAR_FACTOR, p, b, Gear(b), r, TWO_TO_THE_64);
      q := q0 + p * r;
      assert GEAR_FACTOR * (ByteSum(s, k - 1) + p * b) == GEAR_FACTOR * ByteSum(s, k - 1) + GEAR_FACTOR * (p * b);
      assert (q0 + p * r) * TWO_TO_THE_64 == q0 * TWO_TO_THE_64 + (p * r) * TWO_TO_THE_64;
    }
  }

  lemma LinearTerm(f: nat, p: nat, b: nat, g: nat, r: nat, m: nat)
    requires b * f == g + r * m
    ensures f * (p * b) == p * g + (p * r) * m
  {
    assert f * (p * b) == p * (b * f);
    assert p * (g + r * m) == p * g + p * (r * m);
    assert p * (r * m) == (p * r) * m;
  }

  /**
   * So the table hides nothing: with a mask of k low ones the hash meets the mask exactly when the
   * last k bytes, weighted by powers of two, sum to a multiple of 2^k.
   */
  lemma MaskTestIsByteSum(s: Bytes, k: nat)
    requires k < 64
    ensures BitAnd(GearHash(s), Pow2(k) - 1) == 0 <==>
      ByteSum(s, if k <= |s| then k else |s|) % Pow2(k) == 0
  {
    hide GearHash, SumBack, ByteSum, Pow2, BitAnd;
    var n := if k <= |s| then k else |s|;
    MaskIsMod(GearHash(s), k);
    LowBits(s, k);
    var q := TableIsLinear(s, n);
    WrapsVanish(GEAR_FACTOR * ByteSum(s, n), SumBack(s, n), q, k);
    OddFactor(GEAR_FACTOR, ByteSum(s, n), k);
  }

  /** The low k bits of the hash of any string, however short. */
  lemma LowBits(s: Bytes, k: nat)
    requires k <= 64
    ensures GearHash(s) % Pow2(k) == SumBack(s, if k <= |s| then k else |s|) % Pow2(k)
  {
    hide GearHash, SumBack;
    if k <= |s| {
      LowBitsAreLastBytes(s, k);
    } else {
      GearHashIsSum(s);
      Pow64();
      Pow2Add(k, 64 - k);
      hide Pow2;
      ModMod(SumBack(s, |s|), Pow2(k), Pow2(64 - k));
    }
  }

  lemma WrapsVanish(a: nat, b: nat, q: nat, k: nat)
    requires k <= 64 && a == b + q * TWO_TO_THE_64
    ensures a % Pow2(k) == b % Pow2(k)
  {
    Pow64();
    Pow2Add(k, 64 - k);
    hide Pow2;
    MultipleVanishes(a, b, q, Pow2(k), Pow2(64 - k), TWO_TO_THE_64);
  }

  lemma MultipleVanishes(a: nat, b: nat, q: nat, p: nat, c: nat, m: nat)
    requires p > 0 && m == p * c && a == b + q * m
    ensures a % p == b % p
  {
    assert q * (p * c) == (q * c) * p;
    ModDrop(b, p, q * c);
  }

  /** With a mask of k low ones, whether the hash meets the mask depends only on the last k bytes. */
  lemma MaskTestIsLocal(s: Bytes, t: Bytes, k: nat)
    requires k < 64 && k <= |s| && k <= |t| && s[|s| - k..] == t[|t| - k..]
    ensures BitAnd(GearHash(s), Pow2(k) - 1) == BitAnd(GearHash(t), Pow2(k) - 1) == SumBack(s, k) % Pow2(k)
  {
    LowBitsAreLastBytes(s, k);
    LowBitsAreLastBytes(t, k);
    SumBackLocal(s, t, k);
    MaskIsMod(GearHash(s), k);
    MaskIsMod(GearHash(t), k);
  }

  // ---------------------------------------------------------------------------
  // Content-defined cutting

  datatype GearParams = GearParams(minSize: nat, maxSize: nat, mask: U64)

  /** A chunk grown to exactly these bytes is cut here. */
  predicate CutHere(cfg: GearParams, piece: Bytes) {
    || (BitAnd(GearHash(piece), cfg.mask) == 0 && |piece| >= cfg.minSize)
    || |piece| >= cfg.maxSize
  }

  /** The test the gear hash makes, with these parameters. */
  function GearCut(cfg: GearParams): Cut {
    piece => CutHere(cfg, piece)
  }

  /** Where a piece is cut, in terms of its bytes alone. */
  lemma CutIsByteSum(cfg: GearParams, k: nat, s: Bytes)
    requires k < 64 && cfg.mask == Pow2(k) - 1
    ensures GearCut(cfg)(s) <==>
      || |s| >= cfg.maxSize
      || (|s| >= cfg.minSize && ByteSum(s, if k <= |s| then k else |s|) % Pow2(k) == 0)
  {
    MaskTestIsByteSum(s, k);
  }

  lemma {:induction false} ZerosSumToZero(s: Bytes, k: nat)
    requires k <= |s| && forall b :: b in s ==> b == 0
    ensures ByteSum(s, k) == 0
  {
    if k > 0 {
      ZerosSumToZero(s, k - 1);
      assert s[|s| - k] in s;
    }
  }

  /** A run of zero bytes is cut at exactly the minimum size. */
  lemma ZeroRunCutsAtMinimum(cfg: GearParams, k: nat, data: Bytes, i: nat)
    requires k < 64 && cfg.mask == Pow2(k) - 1 && 1 <= cfg.minSize <= cfg.maxSize
    requires i < |Split(GearCut(cfg), data)| && forall b :: b in Split(GearCut(cfg), data)[i] ==> b == 0
    ensures |Split(GearCut(cfg), data)[i]| <= cfg.minSize
    ensures i < |Split(GearCut(cfg), data)| - 1 ==> |Split(GearCut(cfg), data)[i]| == cfg.minSize
  {
    hide GearHash, ByteSum, BitAnd, Split;
    SplitCutsRight(GearCut(cfg), data);
    GearPieceBounded(cfg, data, i);
    var piece := Split(GearCut(cfg), data)[i];
    if |piece| > cfg.minSize {
      var front := piece[..cfg.minSize];
      assert forall b :: b in front ==> b in piece;
      ZerosSumToZero(front, if k <= |front| then k else |front|);
      CutIsByteSum(cfg, k, front);
    }
  }

  /** Between the size limits, cutting depends only on the last k bytes. */
  lemma CutIsLocal(cfg: GearParams, k: nat, s: Bytes, t: Bytes)
    requires k < 64 && cfg.mask == Pow2(k) - 1 && k <= |s| && k <= |t|
    requires cfg.minSize <= |s| < cfg.maxSize && cfg.minSize <= |t| < cfg.maxSize
    requires s[|s| - k..] == t[|t| - k..]
    ensures CutHere(cfg, s) <==> CutHere(cfg, t)
    ensures CutHere(cfg, s) <==> SumBack(s, k) % Pow2(k) == 0
  {
    MaskTestIsLocal(s, t, k);
  }

  function Shifted(chunks: seq<Chunk>, delta: nat): seq<Chunk> {
    seq(|chunks|, i requires 0 <= i < |chunks| => chunks[i].(offset := chunks[i].offset + delta))
  }

  lemma {:induction false} ChunksShift(sha: Bytes -> ChunkHash, pieces: seq<Bytes>, offset: nat, delta: nat)
    ensures Chunks(sha, pieces, offset + delta) == Shifted(Chunks(sha, pieces, offset), delta)
    decreases |pieces|
  {
    if pieces != [] {
      ChunksShift(sha, pieces[1..], offset + |pieces[0]|, delta);
      var whole := Chunks(sha, pieces, offset);
      assert whole[1..] == Chunks(sha, pieces[1..], offset + |pieces[0]|);
      assert Shifted(whole, delta) == [whole[0].(offset := offset + delta)] + Shifted(whole[1..], delta);
    }
  }

  function CutChunks(sha: Bytes -> ChunkHash, cut: Cut, data: Bytes): seq<Chunk> {
    Chunks(sha, Split(cut, data), 0)
  }

  /** After a prefix that ends on a boundary come exactly the suffix's chunks, shifted. */
  lemma ChunksResync(sha: Bytes -> ChunkHash, cut: Cut, prefix: Bytes, suffix: Bytes)
    requires EndsOnBoundary(cut, prefix)
    ensures CutChunks(sha, cut, prefix + suffix) ==
            CutChunks(sha, cut, prefix) + Shifted(CutChunks(sha, cut, suffix), |prefix|)
  {
    hide Split, EndsOnBoundary, Chunks;
    SplitCutsRight(cut, prefix);
    Resync(cut, prefix, suffix);
    ChunksAppend(sha, Split(cut, prefix), Split(cut, suffix), 0);
    ChunksShift(sha, Split(cut, suffix), 0, |prefix|);
  }

  function Hashes(chunks: seq<Chunk>): seq<ChunkHash> {
    seq(|chunks|, i requires 0 <= i < |chunks| => chunks[i].hash)
  }

  /** So two files with a common suffix that starts at a boundary in both share all later hashes. */
  lemma CommonSuffixSharesHashes(sha: Bytes -> ChunkHash, cut: Cut, a: Bytes, b: Bytes, suffix: Bytes)
    requires EndsOnBoundary(cut, a) && EndsOnBoundary(cut, b)
    ensures Hashes(CutChunks(sha, cut, a + suffix)) ==
      Hashes(CutChunks(sha, cut, a)) + Hashes(CutChunks(sha, cut, suffix))
    ensures Hashes(CutChunks(sha, cut, b + suffix)) ==
      Hashes(CutChunks(sha, cut, b)) + Hashes(CutChunks(sha, cut, suffix))
  {
    hide Split, CutChunks, EndsOnBoundary;
    ChunksResync(sha, cut, a, suffix);
    ChunksResync(sha, cut, b, suffix);
  }

  /**
   * No chunk outgrows the maximum (a maximum of zero acts as one), and every chunk but the last
   * reaches the minimum, or the maximum where that is smaller.
   */
  lemma GearPieceBounded(cfg: GearParams, data: Bytes, i: nat)
    requires i < |Split(GearCut(cfg), data)|
    ensures |Split(GearCut(cfg), data)[i]| <= if cfg.maxSize == 0 then 1 else cfg.maxSize
    ensures i < |Split(GearCut(cfg), data)| - 1 ==>
      |Split(GearCut(cfg), data)[i]| >= if cfg.minSize < cfg.maxSize then cfg.minSize else cfg.maxSize
  {
    SplitCutsRight(GearCut(cfg), data);
    var piece := Split(GearCut(cfg), data)[i];
    var bound := if cfg.maxSize == 0 then 1 else cfg.maxSize;
    var m := if bound <= |piece| then bound else |piece|;
    assert m >= cfg.maxSize ==> GearCut(cfg)(piece[..m]);
  }

  /** The chunk open at `start` has met no cut up to `end`. */
  ghost predicate OpenUpTo(cut: Cut, data: Bytes, start: nat, end: nat)
    requires start <= end <= |data|
  {
    forall m :: start < m <= end ==> !cut(data[start..m])
  }

  /** The pieces cut so far, all completed. */
  ghost predicate CutSoFar(cut: Cut, data: Bytes, pieces: seq<Bytes>) {
    IsSplit(cut, data, pieces) && (pieces != [] ==> cut(pieces[|pieces| - 1]))
  }

  /** `chunk_gear`. */
  method ChunkGear(sha: Bytes -> ChunkHash, data: Bytes, cfg: GearParams) returns (chunks: seq<Chunk>)
    ensures chunks == CutChunks(sha, GearCut(cfg), data)
  {
    hide IsSplit, Split, CutSoFar, OpenUpTo, Chunks, GearHash, GearStep, GearCut, CutHere, BitAnd, NewChunk;
    chunks := [];
    var chunkStart: nat, hash: U64, pos: nat := 0, 0, 0;
    ghost var pieces: seq<Bytes> := [];
    NothingCutYet(sha, GearCut(cfg), data);
    while pos < |data|
      invariant chunkStart <= pos <= |data|
      invariant hash == GearHash(data[chunkStart..pos])
      invariant CutSoFar(GearCut(cfg), data[..chunkStart], pieces)
      invariant OpenUpTo(GearCut(cfg), data, chunkStart, pos)
      invariant chunks == Chunks(sha, pieces, 0)
    {
      ghost var piece := data[chunkStart..pos + 1];
      GearTurn(cfg, data, chunkStart, pos);
      hash := GearStep(hash, data[pos]);
      var chunkLen := pos + 1 - chunkStart;
      var isBoundary := BitAnd(hash, cfg.mask) == 0 && chunkLen >= cfg.minSize;
      var forced := chunkLen >= cfg.maxSize;
      if isBoundary || forced {
        ExtendSplit(sha, GearCut(cfg), data, pieces, chunkStart, pos + 1);
        chunks := chunks + [NewChunk(sha, chunkStart, data[chunkStart..pos + 1])];
        pieces := pieces + [piece];
        chunkStart := pos + 1;
        hash := 0;
      }
      StayOpen(GearCut(cfg), data, chunkStart, pos);
      pos := pos + 1;
    }
    ghost var last := pieces;
    if chunkStart < |data| {
      OpenEarlier(GearCut(cfg), data, chunkStart, |data|);
      ExtendSplit(sha, GearCut(cfg), data, pieces, chunkStart, |data|);
      assert data[chunkStart..|data|] == data[chunkStart..];
      chunks := chunks + [NewChunk(sha, chunkStart, data[chunkStart..])];
      last := pieces + [data[chunkStart..]];
    }
    assert data[..|data|] == data;
    Finish(GearCut(cfg), data, chunkStart, pieces, last);
  }

  /** The next byte's effect on the hash, and the test the loop then makes. */
  lemma GearTurn(cfg: GearParams, data: Bytes, start: nat, pos: nat)
    requires start <= pos < |data|
    ensures GearHash(data[start..pos + 1]) == GearStep(GearHash(data[start..pos]), data[pos])
    ensures GearCut(cfg)(data[start..pos + 1]) <==>
      || (BitAnd(GearHash(data[start..pos + 1]), cfg.mask) == 0 && pos + 1 - start >= cfg.minSize)
      || pos + 1 - start >= cfg.maxSize
    ensures GearHash(data[pos + 1..pos + 1]) == 0
  {
    var piece := data[start..pos + 1];
    assert piece[..|piece| - 1] == data[start..pos];
    assert GearCut(cfg)(piece) == CutHere(cfg, piece);
  }

  lemma NothingCutYet(sha: Bytes -> ChunkHash, cut: Cut, data: Bytes)
    ensures CutSoFar(cut, data[..0], []) && OpenUpTo(cut, data, 0, 0) && Chunks(sha, [], 0) == []
    ensures GearHash(data[0..0]) == 0
  {
  }

  lemma StayOpen(cut: Cut, data: Bytes, start: nat, pos: nat)
    requires pos < |data| && start <= pos + 1
    requires start <= pos ==> OpenUpTo(cut, data, start, pos) && !cut(data[start..pos + 1])
    ensures OpenUpTo(cut, data, start, pos + 1)
  {
    forall m | start < m <= pos + 1
      ensures !cut(data[start..m])
    {
    }
  }

  lemma OpenEarlier(cut: Cut, data: Bytes, start: nat, end: nat)
    requires start < end <= |data| && OpenUpTo(cut, data, start, end)
    ensures OpenUpTo(cut, data, start, end - 1)
  {
  }

  lemma OpenIsUncut(cut: Cut, data: Bytes, start: nat, end: nat)
    requires start < end <= |data| && OpenUpTo(cut, data, start, end - 1)
    ensures UncutBefore(cut, data[start..end])
  {
    var piece := data[start..end];
    forall n | 0 < n < |piece|
      ensures !cut(piece[..n])
    {
      assert piece[..n] == data[start..start + n];
    }
  }

  /** Appending the open chunk extends the cutting, and the chunk list with it. */
  lemma ExtendSplit(sha: Bytes -> ChunkHash, cut: Cut, data: Bytes, pieces: seq<Bytes>, start: nat, end: nat)
    requires start < end <= |data| && CutSoFar(cut, data[..start], pieces)
    requires OpenUpTo(cut, data, start, end - 1)
    ensures IsSplit(cut, data[..end], pieces + [data[start..end]])
    ensures cut(data[start..end]) ==> CutSoFar(cut, data[..end], pieces + [data[start..end]])
    ensures Chunks(sha, pieces + [data[start..end]], 0) ==
      Chunks(sha, pieces, 0) + [NewChunk(sha, start, data[start..end])]
  {
    var piece := data[start..end];
    OpenIsUncut(cut, data, start, end);
    OnePiece(cut, piece);
    JoinSplits(cut, data[..start], pieces, piece, [piece]);
    assert data[..start] + piece == data[..end];
    ChunksSnoc(sha, pieces, piece, 0);
  }

  lemma Finish(cut: Cut, data: Bytes, start: nat, pieces: seq<Bytes>, last: seq<Bytes>)
    requires start <= |data|
    requires if start < |data| then IsSplit(cut, data, last) else CutSoFar(cut, data[..start], pieces) && last == pieces
    ensures last == Split(cut, data)
  {
    assert data[..|data|] == data;
    SplitCutsRight(cut, data);
    SplitUnique(cut, data, last, Split(cut, data));
  }

  // ---------------------------------------------------------------------------
  // Fixed-size cutting

  /** `data.chunks(n)`: pieces of n bytes, the last one possibly shorter. */
  function FixedSplit(data: Bytes, n: nat): (r: seq<Bytes>)
    requires n > 0
    ensures Concat(r) == data
    ensures forall i :: 0 <= i < |r| ==> 0 < |r[i]| <= n
    ensures forall i :: 0 <= i < |r| - 1 ==> |r[i]| == n
    decreases |data|
  {
    if |data| == 0 then []
    else if |data| <= n then
      assert Concat([data]) == data + Concat([data][1..]);
      [data]
    else
      var rest := FixedSplit(data[n..], n);
      assert ([data[..n]] + rest)[1..] == rest;
      assert data[..n] + data[n..] == data;
      [data[..n]] + rest
  }

  /** `chunk_fixed`; a size of zero is refused by the slicing it uses. */
  method ChunkFixed(sha: Bytes -> ChunkHash, data: Bytes, chunkSize: nat) returns (chunks: seq<Chunk>)
    requires chunkSize > 0
    ensures chunks == Chunks(sha, FixedSplit(data, chunkSize), 0)
  {
    chunks := [];
    var offset := 0;
    var slices := FixedSplit(data, chunkSize);
    for i := 0 to |slices|
      invariant offset == |Concat(slices[..i])|
      invariant chunks == Chunks(sha, slices[..i], 0)
    {
      assert slices[..i + 1] == slices[..i] + [slices[i]];
      ChunksSnoc(sha, slices[..i], slices[i], 0);
      ConcatAppend(slices[..i], [slices[i]]);
      assert Concat([slices[i]]) == slices[i] + Concat([slices[i]][1..]);
      chunks := chunks + [NewChunk(sha, offset, slices[i])];
      offset := offset + |slices[i]|;
    }
    assert slices[..|slices|] == slices;
  }

  // ---------------------------------------------------------------------------
  // Strategies

  datatype Strategy = Fixed(size: nat) | GearHashed(cfg: GearParams)

  predicate Usable(strategy: Strategy) {
    strategy.Fixed? ==> strategy.size > 0
  }

  function Pieces(strategy: Strategy, data: Bytes): (r: seq<Bytes>)
    requires Usable(strategy)
    ensures Concat(r) == data
    ensures forall i :: 0 <= i < |r| ==> r[i] != []
  {
    match strategy
    case Fixed(size) => FixedSplit(data, size)
    case GearHashed(cfg) =>
      SplitCutsRight(GearCut(cfg), data);
      Split(GearCut(cfg), data)
  }

  /** `Chunker::chunk_bytes`. */
  method ChunkBytes(sha: Bytes -> ChunkHash, strategy: Strategy, data: Bytes) returns (chunks: seq<Chunk>)
    requires Usable(strategy)
    ensures chunks == Chunks(sha, Pieces(strategy, data), 0)
    ensures strategy.Fixed? ==> chunks == Chunks(sha, FixedSplit(data, strategy.size), 0)
    ensures strategy.GearHashed? ==> chunks == CutChunks(sha, GearCut(strategy.cfg), data)
  {
    match strategy {
      case Fixed(size) => chunks := ChunkFixed(sha, data, size);
      case GearHashed(cfg) => chunks := ChunkGear(sha, data, cfg);
    }
  }
}
