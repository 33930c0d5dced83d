/** crates/casync-rs/src/index.rs: the chunk index, its delta and its verification. */
module Index {
  import opened Bits
  import opened Outcomes
  import opened Chunking

  datatype ChunkEntry = ChunkEntry(offset: nat, size: nat, sha256: ChunkHash)

  datatype CaiBxIndex = CaiBxIndex(chunkSizeTarget: nat, totalSize: nat, chunks: seq<ChunkEntry>)

  datatype IndexError =
    | NotSorted
    | BeyondData(offset: nat)
    | HashMismatch(offset: nat)

  function SizeSum(chunks: seq<Chunk>): nat {
    if chunks == [] then 0 else chunks[0].size + SizeSum(chunks[1..])
  }

  /** The recorded total is the length of the data exactly when no size was truncated. */
  lemma {:induction false} TotalSizeIsLength(sha: Bytes -> ChunkHash, pieces: seq<Bytes>, offset: nat)
    ensures SizeSum(Chunks(sha, pieces, offset)) <= |Concat(pieces)|
    ensures SizeSum(Chunks(sha, pieces, offset)) == |Concat(pieces)| <==> Small(pieces)
    decreases |pieces|
  {
    if pieces != [] {
      var rest := pieces[1..];
      TotalSizeIsLength(sha, rest, offset + |pieces[0]|);
      assert Chunks(sha, pieces, offset)[1..] == Chunks(sha, rest, offset + |pieces[0]|);
      assert Small(pieces) <==> |pieces[0]| < TWO_TO_THE_32 && Small(rest) by {
        assert pieces == [pieces[0]] + rest;
      }
    }
  }

  function Entries(chunks: seq<Chunk>): (r: seq<ChunkEntry>)
    ensures |r| == |chunks|
    ensures forall i :: 0 <= i < |r| ==> r[i] == ChunkEntry(chunks[i].offset, chunks[i].size, chunks[i].hash)
  {
    seq(|chunks|, i requires 0 <= i < |chunks| => ChunkEntry(chunks[i].offset, chunks[i].size, chunks[i].hash))
  }

  /** `from_chunks`. */
  function FromChunks(chunks: seq<Chunk>, target: nat): CaiBxIndex {
    CaiBxIndex(target, SizeSum(chunks), Entries(chunks))
  }

  /** The index of data cut into these pieces. */
  function IndexOf(sha: Bytes -> ChunkHash, pieces: seq<Bytes>, target: nat): CaiBxIndex {
    FromChunks(Chunks(sha, pieces, 0), target)
  }

  function EntryHashes(entries: seq<ChunkEntry>): set<ChunkHash> {
    set e | e in entries :: e.sha256
  }

  function PieceHashes(sha: Bytes -> ChunkHash, pieces: seq<Bytes>): set<ChunkHash> {
    set p | p in pieces :: sha(p)
  }

  /** `diff`: the hashes the new index needs and the old one lacks. */
  function Diff(older: CaiBxIndex, newer: CaiBxIndex): set<ChunkHash> {
    EntryHashes(newer.chunks) - EntryHashes(older.chunks)
  }

  /** The pieces' entries: each at the running offset, with its own hash. */
  lemma {:induction false} EntriesCons(sha: Bytes -> ChunkHash, pieces: seq<Bytes>, offset: nat)
    requires pieces != []
    ensures Entries(Chunks(sha, pieces, offset)) ==
      [ChunkEntry(offset, |pieces[0]| % TWO_TO_THE_32, sha(pieces[0]))] +
      Entries(Chunks(sha, pieces[1..], offset + |pieces[0]|))
  {
    var whole := Chunks(sha, pieces, offset);
    var rest := Chunks(sha, pieces[1..], offset + |pieces[0]|);
    assert whole == [NewChunk(sha, offset, pieces[0])] + rest;
  }

  lemma {:induction false} IndexHashes(sha: Bytes -> ChunkHash, pieces: seq<Bytes>, offset: nat)
    ensures EntryHashes(Entries(Chunks(sha, pieces, offset))) == PieceHashes(sha, pieces)
    decreases |pieces|
  {
    if pieces != [] {
      EntriesCons(sha, pieces, offset);
      IndexHashes(sha, pieces[1..], offset + |pieces[0]|);
      HashesCons(sha, pieces);
      EntryHashesCons(ChunkEntry(offset, |pieces[0]| % TWO_TO_THE_32, sha(pieces[0])),
                      Entries(Chunks(sha, pieces[1..], offset + |pieces[0]|)));
    }
  }

  lemma HashesCons(sha: Bytes -> ChunkHash, pieces: seq<Bytes>)
    requires pieces != []
    ensures PieceHashes(sha, pieces) == {sha(pieces[0])} + PieceHashes(sha, pieces[1..])
  {
    assert pieces == [pieces[0]] + pieces[1..];
  }

  lemma EntryHashesCons(e: ChunkEntry, rest: seq<ChunkEntry>)
    ensures EntryHashes([e] + rest) == {e.sha256} + EntryHashes(rest)
  {
    assert forall x :: x in [e] + rest <==> x == e || x in rest;
  }

  // ---------------------------------------------------------------------------
  // The sortedness check of `from_bytes`

  ghost predicate SortedByOffset(entries: seq<ChunkEntry>) {
    forall i, j :: 0 <= i < j < |entries| ==> entries[i].offset < entries[j].offset
  }

  /** Comparing neighbours decides the whole order. */
  method CheckSorted(entries: seq<ChunkEntry>) returns (r: Result<(), IndexError>)
    ensures r.Ok? <==> SortedByOffset(entries)
    ensures r.Err? ==> r.error == NotSorted
  {
    var i := 1;
    while i < |entries|
      invariant 1 <= i && (|entries| > 0 ==> i <= |entries|)
      invariant forall j, k :: 0 <= j < k < i && k < |entries| ==> entries[j].offset < entries[k].offset
    {
      if entries[i].offset <= entries[i - 1].offset {
        return Err(NotSorted);
      }
      i := i + 1;
    }
    return Ok(());
  }

  lemma {:induction false} OffsetsAdvance(sha: Bytes -> ChunkHash, pieces: seq<Bytes>, offset: nat, i: nat)
    requires i < |pieces|
    ensures Chunks(sha, pieces, offset)[i] == NewChunk(sha, offset + |Concat(pieces[..i])|, pieces[i])
    decreases i
  {
    if i > 0 {
      OffsetsAdvance(sha, pieces[1..], offset + |pieces[0]|, i - 1);
      assert pieces[..i][1..] == pieces[1..][..i - 1];
    }
  }

  /** Every index built from nonempty pieces passes the check. */
  lemma OwnIndexIsSorted(sha: Bytes -> ChunkHash, pieces: seq<Bytes>, target: nat)
    requires forall i :: 0 <= i < |pieces| ==> pieces[i] != []
    ensures SortedByOffset(IndexOf(sha, pieces, target).chunks)
  {
    var entries := IndexOf(sha, pieces, target).chunks;
    forall i, j | 0 <= i < j < |entries|
      ensures entries[i].offset < entries[j].offset
    {
      OffsetsAdvance(sha, pieces, 0, i);
      OffsetsAdvance(sha, pieces, 0, j);
      assert pieces[..j] == pieces[..i] + pieces[i..j];
      ConcatAppend(pieces[..i], pieces[i..j]);
      assert pieces[i..j][0] == pieces[i];
    }
  }

  // ---------------------------------------------------------------------------
  // Verification

  predicate EntryMatches(sha: Bytes -> ChunkHash, e: ChunkEntry, data: Bytes) {
    e.offset + e.size <= |data| && sha(data[e.offset..e.offset + e.size]) == e.sha256
  }

  ghost predicate AllMatch(sha: Bytes -> ChunkHash, entries: seq<ChunkEntry>, data: Bytes) {
    forall i :: 0 <= i < |entries| ==> EntryMatches(sha, entries[i], data)
  }

  /** `verify`: the first entry that does not match is reported. */
  method Verify(sha: Bytes -> ChunkHash, index: CaiBxIndex, data: Bytes) returns (r: Result<(), IndexError>)
    ensures r.Ok? <==> AllMatch(sha, index.chunks, data)
    ensures r.Err? ==> exists i :: 0 <= i < |index.chunks| && FirstMismatch(sha, index.chunks, data, i, r.error)
  {
    for i := 0 to |index.chunks|
      invariant AllMatch(sha, index.chunks[..i], data)
    {
      var entry := index.chunks[i];
      var end := entry.offset + entry.size;
      if end > |data| {
        assert FirstMismatch(sha, index.chunks, data, i, BeyondData(entry.offset));
        return Err(BeyondData(entry.offset));
      }
      if sha(data[entry.offset..end]) != entry.sha256 {
        assert FirstMismatch(sha, index.chunks, data, i, HashMismatch(entry.offset));
        return Err(HashMismatch(entry.offset));
      }
      assert forall k :: 0 <= k <= i ==> index.chunks[..i + 1][k] == index.chunks[k];
      assert forall k :: 0 <= k < i ==> index.chunks[..i][k] == index.chunks[k];
    }
    assert index.chunks[..|index.chunks|] == index.chunks;
    return Ok(());
  }

  ghost predicate FirstMismatch(sha: Bytes -> ChunkHash, entries: seq<ChunkEntry>, data: Bytes, i: nat,
                                error: IndexError)
    requires i < |entries|
  {
    && AllMatch(sha, entries[..i], data) && !EntryMatches(sha, entries[i], data)
    && error == if entries[i].offset + entries[i].size > |data| then BeyondData(entries[i].offset)
                else HashMismatch(entries[i].offset)
  }

  /** No slice of `data` collides with one of the pieces. */
  ghost predicate NoSliceCollides(sha: Bytes -> ChunkHash, pieces: seq<Bytes>, data: Bytes) {
    forall p, lo, hi :: p in pieces && 0 <= lo <= hi <= |data| && sha(data[lo..hi]) == sha(p) ==> data[lo..hi] == p
  }

  /** Every piece's length survives the cast to 32 bits. */
  ghost predicate Small(pieces: seq<Bytes>) {
    forall p :: p in pieces ==> |p| < TWO_TO_THE_32
  }

  lemma AllMatchCons(sha: Bytes -> ChunkHash, e: ChunkEntry, rest: seq<ChunkEntry>, data: Bytes)
    ensures AllMatch(sha, [e] + rest, data) <==> EntryMatches(sha, e, data) && AllMatch(sha, rest, data)
  {
    var all := [e] + rest;
    assert forall i :: 0 <= i < |rest| ==> all[i + 1] == rest[i];
    if AllMatch(sha, all, data) {
      assert all[0] == e;
      forall i | 0 <= i < |rest|
        ensures EntryMatches(sha, rest[i], data)
      {
        assert EntryMatches(sha, all[i + 1], data);
      }
    }
  }

  /** What the hypotheses say of the first piece and of the others. */
  lemma HeadMatches(sha: Bytes -> ChunkHash, pieces: seq<Bytes>, offset: nat, data: Bytes)
    requires pieces != [] && NoSliceCollides(sha, pieces, data) && Small(pieces)
    ensures NoSliceCollides(sha, pieces[1..], data) && Small(pieces[1..])
    ensures |pieces[0]| < TWO_TO_THE_32 && |pieces[0]| % TWO_TO_THE_32 == |pieces[0]|
    ensures EntryMatches(sha, ChunkEntry(offset, |pieces[0]|, sha(pieces[0])), data) <==>
      offset + |pieces[0]| <= |data| && data[offset..offset + |pieces[0]|] == pieces[0]
  {
    assert pieces[0] in pieces;
    assert forall p :: p in pieces[1..] ==> p in pieces;
  }

  /** The entries from `offset` on match exactly the data that continues with the pieces there. */
  lemma {:induction false} MatchIsContinuation(sha: Bytes -> ChunkHash, pieces: seq<Bytes>, offset: nat, data: Bytes)
    requires NoSliceCollides(sha, pieces, data) && Small(pieces) && offset <= |data|
    ensures AllMatch(sha, Entries(Chunks(sha, pieces, offset)), data) <==> Concat(pieces) <= data[offset..]
    decreases |pieces|
  {
    hide AllMatch, NoSliceCollides, Small, EntryMatches, Entries, Chunks;
    if pieces == [] {
      NoEntries(sha, offset, data);
    } else {
      var p, rest := pieces[0], pieces[1..];
      var e := ChunkEntry(offset, |p|, sha(p));
      var end := offset + |p|;
      HeadMatches(sha, pieces, offset, data);
      EntriesCons(sha, pieces, offset);
      AllMatchCons(sha, e, Entries(Chunks(sha, rest, end)), data);
      PrefixSplits(p, Concat(rest), data[offset..]);
      if end <= |data| {
        assert data[offset..][..|p|] == data[offset..end] && data[offset..][|p|..] == data[end..];
        MatchIsContinuation(sha, rest, end, data);
      }
    }
  }

  lemma NoEntries(sha: Bytes -> ChunkHash, offset: nat, data: Bytes)
    ensures AllMatch(sha, Entries(Chunks(sha, [], offset)), data)
  {
  }

  lemma PrefixSplits(a: Bytes, b: Bytes, data: Bytes)
    ensures a + b <= data <==> |a| <= |data| && data[..|a|] == a && b <= data[|a|..]
  {
    if |a| <= |data| {
      assert data == data[..|a|] + data[|a|..];
    }
    if a + b <= data {
      assert data[..|a|] == (a + b)[..|a|];
      assert data[|a|..][..|b|] == (a + b)[|a|..];
    }
  }

  /**
   * Verifying against the index of `Concat(pieces)` accepts a byte string exactly when the
   * indexed data is a prefix of it: nothing shorter or altered passes, but trailing bytes do,
   * because `verify` never looks at the total size.  Together with that size it would decide.
   */
  lemma VerifyAcceptsExactlyExtensions(sha: Bytes -> ChunkHash, pieces: seq<Bytes>, target: nat, data: Bytes)
    requires NoSliceCollides(sha, pieces, data) && Small(pieces)
    ensures AllMatch(sha, IndexOf(sha, pieces, target).chunks, data) <==> Concat(pieces) <= data
    ensures |data| == |Concat(pieces)| ==>
      (AllMatch(sha, IndexOf(sha, pieces, target).chunks, data) <==> data == Concat(pieces))
    ensures
      var index := IndexOf(sha, pieces, target);
      AllMatch(sha, index.chunks, data) && |data| == index.totalSize <==> data == Concat(pieces)
  {
    hide AllMatch, SizeSum, Small, NoSliceCollides, Concat;
    MatchIsContinuation(sha, pieces, 0, data);
    TotalSizeIsLength(sha, pieces, 0);
    assert data[0..] == data;
  }

  /** The recorded size of a long piece is too small, so whatever slice it selects is another string. */
  lemma LongPieceMismatches(sha: Bytes -> ChunkHash, pieces: seq<Bytes>, target: nat, data: Bytes)
    requires NoSliceCollides(sha, pieces, data) && !Small(pieces)
    ensures !AllMatch(sha, IndexOf(sha, pieces, target).chunks, data)
  {
    var p :| p in pieces && |p| >= TWO_TO_THE_32;
    var i :| 0 <= i < |pieces| && pieces[i] == p;
    OffsetsAdvance(sha, pieces, 0, i);
    var lo, size := |Concat(pieces[..i])|, |p| % TWO_TO_THE_32;
    assert IndexOf(sha, pieces, target).chunks[i] == ChunkEntry(lo, size, sha(p));
    assert lo + size <= |data| ==> |data[lo..lo + size]| != |p|;
  }

  /** Nothing else has the hash of one of the pieces. */
  ghost predicate NoOtherPreimage(sha: Bytes -> ChunkHash, pieces: seq<Bytes>) {
    forall p, x :: p in pieces && sha(x) == sha(p) ==> x == p
  }

  /** `verify` accepts, among all byte strings of length n, the indexed data only. */
  ghost predicate Decides(sha: Bytes -> ChunkHash, index: CaiBxIndex, indexed: Bytes, n: nat) {
    forall data: Bytes :: |data| == n ==> (AllMatch(sha, index.chunks, data) <==> data == indexed)
  }

  /**
   * It keeps that promise exactly for the lengths up to the recorded total size.  When a size was
   * truncated nothing is accepted any more, so the indexed data's own length is the only failure.
   */
  lemma VerifyDecidesUpToTotalSize(sha: Bytes -> ChunkHash, pieces: seq<Bytes>, target: nat, n: nat)
    requires NoOtherPreimage(sha, pieces)
    ensures Decides(sha, IndexOf(sha, pieces, target), Concat(pieces), n) <==>
      if Small(pieces) then n <= IndexOf(sha, pieces, target).totalSize else n != |Concat(pieces)|
  {
    hide AllMatch, SizeSum, Small, Concat;
    var index, indexed := IndexOf(sha, pieces, target), Concat(pieces);
    TotalSizeIsLength(sha, pieces, 0);
    forall data: Bytes
      ensures AllMatch(sha, index.chunks, data) <==> Small(pieces) && indexed <= data
    {
      if Small(pieces) {
        VerifyAcceptsExactlyExtensions(sha, pieces, target, data);
      } else {
        LongPieceMismatches(sha, pieces, target, data);
      }
    }
    if Small(pieces) && n > index.totalSize {
      var longer: Bytes := indexed + seq(n - |indexed|, _ => 0);
      assert |longer| == n && indexed <= longer;
      assert AllMatch(sha, index.chunks, longer);
    }
  }

  /** Appending a byte to the indexed data goes unnoticed: the entries still match. */
  lemma TrailingBytesPass(sha: Bytes -> ChunkHash, piece: Bytes, extra: Byte)
    requires 0 < |piece| < TWO_TO_THE_32
    ensures AllMatch(sha, IndexOf(sha, [piece], 0).chunks, piece + [extra]) && piece + [extra] != Concat([piece])
  {
    EntriesCons(sha, [piece], 0);
    assert [piece][1..] == [] && Concat([piece]) == piece + [];
    assert (piece + [extra])[0..|piece|] == piece;
  }

  /**
   * Data passes its own verification exactly when no piece is 2^32 bytes or longer: a longer
   * piece has its recorded size truncated, so another slice is hashed.
   */
  lemma OwnDataVerifies(sha: Bytes -> ChunkHash, pieces: seq<Bytes>, target: nat)
    requires NoSliceCollides(sha, pieces, Concat(pieces))
    ensures AllMatch(sha, IndexOf(sha, pieces, target).chunks, Concat(pieces)) <==> Small(pieces)
  {
    var data := Concat(pieces);
    if Small(pieces) {
      VerifyAcceptsExactlyExtensions(sha, pieces, target, data);
    } else {
      LongPieceMismatches(sha, pieces, target, data);
    }
  }
}
