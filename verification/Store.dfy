/**
 * crates/casync-rs/src/store.rs: the content-addressed chunk store.  The directory of files named
 * by hash is a map from hash to bytes.
 */
module Store {
  import opened Bits
  import opened Outcomes
  import opened Chunking
  import opened Cutting
  import opened Index

  type Contents = map<ChunkHash, Bytes>

  datatype StoreError = MissingChunk(hash: ChunkHash, offset: nat)

  // ---------------------------------------------------------------------------
  // What the operations compute

  /** Store each chunk whose hash is not there yet. */
  function Absorb(s: Contents, fetched: seq<(ChunkHash, Bytes)>): Contents {
    if fetched == [] then s
    else
      var s' := Absorb(s, fetched[..|fetched| - 1]);
      var (hash, data) := fetched[|fetched| - 1];
      if hash in s' then s' else s'[hash := data]
  }

  /** Concatenate the entries' chunks, or name the first one missing. */
  function Rebuild(s: Contents, entries: seq<ChunkEntry>): Result<Bytes, StoreError> {
    if entries == [] then Ok([])
    else if entries[0].sha256 !in s then Err(MissingChunk(entries[0].sha256, entries[0].offset))
    else
      match Rebuild(s, entries[1..])
      case Ok(rest) => Ok(s[entries[0].sha256] + rest)
      case Err(e) => Err(e)
  }

  function Retain(s: Contents, refs: set<ChunkHash>): Contents {
    map h | h in s && h in refs :: s[h]
  }

  class ChunkStore {
    var chunks: Contents

    constructor ()
      ensures chunks == map[]
    {
      chunks := map[];
    }

    /** `store_chunk`: true when the hash was already there. */
    method StoreChunk(chunk: Chunk) returns (existed: bool)
      modifies this
      ensures existed <==> chunk.hash in old(chunks)
      ensures chunks == Absorb(old(chunks), [(chunk.hash, chunk.data)])
      ensures chunks == if existed then old(chunks) else old(chunks)[chunk.hash := chunk.data]
    {
      assert [(chunk.hash, chunk.data)][..0] == [];
      existed := chunk.hash in chunks;
      if !existed {
        chunks := chunks[chunk.hash := chunk.data];
      }
    }

    /** `store_from_index`. */
    method StoreFromIndex(index: CaiBxIndex, fetched: seq<(ChunkHash, Bytes)>) returns (r: Result<Bytes, StoreError>)
      modifies this
      ensures chunks == Absorb(old(chunks), fetched)
      ensures r == Rebuild(chunks, index.chunks)
    {
      for i := 0 to |fetched|
        invariant chunks == Absorb(old(chunks), fetched[..i])
      {
        assert fetched[..i + 1][..i] == fetched[..i];
        var (hash, data) := fetched[i];
        if hash !in chunks {
          chunks := chunks[hash := data];
        }
      }
      assert fetched[..|fetched|] == fetched;
      r := Reconstruct(index);
    }

    /** `reconstruct`. */
    method Reconstruct(index: CaiBxIndex) returns (r: Result<Bytes, StoreError>)
      ensures r == Rebuild(chunks, index.chunks)
      ensures r.Err? ==> exists i ::
        && 0 <= i < |index.chunks| && index.chunks[i].sha256 !in chunks
        && r.error == MissingChunk(index.chunks[i].sha256, index.chunks[i].offset)
        && forall k :: 0 <= k < i ==> index.chunks[k].sha256 in chunks
    {
      var output: Bytes := [];
      assert index.chunks[0..] == index.chunks;
      assert forall rest: Bytes :: output + rest == rest;
      for i := 0 to |index.chunks|
        invariant forall k :: 0 <= k < i ==> index.chunks[k].sha256 in chunks
        invariant Rebuild(chunks, index.chunks) ==
          match Rebuild(chunks, index.chunks[i..]) { case Ok(rest) => Ok(output + rest) case Err(e) => Err(e) }
      {
        var entry := index.chunks[i];
        assert index.chunks[i..][1..] == index.chunks[i + 1..];
        if entry.sha256 !in chunks {
          return Err(MissingChunk(entry.sha256, entry.offset));
        }
        ghost var rest := Rebuild(chunks, index.chunks[i + 1..]);
        assert rest.Ok? ==>
          output + (chunks[entry.sha256] + rest.value) == (output + chunks[entry.sha256]) + rest.value;
        output := output + chunks[entry.sha256];
      }
      assert index.chunks[|index.chunks|..] == [];
      assert output + [] == output;
      return Ok(output);
    }

    /** `check_chunks`: the entries' hashes split by presence, both lists in index order. */
    method CheckChunks(index: CaiBxIndex) returns (present: seq<ChunkHash>, missing: seq<ChunkHash>)
      ensures present == Select(HashList(index.chunks), chunks.Keys, true)
      ensures missing == Select(HashList(index.chunks), chunks.Keys, false)
      ensures multiset(present) + multiset(missing) == multiset(HashList(index.chunks))
      ensures forall h :: h in present ==> h in chunks
      ensures forall h :: h in missing ==> h !in chunks
    {
      ghost var hashes := HashList(index.chunks);
      present, missing := [], [];
      for i := 0 to |index.chunks|
        invariant present == Select(hashes[..i], chunks.Keys, true)
        invariant missing == Select(hashes[..i], chunks.Keys, false)
      {
        assert hashes[..i + 1] == hashes[..i] + [hashes[i]];
        SelectSnoc(hashes[..i], hashes[i], chunks.Keys);
        if index.chunks[i].sha256 in chunks {
          present := present + [index.chunks[i].sha256];
        } else {
          missing := missing + [index.chunks[i].sha256];
        }
      }
      assert hashes[..|index.chunks|] == hashes;
      SelectParts(hashes, chunks.Keys);
      SelectedInOrder(hashes, chunks.Keys);
    }

    /** `cleanup`: directories are listed in an arbitrary order. */
    method Cleanup(referenced: seq<ChunkHash>) returns (removed: nat)
      modifies this
      ensures chunks == Retain(old(chunks), set h | h in referenced)
      ensures removed == |old(chunks)| - |chunks|
      ensures forall h :: h in chunks <==> h in old(chunks) && h in referenced
      ensures forall h :: h in chunks ==> chunks[h] == old(chunks)[h]
    {
      var refs := set h | h in referenced;
      removed := 0;
      var files := chunks.Keys;
      while files != {}
        invariant files <= chunks.Keys <= old(chunks).Keys
        invariant forall h :: h in old(chunks) ==> (h in chunks <==> h in refs || h in files)
        invariant forall h :: h in chunks ==> chunks[h] == old(chunks)[h]
        invariant removed == |old(chunks)| - |chunks|
        decreases files
      {
        var h :| h in files;
        files := files - {h};
        if h !in refs {
          assert chunks.Keys == (chunks - {h}).Keys + {h};
          assert |chunks| == |chunks.Keys| && |chunks - {h}| == |(chunks - {h}).Keys|;
          chunks := chunks - {h};
          removed := removed + 1;
        }
      }
    }
  }

  /** The hashes of `s` that are in `stored`, or those that are not, in order. */
  function Select(s: seq<ChunkHash>, stored: set<ChunkHash>, wanted: bool): seq<ChunkHash> {
    if s == [] then []
    else
      Select(s[..|s| - 1], stored, wanted) + if (s[|s| - 1] in stored) == wanted then [s[|s| - 1]] else []
  }

  lemma SelectSnoc(s: seq<ChunkHash>, h: ChunkHash, stored: set<ChunkHash>)
    ensures forall wanted :: Select(s + [h], stored, wanted)
                          == Select(s, stored, wanted) + if (h in stored) == wanted then [h] else []
  {
    assert (s + [h])[..|s|] == s;
  }

  /** Selecting keeps the order: it works through a list part by part. */
  lemma {:induction false} SelectAppend(a: seq<ChunkHash>, b: seq<ChunkHash>, stored: set<ChunkHash>, wanted: bool)
    ensures Select(a + b, stored, wanted) == Select(a, stored, wanted) + Select(b, stored, wanted)
    decreases |b|
  {
    if b == [] {
      assert a + b == a;
      assert Select(a, stored, wanted) + [] == Select(a, stored, wanted);
    } else {
      var front, last := b[..|b| - 1], b[|b| - 1];
      assert (a + b)[..|a + b| - 1] == a + front;
      SelectAppend(a, front, stored, wanted);
    }
  }

  lemma {:induction false} SelectedInOrder(s: seq<ChunkHash>, stored: set<ChunkHash>)
    ensures forall h :: h in Select(s, stored, true) <==> h in s && h in stored
    ensures forall h :: h in Select(s, stored, false) <==> h in s && h !in stored
    decreases |s|
  {
    if s != [] {
      SelectedInOrder(s[..|s| - 1], stored);
      assert s == s[..|s| - 1] + [s[|s| - 1]];
    }
  }

  lemma {:induction false} SelectParts(s: seq<ChunkHash>, stored: set<ChunkHash>)
    ensures multiset(Select(s, stored, true)) + multiset(Select(s, stored, false)) == multiset(s)
  {
    if s != [] {
      SelectParts(s[..|s| - 1], stored);
      assert s == s[..|s| - 1] + [s[|s| - 1]];
    }
  }

  function HashList(entries: seq<ChunkEntry>): seq<ChunkHash> {
    seq(|entries|, i requires 0 <= i < |entries| => entries[i].sha256)
  }

  // ---------------------------------------------------------------------------
  // What that means

  function FetchedHashes(fetched: seq<(ChunkHash, Bytes)>): set<ChunkHash> {
    set f | f in fetched :: f.0
  }

  /** Absorbing adds exactly the fetched hashes and never changes stored bytes. */
  lemma {:induction false} AbsorbAdds(s: Contents, fetched: seq<(ChunkHash, Bytes)>)
    ensures Absorb(s, fetched).Keys == s.Keys + FetchedHashes(fetched)
    ensures forall h :: h in s ==> Absorb(s, fetched)[h] == s[h]
    ensures forall h :: h in Absorb(s, fetched) && h !in s ==> (h, Absorb(s, fetched)[h]) in fetched
    decreases |fetched|
  {
    if fetched != [] {
      var front, f := fetched[..|fetched| - 1], fetched[|fetched| - 1];
      AbsorbAdds(s, front);
      assert fetched == front + [f];
      assert FetchedHashes(fetched) == FetchedHashes(front) + {f.0} by {
        assert forall x :: x in fetched <==> x in front || x == f;
      }
    }
  }

  /** Absorbing works through the fetched chunks in order, so the first bytes under a hash stay. */
  lemma {:induction false} AbsorbAppend(s: Contents, a: seq<(ChunkHash, Bytes)>, b: seq<(ChunkHash, Bytes)>)
    ensures Absorb(s, a + b) == Absorb(Absorb(s, a), b)
    decreases |b|
  {
    if b == [] {
      assert a + b == a;
    } else {
      assert (a + b)[..|a + b| - 1] == a + b[..|b| - 1];
      AbsorbAppend(s, a, b[..|b| - 1]);
    }
  }

  /** Every stored byte string is filed under its own hash. */
  ghost predicate Faithful(sha: Bytes -> ChunkHash, s: Contents) {
    forall h :: h in s ==> sha(s[h]) == h
  }

  ghost predicate FaithfulFetch(sha: Bytes -> ChunkHash, fetched: seq<(ChunkHash, Bytes)>) {
    forall f :: f in fetched ==> sha(f.1) == f.0
  }

  /** No stored, fetched or other piece's bytes collide with one of the pieces. */
  ghost predicate NoClash(sha: Bytes -> ChunkHash, pieces: seq<Bytes>, others: set<Bytes>) {
    forall p, v :: p in pieces && v in others && sha(v) == sha(p) ==> v == p
  }

  function FetchedData(fetched: seq<(ChunkHash, Bytes)>): set<Bytes> {
    set f | f in fetched :: f.1
  }

  /** Each piece is filed under its hash. */
  ghost predicate HoldsAll(sha: Bytes -> ChunkHash, s: Contents, pieces: seq<Bytes>) {
    forall p :: p in pieces ==> sha(p) in s && s[sha(p)] == p
  }

  /** Reconstruction succeeds exactly when no referenced hash is missing. */
  lemma {:induction false} RebuildSucceeds(s: Contents, entries: seq<ChunkEntry>)
    ensures Rebuild(s, entries).Ok? <==> EntryHashes(entries) <= s.Keys
    ensures Rebuild(s, entries).Err? ==> Rebuild(s, entries).error.hash in EntryHashes(entries) - s.Keys
    decreases |entries|
  {
    if entries != [] {
      RebuildSucceeds(s, entries[1..]);
      EntryHashesCons(entries[0], entries[1..]);
      assert entries == [entries[0]] + entries[1..];
    }
  }

  lemma {:induction false} RebuildSpellsPieces(sha: Bytes -> ChunkHash, s: Contents, pieces: seq<Bytes>, offset: nat)
    requires HoldsAll(sha, s, pieces)
    ensures Rebuild(s, Entries(Chunks(sha, pieces, offset))) == Ok(Concat(pieces))
    decreases |pieces|
  {
    if pieces != [] {
      assert pieces[0] in pieces && forall p :: p in pieces[1..] ==> p in pieces;
      EntriesCons(sha, pieces, offset);
      var rest := Entries(Chunks(sha, pieces[1..], offset + |pieces[0]|));
      assert Entries(Chunks(sha, pieces, offset))[1..] == rest;
      RebuildSpellsPieces(sha, s, pieces[1..], offset + |pieces[0]|);
    }
  }

  lemma AbsorbFaithful(sha: Bytes -> ChunkHash, s: Contents, fetched: seq<(ChunkHash, Bytes)>)
    requires Faithful(sha, s) && FaithfulFetch(sha, fetched)
    ensures Faithful(sha, Absorb(s, fetched))
    ensures Absorb(s, fetched).Values <= s.Values + FetchedData(fetched)
  {
    AbsorbAdds(s, fetched);
    var after := Absorb(s, fetched);
    forall h | h in after
      ensures sha(after[h]) == h && after[h] in s.Values + FetchedData(fetched)
    {
      if h !in s {
        assert (h, after[h]) in fetched;
        assert (h, after[h]).1 in FetchedData(fetched);
      }
    }
  }

  lemma HashPresentHoldsPiece(sha: Bytes -> ChunkHash, s: Contents, pieces: seq<Bytes>)
    requires Faithful(sha, s) && NoClash(sha, pieces, s.Values) && PieceHashes(sha, pieces) <= s.Keys
    ensures HoldsAll(sha, s, pieces)
  {
    forall p | p in pieces
      ensures sha(p) in s && s[sha(p)] == p
    {
      assert sha(p) in PieceHashes(sha, pieces);
      assert s[sha(p)] in s.Values;
    }
  }

  /**
   * Delta is exact.  Take a store with exactly the old index's chunks and absorb some fetched
   * chunks: rebuilding the new index succeeds if and only if every hash in the difference was
   * fetched, it then yields the new file, and otherwise it reports a hash of the difference.
   */
  lemma DeltaIsExact(sha: Bytes -> ChunkHash, s: Contents, older: CaiBxIndex, pieces: seq<Bytes>, target: nat,
                     fetched: seq<(ChunkHash, Bytes)>)
    requires Faithful(sha, s) && FaithfulFetch(sha, fetched) && s.Keys == EntryHashes(older.chunks)
    requires NoClash(sha, pieces, s.Values + FetchedData(fetched))
    ensures
      var newer := IndexOf(sha, pieces, target);
      var r := Rebuild(Absorb(s, fetched), newer.chunks);
      && (r.Ok? <==> Diff(older, newer) <= FetchedHashes(fetched))
      && (r.Ok? ==> r.value == Concat(pieces))
      && (r.Err? ==> r.error.hash in Diff(older, newer) - FetchedHashes(fetched))
  {
    var newer := IndexOf(sha, pieces, target);
    var after := Absorb(s, fetched);
    AbsorbAdds(s, fetched);
    AbsorbFaithful(sha, s, fetched);
    IndexHashes(sha, pieces, 0);
    RebuildSucceeds(after, newer.chunks);
    if EntryHashes(newer.chunks) <= after.Keys {
      HashPresentHoldsPiece(sha, after, pieces);
      RebuildSpellsPieces(sha, after, pieces, 0);
    }
  }

  /** A store that holds more than the old chunks needs no more than the difference. */
  lemma DeltaSuffices(sha: Bytes -> ChunkHash, s: Contents, older: CaiBxIndex, pieces: seq<Bytes>, target: nat,
                      fetched: seq<(ChunkHash, Bytes)>)
    requires Faithful(sha, s) && FaithfulFetch(sha, fetched) && EntryHashes(older.chunks) <= s.Keys
    requires NoClash(sha, pieces, s.Values + FetchedData(fetched))
    requires Diff(older, IndexOf(sha, pieces, target)) <= FetchedHashes(fetched)
    ensures Rebuild(Absorb(s, fetched), IndexOf(sha, pieces, target).chunks) == Ok(Concat(pieces))
  {
    AbsorbAdds(s, fetched);
    AbsorbFaithful(sha, s, fetched);
    IndexHashes(sha, pieces, 0);
    HashPresentHoldsPiece(sha, Absorb(s, fetched), pieces);
    RebuildSpellsPieces(sha, Absorb(s, fetched), pieces, 0);
  }

  /** The chunks of the pieces, as (hash, data) pairs. */
  function Pairs(chunks: seq<Chunk>): seq<(ChunkHash, Bytes)> {
    seq(|chunks|, i requires 0 <= i < |chunks| => (chunks[i].hash, chunks[i].data))
  }

  lemma {:induction false} PairsOfPieces(sha: Bytes -> ChunkHash, pieces: seq<Bytes>, offset: nat)
    ensures forall f :: f in Pairs(Chunks(sha, pieces, offset)) <==> f.1 in pieces && f.0 == sha(f.1)
    decreases |pieces|
  {
    if pieces != [] {
      var whole, rest := Chunks(sha, pieces, offset), Chunks(sha, pieces[1..], offset + |pieces[0]|);
      PairsOfPieces(sha, pieces[1..], offset + |pieces[0]|);
      assert Pairs(whole) == [(sha(pieces[0]), pieces[0])] + Pairs(rest);
      assert pieces == [pieces[0]] + pieces[1..];
      assert forall x :: x in pieces <==> x == pieces[0] || x in pieces[1..];
      assert forall f :: f in Pairs(whole) <==> f == (sha(pieces[0]), pieces[0]) || f in Pairs(rest);
    }
  }

  /**
   * Chunk, store, reconstruct is the identity: for every input, strategy and faithful starting
   * store.  It stays so after a cleanup that keeps the index's hashes, and the result verifies
   * unless a chunk reached 2^32 bytes.
   */
  lemma RoundTrip(sha: Bytes -> ChunkHash, s: Contents, strategy: Strategy, data: Bytes, target: nat)
    requires Usable(strategy) && Faithful(sha, s)
    requires NoClash(sha, Pieces(strategy, data), s.Values + PieceSet(Pieces(strategy, data)))
    ensures
      var chunks := Chunks(sha, Pieces(strategy, data), 0);
      var index := FromChunks(chunks, target);
      var stored := Absorb(s, Pairs(chunks));
      && Rebuild(stored, index.chunks) == Ok(data)
      && Rebuild(Retain(stored, EntryHashes(index.chunks)), index.chunks) == Ok(data)
    ensures
      var pieces := Pieces(strategy, data);
      NoSliceCollides(sha, pieces, data) ==>
        (AllMatch(sha, IndexOf(sha, pieces, target).chunks, data) <==> Small(pieces))
  {
    var pieces := Pieces(strategy, data);
    var fetched := Pairs(Chunks(sha, pieces, 0));
    var stored := Absorb(s, fetched);
    PairsOfPieces(sha, pieces, 0);
    AbsorbAdds(s, fetched);
    AbsorbFaithful(sha, s, fetched);
    IndexHashes(sha, pieces, 0);
    forall p | p in pieces
      ensures sha(p) in FetchedHashes(fetched)
    {
      assert (sha(p), p) in fetched;
    }
    assert FetchedData(fetched) <= PieceSet(pieces);
    HashPresentHoldsPiece(sha, stored, pieces);
    RebuildSpellsPieces(sha, stored, pieces, 0);
    var kept := Retain(stored, PieceHashes(sha, pieces));
    assert HoldsAll(sha, kept, pieces);
    RebuildSpellsPieces(sha, kept, pieces, 0);
    if NoSliceCollides(sha, pieces, data) {
      OwnDataVerifies(sha, pieces, target);
    }
  }

  function PieceSet(pieces: seq<Bytes>): set<Bytes> {
    set p | p in pieces
  }

  /** With gear hashing the size limit alone guarantees that the round trip verifies. */
  lemma GearDataVerifies(sha: Bytes -> ChunkHash, cfg: GearParams, data: Bytes, target: nat)
    requires cfg.maxSize < TWO_TO_THE_32 && NoSliceCollides(sha, Split(GearCut(cfg), data), data)
    ensures AllMatch(sha, IndexOf(sha, Split(GearCut(cfg), data), target).chunks, data)
  {
    var pieces := Split(GearCut(cfg), data);
    SplitCutsRight(GearCut(cfg), data);
    forall p | p in pieces
      ensures |p| < TWO_TO_THE_32
    {
      var i :| 0 <= i < |pieces| && pieces[i] == p;
      GearPieceBounded(cfg, data, i);
    }
    OwnDataVerifies(sha, pieces, target);
  }
}
