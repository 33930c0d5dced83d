/**
 * Cutting a byte string into pieces at the first place a test on the piece so far says so.
 * Nothing here depends on which test it is; `Chunking` supplies the gear hash.
 */
module Cutting {
  import opened Bits

  /** Says whether a piece grown to exactly these bytes is to be cut. */
  type Cut = Bytes -> bool

  /** No proper nonempty prefix would have been cut. */
  predicate UncutBefore(cut: Cut, piece: Bytes) {
    forall n :: 0 < n < |piece| ==> !cut(piece[..n])
  }

  /**
   * What content-defined cutting means: the pieces spell the data, each is nonempty and ends at
   * the first place it could, and only the last may end without a cut.
   */
  predicate IsSplit(cut: Cut, data: Bytes, pieces: seq<Bytes>) {
    && Concat(pieces) == data
    && (forall i :: 0 <= i < |pieces| ==> pieces[i] != [] && UncutBefore(cut, pieces[i]))
    && (forall i :: 0 <= i < |pieces| - 1 ==> cut(pieces[i]))
  }

  /** There is only one way to cut. */
  lemma {:induction false} SplitUnique(cut: Cut, data: Bytes, p: seq<Bytes>, q: seq<Bytes>)
    requires IsSplit(cut, data, p) && IsSplit(cut, data, q)
    ensures p == q
    decreases |p|
  {
    if p == [] || q == [] {
      assert data == [] && p == [] && q == [];
    } else {
      FirstPieceFits(cut, data, p, q);
      FirstPieceFits(cut, data, q, p);
      assert p[0] == data[..|p[0]|] && q[0] == data[..|q[0]|];
      TailIsSplit(cut, data, p);
      TailIsSplit(cut, data, q);
      SplitUnique(cut, data[|p[0]|..], p[1..], q[1..]);
    }
  }

  lemma TailIsSplit(cut: Cut, data: Bytes, p: seq<Bytes>)
    requires IsSplit(cut, data, p) && p != []
    ensures IsSplit(cut, data[|p[0]|..], p[1..])
  {
    assert data == p[0] + Concat(p[1..]);
    assert data[|p[0]|..] == Concat(p[1..]);
  }

  /** The first piece of one cutting cannot be longer than that of another. */
  lemma FirstPieceFits(cut: Cut, data: Bytes, p: seq<Bytes>, q: seq<Bytes>)
    requires IsSplit(cut, data, p) && IsSplit(cut, data, q) && p != [] && q != []
    ensures |q[0]| <= |p[0]|
  {
    assert data == p[0] + Concat(p[1..]) && data == q[0] + Concat(q[1..]);
    var n := |p[0]|;
    assert data[..n] == p[0];
    assert n <= |q[0]| ==> q[0][..n] == data[..n];
  }

  /** Length of the first piece of nonempty data, looking for a cut from length n on. */
  function FirstCut(cut: Cut, data: Bytes, n: nat): (r: nat)
    requires 0 < n <= |data|
    ensures n <= r <= |data|
    decreases |data| - n
  {
    if n == |data| || cut(data[..n]) then n else FirstCut(cut, data, n + 1)
  }

  lemma {:induction false} FirstCutIsFirst(cut: Cut, data: Bytes, n: nat)
    requires 0 < n <= |data|
    ensures forall k :: n <= k < FirstCut(cut, data, n) ==> !cut(data[..k])
    ensures FirstCut(cut, data, n) < |data| ==> cut(data[..FirstCut(cut, data, n)])
    decreases |data| - n
  {
    if !(n == |data| || cut(data[..n])) {
      FirstCutIsFirst(cut, data, n + 1);
    }
  }

  function Split(cut: Cut, data: Bytes): seq<Bytes>
    decreases |data|
  {
    if data == [] then []
    else
      var n := FirstCut(cut, data, 1);
      [data[..n]] + Split(cut, data[n..])
  }

  /** Cutting piece by piece does cut as it should. */
  lemma {:induction false} SplitCutsRight(cut: Cut, data: Bytes)
    ensures IsSplit(cut, data, Split(cut, data))
    decreases |data|
  {
    if data != [] {
      var n := FirstCut(cut, data, 1);
      FirstCutIsFirst(cut, data, 1);
      SplitCutsRight(cut, data[n..]);
      ConsSplit(cut, data, n, Split(cut, data[n..]));
    }
  }

  lemma ConsSplit(cut: Cut, data: Bytes, n: nat, rest: seq<Bytes>)
    requires 0 < n <= |data| && IsSplit(cut, data[n..], rest)
    requires forall k :: 1 <= k < n ==> !cut(data[..k])
    requires n < |data| ==> cut(data[..n])
    ensures IsSplit(cut, data, [data[..n]] + rest)
  {
    var first := data[..n];
    assert forall k :: 0 < k < n ==> first[..k] == data[..k];
    OnePiece(cut, first);
    SplitOfNothing(cut, data[n..], rest);
    JoinSplits(cut, first, [first], data[n..], rest);
    assert first + data[n..] == data;
  }

  /** The cutting of `data` ends with a completed chunk, or there is nothing to cut. */
  predicate EndsOnBoundary(cut: Cut, data: Bytes) {
    var pieces := Split(cut, data);
    pieces == [] || cut(pieces[|pieces| - 1])
  }

  /** Cuttings of two strings join into one if the first ends with a cut. */
  lemma JoinSplits(cut: Cut, a: Bytes, p: seq<Bytes>, b: Bytes, q: seq<Bytes>)
    requires IsSplit(cut, a, p) && IsSplit(cut, b, q)
    requires p == [] || q == [] || cut(p[|p| - 1])
    ensures IsSplit(cut, a + b, p + q)
  {
    ConcatAppend(p, q);
    var r := p + q;
    forall i | 0 <= i < |r|
      ensures r[i] != [] && UncutBefore(cut, r[i]) && (i < |r| - 1 ==> cut(r[i]))
    {
      assert r[i] == if i < |p| then p[i] else q[i - |p|];
    }
  }

  lemma InnerPieceIsCut(cut: Cut, data: Bytes, p: seq<Bytes>, q: seq<Bytes>)
    requires IsSplit(cut, data, p + q) && p != [] && q != []
    ensures cut(p[|p| - 1])
  {
    assert (p + q)[|p| - 1] == p[|p| - 1];
  }

  lemma SplitOfNothing(cut: Cut, data: Bytes, p: seq<Bytes>)
    requires IsSplit(cut, data, p)
    ensures p == [] <==> data == []
  {
  }

  /**
   * Chunking resynchronises.  Cutting `prefix + suffix` gives the pieces of the prefix followed by
   * those of the suffix exactly when the prefix ends on a boundary (or nothing follows it).
   */
  lemma Resync(cut: Cut, prefix: Bytes, suffix: Bytes)
    ensures Split(cut, prefix + suffix) == Split(cut, prefix) + Split(cut, suffix) <==>
      EndsOnBoundary(cut, prefix) || suffix == []
  {
    hide UncutBefore, Concat;
    SplitCutsRight(cut, prefix);
    SplitCutsRight(cut, suffix);
    SplitCutsRight(cut, prefix + suffix);
    var p, s, whole := Split(cut, prefix), Split(cut, suffix), Split(cut, prefix + suffix);
    SplitOfNothing(cut, prefix, p);
    SplitOfNothing(cut, suffix, s);
    if EndsOnBoundary(cut, prefix) || suffix == [] {
      JoinSplits(cut, prefix, p, suffix, s);
      SplitUnique(cut, prefix + suffix, whole, p + s);
    } else if whole == p + s {
      InnerPieceIsCut(cut, prefix + suffix, p, s);
    }
  }

  lemma OnePiece(cut: Cut, piece: Bytes)
    requires piece != [] && UncutBefore(cut, piece)
    ensures IsSplit(cut, piece, [piece])
  {
    assert [piece][1..] == [];
    assert Concat([piece]) == piece + [];
  }
}
