/**
 * crates/stardust/src/codec.rs: length-prefixed framing over a growing byte buffer.
 *
 * CBOR is a pair of arguments: `write` serialises a message and `parse` reads one back, or fails.
 */
module Codec {
  import opened Bits
  import opened Outcomes

  const HEADER: nat := 4

  /** The result of one `decode` call on a buffer, with what is left in the buffer. */
  datatype Decoded<M> = NeedMore | Item(msg: M, rest: Bytes) | Malformed(rest: Bytes)

  /** `put_u32_le`. */
  function LittleEndian(n: nat): (r: Bytes)
    requires n < TWO_TO_THE_32
    ensures |r| == HEADER && FromLittleEndian(r) == n
  {
    var n1: nat := n / 256;
    var n2: nat := n1 / 256;
    var n3: nat := n2 / 256;
    [n % 256, n1 % 256, n2 % 256, n3]
  }

  /** `u32::from_le_bytes`. */
  function FromLittleEndian(b: Bytes): (r: nat)
    requires |b| == HEADER
    ensures r < TWO_TO_THE_32
  {
    var b0: nat, b1: nat, b2: nat, b3: nat := b[0], b[1], b[2], b[3];
    b0 + 256 * (b1 + 256 * (b2 + 256 * b3))
  }

  /** The number in the first four bytes, the least significant one first. */
  ghost function Header(d: Bytes): nat
    requires |d| >= 4
  {
    var b0: nat, b1: nat, b2: nat, b3: nat := d[0], d[1], d[2], d[3];
    b0 + 256 * b1 + 65536 * b2 + 16777216 * b3
  }

  lemma HeaderValue(d: Bytes)
    requires |d| >= HEADER
    ensures FromLittleEndian(d[..HEADER]) == Header(d)
  {
  }

  /** One frame; the length field is the payload's length cast to 32 bits. */
  function Frame(payload: Bytes): Bytes {
    LittleEndian(|payload| % TWO_TO_THE_32) + payload
  }

  function DecodeStep<M>(parse: Bytes -> Option<M>, buf: Bytes): (r: Decoded<M>)
    ensures r.Item? ==> |r.rest| < |buf|
  {
    if |buf| < HEADER then NeedMore
    else
      var len := FromLittleEndian(buf[..HEADER]);
      if |buf| < HEADER + len then NeedMore
      else
        match parse(buf[HEADER..HEADER + len])
        case Some(msg) => Item(msg, buf[HEADER + len..])
        case None => Malformed(buf[HEADER + len..])
  }

  /** `bytes::BytesMut`. */
  class BytesMut {
    var data: Bytes

    constructor ()
      ensures data == []
    {
      data := [];
    }

    /** `advance` and `split_to`: take bytes off the front. */
    method Take(n: nat) returns (front: Bytes)
      requires n <= |data|
      modifies this
      ensures front == old(data)[..n] && data == old(data)[n..]
    {
      front := data[..n];
      data := data[n..];
    }
  }

  class StardustCodec<M> {
    const write: M -> Bytes
    const parse: Bytes -> Option<M>

    constructor (write: M -> Bytes, parse: Bytes -> Option<M>)
      ensures this.write == write && this.parse == parse
    {
      this.write := write;
      this.parse := parse;
    }

    /** `encode`. */
    method Encode(item: M, dst: BytesMut)
      modifies dst
      ensures dst.data == old(dst.data) + Frame(write(item))
      ensures
        var n := |old(dst.data)|;
        && |dst.data| == n + 4 + |write(item)|
        && dst.data[..n] == old(dst.data) && dst.data[n + 4..] == write(item)
        && Header(dst.data[n..]) == |write(item)| % 0x1_0000_0000
    {
      HeaderValue(Frame(write(item)));
      var cborBytes := write(item);
      var len := |cborBytes| % TWO_TO_THE_32;
      dst.data := dst.data + LittleEndian(len);
      dst.data := dst.data + cborBytes;
    }

    /** `decode`: asking for more leaves the buffer as it was. */
    method Decode(src: BytesMut) returns (r: Decoded<M>)
      modifies src
      ensures r == DecodeStep(parse, old(src.data))
      ensures src.data == if r.NeedMore? then old(src.data) else r.rest
      ensures
        var d := old(src.data);
        if |d| < 4 || |d| < 4 + Header(d) then r == NeedMore
        else
          var end := 4 + Header(d);
          && src.data == d[end..]
          && match parse(d[4..end]) case Some(msg) => r == Item(msg, d[end..]) case None => r == Malformed(d[end..])
    {
      if |src.data| >= HEADER {
        HeaderValue(src.data);
      }
      if |src.data| < HEADER {
        return NeedMore;
      }
      var len := FromLittleEndian(src.data[..HEADER]);
      if |src.data| < HEADER + len {
        return NeedMore;
      }
      ghost var before := src.data;
      var _ := src.Take(HEADER);
      var payload := src.Take(len);
      assert payload == before[HEADER..HEADER + len];
      assert src.data == before[HEADER + len..];
      match parse(payload) {
        case Some(msg) => return Item(msg, src.data);
        case None => return Malformed(src.data);
      }
    }

    /** Append a fragment and decode until more is needed, as the framed stream does. */
    method Feed(buffer: BytesMut, fragment: Bytes) returns (msgs: seq<M>, ok: bool)
      modifies buffer
      ensures msgs == Drain(parse, old(buffer.data) + fragment).msgs
      ensures ok == Drain(parse, old(buffer.data) + fragment).Open?
      ensures ok ==> buffer.data == Drain(parse, old(buffer.data) + fragment).rest
    {
      buffer.data := buffer.data + fragment;
      ghost var whole := buffer.data;
      msgs := [];
      while true
        invariant Drain(parse, whole) == Prefixed(msgs, Drain(parse, buffer.data))
        decreases |buffer.data|
      {
        hide Drain, Prefixed, DecodeStep;
        DrainUnfold(parse, msgs, buffer.data);
        var r := Decode(buffer);
        match r {
          case NeedMore => return msgs, true;
          case Malformed(_) => return msgs, false;
          case Item(msg, _) =>
            msgs := msgs + [msg];
        }
      }
    }

    /** A whole connection's input, fragment by fragment, up to the first malformed frame. */
    method FeedAll(buffer: BytesMut, fragments: seq<Bytes>) returns (msgs: seq<M>, ok: bool)
      requires buffer.data == []
      modifies buffer
      ensures msgs == Fed(parse, fragments).msgs && ok == Fed(parse, fragments).Open?
      ensures ok ==> buffer.data == Fed(parse, fragments).rest
    {
      hide Drain;
      msgs := [];
      for i := 0 to |fragments|
        invariant Fed(parse, fragments[..i]) == Open(msgs, buffer.data)
      {
        assert fragments[..i + 1][..i] == fragments[..i];
        var more;
        more, ok := Feed(buffer, fragments[i]);
        msgs := msgs + more;
        if !ok {
          FailureIsFinal(parse, fragments, i + 1);
          return;
        }
      }
      assert fragments[..|fragments|] == fragments;
      ok := true;
    }

    /** Encode a list of messages, one after the other, into a fresh buffer. */
    method EncodeList(msgs: seq<M>) returns (stream: Bytes)
      ensures stream == EncodeAll(write, msgs)
    {
      var dst := new BytesMut();
      for i := 0 to |msgs|
        invariant dst.data + EncodeAll(write, msgs[i..]) == EncodeAll(write, msgs)
        invariant fresh(dst)
      {
        assert msgs[i..][1..] == msgs[i + 1..];
        Encode(msgs[i], dst);
      }
      assert EncodeAll(write, msgs[|msgs|..]) == [];
      return dst.data;
    }

    /** Sent through the encoder, cut up anyhow, and fed to a decoder, every message list arrives. */
    method Deliver(buffer: BytesMut, fragments: seq<Bytes>, msgs: seq<M>) returns (arrived: seq<M>)
      requires buffer.data == [] && Concat(fragments) == EncodeAll(write, msgs)
      requires forall m :: m in msgs ==> parse(write(m)) == Some(m) && Fits(write, m)
      modifies buffer
      ensures arrived == msgs && buffer.data == []
    {
      AnySplitDelivers(write, parse, msgs, fragments);
      var ok;
      arrived, ok := FeedAll(buffer, fragments);
    }
  }

  // ---------------------------------------------------------------------------
  // Draining a buffer

  /** All messages decoded from a buffer, and whether it ended in a malformed frame. */
  datatype Drained<M> = Open(msgs: seq<M>, rest: Bytes) | Failed(msgs: seq<M>)

  function Drain<M>(parse: Bytes -> Option<M>, buf: Bytes): Drained<M>
    decreases |buf|
  {
    match DecodeStep(parse, buf)
    case NeedMore => Open([], buf)
    case Malformed(_) => Failed([])
    case Item(msg, rest) => Prefixed([msg], Drain(parse, rest))
  }

  function Prefixed<M>(msgs: seq<M>, d: Drained<M>): Drained<M> {
    match d
    case Open(more, rest) => Open(msgs + more, rest)
    case Failed(more) => Failed(msgs + more)
  }

  /** One more frame decoded after `msgs`. */
  lemma DrainUnfold<M>(parse: Bytes -> Option<M>, msgs: seq<M>, buf: Bytes)
    ensures Prefixed(msgs, Drain(parse, buf)) ==
      match DecodeStep(parse, buf)
      case NeedMore => Open(msgs, buf)
      case Malformed(_) => Failed(msgs)
      case Item(msg, rest) => Prefixed(msgs + [msg], Drain(parse, rest))
  {
    assert msgs + [] == msgs;
    match DecodeStep(parse, buf)
    case NeedMore =>
    case Malformed(_) =>
    case Item(msg, rest) => PrefixedTwice(msgs, [msg], Drain(parse, rest));
  }

  lemma ConcatSnoc(fragments: seq<Bytes>, i: nat)
    requires i < |fragments|
    ensures Concat(fragments[..i + 1]) == Concat(fragments[..i]) + fragments[i]
  {
    var one: seq<Bytes> := [fragments[i]];
    assert fragments[..i + 1] == fragments[..i] + one;
    ConcatAppend(fragments[..i], one);
    assert |one[1..]| == 0 && Concat(one) == fragments[i] + Concat(one[1..]);
  }

  /** More bytes never change a frame already complete. */
  lemma StepStable<M>(parse: Bytes -> Option<M>, a: Bytes, b: Bytes)
    requires !DecodeStep(parse, a).NeedMore?
    ensures DecodeStep(parse, a + b) ==
      match DecodeStep(parse, a)
      case Item(msg, rest) => Item(msg, rest + b)
      case Malformed(rest) => Malformed(rest + b)
  {
    assert (a + b)[..HEADER] == a[..HEADER];
    var len := FromLittleEndian(a[..HEADER]);
    assert (a + b)[HEADER..HEADER + len] == a[HEADER..HEADER + len];
    assert (a + b)[HEADER + len..] == a[HEADER + len..] + b;
  }

  /**
   * Fragmentation independence, for every byte stream: draining a prefix and then the remainder
   * with what follows gives what draining everything at once gives.
   */
  lemma {:induction false} DrainSplits<M>(parse: Bytes -> Option<M>, a: Bytes, b: Bytes)
    ensures Drain(parse, a + b) ==
      match Drain(parse, a)
      case Open(msgs, rest) => Prefixed(msgs, Drain(parse, rest + b))
      case Failed(msgs) => Failed(msgs)
    decreases |a|
  {
    var step := DecodeStep(parse, a);
    if step.NeedMore? {
      PrefixedNothing<M>(Drain(parse, a + b));
    } else {
      StepStable(parse, a, b);
      if step.Item? {
        DrainSplits(parse, step.rest, b);
        var head := Drain(parse, step.rest);
        if head.Open? {
          PrefixedTwice([step.msg], head.msgs, Drain(parse, head.rest + b));
        }
      }
    }
  }

  lemma PrefixedNothing<M>(d: Drained<M>)
    ensures Prefixed<M>([], d) == d
  {
    var none: seq<M> := [];
    assert none + d.msgs == d.msgs;
  }

  lemma PrefixedTwice<M>(a: seq<M>, b: seq<M>, d: Drained<M>)
    ensures Prefixed(a, Prefixed(b, d)) == Prefixed(a + b, d)
  {
    assert a + (b + d.msgs) == (a + b) + d.msgs;
  }

  /** After a malformed frame nothing more comes out. */
  lemma {:induction false} FailureIsFinal<M>(parse: Bytes -> Option<M>, fragments: seq<Bytes>, i: nat)
    requires i <= |fragments| && Fed(parse, fragments[..i]).Failed?
    ensures Fed(parse, fragments) == Fed(parse, fragments[..i])
    decreases |fragments|
  {
    if i < |fragments| {
      var n := |fragments| - 1;
      assert fragments[..n][..i] == fragments[..i];
      FailureIsFinal(parse, fragments[..n], i);
    } else {
      assert fragments[..i] == fragments;
    }
  }

  /** What has come out, and is left, after these fragments have arrived one by one. */
  function Fed<M>(parse: Bytes -> Option<M>, fragments: seq<Bytes>): Drained<M> {
    if fragments == [] then Open([], [])
    else
      match Fed(parse, fragments[..|fragments| - 1])
      case Open(msgs, rest) => Prefixed(msgs, Drain(parse, rest + fragments[|fragments| - 1]))
      case Failed(msgs) => Failed(msgs)
  }

  /** Feeding fragment by fragment and draining the whole stream at once agree, for every stream. */
  lemma {:induction false} FedIsDrained<M>(parse: Bytes -> Option<M>, fragments: seq<Bytes>)
    ensures Fed(parse, fragments) == Drain(parse, Concat(fragments))
    decreases |fragments|
  {
    if fragments != [] {
      var n := |fragments| - 1;
      FedIsDrained(parse, fragments[..n]);
      ConcatSnoc(fragments, n);
      assert fragments[..n + 1] == fragments;
      DrainSplits(parse, Concat(fragments[..n]), fragments[n]);
    }
  }

  // ---------------------------------------------------------------------------
  // Encoded streams

  function EncodeAll<M>(write: M -> Bytes, msgs: seq<M>): Bytes {
    if msgs == [] then [] else Frame(write(msgs[0])) + EncodeAll(write, msgs[1..])
  }

  /** The length of this message's serialised form fits the length field. */
  predicate Fits<M>(write: M -> Bytes, m: M) {
    |write(m)| < TWO_TO_THE_32
  }

  lemma FrameDecodes<M>(write: M -> Bytes, parse: Bytes -> Option<M>, m: M, more: Bytes)
    requires parse(write(m)) == Some(m) && Fits(write, m)
    ensures DecodeStep(parse, Frame(write(m)) + more) == Item(m, more)
  {
    hide LittleEndian, FromLittleEndian;
    var payload := write(m);
    var buf := Frame(payload) + more;
    assert buf[..HEADER] == LittleEndian(|payload|);
    assert buf[HEADER..HEADER + |payload|] == payload;
    assert buf[HEADER + |payload|..] == more;
  }

  lemma {:induction false} EncodedStreamDrains<M>(write: M -> Bytes, parse: Bytes -> Option<M>, msgs: seq<M>)
    requires forall m :: m in msgs ==> parse(write(m)) == Some(m) && Fits(write, m)
    ensures Drain(parse, EncodeAll(write, msgs)) == Open(msgs, [])
    decreases |msgs|
  {
    if msgs != [] {
      assert msgs == [msgs[0]] + msgs[1..];
      assert msgs[0] in msgs && forall m :: m in msgs[1..] ==> m in msgs;
      FrameDecodes(write, parse, msgs[0], EncodeAll(write, msgs[1..]));
      EncodedStreamDrains(write, parse, msgs[1..]);
    }
  }

  /** The messages before a frame that does not parse come out, and nothing after it. */
  lemma MalformedStops<M>(write: M -> Bytes, parse: Bytes -> Option<M>, msgs: seq<M>, bad: Bytes, more: Bytes)
    requires forall m :: m in msgs ==> parse(write(m)) == Some(m) && Fits(write, m)
    requires parse(bad).None? && |bad| < TWO_TO_THE_32
    ensures Drain(parse, EncodeAll(write, msgs) + (Frame(bad) + more)) == Failed(msgs)
  {
    var next := Frame(bad) + more;
    EncodedStreamDrains(write, parse, msgs);
    DrainSplits(parse, EncodeAll(write, msgs), next);
    FrameFails(parse, bad, more);
    assert [] + next == next;
    assert msgs + [] == msgs;
  }

  lemma FrameFails<M>(parse: Bytes -> Option<M>, bad: Bytes, more: Bytes)
    requires parse(bad).None? && |bad| < TWO_TO_THE_32
    ensures DecodeStep(parse, Frame(bad) + more) == Malformed(more)
  {
    hide LittleEndian, FromLittleEndian;
    var buf := Frame(bad) + more;
    assert buf[..HEADER] == LittleEndian(|bad|);
    assert buf[HEADER..HEADER + |bad|] == bad;
    assert buf[HEADER + |bad|..] == more;
  }

  /** However the encoded stream is split, the same messages come out, in order, with nothing left. */
  lemma AnySplitDelivers<M>(write: M -> Bytes, parse: Bytes -> Option<M>, msgs: seq<M>, fragments: seq<Bytes>)
    requires forall m :: m in msgs ==> parse(write(m)) == Some(m) && Fits(write, m)
    requires Concat(fragments) == EncodeAll(write, msgs)
    ensures Fed(parse, fragments) == Open(msgs, [])
  {
    FedIsDrained(parse, fragments);
    EncodedStreamDrains(write, parse, msgs);
  }

  /**
   * A single message comes back whole, with an empty remainder, exactly when its payload fits the
   * 32-bit length field.
   */
  lemma RoundTripExactlyWhenFits<M>(write: M -> Bytes, parse: Bytes -> Option<M>, m: M)
    requires parse(write(m)) == Some(m)
    ensures DecodeStep(parse, Frame(write(m))) == Item(m, []) <==> Fits(write, m)
  {
    var payload := write(m);
    if Fits(write, m) {
      FrameDecodes(write, parse, m, []);
      assert Frame(payload) + [] == Frame(payload);
    } else {
      var len := |payload| % TWO_TO_THE_32;
      assert Frame(payload)[..HEADER] == LittleEndian(len);
      assert |Frame(payload)[HEADER + len..]| > 0;
    }
  }
}
