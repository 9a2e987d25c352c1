/** What the codec does to byte streams: single frames, concatenations, cut-off
    prefixes, and arbitrary input. */
module Streams {
  import opened Bytes
  import opened Readers
  import opened Packets

  // ----- One frame -----

  lemma FieldValue(n: nat, v: nat, field: seq<byte>)
    requires field == BigEndian(n, v)
    ensures n == 4 ==> Value(field) == v % 0x1_0000_0000
    ensures n == 2 && v < 0x1_0000 ==> Value(field) == v
    ensures n == 8 && v < 0x1_0000_0000_0000_0000 ==> Value(field) == v
  {
    Widths();
    ValueOfBigEndian(n, v);
  }

  lemma LayoutHead(l: seq<byte>, total: nat, version: u16, seqId: u64)
    requires |l| >= 14
    requires l[0..4] == BigEndian(4, total) && l[4..6] == BigEndian(2, version) && l[6..14] == BigEndian(8, seqId)
    ensures Value(l[0..4]) == total % 0x1_0000_0000 && Value(l[4..6]) == version && Value(l[6..14]) == seqId
  {
    FieldValue(4, total, l[0..4]);
    FieldValue(2, version, l[4..6]);
    FieldValue(8, seqId, l[6..14]);
  }

  lemma LayoutFields(l: seq<byte>, total: nat, version: u16, seqId: u64, cmdId: u32, stamp: u64, payload: seq<byte>)
    requires l == Layout(total, version, seqId, cmdId, stamp, payload)
    ensures Value(l[0..4]) == total % 0x1_0000_0000 && Value(l[4..6]) == version && Value(l[6..14]) == seqId
    ensures Value(l[14..18]) == cmdId && Value(l[18..26]) == stamp && l[26..] == payload
  {
    LayoutParts(l, total, version, seqId, cmdId, stamp, payload);
    LayoutHead(l, total, version, seqId);
    FieldValue(4, cmdId, l[14..18]);
    FieldValue(8, stamp, l[18..26]);
  }

  /** The fields of a frame, read back; the length field holds the length modulo 2^32. */
  lemma FrameFields(cfg: Config, seqId: u64, c: Content)
    requires cfg.Valid() && EncodeFrame(cfg, seqId, c).Ok?
    ensures var f := EncodeFrame(cfg, seqId, c).value;
            && |f| >= HEADER_SIZE
            && Value(f[0..4]) == |f| % 0x1_0000_0000
            && Value(f[4..6]) == c.version && Value(f[6..14]) == seqId
            && Value(f[14..18]) == c.cmdId && Value(f[18..26]) == ToU64(c.timestamp)
            && f[26..] == Wrap(cfg, c.data).value
  {
    var f := EncodeFrame(cfg, seqId, c).value;
    LayoutFields(f, |f|, c.version, seqId, c.cmdId, ToU64(c.timestamp), Wrap(cfg, c.data).value);
  }

  /** Positions in the body, which starts after the length field. */
  lemma BodyFields(f: seq<byte>)
    requires |f| >= HEADER_SIZE
    ensures var body := f[4..];
            && body[0..2] == f[4..6] && body[2..10] == f[6..14] && body[10..14] == f[14..18]
            && body[14..22] == f[18..26] && body[22..] == f[26..]
  {
  }

  /** Decode on bytes whose length field is their own length. */
  lemma DecodeOfMeasured(cfg: Config, f: seq<byte>, rest: seq<byte>, end: StreamEnd)
    requires cfg.Valid() && |f| >= HEADER_SIZE && Value(f[0..4]) == |f|
    ensures DecodeBytes(cfg, f + rest, end) ==
              if |f| > MAX_PACKET_SIZE then Rejected(InvalidPacketSize, f[4..] + rest)
              else DecodeBody(cfg, f[4..], rest)
  {
    var b := f + rest;
    assert b[..4] == f[0..4] && b[4..] == f[4..] + rest;
    assert b[4..|f|] == f[4..] && b[|f|..] == rest;
  }

  lemma DecodeOfBody(cfg: Config, seqId: u64, c: Content, rest: seq<byte>)
    requires cfg.Valid() && cfg.Lossless() && EncodeFrame(cfg, seqId, c).Ok?
    ensures DecodeBody(cfg, EncodeFrame(cfg, seqId, c).value[4..], rest) ==
              if c.version > CURRENT_VERSION then Rejected(UnsupportedVersion, rest) else Received(seqId, c, rest)
  {
    FrameFields(cfg, seqId, c);
    BodyFields(EncodeFrame(cfg, seqId, c).value);
    UnwrapUndoesWrap(cfg, c.data);
  }

  /** What Decode makes of a frame shorter than 2^32 bytes, followed by anything. */
  lemma DecodeOfFrame(cfg: Config, seqId: u64, c: Content, rest: seq<byte>, end: StreamEnd)
    requires cfg.Valid() && cfg.Lossless() && EncodeFrame(cfg, seqId, c).Ok?
    requires |EncodeFrame(cfg, seqId, c).value| < 0x1_0000_0000
    ensures var f := EncodeFrame(cfg, seqId, c).value;
            DecodeBytes(cfg, f + rest, end) ==
              if |f| > MAX_PACKET_SIZE then Rejected(InvalidPacketSize, f[4..] + rest)
              else if c.version > CURRENT_VERSION then Rejected(UnsupportedVersion, rest)
              else Received(seqId, c, rest)
  {
    FrameFields(cfg, seqId, c);
    DecodeOfMeasured(cfg, EncodeFrame(cfg, seqId, c).value, rest, end);
    DecodeOfBody(cfg, seqId, c, rest);
  }

  /** Whether the peer can read back what this sender writes. */
  predicate Deliverable(cfg: Config, c: Content)
    requires cfg.Valid()
  {
    var payload := Wrap(cfg, c.data);
    payload.Ok? && c.version <= CURRENT_VERSION && HEADER_SIZE + |payload.value| <= MAX_PACKET_SIZE
  }

  lemma ReceivedLength(cfg: Config, b: seq<byte>, end: StreamEnd)
    requires cfg.Valid() && DecodeBytes(cfg, b, end).Received?
    ensures |b| >= 4 && HEADER_SIZE <= Value(b[..4]) <= |b|
    ensures |DecodeBytes(cfg, b, end).rest| == |b| - Value(b[..4])
    ensures DecodeBytes(cfg, b, end).rest == b[Value(b[..4])..]
  {
  }

  /** Encode does not check the size or the version: Decode returns the same packet,
      leaving exactly what follows, if and only if both were within bounds. */
  lemma FrameRoundTrip(cfg: Config, seqId: u64, c: Content, rest: seq<byte>, end: StreamEnd)
    requires cfg.Valid() && cfg.Lossless() && EncodeFrame(cfg, seqId, c).Ok?
    ensures DecodeBytes(cfg, EncodeFrame(cfg, seqId, c).value + rest, end) == Received(seqId, c, rest)
            <==> Deliverable(cfg, c)
  {
    var f := EncodeFrame(cfg, seqId, c).value;
    if |f| < 0x1_0000_0000 {
      DecodeOfFrame(cfg, seqId, c, rest, end);
    } else {
      FrameFields(cfg, seqId, c);
      assert (f + rest)[..4] == f[0..4];
      if DecodeBytes(cfg, f + rest, end).Received? {
        ReceivedLength(cfg, f + rest, end);
      }
    }
  }

  // ----- Reading until an error -----

  datatype Item = Item(seqId: u64, content: Content)

  /** The packets read, the error that ended the reading, and what was left unread. */
  datatype Parse = Parse(items: seq<Item>, error: DecodeError, left: seq<byte>)

  /** Decode applied again and again until it fails. */
  function DecodeAll(cfg: Config, b: seq<byte>, end: StreamEnd): Parse
    requires cfg.Valid()
    decreases |b|
  {
    match DecodeBytes(cfg, b, end)
    case Rejected(e, rest) => Parse([], e, rest)
    case Received(id, c, rest) =>
      ReceivedLength(cfg, b, end);
      var later := DecodeAll(cfg, rest, end);
      Parse([Item(id, c)] + later.items, later.error, later.left)
  }

  /** Reading one packet moves it from what is to come to what has been read. */
  lemma DecodeAllStep(cfg: Config, b: seq<byte>, done: seq<Item>, end: StreamEnd)
    requires cfg.Valid() && DecodeBytes(cfg, b, end).Received?
    ensures var d := DecodeBytes(cfg, b, end);
            var now, later := DecodeAll(cfg, b, end), DecodeAll(cfg, d.rest, end);
            && |d.rest| < |b| && now.error == later.error && now.left == later.left
            && done + now.items == (done + [Item(d.seqId, d.content)]) + later.items
  {
    ReceivedLength(cfg, b, end);
    var d := DecodeBytes(cfg, b, end);
    var later := DecodeAll(cfg, d.rest, end).items;
    assert done + ([Item(d.seqId, d.content)] + later) == (done + [Item(d.seqId, d.content)]) + later;
  }

  // ----- Round trip of a whole stream -----

  function Numbered(counter: u64, cs: seq<Content>): seq<Item>
    decreases cs
  {
    if cs == [] then [] else [Item(Increment(counter), cs[0])] + Numbered(Increment(counter), cs[1..])
  }

  /** Sequence numbers count up from the codec's counter, modulo 2^64. */
  lemma {:induction false} NumberedConsecutively(counter: u64, cs: seq<Content>, k: nat)
    requires k < |cs|
    ensures |Numbered(counter, cs)| == |cs|
    ensures Numbered(counter, cs)[k] == Item((counter + 1 + k) % 0x1_0000_0000_0000_0000, cs[k])
    decreases |cs|
  {
    if k > 0 {
      NumberedConsecutively(Increment(counter), cs[1..], k - 1);
    } else if |cs| > 1 {
      NumberedConsecutively(Increment(counter), cs[1..], 0);
    }
  }

  /** What a codec whose counter stands at `counter` writes for these packets. */
  function EncodeAll(cfg: Config, counter: u64, cs: seq<Content>): seq<byte>
    requires cfg.Valid() && forall c :: c in cs ==> Deliverable(cfg, c)
    decreases cs
  {
    if cs == [] then []
    else
      assert Deliverable(cfg, cs[0]);
      EncodeFrame(cfg, Increment(counter), cs[0]).value + EncodeAll(cfg, Increment(counter), cs[1..])
  }

  lemma {:induction false} StreamRoundTrip(cfg: Config, counter: u64, cs: seq<Content>, end: StreamEnd)
    requires cfg.Valid() && cfg.Lossless() && forall c :: c in cs ==> Deliverable(cfg, c)
    ensures DecodeAll(cfg, EncodeAll(cfg, counter, cs), end) == Parse(Numbered(counter, cs), Shortfall(0, end), [])
    decreases |cs|
  {
    if cs == [] {
    } else {
      assert Deliverable(cfg, cs[0]);
      DecodeOfFrame(cfg, Increment(counter), cs[0], EncodeAll(cfg, Increment(counter), cs[1..]), end);
      StreamRoundTrip(cfg, Increment(counter), cs[1..], end);
    }
  }

  // ----- A stream cut off anywhere -----

  /** One frame a sender produced: the number, the packet and the bytes. */
  datatype Sent = Sent(item: Item, frame: seq<byte>)

  ghost predicate IsSent(cfg: Config, s: Sent)
    requires cfg.Valid()
  {
    EncodeFrame(cfg, s.item.seqId, s.item.content) == Ok(s.frame) && |s.frame| < 0x1_0000_0000
  }

  function Wire(sent: seq<Sent>): seq<byte> {
    if sent == [] then [] else sent[0].frame + Wire(sent[1..])
  }

  function Items(sent: seq<Sent>): (r: seq<Item>)
    ensures |r| == |sent|
  {
    if sent == [] then [] else [sent[0].item] + Items(sent[1..])
  }

  lemma PartOfMeasured(cfg: Config, f: seq<byte>, part: seq<byte>, end: StreamEnd)
    requires cfg.Valid() && |f| >= HEADER_SIZE && Value(f[0..4]) == |f| && part < f
    ensures DecodeBytes(cfg, part, end).Rejected?
  {
    if |part| >= 4 {
      assert part[..4] == f[0..4];
    }
  }

  /** Less than a whole frame is never taken for a packet. */
  lemma PartOfFrame(cfg: Config, s: Sent, part: seq<byte>, end: StreamEnd)
    requires cfg.Valid() && IsSent(cfg, s) && part < s.frame
    ensures DecodeBytes(cfg, part, end).Rejected?
  {
    FrameFields(cfg, s.item.seqId, s.item.content);
    PartOfMeasured(cfg, s.frame, part, end);
  }

  function Contents(items: seq<Item>): (r: seq<Content>)
    ensures |r| == |items|
  {
    seq(|items|, k requires 0 <= k < |items| => items[k].content)
  }

  lemma ContentsFront(sent: seq<Sent>)
    requires sent != []
    ensures Contents(Items(sent)) == [sent[0].item.content] + Contents(Items(sent[1..]))
  {
  }

  function FrameSize(cfg: Config, c: Content): nat
    requires cfg.Valid() && Wrap(cfg, c.data).Ok?
  {
    HEADER_SIZE + |Wrap(cfg, c.data).value|
  }

  /** The bytes of these packets' frames. */
  function SizeOf(cfg: Config, cs: seq<Content>): nat
    requires cfg.Valid() && forall c :: c in cs ==> Wrap(cfg, c.data).Ok?
  {
    if cs == [] then 0 else FrameSize(cfg, cs[0]) + SizeOf(cfg, cs[1..])
  }

  /** How many of these packets, sent in order, `n` bytes bring: those that are whole and
      come before any the peer does not accept. */
  function Whole(cfg: Config, cs: seq<Content>, n: nat): (k: nat)
    requires cfg.Valid()
    ensures k <= |cs|
  {
    if cs == [] || !Deliverable(cfg, cs[0]) || n < FrameSize(cfg, cs[0]) then 0
    else 1 + Whole(cfg, cs[1..], n - FrameSize(cfg, cs[0]))
  }

  /** It is the one number of packets that can be delivered, fit into the bytes and are
      followed by none, by one that cannot be delivered, or by one that does not fit. */
  lemma {:induction false} WholeExactly(cfg: Config, cs: seq<Content>, n: nat, k: nat)
    requires cfg.Valid() && k <= |cs| && forall c :: c in cs ==> Wrap(cfg, c.data).Ok?
    ensures k == Whole(cfg, cs, n) <==>
            && (forall i :: 0 <= i < k ==> Deliverable(cfg, cs[i])) && SizeOf(cfg, cs[..k]) <= n
            && (k == |cs| || !Deliverable(cfg, cs[k]) || SizeOf(cfg, cs[..k + 1]) > n)
    decreases |cs|
  {
    if cs == [] {
    } else if k == 0 {
      assert cs[..1][1..] == [];
    } else {
      assert cs[..k][1..] == cs[1..][..k - 1];
      assert k < |cs| ==> cs[..k + 1][1..] == cs[1..][..k];
      if Deliverable(cfg, cs[0]) && FrameSize(cfg, cs[0]) <= n {
        WholeExactly(cfg, cs[1..], n - FrameSize(cfg, cs[0]), k - 1);
      }
    }
  }

  /** Packets sent later do not change how many of the earlier bytes' packets are whole. */
  lemma {:induction false} WholeOfPrefix(cfg: Config, a: seq<Content>, b: seq<Content>, n: nat)
    requires cfg.Valid() && a <= b && forall c :: c in b ==> Wrap(cfg, c.data).Ok?
    requires n <= SizeOf(cfg, a)
    ensures Whole(cfg, a, n) == Whole(cfg, b, n)
    decreases |a|
  {
    if a == [] {
    } else if Deliverable(cfg, a[0]) && FrameSize(cfg, a[0]) <= n {
      WholeOfPrefix(cfg, a[1..], b[1..], n - FrameSize(cfg, a[0]));
    }
  }

  /** `Whole`, frame by frame. */
  lemma WholeOfSent(cfg: Config, sent: seq<Sent>, n: nat)
    requires cfg.Valid() && sent != [] && IsSent(cfg, sent[0])
    ensures Whole(cfg, Contents(Items(sent)), n) ==
            if n < |sent[0].frame| || !Deliverable(cfg, sent[0].item.content) then 0
            else 1 + Whole(cfg, Contents(Items(sent[1..])), n - |sent[0].frame|)
  {
    ContentsFront(sent);
  }

  /** What the first frame, arrived whole, contributes. */
  lemma FirstFrame(cfg: Config, s: Sent, rest: seq<byte>, end: StreamEnd)
    requires cfg.Valid() && cfg.Lossless() && IsSent(cfg, s)
    ensures DecodeAll(cfg, s.frame + rest, end).items ==
            if Deliverable(cfg, s.item.content) then [s.item] + DecodeAll(cfg, rest, end).items else []
  {
    DecodeOfFrame(cfg, s.item.seqId, s.item.content, rest, end);
  }

  lemma FirstFrameCut(cfg: Config, s: Sent, part: seq<byte>, end: StreamEnd)
    requires cfg.Valid() && IsSent(cfg, s) && part < s.frame
    ensures DecodeAll(cfg, part, end).items == []
  {
    PartOfFrame(cfg, s, part, end);
  }

  lemma FrontPart(first: Item, later: seq<Item>, k: nat)
    requires k <= |later|
    ensures [first] + later[..k] == ([first] + later)[..1 + k]
  {
  }

  lemma RestArrives(sent: seq<Sent>, arrived: seq<byte>)
    requires sent != [] && arrived <= Wire(sent)
    ensures if |arrived| < |sent[0].frame| then arrived < sent[0].frame
            else arrived == sent[0].frame + arrived[|sent[0].frame|..]
                 && arrived[|sent[0].frame|..] <= Wire(sent[1..])
  {
    assert Wire(sent)[|sent[0].frame|..] == Wire(sent[1..]);
  }

  lemma DeliveryStep(cfg: Config, sent: seq<Sent>, rest: seq<byte>, end: StreamEnd)
    requires cfg.Valid() && cfg.Lossless() && sent != [] && IsSent(cfg, sent[0])
    requires DecodeAll(cfg, rest, end).items == Items(sent[1..])[..Whole(cfg, Contents(Items(sent[1..])), |rest|)]
    ensures DecodeAll(cfg, sent[0].frame + rest, end).items
         == Items(sent)[..Whole(cfg, Contents(Items(sent)), |sent[0].frame + rest|)]
  {
    WholeOfSent(cfg, sent, |sent[0].frame + rest|);
    FirstFrame(cfg, sent[0], rest, end);
    FrontPart(sent[0].item, Items(sent[1..]), Whole(cfg, Contents(Items(sent[1..])), |rest|));
  }

  /** Whatever prefix of the written bytes arrives, the packets read are exactly the first
      packets written, in order: as many as arrived whole before any the peer rejects. */
  lemma {:induction false} PrefixDelivery(cfg: Config, sent: seq<Sent>, arrived: seq<byte>, end: StreamEnd)
    requires cfg.Valid() && cfg.Lossless()
    requires forall s :: s in sent ==> IsSent(cfg, s)
    requires arrived <= Wire(sent)
    ensures DecodeAll(cfg, arrived, end).items == Items(sent)[..Whole(cfg, Contents(Items(sent)), |arrived|)]
    decreases |sent|
  {
    if sent == [] {
    } else {
      assert IsSent(cfg, sent[0]);
      RestArrives(sent, arrived);
      if |arrived| < |sent[0].frame| {
        FirstFrameCut(cfg, sent[0], arrived, end);
        WholeOfSent(cfg, sent, |arrived|);
      } else {
        PrefixDelivery(cfg, sent[1..], arrived[|sent[0].frame|..], end);
        DeliveryStep(cfg, sent, arrived[|sent[0].frame|..], end);
      }
    }
  }

  /** If all of it arrives and every packet was deliverable, all are read. */
  lemma {:induction false} FullDelivery(cfg: Config, sent: seq<Sent>, end: StreamEnd)
    requires cfg.Valid() && cfg.Lossless()
    requires forall s :: s in sent ==> IsSent(cfg, s) && Deliverable(cfg, s.item.content)
    ensures DecodeAll(cfg, Wire(sent), end) == Parse(Items(sent), Shortfall(0, end), [])
    decreases |sent|
  {
    if sent == [] {
    } else {
      DecodeOfFrame(cfg, sent[0].item.seqId, sent[0].item.content, Wire(sent[1..]), end);
      FullDelivery(cfg, sent[1..], end);
    }
  }

  // ----- Arbitrary input -----

  /** A frame Decode accepts, described without Decode. */
  predicate Acceptable(cfg: Config, f: seq<byte>)
    requires cfg.Valid()
  {
    && HEADER_SIZE <= |f| <= MAX_PACKET_SIZE
    && Value(f[..4]) == |f|
    && Value(f[4..6]) <= CURRENT_VERSION
    && Unwrap(cfg, f[26..]).Ok?
  }

  /** Decode succeeds exactly when the input starts with an acceptable frame, whose
      length the first four bytes give, and consumes exactly that frame. */
  lemma AcceptsFrame(cfg: Config, b: seq<byte>, n: nat, end: StreamEnd)
    requires cfg.Valid() && n <= |b|
    ensures Acceptable(cfg, b[..n]) <==>
            DecodeBytes(cfg, b, end).Received? && DecodeBytes(cfg, b, end).rest == b[n..]
  {
    var f := b[..n];
    if 4 <= n {
      assert f[..4] == b[..4];
    }
    if HEADER_SIZE <= n && n == Value(b[..4]) {
      assert b[4..n] == f[4..];
      BodyFields(f);
    }
    if DecodeBytes(cfg, b, end).Received? {
      ReceivedLength(cfg, b, end);
    }
  }

  /** Any acceptable frames the input starts with are frames the parser read, so it reads
      the longest prefix made of acceptable frames. */
  lemma {:induction false} ReadsLongestPrefix(cfg: Config, frames: seq<seq<byte>>, b: seq<byte>, end: StreamEnd)
    requires cfg.Valid() && Flatten(frames) <= b
    requires forall f :: f in frames ==> Acceptable(cfg, f)
    ensures |frames| <= |DecodeAll(cfg, b, end).items|
    decreases |frames|
  {
    if frames == [] {
    } else {
      var n := |frames[0]|;
      assert b[..n] == frames[0];
      AcceptsFrame(cfg, b, n, end);
      assert Flatten(frames)[n..] == Flatten(frames[1..]);
      ReadsLongestPrefix(cfg, frames[1..], b[n..], end);
    }
  }

  lemma NothingAcceptable(cfg: Config, b: seq<byte>, end: StreamEnd)
    requires cfg.Valid() && DecodeBytes(cfg, b, end).Rejected?
    ensures forall n :: 0 <= n <= |b| ==> !Acceptable(cfg, b[..n])
  {
    forall n | 0 <= n <= |b| ensures !Acceptable(cfg, b[..n]) {
      AcceptsFrame(cfg, b, n, end);
    }
  }

  /** Conversely the packets read come from acceptable frames at the start of the input,
      one for each, and no acceptable frame follows them. */
  lemma {:induction false} ReadsOnlyFrames(cfg: Config, b: seq<byte>, end: StreamEnd)
      returns (frames: seq<seq<byte>>, tail: seq<byte>)
    requires cfg.Valid()
    ensures b == Flatten(frames) + tail && |frames| == |DecodeAll(cfg, b, end).items|
    ensures forall f :: f in frames ==> Acceptable(cfg, f)
    ensures DecodeBytes(cfg, tail, end) == Rejected(DecodeAll(cfg, b, end).error, DecodeAll(cfg, b, end).left)
    ensures forall n :: 0 <= n <= |tail| ==> !Acceptable(cfg, tail[..n])
    decreases |b|
  {
    if DecodeBytes(cfg, b, end).Rejected? {
      NothingAcceptable(cfg, b, end);
      frames, tail := [], b;
    } else {
      ReceivedLength(cfg, b, end);
      var n := Value(b[..4]);
      AcceptsFrame(cfg, b, n, end);
      var later;
      later, tail := ReadsOnlyFrames(cfg, b[n..], end);
      frames := [b[..n]] + later;
      assert frames[1..] == later;
      assert b[..n] + (Flatten(later) + tail) == (b[..n] + Flatten(later)) + tail;
    }
  }

  lemma CompleteFrameEof(cfg: Config, b: seq<byte>, end: StreamEnd)
    requires cfg.Valid() && |b| > 4 && HEADER_SIZE <= Value(b[..4]) <= MAX_PACKET_SIZE && Value(b[..4]) <= |b|
    ensures DecodeBytes(cfg, b, end).Rejected? && DecodeBytes(cfg, b, end).error == Eof <==>
            Value(b[4..6]) <= CURRENT_VERSION && Unwrap(cfg, b[26..Value(b[..4])]) == Err(Eof)
  {
    var body := b[4..Value(b[..4])];
    assert body[0..2] == b[4..6] && body[22..] == b[26..Value(b[..4])];
  }

  /** io.EOF means a clean end of stream, an end right after a valid length field, or a payload
      for which decompression itself reports the end of its input. */
  lemma EofExactly(cfg: Config, b: seq<byte>, end: StreamEnd)
    requires cfg.Valid()
    ensures DecodeBytes(cfg, b, end).Rejected? && DecodeBytes(cfg, b, end).error == Eof <==>
            || (|b| == 0 && end == Ended)
            || (|b| == 4 && HEADER_SIZE <= Value(b) <= MAX_PACKET_SIZE && end == Ended)
            || (|b| > 4 && HEADER_SIZE <= Value(b[..4]) <= MAX_PACKET_SIZE && Value(b[..4]) <= |b|
                && Value(b[4..6]) <= CURRENT_VERSION && Unwrap(cfg, b[26..Value(b[..4])]) == Err(Eof))
  {
    if |b| == 4 {
      assert b[..4] == b;
    } else if |b| > 4 && HEADER_SIZE <= Value(b[..4]) <= MAX_PACKET_SIZE && Value(b[..4]) <= |b| {
      CompleteFrameEof(cfg, b, end);
    }
  }

  // ----- Encoding what was decoded -----

  /** The bytes a successful Decode consumed, in terms of what it returned. */
  lemma ConsumedLayout(cfg: Config, b: seq<byte>, end: StreamEnd)
    requires cfg.Valid() && DecodeBytes(cfg, b, end).Received?
    ensures var d := DecodeBytes(cfg, b, end);
            var n := |b| - |d.rest|;
            && HEADER_SIZE <= n && d.rest == b[n..] && Unwrap(cfg, b[26..n]) == Ok(d.content.data)
            && b[..n] == Layout(n, d.content.version, d.seqId, d.content.cmdId, ToU64(d.content.timestamp), b[26..n])
  {
    ReceivedLength(cfg, b, end);
    var n := Value(b[..4]);
    var f := b[..n];
    assert f[4..] == b[4..n] && f[0..4] == b[..4] && f[26..] == b[26..n];
    BodyFields(f);
    LayoutOfValues(f);
    Widths();
    BigEndianOfValue(f[18..26]);
  }

  /** Any bytes as long as their length field says are the layout of their fields. */
  lemma LayoutOfValues(f: seq<byte>)
    requires |f| >= HEADER_SIZE && Value(f[0..4]) == |f|
    ensures f == Layout(|f|, Value(f[4..6]), Value(f[6..14]), Value(f[14..18]), Value(f[18..26]), f[26..])
  {
    BigEndianOfValue(f[0..4]);
    BigEndianOfValue(f[4..6]);
    BigEndianOfValue(f[6..14]);
    BigEndianOfValue(f[14..18]);
    BigEndianOfValue(f[18..26]);
    LayoutParts(f, |f|, Value(f[4..6]), Value(f[6..14]), Value(f[14..18]), Value(f[18..26]), f[26..]);
  }

  /** With compression off, re-encoding an accepted packet reproduces the consumed
      bytes except for the sequence number at offsets 6 to 14, and those too when the
      number is the same. */
  lemma ReverseRoundTrip(cfg: Config, b: seq<byte>, seqId: u64, end: StreamEnd)
    requires cfg.Valid() && !cfg.compress && DecodeBytes(cfg, b, end).Received?
    ensures var d := DecodeBytes(cfg, b, end);
            var n := |b| - |d.rest|;
            && EncodeFrame(cfg, seqId, d.content).Ok?
            && var f := EncodeFrame(cfg, seqId, d.content).value;
            && b == b[..n] + d.rest
            && f == b[..6] + BigEndian(8, seqId) + b[14..n]
            && (seqId == d.seqId ==> f == b[..n])
  {
    ConsumedLayout(cfg, b, end);
    var d := DecodeBytes(cfg, b, end);
    var n := |b| - |d.rest|;
    var payload := b[26..n];
    WrapUndoesUnwrap(cfg, payload);
    var c := d.content;
    assert b[..n] + d.rest == b;
    OnlyTheNumberDiffers(b[..n], n, c.version, d.seqId, seqId, c.cmdId, ToU64(c.timestamp), payload);
    assert b[..n][..6] == b[..6] && b[..n][14..] == b[14..n];
  }

  lemma OnlyTheNumberDiffers(l: seq<byte>, total: nat, version: nat, id: nat, id': nat,
                             cmdId: nat, stamp: nat, payload: seq<byte>)
    requires l == Layout(total, version, id, cmdId, stamp, payload)
    ensures Layout(total, version, id', cmdId, stamp, payload) == l[..6] + BigEndian(8, id') + l[14..]
  {
    var head := BigEndian(4, total) + BigEndian(2, version);
    var tail := BigEndian(4, cmdId) + BigEndian(8, stamp) + payload;
    assert l == head + BigEndian(8, id) + tail;
    assert Layout(total, version, id', cmdId, stamp, payload) == head + BigEndian(8, id') + tail;
  }
}
