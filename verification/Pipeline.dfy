/** The sending half of network/conn.go as a step system: any number of concurrent
    Send calls, the bounded queue, the single writer and the closing of the
    connection interleave freely.  A packet is handed to Send once. */
module Pipeline {
  import opened Bytes
  import opened Readers
  import opened Packets
  import opened Streams

  const QUEUE_CAPACITY := 1024

  datatype SendResult = Nil | ErrConnectionClosed | ErrRateLimitExceeded | ErrSendQueueFull

  /** How far a Send call has come. */
  datatype SendPc =
    | Entered(content: Content)
    | FoundOpen(content: Content)
    | PassedLimiter(content: Content)
    | AtSelect(content: Content, seqId: u64)
    | Returned(result: SendResult)

  datatype WriterPc =
    | Waiting
    | Encoding(content: Content)
    | Writing(item: Item, frame: seq<byte>)
    | Stopped

  /** What became of a packet the writer took: its codec number, and its frame unless
      encoding failed. */
  datatype Handled = Handled(item: Item, encoded: Result<seq<byte>, EncodeError>)

  /** `queue` holds the packets in the channel, with the numbers Send gave them;
      `accepted` lists the packets enqueued, in that order, `acceptedBy` the calls that
      enqueued them; `handled` is what the writer has finished with. */
  datatype State = State(
    closed: bool, chanClosed: bool,
    calls: map<nat, SendPc>, messageSeq: u64,
    queue: seq<Item>, writer: WriterPc, counter: u64, wire: seq<byte>,
    accepted: seq<Content>, acceptedBy: seq<nat>, handled: seq<Handled>)

  datatype Event =
    | Begin(call: nat, content: Content)
    | CheckClosed(call: nat)
    | AskLimiter(call: nat, allow: bool)
    | Number(call: nat)
    | ChooseQueue(call: nat)
    | ChooseClosed(call: nat)
    | ChooseDefault(call: nat)
    | Dequeue
    | Encode
    | Write(n: nat, ok: bool)
    | WriterSeesClose
    | MarkClosed
    | CloseChan

  const INITIAL := State(false, false, map[], 0, [], Waiting, 0, [], [], [], [])

  ghost predicate SendStep(s: State, e: Event, s': State) {
    match e
    case Begin(call, c) => call !in s.calls && s' == s.(calls := s.calls[call := Entered(c)])
    case CheckClosed(call) =>
      && call in s.calls && s.calls[call].Entered?
      && s' == s.(calls := s.calls[call :=
           if s.closed then Returned(ErrConnectionClosed) else FoundOpen(s.calls[call].content)])
    case AskLimiter(call, allow) =>
      && call in s.calls && s.calls[call].FoundOpen?
      && s' == s.(calls := s.calls[call :=
           if allow then PassedLimiter(s.calls[call].content) else Returned(ErrRateLimitExceeded)])
    case Number(call) =>
      && call in s.calls && s.calls[call].PassedLimiter?
      && s' == s.(messageSeq := Increment(s.messageSeq),
                  calls := s.calls[call := AtSelect(s.calls[call].content, Increment(s.messageSeq))])
    case ChooseQueue(call) =>
      && call in s.calls && s.calls[call].AtSelect? && |s.queue| < QUEUE_CAPACITY
      && s' == s.(calls := s.calls[call := Returned(Nil)],
                  queue := s.queue + [Item(s.calls[call].seqId, s.calls[call].content)],
                  accepted := s.accepted + [s.calls[call].content], acceptedBy := s.acceptedBy + [call])
    case ChooseClosed(call) =>
      && call in s.calls && s.calls[call].AtSelect? && s.chanClosed
      && s' == s.(calls := s.calls[call := Returned(ErrConnectionClosed)])
    case ChooseDefault(call) =>
      && call in s.calls && s.calls[call].AtSelect? && |s.queue| >= QUEUE_CAPACITY && !s.chanClosed
      && s' == s.(calls := s.calls[call := Returned(ErrSendQueueFull)])
    case _ => false
  }

  /** select picks any ready case, so the writer may still take packets after the close. */
  ghost predicate WriterStep(cfg: Config, s: State, e: Event, s': State)
    requires cfg.Valid()
  {
    match e
    case Dequeue =>
      && s.writer == Waiting && s.queue != []
      && s' == s.(writer := Encoding(s.queue[0].content), queue := s.queue[1..])
    case Encode =>
      && s.writer.Encoding?
      && var item := Item(Increment(s.counter), s.writer.content);
      && var encoded := EncodeFrame(cfg, item.seqId, item.content);
      && s' == if encoded.Ok? then s.(counter := item.seqId, writer := Writing(item, encoded.value))
               else s.(counter := item.seqId, writer := Waiting, handled := s.handled + [Handled(item, encoded)])
    case Write(n, ok) =>
      && s.writer.Writing? && n <= |s.writer.frame| && (ok ==> n == |s.writer.frame|)
      && s' == s.(wire := s.wire + s.writer.frame[..n], writer := if ok then Waiting else Stopped,
                  handled := s.handled + [Handled(s.writer.item, Ok(s.writer.frame))])
    case WriterSeesClose => s.writer == Waiting && s.chanClosed && s' == s.(writer := Stopped)
    case _ => false
  }

  ghost predicate CloseStep(s: State, e: Event, s': State) {
    match e
    case MarkClosed => s' == s.(closed := true)
    case CloseChan => s.closed && s' == s.(chanClosed := true)
    case _ => false
  }

  ghost predicate Next(cfg: Config, s: State, e: Event, s': State)
    requires cfg.Valid()
  {
    SendStep(s, e, s') || WriterStep(cfg, s, e, s') || CloseStep(s, e, s')
  }

  ghost predicate StepAt(cfg: Config, states: seq<State>, events: seq<Event>, k: nat)
    requires cfg.Valid() && k < |events| && k + 1 < |states|
  {
    Next(cfg, states[k], events[k], states[k + 1])
  }

  /** A stretch of steps from any state. */
  ghost predicate IsStretch(cfg: Config, states: seq<State>, events: seq<Event>)
    requires cfg.Valid()
  {
    && |states| == |events| + 1
    && forall k: nat :: k < |events| ==> StepAt(cfg, states, events, k)
  }

  ghost predicate IsRun(cfg: Config, states: seq<State>, events: seq<Event>)
    requires cfg.Valid()
  {
    IsStretch(cfg, states, events) && states[0] == INITIAL
  }

  ghost predicate Reachable(cfg: Config, s: State)
    requires cfg.Valid()
  {
    exists states, events :: IsRun(cfg, states, events) && states[|events|] == s
  }

  // ----- The queue is first in, first out, and loses nothing -----

  function HandledContents(h: seq<Handled>): (r: seq<Content>)
    ensures |r| == |h|
  {
    seq(|h|, k requires 0 <= k < |h| => h[k].item.content)
  }

  /** The packet in the writer's hand, if any. */
  function InHand(w: WriterPc): seq<Content> {
    match w
    case Encoding(c) => [c]
    case Writing(item, _) => [item.content]
    case _ => []
  }

  ghost predicate Fifo(s: State) {
    && s.accepted == HandledContents(s.handled) + InHand(s.writer) + Contents(s.queue)
    && |s.queue| <= QUEUE_CAPACITY
  }

  /** A call returned nil exactly if it enqueued, and it enqueued once. */
  ghost predicate NilMeansEnqueued(s: State) {
    && |s.acceptedBy| == |s.accepted|
    && (forall i, j :: 0 <= i < j < |s.acceptedBy| ==> s.acceptedBy[i] != s.acceptedBy[j])
    && (forall call :: call in s.acceptedBy <==> call in s.calls && s.calls[call] == Returned(Nil))
  }

  lemma NilAfterEnqueue(s: State, call: nat, s': State)
    requires NilMeansEnqueued(s) && SendStep(s, ChooseQueue(call), s')
    ensures NilMeansEnqueued(s')
  {
    assert call !in s.acceptedBy;
    assert forall other :: other in s'.acceptedBy <==> other in s.acceptedBy || other == call;
  }

  lemma NilStep(cfg: Config, s: State, e: Event, s': State)
    requires cfg.Valid() && NilMeansEnqueued(s) && Next(cfg, s, e, s')
    ensures NilMeansEnqueued(s')
  {
    if e.ChooseQueue? {
      NilAfterEnqueue(s, e.call, s');
    } else if SendStep(s, e, s') {
      assert s'.acceptedBy == s.acceptedBy;
      assert e.call !in s.acceptedBy;
    } else {
      assert s'.acceptedBy == s.acceptedBy && s'.calls == s.calls;
    }
  }

  lemma FifoWriterStep(cfg: Config, s: State, e: Event, s': State)
    requires cfg.Valid() && Fifo(s) && WriterStep(cfg, s, e, s')
    ensures Fifo(s')
  {
    var h, q := HandledContents(s.handled), Contents(s.queue);
    if e.Dequeue? {
      assert q == [s.queue[0].content] + Contents(s'.queue);
    } else if |s'.handled| > |s.handled| {
      assert HandledContents(s'.handled) == h + [s'.handled[|s.handled|].item.content];
    }
  }

  lemma FifoStep(cfg: Config, s: State, e: Event, s': State)
    requires cfg.Valid() && Fifo(s) && Next(cfg, s, e, s')
    ensures Fifo(s')
  {
    if WriterStep(cfg, s, e, s') {
      FifoWriterStep(cfg, s, e, s');
    } else if e.ChooseQueue? {
      assert Contents(s'.queue) == Contents(s.queue) + [s.calls[e.call].content];
    }
  }

  // ----- What is on the wire -----

  function FrameOf(h: Handled): seq<Sent> {
    if h.encoded.Ok? then [Sent(h.item, h.encoded.value)] else []
  }

  /** The frames among what the writer finished with. */
  function Frames(h: seq<Handled>): seq<Sent> {
    if h == [] then [] else Frames(h[..|h| - 1]) + FrameOf(h[|h| - 1])
  }

  lemma FramesAppend(h: seq<Handled>, x: Handled)
    ensures Frames(h + [x]) == Frames(h) + FrameOf(x)
    ensures Wire(Frames(h + [x])) == Wire(Frames(h)) + (if x.encoded.Ok? then x.encoded.value else [])
  {
    assert (h + [x])[..|h|] == h;
    if x.encoded.Ok? {
      WireAppend(Frames(h), Sent(x.item, x.encoded.value));
    } else {
      assert Frames(h) + [] == Frames(h);
    }
  }

  /** The k-th packet the writer takes gets number k, counted from 1 and wrapping. */
  ghost predicate WellHandled(cfg: Config, h: seq<Handled>)
    requires cfg.Valid()
  {
    h == [] ||
    (var last := h[|h| - 1];
     && last.item.seqId == Count(|h|)
     && last.encoded == EncodeFrame(cfg, last.item.seqId, last.item.content)
     && WellHandled(cfg, h[..|h| - 1]))
  }

  ghost predicate WireInv(cfg: Config, s: State)
    requires cfg.Valid()
  {
    && WellHandled(cfg, s.handled)
    && s.wire <= Wire(Frames(s.handled))
    && (s.writer != Stopped ==> s.wire == Wire(Frames(s.handled)))
    && s.counter == Count(|s.handled| + if s.writer.Writing? then 1 else 0)
    && (s.writer.Writing? ==>
          && s.writer.item.seqId == s.counter
          && EncodeFrame(cfg, s.counter, s.writer.item.content) == Ok(s.writer.frame))
  }

  lemma {:induction false} WireAppend(a: seq<Sent>, s: Sent)
    ensures Wire(a + [s]) == Wire(a) + s.frame
    decreases |a|
  {
    if a == [] {
    } else {
      assert (a + [s])[1..] == a[1..] + [s];
      WireAppend(a[1..], s);
    }
  }

  lemma WellHandledAppend(cfg: Config, h: seq<Handled>, x: Handled)
    requires cfg.Valid() && WellHandled(cfg, h)
    requires x.encoded == EncodeFrame(cfg, x.item.seqId, x.item.content)
    requires x.item.seqId == Count(|h| + 1)
    ensures WellHandled(cfg, h + [x])
  {
    assert (h + [x])[..|h|] == h;
  }

  lemma CutShort(w: seq<byte>, frame: seq<byte>, n: nat)
    requires n <= |frame|
    ensures w + frame[..n] <= w + frame
    ensures n == |frame| ==> w + frame[..n] == w + frame
  {
    assert w + frame == w + frame[..n] + frame[n..];
  }

  lemma WireAfterWrite(cfg: Config, s: State, n: nat, ok: bool, s': State)
    requires cfg.Valid() && WireInv(cfg, s) && WriterStep(cfg, s, Write(n, ok), s')
    ensures WireInv(cfg, s')
  {
    var x := s'.handled[|s.handled|];
    WellHandledAppend(cfg, s.handled, x);
    FramesAppend(s.handled, x);
    CutShort(s.wire, s.writer.frame, n);
  }

  lemma FailureLeavesWire(cfg: Config, h: seq<Handled>, x: Handled)
    requires cfg.Valid() && WellHandled(cfg, h) && x.encoded.Err?
    requires x.encoded == EncodeFrame(cfg, x.item.seqId, x.item.content) && x.item.seqId == Count(|h| + 1)
    ensures WellHandled(cfg, h + [x]) && Wire(Frames(h + [x])) == Wire(Frames(h))
  {
    WellHandledAppend(cfg, h, x);
    FramesAppend(h, x);
    assert Wire(Frames(h)) + [] == Wire(Frames(h));
  }

  lemma FailedEncode(cfg: Config, s: State, s': State) returns (x: Handled)
    requires cfg.Valid() && WriterStep(cfg, s, Encode, s') && s'.writer == Waiting
    ensures s'.handled == s.handled + [x] && s'.wire == s.wire && s'.counter == Increment(s.counter)
    ensures x.item.seqId == s'.counter && x.encoded.Err?
    ensures x.encoded == EncodeFrame(cfg, x.item.seqId, x.item.content)
  {
    x := Handled(Item(Increment(s.counter), s.writer.content),
                 EncodeFrame(cfg, Increment(s.counter), s.writer.content));
  }

  lemma WireAfterFailure(cfg: Config, s: State, s': State)
    requires cfg.Valid() && WireInv(cfg, s) && WriterStep(cfg, s, Encode, s') && s'.writer == Waiting
    ensures WireInv(cfg, s')
  {
    var x := FailedEncode(cfg, s, s');
    assert x.item.seqId == Count(|s.handled| + 1);
    FailureLeavesWire(cfg, s.handled, x);
  }

  lemma WireAfterEncode(cfg: Config, s: State, s': State)
    requires cfg.Valid() && WireInv(cfg, s) && WriterStep(cfg, s, Encode, s')
    ensures WireInv(cfg, s')
  {
    if s'.writer == Waiting {
      WireAfterFailure(cfg, s, s');
    }
  }

  lemma WireStep(cfg: Config, s: State, e: Event, s': State)
    requires cfg.Valid() && WireInv(cfg, s) && Next(cfg, s, e, s')
    ensures WireInv(cfg, s')
  {
    if e.Write? {
      WireAfterWrite(cfg, s, e.n, e.ok, s');
    } else if e.Encode? {
      WireAfterEncode(cfg, s, s');
    } else {
      WriterIdle(cfg, s, e, s');
    }
  }

  lemma WriterIdle(cfg: Config, s: State, e: Event, s': State)
    requires cfg.Valid() && Next(cfg, s, e, s') && !e.Write? && !e.Encode?
    ensures s'.handled == s.handled && s'.wire == s.wire && s'.counter == s.counter
    ensures s'.writer == s.writer || (s.writer == Waiting && !s'.writer.Writing?)
  {
  }

  ghost predicate Inv(cfg: Config, s: State)
    requires cfg.Valid()
  {
    Fifo(s) && NilMeansEnqueued(s) && WireInv(cfg, s)
  }

  lemma InvStep(cfg: Config, s: State, e: Event, s': State)
    requires cfg.Valid() && Inv(cfg, s) && Next(cfg, s, e, s')
    ensures Inv(cfg, s')
  {
    FifoStep(cfg, s, e, s');
    NilStep(cfg, s, e, s');
    WireStep(cfg, s, e, s');
  }

  lemma InvAt(cfg: Config, states: seq<State>, events: seq<Event>, k: nat)
    requires cfg.Valid() && IsRun(cfg, states, events) && 0 < k < |states| && Inv(cfg, states[k - 1])
    ensures Inv(cfg, states[k])
  {
    assert StepAt(cfg, states, events, k - 1);
    InvStep(cfg, states[k - 1], events[k - 1], states[k]);
  }

  lemma InvFirst(cfg: Config, states: seq<State>, events: seq<Event>)
    requires cfg.Valid() && IsRun(cfg, states, events)
    ensures Inv(cfg, states[0])
  {
    assert Contents([]) == [] && HandledContents([]) == [];
  }

  lemma {:induction false} Always(cfg: Config, states: seq<State>, events: seq<Event>, k: nat)
    requires cfg.Valid() && IsRun(cfg, states, events) && k < |states|
    ensures Inv(cfg, states[k])
  {
    if k == 0 {
      InvFirst(cfg, states, events);
    } else {
      Always(cfg, states, events, k - 1);
      InvAt(cfg, states, events, k);
    }
  }

  /** The queue is first in, first out, nil means enqueued, and the wire holds the frames. */
  lemma ReachableInv(cfg: Config, s: State)
    requires cfg.Valid() && Reachable(cfg, s)
    ensures Inv(cfg, s)
  {
    var states, events :| IsRun(cfg, states, events) && states[|events|] == s;
    Always(cfg, states, events, |events|);
  }

  /** Every packet accepted is in exactly one place. */
  lemma Accounting(cfg: Config, s: State)
    requires cfg.Valid() && Reachable(cfg, s)
    ensures |s.queue| <= 1024
    ensures |s.accepted| == |s.queue| + |InHand(s.writer)| + |s.handled|
    ensures |s.acceptedBy| == |s.accepted|
    ensures forall i, j :: 0 <= i < j < |s.acceptedBy| ==> s.acceptedBy[i] != s.acceptedBy[j]
    ensures forall call :: call in s.acceptedBy <==> call in s.calls && s.calls[call] == Returned(Nil)
  {
    ReachableInv(cfg, s);
  }

  // ----- End to end -----

  /** The packets whose encoding does not fail, in order. */
  function Encodable(cfg: Config, cs: seq<Content>): seq<Content>
    requires cfg.Valid()
  {
    if cs == [] then []
    else Encodable(cfg, cs[..|cs| - 1]) + (if Wrap(cfg, cs[|cs| - 1].data).Ok? then [cs[|cs| - 1]] else [])
  }

  lemma {:induction false} EncodablePrefix(cfg: Config, a: seq<Content>, b: seq<Content>)
    requires cfg.Valid() && a <= b
    ensures Encodable(cfg, a) <= Encodable(cfg, b)
    decreases |b|
  {
    if |a| < |b| {
      EncodablePrefix(cfg, a, b[..|b| - 1]);
    } else {
      assert a == b;
    }
  }

  lemma {:induction false} ItemsAppend(a: seq<Sent>, s: Sent)
    ensures Items(a + [s]) == Items(a) + [s.item]
    decreases |a|
  {
    if a == [] {
    } else {
      assert (a + [s])[1..] == a[1..] + [s];
      ItemsAppend(a[1..], s);
    }
  }

  lemma HandledFront(h: seq<Handled>)
    requires h != []
    ensures HandledContents(h) == HandledContents(h[..|h| - 1]) + [h[|h| - 1].item.content]
  {
  }

  lemma {:induction false} FramesCarryContents(cfg: Config, h: seq<Handled>)
    requires cfg.Valid() && WellHandled(cfg, h)
    ensures Contents(Items(Frames(h))) == Encodable(cfg, HandledContents(h))
  {
    if h == [] {
    } else {
      var front, last := h[..|h| - 1], h[|h| - 1];
      FramesCarryContents(cfg, front);
      HandledFront(h);
      assert HandledContents(h)[..|h| - 1] == HandledContents(front);
      assert last.encoded == EncodeFrame(cfg, last.item.seqId, last.item.content);
      if last.encoded.Ok? {
        ItemsAppend(Frames(front), Sent(last.item, last.encoded.value));
        ContentsAppend(Items(Frames(front)), last.item);
      } else {
        assert Frames(front) + [] == Frames(front);
      }
    }
  }

  lemma ContentsAppend(items: seq<Item>, x: Item)
    ensures Contents(items + [x]) == Contents(items) + [x.content]
  {
  }

  lemma {:induction false} FramesAreEncodings(cfg: Config, h: seq<Handled>)
    requires cfg.Valid() && WellHandled(cfg, h)
    ensures forall s :: s in Frames(h) ==>
              EncodeFrame(cfg, s.item.seqId, s.item.content) == Ok(s.frame) && s.item.content in HandledContents(h)
  {
    if h == [] {
    } else {
      FramesAreEncodings(cfg, h[..|h| - 1]);
      HandledFront(h);
    }
  }

  /** What is required of sizes: no frame reaches 2^32 bytes. */
  ghost predicate FramesFit(cfg: Config, cs: seq<Content>)
    requires cfg.Valid()
  {
    forall c :: c in cs && Wrap(cfg, c.data).Ok? ==> HEADER_SIZE + |Wrap(cfg, c.data).value| < 0x1_0000_0000
  }

  lemma FramesAreSent(cfg: Config, s: State)
    requires cfg.Valid() && Inv(cfg, s) && FramesFit(cfg, s.accepted)
    ensures forall f :: f in Frames(s.handled) ==> IsSent(cfg, f)
  {
    FramesAreEncodings(cfg, s.handled);
    forall f | f in Frames(s.handled) ensures IsSent(cfg, f) {
      assert f.item.content in HandledContents(s.handled);
      assert f.item.content in s.accepted;
    }
  }

  lemma {:induction false} WireSize(cfg: Config, sent: seq<Sent>)
    requires cfg.Valid() && forall s :: s in sent ==> IsSent(cfg, s)
    ensures forall c :: c in Contents(Items(sent)) ==> Wrap(cfg, c.data).Ok?
    ensures |Wire(sent)| == SizeOf(cfg, Contents(Items(sent)))
  {
    if sent == [] {
    } else {
      assert IsSent(cfg, sent[0]);
      ContentsFront(sent);
      WireSize(cfg, sent[1..]);
    }
  }

  lemma WrittenInOrder(cfg: Config, s: State)
    requires cfg.Valid() && Inv(cfg, s)
    ensures Contents(Items(Frames(s.handled))) <= Encodable(cfg, s.accepted)
  {
    FramesCarryContents(cfg, s.handled);
    EncodablePrefix(cfg, HandledContents(s.handled), s.accepted);
  }

  /** End to end: in every reachable state, for every prefix of the written bytes that
      reaches a peer with the same codec settings, the packets the peer reads are, in
      order and complete, exactly the first packets of those Send accepted, less those
      whose encoding failed: as many as arrived whole before the first one the peer does
      not accept. */
  lemma EndToEnd(cfg: Config, s: State, arrived: seq<byte>, end: StreamEnd)
    requires cfg.Valid() && cfg.Lossless() && Reachable(cfg, s)
    requires FramesFit(cfg, s.accepted) && arrived <= s.wire
    ensures var sent := Encodable(cfg, s.accepted);
            Contents(DecodeAll(cfg, arrived, end).items) == sent[..Whole(cfg, sent, |arrived|)]
  {
    ReachableInv(cfg, s);
    FramesAreSent(cfg, s);
    var frames, sent := Frames(s.handled), Encodable(cfg, s.accepted);
    PrefixDelivery(cfg, frames, arrived, end);
    WrittenInOrder(cfg, s);
    EncodableIsOk(cfg, s.accepted);
    WireSize(cfg, frames);
    WholeOfPrefix(cfg, Contents(Items(frames)), sent, |arrived|);
  }

  lemma {:induction false} EncodableIsOk(cfg: Config, cs: seq<Content>)
    requires cfg.Valid()
    ensures forall c :: c in Encodable(cfg, cs) ==> Wrap(cfg, c.data).Ok?
  {
    if cs == [] {
    } else {
      EncodableIsOk(cfg, cs[..|cs| - 1]);
    }
  }

  lemma {:induction false} EncodableAll(cfg: Config, cs: seq<Content>)
    requires cfg.Valid() && forall c :: c in cs ==> Wrap(cfg, c.data).Ok?
    ensures Encodable(cfg, cs) == cs
  {
    if cs == [] {
    } else {
      EncodableAll(cfg, cs[..|cs| - 1]);
      assert cs[|cs| - 1] in cs;
    }
  }

  /** Nothing is lost on the way: once the channel is drained and every byte has arrived,
      the peer has read exactly the accepted packets, if each was within the limits. */
  lemma AllDelivered(cfg: Config, s: State, end: StreamEnd)
    requires cfg.Valid() && cfg.Lossless() && Reachable(cfg, s)
    requires s.queue == [] && s.writer == Waiting
    requires forall c :: c in s.accepted ==> Deliverable(cfg, c)
    ensures Contents(DecodeAll(cfg, s.wire, end).items) == s.accepted
  {
    ReachableInv(cfg, s);
    assert HandledContents(s.handled) == s.accepted;
    FramesAreEncodings(cfg, s.handled);
    FullDelivery(cfg, Frames(s.handled), end);
    FramesCarryContents(cfg, s.handled);
    EncodableAll(cfg, s.accepted);
  }

  lemma {:induction false} HandledAt(cfg: Config, h: seq<Handled>, i: nat)
    requires cfg.Valid() && WellHandled(cfg, h) && i < |h|
    ensures h[i].encoded == EncodeFrame(cfg, h[i].item.seqId, h[i].item.content)
    decreases |h|
  {
    if i == |h| - 1 {
    } else {
      HandledAt(cfg, h[..|h| - 1], i);
    }
  }

  lemma {:induction false} NumbersOnWire(cfg: Config, h: seq<Handled>, j: nat)
    requires cfg.Valid() && WellHandled(cfg, h) && forall i :: 0 <= i < |h| ==> h[i].encoded.Ok?
    requires j < |h|
    ensures |Items(Frames(h))| == |h|
    ensures Items(Frames(h))[j].seqId == Count(j + 1)
    decreases |h|
  {
    var front, last := h[..|h| - 1], h[|h| - 1];
    ItemsAppend(Frames(front), Sent(last.item, last.encoded.value));
    if j < |h| - 1 {
      NumbersOnWire(cfg, front, j);
    } else if |h| > 1 {
      NumbersOnWire(cfg, front, 0);
    }
  }

  lemma AllEncoded(cfg: Config, s: State)
    requires cfg.Valid() && Inv(cfg, s) && forall c :: c in s.accepted ==> Wrap(cfg, c.data).Ok?
    ensures forall i :: 0 <= i < |s.handled| ==> s.handled[i].encoded.Ok?
  {
    forall i | 0 <= i < |s.handled| ensures s.handled[i].encoded.Ok? {
      assert s.accepted[i] == HandledContents(s.handled)[i] == s.handled[i].item.content;
      HandledAt(cfg, s.handled, i);
    }
  }

  lemma NumberOfFrame(cfg: Config, h: seq<Handled>, j: nat)
    requires cfg.Valid() && WellHandled(cfg, h) && forall i :: 0 <= i < |h| ==> h[i].encoded.Ok?
    requires j < |Items(Frames(h))|
    ensures Items(Frames(h))[j].seqId == (j + 1) % 0x1_0000_0000_0000_0000
  {
    NumbersOnWire(cfg, h, 0);
    NumbersOnWire(cfg, h, j);
    CountIsModulo(j + 1);
  }

  /** Without encoding errors the numbers a peer reads are 1, 2, 3, ... modulo 2^64,
      in whatever order the Send calls drew theirs. */
  lemma ReceivedNumbers(cfg: Config, s: State, arrived: seq<byte>, j: nat, end: StreamEnd)
    requires cfg.Valid() && cfg.Lossless() && Reachable(cfg, s)
    requires FramesFit(cfg, s.accepted) && arrived <= s.wire
    requires forall c :: c in s.accepted ==> Wrap(cfg, c.data).Ok?
    requires j < |DecodeAll(cfg, arrived, end).items|
    ensures DecodeAll(cfg, arrived, end).items[j].seqId == (j + 1) % 0x1_0000_0000_0000_0000
  {
    ReachableInv(cfg, s);
    FramesAreSent(cfg, s);
    PrefixDelivery(cfg, Frames(s.handled), arrived, end);
    AllEncoded(cfg, s);
    NumberOfFrame(cfg, s.handled, j);
  }

  // ----- Undisturbed calls -----

  /** A whole Send call with no other step in between: the limiter's answer and the
      select's choice when both cases are ready are parameters. */
  ghost function AfterSend(s: State, call: nat, c: Content, allow: bool, pickQueue: bool): State {
    if s.closed then s.(calls := s.calls[call := Returned(ErrConnectionClosed)])
    else if !allow then s.(calls := s.calls[call := Returned(ErrRateLimitExceeded)])
    else
      var id := Increment(s.messageSeq);
      if |s.queue| < QUEUE_CAPACITY && (pickQueue || !s.chanClosed) then
        s.(messageSeq := id, calls := s.calls[call := Returned(Nil)], queue := s.queue + [Item(id, c)],
           accepted := s.accepted + [c], acceptedBy := s.acceptedBy + [call])
      else
        s.(messageSeq := id,
           calls := s.calls[call := Returned(if s.chanClosed then ErrConnectionClosed else ErrSendQueueFull)])
  }

  /** A step of this call, for this packet, with this answer of the limiter. */
  predicate IsOwn(e: Event, call: nat, c: Content, allow: bool) {
    || e == Begin(call, c) || e == CheckClosed(call) || e == AskLimiter(call, allow) || e == Number(call)
    || e == ChooseQueue(call) || e == ChooseClosed(call) || e == ChooseDefault(call)
  }

  lemma SendStartIsSteps(cfg: Config, s: State, call: nat, c: Content, allow: bool)
      returns (states: seq<State>, events: seq<Event>)
    requires cfg.Valid() && call !in s.calls
    ensures IsStretch(cfg, states, events) && states[0] == s
    ensures states[|events|] == s.(calls := s.calls[call :=
              if s.closed then Returned(ErrConnectionClosed)
              else if allow then PassedLimiter(c) else Returned(ErrRateLimitExceeded)])
    ensures forall k :: 0 <= k < |events| ==> IsOwn(events[k], call, c, allow)
  {
    var s1 := s.(calls := s.calls[call := Entered(c)]);
    var s2 := s.(calls := s.calls[call := if s.closed then Returned(ErrConnectionClosed) else FoundOpen(c)]);
    assert s1.calls[call := s2.calls[call]] == s2.calls;
    states, events := [s, s1, s2], [Begin(call, c), CheckClosed(call)];
    assert StepAt(cfg, states, events, 0) && StepAt(cfg, states, events, 1);
    if !s.closed {
      var s3 := s.(calls := s.calls[call := if allow then PassedLimiter(c) else Returned(ErrRateLimitExceeded)]);
      assert s2.calls[call := s3.calls[call]] == s3.calls;
      assert SendStep(s2, AskLimiter(call, allow), s3);
      states, events := StretchBy(cfg, states, events, AskLimiter(call, allow), s3);
    }
  }

  lemma StretchBy(cfg: Config, states: seq<State>, events: seq<Event>, e: Event, s': State)
      returns (states': seq<State>, events': seq<Event>)
    requires cfg.Valid() && IsStretch(cfg, states, events) && Next(cfg, states[|events|], e, s')
    ensures IsStretch(cfg, states', events') && states'[0] == states[0] && states'[|events'|] == s'
    ensures events' == events + [e]
  {
    states', events' := states + [s'], events + [e];
    forall k: nat | k < |events'| ensures StepAt(cfg, states', events', k) {
      assert k < |events| ==> StepAt(cfg, states, events, k);
    }
  }

  /** The composition is made of steps of this call alone, with this answer of the limiter
      and, when both cases of the select are ready, this choice. */
  lemma SendIsSteps(cfg: Config, s: State, call: nat, c: Content, allow: bool, pickQueue: bool)
      returns (states: seq<State>, events: seq<Event>)
    requires cfg.Valid() && call !in s.calls
    ensures IsStretch(cfg, states, events) && states[0] == s
    ensures states[|events|] == AfterSend(s, call, c, allow, pickQueue)
    ensures forall k :: 0 <= k < |events| ==> IsOwn(events[k], call, c, allow)
    ensures !s.closed && allow && s.chanClosed && |s.queue| < 1024 ==>
              events != [] && events[|events| - 1] == if pickQueue then ChooseQueue(call) else ChooseClosed(call)
  {
    states, events := SendStartIsSteps(cfg, s, call, c, allow);
    if s.closed || !allow {
      return;
    }
    var s3, last := states[|events|], AfterSend(s, call, c, allow, pickQueue);
    var id := Increment(s.messageSeq);
    var s4 := s3.(messageSeq := id, calls := s3.calls[call := AtSelect(c, id)]);
    assert SendStep(s3, Number(call), s4);
    states, events := StretchBy(cfg, states, events, Number(call), s4);
    assert s4.calls[call := last.calls[call]] == last.calls;
    var choice :=
      if |s.queue| < QUEUE_CAPACITY && (pickQueue || !s.chanClosed) then ChooseQueue(call)
      else if s.chanClosed then ChooseClosed(call) else ChooseDefault(call);
    assert SendStep(s4, choice, last);
    states, events := StretchBy(cfg, states, events, choice, last);
  }

  /** The writer's next frame, or why there is none. */
  function NextEncoded(cfg: Config, s: State): Result<seq<byte>, EncodeError>
    requires cfg.Valid() && s.queue != []
  {
    EncodeFrame(cfg, Increment(s.counter), s.queue[0].content)
  }

  /** The oldest packet taken and numbered. */
  ghost function AfterTake(s: State, encoded: Result<seq<byte>, EncodeError>): State
    requires s.queue != []
  {
    s.(queue := s.queue[1..], counter := Increment(s.counter),
       handled := s.handled + [Handled(Item(Increment(s.counter), s.queue[0].content), encoded)])
  }

  /** One pass of the write loop over a non-empty queue; `n` bytes reach the transport,
      all of them unless the write fails. */
  ghost function AfterWrite(cfg: Config, s: State, n: nat, ok: bool): State
    requires cfg.Valid() && s.queue != []
  {
    var encoded := NextEncoded(cfg, s);
    var taken := AfterTake(s, encoded);
    if encoded.Err? then taken
    else if ok then taken.(wire := s.wire + encoded.value)
    else taken.(wire := s.wire + encoded.value[..if n <= |encoded.value| then n else |encoded.value|],
                writer := Stopped)
  }

  lemma WriteIsSteps(cfg: Config, s: State, n: nat, ok: bool) returns (states: seq<State>, events: seq<Event>)
    requires cfg.Valid() && s.queue != [] && s.writer == Waiting
    ensures IsStretch(cfg, states, events) && states[0] == s
    ensures states[|events|] == AfterWrite(cfg, s, n, ok)
    ensures var encoded := EncodeFrame(cfg, Increment(s.counter), s.queue[0].content);
            events == if encoded.Err? then [Dequeue, Encode]
                      else [Dequeue, Encode, Write(if ok || n > |encoded.value| then |encoded.value| else n, ok)]
  {
    var last := AfterWrite(cfg, s, n, ok);
    var item := Item(Increment(s.counter), s.queue[0].content);
    var encoded := EncodeFrame(cfg, item.seqId, item.content);
    var s1 := s.(writer := Encoding(s.queue[0].content), queue := s.queue[1..]);
    states, events := [s, s1], [Dequeue];
    assert StepAt(cfg, states, events, 0);
    if encoded.Err? {
      states, events := StretchBy(cfg, states, events, Encode, last);
      return;
    }
    var frame := encoded.value;
    var s2 := s1.(counter := item.seqId, writer := Writing(item, frame));
    states, events := StretchBy(cfg, states, events, Encode, s2);
    var sent := if ok || n > |frame| then |frame| else n;
    assert frame[..|frame|] == frame;
    assert WriterStep(cfg, s2, Write(sent, ok), last);
    states, events := StretchBy(cfg, states, events, Write(sent, ok), last);
  }
}
