/** The Connection of network/conn.go.  Each method is one goroutine's pass without
    interruption; Pipeline interleaves the same steps. */
module Conns {
  import opened Bytes
  import opened Readers
  import opened Packets
  import Streams
  import Pipeline

  ghost function QueueOf(ps: seq<Packet>): (q: seq<Streams.Item>)
    reads ps
    ensures |q| == |ps|
  {
    if ps == [] then [] else QueueOf(ps[..|ps| - 1]) + [Streams.Item(ps[|ps| - 1].seqId, ps[|ps| - 1].Content())]
  }

  lemma {:induction false} QueueOfRest(ps: seq<Packet>)
    requires ps != []
    ensures QueueOf(ps) == [Streams.Item(ps[0].seqId, ps[0].Content())] + QueueOf(ps[1..])
  {
    if |ps| == 1 {
    } else {
      QueueOfRest(ps[..|ps| - 1]);
      assert ps[..|ps| - 1][1..] == ps[1..][..|ps| - 2];
    }
  }

  /** A packet taken, encoded and, if that succeeded, handed to the transport. */
  lemma WriteIs(cfg: Config, s: Pipeline.State, n: nat, ok: bool, taken: Pipeline.State, s': Pipeline.State)
    requires cfg.Valid() && s.queue != []
    requires taken == Pipeline.AfterTake(s, Pipeline.NextEncoded(cfg, s))
    requires match Pipeline.NextEncoded(cfg, s)
             case Err(_) => s' == taken
             case Ok(frame) => s' == taken.(wire := s.wire + (if ok || n > |frame| then frame else frame[..n]),
                                            writer := if ok then taken.writer else Pipeline.Stopped)
    ensures s' == Pipeline.AfterWrite(cfg, s, n, ok)
  {
  }

  class Connection {
    const codec: PacketCodec
    var closed: bool
    var closeChanCloses: nat
    var heartbeatStops: nat
    var messageSeq: u64
    var errorCount: nat
    var sendChan: seq<Packet>
    var transport: seq<byte>
    var writerStopped: bool

    ghost var calls: map<nat, Pipeline.SendPc>
    ghost var accepted: seq<Content>
    ghost var acceptedBy: seq<nat>
    ghost var handled: seq<Pipeline.Handled>

    /** Packets in the channel are distinct, and what Close closes is closed once. */
    ghost predicate Valid()
      reads this
    {
      && codec.cfg.Valid()
      && (forall i, j :: 0 <= i < j < |sendChan| ==> sendChan[i] != sendChan[j])
      && closeChanCloses == heartbeatStops == (if closed then 1 else 0)
    }

    ghost function Abstract(): Pipeline.State
      reads this, codec, sendChan
    {
      Pipeline.State(closed, closeChanCloses > 0, calls, messageSeq, QueueOf(sendChan),
                     if writerStopped then Pipeline.Stopped else Pipeline.Waiting,
                     codec.seqId, transport, accepted, acceptedBy, handled)
    }

    constructor (codec: PacketCodec)
      requires codec.cfg.Valid() && codec.seqId == 0
      ensures Valid() && this.codec == codec && Abstract() == Pipeline.INITIAL
      ensures !closed && messageSeq == 0 && sendChan == [] && transport == [] && !writerStopped && errorCount == 0
    {
      this.codec := codec;
      closed, closeChanCloses, heartbeatStops, messageSeq, errorCount := false, 0, 0, 0, 0;
      sendChan, transport, writerStopped := [], [], false;
      calls, accepted, acceptedBy, handled := map[], [], [], [];
    }

    /** The select's send case, and the ghost record of it. */
    method Enqueue(packet: Packet, ghost call: nat)
      requires Valid() && packet !in sendChan
      modifies this`sendChan, this`calls, this`accepted, this`acceptedBy
      ensures Valid() && sendChan == old(sendChan) + [packet]
      ensures var s := old(Abstract());
              Abstract() == s.(queue := s.queue + [Streams.Item(packet.seqId, packet.Content())],
                               calls := s.calls[call := Pipeline.Returned(Pipeline.Nil)],
                               accepted := s.accepted + [packet.Content()], acceptedBy := s.acceptedBy + [call])
    {
      assert (sendChan + [packet])[..|sendChan|] == sendChan;
      sendChan := sendChan + [packet];
      accepted, acceptedBy := accepted + [packet.Content()], acceptedBy + [call];
      calls := calls[call := Pipeline.Returned(Pipeline.Nil)];
    }

    method TakeNumber(packet: Packet)
      requires packet !in sendChan
      modifies this`messageSeq, packet`seqId
      ensures messageSeq == Increment(old(messageSeq)) && packet.seqId == messageSeq
      ensures packet.Content() == old(packet.Content()) && QueueOf(sendChan) == old(QueueOf(sendChan))
    {
      messageSeq := Increment(messageSeq);
      packet.SetSeqId(messageSeq);
    }

    /** The part of Send after the limiter: draw a number, then select. */
    method NumberAndSelect(packet: Packet, pickQueue: bool, ghost call: nat) returns (r: Pipeline.SendResult)
      requires Valid() && packet !in sendChan && !closed
      modifies this`messageSeq, this`sendChan, this`calls, this`accepted, this`acceptedBy, packet`seqId
      ensures Valid()
      ensures Abstract() == Pipeline.AfterSend(old(Abstract()), call, old(packet.Content()), true, pickQueue)
      ensures call in calls && calls[call] == Pipeline.Returned(r)
      ensures r == if |old(sendChan)| < 1024 then Pipeline.Nil else Pipeline.ErrSendQueueFull
      ensures sendChan == old(sendChan) + (if r == Pipeline.Nil then [packet] else [])
      ensures packet.seqId == messageSeq == (old(messageSeq) + 1) % 0x1_0000_0000_0000_0000
    {
      TakeNumber(packet);
      if |sendChan| < Pipeline.QUEUE_CAPACITY && (pickQueue || closeChanCloses == 0) {
        Enqueue(packet, call);
        return Pipeline.Nil;
      }
      r := if closeChanCloses > 0 then Pipeline.ErrConnectionClosed else Pipeline.ErrSendQueueFull;
      calls := calls[call := Pipeline.Returned(r)];
    }

    method Send(packet: Packet, allow: bool, pickQueue: bool, ghost call: nat) returns (r: Pipeline.SendResult)
      requires Valid() && packet !in sendChan
      modifies this`messageSeq, this`sendChan, this`calls, this`accepted, this`acceptedBy, packet`seqId
      ensures Valid()
      ensures Abstract() == Pipeline.AfterSend(old(Abstract()), call, old(packet.Content()), allow, pickQueue)
      ensures call in calls && calls[call] == Pipeline.Returned(r)
      ensures r == Pipeline.Nil <==> !closed && allow && |old(sendChan)| < 1024
      ensures r == Pipeline.ErrSendQueueFull <==> !closed && allow && |old(sendChan)| >= 1024
      ensures r == Pipeline.ErrRateLimitExceeded <==> !closed && !allow
      ensures r == Pipeline.ErrConnectionClosed <==> closed
      ensures sendChan == old(sendChan) + (if r == Pipeline.Nil then [packet] else [])
      ensures messageSeq == if !closed && allow then (old(messageSeq) + 1) % 0x1_0000_0000_0000_0000
                            else old(messageSeq)
      ensures packet.seqId == if !closed && allow then messageSeq else old(packet.seqId)
    {
      if !closed && allow {
        r := NumberAndSelect(packet, pickQueue, call);
        return;
      }
      r := if closed then Pipeline.ErrConnectionClosed else Pipeline.ErrRateLimitExceeded;
      calls := calls[call := Pipeline.Returned(r)];
    }

    /** Closing a closed channel panics in Go; the flag's compare-and-swap excludes it.
        `socketOk` is the outcome of the socket's Close, which only the first call makes. */
    method Close(socketOk: bool) returns (failed: bool)
      requires Valid()
      modifies this`closed, this`closeChanCloses, this`heartbeatStops
      ensures Valid() && closed && closeChanCloses == 1 && heartbeatStops == 1
      ensures old(closed) ==> Abstract() == old(Abstract())
      ensures failed <==> !old(closed) && !socketOk
    {
      if closed {
        return false;
      }
      closed := true;
      assert closeChanCloses == 0;
      closeChanCloses := closeChanCloses + 1;
      assert heartbeatStops == 0;
      heartbeatStops := heartbeatStops + 1;
      failed := !socketOk;
    }

    /** The receive from the channel. */
    method Take() returns (msg: Packet)
      requires Valid() && sendChan != []
      modifies this`sendChan
      ensures Valid() && msg == old(sendChan)[0] && sendChan == old(sendChan)[1..] && msg !in sendChan
      ensures [Streams.Item(msg.seqId, msg.Content())] + QueueOf(sendChan) == old(QueueOf(sendChan))
    {
      QueueOfRest(sendChan);
      msg := sendChan[0];
      sendChan := sendChan[1..];
    }

    /** Takes the oldest packet out of the channel and encodes it. */
    method EncodeNext() returns (data: Result<seq<byte>, EncodeError>)
      requires Valid() && sendChan != []
      modifies this`sendChan, this`handled, codec`seqId, sendChan
      ensures Valid()
      ensures data == Pipeline.NextEncoded(codec.cfg, old(Abstract()))
      ensures codec.seqId == (old(codec.seqId) + 1) % 0x1_0000_0000_0000_0000
      ensures data == EncodeFrame(codec.cfg, codec.seqId, old(sendChan[0].Content()))
      ensures sendChan == old(sendChan)[1..]
      ensures Abstract() == Pipeline.AfterTake(old(Abstract()), data)
    {
      var msg := Take();
      ghost var c, rest := msg.Content(), QueueOf(sendChan);
      data := codec.Encode(msg);
      assert QueueOf(sendChan) == rest;
      handled := handled + [Pipeline.Handled(Streams.Item(codec.seqId, c), data)];
    }

    /** What becomes of an encoded packet: an encoding error is counted; a frame goes to the
        transport, complete, or cut short after `n` bytes, which ends the loop and closes
        the connection. */
    method Transmit(data: Result<seq<byte>, EncodeError>, n: nat, ok: bool, socketOk: bool)
      requires Valid() && !writerStopped
      modifies this`transport, this`writerStopped, this`errorCount
      modifies this`closed, this`closeChanCloses, this`heartbeatStops
      ensures Valid()
      ensures match data
              case Err(_) =>
                && !writerStopped && closed == old(closed) && closeChanCloses == old(closeChanCloses)
                && transport == old(transport) && errorCount == old(errorCount) + 1
              case Ok(frame) =>
                && writerStopped == !ok && closed == (old(closed) || !ok)
                && transport == old(transport) + (if ok || n > |frame| then frame else frame[..n])
                && errorCount == old(errorCount) + (if ok then 0 else 1)
    {
      if data.Err? {
        errorCount := errorCount + 1;
        return;
      }
      var frame := data.value;
      if ok {
        transport := transport + frame;
        return;
      }
      transport := transport + (if n > |frame| then frame else frame[..n]);
      errorCount := errorCount + 1;
      writerStopped := true;
      var _ := Close(socketOk);
    }

    /** The write loop's pass over the oldest packet in the channel: after an encoding error
        or a complete write the loop goes on, after a failed write it ends and closes. */
    method WriteNext(n: nat, ok: bool, socketOk: bool)
      requires Valid() && sendChan != [] && !writerStopped
      modifies this, codec`seqId, sendChan
      ensures Valid()
      ensures Abstract().(closed := old(closed), chanClosed := old(closeChanCloses) > 0)
              == Pipeline.AfterWrite(codec.cfg, old(Abstract()), n, ok)
      ensures sendChan == old(sendChan)[1..] && codec.seqId == (old(codec.seqId) + 1) % 0x1_0000_0000_0000_0000
      ensures match EncodeFrame(codec.cfg, codec.seqId, old(sendChan[0].Content()))
              case Err(_) =>
                && !writerStopped && closed == old(closed) && transport == old(transport)
                && errorCount == old(errorCount) + 1
              case Ok(frame) =>
                && writerStopped == !ok && closed == (old(closed) || !ok)
                && transport == old(transport) + (if ok || n > |frame| then frame else frame[..n])
                && errorCount == old(errorCount) + (if ok then 0 else 1)
    {
      var data := EncodeNext();
      ghost var taken := Abstract();
      Transmit(data, n, ok, socketOk);
      assert QueueOf(sendChan) == taken.queue;
      WriteIs(codec.cfg, old(Abstract()), n, ok, taken,
              Abstract().(closed := old(closed), chanClosed := old(closeChanCloses) > 0));
    }

    /** Reads packets until Decode fails or, at iteration `stopAfter`, the select sees the
        connection closed; then closes it. */
    method ReadLoop(r: Reader, stopAfter: nat, socketOk: bool) returns (dispatched: seq<Streams.Item>)
      requires Valid()
      modifies r, this`closed, this`closeChanCloses, this`heartbeatStops, this`errorCount
      ensures Valid() && closed
      ensures var all := Streams.DecodeAll(codec.cfg, old(r.Remaining()), r.end);
              && dispatched == (if stopAfter < |all.items| then all.items[..stopAfter] else all.items)
              && (|all.items| < stopAfter ==> r.Remaining() == all.left)
              && (stopAfter <= |all.items| ==>
                    Streams.DecodeAll(codec.cfg, r.Remaining(), r.end).items == all.items[stopAfter..])
              && errorCount == old(errorCount) + (if |all.items| < stopAfter && all.error != Eof then 1 else 0)
    {
      dispatched := [];
      ghost var all := Streams.DecodeAll(codec.cfg, r.Remaining(), r.end);
      while true
        invariant Valid() && closed == old(closed) && errorCount == old(errorCount)
        invariant |dispatched| <= stopAfter
        invariant var now := Streams.DecodeAll(codec.cfg, r.Remaining(), r.end);
                  all == Streams.Parse(dispatched + now.items, now.error, now.left)
        decreases |r.Remaining()|
      {
        if |dispatched| == stopAfter {
          break;
        }
        ghost var b := r.Remaining();
        var packet, err := codec.Decode(r);
        if packet == null {
          if err != Eof {
            errorCount := errorCount + 1;
          }
          break;
        }
        Streams.DecodeAllStep(codec.cfg, b, dispatched, r.end);
        var c := Message(packet.version, packet.cmdId, packet.timestamp, packet.data);
        dispatched := dispatched + [Streams.Item(packet.seqId, c)];
      }
      var _ := Close(socketOk);
    }
  }
}
