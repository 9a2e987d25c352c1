/** The byte stream a connection reads from, handed out in pieces of any size, and
    io.ReadFull over it. */
module Readers {
  import opened Bytes

  function Flatten(chunks: seq<seq<byte>>): seq<byte> {
    if chunks == [] then [] else chunks[0] + Flatten(chunks[1..])
  }

  /** What a read reports when there are no more bytes: the peer's end of stream, or
      another error, as after a local close. */
  datatype StreamEnd = Ended | Broken

  /** How io.ReadFull ends: buffer filled, end of stream before or after the first byte, or
      another read error. */
  datatype ReadOutcome = Filled | AtEof | CutShort | Failed

  class Reader {
    const end: StreamEnd
    // What successive reads can return before the end is reported.
    var chunks: seq<seq<byte>>

    ghost function Remaining(): seq<byte>
      reads this
    {
      Flatten(chunks)
    }

    constructor (chunks: seq<seq<byte>>, end: StreamEnd)
      ensures Remaining() == Flatten(chunks) && this.end == end
    {
      this.chunks, this.end := chunks, end;
    }

    /** One Read into `p[from..]`: some bytes of the next piece, or the end. */
    method Read(p: array<byte>, from: nat) returns (n: nat, atEnd: bool)
      requires from < p.Length
      modifies this, p
      ensures from + n <= p.Length && n <= |old(Remaining())|
      ensures p[..from] == old(p[..from])
      ensures p[from..from + n] == old(Remaining())[..n]
      ensures Remaining() == old(Remaining())[n..]
      ensures atEnd ==> n == 0 && old(Remaining()) == []
      ensures !atEnd ==> n > 0 || |chunks| < |old(chunks)|
    {
      if chunks == [] {
        return 0, true;
      }
      var head := chunks[0];
      ghost var tail := Flatten(chunks[1..]);
      n := if |head| <= p.Length - from then |head| else p.Length - from;
      forall k | 0 <= k < n {
        p[from + k] := head[k];
      }
      atEnd := false;
      assert p[from..from + n] == head[..n] == (head + tail)[..n];
      assert (head + tail)[n..] == head[n..] + tail;
      if n == |head| {
        chunks := chunks[1..];
      } else {
        chunks := [head[n..]] + chunks[1..];
        assert chunks[1..] == old(chunks)[1..];
      }
    }
  }

  /** Reads until `buf` is full; only the bytes of the stream matter, not how they arrive. */
  method ReadFull(r: Reader, buf: array<byte>) returns (outcome: ReadOutcome)
    modifies r, buf
    ensures outcome == Filled ==>
              && |old(r.Remaining())| >= buf.Length && buf[..] == old(r.Remaining())[..buf.Length]
              && r.Remaining() == old(r.Remaining())[buf.Length..]
    ensures outcome == Filled <==> |old(r.Remaining())| >= buf.Length
    ensures outcome == AtEof <==> r.end == Ended && |old(r.Remaining())| == 0 < buf.Length
    ensures outcome == CutShort <==> r.end == Ended && 0 < |old(r.Remaining())| < buf.Length
    ensures outcome != Filled ==> r.Remaining() == []
  {
    var all := 0;
    ghost var stream := r.Remaining();
    while all < buf.Length
      invariant 0 <= all <= buf.Length && all <= |stream|
      invariant buf[..all] == stream[..all] && r.Remaining() == stream[all..]
      decreases buf.Length - all, |r.chunks|
    {
      var n, atEnd := r.Read(buf, all);
      if atEnd {
        return if r.end == Broken then Failed else if all == 0 then AtEof else CutShort;
      }
      assert buf[..all + n] == buf[..all] + buf[all..all + n];
      assert stream[..all + n] == stream[..all] + stream[all..][..n];
      all := all + n;
    }
    assert buf[..all] == buf[..];
    outcome := Filled;
  }
}
