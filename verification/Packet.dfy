/** The frame format of network/packet.go and its codec. */
module Packets {
  import opened Bytes
  import opened Readers
  import Cfb

  const HEADER_SIZE := 26
  const CURRENT_VERSION := 1
  const MAX_PACKET_SIZE := 10 * 1024 * 1024

  type u16 = n: int | 0 <= n < 0x1_0000
  type u32 = n: int | 0 <= n < 0x1_0000_0000
  type u64 = n: int | 0 <= n < 0x1_0000_0000_0000_0000
  type i64 = n: int | -0x8000_0000_0000_0000 <= n < 0x8000_0000_0000_0000

  /** Go's conversions between int64 and uint64. */
  function ToU64(n: i64): u64 {
    if n >= 0 then n else n + 0x1_0000_0000_0000_0000
  }

  function ToI64(n: u64): i64 {
    if n < 0x8000_0000_0000_0000 then n else n - 0x1_0000_0000_0000_0000
  }

  /** Two's complement: the same number modulo 2^64, each way and back. */
  lemma TwosComplement(n: i64, m: u64)
    ensures (ToU64(n) - n) % 0x1_0000_0000_0000_0000 == 0 && ToI64(ToU64(n)) == n
    ensures (m - ToI64(m)) % 0x1_0000_0000_0000_0000 == 0 && ToU64(ToI64(m)) == m
  {
    if n < 0 {
      assert ToU64(n) - n == 0x1_0000_0000_0000_0000;
    }
  }

  /** atomic.AddUint64(&n, 1), which wraps around. */
  function Increment(n: u64): u64 {
    if n == 0xFFFF_FFFF_FFFF_FFFF then 0 else n + 1
  }

  /** A counter that started at zero, after `n` increments. */
  function Count(n: nat): u64 {
    if n == 0 then 0 else Increment(Count(n - 1))
  }

  lemma {:induction false} CountIsModulo(n: nat)
    ensures Count(n) == n % 0x1_0000_0000_0000_0000
  {
    if n == 0 {
    } else {
      CountIsModulo(n - 1);
    }
  }

  /** What a sender hands over; the sequence number is the codec's business. */
  datatype Content = Message(version: u16, cmdId: u32, timestamp: i64, data: seq<byte>)

  datatype EncodeError = CompressFailed | EncryptKeySize
  datatype DecodeError =
    | Eof | UnexpectedEof | ReadFailed
    | InvalidPacketSize | UnsupportedVersion | DecryptKeySize | DecompressFailed

  datatype Result<T, E> = Ok(value: T) | Err(error: E)

  /** A connection's codec settings, with gzip and the block cipher as parameters. */
  datatype Config = Config(
    compress: bool, encrypt: bool, key: seq<byte>, iv: seq<byte>,
    zip: seq<byte> -> Result<seq<byte>, EncodeError>,
    unzip: seq<byte> -> Result<seq<byte>, DecodeError>,
    cipher: seq<byte> -> Cfb.Block)
  {
    /** What crypto/cipher demands of its caller. */
    ghost predicate Valid() {
      encrypt ==> |iv| == 16 && Cfb.IsBlockFunction(cipher(key))
    }

    /** What is assumed of gzip: reading back gives what was written. */
    ghost predicate Lossless() {
      forall x :: zip(x).Ok? ==> unzip(zip(x).value) == Ok(x)
    }

    /** The key sizes aes.NewCipher accepts. */
    predicate KeyAccepted() {
      |key| == 16 || |key| == 24 || |key| == 32
    }
  }

  /** The payload as it travels: compressed, then encrypted, as configured. */
  function Wrap(cfg: Config, data: seq<byte>): (r: Result<seq<byte>, EncodeError>)
    requires cfg.Valid()
  {
    var zipped := if cfg.compress then cfg.zip(data) else Ok(data);
    if zipped.Err? || !cfg.encrypt then zipped
    else if !cfg.KeyAccepted() then Err(EncryptKeySize)
    else Ok(Cfb.Encrypt(cfg.cipher(cfg.key), cfg.iv, zipped.value))
  }

  function Unwrap(cfg: Config, payload: seq<byte>): (r: Result<seq<byte>, DecodeError>)
    requires cfg.Valid()
  {
    if cfg.encrypt && !cfg.KeyAccepted() then Err(DecryptKeySize)
    else
      var zipped := if cfg.encrypt then Cfb.Decrypt(cfg.cipher(cfg.key), cfg.iv, payload) else payload;
      if cfg.compress then cfg.unzip(zipped) else Ok(zipped)
  }

  /** Exactly when wrapping succeeds, with which error it fails, and what it yields: what
      the compressor gave, or the data itself, under the stream from the IV. */
  lemma WrapExactly(cfg: Config, data: seq<byte>)
    requires cfg.Valid()
    ensures Wrap(cfg, data).Ok? <==>
            (cfg.compress ==> cfg.zip(data).Ok?) && (cfg.encrypt ==> |cfg.key| in {16, 24, 32})
    ensures cfg.compress && cfg.zip(data).Err? ==> Wrap(cfg, data) == cfg.zip(data)
    ensures (cfg.compress ==> cfg.zip(data).Ok?) && Wrap(cfg, data).Err? ==> Wrap(cfg, data) == Err(EncryptKeySize)
    ensures Wrap(cfg, data).Ok? ==>
              var zipped := if cfg.compress then cfg.zip(data).value else data;
              if cfg.encrypt then Cfb.Decrypt(cfg.cipher(cfg.key), cfg.iv, Wrap(cfg, data).value) == zipped
              else Wrap(cfg, data).value == zipped
  {
    if cfg.encrypt && Wrap(cfg, data).Ok? {
      var zipped := if cfg.compress then cfg.zip(data).value else data;
      Cfb.DecryptUndoesEncrypt(cfg.cipher(cfg.key), cfg.iv, zipped);
    }
  }

  /** What unwrapping makes of any payload, given as what was encrypted into it. */
  lemma UnwrapExactly(cfg: Config, zipped: seq<byte>)
    requires cfg.Valid()
    ensures var payload := if cfg.encrypt then Cfb.Encrypt(cfg.cipher(cfg.key), cfg.iv, zipped) else zipped;
            Unwrap(cfg, payload) ==
              if cfg.encrypt && |cfg.key| !in {16, 24, 32} then Err(DecryptKeySize)
              else if cfg.compress then cfg.unzip(zipped)
              else Ok(zipped)
  {
    if cfg.encrypt {
      Cfb.DecryptUndoesEncrypt(cfg.cipher(cfg.key), cfg.iv, zipped);
    }
  }

  lemma UnwrapUndoesWrap(cfg: Config, data: seq<byte>)
    requires cfg.Valid() && cfg.Lossless() && Wrap(cfg, data).Ok?
    ensures Unwrap(cfg, Wrap(cfg, data).value) == Ok(data)
  {
    if cfg.encrypt {
      var zipped := if cfg.compress then cfg.zip(data) else Ok(data);
      Cfb.DecryptUndoesEncrypt(cfg.cipher(cfg.key), cfg.iv, zipped.value);
    }
  }

  lemma WrapUndoesUnwrap(cfg: Config, payload: seq<byte>)
    requires cfg.Valid() && !cfg.compress && Unwrap(cfg, payload).Ok?
    ensures Wrap(cfg, Unwrap(cfg, payload).value) == Ok(payload)
  {
    if cfg.encrypt {
      Cfb.EncryptUndoesDecrypt(cfg.cipher(cfg.key), cfg.iv, payload);
    }
  }

  /** The frame layout: length, version, sequence number, command, timestamp, payload. */
  function Layout(total: nat, version: nat, seqId: nat, cmdId: nat, stamp: nat, payload: seq<byte>): (b: seq<byte>)
    ensures |b| == HEADER_SIZE + |payload|
  {
    BigEndian(4, total) + BigEndian(2, version) + BigEndian(8, seqId)
    + BigEndian(4, cmdId) + BigEndian(8, stamp) + payload
  }

  /** The layout by byte positions. */
  lemma LayoutParts(b: seq<byte>, total: nat, version: nat, seqId: nat, cmdId: nat, stamp: nat, payload: seq<byte>)
    requires |b| == HEADER_SIZE + |payload|
    ensures b == Layout(total, version, seqId, cmdId, stamp, payload) <==>
            && b[0..4] == BigEndian(4, total) && b[4..6] == BigEndian(2, version) && b[6..14] == BigEndian(8, seqId)
            && b[14..18] == BigEndian(4, cmdId) && b[18..26] == BigEndian(8, stamp) && b[26..] == payload
  {
    assert b == b[0..4] + b[4..6] + b[6..14] + b[14..18] + b[18..26] + b[26..];
    var l := Layout(total, version, seqId, cmdId, stamp, payload);
    assert l[0..4] == BigEndian(4, total) && l[4..6] == BigEndian(2, version) && l[6..14] == BigEndian(8, seqId);
    assert l[14..18] == BigEndian(4, cmdId) && l[18..26] == BigEndian(8, stamp) && l[26..] == payload;
  }

  function EncodeFrame(cfg: Config, seqId: u64, c: Content): (r: Result<seq<byte>, EncodeError>)
    requires cfg.Valid()
  {
    var payload := Wrap(cfg, c.data);
    if payload.Err? then Err(payload.error)
    else Ok(Layout(HEADER_SIZE + |payload.value|, c.version, seqId, c.cmdId, ToU64(c.timestamp), payload.value))
  }

  /** Encode neither checks nor rejects anything else: it fails exactly when wrapping does,
      with the same error, and otherwise every field sits at its offset, most significant
      byte first. */
  lemma EncodesExactly(cfg: Config, seqId: u64, c: Content)
    requires cfg.Valid()
    ensures Wrap(cfg, c.data).Err? ==> EncodeFrame(cfg, seqId, c) == Err(Wrap(cfg, c.data).error)
    ensures Wrap(cfg, c.data).Ok? ==>
              && EncodeFrame(cfg, seqId, c).Ok?
              && var f := EncodeFrame(cfg, seqId, c).value;
              && |f| == 26 + |Wrap(cfg, c.data).value| && f[26..] == Wrap(cfg, c.data).value
              && f[0..4] == BigEndian(4, |f|) && f[4..6] == BigEndian(2, c.version) && f[6..14] == BigEndian(8, seqId)
              && f[14..18] == BigEndian(4, c.cmdId) && f[18..26] == BigEndian(8, ToU64(c.timestamp))
  {
    if Wrap(cfg, c.data).Ok? {
      var f, payload := EncodeFrame(cfg, seqId, c).value, Wrap(cfg, c.data).value;
      LayoutParts(f, |f|, c.version, seqId, c.cmdId, ToU64(c.timestamp), payload);
    }
  }

  /** A packet or an error, and the bytes Decode did not consume. */
  datatype Decoded =
    | Received(seqId: u64, content: Content, rest: seq<byte>)
    | Rejected(error: DecodeError, rest: seq<byte>)

  /** The bytes after the length field. */
  function DecodeBody(cfg: Config, body: seq<byte>, rest: seq<byte>): Decoded
    requires cfg.Valid() && |body| >= HEADER_SIZE - 4
  {
    Widths();
    BigEndianOfValue(body[0..2]);
    BigEndianOfValue(body[2..10]);
    BigEndianOfValue(body[10..14]);
    BigEndianOfValue(body[14..22]);
    if Value(body[0..2]) > CURRENT_VERSION then Rejected(UnsupportedVersion, rest)
    else
      var data := Unwrap(cfg, body[22..]);
      if data.Err? then Rejected(data.error, rest)
      else Received(Value(body[2..10]),
                    Message(Value(body[0..2]), Value(body[10..14]), ToI64(Value(body[14..22])), data.value),
                    rest)
  }

  /** The error when the stream gives out after `read` bytes of a buffer. */
  function Shortfall(read: nat, end: StreamEnd): DecodeError {
    if end == Broken then ReadFailed else if read == 0 then Eof else UnexpectedEof
  }

  /** Decode as a function of the bytes still to come and of how the stream ends. */
  function DecodeBytes(cfg: Config, b: seq<byte>, end: StreamEnd): Decoded
    requires cfg.Valid()
  {
    if |b| < 4 then Rejected(Shortfall(|b|, end), [])
    else
      var total := Value(b[..4]);
      if total < HEADER_SIZE || total > MAX_PACKET_SIZE then Rejected(InvalidPacketSize, b[4..])
      else if |b| < total then Rejected(Shortfall(|b| - 4, end), [])
      else DecodeBody(cfg, b[4..total], b[total..])
  }

  /** The first four bytes name a length Decode accepts. */
  predicate GoodLength(b: seq<byte>) {
    |b| >= 4 && 26 <= Value(b[..4]) <= 10_485_760
  }

  /** And that many bytes are there. */
  predicate IsComplete(b: seq<byte>) {
    GoodLength(b) && Value(b[..4]) <= |b|
  }

  /** Every rejection, by its error and what it consumes: a stream that gives out in the
      length or after it, a length out of range, a version above 1, a payload that cannot
      be unwrapped. */
  lemma RejectsExactly(cfg: Config, b: seq<byte>, end: StreamEnd, e: DecodeError)
    requires cfg.Valid()
    ensures DecodeBytes(cfg, b, end).Rejected? && DecodeBytes(cfg, b, end).error == e <==>
            || (|b| < 4 && e == (if end == Broken then ReadFailed else if |b| == 0 then Eof else UnexpectedEof))
            || (|b| >= 4 && !GoodLength(b) && e == InvalidPacketSize)
            || (GoodLength(b) && !IsComplete(b)
                && e == (if end == Broken then ReadFailed else if |b| == 4 then Eof else UnexpectedEof))
            || (IsComplete(b) && Value(b[4..6]) > 1 && e == UnsupportedVersion)
            || (IsComplete(b) && Value(b[4..6]) <= 1 && Unwrap(cfg, b[26..Value(b[..4])]) == Err(e))
    ensures DecodeBytes(cfg, b, end).rest ==
            if IsComplete(b) then b[Value(b[..4])..] else if |b| >= 4 && !GoodLength(b) then b[4..] else []
  {
    if IsComplete(b) {
      var body := b[4..Value(b[..4])];
      assert body[0..2] == b[4..6] && body[22..] == b[26..Value(b[..4])];
    }
  }

  /** The error that io.ReadFull's outcome stands for. */
  function ReadError(outcome: ReadOutcome): DecodeError {
    match outcome
    case AtEof => Eof
    case CutShort => UnexpectedEof
    case _ => ReadFailed
  }

  class Packet {
    var version: u16
    var seqId: u64
    var cmdId: u32
    var data: seq<byte>
    var timestamp: i64

    /** What does not change when the packet is numbered. */
    ghost function Content(): Content
      reads this
    {
      Message(version, cmdId, timestamp, data)
    }

    constructor (version: u16, seqId: u64, cmdId: u32, data: seq<byte>, timestamp: i64)
      ensures Content() == Message(version, cmdId, timestamp, data) && this.seqId == seqId
    {
      this.version, this.seqId, this.cmdId, this.data, this.timestamp := version, seqId, cmdId, data, timestamp;
    }

    method SetSeqId(i: u64)
      modifies this`seqId
      ensures seqId == i
    {
      seqId := i;
    }
  }

  class PacketCodec {
    const cfg: Config
    var seqId: u64

    constructor (cfg: Config)
      ensures this.cfg == cfg && seqId == 0
    {
      this.cfg := cfg;
      seqId := 0;
    }

    method EncryptData(data: seq<byte>) returns (r: Result<seq<byte>, EncodeError>)
      requires cfg.Valid() && cfg.encrypt
      ensures r == if cfg.KeyAccepted() then Ok(Cfb.Encrypt(cfg.cipher(cfg.key), cfg.iv, data)) else Err(EncryptKeySize)
    {
      if !cfg.KeyAccepted() {
        return Err(EncryptKeySize);
      }
      var encrypted := new byte[|data|];
      Cfb.XorKeyStream(cfg.cipher(cfg.key), cfg.iv, encrypted, data, false);
      return Ok(encrypted[..]);
    }

    method DecryptData(data: seq<byte>) returns (r: Result<seq<byte>, DecodeError>)
      requires cfg.Valid() && cfg.encrypt
      ensures r == if cfg.KeyAccepted() then Ok(Cfb.Decrypt(cfg.cipher(cfg.key), cfg.iv, data)) else Err(DecryptKeySize)
    {
      if !cfg.KeyAccepted() {
        return Err(DecryptKeySize);
      }
      var decrypted := new byte[|data|];
      Cfb.XorKeyStream(cfg.cipher(cfg.key), cfg.iv, decrypted, data, true);
      return Ok(decrypted[..]);
    }

    /** Numbers the packet, whatever number it carried, and lays out its frame in a buffer. */
    method Encode(msg: Packet) returns (r: Result<seq<byte>, EncodeError>)
      requires cfg.Valid()
      modifies this`seqId, msg`seqId
      ensures seqId == Increment(old(seqId)) && msg.seqId == seqId == (old(seqId) + 1) % 0x1_0000_0000_0000_0000
      ensures r == EncodeFrame(cfg, seqId, old(msg.Content()))
    {
      seqId := Increment(seqId);
      msg.SetSeqId(seqId);
      var data := msg.data;
      if cfg.compress {
        var zipped := cfg.zip(data);
        if zipped.Err? {
          return Err(zipped.error);
        }
        data := zipped.value;
      }
      if cfg.encrypt {
        var sealed := EncryptData(data);
        if sealed.Err? {
          return Err(sealed.error);
        }
        data := sealed.value;
      }
      assert Wrap(cfg, msg.data) == Ok(data);
      var buf := FillFrame(msg, data);
      return Ok(buf[..]);
    }

    method FillFrame(msg: Packet, data: seq<byte>) returns (buf: array<byte>)
      ensures fresh(buf)
      ensures buf[..] == Layout(HEADER_SIZE + |data|, msg.version, msg.seqId, msg.cmdId, ToU64(msg.timestamp), data)
    {
      var totalLen := HEADER_SIZE + |data|;
      buf := new byte[totalLen];
      Put(buf, 0, 4, totalLen);
      Put(buf, 4, 2, msg.version);
      Put(buf, 6, 8, msg.seqId);
      Put(buf, 14, 4, msg.cmdId);
      Put(buf, 18, 8, ToU64(msg.timestamp));
      forall k | 0 <= k < |data| {
        buf[HEADER_SIZE + k] := data[k];
      }
      ghost var b := buf[..];
      assert b[0..4] == buf[0..4] && b[4..6] == buf[4..6] && b[6..14] == buf[6..14];
      assert b[14..18] == buf[14..18] && b[18..26] == buf[18..26];
      LayoutParts(b, totalLen, msg.version, msg.seqId, msg.cmdId, ToU64(msg.timestamp), data);
    }

    /** Reads one packet, buffer by buffer. */
    method Decode(r: Reader) returns (packet: Packet?, error: DecodeError)
      requires cfg.Valid()
      modifies r
      ensures r.Remaining() == DecodeBytes(cfg, old(r.Remaining()), r.end).rest
      ensures match DecodeBytes(cfg, old(r.Remaining()), r.end)
              case Received(id, c, _) => packet != null && fresh(packet) && packet.seqId == id && packet.Content() == c
              case Rejected(e, _) => packet == null && error == e
    {
      error := Eof;
      packet := null;
      var lenBuf := new byte[4];
      ghost var stream := r.Remaining();
      var outcome := ReadFull(r, lenBuf);
      if outcome != Filled {
        error := ReadError(outcome);
        return;
      }
      var totalLen := Value(lenBuf[..]);
      assert lenBuf[..] == stream[..4];
      if totalLen < HEADER_SIZE || totalLen > MAX_PACKET_SIZE {
        error := InvalidPacketSize;
        return;
      }
      var buf := new byte[totalLen - 4];
      outcome := ReadFull(r, buf);
      if outcome != Filled {
        error := ReadError(outcome);
        return;
      }
      assert buf[..] == stream[4..][..totalLen - 4] == stream[4..totalLen];
      assert stream[4..][totalLen - 4..] == stream[totalLen..];
      packet, error := ParseBody(buf[..], stream[totalLen..]);
    }

    method ParseBody(buf: seq<byte>, ghost rest: seq<byte>) returns (packet: Packet?, error: DecodeError)
      requires cfg.Valid() && |buf| >= HEADER_SIZE - 4
      ensures match DecodeBody(cfg, buf, rest)
              case Received(id, c, _) => packet != null && fresh(packet) && packet.seqId == id && packet.Content() == c
              case Rejected(e, _) => packet == null && error == e
    {
      error := Eof;
      packet := null;
      Widths();
      BigEndianOfValue(buf[0..2]);
      BigEndianOfValue(buf[2..10]);
      BigEndianOfValue(buf[10..14]);
      BigEndianOfValue(buf[14..22]);
      var version := Value(buf[0..2]);
      if version > CURRENT_VERSION {
        error := UnsupportedVersion;
        return;
      }
      var data := buf[22..];
      if cfg.encrypt {
        var plain := DecryptData(data);
        if plain.Err? {
          error := plain.error;
          return;
        }
        data := plain.value;
      }
      if cfg.compress {
        var unzipped := cfg.unzip(data);
        if unzipped.Err? {
          error := unzipped.error;
          return;
        }
        data := unzipped.value;
      }
      packet := new Packet(version, Value(buf[2..10]), Value(buf[10..14]), data, ToI64(Value(buf[14..22])));
    }
  }
}
