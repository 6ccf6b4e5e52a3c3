/** Envelope framing over a byte pipe that may deliver any number of bytes per read. */
module Framing {
  import opened Geometry

  type Byte = b: int | 0 <= b < 0x100

  const HEADER_BYTES: nat := 10
  const MAX_MESSAGE_BYTES: nat := 0x10_0000
  const MAGIC: Byte := 0x53
  const WIRE_VERSION: Byte := 1

  datatype Kind = Command | Event

  /** One framed message. The fields inside the body are not modelled: the body is the bytes it travels as. */
  datatype Message = Message(kind: Kind, messageType: nat, body: seq<Byte>)

  predicate Encodable(m: Message) { m.messageType < 0x1_0000 && |m.body| <= MAX_MESSAGE_BYTES }

  datatype Error =
    | BadMagic
    | UnsupportedWireVersion(version: Byte)
    | MessageTooLarge(len: nat)
    | UnknownKind(kind: Byte)
    | TrailingBytes(count: nat)
    | Truncated(need: nat, have: nat)

  datatype Result<+T> = Ok(value: T) | Err(error: Error)

  function KindByte(k: Kind): Byte { if k == Command then 0 else 1 }

  /** Big-endian integers. */
  function U16(a: int, b: int): int { a * 0x100 + b }

  function U32(a: int, b: int, c: int, d: int): int { a * 0x100_0000 + b * 0x1_0000 + c * 0x100 + d }

  lemma U32Splits(n: nat)
    ensures n == U32(n / 0x100 / 0x100 / 0x100, (n / 0x100 / 0x100) % 0x100, (n / 0x100) % 0x100, n % 0x100)
  {
    var a := n / 0x100;
    var b := a / 0x100;
    assert n == a * 0x100 + n % 0x100 && a == b * 0x100 + a % 0x100;
    assert b == (b / 0x100) * 0x100 + b % 0x100;
  }

  function Header(m: Message): seq<Byte>
    requires Encodable(m)
  {
    var len := |m.body|;
    [MAGIC, MAGIC, WIRE_VERSION, KindByte(m.kind), m.messageType / 0x100, m.messageType % 0x100,
     len / 0x100 / 0x100 / 0x100, (len / 0x100 / 0x100) % 0x100, (len / 0x100) % 0x100, len % 0x100]
  }

  function Encode(m: Message): seq<Byte>
    requires Encodable(m)
  {
    Header(m) + m.body
  }

  /** Validates a header and returns the declared body length. */
  function EnvelopeBodyLen(header: seq<Byte>): Result<nat>
    requires |header| >= HEADER_BYTES
  {
    var len := U32(header[6], header[7], header[8], header[9]);
    if header[0] != MAGIC || header[1] != MAGIC then Err(BadMagic)
    else if header[2] != WIRE_VERSION then Err(UnsupportedWireVersion(header[2]))
    else if len > MAX_MESSAGE_BYTES then Err(MessageTooLarge(len))
    else Ok(len)
  }

  /** What a header that ends early is refused for: its first wrong field, or the field it ends in. */
  function ShortHeader(bytes: seq<Byte>): Error
    requires |bytes| < HEADER_BYTES
  {
    if |bytes| < 2 then Truncated(1, 0)
    else if bytes[0] != MAGIC || bytes[1] != MAGIC then BadMagic
    else if |bytes| < 3 then Truncated(1, 0)
    else if bytes[2] != WIRE_VERSION then UnsupportedWireVersion(bytes[2])
    else if |bytes| < 4 then Truncated(1, 0)
    else if |bytes| < 6 then Truncated(2, |bytes| - 4)
    else Truncated(4, |bytes| - 6)
  }

  /** Decodes one whole envelope. */
  function Decode(bytes: seq<Byte>): Result<Message> {
    if |bytes| < HEADER_BYTES then Err(ShortHeader(bytes))
    else
      var len := EnvelopeBodyLen(bytes);
      if len.Err? then Err(len.error)
      else if |bytes| - HEADER_BYTES < len.value then Err(Truncated(len.value, |bytes| - HEADER_BYTES))
      else if |bytes| - HEADER_BYTES > len.value then Err(TrailingBytes(|bytes| - HEADER_BYTES - len.value))
      else if bytes[3] > 1 then Err(UnknownKind(bytes[3]))
      else Ok(Message(if bytes[3] == 0 then Command else Event, U16(bytes[4], bytes[5]), bytes[HEADER_BYTES..]))
  }

  /** The header of an encoded message declares its body's length, whatever follows it. */
  lemma HeaderDeclaresBody(m: Message, rest: seq<Byte>)
    requires Encodable(m)
    ensures EnvelopeBodyLen(Header(m) + rest) == Ok(|m.body|)
  {
    U32Splits(|m.body|);
  }

  lemma DecodeEncode(m: Message)
    requires Encodable(m)
    ensures Decode(Encode(m)) == Ok(m)
  {
    HeaderDeclaresBody(m, m.body);
    assert Encode(m)[HEADER_BYTES..] == m.body;
  }

  /** Nothing but an encoding decodes: each byte sequence that decodes is the encoding of what it decodes to. */
  lemma OnlyEncodingsDecode(bytes: seq<Byte>, m: Message)
    ensures Decode(bytes) == Ok(m) <==> Encodable(m) && bytes == Encode(m)
  {
    if Decode(bytes) == Ok(m) {
      DeclaredLength(bytes, |m.body|);
      assert bytes[..HEADER_BYTES] == Header(m);
      assert bytes == bytes[..HEADER_BYTES] + bytes[HEADER_BYTES..];
    }
    if Encodable(m) {
      DecodeEncode(m);
    }
  }

  /** A length has one spelling in four bytes. */
  lemma DeclaredLength(header: seq<Byte>, n: nat)
    requires |header| >= HEADER_BYTES && U32(header[6], header[7], header[8], header[9]) == n
    ensures header[6] == n / 0x100 / 0x100 / 0x100 && header[7] == (n / 0x100 / 0x100) % 0x100
    ensures header[8] == (n / 0x100) % 0x100 && header[9] == n % 0x100
  {
    var a: int := header[6];
    var b: int := a * 0x100 + header[7];
    var c: int := b * 0x100 + header[8];
    assert n == c * 0x100 + header[9];
    assert n / 0x100 == c && c / 0x100 == b && b / 0x100 == a;
  }

  /** Bytes after an envelope are refused by their number, and an envelope that ends in its header by the field it
      ends in: `width` bytes from `at` on. */
  lemma DecodeCountsBytes(m: Message, extra: seq<Byte>, cut: nat, at: nat, width: nat)
    requires Encodable(m)
    ensures extra != [] ==> Decode(Encode(m) + extra) == Err(TrailingBytes(|extra|))
    ensures (at, width) in {(0, 1), (1, 1), (2, 1), (3, 1), (4, 2), (6, 4)} && at <= cut < at + width ==>
              Decode(Encode(m)[..cut]) == Err(Truncated(width, cut - at))
  {
    HeaderDeclaresBody(m, m.body + extra);
    assert Encode(m) + extra == Header(m) + (m.body + extra);
  }

  // ---- reading ----------------------------------------------------------------------------------------------------

  /** A pipe holding bytes not yet read. Every read delivers between one byte and all that fit, as it pleases, and
      none only at the end. */
  class Pipe {
    var pending: seq<Byte>

    constructor (pending: seq<Byte>)
      ensures this.pending == pending
    {
      this.pending := pending;
    }

    method Read(buffer: array<Byte>, offset: nat) returns (read: nat)
      requires offset <= buffer.Length
      modifies this, buffer
      ensures read <= buffer.Length - offset && read <= |old(pending)|
      ensures read == 0 <==> offset == buffer.Length || old(pending) == []
      ensures pending == old(pending)[read..]
      ensures buffer[..] == old(buffer[..offset]) + old(pending)[..read] + old(buffer[offset + read..])
    {
      var room := Min(buffer.Length - offset, |pending|);
      if room == 0 {
        read := 0;
      } else {
        read :| 1 <= read <= room;
      }
      forall i | 0 <= i < read {
        buffer[offset + i] := pending[i];
      }
      pending := pending[read..];
    }
  }

  /** Fills the buffer from the pipe; the count falls short of the buffer only when the pipe ends first. */
  method ReadFull(pipe: Pipe, buffer: array<Byte>) returns (have: nat)
    modifies pipe, buffer
    ensures have == Min(buffer.Length, |old(pipe.pending)|)
    ensures buffer[..have] == old(pipe.pending)[..have]
    ensures pipe.pending == old(pipe.pending)[have..]
  {
    ghost var all := pipe.pending;
    have := 0;
    while have < buffer.Length
      invariant have <= buffer.Length && have <= |all|
      invariant buffer[..have] == all[..have] && pipe.pending == all[have..]
    {
      var read := pipe.Read(buffer, have);
      if read == 0 {
        return;
      }
      assert all[..have + read] == all[..have] + all[have..][..read];
      assert buffer[..have + read] == all[..have] + all[have..][..read];
      have := have + read;
    }
  }

  datatype ReadOutcome = Closed | Got(message: Message, wireBytes: nat) | Failed(error: Error)

  datatype Envelope = Envelope(outcome: ReadOutcome, used: nat)

  /** What reading one envelope off `pending` yields, and how many bytes it consumes. */
  function ReadEnvelope(pending: seq<Byte>): Envelope {
    if |pending| == 0 then Envelope(Closed, 0)
    else if |pending| < HEADER_BYTES then Envelope(Failed(Truncated(HEADER_BYTES, |pending|)), |pending|)
    else
      var len := EnvelopeBodyLen(pending);
      if len.Err? then Envelope(Failed(len.error), HEADER_BYTES)
      else if |pending| - HEADER_BYTES < len.value
      then Envelope(Failed(Truncated(len.value, |pending| - HEADER_BYTES)), |pending|)
      else
        var wire := HEADER_BYTES + len.value;
        var decoded := Decode(pending[..wire]);
        Envelope(if decoded.Ok? then Got(decoded.value, wire) else Failed(decoded.error), wire)
  }

  /** Reads a header, sizes the body from it, reads the body, decodes: the outcome does not depend on the chunks. */
  method ReadEngineEnvelope(pipe: Pipe) returns (outcome: ReadOutcome)
    modifies pipe
    ensures outcome == ReadEnvelope(old(pipe.pending)).outcome
    ensures ReadEnvelope(old(pipe.pending)).used <= |old(pipe.pending)|
    ensures pipe.pending == old(pipe.pending)[ReadEnvelope(old(pipe.pending)).used..]
  {
    ghost var all := pipe.pending;
    var header := new Byte[HEADER_BYTES];
    var have := ReadFull(pipe, header);
    if have == 0 {
      return Closed;
    }
    if have < HEADER_BYTES {
      return Failed(Truncated(HEADER_BYTES, have));
    }
    assert header[..] == header[..have] == all[..HEADER_BYTES];
    var head := header[..];
    assert forall i :: 0 <= i < HEADER_BYTES ==> head[i] == all[i];
    var len := EnvelopeBodyLen(head);
    assert len == EnvelopeBodyLen(all);
    if len.Err? {
      return Failed(len.error);
    }
    var body := new Byte[len.value];
    have := ReadFull(pipe, body);
    if have < body.Length {
      return Failed(Truncated(body.Length, have));
    }
    assert body[..] == body[..have] == all[HEADER_BYTES..][..have];
    assert head + body[..] == all[..HEADER_BYTES + have];
    assert all[HEADER_BYTES..][have..] == all[HEADER_BYTES + have..];
    var decoded := Decode(head + body[..]);
    outcome := if decoded.Ok? then Got(decoded.value, HEADER_BYTES + len.value) else Failed(decoded.error);
  }

  datatype Ending = CleanEnd | WrongDirection | ReadFailed(error: Error)

  lemma EnvelopeConsumes(pending: seq<Byte>)
    ensures ReadEnvelope(pending).used <= |pending|
    ensures ReadEnvelope(pending).outcome.Got? ==> ReadEnvelope(pending).used >= HEADER_BYTES
  {}

  /** What a reader hands on from a stream, and how the stream ends for it. */
  datatype Stream = Stream(messages: seq<Message>, ending: Ending)

  function Prepend(m: Message, s: Stream): Stream { Stream([m] + s.messages, s.ending) }

  /** Reading a stream that is expected to carry one kind of message. */
  function ReadStream(pending: seq<Byte>, expected: Kind): Stream
    decreases |pending|
  {
    EnvelopeConsumes(pending);
    var envelope := ReadEnvelope(pending);
    match envelope.outcome
    case Closed => Stream([], CleanEnd)
    case Failed(error) => Stream([], ReadFailed(error))
    case Got(message, _) =>
      if message.kind != expected then Stream([], WrongDirection)
      else Prepend(message, ReadStream(pending[envelope.used..], expected))
  }

  /** Messages already handed on, followed by what a stream still yields. */
  function After(done: seq<Message>, s: Stream): Stream { Stream(done + s.messages, s.ending) }

  lemma AfterOneMore(done: seq<Message>, m: Message, s: Stream)
    ensures After(done, Prepend(m, s)) == After(done + [m], s)
  {}

  lemma AfterNothing(done: seq<Message>, ending: Ending)
    ensures After(done, Stream([], ending)) == Stream(done, ending)
    ensures After([], Stream(done, ending)) == Stream(done, ending)
  {}

  /** The reader loop: one envelope at a time until the stream closes, fails or turns around. */
  method ReadUntilClosed(pipe: Pipe, expected: Kind) returns (messages: seq<Message>, ending: Ending)
    modifies pipe
    ensures Stream(messages, ending) == ReadStream(old(pipe.pending), expected)
  {
    ghost var all := ReadStream(pipe.pending, expected);
    messages, ending := [], CleanEnd;
    AfterNothing(all.messages, all.ending);
    var more := true;
    while more
      invariant if more then all == After(messages, ReadStream(pipe.pending, expected))
                else all == Stream(messages, ending)
      decreases more, |pipe.pending|
    {
      ghost var before := pipe.pending;
      EnvelopeConsumes(before);
      var outcome := ReadEngineEnvelope(pipe);
      match outcome {
        case Closed => ending, more := CleanEnd, false;
        case Failed(error) => ending, more := ReadFailed(error), false;
        case Got(message, _) =>
          if message.kind != expected {
            ending, more := WrongDirection, false;
          } else {
            AfterOneMore(messages, message, ReadStream(pipe.pending, expected));
            messages := messages + [message];
          }
      }
      AfterNothing(messages, ending);
    }
  }

  // ---- framing survives chunking and detects truncation -------------------------------------------------------------

  ghost predicate AllOfKind(ms: seq<Message>, kind: Kind) {
    forall i :: 0 <= i < |ms| ==> Encodable(ms[i]) && ms[i].kind == kind
  }

  /** The bytes of messages written one after the other, followed by `tail`. */
  function WireThen(ms: seq<Message>, tail: seq<Byte>): seq<Byte>
    requires forall i :: 0 <= i < |ms| ==> Encodable(ms[i])
  {
    if |ms| == 0 then tail else Encode(ms[0]) + WireThen(ms[1..], tail)
  }

  function PrependAll(ms: seq<Message>, s: Stream): Stream {
    if |ms| == 0 then s else Prepend(ms[0], PrependAll(ms[1..], s))
  }

  lemma {:induction false} PrependAllIs(ms: seq<Message>, s: Stream)
    ensures PrependAll(ms, s) == Stream(ms + s.messages, s.ending)
  {
    if |ms| > 0 {
      PrependAllIs(ms[1..], s);
      assert [ms[0]] + (ms[1..] + s.messages) == ms + s.messages;
    } else {
      assert ms + s.messages == s.messages;
    }
  }

  lemma EnvelopeAtFront(m: Message, rest: seq<Byte>)
    requires Encodable(m)
    ensures ReadEnvelope(Encode(m) + rest) == Envelope(Got(m, |Encode(m)|), |Encode(m)|)
    ensures (Encode(m) + rest)[|Encode(m)|..] == rest
  {
    assert Encode(m) + rest == Header(m) + (m.body + rest);
    HeaderDeclaresBody(m, m.body + rest);
    assert (Encode(m) + rest)[..|Encode(m)|] == Encode(m);
    DecodeEncode(m);
  }

  lemma MessageAtFront(m: Message, rest: seq<Byte>, kind: Kind)
    requires Encodable(m) && m.kind == kind
    ensures ReadStream(Encode(m) + rest, kind) == Prepend(m, ReadStream(rest, kind))
  {
    EnvelopeAtFront(m, rest);
  }

  /** A stream of encoded messages followed by `tail` reads as those messages and then as `tail` reads. */
  lemma {:induction false} StreamReadsBack(ms: seq<Message>, kind: Kind, tail: seq<Byte>)
    requires AllOfKind(ms, kind)
    ensures ReadStream(WireThen(ms, tail), kind) == PrependAll(ms, ReadStream(tail, kind))
  {
    if |ms| > 0 {
      StreamReadsBack(ms[1..], kind, tail);
      MessageAtFront(ms[0], WireThen(ms[1..], tail), kind);
    }
  }

  /** A message of the other kind ends the stream after the messages before it, whatever follows. */
  lemma TurnedStreamEnds(ms: seq<Message>, kind: Kind, m: Message, rest: seq<Byte>)
    requires AllOfKind(ms, kind) && Encodable(m) && m.kind != kind
    ensures ReadStream(WireThen(ms, Encode(m) + rest), kind) == Stream(ms, WrongDirection)
  {
    StreamReadsBack(ms, kind, Encode(m) + rest);
    EnvelopeAtFront(m, rest);
    PrependAllIs(ms, Stream([], WrongDirection));
    assert ms + [] == ms;
  }

  /** What a stream ends with at an envelope whose first bytes are not what the format asks for. */
  function Rejection(i: nat, b: Byte): Error
    requires i < 4
  {
    if i < 2 then BadMagic else if i == 2 then UnsupportedWireVersion(b) else UnknownKind(b)
  }

  lemma DamagedFrame(m: Message, kind: Kind, i: nat, b: Byte, rest: seq<Byte>)
    requires Encodable(m) && i < 4 && b != Encode(m)[i] && (i == 3 ==> b > 1)
    ensures ReadStream(Encode(m)[i := b] + rest, kind) == Stream([], ReadFailed(Rejection(i, b)))
  {
    var wire, whole := Encode(m)[i := b] + rest, Header(m) + (m.body + rest);
    HeaderDeclaresBody(m, m.body + rest);
    assert Encode(m) + rest == whole;
    assert forall k :: 0 <= k < HEADER_BYTES && k != i ==> wire[k] == whole[k];
  }

  /** A damaged magic, version or kind byte ends the stream with the error of that byte. */
  lemma DamagedFrameEnds(ms: seq<Message>, kind: Kind, m: Message, i: nat, b: Byte, rest: seq<Byte>)
    requires AllOfKind(ms, kind) && Encodable(m)
    requires i < 4 && b != Encode(m)[i] && (i == 3 ==> b > 1)
    ensures ReadStream(WireThen(ms, Encode(m)[i := b] + rest), kind) == Stream(ms, ReadFailed(Rejection(i, b)))
  {
    StreamReadsBack(ms, kind, Encode(m)[i := b] + rest);
    DamagedFrame(m, kind, i, b, rest);
    PrependAllIs(ms, Stream([], ReadFailed(Rejection(i, b))));
    assert ms + [] == ms;
  }

  /** A declared length over the bound ends the stream by the length alone: no body is awaited. */
  lemma OversizeFrameEnds(ms: seq<Message>, kind: Kind, wire: seq<Byte>, len: nat)
    requires AllOfKind(ms, kind) && |wire| >= HEADER_BYTES
    requires wire[0] == wire[1] == MAGIC && wire[2] == WIRE_VERSION
    requires U32(wire[6], wire[7], wire[8], wire[9]) == len > MAX_MESSAGE_BYTES
    ensures ReadStream(WireThen(ms, wire), kind) == Stream(ms, ReadFailed(MessageTooLarge(len)))
  {
    StreamReadsBack(ms, kind, wire);
    PrependAllIs(ms, Stream([], ReadFailed(MessageTooLarge(len))));
    assert ms + [] == ms;
  }

  /** A whole stream yields every message in order and then a clean end. */
  lemma WholeStreamReadsBack(ms: seq<Message>, kind: Kind)
    requires AllOfKind(ms, kind)
    ensures ReadStream(WireThen(ms, []), kind) == Stream(ms, CleanEnd)
  {
    StreamReadsBack(ms, kind, []);
    PrependAllIs(ms, Stream([], CleanEnd));
    assert ms + [] == ms;
  }

  /** A stream cut inside a frame yields the whole messages before the cut and then `Truncated`, never another
      message, with the counts of the part (header or body) that fell short. */
  lemma CutStreamIsTruncated(ms: seq<Message>, kind: Kind, m: Message, cut: nat)
    requires AllOfKind(ms, kind) && Encodable(m)
    requires 0 < cut < |Encode(m)|
    ensures ReadStream(WireThen(ms, Encode(m)[..cut]), kind)
         == Stream(ms, ReadFailed(if cut < HEADER_BYTES then Truncated(HEADER_BYTES, cut)
                                  else Truncated(|m.body|, cut - HEADER_BYTES)))
  {
    StreamReadsBack(ms, kind, Encode(m)[..cut]);
    CutFrameIsTruncated(m, kind, cut);
    PrependAllIs(ms, ReadStream(Encode(m)[..cut], kind));
    assert ms + [] == ms;
  }

  lemma CutFrameIsTruncated(m: Message, kind: Kind, cut: nat)
    requires Encodable(m) && 0 < cut < |Encode(m)|
    ensures ReadStream(Encode(m)[..cut], kind)
         == Stream([], ReadFailed(if cut < HEADER_BYTES then Truncated(HEADER_BYTES, cut)
                                  else Truncated(|m.body|, cut - HEADER_BYTES)))
  {
    if cut >= HEADER_BYTES {
      assert Encode(m)[..cut] == Header(m) + m.body[..cut - HEADER_BYTES];
      HeaderDeclaresBody(m, m.body[..cut - HEADER_BYTES]);
    }
  }
}
