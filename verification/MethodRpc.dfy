/** Method calls over a stream socket: length-delimited frames
  (source/binding/socket/inc/ProtobufSerializer.hpp) and the caller and the responder
  (source/binding/socket/inc/SocketMethodBinding.hpp), each for one connection. */
module MethodRpc {
  import opened Common
  import opened Serialization

  /** The value of an error code is a signed integer of 32 bits. */
  type ErrorCode = c: int | -0x8000_0000 <= c < 0x8000_0000

  datatype Result<+T> = Ok(value: T) | Err(code: ErrorCode)

  const NETWORK_BINDING_FAILURE: ErrorCode := 0x03
  const INVALID_ARGUMENT: ErrorCode := 0x0C
  const MESSAGE_TOO_LARGE: ErrorCode := 0x14
  const SERIALIZATION_ERROR: ErrorCode := 0x15
  const DESERIALIZATION_ERROR: ErrorCode := 0x16

  /** The generated code of one message type: ByteSizeLong, SerializeToArray (None for a false
      return or an exception) and ParseFromArray. */
  datatype Codec<!M> = Codec(size: M -> nat, write: M -> Option<seq<Byte>>, parse: seq<Byte> -> Option<M>)

  ghost predicate Lossless<M(!new)>(c: Codec<M>) {
    forall m :: c.write(m).Some? ==> |c.write(m).value| == c.size(m) && c.parse(c.write(m).value) == Some(m)
  }

  // ---- 32-bit integers in network byte order ---------------------------------------------

  /** `htonl` of an integer of 32 bits, as it lies in memory. */
  function Network(n: nat): (r: seq<Byte>)
    ensures |r| == 4
  {
    IntBytes(BigEndian, n % TWO_TO_32, 4)
  }

  function FromNetwork(bytes: seq<Byte>): (n: nat)
    requires |bytes| == 4
    ensures n < TWO_TO_32
  {
    SumIsSmall(BigEndian, bytes, 4);
    WeightOfFour();
    IntValue(BigEndian, bytes)
  }

  lemma WeightOfFour()
    ensures Weight(4) == TWO_TO_32
  {
  }

  lemma NetworkRoundTrip(n: nat)
    ensures FromNetwork(Network(n)) == n % TWO_TO_32
  {
    WeightOfFour();
    IntRoundTrip(BigEndian, n % TWO_TO_32, 4);
  }

  function StatusToNetwork(status: ErrorCode): (r: seq<Byte>)
    ensures |r| == 4
  {
    Network(if status < 0 then status + TWO_TO_32 else status)
  }

  function StatusFromNetwork(bytes: seq<Byte>): ErrorCode
    requires |bytes| == 4
  {
    var n := FromNetwork(bytes);
    if n < 0x8000_0000 then n else n - TWO_TO_32
  }

  lemma StatusRoundTrip(status: ErrorCode)
    ensures StatusFromNetwork(StatusToNetwork(status)) == status
  {
    NetworkRoundTrip(if status < 0 then status + TWO_TO_32 else status);
  }

  // ---- Frames ------------------------------------------------------------------------------

  function Frame(payload: seq<Byte>): seq<Byte> { Network(|payload|) + payload }

  /** The frame SerializeMessage leaves in its buffer. */
  function FrameOf<M>(c: Codec<M>, m: M): Result<seq<Byte>> {
    if c.size(m) >= TWO_TO_32 then Err(MESSAGE_TOO_LARGE)
    else if c.write(m).None? then Err(SERIALIZATION_ERROR)
    else Ok(Network(c.size(m)) + c.write(m).value)
  }

  /** A message can be framed if and only if its size fits in 32 bits and its codec writes it. */
  lemma FramedExactlyIfItFits<M>(c: Codec<M>, m: M)
    ensures FrameOf(c, m).Ok? <==> c.size(m) < 0x1_0000_0000 && c.write(m).Some?
    ensures c.size(m) >= 0x1_0000_0000 ==> FrameOf(c, m) == Err(0x14)
    ensures c.size(m) < 0x1_0000_0000 && c.write(m).None? ==> FrameOf(c, m) == Err(0x15)
  {
  }

  class ProtobufSerializer<M> {
    const codec: Codec<M>
    var buffer: seq<Byte>

    constructor (codec: Codec<M>)
      ensures this.codec == codec && buffer == []
    {
      this.codec, buffer := codec, [];
    }

    method SerializeMessage(m: M) returns (r: Result<()>)
      modifies this
      ensures r == match FrameOf(codec, m) case Ok(_) => Ok(()) case Err(code) => Err(code)
      ensures r.Ok? <==> codec.size(m) < 0x1_0000_0000 && codec.write(m).Some?
      ensures r.Ok? ==> buffer == FrameOf(codec, m).value
    {
      var size := codec.size(m);
      if size > 0xFFFF_FFFF {
        return Err(MESSAGE_TOO_LARGE);
      }
      buffer := Network(size) + seq(size, _ => 0);
      var payload := codec.write(m);
      if payload.None? {
        return Err(SERIALIZATION_ERROR);
      }
      buffer := Network(size) + payload.value;
      r := Ok(());
    }
  }

  /** The size in front of the message at the cursor. */
  function SizeAt(data: seq<Byte>, pos: nat): nat
    requires pos + 4 <= |data|
  {
    FromNetwork(data[pos..pos + 4])
  }

  /** The sum `4 + messageSize` of 32-bit integers does not wrap around. */
  predicate SizeFits(data: seq<Byte>, pos: nat) {
    pos + 4 <= |data| ==> SizeAt(data, pos) < TWO_TO_32 - 4
  }

  /** What DeserializeMessage returns, and its cursor afterwards. */
  function Unframe<M>(c: Codec<M>, data: seq<Byte>, pos: nat): (r: (Result<M>, nat))
    requires pos <= |data| && SizeFits(data, pos)
    ensures pos <= r.1 <= |data|
  {
    if |data| - pos < 4 then (Err(INVALID_ARGUMENT), pos)
    else
      var size := SizeAt(data, pos);
      if |data| - pos < 4 + size then (Err(INVALID_ARGUMENT), pos)
      else
        match c.parse(data[pos + 4..pos + 4 + size])
        case None => (Err(DESERIALIZATION_ERROR), pos)
        case Some(m) => (Ok(m), pos + 4 + size)
  }

  class ProtobufDeserializer<M> {
    const codec: Codec<M>
    const data: seq<Byte>
    var position: nat

    ghost predicate Valid()
      reads this
    {
      position <= |data|
    }

    constructor (codec: Codec<M>, data: seq<Byte>)
      ensures this.codec == codec && this.data == data
      ensures Valid() && position == 0
    {
      this.codec, this.data, position := codec, data, 0;
    }

    method DeserializeMessage() returns (r: Result<M>)
      requires Valid() && SizeFits(data, position)
      modifies this
      ensures Valid() && (r, position) == Unframe(codec, data, old(position))
    {
      if |data| - position < 4 {
        return Err(INVALID_ARGUMENT);
      }
      var size := FromNetwork(data[position..position + 4]);
      if |data| - position < (4 + size) % TWO_TO_32 {
        return Err(INVALID_ARGUMENT);
      }
      var message := codec.parse(data[position + 4..position + 4 + size]);
      if message.None? {
        return Err(DESERIALIZATION_ERROR);
      }
      position := position + 4 + size;
      r := Ok(message.value);
    }
  }

  lemma SizeOfFrame(payload: seq<Byte>, data: seq<Byte>, pos: nat)
    requires |payload| < TWO_TO_32 && Holds(data, pos, Frame(payload))
    ensures SizeAt(data, pos) == |payload|
    ensures data[pos + 4..pos + 4 + |payload|] == payload
  {
    HoldsParts(data, pos, Network(|payload|), payload);
    NetworkRoundTrip(|payload|);
  }

  /** A frame, anywhere in the data, gives its message back and is consumed to its end. */
  lemma UnframeOf<M(!new)>(c: Codec<M>, m: M, data: seq<Byte>, pos: nat)
    requires Lossless(c) && FrameOf(c, m).Ok? && c.size(m) < TWO_TO_32 - 4
    requires Holds(data, pos, FrameOf(c, m).value)
    ensures SizeFits(data, pos)
    ensures Unframe(c, data, pos) == (Ok(m), pos + 4 + c.size(m))
  {
    assert |c.write(m).value| == c.size(m);
    SizeOfFrame(c.write(m).value, data, pos);
  }

  // ---- A stream socket ---------------------------------------------------------------------

  /** One end of a connection: `incoming` is what the peer delivers before it closes, of which
      a receive takes any non-empty piece; a send accepts any non-empty piece. Unless the
      socket is reliable, either may also fail, or move nothing. */
  class Socket {
    const reliable: bool
    var incoming: seq<Byte>
    var outgoing: seq<Byte>

    constructor (reliable: bool, incoming: seq<Byte>)
      ensures this.reliable == reliable && this.incoming == incoming && outgoing == []
    {
      this.reliable, this.incoming, outgoing := reliable, incoming, [];
    }

    method Send(data: seq<Byte>) returns (r: Result<nat>)
      requires data != []
      modifies this
      ensures incoming == old(incoming)
      ensures r.Ok? ==> r.value <= |data| && outgoing == old(outgoing) + data[..r.value]
      ensures r.Err? ==> outgoing == old(outgoing)
      ensures reliable ==> r.Ok? && r.value > 0
    {
      var fails: bool :| fails ==> !reliable;
      if fails {
        var code: int :| -0x8000_0000 <= code < 0x8000_0000;
        return Err(code);
      }
      var least := if reliable then 1 else 0;
      var n: nat :| least <= n <= |data|;
      outgoing := outgoing + data[..n];
      r := Ok(n);
    }

    method Receive(most: nat) returns (r: Result<seq<Byte>>)
      requires most > 0
      modifies this
      ensures outgoing == old(outgoing)
      ensures r.Ok? ==> |r.value| <= most && old(incoming) == r.value + incoming
      ensures r.Ok? && reliable && old(incoming) != [] ==> r.value != []
      ensures r.Err? ==> incoming == old(incoming)
      ensures reliable ==> r.Ok?
    {
      var fails: bool :| fails ==> !reliable;
      if fails {
        var code: int :| -0x8000_0000 <= code < 0x8000_0000;
        return Err(code);
      }
      var least := if reliable && incoming != [] then 1 else 0;
      var n: nat :| least <= n <= most && n <= |incoming|;
      r := Ok(incoming[..n]);
      incoming := incoming[n..];
    }
  }

  /** `n` bytes go out in any case. */
  method SendExact(socket: Socket, data: seq<Byte>) returns (r: Result<()>, ghost n: nat)
    modifies socket
    ensures socket.incoming == old(socket.incoming)
    ensures n <= |data| && socket.outgoing == old(socket.outgoing) + data[..n]
    ensures r.Ok? ==> n == |data| && socket.outgoing == old(socket.outgoing) + data
    ensures socket.reliable ==> r.Ok?
  {
    var off := 0;
    n := 0;
    while off < |data|
      invariant n == off <= |data| && socket.incoming == old(socket.incoming)
      invariant socket.outgoing == old(socket.outgoing) + data[..off]
    {
      var sent := socket.Send(data[off..]);
      if sent.Err? {
        r := Err(sent.code);
        return;
      }
      if sent.value == 0 {
        r := Err(NETWORK_BINDING_FAILURE);
        return;
      }
      assert data[..off] + data[off..][..sent.value] == data[..off + sent.value];
      off := off + sent.value;
      n := off;
    }
    assert data[..|data|] == data;
    r := Ok(());
  }

  /** Fills the buffer, or fails; on a reliable socket it fails only if the stream ends first. */
  method RecvExact(socket: Socket, buf: array<Byte>) returns (r: Result<()>)
    modifies socket, buf
    ensures socket.outgoing == old(socket.outgoing)
    ensures r.Ok? ==> old(socket.incoming) == buf[..] + socket.incoming
    ensures socket.reliable ==>
              r == if buf.Length <= |old(socket.incoming)| then Ok(()) else Err(NETWORK_BINDING_FAILURE)
  {
    var off := 0;
    while off < buf.Length
      invariant off <= buf.Length && socket.outgoing == old(socket.outgoing)
      invariant old(socket.incoming) == buf[..off] + socket.incoming
    {
      var piece := socket.Receive(buf.Length - off);
      if piece.Err? {
        return Err(piece.code);
      }
      if |piece.value| == 0 {
        return Err(NETWORK_BINDING_FAILURE);
      }
      CopyInto(buf, off, piece.value);
      off := off + |piece.value|;
    }
    assert buf[..off] == buf[..];
    r := Ok(());
  }

  method CopyInto(buf: array<Byte>, off: nat, piece: seq<Byte>)
    requires off + |piece| <= buf.Length
    modifies buf
    ensures buf[..off + |piece|] == old(buf[..off]) + piece
  {
    for i := 0 to |piece|
      invariant buf[..off + i] == old(buf[..off]) + piece[..i]
    {
      buf[off + i] := piece[i];
      assert buf[..off + i + 1] == buf[..off + i] + [piece[i]];
    }
  }

  // ---- Requests and replies, as functions of the streams ------------------------------------

  /** The two codecs, the maxMessageSize of either end and the handler of the responder. The
      32-bit sums `maxMessageSize + 4` and `4 + requestSize` must not wrap around. */
  datatype Service<!Req, !Rsp> = Service(
    reqCodec: Codec<Req>,
    rspCodec: Codec<Rsp>,
    callerLimit: nat,
    responderLimit: nat,
    handler: Req -> Result<Rsp>)
  {
    predicate Valid() { callerLimit + 4 < TWO_TO_32 && responderLimit + 4 < TWO_TO_32 }
  }

  function Envelope(status: ErrorCode, payload: seq<Byte>): seq<Byte> {
    Network(4 + |payload|) + StatusToNetwork(status) + payload
  }

  function Answer<Rsp>(c: Codec<Rsp>, handled: Result<Rsp>): seq<Byte> {
    match handled
    case Err(code) => Envelope(code, [])
    case Ok(value) =>
      match FrameOf(c, value)
      case Err(_) => Envelope(SERIALIZATION_ERROR, [])
      case Ok(frame) => Envelope(0, frame[4..])
  }

  /** How many more bytes the responder asks for when it has `got`; 0 once it has decided. */
  function RequestMissing(limit: nat, got: seq<Byte>): nat {
    if |got| < 4 then 4 - |got|
    else if SizeAt(got, 0) > limit || |got| >= 4 + SizeAt(got, 0) then 0
    else 4 + SizeAt(got, 0) - |got|
  }

  /** What the responder sends when the caller delivers `stream`. */
  function Reply<Req, Rsp>(s: Service<Req, Rsp>, stream: seq<Byte>): seq<Byte>
    requires s.Valid()
  {
    if RequestMissing(s.responderLimit, stream) > 0 || SizeAt(stream, 0) > s.responderLimit then []
    else
      match s.reqCodec.parse(stream[4..4 + SizeAt(stream, 0)])
      case None => []
      case Some(request) => Answer(s.rspCodec, s.handler(request))
  }

  predicate BadLength(limit: nat, n: nat) { n < 4 || n > (limit + 4) % TWO_TO_32 }

  /** How many more bytes the caller asks for when it has `got`; 0 once it has decided. */
  function ReplyMissing(limit: nat, got: seq<Byte>): nat {
    if |got| < 4 then 4 - |got|
    else if BadLength(limit, SizeAt(got, 0)) || |got| >= 4 + SizeAt(got, 0) then 0
    else 4 + SizeAt(got, 0) - |got|
  }

  /** What the caller makes of an envelope of good length. */
  function Opened<Rsp>(c: Codec<Rsp>, envelope: seq<Byte>): Result<Rsp>
    requires 4 <= |envelope|
  {
    var status := StatusFromNetwork(envelope[..4]);
    if status != 0 then Err(status)
    else
      match c.parse(envelope[4..])
      case None => Err(DESERIALIZATION_ERROR)
      case Some(value) => Ok(value)
  }

  /** What the caller returns when the responder delivers `stream` and closes. */
  function Received<Req, Rsp>(s: Service<Req, Rsp>, stream: seq<Byte>): Result<Rsp>
    requires s.Valid()
  {
    if ReplyMissing(s.callerLimit, stream) > 0 then Err(NETWORK_BINDING_FAILURE)
    else
      var n := SizeAt(stream, 0);
      if BadLength(s.callerLimit, n) then Err(MESSAGE_TOO_LARGE)
      else Opened(s.rspCodec, stream[4..4 + n])
  }

  // ---- The caller and the responder ----------------------------------------------------------

  lemma SizeInFront(bytes: seq<Byte>, rest: seq<Byte>, n: nat)
    requires |bytes| == 4
    ensures SizeAt(bytes + rest, 0) == FromNetwork(bytes)
    ensures n <= |rest| ==> (bytes + rest)[4..4 + n] == rest[..n]
  {
    assert (bytes + rest)[0..4] == bytes;
  }

  lemma ReceivedAfterLength<Req, Rsp>(s: Service<Req, Rsp>, bytes: seq<Byte>, rest: seq<Byte>)
    requires s.Valid() && |bytes| == 4
    ensures var n := FromNetwork(bytes);
            Received(s, bytes + rest) ==
            if BadLength(s.callerLimit, n) then Err(MESSAGE_TOO_LARGE)
            else if |rest| < n then Err(NETWORK_BINDING_FAILURE)
            else Opened(s.rspCodec, rest[..n])
  {
    SizeInFront(bytes, rest, FromNetwork(bytes));
  }

  lemma ReplyAfterLength<Req, Rsp>(s: Service<Req, Rsp>, bytes: seq<Byte>, rest: seq<Byte>)
    requires s.Valid() && |bytes| == 4
    ensures var n := FromNetwork(bytes);
            Reply(s, bytes + rest) ==
            if n > s.responderLimit || |rest| < n then []
            else (match s.reqCodec.parse(rest[..n]) case None => [] case Some(m) => Answer(s.rspCodec, s.handler(m)))
  {
    SizeInFront(bytes, rest, FromNetwork(bytes));
  }

  /** Copying the payload behind a length of its own and deserializing that frame is the same
      as parsing the payload. */
  lemma UnframePayload<M>(c: Codec<M>, payload: seq<Byte>)
    requires |payload| < TWO_TO_32 - 4
    ensures SizeFits(Frame(payload), 0)
    ensures Unframe(c, Frame(payload), 0).0 ==
            match c.parse(payload) case None => Err(DESERIALIZATION_ERROR) case Some(m) => Ok(m)
  {
    SizeOfFrame(payload, Frame(payload), 0);
  }

  method Call<Req, Rsp>(s: Service<Req, Rsp>, socket: Socket, request: Req) returns (r: Result<Rsp>)
    requires s.Valid()
    modifies socket
    ensures FrameOf(s.reqCodec, request).Err? ==>
              r == Err(FrameOf(s.reqCodec, request).code) && socket.outgoing == old(socket.outgoing)
    ensures FrameOf(s.reqCodec, request).Ok? && socket.reliable ==>
              && socket.outgoing == old(socket.outgoing) + FrameOf(s.reqCodec, request).value
              && r == Received(s, old(socket.incoming))
    ensures FrameOf(s.reqCodec, request).Ok? ==>
              var frame := FrameOf(s.reqCodec, request).value;
              exists n :: 0 <= n <= |frame| && socket.outgoing == old(socket.outgoing) + frame[..n]
    ensures r.Ok? ==>
              && FrameOf(s.reqCodec, request).Ok?
              && socket.outgoing == old(socket.outgoing) + FrameOf(s.reqCodec, request).value
    ensures r.Ok? ==> r == Received(s, old(socket.incoming))
  {
    var serializer := new ProtobufSerializer(s.reqCodec);
    var serialized := serializer.SerializeMessage(request);
    if serialized.Err? {
      return Err(serialized.code);
    }
    var sent, n := SendExact(socket, serializer.buffer);
    if sent.Err? {
      return Err(sent.code);
    }
    r := ReceiveReply(s, socket);
  }

  method ReceiveReply<Req, Rsp>(s: Service<Req, Rsp>, socket: Socket) returns (r: Result<Rsp>)
    requires s.Valid()
    modifies socket
    ensures socket.outgoing == old(socket.outgoing)
    ensures socket.reliable || r.Ok? ==> r == Received(s, old(socket.incoming))
  {
    var lengthBytes := new Byte[4];
    var got := RecvExact(socket, lengthBytes);
    if got.Err? {
      return Err(got.code);
    }
    ReceivedAfterLength(s, lengthBytes[..], socket.incoming);
    var length := FromNetwork(lengthBytes[..]);
    if length < 4 || length > (s.callerLimit + 4) % TWO_TO_32 {
      return Err(MESSAGE_TOO_LARGE);
    }
    var envelope := new Byte[length];
    got := RecvExact(socket, envelope);
    if got.Err? {
      return Err(got.code);
    }
    r := OpenEnvelope(s.rspCodec, envelope[..]);
  }

  method OpenEnvelope<Rsp>(c: Codec<Rsp>, envelope: seq<Byte>) returns (r: Result<Rsp>)
    requires 4 <= |envelope| < TWO_TO_32
    ensures r == Opened(c, envelope)
  {
    var status := StatusFromNetwork(envelope[..4]);
    if status != 0 {
      return Err(status);
    }
    UnframePayload(c, envelope[4..]);
    var deserializer := new ProtobufDeserializer(c, Network(|envelope| - 4) + envelope[4..]);
    r := deserializer.DeserializeMessage();
  }

  /** On an unreliable socket each of the three sends of an envelope may stop early, and the next
      one is tried all the same: what goes out is a beginning of each of the three parts. */
  ghost predicate IsPartOf(before: seq<Byte>, after: seq<Byte>, envelope: seq<Byte>) {
    exists a, b, c :: ConsistsOf(before, after, envelope, a, b, c)
  }

  predicate ConsistsOf(before: seq<Byte>, after: seq<Byte>, envelope: seq<Byte>, a: nat, b: nat, c: nat) {
    && a <= 4 && b <= 4 && 8 + c <= |envelope|
    && after == before + envelope[..a] + envelope[4..4 + b] + envelope[8..8 + c]
  }

  method HandleClient<Req, Rsp>(s: Service<Req, Rsp>, socket: Socket)
    requires s.Valid()
    modifies socket
    ensures socket.reliable ==> socket.outgoing == old(socket.outgoing) + Reply(s, old(socket.incoming))
    ensures socket.outgoing == old(socket.outgoing)
            || IsPartOf(old(socket.outgoing), socket.outgoing, Reply(s, old(socket.incoming)))
  {
    var sizeBytes := new Byte[4];
    var got := RecvExact(socket, sizeBytes);
    if got.Err? {
      return;
    }
    ReplyAfterLength(s, sizeBytes[..], socket.incoming);
    var size := FromNetwork(sizeBytes[..]);
    if size > s.responderLimit {
      return;
    }
    var payload := new Byte[size];
    got := RecvExact(socket, payload);
    if got.Err? {
      return;
    }
    var request := OpenRequest(s.reqCodec, payload[..]);
    if request.Err? {
      return;
    }
    SendAnswer(s.rspCodec, socket, s.handler(request.value));
  }

  method OpenRequest<Req>(c: Codec<Req>, payload: seq<Byte>) returns (r: Result<Req>)
    requires |payload| < TWO_TO_32 - 4
    ensures r == match c.parse(payload) case None => Err(DESERIALIZATION_ERROR) case Some(m) => Ok(m)
  {
    UnframePayload(c, payload);
    var deserializer := new ProtobufDeserializer(c, Network(|payload|) + payload);
    r := deserializer.DeserializeMessage();
  }

  method SendAnswer<Rsp>(c: Codec<Rsp>, socket: Socket, handled: Result<Rsp>)
    modifies socket
    ensures socket.reliable ==> socket.outgoing == old(socket.outgoing) + Answer(c, handled)
    ensures IsPartOf(old(socket.outgoing), socket.outgoing, Answer(c, handled))
  {
    if handled.Err? {
      SendEnvelope(socket, handled.code, []);
      return;
    }
    var serializer := new ProtobufSerializer(c);
    var serialized := serializer.SerializeMessage(handled.value);
    if serialized.Err? {
      SendEnvelope(socket, SERIALIZATION_ERROR, []);
      return;
    }
    SendEnvelope(socket, 0, serializer.buffer[4..]);
  }

  /** The three sends; an error of one does not keep the others from being tried. */
  method SendEnvelope(socket: Socket, status: ErrorCode, payload: seq<Byte>)
    modifies socket
    ensures socket.reliable ==> socket.outgoing == old(socket.outgoing) + Envelope(status, payload)
    ensures IsPartOf(old(socket.outgoing), socket.outgoing, Envelope(status, payload))
  {
    ghost var before := socket.outgoing;
    var length, code := Network(4 + |payload|), StatusToNetwork(status);
    var _, a := SendExact(socket, length);
    var _, b := SendExact(socket, code);
    var _, c := SendExact(socket, payload);
    PartOfEnvelope(before, socket.outgoing, length, code, payload, a, b, c);
  }

  lemma PartOfEnvelope(
      before: seq<Byte>, after: seq<Byte>, length: seq<Byte>, code: seq<Byte>, payload: seq<Byte>,
      a: nat, b: nat, c: nat)
    requires |length| == |code| == 4 && a <= 4 && b <= 4 && c <= |payload|
    requires after == before + length[..a] + code[..b] + payload[..c]
    ensures IsPartOf(before, after, length + code + payload)
  {
    var e := length + code + payload;
    assert e[..a] == length[..a] && e[4..4 + b] == code[..b] && e[8..8 + c] == payload[..c];
    assert ConsistsOf(before, after, e, a, b, c);
  }

  // ---- What a call returns ---------------------------------------------------------------------

  /** The outcome of a call in terms of sizes, codecs and the handler alone. The error codes are
      those of the caller: 0x03 a network failure, 0x14 too large, 0x15 and 0x16 a message that
      cannot be written or parsed. */
  function Expected<Req, Rsp>(s: Service<Req, Rsp>, request: Req): Result<Rsp> {
    if s.reqCodec.size(request) >= 0x1_0000_0000 then Err(0x14)
    else if s.reqCodec.write(request).None? then Err(0x15)
    else if s.reqCodec.size(request) > s.responderLimit then Err(0x03)
    else ExpectedOf(s, s.handler(request))
  }

  function ExpectedOf<Req, Rsp>(s: Service<Req, Rsp>, handled: Result<Rsp>): Result<Rsp> {
    match handled
    case Err(code) =>
      if code != 0 then Err(code)
      else (match s.rspCodec.parse([]) case None => Err(0x16) case Some(value) => Ok(value))
    case Ok(value) =>
      if s.rspCodec.size(value) >= 0x1_0000_0000 || s.rspCodec.write(value).None? then Err(0x15)
      else if s.rspCodec.size(value) > s.callerLimit then Err(0x14)
      else Ok(value)
  }

  lemma EnvelopeParts(status: ErrorCode, payload: seq<Byte>)
    requires |payload| < TWO_TO_32
    ensures var e := Envelope(status, payload);
            && SizeAt(e, 0) == (4 + |payload|) % TWO_TO_32
            && e[4..8] == StatusToNetwork(status) && e[8..] == payload
  {
    var e := Envelope(status, payload);
    NetworkRoundTrip(4 + |payload|);
    assert e[0..4] == Network(4 + |payload|);
  }

  /** A payload within the limit is opened; a longer one is refused, even where the length of
      its envelope wraps around. */
  lemma EnvelopeReceived<Req, Rsp>(s: Service<Req, Rsp>, status: ErrorCode, payload: seq<Byte>)
    requires s.Valid() && |payload| < TWO_TO_32
    ensures Received(s, Envelope(status, payload)) ==
            if |payload| > s.callerLimit then Err(MESSAGE_TOO_LARGE)
            else if status != 0 then Err(status)
            else (match s.rspCodec.parse(payload) case None => Err(DESERIALIZATION_ERROR) case Some(value) => Ok(value))
  {
    var e := Envelope(status, payload);
    EnvelopeParts(status, payload);
    if |payload| <= s.callerLimit {
      assert e[4..4 + SizeAt(e, 0)] == e[4..8] + payload;
      StatusRoundTrip(status);
      assert (e[4..8] + payload)[..4] == e[4..8] && (e[4..8] + payload)[4..] == payload;
    }
  }

  lemma AnswerReceived<Req, Rsp(!new)>(s: Service<Req, Rsp>, handled: Result<Rsp>)
    requires s.Valid() && Lossless(s.rspCodec)
    ensures Received(s, Answer(s.rspCodec, handled)) == ExpectedOf(s, handled)
  {
    match handled
    case Err(code) => EnvelopeReceived(s, code, []);
    case Ok(value) =>
      FramedExactlyIfItFits(s.rspCodec, value);
      if FrameOf(s.rspCodec, value).Err? {
        EnvelopeReceived(s, SERIALIZATION_ERROR, []);
      } else {
        var payload := s.rspCodec.write(value).value;
        assert Frame(payload)[4..] == payload;
        EnvelopeReceived(s, 0, payload);
      }
  }

  /** The responder's answer to a request frame, once it has all of it. */
  lemma ReplyToFrame<Req(!new), Rsp>(s: Service<Req, Rsp>, request: Req)
    requires s.Valid() && Lossless(s.reqCodec) && FrameOf(s.reqCodec, request).Ok?
    ensures Reply(s, FrameOf(s.reqCodec, request).value) ==
            if s.reqCodec.size(request) > s.responderLimit then [] else Answer(s.rspCodec, s.handler(request))
  {
    var payload := s.reqCodec.write(request).value;
    SizeOfFrame(payload, Frame(payload), 0);
  }

  /** The whole exchange on the level of streams. */
  lemma ExchangeGivesExpected<Req(!new), Rsp(!new)>(s: Service<Req, Rsp>, request: Req)
    requires s.Valid() && Lossless(s.reqCodec) && Lossless(s.rspCodec)
    requires FrameOf(s.reqCodec, request).Ok?
    ensures Received(s, Reply(s, FrameOf(s.reqCodec, request).value)) == Expected(s, request)
  {
    ReplyToFrame(s, request);
    AnswerReceived(s, s.handler(request));
  }

  // ---- What a stream that ends early gives ---------------------------------------------------------

  /** A request that is cut off is not answered. */
  lemma CutRequestGetsNoReply<Req(!new), Rsp>(s: Service<Req, Rsp>, request: Req, cut: nat)
    requires s.Valid() && Lossless(s.reqCodec) && FrameOf(s.reqCodec, request).Ok?
    requires cut < |FrameOf(s.reqCodec, request).value|
    ensures Reply(s, FrameOf(s.reqCodec, request).value[..cut]) == []
  {
    var payload := s.reqCodec.write(request).value;
    var frame := Frame(payload);
    SizeOfFrame(payload, frame, 0);
    if cut >= 4 {
      assert frame[..cut][0..4] == frame[0..4];
    }
  }

  /** A request within the limit is answered if and only if it can be parsed. */
  lemma ReadableRequestIsAnswered<Req, Rsp>(s: Service<Req, Rsp>, payload: seq<Byte>)
    requires s.Valid() && |payload| <= s.responderLimit
    ensures Reply(s, Frame(payload)) != [] <==> s.reqCodec.parse(payload).Some?
    ensures s.reqCodec.parse(payload).Some? ==>
              Reply(s, Frame(payload)) == Answer(s.rspCodec, s.handler(s.reqCodec.parse(payload).value))
  {
    SizeOfFrame(payload, Frame(payload), 0);
  }

  /** A reply that is cut off is a network failure, whatever it would have said. */
  lemma CutReplyIsNetworkFailure<Req, Rsp>(s: Service<Req, Rsp>, status: ErrorCode, payload: seq<Byte>, cut: nat)
    requires s.Valid() && |payload| <= s.callerLimit && cut < |Envelope(status, payload)|
    ensures Received(s, Envelope(status, payload)[..cut]) == Err(0x03)
  {
    var e := Envelope(status, payload);
    EnvelopeParts(status, payload);
    if cut >= 4 {
      assert e[..cut][0..4] == e[0..4];
    }
  }

  /** A length below 4 or above the limit plus 4 is refused before anything else is read. */
  lemma BadLengthIsTooLarge<Req, Rsp>(s: Service<Req, Rsp>, stream: seq<Byte>)
    requires s.Valid() && |stream| >= 4
    requires SizeAt(stream, 0) < 4 || SizeAt(stream, 0) > s.callerLimit + 4
    ensures Received(s, stream) == Err(0x14)
  {
  }

  /** A frame that is cut off, or that the codec cannot parse, is an error and is not consumed. */
  lemma BadFrameFails<M>(c: Codec<M>, payload: seq<Byte>, cut: nat)
    requires |payload| < TWO_TO_32 - 4 && cut <= |Frame(payload)|
    ensures SizeFits(Frame(payload)[..cut], 0)
    ensures cut < |Frame(payload)| ==> Unframe(c, Frame(payload)[..cut], 0) == (Err(0x0C), 0)
    ensures cut == |Frame(payload)| && c.parse(payload).None? ==> Unframe(c, Frame(payload)[..cut], 0) == (Err(0x16), 0)
  {
    var frame := Frame(payload);
    SizeOfFrame(payload, frame, 0);
    assert cut >= 4 ==> frame[..cut][0..4] == frame[0..4];
    assert frame[..|frame|] == frame;
  }

  // ---- The layout on the wire ---------------------------------------------------------------------------

  /** The most significant byte comes first. */
  lemma NetworkIsBigEndian(n: nat)
    requires n < 0x1_0000_0000
    ensures Network(n) == [n / 0x100_0000, n / 0x1_0000 % 0x100, n / 0x100 % 0x100, n % 0x100]
    ensures FromNetwork(Network(n)) == n
  {
    NetworkRoundTrip(n);
    assert Weight(0) == 1 && Weight(1) == 0x100 && Weight(2) == 0x1_0000 && Weight(3) == 0x100_0000;
  }

  /** A negative status travels in two's complement. */
  lemma NegativeStatus(status: ErrorCode)
    ensures StatusToNetwork(status) == Network(if status < 0 then 0x1_0000_0000 + status else status)
    ensures StatusFromNetwork(StatusToNetwork(status)) == status
  {
    StatusRoundTrip(status);
  }
}
