/** The framing of device messages: a 30-byte header, a payload of any length, a 16-byte MAC. One
    datagram is one frame. Payload bodies are opaque bytes; whether the body coder of a message
    type accepts them is a parameter. */
module DeviceFrame {
  import opened Basics
  import opened Bytes
  import opened ByteBuffer
  import opened Text

  datatype MsgType =
    | Handshake | HandshakeResponse | RegisterRequest | RegisterResponse
    | ReadRequest | ReadResponse | WriteRequest | WriteResponse
    | ExecuteRequest | ExecuteResponse | ActionRequest | ActionResponse
    | Ack | Nack | SessionStartRequest
  {
    function Code(): byte {
      match this
      case Handshake => 0x00
      case HandshakeResponse => 0x01
      case RegisterRequest => 0x02
      case RegisterResponse => 0x03
      case ReadRequest => 0x0A
      case ReadResponse => 0x0B
      case WriteRequest => 0x14
      case WriteResponse => 0x15
      case ExecuteRequest => 0x1E
      case ExecuteResponse => 0x1F
      case ActionRequest => 0x28
      case ActionResponse => 0x29
      case Ack => 0xFF
      case Nack => 0xFE
      case SessionStartRequest => 0xF0
    }

    static function FromCode(code: nat): (r: Option<MsgType>)
      ensures r.Some? ==> r.value.Code() == code
    {
      match code
      case 0x00 => Some(Handshake)
      case 0x01 => Some(HandshakeResponse)
      case 0x02 => Some(RegisterRequest)
      case 0x03 => Some(RegisterResponse)
      case 0x0A => Some(ReadRequest)
      case 0x0B => Some(ReadResponse)
      case 0x14 => Some(WriteRequest)
      case 0x15 => Some(WriteResponse)
      case 0x1E => Some(ExecuteRequest)
      case 0x1F => Some(ExecuteResponse)
      case 0x28 => Some(ActionRequest)
      case 0x29 => Some(ActionResponse)
      case 0xFE => Some(Nack)
      case 0xFF => Some(Ack)
      case 0xF0 => Some(SessionStartRequest)
      case _ => None
    }
  }

  datatype Message = Message(
    version: nat, msgType: MsgType, deviceId: nat, sequence: nat, timestamp: nat, payload: seq<byte>, mac: nat)

  const HEADER_SIZE := 30
  const MAC_SIZE := 16
  const MIN_MSG_LEN := 46

  predicate InRange(m: Message) {
    && m.version < Range(1) && m.deviceId < Range(16) && m.sequence < Range(4)
    && m.timestamp < Range(8) && m.mac < Range(16)
  }

  function RawHeader(version: nat, code: byte, deviceId: nat, sequence: nat, timestamp: nat): (s: seq<byte>)
    ensures |s| == HEADER_SIZE
  {
    PutUint(version, 1) + ([code] + (PutUint(deviceId, 16) + (PutUint(sequence, 4) + PutUint(timestamp, 8))))
  }

  function Header(m: Message): seq<byte> {
    RawHeader(m.version, m.msgType.Code(), m.deviceId, m.sequence, m.timestamp)
  }

  function Frame(m: Message): seq<byte> {
    Header(m) + (m.payload + PutUint(m.mac, MAC_SIZE))
  }

  /** The body coder of a message type, reduced to whether it accepts the bytes. */
  type Bodies = (MsgType, seq<byte>) -> bool

  /** The packets the decoder accepts. */
  predicate IsFrame(bodies: Bodies, s: seq<byte>) {
    && |s| >= MIN_MSG_LEN
    && MsgType.FromCode(s[1]).Some?
    && bodies(MsgType.FromCode(s[1]).value, s[HEADER_SIZE .. |s| - MAC_SIZE])
  }

  datatype FrameError = TooShort | UnknownMsgType | InvalidBody

  datatype Decoded = NoMessage | Received(message: Message) | Failed(error: FrameError)

  /** MessageCodec::encode. */
  method EncodeFrame(m: Message, buf: Buffer)
    modifies buf
    ensures buf.data == old(buf.data) + Frame(m)
  {
    buf.Append(PutUint(m.version, 1));
    buf.Append([m.msgType.Code()]);
    buf.Append(PutUint(m.deviceId, 16));
    buf.Append(PutUint(m.sequence, 4));
    buf.Append(PutUint(m.timestamp, 8));
    assert buf.data == old(buf.data) + Header(m);
    buf.Append(m.payload);
    buf.Append(PutUint(m.mac, 16));
  }

  /** MessageCodec::decode. Whatever the buffer held, it is empty afterwards. A message comes out
      exactly for the packets that are frames, and it is the message whose frame was received. */
  method DecodeFrame(buf: Buffer, bodies: Bodies) returns (r: Decoded)
    modifies buf
    ensures buf.data == []
    ensures r.NoMessage? <==> old(buf.data) == []
    ensures r.Received? <==> IsFrame(bodies, old(buf.data))
    ensures r.Received? ==> Frame(r.message) == old(buf.data) && InRange(r.message)
    ensures r == Failed(TooShort) <==> 0 < |old(buf.data)| < MIN_MSG_LEN
    ensures r == Failed(UnknownMsgType) <==>
              |old(buf.data)| >= MIN_MSG_LEN && MsgType.FromCode(old(buf.data)[1]).None?
  {
    if |buf.data| < MIN_MSG_LEN {
      if buf.data != [] {
        buf.Clear();
        return Failed(TooShort);
      }
      return NoMessage;
    }
    var version, code, deviceId, sequence, timestamp := ReadHeader(buf);
    var payload, mac := ReadBody(buf);
    ghost var packet := old(buf.data);
    assert packet[HEADER_SIZE .. |packet| - MAC_SIZE] == payload;
    assert packet == packet[..HEADER_SIZE] + packet[HEADER_SIZE..];
    var msgType := MsgType.FromCode(code);
    if msgType.None? {
      buf.Clear();
      return Failed(UnknownMsgType);
    }
    if !bodies(msgType.value, payload) {
      buf.Clear();
      return Failed(InvalidBody);
    }
    r := Received(Message(version, msgType.value, deviceId, sequence, timestamp, payload, mac));
  }

  /** The thirty header bytes, field by field. */
  method ReadHeader(buf: Buffer) returns (version: nat, code: byte, deviceId: nat, sequence: nat, timestamp: nat)
    requires |buf.data| >= HEADER_SIZE
    modifies buf
    ensures buf.data == old(buf.data)[HEADER_SIZE..] && code == old(buf.data)[1]
    ensures version < Range(1) && deviceId < Range(16) && sequence < Range(4) && timestamp < Range(8)
    ensures old(buf.data)[..HEADER_SIZE] == RawHeader(version, code, deviceId, sequence, timestamp)
  {
    ghost var s0 := buf.data;
    version := buf.ReadUint(1);
    ghost var s1 := buf.data;
    CodeIsSecondByte(s0, s1);
    code := buf.ReadUint(1);
    ghost var s2 := buf.data;
    deviceId := buf.ReadUint(16);
    ghost var s3 := buf.data;
    sequence := buf.ReadUint(4);
    ghost var s4 := buf.data;
    timestamp := buf.ReadUint(8);
    ReadBack(s0, 1, version, s1);
    ReadBack(s2, 16, deviceId, s3);
    ReadBack(s3, 4, sequence, s4);
    ReadBack(s4, 8, timestamp, buf.data);
    HeaderOfParts(version, code, deviceId, sequence, timestamp, s0, s1, s2, s3, s4, buf.data);
  }

  /** What follows the header: all but the last sixteen bytes, then the MAC. */
  method ReadBody(buf: Buffer) returns (payload: seq<byte>, mac: nat)
    requires |buf.data| >= MAC_SIZE
    modifies buf
    ensures buf.data == [] && mac < Range(MAC_SIZE)
    ensures payload == old(buf.data)[..|old(buf.data)| - MAC_SIZE]
    ensures old(buf.data) == payload + PutUint(mac, MAC_SIZE)
  {
    ghost var s0 := buf.data;
    payload := buf.data[..|buf.data| - MAC_SIZE];
    buf.data := buf.data[|buf.data| - MAC_SIZE..];
    ghost var s1 := buf.data;
    mac := buf.ReadUint(MAC_SIZE);
    assert s0 == payload + s1;
    ReadBack(s1, MAC_SIZE, mac, []);
    assert s1 == PutUint(mac, MAC_SIZE);
  }

  lemma CodeIsSecondByte(s0: seq<byte>, s1: seq<byte>)
    requires |s0| >= 2 && s1 == s0[1..]
    ensures GetUint(s1, 1) == Ok(s0[1], s1[1..]) && s1 == [s0[1]] + s1[1..]
  {
    assert s1[..1] == [s0[1]];
    assert ValueOf([s0[1]]) == 256 * ValueOf([s0[1]][..0]) + s0[1];
  }

  lemma HeaderOfParts(version: nat, code: byte, deviceId: nat, sequence: nat, timestamp: nat,
                      s0: seq<byte>, s1: seq<byte>, s2: seq<byte>, s3: seq<byte>, s4: seq<byte>, s5: seq<byte>)
    requires s0 == PutUint(version, 1) + s1 && s1 == [code] + s2
    requires s2 == PutUint(deviceId, 16) + s3 && s3 == PutUint(sequence, 4) + s4 && s4 == PutUint(timestamp, 8) + s5
    ensures s0[..HEADER_SIZE] == RawHeader(version, code, deviceId, sequence, timestamp)
  {
    var t3 := PutUint(sequence, 4) + PutUint(timestamp, 8);
    var t2 := PutUint(deviceId, 16) + t3;
    var t1 := [code] + t2;
    Assoc(PutUint(version, 1), t1, s5);
    Assoc([code], t2, s5);
    Assoc(PutUint(deviceId, 16), t3, s5);
    Assoc(PutUint(sequence, 4), PutUint(timestamp, 8), s5);
    assert s0 == RawHeader(version, code, deviceId, sequence, timestamp) + s5;
  }

  /** Two messages with the same frame are the same message: with the contract of DecodeFrame this
      makes encoding and decoding inverse to each other. */
  lemma FrameIsInjective(a: Message, b: Message)
    requires InRange(a) && InRange(b) && Frame(a) == Frame(b)
    ensures a == b
  {
    HeaderRoundTrip(a, a.payload + PutUint(a.mac, MAC_SIZE));
    HeaderRoundTrip(b, b.payload + PutUint(b.mac, MAC_SIZE));
    var x := a.payload + PutUint(a.mac, MAC_SIZE);
    var y := b.payload + PutUint(b.mac, MAC_SIZE);
    assert x == y;
    assert x[..|x| - MAC_SIZE] == a.payload && y[..|y| - MAC_SIZE] == b.payload;
    assert x[|x| - MAC_SIZE..] == PutUint(a.mac, MAC_SIZE) && y[|y| - MAC_SIZE..] == PutUint(b.mac, MAC_SIZE);
    ValueOfPut(a.mac, MAC_SIZE);
    ValueOfPut(b.mac, MAC_SIZE);
  }

  /** The header fields, read from the front of s. */
  function Fields(s: seq<byte>): Read<(nat, nat, nat, nat, nat)> {
    var (version, s1) :- GetUint(s, 1);
    var (code, s2) :- GetUint(s1, 1);
    var (deviceId, s3) :- GetUint(s2, 16);
    var (sequence, s4) :- GetUint(s3, 4);
    var (timestamp, s5) :- GetUint(s4, 8);
    Ok((version, code, deviceId, sequence, timestamp), s5)
  }

  lemma HeaderRoundTrip(m: Message, tail: seq<byte>)
    requires InRange(m)
    ensures Fields(Header(m) + tail) == Ok((m.version, m.msgType.Code(), m.deviceId, m.sequence, m.timestamp), tail)
    ensures MsgType.FromCode(m.msgType.Code()) == Some(m.msgType)
  {
    var t4 := PutUint(m.timestamp, 8);
    var t3 := PutUint(m.sequence, 4) + t4;
    var t2 := PutUint(m.deviceId, 16) + t3;
    var t1 := [m.msgType.Code()] + t2;
    GetPutThen(m.version, 1, t1, tail);
    var s1 := t1 + tail;
    Assoc([m.msgType.Code()], t2, tail);
    CodeIsSecondByte([0] + s1, s1);
    GetPutThen(m.deviceId, 16, t3, tail);
    GetPutThen(m.sequence, 4, t4, tail);
    GetPut(m.timestamp, 8, tail);
  }

  /** A frame is always a packet of at least the minimum length, with the type in its second byte
      and the payload between header and MAC. */
  lemma FrameIsFrame(m: Message, bodies: Bodies)
    requires InRange(m)
    ensures IsFrame(bodies, Frame(m)) <==> bodies(m.msgType, m.payload)
  {
    var s := Frame(m);
    HeaderRoundTrip(m, m.payload + PutUint(m.mac, MAC_SIZE));
    assert Header(m)[1] == m.msgType.Code();
    assert s[HEADER_SIZE .. |s| - MAC_SIZE] == m.payload;
  }

  /** The code of each type, literally. */
  function TypeByte(t: MsgType): byte {
    match t
    case Handshake => 0
    case HandshakeResponse => 1
    case RegisterRequest => 2
    case RegisterResponse => 3
    case ReadRequest => 10
    case ReadResponse => 11
    case WriteRequest => 20
    case WriteResponse => 21
    case ExecuteRequest => 30
    case ExecuteResponse => 31
    case ActionRequest => 40
    case ActionResponse => 41
    case SessionStartRequest => 240
    case Nack => 254
    case Ack => 255
  }

  /** A frame by its fields: version, type, device, sequence number, timestamp, payload, MAC. */
  lemma FrameIsFields(m: Message)
    ensures Frame(m) == Flatten([PutUint(m.version, 1), [TypeByte(m.msgType)], PutUint(m.deviceId, 16),
                                 PutUint(m.sequence, 4), PutUint(m.timestamp, 8), m.payload, PutUint(m.mac, 16)])
  {
    var front := [PutUint(m.version, 1), [TypeByte(m.msgType)], PutUint(m.deviceId, 16)];
    var middle := [PutUint(m.sequence, 4), PutUint(m.timestamp, 8)];
    var back := [m.payload, PutUint(m.mac, 16)];
    FlattenThree(PutUint(m.version, 1), [TypeByte(m.msgType)], PutUint(m.deviceId, 16));
    FlattenPair(PutUint(m.sequence, 4), PutUint(m.timestamp, 8));
    FlattenPair(m.payload, PutUint(m.mac, 16));
    FlattenConcat(front, middle);
    FlattenConcat(front + middle, back);
    assert (front + middle) + back == [PutUint(m.version, 1), [TypeByte(m.msgType)], PutUint(m.deviceId, 16),
      PutUint(m.sequence, 4), PutUint(m.timestamp, 8), m.payload, PutUint(m.mac, 16)];
    Regroup(PutUint(m.version, 1), [TypeByte(m.msgType)], PutUint(m.deviceId, 16), Flatten(middle));
  }

  lemma FlattenPair(a: seq<byte>, b: seq<byte>)
    ensures Flatten([a, b]) == a + b
  {
    FlattenConcat([a], [b]);
    assert [a] + [b] == [a, b];
    assert a + [] == a && b + [] == b;
  }

  lemma FlattenThree(a: seq<byte>, b: seq<byte>, c: seq<byte>)
    ensures Flatten([a, b, c]) == a + (b + c)
  {
    FlattenConcat([a], [b, c]);
    assert [a] + [b, c] == [a, b, c];
    assert a + [] == a;
    FlattenPair(b, c);
  }

  lemma Regroup(a: seq<byte>, b: seq<byte>, c: seq<byte>, d: seq<byte>)
    ensures (a + (b + c)) + d == a + (b + (c + d))
  {
    Assoc(a, b + c, d);
    Assoc(b, c, d);
  }

  /** The decoder knows exactly these codes, each as its type. */
  lemma TypesByCode(code: byte, t: MsgType)
    ensures MsgType.FromCode(code) == Some(t) <==> code == TypeByte(t)
    ensures MsgType.FromCode(code).None? <==> code !in {0, 1, 2, 3, 10, 11, 20, 21, 30, 31, 40, 41, 240, 254, 255}
  {
  }

  /** Sending a message and decoding the datagram gives the message back, for every payload its
      body coder accepts. */
  method SendAndReceive(m: Message, bodies: Bodies) returns (r: Decoded)
    requires InRange(m) && bodies(m.msgType, m.payload)
    ensures r == Received(m)
  {
    var buf := new Buffer([]);
    EncodeFrame(m, buf);
    assert buf.data == Frame(m);
    FrameIsFrame(m, bodies);
    r := DecodeFrame(buf, bodies);
    FrameIsInjective(r.message, m);
  }
}
