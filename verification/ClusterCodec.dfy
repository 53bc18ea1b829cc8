/** Cluster messages: header, dispatch on the message type, and the codec that works on a buffer. */
module ClusterCodec {
  import opened Bytes
  import opened Address
  import opened Text
  import opened ClusterPayload
  import ClusterRoundTrip
  import ClusterDecode

  datatype MessageType =
    | HeartbeatMsg | HeartbeatAckMsg | StatusRequestMsg | StatusResponseMsg
    | DelegateRequestMsg | DelegateAcceptMsg | DelegateRejectMsg
    | NodeJoinMsg | NodeLeaveMsg | NodeSuspectMsg | NodeDeadMsg
    | ProbeRequestMsg | ProbeResponseMsg | ConfigUpdateMsg | ConfigUpdateAckMsg
  {
    function Code(): byte {
      match this
      case HeartbeatMsg => 0x01
      case HeartbeatAckMsg => 0x02
      case StatusRequestMsg => 0x10
      case StatusResponseMsg => 0x11
      case DelegateRequestMsg => 0x20
      case DelegateAcceptMsg => 0x21
      case DelegateRejectMsg => 0x22
      case NodeJoinMsg => 0x30
      case NodeLeaveMsg => 0x31
      case NodeSuspectMsg => 0x40
      case NodeDeadMsg => 0x41
      case ProbeRequestMsg => 0x50
      case ProbeResponseMsg => 0x51
      case ConfigUpdateMsg => 0x60
      case ConfigUpdateAckMsg => 0x61
    }

    static function FromCode(code: nat): Option<MessageType> {
      match code
      case 0x01 => Some(HeartbeatMsg)
      case 0x02 => Some(HeartbeatAckMsg)
      case 0x10 => Some(StatusRequestMsg)
      case 0x11 => Some(StatusResponseMsg)
      case 0x20 => Some(DelegateRequestMsg)
      case 0x21 => Some(DelegateAcceptMsg)
      case 0x22 => Some(DelegateRejectMsg)
      case 0x30 => Some(NodeJoinMsg)
      case 0x31 => Some(NodeLeaveMsg)
      case 0x40 => Some(NodeSuspectMsg)
      case 0x41 => Some(NodeDeadMsg)
      case 0x50 => Some(ProbeRequestMsg)
      case 0x51 => Some(ProbeResponseMsg)
      case 0x60 => Some(ConfigUpdateMsg)
      case 0x61 => Some(ConfigUpdateAckMsg)
      case _ => None
    }
  }

  /** The codes are a bijection onto the fifteen values FromCode accepts. */
  lemma TypeCodesAreInverse(t: MessageType, code: nat)
    ensures MessageType.FromCode(t.Code()) == Some(t)
    ensures MessageType.FromCode(code) == Some(t) <==> code == t.Code()
  {
  }

  datatype Message = Message(
    version: nat, msgType: MessageType, nodeId: nat, sequence: nat, timestamp: nat, payload: Payload)

  const HEADER_SIZE := 30

  /** The payload that goes with each message type. */
  predicate Carries(t: MessageType, p: Payload) {
    match t
    case HeartbeatMsg => p.Heartbeat?
    case StatusResponseMsg => p.StatusResponse?
    case DelegateRequestMsg => p.DelegateRequest?
    case DelegateAcceptMsg => p.DelegateAccept?
    case DelegateRejectMsg => p.DelegateReject?
    case NodeJoinMsg => p.NodeJoin?
    case NodeSuspectMsg => p.NodeSuspect?
    case NodeDeadMsg => p.NodeDead?
    case ProbeRequestMsg => p.ProbeRequest?
    case ProbeResponseMsg => p.ProbeResponse?
    case ConfigUpdateMsg => p.ConfigUpdate?
    case ConfigUpdateAckMsg => p.ConfigUpdateAck?
    case HeartbeatAckMsg => p.Empty?
    case StatusRequestMsg => p.Empty?
    case NodeLeaveMsg => p.Empty?
  }

  predicate WellFormed(m: Message) {
    && m.version < Range(1) && m.nodeId < Range(16) && m.sequence < Range(4) && m.timestamp < Range(8)
    && Carries(m.msgType, m.payload) && Fits(m.payload)
  }

  function PutHeader(m: Message): (s: seq<byte>)
    ensures |s| == HEADER_SIZE
  {
    PutUint(m.version, 1) +
    ([m.msgType.Code()] + (PutUint(m.nodeId, 16) + (PutUint(m.sequence, 4) + PutUint(m.timestamp, 8))))
  }

  function Encode(m: Message): seq<byte> {
    PutHeader(m) + Put(m.payload)
  }

  /** The message type is looked up after the whole header has been read. */
  function GetHeader(s: seq<byte>): Read<Message> {
    var (_, s0) :- Need(s, HEADER_SIZE);
    var (version, s1) :- GetUint(s0, 1);
    var (code, s2) :- GetUint(s1, 1);
    var (nodeId, s3) :- GetUint(s2, 16);
    var (sequence, s4) :- GetUint(s3, 4);
    var (timestamp, s5) :- GetUint(s4, 8);
    var t := MessageType.FromCode(code);
    if t.Some? then Ok(Message(version, t.value, nodeId, sequence, timestamp, Empty), s5)
    else Err(UnknownMessageType)
  }

  function GetPayload(t: MessageType, s: seq<byte>): Read<Payload> {
    match t
    case HeartbeatMsg => GetHeartbeat(s)
    case StatusResponseMsg => GetStatusResponse(s)
    case DelegateRequestMsg => GetDelegateRequest(s)
    case DelegateAcceptMsg => GetDelegateAccept(s)
    case DelegateRejectMsg => GetDelegateReject(s)
    case NodeJoinMsg => GetNodeJoin(s)
    case NodeSuspectMsg => GetNodeSuspect(s)
    case NodeDeadMsg => GetNodeDead(s)
    case ProbeRequestMsg => GetProbeRequest(s)
    case ProbeResponseMsg => GetProbeResponse(s)
    case ConfigUpdateMsg => GetConfigUpdate(s)
    case ConfigUpdateAckMsg => GetConfigUpdateAck(s)
    case HeartbeatAckMsg => Ok(Empty, s)
    case StatusRequestMsg => Ok(Empty, s)
    case NodeLeaveMsg => Ok(Empty, s)
  }

  /** The result of the decoder on a whole buffer: no message on an empty one. */
  function Decode(s: seq<byte>): Read<Option<Message>> {
    if s == [] then Ok(None, [])
    else
      var (m, s1) :- GetHeader(s);
      var (p, s2) :- GetPayload(m.msgType, s1);
      Ok(Some(m.(payload := p)), s2)
  }

  // ----- Round trip -----

  lemma HeaderRoundTrip(m: Message, tail: seq<byte>)
    requires m.version < Range(1) && m.nodeId < Range(16) && m.sequence < Range(4) && m.timestamp < Range(8)
    ensures GetHeader(PutHeader(m) + tail) == Ok(m.(payload := Empty), tail)
  {
    var t4 := PutUint(m.timestamp, 8);
    var t3 := PutUint(m.sequence, 4) + t4;
    var t2 := PutUint(m.nodeId, 16) + t3;
    var t1 := [m.msgType.Code()] + t2;
    GetPutThen(m.version, 1, t1, tail);
    Assoc([m.msgType.Code()], t2, tail);
    ClusterRoundTrip.OneByte(m.msgType.Code(), t2 + tail);
    GetPutThen(m.nodeId, 16, t3, tail);
    GetPutThen(m.sequence, 4, t4, tail);
    GetPut(m.timestamp, 8, tail);
    TypeCodesAreInverse(m.msgType, 0);
  }

  /** The messages about devices and configuration. */
  predicate AboutDevices(t: MessageType) {
    t in {DelegateRequestMsg, DelegateAcceptMsg, DelegateRejectMsg, ConfigUpdateMsg, ConfigUpdateAckMsg}
  }

  lemma DevicePayloadRoundTrip(t: MessageType, p: Payload, tail: seq<byte>)
    requires Carries(t, p) && Fits(p) && AboutDevices(t)
    ensures GetPayload(t, Put(p) + tail) == Ok(p, tail)
  {
    if t == DelegateRequestMsg {
      ClusterRoundTrip.DelegateRequestRoundTrip(p, tail);
    } else if t == DelegateAcceptMsg {
      ClusterRoundTrip.DelegateAcceptRoundTrip(p, tail);
    } else if t == DelegateRejectMsg {
      ClusterRoundTrip.DelegateRejectRoundTrip(p, tail);
    } else if t == ConfigUpdateMsg {
      ClusterRoundTrip.ConfigUpdateRoundTrip(p, tail);
    } else {
      ClusterRoundTrip.ConfigUpdateAckRoundTrip(p, tail);
    }
  }

  lemma NodePayloadRoundTrip(t: MessageType, p: Payload, tail: seq<byte>)
    requires Carries(t, p) && Fits(p) && t in {HeartbeatMsg, StatusResponseMsg, NodeJoinMsg, ProbeResponseMsg}
    ensures GetPayload(t, Put(p) + tail) == Ok(p, tail)
  {
    if t == HeartbeatMsg {
      ClusterRoundTrip.HeartbeatRoundTrip(p, tail);
    } else if t == StatusResponseMsg {
      ClusterRoundTrip.StatusResponseRoundTrip(p, tail);
    } else if t == NodeJoinMsg {
      ClusterRoundTrip.NodeJoinRoundTrip(p, tail);
    } else {
      ClusterRoundTrip.ProbeResponseRoundTrip(p, tail);
    }
  }

  lemma IdPayloadRoundTrip(t: MessageType, p: Payload, tail: seq<byte>)
    requires Carries(t, p) && Fits(p) && t in {NodeSuspectMsg, NodeDeadMsg, ProbeRequestMsg}
    ensures GetPayload(t, Put(p) + tail) == Ok(p, tail)
  {
    if t == NodeSuspectMsg {
      ClusterRoundTrip.NodeSuspectRoundTrip(p, tail);
    } else if t == NodeDeadMsg {
      ClusterRoundTrip.NodeDeadRoundTrip(p, tail);
    } else {
      ClusterRoundTrip.ProbeRequestRoundTrip(p, tail);
    }
  }

  lemma EmptyRoundTrip(t: MessageType, tail: seq<byte>)
    requires Carries(t, Empty)
    ensures GetPayload(t, Put(Empty) + tail) == Ok(Empty, tail)
  {
    assert Put(Empty) + tail == tail;
  }

  lemma PayloadRoundTrip(t: MessageType, p: Payload, tail: seq<byte>)
    requires Carries(t, p) && Fits(p)
    ensures GetPayload(t, Put(p) + tail) == Ok(p, tail)
  {
    if AboutDevices(t) {
      DevicePayloadRoundTrip(t, p, tail);
    } else if t in {HeartbeatMsg, StatusResponseMsg, NodeJoinMsg, ProbeResponseMsg} {
      NodePayloadRoundTrip(t, p, tail);
    } else if t in {NodeSuspectMsg, NodeDeadMsg, ProbeRequestMsg} {
      IdPayloadRoundTrip(t, p, tail);
    } else {
      EmptyRoundTrip(t, tail);
    }
  }

  /** Decoding an encoded message in front of any bytes gives the message and leaves the bytes. */
  lemma RoundTrip(m: Message, tail: seq<byte>)
    requires WellFormed(m)
    ensures Decode(Encode(m) + tail) == Ok(Some(m), tail)
  {
    Assoc(PutHeader(m), Put(m.payload), tail);
    HeaderRoundTrip(m, Put(m.payload) + tail);
    PayloadRoundTrip(m.msgType, m.payload, tail);
  }

  /** The payloads on which reading panics. */
  predicate PayloadCut(t: MessageType, s: seq<byte>) {
    (t == DelegateRequestMsg && ClusterDecode.RequestCut(s)) || (t == ConfigUpdateAckMsg && ClusterDecode.AckCut(s))
  }

  lemma DevicePayloadFits(t: MessageType, s: seq<byte>)
    requires AboutDevices(t)
    ensures GetPayload(t, s).Ok? ==> Carries(t, GetPayload(t, s).value) && Fits(GetPayload(t, s).value)
    ensures GetPayload(t, s).Panic? <==> PayloadCut(t, s)
  {
    if t == DelegateRequestMsg {
      ClusterDecode.DelegateRequestFits(s);
    } else if t == DelegateAcceptMsg {
      ClusterDecode.DelegateAcceptFits(s);
    } else if t == DelegateRejectMsg {
      ClusterDecode.DelegateRejectFits(s);
    } else if t == ConfigUpdateMsg {
      ClusterDecode.ConfigUpdateFits(s);
    } else {
      ClusterDecode.ConfigUpdateAckFits(s);
    }
  }

  /** The payloads that are empty or one identifier. */
  lemma PlainPayloadFits(t: MessageType, s: seq<byte>)
    requires t in {NodeSuspectMsg, NodeDeadMsg, ProbeRequestMsg, HeartbeatAckMsg, StatusRequestMsg, NodeLeaveMsg}
    ensures GetPayload(t, s).Ok? ==> Carries(t, GetPayload(t, s).value) && Fits(GetPayload(t, s).value)
    ensures !GetPayload(t, s).Panic?
  {
    if t == NodeSuspectMsg {
      ClusterDecode.NodeSuspectFits(s);
    } else if t == NodeDeadMsg {
      ClusterDecode.NodeDeadFits(s);
    } else if t == ProbeRequestMsg {
      ClusterDecode.ProbeRequestFits(s);
    }
  }

  /** Whatever the payload reader returns belongs to the message type and fits the format; and the
      exact payloads on which it panics. */
  lemma PayloadFits(t: MessageType, s: seq<byte>)
    ensures GetPayload(t, s).Ok? ==> Carries(t, GetPayload(t, s).value) && Fits(GetPayload(t, s).value)
    ensures GetPayload(t, s).Panic? <==> PayloadCut(t, s)
  {
    if AboutDevices(t) {
      DevicePayloadFits(t, s);
    } else if t == HeartbeatMsg {
      ClusterDecode.HeartbeatFits(s);
    } else if t == StatusResponseMsg {
      ClusterDecode.StatusResponseFits(s);
    } else if t == NodeJoinMsg {
      ClusterDecode.NodeJoinFits(s);
    } else if t == ProbeResponseMsg {
      ClusterDecode.ProbeResponseFits(s);
    } else {
      PlainPayloadFits(t, s);
    }
  }

  lemma HeaderFits(s: seq<byte>)
    ensures GetHeader(s).Ok? ==>
              && GetHeader(s).value.version < Range(1) && GetHeader(s).value.nodeId < Range(16)
              && GetHeader(s).value.sequence < Range(4) && GetHeader(s).value.timestamp < Range(8)
    ensures !GetHeader(s).Panic?
  {
    if |s| >= HEADER_SIZE {
      ClusterDecode.UintFits(s, 1);
      ClusterDecode.UintFits(s[1..], 1);
      ClusterDecode.UintFits(s[1..][1..], 16);
      ClusterDecode.UintFits(s[1..][1..][16..], 4);
      ClusterDecode.UintFits(s[1..][1..][16..][4..], 8);
    }
  }

  lemma HeaderOfBytes(s: seq<byte>)
    requires |s| >= HEADER_SIZE
    ensures GetHeader(s).Ok? <==> MessageType.FromCode(s[1]).Some?
    ensures GetHeader(s).Ok? ==>
              GetHeader(s).value.msgType == MessageType.FromCode(s[1]).value && GetHeader(s).rest == s[HEADER_SIZE..]
  {
    ClusterDecode.UintFits(s, 1);
    var s1 := s[1..];
    assert GetUint(s1, 1) == Ok(s[1], s1[1..]) by {
      assert s1[..1] == [s[1]];
      assert ValueOf([s[1]]) == 256 * ValueOf([s[1]][..0]) + s[1];
    }
    assert s1[1..][16..][4..][8..] == s[HEADER_SIZE..];
  }

  /** The datagrams on which decoding panics: a delegation request with a device that is cut short, or
      a configuration acknowledgement that announces an error text and ends before its length. */
  predicate DatagramCut(s: seq<byte>) {
    && |s| >= HEADER_SIZE
    && (|| (s[1] == 0x20 && ClusterDecode.RequestCut(s[HEADER_SIZE..]))
        || (s[1] == 0x61 && |s| in {48, 49} && s[47] == 1))
  }

  /** Decoding panics exactly on those datagrams. */
  lemma DecodePanicsIff(s: seq<byte>)
    ensures Decode(s).Panic? <==> DatagramCut(s)
  {
    if |s| >= HEADER_SIZE {
      HeaderOfBytes(s);
      TypeCodesAreInverse(DelegateRequestMsg, s[1]);
      TypeCodesAreInverse(ConfigUpdateAckMsg, s[1]);
      if GetHeader(s).Ok? {
        PayloadFits(GetHeader(s).value.msgType, s[HEADER_SIZE..]);
      }
    }
  }

  /** Every message the decoder returns is well formed, on any input; and the exact inputs without a
      result. */
  lemma DecodedIsWellFormed(s: seq<byte>)
    ensures Decode(s).Ok? && Decode(s).value.Some? ==> WellFormed(Decode(s).value.value)
    ensures Decode(s).Panic? <==> DatagramCut(s)
  {
    DecodePanicsIff(s);
    HeaderFits(s);
    if GetHeader(s).Ok? {
      PayloadFits(GetHeader(s).value.msgType, GetHeader(s).rest);
    }
  }

  /** A text of seven ASCII bytes after its flag and length is read to the end. */
  lemma OptionalOfText(text: seq<byte>)
    requires |text| == 7 && forall i :: 0 <= i < 7 ==> text[i] < 0x80
    ensures GetOptional([1, 0, 7] + text) == Ok(Some(text), [])
  {
    AsciiIsUtf8(text);
    assert PutLength(7) == [0, 7] by {
      assert PutUint(7, 2) == PutUint(0, 1) + [7] && PutUint(0, 1) == [0];
    }
    assert PutOptional(Some(text)) + [] == [1, 0, 7] + text;
    ClusterRoundTrip.OptionalRoundTrip(Some(text), []);
  }

  /** A device that ends after its first address. */
  function CutDevice(): seq<byte> {
    seq(16, _ => 0) + ([1, 0, 7] + [49, 46, 49, 46, 49, 46, 49])
  }

  /** A request that announces one device and holds that one. */
  function CutRequest(): seq<byte> {
    [1, 0x20] + (seq(28, _ => 0) + ([0, 1] + CutDevice()))
  }

  lemma CutDeviceIsCut()
    ensures ClusterDecode.DeviceCut(CutDevice())
  {
    assert CutDevice()[16..] == [1, 0, 7] + [49, 46, 49, 46, 49, 46, 49];
    OptionalOfText([49, 46, 49, 46, 49, 46, 49]);
  }

  lemma CutRequestIsCut()
    ensures ClusterDecode.RequestCut([0, 1] + CutDevice())
  {
    var s := [0, 1] + CutDevice();
    assert s[2..] == CutDevice();
    CutDeviceIsCut();
    assert GetMany(GetDevice, s[2..], 0) == Ok([], s[2..]);
    assert ClusterDecode.CutAt(s[2..], 0);
  }

  /** Such a datagram of 58 bytes makes the decoder panic. */
  lemma CutRequestPanics()
    ensures |CutRequest()| == 58 && Decode(CutRequest()).Panic?
  {
    assert DatagramCut(CutRequest()) by {
      assert CutRequest()[HEADER_SIZE..] == [0, 1] + CutDevice();
      CutRequestIsCut();
    }
    DecodePanicsIff(CutRequest());
  }

  /** Whatever datagram a message was decoded from, encoding it again and decoding gives the same
      message and the same rest. */
  lemma ReencodingIsStable(s: seq<byte>)
    requires Decode(s).Ok? && Decode(s).value.Some?
    ensures Decode(Encode(Decode(s).value.value) + Decode(s).rest) == Decode(s)
  {
    DecodedIsWellFormed(s);
    RoundTrip(Decode(s).value.value, Decode(s).rest);
  }

  /** A message survives the trip exactly when its numbers and lengths fit and its payload is the
      one for its type. In particular a list or string of 65536 items or more never does, because
      its length is written modulo 65536. */
  lemma RoundTripIff(m: Message, tail: seq<byte>)
    ensures Decode(Encode(m) + tail) == Ok(Some(m), tail) <==> WellFormed(m)
  {
    if WellFormed(m) {
      RoundTrip(m, tail);
    } else {
      DecodedIsWellFormed(Encode(m) + tail);
    }
  }

  /** No encoding is a prefix of another message's encoding, and different messages have different
      encodings. */
  lemma EncodingIsPrefixFree(a: Message, b: Message, x: seq<byte>, y: seq<byte>)
    requires WellFormed(a) && WellFormed(b)
    requires Encode(a) + x == Encode(b) + y
    ensures a == b && x == y
  {
    RoundTrip(a, x);
    RoundTrip(b, y);
  }
}
