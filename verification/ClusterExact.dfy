/** The decoder on arbitrary bytes: for the types without optional parts, what it accepts is exactly
    what the encoder writes, so it is the inverse of the encoder in both directions. */
module ClusterExact {
  import opened Bytes
  import opened Text
  import opened ClusterPayload
  import opened ClusterCodec
  import ClusterRoundTrip
  import ClusterDecode

  /** The types whose payload has one form only. The others have flags that are read as zero unless
      they are one, addresses with several texts, or a list that may be missing. */
  predicate IsStrict(t: MessageType) {
    t in {HeartbeatMsg, HeartbeatAckMsg, StatusRequestMsg, NodeLeaveMsg, NodeSuspectMsg, NodeDeadMsg, ProbeRequestMsg,
          DelegateAcceptMsg, DelegateRejectMsg, ConfigUpdateMsg}
  }

  /** The payload was read from the bytes it is written as. */
  ghost predicate FromItsBytes(s: seq<byte>, r: Read<Payload>) {
    r.Ok? ==> s == Put(r.value) + r.rest
  }

  lemma LengthExact(s: seq<byte>)
    requires |s| >= 2
    ensures GetUint(s, 2).Ok? && s == PutLength(GetUint(s, 2).value) + GetUint(s, 2).rest
  {
    var n := GetUint(s, 2).value;
    ReadBack(s, 2, n, GetUint(s, 2).rest);
    assert Range(2) == 256 * Range(1) && Range(1) == 256;
    assert n % MAX_LENGTH == n;
  }

  lemma TextExact(s: seq<byte>)
    ensures GetText(s).Ok? ==> s == PutText(GetText(s).value) + GetText(s).rest
  {
    if |s| >= 2 && GetText(s).Ok? {
      LengthExact(s);
      var n, s1 := GetUint(s, 2).value, GetUint(s, 2).rest;
      assert s1 == s1[..n] + s1[n..];
      Assoc(PutLength(n), s1[..n], s1[n..]);
    }
  }

  lemma IdsExact(s: seq<byte>)
    ensures GetIdList(s).Ok? ==>
              var ids := GetIdList(s).value; s == (PutLength(|ids|) + PutMany(PutId, ids)) + GetIdList(s).rest
  {
    if |s| >= 2 && GetIdList(s).Ok? {
      LengthExact(s);
      var n, s1 := GetUint(s, 2).value, GetUint(s, 2).rest;
      forall t ensures GetRawId(t).Ok? ==> t == PutId(GetRawId(t).value) + GetRawId(t).rest {
        if GetRawId(t).Ok? {
          ReadBack(t, 16, GetRawId(t).value, GetRawId(t).rest);
        }
      }
      ManyExact(PutId, GetRawId, s1, n);
      Assoc(PutLength(n), PutMany(PutId, GetIdList(s).value), GetIdList(s).rest);
    }
  }

  lemma StatusExact(s: seq<byte>)
    ensures GetStatus(s).Ok? ==> s == [GetStatus(s).value.Code()] + GetStatus(s).rest
  {
    if s != [] {
      ClusterDecode.OneByteValue(s);
      assert s == [s[0]] + s[1..];
    }
  }

  /** Five written parts, put together. */
  lemma FiveParts(a: seq<byte>, b: seq<byte>, c: seq<byte>, d: seq<byte>, e: seq<byte>, rest: seq<byte>)
    ensures a + (b + (c + (d + (e + rest)))) == (a + (b + (c + (d + e)))) + rest
  {
    Assoc(a, b + (c + (d + e)), rest);
    Assoc(b, c + (d + e), rest);
    Assoc(c, d + e, rest);
    Assoc(d, e, rest);
  }

  lemma HeartbeatExact(s: seq<byte>)
    ensures FromItsBytes(s, GetHeartbeat(s))
  {
    var r := GetHeartbeat(s);
    if r.Ok? {
      StatusExact(s);
      var s1 := GetStatus(s).rest;
      var s2 := s1[2..];
      var s3 := s2[4..];
      var s4 := s3[1..];
      var s5 := s4[4..];
      var p := r.value;
      ReadBack(s1, 2, p.bucketCount, s2);
      ReadBack(s2, 4, p.deviceCount, s3);
      ReadBack(s3, 1, p.load, s4);
      ReadBack(s4, 4, p.maxDevices, s5);
      IdsExact(s5);
      var ids := PutLength(|p.ids|) + PutMany(PutId, p.ids);
      FiveParts([p.status.Code()], PutUint(p.bucketCount, 2), PutUint(p.deviceCount, 4), PutUint(p.load, 1),
                PutUint(p.maxDevices, 4), s5);
      Assoc(PutLoad(p.status, p.bucketCount, p.deviceCount, p.load, p.maxDevices), ids, r.rest);
    }
  }

  lemma IdExact(s: seq<byte>)
    ensures GetId(s).Ok? ==> s == PutUint(GetId(s).value, 16) + GetId(s).rest
  {
    if GetId(s).Ok? {
      ReadBack(s, 16, GetId(s).value, GetId(s).rest);
    }
  }

  lemma TwoTextsExact(s: seq<byte>)
    requires GetText(s).Ok? && GetText(GetText(s).rest).Ok?
    ensures var second := GetText(GetText(s).rest);
            s == (PutText(GetText(s).value) + PutText(second.value)) + second.rest
  {
    TextExact(s);
    TextExact(GetText(s).rest);
    var second := GetText(GetText(s).rest);
    Assoc(PutText(GetText(s).value), PutText(second.value), second.rest);
  }

  lemma IdAndTextsExact(s: seq<byte>)
    requires |s| >= 16 && GetText(s[16..]).Ok? && GetText(GetText(s[16..]).rest).Ok?
    ensures var first := GetText(s[16..]);
            var second := GetText(first.rest);
            s == (PutUint(ValueOf(s[..16]), 16) + (PutText(first.value) + PutText(second.value))) + second.rest
  {
    var first := GetText(s[16..]);
    var second := GetText(first.rest);
    ReadBack(s, 16, ValueOf(s[..16]), s[16..]);
    TwoTextsExact(s[16..]);
    Assoc(PutUint(ValueOf(s[..16]), 16), PutText(first.value) + PutText(second.value), second.rest);
  }

  lemma ConfigUpdateExact(s: seq<byte>)
    ensures FromItsBytes(s, GetConfigUpdate(s))
  {
    if GetConfigUpdate(s).Ok? {
      IdAndTextsExact(s);
    }
  }

  lemma SuspectExact(s: seq<byte>)
    ensures FromItsBytes(s, GetNodeSuspect(s))
  {
    IdExact(s);
  }

  lemma DeadExact(s: seq<byte>)
    ensures FromItsBytes(s, GetNodeDead(s))
  {
    IdExact(s);
  }

  lemma ProbeRequestExact(s: seq<byte>)
    ensures FromItsBytes(s, GetProbeRequest(s))
  {
    IdExact(s);
  }

  lemma AcceptExact(s: seq<byte>)
    ensures FromItsBytes(s, GetDelegateAccept(s))
  {
    IdsExact(s);
  }

  lemma RejectExact(s: seq<byte>)
    ensures FromItsBytes(s, GetDelegateReject(s))
  {
    TextExact(s);
  }

  lemma EmptyExact(t: MessageType, s: seq<byte>)
    requires t in {HeartbeatAckMsg, StatusRequestMsg, NodeLeaveMsg}
    ensures FromItsBytes(s, GetPayload(t, s))
  {
    assert Put(Empty) + s == s;
  }

  lemma PayloadExact(t: MessageType, s: seq<byte>)
    requires IsStrict(t)
    ensures FromItsBytes(s, GetPayload(t, s))
  {
    match t
    case HeartbeatMsg => HeartbeatExact(s);
    case NodeSuspectMsg => SuspectExact(s);
    case NodeDeadMsg => DeadExact(s);
    case ProbeRequestMsg => ProbeRequestExact(s);
    case DelegateAcceptMsg => AcceptExact(s);
    case DelegateRejectMsg => RejectExact(s);
    case ConfigUpdateMsg => ConfigUpdateExact(s);
    case _ => EmptyExact(t, s);
  }

  lemma TypeIsSecondByte(s: seq<byte>)
    requires |s| >= HEADER_SIZE && GetHeader(s).Ok?
    ensures s[1] == GetHeader(s).value.msgType.Code()
  {
    HeaderOfBytes(s);
    TypeCodesAreInverse(GetHeader(s).value.msgType, s[1]);
  }

  lemma HeaderExact(s: seq<byte>)
    ensures GetHeader(s).Ok? ==> s == PutHeader(GetHeader(s).value) + GetHeader(s).rest
  {
    if |s| >= HEADER_SIZE && GetHeader(s).Ok? {
      var m := GetHeader(s).value;
      var s1 := s[1..];
      var s2 := s1[1..];
      var s3 := s2[16..];
      var s4 := s3[4..];
      var s5 := s4[8..];
      ReadBack(s, 1, m.version, s1);
      TypeIsSecondByte(s);
      assert s1 == [m.msgType.Code()] + s2;
      ReadBack(s2, 16, m.nodeId, s3);
      ReadBack(s3, 4, m.sequence, s4);
      ReadBack(s4, 8, m.timestamp, s5);
      FiveParts(PutUint(m.version, 1), [m.msgType.Code()], PutUint(m.nodeId, 16), PutUint(m.sequence, 4),
                PutUint(m.timestamp, 8), s5);
    }
  }

  /** For the strict types decoding is exactly the inverse of encoding: bytes decode to a message and a
      rest if and only if they are its encoding followed by that rest. */
  lemma DecodeIffEncoded(s: seq<byte>, m: Message, rest: seq<byte>)
    requires IsStrict(m.msgType)
    ensures Decode(s) == Ok(Some(m), rest) <==> WellFormed(m) && s == Encode(m) + rest
  {
    if Decode(s) == Ok(Some(m), rest) {
      DecodedIsWellFormed(s);
      HeaderExact(s);
      var s1 := GetHeader(s).rest;
      PayloadExact(m.msgType, s1);
      assert PutHeader(GetHeader(s).value) == PutHeader(m);
      Assoc(PutHeader(m), Put(m.payload), rest);
    } else if WellFormed(m) && s == Encode(m) + rest {
      RoundTrip(m, rest);
    }
  }

  /** The fifteen message codes. */
  predicate IsTypeCode(b: byte) {
    b in {0x01, 0x02, 0x10, 0x11, 0x20, 0x21, 0x22, 0x30, 0x31, 0x40, 0x41, 0x50, 0x51, 0x60, 0x61}
  }

  /** The outcome without a message: none for no bytes, an error for too few, and an error for a code
      that is not one of the fifteen. */
  lemma DecodeErrors(s: seq<byte>)
    ensures Decode(s) == Ok(None, []) <==> s == []
    ensures 0 < |s| < 30 ==> Decode(s) == Err(InvalidLength)
    ensures |s| >= 30 && !IsTypeCode(s[1]) ==> Decode(s) == Err(UnknownMessageType)
  {
    if |s| >= 30 {
      HeaderOfBytes(s);
    }
  }
}
