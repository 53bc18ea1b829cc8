/** The wire format as a flat list of fields in order, with literal codes and sizes. It is written
    without the encoders; every encoded message is exactly the concatenation of its fields. */
module WireLayout {
  import opened Basics
  import opened Bytes
  import opened Address
  import opened Text
  import opened ClusterPayload
  import opened ClusterCodec

  type Fields = seq<seq<byte>>

  // ----- Numbers -----

  lemma DivDiv(n: nat, b: nat)
    requires b > 0
    ensures n / 256 / b == n / (256 * b)
  {
    var q, r := n / 256 / b, n / 256 % b;
    assert n / 256 == b * q + r;
    var low := 256 * r + n % 256;
    assert n == (256 * b) * q + low by {
      Spread(b, q);
    }
    QuotientOf(q, 256 * b, low, n);
  }

  lemma Spread(b: nat, q: nat)
    ensures 256 * (b * q) == (256 * b) * q
  {
  }

  lemma QuotientOf(q: nat, m: nat, r: nat, n: nat)
    requires r < m && n == m * q + r
    ensures n / m == q
  {
    var p := n / m;
    assert n == m * p + n % m;
    if p < q {
      MulGap(p, q, m);
    } else if q < p {
      MulGap(q, p, m);
    }
  }

  /** Numbers are big-endian: byte i of k is the digit of weight 256 to the k - 1 - i. */
  lemma {:induction false} DigitOfNumber(n: nat, k: nat, i: nat)
    requires i < k
    ensures PutUint(n, k)[i] == n / Range(k - 1 - i) % 256
    decreases k
  {
    if i == k - 1 {
      assert Range(0) == 1;
    } else {
      DigitOfNumber(n / 256, k - 1, i);
      DivDiv(n, Range(k - 2 - i));
    }
  }

  /** Two bytes, the high one first. */
  function TwoBytes(n: nat): seq<byte> { [n / 256 % 256, n % 256] }

  lemma LengthIsTwoBytes(n: nat)
    requires n < 0x1_0000
    ensures PutLength(n) == TwoBytes(n)
  {
    var m := n % MAX_LENGTH;
    assert m == n;
    assert PutUint(m, 2) == PutUint(m / 256, 1) + [m % 256];
    assert PutUint(m / 256, 1) == PutUint(m / 256 / 256, 0) + [m / 256 % 256];
  }

  /** Two's complement in eight bytes. */
  function Signed(n: int): seq<byte> {
    if n >= 0 then PutUint(n, 8)
    else if n >= -0x8000_0000_0000_0000 then PutUint(n + 0x1_0000_0000_0000_0000, 8)
    else []
  }

  lemma EightBytes()
    ensures Range(8) == 0x1_0000_0000_0000_0000
  {
    assert Range(2) == 256 * Range(1) && Range(1) == 256 * Range(0);
    assert Range(4) == 256 * Range(3) && Range(3) == 256 * Range(2);
    assert Range(6) == 256 * Range(5) && Range(5) == 256 * Range(4);
    assert Range(8) == 256 * Range(7) && Range(7) == 256 * Range(6);
  }

  lemma SignedIsWritten(n: int)
    requires FitsSigned(n, 8)
    ensures PutSigned(n) == Signed(n)
  {
    EightBytes();
    assert n % Range(8) == if n < 0 then n + Range(8) else n;
  }

  // ----- Codes -----

  function StatusByte(status: NodeStatus): byte {
    match status
    case Starting => 1
    case Active => 2
    case Draining => 3
    case Suspect => 4
    case Dead => 5
  }

  function ReasonByte(reason: DelegationReason): byte {
    match reason
    case Overload => 1
    case Shutdown => 2
    case Rebalance => 3
    case NodeFailure => 4
  }

  function TypeByte(t: MessageType): byte {
    match t
    case HeartbeatMsg => 0x01
    case HeartbeatAckMsg => 0x02
    case StatusRequestMsg => 0x10
    case StatusResponseMsg => 0x11
    case DelegateRequestMsg => 0x20
    case DelegateAcceptMsg => 0x21
    case DelegateRejectMsg => 0x22
    case NodeJoinMsg => 0x30
    case NodeLeaveMsg => 0x31
    case NodeSuspectMsg => 0x40
    case NodeDeadMsg => 0x41
    case ProbeRequestMsg => 0x50
    case ProbeResponseMsg => 0x51
    case ConfigUpdateMsg => 0x60
    case ConfigUpdateAckMsg => 0x61
  }

  // ----- Fields -----

  function TextFields(t: seq<byte>): Fields { [TwoBytes(|t|), t] }

  function OptionalFields(t: Option<seq<byte>>): Fields {
    if t.Some? then [[1], TwoBytes(|t.value|), t.value] else [[0]]
  }

  function FlagByte(b: bool): byte { if b then 1 else 0 }

  /** Status, buckets, devices, load, maximum. */
  function LoadFields(status: NodeStatus, buckets: nat, devices: nat, load: nat, max: nat): Fields {
    [[StatusByte(status)], PutUint(buckets, 2), PutUint(devices, 4), PutUint(load, 1), PutUint(max, 4)]
  }

  /** The fields of each item, one item after the other. */
  function EachOf<T>(fields: T -> Fields, items: seq<T>): Fields {
    if items == [] then [] else fields(items[0]) + EachOf(fields, items[1..])
  }

  function IdFields(id: nat): Fields { [PutUint(id, 16)] }

  /** Identifier, IPv4 address, IPv6 address, time. */
  function DeviceFields(d: DelegatedDevice): Fields {
    [PutUint(d.id, 16)] + (OptionalFields(d.ipv4) + (OptionalFields(d.ipv6) + [Signed(d.scheduleTime)]))
  }

  /** Identifier, name, address, port, status. */
  function NodeFields(n: KnownNode): Fields {
    [PutUint(n.id, 16)] +
    (TextFields(n.name) + (TextFields(AddrText(n.addr)) + [PutUint(n.backdoorPort, 2), [StatusByte(n.status)]]))
  }

  function PayloadFields(p: Payload): Fields {
    match p
    case Empty => []
    case Heartbeat(status, b, d, l, m, ids) =>
      LoadFields(status, b, d, l, m) + ([TwoBytes(|ids|)] + EachOf(IdFields, ids))
    case NodeJoin(name, addr, port) => TextFields(name) + (TextFields(AddrText(addr)) + [PutUint(port, 2)])
    case NodeSuspect(id) => [PutUint(id, 16)]
    case NodeDead(id) => [PutUint(id, 16)]
    case DelegateRequest(ds, reason) => [TwoBytes(|ds|)] + (EachOf(DeviceFields, ds) + [[ReasonByte(reason)]])
    case DelegateAccept(ids) => [TwoBytes(|ids|)] + EachOf(IdFields, ids)
    case DelegateReject(text) => TextFields(text)
    case StatusResponse(name, status, b, d, l, m, port, nodes) =>
      TextFields(name) +
      (LoadFields(status, b, d, l, m) + ([PutUint(port, 2)] + ([TwoBytes(|nodes|)] + EachOf(NodeFields, nodes))))
    case ProbeRequest(id) => [PutUint(id, 16)]
    case ProbeResponse(id, alive) => [PutUint(id, 16), [FlagByte(alive)]]
    case ConfigUpdate(id, key, text) => [PutUint(id, 16)] + (TextFields(key) + TextFields(text))
    case ConfigUpdateAck(id, success, error) => [PutUint(id, 16), [FlagByte(success)]] + OptionalFields(error)
  }

  /** Version, type, node, sequence number, timestamp. */
  function HeaderFields(m: Message): Fields {
    [PutUint(m.version, 1), [TypeByte(m.msgType)], PutUint(m.nodeId, 16), PutUint(m.sequence, 4),
     PutUint(m.timestamp, 8)]
  }

  function MessageFields(m: Message): Fields { HeaderFields(m) + PayloadFields(m.payload) }

  // ----- The encoders write these fields -----

  lemma FlattenOne(a: seq<byte>)
    ensures Flatten([a]) == a
  {
    assert a + [] == a;
  }

  lemma FlattenTwo(a: seq<byte>, b: seq<byte>)
    ensures Flatten([a, b]) == a + b
  {
    FlattenConcat([a], [b]);
    FlattenOne(a);
    FlattenOne(b);
    assert [a] + [b] == [a, b];
  }

  /** A first field, then the others. */
  lemma FlattenFirst(a: seq<byte>, more: Fields)
    ensures Flatten([a] + more) == a + Flatten(more)
  {
    FlattenConcat([a], more);
    FlattenOne(a);
  }

  lemma TextIsWritten(t: seq<byte>)
    requires |t| < MAX_LENGTH
    ensures Flatten(TextFields(t)) == PutText(t)
  {
    LengthIsTwoBytes(|t|);
    FlattenTwo(TwoBytes(|t|), t);
  }

  lemma OptionalIsWritten(t: Option<seq<byte>>)
    requires FitsOptional(t)
    ensures Flatten(OptionalFields(t)) == PutOptional(t)
  {
    match t
    case None => FlattenOne([0]);
    case Some(text) =>
      TextIsWritten(text);
      assert OptionalFields(t) == [[1]] + TextFields(text);
      FlattenFirst([1], TextFields(text));
  }

  lemma FlattenFive(a: seq<byte>, b: seq<byte>, c: seq<byte>, d: seq<byte>, e: seq<byte>)
    ensures Flatten([a, b, c, d, e]) == a + (b + (c + (d + e)))
  {
    assert [a, b, c, d, e] == [a] + ([b] + ([c] + [d, e]));
    FlattenFirst(a, [b] + ([c] + [d, e]));
    FlattenFirst(b, [c] + [d, e]);
    FlattenFirst(c, [d, e]);
    FlattenTwo(d, e);
  }

  lemma LoadIsWritten(status: NodeStatus, b: nat, d: nat, l: nat, m: nat)
    ensures Flatten(LoadFields(status, b, d, l, m)) == PutLoad(status, b, d, l, m)
  {
    FlattenFive([StatusByte(status)], PutUint(b, 2), PutUint(d, 4), PutUint(l, 1), PutUint(m, 4));
  }

  lemma {:induction false} EachIsWritten<T>(fields: T -> Fields, put: T -> seq<byte>, items: seq<T>)
    requires forall i :: 0 <= i < |items| ==> Flatten(fields(items[i])) == put(items[i])
    ensures Flatten(EachOf(fields, items)) == PutMany(put, items)
    decreases |items|
  {
    if items != [] {
      EachIsWritten(fields, put, items[1..]);
      FlattenConcat(fields(items[0]), EachOf(fields, items[1..]));
    }
  }

  lemma IdsAreWritten(ids: seq<nat>)
    requires |ids| < MAX_LENGTH
    ensures Flatten([TwoBytes(|ids|)] + EachOf(IdFields, ids)) == PutLength(|ids|) + PutMany(PutId, ids)
  {
    LengthIsTwoBytes(|ids|);
    forall i | 0 <= i < |ids| ensures Flatten(IdFields(ids[i])) == PutId(ids[i]) {
      FlattenOne(PutUint(ids[i], 16));
    }
    EachIsWritten(IdFields, PutId, ids);
    FlattenFirst(TwoBytes(|ids|), EachOf(IdFields, ids));
  }

  lemma DeviceIsWritten(d: DelegatedDevice)
    requires FitsDevice(d)
    ensures Flatten(DeviceFields(d)) == PutDevice(d)
  {
    SignedIsWritten(d.scheduleTime);
    var v4, v6, time := OptionalFields(d.ipv4), OptionalFields(d.ipv6), [Signed(d.scheduleTime)];
    FlattenFirst(PutUint(d.id, 16), v4 + (v6 + time));
    FlattenConcat(v4, v6 + time);
    FlattenConcat(v6, time);
    OptionalIsWritten(d.ipv4);
    OptionalIsWritten(d.ipv6);
    FlattenOne(Signed(d.scheduleTime));
  }

  lemma DevicesAreWritten(ds: seq<DelegatedDevice>)
    requires forall i :: 0 <= i < |ds| ==> FitsDevice(ds[i])
    ensures Flatten(EachOf(DeviceFields, ds)) == PutMany(PutDevice, ds)
  {
    forall i | 0 <= i < |ds| ensures Flatten(DeviceFields(ds[i])) == PutDevice(ds[i]) {
      DeviceIsWritten(ds[i]);
    }
    EachIsWritten(DeviceFields, PutDevice, ds);
  }

  lemma NodeIsWritten(n: KnownNode)
    requires FitsNode(n)
    ensures Flatten(NodeFields(n)) == PutNode(n)
  {
    var text := AddrText(n.addr);
    AddrTextIsShortUtf8(n.addr);
    var end := [PutUint(n.backdoorPort, 2), [StatusByte(n.status)]];
    FlattenFirst(PutUint(n.id, 16), TextFields(n.name) + (TextFields(text) + end));
    FlattenConcat(TextFields(n.name), TextFields(text) + end);
    FlattenConcat(TextFields(text), end);
    TextIsWritten(n.name);
    TextIsWritten(text);
    FlattenTwo(PutUint(n.backdoorPort, 2), [StatusByte(n.status)]);
  }

  lemma NodesAreWritten(ns: seq<KnownNode>)
    requires FitsNodes(ns)
    ensures Flatten([TwoBytes(|ns|)] + EachOf(NodeFields, ns)) == PutLength(|ns|) + PutMany(PutNode, ns)
  {
    LengthIsTwoBytes(|ns|);
    forall i | 0 <= i < |ns| ensures Flatten(NodeFields(ns[i])) == PutNode(ns[i]) {
      NodeIsWritten(ns[i]);
    }
    EachIsWritten(NodeFields, PutNode, ns);
    FlattenFirst(TwoBytes(|ns|), EachOf(NodeFields, ns));
  }

  lemma HeartbeatIsWritten(p: Payload)
    requires p.Heartbeat? && Fits(p)
    ensures Flatten(PayloadFields(p)) == Put(p)
  {
    var load := LoadFields(p.status, p.bucketCount, p.deviceCount, p.load, p.maxDevices);
    FlattenConcat(load, [TwoBytes(|p.ids|)] + EachOf(IdFields, p.ids));
    LoadIsWritten(p.status, p.bucketCount, p.deviceCount, p.load, p.maxDevices);
    IdsAreWritten(p.ids);
  }

  lemma NodeJoinIsWritten(p: Payload)
    requires p.NodeJoin? && Fits(p)
    ensures Flatten(PayloadFields(p)) == Put(p)
  {
    var text, port := AddrText(p.addr), PutUint(p.backdoorPort, 2);
    AddrTextIsShortUtf8(p.addr);
    FlattenConcat(TextFields(p.name), TextFields(text) + [port]);
    FlattenConcat(TextFields(text), [port]);
    TextIsWritten(p.name);
    TextIsWritten(text);
    FlattenOne(port);
  }

  lemma DelegateRequestIsWritten(p: Payload)
    requires p.DelegateRequest? && Fits(p)
    ensures Flatten(PayloadFields(p)) == Put(p)
  {
    var list, reason := EachOf(DeviceFields, p.devices), [ReasonByte(p.reason)];
    LengthIsTwoBytes(|p.devices|);
    FlattenFirst(TwoBytes(|p.devices|), list + [reason]);
    FlattenConcat(list, [reason]);
    DevicesAreWritten(p.devices);
    FlattenOne(reason);
  }

  lemma StatusResponseIsWritten(p: Payload)
    requires p.StatusResponse? && Fits(p)
    ensures Flatten(PayloadFields(p)) == Put(p)
  {
    var load := LoadFields(p.status, p.bucketCount, p.deviceCount, p.load, p.maxDevices);
    var nodes := [TwoBytes(|p.nodes|)] + EachOf(NodeFields, p.nodes);
    var port := PutUint(p.backdoorPort, 2);
    FlattenConcat(TextFields(p.name), load + ([port] + nodes));
    FlattenConcat(load, [port] + nodes);
    FlattenFirst(port, nodes);
    TextIsWritten(p.name);
    LoadIsWritten(p.status, p.bucketCount, p.deviceCount, p.load, p.maxDevices);
    NodesAreWritten(p.nodes);
  }

  lemma ConfigUpdateIsWritten(p: Payload)
    requires p.ConfigUpdate? && Fits(p)
    ensures Flatten(PayloadFields(p)) == Put(p)
  {
    FlattenFirst(PutUint(p.id, 16), TextFields(p.key) + TextFields(p.text));
    FlattenConcat(TextFields(p.key), TextFields(p.text));
    TextIsWritten(p.key);
    TextIsWritten(p.text);
  }

  lemma ConfigUpdateAckIsWritten(p: Payload)
    requires p.ConfigUpdateAck? && Fits(p)
    ensures Flatten(PayloadFields(p)) == Put(p)
  {
    var flag, error := [FlagByte(p.flag)], OptionalFields(p.error);
    assert PayloadFields(p) == [PutUint(p.id, 16)] + ([flag] + error);
    FlattenFirst(PutUint(p.id, 16), [flag] + error);
    FlattenFirst(flag, error);
    OptionalIsWritten(p.error);
  }

  lemma PlainIsWritten(p: Payload)
    requires Fits(p) && (p.Empty? || p.NodeSuspect? || p.NodeDead? || p.ProbeRequest? || p.ProbeResponse?)
    ensures Flatten(PayloadFields(p)) == Put(p)
  {
    if p.ProbeResponse? {
      FlattenTwo(PutUint(p.id, 16), [FlagByte(p.flag)]);
    } else if !p.Empty? {
      FlattenOne(PutUint(p.id, 16));
    }
  }

  /** Every payload is written as its fields, in this order and with these codes. */
  lemma PayloadIsWritten(p: Payload)
    requires Fits(p)
    ensures Flatten(PayloadFields(p)) == Put(p)
  {
    match p
    case Heartbeat(_, _, _, _, _, _) => HeartbeatIsWritten(p);
    case NodeJoin(_, _, _) => NodeJoinIsWritten(p);
    case DelegateRequest(_, _) => DelegateRequestIsWritten(p);
    case DelegateAccept(ids) => IdsAreWritten(ids);
    case DelegateReject(text) => TextIsWritten(text);
    case StatusResponse(_, _, _, _, _, _, _, _) => StatusResponseIsWritten(p);
    case ConfigUpdate(_, _, _) => ConfigUpdateIsWritten(p);
    case ConfigUpdateAck(_, _, _) => ConfigUpdateAckIsWritten(p);
    case _ => PlainIsWritten(p);
  }

  lemma HeaderIsWritten(m: Message)
    ensures Flatten(HeaderFields(m)) == PutHeader(m)
  {
    FlattenFive(PutUint(m.version, 1), [TypeByte(m.msgType)], PutUint(m.nodeId, 16), PutUint(m.sequence, 4),
                PutUint(m.timestamp, 8));
  }

  /** An encoded message is exactly its fields, one after the other. */
  lemma EncodingIsFields(m: Message)
    requires WellFormed(m)
    ensures Encode(m) == Flatten(MessageFields(m))
  {
    FlattenConcat(HeaderFields(m), PayloadFields(m.payload));
    HeaderIsWritten(m);
    PayloadIsWritten(m.payload);
  }

  /** Field i lies after the fields before it. */
  lemma FieldLies(m: Message, i: nat)
    requires WellFormed(m) && i < |MessageFields(m)|
    ensures var pos, field := |Flatten(MessageFields(m)[..i])|, MessageFields(m)[i];
            pos + |field| <= |Encode(m)| && Encode(m)[pos..pos + |field|] == field
  {
    EncodingIsFields(m);
    FlattenAt(MessageFields(m), i);
  }

  lemma FivePositions(a: seq<byte>, b: seq<byte>, c: seq<byte>, d: seq<byte>, e: seq<byte>, rest: seq<byte>)
    requires |a| == 1 && |b| == 1 && |c| == 16 && |d| == 4 && |e| == 8
    ensures var s := (a + (b + (c + (d + e)))) + rest;
            && |s| >= 30 && s[0] == a[0] && s[1] == b[0]
            && s[2..18] == c && s[18..22] == d && s[22..30] == e
  {
  }

  /** The header by positions. */
  lemma HeaderPositions(m: Message)
    requires WellFormed(m)
    ensures |Encode(m)| >= 30
    ensures Encode(m)[0] == m.version && Encode(m)[1] == TypeByte(m.msgType)
    ensures Encode(m)[2..18] == PutUint(m.nodeId, 16)
    ensures Encode(m)[18..22] == PutUint(m.sequence, 4)
    ensures Encode(m)[22..30] == PutUint(m.timestamp, 8)
  {
    HeaderIsWritten(m);
    FlattenFive(PutUint(m.version, 1), [TypeByte(m.msgType)], PutUint(m.nodeId, 16), PutUint(m.sequence, 4),
                PutUint(m.timestamp, 8));
    FivePositions(PutUint(m.version, 1), [TypeByte(m.msgType)], PutUint(m.nodeId, 16), PutUint(m.sequence, 4),
                  PutUint(m.timestamp, 8), Put(m.payload));
    VersionByte(m.version);
  }

  lemma VersionByte(n: nat)
    requires n < Range(1)
    ensures PutUint(n, 1)[0] == n
  {
    assert Range(1) == 256 * Range(0);
    DigitOfNumber(n, 1, 0);
  }

  /** The second byte tells the type, and nothing but the type. */
  lemma SecondByteIsType(m: Message)
    requires WellFormed(m)
    ensures |Encode(m)| >= 30
    ensures Encode(m)[1] == 0x01 <==> m.msgType == HeartbeatMsg
    ensures Encode(m)[1] == 0x02 <==> m.msgType == HeartbeatAckMsg
    ensures Encode(m)[1] == 0x10 <==> m.msgType == StatusRequestMsg
    ensures Encode(m)[1] == 0x11 <==> m.msgType == StatusResponseMsg
    ensures Encode(m)[1] == 0x20 <==> m.msgType == DelegateRequestMsg
    ensures Encode(m)[1] == 0x21 <==> m.msgType == DelegateAcceptMsg
    ensures Encode(m)[1] == 0x22 <==> m.msgType == DelegateRejectMsg
    ensures Encode(m)[1] == 0x30 <==> m.msgType == NodeJoinMsg
    ensures Encode(m)[1] == 0x31 <==> m.msgType == NodeLeaveMsg
    ensures Encode(m)[1] == 0x40 <==> m.msgType == NodeSuspectMsg
    ensures Encode(m)[1] == 0x41 <==> m.msgType == NodeDeadMsg
    ensures Encode(m)[1] == 0x50 <==> m.msgType == ProbeRequestMsg
    ensures Encode(m)[1] == 0x51 <==> m.msgType == ProbeResponseMsg
    ensures Encode(m)[1] == 0x60 <==> m.msgType == ConfigUpdateMsg
    ensures Encode(m)[1] == 0x61 <==> m.msgType == ConfigUpdateAckMsg
  {
    HeaderPositions(m);
  }
}
