/** Reading back what was written, payload by payload, in front of any further bytes. */
module ClusterRoundTrip {
  import opened Bytes
  import opened Address
  import opened Text
  import opened ClusterPayload

  lemma OneByte(b: byte, tail: seq<byte>)
    ensures GetUint([b] + tail, 1) == Ok(b, tail)
  {
    assert ([b] + tail)[..1] == [b];
    assert ([b] + tail)[1..] == tail;
    assert ValueOf([b]) == 256 * ValueOf([b][..0]) + b;
  }

  lemma LengthRoundTrip(n: nat, next: seq<byte>, tail: seq<byte>)
    requires n < MAX_LENGTH
    ensures GetUint((PutLength(n) + next) + tail, 2) == Ok(n, next + tail)
  {
    assert Range(2) == 256 * Range(1) && Range(1) == 256;
    GetPutThen(n, 2, next, tail);
  }

  lemma TextRoundTrip(t: seq<byte>, tail: seq<byte>)
    requires FitsText(t)
    ensures GetText(PutText(t) + tail) == Ok(t, tail)
  {
    LengthRoundTrip(|t|, t, tail);
    TakeAppend(t, tail);
  }

  lemma AddrFieldRoundTrip(x: SocketAddr, tail: seq<byte>)
    requires ValidAddr(x)
    ensures GetAddr(PutText(AddrText(x)) + tail) == Ok(x, tail)
  {
    AddrTextIsShortUtf8(x);
    TextRoundTrip(AddrText(x), tail);
    AddrRoundTrip(x);
  }

  lemma OptionalRoundTrip(t: Option<seq<byte>>, tail: seq<byte>)
    requires FitsOptional(t)
    ensures GetOptional(PutOptional(t) + tail) == Ok(t, tail)
  {
    match t
    case None => OneByte(0, tail);
    case Some(text) =>
      Assoc([1], PutText(text), tail);
      OneByte(1, PutText(text) + tail);
      TextRoundTrip(text, tail);
  }

  lemma StatusRoundTrip(status: NodeStatus, tail: seq<byte>)
    ensures GetStatus([status.Code()] + tail) == Ok(status, tail)
  {
    OneByte(status.Code(), tail);
  }

  lemma IdsRoundTrip(ids: seq<nat>, tail: seq<byte>)
    requires forall i :: 0 <= i < |ids| ==> ids[i] < Range(16)
    ensures GetMany(GetRawId, PutMany(PutId, ids) + tail, |ids|) == Ok(ids, tail)
  {
    forall i, t | 0 <= i < |ids| ensures GetRawId(PutId(ids[i]) + t) == Ok(ids[i], t) {
      GetPut(ids[i], 16, t);
    }
    ManyRoundTrip(PutId, GetRawId, ids, tail);
  }

  lemma {:induction false} IdsSize(ids: seq<nat>)
    ensures |PutMany(PutId, ids)| == 16 * |ids|
    decreases |ids|
  {
    if ids != [] {
      IdsSize(ids[1..]);
    }
  }

  lemma IdListRoundTrip(ids: seq<nat>, tail: seq<byte>)
    requires FitsIds(ids)
    ensures GetIdList((PutLength(|ids|) + PutMany(PutId, ids)) + tail) == Ok(ids, tail)
  {
    LengthRoundTrip(|ids|, PutMany(PutId, ids), tail);
    IdsRoundTrip(ids, tail);
    IdsSize(ids);
  }

  lemma SignedRoundTrip(n: int, tail: seq<byte>)
    requires FitsSigned(n, 8)
    ensures GetUint(PutSigned(n) + tail, 8) == Ok(n % Range(8), tail) && ToSigned(n % Range(8), 8) == n
  {
    GetPut(n % Range(8), 8, tail);
    assert n % Range(8) == if n < 0 then n + Range(8) else n;
  }

  lemma DeviceRoundTrip(d: DelegatedDevice, tail: seq<byte>)
    requires FitsDevice(d)
    ensures GetDevice(PutDevice(d) + tail) == Ok(d, tail)
  {
    var t3 := PutSigned(d.scheduleTime);
    var t2 := PutOptional(d.ipv6) + t3;
    var t1 := PutOptional(d.ipv4) + t2;
    GetPutThen(d.id, 16, t1, tail);
    Assoc(PutOptional(d.ipv4), t2, tail);
    OptionalRoundTrip(d.ipv4, t2 + tail);
    Assoc(PutOptional(d.ipv6), t3, tail);
    OptionalRoundTrip(d.ipv6, t3 + tail);
    SignedRoundTrip(d.scheduleTime, tail);
  }

  lemma DevicesRoundTrip(ds: seq<DelegatedDevice>, tail: seq<byte>)
    requires forall i :: 0 <= i < |ds| ==> FitsDevice(ds[i])
    ensures GetMany(GetDevice, PutMany(PutDevice, ds) + tail, |ds|) == Ok(ds, tail)
  {
    forall i, t | 0 <= i < |ds| ensures GetDevice(PutDevice(ds[i]) + t) == Ok(ds[i], t) {
      DeviceRoundTrip(ds[i], t);
    }
    ManyRoundTrip(PutDevice, GetDevice, ds, tail);
  }

  lemma NodeRoundTrip(n: KnownNode, tail: seq<byte>)
    requires FitsNode(n)
    ensures GetNode(PutNode(n) + tail) == Ok(n, tail)
  {
    var t4 := [n.status.Code()];
    var t3 := PutUint(n.backdoorPort, 2) + t4;
    var t2 := PutText(AddrText(n.addr)) + t3;
    var t1 := PutText(n.name) + t2;
    GetPutThen(n.id, 16, t1, tail);
    Assoc(PutText(n.name), t2, tail);
    TextRoundTrip(n.name, t2 + tail);
    Assoc(PutText(AddrText(n.addr)), t3, tail);
    AddrFieldRoundTrip(n.addr, t3 + tail);
    GetPutThen(n.backdoorPort, 2, t4, tail);
    StatusRoundTrip(n.status, tail);
  }

  lemma NodesRoundTrip(ns: seq<KnownNode>, tail: seq<byte>)
    requires forall i :: 0 <= i < |ns| ==> FitsNode(ns[i])
    ensures GetMany(GetNode, PutMany(PutNode, ns) + tail, |ns|) == Ok(ns, tail)
  {
    forall i, t | 0 <= i < |ns| ensures GetNode(PutNode(ns[i]) + t) == Ok(ns[i], t) {
      NodeRoundTrip(ns[i], t);
    }
    ManyRoundTrip(PutNode, GetNode, ns, tail);
  }

  lemma TailRoundTrip(ns: seq<KnownNode>, tail: seq<byte>)
    requires FitsNodes(ns)
    ensures GetTail((PutLength(|ns|) + PutMany(PutNode, ns)) + tail) == Ok(ns, tail)
  {
    LengthRoundTrip(|ns|, PutMany(PutNode, ns), tail);
    NodesRoundTrip(ns, tail);
  }

  /** The five load fields, read one after the other from the front of s. */
  ghost predicate ReadsLoad(s: seq<byte>, status: NodeStatus, b: nat, d: nat, l: nat, m: nat, tail: seq<byte>) {
    exists s1, s2, s3, s4 ::
      && GetStatus(s) == Ok(status, s1) && GetUint(s1, 2) == Ok(b, s2) && GetUint(s2, 4) == Ok(d, s3)
      && GetUint(s3, 1) == Ok(l, s4) && GetUint(s4, 4) == Ok(m, tail)
  }

  lemma LoadRoundTrip(status: NodeStatus, b: nat, d: nat, l: nat, m: nat, tail: seq<byte>)
    requires b < Range(2) && d < Range(4) && l < Range(1) && m < Range(4)
    ensures ReadsLoad(PutLoad(status, b, d, l, m) + tail, status, b, d, l, m, tail)
    ensures |PutLoad(status, b, d, l, m)| == 12
  {
    var t4 := PutUint(m, 4);
    var t3 := PutUint(l, 1) + t4;
    var t2 := PutUint(d, 4) + t3;
    var t1 := PutUint(b, 2) + t2;
    Assoc([status.Code()], t1, tail);
    StatusRoundTrip(status, t1 + tail);
    GetPutThen(b, 2, t2, tail);
    GetPutThen(d, 4, t3, tail);
    GetPutThen(l, 1, t4, tail);
    GetPut(m, 4, tail);
  }

  lemma HeartbeatRoundTrip(p: Payload, tail: seq<byte>)
    requires p.Heartbeat? && Fits(p)
    ensures GetHeartbeat(Put(p) + tail) == Ok(p, tail)
  {
    var ids := PutLength(|p.ids|) + PutMany(PutId, p.ids);
    Assoc(PutLoad(p.status, p.bucketCount, p.deviceCount, p.load, p.maxDevices), ids, tail);
    LoadRoundTrip(p.status, p.bucketCount, p.deviceCount, p.load, p.maxDevices, ids + tail);
    IdListRoundTrip(p.ids, tail);
  }

  /** HeartbeatPayload::encoded_size is the number of bytes a heartbeat payload takes. */
  lemma HeartbeatSize(p: Payload)
    requires p.Heartbeat? && Fits(p)
    ensures |Put(p)| == 14 + 16 * |p.ids|
  {
    LoadRoundTrip(p.status, p.bucketCount, p.deviceCount, p.load, p.maxDevices, []);
    IdsSize(p.ids);
  }

  lemma NodeJoinRoundTrip(p: Payload, tail: seq<byte>)
    requires p.NodeJoin? && Fits(p)
    ensures GetNodeJoin(Put(p) + tail) == Ok(p, tail)
  {
    var t2 := PutUint(p.backdoorPort, 2);
    var t1 := PutText(AddrText(p.addr)) + t2;
    Assoc(PutText(p.name), t1, tail);
    TextRoundTrip(p.name, t1 + tail);
    Assoc(PutText(AddrText(p.addr)), t2, tail);
    AddrFieldRoundTrip(p.addr, t2 + tail);
    GetPut(p.backdoorPort, 2, tail);
  }

  lemma ReasonRoundTrip(ds: seq<DelegatedDevice>, reason: DelegationReason, tail: seq<byte>)
    ensures GetReason(ds, [reason.Code()] + tail) == Ok(DelegateRequest(ds, reason), tail)
  {
    OneByte(reason.Code(), tail);
  }

  /** The count and the devices, in front of anything. */
  lemma CountedDevicesRoundTrip(ds: seq<DelegatedDevice>, next: seq<byte>, tail: seq<byte>)
    requires FitsDevices(ds)
    ensures var list := PutMany(PutDevice, ds);
            var s := (PutLength(|ds|) + (list + next)) + tail;
            && GetUint(s, 2) == Ok(|ds|, list + (next + tail))
            && GetMany(GetDevice, list + (next + tail), |ds|) == Ok(ds, next + tail)
  {
    var list := PutMany(PutDevice, ds);
    LengthRoundTrip(|ds|, list + next, tail);
    Assoc(list, next, tail);
    DevicesRoundTrip(ds, next + tail);
  }

  lemma DelegateRequestRoundTrip(p: Payload, tail: seq<byte>)
    requires p.DelegateRequest? && Fits(p)
    ensures GetDelegateRequest(Put(p) + tail) == Ok(p, tail)
  {
    CountedDevicesRoundTrip(p.devices, [p.reason.Code()], tail);
    ReasonRoundTrip(p.devices, p.reason, tail);
  }

  lemma DelegateAcceptRoundTrip(p: Payload, tail: seq<byte>)
    requires p.DelegateAccept? && Fits(p)
    ensures GetDelegateAccept(Put(p) + tail) == Ok(p, tail)
  {
    IdListRoundTrip(p.ids, tail);
  }

  lemma DelegateRejectRoundTrip(p: Payload, tail: seq<byte>)
    requires p.DelegateReject? && Fits(p)
    ensures GetDelegateReject(Put(p) + tail) == Ok(p, tail)
  {
    TextRoundTrip(p.text, tail);
  }

  lemma IdRoundTrip(id: nat, tail: seq<byte>)
    requires id < Range(16)
    ensures GetId(PutUint(id, 16) + tail) == Ok(id, tail)
  {
    GetPut(id, 16, tail);
  }

  lemma NodeSuspectRoundTrip(p: Payload, tail: seq<byte>)
    requires p.NodeSuspect? && Fits(p)
    ensures GetNodeSuspect(Put(p) + tail) == Ok(p, tail)
  {
    IdRoundTrip(p.id, tail);
  }

  lemma NodeDeadRoundTrip(p: Payload, tail: seq<byte>)
    requires p.NodeDead? && Fits(p)
    ensures GetNodeDead(Put(p) + tail) == Ok(p, tail)
  {
    IdRoundTrip(p.id, tail);
  }

  lemma ProbeRequestRoundTrip(p: Payload, tail: seq<byte>)
    requires p.ProbeRequest? && Fits(p)
    ensures GetProbeRequest(Put(p) + tail) == Ok(p, tail)
  {
    IdRoundTrip(p.id, tail);
  }

  lemma StatusNameRoundTrip(name: seq<byte>, tail: seq<byte>)
    requires FitsText(name) && |tail| >= 14
    ensures GetStatusName(PutText(name) + tail) == Ok(name, tail)
  {
    LengthRoundTrip(|name|, name, tail);
    TextRoundTrip(name, tail);
  }

  lemma StatusResponseRoundTrip(p: Payload, tail: seq<byte>)
    requires p.StatusResponse? && Fits(p)
    ensures GetStatusResponse(Put(p) + tail) == Ok(p, tail)
  {
    var t3 := PutLength(|p.nodes|) + PutMany(PutNode, p.nodes);
    var t2 := PutUint(p.backdoorPort, 2) + t3;
    var t1 := PutLoad(p.status, p.bucketCount, p.deviceCount, p.load, p.maxDevices) + t2;
    LoadRoundTrip(p.status, p.bucketCount, p.deviceCount, p.load, p.maxDevices, t2 + tail);
    Assoc(PutText(p.name), t1, tail);
    StatusNameRoundTrip(p.name, t1 + tail);
    Assoc(PutLoad(p.status, p.bucketCount, p.deviceCount, p.load, p.maxDevices), t2, tail);
    GetPutThen(p.backdoorPort, 2, t3, tail);
    TailRoundTrip(p.nodes, tail);
  }

  /** A status response written before the list of known nodes existed: the same bytes without the
      final count and list. */
  function PutLegacyStatus(p: Payload): seq<byte>
    requires p.StatusResponse?
  {
    PutText(p.name) +
    (PutLoad(p.status, p.bucketCount, p.deviceCount, p.load, p.maxDevices) + PutUint(p.backdoorPort, 2))
  }

  /** Backward compatibility: such a message, followed by at most one stray byte, is read with an
      empty list. */
  lemma LegacyStatusIsRead(p: Payload, stray: seq<byte>)
    requires p.StatusResponse? && p.nodes == [] && Fits(p) && |stray| < 2
    ensures GetStatusResponse(PutLegacyStatus(p) + stray) == Ok(p, stray)
  {
    var t2 := PutUint(p.backdoorPort, 2);
    var t1 := PutLoad(p.status, p.bucketCount, p.deviceCount, p.load, p.maxDevices) + t2;
    LoadRoundTrip(p.status, p.bucketCount, p.deviceCount, p.load, p.maxDevices, t2 + stray);
    Assoc(PutText(p.name), t1, stray);
    StatusNameRoundTrip(p.name, t1 + stray);
    Assoc(PutLoad(p.status, p.bucketCount, p.deviceCount, p.load, p.maxDevices), t2, stray);
    GetPut(p.backdoorPort, 2, stray);
  }

  lemma ConfigUpdateRoundTrip(p: Payload, tail: seq<byte>)
    requires p.ConfigUpdate? && Fits(p)
    ensures GetConfigUpdate(Put(p) + tail) == Ok(p, tail)
  {
    var t2 := PutText(p.text);
    var t1 := PutText(p.key) + t2;
    GetPutThen(p.id, 16, t1, tail);
    Assoc(PutText(p.key), t2, tail);
    TextRoundTrip(p.key, t2 + tail);
    TextRoundTrip(p.text, tail);
  }

  lemma ConfigUpdateAckRoundTrip(p: Payload, tail: seq<byte>)
    requires p.ConfigUpdateAck? && Fits(p)
    ensures GetConfigUpdateAck(Put(p) + tail) == Ok(p, tail)
  {
    var t2 := PutOptional(p.error);
    var t1 := PutFlag(p.flag) + t2;
    GetPutThen(p.id, 16, t1, tail);
    Assoc(PutFlag(p.flag), t2, tail);
    OneByte(PutFlag(p.flag)[0], t2 + tail);
    OptionalRoundTrip(p.error, tail);
  }

  lemma ProbeResponseRoundTrip(p: Payload, tail: seq<byte>)
    requires p.ProbeResponse? && Fits(p)
    ensures GetProbeResponse(Put(p) + tail) == Ok(p, tail)
  {
    GetPutThen(p.id, 16, PutFlag(p.flag), tail);
    OneByte(PutFlag(p.flag)[0], tail);
  }
}
