/** Payloads of the cluster protocol and their wire form. Writers give the bytes a payload adds to
    the buffer; readers take the buffer and return the value with the bytes left over. */
module ClusterPayload {
  import opened Bytes
  import opened Address
  import opened Text

  // ----- Codes -----

  datatype NodeStatus = Starting | Active | Draining | Suspect | Dead {
    function Code(): byte {
      match this
      case Starting => 1
      case Active => 2
      case Draining => 3
      case Suspect => 4
      case Dead => 5
    }

    static function FromCode(code: nat): (r: Option<NodeStatus>)
      ensures r.Some? ==> r.value.Code() == code
    {
      match code
      case 1 => Some(Starting)
      case 2 => Some(Active)
      case 3 => Some(Draining)
      case 4 => Some(Suspect)
      case 5 => Some(Dead)
      case _ => None
    }
  }

  datatype DelegationReason = Overload | Shutdown | Rebalance | NodeFailure {
    function Code(): byte {
      match this
      case Overload => 1
      case Shutdown => 2
      case Rebalance => 3
      case NodeFailure => 4
    }

    static function FromCode(code: nat): (r: Option<DelegationReason>)
      ensures r.Some? ==> r.value.Code() == code
    {
      match code
      case 1 => Some(Overload)
      case 2 => Some(Shutdown)
      case 3 => Some(Rebalance)
      case 4 => Some(NodeFailure)
      case _ => None
    }
  }

  // ----- Payloads -----

  datatype DelegatedDevice = DelegatedDevice(
    id: nat, ipv4: Option<seq<byte>>, ipv6: Option<seq<byte>>, scheduleTime: int)

  datatype KnownNode = KnownNode(id: nat, name: seq<byte>, addr: SocketAddr, backdoorPort: nat, status: NodeStatus)

  datatype Payload =
    | Empty
    | Heartbeat(status: NodeStatus, bucketCount: nat, deviceCount: nat, load: nat, maxDevices: nat, ids: seq<nat>)
    | NodeJoin(name: seq<byte>, addr: SocketAddr, backdoorPort: nat)
    | NodeSuspect(id: nat)
    | NodeDead(id: nat)
    | DelegateRequest(devices: seq<DelegatedDevice>, reason: DelegationReason)
    | DelegateAccept(ids: seq<nat>)
    | DelegateReject(text: seq<byte>)
    | StatusResponse(name: seq<byte>, status: NodeStatus, bucketCount: nat, deviceCount: nat, load: nat,
                     maxDevices: nat, backdoorPort: nat, nodes: seq<KnownNode>)
    | ProbeRequest(id: nat)
    | ProbeResponse(id: nat, flag: bool)
    | ConfigUpdate(id: nat, key: seq<byte>, text: seq<byte>)
    | ConfigUpdateAck(id: nat, flag: bool, error: Option<seq<byte>>)

  // What a payload must satisfy to survive the trip: numbers within their Rust types, strings
  // valid UTF-8, and lengths within the sixteen bits of their prefix.

  const MAX_LENGTH := 0x1_0000

  predicate FitsText(t: seq<byte>) { |t| < MAX_LENGTH && IsUtf8(t) }

  predicate FitsOptional(t: Option<seq<byte>>) { t.Some? ==> FitsText(t.value) }

  predicate FitsDevice(d: DelegatedDevice) {
    d.id < Range(16) && FitsOptional(d.ipv4) && FitsOptional(d.ipv6) && FitsSigned(d.scheduleTime, 8)
  }

  predicate FitsNode(n: KnownNode) {
    n.id < Range(16) && FitsText(n.name) && ValidAddr(n.addr) && n.backdoorPort < Range(2)
  }

  predicate FitsIds(ids: seq<nat>) { |ids| < MAX_LENGTH && forall i :: 0 <= i < |ids| ==> ids[i] < Range(16) }

  predicate FitsDevices(ds: seq<DelegatedDevice>) {
    |ds| < MAX_LENGTH && forall i :: 0 <= i < |ds| ==> FitsDevice(ds[i])
  }

  predicate FitsNodes(ns: seq<KnownNode>) { |ns| < MAX_LENGTH && forall i :: 0 <= i < |ns| ==> FitsNode(ns[i]) }

  predicate Fits(p: Payload) {
    match p
    case Empty => true
    case Heartbeat(_, b, d, l, m, ids) => b < Range(2) && d < Range(4) && l < Range(1) && m < Range(4) && FitsIds(ids)
    case NodeJoin(name, addr, port) => FitsText(name) && ValidAddr(addr) && port < Range(2)
    case NodeSuspect(id) => id < Range(16)
    case NodeDead(id) => id < Range(16)
    case DelegateRequest(ds, _) => FitsDevices(ds)
    case DelegateAccept(ids) => FitsIds(ids)
    case DelegateReject(text) => FitsText(text)
    case StatusResponse(name, _, b, d, l, m, port, nodes) =>
      && FitsText(name) && b < Range(2) && d < Range(4) && l < Range(1) && m < Range(4) && port < Range(2)
      && FitsNodes(nodes)
    case ProbeRequest(id) => id < Range(16)
    case ProbeResponse(id, _) => id < Range(16)
    case ConfigUpdate(id, key, text) => id < Range(16) && FitsText(key) && FitsText(text)
    case ConfigUpdateAck(id, _, error) => id < Range(16) && FitsOptional(error)
  }

  // ----- Writers -----

  /** A length written with `as u16`: only its low sixteen bits. */
  function PutLength(n: nat): seq<byte> { PutUint(n % MAX_LENGTH, 2) }

  function PutText(t: seq<byte>): seq<byte> { PutLength(|t|) + t }

  function PutFlag(b: bool): seq<byte> { [if b then 1 else 0] }

  function PutOptional(t: Option<seq<byte>>): seq<byte> {
    match t
    case Some(text) => [1] + PutText(text)
    case None => [0]
  }

  function PutId(id: nat): seq<byte> { PutUint(id, 16) }

  function PutDevice(d: DelegatedDevice): seq<byte> {
    PutUint(d.id, 16) + (PutOptional(d.ipv4) + (PutOptional(d.ipv6) + PutSigned(d.scheduleTime)))
  }

  /** `put_i64`: two's complement, that is the value modulo 2 to the 64. */
  function PutSigned(n: int): seq<byte> { PutUint(n % Range(8), 8) }

  function PutNode(n: KnownNode): seq<byte> {
    PutUint(n.id, 16) +
    (PutText(n.name) + (PutText(AddrText(n.addr)) + (PutUint(n.backdoorPort, 2) + [n.status.Code()])))
  }

  /** The fields common to heartbeats and status responses. */
  function PutLoad(status: NodeStatus, bucketCount: nat, deviceCount: nat, load: nat, maxDevices: nat): seq<byte> {
    [status.Code()] +
    (PutUint(bucketCount, 2) + (PutUint(deviceCount, 4) + (PutUint(load, 1) + PutUint(maxDevices, 4))))
  }

  function Put(p: Payload): seq<byte> {
    match p
    case Empty => []
    case Heartbeat(status, b, d, l, m, ids) => PutLoad(status, b, d, l, m) + (PutLength(|ids|) + PutMany(PutId, ids))
    case NodeJoin(name, addr, port) => PutText(name) + (PutText(AddrText(addr)) + PutUint(port, 2))
    case NodeSuspect(id) => PutUint(id, 16)
    case NodeDead(id) => PutUint(id, 16)
    case DelegateRequest(ds, reason) => PutLength(|ds|) + (PutMany(PutDevice, ds) + [reason.Code()])
    case DelegateAccept(ids) => PutLength(|ids|) + PutMany(PutId, ids)
    case DelegateReject(text) => PutText(text)
    case StatusResponse(name, status, b, d, l, m, port, nodes) =>
      PutText(name) +
      (PutLoad(status, b, d, l, m) + (PutUint(port, 2) + (PutLength(|nodes|) + PutMany(PutNode, nodes))))
    case ProbeRequest(id) => PutUint(id, 16)
    case ProbeResponse(id, alive) => PutUint(id, 16) + PutFlag(alive)
    case ConfigUpdate(id, key, text) => PutUint(id, 16) + (PutText(key) + PutText(text))
    case ConfigUpdateAck(id, success, error) => PutUint(id, 16) + (PutFlag(success) + PutOptional(error))
  }

  // ----- Readers -----

  /** The explicit `remaining() < n` checks. */
  function Need(s: seq<byte>, n: nat): Read<()> {
    if |s| < n then Err(InvalidLength) else Ok((), s)
  }

  function GetText(s: seq<byte>): Read<seq<byte>> {
    var (len, s1) :- GetUint(s, 2);
    var (t, s2) :- Take(s1, len);
    if IsUtf8(t) then Ok(t, s2) else Err(InvalidPayload)
  }

  function GetAddr(s: seq<byte>): Read<SocketAddr> {
    var (t, s1) :- GetText(s);
    var addr := ParseAddr(t);
    if addr.Some? then Ok(addr.value, s1) else Err(InvalidPayload)
  }

  /** The flag and the length are read without a check, so a short buffer panics. */
  function GetOptional(s: seq<byte>): Read<Option<seq<byte>>> {
    var (flag, s1) :- GetUint(s, 1);
    if flag == 1 then
      var (t, s2) :- GetText(s1);
      Ok(Some(t), s2)
    else Ok(None, s1)
  }

  function GetStatus(s: seq<byte>): Read<NodeStatus> {
    var (code, s1) :- GetUint(s, 1);
    var status := NodeStatus.FromCode(code);
    if status.Some? then Ok(status.value, s1) else Err(InvalidPayload)
  }

  function GetRawId(s: seq<byte>): Read<nat> { GetUint(s, 16) }

  function GetIdList(s: seq<byte>): Read<seq<nat>> {
    var (n, s1) :- GetUint(s, 2);
    var (_, s2) :- Need(s1, 16 * n);
    GetMany(GetRawId, s2, n)
  }

  function GetDevice(s: seq<byte>): Read<DelegatedDevice> {
    var (_, s0) :- Need(s, 26);
    var (id, s1) :- GetUint(s0, 16);
    var (ipv4, s2) :- GetOptional(s1);
    var (ipv6, s3) :- GetOptional(s2);
    var (_, s4) :- Need(s3, 8);
    var (time, s5) :- GetUint(s4, 8);
    Ok(DelegatedDevice(id, ipv4, ipv6, ToSigned(time, 8)), s5)
  }

  function GetNode(s: seq<byte>): Read<KnownNode> {
    var (_, s0) :- Need(s, 18);
    var (id, s1) :- GetUint(s0, 16);
    var (name, s2) :- GetText(s1);
    var (_, s3) :- Need(s2, 2);
    var (addr, s4) :- GetAddr(s3);
    var (_, s5) :- Need(s4, 3);
    var (port, s6) :- GetUint(s5, 2);
    var (status, s7) :- GetStatus(s6);
    Ok(KnownNode(id, name, addr, port, status), s7)
  }

  function GetHeartbeat(s: seq<byte>): Read<Payload> {
    var (_, s0) :- Need(s, 14);
    var (status, s1) :- GetStatus(s0);
    var (b, s2) :- GetUint(s1, 2);
    var (d, s3) :- GetUint(s2, 4);
    var (l, s4) :- GetUint(s3, 1);
    var (m, s5) :- GetUint(s4, 4);
    var (ids, s6) :- GetIdList(s5);
    Ok(Heartbeat(status, b, d, l, m, ids), s6)
  }

  function GetNodeJoin(s: seq<byte>): Read<Payload> {
    var (_, s0) :- Need(s, 6);
    var (name, s1) :- GetText(s0);
    var (_, s2) :- Need(s1, 4);
    var (addr, s3) :- GetAddr(s2);
    var (_, s4) :- Need(s3, 2);
    var (port, s5) :- GetUint(s4, 2);
    Ok(NodeJoin(name, addr, port), s5)
  }

  function GetDelegateRequest(s: seq<byte>): Read<Payload> {
    var (_, s0) :- Need(s, 3);
    var (n, s1) :- GetUint(s0, 2);
    var (ds, s2) :- GetMany(GetDevice, s1, n);
    GetReason(ds, s2)
  }

  /** What follows the devices of a request. */
  function GetReason(ds: seq<DelegatedDevice>, s: seq<byte>): Read<Payload> {
    var (_, s1) :- Need(s, 1);
    var (code, s2) :- GetUint(s1, 1);
    var reason := DelegationReason.FromCode(code);
    if reason.Some? then Ok(DelegateRequest(ds, reason.value), s2) else Err(InvalidPayload)
  }

  /** The length of the name is checked together with the fields that follow it. */
  function GetStatusName(s: seq<byte>): Read<seq<byte>> {
    var (len, s1) :- GetUint(s, 2);
    var (_, s2) :- Need(s1, len + 14);
    GetText(s)
  }

  /** The list of known nodes was added later: a message that ends before it has none. */
  function GetTail(s: seq<byte>): Read<seq<KnownNode>> {
    if |s| < 2 then Ok([], s)
    else
      var (n, s1) :- GetUint(s, 2);
      GetMany(GetNode, s1, n)
  }

  function GetStatusResponse(s: seq<byte>): Read<Payload> {
    var (_, s0) :- Need(s, 16);
    var (name, s1) :- GetStatusName(s0);
    var (status, s2) :- GetStatus(s1);
    var (b, s3) :- GetUint(s2, 2);
    var (d, s4) :- GetUint(s3, 4);
    var (l, s5) :- GetUint(s4, 1);
    var (m, s6) :- GetUint(s5, 4);
    var (port, s7) :- GetUint(s6, 2);
    var (nodes, s8) :- GetTail(s7);
    Ok(StatusResponse(name, status, b, d, l, m, port, nodes), s8)
  }

  function GetConfigUpdate(s: seq<byte>): Read<Payload> {
    var (_, s0) :- Need(s, 20);
    var (id, s1) :- GetUint(s0, 16);
    var (key, s2) :- GetText(s1);
    var (_, s3) :- Need(s2, 2);
    var (text, s4) :- GetText(s3);
    Ok(ConfigUpdate(id, key, text), s4)
  }

  function GetConfigUpdateAck(s: seq<byte>): Read<Payload> {
    var (_, s0) :- Need(s, 18);
    var (id, s1) :- GetUint(s0, 16);
    var (success, s2) :- GetUint(s1, 1);
    var (error, s3) :- GetOptional(s2);
    Ok(ConfigUpdateAck(id, success == 1, error), s3)
  }

  function GetProbeResponse(s: seq<byte>): Read<Payload> {
    var (_, s0) :- Need(s, 17);
    var (id, s1) :- GetUint(s0, 16);
    var (alive, s2) :- GetUint(s1, 1);
    Ok(ProbeResponse(id, alive == 1), s2)
  }

  function GetDelegateAccept(s: seq<byte>): Read<Payload> {
    var (_, s0) :- Need(s, 2);
    var (ids, s1) :- GetIdList(s0);
    Ok(DelegateAccept(ids), s1)
  }

  function GetDelegateReject(s: seq<byte>): Read<Payload> {
    var (_, s0) :- Need(s, 2);
    var (text, s1) :- GetText(s0);
    Ok(DelegateReject(text), s1)
  }

  /** A payload that is one identifier. */
  function GetId(s: seq<byte>): Read<nat> {
    var (_, s0) :- Need(s, 16);
    GetUint(s0, 16)
  }

  function GetNodeSuspect(s: seq<byte>): Read<Payload> {
    var (id, s1) :- GetId(s);
    Ok(NodeSuspect(id), s1)
  }

  function GetNodeDead(s: seq<byte>): Read<Payload> {
    var (id, s1) :- GetId(s);
    Ok(NodeDead(id), s1)
  }

  function GetProbeRequest(s: seq<byte>): Read<Payload> {
    var (id, s1) :- GetId(s);
    Ok(ProbeRequest(id), s1)
  }
}
