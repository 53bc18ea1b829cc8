/** The codec as it runs: writers append to a buffer, the reader consumes it from the front. */
module ClusterBuffer {
  import opened Bytes
  import opened ByteBuffer
  import opened Address
  import opened Text
  import opened ClusterPayload
  import opened ClusterCodec

  /** The loops that write a list item by item. */
  method WriteMany<T>(buf: Buffer, put: T -> seq<byte>, items: seq<T>)
    modifies buf
    ensures buf.data == old(buf.data) + PutMany(put, items)
  {
    for i := 0 to |items|
      invariant buf.data == old(buf.data) + PutMany(put, items[..i])
    {
      PutManyConcat(put, items[..i], [items[i]]);
      assert items[..i + 1] == items[..i] + [items[i]];
      assert PutMany(put, [items[i]]) == put(items[i]);
      buf.Append(put(items[i]));
    }
    assert items[..|items|] == items;
  }

  method WriteHeartbeat(buf: Buffer, p: Payload)
    requires p.Heartbeat?
    modifies buf
    ensures buf.data == old(buf.data) + Put(p)
  {
    buf.Append(PutLoad(p.status, p.bucketCount, p.deviceCount, p.load, p.maxDevices));
    buf.Append(PutLength(|p.ids|));
    WriteMany(buf, PutId, p.ids);
  }

  method WriteRequest(buf: Buffer, p: Payload)
    requires p.DelegateRequest?
    modifies buf
    ensures buf.data == old(buf.data) + Put(p)
  {
    ghost var before := buf.data;
    var length := PutLength(|p.devices|);
    ghost var list := PutMany(PutDevice, p.devices);
    var reason := [p.reason.Code()];
    buf.Append(length);
    WriteMany(buf, PutDevice, p.devices);
    buf.Append(reason);
    RegroupRequest(before, length, list, reason);
  }

  lemma RegroupRequest(a: seq<byte>, b: seq<byte>, c: seq<byte>, d: seq<byte>)
    ensures ((a + b) + c) + d == a + (b + (c + d))
  {
    Assoc(a + b, c, d);
    Assoc(a, b, c + d);
  }

  method WriteAccept(buf: Buffer, p: Payload)
    requires p.DelegateAccept?
    modifies buf
    ensures buf.data == old(buf.data) + Put(p)
  {
    buf.Append(PutLength(|p.ids|));
    WriteMany(buf, PutId, p.ids);
  }

  method WriteStatusResponse(buf: Buffer, p: Payload)
    requires p.StatusResponse?
    modifies buf
    ensures buf.data == old(buf.data) + Put(p)
  {
    ghost var before := buf.data;
    var name := PutText(p.name);
    var fields := PutLoad(p.status, p.bucketCount, p.deviceCount, p.load, p.maxDevices);
    var port := PutUint(p.backdoorPort, 2);
    var length := PutLength(|p.nodes|);
    ghost var list := PutMany(PutNode, p.nodes);
    buf.Append(name);
    buf.Append(fields);
    buf.Append(port);
    buf.Append(length);
    WriteMany(buf, PutNode, p.nodes);
    assert buf.data == ((((before + name) + fields) + port) + length) + list;
    Regroup(before, name, fields, port, length, list);
    StatusResponseBytes(p);
  }

  /** The wire form of a status response, part by part. */
  lemma StatusResponseBytes(p: Payload)
    requires p.StatusResponse?
    ensures Put(p) == PutText(p.name) + (PutLoad(p.status, p.bucketCount, p.deviceCount, p.load, p.maxDevices)
                      + (PutUint(p.backdoorPort, 2) + (PutLength(|p.nodes|) + PutMany(PutNode, p.nodes))))
  {
  }

  lemma Regroup(a: seq<byte>, b: seq<byte>, c: seq<byte>, d: seq<byte>, e: seq<byte>, f: seq<byte>)
    ensures ((((a + b) + c) + d) + e) + f == a + (b + (c + (d + (e + f))))
  {
    Assoc(((a + b) + c) + d, e, f);
    Assoc((a + b) + c, d, e + f);
    Assoc(a + b, c, d + (e + f));
    Assoc(a, b, c + (d + (e + f)));
  }

  method WritePayload(buf: Buffer, p: Payload)
    modifies buf
    ensures buf.data == old(buf.data) + Put(p)
  {
    if p.Heartbeat? {
      WriteHeartbeat(buf, p);
    } else if p.DelegateRequest? {
      WriteRequest(buf, p);
    } else if p.DelegateAccept? {
      WriteAccept(buf, p);
    } else if p.StatusResponse? {
      WriteStatusResponse(buf, p);
    } else {
      buf.Append(Put(p));
    }
  }

  method WriteMessage(buf: Buffer, m: Message)
    modifies buf
    ensures buf.data == old(buf.data) + Encode(m)
  {
    buf.Append(PutUint(m.version, 1));
    buf.Append([m.msgType.Code()]);
    buf.Append(PutUint(m.nodeId, 16));
    buf.Append(PutUint(m.sequence, 4));
    buf.Append(PutUint(m.timestamp, 8));
    WritePayload(buf, m.payload);
  }

  function Prepend<T>(front: seq<T>, r: Read<seq<T>>): Read<seq<T>> {
    match r
    case Ok(xs, rest) => Ok(front + xs, rest)
    case Err(e) => Err(e)
    case Panic => Panic
  }

  /** The loops that read an announced number of items. */
  method ReadMany<T>(buf: Buffer, get: seq<byte> -> Read<T>, n: nat) returns (r: Read<seq<T>>)
    modifies buf
    ensures r == GetMany(get, old(buf.data), n)
    ensures r.Ok? ==> buf.data == r.rest
  {
    var items: seq<T> := [];
    var i := 0;
    PrependNothing(GetMany(get, buf.data, n));
    while i < n
      invariant 0 <= i <= n
      invariant GetMany(get, old(buf.data), n) == Prepend(items, GetMany(get, buf.data, n - i))
    {
      var item := get(buf.data);
      match item {
        case Ok(x, rest) =>
          ghost var later := GetMany(get, rest, n - i - 1);
          assert later.Ok? ==> items + ([x] + later.value) == (items + [x]) + later.value;
          items := items + [x];
          buf.data := rest;
        case Err(e) =>
          return Err(e);
        case Panic =>
          return Panic;
      }
      i := i + 1;
    }
    assert items + [] == items;
    r := Ok(items, buf.data);
  }

  lemma PrependNothing<T>(r: Read<seq<T>>)
    ensures Prepend([], r) == r
  {
    if r.Ok? {
      assert [] + r.value == r.value;
    }
  }

  datatype Decoded = NoMessage | Received(message: Message) | Failed(error: CodecError) | Stopped

  /** What the decoder must return and leave behind, given what the buffer held. */
  ghost predicate DecodedRight(before: seq<byte>, r: Decoded, after: seq<byte>) {
    match Decode(before)
    case Ok(None, _) => r == NoMessage && after == []
    case Ok(Some(m), rest) => r == Received(m) && after == rest
    case Err(e) =>
      && r == Failed(e)
      && (|before| < HEADER_SIZE ==> after == [])
      && (|before| >= HEADER_SIZE && GetHeader(before).Err? ==> after == before[HEADER_SIZE..])
    case Panic => r == Stopped
  }

  /** ClusterMessageCodec::decode: a buffer shorter than a header is discarded; otherwise the
      header and then the payload are consumed. */
  method ReadMessage(buf: Buffer) returns (r: Decoded)
    modifies buf
    ensures DecodedRight(old(buf.data), r, buf.data)
  {
    if |buf.data| < HEADER_SIZE {
      if buf.data != [] {
        buf.Clear();
        return Failed(InvalidLength);
      }
      return NoMessage;
    }
    ghost var before := buf.data;
    var version := buf.ReadUint(1);
    var code := buf.ReadUint(1);
    var nodeId := buf.ReadUint(16);
    var sequence := buf.ReadUint(4);
    var timestamp := buf.ReadUint(8);
    var t := MessageType.FromCode(code);
    if t.None? {
      return Failed(UnknownMessageType);
    }
    var header := Message(version, t.value, nodeId, sequence, timestamp, Empty);
    assert GetHeader(before) == Ok(header, buf.data);
    var p := ReadPayload(buf, t.value);
    match p
    case Ok(payload, _) => r := Received(header.(payload := payload));
    case Err(e) => r := Failed(e);
    case Panic => r := Stopped;
  }

  method ReadPayload(buf: Buffer, t: MessageType) returns (p: Read<Payload>)
    modifies buf
    ensures p == GetPayload(t, old(buf.data))
    ensures p.Ok? ==> buf.data == p.rest
  {
    match t
    case DelegateAcceptMsg => p := ReadAccept(buf);
    case DelegateRequestMsg => p := ReadRequest(buf);
    case _ =>
      p := GetPayload(t, buf.data);
      if p.Ok? {
        buf.data := p.rest;
      }
  }

  method ReadAccept(buf: Buffer) returns (p: Read<Payload>)
    modifies buf
    ensures p == GetDelegateAccept(old(buf.data))
    ensures p.Ok? ==> buf.data == p.rest
  {
    if |buf.data| < 2 {
      return Err(InvalidLength);
    }
    var n := buf.ReadUint(2);
    if |buf.data| < 16 * n {
      return Err(InvalidLength);
    }
    var ids := ReadMany(buf, GetRawId, n);
    match ids
    case Ok(xs, rest) => p := Ok(DelegateAccept(xs), rest);
    case Err(e) => p := Err(e);
    case Panic => p := Panic;
  }

  method ReadRequest(buf: Buffer) returns (p: Read<Payload>)
    modifies buf
    ensures p == GetDelegateRequest(old(buf.data))
    ensures p.Ok? ==> buf.data == p.rest
  {
    if |buf.data| < 3 {
      return Err(InvalidLength);
    }
    var n := buf.ReadUint(2);
    var devices := ReadMany(buf, GetDevice, n);
    match devices
    case Err(e) => return Err(e);
    case Panic => return Panic;
    case Ok(ds, _) =>
      if |buf.data| < 1 {
        return Err(InvalidLength);
      }
      var code := buf.ReadUint(1);
      var reason := DelegationReason.FromCode(code);
      if reason.None? {
        return Err(InvalidPayload);
      }
      p := Ok(DelegateRequest(ds, reason.value), buf.data);
  }

  /** A message written into an empty buffer is read back, and the buffer is empty again. */
  method WriteThenRead(buf: Buffer, m: Message) returns (r: Decoded)
    requires WellFormed(m) && buf.data == []
    modifies buf
    ensures r == Received(m) && buf.data == []
  {
    WriteMessage(buf, m);
    RoundTrip(m, []);
    assert buf.data == Encode(m) + [];
    r := ReadMessage(buf);
  }
}
