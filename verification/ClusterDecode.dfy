/** What the payload readers guarantee on arbitrary bytes: whatever they return fits the wire
    format again, and they panic only where an optional string is cut short. */
module ClusterDecode {
  import opened Bytes
  import opened Address
  import opened Text
  import opened ClusterPayload

  lemma UintFits(s: seq<byte>, k: nat)
    ensures GetUint(s, k).Ok? ==> GetUint(s, k).value < Range(k)
    ensures GetUint(s, k).Ok? ==> GetUint(s, k).rest == s[k..]
  {
    if |s| >= k {
      GetInRange(s, k);
    }
  }

  lemma TextFits(s: seq<byte>)
    ensures GetText(s).Ok? ==> FitsText(GetText(s).value)
    ensures |s| >= 2 ==> !GetText(s).Panic?
  {
    UintFits(s, 2);
    assert Range(2) == 256 * Range(1) && Range(1) == 256;
  }

  lemma AddrFits(s: seq<byte>)
    ensures GetAddr(s).Ok? ==> ValidAddr(GetAddr(s).value)
    ensures |s| >= 2 ==> !GetAddr(s).Panic?
  {
    TextFits(s);
  }

  /** The bytes on which reading an optional string panics: the flag is missing, or it says that a
      string follows and the two length bytes are not there. */
  predicate OptionalCut(s: seq<byte>) {
    s == [] || (s[0] == 1 && |s| < 3)
  }

  lemma OptionalFits(s: seq<byte>)
    ensures GetOptional(s).Ok? ==> FitsOptional(GetOptional(s).value)
    ensures GetOptional(s).Panic? <==> OptionalCut(s)
  {
    if s != [] {
      UintFits(s, 1);
      assert s[..1] == [s[0]];
      assert ValueOf([s[0]]) == 256 * ValueOf([s[0]][..0]) + s[0];
      TextFits(s[1..]);
    }
  }

  lemma {:induction false} IdsAreRead(s: seq<byte>, n: nat)
    requires |s| >= 16 * n
    ensures GetMany(GetRawId, s, n).Ok?
    decreases n
  {
    if n > 0 {
      IdsAreRead(s[16..], n - 1);
    }
  }

  lemma IdListFits(s: seq<byte>)
    ensures GetIdList(s).Ok? ==> FitsIds(GetIdList(s).value)
    ensures |s| >= 2 ==> !GetIdList(s).Panic?
  {
    if |s| >= 2 {
      UintFits(s, 2);
      assert Range(2) == 256 * Range(1) && Range(1) == 256;
      var n := GetUint(s, 2).value;
      forall t ensures GetRawId(t).Ok? ==> GetRawId(t).value < Range(16) {
        UintFits(t, 16);
      }
      ManyFit(GetRawId, (id: nat) => id < Range(16), s[2..], n);
      if |s[2..]| >= 16 * n {
        IdsAreRead(s[2..], n);
      }
    }
  }

  /** The bytes on which reading one device panics: they pass the size check, and the text of the
      first address uses up the flag or the length of the second one. */
  predicate DeviceCut(s: seq<byte>) {
    |s| >= 26 && GetOptional(s[16..]).Ok? && OptionalCut(GetOptional(s[16..]).rest)
  }

  lemma DeviceFits(s: seq<byte>)
    ensures GetDevice(s).Ok? ==> FitsDevice(GetDevice(s).value)
    ensures GetDevice(s).Panic? <==> DeviceCut(s)
  {
    if |s| >= 26 {
      UintFits(s, 16);
      OptionalFits(s[16..]);
      if GetOptional(s[16..]).Ok? {
        var s2 := GetOptional(s[16..]).rest;
        OptionalFits(s2);
        if GetOptional(s2).Ok? {
          UintFits(GetOptional(s2).rest, 8);
        }
      }
    }
  }

  lemma StatusReads(s: seq<byte>)
    requires s != []
    ensures !GetStatus(s).Panic?
    ensures GetStatus(s).Ok? ==> GetStatus(s).rest == s[1..]
  {
    UintFits(s, 1);
  }

  lemma NodeFits(s: seq<byte>)
    ensures GetNode(s).Ok? ==> FitsNode(GetNode(s).value)
    ensures !GetNode(s).Panic?
  {
    if |s| >= 18 {
      UintFits(s, 16);
      TextFits(s[16..]);
      if GetText(s[16..]).Ok? {
        var s2 := GetText(s[16..]).rest;
        AddrFits(s2);
        if |s2| >= 2 && GetAddr(s2).Ok? {
          var s4 := GetAddr(s2).rest;
          UintFits(s4, 2);
          if |s4| >= 3 {
            StatusReads(s4[2..]);
          }
        }
      }
    }
  }

  lemma TailFits(s: seq<byte>)
    ensures GetTail(s).Ok? ==> FitsNodes(GetTail(s).value)
    ensures !GetTail(s).Panic?
  {
    if |s| >= 2 {
      UintFits(s, 2);
      assert Range(2) == 256 * Range(1) && Range(1) == 256;
      var n := GetUint(s, 2).value;
      forall t ensures !GetNode(t).Panic? && (GetNode(t).Ok? ==> FitsNode(GetNode(t).value)) {
        NodeFits(t);
      }
      ManyFit(GetNode, FitsNode, s[2..], n);
      ManyNoPanic(GetNode, s[2..], n);
    }
  }

  lemma HeartbeatFits(s: seq<byte>)
    ensures GetHeartbeat(s).Ok? ==> GetHeartbeat(s).value.Heartbeat? && Fits(GetHeartbeat(s).value)
    ensures !GetHeartbeat(s).Panic?
  {
    if |s| >= 14 {
      StatusReads(s);
      UintFits(s[1..], 2);
      UintFits(s[1..][2..], 4);
      UintFits(s[1..][2..][4..], 1);
      UintFits(s[1..][2..][4..][1..], 4);
      IdListFits(s[1..][2..][4..][1..][4..]);
    }
  }

  lemma NodeJoinFits(s: seq<byte>)
    ensures GetNodeJoin(s).Ok? ==> GetNodeJoin(s).value.NodeJoin? && Fits(GetNodeJoin(s).value)
    ensures !GetNodeJoin(s).Panic?
  {
    if |s| >= 6 {
      TextFits(s);
      if GetText(s).Ok? {
        var s1 := GetText(s).rest;
        AddrFits(s1);
        if |s1| >= 4 && GetAddr(s1).Ok? {
          UintFits(GetAddr(s1).rest, 2);
        }
      }
    }
  }

  /** The requests on which reading panics: the devices before some announced one are read, and that
      one is cut as described by DeviceCut. */
  predicate RequestCut(s: seq<byte>) {
    |s| >= 3 && exists i: nat :: i < TwoBytes(s[0], s[1]) && CutAt(s[2..], i)
  }

  predicate CutAt(s: seq<byte>, i: nat) {
    GetMany(GetDevice, s, i).Ok? && DeviceCut(GetMany(GetDevice, s, i).rest)
  }

  function TwoBytes(high: nat, low: nat): nat { 256 * high + low }

  lemma OneByteValue(s: seq<byte>)
    requires s != []
    ensures GetUint(s, 1) == Ok(s[0], s[1..])
  {
    assert s[..1] == [s[0]];
    assert ValueOf([s[0]]) == 256 * ValueOf([s[0]][..0]) + s[0];
  }

  lemma TwoByteValue(s: seq<byte>)
    requires |s| >= 2
    ensures GetUint(s, 2) == Ok(TwoBytes(s[0], s[1]), s[2..])
  {
    assert s[..2][..1] == [s[0]];
    assert ValueOf([s[0]]) == 256 * ValueOf([s[0]][..0]) + s[0];
  }

  /** Reading a delegation request panics exactly on the bytes of RequestCut. */
  lemma DelegateRequestPanicsIff(s: seq<byte>)
    ensures GetDelegateRequest(s).Panic? <==> RequestCut(s)
  {
    if |s| >= 3 {
      TwoByteValue(s);
      ManyPanicsIff(GetDevice, s[2..], TwoBytes(s[0], s[1]));
      forall i: nat ensures PanicsAt(GetDevice, s[2..], i) <==> CutAt(s[2..], i) {
        if GetMany(GetDevice, s[2..], i).Ok? {
          DeviceFits(GetMany(GetDevice, s[2..], i).rest);
        }
      }
      RequestPanicsWithList(s);
    }
  }

  lemma RequestPanicsWithList(s: seq<byte>)
    requires |s| >= 3
    ensures GetDelegateRequest(s).Panic? <==> GetMany(GetDevice, s[2..], TwoBytes(s[0], s[1])).Panic?
  {
    TwoByteValue(s);
  }

  lemma DelegateRequestFits(s: seq<byte>)
    ensures GetDelegateRequest(s).Ok? ==>
              GetDelegateRequest(s).value.DelegateRequest? && Fits(GetDelegateRequest(s).value)
    ensures GetDelegateRequest(s).Panic? <==> RequestCut(s)
  {
    DelegateRequestPanicsIff(s);
    if |s| >= 3 {
      UintFits(s, 2);
      assert Range(2) == 256 * Range(1) && Range(1) == 256;
      forall t ensures GetDevice(t).Ok? ==> FitsDevice(GetDevice(t).value) {
        DeviceFits(t);
      }
      ManyFit(GetDevice, FitsDevice, s[2..], GetUint(s, 2).value);
    }
  }

  lemma StatusNameFits(s: seq<byte>)
    requires |s| >= 2
    ensures GetStatusName(s).Ok? ==> FitsText(GetStatusName(s).value) && |GetStatusName(s).rest| >= 14
    ensures !GetStatusName(s).Panic?
  {
    UintFits(s, 2);
    TextFits(s);
  }

  lemma StatusResponseFits(s: seq<byte>)
    ensures GetStatusResponse(s).Ok? ==> GetStatusResponse(s).value.StatusResponse? && Fits(GetStatusResponse(s).value)
    ensures !GetStatusResponse(s).Panic?
  {
    if |s| >= 16 {
      StatusNameFits(s);
      if GetStatusName(s).Ok? {
        var s1 := GetStatusName(s).rest;
        StatusReads(s1);
        UintFits(s1[1..], 2);
        UintFits(s1[1..][2..], 4);
        UintFits(s1[1..][2..][4..], 1);
        UintFits(s1[1..][2..][4..][1..], 4);
        UintFits(s1[1..][2..][4..][1..][4..], 2);
        TailFits(s1[1..][2..][4..][1..][4..][2..]);
      }
    }
  }

  lemma ConfigUpdateFits(s: seq<byte>)
    ensures GetConfigUpdate(s).Ok? ==> GetConfigUpdate(s).value.ConfigUpdate? && Fits(GetConfigUpdate(s).value)
    ensures !GetConfigUpdate(s).Panic?
  {
    if |s| >= 20 {
      UintFits(s, 16);
      TextFits(s[16..]);
      if GetText(s[16..]).Ok? {
        TextFits(GetText(s[16..]).rest);
      }
    }
  }

  /** The acknowledgements of a configuration update on which reading panics: an error text is
      announced and the bytes end before its length. */
  predicate AckCut(s: seq<byte>) {
    18 <= |s| < 20 && s[17] == 1
  }

  lemma ConfigUpdateAckFits(s: seq<byte>)
    ensures GetConfigUpdateAck(s).Ok? ==>
              GetConfigUpdateAck(s).value.ConfigUpdateAck? && Fits(GetConfigUpdateAck(s).value)
    ensures GetConfigUpdateAck(s).Ok? ==> (GetConfigUpdateAck(s).value.flag <==> s[16] == 1)
    ensures GetConfigUpdateAck(s).Panic? <==> AckCut(s)
  {
    if |s| >= 18 {
      UintFits(s, 16);
      UintFits(s[16..], 1);
      OneByteValue(s[16..]);
      var error := s[16..][1..];
      OptionalFits(error);
      assert error[0] == s[17] && |error| == |s| - 17;
    }
  }

  lemma ProbeResponseFits(s: seq<byte>)
    ensures GetProbeResponse(s).Ok? ==> GetProbeResponse(s).value.ProbeResponse? && Fits(GetProbeResponse(s).value)
    ensures GetProbeResponse(s).Ok? ==> (GetProbeResponse(s).value.flag <==> s[16] == 1)
    ensures !GetProbeResponse(s).Panic?
  {
    UintFits(s, 16);
    if |s| >= 17 {
      OneByteValue(s[16..]);
    }
  }

  lemma DelegateAcceptFits(s: seq<byte>)
    ensures GetDelegateAccept(s).Ok? ==> GetDelegateAccept(s).value.DelegateAccept? && Fits(GetDelegateAccept(s).value)
    ensures !GetDelegateAccept(s).Panic?
  {
    IdListFits(s);
  }

  lemma DelegateRejectFits(s: seq<byte>)
    ensures GetDelegateReject(s).Ok? ==> GetDelegateReject(s).value.DelegateReject? && Fits(GetDelegateReject(s).value)
    ensures !GetDelegateReject(s).Panic?
  {
    TextFits(s);
  }

  lemma IdFits(s: seq<byte>)
    ensures GetId(s).Ok? ==> GetId(s).value < Range(16)
    ensures !GetId(s).Panic?
  {
    UintFits(s, 16);
  }

  lemma NodeSuspectFits(s: seq<byte>)
    ensures GetNodeSuspect(s).Ok? ==> GetNodeSuspect(s).value.NodeSuspect? && Fits(GetNodeSuspect(s).value)
    ensures !GetNodeSuspect(s).Panic?
  {
    IdFits(s);
  }

  lemma NodeDeadFits(s: seq<byte>)
    ensures GetNodeDead(s).Ok? ==> GetNodeDead(s).value.NodeDead? && Fits(GetNodeDead(s).value)
    ensures !GetNodeDead(s).Panic?
  {
    IdFits(s);
  }

  lemma ProbeRequestFits(s: seq<byte>)
    ensures GetProbeRequest(s).Ok? ==> GetProbeRequest(s).value.ProbeRequest? && Fits(GetProbeRequest(s).value)
    ensures !GetProbeRequest(s).Panic?
  {
    IdFits(s);
  }
}
