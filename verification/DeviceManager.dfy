/** One node's device manager over the shared table. */
module DeviceManager {
  import opened Basics
  import opened Database
  import Redistribution
  import Rebalance
  type Move = Rebalance.Move

  /** The owner of devices nobody has claimed: the nil identifier, all zeros. */
  const NIL: Node := 0

  /** The rows when every device of the list has been given to n. */
  ghost predicate GivenTo(before: Rows, after: Rows, devices: set<Device>, n: Node) {
    && after.Keys == before.Keys
    && forall d :: d in after ==> after[d] == if d in devices then before[d].(owner := n) else before[d]
  }

  class Manager {
    const local: Node
    const buckets: nat
    const table: Table
    var owned: set<Device>

    constructor (local: Node, buckets: nat, table: Table)
      ensures this.local == local && this.buckets == buckets && this.table == table && owned == {}
    {
      this.local, this.buckets, this.table, this.owned := local, buckets, table, {};
    }

    /** A device that has a row is in the owned set exactly when the row names this node. */
    ghost predicate Agrees()
      reads this, table
    {
      forall d :: d in table.rows ==> (d in owned <==> table.rows[d].owner == local)
    }

    /** A new device goes to the least loaded bucket and is recorded for this node. */
    method RegisterDevice(d: Device) returns (bucket: int)
      requires buckets > 0
      modifies this, table
      ensures IsFirstLeast(old(table.rows), buckets, bucket)
      ensures table.rows == old(table.rows)[d := Row(bucket, local)] && owned == old(owned) + {d}
      ensures table.devices == old(table.devices)
      ensures old(Agrees()) ==> Agrees()
    {
      bucket := table.ChooseBucket(buckets);
      table.AddToBucket(d, bucket, local);
      owned := owned + {d};
    }

    /** Loading establishes the agreement whatever the set held before. */
    method LoadFromDatabase()
      modifies this
      ensures owned == OwnedBy(table.rows, local)
      ensures Agrees()
    {
      var devices := table.DevicesByOwner(local);
      owned := {};
      for i := 0 to |devices|
        invariant owned == Elements(devices[..i])
      {
        ElementsStep(devices, i);
        owned := owned + {devices[i]};
      }
      assert devices[..|devices|] == devices;
    }

    /** Sets the owner of each listed device and adds it to the set, in the order given. */
    method ClaimEach(devices: seq<Device>)
      modifies this, table
      ensures GivenTo(old(table.rows), table.rows, Elements(devices), local)
      ensures owned == old(owned) + Elements(devices) && table.devices == old(table.devices)
      ensures old(Agrees()) ==> Agrees()
    {
      for i := 0 to |devices|
        invariant GivenTo(old(table.rows), table.rows, Elements(devices[..i]), local)
        invariant owned == old(owned) + Elements(devices[..i]) && table.devices == old(table.devices)
      {
        ElementsStep(devices, i);
        table.SetOwner(devices[i], local);
        owned := owned + {devices[i]};
      }
      assert devices[..|devices|] == devices;
    }

    /** claim_unassigned_devices. */
    method ClaimUnassigned() returns (claimed: seq<Device>)
      modifies this, table
      ensures Lists(claimed, OwnedBy(old(table.rows), 0))
      ensures GivenTo(old(table.rows), table.rows, OwnedBy(old(table.rows), 0), local)
      ensures owned == old(owned) + OwnedBy(old(table.rows), 0)
      ensures old(Agrees()) ==> Agrees()
    {
      claimed := table.DevicesByOwner(NIL);
      ClaimEach(claimed);
    }

    /** claim_all_devices: every known device, also those without a row. */
    method ClaimAll() returns (claimed: seq<Device>)
      modifies this, table
      ensures Lists(claimed, old(table.devices))
      ensures GivenTo(old(table.rows), table.rows, old(table.devices), local)
      ensures owned == old(owned) + old(table.devices)
      ensures old(Agrees()) ==> Agrees()
    {
      claimed := ListSet(table.devices);
      ClaimEach(claimed);
    }

    /** accept_delegation. Scheduling the device at position `failing` fails (none does when it is
        past the end); its owner has been written and it has been added by then, so the agreement
        holds also after a failure. */
    method AcceptDelegation(devices: seq<Device>, failing: nat) returns (ok: bool, accepted: seq<Device>)
      modifies this, table
      ensures ok <==> failing >= |devices|
      ensures var done := if ok then devices else devices[..failing + 1];
              && GivenTo(old(table.rows), table.rows, Elements(done), local)
              && owned == old(owned) + Elements(done)
      ensures accepted == if ok then devices else []
      ensures old(Agrees()) ==> Agrees()
    {
      accepted := [];
      for i := 0 to |devices|
        invariant i <= failing && accepted == devices[..i]
        invariant GivenTo(old(table.rows), table.rows, Elements(devices[..i]), local)
        invariant owned == old(owned) + Elements(devices[..i])
      {
        ElementsStep(devices, i);
        table.SetOwner(devices[i], local);
        owned := owned + {devices[i]};
        if i == failing {
          return false, [];
        }
        accepted := accepted + [devices[i]];
      }
      assert devices[..|devices|] == devices;
      ok := true;
    }

    /** release_devices. The table is neither read nor written, so the agreement survives exactly
        when the table names another node for each released device. */
    method ReleaseDevices(devices: seq<Device>)
      modifies this
      ensures owned == old(owned) - Elements(devices)
      ensures old(Agrees()) ==>
                (Agrees() <==> forall d :: d in devices && d in table.rows ==> table.rows[d].owner != local)
    {
      for i := 0 to |devices|
        invariant owned == old(owned) - Elements(devices[..i])
      {
        ElementsStep(devices, i);
        owned := owned - {devices[i]};
      }
      assert devices[..|devices|] == devices;
    }

    /** redistribute_from_failed. `orphans` is the order in which the failed node's devices were
        read. Device i goes to target i modulo the number of targets; this node adds its own.
        The agreement survives unless the failed node is this one and gives a device away. */
    method RedistributeFromFailed(failed: Node, others: seq<Peer>)
      returns (ghost orphans: seq<Device>, ghost targets: seq<Node>)
      modifies this, table
      ensures targets == Nodes(Redistribution.Ordered(others, Peer(local, |old(owned)|)))
      ensures targets != [] && Lists(orphans, OwnedBy(old(table.rows), failed))
      ensures Redistribution.Reassigned(old(table.rows), table.rows, orphans, targets, |orphans|)
      ensures owned == old(owned) + Redistribution.Gained(orphans, targets, |orphans|, local)
      ensures old(Agrees()) ==>
                (Agrees() <==> failed != local || forall i :: 0 <= i < |orphans| ==> TargetOf(targets, i) == local)
      ensures SpreadOver(old(table.rows), table.rows, |orphans|, others, Peer(local, |old(owned)|), failed)
    {
      var found := table.DevicesByOwner(failed);
      ghost var me := Peer(local, |owned|);
      Redistribution.OrderedFacts(others, me);
      var all := Nodes(Redistribution.Ordered(others, Peer(local, |owned|)));
      orphans, targets := found, all;
      WriteTargets(found, all);
      AgreementAfterRedistribution(old(table.rows), table.rows, old(owned), owned, local, failed, found, all);
      SpreadAfterRedistribution(old(table.rows), table.rows, found, others, me, failed);
    }

    /** The loop that writes the new owners. */
    method WriteTargets(orphans: seq<Device>, targets: seq<Node>)
      requires targets != [] && NoDuplicates(orphans)
      modifies this, table
      ensures Redistribution.Reassigned(old(table.rows), table.rows, orphans, targets, |orphans|)
      ensures owned == old(owned) + Redistribution.Gained(orphans, targets, |orphans|, local)
    {
      ghost var before := table.rows;
      for i := 0 to |orphans|
        invariant Redistribution.Reassigned(before, table.rows, orphans, targets, i)
        invariant owned == old(owned) + Redistribution.Gained(orphans, targets, i, local)
      {
        Redistribution.ReassignedStep(before, table.rows, orphans, targets, i);
        Redistribution.GainedStep(orphans, targets, i, local);
        var target := TargetOf(targets, i);
        table.SetOwner(orphans[i], target);
        if target == local {
          owned := owned + {orphans[i]};
        }
      }
    }

    /** Gives up to `count` of the listed devices to one node, starting at position `from`. */
    method GiveTo(target: Node, give: seq<Device>, from: nat, count: nat, ghost before: Rows, ghost moves: seq<Move>)
      returns (upTo: nat, ghost moves': seq<Move>)
      requires from <= |give| && Handed(give, from, moves) && NoDuplicates(give)
      requires Rebalance.Moved(before, table.rows, moves)
      modifies this, table
      ensures upTo == (if from + count <= |give| then from + count else |give|)
      ensures Handed(give, upTo, moves') && Rebalance.Moved(before, table.rows, moves')
      ensures owned == old(owned) - Elements(give[from..upTo])
      ensures moves <= moves' && forall k :: |moves| <= k < |moves'| ==> moves'[k].to == target
    {
      upTo := from;
      moves' := moves;
      assert Elements(give[from..from]) == {};
      var given := 0;
      while given < count && upTo < |give|
        invariant 0 <= given <= count && upTo == from + given <= |give|
        invariant Handed(give, upTo, moves') && Rebalance.Moved(before, table.rows, moves')
        invariant owned == old(owned) - Elements(give[from..upTo])
        invariant moves <= moves' && forall k :: |moves| <= k < |moves'| ==> moves'[k].to == target
      {
        var d := give[upTo];
        ghost var m := Rebalance.Move(d, target);
        NotHandedYet(give, upTo, moves');
        Rebalance.MovedStep(before, table.rows, moves', m);
        table.SetOwner(d, target);
        SliceElements(give, from, upTo);
        HandedStep(give, upTo, moves', m);
        owned := owned - {d};
        moves' := moves' + [m];
        upTo, given := upTo + 1, given + 1;
      }
    }

    /** rebalance_cluster. `moves` is what it did, in order. The rest of the contract is about the
        moves: at most the excess leaves, each device at most once, only receivers below average
        get any, none beyond what it may take, and either the whole excess leaves or every
        receiver is filled. */
    method RebalanceCluster(others: seq<Rebalance.Report>, localLoad: real, localMax: nat)
      returns (ghost moves: seq<Move>)
      requires Rebalance.DistinctReports(others)
      modifies this, table
      ensures Rebalance.Moved(old(table.rows), table.rows, moves) && Rebalance.DistinctMoves(moves)
      ensures Rebalance.MovedDevices(moves) <= old(owned) && owned == old(owned) - Rebalance.MovedDevices(moves)
      ensures RebalancedWell(others, localLoad, localMax, |old(owned)|, moves)
      ensures old(Agrees()) && (forall r :: r in others ==> r.node != local) ==> Agrees()
    {
      var average := Rebalance.AverageLoad(others, localLoad);
      var under := Rebalance.Receivers(others, average);
      Rebalance.ReceiversFacts(others, average);
      var excess := Rebalance.Excess(average, localMax, |owned|);
      moves := [];
      if others != [] && under != [] && excess > 0 {
        moves := Shed(under, average, excess);
        AgreementAfterMoves(old(table.rows), table.rows, old(owned), owned, local, moves, under);
      } else {
        assert Rebalance.MovedDevices(moves) == {};
      }
    }

    /** Hands out `excess` of the owned devices, picked in any order. */
    method Shed(under: seq<Rebalance.Report>, average: real, excess: nat) returns (ghost moves: seq<Move>)
      requires under != [] && Rebalance.DistinctReports(under) && 0 < excess <= |owned|
      modifies this, table
      ensures Rebalance.Moved(old(table.rows), table.rows, moves) && Rebalance.DistinctMoves(moves)
      ensures Rebalance.MovedDevices(moves) <= old(owned) && owned == old(owned) - Rebalance.MovedDevices(moves)
      ensures |moves| <= excess && forall k :: 0 <= k < |moves| ==> Rebalance.GoesToOneOf(under, moves[k])
      ensures Rebalance.Filled(under, |under|, average, DivCeil(excess, |under|), moves, |moves| < excess)
    {
      var listing := ListSet(owned);
      ListsSize(listing, owned);
      var give := listing[..excess];
      moves := HandOut(give, under, average);
      HandedDevices(give, |moves|, moves);
      assert under[..|under|] == under;
    }

    /** The two nested loops over receivers and devices. */
    method HandOut(give: seq<Device>, under: seq<Rebalance.Report>, average: real) returns (ghost moves: seq<Move>)
      requires give != [] && under != [] && NoDuplicates(give) && Rebalance.DistinctReports(under)
      modifies this, table
      ensures Rebalance.Moved(old(table.rows), table.rows, moves) && Handed(give, |moves|, moves)
      ensures owned == old(owned) - Elements(give[..|moves|])
      ensures Rebalance.Filled(under, |under|, average, DivCeil(|give|, |under|), moves, |moves| < |give|)
    {
      ghost var before := table.rows;
      moves := [];
      var next := 0;
      var perNode := DivCeil(|give|, |under|);
      var i := 0;
      while i < |under|
        invariant 0 <= i <= |under| && Handed(give, next, moves)
        invariant Rebalance.Moved(before, table.rows, moves)
        invariant owned == old(owned) - Elements(give[..next])
        invariant Rebalance.Filled(under, i, average, perNode, moves, next < |give|)
      {
        if next >= |give| {
          Rebalance.FilledToEnd(under, i, average, perNode, moves);
          break;
        }
        var canTake := Rebalance.CanTake(under[i], average, perNode);
        ghost var had := moves;
        ghost var first := next;
        next, moves := GiveTo(under[i].node, give, next, canTake, before, moves);
        assert give[..next] == give[..first] + give[first..next];
        Rebalance.FilledStep(under, i, average, perNode, had, moves, next < |give|);
        i := i + 1;
      }
    }
  }

  /** The moves made so far hand out the first n devices of the list, in order. */
  ghost predicate Handed(give: seq<Device>, n: nat, moves: seq<Move>) {
    |moves| == n <= |give| && forall k :: 0 <= k < n ==> moves[k].device == give[k]
  }

  lemma HandedStep(give: seq<Device>, n: nat, moves: seq<Move>, m: Move)
    requires Handed(give, n, moves) && n < |give| && m.device == give[n]
    ensures Handed(give, n + 1, moves + [m])
  {
  }

  lemma SliceElements(give: seq<Device>, from: nat, upTo: nat)
    requires from <= upTo < |give|
    ensures Elements(give[from..upTo + 1]) == Elements(give[from..upTo]) + {give[upTo]}
  {
    assert give[from..upTo + 1] == give[from..upTo] + [give[upTo]];
  }

  lemma HandedDevices(give: seq<Device>, n: nat, moves: seq<Move>)
    requires Handed(give, n, moves) && NoDuplicates(give)
    ensures Rebalance.MovedDevices(moves) == Elements(give[..n]) && Rebalance.DistinctMoves(moves)
  {
    forall d ensures d in Rebalance.MovedDevices(moves) <==> d in give[..n] {
      if d in give[..n] {
        var k :| 0 <= k < n && give[k] == d;
        assert moves[k].device == d;
      }
    }
  }

  lemma NotHandedYet(give: seq<Device>, n: nat, moves: seq<Move>)
    requires Handed(give, n, moves) && n < |give| && NoDuplicates(give)
    ensures give[n] !in Rebalance.MovedDevices(moves)
  {
  }

  ghost predicate Agreement(rows: Rows, owned: set<Device>, local: Node) {
    forall d :: d in rows ==> (d in owned <==> rows[d].owner == local)
  }

  lemma AgreementAfterRedistribution(before: Rows, after: Rows, had: set<Device>, has: set<Device>, local: Node,
                                     failed: Node, orphans: seq<Device>, targets: seq<Node>)
    requires targets != [] && Lists(orphans, OwnedBy(before, failed))
    requires Redistribution.Reassigned(before, after, orphans, targets, |orphans|)
    requires has == had + Redistribution.Gained(orphans, targets, |orphans|, local)
    ensures Agreement(before, had, local) ==>
              (Agreement(after, has, local) <==>
               failed != local || forall i :: 0 <= i < |orphans| ==> TargetOf(targets, i) == local)
  {
    if Agreement(before, had, local) {
      assert orphans[..|orphans|] == orphans;
      forall d | d in after && d !in orphans ensures d in has <==> after[d].owner == local {
      }
      forall i | 0 <= i < |orphans|
        ensures orphans[i] in after && after[orphans[i]].owner == TargetOf(targets, i)
        ensures orphans[i] in has <==> failed == local || TargetOf(targets, i) == local
      {
        assert orphans[i] in OwnedBy(before, failed);
        if orphans[i] in Redistribution.Gained(orphans, targets, |orphans|, local) {
          var j :| 0 <= j < |orphans| && TargetOf(targets, j) == local && orphans[j] == orphans[i];
          assert i == j;
        }
      }
    }
  }

  /** If the failed node is not among the targets and no node is listed twice, the targets get exact
      shares and their counts end no further apart than they were. */
  ghost predicate SpreadOver(before: Rows, after: Rows, k: nat, others: seq<Peer>, me: Peer, failed: Node) {
    var peers := Redistribution.Ordered(others, me);
    Redistribution.DistinctPeers(others + [me]) && (forall p :: p in others + [me] ==> p.node != failed) ==>
      peers != [] && Redistribution.SpreadFairly(before, after, peers, k)
  }

  lemma SpreadAfterRedistribution(before: Rows, after: Rows, orphans: seq<Device>, others: seq<Peer>, me: Peer,
                                  failed: Node)
    requires Redistribution.Ordered(others, me) != [] && Lists(orphans, OwnedBy(before, failed))
    requires Redistribution.Reassigned(before, after, orphans, Nodes(Redistribution.Ordered(others, me)), |orphans|)
    ensures SpreadOver(before, after, |orphans|, others, me, failed)
  {
    if Redistribution.DistinctPeers(others + [me]) && (forall p :: p in others + [me] ==> p.node != failed) {
      Redistribution.SpreadInTable(before, after, orphans, others, me, failed);
    }
  }

  /** What a caller can rely on about the moves, in terms of what it passed in. */
  ghost predicate RebalancedWell(others: seq<Rebalance.Report>, localLoad: real, localMax: nat, owned: nat,
                                 moves: seq<Move>)
  {
    var average := Rebalance.AverageLoad(others, localLoad);
    var under := Rebalance.Receivers(others, average);
    var excess := Rebalance.Excess(average, localMax, owned);
    && |moves| <= excess
    && (forall k :: 0 <= k < |moves| ==> Rebalance.GoesToOneOf(under, moves[k]))
    && (under != [] && excess > 0 ==>
        Rebalance.Filled(under, |under|, average, DivCeil(excess, |under|), moves, |moves| < excess))
  }

  /** Rebalancing never overshoots: the node keeps at least its own average-load count if it had
      it, a node without a suggested maximum gives nothing, a receiver with a suggested maximum
      ends at most at its average-load count, and nodes at or above the average get nothing. */
  lemma RebalanceNeverOvershoots(others: seq<Rebalance.Report>, localLoad: real, localMax: nat, owned: nat,
                                 moves: seq<Move>, r: Rebalance.Report)
    requires Rebalance.DistinctReports(others) && r in others
    requires RebalancedWell(others, localLoad, localMax, owned, moves)
    ensures var average := Rebalance.AverageLoad(others, localLoad);
            var received := Rebalance.MovedTo(moves, r.node);
            && (localMax == 0 ==> moves == [])
            && (owned >= Rebalance.CountAt(average, localMax) ==>
                  owned - |moves| >= Rebalance.CountAt(average, localMax))
            && (owned < Rebalance.CountAt(average, localMax) ==> moves == [])
            && (received > 0 && r.max > 0 ==> r.count + received <= Rebalance.CountAt(average, r.max))
            && (received > 0 ==> r.load < average)
  {
    var average := Rebalance.AverageLoad(others, localLoad);
    var under := Rebalance.Receivers(others, average);
    Rebalance.ReceiversFacts(others, average);
    if Rebalance.MovedTo(moves, r.node) > 0 {
      SomeMoveGoesTo(moves, r.node);
      var k :| 0 <= k < |moves| && moves[k].to == r.node;
      assert Rebalance.GoesToOneOf(under, moves[k]);
      var q :| q in under && q.node == r.node;
      assert q in others;
      SameNodeSameReport(others, q, r);
      var j :| 0 <= j < |under| && under[j] == r;
      Rebalance.CanTakeBounds(r, average, DivCeil(Rebalance.Excess(average, localMax, owned), |under|));
    }
  }

  /** The nodes below the average, in some order. */
  ghost predicate AreBelow(under: seq<Rebalance.Report>, others: seq<Rebalance.Report>, average: real) {
    Rebalance.DistinctReports(under) && forall q :: q in under <==> q in others && q.load < average
  }

  /** Nothing moves unless some node is below the average and this one has a suggested maximum and more
      devices than its target. */
  lemma NothingToRebalance(others: seq<Rebalance.Report>, localLoad: real, localMax: nat, owned: nat, moves: seq<Move>,
                           keep: nat)
    requires Rebalance.DistinctReports(others) && RebalancedWell(others, localLoad, localMax, owned, moves)
    requires Rebalance.IsTarget(keep, Rebalance.AverageLoad(others, localLoad), localMax)
    requires || localMax == 0 || owned <= keep
             || forall r :: r in others ==> r.load >= Rebalance.AverageLoad(others, localLoad)
    ensures moves == []
  {
    var average := Rebalance.AverageLoad(others, localLoad);
    Rebalance.TargetIsUnique(keep, average, localMax);
    Rebalance.ReceiversFacts(others, average);
    assert moves != [] ==> Rebalance.GoesToOneOf(Rebalance.Receivers(others, average), moves[0]);
  }

  /** How much moves, in terms of the reports alone. The node ends with exactly its target, or every
      receiver got its full amount; nobody gets more than that; and a receiver gets devices only when
      every less loaded one has its full amount. */
  lemma RebalanceOutcome(others: seq<Rebalance.Report>, localLoad: real, localMax: nat, owned: nat, moves: seq<Move>,
                         keep: nat, under: seq<Rebalance.Report>, share: nat, r: Rebalance.Report, c: nat)
    requires Rebalance.DistinctReports(others) && RebalancedWell(others, localLoad, localMax, owned, moves)
    requires localMax > 0 && Rebalance.IsTarget(keep, Rebalance.AverageLoad(others, localLoad), localMax)
    requires owned > keep && AreBelow(under, others, Rebalance.AverageLoad(others, localLoad)) && r in under
    requires Rebalance.IsShare(share, owned - keep, |under|)
    requires r.max > 0 ==> Rebalance.IsTarget(c, Rebalance.AverageLoad(others, localLoad), r.max)
    ensures owned - |moves| == keep || Rebalance.MovedTo(moves, r.node) == Rebalance.FullAmount(r, c, share)
    ensures owned - |moves| >= keep && Rebalance.MovedTo(moves, r.node) <= Rebalance.FullAmount(r, c, share)
    ensures forall q :: q in under && r.load < q.load && Rebalance.MovedTo(moves, q.node) > 0 ==>
              Rebalance.MovedTo(moves, r.node) == Rebalance.FullAmount(r, c, share)
  {
    var average := Rebalance.AverageLoad(others, localLoad);
    var receivers := Rebalance.Receivers(others, average);
    FilledAccordingly(others, localLoad, localMax, owned, moves, keep, under, share);
    Rebalance.CanTakeIsFullAmount(r, average, c, share);
    ReceiverGets(receivers, average, share, moves, owned - keep, r);
    forall q | q in under && r.load < q.load && Rebalance.MovedTo(moves, q.node) > 0
      ensures Rebalance.MovedTo(moves, r.node) == Rebalance.FullAmount(r, c, share)
    {
      LessLoadedFirst(receivers, average, share, moves, r, q);
    }
  }

  /** The target and the share determine what the method computed. */
  lemma FilledAccordingly(others: seq<Rebalance.Report>, localLoad: real, localMax: nat, owned: nat, moves: seq<Move>,
                          keep: nat, under: seq<Rebalance.Report>, share: nat)
    requires Rebalance.DistinctReports(others) && RebalancedWell(others, localLoad, localMax, owned, moves)
    requires localMax > 0 && Rebalance.IsTarget(keep, Rebalance.AverageLoad(others, localLoad), localMax)
    requires owned > keep && AreBelow(under, others, Rebalance.AverageLoad(others, localLoad)) && under != []
    requires Rebalance.IsShare(share, owned - keep, |under|)
    ensures var average := Rebalance.AverageLoad(others, localLoad);
            var receivers := Rebalance.Receivers(others, average);
            && AreBelow(receivers, others, average) && |moves| <= owned - keep
            && (forall i, j :: 0 <= i < j < |receivers| ==> receivers[i].load <= receivers[j].load)
            && Rebalance.Filled(receivers, |receivers|, average, share, moves, |moves| < owned - keep)
  {
    var average := Rebalance.AverageLoad(others, localLoad);
    var receivers := Rebalance.Receivers(others, average);
    Rebalance.ReceiversFacts(others, average);
    Rebalance.SameLength(under, receivers);
    Rebalance.TargetIsUnique(keep, average, localMax);
    Rebalance.ShareIsUnique(share, owned - keep, |under|);
    FilledWithShare(receivers, average, localMax, owned, keep, share, moves);
  }

  lemma FilledWithShare(receivers: seq<Rebalance.Report>, average: real, localMax: nat, owned: nat, keep: nat,
                        share: nat, moves: seq<Move>)
    requires receivers != [] && localMax > 0 && owned > keep && keep == Rebalance.CountAt(average, localMax)
    requires share == DivCeil(owned - keep, |receivers|)
    requires var excess := Rebalance.Excess(average, localMax, owned);
             && |moves| <= excess
             && (excess > 0 ==> Rebalance.Filled(receivers, |receivers|, average, DivCeil(excess, |receivers|), moves,
                                                 |moves| < excess))
    ensures |moves| <= owned - keep
    ensures Rebalance.Filled(receivers, |receivers|, average, share, moves, |moves| < owned - keep)
  {
  }

  lemma ReceiverGets(receivers: seq<Rebalance.Report>, average: real, share: nat, moves: seq<Move>, excess: nat,
                     r: Rebalance.Report)
    requires r in receivers && |moves| <= excess
    requires Rebalance.Filled(receivers, |receivers|, average, share, moves, |moves| < excess)
    ensures Rebalance.MovedTo(moves, r.node) <= Rebalance.CanTake(r, average, share)
    ensures |moves| == excess || Rebalance.MovedTo(moves, r.node) == Rebalance.CanTake(r, average, share)
  {
  }

  lemma LessLoadedFirst(receivers: seq<Rebalance.Report>, average: real, share: nat, moves: seq<Move>,
                        r: Rebalance.Report, q: Rebalance.Report)
    requires r in receivers && q in receivers && r.load < q.load && Rebalance.MovedTo(moves, q.node) > 0
    requires forall i, j :: 0 <= i < j < |receivers| ==> receivers[i].load <= receivers[j].load
    requires Rebalance.InTurn(receivers, average, share, moves)
    ensures Rebalance.MovedTo(moves, r.node) == Rebalance.CanTake(r, average, share)
  {
    var i :| 0 <= i < |receivers| && receivers[i] == r;
    var j :| 0 <= j < |receivers| && receivers[j] == q;
    assert i < j;
  }

  lemma SameNodeSameReport(s: seq<Rebalance.Report>, a: Rebalance.Report, b: Rebalance.Report)
    requires Rebalance.DistinctReports(s) && a in s && b in s && a.node == b.node
    ensures a == b
  {
  }

  lemma {:induction false} SomeMoveGoesTo(moves: seq<Move>, n: Node)
    requires Rebalance.MovedTo(moves, n) > 0
    ensures exists k :: 0 <= k < |moves| && moves[k].to == n
    decreases |moves|
  {
    var front := moves[..|moves| - 1];
    if moves[|moves| - 1].to != n {
      SomeMoveGoesTo(front, n);
      var k :| 0 <= k < |front| && front[k].to == n;
      assert moves[k] == front[k];
    }
  }

  lemma AgreementAfterMoves(before: Rows, after: Rows, had: set<Device>, has: set<Device>, local: Node,
                            moves: seq<Move>, under: seq<Rebalance.Report>)
    requires Rebalance.Moved(before, after, moves) && has == had - Rebalance.MovedDevices(moves)
    requires forall k :: 0 <= k < |moves| ==> Rebalance.GoesToOneOf(under, moves[k])
    ensures Agreement(before, had, local) && (forall r :: r in under ==> r.node != local) ==>
              Agreement(after, has, local)
  {
    if Agreement(before, had, local) && (forall r :: r in under ==> r.node != local) {
      forall d | d in after ensures d in has <==> after[d].owner == local {
        if d in Rebalance.MovedDevices(moves) {
          var k :| 0 <= k < |moves| && moves[k].device == d;
          assert Rebalance.GoesToOneOf(under, moves[k]);
        }
      }
    }
  }

  // ----- Any sequence of operations on one node -----

  datatype Operation =
    | Load
    | Register(device: Device)
    | ClaimFree
    | ClaimEverything
    | Accept(devices: seq<Device>, failing: nat)
    | Redistribute(failed: Node, peers: seq<Peer>)
    | Balance(reports: seq<Rebalance.Report>, load: real, max: nat)

  /** Lists supplied by the membership name other nodes, each once; a node does not redistribute
      its own devices. */
  ghost predicate Admissible(op: Operation, local: Node) {
    match op
    case Redistribute(failed, _) => failed != local
    case Balance(reports, _, _) =>
      Rebalance.DistinctReports(reports) && forall r :: r in reports ==> r.node != local
    case _ => true
  }

  /** Run on one node alone, any sequence of operations keeps the owned set and the table in
      agreement, also when acceptances fail half way. */
  method Operate(m: Manager, ops: seq<Operation>)
    requires m.buckets > 0 && m.Agrees()
    requires forall i :: 0 <= i < |ops| ==> Admissible(ops[i], m.local)
    modifies m, m.table
    ensures m.Agrees()
  {
    for i := 0 to |ops|
      invariant m.Agrees()
    {
      match ops[i] {
        case Load =>
          m.LoadFromDatabase();
        case Register(d) =>
          var _ := m.RegisterDevice(d);
        case ClaimFree =>
          var _ := m.ClaimUnassigned();
        case ClaimEverything =>
          var _ := m.ClaimAll();
        case Accept(devices, failing) =>
          var _, _ := m.AcceptDelegation(devices, failing);
        case Redistribute(failed, peers) =>
          ghost var _, _ := m.RedistributeFromFailed(failed, peers);
        case Balance(reports, load, max) =>
          ghost var _ := m.RebalanceCluster(reports, load, max);
      }
    }
  }
}
