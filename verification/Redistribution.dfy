/** How evenly a failed node's devices are spread: device i of k goes to target i mod n, and the
    targets are ordered by the number of devices they reported. */
module Redistribution {
  import opened Basics
  import opened Database
  import opened Sorting

  ghost predicate DistinctPeers(peers: seq<Peer>) {
    forall i, j :: 0 <= i < j < |peers| ==> peers[i].node != peers[j].node
  }

  /** The targets in the order used: the other active nodes and the local one, by count. */
  function Ordered(others: seq<Peer>, local: Peer): seq<Peer> {
    SortBy(others + [local], CountKey)
  }

  lemma OrderedFacts(others: seq<Peer>, local: Peer)
    ensures Ordered(others, local) != []
    ensures forall p :: p in Ordered(others, local) <==> p in others || p == local
    ensures forall i, j :: 0 <= i < j < |Ordered(others, local)| ==>
              Ordered(others, local)[i].count <= Ordered(others, local)[j].count
    ensures DistinctPeers(others + [local]) ==> DistinctPeers(Ordered(others, local))
  {
    SortByIsSorted(others + [local], CountKey);
    PermutationFacts(others + [local], Ordered(others, local));
    var s := Ordered(others, local);
    forall i, j | 0 <= i < j < |s| ensures s[i].count <= s[j].count {
      assert CountKey(s[i]) <= CountKey(s[j]);
    }
    if DistinctPeers(others + [local]) {
      PermutationKeepsDistinct(others + [local], s, (p: Peer) => p.node);
    }
  }

  // ----- Shares -----

  /** How many of the first k devices go to node t. */
  ghost function Received(targets: seq<Node>, k: nat, t: Node): nat
    requires targets != []
  {
    if k == 0 then 0 else Received(targets, k - 1, t) + if TargetOf(targets, k - 1) == t then 1 else 0
  }

  lemma TargetIsIndex(targets: seq<Node>, i: nat, j: nat)
    requires NoDuplicates(targets) && j < |targets|
    ensures TargetOf(targets, i) == targets[j] <==> i % |targets| == j
  {
  }

  /** k = full * n + extra. */
  ghost predicate Divides(k: nat, n: nat, full: nat, extra: nat) {
    extra < n && k == n * full + extra
  }

  lemma {:induction false} SharesByDivision(targets: seq<Node>, k: nat, j: nat, full: nat, extra: nat)
    requires NoDuplicates(targets) && j < |targets| && Divides(k, |targets|, full, extra)
    ensures Received(targets, k, targets[j]) == full + if j < extra then 1 else 0
    decreases k
  {
    var n := |targets|;
    if k == 0 {
      ZeroDivides(n, full, extra);
    } else {
      var i := k - 1;
      TargetIsIndex(targets, i, j);
      if extra > 0 {
        SharesByDivision(targets, i, j, full, extra - 1);
        ModOf(full, n, extra - 1, i);
      } else {
        assert n * 0 == 0 && full > 0;
        assert n * full == n * (full - 1) + n;
        SharesByDivision(targets, i, j, full - 1, n - 1);
        ModOf(full - 1, n, n - 1, i);
      }
    }
  }

  lemma ZeroDivides(n: nat, full: nat, extra: nat)
    requires Divides(0, n, full, extra)
    ensures full == 0 && extra == 0
  {
    assert full * n == n * full;
    if full > 0 {
      MulGap(0, full, n);
    }
  }

  /** With k devices over n targets, each target gets the rounded-down or the rounded-up share, and
      the k mod n extra devices go to the targets that reported the fewest devices. */
  lemma FairShares(targets: seq<Node>, k: nat, j: nat)
    requires NoDuplicates(targets) && j < |targets|
    ensures Received(targets, k, targets[j]) == k / |targets| + if j < k % |targets| then 1 else 0
  {
    var n := |targets|;
    assert k == n * (k / n) + k % n;
    SharesByDivision(targets, k, j, k / n, k % n);
  }

  function Max(a: int, b: int): int { if a < b then b else a }

  /** Redistribution does not make the reported counts more uneven: any two targets end up no
      further apart than the largest difference before, or one device. */
  lemma SpreadDoesNotGrow(peers: seq<Peer>, k: nat, a: nat, b: nat)
    requires DistinctPeers(peers) && a < |peers| && b < |peers|
    requires forall i, j :: 0 <= i < j < |peers| ==> peers[i].count <= peers[j].count
    ensures var t := Nodes(peers);
            (peers[a].count + Received(t, k, t[a])) - (peers[b].count + Received(t, k, t[b]))
            <= Max(peers[|peers| - 1].count - peers[0].count, 1)
  {
    var t := Nodes(peers);
    assert NoDuplicates(t);
    FairShares(t, k, a);
    FairShares(t, k, b);
  }

  // ----- The effect on the table -----

  /** The rows after the first k devices have been written. */
  ghost predicate Reassigned(before: Rows, after: Rows, orphans: seq<Device>, targets: seq<Node>, k: nat)
    requires targets != [] && k <= |orphans|
  {
    && after.Keys == before.Keys
    && (forall i :: 0 <= i < k && orphans[i] in after ==>
          after[orphans[i]] == Row(before[orphans[i]].bucket, TargetOf(targets, i)))
    && (forall d :: d in after && d !in orphans[..k] ==> after[d] == before[d])
  }

  lemma ReassignedStep(before: Rows, rows: Rows, orphans: seq<Device>, targets: seq<Node>, k: nat)
    requires targets != [] && k < |orphans| && NoDuplicates(orphans)
    requires Reassigned(before, rows, orphans, targets, k)
    ensures Reassigned(before, WithOwner(rows, orphans[k], TargetOf(targets, k)), orphans, targets, k + 1)
  {
    var after := WithOwner(rows, orphans[k], TargetOf(targets, k));
    assert orphans[..k + 1] == orphans[..k] + [orphans[k]];
    assert orphans[k] !in orphans[..k];
    forall i | 0 <= i < k + 1 && orphans[i] in after
      ensures after[orphans[i]] == Row(before[orphans[i]].bucket, TargetOf(targets, i))
    {
      if i == k {
        assert rows[orphans[k]] == before[orphans[k]];
      } else {
        assert orphans[i] != orphans[k];
      }
    }
  }

  /** The orphans among the first k that go to t. */
  ghost function Gained(orphans: seq<Device>, targets: seq<Node>, k: nat, t: Node): set<Device>
    requires targets != [] && k <= |orphans|
  {
    set i | 0 <= i < k && TargetOf(targets, i) == t :: orphans[i]
  }

  lemma GainedStep(orphans: seq<Device>, targets: seq<Node>, k: nat, t: Node)
    requires targets != [] && k < |orphans|
    ensures Gained(orphans, targets, k + 1, t) ==
            Gained(orphans, targets, k, t) + if TargetOf(targets, k) == t then {orphans[k]} else {}
  {
  }

  lemma {:induction false} GainedSize(orphans: seq<Device>, targets: seq<Node>, k: nat, t: Node)
    requires targets != [] && k <= |orphans| && NoDuplicates(orphans)
    ensures |Gained(orphans, targets, k, t)| == Received(targets, k, t)
    decreases k
  {
    if k == 0 {
      assert Gained(orphans, targets, k, t) == {};
    } else {
      GainedSize(orphans, targets, k - 1, t);
      GainedStep(orphans, targets, k - 1, t);
    }
  }

  /** The table sees the same shares: a node other than the failed one is recorded for as many more
      devices as it received. */
  lemma OwnedAfter(before: Rows, after: Rows, orphans: seq<Device>, targets: seq<Node>, failed: Node, t: Node)
    requires targets != [] && Lists(orphans, OwnedBy(before, failed)) && t != failed
    requires Reassigned(before, after, orphans, targets, |orphans|)
    ensures |OwnedBy(after, t)| == |OwnedBy(before, t)| + Received(targets, |orphans|, t)
  {
    GainedSize(orphans, targets, |orphans|, t);
    forall d
      ensures d in OwnedBy(after, t) <==> d in OwnedBy(before, t) || d in Gained(orphans, targets, |orphans|, t)
    {
      OwnedAfterMember(before, after, orphans, targets, failed, t, d);
    }
    GainedIsNew(before, orphans, targets, failed, t);
    UnionSize(OwnedBy(after, t), OwnedBy(before, t), Gained(orphans, targets, |orphans|, t));
  }

  ghost function RowCount(rows: Rows, n: Node): nat { |OwnedBy(rows, n)| }

  /** What the i-th target gains in the table. */
  function ShareAt(k: nat, n: nat, i: nat): nat
    requires n > 0
  {
    k / n + if i < k % n then 1 else 0
  }

  /** Each target gained exactly its share of the rows. */
  ghost predicate SharesGained(before: Rows, after: Rows, peers: seq<Peer>, k: nat)
    requires peers != []
  {
    forall i :: 0 <= i < |peers| ==>
      RowCount(after, peers[i].node) == RowCount(before, peers[i].node) + ShareAt(k, |peers|, i)
  }

  /** The reported counts plus the shares are no further apart than the reported counts were, or one
      device. */
  ghost predicate ReportsStayClose(peers: seq<Peer>, k: nat)
    requires peers != []
  {
    forall i, j :: 0 <= i < |peers| && 0 <= j < |peers| ==>
      peers[i].count + ShareAt(k, |peers|, i) - (peers[j].count + ShareAt(k, |peers|, j)) <= Gap(peers)
  }

  /** The table after k devices went over the targets: exact shares, counts that stay close, and rows
      that stay equally close if the reports were accurate. */
  ghost predicate SpreadFairly(before: Rows, after: Rows, peers: seq<Peer>, k: nat)
    requires peers != []
  {
    && SharesGained(before, after, peers, k)
    && ReportsStayClose(peers, k)
    && ((forall p :: p in peers ==> p.count == RowCount(before, p.node)) ==>
          forall i, j :: 0 <= i < |peers| && 0 <= j < |peers| ==>
            RowCount(after, peers[i].node) - RowCount(after, peers[j].node) <= Gap(peers))
  }

  /** The largest difference between reported counts, or one. */
  function Gap(peers: seq<Peer>): int
    requires peers != []
  {
    Max(peers[|peers| - 1].count - peers[0].count, 1)
  }

  /** Redistribution over the list it really uses: exact shares in the table, and a spread that does
      not grow. */
  lemma SpreadInTable(before: Rows, after: Rows, orphans: seq<Device>, others: seq<Peer>, me: Peer, failed: Node)
    requires DistinctPeers(others + [me]) && forall p :: p in others + [me] ==> p.node != failed
    requires Ordered(others, me) != [] && Lists(orphans, OwnedBy(before, failed))
    requires Reassigned(before, after, orphans, Nodes(Ordered(others, me)), |orphans|)
    ensures SpreadFairly(before, after, Ordered(others, me), |orphans|)
  {
    var peers, k := Ordered(others, me), |orphans|;
    OrderedFacts(others, me);
    forall i | 0 <= i < |peers|
      ensures RowCount(after, peers[i].node) == RowCount(before, peers[i].node) + ShareAt(k, |peers|, i)
    {
      assert peers[i] in peers;
      ShareInTable(before, after, orphans, peers, failed, i);
    }
    forall i, j | 0 <= i < |peers| && 0 <= j < |peers|
      ensures peers[i].count + ShareAt(k, |peers|, i) - (peers[j].count + ShareAt(k, |peers|, j)) <= Gap(peers)
    {
      SharesStayClose(peers, k, i, j);
    }
    SpreadOfRows(before, after, peers, k);
  }

  lemma ShareInTable(before: Rows, after: Rows, orphans: seq<Device>, peers: seq<Peer>, failed: Node, i: nat)
    requires DistinctPeers(peers) && i < |peers| && peers[i].node != failed
    requires Lists(orphans, OwnedBy(before, failed))
    requires Reassigned(before, after, orphans, Nodes(peers), |orphans|)
    ensures RowCount(after, peers[i].node) == RowCount(before, peers[i].node) + ShareAt(|orphans|, |peers|, i)
  {
    var t := Nodes(peers);
    assert NoDuplicates(t);
    OwnedAfter(before, after, orphans, t, failed, t[i]);
    FairShares(t, |orphans|, i);
  }

  lemma SharesStayClose(peers: seq<Peer>, k: nat, i: nat, j: nat)
    requires DistinctPeers(peers) && i < |peers| && j < |peers|
    requires forall a, b :: 0 <= a < b < |peers| ==> peers[a].count <= peers[b].count
    ensures peers[i].count + ShareAt(k, |peers|, i) - (peers[j].count + ShareAt(k, |peers|, j)) <= Gap(peers)
  {
    var t := Nodes(peers);
    assert NoDuplicates(t);
    FairShares(t, k, i);
    FairShares(t, k, j);
    SpreadDoesNotGrow(peers, k, i, j);
  }

  /** From counts to rows, when the reports are accurate. */
  lemma SpreadOfRows(before: Rows, after: Rows, peers: seq<Peer>, k: nat)
    requires peers != [] && SharesGained(before, after, peers, k) && ReportsStayClose(peers, k)
    ensures SpreadFairly(before, after, peers, k)
  {
    if forall p :: p in peers ==> p.count == RowCount(before, p.node) {
      forall i, j | 0 <= i < |peers| && 0 <= j < |peers|
        ensures RowCount(after, peers[i].node) - RowCount(after, peers[j].node) <= Gap(peers)
      {
        assert peers[i] in peers && peers[j] in peers;
      }
    }
  }

  lemma UnionSize(all: set<Device>, a: set<Device>, b: set<Device>)
    requires a !! b && forall d :: d in all <==> d in a || d in b
    ensures |all| == |a| + |b|
  {
    assert all == a + b;
  }

  lemma GainedIsNew(before: Rows, orphans: seq<Device>, targets: seq<Node>, failed: Node, t: Node)
    requires targets != [] && Lists(orphans, OwnedBy(before, failed)) && t != failed
    ensures OwnedBy(before, t) !! Gained(orphans, targets, |orphans|, t)
  {
    forall d | d in Gained(orphans, targets, |orphans|, t) ensures d !in OwnedBy(before, t) {
      assert d in orphans;
    }
  }

  lemma OwnedAfterMember(before: Rows, after: Rows, orphans: seq<Device>, targets: seq<Node>,
                         failed: Node, t: Node, d: Device)
    requires targets != [] && Lists(orphans, OwnedBy(before, failed)) && t != failed
    requires Reassigned(before, after, orphans, targets, |orphans|)
    ensures d in OwnedBy(after, t) <==> d in OwnedBy(before, t) || d in Gained(orphans, targets, |orphans|, t)
  {
    var k := |orphans|;
    assert orphans[..k] == orphans;
    if d in orphans {
      var i :| 0 <= i < k && orphans[i] == d;
      assert after[d] == Row(before[d].bucket, TargetOf(targets, i));
      if d in Gained(orphans, targets, k, t) {
        var j :| 0 <= j < k && TargetOf(targets, j) == t && orphans[j] == d;
        assert i == j;
      }
    }
  }
}
