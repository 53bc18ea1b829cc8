/** The arithmetic of load rebalancing. Loads are real numbers; the conversions to integers round
    down, are zero for negative values and stop at the largest value of the type. */
module Rebalance {
  import opened Basics
  import opened Database
  import opened Sorting

  /** What a node reports: devices, load in percent, and the suggested maximum number of devices
      (zero when there is none). */
  datatype Report = Report(node: Node, count: nat, load: real, max: nat)

  const U32 := 0x1_0000_0000

  function FloorNat(x: real): nat { if x < 0.0 then 0 else x.Floor }

  function LoadKey(r: Report): real { r.load }

  function TotalLoad(s: seq<Report>): real {
    if s == [] then 0.0 else s[0].load + TotalLoad(s[1..])
  }

  function AverageLoad(others: seq<Report>, localLoad: real): real {
    (TotalLoad(others) + localLoad) / ((|others| + 1) as real)
  }

  /** If every node, this one included, has the same load, that is the average. */
  lemma AverageOfEqual(others: seq<Report>, x: real)
    requires forall r :: r in others ==> r.load == x
    ensures AverageLoad(others, x) == x
  {
    TotalOfEqual(others, x);
    DivideBack(x, |others| + 1);
  }

  lemma DivideBack(x: real, n: nat)
    requires n > 0
    ensures ((n as real) * x) / (n as real) == x
  {
  }

  lemma {:induction false} TotalOfEqual(s: seq<Report>, x: real)
    requires forall r :: r in s ==> r.load == x
    ensures TotalLoad(s) + x == ((|s| + 1) as real) * x
    decreases |s|
  {
    if s != [] {
      TotalOfEqual(s[1..], x);
      assert s[0] in s;
      assert ((|s| + 1) as real) * x == (|s| as real) * x + x;
    }
  }

  /** Raising the local load by e raises the average by e over the number of nodes. */
  lemma AverageOfRaisedLocal(others: seq<Report>, localLoad: real, e: real)
    ensures AverageLoad(others, localLoad + e) == AverageLoad(others, localLoad) + e / ((|others| + 1) as real)
  {
  }

  /** Raising the load of any other node by e does the same. */
  lemma AverageOfRaised(others: seq<Report>, localLoad: real, i: nat, e: real)
    requires i < |others|
    ensures var raised := others[i := others[i].(load := others[i].load + e)];
            AverageLoad(raised, localLoad) == AverageLoad(others, localLoad) + e / ((|others| + 1) as real)
  {
    TotalOfRaised(others, i, e);
  }

  lemma {:induction false} TotalOfRaised(s: seq<Report>, i: nat, e: real)
    requires i < |s|
    ensures TotalLoad(s[i := s[i].(load := s[i].load + e)]) == TotalLoad(s) + e
    decreases |s|
  {
    var raised := s[i := s[i].(load := s[i].load + e)];
    if i == 0 {
      assert raised[1..] == s[1..];
    } else {
      assert raised[1..] == s[1..][i - 1 := s[1..][i - 1].(load := s[1..][i - 1].load + e)];
      TotalOfRaised(s[1..], i - 1, e);
    }
  }

  /** The number of devices that puts a node with the given maximum at the given load. */
  function CountAt(load: real, max: nat): nat { FloorNat(load / 100.0 * (max as real)) }

  /** c is the largest number of devices that keeps a node with the given maximum at or below the
      load, a percentage. */
  ghost predicate LargestBelow(c: nat, load: real, max: nat) {
    && 100.0 * (c as real) <= load * (max as real)
    && load * (max as real) < 100.0 * ((c + 1) as real)
  }

  /** A number of devices keeps the node at or below the load exactly when it is at most CountAt. */
  lemma CountAtIsLargest(load: real, max: nat, c: nat)
    requires load >= 0.0
    ensures 100.0 * (c as real) <= load * (max as real) <==> c <= CountAt(load, max)
    ensures LargestBelow(CountAt(load, max), load, max)
  {
    var x := load / 100.0 * (max as real);
    ScaledLoad(load, max as real);
    assert x.Floor as real <= x < x.Floor as real + 1.0;
    if c > x.Floor {
      assert c as real >= (x.Floor + 1) as real;
    }
  }

  lemma ScaledLoad(load: real, max: real)
    ensures 100.0 * (load / 100.0 * max) == load * max
    ensures load >= 0.0 && max >= 0.0 ==> load / 100.0 * max >= 0.0
  {
    assert 100.0 * (load / 100.0) == load;
    assert 100.0 * (load / 100.0 * max) == (100.0 * (load / 100.0)) * max;
    if load >= 0.0 && max >= 0.0 {
      assert load / 100.0 >= 0.0;
    }
  }

  /** The count a node is brought to: the largest one within the load, none for a negative load. */
  ghost predicate IsTarget(c: nat, load: real, max: nat) {
    if load >= 0.0 then LargestBelow(c, load, max) else c == 0
  }

  lemma TargetIsUnique(c: nat, load: real, max: nat)
    requires IsTarget(c, load, max)
    ensures c == CountAt(load, max)
  {
    if load >= 0.0 {
      CountAtIsLargest(load, max, c);
      CountAtIsLargest(load, max, c + 1);
    } else {
      NegativeLoad(load, max as real);
    }
  }

  lemma NegativeLoad(load: real, max: real)
    requires load < 0.0 && max >= 0.0
    ensures load / 100.0 * max <= 0.0
  {
    assert load / 100.0 < 0.0;
  }

  function SaturatingSub(a: nat, b: nat): nat { if a < b then 0 else a - b }

  function Below(s: seq<Report>, load: real): (r: seq<Report>)
    ensures forall x :: x in r <==> x in s && x.load < load
    ensures DistinctReports(s) ==> DistinctReports(r)
  {
    if s == [] then []
    else if s[0].load < load then [s[0]] + Below(s[1..], load)
    else Below(s[1..], load)
  }

  predicate DistinctReports(s: seq<Report>) {
    forall i, j :: 0 <= i < j < |s| ==> s[i].node != s[j].node
  }

  /** The receivers in the order used: below average, least loaded first. */
  function Receivers(others: seq<Report>, average: real): seq<Report> {
    SortBy(Below(others, average), LoadKey)
  }

  lemma ReceiversFacts(others: seq<Report>, average: real)
    requires DistinctReports(others)
    ensures DistinctReports(Receivers(others, average))
    ensures forall r :: r in Receivers(others, average) <==> r in others && r.load < average
    ensures var s := Receivers(others, average); forall i, j :: 0 <= i < j < |s| ==> s[i].load <= s[j].load
  {
    var s := Below(others, average);
    SortByIsSorted(s, LoadKey);
    var sorted := Receivers(others, average);
    forall i, j | 0 <= i < j < |sorted| ensures sorted[i].load <= sorted[j].load {
      assert LoadKey(sorted[i]) <= LoadKey(sorted[j]);
    }
    PermutationFacts(s, Receivers(others, average));
    PermutationKeepsDistinct(s, Receivers(others, average), (r: Report) => r.node);
  }

  /** Devices above the local node's own average-load count; none without a suggested maximum. */
  function Excess(average: real, localMax: nat, owned: nat): nat {
    if localMax == 0 then 0 else SaturatingSub(owned, CountAt(average, localMax))
  }

  /** How many devices a receiver may take. A receiver without a suggested maximum takes a full
      share; that sum is computed in 32 bits. */
  function CanTake(r: Report, average: real, perNode: nat): nat {
    var acceptable :=
      if r.max > 0 then (if CountAt(average, r.max) < U32 then CountAt(average, r.max) else U32 - 1)
      else (r.count + perNode % U32) % U32;
    var room := SaturatingSub(acceptable, r.count);
    if room < perNode then room else perNode
  }

  /** A receiver with a suggested maximum is never offered more than what lifts it to its own
      average-load count, and nobody is offered more than a share. */
  lemma CanTakeBounds(r: Report, average: real, perNode: nat)
    ensures CanTake(r, average, perNode) <= perNode
    ensures r.max > 0 && CanTake(r, average, perNode) > 0 ==>
              r.count + CanTake(r, average, perNode) <= CountAt(average, r.max)
  {
  }

  /** The least number q with n times q at least x. */
  ghost predicate IsShare(q: nat, x: nat, n: nat) { x <= q * n < x + n }

  lemma ShareIsUnique(q: nat, x: nat, n: nat)
    requires n > 0 && IsShare(q, x, n)
    ensures q == DivCeil(x, n)
  {
    DivCeilBounds(x, n);
    if q < DivCeil(x, n) {
      MulGap(q, DivCeil(x, n), n);
    } else if DivCeil(x, n) < q {
      MulGap(DivCeil(x, n), q, n);
    }
  }

  /** What a receiver gets while devices last: a share, but no more than lifts it to its target c if
      it has a suggested maximum. Both sums are held in 32 bits. */
  function FullAmount(r: Report, c: nat, share: nat): nat {
    var limit := if r.max == 0 then (r.count + share) % 0x1_0000_0000 else if c <= 0xFFFF_FFFF then c else 0xFFFF_FFFF;
    if limit <= r.count then 0 else if limit - r.count <= share then limit - r.count else share
  }

  lemma CanTakeIsFullAmount(r: Report, average: real, c: nat, share: nat)
    requires r.max > 0 ==> IsTarget(c, average, r.max)
    ensures CanTake(r, average, share) == FullAmount(r, c, share)
  {
    if r.max > 0 {
      TargetIsUnique(c, average, r.max);
    } else {
      assert (r.count + share % U32) % U32 == (r.count + share) % U32;
    }
  }

  /** Without wrap-around these amounts are what they should be. */
  lemma FullAmountMeans(r: Report, c: nat, share: nat)
    ensures r.max == 0 && r.count + share < 0x1_0000_0000 ==> FullAmount(r, c, share) == share
    ensures r.max > 0 && r.count <= c < 0x1_0000_0000 && c - r.count <= share ==> r.count + FullAmount(r, c, share) == c
    ensures r.max > 0 && r.count + share <= c < 0x1_0000_0000 ==> FullAmount(r, c, share) == share
    ensures r.max > 0 && c <= r.count ==> FullAmount(r, c, share) == 0
  {
  }

  lemma {:induction false} DistinctLength(s: seq<Report>)
    requires DistinctReports(s)
    ensures |set r | r in s| == |s|
    decreases |s|
  {
    if s != [] {
      DistinctLength(s[1..]);
      assert (set r | r in s) == {s[0]} + (set r | r in s[1..]);
      assert s[0] !in s[1..];
    }
  }

  lemma SameLength(a: seq<Report>, b: seq<Report>)
    requires DistinctReports(a) && DistinctReports(b) && forall r :: r in a <==> r in b
    ensures |a| == |b|
  {
    DistinctLength(a);
    DistinctLength(b);
    assert (set r | r in a) == (set r | r in b);
  }

  // ----- Moves -----

  datatype Move = Move(device: Device, to: Node)

  /** How many of the moves go to n. */
  ghost function MovedTo(moves: seq<Move>, n: Node): nat {
    if moves == [] then 0
    else MovedTo(moves[..|moves| - 1], n) + if moves[|moves| - 1].to == n then 1 else 0
  }

  /** Moves added for one node count for that node only. */
  lemma {:induction false} MovedToExtend(moves: seq<Move>, more: seq<Move>, target: Node, n: Node)
    requires moves <= more && forall k :: |moves| <= k < |more| ==> more[k].to == target
    ensures MovedTo(more, n) == MovedTo(moves, n) + if n == target then |more| - |moves| else 0
    decreases |more|
  {
    if |more| == |moves| {
      assert more == moves;
    } else {
      var front := more[..|more| - 1];
      assert more == front + [more[|more| - 1]];
      MovedToExtend(moves, front, target, n);
    }
  }

  /** After the first i receivers: each got at most what it may take, exactly that while devices
      were left, the later ones nothing, and all moves went to them. */
  ghost predicate Filled(under: seq<Report>, i: nat, average: real, perNode: nat, moves: seq<Move>, left: bool)
    requires i <= |under|
  {
    && (forall j :: 0 <= j < i ==> MovedTo(moves, under[j].node) <= CanTake(under[j], average, perNode))
    && (left ==> forall j :: 0 <= j < i ==> MovedTo(moves, under[j].node) == CanTake(under[j], average, perNode))
    && (forall j :: i <= j < |under| ==> MovedTo(moves, under[j].node) == 0)
    && InTurn(under, average, perNode, moves)
    && (forall k :: 0 <= k < |moves| ==> GoesToOneOf(under[..i], moves[k]))
  }

  /** A receiver gets devices only when all before it have what they may take. */
  ghost predicate InTurn(under: seq<Report>, average: real, perNode: nat, moves: seq<Move>) {
    forall i, j :: 0 <= i < j < |under| && MovedTo(moves, under[j].node) > 0 ==>
      MovedTo(moves, under[i].node) == CanTake(under[i], average, perNode)
  }

  ghost predicate GoesToOneOf(under: seq<Report>, m: Move) {
    exists r :: r in under && m.to == r.node
  }

  lemma FilledStep(under: seq<Report>, i: nat, average: real, perNode: nat, moves: seq<Move>,
                   more: seq<Move>, left: bool)
    requires DistinctReports(under) && i < |under| && Filled(under, i, average, perNode, moves, true)
    requires moves <= more && forall k :: |moves| <= k < |more| ==> more[k].to == under[i].node
    requires |more| - |moves| <= CanTake(under[i], average, perNode)
    requires left ==> |more| - |moves| == CanTake(under[i], average, perNode)
    ensures Filled(under, i + 1, average, perNode, more, left)
  {
    forall j | 0 <= j < |under|
      ensures MovedTo(more, under[j].node) == MovedTo(moves, under[j].node) + if j == i then |more| - |moves| else 0
    {
      MovedToExtend(moves, more, under[i].node, under[j].node);
    }
    assert under[..i + 1] == under[..i] + [under[i]];
    forall k | 0 <= k < |more| ensures GoesToOneOf(under[..i + 1], more[k]) {
      if k < |moves| {
        assert more[k] == moves[k] && GoesToOneOf(under[..i], moves[k]);
        var r :| r in under[..i] && moves[k].to == r.node;
        assert r in under[..i + 1];
      } else {
        assert under[i] in under[..i + 1];
      }
    }
  }

  lemma FilledToEnd(under: seq<Report>, i: nat, average: real, perNode: nat, moves: seq<Move>)
    requires i <= |under| && Filled(under, i, average, perNode, moves, false)
    ensures Filled(under, |under|, average, perNode, moves, false)
  {
    forall k | 0 <= k < |moves| ensures GoesToOneOf(under[..|under|], moves[k]) {
      assert GoesToOneOf(under[..i], moves[k]);
      var r :| r in under[..i] && moves[k].to == r.node;
      assert r in under[..|under|];
    }
  }

  ghost function MovedDevices(moves: seq<Move>): set<Device> { set i | 0 <= i < |moves| :: moves[i].device }

  /** The rows after the moves: each moved device is recorded for its receiver, the rest as before. */
  ghost predicate Moved(before: Rows, after: Rows, moves: seq<Move>) {
    && after.Keys == before.Keys
    && (forall i :: 0 <= i < |moves| && moves[i].device in after ==>
          after[moves[i].device] == Row(before[moves[i].device].bucket, moves[i].to))
    && (forall d :: d in after && d !in MovedDevices(moves) ==> after[d] == before[d])
  }

  ghost predicate DistinctMoves(moves: seq<Move>) {
    forall i, j :: 0 <= i < j < |moves| ==> moves[i].device != moves[j].device
  }

  lemma MovedStep(before: Rows, rows: Rows, moves: seq<Move>, m: Move)
    requires Moved(before, rows, moves) && m.device !in MovedDevices(moves)
    ensures Moved(before, WithOwner(rows, m.device, m.to), moves + [m])
    ensures MovedDevices(moves + [m]) == MovedDevices(moves) + {m.device}
  {
    var all := moves + [m];
    assert forall i :: 0 <= i < |moves| ==> all[i] == moves[i];
    assert all[|moves|] == m;
    forall d ensures d in MovedDevices(all) <==> d in MovedDevices(moves) + {m.device} {
      if d in MovedDevices(moves) {
        var i :| 0 <= i < |moves| && moves[i].device == d;
        assert all[i].device == d;
      }
      if d == m.device {
        assert all[|moves|].device == d;
      }
    }
    forall i | 0 <= i < |moves| ensures all[i].device != m.device {
      assert moves[i].device in MovedDevices(moves);
    }
  }
}
