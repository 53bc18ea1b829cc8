/** How a draining node splits its devices over the active nodes
    (DelegationHandler::shutdown_delegation). */
module ShutdownPlan {
  import opened Basics
  import opened Sorting

  /** One delegation request: the devices offered to one target. */
  datatype Offer = Offer(target: Node, devices: seq<Device>)

  /** Rust's `slice::chunks`: consecutive pieces of length k, the last one possibly shorter. */
  function Chunks<T>(s: seq<T>, k: nat): (c: seq<seq<T>>)
    requires k > 0
    decreases |s|
  {
    if s == [] then []
    else if |s| <= k then [s]
    else [s[..k]] + Chunks(s[k..], k)
  }

  lemma {:induction false} ChunksFlatten<T>(s: seq<T>, k: nat)
    requires k > 0
    ensures Flatten(Chunks(s, k)) == s
    decreases |s|
  {
    if |s| > k {
      ChunksFlatten(s[k..], k);
      assert Chunks(s, k)[1..] == Chunks(s[k..], k);
    }
  }

  lemma {:induction false} ChunksCount<T>(s: seq<T>, k: nat, m: nat)
    requires k > 0 && |s| <= k * m
    ensures |Chunks(s, k)| <= m
    decreases |s|
  {
    if |s| > k {
      assert k * m - k == k * (m - 1);
      ChunksCount(s[k..], k, m - 1);
    } else if s != [] && m == 0 {
      assert false;
    }
  }

  /** Every chunk is a nonempty piece of s with at most k elements. */
  lemma {:induction false} ChunkIsPiece<T>(s: seq<T>, k: nat, i: nat)
    requires k > 0 && i < |Chunks(s, k)|
    ensures 0 < |Chunks(s, k)[i]| <= k
    ensures forall x :: x in Chunks(s, k)[i] ==> x in s
    decreases |s|
  {
    if |s| > k && i > 0 {
      ChunkIsPiece(s[k..], k, i - 1);
    }
  }

  /** Every chunk but the last is full. */
  lemma {:induction false} ChunkIsFull<T>(s: seq<T>, k: nat, i: nat)
    requires k > 0 && i + 1 < |Chunks(s, k)|
    ensures |Chunks(s, k)[i]| == k
    decreases |s|
  {
    if i > 0 {
      ChunkIsFull(s[k..], k, i - 1);
    }
  }

  /** Chunks of a sequence without duplicates have no element in common. */
  lemma {:induction false} ChunksDisjoint<T>(s: seq<T>, k: nat, i: nat, j: nat, x: T)
    requires k > 0 && i < j < |Chunks(s, k)| && NoDuplicates(s)
    ensures x !in Chunks(s, k)[i] || x !in Chunks(s, k)[j]
    decreases |s|
  {
    assert NoDuplicates(s[k..]);
    if i > 0 {
      ChunksDisjoint(s[k..], k, i - 1, j - 1, x);
    } else {
      ChunkIsPiece(s[k..], k, j - 1);
    }
  }

  /** The number of devices offered to each node, rounded up. */
  function Share(devices: seq<Device>, targets: seq<Node>): (k: nat)
    requires devices != [] && targets != []
    ensures k > 0
  {
    DivCeilBounds(|devices|, |targets|);
    DivCeil(|devices|, |targets|)
  }

  /** The requests sent, in order: chunk i goes to target i modulo the number of targets. */
  function Plan(devices: seq<Device>, targets: seq<Node>): (offers: seq<Offer>)
    requires targets != []
  {
    if devices == [] then []
    else
      var chunks := Chunks(devices, Share(devices, targets));
      seq(|chunks|, i requires 0 <= i < |chunks| => Offer(TargetOf(targets, i), chunks[i]))
  }

  function OfferedDevices(offers: seq<Offer>): seq<Device> {
    if offers == [] then [] else offers[0].devices + OfferedDevices(offers[1..])
  }

  lemma {:induction false} OfferedIsFlatten(offers: seq<Offer>, chunks: seq<seq<Device>>)
    requires |offers| == |chunks|
    requires forall i :: 0 <= i < |offers| ==> offers[i].devices == chunks[i]
    ensures OfferedDevices(offers) == Flatten(chunks)
    decreases |offers|
  {
    if offers != [] {
      OfferedIsFlatten(offers[1..], chunks[1..]);
    }
  }

  /** The plan is an exact partition: the offers concatenate to the devices, no target is used
      twice (the modulo never wraps), nobody is offered more than the rounded-up fair share, and
      no request is empty. */
  lemma PlanIsPartition(devices: seq<Device>, targets: seq<Node>)
    requires targets != []
    ensures OfferedDevices(Plan(devices, targets)) == devices
    ensures |Plan(devices, targets)| <= |targets|
    ensures forall i :: 0 <= i < |Plan(devices, targets)| ==>
              PlannedFairly(Plan(devices, targets)[i], targets[i], Share(devices, targets))
    ensures SharedFairly(Plan(devices, targets), |devices|, |targets|)
  {
    PlanIsFair(devices, targets);
    if devices != [] {
      var k := Share(devices, targets);
      DivCeilBounds(|devices|, |targets|);
      ChunksFlatten(devices, k);
      ChunksCount(devices, k, |targets|);
      OfferedIsFlatten(Plan(devices, targets), Chunks(devices, k));
      forall i | 0 <= i < |Plan(devices, targets)|
        ensures PlannedFairly(Plan(devices, targets)[i], targets[i], k)
      {
        PlanAt(devices, targets, i);
      }
    }
  }

  /** Nobody is offered more than the fair share of n devices over m nodes, rounded up; all requests
      but the last are equally large, and the last is not larger. */
  ghost predicate SharedFairly(offers: seq<Offer>, n: nat, m: nat) {
    && (forall i :: 0 <= i < |offers| ==> |offers[i].devices| * m < n + m)
    && (forall i, j :: 0 <= i < |offers| - 1 && i <= j < |offers| ==> |offers[j].devices| <= |offers[i].devices|)
    && (forall i, j :: 0 <= i < |offers| - 1 && 0 <= j < |offers| - 1 ==>
          |offers[i].devices| == |offers[j].devices|)
  }

  /** The plan is fair, in terms of the numbers of devices and targets alone. */
  lemma PlanIsFair(devices: seq<Device>, targets: seq<Node>)
    requires targets != []
    ensures SharedFairly(Plan(devices, targets), |devices|, |targets|)
  {
    if devices != [] {
      var k, m := Share(devices, targets), |targets|;
      var plan := Plan(devices, targets);
      DivCeilBounds(|devices|, m);
      forall i | 0 <= i < |plan| ensures |plan[i].devices| <= k && |plan[i].devices| * m < |devices| + m {
        ChunkIsPiece(devices, k, i);
        ProductMono(|plan[i].devices|, k, m);
      }
      forall i | 0 <= i < |plan| - 1 ensures |plan[i].devices| == k {
        ChunkIsFull(devices, k, i);
      }
    }
  }

  lemma ProductMono(a: nat, b: nat, m: nat)
    requires a <= b
    ensures a * m <= b * m
  {
    assert b * m == a * m + (b - a) * m;
  }

  /** The offer goes to t and holds between one and `share` devices. */
  predicate PlannedFairly(offer: Offer, t: Node, share: nat) {
    offer.target == t && 0 < |offer.devices| <= share
  }

  lemma PlanAt(devices: seq<Device>, targets: seq<Node>, i: nat)
    requires devices != [] && targets != [] && i < |Plan(devices, targets)| && i < |targets|
    ensures PlannedFairly(Plan(devices, targets)[i], targets[i], Share(devices, targets))
  {
    ChunkIsPiece(devices, Share(devices, targets), i);
    TargetBeforeWrap(targets, i);
  }

  /** When the devices are distinct, no device is offered twice: two offers that share a device
      are the same offer. */
  lemma OfferIsUnique(devices: seq<Device>, targets: seq<Node>, i: nat, j: nat, d: Device)
    requires targets != [] && NoDuplicates(devices)
    requires i < |Plan(devices, targets)| && j < |Plan(devices, targets)|
    requires d in Plan(devices, targets)[i].devices && d in Plan(devices, targets)[j].devices
    ensures i == j
  {
    if i < j {
      ChunksDisjoint(devices, Share(devices, targets), i, j, d);
    } else if j < i {
      ChunksDisjoint(devices, Share(devices, targets), j, i, d);
    }
  }

  /** Every device of the list is in some offer. */
  lemma {:induction false} OfferedMember(offers: seq<Offer>, d: Device)
    requires d in OfferedDevices(offers)
    ensures exists i :: 0 <= i < |offers| && d in offers[i].devices
    decreases |offers|
  {
    if d !in offers[0].devices {
      OfferedMember(offers[1..], d);
      var i :| 0 <= i < |offers[1..]| && d in offers[1..][i].devices;
      assert offers[i + 1] == offers[1..][i];
    }
  }

  /** Each device is offered to exactly one target. */
  lemma OfferedOnce(devices: seq<Device>, targets: seq<Node>, d: Device) returns (t: Node)
    requires targets != [] && NoDuplicates(devices) && d in devices
    ensures t in targets
    ensures exists o :: o in Plan(devices, targets) && o.target == t && d in o.devices
    ensures forall o :: o in Plan(devices, targets) && d in o.devices ==> o.target == t
  {
    var plan := Plan(devices, targets);
    PlanIsPartition(devices, targets);
    OfferedMember(plan, d);
    var i :| 0 <= i < |plan| && d in plan[i].devices;
    t := plan[i].target;
    assert plan[i] in plan;
    forall o | o in plan && d in o.devices ensures o.target == t {
      var j :| 0 <= j < |plan| && plan[j] == o;
      OfferIsUnique(devices, targets, i, j, d);
    }
  }

  lemma NextChunk<T>(s: seq<T>, k: nat, from: nat, upTo: nat)
    requires k > 0 && from < |s| && upTo == if from + k <= |s| then from + k else |s|
    ensures Chunks(s[from..], k) == [s[from..upTo]] + Chunks(s[upTo..], k)
  {
    var rest := s[from..];
    assert rest[..upTo - from] == s[from..upTo];
    assert rest[upTo - from..] == s[upTo..];
    if |rest| <= k {
      assert rest == s[from..upTo] && s[upTo..] == [];
      assert [rest] + [] == [rest];
    }
  }

  lemma SuffixStep<T>(s: seq<T>, n: nat, x: T, more: seq<T>)
    requires n <= |s| && s[n..] == [x] + more
    ensures n < |s| && s[n] == x && s[n + 1..] == more
  {
    assert |s| - n == 1 + |more|;
    assert s[n] == s[n..][0];
    assert s[n + 1..] == s[n..][1..];
  }

  /** The requests sent so far are those for the first chunks. */
  ghost predicate SentFirst(sent: seq<Offer>, chunks: seq<seq<Device>>, targets: seq<Node>)
    requires targets != []
  {
    && |sent| <= |chunks|
    && forall i :: 0 <= i < |sent| ==> sent[i] == Offer(TargetOf(targets, i), chunks[i])
  }

  lemma SentOneMore(sent: seq<Offer>, chunks: seq<seq<Device>>, targets: seq<Node>)
    requires targets != [] && SentFirst(sent, chunks, targets) && |sent| < |chunks|
    ensures SentFirst(sent + [Offer(TargetOf(targets, |sent|), chunks[|sent|])], chunks, targets)
  {
  }

  lemma SentAll(sent: seq<Offer>, devices: seq<Device>, targets: seq<Node>)
    requires devices != [] && targets != []
    requires SentFirst(sent, Chunks(devices, Share(devices, targets)), targets)
    requires |sent| == |Chunks(devices, Share(devices, targets))|
    ensures sent == Plan(devices, targets)
  {
  }

  /** The chunk-and-send loop of shutdown_delegation, collecting the requests it sends. */
  method SendOffers(devices: seq<Device>, targets: seq<Node>) returns (sent: seq<Offer>)
    requires devices != [] && targets != []
    ensures sent == Plan(devices, targets)
    ensures OfferedDevices(sent) == devices && |sent| <= |targets|
    ensures SharedFairly(sent, |devices|, |targets|)
  {
    var perNode := Share(devices, targets);
    sent := [];
    var from := 0;
    ghost var chunks := Chunks(devices, perNode);
    assert devices[0..] == devices;
    while from < |devices|
      invariant 0 <= from <= |devices|
      invariant SentFirst(sent, chunks, targets)
      invariant chunks[|sent|..] == Chunks(devices[from..], perNode)
    {
      var upTo := if from + perNode <= |devices| then from + perNode else |devices|;
      NextChunk(devices, perNode, from, upTo);
      SuffixStep(chunks, |sent|, devices[from..upTo], Chunks(devices[upTo..], perNode));
      SentOneMore(sent, chunks, targets);
      sent := sent + [Offer(TargetOf(targets, |sent|), devices[from..upTo])];
      from := upTo;
    }
    SentAll(sent, devices, targets);
    PlanIsPartition(devices, targets);
  }

  datatype Outcome = Sent(offers: seq<Offer>) | NoNodesAvailable

  /** shutdown_delegation: nothing to do without devices, an error without active nodes; otherwise
      the requests cover exactly the devices, and emptier nodes come first. */
  method ShutdownDelegation(devices: seq<Device>, active: seq<Peer>) returns (r: Outcome)
    ensures r.NoNodesAvailable? <==> devices != [] && active == []
    ensures r.Sent? ==> OfferedDevices(r.offers) == devices && |r.offers| <= |active|
    ensures r.Sent? ==> SharedFairly(r.offers, |devices|, |active|)
    ensures r.Sent? ==> r.offers == [] || OrderedTargets(r.offers, active)
  {
    if devices == [] {
      return Sent([]);
    }
    var order := SortBy(active, CountKey);
    SortByIsSorted(active, CountKey);
    PermutationFacts(active, order);
    if order == [] {
      return NoNodesAvailable;
    }
    var offers := SendOffers(devices, Nodes(order));
    PlanIsPartition(devices, Nodes(order));
    forall i | 0 <= i < |offers| ensures offers[i].target == order[i].node {
      assert PlannedFairly(offers[i], Nodes(order)[i], Share(devices, Nodes(order)));
    }
    assert ListedInOrder(offers, order);
    r := Sent(offers);
  }

  /** Offer i goes to the i-th node of the list. */
  ghost predicate ListedInOrder(offers: seq<Offer>, order: seq<Peer>) {
    |offers| <= |order| && forall i :: 0 <= i < |offers| ==> offers[i].target == order[i].node
  }

  /** The offers follow some listing of the active nodes by increasing device count. */
  ghost predicate OrderedTargets(offers: seq<Offer>, active: seq<Peer>) {
    exists order :: multiset(order) == multiset(active) && SortedBy(order, CountKey) && ListedInOrder(offers, order)
  }
}
