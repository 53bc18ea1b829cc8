/** Device handover between nodes, as a step system over a network that may lose, duplicate
    and reorder messages (the network is the set of messages ever sent; any of them may be
    delivered at any time, any number of times, or never).

    The shared table records one owner per device; each node keeps its own set of devices.
    A device is in service when the node the table names also holds it. */
module Handover {
  import opened Basics
  import opened ShutdownPlan

  datatype Message =
    | DelegateRequest(from: Node, to: Node, devices: seq<Device>)
    | DelegateAccept(from: Node, to: Node, devices: seq<Device>)

  /** A node in the middle of DeviceManager::accept_delegation: `next` devices are done. */
  datatype Acceptance = Acceptance(from: Node, devices: seq<Device>, next: nat)

  datatype Cluster = Cluster(
    owner: map<Device, Node>,
    held: set<(Node, Device)>,
    network: set<Message>,
    draining: set<Node>,
    accepting: map<Node, Acceptance>,
    plans: map<Node, seq<Offer>>
  )

  /** One atomic step. `StartDraining` sets the status and fixes the shutdown plan;
      `SendPlanned` is one request of that plan; `SendManual` is a delegation started by an
      operator on a node that need not be draining; `Abort` is any failure inside an acceptance. */
  datatype Event =
    | StartDraining(node: Node, devices: seq<Device>, targets: seq<Node>)
    | SendPlanned(node: Node, index: nat)
    | SendManual(node: Node, to: Node, devices: seq<Device>)
    | BeginAccept(node: Node, from: Node, devices: seq<Device>)
    | TakeNext(node: Node)
    | Abort(node: Node)
    | FinishAccept(node: Node)
    | Release(node: Node, from: Node, devices: seq<Device>)

  /** What the code allows. A request is accepted only by a node that is not draining. The message
      loop of a node handles one message at a time, so it neither begins another acceptance nor
      releases devices while it is accepting some. */
  ghost predicate Enabled(s: Cluster, e: Event) {
    match e
    case StartDraining(n, devices, targets) =>
      n !in s.plans && n !in targets && NoDuplicates(targets)
      && NoDuplicates(devices) && (forall d :: d in devices <==> (n, d) in s.held)
    case SendPlanned(n, i) => n in s.plans && i < |s.plans[n]|
    case SendManual(n, to, devices) => n != to && (forall d :: d in devices ==> (n, d) in s.held)
    case BeginAccept(n, from, devices) =>
      DelegateRequest(from, n, devices) in s.network && n !in s.draining && n !in s.accepting
    case TakeNext(n) => n in s.accepting && s.accepting[n].next < |s.accepting[n].devices|
    case Abort(n) => n in s.accepting
    case FinishAccept(n) => n in s.accepting && s.accepting[n].next == |s.accepting[n].devices|
    case Release(n, from, devices) => DelegateAccept(from, n, devices) in s.network && n !in s.accepting
  }

  /** Without an active node to send to there are no requests; the node drains all the same. */
  function PlanFor(devices: seq<Device>, targets: seq<Node>): seq<Offer> {
    if targets == [] then [] else Plan(devices, targets)
  }

  /** Writing the owner of a device without a row does nothing. */
  function SetOwner(owner: map<Device, Node>, d: Device, n: Node): map<Device, Node> {
    if d in owner then owner[d := n] else owner
  }

  ghost function Apply(s: Cluster, e: Event): Cluster
    requires Enabled(s, e)
  {
    match e
    case StartDraining(n, devices, targets) =>
      s.(draining := s.draining + {n}, plans := s.plans[n := PlanFor(devices, targets)])
    case SendPlanned(n, i) =>
      s.(network := s.network + {DelegateRequest(n, s.plans[n][i].target, s.plans[n][i].devices)})
    case SendManual(n, to, devices) =>
      s.(network := s.network + {DelegateRequest(n, to, devices)})
    case BeginAccept(n, from, devices) =>
      s.(accepting := s.accepting[n := Acceptance(from, devices, 0)])
    case TakeNext(n) =>
      var a := s.accepting[n];
      var d := a.devices[a.next];
      s.(owner := SetOwner(s.owner, d, n), held := s.held + {(n, d)},
         accepting := s.accepting[n := a.(next := a.next + 1)])
    case Abort(n) => s.(accepting := s.accepting - {n})
    case FinishAccept(n) =>
      s.(accepting := s.accepting - {n},
         network := s.network + {DelegateAccept(n, s.accepting[n].from, s.accepting[n].devices)})
    case Release(n, from, devices) =>
      s.(held := set p | p in s.held && !(p.0 == n && p.1 in devices))
  }

  predicate Initial(s: Cluster) {
    s.network == {} && s.draining == {} && s.accepting == map[] && s.plans == map[] && InService(s)
  }

  /** The node recorded as owner of a device holds it. */
  predicate InService(s: Cluster) {
    forall d :: d in s.owner ==> (s.owner[d], d) in s.held
  }

  ghost predicate IsRun(states: seq<Cluster>, events: seq<Event>) {
    && |states| == |events| + 1
    && Initial(states[0])
    && forall i :: 0 <= i < |events| ==> Enabled(states[i], events[i]) && states[i + 1] == Apply(states[i], events[i])
  }

  // ----- One step -----

  /** If the step is a release, the table names another node for each device it lists. */
  predicate ReleasesOnlyOthers(s: Cluster, e: Event) {
    e.Release? ==> forall d :: d in e.devices && d in s.owner ==> s.owner[d] != e.node
  }

  /** Exactly one step can take a device out of service: a release that names a device which the
      table still records for the releasing node. The code does not check this. */
  lemma StepKeepsServiceIff(s: Cluster, e: Event)
    requires InService(s) && Enabled(s, e)
    ensures InService(Apply(s, e)) <==> ReleasesOnlyOthers(s, e)
  {
    if e.Release? {
      var s' := Apply(s, e);
      if d :| d in e.devices && d in s.owner && s.owner[d] == e.node {
        assert d in s'.owner && (s'.owner[d], d) !in s'.held;
      }
    }
  }

  // ----- Whole runs -----

  lemma {:induction false} InServiceUpTo(states: seq<Cluster>, events: seq<Event>, k: nat)
    requires IsRun(states, events) && k < |states|
    requires forall i :: 0 <= i < k ==> ReleasesOnlyOthers(states[i], events[i])
    ensures InService(states[k])
  {
    if k > 0 {
      InServiceUpTo(states, events, k - 1);
      StepKeepsServiceIff(states[k - 1], events[k - 1]);
    }
  }

  /** A run keeps every device in service throughout if and only if no release in it names a device
      that the table records for the releasing node at that moment. This holds for all runs,
      disciplined or not. */
  lemma RunKeepsServiceIff(states: seq<Cluster>, events: seq<Event>)
    requires IsRun(states, events)
    ensures (forall k :: 0 <= k < |states| ==> InService(states[k])) <==>
            (forall i :: 0 <= i < |events| ==> ReleasesOnlyOthers(states[i], events[i]))
  {
    if forall i :: 0 <= i < |events| ==> ReleasesOnlyOthers(states[i], events[i]) {
      forall k | 0 <= k < |states| ensures InService(states[k]) {
        InServiceUpTo(states, events, k);
      }
    }
    if forall k :: 0 <= k < |states| ==> InService(states[k]) {
      forall i | 0 <= i < |events| ensures ReleasesOnlyOthers(states[i], events[i]) {
        assert InService(states[i]) && InService(states[i + 1]);
        StepKeepsServiceIff(states[i], events[i]);
      }
    }
  }

  /** Requests come from draining nodes only, and a node starts draining between messages, not
      while it is accepting devices itself. */
  predicate Disciplined(s: Cluster, e: Event) {
    && !e.SendManual?
    && (e.StartDraining? ==> e.node !in s.accepting)
  }

  ghost predicate IsDisciplinedRun(states: seq<Cluster>, events: seq<Event>) {
    IsRun(states, events) && forall i :: 0 <= i < |events| ==> Disciplined(states[i], events[i])
  }

  predicate NotOwnedBy(s: Cluster, d: Device, n: Node) {
    d in s.owner ==> s.owner[d] != n
  }

  /** An acceptance in progress answers a draining node, is run by a node that is not draining,
      and its finished part has been written to the table. */
  predicate AcceptanceSound(s: Cluster, n: Node)
    requires n in s.accepting
  {
    var a := s.accepting[n];
    && n !in s.draining && a.from in s.draining && a.next <= |a.devices|
    && (forall i :: 0 <= i < a.next ==> NotOwnedBy(s, a.devices[i], a.from) && (n, a.devices[i]) in s.held)
  }

  /** A sent message is sound: only draining nodes offer, and an accept is sent only after the
      table stopped naming the node it is addressed to. */
  predicate MessageSound(s: Cluster, m: Message) {
    match m
    case DelegateRequest(from, to, devices) => from in s.draining
    case DelegateAccept(from, to, devices) =>
      to in s.draining && from != to && (forall d :: d in devices ==> NotOwnedBy(s, d, to))
  }

  predicate Sound(s: Cluster) {
    && InService(s)
    && s.plans.Keys == s.draining
    && (forall n :: n in s.accepting ==> AcceptanceSound(s, n))
    && (forall m :: m in s.network ==> MessageSound(s, m))
  }

  lemma TakeIsSound(s: Cluster, n: Node)
    requires Sound(s) && Enabled(s, TakeNext(n))
    ensures Sound(Apply(s, TakeNext(n)))
  {
    var s' := Apply(s, TakeNext(n));
    var a := s.accepting[n];
    var taken := a.devices[a.next];
    assert forall d, x :: x in s.draining && NotOwnedBy(s, d, x) ==> NotOwnedBy(s', d, x);
    forall m | m in s'.accepting ensures AcceptanceSound(s', m) {
      assert AcceptanceSound(s, m);
    }
    forall m | m in s'.network ensures MessageSound(s', m) {
      assert MessageSound(s, m);
    }
  }

  lemma FinishIsSound(s: Cluster, n: Node)
    requires Sound(s) && Enabled(s, FinishAccept(n))
    ensures Sound(Apply(s, FinishAccept(n)))
  {
    var s' := Apply(s, FinishAccept(n));
    assert AcceptanceSound(s, n);
    forall m | m in s'.accepting ensures AcceptanceSound(s', m) {
      assert AcceptanceSound(s, m);
    }
    forall m | m in s'.network ensures MessageSound(s', m) {
      if m in s.network {
        assert MessageSound(s, m);
      }
    }
  }

  lemma StepIsSound(s: Cluster, e: Event)
    requires Sound(s) && Enabled(s, e) && Disciplined(s, e)
    ensures Sound(Apply(s, e))
  {
    if e.TakeNext? {
      TakeIsSound(s, e.node);
    } else if e.FinishAccept? {
      FinishIsSound(s, e.node);
    } else {
      var s' := Apply(s, e);
      if e.Release? {
        assert MessageSound(s, DelegateAccept(e.from, e.node, e.devices));
      }
      if e.BeginAccept? {
        assert MessageSound(s, DelegateRequest(e.from, e.node, e.devices));
      }
      forall m | m in s'.accepting ensures AcceptanceSound(s', m) {
        if m in s.accepting {
          assert AcceptanceSound(s, m);
        }
      }
      forall m | m in s'.network ensures MessageSound(s', m) {
        if m in s.network {
          assert MessageSound(s, m);
        }
      }
    }
  }

  lemma {:induction false} RunIsSound(states: seq<Cluster>, events: seq<Event>, k: nat)
    requires IsDisciplinedRun(states, events) && k < |states|
    ensures Sound(states[k])
  {
    if k > 0 {
      RunIsSound(states, events, k - 1);
      StepIsSound(states[k - 1], events[k - 1]);
    }
  }

  /** Handover safety: however many nodes drain at once, and whatever the network loses, repeats
      or reorders, and wherever acceptances fail, every recorded owner holds its devices in
      every state of every disciplined run. */
  lemma HandoverKeepsDevicesInService(states: seq<Cluster>, events: seq<Event>, k: nat)
    requires IsDisciplinedRun(states, events) && k < |states|
    ensures InService(states[k])
  {
    RunIsSound(states, events, k);
  }

  // ----- One draining source -----

  predicate OfferedTo(plan: seq<Offer>, d: Device, t: Node) {
    exists o :: o in plan && o.target == t && d in o.devices
  }

  /** Everything in flight and everything moved follows the plan of the one draining node. */
  ghost predicate FollowsPlan(s: Cluster, start: Cluster, source: Node, plan: seq<Offer>) {
    && s.draining == {source} && s.plans == map[source := plan]
    && source !in s.accepting
    && (forall n :: n in s.accepting ==> AcceptanceFollows(s, n, source, plan))
    && (forall m :: m in s.network ==> MessageFollows(s, m, source, plan))
    && s.owner.Keys == start.owner.Keys
    && (forall d :: d in s.owner ==> s.owner[d] == start.owner[d] || OfferedTo(plan, d, s.owner[d]))
    && (forall d :: (source, d) in start.held ==> (source, d) in s.held || HeldByOffered(s, plan, d))
  }

  predicate AcceptanceFollows(s: Cluster, n: Node, source: Node, plan: seq<Offer>)
    requires n in s.accepting
  {
    var a := s.accepting[n];
    && a.from == source && Offer(n, a.devices) in plan && a.next <= |a.devices|
    && (forall i :: 0 <= i < a.next ==> (n, a.devices[i]) in s.held)
  }

  predicate MessageFollows(s: Cluster, m: Message, source: Node, plan: seq<Offer>) {
    match m
    case DelegateRequest(from, to, devices) => from == source && Offer(to, devices) in plan
    case DelegateAccept(from, to, devices) =>
      from != source && Offer(from, devices) in plan && (forall d :: d in devices ==> (from, d) in s.held)
  }

  predicate HeldByOffered(s: Cluster, plan: seq<Offer>, d: Device) {
    exists o :: o in plan && d in o.devices && (o.target, d) in s.held
  }

  lemma StepFollowsPlan(s: Cluster, start: Cluster, source: Node, plan: seq<Offer>, e: Event)
    requires FollowsPlan(s, start, source, plan) && Enabled(s, e) && !e.SendManual? && !e.StartDraining?
    requires Sound(s)
    ensures FollowsPlan(Apply(s, e), start, source, plan)
  {
    var s' := Apply(s, e);
    if e.SendPlanned? {
      assert plan[e.index] == Offer(plan[e.index].target, plan[e.index].devices);
    }
    if e.BeginAccept? {
      assert MessageFollows(s, DelegateRequest(e.from, e.node, e.devices), source, plan);
    }
    if e.FinishAccept? || e.TakeNext? {
      assert AcceptanceFollows(s, e.node, source, plan);
    }
    if e.Release? {
      assert MessageFollows(s, DelegateAccept(e.from, e.node, e.devices), source, plan);
      assert MessageSound(s, DelegateAccept(e.from, e.node, e.devices));
    }
    forall n | n in s'.accepting ensures AcceptanceFollows(s', n, source, plan) {
      if n in s.accepting {
        assert AcceptanceFollows(s, n, source, plan);
      }
    }
    forall m | m in s'.network ensures MessageFollows(s', m, source, plan) {
      if m in s.network {
        assert MessageFollows(s, m, source, plan);
      }
    }
    forall d | d in s'.owner ensures s'.owner[d] == start.owner[d] || OfferedTo(plan, d, s'.owner[d]) {
      if e.TakeNext? {
        var o := Offer(e.node, s.accepting[e.node].devices);
        assert o in plan && o.target == e.node;
      }
    }
    forall d | (source, d) in start.held
      ensures (source, d) in s'.held || HeldByOffered(s', plan, d)
    {
      StepKeepsOffered(s, start, source, plan, e, d);
    }
  }

  lemma StepKeepsOffered(s: Cluster, start: Cluster, source: Node, plan: seq<Offer>, e: Event, d: Device)
    requires FollowsPlan(s, start, source, plan) && Enabled(s, e) && !e.SendManual? && !e.StartDraining?
    requires Sound(s) && (source, d) in start.held
    ensures (source, d) in Apply(s, e).held || HeldByOffered(Apply(s, e), plan, d)
  {
    var s' := Apply(s, e);
    if e.Release? {
      var m := DelegateAccept(e.from, e.node, e.devices);
      assert MessageFollows(s, m, source, plan) && MessageSound(s, m);
      if (source, d) in s.held {
        if d in e.devices {
          var o := Offer(e.from, e.devices);
          assert o in plan && d in o.devices && (o.target, d) in s'.held;
        }
      } else {
        KeptByOthers(s, s', plan, d, source);
      }
    } else if (source, d) !in s.held {
      var o :| o in plan && d in o.devices && (o.target, d) in s.held;
      assert (o.target, d) in s'.held;
    }
  }

  lemma KeptByOthers(s: Cluster, s': Cluster, plan: seq<Offer>, d: Device, source: Node)
    requires HeldByOffered(s, plan, d) && (source, d) !in s.held
    requires forall p :: p in s.held && p.0 != source ==> p in s'.held
    ensures HeldByOffered(s', plan, d)
  {
    var o :| o in plan && d in o.devices && (o.target, d) in s.held;
    assert (o.target, d) in s'.held;
  }

  lemma {:induction false} RunFollowsPlan(states: seq<Cluster>, events: seq<Event>, source: Node,
                                          devices: seq<Device>, targets: seq<Node>, k: nat)
    requires IsDisciplinedRun(states, events) && 0 < k < |states|
    requires events[0] == StartDraining(source, devices, targets)
    requires targets != [] && forall i :: 0 < i < |events| ==> !events[i].StartDraining?
    ensures FollowsPlan(states[k], states[0], source, Plan(devices, targets))
  {
    if k > 1 {
      RunFollowsPlan(states, events, source, devices, targets, k - 1);
      RunIsSound(states, events, k - 1);
      StepFollowsPlan(states[k - 1], states[0], source, Plan(devices, targets), events[k - 1]);
    } else {
      assert states[1] == Apply(states[0], events[0]);
    }
  }

  /** With a single draining node, each of its devices is offered to exactly one target, stays
      held by the source or by that target, and is recorded for the source or for that target. */
  lemma SoleSourceHandover(states: seq<Cluster>, events: seq<Event>, source: Node,
                           devices: seq<Device>, targets: seq<Node>, k: nat, d: Device) returns (t: Node)
    requires IsDisciplinedRun(states, events) && 0 < k < |states|
    requires events[0] == StartDraining(source, devices, targets)
    requires targets != [] && forall i :: 0 < i < |events| ==> !events[i].StartDraining?
    requires (source, d) in states[0].held
    ensures t in targets && OfferedTo(Plan(devices, targets), d, t)
    ensures forall u :: OfferedTo(Plan(devices, targets), d, u) ==> u == t
    ensures (source, d) in states[k].held || (t, d) in states[k].held
    ensures d in states[0].owner && states[0].owner[d] == source ==>
              d in states[k].owner && states[k].owner[d] in {source, t}
  {
    assert Enabled(states[0], events[0]);
    RunFollowsPlan(states, events, source, devices, targets, k);
    t := OfferedOnce(devices, targets, d);
  }

  // ----- Completion -----

  /** A step never gives a device to a draining node. */
  lemma StepGivesDrainingNothing(s: Cluster, e: Event, n: Node, d: Device)
    requires Sound(s) && Enabled(s, e) && n in s.draining
    ensures n in Apply(s, e).draining
    ensures (n, d) in Apply(s, e).held ==> (n, d) in s.held
  {
    if e.TakeNext? {
      assert AcceptanceSound(s, e.node);
    }
  }

  /** Once a draining node has processed an accept, it never holds those devices again. */
  lemma {:induction false} ReleasedForGood(states: seq<Cluster>, events: seq<Event>, r: nat, k: nat, d: Device)
    requires IsDisciplinedRun(states, events) && r < |events| && r < k < |states|
    requires events[r].Release? && d in events[r].devices
    ensures (events[r].node, d) !in states[k].held
    ensures events[r].node in states[k].draining
  {
    var n := events[r].node;
    if k == r + 1 {
      RunIsSound(states, events, r);
      assert MessageSound(states[r], DelegateAccept(events[r].from, n, events[r].devices));
      assert states[r + 1] == Apply(states[r], events[r]);
    } else {
      ReleasedForGood(states, events, r, k - 1, d);
      RunGivesDrainingNothing(states, events, k, n, d);
    }
  }

  lemma RunGivesDrainingNothing(states: seq<Cluster>, events: seq<Event>, k: nat, n: Node, d: Device)
    requires IsDisciplinedRun(states, events) && 0 < k < |states| && n in states[k - 1].draining
    ensures n in states[k].draining
    ensures (n, d) in states[k].held ==> (n, d) in states[k - 1].held
  {
    RunIsSound(states, events, k - 1);
    StepGivesDrainingNothing(states[k - 1], events[k - 1], n, d);
  }

  /** A draining node never gains a device. */
  lemma {:induction false} DrainingNeverGains(states: seq<Cluster>, events: seq<Event>, j: nat, k: nat,
                                              n: Node, d: Device)
    requires IsDisciplinedRun(states, events) && j <= k < |states|
    requires n in states[j].draining && (n, d) in states[k].held
    ensures (n, d) in states[j].held && n in states[k].draining
    decreases k
  {
    if j < k {
      DrainingIsFinal(states, events, j, k - 1, n);
      RunGivesDrainingNothing(states, events, k, n, d);
      DrainingNeverGains(states, events, j, k - 1, n, d);
    }
  }

  lemma {:induction false} DrainingIsFinal(states: seq<Cluster>, events: seq<Event>, j: nat, k: nat, n: Node)
    requires IsRun(states, events) && j <= k < |states| && n in states[j].draining
    ensures n in states[k].draining
    decreases k
  {
    if j < k {
      DrainingIsFinal(states, events, j, k - 1, n);
      assert states[k] == Apply(states[k - 1], events[k - 1]);
    }
  }

  /** Complete handover: once every request of the plan has been accepted and its accept
      processed, the drained node holds nothing and the table names it for no device. */
  lemma CompleteHandoverEmptiesSource(states: seq<Cluster>, events: seq<Event>, j: nat, k: nat)
    requires IsDisciplinedRun(states, events) && j < |events| && j < k < |states|
    requires events[j].StartDraining? && events[j].targets != []
    requires forall o :: o in Plan(events[j].devices, events[j].targets) ==>
               exists r :: j < r < k && events[r] == Release(events[j].node, o.target, o.devices)
    ensures forall d :: (events[j].node, d) !in states[k].held
    ensures forall d :: d in states[k].owner ==> states[k].owner[d] != events[j].node
  {
    var n, devices, targets := events[j].node, events[j].devices, events[j].targets;
    assert Enabled(states[j], events[j]) && states[j + 1] == Apply(states[j], events[j]);
    forall d | (n, d) in states[k].held ensures false {
      DrainingNeverGains(states, events, j + 1, k, n, d);
      PlanIsPartition(devices, targets);
      OfferedMember(Plan(devices, targets), d);
      var i :| 0 <= i < |Plan(devices, targets)| && d in Plan(devices, targets)[i].devices;
      var o := Plan(devices, targets)[i];
      assert o in Plan(devices, targets);
      var r :| j < r < k && events[r] == Release(n, o.target, o.devices);
      ReleasedForGood(states, events, r, k, d);
    }
    HandoverKeepsDevicesInService(states, events, k);
  }

  // ----- Whole acceptances -----

  /** The state after node n has taken the first k of the devices. */
  ghost function AfterTaking(s: Cluster, n: Node, devices: seq<Device>, k: nat): Cluster
    requires k <= |devices|
  {
    s.(owner := map d | d in s.owner :: if d in devices[..k] then n else s.owner[d],
       held := s.held + (set i | 0 <= i < k :: (n, devices[i])))
  }

  lemma AfterTakingOne(s: Cluster, n: Node, devices: seq<Device>, k: nat)
    requires k < |devices|
    ensures var before, after := AfterTaking(s, n, devices, k), AfterTaking(s, n, devices, k + 1);
            && after.owner == SetOwner(before.owner, devices[k], n)
            && after.held == before.held + {(n, devices[k])}
  {
    assert devices[..k + 1] == devices[..k] + [devices[k]];
  }

  /** In the middle of it: k devices are taken. */
  ghost function Taking(s: Cluster, n: Node, from: Node, devices: seq<Device>, k: nat): Cluster
    requires k <= |devices|
  {
    AfterTaking(s, n, devices, k).(accepting := s.accepting[n := Acceptance(from, devices, k)])
  }

  lemma TakingBegins(s: Cluster, n: Node, from: Node, devices: seq<Device>)
    requires Enabled(s, BeginAccept(n, from, devices))
    ensures Apply(s, BeginAccept(n, from, devices)) == Taking(s, n, from, devices, 0)
  {
    var t := AfterTaking(s, n, devices, 0);
    assert t.owner == s.owner && t.held == s.held;
  }

  lemma TakingGoesOn(s: Cluster, n: Node, from: Node, devices: seq<Device>, k: nat)
    requires k < |devices|
    ensures Enabled(Taking(s, n, from, devices, k), TakeNext(n))
    ensures Apply(Taking(s, n, from, devices, k), TakeNext(n)) == Taking(s, n, from, devices, k + 1)
  {
    AfterTakingOne(s, n, devices, k);
  }

  /** A node that is free and not draining can accept a request that was sent, and then take any number
      of its devices. */
  lemma {:induction false} TakeSome(states: seq<Cluster>, events: seq<Event>, n: Node, from: Node, devices: seq<Device>,
                                    k: nat)
    returns (states': seq<Cluster>, events': seq<Event>)
    requires IsRun(states, events) && DelegateRequest(from, n, devices) in Last(states).network && k <= |devices|
    requires n !in Last(states).draining && n !in Last(states).accepting
    ensures IsRun(states', events') && states'[0] == states[0]
    ensures Last(states') == Taking(Last(states), n, from, devices, k)
    decreases k
  {
    var s := Last(states);
    if k == 0 {
      TakingBegins(s, n, from, devices);
      states', events' := Extend(states, events, BeginAccept(n, from, devices));
    } else {
      states', events' := TakeSome(states, events, n, from, devices, k - 1);
      TakingGoesOn(s, n, from, devices, k - 1);
      states', events' := Extend(states', events', TakeNext(n));
    }
  }

  /** A whole acceptance: the node is recorded for and holds exactly the devices of the request, the
      accept is sent, and the node is free again. */
  lemma AcceptAll(states: seq<Cluster>, events: seq<Event>, n: Node, from: Node, devices: seq<Device>)
    returns (states': seq<Cluster>, events': seq<Event>)
    requires IsRun(states, events) && DelegateRequest(from, n, devices) in Last(states).network
    requires n !in Last(states).draining && n !in Last(states).accepting
    ensures IsRun(states', events') && states'[0] == states[0]
    ensures Last(states') == AfterTaking(Last(states), n, devices, |devices|).(
              network := Last(states).network + {DelegateAccept(n, from, devices)})
  {
    states', events' := TakeSome(states, events, n, from, devices, |devices|);
    states', events' := Extend(states', events', FinishAccept(n));
    assert Last(states').accepting == Last(states).accepting;
  }

  /** A failed acceptance: what was taken stays taken, no accept is sent, and the node is free again. */
  lemma AcceptFails(states: seq<Cluster>, events: seq<Event>, n: Node, from: Node, devices: seq<Device>, k: nat)
    returns (states': seq<Cluster>, events': seq<Event>)
    requires IsRun(states, events) && DelegateRequest(from, n, devices) in Last(states).network && k <= |devices|
    requires n !in Last(states).draining && n !in Last(states).accepting
    ensures IsRun(states', events') && states'[0] == states[0]
    ensures Last(states') == AfterTaking(Last(states), n, devices, k)
  {
    states', events' := TakeSome(states, events, n, from, devices, k);
    states', events' := Extend(states', events', Abort(n));
    assert Last(states').accepting == Last(states).accepting;
  }

  // ----- Without the discipline -----

  /** Device 7, recorded for and held by node 0. */
  function OneDevice(): Cluster {
    Cluster(map[7 := 0], {(0, 7)}, {}, {}, map[], map[])
  }

  ghost function Last(states: seq<Cluster>): Cluster
    requires states != []
  {
    states[|states| - 1]
  }

  lemma Extend(states: seq<Cluster>, events: seq<Event>, e: Event) returns (states': seq<Cluster>, events': seq<Event>)
    requires IsRun(states, events) && Enabled(Last(states), e)
    ensures IsRun(states', events') && events' == events + [e] && states'[0] == states[0]
    ensures Last(states') == Apply(Last(states), e)
  {
    states', events' := states + [Apply(Last(states), e)], events + [e];
  }

  /** Node `to` accepts a request for device 7 that is in the network, and answers it. */
  lemma AcceptRequest(states: seq<Cluster>, events: seq<Event>, from: Node, to: Node)
    returns (states': seq<Cluster>, events': seq<Event>)
    requires IsRun(states, events) && Last(states).owner.Keys == {7}
    requires DelegateRequest(from, to, [7]) in Last(states).network
    requires to !in Last(states).draining && to !in Last(states).accepting
    ensures IsRun(states', events') && states'[0] == states[0]
    ensures var s := Last(states);
            Last(states') == s.(owner := map[7 := to], held := s.held + {(to, 7)},
                                network := s.network + {DelegateAccept(to, from, [7])})
    ensures events' == events + [BeginAccept(to, from, [7]), TakeNext(to), FinishAccept(to)]
  {
    var s := Last(states);
    states', events' := Extend(states, events, BeginAccept(to, from, [7]));
    states', events' := Extend(states', events', TakeNext(to));
    states', events' := Extend(states', events', FinishAccept(to));
    assert Last(states').accepting == s.accepting;
  }

  /** If nodes may also offer devices while they accept some, a device can end up held by nobody:
      each of two nodes passes it to the other before the accepts arrive. */
  lemma TwoWayDelegationLosesDevice() returns (states: seq<Cluster>, events: seq<Event>)
    ensures IsRun(states, events) && states[0] == OneDevice()
    ensures Last(states).owner == map[7 := 0] && Last(states).held == {}
  {
    states, events := [OneDevice()], [];
    states, events := Extend(states, events, SendManual(0, 1, [7]));
    states, events := AcceptRequest(states, events, 0, 1);
    states, events := Extend(states, events, SendManual(1, 0, [7]));
    states, events := AcceptRequest(states, events, 1, 0);
    states, events := Extend(states, events, Release(0, 1, [7]));
    assert Last(states).held == {(1, 7)};
    states, events := Extend(states, events, Release(1, 0, [7]));
  }

  lemma PlanOfOne(d: Device, t: Node)
    ensures Plan([d], [t]) == [Offer(t, [d])]
  {
    assert Chunks([d], 1) == [[d]];
    TargetBeforeWrap([t], 0);
  }

  /** Node 0 has drained and handed device 7 to node 1. */
  ghost function HandedOver(): Cluster {
    Cluster(map[7 := 1], {(1, 7)}, {DelegateRequest(0, 1, [7]), DelegateAccept(1, 0, [7])}, {0},
            map[], map[0 := [Offer(1, [7])]])
  }

  lemma ReachHandedOver() returns (states: seq<Cluster>, events: seq<Event>)
    ensures IsRun(states, events) && states[0] == OneDevice() && Last(states) == HandedOver()
    ensures forall e :: e in events ==> !e.SendManual?
  {
    PlanOfOne(7, 1);
    states, events := [OneDevice()], [];
    states, events := Extend(states, events, StartDraining(0, [7], [1]));
    states, events := Extend(states, events, SendPlanned(0, 0));
    states, events := AcceptRequest(states, events, 0, 1);
    states, events := Extend(states, events, Release(0, 1, [7]));
    assert Last(states).held == {(1, 7)};
  }

  /** Node 0 has handed device 7 to node 1, which is accepting a duplicate of the same request
      when it starts draining towards node 2. */
  ghost function DrainedTooEarly(): Cluster {
    Cluster(map[7 := 1], {(1, 7)}, {DelegateRequest(0, 1, [7]), DelegateAccept(1, 0, [7])}, {0, 1},
            map[1 := Acceptance(0, [7], 0)], map[0 := [Offer(1, [7])], 1 := [Offer(2, [7])]])
  }

  lemma ReachDrainedTooEarly() returns (states: seq<Cluster>, events: seq<Event>)
    ensures IsRun(states, events) && states[0] == OneDevice() && Last(states) == DrainedTooEarly()
    ensures forall e :: e in events ==> !e.SendManual?
  {
    PlanOfOne(7, 2);
    states, events := ReachHandedOver();
    states, events := Extend(states, events, BeginAccept(1, 0, [7]));
    states, events := Extend(states, events, StartDraining(1, [7], [2]));
  }

  /** Starting to drain in the middle of an acceptance is enough to break service, with planned
      requests only: the late write makes the drained node the recorded owner again, and it then
      releases the device. */
  lemma DrainingDuringAcceptanceBreaksService() returns (states: seq<Cluster>, events: seq<Event>)
    ensures IsRun(states, events) && states[0] == OneDevice()
    ensures forall e :: e in events ==> !e.SendManual?
    ensures Last(states).owner == map[7 := 1] && Last(states).held == {(2, 7)}
  {
    states, events := ReachDrainedTooEarly();
    states, events := Extend(states, events, SendPlanned(1, 0));
    states, events := AcceptRequest(states, events, 1, 2);
    assert Last(states).held == {(1, 7), (2, 7)};
    states, events := Extend(states, events, TakeNext(1));
    assert Last(states).held == {(1, 7), (2, 7)};
    states, events := Extend(states, events, FinishAccept(1));
    states, events := Extend(states, events, Release(1, 2, [7]));
    assert Last(states).held == {(2, 7)};
  }
}
