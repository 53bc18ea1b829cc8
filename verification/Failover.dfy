/** Several survivors handling the death of the same node at once. Each reads the dead node's
    devices from the shared table and then writes new owners one device at a time
    (DeviceManager::redistribute_from_failed); the writes of different survivors interleave. */
module Failover {
  import opened Basics

  /** One redistribution in progress: the devices read, the nodes they are spread over, and the
      number of devices written so far. */
  datatype Redistribution = Redistribution(orphans: seq<Device>, targets: seq<Node>, next: nat)

  datatype Cluster = Cluster(
    owner: map<Device, Node>,
    held: set<(Node, Device)>,
    active: map<Node, Redistribution>,
    finished: set<Node>,
    listed: set<Node>
  )

  datatype Event =
    | Begin(node: Node, orphans: seq<Device>, targets: seq<Node>)
    | WriteNext(node: Node)
    | Fail(node: Node)
    | Finish(node: Node)

  /** A survivor reads the dead node's devices in some order. Its targets are the active nodes it
      knows and itself; the dead node is not among them because it was marked dead first. */
  ghost predicate Enabled(s: Cluster, dead: Node, e: Event) {
    match e
    case Begin(n, orphans, targets) =>
      && n !in s.active && n in targets && dead !in targets
      && NoDuplicates(orphans) && (forall d :: d in orphans <==> d in s.owner && s.owner[d] == dead)
    case WriteNext(n) =>
      n in s.active && s.active[n].targets != [] && s.active[n].next < |s.active[n].orphans|
    case Fail(n) => n in s.active
    case Finish(n) => n in s.active && s.active[n].next == |s.active[n].orphans|
  }

  ghost function Apply(s: Cluster, dead: Node, e: Event): Cluster
    requires Enabled(s, dead, e)
  {
    match e
    case Begin(n, orphans, targets) =>
      s.(active := s.active[n := Redistribution(orphans, targets, 0)],
         listed := s.listed + (set t | t in targets))
    case WriteNext(n) =>
      var r := s.active[n];
      var d := r.orphans[r.next];
      var t := TargetOf(r.targets, r.next);
      s.(owner := if d in s.owner then s.owner[d := t] else s.owner,
         held := if t == n then s.held + {(n, d)} else s.held,
         active := s.active[n := r.(next := r.next + 1)])
    case Fail(n) => s.(active := s.active - {n})
    case Finish(n) => s.(active := s.active - {n}, finished := s.finished + {n})
  }

  predicate Initial(s: Cluster) {
    s.active == map[] && s.finished == {} && s.listed == {}
  }

  ghost predicate IsRun(states: seq<Cluster>, dead: Node, events: seq<Event>) {
    && |states| == |events| + 1 && Initial(states[0])
    && forall i :: 0 <= i < |events| ==>
         Enabled(states[i], dead, events[i]) && states[i + 1] == Apply(states[i], dead, events[i])
  }

  /** What a redistribution in progress has achieved: its targets are known, its orphans were the
      dead node's at the start, the written ones are not any more, and every device the dead node
      still has is among those left to write. */
  ghost predicate RedistributionSound(s: Cluster, start: Cluster, dead: Node, n: Node)
    requires n in s.active
  {
    var r := s.active[n];
    && r.next <= |r.orphans| && n in r.targets
    && (forall t :: t in r.targets ==> t in s.listed)
    && (forall d :: d in r.orphans ==> d in start.owner && start.owner[d] == dead)
    && (forall d :: d in s.owner && s.owner[d] == dead ==> d in r.orphans[r.next..])
  }

  ghost predicate Sound(s: Cluster, start: Cluster, dead: Node) {
    && dead !in s.listed
    && s.owner.Keys == start.owner.Keys
    && (forall d :: d in s.owner ==> OwnerSound(s, start, dead, d))
    && (forall n :: n in s.active ==> RedistributionSound(s, start, dead, n))
    && (s.finished != {} ==> forall d :: d in s.owner ==> s.owner[d] != dead)
  }

  /** A device keeps its owner, unless it was the dead node's; then it may also have moved to a
      node that some survivor listed. */
  ghost predicate OwnerSound(s: Cluster, start: Cluster, dead: Node, d: Device)
    requires d in s.owner && d in start.owner
  {
    s.owner[d] == start.owner[d] || (start.owner[d] == dead && s.owner[d] in s.listed)
  }

  lemma WriteIsSound(s: Cluster, start: Cluster, dead: Node, n: Node)
    requires Sound(s, start, dead) && Enabled(s, dead, WriteNext(n))
    ensures Sound(Apply(s, dead, WriteNext(n)), start, dead)
  {
    var s' := Apply(s, dead, WriteNext(n));
    var r := s.active[n];
    var d := r.orphans[r.next];
    var t := TargetOf(r.targets, r.next);
    assert RedistributionSound(s, start, dead, n) && t in r.targets && d in r.orphans;
    forall m | m in s'.active ensures RedistributionSound(s', start, dead, m) {
      assert RedistributionSound(s, start, dead, m);
      if m == n {
        assert r.orphans[r.next..] == [d] + r.orphans[r.next + 1..];
      }
    }
    forall x | x in s'.owner ensures OwnerSound(s', start, dead, x) {
      assert OwnerSound(s, start, dead, x);
    }
  }

  lemma StepIsSound(s: Cluster, start: Cluster, dead: Node, e: Event)
    requires Sound(s, start, dead) && Enabled(s, dead, e)
    ensures Sound(Apply(s, dead, e), start, dead)
  {
    if e.WriteNext? {
      WriteIsSound(s, start, dead, e.node);
    } else {
      var s' := Apply(s, dead, e);
      forall m | m in s'.active ensures RedistributionSound(s', start, dead, m) {
        if m in s.active {
          assert RedistributionSound(s, start, dead, m);
        } else {
          assert s'.active[m].orphans[0..] == s'.active[m].orphans;
          forall d | d in s'.active[m].orphans ensures start.owner[d] == dead {
            assert OwnerSound(s, start, dead, d);
          }
        }
      }
      forall x | x in s'.owner ensures OwnerSound(s', start, dead, x) {
        assert OwnerSound(s, start, dead, x);
      }
      if e.Finish? {
        assert RedistributionSound(s, start, dead, e.node);
      }
    }
  }

  lemma {:induction false} RunIsSound(states: seq<Cluster>, dead: Node, events: seq<Event>, k: nat)
    requires IsRun(states, dead, events) && k < |states|
    ensures Sound(states[k], states[0], dead)
  {
    if k > 0 {
      RunIsSound(states, dead, events, k - 1);
      StepIsSound(states[k - 1], states[0], dead, events[k - 1]);
    }
  }

  /** Failover safety: as soon as one survivor has finished, whatever the others did or left
      undone, no device is the dead node's, each of its devices is with a node that some survivor
      listed, and nobody else's device moved. */
  lemma FailoverMovesExactlyTheOrphans(states: seq<Cluster>, dead: Node, events: seq<Event>, k: nat, d: Device)
    requires IsRun(states, dead, events) && k < |states| && states[k].finished != {}
    requires d in states[0].owner
    ensures d in states[k].owner && states[k].owner[d] != dead
    ensures states[0].owner[d] == dead ==> states[k].owner[d] in states[k].listed
    ensures states[0].owner[d] != dead ==> states[k].owner[d] == states[0].owner[d]
  {
    RunIsSound(states, dead, events, k);
    assert OwnerSound(states[k], states[0], dead, d);
  }

  /** A survivor that starts after another one has finished finds nothing to do: its whole
      redistribution writes no owner. */
  lemma {:induction false} LateSurvivorChangesNothing(states: seq<Cluster>, dead: Node, events: seq<Event>,
                                                      b: nat, k: nat)
    requires IsRun(states, dead, events) && b < |events| && b <= k < |events|
    requires events[b].Begin? && states[b].finished != {}
    requires events[k].node == events[b].node
    requires forall i :: b < i <= k && events[i].node == events[b].node ==> !events[i].Begin?
    ensures states[k + 1].owner == states[k].owner && states[k + 1].held == states[k].held
  {
    RunIsSound(states, dead, events, b);
    assert Enabled(states[b], dead, events[b]);
    assert states[k + 1] == Apply(states[k], dead, events[k]);
    if k > b {
      LateHasNoOrphans(states, dead, events, b, k);
    }
  }

  lemma EmptyOrHasMember(s: seq<Device>)
    ensures s == [] || exists d :: d in s
  {
    if s != [] {
      assert s[0] in s;
    }
  }

  lemma {:induction false} LateHasNoOrphans(states: seq<Cluster>, dead: Node, events: seq<Event>, b: nat, k: nat)
    requires IsRun(states, dead, events) && b < |events| && b < k < |states|
    requires events[b].Begin? && states[b].finished != {}
    requires forall i :: b < i < k && events[i].node == events[b].node ==> !events[i].Begin?
    ensures events[b].node in states[k].active ==> states[k].active[events[b].node].orphans == []
  {
    if k == b + 1 {
      RunIsSound(states, dead, events, b);
      assert Enabled(states[b], dead, events[b]) && states[k] == Apply(states[b], dead, events[b]);
      EmptyOrHasMember(events[b].orphans);
    } else {
      LateHasNoOrphans(states, dead, events, b, k - 1);
      assert Enabled(states[k - 1], dead, events[k - 1]);
      assert states[k] == Apply(states[k - 1], dead, events[k - 1]);
    }
  }

  // ----- Who holds the redistributed devices -----

  /** Step i is survivor w writing device d to node t. */
  ghost predicate WrittenBy(states: seq<Cluster>, events: seq<Event>, i: nat, w: Node, d: Device, t: Node) {
    && i < |events| && i < |states| && events[i] == WriteNext(w) && w in states[i].active
    && var r := states[i].active[w];
       r.targets != [] && r.next < |r.orphans| && r.orphans[r.next] == d && TargetOf(r.targets, r.next) == t
  }

  /** Step i is survivor n writing device d to itself. */
  ghost predicate KeptBy(states: seq<Cluster>, events: seq<Event>, i: nat, n: Node, d: Device) {
    WrittenBy(states, events, i, n, d, n)
  }

  ghost predicate KeptBefore(states: seq<Cluster>, events: seq<Event>, k: nat, n: Node, d: Device) {
    exists i: nat :: i < k && KeptBy(states, events, i, n, d)
  }

  /** In every run, a node holds a device exactly when it held it at the start or wrote it to itself
      at some step. The table plays no part in it. */
  lemma {:induction false} HeldIffKept(states: seq<Cluster>, dead: Node, events: seq<Event>, k: nat, n: Node, d: Device)
    requires IsRun(states, dead, events) && k < |states|
    ensures (n, d) in states[k].held <==> (n, d) in states[0].held || KeptBefore(states, events, k, n, d)
  {
    if k > 0 {
      HeldIffKept(states, dead, events, k - 1, n, d);
      var s, e := states[k - 1], events[k - 1];
      assert Enabled(s, dead, e) && states[k] == Apply(s, dead, e);
      assert (n, d) in states[k].held <==> (n, d) in s.held || KeptBy(states, events, k - 1, n, d);
      if KeptBefore(states, events, k, n, d) {
        var i: nat :| i < k && KeptBy(states, events, i, n, d);
        assert i < k - 1 ==> KeptBefore(states, events, k - 1, n, d);
      }
    }
  }

  /** The recorded owner of a redistributed device, for any number of survivors and any
      interleaving: it holds the device exactly when it wrote it to itself at some step. Being
      written by another survivor is not enough, because the targets are never told. */
  lemma RecordedOwnerHoldsIffKept(states: seq<Cluster>, dead: Node, events: seq<Event>, k: nat, d: Device)
    requires IsRun(states, dead, events) && k < |states| && states[k].finished != {}
    requires d in states[0].owner && states[0].owner[d] == dead
    requires forall n :: (n, d) in states[0].held ==> n == dead
    ensures d in states[k].owner && states[k].owner[d] != dead
    ensures (states[k].owner[d], d) in states[k].held <==> KeptBefore(states, events, k, states[k].owner[d], d)
  {
    FailoverMovesExactlyTheOrphans(states, dead, events, k, d);
    HeldIffKept(states, dead, events, k, states[k].owner[d], d);
  }

  /** An owner that changed was written by somebody. */
  lemma {:induction false} ChangedOwnerWasWritten(states: seq<Cluster>, dead: Node, events: seq<Event>,
                                                  k: nat, d: Device)
    returns (i: nat, w: Node)
    requires IsRun(states, dead, events) && k < |states|
    requires d in states[0].owner && d in states[k].owner && states[k].owner[d] != states[0].owner[d]
    ensures i < k && WrittenBy(states, events, i, w, d, states[k].owner[d])
  {
    assert k > 0;
    var s, e := states[k - 1], events[k - 1];
    assert Enabled(s, dead, e) && states[k] == Apply(s, dead, e);
    if s.owner[d] == states[k].owner[d] {
      i, w := ChangedOwnerWasWritten(states, dead, events, k - 1, d);
    } else {
      i, w := k - 1, e.node;
    }
  }

  /** When one survivor does the whole redistribution, the node recorded for an orphan holds it
      exactly when that node is the survivor itself. */
  lemma RedistributedDeviceIsHeldIffKept(states: seq<Cluster>, dead: Node, events: seq<Event>, me: Node,
                                         k: nat, d: Device)
    requires IsRun(states, dead, events) && k < |states| && states[k].finished != {}
    requires forall i :: 0 <= i < |events| ==> events[i].node == me
    requires d in states[0].owner && states[0].owner[d] == dead && me != dead
    requires forall n :: (n, d) in states[0].held ==> n == dead
    ensures d in states[k].owner && ((states[k].owner[d], d) in states[k].held <==> states[k].owner[d] == me)
  {
    RecordedOwnerHoldsIffKept(states, dead, events, k, d);
    var i, w := ChangedOwnerWasWritten(states, dead, events, k, d);
    assert w == me;
    if states[k].owner[d] == me {
      assert KeptBy(states, events, i, me, d);
    }
  }

  // ----- Two survivors -----

  ghost function Last(states: seq<Cluster>): Cluster
    requires states != []
  {
    states[|states| - 1]
  }

  lemma Extend(states: seq<Cluster>, dead: Node, events: seq<Event>, e: Event)
    returns (states': seq<Cluster>, events': seq<Event>)
    requires IsRun(states, dead, events) && Enabled(Last(states), dead, e)
    ensures IsRun(states', dead, events') && states'[0] == states[0]
    ensures Last(states') == Apply(Last(states), dead, e)
  {
    states', events' := states + [Apply(Last(states), dead, e)], events + [e];
  }

  /** The state after survivor n alone has written the first k orphans. */
  ghost function AfterWriting(s: Cluster, n: Node, orphans: seq<Device>, targets: seq<Node>, k: nat): Cluster
    requires targets != [] && k <= |orphans| && NoDuplicates(orphans)
  {
    s.(owner := NewOwners(s, orphans, targets, k),
       held := s.held + KeptSet(n, orphans, targets, k),
       listed := s.listed + (set t | t in targets))
  }

  /** Orphan i of the first k goes to target i modulo the number of targets; the rest stay. */
  ghost function NewOwner(s: Cluster, orphans: seq<Device>, targets: seq<Node>, k: nat, d: Device): Node
    requires targets != [] && k <= |orphans| && d in s.owner
  {
    if i :| 0 <= i < k && orphans[i] == d then TargetOf(targets, i) else s.owner[d]
  }

  /** In the middle of it: k orphans are written. */
  ghost function Writing(s: Cluster, n: Node, orphans: seq<Device>, targets: seq<Node>, k: nat): Cluster
    requires targets != [] && k <= |orphans| && NoDuplicates(orphans)
  {
    AfterWriting(s, n, orphans, targets, k).(active := s.active[n := Redistribution(orphans, targets, k)])
  }

  lemma WritingBegins(s: Cluster, dead: Node, n: Node, orphans: seq<Device>, targets: seq<Node>)
    requires Enabled(s, dead, Begin(n, orphans, targets))
    ensures targets != [] && Apply(s, dead, Begin(n, orphans, targets)) == Writing(s, n, orphans, targets, 0)
  {
    var t := AfterWriting(s, n, orphans, targets, 0);
    assert t.owner == s.owner && t.held == s.held;
  }

  lemma WritingGoesOn(s: Cluster, dead: Node, n: Node, orphans: seq<Device>, targets: seq<Node>, k: nat)
    requires targets != [] && k < |orphans| && NoDuplicates(orphans)
    ensures Enabled(Writing(s, n, orphans, targets, k), dead, WriteNext(n))
    ensures Apply(Writing(s, n, orphans, targets, k), dead, WriteNext(n)) == Writing(s, n, orphans, targets, k + 1)
  {
    AfterWritingOne(s, n, orphans, targets, k);
  }

  lemma {:induction false} WriteSome(states: seq<Cluster>, dead: Node, events: seq<Event>, n: Node,
                                     orphans: seq<Device>, targets: seq<Node>, k: nat)
    returns (states': seq<Cluster>, events': seq<Event>)
    requires IsRun(states, dead, events) && Enabled(Last(states), dead, Begin(n, orphans, targets)) && k <= |orphans|
    ensures IsRun(states', dead, events') && states'[0] == states[0]
    ensures Last(states') == Writing(Last(states), n, orphans, targets, k)
    decreases k
  {
    var s := Last(states);
    if k == 0 {
      WritingBegins(s, dead, n, orphans, targets);
      states', events' := Extend(states, dead, events, Begin(n, orphans, targets));
    } else {
      states', events' := WriteSome(states, dead, events, n, orphans, targets, k - 1);
      WritingGoesOn(s, dead, n, orphans, targets, k - 1);
      states', events' := Extend(states', dead, events', WriteNext(n));
    }
  }

  lemma AfterWritingOne(s: Cluster, n: Node, orphans: seq<Device>, targets: seq<Node>, k: nat)
    requires targets != [] && k < |orphans| && NoDuplicates(orphans)
    ensures var before, after := AfterWriting(s, n, orphans, targets, k), AfterWriting(s, n, orphans, targets, k + 1);
            var d, t := orphans[k], TargetOf(targets, k);
            && after.owner == (if d in before.owner then before.owner[d := t] else before.owner)
            && after.held == (if t == n then before.held + {(n, d)} else before.held)
  {
    OwnersOneMore(s, orphans, targets, k);
    KeptOneMore(n, orphans, targets, k);
    SetOneMore(s.held, KeptSet(n, orphans, targets, k), (n, orphans[k]));
  }

  lemma SetOneMore(a: set<(Node, Device)>, b: set<(Node, Device)>, x: (Node, Device))
    ensures a + (b + {x}) == (a + b) + {x}
  {
  }

  ghost function NewOwners(s: Cluster, orphans: seq<Device>, targets: seq<Node>, k: nat): map<Device, Node>
    requires targets != [] && k <= |orphans|
  {
    map d | d in s.owner :: NewOwner(s, orphans, targets, k, d)
  }

  lemma OwnersOneMore(s: Cluster, orphans: seq<Device>, targets: seq<Node>, k: nat)
    requires targets != [] && k < |orphans| && NoDuplicates(orphans)
    ensures var before, after := NewOwners(s, orphans, targets, k), NewOwners(s, orphans, targets, k + 1);
            after == if orphans[k] in before then before[orphans[k] := TargetOf(targets, k)] else before
  {
    forall d | d in s.owner
      ensures NewOwner(s, orphans, targets, k + 1, d) ==
              if d == orphans[k] then TargetOf(targets, k) else NewOwner(s, orphans, targets, k, d)
    {
      NewOwnerStep(s, orphans, targets, k, d);
    }
  }

  /** What n adds to its set by the first k writes. */
  ghost function KeptSet(n: Node, orphans: seq<Device>, targets: seq<Node>, k: nat): set<(Node, Device)>
    requires targets != [] && k <= |orphans|
  {
    set i | 0 <= i < k && TargetOf(targets, i) == n :: (n, orphans[i])
  }

  lemma KeptOneMore(n: Node, orphans: seq<Device>, targets: seq<Node>, k: nat)
    requires targets != [] && k < |orphans|
    ensures KeptSet(n, orphans, targets, k + 1) ==
            if TargetOf(targets, k) == n then KeptSet(n, orphans, targets, k) + {(n, orphans[k])}
            else KeptSet(n, orphans, targets, k)
  {
  }

  lemma NewOwnerStep(s: Cluster, orphans: seq<Device>, targets: seq<Node>, k: nat, d: Device)
    requires targets != [] && k < |orphans| && NoDuplicates(orphans) && d in s.owner
    ensures NewOwner(s, orphans, targets, k + 1, d) ==
            if d == orphans[k] then TargetOf(targets, k) else NewOwner(s, orphans, targets, k, d)
  {
    if d == orphans[k] {
      assert 0 <= k < k + 1 && orphans[k] == d;
    } else if i :| 0 <= i < k && orphans[i] == d {
      assert forall j :: 0 <= j < k + 1 && orphans[j] == d ==> j == i;
    }
  }

  /** A survivor that works alone from the start to the end of its redistribution writes exactly the
      owners of the round-robin rule, adds exactly its own devices, and is done. */
  lemma RedistributeAlone(states: seq<Cluster>, dead: Node, events: seq<Event>, n: Node, orphans: seq<Device>,
                          targets: seq<Node>)
    returns (states': seq<Cluster>, events': seq<Event>)
    requires IsRun(states, dead, events) && Enabled(Last(states), dead, Begin(n, orphans, targets))
    ensures IsRun(states', dead, events') && states'[0] == states[0]
    ensures Last(states') == AfterWriting(Last(states), n, orphans, targets, |orphans|).(
              finished := Last(states).finished + {n})
  {
    states', events' := WriteSome(states, dead, events, n, orphans, targets, |orphans|);
    states', events' := Extend(states', dead, events', Finish(n));
    assert Last(states').active == Last(states).active;
  }

  /** If it fails after k writes, these stay, nothing else changes, and it does not count as finished. */
  lemma RedistributionFails(states: seq<Cluster>, dead: Node, events: seq<Event>, n: Node, orphans: seq<Device>,
                            targets: seq<Node>, k: nat)
    returns (states': seq<Cluster>, events': seq<Event>)
    requires IsRun(states, dead, events) && Enabled(Last(states), dead, Begin(n, orphans, targets)) && k <= |orphans|
    ensures IsRun(states', dead, events') && states'[0] == states[0]
    ensures Last(states') == AfterWriting(Last(states), n, orphans, targets, k)
  {
    states', events' := WriteSome(states, dead, events, n, orphans, targets, k);
    states', events' := Extend(states', dead, events', Fail(n));
    assert Last(states').active == Last(states).active;
  }

  /** Device 7 was node 0's. Nodes 1 and 2 have both read it before either writes; each lists both
      survivors, in an order that depends on the counts it knows. */
  ghost function BothStarted(one: seq<Node>, two: seq<Node>): Cluster {
    Cluster(map[7 := 0], {}, map[1 := Redistribution([7], one, 0), 2 := Redistribution([7], two, 0)], {}, {1, 2})
  }

  ghost predicate ListsBoth(targets: seq<Node>) {
    targets == [1, 2] || targets == [2, 1]
  }

  lemma StartBoth(one: seq<Node>, two: seq<Node>) returns (states: seq<Cluster>, events: seq<Event>)
    requires ListsBoth(one) && ListsBoth(two)
    ensures IsRun(states, 0, events) && states[0].owner == map[7 := 0] && states[0].held == {}
    ensures Last(states) == BothStarted(one, two)
  {
    states, events := [Cluster(map[7 := 0], {}, map[], {}, {})], [];
    states, events := Extend(states, 0, events, Begin(1, [7], one));
    states, events := Extend(states, 0, events, Begin(2, [7], two));
    assert Last(states).listed == {1, 2};
  }

  /** Node n, which has read device 7, writes it to its first target and finishes. */
  lemma WriteAndFinish(states: seq<Cluster>, events: seq<Event>, n: Node)
    returns (states': seq<Cluster>, events': seq<Event>)
    requires IsRun(states, 0, events) && Last(states).owner.Keys == {7}
    requires n in Last(states).active && Last(states).active[n].orphans == [7]
    requires Last(states).active[n].next == 0 && ListsBoth(Last(states).active[n].targets)
    ensures IsRun(states', 0, events') && states'[0] == states[0]
    ensures var s := Last(states);
            var t := s.active[n].targets[0];
            Last(states') == s.(owner := map[7 := t], held := if t == n then s.held + {(n, 7)} else s.held,
                                active := s.active - {n}, finished := s.finished + {n})
  {
    var s := Last(states);
    TargetBeforeWrap(s.active[n].targets, 0);
    states', events' := Extend(states, 0, events, WriteNext(n));
    states', events' := Extend(states', 0, events', Finish(n));
    assert Last(states').active == s.active - {n};
  }

  /** Two survivors that each keep the device end with both holding it, and the table names one. */
  lemma HeldByANodeTheTableDoesNotName() returns (states: seq<Cluster>, events: seq<Event>)
    ensures IsRun(states, 0, events) && states[0].owner == map[7 := 0] && states[0].held == {}
    ensures Last(states).owner == map[7 := 2] && Last(states).held == {(1, 7), (2, 7)}
    ensures Last(states).finished == {1, 2}
  {
    states, events := StartBoth([1, 2], [2, 1]);
    states, events := WriteAndFinish(states, events, 1);
    states, events := WriteAndFinish(states, events, 2);
    assert Last(states).held == {(1, 7), (2, 7)};
  }

  /** Two survivors that each give the device to the other end with nobody holding it. */
  lemma HeldByNobody() returns (states: seq<Cluster>, events: seq<Event>)
    ensures IsRun(states, 0, events) && states[0].owner == map[7 := 0] && states[0].held == {}
    ensures Last(states).owner == map[7 := 1] && Last(states).held == {}
    ensures Last(states).finished == {1, 2}
  {
    states, events := StartBoth([2, 1], [1, 2]);
    states, events := WriteAndFinish(states, events, 1);
    states, events := WriteAndFinish(states, events, 2);
  }
}
