/** The failure detector as it really runs: between any two of its accesses to the list, time
    passes and messages arrive. A pass collects suspects, examines them one by one (each with a
    probe that takes time), then collects the dead and buries them one by one. */
module Detector {
  import opened Basics
  import opened ClusterPayload
  import opened Membership

  datatype Phase =
    | Idle
    | Suspecting(queue: seq<Node>, started: int)
    | Probing(node: Node, queue: seq<Node>, started: int)
    | Collecting(queue: seq<Node>, started: int, collected: int)
    | Removing(node: Node, queue: seq<Node>, started: int, collected: int)

  /** `heard` is when the last message from each peer arrived. */
  datatype State = State(now: int, nodes: Peers, heard: map<Node, int>, phase: Phase)

  datatype Config = Config(suspect: nat, dead: nat)

  datatype Event =
    | Tick(time: int)
    | Hear(node: Node, info: Info)
    | Acknowledged(node: Node)
    | SuspectMessage(node: Node)
    | Gone(node: Node)
    | StartPass(queue: seq<Node>)
    | Examine
    | ProbeDone(alive: bool)
    | CollectDead(queue: seq<Node>)
    | Bury
    | FinishBurial
    | EndPass

  predicate IsSuspectCandidate(s: State, c: Config, n: Node) {
    n in s.nodes && s.nodes[n].status == Active && Since(s.nodes[n].last, s.now) > c.suspect
  }

  predicate IsDeadCandidate(s: State, c: Config, n: Node) {
    n in s.nodes && s.nodes[n].status == Suspect && Since(s.nodes[n].last, s.now) > c.suspect + c.dead
  }

  ghost predicate Enabled(s: State, c: Config, e: Event) {
    match e
    case Tick(time) => time >= s.now
    case Hear(n, info) => info.last == s.now
    case Acknowledged(n) => true
    case SuspectMessage(n) => true
    case Gone(n) => true
    case StartPass(queue) => s.phase.Idle? && forall n :: n in queue <==> IsSuspectCandidate(s, c, n)
    case Examine => s.phase.Suspecting? && s.phase.queue != []
    case ProbeDone(_) => s.phase.Probing?
    case CollectDead(queue) =>
      s.phase.Suspecting? && s.phase.queue == [] && forall n :: n in queue <==> IsDeadCandidate(s, c, n)
    case Bury => s.phase.Collecting? && s.phase.queue != []
    case FinishBurial => s.phase.Removing?
    case EndPass => s.phase.Collecting? && s.phase.queue == []
  }

  function SetStatus(nodes: Peers, n: Node, status: NodeStatus): Peers {
    if n in nodes then nodes[n := nodes[n].(status := status)] else nodes
  }

  ghost function Apply(s: State, c: Config, e: Event): State
    requires Enabled(s, c, e)
  {
    match e
    case Tick(time) => s.(now := time)
    case Hear(n, info) => s.(nodes := s.nodes[n := info], heard := s.heard[n := s.now])
    case Acknowledged(n) =>
      if n in s.nodes then s.(nodes := s.nodes[n := s.nodes[n].(last := s.now)], heard := s.heard[n := s.now]) else s
    case SuspectMessage(n) =>
      if n in s.nodes && s.nodes[n].status == Active then s.(nodes := SetStatus(s.nodes, n, Suspect)) else s
    case Gone(n) => s.(nodes := s.nodes - {n})
    case StartPass(queue) => s.(phase := Suspecting(queue, s.now))
    case Examine =>
      var n, rest := s.phase.queue[0], s.phase.queue[1..];
      if n !in s.nodes || Since(s.nodes[n].last, s.now) <= c.suspect then s.(phase := Suspecting(rest, s.phase.started))
      else
        s.(nodes := if s.nodes[n].status == Active then SetStatus(s.nodes, n, Suspect) else s.nodes,
           phase := Probing(n, rest, s.phase.started))
    case ProbeDone(alive) =>
      var n := s.phase.node;
      s.(nodes := if alive && n in s.nodes then s.nodes[n := s.nodes[n].(last := s.now, status := Active)] else s.nodes,
         phase := Suspecting(s.phase.queue, s.phase.started))
    case CollectDead(queue) => s.(phase := Collecting(queue, s.phase.started, s.now))
    case Bury =>
      var n, rest := s.phase.queue[0], s.phase.queue[1..];
      if n !in s.nodes then s.(phase := Collecting(rest, s.phase.started, s.phase.collected))
      else s.(nodes := SetStatus(s.nodes, n, Dead), phase := Removing(n, rest, s.phase.started, s.phase.collected))
    case FinishBurial =>
      s.(nodes := s.nodes - {s.phase.node}, phase := Collecting(s.phase.queue, s.phase.started, s.phase.collected))
    case EndPass => s.(phase := Idle)
  }

  ghost predicate IsRun(states: seq<State>, c: Config, events: seq<Event>) {
    && |states| == |events| + 1 && states[0].phase == Idle
    && (forall n :: n in states[0].nodes ==>
          n in states[0].heard && states[0].heard[n] <= states[0].nodes[n].last <= states[0].now)
    && forall i :: 0 <= i < |events| ==>
         Enabled(states[i], c, events[i]) && states[i + 1] == Apply(states[i], c, events[i])
  }

  // ----- Soundness -----

  /** The peer is listed, and the running pass is not about to bury it. */
  ghost predicate Safe(s: State, p: Node) {
    && p in s.nodes && p in s.heard && s.heard[p] <= s.nodes[p].last
    && (s.phase.Collecting? ==> p !in s.phase.queue)
    && (s.phase.Removing? ==> p !in s.phase.queue && p != s.phase.node)
  }

  lemma StepIsSafe(s: State, c: Config, e: Event, p: Node)
    requires Safe(s, p) && Enabled(s, c, e) && e != Gone(p)
    requires s.now - s.heard[p] <= c.suspect + c.dead
    requires forall n :: n in s.nodes ==> s.nodes[n].last <= s.now
    ensures Safe(Apply(s, c, e), p)
  {
    if e.CollectDead? {
      assert !IsDeadCandidate(s, c, p);
    }
  }

  lemma {:induction false} ClockIsAhead(states: seq<State>, c: Config, events: seq<Event>, k: nat)
    requires IsRun(states, c, events) && k < |states|
    ensures forall n :: n in states[k].nodes ==> states[k].nodes[n].last <= states[k].now
  {
    if k > 0 {
      ClockIsAhead(states, c, events, k - 1);
      assert Enabled(states[k - 1], c, events[k - 1]) && states[k] == Apply(states[k - 1], c, events[k - 1]);
    }
  }

  /** A peer that is heard from at gaps of at most the two timeouts together is never removed by
      this node's detector: whatever it is told about suspects, however the probes end, however
      long a pass takes, and whatever happens between its steps. */
  lemma {:induction false} LivePeerIsNeverRemoved(states: seq<State>, c: Config, events: seq<Event>, p: Node, k: nat)
    requires IsRun(states, c, events) && k < |states| && p in states[0].nodes
    requires forall i :: 0 <= i < |events| ==> events[i] != Gone(p)
    requires forall i :: 0 <= i <= k && p in states[i].heard ==>
               states[i].now - states[i].heard[p] <= c.suspect + c.dead
    ensures Safe(states[k], p)
  {
    if k > 0 {
      LivePeerIsNeverRemoved(states, c, events, p, k - 1);
      ClockIsAhead(states, c, events, k - 1);
      StepIsSafe(states[k - 1], c, events[k - 1], p);
    }
  }

  // ----- Completeness -----

  /** Active peers that the running pass has dealt with were heard from no earlier than one suspect
      timeout before it started. */
  ghost predicate ActivesFresh(s: State, c: Config, queue: seq<Node>, started: int) {
    forall n :: n in s.nodes && s.nodes[n].status == Active && n !in queue ==> s.nodes[n].last >= started - c.suspect
  }

  ghost predicate SuspectsFresh(s: State, c: Config, queue: seq<Node>, started: int, collected: int) {
    forall n :: n in s.nodes && s.nodes[n].status == Suspect && n !in queue ==>
      s.nodes[n].last >= started - c.suspect || s.nodes[n].last >= collected - c.suspect - c.dead
  }

  ghost predicate Progress(s: State, c: Config) {
    match s.phase
    case Idle => true
    case Suspecting(queue, started) => started <= s.now && ActivesFresh(s, c, queue, started)
    case Probing(node, queue, started) => started <= s.now && ActivesFresh(s, c, queue, started)
    case Collecting(queue, started, collected) =>
      started <= collected <= s.now && ActivesFresh(s, c, [], started) && SuspectsFresh(s, c, queue, started, collected)
    case Removing(node, queue, started, collected) =>
      && started <= collected <= s.now && ActivesFresh(s, c, [], started)
      && SuspectsFresh(s, c, queue, started, collected)
  }

  lemma StepKeepsProgress(s: State, c: Config, e: Event)
    requires Progress(s, c) && Enabled(s, c, e)
    requires forall n :: n in s.nodes ==> s.nodes[n].last <= s.now
    ensures Progress(Apply(s, c, e), c)
  {
    var s' := Apply(s, c, e);
    if e.Examine? || e.Bury? {
      assert forall n :: n in s.phase.queue <==> n == s.phase.queue[0] || n in s.phase.queue[1..];
    }
    if e.StartPass? {
      assert forall n :: n in s.nodes && s.nodes[n].status == Active && n !in e.queue ==> !IsSuspectCandidate(s, c, n);
    }
    if e.CollectDead? {
      assert forall n :: n in s.nodes && s.nodes[n].status == Suspect && n !in e.queue ==> !IsDeadCandidate(s, c, n);
    }
  }

  lemma {:induction false} RunKeepsProgress(states: seq<State>, c: Config, events: seq<Event>, k: nat)
    requires IsRun(states, c, events) && k < |states|
    ensures Progress(states[k], c)
  {
    if k > 0 {
      RunKeepsProgress(states, c, events, k - 1);
      ClockIsAhead(states, c, events, k - 1);
      StepKeepsProgress(states[k - 1], c, events[k - 1]);
    }
  }

  /** The running pass started at step a, and collected the dead at step b if it got that far. */
  ghost predicate StartedAt(states: seq<State>, events: seq<Event>, k: nat, a: nat, b: nat)
    requires |states| == |events| + 1 && k < |states| && !states[k].phase.Idle?
  {
    && a < k && events[a].StartPass? && states[k].phase.started == states[a].now
    && (forall i :: a < i < k ==> !events[i].StartPass? && events[i] != EndPass)
    && (states[k].phase.Collecting? || states[k].phase.Removing? ==>
          a < b < k && events[b].CollectDead? && states[k].phase.collected == states[b].now)
  }

  lemma {:induction false} PassStarted(states: seq<State>, c: Config, events: seq<Event>, k: nat)
    returns (a: nat, b: nat)
    requires IsRun(states, c, events) && k < |states| && !states[k].phase.Idle?
    ensures StartedAt(states, events, k, a, b)
    decreases k
  {
    assert k > 0;
    var s, e := states[k - 1], events[k - 1];
    assert Enabled(s, c, e) && states[k] == Apply(s, c, e);
    if e.StartPass? {
      a, b := k - 1, 0;
    } else {
      a, b := PassStarted(states, c, events, k - 1);
      if e.CollectDead? {
        b := k - 1;
      }
    }
  }

  /** When a pass ends, every active peer was heard from no earlier than one suspect timeout before
      the pass began, at step a; every suspect peer too, or no earlier than both timeouts before the
      dead were collected, at step b. */
  lemma PassLeavesOnlyFreshPeers(states: seq<State>, c: Config, events: seq<Event>, k: nat, n: Node)
    returns (a: nat, b: nat)
    requires IsRun(states, c, events) && k < |events| && events[k] == EndPass
    requires n in states[k + 1].nodes
    ensures a < b < k && events[a].StartPass? && events[b].CollectDead?
    ensures forall i :: a < i < k ==> !events[i].StartPass? && events[i] != EndPass
    ensures var peer := states[k + 1].nodes[n];
            && (peer.status == Active ==> peer.last >= states[a].now - c.suspect)
            && (peer.status == Suspect ==>
                  peer.last >= states[a].now - c.suspect || peer.last >= states[b].now - c.suspect - c.dead)
  {
    assert Enabled(states[k], c, events[k]);
    a, b := PassStarted(states, c, events, k);
    RunKeepsProgress(states, c, events, k);
    assert Enabled(states[k], c, events[k]) && states[k + 1] == Apply(states[k], c, events[k]);
  }

  // ----- What changes a peer -----

  /** The step is a sign of life of the peer: a message from it, or a probe that reached it. */
  predicate Touches(s: State, e: Event, p: Node) {
    match e
    case Hear(n, _) => n == p
    case Acknowledged(n) => n == p
    case ProbeDone(alive) => alive && s.phase.Probing? && s.phase.node == p
    case _ => false
  }

  /** The step is a message from the peer that this node takes note of. */
  predicate Spoke(s: State, e: Event, p: Node) {
    (e.Hear? && e.node == p) || (e == Acknowledged(p) && p in s.nodes)
  }

  /** The step ends the membership of the peer. */
  predicate Removes(s: State, e: Event, p: Node) {
    e == Gone(p) || (e.FinishBurial? && s.phase.Removing? && s.phase.node == p)
  }

  /** A listed peer stays listed exactly unless the step removes it. Its time changes, to now, exactly
      by a sign of life. An unlisted one gets listed only by a message from it. */
  lemma TimeChangesOnlyBySignsOfLife(s: State, c: Config, e: Event, p: Node)
    requires Enabled(s, c, e)
    ensures var s' := Apply(s, c, e);
            && (p in s.nodes ==> (p !in s'.nodes <==> Removes(s, e, p)))
            && (p !in s.nodes ==> (p in s'.nodes <==> e.Hear? && e.node == p))
            && (p in s.nodes && p in s'.nodes ==>
                  s'.nodes[p].last == if Touches(s, e, p) then s.now else s.nodes[p].last)
            && (Spoke(s, e, p) ==> p in s'.heard && s'.heard[p] == s.now)
            && (!Spoke(s, e, p) ==> (p in s'.heard <==> p in s.heard) && (p in s.heard ==> s'.heard[p] == s.heard[p]))
            && s.now <= s'.now
  {
  }

  /** A peer that gives no sign of life keeps its status, but for three cases: an active one becomes
      suspect by an announcement, or when it is examined after more than the suspect timeout of
      silence; a peer is marked dead when it is buried. A successful probe makes it active. */
  lemma StatusChangesOnlyBy(s: State, c: Config, e: Event, p: Node)
    requires Enabled(s, c, e) && p in s.nodes && p in Apply(s, c, e).nodes
    ensures var before, after := s.nodes[p].status, Apply(s, c, e).nodes[p].status;
            var suspected := e == SuspectMessage(p) ||
                             (e.Examine? && s.phase.queue[0] == p && s.now - s.nodes[p].last > c.suspect);
            && (!Touches(s, e, p) && before == Active && suspected ==> after == Suspect)
            && (!Touches(s, e, p) && e.Bury? && s.phase.queue[0] == p ==> after == Dead)
            && (!Touches(s, e, p) && !(before == Active && after == Suspect) && !(e.Bury? && s.phase.queue[0] == p) ==>
                  after == before)
            && (!Touches(s, e, p) && before == Active && after == Suspect ==> suspected)
            && (e.ProbeDone? && Touches(s, e, p) ==> after == Active)
            && (e.Hear? && e.node == p ==> Apply(s, c, e).nodes[p] == e.info)
            && (e == Acknowledged(p) ==> after == before)
  {
  }

  // ----- A silent peer is removed -----

  /** No sign of life of the peer in steps from a up to but not including b. */
  ghost predicate Quiet(states: seq<State>, events: seq<Event>, a: nat, b: nat, p: Node)
    requires |states| == |events| + 1 && b <= |events|
  {
    forall i :: a <= i < b ==> !Touches(states[i], events[i], p)
  }

  /** The running pass has dealt with the peer, or still has it in hand. `last` is when it was heard. */
  ghost predicate InHand(s: State, p: Node, last: int) {
    p in s.nodes ==>
      && s.nodes[p].last == last
      && match s.phase
         case Idle => false
         case Suspecting(queue, _) => s.nodes[p].status == Suspect || (s.nodes[p].status == Active && p in queue)
         case Probing(_, queue, _) => s.nodes[p].status == Suspect || (s.nodes[p].status == Active && p in queue)
         case Collecting(queue, _, _) => p in queue
         case Removing(node, queue, _, _) => node == p || p in queue
  }

  lemma StepKeepsInHand(s: State, c: Config, e: Event, p: Node, last: int)
    requires Enabled(s, c, e) && !s.phase.Idle? && InHand(s, p, last)
    requires s.now - last > c.suspect + c.dead && !Touches(s, e, p)
    ensures InHand(Apply(s, c, e), p, last) && (e != EndPass ==> !Apply(s, c, e).phase.Idle?)
  {
    if e.Examine? || e.Bury? {
      assert forall n :: n in s.phase.queue <==> n == s.phase.queue[0] || n in s.phase.queue[1..];
    }
    if e.CollectDead? && p in s.nodes {
      assert IsDeadCandidate(s, c, p);
    }
  }

  lemma {:induction false} PassKeepsInHand(states: seq<State>, c: Config, events: seq<Event>, a: nat, k: nat, p: Node)
    requires IsRun(states, c, events) && a < k <= |events| && events[a].StartPass? && Quiet(states, events, a, k, p)
    requires forall i :: a < i < k ==> events[i] != EndPass
    requires p in states[a].nodes && states[a].nodes[p].status in {Active, Suspect}
    requires states[a].now - states[a].nodes[p].last > c.suspect + c.dead
    ensures InHand(states[k], p, states[a].nodes[p].last) && !states[k].phase.Idle? && states[a].now <= states[k].now
    decreases k
  {
    var last := states[a].nodes[p].last;
    assert Enabled(states[k - 1], c, events[k - 1]) && states[k] == Apply(states[k - 1], c, events[k - 1]);
    if k == a + 1 {
      assert states[a].nodes[p].status == Active ==> IsSuspectCandidate(states[a], c, p);
    } else {
      PassKeepsInHand(states, c, events, a, k - 1, p);
      StepKeepsInHand(states[k - 1], c, events[k - 1], p, last);
      TimeChangesOnlyBySignsOfLife(states[k - 1], c, events[k - 1], p);
    }
  }

  /** A pass removes every peer that was active or suspect and silent for longer than both timeouts
      when it started, if the peer gives no sign of life during the pass: whatever else happens
      between its steps, and however long they take. */
  lemma SilentPeerIsRemoved(states: seq<State>, c: Config, events: seq<Event>, a: nat, b: nat, p: Node)
    requires IsRun(states, c, events) && a < b < |events| && events[a].StartPass? && events[b] == EndPass
    requires Quiet(states, events, a, b, p) && forall i :: a < i < b ==> events[i] != EndPass
    requires p in states[a].nodes && states[a].nodes[p].status in {Active, Suspect}
    requires states[a].now - states[a].nodes[p].last > c.suspect + c.dead
    ensures p !in states[b + 1].nodes
  {
    PassKeepsInHand(states, c, events, a, b, p);
    assert Enabled(states[b], c, events[b]) && states[b + 1] == Apply(states[b], c, events[b]);
  }

  /** Whom the running pass is about to bury. */
  ghost predicate ToBury(s: State, p: Node) {
    match s.phase
    case Collecting(queue, _, _) => p in queue
    case Removing(node, queue, _, _) => p == node || p in queue
    case _ => false
  }

  lemma {:induction false} ToBuryWasCollected(states: seq<State>, c: Config, events: seq<Event>, k: nat, p: Node)
    returns (i: nat)
    requires IsRun(states, c, events) && k < |states| && ToBury(states[k], p)
    ensures i < k && events[i].CollectDead? && IsDeadCandidate(states[i], c, p)
    decreases k
  {
    assert k > 0;
    assert Enabled(states[k - 1], c, events[k - 1]) && states[k] == Apply(states[k - 1], c, events[k - 1]);
    if events[k - 1].CollectDead? {
      i := k - 1;
    } else {
      i := ToBuryWasCollected(states, c, events, k - 1, p);
    }
  }

  /** The detector removes nobody else: a peer it removes was suspect, and silent for longer than both
      timeouts, when the dead were collected. */
  lemma RemovedPeerWasSilent(states: seq<State>, c: Config, events: seq<Event>, k: nat, p: Node) returns (i: nat)
    requires IsRun(states, c, events) && k < |events| && p in states[k].nodes && p !in states[k + 1].nodes
    requires events[k] != Gone(p)
    ensures i < k && events[i].CollectDead? && p in states[i].nodes && states[i].nodes[p].status == Suspect
    ensures states[i].now - states[i].nodes[p].last > c.suspect + c.dead
  {
    assert Enabled(states[k], c, events[k]) && states[k + 1] == Apply(states[k], c, events[k]);
    TimeChangesOnlyBySignsOfLife(states[k], c, events[k], p);
    i := ToBuryWasCollected(states, c, events, k, p);
  }

  // ----- A pass comes to its end -----

  /** The steps of the detector itself. */
  predicate OfPass(e: Event) {
    e.Examine? || e.ProbeDone? || e.CollectDead? || e.Bury? || e.FinishBurial? || e.EndPass?
  }

  /** How far a pass has to go: the half that is left, and the steps in the current half. */
  function Half(s: State): nat {
    if s.phase.Idle? then 0 else if s.phase.Collecting? || s.phase.Removing? then 1 else 2
  }

  function StepsLeft(s: State): nat {
    match s.phase
    case Idle => 0
    case Suspecting(queue, _) => 2 * |queue|
    case Probing(_, queue, _) => 2 * |queue| + 1
    case Collecting(queue, _, _) => 2 * |queue|
    case Removing(_, queue, _, _) => 2 * |queue| + 1
  }

  /** While a pass runs, its next step can always be made; every step of it brings it nearer to the
      end; and nothing else that happens sets it back. So a pass ends after finitely many of its
      own steps, whatever comes between them. */
  lemma PassComesToItsEnd(s: State, c: Config, e: Event, dead: seq<Node>) returns (next: Event)
    requires !s.phase.Idle? && Enabled(s, c, e)
    requires forall n :: n in dead <==> IsDeadCandidate(s, c, n)
    ensures OfPass(next) && Enabled(s, c, next)
    ensures var s' := Apply(s, c, e);
            if OfPass(e) then Half(s') < Half(s) || (Half(s') == Half(s) && StepsLeft(s') < StepsLeft(s))
            else s'.phase == s.phase
  {
    next := match s.phase
      case Idle => EndPass
      case Suspecting(queue, _) => if queue == [] then CollectDead(dead) else Examine
      case Probing(_, _, _) => ProbeDone(false)
      case Collecting(queue, _, _) => if queue == [] then EndPass else Bury
      case Removing(_, _, _, _) => FinishBurial;
  }
}
