/** A node's list of its peers and one pass of the failure detector over it, taken as a unit.
    Times are milliseconds. */
module Membership {
  import opened Basics
  import opened ClusterPayload

  datatype Info = Info(status: NodeStatus, last: int, devices: nat)

  type Peers = map<Node, Info>

  /** time_since_heartbeat: never negative. */
  function Since(last: int, now: int): nat { if now < last then 0 else now - last }

  datatype Verdict = Keep(info: Info) | Remove

  /** What a pass means for one peer: an active peer silent for longer than the suspect timeout is
      revived by a successful probe, and otherwise becomes suspect; a suspect peer, old or new,
      silent for longer than both timeouts is removed. Other peers are left alone. */
  function Judge(info: Info, now: int, suspect: nat, dead: nat, probed: bool): Verdict {
    if info.status == Active && Since(info.last, now) > suspect && probed then
      Keep(info.(last := now))
    else if info.status in {Active, Suspect} && Since(info.last, now) > suspect + dead then
      Remove
    else if info.status == Active && Since(info.last, now) > suspect then
      Keep(info.(status := Suspect))
    else
      Keep(info)
  }

  ghost predicate Passed(before: Peers, after: Peers, now: int, suspect: nat, dead: nat, probed: set<Node>) {
    && (forall n :: n in after <==> n in before && Judge(before[n], now, suspect, dead, n in probed).Keep?)
    && (forall n :: n in after ==> after[n] == Judge(before[n], now, suspect, dead, n in probed).info)
  }

  class MembershipList {
    const local: Node
    const suspectTimeout: nat
    const deadTimeout: nat
    var nodes: Peers

    constructor (local: Node, suspectTimeout: nat, deadTimeout: nat)
      ensures this.local == local && this.suspectTimeout == suspectTimeout && this.deadTimeout == deadTimeout
      ensures nodes == map[]
    {
      this.local, this.suspectTimeout, this.deadTimeout, this.nodes := local, suspectTimeout, deadTimeout, map[];
    }

    ghost predicate Valid()
      reads this
    {
      local !in nodes
    }

    /** add_or_update_node: the local node is never listed; a known peer counts as heard now. */
    method AddOrUpdate(n: Node, info: Info, now: int)
      requires Valid()
      modifies this
      ensures Valid()
      ensures nodes == if n == local then old(nodes)
                       else old(nodes)[n := if n in old(nodes) then info.(last := now) else info]
    {
      if n == local {
        return;
      }
      if n in nodes {
        nodes := nodes[n := nodes[n].(status := info.status, devices := info.devices, last := now)];
      } else {
        nodes := nodes[n := info];
      }
    }

    method UpdateHeartbeat(n: Node, now: int)
      requires Valid()
      modifies this
      ensures Valid() && nodes == if n in old(nodes) then old(nodes)[n := old(nodes)[n].(last := now)] else old(nodes)
    {
      if n in nodes {
        nodes := nodes[n := nodes[n].(last := now)];
      }
    }

    /** mark_suspect: only an active peer becomes suspect. */
    method MarkSuspect(n: Node)
      requires Valid()
      modifies this
      ensures Valid()
      ensures nodes == if n in old(nodes) && old(nodes)[n].status == Active
                       then old(nodes)[n := old(nodes)[n].(status := Suspect)] else old(nodes)
    {
      if n in nodes && nodes[n].status == Active {
        nodes := nodes[n := nodes[n].(status := Suspect)];
      }
    }

    method MarkDead(n: Node)
      requires Valid()
      modifies this
      ensures Valid()
      ensures nodes == if n in old(nodes) then old(nodes)[n := old(nodes)[n].(status := Dead)] else old(nodes)
    {
      if n in nodes {
        nodes := nodes[n := nodes[n].(status := Dead)];
      }
    }

    function ActiveNodes(): (s: set<Node>)
      reads this
      ensures forall n :: n in s <==> n in nodes && nodes[n].status == Active
    {
      set n | n in nodes && nodes[n].status == Active
    }

    function SuspectCandidates(now: int): set<Node>
      reads this
    {
      set n | n in nodes && nodes[n].status == Active && Since(nodes[n].last, now) > suspectTimeout
    }

    function DeadCandidates(now: int): set<Node>
      reads this
    {
      set n | n in nodes && nodes[n].status == Suspect && Since(nodes[n].last, now) > suspectTimeout + deadTimeout
    }

    /** handle_suspect_node, with the outcome of the indirect probe. */
    method HandleSuspect(n: Node, now: int, alive: bool)
      requires Valid()
      modifies this
      ensures Valid()
      ensures nodes == if n !in old(nodes) || now - old(nodes)[n].last <= suspectTimeout then old(nodes)
                       else if alive then old(nodes)[n := old(nodes)[n].(last := now, status := Active)]
                       else if old(nodes)[n].status == Active then old(nodes)[n := old(nodes)[n].(status := Suspect)]
                       else old(nodes)
    {
      if n !in nodes || Since(nodes[n].last, now) <= suspectTimeout {
        return;
      }
      MarkSuspect(n);
      if alive {
        nodes := nodes[n := nodes[n].(last := now, status := Active)];
      }
    }

    /** handle_dead_node: the peer is marked dead before the nodes that take over its devices are
        picked, so it is never one of them; then it is removed. Nothing happens for a peer that is
        not listed any more. */
    method HandleDead(n: Node) returns (redistributed: bool, targets: set<Node>)
      requires Valid()
      modifies this
      ensures Valid() && nodes == old(nodes) - {n}
      ensures redistributed <==> n in old(nodes)
      ensures forall t :: t in targets <==> redistributed && t != n && t in old(nodes) && old(nodes)[t].status == Active
    {
      if n !in nodes {
        return false, {};
      }
      redistributed := true;
      MarkDead(n);
      targets := ActiveNodes();
      nodes := nodes - {n};
    }

    /** One round of failure_detector_loop with nothing else happening meanwhile. */
    method DetectorPass(now: int, probed: set<Node>)
      requires Valid()
      modifies this
      ensures Valid()
      ensures Passed(old(nodes), nodes, now, suspectTimeout, deadTimeout, probed)
    {
      SuspectPhase(now, probed);
      ghost var mid := nodes;
      DeadPhase(now);
      PhasesCompose(old(nodes), mid, nodes, now, suspectTimeout, deadTimeout, probed);
    }

    method SuspectPhase(now: int, probed: set<Node>)
      requires Valid()
      modifies this
      ensures Valid() && AfterSuspects(old(nodes), nodes, now, suspectTimeout, probed, {})
    {
      var left := SuspectCandidates(now);
      while left != {}
        invariant Valid() && AfterSuspects(old(nodes), nodes, now, suspectTimeout, probed, left)
        invariant forall n :: n in left ==> n in old(nodes) && old(nodes)[n].status == Active
                                            && Since(old(nodes)[n].last, now) > suspectTimeout
        decreases |left|
      {
        var n :| n in left;
        HandleSuspect(n, now, n in probed);
        left := left - {n};
      }
    }

    method DeadPhase(now: int)
      requires Valid()
      modifies this
      ensures Valid()
      ensures nodes == old(nodes) - old(DeadCandidates(now))
    {
      var all := DeadCandidates(now);
      var left := all;
      while left != {}
        invariant Valid() && left <= all && nodes == old(nodes) - (all - left)
        decreases |left|
      {
        var n :| n in left;
        var _, _ := HandleDead(n);
        left := left - {n};
      }
      assert all - left == all;
    }
  }

  /** The list while `left` still has to be examined for suspicion. */
  ghost predicate AfterSuspects(before: Peers, after: Peers, now: int, suspect: nat, probed: set<Node>,
                                left: set<Node>) {
    && after.Keys == before.Keys
    && forall n :: n in after ==>
         after[n] == if n in left then before[n] else Suspected(before[n], now, suspect, n in probed)
  }

  function Suspected(info: Info, now: int, suspect: nat, probed: bool): Info {
    if info.status == Active && Since(info.last, now) > suspect then
      (if probed then info.(last := now) else info.(status := Suspect))
    else info
  }

  lemma PhasesCompose(before: Peers, mid: Peers, after: Peers, now: int, suspect: nat, dead: nat, probed: set<Node>)
    requires AfterSuspects(before, mid, now, suspect, probed, {})
    requires after == mid - (set n | n in mid && mid[n].status == Suspect && Since(mid[n].last, now) > suspect + dead)
    ensures Passed(before, after, now, suspect, dead, probed)
  {
  }

  /** After a pass, every active peer was heard from within the suspect timeout, and every suspect
      peer within both timeouts together. */
  lemma PassIsComplete(before: Peers, after: Peers, now: int, suspect: nat, dead: nat, probed: set<Node>, n: Node)
    requires Passed(before, after, now, suspect, dead, probed) && n in after
    ensures after[n].status == Active ==> now - after[n].last <= suspect
    ensures after[n].status == Suspect ==> now - after[n].last <= suspect + dead
  {
  }

  /** What a pass leaves of a peer it keeps: an active one that was silent for longer than the suspect
      timeout counts as heard now if the probe reached it, and becomes suspect otherwise; every
      other one is as before. */
  lemma PassLeaves(before: Peers, after: Peers, now: int, suspect: nat, dead: nat, probed: set<Node>, n: Node)
    requires Passed(before, after, now, suspect, dead, probed) && n in after
    ensures n in before
    ensures before[n].status == Active && now - before[n].last > suspect ==>
              after[n] == if n in probed then before[n].(last := now) else before[n].(status := Suspect)
    ensures before[n].status != Active || now - before[n].last <= suspect ==> after[n] == before[n]
  {
  }

  /** A peer disappears in a pass exactly when it was active or suspect, silent for longer than
      both timeouts, and not revived by a probe. A peer that stopped while starting or draining is
      therefore never removed, however long it is silent. */
  lemma PassRemovesIff(before: Peers, after: Peers, now: int, suspect: nat, dead: nat, probed: set<Node>, n: Node)
    requires Passed(before, after, now, suspect, dead, probed) && n in before
    ensures n !in after <==>
            && before[n].status in {Active, Suspect}
            && now - before[n].last > suspect + dead
            && !(before[n].status == Active && n in probed)
  {
  }
}
