/** Join discovery: a joining node sends NODE_JOIN to its seeds; each running node that gets one
    lists the joiner and answers with the nodes it can reach; the joiner lists the answering node
    and sends NODE_JOIN to every reported node it does not list yet. Messages arrive in any order.
    The same node may be contacted several times, because it stays unlisted until it answers. */
module Discovery {
  import opened Basics

  /** The running nodes with their (stable) lists of reachable peers. A list may also name nodes
      that are not running, and the joiner itself. */
  datatype Network = Network(joiner: Node, peers: map<Node, seq<Node>>, seeds: seq<Node>)

  datatype Packet =
    | NodeJoin(to: Node)
    | StatusResponse(from: Node, reported: seq<Node>)

  datatype State = State(
    known: set<Node>,      // nodes the joiner lists
    listing: set<Node>,    // nodes that list the joiner
    inFlight: seq<Packet>
  )

  ghost predicate Valid(net: Network) {
    net.joiner !in net.peers
  }

  // ----- The handlers -----

  /** The list sent by handle_status_request: the reachable peers other than the asking node. */
  function Reported(peers: seq<Node>, asking: Node): (r: seq<Node>)
    ensures forall w :: w in r <==> w in peers && w != asking
  {
    if peers == [] then []
    else (if peers[0] != asking then [peers[0]] else []) + Reported(peers[1..], asking)
  }

  /** The NODE_JOIN messages sent by handle_status_response. */
  function JoinsTo(reported: seq<Node>, known: set<Node>): (r: seq<Packet>)
    ensures forall w :: NodeJoin(w) in r <==> w in reported && w !in known
    ensures forall p :: p in r ==> p.NodeJoin?
  {
    if reported == [] then []
    else (if reported[0] !in known then [NodeJoin(reported[0])] else []) + JoinsTo(reported[1..], known)
  }

  function WithoutIndex<T>(s: seq<T>, i: nat): seq<T>
    requires i < |s|
  {
    s[..i] + s[i + 1..]
  }

  /** Delivery of the packet at position i. A packet to a node that is not running is lost. */
  function Deliver(net: Network, s: State, i: nat): State
    requires i < |s.inFlight|
  {
    var rest := WithoutIndex(s.inFlight, i);
    match s.inFlight[i]
    case NodeJoin(v) =>
      if v in net.peers then
        State(s.known, s.listing + {v}, rest + [StatusResponse(v, Reported(net.peers[v], net.joiner))])
      else
        s.(inFlight := rest)
    case StatusResponse(v, reported) =>
      State(s.known + {v}, s.listing, rest + JoinsTo(reported, s.known + {v}))
  }

  // ----- Reachability -----

  /** A path of running nodes from a seed to x, each in the list of the one before. */
  ghost predicate IsPath(net: Network, path: seq<Node>, x: Node) {
    && path != [] && path[0] in net.seeds && path[|path| - 1] == x
    && (forall i :: 0 <= i < |path| ==> path[i] in net.peers)
    && (forall i :: 0 <= i < |path| - 1 ==> path[i + 1] in net.peers[path[i]])
  }

  ghost predicate Reachable(net: Network, x: Node) {
    exists path :: IsPath(net, path, x)
  }

  lemma SeedIsReachable(net: Network, x: Node)
    requires x in net.seeds && x in net.peers
    ensures Reachable(net, x)
  {
    assert IsPath(net, [x], x);
  }

  lemma PeerIsReachable(net: Network, v: Node, w: Node)
    requires Reachable(net, v) && v in net.peers && w in net.peers[v] && w in net.peers
    ensures Reachable(net, w)
  {
    var path :| IsPath(net, path, v);
    assert IsPath(net, path + [w], w);
  }

  /** A set of nodes that has the running seeds and is closed under the lists has everything. */
  lemma {:induction false} ClosedContainsPath(net: Network, closed: set<Node>, path: seq<Node>, x: Node)
    requires IsPath(net, path, x)
    requires forall v :: v in net.seeds && v in net.peers ==> v in closed
    requires forall v, w :: v in closed && v in net.peers && w in net.peers[v] && w in net.peers ==> w in closed
    ensures x in closed
    decreases |path|
  {
    if |path| > 1 {
      var front := path[..|path| - 1];
      assert IsPath(net, front, front[|front| - 1]);
      ClosedContainsPath(net, closed, front, front[|front| - 1]);
    }
  }

  // ----- Termination -----

  /** A packet to or from a node that is already listed: two for a join, which still causes an
      answer, one for an answer. */
  function SettledWeight(p: Packet, known: set<Node>): nat {
    match p
    case NodeJoin(v) => if v in known then 2 else 0
    case StatusResponse(v, _) => if v in known then 1 else 0
  }

  function Settled(s: seq<Packet>, known: set<Node>): nat {
    if s == [] then 0 else SettledWeight(s[0], known) + Settled(s[1..], known)
  }

  /** Joins on their way to nodes not listed yet. */
  function OpenWeight(p: Packet, known: set<Node>): nat {
    if p.NodeJoin? && p.to !in known then 1 else 0
  }

  function Open(s: seq<Packet>, known: set<Node>): nat {
    if s == [] then 0 else OpenWeight(s[0], known) + Open(s[1..], known)
  }

  lemma {:induction false} WeightsOfConcat(a: seq<Packet>, b: seq<Packet>, known: set<Node>)
    ensures Settled(a + b, known) == Settled(a, known) + Settled(b, known)
    ensures Open(a + b, known) == Open(a, known) + Open(b, known)
    decreases |a|
  {
    if a == [] {
      assert a + b == b;
    } else {
      WeightsOfConcat(a[1..], b, known);
      assert (a + b)[1..] == a[1..] + b;
    }
  }

  lemma WeightsWithoutIndex(s: seq<Packet>, i: nat, known: set<Node>)
    requires i < |s|
    ensures Settled(WithoutIndex(s, i), known) == Settled(s, known) - SettledWeight(s[i], known)
    ensures Open(WithoutIndex(s, i), known) == Open(s, known) - OpenWeight(s[i], known)
  {
    assert s == s[..i] + ([s[i]] + s[i + 1..]);
    WeightsOfConcat(s[..i], [s[i]] + s[i + 1..], known);
    WeightsOfConcat([s[i]], s[i + 1..], known);
    WeightsOfConcat(s[..i], s[i + 1..], known);
  }

  lemma {:induction false} NewJoinsAreOpen(reported: seq<Node>, known: set<Node>)
    ensures Settled(JoinsTo(reported, known), known) == 0
    decreases |reported|
  {
    if reported != [] {
      NewJoinsAreOpen(reported[1..], known);
      var first := if reported[0] !in known then [NodeJoin(reported[0])] else [];
      WeightsOfConcat(first, JoinsTo(reported[1..], known), known);
    }
  }

  /** The nodes still to be listed. */
  function Unknown(net: Network, s: State): set<Node> {
    net.peers.Keys - s.known
  }

  function ToList(net: Network, s: State): nat { |Unknown(net, s)| }

  function SettledIn(s: State): nat { Settled(s.inFlight, s.known) }

  function OpenIn(s: State): nat { Open(s.inFlight, s.known) }

  /** The lexicographic order on (nodes to list, settled packets, open joins). */
  predicate Smaller(net: Network, t: State, s: State) {
    || ToList(net, t) < ToList(net, s)
    || (ToList(net, t) == ToList(net, s) && SettledIn(t) < SettledIn(s))
    || (ToList(net, t) == ToList(net, s) && SettledIn(t) == SettledIn(s) && OpenIn(t) < OpenIn(s))
  }

  /** Each delivery makes (nodes to list, settled packets, open joins) lexicographically smaller.
      An answer from a node listed before may send new joins, but only to nodes not listed. */
  lemma DeliveryDecreases(net: Network, s: State, i: nat)
    requires i < |s.inFlight|
    requires s.inFlight[i].StatusResponse? ==> s.inFlight[i].from in net.peers
    ensures Smaller(net, Deliver(net, s, i), s)
  {
    var t := Deliver(net, s, i);
    var rest := WithoutIndex(s.inFlight, i);
    WeightsWithoutIndex(s.inFlight, i, s.known);
    match s.inFlight[i]
    case NodeJoin(v) =>
      if v in net.peers {
        var answer := StatusResponse(v, Reported(net.peers[v], net.joiner));
        WeightsOfConcat(rest, [answer], s.known);
      }
    case StatusResponse(v, reported) =>
      if v in s.known {
        assert s.known + {v} == s.known;
        NewJoinsAreOpen(reported, s.known);
        WeightsOfConcat(rest, JoinsTo(reported, s.known), s.known);
      } else {
        assert Unknown(net, s) == Unknown(net, t) + {v};
      }
  }

  // ----- Completeness -----

  ghost predicate Expected(s: State, w: Node) {
    exists p :: p in s.inFlight && (p == NodeJoin(w) || (p.StatusResponse? && p.from == w))
  }

  ghost predicate PacketSound(net: Network, s: State, p: Packet) {
    match p
    case NodeJoin(w) => w in net.peers ==> Reachable(net, w)
    case StatusResponse(v, reported) =>
      v in net.peers && v in s.listing && reported == Reported(net.peers[v], net.joiner)
  }

  ghost predicate Sound(net: Network, s: State) {
    && s.known <= s.listing
    && (forall v :: v in s.listing ==> v in net.peers && Reachable(net, v))
    && (forall p :: p in s.inFlight ==> PacketSound(net, s, p))
    && (forall v :: v in s.listing ==> v in s.known || Answered(s, v))
  }

  ghost predicate Answered(s: State, v: Node) {
    exists p :: p in s.inFlight && p.StatusResponse? && p.from == v
  }

  ghost predicate Complete(net: Network, s: State) {
    && (forall w :: w in net.seeds && w in net.peers ==> w in s.known || Expected(s, w))
    && (forall v, w :: v in s.known && v in net.peers && w in net.peers[v] && w in net.peers ==>
          w in s.known || Expected(s, w))
  }

  lemma WithoutIndexMembers<T>(s: seq<T>, i: nat, p: T)
    requires i < |s|
    ensures p in WithoutIndex(s, i) ==> p in s
    ensures p in s && p != s[i] ==> p in WithoutIndex(s, i)
  {
    if p in s && p != s[i] {
      var j :| 0 <= j < |s| && s[j] == p;
      assert WithoutIndex(s, i)[if j < i then j else j - 1] == p;
    }
  }

  lemma DeliveryIsSound(net: Network, s: State, i: nat)
    requires Valid(net) && Sound(net, s) && i < |s.inFlight|
    ensures Sound(net, Deliver(net, s, i))
  {
    var t := Deliver(net, s, i);
    var q := s.inFlight[i];
    assert PacketSound(net, s, q);
    forall p | p in t.inFlight ensures PacketSound(net, t, p) {
      WithoutIndexMembers(s.inFlight, i, p);
      if p in s.inFlight {
        assert PacketSound(net, s, p);
      } else if p.NodeJoin? && p.to in net.peers {
        PeerIsReachable(net, q.from, p.to);
      }
    }
    forall v | v in t.listing ensures v in t.known || Answered(t, v) {
      StillAnswered(net, s, i, v);
    }
  }

  lemma StillAnswered(net: Network, s: State, i: nat, v: Node)
    requires i < |s.inFlight| && v in Deliver(net, s, i).listing
    requires v in s.listing ==> v in s.known || Answered(s, v)
    ensures v in Deliver(net, s, i).known || Answered(Deliver(net, s, i), v)
  {
    var t := Deliver(net, s, i);
    if v in s.listing && v !in s.known {
      var p :| p in s.inFlight && p.StatusResponse? && p.from == v;
      WithoutIndexMembers(s.inFlight, i, p);
      assert p == s.inFlight[i] || p in t.inFlight;
    } else if v !in s.known {
      var answer := StatusResponse(v, Reported(net.peers[v], net.joiner));
      assert answer in t.inFlight;
    }
  }

  lemma StillExpected(net: Network, s: State, i: nat, w: Node)
    requires Sound(net, s) && i < |s.inFlight|
    requires w in net.peers && (w in s.known || Expected(s, w))
    ensures w in Deliver(net, s, i).known || Expected(Deliver(net, s, i), w)
  {
    var t := Deliver(net, s, i);
    if w !in s.known {
      var p :| p in s.inFlight && (p == NodeJoin(w) || (p.StatusResponse? && p.from == w));
      WithoutIndexMembers(s.inFlight, i, p);
      if p == s.inFlight[i] && p.NodeJoin? {
        assert StatusResponse(w, Reported(net.peers[w], net.joiner)) in t.inFlight;
      } else {
        assert p == s.inFlight[i] || p in t.inFlight;
      }
    }
  }

  lemma DeliveryIsComplete(net: Network, s: State, i: nat)
    requires Valid(net) && Sound(net, s) && Complete(net, s) && i < |s.inFlight|
    ensures Complete(net, Deliver(net, s, i))
  {
    var t := Deliver(net, s, i);
    forall w | w in net.seeds && w in net.peers ensures w in t.known || Expected(t, w) {
      StillExpected(net, s, i, w);
    }
    forall v, w | v in t.known && v in net.peers && w in net.peers[v] && w in net.peers
      ensures w in t.known || Expected(t, w)
    {
      if v in s.known {
        StillExpected(net, s, i, w);
      } else {
        var q := s.inFlight[i];
        assert q.StatusResponse? && q.from == v && PacketSound(net, s, q);
        if w !in t.known {
          assert NodeJoin(w) in JoinsTo(q.reported, t.known);
          assert NodeJoin(w) in t.inFlight;
        }
      }
    }
  }

  ghost predicate Invariant(net: Network, s: State) {
    Sound(net, s) && Complete(net, s)
  }

  lemma DeliveryProgress(net: Network, s: State, i: nat)
    requires Valid(net) && Invariant(net, s) && i < |s.inFlight|
    ensures Invariant(net, Deliver(net, s, i)) && Smaller(net, Deliver(net, s, i), s)
  {
    assert PacketSound(net, s, s.inFlight[i]);
    DeliveryDecreases(net, s, i);
    DeliveryIsSound(net, s, i);
    DeliveryIsComplete(net, s, i);
  }

  lemma NothingExpected(s: State, w: Node)
    requires s.inFlight == []
    ensures !Expected(s, w) && !Answered(s, w)
  {
  }

  /** With nothing in flight, the listed nodes are closed under the lists of the running ones. */
  lemma QuietIsClosed(net: Network, s: State)
    requires Complete(net, s) && s.inFlight == []
    ensures forall v :: v in net.seeds && v in net.peers ==> v in s.known
    ensures forall v, w :: v in s.known && v in net.peers && w in net.peers[v] && w in net.peers ==> w in s.known
  {
    forall w ensures !Expected(s, w) {
      NothingExpected(s, w);
    }
  }

  lemma QuietMeansListed(net: Network, s: State)
    requires Sound(net, s) && s.inFlight == []
    ensures s.listing == s.known
    ensures forall x :: x in s.known ==> Reachable(net, x)
  {
    forall v | v in s.listing ensures v in s.known {
      NothingExpected(s, v);
    }
  }

  lemma QuietMeansExact(net: Network, s: State)
    requires Invariant(net, s) && s.inFlight == []
    ensures forall x :: x in s.known <==> Reachable(net, x)
    ensures s.listing == s.known
  {
    QuietMeansListed(net, s);
    QuietIsClosed(net, s);
    forall x | Reachable(net, x) ensures x in s.known {
      var path :| IsPath(net, path, x);
      ClosedContainsPath(net, s.known, path, x);
    }
  }

  /** Join discovery terminates under every delivery order, and then the joiner lists exactly the
      running nodes reachable from its seeds, and exactly those nodes list the joiner. */
  method Discover(net: Network) returns (known: set<Node>, listing: set<Node>)
    requires Valid(net)
    ensures forall x :: x in known <==> Reachable(net, x)
    ensures listing == known
  {
    var s := State({}, {}, JoinsTo(net.seeds, {}));
    StartIsSound(net);
    while s.inFlight != []
      invariant Invariant(net, s)
      decreases ToList(net, s), SettledIn(s), OpenIn(s)
    {
      var i :| 0 <= i < |s.inFlight|;
      DeliveryProgress(net, s, i);
      s := Deliver(net, s, i);
    }
    QuietMeansExact(net, s);
    known, listing := s.known, s.listing;
  }

  lemma StartIsSound(net: Network)
    ensures var s := State({}, {}, JoinsTo(net.seeds, {})); Invariant(net, s)
  {
    var s := State({}, {}, JoinsTo(net.seeds, {}));
    forall p | p in s.inFlight ensures PacketSound(net, s, p) {
      if p.to in net.peers {
        SeedIsReachable(net, p.to);
      }
    }
    forall w | w in net.seeds && w in net.peers ensures Expected(s, w) {
      assert NodeJoin(w) in s.inFlight;
    }
  }
}
