/** The registration handshake of one device. An ACK handler first reads the registration status
    and later writes it; several handlers and the timeout run interleaved. */
module Registration {

  datatype Status = PendingAck | AckTimeout | Registered

  type HandlerId = nat

  datatype Reply = SentAck | SentNack | NoReply

  /** Where an ACK handler stands, with the status it read. */
  datatype Handler =
    | HasRead(read: Status)
    | HasWritten
    | Finished(read: Status, reply: Reply)

  /** `jobs` are the handlers that created a wake-up job. */
  datatype State = State(status: Status, handlers: map<HandlerId, Handler>, jobs: set<HandlerId>)

  datatype Event =
    | Read(handler: HandlerId)
    | Answer(handler: HandlerId)
    | Write(handler: HandlerId)
    | Schedule(handler: HandlerId)
    | ScheduleFails(handler: HandlerId)
    | Timeout

  /** A handler that read a final status only answers; one that read PendingAck writes, then
      schedules, then answers. The timeout checks and writes in one step. */
  predicate Enabled(s: State, e: Event) {
    match e
    case Read(h) => h !in s.handlers
    case Answer(h) => h in s.handlers && s.handlers[h].HasRead? && s.handlers[h].read != PendingAck
    case Write(h) => h in s.handlers && s.handlers[h] == HasRead(PendingAck)
    case Schedule(h) => h in s.handlers && s.handlers[h].HasWritten?
    case ScheduleFails(h) => h in s.handlers && s.handlers[h].HasWritten?
    case Timeout => true
  }

  function Apply(s: State, e: Event): State
    requires Enabled(s, e)
  {
    match e
    case Read(h) => s.(handlers := s.handlers[h := HasRead(s.status)])
    case Answer(h) =>
      var read := s.handlers[h].read;
      s.(handlers := s.handlers[h := Finished(read, if read == AckTimeout then SentNack else SentAck)])
    case Write(h) => s.(status := Registered, handlers := s.handlers[h := HasWritten])
    case Schedule(h) => s.(handlers := s.handlers[h := Finished(PendingAck, SentAck)], jobs := s.jobs + {h})
    case ScheduleFails(h) => s.(handlers := s.handlers[h := Finished(PendingAck, NoReply)])
    case Timeout => if s.status == PendingAck then s.(status := AckTimeout) else s
  }

  /** Right after the device was registered. */
  const START := State(PendingAck, map[], {})

  ghost predicate IsRun(states: seq<State>, events: seq<Event>) {
    && |states| == |events| + 1 && states[0] == START
    && forall i :: 0 <= i < |events| ==> Enabled(states[i], events[i]) && states[i + 1] == Apply(states[i], events[i])
  }

  function Rank(s: Status): nat {
    match s
    case PendingAck => 0
    case AckTimeout => 1
    case Registered => 2
  }

  /** The status only moves forward: PendingAck, AckTimeout, Registered. */
  lemma {:induction false} StatusOnlyAdvances(states: seq<State>, events: seq<Event>, i: nat, j: nat)
    requires IsRun(states, events) && i <= j < |states|
    ensures Rank(states[i].status) <= Rank(states[j].status)
    decreases j
  {
    if i < j {
      StatusOnlyAdvances(states, events, i, j - 1);
      assert states[j] == Apply(states[j - 1], events[j - 1]);
    }
  }

  /** Once Registered, always Registered. */
  lemma RegisteredIsFinal(states: seq<State>, events: seq<Event>, i: nat, j: nat)
    requires IsRun(states, events) && i <= j < |states| && states[i].status == Registered
    ensures states[j].status == Registered
  {
    StatusOnlyAdvances(states, events, i, j);
  }

  /** Handler h read PendingAck at step r. */
  ghost predicate ReadPending(states: seq<State>, events: seq<Event>, h: HandlerId, r: nat) {
    r < |events| && r < |states| && events[r] == Read(h) && states[r].status == PendingAck
  }

  predicate SawPending(handler: Handler) {
    handler.HasWritten? || handler.read == PendingAck
  }

  lemma {:induction false} SawPendingHasRead(states: seq<State>, events: seq<Event>, h: HandlerId, k: nat)
    returns (r: nat)
    requires IsRun(states, events) && k < |states|
    requires h in states[k].handlers && SawPending(states[k].handlers[h])
    ensures r < k && ReadPending(states, events, h, r)
    decreases k
  {
    assert k > 0;
    assert Enabled(states[k - 1], events[k - 1]) && states[k] == Apply(states[k - 1], events[k - 1]);
    if events[k - 1] == Read(h) {
      r := k - 1;
    } else {
      r := SawPendingHasRead(states, events, h, k - 1);
    }
  }

  /** The step at which the registration timed out. */
  lemma {:induction false} TimedOutAt(states: seq<State>, events: seq<Event>, k: nat) returns (t: nat)
    requires IsRun(states, events) && k < |states| && states[k].status == AckTimeout
    ensures t < k && events[t] == Timeout && states[t].status == PendingAck && states[t + 1].status == AckTimeout
    decreases k
  {
    assert k > 0;
    assert states[k] == Apply(states[k - 1], events[k - 1]);
    if states[k - 1].status == AckTimeout {
      t := TimedOutAt(states, events, k - 1);
    } else {
      t := k - 1;
    }
  }

  /** A timed-out registration is left only towards Registered, only by the write of an ACK handler,
      and only if that handler had read PendingAck before the timeout. */
  lemma TimeoutIsLeftOnlyByEarlierRead(states: seq<State>, events: seq<Event>, i: nat)
    returns (h: HandlerId, r: nat, t: nat)
    requires IsRun(states, events) && i < |events|
    requires states[i].status == AckTimeout && states[i + 1].status != AckTimeout
    ensures states[i + 1].status == Registered && events[i] == Write(h)
    ensures r < t < i && ReadPending(states, events, h, r)
    ensures events[t] == Timeout && states[t].status == PendingAck && states[t + 1].status == AckTimeout
  {
    assert Enabled(states[i], events[i]) && states[i + 1] == Apply(states[i], events[i]);
    assert events[i].Write?;
    h := events[i].handler;
    r := SawPendingHasRead(states, events, h, i);
    t := TimedOutAt(states, events, i);
    if r > t {
      StatusOnlyAdvances(states, events, t + 1, r);
    }
  }

  /** Every job of the ACK path belongs to a handler that read PendingAck. */
  lemma {:induction false} JobsComeFromPendingReads(states: seq<State>, events: seq<Event>, k: nat, h: HandlerId)
    returns (r: nat)
    requires IsRun(states, events) && k < |states| && h in states[k].jobs
    ensures r < k && ReadPending(states, events, h, r)
    decreases k
  {
    assert k > 0;
    assert Enabled(states[k - 1], events[k - 1]) && states[k] == Apply(states[k - 1], events[k - 1]);
    if h in states[k - 1].jobs {
      r := JobsComeFromPendingReads(states, events, k - 1, h);
    } else {
      r := SawPendingHasRead(states, events, h, k - 1);
    }
  }

  predicate HasDoneWrite(handler: Handler) {
    handler.HasWritten? || (handler.Finished? && handler.read == PendingAck)
  }

  /** The device is Registered exactly when some ACK handler has written, and a handler refuses the
      device exactly when it read AckTimeout. */
  lemma {:induction false} RegisteredIffWritten(states: seq<State>, events: seq<Event>, k: nat)
    requires IsRun(states, events) && k < |states|
    ensures states[k].status == Registered <==>
            exists h :: h in states[k].handlers && HasDoneWrite(states[k].handlers[h])
    ensures forall h :: h in states[k].handlers && states[k].handlers[h].Finished? ==>
              (states[k].handlers[h].reply == SentNack <==> states[k].handlers[h].read == AckTimeout)
  {
    if k > 0 {
      RegisteredIffWritten(states, events, k - 1);
      var s, e, s' := states[k - 1], events[k - 1], states[k];
      assert Enabled(s, e) && s' == Apply(s, e);
      if e.Write? {
        assert HasDoneWrite(s'.handlers[e.handler]);
      } else if s.status == Registered {
        var h :| h in s.handlers && HasDoneWrite(s.handlers[h]);
        assert h in s'.handlers && HasDoneWrite(s'.handlers[h]);
      } else {
        forall h | h in s'.handlers ensures !HasDoneWrite(s'.handlers[h]) {
          assert h in s.handlers ==> !HasDoneWrite(s.handlers[h]);
        }
      }
    }
  }

  /** What a handler has done, by what it read: after AckTimeout it sends a NACK, after Registered an
      ACK, and in both cases it creates no job; after PendingAck it sends an ACK if scheduling
      worked, and then has exactly its job, and nothing if scheduling failed. */
  ghost predicate AnsweredRight(s: State, h: HandlerId)
    requires h in s.handlers
  {
    match s.handlers[h]
    case HasRead(_) => h !in s.jobs
    case HasWritten => h !in s.jobs
    case Finished(AckTimeout, reply) => reply == SentNack && h !in s.jobs
    case Finished(Registered, reply) => reply == SentAck && h !in s.jobs
    case Finished(PendingAck, reply) => (reply == SentAck && h in s.jobs) || (reply == NoReply && h !in s.jobs)
  }

  /** In every state of every run, every handler has done exactly what the status it read asks for,
      and only handlers have jobs. */
  lemma {:induction false} HandlersAnswerRight(states: seq<State>, events: seq<Event>, k: nat)
    requires IsRun(states, events) && k < |states|
    ensures forall h :: h in states[k].handlers ==> AnsweredRight(states[k], h)
    ensures forall h :: h in states[k].jobs ==> h in states[k].handlers
  {
    if k > 0 {
      HandlersAnswerRight(states, events, k - 1);
      var s, e, s' := states[k - 1], events[k - 1], states[k];
      assert Enabled(s, e) && s' == Apply(s, e);
      forall h | h in s'.handlers ensures AnsweredRight(s', h) {
        assert h in s.handlers ==> AnsweredRight(s, h);
      }
    }
  }

  /** A handler that is done and did not fail has a job exactly when it read PendingAck: one per such
      ACK, so duplicated ACKs can create several. */
  lemma OneJobPerPendingRead(states: seq<State>, events: seq<Event>, k: nat, h: HandlerId)
    requires IsRun(states, events) && k < |states|
    requires h in states[k].handlers && states[k].handlers[h].Finished? && states[k].handlers[h].reply != NoReply
    ensures h in states[k].jobs <==> states[k].handlers[h].read == PendingAck
  {
    HandlersAnswerRight(states, events, k);
    assert AnsweredRight(states[k], h);
  }

  /** The race the source mentions: the timeout falls between the read and the write of one handler.
      A second ACK is refused, and yet the device ends Registered with a job. */
  lemma RefusedAndRegistered() returns (states: seq<State>, events: seq<Event>)
    ensures IsRun(states, events)
    ensures var s := states[|events|];
            && s.status == Registered && s.jobs == {0}
            && s.handlers == map[0 := Finished(PendingAck, SentAck), 1 := Finished(AckTimeout, SentNack)]
  {
    events := [Read(0), Timeout, Read(1), Answer(1), Write(0), Schedule(0)];
    var s1 := State(PendingAck, map[0 := HasRead(PendingAck)], {});
    var s2 := s1.(status := AckTimeout);
    var s3 := s2.(handlers := map[0 := HasRead(PendingAck), 1 := HasRead(AckTimeout)]);
    var s4 := s3.(handlers := map[0 := HasRead(PendingAck), 1 := Finished(AckTimeout, SentNack)]);
    var s5 := State(Registered, map[0 := HasWritten, 1 := Finished(AckTimeout, SentNack)], {});
    var s6 := State(Registered, map[0 := Finished(PendingAck, SentAck), 1 := Finished(AckTimeout, SentNack)], {0});
    states := [START, s1, s2, s3, s4, s5, s6];
    assert Apply(START, events[0]) == s1 && Apply(s1, events[1]) == s2 && Apply(s2, events[2]) == s3;
    assert Apply(s3, events[3]) == s4 && Apply(s4, events[4]) == s5 && Apply(s5, events[5]) == s6;
  }
}
