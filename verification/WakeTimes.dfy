/** From time buckets to wake-up times. Times are whole seconds since an epoch at midnight UTC;
    `now` is the current time rounded down, so "strictly later than now" also holds for the
    fraction of a second that was dropped. */
module WakeTimes {

  const HOUR := 3600
  const DAY := 86400

  datatype Result<+T> = Success(value: T) | ParseError

  datatype TimeOfDay = TimeOfDay(sec: nat, min: nat, hour: nat)

  function SecsPerBucket(total: nat): nat
    requires total > 0
  {
    DAY / total
  }

  /** Offset of a bucket from midnight. */
  function Slot(total: nat, bucket: nat): nat
    requires total > 0
  {
    SecsPerBucket(total) * bucket
  }

  function TimeOfBucket(total: nat, bucket: nat): TimeOfDay
    requires total > 0
  {
    var slot := Slot(total, bucket);
    TimeOfDay(slot % 3600 % 60, slot % 3600 / 60, slot / 3600)
  }

  /** The number of the day on which the given hour is used: today only if the hour starts more
      than one full hour after the current one. */
  function DayForHour(hour: nat, now: nat): nat {
    if hour > now % DAY / HOUR + 1 then now / DAY else now / DAY + 1
  }

  /** Scheduler::next_wakeup in normal mode. An hour past 23 makes an invalid time of day. */
  function NextWakeup(total: nat, bucket: nat, now: nat): Result<nat>
    requires total > 0
  {
    var t := TimeOfBucket(total, bucket);
    if t.hour > 23 then ParseError
    else Success(DayForHour(t.hour, now) * DAY + t.hour * HOUR + t.min * 60 + t.sec)
  }

  // ----- The division of the day -----

  lemma SecsPerBucketBounds(total: nat)
    requires total > 0
    ensures SecsPerBucket(total) * total <= DAY < (SecsPerBucket(total) + 1) * total
  {
    var q := DAY / total;
    assert DAY == total * q + DAY % total;
  }

  lemma MulMono(k: nat, a: nat, b: nat)
    requires a <= b
    ensures k * a <= k * b
    ensures k > 0 && a < b ==> k * a < k * b
  {
    assert k * b == k * a + k * (b - a);
  }

  /** Bucket 0 is at midnight, and each bucket is one slot length, the rounded-down part of a day of
      86400 seconds, after the one before. */
  lemma SlotsFromMidnight(total: nat, bucket: nat)
    requires total > 0
    ensures Slot(total, 0) == 0
    ensures Slot(total, bucket + 1) == Slot(total, bucket) + 86400 / total
  {
  }

  /** Hour, minute and second recompose to the bucket times the slot length. */
  lemma TimeRecomposes(total: nat, bucket: nat)
    requires total > 0
    ensures var t := TimeOfBucket(total, bucket);
            && t.hour * 3600 + t.min * 60 + t.sec == 86400 / total * bucket == Slot(total, bucket)
            && t.min < 60 && t.sec < 60
  {
  }

  /** Every bucket below the total has its slot inside one day, so its time of day is valid. */
  lemma SlotInDay(total: nat, bucket: nat)
    requires bucket < total
    ensures Slot(total, bucket) < DAY && TimeOfBucket(total, bucket).hour < 24
  {
    SecsPerBucketBounds(total);
    MulMono(SecsPerBucket(total), bucket, total);
  }

  /** Distinct buckets get distinct, increasing times exactly when there are at most as many
      buckets as seconds in a day. With more, the slot length is zero and all share midnight. */
  lemma SlotsIncreaseIff(total: nat, a: nat, b: nat)
    requires a < b < total
    ensures Slot(total, a) < Slot(total, b) <==> total <= DAY
  {
    SecsPerBucketBounds(total);
    MulMono(SecsPerBucket(total), a, b);
    var k := SecsPerBucket(total);
    if k == 0 {
      assert total > DAY;
    } else {
      MulMono(total, 1, k);
    }
  }

  // ----- One wake-up time -----

  /** The wake-up of a valid bucket is a valid time at the bucket's slot, strictly in the future and
      less than 26 hours ahead, and more than an hour ahead when it falls on the current day. */
  lemma WakeupBounds(total: nat, bucket: nat, now: nat)
    requires bucket < total
    ensures NextWakeup(total, bucket, now).Success?
    ensures var w := NextWakeup(total, bucket, now).value;
            && w % 86400 == 86400 / total * bucket == Slot(total, bucket)
            && now < w < now + 26 * 3600
            && (w / 86400 == now / 86400 ==> w > now + 3600)
  {
    SlotInDay(total, bucket);
    TimeRecomposes(total, bucket);
    var slot := Slot(total, bucket);
    var w := NextWakeup(total, bucket, now).value;
    assert w == DayForHour(slot / HOUR, now) * DAY + slot;
  }

  /** A stored bucket number fails to schedule exactly when its slot lies past the end of the day,
      which cannot happen while the number of buckets stays the same. */
  lemma WakeupFailsIff(total: nat, bucket: nat, now: nat)
    requires total > 0
    ensures NextWakeup(total, bucket, now).ParseError? <==> Slot(total, bucket) >= DAY
    ensures NextWakeup(total, bucket, now).ParseError? ==> bucket >= total
  {
    if bucket < total {
      SlotInDay(total, bucket);
    }
  }

  // ----- Cadence -----

  /** `now` is on the day of the wake-up, or less than 23 clock hours after its hour. */
  predicate InTime(fired: nat, now: nat) {
    now / DAY == fired / DAY || now / HOUR - fired / HOUR <= 22
  }

  /** Rescheduling at or after a wake-up gives exactly the same time on the next day if and only if
      it happens in time. */
  lemma CadenceIff(total: nat, bucket: nat, fired: nat, now: nat)
    requires bucket < total && fired % DAY == Slot(total, bucket) && fired <= now
    ensures NextWakeup(total, bucket, now) == Success(fired + DAY) <==> InTime(fired, now)
  {
    WakeupIsDayPlusSlot(total, bucket, now);
    HourOfTime(fired);
    HourOfTime(now);
    var d, h := fired / DAY, fired % DAY / HOUR;
    var nd, nh := now / DAY, now % DAY / HOUR;
    assert fired == d * DAY + Slot(total, bucket);
    assert NextWakeup(total, bucket, now) == Success(fired + DAY) <==> DayForHour(h, now) == d + 1;
    assert nd == d ==> nh >= h;
    assert nd >= d;
  }

  lemma WakeupIsDayPlusSlot(total: nat, bucket: nat, now: nat)
    requires bucket < total
    ensures NextWakeup(total, bucket, now) ==
            Success(DayForHour(Slot(total, bucket) / HOUR, now) * DAY + Slot(total, bucket))
  {
    SlotInDay(total, bucket);
    TimeRecomposes(total, bucket);
  }

  lemma HourOfTime(t: nat)
    ensures t / HOUR == 24 * (t / DAY) + t % DAY / HOUR
    ensures 0 <= t % DAY / HOUR < 24
  {
    assert t == DAY * (t / DAY) + t % DAY;
  }

  /** In particular rescheduling within 22 hours never drifts, also across midnight. */
  lemma CadenceWithin22Hours(total: nat, bucket: nat, fired: nat, now: nat)
    requires bucket < total && fired % DAY == Slot(total, bucket) && fired <= now <= fired + 22 * HOUR
    ensures NextWakeup(total, bucket, now) == Success(fired + DAY)
  {
    CadenceIff(total, bucket, fired, now);
  }

  /** A device's life: it fires, is rescheduled within 22 hours, fires again, ... */
  ghost predicate IsLife(total: nat, bucket: nat, fired: seq<nat>, rescheduled: seq<nat>)
    requires total > 0
  {
    && |fired| == |rescheduled| + 1
    && fired[0] % DAY == Slot(total, bucket)
    && (forall i :: 0 <= i < |rescheduled| ==> fired[i] <= rescheduled[i] <= fired[i] + 22 * HOUR)
    && (forall i :: 0 <= i < |rescheduled| ==> NextWakeup(total, bucket, rescheduled[i]) == Success(fired[i + 1]))
  }

  /** Each wake-up is at the bucket's time of day, and one day after the one before. */
  lemma {:induction false} LifeStep(total: nat, bucket: nat, fired: seq<nat>, rescheduled: seq<nat>, n: nat)
    requires bucket < total && IsLife(total, bucket, fired, rescheduled) && n < |fired|
    ensures fired[n] % DAY == Slot(total, bucket)
    ensures n > 0 ==> fired[n] == fired[n - 1] + DAY
  {
    if n > 0 {
      LifeStep(total, bucket, fired, rescheduled, n - 1);
      CadenceWithin22Hours(total, bucket, fired[n - 1], rescheduled[n - 1]);
      NextDay(fired[n - 1]);
    }
  }

  lemma NextDay(t: nat)
    ensures (t + DAY) % DAY == t % DAY
  {
  }

  /** The n-th wake-up is exactly n days after the first. */
  lemma NoDrift(total: nat, bucket: nat, fired: seq<nat>, rescheduled: seq<nat>, n: nat)
    requires bucket < total && IsLife(total, bucket, fired, rescheduled) && n < |fired|
    ensures fired[n] == fired[0] + n * DAY
  {
    forall i | 0 < i < |fired| ensures fired[i] == fired[i - 1] + DAY {
      LifeStep(total, bucket, fired, rescheduled, i);
    }
    DaysAddUp(fired, n);
  }

  lemma {:induction false} DaysAddUp(fired: seq<nat>, n: nat)
    requires n < |fired| && forall i :: 0 < i < |fired| ==> fired[i] == fired[i - 1] + DAY
    ensures fired[n] == fired[0] + n * DAY
  {
    if n > 0 {
      DaysAddUp(fired, n - 1);
    }
  }

  // ----- The wake-up session -----

  const MAX_RETRIES := 5
  const RETRY_DELAY := 60
  const RESPONSE_TIMEOUT := 30

  /** One wait for a device message: it arrives in time (and is of the expected type or not), the
      wait times out, or the socket fails or delivers bytes that are no message. */
  datatype Reply = Arrived(after: nat, expected: bool) | Silent | Broken(after: nat)

  /** A request and the wait for its reply. `work` is the time spent on anything but waiting: the
      database, building and sending the request, and whatever delays the program. A request that
      cannot be sent is a reply that is broken at once. */
  datatype Exchange = Exchange(work: nat, reply: Reply)

  predicate ValidReply(r: Reply) { !r.Silent? ==> r.after <= RESPONSE_TIMEOUT }

  predicate Expected(e: Exchange) { e.reply.Arrived? && e.reply.expected }

  function WaitFor(r: Reply): nat { if r.Silent? then RESPONSE_TIMEOUT else r.after }

  function Time(e: Exchange): nat { e.work + WaitFor(e.reply) }

  /** A session: opening the socket, three exchanges, and the closing ACK, which may fail too. */
  datatype Session = Session(
    opening: nat, opens: bool, handshake: Exchange, read: Exchange, write: Exchange, closing: nat, closes: bool)

  predicate ValidSession(s: Session) {
    ValidReply(s.handshake.reply) && ValidReply(s.read.reply) && ValidReply(s.write.reply)
  }

  predicate Completes(s: Session) {
    s.opens && Expected(s.handshake) && Expected(s.read) && Expected(s.write) && s.closes
  }

  /** When the next wake-up time is computed for the device, counted from the start of the session. */
  function WriteOffset(s: Session): nat { s.opening + Time(s.handshake) + Time(s.read) }

  /** The duration of a session that stops at the first thing that goes wrong. */
  function SessionTime(s: Session): nat {
    if !s.opens then s.opening
    else if !Expected(s.handshake) then s.opening + Time(s.handshake)
    else if !Expected(s.read) then WriteOffset(s)
    else if !Expected(s.write) then WriteOffset(s) + Time(s.write)
    else WriteOffset(s) + Time(s.write) + s.closing
  }

  /** The part of it that is not waiting for the device, at most. */
  function WorkIn(s: Session): nat { s.opening + s.handshake.work + s.read.work + s.write.work + s.closing }

  function Work(sessions: seq<Session>, k: nat): nat
    requires k <= |sessions|
  {
    if k == 0 then 0 else Work(sessions, k - 1) + WorkIn(sessions[k - 1])
  }

  lemma {:induction false} WorkGrows(sessions: seq<Session>, k: nat, n: nat)
    requires k <= n <= |sessions|
    ensures Work(sessions, k) <= Work(sessions, n)
    decreases n
  {
    if k < n {
      WorkGrows(sessions, k, n - 1);
    }
  }

  /** The time spent on the first k sessions and the delays after them. */
  function TimeBefore(sessions: seq<Session>, k: nat): nat
    requires k <= |sessions|
  {
    if k == 0 then 0 else TimeBefore(sessions, k - 1) + SessionTime(sessions[k - 1]) + RETRY_DELAY
  }

  /** run_session, with the time at which it computes what it tells the device. */
  method RunSession(s: Session) returns (ok: bool, elapsed: nat, wroteAt: nat)
    requires ValidSession(s)
    ensures ok <==> Completes(s)
    ensures elapsed == SessionTime(s) && elapsed <= 3 * RESPONSE_TIMEOUT + WorkIn(s)
    ensures ok ==> wroteAt == WriteOffset(s)
  {
    wroteAt := 0;
    elapsed := s.opening;
    if !s.opens {
      return false, elapsed, wroteAt;
    }
    elapsed := elapsed + Time(s.handshake);
    if !Expected(s.handshake) {
      return false, elapsed, wroteAt;
    }
    elapsed := elapsed + Time(s.read);
    if !Expected(s.read) {
      return false, elapsed, wroteAt;
    }
    wroteAt := elapsed;
    elapsed := elapsed + Time(s.write);
    if !Expected(s.write) {
      return false, elapsed, wroteAt;
    }
    elapsed := elapsed + s.closing;
    ok := s.closes;
  }

  /** What the database says about the device. */
  datatype Lookup = NotFound | Found(ipv4: bool, ipv6: bool)

  predicate OneAddress(l: Lookup) { l.Found? && l.ipv4 != l.ipv6 }

  datatype WakeUp =
    | Completed(attempt: nat, elapsed: nat, wroteAt: nat)
    | DatabaseError
    | NoAddress
    | MaxRetriesExceeded(elapsed: nat)

  /** The first session that completes. */
  ghost predicate FirstSuccess(sessions: seq<Session>, k: nat) {
    k < |sessions| && Completes(sessions[k]) && forall i :: 0 <= i < k ==> !Completes(sessions[i])
  }

  /** A result in terms of the sessions: it completes at the first session that does. */
  ghost predicate CompletedRight(sessions: seq<Session>, r: WakeUp)
    requires r.Completed?
  {
    && 1 <= r.attempt <= |sessions| && FirstSuccess(sessions, r.attempt - 1)
    && r.elapsed == TimeBefore(sessions, r.attempt - 1) + SessionTime(sessions[r.attempt - 1])
    && r.wroteAt == TimeBefore(sessions, r.attempt - 1) + WriteOffset(sessions[r.attempt - 1])
  }

  /** run_wake_up: a device without exactly one address is an error; otherwise up to five sessions, a
      minute apart. It succeeds exactly when one of the five would complete, at the first such
      session, and never waits longer than 690 s on top of its own work. */
  method RunWakeUp(device: Lookup, sessions: seq<Session>) returns (r: WakeUp)
    requires |sessions| == MAX_RETRIES && forall i :: 0 <= i < MAX_RETRIES ==> ValidSession(sessions[i])
    ensures r.DatabaseError? <==> device.NotFound?
    ensures r.NoAddress? <==> device.Found? && device.ipv4 == device.ipv6
    ensures r.Completed? <==> OneAddress(device) && exists i :: 0 <= i < MAX_RETRIES && Completes(sessions[i])
    ensures r.Completed? ==> CompletedRight(sessions, r)
    ensures r.MaxRetriesExceeded? ==> r.elapsed == TimeBefore(sessions, 4) + SessionTime(sessions[4])
    ensures r.Completed? || r.MaxRetriesExceeded? ==> r.elapsed <= 690 + Work(sessions, MAX_RETRIES)
  {
    if device.NotFound? {
      return DatabaseError;
    }
    if device.ipv4 == device.ipv6 {
      return NoAddress;
    }
    var elapsed: nat := 0;
    var attempt := 1;
    while attempt <= MAX_RETRIES
      invariant 1 <= attempt <= MAX_RETRIES + 1
      invariant forall i :: 0 <= i < attempt - 1 ==> !Completes(sessions[i])
      invariant attempt <= MAX_RETRIES ==>
                  elapsed == TimeBefore(sessions, attempt - 1) <= (attempt - 1) * 150 + Work(sessions, attempt - 1)
      invariant attempt > MAX_RETRIES ==> elapsed == TimeBefore(sessions, 4) + SessionTime(sessions[4])
      invariant elapsed <= 690 + Work(sessions, attempt - 1)
    {
      var done, spent, wrote := RunSession(sessions[attempt - 1]);
      WorkGrows(sessions, attempt, MAX_RETRIES);
      if done {
        return Completed(attempt, elapsed + spent, elapsed + wrote);
      }
      elapsed := elapsed + spent;
      if attempt < MAX_RETRIES {
        elapsed := elapsed + RETRY_DELAY;
      }
      attempt := attempt + 1;
    }
    r := MaxRetriesExceeded(elapsed);
  }

  /** Sessions that each last t seconds start t + 60 seconds apart. */
  lemma {:induction false} EqualSessions(sessions: seq<Session>, t: nat, k: nat, gap: nat)
    requires k <= |sessions| && gap == t + 60
    requires forall i :: 0 <= i < |sessions| ==> SessionTime(sessions[i]) == t
    ensures TimeBefore(sessions, k) == k * gap
    decreases k
  {
    if k > 0 {
      EqualSessions(sessions, t, k - 1, gap);
      OneMore(k - 1, gap);
      assert SessionTime(sessions[k - 1]) == t;
    }
  }

  lemma OneMore(k: nat, gap: nat)
    ensures (k + 1) * gap == k * gap + gap
  {
  }

  /** A session in which nothing but waiting takes time. */
  function IdleSession(handshake: Reply, read: Reply, write: Reply): Session {
    Session(0, true, Exchange(0, handshake), Exchange(0, read), Exchange(0, write), 0, true)
  }

  /** A device that never answers takes five waits of 30 s and four pauses of 60 s. */
  method SilentDevice(device: Lookup) returns (r: WakeUp)
    requires OneAddress(device)
    ensures r == MaxRetriesExceeded(5 * 30 + 4 * 60)
  {
    var s := IdleSession(Silent, Silent, Silent);
    var sessions := seq(5, _ => s);
    r := RunWakeUp(device, sessions);
    EqualSessions(sessions, 30, 4, 90);
  }

  /** The bound of 690 s is attained: every session gets two replies at the last moment and then
      none. */
  method SlowestDevice(device: Lookup) returns (r: WakeUp)
    requires OneAddress(device)
    ensures r == MaxRetriesExceeded(690)
  {
    var s := IdleSession(Arrived(30, true), Arrived(30, true), Silent);
    var sessions := seq(5, _ => s);
    r := RunWakeUp(device, sessions);
    EqualSessions(sessions, 90, 4, 150);
  }

  datatype NextJob = Job(at: nat, told: nat) | Lost

  /** One day of a device: the job fires, the sessions run, and after a success the device is
      signalled to the loop that creates the next job, which happens `delay` later and may fail
      (`signalled` is false). Anything else loses the device. The next job is exactly one day
      later if and only if it is created in time. The device itself is told one day after the
      moment its first complete session computed that, which is the same time only if no time
      at all passed until then. */
  method Cycle(total: nat, bucket: nat, fired: nat, device: Lookup, sessions: seq<Session>, delay: nat, signalled: bool)
    returns (next: NextJob, attempt: nat, now: nat)
    requires bucket < total && fired % DAY == Slot(total, bucket)
    requires |sessions| == MAX_RETRIES && forall i :: 0 <= i < MAX_RETRIES ==> ValidSession(sessions[i])
    ensures next.Job? <==>
              signalled && OneAddress(device) && exists i :: 0 <= i < MAX_RETRIES && Completes(sessions[i])
    ensures next.Job? ==> 1 <= attempt <= MAX_RETRIES && FirstSuccess(sessions, attempt - 1)
    ensures next.Job? ==> now == fired + TimeBefore(sessions, attempt - 1) + SessionTime(sessions[attempt - 1]) + delay
    ensures next.Job? ==> next.at % DAY == Slot(total, bucket) && now < next.at < now + 26 * HOUR
    ensures next.Job? ==>
              next.told == fired + TimeBefore(sessions, attempt - 1) + WriteOffset(sessions[attempt - 1]) + 86400
    ensures next.Job? ==> (next.at == fired + DAY <==> InTime(fired, now))
    ensures next.Job? && Work(sessions, MAX_RETRIES) + delay <= 21 * HOUR ==> next.at == fired + DAY
    ensures next.Job? && InTime(fired, now) ==>
              next.at <= next.told && (next.told == next.at <==> attempt == 1 && WriteOffset(sessions[0]) == 0)
  {
    attempt, now := 0, fired;
    var r := RunWakeUp(device, sessions);
    if !r.Completed? || !signalled {
      return Lost, attempt, now;
    }
    attempt, now := r.attempt, fired + r.elapsed + delay;
    CadenceIff(total, bucket, fired, now);
    WakeupBounds(total, bucket, now);
    if now <= fired + 22 * HOUR {
      CadenceWithin22Hours(total, bucket, fired, now);
    }
    var w := NextWakeup(total, bucket, now);
    next := Job(w.value, fired + r.wroteAt + DAY);
  }
}
