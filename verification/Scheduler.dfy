/** Inversion of the load profile by bisection, and the scheduler that paces concurrent
    users by it. */
module Scheduler {
  import opened LoadProfile

  // ----- bisection of any nondecreasing function

  function Narrow(f: real -> real, n: real, lo: real, hi: real, steps: nat): (real, real)
    decreases steps
  {
    if steps == 0 then (lo, hi)
    else
      var mid := (lo + hi) / 2.0;
      if f(mid) < n then Narrow(f, n, mid, hi, steps - 1) else Narrow(f, n, lo, mid, steps - 1)
  }

  /** `width` halved `steps` times. */
  function Halved(width: real, steps: nat): real
    decreases steps
  {
    if steps == 0 then width else Halved(width / 2.0, steps - 1)
  }

  /** The interval keeps bracketing `n` and halves at every step. */
  lemma {:induction false} NarrowBrackets(f: real -> real, n: real, lo: real, hi: real, steps: nat)
    requires lo <= hi && f(lo) < n <= f(hi)
    ensures
      var (lo', hi') := Narrow(f, n, lo, hi, steps);
      lo <= lo' <= hi' <= hi && hi' - lo' == Halved(hi - lo, steps) && f(lo') < n <= f(hi')
    decreases steps
  {
    if steps > 0 {
      var mid := (lo + hi) / 2.0;
      assert mid - lo == hi - mid == (hi - lo) / 2.0;
      if f(mid) < n {
        NarrowBrackets(f, n, mid, hi, steps - 1);
      } else {
        NarrowBrackets(f, n, lo, mid, steps - 1);
      }
    }
  }

  lemma {:induction false} NarrowStaysInside(f: real -> real, n: real, lo: real, hi: real, steps: nat)
    requires lo <= hi
    ensures var (lo', hi') := Narrow(f, n, lo, hi, steps); lo <= lo' <= hi' <= hi
    decreases steps
  {
    if steps > 0 {
      var mid := (lo + hi) / 2.0;
      if f(mid) < n {
        NarrowStaysInside(f, n, mid, hi, steps - 1);
      } else {
        NarrowStaysInside(f, n, lo, mid, steps - 1);
      }
    }
  }

  lemma {:induction false} NarrowIsMonotone(f: real -> real, n: real, m: real, lo: real, hi: real, steps: nat)
    requires lo <= hi && n <= m
    ensures
      var (a, b) := Narrow(f, n, lo, hi, steps);
      var (c, d) := Narrow(f, m, lo, hi, steps);
      a <= c && b <= d
    decreases steps
  {
    if steps > 0 {
      var mid := (lo + hi) / 2.0;
      if f(mid) < n {
        NarrowIsMonotone(f, n, m, mid, hi, steps - 1);
      } else if f(mid) < m {
        NarrowStaysInside(f, m, mid, hi, steps - 1);
        NarrowStaysInside(f, n, lo, mid, steps - 1);
      } else {
        NarrowIsMonotone(f, n, m, lo, mid, steps - 1);
      }
    }
  }

  lemma HalvedByTen(w: real, steps: nat)
    requires steps >= 10
    ensures Halved(w, steps) == Halved(w / 1024.0, steps - 10)
  {
    assert Halved(w, steps) == Halved(w / 2.0, steps - 1);
    assert Halved(w, steps) == Halved(w / 4.0, steps - 2);
    assert Halved(w, steps) == Halved(w / 8.0, steps - 3);
    assert Halved(w, steps) == Halved(w / 16.0, steps - 4);
    assert Halved(w, steps) == Halved(w / 32.0, steps - 5);
    assert Halved(w, steps) == Halved(w / 64.0, steps - 6);
    assert Halved(w, steps) == Halved(w / 128.0, steps - 7);
    assert Halved(w, steps) == Halved(w / 256.0, steps - 8);
    assert Halved(w, steps) == Halved(w / 512.0, steps - 9);
  }

  // ----- the time of a task slot

  const STEPS: nat := 60

  /** The run's length halved 60 times. */
  const PRECISION: real := 480.0 / 1152921504606846976.0

  lemma PrecisionReached()
    ensures Halved(DURATION, STEPS) == PRECISION
  {
    HalvedByTen(480.0, 60);
    HalvedByTen(480.0 / 1024.0, 50);
    HalvedByTen(480.0 / 1048576.0, 40);
    HalvedByTen(480.0 / 1073741824.0, 30);
    HalvedByTen(480.0 / 1099511627776.0, 20);
    HalvedByTen(480.0 / 1125899906842624.0, 10);
  }

  /** `slots` gives the task slots due by a time. */
  function ScheduledTime(slots: real -> real, n: real): real {
    if n <= 0.0 then 0.0
    else
      var (lo, hi) := Narrow(slots, n, 0.0, DURATION, STEPS);
      (lo + hi) / 2.0
  }

  method ScheduledTimeForOrdinal(perTask: real, n: real) returns (t: real)
    requires perTask > 0.0
    ensures t == ScheduledTime(Slots(perTask), n)
  {
    if n <= 0.0 {
      return 0.0;
    }
    var lo, hi := 0.0, DURATION;
    for i := 0 to STEPS
      invariant Narrow(Slots(perTask), n, lo, hi, STEPS - i) == Narrow(Slots(perTask), n, 0.0, DURATION, STEPS)
    {
      var mid := (lo + hi) / 2.0;
      var tasks := CumulativeTasks(perTask, mid);
      if tasks < n {
        lo := mid;
      } else {
        hi := mid;
      }
    }
    t := (lo + hi) / 2.0;
  }

  /** Every slot of the run is scheduled at a positive time within the run, at which the
      number of slots due is the slot's own number, up to what half the final precision
      amounts to at the highest rate. */
  lemma ScheduleIsAccurate(slots: real -> real, rate: real, n: real)
    requires Steady(slots, rate) && slots(0.0) <= 0.0 < n <= slots(DURATION)
    ensures
      var t := ScheduledTime(slots, n);
      && 0.0 < t < DURATION
      && n - rate * (PRECISION / 2.0) <= slots(t) <= n + rate * (PRECISION / 2.0)
  {
    NarrowBrackets(slots, n, 0.0, DURATION, STEPS);
    PrecisionReached();
    var (lo, hi) := Narrow(slots, n, 0.0, DURATION, STEPS);
    var t := (lo + hi) / 2.0;
    assert t - lo == PRECISION / 2.0 && hi - t == PRECISION / 2.0;
    var atLo, atT, atHi, bound := slots(lo), slots(t), slots(hi), rate * (PRECISION / 2.0);
    assert atLo <= atT <= atLo + bound by {
      assert GrowsBetween(slots, rate, lo, t);
    }
    assert atT <= atHi <= atT + bound by {
      assert GrowsBetween(slots, rate, t, hi);
    }
    assert t == ScheduledTime(slots, n);
  }

  /** Later slots are never scheduled earlier. */
  lemma ScheduleIsMonotone(slots: real -> real, n: real, m: real)
    requires n <= m
    ensures ScheduledTime(slots, n) <= ScheduledTime(slots, m)
  {
    NarrowIsMonotone(slots, n, m, 0.0, DURATION, STEPS);
    NarrowStaysInside(slots, m, 0.0, DURATION, STEPS);
  }

  // ----- the scheduler

  /** The process-wide state: the next slot to hand out, and how many there are. */
  class TaskScheduler {
    var nextOrdinal: nat
    var totalSlots: real
    const perTask: real

    constructor (perTask: real)
      ensures this.perTask == perTask && nextOrdinal == 1 && totalSlots == 0.0
    {
      this.perTask := perTask;
      nextOrdinal := 1;
      totalSlots := 0.0;
    }

    method Reset()
      requires perTask > 0.0
      modifies this`nextOrdinal, this`totalSlots
      ensures nextOrdinal == 1 && totalSlots == 158850.0 / perTask
    {
      nextOrdinal := 1;
      totalSlots := CumulativeTasks(perTask, DURATION);
      CumulativeEnds(perTask, DURATION);
    }

    /** The part of pacing before any sleep: reserve a slot; when it exists, say how long
        to sleep at run time `now`. */
    method Reserve(now: real) returns (ordinal: nat, run: bool, delay: real)
      requires perTask > 0.0
      modifies this`nextOrdinal
      ensures ordinal == old(nextOrdinal) && nextOrdinal == old(nextOrdinal) + 1
      ensures run <==> ordinal as real <= totalSlots
      ensures run ==> delay == ScheduledTime(Slots(perTask), ordinal as real) - now
    {
      ordinal := nextOrdinal;
      nextOrdinal := nextOrdinal + 1;
      delay := 0.0;
      run := ordinal as real <= totalSlots;
      if run {
        var scheduled := ScheduledTimeForOrdinal(perTask, ordinal as real);
        delay := scheduled - now;
      }
    }
  }

  datatype User =
    | Idle
    | Reserved(ordinal: nat)
    | Sleeping(ordinal: nat, until: real)
    | Refused(ordinal: nat)

  datatype Release = Release(ordinal: nat, time: real)

  /** `released` records each call that returned true, when it did. */
  datatype State = State(clock: real, nextOrdinal: nat, users: map<nat, User>, released: seq<Release>)

  datatype Label = Tick(now: real) | Reserve(u: nat) | Plan(u: nat) | Wake(u: nat) | GiveUp(u: nat)

  predicate Enabled(slots: real -> real, s: State, l: Label) {
    match l
    case Tick(now) => s.clock <= now
    case Reserve(u) => u in s.users && s.users[u].Idle?
    case Plan(u) => u in s.users && s.users[u].Reserved?
    case Wake(u) => u in s.users && s.users[u].Sleeping? && s.users[u].until <= s.clock
    case GiveUp(u) => u in s.users && s.users[u].Refused?
  }

  /** `Plan` compares the slot's time with the clock: a slot already due runs at once, a
      later one after a sleep that may overrun but never ends early. */
  function Next(slots: real -> real, s: State, l: Label): State
    requires Enabled(slots, s, l)
  {
    match l
    case Tick(now) => s.(clock := now)
    case Reserve(u) =>
      var n := s.nextOrdinal;
      s.(nextOrdinal := n + 1,
         users := s.users[u := if n as real > slots(DURATION) then Refused(n) else Reserved(n)])
    case Plan(u) =>
      var n := s.users[u].ordinal;
      var delay := ScheduledTime(slots, n as real) - s.clock;
      if delay > 0.0 then s.(users := s.users[u := Sleeping(n, s.clock + delay)])
      else s.(users := s.users[u := Idle], released := s.released + [Release(n, s.clock)])
    case Wake(u) =>
      s.(users := s.users[u := Idle], released := s.released + [Release(s.users[u].ordinal, s.clock)])
    case GiveUp(u) => s.(users := s.users[u := Idle])
  }

  ghost predicate Initial(s: State) {
    s.nextOrdinal == 1 && s.released == [] && forall u :: u in s.users ==> s.users[u].Idle?
  }

  ghost predicate Due(slots: real -> real, r: Release) {
    1 <= r.ordinal && r.ordinal as real <= slots(DURATION) && ScheduledTime(slots, r.ordinal as real) <= r.time
  }

  ghost predicate UserOk(slots: real -> real, user: User, next: nat) {
    && (!user.Idle? ==> 1 <= user.ordinal < next)
    && (user.Reserved? || user.Sleeping? ==> user.ordinal as real <= slots(DURATION))
    && (user.Refused? ==> user.ordinal as real > slots(DURATION))
    && (user.Sleeping? ==> user.until == ScheduledTime(slots, user.ordinal as real))
  }

  /** No slot is in two hands, or in a hand and released. */
  ghost predicate OnceOnly(s: State) {
    && (forall u, v :: u in s.users && v in s.users && u != v && !s.users[u].Idle? && !s.users[v].Idle? ==>
          s.users[u].ordinal != s.users[v].ordinal)
    && (forall i, j :: 0 <= i < j < |s.released| ==> s.released[i].ordinal != s.released[j].ordinal)
    && (forall i, u :: 0 <= i < |s.released| && u in s.users && !s.users[u].Idle? ==>
          s.released[i].ordinal != s.users[u].ordinal)
  }

  ghost predicate Inv(slots: real -> real, s: State) {
    && s.nextOrdinal >= 1
    && (forall u :: u in s.users ==> UserOk(slots, s.users[u], s.nextOrdinal))
    && (forall i :: 0 <= i < |s.released| ==> s.released[i].ordinal < s.nextOrdinal && Due(slots, s.released[i]))
    && OnceOnly(s)
  }

  lemma ReserveKeepsInv(slots: real -> real, s: State, u: nat)
    requires Inv(slots, s) && Enabled(slots, s, Reserve(u))
    ensures Inv(slots, Next(slots, s, Reserve(u)))
  {
    assert forall v :: v in s.users ==> UserOk(slots, s.users[v], s.nextOrdinal);
  }

  lemma ReleaseKeepsInv(slots: real -> real, s: State, u: nat)
    requires Inv(slots, s) && u in s.users && (s.users[u].Reserved? || s.users[u].Sleeping?)
    requires ScheduledTime(slots, s.users[u].ordinal as real) <= s.clock
    ensures Inv(slots, s.(users := s.users[u := Idle], released := s.released + [Release(s.users[u].ordinal, s.clock)]))
  {
    assert UserOk(slots, s.users[u], s.nextOrdinal);
  }

  lemma NextKeepsInv(slots: real -> real, s: State, l: Label)
    requires Inv(slots, s) && Enabled(slots, s, l)
    ensures Inv(slots, Next(slots, s, l))
  {
    match l
    case Tick(now) =>
    case Reserve(u) => ReserveKeepsInv(slots, s, u);
    case Plan(u) =>
      assert UserOk(slots, s.users[u], s.nextOrdinal);
      if ScheduledTime(slots, s.users[u].ordinal as real) <= s.clock {
        ReleaseKeepsInv(slots, s, u);
      }
    case Wake(u) =>
      assert UserOk(slots, s.users[u], s.nextOrdinal);
      ReleaseKeepsInv(slots, s, u);
    case GiveUp(u) =>
  }

  ghost predicate Execution(slots: real -> real, states: seq<State>, labels: seq<Label>) {
    && |states| == |labels| + 1
    && Initial(states[0])
    && forall i :: 0 <= i < |labels| ==>
         && Enabled(slots, states[i], labels[i])
         && states[i + 1] == Next(slots, states[i], labels[i])
  }

  lemma {:induction false} AlwaysInv(slots: real -> real, states: seq<State>, labels: seq<Label>, k: nat)
    requires Execution(slots, states, labels) && k < |states|
    ensures Inv(slots, states[k])
  {
    if k > 0 {
      AlwaysInv(slots, states, labels, k - 1);
      NextKeepsInv(slots, states[k - 1], labels[k - 1]);
    }
  }

  /** The releases up to time `t`. */
  function ReleasedBy(released: seq<Release>, t: real): seq<Release> {
    if released == [] then []
    else
      var last := released[|released| - 1];
      ReleasedBy(released[..|released| - 1], t) + if last.time <= t then [last] else []
  }

  lemma {:induction false} ReleasedByFacts(released: seq<Release>, t: real)
    requires forall i, j :: 0 <= i < j < |released| ==> released[i].ordinal != released[j].ordinal
    ensures var r := ReleasedBy(released, t);
            && |r| <= |released|
            && (forall x :: x in r ==> x in released && x.time <= t)
            && (forall i, j :: 0 <= i < j < |r| ==> r[i].ordinal != r[j].ordinal)
  {
    if released != [] {
      var front := released[..|released| - 1];
      ReleasedByFacts(front, t);
      var r := ReleasedBy(front, t);
      forall i | 0 <= i < |r|
        ensures r[i].ordinal != released[|released| - 1].ordinal
      {
        assert r[i] in front;
      }
    }
  }

  /** Different numbers between 1 and `bound`: there are at most `bound` of them. */
  lemma {:induction false} Pigeonhole(r: seq<Release>, bound: nat)
    requires forall k :: 0 <= k < |r| ==> 1 <= r[k].ordinal <= bound
    requires forall k, j :: 0 <= k < j < |r| ==> r[k].ordinal != r[j].ordinal
    ensures |r| <= bound
    decreases bound
  {
    if r != [] {
      assert 1 <= r[0].ordinal <= bound;
      if k :| 0 <= k < |r| && r[k].ordinal == bound {
        Pigeonhole(r[..k] + r[k + 1..], bound - 1);
      } else {
        Pigeonhole(r, bound - 1);
      }
    }
  }

  lemma SomeOrdinalIsLarge(r: seq<Release>) returns (i: nat)
    requires r != [] && forall k :: 0 <= k < |r| ==> r[k].ordinal >= 1
    requires forall k, j :: 0 <= k < j < |r| ==> r[k].ordinal != r[j].ordinal
    ensures i < |r| && r[i].ordinal >= |r|
  {
    if forall k :: 0 <= k < |r| ==> r[k].ordinal < |r| {
      Pigeonhole(r, |r| - 1);
    }
    i :| 0 <= i < |r| && r[i].ordinal >= |r|;
  }

  // ----- no slot is lost

  ghost predicate Held(s: State, n: nat) {
    exists u :: u in s.users && !s.users[u].Idle? && s.users[u].ordinal == n
  }

  ghost predicate WasReleased(s: State, n: nat) {
    exists i :: 0 <= i < |s.released| && s.released[i].ordinal == n
  }

  /** Every slot handed out, if it exists, is in a user's hand or has been released. */
  ghost predicate Conserved(slots: real -> real, s: State) {
    forall n :: 1 <= n < s.nextOrdinal && n as real <= slots(DURATION) ==> Held(s, n) || WasReleased(s, n)
  }

  lemma NextConserves(slots: real -> real, s: State, l: Label, n: nat)
    requires Inv(slots, s) && Conserved(slots, s) && Enabled(slots, s, l)
    requires 1 <= n < Next(slots, s, l).nextOrdinal && n as real <= slots(DURATION)
    ensures Held(Next(slots, s, l), n) || WasReleased(Next(slots, s, l), n)
  {
    var s' := Next(slots, s, l);
    if l.Reserve? && n == s.nextOrdinal {
      assert s'.users[l.u].ordinal == n;
    } else if WasReleased(s, n) {
      var i :| 0 <= i < |s.released| && s.released[i].ordinal == n;
      assert s'.released[i].ordinal == n;
    } else {
      var u :| u in s.users && !s.users[u].Idle? && s.users[u].ordinal == n;
      assert UserOk(slots, s.users[u], s.nextOrdinal);
      if s'.users[u].Idle? {
        assert s'.released[|s.released|].ordinal == n;
      } else {
        assert s'.users[u].ordinal == n;
      }
    }
  }

  /** Once nobody is waiting, the slots handed out have all been released: exactly one
      call returned true for each of them. */
  lemma {:induction false} NoSlotIsLost(slots: real -> real, states: seq<State>, labels: seq<Label>, k: nat)
    requires Execution(slots, states, labels) && k < |states|
    ensures Conserved(slots, states[k])
    ensures (forall u :: u in states[k].users ==> states[k].users[u].Idle?) ==>
              forall n :: 1 <= n < states[k].nextOrdinal && n as real <= slots(DURATION) ==> WasReleased(states[k], n)
  {
    if k > 0 {
      NoSlotIsLost(slots, states, labels, k - 1);
      AlwaysInv(slots, states, labels, k - 1);
      forall n | 1 <= n < states[k].nextOrdinal && n as real <= slots(DURATION)
        ensures Held(states[k], n) || WasReleased(states[k], n)
      {
        NextConserves(slots, states[k - 1], labels[k - 1], n);
      }
    }
  }

  /** Slots are handed out one after the other, each once; no more calls return true than
      there are slots, and none before its slot's time. */
  lemma SlotsAreUsedOnce(slots: real -> real, states: seq<State>, labels: seq<Label>, k: nat)
    requires Execution(slots, states, labels) && k < |states|
    ensures OnceOnly(states[k])
    ensures forall i :: 0 <= i < |states[k].released| ==> Due(slots, states[k].released[i])
    ensures slots(DURATION) >= 0.0 ==> |states[k].released| <= slots(DURATION).Floor
  {
    AlwaysInv(slots, states, labels, k);
    var r := states[k].released;
    if slots(DURATION) >= 0.0 {
      forall i | 0 <= i < |r|
        ensures 1 <= r[i].ordinal <= slots(DURATION).Floor
      {
        assert Due(slots, r[i]);
      }
      Pigeonhole(r, slots(DURATION).Floor);
    }
  }

  /** In every run, with any number of concurrent users, the calls released by time `t`
      are at most the slots due by then, up to what half the bisection's final precision
      amounts to at the highest rate. */
  lemma ThroughputIsBounded(slots: real -> real, rate: real, states: seq<State>, labels: seq<Label>, k: nat, t: real)
    requires Execution(slots, states, labels) && k < |states|
    requires Steady(slots, rate) && slots(0.0) == 0.0 && rate >= 0.0 && t >= 0.0
    ensures |ReleasedBy(states[k].released, t)| as real <= slots(t) + rate * (PRECISION / 2.0)
  {
    SlotsAreUsedOnce(slots, states, labels, k);
    var released := states[k].released;
    ReleasedByFacts(released, t);
    var r := ReleasedBy(released, t);
    if r == [] {
      assert GrowsBetween(slots, rate, 0.0, t);
    } else {
      forall i | 0 <= i < |r|
        ensures Due(slots, r[i]) && r[i].time <= t
      {
        assert r[i] in released;
      }
      var i := SomeOrdinalIsLarge(r);
      var n := r[i].ordinal as real;
      assert Due(slots, r[i]);
      ScheduleIsAccurate(slots, rate, n);
      assert GrowsBetween(slots, rate, ScheduledTime(slots, n), t);
    }
  }

  /** The organizer run: at most floor(158850 / perTask) tasks in all, and by time `t` no
      more than the profile allows. */
  lemma OrganizerThroughput(perTask: real, states: seq<State>, labels: seq<Label>, k: nat, t: real)
    requires perTask > 0.0 && t >= 0.0
    requires Execution(Slots(perTask), states, labels) && k < |states|
    ensures |states[k].released| <= (158850.0 / perTask).Floor
    ensures |ReleasedBy(states[k].released, t)| as real <= Slots(perTask)(t) + 1000.0 / perTask * (PRECISION / 2.0)
  {
    SlotsAreSteady(perTask);
    SlotsAreUsedOnce(Slots(perTask), states, labels, k);
    ThroughputIsBounded(Slots(perTask), 1000.0 / perTask, states, labels, k, t);
  }
}
