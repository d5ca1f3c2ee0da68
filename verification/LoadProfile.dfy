/** The organizer load profile over exact reals: the target rate, its integral, and the
    inversion of the integral by bisection.  `perTask` is the number of requests one
    task makes. */
module LoadProfile {

  const DURATION: real := 480.0

  function TargetRps(t: real): real {
    if t < 0.0 then 0.0
    else if t < 180.0 then 330.0 * t / 180.0
    else if t < 300.0 then 330.0
    else if t < 330.0 then 1000.0
    else if t < 360.0 then 1000.0 - (1000.0 - 330.0) * (t - 330.0) / 30.0
    else if t < 480.0 then 330.0
    else 0.0
  }

  /** The area of a trapezoid of width `u` under a rate that starts at `rate`. */
  function Area(u: real, rate: real, slope: real): real {
    u * (rate + (rate + slope * u)) / 2.0
  }

  /** A stretch of time over which the rate is `rate` at the start and changes by
      `slope` per second. */
  datatype Phase = Phase(start: real, end: real, rate: real, slope: real) {

    function RateAt(t: real): real { rate + slope * (t - start) }

    function Clip(t: real): real { if t < start then start else if t > end then end else t }

    /** Requests due in this phase by time `t`. */
    function AreaUpTo(t: real): real { Area(Clip(t) - start, rate, slope) }
  }

  const RAMP_UP := Phase(0.0, 180.0, 0.0, 330.0 / 180.0)
  const STEADY := Phase(180.0, 300.0, 330.0, 0.0)
  const PEAKING := Phase(300.0, 330.0, 1000.0, 0.0)
  const RAMP_DOWN := Phase(330.0, 360.0, 1000.0, -670.0 / 30.0)
  const STEADY_AGAIN := Phase(360.0, 480.0, 330.0, 0.0)

  /** Requests due by time `t`: the area under the target rate, phase by phase. */
  function Requests(t: real): real {
    RAMP_UP.AreaUpTo(t) + STEADY.AreaUpTo(t) + PEAKING.AreaUpTo(t) + RAMP_DOWN.AreaUpTo(t) + STEADY_AGAIN.AreaUpTo(t)
  }

  /** The same in closed form. */
  function Closed(t: real): real {
    if t <= 0.0 then 0.0
    else if t <= 180.0 then (330.0 / 180.0) * (t * t) / 2.0
    else if t <= 300.0 then 29700.0 + 330.0 * (t - 180.0)
    else if t <= 330.0 then 69300.0 + 1000.0 * (t - 300.0)
    else if t <= 360.0 then 99300.0 + (1000.0 + (1000.0 - 670.0 * ((t - 330.0) / 30.0))) * (t - 330.0) / 2.0
    else if t <= 480.0 then 119250.0 + 330.0 * (t - 360.0)
    else 158850.0
  }

  function Cumulative(perTask: real, t: real): real
    requires perTask > 0.0
  {
    Closed(t) / perTask
  }

  function Min(a: real, b: real): real { if a <= b then a else b }

  lemma RisingArea(u: real)
    ensures Area(u, 0.0, 330.0 / 180.0) == (330.0 / 180.0) * (u * u) / 2.0
  {
  }

  lemma FlatArea(u: real, rate: real)
    ensures Area(u, rate, 0.0) == rate * u
  {
  }

  lemma FallingArea(u: real)
    ensures Area(u, 1000.0, -670.0 / 30.0) == (1000.0 + (1000.0 - 670.0 * (u / 30.0))) * u / 2.0
  {
  }

  /** The parts of the closed form, by phase. */
  lemma PhaseAreas(t: real)
    ensures RAMP_UP.AreaUpTo(t) == (330.0 / 180.0) * (RAMP_UP.Clip(t) * RAMP_UP.Clip(t)) / 2.0
    ensures STEADY.AreaUpTo(t) == 330.0 * (STEADY.Clip(t) - 180.0)
    ensures PEAKING.AreaUpTo(t) == 1000.0 * (PEAKING.Clip(t) - 300.0)
    ensures RAMP_DOWN.AreaUpTo(t) ==
            (1000.0 + (1000.0 - 670.0 * ((RAMP_DOWN.Clip(t) - 330.0) / 30.0))) * (RAMP_DOWN.Clip(t) - 330.0) / 2.0
    ensures STEADY_AGAIN.AreaUpTo(t) == 330.0 * (STEADY_AGAIN.Clip(t) - 360.0)
  {
    assert RAMP_UP.Clip(t) - 0.0 == RAMP_UP.Clip(t);
    RisingArea(RAMP_UP.Clip(t));
    FlatArea(STEADY.Clip(t) - 180.0, 330.0);
    FlatArea(PEAKING.Clip(t) - 300.0, 1000.0);
    FallingArea(RAMP_DOWN.Clip(t) - 330.0);
    FlatArea(STEADY_AGAIN.Clip(t) - 360.0, 330.0);
  }

  /** The closed form is the integral of the target rate. */
  lemma ClosedIsRequests(t: real)
    ensures Closed(t) == Requests(t)
  {
    PhaseAreas(t);
  }

  method CumulativeTasks(perTask: real, time: real) returns (tasks: real)
    requires perTask > 0.0
    ensures tasks == Cumulative(perTask, time)
  {
    if time <= 0.0 {
      return 0.0;
    }
    var t := Min(time, DURATION);
    var total := 0.0;
    var segEnd := Min(t, 180.0);
    if segEnd > 0.0 {
      total := total + (330.0 / 180.0) * (segEnd * segEnd) / 2.0;
    }
    if t <= 180.0 {
      return total / perTask;
    }
    segEnd := Min(t, 300.0);
    total := total + 330.0 * (segEnd - 180.0);
    if t <= 300.0 {
      return total / perTask;
    }
    segEnd := Min(t, 330.0);
    total := total + 1000.0 * (segEnd - 300.0);
    if t <= 330.0 {
      return total / perTask;
    }
    segEnd := Min(t, 360.0);
    var frac := (segEnd - 330.0) / 30.0;
    total := total + (1000.0 + (1000.0 - 670.0 * frac)) * (segEnd - 330.0) / 2.0;
    if t <= 360.0 {
      return total / perTask;
    }
    total := total + 330.0 * (t - 360.0);
    return total / perTask;
  }

  // ----- the integral

  /** Each phase is a stretch of the target rate, up to but not at its end. */
  lemma RateInPhase(p: Phase, t: real)
    requires InProfile(p)
    ensures p.start <= t < p.end ==> TargetRps(t) == p.RateAt(t)
  {
  }

  lemma Trapezoid(r: real, a: real, x: real, y: real, d: real, rx: real, ry: real)
    requires d == y - x && rx == r + a * x && ry == r + a * y
    ensures Area(y, r, a) - Area(x, r, a) == d * (rx + ry) / 2.0
  {
    assert (y - x) * (a * x + a * y) == a * (y * y) - a * (x * x);
    assert y * (a * y) == a * (y * y) && x * (a * x) == a * (x * x);
  }

  lemma Squares(x: real, y: real, limit: real)
    requires 0.0 <= x <= y && x + y <= limit
    ensures 0.0 <= y * y - x * x <= (y - x) * limit
  {
    var d, m := y - x, x + y;
    assert d * m == y * y - x * x;
    assert 0.0 <= d * m;
    assert d * (limit - m) >= 0.0;
  }

  lemma RampGrows(s: real, t: real)
    requires 0.0 <= s <= t <= 180.0
    ensures 0.0 <= Closed(t) - Closed(s) <= 1000.0 * (t - s)
  {
    var squares, width := t * t - s * s, t - s;
    Squares(s, t, 360.0);
    assert 0.0 <= squares <= width * 360.0;
    assert Closed(t) == (330.0 / 180.0) * (t * t) / 2.0;
    assert Closed(s) == (330.0 / 180.0) * (s * s) / 2.0;
    var growth := (330.0 / 180.0) * squares / 2.0;
    assert growth == Closed(t) - Closed(s);
    assert 0.0 <= growth <= 1000.0 * width;
  }

  lemma FallFrom(x: real)
    requires 0.0 <= x <= 30.0
    ensures Closed(330.0 + x) == 99300.0 + 1000.0 * x - (670.0 / 60.0) * (x * x)
  {
    FallingArea(x);
  }

  lemma FallGrows(s: real, t: real)
    requires 330.0 <= s <= t <= 360.0
    ensures 0.0 <= Closed(t) - Closed(s) <= 1000.0 * (t - s)
  {
    var x, y := s - 330.0, t - 330.0;
    var squares := y * y - x * x;
    Squares(x, y, 60.0);
    FallFrom(x);
    FallFrom(y);
    assert s == 330.0 + x && t == 330.0 + y;
    assert Closed(t) - Closed(s) == 1000.0 * (y - x) - (670.0 / 60.0) * squares;
  }

  /** A break point of the profile in `[s, t)`, if there is one. */
  function NextBreak(s: real): real {
    if s < 0.0 then 0.0 else if s < 180.0 then 180.0 else if s < 300.0 then 300.0
    else if s < 330.0 then 330.0 else if s < 360.0 then 360.0 else 480.0
  }

  function BreaksAfter(s: real): nat {
    if s < 0.0 then 6 else if s < 180.0 then 5 else if s < 300.0 then 4
    else if s < 330.0 then 3 else if s < 360.0 then 2 else if s < 480.0 then 1 else 0
  }

  lemma PhaseGrows(s: real, t: real)
    requires s <= t && (s < 480.0 ==> t <= NextBreak(s))
    ensures 0.0 <= Closed(t) - Closed(s) <= 1000.0 * (t - s)
  {
    if 0.0 <= s < 180.0 {
      RampGrows(s, t);
    } else if 330.0 <= s < 360.0 {
      FallGrows(s, t);
    }
  }

  /** Over any stretch of time the requests due grow, at the peak rate at most. */
  lemma {:induction false} ClosedGrows(s: real, t: real)
    requires s <= t
    ensures 0.0 <= Closed(t) - Closed(s) <= 1000.0 * (t - s)
    decreases BreaksAfter(s)
  {
    if s >= 480.0 || t <= NextBreak(s) {
      PhaseGrows(s, t);
    } else {
      var b := NextBreak(s);
      PhaseGrows(s, b);
      ClosedGrows(b, t);
    }
  }

  lemma Quotients(a: real, b: real, d: real, perTask: real)
    requires perTask > 0.0 && 0.0 <= b - a <= 1000.0 * d
    ensures 0.0 <= b / perTask - a / perTask <= 1000.0 / perTask * d
  {
    var x, y, z := a / perTask, b / perTask, 1000.0 / perTask;
    assert x * perTask == a && y * perTask == b && z * perTask == 1000.0;
    var left, right := (y - x) * perTask, (z * d) * perTask;
    assert left == b - a;
    assert right == 1000.0 * d;
    Unscaled(0.0, y - x, perTask);
    Unscaled(y - x, z * d, perTask);
  }

  lemma Unscaled(x: real, y: real, scale: real)
    requires scale > 0.0 && x * scale <= y * scale
    ensures x <= y
  {
  }

  /** The cumulative task count never decreases and never grows faster than the peak. */
  lemma CumulativeGrows(perTask: real, rate: real, s: real, t: real)
    requires perTask > 0.0 && rate == 1000.0 / perTask && s <= t
    ensures Cumulative(perTask, s) <= Cumulative(perTask, t) <= Cumulative(perTask, s) + rate * (t - s)
  {
    var a, b, d := Closed(s), Closed(t), t - s;
    ClosedGrows(s, t);
    Quotients(a, b, d, perTask);
    QuotientsOrdered(a / perTask, b / perTask, rate * d);
  }

  lemma QuotientsOrdered(x: real, y: real, growth: real)
    requires 0.0 <= y - x <= growth
    ensures x <= y <= x + growth
  {
  }

  /** It starts from nothing and ends at 158850 requests. */
  lemma CumulativeEnds(perTask: real, t: real)
    requires perTask > 0.0
    ensures t <= 0.0 ==> Cumulative(perTask, t) == 0.0
    ensures t >= DURATION ==> Cumulative(perTask, t) == 158850.0 / perTask
  {
  }

  /** Requests due before the phase that starts at `start`. */
  function DueBefore(start: real): real {
    if start < 180.0 then 0.0 else if start < 300.0 then 29700.0 else if start < 330.0 then 69300.0
    else if start < 360.0 then 99300.0 else 119250.0
  }

  ghost predicate InProfile(p: Phase) {
    p in {RAMP_UP, STEADY, PEAKING, RAMP_DOWN, STEADY_AGAIN}
  }

  lemma ClosedInPhase(p: Phase, t: real)
    requires InProfile(p) && p.start <= t <= p.end
    ensures Closed(t) == DueBefore(p.start) + Area(t - p.start, p.rate, p.slope)
  {
    RisingArea(t);
    FlatArea(t - p.start, 330.0);
    FlatArea(t - 300.0, 1000.0);
    FallingArea(t - 330.0);
  }

  /** Within a phase the growth is the trapezoid under the phase's rate, which is the
      target rate except at the end of the phase, where it is the rate approached. */
  lemma GrowthIsTrapezoid(p: Phase, s: real, t: real)
    requires InProfile(p) && p.start <= s <= t <= p.end
    ensures Closed(t) - Closed(s) == (t - s) * (p.RateAt(s) + p.RateAt(t)) / 2.0
  {
    var before, after := Area(s - p.start, p.rate, p.slope), Area(t - p.start, p.rate, p.slope);
    Trapezoid(p.rate, p.slope, s - p.start, t - p.start, t - s, p.RateAt(s), p.RateAt(t));
    GrowthInPhase(p, s, t, before, after);
  }

  lemma GrowthInPhase(p: Phase, s: real, t: real, before: real, after: real)
    requires InProfile(p) && p.start <= s <= t <= p.end
    requires before == Area(s - p.start, p.rate, p.slope) && after == Area(t - p.start, p.rate, p.slope)
    ensures Closed(t) - Closed(s) == after - before
  {
    ClosedInPhase(p, s);
    ClosedInPhase(p, t);
  }

  ghost predicate GrowsBetween(f: real -> real, rate: real, s: real, t: real) {
    f(s) <= f(t) <= f(s) + rate * (t - s)
  }

  /** Never decreasing, and never growing by more than `rate` per second. */
  ghost predicate Steady(f: real -> real, rate: real) {
    forall s, t :: s <= t ==> GrowsBetween(f, rate, s, t)
  }

  function Slots(perTask: real): real -> real
    requires perTask > 0.0
  {
    t => Cumulative(perTask, t)
  }

  lemma SlotsGrow(perTask: real, rate: real, s: real, t: real)
    requires perTask > 0.0 && rate == 1000.0 / perTask && s <= t
    ensures GrowsBetween(Slots(perTask), rate, s, t)
  {
    CumulativeGrows(perTask, rate, s, t);
  }

  lemma SlotsAreSteady(perTask: real)
    requires perTask > 0.0
    ensures Steady(Slots(perTask), 1000.0 / perTask)
    ensures Slots(perTask)(0.0) == 0.0 && Slots(perTask)(DURATION) == 158850.0 / perTask
  {
    var f, rate := Slots(perTask), 1000.0 / perTask;
    forall s, t | s <= t
      ensures GrowsBetween(f, rate, s, t)
    {
      SlotsGrow(perTask, rate, s, t);
    }
    CumulativeEnds(perTask, 0.0);
    CumulativeEnds(perTask, DURATION);
  }

  /** The profile in figures: the rate at its landmarks, and the requests due by them. */
  lemma Landmarks()
    ensures TargetRps(-1.0) == 0.0 && TargetRps(0.0) == 0.0 && TargetRps(90.0) == 165.0 && TargetRps(180.0) == 330.0
    ensures TargetRps(299.0) == 330.0 && TargetRps(300.0) == 1000.0 && TargetRps(329.0) == 1000.0
    ensures TargetRps(330.0) == 1000.0 && TargetRps(345.0) == 665.0 && TargetRps(360.0) == 330.0
    ensures TargetRps(479.0) == 330.0 && TargetRps(480.0) == 0.0
    ensures Closed(0.0) == 0.0 && Closed(180.0) == 29700.0 && Closed(300.0) == 69300.0
    ensures Closed(330.0) == 99300.0 && Closed(360.0) == 119250.0 && Closed(480.0) == 158850.0
  {
    var half := (1000.0 + (1000.0 - 670.0 * 1.0)) * 30.0 / 2.0;
    assert half == 19950.0;
  }

  // ----- how many users the profile needs

  function Ceil(x: real): int { -((-x).Floor) }

  function Max(a: int, b: int): int { if a >= b then a else b }

  /** Users run at the given target rate, each making `perUser` requests a second. */
  function UserCount(target: real, perUser: real, required: nat, maxUsers: nat): int
    requires perUser > 0.0 && maxUsers >= 1
  {
    var byRate := Max(1, Ceil(target / perUser));
    var wanted := Max(byRate, required);
    if wanted <= maxUsers then wanted else maxUsers
  }

  lemma EnoughUsers(target: real, perUser: real, users: int)
    requires perUser > 0.0
    ensures users as real * perUser >= target <==> users >= Ceil(target / perUser)
  {
    var needed := target / perUser;
    assert needed * perUser == target;
    var surplus := users as real - needed;
    assert surplus * perUser == users as real * perUser - target;
    assert surplus >= 0.0 <==> surplus * perUser >= 0.0;
  }

  /** No smaller count would meet both demands. */
  lemma NoFewerUsersSuffice(target: real, perUser: real, required: nat, maxUsers: nat, users: int)
    requires perUser > 0.0 && maxUsers >= 1
    requires 1 <= users < UserCount(target, perUser, required, maxUsers)
    ensures users < required || users as real * perUser < target
  {
    EnoughUsers(target, perUser, users);
  }

  /** There is always a user and never more than the cap; the required concurrency and
      the target rate are both met exactly when the cap allows them. */
  lemma UsersSuffice(target: real, perUser: real, required: nat, maxUsers: nat)
    requires perUser > 0.0 && maxUsers >= 1
    ensures
      var users := UserCount(target, perUser, required, maxUsers);
      && 1 <= users <= maxUsers
      && (users >= required <==> required <= maxUsers)
      && (users as real * perUser >= target <==> maxUsers as real * perUser >= target)
  {
    EnoughUsers(target, perUser, UserCount(target, perUser, required, maxUsers));
    EnoughUsers(target, perUser, maxUsers);
  }
}
