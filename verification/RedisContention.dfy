/** What a call to the Redis store costs under contention. */
module RedisContention {
  import opened Domain
  import opened AtomicContract
  import opened ProcessRules
  import opened RedisProtocol
  import opened Representation

  function AbsentIn(readings: seq<Option<Record>>): nat {
    if readings == [] then 0
    else AbsentIn(readings[..|readings| - 1]) + if readings[|readings| - 1].None? then 1 else 0
  }

  /** How often the callback ran detection, by its own report, over attempts that read
      `readings`. */
  function Runs(c: Contract, call: Call, missed: bool, readings: seq<Option<Record>>): nat {
    if readings == [] then 0
    else
      var last := |readings| - 1;
      Runs(c, call, missed, readings[..last]) + Invoke(c, call, missed, last, readings[last]).detections
  }

  /** The service's callback runs detection exactly when it is handed nothing and finds
      nothing, in each attempt afresh. */
  lemma {:induction false} RunsOfService(ttl: real, hash: string -> string, digest: string -> string, call: Call,
                                         missed: bool, readings: seq<Option<Record>>)
    ensures Runs(Service(ttl, hash, digest), call, missed, readings) == if missed then 0 else AbsentIn(readings)
  {
    if readings != [] {
      RunsOfService(ttl, hash, digest, call, missed, readings[..|readings| - 1]);
    }
  }

  /** During the round somebody else wrote the key, or it expired. */
  ghost predicate Disturbed(touches: seq<Touch>, key: string, w: nat, r: Round) {
    exists i :: r.from <= i < r.to && i < |touches| && ByOther(touches[i], key, w)
  }

  predicate ByOther(touch: Touch, key: string, w: nat) {
    touch.key == key && (touch.Written? ==> touch.writer != w)
  }

  /** The rounds follow one another and each was disturbed. */
  ghost predicate AllDisturbed(touches: seq<Touch>, key: string, w: nat, failed: seq<Round>, end: nat) {
    && (forall i :: 0 <= i < |failed| ==> Disturbed(touches, key, w, failed[i]) && failed[i].to <= end)
    && (forall i, j :: 0 <= i < j < |failed| ==> failed[i].to <= failed[j].from)
  }

  ghost predicate QuietSince(touches: seq<Touch>, w: nat, from: nat) {
    forall i :: from <= i < |touches| ==> touches[i].Written? ==> touches[i].writer != w
  }

  ghost predicate Accounted(touches: seq<Touch>, c: Contract, w: nat, me: Worker) {
    me.Idle? || me.Arrived? ||
    (
      var p, key := me.p, c.keyOf(me.call);
      && p.detections == c.prepare(me.call, p.missed).detections + Runs(c, me.call, p.missed, p.readings)
      && AllDisturbed(touches, key, w, p.failed, if me.Watching? || me.Ready? then me.from else |touches|)
      && (me.Trying? ==> |p.readings| == |p.failed| < MAX_CAS_RETRIES)
      && (me.Watching? ==> |p.readings| == |p.failed| < MAX_CAS_RETRIES)
      && (me.Watching? || me.Ready? ==> me.from <= |touches| && QuietSince(touches, w, me.from))
      && (me.Ready? ==> |p.readings| == |p.failed| + 1 <= MAX_CAS_RETRIES)
      && (me.Done? ==> if me.reply.Refused? then |p.readings| == |p.failed| == MAX_CAS_RETRIES
                       else |p.readings| == |p.failed| + 1 <= MAX_CAS_RETRIES)
    )
  }

  ghost predicate Inv(c: Contract, s: State) {
    forall w :: w in s.workers ==> Accounted(s.touches, c, w, s.workers[w])
  }

  lemma DisturbedStays(touches: seq<Touch>, touch: Touch, key: string, w: nat, r: Round)
    requires Disturbed(touches, key, w, r)
    ensures Disturbed(touches + [touch], key, w, r)
  {
    var i :| r.from <= i < r.to && i < |touches| && ByOther(touches[i], key, w);
    assert (touches + [touch])[i] == touches[i];
  }

  /** A touch by anyone but the worker itself keeps its accounts. */
  lemma TouchKeepsAccounts(touches: seq<Touch>, touch: Touch, c: Contract, w: nat, me: Worker)
    requires Accounted(touches, c, w, me)
    requires (touch.Written? && touch.writer == w) ==> !me.Watching? && !me.Ready?
    ensures Accounted(touches + [touch], c, w, me)
  {
    if !me.Idle? && !me.Arrived? {
      forall i | 0 <= i < |me.p.failed|
        ensures Disturbed(touches + [touch], c.keyOf(me.call), w, me.p.failed[i])
      {
        DisturbedStays(touches, touch, c.keyOf(me.call), w, me.p.failed[i]);
      }
    }
  }

  lemma ExpireKeepsInv(c: Contract, s: State, key: string)
    requires Inv(c, s) && Enabled(c, s, Expire(key))
    ensures Inv(c, Next(c, s, Expire(key)))
  {
    forall w | w in s.workers
      ensures Accounted(s.touches + [Expired(key)], c, w, s.workers[w])
    {
      TouchKeepsAccounts(s.touches, Expired(key), c, w, s.workers[w]);
    }
  }

  lemma GetKeepsInv(c: Contract, s: State, w: nat)
    requires Inv(c, s) && Enabled(c, s, Get(w))
    ensures Inv(c, Next(c, s, Get(w)))
  {
    var me := s.workers[w];
    var seen := ValueIn(s.db, c.keyOf(me.call));
    assert Accounted(s.touches, c, w, me);
    assert (me.p.readings + [seen])[..|me.p.readings|] == me.p.readings;
  }

  lemma AbortKeepsInv(c: Contract, s: State, w: nat)
    requires Inv(c, s) && Enabled(c, s, Exec(w))
    requires Touched(s.touches, c.keyOf(s.workers[w].call), s.workers[w].from)
    ensures Inv(c, Next(c, s, Exec(w)))
  {
    var me := s.workers[w];
    var key := c.keyOf(me.call);
    assert Accounted(s.touches, c, w, me);
    var i :| me.from <= i < |s.touches| && s.touches[i].key == key;
    assert ByOther(s.touches[i], key, w);
    assert Disturbed(s.touches, key, w, Round(me.from, |s.touches|));
    assert AllDisturbed(s.touches, key, w, me.p.failed + [Round(me.from, |s.touches|)], |s.touches|);
  }

  lemma CommitKeepsInv(c: Contract, s: State, w: nat)
    requires Inv(c, s) && Enabled(c, s, Exec(w))
    requires !Touched(s.touches, c.keyOf(s.workers[w].call), s.workers[w].from)
    ensures Inv(c, Next(c, s, Exec(w)))
  {
    var me := s.workers[w];
    var touch := Written(w, c.keyOf(me.call));
    var s' := Next(c, s, Exec(w));
    forall u | u in s'.workers
      ensures Accounted(s'.touches, c, u, s'.workers[u])
    {
      if u == w {
        assert Accounted(s.touches, c, w, Done(me.call, me.p, Wrote(me.seen, me.result)));
      }
      TouchKeepsAccounts(s.touches, touch, c, u, s'.workers[u]);
    }
  }

  lemma NextKeepsInv(c: Contract, s: State, l: Label)
    requires Inv(c, s) && Enabled(c, s, l)
    ensures Inv(c, Next(c, s, l))
  {
    match l
    case Tick(now) =>
    case Expire(key) => ExpireKeepsInv(c, s, key);
    case Arrive(w, call) =>
    case LookUp(w) =>
      assert forall u :: u in s.workers ==> Accounted(s.touches, c, u, s.workers[u]);
    case Watch(w) =>
      assert Accounted(s.touches, c, w, s.workers[w]);
    case Get(w) => GetKeepsInv(c, s, w);
    case Exec(w) =>
      if Touched(s.touches, c.keyOf(s.workers[w].call), s.workers[w].from) {
        AbortKeepsInv(c, s, w);
      } else {
        CommitKeepsInv(c, s, w);
      }
  }

  lemma {:induction false} AlwaysAccounted(c: Contract, states: seq<State>, labels: seq<Label>, n: nat)
    requires Execution(c, states, labels) && n < |states|
    ensures Inv(c, states[n])
  {
    if n > 0 {
      AlwaysAccounted(c, states, labels, n - 1);
      NextKeepsInv(c, states[n - 1], labels[n - 1]);
    }
  }

  /** In each of the five failed rounds of worker `w`, which follow one another, somebody
      else wrote the key of its call or the key expired: touch `at[i]` fell into round `i`. */
  ghost predicate DisturbedInEveryRound(c: Contract, touches: seq<Touch>, w: nat, me: Worker, at: seq<nat>)
    requires me.Done?
  {
    && |me.p.failed| == |me.p.readings| == |at| == 5
    && (forall i :: 0 <= i < 5 ==> me.p.failed[i].from <= at[i] < me.p.failed[i].to)
    && (forall i :: 0 <= i < 5 ==> at[i] < |touches| && ByOther(touches[at[i]], c.keyOf(me.call), w))
    && (forall i, j :: 0 <= i < j < 5 ==> me.p.failed[i].to <= me.p.failed[j].from)
  }

  /** A call told that the service is overloaded made exactly five attempts, and between
      the WATCH and the EXEC of each somebody else touched its key. */
  lemma OverloadIsEarned(c: Contract, states: seq<State>, labels: seq<Label>, n: nat, w: nat) returns (at: seq<nat>)
    requires Execution(c, states, labels) && n < |states|
    requires w in states[n].workers && states[n].workers[w].Done? && states[n].workers[w].reply.Refused?
    ensures DisturbedInEveryRound(c, states[n].touches, w, states[n].workers[w], at)
  {
    AlwaysAccounted(c, states, labels, n);
    var touches, me := states[n].touches, states[n].workers[w];
    assert Accounted(touches, c, w, me);
    at := DisturbancesOf(touches, c.keyOf(me.call), w, me.p.failed, |touches|);
  }

  /** Step `b` is the EXEC with which worker `w` was refused, for operation `op` of the log,
      after a touch of its key by somebody else in each of its own five rounds. */
  ghost predicate RefusedAt(c: Contract, s: State, l: Label, s': State, op: Op, w: nat, at: seq<nat>) {
    && l == Exec(w) && s'.ops == s.ops + [op] && s'.replies == s.replies + [Refused]
    && w in s'.workers && s'.workers[w].Done? && s'.workers[w].reply.Refused?
      && op == Refusal(s'.workers[w].call, s.clock)
    && DisturbedInEveryRound(c, s'.touches, w, s'.workers[w], at)
  }

  /** Step `b` of the execution logged operation `op`, the `j`-th, in that way. */
  ghost predicate LoggedAsRefused(c: Contract, states: seq<State>, labels: seq<Label>, op: Op, j: nat,
                                  b: nat, w: nat, at: seq<nat>)
  {
    && |states| == |labels| + 1 && b < |labels| && |states[b].ops| == j
    && RefusedAt(c, states[b], labels[b], states[b + 1], op, w, at)
  }

  /** A step logs at most one operation, a refusal only for a worker that is told so. */
  lemma StepLogs(c: Contract, s: State, l: Label)
    requires Enabled(c, s, l)
    ensures
      var s' := Next(c, s, l);
      s'.ops == s.ops || exists op :: s'.ops == s.ops + [op] && (op.Refusal? ==> TurnedAway(s, l, s', op))
  {
    var s' := Next(c, s, l);
    if s'.ops != s.ops {
      assert s'.ops == s.ops + [s'.ops[|s.ops|]];
    }
  }

  ghost predicate TurnedAway(s: State, l: Label, s': State, op: Op) {
    && l.Exec? && l.w in s'.workers && s'.workers[l.w].Done? && s'.workers[l.w].reply.Refused?
    && op == Refusal(s'.workers[l.w].call, s.clock) && s'.replies == s.replies + [Refused]
  }

  /** Every refusal in the log was earned in the same way, by the refused call itself: there
      is the step at which it was logged, and the call's own five disturbed rounds. */
  lemma {:induction false} RefusalsAreEarned(c: Contract, states: seq<State>, labels: seq<Label>, n: nat, j: nat)
    returns (b: nat, w: nat, at: seq<nat>)
    requires Execution(c, states, labels) && n < |states|
    requires j < |states[n].ops| && states[n].ops[j].Refusal?
    ensures b < n && |states[b].ops| == j
    ensures RefusedAt(c, states[b], labels[b], states[b + 1], states[n].ops[j], w, at)
  {
    b, w, at := 0, 0, [];
    if n > 0 {
      var s := states[n - 1];
      StepLogs(c, s, labels[n - 1]);
      if j < |s.ops| {
        b, w, at := RefusalsAreEarned(c, states, labels, n - 1, j);
      } else {
        b, w := n - 1, labels[n - 1].w;
        at := OverloadIsEarned(c, states, labels, n, w);
      }
    }
  }

  lemma {:induction false} DisturbancesOf(touches: seq<Touch>, key: string, w: nat, failed: seq<Round>, end: nat)
    returns (at: seq<nat>)
    requires AllDisturbed(touches, key, w, failed, end)
    ensures |at| == |failed|
    ensures forall i :: 0 <= i < |at| ==>
              failed[i].from <= at[i] < failed[i].to && at[i] < |touches| && ByOther(touches[at[i]], key, w)
    ensures forall i, j :: 0 <= i < j < |at| ==> at[i] < at[j]
  {
    at := [];
    if failed != [] {
      var last := |failed| - 1;
      var front := DisturbancesOf(touches, key, w, failed[..last], end);
      assert Disturbed(touches, key, w, failed[last]);
      var i :| failed[last].from <= i < failed[last].to && i < |touches| && ByOther(touches[i], key, w);
      at := front + [i];
    }
  }

  /** Detection and masking run once for a call whose lookup missed, and otherwise once
      for every attempt that read the key as absent: at most five times in all. */
  lemma DetectionCost(ttl: real, hash: string -> string, digest: string -> string, states: seq<State>,
                      labels: seq<Label>, n: nat, w: nat)
    requires Execution(Service(ttl, hash, digest), states, labels) && n < |states|
    requires w in states[n].workers && states[n].workers[w].Done?
    ensures
      var p := states[n].workers[w].p;
      && p.detections == (if p.missed then 1 else AbsentIn(p.readings))
      && p.detections <= |p.readings| <= 5
      && (p.detections > 1 ==> !p.missed && p.failed != [])
  {
    var c := Service(ttl, hash, digest);
    AlwaysAccounted(c, states, labels, n);
    var me := states[n].workers[w];
    assert Accounted(states[n].touches, c, w, me);
    RunsOfService(ttl, hash, digest, me.call, me.p.missed, me.p.readings);
    AbsentBound(me.p.readings);
  }

  lemma AbsentBound(readings: seq<Option<Record>>)
    ensures AbsentIn(readings) <= |readings|
  {
  }
}
