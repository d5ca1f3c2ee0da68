/** Every call of the interleaved Redis machine is one execution of the store's own loop:
    what the other workers and the clock did to the server between its commands is what
    the loop was disturbed by. */
module RedisCalls {
  import opened Domain
  import opened AtomicContract
  import opened Representation
  import opened RedisProtocol
  import opened RedisStore

  type Callback = (nat, Option<Record>) -> CallbackResult

  // ----- what one step does to the server

  function ChangesOf(c: Contract, s: State, l: Label): seq<Change>
    requires Enabled(c, s, l)
  {
    match l
    case Expire(key) => [Change(Expired(key), None)]
    case Exec(w) =>
      var me := s.workers[w];
      if Touched(s.touches, c.keyOf(me.call), me.from) then []
      else [Change(Written(w, c.keyOf(me.call)), AsStored(me.result, s.clock + c.ttl))]
    case _ => []
  }

  lemma StepChanges(c: Contract, s: State, l: Label)
    requires Enabled(c, s, l)
    ensures Next(c, s, l).db == Changed(s.db, ChangesOf(c, s, l))
    ensures Next(c, s, l).touches == s.touches + TouchesOf(ChangesOf(c, s, l))
  {
    var changes := ChangesOf(c, s, l);
    if changes != [] {
      assert changes[..0] == [];
    }
  }

  // ----- rounds

  function Calm(): Interference { Interference([], [], [], 0.0) }

  /** The rounds in order, and calm after them. */
  function OthersOf(rounds: seq<Interference>): nat -> Interference {
    (i: nat) => if i < |rounds| then rounds[i] else Calm()
  }

  function SeenIn(db: Db, r: Interference): Db { Changed(Changed(db, r.beforeWatch), r.beforeGet) }

  function DbAfter(db: Db, rounds: seq<Interference>): Db {
    if rounds == [] then db
    else
      var last := rounds[|rounds| - 1];
      Changed(SeenIn(DbAfter(db, rounds[..|rounds| - 1]), last), last.beforeExec)
  }

  /** Everything others did in the rounds, in order. */
  function Flat(rounds: seq<Interference>): seq<Change> {
    if rounds == [] then []
    else
      var last := rounds[|rounds| - 1];
      Flat(rounds[..|rounds| - 1]) + last.beforeWatch + last.beforeGet + last.beforeExec
  }

  lemma FlatNext(rounds: seq<Interference>, r: Interference)
    ensures Flat(rounds + [r]) == Flat(rounds) + r.beforeWatch + r.beforeGet + r.beforeExec
  {
    assert (rounds + [r])[..|rounds|] == rounds;
  }

  /** In each of the rounds the callback returned and the key was disturbed. */
  predicate LostRounds(db: Db, key: string, fn: Callback, rounds: seq<Interference>) {
    rounds == [] ||
    (
      var front, last := rounds[..|rounds| - 1], rounds[|rounds| - 1];
      && LostRounds(db, key, fn, front)
      && fn(|front|, ValueIn(SeenIn(DbAfter(db, front), last), key)).Return?
      && Touched(TouchesOf(last.beforeGet + last.beforeExec), key, 0)
    )
  }

  lemma {:induction false} LostAreSkipped(db: Db, key: string, fn: Callback, rounds: seq<Interference>,
                                          others: nat -> Interference, ttl: real)
    requires LostRounds(db, key, fn, rounds) && |rounds| <= MAX_CAS_RETRIES
    requires forall i: nat :: i < |rounds| ==> others(i) == rounds[i]
    ensures Attempts(db, key, fn, others, ttl, 0) == Attempts(DbAfter(db, rounds), key, fn, others, ttl, |rounds|)
  {
    if rounds != [] {
      var front := rounds[..|rounds| - 1];
      LostAreSkipped(db, key, fn, front, others, ttl);
      assert others(|front|) == rounds[|front|];
    }
  }

  // ----- following a call

  /** The rounds a call has lost, and what others did so far in its present one. */
  datatype Trace = Trace(rounds: seq<Interference>, pre: seq<Change>, mid: seq<Change>, post: seq<Change>) {
    function Present(now: real): Interference { Interference(pre, mid, post, now) }

    /** Everything others did since the call began. */
    function Story(): seq<Change> { Flat(rounds) + pre + mid + post }
  }

  predicate Active(me: Worker) { me.Trying? || me.Watching? || me.Ready? }

  ghost predicate Retraces(key: string, fn: Callback, db0: Db, me: Worker, db: Db, touches: seq<Touch>, tr: Trace)
    requires Active(me)
  {
    && |me.p.failed| == |tr.rounds| < MAX_CAS_RETRIES && LostRounds(db0, key, fn, tr.rounds)
    && db == Changed(SeenIn(DbAfter(db0, tr.rounds), tr.Present(0.0)), tr.post)
    && (me.Trying? ==> tr.mid == [] && tr.post == [])
    && (me.Watching? ==> tr.post == [])
    && (me.Watching? || me.Ready? ==>
          me.from <= |touches| && touches[me.from..] == TouchesOf(tr.mid) + TouchesOf(tr.post))
    && (me.Ready? ==>
          && me.seen == ValueIn(SeenIn(DbAfter(db0, tr.rounds), tr.Present(0.0)), key)
          && fn(|tr.rounds|, me.seen) == Return(me.result))
  }

  /** What others do is added to the part of the round the call is in. */
  function Disturb(tr: Trace, me: Worker, changes: seq<Change>): Trace {
    if me.Trying? then tr.(pre := tr.pre + changes)
    else if me.Watching? then tr.(mid := tr.mid + changes)
    else tr.(post := tr.post + changes)
  }

  lemma TouchesConcat(a: seq<Change>, b: seq<Change>)
    ensures TouchesOf(a + b) == TouchesOf(a) + TouchesOf(b)
  {
  }

  /** Three runs of changes, the last of them growing, on top of one another. */
  lemma GrowTail(db: Db, a: seq<Change>, b: seq<Change>, d: seq<Change>, changes: seq<Change>)
    ensures Changed(Changed(db, a), changes) == Changed(db, a + changes)
    ensures Changed(Changed(Changed(db, a), b), changes) == Changed(Changed(db, a), b + changes)
    ensures Changed(Changed(Changed(Changed(db, a), b), d), changes) == Changed(Changed(Changed(db, a), b), d + changes)
  {
    ChangedConcat(db, a, changes);
    ChangedConcat(Changed(db, a), b, changes);
    ChangedConcat(Changed(Changed(db, a), b), d, changes);
  }

  lemma GrowWatch(touches: seq<Touch>, from: nat, mid: seq<Change>, post: seq<Change>, changes: seq<Change>)
    requires from <= |touches| && touches[from..] == TouchesOf(mid) + TouchesOf(post)
    ensures (touches + TouchesOf(changes))[from..] == TouchesOf(mid) + TouchesOf(post + changes)
    ensures post == [] ==> (touches + TouchesOf(changes))[from..] == TouchesOf(mid + changes) + TouchesOf(post)
  {
    TouchesConcat(post, changes);
    TouchesConcat(mid, changes);
    assert (touches + TouchesOf(changes))[from..] == touches[from..] + TouchesOf(changes);
  }

  lemma OthersStep(key: string, fn: Callback, db0: Db, me: Worker, db: Db, touches: seq<Touch>, tr: Trace,
                   changes: seq<Change>)
    requires Active(me) && Retraces(key, fn, db0, me, db, touches, tr)
    ensures Retraces(key, fn, db0, me, Changed(db, changes), touches + TouchesOf(changes), Disturb(tr, me, changes))
  {
    var d := DbAfter(db0, tr.rounds);
    GrowTail(d, tr.pre, tr.mid, tr.post, changes);
    if me.Trying? {
      assert Changed(Changed(Changed(d, tr.pre), []), []) == Changed(d, tr.pre);
    } else {
      GrowWatch(touches, me.from, tr.mid, tr.post, changes);
    }
  }

  /** The watch of the machine is the watch of the loop. */
  lemma SameWatch(touches: seq<Touch>, from: nat, key: string, tr: Trace)
    requires from <= |touches| && touches[from..] == TouchesOf(tr.mid) + TouchesOf(tr.post)
    ensures Touched(touches, key, from) <==> Touched(TouchesOf(tr.mid + tr.post), key, 0)
  {
    TouchedSince(touches[..from], tr.mid, tr.post, key);
    assert touches == touches[..from] + TouchesOf(tr.mid) + TouchesOf(tr.post);
  }

  function ReturnedBy(reply: Reply): CallbackResult
    requires !reply.Found?
  {
    match reply
    case Wrote(_, state) => Return(state)
    case Threw(_, error) => Raise(error)
    case Refused => Raise(Overloaded)
  }

  /** Dealing out `story`, what others did, over the rounds of the loop, the loop comes to
      `result` and leaves `db`. */
  ghost predicate LoopEnds(key: string, fn: Callback, ttl: real, db0: Db, story: seq<Change>, db: Db,
                           result: CallbackResult)
  {
    exists rounds :: Flat(rounds) == story && Attempts(db0, key, fn, OthersOf(rounds), ttl, 0) == (db, result)
  }

  /** The callback raised: the loop ends there. */
  lemma RaiseEnds(key: string, fn: Callback, ttl: real, db0: Db, me: Worker, db: Db, touches: seq<Touch>,
                  tr: Trace, error: Error)
    requires me.Watching? && Retraces(key, fn, db0, me, db, touches, tr)
    requires fn(|tr.rounds|, ValueIn(db, key)) == Raise(error)
    ensures LoopEnds(key, fn, ttl, db0, tr.Story(), db, Raise(error))
  {
    var others := OthersOf(tr.rounds + [tr.Present(0.0)]);
    FlatNext(tr.rounds, tr.Present(0.0));
    LostAreSkipped(db0, key, fn, tr.rounds, others, ttl);
    assert others(|tr.rounds|) == tr.Present(0.0);
    assert Attempts(db0, key, fn, others, ttl, 0) == (db, Raise(error));
  }

  /** EXEC succeeded: the loop ends there. */
  lemma WriteEnds(key: string, fn: Callback, ttl: real, db0: Db, me: Worker, db: Db, touches: seq<Touch>,
                  tr: Trace, now: real)
    requires me.Ready? && Retraces(key, fn, db0, me, db, touches, tr) && !Touched(touches, key, me.from)
    ensures LoopEnds(key, fn, ttl, db0, tr.Story(), Update(db, key, AsStored(me.result, now + ttl)), Return(me.result))
  {
    var others := OthersOf(tr.rounds + [tr.Present(now)]);
    FlatNext(tr.rounds, tr.Present(now));
    LostAreSkipped(db0, key, fn, tr.rounds, others, ttl);
    assert others(|tr.rounds|) == tr.Present(now);
    SameWatch(touches, me.from, key, tr);
    assert Attempts(db0, key, fn, others, ttl, 0) == (Update(db, key, AsStored(me.result, now + ttl)),
      Return(me.result));
  }

  /** EXEC failed: one more round is lost. */
  lemma RoundIsLost(key: string, fn: Callback, db0: Db, me: Worker, db: Db, touches: seq<Touch>, tr: Trace)
    requires me.Ready? && Retraces(key, fn, db0, me, db, touches, tr) && Touched(touches, key, me.from)
    ensures LostRounds(db0, key, fn, tr.rounds + [tr.Present(0.0)]) && DbAfter(db0, tr.rounds + [tr.Present(0.0)]) == db
    ensures Flat(tr.rounds + [tr.Present(0.0)]) == tr.Story()
  {
    FlatNext(tr.rounds, tr.Present(0.0));
    var longer := tr.rounds + [tr.Present(0.0)];
    assert longer[..|tr.rounds|] == tr.rounds && longer[|longer| - 1] == tr.Present(0.0);
    SameWatch(touches, me.from, key, tr);
  }

  lemma RefusalEnds(key: string, fn: Callback, ttl: real, db0: Db, rounds: seq<Interference>)
    requires |rounds| == MAX_CAS_RETRIES && LostRounds(db0, key, fn, rounds)
    ensures LoopEnds(key, fn, ttl, db0, Flat(rounds), DbAfter(db0, rounds), Raise(Overloaded))
  {
    var others := OthersOf(rounds);
    LostAreSkipped(db0, key, fn, rounds, others, ttl);
    assert Attempts(db0, key, fn, others, ttl, 0) == (DbAfter(db0, rounds), Raise(Overloaded));
  }

  // ----- whole executions

  /** The callback of the call, which its lookup left with `missed`. */
  function CallbackOf(c: Contract, call: Call, missed: bool): Callback {
    (i: nat, current: Option<Record>) => Invoke(c, call, missed, i, current).result
  }

  /** Worker `w` is in the middle of `call`, and `tr` is its story so far. */
  ghost predicate Midway(c: Contract, call: Call, missed: bool, db0: Db, story: seq<Change>, s: State, w: nat,
                         tr: Trace)
  {
    && w in s.workers && Active(s.workers[w]) && s.workers[w].call == call && s.workers[w].p.missed == missed
    && tr.Story() == story
    && Retraces(c.keyOf(call), CallbackOf(c, call, missed), db0, s.workers[w], s.db, s.touches, tr)
  }

  /** Worker `w` has just finished it, as the loop does. */
  ghost predicate Ended(c: Contract, call: Call, missed: bool, db0: Db, story: seq<Change>, s: State, w: nat) {
    && w in s.workers && s.workers[w].Done? && s.workers[w].call == call && !s.workers[w].reply.Found?
    && LoopEnds(c.keyOf(call), CallbackOf(c, call, missed), c.ttl, db0, story, s.db, ReturnedBy(s.workers[w].reply))
  }

  predicate ActsFor(l: Label, w: nat) {
    match l
    case Tick(_) => false
    case Expire(_) => false
    case Arrive(u, _) => u == w
    case LookUp(u) => u == w
    case Watch(u) => u == w
    case Get(u) => u == w
    case Exec(u) => u == w
  }

  lemma DisturbStory(tr: Trace, me: Worker, changes: seq<Change>)
    requires (me.Trying? ==> tr.mid == [] && tr.post == []) && (me.Watching? ==> tr.post == [])
    ensures Disturb(tr, me, changes).Story() == tr.Story() + changes
  {
  }

  /** What a step adds to the story of worker `w`: its own changes do not count. */
  function ByOthers(c: Contract, s: State, l: Label, w: nat): seq<Change>
    requires Enabled(c, s, l)
  {
    if ActsFor(l, w) then [] else ChangesOf(c, s, l)
  }

  lemma StepOfOthers(c: Contract, call: Call, missed: bool, db0: Db, story: seq<Change>, s: State, l: Label,
                     w: nat, tr: Trace)
    returns (tr': Trace)
    requires Midway(c, call, missed, db0, story, s, w, tr) && Enabled(c, s, l) && !ActsFor(l, w)
    ensures Midway(c, call, missed, db0, story + ChangesOf(c, s, l), Next(c, s, l), w, tr')
  {
    var me, changes := s.workers[w], ChangesOf(c, s, l);
    StepChanges(c, s, l);
    assert Next(c, s, l).workers[w] == me;
    tr' := Disturb(tr, me, changes);
    DisturbStory(tr, me, changes);
    OthersStep(c.keyOf(call), CallbackOf(c, call, missed), db0, me, s.db, s.touches, tr, changes);
  }

  lemma StepWatch(c: Contract, call: Call, missed: bool, db0: Db, story: seq<Change>, s: State, w: nat, tr: Trace)
    requires Midway(c, call, missed, db0, story, s, w, tr) && Enabled(c, s, Watch(w))
    ensures Midway(c, call, missed, db0, story, Next(c, s, Watch(w)), w, tr)
  {
  }

  lemma StepGet(c: Contract, call: Call, missed: bool, db0: Db, story: seq<Change>, s: State, w: nat, tr: Trace)
    requires Midway(c, call, missed, db0, story, s, w, tr) && Enabled(c, s, Get(w))
    ensures var s' := Next(c, s, Get(w));
            Midway(c, call, missed, db0, story, s', w, tr) || Ended(c, call, missed, db0, story, s', w)
  {
    var me, key, fn := s.workers[w], c.keyOf(call), CallbackOf(c, call, missed);
    var seen := ValueIn(s.db, key);
    assert ValueIn(s.db, key) == seen && Changed(s.db, []) == s.db;
    match fn(|tr.rounds|, seen)
    case Raise(error) => RaiseEnds(key, fn, c.ttl, db0, me, s.db, s.touches, tr, error);
    case Return(_) =>
  }

  lemma StepFailedExec(c: Contract, call: Call, missed: bool, db0: Db, story: seq<Change>, s: State, w: nat,
                       tr: Trace)
    returns (tr': Trace)
    requires Midway(c, call, missed, db0, story, s, w, tr) && Enabled(c, s, Exec(w))
    requires Touched(s.touches, c.keyOf(call), s.workers[w].from)
    ensures var s' := Next(c, s, Exec(w));
            Midway(c, call, missed, db0, story, s', w, tr') || Ended(c, call, missed, db0, story, s', w)
  {
    var me, key, fn := s.workers[w], c.keyOf(call), CallbackOf(c, call, missed);
    RoundIsLost(key, fn, db0, me, s.db, s.touches, tr);
    tr' := Trace(tr.rounds + [tr.Present(0.0)], [], [], []);
    if |tr'.rounds| == MAX_CAS_RETRIES {
      RefusalEnds(key, fn, c.ttl, db0, tr'.rounds);
    }
  }

  lemma StepDoneExec(c: Contract, call: Call, missed: bool, db0: Db, story: seq<Change>, s: State, w: nat, tr: Trace)
    requires Midway(c, call, missed, db0, story, s, w, tr) && Enabled(c, s, Exec(w))
    requires !Touched(s.touches, c.keyOf(call), s.workers[w].from)
    ensures Ended(c, call, missed, db0, story, Next(c, s, Exec(w)), w)
  {
    var me, key, fn, s' := s.workers[w], c.keyOf(call), CallbackOf(c, call, missed), Next(c, s, Exec(w));
    WriteEnds(key, fn, c.ttl, db0, me, s.db, s.touches, tr, s.clock);
    assert s'.db == Update(s.db, key, AsStored(me.result, s.clock + c.ttl));
  }

  lemma StepExec(c: Contract, call: Call, missed: bool, db0: Db, story: seq<Change>, s: State, w: nat, tr: Trace)
    returns (tr': Trace)
    requires Midway(c, call, missed, db0, story, s, w, tr) && Enabled(c, s, Exec(w))
    ensures var s' := Next(c, s, Exec(w));
            Midway(c, call, missed, db0, story, s', w, tr') || Ended(c, call, missed, db0, story, s', w)
  {
    tr' := tr;
    if Touched(s.touches, c.keyOf(call), s.workers[w].from) {
      tr' := StepFailedExec(c, call, missed, db0, story, s, w, tr);
    } else {
      StepDoneExec(c, call, missed, db0, story, s, w, tr);
    }
  }

  lemma AnyStep(c: Contract, call: Call, missed: bool, db0: Db, story: seq<Change>, s: State, l: Label, w: nat,
                tr: Trace)
    returns (tr': Trace)
    requires Midway(c, call, missed, db0, story, s, w, tr) && Enabled(c, s, l)
    ensures
      var s', story' := Next(c, s, l), story + ByOthers(c, s, l, w);
      Midway(c, call, missed, db0, story', s', w, tr') || Ended(c, call, missed, db0, story', s', w)
  {
    tr' := tr;
    if !ActsFor(l, w) {
      tr' := StepOfOthers(c, call, missed, db0, story, s, l, w, tr);
    } else if l.Watch? {
      StepWatch(c, call, missed, db0, story, s, w, tr);
    } else if l.Get? {
      StepGet(c, call, missed, db0, story, s, w, tr);
    } else {
      tr' := StepExec(c, call, missed, db0, story, s, w, tr);
    }
  }

  /** What others did to the server in steps `a` to `n - 1`, in order. */
  ghost function StoryOf(c: Contract, states: seq<State>, labels: seq<Label>, a: nat, n: nat, w: nat): seq<Change>
    requires Execution(c, states, labels) && a <= n < |states|
  {
    if a == n then []
    else StoryOf(c, states, labels, a, n - 1, w) + ByOthers(c, states[n - 1], labels[n - 1], w)
  }

  lemma Begins(c: Contract, s: State, w: nat)
    requires Enabled(c, s, LookUp(w))
    ensures
      var call := s.workers[w].call;
      Midway(c, call, ValueIn(s.db, c.keyOf(call)).None?, s.db, [], Next(c, s, LookUp(w)), w, Trace([], [], [], []))
  {
    assert Changed(s.db, []) == s.db;
  }

  /** Where a call stands that has begun. */
  ghost predicate Stands(c: Contract, call: Call, missed: bool, db0: Db, story: seq<Change>, s: State, w: nat,
                         tr: Trace)
  {
    Midway(c, call, missed, db0, story, s, w, tr) || Ended(c, call, missed, db0, story, s, w)
  }

  lemma StandsAfter(c: Contract, call: Call, missed: bool, db0: Db, story: seq<Change>, s: State, l: Label, w: nat,
                    tr: Trace)
    returns (tr': Trace)
    requires Stands(c, call, missed, db0, story, s, w, tr) && Enabled(c, s, l) && w in s.workers && !s.workers[w].Done?
    ensures Stands(c, call, missed, db0, story + ByOthers(c, s, l, w), Next(c, s, l), w, tr')
  {
    tr' := AnyStep(c, call, missed, db0, story, s, l, w, tr);
  }

  /** Worker `w` looked up at step `a` and has not finished before step `n`. */
  lemma {:induction false} Underway(c: Contract, states: seq<State>, labels: seq<Label>, a: nat, n: nat, w: nat,
                                    call: Call, missed: bool, db0: Db) returns (tr: Trace)
    requires Execution(c, states, labels) && a < n < |states| && labels[a] == LookUp(w)
    requires forall m :: a < m < n ==> w in states[m].workers && !states[m].workers[w].Done?
    requires w in states[a].workers && states[a].workers[w].Arrived? && call == states[a].workers[w].call
    requires db0 == states[a].db && missed == ValueIn(states[a].db, c.keyOf(call)).None?
    ensures Stands(c, call, missed, db0, StoryOf(c, states, labels, a, n, w), states[n], w, tr)
  {
    if n == a + 1 {
      tr := Trace([], [], [], []);
      Begins(c, states[a], w);
      assert StoryOf(c, states, labels, a, n, w) == [];
    } else {
      tr := Underway(c, states, labels, a, n - 1, w, call, missed, db0);
      tr := StandsAfter(c, call, missed, db0, StoryOf(c, states, labels, a, n - 1, w), states[n - 1],
        labels[n - 1], w, tr);
    }
  }

  /** From its lookup to its end, a call in any interleaving leaves the server and answers
      its caller exactly as the loop of the store, run on the server the lookup saw and
      disturbed by what the others did meanwhile, all of it and in that order. */
  lemma CallsRunTheLoop(c: Contract, states: seq<State>, labels: seq<Label>, a: nat, b: nat, w: nat)
    requires Execution(c, states, labels) && a < b < |states| && labels[a] == LookUp(w)
    requires forall m :: a < m < b ==> w in states[m].workers && !states[m].workers[w].Done?
    requires w in states[b].workers && states[b].workers[w].Done?
    ensures
      var call := states[a].workers[w].call;
      var fn := CallbackOf(c, call, ValueIn(states[a].db, c.keyOf(call)).None?);
      && !states[b].workers[w].reply.Found?
      && LoopEnds(c.keyOf(call), fn, c.ttl, states[a].db, StoryOf(c, states, labels, a, b, w), states[b].db,
        ReturnedBy(states[b].workers[w].reply))
  {
    var call := states[a].workers[w].call;
    var tr := Underway(c, states, labels, a, b, w, call, ValueIn(states[a].db, c.keyOf(call)).None?, states[a].db);
  }
}
