/** Workers running `ProcessService.process` against the Redis store: a lookup, then at
    most five rounds of WATCH, GET, callback and MULTI/EXEC, interleaved in every
    possible way with each other, with time, and with the server expiring keys. */
module RedisProtocol {
  import opened Domain
  import opened AtomicContract
  import opened Representation

  const MAX_CAS_RETRIES: nat := 5

  /** Everything that touches a key on the server, in order.  A watched key fails the
      watcher's EXEC when it was touched after the WATCH. */
  datatype Touch = Written(writer: nat, key: string) | Expired(key: string)

  /** A failed round: the part of the touch history between its WATCH and its EXEC. */
  datatype Round = Round(from: nat, to: nat)

  /** How far a call has got: what its lookup found, how often detection and masking ran
      for it, what each of its rounds read, and its failed rounds. */
  datatype Progress = Progress(missed: bool, detections: nat, readings: seq<Option<Record>>, failed: seq<Round>)

  datatype Worker =
    | Idle
    | Arrived(call: Call)
    | Trying(call: Call, p: Progress)
    | Watching(call: Call, p: Progress, from: nat)
    | Ready(call: Call, p: Progress, from: nat, seen: Option<Record>, result: Option<Record>)
    | Done(call: Call, p: Progress, reply: Reply)

  datatype State = State(
    clock: real,
    db: map<string, Stored>,
    touches: seq<Touch>,
    workers: map<nat, Worker>,
    ops: seq<Op>,
    replies: seq<Reply>)

  datatype Label =
    | Tick(now: real)
    | Expire(key: string)
    | Arrive(w: nat, call: Call)
    | LookUp(w: nat)
    | Watch(w: nat)
    | Get(w: nat)
    | Exec(w: nat)

  /** The server removes a key before any command can see it past its time. */
  predicate Fresh(s: State, key: string) {
    key in s.db ==> s.clock < s.db[key].expiresAt
  }

  predicate Touched(touches: seq<Touch>, key: string, from: nat) {
    exists i :: from <= i < |touches| && touches[i].key == key
  }

  predicate Enabled(c: Contract, s: State, l: Label) {
    match l
    case Tick(now) => s.clock <= now
    case Expire(key) => !Fresh(s, key)
    case Arrive(w, _) => w in s.workers && (s.workers[w].Idle? || s.workers[w].Done?)
    case LookUp(w) => w in s.workers && s.workers[w].Arrived? && Fresh(s, c.keyOf(s.workers[w].call))
    case Watch(w) => w in s.workers && s.workers[w].Trying? && Fresh(s, c.keyOf(s.workers[w].call))
    case Get(w) => w in s.workers && s.workers[w].Watching? && Fresh(s, c.keyOf(s.workers[w].call))
    case Exec(w) => w in s.workers && s.workers[w].Ready? && Fresh(s, c.keyOf(s.workers[w].call))
  }

  /** The worker's progress after a round has read `seen` and invoked the callback. */
  function AfterGet(p: Progress, seen: Option<Record>, invocation: Invocation): Progress {
    p.(readings := p.readings + [seen], detections := p.detections + invocation.detections)
  }

  function Log(s: State, op: Op, reply: Reply): State {
    s.(ops := s.ops + [op], replies := s.replies + [reply])
  }

  function Move(s: State, w: nat, worker: Worker): State {
    s.(workers := s.workers[w := worker])
  }

  function NextGet(c: Contract, s: State, w: nat): State
    requires Enabled(c, s, Get(w))
  {
    var me := s.workers[w];
    var seen := ValueIn(s.db, c.keyOf(me.call));
    var invocation := Invoke(c, me.call, me.p.missed, |me.p.failed|, seen);
    var p := AfterGet(me.p, seen, invocation);
    match invocation.result
    case Return(result) => Move(s, w, Ready(me.call, p, me.from, seen, result))
    case Raise(error) =>
      Log(Move(s, w, Done(me.call, p, Threw(seen, error))),
          Transition(me.call, p.missed, |p.failed|, s.clock, s.clock), Threw(seen, error))
  }

  function NextExec(c: Contract, s: State, w: nat): State
    requires Enabled(c, s, Exec(w))
  {
    var me := s.workers[w];
    var key := c.keyOf(me.call);
    if Touched(s.touches, key, me.from) then
      var p := me.p.(failed := me.p.failed + [Round(me.from, |s.touches|)]);
      if |p.failed| < MAX_CAS_RETRIES then Move(s, w, Trying(me.call, p))
      else Log(Move(s, w, Done(me.call, p, Refused)), Refusal(me.call, s.clock), Refused)
    else
      var db' := match me.result case None => s.db - {key} case Some(r) => s.db[key := Stored(s.clock + c.ttl, r)];
      Log(Move(s, w, Done(me.call, me.p, Wrote(me.seen, me.result))),
          Transition(me.call, me.p.missed, |me.p.failed|, s.clock, s.clock), Wrote(me.seen, me.result))
      .(db := db', touches := s.touches + [Written(w, key)])
  }

  function Next(c: Contract, s: State, l: Label): State
    requires Enabled(c, s, l)
  {
    match l
    case Tick(now) => s.(clock := now)
    case Expire(key) => s.(db := s.db - {key}, touches := s.touches + [Expired(key)])
    case Arrive(w, call) => Move(s, w, Arrived(call))
    case LookUp(w) =>
      var call := s.workers[w].call;
      var found := ValueIn(s.db, c.keyOf(call));
      Log(Move(s, w, Trying(call, Progress(found.None?, c.prepare(call, found.None?).detections, [], []))),
          Lookup(call, s.clock), Found(found))
    case Watch(w) => Move(s, w, Watching(s.workers[w].call, s.workers[w].p, |s.touches|))
    case Get(w) => NextGet(c, s, w)
    case Exec(w) => NextExec(c, s, w)
  }

  ghost predicate Initial(s: State) {
    && s.db == map[] && s.touches == [] && s.ops == [] && s.replies == []
    && forall w :: w in s.workers ==> s.workers[w].Idle?
  }

  // ----- refinement of the atomic contract

  /** A round nobody has disturbed still sees what is stored. */
  ghost predicate RoundOk(c: Contract, s: State, me: Worker)
    requires me.Ready?
  {
    && Invoke(c, me.call, me.p.missed, |me.p.failed|, me.seen).result == Return(me.result)
    && me.from <= |s.touches|
    && (!Touched(s.touches, c.keyOf(me.call), me.from) ==> me.seen == ValueIn(s.db, c.keyOf(me.call)))
  }

  ghost predicate RoundsOk(c: Contract, s: State) {
    forall w :: w in s.workers ==>
      && (s.workers[w].Watching? ==> s.workers[w].from <= |s.touches|)
      && (s.workers[w].Ready? ==> RoundOk(c, s, s.workers[w]))
  }

  ghost predicate Inv(c: Contract, s: State) {
    && Atomic(c, s.ops, s.replies) && Until(s.ops, s.clock)
    && Represents(CellsAfter(c, s.ops), s.db, s.clock)
    && RoundsOk(c, s)
  }

  lemma FreshIsCurrent(cells: Cells, s: State, key: string)
    requires Represents(cells, s.db, s.clock) && Fresh(s, key)
    ensures Current(cells, key, s.clock) == ValueIn(s.db, key)
  {
  }

  lemma TouchedGrows(touches: seq<Touch>, touch: Touch, key: string, from: nat)
    requires from <= |touches|
    ensures Touched(touches + [touch], key, from) <==> Touched(touches, key, from) || touch.key == key
  {
    var t := touches + [touch];
    if touch.key == key {
      assert t[|touches|].key == key;
    }
    if Touched(touches, key, from) {
      var i :| from <= i < |touches| && touches[i].key == key;
      assert t[i].key == key;
    }
  }

  /** Changing one key and recording the touch leaves undisturbed rounds right. */
  lemma TouchKeepsRound(c: Contract, s: State, s': State, touch: Touch, me: Worker)
    requires me.Ready? && RoundOk(c, s, me)
    requires s'.touches == s.touches + [touch]
    requires forall k :: k != touch.key ==> ValueIn(s'.db, k) == ValueIn(s.db, k)
    ensures RoundOk(c, s', me)
  {
    TouchedGrows(s.touches, touch, c.keyOf(me.call), me.from);
  }

  /** Rounds stay right when one worker moves and the server stays as it is. */
  lemma OneMoveKeepsRounds(c: Contract, s: State, s': State, w: nat)
    requires RoundsOk(c, s) && w in s'.workers && s'.workers == s.workers[w := s'.workers[w]]
    requires s'.db == s.db && s'.touches == s.touches
    requires s'.workers[w].Watching? ==> s'.workers[w].from <= |s.touches|
    requires s'.workers[w].Ready? ==> RoundOk(c, s', s'.workers[w])
    ensures RoundsOk(c, s')
  {
    forall u | u in s'.workers && s'.workers[u].Ready?
      ensures RoundOk(c, s', s'.workers[u])
    {
      if u != w {
        assert RoundOk(c, s, s.workers[u]);
      }
    }
  }

  lemma ExpireKeepsInv(c: Contract, s: State, key: string)
    requires Inv(c, s) && Enabled(c, s, Expire(key))
    ensures Inv(c, Next(c, s, Expire(key)))
  {
    var s' := Next(c, s, Expire(key));
    forall w | w in s'.workers && s'.workers[w].Ready?
      ensures RoundOk(c, s', s'.workers[w])
    {
      TouchKeepsRound(c, s, s', Expired(key), s.workers[w]);
    }
  }

  lemma LookUpKeepsInv(c: Contract, s: State, w: nat)
    requires Inv(c, s) && Enabled(c, s, LookUp(w))
    ensures Inv(c, Next(c, s, LookUp(w)))
  {
    FreshIsCurrent(CellsAfter(c, s.ops), s, c.keyOf(s.workers[w].call));
    ReadExtend(c, s.ops, s.replies, Lookup(s.workers[w].call, s.clock), Found(ValueIn(s.db,
      c.keyOf(s.workers[w].call))));
  }

  lemma GetKeepsRounds(c: Contract, s: State, w: nat)
    requires RoundsOk(c, s) && Enabled(c, s, Get(w))
    ensures RoundsOk(c, Next(c, s, Get(w)))
  {
    OneMoveKeepsRounds(c, s, Next(c, s, Get(w)), w);
  }

  lemma GetKeepsInv(c: Contract, s: State, w: nat)
    requires Inv(c, s) && Enabled(c, s, Get(w))
    ensures Inv(c, Next(c, s, Get(w)))
  {
    var me := s.workers[w];
    var seen := ValueIn(s.db, c.keyOf(me.call));
    FreshIsCurrent(CellsAfter(c, s.ops), s, c.keyOf(me.call));
    GetKeepsRounds(c, s, w);
    var result := Invoke(c, me.call, me.p.missed, |me.p.failed|, seen).result;
    if result.Raise? {
      ReadExtend(c, s.ops, s.replies, Transition(me.call, me.p.missed, |me.p.failed|, s.clock, s.clock),
        Threw(seen, result.error));
    }
  }

  lemma CommitKeepsRounds(c: Contract, s: State, w: nat)
    requires Inv(c, s) && Enabled(c, s, Exec(w))
    requires !Touched(s.touches, c.keyOf(s.workers[w].call), s.workers[w].from)
    ensures RoundsOk(c, Next(c, s, Exec(w)))
  {
    var s' := Next(c, s, Exec(w));
    forall u | u in s'.workers && s'.workers[u].Ready?
      ensures RoundOk(c, s', s'.workers[u])
    {
      TouchKeepsRound(c, s, s', Written(w, c.keyOf(s.workers[w].call)), s.workers[u]);
    }
  }

  lemma CommitKeepsLog(c: Contract, s: State, w: nat)
    requires Inv(c, s) && Enabled(c, s, Exec(w))
    requires !Touched(s.touches, c.keyOf(s.workers[w].call), s.workers[w].from)
    ensures
      var me, s' := s.workers[w], Next(c, s, Exec(w));
      && Atomic(c, s'.ops, s'.replies) && Until(s'.ops, s'.clock)
      && CellsAfter(c, s'.ops) == CellsAfter(c, s.ops)[c.keyOf(me.call) := Cell(me.result, s.clock + c.ttl, s.clock)]
  {
    var me := s.workers[w];
    var op := Transition(me.call, me.p.missed, |me.p.failed|, s.clock, s.clock);
    assert RoundOk(c, s, me);
    FreshIsCurrent(CellsAfter(c, s.ops), s, c.keyOf(me.call));
    WriteExtend(c, s.ops, s.replies, op, me.seen, me.result);
  }

  lemma CommitKeepsInv(c: Contract, s: State, w: nat)
    requires Inv(c, s) && Enabled(c, s, Exec(w))
    requires !Touched(s.touches, c.keyOf(s.workers[w].call), s.workers[w].from)
    ensures Inv(c, Next(c, s, Exec(w)))
  {
    var me := s.workers[w];
    CommitKeepsLog(c, s, w);
    CommitKeepsRounds(c, s, w);
    WritingKeepsRepresents(CellsAfter(c, s.ops), s.db, s.clock, c.keyOf(me.call), me.result, c.ttl, s.clock);
  }

  lemma AbortKeepsInv(c: Contract, s: State, w: nat)
    requires Inv(c, s) && Enabled(c, s, Exec(w))
    requires Touched(s.touches, c.keyOf(s.workers[w].call), s.workers[w].from)
    ensures Inv(c, Next(c, s, Exec(w)))
  {
    OneMoveKeepsRounds(c, s, Next(c, s, Exec(w)), w);
    ReadExtend(c, s.ops, s.replies, Refusal(s.workers[w].call, s.clock), Refused);
  }

  lemma ExecKeepsInv(c: Contract, s: State, w: nat)
    requires Inv(c, s) && Enabled(c, s, Exec(w))
    ensures Inv(c, Next(c, s, Exec(w)))
  {
    if Touched(s.touches, c.keyOf(s.workers[w].call), s.workers[w].from) {
      AbortKeepsInv(c, s, w);
    } else {
      CommitKeepsInv(c, s, w);
    }
  }

  lemma NextKeepsInv(c: Contract, s: State, l: Label)
    requires Inv(c, s) && Enabled(c, s, l)
    ensures Inv(c, Next(c, s, l))
  {
    match l
    case Tick(now) =>
    case Expire(key) => ExpireKeepsInv(c, s, key);
    case Arrive(w, call) =>
    case LookUp(w) => LookUpKeepsInv(c, s, w);
    case Watch(w) =>
    case Get(w) => GetKeepsInv(c, s, w);
    case Exec(w) => ExecKeepsInv(c, s, w);
  }

  ghost predicate Execution(c: Contract, states: seq<State>, labels: seq<Label>) {
    && |states| == |labels| + 1
    && Initial(states[0])
    && forall i :: 0 <= i < |labels| ==>
         && Enabled(c, states[i], labels[i])
         && states[i + 1] == Next(c, states[i], labels[i])
  }

  /** The optimistic store gives the answers of the same atomic contract as the
      in-memory one. */
  lemma {:induction false} RefinesContract(c: Contract, states: seq<State>, labels: seq<Label>, n: nat)
    requires Execution(c, states, labels) && n < |states|
    ensures Inv(c, states[n])
  {
    if n > 0 {
      RefinesContract(c, states, labels, n - 1);
      NextKeepsInv(c, states[n - 1], labels[n - 1]);
    }
  }

  /** A successful EXEC applies the callback to the value stored at that very instant
      and touches no other key. */
  lemma ExecIsAtomic(c: Contract, states: seq<State>, labels: seq<Label>, n: nat, w: nat)
    requires Execution(c, states, labels) && n < |labels|
    requires labels[n] == Exec(w) && states[n + 1].workers[w].Done? && states[n + 1].workers[w].reply.Wrote?
    ensures
      var before, after := states[n], states[n + 1];
      var me := before.workers[w];
      var key := c.keyOf(me.call);
      && Invoke(c, me.call, me.p.missed, |me.p.failed|, ValueIn(before.db, key)).result
        == Return(ValueIn(after.db, key))
      && (key in after.db ==> after.db[key].expiresAt == before.clock + c.ttl)
      && after.db - {key} == before.db - {key}
  {
    RefinesContract(c, states, labels, n);
    assert RoundOk(c, states[n], states[n].workers[w]);
  }

  /** Only a successful EXEC writes; a call that raises, for whatever reason, never does. */
  lemma OnlyExecWrites(c: Contract, s: State, l: Label)
    requires Enabled(c, s, l)
    ensures
      var s' := Next(c, s, l);
      && (forall k :: k in s'.db && (k !in s.db || s'.db[k] != s.db[k]) ==>
            l.Exec? && s'.workers[l.w].Done? && s'.workers[l.w].reply.Wrote? && k == c.keyOf(s.workers[l.w].call))
      && (forall k :: k in s.db && k !in s'.db ==>
            (l == Expire(k) && s.db[k].expiresAt <= s.clock)
            || (l.Exec? && s'.workers[l.w].Done? && s'.workers[l.w].reply.Wrote? && k == c.keyOf(s.workers[l.w].call)))
  {
  }
}
