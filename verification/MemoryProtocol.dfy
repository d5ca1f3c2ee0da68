/** Threads running `ProcessService.process` against the in-memory store: a lookup, a
    stripe lock, a locked read phase, the callback outside the data lock, and a locked
    write phase, interleaved in every possible way with each other and with time. */
module MemoryProtocol {
  import opened Domain
  import opened AtomicContract
  import opened MemoryStore
  import opened Representation

  /** `stripeOf` is the hash that picks a key's stripe lock; it may collide. */
  datatype Config = Config(contract: Contract, maxEntries: nat, stripeOf: string -> nat)

  datatype Thread =
    | Idle
    | Arrived(call: Call)
    | LookedUp(call: Call, missed: bool)
    | Locked(call: Call, missed: bool)
    | Computing(call: Call, missed: bool, at: real, seen: Option<Record>)
    | Writing(call: Call, missed: bool, at: real, seen: Option<Record>, result: Option<Record>)
  {
    predicate HoldsStripe() { Locked? || Computing? || Writing? }
    predicate InWindow() { Computing? || Writing? }
  }

  /** `ops` and `replies` record, in order, what the store answered. */
  datatype State = State(
    clock: real,
    dict: Dict,
    threads: map<nat, Thread>,
    stripes: map<nat, nat>,
    ops: seq<Op>,
    replies: seq<Reply>)

  datatype Label =
    | Tick(now: real)
    | Arrive(t: nat, call: Call)
    | LookUp(t: nat, now: real)
    | Acquire(t: nat)
    | Read(t: nat, evictAt: real, readAt: real)
    | Compute(t: nat)
    | Write(t: nat, now: real)

  function Stripe(cfg: Config, call: Call): nat {
    cfg.stripeOf(cfg.contract.keyOf(call))
  }

  predicate Enabled(cfg: Config, s: State, l: Label) {
    match l
    case Tick(now) => s.clock <= now
    case Arrive(t, _) => t in s.threads && s.threads[t].Idle?
    case LookUp(t, now) => t in s.threads && s.threads[t].Arrived? && s.clock <= now
    case Acquire(t) => t in s.threads && s.threads[t].LookedUp? && Stripe(cfg, s.threads[t].call) !in s.stripes
    case Read(t, evictAt, readAt) => t in s.threads && s.threads[t].Locked? && s.clock <= evictAt <= readAt
    case Compute(t) => t in s.threads && s.threads[t].Computing?
    case Write(t, now) => t in s.threads && s.threads[t].Writing? && s.clock <= now
  }

  /** Thread `t` leaves `transition`: it drops its stripe, and the store has answered. */
  function Finish(cfg: Config, s: State, t: nat, op: Op, reply: Reply): State
    requires t in s.threads && s.threads[t].HoldsStripe()
  {
    s.(threads := s.threads[t := Idle],
       stripes := s.stripes - {Stripe(cfg, s.threads[t].call)},
       ops := s.ops + [op],
       replies := s.replies + [reply])
  }

  function Next(cfg: Config, s: State, l: Label): State
    requires s.dict.WellFormed() && Enabled(cfg, s, l)
  {
    match l
    case Tick(now) => s.(clock := now)
    case Arrive(t, call) => s.(threads := s.threads[t := Arrived(call)])
    case LookUp(t, now) =>
      var call := s.threads[t].call;
      var (dict', found) := Take(s.dict, cfg.contract.keyOf(call), now);
      s.(clock := now, dict := dict', threads := s.threads[t := LookedUp(call, found.None?)],
         ops := s.ops + [Lookup(call, now)], replies := s.replies + [Found(found)])
    case Acquire(t) =>
      var th := s.threads[t];
      s.(threads := s.threads[t := Locked(th.call, th.missed)], stripes := s.stripes[Stripe(cfg, th.call) := t])
    case Read(t, evictAt, readAt) =>
      var th := s.threads[t];
      var (dict', seen) := ReadPhase(s.dict, cfg.contract.keyOf(th.call), evictAt, readAt);
      s.(clock := readAt, dict := dict', threads := s.threads[t := Computing(th.call, th.missed, readAt, seen)])
    case Compute(t) =>
      var th := s.threads[t];
      (match Invoke(cfg.contract, th.call, th.missed, 0, th.seen).result
       case Return(result) => s.(threads := s.threads[t := Writing(th.call, th.missed, th.at, th.seen, result)])
       case Raise(error) => Finish(cfg, s, t, Transition(th.call, th.missed, 0, th.at, s.clock), Threw(th.seen, error)))
    case Write(t, now) =>
      var th := s.threads[t];
      (match WritePhase(s.dict, cfg.contract.keyOf(th.call), th.result, cfg.maxEntries, cfg.contract.ttl, now)
       case Some(dict') =>
         Finish(cfg, s.(clock := now, dict := dict'), t,
                Transition(th.call, th.missed, 0, th.at, now), Wrote(th.seen, th.result))
       case None =>
         Finish(cfg, s.(clock := now), t, Refusal(th.call, now), Refused))
  }

  ghost predicate Initial(s: State) {
    && s.dict == Empty && s.stripes == map[] && s.ops == [] && s.replies == []
    && forall t :: t in s.threads ==> s.threads[t].Idle?
  }

  // ----- the invariant

  ghost predicate StripesHeld(cfg: Config, s: State) {
    forall t :: t in s.threads && s.threads[t].HoldsStripe() ==>
      Stripe(cfg, s.threads[t].call) in s.stripes && s.stripes[Stripe(cfg, s.threads[t].call)] == t
  }

  /** What a thread saw in its read phase is still what the contract holds for its key. */
  ghost predicate WindowOk(cfg: Config, cells: Cells, table: map<string, Stored>, clock: real, th: Thread)
    requires th.InWindow()
  {
    var key := cfg.contract.keyOf(th.call);
    && th.at <= clock
    && th.seen == Current(cells, key, th.at)
    && (key in cells ==> cells[key].writtenAt <= th.at)
    && (key in table ==> th.at < table[key].expiresAt)
    && (th.Writing? ==> Invoke(cfg.contract, th.call, th.missed, 0, th.seen).result == Return(th.result))
  }

  ghost predicate Windows(cfg: Config, s: State) {
    var cells := CellsAfter(cfg.contract, s.ops);
    forall t :: t in s.threads && s.threads[t].InWindow() ==> WindowOk(cfg, cells, s.dict.table, s.clock, s.threads[t])
  }

  ghost predicate DictOk(cfg: Config, s: State) {
    && s.dict.WellFormed() && s.dict.Sorted() && s.dict.ExpiresBy(s.clock + cfg.contract.ttl)
    && |s.dict.order| <= cfg.maxEntries
  }

  ghost predicate Inv(cfg: Config, s: State) {
    && DictOk(cfg, s)
    && Atomic(cfg.contract, s.ops, s.replies) && Until(s.ops, s.clock)
    && Represents(CellsAfter(cfg.contract, s.ops), s.dict.table, s.clock)
    && StripesHeld(cfg, s)
    && Windows(cfg, s)
  }

  /** Other threads' keys are other keys: the stripe locks see to that. */
  lemma OtherWindowsOtherKeys(cfg: Config, s: State, t: nat, u: nat)
    requires StripesHeld(cfg, s)
    requires t in s.threads && s.threads[t].HoldsStripe() && u in s.threads && s.threads[u].HoldsStripe() && t != u
    ensures cfg.contract.keyOf(s.threads[t].call) != cfg.contract.keyOf(s.threads[u].call)
    ensures Stripe(cfg, s.threads[t].call) != Stripe(cfg, s.threads[u].call)
  {
  }

  /** A window survives when its key's cell is untouched and its key's item at most goes. */
  lemma WindowSurvives(cfg: Config, cells: Cells, table: map<string, Stored>, clock: real,
                       cells': Cells, table': map<string, Stored>, clock': real, th: Thread)
    requires th.InWindow() && WindowOk(cfg, cells, table, clock, th)
    requires clock <= clock'
    requires
      var k := cfg.contract.keyOf(th.call);
      (k in cells <==> k in cells') && (k in cells ==> cells[k] == cells'[k])
    requires var k := cfg.contract.keyOf(th.call); k in table' ==> k in table && table'[k] == table[k]
    ensures WindowOk(cfg, cells', table', clock', th)
  {
  }

  lemma LosingExpiredKeepsRepresents(cells: Cells, table: map<string, Stored>, clock: real,
                                     table': map<string, Stored>, clock': real)
    requires Represents(cells, table, clock) && clock <= clock'
    requires forall k :: k in table' ==> k in table && table'[k] == table[k]
    requires Live(table', clock') == Live(table, clock')
    ensures Represents(cells, table', clock')
  {
    forall k | k in cells && k !in table' && cells[k].value.Some?
      ensures cells[k].expiresAt <= clock'
    {
      assert k in Live(table', clock') <==> k in Live(table, clock');
    }
  }

  lemma FinishKeepsStripes(cfg: Config, s: State, t: nat, op: Op, reply: Reply)
    requires StripesHeld(cfg, s) && t in s.threads && s.threads[t].HoldsStripe()
    ensures StripesHeld(cfg, Finish(cfg, s, t, op, reply))
  {
    var s' := Finish(cfg, s, t, op, reply);
    forall u | u in s'.threads && s'.threads[u].HoldsStripe()
      ensures Stripe(cfg, s'.threads[u].call) in s'.stripes
      ensures s'.stripes[Stripe(cfg, s'.threads[u].call)] == u
    {
      OtherWindowsOtherKeys(cfg, s, t, u);
    }
  }

  lemma TickKeepsInv(cfg: Config, s: State, now: real)
    requires Inv(cfg, s) && s.clock <= now
    ensures Inv(cfg, Next(cfg, s, Tick(now)))
  {
  }

  lemma AcquireKeepsInv(cfg: Config, s: State, t: nat)
    requires Inv(cfg, s) && Enabled(cfg, s, Acquire(t))
    ensures Inv(cfg, Next(cfg, s, Acquire(t)))
  {
  }

  lemma LookUpKeepsWindows(cfg: Config, s: State, t: nat, now: real)
    requires Inv(cfg, s) && Enabled(cfg, s, LookUp(t, now))
    requires CellsAfter(cfg.contract, s.ops + [Lookup(s.threads[t].call, now)]) == CellsAfter(cfg.contract, s.ops)
    ensures Windows(cfg, Next(cfg, s, LookUp(t, now)))
  {
    var s' := Next(cfg, s, LookUp(t, now));
    var cells := CellsAfter(cfg.contract, s.ops);
    TakeIsExact(s.dict, cfg.contract.keyOf(s.threads[t].call), now);
    forall u | u in s'.threads && s'.threads[u].InWindow()
      ensures WindowOk(cfg, cells, s'.dict.table, now, s'.threads[u])
    {
      WindowSurvives(cfg, cells, s.dict.table, s.clock, cells, s'.dict.table, now, s.threads[u]);
    }
  }

  lemma LookUpKeepsInv(cfg: Config, s: State, t: nat, now: real)
    requires Inv(cfg, s) && Enabled(cfg, s, LookUp(t, now))
    ensures Inv(cfg, Next(cfg, s, LookUp(t, now)))
  {
    var call := s.threads[t].call;
    TakeIsExact(s.dict, cfg.contract.keyOf(call), now);
    var (d', found) := Take(s.dict, cfg.contract.keyOf(call), now);
    LosingExpiredKeepsRepresents(CellsAfter(cfg.contract, s.ops), s.dict.table, s.clock, d'.table, now);
    ReadExtend(cfg.contract, s.ops, s.replies, Lookup(call, now), Found(found));
    LookUpKeepsWindows(cfg, s, t, now);
  }

  /** After a read phase the key's item, if still there, is live. */
  lemma ReadPhaseDropsExpired(d: Dict, key: string, evictAt: real, readAt: real)
    requires d.WellFormed()
    ensures var d' := ReadPhase(d, key, evictAt, readAt).0;
            key in d'.table ==> readAt < d'.table[key].expiresAt
  {
  }

  lemma ReadKeepsWindows(cfg: Config, s: State, t: nat, evictAt: real, readAt: real)
    requires Inv(cfg, s) && Enabled(cfg, s, Read(t, evictAt, readAt))
    ensures Windows(cfg, Next(cfg, s, Read(t, evictAt, readAt)))
  {
    var s' := Next(cfg, s, Read(t, evictAt, readAt));
    var key := cfg.contract.keyOf(s.threads[t].call);
    var cells := CellsAfter(cfg.contract, s.ops);
    ReadPhaseIsExact(s.dict, key, evictAt, readAt);
    ReadPhaseDropsExpired(s.dict, key, evictAt, readAt);
    forall u | u in s'.threads && s'.threads[u].InWindow()
      ensures WindowOk(cfg, cells, s'.dict.table, readAt, s'.threads[u])
    {
      if u != t {
        WindowSurvives(cfg, cells, s.dict.table, s.clock, cells, s'.dict.table, readAt, s.threads[u]);
      }
    }
  }

  lemma ReadKeepsInv(cfg: Config, s: State, t: nat, evictAt: real, readAt: real)
    requires Inv(cfg, s) && Enabled(cfg, s, Read(t, evictAt, readAt))
    ensures Inv(cfg, Next(cfg, s, Read(t, evictAt, readAt)))
  {
    var s' := Next(cfg, s, Read(t, evictAt, readAt));
    ReadPhaseIsExact(s.dict, cfg.contract.keyOf(s.threads[t].call), evictAt, readAt);
    LosingExpiredKeepsRepresents(CellsAfter(cfg.contract, s.ops), s.dict.table, s.clock, s'.dict.table, readAt);
    ReadKeepsWindows(cfg, s, t, evictAt, readAt);
  }

  /** A write under another key leaves a window as it is. */
  lemma WindowSurvivesCommit(cfg: Config, cells: Cells, table: map<string, Stored>, clock: real,
                             key: string, cell: Cell, table': map<string, Stored>, now: real, th: Thread)
    requires th.InWindow() && WindowOk(cfg, cells, table, clock, th) && clock <= now
    requires cfg.contract.keyOf(th.call) != key && table' - {key} == table - {key}
    ensures WindowOk(cfg, cells[key := cell], table', now, th)
  {
    var k := cfg.contract.keyOf(th.call);
    assert k in table' <==> k in table' - {key};
    assert k in table <==> k in table - {key};
    if k in table' {
      assert table'[k] == (table' - {key})[k] == (table - {key})[k] == table[k];
    }
    WindowSurvives(cfg, cells, table, clock, cells[key := cell], table', now, th);
  }

  /** What a successful write phase does to the windows of the other threads: nothing. */
  lemma CommitKeepsWindows(cfg: Config, s: State, s': State, t: nat, cell: Cell)
    requires StripesHeld(cfg, s) && Windows(cfg, s) && t in s.threads && s.threads[t].HoldsStripe()
    requires s'.threads == s.threads[t := Idle] && s.clock <= s'.clock
    requires var key := cfg.contract.keyOf(s.threads[t].call);
             && s'.dict.table - {key} == s.dict.table - {key}
             && CellsAfter(cfg.contract, s'.ops) == CellsAfter(cfg.contract, s.ops)[key := cell]
    ensures Windows(cfg, s')
  {
    var key, cells := cfg.contract.keyOf(s.threads[t].call), CellsAfter(cfg.contract, s.ops);
    forall u | u in s'.threads && s'.threads[u].InWindow()
      ensures WindowOk(cfg, cells[key := cell], s'.dict.table, s'.clock, s'.threads[u])
    {
      OtherWindowsOtherKeys(cfg, s, t, u);
      WindowSurvivesCommit(cfg, cells, s.dict.table, s.clock, key, cell, s'.dict.table, s'.clock, s.threads[u]);
    }
  }

  lemma RefusalKeepsInv(cfg: Config, s: State, t: nat)
    requires Inv(cfg, s) && t in s.threads && s.threads[t].Writing?
    ensures Inv(cfg, Finish(cfg, s, t, Refusal(s.threads[t].call, s.clock), Refused))
  {
    ReadExtend(cfg.contract, s.ops, s.replies, Refusal(s.threads[t].call, s.clock), Refused);
    FinishKeepsWindows(cfg, s, Finish(cfg, s, t, Refusal(s.threads[t].call, s.clock), Refused), t);
    FinishKeepsStripes(cfg, s, t, Refusal(s.threads[t].call, s.clock), Refused);
  }

  /** The operation a thread logs when it leaves the window. */
  function OpOf(th: Thread, now: real): Op
    requires th.InWindow()
  {
    Transition(th.call, th.missed, 0, th.at, now)
  }

  /** At the end of its window a thread gives the contract's answer, and the look and
      the effect are indivisible. */
  lemma WindowAnswers(cfg: Config, cells: Cells, table: map<string, Stored>, clock: real, th: Thread, now: real)
    requires th.InWindow() && WindowOk(cfg, cells, table, clock, th) && clock <= now
    ensures Indivisible(cfg.contract, cells, OpOf(th, now))
    ensures Respond(cfg.contract, cells, OpOf(th, now)) ==
            (match Invoke(cfg.contract, th.call, th.missed, 0, th.seen).result
             case Return(result) => Wrote(th.seen, result)
             case Raise(error) => Threw(th.seen, error))
  {
  }

  lemma ThrowKeepsInv(cfg: Config, s: State, t: nat, error: Error)
    requires Inv(cfg, s) && t in s.threads && s.threads[t].Computing?
    requires Invoke(cfg.contract, s.threads[t].call, s.threads[t].missed, 0, s.threads[t].seen).result == Raise(error)
    ensures Inv(cfg, Finish(cfg, s, t, OpOf(s.threads[t], s.clock), Threw(s.threads[t].seen, error)))
  {
    var th := s.threads[t];
    var op, reply := OpOf(th, s.clock), Threw(th.seen, error);
    WindowAnswers(cfg, CellsAfter(cfg.contract, s.ops), s.dict.table, s.clock, th, s.clock);
    ReadExtend(cfg.contract, s.ops, s.replies, op, reply);
    FinishKeepsStripes(cfg, s, t, op, reply);
    FinishKeepsWindows(cfg, s, Finish(cfg, s, t, op, reply), t);
  }

  /** A thread that ends without writing leaves the others' windows as they are. */
  lemma FinishKeepsWindows(cfg: Config, s: State, s': State, t: nat)
    requires Windows(cfg, s) && t in s.threads && s'.threads == s.threads[t := Idle]
    requires s'.dict == s.dict && s'.clock == s.clock
    requires CellsAfter(cfg.contract, s'.ops) == CellsAfter(cfg.contract, s.ops)
    ensures Windows(cfg, s')
  {
  }

  lemma ReturnKeepsWindows(cfg: Config, s: State, t: nat, result: Option<Record>)
    requires Windows(cfg, s) && t in s.threads && s.threads[t].Computing?
    requires Invoke(cfg.contract, s.threads[t].call, s.threads[t].missed, 0, s.threads[t].seen).result == Return(result)
    ensures var th := s.threads[t];
            Windows(cfg, s.(threads := s.threads[t := Writing(th.call, th.missed, th.at, th.seen, result)]))
  {
    assert WindowOk(cfg, CellsAfter(cfg.contract, s.ops), s.dict.table, s.clock, s.threads[t]);
  }

  lemma ReturnKeepsStripes(cfg: Config, s: State, t: nat, result: Option<Record>)
    requires StripesHeld(cfg, s) && t in s.threads && s.threads[t].Computing?
    ensures var th := s.threads[t];
            StripesHeld(cfg, s.(threads := s.threads[t := Writing(th.call, th.missed, th.at, th.seen, result)]))
  {
  }

  lemma ComputeKeepsInv(cfg: Config, s: State, t: nat)
    requires Inv(cfg, s) && Enabled(cfg, s, Compute(t))
    ensures Inv(cfg, Next(cfg, s, Compute(t)))
  {
    var th := s.threads[t];
    var r := Invoke(cfg.contract, th.call, th.missed, 0, th.seen).result;
    match r
    case Raise(error) => ThrowKeepsInv(cfg, s, t, error);
    case Return(result) =>
      ReturnKeepsWindows(cfg, s, t, result);
      ReturnKeepsStripes(cfg, s, t, result);
  }

  /** The state after thread `t` has written, leaving the dictionary `dict'`. */
  function Committed(cfg: Config, s: State, t: nat, now: real, dict': Dict): State
    requires t in s.threads && s.threads[t].Writing?
  {
    var th := s.threads[t];
    Finish(cfg, s.(clock := now, dict := dict'), t, OpOf(th, now), Wrote(th.seen, th.result))
  }

  lemma CommitKeepsLog(cfg: Config, s: State, t: nat, now: real, dict': Dict)
    requires Atomic(cfg.contract, s.ops, s.replies) && Until(s.ops, s.clock) && s.clock <= now
    requires t in s.threads && s.threads[t].Writing?
    requires WindowOk(cfg, CellsAfter(cfg.contract, s.ops), s.dict.table, s.clock, s.threads[t])
    ensures
      var th, s' := s.threads[t], Committed(cfg, s, t, now, dict');
      && Atomic(cfg.contract, s'.ops, s'.replies)
      && CellsAfter(cfg.contract, s'.ops)
         == CellsAfter(cfg.contract, s.ops)[cfg.contract.keyOf(th.call) := Cell(th.result, now + cfg.contract.ttl, now)]
  {
    var th := s.threads[t];
    WindowAnswers(cfg, CellsAfter(cfg.contract, s.ops), s.dict.table, s.clock, th, now);
    WriteExtend(cfg.contract, s.ops, s.replies, OpOf(th, now), th.seen, th.result);
  }

  lemma CommitKeepsInv(cfg: Config, s: State, t: nat, now: real, dict': Dict)
    requires Inv(cfg, s) && s.clock <= now && t in s.threads && s.threads[t].Writing?
    requires WritePhase(s.dict, cfg.contract.keyOf(s.threads[t].call), s.threads[t].result, cfg.maxEntries,
             cfg.contract.ttl, now) == Some(dict')
    ensures Inv(cfg, Committed(cfg, s, t, now, dict'))
  {
    var th, s' := s.threads[t], Committed(cfg, s, t, now, dict');
    var key, cells := cfg.contract.keyOf(th.call), CellsAfter(cfg.contract, s.ops);
    CommitKeepsLog(cfg, s, t, now, dict');
    FinishKeepsStripes(cfg, s.(clock := now, dict := dict'), t, OpOf(th, now), Wrote(th.seen, th.result));
    WritePhaseIsExact(s.dict, key, th.result, cfg.maxEntries, cfg.contract.ttl, now);
    CommitKeepsWindows(cfg, s, s', t, Cell(th.result, now + cfg.contract.ttl, now));
    CommitKeepsRepresents(cfg, s, key, th.result, now, dict');
  }

  lemma CommitKeepsRepresents(cfg: Config, s: State, key: string, result: Option<Record>, now: real, dict': Dict)
    requires Represents(CellsAfter(cfg.contract, s.ops), s.dict.table, s.clock) && s.clock <= now
    requires WritePhase(s.dict, key, result, cfg.maxEntries, cfg.contract.ttl, now) == Some(dict')
    ensures Represents(CellsAfter(cfg.contract, s.ops)[key := Cell(result, now + cfg.contract.ttl, now)],
            dict'.table, now)
  {
    WritingKeepsRepresents(CellsAfter(cfg.contract, s.ops), s.dict.table, s.clock, key, result, cfg.contract.ttl, now);
  }

  lemma WriteKeepsInv(cfg: Config, s: State, t: nat, now: real)
    requires Inv(cfg, s) && Enabled(cfg, s, Write(t, now))
    ensures Inv(cfg, Next(cfg, s, Write(t, now)))
  {
    var th := s.threads[t];
    var written := WritePhase(s.dict, cfg.contract.keyOf(th.call), th.result, cfg.maxEntries, cfg.contract.ttl, now);
    if written.Some? {
      CommitKeepsInv(cfg, s, t, now, written.value);
      assert Next(cfg, s, Write(t, now)) == Committed(cfg, s, t, now, written.value);
    } else {
      TickKeepsInv(cfg, s, now);
      RefusalKeepsInv(cfg, s.(clock := now), t);
    }
  }

  lemma NextKeepsInv(cfg: Config, s: State, l: Label)
    requires Inv(cfg, s) && Enabled(cfg, s, l)
    ensures Inv(cfg, Next(cfg, s, l))
  {
    match l
    case Tick(now) => TickKeepsInv(cfg, s, now);
    case Arrive(t, call) =>
    case LookUp(t, now) => LookUpKeepsInv(cfg, s, t, now);
    case Acquire(t) => AcquireKeepsInv(cfg, s, t);
    case Read(t, evictAt, readAt) => ReadKeepsInv(cfg, s, t, evictAt, readAt);
    case Compute(t) => ComputeKeepsInv(cfg, s, t);
    case Write(t, now) => WriteKeepsInv(cfg, s, t, now);
  }

  // ----- whole executions

  ghost predicate Execution(cfg: Config, states: seq<State>, labels: seq<Label>) {
    && |states| == |labels| + 1
    && Initial(states[0])
    && forall i :: 0 <= i < |labels| ==>
         && states[i].dict.WellFormed()
         && Enabled(cfg, states[i], labels[i])
         && states[i + 1] == Next(cfg, states[i], labels[i])
  }

  /** Whatever the interleaving, the stripe hash and the callback, the store's answers
      are those of the atomic contract, and its dictionary stays within capacity, in
      expiry order, and true to the last writes. */
  lemma {:induction false} RefinesContract(cfg: Config, states: seq<State>, labels: seq<Label>, n: nat)
    requires Execution(cfg, states, labels) && n < |states|
    ensures Inv(cfg, states[n])
  {
    if n > 0 {
      RefinesContract(cfg, states, labels, n - 1);
      NextKeepsInv(cfg, states[n - 1], labels[n - 1]);
    }
  }

  /** Between a thread's read and write phases its key's entry is the one it saw, or is
      gone because it expired; no other writer gets in. */
  lemma WindowIsUndisturbed(cfg: Config, states: seq<State>, labels: seq<Label>, n: nat, t: nat)
    requires Execution(cfg, states, labels) && n < |states|
    requires t in states[n].threads && states[n].threads[t].InWindow()
    ensures
      var s, th := states[n], states[n].threads[t];
      var key := cfg.contract.keyOf(th.call);
      var cells := CellsAfter(cfg.contract, s.ops);
      && (key in s.dict.table ==> th.seen == Some(s.dict.table[key].record))
      && (key !in s.dict.table && th.seen.Some? ==> key in cells && th.at < cells[key].expiresAt <= s.clock)
  {
    RefinesContract(cfg, states, labels, n);
    assert WindowOk(cfg, CellsAfter(cfg.contract, states[n].ops), states[n].dict.table, states[n].clock,
      states[n].threads[t]);
  }

  /** The latest state written under a key is in the store for its whole time to live:
      no eviction, lookup or write by anyone removes it early. */
  lemma NothingLiveIsLost(cfg: Config, states: seq<State>, labels: seq<Label>, n: nat, key: string, i: nat)
    requires Execution(cfg, states, labels) && n < |states|
    requires |states[n].ops| == |states[n].replies|
    requires Commits(cfg.contract, states[n].ops, states[n].replies, key, i)
    requires forall m :: i < m < |states[n].ops| ==> !Commits(cfg.contract, states[n].ops, states[n].replies, key, m)
    requires states[n].replies[i].result.Some?
    requires states[n].clock < states[n].ops[i].now + cfg.contract.ttl
    ensures key in states[n].dict.table
    ensures states[n].dict.table[key] == Stored(states[n].ops[i].now + cfg.contract.ttl,
            states[n].replies[i].result.value)
  {
    var s := states[n];
    RefinesContract(cfg, states, labels, n);
    var j := BaseIsLatestCommit(cfg.contract, s.ops, s.replies, key, |s.ops|);
    assert j == i;
    assert s.ops[..|s.ops|] == s.ops;
  }

  /** A write phase that refuses never turns away a key whose record is still live: the
      store is full, and the key's latest write is a deletion or has expired. */
  lemma WriteSparesLiveRecords(cfg: Config, s: State, t: nat, now: real)
    requires Inv(cfg, s) && Enabled(cfg, s, Write(t, now))
    ensures
      var s', key := Next(cfg, s, Write(t, now)), cfg.contract.keyOf(s.threads[t].call);
      s'.replies == s.replies + [Refused] ==>
        && |s.dict.order| == cfg.maxEntries
        && s'.dict == s.dict
        && Current(CellsAfter(cfg.contract, s.ops), key, now).None?
  {
    var th := s.threads[t];
    if WritePhase(s.dict, cfg.contract.keyOf(th.call), th.result, cfg.maxEntries, cfg.contract.ttl, now).Some? {
      assert Next(cfg, s, Write(t, now)).replies[|s.replies|] == Wrote(th.seen, th.result);
    }
  }

  lemma RefusalSparesLiveRecords(cfg: Config, states: seq<State>, labels: seq<Label>, n: nat, t: nat, now: real)
    requires Execution(cfg, states, labels) && n < |labels| && labels[n] == Write(t, now)
    ensures
      var s, s' := states[n], states[n + 1];
      var key := cfg.contract.keyOf(s.threads[t].call);
      s'.replies == s.replies + [Refused] ==>
        && |s.dict.order| == cfg.maxEntries
        && s'.dict == s.dict
        && Current(CellsAfter(cfg.contract, s.ops), key, now).None?
  {
    RefinesContract(cfg, states, labels, n);
    WriteSparesLiveRecords(cfg, states[n], t, now);
  }

  /** Operation `op` is logged by a write phase that found the store full and nothing live
      under its key. */
  ghost predicate RefusedFull(cfg: Config, s: State, l: Label, op: Op) {
    && l.Write? && l.t in s.threads && s.threads[l.t].Writing? && op == Refusal(s.threads[l.t].call, l.now)
    && |s.dict.order| == cfg.maxEntries
    && Current(CellsAfter(cfg.contract, s.ops), cfg.contract.keyOf(op.call), l.now).None?
  }

  /** A step logs at most one operation, a refusal only in a write phase. */
  lemma StepLogs(cfg: Config, s: State, l: Label)
    requires s.dict.WellFormed() && Enabled(cfg, s, l)
    ensures
      var s' := Next(cfg, s, l);
      || s'.ops == s.ops
      || (exists op :: s'.ops == s.ops + [op] && !op.Refusal?)
      || (l.Write? && s'.ops == s.ops + [Refusal(s.threads[l.t].call, l.now)] && s'.replies == s.replies + [Refused])
  {
    var s' := Next(cfg, s, l);
    if s'.ops != s.ops {
      assert s'.ops == s.ops + [s'.ops[|s.ops|]];
    }
  }

  lemma StepRefusesWhenFull(cfg: Config, s: State, l: Label, op: Op)
    requires Inv(cfg, s) && Enabled(cfg, s, l) && Next(cfg, s, l).ops == s.ops + [op] && op.Refusal?
    ensures RefusedFull(cfg, s, l, op)
  {
    StepLogs(cfg, s, l);
    assert (s.ops + [op])[|s.ops|] == op;
    WriteSparesLiveRecords(cfg, s, l.t, l.now);
  }

  lemma RefusedAtStep(cfg: Config, states: seq<State>, labels: seq<Label>, b: nat, op: Op)
    requires Execution(cfg, states, labels) && b < |labels|
    requires states[b + 1].ops == states[b].ops + [op] && op.Refusal?
    ensures RefusedFull(cfg, states[b], labels[b], op)
  {
    RefinesContract(cfg, states, labels, b);
    StepRefusesWhenFull(cfg, states[b], labels[b], op);
  }

  lemma LogGrows(cfg: Config, states: seq<State>, labels: seq<Label>, b: nat)
    requires Execution(cfg, states, labels) && b < |labels|
    ensures states[b].ops <= states[b + 1].ops && |states[b + 1].ops| <= |states[b].ops| + 1
  {
    StepLogs(cfg, states[b], labels[b]);
  }

  /** Every refusal in the log: at the step that logged it the store was full, and nothing
      live was under its key. */
  lemma {:induction false} RefusalsMeanFull(cfg: Config, states: seq<State>, labels: seq<Label>, n: nat, j: nat)
    returns (b: nat)
    requires Execution(cfg, states, labels) && n < |states|
    requires j < |states[n].ops| && states[n].ops[j].Refusal?
    ensures b < n && states[b].ops == states[n].ops[..j]
    ensures RefusedFull(cfg, states[b], labels[b], states[n].ops[j])
  {
    b := 0;
    if n > 0 {
      var before, after := states[n - 1].ops, states[n].ops;
      LogGrows(cfg, states, labels, n - 1);
      if j < |before| {
        b := RefusalsMeanFull(cfg, states, labels, n - 1, j);
        assert after[..j] == before[..j];
      } else {
        b := n - 1;
        assert after[..j] == before && after == before + [after[j]];
        RefusedAtStep(cfg, states, labels, n - 1, after[j]);
      }
    }
  }
}
