/** How far "the read-modify-write is atomic" holds of each store.  A Redis transition
    happens at one instant.  An in-memory one looks at its key at one instant and takes
    effect at a later one, which shows exactly when the record expires in between. */
module StoreAtomicity {
  import opened Domain
  import opened AtomicContract
  import opened ProcessRules
  import opened Representation
  import Store = MemoryStore
  import Memory = MemoryProtocol
  import Redis = RedisProtocol

  /** What a transition acted on is what its key held when it took effect, unless the
      record it found, written by the latest earlier commit, expired between the two
      instants. */
  lemma ActsOnPresentUnlessExpired(c: Contract, ops: seq<Op>, replies: seq<Reply>, j: nat) returns (i: int)
    requires Atomic(c, ops, replies)
    requires j < |ops| && ops[j].Transition?
    ensures -1 <= i < j && !replies[j].Found? && !replies[j].Refused?
    ensures i >= 0 ==> Commits(c, ops, replies, c.keyOf(ops[j].call), i)
    ensures forall m :: i < m < j ==> !Commits(c, ops, replies, c.keyOf(ops[j].call), m)
    ensures Current(CellsAfter(c, ops[..j]), c.keyOf(ops[j].call), ops[j].now) == replies[j].base <==>
            !(i >= 0 && replies[i].result.Some? && ops[j].at < ops[i].now + c.ttl <= ops[j].now)
  {
    var key := c.keyOf(ops[j].call);
    i := BaseIsLatestCommit(c, ops, replies, key, j);
    ReplyAt(c, ops, j);
    IndivisibleAt(c, ops, j);
  }

  /** Transitions of the Redis store look and take effect at the same instant. */
  lemma {:induction false} RedisTransitionsAreInstant(c: Contract, states: seq<Redis.State>,
                                                      labels: seq<Redis.Label>, n: nat)
    requires Redis.Execution(c, states, labels) && n < |states|
    ensures forall i :: 0 <= i < |states[n].ops| && states[n].ops[i].Transition? ==>
            states[n].ops[i].at == states[n].ops[i].now
  {
    if n > 0 {
      RedisTransitionsAreInstant(c, states, labels, n - 1);
      RedisStepIsInstant(c, states[n - 1], labels[n - 1]);
    }
  }

  lemma RedisStepIsInstant(c: Contract, s: Redis.State, l: Redis.Label)
    requires Redis.Enabled(c, s, l)
    ensures
      var s' := Redis.Next(c, s, l);
      s'.ops == s.ops
      || exists op :: s'.ops == s.ops + [op] && (op.Transition? ==> op.at == op.now)
  {
    var s' := Redis.Next(c, s, l);
    if s'.ops != s.ops {
      var op := s'.ops[|s.ops|];
      assert s'.ops == s.ops + [op];
    }
  }

  // ----- the expired record an in-memory transition brings back

  lemma StaysWellFormed(cfg: Memory.Config, states: seq<Memory.State>, labels: seq<Memory.Label>)
    requires Memory.Execution(cfg, states, labels)
    ensures states[|labels|].dict.WellFormed()
  {
    Memory.RefinesContract(cfg, states, labels, |labels|);
  }

  /** One more step of an execution. */
  lemma MemoryStep(cfg: Memory.Config, states: seq<Memory.State>, labels: seq<Memory.Label>, l: Memory.Label)
    returns (states': seq<Memory.State>, labels': seq<Memory.Label>, s': Memory.State)
    requires Memory.Execution(cfg, states, labels)
    requires Memory.Enabled(cfg, states[|labels|], l)
    ensures states[|labels|].dict.WellFormed()
    ensures s' == Memory.Next(cfg, states[|labels|], l)
    ensures states' == states + [s'] && labels' == labels + [l]
    ensures Memory.Execution(cfg, states', labels') && states'[|labels'|] == s'
  {
    StaysWellFormed(cfg, states, labels);
    s' := Memory.Next(cfg, states[|labels|], l);
    states', labels' := states + [s'], labels + [l];
  }

  /** Thread `t` takes a call and looks its key up. */
  lemma Approach(cfg: Memory.Config, states0: seq<Memory.State>, labels0: seq<Memory.Label>, t: nat, call: Call,
                 lookAt: real)
    returns (states: seq<Memory.State>, labels: seq<Memory.Label>)
    requires Memory.Execution(cfg, states0, labels0)
    requires var s := states0[|labels0|]; t in s.threads && s.threads[t].Idle? && s.clock <= lookAt
    ensures Memory.Execution(cfg, states, labels)
    ensures
      var s, key := states0[|labels0|], cfg.contract.keyOf(call);
      var (dict1, found) := Store.Take(s.dict, key, lookAt);
      states[|labels|] == s.(
        clock := lookAt,
        dict := dict1,
        threads := s.threads[t := Memory.LookedUp(call, found.None?)],
        ops := s.ops + [Lookup(call, lookAt)],
        replies := s.replies + [Found(found)])
  {
    var s0, s := states0[|labels0|], states0[|labels0|];
    states, labels, s := MemoryStep(cfg, states0, labels0, Memory.Arrive(t, call));
    states, labels, s := MemoryStep(cfg, states, labels, Memory.LookUp(t, lookAt));
    assert s.threads == s0.threads[t := s.threads[t]];
  }

  /** Thread `t` takes a call up to the end of its read phase. */
  lemma Begin(cfg: Memory.Config, states0: seq<Memory.State>, labels0: seq<Memory.Label>, t: nat, call: Call,
              lookAt: real, readAt: real)
    returns (states: seq<Memory.State>, labels: seq<Memory.Label>)
    requires Memory.Execution(cfg, states0, labels0)
    requires var s := states0[|labels0|];
             t in s.threads && s.threads[t].Idle? && Memory.Stripe(cfg, call) !in s.stripes
               && s.clock <= lookAt <= readAt
    ensures Memory.Execution(cfg, states, labels)
    ensures states0[|labels0|].dict.WellFormed()
    ensures Store.Take(states0[|labels0|].dict, cfg.contract.keyOf(call), lookAt).0.WellFormed()
    ensures
      var s, key := states0[|labels0|], cfg.contract.keyOf(call);
      var (dict1, found) := Store.Take(s.dict, key, lookAt);
      var (dict2, seen) := Store.ReadPhase(dict1, key, readAt, readAt);
      states[|labels|] == s.(
        clock := readAt,
        dict := dict2,
        threads := s.threads[t := Memory.Computing(call, found.None?, readAt, seen)],
        stripes := s.stripes[Memory.Stripe(cfg, call) := t],
        ops := s.ops + [Lookup(call, lookAt)],
        replies := s.replies + [Found(found)])
  {
    var s0, s := states0[|labels0|], states0[|labels0|];
    StaysWellFormed(cfg, states0, labels0);
    states, labels := Approach(cfg, states0, labels0, t, call, lookAt);
    StaysWellFormed(cfg, states, labels);
    states, labels, s := MemoryStep(cfg, states, labels, Memory.Acquire(t));
    states, labels, s := MemoryStep(cfg, states, labels, Memory.Read(t, readAt, readAt));
    assert s.threads == s0.threads[t := s.threads[t]];
  }

  /** Thread `t` stores the record it computed. */
  lemma End(cfg: Memory.Config, states0: seq<Memory.State>, labels0: seq<Memory.Label>, t: nat, now: real)
    returns (states: seq<Memory.State>, labels: seq<Memory.Label>)
    requires Memory.Execution(cfg, states0, labels0)
    requires
      var s := states0[|labels0|];
      && t in s.threads && s.threads[t].Writing? && s.clock <= now
      && s.threads[t].result.Some? && Store.HasRoom(s.dict, cfg.contract.keyOf(s.threads[t].call), cfg.maxEntries)
    ensures Memory.Execution(cfg, states, labels)
    ensures
      var s := states0[|labels0|];
      var th := s.threads[t];
      states[|labels|] == s.(
        clock := now,
        dict := Store.Put(s.dict, cfg.contract.keyOf(th.call), Stored(now + cfg.contract.ttl, th.result.value)),
        threads := s.threads[t := Memory.Idle],
        stripes := s.stripes - {Memory.Stripe(cfg, th.call)},
        ops := s.ops + [Transition(th.call, th.missed, 0, th.at, now)],
        replies := s.replies + [Wrote(th.seen, th.result)])
  {
    var s := states0[|labels0|];
    states, labels, s := MemoryStep(cfg, states0, labels0, Memory.Write(t, now));
  }

  ghost predicate Serves(cfg: Memory.Config, hash: string -> string, digest: string -> string) {
    cfg.contract == Service(cfg.contract.ttl, hash, digest) && cfg.contract.ttl > 0.0 && cfg.maxEntries >= 1
  }

  /** Thread 1 has masked the text of `call` at time 0: its record is in the store. */
  ghost predicate JustMasked(cfg: Memory.Config, hash: string -> string, call: Call, s: Memory.State) {
    var r := PrepareMask(hash, call, 0);
    && s.clock == 0.0 && s.threads == map[1 := Memory.Idle, 2 := Memory.Idle] && s.stripes == map[]
    && s.dict == Store.Dict([cfg.contract.keyOf(call)], map[cfg.contract.keyOf(call) := Stored(cfg.contract.ttl, r)])
    && s.ops == [Lookup(call, 0.0), Transition(call, true, 0, 0.0, 0.0)]
    && s.replies == [Found(None), Wrote(None, Some(r))]
  }

  lemma MaskOnce(cfg: Memory.Config, hash: string -> string, digest: string -> string, call: Call)
    returns (states: seq<Memory.State>, labels: seq<Memory.Label>)
    requires Serves(cfg, hash, digest)
    ensures Memory.Execution(cfg, states, labels) && JustMasked(cfg, hash, call, states[|labels|])
  {
    var s := Memory.State(0.0, Store.Empty, map[1 := Memory.Idle, 2 := Memory.Idle], map[], [], []);
    states, labels := [s], [];
    states, labels := Begin(cfg, states, labels, 1, call, 0.0, 0.0);
    states, labels, s := MemoryStep(cfg, states, labels, Memory.Compute(1));
    states, labels := End(cfg, states, labels, 1, 0.0);
    s := states[|labels|];
    assert s.threads == map[1 := Memory.Idle, 2 := Memory.Idle];
    assert s.stripes == map[];
  }

  lemma SingleEntry(key: string, item: Stored, at: real)
    ensures
      var d := Store.Dict([key], map[key := item]);
      && d.WellFormed()
      && if at < item.expiresAt then
           Store.Take(d, key, at) == (d, Some(item.record)) && Store.ReadPhase(d, key, at, at) == (d, Some(item.record))
         else
           Store.Take(d, key, at) == (Store.Empty, None)
  {
    assert map[key := item] - {key} == map[];
  }

  /** The same text is sent again, and thread 1 reads the record while it lives. */
  lemma ReadAgain(cfg: Memory.Config, hash: string -> string, digest: string -> string, call: Call)
    returns (states: seq<Memory.State>, labels: seq<Memory.Label>)
    requires Serves(cfg, hash, digest)
    ensures Memory.Execution(cfg, states, labels)
    ensures
      var s, ttl, r := states[|labels|], cfg.contract.ttl, PrepareMask(hash, call, 0);
      && s.clock == ttl / 2.0
      && s.dict == Store.Dict([cfg.contract.keyOf(call)], map[cfg.contract.keyOf(call) := Stored(ttl, r)])
      && s.threads == map[1 := Memory.Writing(call, false, ttl / 2.0, Some(r), Some(r)), 2 := Memory.Idle]
      && s.ops == [Lookup(call, 0.0), Transition(call, true, 0, 0.0, 0.0), Lookup(call, ttl / 2.0)]
      && s.replies == [Found(None), Wrote(None, Some(r)), Found(Some(r))]
  {
    var ttl := cfg.contract.ttl;
    var s: Memory.State;
    states, labels := MaskOnce(cfg, hash, digest, call);
    SingleEntry(cfg.contract.keyOf(call), Stored(ttl, PrepareMask(hash, call, 0)), ttl / 2.0);
    states, labels := Begin(cfg, states, labels, 1, call, ttl / 2.0, ttl / 2.0);
    states, labels, s := MemoryStep(cfg, states, labels, Memory.Compute(1));
  }

  /** The record expires, and thread 2 is told that nothing is stored. */
  lemma ReadThenExpired(cfg: Memory.Config, hash: string -> string, digest: string -> string, call: Call)
    returns (states: seq<Memory.State>, labels: seq<Memory.Label>)
    requires Serves(cfg, hash, digest)
    ensures Memory.Execution(cfg, states, labels)
    ensures
      var s, ttl, r := states[|labels|], cfg.contract.ttl, PrepareMask(hash, call, 0);
      && s.clock == ttl && s.dict == Store.Empty
      && 1 in s.threads && s.threads[1] == Memory.Writing(call, false, ttl / 2.0, Some(r), Some(r))
      && s.ops == [Lookup(call, 0.0), Transition(call, true, 0, 0.0, 0.0), Lookup(call, ttl / 2.0), Lookup(call, ttl)]
      && s.replies == [Found(None), Wrote(None, Some(r)), Found(Some(r)), Found(None)]
  {
    var ttl := cfg.contract.ttl;
    var s: Memory.State;
    states, labels := ReadAgain(cfg, hash, digest, call);
    SingleEntry(cfg.contract.keyOf(call), Stored(ttl, PrepareMask(hash, call, 0)), ttl);
    states, labels, s := MemoryStep(cfg, states, labels, Memory.Arrive(2, call));
    states, labels, s := MemoryStep(cfg, states, labels, Memory.LookUp(2, ttl));
  }

  /** No instant explains a transition that found a record and kept one, while a lookup
      at `lookAt` found nothing there: had the transition happened at a single instant, in
      clock order with the lookup and less than a time to live before it, the lookup would
      have found what it kept, or else what it found. */
  lemma NoInstantExplains(c: Contract, cells: Cells, retry: Op, lookup: Op)
    requires retry.Transition? && retry.at == retry.now && lookup.Lookup?
    requires c.keyOf(lookup.call) == c.keyOf(retry.call)
    requires var r := Respond(c, cells, retry); r.Wrote? && r.base.Some? && r.result.Some?
    ensures InOrder([retry, lookup]) && lookup.at < retry.now + c.ttl ==>
              Respond(c, Apply(c, cells, retry), lookup) == Found(Respond(c, cells, retry).result)
    ensures InOrder([lookup, retry]) ==> Respond(c, cells, lookup) == Found(Respond(c, cells, retry).base)
  {
    assert [retry, lookup][..1] == [retry] && [lookup, retry][..1] == [lookup];
  }

  /** Thread 1 then writes the record back and is answered by it: answers that, by
      `NoInstantExplains`, no store doing one thing at a time can give. */
  lemma ExpiredRecordReturns(cfg: Memory.Config, hash: string -> string, digest: string -> string, call: Call)
    returns (states: seq<Memory.State>, labels: seq<Memory.Label>)
    requires Serves(cfg, hash, digest)
    ensures Memory.Execution(cfg, states, labels)
    ensures
      var s, ttl, r := states[|labels|], cfg.contract.ttl, PrepareMask(hash, call, 0);
      && |s.ops| == |s.replies| == 5
      && s.ops[2..] == [Lookup(call, ttl / 2.0), Lookup(call, ttl), Transition(call, false, 0, ttl / 2.0, ttl)]
      && s.replies[2..] == [Found(Some(r)), Found(None), Wrote(Some(r), Some(r))]
      && s.dict.table == map[cfg.contract.keyOf(call) := Stored(ttl + ttl, r)]
  {
    states, labels := ReadThenExpired(cfg, hash, digest, call);
    states, labels := End(cfg, states, labels, 1, cfg.contract.ttl);
  }

  // ----- the room an expired record takes

  /** With room for one record, thread 2 reads its own, absent key while the record of
      `call` lives, and writes when that has expired: it is refused, although nothing in
      the store is live. */
  lemma ExpiredRecordTakesRoom(cfg: Memory.Config, hash: string -> string, digest: string -> string, call: Call,
                               other: Call)
    returns (states: seq<Memory.State>, labels: seq<Memory.Label>)
    requires Serves(cfg, hash, digest) && cfg.maxEntries == 1
    requires cfg.contract.keyOf(other) != cfg.contract.keyOf(call)
    ensures Memory.Execution(cfg, states, labels)
    ensures
      var s, ttl := states[|labels|], cfg.contract.ttl;
      && |s.ops| == |s.replies| == 4 && s.ops[3] == Refusal(other, ttl) && s.replies[3] == Refused
      && s.dict.table.Keys == {cfg.contract.keyOf(call)} && Store.Live(s.dict.table, ttl) == map[]
  {
    var ttl := cfg.contract.ttl;
    var s: Memory.State;
    states, labels := MaskOnce(cfg, hash, digest, call);
    SingleEntryElsewhere(cfg.contract.keyOf(call), Stored(ttl, PrepareMask(hash, call, 0)),
      cfg.contract.keyOf(other), ttl / 2.0);
    states, labels := Begin(cfg, states, labels, 2, other, ttl / 2.0, ttl / 2.0);
    states, labels, s := MemoryStep(cfg, states, labels, Memory.Compute(2));
    assert s.threads[2].result == Some(PrepareMask(hash, other, 0));
    states, labels, s := MemoryStep(cfg, states, labels, Memory.Write(2, ttl));
  }

  lemma SingleEntryElsewhere(key: string, item: Stored, other: string, at: real)
    requires at < item.expiresAt && other != key
    ensures
      var d := Store.Dict([key], map[key := item]);
      && d.WellFormed()
      && Store.Take(d, other, at) == (d, None) && Store.ReadPhase(d, other, at, at) == (d, None)
  {
  }
}
