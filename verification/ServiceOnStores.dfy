/** The guarantees of the service on each of its two stores: executions of both store
    machines are runs of the service, so what is proved of runs holds of them. */
module ServiceOnStores {
  import opened Domain
  import opened AtomicContract
  import opened ProcessRules
  import opened Lifecycle
  import opened ConsumerIsolation
  import Memory = MemoryProtocol
  import Redis = RedisProtocol
  import RedisContention
  import StoreAtomicity

  /** The run was recorded by threads sharing an in-memory store. */
  ghost predicate OnMemory(run: Run) {
    exists cfg: Memory.Config, states: seq<Memory.State>, labels: seq<Memory.Label> ::
      && Memory.Execution(cfg, states, labels)
      && cfg.contract == run.Contract()
      && states[|labels|].ops == run.ops && states[|labels|].replies == run.replies
  }

  /** The run was recorded by workers sharing a Redis server. */
  ghost predicate OnRedis(run: Run) {
    exists states: seq<Redis.State>, labels: seq<Redis.Label> ::
      && Redis.Execution(run.Contract(), states, labels)
      && states[|labels|].ops == run.ops && states[|labels|].replies == run.replies
  }

  /** Both stores keep the atomic contract, Redis with each transition at one instant. */
  lemma StoresAreAtomic(run: Run)
    requires OnMemory(run) || OnRedis(run)
    ensures run.Valid()
    ensures OnRedis(run) ==>
              forall i :: 0 <= i < |run.ops| && run.ops[i].Transition? ==> run.ops[i].at == run.ops[i].now
  {
    if OnMemory(run) {
      var cfg: Memory.Config, states: seq<Memory.State>, labels: seq<Memory.Label> :|
        && Memory.Execution(cfg, states, labels)
        && cfg.contract == run.Contract()
        && states[|labels|].ops == run.ops && states[|labels|].replies == run.replies;
      Memory.RefinesContract(cfg, states, labels, |labels|);
    }
    if OnRedis(run) {
      var states: seq<Redis.State>, labels: seq<Redis.Label> :|
        && Redis.Execution(run.Contract(), states, labels)
        && states[|labels|].ops == run.ops && states[|labels|].replies == run.replies;
      Redis.RefinesContract(run.Contract(), states, labels, |labels|);
      StoreAtomicity.RedisTransitionsAreInstant(run.Contract(), states, labels, |labels|);
    }
  }

  /** The run was recorded in memory, and the step that logged operation `j` found the store
      full and nothing live under the key. */
  ghost predicate FullInMemory(run: Run, j: nat)
    requires j < |run.ops|
  {
    exists cfg: Memory.Config, states: seq<Memory.State>, labels: seq<Memory.Label>, b: nat ::
      && Memory.Execution(cfg, states, labels) && b < |labels|
      && cfg.contract == run.Contract()
      && states[|labels|].ops == run.ops && states[|labels|].replies == run.replies
      && states[b].ops == run.ops[..j] && Memory.RefusedFull(cfg, states[b], labels[b], run.ops[j])
  }

  /** The run was recorded on Redis, and operation `j` was logged by the fifth failing EXEC of
      a call, in each of whose own rounds somebody else touched its key. */
  ghost predicate ContendedOnRedis(run: Run, j: nat)
    requires j < |run.ops|
  {
    exists states: seq<Redis.State>, labels: seq<Redis.Label>, b: nat, w: nat, at: seq<nat> ::
      && Redis.Execution(run.Contract(), states, labels)
      && states[|labels|].ops == run.ops && states[|labels|].replies == run.replies
      && RedisContention.LoggedAsRefused(run.Contract(), states, labels, run.ops[j], j, b, w, at)
  }

  /** Why a request was refused: for want of room in memory, and only with nothing live under
      its key, or for contention over its key on Redis. */
  lemma RefusalsAreExplained(run: Run, j: nat)
    requires j < |run.ops| && run.ops[j].Refusal?
    ensures OnMemory(run) || OnRedis(run) ==>
              |run.replies| == |run.ops| && AnswerOf(run.replies[j]) == Failed(Overloaded)
    ensures OnMemory(run) ==>
              && FullInMemory(run, j)
              && Current(CellsAfter(run.Contract(), run.ops[..j]), run.Contract().keyOf(run.ops[j].call),
                run.ops[j].now).None?
    ensures OnRedis(run) ==> ContendedOnRedis(run, j)
  {
    if OnMemory(run) || OnRedis(run) {
      StoresAreAtomic(run);
      ReplyAt(run.Contract(), run.ops, j);
    }
    if OnMemory(run) {
      var cfg: Memory.Config, states: seq<Memory.State>, labels: seq<Memory.Label> :|
        && Memory.Execution(cfg, states, labels)
        && cfg.contract == run.Contract()
        && states[|labels|].ops == run.ops && states[|labels|].replies == run.replies;
      var b := Memory.RefusalsMeanFull(cfg, states, labels, |labels|, j);
      assert Memory.RefusedFull(cfg, states[b], labels[b], run.ops[j]);
    }
    if OnRedis(run) {
      var states: seq<Redis.State>, labels: seq<Redis.Label> :|
        && Redis.Execution(run.Contract(), states, labels)
        && states[|labels|].ops == run.ops && states[|labels|].replies == run.replies;
      var b, w, at := RedisContention.RefusalsAreEarned(run.Contract(), states, labels, |labels|, j);
      assert RedisContention.LoggedAsRefused(run.Contract(), states, labels, run.ops[j], j, b, w, at);
    }
  }

  /** Operation `i` answered its caller with a mask. */
  ghost predicate AnsweredMask(run: Run, i: nat) {
    && i < |run.ops| == |run.replies| && run.ops[i].Transition?
    && run.replies[i].Wrote? && run.replies[i].result.Some? && ResultOf(run.replies[i]).operation == Mask
  }

  /** When a request that reached the store looked at its key, or was turned away. */
  function AskedAt(op: Op): real {
    if op.Refusal? then op.now else op.at
  }

  /** Operation `j` is a later request of the owner of the record that `i` masked, made
      within the time to live of that masking. */
  ghost predicate AsksAgain(run: Run, i: nat, j: nat) {
    && i < j < |run.ops| && !run.ops[j].Lookup?
    && run.ops[j].call.consumerId == run.ops[i].call.consumerId
    && run.ops[j].call.payloadId == run.ops[i].call.payloadId
    && run.ops[i].Transition? && AskedAt(run.ops[j]) < run.ops[i].now + run.ttl
  }

  /** The in-memory store never refuses such a request; Redis refuses it only when the
      key was contended for. */
  lemma RepeatedRequestsReachTheRecord(run: Run, i: nat, j: nat)
    requires OnMemory(run) || OnRedis(run)
    requires AnsweredMask(run, i) && AsksAgain(run, i, j)
    ensures run.ops[j].Refusal? ==> !OnMemory(run) && ContendedOnRedis(run, j)
  {
    StoresAreAtomic(run);
    var key := run.Contract().keyOf(run.ops[i].call);
    assert run.Commit(key, i);
    if run.ops[j].Refusal? {
      RefusalsAreExplained(run, j);
      RecordIsThere(run, key, i, j, run.ops[j].now);
    }
  }

  /** On either store, under any interleaving, a request that was answered with a mask
      can be undone: its owner sends the mask within the time to live and is answered by
      the original text, unless Redis turns it away under contention. */
  lemma MasksAreRestored(run: Run, i: nat, j: nat)
    requires OnMemory(run) || OnRedis(run)
    requires CollisionFree(run.hash)
    requires AnsweredMask(run, i) && AsksAgain(run, i, j)
    requires run.ops[j].call.payload == ResultOf(run.replies[i]).result && run.ops[j].call.demaskingEnabled
    ensures
      || (AnswerOf(run.replies[j]).Answered? && AnswerOf(run.replies[j]).outcome.result == run.ops[i].call.payload)
      || (run.ops[j].Refusal? && !OnMemory(run) && ContendedOnRedis(run, j))
  {
    StoresAreAtomic(run);
    RepeatedRequestsReachTheRecord(run, i, j);
    var key := run.Contract().keyOf(run.ops[i].call);
    assert run.Commit(key, i);
    if run.ops[j].Transition? {
      MaskIsRestoredWithinTtl(run, key, i, j);
    }
  }

  /** On either store, until the time to live of a masking runs out, its owner's request
      with the same text gets the same answer if and only if nobody has been answered with
      the original since, and is refused as invalid otherwise. */
  lemma MasksAreRepeatable(run: Run, i: nat, j: nat)
    requires OnMemory(run) || OnRedis(run)
    requires CollisionFree(run.hash)
    requires AnsweredMask(run, i) && AsksAgain(run, i, j)
    requires run.ops[j].call.payload == run.ops[i].call.payload != ResultOf(run.replies[i]).result
    ensures run.Valid()
    ensures run.ops[j].Refusal? ==> !OnMemory(run) && ContendedOnRedis(run, j)
    ensures run.ops[j].Transition? ==>
              AnswerOf(run.replies[j]) ==
              if exists m :: i < m < j && Demasks(run, run.Contract().keyOf(run.ops[i].call), m)
              then Failed(InvalidPayload) else AnswerOf(run.replies[i])
  {
    StoresAreAtomic(run);
    RepeatedRequestsReachTheRecord(run, i, j);
    var key := run.Contract().keyOf(run.ops[i].call);
    assert run.Commit(key, i) && !Demasks(run, key, i);
    if run.ops[j].Transition? {
      CommitsAreCoherent(run, key, i);
      AnswersGoToTheirPayload(run, key, i);
      RecordIsFoundWithinTtl(run, key, i, j);
      DemaskedInHistory(run, key, i, j);
      ReplyAt(run.Contract(), run.ops, j);
    }
  }

  /** On either store, what one consumer is told about one payload identifier does not
      depend on any other request, except that a full store may refuse it: the operations of
      the pair, answered as they were, are a run of the service by themselves. */
  lemma PairsAreIsolatedOnStores(run: Run, own: Call)
    requires OnMemory(run) || OnRedis(run)
    requires DigestGood(run.digest, run.ops, own)
    ensures |run.replies| == |run.ops|
    ensures run.(ops := Kept(run.ops, OfPair(own)), replies := RepliesTo(run.ops, run.replies, OfPair(own))).Valid()
  {
    StoresAreAtomic(run);
    PairsRunAlone(run.ttl, run.hash, run.digest, run.ops, run.replies, own);
  }
}
