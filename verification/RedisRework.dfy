/** The cost bound of the Redis store is reached: the masking prepared inside a
    transition is not kept for its next attempt, so a contended call may detect and mask
    anew in every one of its rounds. */
module RedisRework {
  import opened Domain
  import opened AtomicContract
  import opened ProcessRules
  import opened RedisProtocol
  import opened Representation

  /** One more step of an execution. */
  lemma RedisStep(c: Contract, states: seq<State>, labels: seq<Label>, l: Label)
    returns (states': seq<State>, labels': seq<Label>, s': State)
    requires Execution(c, states, labels) && Enabled(c, states[|labels|], l)
    ensures s' == Next(c, states[|labels|], l)
    ensures states' == states + [s'] && labels' == labels + [l]
    ensures Execution(c, states', labels') && states'[|labels'|] == s'
  {
    s' := Next(c, states[|labels|], l);
    states', labels' := states + [s'], labels + [l];
  }

  ghost predicate Serves(c: Contract, hash: string -> string, digest: string -> string) {
    c == Service(c.ttl, hash, digest) && c.ttl > 0.0
  }

  predicate Free(s: State, w: nat) {
    w in s.workers && (s.workers[w].Idle? || s.workers[w].Done?)
  }

  /** Worker `w`, alone, masks a text whose key is not stored. */
  lemma MaskAlone(c: Contract, hash: string -> string, digest: string -> string, call: Call, w: nat,
                  states0: seq<State>, labels0: seq<Label>)
    returns (states: seq<State>, labels: seq<Label>)
    requires Serves(c, hash, digest) && Execution(c, states0, labels0)
    requires Free(states0[|labels0|], w) && c.keyOf(call) !in states0[|labels0|].db
    ensures Execution(c, states, labels)
    ensures
      var s0, s := states0[|labels0|], states[|labels|];
      && s.clock == s0.clock
      && c.keyOf(call) in s.db && Fresh(s, c.keyOf(call))
      && s.touches == s0.touches + [Written(w, c.keyOf(call))]
      && Free(s, w) && s.workers == s0.workers[w := s.workers[w]]
  {
    var key := c.keyOf(call);
    var s: State;
    states, labels, s := RedisStep(c, states0, labels0, Arrive(w, call));
    states, labels, s := RedisStep(c, states, labels, LookUp(w));
    assert s.workers[w] == Trying(call, Progress(true, 1, [], []));
    states, labels, s := RedisStep(c, states, labels, Watch(w));
    states, labels, s := RedisStep(c, states, labels, Get(w));
    assert s.workers[w].Ready? && s.workers[w].from == |s.touches|;
    states, labels, s := RedisStep(c, states, labels, Exec(w));
    assert s.workers[w].Done?;
  }

  /** Worker 2 has lost `k` rounds for `call`, each after detecting and masking anew, and
      worker 1 has just stored the key once more. */
  ghost predicate Losing(c: Contract, call: Call, k: nat, s: State) {
    && Free(s, 1)
    && c.keyOf(call) in s.db && Fresh(s, c.keyOf(call))
    && 2 in s.workers
    && (if k < MAX_CAS_RETRIES then
          s.workers[2].Trying? && s.workers[2].call == call
        else
          s.workers[2].Done? && s.workers[2].reply.Refused?)
    && !s.workers[2].p.missed && s.workers[2].p.detections == k && |s.workers[2].p.failed| == k
  }

  /** The key expires, worker 2 reads it as absent and masks anew. */
  lemma ReadAbsent(c: Contract, hash: string -> string, digest: string -> string, call: Call, k: nat,
                   states0: seq<State>, labels0: seq<Label>)
    returns (states: seq<State>, labels: seq<Label>)
    requires Serves(c, hash, digest) && Execution(c, states0, labels0)
    requires k < MAX_CAS_RETRIES && Losing(c, call, k, states0[|labels0|])
    ensures Execution(c, states, labels)
    ensures
      var s := states[|labels|];
      && Free(s, 1) && c.keyOf(call) !in s.db
      && 2 in s.workers && s.workers[2].Ready? && s.workers[2].call == call && s.workers[2].from == |s.touches|
      && !s.workers[2].p.missed && s.workers[2].p.detections == k + 1 && |s.workers[2].p.failed| == k
  {
    var key := c.keyOf(call);
    var s: State := states0[|labels0|];
    states, labels, s := RedisStep(c, states0, labels0, Tick(s.db[key].expiresAt));
    states, labels, s := RedisStep(c, states, labels, Expire(key));
    states, labels, s := RedisStep(c, states, labels, Watch(2));
    states, labels, s := RedisStep(c, states, labels, Get(2));
  }

  /** Before worker 2 can write, worker 1 has stored the key: another round is lost. */
  lemma LoseRound(c: Contract, hash: string -> string, digest: string -> string, call: Call, k: nat,
                  states0: seq<State>, labels0: seq<Label>)
    returns (states: seq<State>, labels: seq<Label>)
    requires Serves(c, hash, digest) && Execution(c, states0, labels0)
    requires k < MAX_CAS_RETRIES && Losing(c, call, k, states0[|labels0|])
    ensures Execution(c, states, labels) && Losing(c, call, k + 1, states[|labels|])
  {
    var s: State;
    states, labels := ReadAbsent(c, hash, digest, call, k, states0, labels0);
    var from := |states[|labels|].touches|;
    states, labels := MaskAlone(c, hash, digest, call, 1, states, labels);
    assert states[|labels|].touches[from].key == c.keyOf(call);
    states, labels, s := RedisStep(c, states, labels, Exec(2));
  }

  /** For every number of rounds up to the limit of five there is an execution in which a
      single call ran detection and masking that often, whatever the text; after five the
      call is told that the service is overloaded. */
  lemma {:induction false} DetectionRunsInEveryRound(c: Contract, hash: string -> string, digest: string -> string,
                                                     call: Call, k: nat)
    returns (states: seq<State>, labels: seq<Label>)
    requires Serves(c, hash, digest) && k <= MAX_CAS_RETRIES
    ensures Execution(c, states, labels) && Losing(c, call, k, states[|labels|])
  {
    if k == 0 {
      var s := State(0.0, map[], [], map[1 := Idle, 2 := Idle], [], []);
      states, labels := MaskAlone(c, hash, digest, call, 1, [s], []);
      states, labels, s := RedisStep(c, states, labels, Arrive(2, call));
      states, labels, s := RedisStep(c, states, labels, LookUp(2));
    } else {
      states, labels := DetectionRunsInEveryRound(c, hash, digest, call, k - 1);
      states, labels := LoseRound(c, hash, digest, call, k - 1, states, labels);
    }
  }
}
