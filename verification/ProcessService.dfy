/** `ProcessService` driving the in-memory store through one call, start to finish. */
module ProcessService {
  import opened Domain
  import opened Representation
  import opened ProcessRules
  import opened MemoryStore

  class Service {
    const store: MemoryStore.InMemoryRestorationStore
    const hash: string -> string
    const digest: string -> string

    constructor (store: MemoryStore.InMemoryRestorationStore, hash: string -> string, digest: string -> string)
      ensures this.store == store && this.hash == hash && this.digest == digest
    {
      this.store := store;
      this.hash := hash;
      this.digest := digest;
    }

    /** One request, undisturbed; the clock is read for the lookup, the eviction, the
        transition's read and its write. */
    method Process(call: Call, lookupAt: real, evictAt: real, readAt: real, writeAt: real) returns (answer: Answer)
      requires store.Valid(lookupAt) && lookupAt <= evictAt <= readAt <= writeAt
      modifies store`order, store`table
      ensures store.Valid(writeAt)
      ensures call.payload == "" || call.payloadId == "" ==>
                answer == Failed(InvalidPayload) && store.table == old(store.table)
      ensures call.payload != "" && call.payloadId != "" ==>
                Processed(old(store.table), store.table, call, answer, readAt, writeAt)
    {
      if call.payload == "" || call.payloadId == "" {
        return Failed(InvalidPayload);
      }
      var key := StateKey(digest, call.consumerId, call.payloadId);
      var found := store.Get(key, lookupAt);
      ghost var between := store.table;
      var h, missed := hash, found.None?;
      var fn := (current: Option<Record>) => Decide(h, call, missed, 0, current);
      var reply := store.Transition(key, fn, evictAt, readAt, writeAt);
      LiveElsewhere(old(store.table), between, key, lookupAt, readAt);
      LiveElsewhere(old(store.table), between, key, lookupAt, writeAt);
      SameLiveRecord(old(store.table), between, key, readAt);
      match reply
      case Raise(error) => answer := Failed(error);
      case Return(state) => answer := OutcomeFromState(state);
    }

    /** The answer and the store after a request, from the record that was live when its
        transition read the key. */
    ghost predicate Processed(before: map<string, Stored>, after: map<string, Stored>, call: Call, answer: Answer,
                              readAt: real, writeAt: real)
    {
      var key := StateKey(digest, call.consumerId, call.payloadId);
      var base := LiveRecord(before, key, readAt);
      var result := Decide(hash, call, base.None?, 0, base);
      && Live(after - {key}, writeAt) == Live(before - {key}, writeAt)
      && (answer.Failed? ==> Live(after, writeAt) == Live(before, writeAt))
      && if result.Raise? then
           answer == Failed(result.error)
         else
           || (answer == Failed(Overloaded) && key !in after && |after| == store.maxEntries)
           || (answer == OutcomeFromState(result.state) && answer.Answered?
               && key in after && after[key] == Stored(writeAt + store.ttl, result.state.value)
               && (base.None? ==> MaskedAfresh(call, after[key].record, answer.outcome)))
    }

    /** The record and the answer are what detection and masking made of the text sent. */
    ghost predicate MaskedAfresh(call: Call, r: Record, outcome: Outcome) {
      var made := call.masks(0);
      && r == Record(hash(call.payload), call.payload, made.maskedText, made.mappings, made.entityCount,
                     made.detectedTypes, Masked, call.consumerId)
      && outcome == Outcome(made.maskedText, Mask, made.entityCount, made.detectedTypes)
    }
  }

  lemma SameLiveRecord(t0: map<string, Stored>, t1: map<string, Stored>, key: string, now: real)
    requires Live(t0, now) == Live(t1, now)
    ensures LiveRecord(t0, key, now) == LiveRecord(t1, key, now)
  {
    assert key in Live(t0, now) <==> key in Live(t1, now);
    if key in Live(t0, now) {
      assert Live(t0, now)[key] == Live(t1, now)[key];
    }
  }
}
