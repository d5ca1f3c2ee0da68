/** The mask/demask lifecycle over whole runs of the service on any store that keeps
    the atomic contract. */
module Lifecycle {
  import opened Domain
  import opened AtomicContract
  import opened ProcessRules

  /** A run of the service: the operations its store performed, atomically. */
  datatype Run = Run(
    ttl: real,
    hash: string -> string,
    digest: string -> string,
    ops: seq<Op>,
    replies: seq<Reply>)
  {
    function Contract(): Contract { Service(ttl, hash, digest) }

    ghost predicate Valid() {
      Atomic(Contract(), ops, replies)
    }

    ghost predicate Commit(key: string, i: int)
      requires Valid()
    {
      Commits(Contract(), ops, replies, key, i)
    }

    /** From `i` to `j` no transition on the key found it empty: both commits deal
        with the record that was alive at `i`. */
    ghost predicate SameRecord(key: string, i: int, j: int)
      requires Valid()
    {
      && Commit(key, i) && Commit(key, j) && i <= j
      && forall m :: i < m <= j && Commit(key, m) ==> replies[m].base.Some?
    }
  }

  /** Two states of one record: only the status may differ, and it only moves on. */
  predicate Follows(earlier: Record, later: Record) {
    && later == earlier.(status := later.status)
    && (earlier.status == Demasked ==> later.status == Demasked)
  }

  lemma StepFollows(hash: string -> string, call: Call, missed: bool, attempt: nat, base: Option<Record>,
                    result: Option<Record>)
    requires Decide(hash, call, missed, attempt, base) == Return(result)
    requires base.Some? ==> Coherent(hash, base.value)
    ensures result.Some? && Coherent(hash, result.value)
    ensures base.Some? ==> Follows(base.value, result.value)
  {
  }

  /** Every committed state is a record whose hash is that of its text. */
  lemma {:induction false} CommitsAreCoherent(run: Run, key: string, j: nat)
    requires run.Valid() && run.Commit(key, j)
    ensures run.replies[j].result.Some? && Coherent(run.hash, run.replies[j].result.value)
    ensures run.replies[j].base.Some? ==> Coherent(run.hash, run.replies[j].base.value)
    ensures Decide(run.hash, run.ops[j].call, run.ops[j].missed, run.ops[j].attempt, run.replies[j].base)
            == Return(run.replies[j].result)
    decreases j
  {
    var i := NoLostUpdate(run.Contract(), run.ops, run.replies, j);
    if i >= 0 {
      CommitsAreCoherent(run, key, i);
    }
    StepFollows(run.hash, run.ops[j].call, run.ops[j].missed, run.ops[j].attempt,
                run.replies[j].base, run.replies[j].result);
  }

  /** A commit that finds nothing creates a record of the caller's own text, and what is
      kept beside it and told to the caller is what one run of detection and masking made of
      that text: the run ahead of the transition if the lookup had missed, otherwise the run
      of this attempt. */
  lemma NewRecordIsItsMasking(run: Run, key: string, j: nat)
    requires run.Valid() && run.Commit(key, j) && run.replies[j].base.None?
    ensures run.replies[j].result.Some?
    ensures
      var call, r := run.ops[j].call, run.replies[j].result.value;
      var made := call.masks(if run.ops[j].missed then 0 else run.ops[j].attempt);
      && r.originalText == call.payload && r.originalHash == run.hash(call.payload)
      && r.consumerId == call.consumerId && r.status == Masked
      && r.maskedText == made.maskedText && r.mappings == made.mappings
      && r.entityCount == made.entityCount && r.detectedTypes == made.detectedTypes
      && AnswerOf(run.replies[j])
         == Answered(Outcome(made.maskedText, Mask, made.entityCount, made.detectedTypes))
  {
    CommitsAreCoherent(run, key, j);
  }

  /** A commit that finds a record answers in full: the mask goes back for the original text
      of a masked record, the original text for the mask, with the counts of the masking; and
      only the mask of a record, sent while it is not also the original text, demasks it. */
  lemma FoundRecordIsAnsweredInFull(run: Run, key: string, j: nat)
    requires run.Valid() && run.Commit(key, j) && run.replies[j].base.Some?
    requires CollisionFree(run.hash)
    ensures run.replies[j].result.Some?
    ensures
      var call, before, after := run.ops[j].call, run.replies[j].base.value, run.replies[j].result.value;
      var repeats := call.payload == before.originalText && before.status == Masked;
      && after == before.(status := if repeats then Masked else Demasked)
      && AnswerOf(run.replies[j])
         == Answered(if repeats then Outcome(before.maskedText, Mask, before.entityCount, before.detectedTypes)
                     else Outcome(before.originalText, Demask, before.entityCount, before.detectedTypes))
  {
    CommitsAreCoherent(run, key, j);
  }

  /** Which requests that find a record are turned away, with which error: those of another
      consumer and those whose payload the record does not serve as invalid, and those that
      would demask a masked record though their consumer may not. */
  lemma TurnedAwayInFull(run: Run, j: nat)
    requires run.Valid() && j < |run.ops| && run.ops[j].Transition? && CollisionFree(run.hash)
    ensures run.replies[j].Wrote? || (run.replies[j].Threw? && run.replies[j].base.Some?)
    ensures run.replies[j].base.Some? ==>
              var call, r := run.ops[j].call, run.replies[j].base.value;
              var isMask, repeats := call.payload == r.maskedText, call.payload == r.originalText && r.status == Masked;
              AnswerOf(run.replies[j]).Failed? <==>
              || call.consumerId != r.consumerId || !(isMask || repeats)
              || (r.status == Masked && isMask && !repeats && !call.demaskingEnabled)
    ensures run.replies[j].Threw? ==>
              var call, r := run.ops[j].call, run.replies[j].base.value;
              AnswerOf(run.replies[j])
              == Failed(if call.consumerId == r.consumerId && call.payload == r.maskedText then DemaskingDisabled
                        else InvalidPayload)
  {
    var op := run.ops[j];
    var i := NoLostUpdate(run.Contract(), run.ops, run.replies, j);
    if i >= 0 {
      CommitsAreCoherent(run, run.Contract().keyOf(op.call), i);
    }
    var base := run.replies[j].base;
    if base.Some? {
      ServedPayloads(run.hash, op.call, op.missed, op.attempt, base.value);
    }
  }

  /** While a record lives its texts, hash, mappings and owner never change, and its
      status moves only from masked to demasked. */
  lemma {:induction false} RecordIsStable(run: Run, key: string, i: nat, j: nat)
    requires run.Valid() && run.SameRecord(key, i, j)
    ensures run.replies[i].result.Some? && run.replies[j].result.Some?
    ensures Follows(run.replies[i].result.value, run.replies[j].result.value)
    decreases j
  {
    CommitsAreCoherent(run, key, i);
    if i < j {
      var k := NoLostUpdate(run.Contract(), run.ops, run.replies, j);
      assert i <= k;
      CommitsAreCoherent(run, key, j);
      RecordIsStable(run, key, i, k);
      StepFollows(run.hash, run.ops[j].call, run.ops[j].missed, run.ops[j].attempt,
                  run.replies[j].base, run.replies[j].result);
    }
  }

  /** The text a committed transition sends back to its caller. */
  function ResultOf(reply: Reply): Outcome
    requires reply.Wrote? && reply.result.Some?
  {
    AnswerOf(reply).outcome
  }

  /** However many requests race, with however many different random masks prepared,
      all MASK answers drawn from one record are one string, and so are all DEMASK
      answers. */
  lemma AnswersAgree(run: Run, key: string, i: nat, j: nat)
    requires run.Valid() && run.SameRecord(key, i, j)
    ensures run.replies[i].result.Some? && run.replies[j].result.Some?
    ensures ResultOf(run.replies[i]).operation == ResultOf(run.replies[j]).operation
            ==> ResultOf(run.replies[i]) == ResultOf(run.replies[j])
    ensures ResultOf(run.replies[i]).operation == Demask ==> ResultOf(run.replies[j]).operation == Demask
  {
    RecordIsStable(run, key, i, j);
  }

  /** A caller is served only its own text or the mask: a MASK answer goes to the
      original payload, a DEMASK answer to the mask. */
  lemma AnswersGoToTheirPayload(run: Run, key: string, j: nat)
    requires run.Valid() && run.Commit(key, j)
    requires CollisionFree(run.hash)
    ensures run.replies[j].result.Some?
    ensures
      var r := run.replies[j].result.value;
      var payload := run.ops[j].call.payload;
      && r.consumerId == run.ops[j].call.consumerId
      && (if ResultOf(run.replies[j]).operation == Mask then payload == r.originalText
          else payload == r.maskedText)
  {
    CommitsAreCoherent(run, key, j);
  }

  /** Every accepted answer to the stored mask is the stored original, also when
      masking left the text as it was. */
  lemma MaskIsAnsweredByOriginal(run: Run, key: string, j: nat)
    requires run.Valid() && run.Commit(key, j)
    requires CollisionFree(run.hash)
    ensures run.replies[j].result.Some?
    ensures run.ops[j].call.payload == run.replies[j].result.value.maskedText
            ==> ResultOf(run.replies[j]).result == run.replies[j].result.value.originalText
  {
    AnswersGoToTheirPayload(run, key, j);
  }

  /** The round trip the service is for: a text was masked, and its mask, sent at any
      later time while the record lives, is answered by that text. */
  lemma RoundTrip(run: Run, key: string, i: nat, j: nat)
    requires run.Valid() && run.SameRecord(key, i, j)
    requires CollisionFree(run.hash)
    requires AnswerOf(run.replies[i]).Answered? && AnswerOf(run.replies[i]).outcome.operation == Mask
    requires run.ops[j].call.payload == AnswerOf(run.replies[i]).outcome.result
    ensures AnswerOf(run.replies[j]).Answered?
    ensures AnswerOf(run.replies[j]).outcome.result == run.ops[i].call.payload
    ensures run.ops[j].call.consumerId == run.ops[i].call.consumerId
  {
    RecordIsStable(run, key, i, j);
    AnswersGoToTheirPayload(run, key, i);
    AnswersGoToTheirPayload(run, key, j);
    MaskIsAnsweredByOriginal(run, key, j);
  }

  /** When several requests race to create one record, exactly one payload owns it:
      while the record lives every other payload that is not its mask is refused. */
  lemma OneOwner(run: Run, key: string, i: nat, j: nat)
    requires run.Valid() && run.Commit(key, i) && i < j < |run.ops|
    requires CollisionFree(run.hash)
    requires run.ops[j].Transition? && run.Contract().keyOf(run.ops[j].call) == key
    requires forall m :: i < m < j && run.Commit(key, m) ==> run.replies[m].base.Some?
    requires (run.replies[j].Wrote? || run.replies[j].Threw?) && run.replies[j].base.Some?
    ensures run.replies[i].result.Some?
    ensures
      var r := run.replies[i].result.value;
      run.ops[j].call.payload != r.originalText && run.ops[j].call.payload != r.maskedText
      ==> AnswerOf(run.replies[j]) == Failed(InvalidPayload)
  {
    CommitsAreCoherent(run, key, i);
    var k := NoLostUpdate(run.Contract(), run.ops, run.replies, j);
    assert i <= k;
    RecordIsStable(run, key, i, k);
    CommitsAreCoherent(run, key, k);
    ReplyAt(run.Contract(), run.ops, j);
  }

  /** Until the time to live of a commit runs out, every transition on its key finds its
      record, at most moved from masked to demasked. */
  lemma {:induction false} RecordIsFoundWithinTtl(run: Run, key: string, i: nat, j: nat)
    requires run.Valid() && run.Commit(key, i) && i < j < |run.ops|
    requires run.ops[j].Transition? && run.Contract().keyOf(run.ops[j].call) == key
    requires run.ops[j].at < run.ops[i].now + run.ttl
    ensures run.replies[i].result.Some? && (run.replies[j].Wrote? || run.replies[j].Threw?)
    ensures run.ops[i].now <= run.ops[j].at
    ensures run.replies[j].base.Some? && Follows(run.replies[i].result.value, run.replies[j].base.value)
    decreases j
  {
    CommitsAreCoherent(run, key, i);
    var k := NoLostUpdate(run.Contract(), run.ops, run.replies, j);
    assert i <= k;
    if i < k {
      IndivisibleAt(run.Contract(), run.ops, k);
      RecordIsFoundWithinTtl(run, key, i, k);
      CommitsAreCoherent(run, key, k);
      StepFollows(run.hash, run.ops[k].call, run.ops[k].missed, run.ops[k].attempt,
                  run.replies[k].base, run.replies[k].result);
    }
  }

  /** Until then the record has been demasked exactly when a commit since has done it. */
  lemma DemaskedInHistory(run: Run, key: string, i: nat, j: nat)
    requires run.Valid() && run.Commit(key, i) && i < j < |run.ops|
    requires run.ops[j].Transition? && run.Contract().keyOf(run.ops[j].call) == key
    requires run.ops[j].at < run.ops[i].now + run.ttl
    ensures (run.replies[j].Wrote? || run.replies[j].Threw?) && run.replies[j].base.Some?
    ensures run.replies[j].base.value.status == Demasked <==> exists m :: i <= m < j && Demasks(run, key, m)
  {
    var k := NoLostUpdate(run.Contract(), run.ops, run.replies, j);
    assert i <= k;
    RecordIsFoundWithinTtl(run, key, i, j);
    forall m | i <= m < j && Demasks(run, key, m)
      ensures run.replies[j].base.value.status == Demasked
    {
      forall between | m < between <= k && run.Commit(key, between)
        ensures run.replies[between].base.Some?
      {
        IndivisibleAt(run.Contract(), run.ops, between);
        LaterInLog(run.ops, between, k);
        RecordIsFoundWithinTtl(run, key, i, between);
      }
      RecordIsStable(run, key, m, k);
    }
    if run.replies[j].base.value.status == Demasked {
      assert Demasks(run, key, k);
    }
  }

  /** Commit `m` on the key was answered DEMASK. */
  ghost predicate Demasks(run: Run, key: string, m: int)
    requires run.Valid()
  {
    run.Commit(key, m) && run.replies[m].result.Some? && ResultOf(run.replies[m]).operation == Demask
  }

  /** A key whose record was committed within its time to live is not absent. */
  lemma RecordIsThere(run: Run, key: string, i: nat, j: nat, at: real)
    requires run.Valid() && run.Commit(key, i) && i < j <= |run.ops|
    requires at < run.ops[i].now + run.ttl
    ensures Current(CellsAfter(run.Contract(), run.ops[..j]), key, at).Some?
  {
    var k := BaseIsLatestCommit(run.Contract(), run.ops, run.replies, key, j);
    assert i <= k;
    LaterInLog(run.ops, i, k);
    CommitsAreCoherent(run, key, k);
  }

  /** What masking promises: until the time to live of the masking runs out, its owner
      gets the text back for the mask, whatever other requests raced in between. */
  lemma MaskIsRestoredWithinTtl(run: Run, key: string, i: nat, j: nat)
    requires run.Valid() && run.Commit(key, i) && i < j < |run.ops|
    requires CollisionFree(run.hash)
    requires AnswerOf(run.replies[i]).Answered? && AnswerOf(run.replies[i]).outcome.operation == Mask
    requires run.ops[j].Transition? && run.Contract().keyOf(run.ops[j].call) == key
    requires run.ops[j].at < run.ops[i].now + run.ttl
    requires run.ops[j].call.payload == AnswerOf(run.replies[i]).outcome.result
    requires run.ops[j].call.consumerId == run.ops[i].call.consumerId && run.ops[j].call.demaskingEnabled
    ensures AnswerOf(run.replies[j]).Answered?
    ensures AnswerOf(run.replies[j]).outcome.result == run.ops[i].call.payload
  {
    CommitsAreCoherent(run, key, i);
    AnswersGoToTheirPayload(run, key, i);
    RecordIsFoundWithinTtl(run, key, i, j);
    ReplyAt(run.Contract(), run.ops, j);
    var call, r := run.ops[j].call, run.replies[j].base.value;
    ServedPayloads(run.hash, call, run.ops[j].missed, run.ops[j].attempt, r);
  }
}
