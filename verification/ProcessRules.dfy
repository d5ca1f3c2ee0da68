/** The decisions of `ProcessService`: the storage key, the mask/demask state
    machine, and the answer drawn from the resulting state. */
module ProcessRules {
  import opened Domain
  import opened AtomicContract

  datatype Operation = Mask | Demask

  datatype Outcome = Outcome(
    result: string,
    operation: Operation,
    entityCount: nat,
    detectedTypes: seq<string>)

  datatype Answer = Answered(outcome: Outcome) | Failed(error: Error)

  function StateKey(digest: string -> string, consumerId: string, payloadId: string): string {
    consumerId + ":" + digest(consumerId + "\0" + payloadId)
  }

  /** The state `_prepare_mask` builds from the given run of detection and masking. */
  function PrepareMask(hash: string -> string, call: Call, run: nat): Record {
    var m := call.masks(run);
    Record(hash(call.payload), call.payload, m.maskedText, m.mappings,
           m.entityCount, m.detectedTypes, Masked, call.consumerId)
  }

  /** `process` runs detection and masking ahead of the transition only when its lookup
      found nothing. */
  function Prepare(hash: string -> string, call: Call, missed: bool): Preparation {
    if missed then Preparation(Some(PrepareMask(hash, call, 0)), 1) else Preparation(None, 0)
  }

  function DemaskState(call: Call, current: Record): CallbackResult {
    if !call.demaskingEnabled then Raise(DemaskingDisabled)
    else Return(Some(current.(status := Demasked)))
  }

  /** The callback `_transition`.  It is handed `prepared`, and what it prepares itself
      when that is absent stays its own. */
  function TransitionState(hash: string -> string, call: Call, prepared: Option<Record>, attempt: nat,
                           current: Option<Record>): Invocation
  {
    match current
    case None =>
      (match prepared
       case None => Invocation(Return(Some(PrepareMask(hash, call, attempt))), 1)
       case Some(state) => Invocation(Return(prepared), 0))
    case Some(state) =>
      if state.consumerId != call.consumerId then Invocation(Raise(InvalidPayload), 0)
      else if state.status == Masked then
        if hash(call.payload) == state.originalHash then Invocation(Return(current), 0)
        else if call.payload == state.maskedText then Invocation(DemaskState(call, state), 0)
        else Invocation(Raise(InvalidPayload), 0)
      else if call.payload == state.maskedText then Invocation(Return(current), 0)
      else Invocation(Raise(InvalidPayload), 0)
  }

  /** What the transition of a request makes of the stored state. */
  function Decide(hash: string -> string, call: Call, missed: bool, attempt: nat,
                  current: Option<Record>): CallbackResult
  {
    TransitionState(hash, call, Prepare(hash, call, missed).prepared, attempt, current).result
  }

  function OutcomeFromState(state: Option<Record>): Answer {
    match state
    case None => Failed(StateRemoved)
    case Some(s) =>
      if s.status == Masked then Answered(Outcome(s.maskedText, Mask, s.entityCount, s.detectedTypes))
      else Answered(Outcome(s.originalText, Demask, s.entityCount, s.detectedTypes))
  }

  /** What the caller of `process` gets once the store has replied to its transition. */
  function AnswerOf(reply: Reply): Answer {
    match reply
    case Wrote(_, result) => OutcomeFromState(result)
    case Threw(_, error) => Failed(error)
    case Refused => Failed(Overloaded)
    case Found(state) => OutcomeFromState(state)
  }

  function Service(ttl: real, hash: string -> string, digest: string -> string): Contract {
    Contract(
      ttl,
      (call: Call) => StateKey(digest, call.consumerId, call.payloadId),
      (call: Call, missed: bool) => Prepare(hash, call, missed),
      (call: Call, prepared: Option<Record>, attempt: nat, current: Option<Record>) =>
        TransitionState(hash, call, prepared, attempt, current))
  }

  ghost predicate CollisionFree(hash: string -> string) {
    forall x, y :: hash(x) == hash(y) ==> x == y
  }

  /** The hash kept in a record is that of the text kept beside it. */
  predicate Coherent(hash: string -> string, r: Record) {
    r.originalHash == hash(r.originalText)
  }

  ghost predicate AnswersWith(result: CallbackResult, text: string) {
    && result.Return?
    && OutcomeFromState(result.state).Answered?
    && OutcomeFromState(result.state).outcome.result == text
  }

  /** The consumer's view of a stored record: exactly which payloads are served,
      with which text, and what every other payload is told. */
  lemma ServedPayloads(hash: string -> string, call: Call, missed: bool, attempt: nat, r: Record)
    requires CollisionFree(hash) && Coherent(hash, r)
    ensures
      var reply := Decide(hash, call, missed, attempt, Some(r));
      var isOriginal := call.payload == r.originalText;
      var isMask := call.payload == r.maskedText;
      && (reply == Raise(InvalidPayload) <==>
            call.consumerId != r.consumerId || (!isMask && !(isOriginal && r.status == Masked)))
      && (reply == Raise(DemaskingDisabled) <==>
            call.consumerId == r.consumerId && r.status == Masked && isMask && !isOriginal && !call.demaskingEnabled)
      && (reply.Return? && isMask ==> AnswersWith(reply, r.originalText))
      && (reply.Return? && !isMask ==> isOriginal && reply.state == Some(r) && AnswersWith(reply, r.maskedText))
  {
  }

  /** The advertised idempotent retry of the original payload works exactly until the
      record has been demasked, or for good when masking changed nothing. */
  lemma RetryOfOriginal(hash: string -> string, call: Call, missed: bool, attempt: nat, r: Record)
    requires Coherent(hash, r)
    requires call.consumerId == r.consumerId && call.payload == r.originalText
    ensures AnswersWith(Decide(hash, call, missed, attempt, Some(r)), r.maskedText)
            <==> (r.status == Masked || r.originalText == r.maskedText)
  {
  }

  /** An original payload that is refused on retry: mask it, demask it, send it again. */
  lemma RetryAfterDemaskIsRefused(hash: string -> string, call: Call)
    requires CollisionFree(hash)
    requires call.demaskingEnabled && call.payload != call.masks(0).maskedText
    ensures
      var masked := Decide(hash, call, true, 0, None);
      && AnswersWith(masked, call.masks(0).maskedText)
      && var demasked := Decide(hash, call.(payload := call.masks(0).maskedText), false, 0, masked.state);
      && AnswersWith(demasked, call.payload)
      && Decide(hash, call, false, 0, demasked.state) == Raise(InvalidPayload)
  {
    var m := call.masks(0).maskedText;
    assert hash(m) != hash(call.payload);
  }

  /** Two requests share a storage key exactly when the consumer is the same and the
      digests agree: the fixed digest length makes the consumer readable off the key,
      whatever colons or NULs the identifiers contain. */
  lemma {:induction false} KeyDeterminesConsumer(digest: string -> string, c1: string, p1: string, c2: string,
                                                 p2: string)
    requires |digest(c1 + "\0" + p1)| == |digest(c2 + "\0" + p2)|
    ensures StateKey(digest, c1, p1) == StateKey(digest, c2, p2)
            <==> c1 == c2 && digest(c1 + "\0" + p1) == digest(c2 + "\0" + p2)
  {
    var k1, k2 := StateKey(digest, c1, p1), StateKey(digest, c2, p2);
    var d1, d2 := digest(c1 + "\0" + p1), digest(c2 + "\0" + p2);
    if k1 == k2 {
      assert |c1| == |c2|;
      assert k1[..|c1|] == c1 && k2[..|c2|] == c2;
      assert k1[|c1| + 1..] == d1 && k2[|c2| + 1..] == d2;
    }
  }

  /** Storage keys are unambiguous as long as the digest does not collide on the two
      strings actually hashed. */
  lemma {:induction false} KeyInjective(digest: string -> string, c1: string, p1: string, c2: string, p2: string)
    requires |digest(c1 + "\0" + p1)| == |digest(c2 + "\0" + p2)|
    requires digest(c1 + "\0" + p1) == digest(c2 + "\0" + p2) ==> c1 + "\0" + p1 == c2 + "\0" + p2
    ensures StateKey(digest, c1, p1) == StateKey(digest, c2, p2) <==> c1 == c2 && p1 == p2
  {
    KeyDeterminesConsumer(digest, c1, p1, c2, p2);
    if c1 == c2 && c1 + "\0" + p1 == c2 + "\0" + p2 {
      assert (c1 + "\0" + p1)[|c1| + 1..] == p1 && (c2 + "\0" + p2)[|c2| + 1..] == p2;
    }
  }
}
