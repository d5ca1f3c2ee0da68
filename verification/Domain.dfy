/** The records the restoration stores keep, and what a store callback may answer. */
module Domain {

  datatype Option<+T> = None | Some(value: T)

  datatype Status = Masked | Demasked

  /** What is kept between masking a text and restoring it.  The timestamps and
      the payload identifier take part in no decision and are not represented. */
  datatype Record = Record(
    originalHash: string,
    originalText: string,
    maskedText: string,
    mappings: seq<(string, string)>,
    entityCount: nat,
    detectedTypes: seq<string>,
    status: Status,
    consumerId: string)

  /** One run of detection and masking: its outcome may be random. */
  datatype Masking = Masking(
    maskedText: string,
    mappings: seq<(string, string)>,
    entityCount: nat,
    detectedTypes: seq<string>)

  /** One request.  `masks(i)` is what the i-th run of detection and masking on
      behalf of this request would produce. */
  datatype Call = Call(
    payload: string,
    payloadId: string,
    consumerId: string,
    demaskingEnabled: bool,
    masks: nat -> Masking)

  datatype Error = InvalidPayload | DemaskingDisabled | StateRemoved | Overloaded

  /** A transition callback returns the new state (`None` deletes) or raises. */
  datatype CallbackResult = Return(state: Option<Record>) | Raise(error: Error)

  /** One call of the callback: what came of it, and how often it ran detection. */
  datatype Invocation = Invocation(result: CallbackResult, detections: nat)

  /** What a request does between its lookup and its transition: the state it prepared,
      if any, and how often it ran detection for that. */
  datatype Preparation = Preparation(prepared: Option<Record>, detections: nat)
}
