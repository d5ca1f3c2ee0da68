/** What one run of detection and masking on behalf of a request yields: the detected
    entities of the types enabled for the consumer, masked, counted and summed up. */
module MaskPreparation {
  import opened Domain
  import opened Entities
  import opened MaskingEngine
  import SecurePipeline
  import SpanResolution

  /** Order of texts by their characters. */
  predicate Before(a: string, b: string) {
    b != "" && (a == "" || a[0] < b[0] || (a[0] == b[0] && Before(a[1..], b[1..])))
  }

  lemma {:induction false} OneIsBefore(a: string, b: string)
    ensures (Before(a, b) || a == b || Before(b, a)) && !(Before(a, b) && Before(b, a)) && !Before(a, a)
  {
    if a != "" && b != "" {
      OneIsBefore(a[1..], b[1..]);
      assert a == [a[0]] + a[1..] && b == [b[0]] + b[1..];
    }
    if a != "" {
      OneIsBefore(a[1..], a[1..]);
    }
  }

  lemma {:induction false} BeforeThat(a: string, b: string, c: string)
    requires Before(a, b) && Before(b, c)
    ensures Before(a, c)
  {
    if a != "" && a[0] == b[0] && b[0] == c[0] {
      BeforeThat(a[1..], b[1..], c[1..]);
    }
  }

  /** In strict order, so without repetition. */
  predicate Alphabetical(s: seq<string>) {
    forall i, j :: 0 <= i < j < |s| ==> Before(s[i], s[j])
  }

  function Add(s: seq<string>, x: string): (r: seq<string>)
    ensures forall y :: y in r <==> y in s || y == x
  {
    if s == [] then [x]
    else if x == s[0] then s
    else if Before(x, s[0]) then [x] + s
    else [s[0]] + Add(s[1..], x)
  }

  lemma {:induction false} AddKeepsAlphabetical(s: seq<string>, x: string)
    requires Alphabetical(s)
    ensures Alphabetical(Add(s, x))
  {
    if s != [] && x != s[0] {
      OneIsBefore(x, s[0]);
      if Before(x, s[0]) {
        forall j | 0 < j < |s|
          ensures Before(x, s[j])
        {
          BeforeThat(x, s[0], s[j]);
        }
      } else {
        var tail := s[1..];
        assert forall i :: 0 <= i < |tail| ==> tail[i] == s[i + 1];
        AddKeepsAlphabetical(tail, x);
        var r := Add(tail, x);
        forall j | 0 <= j < |r|
          ensures Before(s[0], r[j])
        {
          assert r[j] in r;
        }
      }
    }
  }

  /** The names of the types of some entities, sorted and each once. */
  function DetectedTypes(nameOf: PIIType -> string, entities: seq<Entity>): seq<string> {
    if entities == [] then []
    else Add(DetectedTypes(nameOf, entities[..|entities| - 1]), nameOf(entities[|entities| - 1].kind))
  }

  lemma {:induction false} DetectedTypesInFull(nameOf: PIIType -> string, entities: seq<Entity>)
    ensures Alphabetical(DetectedTypes(nameOf, entities))
    ensures forall name :: name in DetectedTypes(nameOf, entities) <==>
                             exists e :: e in entities && nameOf(e.kind) == name
  {
    if entities != [] {
      var front, last := entities[..|entities| - 1], entities[|entities| - 1];
      assert entities == front + [last];
      DetectedTypesInFull(nameOf, front);
      AddKeepsAlphabetical(DetectedTypes(nameOf, front), nameOf(last.kind));
      assert last in entities;
      forall e | e in front
        ensures e in entities
      {
      }
    }
  }

  /** `candidates` is what the detectors found in the text. */
  method PrepareMasking(text: string, candidates: seq<Entity>, enabled: set<PIIType>, replace: (nat, Entity) -> string,
                        contextRules: seq<RawRule>, nameOf: PIIType -> string)
    returns (masking: Masking, ghost entities: seq<Entity>)
    ensures forall e :: e in entities <==> e in SpanResolution.Resolve(candidates) && e.kind in enabled
    ensures SpanResolution.WellOrdered(SpanResolution.Resolve(candidates)) ==> Apart(entities)
    ensures masking.maskedText == MaskingOf(text, entities, replace, RulesOf(contextRules)).maskedText
    ensures masking.mappings == MaskingOf(text, entities, replace, RulesOf(contextRules)).mappings
    ensures masking.entityCount == |entities|
    ensures Alphabetical(masking.detectedTypes)
    ensures forall name :: name in masking.detectedTypes <==> exists e :: e in entities && nameOf(e.kind) == name
  {
    var resolved := SpanResolution.ResolveSpans(candidates);
    var kept := Keep(resolved, SecurePipeline.OfTypes(enabled));
    var result := Mask(text, kept, replace, contextRules);
    masking := Masking(result.maskedText, result.mappings, |kept|, DetectedTypes(nameOf, kept));
    entities := kept;
    SpanResolution.ResolvedIsApart(candidates);
    if SpanResolution.WellOrdered(resolved) {
      KeepOfApart(resolved, SecurePipeline.OfTypes(enabled));
    }
    DetectedTypesInFull(nameOf, kept);
  }
}
