/** Selection of the spans to mask, the policy's context rules, and the replacement of
    the selected spans in the text. */
module MaskingEngine {
  import opened Domain
  import opened Entities
  import opened StableSort
  import opened Weaving
  import opened Strategies

  // ----- span selection

  predicate Fits(text: string, e: Entity) {
    0 <= e.start < e.end <= |text| && text[e.start..e.end] == e.value
  }

  function FitsIn(text: string): Entity -> bool { (e: Entity) => Fits(text, e) }

  function Keep(s: seq<Entity>, keep: Entity -> bool): (r: seq<Entity>)
    ensures forall e :: e in r <==> e in s && keep(e)
  {
    if s == [] then []
    else Keep(s[..|s| - 1], keep) + if keep(s[|s| - 1]) then [s[|s| - 1]] else []
  }

  /** Text order; among spans with one start, the longest first. */
  function LongestFirst(e: Entity): Rank { Rank(e.start, -(e.end - e.start)) }

  function ByStart(e: Entity): Rank { Rank(e.start, 0) }

  function Pick(selected: seq<Entity>, e: Entity): seq<Entity> {
    if selected != [] && e.start < selected[|selected| - 1].end then selected else selected + [e]
  }

  function PickAll(s: seq<Entity>): seq<Entity> {
    if s == [] then [] else Pick(PickAll(s[..|s| - 1]), s[|s| - 1])
  }

  function Select(text: string, entities: seq<Entity>): seq<Entity> {
    PickAll(Sort(Keep(entities, FitsIn(text)), LongestFirst))
  }

  lemma KeepOneMore(s: seq<Entity>, keep: Entity -> bool, n: nat)
    requires n < |s|
    ensures Keep(s[..n + 1], keep) == Keep(s[..n], keep) + if keep(s[n]) then [s[n]] else []
  {
    assert s[..n + 1][..n] == s[..n];
  }

  lemma PickOneMore(s: seq<Entity>, n: nat)
    requires n < |s|
    ensures PickAll(s[..n + 1]) == Pick(PickAll(s[..n]), s[n])
  {
    assert s[..n + 1][..n] == s[..n];
  }

  method SelectSpans(text: string, entities: seq<Entity>) returns (selected: seq<Entity>)
    ensures selected == Select(text, entities)
  {
    var valid: seq<Entity> := [];
    for n := 0 to |entities|
      invariant valid == Keep(entities[..n], FitsIn(text))
    {
      KeepOneMore(entities, FitsIn(text), n);
      var e := entities[n];
      if e.start < 0 || e.end > |text| || e.start >= e.end {
        continue;
      }
      if text[e.start..e.end] != e.value {
        continue;
      }
      valid := valid + [e];
    }
    assert entities[..|entities|] == entities;
    valid := Sort(valid, LongestFirst);
    selected := [];
    for n := 0 to |valid|
      invariant selected == PickAll(valid[..n])
    {
      PickOneMore(valid, n);
      if selected != [] && valid[n].start < selected[|selected| - 1].end {
        continue;
      }
      selected := selected + [valid[n]];
    }
    assert valid[..|valid|] == valid;
  }

  ghost predicate AllFit(text: string, s: seq<Entity>) {
    forall e :: e in s ==> Fits(text, e)
  }

  /** The first character of `e` is inside a selected span, which is at least as long as
      `e` if it starts where `e` does. */
  ghost predicate Covered(e: Entity, selected: seq<Entity>) {
    exists k :: k in selected && k.start <= e.start < k.end && (k.start == e.start ==> e.end <= k.end)
  }

  lemma {:induction false} PickAllFacts(text: string, s: seq<Entity>)
    requires AllFit(text, s) && Sorted(s, LongestFirst)
    ensures Apart(PickAll(s))
    ensures forall k :: k in PickAll(s) ==> k in s
    ensures forall e :: e in s ==> Covered(e, PickAll(s))
  {
    if s != [] {
      var front, e := s[..|s| - 1], s[|s| - 1];
      PickAllFacts(text, front);
      var r := PickAll(front);
      PickFacts(text, front, r, e);
    }
  }

  lemma PickFacts(text: string, front: seq<Entity>, r: seq<Entity>, e: Entity)
    requires AllFit(text, front) && Fits(text, e) && Apart(r)
    requires forall k :: k in r ==> k in front
    requires forall x :: x in front ==> Leq(LongestFirst(x), LongestFirst(e)) && Covered(x, r)
    ensures Apart(Pick(r, e))
    ensures forall x :: x in front ==> Covered(x, Pick(r, e))
    ensures Covered(e, Pick(r, e))
  {
    var r' := Pick(r, e);
    if r != [] {
      var last := r[|r| - 1];
      assert last in r && last in front;
      forall i | 0 <= i < |r|
        ensures r[i].end <= last.end
      {
        assert r[i] in r && r[i] in front;
      }
    }
    forall x | x in front
      ensures Covered(x, r')
    {
      var k :| k in r && k.start <= x.start < k.end && (k.start == x.start ==> x.end <= k.end);
      assert k in r';
    }
    if r' == r {
      assert r[|r| - 1] in r';
    } else {
      assert r'[|r|] == e && e in r';
    }
  }

  /** Selected spans lie in the text, match it, and do not overlap; and no valid
      candidate is left out unless its first character is masked anyway. */
  lemma SelectedSpans(text: string, entities: seq<Entity>)
    ensures AllFit(text, Select(text, entities)) && Apart(Select(text, entities))
    ensures forall k :: k in Select(text, entities) ==> k in entities
    ensures forall e :: e in entities && Fits(text, e) ==> Covered(e, Select(text, entities))
  {
    var valid := Keep(entities, FitsIn(text));
    SortSorts(valid, LongestFirst);
    SameElements(valid, LongestFirst);
    PickAllFacts(text, Sort(valid, LongestFirst));
  }

  /** The same spelled out: what makes a candidate valid, and what is selected for it. */
  lemma SelectionInFull(text: string, entities: seq<Entity>)
    ensures forall k :: k in Select(text, entities) ==>
              k in entities && 0 <= k.start < k.end <= |text| && text[k.start..k.end] == k.value
    ensures
      var s := Select(text, entities);
      forall i, j :: 0 <= i < j < |s| ==> s[i].end <= s[j].start
    ensures forall e :: e in entities && 0 <= e.start < e.end <= |text| && text[e.start..e.end] == e.value ==>
              exists k :: k in Select(text, entities)
                          && k.start <= e.start < k.end && (k.start == e.start ==> e.end <= k.end)
  {
    SelectedSpans(text, entities);
    forall e | e in entities && 0 <= e.start < e.end <= |text| && text[e.start..e.end] == e.value
      ensures exists k :: k in Select(text, entities)
                          && k.start <= e.start < k.end && (k.start == e.start ==> e.end <= k.end)
    {
      assert Covered(e, Select(text, entities));
    }
  }

  lemma {:induction false} PickAllOfApart(s: seq<Entity>)
    requires Apart(s)
    ensures PickAll(s) == s
  {
    if s != [] {
      var front, e := s[..|s| - 1], s[|s| - 1];
      ApartFront(s);
      PickAllOfApart(front);
      assert s == front + [e];
    }
  }

  lemma {:induction false} KeepAll(s: seq<Entity>, keep: Entity -> bool)
    requires forall e :: e in s ==> keep(e)
    ensures Keep(s, keep) == s
  {
    if s != [] {
      KeepAll(s[..|s| - 1], keep);
      assert s == s[..|s| - 1] + [s[|s| - 1]];
    }
  }

  /** Disjoint matching spans in text order are selected just as they are. */
  lemma ApartSpansAreSelected(text: string, s: seq<Entity>)
    requires AllFit(text, s) && Apart(s)
    ensures Select(text, s) == s
  {
    KeepAll(s, FitsIn(text));
    assert forall i :: 0 <= i < |s| ==> s[i] in s;
    SortOfSorted(s, LongestFirst);
    PickAllOfApart(s);
  }

  lemma {:induction false} KeepOfApart(s: seq<Entity>, keep: Entity -> bool)
    requires Apart(s)
    ensures Apart(Keep(s, keep))
  {
    if s != [] {
      var front, e := s[..|s| - 1], s[|s| - 1];
      KeepOfApart(front, keep);
      var r := Keep(front, keep);
      forall i | 0 <= i < |r|
        ensures r[i].end <= e.start
      {
        assert r[i] in front;
      }
    }
  }

  function Length(e: Entity): int { e.end - e.start }

  /** `e` meets a selected span that is at least as long. */
  ghost predicate LongestMet(e: Entity, selected: seq<Entity>) {
    exists k :: k in selected && Overlaps(k, e) && Length(k) >= Length(e)
  }

  /** `b` starts inside `a`, which is shorter: the one case in which start beats length. */
  predicate Undercuts(a: Entity, b: Entity) {
    a.start < b.start < a.end && Length(a) < Length(b)
  }

  /** The longest of overlapping spans is kept, in that every valid candidate meets a
      selected span at least as long, unless one starts inside a shorter one. */
  lemma LongestIsKeptUnlessUndercut(text: string, entities: seq<Entity>, e: Entity)
    requires e in entities && Fits(text, e)
    ensures LongestMet(e, Select(text, entities)) || exists a :: a in Select(text, entities) && Undercuts(a, e)
  {
    SelectedSpans(text, entities);
    assert Covered(e, Select(text, entities));
    var k :| k in Select(text, entities) && k.start <= e.start < k.end && (k.start == e.start ==> e.end <= k.end);
    assert Overlaps(k, e);
  }

  /** So a candidate that starts inside no shorter valid one meets a selected span at least
      as long. */
  lemma LongestIsKept(text: string, entities: seq<Entity>, e: Entity)
    requires e in entities && Fits(text, e)
    requires forall a :: a in entities && Fits(text, a) ==> !Undercuts(a, e)
    ensures LongestMet(e, Select(text, entities))
  {
    SelectedSpans(text, entities);
    LongestIsKeptUnlessUndercut(text, entities, e);
  }

  /** Of two overlapping spans the one that starts earlier is kept, however short; the
      longest is kept exactly when the later one is no longer. */
  lemma EarlierSpanWins(text: string, a: Entity, b: Entity)
    requires Fits(text, a) && Fits(text, b) && a.start < b.start < a.end
    ensures Select(text, [a, b]) == [a] && Select(text, [b, a]) == [a]
    ensures LongestMet(a, [a]) && (LongestMet(b, [a]) <==> !Undercuts(a, b))
  {
    SortOfTwo(a, b);
    PickOfTwo(a, b);
    SelectOfFitting(text, [a, b], [a, b], [a]);
    SelectOfFitting(text, [b, a], [a, b], [a]);
    assert a in [a];
  }

  lemma SelectOfFitting(text: string, s: seq<Entity>, sorted: seq<Entity>, picked: seq<Entity>)
    requires AllFit(text, s) && Sort(s, LongestFirst) == sorted && PickAll(sorted) == picked
    ensures Select(text, s) == picked
  {
    KeepAll(s, FitsIn(text));
  }

  lemma SortOfTwo(a: Entity, b: Entity)
    requires a.start < b.start
    ensures Sort([b, a], LongestFirst) == [a, b] && Sort([a, b], LongestFirst) == [a, b]
  {
    SortOfSorted([a, b], LongestFirst);
    assert [b, a][..1] == [b] && [b][..0] == [];
    assert Sort([b], LongestFirst) == [b];
    assert Insert([b], a, LongestFirst) == Insert([], a, LongestFirst) + [b] == [a] + [b];
  }

  lemma PickOfTwo(a: Entity, b: Entity)
    requires a.start < b.start < a.end
    ensures PickAll([a, b]) == [a]
  {
    assert [a, b][..1] == [a] && [a][..0] == [];
    assert PickAll([a]) == [a];
  }

  // ----- context rules

  /** A rule as written in the policy: `kind` is None when it names no known type;
      `required` is None when it is not a list, and an item of it is None when it names
      no known type.  `enabled` is false only for an explicit false. */
  datatype RawRule = RawRule(kind: Option<PIIType>, enabled: bool, required: Option<seq<Option<PIIType>>>)

  const CONTEXT_REQUIRES: map<PIIType, set<PIIType>> := map[]

  /** What the rule says, if it says anything. */
  function Effect(rule: RawRule): Option<set<PIIType>> {
    if rule.kind.None? then Option.None
    else if !rule.enabled then Some({})
    else if rule.required.None? || rule.required.value == [] || Option.None in rule.required.value then Option.None
    else Some(set r | r in rule.required.value && r.Some? :: r.value)
  }

  /** The rules that say something, later ones overriding earlier ones. */
  function Stated(contextRules: seq<RawRule>): map<PIIType, set<PIIType>> {
    if contextRules == [] then map[]
    else
      var before, rule := Stated(contextRules[..|contextRules| - 1]), contextRules[|contextRules| - 1];
      match Effect(rule)
      case None => before
      case Some(required) => before[rule.kind.value := required]
  }

  function RulesOf(contextRules: seq<RawRule>): map<PIIType, set<PIIType>> {
    if Stated(contextRules) == map[] then CONTEXT_REQUIRES else Stated(contextRules)
  }

  method ResolveContextRules(contextRules: seq<RawRule>) returns (rules: map<PIIType, set<PIIType>>)
    ensures rules == RulesOf(contextRules)
  {
    if contextRules == [] {
      return CONTEXT_REQUIRES;
    }
    rules := map[];
    for n := 0 to |contextRules|
      invariant rules == Stated(contextRules[..n])
    {
      var rule := contextRules[n];
      assert contextRules[..n + 1][..n] == contextRules[..n];
      if rule.kind.Some? {
        if !rule.enabled {
          rules := rules[rule.kind.value := {}];
        } else if rule.required.Some? && rule.required.value != [] && Option.None !in rule.required.value {
          rules := rules[rule.kind.value := set r | r in rule.required.value && r.Some? :: r.value];
        }
      }
    }
    assert contextRules[..|contextRules|] == contextRules;
    if rules == map[] {
      return CONTEXT_REQUIRES;
    }
  }

  /** The last rule of the list with anything to say about `kind`. */
  ghost predicate LastRule(rules: seq<RawRule>, kind: PIIType, i: int) {
    && 0 <= i < |rules| && rules[i].kind == Some(kind) && Effect(rules[i]).Some?
    && forall j :: i < j < |rules| && rules[j].kind == Some(kind) ==> Effect(rules[j]).None?
  }

  /** Each type is governed by its last meaningful rule; other types by none. */
  ghost predicate RulesOk(raw: seq<RawRule>, rules: map<PIIType, set<PIIType>>) {
    && (forall kind :: kind in rules ==> exists i :: LastRule(raw, kind, i) && Effect(raw[i]) == Some(rules[kind]))
    && (forall i :: 0 <= i < |raw| && raw[i].kind.Some? && Effect(raw[i]).Some? ==> raw[i].kind.value in rules)
  }

  lemma RulesNext(raw: seq<RawRule>, rules: map<PIIType, set<PIIType>>, rule: RawRule,
                  next: map<PIIType, set<PIIType>>)
    requires RulesOk(raw, rules)
    requires next == match Effect(rule) case None => rules case Some(required) => rules[rule.kind.value := required]
    ensures RulesOk(raw + [rule], next)
  {
    var longer := raw + [rule];
    forall kind | kind in next
      ensures exists i :: LastRule(longer, kind, i) && Effect(longer[i]) == Some(next[kind])
    {
      if Effect(rule).Some? && rule.kind.value == kind {
        assert LastRule(longer, kind, |raw|);
      } else {
        var i :| LastRule(raw, kind, i) && Effect(raw[i]) == Some(rules[kind]);
        assert longer[i] == raw[i];
        assert LastRule(longer, kind, i);
      }
    }
    forall i | 0 <= i < |longer| && longer[i].kind.Some? && Effect(longer[i]).Some?
      ensures longer[i].kind.value in next
    {
      if i < |raw| {
        assert longer[i] == raw[i];
      }
    }
  }

  /** Each type is governed by the last rule of the policy that says something about it,
      and a type without such a rule by none. */
  lemma {:induction false} LastRuleGoverns(raw: seq<RawRule>)
    ensures RulesOk(raw, RulesOf(raw)) && RulesOk(raw, Stated(raw))
  {
    if raw != [] {
      var front, rule := raw[..|raw| - 1], raw[|raw| - 1];
      LastRuleGoverns(front);
      RulesNext(front, Stated(front), rule, Stated(raw));
      assert raw == front + [rule];
    }
  }

  predicate ContextAllows(kind: PIIType, present: set<PIIType>, rules: map<PIIType, set<PIIType>>) {
    kind !in rules || rules[kind] == {} || rules[kind] * present != {}
  }

  function TypesOf(s: seq<Entity>): set<PIIType> { set e | e in s :: e.kind }

  function AllowedBy(present: set<PIIType>, rules: map<PIIType, set<PIIType>>): Entity -> bool {
    (e: Entity) => ContextAllows(e.kind, present, rules)
  }

  /** The spans that get replaced: those selected whose type the context allows. */
  function Replaced(text: string, entities: seq<Entity>, rules: map<PIIType, set<PIIType>>): seq<Entity> {
    var selected := Select(text, entities);
    Keep(selected, AllowedBy(TypesOf(selected), rules))
  }

  /** Exactly which spans are replaced: those selected whose type no rule governs, or whose
      rule requires nothing, or of whose required types one was selected too. */
  lemma ReplacedExactly(text: string, entities: seq<Entity>, rules: map<PIIType, set<PIIType>>, e: Entity)
    ensures e in Replaced(text, entities, rules) <==>
            && e in Select(text, entities)
            && (e.kind !in rules || rules[e.kind] == {}
                || exists x :: x in Select(text, entities) && x.kind in rules[e.kind])
  {
    var selected := Select(text, entities);
    if e.kind in rules && rules[e.kind] * TypesOf(selected) != {} {
      var kind :| kind in rules[e.kind] * TypesOf(selected);
      var x :| x in selected && x.kind == kind;
    }
    if e.kind in rules {
      forall x | x in selected && x.kind in rules[e.kind]
        ensures rules[e.kind] * TypesOf(selected) != {}
      {
        assert x.kind in rules[e.kind] * TypesOf(selected);
      }
    }
  }

  /** What one more rule does to the rules stated so far: a rule for no known type, and an
      enabled one without a list of known required types, do nothing; a disabled one lifts
      the requirement of its type; any other sets it. */
  lemma OneMoreRule(raw: seq<RawRule>, rule: RawRule)
    ensures rule.kind.None? ==> Stated(raw + [rule]) == Stated(raw)
    ensures rule.kind.Some? && !rule.enabled ==> Stated(raw + [rule]) == Stated(raw)[rule.kind.value := {}]
    ensures rule.kind.Some? && rule.enabled
            && (rule.required.None? || rule.required.value == [] || Option.None in rule.required.value) ==>
              Stated(raw + [rule]) == Stated(raw)
    ensures rule.kind.Some? && rule.enabled && rule.required.Some? && rule.required.value != []
            && Option.None !in rule.required.value ==>
              && rule.kind.value in Stated(raw + [rule])
              && (forall k :: k in Stated(raw + [rule])[rule.kind.value] <==> Some(k) in rule.required.value)
              && Stated(raw + [rule]) - {rule.kind.value} == Stated(raw) - {rule.kind.value}
  {
    assert (raw + [rule])[..|raw|] == raw;
  }

  /** Without a rule that says something, nothing is required of any type. */
  lemma NoRuleRequiresNothing(raw: seq<RawRule>)
    ensures Stated([]) == map[] && RulesOf([]) == map[]
    ensures Stated(raw) != map[] ==> RulesOf(raw) == Stated(raw)
    ensures Stated(raw) == map[] ==> RulesOf(raw) == map[]
  {
  }

  // ----- replacement

  datatype MaskingResult = MaskingResult(
    maskedText: string,
    entities: seq<Entity>,
    mappings: seq<(string, string)>)

  /** Where the text after the first `i` spans begins. */
  function EndOf(spans: seq<Entity>, i: nat): int
    requires i <= |spans|
  {
    if i == 0 then 0 else spans[i - 1].end
  }

  ghost predicate Laid(text: string, spans: seq<Entity>) {
    AllFit(text, spans) && Apart(spans)
  }

  lemma LaidOut(text: string, spans: seq<Entity>, i: nat)
    requires Laid(text, spans) && i <= |spans|
    ensures 0 <= EndOf(spans, i) <= (if i < |spans| then spans[i].start else |text|) <= |text|
    ensures i < |spans| ==> Fits(text, spans[i])
  {
    if i < |spans| {
      assert spans[i] in spans;
    }
    if i > 0 {
      assert spans[i - 1] in spans;
    }
  }

  /** The text before span `i`, back to the span before it. */
  function Gap(text: string, spans: seq<Entity>, i: nat): string
    requires i <= |spans|
  {
    var from, to := EndOf(spans, i), if i < |spans| then spans[i].start else |text|;
    if 0 <= from <= to <= |text| then text[from..to] else ""
  }

  function Gaps(text: string, spans: seq<Entity>): (r: seq<string>)
    ensures |r| == |spans| + 1
  {
    seq(|spans| + 1, i requires 0 <= i <= |spans| => Gap(text, spans, i))
  }

  function Values(spans: seq<Entity>): (r: seq<string>)
    ensures |r| == |spans|
  {
    seq(|spans|, i requires 0 <= i < |spans| => spans[i].value)
  }

  function Replacements(spans: seq<Entity>, replace: (nat, Entity) -> string): (r: seq<string>)
    ensures |r| == |spans|
  {
    seq(|spans|, i requires 0 <= i < |spans| => replace(i, spans[i]))
  }

  function Mappings(spans: seq<Entity>, replace: (nat, Entity) -> string): (r: seq<(string, string)>)
    ensures |r| == |spans|
  {
    seq(|spans|, i requires 0 <= i < |spans| => (replace(i, spans[i]), spans[i].value))
  }

  function Concat(pieces: seq<string>): string {
    if pieces == [] then "" else Concat(pieces[..|pieces| - 1]) + pieces[|pieces| - 1]
  }

  lemma ConcatTwo(pieces: seq<string>, a: string, b: string)
    ensures Concat(pieces + [a, b]) == Concat(pieces) + a + b
    ensures Concat(pieces + [a]) == Concat(pieces) + a
  {
    assert (pieces + [a, b])[..|pieces| + 1] == pieces + [a];
    assert (pieces + [a])[..|pieces|] == pieces;
  }

  /** Element `n`, if kept, comes right after what is kept of the elements before it. */
  lemma {:induction false} KeepNext(s: seq<Entity>, keep: Entity -> bool, n: nat)
    requires n < |s|
    ensures |Keep(s[..n + 1], keep)| == |Keep(s[..n], keep)| + (if keep(s[n]) then 1 else 0) <= |Keep(s, keep)|
    ensures keep(s[n]) ==> Keep(s, keep)[|Keep(s[..n], keep)|] == s[n]
  {
    assert s[..n + 1][..n] == s[..n];
    var front := s[..|s| - 1];
    if n == |front| {
      assert n + 1 == |s| && s[..|s|] == s;
    } else {
      KeepNext(front, keep, n);
      assert front[..n] == s[..n] && front[..n + 1] == s[..n + 1];
    }
  }

  /** After the first `|mappings|` of the spans have been replaced. */
  ghost predicate Done(text: string, spans: seq<Entity>, replace: (nat, Entity) -> string,
                       pieces: seq<string>, mappings: seq<(string, string)>, cursor: int)
  {
    && |mappings| <= |spans| && cursor == EndOf(spans, |mappings|)
    && mappings == Mappings(spans, replace)[..|mappings|]
    && Concat(pieces) == Interleave(Gaps(text, spans), Replacements(spans, replace), |mappings|)
  }

  lemma ReplaceNext(text: string, spans: seq<Entity>, replace: (nat, Entity) -> string,
                    pieces: seq<string>, mappings: seq<(string, string)>, cursor: int)
    requires Laid(text, spans) && Done(text, spans, replace, pieces, mappings, cursor)
    requires |mappings| < |spans|
    ensures
      var e, r := spans[|mappings|], replace(|mappings|, spans[|mappings|]);
      && 0 <= cursor <= e.start <= |text|
      && Done(text, spans, replace, pieces + [text[cursor..e.start], r], mappings + [(r, e.value)], e.end)
  {
    var m := |mappings|;
    LaidOut(text, spans, m);
    var e, r := spans[m], replace(m, spans[m]);
    ConcatTwo(pieces, text[cursor..e.start], r);
    assert Gaps(text, spans)[m] == text[cursor..e.start];
  }

  /** The masked text is the original one with the replaced spans, and nothing else,
      exchanged for their replacements, which the mappings list in text order. */
  function MaskingOf(text: string, entities: seq<Entity>, replace: (nat, Entity) -> string,
                     rules: map<PIIType, set<PIIType>>): MaskingResult
  {
    var spans := Replaced(text, entities, rules);
    MaskingResult(
      Weave(Gaps(text, spans), Replacements(spans, replace)),
      Select(text, entities),
      Mappings(spans, replace))
  }

  lemma ReplaceLast(text: string, spans: seq<Entity>, replace: (nat, Entity) -> string,
                    pieces: seq<string>, mappings: seq<(string, string)>, cursor: int)
    requires Laid(text, spans) && Done(text, spans, replace, pieces, mappings, cursor)
    requires |mappings| == |spans|
    ensures 0 <= cursor <= |text|
    ensures Concat(pieces + [text[cursor..]]) == Weave(Gaps(text, spans), Replacements(spans, replace))
    ensures mappings == Mappings(spans, replace)
  {
    LaidOut(text, spans, |spans|);
    ConcatTwo(pieces, text[cursor..], "");
    assert Gaps(text, spans)[|spans|] == text[cursor..];
  }

  lemma SelectedInStartOrder(text: string, entities: seq<Entity>)
    ensures Sort(Select(text, entities), ByStart) == Select(text, entities)
  {
    var selected := Select(text, entities);
    SelectedSpans(text, entities);
    assert forall i :: 0 <= i < |selected| ==> selected[i] in selected;
    SortOfSorted(selected, ByStart);
  }

  /** The loop of `mask`: cut the text at the spans the context allows, and note what
      replaces what. */
  method ReplaceSpans(text: string, ordered: seq<Entity>, replace: (nat, Entity) -> string,
                      present: set<PIIType>, rules: map<PIIType, set<PIIType>>)
    returns (pieces: seq<string>, mappings: seq<(string, string)>)
    requires Laid(text, Keep(ordered, AllowedBy(present, rules)))
    ensures
      var spans := Keep(ordered, AllowedBy(present, rules));
      && Concat(pieces) == Weave(Gaps(text, spans), Replacements(spans, replace))
      && mappings == Mappings(spans, replace)
  {
    ghost var keep := AllowedBy(present, rules);
    ghost var spans := Keep(ordered, keep);
    var cursor := 0;
    pieces, mappings := [], [];
    for n := 0 to |ordered|
      invariant |mappings| == |Keep(ordered[..n], keep)|
      invariant Done(text, spans, replace, pieces, mappings, cursor)
    {
      var entity := ordered[n];
      KeepNext(ordered, keep, n);
      if !ContextAllows(entity.kind, present, rules) {
        continue;
      }
      ReplaceNext(text, spans, replace, pieces, mappings, cursor);
      var replacement := replace(|mappings|, entity);
      pieces := pieces + [text[cursor..entity.start], replacement];
      mappings := mappings + [(replacement, entity.value)];
      cursor := entity.end;
    }
    assert ordered[..|ordered|] == ordered;
    ReplaceLast(text, spans, replace, pieces, mappings, cursor);
    pieces := pieces + [text[cursor..]];
  }

  /** `replace(i, e)` is the strategy's output for span `e`, the i-th to be replaced; it
      may be random. */
  method Mask(text: string, entities: seq<Entity>, replace: (nat, Entity) -> string, contextRules: seq<RawRule>)
    returns (result: MaskingResult)
    ensures result == MaskingOf(text, entities, replace, RulesOf(contextRules))
  {
    var valid := SelectSpans(text, entities);
    var rules := ResolveContextRules(contextRules);
    var present := TypesOf(valid);
    var ordered := Sort(valid, ByStart);
    SelectedInStartOrder(text, entities);
    ReplacedIsLaid(text, entities, rules);
    var pieces, mappings := ReplaceSpans(text, ordered, replace, present, rules);
    result := MaskingResult(Concat(pieces), valid, mappings);
  }

  /** Where span `i - 1` and the gap before it stand in the text. */
  lemma GapBefore(text: string, spans: seq<Entity>, i: nat)
    requires Laid(text, spans) && 0 < i <= |spans|
    ensures 0 <= EndOf(spans, i - 1) <= spans[i - 1].start < spans[i - 1].end == EndOf(spans, i) <= |text|
    ensures Gaps(text, spans)[i - 1] == text[EndOf(spans, i - 1)..spans[i - 1].start]
    ensures Values(spans)[i - 1] == text[spans[i - 1].start..spans[i - 1].end]
  {
    LaidOut(text, spans, i - 1);
    assert spans[i - 1] in spans;
  }

  lemma {:induction false} InterleaveIsText(text: string, spans: seq<Entity>, i: nat)
    requires Laid(text, spans) && i <= |spans|
    ensures 0 <= EndOf(spans, i) <= |text|
    ensures Interleave(Gaps(text, spans), Values(spans), i) == text[..EndOf(spans, i)]
  {
    if i == 0 {
      assert Interleave(Gaps(text, spans), Values(spans), 0) == "";
    } else {
      GapBefore(text, spans, i);
      InterleaveIsText(text, spans, i - 1);
      InterleaveExtends(Gaps(text, spans), Values(spans), i, text, EndOf(spans, i - 1), spans[i - 1].start,
        spans[i - 1].end);
    }
  }

  lemma ReplacedIsLaid(text: string, entities: seq<Entity>, rules: map<PIIType, set<PIIType>>)
    ensures Laid(text, Replaced(text, entities, rules))
  {
    var selected := Select(text, entities);
    SelectedSpans(text, entities);
    KeepOfApart(selected, AllowedBy(TypesOf(selected), rules));
  }

  function Firsts(mappings: seq<(string, string)>): (r: seq<string>)
    ensures |r| == |mappings|
  {
    seq(|mappings|, i requires 0 <= i < |mappings| => mappings[i].0)
  }

  function Seconds(mappings: seq<(string, string)>): (r: seq<string>)
    ensures |r| == |mappings|
  {
    seq(|mappings|, i requires 0 <= i < |mappings| => mappings[i].1)
  }

  /** Text and masked text share one decomposition: the same gaps, with the recorded
      originals between them on one side and the recorded replacements on the other. */
  lemma Segmentation(text: string, entities: seq<Entity>, replace: (nat, Entity) -> string,
                     rules: map<PIIType, set<PIIType>>)
    returns (gaps: seq<string>)
    ensures gaps == Gaps(text, Replaced(text, entities, rules))
    ensures
      var m := MaskingOf(text, entities, replace, rules);
      && |gaps| == |m.mappings| + 1
      && text == Weave(gaps, Seconds(m.mappings))
      && m.maskedText == Weave(gaps, Firsts(m.mappings))
  {
    var spans := Replaced(text, entities, rules);
    var m := MaskingOf(text, entities, replace, rules);
    gaps := Gaps(text, spans);
    ReplacedIsLaid(text, entities, rules);
    WeaveIsText(text, spans);
    assert Values(spans) == Seconds(m.mappings);
    assert Replacements(spans, replace) == Firsts(m.mappings);
  }

  /** What one decomposition consists of: the i-th mapping pairs what the strategy made of
      the i-th replaced span with its value. */
  lemma MappingsInFull(text: string, entities: seq<Entity>, replace: (nat, Entity) -> string,
                       rules: map<PIIType, set<PIIType>>)
    ensures
      var spans, m := Replaced(text, entities, rules), MaskingOf(text, entities, replace, rules);
      && m.entities == Select(text, entities) && |m.mappings| == |spans|
      && forall i :: 0 <= i < |spans| ==> m.mappings[i] == (replace(i, spans[i]), spans[i].value)
  {
  }

  /** The gaps are what stands before, between and after the replaced spans. */
  lemma GapsInFull(text: string, spans: seq<Entity>, i: nat)
    requires Laid(text, spans) && i <= |spans|
    ensures
      var from, to := if i == 0 then 0 else spans[i - 1].end, if i == |spans| then |text| else spans[i].start;
      0 <= from <= to <= |text| && Gaps(text, spans)[i] == text[from..to]
  {
    LaidOut(text, spans, i);
  }

  lemma WeaveIsText(text: string, spans: seq<Entity>)
    requires Laid(text, spans)
    ensures Weave(Gaps(text, spans), Values(spans)) == text
  {
    var n := |spans|;
    InterleaveIsText(text, spans, n);
    LaidOut(text, spans, n);
    assert text == text[..EndOf(spans, n)] + text[EndOf(spans, n)..];
    assert Gaps(text, spans)[n] == text[EndOf(spans, n)..];
  }

  // ----- masking in full is pointwise

  predicate Inside(spans: seq<Entity>, p: int) {
    exists e :: e in spans && e.start <= p < e.end
  }

  /** Letters and digits in the masked regions are blotted out, all else stays. */
  function Blotted(alnum: char -> bool, text: string, spans: seq<Entity>): (r: string)
    ensures |r| == |text|
  {
    seq(|text|, p requires 0 <= p < |text| => if Inside(spans, p) && alnum(text[p]) then MASK_CHAR else text[p])
  }

  /** Position `p` of gap `i` is outside every span, of span `i` inside it. */
  lemma WhereIsInside(text: string, spans: seq<Entity>, i: nat, p: int)
    requires Laid(text, spans) && i <= |spans|
    ensures EndOf(spans, i) <= p < (if i < |spans| then spans[i].start else |text|) ==> !Inside(spans, p)
    ensures i < |spans| && spans[i].start <= p < spans[i].end ==> Inside(spans, p)
  {
    if i < |spans| {
      assert spans[i] in spans;
    }
    if EndOf(spans, i) <= p < (if i < |spans| then spans[i].start else |text|) {
      forall e | e in spans
        ensures !(e.start <= p < e.end)
      {
        var k :| 0 <= k < |spans| && spans[k] == e;
        if k < i {
          assert spans[k].end <= EndOf(spans, i) by {
            if k < i - 1 {
              assert spans[i - 1] in spans;
              assert spans[k].end <= spans[i - 1].start;
            }
          }
        } else if i < k {
          assert spans[i].end <= spans[k].start;
        }
      }
    }
  }

  /** The full-mask strategy. */
  function InFull(alnum: char -> bool): (nat, Entity) -> string {
    (k, e: Entity) => MaskAllAlnum(alnum, e.value)
  }

  lemma BlottedSpan(alnum: char -> bool, text: string, spans: seq<Entity>, i: nat)
    requires Laid(text, spans) && i < |spans|
    ensures 0 <= EndOf(spans, i) <= spans[i].start < spans[i].end <= |text|
    ensures Blotted(alnum, text, spans)[EndOf(spans, i)..spans[i].start] == Gap(text, spans, i)
    ensures Blotted(alnum, text, spans)[spans[i].start..spans[i].end] == MaskAllAlnum(alnum, spans[i].value)
  {
    LaidOut(text, spans, i);
    var b, e, from := Blotted(alnum, text, spans), spans[i], EndOf(spans, i);
    forall p | from <= p < e.start
      ensures b[p] == text[p]
    {
      WhereIsInside(text, spans, i, p);
    }
    forall p | e.start <= p < e.end
      ensures b[p] == MaskAllAlnum(alnum, e.value)[p - e.start]
    {
      WhereIsInside(text, spans, i, p);
      assert e.value[p - e.start] == text[p];
    }
  }

  /** What stands at gap and span `i - 1` after blotting in place. */
  lemma BlottedPieces(alnum: char -> bool, text: string, spans: seq<Entity>, i: nat)
    requires Laid(text, spans) && 0 < i <= |spans|
    ensures 0 <= EndOf(spans, i - 1) <= spans[i - 1].start <= spans[i - 1].end == EndOf(spans, i) <= |text|
    ensures
      var b, e := Blotted(alnum, text, spans), spans[i - 1];
      && Gaps(text, spans)[i - 1] == b[EndOf(spans, i - 1)..e.start]
      && Replacements(spans, InFull(alnum))[i - 1] == b[e.start..e.end]
  {
    BlottedSpan(alnum, text, spans, i - 1);
  }

  lemma {:induction false} InterleaveIsBlotted(alnum: char -> bool, text: string, spans: seq<Entity>, b: string,
                                               gaps: seq<string>, fills: seq<string>, i: nat)
    requires Laid(text, spans) && i <= |spans| && b == Blotted(alnum, text, spans)
    requires gaps == Gaps(text, spans) && fills == Replacements(spans, InFull(alnum))
    ensures 0 <= EndOf(spans, i) <= |b|
    ensures Interleave(gaps, fills, i) == b[..EndOf(spans, i)]
  {
    if i == 0 {
      assert Interleave(gaps, fills, 0) == "";
    } else {
      BlottedPieces(alnum, text, spans, i);
      InterleaveIsBlotted(alnum, text, spans, b, gaps, fills, i - 1);
      InterleaveExtends(gaps, fills, i, b, EndOf(spans, i - 1), spans[i - 1].start, spans[i - 1].end);
    }
  }

  lemma BlottedTail(alnum: char -> bool, text: string, spans: seq<Entity>)
    requires Laid(text, spans)
    ensures 0 <= EndOf(spans, |spans|) <= |text|
    ensures Blotted(alnum, text, spans)[EndOf(spans, |spans|)..] == Gap(text, spans, |spans|)
  {
    var n, b := |spans|, Blotted(alnum, text, spans);
    LaidOut(text, spans, n);
    forall p | EndOf(spans, n) <= p < |text|
      ensures b[p] == text[p]
    {
      WhereIsInside(text, spans, n, p);
    }
  }

  lemma WeaveIsBlotted(alnum: char -> bool, text: string, spans: seq<Entity>)
    requires Laid(text, spans)
    ensures Weave(Gaps(text, spans), Replacements(spans, InFull(alnum))) == Blotted(alnum, text, spans)
  {
    var n, b := |spans|, Blotted(alnum, text, spans);
    InterleaveIsBlotted(alnum, text, spans, b, Gaps(text, spans), Replacements(spans, InFull(alnum)), n);
    BlottedTail(alnum, text, spans);
    assert b == b[..EndOf(spans, n)] + b[EndOf(spans, n)..];
    assert Gaps(text, spans)[n] == Gap(text, spans, n);
  }

  /** When every type is masked in full, cutting the text apart and joining the pieces
      is the same as blotting out characters in place. */
  lemma FullMaskIsPointwise(alnum: char -> bool, text: string, entities: seq<Entity>,
                            rules: map<PIIType, set<PIIType>>)
    ensures MaskingOf(text, entities, InFull(alnum), rules).maskedText
            == Blotted(alnum, text, Replaced(text, entities, rules))
  {
    ReplacedIsLaid(text, entities, rules);
    WeaveIsBlotted(alnum, text, Replaced(text, entities, rules));
  }

  /** Masking in full once more, with any rules, any spans that stay inside the regions
      already masked, changes nothing more. */
  lemma MaskingAgainChangesNothing(alnum: char -> bool, text: string, entities: seq<Entity>,
                                   rules: map<PIIType, set<PIIType>>,
                                   masked: string, again: seq<Entity>, otherRules: map<PIIType, set<PIIType>>)
    requires !alnum(MASK_CHAR)
    requires masked == MaskingOf(text, entities, InFull(alnum), rules).maskedText
    requires forall e, p :: e in again && e.start <= p < e.end ==> Inside(Replaced(text, entities, rules), p)
    ensures MaskingOf(masked, again, InFull(alnum), otherRules).maskedText == masked
  {
    var first, second := Replaced(text, entities, rules), Replaced(masked, again, otherRules);
    FullMaskIsPointwise(alnum, text, entities, rules);
    FullMaskIsPointwise(alnum, masked, again, otherRules);
    SelectedSpans(masked, again);
    forall p | 0 <= p < |masked| && Inside(second, p)
      ensures Inside(first, p)
    {
      var e :| e in second && e.start <= p < e.end;
      KeepIsPart(Select(masked, again), AllowedBy(TypesOf(Select(masked, again)), otherRules), e);
    }
  }

  lemma {:induction false} KeepIsPart(s: seq<Entity>, keep: Entity -> bool, e: Entity)
    requires e in Keep(s, keep)
    ensures e in s && keep(e)
  {
    if s != [] && e in Keep(s[..|s| - 1], keep) {
      KeepIsPart(s[..|s| - 1], keep, e);
    }
  }
}
