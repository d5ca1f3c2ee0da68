/** The demonstration pipeline: detect, mask, ask the LLM, restore. */
module SecurePipeline {
  import opened Domain
  import opened Entities
  import opened Weaving
  import opened Strategies
  import opened MaskingEngine
  import opened TokenRestoration
  import SpanResolution

  function OfTypes(enabled: set<PIIType>): Entity -> bool { (e: Entity) => e.kind in enabled }

  /** `candidates` is what the detectors found in the text. */
  method Run(text: string, candidates: seq<Entity>, enabled: set<PIIType>, replace: (nat, Entity) -> string,
             contextRules: seq<RawRule>, llm: string -> string)
    returns (answer: string)
    ensures
      var m := MaskingOf(text, Keep(SpanResolution.Resolve(candidates), OfTypes(enabled)), replace,
        RulesOf(contextRules));
      && answer == RestoreUpTo(llm(m.maskedText), m.mappings, |m.mappings|)
      && (llm(m.maskedText) == m.maskedText && Distinguishable(m.mappings, text) && Consistent(m.mappings) ==>
        answer == text)
  {
    var resolved := SpanResolution.ResolveSpans(candidates);
    var entities := Keep(resolved, OfTypes(enabled));
    var masking := Mask(text, entities, replace, contextRules);
    answer := Restore(llm(masking.maskedText), masking.mappings);
    if Distinguishable(masking.mappings, text) && Consistent(masking.mappings) {
      MaskThenRestoreIsIdentity(text, entities, replace, RulesOf(contextRules));
    }
  }

  /** Spans that come out of resolution and match the text are all selected for masking. */
  lemma ResolvedSpansAreSelected(text: string, candidates: seq<Entity>, enabled: set<PIIType>)
    requires SpanResolution.WellOrdered(SpanResolution.Resolve(candidates))
    requires AllFit(text, Keep(SpanResolution.Resolve(candidates), OfTypes(enabled)))
    ensures Select(text, Keep(SpanResolution.Resolve(candidates), OfTypes(enabled)))
            == Keep(SpanResolution.Resolve(candidates), OfTypes(enabled))
  {
    SpanResolution.ResolvedIsApart(candidates);
    KeepOfApart(SpanResolution.Resolve(candidates), OfTypes(enabled));
    ApartSpansAreSelected(text, Keep(SpanResolution.Resolve(candidates), OfTypes(enabled)));
  }

  /** What is handed to masking: the resolved entities of the enabled types. */
  lemma HandedToMasking(candidates: seq<Entity>, enabled: set<PIIType>, e: Entity)
    ensures e in Keep(SpanResolution.Resolve(candidates), OfTypes(enabled))
            <==> e in SpanResolution.Resolve(candidates) && e.kind in enabled
  {
  }

  /** What the LLM does not get to see.  When the resolved spans match the text and do not
      run backward, and no rule is stated, exactly those of the enabled types are replaced in
      its prompt, all of them if every type found is enabled. */
  lemma PromptIsMasked(text: string, candidates: seq<Entity>, enabled: set<PIIType>)
    requires forall e :: e in SpanResolution.Resolve(candidates) ==> Fits(text, e)
    ensures
      var resolved := SpanResolution.Resolve(candidates);
      var replaced := Replaced(text, Keep(resolved, OfTypes(enabled)), RulesOf([]));
      && (forall e :: e in replaced <==> e in resolved && e.kind in enabled)
      && ((forall e :: e in resolved ==> e.kind in enabled) ==> replaced == resolved)
  {
    var resolved := SpanResolution.Resolve(candidates);
    var handed := Keep(resolved, OfTypes(enabled));
    SpanResolution.ResolvedIsApart(candidates);
    ResolvedSpansAreSelected(text, candidates, enabled);
    KeepAll(handed, AllowedBy(TypesOf(handed), RulesOf([])));
    if forall e :: e in resolved ==> e.kind in enabled {
      KeepAll(resolved, OfTypes(enabled));
    }
  }

  // ----- a masked text is made of literals and tokens

  function Woven(gaps: seq<string>, i: nat): (r: seq<Piece>)
    requires i <= |gaps|
    ensures forall p :: p in r && p.Token? ==> p.index < i
  {
    if i == 0 then [] else Woven(gaps, i - 1) + [Literal(gaps[i - 1]), Piece.Token(i - 1)]
  }

  /** For each replaced span, the first original recorded for its replacement. */
  function FirstOriginals(mappings: seq<(string, string)>): (r: seq<string>)
    ensures |r| == |mappings|
  {
    seq(|mappings|, i requires 0 <= i < |mappings| => Shown(mappings, |mappings|, mappings[i].0))
  }

  /** Spans with one replacement have one original. */
  ghost predicate Consistent(mappings: seq<(string, string)>) {
    forall i, j :: 0 <= i < j < |mappings| && mappings[i].0 == mappings[j].0 ==> mappings[i].1 == mappings[j].1
  }

  lemma {:induction false} IsRecorded(mappings: seq<(string, string)>, i: nat, n: nat)
    requires i < n <= |mappings|
    ensures Recorded(mappings, n, mappings[i].0).Some?
  {
    if i < n - 1 {
      IsRecorded(mappings, i, n - 1);
    }
  }

  /** What is recorded for a token was recorded by some mapping of it. */
  lemma {:induction false} RecordedBy(mappings: seq<(string, string)>, n: nat, token: string) returns (k: nat)
    requires n <= |mappings| && Recorded(mappings, n, token).Some?
    ensures k < n && mappings[k].0 == token && Recorded(mappings, n, token) == Some(mappings[k].1)
  {
    if Recorded(mappings, n - 1, token).Some? {
      k := RecordedBy(mappings, n - 1, token);
    } else {
      k := n - 1;
    }
  }

  lemma ConsistentOriginals(mappings: seq<(string, string)>)
    requires Consistent(mappings)
    ensures FirstOriginals(mappings) == Seconds(mappings)
  {
    forall i | 0 <= i < |mappings|
      ensures FirstOriginals(mappings)[i] == mappings[i].1
    {
      IsRecorded(mappings, i, |mappings|);
      var k := RecordedBy(mappings, |mappings|, mappings[i].0);
      assert k == i || mappings[k].1 == mappings[i].1;
    }
  }

  lemma IssuedAppend(a: seq<Piece>, b: seq<Piece>, mappings: seq<(string, string)>)
    requires Issued(a, mappings) && Issued(b, mappings)
    ensures Issued(a + b, mappings)
  {
  }

  lemma {:induction false} RenderAppend(a: seq<Piece>, b: seq<Piece>, mappings: seq<(string, string)>, j: nat)
    requires Issued(a, mappings) && Issued(b, mappings) && Issued(a + b, mappings) && j <= |mappings|
    ensures Render(a + b, mappings, j) == Render(a, mappings, j) + Render(b, mappings, j)
  {
    if a == [] {
      assert a + b == b;
    } else {
      var all, tail := a + b, a[1..];
      assert all[0] == a[0] && all[1..] == tail + b;
      RenderAppend(tail, b, mappings, j);
      var head := Head(a[0], mappings, j);
      assert Render(all, mappings, j) == head + (Render(tail, mappings, j) + Render(b, mappings, j));
      assert Render(a, mappings, j) == head + Render(tail, mappings, j);
    }
  }

  lemma RenderLiteral(text: string, mappings: seq<(string, string)>, j: nat)
    requires j <= |mappings|
    ensures Render([Literal(text)], mappings, j) == text
  {
    assert [Literal(text)][1..] == [];
  }

  lemma RenderPair(text: string, i: nat, mappings: seq<(string, string)>, j: nat)
    requires i < |mappings| && j <= |mappings|
    ensures Render([Literal(text), Piece.Token(i)], mappings, j) == text + Shown(mappings, j, mappings[i].0)
  {
    assert [Literal(text), Piece.Token(i)][1..] == [Piece.Token(i)];
    assert [Piece.Token(i)][1..] == [];
    assert Render([Piece.Token(i)], mappings, j) == Shown(mappings, j, mappings[i].0);
  }

  /** The pieces of a masked text, `j` replacements on. */
  lemma {:induction false} RenderOfWoven(gaps: seq<string>, mappings: seq<(string, string)>, i: nat, j: nat,
                                         fills: seq<string>)
    requires |gaps| == |mappings| + 1 && i <= |mappings| && j <= |mappings| == |fills|
    requires forall k :: 0 <= k < |mappings| ==> fills[k] == Shown(mappings, j, mappings[k].0)
    ensures Render(Woven(gaps, i), mappings, j) == Interleave(gaps, fills, i)
  {
    if i > 0 {
      RenderOfWoven(gaps, mappings, i - 1, j, fills);
      IssuedAppend(Woven(gaps, i - 1), [Literal(gaps[i - 1]), Piece.Token(i - 1)], mappings);
      RenderAppend(Woven(gaps, i - 1), [Literal(gaps[i - 1]), Piece.Token(i - 1)], mappings, j);
      RenderPair(gaps[i - 1], i - 1, mappings, j);
      InterleaveNext(gaps, fills, i);
    }
  }

  /** The pieces of a whole masked text. */
  function WovenText(gaps: seq<string>, n: nat): seq<Piece>
    requires |gaps| == n + 1
  {
    Woven(gaps, n) + [Literal(gaps[n])]
  }

  lemma RenderOfWovenText(gaps: seq<string>, mappings: seq<(string, string)>, j: nat, fills: seq<string>)
    requires |gaps| == |mappings| + 1 && j <= |mappings| == |fills|
    requires forall k :: 0 <= k < |mappings| ==> fills[k] == Shown(mappings, j, mappings[k].0)
    ensures Issued(WovenText(gaps, |mappings|), mappings)
    ensures Render(WovenText(gaps, |mappings|), mappings, j) == Weave(gaps, fills)
  {
    var n := |mappings|;
    RenderOfWoven(gaps, mappings, n, j, fills);
    IssuedAppend(Woven(gaps, n), [Literal(gaps[n])], mappings);
    RenderAppend(Woven(gaps, n), [Literal(gaps[n])], mappings, j);
    RenderLiteral(gaps[n], mappings, j);
  }

  /** With an LLM that echoes its prompt, restoring gives back the gaps of the text with,
      at the place of every span, the first original recorded for its replacement. */
  lemma MaskThenRestoreGivesFirstOriginals(text: string, entities: seq<Entity>, replace: (nat, Entity) -> string,
                                           rules: map<PIIType, set<PIIType>>)
    returns (gaps: seq<string>)
    ensures
      var m := MaskingOf(text, entities, replace, rules);
      && |gaps| == |m.mappings| + 1 && text == Weave(gaps, Seconds(m.mappings))
      && (Distinguishable(m.mappings, Weave(gaps, FirstOriginals(m.mappings))) ==>
            RestoreUpTo(m.maskedText, m.mappings, |m.mappings|) == Weave(gaps, FirstOriginals(m.mappings)))
  {
    var m := MaskingOf(text, entities, replace, rules);
    gaps := Segmentation(text, entities, replace, rules);
    var pieces := WovenText(gaps, |m.mappings|);
    RenderOfWovenText(gaps, m.mappings, 0, Firsts(m.mappings));
    RenderOfWovenText(gaps, m.mappings, |m.mappings|, FirstOriginals(m.mappings));
    if Distinguishable(m.mappings, Weave(gaps, FirstOriginals(m.mappings))) {
      SequentialReplaceIsSubstitution(pieces, m.mappings, |m.mappings|);
    }
  }

  /** The text comes back when no replacement stands in it and spans with one replacement
      have one original. */
  lemma MaskThenRestoreIsIdentity(text: string, entities: seq<Entity>, replace: (nat, Entity) -> string,
                                  rules: map<PIIType, set<PIIType>>)
    requires
      var m := MaskingOf(text, entities, replace, rules);
      Distinguishable(m.mappings, text) && Consistent(m.mappings)
    ensures var m := MaskingOf(text, entities, replace, rules);
            RestoreUpTo(m.maskedText, m.mappings, |m.mappings|) == text
  {
    var gaps := MaskThenRestoreGivesFirstOriginals(text, entities, replace, rules);
    ConsistentOriginals(MaskingOf(text, entities, replace, rules).mappings);
  }

  /** The tokenizing strategy: `hexes(i)` is the i-th random suffix drawn. */
  function Tokenizing(typeName: PIIType -> string, hexes: nat -> string): (nat, Entity) -> string {
    (i: nat, e: Entity) => Strategies.Token(typeName(e.kind), hexes(i))
  }

  /** The pipeline returns the original text when the policy tokenizes every type, the
      LLM echoes, suffixes drawn for different values differ, and no issued token already
      stands in the text. */
  lemma TokenizedPipelineIsIdentity(text: string, entities: seq<Entity>, rules: map<PIIType, set<PIIType>>,
                                    typeName: PIIType -> string, hexes: nat -> string)
    requires forall kind, c :: c in typeName(kind) ==> IsTypeChar(c)
    requires forall i, c :: c in hexes(i) ==> IsHex(c)
    requires forall i, j :: 0 <= i < j < |MaskingOf(text, entities, Tokenizing(typeName, hexes), rules).mappings| ==>
               && |hexes(i)| == |hexes(j)|
               && (hexes(i) == hexes(j) ==>
                     MaskingOf(text, entities, Tokenizing(typeName, hexes), rules).mappings[i].1
                     == MaskingOf(text, entities, Tokenizing(typeName, hexes), rules).mappings[j].1)
    requires forall i :: 0 <= i < |MaskingOf(text, entities, Tokenizing(typeName, hexes), rules).mappings| ==>
               !Contains(text, MaskingOf(text, entities, Tokenizing(typeName, hexes), rules).mappings[i].0)
    ensures var m := MaskingOf(text, entities, Tokenizing(typeName, hexes), rules);
            RestoreUpTo(m.maskedText, m.mappings, |m.mappings|) == text
  {
    var replace := Tokenizing(typeName, hexes);
    var spans := Replaced(text, entities, rules);
    var m := MaskingOf(text, entities, replace, rules);
    forall i | 0 <= i < |m.mappings|
      ensures TokenShaped(m.mappings[i].0)
    {
      TokensAreTokenShaped(typeName(spans[i].kind), hexes(i));
    }
    forall i, j | 0 <= i < j < |m.mappings| && m.mappings[i].0 == m.mappings[j].0
      ensures m.mappings[i].1 == m.mappings[j].1
    {
      if hexes(i) != hexes(j) {
        SuffixesTellTokensApart(typeName(spans[i].kind), hexes(i), typeName(spans[j].kind), hexes(j));
      }
    }
    MaskThenRestoreIsIdentity(text, entities, replace, rules);
  }

  lemma SuffixOf(t: string, h: string)
    ensures |Strategies.Token(t, h)| > |h|
    ensures var token := Strategies.Token(t, h); token[|token| - 1 - |h|..|token| - 1] == h
  {
  }

  lemma SuffixesTellTokensApart(t1: string, h1: string, t2: string, h2: string)
    requires |h1| == |h2| && h1 != h2
    ensures Strategies.Token(t1, h1) != Strategies.Token(t2, h2)
  {
    SuffixOf(t1, h1);
    SuffixOf(t2, h2);
  }

  lemma ReplaceOneChar(c: char, rest: string, x: char, replacement: string)
    ensures Replace("", [x], replacement) == ""
    ensures Replace([c] + rest, [x], replacement)
            == (if c == x then replacement else [c]) + Replace(rest, [x], replacement)
  {
    var s := [c] + rest;
    assert s[..1] == [c] && s[1..] == rest;
  }

  lemma ReplaceInThree(a: char, b: char, c: char, x: char, y: char)
    ensures Replace([a, b, c], [x], [y])
            == [if a == x then y else a, if b == x then y else b, if c == x then y else c]
  {
    assert [a, b, c] == [a] + ([b] + ([c] + ""));
    ReplaceOneChar(c, "", x, [y]);
    ReplaceOneChar(b, [c] + "", x, [y]);
    ReplaceOneChar(a, [b] + ([c] + ""), x, [y]);
  }

  function TwoSpans(kind: PIIType, x: char, y: char): seq<Entity> {
    [Entity(kind, [x], 0, 1, 1.0), Entity(kind, [y], 2, 3, 1.0)]
  }

  lemma TwoSpansReplaced(text: string, kind: PIIType, x: char, y: char)
    requires text == [x, ' ', y]
    ensures Replaced(text, TwoSpans(kind, x, y), map[]) == TwoSpans(kind, x, y)
  {
    var entities := TwoSpans(kind, x, y);
    ApartSpansAreSelected(text, entities);
    KeepAll(entities, AllowedBy(TypesOf(entities), map[]));
  }

  lemma TwoLettersBlotted(alnum: char -> bool, text: string, kind: PIIType, x: char, y: char)
    requires text == [x, ' ', y] && alnum(x) && alnum(y) && !alnum(' ')
    ensures Blotted(alnum, text, TwoSpans(kind, x, y)) == ['*', ' ', '*']
  {
    var spans := TwoSpans(kind, x, y);
    assert Inside(spans, 0) by { assert spans[0] in spans; }
    assert Inside(spans, 2) by { assert spans[1] in spans; }
  }

  lemma SameMaskRestored(x: char, y: char)
    requires x != '*'
    ensures RestoreUpTo(['*', ' ', '*'], [("*", [x]), ("*", [y])], 2) == [x, ' ', x]
  {
    var mappings := [("*", [x]), ("*", [y])];
    ReplaceInThree('*', ' ', '*', '*', x);
    ReplaceInThree(x, ' ', x, '*', y);
    assert RestoreUpTo(['*', ' ', '*'], mappings, 0) == ['*', ' ', '*'];
    assert RestoreUpTo(['*', ' ', '*'], mappings, 1) == [x, ' ', x];
  }

  /** Why tokens are needed: a text of two different letters, both masked in full.  They
      share one replacement, and the first letter comes back in both places. */
  lemma FullMaskIsNotRestored(alnum: char -> bool, text: string, kind: PIIType, x: char, y: char)
    requires text == [x, ' ', y] && alnum(x) && alnum(y) && !alnum(' ') && x != '*' && x != y
    ensures
      var m := MaskingOf(text, TwoSpans(kind, x, y), InFull(alnum), map[]);
      && m.maskedText == ['*', ' ', '*']
      && RestoreUpTo(m.maskedText, m.mappings, |m.mappings|) == [x, ' ', x] != text
  {
    var m := MaskingOf(text, TwoSpans(kind, x, y), InFull(alnum), map[]);
    TwoSpansReplaced(text, kind, x, y);
    FullMaskIsPointwise(alnum, text, TwoSpans(kind, x, y), map[]);
    TwoLettersBlotted(alnum, text, kind, x, y);
    SameMaskRestored(x, y);
    TwoSpansMapped(alnum, kind, x, y);
    assert m.mappings == [("*", [x]), ("*", [y])];
  }

  lemma TwoSpansMapped(alnum: char -> bool, kind: PIIType, x: char, y: char)
    requires alnum(x) && alnum(y)
    ensures Mappings(TwoSpans(kind, x, y), InFull(alnum)) == [("*", [x]), ("*", [y])]
  {
    assert MaskAllAlnum(alnum, [x]) == "*" && MaskAllAlnum(alnum, [y]) == "*";
  }
}
