/** Undoing the masking of an LLM answer by replacing one token after the other. */
module TokenRestoration {
  import opened Domain
  import opened Strategies
  import opened Weaving

  predicate OccursAt(s: string, pattern: string, p: nat) {
    p + |pattern| <= |s| && s[p..p + |pattern|] == pattern
  }

  ghost predicate Contains(s: string, pattern: string) {
    exists p: nat :: OccursAt(s, pattern, p)
  }

  /** `str.replace`: every occurrence, scanning from the left; the empty pattern matches
      before every character and at the end. */
  function Replace(s: string, pattern: string, replacement: string): string {
    if pattern == "" then Spread(s, replacement)
    else if |s| < |pattern| then s
    else if s[..|pattern|] == pattern then replacement + Replace(s[|pattern|..], pattern, replacement)
    else [s[0]] + Replace(s[1..], pattern, replacement)
  }

  function Spread(s: string, replacement: string): string {
    if s == "" then replacement else replacement + [s[0]] + Spread(s[1..], replacement)
  }

  /** `gaps` are what stands between the occurrences of the pattern found from the left: none
      begins earlier than after its gap, and none is left in the last one. */
  ghost predicate LeftmostGaps(gaps: seq<string>, pattern: string) {
    && gaps != []
    && (forall i, p: nat :: 0 <= i < |gaps| - 1 && p < |gaps[i]| ==> !OccursAt(gaps[i] + pattern, pattern, p))
    && !Contains(gaps[|gaps| - 1], pattern)
  }

  lemma NoRoom(s: string, pattern: string)
    requires |s| < |pattern|
    ensures LeftmostGaps([s], pattern)
  {
    assert forall p: nat :: !OccursAt(s, pattern, p);
  }

  lemma GapsCons(gaps: seq<string>, pattern: string)
    requires LeftmostGaps(gaps, pattern)
    ensures LeftmostGaps([""] + gaps, pattern)
  {
    var longer := [""] + gaps;
    forall i, p: nat | 0 <= i < |longer| - 1 && p < |longer[i]|
      ensures !OccursAt(longer[i] + pattern, pattern, p)
    {
      assert longer[i] == gaps[i - 1];
    }
  }

  /** Nothing begins at the front of a text that does not begin with the pattern. */
  lemma NotAtFront(whole: string, front: string, pattern: string)
    requires front <= whole && |whole| >= |pattern| && whole[..|pattern|] != pattern
    ensures !OccursAt(front, pattern, 0)
  {
    assert |front| >= |pattern| ==> front[0..|pattern|] == whole[..|pattern|];
  }

  lemma GapsHead(s: string, gaps: seq<string>, pattern: string)
    requires pattern != "" && |s| >= |pattern| && s[..|pattern|] != pattern
    requires LeftmostGaps(gaps, pattern)
    requires [s[0]] + gaps[0] + (if |gaps| > 1 then pattern else "") <= s
    ensures LeftmostGaps(gaps[0 := [s[0]] + gaps[0]], pattern)
  {
    var c, longer := s[0], gaps[0 := [s[0]] + gaps[0]];
    var first := if |gaps| > 1 then gaps[0] + pattern else gaps[0];
    assert [c] + first == [c] + gaps[0] + (if |gaps| > 1 then pattern else "");
    NotAtFront(s, [c] + first, pattern);
    forall p: nat | p < |longer[0]|
      ensures !OccursAt([c] + first, pattern, p)
    {
      if p > 0 {
        OccursShift(c, first, pattern, p - 1);
        assert |gaps| == 1 ==> !OccursAt(first, pattern, p - 1);
      }
    }
    if |gaps| > 1 {
      assert longer[0] + pattern == [c] + first;
    } else {
      assert forall p: nat :: OccursAt(longer[0], pattern, p) ==> p < |longer[0]|;
    }
  }

  lemma OccursShift(c: char, s: string, pattern: string, p: nat)
    ensures OccursAt([c] + s, pattern, p + 1) <==> OccursAt(s, pattern, p)
  {
    if p + |pattern| <= |s| {
      assert ([c] + s)[p + 1..p + 1 + |pattern|] == s[p..p + |pattern|];
    }
  }

  lemma CopiesCons(x: string, n: nat)
    ensures Copies(x, n + 1) == [x] + Copies(x, n)
  {
  }

  /** The pattern is found at the front: it is taken off, after an empty gap. */
  lemma FoundAtFront(s: string, rest: seq<string>, pattern: string, replacement: string)
    requires pattern != "" && |s| >= |pattern| && s[..|pattern|] == pattern
    requires rest != [] && s[|pattern|..] == Weave(rest, Copies(pattern, |rest| - 1))
    requires Replace(s[|pattern|..], pattern, replacement) == Weave(rest, Copies(replacement, |rest| - 1))
    ensures s == Weave([""] + rest, Copies(pattern, |rest|))
    ensures Replace(s, pattern, replacement) == Weave([""] + rest, Copies(replacement, |rest|))
  {
    var n := |rest| - 1;
    CopiesCons(pattern, n);
    CopiesCons(replacement, n);
    WeaveCons("", pattern, rest, Copies(pattern, n));
    WeaveCons("", replacement, rest, Copies(replacement, n));
    assert s == s[..|pattern|] + s[|pattern|..];
  }

  /** What `str.replace` does for a nonempty pattern: the text falls into gaps between the
      occurrences found from the left, and the replacement goes where the pattern was. */
  lemma {:induction false} ReplaceInFull(s: string, pattern: string, replacement: string) returns (gaps: seq<string>)
    requires pattern != ""
    ensures LeftmostGaps(gaps, pattern)
    ensures s == Weave(gaps, Copies(pattern, |gaps| - 1))
    ensures Replace(s, pattern, replacement) == Weave(gaps, Copies(replacement, |gaps| - 1))
    decreases |s|
  {
    if |s| < |pattern| {
      NoRoom(s, pattern);
      gaps := [s];
    } else if s[..|pattern|] == pattern {
      var rest := ReplaceInFull(s[|pattern|..], pattern, replacement);
      GapsCons(rest, pattern);
      FoundAtFront(s, rest, pattern, replacement);
      gaps := [""] + rest;
    } else {
      var rest := ReplaceInFull(s[1..], pattern, replacement);
      WeaveHead(s[0], rest, Copies(pattern, |rest| - 1));
      WeaveHead(s[0], rest, Copies(replacement, |rest| - 1));
      WeaveBegins(rest, pattern);
      GapsHead(s, rest, pattern);
      gaps := rest[0 := [s[0]] + rest[0]];
    }
  }

  lemma {:induction false} InterleaveBegins(gaps: seq<string>, fills: seq<string>, i: nat)
    requires 0 < i <= |gaps| && i <= |fills|
    ensures gaps[0] + fills[0] <= Interleave(gaps, fills, i)
  {
    if i > 1 {
      InterleaveBegins(gaps, fills, i - 1);
    } else {
      assert Interleave(gaps, fills, 0) == "";
    }
  }

  lemma WeaveBegins(gaps: seq<string>, pattern: string)
    requires gaps != []
    ensures gaps[0] + (if |gaps| > 1 then pattern else "") <= Weave(gaps, Copies(pattern, |gaps| - 1))
  {
    if |gaps| > 1 {
      InterleaveBegins(gaps, Copies(pattern, |gaps| - 1), |gaps| - 1);
    }
  }

  function Chars(s: string): (r: seq<string>)
    ensures |r| == |s|
  {
    seq(|s|, i requires 0 <= i < |s| => [s[i]])
  }

  /** What it does for the empty pattern: the replacement goes before every character and at
      the end. */
  lemma {:induction false} ReplaceNothingInFull(s: string, replacement: string)
    ensures Replace(s, "", replacement) == Weave(Copies(replacement, |s| + 1), Chars(s))
    decreases |s|
  {
    if s != "" {
      ReplaceNothingInFull(s[1..], replacement);
      WeaveCons(replacement, [s[0]], Copies(replacement, |s|), Chars(s[1..]));
      assert Copies(replacement, |s| + 1) == [replacement] + Copies(replacement, |s|);
      assert Chars(s) == [[s[0]]] + Chars(s[1..]);
    }
  }

  /** The text after the first `j` mappings have been replaced, in order. */
  function RestoreUpTo(s: string, mappings: seq<(string, string)>, j: nat): string
    requires j <= |mappings|
  {
    if j == 0 then s else Replace(RestoreUpTo(s, mappings, j - 1), mappings[j - 1].0, mappings[j - 1].1)
  }

  method Restore(llmOutput: string, mappings: seq<(string, string)>) returns (restored: string)
    ensures restored == RestoreUpTo(llmOutput, mappings, |mappings|)
  {
    restored := llmOutput;
    for j := 0 to |mappings|
      invariant restored == RestoreUpTo(llmOutput, mappings, j)
    {
      var (replacement, original) := mappings[j];
      restored := Replace(restored, replacement, original);
    }
  }

  // ----- what the LLM may answer: literal text and issued tokens, in any order

  datatype Piece = Literal(text: string) | Token(index: nat)

  ghost predicate Issued(pieces: seq<Piece>, mappings: seq<(string, string)>) {
    forall p :: p in pieces && p.Token? ==> p.index < |mappings|
  }

  /** The first original recorded for the token among the first `j` mappings. */
  function Recorded(mappings: seq<(string, string)>, j: nat, token: string): Option<string>
    requires j <= |mappings|
  {
    if j == 0 then None
    else if Recorded(mappings, j - 1, token).Some? then Recorded(mappings, j - 1, token)
    else if mappings[j - 1].0 == token then Some(mappings[j - 1].1)
    else None
  }

  lemma {:induction false} RecordedStays(mappings: seq<(string, string)>, j: nat, n: nat, token: string)
    requires j <= n <= |mappings| && Recorded(mappings, j, token).Some?
    ensures Recorded(mappings, n, token) == Recorded(mappings, j, token)
  {
    if j < n {
      RecordedStays(mappings, j, n - 1, token);
    }
  }

  /** What has become of an issued token after `j` replacements. */
  function Shown(mappings: seq<(string, string)>, j: nat, token: string): string
    requires j <= |mappings|
  {
    match Recorded(mappings, j, token)
    case Some(original) => original
    case None => token
  }

  /** The pieces with the tokens of the first `j` mappings restored and the others still
      in place. */
  function Render(pieces: seq<Piece>, mappings: seq<(string, string)>, j: nat): string
    requires j <= |mappings| && forall p :: p in pieces && p.Token? ==> p.index < |mappings|
  {
    if pieces == [] then ""
    else
      (match pieces[0]
       case Literal(text) => text
       case Token(i) => Shown(mappings, j, mappings[i].0))
      + Render(pieces[1..], mappings, j)
  }

  /** Every token replaced by the first original recorded for it. */
  function Restored(pieces: seq<Piece>, mappings: seq<(string, string)>): string
    requires forall p :: p in pieces && p.Token? ==> p.index < |mappings|
  {
    Render(pieces, mappings, |mappings|)
  }

  ghost predicate AllTokens(mappings: seq<(string, string)>) {
    forall i :: 0 <= i < |mappings| ==> TokenShaped(mappings[i].0)
  }

  /** The replacements have the shape of tokens, and none is found in the final text. */
  ghost predicate Distinguishable(mappings: seq<(string, string)>, final: string) {
    AllTokens(mappings) && forall i :: 0 <= i < |mappings| ==> !Contains(final, mappings[i].0)
  }

  /** The text in front of the first token still in place. */
  function Lead(pieces: seq<Piece>, mappings: seq<(string, string)>, j: nat): string
    requires j <= |mappings| && forall p :: p in pieces && p.Token? ==> p.index < |mappings|
  {
    if pieces == [] then ""
    else
      match pieces[0]
      case Literal(text) => text + Lead(pieces[1..], mappings, j)
      case Token(i) =>
        match Recorded(mappings, j, mappings[i].0)
        case Some(original) => original + Lead(pieces[1..], mappings, j)
        case None => ""
  }

  /** Both texts begin with `lead`, and in the first one a token follows, if anything. */
  ghost predicate Leads(lead: string, now: string, final: string) {
    lead <= now && lead <= final && (|lead| < |now| ==> now[|lead|] == '<')
  }

  lemma LeadsFurther(head: string, lead: string, now: string, final: string)
    requires Leads(lead, now, final)
    ensures Leads(head + lead, head + now, head + final)
  {
  }

  /** The lead is common to the text now and the text at the end; after it comes a
      token, if anything. */
  lemma {:induction false} LeadIsCommon(pieces: seq<Piece>, mappings: seq<(string, string)>, j: nat)
    requires Issued(pieces, mappings) && j <= |mappings| && AllTokens(mappings)
    ensures Leads(Lead(pieces, mappings, j), Render(pieces, mappings, j), Restored(pieces, mappings))
  {
    if pieces != [] {
      var tail := pieces[1..];
      LeadIsCommon(tail, mappings, j);
      var lead, now, final := Lead(tail, mappings, j), Render(tail, mappings, j), Restored(tail, mappings);
      match pieces[0]
      case Literal(text) => LeadsFurther(text, lead, now, final);
      case Token(i) =>
        if Recorded(mappings, j, mappings[i].0).Some? {
          RecordedStays(mappings, j, |mappings|, mappings[i].0);
          LeadsFurther(Recorded(mappings, j, mappings[i].0).value, lead, now, final);
        }
    }
  }

  lemma OccursInLonger(s: string, before: string, pattern: string)
    requires !Contains(before + s, pattern)
    ensures !Contains(s, pattern)
  {
    if p: nat :| OccursAt(s, pattern, p) {
      assert (before + s)[|before| + p..|before| + p + |pattern|] == s[p..p + |pattern|];
      assert OccursAt(before + s, pattern, |before| + p);
    }
  }

  /** A token that does not occur in the final text starts nowhere in the lead: inside
      the lead it would occur in the final text, and across its end it would have an
      opening bracket in its middle. */
  lemma NotInLead(pieces: seq<Piece>, mappings: seq<(string, string)>, j: nat, p: nat)
    requires Issued(pieces, mappings) && j < |mappings| && AllTokens(mappings)
    requires !Contains(Restored(pieces, mappings), mappings[j].0)
    requires p < |Lead(pieces, mappings, j)|
    ensures !OccursAt(Render(pieces, mappings, j), mappings[j].0, p)
  {
    var token := mappings[j].0;
    var lead, now, final := Lead(pieces, mappings, j), Render(pieces, mappings, j), Restored(pieces, mappings);
    LeadIsCommon(pieces, mappings, j);
    CharOfOccurrence(now, token, p, |lead| - p);
    if p + |token| <= |lead| {
      assert now[p..p + |token|] == lead[p..p + |token|] == final[p..p + |token|];
      assert !OccursAt(final, token, p);
    }
  }

  lemma CharOfOccurrence(s: string, pattern: string, p: nat, i: nat)
    ensures OccursAt(s, pattern, p) && i < |pattern| ==> s[p + i] == pattern[i]
  {
  }

  /** Characters at which the pattern does not start are copied. */
  lemma {:induction false} ReplaceSkips(skip: string, rest: string, pattern: string, replacement: string)
    requires pattern != ""
    requires forall p: nat :: p < |skip| ==> !OccursAt(skip + rest, pattern, p)
    ensures Replace(skip + rest, pattern, replacement) == skip + Replace(rest, pattern, replacement)
  {
    if skip == "" {
      assert skip + rest == rest;
    } else {
      var c, tail := skip[0], skip[1..];
      var whole, later := skip + rest, tail + rest;
      Regroup(skip, rest);
      Regroup(skip, Replace(rest, pattern, replacement));
      forall p: nat | p < |tail|
        ensures !OccursAt(later, pattern, p)
      {
        OccursLater(whole, later, pattern, p);
      }
      assert !OccursAt(whole, pattern, 0);
      ReplaceSkips(tail, rest, pattern, replacement);
      ReplaceSkipsOne(c, later, pattern, replacement);
    }
  }

  lemma Regroup(skip: string, rest: string)
    requires skip != ""
    ensures skip + rest == [skip[0]] + (skip[1..] + rest)
    ensures (skip + rest)[1..] == skip[1..] + rest
  {
  }

  lemma OccursLater(s: string, tail: string, pattern: string, p: nat)
    requires s != "" && tail == s[1..]
    ensures OccursAt(tail, pattern, p) ==> OccursAt(s, pattern, p + 1)
  {
    if OccursAt(tail, pattern, p) {
      assert tail[p..p + |pattern|] == s[p + 1..p + 1 + |pattern|];
    }
  }

  lemma ReplaceSkipsOne(c: char, rest: string, pattern: string, replacement: string)
    requires pattern != "" && !OccursAt([c] + rest, pattern, 0)
    ensures Replace([c] + rest, pattern, replacement) == [c] + Replace(rest, pattern, replacement)
  {
    var s := [c] + rest;
    assert s[1..] == rest;
    if |s| < |pattern| {
      ReplaceTooShort(rest, pattern, replacement);
    } else {
      assert s[0..|pattern|] == s[..|pattern|];
    }
  }

  lemma ReplaceTooShort(s: string, pattern: string, replacement: string)
    requires |s| < |pattern|
    ensures Replace(s, pattern, replacement) == s
  {
  }

  /** Two tokens starting at one place are one token: the first closing bracket ends both. */
  lemma TokensDoNotNest(a: string, b: string, rest: string, p: nat)
    requires TokenShaped(a) && TokenShaped(b) && p < |a|
    requires OccursAt(a + rest, b, p)
    ensures p == 0 && a == b
  {
    var s := a + rest;
    assert s[p] == b[0];
    assert forall i :: 0 <= i < |a| && i < |b| ==> a[i] == s[i] == b[i];
    assert |a| == |b|;
  }

  /** The piece is token `j`, and still in place. */
  predicate Awaits(piece: Piece, mappings: seq<(string, string)>, j: nat)
    requires j < |mappings| && (piece.Token? ==> piece.index < |mappings|)
  {
    piece.Token? && mappings[piece.index].0 == mappings[j].0 && Recorded(mappings, j, mappings[j].0).None?
  }

  function Head(piece: Piece, mappings: seq<(string, string)>, j: nat): string
    requires j <= |mappings| && (piece.Token? ==> piece.index < |mappings|)
  {
    match piece case Literal(text) => text case Token(i) => Shown(mappings, j, mappings[i].0)
  }

  /** One round of replacement restores exactly the places of its own token. */
  lemma {:induction false} ReplaceRestoresOne(pieces: seq<Piece>, mappings: seq<(string, string)>, j: nat)
    requires Issued(pieces, mappings) && j < |mappings|
    requires Distinguishable(mappings, Restored(pieces, mappings))
    ensures Replace(Render(pieces, mappings, j), mappings[j].0, mappings[j].1) == Render(pieces, mappings, j + 1)
  {
    var token, original := mappings[j].0, mappings[j].1;
    if pieces != [] {
      var tail := pieces[1..];
      var rest, final := Render(tail, mappings, j), Restored(tail, mappings);
      forall i | 0 <= i < |mappings|
        ensures !Contains(final, mappings[i].0)
      {
        OccursInLonger(final, Head(pieces[0], mappings, |mappings|), mappings[i].0);
      }
      ReplaceRestoresOne(tail, mappings, j);
      var head := Head(pieces[0], mappings, j);
      if Awaits(pieces[0], mappings, j) {
        assert (token + rest)[..|token|] == token && (token + rest)[|token|..] == rest;
      } else {
        forall p: nat | p < |head|
          ensures !OccursAt(head + rest, token, p)
        {
          HeadIsSkipped(pieces, mappings, j, p);
        }
        ReplaceSkips(head, rest, token, original);
        assert Head(pieces[0], mappings, j + 1) == head;
      }
    }
  }

  /** No occurrence of token `j` starts in a piece that is not waiting for it. */
  lemma HeadIsSkipped(pieces: seq<Piece>, mappings: seq<(string, string)>, j: nat, p: nat)
    requires Issued(pieces, mappings) && j < |mappings| && pieces != []
    requires Distinguishable(mappings, Restored(pieces, mappings))
    requires !Awaits(pieces[0], mappings, j)
    requires p < |Head(pieces[0], mappings, j)|
    ensures !OccursAt(Render(pieces, mappings, j), mappings[j].0, p)
  {
    var head, rest := Head(pieces[0], mappings, j), Render(pieces[1..], mappings, j);
    assert Render(pieces, mappings, j) == head + rest;
    if pieces[0].Token? && Recorded(mappings, j, mappings[pieces[0].index].0).None? {
      if OccursAt(head + rest, mappings[j].0, p) {
        TokensDoNotNest(head, mappings[j].0, rest, p);
      }
    } else {
      assert Lead(pieces, mappings, j) == head + Lead(pieces[1..], mappings, j);
      NotInLead(pieces, mappings, j, p);
    }
  }

  /** Sequential replacement turns any text of literals and issued tokens into exactly its
      substitution; of a token issued twice, the first recorded original comes back at
      all its places. */
  lemma {:induction false} SequentialReplaceIsSubstitution(pieces: seq<Piece>, mappings: seq<(string, string)>,
                                                           j: nat)
    requires Issued(pieces, mappings) && j <= |mappings|
    requires Distinguishable(mappings, Restored(pieces, mappings))
    ensures RestoreUpTo(Render(pieces, mappings, 0), mappings, j) == Render(pieces, mappings, j)
  {
    if j > 0 {
      SequentialReplaceIsSubstitution(pieces, mappings, j - 1);
      ReplaceRestoresOne(pieces, mappings, j - 1);
    }
  }
}
