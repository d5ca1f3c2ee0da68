/** When resolution drops a span that overlaps nothing it keeps: a span displaced the one
    that stood for it, and begins only after its end. */
module DroppedSpans {
  import opened Entities
  import opened StableSort
  import opened SpanResolution

  ghost predicate Nonempty(s: seq<Entity>) {
    forall e :: e in s ==> e.start < e.end
  }

  lemma FoldOneMore(s: seq<Entity>, n: nat)
    requires n < |s|
    ensures Fold(s[..n + 1]) == Merge(Fold(s[..n]), s[n])
  {
    assert s[..n + 1][..n] == s[..n];
  }

  /** The last place is held by a candidate that starts by `bound`, and what is kept before
      it ends by then. */
  ghost predicate LastPlaceOk(f: seq<Entity>, s: seq<Entity>, bound: int) {
    && f != [] && f[|f| - 1] in s && f[|f| - 1].start <= bound
    && forall a :: 0 <= a < |f| - 1 ==> f[a].end <= bound
  }

  lemma LastPlaceNext(f: seq<Entity>, s: seq<Entity>, bound: int, e: Entity)
    requires LastPlaceOk(f, s, bound) && e in s && bound <= e.start < e.end
    ensures LastPlaceOk(Merge(f, e), s, e.start)
  {
  }

  lemma {:induction false} LastPlace(s: seq<Entity>, n: nat)
    requires Sorted(s, Position) && Nonempty(s) && 0 < n <= |s|
    ensures LastPlaceOk(Fold(s[..n]), s, s[n - 1].start)
  {
    FoldOneMore(s, n - 1);
    assert s[n - 1] in s;
    if n == 1 {
      assert Fold(s[..1]) == [s[0]];
    } else {
      LastPlace(s, n - 1);
      assert Leq(Position(s[n - 2]), Position(s[n - 1]));
      LastPlaceNext(Fold(s[..n - 1]), s, s[n - 2].start, s[n - 1]);
    }
  }

  /** The place at which candidate `i` is represented. */
  function PlaceOf(s: seq<Entity>, i: nat): int
    requires i < |s|
  {
    |Fold(s[..i + 1])| - 1
  }

  /** Candidate `j` displaces the one that held the place of candidate `i`, and begins only
      where `i` has ended. */
  ghost predicate Displaces(s: seq<Entity>, i: nat, j: int) {
    && i < j < |s|
    && (
      var f := Fold(s[..j]);
      && f != [] && |f| - 1 == PlaceOf(s, i)
      && Overlaps(f[|f| - 1], s[j]) && !Beats(f[|f| - 1], s[j])
      && s[i].end <= s[j].start)
  }

  ghost predicate DisplacedBefore(s: seq<Entity>, i: nat, n: nat) {
    exists j :: i < j < n && Displaces(s, i, j)
  }

  /** Who holds the place of candidate `i` after `n` candidates: one at least as good, which
      overlaps `i` exactly if nobody has displaced it from beyond its end. */
  ghost predicate Fate(s: seq<Entity>, i: nat, n: nat)
    requires i < n <= |s|
  {
    var f, b, x := Fold(s[..n]), PlaceOf(s, i), s[i];
    && 0 <= b < |f| && f[b] in s && Beats(f[b], x)
    && (forall a :: 0 <= a < b ==> f[a].end <= x.start)
    && (if DisplacedBefore(s, i, n) then x.end <= f[b].start else Overlaps(f[b], x))
  }

  /** A merge leaves a holder of the last place that is at least as good as the newcomer,
      meets it, and has everything before it clear of the newcomer. */
  lemma MergeTakesIn(f: seq<Entity>, s: seq<Entity>, bound: int, e: Entity)
    requires f == [] || LastPlaceOk(f, s, bound)
    requires e in s && bound <= e.start < e.end
    ensures
      var g := Merge(f, e);
      && g != [] && g[|g| - 1] in s && Beats(g[|g| - 1], e) && Overlaps(g[|g| - 1], e)
      && forall a :: 0 <= a < |g| - 1 ==> g[a].end <= e.start
  {
    if f != [] {
      LastPlaceNext(f, s, bound, e);
    }
  }

  lemma FateBegins(s: seq<Entity>, i: nat)
    requires Sorted(s, Position) && Nonempty(s) && i < |s|
    ensures Fate(s, i, i + 1)
  {
    FoldOneMore(s, i);
    assert s[i] in s;
    if i == 0 {
      assert s[..0] == [];
      MergeTakesIn([], s, s[0].start, s[0]);
    } else {
      LastPlace(s, i);
      assert Leq(Position(s[i - 1]), Position(s[i]));
      MergeTakesIn(Fold(s[..i]), s, s[i - 1].start, s[i]);
    }
    assert !DisplacedBefore(s, i, i + 1);
  }

  lemma FateContinues(s: seq<Entity>, i: nat, n: nat)
    requires Sorted(s, Position) && Nonempty(s) && i < n < |s| && Fate(s, i, n)
    ensures Fate(s, i, n + 1)
  {
    var f, b, x, c := Fold(s[..n]), PlaceOf(s, i), s[i], s[n];
    FoldOneMore(s, n);
    LastPlace(s, n);
    assert x in s && c in s && Leq(Position(x), Position(c)) && Leq(Position(s[n - 1]), Position(c));
    DisplacedNext(s, i, n);
    if |f| - 1 == b && Overlaps(f[b], c) && !Beats(f[b], c) {
      assert Better(f[b], c) == c && Beats(c, x);
    }
  }

  lemma DisplacedNext(s: seq<Entity>, i: nat, n: nat)
    requires i < n < |s|
    ensures DisplacedBefore(s, i, n + 1) <==> DisplacedBefore(s, i, n) || Displaces(s, i, n)
  {
    if DisplacedBefore(s, i, n) {
      var j :| i < j < n && Displaces(s, i, j);
      assert i < j < n + 1;
    }
  }

  lemma {:induction false} FateOf(s: seq<Entity>, i: nat, n: nat)
    requires Sorted(s, Position) && Nonempty(s) && i < n <= |s|
    ensures Fate(s, i, n)
    decreases n
  {
    if n == i + 1 {
      FateBegins(s, i);
    } else {
      FateOf(s, i, n - 1);
      FateContinues(s, i, n - 1);
    }
  }

  ghost predicate MeetsKept(e: Entity, kept: seq<Entity>) {
    exists k :: k in kept && Overlaps(k, e)
  }

  lemma UniqueIsNonempty(entities: seq<Entity>)
    requires Nonempty(entities)
    ensures Nonempty(Unique(entities)) && WellOrdered(entities) && Sorted(Unique(entities), Position)
  {
    UniqueIsSorted(entities);
    UniqueFromCandidates(entities);
  }

  /** The exact condition under which a candidate overlaps nothing that is kept (and so is
      not kept itself): somewhere on, one displaced its representative from beyond its end. */
  lemma DroppedIff(entities: seq<Entity>, i: nat)
    requires Nonempty(entities) && i < |Unique(entities)|
    ensures !MeetsKept(Unique(entities)[i], Resolve(entities)) <==> exists j :: Displaces(Unique(entities), i, j)
  {
    var s := Unique(entities);
    UniqueIsNonempty(entities);
    ResolvedIsApart(entities);
    assert Apart(Fold(s));
    FateOf(s, i, |s|);
    assert s[..|s|] == s;
    FateDecides(s, i);
  }

  /** At the end, a candidate is met by the holder of its place or by nobody. */
  lemma FateDecides(s: seq<Entity>, i: nat)
    requires Nonempty(s) && i < |s| && s[..|s|] == s && Fate(s, i, |s|) && Apart(Fold(s))
    ensures !MeetsKept(s[i], Fold(s)) <==> DisplacedBefore(s, i, |s|)
  {
    var f, b := Fold(s), PlaceOf(s, i);
    if DisplacedBefore(s, i, |s|) {
      assert f[b].start < f[b].end;
      MetByNobody(f, b, s[i]);
    } else {
      assert f[b] in f;
    }
  }

  lemma MetByNobody(f: seq<Entity>, b: nat, x: Entity)
    requires Apart(f) && b < |f| && f[b].start < f[b].end && x.end <= f[b].start
    requires forall a :: 0 <= a < b ==> f[a].end <= x.start
    ensures !MeetsKept(x, f)
  {
    forall a | 0 <= a < |f|
      ensures !Overlaps(f[a], x)
    {
      assert a > b ==> f[b].end <= f[a].start;
    }
  }

  lemma {:induction false} FirstDisplacement(s: seq<Entity>, i: nat, n: nat) returns (j: nat)
    requires i < n && DisplacedBefore(s, i, n)
    ensures i < j < n && Displaces(s, i, j) && !DisplacedBefore(s, i, j)
    decreases n
  {
    j :| i < j < n && Displaces(s, i, j);
    if DisplacedBefore(s, i, j) {
      j := FirstDisplacement(s, i, j);
    }
  }

  /** Among the candidates one overlaps and is at least as good as `x`, and another, which
      overlaps that one and is strictly better, begins only where `x` has ended. */
  ghost predicate Shadowed(x: Entity, entities: seq<Entity>) {
    exists l, c :: l in entities && c in entities && Shadows(x, l, c)
  }

  predicate Shadows(x: Entity, l: Entity, c: Entity) {
    && Overlaps(x, l) && Beats(l, x)
    && Overlaps(l, c) && Beats(c, l) && !Beats(l, c) && x.end <= c.start
  }

  /** What any caller can rule out beforehand: every candidate overlaps something that is
      kept, or is kept, unless two others shadow it. */
  lemma EveryCandidateIsMetOrShadowed(entities: seq<Entity>, e: Entity)
    requires Nonempty(entities) && e in entities
    ensures MeetsKept(e, Resolve(entities)) || Shadowed(e, entities)
  {
    var u := UniqueCovers(entities, e);
    var s := Unique(entities);
    var i :| 0 <= i < |s| && s[i] == u;
    DroppedIff(entities, i);
    if MeetsKept(u, Resolve(entities)) {
      var k :| k in Resolve(entities) && Overlaps(k, u);
      assert Overlaps(k, e);
    } else {
      UniqueIsNonempty(entities);
      UniqueFromCandidates(entities);
      assert DisplacedBefore(s, i, |s|);
      var j := FirstDisplacement(s, i, |s|);
      FateOf(s, i, j);
      var l, c := Fold(s[..j])[PlaceOf(s, i)], s[j];
      assert l in s && c in s;
      BeatsAsDuplicate(l, u, e);
      assert Shadows(e, l, c);
    }
  }

  /** A duplicate that is no more confident is beaten by whatever beats the original. */
  lemma BeatsAsDuplicate(l: Entity, u: Entity, e: Entity)
    requires Beats(l, u) && KeyOf(u) == KeyOf(e) && u.confidence >= e.confidence
    ensures Beats(l, e)
  {
  }

  lemma FoldThree(a: Entity, b: Entity, c: Entity)
    ensures Fold([a, b, c]) == Merge(Merge([a], b), c)
  {
    assert [a, b, c][..2] == [a, b] && [a, b][..1] == [a] && [a][..0] == [];
    assert Fold([a]) == [a];
  }

  lemma UniqueOfDistinct(s: seq<Entity>)
    requires Distinct(s, KeyOf) && Sorted(s, Position)
    ensures Unique(s) == s
  {
    CollectOfDistinct(s);
    SortOfSorted(s, Position);
  }

  lemma UniqueOfThree(a: Entity, b: Entity, c: Entity)
    requires a.start < b.start < c.start
    ensures Unique([a, b, c]) == [a, b, c]
  {
    UniqueOfDistinct([a, b, c]);
  }

  lemma ChainResolved(a: Entity, b: Entity, c: Entity)
    requires a.start < b.start < a.end <= c.start < b.end && c.start < c.end
    ensures Resolve([a, b, c]) == if Beats(a, b) then [a, c] else if Beats(b, c) then [b] else [c]
  {
    UniqueOfThree(a, b, c);
    FoldThree(a, b, c);
  }

  lemma MeetsOne(x: Entity, k: Entity)
    ensures MeetsKept(x, [k]) <==> Overlaps(k, x)
  {
    assert k in [k];
  }

  /** Three spans in a chain, the outer two apart: which are kept, and the exact condition
      under which the first overlaps nothing kept. */
  lemma ChainOfThree(a: Entity, b: Entity, c: Entity)
    requires a.start < b.start < a.end <= c.start < b.end && c.start < c.end
    ensures Resolve([a, b, c]) == if Beats(a, b) then [a, c] else if Beats(b, c) then [b] else [c]
    ensures !MeetsKept(a, Resolve([a, b, c])) <==> !Beats(a, b) && !Beats(b, c)
  {
    ChainResolved(a, b, c);
    assert a in [a, c];
    MeetsOne(a, b);
    MeetsOne(a, c);
  }

  /** Spans that end before they start, which the data type admits, undo the separation:
      the first and the third span overlap, and all are kept. */
  lemma BackwardSpansUndoSeparation(a: Entity, b: Entity, c: Entity)
    requires a.start < b.start < c.start < a.end && b.end <= a.start && a.start < c.end
    ensures Resolve([a, b, c]) == [a, b, c] && Overlaps(a, c)
  {
    UniqueOfThree(a, b, c);
    FoldThree(a, b, c);
  }

  /** A house number dropped for a city, itself dropped for a card that the house number
      does not touch. */
  lemma DroppedExample()
    ensures
      var house, city, card := Entity(House, "aaaaa", 0, 5, 1.0), Entity(City, "aabbb", 3, 8, 1.0),
        Entity(BankCard, "bbcccc", 6, 12, 1.0);
      Resolve([house, city, card]) == [card] && !MeetsKept(house, [card])
  {
    var house, city, card := Entity(House, "aaaaa", 0, 5, 1.0), Entity(City, "aabbb", 3, 8, 1.0),
      Entity(BankCard, "bbcccc", 6, 12, 1.0);
    ChainOfThree(house, city, card);
  }

  // ----- two candidates

  /** The classes of types, from the one whose spans yield to all others upwards. */
  function ClassOf(kind: PIIType): int {
    if kind in {Cvv, Pin, House, Apartment} then 1
    else if kind in {BirthDate} then 2
    else if kind in {PersonName, CardholderName, BirthPlace, Citizenship, Country, City, Street, PostalCode,
                     PassportIssuer, PassportIssueDate} then 3
    else if kind in {Address} then 4
    else if kind in {Phone, Email} then 5
    else if kind in {BankCard, Inn, PassportNumber, PassportDivisionCode, DriverLicense} then 6
    else 0
  }

  /** Of two overlapping spans, `a` stays: its type is of a higher class, or of the same and
      it is more confident, or equally so and at least as long. */
  predicate Stays(a: Entity, b: Entity) {
    || ClassOf(a.kind) > ClassOf(b.kind)
    || (ClassOf(a.kind) == ClassOf(b.kind)
        && (a.confidence > b.confidence || (a.confidence == b.confidence && a.end - a.start >= b.end - b.start)))
  }

  lemma ClassesArePriorities(a: PIIType, b: PIIType)
    ensures ClassOf(a) > ClassOf(b) <==> Priority(a) > Priority(b)
  {
  }

  lemma FoldTwo(a: Entity, b: Entity)
    ensures Fold([a, b]) == Merge([a], b)
  {
    assert [a, b][..1] == [a] && [a][..0] == [];
    assert Fold([a]) == [a];
  }

  lemma ResolveTwo(a: Entity, b: Entity)
    requires KeyOf(a) != KeyOf(b) && Leq(Position(a), Position(b)) && Overlaps(a, b)
    ensures Resolve([a, b]) == [if Stays(a, b) then a else b]
  {
    UniqueOfDistinct([a, b]);
    FoldTwo(a, b);
    ClassesArePriorities(a.kind, b.kind);
    ClassesArePriorities(b.kind, a.kind);
  }

  /** Two different overlapping candidates, given in either order: the one that stays is
      decided by the classes of their types, whatever the confidences and lengths, then by
      confidence, then by length, and last by which comes first in the text. */
  lemma OneOfTwoStays(a: Entity, b: Entity)
    requires a.start < b.end && b.start < a.end && (a.start < b.start || (a.start == b.start && a.end < b.end))
    ensures Resolve([a, b]) == Resolve([b, a]) == [if Stays(a, b) then a else b]
  {
    ResolveTwo(a, b);
    assert Resolve([b, a]) == Resolve([a, b]) by {
      UniqueOfDistinct([a, b]);
      UniqueOfSwapped(a, b);
    }
  }

  /** Two candidates of one span: of two types, the one of the higher class stays, then the
      more confident, then the first; of one type, the more confident, then the first. */
  lemma OneOfTwoAtOnePlaceStays(a: Entity, b: Entity)
    requires a.start == b.start < a.end == b.end
    ensures a.kind != b.kind ==> Resolve([a, b]) == [if Stays(a, b) then a else b]
    ensures a.kind == b.kind ==> Resolve([a, b]) == [if b.confidence > a.confidence then b else a]
  {
    if a.kind != b.kind {
      ResolveTwo(a, b);
    } else {
      UniqueOfRepeated(a, b);
      var kept := if b.confidence > a.confidence then b else a;
      assert [kept][..0] == [];
      assert Fold([kept]) == [kept];
    }
  }

  lemma UniqueOfRepeated(a: Entity, b: Entity)
    requires a.kind == b.kind && a.start == b.start && a.end == b.end
    ensures Unique([a, b]) == [if b.confidence > a.confidence then b else a]
  {
    var kept := if b.confidence > a.confidence then b else a;
    CollectNext([a, b], 0);
    CollectNext([a, b], 1);
    assert [a, b][..2] == [a, b];
    assert Collect([a, b]).Values() == [kept];
    SortOfSorted([kept], Position);
  }

  /** Two nonempty candidates of which one ends where the other starts, or before, both
      stay, in the order of the text. */
  lemma BothOfTwoStay(a: Entity, b: Entity)
    requires a.start < a.end <= b.start < b.end
    ensures Resolve([a, b]) == Resolve([b, a]) == [a, b]
  {
    UniqueOfDistinct([a, b]);
    UniqueOfSwapped(a, b);
    FoldTwo(a, b);
  }

  lemma UniqueOfSwapped(a: Entity, b: Entity)
    requires a.start < b.start || (a.start == b.start && a.end < b.end)
    ensures Unique([b, a]) == [a, b]
  {
    CollectOfDistinct([b, a]);
    assert [b, a][..1] == [b] && [b][..0] == [];
    assert Sort([b], Position) == [b];
    assert Insert([b], a, Position) == Insert([], a, Position) + [b] == [a] + [b];
  }
}
