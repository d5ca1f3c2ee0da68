/** Resolution of overlapping candidate spans. */
module SpanResolution {
  import opened Entities
  import opened StableSort

  function Priority(kind: PIIType): int {
    match kind
    case BankCard => 90
    case Inn => 90
    case PassportNumber => 90
    case PassportDivisionCode => 90
    case DriverLicense => 90
    case Phone => 80
    case Email => 80
    case Address => 70
    case PersonName => 60
    case CardholderName => 60
    case BirthPlace => 60
    case Citizenship => 60
    case Country => 60
    case City => 60
    case Street => 60
    case PostalCode => 60
    case PassportIssuer => 60
    case PassportIssueDate => 60
    case Cvv => 30
    case Pin => 30
    case House => 30
    case Apartment => 30
    case BirthDate => 50
  }

  function Better(a: Entity, b: Entity): Entity {
    var pa, pb := Priority(a.kind), Priority(b.kind);
    if pa != pb then (if pa > pb then a else b)
    else if a.confidence != b.confidence then (if a.confidence > b.confidence then a else b)
    else if a.end - a.start >= b.end - b.start then a else b
  }

  /** `a` is at least as good as `b` by priority, then confidence, then length. */
  predicate Beats(a: Entity, b: Entity) {
    var pa, pb := Priority(a.kind), Priority(b.kind);
    pa > pb || (pa == pb &&
    (a.confidence > b.confidence || (a.confidence == b.confidence && a.end - a.start >= b.end - b.start)))
  }

  datatype SpanKey = SpanKey(kind: PIIType, start: int, end: int)

  function KeyOf(e: Entity): SpanKey { SpanKey(e.kind, e.start, e.end) }

  function Position(e: Entity): Rank { Rank(e.start, e.end) }

  /** A dictionary from span keys to entities, with its keys in insertion order. */
  datatype Best = Best(keys: seq<SpanKey>, items: map<SpanKey, Entity>) {
    ghost predicate Valid() {
      && (forall k :: k in keys <==> k in items)
      && (forall i, j :: 0 <= i < j < |keys| ==> keys[i] != keys[j])
      && (forall k :: k in items ==> KeyOf(items[k]) == k)
    }

    function Values(): (r: seq<Entity>)
      requires Valid()
      ensures |r| == |keys|
    {
      seq(|keys|, i requires 0 <= i < |keys| => items[keys[i]])
    }
  }

  function Record(best: Best, e: Entity): (r: Best)
    requires best.Valid()
    ensures r.Valid()
  {
    var k := KeyOf(e);
    if k !in best.items then Best(best.keys + [k], best.items[k := e])
    else if e.confidence > best.items[k].confidence then best.(items := best.items[k := e])
    else best
  }

  function Collect(s: seq<Entity>): (r: Best)
    ensures r.Valid()
  {
    if s == [] then Best([], map[]) else Record(Collect(s[..|s| - 1]), s[|s| - 1])
  }

  function Merge(resolved: seq<Entity>, e: Entity): seq<Entity> {
    if resolved != [] && Overlaps(resolved[|resolved| - 1], e) then
      resolved[|resolved| - 1 := Better(resolved[|resolved| - 1], e)]
    else
      resolved + [e]
  }

  function Fold(s: seq<Entity>): seq<Entity> {
    if s == [] then [] else Merge(Fold(s[..|s| - 1]), s[|s| - 1])
  }

  /** The deduplicated candidates in text order. */
  function Unique(entities: seq<Entity>): seq<Entity> {
    Sort(Collect(entities).Values(), Position)
  }

  function Resolve(entities: seq<Entity>): seq<Entity> {
    Fold(Unique(entities))
  }

  lemma CollectNext(s: seq<Entity>, n: nat)
    requires n < |s|
    ensures Collect(s[..n + 1]) == Record(Collect(s[..n]), s[n])
  {
    assert s[..n + 1][..n] == s[..n];
  }

  lemma FoldNext(s: seq<Entity>, n: nat)
    requires n < |s|
    ensures Fold(s[..n + 1]) == Merge(Fold(s[..n]), s[n])
  {
    assert s[..n + 1][..n] == s[..n];
  }

  method ResolveSpans(entities: seq<Entity>) returns (resolved: seq<Entity>)
    ensures resolved == Resolve(entities)
  {
    var keys: seq<SpanKey>, best: map<SpanKey, Entity> := [], map[];
    for n := 0 to |entities|
      invariant Best(keys, best) == Collect(entities[..n])
    {
      var entity := entities[n];
      var key := KeyOf(entity);
      CollectNext(entities, n);
      if key !in best {
        keys := keys + [key];
        best := best[key := entity];
      } else if entity.confidence > best[key].confidence {
        best := best[key := entity];
      }
    }
    assert entities[..|entities|] == entities;
    var unique := Sort(Best(keys, best).Values(), Position);
    resolved := [];
    for n := 0 to |unique|
      invariant resolved == Fold(unique[..n])
    {
      FoldNext(unique, n);
      var entity := unique[n];
      if resolved != [] && Overlaps(resolved[|resolved| - 1], entity) {
        resolved := resolved[|resolved| - 1 := Better(resolved[|resolved| - 1], entity)];
      } else {
        resolved := resolved + [entity];
      }
    }
    assert unique[..|unique|] == unique;
  }

  // ----- deduplication

  /** `s[i]` is the first of the most confident entities of `s` with key `k`; `i` is the
      length when there is none. */
  ghost predicate MostConfident(s: seq<Entity>, k: SpanKey, i: nat) {
    if i == |s| then forall j :: 0 <= j < |s| ==> KeyOf(s[j]) != k
    else
      && i < |s| && KeyOf(s[i]) == k
      && (forall j :: 0 <= j < |s| && KeyOf(s[j]) == k ==> s[j].confidence <= s[i].confidence)
      && (forall j :: 0 <= j < i && KeyOf(s[j]) == k ==> s[j].confidence < s[i].confidence)
  }

  lemma MostConfidentNext(s: seq<Entity>, k: SpanKey, f: nat, e: Entity) returns (i: nat)
    requires MostConfident(s, k, f)
    ensures MostConfident(s + [e], k, i)
    ensures i == if KeyOf(e) != k then (if f == |s| then |s| + 1 else f)
                 else if f == |s| || e.confidence > s[f].confidence then |s| else f
  {
    i := if KeyOf(e) != k then (if f == |s| then |s| + 1 else f)
         else if f == |s| || e.confidence > s[f].confidence then |s| else f;
  }

  lemma RecordItem(best: Best, e: Entity, k: SpanKey)
    requires best.Valid()
    ensures k in Record(best, e).items <==> k in best.items || k == KeyOf(e)
    ensures k in best.items && (k != KeyOf(e) || e.confidence <= best.items[k].confidence) ==>
            Record(best, e).items[k] == best.items[k]
    ensures k == KeyOf(e) && (k !in best.items || e.confidence > best.items[k].confidence) ==>
            Record(best, e).items[k] == e
  {
  }

  /** The dictionary holds, for each span key seen, the first of the most confident
      entities with that key, and nothing for other keys. */
  lemma {:induction false} CollectKeepsMostConfident(s: seq<Entity>, k: SpanKey) returns (i: nat)
    ensures MostConfident(s, k, i)
    ensures k in Collect(s).items <==> i < |s|
    ensures i < |s| ==> Collect(s).items[k] == s[i]
  {
    if s == [] {
      i := 0;
    } else {
      var front, e := s[..|s| - 1], s[|s| - 1];
      assert s == front + [e];
      var f := CollectKeepsMostConfident(front, k);
      RecordItem(Collect(front), e, k);
      i := MostConfidentNext(front, k, f, e);
    }
  }

  ghost predicate WellOrdered(s: seq<Entity>) {
    forall e :: e in s ==> e.start <= e.end
  }

  lemma UniqueIsSorted(entities: seq<Entity>)
    ensures Sorted(Unique(entities), Position) && Distinct(Unique(entities), KeyOf)
  {
    var values := Collect(entities).Values();
    SortSorts(values, Position);
    SortKeepsDistinct(values, Position, KeyOf);
  }

  lemma UniqueFromCandidates(entities: seq<Entity>)
    ensures forall e :: e in Unique(entities) ==> e in entities
  {
    var values := Collect(entities).Values();
    SameElements(values, Position);
    forall e | e in Unique(entities)
      ensures e in entities
    {
      assert e in values;
      var i := CollectKeepsMostConfident(entities, KeyOf(e));
    }
  }

  /** A candidate is represented among the deduplicated ones by its own span and type. */
  lemma UniqueCovers(entities: seq<Entity>, e: Entity) returns (u: Entity)
    requires e in entities
    ensures u in Unique(entities) && KeyOf(u) == KeyOf(e) && u.confidence >= e.confidence
  {
    var best := Collect(entities);
    var values := best.Values();
    SameElements(values, Position);
    var i := CollectKeepsMostConfident(entities, KeyOf(e));
    u := best.items[KeyOf(e)];
    var j :| 0 <= j < |best.keys| && best.keys[j] == KeyOf(e);
    assert values[j] == u;
  }

  // ----- the output is in order and free of overlaps

  /** In text order, no span twice, and none overlapping the next. */
  ghost predicate Tidy(s: seq<Entity>) {
    && Sorted(s, Position) && Distinct(s, KeyOf)
    && forall i :: 0 <= i < |s| - 1 ==> !Overlaps(s[i], s[i + 1])
  }

  /** A span that displaces the last one is still clear of the one before: the last one,
      being overlapped from within, reaches beyond its start, where the other has ended. */
  lemma DisplacingStaysClear(before: Entity, last: Entity, e: Entity)
    requires Leq(Position(before), Position(last)) && Leq(Position(last), Position(e))
    requires !Overlaps(before, last) && Overlaps(last, e)
    ensures !Overlaps(before, e)
  {
  }

  lemma MergeKeepsTidy(resolved: seq<Entity>, e: Entity)
    requires Tidy(resolved)
    requires forall k :: k in resolved ==> Leq(Position(k), Position(e)) && KeyOf(k) != KeyOf(e)
    ensures Tidy(Merge(resolved, e))
  {
    var r := Merge(resolved, e);
    assert forall i :: 0 <= i < |resolved| ==> resolved[i] in resolved;
    if |resolved| > 1 && Overlaps(resolved[|resolved| - 1], e) {
      DisplacingStaysClear(resolved[|resolved| - 2], resolved[|resolved| - 1], e);
    }
  }

  lemma {:induction false} FoldKeepsTidy(s: seq<Entity>)
    requires Sorted(s, Position) && Distinct(s, KeyOf)
    ensures Tidy(Fold(s))
    ensures forall e :: e in Fold(s) ==> e in s
  {
    if s != [] {
      var front, e := s[..|s| - 1], s[|s| - 1];
      FoldKeepsTidy(front);
      var r := Fold(front);
      forall k | k in r
        ensures k in s && Leq(Position(k), Position(e)) && KeyOf(k) != KeyOf(e)
      {
        var i :| 0 <= i < |front| && front[i] == k;
        assert s[i] == k;
      }
      MergeKeepsTidy(r, e);
      forall x | x in Merge(r, e)
        ensures x in s
      {
        assert x in r || x == e;
      }
    }
  }

  /** Tidy spans that do not end before they start lie apart. */
  lemma {:induction false} TidyIsApart(s: seq<Entity>)
    requires Tidy(s) && WellOrdered(s)
    ensures Apart(s)
  {
    if s != [] {
      var front, e := s[..|s| - 1], s[|s| - 1];
      TidyIsApart(front);
      if front != [] {
        var last := front[|front| - 1];
        assert last in s && e in s && last == s[|s| - 2];
        assert Leq(Position(last), Position(e));
        assert last.end <= e.start;
        assert forall i :: 0 <= i < |front| - 1 ==> front[i].end <= last.start;
      }
    }
  }

  /** Whatever the candidates, the output is drawn from them, in text order, without
      repetition, and no span overlaps the next one; spans that do not end before they
      start lie apart altogether. */
  lemma ResolvedIsApart(entities: seq<Entity>)
    ensures forall e :: e in Resolve(entities) ==> e in entities
    ensures Tidy(Resolve(entities))
    ensures
      var r := Resolve(entities);
      forall i, j :: 0 <= i < j < |r| ==> r[i].start < r[j].start || (r[i].start == r[j].start && r[i].end <= r[j].end)
    ensures WellOrdered(Resolve(entities)) ==> Apart(Resolve(entities))
  {
    UniqueIsSorted(entities);
    UniqueFromCandidates(entities);
    FoldKeepsTidy(Unique(entities));
    if WellOrdered(Resolve(entities)) {
      TidyIsApart(Resolve(entities));
    }
  }

  // ----- the candidates fall into blocks, each represented by its best

  /** Consecutive members of the path overlap, and all come from `block`. */
  ghost predicate Chain(path: seq<Entity>, block: seq<Entity>) {
    && path != []
    && (forall i :: 0 <= i < |path| ==> path[i] in block)
    && forall i :: 0 <= i < |path| - 1 ==> Overlaps(path[i], path[i + 1])
  }

  ghost predicate Linked(x: Entity, y: Entity, block: seq<Entity>) {
    exists path :: Chain(path, block) && path[0] == x && path[|path| - 1] == y
  }

  lemma LinkedToItself(x: Entity, block: seq<Entity>)
    requires x in block
    ensures Linked(x, x, block)
  {
    assert Chain([x], block);
  }

  lemma LinkedFurther(x: Entity, y: Entity, z: Entity, block: seq<Entity>)
    requires Linked(x, y, block) && (y == z || (z in block && Overlaps(y, z)))
    ensures Linked(x, z, block)
  {
    var path :| Chain(path, block) && path[0] == x && path[|path| - 1] == y;
    if y != z {
      assert Chain(path + [z], block);
      assert (path + [z])[0] == x;
    }
  }

  lemma LinkedInLarger(x: Entity, y: Entity, block: seq<Entity>, larger: seq<Entity>)
    requires Linked(x, y, block) && forall e :: e in block ==> e in larger
    ensures Linked(x, y, larger)
  {
    var path :| Chain(path, block) && path[0] == x && path[|path| - 1] == y;
    assert Chain(path, larger);
  }

  /** `kept` is in the block, is at least as good as every member, and every member is
      tied to it by overlaps within the block. */
  ghost predicate Represents(kept: Entity, block: seq<Entity>) {
    && kept in block
    && (forall e :: e in block ==> Beats(kept, e) && Linked(e, kept, block))
  }

  lemma Extend(kept: Entity, block: seq<Entity>, e: Entity)
    requires Represents(kept, block) && Overlaps(kept, e)
    ensures Represents(Better(kept, e), block + [e])
  {
    var larger := block + [e];
    var best := Better(kept, e);
    forall x | x in larger
      ensures Beats(best, x) && Linked(x, best, larger)
    {
      if x in block {
        LinkedInLarger(x, kept, block, larger);
        LinkedFurther(x, kept, best, larger);
      } else {
        LinkedToItself(e, larger);
        LinkedFurther(e, e, best, larger);
      }
    }
  }

  function Flatten(blocks: seq<seq<Entity>>): seq<Entity> {
    if blocks == [] then [] else Flatten(blocks[..|blocks| - 1]) + blocks[|blocks| - 1]
  }

  /** `s` falls into consecutive blocks, each represented by one kept entity. */
  ghost predicate Blocks(s: seq<Entity>, kept: seq<Entity>, blocks: seq<seq<Entity>>) {
    && Flatten(blocks) == s && |blocks| == |kept|
    && forall b :: 0 <= b < |kept| ==> Represents(kept[b], blocks[b])
  }

  lemma GrowLast(s: seq<Entity>, kept: seq<Entity>, blocks: seq<seq<Entity>>, e: Entity)
    requires Blocks(s, kept, blocks) && kept != [] && Overlaps(kept[|kept| - 1], e)
    ensures Blocks(s + [e], kept[|kept| - 1 := Better(kept[|kept| - 1], e)],
            blocks[|kept| - 1 := blocks[|kept| - 1] + [e]])
  {
    var n := |kept| - 1;
    assert Represents(kept[n], blocks[n]);
    Extend(kept[n], blocks[n], e);
    var grown := blocks[n := blocks[n] + [e]];
    assert grown[..n] == blocks[..n];
    assert Flatten(grown) == Flatten(blocks) + [e];
  }

  lemma AppendBlock(s: seq<Entity>, kept: seq<Entity>, blocks: seq<seq<Entity>>, e: Entity)
    requires Blocks(s, kept, blocks)
    ensures Blocks(s + [e], kept + [e], blocks + [[e]])
  {
    LinkedToItself(e, [e]);
    assert Represents(e, [e]);
    assert (blocks + [[e]])[..|blocks|] == blocks;
  }

  lemma {:induction false} FoldBlocks(s: seq<Entity>) returns (blocks: seq<seq<Entity>>)
    ensures Blocks(s, Fold(s), blocks)
  {
    blocks := [];
    if s != [] {
      var front, e := s[..|s| - 1], s[|s| - 1];
      assert s == front + [e];
      var before := FoldBlocks(front);
      var r := Fold(front);
      if r != [] && Overlaps(r[|r| - 1], e) {
        GrowLast(front, r, before, e);
        blocks := before[|r| - 1 := before[|r| - 1] + [e]];
      } else {
        AppendBlock(front, r, before, e);
        blocks := before + [[e]];
      }
    }
  }

  /** The deduplicated candidates, in text order, split into consecutive blocks, and
      resolution keeps exactly the best member of each. */
  lemma ResolutionKeepsBlockMaxima(entities: seq<Entity>) returns (blocks: seq<seq<Entity>>)
    ensures Blocks(Unique(entities), Resolve(entities), blocks)
  {
    blocks := FoldBlocks(Unique(entities));
  }

  lemma {:induction false} BlockOf(blocks: seq<seq<Entity>>, x: Entity) returns (b: nat)
    requires x in Flatten(blocks)
    ensures b < |blocks| && x in blocks[b]
  {
    var last := |blocks| - 1;
    if x in blocks[last] {
      b := last;
    } else {
      b := BlockOf(blocks[..last], x);
    }
  }

  lemma {:induction false} FlattenContains(blocks: seq<seq<Entity>>, b: nat, x: Entity)
    requires b < |blocks| && x in blocks[b]
    ensures x in Flatten(blocks)
  {
    if b < |blocks| - 1 {
      FlattenContains(blocks[..|blocks| - 1], b, x);
    }
  }

  /** No candidate is lost without a better one: each is dominated by a span that is
      kept and that it, or its more confident duplicate, reaches through overlaps. */
  lemma EveryCandidateIsDominated(entities: seq<Entity>, e: Entity) returns (kept: Entity, path: seq<Entity>)
    requires e in entities
    ensures kept in Resolve(entities) && Beats(kept, e)
    ensures Chain(path, entities) && KeyOf(path[0]) == KeyOf(e) && path[|path| - 1] == kept
  {
    var u := UniqueCovers(entities, e);
    kept, path := DominatorOf(entities, u);
  }

  lemma DominatorOf(entities: seq<Entity>, u: Entity) returns (kept: Entity, path: seq<Entity>)
    requires u in Unique(entities)
    ensures kept in Resolve(entities) && Beats(kept, u)
    ensures Chain(path, entities) && path[0] == u && path[|path| - 1] == kept
  {
    var blocks := ResolutionKeepsBlockMaxima(entities);
    var b := BlockOf(blocks, u);
    kept := Resolve(entities)[b];
    assert Represents(kept, blocks[b]);
    forall x | x in blocks[b]
      ensures x in entities
    {
      FlattenContains(blocks, b, x);
      UniqueFromCandidates(entities);
    }
    LinkedInLarger(u, kept, blocks[b], entities);
    path :| Chain(path, entities) && path[0] == u && path[|path| - 1] == kept;
  }

  // ----- resolving twice changes nothing

  lemma {:induction false} CollectOfDistinct(s: seq<Entity>)
    requires Distinct(s, KeyOf)
    ensures Collect(s).Values() == s
  {
    if s != [] {
      var front, e := s[..|s| - 1], s[|s| - 1];
      assert s == front + [e];
      CollectOfDistinct(front);
      var best := Collect(front);
      forall i | 0 <= i < |best.keys|
        ensures best.keys[i] != KeyOf(e)
      {
        assert best.items[best.keys[i]] == best.Values()[i] == s[i];
      }
      RecordNew(best, e);
    }
  }

  lemma RecordNew(best: Best, e: Entity)
    requires best.Valid() && KeyOf(e) !in best.keys
    ensures Record(best, e).Values() == best.Values() + [e]
  {
    assert forall i :: 0 <= i < |best.keys| ==> Record(best, e).Values()[i] == best.Values()[i];
  }

  lemma {:induction false} FoldOfTidy(s: seq<Entity>)
    requires Tidy(s)
    ensures Fold(s) == s
  {
    if s != [] {
      var front, e := s[..|s| - 1], s[|s| - 1];
      FoldOfTidy(front);
      assert s == front + [e];
      assert front != [] ==> front[|front| - 1] == s[|s| - 2];
    }
  }

  lemma ResolveIsIdempotent(entities: seq<Entity>)
    ensures Resolve(Resolve(entities)) == Resolve(entities)
  {
    var r := Resolve(entities);
    ResolvedIsApart(entities);
    CollectOfDistinct(r);
    SortOfSorted(r, Position);
    FoldOfTidy(r);
  }
}
