/** The in-memory restoration store: an insertion-ordered dictionary whose order is
    also its expiry order.  The clock readings each method makes are parameters. */
module MemoryStore {
  import opened Domain
  import opened Representation

  ghost predicate NoRepeats(order: seq<string>) {
    forall i, j :: 0 <= i < j < |order| ==> order[i] != order[j]
  }

  ghost predicate InExpiryOrder(order: seq<string>, table: map<string, Stored>) {
    && (forall k :: k in order ==> k in table)
    && forall i, j :: 0 <= i < j < |order| ==> table[order[i]].expiresAt <= table[order[j]].expiresAt
  }

  /** The contents of an `OrderedDict`: its keys from oldest to newest, and its items. */
  datatype Dict = Dict(order: seq<string>, table: map<string, Stored>) {

    ghost predicate WellFormed() {
      (forall k :: k in order <==> k in table) && NoRepeats(order)
    }

    /** Insertion order is expiry order, and no entry outlives a full time to live. */
    ghost predicate Sorted() {
      InExpiryOrder(order, table)
    }

    ghost predicate ExpiresBy(limit: real) {
      forall k :: k in table ==> table[k].expiresAt <= limit
    }
  }

  const Empty := Dict([], map[])

  function Without(order: seq<string>, key: string): (r: seq<string>)
    ensures forall k :: k in r <==> k in order && k != key
    ensures |r| <= |order|
    ensures key in order ==> |r| < |order|
  {
    if order == [] then []
    else if order[0] == key then Without(order[1..], key)
    else [order[0]] + Without(order[1..], key)
  }

  function Remove(d: Dict, key: string): Dict {
    Dict(Without(d.order, key), d.table - {key})
  }

  /** `d[key] = item` preceded by `move_to_end` when the key is already there. */
  function Put(d: Dict, key: string, item: Stored): Dict {
    Dict(Without(d.order, key) + [key], d.table[key := item])
  }

  /** Exactly the items that are live at `now`. */
  function Live(table: map<string, Stored>, now: real): map<string, Stored> {
    map k | k in table && now < table[k].expiresAt :: table[k]
  }

  function LiveRecord(table: map<string, Stored>, key: string, now: real): Option<Record> {
    if key in table && now < table[key].expiresAt then Some(table[key].record) else None
  }

  function Evict(d: Dict, now: real): (r: Dict)
    requires d.WellFormed()
    ensures r.WellFormed() && |r.order| <= |d.order|
    decreases |d.order|
  {
    if d.order == [] || now < d.table[d.order[0]].expiresAt then d
    else Evict(Dict(d.order[1..], d.table - {d.order[0]}), now)
  }

  /** The lookup part of `transition`, and `get`: an item past its time is deleted. */
  function Take(d: Dict, key: string, now: real): (Dict, Option<Record>) {
    if key !in d.table then (d, None)
    else if now < d.table[key].expiresAt then (d, Some(d.table[key].record))
    else (Remove(d, key), None)
  }

  function ReadPhase(d: Dict, key: string, evictAt: real, readAt: real): (Dict, Option<Record>)
    requires d.WellFormed()
  {
    Take(Evict(d, evictAt), key, readAt)
  }

  predicate HasRoom(d: Dict, key: string, maxEntries: nat) {
    key in d.table || |d.order| < maxEntries
  }

  function WritePhase(d: Dict, key: string, result: Option<Record>, maxEntries: nat, ttl: real,
                      now: real): Option<Dict>
  {
    match result
    case None => Some(Remove(d, key))
    case Some(record) =>
      if HasRoom(d, key, maxEntries) then Some(Put(d, key, Stored(now + ttl, record))) else Option.None
  }

  function AfterWrite(table: map<string, Stored>, key: string, result: Option<Record>,
                      expiresAt: real): map<string, Stored>
  {
    if result.None? then table - {key} else table[key := Stored(expiresAt, result.value)]
  }

  lemma WriteElsewhere(table: map<string, Stored>, key: string, result: Option<Record>, expiresAt: real)
    ensures AfterWrite(table, key, result, expiresAt) - {key} == table - {key}
  {
  }

  // ----- properties of the dictionary operations

  lemma {:induction false} WithoutKeepsNoRepeats(order: seq<string>, key: string)
    requires NoRepeats(order)
    ensures NoRepeats(Without(order, key))
  {
    if order != [] {
      WithoutKeepsNoRepeats(order[1..], key);
      var w := Without(order[1..], key);
      if order[0] != key {
        var r := [order[0]] + w;
        forall i, j | 0 <= i < j < |r|
          ensures r[i] != r[j]
        {
          assert r[j] == w[j - 1] && w[j - 1] in order[1..];
        }
      }
    }
  }

  lemma {:induction false} WithoutKeepsOrder(order: seq<string>, table: map<string, Stored>, key: string)
    requires InExpiryOrder(order, table)
    ensures InExpiryOrder(Without(order, key), table)
  {
    if order != [] {
      var tail := order[1..];
      assert forall i :: 0 <= i < |tail| ==> tail[i] == order[i + 1];
      WithoutKeepsOrder(tail, table, key);
      var w := Without(tail, key);
      if order[0] != key {
        var r := [order[0]] + w;
        forall i, j | 0 <= i < j < |r|
          ensures table[r[i]].expiresAt <= table[r[j]].expiresAt
        {
          assert r[j] == w[j - 1] && w[j - 1] in tail;
        }
      }
    }
  }

  lemma RemoveKeepsValid(d: Dict, key: string)
    requires d.WellFormed()
    ensures Remove(d, key).WellFormed()
    ensures d.Sorted() ==> Remove(d, key).Sorted()
  {
    WithoutKeepsNoRepeats(d.order, key);
    if d.Sorted() {
      WithoutKeepsOrder(d.order, d.table, key);
      var r := Remove(d, key);
      forall i, j | 0 <= i < j < |r.order|
        ensures r.table[r.order[i]].expiresAt <= r.table[r.order[j]].expiresAt
      {
        assert r.order[i] in r.order && r.order[j] in r.order;
      }
    }
  }

  /** Writing with the largest expiry so far keeps insertion order the expiry order. */
  lemma PutKeepsValid(d: Dict, key: string, item: Stored)
    requires d.WellFormed()
    ensures Put(d, key, item).WellFormed()
    ensures d.Sorted() && d.ExpiresBy(item.expiresAt) ==> Put(d, key, item).Sorted()
    ensures |Put(d, key, item).order| <= if key in d.table then |d.order| else |d.order| + 1
  {
    var w := Without(d.order, key);
    WithoutKeepsNoRepeats(d.order, key);
    assert forall k :: k in w + [key] <==> k in w || k == key;
    assert forall i :: 0 <= i < |w| ==> w[i] in w;
    if d.Sorted() && d.ExpiresBy(item.expiresAt) {
      PutKeepsOrder(d, key, item);
    }
  }

  lemma PutKeepsOrder(d: Dict, key: string, item: Stored)
    requires d.WellFormed() && d.Sorted() && d.ExpiresBy(item.expiresAt)
    ensures Put(d, key, item).Sorted()
  {
    WithoutKeepsOrder(d.order, d.table, key);
    var w := Without(d.order, key);
    var r := Put(d, key, item);
    forall i, j | 0 <= i < j < |r.order|
      ensures r.table[r.order[i]].expiresAt <= r.table[r.order[j]].expiresAt
    {
      assert r.order[i] == w[i] && w[i] in w;
      if j < |w| {
        assert r.order[j] == w[j] && w[j] in w;
      }
    }
  }

  lemma TailIsValid(d: Dict)
    requires d.WellFormed() && d.order != []
    ensures var rest := Dict(d.order[1..], d.table - {d.order[0]});
            rest.WellFormed() && (d.Sorted() ==> rest.Sorted())
  {
    var rest := Dict(d.order[1..], d.table - {d.order[0]});
    assert forall i :: 0 <= i < |rest.order| ==> rest.order[i] == d.order[i + 1];
    forall k
      ensures k in rest.order <==> k in rest.table
    {
      if k in d.order && k != d.order[0] {
        var i :| 0 <= i < |d.order| && d.order[i] == k;
        assert rest.order[i - 1] == k;
      }
    }
  }

  lemma AllLive(d: Dict, now: real)
    requires d.WellFormed() && d.Sorted()
    requires d.order != [] ==> now < d.table[d.order[0]].expiresAt
    ensures Live(d.table, now) == d.table
  {
    forall k | k in d.table
      ensures now < d.table[k].expiresAt
    {
      assert k in d.order;
    }
  }

  lemma LiveWithout(table: map<string, Stored>, key: string, now: real)
    requires key in table && table[key].expiresAt <= now
    ensures Live(table - {key}, now) == Live(table, now)
  {
  }

  /** Deleting from the front only, and stopping at the first live entry, removes the
      expired entries, all of them, and nothing else. */
  lemma {:induction false} EvictIsExact(d: Dict, now: real)
    requires d.WellFormed() && d.Sorted()
    ensures Evict(d, now).table == Live(d.table, now)
    ensures Evict(d, now).Sorted()
    decreases |d.order|
  {
    if d.order == [] || now < d.table[d.order[0]].expiresAt {
      AllLive(d, now);
    } else {
      var first := d.order[0];
      var rest := Dict(d.order[1..], d.table - {first});
      TailIsValid(d);
      EvictIsExact(rest, now);
      LiveWithout(d.table, first, now);
    }
  }

  lemma TakeIsExact(d: Dict, key: string, now: real)
    requires d.WellFormed() && d.Sorted()
    ensures
      var (d', seen) := Take(d, key, now);
      && d'.WellFormed() && d'.Sorted() && |d'.order| <= |d.order|
      && seen == LiveRecord(d.table, key, now)
      && (forall k :: k in d'.table ==> k in d.table && d'.table[k] == d.table[k])
      && Live(d'.table, now) == Live(d.table, now)
  {
    RemoveKeepsValid(d, key);
  }

  lemma LiveLater(table: map<string, Stored>, now: real, later: real)
    requires now <= later
    ensures Live(Live(table, now), later) == Live(table, later)
  {
  }

  /** A read phase answers with the stored record exactly while it is live, loses no
      live entry, and keeps the dictionary in order. */
  lemma ReadPhaseIsExact(d: Dict, key: string, evictAt: real, readAt: real)
    requires d.WellFormed() && d.Sorted() && evictAt <= readAt
    ensures
      var (d', seen) := ReadPhase(d, key, evictAt, readAt);
      && d'.WellFormed() && d'.Sorted() && |d'.order| <= |d.order|
      && seen == LiveRecord(d.table, key, readAt)
      && (forall k :: k in d'.table ==> k in d.table && d'.table[k] == d.table[k])
      && Live(d'.table, readAt) == Live(d.table, readAt)
  {
    var e := Evict(d, evictAt);
    EvictIsExact(d, evictAt);
    TakeIsExact(e, key, readAt);
    LiveLater(d.table, evictAt, readAt);
  }

  /** A write phase touches its own key only; when it refuses, the store is full. */
  lemma WritePhaseIsExact(d: Dict, key: string, result: Option<Record>, maxEntries: nat, ttl: real, now: real)
    requires d.WellFormed() && d.Sorted() && d.ExpiresBy(now + ttl) && |d.order| <= maxEntries
    ensures
      var w := WritePhase(d, key, result, maxEntries, ttl, now);
      && (w.None? <==> result.Some? && key !in d.table && |d.order| == maxEntries)
      && (w.Some? ==>
            && w.value.WellFormed() && w.value.Sorted() && w.value.ExpiresBy(now + ttl)
            && |w.value.order| <= maxEntries
            && w.value.table - {key} == d.table - {key}
            && (result.None? ==> key !in w.value.table)
            && (result.Some? ==> key in w.value.table && w.value.table[key] == Stored(now + ttl, result.value)))
  {
    RemoveKeepsValid(d, key);
    if result.Some? {
      PutKeepsValid(d, key, Stored(now + ttl, result.value));
    }
  }

  /** The store object. */
  class InMemoryRestorationStore {
    const ttl: real
    const maxEntries: nat
    var order: seq<string>
    var table: map<string, Stored>

    function Model(): Dict
      reads this
    {
      Dict(order, table)
    }

    /** Holds between calls, `clock` being any reading not after the next one. */
    ghost predicate Valid(clock: real)
      reads this
    {
      && Model().WellFormed() && Model().Sorted()
      && Model().ExpiresBy(clock + ttl)
      && |order| <= maxEntries
    }

    constructor (ttl: real, maxEntries: nat)
      ensures this.ttl == ttl && this.maxEntries == maxEntries
      ensures Model() == Empty
      ensures forall clock :: Valid(clock)
    {
      this.ttl := ttl;
      this.maxEntries := maxEntries;
      order := [];
      table := map[];
    }

    method EvictExpired(now: real)
      requires Model().WellFormed()
      modifies this`order, this`table
      ensures Model() == Evict(old(Model()), now)
      ensures old(Model().Sorted()) ==> Model().Sorted() && table == Live(old(table), now)
    {
      while order != []
        invariant Model().WellFormed()
        invariant Evict(Model(), now) == Evict(old(Model()), now)
        decreases |order|
      {
        var first := order[0];
        assert first in table;
        if now < table[first].expiresAt {
          break;
        }
        table := table - {first};
        order := order[1..];
      }
      ghost var d := old(Model());
      if d.Sorted() {
        EvictIsExact(d, now);
      }
    }

    method Get(key: string, now: real) returns (state: Option<Record>)
      requires Valid(now)
      modifies this`order, this`table
      ensures Valid(now)
      ensures (Model(), state) == Take(old(Model()), key, now)
      ensures state == LiveRecord(old(table), key, now)
      ensures Live(table, now) == Live(old(table), now)
    {
      TakeIsExact(Model(), key, now);
      state := None;
      if key in table {
        if now < table[key].expiresAt {
          state := Some(table[key].record);
        } else {
          order := Without(order, key);
          table := table - {key};
        }
      }
    }

    /** A direct write, outside the lifecycle. */
    method Save(key: string, state: Record, evictAt: real, now: real) returns (ok: bool)
      requires Valid(evictAt) && evictAt <= now
      modifies this`order, this`table
      ensures Valid(now)
      ensures ok <==> key in Live(old(table), evictAt) || |Live(old(table), evictAt)| < maxEntries
      ensures table == if ok then Live(old(table), evictAt)[key := Stored(now + ttl, state)]
                       else Live(old(table), evictAt)
    {
      EvictExpired(evictAt);
      SizeOfTable(Model());
      if key !in table && |order| >= maxEntries {
        return false;
      }
      PutKeepsValid(Model(), key, Stored(now + ttl, state));
      order := Without(order, key) + [key];
      table := table[key := Stored(now + ttl, state)];
      ok := true;
    }

    method Delete(key: string, ghost clock: real)
      requires Valid(clock)
      modifies this`order, this`table
      ensures Valid(clock)
      ensures table == old(table) - {key}
    {
      RemoveKeepsValid(Model(), key);
      order := Without(order, key);
      table := table - {key};
    }

    /** The first locked section of `transition`. */
    method TransitionRead(key: string, evictAt: real, readAt: real) returns (current: Option<Record>)
      requires Valid(evictAt) && evictAt <= readAt
      modifies this`order, this`table
      ensures Valid(readAt)
      ensures (Model(), current) == ReadPhase(old(Model()), key, evictAt, readAt)
      ensures current == LiveRecord(old(table), key, readAt)
      ensures Live(table, readAt) == Live(old(table), readAt)
    {
      ghost var before := Model();
      EvictExpired(evictAt);
      current := None;
      if key in table {
        if readAt < table[key].expiresAt {
          current := Some(table[key].record);
        } else {
          order := Without(order, key);
          table := table - {key};
        }
      }
      assert (Model(), current) == ReadPhase(before, key, evictAt, readAt);
      ReadPhaseIsExact(before, key, evictAt, readAt);
    }

    /** The second locked section of `transition`. */
    method TransitionWrite(key: string, newState: Option<Record>, now: real) returns (reply: CallbackResult)
      requires Valid(now)
      modifies this`order, this`table
      ensures Valid(now)
      ensures var w := WritePhase(old(Model()), key, newState, maxEntries, ttl, now);
              if w.Some? then reply == Return(newState) && Model() == w.value
              else reply == Raise(Overloaded) && Model() == old(Model())
      ensures reply.Raise? <==> newState.Some? && key !in old(table) && |old(table)| == maxEntries
      ensures table == if reply.Raise? then old(table)
                       else AfterWrite(old(table), key, newState, now + ttl)
    {
      WritePhaseIsExact(Model(), key, newState, maxEntries, ttl, now);
      SizeOfTable(Model());
      if newState.None? {
        order := Without(order, key);
        table := table - {key};
        return Return(None);
      }
      if key !in table && |order| >= maxEntries {
        return Raise(Overloaded);
      }
      order := Without(order, key) + [key];
      table := table[key := Stored(now + ttl, newState.value)];
      reply := Return(newState);
    }

    /** The whole of `transition`, undisturbed: it applies `fn` to the live record and
        stores what `fn` returns, or raises and changes no live record. */
    method Transition(key: string, fn: Option<Record> -> CallbackResult, evictAt: real, readAt: real, writeAt: real)
      returns (reply: CallbackResult)
      requires Valid(evictAt) && evictAt <= readAt <= writeAt
      modifies this`order, this`table
      ensures Valid(writeAt)
      ensures Transitioned(old(table), table, key, fn, reply, readAt, writeAt)
    {
      var current := TransitionRead(key, evictAt, readAt);
      ghost var seen := table;
      reply := fn(current);
      if reply.Return? {
        reply := TransitionWrite(key, reply.state, writeAt);
      }
      WriteAfterRead(old(table), seen, table, key, fn(current), reply, readAt, writeAt);
    }

    ghost predicate Transitioned(before: map<string, Stored>, after: map<string, Stored>, key: string,
                                 fn: Option<Record> -> CallbackResult, reply: CallbackResult,
                                 readAt: real, writeAt: real)
    {
      ResultWritten(before, after, key, fn(LiveRecord(before, key, readAt)), reply, writeAt)
    }

    ghost predicate ResultWritten(before: map<string, Stored>, after: map<string, Stored>, key: string,
                                  result: CallbackResult, reply: CallbackResult, writeAt: real)
    {
      && (reply == result || (result.Return? && reply == Raise(Overloaded) && key !in after && |after| == maxEntries))
      && (reply.Raise? ==> Live(after, writeAt) == Live(before, writeAt))
      && Live(after - {key}, writeAt) == Live(before - {key}, writeAt)
      && (reply.Return? ==> if reply.state.None? then key !in after
                            else key in after && after[key] == Stored(writeAt + ttl, reply.state.value))
    }

    /** A read phase that loses nothing live, then the write phase or nothing. */
    lemma WriteAfterRead(before: map<string, Stored>, seen: map<string, Stored>, after: map<string, Stored>,
                         key: string, result: CallbackResult, reply: CallbackResult, readAt: real, writeAt: real)
      requires Live(before, readAt) == Live(seen, readAt) && readAt <= writeAt
      requires reply.Raise? ==> after == seen
      requires reply.Return? ==> after == AfterWrite(seen, key, reply.state, writeAt + ttl)
      requires reply == result || (result.Return? && reply == Raise(Overloaded) && key !in after
               && |after| == maxEntries)
      ensures ResultWritten(before, after, key, result, reply, writeAt)
    {
      LiveElsewhere(before, seen, key, readAt, writeAt);
      if reply.Return? {
        WriteElsewhere(seen, key, reply.state, writeAt + ttl);
      }
    }
  }

  /** Two tables with the same live items have the same live items under other keys, also later. */
  lemma LiveElsewhere(t0: map<string, Stored>, t1: map<string, Stored>, key: string, now: real, later: real)
    requires Live(t0, now) == Live(t1, now) && now <= later
    ensures Live(t0 - {key}, later) == Live(t1 - {key}, later)
    ensures Live(t0, later) == Live(t1, later)
  {
    LiveLater(t0, now, later);
    LiveLater(t1, now, later);
    assert Live(t0 - {key}, later) == Live(t0, later) - {key};
    assert Live(t1 - {key}, later) == Live(t1, later) - {key};
  }

  lemma {:induction false} SizeOfTable(d: Dict)
    requires d.WellFormed()
    ensures |d.order| == |d.table|
    decreases |d.order|
  {
    if d.order == [] {
      assert d.table == map[];
    } else {
      var first := d.order[0];
      var rest := Dict(d.order[1..], d.table - {first});
      TailIsValid(d);
      SizeOfTable(rest);
      assert rest.table.Keys == d.table.Keys - {first};
    }
  }
}
