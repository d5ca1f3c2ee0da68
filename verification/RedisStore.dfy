/** The Redis store as its own process sees it: `transition` is a loop of optimistic
    attempts, and other clients and key expiry change the server at any point of it. */
module RedisStore {
  import opened Domain
  import opened Representation
  import opened RedisProtocol

  type Db = map<string, Stored>

  /** What somebody else does to the server: write, delete or let expire one key. */
  datatype Change = Change(touch: Touch, item: Option<Stored>)

  /** What others do around one attempt, between the commands of this process; `now` is
      the server's time at its EXEC. */
  datatype Interference = Interference(beforeWatch: seq<Change>, beforeGet: seq<Change>, beforeExec: seq<Change>,
    now: real)

  function Update(db: Db, key: string, item: Option<Stored>): Db {
    match item
    case None => db - {key}
    case Some(s) => db[key := s]
  }

  function Changed(db: Db, changes: seq<Change>): Db {
    if changes == [] then db
    else
      var last := changes[|changes| - 1];
      Update(Changed(db, changes[..|changes| - 1]), last.touch.key, last.item)
  }

  function TouchesOf(changes: seq<Change>): (r: seq<Touch>)
    ensures |r| == |changes|
  {
    seq(|changes|, i requires 0 <= i < |changes| => changes[i].touch)
  }

  function AsStored(state: Option<Record>, expiresAt: real): Option<Stored> {
    match state
    case None => None
    case Some(r) => Some(Stored(expiresAt, r))
  }

  /** What a transition leaves on the server and tells its caller, from attempt `i` on. */
  function Attempts(db: Db, key: string, fn: (nat, Option<Record>) -> CallbackResult, others: nat -> Interference,
                    ttl: real, i: nat): (Db, CallbackResult)
    requires i <= MAX_CAS_RETRIES
    decreases MAX_CAS_RETRIES - i
  {
    if i == MAX_CAS_RETRIES then (db, Raise(Overloaded))
    else
      var w := others(i);
      var seen := Changed(Changed(db, w.beforeWatch), w.beforeGet);
      match fn(i, ValueIn(seen, key))
      case Raise(error) => (seen, Raise(error))
      case Return(state) =>
        var db' := Changed(seen, w.beforeExec);
        if Touched(TouchesOf(w.beforeGet + w.beforeExec), key, 0) then
          Attempts(db', key, fn, others, ttl, i + 1)
        else
          (Update(db', key, AsStored(state, w.now + ttl)), Return(state))
  }

  class RedisRestorationStore {
    const ttl: real
    const writer: nat
    var db: Db
    var touches: seq<Touch>

    constructor (ttl: real, writer: nat)
      ensures this.ttl == ttl && this.writer == writer && db == map[] && touches == []
    {
      this.ttl := ttl;
      this.writer := writer;
      db := map[];
      touches := [];
    }

    /** Others at work. */
    method Interfere(changes: seq<Change>)
      modifies this`db, this`touches
      ensures db == Changed(old(db), changes)
      ensures touches == old(touches) + TouchesOf(changes)
    {
      for i := 0 to |changes|
        invariant db == Changed(old(db), changes[..i])
        invariant touches == old(touches) + TouchesOf(changes[..i])
      {
        assert changes[..i + 1][..i] == changes[..i];
        db := Update(db, changes[i].touch.key, changes[i].item);
        touches := touches + [changes[i].touch];
      }
      assert changes[..|changes|] == changes;
    }

    method Get(key: string) returns (found: Option<Record>)
      ensures found == ValueIn(db, key)
    {
      found := if key in db then Some(db[key].record) else None;
    }

    method Save(key: string, state: Record, now: real)
      modifies this`db, this`touches
      ensures db == old(db)[key := Stored(now + ttl, state)]
      ensures touches == old(touches) + [Written(writer, key)]
    {
      db := db[key := Stored(now + ttl, state)];
      touches := touches + [Written(writer, key)];
    }

    method Delete(key: string)
      modifies this`db, this`touches
      ensures db == old(db) - {key}
      ensures touches == old(touches) + [Written(writer, key)]
    {
      db := db - {key};
      touches := touches + [Written(writer, key)];
    }

    method Transition(key: string, fn: (nat, Option<Record>) -> CallbackResult, others: nat -> Interference)
      returns (result: CallbackResult)
      modifies this`db, this`touches
      ensures (db, result) == Attempts(old(db), key, fn, others, ttl, 0)
    {
      for attempt := 0 to MAX_CAS_RETRIES
        invariant Attempts(db, key, fn, others, ttl, attempt) == Attempts(old(db), key, fn, others, ttl, 0)
      {
        var w := others(attempt);
        Interfere(w.beforeWatch);
        var watched := |touches|;
        Interfere(w.beforeGet);
        var current := Get(key);
        result := fn(attempt, current);
        if result.Raise? {
          return;
        }
        Interfere(w.beforeExec);
        TouchedSince(touches[..watched], w.beforeGet, w.beforeExec, key);
        assert touches == touches[..watched] + TouchesOf(w.beforeGet) + TouchesOf(w.beforeExec);
        if !Touched(touches, key, watched) {
          match result.state {
            case None => Delete(key);
            case Some(state) => Save(key, state, w.now);
          }
          return;
        }
      }
      result := Raise(Overloaded);
    }
  }

  /** The watch sees exactly what others did after it. */
  lemma TouchedSince(earlier: seq<Touch>, a: seq<Change>, b: seq<Change>, key: string)
    ensures Touched(earlier + TouchesOf(a) + TouchesOf(b), key, |earlier|) <==> Touched(TouchesOf(a + b), key, 0)
  {
    var all, since := earlier + TouchesOf(a) + TouchesOf(b), TouchesOf(a + b);
    assert forall i :: 0 <= i < |since| ==> all[|earlier| + i] == since[i];
    if Touched(all, key, |earlier|) {
      var i :| |earlier| <= i < |all| && all[i].key == key;
      assert since[i - |earlier|].key == key;
    }
    if Touched(since, key, 0) {
      var i :| 0 <= i < |since| && since[i].key == key;
      assert all[|earlier| + i].key == key;
    }
  }

  // ----- what the loop amounts to

  /** Everything others do during attempts `i` to `n - 1`. */
  function During(others: nat -> Interference, i: nat, n: nat): seq<Change>
    requires i <= n
  {
    if i == n then []
    else During(others, i, n - 1) + others(n - 1).beforeWatch + others(n - 1).beforeGet + others(n - 1).beforeExec
  }

  lemma {:induction false} ChangedConcat(db: Db, a: seq<Change>, b: seq<Change>)
    ensures Changed(db, a + b) == Changed(Changed(db, a), b)
  {
    if b == [] {
      assert a + b == a;
    } else {
      ChangedConcat(db, a, b[..|b| - 1]);
      assert (a + b)[..|a + b| - 1] == a + b[..|b| - 1];
    }
  }

  lemma {:induction false} UntouchedStays(db: Db, changes: seq<Change>, key: string)
    requires !Touched(TouchesOf(changes), key, 0)
    ensures ValueIn(Changed(db, changes), key) == ValueIn(db, key)
  {
    if changes != [] {
      var front := changes[..|changes| - 1];
      assert TouchesOf(changes)[|front|] == changes[|front|].touch;
      assert forall i :: 0 <= i < |front| ==> TouchesOf(front)[i] == TouchesOf(changes)[i];
      UntouchedStays(db, front, key);
    }
  }

  ghost predicate WatchBroken(others: nat -> Interference, key: string, k: nat) {
    Touched(TouchesOf(others(k).beforeGet + others(k).beforeExec), key, 0)
  }

  /** The server just before the n-th attempt executes, if this process wrote nothing. */
  function AtExec(db: Db, others: nat -> Interference, i: nat, n: nat): Db
    requires i <= n
  {
    var w := others(n);
    Changed(Changed(Changed(Changed(db, During(others, i, n)), w.beforeWatch), w.beforeGet), w.beforeExec)
  }

  lemma AtExecIsDuring(db: Db, others: nat -> Interference, i: nat, n: nat)
    requires i <= n
    ensures AtExec(db, others, i, n) == Changed(db, During(others, i, n + 1))
  {
    var w := others(n);
    var before := During(others, i, n);
    ChangedConcat(db, before, w.beforeWatch);
    ChangedConcat(db, before + w.beforeWatch, w.beforeGet);
    ChangedConcat(db, before + w.beforeWatch + w.beforeGet, w.beforeExec);
  }

  /** Attempt `m` is the first undisturbed one and writes. */
  ghost predicate WritesAt(db: Db, key: string, fn: (nat, Option<Record>) -> CallbackResult,
                           others: nat -> Interference, ttl: real, m: nat, db': Db, result: CallbackResult)
  {
    var present := AtExec(db, others, 0, m);
    && (forall k :: 0 <= k < m ==> WatchBroken(others, key, k)) && !WatchBroken(others, key, m)
    && result.Return? && result == fn(m, ValueIn(present, key))
    && db' == Update(present, key, AsStored(result.state, others(m).now + ttl))
  }

  /** The callback raises in attempt `m`, on what it was given, and nothing is written. */
  ghost predicate RaisesAt(db: Db, key: string, fn: (nat, Option<Record>) -> CallbackResult,
                           others: nat -> Interference, m: nat, db': Db, result: CallbackResult)
  {
    var w := others(m);
    && (forall k :: 0 <= k < m ==> WatchBroken(others, key, k))
    && db' == Changed(Changed(Changed(db, During(others, 0, m)), w.beforeWatch), w.beforeGet)
    && result.Raise? && result == fn(m, ValueIn(db', key))
  }

  lemma QuietExec(seen: Db, w: Interference, key: string)
    requires !Touched(TouchesOf(w.beforeGet + w.beforeExec), key, 0)
    ensures ValueIn(Changed(seen, w.beforeExec), key) == ValueIn(seen, key)
  {
    var all := w.beforeGet + w.beforeExec;
    assert forall i :: 0 <= i < |w.beforeExec| ==> TouchesOf(all)[|w.beforeGet| + i] == TouchesOf(w.beforeExec)[i];
    UntouchedStays(seen, w.beforeExec, key);
  }

  ghost predicate WroteOnce(db: Db, key: string, fn: (nat, Option<Record>) -> CallbackResult,
                            others: nat -> Interference, ttl: real, db': Db, result: CallbackResult)
  {
    exists m :: 0 <= m < MAX_CAS_RETRIES && WritesAt(db, key, fn, others, ttl, m, db', result)
  }

  ghost predicate RaisedOnce(db: Db, key: string, fn: (nat, Option<Record>) -> CallbackResult,
                             others: nat -> Interference, db': Db, result: CallbackResult)
  {
    exists m :: 0 <= m < MAX_CAS_RETRIES && RaisesAt(db, key, fn, others, m, db', result)
  }

  ghost predicate GaveUp(db: Db, key: string, others: nat -> Interference, db': Db, result: CallbackResult) {
    && result == Raise(Overloaded) && db' == Changed(db, During(others, 0, MAX_CAS_RETRIES))
    && forall k :: 0 <= k < MAX_CAS_RETRIES ==> WatchBroken(others, key, k)
  }

  /** The atomic contract, from attempt `n` on, after `n` disturbed ones. */
  lemma {:induction false} AttemptsAreAtomic(db: Db, key: string, fn: (nat, Option<Record>) -> CallbackResult,
                                             others: nat -> Interference, ttl: real, n: nat)
    requires n <= MAX_CAS_RETRIES
    requires forall k :: 0 <= k < n ==> WatchBroken(others, key, k)
    ensures
      var (db', result) := Attempts(Changed(db, During(others, 0, n)), key, fn, others, ttl, n);
      WroteOnce(db, key, fn, others, ttl, db', result) || RaisedOnce(db, key, fn, others, db', result)
      || GaveUp(db, key, others, db', result)
    decreases MAX_CAS_RETRIES - n
  {
    if n < MAX_CAS_RETRIES {
      var w, now := others(n), Changed(db, During(others, 0, n));
      var seen := Changed(Changed(now, w.beforeWatch), w.beforeGet);
      var (db', result) := Attempts(now, key, fn, others, ttl, n);
      AtExecIsDuring(db, others, 0, n);
      if fn(n, ValueIn(seen, key)).Raise? {
        assert RaisesAt(db, key, fn, others, n, db', result);
      } else if WatchBroken(others, key, n) {
        AttemptsAreAtomic(db, key, fn, others, ttl, n + 1);
      } else {
        QuietExec(seen, w, key);
        assert WritesAt(db, key, fn, others, ttl, n, db', result);
      }
    }
  }

  /** The atomic contract, whatever the others do: either one attempt, the first whose
      key nobody disturbed, applies the callback to what the server holds at the instant
      of the write, and nothing of what others did is lost; or an attempt raises and
      nothing is written; or all five attempts were disturbed and nothing is written. */
  lemma TransitionIsAtomic(db: Db, key: string, fn: (nat, Option<Record>) -> CallbackResult,
                           others: nat -> Interference, ttl: real)
    ensures
      var (db', result) := Attempts(db, key, fn, others, ttl, 0);
      WroteOnce(db, key, fn, others, ttl, db', result) || RaisedOnce(db, key, fn, others, db', result)
      || GaveUp(db, key, others, db', result)
  {
    AttemptsAreAtomic(db, key, fn, others, ttl, 0);
  }
}
