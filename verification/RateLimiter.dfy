/** The sliding-window rate limiter. */
module RateLimiter {

  /** One call of `allow`: its key, the clock reading it made, and its answer. */
  datatype Attempt = Attempt(key: string, time: real, allowed: bool)

  /** How many calls for `key` were allowed after the given time. */
  function AllowedAfter(history: seq<Attempt>, key: string, after: real): nat {
    if history == [] then 0
    else
      var last := history[|history| - 1];
      AllowedAfter(history[..|history| - 1], key, after)
      + if last.key == key && last.allowed && last.time > after then 1 else 0
  }

  /** The times of the calls for `key` allowed after the given time, in order. */
  function TimesAfter(history: seq<Attempt>, key: string, after: real): (r: seq<real>)
    ensures |r| == AllowedAfter(history, key, after)
    ensures forall i :: 0 <= i < |r| ==> r[i] > after
  {
    if history == [] then []
    else
      var last := history[|history| - 1];
      TimesAfter(history[..|history| - 1], key, after)
      + if last.key == key && last.allowed && last.time > after then [last.time] else []
  }

  ghost predicate NotBefore(history: seq<Attempt>, now: real) {
    history != [] ==> history[|history| - 1].time <= now
  }

  predicate Permitted(history: seq<Attempt>, attempt: Attempt, maxRequests: int, window: real) {
    AllowedAfter(history, attempt.key, attempt.time - window) < maxRequests
  }

  /** The calls were serialised in clock order, and each was allowed exactly when fewer
      than `maxRequests` calls for its key had been allowed within the window before it. */
  ghost predicate Faithful(history: seq<Attempt>, maxRequests: int, window: real) {
    history == [] ||
    (var front, last := history[..|history| - 1], history[|history| - 1];
     && Faithful(front, maxRequests, window)
     && NotBefore(front, last.time)
     && last.allowed == Permitted(front, last, maxRequests, window))
  }

  /** The deque after popping what has left the window at `now`. */
  function Expire(deque: seq<real>, now: real, window: real): seq<real> {
    if deque != [] && now - deque[0] >= window then Expire(deque[1..], now, window) else deque
  }

  /** From now on the deque, once expired, holds the allowed times still in the window. */
  ghost predicate Tracks(history: seq<Attempt>, key: string, deque: seq<real>, window: real) {
    forall now :: NotBefore(history, now) ==> Expire(deque, now, window) == TimesAfter(history, key, now - window)
  }

  class SlidingWindowRateLimiter {
    const maxRequests: int
    const window: real
    var hits: map<string, seq<real>>
    ghost var history: seq<Attempt>

    ghost predicate Valid()
      reads this
    {
      Counting(history, hits, maxRequests, window)
    }

    /** The deques are what the calls so far, in whatever order of readings, have left. */
    ghost predicate Consistent()
      reads this
    {
      LeftBy(history, hits, maxRequests, window)
    }

    constructor (maxRequests: int, window: real)
      ensures Valid() && Consistent() && history == [] && this.maxRequests == maxRequests && this.window == window
    {
      this.maxRequests := maxRequests;
      this.window := window;
      hits := map[];
      history := [];
    }

    /** A call at clock reading `now`.  Readings in order keep the counting rule; one from
        before the previous call's, which another thread may hold when it gets the lock,
        is answered from the deque as it is. */
    method Allow(key: string, now: real) returns (ok: bool)
      modifies this`hits, this`history
      ensures history == old(history) + [Attempt(key, now, ok)]
      ensures ok <==> |Expire(DequeOf(old(hits), key), now, window)| < maxRequests
      ensures hits == old(hits)[key := DequeAfter(DequeOf(old(hits), key), Attempt(key, now, ok), window)]
      ensures old(Valid()) && NotBefore(old(history), now) ==>
                Valid() && (ok <==> AllowedAfter(old(history), key, now - window) < maxRequests)
      ensures old(Consistent()) ==> Consistent()
    {
      var deque := DequeOf(hits, key);
      ghost var was := deque;
      while deque != [] && now - deque[0] >= window
        invariant Expire(deque, now, window) == Expire(was, now, window)
      {
        deque := deque[1..];
      }
      ok := |deque| < maxRequests;
      if ok {
        deque := deque + [now];
      }
      ghost var attempt := Attempt(key, now, ok);
      CountingNext(history, hits, attempt, maxRequests, window);
      LeftByNext(history, hits, attempt, maxRequests, window);
      assert deque == DequeAfter(was, attempt, window);
      hits := hits[key := deque];
      history := history + [attempt];
    }
  }

  /** The calls were in order, each answered by the counting rule, which the deques keep. */
  ghost predicate Counting(history: seq<Attempt>, hits: map<string, seq<real>>, maxRequests: int, window: real) {
    Faithful(history, maxRequests, window) && AllTrack(history, hits, window)
  }

  /** The deques after a call. */
  function HitsAfter(hits: map<string, seq<real>>, attempt: Attempt, window: real): map<string, seq<real>> {
    hits[attempt.key := DequeAfter(DequeOf(hits, attempt.key), attempt, window)]
  }

  /** The call is answered from the deque of its key. */
  predicate AnsweredFrom(hits: map<string, seq<real>>, attempt: Attempt, maxRequests: int, window: real) {
    attempt.allowed <==> |Expire(DequeOf(hits, attempt.key), attempt.time, window)| < maxRequests
  }

  /** A call with a reading in order keeps the counting rule. */
  lemma CountingNext(history: seq<Attempt>, hits: map<string, seq<real>>, attempt: Attempt, maxRequests: int,
                     window: real)
    requires AnsweredFrom(hits, attempt, maxRequests, window)
    ensures Counting(history, hits, maxRequests, window) && NotBefore(history, attempt.time) ==>
              && Counting(history + [attempt], HitsAfter(hits, attempt, window), maxRequests, window)
              && (attempt.allowed <==> AllowedAfter(history, attempt.key, attempt.time - window) < maxRequests)
  {
    if Counting(history, hits, maxRequests, window) && NotBefore(history, attempt.time) {
      CountAgrees(history, hits, attempt.key, attempt.time, window);
      FaithfulNext(history, attempt, maxRequests, window);
      AllTrackNext(history, hits, attempt, maxRequests, window);
    }
  }

  /** In order, the deque once expired counts the allowed calls in the window. */
  lemma CountAgrees(history: seq<Attempt>, hits: map<string, seq<real>>, key: string, now: real, window: real)
    requires AllTrack(history, hits, window) && NotBefore(history, now)
    ensures |Expire(DequeOf(hits, key), now, window)| == AllowedAfter(history, key, now - window)
  {
    assert Tracks(history, key, DequeOf(hits, key), window);
  }

  ghost predicate AllTrack(history: seq<Attempt>, hits: map<string, seq<real>>, window: real) {
    forall key :: Tracks(history, key, DequeOf(hits, key), window)
  }

  /** What a call leaves in its key's deque. */
  function DequeAfter(deque: seq<real>, attempt: Attempt, window: real): seq<real> {
    Expire(deque, attempt.time, window) + if attempt.allowed then [attempt.time] else []
  }

  lemma DequeOfNext(hits: map<string, seq<real>>, attempt: Attempt, window: real, key: string)
    ensures DequeOf(HitsAfter(hits, attempt, window), key)
            == if key == attempt.key then DequeAfter(DequeOf(hits, key), attempt, window) else DequeOf(hits, key)
  {
  }

  lemma AllTrackNext(history: seq<Attempt>, hits: map<string, seq<real>>, attempt: Attempt, maxRequests: int,
                     window: real)
    requires Faithful(history, maxRequests, window) && NotBefore(history, attempt.time)
    requires AllTrack(history, hits, window)
    ensures AllTrack(history + [attempt], HitsAfter(hits, attempt, window), window)
  {
    var next := HitsAfter(hits, attempt, window);
    forall key
      ensures Tracks(history + [attempt], key, DequeOf(next, key), window)
    {
      DequeOfNext(hits, attempt, window, key);
      assert Tracks(history, key, DequeOf(hits, key), window);
      TracksNext(history, key, DequeOf(hits, key), attempt, maxRequests, window);
    }
  }

  function DequeOf(hits: map<string, seq<real>>, key: string): seq<real> {
    if key in hits then hits[key] else []
  }

  lemma FaithfulNext(history: seq<Attempt>, attempt: Attempt, maxRequests: int, window: real)
    requires Faithful(history, maxRequests, window) && NotBefore(history, attempt.time)
    requires attempt.allowed == Permitted(history, attempt, maxRequests, window)
    ensures Faithful(history + [attempt], maxRequests, window)
  {
    assert (history + [attempt])[..|history|] == history;
  }

  /** The rule holds of every single call of the history. */
  lemma {:induction false} EveryAnswerIsRight(history: seq<Attempt>, maxRequests: int, window: real, i: nat)
    requires Faithful(history, maxRequests, window) && i < |history|
    ensures history[i].allowed <==> AllowedAfter(history[..i], history[i].key, history[i].time - window) < maxRequests
  {
    if i < |history| - 1 {
      EveryAnswerIsRight(history[..|history| - 1], maxRequests, window, i);
      assert history[..|history| - 1][..i] == history[..i];
    }
  }

  lemma {:induction false} ExpireLater(deque: seq<real>, now: real, later: real, window: real)
    requires now <= later
    ensures Expire(Expire(deque, now, window), later, window) == Expire(deque, later, window)
  {
    if deque != [] && now - deque[0] >= window {
      ExpireLater(deque[1..], now, later, window);
    }
  }

  lemma {:induction false} ExpireAppend(deque: seq<real>, x: real, now: real, window: real)
    requires forall i :: 0 <= i < |deque| ==> deque[i] <= x
    ensures Expire(deque + [x], now, window) == Expire(deque, now, window) + if now - x >= window then [] else [x]
  {
    if deque == [] {
      assert [] + [x] == [x] && [x][1..] == [];
    } else if now - deque[0] >= window {
      assert (deque + [x])[1..] == deque[1..] + [x];
      ExpireAppend(deque[1..], x, now, window);
    }
  }

  lemma {:induction false} TimesAreOld(history: seq<Attempt>, key: string, maxRequests: int, window: real,
                                       after: real, now: real)
    requires Faithful(history, maxRequests, window) && NotBefore(history, now)
    ensures forall i :: 0 <= i < |TimesAfter(history, key, after)| ==> TimesAfter(history, key, after)[i] <= now
  {
    if history != [] {
      TimesAreOld(history[..|history| - 1], key, maxRequests, window, after, now);
    }
  }

  /** One call keeps the deque of key `k` right, whether or not the call was for `k`. */
  lemma TracksNext(history: seq<Attempt>, k: string, deque: seq<real>, attempt: Attempt, maxRequests: int,
                   window: real)
    requires Faithful(history, maxRequests, window) && NotBefore(history, attempt.time)
    requires Tracks(history, k, deque, window)
    ensures
      Tracks(history + [attempt], k, if k == attempt.key then DequeAfter(deque, attempt, window) else deque, window)
  {
    var longer := history + [attempt];
    var expired := Expire(deque, attempt.time, window);
    var next := if k == attempt.key then DequeAfter(deque, attempt, window) else deque;
    assert expired == TimesAfter(history, k, attempt.time - window);
    TimesAreOld(history, k, maxRequests, window, attempt.time - window, attempt.time);
    assert longer[..|history|] == history && longer[|history|] == attempt;
    forall now | NotBefore(longer, now)
      ensures Expire(next, now, window) == TimesAfter(longer, k, now - window)
    {
      assert NotBefore(history, now) && attempt.time <= now;
      assert Expire(deque, now, window) == TimesAfter(history, k, now - window);
      if k == attempt.key {
        ExpireAfterCall(deque, attempt, now, window);
      }
      TimesAfterNext(history, attempt, k, now - window);
    }
  }

  lemma TimesAfterNext(history: seq<Attempt>, attempt: Attempt, key: string, after: real)
    ensures TimesAfter(history + [attempt], key, after)
            == TimesAfter(history, key, after)
               + if attempt.key == key && attempt.allowed && attempt.time > after then [attempt.time] else []
  {
    assert (history + [attempt])[..|history|] == history;
  }

  /** What a later call will still see of the deque left by this one. */
  lemma ExpireAfterCall(deque: seq<real>, attempt: Attempt, now: real, window: real)
    requires attempt.time <= now
    requires var e := Expire(deque, attempt.time, window); forall i :: 0 <= i < |e| ==> e[i] <= attempt.time
    ensures Expire(DequeAfter(deque, attempt, window), now, window)
            == Expire(deque, now, window)
               + if attempt.allowed && now - attempt.time < window then [attempt.time] else []
  {
    var expired := Expire(deque, attempt.time, window);
    ExpireLater(deque, attempt.time, now, window);
    if attempt.allowed {
      ExpireAppend(expired, attempt.time, now, window);
    } else {
      assert DequeAfter(deque, attempt, window) == expired;
    }
  }

  // ----- what the limiter guarantees over whole histories

  /** Allowed calls for `key` at times in (after, upTo]. */
  function AllowedWithin(history: seq<Attempt>, key: string, after: real, upTo: real): nat {
    if history == [] then 0
    else
      var last := history[|history| - 1];
      AllowedWithin(history[..|history| - 1], key, after, upTo)
      + if last.key == key && last.allowed && after < last.time <= upTo then 1 else 0
  }

  lemma {:induction false} WithinIsAfter(history: seq<Attempt>, key: string, after: real, upTo: real, lower: real)
    requires lower <= after
    ensures AllowedWithin(history, key, after, upTo) <= AllowedAfter(history, key, lower)
  {
    if history != [] {
      WithinIsAfter(history[..|history| - 1], key, after, upTo, lower);
    }
  }

  /** No window of the configured length, wherever it lies, holds more than the maximum
      number of allowed calls for one key. */
  lemma {:induction false} WindowIsLimited(history: seq<Attempt>, key: string, maxRequests: nat, window: real,
                                           after: real)
    requires Faithful(history, maxRequests, window)
    ensures AllowedWithin(history, key, after, after + window) <= maxRequests
  {
    if history != [] {
      var front, last := history[..|history| - 1], history[|history| - 1];
      WindowIsLimited(front, key, maxRequests, window, after);
      if last.key == key && last.allowed && after < last.time <= after + window {
        WithinIsAfter(front, key, after, after + window, last.time - window);
      }
    }
  }

  lemma {:induction false} WithinSplits(history: seq<Attempt>, key: string, a: real, b: real, c: real)
    requires a <= b <= c
    ensures AllowedWithin(history, key, a, c) == AllowedWithin(history, key, a, b) + AllowedWithin(history, key, b, c)
  {
    if history != [] {
      WithinSplits(history[..|history| - 1], key, a, b, c);
    }
  }

  /** `window` times `m`. */
  function Times(window: real, m: nat): real {
    if m == 0 then 0.0 else Times(window, m - 1) + window
  }

  /** Over m windows' length at most m times the maximum is allowed. */
  lemma {:induction false} LongRunRate(history: seq<Attempt>, key: string, maxRequests: nat, window: real,
                                       after: real, m: nat)
    requires Faithful(history, maxRequests, window) && window >= 0.0
    ensures Times(window, m) >= 0.0
    ensures AllowedWithin(history, key, after, after + Times(window, m)) <= m * maxRequests
  {
    if m == 0 {
      WithinEmpty(history, key, after);
    } else {
      LongRunRate(history, key, maxRequests, window, after, m - 1);
      var b := after + Times(window, m - 1);
      WindowIsLimited(history, key, maxRequests, window, b);
      WithinSplits(history, key, after, b, b + window);
      assert m * maxRequests == (m - 1) * maxRequests + maxRequests;
    }
  }

  lemma {:induction false} WithinEmpty(history: seq<Attempt>, key: string, after: real)
    ensures AllowedWithin(history, key, after, after) == 0
  {
    if history != [] {
      WithinEmpty(history[..|history| - 1], key, after);
    }
  }

  /** The calls made for one key. */
  function CallsFor(history: seq<Attempt>, key: string): seq<Attempt> {
    if history == [] then []
    else
      var last := history[|history| - 1];
      CallsFor(history[..|history| - 1], key) + if last.key == key then [last] else []
  }

  lemma {:induction false} CallsForAreOwn(history: seq<Attempt>, key: string)
    ensures forall a :: a in CallsFor(history, key) <==> a in history && a.key == key
  {
    if history != [] {
      var front, last := history[..|history| - 1], history[|history| - 1];
      CallsForAreOwn(front, key);
      assert history == front + [last];
    }
  }

  lemma {:induction false} CountsAreOwn(history: seq<Attempt>, key: string, after: real)
    ensures AllowedAfter(history, key, after) == AllowedAfter(CallsFor(history, key), key, after)
  {
    if history != [] {
      var front, last := history[..|history| - 1], history[|history| - 1];
      CountsAreOwn(front, key, after);
      var own := CallsFor(front, key);
      if last.key == key {
        assert CallsFor(history, key) == own + [last];
        AllowedAfterNext(own, last, key, after);
      } else {
        assert CallsFor(history, key) == own;
      }
    }
  }

  lemma AllowedAfterNext(history: seq<Attempt>, attempt: Attempt, key: string, after: real)
    ensures AllowedAfter(history + [attempt], key, after)
            == AllowedAfter(history, key, after)
               + if attempt.key == key && attempt.allowed && attempt.time > after then 1 else 0
  {
    assert (history + [attempt])[..|history|] == history;
  }

  lemma {:induction false} OwnCallsAreOld(history: seq<Attempt>, key: string, maxRequests: int, window: real,
                                          now: real)
    requires Faithful(history, maxRequests, window) && NotBefore(history, now)
    ensures NotBefore(CallsFor(history, key), now)
  {
    if history != [] {
      OwnCallsAreOld(history[..|history| - 1], key, maxRequests, window, now);
    }
  }

  /** Keys do not affect each other: what one key's calls are answered is what they
      would be answered if no other key had ever been used. */
  lemma {:induction false} KeysAreIndependent(history: seq<Attempt>, key: string, maxRequests: int, window: real)
    requires Faithful(history, maxRequests, window)
    ensures Faithful(CallsFor(history, key), maxRequests, window)
  {
    if history != [] {
      var front, last := history[..|history| - 1], history[|history| - 1];
      KeysAreIndependent(front, key, maxRequests, window);
      assert CallsFor(front, key) + [] == CallsFor(front, key);
      if last.key == key {
        CountsAreOwn(front, key, last.time - window);
        OwnCallsAreOld(front, key, maxRequests, window, last.time);
        FaithfulNext(CallsFor(front, key), last, maxRequests, window);
      }
    }
  }

  /** The moment a place becomes free: a call allowed at `time` is counted against a later
      one until, and not at, a full window after it, by the deque and by the rule alike. */
  lemma PlaceFreesExactly(key: string, time: real, now: real, window: real)
    ensures Expire([time], now, window) == if now >= time + window then [] else [time]
    ensures AllowedAfter([Attempt(key, time, true)], key, now - window) == if now >= time + window then 0 else 1
  {
    var h := [Attempt(key, time, true)];
    assert h[..0] == [] && [time][1..] == [];
  }

  // ----- readings out of order

  /** The deque that the calls of a history leave for a key. */
  function DequeIn(history: seq<Attempt>, key: string, window: real): seq<real> {
    if history == [] then []
    else
      var before, last := DequeIn(history[..|history| - 1], key, window), history[|history| - 1];
      if last.key == key then DequeAfter(before, last, window) else before
  }

  /** Each call was answered from the deque of its key, whatever the order of readings. */
  predicate Served(history: seq<Attempt>, maxRequests: int, window: real) {
    history == [] ||
    (
      var front, last := history[..|history| - 1], history[|history| - 1];
      && Served(front, maxRequests, window)
      && (last.allowed <==> |Expire(DequeIn(front, last.key, window), last.time, window)| < maxRequests)
    )
  }

  ghost predicate LeftBy(history: seq<Attempt>, hits: map<string, seq<real>>, maxRequests: int, window: real) {
    Served(history, maxRequests, window) && forall key :: DequeOf(hits, key) == DequeIn(history, key, window)
  }

  lemma LeftByNext(history: seq<Attempt>, hits: map<string, seq<real>>, attempt: Attempt, maxRequests: int,
                   window: real)
    requires AnsweredFrom(hits, attempt, maxRequests, window)
    ensures LeftBy(history, hits, maxRequests, window) ==>
              LeftBy(history + [attempt], HitsAfter(hits, attempt, window), maxRequests, window)
  {
    var longer := history + [attempt];
    assert longer[..|history|] == history && longer[|history|] == attempt;
    if LeftBy(history, hits, maxRequests, window) {
      assert DequeOf(hits, attempt.key) == DequeIn(history, attempt.key, window);
    }
  }

  /** No reading is more than `late` before that of an earlier call. */
  ghost predicate LateBy(history: seq<Attempt>, late: real) {
    forall i, j :: 0 <= i < j < |history| ==> history[i].time - late <= history[j].time
  }

  /** How many of the times lie in (after, upTo]. */
  function Among(deque: seq<real>, after: real, upTo: real): nat {
    if deque == [] then 0
    else (if after < deque[0] <= upTo then 1 else 0) + Among(deque[1..], after, upTo)
  }

  lemma {:induction false} AmongAppend(deque: seq<real>, x: real, after: real, upTo: real)
    ensures Among(deque + [x], after, upTo) == Among(deque, after, upTo) + if after < x <= upTo then 1 else 0
  {
    if deque == [] {
      assert deque + [x] == [x] && [x][1..] == [];
    } else {
      AmongAppend(deque[1..], x, after, upTo);
      assert (deque + [x])[1..] == deque[1..] + [x];
    }
  }

  lemma {:induction false} AmongIsPart(deque: seq<real>, after: real, upTo: real)
    ensures Among(deque, after, upTo) <= |deque|
  {
    if deque != [] {
      AmongIsPart(deque[1..], after, upTo);
    }
  }

  /** A call drops nothing from after the time a window's length before its reading. */
  lemma {:induction false} ExpireSpares(deque: seq<real>, now: real, window: real, after: real, upTo: real)
    requires now <= after + window
    ensures Among(Expire(deque, now, window), after, upTo) == Among(deque, after, upTo)
  {
    if deque != [] && now - deque[0] >= window {
      ExpireSpares(deque[1..], now, window, after, upTo);
    }
  }

  /** While no reading is later than a window's length after `after`, the deque still holds
      every call allowed since. */
  lemma {:induction false} DequeHolds(history: seq<Attempt>, key: string, window: real, after: real, upTo: real)
    requires forall i :: 0 <= i < |history| ==> history[i].time <= after + window
    ensures Among(DequeIn(history, key, window), after, upTo) == AllowedWithin(history, key, after, upTo)
  {
    if history != [] {
      var front, last := history[..|history| - 1], history[|history| - 1];
      DequeHolds(front, key, window, after, upTo);
      if last.key == key {
        var deque := DequeIn(front, key, window);
        ExpireSpares(deque, last.time, window, after, upTo);
        if last.allowed {
          AmongAppend(Expire(deque, last.time, window), last.time, after, upTo);
        } else {
          assert DequeAfter(deque, last, window) == Expire(deque, last.time, window);
        }
      }
    }
  }

  /** The tolerance of the limiter: if no reading is more than `late` before an earlier
      call's, a window shorter by that much holds no more than the maximum. */
  lemma {:induction false} LateReadingsShortenTheWindow(history: seq<Attempt>, key: string, maxRequests: nat,
                                                        window: real, late: real, after: real)
    requires Served(history, maxRequests, window) && LateBy(history, late) && late >= 0.0
    ensures AllowedWithin(history, key, after, after + window - late) <= maxRequests
  {
    if history != [] {
      var front, last, upTo := history[..|history| - 1], history[|history| - 1], after + window - late;
      LateReadingsShortenTheWindow(front, key, maxRequests, window, late, after);
      if last.key == key && last.allowed && after < last.time <= upTo {
        forall i | 0 <= i < |front|
          ensures front[i].time <= after + window
        {
          assert front[i] == history[i];
        }
        var deque := DequeIn(front, key, window);
        DequeHolds(front, key, window, after, upTo);
        ExpireSpares(deque, last.time, window, after, upTo);
        AmongIsPart(Expire(deque, last.time, window), after, upTo);
      }
    }
  }

  /** A full window may overflow.  At most two calls in ten seconds: those at 0, 1, 11 and
      then 5, six seconds late, are all allowed, for the call at 11 has already dropped the first
      two, and three of them fall into the ten seconds up to 5. */
  lemma LateReadingOverflowsTheWindow(key: string)
    ensures
      var d0 := DequeAfter([], Attempt(key, 0.0, true), 10.0);
      var d1 := DequeAfter(d0, Attempt(key, 1.0, true), 10.0);
      var d2 := DequeAfter(d1, Attempt(key, 11.0, true), 10.0);
      && |Expire([], 0.0, 10.0)| < 2 && |Expire(d0, 1.0, 10.0)| < 2
      && |Expire(d1, 11.0, 10.0)| < 2 && |Expire(d2, 5.0, 10.0)| < 2
    ensures
      var h := [Attempt(key, 0.0, true), Attempt(key, 1.0, true), Attempt(key, 11.0, true), Attempt(key, 5.0, true)];
      AllowedWithin(h, key, -5.0, 5.0) == 3
  {
    assert [0.0, 1.0][1..] == [1.0] && [1.0][1..] == [];
    assert Expire([0.0, 1.0], 11.0, 10.0) == Expire([1.0], 11.0, 10.0) == [];
    var h := [Attempt(key, 0.0, true), Attempt(key, 1.0, true), Attempt(key, 11.0, true), Attempt(key, 5.0, true)];
    assert h[..3][..2] == h[..2] && h[..2][..1] == h[..1] && h[..1][..0] == [];
    assert AllowedWithin(h[..1], key, -5.0, 5.0) == 1;
    assert AllowedWithin(h[..2], key, -5.0, 5.0) == 2;
    assert AllowedWithin(h[..3], key, -5.0, 5.0) == 2;
  }
}
