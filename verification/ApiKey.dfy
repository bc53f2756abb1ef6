/** API-key validation with a fixed-window limiter per key (libs/auth/apikey.go).
    Times are nanoseconds on a clock that never runs backwards. */
module ApiKey {
  import opened Results

  const MINUTE: int := 60_000_000_000

  datatype Error = NotFound | Disabled | Expired | RateLimited

  datatype Bucket = Bucket(count: int, resetTime: int)

  type Buckets = map<string, Bucket>

  /** A call of checkRateLimit. */
  datatype Event = Event(key: string, at: int)

  function Check(m: Buckets, e: Event, limit: int): (Buckets, bool) {
    if e.key !in m || e.at > m[e.key].resetTime then (m[e.key := Bucket(1, e.at + MINUTE)], true)
    else if m[e.key].count >= limit then (m, false)
    else (m[e.key := m[e.key].(count := m[e.key].count + 1)], true)
  }

  // ---------------------------------------------------------------------
  // Runs of one key, its admissions grouped by bucket lifetime
  // ---------------------------------------------------------------------

  type Lifetimes = seq<seq<int>>

  /** The admissions so far, one more event later. A new bucket starts a group. */
  function Admit(m: Buckets, groups: Lifetimes, e: Event, key: string, limit: int): Lifetimes {
    if e.key != key || !Check(m, e, limit).1 then groups
    else if key !in m || e.at > m[key].resetTime || |groups| == 0 then groups + [[e.at]]
    else groups[..|groups| - 1] + [groups[|groups| - 1] + [e.at]]
  }

  function Run(
    m: Buckets, groups: Lifetimes, events: seq<Event>, key: string, limits: string -> int): (Buckets, Lifetimes)
    decreases |events|
  {
    if |events| == 0 then (m, groups)
    else
      var e := events[0];
      Run(Check(m, e, limits(e.key)).0, Admit(m, groups, e, key, limits(e.key)), events[1..], key, limits)
  }

  ghost predicate Clocked(from: int, events: seq<Event>)
    decreases |events|
  {
    |events| > 0 ==> from <= events[0].at && Clocked(events[0].at, events[1..])
  }

  /** A lifetime holds at most `limit` admissions, all within a minute of its
      first, and the next one starts more than a minute after. */
  ghost predicate WellSpaced(groups: Lifetimes, limit: int) {
    (forall i :: 0 <= i < |groups| ==>
      0 < |groups[i]| <= limit &&
      forall t :: t in groups[i] ==> groups[i][0] <= t <= groups[i][0] + MINUTE) &&
    forall i :: 0 <= i < |groups| - 1 ==> groups[i][0] + MINUTE < groups[i + 1][0]
  }

  /** The bucket in the table is the last lifetime. */
  ghost predicate Tracks(m: Buckets, groups: Lifetimes, key: string, limit: int, now: int) {
    WellSpaced(groups, limit) &&
    (key in m <==> |groups| > 0) &&
    (key in m ==>
      var g := groups[|groups| - 1];
      m[key].count == |g| && m[key].resetTime == g[0] + MINUTE && g[0] <= now)
  }

  lemma EventTracks(m: Buckets, groups: Lifetimes, e: Event, key: string, limits: string -> int, now: int)
    requires Tracks(m, groups, key, limits(key), now) && now <= e.at && limits(key) >= 1
    ensures Tracks(Check(m, e, limits(e.key)).0, Admit(m, groups, e, key, limits(e.key)), key, limits(key), e.at)
  {
    if e.key == key && Check(m, e, limits(key)).1 {
      var groups' := Admit(m, groups, e, key, limits(key));
      var n := |groups'| - 1;
      assert groups'[..n] == groups[..n];
      assert forall i :: 0 <= i < n ==> groups'[i] == groups[i];
      assert forall t :: t in groups'[n] ==> groups'[n][0] <= t <= groups'[n][0] + MINUTE;
      if n == |groups| && n > 0 {
        assert groups'[n - 1] == groups[n - 1];
      }
    }
  }

  lemma {:induction false} RunTracks(
    m: Buckets, groups: Lifetimes, events: seq<Event>, key: string, limits: string -> int, now: int)
    requires Tracks(m, groups, key, limits(key), now) && Clocked(now, events) && limits(key) >= 1
    ensures WellSpaced(Run(m, groups, events, key, limits).1, limits(key))
    decreases |events|
  {
    if |events| > 0 {
      var e := events[0];
      EventTracks(m, groups, e, key, limits, now);
      RunTracks(Check(m, e, limits(e.key)).0, Admit(m, groups, e, key, limits(e.key)), events[1..], key, limits, e.at);
    }
  }

  /** After every run a request of a key is admitted exactly when it comes more than
      a minute after the start of the key's latest lifetime, which then ends, or
      fewer than `limit` requests have been admitted in that lifetime. */
  lemma {:induction false} AdmittedExactly(
    m: Buckets, groups: Lifetimes, events: seq<Event>, key: string, limits: string -> int, now: int, at: int)
    requires Tracks(m, groups, key, limits(key), now) && Clocked(now, events) && limits(key) >= 1
    ensures var (m', groups') := Run(m, groups, events, key, limits);
      Check(m', Event(key, at), limits(key)).1 <==>
        |groups'| == 0 || |groups'[|groups'| - 1]| < limits(key) ||
        (|groups'[|groups'| - 1]| > 0 && at > groups'[|groups'| - 1][0] + MINUTE)
    decreases |events|
  {
    if |events| > 0 {
      var e := events[0];
      EventTracks(m, groups, e, key, limits, now);
      AdmittedExactly(
        Check(m, e, limits(e.key)).0, Admit(m, groups, e, key, limits(e.key)), events[1..], key, limits, e.at, at);
    }
  }

  // ---------------------------------------------------------------------
  // Bounds
  // ---------------------------------------------------------------------

  /** Elements in the closed interval [from, to]. */
  function CountIn(s: seq<int>, from: int, to: int): nat {
    if |s| == 0 then 0
    else CountIn(s[..|s| - 1], from, to) + if from <= s[|s| - 1] <= to then 1 else 0
  }

  function CountAll(groups: Lifetimes, from: int, to: int): nat {
    if |groups| == 0 then 0
    else CountAll(groups[..|groups| - 1], from, to) + CountIn(groups[|groups| - 1], from, to)
  }

  lemma {:induction false} CountAtMost(s: seq<int>, from: int, to: int)
    ensures CountIn(s, from, to) <= |s|
    ensures |s| > 0 && s[0] < from ==> CountIn(s, from, to) <= |s| - 1
    ensures (forall t :: t in s ==> t < from || t > to) ==> CountIn(s, from, to) == 0
  {
    if |s| > 0 {
      var init, last := s[..|s| - 1], s[|s| - 1];
      assert last in s && forall t :: t in init ==> t in s;
      CountAtMost(init, from, to);
    }
  }

  lemma {:induction false} EarlyLifetimes(groups: Lifetimes, limit: int, from: int, to: int)
    requires WellSpaced(groups, limit)
    requires |groups| > 0 ==> groups[|groups| - 1][0] + MINUTE < from
    ensures CountAll(groups, from, to) == 0
  {
    if |groups| > 0 {
      var n := |groups| - 1;
      CountAtMost(groups[n], from, to);
      if n > 0 {
        assert groups[n - 1][0] + MINUTE < groups[n][0];
      }
      assert forall i :: 0 <= i < n ==> groups[..n][i] == groups[i];
      EarlyLifetimes(groups[..n], limit, from, to);
    }
  }

  lemma {:induction false} SpacedIsBounded(groups: Lifetimes, limit: int, x: int)
    requires WellSpaced(groups, limit) && limit >= 1
    ensures CountAll(groups, x, x + MINUTE) <= 2 * limit - 1
  {
    if |groups| > 0 {
      var n := |groups| - 1;
      var init, last := groups[..n], groups[n];
      assert forall i :: 0 <= i < n ==> init[i] == groups[i];
      CountAtMost(last, x, x + MINUTE);
      if CountIn(last, x, x + MINUTE) == 0 {
        SpacedIsBounded(init, limit, x);
      } else if n > 0 {
        // the lifetime before started before x, and those before it are over
        assert groups[n - 1][0] + MINUTE < groups[n][0];
        CountAtMost(groups[n - 1], x, x + MINUTE);
        if n > 1 {
          assert groups[n - 2][0] + MINUTE < groups[n - 1][0];
        }
        assert init[..n - 1] == groups[..n - 1];
        assert forall i :: 0 <= i < n - 1 ==> groups[..n - 1][i] == groups[i];
        EarlyLifetimes(groups[..n - 1], limit, x, x + MINUTE);
      }
    }
  }

  /** Admissions of a run within the closed minute from x on. */
  function InMinute(events: seq<Event>, key: string, limits: string -> int, x: int): nat {
    CountAll(Run(map[], [], events, key, limits).1, x, x + MINUTE)
  }

  /** In every run a key gets at most `limit` admissions in a bucket lifetime
      and at most 2 * limit - 1 in any closed interval of one minute. */
  lemma LimitIsRespected(events: seq<Event>, key: string, limits: string -> int, now: int, x: int)
    requires Clocked(now, events) && limits(key) >= 1
    ensures forall g :: g in Run(map[], [], events, key, limits).1 ==> |g| <= limits(key)
    ensures InMinute(events, key, limits, x) <= 2 * limits(key) - 1
  {
    RunTracks(map[], [], events, key, limits, now);
    SpacedIsBounded(Run(map[], [], events, key, limits).1, limits(key), x);
  }

  // ---------------------------------------------------------------------
  // The bound is reached for every limit
  // ---------------------------------------------------------------------

  function Burst(key: string, at: int, n: nat): seq<Event> {
    if n == 0 then [] else [Event(key, at)] + Burst(key, at, n - 1)
  }

  function Repeat(t: int, n: nat): seq<int> {
    if n == 0 then [] else [t] + Repeat(t, n - 1)
  }

  /** An open bucket takes one more. */
  lemma OneFills(
    m: Buckets, groups: Lifetimes, g: seq<int>, key: string, limits: string -> int, at: int, rest: seq<Event>)
    requires key in m && m[key].resetTime >= at && m[key].count < limits(key)
    ensures Run(m, groups + [g], [Event(key, at)] + rest, key, limits) ==
            Run(m[key := m[key].(count := m[key].count + 1)], groups + [g + [at]], rest, key, limits)
  {
    var e := Event(key, at);
    assert ([e] + rest)[1..] == rest && (groups + [g])[..|groups|] == groups;
    assert Admit(m, groups + [g], e, key, limits(key)) == groups + [g + [at]];
  }

  lemma {:induction false} BurstFills(
    m: Buckets, groups: Lifetimes, g: seq<int>, key: string, limits: string -> int, at: int, n: nat, rest: seq<Event>)
    requires key in m && m[key].resetTime >= at && m[key].count + n <= limits(key)
    ensures Run(m, groups + [g], Burst(key, at, n) + rest, key, limits) ==
            Run(m[key := m[key].(count := m[key].count + n)], groups + [g + Repeat(at, n)], rest, key, limits)
    decreases n
  {
    hide Run;
    if n == 0 {
      assert Burst(key, at, 0) + rest == rest && g + [] == g;
      assert m[key := m[key].(count := m[key].count + 0)] == m;
    } else {
      var more := Burst(key, at, n - 1) + rest;
      assert Burst(key, at, n) + rest == [Event(key, at)] + more;
      OneFills(m, groups, g, key, limits, at, more);
      var m' := m[key := m[key].(count := m[key].count + 1)];
      BurstFills(m', groups, g + [at], key, limits, at, n - 1, rest);
      assert g + [at] + Repeat(at, n - 1) == g + Repeat(at, n);
      assert m'[key := m'[key].(count := m'[key].count + (n - 1))] == m[key := m[key].(count := m[key].count + n)];
    }
  }

  lemma {:induction false} CountRepeat(g: seq<int>, t: int, n: nat, from: int, to: int)
    requires from <= t <= to
    ensures CountIn(g + Repeat(t, n), from, to) == CountIn(g, from, to) + n
    decreases n
  {
    if n == 0 {
      assert g + [] == g;
    } else {
      assert g + Repeat(t, n) == (g + [t]) + Repeat(t, n - 1);
      CountRepeat(g + [t], t, n - 1, from, to);
      assert (g + [t])[..|g|] == g;
    }
  }

  /** A request that starts a new bucket, then n more in it. */
  lemma BucketFills(
    m: Buckets, groups: Lifetimes, key: string, limits: string -> int, start: int, at: int, n: nat, rest: seq<Event>)
    requires key !in m || start > m[key].resetTime
    requires at <= start + MINUTE && 1 + n <= limits(key)
    ensures Run(m, groups, [Event(key, start)] + (Burst(key, at, n) + rest), key, limits) ==
            Run(m[key := Bucket(1 + n, start + MINUTE)], groups + [[start] + Repeat(at, n)], rest, key, limits)
  {
    var e, more := Event(key, start), Burst(key, at, n) + rest;
    assert ([e] + more)[1..] == more;
    var m' := m[key := Bucket(1, start + MINUTE)];
    assert Run(m, groups, [e] + more, key, limits) == Run(m', groups + [[start]], more, key, limits);
    BurstFills(m', groups, [start], key, limits, at, n, rest);
    assert m'[key := Bucket(1 + n, start + MINUTE)] == m[key := Bucket(1 + n, start + MINUTE)];
  }

  /** One request, then limit - 1 at the end of its minute, then `limit` just
      after. */
  function Busy(key: string, n: nat): seq<Event> {
    [Event(key, 0)] + (Burst(key, MINUTE, n) + BusyLate(key, n))
  }

  function BusyLate(key: string, n: nat): seq<Event> {
    [Event(key, MINUTE + 1)] + (Burst(key, MINUTE + 1, n) + [])
  }

  lemma BusyLifetimes(m: Buckets, groups: Lifetimes, key: string, limits: string -> int, n: nat)
    requires limits(key) == n + 1 && key !in m
    ensures Run(m, groups, Busy(key, n), key, limits).1 ==
            groups + [[0] + Repeat(MINUTE, n)] + [[MINUTE + 1] + Repeat(MINUTE + 1, n)]
  {
    BucketFills(m, groups, key, limits, 0, MINUTE, n, BusyLate(key, n));
    var m', groups' := m[key := Bucket(1 + n, 0 + MINUTE)], groups + [[0] + Repeat(MINUTE, n)];
    BucketFills(m', groups', key, limits, MINUTE + 1, MINUTE + 1, n, []);
  }

  lemma CountTwo(first: seq<int>, second: seq<int>, from: int, to: int)
    ensures CountAll([] + [first] + [second], from, to) == CountIn(first, from, to) + CountIn(second, from, to)
  {
    var one: Lifetimes := [] + [first];
    assert (one + [second])[..1] == one && one[..0] == [];
    assert CountAll(one, from, to) == CountIn(first, from, to);
  }

  /** n admissions of the first lifetime and n + 1 of the second fall in the
      minute that starts at the end of the first. */
  lemma BusyCount(n: nat)
    ensures CountIn([0] + Repeat(MINUTE, n), MINUTE, MINUTE + MINUTE) == n
    ensures CountIn([MINUTE + 1] + Repeat(MINUTE + 1, n), MINUTE, MINUTE + MINUTE) == n + 1
  {
    CountRepeat([0], MINUTE, n, MINUTE, MINUTE + MINUTE);
    CountRepeat([MINUTE + 1], MINUTE + 1, n, MINUTE, MINUTE + MINUTE);
    CountOne(0, MINUTE, MINUTE + MINUTE);
    CountOne(MINUTE + 1, MINUTE, MINUTE + MINUTE);
  }

  lemma BusyClocked(key: string, n: nat)
    ensures Clocked(0, Busy(key, n))
  {
    BurstClocked(key, MINUTE + 1, n, [], MINUTE + 1);
    assert BusyLate(key, n)[1..] == Burst(key, MINUTE + 1, n) + [];
    BurstClocked(key, MINUTE, n, BusyLate(key, n), 0);
    assert Busy(key, n)[1..] == Burst(key, MINUTE, n) + BusyLate(key, n);
  }

  /** 2 * limit - 1 admissions within one minute do happen, for every limit. */
  lemma BoundIsTight(key: string, limits: string -> int)
    requires limits(key) >= 1
    ensures exists events :: Clocked(0, events) && InMinute(events, key, limits, MINUTE) == 2 * limits(key) - 1
  {
    var n := limits(key) - 1;
    BusyLifetimes(map[], [], key, limits, n);
    BusyCount(n);
    CountTwo([0] + Repeat(MINUTE, n), [MINUTE + 1] + Repeat(MINUTE + 1, n), MINUTE, MINUTE + MINUTE);
    BusyClocked(key, n);
    assert InMinute(Busy(key, n), key, limits, MINUTE) == 2 * limits(key) - 1;
  }

  /** The limit holds in every closed minute of every run, and not only in every
      lifetime, exactly when it is one. */
  lemma MinuteLimitExactly(key: string, limits: string -> int)
    requires limits(key) >= 1
    ensures limits(key) == 1 <==>
      forall events, now, x :: Clocked(now, events) ==> InMinute(events, key, limits, x) <= limits(key)
  {
    if limits(key) == 1 {
      forall events, now, x | Clocked(now, events)
        ensures InMinute(events, key, limits, x) <= 1
      {
        LimitIsRespected(events, key, limits, now, x);
      }
    } else {
      BoundIsTight(key, limits);
    }
  }

  lemma CountOne(t: int, from: int, to: int)
    ensures CountIn([t], from, to) == if from <= t <= to then 1 else 0
  {
  }

  lemma {:induction false} BurstClocked(key: string, at: int, n: nat, rest: seq<Event>, from: int)
    requires from <= at && Clocked(at, rest)
    ensures Clocked(from, Burst(key, at, n) + rest)
    decreases n
  {
    if n == 0 {
      assert Burst(key, at, 0) + rest == rest;
    } else {
      BurstClocked(key, at, n - 1, rest, at);
      assert (Burst(key, at, n) + rest)[1..] == Burst(key, at, n - 1) + rest;
    }
  }

  // ---------------------------------------------------------------------
  // The manager
  // ---------------------------------------------------------------------

  class APIKey {
    var rateLimit: int
    var isActive: bool
    var expiresAt: Option<int>
    var lastUsedAt: Option<int>

    constructor (rateLimit: int, expiresAt: Option<int>)
      ensures this.rateLimit == rateLimit && this.expiresAt == expiresAt && isActive && lastUsedAt == None
    {
      this.rateLimit, this.expiresAt, isActive, lastUsedAt := rateLimit, expiresAt, true, None;
    }

    predicate IsExpired(now: int)
      reads this
    {
      expiresAt.Some? && now > expiresAt.value
    }
  }

  class RateLimitBucket {
    var count: int
    var resetTime: int
    /** The key hash this bucket was created for. */
    ghost const key: string

    constructor (count: int, resetTime: int, ghost key: string)
      ensures this.count == count && this.resetTime == resetTime && this.key == key
    {
      this.count, this.resetTime, this.key := count, resetTime, key;
    }
  }

  class APIKeyManager {
    var keys: map<string, APIKey>
    var rateLimits: map<string, RateLimitBucket>

    ghost predicate Valid()
      reads this, rateLimits.Values
    {
      forall k :: k in rateLimits ==> rateLimits[k].key == k
    }

    ghost function Value(): Buckets
      reads this, rateLimits.Values
    {
      map k | k in rateLimits :: Bucket(rateLimits[k].count, rateLimits[k].resetTime)
    }

    constructor ()
      ensures Valid() && keys == map[] && Value() == map[]
    {
      keys, rateLimits := map[], map[];
    }

    method CheckRateLimit(keyHash: string, limit: int, now: int) returns (r: Result<(), Error>)
      requires Valid()
      modifies this`rateLimits, rateLimits.Values
      ensures Valid() && fresh(rateLimits.Values - old(rateLimits.Values))
      ensures Value() == Check(old(Value()), Event(keyHash, now), limit).0
      ensures r == if Check(old(Value()), Event(keyHash, now), limit).1 then Ok(()) else Err(RateLimited)
      ensures r.Ok? <==>
        keyHash !in old(rateLimits) || now > old(rateLimits[keyHash].resetTime) ||
        old(rateLimits[keyHash].count) < limit
    {
      ghost var m := Value();
      if keyHash !in rateLimits || now > rateLimits[keyHash].resetTime {
        var bucket := new RateLimitBucket(1, now + MINUTE, keyHash);
        rateLimits := rateLimits[keyHash := bucket];
        assert forall k :: k in Value() <==> k in m || k == keyHash;
        return Ok(());
      }
      var bucket := rateLimits[keyHash];
      if bucket.count >= limit {
        return Err(RateLimited);
      }
      bucket.count := bucket.count + 1;
      assert forall k :: k in m && k != keyHash ==> rateLimits[k] != bucket && Value()[k] == m[k];
      return Ok(());
    }

    /** A key that is missing, disabled or expired spends nothing of any limit,
        and a limit of zero or less is no limit. The clock is read three times. */
    method ValidateAPIKey(keyHash: string, expiryAt: int, limitAt: int, usedAt: int) returns (r: Result<APIKey, Error>)
      requires Valid()
      modifies this`rateLimits, rateLimits.Values, if keyHash in keys then {keys[keyHash]} else {}
      ensures Valid() && keys == old(keys)
      ensures keyHash !in keys ==> r == Err(NotFound)
      ensures keyHash in keys && !keys[keyHash].isActive ==> r == Err(Disabled)
      ensures keyHash in keys && keys[keyHash].isActive && old(keys[keyHash].IsExpired(expiryAt)) ==> r == Err(Expired)
      ensures keyHash in keys && keys[keyHash].isActive ==> (
        r == Err(Expired) <==> keys[keyHash].expiresAt.Some? && expiryAt > keys[keyHash].expiresAt.value)
      ensures (r.Err? && !r.error.RateLimited?) || (keyHash in keys && keys[keyHash].rateLimit <= 0) ==>
        Value() == old(Value())
      ensures r.Ok? ==> keyHash in keys && r.value == keys[keyHash] && r.value.lastUsedAt == Some(usedAt)
      ensures keyHash in keys && keys[keyHash].isActive && !old(keys[keyHash].IsExpired(expiryAt)) ==> (
        var limit := keys[keyHash].rateLimit;
        if limit <= 0 then r.Ok?
        else
          Value() == Check(old(Value()), Event(keyHash, limitAt), limit).0 &&
          (r.Ok? <==> Check(old(Value()), Event(keyHash, limitAt), limit).1) && (r.Err? ==> r.error.RateLimited?))
    {
      if keyHash !in keys {
        return Err(NotFound);
      }
      var apiKey := keys[keyHash];
      if !apiKey.isActive {
        return Err(Disabled);
      }
      if apiKey.IsExpired(expiryAt) {
        return Err(Expired);
      }
      if apiKey.rateLimit > 0 {
        var limited := CheckRateLimit(keyHash, apiKey.rateLimit, limitAt);
        if limited.Err? {
          return Err(limited.error);
        }
      }
      apiKey.lastUsedAt := Some(usedAt);
      return Ok(apiKey);
    }
  }
}
