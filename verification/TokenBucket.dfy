/** Keyed token-bucket rate limiting with background cleanup
    (libs/middleware/ratelimit.go). Tokens and seconds are reals; the clock
    never runs backwards. */
module TokenBucket {
  datatype Config = Config(burst: real, rate: real)

  datatype Bucket = Bucket(tokens: real, last: real)

  type Limiter = map<string, Bucket>

  /** Allow is a request; Peek is a reader calling Tokens(); Sweep is the
      cleanup loop looking at one key. */
  datatype Kind = Allow | Peek | Sweep

  datatype Event = Event(kind: Kind, key: string, at: real)

  // ---------------------------------------------------------------------
  // One bucket
  // ---------------------------------------------------------------------

  function Min(x: real, y: real): real {
    if x <= y then x else y
  }

  /** Tokens earned in a stretch of time. */
  function Earned(c: Config, time: real): real {
    time * c.rate
  }

  lemma EarnedAdds(c: Config, x: real, y: real)
    requires c.rate >= 0.0
    ensures Earned(c, x + y) == Earned(c, x) + Earned(c, y)
    ensures x >= 0.0 ==> Earned(c, x) >= 0.0
    ensures y >= 0.0 ==> Earned(c, y) >= 0.0
  {
  }

  function Refill(c: Config, b: Bucket, now: real): Bucket {
    Bucket(Min(b.tokens + Earned(c, now - b.last), c.burst), now)
  }

  function Take(c: Config, b: Bucket, now: real): (Bucket, bool) {
    var r := Refill(c, b, now);
    if r.tokens >= 1.0 then (r.(tokens := r.tokens - 1.0), true) else (r, false)
  }

  function Full(c: Config, now: real): Bucket {
    Bucket(c.burst, now)
  }

  lemma RefillInRange(c: Config, b: Bucket, now: real)
    requires c.rate >= 0.0 && b.last <= now && 0.0 <= b.tokens <= c.burst
    ensures 0.0 <= Refill(c, b, now).tokens <= c.burst
  {
    assert Earned(c, now - b.last) >= 0.0;
  }

  lemma RefillAtOnce(c: Config, b: Bucket)
    ensures Refill(c, b, b.last) == b.(tokens := Min(b.tokens, c.burst))
  {
  }

  /** Reading a bucket early changes nothing later. */
  lemma RefillComposes(c: Config, b: Bucket, s: real, t: real)
    requires c.rate >= 0.0 && b.last <= s <= t
    ensures Refill(c, Refill(c, b, s), t) == Refill(c, b, t)
  {
    EarnedAdds(c, s - b.last, t - s);
  }

  /** A bucket that has filled up is indistinguishable from a new one. */
  lemma FullStaysFull(c: Config, b: Bucket, s: real, t: real)
    requires c.rate >= 0.0 && b.last <= s <= t && Refill(c, b, s).tokens >= c.burst
    ensures Refill(c, b, t) == Full(c, t)
  {
    RefillComposes(c, b, s, t);
    EarnedAdds(c, t - s, 0.0);
  }

  // ---------------------------------------------------------------------
  // The keyed limiter, and the ideal one that never forgets or is observed
  // ---------------------------------------------------------------------

  /** The bucket a request finds: a missing one is created full. */
  function Find(c: Config, m: Limiter, key: string, now: real): Bucket {
    if key in m then m[key] else Full(c, now)
  }

  function Apply(c: Config, m: Limiter, e: Event): (Limiter, bool) {
    match e.kind
    case Allow =>
      var (b, ok) := Take(c, Find(c, m, e.key, e.at), e.at);
      (m[e.key := b], ok)
    case Peek =>
      (if e.key in m then m[e.key := Refill(c, m[e.key], e.at)] else m, false)
    case Sweep =>
      if e.key !in m then (m, false)
      else
        var b := Refill(c, m[e.key], e.at);
        (if b.tokens >= c.burst then m - {e.key} else m[e.key := b], false)
  }

  /** The answers to the requests of a run. */
  function Answers(c: Config, m: Limiter, events: seq<Event>): seq<bool>
    decreases |events|
  {
    if |events| == 0 then []
    else
      var (m', ok) := Apply(c, m, events[0]);
      (if events[0].kind.Allow? then [ok] else []) + Answers(c, m', events[1..])
  }

  /** The limiter after a run. */
  function Final(c: Config, m: Limiter, events: seq<Event>): Limiter
    decreases |events|
  {
    if |events| == 0 then m else Final(c, Apply(c, m, events[0]).0, events[1..])
  }

  function OnlyAllows(events: seq<Event>): seq<Event> {
    if |events| == 0 then []
    else (if events[0].kind.Allow? then [events[0]] else []) + OnlyAllows(events[1..])
  }

  /** Event times never decrease and start no earlier than `from`. */
  ghost predicate Clocked(from: real, events: seq<Event>)
    decreases |events|
  {
    |events| > 0 ==> from <= events[0].at && Clocked(events[0].at, events[1..])
  }

  ghost predicate NotFromFuture(m: Limiter, now: real) {
    forall k :: k in m ==> m[k].last <= now
  }

  /** From `now` on the observed limiter and the ideal one hold the same tokens
      for every key; a key it forgot is one whose bucket is full. */
  ghost predicate Agree(c: Config, m: Limiter, ideal: Limiter, now: real) {
    NotFromFuture(m, now) && NotFromFuture(ideal, now) &&
    (forall k :: k in m ==> k in ideal && Refill(c, m[k], now) == Refill(c, ideal[k], now)) &&
    (forall k :: k in ideal && k !in m ==> Refill(c, ideal[k], now) == Full(c, now))
  }

  lemma AgreeLater(c: Config, m: Limiter, ideal: Limiter, s: real, t: real)
    requires c.rate >= 0.0 && s <= t && Agree(c, m, ideal, s)
    ensures Agree(c, m, ideal, t)
  {
    forall k | k in ideal ensures k in m ==> Refill(c, m[k], t) == Refill(c, ideal[k], t)
                          ensures k !in m ==> Refill(c, ideal[k], t) == Full(c, t) {
      if k in m {
        RefillComposes(c, m[k], s, t);
        RefillComposes(c, ideal[k], s, t);
      } else {
        FullStaysFull(c, ideal[k], s, t);
      }
    }
  }

  lemma StepAgrees(c: Config, m: Limiter, ideal: Limiter, e: Event)
    requires c.rate >= 0.0 && Agree(c, m, ideal, e.at)
    ensures e.kind.Allow? ==> (
      Apply(c, m, e).1 == Apply(c, ideal, e).1 &&
      Agree(c, Apply(c, m, e).0, Apply(c, ideal, e).0, e.at))
    ensures !e.kind.Allow? ==> Agree(c, Apply(c, m, e).0, ideal, e.at)
  {
    if e.key in m {
      RefillComposes(c, m[e.key], e.at, e.at);
    }
    if e.kind.Allow? {
      var b, i := Find(c, m, e.key, e.at), Find(c, ideal, e.key, e.at);
      assert Refill(c, b, e.at) == Refill(c, i, e.at);
    }
  }

  /** Cleanup and token reads, interleaved anywhere, never change an answer. */
  lemma {:induction false} CleanupIsInvisible(c: Config, m: Limiter, ideal: Limiter, now: real, events: seq<Event>)
    requires c.rate >= 0.0 && Clocked(now, events) && Agree(c, m, ideal, now)
    ensures Answers(c, m, events) == Answers(c, ideal, OnlyAllows(events))
    decreases |events|
  {
    if |events| > 0 {
      var e, rest := events[0], events[1..];
      AgreeLater(c, m, ideal, now, e.at);
      StepAgrees(c, m, ideal, e);
      if e.kind.Allow? {
        CleanupIsInvisible(c, Apply(c, m, e).0, Apply(c, ideal, e).0, e.at, rest);
        assert OnlyAllows(events)[1..] == OnlyAllows(rest);
      } else {
        CleanupIsInvisible(c, Apply(c, m, e).0, ideal, e.at, rest);
        assert OnlyAllows(events) == OnlyAllows(rest);
      }
    }
  }

  // ---------------------------------------------------------------------
  // Quantitative bounds
  // ---------------------------------------------------------------------

  ghost predicate InRange(c: Config, m: Limiter, now: real) {
    forall k :: k in m ==> m[k].last <= now && 0.0 <= m[k].tokens <= c.burst
  }

  /** Tokens a key has at `now`: a missing bucket counts as full. */
  function Tokens(c: Config, m: Limiter, key: string, now: real): real {
    Refill(c, Find(c, m, key, now), now).tokens
  }

  function One(b: bool): real {
    if b then 1.0 else 0.0
  }

  /** Admissions of one key at times in [s, t] of a run. */
  function Admitted(c: Config, m: Limiter, events: seq<Event>, key: string, s: real, t: real): real
    decreases |events|
  {
    if |events| == 0 then 0.0
    else
      var e, (m', ok) := events[0], Apply(c, m, events[0]);
      One(e.key == key && s <= e.at <= t && ok) + Admitted(c, m', events[1..], key, s, t)
  }

  lemma TokensInRange(c: Config, m: Limiter, key: string, now: real)
    requires c.rate >= 0.0 && c.burst >= 0.0 && InRange(c, m, now)
    ensures 0.0 <= Tokens(c, m, key, now) <= c.burst
  {
    RefillInRange(c, Find(c, m, key, now), now);
  }

  /** A run keeps the tokens of every key between 0 and burst, from its last
      event on. */
  lemma {:induction false} RunInRange(c: Config, m: Limiter, now: real, events: seq<Event>, key: string, t: real)
    requires c.rate >= 0.0 && c.burst >= 0.0 && InRange(c, m, now) && Clocked(now, events)
    requires now <= t && forall i :: 0 <= i < |events| ==> events[i].at <= t
    ensures InRange(c, Final(c, m, events), t)
    ensures 0.0 <= Tokens(c, Final(c, m, events), key, t) <= c.burst
    decreases |events|
  {
    if |events| == 0 {
      TokensInRange(c, m, key, t);
    } else {
      var rest := events[1..];
      assert forall i :: 0 <= i < |rest| ==> rest[i] == events[i + 1];
      assert events[0].at <= t;
      ApplyConserves(c, m, events[0], key);
      RunInRange(c, Apply(c, m, events[0]).0, events[0].at, rest, key, t);
    }
  }

  /** The same from the empty limiter, which is in range at any time. */
  lemma TokensStayInRange(c: Config, now: real, events: seq<Event>, key: string, t: real)
    requires c.rate >= 0.0 && c.burst >= 0.0 && Clocked(now, events)
    requires now <= t && forall i :: 0 <= i < |events| ==> events[i].at <= t
    ensures 0.0 <= Tokens(c, Final(c, map[], events), key, t) <= c.burst
  {
    RunInRange(c, map[], now, events, key, t);
  }

  lemma TokensGrow(c: Config, m: Limiter, key: string, s: real, t: real)
    requires c.rate >= 0.0 && s <= t && InRange(c, m, s)
    ensures Tokens(c, m, key, t) <= Tokens(c, m, key, s) + Earned(c, t - s)
  {
    TokensLater(c, m, key, s, t);
  }

  /** Tokens are conserved: an admission of the key costs one, nothing else
      changes what it has. */
  lemma ApplyConserves(c: Config, m: Limiter, e: Event, key: string)
    requires c.rate >= 0.0 && c.burst >= 0.0 && InRange(c, m, e.at)
    ensures InRange(c, Apply(c, m, e).0, e.at)
    ensures Tokens(c, Apply(c, m, e).0, key, e.at) ==
            Tokens(c, m, key, e.at) - One(e.key == key && Apply(c, m, e).1)
  {
    TokensInRange(c, m, e.key, e.at);
    var m' := Apply(c, m, e).0;
    if e.key in m' {
      RefillAtOnce(c, m'[e.key]);
    }
    RefillAtOnce(c, Full(c, e.at));
  }

  /** One event, and the time since the last one. */
  lemma EventUsesTokens(c: Config, m: Limiter, now: real, e: Event, key: string)
    requires c.rate >= 0.0 && c.burst >= 0.0 && InRange(c, m, now) && now <= e.at
    ensures InRange(c, Apply(c, m, e).0, e.at)
    ensures Tokens(c, Apply(c, m, e).0, key, e.at) + One(e.key == key && Apply(c, m, e).1) <=
            Tokens(c, m, key, now) + Earned(c, e.at - now)
  {
    TokensGrow(c, m, key, now, e.at);
    ApplyConserves(c, m, e, key);
  }

  lemma {:induction false} AdmissionsUseTokens(
    c: Config, m: Limiter, now: real, events: seq<Event>, key: string, s: real, t: real)
    requires c.rate >= 0.0 && c.burst >= 0.0 && InRange(c, m, now) && Clocked(now, events) && now <= t
    ensures Admitted(c, m, events, key, s, t) <= Tokens(c, m, key, now) + Earned(c, t - now)
    // as long as the run has not gone past t, the tokens left then fit in as well
    ensures (forall i :: 0 <= i < |events| ==> events[i].at <= t) ==>
      Admitted(c, m, events, key, s, t) + Tokens(c, Final(c, m, events), key, t) <=
      Tokens(c, m, key, now) + Earned(c, t - now)
    decreases |events|
  {
    TokensInRange(c, m, key, now);
    EarnedAdds(c, t - now, 0.0);
    if |events| == 0 {
      TokensGrow(c, m, key, now, t);
    } else {
      var e, rest := events[0], events[1..];
      if e.at <= t {
        EventUsesTokens(c, m, now, e, key);
        AdmissionsUseTokens(c, Apply(c, m, e).0, e.at, rest, key, s, t);
        EarnedAdds(c, e.at - now, t - e.at);
        assert forall i :: 0 <= i < |rest| ==> rest[i] == events[i + 1];
      } else {
        NoneAfter(c, m, e.at, events, key, s, t);
      }
    }
  }

  lemma {:induction false} NoneAfter(
    c: Config, m: Limiter, now: real, events: seq<Event>, key: string, s: real, t: real)
    requires Clocked(now, events) && t < now
    ensures Admitted(c, m, events, key, s, t) == 0.0
    decreases |events|
  {
    if |events| > 0 {
      NoneAfter(c, Apply(c, m, events[0]).0, events[0].at, events[1..], key, s, t);
    }
  }

  lemma {:induction false} AdmissionsAreBounded(
    c: Config, m: Limiter, now: real, events: seq<Event>, key: string, s: real, t: real)
    requires c.rate >= 0.0 && c.burst >= 0.0 && InRange(c, m, now) && Clocked(now, events) && s <= t
    ensures Admitted(c, m, events, key, s, t) <= c.burst + Earned(c, t - s)
    decreases |events|
  {
    EarnedAdds(c, t - s, 0.0);
    if |events| > 0 && t < events[0].at {
      NoneAfter(c, m, events[0].at, events, key, s, t);
    } else if |events| > 0 && events[0].at < s {
      EventUsesTokens(c, m, now, events[0], key);
      AdmissionsAreBounded(c, Apply(c, m, events[0]).0, events[0].at, events[1..], key, s, t);
    } else if |events| > 0 {
      var from := if now <= s then s else now;
      TokensInRange(c, m, key, from);
      AdmissionsUseTokens(c, m, from, events, key, s, t);
      EarnedAdds(c, from - s, t - from);
    }
  }

  /** In every run, in every interval of time, a key is admitted at most
      burst + rate * length times, cleanup or not. */
  lemma RateIsBounded(
    c: Config, m: Limiter, now: real, events: seq<Event>, key: string, s: real, t: real)
    requires c.rate >= 0.0 && c.burst >= 0.0 && InRange(c, m, now) && Clocked(now, events) && s <= t
    ensures Admitted(c, m, events, key, s, t) <= c.burst + c.rate * (t - s)
  {
    hide Admitted, Clocked, InRange, Earned;
    AdmissionsAreBounded(c, m, now, events, key, s, t);
    EarnedExact(c, t - s);
  }

  // ---------------------------------------------------------------------
  // Retry-After
  // ---------------------------------------------------------------------

  /** Go's conversion of a float to an int truncates toward zero. */
  function Truncate(x: real): int {
    if x >= 0.0 then x.Floor else -((-x).Floor)
  }

  /** The header value computed from the tokens read after a refusal. */
  function RetryAfter(c: Config, tokens: real): int
    requires c.rate > 0.0
  {
    Truncate((1.0 - tokens) / c.rate) + 1
  }

  /** Other keys' traffic, and readers and cleanup on any key. */
  ghost predicate NoRequestFor(key: string, events: seq<Event>) {
    forall i :: 0 <= i < |events| ==> events[i].kind.Allow? ==> events[i].key != key
  }

  lemma {:induction false} QuietKeepsTokens(c: Config, m: Limiter, now: real, events: seq<Event>, key: string, t: real)
    requires c.rate >= 0.0 && NotFromFuture(m, now) && Clocked(now, events) && NoRequestFor(key, events)
    requires now <= t && forall i :: 0 <= i < |events| ==> events[i].at <= t
    ensures Tokens(c, Final(c, m, events), key, t) == Tokens(c, m, key, t)
    ensures Tokens(c, m, key, t) == Min(Tokens(c, m, key, now) + Earned(c, t - now), c.burst)
    ensures NotFromFuture(Final(c, m, events), t)
    decreases |events|
  {
    TokensLater(c, m, key, now, t);
    if |events| > 0 {
      var e, rest := events[0], events[1..];
      assert events[0].at <= t;
      var m' := Apply(c, m, e).0;
      if key in m && key == e.key {
        RefillComposes(c, m[key], e.at, t);
        if Refill(c, m[key], e.at).tokens >= c.burst {
          FullStaysFull(c, m[key], e.at, t);
        }
      }
      assert Tokens(c, m', key, t) == Tokens(c, m, key, t);
      assert forall i :: 0 <= i < |rest| ==> rest[i] == events[i + 1];
      QuietKeepsTokens(c, m', e.at, rest, key, t);
    }
  }

  lemma EarnedExact(c: Config, time: real)
    ensures Earned(c, time) == c.rate * time
  {
  }

  /** While a key is quiet it has what it had plus rate times the time gone by, up to
      the burst size, whatever readers, cleanup and other keys do. */
  lemma QuietTokensExact(c: Config, m: Limiter, now: real, events: seq<Event>, key: string, t: real)
    requires c.rate >= 0.0 && NotFromFuture(m, now) && Clocked(now, events) && NoRequestFor(key, events)
    requires now <= t && forall i :: 0 <= i < |events| ==> events[i].at <= t
    ensures var sum := Tokens(c, m, key, now) + c.rate * (t - now);
      Tokens(c, Final(c, m, events), key, t) == if sum <= c.burst then sum else c.burst
  {
    hide Tokens, Earned, Final, NotFromFuture, Clocked, NoRequestFor;
    QuietKeepsTokens(c, m, now, events, key, t);
    EarnedExact(c, t - now);
  }

  /** The advertised wait earns what is missing to one token. */
  lemma WaitEarns(c: Config, tokens: real, wait: real)
    requires c.rate > 0.0 && wait >= RetryAfter(c, tokens) as real
    ensures tokens + Earned(c, wait) >= 1.0
  {
    var need := (1.0 - tokens) / c.rate;
    assert wait >= need;
    assert need * c.rate == 1.0 - tokens;
    assert (wait - need) * c.rate >= 0.0;
  }

  /** The advertised wait is the least number of whole seconds that is sure to earn
      what is missing to one token, or one second more when that is exact. */
  lemma RetryAfterIsTight(c: Config, tokens: real)
    requires c.rate > 0.0 && tokens < 1.0
    ensures RetryAfter(c, tokens) >= 1
    ensures c.rate * RetryAfter(c, tokens) as real > 1.0 - tokens >= c.rate * (RetryAfter(c, tokens) - 1) as real
  {
    var need, wait := (1.0 - tokens) / c.rate, RetryAfter(c, tokens);
    assert need > 0.0 && c.rate * need == 1.0 - tokens by { Quotient(1.0 - tokens, c.rate); }
    assert (wait - 1) as real <= need < wait as real;
    Monotone(c.rate, (wait - 1) as real, need);
    Monotone(c.rate, need, wait as real);
  }

  lemma Quotient(x: real, y: real)
    requires x > 0.0 && y > 0.0
    ensures x / y > 0.0 && y * (x / y) == x
  {
  }

  lemma Monotone(x: real, y: real, z: real)
    requires x > 0.0 && y <= z
    ensures x * y <= x * z && (y < z ==> x * y < x * z)
  {
    assert x * (z - y) >= 0.0 && x * (z - y) == x * z - x * y;
    if y < z {
      assert x * (z - y) > 0.0;
    }
  }

  /** A client that waits out the advertised Retry-After, its key quiet
      meanwhile, is admitted exactly when the burst size is at least one. */
  lemma RetryAfterSuffices(c: Config, m: Limiter, now: real, events: seq<Event>, key: string, t: real)
    requires c.rate > 0.0 && NotFromFuture(m, now) && Clocked(now, events) && NoRequestFor(key, events)
    requires forall i :: 0 <= i < |events| ==> events[i].at <= t
    requires now <= t && t >= now + RetryAfter(c, Tokens(c, m, key, now)) as real
    ensures Apply(c, Final(c, m, events), Event(Allow, key, t)).1 <==> c.burst >= 1.0
  {
    hide Earned, RetryAfter, Apply, Final, Tokens;
    QuietKeepsTokens(c, m, now, events, key, t);
    WaitEarns(c, Tokens(c, m, key, now), t - now);
    AdmittedOnOneToken(c, Final(c, m, events), key, t);
    var before, earned := Tokens(c, m, key, now), Earned(c, t - now);
    assert before + earned >= 1.0;
    assert Tokens(c, Final(c, m, events), key, t) == Min(before + earned, c.burst);
  }

  /** While nobody asks, the tokens are those of before and what time earns. */
  lemma TokensLater(c: Config, m: Limiter, key: string, s: real, t: real)
    requires c.rate >= 0.0 && s <= t && NotFromFuture(m, s)
    ensures Tokens(c, m, key, t) == Min(Tokens(c, m, key, s) + Earned(c, t - s), c.burst)
  {
    EarnedAdds(c, t - s, 0.0);
    if key in m {
      RefillComposes(c, m[key], s, t);
      EarnedAdds(c, s - m[key].last, t - s);
    } else {
      RefillAtOnce(c, Full(c, s));
      RefillAtOnce(c, Full(c, t));
    }
  }

  /** A request is admitted exactly when its key has a whole token; a key that is
      not in the table has as many as the burst size. */
  lemma AdmittedOnOneToken(c: Config, m: Limiter, key: string, t: real)
    ensures Apply(c, m, Event(Allow, key, t)).1 <==> Tokens(c, m, key, t) >= 1.0
    ensures key !in m ==> Tokens(c, m, key, t) == c.burst
  {
    if key !in m {
      RefillAtOnce(c, Full(c, t));
    }
  }

  /** Cleanup does delete: of one key's bucket it leaves nothing exactly when it is
      full, and it touches no other key. */
  lemma SweepDeletesFull(c: Config, m: Limiter, key: string, now: real)
    ensures var m' := Apply(c, m, Event(Sweep, key, now)).0;
      (key in m' <==> key in m && Tokens(c, m, key, now) < c.burst) &&
      forall k :: k != key ==> (k in m' <==> k in m) && (k in m ==> m'[k] == m[k])
  {
    hide Earned;
  }

  // ---------------------------------------------------------------------
  // The objects
  // ---------------------------------------------------------------------

  class TokenBucket {
    var tokens: real
    const maxTokens: real
    const refillRate: real
    var lastRefill: real
    /** The key this bucket was created for. */
    ghost const key: string

    function Settings(): Config {
      Config(maxTokens, refillRate)
    }

    ghost function Value(): Bucket
      reads this
    {
      Bucket(tokens, lastRefill)
    }

    constructor (maxTokens: real, refillRate: real, now: real, ghost key: string)
      ensures Settings() == Config(maxTokens, refillRate) && Value() == Full(Settings(), now) && this.key == key
    {
      this.key := key;
      tokens, lastRefill := maxTokens, now;
      this.maxTokens, this.refillRate := maxTokens, refillRate;
    }

    method RefillNow(now: real)
      modifies this
      ensures Value() == Refill(Settings(), old(Value()), now)
    {
      var elapsed := now - lastRefill;
      tokens := tokens + elapsed * refillRate;
      if tokens > maxTokens {
        tokens := maxTokens;
      }
      lastRefill := now;
    }

    method Allow(now: real) returns (ok: bool)
      modifies this
      ensures (Value(), ok) == Take(Settings(), old(Value()), now)
    {
      RefillNow(now);
      if tokens >= 1.0 {
        tokens := tokens - 1.0;
        return true;
      }
      return false;
    }

    method Tokens(now: real) returns (t: real)
      modifies this
      ensures Value() == Refill(Settings(), old(Value()), now) && t == tokens
    {
      RefillNow(now);
      return tokens;
    }
  }

  class RateLimiter {
    const config: Config
    var buckets: map<string, TokenBucket>

    /** Buckets are never shared between keys. */
    ghost predicate Valid()
      reads this`buckets, buckets.Values
    {
      forall k :: k in buckets ==> buckets[k].key == k && buckets[k].Settings() == config
    }

    ghost function Value(): Limiter
      reads this`buckets, buckets.Values
    {
      map k | k in buckets :: buckets[k].Value()
    }

    constructor (config: Config)
      ensures Valid() && Value() == map[] && this.config == config
    {
      this.config, buckets := config, map[];
    }

    method Allow(key: string, now: real) returns (ok: bool)
      requires Valid()
      modifies this, buckets.Values
      ensures Valid() && fresh(buckets.Values - old(buckets.Values))
      ensures (Value(), ok) == Apply(config, old(Value()), Event(Kind.Allow, key, now))
    {
      hide Take;
      var bucket := FindOrCreate(key, now);
      ghost var m := Value();
      ok := bucket.Allow(now);
      assert (bucket.Value(), ok) == Take(config, m[key], now);
      assert Value() == m[key := bucket.Value()] by {
        assert forall k :: k in m && k != key ==> buckets[k] != bucket && Value()[k] == m[k];
      }
      assert m[key := bucket.Value()] == old(Value())[key := bucket.Value()];
    }

    /** The part of Allow under the map lock. */
    method FindOrCreate(key: string, now: real) returns (bucket: TokenBucket)
      requires Valid()
      modifies this
      ensures Valid() && fresh(buckets.Values - old(buckets.Values)) && key in buckets && bucket == buckets[key]
      ensures Value() == old(Value())[key := Find(config, old(Value()), key, now)]
    {
      ghost var m := Value();
      if key !in buckets {
        bucket := new TokenBucket(config.burst, config.rate, now, key);
        buckets := buckets[key := bucket];
      }
      bucket := buckets[key];
      assert forall k :: k in m ==> Value()[k] == m[k];
    }

    /** One pass of the cleanup loop over one key. */
    method Sweep(key: string, now: real)
      requires Valid() && key in buckets
      modifies this, buckets.Values
      ensures Valid() && buckets.Values <= old(buckets.Values)
      ensures Value() == Apply(config, old(Value()), Event(Kind.Sweep, key, now)).0
    {
      ghost var m := Value();
      var bucket := buckets[key];
      var t := bucket.Tokens(now);
      assert forall k :: k in m && k != key ==> buckets[k] != bucket && buckets[k].Value() == m[k];
      if t >= bucket.maxTokens {
        buckets := buckets - {key};
      }
    }

    /** A cleanup pass: every key once, in any order, reading the clock anew for
        each. Exactly the buckets that are not full survive. */
    method Cleanup(clock: string -> real)
      requires Valid()
      modifies this, buckets.Values
      ensures Valid()
      ensures Value() == Swept(config, old(Value()), old(Value()).Keys, clock)
    {
      ghost var m, done := Value(), {};
      assert Swept(config, m, done, clock) == m;
      var todo := buckets.Keys;
      while todo != {}
        invariant Valid() && buckets.Values <= old(buckets.Values)
        invariant todo !! done && todo + done == m.Keys && Value() == Swept(config, m, done, clock)
        decreases todo
      {
        var key :| key in todo;
        SweepOne(config, m, done, clock, key);
        Sweep(key, clock(key));
        todo, done := todo - {key}, done + {key};
      }
    }
  }

  /** The limiter after the cleanup loop has been through the keys `done`. */
  function Swept(c: Config, m: Limiter, done: set<string>, clock: string -> real): Limiter {
    map k | k in m && (k in done ==> Refill(c, m[k], clock(k)).tokens < c.burst)
      :: if k in done then Refill(c, m[k], clock(k)) else m[k]
  }

  lemma SweepOne(c: Config, m: Limiter, done: set<string>, clock: string -> real, key: string)
    requires key in m && key !in done
    ensures key in Swept(c, m, done, clock)
    ensures Apply(c, Swept(c, m, done, clock), Event(Sweep, key, clock(key))).0 == Swept(c, m, done + {key}, clock)
  {
  }

  function SweepEvents(keys: seq<string>, clock: string -> real): seq<Event> {
    seq(|keys|, i requires 0 <= i < |keys| => Event(Sweep, keys[i], clock(keys[i])))
  }

  /** A cleanup pass is a run of Sweep events, whatever order the map is ranged
      in, so CleanupIsInvisible covers it. */
  lemma {:induction false} CleanupIsSweeps(c: Config, m: Limiter, keys: seq<string>, clock: string -> real)
    requires forall i, j :: 0 <= i < j < |keys| ==> keys[i] != keys[j]
    requires forall k :: k in keys ==> k in m
    ensures Final(c, m, SweepEvents(keys, clock)) == Swept(c, m, (set k | k in keys), clock)
    decreases |keys|
  {
    if |keys| > 0 {
      var init, last := keys[..|keys| - 1], keys[|keys| - 1];
      CleanupIsSweeps(c, m, init, clock);
      assert SweepEvents(keys, clock) == SweepEvents(init, clock) + [Event(Sweep, last, clock(last))];
      FinalAppend(c, m, SweepEvents(init, clock), Event(Sweep, last, clock(last)));
      SweepOne(c, m, (set k | k in init), clock, last);
      assert keys == init + [last];
      assert (set k | k in keys) == (set k | k in init) + {last};
    }
  }

  lemma {:induction false} FinalAppend(c: Config, m: Limiter, events: seq<Event>, e: Event)
    ensures Final(c, m, events + [e]) == Apply(c, Final(c, m, events), e).0
    decreases |events|
  {
    if |events| == 0 {
      assert events + [e] == [e] && [e][1..] == [];
      assert Final(c, Apply(c, m, e).0, []) == Apply(c, m, e).0;
    } else {
      assert (events + [e])[1..] == events[1..] + [e];
      FinalAppend(c, Apply(c, m, events[0]).0, events[1..], e);
    }
  }
}
