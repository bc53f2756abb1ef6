/** Sliding-window rate limiting with pruned timestamp lists
    (libs/middleware/ratelimit.go). Times are nanoseconds on a clock that never
    runs backwards. */
module SlidingWindow {
  datatype Config = Config(window: int, maxRequests: int)

  /** The timestamps kept for each key. */
  type Windows = map<string, seq<int>>

  /** Sweep is the cleanup loop looking at one key. */
  datatype Kind = Allow | Sweep

  datatype Event = Event(kind: Kind, key: string, at: int)

  // ---------------------------------------------------------------------
  // Filtering
  // ---------------------------------------------------------------------

  /** The elements strictly later than cutoff, in order. */
  function After(s: seq<int>, cutoff: int): seq<int> {
    if |s| == 0 then []
    else After(s[..|s| - 1], cutoff) + if s[|s| - 1] > cutoff then [s[|s| - 1]] else []
  }

  /** Elements of s in the half-open interval (from, to]. */
  function CountIn(s: seq<int>, from: int, to: int): nat {
    if |s| == 0 then 0
    else CountIn(s[..|s| - 1], from, to) + if from < s[|s| - 1] <= to then 1 else 0
  }

  ghost predicate Sorted(s: seq<int>) {
    forall i, j :: 0 <= i <= j < |s| ==> s[i] <= s[j]
  }

  lemma AfterAppend(s: seq<int>, x: int, cutoff: int)
    ensures After(s + [x], cutoff) == After(s, cutoff) + if x > cutoff then [x] else []
  {
  }

  lemma {:induction false} AfterAfter(s: seq<int>, c: int, d: int)
    requires c <= d
    ensures After(After(s, c), d) == After(s, d)
  {
    if |s| > 0 {
      var init, x := s[..|s| - 1], s[|s| - 1];
      AfterAfter(init, c, d);
      if x > c {
        AfterAppend(After(init, c), x, d);
      } else {
        assert After(s, c) == After(init, c) && After(s, d) == After(init, d);
      }
    }
  }

  lemma {:induction false} AfterNone(s: seq<int>, cutoff: int)
    requires forall i :: 0 <= i < |s| ==> s[i] <= cutoff
    ensures After(s, cutoff) == []
  {
    if |s| > 0 {
      AfterNone(s[..|s| - 1], cutoff);
    }
  }

  lemma {:induction false} AfterElements(s: seq<int>, cutoff: int)
    ensures forall x :: x in After(s, cutoff) ==> x in s && x > cutoff
    ensures Sorted(s) ==> Sorted(After(s, cutoff))
  {
    if |s| > 0 {
      var init, x := s[..|s| - 1], s[|s| - 1];
      AfterElements(init, cutoff);
      if Sorted(s) && x > cutoff {
        var kept := After(init, cutoff);
        forall k | 0 <= k < |kept| ensures kept[k] <= x {
          assert kept[k] in kept;
        }
      }
    }
  }

  // ---------------------------------------------------------------------
  // The limiter, and the reference that keeps every admission for ever
  // ---------------------------------------------------------------------

  function Kept(m: Windows, key: string): seq<int> {
    if key in m then m[key] else []
  }

  function Apply(c: Config, m: Windows, e: Event): (Windows, bool) {
    match e.kind
    case Allow =>
      var valid := After(Kept(m, e.key), e.at - c.window);
      if |valid| >= c.maxRequests then (m[e.key := valid], false)
      else (m[e.key := valid + [e.at]], true)
    case Sweep =>
      if e.key !in m then (m, false)
      else
        var w := m[e.key];
        if |w| == 0 || w[|w| - 1] < e.at - c.window * 2 then (m - {e.key}, false) else (m, false)
  }

  /** The reference: a request is admitted when fewer than maxRequests of all
      earlier admissions of its key lie inside the window. */
  function Decide(c: Config, history: seq<int>, now: int): bool {
    |After(history, now - c.window)| < c.maxRequests
  }

  function Remember(c: Config, h: Windows, e: Event): Windows {
    if e.kind.Allow? && Decide(c, Kept(h, e.key), e.at) then h[e.key := Kept(h, e.key) + [e.at]] else h
  }

  function Answers(c: Config, m: Windows, events: seq<Event>): seq<bool>
    decreases |events|
  {
    if |events| == 0 then []
    else
      var (m', ok) := Apply(c, m, events[0]);
      (if events[0].kind.Allow? then [ok] else []) + Answers(c, m', events[1..])
  }

  function Decisions(c: Config, h: Windows, events: seq<Event>): seq<bool>
    decreases |events|
  {
    if |events| == 0 then []
    else
      var e := events[0];
      (if e.kind.Allow? then [Decide(c, Kept(h, e.key), e.at)] else []) +
      Decisions(c, Remember(c, h, e), events[1..])
  }

  /** Every admission of a run, by key. */
  function History(c: Config, h: Windows, events: seq<Event>): Windows
    decreases |events|
  {
    if |events| == 0 then h else History(c, Remember(c, h, events[0]), events[1..])
  }

  /** The times at which a run of the pruned limiter admits a key. */
  function Admissions(c: Config, m: Windows, events: seq<Event>, key: string): seq<int>
    decreases |events|
  {
    if |events| == 0 then []
    else
      var e, (m', ok) := events[0], Apply(c, m, events[0]);
      (if e.key == key && ok then [e.at] else []) + Admissions(c, m', events[1..], key)
  }

  ghost predicate Clocked(from: int, events: seq<Event>)
    decreases |events|
  {
    |events| > 0 ==> from <= events[0].at && Clocked(events[0].at, events[1..])
  }

  /** The kept timestamps are the history as far as any later request can see. */
  ghost predicate AgreeOn(c: Config, kept: seq<int>, history: seq<int>, now: int) {
    Sorted(kept) && (forall t :: t in kept ==> t <= now) &&
    After(kept, now - c.window) == After(history, now - c.window)
  }

  ghost predicate Agree(c: Config, m: Windows, h: Windows, now: int) {
    forall k :: AgreeOn(c, Kept(m, k), Kept(h, k), now)
  }

  lemma SameView(c: Config, kept: seq<int>, history: seq<int>, now: int)
    requires AgreeOn(c, kept, history, now)
    ensures After(kept, now - c.window) == After(history, now - c.window)
  {
  }

  lemma AgreeLater(c: Config, m: Windows, h: Windows, s: int, t: int)
    requires s <= t && Agree(c, m, h, s)
    ensures Agree(c, m, h, t)
  {
    hide After, Sorted;
    forall k ensures AgreeOn(c, Kept(m, k), Kept(h, k), t) {
      assert AgreeOn(c, Kept(m, k), Kept(h, k), s);
      AfterAfter(Kept(m, k), s - c.window, t - c.window);
      AfterAfter(Kept(h, k), s - c.window, t - c.window);
    }
  }

  lemma PruneAgrees(c: Config, kept: seq<int>, history: seq<int>, now: int)
    requires AgreeOn(c, kept, history, now)
    ensures AgreeOn(c, After(kept, now - c.window), history, now)
  {
    hide After;
    AfterElements(kept, now - c.window);
    AfterAfter(kept, now - c.window, now - c.window);
  }

  lemma AdmitAgrees(c: Config, kept: seq<int>, history: seq<int>, now: int)
    requires AgreeOn(c, kept, history, now)
    ensures AgreeOn(c, kept + [now], history + [now], now)
  {
    hide After;
    SortedAppend(kept, now);
    AfterAppend(kept, now, now - c.window);
    AfterAppend(history, now, now - c.window);
  }

  lemma SortedAppend(s: seq<int>, x: int)
    requires Sorted(s) && forall t :: t in s ==> t <= x
    ensures Sorted(s + [x])
  {
    forall i | 0 <= i < |s| ensures s[i] <= x {
      assert s[i] in s;
    }
  }

  /** What is deleted is at most now and before now - 2 * window, hence before
      now - window whatever the sign of the window. */
  lemma SweepAgrees(c: Config, kept: seq<int>, history: seq<int>, now: int)
    requires AgreeOn(c, kept, history, now)
    requires |kept| == 0 || kept[|kept| - 1] < now - c.window * 2
    ensures AgreeOn(c, [], history, now)
  {
    forall i | 0 <= i < |kept| ensures kept[i] <= now - c.window {
      assert kept[i] in kept && kept[i] <= kept[|kept| - 1];
    }
    AfterNone(kept, now - c.window);
  }

  /** Neither pruning nor deletion loses a timestamp that still matters, for
      every window size and limit, zero and negative ones included. */
  lemma StepAgrees(c: Config, m: Windows, h: Windows, e: Event)
    requires Agree(c, m, h, e.at)
    ensures Agree(c, Apply(c, m, e).0, Remember(c, h, e), e.at)
    ensures e.kind.Allow? ==> Apply(c, m, e).1 == Decide(c, Kept(h, e.key), e.at)
  {
    hide After, AgreeOn;
    var w, hw := Kept(m, e.key), Kept(h, e.key);
    var m', h' := Apply(c, m, e).0, Remember(c, h, e);
    assert AgreeOn(c, w, hw, e.at);
    SameView(c, w, hw, e.at);
    assert AgreeOn(c, Kept(m', e.key), Kept(h', e.key), e.at) by {
      if e.kind.Allow? {
        PruneAgrees(c, w, hw, e.at);
        AdmitAgrees(c, After(w, e.at - c.window), hw, e.at);
      } else if e.key in m && e.key !in m' {
        SweepAgrees(c, w, hw, e.at);
      }
    }
    forall k | k != e.key ensures AgreeOn(c, Kept(m', k), Kept(h', k), e.at) {
      assert AgreeOn(c, Kept(m, k), Kept(h, k), e.at);
    }
  }

  /** The pruned limiter answers every request as the full history would,
      wherever cleanup runs. */
  lemma {:induction false} PruningIsInvisible(c: Config, m: Windows, h: Windows, now: int, events: seq<Event>)
    requires Clocked(now, events) && Agree(c, m, h, now)
    ensures Answers(c, m, events) == Decisions(c, h, events)
    decreases |events|
  {
    if |events| > 0 {
      var e := events[0];
      AgreeLater(c, m, h, now, e.at);
      StepAgrees(c, m, h, e);
      PruningIsInvisible(c, Apply(c, m, e).0, Remember(c, h, e), e.at, events[1..]);
    }
  }

  // ---------------------------------------------------------------------
  // At most maxRequests in every window
  // ---------------------------------------------------------------------

  /** Admission j found fewer than maxRequests before it in its window. */
  ghost predicate Admissible(c: Config, s: seq<int>, j: nat)
    requires j < |s|
  {
    |After(s[..j], s[j] - c.window)| < c.maxRequests
  }

  ghost predicate Legal(c: Config, s: seq<int>) {
    Sorted(s) && forall j: nat :: j < |s| ==> Admissible(c, s, j)
  }

  lemma {:induction false} CountWithin(s: seq<int>, x: int, y: int, cutoff: int)
    requires cutoff <= x
    ensures CountIn(s, x, y) <= |After(s, cutoff)|
  {
    if |s| > 0 {
      CountWithin(s[..|s| - 1], x, y, cutoff);
    }
  }

  lemma LegalPrefix(c: Config, s: seq<int>)
    requires Legal(c, s) && |s| > 0
    ensures Legal(c, s[..|s| - 1])
    ensures Admissible(c, s, |s| - 1)
  {
    var init := s[..|s| - 1];
    forall j: nat | j < |init| ensures Admissible(c, init, j) {
      assert Admissible(c, s, j) && init[..j] == s[..j];
    }
  }

  lemma LegalAppend(c: Config, s: seq<int>, now: int)
    requires Legal(c, s) && (forall t :: t in s ==> t <= now) && Decide(c, s, now)
    ensures Legal(c, s + [now])
  {
    var s' := s + [now];
    SortedAppend(s, now);
    forall j: nat | j < |s'| ensures Admissible(c, s', j) {
      if j < |s| {
        assert Admissible(c, s, j) && s'[..j] == s[..j];
      } else {
        assert s'[..j] == s;
      }
    }
  }

  lemma {:induction false} LegalIsBounded(c: Config, s: seq<int>, x: int)
    requires Legal(c, s)
    ensures CountIn(s, x, x + c.window) <= if c.maxRequests > 0 then c.maxRequests else 0
  {
    if |s| > 0 {
      var init, t := s[..|s| - 1], s[|s| - 1];
      LegalPrefix(c, s);
      if x < t <= x + c.window {
        CountWithin(init, x, x + c.window, t - c.window);
      } else {
        LegalIsBounded(c, init, x);
      }
    }
  }

  lemma {:induction false} HistoryIsLegal(c: Config, h: Windows, now: int, events: seq<Event>, key: string)
    requires Clocked(now, events)
    requires Legal(c, Kept(h, key)) && forall t :: t in Kept(h, key) ==> t <= now
    ensures Legal(c, Kept(History(c, h, events), key))
    decreases |events|
  {
    if |events| > 0 {
      var e := events[0];
      var s, s' := Kept(h, key), Kept(Remember(c, h, e), key);
      if s' != s {
        LegalAppend(c, s, e.at);
      }
      HistoryIsLegal(c, Remember(c, h, e), e.at, events[1..], key);
    }
  }

  /** The admissions of the pruned limiter are exactly the history, wherever
      cleanup runs. */
  lemma {:induction false} AdmissionsAreHistory(
    c: Config, m: Windows, h: Windows, now: int, events: seq<Event>, key: string)
    requires Clocked(now, events) && Agree(c, m, h, now)
    ensures Kept(History(c, h, events), key) == Kept(h, key) + Admissions(c, m, events, key)
    decreases |events|
  {
    hide After, AgreeOn, Decide;
    if |events| > 0 {
      var e := events[0];
      var m', h' := Apply(c, m, e).0, Remember(c, h, e);
      AgreeLater(c, m, h, now, e.at);
      StepAgrees(c, m, h, e);
      AdmissionsAreHistory(c, m', h', e.at, events[1..], key);
    }
  }

  lemma {:induction false} AfterCounts(s: seq<int>, from: int, to: int)
    requires forall t :: t in s ==> t <= to
    ensures |After(s, from)| == CountIn(s, from, to)
  {
    if |s| > 0 {
      var init := s[..|s| - 1];
      assert s[|s| - 1] in s;
      forall t | t in init ensures t <= to {
        assert t in s;
      }
      AfterCounts(init, from, to);
    }
  }

  /** The limiter after a run. */
  function Final(c: Config, m: Windows, events: seq<Event>): Windows
    decreases |events|
  {
    if |events| == 0 then m else Final(c, Apply(c, m, events[0]).0, events[1..])
  }

  lemma RememberInPast(c: Config, h: Windows, e: Event, key: string)
    requires forall t :: t in Kept(h, key) ==> t <= e.at
    ensures forall t :: t in Kept(Remember(c, h, e), key) ==> t <= e.at
  {
    hide Decide;
    forall t | t in Kept(Remember(c, h, e), key) ensures t <= e.at {
      assert t in Kept(h, key) || t == e.at;
    }
  }

  lemma {:induction false} RunAgrees(
    c: Config, m: Windows, h: Windows, now: int, events: seq<Event>, key: string, at: int)
    requires Clocked(now, events) && Agree(c, m, h, now) && now <= at
    requires forall i :: 0 <= i < |events| ==> events[i].at <= at
    requires forall t :: t in Kept(h, key) ==> t <= now
    ensures Agree(c, Final(c, m, events), History(c, h, events), at)
    ensures forall t :: t in Kept(History(c, h, events), key) ==> t <= at
    decreases |events|
  {
    hide Agree, Decide;
    if |events| == 0 {
      AgreeLater(c, m, h, now, at);
    } else {
      var e, rest := events[0], events[1..];
      assert forall i :: 0 <= i < |rest| ==> rest[i] == events[i + 1];
      AgreeLater(c, m, h, now, e.at);
      StepAgrees(c, m, h, e);
      RememberInPast(c, h, e, key);
      RunAgrees(c, Apply(c, m, e).0, Remember(c, h, e), e.at, rest, key, at);
    }
  }

  /** After every run from the empty limiter, cleanup included, a request is
      admitted exactly when fewer than maxRequests of the admissions made for its
      key lie in the window that ends with it. */
  lemma AllowIsExact(c: Config, now: int, events: seq<Event>, key: string, at: int)
    requires Clocked(now, events) && now <= at && forall i :: 0 <= i < |events| ==> events[i].at <= at
    ensures Apply(c, Final(c, map[], events), Event(Allow, key, at)).1 <==>
      CountIn(Admissions(c, map[], events, key), at - c.window, at) < c.maxRequests
  {
    hide Agree, After, Final, History, Admissions, CountIn;
    EmptyAgrees(c, now);
    RunAgrees(c, map[], map[], now, events, key, at);
    AdmissionsAreHistory(c, map[], map[], now, events, key);
    assert Kept(map[], key) + Admissions(c, map[], events, key) == Admissions(c, map[], events, key);
    StepAgrees(c, Final(c, map[], events), History(c, map[], events), Event(Allow, key, at));
    AfterCounts(Kept(History(c, map[], events), key), at - c.window, at);
  }

  lemma EmptyAgrees(c: Config, now: int)
    ensures Agree(c, map[], map[], now)
  {
  }

  /** In every run no half-open interval as long as the window holds more than
      maxRequests admissions of a key. */
  lemma WindowIsRespected(c: Config, now: int, events: seq<Event>, key: string, x: int)
    requires Clocked(now, events)
    ensures CountIn(Admissions(c, map[], events, key), x, x + c.window) <=
            if c.maxRequests > 0 then c.maxRequests else 0
  {
    AdmissionsAreHistory(c, map[], map[], now, events, key);
    assert Kept(map[], key) + Admissions(c, map[], events, key) == Admissions(c, map[], events, key);
    HistoryIsLegal(c, map[], now, events, key);
    LegalIsBounded(c, Kept(History(c, map[], events), key), x);
  }

  /** Cleanup does delete: of one key it leaves nothing exactly when its latest
      admission on record is more than two windows ago, or it has none, and it
      touches no other key. */
  lemma SweepDeletesStale(c: Config, m: Windows, key: string, at: int)
    ensures var m' := Apply(c, m, Event(Sweep, key, at)).0;
      (key in m' <==> key in m && |m[key]| > 0 && m[key][|m[key]| - 1] >= at - 2 * c.window) &&
      forall k :: (k != key || k in m') ==> (k in m' <==> k in m) && (k in m ==> m'[k] == m[k])
  {
  }

  // ---------------------------------------------------------------------
  // The objects
  // ---------------------------------------------------------------------

  class Window {
    var requests: seq<int>
    /** The key this window was created for. */
    ghost const key: string

    constructor (ghost key: string)
      ensures requests == [] && this.key == key
    {
      requests := [];
      this.key := key;
    }

    method Admit(c: Config, now: int) returns (ok: bool)
      modifies this
      ensures ok <==> Decide(c, old(requests), now)
      ensures requests == After(old(requests), now - c.window) + if ok then [now] else []
    {
      var cutoff := now - c.window;
      var validRequests := [];
      for i := 0 to |requests|
        invariant requests == old(requests) && validRequests == After(requests[..i], cutoff)
      {
        assert requests[..i + 1][..i] == requests[..i];
        if requests[i] > cutoff {
          validRequests := validRequests + [requests[i]];
        }
      }
      assert requests[..|requests|] == requests;
      requests := validRequests;
      if |requests| >= c.maxRequests {
        return false;
      }
      requests := requests + [now];
      return true;
    }
  }

  class SlidingWindowLimiter {
    const config: Config
    var windows: map<string, Window>

    ghost predicate Valid()
      reads this, windows.Values
    {
      forall k :: k in windows ==> windows[k].key == k
    }

    ghost function Value(): Windows
      reads this, windows.Values
    {
      map k | k in windows :: windows[k].requests
    }

    constructor (config: Config)
      ensures Valid() && Value() == map[] && this.config == config
    {
      this.config, windows := config, map[];
    }

    method Allow(key: string, now: int) returns (ok: bool)
      requires Valid()
      modifies this, windows.Values
      ensures Valid() && fresh(windows.Values - old(windows.Values))
      ensures (Value(), ok) == Apply(config, old(Value()), Event(Kind.Allow, key, now))
    {
      hide After;
      var window := FindOrCreate(key);
      ghost var m := Value();
      ok := window.Admit(config, now);
      assert After(m[key], now - config.window) + [] == After(m[key], now - config.window);
      assert Value() == m[key := window.requests] by {
        assert forall k :: k in m && k != key ==> windows[k] != window && Value()[k] == m[k];
      }
      assert m[key := window.requests] == old(Value())[key := window.requests];
    }

    /** The part of Allow under the map lock. */
    method FindOrCreate(key: string) returns (window: Window)
      requires Valid()
      modifies this
      ensures Valid() && fresh(windows.Values - old(windows.Values)) && key in windows && window == windows[key]
      ensures Value() == old(Value())[key := Kept(old(Value()), key)]
    {
      ghost var m := Value();
      if key !in windows {
        window := new Window(key);
        windows := windows[key := window];
      }
      window := windows[key];
      assert forall k :: k in m ==> Value()[k] == m[k];
    }

    /** One pass of the cleanup loop over one key. */
    method Sweep(key: string, now: int)
      requires Valid() && key in windows
      modifies this`windows
      ensures Valid() && windows.Values <= old(windows.Values)
      ensures Value() == Apply(config, old(Value()), Event(Kind.Sweep, key, now)).0
    {
      ghost var m := Value();
      var requests := windows[key].requests;
      assert m[key] == requests;
      if |requests| == 0 {
        windows := windows - {key};
      } else if requests[|requests| - 1] < now - config.window * 2 {
        windows := windows - {key};
      }
    }

    /** A cleanup pass, in any order of the keys; the cutoff is read once.
        Exactly the windows that are empty or whose latest request is older than
        two window sizes go; the others are untouched. */
    method Cleanup(now: int)
      requires Valid()
      modifies this`windows
      ensures Valid()
      ensures Value() == Swept(config, old(Value()), old(Value()).Keys, now)
    {
      ghost var m, done := Value(), {};
      assert Swept(config, m, done, now) == m;
      var todo := windows.Keys;
      while todo != {}
        invariant Valid() && todo !! done && todo + done == m.Keys
        invariant Value() == Swept(config, m, done, now)
        decreases todo
      {
        var key :| key in todo;
        SweepOne(config, m, done, now, key);
        assert key in Value();
        Sweep(key, now);
        todo, done := todo - {key}, done + {key};
      }
    }
  }

  ghost predicate Stale(c: Config, w: seq<int>, now: int) {
    forall t :: t in w ==> t < now - c.window * 2
  }

  ghost function Swept(c: Config, m: Windows, done: set<string>, now: int): Windows {
    map k | k in m && !(k in done && (m[k] == [] || m[k][|m[k]| - 1] < now - c.window * 2)) :: m[k]
  }

  lemma SweepOne(c: Config, m: Windows, done: set<string>, now: int, key: string)
    requires key in m && key !in done
    ensures key in Swept(c, m, done, now)
    ensures Apply(c, Swept(c, m, done, now), Event(Sweep, key, now)).0 == Swept(c, m, done + {key}, now)
  {
  }

  /** Looking at the last timestamp is enough: a sorted window goes exactly when
      all of it is stale. */
  lemma SweptAreStale(c: Config, m: Windows, now: int, key: string)
    requires key in m && Sorted(m[key])
    ensures key !in Swept(c, m, m.Keys, now) <==> Stale(c, m[key], now)
  {
    var w := m[key];
    if |w| > 0 {
      assert w[|w| - 1] in w;
      assert forall t :: t in w ==> t <= w[|w| - 1];
    }
  }
}
