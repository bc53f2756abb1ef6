/** A timed circuit breaker (libs/gateway/circuit_breaker.go) under the call
    discipline of the gateway: each admitted call reports at most once
    (libs/gateway/gateway.go). Times are nanoseconds on a clock that never runs
    backwards. */
module CircuitBreaker {
  import opened Sums

  datatype Config = Config(maxFailures: int, timeout: int, halfOpenRequests: int, successThreshold: int)

  datatype CircuitState = Closed | Open | HalfOpen

  datatype Breaker = Breaker(
    state: CircuitState, failures: int, successes: int, halfOpenRequests: int, lastFailure: int)

  const INITIAL: Breaker := Breaker(Closed, 0, 0, 0, 0)

  function Max(x: int, y: int): int {
    if x >= y then x else y
  }

  function Switched(b: Breaker, state: CircuitState): Breaker {
    if b.state == state then b else Breaker(state, 0, 0, 0, b.lastFailure)
  }

  function Admission(c: Config, b: Breaker, now: int): (Breaker, bool) {
    match b.state
    case Closed => (b, true)
    case Open =>
      if now - b.lastFailure > c.timeout then (Switched(b, HalfOpen).(halfOpenRequests := 1), true) else (b, false)
    case HalfOpen =>
      if b.halfOpenRequests < c.halfOpenRequests then (b.(halfOpenRequests := b.halfOpenRequests + 1), true)
      else (b, false)
  }

  function AfterSuccess(c: Config, b: Breaker): Breaker {
    match b.state
    case Closed => b.(failures := 0)
    case HalfOpen =>
      var b' := b.(successes := b.successes + 1);
      if b'.successes >= c.successThreshold then Switched(b', Closed) else b'
    case Open => b
  }

  function AfterFailure(c: Config, b: Breaker, now: int): Breaker {
    var b' := b.(lastFailure := now);
    match b.state
    case Closed =>
      var b'' := b'.(failures := b'.failures + 1);
      if b''.failures >= c.maxFailures then Switched(b'', Open) else b''
    case HalfOpen => Switched(b', Open)
    case Open => b'
  }

  function AfterReset(b: Breaker): Breaker {
    Breaker(Closed, 0, 0, 0, b.lastFailure)
  }

  // ---------------------------------------------------------------------
  // Any history of calls, reports and resets
  // ---------------------------------------------------------------------

  datatype Event = Ask(at: int) | Succeed(at: int) | Fail(at: int) | ResetNow(at: int)

  /** An event, the states around it, and whether it was an admission. */
  datatype Record = Record(event: Event, before: CircuitState, after: CircuitState, admitted: bool)

  function Apply(c: Config, b: Breaker, e: Event): Breaker {
    match e
    case Ask(at) => Admission(c, b, at).0
    case Succeed(_) => AfterSuccess(c, b)
    case Fail(at) => AfterFailure(c, b, at)
    case ResetNow(_) => AfterReset(b)
  }

  function Log(c: Config, b: Breaker, e: Event): Record {
    Record(e, b.state, Apply(c, b, e).state, e.Ask? && Admission(c, b, e.at).1)
  }

  function Final(c: Config, events: seq<Event>): Breaker {
    if |events| == 0 then INITIAL else Apply(c, Final(c, events[..|events| - 1]), events[|events| - 1])
  }

  function History(c: Config, events: seq<Event>): seq<Record> {
    if |events| == 0 then []
    else
      History(c, events[..|events| - 1]) + [Log(c, Final(c, events[..|events| - 1]), events[|events| - 1])]
  }

  ghost predicate Clocked(events: seq<Event>) {
    forall i, j :: 0 <= i < j < |events| ==> events[i].at <= events[j].at
  }

  /** Failures recorded since the latest success, reset or entry to Closed. */
  function Streak(h: seq<Record>): nat {
    if |h| == 0 then 0
    else
      var r := h[|h| - 1];
      if r.event.Succeed? || r.event.ResetNow? || (r.before != Closed && r.after == Closed) then 0
      else Streak(h[..|h| - 1]) + if r.event.Fail? then 1 else 0
  }

  /** While Closed the failure counter is the streak, and the breaker opens with
      exactly the failure that completes it. A limit below one acts as one. */
  lemma {:induction false} OpensAtStreak(c: Config, events: seq<Event>)
    ensures |History(c, events)| == |events|
    ensures Final(c, events).state == Closed ==>
      Final(c, events).failures == Streak(History(c, events)) < Max(1, c.maxFailures)
    ensures forall i :: 0 <= i < |events| && History(c, events)[i].before == Closed ==>
      (History(c, events)[i].after != Closed <==> Streak(History(c, events)[..i + 1]) == Max(1, c.maxFailures))
  {
    if |events| > 0 {
      var init, e := events[..|events| - 1], events[|events| - 1];
      OpensAtStreak(c, init);
      var h := History(c, events);
      assert h[..|h| - 1] == History(c, init) && h[..|h|] == h;
      forall i | 0 <= i < |events| && h[i].before == Closed
        ensures h[i].after != Closed <==> Streak(h[..i + 1]) == Max(1, c.maxFailures)
      {
        if i < |init| {
          assert h[..i + 1] == History(c, init)[..i + 1];
        }
      }
    }
  }

  /** The last failure time is that of the latest failure recorded. */
  lemma {:induction false} LastFailureIsLatest(c: Config, events: seq<Event>)
    requires Clocked(events)
    ensures forall i :: 0 <= i < |events| && events[i].Fail? ==> events[i].at <= Final(c, events).lastFailure
    ensures Final(c, events).state == Open ==>
      exists i :: 0 <= i < |events| && events[i].Fail? && events[i].at == Final(c, events).lastFailure
  {
    if |events| > 0 {
      var init, n := events[..|events| - 1], |events| - 1;
      LastFailureIsLatest(c, init);
      assert forall i :: 0 <= i < n ==> init[i] == events[i];
      if Final(c, events).state == Open {
        if events[n].Fail? {
          assert events[n].at == Final(c, events).lastFailure;
        } else {
          var i :| 0 <= i < |init| && init[i].Fail? && init[i].at == Final(c, init).lastFailure;
          assert events[i].Fail?;
        }
      }
    }
  }

  /** From Open a call is admitted exactly when every failure ever recorded is
      more than the timeout ago, late reports included. */
  lemma {:induction false} AdmittedFromOpen(c: Config, events: seq<Event>, now: int)
    requires Clocked(events) && Final(c, events).state == Open
    ensures Admission(c, Final(c, events), now).1 <==>
      forall i :: 0 <= i < |events| && events[i].Fail? ==> now - events[i].at > c.timeout
  {
    LastFailureIsLatest(c, events);
  }

  // ---------------------------------------------------------------------
  // The breaker as a function of what has happened
  // ---------------------------------------------------------------------

  predicate Enters(r: Record) {
    r.before != HalfOpen && r.after == HalfOpen
  }

  /** Calls admitted since half-open was entered, the one that entered it included. */
  function Probes(h: seq<Record>): nat {
    if |h| == 0 then 0
    else
      var r := h[|h| - 1];
      (if Enters(r) then 0 else Probes(h[..|h| - 1])) + if r.event.Ask? && r.admitted then 1 else 0
  }

  /** Successes recorded since half-open was entered. */
  function ProbeSuccesses(h: seq<Record>): nat {
    if |h| == 0 then 0
    else
      var r := h[|h| - 1];
      if Enters(r) then 0 else ProbeSuccesses(h[..|h| - 1]) + if r.event.Succeed? then 1 else 0
  }

  /** No failure on record is as recent as the timeout. */
  ghost predicate TimedOut(c: Config, h: seq<Record>, now: int) {
    forall i :: 0 <= i < |h| && h[i].event.Fail? ==> now - h[i].event.at > c.timeout
  }

  predicate Repeats(r: Record) {
    r.after == r.before && !r.admitted
  }

  /** What record i may say, in terms of the records before it:
      - a closed breaker admits every call; it opens with the failure that
        completes a streak of max(1, MaxFailures);
      - an open breaker goes half-open, and admits, exactly once no failure is
        as recent as the timeout; reports leave it open;
      - a half-open breaker admits while fewer than HalfOpenRequests calls have
        been admitted since it was entered, opens with any failure, and closes
        with the success that completes max(1, SuccessThreshold);
      - a reset closes it. */
  ghost predicate Lawful(c: Config, h: seq<Record>, i: nat)
    requires i < |h|
  {
    var r := h[i];
    r.before == (if i == 0 then Closed else h[i - 1].after) &&
    match (r.before, r.event)
    case (_, ResetNow(_)) => r.after == Closed && !r.admitted
    case (Closed, Ask(_)) => r.after == Closed && r.admitted
    case (Closed, Succeed(_)) => Repeats(r)
    case (Closed, Fail(_)) =>
      !r.admitted && r.after == if Streak(h[..i]) + 1 >= c.maxFailures then Open else Closed
    case (Open, Ask(now)) =>
      if TimedOut(c, h[..i], now) then r.after == HalfOpen && r.admitted else Repeats(r)
    case (Open, _) => Repeats(r)
    case (HalfOpen, Ask(_)) => r.after == HalfOpen && (r.admitted <==> Probes(h[..i]) < c.halfOpenRequests)
    case (HalfOpen, Succeed(_)) =>
      !r.admitted && r.after == if ProbeSuccesses(h[..i]) + 1 >= c.successThreshold then Closed else HalfOpen
    case (HalfOpen, Fail(_)) => !r.admitted && r.after == Open
  }

  /** The counters count what they are meant to, whatever the history. */
  ghost predicate Counts(b: Breaker, h: seq<Record>) {
    b.state == (if |h| == 0 then Closed else h[|h| - 1].after) &&
    (b.state == Closed ==> b.failures == Streak(h)) &&
    (b.state == HalfOpen ==> b.halfOpenRequests == Probes(h) && b.successes == ProbeSuccesses(h))
  }

  lemma {:induction false} HistoryEvents(c: Config, events: seq<Event>)
    ensures |History(c, events)| == |events|
    ensures forall i :: 0 <= i < |events| ==> History(c, events)[i].event == events[i]
  {
    if |events| > 0 {
      HistoryEvents(c, events[..|events| - 1]);
    }
  }

  lemma LastRecord(c: Config, events: seq<Event>)
    requires Clocked(events) && |events| > 0
    requires Counts(Final(c, events[..|events| - 1]), History(c, events[..|events| - 1]))
    ensures |History(c, events)| == |events| && Lawful(c, History(c, events), |events| - 1)
    ensures Counts(Final(c, events), History(c, events))
  {
    var n := |events| - 1;
    var init, e := events[..n], events[n];
    var h, h' := History(c, init), History(c, events);
    HistoryEvents(c, init);
    assert h' == h + [Log(c, Final(c, init), e)] && h'[..n] == h;
    if Final(c, init).state == Open && e.Ask? {
      AdmittedFromOpen(c, init, e.at);
      assert TimedOut(c, h, e.at) <==> forall i :: 0 <= i < n && init[i].Fail? ==> e.at - init[i].at > c.timeout by {
        assert forall i :: 0 <= i < n ==> h[i].event == init[i];
      }
    }
  }

  /** Every record of every history is lawful. */
  lemma {:induction false} HistoryIsLawful(c: Config, events: seq<Event>)
    requires Clocked(events)
    ensures |History(c, events)| == |events| && Counts(Final(c, events), History(c, events))
    ensures forall i: nat :: i < |events| ==> Lawful(c, History(c, events), i)
  {
    hide Lawful, Counts, Final;
    if |events| == 0 {
      assert Counts(Final(c, events), History(c, events)) by { NoCounts(c); }
    } else {
      var n := |events| - 1;
      HistoryIsLawful(c, events[..n]);
      LastRecord(c, events);
      var h, h' := History(c, events[..n]), History(c, events);
      forall i: nat | i < n ensures Lawful(c, h', i) {
        assert Lawful(c, h, i);
        assert h'[..i + 1] == h[..i + 1] by { assert h' == h + [h'[n]]; }
        SamePast(c, h, h', i);
      }
    }
  }

  lemma NoCounts(c: Config)
    ensures Counts(Final(c, []), History(c, []))
  {
  }

  lemma SamePast(c: Config, h: seq<Record>, g: seq<Record>, i: nat)
    requires i < |h| && i < |g| && h[..i + 1] == g[..i + 1] && Lawful(c, h, i)
    ensures Lawful(c, g, i)
  {
    assert h[..i] == h[..i + 1][..i] && g[..i] == g[..i + 1][..i];
    assert h[i] == h[..i + 1][i] && g[i] == g[..i + 1][i];
    assert i > 0 ==> h[i - 1] == h[..i + 1][i - 1] && g[i - 1] == g[..i + 1][i - 1];
  }

  /** The laws fix a record by its event and the records before it. */
  lemma SameRecord(c: Config, h: seq<Record>, g: seq<Record>, i: nat)
    requires i < |h| && i < |g| && h[..i] == g[..i] && h[i].event == g[i].event
    requires Lawful(c, h, i) && Lawful(c, g, i)
    ensures h[i] == g[i]
  {
    assert i > 0 ==> h[i - 1] == h[..i][i - 1] && g[i - 1] == g[..i][i - 1];
  }

  /** And the laws leave nothing open: there is no other lawful history of the
      same events. */
  lemma {:induction false} LawsDetermineHistory(c: Config, events: seq<Event>, h: seq<Record>)
    requires Clocked(events) && |h| == |events|
    requires forall i: nat :: i < |h| ==> h[i].event == events[i] && Lawful(c, h, i)
    ensures h == History(c, events)
  {
    hide Lawful, Counts;
    if |h| > 0 {
      var n := |h| - 1;
      var init, g := h[..n], History(c, events);
      forall i: nat | i < n ensures init[i].event == events[..n][i] && Lawful(c, init, i) {
        assert h[i].event == events[i] && Lawful(c, h, i);
        SamePast(c, h, init, i);
      }
      LawsDetermineHistory(c, events[..n], init);
      HistoryIsLawful(c, events);
      HistoryEvents(c, events);
      assert g[..n] == init && h[n].event == events[n] && g[n].event == events[n];
      SameRecord(c, h, g, n);
      assert h == init + [h[n]] && g == init + [g[n]];
    }
  }

  // ---------------------------------------------------------------------
  // Half-open episodes under the gateway's discipline
  // ---------------------------------------------------------------------

  /** An admitted call: the phase it was admitted in, and whether it has
      reported. A phase ends when the state changes. */
  datatype Probe = Probe(phase: nat, reported: bool)

  datatype System = System(breaker: Breaker, phase: nat, now: int, probes: seq<Probe>)

  datatype Action = Call(at: int) | Report(probe: nat, ok: bool, at: int) | Restart(at: int)

  const START: System := System(INITIAL, 0, 0, [])

  predicate Enabled(s: System, a: Action) {
    a.at >= s.now && (a.Report? ==> a.probe < |s.probes| && !s.probes[a.probe].reported)
  }

  function Moved(s: System, b: Breaker, at: int): System {
    s.(breaker := b, phase := if b.state == s.breaker.state then s.phase else s.phase + 1, now := at)
  }

  function Step(c: Config, s: System, a: Action): System
    requires Enabled(s, a)
  {
    match a
    case Call(at) =>
      var (b, ok) := Admission(c, s.breaker, at);
      var s' := Moved(s, b, at);
      if ok then s'.(probes := s'.probes + [Probe(s'.phase, false)]) else s'
    case Report(i, ok, at) =>
      var b := if ok then AfterSuccess(c, s.breaker) else AfterFailure(c, s.breaker, at);
      Moved(s, b, at).(probes := s.probes[i := s.probes[i].(reported := true)])
    case Restart(at) => Moved(s, AfterReset(s.breaker), at)
  }

  function InPhase(phase: nat): Probe -> int {
    (p: Probe) => if p.phase == phase then 1 else 0
  }

  function ReportedIn(phase: nat): Probe -> int {
    (p: Probe) => if p.phase == phase && p.reported then 1 else 0
  }

  ghost predicate Outstanding(s: System, i: nat) {
    i < |s.probes| && s.probes[i].phase == s.phase && !s.probes[i].reported
  }

  ghost predicate PastPhases(s: System) {
    forall i :: 0 <= i < |s.probes| ==> s.probes[i].phase <= s.phase
  }

  /** In a half-open episode the request counter counts the episode's probes,
      and late reports can only add to the successes of its own. */
  ghost predicate Inv(c: Config, s: System) {
    PastPhases(s) &&
    (s.breaker.state == HalfOpen ==>
      s.breaker.halfOpenRequests == Total(s.probes, InPhase(s.phase)) &&
      1 <= s.breaker.halfOpenRequests <= Max(1, c.halfOpenRequests) &&
      Total(s.probes, ReportedIn(s.phase)) <= s.breaker.successes < Max(1, c.successThreshold))
  }

  lemma NoneInFuture(s: System, phase: nat)
    requires PastPhases(s) && phase > s.phase
    ensures Total(s.probes, InPhase(phase)) == 0 && Total(s.probes, ReportedIn(phase)) == 0
  {
    TotalConstant(s.probes, 0, InPhase(phase));
    TotalConstant(s.probes, 0, ReportedIn(phase));
  }

  lemma CallKeepsInv(c: Config, s: System, at: int)
    requires Inv(c, s) && at >= s.now
    ensures Inv(c, Step(c, s, Call(at)))
  {
    var s' := Step(c, s, Call(at));
    var p := Probe(s'.phase, false);
    NoneInFuture(s, s.phase + 1);
    TotalAppend(s.probes, p, InPhase(s'.phase));
    TotalAppend(s.probes, p, ReportedIn(s'.phase));
  }

  lemma ReportKeepsInv(c: Config, s: System, i: nat, ok: bool, at: int)
    requires Inv(c, s) && Enabled(s, Report(i, ok, at))
    ensures Inv(c, Step(c, s, Report(i, ok, at)))
  {
    var s' := Step(c, s, Report(i, ok, at));
    var p := s.probes[i].(reported := true);
    assert PastPhases(s');
    if s'.breaker.state == HalfOpen {
      assert s.breaker.state == HalfOpen && s'.phase == s.phase && ok;
      TotalUpdate(s.probes, i, p, InPhase(s.phase));
      TotalUpdate(s.probes, i, p, ReportedIn(s.phase));
    }
  }

  lemma StepKeepsInv(c: Config, s: System, a: Action)
    requires Inv(c, s) && Enabled(s, a)
    ensures Inv(c, Step(c, s, a))
  {
    match a {
      case Call(at) => CallKeepsInv(c, s, at);
      case Report(i, ok, at) => ReportKeepsInv(c, s, i, ok, at);
      case Restart(_) =>
    }
  }

  ghost predicate IsRun(c: Config, states: seq<System>, actions: seq<Action>) {
    |states| == |actions| + 1 && states[0] == START &&
    forall k :: 0 <= k < |actions| ==> Enabled(states[k], actions[k]) && states[k + 1] == Step(c, states[k], actions[k])
  }

  ghost predicate Reachable(c: Config, s: System) {
    exists states, actions :: IsRun(c, states, actions) && states[|actions|] == s
  }

  lemma {:induction false} RunKeepsInv(c: Config, states: seq<System>, actions: seq<Action>, k: nat)
    requires IsRun(c, states, actions) && k <= |actions|
    ensures Inv(c, states[k])
  {
    if k > 0 {
      RunKeepsInv(c, states, actions, k - 1);
      StepKeepsInv(c, states[k - 1], actions[k - 1]);
    }
  }

  lemma ReachableInv(c: Config, s: System)
    requires Reachable(c, s)
    ensures Inv(c, s)
  {
    var states, actions :| IsRun(c, states, actions) && states[|actions|] == s;
    RunKeepsInv(c, states, actions, |actions|);
  }

  lemma ReachableStep(c: Config, s: System, a: Action)
    requires Reachable(c, s) && Enabled(s, a)
    ensures Reachable(c, Step(c, s, a))
  {
    var states, actions :| IsRun(c, states, actions) && states[|actions|] == s;
    var states', actions' := states + [Step(c, s, a)], actions + [a];
    assert IsRun(c, states', actions');
    assert states'[|actions'|] == Step(c, s, a);
  }

  /** A half-open episode never admits more than HalfOpenRequests calls; the one
      that opens the episode is always admitted. */
  lemma EpisodeIsBounded(c: Config, s: System)
    requires Reachable(c, s) && s.breaker.state == HalfOpen
    ensures Total(s.probes, InPhase(s.phase)) <= Max(1, c.halfOpenRequests)
  {
    ReachableInv(c, s);
  }

  /** No half-open state refuses a call for good: the next call is admitted, or
      a probe of this episode has still to report. */
  ghost predicate Live(c: Config, s: System) {
    s.breaker.state == HalfOpen ==>
      Admission(c, s.breaker, s.now).1 || exists i :: Outstanding(s, i)
  }

  lemma ReachableIsLive(c: Config, s: System)
    requires Reachable(c, s) && c.successThreshold <= Max(1, c.halfOpenRequests)
    ensures Live(c, s)
  {
    ReachableInv(c, s);
    if s.breaker.state == HalfOpen && !Admission(c, s.breaker, s.now).1 && !exists i :: Outstanding(s, i) {
      forall k | 0 <= k < |s.probes| ensures InPhase(s.phase)(s.probes[k]) <= ReportedIn(s.phase)(s.probes[k]) {
        assert !Outstanding(s, k);
      }
      TotalMonotone(s.probes, InPhase(s.phase), ReportedIn(s.phase));
      assert false;
    }
  }

  // ---------------------------------------------------------------------
  // Exactly when an episode can get stuck
  // ---------------------------------------------------------------------

  ghost predicate AllReported(s: System) {
    forall i :: 0 <= i < |s.probes| ==> s.probes[i].reported
  }

  /** A call that is admitted and reports at once. */
  lemma CallAndReport(c: Config, s: System, ok: bool, at: int) returns (s': System)
    requires Reachable(c, s) && at >= s.now && Admission(c, s.breaker, at).1
    ensures Reachable(c, s') && s'.now == at
    ensures var b := Admission(c, s.breaker, at).0;
            s'.breaker == if ok then AfterSuccess(c, b) else AfterFailure(c, b, at)
    ensures AllReported(s) ==> AllReported(s')
  {
    ReachableStep(c, s, Call(at));
    var mid := Step(c, s, Call(at));
    var report := Report(|s.probes|, ok, at);
    ReachableStep(c, mid, report);
    s' := Step(c, mid, report);
  }

  /** Closed at time 0 with k failures behind it. */
  lemma {:induction false} ReachClosed(c: Config, k: nat) returns (s: System)
    requires k < Max(1, c.maxFailures)
    ensures Reachable(c, s) && s.breaker == Breaker(Closed, k, 0, 0, 0) && s.now == 0 && AllReported(s)
    decreases k
  {
    if k == 0 {
      s := START;
      assert IsRun(c, [START], []);
    } else {
      var s0 := ReachClosed(c, k - 1);
      s := CallAndReport(c, s0, false, 0);
    }
  }

  /** Half-open after the timeout with k successful probes, none outstanding. */
  lemma {:induction false} ReachHalfOpen(c: Config, k: nat) returns (s: System)
    requires 1 <= k <= Max(1, c.halfOpenRequests) && k < c.successThreshold
    ensures Reachable(c, s) && s.breaker == Breaker(HalfOpen, 0, k, k, 0)
    ensures AllReported(s)
    decreases k
  {
    if k == 1 {
      var s0 := ReachClosed(c, Max(1, c.maxFailures) - 1);
      var s1 := CallAndReport(c, s0, false, 0);
      s := CallAndReport(c, s1, true, Max(0, c.timeout + 1));
    } else {
      var s0 := ReachHalfOpen(c, k - 1);
      s := CallAndReport(c, s0, true, s0.now);
    }
  }

  /** Every half-open episode stays live exactly for the configurations that ask
      for no more successes than they admit probes. */
  lemma LiveExactly(c: Config)
    ensures (forall s :: Reachable(c, s) ==> Live(c, s)) <==> c.successThreshold <= Max(1, c.halfOpenRequests)
  {
    if c.successThreshold <= Max(1, c.halfOpenRequests) {
      forall s | Reachable(c, s) ensures Live(c, s) {
        ReachableIsLive(c, s);
      }
    } else {
      var s := ReachHalfOpen(c, Max(1, c.halfOpenRequests));
      assert forall i :: !Outstanding(s, i);
      assert !Live(c, s);
    }
  }

  // ---------------------------------------------------------------------
  // The object
  // ---------------------------------------------------------------------

  class CircuitBreaker {
    const config: Config
    var state: CircuitState
    var failures: int
    var successes: int
    var lastFailure: int
    var halfOpenRequests: int
    var stateChangedAt: int

    ghost function Value(): Breaker
      reads this
    {
      Breaker(state, failures, successes, halfOpenRequests, lastFailure)
    }

    constructor (config: Config, now: int)
      ensures this.config == config && Value() == INITIAL && stateChangedAt == now
    {
      this.config := config;
      state, failures, successes, halfOpenRequests, lastFailure := Closed, 0, 0, 0, 0;
      stateChangedAt := now;
    }

    method Allow(now: int) returns (ok: bool)
      modifies this
      ensures (Value(), ok) == Admission(config, old(Value()), now)
      ensures ok <==> match old(state)
                      case Closed => true
                      case Open => now - old(lastFailure) > config.timeout
                      case HalfOpen => old(halfOpenRequests) < config.halfOpenRequests
      ensures state == if old(state) == Open && ok then HalfOpen else old(state)
      ensures state == HalfOpen && ok ==>
        halfOpenRequests == if old(state) == Open then 1 else old(halfOpenRequests) + 1
      ensures stateChangedAt == if state == old(state) then old(stateChangedAt) else now
    {
      match state {
        case Closed =>
          return true;
        case Open =>
          if now - lastFailure > config.timeout {
            TransitionTo(HalfOpen, now);
            halfOpenRequests := 1;
            return true;
          }
          return false;
        case HalfOpen =>
          if halfOpenRequests < config.halfOpenRequests {
            halfOpenRequests := halfOpenRequests + 1;
            return true;
          }
          return false;
      }
    }

    method RecordSuccess(now: int)
      modifies this
      ensures Value() == AfterSuccess(config, old(Value()))
      ensures old(state) == Closed ==> state == Closed && failures == 0
      ensures old(state) == HalfOpen ==>
        state == if old(successes) + 1 >= config.successThreshold then Closed else HalfOpen
      ensures state == HalfOpen ==> successes == old(successes) + 1
      ensures old(state) == Open ==> state == Open
      ensures stateChangedAt == if state == old(state) then old(stateChangedAt) else now
    {
      match state {
        case Closed =>
          failures := 0;
        case HalfOpen =>
          successes := successes + 1;
          if successes >= config.successThreshold {
            TransitionTo(Closed, now);
          }
        case Open =>
      }
    }

    method RecordFailure(now: int)
      modifies this
      ensures Value() == AfterFailure(config, old(Value()), now)
      ensures lastFailure == now
      ensures old(state) == Closed ==> state == if old(failures) + 1 >= config.maxFailures then Open else Closed
      ensures state == Closed ==> failures == old(failures) + 1
      ensures old(state) != Closed ==> state == Open
      ensures stateChangedAt == if state == old(state) then old(stateChangedAt) else now
    {
      lastFailure := now;
      match state {
        case Closed =>
          failures := failures + 1;
          if failures >= config.maxFailures {
            TransitionTo(Open, now);
          }
        case HalfOpen =>
          TransitionTo(Open, now);
        case Open =>
      }
    }

    method TransitionTo(newState: CircuitState, now: int)
      modifies this
      ensures Value() == Switched(old(Value()), newState)
      ensures stateChangedAt == if newState == old(state) then old(stateChangedAt) else now
    {
      if state == newState {
        return;
      }
      state, stateChangedAt := newState, now;
      failures, successes, halfOpenRequests := 0, 0, 0;
    }

    method Reset(now: int)
      modifies this
      ensures Value() == AfterReset(old(Value())) && stateChangedAt == now
      ensures state == Closed && failures == successes == halfOpenRequests == 0 && lastFailure == old(lastFailure)
    {
      state, stateChangedAt := Closed, now;
      failures, successes, halfOpenRequests := 0, 0, 0;
    }
  }
}
