/** Concurrent admission through a channel semaphore with a bounded wait queue
    (libs/resilience/bulkhead.go). Any number of calls, interleaved at every
    channel operation and every critical section. */
module Bulkhead {
  import opened Sums

  /** MaxWaiting may be negative, and then every waiter is turned away. */
  datatype Config = Config(maxConcurrent: nat, maxWaiting: int)

  datatype Outcome = Succeeded | Failed | Panicked | Rejected

  /** Where a call stands. Execute and ExecuteWithResult touch the shared state
      alike; TryExecute never waits. */
  datatype Pc =
    | Arrived(mayWait: bool)      // before the first select
    | Refused                     // TryExecute found no slot, rejectedCount++ pending
    | Queueing                    // about to enter the critical section of wait
    | Waiting                     // counted in waiting, at the second select
    | Expired                     // the context ended, rejectedCount++ pending
    | LeavingRejected             // rejected, waiting-- pending
    | Acquired(waited: bool)      // slot taken, activeCount++ pending
    | LeavingAdmitted             // active, waiting-- pending
    | Running                     // inside fn
    | Returned(outcome: Outcome)  // fn returned, its counter pending
    | Counted(outcome: Outcome)   // slot release pending
    | Released(outcome: Outcome)  // slot given back, activeCount-- pending
    | Finished(outcome: Outcome)

  datatype State = State(
    semaphore: nat, waiting: int, activeCount: int,
    rejectedCount: int, successCount: int, failureCount: int,
    calls: seq<Pc>)

  /** What the environment decides: a new call, or that a call moves on. The
      flag of Move picks among the branches open to that call: ctx.Done over the
      semaphore, or how fn ends. */
  datatype Choice = GoOn | ContextDone | FnError | FnPanic

  datatype Action = Arrive(mayWait: bool) | Move(call: nat, choice: Choice)

  const INITIAL: State := State(0, 0, 0, 0, 0, 0, [])

  // ---------------------------------------------------------------------
  // One atomic step
  // ---------------------------------------------------------------------

  /** Whether the action can happen: a waiting call without a free slot is
      blocked until one is free or its context ends. */
  predicate Enabled(c: Config, s: State, a: Action) {
    match a
    case Arrive(_) => true
    case Move(i, choice) =>
      i < |s.calls| && !s.calls[i].Finished? &&
      match s.calls[i]
      case Waiting => choice == ContextDone || (choice == GoOn && s.semaphore < c.maxConcurrent)
      case Running => choice != ContextDone
      case _ => choice == GoOn
  }

  function Step(c: Config, s: State, a: Action): State
    requires Enabled(c, s, a)
  {
    match a
    case Arrive(mayWait) => s.(calls := s.calls + [Arrived(mayWait)])
    case Move(i, choice) =>
      var free := s.semaphore < c.maxConcurrent;
      match s.calls[i]
      case Arrived(mayWait) =>
        if free then s.(semaphore := s.semaphore + 1, calls := s.calls[i := Acquired(false)])
        else s.(calls := s.calls[i := if mayWait then Queueing else Refused])
      case Refused =>
        s.(rejectedCount := s.rejectedCount + 1, calls := s.calls[i := Finished(Rejected)])
      case Queueing =>
        if s.waiting >= c.maxWaiting
        then s.(rejectedCount := s.rejectedCount + 1, calls := s.calls[i := Finished(Rejected)])
        else s.(waiting := s.waiting + 1, calls := s.calls[i := Waiting])
      case Waiting =>
        if choice == ContextDone then s.(calls := s.calls[i := Expired])
        else s.(semaphore := s.semaphore + 1, calls := s.calls[i := Acquired(true)])
      case Expired =>
        s.(rejectedCount := s.rejectedCount + 1, calls := s.calls[i := LeavingRejected])
      case LeavingRejected =>
        s.(waiting := s.waiting - 1, calls := s.calls[i := Finished(Rejected)])
      case Acquired(waited) =>
        s.(activeCount := s.activeCount + 1, calls := s.calls[i := if waited then LeavingAdmitted else Running])
      case LeavingAdmitted =>
        s.(waiting := s.waiting - 1, calls := s.calls[i := Running])
      case Running =>
        // a panic skips the counters, the deferred release still runs
        s.(calls := s.calls[i := match choice
                                 case FnPanic => Counted(Panicked)
                                 case FnError => Returned(Failed)
                                 case _ => Returned(Succeeded)])
      case Returned(Failed) =>
        s.(failureCount := s.failureCount + 1, calls := s.calls[i := Counted(Failed)])
      case Returned(outcome) =>
        s.(successCount := s.successCount + 1, calls := s.calls[i := Counted(outcome)])
      case Counted(outcome) =>
        // the slot held by this call is in the channel, see Inv
        s.(semaphore := if s.semaphore > 0 then s.semaphore - 1 else 0, calls := s.calls[i := Released(outcome)])
      case Released(outcome) =>
        s.(activeCount := s.activeCount - 1, calls := s.calls[i := Finished(outcome)])
      case Finished(_) => s
  }

  // ---------------------------------------------------------------------
  // What each counter counts
  // ---------------------------------------------------------------------

  function Slot(p: Pc): int {
    if p.Acquired? || p.LeavingAdmitted? || p.Running? || p.Returned? || p.Counted? then 1 else 0
  }

  function InWait(p: Pc): int {
    if p.Waiting? || p.Expired? || p.LeavingRejected? || p == Acquired(true) || p.LeavingAdmitted? then 1 else 0
  }

  function Active(p: Pc): int {
    if p.LeavingAdmitted? || p.Running? || p.Returned? || p.Counted? || p.Released? then 1 else 0
  }

  function InFn(p: Pc): int {
    if p.Running? then 1 else 0
  }

  function PendingEntry(p: Pc): int {
    if p.Acquired? then 1 else 0
  }

  function PendingExit(p: Pc): int {
    if p.Released? then 1 else 0
  }

  /** Whether outcome o has been entered in the books for a call. */
  function Booked(p: Pc, o: Outcome): int {
    if (p.Counted? || p.Released? || p.Finished?) && p.outcome == o then 1
    else if p.LeavingRejected? && o == Rejected then 1 else 0
  }

  function BookedSucceeded(p: Pc): int { Booked(p, Succeeded) }

  function BookedFailed(p: Pc): int { Booked(p, Failed) }

  function BookedRejected(p: Pc): int { Booked(p, Rejected) }

  function BookedPanicked(p: Pc): int { Booked(p, Panicked) }

  ghost predicate WellFormed(p: Pc) {
    (p.Returned? ==> p.outcome.Succeeded? || p.outcome.Failed?) &&
    (p.Counted? || p.Released? ==> !p.outcome.Rejected?)
  }

  /** Who occupies what: each gauge equals a count of calls by where they stand. */
  ghost predicate Occupancy(c: Config, s: State) {
    s.semaphore == Total(s.calls, Slot) <= c.maxConcurrent &&
    s.waiting == Total(s.calls, InWait) &&
    s.waiting <= (if c.maxWaiting > 0 then c.maxWaiting else 0) &&
    s.activeCount == Total(s.calls, Active)
  }

  /** Every metric equals a count of calls by how they ended. */
  ghost predicate Books(s: State) {
    s.rejectedCount == Total(s.calls, BookedRejected) &&
    s.successCount == Total(s.calls, BookedSucceeded) &&
    s.failureCount == Total(s.calls, BookedFailed) &&
    forall i :: 0 <= i < |s.calls| ==> WellFormed(s.calls[i])
  }

  ghost predicate Inv(c: Config, s: State) {
    Occupancy(c, s) && Books(s)
  }

  /** Where the acting call stands after the step. */
  function Target(c: Config, s: State, a: Action): Pc
    requires Enabled(c, s, a)
  {
    if a.Arrive? then Arrived(a.mayWait) else Step(c, s, a).calls[a.call]
  }

  lemma StepTotal(c: Config, s: State, a: Action, w: Pc -> int)
    requires Enabled(c, s, a)
    ensures Total(Step(c, s, a).calls, w) ==
            Total(s.calls, w) + w(Target(c, s, a)) - (if a.Arrive? then 0 else w(s.calls[a.call]))
  {
    var p := Target(c, s, a);
    match a {
      case Arrive(_) => TotalAppend(s.calls, p, w);
      case Move(i, _) =>
        assert Step(c, s, a).calls == s.calls[i := p];
        TotalUpdate(s.calls, i, p, w);
    }
  }

  lemma StepKeepsOccupancy(c: Config, s: State, a: Action)
    requires Occupancy(c, s) && Enabled(c, s, a)
    ensures Occupancy(c, Step(c, s, a))
    // the channel receive at the end of a call never finds the channel empty
    ensures a.Move? && s.calls[a.call].Counted? ==> s.semaphore > 0
  {
    hide Total;
    StepTotal(c, s, a, Slot);
    StepTotal(c, s, a, InWait);
    StepTotal(c, s, a, Active);
    if a.Move? {
      TotalAtLeast(s.calls, a.call, Slot);
    }
  }

  lemma StepKeepsBooks(c: Config, s: State, a: Action)
    requires Books(s) && Enabled(c, s, a)
    ensures Books(Step(c, s, a))
  {
    hide Total;
    StepTotal(c, s, a, BookedRejected);
    StepTotal(c, s, a, BookedSucceeded);
    StepTotal(c, s, a, BookedFailed);
  }

  /** The counts move with the shared state on every step of every call. */
  lemma StepKeepsInv(c: Config, s: State, a: Action)
    requires Inv(c, s) && Enabled(c, s, a)
    ensures Inv(c, Step(c, s, a))
    ensures a.Move? && s.calls[a.call].Counted? ==> s.semaphore > 0
  {
    StepKeepsOccupancy(c, s, a);
    StepKeepsBooks(c, s, a);
  }

  // ---------------------------------------------------------------------
  // Runs
  // ---------------------------------------------------------------------

  ghost predicate Runs(c: Config, s: State, actions: seq<Action>)
    decreases |actions|
  {
    |actions| == 0 || (Enabled(c, s, actions[0]) && Runs(c, Step(c, s, actions[0]), actions[1..]))
  }

  function After(c: Config, s: State, actions: seq<Action>): State
    requires Runs(c, s, actions)
    decreases |actions|
  {
    if |actions| == 0 then s else After(c, Step(c, s, actions[0]), actions[1..])
  }

  ghost predicate Reachable(c: Config, s: State) {
    exists actions :: Runs(c, INITIAL, actions) && s == After(c, INITIAL, actions)
  }

  lemma {:induction false} RunKeepsInv(c: Config, s: State, actions: seq<Action>)
    requires Inv(c, s) && Runs(c, s, actions)
    ensures Inv(c, After(c, s, actions))
    decreases |actions|
  {
    if |actions| > 0 {
      StepKeepsInv(c, s, actions[0]);
      RunKeepsInv(c, Step(c, s, actions[0]), actions[1..]);
    }
  }

  lemma ReachableInv(c: Config, s: State)
    requires Reachable(c, s)
    ensures Inv(c, s)
  {
    var actions :| Runs(c, INITIAL, actions) && s == After(c, INITIAL, actions);
    RunKeepsInv(c, INITIAL, actions);
  }

  /** Safety in every interleaving of any number of calls: at most
      MaxConcurrent run fn, at most MaxWaiting wait, and activeCount differs
      from the semaphore exactly by the calls caught between the two. */
  lemma AdmissionBounds(c: Config, s: State)
    requires Reachable(c, s)
    ensures Total(s.calls, InFn) <= s.semaphore <= c.maxConcurrent
    ensures 0 <= s.waiting == Total(s.calls, InWait) <= if c.maxWaiting > 0 then c.maxWaiting else 0
    ensures s.activeCount == s.semaphore - Total(s.calls, PendingEntry) + Total(s.calls, PendingExit)
    ensures 0 <= s.activeCount <= c.maxConcurrent + Total(s.calls, PendingExit)
  {
    ReachableInv(c, s);
    TotalMonotone(s.calls, InFn, Slot);
    TotalNonNegative(s.calls, InWait);
    TotalNonNegative(s.calls, Active);
    TotalNonNegative(s.calls, PendingEntry);
    var slotOrExit := (p: Pc) => Slot(p) + PendingExit(p);
    TotalSplit(s.calls, slotOrExit, Active, PendingEntry);
    TotalSplit(s.calls, slotOrExit, Slot, PendingExit);
  }

  // ---------------------------------------------------------------------
  // Who is admitted, and why a call ends as it does
  // ---------------------------------------------------------------------

  /** Admission in every reachable state. A new call is admitted exactly when
      fewer than MaxConcurrent calls hold a slot; without one Execute queues and
      TryExecute is refused. A queueing call may wait exactly when fewer than
      MaxWaiting calls are inside wait. A waiting call can be admitted exactly
      when a slot is free, and its context can always end the wait. */
  lemma AdmissionIsExact(c: Config, s: State, i: nat, choice: Choice)
    requires Reachable(c, s) && Enabled(c, s, Move(i, choice))
    ensures var p, p' := s.calls[i], Step(c, s, Move(i, choice)).calls[i];
      (p.Arrived? ==>
        p' == if Total(s.calls, Slot) < c.maxConcurrent then Acquired(false)
              else if p.mayWait then Queueing else Refused) &&
      (p.Queueing? ==> p' == if Total(s.calls, InWait) < c.maxWaiting then Waiting else Finished(Rejected)) &&
      (p.Waiting? ==> p' == if choice == ContextDone then Expired else Acquired(true))
    ensures s.calls[i].Waiting? ==> (
      (Enabled(c, s, Move(i, GoOn)) <==> Total(s.calls, Slot) < c.maxConcurrent) && Enabled(c, s, Move(i, ContextDone)))
  {
    ReachableInv(c, s);
  }

  /** What a call has come to, from the step on that decides it. */
  function Verdict(p: Pc): (o: Outcome)
    requires HasVerdict(p)
  {
    if p.Refused? || p.Expired? || p.LeavingRejected? then Rejected else p.outcome
  }

  predicate HasVerdict(p: Pc) {
    p.Refused? || p.Expired? || p.LeavingRejected? || p.Returned? || p.Counted? || p.Released? || p.Finished?
  }

  /** The action decides outcome o for call i. Success, failure and panic are how
      fn ends; a rejection needs all slots taken by other calls, all places to
      wait taken as well, or a context that has ended. */
  ghost predicate Decides(c: Config, s: State, a: Action, i: nat, o: Outcome) {
    a.Move? && a.call == i < |s.calls| &&
    match o
    case Succeeded => s.calls[i].Running? && a.choice == GoOn
    case Failed => s.calls[i].Running? && a.choice == FnError
    case Panicked => s.calls[i].Running? && a.choice == FnPanic
    case Rejected =>
      (s.calls[i] == Arrived(false) && Total(s.calls, Slot) == c.maxConcurrent) ||
      (s.calls[i].Queueing? && Total(s.calls, InWait) >= c.maxWaiting) ||
      (s.calls[i].Waiting? && a.choice == ContextDone)
  }

  /** A call queues only after it has found all slots taken by other calls. */
  ghost predicate FindsFull(c: Config, s: State, a: Action, i: nat) {
    a.Move? && a.call == i < |s.calls| && s.calls[i] == Arrived(true) && Total(s.calls, Slot) == c.maxConcurrent
  }

  predicate HasQueued(p: Pc) {
    p.Queueing? || p.Waiting? || p.Expired? || p.LeavingRejected? || p == Acquired(true) || p.LeavingAdmitted?
  }

  /** The first k actions are a run after which the next one can happen. */
  ghost predicate Split(c: Config, actions: seq<Action>, k: nat) {
    k < |actions| && Runs(c, INITIAL, actions[..k]) && Enabled(c, After(c, INITIAL, actions[..k]), actions[k])
  }

  lemma {:induction false} RunsAppend(c: Config, s: State, actions: seq<Action>, k: nat)
    requires Runs(c, s, actions) && k < |actions|
    ensures Runs(c, s, actions[..k]) && Enabled(c, After(c, s, actions[..k]), actions[k])
    ensures Runs(c, s, actions[..k + 1])
    ensures After(c, s, actions[..k + 1]) == Step(c, After(c, s, actions[..k]), actions[k])
    decreases |actions|
  {
    hide Step, Enabled;
    var rest := actions[1..];
    if k > 0 {
      RunsAppend(c, Step(c, s, actions[0]), rest, k - 1);
      assert actions[..k][1..] == rest[..k - 1] && actions[..k + 1][1..] == rest[..k];
    } else {
      assert actions[..1][1..] == [];
    }
  }

  /** How every call ended was decided once, for the reason its outcome names, and
      a call that has queued had found all slots taken. */
  lemma {:induction false} OutcomeWasDecided(c: Config, actions: seq<Action>, i: nat, n: nat)
    requires Runs(c, INITIAL, actions) && n <= |actions|
    ensures Runs(c, INITIAL, actions[..n])
    ensures var s := After(c, INITIAL, actions[..n]);
      i < |s.calls| && HasVerdict(s.calls[i]) ==>
      exists k: nat :: k < n && Split(c, actions, k) &&
        Decides(c, After(c, INITIAL, actions[..k]), actions[k], i, Verdict(s.calls[i]))
    ensures var s := After(c, INITIAL, actions[..n]);
      i < |s.calls| && HasQueued(s.calls[i]) ==>
      exists k: nat :: k < n && Split(c, actions, k) && FindsFull(c, After(c, INITIAL, actions[..k]), actions[k], i)
    decreases n
  {
    if n > 0 {
      hide Runs, After, Decides, FindsFull;
      RunsAppend(c, INITIAL, actions, n - 1);
      OutcomeWasDecided(c, actions, i, n - 1);
      var s := After(c, INITIAL, actions[..n - 1]);
      assert Split(c, actions, n - 1);
      assert Inv(c, s) by { RunKeepsInv(c, INITIAL, actions[..n - 1]); }
      StepDecides(c, s, actions[n - 1], i);
    }
  }

  /** A step leaves a verdict as it was, or decides it. */
  lemma StepDecides(c: Config, s: State, a: Action, i: nat)
    requires Inv(c, s) && Enabled(c, s, a)
    ensures var s' := Step(c, s, a);
      i < |s'.calls| && HasVerdict(s'.calls[i]) ==>
        Decides(c, s, a, i, Verdict(s'.calls[i])) ||
        (i < |s.calls| && HasVerdict(s.calls[i]) && Verdict(s.calls[i]) == Verdict(s'.calls[i]))
    ensures var s' := Step(c, s, a);
      i < |s'.calls| && HasQueued(s'.calls[i]) ==>
        FindsFull(c, s, a, i) || (i < |s.calls| && HasQueued(s.calls[i]))
  {
  }

  // ---------------------------------------------------------------------
  // Progress
  // ---------------------------------------------------------------------

  /** Steps a call still has before it, at most. */
  function Remaining(p: Pc): int {
    match p
    case Arrived(_) => 9
    case Queueing => 8
    case Waiting => 7
    case Acquired(_) => 6
    case LeavingAdmitted => 5
    case Running => 4
    case Returned(_) => 3
    case Counted(_) => 2
    case Released(_) => 1
    case Expired => 2
    case LeavingRejected => 1
    case Refused => 1
    case Finished(_) => 0
  }

  ghost predicate AllFinished(s: State) {
    forall i :: 0 <= i < |s.calls| ==> s.calls[i].Finished?
  }

  /** Every move brings the batch closer to its end. */
  lemma MoveUsesBudget(c: Config, s: State, a: Action)
    requires Enabled(c, s, a) && a.Move?
    ensures Total(Step(c, s, a).calls, Remaining) < Total(s.calls, Remaining)
    ensures |Step(c, s, a).calls| == |s.calls|
  {
    StepTotal(c, s, a, Remaining);
  }

  /** A finite batch makes at most nine moves a call. */
  lemma {:induction false} BatchIsBounded(c: Config, s: State, actions: seq<Action>)
    requires Runs(c, s, actions) && forall k :: 0 <= k < |actions| ==> actions[k].Move?
    ensures |actions| <= Total(s.calls, Remaining) <= 9 * |s.calls|
    decreases |actions|
  {
    var nine := (p: Pc) => 9;
    TotalMonotone(s.calls, Remaining, nine);
    TotalConstant(s.calls, 9, nine);
    TotalNonNegative(s.calls, Remaining);
    if |actions| > 0 {
      MoveUsesBudget(c, s, actions[0]);
      BatchIsBounded(c, Step(c, s, actions[0]), actions[1..]);
    }
  }

  /** A call that can move without any context ending. */
  ghost predicate CanMove(c: Config, s: State) {
    exists i: nat :: Enabled(c, s, Move(i, GoOn))
  }

  /** No deadlock, with a slot to wait for or with nobody allowed to wait: some
      call can move, although no context ever ends, exactly while a call is
      unfinished. */
  lemma NeverStuck(c: Config, s: State)
    requires Reachable(c, s) && (c.maxConcurrent > 0 || c.maxWaiting <= 0)
    ensures CanMove(c, s) <==> !AllFinished(s)
  {
    if !AllFinished(s) {
      ReachableInv(c, s);
      var i: nat :| i < |s.calls| && !s.calls[i].Finished?;
      if s.calls[i].Waiting? && s.semaphore == c.maxConcurrent {
        // somebody waits, so there are slots; whoever holds one can move
        TotalAtLeast(s.calls, i, InWait);
        var j := TotalPositive(s.calls, Slot);
        assert Enabled(c, s, Move(j, GoOn));
      } else {
        assert Enabled(c, s, Move(i, GoOn));
      }
    }
  }

  lemma OneMore(c: Config, s: State, a: Action, rest: seq<Action>)
    requires Enabled(c, s, a) && Runs(c, Step(c, s, a), rest)
    ensures Runs(c, s, [a] + rest) && After(c, s, [a] + rest) == After(c, Step(c, s, a), rest)
  {
  }

  /** Without slots but with places to wait, a waiting call has nobody to wait
      for. */
  lemma ReachStuck(c: Config) returns (s: State)
    requires c.maxConcurrent == 0 && c.maxWaiting > 0
    ensures Reachable(c, s) && !AllFinished(s) && !CanMove(c, s)
  {
    var s1 := INITIAL.(calls := [Arrived(true)]);
    var s2 := INITIAL.(calls := [Queueing]);
    s := INITIAL.(calls := [Waiting], waiting := 1);
    var go := Move(0, GoOn);
    var actions := [Arrive(true), go, go];
    assert Enabled(c, INITIAL, actions[0]) && Step(c, INITIAL, actions[0]) == s1;
    assert Enabled(c, s1, go) && Step(c, s1, go) == s2;
    assert Enabled(c, s2, go) && Step(c, s2, go) == s;
    OneMore(c, s2, go, []);
    OneMore(c, s1, go, [go]);
    OneMore(c, INITIAL, actions[0], [go] + [go]);
    assert actions == [actions[0]] + ([go] + [go]);
    assert Reachable(c, s) && !s.calls[0].Finished?;
  }

  /** The configurations under which no reachable state is stuck are exactly
      those with a slot, or with no place to wait for one. */
  lemma NeverStuckExactly(c: Config)
    ensures (forall s :: Reachable(c, s) ==> (CanMove(c, s) <==> !AllFinished(s))) <==>
            c.maxConcurrent > 0 || c.maxWaiting <= 0
  {
    if c.maxConcurrent > 0 || c.maxWaiting <= 0 {
      forall s | Reachable(c, s) ensures CanMove(c, s) <==> !AllFinished(s) {
        NeverStuck(c, s);
      }
    } else {
      var s := ReachStuck(c);
      assert Reachable(c, s) && !(CanMove(c, s) <==> !AllFinished(s));
    }
  }

  /** Once drained, nothing is left behind and every call is in the books
      exactly once. */
  lemma DrainedIsClean(c: Config, s: State)
    requires Reachable(c, s) && AllFinished(s)
    ensures s.semaphore == 0 && s.activeCount == 0 && s.waiting == 0
    ensures s.successCount + s.failureCount + s.rejectedCount + Total(s.calls, BookedPanicked) == |s.calls|
  {
    ReachableInv(c, s);
    TotalConstant(s.calls, 0, Slot);
    TotalConstant(s.calls, 0, InWait);
    TotalConstant(s.calls, 0, Active);
    FinishedOnce(s.calls);
  }

  /** A finished call is booked under exactly one outcome. */
  lemma {:induction false} FinishedOnce(calls: seq<Pc>)
    requires forall i :: 0 <= i < |calls| ==> calls[i].Finished?
    ensures Total(calls, BookedSucceeded) + Total(calls, BookedFailed) +
            Total(calls, BookedRejected) + Total(calls, BookedPanicked) == |calls|
  {
    if |calls| > 0 {
      FinishedOnce(calls[..|calls| - 1]);
      assert calls[|calls| - 1].Finished?;
    }
  }

  // ---------------------------------------------------------------------
  // The shared object, one method per atomic section of the Go code
  // ---------------------------------------------------------------------

  class Bulkhead {
    const config: Config
    var semaphore: nat
    var waiting: int
    var activeCount: int
    var rejectedCount: int
    var successCount: int
    var failureCount: int
    /** Program counters of the goroutines inside the bulkhead. */
    ghost var calls: seq<Pc>

    ghost function Value(): State
      reads this
    {
      State(semaphore, waiting, activeCount, rejectedCount, successCount, failureCount, calls)
    }

    /** What every interleaving of the sections below preserves. */
    ghost predicate Valid()
      reads this
    {
      Inv(config, Value())
    }

    ghost predicate At(call: nat, p: Pc)
      reads this
    {
      call < |calls| && calls[call] == p
    }

    constructor (config: Config)
      ensures Valid() && Value() == INITIAL && this.config == config
    {
      this.config := config;
      semaphore, waiting, activeCount := 0, 0, 0;
      rejectedCount, successCount, failureCount := 0, 0, 0;
      calls := [];
    }

    /** A goroutine enters Execute, ExecuteWithResult or TryExecute. */
    ghost method Arrive(mayWait: bool) returns (call: nat)
      requires Valid()
      modifies this`calls
      ensures Valid() && Value() == Step(config, old(Value()), Action.Arrive(mayWait))
      ensures call == old(|calls|) && At(call, Arrived(mayWait))
    {
      StepKeepsInv(config, Value(), Action.Arrive(mayWait));
      call := |calls|;
      calls := calls + [Arrived(mayWait)];
    }

    /** select with a default branch: a send that never blocks. */
    method TrySend(ghost call: nat, ghost mayWait: bool) returns (ok: bool)
      requires Valid() && At(call, Arrived(mayWait))
      modifies this`semaphore, this`calls
      ensures Valid() && Value() == Step(config, old(Value()), Move(call, GoOn))
      ensures ok <==> old(semaphore) < config.maxConcurrent
      ensures semaphore == old(semaphore) + if ok then 1 else 0
      ensures At(call, if ok then Acquired(false) else if mayWait then Queueing else Refused)
    {
      StepKeepsInv(config, Value(), Move(call, GoOn));
      ok := semaphore < config.maxConcurrent;
      if ok {
        semaphore := semaphore + 1;
        calls := calls[call := Acquired(false)];
      } else {
        calls := calls[call := if mayWait then Queueing else Refused];
      }
    }

    /** Taking a place in the wait queue, or being turned away. */
    method EnterWait(ghost call: nat) returns (ok: bool)
      requires Valid() && At(call, Queueing)
      modifies this`waiting, this`rejectedCount, this`calls
      ensures Valid() && Value() == Step(config, old(Value()), Move(call, GoOn))
      ensures ok <==> old(waiting) < config.maxWaiting
      ensures waiting == old(waiting) + if ok then 1 else 0
      ensures rejectedCount == old(rejectedCount) + if ok then 0 else 1
      ensures At(call, if ok then Waiting else Finished(Rejected))
    {
      StepKeepsInv(config, Value(), Move(call, GoOn));
      if waiting >= config.maxWaiting {
        rejectedCount := rejectedCount + 1;
        calls := calls[call := Finished(Rejected)];
        return false;
      }
      waiting := waiting + 1;
      calls := calls[call := Waiting];
      return true;
    }

    /** The select of a waiting call: a slot has come free or its context is
        done; when both hold Go picks either. */
    method Select(ghost call: nat, contextDone: bool) returns (ok: bool)
      requires Valid() && At(call, Waiting)
      requires contextDone || semaphore < config.maxConcurrent
      modifies this`semaphore, this`calls
      ensures Valid()
      ensures if ok then old(semaphore) < config.maxConcurrent && At(call, Acquired(true))
              else contextDone && At(call, Expired)
      ensures Value() == Step(config, old(Value()), Move(call, if ok then GoOn else ContextDone))
    {
      ok := *;
      if semaphore == config.maxConcurrent {
        ok := false;
      } else if !contextDone {
        ok := true;
      }
      StepKeepsInv(config, Value(), Move(call, if ok then GoOn else ContextDone));
      if ok {
        semaphore := semaphore + 1;
        calls := calls[call := Acquired(true)];
      } else {
        calls := calls[call := Expired];
      }
    }

    method CountRejected(ghost call: nat)
      requires Valid() && (At(call, Refused) || At(call, Expired))
      modifies this`rejectedCount, this`calls
      ensures Valid() && Value() == Step(config, old(Value()), Move(call, GoOn))
      ensures rejectedCount == old(rejectedCount) + 1
    {
      StepKeepsInv(config, Value(), Move(call, GoOn));
      rejectedCount := rejectedCount + 1;
      calls := calls[call := if calls[call].Refused? then Finished(Rejected) else LeavingRejected];
    }

    /** The deferred waiting-- of wait. */
    method LeaveWait(ghost call: nat)
      requires Valid() && (At(call, LeavingRejected) || At(call, LeavingAdmitted))
      modifies this`waiting, this`calls
      ensures Valid() && Value() == Step(config, old(Value()), Move(call, GoOn))
      ensures waiting == old(waiting) - 1
    {
      StepKeepsInv(config, Value(), Move(call, GoOn));
      waiting := waiting - 1;
      calls := calls[call := if calls[call].LeavingAdmitted? then Running else Finished(Rejected)];
    }

    method CountActive(ghost call: nat, ghost waited: bool)
      requires Valid() && At(call, Acquired(waited))
      modifies this`activeCount, this`calls
      ensures Valid() && Value() == Step(config, old(Value()), Move(call, GoOn))
      ensures activeCount == old(activeCount) + 1 && At(call, if waited then LeavingAdmitted else Running)
    {
      StepKeepsInv(config, Value(), Move(call, GoOn));
      activeCount := activeCount + 1;
      calls := calls[call := if waited then LeavingAdmitted else Running];
    }

    /** fn comes back, with an error or without, or unwinds. */
    ghost method FnEnds(call: nat, choice: Choice)
      requires Valid() && At(call, Running) && choice != ContextDone
      modifies this`calls
      ensures Valid() && Value() == Step(config, old(Value()), Move(call, choice))
      ensures At(call, match choice
                       case FnPanic => Counted(Panicked)
                       case FnError => Returned(Failed)
                       case _ => Returned(Succeeded))
    {
      StepKeepsInv(config, Value(), Move(call, choice));
      calls := Step(config, Value(), Move(call, choice)).calls;
    }

    method CountResult(ghost call: nat, failed: bool)
      requires Valid() && At(call, Returned(if failed then Failed else Succeeded))
      modifies this`successCount, this`failureCount, this`calls
      ensures Valid() && Value() == Step(config, old(Value()), Move(call, GoOn))
      ensures failureCount == old(failureCount) + if failed then 1 else 0
      ensures successCount == old(successCount) + if failed then 0 else 1
    {
      StepKeepsInv(config, Value(), Move(call, GoOn));
      if failed {
        failureCount := failureCount + 1;
      } else {
        successCount := successCount + 1;
      }
      calls := calls[call := Counted(calls[call].outcome)];
    }

    /** The deferred channel receive. The channel is never empty here. */
    method Release(ghost call: nat, ghost outcome: Outcome)
      requires Valid() && At(call, Counted(outcome))
      modifies this`semaphore, this`calls
      ensures Valid() && Value() == Step(config, old(Value()), Move(call, GoOn))
      ensures old(semaphore) > 0 && semaphore == old(semaphore) - 1
    {
      StepKeepsInv(config, Value(), Move(call, GoOn));
      semaphore := semaphore - 1;
      calls := calls[call := Released(outcome)];
    }

    method CountInactive(ghost call: nat, ghost outcome: Outcome)
      requires Valid() && At(call, Released(outcome))
      modifies this`activeCount, this`calls
      ensures Valid() && Value() == Step(config, old(Value()), Move(call, GoOn))
      ensures activeCount == old(activeCount) - 1 && At(call, Finished(outcome))
    {
      StepKeepsInv(config, Value(), Move(call, GoOn));
      activeCount := activeCount - 1;
      calls := calls[call := Finished(outcome)];
    }
  }
}
