/** Notification delivery: a bounded queue, one worker, senders that deliver
    themselves when the queue is full, and retry goroutines
    (services/notification/services/notification_service.go). */
module NotificationDelivery {
  import opened Sums

  type Id = string

  datatype Status = Queued | Sending | Retrying | Delivered | Failed

  /** A stored notification. `attempts` counts deliveries tried, `backoff` the
      seconds of sleep its retries have asked for. */
  datatype Note = Note(status: Status, retryCount: nat, attempts: nat, backoff: nat)

  /** Where a call of deliver stands. */
  datatype Phase =
    | Starting          // about to set Sending
    | Attempting        // in the sender
    | Judged(ok: bool)  // the sender returned
    | Failing           // out of retries, about to set Failed
    | Backing           // about to set Retrying and start the retry goroutine

  /** A goroutine. Number 0 is the worker. */
  datatype Thread =
    | WorkerIdle
    | Sender(id: Id)                     // stored, before the select on the queue
    | Delivering(id: Id, phase: Phase)
    | Sleeping(id: Id)                   // before the retry
    | Ended

  datatype Config = Config(queueSize: nat, maxRetries: nat)

  datatype State = State(notes: map<Id, Note>, queue: seq<Id>, threads: seq<Thread>)

  /** Submit is a validated Send; Move lets goroutine `thread` go on, and tells
      whether the delivery it is in succeeds. */
  datatype Action = Submit(id: Id) | Move(thread: nat, ok: bool)

  const INITIAL: State := State(map[], [], [WorkerIdle])

  function Pow2(n: nat): nat {
    if n == 0 then 1 else 2 * Pow2(n - 1)
  }

  predicate Terminal(n: Note) {
    n.status == Delivered || n.status == Failed
  }

  /** Generated ids are fresh. The worker blocks on an empty queue. */
  predicate Enabled(s: State, a: Action) {
    match a
    case Submit(id) => id !in s.notes
    case Move(i, _) =>
      i < |s.threads| && s.threads[i] != Ended && (s.threads[i] == WorkerIdle ==> |s.queue| > 0)
  }

  /** What a goroutine is after its call of deliver has returned. */
  function Rest(i: nat): Thread {
    if i == 0 then WorkerIdle else Ended
  }

  function Update(s: State, i: nat, t: Thread, id: Id, n: Note): State
    requires i < |s.threads|
  {
    s.(threads := s.threads[i := t], notes := s.notes[id := n])
  }

  function DeliverStep(c: Config, s: State, i: nat, ok: bool): State
    requires i < |s.threads| && s.threads[i].Delivering? && s.threads[i].id in s.notes
  {
    var id := s.threads[i].id;
    var n := s.notes[id];
    match s.threads[i].phase
    case Starting => Update(s, i, Delivering(id, Attempting), id, n.(status := Sending))
    case Attempting => Update(s, i, Delivering(id, Judged(ok)), id, n.(attempts := n.attempts + 1))
    case Judged(true) => Update(s, i, Rest(i), id, n.(status := Delivered))
    case Judged(false) =>
      var n' := n.(retryCount := n.retryCount + 1);
      Update(s, i, Delivering(id, if n'.retryCount >= c.maxRetries then Failing else Backing), id, n')
    case Failing => Update(s, i, Rest(i), id, n.(status := Failed))
    case Backing =>
      var s' := Update(s, i, Rest(i), id, n.(status := Retrying, backoff := n.backoff + Pow2(n.retryCount)));
      s'.(threads := s'.threads + [Sleeping(id)])
  }

  function Step(c: Config, s: State, a: Action): State
    requires Enabled(s, a)
  {
    match a
    case Submit(id) =>
      s.(notes := s.notes[id := Note(Queued, 0, 0, 0)], threads := s.threads + [Sender(id)])
    case Move(i, ok) =>
      match s.threads[i]
      case WorkerIdle =>
        s.(queue := s.queue[1..], threads := s.threads[i := Delivering(s.queue[0], Starting)])
      case Sender(id) =>
        if |s.queue| < c.queueSize then s.(queue := s.queue + [id], threads := s.threads[i := Ended])
        else s.(threads := s.threads[i := Delivering(id, Starting)])
      case Sleeping(id) => s.(threads := s.threads[i := Delivering(id, Starting)])
      case Delivering(id, _) => if id in s.notes then DeliverStep(c, s, i, ok) else s
      case Ended => s
  }

  // ---------------------------------------------------------------------
  // Ownership
  // ---------------------------------------------------------------------

  function Owns(id: Id): Thread -> int {
    (t: Thread) => if (t.Sender? || t.Delivering? || t.Sleeping?) && t.id == id then 1 else 0
  }

  function Is(id: Id): Id -> int {
    (x: Id) => if x == id then 1 else 0
  }

  /** Goroutines and queue slots that hold a notification. */
  function Owners(s: State, id: Id): int {
    Total(s.threads, Owns(id)) + Total(s.queue, Is(id))
  }

  function Owed(s: State, id: Id): int {
    if id in s.notes && !Terminal(s.notes[id]) then 1 else 0
  }

  ghost predicate OneOwner(s: State) {
    |s.threads| > 0 && forall id :: Owners(s, id) == Owed(s, id)
  }

  /** Backoff asked for by the first `sleeps` retries: 2 + 4 + ... */
  function BackoffAfter(sleeps: nat): int {
    Pow2(sleeps + 1) - 2
  }

  /** A notification that waits for a delivery. */
  predicate Waiting(c: Config, n: Note) {
    n.retryCount < c.maxRetries && n.attempts == n.retryCount && n.backoff == BackoffAfter(n.retryCount)
  }

  predicate NoteFits(c: Config, t: Thread, n: Note) {
    match t
    case Sender(_) => n.status == Queued && Waiting(c, n)
    case Sleeping(_) => n.status == Retrying && Waiting(c, n)
    case Delivering(_, Starting) => (n.status == Queued || n.status == Retrying) && Waiting(c, n)
    case Delivering(_, Attempting) => n.status == Sending && Waiting(c, n)
    case Delivering(_, Judged(_)) =>
      n.status == Sending && n.attempts > 0 && Waiting(c, n.(attempts := n.attempts - 1))
    case Delivering(_, Failing) =>
      n.status == Sending && n.attempts == n.retryCount == c.maxRetries && n.backoff == Pow2(c.maxRetries) - 2
    case Delivering(_, Backing) =>
      n.status == Sending && n.attempts == n.retryCount && 0 < n.retryCount < c.maxRetries &&
      n.backoff == BackoffAfter(n.retryCount - 1)
    case _ => true
  }

  predicate TerminalFits(c: Config, n: Note) {
    (n.status == Delivered ==>
      n.attempts == n.retryCount + 1 <= c.maxRetries && n.backoff == BackoffAfter(n.retryCount)) &&
    (n.status == Failed ==>
      n.attempts == n.retryCount == c.maxRetries && n.backoff == Pow2(c.maxRetries) - 2)
  }

  ghost predicate ThreadOk(c: Config, s: State, t: Thread) {
    t.Sender? || t.Delivering? || t.Sleeping? ==> t.id in s.notes && NoteFits(c, t, s.notes[t.id])
  }

  ghost predicate SlotOk(c: Config, s: State, id: Id) {
    id in s.notes && NoteFits(c, Sender(id), s.notes[id])
  }

  ghost predicate Inv(c: Config, s: State) {
    c.maxRetries >= 1 && OneOwner(s) && |s.queue| <= c.queueSize &&
    (forall i :: 0 <= i < |s.threads| ==> ThreadOk(c, s, s.threads[i]) && (s.threads[i] == WorkerIdle ==> i == 0)) &&
    (s.threads[0] == WorkerIdle || s.threads[0].Delivering?) &&
    (forall k :: 0 <= k < |s.queue| ==> SlotOk(c, s, s.queue[k])) &&
    (forall id :: id in s.notes ==> TerminalFits(c, s.notes[id]))
  }

  /** A goroutine that holds a notification is its only owner. */
  lemma SoleOwner(s: State, i: nat, id: Id)
    requires OneOwner(s) && i < |s.threads| && Owns(id)(s.threads[i]) == 1
    ensures Owed(s, id) == 1
    ensures forall j :: 0 <= j < |s.threads| && j != i ==> Owns(id)(s.threads[j]) == 0
    ensures forall k :: 0 <= k < |s.queue| ==> s.queue[k] != id
  {
    hide Total;
    assert Owners(s, id) == Owed(s, id);
    var others := s.threads[i := Ended];
    TotalUpdate(s.threads, i, Ended, Owns(id));
    TotalNonNegative(others, Owns(id));
    TotalNonNegative(s.queue, Is(id));
    forall j | 0 <= j < |s.threads| && j != i ensures Owns(id)(s.threads[j]) == 0 {
      TotalAtLeast(others, j, Owns(id));
    }
    forall k | 0 <= k < |s.queue| ensures s.queue[k] != id {
      TotalAtLeast(s.queue, k, Is(id));
    }
  }

  // ---------------------------------------------------------------------
  // Every step keeps the invariant
  // ---------------------------------------------------------------------

  lemma DeliverKeepsOwners(c: Config, s: State, i: nat, ok: bool)
    requires OneOwner(s) && i < |s.threads| && s.threads[i].Delivering? && s.threads[i].id in s.notes
    ensures OneOwner(DeliverStep(c, s, i, ok))
  {
    hide Total;
    var s' := DeliverStep(c, s, i, ok);
    var mine := s.threads[i].id;
    SoleOwner(s, i, mine);
    forall id ensures Owners(s', id) == Owed(s', id) {
      assert Owners(s, id) == Owed(s, id);
      TotalUpdate(s.threads, i, s'.threads[i], Owns(id));
      if s.threads[i].phase.Backing? {
        TotalAppend(s.threads[i := s'.threads[i]], Sleeping(mine), Owns(id));
      }
    }
  }

  lemma PowerStep(n: nat)
    ensures Pow2(n + 1) == 2 * Pow2(n)
  {
  }

  lemma DeliverFits(c: Config, s: State, i: nat, ok: bool)
    requires Inv(c, s) && i < |s.threads| && s.threads[i].Delivering? && s.threads[i].id in s.notes
    ensures var s', id := DeliverStep(c, s, i, ok), s.threads[i].id;
      ThreadOk(c, s', s'.threads[i]) && TerminalFits(c, s'.notes[id]) &&
      (|s'.threads| > |s.threads| ==> ThreadOk(c, s', s'.threads[|s.threads|])) &&
      s'.notes == s.notes[id := s'.notes[id]]
  {
    assert ThreadOk(c, s, s.threads[i]);
    var n := s.notes[s.threads[i].id];
    PowerStep(n.retryCount);
  }

  lemma DeliverKeepsInv(c: Config, s: State, i: nat, ok: bool)
    requires Inv(c, s) && i < |s.threads| && s.threads[i].Delivering? && s.threads[i].id in s.notes
    ensures Inv(c, DeliverStep(c, s, i, ok))
  {
    hide NoteFits, TerminalFits;
    var s', id := DeliverStep(c, s, i, ok), s.threads[i].id;
    DeliverKeepsOwners(c, s, i, ok);
    DeliverFits(c, s, i, ok);
    SoleOwner(s, i, id);
    forall j | 0 <= j < |s'.threads|
      ensures ThreadOk(c, s', s'.threads[j]) && (s'.threads[j] == WorkerIdle ==> j == 0)
    {
      if j != i && j < |s.threads| {
        assert s'.threads[j] == s.threads[j] && ThreadOk(c, s, s.threads[j]);
        assert Owns(id)(s.threads[j]) == 0;
      }
    }
    forall k | 0 <= k < |s'.queue| ensures SlotOk(c, s', s'.queue[k]) {
      assert SlotOk(c, s, s.queue[k]) && s.queue[k] != id;
    }
  }

  lemma SubmitKeepsOwners(c: Config, s: State, id: Id)
    requires OneOwner(s) && id !in s.notes
    ensures OneOwner(Step(c, s, Submit(id)))
  {
    hide Total;
    var s' := Step(c, s, Submit(id));
    forall k ensures Owners(s', k) == Owed(s', k) {
      assert Owners(s, k) == Owed(s, k);
      TotalAppend(s.threads, Sender(id), Owns(k));
    }
  }

  lemma SubmitFits(c: Config, s: State, id: Id)
    requires c.maxRetries >= 1 && id !in s.notes
    ensures var s' := Step(c, s, Submit(id));
      ThreadOk(c, s', Sender(id)) && TerminalFits(c, s'.notes[id])
  {
  }

  lemma SubmitKeepsInv(c: Config, s: State, id: Id)
    requires Inv(c, s) && id !in s.notes
    ensures Inv(c, Step(c, s, Submit(id)))
  {
    hide NoteFits, TerminalFits, Owners, Owed;
    var s' := Step(c, s, Submit(id));
    SubmitKeepsOwners(c, s, id);
    SubmitFits(c, s, id);
    forall j | 0 <= j < |s'.threads|
      ensures ThreadOk(c, s', s'.threads[j]) && (s'.threads[j] == WorkerIdle ==> j == 0)
    {
      assert j < |s.threads| ==> ThreadOk(c, s, s.threads[j]);
    }
    forall k | 0 <= k < |s'.queue| ensures SlotOk(c, s', s'.queue[k]) {
      assert SlotOk(c, s, s.queue[k]);
    }
  }

  /** Hand-overs between goroutines and the queue leave the notifications alone. */
  lemma HandOverKeepsOwners(c: Config, s: State, a: Action)
    requires OneOwner(s) && Enabled(s, a) && a.Move? && !s.threads[a.thread].Delivering?
    ensures OneOwner(Step(c, s, a))
  {
    hide Total;
    var s', i := Step(c, s, a), a.thread;
    forall id ensures Owners(s', id) == Owed(s', id) {
      assert Owners(s, id) == Owed(s, id);
      TotalUpdate(s.threads, i, s'.threads[i], Owns(id));
      if s.threads[i] == WorkerIdle {
        TotalHead(s.queue, Is(id));
      } else if s.threads[i].Sender? {
        TotalAppend(s.queue, s.threads[i].id, Is(id));
      }
    }
  }

  lemma HandOverKeepsInv(c: Config, s: State, a: Action)
    requires Inv(c, s) && Enabled(s, a) && a.Move? && !s.threads[a.thread].Delivering?
    ensures Inv(c, Step(c, s, a))
  {
    hide TerminalFits, Owners, Owed;
    var s', i := Step(c, s, a), a.thread;
    HandOverKeepsOwners(c, s, a);
    assert ThreadOk(c, s, s.threads[i]);
    if s.threads[i] == WorkerIdle {
      assert SlotOk(c, s, s.queue[0]);
    }
    forall j | 0 <= j < |s'.threads|
      ensures ThreadOk(c, s', s'.threads[j]) && (s'.threads[j] == WorkerIdle ==> j == 0)
    {
      assert ThreadOk(c, s, s.threads[j]);
    }
    forall k | 0 <= k < |s'.queue| ensures SlotOk(c, s', s'.queue[k]) {
      if s.threads[i] == WorkerIdle {
        assert SlotOk(c, s, s.queue[k + 1]);
      } else if k < |s.queue| {
        assert SlotOk(c, s, s.queue[k]);
      }
    }
  }

  lemma StepKeepsInv(c: Config, s: State, a: Action)
    requires Inv(c, s) && Enabled(s, a)
    ensures Inv(c, Step(c, s, a))
  {
    match a {
      case Submit(id) => SubmitKeepsInv(c, s, id);
      case Move(i, ok) =>
        if s.threads[i].Delivering? {
          assert ThreadOk(c, s, s.threads[i]);
          DeliverKeepsInv(c, s, i, ok);
        } else {
          HandOverKeepsInv(c, s, a);
        }
    }
  }

  ghost predicate Runs(c: Config, s: State, actions: seq<Action>)
    decreases |actions|
  {
    |actions| == 0 || (Enabled(s, actions[0]) && Runs(c, Step(c, s, actions[0]), actions[1..]))
  }

  function After(c: Config, s: State, actions: seq<Action>): State
    requires Runs(c, s, actions)
    decreases |actions|
  {
    if |actions| == 0 then s else After(c, Step(c, s, actions[0]), actions[1..])
  }

  ghost predicate Reachable(c: Config, s: State) {
    exists actions :: Runs(c, INITIAL, actions) && s == After(c, INITIAL, actions)
  }

  lemma {:induction false} RunKeepsInv(c: Config, s: State, actions: seq<Action>)
    requires Inv(c, s) && Runs(c, s, actions)
    ensures Inv(c, After(c, s, actions))
    decreases |actions|
  {
    if |actions| > 0 {
      StepKeepsInv(c, s, actions[0]);
      RunKeepsInv(c, Step(c, s, actions[0]), actions[1..]);
    }
  }

  lemma ReachableInv(c: Config, s: State)
    requires Reachable(c, s) && c.maxRetries >= 1
    ensures Inv(c, s)
  {
    var actions :| Runs(c, INITIAL, actions) && s == After(c, INITIAL, actions);
    InitialInv(c);
    RunKeepsInv(c, INITIAL, actions);
  }

  // ---------------------------------------------------------------------
  // What every run guarantees
  // ---------------------------------------------------------------------

  /** A notification has exactly one owner until it is terminal and none
      afterwards, so it is never delivered twice at once. */
  lemma ExactlyOneOwner(c: Config, s: State, id: Id)
    requires Reachable(c, s) && c.maxRetries >= 1
    ensures Owners(s, id) == if id in s.notes && !Terminal(s.notes[id]) then 1 else 0
    ensures forall i, j :: 0 <= i < j < |s.threads| && s.threads[i].Delivering? && s.threads[j].Delivering? ==>
      s.threads[i].id != s.threads[j].id
    ensures |s.queue| <= c.queueSize
  {
    ReachableInv(c, s);
    assert Owners(s, id) == Owed(s, id);
    forall i, j | 0 <= i < j < |s.threads| && s.threads[i].Delivering? && s.threads[j].Delivering?
      ensures s.threads[i].id != s.threads[j].id
    {
      SoleOwner(s, i, s.threads[i].id);
      assert Owns(s.threads[i].id)(s.threads[j]) == 0;
    }
  }

  lemma {:induction false} Pow2Monotone(m: nat, n: nat)
    requires m <= n
    ensures Pow2(m) <= Pow2(n)
    decreases n
  {
    if m < n {
      Pow2Monotone(m, n - 1);
    }
  }

  /** At most MaxRetries attempts; Failed exactly after that many failures
      (or about to be set so), Delivered with the attempt after the failures; and all backoff together
      stays within 2^MaxRetries - 2 seconds. */
  lemma RetriesAreBounded(c: Config, s: State, id: Id)
    requires Reachable(c, s) && c.maxRetries >= 1 && id in s.notes
    ensures s.notes[id].attempts <= c.maxRetries
    ensures s.notes[id].status == Failed ==> s.notes[id].attempts == s.notes[id].retryCount == c.maxRetries
    ensures s.notes[id].retryCount >= c.maxRetries <==> (
      s.notes[id].status == Failed || exists i :: 0 <= i < |s.threads| && s.threads[i] == Delivering(id, Failing))
    ensures s.notes[id].status == Delivered ==> s.notes[id].attempts == s.notes[id].retryCount + 1
    ensures s.notes[id].backoff <= Pow2(c.maxRetries) - 2
  {
    ReachableInv(c, s);
    var n := s.notes[id];
    assert TerminalFits(c, n);
    if !Terminal(n) {
      var t := OwnerFits(c, s, id);
    }
    assert forall i :: 0 <= i < |s.threads| ==> ThreadOk(c, s, s.threads[i]);
    if n.retryCount < c.maxRetries {
      Pow2Monotone(n.retryCount + 1, c.maxRetries);
      PowerStep(n.retryCount);
      Pow2Monotone(n.retryCount, c.maxRetries);
    }
  }

  /** A notification that is not terminal is where its owner says. */
  lemma OwnerFits(c: Config, s: State, id: Id) returns (t: Thread)
    requires Inv(c, s) && id in s.notes && !Terminal(s.notes[id])
    ensures NoteFits(c, t, s.notes[id])
    ensures t == Sender(id) || t == Sleeping(id) || (t.Delivering? && t.id == id)
    ensures (exists k :: 0 <= k < |s.queue| && s.queue[k] == id) ||
            (exists i :: 0 <= i < |s.threads| && s.threads[i] == t)
  {
    assert Owners(s, id) == Owed(s, id);
    if Total(s.threads, Owns(id)) > 0 {
      var i := TotalPositive(s.threads, Owns(id));
      t := s.threads[i];
      assert ThreadOk(c, s, t);
    } else {
      var k := TotalPositive(s.queue, Is(id));
      assert SlotOk(c, s, s.queue[k]);
      t := Sender(id);
    }
  }

  /** Delivered and Failed are final: no step of any goroutine touches the
      notification again. */
  lemma TerminalIsFinal(c: Config, s: State, a: Action, id: Id)
    requires Reachable(c, s) && c.maxRetries >= 1 && Enabled(s, a) && id in s.notes && Terminal(s.notes[id])
    ensures id in Step(c, s, a).notes && Step(c, s, a).notes[id] == s.notes[id]
  {
    ReachableInv(c, s);
    if a.Move? && s.threads[a.thread].Delivering? {
      SoleOwner(s, a.thread, s.threads[a.thread].id);
    }
  }

  // ---------------------------------------------------------------------
  // Progress
  // ---------------------------------------------------------------------

  /** While a notification is not terminal, some goroutine can move. */
  lemma NeverStuck(c: Config, s: State, id: Id)
    requires Reachable(c, s) && c.maxRetries >= 1 && id in s.notes && !Terminal(s.notes[id])
    ensures exists i: nat :: Enabled(s, Move(i, true))
  {
    ReachableInv(c, s);
    var t := OwnerFits(c, s, id);
    if k :| 0 <= k < |s.queue| && s.queue[k] == id {
      assert Enabled(s, Move(0, true));
    } else {
      var i :| 0 <= i < |s.threads| && s.threads[i] == t;
      assert Enabled(s, Move(i, true));
    }
  }

  function ThreadRank(t: Thread): int {
    match t
    case Sender(_) => 5
    case Sleeping(_) => 7
    case Delivering(_, Starting) => 3
    case Delivering(_, Attempting) => 2
    case Delivering(_, Judged(_)) => 9
    case Delivering(_, _) => 8
    case _ => 0
  }

  function SlotRank(id: Id): int { 4 }

  ghost function AttemptsLeft(c: Config, notes: map<Id, Note>): map<Id, int> {
    map id | id in notes :: 8 * (c.maxRetries - notes[id].attempts)
  }

  /** What is still to be done, in moves. */
  ghost function Work(c: Config, s: State): int {
    MapTotal(AttemptsLeft(c, s.notes)) + Total(s.threads, ThreadRank) + Total(s.queue, SlotRank)
  }

  lemma DeliverUsesWork(c: Config, s: State, i: nat, ok: bool)
    requires i < |s.threads| && s.threads[i].Delivering? && s.threads[i].id in s.notes
    ensures Work(c, DeliverStep(c, s, i, ok)) < Work(c, s)
  {
    hide Total, MapTotal;
    var s', id := DeliverStep(c, s, i, ok), s.threads[i].id;
    TotalUpdate(s.threads, i, s'.threads[i], ThreadRank);
    TotalAppend(s.threads[i := s'.threads[i]], Sleeping(id), ThreadRank);
    var left, left' := AttemptsLeft(c, s.notes), AttemptsLeft(c, s'.notes);
    assert left' == left[id := left'[id]];
    MapTotalSet(left, id, left'[id]);
  }

  lemma HandOverUsesWork(c: Config, s: State, a: Action)
    requires Enabled(s, a) && a.Move? && !s.threads[a.thread].Delivering?
    ensures Work(c, Step(c, s, a)) < Work(c, s)
  {
    hide Total;
    var s', i := Step(c, s, a), a.thread;
    TotalUpdate(s.threads, i, s'.threads[i], ThreadRank);
    if s.threads[i] == WorkerIdle {
      TotalHead(s.queue, SlotRank);
    } else if s.threads[i].Sender? {
      TotalAppend(s.queue, s.threads[i].id, SlotRank);
    }
  }

  /** Every move of every goroutine uses up work, so a finite batch of
      notifications comes to rest. */
  lemma MoveUsesWork(c: Config, s: State, a: Action)
    requires Reachable(c, s) && c.maxRetries >= 1 && Enabled(s, a) && a.Move?
    ensures 0 <= Work(c, Step(c, s, a)) < Work(c, s)
  {
    ReachableInv(c, s);
    StepKeepsInv(c, s, a);
    WorkNonNegative(c, Step(c, s, a));
    if s.threads[a.thread].Delivering? {
      assert ThreadOk(c, s, s.threads[a.thread]);
      DeliverUsesWork(c, s, a.thread, a.ok);
    } else {
      HandOverUsesWork(c, s, a);
    }
  }

  lemma {:induction false} MapNonNegative(m: map<Id, int>)
    requires forall k :: k in m ==> m[k] >= 0
    ensures MapTotal(m) >= 0
  {
    if m != map[] {
      var k :| k in m;
      MapTotalRemove(m, k);
      MapNonNegative(m - {k});
    }
  }

  lemma WorkNonNegative(c: Config, s: State)
    requires Inv(c, s)
    ensures Work(c, s) >= 0
  {
    TotalNonNegative(s.threads, ThreadRank);
    TotalNonNegative(s.queue, SlotRank);
    forall id | id in s.notes ensures s.notes[id].attempts <= c.maxRetries {
      assert TerminalFits(c, s.notes[id]);
      if !Terminal(s.notes[id]) {
        var t := OwnerFits(c, s, id);
      }
    }
    MapNonNegative(AttemptsLeft(c, s.notes));
  }

  // ---------------------------------------------------------------------
  // The objects, one method per section of the Go code
  // ---------------------------------------------------------------------

  class Notification {
    const id: Id
    const maxRetries: nat
    var status: Status
    var retryCount: nat
    ghost var attempts: nat
    ghost var backoff: nat

    constructor (id: Id, maxRetries: nat)
      ensures this.id == id && this.maxRetries == maxRetries && Value() == Note(Queued, 0, 0, 0)
    {
      this.id, this.maxRetries := id, maxRetries;
      status, retryCount, attempts, backoff := Queued, 0, 0, 0;
    }

    ghost function Value(): Note
      reads this
    {
      Note(status, retryCount, attempts, backoff)
    }
  }

  class NotificationService {
    const config: Config
    var notifications: map<Id, Notification>
    var queue: seq<Id>
    ghost var threads: seq<Thread>

    ghost function Value(): State
      reads this, notifications.Values
    {
      State(map id | id in notifications :: notifications[id].Value(), queue, threads)
    }

    ghost predicate Filed()
      reads this`notifications, notifications.Values
    {
      forall id :: id in notifications ==>
        notifications[id].id == id && notifications[id].maxRetries == config.maxRetries
    }

    ghost predicate Valid()
      reads this, notifications.Values
    {
      Filed() && Inv(config, Value())
    }

    ghost predicate At(thread: nat, t: Thread)
      reads this
    {
      thread < |threads| && threads[thread] == t
    }

    constructor (config: Config)
      requires config.maxRetries >= 1
      ensures Valid() && Value() == INITIAL && this.config == config
    {
      this.config := config;
      notifications, queue, threads := map[], [], [WorkerIdle];
      new;
      InitialInv(config);
    }

    /** Send up to the select: the notification is stored under its fresh id. */
    method Submit(id: Id) returns (n: Notification)
      requires Valid() && id !in notifications
      modifies this`notifications, this`threads
      ensures Valid() && Value() == Step(config, old(Value()), Action.Submit(id))
      ensures fresh(n) && notifications == old(notifications)[id := n]
      ensures At(old(|threads|), Sender(id)) && n.Value() == Note(Queued, 0, 0, 0)
    {
      hide Inv;
      ghost var s := Value();
      SubmitKeepsInv(config, s, id);
      n := new Notification(id, config.maxRetries);
      notifications := notifications[id := n];
      threads := threads + [Sender(id)];
      assert Value().notes == s.notes[id := Note(Queued, 0, 0, 0)];
    }

    /** The select of Send: into the queue while there is room, otherwise this
        goroutine delivers by itself. */
    method Enqueue(id: Id, ghost thread: nat) returns (queued: bool)
      requires Valid() && At(thread, Sender(id))
      modifies this`queue, this`threads
      ensures Valid() && Value() == Step(config, old(Value()), Move(thread, true))
      ensures queued <==> old(|queue|) < config.queueSize
      ensures if queued then queue == old(queue) + [id] else At(thread, Delivering(id, Starting))
    {
      hide Inv;
      ghost var s := Value();
      StepKeepsInv(config, s, Move(thread, true));
      queued := |queue| < config.queueSize;
      if queued {
        queue := queue + [id];
        threads := threads[thread := Ended];
      } else {
        threads := threads[thread := Delivering(id, Starting)];
      }
      assert Value().notes == s.notes;
    }

    /** The worker takes the oldest queued notification. */
    method TakeFromQueue() returns (id: Id)
      requires Valid() && At(0, WorkerIdle) && |queue| > 0
      modifies this`queue, this`threads
      ensures Valid() && Value() == Step(config, old(Value()), Move(0, true))
      ensures id == old(queue)[0] && queue == old(queue)[1..] && At(0, Delivering(id, Starting))
    {
      hide Inv;
      ghost var s := Value();
      StepKeepsInv(config, s, Move(0, true));
      id := queue[0];
      queue := queue[1..];
      threads := threads[0 := Delivering(id, Starting)];
      assert Value().notes == s.notes;
    }

    /** A retry goroutine has slept out its delay. */
    ghost method Wake(id: Id, thread: nat)
      requires Valid() && At(thread, Sleeping(id))
      modifies this`threads
      ensures Valid() && Value() == Step(config, old(Value()), Move(thread, true))
      ensures At(thread, Delivering(id, Starting))
    {
      hide Inv;
      ghost var s := Value();
      StepKeepsInv(config, s, Move(thread, true));
      threads := threads[thread := Delivering(id, Starting)];
      assert Value().notes == s.notes;
    }

    /** A step of deliver rewrites its notification and its goroutine only. */
    lemma SetsOne(s: State, thread: nat, ok: bool)
      requires Filed() && thread < |s.threads| && s.threads[thread].Delivering?
      requires s.threads[thread].id in s.notes && s.threads[thread].id in notifications
      requires notifications.Keys == s.notes.Keys && queue == s.queue
      requires threads == DeliverStep(config, s, thread, ok).threads
      requires notifications[s.threads[thread].id].Value() ==
        DeliverStep(config, s, thread, ok).notes[s.threads[thread].id]
      requires forall k :: k in s.notes && k != s.threads[thread].id ==> notifications[k].Value() == s.notes[k]
      ensures Value() == DeliverStep(config, s, thread, ok)
    {
    }

    /** The queue and all other notifications stay as they were. */
    twostate predicate OnlyChanges(id: Id)
      requires id in notifications
      reads this, notifications.Values
    {
      Value().queue == old(Value()).queue && Value().notes == old(Value()).notes[id := notifications[id].Value()]
    }

    /** The status updates of deliver: Sending before the attempt, Delivered after
        a success, Failed when no retry is left. */
    method UpdateStatus(id: Id, status: Status, ghost thread: nat, ghost phase: Phase)
      requires Valid() && At(thread, Delivering(id, phase))
      requires (phase, status) in {(Starting, Sending), (Judged(true), Delivered), (Failing, Failed)}
      modifies this`threads, notifications.Values
      ensures Valid() && notifications == old(notifications) && id in notifications
      ensures Value() == Step(config, old(Value()), Move(thread, true)) && OnlyChanges(id)
      ensures notifications[id].Value() == old(notifications[id].Value()).(status := status)
      ensures At(thread, if status == Sending then Delivering(id, Attempting) else Rest(thread))
    {
      ghost var s := Value();
      Held(s, thread);
      StepKeepsInv(config, s, Move(thread, true));
      hide Inv;
      notifications[id].status := status;
      threads := DeliverStep(config, s, thread, true).threads;
      SetsOne(s, thread, true);
    }

    /** The sender for the notification's type comes back. */
    ghost method Attempt(id: Id, ok: bool, thread: nat)
      requires Valid() && At(thread, Delivering(id, Attempting))
      modifies this`threads, notifications.Values
      ensures Valid() && notifications == old(notifications) && id in notifications
      ensures Value() == Step(config, old(Value()), Move(thread, ok)) && OnlyChanges(id)
      ensures notifications[id].Value() ==
        old(notifications[id].Value()).(attempts := old(notifications[id].attempts) + 1)
      ensures At(thread, Delivering(id, Judged(ok)))
    {
      ghost var s := Value();
      Held(s, thread);
      StepKeepsInv(config, s, Move(thread, ok));
      hide Inv;
      notifications[id].attempts := notifications[id].attempts + 1;
      threads := DeliverStep(config, s, thread, ok).threads;
      SetsOne(s, thread, ok);
    }

    /** RetryCount++ and the comparison with MaxRetries. */
    method CountFailure(id: Id, ghost thread: nat) returns (giveUp: bool)
      requires Valid() && At(thread, Delivering(id, Judged(false)))
      modifies this`threads, notifications.Values
      ensures Valid() && notifications == old(notifications) && id in notifications
      ensures Value() == Step(config, old(Value()), Move(thread, true)) && OnlyChanges(id)
      ensures notifications[id].Value() ==
        old(notifications[id].Value()).(retryCount := old(notifications[id].retryCount) + 1)
      ensures giveUp <==> notifications[id].retryCount >= config.maxRetries
      ensures At(thread, Delivering(id, if giveUp then Failing else Backing))
    {
      ghost var s := Value();
      Held(s, thread);
      StepKeepsInv(config, s, Move(thread, true));
      hide Inv;
      var n := notifications[id];
      n.retryCount := n.retryCount + 1;
      giveUp := n.retryCount >= n.maxRetries;
      threads := DeliverStep(config, s, thread, true).threads;
      SetsOne(s, thread, true);
    }

    /** Retrying, and the goroutine that sleeps 1 << RetryCount seconds. */
    method ScheduleRetry(id: Id, ghost thread: nat) returns (delay: nat)
      requires Valid() && At(thread, Delivering(id, Backing))
      modifies this`threads, notifications.Values
      ensures Valid() && notifications == old(notifications) && id in notifications
      ensures Value() == Step(config, old(Value()), Move(thread, true)) && OnlyChanges(id)
      ensures notifications[id].Value() == old(notifications[id].Value()).(
        status := Retrying, backoff := old(notifications[id].backoff) + delay)
      ensures delay == Pow2(notifications[id].retryCount)
      ensures At(old(|threads|), Sleeping(id)) && At(thread, Rest(thread))
    {
      ghost var s := Value();
      Held(s, thread);
      StepKeepsInv(config, s, Move(thread, true));
      hide Inv;
      var n := notifications[id];
      n.status := Retrying;
      delay := Pow2(n.retryCount);
      n.backoff := n.backoff + delay;
      threads := DeliverStep(config, s, thread, true).threads;
      SetsOne(s, thread, true);
    }

    /** deliver up to the answer of the sender. */
    method Try(id: Id, ok: bool, ghost thread: nat)
      requires Valid() && At(thread, Delivering(id, Starting))
      modifies this`threads, notifications.Values
      ensures Valid() && notifications == old(notifications) && id in notifications && OnlyChanges(id)
      ensures notifications[id].Value() ==
        old(notifications[id].Value()).(status := Sending, attempts := old(notifications[id].attempts) + 1)
      ensures At(thread, Delivering(id, Judged(ok)))
    {
      hide Inv, Step, DeliverStep;
      UpdateStatus(id, Sending, thread, Starting);
      Attempt(id, ok, thread);
    }

    /** What deliver does about a failure. */
    method Fail(id: Id, ghost thread: nat)
      requires Valid() && At(thread, Delivering(id, Judged(false)))
      modifies this`threads, notifications.Values
      ensures Valid() && notifications == old(notifications) && id in notifications && OnlyChanges(id)
      ensures notifications[id].Value() == AfterFailure(config, old(notifications[id].Value()))
      ensures At(thread, Rest(thread))
    {
      hide Inv, Step, DeliverStep, Pow2;
      var giveUp := CountFailure(id, thread);
      if giveUp {
        UpdateStatus(id, Failed, thread, Failing);
      } else {
        var delay := ScheduleRetry(id, thread);
      }
    }

    /** One call of deliver with nobody else moving: one more attempt, and then
        Delivered, Failed after the last retry, or asleep before the next. */
    method Deliver(id: Id, ok: bool, ghost thread: nat)
      requires Valid() && At(thread, Delivering(id, Starting))
      modifies this`threads, notifications.Values
      ensures Valid() && notifications == old(notifications) && id in notifications && OnlyChanges(id)
      ensures notifications[id].Value() == AfterDelivery(config, old(notifications[id].Value()), ok)
      ensures At(thread, Rest(thread))
    {
      hide Inv, Step, DeliverStep, AfterFailure;
      Try(id, ok, thread);
      if ok {
        UpdateStatus(id, Delivered, thread, Judged(true));
      } else {
        Fail(id, thread);
      }
    }
  }

  /** A notification after one more failure: Failed when that was the last retry,
      otherwise asleep for twice as long as before. */
  function AfterFailure(c: Config, n: Note): Note {
    var failed := n.(retryCount := n.retryCount + 1);
    if failed.retryCount >= c.maxRetries then failed.(status := Failed)
    else failed.(status := Retrying, backoff := failed.backoff + Pow2(failed.retryCount))
  }

  /** A notification after one whole delivery. */
  function AfterDelivery(c: Config, n: Note, ok: bool): Note {
    var tried := n.(attempts := n.attempts + 1, status := Sending);
    if ok then tried.(status := Delivered) else AfterFailure(c, tried)
  }

  lemma Held(s: State, thread: nat)
    requires OneOwner(s) && thread < |s.threads| && s.threads[thread].Delivering?
    ensures s.threads[thread].id in s.notes
  {
    SoleOwner(s, thread, s.threads[thread].id);
  }

  lemma InitialInv(c: Config)
    requires c.maxRetries >= 1
    ensures Inv(c, INITIAL)
  {
  }
}
