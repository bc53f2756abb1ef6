/** Life of one payment transaction: the status machine and partial refunds
    (services/transaction/models/transaction.go,
    services/transaction/services/transaction_service.go). */
module TxLifecycle {
  import opened Results
  import opened Int64

  datatype Status = Pending | Authorized | Completed | Failed | Cancelled | Refunded | OtherStatus(name: string)

  datatype Error = NotFound | InvalidTransition | CannotCancel | CannotRefund | RefundExceedsAmount

  datatype Op = Authorize | Complete | Cancel | Fail | Refund(amount: int64)

  datatype Life = Life(amount: int64, status: Status, refunded: int64)

  // ---------------------------------------------------------------------
  // The status machine
  // ---------------------------------------------------------------------

  const VALID_TRANSITIONS: map<Status, seq<Status>> := map[
    Pending := [Authorized, Failed, Cancelled],
    Authorized := [Completed, Failed, Cancelled],
    Completed := [Refunded],
    Failed := [],
    Cancelled := [],
    Refunded := []]

  predicate CanTransitionTo(s: Status, target: Status) {
    s in VALID_TRANSITIONS && target in VALID_TRANSITIONS[s]
  }

  /** Longest way a status has before it. */
  function Rank(s: Status): nat {
    match s
    case Pending => 3
    case Authorized => 2
    case Completed => 1
    case _ => 0
  }

  /** The machine has no cycle, final states have no way out, and no other
      status leads back to Pending. */
  lemma TransitionsDescend(s: Status, t: Status)
    ensures CanTransitionTo(s, t) ==> Rank(t) < Rank(s) && t != Pending
    ensures (exists u :: CanTransitionTo(s, u)) <==> Rank(s) > 0
  {
    if Rank(s) > 0 {
      var u := VALID_TRANSITIONS[s][0];
      assert CanTransitionTo(s, u);
    }
  }

  /** The table, pair by pair. */
  lemma TransitionsExact(s: Status, t: Status)
    ensures CanTransitionTo(s, t) <==>
      (s == Pending && (t == Authorized || t == Failed || t == Cancelled)) ||
      (s == Authorized && (t == Completed || t == Failed || t == Cancelled)) ||
      (s == Completed && t == Refunded)
  {
  }

  function Target(op: Op): Status {
    match op
    case Authorize => Authorized
    case Complete => Completed
    case Cancel => Cancelled
    case Fail => Failed
    case Refund(_) => Refunded
  }

  function Refusal(op: Op): Error {
    match op
    case Cancel => CannotCancel
    case Refund(_) => CannotRefund
    case _ => InvalidTransition
  }

  /** Amount 0 asks for the full original amount, also after a partial refund. */
  function Effective(l: Life, amount: int64): int64 {
    if amount == 0 then l.amount else amount
  }

  function Apply(l: Life, op: Op): Result<Life, Error> {
    if !CanTransitionTo(l.status, Target(op)) then Err(Refusal(op))
    else if !op.Refund? then Ok(l.(status := Target(op)))
    else
      var refunded := Wrap(l.refunded + Effective(l, op.amount));
      if refunded > l.amount then Err(RefundExceedsAmount)
      else Ok(l.(refunded := refunded, status := if refunded >= l.amount then Refunded else l.status))
  }

  // ---------------------------------------------------------------------
  // What refunds must keep
  // ---------------------------------------------------------------------

  /** Refunded exactly when everything is refunded, nothing before completion. */
  ghost predicate Consistent(l: Life) {
    l.amount > 0 && 0 <= l.refunded <= l.amount &&
    (l.refunded > 0 ==> l.status == Completed || l.status == Refunded) &&
    (l.status == Refunded <==> l.refunded == l.amount)
  }

  /** What a caller must see to: the amount is not negative, and what it asks
      for does not leave int64 on top of what is already refunded. */
  predicate SafeRefund(l: Life, amount: int64) {
    amount >= 0 && l.refunded as int + Effective(l, amount) as int <= MAX
  }

  function After(l: Life, op: Op): Life {
    if Apply(l, op).Ok? then Apply(l, op).value else l
  }

  /** Booked faithfully: still consistent, and a success has refunded exactly the
      amount asked for, and something. */
  ghost predicate Booked(before: Life, amount: int64) {
    var after := After(before, Refund(amount));
    Consistent(after) &&
    (Apply(before, Refund(amount)).Ok? ==>
      after.refunded == before.refunded + Effective(before, amount) && after.refunded > before.refunded)
  }

  /** A safe refund of a completed transaction succeeds exactly when it fits into
      what is left, and completes the refund exactly when it is all that is left. */
  lemma SafeRefundOutcome(l: Life, amount: int64)
    requires Consistent(l) && l.status == Completed && SafeRefund(l, amount)
    ensures var asked := if amount == 0 then l.amount else amount;
      Apply(l, Refund(amount)) ==
        if l.refunded as int + asked as int > l.amount then Err(RefundExceedsAmount)
        else Ok(Life(
          l.amount, if l.refunded as int + asked as int == l.amount then Refunded else Completed,
          l.refunded + asked))
  {
    WrapResidue(l.refunded + Effective(l, amount));
  }

  /** A refund in any other status is refused. */
  lemma RefundNeedsCompletion(l: Life, amount: int64)
    requires l.status != Completed
    ensures Apply(l, Refund(amount)) == Err(CannotRefund)
  {
  }

  /** A refund of a completed transaction is booked faithfully exactly when it
      is safe: the code lets every unsafe one through. */
  lemma RefundExactness(l: Life, amount: int64)
    requires Consistent(l)
    ensures Booked(l, amount) <==> l.status != Completed || SafeRefund(l, amount)
    ensures l.status == Completed && !SafeRefund(l, amount) ==> Apply(l, Refund(amount)).Ok?
  {
    var sum := l.refunded + Effective(l, amount);
    WrapResidue(sum);
    if sum > MAX {
      WrapOverflow(sum);
    }
  }

  /** Amount 0 is documented as a full refund. It completes the refund exactly
      when nothing has been refunded before. */
  lemma FullRefundExactness(l: Life)
    requires Consistent(l) && l.status == Completed
    ensures After(l, Refund(0)).refunded == l.amount <==> l.refunded == 0
    ensures After(l, Refund(0)).status == Refunded <==> l.refunded == 0
  {
    var sum := l.refunded + l.amount;
    WrapResidue(sum);
    if sum > MAX {
      WrapOverflow(sum);
    }
  }

  /** Negative refunds succeed: one leaves a negative refunded amount, another
      takes back half of what was refunded. */
  lemma NegativeRefundIsAccepted()
    ensures Apply(Life(100, Completed, 0), Refund(-1)) == Ok(Life(100, Completed, -1))
    ensures Apply(Life(100, Completed, 10), Refund(-5)) == Ok(Life(100, Completed, 5))
  {
    WrapResidue(-1);
    WrapResidue(5);
  }

  /** A full refund after a partial one can wrap around and succeed. */
  lemma OverflowingRefundIsAccepted()
    ensures Apply(Life(MAX, Completed, 1), Refund(0)) == Ok(Life(MAX, Completed, MIN))
  {
  }

  lemma OtherOpsKeepConsistent(l: Life, op: Op)
    requires Consistent(l) && !op.Refund?
    ensures Consistent(After(l, op)) && After(l, op).refunded == l.refunded
  {
  }

  // ---------------------------------------------------------------------
  // Whole lives
  // ---------------------------------------------------------------------

  function Final(l: Life, ops: seq<Op>): Life
    decreases |ops|
  {
    if |ops| == 0 then l else Final(After(l, ops[0]), ops[1..])
  }

  function Successes(l: Life, ops: seq<Op>): nat
    decreases |ops|
  {
    if |ops| == 0 then 0
    else (if Apply(l, ops[0]).Ok? then 1 else 0) + Successes(After(l, ops[0]), ops[1..])
  }

  /** Sum of the refunds that succeeded. */
  function RefundedBy(l: Life, ops: seq<Op>): int
    decreases |ops|
  {
    if |ops| == 0 then 0
    else
      (if ops[0].Refund? && Apply(l, ops[0]).Ok? then Effective(l, ops[0].amount) else 0) +
      RefundedBy(After(l, ops[0]), ops[1..])
  }

  /** Successful calls still possible, at most. */
  function Budget(l: Life): int {
    match l.status
    case Pending => l.amount + 2
    case Authorized => l.amount + 1
    case Completed => l.amount - l.refunded
    case _ => 0
  }

  /** Every refund that reaches a completed transaction is safe; a refund in any
      other status is refused, whatever it asks for. */
  predicate Safe(l: Life, op: Op) {
    op.Refund? && l.status == Completed ==> SafeRefund(l, op.amount)
  }

  predicate SafeRun(l: Life, ops: seq<Op>)
    decreases |ops|
  {
    |ops| == 0 || (Safe(l, ops[0]) && SafeRun(After(l, ops[0]), ops[1..]))
  }

  /** Every call of the run leaves a consistent state, and every refund is booked
      faithfully. */
  ghost predicate BookedRun(l: Life, ops: seq<Op>)
    decreases |ops|
  {
    |ops| == 0 ||
    (Consistent(After(l, ops[0])) && (ops[0].Refund? ==> Booked(l, ops[0].amount)) &&
     BookedRun(After(l, ops[0]), ops[1..]))
  }

  /** A whole run is booked faithfully exactly when its refunds are safe. */
  lemma {:induction false} RunExactness(l: Life, ops: seq<Op>)
    requires Consistent(l)
    ensures BookedRun(l, ops) <==> SafeRun(l, ops)
    decreases |ops|
  {
    if |ops| > 0 {
      if ops[0].Refund? {
        RefundExactness(l, ops[0].amount);
      } else {
        OtherOpsKeepConsistent(l, ops[0]);
      }
      if Consistent(After(l, ops[0])) {
        RunExactness(After(l, ops[0]), ops[1..]);
      }
    }
  }

  lemma SafeStep(l: Life, op: Op)
    requires Consistent(l) && Safe(l, op)
    ensures Consistent(After(l, op)) && After(l, op).amount == l.amount
    ensures After(l, op).refunded == l.refunded +
            if op.Refund? && Apply(l, op).Ok? then Effective(l, op.amount) else 0
    ensures 0 <= Budget(After(l, op)) <= Budget(l) - if Apply(l, op).Ok? then 1 else 0
  {
    if op.Refund? {
      RefundExactness(l, op.amount);
    }
  }

  /** Over every run of safe calls the refunded amount is the sum of the
      successful refunds, stays within the amount, and reaches it exactly when
      the transaction is refunded; and calls succeed at most amount + 2 times. */
  lemma {:induction false} LifeIsAccounted(l: Life, ops: seq<Op>)
    requires Consistent(l) && SafeRun(l, ops)
    ensures Consistent(Final(l, ops))
    ensures Final(l, ops).refunded == l.refunded + RefundedBy(l, ops)
    ensures Successes(l, ops) <= Budget(l) <= l.amount + 2
    decreases |ops|
  {
    if |ops| > 0 {
      SafeStep(l, ops[0]);
      LifeIsAccounted(After(l, ops[0]), ops[1..]);
    }
  }

  function Ones(n: nat): seq<Op> {
    if n == 0 then [] else [Refund(1)] + Ones(n - 1)
  }

  lemma {:induction false} OnesSucceed(l: Life, n: nat)
    requires Consistent(l) && l.status == Completed && l.refunded + n == l.amount
    ensures Successes(l, Ones(n)) == n && SafeRun(l, Ones(n))
    decreases n
  {
    if n > 0 {
      assert Ones(n)[1..] == Ones(n - 1);
      SafeStep(l, Refund(1));
      var next := After(l, Refund(1));
      assert next.refunded == l.refunded + 1;
      if n > 1 {
        OnesSucceed(next, n - 1);
      }
    }
  }

  /** amount + 2 successes do happen in a safe run, for every amount. */
  lemma LongestLife(amount: int64)
    requires 0 < amount
    ensures var ops := [Authorize] + ([Complete] + Ones(amount));
      SafeRun(Life(amount, Pending, 0), ops) && Successes(Life(amount, Pending, 0), ops) == amount + 2
  {
    var l := Life(amount, Pending, 0);
    var rest := [Complete] + Ones(amount);
    assert ([Authorize] + rest)[1..] == rest && rest[1..] == Ones(amount);
    OnesSucceed(l.(status := Completed), amount);
    assert SafeRun(l.(status := Authorized), rest);
    assert Successes(l.(status := Authorized), rest) == 1 + amount;
  }

  /** Call j is the one with which a run goes from one status to another. */
  ghost predicate Turns(l: Life, ops: seq<Op>, j: nat, op: Op, from: Status, to: Status) {
    j < |ops| && ops[j] == op && Final(l, ops[..j]).status == from && Final(l, ops[..j + 1]).status == to
  }

  lemma TurnsLater(l: Life, ops: seq<Op>, j: nat, op: Op, from: Status, to: Status)
    requires |ops| > 0 && Turns(After(l, ops[0]), ops[1..], j, op, from, to)
    ensures Turns(l, ops, j + 1, op, from, to)
  {
    assert ops[..j + 1][1..] == ops[1..][..j] && ops[..j + 2][1..] == ops[1..][..j + 1];
  }

  lemma TurnsNow(l: Life, ops: seq<Op>)
    requires |ops| > 0
    ensures Turns(l, ops, 0, ops[0], l.status, After(l, ops[0]).status)
  {
    assert ops[..1][1..] == [];
    assert Final(l, ops[..1]) == Final(After(l, ops[0]), []);
  }

  lemma {:induction false} CompletedByCall(l: Life, ops: seq<Op>) returns (j: nat)
    requires l.status == Authorized
    requires Final(l, ops).status == Completed || Final(l, ops).status == Refunded
    ensures Turns(l, ops, j, Complete, Authorized, Completed)
    decreases |ops|
  {
    hide Turns;
    TransitionsExact(l.status, Target(ops[0]));
    if After(l, ops[0]).status == Authorized {
      j := CompletedByCall(After(l, ops[0]), ops[1..]);
      TurnsLater(l, ops, j, Complete, Authorized, Completed);
      j := j + 1;
    } else if ops[0] == Complete {
      j := 0;
      TurnsNow(l, ops);
    } else {
      EndIsFinal(After(l, ops[0]), ops[1..]);
      assert false;
    }
  }

  lemma {:induction false} EndIsFinal(l: Life, ops: seq<Op>)
    requires l.status == Failed || l.status == Cancelled || l.status == Refunded
    ensures Final(l, ops) == l
    decreases |ops|
  {
    if |ops| > 0 {
      EndIsFinal(l, ops[1..]);
    }
  }

  /** Nothing is completed, let alone refunded, but by an Authorize that found it
      pending and a later Complete that found it authorized. */
  lemma {:induction false} CompletedInTwoSteps(l: Life, ops: seq<Op>) returns (i: nat, j: nat)
    requires l.status == Pending
    requires Final(l, ops).status == Completed || Final(l, ops).status == Refunded
    ensures i < j && Turns(l, ops, i, Authorize, Pending, Authorized)
    ensures Turns(l, ops, j, Complete, Authorized, Completed)
    decreases |ops|
  {
    hide Turns;
    TransitionsExact(l.status, Target(ops[0]));
    if After(l, ops[0]).status == Pending {
      i, j := CompletedInTwoSteps(After(l, ops[0]), ops[1..]);
      TurnsLater(l, ops, i, Authorize, Pending, Authorized);
      TurnsLater(l, ops, j, Complete, Authorized, Completed);
      i, j := i + 1, j + 1;
    } else if ops[0] == Authorize {
      TurnsNow(l, ops);
      j := CompletedByCall(After(l, ops[0]), ops[1..]);
      TurnsLater(l, ops, j, Complete, Authorized, Completed);
      i, j := 0, j + 1;
    } else {
      EndIsFinal(After(l, ops[0]), ops[1..]);
      assert false;
    }
  }
}
