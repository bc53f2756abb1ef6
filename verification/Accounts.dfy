/** Account storage as values: email index, versions, atomic balance updates
    (services/account/repositories/repository.go). */
module Accounts {
  import opened Results
  import opened Int64

  datatype Status = Active | Pending | Frozen | Suspended | Closed

  datatype Instrument = Instrument(id: string, kind: string, isDefault: bool)

  datatype Account = Account(
    id: string, email: string, status: Status, balance: int64, instruments: seq<Instrument>)

  datatype Error =
    | AccountNotFound | EmailAlreadyExists | InstrumentNotFound | ConcurrentUpdate | InsufficientBalance
    | InvalidAmount | AccountFrozen | AccountClosed | InvalidRequest | GeneratorFailed

  datatype Repo = Repo(
    accounts: map<string, Account>, emailIndex: map<string, string>, versions: map<string, int>)

  // ---------------------------------------------------------------------
  // Critical sections
  // ---------------------------------------------------------------------

  function Create(r: Repo, a: Account): Result<Repo, Error> {
    if a.email in r.emailIndex then Err(EmailAlreadyExists)
    else Ok(Repo(r.accounts[a.id := a], r.emailIndex[a.email := a.id], r.versions[a.id := 1]))
  }

  function Version(r: Repo, id: string): int {
    if id in r.versions then r.versions[id] else 0
  }

  function Bump(r: Repo, id: string): map<string, int> {
    r.versions[id := Version(r, id) + 1]
  }

  /** Update with an account object other than the stored one. */
  function Update(r: Repo, a: Account): Result<Repo, Error> {
    if a.id !in r.accounts then Err(AccountNotFound)
    else
      var previous := r.accounts[a.id];
      var index :=
        if previous.email != a.email then (r.emailIndex - {previous.email})[a.email := a.id] else r.emailIndex;
      Ok(Repo(r.accounts[a.id := a], index, Bump(r, a.id)))
  }

  function UpdateWithVersion(r: Repo, a: Account, expected: int): Result<Repo, Error> {
    if a.id !in r.accounts then Err(AccountNotFound)
    else if Version(r, a.id) != expected then Err(ConcurrentUpdate)
    else Ok(Repo(r.accounts[a.id := a], r.emailIndex, Bump(r, a.id)))
  }

  /** int64 addition, and the sign of its result as the only check. */
  function UpdateBalance(r: Repo, id: string, delta: int64): Result<Repo, Error> {
    if id !in r.accounts then Err(AccountNotFound)
    else
      var balance := Wrap(r.accounts[id].balance + delta);
      if balance < 0 then Err(InsufficientBalance)
      else Ok(Repo(r.accounts[id := r.accounts[id].(balance := balance)], r.emailIndex, Bump(r, id)))
  }

  function Delete(r: Repo, id: string): Result<Repo, Error> {
    if id !in r.accounts then Err(AccountNotFound)
    else Ok(Repo(r.accounts - {id}, r.emailIndex - {r.accounts[id].email}, r.versions - {id}))
  }

  // ---------------------------------------------------------------------
  // The email index
  // ---------------------------------------------------------------------

  /** The index holds exactly the emails of the stored accounts, each once. */
  ghost predicate Indexed(r: Repo) {
    (forall id :: id in r.accounts ==>
      r.accounts[id].id == id && r.accounts[id].email in r.emailIndex && r.emailIndex[r.accounts[id].email] == id) &&
    (forall e :: e in r.emailIndex ==> r.emailIndex[e] in r.accounts && r.accounts[r.emailIndex[e]].email == e) &&
    r.versions.Keys == r.accounts.Keys
  }

  /** Creating (under a fresh id) and deleting keep the index exact, and emails
      unique. */
  lemma CreateAndDeleteKeepIndex(r: Repo, a: Account, id: string)
    requires Indexed(r)
    ensures a.id !in r.accounts && Create(r, a).Ok? ==> Indexed(Create(r, a).value)
    ensures Create(r, a).Err? <==> exists k :: k in r.accounts && r.accounts[k].email == a.email
    ensures Delete(r, id).Ok? ==> Indexed(Delete(r, id).value)
  {
  }

  /** Update keeps the index exact unless it moves an account to an email that
      is already taken: Update, unlike Create, does not look. */
  lemma UpdateKeepsIndexExactly(r: Repo, a: Account)
    requires Indexed(r) && a.id in r.accounts
    ensures Indexed(Update(r, a).value) <==> a.email == r.accounts[a.id].email || a.email !in r.emailIndex
  {
    var r' := Update(r, a).value;
    if a.email != r.accounts[a.id].email && a.email in r.emailIndex {
      var victim := r.emailIndex[a.email];
      assert victim != a.id && r'.accounts[victim].email == a.email;
    }
  }

  /** UpdateWithVersion never touches the index, so any change of email breaks it. */
  lemma VersionedUpdateKeepsIndexExactly(r: Repo, a: Account, expected: int)
    requires Indexed(r) && UpdateWithVersion(r, a, expected).Ok?
    ensures Indexed(UpdateWithVersion(r, a, expected).value) <==> a.email == r.accounts[a.id].email
  {
  }

  lemma BalanceKeepsIndex(r: Repo, id: string, delta: int64)
    requires Indexed(r)
    ensures UpdateBalance(r, id, delta).Ok? ==> Indexed(UpdateBalance(r, id, delta).value)
  {
  }

  // ---------------------------------------------------------------------
  // Balances
  // ---------------------------------------------------------------------

  /** From a non-negative balance the sign check alone decides exactly: the
      update goes through iff the true sum is in [0, 2^63), and then the new
      balance is the true sum. An overflow wraps negative and is refused. */
  lemma BalanceIsExact(r: Repo, id: string, delta: int64)
    requires id in r.accounts && r.accounts[id].balance >= 0
    ensures UpdateBalance(r, id, delta).Ok? <==> 0 <= r.accounts[id].balance as int + delta as int <= MAX
    ensures UpdateBalance(r, id, delta).Ok? ==>
      UpdateBalance(r, id, delta).value.accounts[id].balance == r.accounts[id].balance as int + delta as int
  {
  }

  // ---------------------------------------------------------------------
  // Optimistic locking over whole runs
  // ---------------------------------------------------------------------

  datatype Op =
    | CreateOp(a: Account) | UpdateOp(a: Account) | VersionedOp(a: Account, expected: int)
    | BalanceOp(id: string, delta: int64) | DeleteOp(id: string)

  function Attempt(r: Repo, op: Op): Result<Repo, Error> {
    match op
    case CreateOp(a) => Create(r, a)
    case UpdateOp(a) => Update(r, a)
    case VersionedOp(a, expected) => UpdateWithVersion(r, a, expected)
    case BalanceOp(id, delta) => UpdateBalance(r, id, delta)
    case DeleteOp(id) => Delete(r, id)
  }

  function Perform(r: Repo, op: Op): Repo {
    if Attempt(r, op).Ok? then Attempt(r, op).value else r
  }

  function RunOps(r: Repo, ops: seq<Op>): Repo
    decreases |ops|
  {
    if |ops| == 0 then r else RunOps(Perform(r, ops[0]), ops[1..])
  }

  /** The operation neither deletes the account nor creates another one under
      its id. */
  predicate Spares(op: Op, id: string) {
    !(op.DeleteOp? && op.id == id) && !(op.CreateOp? && op.a.id == id)
  }

  predicate Writes(r: Repo, op: Op, id: string) {
    Attempt(r, op).Ok? &&
    match op
    case UpdateOp(a) => a.id == id
    case VersionedOp(a, _) => a.id == id
    case BalanceOp(k, _) => k == id
    case _ => false
  }

  function CountWrites(r: Repo, ops: seq<Op>, id: string): nat
    decreases |ops|
  {
    if |ops| == 0 then 0 else (if Writes(r, ops[0], id) then 1 else 0) + CountWrites(Perform(r, ops[0]), ops[1..], id)
  }

  /** The version counts the successful writes. */
  lemma {:induction false} VersionCountsWrites(r: Repo, ops: seq<Op>, id: string)
    requires id in r.accounts && id in r.versions && forall i :: 0 <= i < |ops| ==> Spares(ops[i], id)
    ensures id in RunOps(r, ops).accounts
    ensures Version(RunOps(r, ops), id) == Version(r, id) + CountWrites(r, ops, id)
    decreases |ops|
  {
    if |ops| > 0 {
      assert Spares(ops[0], id);
      VersionCountsWrites(Perform(r, ops[0]), ops[1..], id);
    }
  }

  /** No lost update: a versioned write goes through exactly when nothing was
      written to the account since its version was read. */
  lemma StaleWriteFails(r: Repo, ops: seq<Op>, a: Account)
    requires a.id in r.accounts && a.id in r.versions && forall i :: 0 <= i < |ops| ==> Spares(ops[i], a.id)
    ensures UpdateWithVersion(RunOps(r, ops), a, Version(r, a.id)).Ok? <==> CountWrites(r, ops, a.id) == 0
    ensures UpdateWithVersion(RunOps(r, ops), a, Version(r, a.id)).Err? ==>
      UpdateWithVersion(RunOps(r, ops), a, Version(r, a.id)).error == ConcurrentUpdate
  {
    VersionCountsWrites(r, ops, a.id);
  }

  // ---------------------------------------------------------------------
  // Status changes
  // ---------------------------------------------------------------------

  datatype StatusOp = Activate | Freeze | Unfreeze | Close

  function SetStatus(status: Status, op: StatusOp): Result<Status, Error> {
    match op
    case Activate => if status == Closed then Err(AccountClosed) else Ok(Active)
    case Freeze => Ok(Frozen)
    case Unfreeze => Ok(if status == Frozen then Active else status)
    case Close => Ok(Closed)
  }

  function StatusAfter(status: Status, ops: seq<StatusOp>): Status {
    if |ops| == 0 then status
    else
      var before := StatusAfter(status, ops[..|ops| - 1]);
      var r := SetStatus(before, ops[|ops| - 1]);
      if r.Ok? then r.value else before
  }

  /** CloseAccount is documented as permanent. It is exactly as long as nobody
      freezes the account: a closed account stays closed through all prefixes of
      a run iff the run holds no Freeze, and one Freeze and one Unfreeze bring
      it back to Active. */
  lemma {:induction false} ClosedUnlessFrozen(ops: seq<StatusOp>)
    ensures (forall k :: 0 <= k <= |ops| ==> StatusAfter(Closed, ops[..k]) == Closed) <==> Freeze !in ops
    ensures StatusAfter(Closed, [Freeze, Unfreeze]) == Active
  {
    assert [Freeze, Unfreeze][..1] == [Freeze];
    assert StatusAfter(Closed, [Freeze]) == Frozen;
    if |ops| > 0 {
      var init := ops[..|ops| - 1];
      ClosedUnlessFrozen(init);
      assert ops == init + [ops[|ops| - 1]] && ops[..|ops|] == ops && ops[..|ops| - 1] == init;
      assert forall k :: 0 <= k <= |init| ==> init[..k] == ops[..k];
      if Freeze !in ops {
        forall k | 0 <= k <= |ops| ensures StatusAfter(Closed, ops[..k]) == Closed {
          if k < |ops| {
            assert init[..k] == ops[..k];
          } else {
            assert init[..|init|] == init;
          }
        }
      } else if Freeze in init {
        var k :| 0 <= k <= |init| && StatusAfter(Closed, init[..k]) != Closed;
        assert ops[..k] == init[..k];
      }
    }
  }

  // ---------------------------------------------------------------------
  // Payment instruments
  // ---------------------------------------------------------------------

  function ClearDefaults(s: seq<Instrument>): seq<Instrument> {
    seq(|s|, i requires 0 <= i < |s| => s[i].(isDefault := false))
  }

  function AddInstrument(s: seq<Instrument>, x: Instrument): seq<Instrument> {
    (if x.isDefault then ClearDefaults(s) else s) + [x]
  }

  function RemoveInstrument(s: seq<Instrument>, id: string): seq<Instrument> {
    if |s| == 0 then []
    else RemoveInstrument(s[..|s| - 1], id) + if s[|s| - 1].id != id then [s[|s| - 1]] else []
  }

  ghost predicate HasInstrument(s: seq<Instrument>, id: string) {
    exists x :: x in s && x.id == id
  }

  ghost predicate AtMostOneDefault(s: seq<Instrument>) {
    forall i, j :: 0 <= i < j < |s| && s[i].isDefault ==> !s[j].isDefault
  }

  /** At most one default survives every addition and removal, and a new default
      is the only one. */
  lemma {:induction false} DefaultsStayUnique(s: seq<Instrument>, x: Instrument, id: string)
    requires AtMostOneDefault(s)
    ensures AtMostOneDefault(AddInstrument(s, x))
    ensures x.isDefault ==> forall i :: 0 <= i < |s| ==> !AddInstrument(s, x)[i].isDefault
    ensures AtMostOneDefault(RemoveInstrument(s, id))
    ensures forall y :: y in RemoveInstrument(s, id) <==> y in s && y.id != id
  {
    if |s| > 0 {
      var init, last := s[..|s| - 1], s[|s| - 1];
      DefaultsStayUnique(init, x, id);
      var kept := RemoveInstrument(init, id);
      assert s == init + [last];
      forall i | 0 <= i < |kept| && last.id != id && kept[i].isDefault ensures !last.isDefault {
        assert kept[i] in kept && kept[i] in init;
        var k :| 0 <= k < |init| && init[k] == kept[i];
        assert s[k].isDefault;
      }
    }
  }

  /** t is s with x at the end, where a new default has taken the flag from all
      others and no other field has changed. */
  ghost predicate AddedTo(s: seq<Instrument>, x: Instrument, t: seq<Instrument>) {
    |t| == |s| + 1 && t[|s|] == x &&
    forall i :: 0 <= i < |s| ==> t[i] == Instrument(s[i].id, s[i].kind, s[i].isDefault && !x.isDefault)
  }

  lemma AddInstrumentExact(s: seq<Instrument>, x: Instrument)
    ensures AddedTo(s, x, AddInstrument(s, x))
  {
  }

  /** Removal looks at each instrument by itself and keeps the order. */
  lemma {:induction false} RemoveInParts(s: seq<Instrument>, t: seq<Instrument>, id: string)
    ensures RemoveInstrument(s + t, id) == RemoveInstrument(s, id) + RemoveInstrument(t, id)
    decreases |t|
  {
    if |t| == 0 {
      assert s + t == s;
    } else {
      var init := t[..|t| - 1];
      assert (s + t)[..|s + t| - 1] == s + init;
      RemoveInParts(s, init, id);
    }
  }

  lemma RemoveFromOne(x: Instrument, id: string)
    ensures RemoveInstrument([x], id) == if x.id == id then [] else [x]
  {
    assert [x][..0] == [];
  }

  /** An instrument with the id is there exactly when removal changes the list. */
  lemma {:induction false} RemovesWhatIsThere(s: seq<Instrument>, id: string)
    ensures HasInstrument(s, id) <==> RemoveInstrument(s, id) != s
    ensures HasInstrument(s, id) <==> exists i :: 0 <= i < |s| && s[i].id == id
    ensures |RemoveInstrument(s, id)| <= |s|
  {
    if |s| > 0 {
      var init, last := s[..|s| - 1], s[|s| - 1];
      RemovesWhatIsThere(init, id);
      assert s == init + [last];
      if last.id != id {
        assert RemoveInstrument(s, id) == s ==> RemoveInstrument(init, id) == RemoveInstrument(s, id)[..|s| - 1];
      }
    }
  }

  lemma {:induction false} RemoveStranger(s: seq<Instrument>, id: string)
    requires forall i :: 0 <= i < |s| ==> s[i].id != id
    ensures RemoveInstrument(s, id) == s
  {
    if |s| > 0 {
      RemoveStranger(s[..|s| - 1], id);
      assert s == s[..|s| - 1] + [s[|s| - 1]];
    }
  }

  /** Adding an instrument and removing it again gives the list back, except
      that a new default leaves no default behind. */
  lemma AddThenRemove(s: seq<Instrument>, x: Instrument)
    requires forall i :: 0 <= i < |s| ==> s[i].id != x.id
    ensures RemoveInstrument(AddInstrument(s, x), x.id) == if x.isDefault then ClearDefaults(s) else s
  {
    var rest := if x.isDefault then ClearDefaults(s) else s;
    assert AddInstrument(s, x)[..|s|] == rest;
    RemoveStranger(rest, x.id);
  }
}

/** Credits and debits interleaved at every critical section and every unlocked
    read (services/account/services/account_service.go). */
module BalanceCalls {
  import opened Results
  import opened Int64
  import opened Sums
  import opened Accounts

  datatype Kind = Credit | Debit

  datatype Pc =
    | Entering                       // amount check and GetByID
    | Loaded                         // before the status check
    | CheckingFunds                  // debit only: before the unlocked balance read
    | Ready                          // before UpdateBalanceAtomic
    | Committed                      // before the final GetByID
    | Done(error: Option<Error>)

  datatype Call = Call(kind: Kind, id: string, amount: int64, pc: Pc)

  /** `opening` remembers the balance each account had when the run began or
      when it was created. */
  datatype State = State(repo: Repo, calls: seq<Call>, opening: map<string, int>)

  /** Rewrite stands for every other service method: it changes a live account
      but never its balance. */
  datatype Action =
    | Arrive(kind: Kind, id: string, amount: int64) | Move(call: nat) | Open(a: Account) | Rewrite(a: Account)

  predicate Enabled(s: State, a: Action) {
    match a
    case Arrive(_, _, _) => true
    case Move(i) => i < |s.calls| && !s.calls[i].pc.Done?
    case Open(a) => a.id !in s.repo.accounts && a.balance == 0
    case Rewrite(a) => a.id in s.repo.accounts && a.balance == s.repo.accounts[a.id].balance
  }

  function Signed(c: Call): int64
    requires c.amount > 0
  {
    if c.kind == Credit then c.amount else -c.amount
  }

  function CheckActive(a: Account): Option<Error> {
    match a.status
    case Frozen => Some(AccountFrozen)
    case Closed => Some(AccountClosed)
    case _ => None
  }

  function Advance(r: Repo, c: Call): (Repo, Pc) {
    match c.pc
    case Entering =>
      if c.amount <= 0 then (r, Done(Some(InvalidAmount)))
      else if c.id !in r.accounts then (r, Done(Some(AccountNotFound)))
      else (r, Loaded)
    case Loaded =>
      if c.id !in r.accounts then (r, c.pc)
      else if CheckActive(r.accounts[c.id]).Some? then (r, Done(CheckActive(r.accounts[c.id])))
      else (r, if c.kind == Debit then CheckingFunds else Ready)
    case CheckingFunds =>
      if c.id !in r.accounts then (r, c.pc)
      else if r.accounts[c.id].balance < c.amount then (r, Done(Some(InsufficientBalance)))
      else (r, Ready)
    case Ready =>
      if c.amount <= 0 then (r, c.pc)
      else
        var updated := UpdateBalance(r, c.id, Signed(c));
        if updated.Ok? then (updated.value, Committed) else (r, Done(Some(updated.error)))
    case Committed => (r, Done(if c.id in r.accounts then None else Some(AccountNotFound)))
    case Done(_) => (r, c.pc)
  }

  function Step(s: State, a: Action): State
    requires Enabled(s, a)
  {
    match a
    case Arrive(kind, id, amount) => s.(calls := s.calls + [Call(kind, id, amount, Entering)])
    case Move(i) =>
      var (repo, pc) := Advance(s.repo, s.calls[i]);
      s.(repo := repo, calls := s.calls[i := s.calls[i].(pc := pc)])
    case Open(a) =>
      var created := Create(s.repo, a);
      if created.Ok? then s.(repo := created.value, opening := s.opening[a.id := 0]) else s
    case Rewrite(a) => s.(repo := Update(s.repo, a).value)
  }

  /** What a call has added to an account so far: its signed amount once it has
      committed, and nothing if it has not or has failed. */
  function Added(id: string): Call -> int {
    (c: Call) =>
      if c.id == id && c.amount > 0 && (c.pc == Committed || c.pc == Done(None)) then
        (if c.kind == Credit then c.amount else -c.amount)
      else 0
  }

  ghost predicate BalanceOk(s: State, id: string)
    requires id in s.repo.accounts
  {
    id in s.opening &&
    s.repo.accounts[id].balance == s.opening[id] + Total(s.calls, Added(id)) &&
    s.repo.accounts[id].balance >= 0
  }

  ghost predicate CallOk(s: State, c: Call) {
    !c.pc.Entering? && !c.pc.Done? ==> c.amount > 0 && c.id in s.repo.accounts
  }

  ghost predicate Inv(s: State) {
    (forall id :: id in s.repo.accounts ==> BalanceOk(s, id)) &&
    (forall i :: 0 <= i < |s.calls| ==> CallOk(s, s.calls[i])) &&
    // a call on an unknown account has added nothing
    (forall id :: id !in s.repo.accounts ==> Total(s.calls, Added(id)) == 0)
  }

  /** A run starts from any accounts with non-negative balances and no calls. */
  ghost predicate Initial(s: State) {
    s.calls == [] && s.opening.Keys == s.repo.accounts.Keys &&
    forall id :: id in s.repo.accounts ==> 0 <= s.repo.accounts[id].balance == s.opening[id]
  }

  lemma MoveKeepsBalance(s: State, i: nat, id: string)
    requires Inv(s) && Enabled(s, Move(i))
    ensures var s' := Step(s, Move(i));
      s'.repo.accounts.Keys == s.repo.accounts.Keys &&
      (id in s.repo.accounts ==> BalanceOk(s', id)) &&
      (id !in s.repo.accounts ==> Total(s'.calls, Added(id)) == 0)
  {
    hide Total;
    var s', c := Step(s, Move(i)), s.calls[i];
    assert CallOk(s, c);
    TotalUpdate(s.calls, i, s'.calls[i], Added(id));
    if id in s.repo.accounts {
      assert BalanceOk(s, id);
    }
    if c.pc.Ready? {
      assert BalanceOk(s, c.id);
      BalanceIsExact(s.repo, c.id, Signed(c));
    }
  }

  lemma MoveKeepsInv(s: State, i: nat)
    requires Inv(s) && Enabled(s, Move(i))
    ensures Inv(Step(s, Move(i)))
  {
    hide Total, BalanceOk;
    var s' := Step(s, Move(i));
    MoveKeepsBalance(s, i, s.calls[i].id);
    forall id | id in s'.repo.accounts ensures BalanceOk(s', id) {
      MoveKeepsBalance(s, i, id);
    }
    forall id | id !in s'.repo.accounts ensures Total(s'.calls, Added(id)) == 0 {
      MoveKeepsBalance(s, i, id);
    }
    forall j | 0 <= j < |s'.calls| ensures CallOk(s', s'.calls[j]) {
      assert CallOk(s, s.calls[j]);
    }
  }

  lemma StepKeepsInv(s: State, a: Action)
    requires Inv(s) && Enabled(s, a)
    ensures Inv(Step(s, a))
  {
    hide Total;
    var s' := Step(s, a);
    match a {
      case Move(i) => MoveKeepsInv(s, i);
      case Arrive(kind, id, amount) =>
        var c := Call(kind, id, amount, Entering);
        forall k ensures Total(s'.calls, Added(k)) == Total(s.calls, Added(k)) {
          TotalAppend(s.calls, c, Added(k));
        }
        assert forall k :: k in s.repo.accounts ==> BalanceOk(s, k);
        assert forall j :: 0 <= j < |s.calls| ==> CallOk(s, s.calls[j]);
      case Open(acc) =>
        assert forall k :: k in s.repo.accounts ==> BalanceOk(s, k);
        assert forall j :: 0 <= j < |s.calls| ==> CallOk(s, s.calls[j]);
      case Rewrite(acc) =>
        assert forall k :: k in s.repo.accounts ==> BalanceOk(s, k);
        assert forall j :: 0 <= j < |s.calls| ==> CallOk(s, s.calls[j]);
    }
  }

  /** In state s, call i is refused for e. */
  ghost predicate Refuses(s: State, i: nat, e: Error) {
    i < |s.calls| &&
    var c := s.calls[i];
    match e
    case InvalidAmount => c.pc.Entering? && c.amount <= 0
    case AccountNotFound => c.pc.Entering? && c.id !in s.repo.accounts
    case AccountFrozen => c.pc.Loaded? && c.id in s.repo.accounts && s.repo.accounts[c.id].status == Frozen
    case AccountClosed => c.pc.Loaded? && c.id in s.repo.accounts && s.repo.accounts[c.id].status == Closed
    case InsufficientBalance =>
      c.id in s.repo.accounts &&
      var balance := s.repo.accounts[c.id].balance as int;
      (c.pc.CheckingFunds? && balance < c.amount as int) ||
      (c.pc.Ready? && c.kind == Credit && balance + c.amount as int > MAX) ||
      (c.pc.Ready? && c.kind == Debit && balance < c.amount as int)
    case _ => false
  }

  /** In state s, call i finds the account neither frozen nor closed. */
  ghost predicate FindsActive(s: State, i: nat) {
    i < |s.calls| && s.calls[i].pc.Loaded? && s.calls[i].id in s.repo.accounts &&
    s.repo.accounts[s.calls[i].id].status != Frozen && s.repo.accounts[s.calls[i].id].status != Closed
  }

  /** In state s, debit i finds enough on the account. */
  ghost predicate FindsFunds(s: State, i: nat) {
    i < |s.calls| && s.calls[i].pc.CheckingFunds? && s.calls[i].id in s.repo.accounts &&
    s.repo.accounts[s.calls[i].id].balance >= s.calls[i].amount
  }

  predicate PastStatus(c: Call) {
    c.pc.CheckingFunds? || c.pc.Ready? || c.pc.Committed? || c.pc == Done(None)
  }

  predicate PastFunds(c: Call) {
    c.kind == Debit && (c.pc.Ready? || c.pc.Committed? || c.pc == Done(None))
  }

  lemma StepDecides(s: State, a: Action, i: nat)
    requires Inv(s) && Enabled(s, a) && i < |Step(s, a).calls|
    ensures var c' := Step(s, a).calls[i];
      (c'.pc.Done? && c'.pc.error.Some? ==>
        (a == Move(i) && Refuses(s, i, c'.pc.error.value)) || (i < |s.calls| && s.calls[i] == c')) &&
      (PastStatus(c') ==> (a == Move(i) && FindsActive(s, i)) || (i < |s.calls| && PastStatus(s.calls[i]))) &&
      (PastFunds(c') ==> (a == Move(i) && FindsFunds(s, i)) || (i < |s.calls| && PastFunds(s.calls[i])))
  {
    hide Total, BalanceOk;
    if a == Move(i) {
      var c := s.calls[i];
      assert CallOk(s, c);
      if c.pc.Ready? {
        assert s.repo.accounts[c.id].balance >= 0 by { BalanceNotNegative(s, c.id); }
        BalanceIsExact(s.repo, c.id, Signed(c));
      }
    }
  }

  lemma BalanceNotNegative(s: State, id: string)
    requires Inv(s) && id in s.repo.accounts
    ensures s.repo.accounts[id].balance >= 0
  {
    assert BalanceOk(s, id);
  }

  /** Every error a call returns was decided at one of its steps, by what it says;
      and a call that has committed found the account active, and a debit enough
      on it, at its checks before. */
  lemma {:induction false} OutcomeWasDecided(states: seq<State>, actions: seq<Action>, n: nat, i: nat)
    requires IsRun(states, actions) && n <= |actions| && i < |states[n].calls|
    ensures var c := states[n].calls[i];
      (c.pc.Done? && c.pc.error.Some? ==>
        exists k: nat :: k < n && actions[k] == Move(i) && Refuses(states[k], i, c.pc.error.value)) &&
      (PastStatus(c) ==> exists k: nat :: k < n && actions[k] == Move(i) && FindsActive(states[k], i)) &&
      (PastFunds(c) ==> exists k: nat :: k < n && actions[k] == Move(i) && FindsFunds(states[k], i))
  {
    if n > 0 {
      RunKeepsInv(states, actions, n - 1);
      hide Inv, Refuses, FindsActive, FindsFunds;
      StepDecides(states[n - 1], actions[n - 1], i);
      if i < |states[n - 1].calls| {
        OutcomeWasDecided(states, actions, n - 1, i);
      }
    }
  }

  ghost predicate IsRun(states: seq<State>, actions: seq<Action>) {
    |states| == |actions| + 1 && Initial(states[0]) &&
    forall k :: 0 <= k < |actions| ==> Enabled(states[k], actions[k]) && states[k + 1] == Step(states[k], actions[k])
  }

  lemma {:induction false} RunKeepsInv(states: seq<State>, actions: seq<Action>, k: nat)
    requires IsRun(states, actions) && k <= |actions|
    ensures Inv(states[k])
  {
    if k > 0 {
      RunKeepsInv(states, actions, k - 1);
      StepKeepsInv(states[k - 1], actions[k - 1]);
    }
  }

  /** In every interleaving of credits, debits, new accounts and all other
      changes, each balance is its opening value plus the exact sum of the
      committed amounts, and is never negative. */
  lemma BalancesAreExact(states: seq<State>, actions: seq<Action>, k: nat, id: string)
    requires IsRun(states, actions) && k <= |actions| && id in states[k].repo.accounts
    ensures id in states[k].opening
    ensures states[k].repo.accounts[id].balance == states[k].opening[id] + Total(states[k].calls, Added(id))
    ensures states[k].repo.accounts[id].balance >= 0
  {
    RunKeepsInv(states, actions, k);
    assert BalanceOk(states[k], id);
  }

  /** At its commit a call goes through exactly when the true balance allows it,
      whatever its earlier unlocked reads saw. */
  lemma CommitIsExact(states: seq<State>, actions: seq<Action>, k: nat, i: nat)
    requires IsRun(states, actions) && k <= |actions| && i < |states[k].calls| && states[k].calls[i].pc.Ready?
    ensures var s, c := states[k], states[k].calls[i];
      c.amount > 0 && c.id in s.repo.accounts &&
      (Step(s, Move(i)).calls[i].pc.Committed? <==>
        0 <= s.repo.accounts[c.id].balance as int + Signed(c) as int <= MAX) &&
      (!Step(s, Move(i)).calls[i].pc.Committed? ==> Step(s, Move(i)).repo == s.repo)
  {
    RunKeepsInv(states, actions, k);
    var c := states[k].calls[i];
    assert CallOk(states[k], c) && BalanceOk(states[k], c.id);
    BalanceIsExact(states[k].repo, c.id, Signed(c));
  }
}
