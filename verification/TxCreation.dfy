/** Concurrent CreateTransaction calls, interleaved at every critical section of
    the repository (services/transaction/services/transaction_service.go,
    services/transaction/repositories/repository.go). */
module TxCreation {
  import opened Results
  import opened TxStore
  import L = TxLifecycle

  /** Where a call stands. */
  datatype Pc =
    | Validating
    | Checking                                          // before the idempotency lookup
    | Generating                                        // before generateID
    | Inserting(tx: Tx)                                 // before repo.Create
    | Retrying                                          // lost the race, before the second lookup
    | Returned(id: Option<string>, created: bool)       // id None is a nil transaction
    | Failed(error: Error)

  datatype Call = Call(req: Request, pc: Pc)

  datatype State = State(store: Store, calls: seq<Call>)

  /** A call arrives, a call moves (with what the generator returns, where that
      matters), or a lifecycle call comes for a stored transaction. */
  datatype Action =
    | Arrive(req: Request)
    | Move(call: nat, generated: Option<string>)
    | Live(id: string, op: L.Op)

  const INITIAL: State := State(Store(map[], map[]), [])

  predicate Finished(p: Pc) {
    p.Returned? || p.Failed?
  }

  /** Generated ids are fresh: not stored, and not held by another call. */
  ghost predicate FreshId(s: State, id: string) {
    id !in s.store.transactions &&
    forall i :: 0 <= i < |s.calls| && s.calls[i].pc.Inserting? ==> s.calls[i].pc.tx.id != id
  }

  ghost predicate Enabled(s: State, a: Action) {
    match a
    case Arrive(_) => true
    case Move(i, g) =>
      i < |s.calls| && !Finished(s.calls[i].pc) &&
      (s.calls[i].pc.Generating? && g.Some? ==> FreshId(s, g.value))
    case Live(id, _) => id in s.store.transactions
  }

  /** The pointer a lookup hands to the caller. */
  function Found(found: Option<Option<Tx>>): Option<string> {
    if found.Some? && found.value.Some? then Some(found.value.value.id) else None
  }

  function Advance(store: Store, c: Call, g: Option<string>): (Store, Pc) {
    match c.pc
    case Validating =>
      var invalid := Validate(c.req);
      if invalid.Some? then (store, Failed(invalid.value))
      else if c.req.key != "" then (store, Checking)
      else (store, Generating)
    case Checking =>
      var existing := Lookup(store, c.req.key);
      if existing.Some? then (store, Returned(Found(existing), false)) else (store, Generating)
    case Generating =>
      if g.None? then (store, Failed(GeneratorFailed)) else (store, Inserting(NewTx(g.value, c.req)))
    case Inserting(tx) =>
      var r := Insert(store, tx);
      if r.Ok? then (r.value, Returned(Some(tx.id), true)) else (store, Retrying)
    case Retrying =>
      var existing := Found(Lookup(store, c.req.key));
      if existing.Some? then (store, Returned(existing, false)) else (store, Failed(DuplicateKey))
    case _ => (store, c.pc)
  }

  function Step(s: State, a: Action): State
    requires Enabled(s, a)
  {
    match a
    case Arrive(req) => s.(calls := s.calls + [Call(req, Validating)])
    case Move(i, g) =>
      var (store, pc) := Advance(s.store, s.calls[i], g);
      State(store, s.calls[i := s.calls[i].(pc := pc)])
    case Live(id, op) =>
      var tx := s.store.transactions[id];
      s.(store := s.store.(transactions := s.store.transactions[id := tx.(life := L.After(tx.life, op))]))
  }

  ghost predicate Runs(s: State, actions: seq<Action>)
    decreases |actions|
  {
    |actions| == 0 || (Enabled(s, actions[0]) && Runs(Step(s, actions[0]), actions[1..]))
  }

  function After(s: State, actions: seq<Action>): State
    requires Runs(s, actions)
    decreases |actions|
  {
    if |actions| == 0 then s else After(Step(s, actions[0]), actions[1..])
  }

  ghost predicate Reachable(s: State) {
    exists actions :: Runs(INITIAL, actions) && s == After(INITIAL, actions)
  }

  // ---------------------------------------------------------------------
  // Invariant
  // ---------------------------------------------------------------------

  ghost predicate CallOk(store: Store, c: Call) {
    match c.pc
    case Validating => true
    case Checking => Validate(c.req) == None && c.req.key != ""
    case Generating => Validate(c.req) == None
    case Inserting(tx) =>
      Validate(c.req) == None && tx == NewTx(tx.id, c.req) && tx.id !in store.transactions
    case Retrying => Validate(c.req) == None && c.req.key != "" && c.req.key in store.keys
    case Returned(id, created) =>
      Validate(c.req) == None && id.Some? && id.value in store.transactions &&
      store.transactions[id.value].request.key == c.req.key &&
      (created ==> store.transactions[id.value].request == c.req) &&
      (!created ==> c.req.key != "")
    case Failed(error) => Validate(c.req) == Some(error) || (Validate(c.req) == None && error == GeneratorFailed)
  }

  /** Call i is the one whose insert stored transaction id. */
  predicate Creator(s: State, i: nat, id: string)
    requires i < |s.calls|
  {
    s.calls[i].pc == Returned(Some(id), true)
  }

  ghost predicate CallsOk(s: State) {
    Indexed(s.store) &&
    (forall i :: 0 <= i < |s.calls| ==> CallOk(s.store, s.calls[i])) &&
    forall i, j :: 0 <= i < j < |s.calls| && s.calls[i].pc.Inserting? && s.calls[j].pc.Inserting? ==>
      s.calls[i].pc.tx.id != s.calls[j].pc.tx.id
  }

  /** Every stored transaction has a creator, and no two calls have the same. */
  ghost predicate CreatorsOk(s: State) {
    (forall i, j, id :: 0 <= i < j < |s.calls| && Creator(s, i, id) ==> !Creator(s, j, id)) &&
    (forall id :: id in s.store.transactions ==> exists i: nat :: i < |s.calls| && Creator(s, i, id))
  }

  ghost predicate Inv(s: State) {
    CallsOk(s) && CreatorsOk(s)
  }

  lemma MoveKeepsCall(s: State, a: Action, j: nat)
    requires CallsOk(s) && Enabled(s, a) && a.Move? && j < |s.calls|
    ensures CallOk(Step(s, a).store, Step(s, a).calls[j])
    ensures Indexed(Step(s, a).store)
  {
    hide Validate;
    assert CallOk(s.store, s.calls[j]) && CallOk(s.store, s.calls[a.call]);
    if s.calls[a.call].pc.Inserting? {
      InsertKeepsIndexed(s.store, s.calls[a.call].pc.tx);
    }
    if s.calls[a.call].pc.Retrying? || s.calls[a.call].pc.Checking? {
      LookupIsExact(s.store, s.calls[a.call].req.key);
    }
  }

  lemma MoveKeepsCalls(s: State, a: Action)
    requires CallsOk(s) && Enabled(s, a) && a.Move?
    ensures CallsOk(Step(s, a))
  {
    hide Validate, Indexed, CallOk, Insert, Lookup;
    var s' := Step(s, a);
    MoveKeepsCall(s, a, a.call);
    forall j | 0 <= j < |s'.calls| ensures CallOk(s'.store, s'.calls[j]) {
      MoveKeepsCall(s, a, j);
    }
  }

  lemma MoveKeepsCreators(s: State, a: Action)
    requires Inv(s) && Enabled(s, a) && a.Move?
    ensures CreatorsOk(Step(s, a))
  {
    hide Validate, Indexed, Lookup;
    var s', k := Step(s, a), a.call;
    forall i, j, id | 0 <= i < j < |s'.calls| && Creator(s', i, id) ensures !Creator(s', j, id) {
      if i != k && j != k {
        assert Creator(s, i, id) && !Creator(s, j, id);
      } else if i == k {
        assert CallOk(s.store, s.calls[k]) && CallOk(s.store, s.calls[j]);
      } else {
        assert CallOk(s.store, s.calls[k]) && CallOk(s.store, s.calls[i]);
      }
    }
    forall id | id in s'.store.transactions ensures exists i: nat :: i < |s'.calls| && Creator(s', i, id) {
      if id in s.store.transactions {
        var i: nat :| i < |s.calls| && Creator(s, i, id);
        assert Creator(s', i, id);
      } else {
        assert Creator(s', k, id);
      }
    }
  }

  lemma ArriveKeepsInv(s: State, a: Action)
    requires Inv(s) && a.Arrive?
    ensures Inv(Step(s, a))
  {
    hide Validate, Indexed;
    var s' := Step(s, a);
    forall i | 0 <= i < |s'.calls| ensures CallOk(s'.store, s'.calls[i]) {
      assert i < |s.calls| ==> CallOk(s.store, s.calls[i]);
    }
    forall i, j, id | 0 <= i < j < |s'.calls| && Creator(s', i, id) ensures !Creator(s', j, id) {
      assert Creator(s, i, id);
      assert j < |s.calls| ==> !Creator(s, j, id);
    }
    forall id | id in s'.store.transactions ensures exists i: nat :: i < |s'.calls| && Creator(s', i, id) {
      var i: nat :| i < |s.calls| && Creator(s, i, id);
      assert Creator(s', i, id);
    }
  }

  lemma LiveKeepsInv(s: State, a: Action)
    requires Inv(s) && a.Live? && Enabled(s, a)
    ensures Inv(Step(s, a))
  {
    hide Validate;
    var s' := Step(s, a);
    LifeChangeKeepsIndexed(s.store, s'.store);
    forall i | 0 <= i < |s'.calls| ensures CallOk(s'.store, s'.calls[i]) {
      assert CallOk(s.store, s.calls[i]);
    }
    forall i, j, id | 0 <= i < j < |s'.calls| && Creator(s', i, id) ensures !Creator(s', j, id) {
      assert Creator(s, i, id) && !Creator(s, j, id);
    }
    forall id | id in s'.store.transactions ensures exists i: nat :: i < |s'.calls| && Creator(s', i, id) {
      var i: nat :| i < |s.calls| && Creator(s, i, id);
      assert Creator(s', i, id);
    }
  }

  lemma StepKeepsInv(s: State, a: Action)
    requires Inv(s) && Enabled(s, a)
    ensures Inv(Step(s, a))
  {
    hide CallsOk, CreatorsOk, Step;
    match a {
      case Move(_, _) =>
        MoveKeepsCalls(s, a);
        MoveKeepsCreators(s, a);
      case Arrive(_) => ArriveKeepsInv(s, a);
      case Live(_, _) => LiveKeepsInv(s, a);
    }
  }

  lemma {:induction false} RunKeepsInv(s: State, actions: seq<Action>)
    requires Inv(s) && Runs(s, actions)
    ensures Inv(After(s, actions))
    decreases |actions|
  {
    if |actions| > 0 {
      StepKeepsInv(s, actions[0]);
      RunKeepsInv(Step(s, actions[0]), actions[1..]);
    }
  }

  lemma ReachableInv(s: State)
    requires Reachable(s)
    ensures Inv(s)
  {
    var actions :| Runs(INITIAL, actions) && s == After(INITIAL, actions);
    RunKeepsInv(INITIAL, actions);
  }

  // ---------------------------------------------------------------------
  // What every interleaving guarantees
  // ---------------------------------------------------------------------

  /** All calls with one non-empty key return the same transaction, and the
      store holds no other one with that key. */
  lemma SameKeySameTransaction(s: State, i: nat, j: nat, id: string)
    requires Reachable(s) && i < |s.calls| && j < |s.calls|
    requires s.calls[i].req.key == s.calls[j].req.key != ""
    requires s.calls[i].pc.Returned? && s.calls[j].pc.Returned?
    ensures s.calls[i].pc.id == s.calls[j].pc.id && s.calls[i].pc.id.Some?
    ensures s.calls[i].pc.id.value in s.store.transactions
    ensures id in s.store.transactions && s.store.transactions[id].request.key == s.calls[i].req.key ==>
      s.calls[i].pc.id == Some(id)
  {
    ReachableInv(s);
    assert CallOk(s.store, s.calls[i]) && CallOk(s.store, s.calls[j]);
  }

  /** The only call that stored transaction id, and what it asked for. */
  ghost predicate SoleCreator(s: State, i: nat, id: string)
    requires i < |s.calls| && id in s.store.transactions
  {
    Creator(s, i, id) && s.store.transactions[id].request == s.calls[i].req &&
    forall j: nat :: j < |s.calls| && Creator(s, j, id) ==> j == i
  }

  /** Every stored transaction is the request of exactly one call: the one whose
      insert won. */
  lemma OneCreator(s: State, id: string)
    requires Reachable(s) && id in s.store.transactions
    ensures exists i: nat :: i < |s.calls| && SoleCreator(s, i, id)
  {
    ReachableInv(s);
    var i: nat :| i < |s.calls| && Creator(s, i, id);
    assert CallOk(s.store, s.calls[i]);
    assert SoleCreator(s, i, id);
  }

  /** A caller that lost the insert race finds the winner, and the only errors
      ever reported are a bad request and a failing generator. */
  lemma LoserFindsWinner(s: State, i: nat)
    requires Reachable(s) && i < |s.calls|
    ensures s.calls[i].pc.Retrying? ==>
      Lookup(s.store, s.calls[i].req.key).Some? && Lookup(s.store, s.calls[i].req.key).value.Some?
    ensures s.calls[i].pc.Failed? && Validate(s.calls[i].req) == None ==> s.calls[i].pc.error == GeneratorFailed
    ensures s.calls[i].pc.Failed? ==> s.calls[i].pc.error != DuplicateKey
    ensures s.calls[i].pc.Returned? ==> Validate(s.calls[i].req) == None && s.calls[i].pc.id.Some?
  {
    ReachableInv(s);
    assert CallOk(s.store, s.calls[i]);
    if s.calls[i].pc.Retrying? {
      LookupIsExact(s.store, s.calls[i].req.key);
    }
  }

  /** Requests without a key never share a transaction. */
  lemma KeylessCallsAreSeparate(s: State, i: nat, j: nat)
    requires Reachable(s) && i < j < |s.calls|
    requires s.calls[i].req.key == "" && s.calls[i].pc.Returned? && s.calls[j].pc.Returned?
    ensures s.calls[i].pc.id != s.calls[j].pc.id
  {
    ReachableInv(s);
    assert CallOk(s.store, s.calls[i]) && CallOk(s.store, s.calls[j]);
    var id := s.calls[i].pc.id.value;
    assert Creator(s, i, id);
    assert !Creator(s, j, id);
  }

  /** A call has at most this many moves before it. */
  function Remaining(p: Pc): nat {
    match p
    case Validating => 5
    case Checking => 4
    case Generating => 3
    case Inserting(_) => 2
    case Retrying => 1
    case _ => 0
  }

  /** Every unfinished call can move, and every move brings it closer to its
      return: at most five moves, no lock-step with other calls. */
  lemma CallsAreWaitFree(s: State, i: nat)
    requires i < |s.calls| && !Finished(s.calls[i].pc)
    ensures Enabled(s, Move(i, None))
    ensures forall g :: Enabled(s, Move(i, g)) ==>
      Remaining(Step(s, Move(i, g)).calls[i].pc) < Remaining(s.calls[i].pc) <= 5
  {
    hide Validate;
  }

  // ---------------------------------------------------------------------
  // What each step does, and the lives of what is stored
  // ---------------------------------------------------------------------

  /** Some stored transaction carries the key. */
  ghost predicate Taken(s: State, key: string) {
    exists id :: id in s.store.transactions && s.store.transactions[id].request.key == key
  }

  ghost predicate GoodRequest(req: Request) {
    req.amount > 0 && req.currency in {"USD", "EUR", "GBP", "IQD", "AED"} &&
    req.paymentMethod in {"card", "bank_transfer", "wallet", "stripe", "paypal"}
  }

  /** In every reachable state: a bad request fails and touches nothing; a good one
      looks its key up if it has one; a key that is taken gives back the stored
      transaction that carries it; otherwise a pending transaction for the
      request is made under the generated id, and stored unless the key has been
      taken in the meantime. */
  lemma MoveIsExact(s: State, i: nat, g: Option<string>)
    requires Reachable(s) && Enabled(s, Move(i, g))
    ensures var c, s' := s.calls[i], Step(s, Move(i, g));
      var p := s'.calls[i].pc;
      (s'.store != s.store ==> c.pc.Inserting?) &&
      match c.pc
      case Validating =>
        if !GoodRequest(c.req) then p.Failed? else p == if c.req.key != "" then Checking else Generating
      case Checking => if Taken(s, c.req.key) then ReturnsKeyed(s, c, p) else p == Generating
      case Generating =>
        p == if g.None? then Failed(GeneratorFailed)
             else Inserting(Tx(g.value, c.req, L.Life(c.req.amount, L.Pending, 0)))
      case Inserting(tx) =>
        if c.req.key != "" && Taken(s, c.req.key) then p == Retrying && s'.store == s.store
        else p == Returned(Some(tx.id), true) && s'.store.transactions == s.store.transactions[tx.id := tx]
      case Retrying => ReturnsKeyed(s, c, p)
      case _ => true
  {
    ReachableInv(s);
    var c := s.calls[i];
    assert CallOk(s.store, c);
    if c.req.key != "" {
      LookupIsExact(s.store, c.req.key);
    }
  }

  ghost predicate ReturnsKeyed(s: State, c: Call, p: Pc) {
    p.Returned? && !p.created && p.id.Some? && p.id.value in s.store.transactions &&
    s.store.transactions[p.id.value].request.key == c.req.key
  }

  /** The lifecycle calls that came for a transaction. */
  function OpsOn(actions: seq<Action>, id: string): seq<L.Op> {
    if |actions| == 0 then []
    else (if actions[0].Live? && actions[0].id == id then [actions[0].op] else []) + OpsOn(actions[1..], id)
  }

  /** A transaction lives the life of a pending one of its amount under exactly
      the lifecycle calls that came for it, however the creations interleave. */
  lemma {:induction false} LifeFollowsCalls(s: State, actions: seq<Action>, id: string)
    requires Inv(s) && Runs(s, actions) && id in After(s, actions).store.transactions
    ensures var tx := After(s, actions).store.transactions[id];
      var start := if id in s.store.transactions then s.store.transactions[id].life
                   else L.Life(tx.request.amount, L.Pending, 0);
      tx.life == L.Final(start, OpsOn(actions, id)) &&
      (id in s.store.transactions ==> tx.request == s.store.transactions[id].request)
    decreases |actions|
  {
    hide Inv, Step, L.After;
    if |actions| > 0 {
      var a, ops := actions[0], OpsOn(actions, id);
      var later := OpsOn(actions[1..], id);
      StepKeepsInv(s, a);
      LifeFollowsCalls(Step(s, a), actions[1..], id);
      StepLives(s, a, id);
      if a.Live? && a.id == id {
        assert ops == [a.op] + later && ops[1..] == later;
      } else {
        assert ops == later;
      }
    }
  }

  /** One step: a stored transaction keeps its request and lives on under its own
      calls only; a new one is pending and has nothing refunded. */
  lemma StepLives(s: State, a: Action, id: string)
    requires Inv(s) && Enabled(s, a)
    ensures var txs, txs' := s.store.transactions, Step(s, a).store.transactions;
      (id in txs ==>
        id in txs' && txs'[id].request == txs[id].request &&
        txs'[id].life == if a.Live? && a.id == id then L.After(txs[id].life, a.op) else txs[id].life) &&
      (id !in txs && id in txs' ==>
        !a.Live? && txs'[id].life == L.Life(txs'[id].request.amount, L.Pending, 0))
  {
    hide Validate, Indexed;
    if a.Move? {
      assert CallOk(s.store, s.calls[a.call]);
    }
  }

  /** In every run from the start a stored transaction was asked for by a good
      request, and is pending with nothing refunded until a lifecycle call
      comes; it is completed only after an Authorize and a later Complete. */
  lemma StoredLives(actions: seq<Action>, id: string) returns (i: nat, j: nat)
    requires Runs(INITIAL, actions) && id in After(INITIAL, actions).store.transactions
    ensures var tx, ops := After(INITIAL, actions).store.transactions[id], OpsOn(actions, id);
      var start := L.Life(tx.request.amount, L.Pending, 0);
      GoodRequest(tx.request) && L.Consistent(start) && tx.life == L.Final(start, ops) &&
      (ops == [] ==> tx.life == start) &&
      (tx.life.status == L.Completed || tx.life.status == L.Refunded ==>
        i < j && L.Turns(start, ops, i, L.Authorize, L.Pending, L.Authorized) &&
        L.Turns(start, ops, j, L.Complete, L.Authorized, L.Completed))
  {
    hide After, Runs, Inv, L.Final, L.Turns, Indexed;
    var s := After(INITIAL, actions);
    assert Reachable(s);
    InitialInv();
    OneCreator(s, id);
    var k: nat :| k < |s.calls| && SoleCreator(s, k, id);
    LoserFindsWinner(s, k);
    LifeFollowsCalls(INITIAL, actions, id);
    var tx, ops := s.store.transactions[id], OpsOn(actions, id);
    if tx.life.status == L.Completed || tx.life.status == L.Refunded {
      i, j := L.CompletedInTwoSteps(L.Life(tx.request.amount, L.Pending, 0), ops);
    } else {
      i, j := 0, 0;
    }
    if ops == [] {
      NoLife(L.Life(tx.request.amount, L.Pending, 0));
    }
  }

  lemma InitialInv()
    ensures Inv(INITIAL)
  {
  }

  lemma NoLife(l: L.Life)
    ensures L.Final(l, []) == l
  {
  }
}
