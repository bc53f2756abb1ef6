/** The transaction repository and the service methods over it
    (services/transaction/repositories/repository.go,
    services/transaction/services/transaction_service.go). */
module TxStore {
  import opened Results
  import opened Int64
  import L = TxLifecycle

  datatype Request = Request(
    key: string, amount: int64, currency: string, paymentMethod: string, merchant: string, customer: string)

  datatype Tx = Tx(id: string, request: Request, life: L.Life)

  datatype Error =
    | InvalidAmount | InvalidCurrency | InvalidPaymentMethod
    | DuplicateKey | GeneratorFailed | Lifecycle(error: L.Error)

  const SUPPORTED_CURRENCIES: set<string> := {"USD", "EUR", "GBP", "IQD", "AED"}
  const SUPPORTED_METHODS: set<string> := {"card", "bank_transfer", "wallet", "stripe", "paypal"}

  /** The two maps of the repository. */
  datatype Store = Store(transactions: map<string, Tx>, keys: map<string, string>)

  function Validate(req: Request): Option<Error> {
    if req.amount <= 0 then Some(InvalidAmount)
    else if req.currency !in SUPPORTED_CURRENCIES then Some(InvalidCurrency)
    else if req.paymentMethod !in SUPPORTED_METHODS then Some(InvalidPaymentMethod)
    else None
  }

  function NewTx(id: string, req: Request): Tx {
    Tx(id, req, L.Life(req.amount, L.Pending, 0))
  }

  /** The critical section of Create. */
  function Insert(s: Store, tx: Tx): Result<Store, Error> {
    if tx.request.key == "" then Ok(s.(transactions := s.transactions[tx.id := tx]))
    else if tx.request.key in s.keys then Err(DuplicateKey)
    else Ok(Store(s.transactions[tx.id := tx], s.keys[tx.request.key := tx.id]))
  }

  /** GetByIdempotencyKey: the outer option is the error, the inner one a nil
      pointer for an index entry without transaction. */
  function Lookup(s: Store, key: string): Option<Option<Tx>> {
    if key !in s.keys then None
    else if s.keys[key] in s.transactions then Some(Some(s.transactions[s.keys[key]]))
    else Some(None)
  }

  /** Every transaction is filed under its id, and the key index holds exactly
      the non-empty keys of stored transactions. */
  ghost predicate Indexed(s: Store) {
    (forall id :: id in s.transactions ==> s.transactions[id].id == id) &&
    (forall id :: id in s.transactions && s.transactions[id].request.key != "" ==>
      s.transactions[id].request.key in s.keys && s.keys[s.transactions[id].request.key] == id) &&
    (forall k :: k in s.keys ==>
      k != "" && s.keys[k] in s.transactions && s.transactions[s.keys[k]].request.key == k)
  }

  /** The critical section of Update, for a stored id. */
  function Replace(s: Store, tx: Tx): Store {
    s.(transactions := s.transactions[tx.id := tx])
  }

  /** Update does not look at the key index, so the index stays exact exactly when
      the key is the one stored before. */
  lemma ReplaceKeepsIndexedExactly(s: Store, tx: Tx)
    requires Indexed(s) && tx.id in s.transactions
    ensures Indexed(Replace(s, tx)) <==> tx.request.key == s.transactions[tx.id].request.key
  {
    var s', before, after := Replace(s, tx), s.transactions[tx.id].request.key, tx.request.key;
    assert s'.transactions[tx.id] == tx;
    if before != after && before != "" {
      assert before in s'.keys && s'.keys[before] == tx.id;
    } else if before != after {
      assert after in s.keys ==> s.keys[after] != tx.id;
    }
  }

  lemma InsertKeepsIndexed(s: Store, tx: Tx)
    requires Indexed(s) && tx.id !in s.transactions
    ensures Insert(s, tx).Ok? ==> Indexed(Insert(s, tx).value)
    ensures Insert(s, tx).Err? <==> tx.request.key != "" && tx.request.key in s.keys
  {
  }

  /** In an indexed store a key leads to the one transaction that carries it. */
  lemma LookupIsExact(s: Store, key: string)
    requires Indexed(s) && key != ""
    ensures Lookup(s, key).None? <==> forall id :: id in s.transactions ==> s.transactions[id].request.key != key
    ensures Lookup(s, key).Some? ==> Lookup(s, key).value.Some?
    ensures forall id :: id in s.transactions && s.transactions[id].request.key == key ==>
      Lookup(s, key) == Some(Some(s.transactions[id]))
  {
  }

  // ---------------------------------------------------------------------
  // The objects
  // ---------------------------------------------------------------------

  class Transaction {
    const id: string
    const request: Request
    var status: L.Status
    var refundedAmount: int64

    constructor (id: string, request: Request)
      ensures this.id == id && this.request == request
      ensures Value() == NewTx(id, request)
    {
      this.id, this.request, status, refundedAmount := id, request, L.Pending, 0;
    }

    ghost function Life(): L.Life
      reads this
    {
      L.Life(request.amount, status, refundedAmount)
    }

    ghost function Value(): Tx
      reads this
    {
      Tx(id, request, Life())
    }
  }

  class InMemoryRepository {
    var transactions: map<string, Transaction>
    var idempotencyKeys: map<string, string>

    ghost function Value(): Store
      reads this, transactions.Values
    {
      Store(map id | id in transactions :: transactions[id].Value(), idempotencyKeys)
    }

    ghost predicate Valid()
      reads this, transactions.Values
    {
      (forall id :: id in transactions ==> transactions[id].id == id) && Indexed(Value())
    }

    constructor ()
      ensures Valid() && Value() == Store(map[], map[])
    {
      transactions, idempotencyKeys := map[], map[];
    }

    /** The id was just generated and is assumed fresh. */
    method Create(tx: Transaction) returns (error: Option<Error>)
      requires Valid() && tx.id !in transactions
      modifies this
      ensures Valid()
      ensures match Insert(old(Value()), tx.Value())
              case Ok(s) => error == None && Value() == s && transactions == old(transactions)[tx.id := tx]
              case Err(e) => error == Some(e) && Value() == old(Value()) && transactions == old(transactions)
    {
      hide Indexed;
      ghost var s := Value();
      InsertKeepsIndexed(s, tx.Value());
      if tx.request.key != "" {
        if tx.request.key in idempotencyKeys {
          return Some(DuplicateKey);
        }
        idempotencyKeys := idempotencyKeys[tx.request.key := tx.id];
      }
      transactions := transactions[tx.id := tx];
      assert Value().transactions == s.transactions[tx.id := tx.Value()];
      return None;
    }

    method GetByID(id: string) returns (tx: Option<Transaction>)
      ensures tx == if id in transactions then Some(transactions[id]) else None
    {
      return if id in transactions then Some(transactions[id]) else None;
    }

    method GetByIdempotencyKey(key: string) returns (tx: Option<Transaction>)
      requires Valid()
      ensures key !in idempotencyKeys ==> tx == None
      ensures key in idempotencyKeys ==>
        idempotencyKeys[key] in transactions && tx == Some(transactions[idempotencyKeys[key]]) &&
        tx.value.id == idempotencyKeys[key] && tx.value.request.key == key &&
        Lookup(Value(), key) == Some(Some(tx.value.Value()))
    {
      assert forall k :: k in Value().keys ==> (
        Value().keys[k] in Value().transactions && Value().transactions[Value().keys[k]].request.key == k);
      if key !in idempotencyKeys {
        return None;
      }
      return Some(transactions[idempotencyKeys[key]]);
    }

    /** Any object may come in; the key index is left alone. Storing the live
        transaction again changes nothing. */
    method Update(tx: Transaction) returns (ok: bool)
      requires Valid()
      modifies this
      ensures ok <==> tx.id in old(transactions)
      ensures transactions == if ok then old(transactions)[tx.id := tx] else old(transactions)
      ensures Value() == if ok then Replace(old(Value()), tx.Value()) else old(Value())
      ensures ok && old(transactions)[tx.id] == tx ==> Value() == old(Value()) && transactions == old(transactions)
      ensures Valid() <==> !ok || tx.request.key == old(transactions[tx.id].request.key)
    {
      hide Indexed;
      ghost var s := Value();
      if tx.id !in transactions {
        return false;
      }
      transactions := transactions[tx.id := tx];
      assert Value().transactions == s.transactions[tx.id := tx.Value()];
      ReplaceKeepsIndexedExactly(s, tx.Value());
      return true;
    }
  }

  class TransactionService {
    const repo: InMemoryRepository

    constructor (repo: InMemoryRepository)
      ensures this.repo == repo
    {
      this.repo := repo;
    }

    /** One call alone. A repeated key returns the transaction of the first
        call, whatever else the request says. `id` is what the generator
        returns. */
    method CreateTransaction(req: Request, id: Option<string>) returns (r: Result<Transaction, Error>)
      requires repo.Valid() && (id.Some? ==> id.value !in repo.transactions)
      modifies repo
      ensures repo.Valid()
      ensures r.Err? ==> repo.Value() == old(repo.Value())
      ensures r.Err? ==> r.error == if Validate(req).Some? then Validate(req).value else GeneratorFailed
      ensures r.Err? <==> (
        Validate(req).Some? || (id.None? && (req.key == "" || req.key !in old(repo.idempotencyKeys))))
      ensures r.Ok? ==> r.value.id in repo.transactions && repo.transactions[r.value.id] == r.value
      ensures r.Ok? && req.key != "" ==>
        req.key in repo.idempotencyKeys && repo.idempotencyKeys[req.key] == r.value.id && r.value.request.key == req.key
      ensures r.Ok? && req.key != "" && req.key in old(repo.idempotencyKeys) ==>
        repo.Value() == old(repo.Value()) && r.value == old(repo.transactions[repo.idempotencyKeys[req.key]])
      ensures r.Ok? && (req.key == "" || req.key !in old(repo.idempotencyKeys)) ==>
        fresh(r.value) && r.value.Value() == NewTx(id.value, req) &&
        r.value.id == id.value && r.value.request == req &&
        r.value.status == L.Pending && r.value.refundedAmount == 0 &&
        Insert(old(repo.Value()), NewTx(id.value, req)) == Ok(repo.Value())
    {
      hide Validate, Indexed;
      var invalid := CheckRequest(req);
      if invalid.Some? {
        return Err(invalid.value);
      }
      if req.key != "" {
        var existing := repo.GetByIdempotencyKey(req.key);
        if existing.Some? {
          return Ok(existing.value);
        }
      }
      if id.None? {
        return Err(GeneratorFailed);
      }
      var tx := new Transaction(id.value, req);
      InsertKeepsIndexed(repo.Value(), tx.Value());
      var error := repo.Create(tx);
      return Ok(tx);
    }

    method CheckRequest(req: Request) returns (r: Option<Error>)
      ensures r == Validate(req)
      ensures r == None <==>
        req.amount > 0 && req.currency in {"USD", "EUR", "GBP", "IQD", "AED"} &&
        req.paymentMethod in {"card", "bank_transfer", "wallet", "stripe", "paypal"}
      ensures r == Some(InvalidAmount) <==> req.amount <= 0
      ensures r == Some(InvalidCurrency) <==>
        req.amount > 0 && req.currency !in {"USD", "EUR", "GBP", "IQD", "AED"}
    {
      if req.amount <= 0 {
        return Some(InvalidAmount);
      }
      if req.currency !in SUPPORTED_CURRENCIES {
        return Some(InvalidCurrency);
      }
      if req.paymentMethod !in SUPPORTED_METHODS {
        return Some(InvalidPaymentMethod);
      }
      return None;
    }

    /** What a lifecycle call on `id` must do: the named transaction follows the
        specification, or nothing at all changes. */
    twostate predicate Performed(id: string, op: L.Op, new r: Result<Transaction, Error>)
      reads repo, repo.transactions.Values
    {
      repo.transactions == old(repo.transactions) && repo.idempotencyKeys == old(repo.idempotencyKeys) &&
      (forall k :: k in repo.transactions && k != id ==>
        repo.transactions[k].Value() == old(repo.transactions[k].Value())) &&
      (id !in repo.transactions ==> r == Err(Lifecycle(L.NotFound))) &&
      (id in repo.transactions ==>
        var tx := repo.transactions[id];
        match L.Apply(old(tx.Life()), op)
        case Ok(life) => r == Ok(tx) && tx.Life() == life
        case Err(e) => r == Err(Lifecycle(e)) && tx.Life() == old(tx.Life()))
    }

    /** Authorize, Complete, Cancel and Fail only set the status. */
    method Transition(id: string, op: L.Op) returns (r: Result<Transaction, Error>)
      requires repo.Valid() && !op.Refund?
      modifies repo, repo.transactions.Values
      ensures repo.Valid() && Performed(id, op, r)
    {
      hide Indexed;
      var found := repo.GetByID(id);
      if found.None? {
        return Err(Lifecycle(L.NotFound));
      }
      var tx := found.value;
      if !L.CanTransitionTo(tx.status, L.Target(op)) {
        return Err(Lifecycle(L.Refusal(op)));
      }
      ghost var s := repo.Value();
      tx.status := L.Target(op);
      LifeChangeKeepsIndexed(s, repo.Value());
      var stored := repo.Update(tx);
      return Ok(tx);
    }

    /** What the four status calls promise: the transaction goes from one of some
        statuses to another, or the call is refused and nothing changes. */
    twostate predicate Goes(
      id: string, from: set<L.Status>, to: L.Status, refusal: L.Error, new r: Result<Transaction, Error>)
      reads repo, repo.transactions.Values
    {
      repo.transactions == old(repo.transactions) && repo.idempotencyKeys == old(repo.idempotencyKeys) &&
      (forall k :: k in repo.transactions && k != id ==>
        repo.transactions[k].Value() == old(repo.transactions[k].Value())) &&
      (id !in repo.transactions ==> r == Err(Lifecycle(L.NotFound))) &&
      (id in repo.transactions ==>
        var tx := repo.transactions[id];
        tx.refundedAmount == old(tx.refundedAmount) &&
        if old(tx.status) in from then r == Ok(tx) && tx.status == to
        else r == Err(Lifecycle(refusal)) && tx.status == old(tx.status))
    }

    method AuthorizeTransaction(id: string) returns (r: Result<Transaction, Error>)
      requires repo.Valid()
      modifies repo, repo.transactions.Values
      ensures repo.Valid() && Performed(id, L.Authorize, r)
      ensures Goes(id, {L.Pending}, L.Authorized, L.InvalidTransition, r)
    {
      hide Indexed;
      r := Transition(id, L.Authorize);
    }

    method CompleteTransaction(id: string) returns (r: Result<Transaction, Error>)
      requires repo.Valid()
      modifies repo, repo.transactions.Values
      ensures repo.Valid() && Performed(id, L.Complete, r)
      ensures Goes(id, {L.Authorized}, L.Completed, L.InvalidTransition, r)
    {
      hide Indexed;
      r := Transition(id, L.Complete);
    }

    method CancelTransaction(id: string) returns (r: Result<Transaction, Error>)
      requires repo.Valid()
      modifies repo, repo.transactions.Values
      ensures repo.Valid() && Performed(id, L.Cancel, r)
      ensures Goes(id, {L.Pending, L.Authorized}, L.Cancelled, L.CannotCancel, r)
    {
      hide Indexed;
      r := Transition(id, L.Cancel);
    }

    method FailTransaction(id: string) returns (r: Result<Transaction, Error>)
      requires repo.Valid()
      modifies repo, repo.transactions.Values
      ensures repo.Valid() && Performed(id, L.Fail, r)
      ensures Goes(id, {L.Pending, L.Authorized}, L.Failed, L.InvalidTransition, r)
    {
      hide Indexed;
      r := Transition(id, L.Fail);
    }

    /** A safe refund of a completed transaction: refused, without effect, when it
        exceeds what is left, and otherwise added to what has been refunded. */
    twostate predicate Settles(tx: Transaction, amount: int64, new r: Result<Transaction, Error>)
      reads tx
    {
      var asked := if amount == 0 then tx.request.amount else amount;
      var refunded := old(tx.refundedAmount) as int + asked as int;
      L.Consistent(old(tx.Life())) && L.SafeRefund(old(tx.Life()), amount) ==> (
        if refunded > tx.request.amount then
          r == Err(Lifecycle(L.RefundExceedsAmount)) && tx.Life() == old(tx.Life())
        else
          r == Ok(tx) && tx.refundedAmount as int == refunded &&
          tx.status == (if refunded == tx.request.amount then L.Refunded else L.Completed))
    }

    method RefundTransaction(id: string, amount: int64) returns (r: Result<Transaction, Error>)
      requires repo.Valid()
      modifies repo, repo.transactions.Values
      ensures repo.Valid() && Performed(id, L.Refund(amount), r)
      ensures id in repo.transactions && old(repo.transactions[id].status) != L.Completed ==>
        r == Err(Lifecycle(L.CannotRefund))
      ensures id in repo.transactions && old(repo.transactions[id].status) == L.Completed ==>
        Settles(repo.transactions[id], amount, r)
    {
      hide Indexed, L.Apply, L.Consistent;
      if id in repo.transactions {
        ghost var life := repo.transactions[id].Life();
        if life.status != L.Completed {
          L.RefundNeedsCompletion(life, amount);
        } else if L.Consistent(life) && L.SafeRefund(life, amount) {
          L.SafeRefundOutcome(life, amount);
        }
      }
      r := Refund(id, amount);
    }

    /** The body of RefundTransaction. */
    method Refund(id: string, amount: int64) returns (r: Result<Transaction, Error>)
      requires repo.Valid()
      modifies repo, repo.transactions.Values
      ensures repo.Valid() && Performed(id, L.Refund(amount), r)
    {
      hide Indexed, L.CanTransitionTo, Wrap;
      var found := repo.GetByID(id);
      if found.None? {
        return Err(Lifecycle(L.NotFound));
      }
      var tx := found.value;
      if !L.CanTransitionTo(tx.status, L.Refunded) {
        return Err(Lifecycle(L.CannotRefund));
      }
      var refundAmount := amount;
      if refundAmount == 0 {
        refundAmount := tx.request.amount;
      }
      if Wrap(tx.refundedAmount + refundAmount) > tx.request.amount {
        return Err(Lifecycle(L.RefundExceedsAmount));
      }
      ghost var s := repo.Value();
      tx.refundedAmount := Wrap(tx.refundedAmount + refundAmount);
      if tx.refundedAmount >= tx.request.amount {
        tx.status := L.Refunded;
      }
      LifeChangeKeepsIndexed(s, repo.Value());
      var stored := repo.Update(tx);
      return Ok(tx);
    }
  }

  lemma LifeChangeKeepsIndexed(s: Store, t: Store)
    requires Indexed(s) && s.keys == t.keys && s.transactions.Keys == t.transactions.Keys
    requires forall id :: id in s.transactions ==>
      t.transactions[id] == s.transactions[id].(life := t.transactions[id].life)
    ensures Indexed(t)
  {
  }
}
