/** Live account objects, their repository and the service over it
    (services/account/repositories/repository.go,
    services/account/services/account_service.go). */
module AccountService {
  import opened Results
  import opened Int64
  import A = Accounts

  class Account {
    const id: string
    var email: string
    var status: A.Status
    var balance: int64
    var instruments: seq<A.Instrument>

    constructor (id: string, email: string)
      ensures this.id == id && Value() == A.Account(id, email, A.Pending, 0, [])
    {
      this.id, this.email, status, balance, instruments := id, email, A.Pending, 0, [];
    }

    ghost function Value(): A.Account
      reads this
    {
      A.Account(id, email, status, balance, instruments)
    }

    /** The loop that unsets the other defaults, in place. */
    method ClearDefaults()
      modifies this`instruments
      ensures instruments == A.ClearDefaults(old(instruments))
    {
      for i := 0 to |instruments|
        invariant |instruments| == |old(instruments)|
        invariant forall k :: 0 <= k < |instruments| ==>
          instruments[k] == if k < i then old(instruments)[k].(isDefault := false) else old(instruments)[k]
      {
        instruments := instruments[i := instruments[i].(isDefault := false)];
      }
    }

    /** A new default clears the flag of all others. */
    method AddInstrument(x: A.Instrument)
      modifies this`instruments
      ensures instruments == A.AddInstrument(old(instruments), x)
    {
      if x.isDefault {
        ClearDefaults();
      }
      instruments := instruments + [x];
    }

    /** The loop that rebuilds the list without an instrument; the list is
        replaced only when something was found. */
    method RemoveInstrument(instrumentID: string) returns (found: bool)
      modifies this`instruments
      ensures found <==> A.HasInstrument(old(instruments), instrumentID)
      ensures instruments == if found then A.RemoveInstrument(old(instruments), instrumentID) else old(instruments)
    {
      var newInstruments := [];
      found := false;
      for i := 0 to |instruments|
        invariant newInstruments == A.RemoveInstrument(instruments[..i], instrumentID)
        invariant found <==> A.HasInstrument(instruments[..i], instrumentID)
      {
        assert instruments[..i + 1][..i] == instruments[..i];
        if instruments[i].id != instrumentID {
          newInstruments := newInstruments + [instruments[i]];
        } else {
          found := true;
        }
      }
      assert instruments[..|instruments|] == instruments;
      if found {
        instruments := newInstruments;
      }
    }
  }

  class InMemoryRepository {
    var accounts: map<string, Account>
    var emailIndex: map<string, string>
    var versions: map<string, int>

    ghost function Value(): A.Repo
      reads this, accounts.Values
    {
      A.Repo(map id | id in accounts :: accounts[id].Value(), emailIndex, versions)
    }

    ghost predicate Filed()
      reads this`accounts, accounts.Values
    {
      forall id :: id in accounts ==> accounts[id].id == id
    }

    /** What the service keeps: an exact email index and no negative balance. */
    ghost predicate Valid()
      reads this, accounts.Values
    {
      Filed() && A.Indexed(Value()) && forall id :: id in accounts ==> accounts[id].balance >= 0
    }

    /** Changes in place that spare emails and balances keep the repository valid. */
    twostate lemma StaysValid()
      requires old(Valid())
      requires accounts == old(accounts) && emailIndex == old(emailIndex) && versions == old(versions)
      requires forall k :: k in accounts ==> accounts[k].email == old(accounts[k].email)
      requires forall k :: k in accounts ==> accounts[k].balance == old(accounts[k].balance)
      ensures Valid()
    {
      ghost var r, r' := old(Value()), Value();
      assert forall k :: k in accounts ==> r'.accounts[k].email == r.accounts[k].email;
      assert forall k :: k in accounts ==> r'.accounts[k].id == r.accounts[k].id;
    }

    /** Only the account under `id` changed since the repository was `r`. */
    lemma OneChanged(r: A.Repo, id: string)
      requires r.accounts.Keys == accounts.Keys && id in accounts
      requires forall k :: k in accounts && k != id ==> accounts[k].Value() == r.accounts[k]
      ensures Value().accounts == r.accounts[id := accounts[id].Value()]
    {
    }

    constructor ()
      ensures Valid() && Value() == A.Repo(map[], map[], map[])
    {
      accounts, emailIndex, versions := map[], map[], map[];
    }

    method Create(account: Account) returns (error: Option<A.Error>)
      requires Filed()
      modifies this
      ensures Filed()
      ensures match A.Create(old(Value()), account.Value())
              case Ok(r) => error == None && Value() == r && accounts == old(accounts)[account.id := account]
              case Err(e) => error == Some(e) && Value() == old(Value()) && accounts == old(accounts)
      ensures error == if account.email in old(emailIndex) then Some(A.EmailAlreadyExists) else None
      ensures error == None ==> (
        versions == old(versions)[account.id := 1] && emailIndex == old(emailIndex)[account.email := account.id])
    {
      ghost var r := Value();
      if account.email in emailIndex {
        return Some(A.EmailAlreadyExists);
      }
      accounts := accounts[account.id := account];
      emailIndex := emailIndex[account.email := account.id];
      versions := versions[account.id := 1];
      assert Value().accounts == r.accounts[account.id := account.Value()];
      return None;
    }

    method GetByID(id: string) returns (account: Option<Account>)
      ensures account == if id in accounts then Some(accounts[id]) else None
    {
      return if id in accounts then Some(accounts[id]) else None;
    }

    method GetByEmail(email: string) returns (account: Option<Account>)
      requires Valid()
      ensures account.Some? <==> exists id :: id in accounts && accounts[id].email == email
      ensures account.Some? ==> account.value.id in accounts && accounts[account.value.id] == account.value
      ensures account.Some? ==> account.value.email == email
    {
      ghost var r := Value();
      assert forall id :: id in accounts ==> r.accounts[id].email == accounts[id].email;
      assert forall e :: e in r.emailIndex ==> r.emailIndex[e] in accounts && r.accounts[r.emailIndex[e]].email == e;
      if email !in emailIndex {
        return None;
      }
      return Some(accounts[emailIndex[email]]);
    }

    /** The object may be the stored one, changed in place, or another. */
    method Update(account: Account) returns (error: Option<A.Error>)
      requires Filed()
      modifies this
      ensures Filed() && accounts.Keys == old(accounts).Keys
      ensures account.id in accounts ==> accounts == old(accounts)[account.id := account]
      ensures match A.Update(old(Value()), account.Value())
              case Ok(r) => error == None && Value() == r
              case Err(e) => error == Some(e) && Value() == old(Value())
    {
      ghost var r := Value();
      if account.id !in accounts {
        return Some(A.AccountNotFound);
      }
      var existing := accounts[account.id];
      if existing.email != account.email {
        emailIndex := emailIndex - {existing.email};
        emailIndex := emailIndex[account.email := account.id];
      }
      accounts := accounts[account.id := account];
      IncrementVersion(account.id);
      assert Value().accounts == r.accounts[account.id := account.Value()];
      return None;
    }

    method UpdateWithVersion(account: Account, expectedVersion: int) returns (error: Option<A.Error>)
      requires Filed()
      modifies this
      ensures Filed() && accounts.Keys == old(accounts).Keys
      ensures match A.UpdateWithVersion(old(Value()), account.Value(), expectedVersion)
              case Ok(r) => error == None && Value() == r
              case Err(e) => error == Some(e) && Value() == old(Value())
      ensures accounts == if error == None then old(accounts)[account.id := account] else old(accounts)
    {
      ghost var r := Value();
      if account.id !in accounts {
        return Some(A.AccountNotFound);
      }
      var version := if account.id in versions then versions[account.id] else 0;
      if version != expectedVersion {
        return Some(A.ConcurrentUpdate);
      }
      accounts := accounts[account.id := account];
      IncrementVersion(account.id);
      assert Value().accounts == r.accounts[account.id := account.Value()];
      return None;
    }

    /** versions[id]++ on a Go map, where a missing entry counts as 0. */
    method IncrementVersion(id: string)
      modifies this`versions
      ensures versions == old(versions)[id := (if id in old(versions) then old(versions)[id] else 0) + 1]
    {
      var version := if id in versions then versions[id] else 0;
      versions := versions[id := version + 1];
    }

    /** The live object changes in place; nobody else's does. */
    method UpdateBalanceAtomic(id: string, delta: int64) returns (error: Option<A.Error>)
      requires Filed()
      modifies this`versions, accounts.Values
      ensures Filed() && accounts == old(accounts)
      ensures match A.UpdateBalance(old(Value()), id, delta)
              case Ok(r) => error == None && Value() == r
              case Err(e) => error == Some(e) && Value() == old(Value())
    {
      ghost var r := Value();
      if id !in accounts {
        return Some(A.AccountNotFound);
      }
      var account := accounts[id];
      var newBalance := Wrap(account.balance + delta);
      if newBalance < 0 {
        return Some(A.InsufficientBalance);
      }
      account.balance := newBalance;
      forall k | k in accounts && k != id ensures accounts[k].Value() == r.accounts[k] {
        assert accounts[k].id == k;
      }
      OneChanged(r, id);
      IncrementVersion(id);
      return None;
    }

    method Delete(id: string) returns (error: Option<A.Error>)
      requires Filed()
      modifies this
      ensures Filed()
      ensures match A.Delete(old(Value()), id)
              case Ok(r) => error == None && Value() == r
              case Err(e) => error == Some(e) && Value() == old(Value())
    {
      ghost var r := Value();
      if id !in accounts {
        return Some(A.AccountNotFound);
      }
      emailIndex := emailIndex - {accounts[id].email};
      accounts := accounts - {id};
      versions := versions - {id};
      assert Value().accounts == r.accounts - {id};
      return None;
    }
  }

  class AccountService {
    const repo: InMemoryRepository

    constructor (repo: InMemoryRepository)
      ensures this.repo == repo
    {
      this.repo := repo;
    }

    /** `valid` is the verdict on email, type and currency; `id` is what the
        generator returns, assumed fresh. */
    method CreateAccount(email: string, valid: bool, id: Option<string>) returns (r: Result<Account, A.Error>)
      requires repo.Valid() && (id.Some? ==> id.value !in repo.accounts)
      modifies repo
      ensures repo.Valid()
      ensures r.Ok? <==> (
        valid && id.Some? && forall k :: k in old(repo.accounts) ==> old(repo.accounts[k].email) != email)
      ensures r.Ok? ==> fresh(r.value) && repo.accounts == old(repo.accounts)[id.value := r.value]
      ensures r.Ok? ==> r.value.Value() == A.Account(id.value, email, A.Pending, 0, [])
      ensures r.Err? ==> repo.Value() == old(repo.Value())
    {
      if !valid {
        return Err(A.InvalidRequest);
      }
      var existing := repo.GetByEmail(email);
      if existing.Some? {
        return Err(A.EmailAlreadyExists);
      }
      if id.None? {
        return Err(A.GeneratorFailed);
      }
      var account := new Account(id.value, email);
      StoreNew(account);
      return Ok(account);
    }

    /** repo.Create of an account whose email and id are both free. */
    method StoreNew(account: Account)
      requires repo.Valid() && account.id !in repo.accounts && account.balance >= 0
      requires forall k :: k in repo.accounts ==> repo.accounts[k].email != account.email
      modifies repo
      ensures repo.Valid() && repo.accounts == old(repo.accounts)[account.id := account]
    {
      hide A.Indexed;
      ghost var r := repo.Value();
      A.CreateAndDeleteKeepIndex(r, account.Value(), "");
      assert forall k :: k in r.accounts ==> r.accounts[k].email == repo.accounts[k].email;
      var error := repo.Create(account);
    }

    method CheckAccountActive(account: Account) returns (error: Option<A.Error>)
      ensures error == match account.status
                       case Frozen => Some(A.AccountFrozen)
                       case Closed => Some(A.AccountClosed)
                       case _ => None
    {
      match account.status {
        case Frozen => return Some(A.AccountFrozen);
        case Closed => return Some(A.AccountClosed);
        case _ => return None;
      }
    }

    /** What a balance change by `delta` must do: all of it or nothing, and
        nothing to any other account. */
    twostate predicate Moved(id: string, delta: int, ok: bool)
      reads repo, repo.accounts.Values
    {
      repo.accounts == old(repo.accounts) &&
      (forall k :: k in repo.accounts && k != id ==> repo.accounts[k].Value() == old(repo.accounts[k].Value())) &&
      (ok ==>
        id in repo.accounts && repo.accounts[id].balance as int == old(repo.accounts[id].balance) as int + delta) &&
      (!ok ==> repo.Value() == old(repo.Value()))
    }

    /** A credit succeeds exactly when it is positive, the account open and the
        true sum an int64; there is no other error than these. */
    method CreditBalance(id: string, amount: int64) returns (r: Result<Account, A.Error>)
      requires repo.Valid()
      modifies repo`versions, repo.accounts.Values
      ensures repo.Valid()
      ensures Moved(id, amount, r.Ok?)
      ensures r.Ok? <==> (
        amount > 0 && id in repo.accounts &&
        old(repo.accounts[id].status) != A.Frozen && old(repo.accounts[id].status) != A.Closed &&
        old(repo.accounts[id].balance) as int + amount as int <= MAX)
      ensures r.Ok? ==> r.value == repo.accounts[id]
    {
      if amount <= 0 {
        return Err(A.InvalidAmount);
      }
      var found := repo.GetByID(id);
      if found.None? {
        return Err(A.AccountNotFound);
      }
      var inactive := CheckAccountActive(found.value);
      if inactive.Some? {
        return Err(inactive.value);
      }
      var error := ChangeBalance(id, amount);
      if error.Some? {
        return Err(error.value);
      }
      return Ok(found.value);
    }

    /** A debit succeeds exactly when it is positive, the account open and the
        balance sufficient. */
    method DebitBalance(id: string, amount: int64) returns (r: Result<Account, A.Error>)
      requires repo.Valid()
      modifies repo`versions, repo.accounts.Values
      ensures repo.Valid()
      ensures Moved(id, -(amount as int), r.Ok?)
      ensures r.Ok? <==> (
        amount > 0 && id in repo.accounts &&
        old(repo.accounts[id].status) != A.Frozen && old(repo.accounts[id].status) != A.Closed &&
        old(repo.accounts[id].balance) >= amount)
      ensures r.Ok? ==> r.value == repo.accounts[id]
    {
      if amount <= 0 {
        return Err(A.InvalidAmount);
      }
      var found := repo.GetByID(id);
      if found.None? {
        return Err(A.AccountNotFound);
      }
      var inactive := CheckAccountActive(found.value);
      if inactive.Some? {
        return Err(inactive.value);
      }
      if found.value.balance < amount {
        return Err(A.InsufficientBalance);
      }
      var error := ChangeBalance(id, -amount);
      match error {
        case None => return Ok(found.value);
        case Some(e) => return Err(e);
      }
    }

    /** UpdateBalanceAtomic on a known account of a valid repository. */
    method ChangeBalance(id: string, delta: int64) returns (error: Option<A.Error>)
      requires repo.Valid() && id in repo.accounts
      modifies repo`versions, repo.accounts.Values
      ensures repo.Valid() && Moved(id, delta, error.None?)
      ensures error.None? <==> 0 <= old(repo.accounts[id].balance) as int + delta as int <= MAX
    {
      hide A.Indexed;
      ghost var before := repo.Value();
      A.BalanceIsExact(before, id, delta);
      A.BalanceKeepsIndex(before, id, delta);
      error := repo.UpdateBalanceAtomic(id, delta);
      forall k | k in repo.accounts
        ensures repo.accounts[k].Value() == repo.Value().accounts[k] && repo.accounts[k].balance >= 0
      {
        assert before.accounts[k] == old(repo.accounts[k].Value());
      }
    }

    /** Account `id` got status `status`, if any, and nothing else changed. */
    twostate predicate Restated(id: string, status: Result<A.Status, A.Error>)
      reads repo, repo.accounts.Values
    {
      repo.accounts == old(repo.accounts) &&
      forall k :: k in repo.accounts ==> (
        repo.accounts[k].Value() ==
          if k == id && status.Ok? then old(repo.accounts[k].Value()).(status := status.value)
          else old(repo.accounts[k].Value()))
    }

    method ActivateAccount(id: string) returns (r: Result<Account, A.Error>)
      requires repo.Valid()
      modifies repo, repo.accounts.Values
      ensures repo.Valid()
      ensures id !in old(repo.accounts) ==> r == Err(A.AccountNotFound) && Restated(id, Err(A.AccountNotFound))
      ensures id in old(repo.accounts) ==> (
        Restated(id, A.SetStatus(old(repo.accounts[id].status), A.Activate)) &&
        r == if old(repo.accounts[id].status) == A.Closed then Err(A.AccountClosed) else Ok(repo.accounts[id]))
      ensures id in repo.accounts ==>
        repo.accounts[id].status == if old(repo.accounts[id].status) == A.Closed then A.Closed else A.Active
    {
      var found := repo.GetByID(id);
      if found.None? {
        return Err(A.AccountNotFound);
      }
      if found.value.status == A.Closed {
        return Err(A.AccountClosed);
      }
      PutStatus(found.value, A.Active);
      return Ok(found.value);
    }

    method FreezeAccount(id: string) returns (r: Result<Account, A.Error>)
      requires repo.Valid()
      modifies repo, repo.accounts.Values
      ensures repo.Valid()
      ensures id !in old(repo.accounts) ==> r == Err(A.AccountNotFound) && Restated(id, Err(A.AccountNotFound))
      ensures id in old(repo.accounts) ==> (
        Restated(id, A.SetStatus(old(repo.accounts[id].status), A.Freeze)) && r == Ok(repo.accounts[id]))
      ensures id in repo.accounts ==> repo.accounts[id].status == A.Frozen
    {
      var found := repo.GetByID(id);
      if found.None? {
        return Err(A.AccountNotFound);
      }
      PutStatus(found.value, A.Frozen);
      return Ok(found.value);
    }

    method UnfreezeAccount(id: string) returns (r: Result<Account, A.Error>)
      requires repo.Valid()
      modifies repo, repo.accounts.Values
      ensures repo.Valid()
      ensures id !in old(repo.accounts) ==> r == Err(A.AccountNotFound) && Restated(id, Err(A.AccountNotFound))
      ensures id in old(repo.accounts) ==> (
        Restated(id, A.SetStatus(old(repo.accounts[id].status), A.Unfreeze)) && r == Ok(repo.accounts[id]))
      ensures id in repo.accounts ==>
        repo.accounts[id].status ==
          if old(repo.accounts[id].status) == A.Frozen then A.Active else old(repo.accounts[id].status)
    {
      var found := repo.GetByID(id);
      if found.None? {
        return Err(A.AccountNotFound);
      }
      if found.value.status != A.Frozen {
        return Ok(found.value);
      }
      PutStatus(found.value, A.Active);
      return Ok(found.value);
    }

    method CloseAccount(id: string) returns (r: Result<Account, A.Error>)
      requires repo.Valid()
      modifies repo, repo.accounts.Values
      ensures repo.Valid()
      ensures id !in old(repo.accounts) ==> r == Err(A.AccountNotFound) && Restated(id, Err(A.AccountNotFound))
      ensures id in old(repo.accounts) ==> (
        Restated(id, A.SetStatus(old(repo.accounts[id].status), A.Close)) && r == Ok(repo.accounts[id]))
      ensures id in repo.accounts ==> repo.accounts[id].status == A.Closed
    {
      var found := repo.GetByID(id);
      if found.None? {
        return Err(A.AccountNotFound);
      }
      PutStatus(found.value, A.Closed);
      return Ok(found.value);
    }

    method PutStatus(account: Account, status: A.Status)
      requires repo.Valid() && account.id in repo.accounts && repo.accounts[account.id] == account
      modifies repo, repo.accounts.Values
      ensures repo.Valid() && Restated(account.id, Ok(status))
    {
      hide A.Indexed;
      account.status := status;
      repo.StaysValid();
      Store(account);
    }

    /** A new default instrument clears the flag of all others. `x` carries the
        generated id. */
    method AddPaymentInstrument(accountID: string, x: A.Instrument) returns (r: Result<Account, A.Error>)
      requires repo.Valid()
      modifies repo, repo.accounts.Values
      ensures repo.Valid() && repo.accounts == old(repo.accounts)
      ensures r.Ok? <==> (
        accountID in repo.accounts &&
        old(repo.accounts[accountID].status) != A.Frozen && old(repo.accounts[accountID].status) != A.Closed)
      ensures r.Ok? ==> (
        repo.accounts[accountID].Value() == old(repo.accounts[accountID].Value()).(
          instruments := A.AddInstrument(old(repo.accounts[accountID].instruments), x)))
      ensures r.Ok? ==> A.AddedTo(old(repo.accounts[accountID].instruments), x, repo.accounts[accountID].instruments)
      ensures forall k :: k in repo.accounts && (k != accountID || r.Err?) ==>
        repo.accounts[k].Value() == old(repo.accounts[k].Value())
    {
      var found := repo.GetByID(accountID);
      if found.None? {
        return Err(A.AccountNotFound);
      }
      var account := found.value;
      var inactive := CheckAccountActive(account);
      if inactive.Some? {
        return Err(inactive.value);
      }
      hide A.Indexed, A.AddedTo;
      A.AddInstrumentExact(account.instruments, x);
      account.AddInstrument(x);
      repo.StaysValid();
      Store(account);
      return Ok(account);
    }

    /** All instruments with that id go; the others keep their order. */
    method RemovePaymentInstrument(accountID: string, instrumentID: string) returns (r: Result<Account, A.Error>)
      requires repo.Valid()
      modifies repo, repo.accounts.Values
      ensures repo.Valid() && repo.accounts == old(repo.accounts)
      ensures accountID !in repo.accounts ==> r == Err(A.AccountNotFound)
      ensures accountID in repo.accounts ==> (
        r.Ok? <==> A.HasInstrument(old(repo.accounts[accountID].instruments), instrumentID))
      ensures r.Ok? ==> (
        repo.accounts[accountID].Value() == old(repo.accounts[accountID].Value()).(
          instruments := A.RemoveInstrument(old(repo.accounts[accountID].instruments), instrumentID)))
      ensures forall k :: k in repo.accounts && (k != accountID || r.Err?) ==>
        repo.accounts[k].Value() == old(repo.accounts[k].Value())
    {
      var got := repo.GetByID(accountID);
      if got.None? {
        return Err(A.AccountNotFound);
      }
      var account := got.value;
      hide A.Indexed, A.RemoveInstrument, A.HasInstrument;
      var found := account.RemoveInstrument(instrumentID);
      repo.StaysValid();
      if !found {
        return Err(A.InstrumentNotFound);
      }
      Store(account);
      return Ok(account);
    }

    /** repo.Update with the stored object itself. */
    method Store(account: Account)
      requires repo.Valid() && account.id in repo.accounts && repo.accounts[account.id] == account
      modifies repo
      ensures repo.Valid() && repo.accounts == old(repo.accounts)
    {
      ghost var now := repo.Value();
      var error := repo.Update(account);
      assert repo.accounts == old(repo.accounts);
      assert repo.Value().accounts == now.accounts;
    }
  }
}
