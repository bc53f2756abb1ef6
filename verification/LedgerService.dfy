/** The ledger service object: live accounts, the entry log, the journals and
    the audit trail (services/ledger/services/ledger_service.go). */
module LedgerService {
  import opened Results
  import opened Int64
  import opened Sums
  import opened Ledger
  import opened TrialBalances

  datatype AuditEntity = AccountEntity(account: AccountID) | JournalEntity(journal: string)

  /** Both audited actions are creations. */
  datatype AuditLog = AuditLog(entity: AuditEntity)

  datatype Journal = Journal(id: string, referenceType: string, referenceID: string, entries: seq<Entry>)

  function EntriesOfJournal(log: seq<Entry>, id: string): seq<Entry> {
    if |log| == 0 then []
    else EntriesOfJournal(log[..|log| - 1], id) + if log[|log| - 1].journalID == id then [log[|log| - 1]] else []
  }

  lemma {:induction false} JournalOfConcat(log: seq<Entry>, more: seq<Entry>, id: string)
    ensures EntriesOfJournal(log + more, id) == EntriesOfJournal(log, id) + EntriesOfJournal(more, id)
    decreases |more|
  {
    if |more| == 0 {
      assert log + more == log;
    } else {
      var init := more[..|more| - 1];
      assert (log + more)[..|log + more| - 1] == log + init;
      JournalOfConcat(log, init, id);
    }
  }

  lemma {:induction false} JournalOfOwn(log: seq<Entry>, id: string, own: string)
    requires forall i :: 0 <= i < |log| ==> log[i].journalID == own
    ensures EntriesOfJournal(log, id) == if id == own then log else []
  {
    if |log| > 0 {
      JournalOfOwn(log[..|log| - 1], id, own);
      assert log == log[..|log| - 1] + [log[|log| - 1]];
    }
  }

  /** `error` is what the first request in error, in order, is rejected for. */
  ghost predicate FirstError(accounts: Accounts, reqs: seq<EntryRequest>, error: Error) {
    exists i :: 0 <= i < |reqs| && EntryError(accounts, reqs[i]) == Some(error) &&
      forall j :: 0 <= j < i ==> EntryError(accounts, reqs[j]) == None
  }

  /** The account is there, active, and the amount positive. */
  ghost predicate Postable(accounts: Accounts, r: EntryRequest) {
    r.accountID in accounts && accounts[r.accountID].active && r.amount > 0
  }

  lemma AcceptableExact(accounts: Accounts, reqs: seq<EntryRequest>)
    ensures Acceptable(accounts, reqs) <==>
      |reqs| >= 2 && (Total(reqs, DebitOf) - Total(reqs, CreditOf)) % MODULUS == 0 &&
      forall i :: 0 <= i < |reqs| ==> Postable(accounts, reqs[i])
  {
    hide EntryError;
    forall i | 0 <= i < |reqs| ensures Postable(accounts, reqs[i]) <==> EntryError(accounts, reqs[i]) == None {
      EntryErrorExact(accounts, reqs[i]);
    }
  }

  /** Sound books in which no account was ever deactivated and the system
      accounts are still there with their normal side. */
  ghost predicate Operational(b: Books) {
    Sound(b) &&
    (forall id :: id in b.accounts ==> b.accounts[id].active) &&
    (forall id :: id in SystemAccounts() ==>
      id in b.accounts && b.accounts[id].normal == SystemAccounts()[id].normal)
  }

  /** Each journal is the part of the log that carries its id. */
  ghost predicate Journaled(log: seq<Entry>, journals: map<string, Journal>) {
    (forall j :: j in journals ==> journals[j].id == j && journals[j].entries == EntriesOfJournal(log, j)) &&
    (forall i :: 0 <= i < |log| ==> log[i].journalID in journals)
  }

  lemma NewAccountKeepsOperational(b: Books, id: AccountID, a: Account)
    requires Operational(b) && id !in b.accounts
    requires a.active && a.balance == 0 && (a.normal == Debit || a.normal == Credit)
    ensures Operational(b.(accounts := b.accounts[id := a]))
  {
    NewAccountKeepsSound(b, id, a);
  }

  lemma JournalKeepsOperational(b: Books, journalID: string, reqs: seq<EntryRequest>)
    requires Operational(b) && Acceptable(b.accounts, reqs)
    ensures Known(b, reqs) && Operational(Post(b, journalID, reqs))
  {
    AcceptableKnown(b, reqs);
    JournalKeepsSound(b, journalID, reqs);
    PostAppends(b, journalID, reqs);
    forall id | id in b.accounts
      ensures Post(b, journalID, reqs).accounts[id].active &&
        Post(b, journalID, reqs).accounts[id].normal == b.accounts[id].normal
    {
    }
  }

  ghost predicate Known(b: Books, reqs: seq<EntryRequest>) {
    forall i :: 0 <= i < |reqs| ==> reqs[i].accountID in b.accounts
  }

  lemma AcceptableKnown(b: Books, reqs: seq<EntryRequest>)
    requires Acceptable(b.accounts, reqs)
    ensures Known(b, reqs)
  {
  }

  lemma FilingKeepsJournaled(log: seq<Entry>, posted: seq<Entry>, journals: map<string, Journal>, journal: Journal)
    requires Journaled(log, journals) && journal.id !in journals && journal.entries == posted
    requires forall i :: 0 <= i < |posted| ==> posted[i].journalID == journal.id
    ensures Journaled(log + posted, journals[journal.id := journal])
  {
    var journals' := journals[journal.id := journal];
    forall j | j in journals' ensures journals'[j].entries == EntriesOfJournal(log + posted, j) {
      JournalOfConcat(log, posted, j);
      JournalOfOwn(posted, j, journal.id);
      if j == journal.id {
        JournalOfStranger(log, j, journals.Keys);
      }
    }
  }

  /** Account `id` changes by exactly `amount`, in int64 arithmetic. */
  ghost predicate Grows(before: Accounts, after: Accounts, id: AccountID, amount: int) {
    id in before && id in after && after[id] == before[id].(balance := Wrap(before[id].balance + amount))
  }

  /** One account is debited, another credited, each on its normal side, and no
      other account changes. */
  ghost predicate Transfers(before: Accounts, after: Accounts, debited: AccountID, credited: AccountID, amount: int) {
    before.Keys == after.Keys &&
    Grows(before, after, debited, if debited in DEBIT_ACCOUNTS then amount else -amount) &&
    Grows(before, after, credited, if credited in DEBIT_ACCOUNTS then -amount else amount) &&
    forall id :: id in before && id != debited && id != credited ==> after[id] == before[id]
  }

  lemma TwoSidedVerdict(b: Books, debited: AccountID, credited: AccountID, amount: int64)
    requires Operational(b) && debited in SystemAccounts() && credited in SystemAccounts()
    ensures Known(b, TwoSided(debited, credited, amount)) && Balanced(TwoSided(debited, credited, amount))
    ensures Acceptable(b.accounts, TwoSided(debited, credited, amount)) <==> amount > 0
    ensures forall error ::
      FirstError(b.accounts, TwoSided(debited, credited, amount), error) ==> error == InvalidAmount
  {
    var reqs := TwoSided(debited, credited, amount);
    TotalOfTwo(reqs[0], reqs[1], DebitOf);
    TotalOfTwo(reqs[0], reqs[1], CreditOf);
    var verdict := if amount <= 0 then Some(InvalidAmount) else None;
    assert EntryError(b.accounts, reqs[0]) == verdict && EntryError(b.accounts, reqs[1]) == verdict;
  }

  lemma TwoSidedTransfers(b: Books, journalID: string, debited: AccountID, credited: AccountID, amount: int64)
    requires Operational(b)
    requires debited in SystemAccounts() && credited in SystemAccounts() && debited != credited
    requires Known(b, TwoSided(debited, credited, amount))
    ensures var accounts := Post(b, journalID, TwoSided(debited, credited, amount)).accounts;
      Transfers(b.accounts, accounts, debited, credited, amount)
  {
    hide Post, Sound, Wrap;
    PostTwo(b, journalID, EntryRequest(debited, Debit, amount), EntryRequest(credited, Credit, amount));
  }

  class LedgerAccount {
    const id: AccountID
    const currency: string
    const normalBalance: EntryType
    var balance: int64
    var isActive: bool

    constructor (id: AccountID, currency: string, normalBalance: EntryType)
      ensures this.id == id && Value() == Account(currency, 0, normalBalance, true)
    {
      this.id, this.currency, this.normalBalance := id, currency, normalBalance;
      balance, isActive := 0, true;
    }

    ghost function Value(): Account
      reads this
    {
      Account(currency, balance, normalBalance, isActive)
    }

    /** The balance update of the posting loop. */
    method Move(kind: EntryType, amount: int64)
      modifies this`balance
      ensures balance == Wrap(old(balance) + Delta(kind, normalBalance, amount))
    {
      if kind == Debit {
        if normalBalance == Debit {
          balance := Wrap(balance + amount);
        } else {
          balance := Wrap(balance - amount);
        }
      } else {
        if normalBalance == Credit {
          balance := Wrap(balance + amount);
        } else {
          balance := Wrap(balance - amount);
        }
      }
    }
  }

  class Service {
    var accounts: map<AccountID, LedgerAccount>
    var entries: seq<Entry>
    var journals: map<string, Journal>
    var auditLogs: seq<AuditLog>

    ghost function Value(): Books
      reads this`accounts, this`entries, accounts.Values
    {
      Books(map id | id in accounts :: accounts[id].Value(), entries)
    }

    ghost predicate Filed()
      reads this`accounts, accounts.Values
    {
      forall id :: id in accounts ==> accounts[id].id == id
    }

    /** The invariant of every reachable service. */
    ghost predicate Valid()
      reads this, accounts.Values
    {
      Filed() && Operational(Value()) && Journaled(entries, journals)
    }

    constructor ()
      ensures Valid() && forall id :: id in accounts ==> fresh(accounts[id])
      ensures Value() == Books(SystemAccounts(), []) && journals == map[] && auditLogs == []
      ensures accounts.Keys ==
        {Cash, Receivables, Refunds, Payables, Revenue, Fees, MerchantPayable, CustomerDeposits}
      ensures forall id :: id in accounts ==>
        accounts[id].Value() == Account("USD", 0, if id in {Cash, Receivables, Refunds} then Debit else Credit, true)
    {
      accounts, entries, journals, auditLogs := map[], [], map[], [];
      new;
      InitializeSystemAccounts();
      EmptyBooksAreSound();
      SystemAccountsExact();
      assert accounts.Keys == Value().accounts.Keys;
      assert forall id :: id in accounts ==> accounts[id].Value() == Value().accounts[id];
    }

    method InitializeSystemAccounts()
      requires accounts == map[]
      modifies this`accounts
      ensures Filed() && forall id :: id in accounts ==> fresh(accounts[id])
      ensures Value() == Books(SystemAccounts(), entries)
    {
      var todo := DEBIT_ACCOUNTS + CREDIT_ACCOUNTS;
      while todo != {}
        invariant Filed() && todo <= SystemAccounts().Keys && accounts.Keys == SystemAccounts().Keys - todo
        invariant forall id :: id in accounts ==> fresh(accounts[id]) && accounts[id].Value() == SystemAccounts()[id]
        decreases todo
      {
        var id :| id in todo;
        OpenSystemAccount(id);
        todo := todo - {id};
      }
      assert Value().accounts == SystemAccounts();
    }

    method OpenSystemAccount(id: AccountID)
      requires Filed() && id in SystemAccounts() && id !in accounts
      modifies this`accounts
      ensures Filed() && accounts.Keys == old(accounts).Keys + {id}
      ensures fresh(accounts[id]) && accounts[id].Value() == SystemAccounts()[id]
      ensures forall k :: k in old(accounts) ==> accounts[k] == old(accounts)[k]
    {
      var account := new LedgerAccount(id, "USD", if id in DEBIT_ACCOUNTS then Debit else Credit);
      accounts := accounts[id := account];
    }

    method Install(account: LedgerAccount)
      requires Filed() && account.id !in accounts
      modifies this`accounts
      ensures Filed() && accounts == old(accounts)[account.id := account]
      ensures Value() == old(Value()).(accounts := old(Value()).accounts[account.id := account.Value()])
    {
      ghost var b := Value();
      accounts := accounts[account.id := account];
      assert Value().accounts == b.accounts[account.id := account.Value()];
    }

    /** The id is the one the generator returns, assumed fresh. */
    method CreateAccount(id: AccountID, accountType: AccountType, currency: string)
      requires Valid() && id !in accounts
      modifies this`accounts, this`auditLogs
      ensures Valid() && id in accounts && fresh(accounts[id])
      ensures Value() == old(Value()).(accounts :=
        old(Value()).accounts[id := Account(currency, 0, NormalSide(accountType), true)])
      ensures accounts[id].normalBalance == if accountType in {Asset, Expense} then Debit else Credit
      ensures accounts[id].currency == currency && accounts[id].balance == 0 && accounts[id].isActive
      ensures auditLogs == old(auditLogs) + [AuditLog(AccountEntity(id))]
    {
      ghost var b := Value();
      var account := new LedgerAccount(id, currency, NormalSide(accountType));
      NewAccountKeepsOperational(b, id, account.Value());
      Install(account);
      assert Operational(Value());
      auditLogs := auditLogs + [AuditLog(AccountEntity(id))];
    }

    method SumSides(reqs: seq<EntryRequest>) returns (debits: int64, credits: int64)
      ensures debits == Wrap(Total(reqs, DebitOf)) && credits == Wrap(Total(reqs, CreditOf))
    {
      debits, credits := 0, 0;
      for i := 0 to |reqs|
        invariant debits == Wrap(Total(reqs[..i], DebitOf)) && credits == Wrap(Total(reqs[..i], CreditOf))
      {
        TotalAppend(reqs[..i], reqs[i], DebitOf);
        TotalAppend(reqs[..i], reqs[i], CreditOf);
        assert reqs[..i + 1] == reqs[..i] + [reqs[i]];
        if reqs[i].kind == Debit {
          WrapAdd(Total(reqs[..i], DebitOf), reqs[i].amount);
          debits := Wrap(debits + reqs[i].amount);
        } else {
          WrapAdd(Total(reqs[..i], CreditOf), reqs[i].amount);
          credits := Wrap(credits + reqs[i].amount);
        }
      }
      assert reqs[..|reqs|] == reqs;
    }

    /** The totals are int64 sums, so what is compared is their residues. */
    method ValidateBalance(reqs: seq<EntryRequest>) returns (ok: bool)
      ensures ok <==> Balanced(reqs)
    {
      var debits, credits := SumSides(reqs);
      SameWrap(Total(reqs, DebitOf), Total(reqs, CreditOf));
      return debits == credits;
    }

    /** The first request, in order, that names a bad account or amount. */
    method CheckEntries(reqs: seq<EntryRequest>) returns (r: Result<(), Error>)
      requires Filed()
      ensures r.Ok? <==> forall i :: 0 <= i < |reqs| ==> EntryError(Value().accounts, reqs[i]) == None
      ensures r.Err? ==> FirstError(Value().accounts, reqs, r.error)
    {
      for i := 0 to |reqs|
        invariant forall j :: 0 <= j < i ==> EntryError(Value().accounts, reqs[j]) == None
      {
        ghost var error := EntryError(Value().accounts, reqs[i]);
        if reqs[i].accountID !in accounts {
          assert error == Some(AccountNotFound);
          return Err(AccountNotFound);
        }
        if !accounts[reqs[i].accountID].isActive {
          assert error == Some(AccountInactive);
          return Err(AccountInactive);
        }
        if reqs[i].amount <= 0 {
          assert error == Some(InvalidAmount);
          return Err(InvalidAmount);
        }
      }
      return Ok(());
    }

    /** One turn of the posting loop. */
    method PostEntry(journalID: string, req: EntryRequest) returns (entry: Entry)
      requires Filed() && req.accountID in accounts
      modifies this`entries, accounts.Values
      ensures Filed()
      ensures Value() == PostOne(old(Value()), journalID, req)
      ensures entries == old(entries) + [entry] && entry.journalID == journalID
    {
      ghost var b := Value();
      var account := accounts[req.accountID];
      account.Move(req.kind, req.amount);
      assert Value().accounts == b.accounts[req.accountID := account.Value()] by {
        assert forall id :: id in b.accounts && id != req.accountID ==>
          accounts[id] != account && accounts[id].Value() == b.accounts[id];
      }
      entry := Entry(journalID, req.accountID, req.kind, req.amount, account.currency, account.balance);
      entries := entries + [entry];
    }

    method PostAll(journalID: string, reqs: seq<EntryRequest>) returns (posted: seq<Entry>)
      requires Filed() && Known(Value(), reqs)
      modifies this`entries, accounts.Values
      ensures Filed()
      ensures Value() == Post(old(Value()), journalID, reqs)
      ensures entries == old(entries) + posted && forall i :: 0 <= i < |posted| ==> posted[i].journalID == journalID
    {
      hide PostOne;
      posted := [];
      for i := 0 to |reqs|
        invariant Filed()
        invariant Value() == Post(old(Value()), journalID, reqs[..i])
        invariant entries == old(entries) + posted && forall k :: 0 <= k < |posted| ==> posted[k].journalID == journalID
      {
        assert reqs[..i + 1][..i] == reqs[..i];
        var entry := PostEntry(journalID, reqs[i]);
        posted := posted + [entry];
      }
      assert reqs[..|reqs|] == reqs;
    }

    /** Posts a validated journal and files it. */
    method PostJournal(journalID: string, referenceType: string, referenceID: string, reqs: seq<EntryRequest>)
      returns (journal: Journal)
      requires Valid() && journalID !in journals && Acceptable(Value().accounts, reqs)
      modifies this`entries, this`journals, this`auditLogs, accounts.Values
      ensures Valid() && Known(old(Value()), reqs)
      ensures Value() == Post(old(Value()), journalID, reqs)
      ensures old(entries) <= entries
      ensures journal == Journal(journalID, referenceType, referenceID, entries[|old(entries)|..])
      ensures journals == old(journals)[journalID := journal]
      ensures auditLogs == old(auditLogs) + [AuditLog(JournalEntity(journalID))]
    {
      hide Operational, Journaled, PostOne, Post, Acceptable;
      JournalKeepsOperational(Value(), journalID, reqs);
      var posted := PostAll(journalID, reqs);
      journal := Journal(journalID, referenceType, referenceID, posted);
      File(journal, old(entries));
    }

    /** Files a journal whose entries have just been appended to the log. */
    method File(journal: Journal, ghost log: seq<Entry>)
      requires Filed() && Operational(Value()) && Journaled(log, journals)
      requires entries == log + journal.entries && journal.id !in journals
      requires forall i :: 0 <= i < |journal.entries| ==> journal.entries[i].journalID == journal.id
      modifies this`journals, this`auditLogs
      ensures Valid() && journals == old(journals)[journal.id := journal]
      ensures auditLogs == old(auditLogs) + [AuditLog(JournalEntity(journal.id))]
    {
      FilingKeepsJournaled(log, journal.entries, journals, journal);
      journals := journals[journal.id := journal];
      auditLogs := auditLogs + [AuditLog(JournalEntity(journal.id))];
    }

    /** Rejected journals leave no trace at all; accepted ones post every entry
        and are filed under their id, assumed fresh. */
    method CreateJournalEntry(journalID: string, referenceType: string, referenceID: string, reqs: seq<EntryRequest>)
      returns (r: Result<Journal, Error>)
      requires Valid() && journalID !in journals
      modifies this`entries, this`journals, this`auditLogs, accounts.Values
      ensures Valid()
      ensures r.Ok? <==> Acceptable(old(Value()).accounts, reqs)
      ensures r.Ok? <==> (
        |reqs| >= 2 && (Total(reqs, DebitOf) - Total(reqs, CreditOf)) % MODULUS == 0 &&
        forall i :: 0 <= i < |reqs| ==> Postable(old(Value()).accounts, reqs[i]))
      ensures |reqs| < 2 ==> r == Err(EmptyJournal)
      ensures |reqs| >= 2 && !Balanced(reqs) ==> r == Err(UnbalancedEntry)
      ensures |reqs| >= 2 && Balanced(reqs) && r.Err? ==> FirstError(old(Value()).accounts, reqs, r.error)
      ensures r.Err? ==> Value() == old(Value()) && journals == old(journals) && auditLogs == old(auditLogs)
      ensures r.Ok? ==> Known(old(Value()), reqs) && Value() == Post(old(Value()), journalID, reqs)
      ensures old(entries) <= entries
      ensures r.Ok? ==> r.value == Journal(journalID, referenceType, referenceID, entries[|old(entries)|..])
      ensures r.Ok? ==> journals == old(journals)[journalID := r.value]
      ensures r.Ok? ==> auditLogs == old(auditLogs) + [AuditLog(JournalEntity(journalID))]
    {
      AcceptableExact(Value().accounts, reqs);
      hide Operational, Journaled, Post, EntryError, Postable;
      if |reqs| < 2 {
        return Err(EmptyJournal);
      }
      var balanced := ValidateBalance(reqs);
      if !balanced {
        return Err(UnbalancedEntry);
      }
      var checked := CheckEntries(reqs);
      if checked.Err? {
        return Err(checked.error);
      }
      var journal := PostJournal(journalID, referenceType, referenceID, reqs);
      return Ok(journal);
    }

    method GetEntriesForAccount(accountID: AccountID, limit: nat, offset: nat) returns (page: seq<Entry>, total: nat)
      ensures total == |EntriesOf(entries, accountID)|
      ensures page == Page(EntriesOf(entries, accountID), limit, offset)
      // the account's entries number offset, offset + 1 and so on, as many as there are
      ensures total == CountOf(entries, accountID)
      ensures |page| == if offset >= total then 0 else if limit < total - offset then limit else total - offset
      ensures forall k: nat :: k < |page| ==> IsEntry(entries, accountID, offset + k, page[k])
    {
      hide CountOf, IsEntry;
      EntriesOfExact(entries, accountID);
      var filtered := [];
      for i := 0 to |entries|
        invariant filtered == EntriesOf(entries[..i], accountID)
      {
        assert entries[..i + 1][..i] == entries[..i];
        if entries[i].accountID == accountID {
          filtered := filtered + [entries[i]];
        }
      }
      assert entries[..|entries|] == entries;
      total := |filtered|;
      if offset >= total {
        return [], total;
      }
      var end := offset + limit;
      if end > total {
        end := total;
      }
      return filtered[offset..end], total;
    }

    /** A two-sided journal of one amount between system accounts: it succeeds
        exactly for a positive amount, and moves that amount. */
    method Record(
      journalID: string, referenceType: string, referenceID: string,
      debited: AccountID, credited: AccountID, amount: int64)
      returns (r: Result<Journal, Error>)
      requires Valid() && journalID !in journals
      requires debited in SystemAccounts() && credited in SystemAccounts() && debited != credited
      modifies this`entries, this`journals, this`auditLogs, accounts.Values
      ensures Valid()
      ensures r.Ok? <==> amount > 0
      ensures r.Err? ==> r.error == InvalidAmount && Value() == old(Value())
      ensures r.Ok? ==> Transfers(old(Value()).accounts, Value().accounts, debited, credited, amount)
    {
      ghost var b := Value();
      TwoSidedVerdict(b, debited, credited, amount);
      TwoSidedTransfers(b, journalID, debited, credited, amount);
      r := CreateJournalEntry(journalID, referenceType, referenceID, TwoSided(debited, credited, amount));
    }

    /** Cash and customer deposits both grow by the amount. */
    method RecordPayment(journalID: string, transactionID: string, amount: int64) returns (r: Result<Journal, Error>)
      requires Valid() && journalID !in journals
      modifies this`entries, this`journals, this`auditLogs, accounts.Values
      ensures Valid()
      ensures r.Ok? <==> amount > 0
      ensures r.Ok? ==> Grows(old(Value()).accounts, Value().accounts, Cash, amount)
      ensures r.Ok? ==> Grows(old(Value()).accounts, Value().accounts, CustomerDeposits, amount)
      ensures r.Ok? ==> Transfers(old(Value()).accounts, Value().accounts, Cash, CustomerDeposits, amount)
      ensures r.Err? ==> r.error == InvalidAmount && Value() == old(Value())
    {
      r := Record(journalID, "transaction", transactionID, Cash, CustomerDeposits, amount);
    }

    /** Refunds grow and cash shrinks by the amount. */
    method RecordRefund(journalID: string, transactionID: string, amount: int64) returns (r: Result<Journal, Error>)
      requires Valid() && journalID !in journals
      modifies this`entries, this`journals, this`auditLogs, accounts.Values
      ensures Valid()
      ensures r.Ok? <==> amount > 0
      ensures r.Ok? ==> Grows(old(Value()).accounts, Value().accounts, Refunds, amount)
      ensures r.Ok? ==> Grows(old(Value()).accounts, Value().accounts, Cash, -amount)
      ensures r.Ok? ==> Transfers(old(Value()).accounts, Value().accounts, Refunds, Cash, amount)
      ensures r.Err? ==> r.error == InvalidAmount && Value() == old(Value())
    {
      r := Record(journalID, "refund", transactionID, Refunds, Cash, amount);
    }

    /** Receivables and fees both grow by the amount. */
    method RecordFee(journalID: string, transactionID: string, amount: int64) returns (r: Result<Journal, Error>)
      requires Valid() && journalID !in journals
      modifies this`entries, this`journals, this`auditLogs, accounts.Values
      ensures Valid()
      ensures r.Ok? <==> amount > 0
      ensures r.Ok? ==> Grows(old(Value()).accounts, Value().accounts, Receivables, amount)
      ensures r.Ok? ==> Grows(old(Value()).accounts, Value().accounts, Fees, amount)
      ensures r.Ok? ==> Transfers(old(Value()).accounts, Value().accounts, Receivables, Fees, amount)
      ensures r.Err? ==> r.error == InvalidAmount && Value() == old(Value())
    {
      r := Record(journalID, "fee", transactionID, Receivables, Fees, amount);
    }

    /** GetTrialBalance lists every account's balance; weighed by normal side
        they cancel modulo 2^64 in every valid service. */
    method GetTrialBalance() returns (balances: map<AccountID, int64>)
      requires Valid()
      ensures balances == map id | id in accounts :: accounts[id].balance
      ensures MapTotal(map id | id in balances :: Signed(accounts[id].normalBalance, balances[id])) % MODULUS == 0
    {
      balances := map id | id in accounts :: accounts[id].balance;
      TrialBalanceModulo(Value());
      assert SignedBalances(Value().accounts, Value().accounts.Keys) ==
             map id | id in balances :: Signed(accounts[id].normalBalance, balances[id]);
    }
  }

  lemma {:induction false} JournalOfStranger(log: seq<Entry>, id: string, known: set<string>)
    requires id !in known && forall i :: 0 <= i < |log| ==> log[i].journalID in known
    ensures EntriesOfJournal(log, id) == []
  {
    if |log| > 0 {
      JournalOfStranger(log[..|log| - 1], id, known);
    }
  }
}
