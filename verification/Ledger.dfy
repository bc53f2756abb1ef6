/** Double-entry bookkeeping: balances cached over an append-only log, in int64
    arithmetic (services/ledger/services/ledger_service.go). */
module Ledger {
  import opened Results
  import opened Int64
  import opened Sums

  /** The string a request carries; anything but "debit" and "credit" is OtherType. */
  datatype EntryType = Debit | Credit | OtherType(name: string)

  datatype AccountType = Asset | Liability | Equity | Income | Expense | OtherAccount(name: string)

  /** Assets and expenses grow by debits, everything else by credits. */
  function NormalSide(t: AccountType): EntryType {
    if t == Asset || t == Expense then Debit else Credit
  }

  /** The ids of the system accounts, and generated or unknown ones. */
  datatype AccountID =
    | Cash | Receivables | Refunds
    | Payables | Revenue | Fees | MerchantPayable | CustomerDeposits
    | Id(id: string)

  datatype Error = AccountNotFound | UnbalancedEntry | EmptyJournal | InvalidAmount | AccountInactive

  datatype Account = Account(currency: string, balance: int64, normal: EntryType, active: bool)

  datatype EntryRequest = EntryRequest(accountID: AccountID, kind: EntryType, amount: int64)

  datatype Entry = Entry(
    journalID: string, accountID: AccountID, kind: EntryType, amount: int64, currency: string, balance: int64)

  type Accounts = map<AccountID, Account>

  datatype Books = Books(accounts: Accounts, log: seq<Entry>)

  // ---------------------------------------------------------------------
  // Posting
  // ---------------------------------------------------------------------

  /** Posting treats every type other than debit as a credit. */
  function Delta(kind: EntryType, normal: EntryType, amount: int): int {
    if kind == Debit then (if normal == Debit then amount else -amount)
    else (if normal == Credit then amount else -amount)
  }

  function PostOne(b: Books, journalID: string, r: EntryRequest): Books
    requires r.accountID in b.accounts
  {
    var a := b.accounts[r.accountID];
    var balance := Wrap(a.balance + Delta(r.kind, a.normal, r.amount));
    Books(
      b.accounts[r.accountID := a.(balance := balance)],
      b.log + [Entry(journalID, r.accountID, r.kind, r.amount, a.currency, balance)])
  }

  /** The first `n` requests of a journal, one after the other. An account may
      occur several times. */
  function Post(b: Books, journalID: string, reqs: seq<EntryRequest>): (b': Books)
    requires forall i :: 0 <= i < |reqs| ==> reqs[i].accountID in b.accounts
    ensures b'.accounts.Keys == b.accounts.Keys
  {
    if |reqs| == 0 then b
    else PostOne(Post(b, journalID, reqs[..|reqs| - 1]), journalID, reqs[|reqs| - 1])
  }

  function DebitOf(r: EntryRequest): int {
    if r.kind == Debit then r.amount else 0
  }

  function CreditOf(r: EntryRequest): int {
    if r.kind == Debit then 0 else r.amount
  }

  function EntryError(accounts: Accounts, r: EntryRequest): Option<Error> {
    if r.accountID !in accounts then Some(AccountNotFound)
    else if !accounts[r.accountID].active then Some(AccountInactive)
    else if r.amount <= 0 then Some(InvalidAmount)
    else None
  }

  /** What a request can be refused for, first things first. */
  lemma EntryErrorExact(accounts: Accounts, r: EntryRequest)
    ensures EntryError(accounts, r) == None <==>
      r.accountID in accounts && accounts[r.accountID].active && r.amount > 0
    ensures EntryError(accounts, r) == Some(AccountNotFound) <==> r.accountID !in accounts
    ensures EntryError(accounts, r) == Some(AccountInactive) <==>
      r.accountID in accounts && !accounts[r.accountID].active
  {
  }

  /** Balanced as the code sees it: in int64 arithmetic, that is modulo 2^64. */
  ghost predicate Balanced(reqs: seq<EntryRequest>) {
    (Total(reqs, DebitOf) - Total(reqs, CreditOf)) % MODULUS == 0
  }

  ghost predicate Acceptable(accounts: Accounts, reqs: seq<EntryRequest>) {
    |reqs| >= 2 && Balanced(reqs) && forall i :: 0 <= i < |reqs| ==> EntryError(accounts, reqs[i]) == None
  }

  // ---------------------------------------------------------------------
  // Replay: what the log alone says, over unbounded integers
  // ---------------------------------------------------------------------

  function Replay(log: seq<Entry>, id: AccountID, normal: EntryType): int {
    if |log| == 0 then 0
    else
      var e := log[|log| - 1];
      Replay(log[..|log| - 1], id, normal) + if e.accountID == id then Delta(e.kind, normal, e.amount) else 0
  }

  function LogDebit(e: Entry): int {
    if e.kind == Debit then e.amount else 0
  }

  function LogCredit(e: Entry): int {
    if e.kind == Debit then 0 else e.amount
  }

  ghost predicate AccountAgrees(b: Books, id: AccountID)
    requires id in b.accounts
  {
    (b.accounts[id].normal == Debit || b.accounts[id].normal == Credit) &&
    b.accounts[id].balance == Wrap(Replay(b.log, id, b.accounts[id].normal))
  }

  /** The running balance stored in entry i is the replay of the log up to and
      including it. */
  ghost predicate EntryAgrees(b: Books, i: nat)
    requires i < |b.log|
  {
    var e := b.log[i];
    e.accountID in b.accounts && e.amount > 0 &&
    e.currency == b.accounts[e.accountID].currency &&
    e.balance == Wrap(Replay(b.log[..i + 1], e.accountID, b.accounts[e.accountID].normal))
  }

  ghost predicate Agrees(b: Books) {
    (forall id :: id in b.accounts ==> AccountAgrees(b, id)) &&
    (forall i: nat :: i < |b.log| ==> EntryAgrees(b, i))
  }

  /** The log as a whole balances modulo 2^64. */
  ghost predicate LogBalances(b: Books) {
    (Total(b.log, LogDebit) - Total(b.log, LogCredit)) % MODULUS == 0
  }

  ghost predicate Sound(b: Books) {
    Agrees(b) && LogBalances(b)
  }

  lemma SoundParts(b: Books)
    requires Agrees(b)
    ensures forall id :: id in b.accounts ==> b.accounts[id].normal == Debit || b.accounts[id].normal == Credit
    ensures forall i :: 0 <= i < |b.log| ==> b.log[i].accountID in b.accounts && b.log[i].amount > 0
  {
    assert forall id :: id in b.accounts ==> AccountAgrees(b, id);
    forall i | 0 <= i < |b.log| ensures b.log[i].accountID in b.accounts && b.log[i].amount > 0 {
      assert EntryAgrees(b, i);
    }
  }

  lemma PostOneAgrees(b: Books, journalID: string, r: EntryRequest)
    requires Agrees(b) && r.accountID in b.accounts && r.amount > 0
    ensures Agrees(PostOne(b, journalID, r))
    ensures Total(PostOne(b, journalID, r).log, LogDebit) == Total(b.log, LogDebit) + DebitOf(r)
    ensures Total(PostOne(b, journalID, r).log, LogCredit) == Total(b.log, LogCredit) + CreditOf(r)
  {
    var b' := PostOne(b, journalID, r);
    var e := b'.log[|b.log|];
    assert b'.log == b.log + [e] && b'.log[..|b.log|] == b.log;
    TotalAppend(b.log, e, LogDebit);
    TotalAppend(b.log, e, LogCredit);
    forall id | id in b'.accounts ensures AccountAgrees(b', id) {
      assert AccountAgrees(b, id);
      var normal := b.accounts[id].normal;
      if id == r.accountID {
        WrapAdd(Replay(b.log, id, normal), Delta(r.kind, normal, r.amount));
      }
    }
    forall i: nat | i < |b'.log| ensures EntryAgrees(b', i) {
      if i < |b.log| {
        assert EntryAgrees(b, i);
        assert b'.log[..i + 1] == b.log[..i + 1];
      } else {
        assert b'.log[..i + 1] == b'.log;
        assert AccountAgrees(b', r.accountID);
      }
    }
  }

  lemma {:induction false} PostAgrees(b: Books, journalID: string, reqs: seq<EntryRequest>)
    requires Agrees(b)
    requires forall i :: 0 <= i < |reqs| ==> reqs[i].accountID in b.accounts && reqs[i].amount > 0
    ensures Agrees(Post(b, journalID, reqs))
    ensures Total(Post(b, journalID, reqs).log, LogDebit) == Total(b.log, LogDebit) + Total(reqs, DebitOf)
    ensures Total(Post(b, journalID, reqs).log, LogCredit) == Total(b.log, LogCredit) + Total(reqs, CreditOf)
  {
    if |reqs| > 0 {
      var init := reqs[..|reqs| - 1];
      PostAgrees(b, journalID, init);
      PostOneAgrees(Post(b, journalID, init), journalID, reqs[|reqs| - 1]);
    }
  }

  /** One amount, debited to one account and credited to another. */
  function TwoSided(debited: AccountID, credited: AccountID, amount: int64): seq<EntryRequest> {
    [EntryRequest(debited, Debit, amount), EntryRequest(credited, Credit, amount)]
  }

  lemma PostTwo(b: Books, journalID: string, d: EntryRequest, c: EntryRequest)
    requires d.accountID in b.accounts && c.accountID in b.accounts
    ensures Post(b, journalID, [d, c]) == PostOne(PostOne(b, journalID, d), journalID, c)
  {
    assert [d, c][..1] == [d] && [d][..0] == [];
    assert Post(b, journalID, [d]) == PostOne(b, journalID, d);
  }

  predicate Records(e: Entry, journalID: string, r: EntryRequest) {
    e.journalID == journalID && e.accountID == r.accountID && e.kind == r.kind && e.amount == r.amount
  }

  /** The log only grows: by one entry for each request, in order. Nothing of an
      account but its balance changes. */
  lemma {:induction false} PostAppends(b: Books, journalID: string, reqs: seq<EntryRequest>)
    requires forall i :: 0 <= i < |reqs| ==> reqs[i].accountID in b.accounts
    ensures |Post(b, journalID, reqs).log| == |b.log| + |reqs|
    ensures Post(b, journalID, reqs).log[..|b.log|] == b.log
    ensures forall i :: 0 <= i < |reqs| ==> Records(Post(b, journalID, reqs).log[|b.log| + i], journalID, reqs[i])
    ensures forall id :: id in b.accounts ==>
      Post(b, journalID, reqs).accounts[id] == b.accounts[id].(balance := Post(b, journalID, reqs).accounts[id].balance)
  {
    if |reqs| > 0 {
      var init, r := reqs[..|reqs| - 1], reqs[|reqs| - 1];
      PostAppends(b, journalID, init);
      var before := Post(b, journalID, init);
      var after := PostOne(before, journalID, r);
      assert after.log[..|before.log|] == before.log;
      forall i | 0 <= i < |reqs| ensures Records(after.log[|b.log| + i], journalID, reqs[i]) {
        if i < |init| {
          assert Records(before.log[|b.log| + i], journalID, init[i]);
        }
      }
    }
  }

  /** An accepted journal keeps every balance equal to its replay and the log
      balanced. */
  lemma JournalKeepsSound(b: Books, journalID: string, reqs: seq<EntryRequest>)
    requires Sound(b) && Acceptable(b.accounts, reqs)
    ensures Sound(Post(b, journalID, reqs))
  {
    hide Post, EntryAgrees, AccountAgrees;
    forall i | 0 <= i < |reqs| ensures reqs[i].accountID in b.accounts && reqs[i].amount > 0 {
      assert EntryError(b.accounts, reqs[i]) == None;
    }
    PostAgrees(b, journalID, reqs);
    CongruentSum(Total(b.log, LogDebit) - Total(b.log, LogCredit), Total(reqs, DebitOf) - Total(reqs, CreditOf));
  }

  lemma {:induction false} ReplayOfStranger(log: seq<Entry>, id: AccountID, normal: EntryType)
    requires forall i :: 0 <= i < |log| ==> log[i].accountID != id
    ensures Replay(log, id, normal) == 0
  {
    if |log| > 0 {
      ReplayOfStranger(log[..|log| - 1], id, normal);
    }
  }

  lemma NewAccountKeepsSound(b: Books, id: AccountID, a: Account)
    requires Sound(b) && id !in b.accounts && a.balance == 0 && (a.normal == Debit || a.normal == Credit)
    ensures Sound(b.(accounts := b.accounts[id := a]))
  {
    var b' := b.(accounts := b.accounts[id := a]);
    SoundParts(b);
    ReplayOfStranger(b.log, id, a.normal);
    forall k | k in b'.accounts ensures AccountAgrees(b', k) {
      assert k != id ==> AccountAgrees(b, k);
    }
    forall i: nat | i < |b'.log| ensures EntryAgrees(b', i) {
      assert EntryAgrees(b, i);
    }
  }

  // ---------------------------------------------------------------------
  // The initial ledger
  // ---------------------------------------------------------------------

  const DEBIT_ACCOUNTS: set<AccountID> := {Cash, Receivables, Refunds}
  const CREDIT_ACCOUNTS: set<AccountID> :=
    {Payables, Revenue, Fees, MerchantPayable, CustomerDeposits}

  function SystemAccounts(): Accounts {
    map id | id in DEBIT_ACCOUNTS + CREDIT_ACCOUNTS ::
      Account("USD", 0, if id in DEBIT_ACCOUNTS then Debit else Credit, true)
  }

  /** Which accounts there are from the start, and on which side. */
  lemma SystemAccountsExact()
    ensures SystemAccounts().Keys ==
      {Cash, Receivables, Refunds, Payables, Revenue, Fees, MerchantPayable, CustomerDeposits}
    ensures forall id :: id in SystemAccounts() ==>
      SystemAccounts()[id] == Account("USD", 0, if id in {Cash, Receivables, Refunds} then Debit else Credit, true)
  {
  }

  lemma EmptyBooksAreSound()
    ensures Sound(Books(SystemAccounts(), []))
  {
  }

  // ---------------------------------------------------------------------
  // Runs of the ledger
  // ---------------------------------------------------------------------

  /** A journal is handed in, or an account opened under a fresh id. */
  datatype LedgerEvent =
    | Submit(journalID: string, reqs: seq<EntryRequest>)
    | Open(id: AccountID, accountType: AccountType, currency: string)

  ghost function Perform(b: Books, e: LedgerEvent): Books {
    match e
    case Submit(journalID, reqs) =>
      if Acceptable(b.accounts, reqs) then
        assert forall i :: 0 <= i < |reqs| ==> EntryError(b.accounts, reqs[i]) == None;
        Post(b, journalID, reqs)
      else b
    case Open(id, accountType, currency) =>
      if id in b.accounts then b
      else b.(accounts := b.accounts[id := Account(currency, 0, NormalSide(accountType), true)])
  }

  ghost function Final(b: Books, events: seq<LedgerEvent>): Books
    decreases |events|
  {
    if |events| == 0 then b else Final(Perform(b, events[0]), events[1..])
  }

  lemma EventKeepsSound(b: Books, e: LedgerEvent)
    requires Sound(b)
    ensures Sound(Perform(b, e))
  {
    match e {
      case Submit(journalID, reqs) =>
        if Acceptable(b.accounts, reqs) {
          JournalKeepsSound(b, journalID, reqs);
        }
      case Open(id, accountType, currency) =>
        if id !in b.accounts {
          NewAccountKeepsSound(b, id, Account(currency, 0, NormalSide(accountType), true));
        }
    }
  }

  /** Every run of accepted and rejected journals and new accounts keeps the
      books sound. */
  lemma {:induction false} RunKeepsSound(b: Books, events: seq<LedgerEvent>)
    requires Sound(b)
    ensures Sound(Final(b, events))
    decreases |events|
  {
    if |events| > 0 {
      EventKeepsSound(b, events[0]);
      RunKeepsSound(Perform(b, events[0]), events[1..]);
    }
  }

  // ---------------------------------------------------------------------
  // Pages of an account's entries
  // ---------------------------------------------------------------------

  function EntriesOf(log: seq<Entry>, id: AccountID): seq<Entry> {
    if |log| == 0 then []
    else EntriesOf(log[..|log| - 1], id) + if log[|log| - 1].accountID == id then [log[|log| - 1]] else []
  }

  /** Where the account's entries are. */
  ghost function Places(log: seq<Entry>, id: AccountID): set<int> {
    set i | 0 <= i < |log| && log[i].accountID == id
  }

  /** How many there are. */
  ghost function CountOf(log: seq<Entry>, id: AccountID): nat {
    |Places(log, id)|
  }

  /** Entry i is the account's entry number k, counting from 0. */
  ghost predicate IsNumber(log: seq<Entry>, id: AccountID, i: nat, k: nat) {
    i < |log| && log[i].accountID == id && CountOf(log[..i], id) == k
  }

  /** e is the account's entry number k. */
  ghost predicate IsEntry(log: seq<Entry>, id: AccountID, k: nat, e: Entry) {
    exists i: nat :: IsNumber(log, id, i, k) && e == log[i]
  }

  lemma CountOfStep(log: seq<Entry>, id: AccountID)
    requires |log| > 0
    ensures CountOf(log, id) ==
      CountOf(log[..|log| - 1], id) + if log[|log| - 1].accountID == id then 1 else 0
  {
    var n := |log| - 1;
    PlacesStep(log[..n], log[n], id);
    assert log == log[..n] + [log[n]];
  }

  lemma PlacesStep(log: seq<Entry>, e: Entry, id: AccountID)
    ensures Places(log + [e], id) == Places(log, id) + if e.accountID == id then {|log|} else {}
    ensures |log| !in Places(log, id)
  {
    forall i ensures i in Places(log + [e], id) <==>
        i in Places(log, id) || (i == |log| && e.accountID == id) {
      if 0 <= i < |log| {
        assert (log + [e])[i] == log[i];
      }
    }
  }

  lemma IsEntryLater(log: seq<Entry>, id: AccountID, k: nat, e: Entry)
    requires |log| > 0 && IsEntry(log[..|log| - 1], id, k, e)
    ensures IsEntry(log, id, k, e)
  {
    hide CountOf;
    var n := |log| - 1;
    var i: nat :| IsNumber(log[..n], id, i, k) && e == log[..n][i];
    assert log[..n][..i] == log[..i] && IsNumber(log, id, i, k);
  }

  /** The listing has as many entries as the log has of the account, and entry k of
      it is the account's entry number k. */
  lemma {:induction false} EntriesOfExact(log: seq<Entry>, id: AccountID)
    ensures |EntriesOf(log, id)| == CountOf(log, id)
    ensures forall k: nat :: k < |EntriesOf(log, id)| ==> IsEntry(log, id, k, EntriesOf(log, id)[k])
  {
    if |log| == 0 {
      assert Places(log, id) == {};
    } else {
      hide CountOf, IsEntry;
      var n := |log| - 1;
      EntriesOfExact(log[..n], id);
      CountOfStep(log, id);
      forall k: nat | k < |EntriesOf(log, id)| ensures IsEntry(log, id, k, EntriesOf(log, id)[k]) {
        if k < |EntriesOf(log[..n], id)| {
          IsEntryLater(log, id, k, EntriesOf(log, id)[k]);
        } else {
          assert IsEntry(log, id, k, log[n]) by { LastIsEntry(log, id); }
        }
      }
    }
  }

  lemma LastIsEntry(log: seq<Entry>, id: AccountID)
    requires |log| > 0 && log[|log| - 1].accountID == id
    ensures IsEntry(log, id, CountOf(log[..|log| - 1], id), log[|log| - 1])
  {
    assert IsNumber(log, id, |log| - 1, CountOf(log[..|log| - 1], id));
  }

  /** No two entries of an account have the same number. */
  lemma NumberIsUnique(log: seq<Entry>, id: AccountID, i: nat, j: nat, k: nat)
    requires IsNumber(log, id, i, k) && IsNumber(log, id, j, k)
    ensures i == j
  {
    var low, high := if i < j then i else j, if i < j then j else i;
    if low < high {
      CountOfGrows(log, id, low + 1, high);
      assert log[..low + 1][..low] == log[..low];
      CountOfStep(log[..low + 1], id);
    }
  }

  lemma {:induction false} CountOfGrows(log: seq<Entry>, id: AccountID, m: nat, n: nat)
    requires m <= n <= |log|
    ensures CountOf(log[..m], id) <= CountOf(log[..n], id)
    decreases n
  {
    if m < n {
      CountOfGrows(log, id, m, n - 1);
      assert log[..n][..n - 1] == log[..n - 1];
      CountOfStep(log[..n], id);
    }
  }

  function Page<T>(s: seq<T>, limit: nat, offset: nat): seq<T> {
    if offset >= |s| then []
    else s[offset..if offset + limit > |s| then |s| else offset + limit]
  }

  lemma {:induction false} EntriesGrow(log: seq<Entry>, more: seq<Entry>, id: AccountID)
    ensures |EntriesOf(log, id)| <= |EntriesOf(log + more, id)|
    ensures EntriesOf(log + more, id)[..|EntriesOf(log, id)|] == EntriesOf(log, id)
    decreases |more|
  {
    if |more| == 0 {
      assert log + more == log;
    } else {
      var init := more[..|more| - 1];
      assert (log + more)[..|log + more| - 1] == log + init;
      EntriesGrow(log, init, id);
    }
  }

  /** A page that was full once never changes, whatever is posted later. */
  lemma FullPagesAreStable(log: seq<Entry>, more: seq<Entry>, id: AccountID, limit: nat, offset: nat)
    requires offset + limit <= |EntriesOf(log, id)|
    ensures Page(EntriesOf(log + more, id), limit, offset) == Page(EntriesOf(log, id), limit, offset)
  {
    EntriesGrow(log, more, id);
    var s, t := EntriesOf(log, id), EntriesOf(log + more, id);
    assert forall i :: 0 <= i < |s| ==> t[i] == t[..|s|][i];
  }

  /** Consecutive pages join without gap or overlap. */
  lemma PagesJoin<T>(s: seq<T>, limit: nat, offset: nat)
    ensures Page(s, limit, offset) + Page(s, limit, offset + limit) == Page(s, limit + limit, offset)
  {
  }
}
