/** Trial balances of the ledger, over all accounts and over those of one
    currency: what accepted journals do to them, exactly and modulo 2^64
    (services/ledger/services/ledger_service.go). */
module TrialBalances {
  import opened Results
  import opened Int64
  import opened Sums
  import opened Ledger

  // ---------------------------------------------------------------------
  // Balances and replays, weighed by normal side
  // ---------------------------------------------------------------------

  function Signed(normal: EntryType, x: int): int {
    if normal == Debit then x else -x
  }

  ghost predicate TwoNormals(accounts: Accounts) {
    forall id :: id in accounts ==> accounts[id].normal == Debit || accounts[id].normal == Credit
  }

  ghost function SignedBalances(accounts: Accounts, ids: set<AccountID>): map<AccountID, int> {
    map id | id in accounts && id in ids :: Signed(accounts[id].normal, accounts[id].balance)
  }

  /** Debit-normal balances minus credit-normal balances, over some accounts. */
  ghost function BalanceOver(accounts: Accounts, ids: set<AccountID>): int {
    MapTotal(SignedBalances(accounts, ids))
  }

  /** Over all accounts and across currencies. */
  ghost function TrialBalance(accounts: Accounts): int {
    BalanceOver(accounts, accounts.Keys)
  }

  function InCurrency(accounts: Accounts, currency: string): set<AccountID> {
    set id | id in accounts && accounts[id].currency == currency
  }

  ghost function SignedReplays(accounts: Accounts, log: seq<Entry>, ids: set<AccountID>): map<AccountID, int> {
    map id | id in accounts && id in ids :: Signed(accounts[id].normal, Replay(log, id, accounts[id].normal))
  }

  /** A debit less a credit. */
  function Net(kind: EntryType, amount: int): int {
    if kind == Debit then amount else -amount
  }

  /** What an entry, or a request, weighs on some accounts. */
  function EntryNet(ids: set<AccountID>): Entry -> int {
    (e: Entry) => if e.accountID in ids then Net(e.kind, e.amount) else 0
  }

  function RequestNet(ids: set<AccountID>): EntryRequest -> int {
    (r: EntryRequest) => if r.accountID in ids then Net(r.kind, r.amount) else 0
  }

  // ---------------------------------------------------------------------
  // Exact integers
  // ---------------------------------------------------------------------

  /** Conservation over exact integers: what any group of accounts replays to
      adds up to the debits minus the credits logged on the group. */
  lemma {:induction false} ReplaysAddUp(accounts: Accounts, log: seq<Entry>, ids: set<AccountID>)
    requires TwoNormals(accounts) && ids <= accounts.Keys
    ensures MapTotal(SignedReplays(accounts, log, ids)) == Total(log, EntryNet(ids))
  {
    if |log| == 0 {
      MapTotalZero(SignedReplays(accounts, log, ids));
    } else {
      var init, e := log[..|log| - 1], log[|log| - 1];
      ReplaysAddUp(accounts, init, ids);
      var before, after := SignedReplays(accounts, init, ids), SignedReplays(accounts, log, ids);
      if e.accountID in ids {
        assert after == before[e.accountID := after[e.accountID]];
        MapTotalSet(before, e.accountID, after[e.accountID]);
      } else {
        assert after == before;
      }
    }
  }

  lemma LogNet(b: Books)
    requires Agrees(b)
    ensures Total(b.log, EntryNet(b.accounts.Keys)) == Total(b.log, LogDebit) - Total(b.log, LogCredit)
  {
    SoundParts(b);
    TotalSplit(b.log, LogDebit, EntryNet(b.accounts.Keys), LogCredit);
  }

  lemma JournalNet(accounts: Accounts, reqs: seq<EntryRequest>)
    requires forall i :: 0 <= i < |reqs| ==> reqs[i].accountID in accounts
    ensures Total(reqs, RequestNet(accounts.Keys)) == Total(reqs, DebitOf) - Total(reqs, CreditOf)
  {
    TotalSplit(reqs, DebitOf, RequestNet(accounts.Keys), CreditOf);
  }

  /** Every journal that the run accepts balances over exact integers. */
  ghost predicate BalancesExactly(b: Books, events: seq<LedgerEvent>)
    decreases |events|
  {
    |events| == 0 ||
    ((events[0].Submit? && Acceptable(b.accounts, events[0].reqs) ==>
      Total(events[0].reqs, DebitOf) == Total(events[0].reqs, CreditOf)) &&
     BalancesExactly(Perform(b, events[0]), events[1..]))
  }

  lemma {:induction false} ExactRunsBalance(b: Books, events: seq<LedgerEvent>)
    requires Sound(b) && Total(b.log, LogDebit) == Total(b.log, LogCredit) && BalancesExactly(b, events)
    ensures var b' := Final(b, events);
      Sound(b') && Total(b'.log, LogDebit) == Total(b'.log, LogCredit) &&
      MapTotal(SignedReplays(b'.accounts, b'.log, b'.accounts.Keys)) == 0
    decreases |events|
  {
    hide Acceptable, Post, Agrees, Replay;
    if |events| == 0 {
      assert Agrees(b) by { SoundAgrees(b); }
      LogNet(b);
      AgreesNormals(b);
      ReplaysAddUp(b.accounts, b.log, b.accounts.Keys);
    } else {
      EventKeepsSound(b, events[0]);
      EventTotals(b, events[0]);
      ExactRunsBalance(Perform(b, events[0]), events[1..]);
    }
  }

  lemma SoundAgrees(b: Books)
    requires Sound(b)
    ensures Agrees(b)
  {
  }

  lemma AgreesNormals(b: Books)
    requires Agrees(b)
    ensures TwoNormals(b.accounts)
  {
    SoundParts(b);
  }

  /** An event adds the debits and credits of the journal it has accepted. */
  lemma EventTotals(b: Books, e: LedgerEvent)
    requires Sound(b)
    ensures var accepted := e.Submit? && Acceptable(b.accounts, e.reqs);
      Total(Perform(b, e).log, LogDebit) == Total(b.log, LogDebit) + (if accepted then Total(e.reqs, DebitOf) else 0) &&
      Total(Perform(b, e).log, LogCredit) == Total(b.log, LogCredit) + if accepted then Total(e.reqs, CreditOf) else 0
  {
    hide Agrees, Post;
    if e.Submit? && Acceptable(b.accounts, e.reqs) {
      AcceptableRequests(b.accounts, e.reqs);
      assert Agrees(b) by { SoundAgrees(b); }
      PostAgrees(b, e.journalID, e.reqs);
    }
  }

  lemma AcceptableRequests(accounts: Accounts, reqs: seq<EntryRequest>)
    requires Acceptable(accounts, reqs)
    ensures forall i :: 0 <= i < |reqs| ==> reqs[i].accountID in accounts && reqs[i].amount > 0
  {
    assert forall i :: 0 <= i < |reqs| ==> EntryError(accounts, reqs[i]) == None;
  }

  // ---------------------------------------------------------------------
  // int64: the trial balance of a ledger
  // ---------------------------------------------------------------------

  /** How often each account's replay has wrapped around, weighed by side. */
  ghost function SignedLaps(accounts: Accounts, log: seq<Entry>, ids: set<AccountID>): map<AccountID, int> {
    map id | id in accounts && id in ids :: Signed(accounts[id].normal, Laps(Replay(log, id, accounts[id].normal)))
  }

  lemma BalancesReplay(b: Books, ids: set<AccountID>)
    requires Agrees(b) && ids <= b.accounts.Keys
    ensures forall id :: id in ids ==>
      SignedBalances(b.accounts, ids)[id] ==
      SignedReplays(b.accounts, b.log, ids)[id] - MODULUS * SignedLaps(b.accounts, b.log, ids)[id]
  {
    forall id | id in ids
      ensures SignedBalances(b.accounts, ids)[id] ==
        SignedReplays(b.accounts, b.log, ids)[id] - MODULUS * SignedLaps(b.accounts, b.log, ids)[id]
    {
      assert AccountAgrees(b, id);
      WrapLaps(Replay(b.log, id, b.accounts[id].normal));
    }
  }

  /** The balance of any group of accounts is the debits minus the credits logged
      on it, less 2^64 for every lap its accounts have wrapped around. So it is 0
      exactly when the two make up for each other. */
  lemma BalanceExact(b: Books, ids: set<AccountID>)
    requires Agrees(b) && ids <= b.accounts.Keys
    ensures BalanceOver(b.accounts, ids) ==
      Total(b.log, EntryNet(ids)) - MODULUS * MapTotal(SignedLaps(b.accounts, b.log, ids))
    ensures BalanceOver(b.accounts, ids) == 0 <==>
      Total(b.log, EntryNet(ids)) == MODULUS * MapTotal(SignedLaps(b.accounts, b.log, ids))
  {
    BalancesReplay(b, ids);
    AgreesNormals(b);
    ReplaysAddUp(b.accounts, b.log, ids);
    var laps := SignedLaps(b.accounts, b.log, ids);
    var undone := map id | id in laps :: -MODULUS * laps[id];
    MapTotalScale(undone, laps, -MODULUS);
    MapTotalSum(SignedBalances(b.accounts, ids), SignedReplays(b.accounts, b.log, ids), undone);
  }

  /** The trial balance of every ledger is 0 exactly when what its journals were
      out of balance equals what its accounts have wrapped around. */
  lemma TrialBalanceExact(b: Books)
    requires Agrees(b)
    ensures TrialBalance(b.accounts) == 0 <==>
      Total(b.log, LogDebit) - Total(b.log, LogCredit) ==
      MODULUS * MapTotal(SignedLaps(b.accounts, b.log, b.accounts.Keys))
  {
    BalanceExact(b, b.accounts.Keys);
    LogNet(b);
  }

  /** In int64 arithmetic the trial balance is 0 modulo 2^64 in every sound
      ledger, whatever has wrapped around. */
  lemma TrialBalanceModulo(b: Books)
    requires Sound(b)
    ensures TrialBalance(b.accounts) % MODULUS == 0
  {
    BalanceExact(b, b.accounts.Keys);
    LogNet(b);
    SameResidue(Total(b.log, EntryNet(b.accounts.Keys)), MapTotal(SignedLaps(b.accounts, b.log, b.accounts.Keys)));
  }

  lemma SameResidue(x: int, laps: int)
    ensures (x - MODULUS * laps) % MODULUS == x % MODULUS
  {
  }

  /** No account has left the int64 range. */
  ghost predicate NothingWrapped(b: Books) {
    forall id :: id in b.accounts ==> Fits(Replay(b.log, id, b.accounts[id].normal))
  }

  /** While no account has overflowed, the trial balance is exactly the debits
      minus the credits ever logged, so it is 0 iff those are equal. */
  lemma TrialBalanceInRange(b: Books)
    requires Agrees(b) && NothingWrapped(b)
    ensures TrialBalance(b.accounts) == Total(b.log, LogDebit) - Total(b.log, LogCredit)
  {
    BalanceExact(b, b.accounts.Keys);
    LogNet(b);
    forall id | id in b.accounts ensures Laps(Replay(b.log, id, b.accounts[id].normal)) == 0 {
      WrapLaps(Replay(b.log, id, b.accounts[id].normal));
    }
    MapTotalZero(SignedLaps(b.accounts, b.log, b.accounts.Keys));
  }

  lemma {:induction false} ReplayBounded(log: seq<Entry>, id: AccountID, normal: EntryType)
    requires normal == Debit || normal == Credit
    requires forall i :: 0 <= i < |log| ==> log[i].amount > 0
    ensures 0 <= Total(log, LogDebit) && 0 <= Total(log, LogCredit)
    ensures -Total(log, LogCredit) <= Signed(normal, Replay(log, id, normal)) <= Total(log, LogDebit)
  {
    if |log| > 0 {
      assert log[|log| - 1].amount > 0;
      ReplayBounded(log[..|log| - 1], id, normal);
    }
  }

  /** A ledger whose logged debits and credits each stay below 2^63 has trial
      balance exactly 0. */
  lemma TrialBalanceZero(b: Books)
    requires Sound(b) && Total(b.log, LogDebit) <= MAX && Total(b.log, LogCredit) <= MAX
    ensures TrialBalance(b.accounts) == 0
  {
    SoundParts(b);
    forall id | id in b.accounts ensures Fits(Replay(b.log, id, b.accounts[id].normal)) {
      ReplayBounded(b.log, id, b.accounts[id].normal);
    }
    ReplayBounded(b.log, Cash, Debit);
    TrialBalanceInRange(b);
  }

  // ---------------------------------------------------------------------
  // int64: what one journal does
  // ---------------------------------------------------------------------

  /** How often posting a request wraps its account around, if it is one of ids. */
  function EntryLaps(b: Books, r: EntryRequest, ids: set<AccountID>): int
    requires r.accountID in b.accounts
  {
    var a := b.accounts[r.accountID];
    if r.accountID in ids then Signed(a.normal, Laps(a.balance + Delta(r.kind, a.normal, r.amount))) else 0
  }

  /** The same for a whole journal, each request against the balances its
      predecessors leave. */
  function JournalLaps(b: Books, journalID: string, reqs: seq<EntryRequest>, ids: set<AccountID>): int
    requires forall i :: 0 <= i < |reqs| ==> reqs[i].accountID in b.accounts
  {
    if |reqs| == 0 then 0
    else
      var init := reqs[..|reqs| - 1];
      JournalLaps(b, journalID, init, ids) + EntryLaps(Post(b, journalID, init), reqs[|reqs| - 1], ids)
  }

  lemma PostOneMoves(b: Books, journalID: string, r: EntryRequest, ids: set<AccountID>)
    requires TwoNormals(b.accounts) && r.accountID in b.accounts
    ensures var b' := PostOne(b, journalID, r);
      TwoNormals(b'.accounts) &&
      BalanceOver(b'.accounts, ids) ==
      BalanceOver(b.accounts, ids) + RequestNet(ids)(r) - MODULUS * EntryLaps(b, r, ids)
  {
    var b' := PostOne(b, journalID, r);
    var before, after := SignedBalances(b.accounts, ids), SignedBalances(b'.accounts, ids);
    if r.accountID in ids {
      var a := b.accounts[r.accountID];
      WrapLaps(a.balance + Delta(r.kind, a.normal, r.amount));
      assert after == before[r.accountID := after[r.accountID]];
      MapTotalSet(before, r.accountID, after[r.accountID]);
    } else {
      assert after == before;
    }
  }

  /** A journal moves the balance of any group of accounts by what it posts on the
      group, less 2^64 for every lap. */
  lemma {:induction false} PostMoves(b: Books, journalID: string, reqs: seq<EntryRequest>, ids: set<AccountID>)
    requires TwoNormals(b.accounts) && forall i :: 0 <= i < |reqs| ==> reqs[i].accountID in b.accounts
    ensures var b' := Post(b, journalID, reqs);
      TwoNormals(b'.accounts) &&
      BalanceOver(b'.accounts, ids) ==
      BalanceOver(b.accounts, ids) + Total(reqs, RequestNet(ids)) - MODULUS * JournalLaps(b, journalID, reqs, ids)
  {
    hide BalanceOver, EntryLaps, PostOne, TwoNormals;
    if |reqs| > 0 {
      var init, r := reqs[..|reqs| - 1], reqs[|reqs| - 1];
      PostMoves(b, journalID, init, ids);
      PostOneMoves(Post(b, journalID, init), journalID, r, ids);
    }
  }

  /** An accepted journal keeps the trial balance exactly when its exact debits
      exceed its credits by 2^64 for every lap it makes accounts wrap around. */
  lemma JournalKeepsTrialBalance(b: Books, journalID: string, reqs: seq<EntryRequest>)
    requires Agrees(b) && Acceptable(b.accounts, reqs)
    ensures forall i :: 0 <= i < |reqs| ==> reqs[i].accountID in b.accounts
    ensures TrialBalance(Post(b, journalID, reqs).accounts) == TrialBalance(b.accounts) <==>
      Total(reqs, DebitOf) - Total(reqs, CreditOf) == MODULUS * JournalLaps(b, journalID, reqs, b.accounts.Keys)
  {
    AcceptableRequests(b.accounts, reqs);
    AgreesNormals(b);
    PostMoves(b, journalID, reqs, b.accounts.Keys);
    JournalNet(b.accounts, reqs);
  }

  /** Every request of the journal leaves its account within int64. */
  ghost predicate WrapsNothing(b: Books, journalID: string, reqs: seq<EntryRequest>)
    requires forall i :: 0 <= i < |reqs| ==> reqs[i].accountID in b.accounts
  {
    |reqs| == 0 ||
    var init, r := reqs[..|reqs| - 1], reqs[|reqs| - 1];
    var a := Post(b, journalID, init).accounts[r.accountID];
    WrapsNothing(b, journalID, init) && Fits(a.balance + Delta(r.kind, a.normal, r.amount))
  }

  lemma {:induction false} NoLaps(b: Books, journalID: string, reqs: seq<EntryRequest>, ids: set<AccountID>)
    requires forall i :: 0 <= i < |reqs| ==> reqs[i].accountID in b.accounts
    requires WrapsNothing(b, journalID, reqs)
    ensures JournalLaps(b, journalID, reqs, ids) == 0
  {
    if |reqs| > 0 {
      var init, r := reqs[..|reqs| - 1], reqs[|reqs| - 1];
      NoLaps(b, journalID, init, ids);
      var a := Post(b, journalID, init).accounts[r.accountID];
      WrapLaps(a.balance + Delta(r.kind, a.normal, r.amount));
    }
  }

  /** If it wraps no account around, it keeps the trial balance exactly when it
      balances over exact integers. */
  lemma UnwrappedJournalKeepsTrialBalance(b: Books, journalID: string, reqs: seq<EntryRequest>)
    requires Agrees(b) && Acceptable(b.accounts, reqs)
    ensures forall i :: 0 <= i < |reqs| ==> reqs[i].accountID in b.accounts
    ensures WrapsNothing(b, journalID, reqs) ==>
      (TrialBalance(Post(b, journalID, reqs).accounts) == TrialBalance(b.accounts) <==>
       Total(reqs, DebitOf) == Total(reqs, CreditOf))
  {
    JournalKeepsTrialBalance(b, journalID, reqs);
    if WrapsNothing(b, journalID, reqs) {
      NoLaps(b, journalID, reqs, b.accounts.Keys);
    }
  }

  // ---------------------------------------------------------------------
  // One currency
  // ---------------------------------------------------------------------

  /** The debits minus the credits logged in a currency. */
  function CurrencyNet(currency: string): Entry -> int {
    (e: Entry) => if e.currency == currency then Net(e.kind, e.amount) else 0
  }

  lemma {:induction false} SameTotal(log: seq<Entry>, v: Entry -> int, w: Entry -> int)
    requires forall i :: 0 <= i < |log| ==> v(log[i]) == w(log[i])
    ensures Total(log, v) == Total(log, w)
  {
    if |log| > 0 {
      SameTotal(log[..|log| - 1], v, w);
    }
  }

  lemma CurrencyLog(b: Books, currency: string)
    requires Agrees(b)
    ensures Total(b.log, EntryNet(InCurrency(b.accounts, currency))) == Total(b.log, CurrencyNet(currency))
  {
    forall i | 0 <= i < |b.log|
      ensures EntryNet(InCurrency(b.accounts, currency))(b.log[i]) == CurrencyNet(currency)(b.log[i])
    {
      assert EntryAgrees(b, i);
    }
    SameTotal(b.log, EntryNet(InCurrency(b.accounts, currency)), CurrencyNet(currency));
  }

  /** Over exact integers the accounts of a currency replay to what was logged in
      it; in int64 their balance is 0 modulo 2^64 exactly when that is. */
  lemma CurrencyBalance(b: Books, currency: string)
    requires Agrees(b)
    ensures var ids := InCurrency(b.accounts, currency);
      MapTotal(SignedReplays(b.accounts, b.log, ids)) == Total(b.log, CurrencyNet(currency)) &&
      (BalanceOver(b.accounts, ids) % MODULUS == 0 <==> Total(b.log, CurrencyNet(currency)) % MODULUS == 0)
  {
    hide Agrees, Replay, BalanceOver;
    var ids := InCurrency(b.accounts, currency);
    AgreesNormals(b);
    ReplaysAddUp(b.accounts, b.log, ids);
    CurrencyLog(b, currency);
    BalanceExact(b, ids);
    SameResidue(Total(b.log, EntryNet(ids)), MapTotal(SignedLaps(b.accounts, b.log, ids)));
  }

  /** An accepted journal keeps a currency balanced, modulo 2^64, exactly when the
      requests it makes on the accounts of that currency balance by themselves;
      the code looks at all its requests together only. */
  lemma JournalKeepsCurrency(b: Books, journalID: string, reqs: seq<EntryRequest>, currency: string)
    requires Agrees(b) && Acceptable(b.accounts, reqs)
    requires BalanceOver(b.accounts, InCurrency(b.accounts, currency)) % MODULUS == 0
    ensures forall i :: 0 <= i < |reqs| ==> reqs[i].accountID in b.accounts
    ensures var b' := Post(b, journalID, reqs);
      BalanceOver(b'.accounts, InCurrency(b'.accounts, currency)) % MODULUS == 0 <==>
      Total(reqs, RequestNet(InCurrency(b.accounts, currency))) % MODULUS == 0
  {
    hide BalanceOver, JournalLaps, Agrees;
    var ids, b' := InCurrency(b.accounts, currency), Post(b, journalID, reqs);
    AcceptableRequests(b.accounts, reqs);
    AgreesNormals(b);
    PostMoves(b, journalID, reqs, ids);
    PostAppends(b, journalID, reqs);
    assert InCurrency(b'.accounts, currency) == ids;
    var x, y, laps :=
      BalanceOver(b.accounts, ids), Total(reqs, RequestNet(ids)), JournalLaps(b, journalID, reqs, ids);
    SameResidue(x + y, laps);
    AddMultiple(x, y);
  }

  lemma AddMultiple(x: int, y: int)
    requires x % MODULUS == 0
    ensures (x + y) % MODULUS == y % MODULUS
  {
  }

  // ---------------------------------------------------------------------
  // Journals after which the books no longer balance
  // ---------------------------------------------------------------------

  /** A journal of one amount from a credit-normal to a debit-normal account. */
  lemma TwoSidedMoves(
    b: Books, journalID: string, debited: AccountID, credited: AccountID, amount: int64, ids: set<AccountID>)
    requires TwoNormals(b.accounts) && debited in b.accounts && credited in b.accounts && amount > 0
    requires b.accounts[debited].active && b.accounts[debited].normal == Debit
    requires b.accounts[credited].active && b.accounts[credited].normal == Credit
    ensures var reqs := TwoSided(debited, credited, amount);
      Acceptable(b.accounts, reqs) && Total(reqs, DebitOf) == Total(reqs, CreditOf)
    ensures var d, c := b.accounts[debited].balance + amount, b.accounts[credited].balance + amount;
      var accounts := Post(b, journalID, TwoSided(debited, credited, amount)).accounts;
      accounts == b.accounts[debited := b.accounts[debited].(balance := Wrap(d))]
        [credited := b.accounts[credited].(balance := Wrap(c))] &&
      BalanceOver(accounts, ids) == BalanceOver(b.accounts, ids) +
        (if debited in ids then amount - MODULUS * Laps(d) else 0) -
        (if credited in ids then amount - MODULUS * Laps(c) else 0)
  {
    hide BalanceOver, Laps, Wrap, Post;
    var d, c := EntryRequest(debited, Debit, amount), EntryRequest(credited, Credit, amount);
    TotalOfTwo(d, c, DebitOf);
    TotalOfTwo(d, c, CreditOf);
    PostTwo(b, journalID, d, c);
    PostOneMoves(b, journalID, d, ids);
    PostOneMoves(PostOne(b, journalID, d), journalID, c, ids);
  }

  lemma ZeroBalances(accounts: Accounts, ids: set<AccountID>)
    requires forall id :: id in accounts ==> accounts[id].balance == 0
    ensures BalanceOver(accounts, ids) == 0
  {
    MapTotalZero(SignedBalances(accounts, ids));
  }

  lemma SystemSides()
    ensures TwoNormals(SystemAccounts())
    ensures forall id :: id in SystemAccounts() <==> id in DEBIT_ACCOUNTS + CREDIT_ACCOUNTS
    ensures forall id :: id in SystemAccounts() ==>
      SystemAccounts()[id] == Account("USD", 0, if id in DEBIT_ACCOUNTS then Debit else Credit, true)
  {
  }

  lemma LapsAtMax()
    ensures Laps(1) == Laps(MAX) == 0 && Laps(MAX + 1) == 1
    ensures Wrap(1) == 1 && Wrap(MAX) == MAX && Wrap(MAX + 1) == MIN
  {
  }

  lemma PostKeepsSides(b: Books, journalID: string, reqs: seq<EntryRequest>)
    requires TwoNormals(b.accounts) && forall i :: 0 <= i < |reqs| ==> reqs[i].accountID in b.accounts
    ensures TwoNormals(Post(b, journalID, reqs).accounts)
  {
    PostAppends(b, journalID, reqs);
  }

  /** Two accepted journals that balance over exact integers: the second one wraps
      Cash around, and the trial balance is -2^64. */
  lemma AccountCanWrap(first: string, second: string)
    ensures var b0, reqs := Books(SystemAccounts(), []), TwoSided(Cash, CustomerDeposits, MAX);
      Acceptable(b0.accounts, reqs) && Total(reqs, DebitOf) == Total(reqs, CreditOf) &&
      var b, more := Post(b0, first, reqs), TwoSided(Cash, Revenue, 1);
      Acceptable(b.accounts, more) && Total(more, DebitOf) == Total(more, CreditOf) &&
      var b' := Post(b, second, more);
      b'.accounts[Cash].balance == MIN && TrialBalance(b'.accounts) == -MODULUS
  {
    hide BalanceOver, Acceptable, Post, SystemAccounts, TwoNormals, Laps, Wrap;
    SystemSides();
    LapsAtMax();
    var b0, ids := Books(SystemAccounts(), []), SystemAccounts().Keys;
    ZeroBalances(b0.accounts, ids);
    TwoSidedMoves(b0, first, Cash, CustomerDeposits, MAX, ids);
    var b := Post(b0, first, TwoSided(Cash, CustomerDeposits, MAX));
    PostKeepsSides(b0, first, TwoSided(Cash, CustomerDeposits, MAX));
    TwoSidedMoves(b, second, Cash, Revenue, 1, ids);
    assert Post(b, second, TwoSided(Cash, Revenue, 1)).accounts.Keys == ids;
  }

  const EURO_ACCOUNT: AccountID := Id("euro")

  /** A new ledger in which one euro account has been opened. */
  function EuroBooks(): Books {
    Books(SystemAccounts()[EURO_ACCOUNT := Account("EUR", 0, Credit, true)], [])
  }

  lemma EuroBooksAreSound()
    ensures Sound(EuroBooks()) && TwoNormals(EuroBooks().accounts)
    ensures EuroBooks().accounts.Keys == SystemAccounts().Keys + {EURO_ACCOUNT}
    ensures Cash in EuroBooks().accounts && EuroBooks().accounts[Cash] == Account("USD", 0, Debit, true)
    ensures forall id :: id in EuroBooks().accounts ==> EuroBooks().accounts[id].balance == 0
  {
    hide Sound;
    EmptyBooksAreSound();
    NewAccountKeepsSound(Books(SystemAccounts(), []), EURO_ACCOUNT, Account("EUR", 0, Credit, true));
  }

  /** An accepted journal that debits a dollar account and credits a euro account
      leaves both currencies out of balance. */
  lemma CurrenciesCanDrift(journalID: string)
    ensures Sound(EuroBooks()) && Acceptable(EuroBooks().accounts, TwoSided(Cash, EURO_ACCOUNT, 1))
    ensures forall currency ::
      BalanceOver(EuroBooks().accounts, InCurrency(EuroBooks().accounts, currency)) == 0
    ensures var accounts := Post(EuroBooks(), journalID, TwoSided(Cash, EURO_ACCOUNT, 1)).accounts;
      BalanceOver(accounts, InCurrency(accounts, "USD")) == 1 &&
      BalanceOver(accounts, InCurrency(accounts, "EUR")) == -1
  {
    hide BalanceOver, Acceptable, Post, Sound, SystemAccounts, TwoNormals, Laps;
    LapsAtMax();
    EuroBooksAreSound();
    var b := EuroBooks();
    forall currency ensures BalanceOver(b.accounts, InCurrency(b.accounts, currency)) == 0 {
      ZeroBalances(b.accounts, InCurrency(b.accounts, currency));
    }
    var usd, eur := InCurrency(b.accounts, "USD"), InCurrency(b.accounts, "EUR");
    TwoSidedMoves(b, journalID, Cash, EURO_ACCOUNT, 1, usd);
    TwoSidedMoves(b, journalID, Cash, EURO_ACCOUNT, 1, eur);
    var accounts := Post(b, journalID, TwoSided(Cash, EURO_ACCOUNT, 1)).accounts;
    assert InCurrency(accounts, "USD") == usd && InCurrency(accounts, "EUR") == eur;
  }

  /** Debits of 2^64 + 1 against credits of 1. */
  function DriftJournal(): seq<EntryRequest> {
    [EntryRequest(Cash, Debit, MAX), EntryRequest(Receivables, Debit, MAX)] +
    [EntryRequest(Refunds, Debit, 3), EntryRequest(Revenue, Credit, 1)]
  }

  lemma DriftTotals()
    ensures Total(DriftJournal(), DebitOf) == MODULUS + 1 && Total(DriftJournal(), CreditOf) == 1
  {
    var r0, r1 := EntryRequest(Cash, Debit, MAX), EntryRequest(Receivables, Debit, MAX);
    var r2, r3 := EntryRequest(Refunds, Debit, 3), EntryRequest(Revenue, Credit, 1);
    TotalOfTwo(r0, r1, DebitOf);
    TotalOfTwo(r2, r3, DebitOf);
    TotalConcat([r0, r1], [r2, r3], DebitOf);
    TotalOfTwo(r0, r1, CreditOf);
    TotalOfTwo(r2, r3, CreditOf);
    TotalConcat([r0, r1], [r2, r3], CreditOf);
  }

  lemma DriftAcceptable()
    ensures Acceptable(SystemAccounts(), DriftJournal())
  {
    DriftTotals();
    var reqs := DriftJournal();
    forall i | 0 <= i < |reqs| ensures EntryError(SystemAccounts(), reqs[i]) == None {
      assert reqs[i].accountID in SystemAccounts();
    }
  }

  /** The int64 balance check accepts a journal whose exact debits exceed its
      credits by 2^64: no account wraps around, and the trial balance is 2^64. */
  lemma TrialBalanceCanDrift(journalID: string)
    ensures exists reqs :: Acceptable(SystemAccounts(), reqs) &&
              NothingWrapped(Post(Books(SystemAccounts(), []), journalID, reqs)) &&
              TrialBalance(Post(Books(SystemAccounts(), []), journalID, reqs).accounts) == MODULUS
  {
    hide Post, EntryAgrees, AccountAgrees, Replay;
    var b, reqs := Books(SystemAccounts(), []), DriftJournal();
    DriftAcceptable();
    DriftTotals();
    EmptyBooksAreSound();
    forall i | 0 <= i < |reqs| ensures reqs[i].accountID in b.accounts && reqs[i].amount > 0 {
      assert EntryError(b.accounts, reqs[i]) == None;
    }
    PostAgrees(b, journalID, reqs);
    PostAppends(b, journalID, reqs);
    var b' := Post(b, journalID, reqs);
    assert forall i :: 0 <= i < 4 ==> Records(b'.log[|b.log| + i], journalID, reqs[i]);
    DriftLog(b'.log, journalID);
    SoundParts(b');
    forall id | id in b'.accounts ensures Fits(Replay(b'.log, id, b'.accounts[id].normal)) {
      DriftFits(b'.log, id, b'.accounts[id].normal);
    }
    TrialBalanceInRange(b');
  }

  lemma DriftLog(log: seq<Entry>, journalID: string)
    requires |log| == 4 && forall i :: 0 <= i < 4 ==> Records(log[0 + i], journalID, DriftJournal()[i])
    ensures log[0].accountID == Cash && log[1].accountID == Receivables
    ensures log[2].accountID == Refunds && log[3].accountID == Revenue
    ensures log[0].amount == log[1].amount == MAX && log[2].amount == 3 && log[3].amount == 1
  {
    var reqs := DriftJournal();
    assert Records(log[0 + 0], journalID, reqs[0]) && Records(log[0 + 1], journalID, reqs[1]);
    assert Records(log[0 + 2], journalID, reqs[2]) && Records(log[0 + 3], journalID, reqs[3]);
  }

  lemma DriftFits(log: seq<Entry>, id: AccountID, normal: EntryType)
    requires |log| == 4 && (normal == Debit || normal == Credit)
    requires log[0].accountID == Cash && log[1].accountID == Receivables
    requires log[2].accountID == Refunds && log[3].accountID == Revenue
    requires log[0].amount == log[1].amount == MAX && log[2].amount == 3 && log[3].amount == 1
    ensures Fits(Replay(log, id, normal))
  {
    assert log[..3][..2] == log[..2] && log[..2][..1] == log[..1] && log[..1][..0] == [];
    assert Replay(log[..1], id, normal) == if log[0].accountID == id then Delta(log[0].kind, normal, MAX) else 0;
    assert Replay(log[..3], id, normal) == Replay(log[..2], id, normal) +
           if log[2].accountID == id then Delta(log[2].kind, normal, 3) else 0;
  }
}
