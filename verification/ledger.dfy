/** The account ledger service: a store of accounts keyed by account number,
    and the four operations of the service as pure transitions. Each
    mutation either returns the new store with the record it saved, or the
    exception it raises; a raised exception leaves the caller's store as it
    was, which is what rolling the transaction back amounts to. */
module Ledger {
  import opened Wrappers
  import opened Errors
  import opened Accounts

  /** The account table: one record per account number, and the next value
      of the auto-increment identifier. */
  datatype Store = Store(accounts: map<string, Account>, nextId: nat)

  /** Every stored balance is at least zero. */
  ghost predicate NonNegative(s: Store) {
    forall n :: n in s.accounts ==> s.accounts[n].balance >= 0
  }

  /** What a persisted record looks like: keyed by its own number, with an
      identifier and both timestamps set, in order. */
  predicate WellStamped(n: string, a: Account) {
    && a.accountNumber == n
    && a.id.Some?
    && a.createdAt.Some? && a.updatedAt.Some?
    && a.createdAt.value <= a.updatedAt.value
  }

  /** The ledger invariant. Account numbers are unique because they are the
      map's keys; identifiers are unique and below the next one to hand out. */
  ghost predicate Valid(s: Store) {
    && NonNegative(s)
    && (forall n :: n in s.accounts ==> WellStamped(n, s.accounts[n]))
    && (forall n :: n in s.accounts && s.accounts[n].id.Some? ==> s.accounts[n].id.value < s.nextId)
    && (forall n, m :: n in s.accounts && m in s.accounts && n != m ==> s.accounts[n].id != s.accounts[m].id)
  }

  /** `Valid`, and no record was touched after instant `t`. */
  ghost predicate ValidAt(s: Store, t: Tick) {
    && Valid(s)
    && forall n :: n in s.accounts && s.accounts[n].updatedAt.Some? ==> s.accounts[n].updatedAt.value <= t
  }

  /** The balance recorded under `n`, or zero when there is no such account. */
  function BalanceOf(s: Store, n: string): Money {
    if n in s.accounts then s.accounts[n].balance else 0
  }

  /** `existsByAccountNumber` */
  predicate Exists(s: Store, accountNumber: string) {
    accountNumber in s.accounts
  }

  /** `getAccountByAccountNumber`: the stored record, or absent. */
  function GetAccountByAccountNumber(s: Store, accountNumber: string): (r: Option<Account>)
    ensures r.Some? <==> Exists(s, accountNumber)
    ensures r.Some? ==> r.value == s.accounts[accountNumber]
  {
    if accountNumber in s.accounts then Some(s.accounts[accountNumber]) else None
  }

  /** `createAccount`: the duplicate check comes first, then the sign of the
      initial balance; only then is the account built and saved, receiving
      the next identifier and its creation timestamps. */
  function CreateAccount(s: Store, ownerName: string, accountNumber: string, initialBalance: Option<Money>, now: Tick)
    : (r: Result<(Store, Account), Error>)
    ensures Exists(s, accountNumber) ==>
              r == Failure(AccountOperation(DuplicateNumberMessage(accountNumber)))
    ensures !Exists(s, accountNumber) && initialBalance.Some? && initialBalance.value < 0 ==>
              r == Failure(AccountOperation(NegativeInitialBalanceMessage))
    ensures r.Success? <==> !Exists(s, accountNumber) && StartingBalance(initialBalance) >= 0
    ensures r.Success? ==>
              var (s', a) := r.value;
              && s'.accounts.Keys == s.accounts.Keys + {accountNumber}
              && s'.accounts[accountNumber] == a
              && (forall n :: n in s.accounts ==> s'.accounts[n] == s.accounts[n])
              && a.accountNumber == accountNumber && a.ownerName == ownerName
              && a.balance == StartingBalance(initialBalance)
              && a.id == Some(s.nextId) && s'.nextId == s.nextId + 1
              && a.createdAt == Some(now) && a.updatedAt == Some(now)
  {
    if Exists(s, accountNumber) then
      Failure(AccountOperation(DuplicateNumberMessage(accountNumber)))
    else if initialBalance.Some? && initialBalance.value < 0 then
      Failure(AccountOperation(NegativeInitialBalanceMessage))
    else
      var built := NewAccount(accountNumber, ownerName, initialBalance).value;
      var saved := OnCreate(built.(id := Some(s.nextId)), now);
      Success((Store(s.accounts[accountNumber := saved], s.nextId + 1), saved))
  }

  /** `deposit`: the amount is checked before the account is looked up; the
      saved record has the old balance plus the amount and a fresh `updatedAt`. */
  function Deposit(s: Store, accountNumber: string, amount: Option<Money>, now: Tick)
    : (r: Result<(Store, Account), Error>)
    ensures (amount.None? || amount.value <= 0) ==>
              r == Failure(AccountOperation(DepositNotPositiveMessage))
    ensures amount.Some? && amount.value > 0 && !Exists(s, accountNumber) ==>
              r == Failure(AccountNotFound(NotFoundMessage(accountNumber)))
    ensures r.Success? <==> amount.Some? && amount.value > 0 && Exists(s, accountNumber)
    ensures r.Success? ==>
              var (s', a) := r.value;
              var prev := s.accounts[accountNumber];
              && s'.accounts == s.accounts[accountNumber := a]
              && s'.nextId == s.nextId
              && SameIdentity(a, prev) && a.createdAt == prev.createdAt
              && a.balance == prev.balance + amount.value
              && a.updatedAt == Some(now)
  {
    if amount.None? || amount.value <= 0 then
      Failure(AccountOperation(DepositNotPositiveMessage))
    else
      match GetAccountByAccountNumber(s, accountNumber)
      case None => Failure(AccountNotFound(NotFoundMessage(accountNumber)))
      case Some(account) =>
        var saved := OnUpdate(account.(balance := account.balance + amount.value), now);
        Success((s.(accounts := s.accounts[accountNumber := saved]), saved))
  }

  /** `withdraw`: amount first, then existence, then sufficient funds; the
      saved record has the old balance minus the amount and a fresh `updatedAt`. */
  function Withdraw(s: Store, accountNumber: string, amount: Option<Money>, now: Tick)
    : (r: Result<(Store, Account), Error>)
    ensures (amount.None? || amount.value <= 0) ==>
              r == Failure(AccountOperation(WithdrawalNotPositiveMessage))
    ensures amount.Some? && amount.value > 0 && !Exists(s, accountNumber) ==>
              r == Failure(AccountNotFound(NotFoundMessage(accountNumber)))
    ensures amount.Some? && amount.value > 0 && Exists(s, accountNumber)
            && s.accounts[accountNumber].balance < amount.value ==>
              r == Failure(InsufficientFunds(InsufficientFundsMessage(accountNumber)))
    ensures r.Success? <==>
              amount.Some? && amount.value > 0 && Exists(s, accountNumber)
              && amount.value <= s.accounts[accountNumber].balance
    ensures r.Success? ==>
              var (s', a) := r.value;
              var prev := s.accounts[accountNumber];
              && s'.accounts == s.accounts[accountNumber := a]
              && s'.nextId == s.nextId
              && SameIdentity(a, prev) && a.createdAt == prev.createdAt
              && a.balance == prev.balance - amount.value
              && 0 <= a.balance <= prev.balance
              && a.updatedAt == Some(now)
  {
    if amount.None? || amount.value <= 0 then
      Failure(AccountOperation(WithdrawalNotPositiveMessage))
    else
      match GetAccountByAccountNumber(s, accountNumber)
      case None => Failure(AccountNotFound(NotFoundMessage(accountNumber)))
      case Some(account) =>
        if account.balance < amount.value then
          Failure(InsufficientFunds(InsufficientFundsMessage(accountNumber)))
        else
          var saved := OnUpdate(account.(balance := account.balance - amount.value), now);
          Success((s.(accounts := s.accounts[accountNumber := saved]), saved))
  }
}

/** Properties of single ledger transitions. */
module LedgerFacts {
  import opened Wrappers
  import opened Errors
  import opened Accounts
  import opened Ledger

  /** A successful `createAccount` keeps the invariant: the new record is
      stamped at `now`, takes an identifier no other record has, and starts
      with a balance of at least zero. */
  lemma CreatePreservesValid(s: Store, t: Tick, ownerName: string, accountNumber: string,
                             initialBalance: Option<Money>, now: Tick)
    requires ValidAt(s, t) && t <= now
    requires CreateAccount(s, ownerName, accountNumber, initialBalance, now).Success?
    ensures ValidAt(CreateAccount(s, ownerName, accountNumber, initialBalance, now).value.0, now)
  {
  }

  /** A successful `deposit` keeps the invariant. */
  lemma DepositPreservesValid(s: Store, t: Tick, accountNumber: string, amount: Option<Money>, now: Tick)
    requires ValidAt(s, t) && t <= now
    requires Deposit(s, accountNumber, amount, now).Success?
    ensures ValidAt(Deposit(s, accountNumber, amount, now).value.0, now)
  {
  }

  /** A successful `withdraw` keeps the invariant; in particular the balance
      it leaves behind is never below zero. */
  lemma WithdrawPreservesValid(s: Store, t: Tick, accountNumber: string, amount: Option<Money>, now: Tick)
    requires ValidAt(s, t) && t <= now
    requires Withdraw(s, accountNumber, amount, now).Success?
    ensures ValidAt(Withdraw(s, accountNumber, amount, now).value.0, now)
  {
  }

  /** A missing, zero or negative deposit is refused before any lookup: the
      outcome is the same whatever the store and whatever the account number. */
  lemma DepositAmountCheckedFirst(s1: Store, s2: Store, n1: string, n2: string, amount: Option<Money>, t1: Tick, t2: Tick)
    requires amount.None? || amount.value <= 0
    ensures Deposit(s1, n1, amount, t1) == Deposit(s2, n2, amount, t2)
              == Failure(AccountOperation(DepositNotPositiveMessage))
  {
  }

  /** Likewise for a withdrawal: the amount error wins over not-found and
      over insufficient funds. */
  lemma WithdrawAmountCheckedFirst(s1: Store, s2: Store, n1: string, n2: string, amount: Option<Money>, t1: Tick, t2: Tick)
    requires amount.None? || amount.value <= 0
    ensures Withdraw(s1, n1, amount, t1) == Withdraw(s2, n2, amount, t2)
              == Failure(AccountOperation(WithdrawalNotPositiveMessage))
  {
  }

  /** After a successful `createAccount`, looking the number up finds exactly
      the saved record, and every other lookup answers as before. */
  lemma CreateThenGet(s: Store, ownerName: string, accountNumber: string, initialBalance: Option<Money>,
                      now: Tick, other: string)
    requires CreateAccount(s, ownerName, accountNumber, initialBalance, now).Success?
    ensures var (s', a) := CreateAccount(s, ownerName, accountNumber, initialBalance, now).value;
            && GetAccountByAccountNumber(s', accountNumber) == Some(a)
            && (other != accountNumber ==>
                  GetAccountByAccountNumber(s', other) == GetAccountByAccountNumber(s, other))
  {
  }

  /** Withdrawing exactly the balance is allowed and leaves zero. */
  lemma WithdrawWholeBalance(s: Store, accountNumber: string, now: Tick)
    requires Exists(s, accountNumber) && s.accounts[accountNumber].balance > 0
    ensures var r := Withdraw(s, accountNumber, Some(s.accounts[accountNumber].balance), now);
            r.Success? && r.value.1.balance == 0 && BalanceOf(r.value.0, accountNumber) == 0
  {
  }

  /** A withdrawal of what was just deposited succeeds and undoes the deposit:
      every record is as before except for the account's `updatedAt`. */
  lemma DepositThenWithdrawRestores(s: Store, accountNumber: string, amount: Money, t1: Tick, t2: Tick)
    requires NonNegative(s)
    requires Deposit(s, accountNumber, Some(amount), t1).Success?
    ensures var s1 := Deposit(s, accountNumber, Some(amount), t1).value.0;
            var r := Withdraw(s1, accountNumber, Some(amount), t2);
            && r.Success?
            && r.value.0.nextId == s.nextId
            && r.value.0.accounts ==
                 s.accounts[accountNumber := s.accounts[accountNumber].(updatedAt := Some(t2))]
  {
  }
}
