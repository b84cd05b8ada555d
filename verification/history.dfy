/** Sequences of service calls against one store, each call an atomic
    transition at its own clock instant. A rejected call leaves the store as
    it was. */
module History {
  import opened Wrappers
  import opened Errors
  import opened Accounts
  import opened Ledger

  /** One call of the service, with its arguments. */
  datatype Op =
    | Create(ownerName: string, accountNumber: string, initialBalance: Option<Money>)
    | Get(accountNumber: string)
    | Deposit(accountNumber: string, amount: Option<Money>)
    | Withdraw(accountNumber: string, amount: Option<Money>)

  /** A call together with the clock instant at which it runs. */
  datatype Request = Request(op: Op, now: Tick)

  /** What the caller receives. */
  datatype Reply =
    | Saved(account: Account)
    | Found(found: Option<Account>)
    | Rejected(error: Error)

  /** Runs one call: the store after it, and the reply. */
  function Apply(s: Store, req: Request): (out: (Store, Reply))
    ensures out.1.Rejected? ==> out.0 == s
    ensures req.op.Get? ==> out.0 == s && out.1 == Found(GetAccountByAccountNumber(s, req.op.accountNumber))
    ensures out.1.Saved? ==> out.0.accounts.Keys >= s.accounts.Keys
    ensures out.1.Saved? ==> out.1.account in out.0.accounts.Values
  {
    match req.op
    case Create(owner, number, initial) => Commit(s, CreateAccount(s, owner, number, initial, req.now))
    case Get(number) => (s, Found(GetAccountByAccountNumber(s, number)))
    case Deposit(number, amount) => Commit(s, Ledger.Deposit(s, number, amount, req.now))
    case Withdraw(number, amount) => Commit(s, Ledger.Withdraw(s, number, amount, req.now))
  }

  /** Keeps the new store of a successful mutation, or the old one when it raised. */
  function Commit(s: Store, r: Result<(Store, Account), Error>): (Store, Reply) {
    match r
    case Success((s', a)) => (s', Saved(a))
    case Failure(e) => (s, Rejected(e))
  }

  /** The store after running `reqs` in order. */
  function Run(s: Store, reqs: seq<Request>): Store
    decreases |reqs|
  {
    if |reqs| == 0 then s else Run(Apply(s, reqs[0]).0, reqs[1..])
  }

  /** The money a call moved into (positive) or out of (negative) account
      `n`, as read off the call's own arguments: an applied initial balance,
      deposit or withdrawal. A rejected call moves nothing. */
  function Moved(s: Store, req: Request, n: string): int {
    if Apply(s, req).1.Rejected? then 0
    else match req.op
      case Create(_, number, initial) => if number == n then StartingBalance(initial) else 0
      case Get(_) => 0
      case Deposit(number, amount) => if number == n then amount.GetOr(0) else 0
      case Withdraw(number, amount) => if number == n then -amount.GetOr(0) else 0
  }

  /** The net money moved into account `n` by `reqs`. */
  function Flow(s: Store, reqs: seq<Request>, n: string): int
    decreases |reqs|
  {
    if |reqs| == 0 then 0 else Moved(s, reqs[0], n) + Flow(Apply(s, reqs[0]).0, reqs[1..], n)
  }

  /** The clock instants of `reqs` never run backwards, starting from `t`. */
  predicate ClockOrdered(t: Tick, reqs: seq<Request>)
    decreases |reqs|
  {
    |reqs| == 0 || (t <= reqs[0].now && ClockOrdered(reqs[0].now, reqs[1..]))
  }

  /** One call changes account `n`'s balance by exactly what it moved. */
  lemma ApplyConserves(s: Store, req: Request, n: string)
    ensures BalanceOf(Apply(s, req).0, n) == BalanceOf(s, n) + Moved(s, req, n)
  {
  }

  /** One call keeps the invariant, given a clock that does not run backwards. */
  lemma ApplyPreservesValid(s: Store, t: Tick, req: Request)
    requires ValidAt(s, t) && t <= req.now
    ensures ValidAt(Apply(s, req).0, req.now)
  {
  }

  /** No sequence of calls ever leaves a balance below zero. */
  lemma {:induction false} RunPreservesNonNegative(s: Store, reqs: seq<Request>)
    requires NonNegative(s)
    ensures NonNegative(Run(s, reqs))
    decreases |reqs|
  {
    if |reqs| > 0 {
      var s1 := Apply(s, reqs[0]).0;
      assert NonNegative(s1);
      RunPreservesNonNegative(s1, reqs[1..]);
    }
  }

  /** The whole invariant (non-negative balances, stamped records, unique
      identifiers) holds after any sequence of calls whose clock instants do
      not run backwards. */
  lemma {:induction false} RunPreservesValid(s: Store, t: Tick, reqs: seq<Request>)
    requires ValidAt(s, t) && ClockOrdered(t, reqs)
    ensures Valid(Run(s, reqs))
    decreases |reqs|
  {
    if |reqs| > 0 {
      ApplyPreservesValid(s, t, reqs[0]);
      RunPreservesValid(Apply(s, reqs[0]).0, reqs[0].now, reqs[1..]);
    }
  }

  /** Conservation: after any sequence of calls, the balance of account `n`
      is its starting balance plus everything the applied calls moved into
      it, minus everything they moved out. */
  lemma {:induction false} RunConserves(s: Store, reqs: seq<Request>, n: string)
    ensures BalanceOf(Run(s, reqs), n) == BalanceOf(s, n) + Flow(s, reqs, n)
    decreases |reqs|
  {
    if |reqs| > 0 {
      ApplyConserves(s, reqs[0], n);
      RunConserves(Apply(s, reqs[0]).0, reqs[1..], n);
    }
  }

  /** Accounts are never deleted, and an account's identifier, number, owner
      and creation instant never change, whatever calls follow. */
  lemma {:induction false} RunKeepsAccounts(s: Store, reqs: seq<Request>, n: string)
    requires n in s.accounts
    ensures n in Run(s, reqs).accounts
    ensures SameIdentity(Run(s, reqs).accounts[n], s.accounts[n])
    ensures Run(s, reqs).accounts[n].createdAt == s.accounts[n].createdAt
    decreases |reqs|
  {
    if |reqs| > 0 {
      var s1 := Apply(s, reqs[0]).0;
      assert n in s1.accounts && SameIdentity(s1.accounts[n], s.accounts[n])
          && s1.accounts[n].createdAt == s.accounts[n].createdAt;
      RunKeepsAccounts(s1, reqs[1..], n);
    }
  }
}

/** Worked scenarios, amounts written in units of 1/10000. */
module Scenarios {
  import opened Wrappers
  import opened Errors
  import opened Accounts
  import opened Ledger

  /** Open "ACC001" for "Alice" with 1000.00, deposit 200.00, withdraw 300.00:
      the balance reads 900.00; a further withdrawal of 5000.00 is refused as
      insufficient funds. A second account under the same number is refused
      as a duplicate. */
  lemma AliceScenario()
    ensures var r0 := CreateAccount(Store(map[], 1), "Alice", "ACC001", Some(10000000), 1);
            && r0.Success?
            && var r1 := Ledger.Deposit(r0.value.0, "ACC001", Some(2000000), 2);
            && r1.Success? && r1.value.1.balance == 12000000
            && var r2 := Ledger.Withdraw(r1.value.0, "ACC001", Some(3000000), 3);
            && r2.Success? && r2.value.1.balance == 9000000
            && Ledger.Withdraw(r2.value.0, "ACC001", Some(50000000), 4)
                 == Failure(InsufficientFunds(InsufficientFundsMessage("ACC001")))
            && BalanceOf(r2.value.0, "ACC001") == 9000000
            && CreateAccount(r2.value.0, "Bob", "ACC001", None, 5)
                 == Failure(AccountOperation("Account number 'ACC001' already exists."))
  {
    var r0 := CreateAccount(Store(map[], 1), "Alice", "ACC001", Some(10000000), 1);
    assert Exists(r0.value.0, "ACC001");
    var r1 := Ledger.Deposit(r0.value.0, "ACC001", Some(2000000), 2);
    assert r1.value.0.accounts["ACC001"].balance == 12000000;
    var r2 := Ledger.Withdraw(r1.value.0, "ACC001", Some(3000000), 3);
    assert r2.value.0.accounts["ACC001"].balance == 9000000;
    assert DuplicateNumberMessage("ACC001") == "Account number 'ACC001' already exists.";
  }

  /** The store the service's unit tests start from: "ACC001", owned by
      "Midou Ben", holding 1000.00 and already persisted. */
  function TestStore(): Store {
    Store(map["ACC001" := Account(Some(1), "ACC001", "Midou Ben", 10000000, Some(0), Some(1))], 2)
  }

  /** The service's unit tests, each from a fresh copy of that store:
      creating "ACCNEW002" for "Veuve Noire" with 500.00 keeps owner, number
      and balance; a duplicate "ACC001" and a negative -100.00 are refused
      with their messages; a lookup finds "ACC001" and misses "NONEXISTENT";
      a deposit of 200.00 gives 1200.00, a withdrawal of 300.00 gives 700.00;
      "ACC999" is not found; 2000.00 is insufficient; zero and -50.00 amounts
      are refused with the amount messages. */
  lemma ServiceTestCases()
    ensures var c := CreateAccount(TestStore(), "Veuve Noire", "ACCNEW002", Some(5000000), 2);
            && c.Success? && c.value.1.ownerName == "Veuve Noire"
            && c.value.1.accountNumber == "ACCNEW002" && c.value.1.balance == 5000000
    ensures CreateAccount(TestStore(), "Midou Ben", "ACC001", Some(1000000), 2)
              == Failure(AccountOperation("Account number 'ACC001' already exists."))
    ensures CreateAccount(TestStore(), "Test User", "NEWACC", Some(-1000000), 2)
              == Failure(AccountOperation("Initial balance cannot be negative."))
    ensures GetAccountByAccountNumber(TestStore(), "ACC001") == Some(TestStore().accounts["ACC001"])
    ensures GetAccountByAccountNumber(TestStore(), "NONEXISTENT") == None
    ensures var d := Ledger.Deposit(TestStore(), "ACC001", Some(2000000), 2);
            d.Success? && d.value.1.balance == 12000000
    ensures Ledger.Deposit(TestStore(), "ACC999", Some(1000000), 2).Failure?
    ensures Ledger.Deposit(TestStore(), "ACC999", Some(1000000), 2).error.AccountNotFound?
    ensures Ledger.Deposit(TestStore(), "ACC001", Some(0), 2) == Failure(AccountOperation("Deposit amount must be positive."))
    ensures Ledger.Deposit(TestStore(), "ACC001", Some(-500000), 2) == Failure(AccountOperation("Deposit amount must be positive."))
    ensures var w := Ledger.Withdraw(TestStore(), "ACC001", Some(3000000), 2);
            w.Success? && w.value.1.balance == 7000000
    ensures Ledger.Withdraw(TestStore(), "ACC999", Some(1000000), 2).Failure?
    ensures Ledger.Withdraw(TestStore(), "ACC999", Some(1000000), 2).error.AccountNotFound?
    ensures Ledger.Withdraw(TestStore(), "ACC001", Some(20000000), 2).Failure?
    ensures Ledger.Withdraw(TestStore(), "ACC001", Some(20000000), 2).error.InsufficientFunds?
    ensures Ledger.Withdraw(TestStore(), "ACC001", Some(0), 2) == Failure(AccountOperation("Withdrawal amount must be positive."))
    ensures Ledger.Withdraw(TestStore(), "ACC001", Some(-500000), 2) == Failure(AccountOperation("Withdrawal amount must be positive."))
  {
    assert DuplicateNumberMessage("ACC001") == "Account number 'ACC001' already exists.";
    assert Exists(TestStore(), "ACC001");
    assert !Exists(TestStore(), "ACCNEW002") && !Exists(TestStore(), "NEWACC") && !Exists(TestStore(), "ACC999");
  }
}
