/** The `Account` entity: its fields, the constructor used for new accounts,
    and the two persistence callbacks that stamp its timestamps. */
module Accounts {
  import opened Wrappers
  import opened Errors

  /** An instant of an abstract clock that stands in for `LocalDateTime.now()`. */
  type Tick = nat

  /** An exact amount of money, counted in units of 1/10000 (the column has
      scale 4). The service only adds, subtracts and compares amounts, all of
      which are exact on these units. */
  type Money = int

  /** One account. `id`, `createdAt` and `updatedAt` are null (`None`) until
      the store persists the account for the first time. */
  datatype Account = Account(
    id: Option<nat>,
    accountNumber: string,
    ownerName: string,
    balance: Money,
    createdAt: Option<Tick>,
    updatedAt: Option<Tick>)

  /** The balance a new account starts with: the given one, or zero when none is given. */
  function StartingBalance(initialBalance: Option<Money>): Money {
    initialBalance.GetOr(0)
  }

  /** True of the fields that identify an account and never change once it exists. */
  predicate SameIdentity(a: Account, b: Account) {
    a.id == b.id && a.accountNumber == b.accountNumber && a.ownerName == b.ownerName
  }

  /** The constructor `Account(accountNumber, ownerName, initialBalance)`: a
      null balance becomes zero, and a negative one is refused. */
  function NewAccount(accountNumber: string, ownerName: string, initialBalance: Option<Money>): (r: Result<Account, Error>)
    ensures r.Success? <==> StartingBalance(initialBalance) >= 0
    ensures r.Failure? ==> r.error == IllegalArgument(NegativeInitialBalanceMessage)
    ensures r.Success? ==> r.value.accountNumber == accountNumber && r.value.ownerName == ownerName
    ensures r.Success? ==> r.value.balance == StartingBalance(initialBalance) && r.value.balance >= 0
    ensures r.Success? ==> r.value.id.None? && r.value.createdAt.None? && r.value.updatedAt.None?
  {
    var balance := if initialBalance.Some? then initialBalance.value else 0;
    if balance < 0 then
      Failure(IllegalArgument(NegativeInitialBalanceMessage))
    else
      Success(Account(None, accountNumber, ownerName, balance, None, None))
  }

  /** A null initial balance yields an account holding exactly zero. */
  lemma NullInitialBalanceIsZero(accountNumber: string, ownerName: string)
    ensures NewAccount(accountNumber, ownerName, None).Success?
    ensures NewAccount(accountNumber, ownerName, None).value.balance == 0
  {
  }

  /** Every account the constructor produces has a balance of at least zero,
      and a negative initial balance is always refused. */
  lemma ConstructedBalanceNonNegative(accountNumber: string, ownerName: string, initialBalance: Option<Money>)
    ensures initialBalance.Some? && initialBalance.value < 0
        <==> NewAccount(accountNumber, ownerName, initialBalance).Failure?
    ensures NewAccount(accountNumber, ownerName, initialBalance).Success? ==>
              NewAccount(accountNumber, ownerName, initialBalance).value.balance >= 0
  {
  }

  /** The `@PrePersist` callback: both timestamps take the current instant. */
  function OnCreate(a: Account, now: Tick): (r: Account)
    ensures r.createdAt == Some(now) && r.updatedAt == Some(now)
    ensures SameIdentity(r, a) && r.balance == a.balance
  {
    a.(createdAt := Some(now), updatedAt := Some(now))
  }

  /** The `@PreUpdate` callback: only `updatedAt` moves; `createdAt` is kept. */
  function OnUpdate(a: Account, now: Tick): (r: Account)
    ensures r.updatedAt == Some(now)
    ensures r.createdAt == a.createdAt
    ensures SameIdentity(r, a) && r.balance == a.balance
  {
    a.(updatedAt := Some(now))
  }

  /** Persisting and then updating keeps the creation instant and never puts
      `updatedAt` before it when the clock does not run backwards. */
  lemma UpdateKeepsCreation(a: Account, created: Tick, later: Tick)
    requires created <= later
    ensures OnUpdate(OnCreate(a, created), later).createdAt == Some(created)
    ensures OnUpdate(OnCreate(a, created), later).createdAt.value
         <= OnUpdate(OnCreate(a, created), later).updatedAt.value
  {
  }
}
