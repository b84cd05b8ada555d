/** The exceptions the ledger service and the account entity raise, one
    constructor per exception class, each carrying its message text. */
module Errors {

  datatype Error =
    | AccountOperation(message: string)  // AccountOperationException: bad input or duplicate number
    | AccountNotFound(message: string)   // AccountNotFoundException: lookup miss during a mutation
    | InsufficientFunds(message: string) // InsufficientFundsException: withdrawal above the balance
    | IllegalArgument(message: string)   // IllegalArgumentException from the Account constructor

  function DuplicateNumberMessage(accountNumber: string): string {
    "Account number '" + accountNumber + "' already exists."
  }

  const NegativeInitialBalanceMessage: string := "Initial balance cannot be negative."

  const DepositNotPositiveMessage: string := "Deposit amount must be positive."

  const WithdrawalNotPositiveMessage: string := "Withdrawal amount must be positive."

  function NotFoundMessage(accountNumber: string): string {
    "Account not found with number: " + accountNumber
  }

  function InsufficientFundsMessage(accountNumber: string): string {
    "Insufficient funds in account " + accountNumber
  }
}
