/** The storage calls a unit of work can issue. A call named in a fault set fails
    (network error, lock timeout, constraint violation, cancellation) when it is reached. */
module DbCalls {

  datatype DbCall =
    | Begin
    | SelectUser          // SELECT id, balance / SELECT balance / SELECT credentials by username
    | SelectRecipient     // SELECT id FROM users WHERE username = recipient
    | SelectProduct       // SELECT id, price FROM products WHERE name = ...
    | DebitBalance        // UPDATE users SET balance = balance - ...
    | CreditBalance       // UPDATE users SET balance = balance + ...
    | UpsertInventory     // INSERT INTO inventory ... ON CONFLICT DO UPDATE
    | InsertOperation     // INSERT INTO operations ...
    | SelectOperations    // the transfer-history query, including row scans
    | SelectInventory     // the inventory query, including row scans
    | InsertUser          // INSERT INTO users(username, password)
    | Commit
}

/** The repository's sentinel errors; `DbFailure` is every other error it returns wrapped. */
module RepoErrs {
  import opened DbCalls

  datatype RepoErr =
    | UserAlreadyExists
    | UserNotFound
    | InsufficientFunds
    | ProductNotFound
    | DbFailure(call: DbCall)
}

/** The service layer's sentinel errors, plus wrapped causes it passes through unchanged. */
module ServiceErrs {
  import opened RepoErrs

  /** The foreign crypto calls of the auth service that can fail. */
  datatype CryptoCall = HashPassword | SignToken

  datatype ServiceErr =
    | RecipientNotFound
    | InsufficientFunds
    | CustomerNotFound
    | ProductNotFound
    | InvalidCredentials
    | InvalidToken
    | UserNotFound
    | UserAlreadyExists
    | Repo(cause: RepoErr)        // a repository error returned wrapped, not mapped
    | Crypto(failed: CryptoCall)  // a bcrypt or JWT error returned wrapped
}
