# Coin ledger model

This project models the core of a merch-shop backend in Dafny. Users hold coin balances. They send coins to each other and buy products. An operation log records every transfer and purchase. A cache keyed `user_info:<name>` serves each user's account summary.

The model is purely functional:

- **Store.** The database tables (`users`, `products`, `inventory`, `operations`) are sequences of rows in insertion order. Lookups return the first matching row.
- **Constraints.** The schema's uniqueness constraints are a predicate (`Ledger.WellFormed`), kept apart from the operations.
- **Units of work.** Every repository unit of work is a function from a store to `Result<Store, RepoErr>`. `OperationRepository.Committed` gives the store a call leaves behind, which is the old store on every error (the deferred rollback).
- **Storage failures.** Failures of individual storage calls (`Begin`, each `SELECT`/`UPDATE`/`INSERT`, `Commit`) are a parameter `faults: set<DbCall>`. A call in the set fails when the code reaches it.
- **Cache.** The cache is a `map<string, CacheValue>`. A failed read, write or delete is a boolean parameter.
- **Crypto.** bcrypt and JWT enter the model as uninterpreted functions (`AuthService.Primitives`). The clock reading a token is issued at is a parameter.

Modules, bottom-up:

- `Wrappers`: `Option` and `Result`.
- `DbCalls`, `RepoErrs` and `ServiceErrs`: the storage calls, and the two layers' sentinel errors.
- `Ledger`: rows, lookups, the balance update, the inventory upsert and the constraints. The kind tags "transfer" and "purchase" are `OperationKind.Tag`.
- `Entity`: the records the repository hands to the services.
- `OperationRepository`: `SaveTransfer` and `SavePurchase`.
- `UserRepository`: `AddUser`, `GetUserCredentials` and `GetInfo`.
- `UserService`: the cache key, the in/out partition, `RetrieveUserInfo` and `CreateUser`.
- `OperationService`: `TransferFunds` and `PurchaseProduct`, with error mapping and cache eviction.
- `AuthService`: login with auto-registration, and token validation.
- `OperationRoutes`: the `/sendCoin` and `/buy/:item` handlers. `Endpoints` chains each handler with its service and the store.
- `CacheCoherence`: a cached summary is never stale while evictions succeed.
- `Invariants`: every committed write keeps the schema constraints and the log's foreign keys.
- `Scenarios`: small concrete stores.

Two behaviours of the code are worth knowing before reading the table. The transfer service reports `RecipientNotFound` whichever of the two users is missing, because the repository returns one sentinel for both lookups. The purchase service reports a storage failure as success (see Findings).

## Model

| member | source | states |
|---|---|---|
| OperationRepository.SaveTransfer | internal/repository/pgdb/operation.go:23-108 | A committed transfer keeps products, inventory, the id sequence and the opening balance. It appends exactly one row to the log and keeps the rest of the log as it was. |
| OperationRepository.TransferCommitted | internal/repository/pgdb/operation.go:39-105 | A transfer commits only when both users exist, the sender can cover the amount and no storage call failed. The new store is the debit, then the credit, plus one transfer row (sender id, amount, recipient id). |
| OperationRepository.TransferErrorPrecedence | internal/repository/pgdb/operation.go:39-63 | The error follows the code's check order: a missing sender gives UserNotFound, then a short balance gives InsufficientFunds, then a missing recipient gives UserNotFound. The transfer commits exactly when all three checks pass. |
| OperationRepository.InsufficientFundsBeforeRecipient | internal/repository/pgdb/operation.go:47-63 | A short balance is reported as InsufficientFunds even when the recipient does not exist. |
| OperationRepository.TransferMovesAmount | internal/repository/pgdb/operation.go:65-85 | The sender loses exactly the amount and the recipient gains exactly the amount. Their sum is unchanged. A self-transfer leaves the balance where it was. Every other user keeps their balance. |
| OperationRepository.TransferConservesTotal | internal/repository/pgdb/operation.go:65-85 | A committed transfer leaves the sum of all balances unchanged. |
| OperationRepository.TransferKeepsBalancesNonNegative | internal/repository/pgdb/operation.go:47-49 | With a non-negative amount and non-negative balances, no balance goes negative. Paying one's whole balance leaves exactly 0. |
| OperationRepository.TransferLogsOneRow | internal/repository/pgdb/operation.go:87-101 | The log gains exactly one row, of kind transfer, carrying the sender id, the amount and the recipient id. A self-transfer also gains it. |
| OperationRepository.TransferFaultRollsBack | internal/repository/pgdb/operation.go:26-30 | Any failing storage call of the transfer unit of work makes it fail and leaves the store exactly as before. |
| OperationRepository.SavePurchase | internal/repository/pgdb/operation.go:110-204 | A committed purchase keeps products, the id sequence and the opening balance. It appends exactly one row to the log and keeps the rest of the log as it was. |
| OperationRepository.PurchaseCommitted | internal/repository/pgdb/operation.go:127-201 | A purchase commits only when the user and the product exist, the price is covered and no storage call failed. The new store is the debit, the inventory upsert and one purchase row (user id, price, product id). |
| OperationRepository.PurchaseErrorPrecedence | internal/repository/pgdb/operation.go:127-152 | The error follows the code's check order: user, then product, then funds. A missing product is reported even when funds are short. The purchase commits exactly when all three checks pass. |
| OperationRepository.PurchaseEffects | internal/repository/pgdb/operation.go:154-197 | The buyer is debited exactly the price. The buyer's line for the product gains 1, or is created at 1. Every other line and every other balance is unchanged. One row is appended to the log. |
| OperationRepository.QuantityWithoutLine | internal/repository/pgdb/operation.go:165-170 | A pair with no inventory line has quantity 0. So the upsert's first insert sets the quantity to 1. |
| OperationRepository.PurchaseKeepsBalancesNonNegative | internal/repository/pgdb/operation.go:150-163 | With non-negative balances, a purchase never drives a balance negative, whatever the price: the funds check guards the debit. |
| OperationRepository.PurchaseTwice | internal/repository/pgdb/operation.go:154-197 | A buyer who can cover twice the price buys one product twice. Both purchases commit, the quantity grows by 2, the log by two rows, and the balance drops by twice the price. |
| OperationRepository.PurchaseFaultRollsBack | internal/repository/pgdb/operation.go:113-118 | Any failing storage call of the purchase unit of work makes it fail and leaves the store exactly as before. |
| Ledger.TagInjective | internal/model/operation.go:10-11 | The kind constants "transfer" and "purchase" are distinct, so two kinds share a type tag exactly when they are the same kind. |
| Ledger.FindUser | internal/repository/pgdb/operation.go:34-45 | A row a lookup by username returns is a row of the table carrying that name. |
| Ledger.FindUserNone | internal/repository/pgdb/operation.go:34-45 | A lookup by username comes back empty exactly when no row of the table has that name. |
| Ledger.NameOfJoin | internal/repository/pgdb/user.go:94-95 | A join on users.id yields the name of a row carrying that id, and is NULL exactly when no row carries it. |
| Ledger.Upsert | internal/repository/pgdb/operation.go:165-179 | The upsert adds 1 to the pair's quantity and changes no other pair's quantity. The table grows by one row exactly when the pair had no line. |
| Ledger.MoveBetween | internal/repository/pgdb/operation.go:65-85 | Debiting one user and crediting another moves exactly the amount between them. |
| Ledger.UpdateKeepsUnique | internal/repository/pgdb/operation.go:65-85 | Balance updates keep user ids and usernames unique. |
| UserRepository.AddUser | internal/repository/pgdb/user.go:26-44 | The insert succeeds exactly when it does not fail and the username is free. A taken username gives UserAlreadyExists. Any other failure is returned as the failed call. A new user finds a row with the next id, the password hash and the opening balance. Every other name finds what it found before. |
| UserRepository.GetUserCredentials | internal/repository/pgdb/user.go:46-65 | Every error comes with the empty user. An unknown name gives UserNotFound. Success returns the name with its stored hash. |
| UserRepository.GetInfo | internal/repository/pgdb/user.go:67-151 | An unknown user gives UserNotFound, and only then. The summary succeeds exactly when no call fails, the user exists and the history scan succeeds. Success carries the user's balance, the history query's rows and the inventory query's lines for the user's id. |
| UserRepository.TransferHistory | internal/repository/pgdb/user.go:88-117 | The history is no longer than the log, and every entry names the user as actor or counterparty. Its only error is the failed history query. |
| UserRepository.HistoryFailsExactly | internal/repository/pgdb/user.go:88-114 | The scan fails exactly when some transfer row involving the user joins to a missing user (a NULL name). |
| UserRepository.HistoryIsInvolved | internal/repository/pgdb/user.go:88-114 | Whenever the scan succeeds, the history equals the reference read off the log from the front: each involved transfer row once, in log order. |
| UserRepository.HistoryConcat | internal/repository/pgdb/user.go:88-114 | The history of a concatenated log is the concatenation of the two histories, so history order is log order. |
| UserRepository.HistoryExact | internal/repository/pgdb/user.go:88-114 | With the log's foreign keys intact, the scan succeeds and the history equals the reference: every transfer row involving the user, once each and in log order, as (actor, counterparty, amount). |
| UserRepository.InvolvedMembers | internal/repository/pgdb/user.go:88-97 | The reference history holds the scanned row of every involved transfer that scans, and every entry comes from such a row, so never from a purchase row. |
| UserRepository.HistoryMembers | internal/repository/pgdb/user.go:88-114 | With the log's foreign keys intact, the history contains every transfer row involving the user, and nothing else. |
| UserRepository.InventoryOf | internal/repository/pgdb/user.go:119-141 | Every inventory entry is one of the user's lines, as (product name, quantity). |
| UserRepository.InventoryComplete | internal/repository/pgdb/user.go:119-141 | Every line of the user whose product exists appears in the inventory. |
| UserRepository.GetInfoExact | internal/repository/pgdb/user.go:67-151 | With the log's foreign keys intact and no failing call, an existing user's summary is the stored balance, the reference history and the inventory lines. |
| UserRepository.GetInfoEmptyAccount | internal/repository/pgdb/user.go:100-150 | A user with no transfers and no lines gets their balance and two empty lists. |
| UserRepository.InventoryOfAfterUpsert | internal/repository/pgdb/user.go:119-141 | Another user's upsert never changes a user's inventory result. |
| UserService.CacheKey | internal/service/user.go:66 | The key is "user_info:" followed by the username. |
| UserService.CacheKeyInjective | internal/service/user.go:66 | Two users share a cache key exactly when they are the same user. |
| UserService.Partition | internal/service/user.go:96-112 | The in and out lists together have as many entries as the history. |
| UserService.PartitionConcat | internal/service/user.go:98-112 | The split of a concatenation is the concatenation of the splits, so each list keeps history order. |
| UserService.PartitionSingle | internal/service/user.go:99-111 | A row the user sent goes out as (counterparty, amount). Any other row comes in as (sender, amount). |
| UserService.SelfTransferIsOutgoing | internal/service/user.go:99-104 | A self-transfer is reported once, as outgoing, and never as incoming. |
| UserService.PartitionSources | internal/service/user.go:98-112 | Every incoming entry comes from a row the user did not send. Every outgoing entry comes from a row the user sent. |
| UserService.RetrieveUserInfo | internal/service/user.go:61-131 | A decodable hit is returned with the cache untouched. Every error comes with the empty summary and leaves the cache untouched. The repository's UserNotFound becomes the service's UserNotFound, and any other error is wrapped. A successful miss returns the repository's whole summary: balance, inventory, and the history split into received and sent. The summary is written back unless the write fails. |
| UserService.HitIgnoresStore | internal/service/user.go:69-74 | A decodable hit is answered from the cache alone, even when the store cannot be read. |
| UserService.UndecodableFallsBack | internal/service/user.go:69-77 | A failed read or an undecodable entry acts exactly like an empty cache. |
| UserService.SecondLookupSame | internal/service/user.go:121-130 | After a lookup whose write-back succeeded, a second lookup returns the same summary and does not read the store. |
| UserService.UnknownUserNotFound | internal/service/user.go:78-86 | An unknown user with no cached entry is reported as UserNotFound, and nothing is cached. |
| UserService.CreateUser | internal/service/user.go:32-59 | The repository's UserAlreadyExists becomes the service's UserAlreadyExists, and any other error is wrapped. Success leaves the new user with the given hash. |
| OperationService.Evict | internal/service/operation.go:64-69 | A delete removes exactly the named keys, or (when it fails) nothing. Surviving entries are untouched. |
| OperationService.TransferFunds | internal/service/operation.go:30-74 | The store is what the repository committed. UserNotFound becomes RecipientNotFound, InsufficientFunds maps to itself and anything else is wrapped. Errors leave the cache alone. Success evicts both users' keys and nothing else. |
| OperationService.PurchaseProductAsWritten | internal/service/operation.go:76-119 | The purchase service as written. UserNotFound, ProductNotFound and InsufficientFunds map to CustomerNotFound, ProductNotFound and InsufficientFunds, each in both directions. Every other outcome, a storage failure included, is reported as success. Errors leave the cache alone. A reported success evicts the customer's key and no other. |
| OperationService.PurchaseProduct | internal/service/operation.go:76-119 | The purchase service as intended. It reports success exactly when the repository committed. Each of the three sentinels maps to its service counterpart, both ways. Errors leave the cache alone. Success evicts exactly the customer's key. |
| OperationService.EvictionFailureHarmless | internal/service/operation.go:64-69 | A failed eviction changes neither the error reported nor the store, for transfers and for both versions of the purchase. |
| OperationService.MissingSenderReportedAsRecipient | internal/service/operation.go:37-43 | A missing sender is reported as RecipientNotFound. |
| OperationService.PurchaseFailureReportedAsSuccess | internal/service/operation.go:81-118 | As written, any storage failure of the purchase is reported as success and evicts the key, though nothing was bought. The intended version reports the failure wrapped and leaves the cache alone. |
| OperationService.BeginFailureReportedAsSuccess | internal/service/operation.go:81-118 | A concrete instance: when the transaction cannot begin, the purchase as written reports success and evicts the customer's key. |
| OperationService.PurchaseVersionsAgreeOnSentinels | internal/service/operation.go:81-118 | The two purchase versions agree exactly when the repository committed or returned a sentinel. |
| AuthService.StripBearer | internal/service/auth.go:107-109 | The token is changed exactly when it is longer than "Bearer " and starts with it. The result is then the rest after the prefix. |
| AuthService.BearerIsTransparent | internal/service/auth.go:107-109 | "Bearer " followed by a non-empty token strips to that token. |
| AuthService.BarePrefixKept | internal/service/auth.go:107 | A header of exactly "Bearer " goes to the parser unchanged. |
| AuthService.StripsOnce | internal/service/auth.go:107-109 | Only one prefix is stripped. |
| AuthService.ValidateToken | internal/service/auth.go:104-125 | It succeeds exactly when the stripped token parses, and then returns the parsed username. Every failure is InvalidToken. |
| AuthService.GenerateToken | internal/service/auth.go:86-102 | The token is the username signed at the issue time. A signing failure is returned wrapped. |
| AuthService.HandleUserNotFound | internal/service/auth.go:63-84 | A hash failure changes nothing. The store changes only by the repository's insert of the hash. A token is issued only after the user was inserted. |
| AuthService.Authorization | internal/service/auth.go:35-61 | A known user never changes the store. A credentials lookup failure is passed through. InvalidCredentials is returned exactly for a known user with a mismatching password. Any token is the username signed at the issue time. The store changes only by registering an unknown user. |
| AuthService.FirstLoginProvisions | internal/service/auth.go:41-42 | An unknown user's first login creates the account with the hashed password and issues a token signed at its time. A later login with the same password succeeds without changing the store, with a token signed at the later time. |
| AuthService.RegisteredUserLogsIn | internal/service/user.go:32-59 | After registration with a hash, a login whose password the hash matches gets a token and leaves the store as it is. Any other password gets InvalidCredentials. |
| AuthService.WrongPasswordRefused | internal/service/auth.go:51-58 | A known user with a mismatching password gets InvalidCredentials, and nothing is inserted. |
| AuthService.ProvisioningFailurePropagates | internal/service/auth.go:75-81 | A failed insert during first login is passed through, and no token is issued. |
| OperationRoutes.FailingFields | internal/controller/http/v1/operation.go:36-39 | Validation fails exactly for an empty toUser or a non-positive amount, and names each failing field. |
| OperationRoutes.SendCoin | internal/controller/http/v1/operation.go:41-141 | The service is called exactly when the username is present, the body decodes and validates, and the recipient differs from the sender. It is called with those values. Without a call the reply is 400. Otherwise 200 means success, the two sentinels give 400 and anything else gives 500. |
| OperationRoutes.BuyProduct | internal/controller/http/v1/operation.go:143-216 | The service is called exactly when the username is present and the item is non-empty. 200 means success, InsufficientFunds and ProductNotFound give 400, and anything else gives 500. |
| OperationRoutes.SelfTransferRefused | internal/controller/http/v1/operation.go:88-98 | Sending coins to oneself gives 400 without calling the service. |
| OperationRoutes.MissingCustomerIsInternal | internal/controller/http/v1/operation.go:179-212 | CustomerNotFound gives 500, while ProductNotFound gives 400. |
| OperationRoutes.CallIndependentOfOutcome | internal/controller/http/v1/operation.go:45-104 | Whether and how the service is called does not depend on its answer, nor does the reply when it is not called. |
| Endpoints.ServeSendCoin | internal/controller/http/v1/operation.go:100-140 | /sendCoin answers 200 exactly when the request passes the handler and the transfer commits. Any other reply leaves the store unchanged. |
| Endpoints.SendCoinOkMovesCoins | internal/controller/http/v1/operation.go:100-140 | A 200 from /sendCoin means the sender paid exactly the amount to the recipient. |
| Endpoints.ServeBuy | internal/controller/http/v1/operation.go:175-215 | Over the intended service, /buy answers 200 exactly when the purchase commits. Any other reply leaves the store unchanged. |
| Endpoints.ServeBuyAsWritten | internal/controller/http/v1/operation.go:175-215 | Over the service as written, a non-200 reply leaves the store unchanged. |
| Endpoints.BuyAnswersOkWithoutPurchase | internal/service/operation.go:81-118 | As written, /buy answers 200 for a purchase that never committed. The intended version answers 500. |
| CacheCoherence.GetInfoFaultsOnlyFail | internal/repository/pgdb/user.go:67-151 | Storage faults make the summary query fail but never change its answer. |
| CacheCoherence.LookupIsFresh | internal/service/user.go:61-131 | While no cached summary is stale, every successful lookup returns the summary the store implies, and the cache it leaves has no stale summary either. |
| CacheCoherence.TransferLeavesOthersInfo | internal/service/operation.go:61-69 | A committed transfer changes no summary except the sender's and the recipient's. So evicting those two keys is enough. |
| CacheCoherence.PurchaseLeavesOthersInfo | internal/service/operation.go:107-114 | A committed purchase changes no summary except the buyer's. |
| CacheCoherence.AddUserKeepsCoherent | internal/repository/pgdb/user.go:26-44 | Registration, by the repository or through the user service, keeps the cache coherent without evicting anything. |
| CacheCoherence.TransferKeepsCoherent | internal/service/operation.go:61-73 | A transfer whose eviction succeeds leaves no stale summary in the cache. |
| CacheCoherence.PurchaseKeepsCoherent | internal/service/operation.go:107-118 | A purchase whose eviction succeeds leaves no stale summary. |
| CacheCoherence.PurchaseAsWrittenKeepsCoherent | internal/service/operation.go:81-118 | The purchase service as written also leaves no stale summary. On the fall-through it evicts a summary that did not change. |
| CacheCoherence.HistoryUnderKeptJoins | internal/repository/pgdb/user.go:88-97 | With the log's foreign keys intact, a users table that keeps every existing id-to-name join yields the same history. |
| CacheCoherence.HistoryUnderSameNames | internal/repository/pgdb/user.go:88-97 | The history query depends on the users table only through the id-to-name join. |
| Invariants.UpsertKeepsUniqueLines | internal/repository/pgdb/operation.go:165-170 | The upsert never creates a second line for a (user, product) pair. |
| Invariants.TransferKeepsConsistent | internal/repository/pgdb/operation.go:23-108 | A transfer commits only stores that keep the schema constraints and the log's foreign keys. |
| Invariants.PurchaseKeepsConsistent | internal/repository/pgdb/operation.go:110-204 | A purchase commits only stores that keep the schema constraints and the log's foreign keys. |
| Invariants.AddUserKeepsConsistent | internal/repository/pgdb/user.go:26-44 | Registration commits only stores that keep the schema constraints and the log's foreign keys. |
| Scenarios.AliceTransfersToBob | internal/repository/pgdb/operation.go:23-108 | alice (500) sends 100 to bob (200). The result is 400 and 300, plus one transfer row. |
| Scenarios.AliceCannotAfford | internal/repository/pgdb/operation.go:150-152 | A balance of 50 cannot buy a product priced 100. |
| Scenarios.AliceBuysTwoWidgets | internal/repository/pgdb/operation.go:154-197 | Two purchases at 20 give one line of quantity 2 and two purchase rows, and spend 40. |
| Scenarios.TransferToGhost | internal/service/operation.go:37-43 | A transfer to an unknown user gives RecipientNotFound, and store and cache are untouched. |
| Scenarios.FailedEvictionServesStale | internal/service/operation.go:64-69 | When the eviction fails, the next lookup serves the pre-transfer balance. |

## Left out

- Concurrency and isolation: the balance reads take no row lock. Lost updates and overdrafts under interleaving cannot be stated in this sequential model, which runs one unit of work at a time.
- SQL, pgx and the connection pool (pkg/postgres/postgres.go): tables are row sequences. A failing statement is a member of the `faults` set. The rollback returns the old store.
- History order: the history query has no ORDER BY. The model returns rows in log order, which is one order the database may use.
- Users' default balance: the schema is not part of this model. A new user starts with `Store.openingBalance`.
- Redis, JSON and the 30-minute TTL (internal/cache/redis/redis.go, internal/cache/cache.go): the cache is a map without time. A stored summary decodes to itself. Bytes that do not decode are `Undecodable`.
- bcrypt and JWT (internal/utils/jwt/jwt.go): uninterpreted functions. The signing key and the token TTL are inside them. The clock reading a token is issued at, which sets its expiry, is the parameter `now`. Expiry checking on validation is inside `parse`.
- The validator's message text (pkg/validation is not part of this model): a validation failure is the list of failing fields.
- The Fiber wiring, body parser, auth middleware, the auth and user controllers, and the router: requests arrive already decoded, as `Option` values.
- Process and configuration wiring (internal/app/app.go, config/config.go).
- Logging and the debug print in `SavePurchase`: these have no effect on results.
- Context cancellation (internal/app/app.go:31, :88): shutdown cancels the context every request shares, so the next storage or cache call of a running request fails. The model has no context: such a call is a member of `faults`, or `getFails` / `setFails` / `delFails` for the cache, like any other failure.
- Integer width: balances, prices and amounts are unbounded integers. The Go code uses 64-bit `int`, and no overflow is modelled.

## Findings

| source | as written | input that shows it | evidently intended | confidence | as-written member | corrected member |
|---|---|---|---|---|---|---|
| internal/service/operation.go:81-118 | The error branch maps three sentinels. It has no final return for other errors, so a storage failure falls through to the cache eviction and `return nil`. | Any purchase whose unit of work fails on a storage call, e.g. `Begin` failing: the service reports success, and `/buy` answers 200, with no purchase committed. | Return any other repository error wrapped, as `TransferFunds` does, so the handler answers 500. | not executed | OperationService.PurchaseFailureReportedAsSuccess | OperationService.PurchaseProduct |
