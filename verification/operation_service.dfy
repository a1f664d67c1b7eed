/** The operation service of internal/service/operation.go: it runs a repository unit of
    work, maps the repository's sentinels to its own, and evicts the cached summaries of
    the users whose balances changed. */
module OperationService {
  import opened Wrappers
  import opened DbCalls
  import opened RepoErrs
  import opened ServiceErrs
  import opened Ledger
  import opened OperationRepository
  import opened UserService

  /** What a service call leaves behind: the store, the cache, and the error it returns. */
  datatype Effect = Effect(store: Store, cache: Cache, err: Option<ServiceErr>)

  /** A multi-key DEL: every named key disappears, or (when the call fails) nothing does. */
  function Evict(cache: Cache, keys: set<string>, delFails: bool): (r: Cache)
    ensures delFails ==> r == cache
    ensures !delFails ==> forall k :: k in r <==> k in cache && k !in keys
    ensures forall k :: k in r ==> k in cache && r[k] == cache[k]
  {
    if delFails then cache else cache - keys
  }

  /** Transfer: UserNotFound (whichever of the two users is missing) is reported as
      RecipientNotFound, InsufficientFunds as itself, anything else wrapped. On success
      both users' summaries are evicted; a failed eviction is only logged. */
  function TransferFunds(st: Store, cache: Cache, sender: string, recipient: string, amount: int, faults: set<DbCall>, delFails: bool): (r: Effect)
    ensures r.store == Committed(st, SaveTransfer(st, sender, recipient, amount, faults))
    ensures r.err.None? <==> SaveTransfer(st, sender, recipient, amount, faults).Ok?
    ensures r.err == Some(RecipientNotFound) <==> SaveTransfer(st, sender, recipient, amount, faults) == Err(RepoErr.UserNotFound)
    ensures r.err == Some(ServiceErr.InsufficientFunds) <==>
      SaveTransfer(st, sender, recipient, amount, faults) == Err(RepoErr.InsufficientFunds)
    ensures r.err.Some? && r.err != Some(RecipientNotFound) && r.err != Some(ServiceErr.InsufficientFunds) ==>
      SaveTransfer(st, sender, recipient, amount, faults).Err? && r.err == Some(Repo(SaveTransfer(st, sender, recipient, amount, faults).error))
    ensures r.err.Some? || delFails ==> r.cache == cache
    ensures r.err.None? && !delFails ==> CacheKey(sender) !in r.cache && CacheKey(recipient) !in r.cache
    ensures forall k :: k in cache && k != CacheKey(sender) && k != CacheKey(recipient) ==> k in r.cache && r.cache[k] == cache[k]
  {
    match SaveTransfer(st, sender, recipient, amount, faults)
    case Err(e) =>
      if e.UserNotFound? then Effect(st, cache, Some(RecipientNotFound))
      else if e.InsufficientFunds? then Effect(st, cache, Some(ServiceErr.InsufficientFunds))
      else Effect(st, cache, Some(Repo(e)))
    case Ok(next) => Effect(next, Evict(cache, {CacheKey(sender), CacheKey(recipient)}, delFails), None)
  }

  /** Purchase as the source writes it: the three sentinels are mapped, but the error
      branch has no final return, so any other repository error falls through to the
      success path: the customer's summary is evicted and success is reported. */
  function PurchaseProductAsWritten(st: Store, cache: Cache, username: string, product: string, faults: set<DbCall>, delFails: bool): (r: Effect)
    ensures r.store == Committed(st, SavePurchase(st, username, product, faults))
    ensures var saved := SavePurchase(st, username, product, faults);
      r.err.None? <==> (saved.Ok? || (saved.error != RepoErr.UserNotFound && saved.error != RepoErr.ProductNotFound &&
                                      saved.error != RepoErr.InsufficientFunds))
    ensures r.err == Some(CustomerNotFound) <==> SavePurchase(st, username, product, faults) == Err(RepoErr.UserNotFound)
    ensures r.err == Some(ServiceErr.ProductNotFound) <==> SavePurchase(st, username, product, faults) == Err(RepoErr.ProductNotFound)
    ensures r.err == Some(ServiceErr.InsufficientFunds) <==> SavePurchase(st, username, product, faults) == Err(RepoErr.InsufficientFunds)
    ensures r.err.Some? ==> SavePurchase(st, username, product, faults).Err? && r.cache == cache
    ensures delFails ==> r.cache == cache
    ensures r.err.None? && !delFails ==> CacheKey(username) !in r.cache
    ensures forall k :: k in cache && k != CacheKey(username) ==> k in r.cache && r.cache[k] == cache[k]
  {
    var evicted := Evict(cache, {CacheKey(username)}, delFails);
    match SavePurchase(st, username, product, faults)
    case Err(e) =>
      if e.UserNotFound? then Effect(st, cache, Some(CustomerNotFound))
      else if e.ProductNotFound? then Effect(st, cache, Some(ServiceErr.ProductNotFound))
      else if e.InsufficientFunds? then Effect(st, cache, Some(ServiceErr.InsufficientFunds))
      else Effect(st, evicted, None)
    case Ok(next) => Effect(next, evicted, None)
  }

  /** Purchase as evidently intended: an unmapped repository error is returned wrapped,
      like the transfer path does, and leaves the cache alone. */
  function PurchaseProduct(st: Store, cache: Cache, username: string, product: string, faults: set<DbCall>, delFails: bool): (r: Effect)
    ensures r.store == Committed(st, SavePurchase(st, username, product, faults))
    ensures r.err.None? <==> SavePurchase(st, username, product, faults).Ok?
    ensures r.err == Some(CustomerNotFound) <==> SavePurchase(st, username, product, faults) == Err(RepoErr.UserNotFound)
    ensures r.err == Some(ServiceErr.ProductNotFound) <==> SavePurchase(st, username, product, faults) == Err(RepoErr.ProductNotFound)
    ensures r.err == Some(ServiceErr.InsufficientFunds) <==> SavePurchase(st, username, product, faults) == Err(RepoErr.InsufficientFunds)
    ensures r.err.Some? || delFails ==> r.cache == cache
    ensures r.err.None? && !delFails ==> CacheKey(username) !in r.cache
    ensures forall k :: k in cache && k != CacheKey(username) ==> k in r.cache && r.cache[k] == cache[k]
  {
    match SavePurchase(st, username, product, faults)
    case Err(e) =>
      if e.UserNotFound? then Effect(st, cache, Some(CustomerNotFound))
      else if e.ProductNotFound? then Effect(st, cache, Some(ServiceErr.ProductNotFound))
      else if e.InsufficientFunds? then Effect(st, cache, Some(ServiceErr.InsufficientFunds))
      else Effect(st, cache, Some(Repo(e)))
    case Ok(next) => Effect(next, Evict(cache, {CacheKey(username)}, delFails), None)
  }

  // ---------------------------------------------------------------- lemmas

  /** A failed eviction never changes what the caller is told, nor the store. */
  lemma EvictionFailureHarmless(st: Store, cache: Cache, sender: string, recipient: string, amount: int, faults: set<DbCall>,
                                username: string, product: string)
    ensures TransferFunds(st, cache, sender, recipient, amount, faults, true).err == TransferFunds(st, cache, sender, recipient, amount, faults, false).err
    ensures TransferFunds(st, cache, sender, recipient, amount, faults, true).store == TransferFunds(st, cache, sender, recipient, amount, faults, false).store
    ensures PurchaseProduct(st, cache, username, product, faults, true).err == PurchaseProduct(st, cache, username, product, faults, false).err
    ensures PurchaseProduct(st, cache, username, product, faults, true).store == PurchaseProduct(st, cache, username, product, faults, false).store
    ensures PurchaseProductAsWritten(st, cache, username, product, faults, true).err ==
      PurchaseProductAsWritten(st, cache, username, product, faults, false).err
    ensures PurchaseProductAsWritten(st, cache, username, product, faults, true).store ==
      PurchaseProductAsWritten(st, cache, username, product, faults, false).store
  {
  }

  /** A missing sender is reported as a missing recipient: the repository uses one
      sentinel for both lookups. */
  lemma MissingSenderReportedAsRecipient(st: Store, cache: Cache, sender: string, recipient: string, amount: int, delFails: bool)
    requires FindUser(st.users, sender).None?
    ensures TransferFunds(st, cache, sender, recipient, amount, {}, delFails) == Effect(st, cache, Some(RecipientNotFound))
  {
  }

  /** As written, any storage failure in the purchase unit of work is reported as success
      and evicts the customer's summary although nothing was bought; the intended version
      reports the failure wrapped and leaves the cache alone. */
  lemma PurchaseFailureReportedAsSuccess(st: Store, cache: Cache, username: string, product: string, faults: set<DbCall>, delFails: bool)
    requires SavePurchase(st, username, product, faults).Err? && SavePurchase(st, username, product, faults).error.DbFailure?
    ensures PurchaseProductAsWritten(st, cache, username, product, faults, delFails) ==
      Effect(st, Evict(cache, {CacheKey(username)}, delFails), None)
    ensures PurchaseProduct(st, cache, username, product, faults, delFails) ==
      Effect(st, cache, Some(Repo(SavePurchase(st, username, product, faults).error)))
  {
  }

  /** A concrete instance: with the transaction failing to begin, the as-written purchase
      reports success and evicts the customer's summary. */
  lemma BeginFailureReportedAsSuccess(st: Store, cache: Cache, username: string, product: string, faults: set<DbCall>)
    requires Begin in faults
    ensures PurchaseProductAsWritten(st, cache, username, product, faults, false) == Effect(st, cache - {CacheKey(username)}, None)
    ensures PurchaseProduct(st, cache, username, product, faults, false) == Effect(st, cache, Some(Repo(DbFailure(Begin))))
  {
    PurchaseFailureReportedAsSuccess(st, cache, username, product, faults, false);
  }

  /** Where the as-written purchase and the intended one differ: exactly on unmapped
      repository errors; on every other outcome they agree. */
  lemma PurchaseVersionsAgreeOnSentinels(st: Store, cache: Cache, username: string, product: string, faults: set<DbCall>, delFails: bool)
    ensures var r := SavePurchase(st, username, product, faults);
      (r.Ok? || !r.error.DbFailure?) <==>
      PurchaseProductAsWritten(st, cache, username, product, faults, delFails) == PurchaseProduct(st, cache, username, product, faults, delFails)
  {
  }
}
