/** Cache coherence: every decodable summary in the cache is the summary the store
    currently implies. Lookups keep this, and so do transfers and purchases whose
    eviction succeeds, because they evict exactly the users whose summaries change. */
module CacheCoherence {
  import opened Wrappers
  import opened DbCalls
  import opened RepoErrs
  import opened Ledger
  import opened UserRepository
  import opened OperationRepository
  import opened UserService
  import opened OperationService

  /** The summary a fault-free read of the store yields for a user, if it exists. */
  function Fresh(st: Store, username: string): Option<Output> {
    match GetInfo(st, username, {})
    case Ok(info) => Some(Summarize(info, username))
    case Err(_) => None
  }

  /** No cached summary is stale. Undecodable entries are harmless: they read as a miss. */
  ghost predicate Coherent(st: Store, cache: Cache) {
    forall u {:trigger CacheKey(u)} :: CacheKey(u) in cache && cache[CacheKey(u)].Snapshot? ==>
      Fresh(st, u) == Some(cache[CacheKey(u)].output)
  }

  // ---------------------------------------------------------------- lookups

  /** Storage faults only make the summary query fail; they never change its answer. */
  lemma GetInfoFaultsOnlyFail(st: Store, username: string, faults: set<DbCall>)
    requires GetInfo(st, username, faults).Ok?
    ensures GetInfo(st, username, faults) == GetInfo(st, username, {})
  {
  }

  /** Under coherence a successful lookup, from the cache or not, returns exactly the
      summary the store implies, and the cache it leaves is coherent too. */
  lemma LookupIsFresh(st: Store, cache: Cache, username: string, faults: set<DbCall>, getFails: bool, setFails: bool)
    requires Coherent(st, cache)
    ensures var r := RetrieveUserInfo(st, cache, username, faults, getFails, setFails);
      r.err.None? ==> Some(r.output) == Fresh(st, username)
    ensures Coherent(st, RetrieveUserInfo(st, cache, username, faults, getFails, setFails).cache)
  {
    var r := RetrieveUserInfo(st, cache, username, faults, getFails, setFails);
    if !Hit(cache, username, getFails) && r.err.None? {
      GetInfoFaultsOnlyFail(st, username, faults);
    }
    forall v | CacheKey(v) in r.cache && r.cache[CacheKey(v)].Snapshot?
      ensures Fresh(st, v) == Some(r.cache[CacheKey(v)].output)
    {
      CacheKeyInjective(username, v);
    }
  }

  // ---------------------------------------------------------------- writes

  /** The history query reads the users table only through the id-to-name join. */
  lemma {:induction false} HistoryUnderSameNames(a: seq<UserRow>, b: seq<UserRow>, ops: seq<OperationRow>, username: string)
    requires SameNames(a, b)
    ensures TransferHistory(b, ops, username) == TransferHistory(a, ops, username)
    decreases |ops|
  {
    if ops != [] {
      HistoryUnderSameNames(a, b, ops[..|ops| - 1], username);
      var last := ops[|ops| - 1];
      assert NameOf(a, last.userId) == NameOf(b, last.userId);
      assert CounterpartyName(a, last) == CounterpartyName(b, last);
    }
  }

  /** With the log's foreign keys intact, a users table that keeps every existing join
      (and may add new ids) yields the same history. */
  lemma {:induction false} HistoryUnderKeptJoins(a: seq<UserRow>, b: seq<UserRow>, ops: seq<OperationRow>, username: string)
    requires LogIntegrity(a, ops)
    requires forall id :: NameOf(a, id).Some? ==> NameOf(b, id) == NameOf(a, id)
    ensures TransferHistory(b, ops, username) == TransferHistory(a, ops, username)
    decreases |ops|
  {
    if ops != [] {
      var init := ops[..|ops| - 1];
      var last := ops[|ops| - 1];
      assert LogIntegrity(a, init) by {
        forall i | 0 <= i < |init| && init[i].kind.Transfer? ensures ScanRow(a, init[i]).Some? {
          assert init[i] == ops[i];
        }
      }
      HistoryUnderKeptJoins(a, b, init, username);
      if last.kind.Transfer? {
        assert ScanRow(a, last).Some?;
        assert NameOf(b, last.userId) == NameOf(a, last.userId);
        assert CounterpartyName(b, last) == CounterpartyName(a, last);
      }
    }
  }

  /** A balance update by another user's id leaves the row a name finds unchanged. */
  lemma FindUserAfterOtherUpdate(users: seq<UserRow>, id: int, delta: int, name: string)
    requires FindUser(users, name).None? || FindUser(users, name).value.id != id
    ensures FindUser(UpdateBalance(users, id, delta), name) == FindUser(users, name)
  {
    FindUserAfterUpdate(users, id, delta, name);
  }

  /** A committed transfer leaves every third user's summary exactly as it was. */
  lemma TransferLeavesOthersInfo(st: Store, sender: string, recipient: string, amount: int, faults: set<DbCall>, other: string)
    requires UniqueUsers(st.users)
    requires SaveTransfer(st, sender, recipient, amount, faults).Ok?
    requires other != sender && other != recipient
    ensures GetInfo(SaveTransfer(st, sender, recipient, amount, faults).value, other, {}) == GetInfo(st, other, {})
  {
    TransferCommitted(st, sender, recipient, amount, faults);
    var s := FindUser(st.users, sender).value;
    var t := FindUser(st.users, recipient).value;
    var debited := UpdateBalance(st.users, s.id, Withdrawal(amount));
    var moved := UpdateBalance(debited, t.id, amount);
    assert moved == Moved(st.users, sender, recipient, amount);
    if FindUser(st.users, other).Some? {
      DistinctNamesDistinctIds(st.users, other, sender);
      DistinctNamesDistinctIds(st.users, other, recipient);
    }
    FindUserAfterOtherUpdate(st.users, s.id, Withdrawal(amount), other);
    FindUserAfterOtherUpdate(debited, t.id, amount, other);
    UpdateKeepsNames(st.users, s.id, Withdrawal(amount));
    UpdateKeepsNames(debited, t.id, amount);
    assert SameNames(st.users, moved);
    HistoryUnderSameNames(st.users, moved, st.operations, other);
    var record := TransferRecord(s.id, amount, t.id);
    NameOfFoundUser(st.users, sender);
    NameOfFoundUser(st.users, recipient);
    assert NameOf(moved, s.id) == Some(sender);
    assert NameOf(moved, t.id) == Some(recipient);
    assert !Involves(moved, record, other);
    HistoryAppend(moved, st.operations, record, other);
  }

  /** A committed purchase leaves every other user's summary exactly as it was. */
  lemma PurchaseLeavesOthersInfo(st: Store, username: string, product: string, faults: set<DbCall>, other: string)
    requires UniqueUsers(st.users)
    requires SavePurchase(st, username, product, faults).Ok?
    requires other != username
    ensures GetInfo(SavePurchase(st, username, product, faults).value, other, {}) == GetInfo(st, other, {})
  {
    PurchaseCommitted(st, username, product, faults);
    var u := FindUser(st.users, username).value;
    var item := FindProduct(st.products, product).value;
    var debited := UpdateBalance(st.users, u.id, Withdrawal(item.price));
    if FindUser(st.users, other).Some? {
      DistinctNamesDistinctIds(st.users, other, username);
      InventoryOfAfterUpsert(st.inventory, st.products, u.id, item.id, FindUser(st.users, other).value.id);
    }
    FindUserAfterOtherUpdate(st.users, u.id, Withdrawal(item.price), other);
    UpdateKeepsNames(st.users, u.id, Withdrawal(item.price));
    HistoryUnderSameNames(st.users, debited, st.operations, other);
    HistoryAppend(debited, st.operations, PurchaseRecord(u.id, item.price, item.id), other);
  }

  /** Evicting keys keeps coherence with a new store as long as every user whose entry
      survives reads the same in both stores. */
  lemma EvictionRestoresCoherence(st: Store, next: Store, cache: Cache, evicted: set<string>)
    requires Coherent(st, cache)
    requires forall u {:trigger CacheKey(u)} :: CacheKey(u) !in evicted ==> GetInfo(next, u, {}) == GetInfo(st, u, {})
    ensures Coherent(next, Evict(cache, evicted, false))
  {
  }

  /** A transfer whose eviction succeeds keeps the cache coherent. */
  lemma TransferKeepsCoherent(st: Store, cache: Cache, sender: string, recipient: string, amount: int, faults: set<DbCall>)
    requires UniqueUsers(st.users)
    requires Coherent(st, cache)
    ensures var e := TransferFunds(st, cache, sender, recipient, amount, faults, false);
      Coherent(e.store, e.cache)
  {
    var r := SaveTransfer(st, sender, recipient, amount, faults);
    if r.Ok? {
      forall u {:trigger CacheKey(u)} | CacheKey(u) !in {CacheKey(sender), CacheKey(recipient)}
        ensures GetInfo(r.value, u, {}) == GetInfo(st, u, {})
      {
        TransferLeavesOthersInfo(st, sender, recipient, amount, faults, u);
      }
      EvictionRestoresCoherence(st, r.value, cache, {CacheKey(sender), CacheKey(recipient)});
    }
  }

  /** A purchase whose eviction succeeds keeps the cache coherent. */
  lemma PurchaseKeepsCoherent(st: Store, cache: Cache, username: string, product: string, faults: set<DbCall>)
    requires UniqueUsers(st.users)
    requires Coherent(st, cache)
    ensures var e := PurchaseProduct(st, cache, username, product, faults, false);
      Coherent(e.store, e.cache)
  {
    var r := SavePurchase(st, username, product, faults);
    if r.Ok? {
      forall u {:trigger CacheKey(u)} | CacheKey(u) !in {CacheKey(username)}
        ensures GetInfo(r.value, u, {}) == GetInfo(st, u, {})
      {
        PurchaseLeavesOthersInfo(st, username, product, faults, u);
      }
      EvictionRestoresCoherence(st, r.value, cache, {CacheKey(username)});
    }
  }

  /** The purchase service as written keeps the cache coherent as well: on the
      fall-through it evicts a summary that did not change. */
  lemma PurchaseAsWrittenKeepsCoherent(st: Store, cache: Cache, username: string, product: string, faults: set<DbCall>)
    requires UniqueUsers(st.users)
    requires Coherent(st, cache)
    ensures var e := PurchaseProductAsWritten(st, cache, username, product, faults, false);
      Coherent(e.store, e.cache)
  {
    var r := SavePurchase(st, username, product, faults);
    if r.Ok? {
      PurchaseKeepsCoherent(st, cache, username, product, faults);
    } else {
      EvictionRestoresCoherence(st, st, cache, {CacheKey(username)});
    }
  }

  /** Registration keeps the cache coherent without evicting anything: the new user had
      no decodable entry (it did not exist), and every other summary is unchanged. */
  lemma AddUserKeepsCoherent(st: Store, cache: Cache, username: string, password: Bytes, faults: set<DbCall>)
    requires LogIntegrity(st.users, st.operations)
    requires Coherent(st, cache)
    ensures Coherent(Committed(st, AddUser(st, username, password, faults)), cache)
    ensures CreateUser(st, username, password, faults).Ok? ==> Coherent(CreateUser(st, username, password, faults).value, cache)
  {
    if AddUser(st, username, password, faults).Ok? {
      var row := UserRow(st.nextUserId, username, password, st.openingBalance);
      var users := st.users + [row];
      var next := AddUser(st, username, password, faults).value;
      assert next == st.(users := users, nextUserId := st.nextUserId + 1);
      forall id | NameOf(st.users, id).Some? ensures NameOf(users, id) == NameOf(st.users, id) {
        NameOfAppend(st.users, row, id);
      }
      forall u {:trigger CacheKey(u)} | CacheKey(u) in cache && cache[CacheKey(u)].Snapshot?
        ensures Fresh(next, u) == Some(cache[CacheKey(u)].output)
      {
        assert Fresh(st, u) == Some(cache[CacheKey(u)].output);
        assert FindUser(st.users, u).Some?;
        assert u != username;
        HistoryUnderKeptJoins(st.users, users, st.operations, u);
        assert GetInfo(next, u, {}) == GetInfo(st, u, {});
      }
    }
  }
}
