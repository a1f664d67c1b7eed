/** The user service of internal/service/user.go: registration and the read-through
    cached account summary. */
module UserService {
  import opened Wrappers
  import opened DbCalls
  import opened RepoErrs
  import opened ServiceErrs
  import opened Ledger
  import opened Entity
  import opened UserRepository

  /** The summary handed to the HTTP layer, split into incoming and outgoing transfers. */
  datatype Output = Output(balance: int, inventory: seq<Inventory>, transferIn: seq<Entity.Transfer>, transferOut: seq<Entity.Transfer>)

  const EmptyOutput := Output(0, [], [], [])

  /** A cache entry: the JSON of an Output, or bytes that do not decode as one. */
  datatype CacheValue = Snapshot(output: Output) | Undecodable

  type Cache = map<string, CacheValue>

  const KeyPrefix := "user_info:"

  /** The cache key of a user's summary. */
  function CacheKey(username: string): (k: string)
    ensures |k| == |KeyPrefix| + |username|
    ensures k[..|KeyPrefix|] == KeyPrefix && k[|KeyPrefix|..] == username
  {
    KeyPrefix + username
  }

  /** Distinct users never share a cache entry. */
  lemma CacheKeyInjective(a: string, b: string)
    ensures CacheKey(a) == CacheKey(b) <==> a == b
  {
    if CacheKey(a) == CacheKey(b) {
      assert a == CacheKey(a)[|KeyPrefix|..];
    }
  }

  /** The history split for one user: a row the user sent goes out (to the counterparty),
      every other row comes in (from its sender); order within each list is history order. */
  function Partition(ops: seq<Operation>, username: string): (r: (seq<Entity.Transfer>, seq<Entity.Transfer>))
    ensures |r.0| + |r.1| == |ops|
    decreases |ops|
  {
    if ops == [] then ([], [])
    else
      var rest := Partition(ops[..|ops| - 1], username);
      var op := ops[|ops| - 1];
      if op.user == username then (rest.0, rest.1 + [Entity.Transfer(op.counterparty, op.amount)])
      else (rest.0 + [Entity.Transfer(op.user, op.amount)], rest.1)
  }

  /** The summary the service builds from a repository answer. */
  function Summarize(info: Info, username: string): Output {
    var split := Partition(info.operations, username);
    Output(info.balance, info.inventory, split.0, split.1)
  }

  /** What a RetrieveUserInfo call returns, and the cache it leaves behind. */
  datatype Lookup = Lookup(output: Output, err: Option<ServiceErr>, cache: Cache)

  /** A cache hit: the read succeeds and the stored bytes decode. */
  predicate Hit(cache: Cache, username: string, getFails: bool) {
    !getFails && CacheKey(username) in cache && cache[CacheKey(username)].Snapshot?
  }

  /** The read-through lookup: a decodable cache entry is returned as is; otherwise the
      repository answers, its errors come back with an empty summary, and a success is
      written back to the cache (a failed write is only logged). */
  function RetrieveUserInfo(st: Store, cache: Cache, username: string, faults: set<DbCall>, getFails: bool, setFails: bool): (r: Lookup)
    ensures Hit(cache, username, getFails) ==>
      r.err.None? && r.cache == cache && r.output == cache[CacheKey(username)].output
    ensures r.err.Some? ==> r.output == EmptyOutput && r.cache == cache
    ensures r.err == Some(ServiceErr.UserNotFound) <==> !Hit(cache, username, getFails) && GetInfo(st, username, faults) == Err(RepoErr.UserNotFound)
    ensures r.err.Some? ==> GetInfo(st, username, faults).Err?
    ensures r.err.Some? && r.err != Some(ServiceErr.UserNotFound) ==> r.err == Some(Repo(GetInfo(st, username, faults).error))
    ensures !Hit(cache, username, getFails) && r.err.None? ==>
      GetInfo(st, username, faults).Ok? && r.output.balance == GetInfo(st, username, faults).value.balance
    ensures !Hit(cache, username, getFails) && r.err.None? ==>
      r.output == Summarize(GetInfo(st, username, faults).value, username)
    ensures !Hit(cache, username, getFails) && r.err.None? && !setFails ==>
      r.cache == cache[CacheKey(username) := Snapshot(r.output)]
    ensures setFails && r.err.None? ==> r.cache == cache
  {
    var key := CacheKey(username);
    if Hit(cache, username, getFails) then Lookup(cache[key].output, None, cache)
    else
      match GetInfo(st, username, faults)
      case Err(e) =>
        if e.UserNotFound? then Lookup(EmptyOutput, Some(ServiceErr.UserNotFound), cache)
        else Lookup(EmptyOutput, Some(Repo(e)), cache)
      case Ok(info) =>
        var output := Summarize(info, username);
        Lookup(output, None, if setFails then cache else cache[key := Snapshot(output)])
  }

  /** Registration: a taken username maps to the service sentinel, any other repository
      error is passed through wrapped. */
  function CreateUser(st: Store, username: string, password: Bytes, faults: set<DbCall>): (r: Result<Store, ServiceErr>)
    ensures r == Err(ServiceErr.UserAlreadyExists) <==> AddUser(st, username, password, faults) == Err(RepoErr.UserAlreadyExists)
    ensures r.Err? && r.error != ServiceErr.UserAlreadyExists ==> r.error == Repo(DbFailure(InsertUser))
    ensures r.Ok? ==> FindUser(st.users, username).None? && FindUser(r.value.users, username).Some?
    ensures r.Ok? ==> FindUser(r.value.users, username).value.password == password
  {
    match AddUser(st, username, password, faults)
    case Err(e) => if e.UserAlreadyExists? then Err(ServiceErr.UserAlreadyExists) else Err(Repo(e))
    case Ok(next) => Ok(next)
  }

  // ---------------------------------------------------------------- lemmas

  /** The split distributes over concatenation: each list keeps history order. */
  lemma {:induction false} PartitionConcat(a: seq<Operation>, b: seq<Operation>, username: string)
    ensures Partition(a + b, username) ==
      (Partition(a, username).0 + Partition(b, username).0, Partition(a, username).1 + Partition(b, username).1)
    decreases |b|
  {
    if b == [] {
      assert a + b == a;
      var p := Partition(a, username);
      assert Partition(b, username) == ([], []);
      assert p.0 + [] == p.0 && p.1 + [] == p.1;
    } else {
      var init := b[..|b| - 1];
      var last := b[|b| - 1];
      assert (a + b)[..|a + b| - 1] == a + init;
      assert (a + b)[|a + b| - 1] == last;
      PartitionConcat(a, init, username);
      var p, q := Partition(a, username), Partition(init, username);
      assert Partition(b, username) == if last.user == username then (q.0, q.1 + [Entity.Transfer(last.counterparty, last.amount)])
        else (q.0 + [Entity.Transfer(last.user, last.amount)], q.1);
      if last.user == username {
        assert p.1 + (q.1 + [Entity.Transfer(last.counterparty, last.amount)]) == (p.1 + q.1) + [Entity.Transfer(last.counterparty, last.amount)];
      } else {
        assert p.0 + (q.0 + [Entity.Transfer(last.user, last.amount)]) == (p.0 + q.0) + [Entity.Transfer(last.user, last.amount)];
      }
    }
  }

  /** One row lands in exactly one list: out (to the counterparty) when the user sent it,
      in (from the sender) otherwise. */
  lemma PartitionSingle(op: Operation, username: string)
    ensures op.user == username ==> Partition([op], username) == ([], [Entity.Transfer(op.counterparty, op.amount)])
    ensures op.user != username ==> Partition([op], username) == ([Entity.Transfer(op.user, op.amount)], [])
  {
    var ops := [op];
    assert ops[..|ops| - 1] == [];
    assert ops[|ops| - 1] == op;
    var empty: seq<Entity.Transfer> := [];
    assert Partition([], username) == (empty, empty);
    if op.user == username {
      assert Partition(ops, username) == (empty, empty + [Entity.Transfer(op.counterparty, op.amount)]);
      assert empty + [Entity.Transfer(op.counterparty, op.amount)] == [Entity.Transfer(op.counterparty, op.amount)];
    } else {
      assert Partition(ops, username) == (empty + [Entity.Transfer(op.user, op.amount)], empty);
      assert empty + [Entity.Transfer(op.user, op.amount)] == [Entity.Transfer(op.user, op.amount)];
    }
  }

  /** A self-transfer is reported once, as outgoing to oneself, never as incoming. */
  lemma SelfTransferIsOutgoing(ops: seq<Operation>, username: string, amount: int)
    ensures Partition(ops + [Operation(username, username, amount)], username) ==
      (Partition(ops, username).0, Partition(ops, username).1 + [Entity.Transfer(username, amount)])
  {
    PartitionConcat(ops, [Operation(username, username, amount)], username);
    PartitionSingle(Operation(username, username, amount), username);
  }

  /** Every incoming entry names the sender of a row the user did not send, and every
      outgoing entry the counterparty of a row the user sent. */
  lemma {:induction false} PartitionSources(ops: seq<Operation>, username: string)
    ensures forall t :: t in Partition(ops, username).0 ==>
      exists op :: op in ops && op.user != username && t == Entity.Transfer(op.user, op.amount)
    ensures forall t :: t in Partition(ops, username).1 ==>
      exists op :: op in ops && op.user == username && t == Entity.Transfer(op.counterparty, op.amount)
    decreases |ops|
  {
    if ops != [] {
      var init := ops[..|ops| - 1];
      PartitionSources(init, username);
      assert forall op :: op in init ==> op in ops;
      assert ops[|ops| - 1] in ops;
    }
  }

  /** A decodable entry is answered without the repository: even when the store could not
      be read at all. */
  lemma HitIgnoresStore(st: Store, other: Store, cache: Cache, username: string, faults: set<DbCall>, getFails: bool, setFails: bool)
    requires Hit(cache, username, getFails)
    ensures RetrieveUserInfo(st, cache, username, faults, getFails, setFails) ==
      RetrieveUserInfo(other, cache, username, {Begin}, getFails, setFails)
    ensures RetrieveUserInfo(st, cache, username, faults, getFails, setFails).output == cache[CacheKey(username)].output
  {
  }

  /** An undecodable entry or a failed read falls back to the repository, exactly like
      an empty cache, and a successful fallback overwrites the entry. */
  lemma UndecodableFallsBack(st: Store, cache: Cache, username: string, faults: set<DbCall>, getFails: bool, setFails: bool)
    requires getFails || (CacheKey(username) in cache && cache[CacheKey(username)] == Undecodable)
    ensures RetrieveUserInfo(st, cache, username, faults, getFails, setFails).output ==
      RetrieveUserInfo(st, map[], username, faults, false, setFails).output
    ensures RetrieveUserInfo(st, cache, username, faults, getFails, setFails).err ==
      RetrieveUserInfo(st, map[], username, faults, false, setFails).err
  {
  }

  /** After a successful lookup whose write-back did not fail, a second lookup with a
      working cache returns the same summary, whatever the store has become meanwhile. */
  lemma SecondLookupSame(st: Store, later: Store, cache: Cache, username: string, faults: set<DbCall>, faults2: set<DbCall>, getFails: bool, setFails: bool, setFails2: bool)
    requires RetrieveUserInfo(st, cache, username, faults, getFails, setFails).err.None?
    requires Hit(cache, username, getFails) || !setFails
    ensures var first := RetrieveUserInfo(st, cache, username, faults, getFails, setFails);
      RetrieveUserInfo(later, first.cache, username, faults2, false, setFails2) == Lookup(first.output, None, first.cache)
  {
  }

  /** A user the store does not know, with no cache entry, is reported as not found. */
  lemma UnknownUserNotFound(st: Store, cache: Cache, username: string, getFails: bool, setFails: bool)
    requires FindUser(st.users, username).None?
    requires !Hit(cache, username, getFails)
    ensures RetrieveUserInfo(st, cache, username, {}, getFails, setFails) == Lookup(EmptyOutput, Some(ServiceErr.UserNotFound), cache)
  {
  }
}
