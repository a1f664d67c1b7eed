/** The user repository of internal/repository/pgdb/user.go: creating a user,
    reading credentials, and the read-only account summary query GetInfo. */
module UserRepository {
  import opened Wrappers
  import opened DbCalls
  import opened RepoErrs
  import opened Ledger
  import opened Entity

  /** What GetInfo returns: the balance, the transfer history and the inventory. */
  datatype Info = Info(balance: int, operations: seq<Operation>, inventory: seq<Inventory>)

  /** INSERT INTO users(username, password): the new row takes the next id and the
      column's default balance; a taken username violates the unique constraint (23505). */
  function AddUser(st: Store, username: string, password: Bytes, faults: set<DbCall>): (r: Result<Store, RepoErr>)
    ensures r == Err(UserAlreadyExists) <==> InsertUser !in faults && FindUser(st.users, username).Some?
    ensures r.Err? ==> r.error == UserAlreadyExists || r.error == DbFailure(InsertUser)
    ensures r.Ok? <==> InsertUser !in faults && FindUser(st.users, username).None?
    ensures r.Ok? ==> FindUser(r.value.users, username) == Some(UserRow(st.nextUserId, username, password, st.openingBalance))
    ensures r.Ok? ==> forall name :: name != username ==> FindUser(r.value.users, name) == FindUser(st.users, name)
  {
    if InsertUser in faults then Err(DbFailure(InsertUser))
    else if FindUser(st.users, username).Some? then Err(UserAlreadyExists)
    else
      var row := UserRow(st.nextUserId, username, password, st.openingBalance);
      FindUserAppend(st.users, row, username);
      assert forall name :: name != username ==> FindUser(st.users + [row], name) == FindUser(st.users, name) by {
        forall name | name != username ensures FindUser(st.users + [row], name) == FindUser(st.users, name) {
          FindUserAppend(st.users, row, name);
        }
      }
      Ok(st.(users := st.users + [row], nextUserId := st.nextUserId + 1))
  }

  /** SELECT username, password FROM users WHERE username = ...: on any error the
      user returned is the empty one. */
  function GetUserCredentials(st: Store, username: string, faults: set<DbCall>): (r: (User, Option<RepoErr>))
    ensures r.1.Some? ==> r.0 == EmptyUser
    ensures r.1 == Some(UserNotFound) <==> SelectUser !in faults && FindUser(st.users, username).None?
    ensures r.1.Some? ==> r.1 == Some(UserNotFound) || r.1 == Some(DbFailure(SelectUser))
    ensures r.1.None? ==> exists row :: row in st.users && row.username == username && r.0 == User(username, row.password)
  {
    if SelectUser in faults then (EmptyUser, Some(DbFailure(SelectUser)))
    else
      match FindUser(st.users, username)
      case None => (EmptyUser, Some(UserNotFound))
      case Some(row) => (User(row.username, row.password), None)
  }

  // ---------------------------------------------------------------- history

  /** The counterparty's name a log row joins to (NULL for a purchase row). */
  function CounterpartyName(users: seq<UserRow>, op: OperationRow): Option<string> {
    if op.counterpartyId.Some? then NameOf(users, op.counterpartyId.value) else None
  }

  /** The history query's WHERE clause: a transfer row whose actor or counterparty
      joins to name. A NULL join compares as unknown, never as equal. */
  predicate Involves(users: seq<UserRow>, op: OperationRow, name: string) {
    op.kind.Transfer? && (NameOf(users, op.userId) == Some(name) || CounterpartyName(users, op) == Some(name))
  }

  /** Scanning the joined row into (user, counterparty, amount); a NULL name fails the scan. */
  function ScanRow(users: seq<UserRow>, op: OperationRow): Option<Operation> {
    var actor := NameOf(users, op.userId);
    var party := CounterpartyName(users, op);
    if actor.Some? && party.Some? then Some(Operation(actor.value, party.value, op.amount)) else None
  }

  /** The rows the history query returns for name, in log order. */
  function TransferHistory(users: seq<UserRow>, ops: seq<OperationRow>, name: string): (r: Result<seq<Operation>, RepoErr>)
    ensures r.Err? ==> r.error == DbFailure(SelectOperations)
    ensures r.Ok? ==> |r.value| <= |ops|
    ensures r.Ok? ==> forall e :: e in r.value ==> e.user == name || e.counterparty == name
    decreases |ops|
  {
    if ops == [] then Ok([])
    else
      var last := ops[|ops| - 1];
      match TransferHistory(users, ops[..|ops| - 1], name)
      case Err(e) => Err(e)
      case Ok(rows) =>
        if !Involves(users, last, name) then Ok(rows)
        else if ScanRow(users, last).None? then Err(DbFailure(SelectOperations))
        else Ok(rows + [ScanRow(users, last).value])
  }

  /** The history the query should produce, read off the log from the front: the
      scanned row of every transfer that involves name, in log order. */
  function Involved(users: seq<UserRow>, ops: seq<OperationRow>, name: string): (r: seq<Operation>)
    ensures |r| <= |ops|
  {
    if ops == [] then []
    else if Involves(users, ops[0], name) && ScanRow(users, ops[0]).Some? then
      [ScanRow(users, ops[0]).value] + Involved(users, ops[1..], name)
    else Involved(users, ops[1..], name)
  }

  /** The inventory query for a user id: (product name, quantity) per line whose product
      exists, in table order. */
  function InventoryOf(inv: seq<InventoryRow>, products: seq<ProductRow>, userId: int): (r: seq<Inventory>)
    ensures |r| <= |inv|
    ensures forall item :: item in r ==> exists row :: (row in inv && row.userId == userId
      && ProductName(products, row.productId) == Some(item.product) && row.quantity == item.quantity)
  {
    if inv == [] then []
    else
      var rest := InventoryOf(inv[1..], products, userId);
      var name := ProductName(products, inv[0].productId);
      if inv[0].userId == userId && name.Some? then [Inventory(name.value, inv[0].quantity)] + rest
      else rest
  }

  /** The account summary query, one read-only unit of work: balance, then transfer
      history, then inventory. */
  function GetInfo(st: Store, username: string, faults: set<DbCall>): (r: Result<Info, RepoErr>)
    ensures r == Err(UserNotFound) <==>
      Begin !in faults && SelectUser !in faults && FindUser(st.users, username).None?
    ensures r.Ok? ==> FindUser(st.users, username).Some? && r.value.balance == FindUser(st.users, username).value.balance
    ensures r.Ok? <==> (Begin !in faults && SelectUser !in faults && SelectOperations !in faults &&
      SelectInventory !in faults && Commit !in faults &&
      FindUser(st.users, username).Some? && TransferHistory(st.users, st.operations, username).Ok?)
    ensures r.Ok? ==> r.value.operations == TransferHistory(st.users, st.operations, username).value
    ensures r.Ok? ==> r.value.inventory == InventoryOf(st.inventory, st.products, FindUser(st.users, username).value.id)
  {
    if Begin in faults then Err(DbFailure(Begin))
    else if SelectUser in faults then Err(DbFailure(SelectUser))
    else
      match FindUser(st.users, username)
      case None => Err(UserNotFound)
      case Some(row) =>
        if SelectOperations in faults then Err(DbFailure(SelectOperations))
        else
          match TransferHistory(st.users, st.operations, username)
          case Err(e) => Err(e)
          case Ok(history) =>
            if SelectInventory in faults then Err(DbFailure(SelectInventory))
            else if Commit in faults then Err(DbFailure(Commit))
            else Ok(Info(row.balance, history, InventoryOf(st.inventory, st.products, row.id)))
  }

  // ---------------------------------------------------------------- lemmas

  /** Every transfer row of the log names users that exist (the log's foreign keys). */
  ghost predicate LogIntegrity(users: seq<UserRow>, ops: seq<OperationRow>) {
    forall i :: 0 <= i < |ops| && ops[i].kind.Transfer? ==> ScanRow(users, ops[i]).Some?
  }

  /** Appending one row to the log: the recursion step of the history, from the right. */
  lemma HistoryAppend(users: seq<UserRow>, ops: seq<OperationRow>, op: OperationRow, name: string)
    ensures TransferHistory(users, ops + [op], name) ==
      match TransferHistory(users, ops, name)
      case Err(e) => Err(e)
      case Ok(rows) =>
        if !Involves(users, op, name) then Ok(rows)
        else if ScanRow(users, op).None? then Err(DbFailure(SelectOperations))
        else Ok(rows + [ScanRow(users, op).value])
  {
    assert (ops + [op])[..|ops + [op]| - 1] == ops;
  }

  /** The reference history grows at the back the same way. */
  lemma {:induction false} InvolvedAppend(users: seq<UserRow>, ops: seq<OperationRow>, op: OperationRow, name: string)
    ensures Involved(users, ops + [op], name) == Involved(users, ops, name) +
      (if Involves(users, op, name) && ScanRow(users, op).Some? then [ScanRow(users, op).value] else [])
  {
    if ops == [] {
      assert [] + [op] == [op];
      assert [op][1..] == [];
    } else {
      assert (ops + [op])[0] == ops[0];
      assert (ops + [op])[1..] == ops[1..] + [op];
      InvolvedAppend(users, ops[1..], op, name);
    }
  }

  /** The scan fails exactly when some transfer row involving the user joins to a
      missing user: a NULL name cannot be scanned into a string. */
  lemma {:induction false} HistoryFailsExactly(users: seq<UserRow>, ops: seq<OperationRow>, name: string)
    ensures TransferHistory(users, ops, name).Err? <==>
      exists i :: 0 <= i < |ops| && Involves(users, ops[i], name) && ScanRow(users, ops[i]).None?
    decreases |ops|
  {
    if ops != [] {
      var init := ops[..|ops| - 1];
      var last := ops[|ops| - 1];
      HistoryFailsExactly(users, init, name);
      if TransferHistory(users, ops, name).Err? {
        if TransferHistory(users, init, name).Err? {
          var i :| 0 <= i < |init| && Involves(users, init[i], name) && ScanRow(users, init[i]).None?;
          assert ops[i] == init[i];
        } else {
          assert Involves(users, ops[|ops| - 1], name) && ScanRow(users, ops[|ops| - 1]).None?;
        }
      } else {
        forall i | 0 <= i < |ops| ensures !(Involves(users, ops[i], name) && ScanRow(users, ops[i]).None?) {
          if i < |init| {
            assert ops[i] == init[i];
          }
        }
      }
    }
  }

  /** Whenever the scan succeeds, the history is exactly the reference history: every
      involved transfer row once, in log order, and nothing else. */
  lemma {:induction false} HistoryIsInvolved(users: seq<UserRow>, ops: seq<OperationRow>, name: string)
    ensures TransferHistory(users, ops, name).Ok? ==> TransferHistory(users, ops, name).value == Involved(users, ops, name)
    decreases |ops|
  {
    if ops != [] {
      var init := ops[..|ops| - 1];
      var last := ops[|ops| - 1];
      assert ops == init + [last];
      HistoryIsInvolved(users, init, name);
      InvolvedAppend(users, init, last, name);
    }
  }

  /** The history of a concatenated log is the concatenation of the two histories: the
      query keeps log order. */
  lemma {:induction false} HistoryConcat(users: seq<UserRow>, a: seq<OperationRow>, b: seq<OperationRow>, name: string)
    requires TransferHistory(users, a, name).Ok? && TransferHistory(users, b, name).Ok?
    ensures TransferHistory(users, a + b, name) ==
      Ok(TransferHistory(users, a, name).value + TransferHistory(users, b, name).value)
    decreases |b|
  {
    if b == [] {
      assert a + b == a;
      assert TransferHistory(users, b, name).value == [];
      assert TransferHistory(users, a, name).value + [] == TransferHistory(users, a, name).value;
    } else {
      var init := b[..|b| - 1];
      var last := b[|b| - 1];
      assert b == init + [last];
      assert a + b == (a + init) + [last];
      HistoryAppend(users, init, last, name);
      var ha := TransferHistory(users, a, name).value;
      var hi := TransferHistory(users, init, name).value;
      HistoryConcat(users, a, init, name);
      HistoryAppend(users, a + init, last, name);
      if Involves(users, last, name) {
        var x := ScanRow(users, last).value;
        assert TransferHistory(users, b, name).value == hi + [x];
        assert TransferHistory(users, a + b, name) == Ok((ha + hi) + [x]);
        assert (ha + hi) + [x] == ha + (hi + [x]);
      }
    }
  }

  /** With the log's foreign keys intact, the scan never fails and the history is exactly
      the reference history. */
  lemma HistoryExact(users: seq<UserRow>, ops: seq<OperationRow>, name: string)
    requires LogIntegrity(users, ops)
    ensures TransferHistory(users, ops, name) == Ok(Involved(users, ops, name))
  {
    HistoryFailsExactly(users, ops, name);
    HistoryIsInvolved(users, ops, name);
    forall i | 0 <= i < |ops| && Involves(users, ops[i], name) ensures ScanRow(users, ops[i]).Some? {
    }
  }

  /** The reference history holds the scanned row of every involved transfer that scans,
      and nothing else (no purchase row). */
  lemma {:induction false} InvolvedMembers(users: seq<UserRow>, ops: seq<OperationRow>, name: string)
    ensures forall i :: 0 <= i < |ops| && Involves(users, ops[i], name) && ScanRow(users, ops[i]).Some? ==>
      ScanRow(users, ops[i]).value in Involved(users, ops, name)
    ensures forall e :: e in Involved(users, ops, name) ==>
      exists i :: 0 <= i < |ops| && ops[i].kind.Transfer? && Involves(users, ops[i], name) && ScanRow(users, ops[i]) == Some(e)
  {
    if ops != [] {
      var tail := ops[1..];
      InvolvedMembers(users, tail, name);
      forall i | 0 <= i < |ops| && Involves(users, ops[i], name) && ScanRow(users, ops[i]).Some?
        ensures ScanRow(users, ops[i]).value in Involved(users, ops, name)
      {
        if i > 0 {
          assert ops[i] == tail[i - 1];
        }
      }
      forall e | e in Involved(users, ops, name)
        ensures exists i :: 0 <= i < |ops| && ops[i].kind.Transfer? && Involves(users, ops[i], name) && ScanRow(users, ops[i]) == Some(e)
      {
        if e in Involved(users, tail, name) {
          var j :| 0 <= j < |tail| && tail[j].kind.Transfer? && Involves(users, tail[j], name) && ScanRow(users, tail[j]) == Some(e);
          assert ops[j + 1] == tail[j];
        } else {
          assert Involves(users, ops[0], name) && ScanRow(users, ops[0]) == Some(e);
        }
      }
    }
  }

  /** With the log's foreign keys intact, the history contains every transfer row that
      involves the user, and nothing else. */
  lemma HistoryMembers(users: seq<UserRow>, ops: seq<OperationRow>, name: string)
    requires LogIntegrity(users, ops)
    ensures TransferHistory(users, ops, name).Ok?
    ensures forall i :: 0 <= i < |ops| && Involves(users, ops[i], name) ==>
      ScanRow(users, ops[i]).value in TransferHistory(users, ops, name).value
    ensures forall e :: e in TransferHistory(users, ops, name).value ==>
      exists i :: 0 <= i < |ops| && ops[i].kind.Transfer? && Involves(users, ops[i], name) && ScanRow(users, ops[i]) == Some(e)
  {
    HistoryExact(users, ops, name);
    InvolvedMembers(users, ops, name);
  }

  /** Every line of the user whose product exists shows up in the inventory result. */
  lemma {:induction false} InventoryComplete(inv: seq<InventoryRow>, products: seq<ProductRow>, userId: int)
    ensures forall i :: 0 <= i < |inv| && inv[i].userId == userId && ProductName(products, inv[i].productId).Some? ==>
      Inventory(ProductName(products, inv[i].productId).value, inv[i].quantity) in InventoryOf(inv, products, userId)
  {
    if inv != [] {
      InventoryComplete(inv[1..], products, userId);
      forall i | 0 <= i < |inv| && inv[i].userId == userId && ProductName(products, inv[i].productId).Some?
        ensures Inventory(ProductName(products, inv[i].productId).value, inv[i].quantity) in InventoryOf(inv, products, userId)
      {
        if i > 0 {
          assert inv[i] == inv[1..][i - 1];
        }
      }
    }
  }

  /** With the log's foreign keys intact and no storage fault, an existing user's summary
      is the stored balance, the reference history and the inventory query's lines. */
  lemma GetInfoExact(st: Store, username: string)
    requires LogIntegrity(st.users, st.operations)
    requires FindUser(st.users, username).Some?
    ensures GetInfo(st, username, {}) == Ok(Info(
      FindUser(st.users, username).value.balance,
      Involved(st.users, st.operations, username),
      InventoryOf(st.inventory, st.products, FindUser(st.users, username).value.id)))
  {
    HistoryExact(st.users, st.operations, username);
  }

  /** A user with no transfers and no inventory lines gets the balance and two empty lists. */
  lemma GetInfoEmptyAccount(st: Store, username: string)
    requires FindUser(st.users, username).Some?
    requires forall i :: 0 <= i < |st.operations| ==> !Involves(st.users, st.operations[i], username)
    requires forall i :: 0 <= i < |st.inventory| ==> st.inventory[i].userId != FindUser(st.users, username).value.id
    ensures GetInfo(st, username, {}) == Ok(Info(FindUser(st.users, username).value.balance, [], []))
  {
    HistoryOfNoInvolvement(st.users, st.operations, username);
    InventoryOfNoLines(st.inventory, st.products, FindUser(st.users, username).value.id);
  }

  lemma {:induction false} HistoryOfNoInvolvement(users: seq<UserRow>, ops: seq<OperationRow>, name: string)
    requires forall i :: 0 <= i < |ops| ==> !Involves(users, ops[i], name)
    ensures TransferHistory(users, ops, name) == Ok([])
    decreases |ops|
  {
    if ops != [] {
      var init := ops[..|ops| - 1];
      assert forall i :: 0 <= i < |init| ==> init[i] == ops[i];
      HistoryOfNoInvolvement(users, init, name);
    }
  }

  lemma {:induction false} InventoryOfNoLines(inv: seq<InventoryRow>, products: seq<ProductRow>, userId: int)
    requires forall i :: 0 <= i < |inv| ==> inv[i].userId != userId
    ensures InventoryOf(inv, products, userId) == []
  {
    if inv != [] {
      assert forall i :: 0 <= i < |inv[1..]| ==> inv[1..][i] == inv[i + 1];
      InventoryOfNoLines(inv[1..], products, userId);
    }
  }

  /** The inventory result of another user is unaffected by a purchase's upsert. */
  lemma {:induction false} InventoryOfAfterUpsert(inv: seq<InventoryRow>, products: seq<ProductRow>, buyer: int, productId: int, userId: int)
    requires userId != buyer
    ensures InventoryOf(Upsert(inv, buyer, productId), products, userId) == InventoryOf(inv, products, userId)
  {
    if inv == [] {
    } else if inv[0].userId == buyer && inv[0].productId == productId {
      assert Upsert(inv, buyer, productId)[1..] == inv[1..];
    } else {
      assert Upsert(inv, buyer, productId)[1..] == Upsert(inv[1..], buyer, productId);
      InventoryOfAfterUpsert(inv[1..], products, buyer, productId, userId);
    }
  }
}
