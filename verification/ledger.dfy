/** The ledger store: the four tables the repositories read and write
    (internal/repository/pgdb), each as a sequence of rows in insertion order.
    A query by a column returns the first matching row, as `QueryRow` does. */
module Ledger {
  import opened Wrappers

  type Bytes = seq<bv8>

  /** operations.type, internal/model/operation.go */
  datatype OperationKind = Transfer | Purchase {

    /** The text the column holds for this kind. */
    function Tag(): string {
      match this
      case Transfer => "transfer"
      case Purchase => "purchase"
    }
  }

  /** The two tags are distinct, so a row's kind is determined by its column text. */
  lemma TagInjective(j: OperationKind, k: OperationKind)
    ensures j.Tag() == k.Tag() <==> j == k
  {
    if j != k {
      assert j.Tag()[0] != k.Tag()[0];
    }
  }

  datatype UserRow = UserRow(id: int, username: string, password: Bytes, balance: int)

  datatype ProductRow = ProductRow(id: int, name: string, price: int)

  datatype InventoryRow = InventoryRow(userId: int, productId: int, quantity: int)

  /** One row of the append-only operation log. A transfer fills counterpartyId,
      a purchase fills productId; the other column is NULL. */
  datatype OperationRow = OperationRow(
    userId: int,
    amount: int,
    kind: OperationKind,
    counterpartyId: Option<int>,
    productId: Option<int>)

  function TransferRecord(senderId: int, amount: int, recipientId: int): OperationRow {
    OperationRow(senderId, amount, Transfer, Some(recipientId), None)
  }

  function PurchaseRecord(userId: int, price: int, productId: int): OperationRow {
    OperationRow(userId, price, Purchase, None, Some(productId))
  }

  /** The committed database. `nextUserId` is the users.id sequence and
      `openingBalance` the default of users.balance, which the schema supplies. */
  datatype Store = Store(
    users: seq<UserRow>,
    products: seq<ProductRow>,
    inventory: seq<InventoryRow>,
    operations: seq<OperationRow>,
    nextUserId: int,
    openingBalance: int)

  // ---------------------------------------------------------------- users

  /** SELECT ... FROM users WHERE username = name */
  function FindUser(users: seq<UserRow>, name: string): (r: Option<UserRow>)
    ensures r.Some? ==> r.value in users && r.value.username == name
  {
    if users == [] then None
    else if users[0].username == name then Some(users[0])
    else FindUser(users[1..], name)
  }

  /** A lookup by username comes back empty exactly when no row carries the name. */
  lemma {:induction false} FindUserNone(users: seq<UserRow>, name: string)
    ensures FindUser(users, name).None? <==> forall row :: row in users ==> row.username != name
  {
    if users != [] && users[0].username != name {
      FindUserNone(users[1..], name);
      assert forall row :: row in users <==> row == users[0] || row in users[1..];
    }
  }

  function BalanceOf(users: seq<UserRow>, name: string): Option<int> {
    match FindUser(users, name)
    case None => None
    case Some(row) => Some(row.balance)
  }

  /** The username a users.id joins to (NULL when no row has that id). */
  function NameOf(users: seq<UserRow>, id: int): (r: Option<string>)
  {
    if users == [] then None
    else if users[0].id == id then Some(users[0].username)
    else NameOf(users[1..], id)
  }

  /** A join by id finds a row carrying that id and its name, and is NULL exactly
      when no row carries the id. */
  lemma {:induction false} NameOfJoin(users: seq<UserRow>, id: int)
    ensures NameOf(users, id).Some? ==>
      exists row :: row in users && row.id == id && row.username == NameOf(users, id).value
    ensures NameOf(users, id).None? <==> forall row :: row in users ==> row.id != id
  {
    if users != [] && users[0].id != id {
      NameOfJoin(users[1..], id);
      assert forall row :: row in users <==> row == users[0] || row in users[1..];
    }
  }

  function Adjust(row: UserRow, id: int, delta: int): UserRow {
    if row.id == id then row.(balance := row.balance + delta) else row
  }

  /** The delta of `balance - amount`, the debit statement. */
  function Withdrawal(amount: int): int {
    0 - amount
  }

  /** UPDATE users SET balance = balance + delta WHERE id = id */
  function UpdateBalance(users: seq<UserRow>, id: int, delta: int): (r: seq<UserRow>)
    ensures |r| == |users|
  {
    if users == [] then []
    else [Adjust(users[0], id, delta)] + UpdateBalance(users[1..], id, delta)
  }

  /** Rows i and j of the users table differ in id and in username. */
  ghost predicate UsersDiffer(users: seq<UserRow>, i: int, j: int) {
    0 <= i < |users| && 0 <= j < |users| &&
    users[i].id != users[j].id && users[i].username != users[j].username
  }

  /** The users table's primary key and its unique username constraint. */
  ghost predicate UniqueUsers(users: seq<UserRow>) {
    forall i, j {:trigger UsersDiffer(users, i, j)} ::
      0 <= i < |users| && 0 <= j < |users| && i != j ==> UsersDiffer(users, i, j)
  }

  ghost predicate NonNegativeBalances(users: seq<UserRow>) {
    forall i :: 0 <= i < |users| ==> users[i].balance >= 0
  }

  /** Sum of all balances: the coins in circulation. */
  function TotalBalance(users: seq<UserRow>): int {
    if users == [] then 0 else users[0].balance + TotalBalance(users[1..])
  }

  function CountId(users: seq<UserRow>, id: int): nat {
    if users == [] then 0 else (if users[0].id == id then 1 else 0) + CountId(users[1..], id)
  }

  // ---------------------------------------------------------------- products

  /** SELECT id, price FROM products WHERE name = name */
  function FindProduct(products: seq<ProductRow>, name: string): (r: Option<ProductRow>)
    ensures r.Some? ==> r.value in products && r.value.name == name
    ensures r.None? <==> forall row :: row in products ==> row.name != name
  {
    if products == [] then None
    else if products[0].name == name then Some(products[0])
    else FindProduct(products[1..], name)
  }

  /** The product name a products.id joins to. */
  function ProductName(products: seq<ProductRow>, id: int): (r: Option<string>)
    ensures r.Some? ==> exists row :: row in products && row.id == id && row.name == r.value
    ensures r.None? <==> forall row :: row in products ==> row.id != id
  {
    if products == [] then None
    else if products[0].id == id then Some(products[0].name)
    else ProductName(products[1..], id)
  }

  // ---------------------------------------------------------------- inventory

  ghost predicate HasLine(inv: seq<InventoryRow>, userId: int, productId: int) {
    exists i :: 0 <= i < |inv| && inv[i].userId == userId && inv[i].productId == productId
  }

  /** How many of a product a user holds: the quantity on their line, 0 without one. */
  function Quantity(inv: seq<InventoryRow>, userId: int, productId: int): int {
    if inv == [] then 0
    else if inv[0].userId == userId && inv[0].productId == productId then inv[0].quantity
    else Quantity(inv[1..], userId, productId)
  }

  /** INSERT INTO inventory VALUES (userId, productId, 1)
      ON CONFLICT (user_id, product_id) DO UPDATE SET quantity = quantity + 1 */
  function Upsert(inv: seq<InventoryRow>, userId: int, productId: int): (r: seq<InventoryRow>)
    ensures Quantity(r, userId, productId) == Quantity(inv, userId, productId) + 1
    ensures forall u, p :: u != userId || p != productId ==> Quantity(r, u, p) == Quantity(inv, u, p)
    ensures |r| == if HasLine(inv, userId, productId) then |inv| else |inv| + 1
    ensures HasLine(r, userId, productId)
  {
    if inv == [] then [InventoryRow(userId, productId, 1)]
    else if inv[0].userId == userId && inv[0].productId == productId then
      [inv[0].(quantity := inv[0].quantity + 1)] + inv[1..]
    else
      var rest := Upsert(inv[1..], userId, productId);
      assert HasLine(inv, userId, productId) <==> HasLine(inv[1..], userId, productId) by {
        if HasLine(inv[1..], userId, productId) {
          var i :| 0 <= i < |inv[1..]| && inv[1..][i].userId == userId && inv[1..][i].productId == productId;
          assert inv[i + 1] == inv[1..][i];
        }
        if HasLine(inv, userId, productId) {
          var i :| 0 <= i < |inv| && inv[i].userId == userId && inv[i].productId == productId;
          assert inv[1..][i - 1] == inv[i];
        }
      }
      var r := [inv[0]] + rest;
      assert HasLine(r, userId, productId) by {
        var i :| 0 <= i < |rest| && rest[i].userId == userId && rest[i].productId == productId;
        assert r[i + 1] == rest[i];
      }
      r
  }

  /** The inventory table's unique (user_id, product_id) constraint. */
  ghost predicate UniqueLines(inv: seq<InventoryRow>) {
    forall i, j :: 0 <= i < |inv| && 0 <= j < |inv| && i != j ==>
      inv[i].userId != inv[j].userId || inv[i].productId != inv[j].productId
  }

  ghost predicate UniqueProducts(products: seq<ProductRow>) {
    forall i, j :: 0 <= i < |products| && 0 <= j < |products| && i != j ==>
      products[i].id != products[j].id && products[i].name != products[j].name
  }

  /** The constraints the database enforces, and the id sequence staying ahead of every id. */
  ghost predicate WellFormed(st: Store) {
    && UniqueUsers(st.users)
    && UniqueProducts(st.products)
    && UniqueLines(st.inventory)
    && (forall i :: 0 <= i < |st.users| ==> st.users[i].id < st.nextUserId)
  }

  // ---------------------------------------------------------------- lemmas

  /** A balance update leaves the row a name finds in place, changing only its balance. */
  lemma {:induction false} FindUserAfterUpdate(users: seq<UserRow>, id: int, delta: int, name: string)
    ensures FindUser(UpdateBalance(users, id, delta), name) ==
      match FindUser(users, name)
      case None => None
      case Some(row) => Some(Adjust(row, id, delta))
  {
    if users != [] {
      assert UpdateBalance(users, id, delta)[1..] == UpdateBalance(users[1..], id, delta);
      FindUserAfterUpdate(users[1..], id, delta, name);
    }
  }

  /** Balance updates never change which name an id joins to. */
  lemma {:induction false} NameOfAfterUpdate(users: seq<UserRow>, id: int, delta: int, key: int)
    ensures NameOf(UpdateBalance(users, id, delta), key) == NameOf(users, key)
  {
    if users != [] {
      assert UpdateBalance(users, id, delta)[1..] == UpdateBalance(users[1..], id, delta);
      NameOfAfterUpdate(users[1..], id, delta, key);
    }
  }

  /** Two user tables that join every id to the same name. */
  ghost predicate SameNames(a: seq<UserRow>, b: seq<UserRow>) {
    forall id :: NameOf(a, id) == NameOf(b, id)
  }

  /** Balance updates keep every id joined to the same name. */
  lemma UpdateKeepsNames(users: seq<UserRow>, id: int, delta: int)
    ensures SameNames(users, UpdateBalance(users, id, delta))
  {
    forall key ensures NameOf(users, key) == NameOf(UpdateBalance(users, id, delta), key) {
      NameOfAfterUpdate(users, id, delta, key);
    }
  }

  /** Appending a row with a new name: the old names still find their rows, the new
      name finds the new row. */
  lemma {:induction false} FindUserAppend(users: seq<UserRow>, row: UserRow, name: string)
    requires FindUser(users, row.username).None?
    ensures FindUser(users + [row], name) ==
      if name == row.username then Some(row) else FindUser(users, name)
  {
    if users != [] {
      assert (users + [row])[1..] == users[1..] + [row];
      FindUserAppend(users[1..], row, name);
    }
  }

  /** Appending a row never changes the name an existing id joins to. */
  lemma {:induction false} NameOfAppend(users: seq<UserRow>, row: UserRow, id: int)
    requires NameOf(users, id).Some?
    ensures NameOf(users + [row], id) == NameOf(users, id)
  {
    if users[0].id != id {
      assert (users + [row])[1..] == users[1..] + [row];
      NameOfAppend(users[1..], row, id);
    }
  }

  /** With unique ids, the id of the row a name finds joins back to that name. */
  lemma NameOfFoundUser(users: seq<UserRow>, name: string)
    requires UniqueUsers(users)
    requires FindUser(users, name).Some?
    ensures NameOf(users, FindUser(users, name).value.id) == Some(name)
  {
    var row := FindUser(users, name).value;
    var i :| 0 <= i < |users| && users[i] == row;
    var r := NameOf(users, row.id);
    NameOfJoin(users, row.id);
    assert r.Some?;
    var j :| 0 <= j < |users| && users[j].id == row.id && users[j].username == r.value;
    assert i != j ==> UsersDiffer(users, i, j);
  }

  /** Under the primary key, the only row carrying a found row's id is that row. */
  lemma RowOfId(users: seq<UserRow>, row: UserRow, i: int)
    requires UniqueUsers(users) && row in users
    requires 0 <= i < |users| && users[i].id == row.id
    ensures users[i] == row
  {
    var k :| 0 <= k < |users| && users[k] == row;
    assert k != i ==> UsersDiffer(users, k, i);
  }

  /** With unique ids and names, two different names find rows with different ids. */
  lemma DistinctNamesDistinctIds(users: seq<UserRow>, a: string, b: string)
    requires UniqueUsers(users)
    requires FindUser(users, a).Some? && FindUser(users, b).Some? && a != b
    ensures FindUser(users, a).value.id != FindUser(users, b).value.id
  {
    var i :| 0 <= i < |users| && users[i] == FindUser(users, a).value;
    var j :| 0 <= j < |users| && users[j] == FindUser(users, b).value;
    assert UsersDiffer(users, i, j);
  }

  /** Row i after an update by id: same id, name and hash; balance shifted by delta
      exactly when the row carries that id. */
  lemma {:induction false} UpdateBalanceAt(users: seq<UserRow>, id: int, delta: int, i: int)
    requires 0 <= i < |users|
    ensures UpdateBalance(users, id, delta)[i] == Adjust(users[i], id, delta)
  {
    if i > 0 {
      assert UpdateBalance(users, id, delta)[i] == UpdateBalance(users[1..], id, delta)[i - 1];
      UpdateBalanceAt(users[1..], id, delta, i - 1);
    }
  }

  lemma UpdateKeepsUnique(users: seq<UserRow>, id: int, delta: int)
    requires UniqueUsers(users)
    ensures UniqueUsers(UpdateBalance(users, id, delta))
  {
    var r := UpdateBalance(users, id, delta);
    forall i, j | 0 <= i < |r| && 0 <= j < |r| && i != j
      ensures UsersDiffer(r, i, j)
    {
      UpdateBalanceAt(users, id, delta, i);
      UpdateBalanceAt(users, id, delta, j);
      assert UsersDiffer(users, i, j);
    }
  }

  /** The balance a name sees after an update by id: shifted by delta exactly when
      the row it finds carries that id. */
  lemma BalanceAfterUpdate(users: seq<UserRow>, id: int, delta: int, name: string)
    ensures BalanceOf(UpdateBalance(users, id, delta), name) ==
      match FindUser(users, name)
      case None => None
      case Some(row) => Some(if row.id == id then row.balance + delta else row.balance)
  {
    FindUserAfterUpdate(users, id, delta, name);
  }

  /** The users table after moving amount from the row a finds to the row b finds. */
  function Moved(users: seq<UserRow>, a: string, b: string, amount: int): seq<UserRow>
    requires FindUser(users, a).Some? && FindUser(users, b).Some?
  {
    UpdateBalance(UpdateBalance(users, FindUser(users, a).value.id, Withdrawal(amount)),
                  FindUser(users, b).value.id, amount)
  }

  /** Between two different names, a loses exactly amount and b gains exactly amount. */
  lemma MoveBetween(users: seq<UserRow>, a: string, b: string, amount: int)
    requires UniqueUsers(users)
    requires FindUser(users, a).Some? && FindUser(users, b).Some? && a != b
    ensures BalanceOf(Moved(users, a, b, amount), a) == Some(FindUser(users, a).value.balance - amount)
    ensures BalanceOf(Moved(users, a, b, amount), b) == Some(FindUser(users, b).value.balance + amount)
  {
    DistinctNamesDistinctIds(users, a, b);
    MoveBetweenIds(users, a, b, FindUser(users, a).value, FindUser(users, b).value, amount);
  }

  /** The two-row move once the rows are known and their ids differ. */
  lemma MoveBetweenIds(users: seq<UserRow>, a: string, b: string, sa: UserRow, sb: UserRow, amount: int)
    requires FindUser(users, a) == Some(sa) && FindUser(users, b) == Some(sb) && sa.id != sb.id
    ensures BalanceOf(UpdateBalance(UpdateBalance(users, sa.id, Withdrawal(amount)), sb.id, amount), a)
      == Some(sa.balance - amount)
    ensures BalanceOf(UpdateBalance(UpdateBalance(users, sa.id, Withdrawal(amount)), sb.id, amount), b)
      == Some(sb.balance + amount)
  {
    var debited := UpdateBalance(users, sa.id, Withdrawal(amount));
    var moved := UpdateBalance(debited, sb.id, amount);
    var ra := Adjust(Adjust(sa, sa.id, Withdrawal(amount)), sb.id, amount);
    assert Adjust(sa, sa.id, Withdrawal(amount)) == sa.(balance := sa.balance - amount);
    assert ra == sa.(balance := sa.balance - amount);
    assert FindUser(moved, a) == Some(ra) by {
      FindUserAfterUpdate(users, sa.id, Withdrawal(amount), a);
      FindUserAfterUpdate(debited, sb.id, amount, a);
    }
    assert FindUser(moved, b) == Some(Adjust(sb, sb.id, amount)) by {
      FindUserAfterUpdate(users, sa.id, Withdrawal(amount), b);
      FindUserAfterUpdate(debited, sb.id, amount, b);
    }
    BalanceOfFound(moved, a, ra);
    BalanceOfFound(moved, b, Adjust(sb, sb.id, amount));
    assert BalanceOf(moved, a) == Some(sa.balance - amount);
    assert BalanceOf(moved, b) == Some(sb.balance + amount);
  }

  lemma BalanceOfFound(users: seq<UserRow>, name: string, row: UserRow)
    requires FindUser(users, name) == Some(row)
    ensures BalanceOf(users, name) == Some(row.balance)
  {
  }

  /** Moving amount from a name to itself leaves its balance where it was. */
  lemma MoveToSelf(users: seq<UserRow>, a: string, amount: int)
    requires FindUser(users, a).Some?
    ensures BalanceOf(Moved(users, a, a, amount), a) == BalanceOf(users, a)
  {
    var sa := FindUser(users, a).value;
    var debited := UpdateBalance(users, sa.id, Withdrawal(amount));
    MoveOne(users, debited, sa.id, sa.id, amount, a);
  }

  /** Every name other than the two parties keeps its balance. */
  lemma MoveLeavesOthers(users: seq<UserRow>, a: string, b: string, amount: int, other: string)
    requires UniqueUsers(users)
    requires FindUser(users, a).Some? && FindUser(users, b).Some? && other != a && other != b
    ensures BalanceOf(Moved(users, a, b, amount), other) == BalanceOf(users, other)
  {
    var sa := FindUser(users, a).value;
    var sb := FindUser(users, b).value;
    var debited := UpdateBalance(users, sa.id, Withdrawal(amount));
    MoveOne(users, debited, sa.id, sb.id, amount, other);
    if FindUser(users, other).Some? {
      DistinctNamesDistinctIds(users, other, a);
      DistinctNamesDistinctIds(users, other, b);
    }
  }

  /** One name's balance through a debit of sid followed by a credit of rid. */
  lemma MoveOne(users: seq<UserRow>, debited: seq<UserRow>, sid: int, rid: int, amount: int, name: string)
    requires debited == UpdateBalance(users, sid, Withdrawal(amount))
    ensures BalanceOf(UpdateBalance(debited, rid, amount), name) ==
      match FindUser(users, name)
      case None => None
      case Some(row) =>
        Some(row.balance + (if row.id == sid then Withdrawal(amount) else 0) + (if row.id == rid then amount else 0))
  {
    FindUserAfterUpdate(users, sid, Withdrawal(amount), name);
    BalanceAfterUpdate(debited, rid, amount, name);
  }

  /** An update by id changes the coins in circulation by delta once per row with that id. */
  lemma {:induction false} TotalAfterUpdate(users: seq<UserRow>, id: int, delta: int)
    ensures TotalBalance(UpdateBalance(users, id, delta)) == TotalBalance(users) + delta * CountId(users, id)
  {
    if users != [] {
      var r := UpdateBalance(users, id, delta);
      assert r[1..] == UpdateBalance(users[1..], id, delta);
      TotalAfterUpdate(users[1..], id, delta);
    }
  }

  /** Under the primary key, an id that a found row carries occurs exactly once. */
  lemma {:induction false} CountFoundId(users: seq<UserRow>, name: string)
    requires UniqueUsers(users)
    requires FindUser(users, name).Some?
    ensures CountId(users, FindUser(users, name).value.id) == 1
  {
    var id := FindUser(users, name).value.id;
    if users[0].username == name {
      forall k | 0 <= k < |users[1..]| ensures users[1..][k].id != id {
        assert UsersDiffer(users, 0, k + 1);
      }
      CountAbsentId(users[1..], id);
    } else {
      assert UniqueUsers(users[1..]) by {
        forall i, j | 0 <= i < |users[1..]| && 0 <= j < |users[1..]| && i != j
          ensures UsersDiffer(users[1..], i, j)
        {
          assert users[1..][i] == users[i + 1] && users[1..][j] == users[j + 1];
          assert UsersDiffer(users, i + 1, j + 1);
        }
      }
      CountFoundId(users[1..], name);
      var k :| 0 <= k < |users[1..]| && users[1..][k] == FindUser(users[1..], name).value;
      assert UsersDiffer(users, 0, k + 1);
    }
  }

  lemma {:induction false} CountAbsentId(users: seq<UserRow>, id: int)
    requires forall i :: 0 <= i < |users| ==> users[i].id != id
    ensures CountId(users, id) == 0
  {
    if users != [] {
      CountAbsentId(users[1..], id);
    }
  }
}

/** The records the repositories hand back to the services (internal/entity). */
module Entity {
  import opened Ledger

  /** A credentials row: username and bcrypt hash. */
  datatype User = User(username: string, password: Bytes)

  const EmptyUser := User("", [])

  /** One transfer in a user's history, as names joined from the log. */
  datatype Operation = Operation(user: string, counterparty: string, amount: int)

  datatype Inventory = Inventory(product: string, quantity: int)

  /** One entry of the transfers-in or transfers-out list. */
  datatype Transfer = Transfer(username: string, amount: int)
}
