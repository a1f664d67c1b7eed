/** The database's constraints and the log's foreign keys hold in every store the
    writes can commit. */
module Invariants {
  import opened Wrappers
  import opened DbCalls
  import opened RepoErrs
  import opened Ledger
  import opened UserRepository
  import opened OperationRepository

  /** The schema's constraints plus every transfer row joining to existing users. */
  ghost predicate Consistent(st: Store) {
    WellFormed(st) && LogIntegrity(st.users, st.operations)
  }

  // ---------------------------------------------------------------- inventory

  /** Upserting a missing line appends it with quantity 1. */
  lemma {:induction false} UpsertAppends(inv: seq<InventoryRow>, u: int, p: int)
    requires !HasLine(inv, u, p)
    ensures Upsert(inv, u, p) == inv + [InventoryRow(u, p, 1)]
  {
    if inv != [] {
      forall i | 0 <= i < |inv[1..]| ensures !(inv[1..][i].userId == u && inv[1..][i].productId == p) {
        assert inv[1..][i] == inv[i + 1];
      }
      UpsertAppends(inv[1..], u, p);
      assert [inv[0]] + (inv[1..] + [InventoryRow(u, p, 1)]) == inv + [InventoryRow(u, p, 1)];
    }
  }

  /** Upserting an existing line bumps the first line with that key in place. */
  lemma {:induction false} UpsertBumps(inv: seq<InventoryRow>, u: int, p: int, m: int)
    requires 0 <= m < |inv| && inv[m].userId == u && inv[m].productId == p
    requires forall k :: 0 <= k < m ==> !(inv[k].userId == u && inv[k].productId == p)
    ensures Upsert(inv, u, p) == inv[m := inv[m].(quantity := inv[m].quantity + 1)]
  {
    var bumped := inv[m].(quantity := inv[m].quantity + 1);
    if m == 0 {
      assert Upsert(inv, u, p) == [bumped] + inv[1..];
      assert [bumped] + inv[1..] == inv[0 := bumped];
    } else {
      var tail := inv[1..];
      forall k | 0 <= k < m - 1 ensures !(tail[k].userId == u && tail[k].productId == p) {
        assert tail[k] == inv[k + 1];
      }
      assert tail[m - 1] == inv[m];
      UpsertBumps(tail, u, p, m - 1);
      assert Upsert(inv, u, p) == [inv[0]] + Upsert(tail, u, p);
      var lhs := [inv[0]] + tail[m - 1 := bumped];
      assert forall k :: 0 <= k < |inv| ==> lhs[k] == inv[m := bumped][k];
      assert lhs == inv[m := bumped];
    }
  }

  /** The upsert never creates a second line for a (user, product) pair. */
  lemma UpsertKeepsUniqueLines(inv: seq<InventoryRow>, u: int, p: int)
    requires UniqueLines(inv)
    ensures UniqueLines(Upsert(inv, u, p))
  {
    if HasLine(inv, u, p) {
      var m :| 0 <= m < |inv| && inv[m].userId == u && inv[m].productId == p;
      UpsertBumps(inv, u, p, m);
    } else {
      UpsertAppends(inv, u, p);
      var r := inv + [InventoryRow(u, p, 1)];
      forall i, j | 0 <= i < |r| && 0 <= j < |r| && i != j
        ensures r[i].userId != r[j].userId || r[i].productId != r[j].productId
      {
        if i < |inv| && j < |inv| {
          assert r[i] == inv[i] && r[j] == inv[j];
        } else if i < |inv| {
          assert r[i] == inv[i];
        } else if j < |inv| {
          assert r[j] == inv[j];
        }
      }
    }
  }

  // ---------------------------------------------------------------- users

  /** Balance updates keep every id below the id sequence. */
  lemma UpdateKeepsIdsBelow(users: seq<UserRow>, id: int, delta: int, next: int)
    requires forall i :: 0 <= i < |users| ==> users[i].id < next
    ensures forall i :: 0 <= i < |UpdateBalance(users, id, delta)| ==> UpdateBalance(users, id, delta)[i].id < next
  {
    forall i | 0 <= i < |users| ensures UpdateBalance(users, id, delta)[i].id < next {
      UpdateBalanceAt(users, id, delta, i);
    }
  }

  /** A log whose joins are unchanged keeps its foreign keys. */
  lemma IntegrityUnderSameNames(a: seq<UserRow>, b: seq<UserRow>, ops: seq<OperationRow>)
    requires SameNames(a, b) && LogIntegrity(a, ops)
    ensures LogIntegrity(b, ops)
  {
    forall i | 0 <= i < |ops| && ops[i].kind.Transfer? ensures ScanRow(b, ops[i]).Some? {
      assert ScanRow(a, ops[i]).Some?;
      assert NameOf(a, ops[i].userId) == NameOf(b, ops[i].userId);
      assert ops[i].counterpartyId.Some? ==> NameOf(a, ops[i].counterpartyId.value) == NameOf(b, ops[i].counterpartyId.value);
    }
  }

  /** Appending a row that satisfies the foreign keys keeps the log's foreign keys. */
  lemma IntegrityAppend(users: seq<UserRow>, ops: seq<OperationRow>, op: OperationRow)
    requires LogIntegrity(users, ops)
    requires op.kind.Transfer? ==> ScanRow(users, op).Some?
    ensures LogIntegrity(users, ops + [op])
  {
    forall i | 0 <= i < |ops + [op]| && (ops + [op])[i].kind.Transfer? ensures ScanRow(users, (ops + [op])[i]).Some? {
      if i < |ops| {
        assert (ops + [op])[i] == ops[i];
      }
    }
  }

  // ---------------------------------------------------------------- writes

  /** A transfer commits only consistent stores. */
  lemma TransferKeepsConsistent(st: Store, sender: string, recipient: string, amount: int, faults: set<DbCall>)
    requires Consistent(st)
    ensures Consistent(Committed(st, SaveTransfer(st, sender, recipient, amount, faults)))
  {
    if SaveTransfer(st, sender, recipient, amount, faults).Ok? {
      TransferCommitted(st, sender, recipient, amount, faults);
      var s := FindUser(st.users, sender).value;
      var t := FindUser(st.users, recipient).value;
      var debited := UpdateBalance(st.users, s.id, Withdrawal(amount));
      var moved := UpdateBalance(debited, t.id, amount);
      assert moved == Moved(st.users, sender, recipient, amount);
      UpdateKeepsUnique(st.users, s.id, Withdrawal(amount));
      UpdateKeepsUnique(debited, t.id, amount);
      UpdateKeepsIdsBelow(st.users, s.id, Withdrawal(amount), st.nextUserId);
      UpdateKeepsIdsBelow(debited, t.id, amount, st.nextUserId);
      UpdateKeepsNames(st.users, s.id, Withdrawal(amount));
      UpdateKeepsNames(debited, t.id, amount);
      assert SameNames(st.users, moved);
      IntegrityUnderSameNames(st.users, moved, st.operations);
      NameOfFoundUser(st.users, sender);
      NameOfFoundUser(st.users, recipient);
      assert ScanRow(moved, TransferRecord(s.id, amount, t.id)) == Some(Entity.Operation(sender, recipient, amount));
      IntegrityAppend(moved, st.operations, TransferRecord(s.id, amount, t.id));
    }
  }

  /** A purchase commits only consistent stores. */
  lemma PurchaseKeepsConsistent(st: Store, username: string, product: string, faults: set<DbCall>)
    requires Consistent(st)
    ensures Consistent(Committed(st, SavePurchase(st, username, product, faults)))
  {
    if SavePurchase(st, username, product, faults).Ok? {
      PurchaseCommitted(st, username, product, faults);
      var u := FindUser(st.users, username).value;
      var item := FindProduct(st.products, product).value;
      var debited := UpdateBalance(st.users, u.id, Withdrawal(item.price));
      UpdateKeepsUnique(st.users, u.id, Withdrawal(item.price));
      UpdateKeepsIdsBelow(st.users, u.id, Withdrawal(item.price), st.nextUserId);
      UpsertKeepsUniqueLines(st.inventory, u.id, item.id);
      UpdateKeepsNames(st.users, u.id, Withdrawal(item.price));
      IntegrityUnderSameNames(st.users, debited, st.operations);
      IntegrityAppend(debited, st.operations, PurchaseRecord(u.id, item.price, item.id));
    }
  }

  /** Registration commits only consistent stores: the new row's id is fresh and its
      name is not taken. */
  lemma AddUserKeepsConsistent(st: Store, username: string, password: Bytes, faults: set<DbCall>)
    requires Consistent(st)
    ensures Consistent(Committed(st, AddUser(st, username, password, faults)))
  {
    if AddUser(st, username, password, faults).Ok? {
      var row := UserRow(st.nextUserId, username, password, st.openingBalance);
      var users := st.users + [row];
      assert AddUser(st, username, password, faults).value == st.(users := users, nextUserId := st.nextUserId + 1);
      forall i, j | 0 <= i < |users| && 0 <= j < |users| && i != j ensures UsersDiffer(users, i, j) {
        if i < |st.users| && j < |st.users| {
          assert UsersDiffer(st.users, i, j);
        } else if i < |st.users| {
          FindUserNone(st.users, username);
          assert users[i] == st.users[i] && users[i] in st.users;
        } else {
          FindUserNone(st.users, username);
          assert users[j] == st.users[j] && users[j] in st.users;
        }
      }
      forall id | NameOf(st.users, id).Some? ensures NameOf(users, id) == NameOf(st.users, id) {
        NameOfAppend(st.users, row, id);
      }
      forall i | 0 <= i < |st.operations| && st.operations[i].kind.Transfer? ensures ScanRow(users, st.operations[i]).Some? {
        assert ScanRow(st.users, st.operations[i]).Some?;
      }
    }
  }
}
