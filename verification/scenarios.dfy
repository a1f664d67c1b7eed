/** Concrete runs of the model on small stores. */
module Scenarios {
  import opened Wrappers
  import opened DbCalls
  import opened RepoErrs
  import opened ServiceErrs
  import opened Ledger
  import opened OperationRepository
  import opened UserService
  import opened OperationService

  const Alice := UserRow(1, "alice", [], 500)
  const Bob := UserRow(2, "bob", [], 200)
  const Widget := ProductRow(7, "widget", 20)

  function Shop(aliceBalance: int, price: int): Store {
    Store([Alice.(balance := aliceBalance), Bob], [Widget.(price := price)], [], [], 3, 0)
  }

  /** alice (500) sends 100 to bob (200): 400 and 300, and one transfer row. */
  lemma AliceTransfersToBob()
    ensures SaveTransfer(Shop(500, 20), "alice", "bob", 100, {}) ==
      Ok(Shop(500, 20).(users := [Alice.(balance := 400), Bob.(balance := 300)],
                        operations := [OperationRow(1, 100, Transfer, Some(2), None)]))
  {
    var users := Shop(500, 20).users;
    assert users[1..] == [Bob];
    assert FindUser(users, "alice") == Some(Alice);
    assert FindUser(users, "bob") == Some(Bob);
    var debited := UpdateBalance(users, 1, Withdrawal(100));
    assert debited == [Alice.(balance := 400), Bob] by {
      assert UpdateBalance([Bob], 1, Withdrawal(100)) == [Bob];
    }
    assert debited[1..] == [Bob];
    assert UpdateBalance([Bob], 2, 100) == [Bob.(balance := 300)];
    assert UpdateBalance(debited, 2, 100) == [Alice.(balance := 400), Bob.(balance := 300)];
  }

  /** alice (50) cannot buy a product priced 100: nothing changes. */
  lemma AliceCannotAfford()
    ensures SavePurchase(Shop(50, 100), "alice", "widget", {}) == Err(RepoErr.InsufficientFunds)
  {
  }

  /** Two widgets at 20: one inventory line of quantity 2, two purchase rows, 40 spent. */
  lemma AliceBuysTwoWidgets()
    ensures var once := SavePurchase(Shop(500, 20), "alice", "widget", {});
      once.Ok? && SavePurchase(once.value, "alice", "widget", {}) ==
        Ok(Shop(500, 20).(users := [Alice.(balance := 460), Bob],
                          inventory := [InventoryRow(1, 7, 2)],
                          operations := [OperationRow(1, 20, Purchase, None, Some(7)), OperationRow(1, 20, Purchase, None, Some(7))]))
  {
    var st := Shop(500, 20);
    assert st.users[1..] == [Bob];
    assert FindUser(st.users, "alice") == Some(Alice);
    assert FindProduct(st.products, "widget") == Some(Widget);
    PurchaseErrorPrecedence(st, "alice", "widget", {});
    PurchaseCommitted(st, "alice", "widget", {});
    assert UpdateBalance([Bob], 1, Withdrawal(20)) == [Bob];
    assert UpdateBalance(st.users, 1, Withdrawal(20)) == [Alice.(balance := 480), Bob];
    var once := st.(users := [Alice.(balance := 480), Bob], inventory := [InventoryRow(1, 7, 1)],
                    operations := [OperationRow(1, 20, Purchase, None, Some(7))]);
    assert SavePurchase(st, "alice", "widget", {}) == Ok(once);
    assert once.users[1..] == [Bob];
    assert FindUser(once.users, "alice") == Some(Alice.(balance := 480));
    assert FindProduct(once.products, "widget") == Some(Widget);
    PurchaseErrorPrecedence(once, "alice", "widget", {});
    PurchaseCommitted(once, "alice", "widget", {});
    assert UpdateBalance(once.users, 1, Withdrawal(20)) == [Alice.(balance := 460), Bob];
    assert Upsert([InventoryRow(1, 7, 1)], 1, 7) == [InventoryRow(1, 7, 2)];
    var row := OperationRow(1, 20, Purchase, None, Some(7));
    assert once.operations + [PurchaseRecord(1, 20, 7)] == [row, row];
  }

  /** A transfer to a user that does not exist is refused and leaves store and cache alone. */
  lemma TransferToGhost(cache: Cache)
    ensures TransferFunds(Shop(500, 20), cache, "alice", "ghost", 100, {}, false) ==
      Effect(Shop(500, 20), cache, Some(RecipientNotFound))
  {
  }

  /** When the eviction after a transfer fails, the next lookup serves the pre-transfer
      balance from the cache although the store has moved on. */
  lemma FailedEvictionServesStale()
    ensures var cache := map[CacheKey("alice") := Snapshot(Output(500, [], [], []))];
      var e := TransferFunds(Shop(500, 20), cache, "alice", "bob", 100, {}, true);
      BalanceOf(e.store.users, "alice") == Some(400) &&
      RetrieveUserInfo(e.store, e.cache, "alice", {}, false, false).output.balance == 500
  {
  }
}
