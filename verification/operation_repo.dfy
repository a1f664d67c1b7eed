/** The transaction engine: SaveTransfer and SavePurchase of
    internal/repository/pgdb/operation.go. Each runs lookup, check, mutate and
    append against a working copy inside one unit of work; any early return
    rolls the unit of work back, so an `Err` result carries no state at all and
    the committed store stays the one passed in. */
module OperationRepository {
  import opened Wrappers
  import opened DbCalls
  import opened RepoErrs
  import opened Ledger

  /** The store after the unit of work: its result on commit, the old store after a rollback. */
  function Committed(st: Store, r: Result<Store, RepoErr>): Store {
    match r
    case Ok(next) => next
    case Err(_) => st
  }

  function SaveTransfer(st: Store, sender: string, recipient: string, amount: int, faults: set<DbCall>)
    : (r: Result<Store, RepoErr>)
    ensures r.Ok? ==> r.value.products == st.products && r.value.inventory == st.inventory
    ensures r.Ok? ==> r.value.nextUserId == st.nextUserId && r.value.openingBalance == st.openingBalance
    ensures r.Ok? ==> |r.value.operations| == |st.operations| + 1 && r.value.operations[..|st.operations|] == st.operations
  {
    if Begin in faults then Err(DbFailure(Begin))
    else if SelectUser in faults then Err(DbFailure(SelectUser))
    else
      var found := FindUser(st.users, sender);
      if found.None? then Err(UserNotFound)
      else
        var s := found.value;
        if s.balance < amount then Err(InsufficientFunds)
        else if SelectRecipient in faults then Err(DbFailure(SelectRecipient))
        else
          var to := FindUser(st.users, recipient);
          if to.None? then Err(UserNotFound)
          else
            var rid := to.value.id;
            var debited := UpdateBalance(st.users, s.id, Withdrawal(amount));
            if DebitBalance in faults then Err(DbFailure(DebitBalance))
            else
              var credited := UpdateBalance(debited, rid, amount);
              if CreditBalance in faults then Err(DbFailure(CreditBalance))
              else
                var logged := st.operations + [TransferRecord(s.id, amount, rid)];
                if InsertOperation in faults then Err(DbFailure(InsertOperation))
                else if Commit in faults then Err(DbFailure(Commit))
                else Ok(st.(users := credited, operations := logged))
  }

  function SavePurchase(st: Store, username: string, product: string, faults: set<DbCall>)
    : (r: Result<Store, RepoErr>)
    ensures r.Ok? ==> r.value.products == st.products
    ensures r.Ok? ==> r.value.nextUserId == st.nextUserId && r.value.openingBalance == st.openingBalance
    ensures r.Ok? ==> |r.value.operations| == |st.operations| + 1 && r.value.operations[..|st.operations|] == st.operations
  {
    if Begin in faults then Err(DbFailure(Begin))
    else if SelectUser in faults then Err(DbFailure(SelectUser))
    else
      var found := FindUser(st.users, username);
      if found.None? then Err(UserNotFound)
      else
        var u := found.value;
        if SelectProduct in faults then Err(DbFailure(SelectProduct))
        else
          var item := FindProduct(st.products, product);
          if item.None? then Err(ProductNotFound)
          else
            var p := item.value;
            if u.balance < p.price then Err(InsufficientFunds)
            else
              var debited := UpdateBalance(st.users, u.id, Withdrawal(p.price));
              if DebitBalance in faults then Err(DbFailure(DebitBalance))
              else
                var stocked := Upsert(st.inventory, u.id, p.id);
                if UpsertInventory in faults then Err(DbFailure(UpsertInventory))
                else
                  var logged := st.operations + [PurchaseRecord(u.id, p.price, p.id)];
                  if InsertOperation in faults then Err(DbFailure(InsertOperation))
                  else if Commit in faults then Err(DbFailure(Commit))
                  else Ok(st.(users := debited, inventory := stocked, operations := logged))
  }

  /** The storage calls a transfer issues. */
  const TransferCalls: set<DbCall> :=
    {Begin, SelectUser, SelectRecipient, DebitBalance, CreditBalance, InsertOperation, Commit}

  /** The storage calls a purchase issues. */
  const PurchaseCalls: set<DbCall> :=
    {Begin, SelectUser, SelectProduct, DebitBalance, UpsertInventory, InsertOperation, Commit}

  // ---------------------------------------------------------------- transfer

  /** What a committed transfer consists of: both lookups succeeded, the funds check
      passed, no storage call failed, and the working copy holds the debit, the credit
      and the log row. */
  lemma TransferCommitted(st: Store, sender: string, recipient: string, amount: int, faults: set<DbCall>)
    requires SaveTransfer(st, sender, recipient, amount, faults).Ok?
    ensures FindUser(st.users, sender).Some? && FindUser(st.users, recipient).Some?
    ensures amount <= FindUser(st.users, sender).value.balance
    ensures faults !! TransferCalls
    ensures SaveTransfer(st, sender, recipient, amount, faults).value ==
      st.(users := Moved(st.users, sender, recipient, amount),
          operations := st.operations + [TransferRecord(FindUser(st.users, sender).value.id, amount,
                                                        FindUser(st.users, recipient).value.id)])
  {
  }

  /** Which error a transfer reports, in the order the code checks: sender lookup,
      then funds, then recipient lookup; and it commits exactly when all three pass. */
  lemma TransferErrorPrecedence(st: Store, sender: string, recipient: string, amount: int, faults: set<DbCall>)
    requires faults !! TransferCalls
    ensures var r := SaveTransfer(st, sender, recipient, amount, faults);
      var s := FindUser(st.users, sender);
      var to := FindUser(st.users, recipient);
      && (s.None? ==> r == Err(UserNotFound))
      && (s.Some? && s.value.balance < amount ==> r == Err(InsufficientFunds))
      && (s.Some? && amount <= s.value.balance && to.None? ==> r == Err(UserNotFound))
      && (r.Ok? <==> s.Some? && to.Some? && amount <= s.value.balance)
  {
  }

  /** A transfer whose funds check fails reports it even when the recipient does not exist. */
  lemma InsufficientFundsBeforeRecipient(st: Store, sender: string, recipient: string, amount: int, faults: set<DbCall>)
    requires Begin !in faults && SelectUser !in faults
    requires FindUser(st.users, sender).Some? && FindUser(st.users, sender).value.balance < amount
    requires FindUser(st.users, recipient).None?
    ensures SaveTransfer(st, sender, recipient, amount, faults) == Err(InsufficientFunds)
  {
  }

  /** A committed transfer debits the sender by exactly amount and credits the recipient
      by exactly amount, so their sum is unchanged; a self-transfer leaves the balance
      where it was; every other account keeps its balance. */
  lemma TransferMovesAmount(st: Store, sender: string, recipient: string, amount: int, faults: set<DbCall>, other: string)
    requires UniqueUsers(st.users)
    requires SaveTransfer(st, sender, recipient, amount, faults).Ok?
    ensures var after := SaveTransfer(st, sender, recipient, amount, faults).value.users;
      var before := st.users;
      && BalanceOf(before, sender).Some? && BalanceOf(before, recipient).Some?
      && (sender != recipient ==> BalanceOf(after, sender) == Some(BalanceOf(before, sender).value - amount))
      && (sender != recipient ==> BalanceOf(after, recipient) == Some(BalanceOf(before, recipient).value + amount))
      && (sender != recipient ==>
            BalanceOf(after, sender).value + BalanceOf(after, recipient).value
            == BalanceOf(before, sender).value + BalanceOf(before, recipient).value)
      && (sender == recipient ==> BalanceOf(after, sender) == BalanceOf(before, sender))
      && (other != sender && other != recipient ==> BalanceOf(after, other) == BalanceOf(before, other))
  {
    TransferCommitted(st, sender, recipient, amount, faults);
    if sender != recipient {
      MoveBetween(st.users, sender, recipient, amount);
    } else {
      MoveToSelf(st.users, sender, amount);
    }
    if other != sender && other != recipient {
      MoveLeavesOthers(st.users, sender, recipient, amount, other);
    }
  }

  /** A committed transfer leaves the coins in circulation unchanged. */
  lemma TransferConservesTotal(st: Store, sender: string, recipient: string, amount: int, faults: set<DbCall>)
    requires UniqueUsers(st.users)
    requires SaveTransfer(st, sender, recipient, amount, faults).Ok?
    ensures TotalBalance(SaveTransfer(st, sender, recipient, amount, faults).value.users) == TotalBalance(st.users)
  {
    TransferCommitted(st, sender, recipient, amount, faults);
    var sid := FindUser(st.users, sender).value.id;
    var rid := FindUser(st.users, recipient).value.id;
    var debited := UpdateBalance(st.users, sid, Withdrawal(amount));
    TotalAfterUpdate(st.users, sid, Withdrawal(amount));
    TotalAfterUpdate(debited, rid, amount);
    CountFoundId(st.users, sender);
    UpdateKeepsUnique(st.users, sid, Withdrawal(amount));
    FindUserAfterUpdate(st.users, sid, Withdrawal(amount), recipient);
    CountFoundId(debited, recipient);
  }

  /** With a non-negative amount, a committed transfer keeps every balance non-negative;
      a sender whose balance equals the amount ends at exactly zero. */
  lemma TransferKeepsBalancesNonNegative(st: Store, sender: string, recipient: string, amount: int, faults: set<DbCall>)
    requires UniqueUsers(st.users) && NonNegativeBalances(st.users) && amount >= 0
    requires SaveTransfer(st, sender, recipient, amount, faults).Ok?
    ensures var after := SaveTransfer(st, sender, recipient, amount, faults).value.users;
      && NonNegativeBalances(after)
      && (sender != recipient && BalanceOf(st.users, sender) == Some(amount) ==> BalanceOf(after, sender) == Some(0))
  {
    TransferCommitted(st, sender, recipient, amount, faults);
    var s := FindUser(st.users, sender).value;
    var sid := s.id;
    var rid := FindUser(st.users, recipient).value.id;
    var debited := UpdateBalance(st.users, sid, Withdrawal(amount));
    var after := UpdateBalance(debited, rid, amount);
    forall i | 0 <= i < |after| ensures after[i].balance >= 0 {
      UpdateBalanceAt(st.users, sid, Withdrawal(amount), i);
      UpdateBalanceAt(debited, rid, amount, i);
      if st.users[i].id == sid {
        RowOfId(st.users, s, i);
      }
    }
    if sender != recipient {
      MoveBetween(st.users, sender, recipient, amount);
    }
  }

  /** A committed transfer appends exactly the row (sender id, amount, "transfer",
      recipient id) and leaves every earlier row as it was. */
  lemma TransferLogsOneRow(st: Store, sender: string, recipient: string, amount: int, faults: set<DbCall>)
    requires SaveTransfer(st, sender, recipient, amount, faults).Ok?
    ensures var after := SaveTransfer(st, sender, recipient, amount, faults).value;
      && FindUser(st.users, sender).Some? && FindUser(st.users, recipient).Some?
      && after.operations == st.operations +
           [OperationRow(FindUser(st.users, sender).value.id, amount, Transfer,
                         Some(FindUser(st.users, recipient).value.id), None)]
      && after.operations[|st.operations|].kind.Tag() == "transfer"
  {
    TransferCommitted(st, sender, recipient, amount, faults);
  }

  /** A failure of any storage call the transfer issues rolls the whole transfer back. */
  lemma TransferFaultRollsBack(st: Store, sender: string, recipient: string, amount: int, faults: set<DbCall>)
    requires faults * TransferCalls != {}
    ensures SaveTransfer(st, sender, recipient, amount, faults).Err?
    ensures Committed(st, SaveTransfer(st, sender, recipient, amount, faults)) == st
  {
    if SaveTransfer(st, sender, recipient, amount, faults).Ok? {
      TransferCommitted(st, sender, recipient, amount, faults);
    }
  }

  // ---------------------------------------------------------------- purchase

  /** What a committed purchase consists of. */
  lemma PurchaseCommitted(st: Store, username: string, product: string, faults: set<DbCall>)
    requires SavePurchase(st, username, product, faults).Ok?
    ensures FindUser(st.users, username).Some? && FindProduct(st.products, product).Some?
    ensures FindProduct(st.products, product).value.price <= FindUser(st.users, username).value.balance
    ensures faults !! PurchaseCalls
    ensures var uid := FindUser(st.users, username).value.id;
      var item := FindProduct(st.products, product).value;
      SavePurchase(st, username, product, faults).value ==
        st.(users := UpdateBalance(st.users, uid, Withdrawal(item.price)),
            inventory := Upsert(st.inventory, uid, item.id),
            operations := st.operations + [PurchaseRecord(uid, item.price, item.id)])
  {
  }

  /** Purchase errors in the order the code checks: user, then product, then funds;
      and it commits exactly when all three pass. */
  lemma PurchaseErrorPrecedence(st: Store, username: string, product: string, faults: set<DbCall>)
    requires faults !! PurchaseCalls
    ensures var r := SavePurchase(st, username, product, faults);
      var u := FindUser(st.users, username);
      var p := FindProduct(st.products, product);
      && (u.None? ==> r == Err(UserNotFound))
      && (u.Some? && p.None? ==> r == Err(ProductNotFound))
      && (u.Some? && p.Some? && u.value.balance < p.value.price ==> r == Err(InsufficientFunds))
      && (r.Ok? <==> u.Some? && p.Some? && p.value.price <= u.value.balance)
  {
  }

  /** A committed purchase debits exactly the price, adds one to the buyer's line for the
      product (creating it at 1), appends one purchase row, and leaves every other
      balance and every other inventory line as it was. */
  lemma PurchaseEffects(st: Store, username: string, product: string, faults: set<DbCall>, other: string, u: int, p: int)
    requires UniqueUsers(st.users)
    requires SavePurchase(st, username, product, faults).Ok?
    ensures var after := SavePurchase(st, username, product, faults).value;
      var buyer := FindUser(st.users, username).value;
      var item := FindProduct(st.products, product).value;
      && BalanceOf(after.users, username) == Some(buyer.balance - item.price)
      && Quantity(after.inventory, buyer.id, item.id) == Quantity(st.inventory, buyer.id, item.id) + 1
      && (!HasLine(st.inventory, buyer.id, item.id) ==> Quantity(after.inventory, buyer.id, item.id) == 1)
      && (u != buyer.id || p != item.id ==> Quantity(after.inventory, u, p) == Quantity(st.inventory, u, p))
      && after.operations == st.operations + [OperationRow(buyer.id, item.price, Purchase, None, Some(item.id))]
      && (other != username ==> BalanceOf(after.users, other) == BalanceOf(st.users, other))
  {
    PurchaseCommitted(st, username, product, faults);
    var buyer := FindUser(st.users, username).value;
    var item := FindProduct(st.products, product).value;
    BalanceAfterUpdate(st.users, buyer.id, Withdrawal(item.price), username);
    BalanceAfterUpdate(st.users, buyer.id, Withdrawal(item.price), other);
    if FindUser(st.users, other).Some? && other != username {
      DistinctNamesDistinctIds(st.users, other, username);
    }
    if !HasLine(st.inventory, buyer.id, item.id) {
      QuantityWithoutLine(st.inventory, buyer.id, item.id);
    }
  }

  /** Without a line for (u, p) the user holds none of the product. */
  lemma {:induction false} QuantityWithoutLine(inv: seq<InventoryRow>, u: int, p: int)
    requires !HasLine(inv, u, p)
    ensures Quantity(inv, u, p) == 0
  {
    if inv != [] {
      assert !HasLine(inv[1..], u, p);
      QuantityWithoutLine(inv[1..], u, p);
    }
  }

  /** A committed purchase keeps every balance non-negative: the funds check guards the debit. */
  lemma PurchaseKeepsBalancesNonNegative(st: Store, username: string, product: string, faults: set<DbCall>)
    requires UniqueUsers(st.users) && NonNegativeBalances(st.users)
    requires SavePurchase(st, username, product, faults).Ok?
    ensures NonNegativeBalances(SavePurchase(st, username, product, faults).value.users)
  {
    PurchaseCommitted(st, username, product, faults);
    var buyer := FindUser(st.users, username).value;
    var item := FindProduct(st.products, product).value;
    var after := UpdateBalance(st.users, buyer.id, Withdrawal(item.price));
    forall i | 0 <= i < |after| ensures after[i].balance >= 0 {
      UpdateBalanceAt(st.users, buyer.id, Withdrawal(item.price), i);
      if st.users[i].id == buyer.id {
        RowOfId(st.users, buyer, i);
      }
    }
  }

  /** A buyer who can cover the price twice buys the same product twice: both purchases
      commit, leaving two more of it, two more log rows and twice the price debited. */
  lemma PurchaseTwice(st: Store, username: string, product: string, faults: set<DbCall>)
    requires UniqueUsers(st.users) && faults !! PurchaseCalls
    requires FindUser(st.users, username).Some? && FindProduct(st.products, product).Some?
    requires 2 * FindProduct(st.products, product).value.price <= FindUser(st.users, username).value.balance
    requires FindProduct(st.products, product).value.price >= 0
    ensures SavePurchase(st, username, product, faults).Ok?
    ensures var mid := SavePurchase(st, username, product, faults).value;
      SavePurchase(mid, username, product, faults).Ok?
    ensures var mid := SavePurchase(st, username, product, faults).value;
      var after := SavePurchase(mid, username, product, faults).value;
      var buyer := FindUser(st.users, username).value;
      var item := FindProduct(st.products, product).value;
      && Quantity(after.inventory, buyer.id, item.id) == Quantity(st.inventory, buyer.id, item.id) + 2
      && |after.operations| == |st.operations| + 2
      && BalanceOf(after.users, username) == Some(buyer.balance - 2 * item.price)
  {
    var buyer := FindUser(st.users, username).value;
    var item := FindProduct(st.products, product).value;
    PurchaseErrorPrecedence(st, username, product, faults);
    var mid := SavePurchase(st, username, product, faults).value;
    PurchaseCommitted(st, username, product, faults);
    PurchaseEffects(st, username, product, faults, username, buyer.id, item.id);
    FindUserAfterUpdate(st.users, buyer.id, Withdrawal(item.price), username);
    UpdateKeepsUnique(st.users, buyer.id, Withdrawal(item.price));
    PurchaseErrorPrecedence(mid, username, product, faults);
    PurchaseEffects(mid, username, product, faults, username, buyer.id, item.id);
  }

  /** A failure of any storage call the purchase issues rolls the whole purchase back. */
  lemma PurchaseFaultRollsBack(st: Store, username: string, product: string, faults: set<DbCall>)
    requires faults * PurchaseCalls != {}
    ensures SavePurchase(st, username, product, faults).Err?
    ensures Committed(st, SavePurchase(st, username, product, faults)) == st
  {
    if SavePurchase(st, username, product, faults).Ok? {
      PurchaseCommitted(st, username, product, faults);
    }
  }
}
