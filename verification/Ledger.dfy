/** Accounts, transactions, and the execution of one transaction on the accounts. Amounts are 64-bit and wrap. */
module Ledger {
  import opened Words
  import opened Options

  type Address = x: int | 0 <= x < 0x1_0000_0000_0000_0000_0000_0000_0000_0000_0000_0000

  datatype Account = Account(amount: u64, nonce: u64)

  /** A transaction; its sender is the address its signature recovers to. */
  datatype Tx = Tx(from: Address, to: Address, nonce: u64, value: u64, gas: u64, gasPrice: u64, time: u64)

  datatype Receipt = Receipt(status: int, gasUsed: u64)

  function Wrap(x: int): u64 { x % 0x1_0000_0000_0000_0000 }

  lemma WrapBy(x: int) returns (k: int)
    ensures x == Wrap(x) + 0x1_0000_0000_0000_0000 * k
    ensures 0 <= x < 0x1_0000_0000_0000_0000 <==> k == 0
    ensures 0 <= x < 0x2_0000_0000_0000_0000 ==> 0 <= k <= 1
  {
    k := x / 0x1_0000_0000_0000_0000;
  }

  /** All balances together. */
  ghost function Total(accounts: map<Address, Account>): int {
    if accounts == map[] then 0
    else
      var a :| a in accounts;
      accounts[a].amount + Total(accounts - {a})
  }

  lemma {:induction false} TotalWithout(accounts: map<Address, Account>, a: Address)
    requires a in accounts
    ensures Total(accounts) == accounts[a].amount + Total(accounts - {a})
    decreases |accounts|
  {
    var b :| b in accounts && Total(accounts) == accounts[b].amount + Total(accounts - {b});
    if a != b {
      TotalWithout(accounts - {b}, a);
      TotalWithout(accounts - {a}, b);
      assert accounts - {b} - {a} == accounts - {a} - {b};
    }
  }

  /** An account's balance, 0 when there is none. */
  function Amount(accounts: map<Address, Account>, a: Address): int {
    if a in accounts then accounts[a].amount else 0
  }

  function Nonce(accounts: map<Address, Account>, a: Address): u64 {
    if a in accounts then accounts[a].nonce else 0
  }

  /** Storing an account moves the total by the change of its balance. */
  lemma TotalStore(accounts: map<Address, Account>, a: Address, x: Account)
    ensures Total(accounts[a := x]) == Total(accounts) - Amount(accounts, a) + x.amount
  {
    TotalWithout(accounts[a := x], a);
    if a in accounts {
      TotalWithout(accounts, a);
      assert accounts[a := x] - {a} == accounts - {a};
    } else {
      assert accounts[a := x] - {a} == accounts;
    }
  }

  lemma {:induction false} TotalNonnegative(accounts: map<Address, Account>)
    ensures Total(accounts) >= 0
    decreases |accounts|
  {
    if accounts != map[] {
      var a :| a in accounts;
      TotalWithout(accounts, a);
      TotalNonnegative(accounts - {a});
    }
  }

  lemma AmountWithinTotal(accounts: map<Address, Account>, a: Address)
    ensures 0 <= Amount(accounts, a) <= Total(accounts)
  {
    TotalNonnegative(accounts);
    if a in accounts {
      TotalWithout(accounts, a);
      TotalNonnegative(accounts - {a});
    }
  }

  /** The state database. */
  class StatDB {
    var accounts: map<Address, Account>

    constructor ()
      ensures accounts == map[]
    {
      accounts := map[];
    }

    method Load(a: Address) returns (account: Option<Account>)
      ensures account == if a in accounts then Some(accounts[a]) else None
    {
      account := if a in accounts then Some(accounts[a]) else None;
    }

    method Store(a: Address, account: Account)
      modifies this
      ensures accounts == old(accounts)[a := account]
    {
      accounts := accounts[a := account];
    }
  }

  /** What a transaction costs its sender, before and after the cut to 64 bits. */
  function FullCost(tx: Tx): int { tx.value + 21000 * tx.gasPrice }

  function Cost(tx: Tx): u64 { Wrap(tx.value + Wrap(21000 * tx.gasPrice)) }

  lemma CostWraps(tx: Tx) returns (k: nat)
    ensures FullCost(tx) == Cost(tx) + 0x1_0000_0000_0000_0000 * k
    ensures k == 0 <==> FullCost(tx) < 0x1_0000_0000_0000_0000
  {
    var i := WrapBy(21000 * tx.gasPrice);
    var j := WrapBy(tx.value + Wrap(21000 * tx.gasPrice));
    k := i + j;
  }

  predicate Executable(accounts: map<Address, Account>, tx: Tx) {
    tx.gas >= 21000 && tx.from in accounts && accounts[tx.from].amount >= Cost(tx)
  }

  /** The accounts after the sender has paid. */
  function Debited(accounts: map<Address, Account>, tx: Tx): map<Address, Account>
    requires Executable(accounts, tx)
  {
    var x := accounts[tx.from];
    accounts[tx.from := Account(x.amount - Cost(tx), Wrap(x.nonce + 1))]
  }

  /** Whether crediting the recipient loses a carry. */
  predicate CreditWraps(accounts: map<Address, Account>, tx: Tx)
    requires Executable(accounts, tx)
  {
    Amount(Debited(accounts, tx), tx.to) + tx.value >= 0x1_0000_0000_0000_0000
  }

  /** The accounts after a successful execution: the recipient is loaded after the sender is stored. */
  function Executed(accounts: map<Address, Account>, tx: Tx): map<Address, Account>
    requires Executable(accounts, tx)
  {
    var mid := Debited(accounts, tx);
    mid[tx.to := Account(Wrap(Amount(mid, tx.to) + tx.value), Nonce(mid, tx.to))]
  }

  /** Whether the sender can pay, with the cost cut to 64 bits. */
  predicate Payable(accounts: map<Address, Account>, tx: Tx) {
    && tx.gas >= 21000 && tx.from in accounts
    && accounts[tx.from].amount >= (tx.value + 21000 * tx.gasPrice) % 0x1_0000_0000_0000_0000
  }

  /**
   * Who pays and who gets what, account by account: the sender pays the cost and its nonce goes up, the recipient
   * gets the value, and no other account changes. A transfer to oneself is charged first and credited then.
   */
  ghost predicate Transferred(before: map<Address, Account>, after: map<Address, Account>, tx: Tx) {
    var cost := (tx.value + 21000 * tx.gasPrice) % 0x1_0000_0000_0000_0000;
    && tx.from in before && after.Keys == before.Keys + {tx.to}
    && (forall a :: a in before && a != tx.from && a != tx.to ==> after[a] == before[a])
    && after[tx.from].nonce == (before[tx.from].nonce + 1) % 0x1_0000_0000_0000_0000
    && if tx.from == tx.to then
         after[tx.from].amount == (before[tx.from].amount - cost + tx.value) % 0x1_0000_0000_0000_0000
       else
         && after[tx.from].amount == before[tx.from].amount - cost
         && var was := if tx.to in before then before[tx.to] else Account(0, 0);
            after[tx.to] == Account((was.amount + tx.value) % 0x1_0000_0000_0000_0000, was.nonce)
  }

  lemma ExecutedAccounts(accounts: map<Address, Account>, tx: Tx)
    ensures Executable(accounts, tx) <==> Payable(accounts, tx)
    ensures Executable(accounts, tx) ==> Transferred(accounts, Executed(accounts, tx), tx)
  {
    CostOnce(tx);
  }

  /** That leaves nothing open about the accounts afterwards. */
  lemma TransferredOnce(before: map<Address, Account>, x: map<Address, Account>, y: map<Address, Account>, tx: Tx)
    requires Transferred(before, x, tx) && Transferred(before, y, tx)
    ensures x == y
  {
    assert x.Keys == y.Keys;
    forall a | a in x ensures x[a] == y[a] {
      assert a in before || a == tx.to;
    }
  }

  lemma CostOnce(tx: Tx)
    ensures Cost(tx) == FullCost(tx) % 0x1_0000_0000_0000_0000
  {
    var k := CostWraps(tx);
  }

  /** Executes a transaction; one that cannot pay, or has too little gas, changes no account. */
  method Execute(state: StatDB, tx: Tx) returns (r: Receipt)
    modifies state
    ensures r.status == 1 <==> Payable(old(state.accounts), tx)
    ensures r.status == 0 || r.status == 1
    ensures r.gasUsed == if tx.gas < 21000 then tx.gas else 21000
    ensures if r.status == 1 then Transferred(old(state.accounts), state.accounts, tx)
            else state.accounts == old(state.accounts)
    ensures r.status == 1 <==> Executable(old(state.accounts), tx)
    ensures r.status == 1 ==> state.accounts == Executed(old(state.accounts), tx)
  {
    ExecutedAccounts(state.accounts, tx);
    hide Wrap, Payable, Transferred;
    var gasUsed := tx.gas;
    if gasUsed < 21000 {
      return Receipt(0, gasUsed);
    }
    gasUsed := 21000;
    var gasCost := Wrap(21000 * tx.gasPrice);
    var cost := Wrap(tx.value + gasCost);
    var loaded := state.Load(tx.from);
    if loaded == None || loaded.value.amount < cost {
      return Receipt(0, gasUsed);
    }
    var account := loaded.value;
    account := account.(amount := account.amount - cost);
    account := account.(nonce := Wrap(account.nonce + 1));
    state.Store(tx.from, account);
    loaded := state.Load(tx.to);
    var toAccount := if loaded == None then Account(0, 0) else loaded.value;
    toAccount := toAccount.(amount := Wrap(toAccount.amount + tx.value));
    state.Store(tx.to, toAccount);
    r := Receipt(1, gasUsed);
  }

  /**
   * What an execution does to the total: the fee leaves it, and every 2^64 lost by a sum that wraps shows up.
   * k counts them on the cost, and the credit loses one if it wraps. Self-transfers are included.
   */
  lemma ExecutedTotal(accounts: map<Address, Account>, tx: Tx) returns (k: nat)
    requires Executable(accounts, tx)
    ensures Total(Executed(accounts, tx))
         == Total(accounts) - 21000 * tx.gasPrice
            + 0x1_0000_0000_0000_0000 * (k - (if CreditWraps(accounts, tx) then 1 else 0))
    ensures FullCost(tx) == Cost(tx) + 0x1_0000_0000_0000_0000 * k
    ensures Total(Executed(accounts, tx)) == Total(accounts) - 21000 * tx.gasPrice
            <==> k == if CreditWraps(accounts, tx) then 1 else 0
  {
    k := CostWraps(tx);
    var x, mid := accounts[tx.from], Debited(accounts, tx);
    TotalStore(accounts, tx.from, mid[tx.from]);
    var credit := Amount(mid, tx.to) + tx.value;
    var c := WrapBy(credit);
    TotalStore(mid, tx.to, Account(Wrap(credit), Nonce(mid, tx.to)));
    hide Wrap;
  }

  /** Without wrapping exactly the fee disappears. */
  lemma Conservation(accounts: map<Address, Account>, tx: Tx)
    requires Executable(accounts, tx) && FullCost(tx) < W && Total(accounts) < W
    ensures Total(accounts) == Total(Executed(accounts, tx)) + 21000 * tx.gasPrice
  {
    hide Wrap;
    var k := ExecutedTotal(accounts, tx);
    var mid := Debited(accounts, tx);
    var c := CostWraps(tx);
    TotalStore(accounts, tx.from, mid[tx.from]);
    AmountWithinTotal(mid, tx.to);
  }

  /** A gas price of 2^61 makes the fee wrap to nothing: the transaction is executed and pays no fee. */
  lemma FeeWrapsAway(accounts: map<Address, Account>, tx: Tx)
    requires tx == Tx(1, 2, 1, 5, 21000, 0x2000_0000_0000_0000, 0) && accounts == map[1 := Account(5, 0)]
    ensures Executable(accounts, tx) && Total(Executed(accounts, tx)) == Total(accounts)
  {
    assert Cost(tx) == 5;
    var k := ExecutedTotal(accounts, tx);
  }

  /** Only the sender's nonce moves, up by one. */
  lemma ExecutedNonces(accounts: map<Address, Account>, tx: Tx, a: Address)
    requires Executable(accounts, tx)
    ensures Nonce(Executed(accounts, tx), a)
         == if a == tx.from then Wrap(Nonce(accounts, a) + 1) else Nonce(accounts, a)
  {
  }
}
