/** Packing a block: transactions are popped from the pool and executed until one fails or none is left. */
module BlockMaker {
  import opened Words
  import opened Ledger
  import opened Options
  import opened PoolSide
  import opened TxPool

  /** The fees of the packed transactions, and how many of them one sender has. */
  function Fees(txs: seq<Tx>): int {
    if txs == [] then 0 else Fees(txs[..|txs| - 1]) + 21000 * txs[|txs| - 1].gasPrice
  }

  function CountFrom(txs: seq<Tx>, a: Address): nat {
    if txs == [] then 0 else CountFrom(txs[..|txs| - 1], a) + (if txs[|txs| - 1].from == a then 1 else 0)
  }

  /** One sender's transactions, in order. */
  function OfSender(txs: seq<Tx>, a: Address): seq<Tx> {
    if txs == [] then []
    else
      var last := txs[|txs| - 1];
      OfSender(txs[..|txs| - 1], a) + if last.from == a then [last] else []
  }

  lemma OfSenderSnoc(txs: seq<Tx>, tx: Tx, a: Address)
    ensures OfSender(txs + [tx], a) == OfSender(txs, a) + if tx.from == a then [tx] else []
  {
    assert (txs + [tx])[..|txs|] == txs;
  }

  /** The accounts after executing transactions one after another, each of which its sender can pay when it is due. */
  ghost predicate Plays(before: map<Address, Account>, txs: seq<Tx>, after: map<Address, Account>) {
    if txs == [] then after == before
    else
      var last := txs[|txs| - 1];
      exists mid :: Plays(before, txs[..|txs| - 1], mid) && Payable(mid, last) && Transferred(mid, after, last)
  }

  lemma PlaysSnoc(before: map<Address, Account>, txs: seq<Tx>, mid: map<Address, Account>, tx: Tx,
                  after: map<Address, Account>)
    requires Plays(before, txs, mid) && Payable(mid, tx) && Transferred(mid, after, tx)
    ensures Plays(before, txs + [tx], after)
  {
    var all := txs + [tx];
    hide Payable, Transferred;
    assert all[..|all| - 1] == txs && all[|all| - 1] == tx;
    assert Plays(before, all[..|all| - 1], mid) && Payable(mid, all[|all| - 1]);
  }

  /** The failed transaction as part of its sender's. */
  function FailedOf(failed: Option<Tx>, a: Address): seq<Tx> {
    if failed != None && failed.value.from == a then [failed.value] else []
  }

  lemma FeesSnoc(txs: seq<Tx>, tx: Tx)
    ensures Fees(txs + [tx]) == Fees(txs) + 21000 * tx.gasPrice
    ensures forall a :: CountFrom(txs + [tx], a) == CountFrom(txs, a) + (if tx.from == a then 1 else 0)
  {
    assert (txs + [tx])[..|txs|] == txs;
  }

  /** Every pending transaction's full cost fits 64 bits. */
  ghost predicate CostsFit(contents: map<Address, seq<Block>>) {
    forall a :: a in contents ==> AllFit(Flat(contents[a]))
  }

  ghost predicate AllFit(txs: seq<Tx>) {
    forall i :: 0 <= i < |txs| ==> FullCost(txs[i]) < 0x1_0000_0000_0000_0000
  }

  /** Sender and position of each pending transaction. */
  ghost function Places(contents: map<Address, seq<Block>>): set<(Address, int)> {
    set a, i | a in contents && 0 <= i < |Flat(contents[a])| :: (a, i)
  }

  /** Popping shortens one sender's pending transactions. */
  lemma PoppedPlaces(before: map<Address, seq<Block>>, after: map<Address, seq<Block>>, addr: Address)
    requires addr in before && before[addr] != [] && before[addr][0] != []
    requires after == before[addr := Popped(before[addr])]
    ensures Places(after) < Places(before)
    ensures CostsFit(before) ==> CostsFit(after) && FullCost(before[addr][0][0]) < 0x1_0000_0000_0000_0000
  {
    PoppedFlat(before[addr]);
    var f := Flat(before[addr]);
    hide Flat, Popped, FullCost;
    assert (addr, |f| - 1) in Places(before) && (addr, |f| - 1) !in Places(after);
    if CostsFit(before) {
      assert AllFit(f);
      assert forall i :: 0 <= i < |f[1..]| ==> f[1..][i] == f[i + 1];
    }
  }

  ghost function BlocksIn(contents: map<Address, seq<Block>>, a: Address): seq<Block> {
    if a in contents then contents[a] else []
  }

  /** Popping takes the first pending transaction of one sender and leaves the others alone. */
  lemma TakenFirst(before: map<Address, seq<Block>>, after: map<Address, seq<Block>>, addr: Address)
    requires addr in before && before[addr] != [] && before[addr][0] != [] && before[addr][0][0].from == addr
    requires after == before[addr := Popped(before[addr])]
    ensures forall a :: Flat(BlocksIn(before, a))
                        == FailedOf(Some(before[addr][0][0]), a) + Flat(BlocksIn(after, a))
  {
    hide Flat, Popped;
    PoppedFlat(before[addr]);
    forall a ensures Flat(BlocksIn(before, a)) == FailedOf(Some(before[addr][0][0]), a) + Flat(BlocksIn(after, a)) {
      var f := Flat(BlocksIn(before, a));
      if a == addr { assert f == [f[0]] + f[1..]; }
    }
  }

  lemma Regrouped(x: seq<Tx>, y: seq<Tx>, z: seq<Tx>)
    ensures x + [] + (y + z) == x + y + z == (x + y) + [] + z
  {
  }

  class BlockMaker {
    const txpool: DefaultPool
    const state: StatDB
    var transactions: seq<Tx>
    var receipts: seq<Receipt>

    constructor (txpool: DefaultPool)
      ensures this.txpool == txpool && state == txpool.stat && transactions == [] && receipts == []
    {
      this.txpool, state, transactions, receipts := txpool, txpool.stat, [], [];
    }

    ghost predicate Valid()
      reads this, txpool, state, txpool.owner.Keys
    {
      state == txpool.stat && txpool.Valid()
    }

    /** The accounts after one more packed transaction. */
    ghost predicate Step(before: map<Address, Account>, after: map<Address, Account>, tx: Tx) {
      && Executable(before, tx) && after == Executed(before, tx) && Nonce(before, tx.from) < MAX_NONCE
      && Payable(before, tx) && Transferred(before, after, tx)
    }

    /**
     * Pops one transaction and packs it if it executes. One that does not is gone from the pool, is not in the
     * block, and has touched no account.
     */
    method PackOne() returns (packed: bool, ghost tx: Option<Tx>, ghost addr: Address)
      requires Valid()
      modifies this`transactions, this`receipts, state, txpool, txpool.owner.Keys
      ensures Valid() && txpool.owner == old(txpool.owner)
      ensures tx == None ==> forall a :: txpool.Blocks(a) == [] && old(txpool.Blocks(a)) == []
      ensures tx != None ==>
              var v := old(txpool.Blocks(addr));
              && v != [] && v[0] != [] && tx.value == v[0][0] && tx.value.from == addr
              && addr in old(txpool.contents) && txpool.contents == old(txpool.contents)[addr := Popped(v)]
      ensures packed <==> tx != None && Payable(old(state.accounts), tx.value)
      ensures transactions == if packed then old(transactions) + [tx.value] else old(transactions)
      ensures receipts == if packed then old(receipts) + [Receipt(1, 21000)] else old(receipts)
      ensures packed ==> Step(old(state.accounts), state.accounts, tx.value)
      ensures !packed ==> state.accounts == old(state.accounts)
    {
      hide Ordered;
      ghost var before := txpool.contents;
      packed := false;
      var popped;
      popped, addr := txpool.Pop();
      tx := popped;
      if popped == None {
        return;
      }
      var r := ExecutePopped(popped.value, before[addr]);
      if r.status == 0 {
        return;
      }
      transactions := transactions + [popped.value];
      receipts := receipts + [r];
      packed := true;
    }

    /** Executes what was popped: its sender's pending side is ordered against the account before and after. */
    method ExecutePopped(tx: Tx, ghost v: seq<Block>) returns (r: Receipt)
      requires Valid() && v != [] && v[0] != [] && txpool.Blocks(tx.from) == Popped(v)
      requires Ordered(tx.from, Nonce(state.accounts, tx.from), v, txpool.Queue(tx.from), 2)
      modifies state
      ensures Valid()
      ensures r.status == 0 ==> state.accounts == old(state.accounts) && !Payable(state.accounts, tx)
      ensures r.status != 0 ==> r == Receipt(1, 21000) && Step(old(state.accounts), state.accounts, tx)
      ensures r.status != 0 ==> Payable(old(state.accounts), tx)
    {
      hide Ordered, Popped, Payable, Transferred;
      ghost var before := state.accounts;
      PoppedOrdered(tx.from, Nonce(before, tx.from), v, txpool.Queue(tx.from));
      r := Execute(state, tx);
      if r.status == 1 {
        forall a: Address
          ensures Ordered(a, Nonce(state.accounts, a), txpool.Blocks(a), txpool.Queue(a), 2)
        {
          ExecutedNonces(before, tx, a);
          assert old(Ordered(a, Nonce(state.accounts, a), txpool.Blocks(a), txpool.Queue(a), 2));
        }
      }
    }

    /**
     * Packs until nothing is left or a transaction fails; that one has left the pool and is not in the block. The
     * block is a run of payable transactions, which takes each sender's pending ones in order. Balances change by
     * exactly the fees paid, and each sender's nonce goes up by the number of its transactions in the block.
     */
    method Pack() returns (ghost failed: Option<Tx>)
      requires Valid()
      modifies this`transactions, this`receipts, state, txpool, txpool.owner.Keys
      ensures Valid()
      ensures |old(transactions)| <= |transactions| && transactions[..|old(transactions)|] == old(transactions)
      ensures failed == None ==> forall a: Address :: txpool.Blocks(a) == []
      ensures failed != None ==> !Payable(state.accounts, failed.value)
      ensures var packed := transactions[|old(transactions)|..];
              && Plays(old(state.accounts), packed, state.accounts)
              && receipts == old(receipts) + seq(|packed|, _ => Receipt(1, 21000))
              && (forall a: Address :: old(Flat(txpool.Blocks(a)))
                    == OfSender(packed, a) + FailedOf(failed, a) + Flat(txpool.Blocks(a)))
              && (forall a: Address :: Nonce(state.accounts, a) == Nonce(old(state.accounts), a) + CountFrom(packed, a))
              && (old(CostsFit(txpool.contents)) && Total(old(state.accounts)) < W ==>
                    Total(old(state.accounts)) == Total(state.accounts) + Fees(packed))
    {
      hide CostsFit, Places, FullCost, Executed, Executable, DefaultPool.Valid, Payable, Transferred, Plays, OfSender,
           Flat, Popped;
      ghost var start := transactions;
      ghost var packed: seq<Tx> := [];
      var more := true;
      failed := None;
      PlaysNone(state.accounts);
      while more
        invariant Valid() && txpool.owner == old(txpool.owner) && transactions == start + packed
        invariant Plays(old(state.accounts), packed, state.accounts)
        invariant receipts == old(receipts) + seq(|packed|, _ => Receipt(1, 21000))
        invariant forall a: Address :: old(Flat(txpool.Blocks(a)))
                    == OfSender(packed, a) + FailedOf(failed, a) + Flat(txpool.Blocks(a))
        invariant more ==> failed == None
        invariant !more && failed == None ==> forall a: Address :: txpool.Blocks(a) == []
        invariant failed != None ==> !Payable(state.accounts, failed.value)
        invariant forall a: Address :: Nonce(state.accounts, a) == Nonce(old(state.accounts), a) + CountFrom(packed, a)
        invariant old(CostsFit(txpool.contents)) && more ==> CostsFit(txpool.contents)
        invariant (old(CostsFit(txpool.contents)) && Total(old(state.accounts)) < W) ==>
                    Total(old(state.accounts)) == Total(state.accounts) + Fees(packed) && Fees(packed) >= 0
        decreases more, Places(txpool.contents)
      {
        ghost var before, pool := state.accounts, txpool.contents;
        ghost var tx, addr;
        more, tx, addr := PackOne();
        if tx != None {
          TakenFirst(pool, txpool.contents, addr);
          forall a: Address
            ensures old(Flat(txpool.Blocks(a))) == OfSender(packed, a) + FailedOf(tx, a) + Flat(txpool.Blocks(a))
            ensures more ==> (old(Flat(txpool.Blocks(a)))
                              == OfSender(packed + [tx.value], a) + FailedOf(None, a) + Flat(txpool.Blocks(a)))
          {
            OfSenderSnoc(packed, tx.value, a);
            Regrouped(OfSender(packed, a), FailedOf(tx, a), Flat(txpool.Blocks(a)));
          }
        }
        if more {
          PoppedPlaces(pool, txpool.contents, addr);
          FeesSnoc(packed, tx.value);
          StepEffect(before, state.accounts, tx.value);
          PlaysSnoc(old(state.accounts), packed, before, tx.value, state.accounts);
          packed := packed + [tx.value];
          assert transactions == start + packed;
        } else {
          failed := tx;
        }
      }
      assert transactions[|start|..] == packed;
    }

    lemma PlaysNone(accounts: map<Address, Account>)
      ensures Plays(accounts, [], accounts) && forall a :: OfSender([], a) == []
    {
    }

    /** One packed transaction: the sender's nonce goes up by one, and without wrapping only the fee leaves. */
    lemma StepEffect(before: map<Address, Account>, after: map<Address, Account>, tx: Tx)
      requires Step(before, after, tx)
      ensures forall a: Address :: Nonce(after, a) == Nonce(before, a) + (if a == tx.from then 1 else 0)
      ensures FullCost(tx) < 0x1_0000_0000_0000_0000 && Total(before) < 0x1_0000_0000_0000_0000 ==>
              Total(before) == Total(after) + 21000 * tx.gasPrice
    {
      if FullCost(tx) < 0x1_0000_0000_0000_0000 && Total(before) < 0x1_0000_0000_0000_0000 {
        Conservation(before, tx);
      }
      forall a: Address ensures Nonce(after, a) == Nonce(before, a) + (if a == tx.from then 1 else 0) {
        ExecutedNonces(before, tx, a);
      }
    }
  }
}
