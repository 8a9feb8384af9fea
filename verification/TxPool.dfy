/** The transaction pool: pending blocks as shared objects, and a queue, per sender. */
module TxPool {
  import opened Words
  import opened Ledger
  import opened Options
  import opened PoolSide
  import opened PoolEffects

  /** A block of pending transactions; one object is shared by everything that refers to it. */
  class SortedTxs {
    var txs: seq<Tx>

    constructor (tx: Tx)
      ensures txs == [tx]
    {
      txs := [tx];
    }

    method Push(tx: Tx)
      modifies this
      ensures txs == old(txs) + [tx]
    {
      txs := txs + [tx];
    }

    method Pop() returns (tx: Option<Tx>)
      modifies this
      ensures if old(txs) == [] then tx == None && txs == [] else tx == Some(old(txs)[0]) && txs == old(txs)[1..]
    {
      if |txs| == 0 {
        return None;
      }
      tx, txs := Some(txs[0]), txs[1..];
    }

    /** Puts tx in place of the first transaction with its nonce. */
    method Replace(tx: Tx)
      modifies this
      ensures txs == ReplaceIn(old(txs), tx) && |txs| == |old(txs)|
      ensures forall i :: 0 <= i < |txs| ==>
                txs[i] == if old(txs)[i].nonce == tx.nonce && forall j :: 0 <= j < i ==> old(txs)[j].nonce != tx.nonce
                          then tx else old(txs)[i]
    {
      var i := 0;
      while i < |txs|
        invariant 0 <= i <= |txs| && txs == old(txs)
        invariant forall j :: 0 <= j < i ==> txs[j].nonce != tx.nonce
      {
        if txs[i].nonce == tx.nonce {
          txs := txs[i := tx];
          return;
        }
        i := i + 1;
      }
    }
  }

  class DefaultPool {
    const stat: StatDB
    var pendings: map<Address, seq<SortedTxs>>
    var queue: map<Address, seq<Tx>>
    /** What the pending blocks hold, and whose each block is. */
    ghost var contents: map<Address, seq<Block>>
    ghost var owner: map<SortedTxs, Address>

    constructor (stat: StatDB)
      ensures this.stat == stat && Valid() && (forall a: Address :: Blocks(a) == [] && Queue(a) == []) && owner == map[]
    {
      this.stat, pendings, queue, contents, owner := stat, map[], map[], map[], map[];
      assert Flat([]) == [];
    }

    /** No block is pending twice, or for two senders, and each holds what `contents` says. */
    ghost predicate Linked()
      reads this, owner.Keys
    {
      && contents.Keys == pendings.Keys
      && forall a :: a in pendings ==> LinkedAt(a)
    }

    ghost predicate LinkedAt(a: Address)
      requires a in pendings && a in contents
      reads this, owner.Keys
    {
      var blks, v := pendings[a], contents[a];
      && |blks| == |v|
      && (forall i :: 0 <= i < |blks| ==> blks[i] in owner && owner[blks[i]] == a && blks[i].txs == v[i])
      && (forall i, j :: 0 <= i < j < |blks| ==> blks[i] != blks[j])
    }

    function PendingOf(a: Address): seq<SortedTxs>
      reads this
    {
      if a in pendings then pendings[a] else []
    }

    function Queue(a: Address): seq<Tx>
      reads this
    {
      if a in queue then queue[a] else []
    }

    ghost function Blocks(a: Address): seq<Block>
      reads this
    {
      if a in contents then contents[a] else []
    }

    /** Everything that runs of pool and executor keep: each sender's side is ordered against its account. */
    ghost predicate Valid()
      reads this, stat, owner.Keys
    {
      Linked() && AllOrdered()
    }

    ghost predicate AllOrdered()
      reads this, stat
    {
      forall a: Address :: Ordered(a, Nonce(stat.accounts, a), Blocks(a), Queue(a), 2)
    }

    /** Only this sender's side has changed, and every block is one there was before or a new one. */
    twostate predicate Only(addr: Address)
      reads this, owner.Keys
    {
      && Linked()
      && (forall b :: b in owner ==> b in old(owner) || fresh(b))
      && (forall a: Address :: a != addr ==> Blocks(a) == old(Blocks(a)) && Queue(a) == old(Queue(a)))
    }

    /** One sender's blocks, as objects and as contents. */
    lemma AtSender(a: Address)
      requires Linked()
      ensures |PendingOf(a)| == |Blocks(a)|
      ensures forall i :: 0 <= i < |PendingOf(a)| ==>
                PendingOf(a)[i].txs == Blocks(a)[i] && PendingOf(a)[i] in owner && owner[PendingOf(a)[i]] == a
      ensures forall i, j :: 0 <= i < j < |PendingOf(a)| ==> PendingOf(a)[i] != PendingOf(a)[j]
      ensures PendingOf(a) != [] ==> a in pendings && a in contents
    {
    }

    /** Links survive a change that leaves the blocks of other senders alone and relinks this one's. */
    twostate lemma Relinked(addr: Address)
      requires old(Linked()) && addr in pendings && addr in contents
      requires pendings == old(pendings)[addr := pendings[addr]] && contents == old(contents)[addr := contents[addr]]
      requires forall b :: b in old(owner) ==>
                 b in owner && owner[b] == old(owner[b]) && (owner[b] != addr ==> b.txs == old(b.txs))
      requires LinkedAt(addr)
      ensures Linked()
    {
      forall a | a in pendings && a != addr ensures LinkedAt(a) {
        assert old(LinkedAt(a));
      }
    }

    method PopFromQueue(addr: Address) returns (tx: Option<Tx>)
      modifies this`queue
      ensures if old(Queue(addr)) == [] then tx == None && queue == old(queue)
              else tx == Some(old(Queue(addr))[0]) && queue == old(queue)[addr := old(Queue(addr))[1..]]
    {
      var list := Queue(addr);
      if |list| == 0 {
        return None;
      }
      tx := Some(list[0]);
      queue := queue[addr := list[1..]];
    }

    method MakeNewBlock(addr: Address, tx: Tx)
      requires Linked()
      modifies this`pendings, this`owner, this`contents
      ensures Only(addr) && queue == old(queue)
      ensures Blocks(addr) == old(Blocks(addr)) + [[tx]]
    {
      AtSender(addr);
      ghost var v := Blocks(addr);
      var blks := PendingOf(addr);
      var blk := new SortedTxs(tx);
      pendings := pendings[addr := blks + [blk]];
      contents := contents[addr := v + [[tx]]];
      owner := owner[blk := addr];
      Relinked(addr);
    }

    /** Into the sender's last block. */
    method PushLast(addr: Address, tx: Tx)
      requires Linked() && PendingOf(addr) != []
      modifies this`contents, owner.Keys
      ensures Only(addr) && owner == old(owner)
      ensures var v := old(Blocks(addr)); v != [] && Blocks(addr) == v[..|v| - 1] + [v[|v| - 1] + [tx]]
    {
      hide Linked;
      AtSender(addr);
      var blks := PendingOf(addr);
      ghost var v := Blocks(addr);
      blks[|blks| - 1].Push(tx);
      contents := contents[addr := v[..|v| - 1] + [v[|v| - 1] + [tx]]];
      Relinked(addr);
    }

    /** Adds the next pending transaction, then promotes from the queue. */
    method PushPendingTx(addr: Address, tx: Tx)
      requires Linked()
      modifies this`pendings, this`queue, this`owner, this`contents, owner.Keys
      ensures Only(addr)
      ensures (Blocks(addr), Queue(addr)) == Promoted(Pushed(old(Blocks(addr)), tx), old(Queue(addr)))
      decreases |Queue(addr)|, 2
    {
      hide Promoted, Linked;
      AtSender(addr);
      var blks := PendingOf(addr);
      if |blks| == 0 {
        MakeNewBlock(addr, tx);
      } else {
        var last := blks[|blks| - 1];
        if HeadPrice(last.txs) <= tx.gasPrice {
          PushLast(addr, tx);
        } else {
          MakeNewBlock(addr, tx);
        }
      }
      PromoteQueueToPending(addr);
    }

    /** One round of promotion: the first queued transaction is pushed, which promotes the rest in turn. */
    method PromoteFirst(addr: Address)
      requires Linked() && Queue(addr) != []
      modifies this`pendings, this`queue, this`owner, this`contents, owner.Keys
      ensures Only(addr)
      ensures (Blocks(addr), Queue(addr))
           == Promoted(Pushed(old(Blocks(addr)), old(Queue(addr))[0]), old(Queue(addr))[1..])
      decreases |Queue(addr)|, 0
    {
      hide Promoted, Pushed;
      var tx := PopFromQueue(addr);
      PushPendingTx(addr, tx.value);
    }

    method PromoteQueueToPending(addr: Address)
      requires Linked()
      modifies this`pendings, this`queue, this`owner, this`contents, owner.Keys
      ensures Only(addr)
      ensures (Blocks(addr), Queue(addr)) == Promoted(old(Blocks(addr)), old(Queue(addr)))
      decreases |Queue(addr)|, 1
    {
      hide Promoted, Pushed, Next, LastOf;
      ghost var v0, q0 := Blocks(addr), Queue(addr);
      var blks := PendingOf(addr);
      if |blks| == 0 {
        PromotedUnfold(v0, q0);
        return;
      }
      var lastNonce := LastOf(blks[|blks| - 1].txs);
      var list := Queue(addr);
      while |list| > 0 && list[0].nonce == Next(lastNonce)
        invariant Only(addr) && list == Queue(addr) && |list| <= |q0|
        invariant blks == PendingOf(addr) && |blks| > 0 && lastNonce == LastOf(blks[|blks| - 1].txs)
        invariant Promoted(Blocks(addr), list) == Promoted(v0, q0)
        decreases |list|
      {
        PromotedUnfold(Blocks(addr), list);
        PromoteFirst(addr);
        blks := PendingOf(addr);
        lastNonce := LastOf(blks[|blks| - 1].txs);
        list := Queue(addr);
      }
      PromotedUnfold(Blocks(addr), list);
    }

    /** A later transaction waits in the queue. */
    method AddQueue(tx: Tx)
      requires Increasing(Queue(tx.from))
      modifies this`queue
      ensures queue == old(queue)[tx.from := Queued(old(Queue(tx.from)), tx)]
      ensures Enqueued(old(Queue(tx.from)), tx, Queue(tx.from))
    {
      hide Increasing, Queued, SortedByNonce, Enqueued;
      QueuedEffect(Queue(tx.from), tx);
      ghost var q := Queue(tx.from);
      var list, replaced := ReplaceQueued(Queue(tx.from), tx);
      if !replaced {
        list := list + [tx];
      }
      SortedIsQueued(q, tx, list);
      queue := queue[tx.from := list];
      queue := queue[tx.from := SortedByNonce(Queue(tx.from))];
    }

    /** In place of the pending transaction with the same nonce, if its block's price allows. */
    method ReplacePendingTx(addr: Address, tx: Tx)
      requires Linked()
      modifies this`contents, owner.Keys
      ensures Only(addr) && Blocks(addr) == Replaced(old(Blocks(addr)), tx)
    {
      hide Linked;
      AtSender(addr);
      var blks := PendingOf(addr);
      ghost var v := Blocks(addr);
      var i := 0;
      while i < |blks| && !Takes(blks[i].txs, tx)
        invariant 0 <= i <= |blks|
        invariant forall j :: 0 <= j < i ==> !Takes(v[j], tx)
      {
        i := i + 1;
      }
      assert TakingBlock(v, tx) == i;
      if i < |blks| {
        blks[i].Replace(tx);
        contents := contents[addr := v[i := ReplaceIn(v[i], tx)]];
        Relinked(addr);
      }
    }

    /**
     * Receives a transaction, whose sender's side changes by its effect and no other's does. All senders stay in
     * order unless the sender has reached the greatest nonce.
     */
    method NewTx(arrived: Tx, now: u64)
      requires Valid()
      modifies this`pendings, this`queue, this`owner, this`contents, owner.Keys
      ensures Linked()
      ensures var n := Nonce(stat.accounts, arrived.from);
              Valid() <==> arrived.nonce < n || Top(n, old(Blocks(arrived.from))) < MAX_NONCE
      ensures var a := arrived.from;
              Effect(Nonce(stat.accounts, a), old(Blocks(a)), old(Queue(a)), arrived.(time := now), Blocks(a), Queue(a))
      ensures forall a :: a != arrived.from ==> Blocks(a) == old(Blocks(a)) && Queue(a) == old(Queue(a))
    {
      hide Accepted, Ordered, Linked, Top, Effect;
      ghost var a := arrived.from;
      ghost var n, v, q := Nonce(stat.accounts, a), Blocks(a), Queue(a);
      var loaded := stat.Load(arrived.from);
      var account := if loaded == None then Account(0, 0) else loaded.value;
      AcceptedOrderedExactly(a, n, v, q, arrived.(time := now));
      AcceptedEffect(a, n, v, q, arrived.(time := now));
      if arrived.nonce < account.nonce {
        AcceptedOld(n, v, q, arrived.(time := now));
        return;
      }
      QueueIncreasing(a, n, v, q);
      Accept(account.nonce, arrived.(time := now));
    }

    /** Sorts a transaction that is not below its account's nonce into pending side or queue. */
    method Accept(accountNonce: u64, tx: Tx)
      requires Linked() && tx.nonce >= accountNonce && Increasing(Queue(tx.from))
      modifies this`pendings, this`queue, this`owner, this`contents, owner.Keys
      ensures Only(tx.from)
      ensures (Blocks(tx.from), Queue(tx.from)) == Accepted(accountNonce, old(Blocks(tx.from)), old(Queue(tx.from)), tx)
    {
      hide Promoted, Pushed, Replaced, Queued, Increasing;
      var nonce := accountNonce;
      var blks := PendingOf(tx.from);
      if |blks| > 0 {
        nonce := LastOf(blks[|blks| - 1].txs);
      }
      if tx.nonce > Next(nonce) {
        AddQueue(tx);
      } else if tx.nonce == Next(nonce) {
        PushPendingTx(tx.from, tx);
      } else {
        ReplacePendingTx(tx.from, tx);
      }
    }

    /** Takes the first pending transaction of a sender, and its block away when that leaves it empty. */
    method PopPendingTx(addr: Address) returns (tx: Option<Tx>)
      requires Valid()
      modifies this`pendings, this`contents, owner.Keys
      ensures Valid() && queue == old(queue) && owner == old(owner)
      ensures old(Blocks(addr)) != [] ==> addr in old(contents) && contents == old(contents)[addr := Blocks(addr)]
      ensures old(Blocks(addr)) == [] ==> contents == old(contents)
      ensures var v := old(Blocks(addr));
              if v == [] then tx == None && Blocks(addr) == v
              else v[0] != [] && tx == Some(v[0][0]) && Blocks(addr) == Popped(v)
      ensures var v := old(Blocks(addr));
              v != [] ==> Blocks(addr) == (if |v[0]| == 1 then [] else [v[0][1..]]) + v[1..]
    {
      hide Ordered;
      AtSender(addr);
      ghost var n, v, q := Nonce(stat.accounts, addr), Blocks(addr), Queue(addr);
      var blks := PendingOf(addr);
      if |blks| == 0 {
        return None;
      }
      BlocksNonempty(addr, n, v, q);
      PoppedOrdered(addr, n, v, q);
      tx := PopFirst(addr);
    }

    method PopFirst(addr: Address) returns (tx: Option<Tx>)
      requires Linked() && Blocks(addr) != [] && Blocks(addr)[0] != []
      modifies this`pendings, this`contents, owner.Keys
      ensures Only(addr) && owner == old(owner)
      ensures tx == Some(old(Blocks(addr))[0][0]) && Blocks(addr) == Popped(old(Blocks(addr)))
      ensures addr in old(contents) && contents == old(contents)[addr := Blocks(addr)]
    {
      hide Linked;
      AtSender(addr);
      ghost var v := Blocks(addr);
      var blks := PendingOf(addr);
      var block := blks[0];
      tx := block.Pop();
      contents := contents[addr := Popped(v)];
      if |block.txs| == 0 {
        pendings := pendings[addr := blks[1..]];
      }
      Relinked(addr);
    }

    /** Takes the first pending transaction of some sender that has one; which sender is left open. */
    method Pop() returns (tx: Option<Tx>, ghost addr: Address)
      requires Valid()
      modifies this`pendings, this`contents, owner.Keys
      ensures Valid() && queue == old(queue) && owner == old(owner)
      ensures tx == None ==> forall a :: Blocks(a) == [] && old(Blocks(a)) == []
      ensures tx != None ==>
              var v := old(Blocks(addr)); v != [] && v[0] != [] && tx.value == v[0][0] && Blocks(addr) == Popped(v)
      ensures tx != None ==> addr in old(contents) && contents == old(contents)[addr := Blocks(addr)]
      ensures tx != None ==>
              tx.value.from == addr && Ordered(addr, Nonce(stat.accounts, addr), old(Blocks(addr)), Queue(addr), 2)
    {
      hide Ordered;
      addr := 0;
      var senders := set a | a in pendings && |pendings[a]| > 0;
      if senders == {} {
        forall a: Address ensures Blocks(a) == [] {
          AtSender(a);
          assert a !in senders;
        }
        return None, 0;
      }
      var a :| a in senders;
      AtSender(a);
      addr := a;
      FirstFrom(a, Nonce(stat.accounts, a), Blocks(a), Queue(a));
      tx := PopPendingTx(a);
    }

    /** Drops what has expired or fallen behind from every queue, and nothing else. */
    method CleanExpiredTxs(minNonces: map<Address, u64>, now: u64)
      requires Valid()
      modifies this`queue
      ensures Valid()
      ensures forall a: Address :: Blocks(a) == old(Blocks(a))
      ensures forall a: Address :: Increasing(Queue(a))
      ensures forall a: Address, tx: Tx :: tx in Queue(a) <==>
                tx in old(Queue(a)) && tx.nonce >= (if a in minNonces then minNonces[a] else 0)
                && (now - tx.time) % 0x1_0000_0000_0000_0000 <= 600
    {
      hide Ordered, Kept, Keeps, Increasing;
      var left := queue.Keys;
      while left != {}
        invariant left <= old(queue.Keys) == queue.Keys
        invariant forall a: Address :: a in left ==> Queue(a) == old(Queue(a))
        invariant forall a: Address :: a !in left && a in queue ==>
                    Queue(a) == Kept(old(Queue(a)), MinNonce(minNonces, a), now)
        decreases left
      {
        var a :| a in left;
        var newTxs := KeepTxs(queue[a], MinNonce(minNonces, a), now);
        queue := queue[a := newTxs];
        left := left - {a};
      }
      forall a: Address
        ensures Queue(a) == Kept(old(Queue(a)), MinNonce(minNonces, a), now)
        ensures Ordered(a, Nonce(stat.accounts, a), Blocks(a), Queue(a), 2)
      {
        KeptNone(MinNonce(minNonces, a), now);
        KeptOrdered(a, Nonce(stat.accounts, a), Blocks(a), old(Queue(a)), MinNonce(minNonces, a), now);
      }
      forall a: Address
        ensures Increasing(Queue(a))
        ensures forall tx :: tx in Queue(a) <==>
                  tx in old(Queue(a)) && tx.nonce >= (if a in minNonces then minNonces[a] else 0)
                  && (now - tx.time) % 0x1_0000_0000_0000_0000 <= 600
      {
        QueueIncreasing(a, Nonce(stat.accounts, a), Blocks(a), old(Queue(a)));
        KeptFrom(old(Queue(a)), MinNonce(minNonces, a), now);
        KeepsWhen(MinNonce(minNonces, a), now);
      }
    }
  }

  method KeepTxs(q: seq<Tx>, minNonce: u64, now: u64) returns (r: seq<Tx>)
    ensures r == Kept(q, minNonce, now)
  {
    r := [];
    var i := 0;
    while i < |q|
      invariant 0 <= i <= |q| && r == Kept(q[..i], minNonce, now)
    {
      assert q[..i + 1][..i] == q[..i];
      if Keeps(q[i], minNonce, now) {
        r := r + [q[i]];
      }
      i := i + 1;
    }
    assert q[..i] == q;
  }

  /** The scan for an equal nonce. */
  method ReplaceQueued(q: seq<Tx>, tx: Tx) returns (list: seq<Tx>, replaced: bool)
    ensures replaced <==> IndexOf(q, tx.nonce) < |q|
    ensures list == if replaced then Queued(q, tx) else q
  {
    list, replaced := q, false;
    var i := 0;
    while i < |list|
      invariant 0 <= i <= |list| && list == q && forall j :: 0 <= j < i ==> q[j].nonce != tx.nonce
    {
      var was := list[i];
      if was.nonce == tx.nonce {
        assert IndexOf(q, tx.nonce) == i;
        if tx.gasPrice > was.gasPrice {
          list := list[i := tx];
        }
        return list, true;
      }
      i := i + 1;
    }
  }
}
