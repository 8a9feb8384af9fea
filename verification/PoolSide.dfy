/** One sender's side of the transaction pool, on values: blocks of pending transactions and a queue of later ones. */
module PoolSide {
  import opened Words
  import opened Ledger
  import opened Options

  const MAX_NONCE: u64 := 0xFFFF_FFFF_FFFF_FFFF

  // What the pool does to one sender's transactions, on values.

  type Block = seq<Tx>

  function HeadPrice(b: Block): u64 { if b == [] then 0 else b[0].gasPrice }

  function FirstOf(b: Block): u64 { if b == [] then 0 else b[0].nonce }

  function LastOf(b: Block): u64 { if b == [] then 0 else b[|b| - 1].nonce }

  /** The pending transactions in order. */
  function Flat(v: seq<Block>): seq<Tx> {
    if v == [] then [] else Flat(v[..|v| - 1]) + v[|v| - 1]
  }

  lemma {:induction false} FlatConcat(v: seq<Block>, w: seq<Block>)
    ensures Flat(v + w) == Flat(v) + Flat(w)
  {
    if w == [] {
      assert v + w == v;
    } else {
      var w' := w[..|w| - 1];
      assert (v + w)[..|v + w| - 1] == v + w';
      FlatConcat(v, w');
    }
  }

  lemma FlatOne(b: Block)
    ensures Flat([b]) == b
  {
    assert [b][..0] == [];
  }

  /** The nonce the next pending transaction is measured against: the last pending one, or the account's. */
  function Top(n: u64, v: seq<Block>): u64 {
    if v == [] then n else LastOf(v[|v| - 1])
  }

  /** Nonces that go up by one. */
  ghost predicate Consecutive(s: seq<Tx>) {
    forall i :: 0 <= i < |s| ==> s[i].nonce == s[0].nonce + i
  }

  ghost predicate Increasing(s: seq<Tx>) {
    forall i, j :: 0 <= i < j < |s| ==> s[i].nonce < s[j].nonce
  }

  /** Transactions of one sender. */
  ghost predicate Of(a: Address, s: seq<Tx>) {
    forall i :: 0 <= i < |s| ==> s[i].from == a
  }

  /**
   * Pending blocks and queue of a sender whose account has nonce n: blocks are never empty, pending nonces are
   * consecutive and above n, and the queue increases and starts at least `gap` above the last of them.
   */
  ghost predicate Ordered(a: Address, n: u64, v: seq<Block>, q: seq<Tx>, gap: nat) {
    && (forall i :: 0 <= i < |v| ==> v[i] != [])
    && Of(a, Flat(v)) && Consecutive(Flat(v)) && (v != [] ==> Flat(v) != [] && Flat(v)[0].nonce > n)
    && Of(a, q) && Increasing(q) && (q != [] ==> q[0].nonce >= Top(n, v) + gap)
  }

  lemma TopIsLast(n: u64, v: seq<Block>)
    requires forall i :: 0 <= i < |v| ==> v[i] != []
    ensures v != [] ==> Flat(v) != [] && Top(n, v) == Flat(v)[|Flat(v)| - 1].nonce
  {
  }

  /** Into the last block if the price allows, else into a new one. */
  function Pushed(v: seq<Block>, tx: Tx): seq<Block> {
    if v != [] && HeadPrice(v[|v| - 1]) <= tx.gasPrice then v[..|v| - 1] + [v[|v| - 1] + [tx]] else v + [[tx]]
  }

  lemma PushedFlat(v: seq<Block>, tx: Tx)
    ensures Flat(Pushed(v, tx)) == Flat(v) + [tx]
    ensures Pushed(v, tx) != [] && LastOf(Pushed(v, tx)[|Pushed(v, tx)| - 1]) == tx.nonce
    ensures (forall i :: 0 <= i < |v| ==> v[i] != []) ==>
            (forall i :: 0 <= i < |Pushed(v, tx)| ==> Pushed(v, tx)[i] != [])
  {
    if v != [] && HeadPrice(v[|v| - 1]) <= tx.gasPrice {
      var w := v[..|v| - 1] + [v[|v| - 1] + [tx]];
      assert w[..|w| - 1] == v[..|v| - 1];
    } else {
      assert (v + [[tx]])[..|v|] == v;
    }
  }

  function Next(n: u64): u64 { Wrap(n + 1) }

  /** Queued transactions move over for as long as the next nonce is there. */
  function Promoted(v: seq<Block>, q: seq<Tx>): (r: (seq<Block>, seq<Tx>))
    decreases |q|
  {
    if v != [] && q != [] && q[0].nonce == Next(LastOf(v[|v| - 1])) then Promoted(Pushed(v, q[0]), q[1..]) else (v, q)
  }

  /** Promotion is complete: doing it again does nothing. */
  lemma {:induction false} PromotedOnce(v: seq<Block>, q: seq<Tx>)
    ensures var (w, r) := Promoted(v, q); Promoted(w, r) == (w, r)
    decreases |q|
  {
    if v != [] && q != [] && q[0].nonce == Next(LastOf(v[|v| - 1])) {
      PromotedOnce(Pushed(v, q[0]), q[1..]);
    }
  }

  /** Promotion loses, doubles and reorders nothing: a beginning of the queue moves behind the pending ones. */
  lemma {:induction false} PromotedKeeps(v: seq<Block>, q: seq<Tx>)
    ensures var (w, r) := Promoted(v, q);
            && Flat(w) + r == Flat(v) + q && Flat(v) <= Flat(w) && |r| <= |q| && (v != [] ==> w != [])
    decreases |q|
  {
    hide Flat, Pushed, Next, LastOf;
    if v != [] && q != [] && q[0].nonce == Next(LastOf(v[|v| - 1])) {
      PushedFlat(v, q[0]);
      PromotedKeeps(Pushed(v, q[0]), q[1..]);
      MoveFirst(Flat(v), q);
    }
  }

  lemma MoveFirst(f: seq<Tx>, q: seq<Tx>)
    requires q != []
    ensures (f + [q[0]]) + q[1..] == f + q
    ensures f <= f + [q[0]]
  {
    assert q == [q[0]] + q[1..];
  }

  /** Accepting the next nonce keeps the pending side in order; the queue may then touch it. */
  lemma PushedOrdered(a: Address, n: u64, v: seq<Block>, q: seq<Tx>, tx: Tx)
    requires Ordered(a, n, v, q, 2) && tx.from == a && tx.nonce == Top(n, v) + 1
    ensures Ordered(a, n, Pushed(v, tx), q, 1)
  {
    TopIsLast(n, v);
    PushedFlat(v, tx);
    var f := Flat(v);
    forall i | 0 <= i < |f + [tx]| ensures (f + [tx])[i].nonce == (f + [tx])[0].nonce + i {
    }
  }

  /** Promotion closes the gap that a push may leave: afterwards the queue starts beyond the next nonce again. */
  lemma {:induction false} PromotedOrdered(a: Address, n: u64, v: seq<Block>, q: seq<Tx>)
    requires Ordered(a, n, v, q, 1) && v != []
    ensures var (w, r) := Promoted(v, q); Ordered(a, n, w, r, 2)
    decreases |q|
  {
    if q != [] && q[0].nonce == Next(LastOf(v[|v| - 1])) {
      TopIsLast(n, v);
      PushedFlat(v, q[0]);
      var f, tx := Flat(v), q[0];
      forall i | 0 <= i < |f + [tx]| ensures (f + [tx])[i].nonce == (f + [tx])[0].nonce + i {
      }
      PromotedOrdered(a, n, Pushed(v, q[0]), q[1..]);
    }
  }

  // The queue.

  /** Insertion in nonce order, behind equal nonces. */
  function InsertNonce(q: seq<Tx>, tx: Tx): seq<Tx> {
    if q == [] || q[|q| - 1].nonce <= tx.nonce then q + [tx]
    else InsertNonce(q[..|q| - 1], tx) + [q[|q| - 1]]
  }

  /** Sorting by nonce. */
  function SortedByNonce(s: seq<Tx>): seq<Tx> {
    if s == [] then [] else InsertNonce(SortedByNonce(s[..|s| - 1]), s[|s| - 1])
  }

  ghost predicate NonDecreasing(s: seq<Tx>) {
    forall i, j :: 0 <= i < j < |s| ==> s[i].nonce <= s[j].nonce
  }

  lemma {:induction false} InsertMultiset(q: seq<Tx>, tx: Tx)
    ensures multiset(InsertNonce(q, tx)) == multiset(q) + multiset{tx}
  {
    if q != [] && q[|q| - 1].nonce > tx.nonce {
      var init, last := q[..|q| - 1], q[|q| - 1];
      assert q == init + [last];
      InsertMultiset(init, tx);
    }
  }

  lemma InsertMember(q: seq<Tx>, tx: Tx, i: nat)
    requires i < |InsertNonce(q, tx)|
    ensures InsertNonce(q, tx)[i] == tx || InsertNonce(q, tx)[i] in q
  {
    InsertMultiset(q, tx);
    var r := InsertNonce(q, tx);
    assert r[i] in multiset(r);
  }

  lemma {:induction false} InsertSorted(q: seq<Tx>, tx: Tx)
    requires NonDecreasing(q)
    ensures NonDecreasing(InsertNonce(q, tx))
    ensures Increasing(q) && (forall i :: 0 <= i < |q| ==> q[i].nonce != tx.nonce) ==> Increasing(InsertNonce(q, tx))
  {
    if q != [] && q[|q| - 1].nonce > tx.nonce {
      var init, last := q[..|q| - 1], q[|q| - 1];
      InsertSorted(init, tx);
      var r := InsertNonce(init, tx);
      hide InsertNonce;
      forall i | 0 <= i < |r| ensures r[i].nonce <= last.nonce && (Increasing(q) ==> r[i].nonce < last.nonce) {
        InsertMember(init, tx, i);
      }
    }
  }

  /** It does sort. */
  lemma {:induction false} SortIsSort(s: seq<Tx>)
    ensures NonDecreasing(SortedByNonce(s)) && multiset(SortedByNonce(s)) == multiset(s)
  {
    if s != [] {
      SortIsSort(s[..|s| - 1]);
      InsertSorted(SortedByNonce(s[..|s| - 1]), s[|s| - 1]);
      InsertMultiset(SortedByNonce(s[..|s| - 1]), s[|s| - 1]);
      assert s == s[..|s| - 1] + [s[|s| - 1]];
    }
  }

  lemma {:induction false} SortOfSorted(s: seq<Tx>)
    requires Increasing(s)
    ensures SortedByNonce(s) == s
  {
    if s != [] {
      SortOfSorted(s[..|s| - 1]);
    }
  }

  /** The first position of a nonce, or the length. */
  function IndexOf(q: seq<Tx>, nonce: u64): (i: nat)
    ensures i <= |q| && (i < |q| ==> q[i].nonce == nonce)
    ensures forall j :: 0 <= j < i ==> q[j].nonce != nonce
  {
    if q == [] || q[0].nonce == nonce then 0 else 1 + IndexOf(q[1..], nonce)
  }

  /** A new nonce goes into its place; a nonce already there is replaced at a higher price only. */
  function Queued(q: seq<Tx>, tx: Tx): seq<Tx> {
    var i := IndexOf(q, tx.nonce);
    if i == |q| then InsertNonce(q, tx) else if tx.gasPrice > q[i].gasPrice then q[i := tx] else q
  }

  lemma QueuedContents(q: seq<Tx>, tx: Tx)
    requires Increasing(q)
    ensures Increasing(Queued(q, tx))
    ensures IndexOf(q, tx.nonce) == |q| ==> multiset(Queued(q, tx)) == multiset(q) + multiset{tx}
    ensures IndexOf(q, tx.nonce) < |q| ==> |Queued(q, tx)| == |q|
    ensures forall i :: 0 <= i < |Queued(q, tx)| ==> Queued(q, tx)[i] == tx || Queued(q, tx)[i] in q
  {
    var i := IndexOf(q, tx.nonce);
    if i == |q| {
      InsertSorted(q, tx);
      InsertMultiset(q, tx);
      forall k | 0 <= k < |Queued(q, tx)| ensures Queued(q, tx)[k] == tx || Queued(q, tx)[k] in q {
        InsertMember(q, tx, k);
      }
    }
  }

  lemma QueuedOrdered(a: Address, n: u64, v: seq<Block>, q: seq<Tx>, tx: Tx)
    requires Ordered(a, n, v, q, 2) && tx.from == a && tx.nonce >= Top(n, v) + 2
    ensures Ordered(a, n, v, Queued(q, tx), 2)
  {
    QueuedContents(q, tx);
    var r := Queued(q, tx);
    forall i | 0 <= i < |r| ensures r[i].from == a && r[i].nonce >= Top(n, v) + 2 {
      if r[i] != tx {
        var j :| 0 <= j < |q| && q[j] == r[i];
        assert q[0].nonce <= q[j].nonce;
      }
    }
  }

  // Replacing a pending transaction.

  function ReplaceIn(b: Block, tx: Tx): Block {
    var i := IndexOf(b, tx.nonce);
    if i < |b| then b[i := tx] else b
  }

  predicate Takes(b: Block, tx: Tx) {
    FirstOf(b) <= tx.nonce && LastOf(b) >= tx.nonce && HeadPrice(b) <= tx.gasPrice
  }

  function TakingBlock(v: seq<Block>, tx: Tx): (i: nat)
    ensures i <= |v| && (i < |v| ==> Takes(v[i], tx)) && (forall j :: 0 <= j < i ==> !Takes(v[j], tx))
  {
    if v == [] || Takes(v[0], tx) then 0 else 1 + TakingBlock(v[1..], tx)
  }

  function Replaced(v: seq<Block>, tx: Tx): seq<Block> {
    var i := TakingBlock(v, tx);
    if i < |v| then v[i := ReplaceIn(v[i], tx)] else v
  }

  lemma FlatSplit(v: seq<Block>, i: nat)
    requires i < |v|
    ensures Flat(v) == Flat(v[..i]) + v[i] + Flat(v[i + 1..])
  {
    hide Flat;
    SplitAt(v, i);
    FlatAround(v[..i], v[i], v[i + 1..]);
  }

  lemma SplitAt<T>(s: seq<T>, i: nat)
    requires i < |s|
    ensures s == (s[..i] + [s[i]]) + s[i + 1..]
  {
  }

  lemma FlatAround(a: seq<Block>, x: Block, c: seq<Block>)
    ensures Flat((a + [x]) + c) == Flat(a) + x + Flat(c)
  {
    hide Flat;
    FlatConcat(a, [x]);
    FlatOne(x);
    FlatConcat(a + [x], c);
  }

  /** Where a block's transactions are among all pending ones. */
  lemma BlockAt(v: seq<Block>, i: nat) returns (p: nat)
    requires i < |v|
    ensures p + |v[i]| <= |Flat(v)|
    ensures forall j :: 0 <= j < |v[i]| ==> v[i][j] == Flat(v)[p + j]
    ensures forall b :: |b| == |v[i]| ==> Flat(v[i := b]) == Flat(v)[..p] + b + Flat(v)[p + |v[i]|..]
  {
    hide Flat;
    p := |Flat(v[..i])|;
    FlatSplit(v, i);
    forall b: Block | |b| == |v[i]| ensures Flat(v[i := b]) == Flat(v)[..p] + b + Flat(v)[p + |v[i]|..] {
      FlatSplit(v[i := b], i);
      assert v[i := b][..i] == v[..i] && v[i := b][i + 1..] == v[i + 1..];
      assert Flat(v)[..p] == Flat(v[..i]) && Flat(v)[p + |v[i]|..] == Flat(v[i + 1..]);
    }
  }

  /**
   * A replacement puts the transaction exactly where its nonce is, and happens if and only if the block holding
   * that nonce opens at no higher price.
   */
  lemma ReplacedFlat(a: Address, n: u64, v: seq<Block>, q: seq<Tx>, tx: Tx)
    requires Ordered(a, n, v, q, 2)
    ensures TakingBlock(v, tx) == |v| ==> Flat(Replaced(v, tx)) == Flat(v)
    ensures TakingBlock(v, tx) < |v| ==>
            var k := tx.nonce - Flat(v)[0].nonce; 0 <= k < |Flat(v)| && Flat(Replaced(v, tx)) == Flat(v)[k := tx]
  {
    hide Flat;
    var i := TakingBlock(v, tx);
    if i < |v| {
      var b, f := v[i], Flat(v);
      var p := BlockAt(v, i);
      BlockIndex(b, f, p, tx);
      var m := tx.nonce - b[0].nonce;
      var c := b[m := tx];
      assert Flat(v[i := c]) == f[..p] + c + f[p + |b|..];
      SpliceUpdate(f, p, b, m, tx);
    }
  }

  /** Where a nonce stands in a block of consecutive ones. */
  lemma BlockIndex(b: Block, f: seq<Tx>, p: nat, tx: Tx)
    requires b != [] && Consecutive(f) && p + |b| <= |f| && FirstOf(b) <= tx.nonce <= LastOf(b)
    requires forall j :: 0 <= j < |b| ==> b[j] == f[p + j]
    ensures var m := tx.nonce - b[0].nonce;
            0 <= m < |b| && IndexOf(b, tx.nonce) == m && tx.nonce - f[0].nonce == p + m
  {
    assert forall j :: 0 <= j < |b| ==> b[j].nonce == f[0].nonce + p + j;
    assert b[tx.nonce - b[0].nonce].nonce == tx.nonce;
  }

  lemma SpliceUpdate(f: seq<Tx>, p: nat, b: seq<Tx>, m: nat, tx: Tx)
    requires p + |b| <= |f| && m < |b| && forall j :: 0 <= j < |b| ==> b[j] == f[p + j]
    ensures f[..p] + b[m := tx] + f[p + |b|..] == f[p + m := tx]
  {
  }

  lemma ReplacedOrdered(a: Address, n: u64, v: seq<Block>, q: seq<Tx>, tx: Tx)
    requires Ordered(a, n, v, q, 2) && tx.from == a
    ensures Ordered(a, n, Replaced(v, tx), q, 2)
  {
    ReplacedFlat(a, n, v, q, tx);
    var w := Replaced(v, tx);
    assert forall i :: 0 <= i < |w| ==> |w[i]| == |v[i]|;
    if v != [] {
      TopIsLast(n, v);
      TopIsLast(n, w);
    }
  }

  // Taking the first pending transaction.

  function Popped(v: seq<Block>): seq<Block>
    requires v != [] && v[0] != []
  {
    if |v[0]| == 1 then v[1..] else v[0 := v[0][1..]]
  }

  lemma PoppedFlat(v: seq<Block>)
    requires v != [] && v[0] != []
    ensures Flat(v) != [] && v[0][0] == Flat(v)[0] && Flat(Popped(v)) == Flat(v)[1..]
  {
    FlatFirst(v);
    hide Flat;
    if |v[0]| > 1 {
      FlatFirst(Popped(v));
      assert Popped(v)[1..] == v[1..];
    }
  }

  lemma FlatFirst(v: seq<Block>)
    requires v != []
    ensures Flat(v) == v[0] + Flat(v[1..])
  {
    hide Flat;
    assert v == [v[0]] + v[1..];
    FlatConcat([v[0]], v[1..]);
    FlatOne(v[0]);
  }

  /** Popping keeps the order, for the account as it is and for the account after executing what was popped. */
  lemma PoppedOrdered(a: Address, n: u64, v: seq<Block>, q: seq<Tx>)
    requires Ordered(a, n, v, q, 2) && v != []
    ensures Ordered(a, n, Popped(v), q, 2) && n < MAX_NONCE && Ordered(a, n + 1, Popped(v), q, 2)
  {
    PoppedFlat(v);
    var f, w := Flat(v), Popped(v);
    TopIsLast(n, v);
    TopIsLast(n, w);
    TopIsLast(n + 1, w);
    hide Flat;
    assert forall i :: 0 <= i < |f[1..]| ==> f[1..][i] == f[i + 1];
  }

  // One new transaction, on values.

  /** What a new transaction does to its sender's blocks and queue, given the account's nonce. */
  function Accepted(n: u64, v: seq<Block>, q: seq<Tx>, tx: Tx): (seq<Block>, seq<Tx>) {
    var nonce := Top(n, v);
    if tx.nonce < n then (v, q)
    else if tx.nonce > Next(nonce) then (v, Queued(q, tx))
    else if tx.nonce == Next(nonce) then Promoted(Pushed(v, tx), q)
    else (Replaced(v, tx), q)
  }

  /** Any transaction keeps the order while the last pending nonce, or the account's, is not the greatest. */
  lemma AcceptedOrdered(a: Address, n: u64, v: seq<Block>, q: seq<Tx>, tx: Tx)
    requires Ordered(a, n, v, q, 2) && tx.from == a && (tx.nonce < n || Top(n, v) < MAX_NONCE)
    ensures var (w, r) := Accepted(n, v, q, tx); Ordered(a, n, w, r, 2)
  {
    hide Ordered, Promoted, Pushed, Replaced, Queued;
    if tx.nonce >= n {
      if tx.nonce > Next(Top(n, v)) {
        QueuedOrdered(a, n, v, q, tx);
      } else if tx.nonce == Next(Top(n, v)) {
        PushedOrdered(a, n, v, q, tx);
        PushedFlat(v, tx);
        PromotedOrdered(a, n, Pushed(v, tx), q);
      } else {
        ReplacedOrdered(a, n, v, q, tx);
      }
    }
  }

  /** Behind the greatest nonce the next one wraps to 0: whatever is accepted lands out of order. */
  lemma GreatestNonceDisorders(a: Address, n: u64, v: seq<Block>, q: seq<Tx>, tx: Tx)
    requires Ordered(a, n, v, q, 2) && tx.from == a && tx.nonce >= n && Top(n, v) == MAX_NONCE
    ensures var (w, r) := Accepted(n, v, q, tx); !Ordered(a, n, w, r, 2)
  {
    assert q == [] && Next(MAX_NONCE) == 0;
    if tx.nonce > 0 {
      assert IndexOf(q, tx.nonce) == 0 && Queued(q, tx) == [] + [tx] == [tx];
    } else {
      assert v != [];
      PushedFlat(v, tx);
      TopIsLast(n, v);
      var f, g := Flat(v), Flat(Pushed(v, tx));
      assert g[0] == f[0] && g[|f|] == tx;
    }
  }

  /** So the order is kept exactly under a condition that can be checked beforehand. */
  lemma AcceptedOrderedExactly(a: Address, n: u64, v: seq<Block>, q: seq<Tx>, tx: Tx)
    requires Ordered(a, n, v, q, 2) && tx.from == a
    ensures var (w, r) := Accepted(n, v, q, tx); Ordered(a, n, w, r, 2) <==> tx.nonce < n || Top(n, v) < MAX_NONCE
  {
    hide Accepted, Ordered, Top;
    if tx.nonce < n || Top(n, v) < MAX_NONCE {
      AcceptedOrdered(a, n, v, q, tx);
    } else {
      GreatestNonceDisorders(a, n, v, q, tx);
    }
  }

  /**
   * Nothing is lost and nothing doubled: the next nonce joins the pending side and takes the beginning of the queue
   * that continues it along; a later one joins the queue; any other leaves both at their lengths.
   */
  lemma AcceptedKeeps(a: Address, n: u64, v: seq<Block>, q: seq<Tx>, tx: Tx)
    requires Ordered(a, n, v, q, 2)
    ensures var (w, r) := Accepted(n, v, q, tx);
            && (tx.nonce >= n && tx.nonce == Top(n, v) + 1 ==>
                  Flat(w) + r == Flat(v) + [tx] + q && Flat(v) + [tx] <= Flat(w) && Promoted(w, r) == (w, r))
            && (tx.nonce >= n && tx.nonce > Top(n, v) + 1 && IndexOf(q, tx.nonce) == |q| ==>
                  w == v && multiset(r) == multiset(q) + multiset{tx})
            && (tx.nonce < n || (tx.nonce <= Top(n, v) < MAX_NONCE) ==> |Flat(w)| == |Flat(v)| && r == q)
  {
    hide Promoted, Pushed, Queued, Replaced, Flat, TakingBlock, Ordered, Top, LastOf;
    QueueIncreasing(a, n, v, q);
    if tx.nonce >= n && Top(n, v) < MAX_NONCE {
      if tx.nonce > Next(Top(n, v)) {
        QueuedContents(q, tx);
      } else if tx.nonce == Next(Top(n, v)) {
        PushedFlat(v, tx);
        PromotedKeeps(Pushed(v, tx), q);
        PromotedOnce(Pushed(v, tx), q);
      } else {
        ReplacedFlat(a, n, v, q, tx);
      }
    }
  }

  /** The greatest nonce pending, and the same nonce again: queued behind itself instead of replacing. */
  lemma GreatestNonceWraps(a: Address, p: Tx, tx: Tx)
    requires p.from == tx.from == a && p.nonce == tx.nonce == MAX_NONCE
    ensures Ordered(a, MAX_NONCE - 1, [[p]], [], 2)
    ensures Accepted(MAX_NONCE - 1, [[p]], [], tx) == ([[p]], [tx]) && !Ordered(a, MAX_NONCE - 1, [[p]], [tx], 2)
  {
    FlatOne([p]);
    assert InsertNonce([], tx) == [tx];
    GreatestNonceDisorders(a, MAX_NONCE - 1, [[p]], [], tx);
  }

  // Expiry.

  predicate Keeps(tx: Tx, minNonce: u64, now: u64) {
    tx.nonce >= minNonce && Wrap(now - tx.time) <= 600
  }

  lemma KeepsWhen(minNonce: u64, now: u64)
    ensures forall tx :: Keeps(tx, minNonce, now) <==>
              tx.nonce >= minNonce && (now - tx.time) % 0x1_0000_0000_0000_0000 <= 600
  {
  }

  function Kept(q: seq<Tx>, minNonce: u64, now: u64): seq<Tx> {
    if q == [] then []
    else if Keeps(q[|q| - 1], minNonce, now) then Kept(q[..|q| - 1], minNonce, now) + [q[|q| - 1]]
    else Kept(q[..|q| - 1], minNonce, now)
  }

  /** What is kept is in the same order, and is exactly what has neither expired nor fallen behind. */
  lemma {:induction false} KeptFrom(q: seq<Tx>, minNonce: u64, now: u64)
    ensures forall i :: 0 <= i < |Kept(q, minNonce, now)| ==> Kept(q, minNonce, now)[i] in q
    ensures forall tx :: tx in Kept(q, minNonce, now) <==> tx in q && Keeps(tx, minNonce, now)
    ensures Increasing(q) ==> Increasing(Kept(q, minNonce, now))
  {
    if q != [] {
      var init, last := q[..|q| - 1], q[|q| - 1];
      KeptFrom(init, minNonce, now);
      assert q == init + [last];
      forall i | 0 <= i < |Kept(init, minNonce, now)| && Increasing(q)
        ensures Kept(init, minNonce, now)[i].nonce < last.nonce
      {
        assert Kept(init, minNonce, now)[i] in init;
      }
    }
  }

  lemma KeptOrdered(a: Address, n: u64, v: seq<Block>, q: seq<Tx>, minNonce: u64, now: u64)
    requires Ordered(a, n, v, q, 2)
    ensures Ordered(a, n, v, Kept(q, minNonce, now), 2)
  {
    KeptFrom(q, minNonce, now);
    var r := Kept(q, minNonce, now);
    forall i | 0 <= i < |r| ensures r[i].from == a && r[i].nonce >= Top(n, v) + 2 {
      var j :| 0 <= j < |q| && q[j] == r[i];
      assert q[0].nonce <= q[j].nonce;
    }
  }

  lemma FirstFrom(a: Address, n: u64, v: seq<Block>, q: seq<Tx>)
    requires Ordered(a, n, v, q, 2) && v != []
    ensures v[0] != [] && v[0][0].from == a
  {
    PoppedFlat(v);
  }

  function MinNonce(minNonces: map<Address, u64>, a: Address): u64 {
    if a in minNonces then minNonces[a] else 0
  }

  lemma KeptNone(minNonce: u64, now: u64)
    ensures Kept([], minNonce, now) == []
  {
  }

  lemma BlocksNonempty(a: Address, n: u64, v: seq<Block>, q: seq<Tx>)
    requires Ordered(a, n, v, q, 2)
    ensures forall i :: 0 <= i < |v| ==> v[i] != []
  {
  }

  lemma AcceptedOld(n: u64, v: seq<Block>, q: seq<Tx>, tx: Tx)
    requires tx.nonce < n
    ensures Accepted(n, v, q, tx) == (v, q)
  {
  }

  /** Sorting the list with the new transaction at its end, or in place of another, puts it where it belongs. */
  lemma SortedIsQueued(q: seq<Tx>, tx: Tx, list: seq<Tx>)
    requires Increasing(q) && list == if IndexOf(q, tx.nonce) < |q| then Queued(q, tx) else q + [tx]
    ensures SortedByNonce(list) == Queued(q, tx)
  {
    QueuedContents(q, tx);
    if IndexOf(q, tx.nonce) < |q| {
      SortOfSorted(list);
    } else {
      SortOfSorted(q);
      assert list[..|list| - 1] == q;
    }
  }

  lemma QueueIncreasing(a: Address, n: u64, v: seq<Block>, q: seq<Tx>)
    requires Ordered(a, n, v, q, 2)
    ensures Increasing(q)
  {
  }

  /** One step of promotion, which either is the last or leaves nothing to promote in its result. */
  lemma PromotedUnfold(v: seq<Block>, q: seq<Tx>)
    ensures if v != [] && q != [] && q[0].nonce == Next(LastOf(v[|v| - 1])) then
              var (w, r) := Promoted(Pushed(v, q[0]), q[1..]);
              && Promoted(v, q) == (w, r) == Promoted(w, r) && w != [] && |r| < |q|
            else Promoted(v, q) == (v, q)
  {
    if v != [] && q != [] && q[0].nonce == Next(LastOf(v[|v| - 1])) {
      PushedFlat(v, q[0]);
      PromotedOnce(Pushed(v, q[0]), q[1..]);
      PromotedKeeps(Pushed(v, q[0]), q[1..]);
    }
  }
}
