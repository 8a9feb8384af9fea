/**
 * What a new transaction does to its sender's side of the pool, stated by what is where before and after, and that
 * this leaves nothing open.
 */
module PoolEffects {
  import opened Words
  import opened Ledger
  import opened PoolSide

  /** The last nonce of the pending transactions, or the account's. */
  function LastNonce(n: u64, f: seq<Tx>): u64 {
    if f == [] then n else f[|f| - 1].nonce
  }

  /** A nonce already queued is replaced at a higher price only; another one joins the queue. */
  ghost predicate Enqueued(q: seq<Tx>, tx: Tx, r: seq<Tx>) {
    if exists i :: 0 <= i < |q| && q[i].nonce == tx.nonce then
      && |r| == |q|
      && forall i :: 0 <= i < |q| ==> r[i] == if q[i].nonce == tx.nonce && tx.gasPrice > q[i].gasPrice then tx else q[i]
    else
      Increasing(r) && multiset(r) == multiset(q) + multiset{tx}
  }

  /**
   * How v grows: the last block is filled up and new ones are opened. What joins a block pays at least the price the
   * block opens at, and a block is opened by what pays less than the one before.
   */
  ghost predicate Grouped(v: seq<Block>, w: seq<Block>) {
    && |v| <= |w| && (forall i :: 0 <= i < |w| ==> w[i] != [])
    && (forall i :: 0 <= i < |v| - 1 ==> w[i] == v[i]) && (v != [] ==> v[|v| - 1] <= w[|v| - 1])
    && (forall i, k :: 0 <= i < |w| && 0 < k < |w[i]| && (i < |v| ==> k >= |v[i]|) ==>
          w[i][k].gasPrice >= w[i][0].gasPrice)
    && (forall i, j :: 0 < i < |w| && i >= |v| && j == i - 1 ==> w[i][0].gasPrice < w[j][0].gasPrice)
  }

  /** From place p on each nonce is the one before plus one. */
  ghost predicate Chained(g: seq<Tx>, p: nat) {
    forall i, j :: p <= i < |g| && 0 <= j == i - 1 ==> g[i].nonce == (g[j].nonce + 1) % 0x1_0000_0000_0000_0000
  }

  /** The next nonce after g is not the first of r. */
  ghost predicate Stopped(g: seq<Tx>, r: seq<Tx>) {
    g != [] && (r != [] ==> r[0].nonce != (g[|g| - 1].nonce + 1) % 0x1_0000_0000_0000_0000)
  }

  /** The transaction joins the pending side, and the queue follows it for as long as the next nonce is there. */
  ghost predicate Appended(v: seq<Block>, q: seq<Tx>, tx: Tx, w: seq<Block>, r: seq<Tx>) {
    var f, g := Flat(v), Flat(w);
    g + r == f + [tx] + q && |f| < |g| && Chained(g, |f| + 1) && Stopped(g, r) && Grouped(v, w)
  }

  /** The pending transaction with the same nonce is replaced if its block opens at no higher price. */
  ghost predicate Substituted(v: seq<Block>, tx: Tx, w: seq<Block>) {
    && |w| == |v| && (forall i :: 0 <= i < |v| ==> |w[i]| == |v[i]|)
    && forall i, k :: 0 <= i < |v| && 0 <= k < |v[i]| ==>
         w[i][k] == if v[i][k].nonce == tx.nonce && v[i][0].gasPrice <= tx.gasPrice then tx else v[i][k]
  }

  /** All of it: blocks v and queue q, of an account with nonce n, become w and r. */
  ghost predicate Effect(n: u64, v: seq<Block>, q: seq<Tx>, tx: Tx, w: seq<Block>, r: seq<Tx>) {
    var next := (LastNonce(n, Flat(v)) + 1) % 0x1_0000_0000_0000_0000;
    if tx.nonce < n then w == v && r == q
    else if tx.nonce > next then w == v && Enqueued(q, tx, r)
    else if tx.nonce == next then Appended(v, q, tx, w, r)
    else r == q && Substituted(v, tx, w)
  }

  // The queue.

  lemma QueuedEffect(q: seq<Tx>, tx: Tx)
    requires Increasing(q)
    ensures Enqueued(q, tx, Queued(q, tx))
  {
    QueuedContents(q, tx);
    var i := IndexOf(q, tx.nonce);
    if i < |q| {
      assert forall j :: 0 <= j < |q| && j != i ==> q[j].nonce != tx.nonce;
    }
  }

  // Pushing and promoting.

  lemma PushedGrouped(v: seq<Block>, tx: Tx)
    requires forall i :: 0 <= i < |v| ==> v[i] != []
    ensures Grouped(v, Pushed(v, tx))
  {
  }

  lemma GroupedTwice(v: seq<Block>, w: seq<Block>, x: seq<Block>)
    requires Grouped(v, w) && Grouped(w, x)
    ensures Grouped(v, x)
  {
    assert forall i :: 0 <= i < |w| ==> w[i] <= x[i];
    forall i, k | 0 <= i < |x| && 0 < k < |x[i]| && (i < |v| ==> k >= |v[i]|)
      ensures x[i][k].gasPrice >= x[i][0].gasPrice
    {
      if i < |w| && k < |w[i]| { assert w[i][k].gasPrice >= w[i][0].gasPrice; }
    }
    forall i, j | 0 < i < |x| && i >= |v| && j == i - 1 ensures x[i][0].gasPrice < x[j][0].gasPrice {
      if i < |w| { assert w[i][0].gasPrice < w[j][0].gasPrice; }
    }
  }

  lemma ChainedFrom(f: seq<Tx>, t: Tx, g: seq<Tx>)
    requires f != [] && f + [t] <= g && Chained(g, |f| + 1)
    requires t.nonce == (f[|f| - 1].nonce + 1) % 0x1_0000_0000_0000_0000
    ensures Chained(g, |f|)
  {
    assert g[|f|] == t && g[|f| - 1] == f[|f| - 1];
  }

  /** Promotion groups as it goes, takes consecutive nonces, and stops where the next one is missing. */
  lemma {:induction false} PromotedEffect(v: seq<Block>, q: seq<Tx>)
    requires v != [] && forall i :: 0 <= i < |v| ==> v[i] != []
    ensures var (w, r) := Promoted(v, q);
            Grouped(v, w) && Flat(v) <= Flat(w) && Chained(Flat(w), |Flat(v)|) && Stopped(Flat(w), r)
    decreases |q|
  {
    hide Grouped, Flat, Pushed, Chained, Stopped, Next, LastOf;
    NextAfter(v);
    if q != [] && q[0].nonce == Next(LastOf(v[|v| - 1])) {
      var x := Pushed(v, q[0]);
      PushedFlat(v, q[0]);
      PushedGrouped(v, q[0]);
      PromotedEffect(x, q[1..]);
      var (w, r) := Promoted(v, q);
      hide Promoted;
      GroupedTwice(v, x, w);
      ChainedFrom(Flat(v), q[0], Flat(w));
    } else {
      GroupedItself(v);
      ChainedEnd(Flat(v));
      StoppedAt(v, q);
    }
  }

  lemma NextAfter(v: seq<Block>)
    requires v != [] && forall i :: 0 <= i < |v| ==> v[i] != []
    ensures var f := Flat(v);
            f != [] && Next(LastOf(v[|v| - 1])) == (f[|f| - 1].nonce + 1) % 0x1_0000_0000_0000_0000
  {
    TopIsLast(0, v);
  }

  lemma StoppedAt(v: seq<Block>, q: seq<Tx>)
    requires v != [] && (forall i :: 0 <= i < |v| ==> v[i] != [])
    requires q != [] ==> q[0].nonce != Next(LastOf(v[|v| - 1]))
    ensures Stopped(Flat(v), q)
  {
    hide Flat;
    NextAfter(v);
  }

  lemma GroupedItself(v: seq<Block>)
    requires forall i :: 0 <= i < |v| ==> v[i] != []
    ensures Grouped(v, v)
  {
  }

  lemma ChainedEnd(f: seq<Tx>)
    ensures Chained(f, |f|)
  {
  }

  lemma AppendedByPush(v: seq<Block>, q: seq<Tx>, tx: Tx)
    requires forall i :: 0 <= i < |v| ==> v[i] != []
    ensures var (w, r) := Promoted(Pushed(v, tx), q); Appended(v, q, tx, w, r)
  {
    var x := Pushed(v, tx);
    PushedGrouped(v, tx);
    PushedFlat(v, tx);
    hide Grouped, Flat, Pushed, Promoted, Chained, Stopped;
    PromotedKeeps(x, q);
    PromotedEffect(x, q);
    var (w, r) := Promoted(x, q);
    GroupedTwice(v, x, w);
    assert |Flat(v) + [tx]| == |Flat(v)| + 1;
  }

  // Replacing.

  /** Where block i starts among all pending transactions. */
  function Start(v: seq<Block>, i: nat): nat
    requires i <= |v|
  {
    |Flat(v[..i])|
  }

  lemma {:induction false} StartBeyond(v: seq<Block>, i: nat, j: nat)
    requires i < j <= |v|
    ensures Start(v, j) >= Start(v, i) + |v[i]|
  {
    var w := v[..j];
    assert w[..j - 1] == v[..j - 1];
    if i < j - 1 { StartBeyond(v, i, j - 1); }
  }

  lemma AtStart(v: seq<Block>, i: nat, k: nat)
    requires i < |v| && k < |v[i]|
    ensures Start(v, i) + k < |Flat(v)| && Flat(v)[Start(v, i) + k] == v[i][k]
  {
    hide Flat;
    FlatSplit(v, i);
  }

  /** Each nonce is pending at one place. */
  lemma OnePlace(v: seq<Block>, i: nat, k: nat, j: nat, m: nat)
    requires Consecutive(Flat(v)) && i < |v| && k < |v[i]| && j < |v| && m < |v[j]| && v[i][k].nonce == v[j][m].nonce
    ensures i == j && k == m
  {
    hide Flat, Start;
    AtStart(v, i, k);
    AtStart(v, j, m);
    if i < j { StartBeyond(v, i, j); }
    if j < i { StartBeyond(v, j, i); }
  }

  /** A block of consecutive nonces holds every nonce between its first and its last. */
  lemma HoldsNonce(v: seq<Block>, i: nat, tx: Tx) returns (k: nat)
    requires Consecutive(Flat(v)) && i < |v| && v[i] != [] && FirstOf(v[i]) <= tx.nonce <= LastOf(v[i])
    ensures k < |v[i]| && v[i][k].nonce == tx.nonce && IndexOf(v[i], tx.nonce) == k
  {
    hide Flat;
    var p := BlockAt(v, i);
    BlockIndex(v[i], Flat(v), p, tx);
    k := tx.nonce - v[i][0].nonce;
  }

  /** A nonce in a block is between its first and its last. */
  lemma WithinBlock(v: seq<Block>, i: nat, k: nat)
    requires Consecutive(Flat(v)) && i < |v| && k < |v[i]|
    ensures FirstOf(v[i]) <= v[i][k].nonce <= LastOf(v[i])
  {
    hide Flat, Start;
    AtStart(v, i, 0);
    AtStart(v, i, k);
    AtStart(v, i, |v[i]| - 1);
  }

  lemma ReplacedEffect(v: seq<Block>, tx: Tx)
    requires Consecutive(Flat(v)) && forall i :: 0 <= i < |v| ==> v[i] != []
    ensures Substituted(v, tx, Replaced(v, tx))
  {
    hide Flat, Consecutive;
    var i, w := TakingBlock(v, tx), Replaced(v, tx);
    var m: nat := 0;
    if i < |v| { m := HoldsNonce(v, i, tx); }
    forall j, k | 0 <= j < |v| && 0 <= k < |v[j]|
      ensures |w[j]| == |v[j]|
      ensures w[j][k] == if v[j][k].nonce == tx.nonce && v[j][0].gasPrice <= tx.gasPrice then tx else v[j][k]
    {
      if v[j][k].nonce == tx.nonce {
        WithinBlock(v, j, k);
        if i < |v| { OnePlace(v, j, k, i, m); }
      }
    }
  }

  /** What a new transaction does is its effect, whatever the nonces are. */
  lemma AcceptedEffect(a: Address, n: u64, v: seq<Block>, q: seq<Tx>, tx: Tx)
    requires Ordered(a, n, v, q, 2)
    ensures var (w, r) := Accepted(n, v, q, tx); Effect(n, v, q, tx, w, r)
  {
    OrderedParts(a, n, v, q);
    hide Ordered, Flat, Grouped, Pushed, Promoted, Replaced, Queued, Enqueued, Appended, Substituted, Consecutive,
         Increasing, Top, LastNonce;
    var next := Next(Top(n, v));
    assert next == (LastNonce(n, Flat(v)) + 1) % 0x1_0000_0000_0000_0000;
    hide Next;
    if tx.nonce >= n {
      if tx.nonce > next {
        QueuedEffect(q, tx);
      } else if tx.nonce == next {
        AppendedByPush(v, q, tx);
      } else {
        ReplacedEffect(v, tx);
      }
    }
  }

  lemma OrderedParts(a: Address, n: u64, v: seq<Block>, q: seq<Tx>)
    requires Ordered(a, n, v, q, 2)
    ensures Increasing(q) && Consecutive(Flat(v)) && (forall i :: 0 <= i < |v| ==> v[i] != [])
    ensures Top(n, v) == LastNonce(n, Flat(v))
  {
    TopIsLast(n, v);
    assert v == [] ==> Flat(v) == [];
  }

  // The effect leaves nothing open.

  lemma {:induction false} IncreasingOnce(s: seq<Tx>, t: seq<Tx>)
    requires Increasing(s) && Increasing(t) && multiset(s) == multiset(t)
    ensures s == t
  {
    if s == [] {
      assert |multiset(t)| == |t|;
    } else {
      assert s[0] in multiset(t);
      SameLast(s, t);
      IncreasingInit(s);
      IncreasingInit(t);
      hide Increasing;
      IncreasingOnce(s[..|s| - 1], t[..|t| - 1]);
    }
  }

  lemma IncreasingInit(s: seq<Tx>)
    requires s != [] && Increasing(s)
    ensures Increasing(s[..|s| - 1]) && s == s[..|s| - 1] + [s[|s| - 1]]
    ensures multiset(s[..|s| - 1]) == multiset(s) - multiset{s[|s| - 1]}
  {
    hide Increasing;
    var init, x := s[..|s| - 1], s[|s| - 1];
    assert s == init + [x];
    assert multiset(init + [x]) == multiset(init) + multiset{x};
    assert Increasing(init) by { IncreasingPrefix(s, |s| - 1); }
  }

  lemma IncreasingPrefix(s: seq<Tx>, n: nat)
    requires n <= |s| && Increasing(s)
    ensures Increasing(s[..n])
  {
  }

  lemma SameLast(s: seq<Tx>, t: seq<Tx>)
    requires s != [] && t != [] && Increasing(s) && Increasing(t) && multiset(s) == multiset(t)
    ensures s[|s| - 1] == t[|t| - 1]
  {
    var x, y := s[|s| - 1], t[|t| - 1];
    assert x in multiset(t) && y in multiset(s);
    assert x in t && y in s;
  }

  lemma EnqueuedOnce(q: seq<Tx>, tx: Tx, r: seq<Tx>, r': seq<Tx>)
    requires Enqueued(q, tx, r) && Enqueued(q, tx, r')
    ensures r == r'
  {
    if !(exists i :: 0 <= i < |q| && q[i].nonce == tx.nonce) {
      IncreasingOnce(r, r');
    }
  }

  /** Two ways of growing agree on a block when they agree on those before: neither block ends before the other. */
  lemma BlockOnce(v: seq<Block>, w: seq<Block>, w': seq<Block>, i: nat)
    requires Grouped(v, w) && Grouped(v, w') && Flat(w) == Flat(w') && i < |w| && i < |w'| && w[..i] == w'[..i]
    ensures |w[i]| >= |w'[i]|
  {
    hide Flat, Grouped, Start;
    if |w[i]| < |w'[i]| {
      var k := |w[i]|;
      JoinPays(v, w, w', i);
      SameStart(w, w', i);
      AtStart(w', i, k);
      AtStart(w', i, 0);
      AtStart(w, i, 0);
      NextBlock(v, w, i);
    }
  }

  lemma SameStart(w: seq<Block>, w': seq<Block>, i: nat)
    requires i <= |w| && i <= |w'| && w[..i] == w'[..i]
    ensures Start(w, i) == Start(w', i)
  {
  }

  lemma JoinPays(v: seq<Block>, w: seq<Block>, w': seq<Block>, i: nat)
    requires Grouped(v, w) && Grouped(v, w') && i < |w| && i < |w'| && |w[i]| < |w'[i]|
    ensures |v| - 1 <= i && w[i] != [] && w'[i][|w[i]|].gasPrice >= w'[i][0].gasPrice
  {
    assert i == |v| - 1 ==> |v[i]| <= |w[i]|;
  }

  /** Where a block ends before the transactions do, the next one follows, opening at a lower price. */
  lemma NextBlock(v: seq<Block>, w: seq<Block>, i: nat)
    requires Grouped(v, w) && |v| - 1 <= i < |w| && Start(w, i) + |w[i]| < |Flat(w)|
    ensures Flat(w)[Start(w, i) + |w[i]|].gasPrice < w[i][0].gasPrice
  {
    hide Flat;
    FlatSplit(w, i);
    FlatNone();
    assert w[i + 1..] != [];
    StartNext(w, i);
    AtStart(w, i + 1, 0);
  }

  lemma FlatNone()
    ensures Flat([]) == []
  {
  }

  lemma StartNext(w: seq<Block>, i: nat)
    requires i < |w|
    ensures Start(w, i + 1) == Start(w, i) + |w[i]|
  {
    assert w[..i + 1][..i] == w[..i];
  }

  /** The first blocks agree. */
  lemma {:induction false} BlocksOnce(v: seq<Block>, w: seq<Block>, w': seq<Block>, i: nat)
    requires Grouped(v, w) && Grouped(v, w') && Flat(w) == Flat(w') && i <= |w|
    ensures i <= |w'| && w[..i] == w'[..i]
  {
    hide Flat, Grouped;
    if i > 0 {
      var j := i - 1;
      BlocksOnce(v, w, w', j);
      BlocksLeft(v, w, w', j);
      BlockOnce(v, w, w', j);
      BlockOnce(v, w', w, j);
      SameBlock(v, w, w', j);
      assert w[..i] == w[..j] + [w[j]] && w'[..i] == w'[..j] + [w'[j]];
    }
  }

  lemma BlocksLeft(v: seq<Block>, w: seq<Block>, w': seq<Block>, i: nat)
    requires Grouped(v, w) && Flat(w) == Flat(w') && i < |w| && i <= |w'| && w[..i] == w'[..i]
    ensures i < |w'|
  {
    hide Flat;
    AtStart(w, i, 0);
    assert w'[..|w'|] == w';
  }

  lemma SameBlock(v: seq<Block>, w: seq<Block>, w': seq<Block>, i: nat)
    requires Flat(w) == Flat(w') && i < |w| && i < |w'| && w[..i] == w'[..i] && |w[i]| == |w'[i]|
    ensures w[i] == w'[i]
  {
    hide Flat;
    forall k | 0 <= k < |w[i]| ensures w[i][k] == w'[i][k] {
      AtStart(w, i, k);
      AtStart(w', i, k);
    }
  }

  lemma GroupedOnce(v: seq<Block>, w: seq<Block>, w': seq<Block>)
    requires Grouped(v, w) && Grouped(v, w') && Flat(w) == Flat(w')
    ensures w == w'
  {
    BlocksOnce(v, w, w', |w|);
    BlocksOnce(v, w', w, |w'|);
    assert w[..|w|] == w && w'[..|w'|] == w';
  }

  /** Promotion cannot stop at two places. */
  lemma StopsOnce(g: seq<Tx>, r: seq<Tx>, g': seq<Tx>, r': seq<Tx>, p: nat)
    requires g + r == g' + r' && p <= |g| && Stopped(g, r) && Chained(g', p)
    ensures |g'| <= |g|
  {
    var all := g + r;
    assert all[|g| - 1] == g[|g| - 1] && (r != [] ==> all[|g|] == r[0]);
    assert forall k :: 0 <= k < |g'| ==> all[k] == g'[k];
  }

  lemma AppendedOnce(v: seq<Block>, q: seq<Tx>, tx: Tx, w: seq<Block>, r: seq<Tx>, w': seq<Block>, r': seq<Tx>)
    requires Appended(v, q, tx, w, r) && Appended(v, q, tx, w', r')
    ensures w == w' && r == r'
  {
    hide Flat, Grouped, Chained, Stopped;
    var g, g', p := Flat(w), Flat(w'), |Flat(v)| + 1;
    StopsOnce(g, r, g', r', p);
    StopsOnce(g', r', g, r, p);
    assert g == (g + r)[..|g|] && g' == (g' + r')[..|g|];
    assert r == (g + r)[|g|..] && r' == (g' + r')[|g|..];
    GroupedOnce(v, w, w');
  }

  lemma EffectOnce(n: u64, v: seq<Block>, q: seq<Tx>, tx: Tx, w: seq<Block>, r: seq<Tx>, w': seq<Block>, r': seq<Tx>)
    requires Effect(n, v, q, tx, w, r) && Effect(n, v, q, tx, w', r')
    ensures w == w' && r == r'
  {
    var next := (LastNonce(n, Flat(v)) + 1) % 0x1_0000_0000_0000_0000;
    hide Flat, LastNonce, Enqueued, Appended;
    if tx.nonce >= n {
      if tx.nonce > next {
        EnqueuedOnce(q, tx, r, r');
      } else if tx.nonce == next {
        AppendedOnce(v, q, tx, w, r, w', r');
      } else {
        forall i | 0 <= i < |v| ensures w[i] == w'[i] {
        }
      }
    }
  }

  // Runs of offers to the queue.

  /** The earliest of the dearest offers for its nonce. */
  ghost predicate Best(offers: seq<Tx>, j: nat)
    requires j < |offers|
  {
    forall i :: 0 <= i < |offers| && offers[i].nonce == offers[j].nonce ==>
      offers[i].gasPrice <= offers[j].gasPrice && (i < j ==> offers[i].gasPrice < offers[j].gasPrice)
  }

  /** Every queued transaction is the best offer for its nonce, and every nonce offered is queued. */
  ghost predicate KeepsBest(offers: seq<Tx>, q: seq<Tx>) {
    && Increasing(q)
    && (forall x :: x in q ==> exists j :: 0 <= j < |offers| && offers[j] == x && Best(offers, j))
    && (forall j :: 0 <= j < |offers| ==> exists i :: 0 <= i < |q| && q[i].nonce == offers[j].nonce)
  }

  lemma BestStays(offers: seq<Tx>, j: nat, tx: Tx)
    requires j < |offers| && Best(offers, j) && (tx.nonce == offers[j].nonce ==> tx.gasPrice <= offers[j].gasPrice)
    ensures Best(offers + [tx], j)
  {
  }

  lemma OfferBest(offers: seq<Tx>, q: seq<Tx>, tx: Tx, r: seq<Tx>)
    requires KeepsBest(offers, q) && Enqueued(q, tx, r)
    ensures KeepsBest(offers + [tx], r)
  {
    if exists i :: 0 <= i < |q| && q[i].nonce == tx.nonce {
      ReplaceBest(offers, q, tx, r);
    } else {
      JoinBest(offers, q, tx, r);
    }
  }

  lemma ReplaceBest(offers: seq<Tx>, q: seq<Tx>, tx: Tx, r: seq<Tx>)
    requires KeepsBest(offers, q) && Enqueued(q, tx, r) && exists i :: 0 <= i < |q| && q[i].nonce == tx.nonce
    ensures KeepsBest(offers + [tx], r)
  {
    var all := offers + [tx];
    forall x | x in r ensures exists j :: 0 <= j < |all| && all[j] == x && Best(all, j) {
      var k :| 0 <= k < |r| && r[k] == x;
      ReplacedBest(offers, q, tx, r, k);
    }
    forall j | 0 <= j < |all| ensures exists i :: 0 <= i < |r| && r[i].nonce == all[j].nonce {
      var nonce := all[j].nonce;
      var k :| 0 <= k < |q| && q[k].nonce == nonce;
      assert r[k].nonce == nonce;
    }
  }

  lemma ReplacedBest(offers: seq<Tx>, q: seq<Tx>, tx: Tx, r: seq<Tx>, k: nat)
    requires KeepsBest(offers, q) && Enqueued(q, tx, r) && exists i :: 0 <= i < |q| && q[i].nonce == tx.nonce
    requires k < |r|
    ensures exists j :: 0 <= j <= |offers| && (offers + [tx])[j] == r[k] && Best(offers + [tx], j)
  {
    var all := offers + [tx];
    assert q[k] in q;
    var j :| 0 <= j < |offers| && offers[j] == q[k] && Best(offers, j);
    if q[k].nonce == tx.nonce && tx.gasPrice > q[k].gasPrice {
      assert r[k] == all[|offers|] && Best(all, |offers|);
    } else {
      BestStays(offers, j, tx);
      assert all[j] == r[k];
    }
  }

  lemma JoinBest(offers: seq<Tx>, q: seq<Tx>, tx: Tx, r: seq<Tx>)
    requires KeepsBest(offers, q) && Increasing(r) && multiset(r) == multiset(q) + multiset{tx}
    requires forall i :: 0 <= i < |q| ==> q[i].nonce != tx.nonce
    ensures KeepsBest(offers + [tx], r)
  {
    var all := offers + [tx];
    forall x | x in r ensures exists j :: 0 <= j < |all| && all[j] == x && Best(all, j) {
      assert x in multiset(r);
      if x == tx {
        assert all[|offers|] == tx && Best(all, |offers|);
      } else {
        assert x in q;
        var j :| 0 <= j < |offers| && offers[j] == x && Best(offers, j);
        BestStays(offers, j, tx);
        assert all[j] == x;
      }
    }
    forall j | 0 <= j < |all| ensures exists i :: 0 <= i < |r| && r[i].nonce == all[j].nonce {
      var x := tx;
      if j < |offers| {
        var k :| 0 <= k < |q| && q[k].nonce == offers[j].nonce;
        x := q[k];
      }
      assert x in multiset(r);
      assert x in r;
    }
  }

  /**
   * Over any run of offers to an empty queue, it ends up with exactly the earliest of the dearest transactions
   * offered for each nonce, in nonce order.
   */
  lemma {:induction false} QueueRun(offers: seq<Tx>, queues: seq<seq<Tx>>)
    requires |queues| == |offers| + 1 && queues[0] == []
    requires forall i :: 0 <= i < |offers| ==> Enqueued(queues[i], offers[i], queues[i + 1])
    ensures KeepsBest(offers, queues[|offers|])
    ensures forall x :: x in queues[|offers|] <==> exists j :: 0 <= j < |offers| && offers[j] == x && Best(offers, j)
  {
    if offers != [] {
      var init, last := offers[..|offers| - 1], offers[|offers| - 1];
      QueueRun(init, queues[..|offers|]);
      OfferBest(init, queues[|init|], last, queues[|offers|]);
      assert offers == init + [last];
    }
    hide Enqueued;
    forall j | 0 <= j < |offers| && Best(offers, j) ensures offers[j] in queues[|offers|] {
      BestQueued(offers, queues[|offers|], j);
    }
  }

  lemma BestQueued(offers: seq<Tx>, q: seq<Tx>, j: nat)
    requires KeepsBest(offers, q) && j < |offers| && Best(offers, j)
    ensures offers[j] in q
  {
    var nonce := offers[j].nonce;
    var i :| 0 <= i < |q| && q[i].nonce == nonce;
    var x := q[i];
    assert x in q;
    var k :| 0 <= k < |offers| && offers[k] == x && Best(offers, k);
    assert k <= j && j <= k;
  }
}
