/** Insertion into and lookup in the Merkle Patricia trie, on the tree itself. */
module TrieNodes {
  import opened Options

  type byte = x: int | 0 <= x < 256
  type nibble = x: int | 0 <= x < 16

  /** A node; Nil stands for a missing one. A branch has sixteen children by nibble, and a seventeenth for a value. */
  datatype Node =
    | Nil
    | Branch(children: seq<Node>)
    | Extension(shared: seq<nibble>, next: Node)
    | Leaf(key: seq<nibble>, value: seq<byte>)

  /** What is found under a key. */
  function Lookup(n: Node, key: seq<nibble>): Option<seq<byte>> {
    match n
    case Nil => None
    case Branch(ch) =>
      if key == [] then (if 16 < |ch| && ch[16].Leaf? then Some(ch[16].value) else None)
      else if key[0] < |ch| then Lookup(ch[key[0]], key[1..]) else None
    case Extension(shared, next) => if shared <= key then Lookup(next, key[|shared|..]) else None
    case Leaf(k, v) => if key == k then Some(v) else None
  }

  predicate Odd(key: seq<nibble>) {
    |key| % 2 == 1
  }

  /**
   * A subtree in which keys have an odd, or an even, number of nibbles left, as every subtree of a tree of bytes is.
   * A value slot may hold anything: below an odd number of nibbles no key ends there.
   */
  predicate Fits(n: Node, odd: bool) {
    match n
    case Nil => true
    case Branch(ch) => |ch| == 17 && forall i :: 0 <= i < 16 ==> Fits(ch[i], !odd)
    case Extension(shared, next) => Fits(next, odd != Odd(shared))
    case Leaf(k, _) => Odd(k) == odd
  }

  function CommonPrefix(a: seq<nibble>, b: seq<nibble>): (p: nat)
    ensures p <= |a| && p <= |b| && a[..p] == b[..p]
    ensures p < |a| && p < |b| ==> a[p] != b[p]
  {
    if a == [] || b == [] || a[0] != b[0] then 0 else 1 + CommonPrefix(a[1..], b[1..])
  }

  function Blank(): seq<Node> {
    seq(17, _ => Nil)
  }

  /** Where the rest of a key goes below a new branch. With one nibble left it is dropped: the value slot is used. */
  function Placed(ch: seq<Node>, rest: seq<nibble>, value: seq<byte>): seq<Node>
    requires |ch| == 17
  {
    if |rest| > 1 then ch[rest[0] := Leaf(rest[1..], value)] else ch[16 := Leaf([], value)]
  }

  function Prefixed(prefix: seq<nibble>, n: Node): Node {
    if prefix == [] then n else Extension(prefix, n)
  }

  /** A branch where a key leaves an extension after p shared nibbles. */
  function Fork(shared: seq<nibble>, next: Node, p: nat, b: seq<nibble>, value: seq<byte>): Node
    requires p < |shared|
  {
    var below := if p + 1 < |shared| then Extension(shared[p + 1..], next) else next;
    Branch(Placed(Blank()[shared[p] := below], b, value))
  }

  /** A branch where a key leaves a leaf's key k after p shared nibbles. */
  function ForkLeaf(k: seq<nibble>, v: seq<byte>, p: nat, b: seq<nibble>, value: seq<byte>): Node
    requires p <= |k|
  {
    var ch := if p < |k| then Placed(Blank(), k[p..], v) else Blank()[16 := Leaf(k, v)];
    Branch(Placed(ch, b, value))
  }

  function InsertNode(n: Node, key: seq<nibble>, value: seq<byte>): Node
    requires Fits(n, Odd(key))
  {
    match n
    case Nil => Leaf(key, value)
    case Branch(ch) =>
      if key == [] then Branch(ch[16 := Leaf([], value)])
      else Branch(ch[key[0] := InsertNode(ch[key[0]], key[1..], value)])
    case Extension(shared, next) =>
      var p := CommonPrefix(key, shared);
      if p == |shared| then Extension(shared, InsertNode(next, key[p..], value))
      else Prefixed(shared[..p], Fork(shared, next, p, key[p..], value))
    case Leaf(k, v) =>
      var p := CommonPrefix(key, k);
      if p == |key| && p == |k| then Leaf(k, value) else Prefixed(key[..p], ForkLeaf(k, v, p, key[p..], value))
  }

  lemma OddRest(key: seq<nibble>, p: nat)
    requires p <= |key|
    ensures Odd(key) == (Odd(key[..p]) != Odd(key[p..]))
  {
  }

  lemma PrefixedFits(prefix: seq<nibble>, n: Node, odd: bool)
    requires Fits(n, odd != Odd(prefix))
    ensures Fits(Prefixed(prefix, n), odd)
  {
  }

  lemma ForkFits(shared: seq<nibble>, next: Node, p: nat, b: seq<nibble>, value: seq<byte>)
    requires p < |shared| && Fits(Extension(shared[p..], next), Odd(b))
    ensures Fits(Fork(shared, next, p, b, value), Odd(b))
  {
    var below := if p + 1 < |shared| then Extension(shared[p + 1..], next) else next;
    assert Fits(below, !Odd(b));
  }

  lemma ForkLeafFits(k: seq<nibble>, v: seq<byte>, p: nat, b: seq<nibble>, value: seq<byte>)
    requires p <= |k| && Odd(k[p..]) == Odd(b)
    ensures Fits(ForkLeaf(k, v, p, b, value), Odd(b))
  {
  }

  /** Insertion of any key leaves a tree fit for the next one. */
  lemma {:induction false} InsertFits(n: Node, key: seq<nibble>, value: seq<byte>)
    requires Fits(n, Odd(key))
    ensures Fits(InsertNode(n, key, value), Odd(key))
  {
    hide Odd, Fork, ForkLeaf, Prefixed;
    match n
    case Nil =>
    case Branch(ch) => if key != [] { BranchFits(ch, key, value); }
    case Extension(shared, next) =>
      var p := CommonPrefix(key, shared);
      OddRest(key, p);
      OddRest(shared, p);
      if p == |shared| {
        assert shared[..p] == shared;
        InsertFits(next, key[p..], value);
      } else {
        ForkFits(shared, next, p, key[p..], value);
        PrefixedFits(shared[..p], Fork(shared, next, p, key[p..], value), Odd(key));
      }
    case Leaf(k, v) =>
      var p := CommonPrefix(key, k);
      OddRest(key, p);
      OddRest(k, p);
      ForkLeafFits(k, v, p, key[p..], value);
      PrefixedFits(key[..p], ForkLeaf(k, v, p, key[p..], value), Odd(key));
  }

  lemma {:induction false} BranchFits(ch: seq<Node>, key: seq<nibble>, value: seq<byte>)
    requires Fits(Branch(ch), Odd(key)) && key != []
    ensures Fits(InsertNode(Branch(ch), key, value), Odd(key))
  {
    InsertFits(ch[key[0]], key[1..], value);
  }

  // What an insertion does to lookups. A key that leaves a shared path at its last nibble loses that nibble.

  /** The key inserted goes where it is not found: it leaves an extension or a leaf's key at its own last nibble. */
  predicate Dropped(n: Node, key: seq<nibble>) {
    match n
    case Nil => false
    case Branch(ch) => key != [] && key[0] < |ch| && Dropped(ch[key[0]], key[1..])
    case Extension(shared, next) =>
      var p := CommonPrefix(key, shared);
      if p == |shared| then Dropped(next, key[p..]) else |key| == p + 1
    case Leaf(k, _) => key != k && |key| == CommonPrefix(key, k) + 1
  }

  function Below(prefix: seq<nibble>, k: Option<seq<nibble>>): Option<seq<nibble>> {
    match k
    case None => None
    case Some(rest) => Some(prefix + rest)
  }

  /** The key present, if any, that goes where it is not found: a leaf's key that is left at its last nibble. */
  function Displaced(n: Node, key: seq<nibble>): Option<seq<nibble>> {
    match n
    case Nil => None
    case Branch(ch) =>
      if key != [] && key[0] < |ch| then Below([key[0]], Displaced(ch[key[0]], key[1..])) else None
    case Extension(shared, next) =>
      var p := CommonPrefix(key, shared);
      if p == |shared| then Below(shared, Displaced(next, key[p..])) else None
    case Leaf(k, _) => if key != k && |k| == CommonPrefix(key, k) + 1 then Some(k) else None
  }

  predicate Safe(n: Node, key: seq<nibble>) {
    !Dropped(n, key) && Displaced(n, key) == None
  }

  /** What is found under k once the key is inserted. */
  function After(n: Node, key: seq<nibble>, value: seq<byte>, k: seq<nibble>): Option<seq<byte>> {
    if Displaced(n, key) == Some(k) then None
    else if k == key && !Dropped(n, key) then Some(value)
    else Lookup(n, k)
  }

  lemma LookupBelow(prefix: seq<nibble>, n: Node, k: seq<nibble>)
    ensures Lookup(Prefixed(prefix, n), k) == if prefix <= k then Lookup(n, k[|prefix|..]) else None
  {
    if prefix == [] { assert k[0..] == k; }
  }

  /** A key below a prefix is another key exactly when its rest is that key's rest. */
  lemma SplitKey(k: seq<nibble>, key: seq<nibble>, p: nat)
    requires p <= |key| && key[..p] <= k
    ensures k == key <==> k[p..] == key[p..]
  {
    assert key == key[..p] + key[p..] && k == k[..p] + k[p..];
  }

  /** An extension as one of its beginning over one of its end. */
  lemma ExtensionSplit(shared: seq<nibble>, next: Node, p: nat, k: seq<nibble>)
    requires p < |shared|
    ensures Lookup(Extension(shared, next), k) == Lookup(Prefixed(shared[..p], Extension(shared[p..], next)), k)
  {
    var rest := shared[p..];
    LookupBelow(shared[..p], Extension(rest, next), k);
    assert shared == shared[..p] + rest;
    if shared[..p] <= k {
      assert k == shared[..p] + k[p..];
      assert shared <= k <==> rest <= k[p..];
      if shared <= k { assert k[|shared|..] == k[p..][|rest|..]; }
    }
  }

  /** The branch at which a key leaves an extension: the old subtree as before, and the key unless it ends there. */
  lemma SplitExtension(shared: seq<nibble>, next: Node, p: nat, b: seq<nibble>, value: seq<byte>, k: seq<nibble>)
    requires p < |shared| && (b != [] ==> b[0] != shared[p]) && Odd(k) == Odd(b)
    ensures Lookup(Fork(shared, next, p, b, value), k)
            == if k == b && |b| != 1 then Some(value) else Lookup(Extension(shared[p..], next), k)
  {
    var tail := shared[p..];
    assert tail == [tail[0]] + shared[p + 1..];
    if k != [] {
      assert k == [k[0]] + k[1..];
      if b != [] { assert b == [b[0]] + b[1..]; }
      if k[0] == shared[p] {
        assert tail <= k <==> shared[p + 1..] <= k[1..];
        if tail <= k { assert k[1..][|shared[p + 1..]|..] == k[|tail|..]; }
        if p + 1 == |shared| { assert k[1..] == k[|tail|..]; }
      }
    }
  }

  /** The branch at which a key leaves a leaf's key: each of the two is found unless its last nibble is the next. */
  lemma SplitLeaf(key: seq<nibble>, v: seq<byte>, p: nat, b: seq<nibble>, value: seq<byte>, k: seq<nibble>)
    requires p <= |key| && Odd(k) == Odd(b) == Odd(key[p..]) && b != key[p..]
    requires b != [] && p < |key| ==> b[0] != key[p]
    ensures Lookup(ForkLeaf(key, v, p, b, value), k)
            == if k == b && |b| != 1 then Some(value)
               else if k == key[p..] && |key| != p + 1 then Some(v) else None
  {
    var a := key[p..];
    if k != [] { assert k == [k[0]] + k[1..]; }
    if b != [] { assert b == [b[0]] + b[1..]; }
    if a != [] { assert a == [a[0]] + a[1..]; }
  }

  lemma LawAtExtension(n: Node, key: seq<nibble>, value: seq<byte>, k: seq<nibble>)
    requires n.Extension? && CommonPrefix(key, n.shared) < |n.shared| && Fits(n, Odd(key)) && Odd(k) == Odd(key)
    ensures Lookup(InsertNode(n, key, value), k) == After(n, key, value, k)
  {
    var shared, next, p := n.shared, n.next, CommonPrefix(key, n.shared);
    var b, fork := key[p..], Fork(shared, next, p, key[p..], value);
    assert InsertNode(n, key, value) == Prefixed(shared[..p], fork);
    hide InsertNode, Fork, Prefixed, Fits, Lookup, Odd;
    ExtensionSplit(shared, next, p, k);
    LookupBelow(shared[..p], Extension(shared[p..], next), k);
    LookupBelow(shared[..p], fork, k);
    if shared[..p] <= k {
      OddRest(key, p);
      OddRest(k, p);
      assert k[..p] == key[..p];
      SplitExtension(shared, next, p, b, value, k[p..]);
      SplitKey(k, key, p);
    }
  }

  lemma LawAtLeaf(n: Node, key: seq<nibble>, value: seq<byte>, k: seq<nibble>)
    requires n.Leaf? && key != n.key && Fits(n, Odd(key)) && Odd(k) == Odd(key)
    ensures Lookup(InsertNode(n, key, value), k) == After(n, key, value, k)
  {
    var other, v, p := n.key, n.value, CommonPrefix(key, n.key);
    var a, b, fork := other[p..], key[p..], ForkLeaf(other, v, p, key[p..], value);
    SplitKey(other, key, p);
    assert InsertNode(n, key, value) == Prefixed(key[..p], fork);
    hide InsertNode, ForkLeaf, Prefixed, Odd;
    LookupBelow(key[..p], fork, k);
    if key[..p] <= k {
      OddRest(key, p);
      OddRest(k, p);
      OddRest(other, p);
      assert k[..p] == key[..p] == other[..p];
      SplitLeaf(other, v, p, b, value, k[p..]);
      SplitKey(k, key, p);
      SplitKey(k, other, p);
    }
  }

  lemma {:induction false} LawAtBranch(n: Node, key: seq<nibble>, value: seq<byte>, k: seq<nibble>)
    requires n.Branch? && Fits(n, Odd(key)) && Odd(k) == Odd(key)
    ensures Lookup(InsertNode(n, key, value), k) == After(n, key, value, k)
    decreases n, 0
  {
    var ch := n.children;
    if key != [] {
      if k != [] { assert k == [k[0]] + k[1..]; }
      assert key == [key[0]] + key[1..];
      if k != [] && k[0] == key[0] {
        InsertLaw(ch[key[0]], key[1..], value, k[1..]);
      }
    }
  }

  /** The effect of every insertion on every lookup, for any tree and any two keys. */
  lemma {:induction false} InsertLaw(n: Node, key: seq<nibble>, value: seq<byte>, k: seq<nibble>)
    requires Fits(n, Odd(key)) && Odd(k) == Odd(key)
    ensures Lookup(InsertNode(n, key, value), k) == After(n, key, value, k)
    decreases n, 1
  {
    match n
    case Nil =>
    case Branch(_) => LawAtBranch(n, key, value, k);
    case Extension(shared, next) =>
      var p := CommonPrefix(key, shared);
      if p < |shared| {
        LawAtExtension(n, key, value, k);
      } else {
        assert key[..p] == shared[..p] == shared;
        LawBelowExtension(n, key, value, k);
      }
    case Leaf(k0, _) => if key != k0 { LawAtLeaf(n, key, value, k); }
  }

  lemma {:induction false} LawBelowExtension(n: Node, key: seq<nibble>, value: seq<byte>, k: seq<nibble>)
    requires n.Extension? && n.shared <= key && Fits(n, Odd(key)) && Odd(k) == Odd(key)
    ensures Lookup(InsertNode(n, key, value), k) == After(n, key, value, k)
    decreases n, 0
  {
    var shared, p := n.shared, |n.shared|;
    assert CommonPrefix(key, shared) == p;
    if shared <= k {
      OddRest(key, p);
      OddRest(k, p);
      hide Odd;
      assert k[..p] == key[..p] == shared;
      InsertLaw(n.next, key[p..], value, k[p..]);
      SplitKey(k, key, p);
      assert k == shared + k[p..];
    }
  }

  /** A key that is dropped was not there before, either. */
  lemma {:induction false} DroppedMissing(n: Node, key: seq<nibble>)
    requires Dropped(n, key)
    ensures Lookup(n, key) == None
  {
    match n
    case Branch(ch) => DroppedMissing(ch[key[0]], key[1..]);
    case Extension(shared, next) =>
      if CommonPrefix(key, shared) == |shared| { DroppedMissing(next, key[|shared|..]); }
    case Leaf(_, _) =>
  }

  lemma PresentBelow(prefix: seq<nibble>, rest: seq<nibble>, key: seq<nibble>, keyRest: seq<nibble>)
    requires key == prefix + keyRest && rest != keyRest && Odd(rest) == Odd(keyRest)
    ensures var k := prefix + rest; k != key && Odd(k) == Odd(key) && k[|prefix|..] == rest && prefix <= k
  {
    var k := prefix + rest;
    assert k[|prefix|..] == rest && key[|prefix|..] == keyRest;
    assert k[..|prefix|] == prefix == key[..|prefix|];
    OddRest(k, |prefix|);
    OddRest(key, |prefix|);
  }

  /** A key that is displaced is another one, and was found before. */
  lemma {:induction false} DisplacedPresent(n: Node, key: seq<nibble>)
    requires Fits(n, Odd(key)) && Displaced(n, key).Some?
    ensures var k := Displaced(n, key).value; k != key && Odd(k) == Odd(key) && Lookup(n, k) != None
  {
    match n
    case Branch(ch) =>
      DisplacedPresent(ch[key[0]], key[1..]);
      PresentBelow([key[0]], Displaced(ch[key[0]], key[1..]).value, key, key[1..]);
    case Extension(shared, next) =>
      var p := |shared|;
      assert key[..p] == shared;
      OddRest(key, p);
      hide Odd;
      DisplacedPresent(next, key[p..]);
      PresentBelow(shared, Displaced(next, key[p..]).value, key, key[p..]);
    case Leaf(k, _) =>
  }

  /** The lookup law: the new value under its key, everything else as before. */
  ghost predicate Updated(n: Node, r: Node, key: seq<nibble>, value: seq<byte>) {
    forall k: seq<nibble> :: Odd(k) == Odd(key) ==> Lookup(r, k) == if k == key then Some(value) else Lookup(n, k)
  }

  /** Insertion is an update of the lookups exactly when no key loses its last nibble. */
  lemma InsertExact(n: Node, key: seq<nibble>, value: seq<byte>)
    requires Fits(n, Odd(key))
    ensures Updated(n, InsertNode(n, key, value), key, value) <==> Safe(n, key)
  {
    var r := InsertNode(n, key, value);
    if Safe(n, key) {
      forall k: seq<nibble> | Odd(k) == Odd(key)
        ensures Lookup(r, k) == if k == key then Some(value) else Lookup(n, k)
      {
        InsertLaw(n, key, value, k);
      }
    } else if Dropped(n, key) {
      InsertLaw(n, key, value, key);
      DroppedMissing(n, key);
    } else {
      DisplacedPresent(n, key);
      InsertLaw(n, key, value, Displaced(n, key).value);
    }
  }
}
