/** Which keys are safe to insert into the trie, seen from the keys that are found instead of the tree. */
module TrieKeys {
  import opened Options
  import opened TrieNodes

  /** A key parts from another at its own last nibble. */
  predicate Late(a: seq<nibble>, b: seq<nibble>) {
    CommonPrefix(a, b) == |a| - 1
  }

  // Where keys are lost, seen from the nodes a key passes.

  /** Walking down from n along the path leads to m. */
  ghost predicate At(n: Node, path: seq<nibble>, m: Node) {
    || (path == [] && n == m)
    || match n
       case Branch(ch) => path != [] && path[0] < |ch| && At(ch[path[0]], path[1..], m)
       case Extension(shared, next) => shared <= path && At(next, path[|shared|..], m)
       case _ => false
  }

  /** The rest of a key leaves this extension, or this leaf's key, at its own last nibble. */
  predicate LeavesLate(m: Node, rest: seq<nibble>) {
    || (m.Extension? && !(m.shared <= rest) && Late(rest, m.shared))
    || (m.Leaf? && m.key != rest && Late(rest, m.key))
  }

  /** This leaf's key is left by the rest of a key at its last nibble. */
  predicate LeftLate(m: Node, rest: seq<nibble>) {
    m.Leaf? && m.key != rest && Late(m.key, rest)
  }

  /** The key goes no further down than n. */
  predicate Stops(n: Node, key: seq<nibble>) {
    match n
    case Branch(ch) => key == [] || key[0] >= |ch|
    case Extension(shared, _) => !(shared <= key)
    case _ => true
  }

  /** The node a key goes on to, and how many nibbles that takes. */
  function Child(n: Node, key: seq<nibble>): (r: (Node, nat))
    requires !Stops(n, key)
    ensures r.0 < n && r.1 <= |key|
  {
    match n
    case Branch(ch) => (ch[key[0]], 1)
    case Extension(shared, next) => (next, |shared|)
  }

  lemma ChildStep(n: Node, key: seq<nibble>)
    requires !Stops(n, key)
    ensures var (c, p) := Child(n, key);
            && Dropped(n, key) == Dropped(c, key[p..]) && Displaced(n, key) == Below(key[..p], Displaced(c, key[p..]))
  {
    match n
    case Branch(_) => assert key[..1] == [key[0]];
    case Extension(shared, _) => assert CommonPrefix(key, shared) == |shared| && key[..|shared|] == shared;
  }

  lemma AtChild(n: Node, key: seq<nibble>, i: nat, m: Node)
    requires !Stops(n, key) && Child(n, key).1 <= i <= |key|
    ensures var (c, p) := Child(n, key); At(c, key[p..][..i - p], m) ==> At(n, key[..i], m)
    ensures var (c, p) := Child(n, key); key[p..][i - p..] == key[i..] && key[..p] + key[p..][..i - p] == key[..i]
  {
    var p := Child(n, key).1;
    assert key[..i][p..] == key[p..][..i - p];
  }

  /** A node on the way is the first one or is passed below it. */
  lemma AtSplit(n: Node, key: seq<nibble>, i: nat, m: Node)
    requires i <= |key| && At(n, key[..i], m) && !(i == 0 && n == m)
    ensures !Stops(n, key) && var (c, p) := Child(n, key); p <= i && At(c, key[p..][..i - p], m)
  {
    match n
    case Branch(_) => assert key[..i][1..] == key[1..][..i - 1];
    case Extension(shared, _) => assert key[..i][|shared|..] == key[|shared|..][..i - |shared|];
  }

  lemma AtRoot(n: Node, key: seq<nibble>)
    ensures At(n, key[..0], n) && key[0..] == key
    ensures Stops(n, key) ==> (Dropped(n, key) <==> LeavesLate(n, key))
    ensures LeavesLate(n, key) ==> Dropped(n, key)
    ensures Stops(n, key) && Displaced(n, key).Some? ==> LeftLate(n, key)
    ensures LeftLate(n, key) ==> Displaced(n, key) == Some(key[..0] + n.key)
  {
    if n.Leaf? {
      CommonSymmetric(n.key, key);
      assert key[..0] + n.key == n.key;
    }
  }

  lemma {:induction false} DroppedAt(n: Node, key: seq<nibble>) returns (i: nat, m: Node)
    requires Dropped(n, key)
    ensures i <= |key| && At(n, key[..i], m) && LeavesLate(m, key[i..])
  {
    hide Dropped, LeavesLate, At;
    AtRoot(n, key);
    i, m := 0, n;
    if !Stops(n, key) {
      ChildStep(n, key);
      var (c, p) := Child(n, key);
      i, m := DroppedAt(c, key[p..]);
      i := p + i;
      AtChild(n, key, i, m);
    }
  }

  lemma {:induction false} AtDropped(n: Node, key: seq<nibble>, i: nat, m: Node)
    requires i <= |key| && At(n, key[..i], m) && LeavesLate(m, key[i..])
    ensures Dropped(n, key)
  {
    hide Dropped, LeavesLate, At;
    AtRoot(n, key);
    if !(i == 0 && n == m) {
      AtSplit(n, key, i, m);
      ChildStep(n, key);
      AtChild(n, key, i, m);
      var (c, p) := Child(n, key);
      AtDropped(c, key[p..], i - p, m);
    }
  }

  /** A key is dropped exactly where, somewhere on its way down, it leaves a node at its own last nibble. */
  lemma DroppedExactly(n: Node, key: seq<nibble>)
    ensures Dropped(n, key) <==> exists i: nat, m :: i <= |key| && At(n, key[..i], m) && LeavesLate(m, key[i..])
  {
    hide Dropped, LeavesLate, At;
    if Dropped(n, key) {
      var i, m := DroppedAt(n, key);
      assert i <= |key| && At(n, key[..i], m) && LeavesLate(m, key[i..]);
    } else if i: nat, m :| i <= |key| && At(n, key[..i], m) && LeavesLate(m, key[i..]) {
      AtDropped(n, key, i, m);
    }
  }

  lemma PathBelow(start: seq<nibble>, path: seq<nibble>, k: seq<nibble>)
    ensures start + (path + k) == (start + path) + k
  {
  }

  lemma {:induction false} DisplacedAt(n: Node, key: seq<nibble>) returns (i: nat, m: Node)
    requires Displaced(n, key).Some?
    ensures i <= |key| && At(n, key[..i], m) && LeftLate(m, key[i..]) && Displaced(n, key) == Some(key[..i] + m.key)
  {
    hide Displaced, At, CommonPrefix;
    AtRoot(n, key);
    i, m := 0, n;
    if !Stops(n, key) {
      ChildStep(n, key);
      var (c, p) := Child(n, key);
      i, m := DisplacedAt(c, key[p..]);
      PathBelow(key[..p], key[p..][..i], m.key);
      i := p + i;
      AtChild(n, key, i, m);
    }
  }

  lemma {:induction false} AtDisplaced(n: Node, key: seq<nibble>, i: nat, m: Node)
    requires i <= |key| && At(n, key[..i], m) && LeftLate(m, key[i..])
    ensures Displaced(n, key) == Some(key[..i] + m.key)
  {
    hide Displaced, At, CommonPrefix;
    AtRoot(n, key);
    if !(i == 0 && n == m) {
      AtSplit(n, key, i, m);
      ChildStep(n, key);
      AtChild(n, key, i, m);
      var (c, p) := Child(n, key);
      AtDisplaced(c, key[p..], i - p, m);
      PathBelow(key[..p], key[p..][..i - p], m.key);
    }
  }

  /** A key is displaced exactly where the new one comes to its leaf and leaves its key at that one's last nibble. */
  lemma DisplacedExactly(n: Node, key: seq<nibble>, k: seq<nibble>)
    ensures Displaced(n, key) == Some(k) <==>
            exists i: nat, m :: i <= |key| && At(n, key[..i], m) && LeftLate(m, key[i..]) && k == key[..i] + m.key
  {
    hide Displaced, At, CommonPrefix;
    if Displaced(n, key) == Some(k) {
      var i, m := DisplacedAt(n, key);
      assert i <= |key| && At(n, key[..i], m) && LeftLate(m, key[i..]) && k == key[..i] + m.key;
    } else if i: nat, m :| i <= |key| && At(n, key[..i], m) && LeftLate(m, key[i..]) && k == key[..i] + m.key {
      AtDisplaced(n, key, i, m);
    }
  }

  /** Every path below an extension leads to a key. */
  ghost predicate Full(n: Node, odd: bool) {
    match n
    case Nil => true
    case Branch(ch) => |ch| == 17 && forall i :: 0 <= i < 16 ==> Full(ch[i], !odd)
    case Extension(shared, next) => Full(next, odd != Odd(shared)) && Holds(next, odd != Odd(shared))
    case Leaf(_, _) => true
  }

  ghost predicate Holds(n: Node, odd: bool) {
    exists k: seq<nibble> :: Odd(k) == odd && Lookup(n, k) != None
  }

  /** No other key found parts from the given one at a last nibble of the two. */
  ghost predicate Apart(n: Node, key: seq<nibble>) {
    forall k: seq<nibble> :: k != key && Odd(k) == Odd(key) && Lookup(n, k) != None ==> !Late(k, key) && !Late(key, k)
  }

  lemma {:induction false} CommonSymmetric(a: seq<nibble>, b: seq<nibble>)
    ensures CommonPrefix(a, b) == CommonPrefix(b, a)
  {
    if a != [] && b != [] { CommonSymmetric(a[1..], b[1..]); }
  }

  lemma {:induction false} CommonBelow(prefix: seq<nibble>, a: seq<nibble>, b: seq<nibble>)
    ensures CommonPrefix(prefix + a, prefix + b) == |prefix| + CommonPrefix(a, b)
  {
    if prefix == [] {
      assert prefix + a == a && prefix + b == b;
    } else {
      assert (prefix + a)[1..] == prefix[1..] + a && (prefix + b)[1..] == prefix[1..] + b;
      CommonBelow(prefix[1..], a, b);
    }
  }

  lemma {:induction false} CommonAbove(a: seq<nibble>, b: seq<nibble>, tail: seq<nibble>)
    requires CommonPrefix(a, b) < |b|
    ensures CommonPrefix(a, b + tail) == CommonPrefix(a, b)
  {
    if a != [] && a[0] == b[0] {
      assert (b + tail)[1..] == b[1..] + tail;
      CommonAbove(a[1..], b[1..], tail);
    }
  }

  lemma ApartBelow(n: Node, c: Node, prefix: seq<nibble>, rest: seq<nibble>)
    requires Apart(n, prefix + rest) && forall k: seq<nibble> :: Lookup(c, k) == Lookup(n, prefix + k)
    ensures Apart(c, rest)
  {
    hide Odd, Lookup, CommonPrefix;
    forall k: seq<nibble> | k != rest && Odd(k) == Odd(rest) && Lookup(c, k) != None
      ensures !Late(k, rest) && !Late(rest, k)
    {
      PresentBelow(prefix, k, prefix + rest, rest);
      CommonBelow(prefix, k, rest);
      CommonBelow(prefix, rest, k);
    }
  }

  lemma ApartBelowBranch(n: Node, key: seq<nibble>)
    requires n.Branch? && |n.children| == 17 && key != [] && Apart(n, key)
    ensures Apart(n.children[key[0]], key[1..])
  {
    var c := n.children[key[0]];
    assert key == [key[0]] + key[1..];
    forall k: seq<nibble> ensures Lookup(c, k) == Lookup(n, [key[0]] + k) {
      assert ([key[0]] + k)[1..] == k;
    }
    ApartBelow(n, c, [key[0]], key[1..]);
  }

  lemma ApartBelowExtension(n: Node, key: seq<nibble>)
    requires n.Extension? && n.shared <= key && Apart(n, key)
    ensures Apart(n.next, key[|n.shared|..])
  {
    var shared, next := n.shared, n.next;
    assert key == shared + key[|shared|..];
    forall k: seq<nibble> ensures Lookup(next, k) == Lookup(n, shared + k) {
      assert (shared + k)[|shared|..] == k;
    }
    ApartBelow(n, next, shared, key[|shared|..]);
  }

  /** A key that leaves an extension at its last nibble is not apart from the keys below. */
  lemma LateAtExtension(n: Node, key: seq<nibble>)
    requires n.Extension? && Full(n, Odd(key)) && |key| == CommonPrefix(key, n.shared) + 1 <= |n.shared|
    ensures !Apart(n, key)
  {
    var shared := n.shared;
    var rest: seq<nibble> :| Odd(rest) == (Odd(key) != Odd(shared)) && Lookup(n.next, rest) != None;
    var k := shared + rest;
    CommonAbove(key, shared, rest);
    OddRest(k, |shared|);
    assert k[|shared|..] == rest && k[..|shared|] == shared;
    assert Lookup(n, k) != None && Late(key, k);
  }

  /** In a full tree a key apart from all others is safe. */
  lemma {:induction false} SafeWhenApart(n: Node, key: seq<nibble>)
    requires Fits(n, Odd(key)) && Full(n, Odd(key)) && Apart(n, key)
    ensures Safe(n, key)
  {
    match n
    case Nil =>
    case Branch(ch) =>
      if key != [] {
        ApartBelowBranch(n, key);
        hide Apart;
        SafeWhenApart(ch[key[0]], key[1..]);
      }
    case Extension(shared, next) =>
      var p := CommonPrefix(key, shared);
      if p == |shared| {
        assert key[..p] == shared[..p] == shared;
        ApartBelowExtension(n, key);
        OddRest(key, p);
        hide Apart, Odd;
        SafeWhenApart(next, key[p..]);
      } else if |key| == p + 1 {
        LateAtExtension(n, key);
      }
    case Leaf(k, v) =>
      CommonSymmetric(key, k);
      assert Lookup(n, k) == Some(v);
  }

  lemma PrefixedFull(prefix: seq<nibble>, n: Node, key: seq<nibble>)
    requires prefix <= key && Full(n, Odd(key[|prefix|..])) && Lookup(n, key[|prefix|..]) != None
    ensures Full(Prefixed(prefix, n), Odd(key))
  {
    OddRest(key, |prefix|);
    if prefix == [] { assert key[0..] == key; }
  }

  lemma ForkFull(shared: seq<nibble>, next: Node, p: nat, b: seq<nibble>, value: seq<byte>)
    requires p < |shared| && Full(Extension(shared[p..], next), Odd(b))
    ensures Full(Fork(shared, next, p, b, value), Odd(b))
  {
    var below := if p + 1 < |shared| then Extension(shared[p + 1..], next) else next;
    assert Full(below, !Odd(b));
  }

  /** A safe key leaves a full tree full. */
  lemma {:induction false} InsertFull(n: Node, key: seq<nibble>, value: seq<byte>)
    requires Fits(n, Odd(key)) && Full(n, Odd(key)) && Safe(n, key)
    ensures Full(InsertNode(n, key, value), Odd(key))
  {
    hide Odd, Fork, ForkLeaf, Prefixed;
    match n
    case Nil =>
    case Branch(ch) => if key != [] { InsertFullBranch(ch, key, value); }
    case Extension(shared, next) =>
      var p := CommonPrefix(key, shared);
      OddRest(key, p);
      OddRest(shared, p);
      InsertLaw(n, key, value, key);
      if p == |shared| {
        assert shared[..p] == shared;
        InsertFull(next, key[p..], value);
        InsertLaw(next, key[p..], value, key[p..]);
      } else {
        var fork := Fork(shared, next, p, key[p..], value);
        ForkFull(shared, next, p, key[p..], value);
        LookupBelow(shared[..p], fork, key);
        PrefixedFull(shared[..p], fork, key);
      }
    case Leaf(k, v) => InsertFullLeaf(k, v, key, value);
  }

  lemma {:induction false} InsertFullBranch(ch: seq<Node>, key: seq<nibble>, value: seq<byte>)
    requires Fits(Branch(ch), Odd(key)) && Full(Branch(ch), Odd(key)) && Safe(Branch(ch), key) && key != []
    ensures Full(InsertNode(Branch(ch), key, value), Odd(key))
  {
    InsertFull(ch[key[0]], key[1..], value);
  }

  lemma InsertFullLeaf(k: seq<nibble>, v: seq<byte>, key: seq<nibble>, value: seq<byte>)
    requires Fits(Leaf(k, v), Odd(key)) && Safe(Leaf(k, v), key)
    ensures Full(InsertNode(Leaf(k, v), key, value), Odd(key))
  {
    var p := CommonPrefix(key, k);
    if k != key {
      var fork := ForkLeaf(k, v, p, key[p..], value);
      assert InsertNode(Leaf(k, v), key, value) == Prefixed(key[..p], fork);
      InsertLaw(Leaf(k, v), key, value, key);
      LookupBelow(key[..p], fork, key);
      PrefixedFull(key[..p], fork, key);
    }
  }

  // Keys of one length.

  /** A subtree all of whose keys have m nibbles left; a branch is never the last step of a key. */
  ghost predicate Uniform(n: Node, m: nat) {
    match n
    case Nil => true
    case Branch(ch) => m >= 2 && |ch| == 17 && forall i :: 0 <= i < 16 ==> Uniform(ch[i], m - 1)
    case Extension(shared, next) => 0 < |shared| <= m && next.Branch? && Uniform(next, m - |shared|)
    case Leaf(k, _) => |k| == m
  }

  lemma {:induction false} UniformFits(n: Node, m: nat)
    requires Uniform(n, m)
    ensures Fits(n, m % 2 == 1)
  {
    match n
    case Branch(ch) =>
      forall i | 0 <= i < 16 ensures Fits(ch[i], m % 2 == 0) {
        UniformFits(ch[i], m - 1);
      }
    case Extension(shared, next) => UniformFits(next, m - |shared|);
    case _ =>
  }

  /** Two keys of one length that agree up to their last nibble. */
  predicate Twins(a: seq<nibble>, b: seq<nibble>) {
    |a| == |b| && Late(a, b)
  }

  ghost predicate NoTwin(n: Node, key: seq<nibble>) {
    forall k: seq<nibble> :: Twins(k, key) ==> Lookup(n, k) == None
  }

  /** Twins share every nibble but the last. */
  lemma TwinsBelow(k: seq<nibble>, key: seq<nibble>, p: nat)
    requires Twins(k, key) && p < |key|
    ensures k[..p] == key[..p] && Twins(k[p..], key[p..])
  {
    assert k[..p] == k[..|k| - 1][..p] == key[..|k| - 1][..p] == key[..p];
    assert k == k[..p] + k[p..] && key == key[..p] + key[p..];
    CommonBelow(k[..p], k[p..], key[p..]);
  }

  /** Among keys of one length, a twin of a key present is dropped and displaces that key: neither is found. */
  lemma {:induction false} TwinsAreLost(n: Node, m: nat, key: seq<nibble>, k: seq<nibble>)
    requires Uniform(n, m) && |key| == m && Twins(k, key) && Lookup(n, k) != None
    ensures Dropped(n, key) && Displaced(n, key) == Some(k)
  {
    match n
    case Leaf(_, _) => CommonSymmetric(k, key);
    case Branch(ch) =>
      TwinsBelow(k, key, 1);
      assert k[0] == k[..1][0] == key[0] && k == [k[0]] + k[1..];
      hide Twins, CommonPrefix;
      TwinsAreLost(ch[key[0]], m - 1, key[1..], k[1..]);
    case Extension(shared, next) =>
      var p := |shared|;
      TwinsBelow(k, key, p);
      assert shared == k[..p] == key[..p];
      assert CommonPrefix(key, shared) == p && k == shared + k[p..];
      hide Twins, CommonPrefix;
      TwinsAreLost(next, m - p, key[p..], k[p..]);
  }

  /** Among keys of one length, only a twin of a key present is not safe. */
  lemma {:induction false} UnsafeIsTwin(n: Node, m: nat, key: seq<nibble>)
    requires Uniform(n, m) && |key| == m && !Safe(n, key)
    ensures Displaced(n, key).Some? && Twins(Displaced(n, key).value, key)
  {
    match n
    case Leaf(k, _) => CommonSymmetric(key, k);
    case Branch(ch) =>
      UnsafeIsTwin(ch[key[0]], m - 1, key[1..]);
      CommonBelow([key[0]], Displaced(ch[key[0]], key[1..]).value, key[1..]);
      assert key == [key[0]] + key[1..];
    case Extension(shared, next) =>
      var p := CommonPrefix(key, shared);
      assert p == |shared| && key == shared + key[p..];
      UnsafeIsTwin(next, m - p, key[p..]);
      CommonBelow(shared, Displaced(next, key[p..]).value, key[p..]);
  }

  lemma SafeIsNoTwin(n: Node, m: nat, key: seq<nibble>)
    requires Uniform(n, m) && |key| == m
    ensures Safe(n, key) <==> NoTwin(n, key)
  {
    if !Safe(n, key) {
      UniformFits(n, m);
      UnsafeIsTwin(n, m, key);
      DisplacedPresent(n, key);
    } else if !NoTwin(n, key) {
      var k: seq<nibble> :| Twins(k, key) && Lookup(n, k) != None;
      TwinsAreLost(n, m, key, k);
    }
  }

  lemma PrefixedUniform(prefix: seq<nibble>, n: Node, m: nat)
    requires n.Branch? && Uniform(n, m)
    ensures Uniform(Prefixed(prefix, n), m + |prefix|)
  {
  }

  lemma ForkUniform(shared: seq<nibble>, next: Node, p: nat, m: nat, b: seq<nibble>, value: seq<byte>)
    requires p < |shared| && Uniform(Extension(shared[p..], next), m) && |b| == m
    ensures Uniform(Fork(shared, next, p, b, value), m)
  {
    var below := if p + 1 < |shared| then Extension(shared[p + 1..], next) else next;
    assert Uniform(below, m - 1);
  }

  lemma ForkLeafUniform(k: seq<nibble>, v: seq<byte>, p: nat, b: seq<nibble>, value: seq<byte>)
    requires |b| == |k| - p >= 2
    ensures Uniform(ForkLeaf(k, v, p, b, value), |b|)
  {
  }

  /** A safe key of the common length leaves all keys at that length. */
  lemma {:induction false} InsertUniform(n: Node, m: nat, key: seq<nibble>, value: seq<byte>)
    requires Uniform(n, m) && |key| == m && Safe(n, key) && Fits(n, Odd(key))
    ensures Uniform(InsertNode(n, key, value), m)
    decreases n, 1
  {
    match n
    case Nil =>
    case Branch(ch) => InsertUniformBranch(ch, m, key, value);
    case Extension(shared, next) => InsertUniformExtension(shared, next, m, key, value);
    case Leaf(k, v) =>
      var p := CommonPrefix(key, k);
      if k != key {
        ForkLeafUniform(k, v, p, key[p..], value);
        PrefixedUniform(key[..p], ForkLeaf(k, v, p, key[p..], value), m - p);
      }
  }

  lemma {:induction false} InsertUniformBranch(ch: seq<Node>, m: nat, key: seq<nibble>, value: seq<byte>)
    requires var n := Branch(ch); Uniform(n, m) && |key| == m && Safe(n, key) && Fits(n, Odd(key))
    ensures Uniform(InsertNode(Branch(ch), key, value), m)
    decreases Branch(ch), 0
  {
    InsertUniform(ch[key[0]], m - 1, key[1..], value);
  }

  lemma {:induction false} InsertUniformExtension(shared: seq<nibble>, next: Node, m: nat, key: seq<nibble>,
                                                  value: seq<byte>)
    requires var n := Extension(shared, next); Uniform(n, m) && |key| == m && Safe(n, key) && Fits(n, Odd(key))
    ensures Uniform(InsertNode(Extension(shared, next), key, value), m)
    decreases Extension(shared, next), 0
  {
    var p := CommonPrefix(key, shared);
    OddRest(key, p);
    hide Fork, Odd;
    if p == |shared| {
      assert key[..p] == shared;
      InsertUniform(next, m - p, key[p..], value);
      assert InsertNode(next, key[p..], value).Branch?;
    } else {
      ForkUniform(shared, next, p, m - p, key[p..], value);
      PrefixedUniform(shared[..p], Fork(shared, next, p, key[p..], value), m - p);
    }
  }
}
