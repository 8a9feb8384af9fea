/** The trie as a map from keys of bytes to values: after one insertion, and over whole runs. */
module Trie {
  import opened Options
  import opened TrieNodes
  import opened TrieKeys

  // Keys are bytes; the tree works on their nibbles.

  function KeyToHex(key: seq<byte>): (h: seq<nibble>)
    ensures |h| == 2 * |key|
  {
    if key == [] then [] else [key[0] / 16, key[0] % 16] + KeyToHex(key[1..])
  }

  function HexToKey(h: seq<nibble>): seq<byte>
    requires !Odd(h)
  {
    if h == [] then []
    else
      var high: int, low: int := h[0], h[1];
      [16 * high + low] + HexToKey(h[2..])
  }

  lemma {:induction false} KeyToHexInverse(h: seq<nibble>)
    requires !Odd(h)
    ensures KeyToHex(HexToKey(h)) == h
  {
    if h != [] {
      KeyToHexInverse(h[2..]);
      assert h == [h[0], h[1]] + h[2..];
    }
  }

  lemma {:induction false} KeyToHexInjective(a: seq<byte>, b: seq<byte>)
    requires KeyToHex(a) == KeyToHex(b)
    ensures a == b
  {
    if a != [] && b != [] {
      var x, y := KeyToHex(a), KeyToHex(b);
      assert x[0] == y[0] && x[1] == y[1];
      assert x[2..] == KeyToHex(a[1..]) && y[2..] == KeyToHex(b[1..]);
      KeyToHexInjective(a[1..], b[1..]);
    }
  }

  function Find(contents: map<seq<byte>, seq<byte>>, key: seq<byte>): Option<seq<byte>> {
    if key in contents then Some(contents[key]) else None
  }

  /** The tree and the map hold the same keys, with the same values. */
  ghost predicate Agrees(n: Node, contents: map<seq<byte>, seq<byte>>) {
    Fits(n, false) && forall key: seq<byte> :: Lookup(n, KeyToHex(key)) == Find(contents, key)
  }

  /** What the tree holds once a key is inserted: without the key displaced, and with the new one unless dropped. */
  ghost function Held(n: Node, contents: map<seq<byte>, seq<byte>>, key: seq<byte>, value: seq<byte>)
    : map<seq<byte>, seq<byte>>
  {
    var hex := KeyToHex(key);
    var kept := map k | k in contents && Displaced(n, hex) != Some(KeyToHex(k)) :: contents[k];
    if Dropped(n, hex) then kept else kept[key := value]
  }

  /** After every insertion the tree agrees with the map of what is held. */
  lemma InsertHeld(n: Node, contents: map<seq<byte>, seq<byte>>, key: seq<byte>, value: seq<byte>)
    requires Agrees(n, contents)
    ensures Agrees(InsertNode(n, KeyToHex(key), value), Held(n, contents, key, value))
  {
    hide InsertNode, Lookup, KeyToHex, Fits, Odd, Held, Find;
    EvenHex(key);
    InsertFits(n, KeyToHex(key), value);
    forall k: seq<byte>
      ensures Lookup(InsertNode(n, KeyToHex(key), value), KeyToHex(k)) == Find(Held(n, contents, key, value), k)
    {
      FoundHeld(n, contents, key, value, k);
    }
  }

  lemma FoundHeld(n: Node, contents: map<seq<byte>, seq<byte>>, key: seq<byte>, value: seq<byte>, k: seq<byte>)
    requires Agrees(n, contents)
    ensures Lookup(InsertNode(n, KeyToHex(key), value), KeyToHex(k)) == Find(Held(n, contents, key, value), k)
  {
    hide InsertNode, Lookup, KeyToHex, Fits, Dropped, Displaced, Odd, Held, Find;
    var hex := KeyToHex(key);
    assert !Odd(hex) && !Odd(KeyToHex(k)) by { EvenHex(key); EvenHex(k); }
    InsertLaw(n, hex, value, KeyToHex(k));
    if Displaced(n, hex).Some? { DisplacedPresent(n, hex); }
    if KeyToHex(k) == hex { KeyToHexInjective(k, key); }
    HeldAt(n, contents, key, value, k);
    assert Lookup(n, KeyToHex(k)) == Find(contents, k);
  }

  lemma EvenHex(key: seq<byte>)
    ensures !Odd(KeyToHex(key))
  {
  }

  lemma HeldAt(n: Node, contents: map<seq<byte>, seq<byte>>, key: seq<byte>, value: seq<byte>, k: seq<byte>)
    ensures Find(Held(n, contents, key, value), k)
            == if k == key && !Dropped(n, KeyToHex(key)) then Some(value)
               else if Displaced(n, KeyToHex(key)) == Some(KeyToHex(k)) then None else Find(contents, k)
  {
    hide Dropped, Displaced, KeyToHex;
  }

  /** What is held is the map with the new value, and nothing else changed, exactly when the key is safe. */
  lemma HeldExactly(n: Node, contents: map<seq<byte>, seq<byte>>, key: seq<byte>, value: seq<byte>)
    requires Agrees(n, contents)
    ensures Held(n, contents, key, value) == contents[key := value] <==> Safe(n, KeyToHex(key))
  {
    var hex, held := KeyToHex(key), Held(n, contents, key, value);
    if Dropped(n, hex) {
      DroppedMissing(n, hex);
      assert key !in held;
    } else if Displaced(n, hex).Some? {
      DisplacedPresent(n, hex);
      var k := Displaced(n, hex).value;
      KeyToHexInverse(k);
      assert HexToKey(k) in contents[key := value] && HexToKey(k) !in held;
    }
  }

  /** Maps that agree with one tree are equal. */
  lemma AgreesOnce(n: Node, a: map<seq<byte>, seq<byte>>, b: map<seq<byte>, seq<byte>>)
    requires Agrees(n, a) && Agrees(n, b)
    ensures a == b
  {
    forall k: seq<byte> ensures Find(a, k) == Find(b, k) {
      assert Lookup(n, KeyToHex(k)) == Find(a, k);
    }
    forall k ensures k in a <==> k in b {
      assert Find(a, k) == Find(b, k);
    }
    forall k | k in a ensures a[k] == b[k] {
      assert Find(a, k) == Find(b, k);
    }
  }

  /** A tree that agrees with a map agrees with the updated map after an insertion exactly when the key is safe. */
  lemma InsertAgreesExactly(n: Node, contents: map<seq<byte>, seq<byte>>, key: seq<byte>, value: seq<byte>)
    requires Agrees(n, contents)
    ensures Agrees(InsertNode(n, KeyToHex(key), value), contents[key := value]) <==> Safe(n, KeyToHex(key))
  {
    InsertHeld(n, contents, key, value);
    HeldExactly(n, contents, key, value);
    var r := InsertNode(n, KeyToHex(key), value);
    if Agrees(r, contents[key := value]) {
      AgreesOnce(r, contents[key := value], Held(n, contents, key, value));
    }
  }

  // Whole runs of insertions, from the empty tree.

  datatype Entry = Entry(key: seq<byte>, value: seq<byte>)

  function Run(entries: seq<Entry>): (n: Node)
    ensures Fits(n, false)
  {
    if entries == [] then Nil
    else
      var n, last := Run(entries[..|entries| - 1]), entries[|entries| - 1];
      InsertFits(n, KeyToHex(last.key), last.value);
      InsertNode(n, KeyToHex(last.key), last.value)
  }

  /** The last value written under each key. */
  function Written(entries: seq<Entry>): (contents: map<seq<byte>, seq<byte>>)
    ensures forall k :: k in contents <==> exists i :: 0 <= i < |entries| && entries[i].key == k
  {
    if entries == [] then map[]
    else
      var last := entries[|entries| - 1];
      Written(entries[..|entries| - 1])[last.key := last.value]
  }

  /** After every insertion of the run, the tree holds exactly what was written. */
  ghost predicate AgreesThroughout(entries: seq<Entry>) {
    forall i :: 0 <= i <= |entries| ==> Agrees(Run(entries[..i]), Written(entries[..i]))
  }

  /** The first keys are all safe where they are inserted. */
  predicate SafeUntil(entries: seq<Entry>, i: nat)
    requires i <= |entries|
  {
    forall j :: 0 <= j < i ==> Safe(Run(entries[..j]), KeyToHex(entries[j].key))
  }

  lemma RunStep(entries: seq<Entry>, i: nat)
    requires i < |entries|
    ensures Run(entries[..i + 1]) == InsertNode(Run(entries[..i]), KeyToHex(entries[i].key), entries[i].value)
    ensures Written(entries[..i + 1]) == Written(entries[..i])[entries[i].key := entries[i].value]
  {
    assert entries[..i + 1][..i] == entries[..i];
  }

  /** While every key is safe the tree holds exactly what was written. */
  lemma {:induction false} SafeAgrees(entries: seq<Entry>, i: nat)
    requires i <= |entries| && SafeUntil(entries, i)
    ensures Agrees(Run(entries[..i]), Written(entries[..i]))
  {
    if i > 0 {
      SafeAgrees(entries, i - 1);
      RunStep(entries, i - 1);
      InsertAgreesExactly(Run(entries[..i - 1]), Written(entries[..i - 1]), entries[i - 1].key, entries[i - 1].value);
    }
  }

  /** The trie behaves as a map over a whole run exactly when every key is safe where it is inserted. */
  lemma RunExact(entries: seq<Entry>)
    ensures AgreesThroughout(entries) <==> SafeUntil(entries, |entries|)
  {
    if SafeUntil(entries, |entries|) {
      forall i | 0 <= i <= |entries| ensures Agrees(Run(entries[..i]), Written(entries[..i])) {
        SafeAgrees(entries, i);
      }
    }
    if AgreesThroughout(entries) {
      forall i | 0 <= i < |entries| ensures Safe(Run(entries[..i]), KeyToHex(entries[i].key)) {
        RunStep(entries, i);
        assert Agrees(Run(entries[..i + 1]), Written(entries[..i + 1]));
        InsertAgreesExactly(Run(entries[..i]), Written(entries[..i]), entries[i].key, entries[i].value);
      }
    }
  }

  /** What is found after safe insertions was inserted. */
  lemma FoundWritten(entries: seq<Entry>, i: nat, k: seq<nibble>)
    requires i <= |entries| && Agrees(Run(entries[..i]), Written(entries[..i]))
    requires !Odd(k) && Lookup(Run(entries[..i]), k) != None
    ensures exists j :: 0 <= j < i && KeyToHex(entries[j].key) == k
  {
    KeyToHexInverse(k);
    var q := HexToKey(k);
    assert Find(Written(entries[..i]), q) != None;
    var j :| 0 <= j < i && entries[..i][j].key == q;
    assert entries[j].key == q;
  }

  /** No two different keys part at a last nibble of the two. */
  ghost predicate AllApart(entries: seq<Entry>) {
    forall i, j :: 0 <= i < |entries| && 0 <= j < |entries| && entries[i].key != entries[j].key
      ==> !Late(KeyToHex(entries[i].key), KeyToHex(entries[j].key))
  }

  lemma SafeOneMore(entries: seq<Entry>, i: nat)
    requires i < |entries| && SafeUntil(entries, i) && Safe(Run(entries[..i]), KeyToHex(entries[i].key))
    ensures SafeUntil(entries, i + 1)
  {
    hide Run, Safe, KeyToHex;
  }

  lemma {:induction false} ApartSafe(entries: seq<Entry>, i: nat)
    requires AllApart(entries) && i <= |entries|
    ensures SafeUntil(entries, i) && Full(Run(entries[..i]), false)
  {
    if i > 0 {
      hide AllApart, SafeUntil, Safe, Full;
      ApartSafe(entries, i - 1);
      SafeAgrees(entries, i - 1);
      ApartHere(entries, i - 1);
      FullStep(entries, i - 1);
      SafeOneMore(entries, i - 1);
    }
  }

  lemma FullStep(entries: seq<Entry>, i: nat)
    requires i < |entries| && Full(Run(entries[..i]), false)
    requires Apart(Run(entries[..i]), KeyToHex(entries[i].key))
    ensures Safe(Run(entries[..i]), KeyToHex(entries[i].key)) && Full(Run(entries[..i + 1]), false)
  {
    hide Run, Written, InsertNode, Fits, Full, Safe, Apart;
    var n, last := Run(entries[..i]), entries[i];
    assert !Odd(KeyToHex(last.key));
    SafeWhenApart(n, KeyToHex(last.key));
    InsertFull(n, KeyToHex(last.key), last.value);
    RunStep(entries, i);
  }

  lemma ApartHere(entries: seq<Entry>, i: nat)
    requires AllApart(entries) && i < |entries| && Agrees(Run(entries[..i]), Written(entries[..i]))
    ensures Apart(Run(entries[..i]), KeyToHex(entries[i].key))
  {
    hide Run, Written, Agrees, Lookup, Late;
    var n, hex := Run(entries[..i]), KeyToHex(entries[i].key);
    forall k: seq<nibble> | k != hex && Odd(k) == Odd(hex) && Lookup(n, k) != None
      ensures !Late(k, hex) && !Late(hex, k)
    {
      FoundWritten(entries, i, k);
    }
  }

  /** For keys of any lengths of which no two part at a last nibble, the trie is a map over the whole run. */
  lemma RunApart(entries: seq<Entry>)
    requires AllApart(entries)
    ensures AgreesThroughout(entries)
  {
    ApartSafe(entries, |entries|);
    RunExact(entries);
  }

  lemma {:induction false} RunUniform(entries: seq<Entry>, length: nat, i: nat)
    requires forall j :: 0 <= j < |entries| ==> |entries[j].key| == length
    requires i <= |entries| && SafeUntil(entries, i)
    ensures Uniform(Run(entries[..i]), 2 * length)
  {
    if i > 0 {
      RunUniform(entries, length, i - 1);
      UniformStep(entries, length, i - 1);
    }
  }

  lemma UniformStep(entries: seq<Entry>, length: nat, i: nat)
    requires i < |entries| && |entries[i].key| == length
    requires Uniform(Run(entries[..i]), 2 * length) && Safe(Run(entries[..i]), KeyToHex(entries[i].key))
    ensures Uniform(Run(entries[..i + 1]), 2 * length)
  {
    hide Run, Written, InsertNode, Fits, Uniform, Safe;
    var hex := KeyToHex(entries[i].key);
    assert !Odd(hex);
    RunStep(entries, i);
    InsertUniform(Run(entries[..i]), 2 * length, hex, entries[i].value);
  }

  /** For keys of one length, the trie is a map over the whole run exactly when no two keys are twins. */
  lemma RunOfOneLength(entries: seq<Entry>, length: nat)
    requires forall j :: 0 <= j < |entries| ==> |entries[j].key| == length
    ensures AgreesThroughout(entries) <==> AllApart(entries)
  {
    if AllApart(entries) {
      RunApart(entries);
    } else if AgreesThroughout(entries) {
      RunExact(entries);
      var i, j :| 0 <= i < |entries| && 0 <= j < |entries| && entries[i].key != entries[j].key
                  && Late(KeyToHex(entries[i].key), KeyToHex(entries[j].key));
      var a, b := KeyToHex(entries[i].key), KeyToHex(entries[j].key);
      CommonSymmetric(a, b);
      if i < j { TwinsInRun(entries, length, i, j); } else { TwinsInRun(entries, length, j, i); }
    }
  }

  lemma TwinsInRun(entries: seq<Entry>, length: nat, i: nat, j: nat)
    requires forall j :: 0 <= j < |entries| ==> |entries[j].key| == length
    requires i < j < |entries| && Twins(KeyToHex(entries[i].key), KeyToHex(entries[j].key))
    ensures !SafeUntil(entries, |entries|)
  {
    if SafeUntil(entries, |entries|) {
      RunUniform(entries, length, j);
      SafeAgrees(entries, j);
      var k := entries[i].key;
      assert entries[..j][i].key == k;
      assert k in Written(entries[..j]);
      assert Lookup(Run(entries[..j]), KeyToHex(k)) != None;
      assert Safe(Run(entries[..j]), KeyToHex(entries[j].key));
      TwinsAreLost(Run(entries[..j]), 2 * length, KeyToHex(entries[j].key), KeyToHex(k));
    }
  }

  lemma {:induction false} KeyToHexAppend(a: seq<byte>, b: seq<byte>)
    ensures KeyToHex(a + b) == KeyToHex(a) + KeyToHex(b)
  {
    if a == [] {
      assert a + b == b;
    } else {
      assert (a + b)[1..] == a[1..] + b;
      KeyToHexAppend(a[1..], b);
    }
  }

  /** Two keys that differ in the low half of their last byte, as "key1" and "key2": neither is found afterwards. */
  lemma LastByteLost(prefix: seq<byte>, a: byte, b: byte, v: seq<byte>, w: seq<byte>)
    requires a != b && a / 16 == b / 16
    ensures var r := Run([Entry(prefix + [a], v), Entry(prefix + [b], w)]);
            Lookup(r, KeyToHex(prefix + [a])) == None && Lookup(r, KeyToHex(prefix + [b])) == None
  {
    var entries := [Entry(prefix + [a], v), Entry(prefix + [b], w)];
    var x, y := KeyToHex(prefix + [a]), KeyToHex(prefix + [b]);
    RunStep(entries, 0);
    RunStep(entries, 1);
    assert entries[..0] == [] && entries[..2] == entries;
    var n := Leaf(x, v);
    assert Run(entries[..1]) == n;
    KeyToHexAppend(prefix, [a]);
    KeyToHexAppend(prefix, [b]);
    CommonBelow(KeyToHex(prefix), KeyToHex([a]), KeyToHex([b]));
    hide Run, InsertNode, CommonPrefix;
    TwinsAreLost(n, |x|, y, x);
    DroppedMissing(n, y);
    InsertLaw(n, y, w, x);
    InsertLaw(n, y, w, y);
  }

  /** Whether keys are safe depends on their order, so no condition on the set of keys alone is exact. */
  lemma OrderMatters(v: seq<byte>)
    ensures AgreesThroughout([Entry([97, 98], v), Entry([98, 99], v), Entry([99], v), Entry([100], v)])
    ensures !AgreesThroughout([Entry([99], v), Entry([100], v), Entry([97, 98], v), Entry([98, 99], v)])
  {
    hide Run, Written, KeyToHex, AgreesThroughout, SafeUntil;
    FourHexes();
    var early, late := [Entry([97, 98], v), Entry([98, 99], v), Entry([99], v), Entry([100], v)],
                       [Entry([99], v), Entry([100], v), Entry([97, 98], v), Entry([98, 99], v)];
    OneBranch(early, v);
    RunExact(early);
    NoBranch(late, v);
    RunExact(late);
  }

  lemma NoBranch(entries: seq<Entry>, v: seq<byte>)
    requires |entries| == 4 && entries[0].value == v
    requires KeyToHex(entries[0].key) == [6, 3] && KeyToHex(entries[1].key) == [6, 4]
    ensures !SafeUntil(entries, 4)
  {
    assert entries[..0] == [] && Run([]) == Nil;
    hide Run, Written, KeyToHex;
    AtNil([6, 3], v);
    RunStep(entries, 0);
    CommonBelow([6], [4], [3]);
    assert [6] + [4] == [6, 4] && [6] + [3] == [6, 3];
    assert !Safe(Run(entries[..1]), KeyToHex(entries[1].key));
  }

  lemma OneBranch(entries: seq<Entry>, v: seq<byte>)
    requires |entries| == 4 && forall i :: 0 <= i < 4 ==> entries[i].value == v
    requires KeyToHex(entries[0].key) == [6, 1, 6, 2] && KeyToHex(entries[1].key) == [6, 2, 6, 3]
    requires KeyToHex(entries[2].key) == [6, 3] && KeyToHex(entries[3].key) == [6, 4]
    ensures SafeUntil(entries, 4)
  {
    assert entries[..0] == [] && Run([]) == Nil;
    hide Run, Written, KeyToHex, InsertNode, Safe, Fits;
    AtNil([6, 1, 6, 2], v);
    ForkAtTwo(v);
    AtFork(v);
    RunStep(entries, 0);
    RunStep(entries, 1);
    RunStep(entries, 2);
    hide SafeUntil;
    assert SafeUntil(entries, 0) by { NoneYet(entries); }
    SafeOneMore(entries, 0);
    SafeOneMore(entries, 1);
    SafeOneMore(entries, 2);
    SafeOneMore(entries, 3);
  }

  lemma NoneYet(entries: seq<Entry>)
    ensures SafeUntil(entries, 0)
  {
  }

  lemma AtNil(key: seq<nibble>, v: seq<byte>)
    ensures InsertNode(Nil, key, v) == Leaf(key, v) && Safe(Nil, key)
  {
  }

  lemma FourHexes()
    ensures KeyToHex([97, 98]) == [6, 1, 6, 2] && KeyToHex([98, 99]) == [6, 2, 6, 3]
    ensures KeyToHex([99]) == [6, 3] && KeyToHex([100]) == [6, 4]
  {
  }

  lemma ForkAtTwo(v: seq<byte>)
    ensures Fits(Leaf([6, 1, 6, 2], v), false) && Safe(Leaf([6, 1, 6, 2], v), [6, 2, 6, 3])
    ensures InsertNode(Leaf([6, 1, 6, 2], v), [6, 2, 6, 3], v)
            == Extension([6], Branch(Blank()[1 := Leaf([6, 2], v)][2 := Leaf([6, 3], v)]))
  {
    var ab, bc := [6, 1, 6, 2], [6, 2, 6, 3];
    assert CommonPrefix([2, 6, 3], [1, 6, 2]) == 0;
    CommonBelow([6], [2, 6, 3], [1, 6, 2]);
    assert [6] + [2, 6, 3] == bc && [6] + [1, 6, 2] == ab;
    assert ab[1..] == [1, 6, 2] && bc[1..] == [2, 6, 3] && bc[..1] == [6];
  }

  lemma AtFork(v: seq<byte>)
    ensures var n := Extension([6], Branch(Blank()[1 := Leaf([6, 2], v)][2 := Leaf([6, 3], v)]));
            Fits(n, false) && Safe(n, [6, 3]) && Safe(InsertNode(n, [6, 3], v), [6, 4])
  {
    var b := Branch(Blank()[1 := Leaf([6, 2], v)][2 := Leaf([6, 3], v)]);
    assert Fits(b, true) && Fits(Extension([6], b), false);
    Below6(b, 3, v);
    var after := Branch(b.children[3 := Leaf([], v)]);
    assert InsertNode(b, [3], v) == after;
    assert Fits(after, true) && Fits(Extension([6], after), false);
    Below6(after, 4, v);
  }

  lemma Below6(b: Node, x: nibble, v: seq<byte>)
    requires b.Branch? && Fits(b, true) && b.children[x] == Nil
    ensures Fits(Extension([6], b), false) && Safe(Extension([6], b), [6, x])
    ensures InsertNode(Extension([6], b), [6, x], v) == Extension([6], Branch(b.children[x := Leaf([], v)]))
  {
    var six, key: seq<nibble> := [6], [6, x];
    assert key[1..] == [x] && [x][1..] == [];
    assert key[0] == six[0] && Odd(six) && !Odd(key);
    assert CommonPrefix(key, six) == 1;
    assert Displaced(b.children[x], [x][1..]) == None;
    assert Displaced(b, [x]) == Below([[x][0]], None);
    assert Safe(b, [x]);
    assert Fits(Extension(six, b), false) && InsertNode(b, [x], v) == Branch(b.children[x := Leaf([], v)]);
  }

  class Trie {
    var root: Node
    /** What is found in the tree. */
    ghost var contents: map<seq<byte>, seq<byte>>

    constructor ()
      ensures Valid() && root == Nil && contents == map[]
    {
      root, contents := Nil, map[];
    }

    ghost predicate Valid()
      reads this
    {
      Agrees(root, contents)
    }

    /** Walks down from the root. */
    method Get(key: seq<byte>) returns (value: Option<seq<byte>>)
      requires Valid()
      ensures value == Lookup(root, KeyToHex(key))
      ensures value == if key in contents then Some(contents[key]) else None
    {
      var current, hexKey := root, KeyToHex(key);
      assert Lookup(root, hexKey) == Find(contents, key);
      while current != Nil
        invariant Lookup(current, hexKey) == Lookup(root, KeyToHex(key))
        decreases current
      {
        match current {
          case Branch(ch) =>
            if |hexKey| == 0 {
              return if 16 < |ch| && ch[16].Leaf? then Some(ch[16].value) else None;
            }
            if hexKey[0] >= |ch| || ch[hexKey[0]] == Nil {
              return None;
            }
            current, hexKey := ch[hexKey[0]], hexKey[1..];
          case Extension(shared, next) =>
            if !(shared <= hexKey) {
              return None;
            }
            current, hexKey := next, hexKey[|shared|..];
          case Leaf(k, v) =>
            return if hexKey == k then Some(v) else None;
        }
      }
      value := None;
    }

    /**
     * Inserts any key into any tree: what is held afterwards, and that it is the update of what was held before
     * exactly when the key is safe.
     */
    method Insert(key: seq<byte>, value: seq<byte>)
      requires Valid()
      modifies this
      ensures Valid() && root == InsertNode(old(root), KeyToHex(key), value)
      ensures contents == Held(old(root), old(contents), key, value)
      ensures contents == old(contents)[key := value] <==> Safe(old(root), KeyToHex(key))
    {
      InsertHeld(root, contents, key, value);
      HeldExactly(root, contents, key, value);
      contents := Held(root, contents, key, value);
      root := InsertNode(root, KeyToHex(key), value);
    }
  }
}
