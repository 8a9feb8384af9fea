/**
 * The encoder's buffer: string data in one place, list headers in another, spliced together at the end. List
 * headers go before data that is already written, so their sizes are filled in when the list is closed.
 */
module RlpBuffer {
  import opened RlpCoding
  import opened Words

  function ByteAt(i: nat, j: nat): byte
  {
    Pow256Positive(j);
    i / Pow256(j) % 256
  }

  lemma {:induction false} Pow256Positive(k: nat)
    ensures Pow256(k) > 0
  {
    if k > 0 { Pow256Positive(k - 1); }
  }

  lemma ShiftByte(i: nat, j: nat)
    ensures ByteAt(i / 256, j) == ByteAt(i, j + 1)
  {
    Pow256Positive(j);
    SplitProduct(i, 256, Pow256(j));
  }

  /** The bytes of a number, from the most significant. */
  lemma {:induction false} BigEndianBytes(i: nat, k: nat)
    requires k > 0 && i < Pow256(k) && (k == 1 || Pow256(k - 1) <= i)
    ensures |BigEndian(i)| == k
    ensures forall j :: 0 <= j < k ==> BigEndian(i)[j] == ByteAt(i, k - 1 - j)
  {
    assert Pow256(0) == 1 && Pow256(1) == 256;
    if k > 1 {
      assert Pow256(k - 1) == 256 * Pow256(k - 2);
      Pow256Positive(k - 2);
      BigEndianBytes(i / 256, k - 1);
      forall j | 0 <= j < k ensures BigEndian(i)[j] == ByteAt(i, k - 1 - j) {
        if j < k - 1 {
          ShiftByte(i, k - 2 - j);
        }
      }
    }
  }

  lemma Pow256At(k: nat)
    ensures k == 0 ==> Pow256(k) == 1
    ensures k == 1 ==> Pow256(k) == 0x100
    ensures k == 2 ==> Pow256(k) == 0x1_0000
    ensures k == 3 ==> Pow256(k) == 0x100_0000
    ensures k == 4 ==> Pow256(k) == 0x1_0000_0000
    ensures k == 5 ==> Pow256(k) == 0x100_0000_0000
    ensures k == 6 ==> Pow256(k) == 0x1_0000_0000_0000
    ensures k == 7 ==> Pow256(k) == 0x100_0000_0000_0000
    ensures k == 8 ==> Pow256(k) == 0x1_0000_0000_0000_0000
  {
  }

  /** byte(i >> 8j). */
  function Shifted(i: nat, j: nat): (b: byte)
    requires j < 8
    ensures b == ByteAt(i, j)
  {
    Pow256At(j);
    match j
    case 0 => i % 256
    case 1 => i / 0x100 % 256
    case 2 => i / 0x1_0000 % 256
    case 3 => i / 0x100_0000 % 256
    case 4 => i / 0x1_0000_0000 % 256
    case 5 => i / 0x100_0000_0000 % 256
    case 6 => i / 0x1_0000_0000_0000 % 256
    case 7 => i / 0x100_0000_0000_0000 % 256
  }

  /** Which size class a number falls in. */
  lemma Fits(i: nat, k: nat)
    requires 1 <= k <= 8 && i < Pow256(k) && (k == 1 || Pow256(k - 1) <= i)
    ensures |BigEndian(i)| == k
    ensures forall j :: 0 <= j < k ==> BigEndian(i)[j] == Shifted(i, k - 1 - j)
  {
    BigEndianBytes(i, k);
  }

  /** y is x with w written over it at `at`. */
  ghost predicate Overwritten(x: seq<byte>, y: seq<byte>, at: nat, w: seq<byte>) {
    && |y| == |x| && at + |w| <= |x|
    && forall k :: 0 <= k < |x| ==> y[k] == if at <= k < at + |w| then w[k - at] else x[k]
  }

  /** Writes i at the start of b[at..] in the fewest bytes, one to eight of them by its size. */
  method PutInt(b: array<byte>, at: nat, i: nat) returns (size: nat)
    requires i < SIZE_LIMIT && at + |BigEndian(i)| <= b.Length
    modifies b
    ensures size == |BigEndian(i)| && Overwritten(old(b[..]), b[..], at, BigEndian(i))
  {
    hide Pow256, BigEndian, Shifted;
    size := SizeClass(i);
    Fits(i, size);
    var j := 0;
    while j < size
      invariant 0 <= j <= size
      invariant forall k :: 0 <= k < b.Length ==> b[k] == if at <= k < at + j then BigEndian(i)[k - at] else old(b[k])
    {
      b[at + j] := Shifted(i, size - 1 - j);
      j := j + 1;
    }
  }

  method SizeClass(i: nat) returns (k: nat)
    requires i < SIZE_LIMIT
    ensures 1 <= k <= 8 && i < Pow256(k) && (k == 1 || Pow256(k - 1) <= i)
  {
    hide Pow256;
    if i < 0x100 { k := 1; }
    else if i < 0x1_0000 { k := 2; }
    else if i < 0x100_0000 { k := 3; }
    else if i < 0x1_0000_0000 { k := 4; }
    else if i < 0x100_0000_0000 { k := 5; }
    else if i < 0x1_0000_0000_0000 { k := 6; }
    else if i < 0x100_0000_0000_0000 { k := 7; }
    else { k := 8; }
    Pow256At(k);
    Pow256At(k - 1);
  }

  /** The number of bytes needed to store i. */
  method IntSize(i: nat) returns (size: nat)
    requires i < SIZE_LIMIT
    ensures size == |BigEndian(i)|
  {
    size := 1;
    var rest: nat := i / 256;
    while rest != 0
      invariant |BigEndian(i)| == if rest == 0 then size else size + |BigEndian(rest)|
      decreases rest
    {
      rest := rest / 256;
      size := size + 1;
    }
  }

  /** Writes a header at b[at..]; the tags are base and base + 55. */
  method PutHead(b: array<byte>, at: nat, smalltag: byte, largetag: byte, size: nat) returns (n: nat)
    requires (smalltag == 0x80 || smalltag == 0xC0) && largetag == smalltag + 55
    requires size < SIZE_LIMIT && at + |Header(smalltag, size)| <= b.Length
    modifies b
    ensures n == |Header(smalltag, size)| && Overwritten(old(b[..]), b[..], at, Header(smalltag, size))
  {
    HeaderForm(smalltag, size);
    hide Header, BigEndian;
    if size < 56 {
      b[at] := smalltag + size;
      return 1;
    }
    var sizesize := PutInt(b, at + 1, size);
    ghost var mid := b[..];
    b[at] := largetag + sizesize;
    OverwriteBefore(old(b[..]), mid, b[..], at, largetag + sizesize, BigEndian(size));
    n := sizesize + 1;
  }

  lemma OverwriteBefore(x: seq<byte>, y: seq<byte>, z: seq<byte>, at: nat, tag: byte, w: seq<byte>)
    requires Overwritten(x, y, at + 1, w) && at < |y| && z == y[at := tag]
    ensures Overwritten(x, z, at, [tag] + w)
  {
  }

  lemma HeaderForm(base: byte, n: nat)
    requires (base == 0x80 || base == 0xC0) && n < SIZE_LIMIT
    ensures n < 56 ==> Header(base, n) == [base + n]
    ensures n >= 56 ==> 1 <= |BigEndian(n)| <= 8 && Header(base, n) == [base + 55 + |BigEndian(n)|] + BigEndian(n)
  {
    SizeBytes(n);
  }

  datatype ListHead = ListHead(offset: nat, size: nat)

  function Head(h: ListHead): seq<byte> { Header(0xC0, h.size) }

  /** Headers in order of their place in the string data, from pos up to end. */
  ghost predicate Ordered(heads: seq<ListHead>, pos: nat, end: nat) {
    pos <= end && (heads != [] ==> pos <= heads[0].offset && Ordered(heads[1..], heads[0].offset, end))
  }

  /** The output: string data from pos on, with each header put in before the data at its offset. */
  ghost function Splice(str: seq<byte>, heads: seq<ListHead>, pos: nat): seq<byte>
    requires Ordered(heads, pos, |str|)
  {
    if heads == [] then str[pos..]
    else
      OrderedBelow(heads, pos, |str|);
      str[pos..heads[0].offset] + Head(heads[0]) + Splice(str, heads[1..], heads[0].offset)
  }

  lemma {:induction false} OrderedBelow(heads: seq<ListHead>, pos: nat, end: nat)
    requires Ordered(heads, pos, end)
    ensures heads != [] ==> heads[0].offset <= end
  {
  }

  ghost predicate HeadsFit(heads: seq<ListHead>) {
    forall i :: 0 <= i < |heads| ==> heads[i].size < SIZE_LIMIT
  }

  ghost function HeadSizes(heads: seq<ListHead>): nat {
    if heads == [] then 0 else |Head(heads[0])| + HeadSizes(heads[1..])
  }

  lemma {:induction false} HeadSizesConcat(g: seq<ListHead>, h: seq<ListHead>)
    ensures HeadSizes(g + h) == HeadSizes(g) + HeadSizes(h)
  {
    if g == [] {
      assert g + h == h;
    } else {
      assert (g + h)[1..] == g[1..] + h;
      HeadSizesConcat(g[1..], h);
    }
  }

  lemma {:induction false} SpliceLength(str: seq<byte>, heads: seq<ListHead>, pos: nat)
    requires Ordered(heads, pos, |str|)
    ensures |Splice(str, heads, pos)| == |str| - pos + HeadSizes(heads)
  {
    if heads != [] {
      OrderedBelow(heads, pos, |str|);
      SpliceLength(str, heads[1..], heads[0].offset);
    }
  }

  /** Data and headers appended behind what is there come out behind it. */
  lemma {:induction false} SpliceAppend(str: seq<byte>, g: seq<ListHead>, pos: nat, t: seq<byte>, h: seq<ListHead>)
    requires Ordered(g, pos, |str|) && Ordered(h, |str|, |str + t|)
    ensures Ordered(g + h, pos, |str + t|)
    ensures Splice(str + t, g + h, pos) == Splice(str, g, pos) + Splice(str + t, h, |str|)
  {
    hide Head;
    var s := str + t;
    if g == [] {
      assert g + h == h;
      SpliceEarlier(s, h, |str|, pos);
      assert s[pos..|str|] == str[pos..];
    } else {
      OrderedBelow(g, pos, |str|);
      var g1, off := g[1..], g[0].offset;
      SpliceAppend(str, g1, off, t, h);
      SpliceFirst(s, g[0], g1 + h, pos);
      assert g + h == [g[0]] + (g1 + h);
      assert s[pos..off] == str[pos..off];
      Regroup(str[pos..off] + Head(g[0]), Splice(str, g1, off), Splice(s, h, |str|));
    }
  }

  lemma SpliceFirst(s: seq<byte>, lh: ListHead, g: seq<ListHead>, pos: nat)
    requires pos <= lh.offset <= |s| && Ordered(g, lh.offset, |s|)
    ensures Ordered([lh] + g, pos, |s|)
    ensures Splice(s, [lh] + g, pos) == s[pos..lh.offset] + Head(lh) + Splice(s, g, lh.offset)
  {
    assert ([lh] + g)[1..] == g;
  }

  lemma Cut<T>(s: seq<T>, a: nat, b: nat, c: nat)
    requires a <= b <= c <= |s|
    ensures s[a..c] == s[a..b] + s[b..c]
  {
  }

  lemma Regroup4<T>(a: seq<T>, b: seq<T>, c: seq<T>, d: seq<T>)
    ensures ((a + b) + c) + d == a + ((b + c) + d)
  {
  }

  /** Starting earlier puts the data in between in front. */
  lemma SpliceEarlier(s: seq<byte>, h: seq<ListHead>, at: nat, pos: nat)
    requires Ordered(h, at, |s|) && pos <= at
    ensures Ordered(h, pos, |s|) && Splice(s, h, pos) == s[pos..at] + Splice(s, h, at)
  {
    hide Head;
    if h == [] {
      Cut(s, pos, at, |s|);
      assert s[at..] == s[at..|s|] && s[pos..] == s[pos..|s|];
    } else {
      OrderedBelow(h, at, |s|);
      Cut(s, pos, at, h[0].offset);
      Regroup4(s[pos..at], s[at..h[0].offset], Head(h[0]), Splice(s, h[1..], h[0].offset));
    }
  }

  /** A header in front of its list. */
  lemma SpliceHead(s: seq<byte>, lh: ListHead, g: seq<ListHead>)
    requires lh.offset <= |s| && Ordered(g, lh.offset, |s|)
    ensures Ordered([lh] + g, lh.offset, |s|) && Splice(s, [lh] + g, lh.offset) == Head(lh) + Splice(s, g, lh.offset)
  {
    hide Head;
    SpliceFirst(s, lh, g, lh.offset);
    assert s[lh.offset..lh.offset] == [];
  }

  lemma SizesHead(lh: ListHead, g: seq<ListHead>)
    ensures HeadSizes([lh] + g) == |Head(lh)| + HeadSizes(g)
  {
    assert ([lh] + g)[1..] == g;
  }

  class EncBuffer {
    var str: seq<byte>
    var lheads: seq<ListHead>
    var lhsize: nat
    const sizebuf: array<byte>

    constructor ()
      ensures str == [] && lheads == [] && lhsize == 0 && sizebuf.Length == 9 && fresh(sizebuf)
    {
      str, lheads, lhsize := [], [], 0;
      sizebuf := new byte[9](_ => 0);
    }

    function Size(): nat
      reads this
    {
      |str| + lhsize
    }

    /** Appends tag plus the number of bytes of i, then those bytes, by way of sizebuf. */
    method AppendTagged(tag: byte, i: nat)
      requires sizebuf.Length == 9 && i < SIZE_LIMIT && tag + 8 < 256
      modifies this`str, sizebuf
      ensures |BigEndian(i)| <= 8 && str == old(str) + ([tag + |BigEndian(i)|] + BigEndian(i))
    {
      SizeBytes(i);
      hide BigEndian;
      var s := PutInt(sizebuf, 1, i);
      ghost var mid := sizebuf[..];
      sizebuf[0] := tag + s;
      OverwriteBefore(old(sizebuf[..]), mid, sizebuf[..], 0, tag + s, BigEndian(i));
      assert sizebuf[..s + 1] == [tag + s] + BigEndian(i);
      str := str + sizebuf[..s + 1];
    }

    method EncodeStringHeader(size: nat)
      requires sizebuf.Length == 9 && size < SIZE_LIMIT
      modifies this`str, sizebuf
      ensures str == old(str) + Header(0x80, size)
    {
      HeaderForm(0x80, size);
      hide BigEndian, Header;
      if size < 56 {
        str := str + [0x80 + size];
      } else {
        AppendTagged(0xB7, size);
      }
    }

    /** A byte string; a single byte below 0x80 stands for itself. */
    method WriteBytes(b: seq<byte>)
      requires sizebuf.Length == 9 && |b| < SIZE_LIMIT
      modifies this`str, sizebuf
      ensures str == old(str) + Encode(Str(b))
    {
      if |b| == 1 && b[0] <= 0x7F {
        str := str + [b[0]];
      } else {
        EncodeStringHeader(|b|);
        str := str + b;
      }
    }

    /** An unsigned integer: the string of its big-endian bytes. */
    method WriteUint64(i: nat)
      requires sizebuf.Length == 9 && i < SIZE_LIMIT
      modifies this`str, sizebuf
      ensures str == old(str) + Encode(Str(UintBytes(i)))
    {
      if i == 0 {
        str := str + [0x80];
      } else if i < 128 {
        str := str + [i];
      } else {
        LongUint(i);
        hide BigEndian, Encode;
        AppendTagged(0x80, i);
      }
    }

    /** Opens a list: its header goes before the data that follows; the total so far is kept in its size. */
    method List() returns (index: nat)
      modifies this`lheads
      ensures lheads == old(lheads) + [ListHead(|str|, lhsize)] && index == |old(lheads)|
    {
      lheads := lheads + [ListHead(|str|, lhsize)];
      index := |lheads| - 1;
    }

    /** Closes a list: everything written since it was opened, headers included, is its contents. */
    method ListEnd(index: nat)
      requires index < |lheads| && lheads[index].offset + lheads[index].size <= Size() < SIZE_LIMIT
      modifies this`lheads, this`lhsize
      ensures var lh := old(lheads[index]); var size := old(Size()) - lh.offset - lh.size;
              lheads == old(lheads)[index := ListHead(lh.offset, size)] && lhsize == old(lhsize) + |Header(0xC0, size)|
    {
      var lh := lheads[index];
      var size := Size() - lh.offset - lh.size;
      lheads := lheads[index := ListHead(lh.offset, size)];
      if size < 56 {
        lhsize := lhsize + 1;
      } else {
        var n := IntSize(size);
        lhsize := lhsize + (1 + n);
      }
    }

    /**
     * Writes a value. What it adds to the string data and to the headers splices to exactly its encoding, wherever
     * in the buffer and however deep in open lists it is written.
     */
    method EncodeItem(v: Item) returns (ghost t: seq<byte>, ghost h: seq<ListHead>)
      requires sizebuf.Length == 9 && Size() + |Encode(v)| < SIZE_LIMIT
      modifies this, sizebuf
      ensures Written(old(str), old(lheads), old(lhsize), Encode(v), t, h)
      decreases v, 0
    {
      match v {
        case Str(b) =>
          WriteBytes(b);
          t, h := Encode(v), [];
        case Items(vs) =>
          if |vs| == 0 {
            str := str + [0xC0];
            t, h := [0xC0], [];
            assert Encode(v) == [0xC0];
          } else {
            t, h := EncodeList(vs);
          }
      }
    }

    method EncodeList(vs: seq<Item>) returns (ghost t: seq<byte>, ghost h: seq<ListHead>)
      requires sizebuf.Length == 9 && Size() + |Encode(Items(vs))| < SIZE_LIMIT
      modifies this, sizebuf
      ensures Written(old(str), old(lheads), old(lhsize), Encode(Items(vs)), t, h)
      decreases vs, 2
    {
      ghost var str0, heads0, lhsize0 := str, lheads, lhsize;
      var listOffset := List();
      ghost var g;
      t, g := EncodeElems(vs);
      SpliceLength(str, g, |str0|);
      hide Header, Written;
      ListEnd(listOffset);
      ghost var lh := ListHead(|str0|, |EncodeAll(vs)|);
      h := [lh] + g;
      assert lheads == heads0 + h;
      ListWritten(str0, heads0, lhsize0, vs, t, g, lh);
    }

    lemma ListWritten(str0: seq<byte>, heads0: seq<ListHead>, lhsize0: nat, vs: seq<Item>, t: seq<byte>,
                      g: seq<ListHead>, lh: ListHead)
      requires lh == ListHead(|str0|, |EncodeAll(vs)|) && lh.size < SIZE_LIMIT && HeadsFit(g)
      requires str == str0 + t && Ordered(g, |str0|, |str|) && Splice(str, g, |str0|) == EncodeAll(vs)
      requires lheads == heads0 + ([lh] + g) && lhsize == lhsize0 + HeadSizes(g) + |Head(lh)|
      ensures Written(str0, heads0, lhsize0, Encode(Items(vs)), t, [lh] + g)
    {
      SpliceHead(str, lh, g);
      SizesHead(lh, g);
      hide Header, HeadSizes, Splice;
    }

    /** str0 grew by t, heads0 by h, and the two splice to out. */
    ghost predicate Written(str0: seq<byte>, heads0: seq<ListHead>, lhsize0: nat, out: seq<byte>, t: seq<byte>,
                            h: seq<ListHead>)
      reads this
    {
      && str == str0 + t && lheads == heads0 + h && lhsize == lhsize0 + HeadSizes(h) && HeadsFit(h)
      && Ordered(h, |str0|, |str|) && Splice(str, h, |str0|) == out
    }

    method EncodeElems(vs: seq<Item>) returns (ghost t: seq<byte>, ghost h: seq<ListHead>)
      requires sizebuf.Length == 9 && Size() + |EncodeAll(vs)| < SIZE_LIMIT
      modifies this, sizebuf
      ensures Written(old(str), old(lheads), old(lhsize), EncodeAll(vs), t, h)
      decreases vs, 1
    {
      ghost var str0, heads0, lhsize0 := str, lheads, lhsize;
      t, h := [], [];
      hide Encode, EncodeAll, Head;
      assert EncodeAll(vs[..0]) == [] by { EncodeNone(vs[..0]); }
      hide Splice, HeadSizes, Ordered;
      var i := 0;
      NothingWritten(str0, heads0, lhsize0);
      while i < |vs|
        invariant 0 <= i <= |vs|
        invariant Written(str0, heads0, lhsize0, EncodeAll(vs[..i]), t, h)
      {
        ghost var t1, h1 := t, h;
        AllPrefix(vs, i);
        SpliceLength(str, h, |str0|);
        ghost var t2, h2 := EncodeItem(vs[i]);
        WrittenAppend(str0, heads0, lhsize0, EncodeAll(vs[..i]), t1, h1, Encode(vs[i]), t2, h2);
        t, h := t + t2, h1 + h2;
        i := i + 1;
      }
      assert vs[..i] == vs;
    }

    lemma NothingWritten(str0: seq<byte>, heads0: seq<ListHead>, lhsize0: nat)
      requires str == str0 && lheads == heads0 && lhsize == lhsize0
      ensures Written(str0, heads0, lhsize0, [], [], [])
    {
    }

    /** What is written in two steps splices to the two outputs in a row. */
    lemma WrittenAppend(str0: seq<byte>, heads0: seq<ListHead>, lhsize0: nat,
                        out1: seq<byte>, t1: seq<byte>, h1: seq<ListHead>,
                        out2: seq<byte>, t2: seq<byte>, h2: seq<ListHead>)
      requires Ordered(h1, |str0|, |str0 + t1|) && Splice(str0 + t1, h1, |str0|) == out1 && HeadsFit(h1)
      requires Written(str0 + t1, heads0 + h1, lhsize0 + HeadSizes(h1), out2, t2, h2)
      ensures Written(str0, heads0, lhsize0, out1 + out2, t1 + t2, h1 + h2)
    {
      hide Splice, HeadSizes, Ordered, Head;
      SpliceAppend(str0 + t1, h1, |str0|, t2, h2);
      HeadSizesConcat(h1, h2);
      Regroup(str0, t1, t2);
      Regroup(heads0, h1, h2);
    }
  }

  lemma EncodeNone(vs: seq<Item>)
    requires vs == []
    ensures EncodeAll(vs) == []
  {
  }

  lemma AllPrefix(vs: seq<Item>, i: nat)
    requires i < |vs|
    ensures EncodeAll(vs[..i + 1]) == EncodeAll(vs[..i]) + Encode(vs[i])
    ensures |EncodeAll(vs[..i])| + |Encode(vs[i])| <= |EncodeAll(vs)|
  {
    assert vs[..i + 1] == vs[..i] + [vs[i]];
    EncodeAllSnoc(vs[..i], vs[i]);
    assert vs == vs[..i + 1] + vs[i + 1..];
    EncodeAllConcat(vs[..i + 1], vs[i + 1..]);
  }

  lemma LongUint(i: nat)
    requires 128 <= i < SIZE_LIMIT
    ensures Encode(Str(BigEndian(i))) == [0x80 + |BigEndian(i)|] + BigEndian(i)
  {
    SizeBytes(i);
    HeaderForm(0x80, |BigEndian(i)|);
    hide Header;
  }
}
