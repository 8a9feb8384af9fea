/** The encoding itself: values are trees of byte strings, and each has exactly one encoding. */
module RlpCoding {
  type byte = x: int | 0 <= x < 256

  datatype Item = Str(bytes: seq<byte>) | Items(items: seq<Item>)

  const SIZE_LIMIT: int := 0x1_0000_0000_0000_0000

  /** Big-endian bytes of n, as few as possible; one zero byte for 0. */
  function BigEndian(n: nat): (s: seq<byte>)
    ensures |s| > 0
  {
    if n < 256 then [n] else BigEndian(n / 256) + [n % 256]
  }

  function FromBigEndian(s: seq<byte>): nat {
    if s == [] then 0 else 256 * FromBigEndian(s[..|s| - 1]) + s[|s| - 1]
  }

  lemma FromSnoc(s: seq<byte>, b: byte)
    ensures FromBigEndian(s + [b]) == 256 * FromBigEndian(s) + b
  {
    assert (s + [b])[..|s|] == s;
  }

  lemma {:induction false} BigEndianInverse(n: nat)
    ensures FromBigEndian(BigEndian(n)) == n
    ensures n > 0 ==> BigEndian(n)[0] != 0
  {
    if n < 256 {
      FromSnoc([], n);
      assert [n] == [] + [n];
    } else {
      BigEndianInverse(n / 256);
      FromSnoc(BigEndian(n / 256), n % 256);
    }
  }

  lemma BigEndianSnoc(m: nat, b: byte)
    requires m > 0
    ensures BigEndian(256 * m + b) == BigEndian(m) + [b]
  {
    assert (256 * m + b) / 256 == m;
  }

  /** Bytes without a leading zero are the big-endian form of the number they spell. */
  lemma {:induction false} FromBigEndianInverse(s: seq<byte>)
    requires s != [] && (|s| == 1 || s[0] != 0)
    ensures BigEndian(FromBigEndian(s)) == s
    ensures s[0] != 0 ==> FromBigEndian(s) > 0
  {
    var init, last := s[..|s| - 1], s[|s| - 1];
    assert s == init + [last];
    if |s| > 1 {
      FromSnoc(init, last);
      hide BigEndian, FromBigEndian;
      FromBigEndianInverse(init);
      BigEndianSnoc(FromBigEndian(init), last);
    }
  }

  /** Bytes of an unsigned integer: none for zero. */
  function UintBytes(i: nat): seq<byte> {
    if i == 0 then [] else BigEndian(i)
  }

  function Pow256(k: nat): nat {
    if k == 0 then 1 else 256 * Pow256(k - 1)
  }

  lemma {:induction false} BigEndianLength(n: nat, k: nat)
    requires k > 0
    ensures |BigEndian(n)| <= k <==> n < Pow256(k)
  {
    assert Pow256(1) == 256 * Pow256(0) == 256;
    if k > 1 && n >= 256 {
      BigEndianLength(n / 256, k - 1);
    } else if n >= 256 {
    } else if k > 1 {
      Pow256Grows(k);
    }
  }

  lemma {:induction false} Pow256Grows(k: nat)
    requires k > 0
    ensures Pow256(k) >= 256
  {
    if k > 1 {
      Pow256Grows(k - 1);
    }
  }

  /** A size below 2^64 takes at most eight bytes. */
  lemma SizeBytes(n: nat)
    requires n < SIZE_LIMIT
    ensures 1 <= |BigEndian(n)| <= 8
  {
    assert Pow256(8) == SIZE_LIMIT;
    BigEndianLength(n, 8);
  }

  lemma {:induction false} FromBelow(s: seq<byte>)
    ensures FromBigEndian(s) < Pow256(|s|)
  {
    if s != [] {
      FromBelow(s[..|s| - 1]);
    }
  }

  /** The bytes of an unsigned integer, how many there are, and that they are the ones without a leading zero. */
  lemma UintBytesFacts(n: nat, k: nat)
    ensures FromBigEndian(UintBytes(n)) == n && (UintBytes(n) != [] ==> UintBytes(n)[0] != 0)
    ensures |UintBytes(n)| <= k <==> n < Pow256(k)
    ensures 0 < n < 256 ==> UintBytes(n) == [n]
  {
    BigEndianInverse(n);
    assert Pow256(0) == 1;
    if k > 0 && n > 0 {
      BigEndianLength(n, k);
    } else if k > 0 {
      Pow256Grows(k);
    }
  }

  lemma UintBytesInverse(w: seq<byte>)
    requires w == [] || w[0] != 0
    ensures UintBytes(FromBigEndian(w)) == w
  {
    if w != [] {
      FromBigEndianInverse(w);
    }
  }

  function Tag(x: int): byte { x % 256 }

  /** The header of a string (base 0x80) or list (base 0xC0) whose contents take n bytes. */
  function Header(base: int, n: nat): (h: seq<byte>)
    ensures |h| > 0
  {
    if n < 56 then [Tag(base + n)] else [Tag(base + 55 + |BigEndian(n)|)] + BigEndian(n)
  }

  function Encode(v: Item): seq<byte>
    decreases v, 0
  {
    match v
    case Str(s) => if |s| == 1 && s[0] < 0x80 then s else Header(0x80, |s|) + s
    case Items(vs) => var body := EncodeAll(vs); Header(0xC0, |body|) + body
  }

  function EncodeAll(vs: seq<Item>): seq<byte>
    decreases vs, 1
  {
    if vs == [] then [] else Encode(vs[0]) + EncodeAll(vs[1..])
  }

  lemma EncodeNonempty(v: Item)
    ensures |Encode(v)| > 0
  {
  }

  lemma {:induction false} EncodeAllConcat(vs: seq<Item>, ws: seq<Item>)
    ensures EncodeAll(vs + ws) == EncodeAll(vs) + EncodeAll(ws)
  {
    if vs == [] {
      assert vs + ws == ws;
    } else {
      assert (vs + ws)[1..] == vs[1..] + ws;
      EncodeAllConcat(vs[1..], ws);
    }
  }

  lemma EncodeAllSnoc(vs: seq<Item>, v: Item)
    ensures EncodeAll(vs + [v]) == EncodeAll(vs) + Encode(v)
  {
    EncodeAllConcat(vs, [v]);
    assert EncodeAll([v]) == Encode(v) + EncodeAll([]);
  }

  // Reading a header back.

  datatype Kind = Byte | String | List

  /** The number of bytes of the length of the length, or 0 when the tag itself holds the length. */
  function SizeOfSize(tag: byte): (n: nat)
    ensures n <= 8
  {
    if 0xB8 <= tag < 0xC0 then tag - 0xB7 else if 0xF8 <= tag then tag - 0xF7 else 0
  }

  function KindOf(tag: byte): Kind {
    if tag < 0x80 then Byte else if tag < 0xC0 then String else List
  }

  function Base(k: Kind): int {
    if k == List then 0xC0 else 0x80
  }

  /** The size a header states, given its tag and the bytes after it. */
  function StatedSize(tag: byte, more: seq<byte>): nat
    requires SizeOfSize(tag) <= |more|
  {
    if tag < 0x80 then 0
    else if SizeOfSize(tag) > 0 then FromBigEndian(more[..SizeOfSize(tag)])
    else tag - Base(KindOf(tag))
  }

  /** The tag of a header, and where its size is found again. */
  lemma HeaderTag(k: Kind, n: nat)
    requires k != Byte && n < SIZE_LIMIT
    ensures var h := Header(Base(k), n);
            && KindOf(h[0]) == k && |h| == 1 + SizeOfSize(h[0]) && h[0] >= 0x80 && StatedSize(h[0], h[1..]) == n
            && (SizeOfSize(h[0]) > 0 ==> n >= 56 && h[1] != 0)
  {
    hide BigEndian, FromBigEndian;
    if n >= 56 {
      LongHeaderTag(k, n);
    }
  }

  lemma LongHeaderTag(k: Kind, n: nat)
    requires k != Byte && 56 <= n < SIZE_LIMIT
    ensures var h := Header(Base(k), n);
            && KindOf(h[0]) == k && |h| == 1 + SizeOfSize(h[0]) && h[0] >= 0x80 && StatedSize(h[0], h[1..]) == n
            && SizeOfSize(h[0]) > 0 && h[1] != 0
  {
    SizeBytes(n);
    BigEndianInverse(n);
    hide BigEndian, FromBigEndian, Pow256;
    var size, h := BigEndian(n), Header(Base(k), n);
    var tag := Base(k) + 55 + |size|;
    assert h == [tag] + size;
    hide Header;
    assert h[0] == tag && h[1..] == size && size[..|size|] == size;
    assert KindOf(tag) == k && SizeOfSize(tag) == |size| && h[1] == size[0];
  }

  /** A tag whose size bytes are canonical is the header of its stated size. */
  lemma TagHeader(tag: byte, size: seq<byte>, n: nat)
    requires tag >= 0x80 && |size| == SizeOfSize(tag) && n == StatedSize(tag, size)
    requires SizeOfSize(tag) > 0 ==> n >= 56 && (size[0] != 0 || |size| == 1)
    ensures [tag] + size == Header(Base(KindOf(tag)), n) && n < SIZE_LIMIT
  {
    if SizeOfSize(tag) > 0 {
      assert size[..SizeOfSize(tag)] == size;
      FromBigEndianInverse(size);
      FromBelow(size);
      assert Pow256(8) == SIZE_LIMIT;
      BigEndianLength(n, 8);
    }
  }

  /** Two headers at the start of the same bytes state the same kind and size. */
  lemma HeaderUnique(k: Kind, n: nat, x: seq<byte>, k': Kind, n': nat, x': seq<byte>)
    requires k != Byte && k' != Byte && n < SIZE_LIMIT && n' < SIZE_LIMIT
    requires Header(Base(k), n) + x == Header(Base(k'), n') + x'
    ensures k == k' && n == n' && x == x'
  {
    var h, h' := Header(Base(k), n), Header(Base(k'), n');
    HeaderTag(k, n);
    HeaderTag(k', n');
    hide Header, StatedSize;
    assert h[0] == (h + x)[0] == h'[0];
    assert h == (h + x)[..|h|] == h';
    assert x == (h + x)[|h|..] == x';
  }

  /** What follows a header, and that it is bounded by the whole. */
  lemma EncodeForm(v: Item) returns (k: Kind, body: seq<byte>)
    ensures v.Str? && |v.bytes| == 1 && v.bytes[0] < 0x80 ==> k == Byte && Encode(v) == body == v.bytes
    ensures v.Str? && !(|v.bytes| == 1 && v.bytes[0] < 0x80) ==> k == String && body == v.bytes
    ensures v.Items? ==> k == List && body == EncodeAll(v.items)
    ensures k != Byte ==> Encode(v) == Header(Base(k), |body|) + body
    ensures |body| <= |Encode(v)|
  {
    match v
    case Str(s) => k, body := if |s| == 1 && s[0] < 0x80 then Byte else String, s;
    case Items(vs) => k, body := List, EncodeAll(vs);
  }

  /** No encoding is a proper prefix of another, and none is shared: the first value of a byte string is unique. */
  lemma {:induction false} PrefixFree(v: Item, x: seq<byte>, w: Item, y: seq<byte>)
    requires Encode(v) + x == Encode(w) + y && |Encode(v)| < SIZE_LIMIT && |Encode(w)| < SIZE_LIMIT
    ensures v == w && x == y
    decreases v, 0
  {
    var k, body := EncodeForm(v);
    var k', body' := EncodeForm(w);
    hide BigEndian, FromBigEndian, Header, StatedSize, Encode, EncodeAll, SizeOfSize;
    var whole := Encode(v) + x;
    assert whole[0] == Encode(v)[0] == Encode(w)[0];
    if k == Byte || k' == Byte {
      if k != Byte { HeaderTag(k, |body|); }
      if k' != Byte { HeaderTag(k', |body'|); }
      assert x == whole[1..] == y;
    } else {
      var h, h' := Header(Base(k), |body|), Header(Base(k'), |body'|);
      Regroup(h, body, x);
      Regroup(h', body', y);
      HeaderUnique(k, |body|, body + x, k', |body'|, body' + y);
      assert body == (body + x)[..|body|] == body';
      assert x == (body + x)[|body|..] == y;
      if k == List {
        AllInjective(v.items, w.items);
      }
    }
  }

  lemma {:induction false} AllInjective(vs: seq<Item>, ws: seq<Item>)
    requires EncodeAll(vs) == EncodeAll(ws) && |EncodeAll(vs)| < SIZE_LIMIT
    ensures vs == ws
    decreases vs, 1
  {
    if vs == [] || ws == [] {
      if vs != [] { EncodeNonempty(vs[0]); }
      if ws != [] { EncodeNonempty(ws[0]); }
    } else {
      PrefixFree(vs[0], EncodeAll(vs[1..]), ws[0], EncodeAll(ws[1..]));
      AllInjective(vs[1..], ws[1..]);
    }
  }

  lemma Regroup<T>(a: seq<T>, b: seq<T>, c: seq<T>)
    ensures (a + b) + c == a + (b + c)
  {
  }

  /** Distinct values have distinct encodings. */
  lemma EncodeInjective(v: Item, w: Item)
    requires Encode(v) == Encode(w) && |Encode(v)| < SIZE_LIMIT
    ensures v == w
  {
    PrefixFree(v, [], w, []);
  }

  // The encoding in the words of its definition.

  /** h is the tag base + n for a size below 56, and otherwise base + 55 + k and the size in k bytes, as few as do. */
  ghost predicate SizeForm(base: int, n: nat, h: seq<byte>) {
    if n < 56 then h == [base + n]
    else
      && 2 <= |h| <= 9 && h[0] == base + 55 + |h[1..]|
      && h[1] != 0 && FromBigEndian(h[1..]) == n
  }

  lemma HeaderSizeForm(k: Kind, n: nat)
    requires k != Byte && n < SIZE_LIMIT
    ensures SizeForm(Base(k), n, Header(Base(k), n))
  {
    if n >= 56 {
      SizeBytes(n);
      BigEndianInverse(n);
      hide BigEndian, FromBigEndian;
      assert Header(Base(k), n)[1..] == BigEndian(n);
    }
  }

  /** A byte below 128 stands for itself; any other string has its size in front. */
  lemma StringForm(s: seq<byte>)
    requires |s| < SIZE_LIMIT
    ensures if |s| == 1 && s[0] < 0x80 then Encode(Str(s)) == s
            else exists h :: SizeForm(0x80, |s|, h) && Encode(Str(s)) == h + s
  {
    HeaderSizeForm(String, |s|);
    hide Header, SizeForm;
    assert !(|s| == 1 && s[0] < 0x80) ==> Encode(Str(s)) == Header(0x80, |s|) + s;
  }

  /** A list has the size of its encoded values in front, which follow one after another. */
  lemma ListForm(vs: seq<Item>)
    requires |EncodeAll(vs)| < SIZE_LIMIT
    ensures EncodeAll(vs) == if vs == [] then [] else Encode(vs[0]) + EncodeAll(vs[1..])
    ensures exists h :: SizeForm(0xC0, |EncodeAll(vs)|, h) && Encode(Items(vs)) == h + EncodeAll(vs)
  {
    HeaderSizeForm(List, |EncodeAll(vs)|);
    hide Header, SizeForm;
    assert Encode(Items(vs)) == Header(0xC0, |EncodeAll(vs)|) + EncodeAll(vs);
  }

  /** The most significant byte comes first. */
  lemma {:induction false} BigEndianForm(s: seq<byte>)
    requires s != []
    ensures FromBigEndian(s) == s[0] * Pow256(|s| - 1) + FromBigEndian(s[1..])
  {
    var init, last := s[..|s| - 1], s[|s| - 1];
    if |s| == 1 {
      assert init == [] == s[1..];
      assert FromBigEndian(s) == last && s[0] * Pow256(0) == last;
    } else {
      BigEndianForm(init);
      assert s[1..] == init[1..] + [last];
      FromSnoc(init[1..], last);
      assert s == init + [last];
      FromSnoc(init, last);
      hide FromBigEndian;
      TimesPow256(s[0], |s| - 1);
    }
  }

  lemma TimesPow256(x: int, n: nat)
    requires n > 0
    ensures x * Pow256(n) == 256 * (x * Pow256(n - 1))
  {
    var p := Pow256(n - 1);
    assert Pow256(n) == 256 * p;
    hide Pow256;
    assert x * (256 * p) == 256 * (x * p);
  }
}
