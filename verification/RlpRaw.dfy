/** Working on encoded bytes without building values: splitting off and counting them. */
module RlpRaw {
  import opened RlpCoding
  import opened Words
  import opened Options
  import opened RlpStream

  /** The contents of a value: a string's bytes, a list's encoded values. */
  function Contents(v: Item): seq<byte> {
    match v
    case Str(s) => s
    case Items(vs) => EncodeAll(vs)
  }

  /** A size of slen bytes in front of b, at least 56 and without a leading zero. */
  method ReadSize(b: seq<byte>, slen: byte) returns (s: u64, err: Error)
    requires 1 <= slen <= 8
    ensures err == if slen > |b| then UnexpectedEOF
                   else if b[0] == 0 || FromBigEndian(b[..slen]) < 56 then CanonSize
                   else NoError
    ensures err == NoError ==> s == FromBigEndian(b[..slen])
  {
    hide FromBigEndian;
    if slen > |b| {
      return 0, UnexpectedEOF;
    }
    EightBytes(b[..slen]);
    s := FromBigEndian(b[..slen]);
    if s < 56 || b[0] == 0 {
      return 0, CanonSize;
    }
    err := NoError;
  }

  /** What is wrong with the start of a slice, if anything. */
  function RawError(buf: seq<byte>): Error {
    if buf == [] then UnexpectedEOF
    else if buf[0] < 0x80 then NoError
    else
      var n := SizeOfSize(buf[0]);
      if n > |buf| - 1 then UnexpectedEOF
      else if n > 0 && (buf[1] == 0 || FromBigEndian(buf[1..][..n]) < 56) then CanonSize
      else if buf[0] == 0x81 && |buf| > 1 && buf[1] < 0x80 then CanonSize
      else if StatedSize(buf[0], buf[1..]) > |buf| - 1 - n then ValueTooLarge
      else NoError
  }

  // What these functions see of a value: its kind and contents, whatever the contents of a list are.

  datatype Piece = Piece(k: Kind, content: seq<byte>)

  predicate IsPiece(p: Piece) {
    && |p.content| < W && (p.k == Byte ==> |p.content| == 1 && p.content[0] < 0x80)
    && !(p.k == String && |p.content| == 1 && p.content[0] < 0x80)
  }

  function Whole(p: Piece): seq<byte> {
    if p.k == Byte then p.content else Header(Base(p.k), |p.content|) + p.content
  }

  /** Every encoding is a piece with its value's contents. */
  function PieceOf(v: Item): Piece {
    match v
    case Str(s) => Piece(if |s| == 1 && s[0] < 0x80 then Byte else String, s)
    case Items(vs) => Piece(RlpCoding.List, EncodeAll(vs))
  }

  lemma PieceOfItem(v: Item)
    requires |Encode(v)| < W
    ensures IsPiece(PieceOf(v)) && Whole(PieceOf(v)) == Encode(v) && PieceOf(v).content == Contents(v)
  {
    hide Header;
  }

  /** The tag and size bytes at the start of a piece. */
  lemma PieceHead(p: Piece, buf: seq<byte>)
    requires IsPiece(p) && Whole(p) <= buf
    ensures |buf| > 0 && SizeOfSize(buf[0]) < |buf| && (p.k == Byte <==> buf[0] < 0x80)
    ensures SizeOfSize(buf[0]) > 0 ==> buf[1] != 0 && FromBigEndian(buf[1..][..SizeOfSize(buf[0])]) >= 56
  {
    if p.k != Byte {
      var n := |p.content|;
      HeaderTag(p.k, n);
      var h := Header(Base(p.k), n);
      hide Header, BigEndian, FromBigEndian;
      assert h <= buf;
      assert buf[0] == h[0] && buf[1..][..SizeOfSize(buf[0])] == h[1..];
      assert h[1..][..SizeOfSize(buf[0])] == h[1..];
    }
  }

  /** The header found in front of a piece is its own. */
  lemma HeadOfPiece(p: Piece, buf: seq<byte>, k: Kind, h: seq<byte>, size: nat, byteval: byte)
    requires IsPiece(p) && Whole(p) <= buf && h <= buf && IsHead(k, h, size, byteval)
    ensures k == p.k
    ensures k == Byte ==> buf[..1] == p.content && size == 0
    ensures k != Byte ==> size == |p.content| && |h| + size == |Whole(p)| && buf[|h|..|h| + size] == p.content
  {
    hide BigEndian, FromBigEndian;
    if k == Byte || p.k == Byte {
      if k != Byte { HeaderTag(k, size); }
      if p.k != Byte { HeaderTag(p.k, |p.content|); }
      hide Header;
      assert buf[0] == h[0] == Whole(p)[0];
    } else {
      hide Header;
      var after, rest := buf[|Whole(p)|..], buf[|h|..];
      assert buf == h + rest && buf == Whole(p) + after;
      Regroup(Header(Base(p.k), |p.content|), p.content, after);
      HeaderUnique(k, size, rest, p.k, |p.content|, p.content + after);
      assert rest[..size] == p.content;
    }
  }

  /** At most one piece starts a slice. */
  lemma PieceUnique(p: Piece, q: Piece, buf: seq<byte>)
    requires IsPiece(p) && IsPiece(q) && Whole(p) <= buf && Whole(q) <= buf
    ensures p == q
  {
    if q.k == Byte {
      ByteHead(q.content[0]);
      assert q.content == [q.content[0]];
      HeadOfPiece(p, buf, Byte, q.content, 0, q.content[0]);
    } else {
      HeadOfPiece(p, buf, q.k, Header(Base(q.k), |q.content|), |q.content|, 0);
      hide Header;
      assert buf[|Header(Base(q.k), |q.content|)|..][..|q.content|] == q.content;
    }
  }

  /** buf starts with a piece of kind k whose tag and size take tagsize bytes and whose contents take contentsize. */
  ghost predicate StartsWith(buf: seq<byte>, k: Kind, tagsize: nat, contentsize: nat) {
    && tagsize + contentsize <= |buf|
    && var p := Piece(k, buf[tagsize..tagsize + contentsize]); IsPiece(p) && Whole(p) == buf[..tagsize + contentsize]
  }

  /** Kind and sizes of the first value: found exactly when some piece starts the slice, and then that one's. */
  method ReadKind(buf: seq<byte>) returns (k: Kind, tagsize: u64, contentsize: u64, err: Error)
    requires |buf| < 0x8000_0000_0000_0000
    ensures err == RawError(buf)
    ensures err == NoError ==> StartsWith(buf, k, tagsize, contentsize)
    ensures forall p :: IsPiece(p) && Whole(p) <= buf ==>
              err == NoError && tagsize + contentsize == |Whole(p)|
              && p == Piece(k, buf[tagsize..tagsize + contentsize])
  {
    hide IsPiece, Whole;
    ghost var want := if exists p :: IsPiece(p) && Whole(p) <= buf
                      then (var p :| IsPiece(p) && Whole(p) <= buf; Some(p)) else None;
    k, tagsize, contentsize, err := ReadHead(buf, want);
    forall p | IsPiece(p) && Whole(p) <= buf
      ensures err == NoError && tagsize + contentsize == |Whole(p)|
      ensures p == Piece(k, buf[tagsize..tagsize + contentsize])
    {
      PieceUnique(p, want.value, buf);
    }
  }

  lemma RawShort(buf: seq<byte>)
    requires buf != [] && SizeOfSize(buf[0]) == 0
    ensures var k := KindOf(buf[0]); var size := buf[0] - Base(k);
            RawError(buf) == if k == Byte then NoError
                             else if k == String && size == 1 && |buf| > 1 && buf[1] < 128 then CanonSize
                             else if size > |buf| - 1 then ValueTooLarge
                             else NoError
  {
  }

  lemma RawEmpty()
    ensures RawError([]) == UnexpectedEOF
  {
  }

  lemma TagKind(b: byte)
    ensures KindOf(b) == Byte <==> b < 0x80
    ensures b >= 0x80 && SizeOfSize(b) == 0 ==> 0 <= b - Base(KindOf(b)) < 56
  {
  }

  lemma RawLong(buf: seq<byte>)
    requires buf != [] && SizeOfSize(buf[0]) > 0
    ensures var n := SizeOfSize(buf[0]);
            RawError(buf) == if n > |buf[1..]| then UnexpectedEOF
                             else if buf[1..][0] == 0 || FromBigEndian(buf[1..][..n]) < 56 then CanonSize
                             else if FromBigEndian(buf[1..][..n]) > |buf| - 1 - n then ValueTooLarge
                             else NoError
  {
  }

  /** Whether the piece asked about starts the slice. */
  ghost predicate Asked(want: Option<Piece>, buf: seq<byte>) {
    want.Some? && IsPiece(want.value) && Whole(want.value) <= buf
  }

  /** Then tag and size bytes are all there and canonical. */
  lemma AskedHead(want: Option<Piece>, buf: seq<byte>)
    ensures Asked(want, buf) ==> buf != [] && SizeOfSize(buf[0]) < |buf|
    ensures Asked(want, buf) && SizeOfSize(buf[0]) > 0 ==>
              buf[1] != 0 && FromBigEndian(buf[1..][..SizeOfSize(buf[0])]) >= 56
  {
    hide Whole, IsPiece, FromBigEndian;
    if Asked(want, buf) { PieceHead(want.value, buf); }
  }

  /** And the header found is that piece's, which is as long as the header says and no small byte in disguise. */
  lemma AskedPiece(want: Option<Piece>, buf: seq<byte>, k: Kind, h: seq<byte>, size: nat, byteval: byte)
    requires h <= buf && IsHead(k, h, size, byteval)
    ensures Asked(want, buf) && k == Byte ==> want.value == Piece(Byte, buf[..1]) && |Whole(want.value)| == 1
    ensures Asked(want, buf) && k != Byte ==>
              && |h| + size == |Whole(want.value)| <= |buf|
              && want.value == Piece(k, buf[|h|..|h| + size]) && !(k == String && size == 1 && buf[|h|] < 0x80)
  {
    hide IsHead;
    if Asked(want, buf) { HeadOfPiece(want.value, buf, k, h, size, byteval); }
  }

  /** The reading itself, with a piece that may be asked about. */
  method ReadHead(buf: seq<byte>, ghost want: Option<Piece>)
    returns (k: Kind, tagsize: u64, contentsize: u64, err: Error)
    requires |buf| < 0x8000_0000_0000_0000
    ensures err == RawError(buf)
    ensures err == NoError ==> StartsWith(buf, k, tagsize, contentsize)
    ensures Asked(want, buf) ==>
              err == NoError && tagsize + contentsize == |Whole(want.value)|
              && want.value == Piece(k, buf[tagsize..tagsize + contentsize])
  {
    hide FromBigEndian, BigEndian, Header, StartsWith, SizeOfSize, IsHead, Whole, Asked, RawError, KindOf, Base;
    AskedHead(want, buf);
    if |buf| == 0 {
      RawEmpty();
      return Byte, 0, 0, UnexpectedEOF;
    }
    var b := buf[0];
    ghost var h := [b];
    if b < 0x80 {
      ByteHead(b);
      RawShort(buf);
      TagKind(b);
      StartsWithByte(buf);
      AskedPiece(want, buf, Byte, h, 0, b);
      return Byte, 0, 1, NoError;
    }
    k := KindOf(b);
    TagKind(b);
    var sizesize := SizeOfSize(b);
    tagsize := sizesize + 1;
    if sizesize == 0 {
      contentsize := b - Base(k);
      ShortHead(b);
      RawShort(buf);
      AskedPiece(want, buf, k, h, contentsize, 0);
      if k == String && contentsize == 1 && |buf| > 1 && buf[1] < 128 {
        return Byte, 0, 0, CanonSize;
      }
    } else {
      RawLong(buf);
      contentsize, err := ReadSize(buf[1..], sizesize);
      if err != NoError {
        return Byte, 0, 0, err;
      }
      h := LongHead(b, buf, buf[tagsize..], contentsize);
      AskedPiece(want, buf, k, h, contentsize, 0);
    }
    if contentsize > |buf| - tagsize {
      return Byte, 0, 0, ValueTooLarge;
    }
    StartsWithHead(buf, k, h, contentsize);
    err := NoError;
  }

  lemma StartsWithByte(buf: seq<byte>)
    requires |buf| > 0 && buf[0] < 0x80
    ensures StartsWith(buf, Byte, 0, 1) && Whole(Piece(Byte, buf[0..1])) == buf[..1]
  {
  }

  lemma StartsWithHead(buf: seq<byte>, k: Kind, h: seq<byte>, contentsize: nat)
    requires k != Byte && IsHead(k, h, contentsize, 0) && h <= buf && |h| + contentsize <= |buf|
    requires !(k == String && contentsize == 1 && buf[|h|] < 0x80)
    ensures StartsWith(buf, k, |h|, contentsize)
  {
    hide Header;
    assert buf[..|h| + contentsize] == h + buf[|h|..|h| + contentsize];
  }

  /** The contents of the first value, and what follows it; an error exactly when no piece starts the slice. */
  method Split(b: seq<byte>) returns (k: Kind, content: seq<byte>, rest: seq<byte>, err: Error)
    requires |b| < 0x8000_0000_0000_0000
    ensures err == RawError(b) && (err != NoError ==> content == [] && rest == b)
    ensures err == NoError ==> IsPiece(Piece(k, content)) && b == Whole(Piece(k, content)) + rest
    ensures forall p :: IsPiece(p) && Whole(p) <= b ==> err == NoError && p == Piece(k, content)
  {
    hide IsPiece, Whole;
    var ts, cs;
    k, ts, cs, err := ReadKind(b);
    if err != NoError {
      return Byte, [], b, err;
    }
    content, rest := b[ts..ts + cs], b[ts + cs..];
    assert b == b[..ts + cs] + rest;
  }

  ghost predicate ArePieces(ps: seq<Piece>) {
    forall i :: 0 <= i < |ps| ==> IsPiece(ps[i])
  }

  function Joined(ps: seq<Piece>): seq<byte> {
    if ps == [] then [] else Whole(ps[0]) + Joined(ps[1..])
  }

  /**
   * How many values b holds one after another. It is counted exactly when b is a row of pieces, and the count is
   * their number; in particular it is k for the encodings of k values.
   */
  method CountValues(b: seq<byte>) returns (n: nat, err: Error)
    requires |b| < 0x8000_0000_0000_0000
    ensures err == NoError <==> exists ps :: ArePieces(ps) && b == Joined(ps)
    ensures forall ps :: ArePieces(ps) && b == Joined(ps) ==> n == |ps|
    ensures forall vs: seq<Item> :: b == EncodeAll(vs) ==> err == NoError && n == |vs|
  {
    hide ArePieces, Joined, EncodeAll;
    ghost var want := if exists ps :: ArePieces(ps) && b == Joined(ps)
                      then (var ps :| ArePieces(ps) && b == Joined(ps); Some(ps)) else None;
    ghost var found;
    n, err, found := Count(b, want);
    forall ps | ArePieces(ps) && b == Joined(ps) ensures n == |ps| {
      PiecesUnique(ps, want.value);
    }
    forall vs: seq<Item> | b == EncodeAll(vs) ensures err == NoError && n == |vs| {
      PiecesOfItems(vs);
    }
  }

  method Count(b: seq<byte>, ghost want: Option<seq<Piece>>) returns (n: nat, err: Error, ghost found: seq<Piece>)
    requires |b| < 0x8000_0000_0000_0000
    ensures err == NoError ==> ArePieces(found) && b == Joined(found) && n == |found|
    ensures want.Some? && ArePieces(want.value) && b == Joined(want.value) ==> err == NoError && n == |want.value|
  {
    hide Joined, IsPiece, Whole;
    ghost var left := if want.Some? && ArePieces(want.value) && b == Joined(want.value) then want.value else [];
    ghost var wanted := want.Some? && ArePieces(want.value) && b == Joined(want.value);
    n, found := 0, [];
    var rest := b;
    JoinedNone();
    while |rest| > 0
      invariant |rest| <= |b| && ArePieces(found) && b == Joined(found) + rest && n == |found|
      invariant wanted ==> ArePieces(left) && rest == Joined(left) && n + |left| == |want.value|
      decreases |rest|
    {
      ghost var before := rest;
      JoinedStep(left);
      var k, tagsize, size;
      k, tagsize, size, err := ReadKind(rest);
      if err != NoError {
        return 0, err, [];
      }
      ghost var p := Piece(k, rest[tagsize..tagsize + size]);
      PieceNonempty(p);
      rest := rest[tagsize + size..];
      JoinedSnoc(found, p);
      assert before == Whole(p) + rest;
      Regroup(Joined(found), Whole(p), rest);
      found := found + [p];
      left := if left == [] then [] else left[1..];
      n := n + 1;
    }
    JoinedStep(left);
    err := NoError;
    assert Joined(found) + rest == Joined(found);
  }

  lemma PieceNonempty(p: Piece)
    requires IsPiece(p)
    ensures |Whole(p)| > 0
  {
  }

  lemma JoinedNone()
    ensures Joined([]) == []
  {
  }

  lemma JoinedStep(ps: seq<Piece>)
    ensures ps == [] ==> Joined(ps) == []
    ensures ps != [] ==> Whole(ps[0]) <= Joined(ps) && Joined(ps)[|Whole(ps[0])|..] == Joined(ps[1..])
    ensures ps != [] && ArePieces(ps) ==> Joined(ps) != []
  {
    if ps != [] && ArePieces(ps) {
      PieceNonempty(ps[0]);
    }
  }

  lemma {:induction false} JoinedSnoc(ps: seq<Piece>, p: Piece)
    ensures Joined(ps + [p]) == Joined(ps) + Whole(p)
  {
    hide Whole;
    if ps == [] {
      assert Joined([p]) == Whole(p) + Joined([]);
    } else {
      assert (ps + [p])[1..] == ps[1..] + [p];
      JoinedSnoc(ps[1..], p);
      Regroup(Whole(ps[0]), Joined(ps[1..]), Whole(p));
    }
  }

  /** A slice is a row of pieces in at most one way. */
  lemma {:induction false} PiecesUnique(ps: seq<Piece>, qs: seq<Piece>)
    requires ArePieces(ps) && ArePieces(qs) && Joined(ps) == Joined(qs)
    ensures ps == qs
  {
    hide IsPiece, Whole;
    JoinedStep(ps);
    JoinedStep(qs);
    if ps != [] && qs != [] {
      PieceUnique(ps[0], qs[0], Joined(ps));
      PiecesUnique(ps[1..], qs[1..]);
    }
  }

  /** The encodings of values are a row of as many pieces. */
  lemma {:induction false} PiecesOfItems(vs: seq<Item>)
    requires |EncodeAll(vs)| < W
    ensures exists ps :: ArePieces(ps) && Joined(ps) == EncodeAll(vs) && |ps| == |vs|
  {
    hide IsPiece, Whole, Encode;
    if vs == [] {
      assert ArePieces([]) && Joined([]) == [];
    } else {
      PieceOfItem(vs[0]);
      PiecesOfItems(vs[1..]);
      var qs :| ArePieces(qs) && Joined(qs) == EncodeAll(vs[1..]) && |qs| == |vs[1..]|;
      var ps := [PieceOf(vs[0])] + qs;
      assert ps[1..] == qs;
      assert ArePieces(ps) && Joined(ps) == EncodeAll(vs);
    }
  }
}
