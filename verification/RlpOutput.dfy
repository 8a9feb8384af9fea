/** The three ways the encoder's output leaves its buffer: into a slice, into a writer, and through a reader. */
module RlpOutput {
  import opened RlpCoding
  import opened RlpBuffer

  /** The buffer's lists are all closed: its contents are what its string data and headers splice to. */
  ghost predicate Complete(buf: EncBuffer)
    reads buf
  {
    && buf.sizebuf.Length == 9 && Ordered(buf.lheads, 0, |buf.str|) && HeadsFit(buf.lheads)
    && buf.lhsize == HeadSizes(buf.lheads)
  }

  ghost function Output(buf: EncBuffer): seq<byte>
    reads buf
    requires Complete(buf)
  {
    Splice(buf.str, buf.lheads, 0)
  }

  lemma OutputSize(buf: EncBuffer)
    requires Complete(buf)
    ensures |Output(buf)| == buf.Size()
  {
    SpliceLength(buf.str, buf.lheads, 0);
  }

  /** The built-in copy, into dst from pos on. */
  method Copy(dst: array<byte>, pos: nat, src: seq<byte>) returns (n: nat)
    requires pos <= dst.Length
    modifies dst
    ensures n == if |src| <= dst.Length - pos then |src| else dst.Length - pos
    ensures Overwritten(old(dst[..]), dst[..], pos, src[..n])
  {
    n := 0;
    while n < |src| && pos + n < dst.Length
      invariant n <= |src| && pos + n <= dst.Length
      invariant forall k :: 0 <= k < dst.Length ==> dst[k] == if pos <= k < pos + n then src[k - pos] else old(dst[k])
    {
      dst[pos + n] := src[n];
      n := n + 1;
    }
  }

  /** What is done, dst[..pos], and what is still to come make up the whole. */
  ghost predicate Copied(dst: seq<byte>, pos: nat, rest: seq<byte>, whole: seq<byte>) {
    pos + |rest| == |whole| && |whole| <= |dst| && dst[..pos] + rest == whole
  }

  lemma CopyStep(d0: seq<byte>, d1: seq<byte>, pos: nat, w: seq<byte>, rest: seq<byte>, whole: seq<byte>)
    requires Copied(d0, pos, w + rest, whole) && Overwritten(d0, d1, pos, w)
    ensures Copied(d1, pos + |w|, rest, whole)
  {
    assert d1[..pos + |w|] == d0[..pos] + w;
    Regroup(d0[..pos], w, rest);
  }

  /** The step at one header: the data before it, the header, the rest. */
  lemma SpliceStep(s: seq<byte>, heads: seq<ListHead>, i: nat, pos: nat)
    requires i < |heads| && Ordered(heads[i..], pos, |s|)
    ensures pos <= heads[i].offset <= |s| && Ordered(heads[i + 1..], heads[i].offset, |s|)
    ensures Splice(s, heads[i..], pos)
         == s[pos..heads[i].offset] + (Head(heads[i]) + Splice(s, heads[i + 1..], heads[i].offset))
  {
    hide Head;
    var tail := heads[i..];
    assert tail[1..] == heads[i + 1..];
    OrderedBelow(tail, pos, |s|);
    Regroup(s[pos..heads[i].offset], Head(heads[i]), Splice(s, heads[i + 1..], heads[i].offset));
  }

  lemma SpliceLast(s: seq<byte>, heads: seq<ListHead>, i: nat, pos: nat)
    requires i == |heads| && Ordered(heads[i..], pos, |s|)
    ensures pos <= |s| && Splice(s, heads[i..], pos) == s[pos..]
  {
  }

  lemma HeaderFits(h: ListHead)
    requires h.size < SIZE_LIMIT
    ensures 1 <= |Head(h)| <= 9
  {
    SizeBytes(h.size);
  }

  /** copyTo: fills dst, which must be long enough, with the output. */
  method CopyTo(buf: EncBuffer, dst: array<byte>)
    requires Complete(buf) && buf.Size() <= dst.Length && dst != buf.sizebuf
    modifies dst
    ensures dst[..buf.Size()] == Output(buf)
  {
    hide Splice, Ordered, Head, HeadSizes, Header, Overwritten;
    OutputSize(buf);
    ghost var whole := Output(buf);
    var strpos, pos: nat := 0, 0;
    var i := 0;
    assert buf.lheads[0..] == buf.lheads;
    assert Copied(dst[..], 0, whole, whole);
    while i < |buf.lheads|
      invariant 0 <= i <= |buf.lheads| && Complete(buf) && Ordered(buf.lheads[i..], strpos, |buf.str|)
      invariant Copied(dst[..], pos, Splice(buf.str, buf.lheads[i..], strpos), whole)
    {
      var head := buf.lheads[i];
      SpliceStep(buf.str, buf.lheads, i, strpos);
      ghost var rest := Splice(buf.str, buf.lheads[i + 1..], head.offset);
      ghost var d0 := dst[..];
      var data := buf.str[strpos..head.offset];
      var n := Copy(dst, pos, data);
      assert data[..n] == data;
      CopyStep(d0, dst[..], pos, data, Head(head) + rest, whole);
      pos := pos + n;
      strpos := strpos + n;
      ghost var d1 := dst[..];
      HeadIs(head);
      n := PutHead(dst, pos, 0xC0, 0xF7, head.size);
      CopyStep(d1, dst[..], pos, Head(head), rest, whole);
      pos := pos + n;
      i := i + 1;
    }
    SpliceLast(buf.str, buf.lheads, i, strpos);
    var data := buf.str[strpos..];
    ghost var d0 := dst[..];
    var n := Copy(dst, pos, data);
    assert data[..n] == data && data + [] == data;
    CopyStep(d0, dst[..], pos, data, [], whole);
    assert whole + [] == whole;
  }

  lemma HeadIs(h: ListHead)
    ensures Head(h) == Header(0xC0, h.size)
  {
  }

  /** makeBytes. */
  method MakeBytes(buf: EncBuffer) returns (out: array<byte>)
    requires Complete(buf)
    ensures fresh(out) && out[..] == Output(buf)
  {
    OutputSize(buf);
    out := new byte[buf.Size()](_ => 0);
    CopyTo(buf, out);
    assert out[..] == out[..buf.Size()];
  }

  /** A destination that may stop accepting bytes at any point. */
  class Writer {
    var out: seq<byte>
    var room: nat

    constructor (room: nat)
      ensures out == [] && this.room == room
    {
      out, this.room := [], room;
    }

    method Write(p: seq<byte>) returns (n: nat, failed: bool)
      modifies this
      ensures n <= |p| && out == old(out) + p[..n] && failed == (n < |p|)
      ensures n == if |p| <= old(room) then |p| else old(room)
      ensures room == old(room) - n
    {
      n := if |p| <= room then |p| else room;
      out := out + p[..n];
      room := room - n;
      failed := n < |p|;
    }
  }

  /** What went out is the beginning of the whole. */
  ghost predicate Sent(before: seq<byte>, after: seq<byte>, whole: seq<byte>) {
    exists k :: 0 <= k <= |whole| && after == before + whole[..k]
  }

  lemma SendStep(before: seq<byte>, mid: seq<byte>, sent: seq<byte>, w: seq<byte>, rest: seq<byte>, n: nat)
    requires mid == before + sent && n <= |w|
    ensures Sent(before, mid + w[..n], sent + (w + rest))
    ensures (mid + w) + rest == before + (sent + (w + rest)) && mid + w == before + (sent + w)
  {
    var k := |sent| + n;
    assert (sent + (w + rest))[..k] == sent + w[..n];
  }

  /**
   * writeTo: the same bytes, piece by piece. If the writer fails, exactly a beginning of them has gone out; if it
   * has room for all of them it does not fail.
   */
  method WriteTo(buf: EncBuffer, w: Writer) returns (failed: bool)
    requires Complete(buf)
    modifies w, buf.sizebuf
    ensures !failed ==> w.out == old(w.out) + Output(buf)
    ensures Sent(old(w.out), w.out, Output(buf))
    ensures failed == (old(w.room) < |Output(buf)|)
  {
    hide Splice, Ordered, Head, HeadSizes, Header, Sent;
    ghost var whole, before, sent := Output(buf), w.out, [];
    var strpos: nat := 0;
    var i := 0;
    assert buf.lheads[0..] == buf.lheads;
    while i < |buf.lheads|
      invariant 0 <= i <= |buf.lheads| && Complete(buf) && Ordered(buf.lheads[i..], strpos, |buf.str|)
      invariant w.out == before + sent && sent + Splice(buf.str, buf.lheads[i..], strpos) == whole
      invariant w.room + |sent| == old(w.room)
    {
      var head := buf.lheads[i];
      SpliceStep(buf.str, buf.lheads, i, strpos);
      ghost var rest := Splice(buf.str, buf.lheads[i + 1..], head.offset);
      var data := buf.str[strpos..head.offset];
      if head.offset - strpos > 0 {
        ghost var mid := w.out;
        var n, err := w.Write(data);
        SendStep(before, mid, sent, data, Head(head) + rest, n);
        strpos := strpos + n;
        if err {
          return true;
        }
        assert data[..n] == data;
      }
      Regroup(sent, data, Head(head) + rest);
      sent := sent + data;
      HeadIs(head);
      HeaderFits(head);
      var size := PutHead(buf.sizebuf, 0, 0xC0, 0xF7, head.size);
      var enc := buf.sizebuf[..size];
      assert enc == Head(head);
      ghost var mid := w.out;
      var n, err := w.Write(enc);
      SendStep(before, mid, sent, enc, rest, n);
      if err {
        return true;
      }
      assert enc[..n] == enc;
      Regroup(sent, enc, rest);
      sent := sent + enc;
      i := i + 1;
    }
    SpliceLast(buf.str, buf.lheads, i, strpos);
    var data := buf.str[strpos..];
    ghost var mid := w.out;
    SendStep(before, mid, sent, data, [], |data|);
    assert data + [] == data && data[..|data|] == data;
    failed := false;
    if strpos < |buf.str| {
      var n;
      n, failed := w.Write(data);
      SendStep(before, mid, sent, data, [], n);
    }
  }

  /** The reader over a finished buffer. An empty piece stands for none: no piece is ever empty. */
  class EncReader {
    var buf: EncBuffer?
    var lhpos: nat
    var strpos: nat
    var piece: seq<byte>

    constructor (buf: EncBuffer)
      requires Complete(buf)
      ensures Valid() && Pending() == Output(buf) && this.buf == buf
    {
      this.buf, lhpos, strpos, piece := buf, 0, 0, [];
      new;
      assert buf.lheads[0..] == buf.lheads;
    }

    ghost predicate Valid()
      reads this, buf
    {
      buf != null ==> Complete(buf) && lhpos <= |buf.lheads| && Ordered(buf.lheads[lhpos..], strpos, |buf.str|)
    }

    /** Everything behind the current piece. */
    ghost function Tail(): seq<byte>
      reads this, buf
      requires Valid()
    {
      if buf == null then [] else Splice(buf.str, buf.lheads[lhpos..], strpos)
    }

    /** Everything not read yet. */
    ghost function Pending(): seq<byte>
      reads this, buf
      requires Valid()
    {
      piece + Tail()
    }

    /** The next piece: what is left of the last one, or the data before the next header, or a header, or the rest. */
    method Next() returns (p: seq<byte>)
      requires Valid() && (buf == null ==> piece == [])
      modifies this`lhpos, this`strpos, if buf == null then {} else {buf.sizebuf}
      ensures Valid() && old(Pending()) == p + Tail()
      ensures p == [] ==> old(Pending()) == []
    {
      hide Splice, Ordered, Head, HeadSizes, Header;
      if buf == null {
        p := [];
      } else if piece != [] {
        p := piece;
      } else if lhpos < |buf.lheads| {
        var head := buf.lheads[lhpos];
        SpliceStep(buf.str, buf.lheads, lhpos, strpos);
        ghost var rest := Splice(buf.str, buf.lheads[lhpos + 1..], head.offset);
        var sizebefore := head.offset - strpos;
        ghost var data := buf.str[strpos..head.offset];
        if sizebefore > 0 {
          p := buf.str[strpos..head.offset];
          strpos := strpos + sizebefore;
          SpliceFrom(buf.str, buf.lheads, lhpos, strpos);
        } else {
          assert data + (Head(head) + rest) == Head(head) + rest;
          lhpos := lhpos + 1;
          HeadIs(head);
          HeaderFits(head);
          var n := PutHead(buf.sizebuf, 0, 0xC0, 0xF7, head.size);
          p := buf.sizebuf[..n];
          assert p == Head(head);
        }
      } else {
        SpliceLast(buf.str, buf.lheads, lhpos, strpos);
        p := [];
        if strpos < |buf.str| {
          p := buf.str[strpos..];
          strpos := |buf.str|;
          OrderedEnd(buf.lheads, lhpos, strpos);
          SpliceLast(buf.str, buf.lheads, lhpos, strpos);
        }
      }
    }

    /** Fills b with what comes next; at the end of the data fills what it can and reports EOF. */
    method Read(b: array<byte>) returns (n: nat, eof: bool)
      requires Valid() && (buf == null ==> piece == []) && (buf != null ==> b != buf.sizebuf)
      modifies this, b, if buf == null then {} else {buf.sizebuf}
      ensures Valid() && (buf == null ==> piece == []) && (buf == null || buf == old(buf))
      ensures n == (if |old(Pending())| <= b.Length then |old(Pending())| else b.Length)
      ensures b[..n] == old(Pending())[..n] && Pending() == old(Pending())[n..]
      ensures eof == (|old(Pending())| <= b.Length)
    {
      hide Splice, Ordered, Head, HeadSizes, HeadsFit, Header, Overwritten;
      ghost var whole := Pending();
      n := 0;
      while true
        invariant Valid() && (buf == null ==> piece == []) && buf == old(buf)
        invariant n <= b.Length && b[..n] + Pending() == whole
        decreases |Pending()|
      {
        piece := Next();
        if piece == [] {
          buf := null;
          return n, true;
        }
        ghost var before, p, tail := b[..], piece, Tail();
        var nn := Copy(b, n, piece);
        ReadStep(before, b[..], n, p, nn, tail, whole);
        n := n + nn;
        if nn < |piece| {
          piece := piece[nn..];
          return n, false;
        }
        piece := [];
      }
    }
  }

  lemma ReadStep(d0: seq<byte>, d1: seq<byte>, n: nat, p: seq<byte>, nn: nat, tail: seq<byte>, whole: seq<byte>)
    requires n <= |d0| && nn <= |p| && Overwritten(d0, d1, n, p[..nn]) && d0[..n] + (p + tail) == whole
    ensures d1[..n + nn] + (p[nn..] + tail) == whole
  {
    assert d1[..n + nn] == d0[..n] + p[..nn];
    Regroup(d0[..n], p[..nn], p[nn..] + tail);
    Regroup(p[..nn], p[nn..], tail);
  }

  /** Moving past the data before a header leaves the header first. */
  lemma SpliceFrom(s: seq<byte>, heads: seq<ListHead>, i: nat, pos: nat)
    requires i < |heads| && pos == heads[i].offset <= |s| && Ordered(heads[i + 1..], pos, |s|)
    ensures Ordered(heads[i..], pos, |s|)
    ensures Splice(s, heads[i..], pos) == Head(heads[i]) + Splice(s, heads[i + 1..], pos)
  {
    hide Head;
    assert heads[i..] == [heads[i]] + heads[i + 1..];
    SpliceHead(s, heads[i], heads[i + 1..]);
  }

  lemma OrderedEnd(heads: seq<ListHead>, i: nat, pos: nat)
    requires i == |heads|
    ensures Ordered(heads[i..], pos, pos)
  {
  }

  /** A buffer holding one encoded value. */
  method EncodeValue(v: Item) returns (buf: EncBuffer)
    requires |Encode(v)| < SIZE_LIMIT
    ensures fresh(buf) && fresh(buf.sizebuf) && Complete(buf) && Output(buf) == Encode(v)
  {
    buf := new EncBuffer();
    ghost var t, h := buf.EncodeItem(v);
    assert buf.str == t && buf.lheads == h;
  }

  /** The encoding as a slice. */
  method EncodeToBytes(v: Item) returns (out: array<byte>)
    requires |Encode(v)| < SIZE_LIMIT
    ensures out[..] == Encode(v)
  {
    var buf := EncodeValue(v);
    out := MakeBytes(buf);
  }

  /** The encoding through a writer, which fails exactly for want of room. */
  method EncodeToWriter(w: Writer, v: Item) returns (failed: bool)
    requires |Encode(v)| < SIZE_LIMIT
    modifies w
    ensures !failed ==> w.out == old(w.out) + Encode(v)
    ensures Sent(old(w.out), w.out, Encode(v))
    ensures failed == (old(w.room) < |Encode(v)|)
  {
    var buf := EncodeValue(v);
    failed := WriteTo(buf, w);
  }

  /** The encoding through a reader, and its size. */
  method EncodeToReader(v: Item) returns (size: nat, r: EncReader)
    requires |Encode(v)| < SIZE_LIMIT
    ensures fresh(r) && r.buf != null && fresh(r.buf) && fresh(r.buf.sizebuf)
    ensures r.Valid() && r.Pending() == Encode(v) && size == |Encode(v)|
  {
    var buf := EncodeValue(v);
    OutputSize(buf);
    size := buf.Size();
    r := new EncReader(buf);
  }

  lemma TakenFrom(out: seq<byte>, pending: seq<byte>, n: nat)
    requires n <= |pending|
    ensures out + pending == (out + pending[..n]) + pending[n..]
  {
    assert pending == pending[..n] + pending[n..];
  }

  function Sum(sizes: seq<nat>): nat {
    if sizes == [] then 0 else Sum(sizes[..|sizes| - 1]) + sizes[|sizes| - 1]
  }

  function Min(a: nat, b: nat): nat { if a <= b then a else b }

  lemma SumStep(sizes: seq<nat>, i: nat)
    requires i < |sizes|
    ensures Sum(sizes[..i + 1]) == Sum(sizes[..i]) + sizes[i]
  {
    assert sizes[..i + 1][..i] == sizes[..i];
  }

  /** Reading with buffers of any sizes: exactly as many of the pending bytes as there are or fit, in order. */
  method ReadAll(r: EncReader, sizes: seq<nat>) returns (out: seq<byte>)
    requires r.Valid() && (r.buf == null ==> r.piece == [])
    modifies r, if r.buf == null then {} else {r.buf.sizebuf}
    ensures r.Valid() && out + r.Pending() == old(r.Pending())
    ensures |out| == Min(Sum(sizes), |old(r.Pending())|)
  {
    hide Splice, Ordered, Head, HeadSizes, HeadsFit, Header, EncReader.Tail, Sum;
    out := [];
    ghost var whole := r.Pending();
    var i := 0;
    assert Sum(sizes[..0]) == 0 by { SumOfNone(sizes[..0]); }
    while i < |sizes|
      invariant 0 <= i <= |sizes| && r.Valid() && (r.buf == null ==> r.piece == [])
      invariant r.buf == null || r.buf == old(r.buf)
      invariant out + r.Pending() == whole && |out| == Min(Sum(sizes[..i]), |whole|)
    {
      var b := new byte[sizes[i]](_ => 0);
      ghost var pending := r.Pending();
      var n, eof := r.Read(b);
      TakenFrom(out, pending, n);
      SumStep(sizes, i);
      out := out + b[..n];
      i := i + 1;
    }
    assert sizes[..i] == sizes;
  }

  lemma SumOfNone(sizes: seq<nat>)
    requires sizes == []
    ensures Sum(sizes) == 0
  {
  }

  /** Buffers with room for the announced size receive the whole encoding, smaller ones a beginning of it. */
  method ReadEncoding(v: Item, sizes: seq<nat>) returns (size: nat, out: seq<byte>)
    requires |Encode(v)| < SIZE_LIMIT
    ensures size == |Encode(v)| && out == Encode(v)[..Min(Sum(sizes), size)]
    ensures Sum(sizes) >= size ==> out == Encode(v)
  {
    hide Encode, Sum;
    var r;
    size, r := EncodeToReader(v);
    out := ReadAll(r, sizes);
    assert out == (out + r.Pending())[..|out|];
    assert Encode(v)[..size] == Encode(v);
  }
}
