/**
 * The decoder: a stream over a byte slice with a stack of the bytes left in each open list. Sizes are 64-bit and
 * the subtraction that charges an inner list to the outer one may wrap; it is modelled that way.
 */
module RlpStream {
  import opened RlpCoding
  import opened Words
  import opened Options

  datatype Error =
    | NoError | EOL | EndOfInput | UnexpectedEOF | ExpectedString | ExpectedList | CanonInt | CanonSize
    | ElemTooLarge | ValueTooLarge | MoreThanOneValue | NotInList | NotAtEOL | UintOverflow

  /** The kind of the value ahead, once its header has been read. */
  datatype KindAhead = Rearmed | Ahead(k: Kind)

  /** 64-bit subtraction. */
  function Minus(a: u64, n: nat): u64 {
    (a - n) % 0x1_0000_0000_0000_0000
  }

  lemma MinusWithin(a: u64, n: nat)
    requires n <= a
    ensures Minus(a, n) == a - n
  {
  }

  lemma MinusMinus(a: u64, m: nat, n: nat)
    ensures Minus(Minus(a, m), n) == Minus(a, m + n)
  {
  }

  /** Within the given input no reading brings this frame to zero. */
  ghost predicate NeverCloses(frame: u64, input: seq<byte>) {
    forall n: nat :: n <= |input| ==> Minus(frame, n) > 0
  }

  /**
   * A list that fits its frame only when its header is not counted makes the charged frame wrap. The header has at
   * most nine bytes, so what the frame then claims is left exceeds any input.
   */
  lemma WrappedNeverCloses(frame: u64, h: nat, size: u64, input: seq<byte>)
    requires h <= 9 && size <= frame < h + size && |input| < 0x8000_0000_0000_0000
    ensures NeverCloses(Minus(frame, h + size), input)
  {
    var left := Minus(frame, h + size);
    assert left == frame - (h + size) + W;
    forall n: nat | n <= |input| ensures Minus(left, n) > 0 {
      MinusWithin(left, n);
    }
  }

  /** A frame reaches zero within a slice's length only by being used up exactly. */
  lemma ClosesExactly(size: u64, n: nat)
    requires Minus(size, n) == 0 && n < W
    ensures size == n
  {
  }

  /** The frames after n bytes of the innermost list. */
  function Charge(stack: seq<u64>, n: nat): (r: seq<u64>)
    ensures |r| == |stack|
  {
    if stack == [] then [] else stack[..|stack| - 1] + [Minus(stack[|stack| - 1], n)]
  }

  lemma ChargeCharge(stack: seq<u64>, m: nat, n: nat)
    ensures Charge(Charge(stack, m), n) == Charge(stack, m + n)
  {
    if stack != [] {
      MinusMinus(stack[|stack| - 1], m, n);
    }
  }

  /** The innermost list, if any, has n bytes left. */
  predicate Room(stack: seq<u64>, n: nat) {
    stack == [] || n <= stack[|stack| - 1]
  }

  /** What reading n bytes of an input reports: the list is too short, or the input is, whose length may be known. */
  function ReadError(stack: seq<u64>, n: nat, available: nat, limited: bool): Error {
    if !Room(stack, n) then ElemTooLarge
    else if n > available then (if limited then ValueTooLarge else UnexpectedEOF)
    else NoError
  }

  /** What reading a header reports: no input, too little of it, or a size that is not in its shortest form. */
  function HeaderError(x: seq<byte>, stack: seq<u64>, limited: bool): (r: Error)
    ensures r == EndOfInput <==> x == [] && stack == []
    ensures r != MoreThanOneValue && r != EOL
  {
    if x == [] then (if stack == [] then EndOfInput else ReadError(stack, 1, 0, limited))
    else
      var n := SizeOfSize(x[0]);
      var e := ReadError(stack, 1 + n, |x|, limited);
      if e == NoError && n > 0 && (x[1] == 0 || FromBigEndian(x[1..][..n]) < 56) then CanonSize else e
  }

  /** What looking at the value ahead reports, from the tag and size bytes at the start of the input. */
  function KindError(x: seq<byte>, stack: seq<u64>, limited: bool): (r: Error)
    ensures r == EndOfInput <==> x == [] && stack == []
    ensures r != MoreThanOneValue
  {
    var e := HeaderError(x, stack, limited);
    if AtEnd(stack) then EOL
    else if e != NoError then e
    else
      var size := StatedSize(x[0], x[1..]);
      if stack != [] && size > stack[|stack| - 1] then ElemTooLarge
      else if 1 + SizeOfSize(x[0]) + size > |x| then ValueTooLarge
      else NoError
  }

  /** What reading a string reports. */
  function BytesError(x: seq<byte>, stack: seq<u64>, limited: bool): (r: Error)
    ensures r == EndOfInput <==> x == [] && stack == []
    ensures r != MoreThanOneValue
  {
    var e := KindError(x, stack, limited);
    if e != NoError || KindOf(x[0]) == Byte then e
    else if KindOf(x[0]) == RlpCoding.List then ExpectedString
    else if !Room(stack, 1 + SizeOfSize(x[0]) + StatedSize(x[0], x[1..])) then ElemTooLarge
    else if StatedSize(x[0], x[1..]) == 1 && x[1] < 0x80 then CanonSize
    else NoError
  }

  /** What entering a list reports. */
  function ListError(x: seq<byte>, stack: seq<u64>, limited: bool): (r: Error)
    ensures r == EndOfInput <==> x == [] && stack == []
    ensures r != MoreThanOneValue
  {
    var e := KindError(x, stack, limited);
    if e == NoError && KindOf(x[0]) != RlpCoding.List then ExpectedList else e
  }

  /** What reading an integer of at most m bytes reports. */
  function UintError(x: seq<byte>, stack: seq<u64>, limited: bool, m: nat): Error {
    var e := KindError(x, stack, limited);
    if e != NoError then e
    else if KindOf(x[0]) == Byte then (if x[0] == 0 then CanonInt else NoError)
    else if KindOf(x[0]) == RlpCoding.List then ExpectedString
    else
      var n, size := SizeOfSize(x[0]), StatedSize(x[0], x[1..]);
      if size > m then UintOverflow
      else if !Room(stack, 1 + n + size) then ElemTooLarge
      else if size >= 2 && x[1 + n] == 0 then CanonInt
      else if size == 1 && x[1 + n] < 0x80 then CanonSize
      else NoError
  }

  predicate AtEnd(stack: seq<u64>) {
    stack != [] && stack[|stack| - 1] == 0
  }

  /** h is the header of a value of kind k with `size` bytes to come. */
  ghost predicate IsHead(k: Kind, h: seq<byte>, size: nat, byteval: byte) {
    && size < SIZE_LIMIT
    && if k == Byte then h == [byteval] && byteval < 0x80 && size == 0 else h == Header(Base(k), size)
  }

  /** The input starts with the encoding of the value asked about, and the innermost list has room for it. */
  ghost predicate Wanted(want: Option<Item>, x: seq<byte>, frames: seq<u64>) {
    && want.Some? && Encode(want.value) <= x && |Encode(want.value)| < W
    && Room(frames, |Encode(want.value)|)
  }

  /**
   * The frame around a list just entered: the list's size was at most what was left before its header. If header
   * and size fit together the rest is left; if not, the frame has wrapped and cannot be closed any more.
   */
  ghost predicate ChargedOuter(before: u64, h: nat, size: nat, after: u64, input: seq<byte>) {
    && h <= 9 && size <= before
    && if h + size <= before then after == before - (h + size) else NeverCloses(after, input)
  }

  lemma ChargeOuter(before: u64, h: nat, size: u64, input: seq<byte>)
    requires h <= 9 && size <= before && |input| < 0x8000_0000_0000_0000
    ensures ChargedOuter(before, h, size, Minus(before, h + size), input)
  {
    if h + size <= before {
      MinusWithin(before, h + size);
    } else {
      WrappedNeverCloses(before, h, size, input);
    }
  }

  /** Charging an inner list and pushing its frame. */
  lemma FramePushed(st: seq<u64>, mid: seq<u64>, after: seq<u64>, h: nat, size: u64, input: seq<byte>)
    requires h <= 9 && Room(st, size) && |input| < 0x8000_0000_0000_0000 && mid == Charge(st, h)
    requires after == (if mid == [] then [] else mid[|mid| - 1 := Minus(mid[|mid| - 1], size)]) + [size]
    ensures after == Charge(st, h + size) + [size]
    ensures st != [] ==> |after| >= 2 && ChargedOuter(st[|st| - 1], h, size, after[|after| - 2], input)
  {
    ChargeCharge(st, h, size);
    if st != [] {
      ChargeOuter(st[|st| - 1], h, size, input);
    }
    hide ChargedOuter, Minus;
  }

  /** The header and size found are those of the value asked about, and what follows is its contents. */
  ghost predicate BelongsTo(v: Item, k: Kind, h: seq<byte>, size: nat, rest: seq<byte>, stack: seq<u64>) {
    && |h| + size == |Encode(v)| && size <= |rest| && Room(stack, size)
    && match v
       case Items(vs) => k == List && EncodeAll(vs) == rest[..size] && size == |EncodeAll(vs)|
       case Str(b) => if k == Byte then b == h else k == String && b == rest[..size] && !(size == 1 && b[0] < 0x80)
  }

  ghost predicate WantedUint(want: Option<nat>, x: seq<byte>, frames: seq<u64>) {
    want.Some? && Wanted(Some(Str(UintBytes(want.value))), x, frames)
  }

  class Stream {
    var input: seq<byte>
    var remaining: u64
    var size: u64
    var kinderr: Error
    var stack: seq<u64>
    var kind: KindAhead
    var byteval: byte
    var limited: bool
    /** The header of the value ahead, while it has been read but its value has not. */
    ghost var head: seq<byte>

    /** A fresh stream over a slice; the length of a nonempty slice is the input limit. */
    constructor (b: seq<byte>)
      requires |b| < 0x8000_0000_0000_0000
      ensures Valid() && Pending() == b && Frames() == []
    {
      input, remaining, size, kinderr, stack := b, |b|, 0, NoError, [];
      kind, byteval, limited, head := Rearmed, 0, |b| > 0, [];
    }

    ghost predicate Limits()
      reads this
    {
      |input| < 0x8000_0000_0000_0000 && if limited then remaining == |input| else input == []
    }

    ghost predicate Valid()
      reads this
    {
      && Limits()
      && match kind
         case Rearmed => head == []
         case Ahead(k) =>
           && kinderr == NoError && IsHead(k, head, size, byteval) && size <= |input| && |head| <= 9
           && (stack != [] ==> stack[|stack| - 1] + |head| < W && size <= stack[|stack| - 1] + |head|)
    }

    /** The input from the start of the next value on. */
    ghost function Pending(): seq<byte>
      reads this
    {
      head + input
    }

    /** The frames as they are at the start of the next value. */
    ghost function Frames(): seq<u64>
      reads this
      requires Valid()
    {
      if stack == [] then [] else stack[..|stack| - 1] + [stack[|stack| - 1] + |head|]
    }

    method WillRead(n: u64) returns (err: Error)
      modifies this`kind, this`stack, this`remaining
      ensures kind == Rearmed
      ensures err == NoError <==> Room(old(stack), n) && (limited ==> n <= old(remaining))
      ensures |stack| == |old(stack)|
      ensures !Room(old(stack), n) ==> err == ElemTooLarge
      ensures Room(old(stack), n) && limited && n > old(remaining) ==> err == ValueTooLarge
      ensures err == NoError ==> stack == Charge(old(stack), n)
      ensures err == NoError ==> remaining == if limited then old(remaining) - n else old(remaining)
    {
      err := NoError;
      kind := Rearmed;
      if |stack| > 0 {
        var limit := stack[|stack| - 1];
        if n > limit {
          return ElemTooLarge;
        }
        MinusWithin(limit, n);
        stack := stack[|stack| - 1 := limit - n];
      }
      if limited {
        if n > remaining {
          return ValueTooLarge;
        }
        remaining := remaining - n;
      }
    }

    method ReadByte() returns (b: byte, err: Error)
      requires Limits()
      modifies this`kind, this`stack, this`remaining, this`input
      ensures kind == Rearmed && err == ReadError(old(stack), 1, |old(input)|, limited) && |stack| == |old(stack)|
      ensures err == NoError ==> Limits() && old(input) == [b] + input && stack == Charge(old(stack), 1)
    {
      b := 0;
      err := WillRead(1);
      if err == NoError {
        if |input| == 0 {
          return 0, UnexpectedEOF;
        }
        b, input := input[0], input[1..];
      }
    }

    /** One read of the underlying slice reader. */
    method SliceRead(want: nat) returns (p: seq<byte>, eof: bool)
      modifies this`input
      ensures eof == (old(input) == []) && old(input) == p + input
      ensures |p| == if want <= |old(input)| then want else |old(input)|
    {
      eof := |input| == 0;
      var n := if want <= |input| then want else |input|;
      p, input := input[..n], input[n..];
    }

    method ReadFull(n: u64) returns (buf: seq<byte>, err: Error)
      requires Limits()
      modifies this`kind, this`stack, this`remaining, this`input
      ensures kind == Rearmed && err == ReadError(old(stack), n, |old(input)|, limited)
      ensures err == NoError ==> Limits() && |buf| == n && old(input) == buf + input && stack == Charge(old(stack), n)
    {
      buf := [];
      err := WillRead(n);
      if err != NoError {
        return;
      }
      var eof := false;
      while |buf| < n && !eof
        invariant |buf| <= n && old(input) == buf + input
        invariant eof ==> |input| == 0 && |buf| < n
        invariant limited ==> n - |buf| <= |input|
        modifies this`input
        decreases n - |buf|, if eof then 0 else 1
      {
        ghost var before := input;
        var p;
        p, eof := SliceRead(n - |buf|);
        Regroup(buf, p, input);
        buf := buf + p;
      }
      if eof {
        err := UnexpectedEOF;
      }
    }

    /** A big-endian number of `size` bytes, without leading zeros when there are several. */
    method ReadUint(size: byte) returns (v: u64, err: Error)
      requires Limits() && size <= 8
      modifies this`kind, this`stack, this`remaining, this`input
      ensures kind == Rearmed
      ensures var e := ReadError(old(stack), size, |old(input)|, limited);
              err == if e == NoError && size >= 2 && old(input)[0] == 0 then CanonSize else e
      ensures err == NoError ==>
              Limits() && old(input) == old(input)[..size] + input && stack == Charge(old(stack), size)
              && v == FromBigEndian(old(input)[..size])
    {
      v := 0;
      if size == 0 {
        kind := Rearmed;
        err := NoError;
        ChargeNothing(stack);
      } else if size == 1 {
        v, err := ReadByte();
        if err == NoError {
          OneByte(v);
          assert old(input)[..1] == [v];
        }
      } else {
        var buffer;
        buffer, err := ReadFull(size);
        if err != NoError {
          return;
        }
        assert buffer == old(input)[..size];
        if buffer[0] == 0 {
          return 0, CanonSize;
        }
        EightBytes(buffer);
        v := FromBigEndian(buffer);
      }
    }

    /** The kind and size of the next value, from its tag. */
    method ReadKind(ghost want: Option<Item>) returns (k: Kind, size: u64, err: Error, ghost h: seq<byte>)
      requires Limits()
      modifies this`kind, this`stack, this`remaining, this`input, this`byteval
      ensures kind == Rearmed && err == HeaderError(old(input), old(stack), limited)
      ensures err == NoError ==>
              Limits() && |h| <= 9 && old(input) == h + input
              && Room(old(stack), |h|) && stack == Charge(old(stack), |h|)
              && IsHead(k, h, size, byteval)
      ensures Wanted(want, old(input), old(stack)) ==> err == NoError
    {
      hide FromBigEndian, BigEndian, Header, Encode, EncodeAll, Charge, Minus, IsHead, SizeOfSize;
      ghost var x, st := input, stack;
      h := [];
      if Wanted(want, x, st) {
        HeadOfWanted(want.value, x);
      }
      var b;
      b, err := ReadByte();
      if err != NoError {
        if |stack| == 0 {
          if err == UnexpectedEOF || err == ValueTooLarge {
            err := EndOfInput;
          }
        }
        return Byte, 0, err, [];
      }
      byteval := 0;
      if b < 0x80 {
        byteval := b;
        k, size, h := Byte, 0, [b];
        ByteHead(b);
        return;
      }
      k := KindOf(b);
      var sizesize := SizeOfSize(b);
      if sizesize == 0 {
        ShortHead(b);
        size, h := b - Base(k), [b];
      } else {
        ChargeRoom(st, stack, 1, sizesize);
        ChargeCharge(st, 1, sizesize);
        assert x[1..] == input;
        size, err, h := ReadLongSize(b);
      }
    }

    /** The size bytes behind a tag that announces them. */
    method ReadLongSize(b: byte) returns (size: u64, err: Error, ghost h: seq<byte>)
      requires Limits() && SizeOfSize(b) > 0
      modifies this`kind, this`stack, this`remaining, this`input
      ensures kind == Rearmed
      ensures var n, e := SizeOfSize(b), ReadError(old(stack), SizeOfSize(b), |old(input)|, limited);
              err == if e == NoError && (old(input)[0] == 0 || FromBigEndian(old(input)[..n]) < 56) then CanonSize
                     else e
      ensures err == NoError ==>
              Limits() && |h| == 1 + SizeOfSize(b) && [b] + old(input) == h + input && IsHead(KindOf(b), h, size, 0)
              && Room(old(stack), SizeOfSize(b)) && stack == Charge(old(stack), SizeOfSize(b))
      ensures (Room(old(stack), SizeOfSize(b)) && SizeOfSize(b) <= |old(input)| && old(input)[0] != 0
               && FromBigEndian(old(input)[..SizeOfSize(b)]) >= 56) ==> err == NoError
    {
      hide FromBigEndian, Header, Charge, IsHead;
      ghost var y := input;
      h := [];
      LeadingZero(y, SizeOfSize(b));
      size, err := ReadUint(SizeOfSize(b));
      if err == NoError && size < 56 {
        err := CanonSize;
      }
      if err == NoError {
        ghost var x := [b] + y;
        assert x[1..] == y;
        assert input == y[SizeOfSize(b)..];
        h := LongHead(b, x, input, size);
      }
    }

    /** The kind and size of the next value; its header is read once and then remembered. */
    method Kind(ghost want: Option<Item>) returns (k: Kind, sz: u64, err: Error)
      requires Valid()
      modifies this
      ensures err == KindError(old(Pending()), old(Frames()), old(limited)) && limited == old(limited)
      ensures err == EOL <==> AtEnd(old(Frames()))
      ensures err == EOL ==> Valid() && kind == Rearmed && input == old(Pending()) && stack == old(Frames())
      ensures err == NoError ==>
              Valid() && kind == Ahead(k) && sz == size && Pending() == old(Pending()) && Frames() == old(Frames())
      ensures Wanted(want, old(Pending()), old(Frames())) ==> err == NoError
    {
      hide Encode, EncodeAll, Header, Minus, IsHead, Charge, KindError;
      match kind {
        case Ahead(known) =>
          HeadNonempty(known, head, size, byteval);
          KnownHead(Pending(), Frames(), limited, known, head, size, byteval, input);
          return known, size, kinderr;
        case Rearmed =>
          assert Pending() == input && Frames() == stack;
          k, sz, err := ReadAhead(want);
      }
    }

    /** The same when no header is remembered: the end of the list, or the header of what comes next. */
    method ReadAhead(ghost want: Option<Item>) returns (k: Kind, sz: u64, err: Error)
      requires Valid() && kind == Rearmed
      modifies this
      ensures err == KindError(old(input), old(stack), old(limited)) && limited == old(limited)
      ensures err == EOL <==> AtEnd(old(stack))
      ensures err == EOL ==> Valid() && kind == Rearmed && input == old(input) && stack == old(stack)
      ensures err == NoError ==>
              Valid() && kind == Ahead(k) && sz == size && Pending() == old(input) && Frames() == old(stack)
      ensures Wanted(want, old(input), old(stack)) ==> err == NoError
    {
      hide Encode, EncodeAll, Header, Minus, IsHead, Charge, HeaderError, KindError, Wanted, Room, SizeOfSize,
           StatedSize, FromBigEndian, BigEndian, KindOf, ReadError;
      ghost var x, st := input, stack;
      NotWantedAtEnd(want, x, st);
      if HeaderError(x, st, limited) != NoError || AtEnd(st) { NoHead(x, st, limited); }
      var inList := |stack| > 0;
      var listLimit: u64 := if inList then stack[|stack| - 1] else 0;
      if inList && listLimit == 0 {
        return Byte, 0, EOL;
      }
      ghost var h;
      k, sz, err, h := ReadKind(want);
      if err == NoError {
        HeadNonempty(k, h, sz, byteval);
        KnownHead(x, st, limited, k, h, sz, byteval, input);
        FramesBack(st, stack, |h|);
        WantedFits(want, x, st, k, h, sz, byteval, input);
        if inList && sz > listLimit {
          err := ElemTooLarge;
        } else if limited && sz > remaining {
          err := ValueTooLarge;
        }
      }
      kind, size, kinderr, head := Ahead(k), sz, err, h;
    }

    /** Kind, with the header it remembers handed over to the caller, who goes on to read or enter the value. */
    method TakeHead(ghost want: Option<Item>) returns (k: Kind, sz: u64, err: Error, ghost h: seq<byte>)
      requires Valid()
      modifies this
      ensures err == KindError(old(Pending()), old(Frames()), old(limited)) && limited == old(limited)
      ensures err == EOL <==> AtEnd(old(Frames()))
      ensures err == EOL ==> Valid() && kind == Rearmed && input == old(Pending()) && stack == old(Frames())
      ensures err == NoError ==>
              Limits() && head == [] && old(Pending()) == h + input
              && stack == Charge(old(Frames()), |h|) && sz <= |input|
              && IsHead(k, h, sz, byteval) && |h| <= 9 && Room(old(Frames()), |h|) && Room(old(Frames()), sz)
      ensures Wanted(want, old(Pending()), old(Frames())) ==>
              err == NoError && BelongsTo(want.value, k, h, sz, input, stack)
    {
      hide Encode, EncodeAll, Header, Minus, Charge, IsHead;
      ghost var x, st := Pending(), Frames();
      h := [];
      k, sz, err := Kind(want);
      if err == NoError {
        h := head;
        Uncharge(st, stack, |h|);
        if Wanted(want, x, st) {
          SizeOfWanted(want.value, k, h, sz, byteval, input);
          RoomLeft(st, stack, |h|, sz);
        }
        head := [];
      }
    }

    /** Reads a string. */
    method Bytes(ghost want: Option<Item>) returns (b: seq<byte>, err: Error)
      requires Valid()
      modifies this
      ensures err == BytesError(old(Pending()), old(Frames()), old(limited))
      ensures err == EOL <==> AtEnd(old(Frames()))
      ensures err == EOL ==> Valid() && kind == Rearmed && input == old(Pending()) && stack == old(Frames())
      ensures err == NoError ==>
              Valid() && kind == Rearmed && old(Pending()) == Encode(Str(b)) + input
              && stack == Charge(old(Frames()), |Encode(Str(b))|)
      ensures Wanted(want, old(Pending()), old(Frames())) && want.value.Str? ==> err == NoError
    {
      hide Encode, EncodeAll, Header, Minus, Charge, IsHead, KindError, BytesError, Room, AtEnd, Wanted;
      ghost var x, st, limit := Pending(), Frames(), limited;
      b := [];
      var k, sz;
      ghost var h;
      k, sz, err, h := TakeHead(want);
      if err != NoError {
        BytesFails(x, st, limit);
        return;
      }
      HeadForm(k, h, sz, byteval);
      KnownBytes(x, st, limit, k, h, sz, byteval, input);
      ChargeRoom(st, stack, |h|, sz);
      if k == Byte {
        kind := Rearmed;
        SingleByte(byteval);
        b := [byteval];
      } else if k == String {
        b, err := ReadFull(sz);
        if err != NoError {
          return;
        }
        if sz == 1 && b[0] < 128 {
          return [], CanonSize;
        }
        StringValue(b);
        Regroup(h, b, input);
        ChargeCharge(st, |h|, sz);
      } else {
        err := ExpectedString;
      }
    }

    /** Reads an unsigned integer of at most maxbits bits, in its only encoding. */
    method Uint(maxbits: nat, ghost want: Option<nat>) returns (v: u64, err: Error)
      requires Valid() && 8 <= maxbits <= 64
      modifies this
      ensures err == UintError(old(Pending()), old(Frames()), old(limited), maxbits / 8)
      ensures err == EOL <==> AtEnd(old(Frames()))
      ensures err == NoError ==>
              Valid() && kind == Rearmed && old(Pending()) == Encode(Str(UintBytes(v))) + input
              && stack == Charge(old(Frames()), |Encode(Str(UintBytes(v)))|) && v < Pow256(maxbits / 8)
      ensures (WantedUint(want, old(Pending()), old(Frames())) && want.value < Pow256(maxbits / 8)) ==>
              err == NoError && v == want.value
    {
      hide Encode, EncodeAll, Header, Minus, Charge, IsHead, FromBigEndian, BigEndian, UintBytes, Pow256;
      hide KindError, UintError, Room, AtEnd, Wanted;
      ghost var x, st, limit := Pending(), Frames(), limited;
      ghost var n := if want.Some? then want.value else 0;
      ghost var item := Str(UintBytes(n));
      var m := maxbits / 8;
      var k, sz;
      ghost var h;
      k, sz, err, h := TakeHead(Some(item));
      if err != NoError {
        BytesFails(x, st, limit);
        return 0, err;
      }
      HeadForm(k, h, sz, byteval);
      KnownUint(x, st, limit, m, k, h, sz, byteval, input);
      ghost var body := input;
      if Wanted(Some(item), x, st) && n < Pow256(m) {
        if k == Byte {
          WantedByte(n, byteval);
        } else {
          WantedString(n, body[..sz], m);
          SmallUint(body[..sz]);
        }
      }
      if k == Byte {
        if byteval == 0 {
          return 0, CanonInt;
        }
        kind := Rearmed;
        ByteUint(byteval, m);
        v := byteval;
      } else if k == String {
        if sz > m {
          return 0, UintOverflow;
        }
        v, err := UintString(sz, m, st, h);
      } else {
        return 0, ExpectedString;
      }
    }

    /** The bytes of an integer behind the header h, within the frames st. */
    method UintString(sz: u64, m: nat, ghost st: seq<u64>, ghost h: seq<byte>) returns (v: u64, err: Error)
      requires Limits() && sz <= m <= 8 && sz <= |input|
      requires h == Header(0x80, sz) && Room(st, |h|) && stack == Charge(st, |h|)
      modifies this`kind, this`stack, this`remaining, this`input
      ensures kind == Rearmed
      ensures Room(old(stack), sz) <==> Room(st, |h| + sz)
      ensures err == if !Room(st, |h| + sz) then ElemTooLarge
                     else if sz >= 2 && old(input)[0] == 0 then CanonInt
                     else if sz == 1 && old(input)[0] < 0x80 then CanonSize
                     else NoError
      ensures err == NoError ==>
              Limits() && h + old(input) == Encode(Str(UintBytes(v))) + input
              && stack == Charge(st, |Encode(Str(UintBytes(v)))|) && v < Pow256(m)
              && v == FromBigEndian(old(input)[..sz])
    {
      hide Encode, Header, Charge, FromBigEndian, UintBytes, Pow256, Room;
      ghost var body := input;
      ChargeRoom(st, stack, |h|, sz);
      v, err := UintContents(sz, m);
      if err == NoError {
        Regroup(h, body[..sz], input);
        ChargeCharge(st, |h|, sz);
      }
    }

    /** The bytes of an integer written as a string. */
    method UintContents(sz: u64, m: nat) returns (v: u64, err: Error)
      requires Limits() && sz <= m <= 8 && sz <= |input|
      modifies this`kind, this`stack, this`remaining, this`input
      ensures kind == Rearmed
      ensures err == if !Room(old(stack), sz) then ElemTooLarge
                     else if sz >= 2 && old(input)[0] == 0 then CanonInt
                     else if sz == 1 && old(input)[0] < 0x80 then CanonSize
                     else NoError
      ensures err == NoError ==>
              Limits() && sz <= |old(input)| && old(input) == old(input)[..sz] + input
              && stack == Charge(old(stack), sz)
              && Encode(Str(UintBytes(v))) == Header(0x80, sz) + old(input)[..sz] && v < Pow256(m)
              && v == FromBigEndian(old(input)[..sz])
      ensures (Room(old(stack), sz) && sz <= |old(input)|
               && (sz > 0 ==> old(input)[0] != 0 && FromBigEndian(old(input)[..sz]) >= 128)) ==> err == NoError
    {
      hide Encode, Header, Charge, FromBigEndian, UintBytes, Pow256;
      ghost var body := input;
      SmallUint(body[..sz]);
      v, err := ReadUint(sz);
      if err == CanonSize {
        err := CanonInt;
      } else if err == NoError {
        if sz > 0 && v < 128 {
          return 0, CanonSize;
        }
        StringUint(body[..sz], v, m);
      }
    }

    /** Enters a list: charges its whole size to the list around it, by a subtraction that may wrap. */
    method List(ghost want: Option<Item>) returns (sz: u64, err: Error)
      requires Valid()
      modifies this
      ensures err == ListError(old(Pending()), old(Frames()), old(limited))
      ensures err == EOL <==> AtEnd(old(Frames()))
      ensures err == EOL ==> Valid() && kind == Rearmed && input == old(Pending()) && stack == old(Frames())
      ensures err == NoError ==>
              Valid() && kind == Rearmed && old(Pending()) == Header(0xC0, sz) + input
              && stack == Charge(old(Frames()), |Header(0xC0, sz)| + sz) + [sz]
      ensures err == NoError && old(Frames()) != [] ==>
                ChargedOuter(old(Frames())[|old(Frames())| - 1], |Header(0xC0, sz)|, sz, stack[|stack| - 2], input)
      ensures Wanted(want, old(Pending()), old(Frames())) && want.value.Items? ==>
              err == NoError && EncodeAll(want.value.items) <= input && sz == |EncodeAll(want.value.items)|
    {
      hide Encode, EncodeAll, Header, Minus, IsHead, ChargedOuter, Charge, KindError, ListError, Room, AtEnd, Wanted;
      ghost var x, st, limit := Pending(), Frames(), limited;
      var k;
      ghost var h;
      k, sz, err, h := TakeHead(want);
      if err != NoError {
        BytesFails(x, st, limit);
        return 0, err;
      }
      HeadForm(k, h, sz, byteval);
      KnownBytes(x, st, limit, k, h, sz, byteval, input);
      if k != RlpCoding.List {
        return 0, ExpectedList;
      }
      EnterList(sz, st, h);
    }

    /** Charges the size to the frame around, and opens a frame of that size. */
    method EnterList(sz: u64, ghost st: seq<u64>, ghost h: seq<byte>)
      requires Limits() && |h| <= 9 && Room(st, sz) && stack == Charge(st, |h|)
      modifies this`stack, this`kind, this`size, this`head
      ensures Valid() && kind == Rearmed && head == [] && stack == Charge(st, |h| + sz) + [sz]
      ensures st != [] ==>
                |stack| >= 2 && ChargedOuter(st[|st| - 1], |h|, sz, stack[|stack| - 2], input)
    {
      hide Minus, ChargedOuter, Charge, Room;
      ghost var mid := stack;
      if |stack| > 0 {
        var limit := stack[|stack| - 1];
        stack := stack[|stack| - 1 := Minus(limit, sz)];
      }
      stack := stack + [sz];
      FramePushed(st, mid, stack, |h|, sz, input);
      kind, size, head := Rearmed, 0, [];
    }

    /** Leaves a list, which must be used up. */
    method ListEnd() returns (err: Error)
      requires Limits()
      modifies this`stack, this`kind, this`size, this`head
      ensures err == NoError <==> AtEnd(old(stack))
      ensures err == NoError ==>
              stack == old(stack)[..|old(stack)| - 1] && kind == Rearmed && head == []
      ensures err != NoError ==> stack == old(stack) && kind == old(kind) && head == old(head)
      ensures err == if old(stack) == [] then NotInList else if AtEnd(old(stack)) then NoError else NotAtEOL
    {
      if |stack| == 0 {
        return NotInList;
      } else if stack[|stack| - 1] > 0 {
        return NotAtEOL;
      }
      stack := stack[..|stack| - 1];
      kind, size, head := Rearmed, 0, [];
      err := NoError;
    }
  }

  /** Reading a header and not yet charging its value: the frames before are the frames now, plus the header. */
  lemma Uncharge(frames: seq<u64>, stack: seq<u64>, n: nat)
    requires stack != [] ==> stack[|stack| - 1] + n < W
    requires frames == if stack == [] then [] else stack[..|stack| - 1] + [stack[|stack| - 1] + n]
    ensures stack == Charge(frames, n)
  {
    if stack != [] {
      MinusWithin(stack[|stack| - 1] + n, n);
    }
  }

  /** What a header states is what its tag and size bytes say. */
  lemma HeadStates(k: Kind, h: seq<byte>, size: nat, byteval: byte, rest: seq<byte>)
    requires IsHead(k, h, size, byteval)
    ensures var x := h + rest;
            && x != [] && KindOf(x[0]) == k && SizeOfSize(x[0]) + 1 == |h| && StatedSize(x[0], x[1..]) == size
            && (k == Byte ==> x[0] == byteval)
            && (SizeOfSize(x[0]) > 0 ==> x[1] != 0 && FromBigEndian(x[1..][..SizeOfSize(x[0])]) >= 56)
  {
    var x := h + rest;
    hide FromBigEndian, BigEndian;
    if k != Byte {
      HeaderTag(k, size);
      hide Header;
      assert x[0] == h[0] && x[1..] == h[1..] + rest;
      assert x[1..][..SizeOfSize(x[0])] == h[1..] == h[1..][..SizeOfSize(x[0])];
    }
  }

  /** With a whole header ahead, only the size it states can be at fault. */
  lemma KnownHead(x: seq<byte>, stack: seq<u64>, limited: bool, k: Kind, h: seq<byte>, size: nat, byteval: byte,
                  rest: seq<byte>)
    requires x == h + rest && IsHead(k, h, size, byteval) && Room(stack, |h|)
    ensures HeaderError(x, stack, limited) == NoError
    ensures KindError(x, stack, limited)
            == if AtEnd(stack) then EOL
               else if stack != [] && size > stack[|stack| - 1] then ElemTooLarge
               else if size > |rest| then ValueTooLarge
               else NoError
  {
    HeadStates(k, h, size, byteval, rest);
    hide IsHead, SizeOfSize, StatedSize, FromBigEndian, KindOf;
  }

  /** What reading the value behind a known head reports. */
  lemma KnownBytes(x: seq<byte>, stack: seq<u64>, limited: bool, k: Kind, h: seq<byte>, size: nat, byteval: byte,
                   rest: seq<byte>)
    requires x == h + rest && IsHead(k, h, size, byteval) && KindError(x, stack, limited) == NoError && size <= |rest|
    ensures BytesError(x, stack, limited)
            == if k == Byte then NoError
               else if k == RlpCoding.List then ExpectedString
               else if !Room(stack, |h| + size) then ElemTooLarge
               else if size == 1 && rest[0] < 0x80 then CanonSize
               else NoError
    ensures ListError(x, stack, limited) == if k == RlpCoding.List then NoError else ExpectedList
  {
    HeadStates(k, h, size, byteval, rest);
    ShortOfOne(k, h, size, byteval);
    hide IsHead, SizeOfSize, StatedSize, FromBigEndian, KindOf, KindError;
  }

  lemma KnownUint(x: seq<byte>, stack: seq<u64>, limited: bool, m: nat, k: Kind, h: seq<byte>, size: nat,
                  byteval: byte, rest: seq<byte>)
    requires x == h + rest && IsHead(k, h, size, byteval) && KindError(x, stack, limited) == NoError && size <= |rest|
    ensures UintError(x, stack, limited, m)
            == if k == Byte then (if byteval == 0 then CanonInt else NoError)
               else if k == RlpCoding.List then ExpectedString
               else if size > m then UintOverflow
               else if !Room(stack, |h| + size) then ElemTooLarge
               else if size >= 2 && rest[0] == 0 then CanonInt
               else if size == 1 && rest[0] < 0x80 then CanonSize
               else NoError
  {
    HeadStates(k, h, size, byteval, rest);
    hide IsHead, SizeOfSize, StatedSize, FromBigEndian, KindOf, KindError;
    assert size > 0 ==> x[|h|] == rest[0];
  }

  lemma BytesFails(x: seq<byte>, stack: seq<u64>, limited: bool)
    requires KindError(x, stack, limited) != NoError
    ensures BytesError(x, stack, limited) == ListError(x, stack, limited) == KindError(x, stack, limited)
    ensures forall m: nat :: UintError(x, stack, limited, m) == KindError(x, stack, limited)
  {
  }

  /** A string of one byte has a header of one byte. */
  lemma ShortOfOne(k: Kind, h: seq<byte>, size: nat, byteval: byte)
    requires IsHead(k, h, size, byteval)
    ensures size < 56 ==> |h| == 1
  {
  }

  /** Without one, the header is. */
  lemma NoHead(x: seq<byte>, stack: seq<u64>, limited: bool)
    requires HeaderError(x, stack, limited) != NoError || AtEnd(stack)
    ensures KindError(x, stack, limited) == if AtEnd(stack) then EOL else HeaderError(x, stack, limited)
  {
  }

  lemma NotWantedAtEnd(want: Option<Item>, x: seq<byte>, st: seq<u64>)
    ensures Wanted(want, x, st) ==> !AtEnd(st)
  {
    if Wanted(want, x, st) { EncodeNonempty(want.value); }
  }

  /** The size stated by the header of the value asked about fits input and list. */
  lemma WantedFits(want: Option<Item>, x: seq<byte>, st: seq<u64>, k: Kind, h: seq<byte>, size: nat, byteval: byte,
                   rest: seq<byte>)
    requires x == h + rest && IsHead(k, h, size, byteval)
    ensures Wanted(want, x, st) ==> size <= |rest| && (st != [] ==> size <= st[|st| - 1])
  {
    hide Encode, EncodeAll, IsHead;
    if Wanted(want, x, st) { SizeOfWanted(want.value, k, h, size, byteval, rest); }
  }

  lemma HeadNonempty(k: Kind, h: seq<byte>, size: nat, byteval: byte)
    requires IsHead(k, h, size, byteval)
    ensures |h| > 0
  {
  }

  lemma HeadForm(k: Kind, h: seq<byte>, size: nat, byteval: byte)
    requires IsHead(k, h, size, byteval)
    ensures if k == Byte then h == [byteval] && byteval < 0x80 && size == 0 else h == Header(Base(k), size)
  {
  }

  /** A single byte other than zero is the encoding of the number it is. */
  lemma ByteUint(b: byte, m: nat)
    requires 0 < b < 0x80 && m >= 1
    ensures Encode(Str(UintBytes(b))) == [b] && b < Pow256(m)
  {
    UintBytesFacts(b, m);
    SingleByte(b);
  }

  /** A string without a leading zero that is not a small single byte is the encoding of its number. */
  lemma StringUint(w: seq<byte>, v: nat, m: nat)
    requires v == FromBigEndian(w) && |w| <= m && (|w| >= 2 ==> w[0] != 0) && (|w| > 0 ==> v >= 128)
    ensures Encode(Str(UintBytes(v))) == Header(0x80, |w|) + w && v < Pow256(m)
  {
    hide Encode, Header, FromBigEndian, UintBytes, Pow256;
    if |w| == 1 {
      OneByte(w[0]);
      assert w == [w[0]];
    }
    UintBytesInverse(w);
    UintBytesFacts(v, m);
    StringValue(w);
  }

  /** Below 128 is only what is written with one byte, or with a leading zero. */
  lemma SmallUint(w: seq<byte>)
    ensures |w| == 1 ==> FromBigEndian(w) == w[0]
    ensures |w| >= 2 && w[0] != 0 ==> FromBigEndian(w) >= 256
  {
    if |w| == 1 {
      OneByte(w[0]);
      assert w == [w[0]];
    } else if |w| >= 2 && w[0] != 0 {
      FromBigEndianInverse(w[..|w| - 1]);
    }
  }

  lemma WantedByte(n: nat, b: byte)
    requires UintBytes(n) == [b]
    ensures b == n != 0
  {
    UintBytesFacts(n, 1);
    OneByte(b);
  }

  lemma WantedString(n: nat, w: seq<byte>, m: nat)
    requires UintBytes(n) == w && n < Pow256(m) && !(|w| == 1 && w[0] < 0x80)
    ensures FromBigEndian(w) == n && |w| <= m && (w != [] ==> w[0] != 0 && n >= 128)
  {
    UintBytesFacts(n, m);
    hide FromBigEndian, Pow256;
  }

  lemma SingleByte(b: byte)
    requires b < 0x80
    ensures Encode(Str([b])) == [b]
  {
  }

  lemma StringValue(b: seq<byte>)
    requires !(|b| == 1 && b[0] < 0x80)
    ensures Encode(Str(b)) == Header(0x80, |b|) + b
  {
  }

  /** Putting a header back: the frames before it was read, from the frames after. */
  lemma FramesBack(frames: seq<u64>, stack: seq<u64>, n: nat)
    requires stack == Charge(frames, n) && Room(frames, n)
    ensures |stack| == |frames|
    ensures frames != [] ==>
            stack[|stack| - 1] == frames[|frames| - 1] - n && frames == stack[..|stack| - 1] + [stack[|stack| - 1] + n]
  {
    if frames != [] {
      MinusWithin(frames[|frames| - 1], n);
    }
  }

  lemma ByteHead(b: byte)
    requires b < 0x80
    ensures IsHead(Byte, [b], 0, b) && SizeOfSize(b) == 0
  {
  }

  /** Room for n bytes and then m more is room for both. */
  lemma ChargeRoom(frames: seq<u64>, stack: seq<u64>, n: nat, m: nat)
    requires stack == Charge(frames, n) && Room(frames, n)
    ensures Room(stack, m) <==> Room(frames, n + m)
  {
    if frames != [] {
      MinusWithin(frames[|frames| - 1], n);
    }
  }

  lemma RoomLeft(frames: seq<u64>, stack: seq<u64>, n: nat, size: nat)
    requires stack == Charge(frames, n) && Room(frames, n + size)
    ensures Room(stack, size)
  {
    if frames != [] {
      MinusWithin(frames[|frames| - 1], n);
    }
  }

  /** The header found in front of an encoding is that encoding's own. */
  lemma SizeOfWanted(v: Item, k: Kind, h: seq<byte>, size: nat, byteval: byte, rest: seq<byte>)
    requires Encode(v) <= h + rest && |Encode(v)| < W && IsHead(k, h, size, byteval)
    ensures |h| + size == |Encode(v)| && BelongsTo(v, k, h, size, rest, [])
  {
    var k', body := EncodeForm(v);
    var whole := h + rest;
    var after := whole[|Encode(v)|..];
    assert whole == Encode(v) + after;
    hide Encode, EncodeAll;
    if k == Byte || k' == Byte {
      if k != Byte { HeaderTag(k, size); }
      if k' != Byte { HeaderTag(k', |body|); }
      assert whole[0] == h[0] == Encode(v)[0];
      assert k == k' == Byte;
    } else {
      var h' := Header(Base(k'), |body|);
      Regroup(h', body, after);
      HeaderUnique(k, size, rest, k', |body|, body + after);
      assert rest[..size] == body;
    }
  }

  lemma LeadingZero(y: seq<byte>, n: nat)
    requires n >= 1
    ensures n == 1 && |y| >= 1 && y[0] == 0 ==> FromBigEndian(y[..n]) < 56
  {
    if n == 1 && |y| >= 1 {
      OneByte(y[0]);
      assert y[..1] == [y[0]];
    }
  }

  /** A short header is its tag. */
  lemma ShortHead(b: byte)
    requires b >= 0x80 && SizeOfSize(b) == 0
    ensures IsHead(KindOf(b), [b], b - Base(KindOf(b)), 0)
  {
    TagHeader(b, [], b - Base(KindOf(b)));
    assert [b] + [] == [b];
  }

  /** A long header is its tag and the size bytes behind it. */
  lemma LongHead(b: byte, x: seq<byte>, rest: seq<byte>, size: nat) returns (h: seq<byte>)
    requires SizeOfSize(b) > 0 && |x| == 1 + SizeOfSize(b) + |rest| && x[0] == b && rest == x[1..][SizeOfSize(b)..]
    requires size == FromBigEndian(x[1..][..SizeOfSize(b)]) && size >= 56 && (SizeOfSize(b) >= 2 ==> x[1] != 0)
    ensures h == [b] + x[1..][..SizeOfSize(b)] && |h| == 1 + SizeOfSize(b) <= 9 && x == h + rest
    ensures IsHead(KindOf(b), h, size, 0)
  {
    hide FromBigEndian;
    var bytes := x[1..][..SizeOfSize(b)];
    assert bytes[..SizeOfSize(b)] == bytes;
    TagHeader(b, bytes, size);
    h := [b] + bytes;
  }

  /** The tag and size bytes at the start of an encoding. */
  lemma HeadOfWanted(v: Item, x: seq<byte>)
    requires Encode(v) <= x && |Encode(v)| < W
    ensures |x| > 0 && SizeOfSize(x[0]) < |Encode(v)|
    ensures SizeOfSize(x[0]) > 0 ==>
            x[1] != 0 && FromBigEndian(x[1..][..SizeOfSize(x[0])]) >= 56
  {
    var k, body := EncodeForm(v);
    EncodeNonempty(v);
    hide Encode;
    if k != Byte {
      HeaderTag(k, |body|);
      var h := Header(Base(k), |body|);
      hide Header;
      assert x[0] == h[0] && x[1..][..SizeOfSize(x[0])] == h[1..];
      assert h[1..][..SizeOfSize(x[0])] == h[1..];
    }
  }

  lemma ChargeNothing(stack: seq<u64>)
    ensures Charge(stack, 0) == stack
  {
    if stack != [] {
      MinusWithin(stack[|stack| - 1], 0);
    }
  }

  lemma OneByte(b: byte)
    ensures FromBigEndian([b]) == b
  {
    FromSnoc([], b);
    assert [] + [b] == [b];
  }

  lemma EightBytes(s: seq<byte>)
    requires |s| <= 8
    ensures FromBigEndian(s) < W
  {
    FromBelow(s);
    assert Pow256(8) == W;
    Pow256Monotone(|s|, 8);
  }

  lemma {:induction false} Pow256Monotone(m: nat, n: nat)
    requires m <= n
    ensures Pow256(m) <= Pow256(n)
  {
    if m < n {
      Pow256Monotone(m, n - 1);
    }
  }
}
