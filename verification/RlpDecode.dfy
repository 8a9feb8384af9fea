/** Decoding a whole value from a slice: the inverse of the encoding, and of nothing else. */
module RlpDecode {
  import opened RlpCoding
  import opened Words
  import opened Options
  import opened RlpStream
  import opened RlpOutput

  /** What a decoder of one value promises: it consumes exactly an encoding of what it returns. */
  ghost predicate Decoded(s: Stream, x: seq<byte>, frames: seq<u64>, v: Item)
    reads s
  {
    && s.Valid() && s.kind == Rearmed
    && x == Encode(v) + s.input && s.stack == Charge(frames, |Encode(v)|)
  }

  /** A value of any kind: lists become sequences of values, strings byte strings. */
  method DecodeInterface(s: Stream, ghost want: Option<Item>) returns (v: Item, err: Error)
    requires s.Valid()
    modifies s
    ensures err == EOL <==> AtEnd(old(s.Frames()))
    ensures err == EndOfInput <==> old(s.Pending()) == [] && old(s.Frames()) == []
    ensures err != MoreThanOneValue
    ensures err == EOL ==> s.Valid() && s.kind == Rearmed && s.input == old(s.Pending()) && s.stack == old(s.Frames())
    ensures err == NoError ==> Decoded(s, old(s.Pending()), old(s.Frames()), v)
    ensures Wanted(want, old(s.Pending()), old(s.Frames())) ==> err == NoError && v == want.value
    decreases |s.Pending()|, 1
  {
    hide Encode, EncodeAll, Charge;
    ghost var x, st := s.Pending(), s.Frames();
    v := Str([]);
    var kind, size;
    kind, size, err := s.Kind(want);
    if err != NoError {
      return;
    }
    if Wanted(want, x, st) { SizeOfWanted(want.value, kind, s.head, size, s.byteval, s.input); }
    if kind == RlpCoding.List {
      var vs;
      vs, err := DecodeListSlice(s, want);
      v := Items(vs);
    } else {
      var b;
      b, err := s.Bytes(want);
      v := Str(b);
    }
    if err == NoError && Wanted(want, x, st) {
      SameValue(v, s.input, want.value, x);
    }
  }

  /** Only one value starts a given input. */
  lemma SameValue(v: Item, rest: seq<byte>, w: Item, x: seq<byte>)
    requires x == Encode(v) + rest && Encode(w) <= x && |x| < W
    ensures v == w
  {
    PrefixFree(v, rest, w, x[|Encode(w)|..]);
  }

  method DecodeListSlice(s: Stream, ghost want: Option<Item>) returns (vs: seq<Item>, err: Error)
    requires s.Valid()
    modifies s
    ensures err == EOL <==> AtEnd(old(s.Frames()))
    ensures err == EndOfInput <==> old(s.Pending()) == [] && old(s.Frames()) == []
    ensures err != MoreThanOneValue
    ensures err == EOL ==> s.Valid() && s.kind == Rearmed && s.input == old(s.Pending()) && s.stack == old(s.Frames())
    ensures err == NoError ==> Decoded(s, old(s.Pending()), old(s.Frames()), Items(vs))
    ensures Wanted(want, old(s.Pending()), old(s.Frames())) && want.value.Items? ==> err == NoError
    decreases |s.Pending()|, 0
  {
    hide Encode, EncodeAll, Charge, Header, ChargedOuter, ListError;
    ghost var x, st := s.Pending(), s.Frames();
    var size;
    vs := [];
    size, err := s.List(want);
    if err != NoError {
      return;
    }
    ghost var n, body := |Header(0xC0, size)| + size, s.input;
    vs, err := ListContents(s, size, Charge(st, n),
                            if Wanted(want, x, st) && want.value.Items? then Some(want.value.items) else None);
    if err == NoError {
      ListValue(vs, size);
      hide Wanted, Room, KindError;
      Regroup(Header(0xC0, size), EncodeAll(vs), s.input);
    }
  }

  /** The values of a list just entered, and its end. */
  method ListContents(s: Stream, size: u64, ghost outer: seq<u64>, ghost want: Option<seq<Item>>)
    returns (vs: seq<Item>, err: Error)
    requires s.Valid() && s.kind == Rearmed && s.stack == outer + [size]
    modifies s
    ensures err != EOL && err != EndOfInput && err != MoreThanOneValue
    ensures err == NoError ==>
            s.Valid() && s.kind == Rearmed && s.stack == outer
            && old(s.input) == EncodeAll(vs) + s.input && size == |EncodeAll(vs)|
    ensures WantedAll(want, old(s.input), old(s.stack)) ==> err == NoError
    decreases |s.input|, 3
  {
    hide Encode, EncodeAll, Charge;
    vs := [];
    if size == 0 {
      err := s.ListEnd();
      EmptyList();
    } else {
      vs, err := DecodeSliceElems(s, want);
      if err != NoError {
        return;
      }
      FrameClosed(outer, size, |EncodeAll(vs)|);
      err := s.ListEnd();
    }
  }

  lemma EmptyList()
    ensures EncodeAll([]) == []
  {
  }

  lemma ListValue(vs: seq<Item>, size: nat)
    requires size == |EncodeAll(vs)|
    ensures Encode(Items(vs)) == Header(0xC0, size) + EncodeAll(vs)
  {
  }

  /** A frame at its end has been charged exactly its size, and below it nothing changed. */
  lemma FrameClosed(outer: seq<u64>, size: u64, n: nat)
    requires AtEnd(Charge(outer + [size], n)) && n < W
    ensures size == n && Charge(outer + [size], n)[..|outer|] == outer
  {
    ClosesExactly(size, n);
  }

  /** The values of a list, up to its end. */
  method DecodeSliceElems(s: Stream, ghost want: Option<seq<Item>>) returns (vs: seq<Item>, err: Error)
    requires s.Valid() && s.kind == Rearmed && s.stack != []
    modifies s
    ensures err != EOL && err != EndOfInput && err != MoreThanOneValue
    ensures err == NoError ==>
            s.Valid() && s.kind == Rearmed && AtEnd(s.stack)
            && old(s.input) == EncodeAll(vs) + s.input && s.stack == Charge(old(s.stack), |EncodeAll(vs)|)
    ensures WantedAll(want, old(s.input), old(s.stack)) ==> err == NoError
    decreases |s.input|, 2
  {
    hide Encode, EncodeAll, Charge, Wanted, Room;
    ghost var x, st := s.input, s.stack;
    vs, err := [], NoError;
    EmptyList();
    ChargeNothing(st);
    while err == NoError
      invariant err == NoError ==>
                s.Valid() && s.kind == Rearmed && s.stack != []
                && x == EncodeAll(vs) + s.input && s.stack == Charge(st, |EncodeAll(vs)|)
      invariant WantedAll(want, x, st) ==> err == NoError && vs <= want.value
      invariant err != EOL && err != EndOfInput && err != MoreThanOneValue
      decreases if err == NoError then |s.input| + 1 else 0
    {
      ghost var before := vs;
      RearmedFrames(s);
      ghost var elem := None;
      if WantedAll(want, x, st) {
        ghost var rest := want.value[|vs|..];
        assert want.value == vs + rest;
        WantedNext(vs, rest, s.input, st, s.stack);
        elem := if rest != [] then Some(rest[0]) else None;
      }
      var v;
      v, err := DecodeInterface(s, elem);
      if err == EOL {
        return vs, NoError;
      }
      if err == NoError {
        EncodeNonempty(v);
        vs := vs + [v];
        EncodeAllSnoc(before, v);
        Regroup(EncodeAll(before), Encode(v), s.input);
        ChargeCharge(st, |EncodeAll(before)|, |Encode(v)|);
      }
    }
  }

  /** The input starts with the encodings of the values asked about, and the frame holds exactly those. */
  ghost predicate WantedAll(want: Option<seq<Item>>, x: seq<byte>, stack: seq<u64>)
    requires stack != []
  {
    want.Some? && EncodeAll(want.value) <= x && stack[|stack| - 1] == |EncodeAll(want.value)|
  }

  lemma RearmedFrames(s: Stream)
    requires s.Valid() && s.kind == Rearmed
    ensures s.Pending() == s.input && s.Frames() == s.stack
  {
  }

  /** After a beginning vs of the wanted values, the rest of the input starts with the next one, and it fits. */
  lemma WantedNext(vs: seq<Item>, rest: seq<Item>, input: seq<byte>, st: seq<u64>, stack: seq<u64>)
    requires EncodeAll(vs + rest) <= EncodeAll(vs) + input && |EncodeAll(vs) + input| < W
    requires st != [] && st[|st| - 1] == |EncodeAll(vs + rest)| && stack == Charge(st, |EncodeAll(vs)|)
    ensures stack != [] && if rest == [] then AtEnd(stack) else Wanted(Some(rest[0]), input, stack)
  {
    hide Encode, EncodeAll, Charge;
    ghost var a, b := EncodeAll(vs), EncodeAll(rest);
    assert EncodeAll(vs + rest) == a + b by { EncodeAllConcat(vs, rest); }
    ChargedTop(st, |a|, |b|);
    PrefixRest(a, b, input);
    NextOf(rest);
    if rest != [] {
      PrefixOfPrefix(Encode(rest[0]), b, input);
    }
  }

  lemma ChargedTop(st: seq<u64>, n: nat, left: nat)
    requires st != [] && st[|st| - 1] == n + left
    ensures Charge(st, n) != [] && Charge(st, n)[|st| - 1] == left
  {
    MinusWithin(n + left, n);
  }

  lemma PrefixOfPrefix(a: seq<byte>, b: seq<byte>, c: seq<byte>)
    requires a <= b && b <= c
    ensures a <= c && |a| <= |b|
  {
  }

  lemma NextOf(rest: seq<Item>)
    ensures if rest == [] then EncodeAll(rest) == [] else Encode(rest[0]) <= EncodeAll(rest)
  {
    hide Encode;
  }

  lemma PrefixRest(a: seq<byte>, b: seq<byte>, input: seq<byte>)
    requires a + b <= a + input
    ensures b <= input
  {
    assert b == (a + b)[|a|..];
    assert (a + input)[..|a + b|] == a + b;
    assert input[..|b|] == (a + input)[..|a + b|][|a|..];
  }

  /**
   * Decodes a slice that must hold exactly one value. An empty one and one with more behind its first value are told
   * from those that start with no value.
   */
  method DecodeBytes(b: seq<byte>) returns (v: Item, err: Error)
    requires |b| < 0x8000_0000_0000_0000
    ensures err == NoError ==> b == Encode(v)
    ensures (exists w: Item :: b == Encode(w)) ==> err == NoError
    ensures err == MoreThanOneValue <==> exists w: Item :: Encode(w) < b
    ensures err == EndOfInput <==> b == []
  {
    hide Encode;
    var s := new Stream(b);
    ghost var want := if exists w: Item :: Encode(w) <= b then (var w: Item :| Encode(w) <= b; Some(w)) else None;
    v, err := DecodeInterface(s, want);
    if err != NoError {
      return;
    }
    EncodeNonempty(v);
    if |s.input| > 0 {
      assert Encode(v) < b;
      MoreBehind(b, v);
      return v, MoreThanOneValue;
    }
    WholeOnly(b, v);
  }

  lemma MoreBehind(b: seq<byte>, v: Item)
    requires Encode(v) < b && |b| < W
    ensures forall w: Item :: b != Encode(w)
  {
    hide Encode;
    forall w: Item ensures b != Encode(w) {
      if b == Encode(w) { WholeOnly(b, w); }
    }
  }

  /** A whole encoding continues no other. */
  lemma WholeOnly(b: seq<byte>, v: Item)
    requires b == Encode(v) && |b| < W
    ensures forall w: Item :: !(Encode(w) < b)
  {
    hide Encode;
    forall w: Item ensures !(Encode(w) < b) {
      if Encode(w) < b { SameValue(v, [], w, b); }
    }
  }

  /** Decoding what the encoder produces gives it back, for every value whose encoding fits a slice. */
  method RoundTrip(v: Item) returns (w: Item, err: Error)
    requires |Encode(v)| < 0x8000_0000_0000_0000
    ensures err == NoError && w == v
  {
    hide Encode;
    var out := EncodeToBytes(v);
    w, err := DecodeBytes(out[..]);
    EncodeInjective(v, w);
  }
}
