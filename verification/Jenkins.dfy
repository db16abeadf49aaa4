/**
 The Jenkins hash of uthash.h: a mixing step on three 32-bit words that can be undone, and
 the absorption of a key in blocks of twelve bytes.

 `signed` says whether the platform's plain char is signed; the results hold either way.
 */
module Jenkins {
  datatype Triple = Triple(i: bv32, j: bv32, h: bv32)

  // ----- Mixing and its inverse ------------------------------------------------------

  function Minus(x: bv32, y: bv32): bv32 { x - y }
  function Plus(x: bv32, y: bv32): bv32 { x + y }
  function Xor(x: bv32, m: bv32): bv32 { x ^ m }

  function Shr(x: bv32, n: nat): bv32
    requires n < 32
  {
    x >> n
  }

  function Shl(x: bv32, n: nat): bv32
    requires n < 32
  {
    x << n
  }

  lemma PlusOfDifference(x: bv32, y: bv32)
    ensures Plus(x - y, y) == x
  {}

  lemma MinusOfSum(x: bv32, y: bv32)
    ensures Minus(x + y, y) == x
  {}

  lemma MinusPlus(x: bv32, y: bv32)
    ensures Plus(Minus(x, y), y) == x
  {
    PlusOfDifference(x, y);
    hide Plus;
  }

  lemma PlusMinus(x: bv32, y: bv32)
    ensures Minus(Plus(x, y), y) == x
  {
    MinusOfSum(x, y);
    hide Minus;
  }

  lemma PlusUnfolds(x: bv32, y: bv32)
    ensures Plus(x, y) == x + y
  {}

  lemma PlusOfSums(x: bv32, y: bv32, z: bv32)
    ensures Plus(x + y, z) == Plus(x, y + z)
  {}

  lemma PlusAssociates(x: bv32, y: bv32, z: bv32)
    ensures Plus(Plus(x, y), z) == Plus(x, Plus(y, z))
  {
    hide Plus;
    PlusUnfolds(x, y);
    PlusUnfolds(y, z);
    PlusOfSums(x, y, z);
  }

  lemma PlusCommutes(x: bv32, y: bv32)
    ensures Plus(x, y) == Plus(y, x)
  {}

  lemma XorTwice(x: bv32, m: bv32)
    ensures Xor(Xor(x, m), m) == x
  {}

  /** One line of HASH_JEN_MIX: subtract two words, then xor with a shifted third. */
  function Sub(x: bv32, y: bv32, z: bv32, m: bv32): bv32 {
    Xor(Minus(Minus(x, y), z), m)
  }

  function Unsub(x: bv32, y: bv32, z: bv32, m: bv32): bv32 {
    Plus(Plus(Xor(x, m), z), y)
  }

  lemma SubInverse(x: bv32, y: bv32, z: bv32, m: bv32)
    ensures Unsub(Sub(x, y, z, m), y, z, m) == x
    ensures Sub(Unsub(x, y, z, m), y, z, m) == x
  {
    hide Minus, Plus, Xor;
    MinusPlus(x, y);
    MinusPlus(Minus(x, y), z);
    XorTwice(Minus(Minus(x, y), z), m);
    PlusMinus(Xor(x, m), z);
    PlusMinus(Plus(Xor(x, m), z), y);
    XorTwice(x, m);
  }

  /** One of the three rounds of HASH_JEN_MIX. */
  function Round(t: Triple, r: nat, l: nat, r': nat): Triple
    requires r < 32 && l < 32 && r' < 32
  {
    var a := Sub(t.i, t.j, t.h, Shr(t.h, r));
    var b := Sub(t.j, t.h, a, Shl(a, l));
    var c := Sub(t.h, a, b, Shr(b, r'));
    Triple(a, b, c)
  }

  function Unround(t: Triple, r: nat, l: nat, r': nat): Triple
    requires r < 32 && l < 32 && r' < 32
  {
    var c := Unsub(t.h, t.i, t.j, Shr(t.j, r'));
    var b := Unsub(t.j, c, t.i, Shl(t.i, l));
    var a := Unsub(t.i, b, c, Shr(c, r));
    Triple(a, b, c)
  }

  lemma RoundInverse(t: Triple, r: nat, l: nat, r': nat)
    requires r < 32 && l < 32 && r' < 32
    ensures Unround(Round(t, r, l, r'), r, l, r') == t
    ensures Round(Unround(t, r, l, r'), r, l, r') == t
  {
    hide Sub, Unsub, Shr, Shl;
    var u := Round(t, r, l, r');
    SubInverse(t.h, u.i, u.j, Shr(u.j, r'));
    SubInverse(t.j, t.h, u.i, Shl(u.i, l));
    SubInverse(t.i, t.j, t.h, Shr(t.h, r));
    var v := Unround(t, r, l, r');
    SubInverse(t.i, v.j, v.h, Shr(v.h, r));
    SubInverse(t.j, v.h, t.i, Shl(t.i, l));
    SubInverse(t.h, t.i, t.j, Shr(t.j, r'));
  }

  function Mix(t: Triple): Triple {
    Round(Round(Round(t, 13, 8, 13), 12, 16, 5), 3, 10, 15)
  }

  function Unmix(t: Triple): Triple {
    Unround(Unround(Unround(t, 3, 10, 15), 12, 16, 5), 13, 8, 13)
  }

  /** Mixing is a bijection on triples of words. */
  lemma MixInverse(t: Triple)
    ensures Unmix(Mix(t)) == t
    ensures Mix(Unmix(t)) == t
  {
    hide Round, Unround;
    var u := Round(t, 13, 8, 13);
    RoundInverse(t, 13, 8, 13);
    RoundInverse(u, 12, 16, 5);
    RoundInverse(Round(u, 12, 16, 5), 3, 10, 15);
    var v := Unround(t, 3, 10, 15);
    RoundInverse(t, 3, 10, 15);
    RoundInverse(v, 12, 16, 5);
    RoundInverse(Unround(v, 12, 16, 5), 13, 8, 13);
  }

  // ----- Bytes and words -------------------------------------------------------------

  /** A char converted to unsigned: sign-extended where chars are signed. */
  function Extend(b: bv8, signed: bool): bv32 {
    if signed && b >= 0x80 then (b as bv32) | 0xFFFF_FF00 else b as bv32
  }

  function Pack3(h: bv32): bv32 { Shl(h, 24) }
  function Pack2(g: bv32, h: bv32): bv32 { Plus(Shl(g, 16), Shl(h, 24)) }
  function Pack1(f: bv32, g: bv32, h: bv32): bv32 { Plus(Plus(Shl(f, 8), Shl(g, 16)), Shl(h, 24)) }
  function Pack0(e: bv32, f: bv32, g: bv32, h: bv32): bv32 {
    Plus(Plus(Plus(e, Shl(f, 8)), Shl(g, 16)), Shl(h, 24))
  }

  /** Four chars of a key, added up as HASH_JEN does. */
  function Word(b0: bv8, b1: bv8, b2: bv8, b3: bv8, signed: bool): bv32 {
    Pack0(Extend(b0, signed), Extend(b1, signed), Extend(b2, signed), Extend(b3, signed))
  }

  function Low(x: bv32): bv32 { x & 0xFF }

  lemma LowOfExtend(b: bv8, signed: bool)
    ensures Low(Extend(b, signed)) == b as bv32
  {}

  lemma ByteInjective(b: bv8, c: bv8)
    requires b as bv32 == c as bv32
    ensures b == c
  {}

  lemma ExtendInjective(b: bv8, c: bv8, signed: bool)
    requires Low(Extend(b, signed)) == Low(Extend(c, signed))
    ensures b == c
  {
    hide Extend, Low;
    LowOfExtend(b, signed);
    LowOfExtend(c, signed);
    ByteInjective(b, c);
  }

  // What the low bits of a packed word say, and the word without its lowest char.

  function Low16(x: bv32): bv32 { x & 0xFFFF }
  function Low24(x: bv32): bv32 { x & 0xFF_FFFF }

  lemma LowIgnores(x: bv32, y: bv32)
    ensures Low(y) == 0 ==> Low(Plus(x, y)) == Low(x)
    ensures Low16(y) == 0 ==> Low16(Plus(x, y)) == Low16(x)
    ensures Low24(y) == 0 ==> Low24(Plus(x, y)) == Low24(x)
  {}

  lemma LowOfShifted(x: bv32)
    ensures Low(Shl(x, 8)) == Low(Shl(x, 16)) == Low(Shl(x, 24)) == 0
    ensures Low16(Shl(x, 16)) == Low16(Shl(x, 24)) == 0
    ensures Low24(Shl(x, 24)) == 0
  {}

  /** Shifting back what has been shifted leaves the low byte. */
  lemma ShiftedBack(x: bv32)
    ensures Low16(Shl(x, 8)) >> 8 == Low(x)
    ensures Low24(Shl(x, 16)) >> 16 == Low(x)
    ensures Shl(x, 24) >> 24 == Low(x)
  {}

  lemma ShiftedLow(x: bv32, y: bv32)
    ensures Low16(Shl(x, 8)) == Low16(Shl(y, 8)) ==> Low(x) == Low(y)
    ensures Low24(Shl(x, 16)) == Low24(Shl(y, 16)) ==> Low(x) == Low(y)
    ensures Shl(x, 24) == Shl(y, 24) ==> Low(x) == Low(y)
  {
    ShiftedBack(x);
    ShiftedBack(y);
    hide Low, Low16, Low24, Shl;
  }

  lemma Peel0(e: bv32, f: bv32, g: bv32, h: bv32)
    ensures Low(Pack0(e, f, g, h)) == Low(e) && Minus(Pack0(e, f, g, h), e) == Pack1(f, g, h)
  {
    hide Plus, Minus, Shl, Low;
    LowOfShifted(f);
    LowOfShifted(g);
    LowOfShifted(h);
    LowIgnores(e, Shl(f, 8));
    LowIgnores(Plus(e, Shl(f, 8)), Shl(g, 16));
    LowIgnores(Plus(Plus(e, Shl(f, 8)), Shl(g, 16)), Shl(h, 24));
    PlusAssociates(e, Shl(f, 8), Shl(g, 16));
    PlusAssociates(e, Plus(Shl(f, 8), Shl(g, 16)), Shl(h, 24));
    PlusCommutes(e, Pack1(f, g, h));
    PlusMinus(Pack1(f, g, h), e);
  }

  lemma Peel1(f: bv32, g: bv32, h: bv32)
    ensures Low16(Pack1(f, g, h)) == Low16(Shl(f, 8)) && Minus(Pack1(f, g, h), Shl(f, 8)) == Pack2(g, h)
  {
    hide Plus, Minus, Shl, Low16;
    LowOfShifted(g);
    LowOfShifted(h);
    LowIgnores(Shl(f, 8), Shl(g, 16));
    LowIgnores(Plus(Shl(f, 8), Shl(g, 16)), Shl(h, 24));
    PlusAssociates(Shl(f, 8), Shl(g, 16), Shl(h, 24));
    PlusCommutes(Shl(f, 8), Pack2(g, h));
    PlusMinus(Pack2(g, h), Shl(f, 8));
  }

  lemma Peel2(g: bv32, h: bv32)
    ensures Low24(Pack2(g, h)) == Low24(Shl(g, 16)) && Minus(Pack2(g, h), Shl(g, 16)) == Pack3(h)
  {
    hide Plus, Minus, Shl, Low24;
    LowOfShifted(h);
    LowIgnores(Shl(g, 16), Shl(h, 24));
    PlusCommutes(Shl(g, 16), Shl(h, 24));
    PlusMinus(Shl(h, 24), Shl(g, 16));
  }

  /** Four chars can be read back from their word, whatever the sign extension added. */
  lemma WordInjective(b0: bv8, b1: bv8, b2: bv8, b3: bv8, c0: bv8, c1: bv8, c2: bv8, c3: bv8, signed: bool)
    requires Word(b0, b1, b2, b3, signed) == Word(c0, c1, c2, c3, signed)
    ensures b0 == c0 && b1 == c1 && b2 == c2 && b3 == c3
  {
    hide Extend, Pack0, Pack1, Pack2, Low, Low16, Low24, Minus, Shl;
    var e, f, g, h := Extend(b0, signed), Extend(b1, signed), Extend(b2, signed), Extend(b3, signed);
    var e', f', g', h' := Extend(c0, signed), Extend(c1, signed), Extend(c2, signed), Extend(c3, signed);
    Peel0(e, f, g, h);
    Peel0(e', f', g', h');
    ExtendInjective(b0, c0, signed);
    Peel1(f, g, h);
    Peel1(f', g', h');
    ShiftedLow(f, f');
    ExtendInjective(b1, c1, signed);
    Peel2(g, h);
    Peel2(g', h');
    ShiftedLow(g, g');
    ExtendInjective(b2, c2, signed);
    ShiftedLow(h, h');
    ExtendInjective(b3, c3, signed);
  }

  // ----- Absorbing a key -------------------------------------------------------------

  const START := Triple(0x9e37_79b9, 0x9e37_79b9, 0xfeed_beef)

  type Chunk = b: seq<bv8> | |b| == 12 witness [0, 0, 0, 0, 0, 0, 0, 0, 0, 0, 0, 0]

  function WordAt(b: Chunk, p: nat, signed: bool): bv32
    requires p <= 8
  {
    Word(b[p], b[p + 1], b[p + 2], b[p + 3], signed)
  }

  function Absorb(t: Triple, b: Chunk, signed: bool): Triple {
    Triple(Plus(t.i, WordAt(b, 0, signed)), Plus(t.j, WordAt(b, 4, signed)), Plus(t.h, WordAt(b, 8, signed)))
  }

  /** The byte at n of an incomplete last block; there is none past its end. */
  function TailByte(rest: seq<bv8>, n: nat): bv8 {
    if n < |rest| then rest[n] else 0
  }

  /** The last 0 to 11 bytes, laid out as they are added: the low byte of the third word stays free. */
  function Pad(rest: seq<bv8>): Chunk
    requires |rest| < 12
  {
    [TailByte(rest, 0), TailByte(rest, 1), TailByte(rest, 2), TailByte(rest, 3),
     TailByte(rest, 4), TailByte(rest, 5), TailByte(rest, 6), TailByte(rest, 7),
     0, TailByte(rest, 8), TailByte(rest, 9), TailByte(rest, 10)]
  }

  /** The three words after the rest of a key, from the words before it. */
  function JenState(t: Triple, key: seq<bv8>, keylen: bv32, signed: bool): Triple
    decreases |key|
  {
    if |key| >= 12 then JenState(Mix(Absorb(t, key[..12], signed)), key[12..], keylen, signed)
    else Mix(Absorb(Triple(t.i, t.j, Plus(t.h, keylen)), Pad(key), signed))
  }

  // ----- The loop and the switch of HASH_JEN -----------------------------------------

  lemma AddNothing(x: bv32)
    ensures Plus(x, 0) == x
  {}

  lemma ShiftNothing(n: nat)
    requires n < 32
    ensures Shl(0, n) == 0
  {}

  lemma AddZero(x: bv32, n: nat, signed: bool)
    requires n < 32
    ensures Extend(0, signed) == 0 && Plus(x, Shl(0, n)) == x && Plus(x, 0) == x
  {
    hide Plus;
    AddNothing(x);
    ShiftNothing(n);
  }

  lemma ReverseSum(x: bv32, e: bv32, f: bv32, g: bv32, h: bv32)
    ensures Plus(Plus(Plus(Plus(x, h), g), f), e) == Plus(x, Plus(Plus(Plus(e, f), g), h))
  {
    hide Plus;
    PlusAssociates(x, h, g);
    PlusCommutes(h, g);
    PlusAssociates(x, Plus(g, h), f);
    PlusAssociates(x, Plus(Plus(g, h), f), e);
    PlusCommutes(Plus(g, h), f);
    PlusAssociates(f, g, h);
    PlusCommutes(Plus(Plus(f, g), h), e);
    PlusAssociates(e, Plus(f, g), h);
    PlusAssociates(e, f, g);
  }

  /** Adding a word byte by byte, the highest first, adds the word. */
  lemma AddedBytes(x: bv32, e: bv32, f: bv32, g: bv32, h: bv32)
    ensures Plus(Plus(Plus(Plus(x, Shl(h, 24)), Shl(g, 16)), Shl(f, 8)), e) == Plus(x, Pack0(e, f, g, h))
  {
    hide Plus, Shl;
    ReverseSum(x, e, Shl(f, 8), Shl(g, 16), Shl(h, 24));
  }

  /** One case of the switch: adds the byte at n, if there is one, shifted left. */
  method AddTailByte(x: bv32, rest: seq<bv8>, n: nat, shift: nat, signed: bool) returns (y: bv32)
    requires shift < 32
    ensures y == Plus(x, Shl(Extend(TailByte(rest, n), signed), shift))
  {
    AddZero(x, shift, signed);
    hide Extend, Plus, Shl;
    y := x;
    if n < |rest| {
      y := Plus(y, Shl(Extend(rest[n], signed), shift));
    }
  }

  lemma NoShift(x: bv32)
    ensures Shl(x, 0) == x
  {}

  /** The cases 4, 3, 2 and 1 of the switch, which fall through; likewise 8 to 5 at p == 4. */
  method AddTailWord(x: bv32, rest: seq<bv8>, p: nat, signed: bool) returns (y: bv32)
    ensures y == Plus(x, Word(TailByte(rest, p), TailByte(rest, p + 1), TailByte(rest, p + 2),
                              TailByte(rest, p + 3), signed))
  {
    AddedBytes(x, Extend(TailByte(rest, p), signed), Extend(TailByte(rest, p + 1), signed),
               Extend(TailByte(rest, p + 2), signed), Extend(TailByte(rest, p + 3), signed));
    hide Extend, Plus, Shl, Pack0;
    y := AddTailByte(x, rest, p + 3, 24, signed);
    y := AddTailByte(y, rest, p + 2, 16, signed);
    y := AddTailByte(y, rest, p + 1, 8, signed);
    NoShift(Extend(TailByte(rest, p), signed));
    y := AddTailByte(y, rest, p, 0, signed);
  }

  /** The cases 11, 10 and 9: the third word keeps its low byte for the key length. */
  method AddTailOfThird(x: bv32, rest: seq<bv8>, signed: bool) returns (y: bv32)
    ensures y == Plus(x, Word(0, TailByte(rest, 8), TailByte(rest, 9), TailByte(rest, 10), signed))
  {
    AddedBytes(x, Extend(0, signed), Extend(TailByte(rest, 8), signed),
               Extend(TailByte(rest, 9), signed), Extend(TailByte(rest, 10), signed));
    hide Extend, Plus, Shl, Pack0;
    y := AddTailByte(x, rest, 10, 24, signed);
    y := AddTailByte(y, rest, 9, 16, signed);
    y := AddTailByte(y, rest, 8, 8, signed);
    AddZero(y, 0, signed);
  }

  lemma StateStep(t: Triple, key: seq<bv8>, p: nat, keylen: bv32, signed: bool)
    requires p + 12 <= |key|
    ensures JenState(t, key[p..], keylen, signed)
         == JenState(Mix(Absorb(t, key[p..p + 12], signed)), key[p + 12..], keylen, signed)
  {
    hide Mix, Plus, Word, Absorb;
    assert key[p..][..12] == key[p..p + 12] && key[p..][12..] == key[p + 12..];
  }

  lemma PaddedState(t: Triple, rest: seq<bv8>, keylen: bv32, signed: bool)
    requires |rest| < 12
    ensures JenState(t, rest, keylen, signed)
         == Mix(Triple(
              Plus(t.i, Word(TailByte(rest, 0), TailByte(rest, 1), TailByte(rest, 2), TailByte(rest, 3), signed)),
              Plus(t.j, Word(TailByte(rest, 4), TailByte(rest, 5), TailByte(rest, 6), TailByte(rest, 7), signed)),
              Plus(Plus(t.h, keylen), Word(0, TailByte(rest, 8), TailByte(rest, 9), TailByte(rest, 10), signed))))
  {
    hide Mix, Plus, Word, TailByte;
  }

  /** HASH_JEN: the hash value of a key and its bucket. */
  method HashJen(key: seq<bv8>, numBkts: bv32, signed: bool) returns (hashv: bv32, bkt: bv32)
    requires |key| < 0x1_0000_0000
    ensures hashv == JenState(START, key, |key| as bv32, signed).h
    ensures bkt == hashv & (numBkts - 1)
  {
    hide Mix, Plus, Word, Absorb;
    ghost var keylen := |key| as bv32;
    var t, p := START, 0;
    while |key| - p >= 12
      invariant 0 <= p <= |key|
      invariant JenState(t, key[p..], keylen, signed) == JenState(START, key, keylen, signed)
    {
      var b: Chunk := key[p..p + 12];
      StateStep(t, key, p, keylen, signed);
      t := Mix(Absorb(t, b, signed));
      p := p + 12;
    }
    var rest := key[p..];
    var h := Plus(t.h, |key| as bv32);
    h := AddTailOfThird(h, rest, signed);
    var j := AddTailWord(t.j, rest, 4, signed);
    var i := AddTailWord(t.i, rest, 0, signed);
    PaddedState(t, rest, keylen, signed);
    hashv := Mix(Triple(i, j, h)).h;
    bkt := hashv & (numBkts - 1);
  }

  // ----- Keys that differ in one block never meet ------------------------------------

  lemma PlusCancels(x: bv32, v: bv32, w: bv32)
    requires Plus(x, v) == Plus(x, w)
    ensures v == w
  {
    PlusCommutes(x, v);
    PlusCommutes(x, w);
    PlusMinus(v, x);
    PlusMinus(w, x);
    hide Plus, Minus;
  }

  lemma MixInjective(t: Triple, u: Triple)
    requires Mix(t) == Mix(u)
    ensures t == u
  {
    MixInverse(t);
    MixInverse(u);
    hide Mix, Unmix;
  }

  lemma WordAtInjective(b: Chunk, c: Chunk, p: nat, signed: bool)
    requires p <= 8 && WordAt(b, p, signed) == WordAt(c, p, signed)
    ensures b[p..p + 4] == c[p..p + 4]
  {
    WordInjective(b[p], b[p + 1], b[p + 2], b[p + 3], c[p], c[p + 1], c[p + 2], c[p + 3], signed);
  }

  lemma SameWords(b: Chunk, c: Chunk)
    requires b[0..4] == c[0..4] && b[4..8] == c[4..8] && b[8..12] == c[8..12]
    ensures b == c
  {
    assert b == b[0..4] + b[4..8] + b[8..12] && c == c[0..4] + c[4..8] + c[8..12];
  }

  /** From one state, different blocks lead to different states. */
  lemma AbsorbInjective(t: Triple, b: Chunk, c: Chunk, signed: bool)
    requires Absorb(t, b, signed) == Absorb(t, c, signed)
    ensures b == c
  {
    hide WordAt, Plus;
    PlusCancels(t.i, WordAt(b, 0, signed), WordAt(c, 0, signed));
    PlusCancels(t.j, WordAt(b, 4, signed), WordAt(c, 4, signed));
    PlusCancels(t.h, WordAt(b, 8, signed), WordAt(c, 8, signed));
    WordAtInjective(b, c, 0, signed);
    WordAtInjective(b, c, 4, signed);
    WordAtInjective(b, c, 8, signed);
    SameWords(b, c);
  }

  /** With the same block, different states stay different. */
  lemma AbsorbKeepsApart(t: Triple, u: Triple, b: Chunk, signed: bool)
    requires Absorb(t, b, signed) == Absorb(u, b, signed)
    ensures t == u
  {
    hide WordAt, Plus;
    PlusMinus(t.i, WordAt(b, 0, signed));
    PlusMinus(u.i, WordAt(b, 0, signed));
    PlusMinus(t.j, WordAt(b, 4, signed));
    PlusMinus(u.j, WordAt(b, 4, signed));
    PlusMinus(t.h, WordAt(b, 8, signed));
    PlusMinus(u.h, WordAt(b, 8, signed));
  }

  /** The rest of a key never brings two different states together. */
  lemma {:induction false} StateKeepsApart(t: Triple, u: Triple, key: seq<bv8>, keylen: bv32, signed: bool)
    requires JenState(t, key, keylen, signed) == JenState(u, key, keylen, signed)
    ensures t == u
    decreases |key|
  {
    hide Mix, Absorb, Plus, Pad;
    if |key| >= 12 {
      var t', u' := Absorb(t, key[..12], signed), Absorb(u, key[..12], signed);
      StateKeepsApart(Mix(t'), Mix(u'), key[12..], keylen, signed);
      MixInjective(t', u');
      AbsorbKeepsApart(t, u, key[..12], signed);
    } else {
      var t', u' := Triple(t.i, t.j, Plus(t.h, keylen)), Triple(u.i, u.j, Plus(u.h, keylen));
      MixInjective(Absorb(t', Pad(key), signed), Absorb(u', Pad(key), signed));
      AbsorbKeepsApart(t', u', Pad(key), signed);
      PlusMinus(t.h, keylen);
      PlusMinus(u.h, keylen);
    }
  }

  lemma PadInjective(r: seq<bv8>, s: seq<bv8>)
    requires |r| == |s| < 12 && Pad(r) == Pad(s)
    ensures r == s
  {
    forall n | 0 <= n < |r|
      ensures r[n] == s[n]
    {
      var m := if n < 8 then n else n + 1;
      assert Pad(r)[m] == TailByte(r, n) && Pad(s)[m] == TailByte(s, n);
    }
  }

  lemma CommonBlock(k: seq<bv8>, l: seq<bv8>, p: nat)
    requires |k| == |l| && k != l && 12 <= p <= |k| && k[..p] == l[..p]
    requires p + 12 <= |k| ==> k[p + 12..] == l[p + 12..]
    ensures k[..12] == l[..12] && k[12..] != l[12..] && k[12..][..p - 12] == l[12..][..p - 12]
    ensures p + 12 <= |k| ==> k[12..][p..] == l[12..][p..]
  {
    assert k[..12] == k[..p][..12] && l[..12] == l[..p][..12];
    assert k == k[..12] + k[12..] && l == l[..12] + l[12..];
    assert k[12..][..p - 12] == k[..p][12..] && l[12..][..p - 12] == l[..p][12..];
    if p + 12 <= |k| {
      assert k[12..][p..] == k[p + 12..] && l[12..][p..] == l[p + 12..];
    }
  }

  /**
   Two keys of one length that differ only inside the block at p, a full block or the
   incomplete last one, never reach the same three words.
   */
  lemma {:induction false} OneBlockApart(t: Triple, k: seq<bv8>, l: seq<bv8>, p: nat, keylen: bv32, signed: bool)
    requires |k| == |l| && k != l && p % 12 == 0 && p <= |k| && k[..p] == l[..p]
    requires p + 12 <= |k| ==> k[p + 12..] == l[p + 12..]
    ensures JenState(t, k, keylen, signed) != JenState(t, l, keylen, signed)
    decreases p
  {
    hide Mix, Absorb, Plus, Pad;
    if p >= 12 {
      CommonBlock(k, l, p);
      OneBlockApart(Mix(Absorb(t, k[..12], signed)), k[12..], l[12..], p - 12, keylen, signed);
    } else if |k| >= 12 {
      assert k == k[..12] + k[12..] && l == l[..12] + l[12..];
      var u, v := Absorb(t, k[..12], signed), Absorb(t, l[..12], signed);
      if JenState(t, k, keylen, signed) == JenState(t, l, keylen, signed) {
        StateKeepsApart(Mix(u), Mix(v), k[12..], keylen, signed);
        MixInjective(u, v);
        AbsorbInjective(t, k[..12], l[..12], signed);
        assert false;
      }
    } else {
      var u := Triple(t.i, t.j, Plus(t.h, keylen));
      if JenState(t, k, keylen, signed) == JenState(t, l, keylen, signed) {
        MixInjective(Absorb(u, Pad(k), signed), Absorb(u, Pad(l), signed));
        AbsorbInjective(u, Pad(k), Pad(l), signed);
        PadInjective(k, l);
        assert false;
      }
    }
  }
}
