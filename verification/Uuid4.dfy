/** The version 4 UUID generator of uuid4.c: a 128-bit xorshift machine and a template printer. */
module Uuid4 {
  import opened Words

  // ---------------------------------------------------------------- the xorshift machine

  datatype State = State(s0: word, s1: word)

  const ZERO := State(0, 0)

  function Left(x: word): word { x * 0x80_0000 % WORD_LIMIT }

  function Right(x: word): word { x / 0x4_0000 }

  function RightFive(x: word): word { x / 32 }

  function ShiftLeftXor(x: word): word { XorWords(x, Left(x)) }

  function ShiftRightXor(x: word): word { XorWords(x, Right(x)) }

  /** x ^ s ^ (x >> 18) ^ (s >> 5), as the code associates it. */
  function Mix(x: word, s: word): word { XorWords(XorWords(XorWords(x, s), Right(x)), RightFive(s)) }

  function Plus(a: word, b: word): word { (a + b) % WORD_LIMIT }

  /** The new seed after one step of xorshift128plus. */
  function Next(s: State): State
  {
    State(s.s1, Mix(ShiftLeftXor(s.s0), s.s1))
  }

  /** The number that the step returns. */
  function Output(s: State): word
  {
    Plus(Next(s).s1, s.s1)
  }

  lemma ShiftBits(x: word, k: nat)
    ensures Bit(Left(x), k) <==> 23 <= k < 64 && Bit(x, k - 23)
    ensures Bit(Right(x), k) <==> Bit(x, k + 18)
    ensures Bit(RightFive(x), k) <==> Bit(x, k + 5)
  {
    Powers();
    LeftBit(x, 23, k);
    ModBit(x * Power(23), 64, k);
    RightBit(x, 18, k);
    RightBit(x, 5, k);
  }

  /** Bit `k` of the first word of a seed after the shift to the left by 23 places was added. */
  predicate Spread(x: word, k: nat)
  {
    Bit(x, k) != (23 <= k && Bit(x, k - 23))
  }

  /** The step bit by bit, and the number returned as a sum modulo 2^64. */
  lemma StepBitByBit(s: State, k: nat)
    requires k < 64
    ensures Next(s).s0 == s.s1
    ensures Bit(Next(s).s1, k) <==>
            (((Spread(s.s0, k) != Bit(s.s1, k)) != (k + 18 < 64 && Spread(s.s0, k + 18)))
             != (k + 5 < 64 && Bit(s.s1, k + 5)))
    ensures Output(s) == (Next(s).s1 + s.s1) % 0x1_0000_0000_0000_0000
  {
    hide Xor, Bit, Left, Right, RightFive;
    var x := ShiftLeftXor(s.s0);
    SpreadBit(s.s0, k);
    SpreadBit(s.s0, k + 18);
    NoHighBits(s.s1, k + 5);
    ShiftBits(x, k);
    ShiftBits(s.s1, k);
    var a := XorWords(x, s.s1);
    XorBit(x, s.s1, k);
    XorBit(a, Right(x), k);
    XorBit(XorWords(a, Right(x)), RightFive(s.s1), k);
  }

  lemma SpreadBit(x: word, k: nat)
    ensures Bit(ShiftLeftXor(x), k) <==> k < 64 && Spread(x, k)
  {
    hide Xor, Bit, Left;
    ShiftBits(x, k);
    XorBit(x, Left(x), k);
    NoHighBits(x, k);
  }

  // A xor with a shifted copy is undone by xors with further shifts, until they fall off the word.
  function UndoLeft(y: word): word { XorWords(XorWords(y, Left(y)), Left(Left(y))) }

  function UndoRight(y: word): word
  {
    XorWords(XorWords(XorWords(y, Right(y)), Right(Right(y))), Right(Right(Right(y))))
  }

  function Strip(y: word, s: word): word { XorWords(XorWords(y, s), RightFive(s)) }

  /** The step backwards. */
  function Prev(s: State): State
  {
    State(UndoLeft(UndoRight(Strip(s.s1, s.s0))), s.s0)
  }

  lemma LeftShifts(x: word, y: word)
    ensures Left(XorWords(x, y)) == XorWords(Left(x), Left(y)) && Left(Left(Left(x))) == 0
  {
    hide Xor, Bit, Left;
    forall k: nat | k < 64 ensures Bit(Left(XorWords(x, y)), k) == Bit(XorWords(Left(x), Left(y)), k) {
      ShiftBits(XorWords(x, y), k);
      ShiftBits(x, k);
      ShiftBits(y, k);
      XorBit(Left(x), Left(y), k);
      if k >= 23 {
        XorBit(x, y, k - 23);
      }
    }
    SameWords(Left(XorWords(x, y)), XorWords(Left(x), Left(y)));
    forall k: nat | k < 64 ensures Bit(Left(Left(Left(x))), k) == Bit(0, k) {
      ZeroBit(k);
      ShiftBits(Left(Left(x)), k);
      if k >= 23 {
        ShiftBits(Left(x), k - 23);
        if k >= 46 {
          ShiftBits(x, k - 46);
        }
      }
    }
    SameWords(Left(Left(Left(x))), 0);
  }

  lemma RightShifts(x: word, y: word)
    ensures Right(XorWords(x, y)) == XorWords(Right(x), Right(y)) && Right(Right(Right(Right(x)))) == 0
  {
    assert Right(Right(Right(Right(x)))) == 0;
    hide Xor, Bit, Right;
    forall k: nat | k < 64 ensures Bit(Right(XorWords(x, y)), k) == Bit(XorWords(Right(x), Right(y)), k) {
      ShiftBits(XorWords(x, y), k);
      ShiftBits(x, k);
      ShiftBits(y, k);
      XorBit(Right(x), Right(y), k);
      XorBit(x, y, k + 18);
    }
    SameWords(Right(XorWords(x, y)), XorWords(Right(x), Right(y)));
  }

  lemma Group(x: word, a: word, b: word)
    ensures XorWords(XorWords(x, a), b) == XorWords(x, XorWords(a, b))
  {
    hide Xor, Bit;
    forall k: nat | k < 64 ensures Bit(XorWords(XorWords(x, a), b), k) == Bit(XorWords(x, XorWords(a, b)), k) {
      XorBit(x, a, k);
      XorBit(XorWords(x, a), b, k);
      XorBit(a, b, k);
      XorBit(x, XorWords(a, b), k);
    }
    SameWords(XorWords(XorWords(x, a), b), XorWords(x, XorWords(a, b)));
  }

  lemma Commute(a: word, b: word)
    ensures XorWords(a, b) == XorWords(b, a)
  {
    hide Xor, Bit;
    forall k: nat | k < 64 ensures Bit(XorWords(a, b), k) == Bit(XorWords(b, a), k) {
      XorBit(a, b, k);
      XorBit(b, a, k);
    }
    SameWords(XorWords(a, b), XorWords(b, a));
  }

  lemma Twice(z: word, s: word)
    ensures XorWords(XorWords(z, s), s) == z && XorWords(z, 0) == z && XorWords(s, s) == 0
  {
    hide Xor, Bit;
    forall k: nat | k < 64
      ensures Bit(XorWords(XorWords(z, s), s), k) == Bit(z, k) && Bit(XorWords(z, 0), k) == Bit(z, k)
      ensures Bit(XorWords(s, s), k) == Bit(0, k)
    {
      ZeroBit(k);
      XorBit(z, s, k);
      XorBit(XorWords(z, s), s, k);
      XorBit(z, 0, k);
      XorBit(s, s, k);
    }
    SameWords(XorWords(XorWords(z, s), s), z);
    SameWords(XorWords(z, 0), z);
    SameWords(XorWords(s, s), 0);
  }

  lemma Hop(x: word, a: word, b: word)
    ensures XorWords(XorWords(x, a), XorWords(a, b)) == XorWords(x, b) && XorWords(x, 0) == x
  {
    hide XorWords;
    Group(XorWords(x, a), a, b);
    Twice(x, a);
  }

  lemma LeftInverse(x: word)
    ensures UndoLeft(ShiftLeftXor(x)) == x && ShiftLeftXor(UndoLeft(x)) == x
  {
    hide XorWords, Left;
    var a := Left(x);
    var b := Left(a);
    LeftShifts(x, a);
    LeftShifts(a, b);
    LeftShifts(XorWords(x, a), b);
    Hop(x, a, b);
    Hop(x, b, 0);
    Group(x, a, b);
    Hop(x, XorWords(a, b), 0);
  }

  lemma RightInverse(x: word)
    ensures UndoRight(ShiftRightXor(x)) == x && ShiftRightXor(UndoRight(x)) == x
  {
    hide XorWords, Right;
    var a := Right(x);
    var b := Right(a);
    var c := Right(b);
    RightShifts(x, a);
    RightShifts(a, b);
    RightShifts(b, c);
    RightShifts(XorWords(x, a), b);
    RightShifts(XorWords(XorWords(x, a), b), c);
    Hop(x, a, b);
    Hop(x, b, c);
    Hop(x, c, 0);
    Group(x, a, b);
    Group(x, XorWords(a, b), c);
    Hop(x, XorWords(XorWords(a, b), c), 0);
  }

  lemma MixParts(x: word, s: word)
    ensures Mix(x, s) == Strip(ShiftRightXor(x), s)
  {
    hide XorWords, Right, RightFive;
    Swap(x, s, Right(x));
  }

  lemma Swap(x: word, s: word, a: word)
    ensures XorWords(XorWords(x, s), a) == XorWords(XorWords(x, a), s)
  {
    hide XorWords;
    Group(x, s, a);
    Commute(s, a);
    Group(x, a, s);
  }

  lemma StripTwice(z: word, s: word)
    ensures Strip(Strip(z, s), s) == z
  {
    hide XorWords, RightFive;
    var a := RightFive(s);
    Swap(XorWords(z, s), a, s);
    Twice(z, s);
    Twice(z, a);
  }

  /** The step is a bijection on the 128-bit seeds. */
  lemma StepIsBijection(s: State)
    ensures Prev(Next(s)) == s
    ensures Next(Prev(s)) == s
  {
    hide ShiftLeftXor, ShiftRightXor, UndoLeft, UndoRight, Mix, Strip;
    var x := ShiftLeftXor(s.s0);
    LeftInverse(s.s0);
    RightInverse(x);
    MixParts(x, s.s1);
    StripTwice(ShiftRightXor(x), s.s1);
    var y := Strip(s.s1, s.s0);
    RightInverse(y);
    LeftInverse(UndoRight(y));
    MixParts(UndoRight(y), s.s0);
    StripTwice(s.s1, s.s0);
  }

  lemma ZeroStays()
    ensures Next(ZERO) == ZERO
  {
    hide XorWords;
    assert Left(0) == 0 && Right(0) == 0 && RightFive(0) == 0;
    Twice(0, 0);
  }

  function Iterate(s: State, n: nat): State
  {
    if n == 0 then s else Next(Iterate(s, n - 1))
  }

  /** A run of any length is at zero exactly when it started there. */
  lemma {:induction false} NeverZero(s: State, n: nat)
    ensures Iterate(s, n) == ZERO <==> s == ZERO
  {
    hide Next, Prev;
    ZeroStays();
    if n > 0 {
      NeverZero(s, n - 1);
      StepIsBijection(Iterate(s, n - 1));
      StepIsBijection(ZERO);
    }
  }

  // ---------------------------------------------------------------- the printer

  const TEMPLATE: string := "xxxxxxxx-xxxx-4xxx-yxxx-xxxxxxxxxxxx"
  const CHARS: string := "0123456789abcdef"

  type uint8 = b: int | 0 <= b < 256

  /** The union of two words and sixteen octets, on a little-endian machine: octet `i` of a word is digit `i` to the
      base 256. */
  function LittleEndian(w: word): (b: seq<uint8>)
    ensures |b| == 8
  {
    [w % 0x100, w / 0x100 % 0x100, w / 0x1_0000 % 0x100, w / 0x100_0000 % 0x100, w / 0x1_0000_0000 % 0x100,
     w / 0x100_0000_0000 % 0x100, w / 0x1_0000_0000_0000 % 0x100, w / 0x100_0000_0000_0000 % 0x100]
  }

  type random = b: seq<uint8> | |b| == 16 witness seq(16, _ => 0)

  /** Half-byte `i` of the random octets, the low half first. */
  function Nibble(b: random, i: nat): (n: nat)
    requires i < 32
    ensures n < 16
  {
    if i % 2 == 1 then b[i / 2] / 16 else b[i / 2] % 16
  }

  predicate IsSlot(c: char) { c == 'x' || c == 'y' }

  /** How many slots the template has before position `p`. */
  function SlotsBefore(p: nat): nat
    requires p <= 36
  {
    if p <= 8 then p
    else if p == 9 then 8
    else if p <= 13 then p - 1
    else if p == 14 then 12
    else if p == 15 then 12
    else if p <= 18 then p - 3
    else if p == 19 then 15
    else if p <= 23 then p - 4
    else if p == 24 then 19
    else p - 5
  }

  lemma TemplateShape(p: nat)
    requires p < 36
    ensures |TEMPLATE| == 36
    ensures TEMPLATE[p] == if p in {8, 13, 18, 23} then '-' else if p == 14 then '4' else if p == 19 then 'y' else 'x'
    ensures SlotsBefore(p + 1) == SlotsBefore(p) + if IsSlot(TEMPLATE[p]) then 1 else 0
    ensures IsSlot(TEMPLATE[p]) ==> SlotsBefore(p) < 31 && (TEMPLATE[p] == 'y' <==> SlotsBefore(p) == 15)
  {
  }

  /** Character `p` of the UUID made from `b`. */
  function UuidChar(b: random, p: nat): char
    requires p < 36
  {
    TemplateShape(p);
    if TEMPLATE[p] == 'x' then CHARS[Nibble(b, SlotsBefore(p))]
    else if TEMPLATE[p] == 'y' then CHARS[Nibble(b, SlotsBefore(p)) % 4 + 8]
    else TEMPLATE[p]
  }

  function Uuid(b: random): (s: string)
    ensures |s| == 36
  {
    seq(36, p requires 0 <= p < 36 => UuidChar(b, p))
  }

  /** The sixteen octets drawn from a seed. */
  function Draw(s: State): random
  {
    hide Output, Next, LittleEndian;
    LittleEndian(Output(s)) + LittleEndian(Output(Next(s)))
  }

  lemma FirstSlot()
    ensures SlotsBefore(0) == 0
  {
  }

  /** A place is filled with the half-byte that comes next, or as the template says. */
  lemma PrintedChar(b: random, p: nat)
    requires p < 36
    ensures IsSlot(TEMPLATE[p]) ==> SlotsBefore(p) < 31
    ensures TEMPLATE[p] == 'x' ==> UuidChar(b, p) == CHARS[Nibble(b, SlotsBefore(p))]
    ensures TEMPLATE[p] == 'y' ==> UuidChar(b, p) == CHARS[Nibble(b, SlotsBefore(p)) % 4 + 8]
    ensures TEMPLATE[p] != 'x' && TEMPLATE[p] != 'y' ==> UuidChar(b, p) == TEMPLATE[p]
  {
    TemplateShape(p);
  }

  class Generator {
    const seed: array<word>

    constructor (s: State)
      ensures Valid() && Seed() == s && fresh(seed)
    {
      seed := new word[2];
      new;
      seed[0], seed[1] := s.s0, s.s1;
    }

    ghost predicate Valid() { seed.Length == 2 }

    ghost function Seed(): State
      requires Valid()
      reads seed
    {
      State(seed[0], seed[1])
    }

    method Xorshift128plus() returns (r: word)
      requires Valid()
      modifies seed
      ensures Seed() == Next(old(Seed())) && r == Output(old(Seed()))
    {
      hide ShiftLeftXor, Mix, Plus;
      var s1 := seed[0];
      var s0 := seed[1];
      seed[0] := s0;
      s1 := ShiftLeftXor(s1);
      seed[1] := Mix(s1, s0);
      return Plus(seed[1], s0);
    }

    /** uuid4_generate: two steps of the machine, printed through the template and closed by a zero. */
    method Generate(dst: array<char>)
      requires Valid() && 37 <= dst.Length
      modifies seed, dst
      ensures Seed() == Iterate(old(Seed()), 2)
      ensures dst[..36] == Uuid(Draw(old(Seed())))
      ensures dst[36] == '\0' && forall k :: 37 <= k < dst.Length ==> dst[k] == old(dst[k])
    {
      hide Output, LittleEndian, Next, Uuid, Iterate, UuidChar;
      var word0 := Xorshift128plus();
      var word1 := Xorshift128plus();
      IterateTwice(old(Seed()));
      Print(LittleEndian(word0) + LittleEndian(word1), dst);
    }

    method Print(b: random, dst: array<char>)
      requires 37 <= dst.Length
      modifies dst
      ensures dst[..36] == Uuid(b)
      ensures dst[36] == '\0' && forall k :: 37 <= k < dst.Length ==> dst[k] == old(dst[k])
    {
      hide UuidChar, SlotsBefore;
      FirstSlot();
      var p, i := 0, 0;
      while p < |TEMPLATE|
        invariant p <= 36 == |TEMPLATE| && i == SlotsBefore(p)
        invariant forall q :: 0 <= q < p ==> dst[q] == UuidChar(b, q)
        invariant forall k :: 37 <= k < dst.Length ==> dst[k] == old(dst[k])
      {
        TemplateShape(p);
        PrintedChar(b, p);
        if TEMPLATE[p] == 'x' {
          var n := if i % 2 == 1 then b[i / 2] / 16 else b[i / 2] % 16;
          dst[p] := CHARS[n];
          i := i + 1;
        } else if TEMPLATE[p] == 'y' {
          var n := if i % 2 == 1 then b[i / 2] / 16 else b[i / 2] % 16;
          dst[p] := CHARS[n % 4 + 8];
          i := i + 1;
        } else {
          dst[p] := TEMPLATE[p];
        }
        p := p + 1;
      }
      dst[p] := '\0';
    }
  }

  lemma IterateTwice(s: State)
    ensures Iterate(s, 2) == Next(Next(s))
  {
    hide Next;
    assert Iterate(s, 1) == Next(Iterate(s, 0));
  }

  // ---------------------------------------------------------------- one seed worked out

  /** Octet `i` of a word is digit `i` to the base 256. */
  lemma OctetIsDigit(w: word, i: nat)
    requires i < 8
    ensures LittleEndian(w)[i] == w / Power(8 * i) % 256
  {
    hide Power;
    BytePowers();
    assert w / 0x100_0000_0000_0000 < 0x100;
    assert i == 0 || i == 1 || i == 2 || i == 3 || i == 4 || i == 5 || i == 6 || i == 7;
  }

  lemma BytePowers()
    ensures Power(0) == 1 && Power(8) == 0x100 && Power(16) == 0x1_0000 && Power(24) == 0x100_0000
    ensures Power(32) == 0x1_0000_0000 && Power(40) == 0x100_0000_0000 && Power(48) == 0x1_0000_0000_0000
    ensures Power(56) == 0x100_0000_0000_0000
  {
  }

  lemma Apart(h: nat, n: nat, l: nat)
    requires l < Power(n) && h * Power(n) + l < WORD_LIMIT
    ensures XorWords(h * Power(n), l) == XorWords(l, h * Power(n)) == h * Power(n) + l
  {
    hide Xor, Power;
    XorApart(h, n, l);
    Commute(h * Power(n), l);
  }

  /** A power of two is set in a gap of a number. */
  lemma Insert(h: nat, n: nat, l: nat, k: nat)
    requires l < Power(k) && Power(k) + l < Power(n) && h * Power(n) + Power(k) + l < WORD_LIMIT
    ensures XorWords(h * Power(n) + l, Power(k)) == h * Power(n) + Power(k) + l
  {
    hide XorWords, Power;
    Apart(h, n, l);
    Apart(1, k, l);
    Apart(h, n, Power(k) + l);
    Group(h * Power(n), l, Power(k));
  }

  lemma MorePowers()
    ensures Power(10) == 0x400 && Power(20) == 0x10_0000 && Power(28) == 0x1000_0000
  {
    assert Power(14) == 0x4000;
  }

  /** Two steps from the seed with the words 1 and 32. */
  lemma TwoSteps()
    ensures Next(State(1, 32)) == State(32, 0x80_0000) && Output(State(1, 32)) == 0x80_0020
    ensures Next(State(32, 0x80_0000)) == State(0x80_0000, 0x1084_0420) && Output(State(32, 0x80_0000)) == 0x1104_0420
  {
    hide XorWords, Power;
    Powers();
    MorePowers();
    Apart(1, 23, 1);
    Twice(0x80_0001, 32);
    Twice(0x80_0000, 1);
    Apart(1, 28, 32);
    Insert(1, 28, 32, 23);
    Insert(0x108, 20, 0x20, 10);
    Insert(0x108, 20, 0x420, 18);
  }

  const DRAWN: random := [0x20, 0, 0x80, 0, 0, 0, 0, 0, 0x20, 0x04, 0x04, 0x11, 0, 0, 0, 0]

  const PRINTED: string := "02000800-0000-4000-8024-040110000000"

  lemma PrintedAt(p: nat)
    requires p < 36
    ensures UuidChar(DRAWN, p) == PRINTED[p]
  {
    hide UuidChar, Nibble, DRAWN;
    TemplateShape(p);
    PrintedChar(DRAWN, p);
    if IsSlot(TEMPLATE[p]) {
      HalfByteDrawn(SlotsBefore(p));
    }
  }

  lemma HalfByteDrawn(i: nat)
    requires i < 31
    ensures Nibble(DRAWN, i) ==
            if i == 1 || i == 17 then 2 else if i == 5 then 8 else if i == 18 || i == 20 then 4
            else if i == 22 || i == 23 then 1 else 0
  {
  }

  /** The text that they are printed as. */
  lemma KnownUuid()
    ensures Uuid(Draw(State(1, 32))) == "02000800-0000-4000-8024-040110000000"
  {
    hide Next, Output, UuidChar;
    TwoSteps();
    assert Draw(State(1, 32)) == DRAWN;
    forall p: nat | p < 36 ensures UuidChar(DRAWN, p) == PRINTED[p] {
      PrintedAt(p);
    }
  }

  // ---------------------------------------------------------------- what a UUID looks like

  predicate IsHex(c: char) { '0' <= c <= '9' || 'a' <= c <= 'f' }

  /** Sections 4.1.1, 4.1.3 and 4.4 of RFC 4122: the version digit is 4 and the variant digit has the bits 10 on top. */
  predicate IsVersion4(s: string)
  {
    |s| == 36
    && (forall p :: p in {8, 13, 18, 23} ==> s[p] == '-')
    && (forall p :: 0 <= p < 36 && p !in {8, 13, 18, 23} ==> IsHex(s[p]))
    && s[14] == '4' && s[19] in {'8', '9', 'a', 'b'}
  }

  lemma CharsAreHex(n: nat)
    requires n < 16
    ensures IsHex(CHARS[n]) && (8 <= n < 12 ==> CHARS[n] in {'8', '9', 'a', 'b'})
    ensures CHARS[n] as int == if n < 10 then '0' as int + n else 'a' as int + n - 10
  {
  }

  /** Half-byte `k` of the octets is the digit at the place that follows `k` others, dashes and version digit left out;
      the variant digit keeps its two low bits. */
  lemma DigitAt(b: random, p: nat)
    requires p < 36 && p !in {8, 13, 14, 18, 23}
    ensures var k := if p < 8 then p else if p < 13 then p - 1 else if p < 18 then p - 3 else if p < 23 then p - 4
                     else p - 5;
            var half := if k % 2 == 0 then b[k / 2] % 16 else b[k / 2] / 16;
            var digit := if p == 19 then 8 + half % 4 else half;
            Uuid(b)[p] as int == if digit < 10 then '0' as int + digit else 'a' as int + digit - 10
  {
    TemplateShape(p);
    var n := Nibble(b, SlotsBefore(p));
    CharsAreHex(n);
    CharsAreHex(n % 4 + 8);
  }

  lemma UuidIsVersion4(b: random)
    ensures IsVersion4(Uuid(b))
  {
    forall p: nat | p < 36
      ensures Uuid(b)[p] == UuidChar(b, p)
      ensures p in {8, 13, 18, 23} ==> UuidChar(b, p) == '-'
      ensures p !in {8, 13, 18, 23} ==> IsHex(UuidChar(b, p))
      ensures p == 14 ==> UuidChar(b, p) == '4'
      ensures p == 19 ==> UuidChar(b, p) in {'8', '9', 'a', 'b'}
    {
      TemplateShape(p);
      if IsSlot(TEMPLATE[p]) {
        var n := Nibble(b, SlotsBefore(p));
        CharsAreHex(n);
        CharsAreHex(n % 4 + 8);
      }
    }
  }

  // ---------------------------------------------------------------- which random bits count

  /** How many low bits of half-byte `k` reach the text. */
  function Width(k: nat): (w: nat)
    requires k < 32
    ensures w <= 4
  {
    if k == 15 then 2 else if k < 31 then 4 else 0
  }

  function TotalWidth(n: nat): nat
    requires n <= 32
  {
    if n == 0 then 0 else TotalWidth(n - 1) + Width(n - 1)
  }

  predicate SameBit(b: random, b': random, k: nat, j: nat)
    requires k < 32 && j < 4
  {
    Bit(Nibble(b, k), j) == Bit(Nibble(b', k), j)
  }

  lemma {:induction false} TotalWidthClosed(n: nat)
    requires n <= 32
    ensures TotalWidth(n) == (if n <= 15 then 4 * n else if n <= 31 then 4 * n - 2 else 122)
  {
    if n > 0 {
      TotalWidthClosed(n - 1);
    }
  }

  /** 122 of the 128 bits reach the text. */
  lemma BitsUsed()
    ensures TotalWidth(32) == 122
  {
    TotalWidthClosed(32);
  }

  lemma BitsDetermine(m: nat, n: nat)
    requires m < 16 && n < 16
    ensures (forall j: nat :: j < 4 ==> Bit(m, j) == Bit(n, j)) <==> m == n
    ensures (forall j: nat :: j < 2 ==> Bit(m, j) == Bit(n, j)) <==> m % 4 == n % 4
  {
    BitSum(m);
    BitSum(n);
    assert (forall j: nat :: j < 4 ==> Bit(m, j) == Bit(n, j)) ==>
      Bit(m, 0) == Bit(n, 0) && Bit(m, 1) == Bit(n, 1) && Bit(m, 2) == Bit(n, 2) && Bit(m, 3) == Bit(n, 3);
    hide Bit;
  }

  lemma SameQuarter(m: nat, n: nat, j: nat)
    requires m < 16 && n < 16 && j < 2 && Bit(m, j) != Bit(n, j)
    ensures m % 4 != n % 4
  {
    hide Bit;
    BitSum(m);
    BitSum(n);
    assert j == 0 || j == 1;
  }

  function One(b: bool): nat { if b then 1 else 0 }

  lemma BitSum(m: nat)
    requires m < 16
    ensures m == One(Bit(m, 0)) + 2 * One(Bit(m, 1)) + 4 * One(Bit(m, 2)) + 8 * One(Bit(m, 3))
    ensures m % 4 == One(Bit(m, 0)) + 2 * One(Bit(m, 1))
  {
    hide Bit;
    LowBits(m);
    LowBits(m / 2);
    LowBits(m / 2 / 2);
    LowBits(m / 2 / 2 / 2);
    Parts(m, m / 2, m / 2 / 2, m / 2 / 2 / 2, One(Bit(m, 0)), One(Bit(m, 1)), One(Bit(m, 2)), One(Bit(m, 3)));
  }

  lemma Parts(m: nat, half: nat, quarter: nat, eighth: nat, b0: nat, b1: nat, b2: nat, b3: nat)
    requires m < 16 && m == 2 * half + b0 && half == 2 * quarter + b1 && quarter == 2 * eighth + b2
    requires eighth % 2 == b3 && b0 < 2 && b1 < 2 && b2 < 2
    ensures m == b0 + 2 * b1 + 4 * b2 + 8 * b3 && m % 4 == b0 + 2 * b1
  {
  }

  lemma LowBits(m: nat)
    ensures m == 2 * (m / 2) + One(Bit(m, 0)) && m % 2 == One(Bit(m, 0))
    ensures Bit(m, 1) == Bit(m / 2, 0) && Bit(m, 2) == Bit(m / 2, 1) && Bit(m, 3) == Bit(m / 2, 2)
  {
  }

  lemma CharsDistinct(m: nat, n: nat)
    requires m < 16 && n < 16 && CHARS[m] == CHARS[n]
    ensures m == n
  {
  }

  /** The position of slot `k` in the template. */
  function SlotPosition(k: nat): nat
    requires k < 31
  {
    if k < 8 then k else if k < 12 then k + 1 else if k < 15 then k + 3 else if k < 19 then k + 4 else k + 5
  }

  lemma SlotAt(k: nat)
    requires k < 31
    ensures SlotPosition(k) < 36 && SlotsBefore(SlotPosition(k)) == k && IsSlot(TEMPLATE[SlotPosition(k)])
    ensures TEMPLATE[SlotPosition(k)] == 'y' <==> k == 15
  {
    TemplateShape(SlotPosition(k));
  }

  lemma SlotAgrees(b: random, b': random, k: nat)
    requires k < 31
    ensures UuidChar(b, SlotPosition(k)) == UuidChar(b', SlotPosition(k)) <==>
            forall j: nat :: j < Width(k) ==> SameBit(b, b', k, j)
  {
    hide Bit;
    SlotAt(k);
    var m, n := Nibble(b, k), Nibble(b', k);
    BitsDetermine(m, n);
    if UuidChar(b, SlotPosition(k)) == UuidChar(b', SlotPosition(k)) {
      if k == 15 {
        CharsDistinct(m % 4 + 8, n % 4 + 8);
      } else {
        CharsDistinct(m, n);
      }
    }
    assert Width(k) == if k == 15 then 2 else 4;
    assert forall j: nat :: j < 4 ==> (SameBit(b, b', k, j) <==> Bit(m, j) == Bit(n, j));
    if forall j: nat :: j < Width(k) ==> Bit(m, j) == Bit(n, j) {
      assert forall j: nat :: j < Width(k) ==> SameBit(b, b', k, j);
    } else {
      var j: nat :| j < Width(k) && Bit(m, j) != Bit(n, j);
      assert !SameBit(b, b', k, j);
      if k == 15 {
        SameQuarter(m, n, j);
      }
    }
  }

  /** Two draws give the same UUID exactly when they agree on those bits. */
  lemma DependsOnUsedBits(b: random, b': random)
    ensures Uuid(b) == Uuid(b') <==> forall k: nat, j: nat :: k < 32 && j < Width(k) ==> SameBit(b, b', k, j)
  {
    hide UuidChar, SameBit, Width, SlotsBefore;
    forall k: nat | k < 31
      ensures UuidChar(b, SlotPosition(k)) == UuidChar(b', SlotPosition(k)) <==>
              forall j: nat :: j < Width(k) ==> SameBit(b, b', k, j)
    {
      SlotAgrees(b, b', k);
    }
    LastUnused();
    if forall k: nat, j: nat :: k < 32 && j < Width(k) ==> SameBit(b, b', k, j) {
      forall p: nat | p < 36 ensures UuidChar(b, p) == UuidChar(b', p) {
        PositionOfSlot(b, b', p);
      }
    } else {
      var k: nat, j: nat :| k < 32 && j < Width(k) && !SameBit(b, b', k, j);
      assert k < 31;
      assert Uuid(b)[SlotPosition(k)] != Uuid(b')[SlotPosition(k)];
    }
  }

  lemma LastUnused()
    ensures Width(31) == 0
  {
  }

  lemma PositionOfSlot(b: random, b': random, p: nat)
    requires p < 36
    requires forall k: nat :: k < 31 ==> UuidChar(b, SlotPosition(k)) == UuidChar(b', SlotPosition(k))
    ensures UuidChar(b, p) == UuidChar(b', p)
  {
    TemplateShape(p);
    if IsSlot(TEMPLATE[p]) {
      assert SlotPosition(SlotsBefore(p)) == p;
    }
  }
}
