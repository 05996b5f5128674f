/** The streaming SHA-1 context of sha1.c, against the definition of FIPS PUB 180-1. */
module Sha1 {
  import opened Arithmetic

  type octet = bv8
  type word = bv32

  // ---------------------------------------------------------------- FIPS PUB 180-1

  datatype Digest = Digest(a: word, b: word, c: word, d: word, e: word)

  const INITIAL: Digest := Digest(0x67452301, 0xEFCDAB89, 0x98BADCFE, 0x10325476, 0xC3D2E1F0)

  /** Section 5: the logical functions. */
  function F(t: nat, b: word, c: word, d: word): word
  {
    if t < 20 then (b & c) | (!b & d)
    else if t < 40 then b ^ c ^ d
    else if t < 60 then (b & c) | (b & d) | (c & d)
    else b ^ c ^ d
  }

  /** Section 6: the constants. */
  function K(t: nat): word
  {
    if t < 20 then 0x5A827999 else if t < 40 then 0x6ED9EBA1 else if t < 60 then 0x8F1BBCDC else 0xCA62C1D6
  }

  function BigEndian(a: octet, b: octet, c: octet, d: octet): word
  {
    ((a as word) << 24) | ((b as word) << 16) | ((c as word) << 8) | (d as word)
  }

  /** Section 3: the circular left shift, and addition modulo 2^32. */
  function S(n: nat, w: word): word
    requires n < 32
  {
    w.RotateLeft(n)
  }

  function Add(a: word, b: word): word { a + b }

  function Sum(a: word, b: word, c: word, d: word, e: word): word { a + b + c + d + e }

  function Xor(a: word, b: word, c: word, d: word): word { a ^ b ^ c ^ d }

  type block = s: seq<octet> | |s| == 64 witness seq(64, _ => 0)

  /** Section 7, steps a and b: word t of the schedule. */
  function Schedule(m: block, t: nat): word
  {
    if t < 16 then BigEndian(m[4 * t], m[4 * t + 1], m[4 * t + 2], m[4 * t + 3])
    else S(1, Xor(Schedule(m, t - 3), Schedule(m, t - 8), Schedule(m, t - 14), Schedule(m, t - 16)))
  }

  function Round(h: Digest, t: nat, w: word): Digest
  {
    Digest(Sum(S(5, h.a), F(t, h.b, h.c, h.d), h.e, w, K(t)), h.a, S(30, h.b), h.c, h.d)
  }

  /** Section 7, step d: the first t rounds. */
  function Rounds(h: Digest, m: block, t: nat): Digest
  {
    if t == 0 then h else Round(Rounds(h, m, t - 1), t - 1, Schedule(m, t - 1))
  }

  function Compress(h: Digest, m: block): Digest
  {
    var r := Rounds(h, m, 80);
    Digest(Add(h.a, r.a), Add(h.b, r.b), Add(h.c, r.c), Add(h.d, r.d), Add(h.e, r.e))
  }

  /** The blocks of `data` in order. */
  function Fold(data: seq<octet>): Digest
    requires |data| % 64 == 0
  {
    if data == [] then INITIAL else Compress(Fold(data[..|data| - 64]), data[|data| - 64..])
  }

  const BITS_LIMIT: nat := 0x1_0000_0000_0000_0000

  /** The 64-bit length, most significant octet first. */
  function LengthOctets(bits: nat): seq<octet>
    requires bits < BITS_LIMIT
  {
    var hi, lo := bits / 0x1_0000_0000, bits % 0x1_0000_0000;
    WordOctets(hi) + WordOctets(lo)
  }

  function WordOctets(w: nat): (o: seq<octet>)
    requires w < 0x1_0000_0000
    ensures |o| == 4
  {
    [Octet(w / 0x100_0000), Octet(w / 0x1_0000 % 0x100), Octet(w / 0x100 % 0x100), Octet(w % 0x100)]
  }

  function Octet(n: nat): octet
    requires n < 0x100
  {
    n as octet
  }

  function Zeros(n: nat): (z: seq<octet>)
    ensures |z| == n && forall i :: 0 <= i < n ==> z[i] == 0
  {
    seq(n, _ => 0)
  }

  /** Section 4: a one bit, zero bits and the length, to a multiple of 512 bits. */
  function Padded(msg: seq<octet>): (p: seq<octet>)
    requires 8 * |msg| < BITS_LIMIT
    ensures |p| % 64 == 0
  {
    var zeros := (55 - |msg|) % 64;
    PaddedLength(|msg|);
    msg + [0x80] + Zeros(zeros) + LengthOctets(8 * |msg|)
  }

  lemma PaddedLength(n: nat)
    ensures (n + 1 + (55 - n) % 64 + 8) % 64 == 0
  {
  }

  function Sha1(msg: seq<octet>): Digest
    requires 8 * |msg| < BITS_LIMIT
  {
    Fold(Padded(msg))
  }

  // ---------------------------------------------------------------- the context

  function CircularShift(bits: nat, w: word): word
    requires 0 < bits < 32
  {
    ((w << bits) & 0xFFFF_FFFF) | (w >> (32 - bits))
  }

  // The expressions of the four loops, and their constants.
  function Choose(b: word, c: word, d: word): word { (b & c) | (!b & d) }

  function Parity(b: word, c: word, d: word): word { b ^ c ^ d }

  function Majority(b: word, c: word, d: word): word { (b & c) | (b & d) | (c & d) }

  const ROUND_CONSTANTS: seq<word> := [0x5A82_7999, 0x6ED9_EBA1, 0x8F1B_BCDC, 0xCA62_C1D6]

  lemma CircularShifts(w: word)
    ensures CircularShift(1, w) == S(1, w)
    ensures CircularShift(5, w) == S(5, w)
    ensures CircularShift(30, w) == S(30, w)
  {
  }

  /** What a context has become after some calls. */
  datatype State = Absorbing(msg: seq<octet>) | Finished(msg: seq<octet>) | Corrupt

  const WORD_LIMIT: nat := 0x1_0000_0000

  class Context {
    const digest: array<word>
    var lengthLow: nat
    var lengthHigh: nat
    const messageBlock: array<octet>
    var index: nat
    var computed: bool
    var corrupted: bool
    ghost var msg: seq<octet>    // the octets taken since the last reset

    ghost predicate Shape()
      reads this, digest, messageBlock
    {
      digest.Length == 5 && messageBlock.Length == 64 && lengthLow < WORD_LIMIT && lengthHigh < WORD_LIMIT
    }

    ghost function Words(): Digest
      requires digest.Length == 5
      reads digest
    {
      Digest(digest[0], digest[1], digest[2], digest[3], digest[4])
    }

    /** The block index is below 64 between calls; while nothing went wrong, the length words hold the number of bits
        taken, the digest is the fold of the whole blocks, and the buffer starts with the rest. */
    ghost predicate Valid()
      reads this, digest, messageBlock
    {
      Shape() && index < 64
      && (!corrupted && !computed ==> Taken())
      && (!corrupted && computed ==> 8 * |msg| < BITS_LIMIT && Words() == Sha1(msg))
    }

    ghost predicate Taken()
      reads this, digest, messageBlock
    {
      Shape() && index < 64
      && lengthHigh * WORD_LIMIT + lengthLow == 8 * |msg|
      && index <= |msg| && (|msg| - index) % 64 == 0
      && Words() == Fold(msg[..|msg| - index])
      && messageBlock[..index] == msg[|msg| - index..]
    }

    ghost function State(): State
      reads this
    {
      if corrupted then Corrupt else if computed then Finished(msg) else Absorbing(msg)
    }

    constructor ()
      ensures Valid() && State() == Absorbing([]) && fresh(digest) && fresh(messageBlock)
    {
      digest, messageBlock := new word[5], new octet[64];
      lengthLow, lengthHigh, index, computed, corrupted, msg := 0, 0, 0, false, false, [];
      new;
      Reset();
    }

    /** SHA1Reset. */
    method Reset()
      requires Shape()
      modifies this, digest
      ensures Valid() && State() == Absorbing([])
    {
      hide Fold, Sha1, Words;
      lengthLow := 0;
      lengthHigh := 0;
      index := 0;
      InitialDigest();
      computed := false;
      corrupted := false;
      msg := [];
      FoldNothing();
      assert msg[..|msg| - index] == [] && messageBlock[..index] == [] && msg[|msg| - index..] == [];
    }

    // The five assignments to Message_Digest.
    method InitialDigest()
      requires digest.Length == 5
      modifies digest
      ensures Words() == INITIAL
    {
      digest[0] := 0x67452301;
      digest[1] := 0xEFCDAB89;
      digest[2] := 0x98BADCFE;
      digest[3] := 0x10325476;
      digest[4] := 0xC3D2E1F0;
    }

    /** SHA1Result: repeated results leave everything as it is. */
    method Result() returns (ok: bool)
      requires Valid()
      modifies this, digest, messageBlock
      ensures Valid() && (ok <==> !corrupted)
      ensures State() == StepResult(old(State()))
      ensures ok ==> var d := Sha1(msg); digest[..] == [d.a, d.b, d.c, d.d, d.e]
      ensures old(computed || corrupted) ==> digest[..] == old(digest[..])
    {
      hide Words, Sha1, Fold;
      if corrupted {
        return false;
      }
      if !computed {
        PadMessage();
        computed := true;
      }
      WordsInOrder();
      return true;
    }

    lemma WordsInOrder()
      requires digest.Length == 5
      ensures digest[..] == [Words().a, Words().b, Words().c, Words().d, Words().e]
    {
    }

    /** SHA1Input: octet by octet, until the bit count passes 64 bits. */
    method Input(message: seq<octet>)
      requires Valid() && |message| < WORD_LIMIT
      modifies this, digest, messageBlock
      ensures Valid() && State() == StepInput(old(State()), message)
    {
      hide Words, Sha1, Fold;
      if |message| == 0 {
        return;
      }
      if computed || corrupted {
        corrupted := true;
        return;
      }
      var i := 0;
      ghost var before := msg;
      assert before + message[..0] == before;
      while i < |message| && !corrupted
        invariant i <= |message| && !computed && Valid()
        invariant !corrupted ==> msg == before + message[..i]
        invariant corrupted <==> 8 * (|before| + i) >= BITS_LIMIT
      {
        assert before + message[..i + 1] == before + message[..i] + [message[i]];
        TakeOctet(message[i]);
        i := i + 1;
      }
      assert !corrupted ==> message[..i] == message;
    }

    /** One turn of the loop of SHA1Input. */
    method TakeOctet(o: octet)
      requires Valid() && !computed && !corrupted
      modifies this, digest, messageBlock
      ensures Valid() && !computed && msg == old(msg) + [o]
      ensures corrupted <==> 8 * |msg| >= BITS_LIMIT
    {
      hide Fold, Compress, Sha1;
      ghost var rest := |msg| - index;
      StoreOctet(o);
      CountOctet();
      msg := msg + [o];
      assert msg[..rest] == old(msg)[..rest] && msg[rest..] == old(msg)[rest..] + [o];
      FlushFull(rest);
    }

    // A block that is full is processed at once.
    method FlushFull(ghost rest: nat)
      requires Shape() && index <= 64 && rest + index == |msg| && rest % 64 == 0 && !computed
      requires Words() == Fold(msg[..rest]) && messageBlock[..index] == msg[rest..]
      requires !corrupted ==> lengthHigh * WORD_LIMIT + lengthLow == 8 * |msg|
      modifies digest, this`index
      ensures Valid()
    {
      hide Fold, Compress, Sha1;
      if index == 64 {
        FlushBlock(rest);
      }
    }

    method StoreOctet(o: octet)
      requires Shape() && index < 64
      modifies messageBlock, this`index
      ensures index == old(index) + 1 && messageBlock[..index] == old(messageBlock[..index]) + [o]
    {
      messageBlock[index] := o;
      index := index + 1;
    }

    /** The length words go up by eight bits; the message is too long when the high word comes back to zero. */
    method CountOctet()
      requires Shape() && lengthHigh * WORD_LIMIT + lengthLow == 8 * |msg| && !corrupted
      modifies this`lengthLow, this`lengthHigh, this`corrupted
      ensures Shape() && (corrupted <==> 8 * (|msg| + 1) >= BITS_LIMIT)
      ensures !corrupted ==> lengthHigh * WORD_LIMIT + lengthLow == 8 * (|msg| + 1)
    {
      LengthCarry(lengthLow, lengthHigh, |msg|);
      lengthLow := (lengthLow + 8) % WORD_LIMIT;
      if lengthLow == 0 {
        lengthHigh := (lengthHigh + 1) % WORD_LIMIT;
        if lengthHigh == 0 {
          corrupted := true;  // the message is too long
        }
      }
    }

    /** A full buffer is compressed into the digest. */
    method FlushBlock(ghost rest: nat)
      requires Shape() && index == 64 && rest + 64 == |msg| && rest % 64 == 0 && Words() == Fold(msg[..rest])
               && messageBlock[..64] == msg[rest..]
      modifies digest, this`index
      ensures Shape() && index == 0 && Words() == Fold(msg[..|msg|]) && messageBlock[..0] == msg[|msg|..]
    {
      hide Compress, Fold;
      assert messageBlock[..] == messageBlock[..64];
      ProcessMessageBlock();
      FoldAppend(msg[..rest], messageBlock[..]);
      assert msg[..|msg|] == msg[..rest] + messageBlock[..];
    }

    // ---------------------------------------------------------------- the block function

    /** SHA1ProcessMessageBlock. */
    method ProcessMessageBlock()
      requires Shape()
      modifies digest, this`index
      ensures Words() == Compress(old(Words()), messageBlock[..]) && index == 0
    {
      hide Rounds, Schedule, Add;
      var w := new word[80];
      var m := FillSchedule(w);
      ghost var h := Words();
      RoundsNone(h, m);
      var r := Digest(digest[0], digest[1], digest[2], digest[3], digest[4]);
      var k := [0x5A82_7999, 0x6ED9_EBA1, 0x8F1B_BCDC, 0xCA62_C1D6];
      r := FirstRounds(w, k, r, h, m);
      r := SecondRounds(w, k, r, h, m);
      r := ThirdRounds(w, k, r, h, m);
      r := LastRounds(w, k, r, h, m);
      digest[0] := Add(digest[0], r.a);
      digest[1] := Add(digest[1], r.b);
      digest[2] := Add(digest[2], r.c);
      digest[3] := Add(digest[3], r.d);
      digest[4] := Add(digest[4], r.e);
      index := 0;
    }

    /** The first two loops: the 80 words of the schedule. */
    method FillSchedule(w: array<word>) returns (ghost m: block)
      requires Shape() && w.Length == 80 && w != digest
      modifies w
      ensures m == messageBlock[..] && forall t :: 0 <= t < 80 ==> w[t] == Schedule(m, t)
    {
      hide Schedule, Xor, CircularShift;
      m := messageBlock[..];
      FillFirst(w, m);
      var t := 16;
      while t < 80
        invariant 16 <= t <= 80 && forall k :: 0 <= k < t ==> w[k] == Schedule(m, k)
      {
        ScheduleStep(m, t);
        w[t] := CircularShift(1, Xor(w[t - 3], w[t - 8], w[t - 14], w[t - 16]));
        t := t + 1;
      }
    }

    method FillFirst(w: array<word>, ghost m: block)
      requires Shape() && w.Length == 80 && w != digest && m == messageBlock[..]
      modifies w
      ensures forall t :: 0 <= t < 16 ==> w[t] == Schedule(m, t)
    {
      hide Schedule, BigEndian;
      var t := 0;
      while t < 16
        invariant 0 <= t <= 16 && forall k :: 0 <= k < t ==> w[k] == Schedule(m, k)
      {
        ScheduleFirst(m, t);
        w[t] := Assemble(messageBlock[t * 4], messageBlock[t * 4 + 1], messageBlock[t * 4 + 2],
                         messageBlock[t * 4 + 3]);
        t := t + 1;
      }
    }

    // The four assignments to W[t].
    static method Assemble(a: octet, b: octet, c: octet, d: octet) returns (w: word)
      ensures w == BigEndian(a, b, c, d)
    {
      w := (a as word) << 24;
      w := w | ((b as word) << 16);
      w := w | ((c as word) << 8);
      w := w | (d as word);
    }

    /** One of the four loops of twenty rounds. */
    // The first of the four loops of twenty rounds.
    method FirstRounds(w: array<word>, k: seq<word>, r0: Digest, ghost h: Digest, ghost m: block) returns (r: Digest)
      requires w.Length == 80 && k == ROUND_CONSTANTS && forall t :: 0 <= t < 80 ==> w[t] == Schedule(m, t)
      requires r0 == Rounds(h, m, 0)
      ensures r == Rounds(h, m, 20)
    {
      hide Schedule, Rounds, Round, Choose;
      var a, b, c, d, e := r0.a, r0.b, r0.c, r0.d, r0.e;
      var t := 0;
      while t < 20
        invariant 0 <= t <= 20 && Digest(a, b, c, d, e) == Rounds(h, m, t)
      {
        hide CircularShift, Sum;
        RoundStep(h, m, t);
        RoundCode(Digest(a, b, c, d, e), t, w[t]);
        var temp := Sum(CircularShift(5, a), Choose(b, c, d), e, w[t], k[0]);
        e := d;
        d := c;
        c := CircularShift(30, b);
        b := a;
        a := temp;
        t := t + 1;
      }
      r := Digest(a, b, c, d, e);
    }

    // The second loop.
    method SecondRounds(w: array<word>, k: seq<word>, r0: Digest, ghost h: Digest, ghost m: block) returns (r: Digest)
      requires w.Length == 80 && k == ROUND_CONSTANTS && forall t :: 0 <= t < 80 ==> w[t] == Schedule(m, t)
      requires r0 == Rounds(h, m, 20)
      ensures r == Rounds(h, m, 40)
    {
      hide Schedule, Rounds, Round, Parity;
      var a, b, c, d, e := r0.a, r0.b, r0.c, r0.d, r0.e;
      var t := 20;
      while t < 40
        invariant 20 <= t <= 40 && Digest(a, b, c, d, e) == Rounds(h, m, t)
      {
        hide CircularShift, Sum;
        RoundStep(h, m, t);
        RoundCode(Digest(a, b, c, d, e), t, w[t]);
        var temp := Sum(CircularShift(5, a), Parity(b, c, d), e, w[t], k[1]);
        e := d;
        d := c;
        c := CircularShift(30, b);
        b := a;
        a := temp;
        t := t + 1;
      }
      r := Digest(a, b, c, d, e);
    }

    // The third loop.
    method ThirdRounds(w: array<word>, k: seq<word>, r0: Digest, ghost h: Digest, ghost m: block) returns (r: Digest)
      requires w.Length == 80 && k == ROUND_CONSTANTS && forall t :: 0 <= t < 80 ==> w[t] == Schedule(m, t)
      requires r0 == Rounds(h, m, 40)
      ensures r == Rounds(h, m, 60)
    {
      hide Schedule, Rounds, Round, Majority;
      var a, b, c, d, e := r0.a, r0.b, r0.c, r0.d, r0.e;
      var t := 40;
      while t < 60
        invariant 40 <= t <= 60 && Digest(a, b, c, d, e) == Rounds(h, m, t)
      {
        hide CircularShift, Sum;
        RoundStep(h, m, t);
        RoundCode(Digest(a, b, c, d, e), t, w[t]);
        var temp := Sum(CircularShift(5, a), Majority(b, c, d), e, w[t], k[2]);
        e := d;
        d := c;
        c := CircularShift(30, b);
        b := a;
        a := temp;
        t := t + 1;
      }
      r := Digest(a, b, c, d, e);
    }

    // The last loop.
    method LastRounds(w: array<word>, k: seq<word>, r0: Digest, ghost h: Digest, ghost m: block) returns (r: Digest)
      requires w.Length == 80 && k == ROUND_CONSTANTS && forall t :: 0 <= t < 80 ==> w[t] == Schedule(m, t)
      requires r0 == Rounds(h, m, 60)
      ensures r == Rounds(h, m, 80)
    {
      hide Schedule, Rounds, Round, Parity;
      var a, b, c, d, e := r0.a, r0.b, r0.c, r0.d, r0.e;
      var t := 60;
      while t < 80
        invariant 60 <= t <= 80 && Digest(a, b, c, d, e) == Rounds(h, m, t)
      {
        hide CircularShift, Sum;
        RoundStep(h, m, t);
        RoundCode(Digest(a, b, c, d, e), t, w[t]);
        var temp := Sum(CircularShift(5, a), Parity(b, c, d), e, w[t], k[3]);
        e := d;
        d := c;
        c := CircularShift(30, b);
        b := a;
        a := temp;
        t := t + 1;
      }
      r := Digest(a, b, c, d, e);
    }

    // ---------------------------------------------------------------- padding

    /** SHA1PadMessage: one block, or two when fewer than nine octets are free. */
    method PadMessage()
      requires Valid() && !computed && !corrupted && 8 * |msg| < BITS_LIMIT
      modifies this`index, digest, messageBlock
      ensures Shape() && index == 0 && Words() == Sha1(msg)
    {
      hide Fold, Compress, LengthOctets, Zeros;
      ghost var first := PadBuffer();
      StoreLength();
      ProcessMessageBlock();
      FoldAppend(first, messageBlock[..]);
      PaddedParts(msg, first, messageBlock[..]);
    }

    /** Up to the length: the one bit and the zeros, with the first block flushed when they do not fit. */
    method PadBuffer() returns (ghost first: seq<octet>)
      requires Valid() && !computed && !corrupted && 8 * |msg| < BITS_LIMIT
      modifies this`index, digest, messageBlock
      ensures Shape() && index == 56 && |first| % 64 == 0 && Words() == Fold(first)
      ensures first + messageBlock[..56] == msg + [0x80] + Zeros((55 - |msg|) % 64)
    {
      hide Fold, Compress, Zeros;
      ghost var tail := messageBlock[..index];
      ghost var whole := msg[..|msg| - index];
      assert msg == whole + tail;
      var long := index > 55;
      ZeroCount(|msg|, index);
      StoreOctet(0x80);
      first := FillPadding(long, whole, tail);
    }

    // The zeros after the one bit.
    method FillPadding(long: bool, ghost whole: seq<octet>, ghost tail: seq<octet>) returns (ghost first: seq<octet>)
      requires Shape() && |whole| % 64 == 0 && Words() == Fold(whole)
      requires |tail| < 64 && index == |tail| + 1 && messageBlock[..index] == tail + [0x80] && long == (|tail| > 55)
      modifies this`index, digest, messageBlock
      ensures Shape() && index == 56 && |first| % 64 == 0 && Words() == Fold(first)
      ensures first + messageBlock[..56]
              == whole + tail + [0x80] + Zeros(if long then 63 - |tail| + 56 else 55 - |tail|)
    {
      hide Fold, Compress, Zeros;
      if long {
        FillZeros(64);
        assert messageBlock[..] == messageBlock[..64];
        PaddedText(whole, tail, 63 - |tail|, 56);
        first := FlushPadding(whole);
        FillZeros(56);
        NoOctets(Zeros(56));
      } else {
        first := whole;
        FillZeros(56);
        PaddedText(whole, tail, 55 - |tail|, 0);
        NoOctets(first + messageBlock[..56]);
      }
    }

    // SHA1ProcessMessageBlock in the middle of the padding.
    method FlushPadding(ghost before: seq<octet>) returns (ghost first: seq<octet>)
      requires Shape() && |before| % 64 == 0 && Words() == Fold(before)
      modifies this`index, digest, messageBlock
      ensures Shape() && index == 0 && first == before + old(messageBlock[..]) && Words() == Fold(first)
    {
      hide Fold, Compress;
      ProcessMessageBlock();
      FoldAppend(before, old(messageBlock[..]));
      first := before + old(messageBlock[..]);
    }

    // The buffer is filled with zero octets up to `end`.
    method FillZeros(end: nat)
      requires Shape() && index <= end <= 64
      modifies this`index, messageBlock
      ensures index == end && messageBlock[..end] == old(messageBlock[..index]) + Zeros(end - old(index))
    {
      ghost var start := index;
      while index < end
        invariant start <= index <= end && messageBlock[..index] == old(messageBlock[..index]) + Zeros(index - start)
      {
        messageBlock[index] := 0;
        index := index + 1;
      }
    }

    /** The length goes into the last eight octets. */
    method StoreLength()
      requires Shape() && lengthHigh * WORD_LIMIT + lengthLow == 8 * |msg|
      modifies messageBlock
      ensures messageBlock[..56] == old(messageBlock[..56]) && messageBlock[56..] == LengthOctets(8 * |msg|)
    {
      hide WordOctets;
      StoreWord(56, lengthHigh);
      ghost var high := messageBlock[56..60];
      StoreWord(60, lengthLow);
      assert messageBlock[56..60] == high;
      DivMod(8 * |msg|, WORD_LIMIT, lengthHigh, lengthLow);
      assert messageBlock[56..] == messageBlock[56..60] + messageBlock[60..64];
    }

    // Four of the eight assignments.
    method StoreWord(at: nat, w: nat)
      requires Shape() && at + 4 <= 64 && w < WORD_LIMIT
      modifies messageBlock
      ensures messageBlock[at..at + 4] == WordOctets(w)
      ensures forall i :: 0 <= i < 64 && !(at <= i < at + 4) ==> messageBlock[i] == old(messageBlock[i])
    {
      messageBlock[at] := (w / 0x100_0000 % 0x100) as octet;
      messageBlock[at + 1] := (w / 0x1_0000 % 0x100) as octet;
      messageBlock[at + 2] := (w / 0x100 % 0x100) as octet;
      messageBlock[at + 3] := (w % 0x100) as octet;
    }
  }

  lemma RoundsNone(h: Digest, m: block)
    ensures Rounds(h, m, 0) == h
  {
  }

  lemma RoundStep(h: Digest, m: block, t: nat)
    ensures Rounds(h, m, t + 1) == Round(Rounds(h, m, t), t, Schedule(m, t))
  {
  }

  /** The round of the code, with its circular shifts written out. */
  /** A round, with the function and the constant of its loop. */
  lemma RoundCode(r: Digest, t: nat, w: word)
    requires t < 80
    ensures Round(r, t, w) ==
            Digest(Sum(CircularShift(5, r.a), LoopFunction(t, r.b, r.c, r.d), r.e, w, ROUND_CONSTANTS[t / 20]),
                   r.a, CircularShift(30, r.b), r.c, r.d)
  {
    hide CircularShift, S, Sum, F, K, LoopFunction, ROUND_CONSTANTS;
    CircularShifts(r.a);
    CircularShifts(r.b);
    LoopFunctions(t, r.b, r.c, r.d);
    LoopConstants(t);
  }

  function LoopFunction(t: nat, b: word, c: word, d: word): word
  {
    if t < 20 then Choose(b, c, d) else if 40 <= t < 60 then Majority(b, c, d) else Parity(b, c, d)
  }

  lemma LoopFunctions(t: nat, b: word, c: word, d: word)
    ensures F(t, b, c, d) == LoopFunction(t, b, c, d)
  {
    if t < 20 {
    } else if t < 40 {
    } else if t < 60 {
    }
  }

  lemma LoopConstants(t: nat)
    requires t < 80
    ensures K(t) == ROUND_CONSTANTS[t / 20]
  {
  }

  lemma ScheduleFirst(m: block, t: nat)
    requires t < 16
    ensures Schedule(m, t) == BigEndian(m[4 * t], m[4 * t + 1], m[4 * t + 2], m[4 * t + 3])
  {
  }

  lemma ScheduleStep(m: block, t: nat)
    requires 16 <= t
    ensures Schedule(m, t)
            == CircularShift(1, Xor(Schedule(m, t - 3), Schedule(m, t - 8), Schedule(m, t - 14), Schedule(m, t - 16)))
  {
    hide CircularShift, S, Xor;
    CircularShifts(Xor(Schedule(m, t - 3), Schedule(m, t - 8), Schedule(m, t - 14), Schedule(m, t - 16)));
  }

  /** How many zeros the standard asks for, in terms of the octets left in the buffer. */
  lemma ZeroCount(n: nat, index: nat)
    requires index < 64 && index <= n && (n - index) % 64 == 0
    ensures (55 - n) % 64 == if index > 55 then 63 - index + 56 else 55 - index
  {
  }

  lemma PaddedText(whole: seq<octet>, tail: seq<octet>, a: nat, b: nat)
    ensures whole + (tail + [0x80] + Zeros(a)) + Zeros(b) == whole + tail + [0x80] + Zeros(a + b)
  {
    assert Zeros(a) + Zeros(b) == Zeros(a + b);
  }

  lemma NoOctets(s: seq<octet>)
    ensures s + Zeros(0) == s && [] + s == s
  {
  }

  lemma PaddedParts(msg: seq<octet>, first: seq<octet>, last: block)
    requires 8 * |msg| < BITS_LIMIT && first + last[..56] == msg + [0x80] + Zeros((55 - |msg|) % 64)
    requires last[56..] == LengthOctets(8 * |msg|)
    ensures first + last == Padded(msg)
  {
    hide Zeros, LengthOctets;
    assert first + last == first + last[..56] + last[56..];
  }

  lemma FoldNothing()
    ensures Fold([]) == INITIAL
  {
  }

  lemma FoldAppend(data: seq<octet>, m: block)
    requires |data| % 64 == 0
    ensures Fold(data + m) == Compress(Fold(data), m)
  {
    var all := data + m;
    assert all[..|all| - 64] == data && all[|all| - 64..] == m;
  }

  /** Adding eight bits with the carry of the code: the high word comes back to zero exactly at 2^64 bits. */
  lemma LengthCarry(low: nat, high: nat, n: nat)
    requires low < WORD_LIMIT && high < WORD_LIMIT && high * WORD_LIMIT + low == 8 * n
    ensures var low' := (low + 8) % WORD_LIMIT;
            var high' := if low' == 0 then (high + 1) % WORD_LIMIT else high;
            var over := low' == 0 && high' == 0;
            (over <==> 8 * (n + 1) >= BITS_LIMIT) && (!over ==> high' * WORD_LIMIT + low' == 8 * (n + 1))
  {
    assert low % 8 == 0;
    assert low + 8 <= WORD_LIMIT;
  }

  // ---------------------------------------------------------------- runs

  datatype Call = Reset | Input(message: seq<octet>) | Result

  function StepInput(s: State, message: seq<octet>): State
  {
    if message == [] then s
    else match s
      case Absorbing(msg) => if 8 * (|msg| + |message|) >= BITS_LIMIT then Corrupt else Absorbing(msg + message)
      case _ => Corrupt
  }

  function StepResult(s: State): State
  {
    if s.Absorbing? then Finished(s.msg) else s
  }

  function Step(s: State, c: Call): State
  {
    match c
    case Reset => Absorbing([])
    case Input(message) => StepInput(s, message)
    case Result => StepResult(s)
  }

  function Run(s: State, calls: seq<Call>): State
    decreases |calls|
  {
    if calls == [] then s else assert |calls[1..]| < |calls|; Run(Step(s, calls[0]), calls[1..])
  }

  /** The octets of all inputs, in order. */
  function Octets(calls: seq<Call>): seq<octet>
  {
    if calls == [] then []
    else Octets(calls[..|calls| - 1]) + (if calls[|calls| - 1].Input? then calls[|calls| - 1].message else [])
  }

  predicate ResetFree(calls: seq<Call>)
  {
    forall i :: 0 <= i < |calls| ==> !calls[i].Reset?
  }

  lemma {:induction false} RunLast(s: State, calls: seq<Call>)
    requires calls != []
    ensures Run(s, calls) == Step(Run(s, calls[..|calls| - 1]), calls[|calls| - 1])
    decreases |calls|
  {
    if |calls| > 1 {
      RunLast(Step(s, calls[0]), calls[1..]);
      assert calls[1..][..|calls| - 2] == calls[..|calls| - 1][1..];
    }
  }

  /** However a message is cut into inputs, the context takes the same octets, or is corrupted by their number. */
  lemma {:induction false} AnyChunking(calls: seq<Call>)
    requires forall i :: 0 <= i < |calls| ==> calls[i].Input?
    ensures var s := Run(Absorbing([]), calls);
            s == if 8 * |Octets(calls)| < BITS_LIMIT then Absorbing(Octets(calls)) else Corrupt
    decreases |calls|
  {
    if calls != [] {
      AnyChunking(calls[..|calls| - 1]);
      RunLast(Absorbing([]), calls);
      if calls[|calls| - 1].message == [] {
        assert Octets(calls) == Octets(calls[..|calls| - 1]);
      }
    }
  }

  /** An input with content after a result, or one that brings the count to 2^64 bits. */
  predicate Corrupting(calls: seq<Call>, i: nat)
    requires i < |calls|
  {
    calls[i].Input? && calls[i].message != []
    && ((exists j :: 0 <= j < i && calls[j].Result?) || 8 * |Octets(calls[..i + 1])| >= BITS_LIMIT)
  }

  /** From a reset, a run of inputs and results corrupts the context exactly when one of its calls is corrupting, and
      otherwise has taken exactly the octets of the inputs. */
  lemma {:induction false} CorruptExactly(calls: seq<Call>)
    requires ResetFree(calls)
    ensures var s := Run(Absorbing([]), calls);
            (s.Corrupt? <==> exists i :: 0 <= i < |calls| && Corrupting(calls, i))
            && (!s.Corrupt? ==> s.msg == Octets(calls) && 8 * |s.msg| < BITS_LIMIT
                                && (s.Finished? <==> exists j :: 0 <= j < |calls| && calls[j].Result?))
    decreases |calls|
  {
    if calls != [] {
      var n := |calls| - 1;
      var front := calls[..n];
      CorruptExactly(front);
      RunLast(Absorbing([]), calls);
      assert calls[..n + 1] == calls;
      forall i | 0 <= i < n ensures Corrupting(calls, i) <==> Corrupting(front, i) {
        assert calls[..i + 1] == front[..i + 1];
        assert forall j :: 0 <= j < i ==> calls[j] == front[j];
      }
      forall j | 0 <= j < n ensures calls[j] == front[j] {
      }
      CorruptLast(calls);
    }
  }

  // The last call of a run, by cases on its kind.
  lemma CorruptLast(calls: seq<Call>)
    requires calls != [] && ResetFree(calls)
    requires var n := |calls| - 1;
             var s := Run(Absorbing([]), calls[..n]);
             (!s.Corrupt? ==> s.msg == Octets(calls[..n]) && 8 * |s.msg| < BITS_LIMIT
                              && (s.Finished? <==> exists j :: 0 <= j < n && calls[j].Result?))
    ensures var n := |calls| - 1;
            var s := Run(Absorbing([]), calls[..n]);
            var s' := Step(s, calls[n]);
            (s'.Corrupt? <==> s.Corrupt? || Corrupting(calls, n))
            && (!s'.Corrupt? ==> s'.msg == Octets(calls) && 8 * |s'.msg| < BITS_LIMIT
                                 && (s'.Finished? <==> s.Finished? || calls[n].Result?))
  {
    var n := |calls| - 1;
    assert calls[..n + 1] == calls;
    assert Octets(calls[..n]) + [] == Octets(calls[..n]);
  }

  /** Only a reset clears the corrupted flag, and it clears it whatever happened before. */
  lemma {:induction false} OnlyResetClears(calls: seq<Call>)
    ensures Run(Corrupt, calls).Corrupt? <== ResetFree(calls)
    ensures calls != [] && calls[|calls| - 1].Reset? ==> forall s :: Run(s, calls) == Absorbing([])
    decreases |calls|
  {
    if calls != [] {
      OnlyResetClears(calls[..|calls| - 1]);
      RunLast(Corrupt, calls);
      forall s ensures calls[|calls| - 1].Reset? ==> Run(s, calls) == Absorbing([]) {
        RunLast(s, calls);
      }
    }
  }

  // ---------------------------------------------------------------- the constants and the padding of the standard

  /** Section 6: the constants are the square roots of 2, 3, 5 and 10, times 2^30 and rounded down. */
  lemma ConstantsAreRoots(t: nat)
    requires t < 80
    ensures var n := if t < 20 then 2 else if t < 40 then 3 else if t < 60 then 5 else 10;
            K(t) as int * K(t) as int <= n * 0x1000_0000_0000_0000 < (K(t) as int + 1) * (K(t) as int + 1)
  {
    if t < 20 {
      assert K(t) as int == 0x5A82_7999;
    } else if t < 40 {
      assert K(t) as int == 0x6ED9_EBA1;
    } else if t < 60 {
      assert K(t) as int == 0x8F1B_BCDC;
    } else {
      assert K(t) as int == 0xCA62_C1D6;
    }
  }

  /** The number that octets denote, most significant first. */
  function Denotes(s: seq<octet>): nat
  {
    if s == [] then 0 else 256 * Denotes(s[..|s| - 1]) + Value(s[|s| - 1])
  }

  lemma OctetDenotes(n: nat)
    requires n < 0x100
    ensures Value(Octet(n)) == n
  {
    hide Value, Octet;
    BackAndForth(n);
    OctetIs(n);
  }

  lemma OctetIs(n: nat)
    requires n < 0x100
    ensures Octet(n) == n as octet && Value(Octet(n)) == (n as octet) as int
  {
  }

  function Value(o: octet): nat { o as int }

  lemma Base256(w: nat)
    ensures w == ((w / 0x100_0000 * 0x100 + w / 0x1_0000 % 0x100) * 0x100 + w / 0x100 % 0x100) * 0x100 + w % 0x100
  {
    assert w / 0x100 / 0x100 == w / 0x1_0000 && w / 0x1_0000 / 0x100 == w / 0x100_0000;
  }

  lemma DenotesNext(s: seq<octet>, n: nat)
    requires n < |s|
    ensures Denotes(s[..n + 1]) == 256 * Denotes(s[..n]) + Value(s[n])
  {
    assert s[..n + 1][..n] == s[..n];
  }

  lemma WordDenotes(w: nat, before: seq<octet>)
    requires w < 0x1_0000_0000
    ensures Denotes(before + WordOctets(w)) == 0x1_0000_0000 * Denotes(before) + w
  {
    hide Octet, Denotes, Value;
    Base256(w);
    var s := before + WordOctets(w);
    OctetDenotes(w / 0x100_0000);
    OctetDenotes(w / 0x1_0000 % 0x100);
    OctetDenotes(w / 0x100 % 0x100);
    OctetDenotes(w % 0x100);
    var n := |before|;
    assert s[..n] == before && s[..n + 4] == s;
    DenotesNext(s, n);
    DenotesNext(s, n + 1);
    DenotesNext(s, n + 2);
    DenotesNext(s, n + 3);
  }

  /** Section 4: the padded message is the message, a one bit, fewer than 512 zero bits, and the length in 64 bits. */
  lemma PaddedExactly(msg: seq<octet>)
    requires 8 * |msg| < BITS_LIMIT
    ensures var p := Padded(msg);
            var n := |p| - 8;
            && |msg| < n && msg + [0x80] <= p && |p| % 64 == 0 && |p| - |msg| < 9 + 64
            && (forall i :: |msg| < i < n ==> p[i] == 0) && Denotes(p[n..]) == 8 * |msg|
  {
    hide WordOctets;
    var p := Padded(msg);
    var bits := 8 * |msg|;
    var hi, lo := bits / 0x1_0000_0000, bits % 0x1_0000_0000;
    assert p[|p| - 8..] == LengthOctets(bits);
    assert [] + WordOctets(hi) == WordOctets(hi);
    WordDenotes(hi, []);
    WordDenotes(lo, WordOctets(hi));
  }
}
