/** UTF-8 as deps/json/jsoncpp.cpp encodes and decodes it, against the table of section 4 of RFC 3629.
    Masks and shifts by constants are written as `%` and `/` by powers of two. */
module Utf8 {
  import opened Arithmetic
  import opened ByteStrings

  const REPLACEMENT: nat := 0xFFFD

  /** A Unicode scalar value: a code point that is not a surrogate. */
  predicate IsScalar(cp: nat) { cp < 0xD800 || 0xE000 <= cp < 0x110000 }

  /** codePointToUTF8: empty above U+10FFFF. */
  function CodePointToUtf8(cp: nat): bytes
  {
    if cp <= 0x7F then [cp]
    else if cp <= 0x7FF then [0xC0 + cp / 64 % 32, 0x80 + cp % 64]
    else if cp <= 0xFFFF then [0xE0 + cp / 4096 % 16, 0x80 + cp / 64 % 64, 0x80 + cp % 64]
    else if cp <= 0x10FFFF then
      [0xF0 + cp / 262144 % 8, 0x80 + cp / 4096 % 64, 0x80 + cp / 64 % 64, 0x80 + cp % 64]
    else []
  }

  /** utf8ToCodepoint: the code point read at the front of `s`, and how many bytes the caller's loop consumes
      (the cursor's own advance plus the loop's increment). */
  function Utf8ToCodepoint(s: bytes): (r: (nat, nat))
    requires s != []
    ensures 1 <= r.1 <= 4 && r.1 <= |s|
  {
    var first := s[0];
    if first < 0x80 then (first, 1)
    else if first < 0xE0 then
      if |s| < 2 then (REPLACEMENT, 1)
      else
        var cp := first % 32 * 64 + s[1] % 64;
        (if cp < 0x80 then REPLACEMENT else cp, 2)
    else if first < 0xF0 then
      if |s| < 3 then (REPLACEMENT, 1)
      else
        var cp := first % 16 * 4096 + s[1] % 64 * 64 + s[2] % 64;
        (if 0xD800 <= cp <= 0xDFFF then REPLACEMENT else if cp < 0x800 then REPLACEMENT else cp, 3)
    else if first < 0xF8 then
      if |s| < 4 then (REPLACEMENT, 1)
      else
        var cp := first % 8 * 262144 + s[1] % 64 * 4096 + s[2] % 64 * 64 + s[3] % 64;
        (if cp < 0x10000 then REPLACEMENT else cp, 4)
    else (REPLACEMENT, 1)
  }

  predicate Tail(c: byte) { 0x80 <= c <= 0xBF }

  /** The length of the well-formed UTF-8 unit at the front of `s` (section 4 of RFC 3629); 0 when there is none. */
  function UnitLength(s: bytes): (n: nat)
    ensures n <= 4 && n <= |s|
  {
    if |s| >= 1 && s[0] <= 0x7F then 1
    else if |s| >= 2 && 0xC2 <= s[0] <= 0xDF && Tail(s[1]) then 2
    else if |s| >= 3 && Tail(s[1]) && Tail(s[2])
      && (if s[0] == 0xE0 then 0xA0 <= s[1] else if s[0] == 0xED then s[1] <= 0x9F else 0xE1 <= s[0] <= 0xEF) then 3
    else if |s| >= 4 && Tail(s[1]) && Tail(s[2]) && Tail(s[3])
      && (if s[0] == 0xF0 then 0x90 <= s[1] else if s[0] == 0xF4 then s[1] <= 0x8F else 0xF1 <= s[0] <= 0xF3) then 4
    else 0
  }

  predicate WellFormed(s: bytes)
  {
    s == [] || (UnitLength(s) > 0 && WellFormed(s[UnitLength(s)..]))
  }

  /** The base-64 digits of a number given by its digits. */
  lemma Digits64(cp: nat, x: nat, y: nat, z: nat, w: nat)
    requires y < 64 && z < 64 && w < 64 && cp == x * 262144 + y * 4096 + z * 64 + w
    ensures cp % 64 == w && cp / 64 == x * 4096 + y * 64 + z
    ensures cp / 64 % 64 == z && cp / 4096 == x * 64 + y
    ensures cp / 4096 % 64 == y && cp / 262144 == x
  {
    DivMod(cp, 64, x * 4096 + y * 64 + z, w);
    DivMod(x * 4096 + y * 64 + z, 64, x * 64 + y, z);
    DivMod(cp, 4096, x * 64 + y, z * 64 + w);
    DivMod(x * 64 + y, 64, x, y);
    DivMod(cp, 262144, x, y * 4096 + z * 64 + w);
  }

  /** The digits of every number below 2^21. */
  lemma Split64(cp: nat) returns (x: nat, y: nat, z: nat, w: nat)
    requires cp < 0x200000
    ensures y < 64 && z < 64 && w < 64 && x < 8 && cp == x * 262144 + y * 4096 + z * 64 + w
  {
    w := cp % 64;
    var a := cp / 64;
    z := a % 64;
    var b := a / 64;
    y, x := b % 64, b / 64;
  }

  /** The reader inverts the encoder on every scalar value, whatever bytes follow. */
  lemma DecodeEncode(cp: nat, rest: bytes)
    requires IsScalar(cp)
    ensures CodePointToUtf8(cp) != []
    ensures Utf8ToCodepoint(CodePointToUtf8(cp) + rest) == (cp, |CodePointToUtf8(cp)|)
    ensures UnitLength(CodePointToUtf8(cp) + rest) == |CodePointToUtf8(cp)|
  {
    var x, y, z, w := Split64(cp);
    Digits64(cp, x, y, z, w);
    EncodedBytes(cp, x, y, z, w);
    var e := CodePointToUtf8(cp);
    DecodeBytes(cp, x, y, z, w, e + rest);
  }

  lemma EncodedBytes(cp: nat, x: nat, y: nat, z: nat, w: nat)
    requires cp < 0x110000 && x < 8 && y < 64 && z < 64 && w < 64 && cp == x * 262144 + y * 4096 + z * 64 + w
    ensures CodePointToUtf8(cp) ==
            if cp <= 0x7F then [cp] else if cp <= 0x7FF then [0xC0 + z, 0x80 + w]
            else if cp <= 0xFFFF then [0xE0 + y, 0x80 + z, 0x80 + w] else [0xF0 + x, 0x80 + y, 0x80 + z, 0x80 + w]
  {
    Digits64(cp, x, y, z, w);
    if 0x7F < cp <= 0x7FF {
      Small(z, 32);
    } else if 0x7FF < cp <= 0xFFFF {
      Small(y, 16);
    } else if 0xFFFF < cp {
      Small(x, 8);
    }
  }

  lemma Small(x: nat, m: nat)
    requires x < m
    ensures x % m == x
  {
  }

  lemma Masks(x: nat, y: nat, z: nat, w: nat)
    requires x < 8 && y < 64 && z < 64 && w < 64
    ensures (0xF0 + x) % 8 == x && (0x80 + y) % 64 == y && (0x80 + z) % 64 == z && (0x80 + w) % 64 == w
    ensures y < 16 ==> (0xE0 + y) % 16 == y
    ensures z < 32 ==> (0xC0 + z) % 32 == z
  {
  }

  lemma DecodeBytes(cp: nat, x: nat, y: nat, z: nat, w: nat, s: bytes)
    requires IsScalar(cp) && x < 8 && y < 64 && z < 64 && w < 64 && cp == x * 262144 + y * 4096 + z * 64 + w
    requires 0 < |CodePointToUtf8(cp)| && CodePointToUtf8(cp) <= s
    ensures Utf8ToCodepoint(s) == (cp, |CodePointToUtf8(cp)|)
    ensures UnitLength(s) == |CodePointToUtf8(cp)|
  {
    hide CodePointToUtf8, Utf8ToCodepoint, UnitLength;
    EncodedBytes(cp, x, y, z, w);
    var e := CodePointToUtf8(cp);
    assert forall i :: 0 <= i < |e| ==> s[i] == e[i];
    if cp <= 0x7F {
      OneByte(s);
    } else if cp <= 0x7FF {
      TwoBytes(z, w, s);
    } else if cp <= 0xFFFF {
      ThreeBytes(y, z, w, s);
    } else {
      FourBytes(x, y, z, w, s);
    }
  }

  lemma OneByte(s: bytes)
    requires s != [] && s[0] <= 0x7F
    ensures Utf8ToCodepoint(s) == (s[0], 1) && UnitLength(s) == 1
  {
  }

  lemma TwoBytes(z: nat, w: nat, s: bytes)
    requires 2 <= z < 32 && w < 64 && |s| >= 2 && s[0] == 0xC0 + z && s[1] == 0x80 + w
    ensures Utf8ToCodepoint(s) == (z * 64 + w, 2) && UnitLength(s) == 2
  {
    Masks(0, 0, z, w);
  }

  lemma ThreeBytes(y: nat, z: nat, w: nat, s: bytes)
    requires y < 16 && z < 64 && w < 64 && |s| >= 3 && s[0] == 0xE0 + y && s[1] == 0x80 + z && s[2] == 0x80 + w
    requires var cp := y * 4096 + z * 64 + w; 0x800 <= cp && !(0xD800 <= cp <= 0xDFFF)
    ensures Utf8ToCodepoint(s) == (y * 4096 + z * 64 + w, 3) && UnitLength(s) == 3
  {
    Masks(0, y, z, w);
  }

  lemma FourBytes(x: nat, y: nat, z: nat, w: nat, s: bytes)
    requires x < 8 && y < 64 && z < 64 && w < 64 && |s| >= 4
    requires s[0] == 0xF0 + x && s[1] == 0x80 + y && s[2] == 0x80 + z && s[3] == 0x80 + w
    requires 0x10000 <= x * 262144 + y * 4096 + z * 64 + w < 0x110000
    ensures Utf8ToCodepoint(s) == (x * 262144 + y * 4096 + z * 64 + w, 4) && UnitLength(s) == 4
  {
    Masks(x, y, z, w);
  }

  /** The encoder inverts the reader on every well-formed unit. */
  lemma EncodeDecode(s: bytes)
    requires UnitLength(s) > 0
    ensures var (cp, n) := Utf8ToCodepoint(s);
            n == UnitLength(s) && IsScalar(cp) && CodePointToUtf8(cp) == s[..n]
  {
    var n := UnitLength(s);
    if n == 2 {
      EncodeDecode2(s);
    } else if n == 3 {
      EncodeDecode3(s);
    } else if n == 4 {
      EncodeDecode4(s);
    }
  }

  lemma EncodeDecode2(s: bytes)
    requires UnitLength(s) == 2
    ensures 0x80 <= Utf8ToCodepoint(s).0 < 0x800 && Utf8ToCodepoint(s).1 == 2
    ensures CodePointToUtf8(Utf8ToCodepoint(s).0) == s[..2]
  {
    Join(0, 0, s[0] - 0xC0, s[1] - 0x80);
  }

  lemma EncodeDecode3(s: bytes)
    requires UnitLength(s) == 3
    ensures 0x800 <= Utf8ToCodepoint(s).0 < 0x10000 && IsScalar(Utf8ToCodepoint(s).0) && Utf8ToCodepoint(s).1 == 3
    ensures CodePointToUtf8(Utf8ToCodepoint(s).0) == s[..3]
  {
    var y: nat, z: nat, w: nat := s[0] - 0xE0, s[1] - 0x80, s[2] - 0x80;
    Join(0, y, z, w);
    assert y == 13 ==> z < 32;
    assert !(0xD800 <= y * 4096 + z * 64 + w <= 0xDFFF);
  }

  lemma EncodeDecode4(s: bytes)
    requires UnitLength(s) == 4
    ensures 0x10000 <= Utf8ToCodepoint(s).0 < 0x110000 && Utf8ToCodepoint(s).1 == 4
    ensures CodePointToUtf8(Utf8ToCodepoint(s).0) == s[..4]
  {
    Join(s[0] - 0xF0, s[1] - 0x80, s[2] - 0x80, s[3] - 0x80);
  }

  lemma Join(x: nat, y: nat, z: nat, w: nat)
    requires x < 8 && y < 64 && z < 64 && w < 64
    requires x * 262144 + y * 4096 + z * 64 + w < 0x110000
    ensures (0xF0 + x) % 8 == x && (0x80 + y) % 64 == y && (0x80 + z) % 64 == z && (0x80 + w) % 64 == w
    ensures y < 16 ==> (0xE0 + y) % 16 == y
    ensures z < 32 ==> (0xC0 + z) % 32 == z
    ensures var cp := x * 262144 + y * 4096 + z * 64 + w;
            CodePointToUtf8(cp) ==
            if cp <= 0x7F then [cp] else if cp <= 0x7FF then [0xC0 + z, 0x80 + w]
            else if cp <= 0xFFFF then [0xE0 + y, 0x80 + z, 0x80 + w] else [0xF0 + x, 0x80 + y, 0x80 + z, 0x80 + w]
  {
    Masks(x, y, z, w);
    EncodedBytes(x * 262144 + y * 4096 + z * 64 + w, x, y, z, w);
  }

  // ---------------------------------------------------------------- what the reader does with malformed bytes

  /** How many bytes the reader wants after looking at the first; 0 when it is no lead byte. */
  function LeadLength(c: byte): nat
  {
    if c < 0x80 then 1 else if c < 0xE0 then 2 else if c < 0xF0 then 3 else if c < 0xF8 then 4 else 0
  }

  function LeadBits(c: byte): nat
  {
    if c < 0x80 then c else if c < 0xE0 then c % 32 else if c < 0xF0 then c % 16 else c % 8
  }

  /** Six more bits from each byte, whatever its two top bits are. */
  function Payload(bits: nat, tail: bytes): nat
    decreases tail
  {
    if tail == [] then bits else Payload(64 * bits + SixBits(tail[0]), tail[1..])
  }

  function SixBits(c: byte): nat { c % 64 }

  predicate Complete(s: bytes)
  {
    s != [] && 0 < LeadLength(s[0]) <= |s|
  }

  /** The number in the payload bits of the unit at the front. */
  function NumberRead(s: bytes): nat
    requires Complete(s)
  {
    Payload(LeadBits(s[0]), s[1..LeadLength(s[0])])
  }

  /** The smallest number that needs so many bytes. */
  function Smallest(length: nat): nat
  {
    if length <= 1 then 0 else if length == 2 then 0x80 else if length == 3 then 0x800 else 0x10000
  }

  /** Cut off, without a lead byte, overlong, or a surrogate in three bytes. */
  predicate Rejected(s: bytes)
    requires s != []
  {
    !Complete(s) || NumberRead(s) < Smallest(LeadLength(s[0]))
      || (LeadLength(s[0]) == 3 && 0xD800 <= NumberRead(s) <= 0xDFFF)
  }

  /** All that utf8ToCodepoint checks is the length, the smallest number and, in three bytes, the surrogates: it looks
      neither at the top bits of the later bytes nor for numbers above U+10FFFF. */
  lemma ReadExactly(s: bytes)
    requires s != []
    ensures Utf8ToCodepoint(s) ==
            (if Rejected(s) then 0xFFFD else NumberRead(s), if Complete(s) then LeadLength(s[0]) else 1)
  {
    if Complete(s) {
      var n := LeadLength(s[0]);
      PayloadUnfolds(LeadBits(s[0]), s[1..n]);
    }
  }

  lemma PayloadUnfolds(bits: nat, t: bytes)
    requires |t| <= 3
    ensures Payload(bits, t) ==
            if |t| == 0 then bits
            else if |t| == 1 then bits * 64 + SixBits(t[0])
            else if |t| == 2 then bits * 4096 + SixBits(t[0]) * 64 + SixBits(t[1])
            else bits * 262144 + SixBits(t[0]) * 4096 + SixBits(t[1]) * 64 + SixBits(t[2])
    decreases t
  {
    if |t| > 0 {
      PayloadUnfolds(64 * bits + SixBits(t[0]), t[1..]);
    }
  }

  /** A unit that does not start with an ASCII byte is read as U+FFFD exactly when it is rejected, or is U+FFFD. */
  lemma ReplacementExactly(s: bytes)
    requires s != [] && s[0] >= 0x80
    ensures Utf8ToCodepoint(s).0 == 0xFFFD <==> Rejected(s) || NumberRead(s) == 0xFFFD
  {
    ReadExactly(s);
  }
}
