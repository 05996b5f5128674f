/** Number tokens by the grammar of section 6 of RFC 8259, and what the reader allows beyond it. */
module NumberSyntax {
  import opened ByteStrings
  import opened Lexer

  predicate OnlyDigits(b: bytes) { forall i :: 0 <= i < |b| ==> '0' as int <= b[i] <= '9' as int }

  predicate IsSign(b: bytes) { b == ['-' as int] || b == ['+' as int] }

  predicate IsFraction(b: bytes) { b != [] && b[0] == '.' as int && OnlyDigits(b[1..]) }

  predicate IsExponentPart(b: bytes)
  {
    b != [] && b[0] in {'e' as int, 'E' as int}
    && (OnlyDigits(b[1..]) || (2 <= |b| && IsSign(b[1..2]) && OnlyDigits(b[2..])))
  }

  /** The parts of a number, each of which may be missing. Section 6 of RFC 8259 asks in addition for a digit in each
      part, no zero in front of others, and no plus sign in front; the reader does not. */
  datatype Parts = Parts(sign: bytes, whole: bytes, fraction: bytes, exponent: bytes)

  predicate AreParts(n: Parts)
  {
    && (n.sign == [] || IsSign(n.sign)) && OnlyDigits(n.whole) && (n.sign == [] ==> n.whole != [])
    && (n.fraction == [] || IsFraction(n.fraction)) && (n.exponent == [] || IsExponentPart(n.exponent))
  }

  function NumberText(n: Parts): bytes { n.sign + n.whole + n.fraction + n.exponent }

  /** A byte that would belong to the number if it came next. */
  predicate Prolongs(n: Parts, c: byte)
  {
    || '0' as int <= c <= '9' as int
    || (n.exponent == [] && c in {'e' as int, 'E' as int})
    || (n.exponent == [] && n.fraction == [] && c == '.' as int)
    || (|n.exponent| == 1 && c in {'+' as int, '-' as int})
    || (NumberText(n) == n.sign && c == 'I' as int)
  }

  predicate Stands(doc: bytes, p: nat, text: bytes) { p + |text| <= |doc| && doc[p..p + |text|] == text }

  predicate EndsThere(doc: bytes, p: nat, n: Parts)
  {
    var q := p + |NumberText(n)|;
    q >= |doc| || !Prolongs(n, doc[q])
  }

  ghost predicate IsNumberText(text: bytes)
  {
    exists n: Parts :: AreParts(n) && text == NumberText(n)
  }

  lemma NumberStarts(text: bytes)
    requires IsNumberText(text)
    ensures text != [] && (text[0] in {'-' as int, '+' as int} || '0' as int <= text[0] <= '9' as int)
  {
    var n: Parts :| AreParts(n) && text == NumberText(n);
    if n.sign == [] {
      assert text[0] == n.whole[0];
    } else {
      assert text[0] == n.sign[0];
    }
  }

  // ---------------------------------------------------------------- the loops

  lemma {:induction false} DigitsEnd(doc: bytes, p: nat, q: nat)
    requires p <= q <= |doc| && OnlyDigits(doc[p..q]) && (q < |doc| ==> !IsDigit(doc[q]))
    ensures SkipDigits(doc, p) == q
    decreases q - p
  {
    if p < q {
      assert doc[p] == doc[p..q][0];
      assert doc[p + 1..q] == doc[p..q][1..];
      DigitsEnd(doc, p + 1, q);
    }
  }

  lemma DigitsSkipped(doc: bytes, p: nat)
    requires p <= |doc|
    ensures OnlyDigits(doc[p..SkipDigits(doc, p)])
  {
  }

  /** What stands at `p` in front of the rest of a number, and where the rest begins. */
  lemma StandsInParts(doc: bytes, p: nat, a: bytes, b: bytes)
    requires Stands(doc, p, a + b)
    ensures Stands(doc, p, a) && Stands(doc, p + |a|, b)
  {
    assert doc[p..p + |a|] == doc[p..p + |a + b|][..|a|];
    assert doc[p + |a|..p + |a| + |b|] == doc[p..p + |a + b|][|a|..];
  }

  lemma ExponentRead(doc: bytes, p: nat, exponent: bytes)
    requires Stands(doc, p, exponent) && (exponent == [] || IsExponentPart(exponent))
    requires var q := p + |exponent|;
             q < |doc| ==> !IsDigit(doc[q]) && (exponent == [] ==> doc[q] !in {'e' as int, 'E' as int})
                           && (|exponent| == 1 ==> doc[q] !in {'+' as int, '-' as int})
    ensures ExponentEnd(doc, p) == p + |exponent|
  {
    var q := p + |exponent|;
    if exponent != [] {
      assert doc[p] == doc[p..q][0];
      if 2 <= |exponent| && IsSign(exponent[1..2]) {
        assert doc[p + 1] == doc[p..q][1] == exponent[1..2][0];
        assert doc[p + 2..q] == doc[p..q][2..];
        DigitsEnd(doc, p + 2, q);
      } else {
        assert 2 <= |exponent| ==> doc[p + 1] == doc[p..q][1] == exponent[1..][0];
        assert doc[p + 1..q] == doc[p..q][1..];
        DigitsEnd(doc, p + 1, q);
      }
    }
  }

  lemma FractionRead(doc: bytes, p: nat, fraction: bytes)
    requires Stands(doc, p, fraction) && (fraction == [] || IsFraction(fraction))
    requires var q := p + |fraction|;
             q < |doc| ==> !IsDigit(doc[q]) && (fraction == [] ==> doc[q] != '.' as int)
    ensures FractionEnd(doc, p) == p + |fraction|
  {
    if fraction != [] {
      var q := p + |fraction|;
      assert doc[p] == doc[p..q][0];
      assert doc[p + 1..q] == doc[p..q][1..];
      DigitsEnd(doc, p + 1, q);
    }
  }

  /** The loops of readNumber from the first byte after the sign. */
  lemma NumberEndRead(doc: bytes, p: nat, n: Parts)
    requires AreParts(n) && Stands(doc, p, n.whole + n.fraction + n.exponent)
    requires var q := p + |n.whole + n.fraction + n.exponent|; q < |doc| ==> !Prolongs(n, doc[q])
    ensures NumberEnd(doc, p) == p + |n.whole + n.fraction + n.exponent|
  {
    hide ExponentEnd, FractionEnd, IsFraction, IsExponentPart, SkipDigits;
    var a, b := p + |n.whole|, p + |n.whole| + |n.fraction|;
    StandsInParts(doc, p, n.whole + n.fraction, n.exponent);
    StandsInParts(doc, p, n.whole, n.fraction);
    FirstBytes(n);
    assert n.exponent != [] ==> doc[b] == doc[b..b + |n.exponent|][0];
    assert n.fraction != [] ==> doc[a] == doc[a..a + |n.fraction|][0];
    DigitsEnd(doc, p, a);
    FractionRead(doc, a, n.fraction);
    ExponentRead(doc, b, n.exponent);
  }

  lemma FirstBytes(n: Parts)
    requires AreParts(n)
    ensures n.fraction != [] ==> n.fraction[0] == '.' as int
    ensures n.exponent != [] ==> n.exponent[0] in {'e' as int, 'E' as int}
  {
  }

  // ---------------------------------------------------------------- the token

  /** Wherever a number stands and is not prolonged, it is one token. */
  lemma NumberIsRead(doc: bytes, f: Features, p: nat, n: Parts)
    requires AreParts(n) && Stands(doc, p, NumberText(n)) && EndsThere(doc, p, n)
    ensures p < |doc| && TokenAt(doc, f, p) == Token(Number, p, p + |NumberText(n)|)
  {
    hide NumberEnd;
    var text := NumberText(n);
    assert text != [] && doc[p] == doc[p..p + |text|][0];
    if n.sign != [] {
      var tail := n.whole + n.fraction + n.exponent;
      assert text == n.sign + tail;
      StandsInParts(doc, p, n.sign, tail);
      NoInfinity(doc, p, n);
      NumberEndRead(doc, p + 1, n);
    } else {
      FirstDigit(doc, p, n);
    }
  }

  lemma NoInfinity(doc: bytes, p: nat, n: Parts)
    requires AreParts(n) && n.sign != [] && Stands(doc, p, NumberText(n)) && EndsThere(doc, p, n)
    ensures p + 1 < |doc| ==> doc[p + 1] != LETTER_I
  {
    var text := NumberText(n);
    if p + 1 < |doc| && 1 < |text| {
      assert doc[p + 1] == doc[p..p + |text|][1] == text[1];
    }
  }

  /** A number without a sign: its first digit was read before. */
  lemma FirstDigit(doc: bytes, p: nat, n: Parts)
    requires AreParts(n) && n.sign == [] && Stands(doc, p, NumberText(n)) && EndsThere(doc, p, n)
    ensures IsDigit(doc[p]) && NumberEnd(doc, p + 1) == p + |NumberText(n)|
  {
    hide NumberEnd, IsFraction, IsExponentPart;
    var text := NumberText(n);
    var m := Parts(['-' as int], n.whole[1..], n.fraction, n.exponent);
    BehindFirst(n, m);
    StandsInParts(doc, p, n.whole[..1], m.whole + m.fraction + m.exponent);
    assert doc[p] == doc[p..p + |text|][0] == n.whole[0];
    var q := p + |text|;
    assert q < |doc| ==> !Prolongs(n, doc[q]);
    if q < |doc| && NumberText(m) == m.sign && doc[q] == 'I' as int {
      // A digit alone is not prolonged by a letter, but a sign would be.
      NumberEndDigits(doc, p, n);
    } else {
      NumberEndRead(doc, p + 1, m);
    }
  }

  lemma BehindFirst(n: Parts, m: Parts)
    requires AreParts(n) && n.sign == [] && m == Parts(['-' as int], n.whole[1..], n.fraction, n.exponent)
    ensures AreParts(m) && NumberText(n) == n.whole[..1] + (m.whole + m.fraction + m.exponent)
  {
    hide IsFraction, IsExponentPart;
    assert n.whole == n.whole[..1] + m.whole;
  }

  lemma NumberEndDigits(doc: bytes, p: nat, n: Parts)
    requires |n.whole| == 1 && n.fraction == [] == n.exponent && n.sign == [] && p + 1 < |doc|
             && doc[p + 1] == 'I' as int
    ensures NumberEnd(doc, p + 1) == p + |NumberText(n)|
  {
  }

  /** Whatever is read as a number has parts, and is not prolonged. */
  lemma NumberHasParts(doc: bytes, f: Features, p: nat) returns (n: Parts)
    requires p < |doc| && TokenAt(doc, f, p).kind == Number
    ensures AreParts(n) && Stands(doc, p, NumberText(n)) && EndsThere(doc, p, n)
    ensures TokenAt(doc, f, p).end == p + |NumberText(n)|
  {
    hide SkipDigits, NumberEnd;
    var signed := doc[p] == MINUS || doc[p] == PLUS;
    var start := if signed then p + 1 else p;
    if !signed {
      assert IsDigit(doc[p]);
      DigitFirst(doc, p);
    }
    n := PartsOf(doc, p, start);
    assert TokenAt(doc, f, p).end == NumberEnd(doc, p + 1);
  }

  lemma DigitFirst(doc: bytes, p: nat)
    requires p < |doc| && IsDigit(doc[p])
    ensures SkipDigits(doc, p) == SkipDigits(doc, p + 1) && NumberEnd(doc, p) == NumberEnd(doc, p + 1)
            && p < SkipDigits(doc, p)
  {
  }

  lemma PartsOf(doc: bytes, p: nat, start: nat) returns (n: Parts)
    requires p <= start <= p + 1 && start <= |doc| && p < |doc|
    requires if start == p then IsDigit(doc[p]) else IsSign([doc[p]]) && (start < |doc| ==> doc[start] != LETTER_I)
    ensures AreParts(n) && Stands(doc, p, NumberText(n)) && EndsThere(doc, p, n)
    ensures NumberEnd(doc, start) == p + |NumberText(n)|
  {
    hide IsFraction, IsExponentPart, ExponentEnd, FractionEnd, SkipDigits, Prolongs, AreParts, IsSign;
    var a := SkipDigits(doc, start);
    var b := FractionEnd(doc, a);
    var c := ExponentEnd(doc, b);
    n := Parts(doc[p..start], doc[start..a], doc[a..b], doc[b..c]);
    assert NumberText(n) == doc[p..c];
    assert start > p ==> doc[p..start] == [doc[p]];
    DigitsSkipped(doc, start);
    FractionHasForm(doc, a);
    ExponentHasForm(doc, b);
    if start == p {
      DigitFirst(doc, p);
    }
    PartsAre(n);
    if c < |doc| {
      NotProlonged(doc, p, start, a, b, c, n);
    }
  }

  lemma PartsAre(n: Parts)
    requires (n.sign == [] || IsSign(n.sign)) && OnlyDigits(n.whole) && (n.sign == [] ==> n.whole != [])
    requires (n.fraction == [] || IsFraction(n.fraction)) && (n.exponent == [] || IsExponentPart(n.exponent))
    ensures AreParts(n)
  {
  }

  lemma NotProlonged(doc: bytes, p: nat, start: nat, a: nat, b: nat, c: nat, n: Parts)
    requires p <= start <= a <= b <= c < |doc| && start <= p + 1
    requires n == Parts(doc[p..start], doc[start..a], doc[a..b], doc[b..c])
    requires a == SkipDigits(doc, start) && (start < |doc| && p < start ==> doc[start] != LETTER_I)
    requires start == p ==> p < a
    requires (a < b ==> b < |doc| ==> !IsDigit(doc[b])) && (a == b ==> doc[b] != '.' as int)
    requires (b < c ==> !IsDigit(doc[c])) && (b == c ==> doc[c] !in {'e' as int, 'E' as int})
    requires c == b + 1 ==> doc[c] !in {'+' as int, '-' as int}
    ensures !Prolongs(n, doc[c])
  {
    hide SkipDigits;
  }

  lemma FractionHasForm(doc: bytes, a: nat)
    requires a <= |doc|
    ensures var b := FractionEnd(doc, a);
            && (a == b || IsFraction(doc[a..b]))
            && (b < |doc| ==> (a < b ==> !IsDigit(doc[b])) && (a == b ==> doc[b] != '.' as int))
  {
    var b := FractionEnd(doc, a);
    if a < b {
      DigitsSkipped(doc, a + 1);
      assert doc[a..b][1..] == doc[a + 1..b];
    }
  }

  lemma ExponentHasForm(doc: bytes, b: nat)
    requires b <= |doc|
    ensures var c := ExponentEnd(doc, b);
            && (b == c || IsExponentPart(doc[b..c]))
            && (c < |doc| ==> (b < c ==> !IsDigit(doc[c])) && (b == c ==> doc[c] !in {'e' as int, 'E' as int})
                              && (c == b + 1 ==> doc[c] !in {'+' as int, '-' as int}))
  {
    var c := ExponentEnd(doc, b);
    if b < c {
      if b + 1 < |doc| && (doc[b + 1] == PLUS || doc[b + 1] == MINUS) {
        DigitsSkipped(doc, b + 2);
        assert doc[b..c][2..] == doc[b + 2..c] && doc[b..c][1..2] == [doc[b + 1]];
      } else {
        DigitsSkipped(doc, b + 1);
        assert doc[b..c][1..] == doc[b + 1..c];
      }
    }
  }

  /** The number tokens are exactly the texts with such parts that are not prolonged. */
  lemma NumbersExactly(doc: bytes, f: Features, p: nat, q: nat)
    requires p < |doc|
    ensures TokenAt(doc, f, p) == Token(Number, p, q) <==>
            exists n: Parts ::
              AreParts(n) && Stands(doc, p, NumberText(n)) && EndsThere(doc, p, n) && q == p + |NumberText(n)|
  {
    hide TokenAt, AreParts, NumberText, Stands, EndsThere;
    if TokenAt(doc, f, p) == Token(Number, p, q) {
      var n := NumberHasParts(doc, f, p);
    }
    if n: Parts :| AreParts(n) && Stands(doc, p, NumberText(n)) && EndsThere(doc, p, n) && q == p + |NumberText(n)| {
      NumberIsRead(doc, f, p, n);
    }
  }
}
