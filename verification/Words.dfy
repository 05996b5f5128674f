/** The words of a 64-bit machine as numbers, and their bits. */
module Words {
  import opened Arithmetic

  const WORD_LIMIT: nat := 0x1_0000_0000_0000_0000

  type word = x: int | 0 <= x < WORD_LIMIT

  /** Bit `k` of a number: whether it is odd after it was halved `k` times. */
  predicate Bit(x: nat, k: nat)
  {
    if k == 0 then x % 2 == 1 else Bit(x / 2, k - 1)
  }

  function Power(n: nat): (p: nat)
    ensures p > 0
  {
    if n == 0 then 1 else 2 * Power(n - 1)
  }

  lemma Halves(x: nat, p: nat)
    requires p > 0
    ensures x / (2 * p) == x / 2 / p && x % (2 * p) / 2 == x / 2 % p && x % (2 * p) % 2 == x % 2
  {
    var h, r := x / 2, x % 2;
    var q, m := h / p, h % p;
    assert h == p * q + m;
    assert x == 2 * p * q + (2 * m + r);
    DivMod(x, 2 * p, q, 2 * m + r);
  }

  /** The bit as a quotient of powers of two. */
  lemma {:induction false} BitIsQuotient(x: nat, k: nat)
    ensures Bit(x, k) <==> x / Power(k) % 2 == 1
  {
    if k > 0 {
      Halves(x, Power(k - 1));
      BitIsQuotient(x / 2, k - 1);
    }
  }

  lemma {:induction false} ZeroBit(k: nat)
    ensures !Bit(0, k)
  {
    if k > 0 {
      ZeroBit(k - 1);
    }
  }

  /** Numbers with the same bits are the same. */
  lemma {:induction false} SameBits(x: nat, y: nat)
    requires forall k: nat :: Bit(x, k) == Bit(y, k)
    ensures x == y
    decreases x + y
  {
    assert Bit(x, 0) == Bit(y, 0);
    if x + y > 0 {
      forall k: nat ensures Bit(x / 2, k) == Bit(y / 2, k) {
        assert Bit(x, k + 1) == Bit(y, k + 1);
      }
      SameBits(x / 2, y / 2);
    }
  }

  // ---------------------------------------------------------------- operators

  function Xor(a: nat, b: nat): nat
    decreases a + b
  {
    if a + b == 0 then 0 else (if a % 2 == b % 2 then 0 else 1) + 2 * Xor(a / 2, b / 2)
  }

  lemma {:induction false} XorBit(a: nat, b: nat, k: nat)
    ensures Bit(Xor(a, b), k) <==> Bit(a, k) != Bit(b, k)
    decreases k
  {
    if a + b == 0 {
      ZeroBit(k);
    } else if k > 0 {
      assert Xor(a, b) / 2 == Xor(a / 2, b / 2);
      XorBit(a / 2, b / 2, k - 1);
    }
  }

  lemma {:induction false} XorBelow(a: nat, b: nat, n: nat)
    requires a < Power(n) && b < Power(n)
    ensures Xor(a, b) < Power(n)
    decreases n
  {
    if a + b > 0 {
      XorBelow(a / 2, b / 2, n - 1);
    }
  }

  lemma {:induction false} RightBit(x: nat, n: nat, k: nat)
    ensures 0 <= x / Power(n) && (Bit(x / Power(n), k) <==> Bit(x, k + n))
    decreases n
  {
    if n > 0 {
      Halves(x, Power(n - 1));
      RightBit(x / 2, n - 1, k);
    }
  }

  lemma {:induction false} LeftBit(x: nat, n: nat, k: nat)
    ensures Bit(x * Power(n), k) <==> k >= n && Bit(x, k - n)
    decreases n
  {
    if n > 0 {
      var y := x * Power(n - 1);
      assert x * Power(n) == 2 * y;
      if k > 0 {
        LeftBit(x, n - 1, k - 1);
      }
    }
  }

  lemma {:induction false} ModBit(x: nat, n: nat, k: nat)
    ensures Bit(x % Power(n), k) <==> k < n && Bit(x, k)
    decreases n
  {
    if n == 0 {
      ZeroBit(k);
    } else {
      Halves(x, Power(n - 1));
      if k > 0 {
        ModBit(x / 2, n - 1, k - 1);
      }
    }
  }

  lemma Powers()
    ensures Power(5) == 32 && Power(18) == 0x4_0000 && Power(23) == 0x80_0000 && Power(64) == WORD_LIMIT
  {
    assert Power(8) == 256;
    assert Power(16) == 0x1_0000;
    assert Power(24) == 0x100_0000;
    assert Power(32) == 0x1_0000_0000;
    assert Power(40) == 0x100_0000_0000;
    assert Power(48) == 0x1_0000_0000_0000;
    assert Power(56) == 0x100_0000_0000_0000;
  }

  function XorWords(a: word, b: word): word
  {
    Powers();
    XorBelow(a, b, 64);
    Xor(a, b)
  }

  /** Where one number ends before the other begins, the two are added. */
  lemma {:induction false} XorApart(a: nat, n: nat, b: nat)
    requires b < Power(n)
    ensures Xor(a * Power(n), b) == a * Power(n) + b
    decreases n
  {
    if n == 0 {
      XorZero(a);
    } else {
      var high := a * Power(n - 1);
      assert a * Power(n) == 2 * high;
      XorApart(a, n - 1, b / 2);
      if a * Power(n) + b > 0 {
        assert Xor(2 * high, b) == b % 2 + 2 * Xor(high, b / 2);
      }
    }
  }

  lemma {:induction false} XorZero(a: nat)
    ensures Xor(a, 0) == a
    decreases a
  {
    if a > 0 {
      XorZero(a / 2);
    }
  }

  /** Words are determined by their 64 bits. */
  lemma SameWords(x: word, y: word)
    requires forall k: nat :: k < 64 ==> Bit(x, k) == Bit(y, k)
    ensures x == y
  {
    forall k: nat ensures Bit(x, k) == Bit(y, k) {
      NoHighBits(x, k);
      NoHighBits(y, k);
    }
    SameBits(x, y);
  }

  lemma NoHighBits(x: word, k: nat)
    ensures k >= 64 ==> !Bit(x, k)
  {
    hide Bit, Power;
    Powers();
    ModBit(x, 64, k);
  }
}
