/** Decimal integers: uintToString and valueToString, and decodeNumber of both readers. */
module Integers {
  import opened Arithmetic
  import opened ByteStrings
  import opened Values
  import opened Wrappers

  // A LargestUInt: every value assigned to one is proved not to wrap.
  type uint64 = x: int | 0 <= x <= MAX_UINT64
  type int64 = x: int | MIN_INT64 <= x <= MAX_INT64

  // ---------------------------------------------------------------- meaning of decimal text

  predicate AllDigits(s: bytes) { forall i :: 0 <= i < |s| ==> IsDigit(s[i]) }

  /** The number a row of digits stands for; 0 for the empty row. */
  function NatOf(s: bytes): nat
    requires AllDigits(s)
  {
    if s == [] then 0 else 10 * NatOf(s[..|s| - 1]) + (s[|s| - 1] - 0x30)
  }

  predicate Negative(text: bytes) { text != [] && text[0] == MINUS }

  function Magnitude(text: bytes): bytes { if Negative(text) then text[1..] else text }

  /** An optional minus and digits whose value fits a 64-bit integer, signed or unsigned. A bare minus counts as 0. */
  function IntegerOf(text: bytes): Option<int>
  {
    var m := Magnitude(text);
    if !AllDigits(m) then None
    else if Negative(text) then (if 0 - NatOf(m) < MIN_INT64 then None else Some(0 - NatOf(m)))
    else if NatOf(m) > MAX_UINT64 then None
    else Some(NatOf(m))
  }

  /** The integer as a value: signed up to `maxSigned`, unsigned beyond it. */
  function Tagged(v: int, maxSigned: nat): Value
  {
    if v <= maxSigned then Int(v) else UInt(v)
  }

  function IntegerValue(text: bytes, maxSigned: nat): Option<Value>
  {
    match IntegerOf(text) case Some(v) => Some(Tagged(v, maxSigned)) case None => None
  }

  // ---------------------------------------------------------------- printing

  function Digits(n: nat): (s: bytes)
    ensures s != []
  {
    if n < 10 then [0x30 + n] else Digits(n / 10) + [0x30 + n % 10]
  }

  function IntText(v: int): bytes { if v < 0 then [MINUS] + Digits(-v) else Digits(v) }

  const UINT_TO_STRING_BUFFER_SIZE: nat := 25

  /** uintToString: fills the buffer backwards from `end` and returns where the text starts. */
  method UintToString(value: uint64, buffer: array<byte>, end: nat) returns (current: nat)
    requires UINT_TO_STRING_BUFFER_SIZE <= end <= buffer.Length
    modifies buffer
    ensures end - 21 <= current < end - 1
    ensures buffer[current..end - 1] == Digits(value) && buffer[end - 1] == 0
    ensures forall i :: 0 <= i < buffer.Length && !(current <= i < end) ==> buffer[i] == old(buffer[i])
  {
    DigitsLength(value, 20);
    current := end - 1;
    buffer[current] := 0;
    var v := value;
    current := current - 1;
    buffer[current] := v % 10 + 0x30;
    v := v / 10;
    while v != 0
      invariant end - 21 <= current < end - 1 && buffer[end - 1] == 0
      invariant (if v == 0 then [] else Digits(v)) + buffer[current..end - 1] == Digits(value)
      invariant forall i :: 0 <= i < buffer.Length && !(current <= i < end) ==> buffer[i] == old(buffer[i])
    {
      ghost var tail := buffer[current..end - 1];
      assert |Digits(v)| + |tail| == |Digits(value)|;
      current := current - 1;
      buffer[current] := v % 10 + 0x30;
      assert buffer[current..end - 1] == [0x30 + v % 10] + tail;
      v := v / 10;
    }
    assert [] + buffer[current..end - 1] == buffer[current..end - 1];
  }

  /** valueToString(LargestInt): the most negative value is negated in the unsigned type. */
  method ValueToStringInt(value: int64) returns (text: bytes)
    ensures text == IntText(value)
  {
    hide Digits;
    var buffer := new byte[UINT_TO_STRING_BUFFER_SIZE];
    var current;
    if value == MIN_INT64 {
      current := UintToString(MAX_INT64 + 1, buffer, buffer.Length);
    } else if value < 0 {
      current := UintToString(-value, buffer, buffer.Length);
    } else {
      current := UintToString(value, buffer, buffer.Length);
    }
    ghost var digits := buffer[current..buffer.Length - 1];
    if value < 0 {
      current := current - 1;
      buffer[current] := MINUS;
      assert buffer[current..buffer.Length - 1] == [MINUS] + digits;
    }
    text := buffer[current..buffer.Length - 1];
  }

  method ValueToStringUint(value: uint64) returns (text: bytes)
    ensures text == IntText(value)
  {
    var buffer := new byte[UINT_TO_STRING_BUFFER_SIZE];
    var current := UintToString(value, buffer, buffer.Length);
    text := buffer[current..buffer.Length - 1];
  }

  function Pow10(k: nat): nat { if k == 0 then 1 else 10 * Pow10(k - 1) }

  lemma {:induction false} DigitsShort(n: nat, k: nat)
    requires 0 < k && n < Pow10(k)
    ensures |Digits(n)| <= k
  {
    if n >= 10 {
      DigitsShort(n / 10, k - 1);
    }
  }

  lemma DigitsLength(n: uint64, k: nat)
    requires k == 20
    ensures |Digits(n)| <= k
  {
    assert Pow10(5) == 100000;
    assert Pow10(10) == 10000000000;
    assert Pow10(15) == 1000000000000000;
    assert Pow10(20) == 100000000000000000000;
    DigitsShort(n, 20);
  }

  // ---------------------------------------------------------------- reading

  /** The integer path of OurReader::decodeNumber; None stands for the calls to decodeDouble. */
  method DecodeNumber(text: bytes) returns (decoded: Option<Value>)
    ensures decoded == IntegerValue(text, MAX_INT64)
  {
    var current := 0;
    var isNegative := text != [] && text[0] == MINUS;
    if isNegative {
      current := 1;
    }
    var threshold: uint64 := if isNegative then 922337203685477580 else MAX_UINT64 / 10;
    var maxLastDigit: uint64 := if isNegative then 8 else MAX_UINT64 % 10;
    var value: uint64;
    var ok;
    ok, value := DecodeMagnitude(text, current, threshold, maxLastDigit);
    if !ok {
      return None;
    }
    if isNegative {
      var lastDigit := value % 10;
      var tens: int64 := -(value / 10);
      var scaled: int64 := tens * 10;
      var result: int64 := scaled - lastDigit;
      return Some(Int(result));
    } else if value <= MAX_INT64 {
      return Some(Int(value));
    }
    return Some(UInt(value));
  }

  /** The integer path of the older Reader::decodeNumber, which makes every number above 2^31 - 1 unsigned. */
  method OldDecodeNumber(text: bytes) returns (decoded: Option<Value>)
    ensures decoded == IntegerValue(text, MAX_INT32)
  {
    var current := 0;
    var isNegative := text != [] && text[0] == MINUS;
    if isNegative {
      current := 1;
    }
    var maxIntegerValue: uint64 := if isNegative then MAX_INT64 + 1 else MAX_UINT64;
    var value: uint64;
    var ok;
    ok, value := DecodeMagnitude(text, current, maxIntegerValue / 10, maxIntegerValue % 10);
    if !ok {
      return None;
    }
    if isNegative && value == maxIntegerValue {
      return Some(Int(MIN_INT64));
    } else if isNegative {
      var result: int64 := 0 - value;
      return Some(Int(result));
    } else if value <= MAX_INT32 {
      return Some(Int(value));
    }
    return Some(UInt(value));
  }

  /** The loop both readers share: the value of the digits from `start`, or failure at the first byte that is not a
      digit and at the first digit that would pass 10 * threshold + maxLastDigit. */
  method DecodeMagnitude(text: bytes, start: nat, threshold: uint64, maxLastDigit: uint64) returns (ok: bool,
      value: uint64)
    requires start <= |text| && 0 < threshold && maxLastDigit < 10 && 10 * threshold + maxLastDigit <= MAX_UINT64
    ensures ok <==> AllDigits(text[start..]) && NatOf(text[start..]) <= 10 * threshold + maxLastDigit
    ensures ok ==> value == NatOf(text[start..])
  {
    var current := start;
    value := 0;
    while current < |text|
      invariant start <= current <= |text|
      invariant AllDigits(text[start..current]) && value == NatOf(text[start..current])
      invariant value <= 10 * threshold + maxLastDigit
    {
      var c := text[current];
      current := current + 1;
      if !IsDigit(c) {
        assert text[start..][current - 1 - start] == c;
        return false, value;
      }
      ghost var read := text[start..current];
      assert read[..|read| - 1] == text[start..current - 1];
      assert AllDigits(read) && NatOf(read) == 10 * value + (c - 0x30);
      if value >= threshold && (value > threshold || current != |text| || c - 0x30 > maxLastDigit) {
        assert text[start..][..|read|] == read;
        if AllDigits(text[start..]) {
          TooBig(text[start..], |read|, threshold, maxLastDigit, value);
        }
        return false, value;
      }
      value := value * 10 + (c - 0x30);
    }
    assert text[start..current] == text[start..];
    return true, value;
  }

  lemma {:induction false} NatOfMonotone(s: bytes, k: nat)
    requires AllDigits(s) && k <= |s|
    ensures NatOf(s[..k]) <= NatOf(s)
    ensures k < |s| ==> 10 * NatOf(s[..k]) <= NatOf(s)
    decreases |s|
  {
    if k < |s| {
      var t := s[..|s| - 1];
      assert t[..k] == s[..k];
      NatOfMonotone(t, k);
    } else {
      assert s[..k] == s;
    }
  }

  lemma TooBig(s: bytes, k: nat, threshold: nat, maxLastDigit: nat, value: nat)
    requires AllDigits(s) && 0 < k <= |s| && 0 < threshold && maxLastDigit < 10
    requires threshold <= value && NatOf(s[..k]) == 10 * value + (s[k - 1] - 0x30)
    requires value > threshold || k != |s| || s[k - 1] - 0x30 > maxLastDigit
    ensures NatOf(s) > 10 * threshold + maxLastDigit
  {
    NatOfMonotone(s, k);
  }

  // ---------------------------------------------------------------- main results

  lemma {:induction false} NatOfDigits(n: nat)
    ensures AllDigits(Digits(n)) && NatOf(Digits(n)) == n
  {
    if n < 10 {
      assert Digits(n)[..0] == [];
    } else {
      NatOfDigits(n / 10);
      assert Digits(n)[..|Digits(n)| - 1] == Digits(n / 10);
    }
  }

  /** Reading inverts printing on every 64-bit value, signed or unsigned. */
  lemma IntegerRoundTrip(v: int)
    requires -9223372036854775808 <= v <= 18446744073709551615
    ensures IntegerOf(IntText(v)) == Some(v)
  {
    hide Digits, NatOf;
    if v < 0 {
      NatOfDigits(-v);
      assert Magnitude(IntText(v)) == Digits(-v);
    } else {
      NatOfDigits(v);
      assert IsDigit(Digits(v)[0]);
    }
  }

  /** The integer path is taken exactly when the number fits 64 bits, signed or unsigned; it is signed whenever it fits
      that. */
  lemma IntegerPathExactly(digits: bytes, negative: bool)
    requires AllDigits(digits)
    ensures var text := if negative then [MINUS] + digits else digits;
            var n := if negative then 0 - NatOf(digits) else NatOf(digits);
            IntegerOf(text) == (if -9223372036854775808 <= n <= 18446744073709551615 then Some(n) else None)
            && IntegerValue(text, MAX_INT64) ==
               if n < -9223372036854775808 || n > 18446744073709551615 then None
               else if n <= 9223372036854775807 then Some(Int(n)) else Some(UInt(n))
  {
    if negative {
      assert ([MINUS] + digits)[1..] == digits;
    } else {
      assert digits != [] ==> IsDigit(digits[0]);
    }
  }

  /** The bare minus decodes to zero. */
  lemma BareMinusIsZero()
    ensures IntegerOf([MINUS]) == Some(0)
  {
    assert Magnitude([MINUS]) == [];
  }

  /** The two readers make the same value of a token exactly when it is no integer, at most 2^31 - 1, or above 2^63 - 1;
      in between one makes it signed and the other unsigned. */
  lemma ReadersAgreeExactly(text: bytes)
    ensures IntegerValue(text, MAX_INT64) == IntegerValue(text, MAX_INT32) <==>
            match IntegerOf(text) case None => true case Some(v) => v <= 2147483647 || v > 9223372036854775807
  {
    hide IntegerOf;
  }
}
