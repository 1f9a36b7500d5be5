/** Words as bits, and the hexadecimal digits that masks and shifts take from them. */
module HexWords {
  import opened Numerals

  // ---- Masks and shifts ----

  /** w & (0xF << s), for the eight shifts by whole digits. */
  function Masked(w: bv32, s: nat): bv32 {
    if s == 0 then w & 0xF
    else if s == 4 then w & (0xF << 4)
    else if s == 8 then w & (0xF << 8)
    else if s == 12 then w & (0xF << 12)
    else if s == 16 then w & (0xF << 16)
    else if s == 20 then w & (0xF << 20)
    else if s == 24 then w & (0xF << 24)
    else w & (0xF << 28)
  }

  /** w >> s, for the same shifts. */
  function Shifted(w: bv32, s: nat): bv32 {
    if s == 0 then w
    else if s == 4 then w >> 4
    else if s == 8 then w >> 8
    else if s == 12 then w >> 12
    else if s == 16 then w >> 16
    else if s == 20 then w >> 20
    else if s == 24 then w >> 24
    else w >> 28
  }

  function Nibble(w: bv32, s: nat): bv32 {
    Shifted(Masked(w, s), s)
  }

  lemma MaskedZero(w: bv32, n: nat)
    requires n < 8
    ensures Masked(w, 4 * n) == 0 <==> Nibble(w, 4 * n) == 0
  {}

  lemma NibbleOfZero(n: nat)
    requires n < 8
    ensures Nibble(0, 4 * n) == 0
  {}

  /** A word with one more digit at its low end. */
  function Push(x: bv32, d: bv32): bv32 {
    (x << 4) | d
  }

  lemma Push0(x: bv32, d: bv32)
    requires d & 0xF == d
    ensures Nibble(Push(x, d), 0) == d
  {}

  lemma Push1(x: bv32, d: bv32)
    requires d & 0xF == d
    ensures Nibble(Push(x, d), 4) == Nibble(x, 0)
  {}

  lemma Push2(x: bv32, d: bv32)
    requires d & 0xF == d
    ensures Nibble(Push(x, d), 8) == Nibble(x, 4)
  {}

  lemma Push3(x: bv32, d: bv32)
    requires d & 0xF == d
    ensures Nibble(Push(x, d), 12) == Nibble(x, 8)
  {}

  lemma Push4(x: bv32, d: bv32)
    requires d & 0xF == d
    ensures Nibble(Push(x, d), 16) == Nibble(x, 12)
  {}

  lemma Push5(x: bv32, d: bv32)
    requires d & 0xF == d
    ensures Nibble(Push(x, d), 20) == Nibble(x, 16)
  {}

  lemma Push6(x: bv32, d: bv32)
    requires d & 0xF == d
    ensures Nibble(Push(x, d), 24) == Nibble(x, 20)
  {}

  lemma Push7(x: bv32, d: bv32)
    requires d & 0xF == d
    ensures Nibble(Push(x, d), 28) == Nibble(x, 24)
  {}

  lemma PushN(x: bv32, d: bv32, n: nat)
    requires d & 0xF == d && 0 < n < 8
    ensures Nibble(Push(x, d), 4 * n) == Nibble(x, 4 * n - 4)
  {
    hide Nibble, Push;
    Push1(x, d);
    Push2(x, d);
    Push3(x, d);
    Push4(x, d);
    Push5(x, d);
    Push6(x, d);
    Push7(x, d);
  }

  // ---- The word of a number ----

  function HexDigit(d: nat): bv32
    requires d < 16
  {
    d as bv32
  }

  lemma HexDigitFits(d: nat)
    requires d < 16
    ensures HexDigit(d) & 0xF == HexDigit(d)
  {}

  lemma HexDigitValue(d: nat)
    requires d < 16
    ensures HexDigit(d) as int == d
  {}

  /** The word whose low n hexadecimal digits are those of m. With eight of them it is how the machine
      holds m. */
  function WordOf(m: nat, n: nat): bv32 {
    if n == 0 then 0 else Push(WordOf(m / 16, n - 1), HexDigit(m % 16))
  }

  /** The digit of m in place i. */
  function DigitAt(m: nat, i: nat): (d: nat)
    ensures d < 16
  {
    if i == 0 then m % 16 else DigitAt(m / 16, i - 1)
  }

  /** Mask and shift give the digit of a place, for every number and every place. */
  lemma {:induction false} NibbleOfWord(m: nat, n: nat, i: nat)
    requires i < n <= 8
    ensures Nibble(WordOf(m, n), 4 * i) == HexDigit(DigitAt(m, i))
  {
    hide Nibble, Push, HexDigit;
    HexDigitFits(m % 16);
    if i == 0 {
      Push0(WordOf(m / 16, n - 1), HexDigit(m % 16));
    } else {
      PushN(WordOf(m / 16, n - 1), HexDigit(m % 16), i);
      NibbleOfWord(m / 16, n - 1, i - 1);
    }
  }

  lemma ReadDigit(m: nat, i: nat)
    requires i < 8
    ensures Nibble(WordOf(m, 8), 4 * i) as int == DigitAt(m, i)
  {
    hide Nibble, HexDigit;
    NibbleOfWord(m, 8, i);
    HexDigitValue(DigitAt(m, i));
  }

  /** The value of the low n hexadecimal digits of a word, each in its place. */
  function ValueOf(w: bv32, n: nat): nat
    requires n <= 8
  {
    if n == 0 then 0 else ValueOf(w, n - 1) + Nibble(w, 4 * (n - 1)) as int * Power(16, n - 1)
  }

  function LowDigits(m: nat, n: nat): nat {
    if n == 0 then 0 else LowDigits(m, n - 1) + DigitAt(m, n - 1) * Power(16, n - 1)
  }

  lemma {:induction false} LowDigitFirst(m: nat, n: nat)
    requires n > 0
    ensures LowDigits(m, n) == m % 16 + 16 * LowDigits(m / 16, n - 1)
  {
    if n == 1 {
      assert Power(16, 0) == 1 && LowDigits(m, 0) == LowDigits(m / 16, 0) == 0;
    } else {
      LowDigitFirst(m, n - 1);
      var d, p := DigitAt(m / 16, n - 2), Power(16, n - 2);
      assert DigitAt(m, n - 1) * Power(16, n - 1) == d * (16 * p) == 16 * (d * p);
    }
  }

  lemma {:induction false} LowDigitsAreAll(m: nat, n: nat)
    requires m < Power(16, n)
    ensures LowDigits(m, n) == m
  {
    if n > 0 {
      BelowTimes(m, 16, Power(16, n - 1));
      LowDigitFirst(m, n);
      LowDigitsAreAll(m / 16, n - 1);
    }
  }

  lemma {:induction false} ValueOfLowDigits(m: nat, n: nat)
    requires n <= 8
    ensures ValueOf(WordOf(m, 8), n) == LowDigits(m, n)
  {
    hide Nibble;
    if n > 0 {
      ValueOfLowDigits(m, n - 1);
      ReadDigit(m, n - 1);
    }
  }

  /** The bits of the word of a number, read as hexadecimal digits in their places, are the number, so
      that no two numbers below 2^32 have the same word. */
  lemma WordHoldsNumber(m: nat)
    requires m < Power(16, 8)
    ensures ValueOf(WordOf(m, 8), 8) == m
  {
    ValueOfLowDigits(m, 8);
    LowDigitsAreAll(m, 8);
  }

  /** The masked digit is zero exactly when the digit is. */
  lemma MaskReads(m: nat, i: nat)
    requires i < 8
    ensures Masked(WordOf(m, 8), 4 * i) == 0 <==> DigitAt(m, i) == 0
  {
    hide Nibble, Masked;
    ReadDigit(m, i);
    MaskedZero(WordOf(m, 8), i);
    ZeroValue(Nibble(WordOf(m, 8), 4 * i));
  }

  lemma ZeroValue(w: bv32)
    ensures w == 0 <==> w as int == 0
  {}

  // ---- Digits and numerals ----

  lemma {:induction false} AllZero(m: nat, top: nat)
    requires m < Power(16, top) && forall i | 0 <= i < top :: DigitAt(m, i) == 0
    ensures m == 0
  {
    if top > 0 {
      BelowTimes(m, 16, Power(16, top - 1));
      assert m % 16 == DigitAt(m, 0);
      forall i | 0 <= i < top - 1
        ensures DigitAt(m / 16, i) == 0
      {
        assert DigitAt(m / 16, i) == DigitAt(m, i + 1);
      }
      AllZero(m / 16, top - 1);
    }
  }

  lemma {:induction false} DigitOfZero(i: nat)
    ensures DigitAt(0, i) == 0
  {
    if i > 0 {
      DigitOfZero(i - 1);
    }
  }

  /** A numeral of fixed length has the digit of each place. */
  lemma {:induction false} PlaceDigit(m: nat, n: nat, i: nat)
    requires i < n
    ensures Places(m, 16, n, false)[n - 1 - i] == DigitChar(DigitAt(m, i), false)
  {
    if i > 0 {
      PlaceDigit(m / 16, n - 1, i - 1);
    }
  }

  /** From the highest digit that is not zero on, the digits are the shortest numeral. */
  lemma {:induction false} FirstDigitFound(m: nat, n: nat, top: nat)
    requires n < top && m < Power(16, top) && DigitAt(m, n) != 0
    requires forall i | n < i < top :: DigitAt(m, i) == 0
    ensures Places(m, 16, n + 1, false) == Numeral(m, 16, false)
  {
    BelowTimes(m, 16, Power(16, top - 1));
    forall i | 0 <= i < top - 1
      ensures DigitAt(m / 16, i) == DigitAt(m, i + 1)
    {}
    if n == 0 {
      AllZero(m / 16, top - 1);
      OnePlace(m, 16, false);
    } else {
      FirstDigitFound(m / 16, n - 1, top - 1);
      if m < 16 {
        DigitOfZero(n - 1);
      }
      LastPlace(m, 16, n, false);
    }
  }
}
