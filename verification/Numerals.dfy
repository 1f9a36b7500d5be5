/** Numerals in the bases that the printers use. */
module Numerals {

  predicate IsBase(base: nat) {
    base == 8 || base == 10 || base == 16
  }

  function DigitChar(d: nat, upper: bool): (c: char)
    requires d < 16
    ensures DigitValue(c) == d && (c == '0' <==> d == 0) && c != '-' && c != ' '
  {
    if d <= 9 then '0' + d as char else (if upper then 'A' else 'a') + (d - 10) as char
  }

  function DigitValue(c: char): nat {
    if '0' <= c <= '9' then (c - '0') as nat
    else if 'A' <= c <= 'F' then (c - 'A') as nat + 10
    else if 'a' <= c <= 'f' then (c - 'a') as nat + 10
    else 0
  }

  /** The shortest numeral of m. */
  function Numeral(m: nat, base: nat, upper: bool): (s: string)
    requires IsBase(base)
    ensures |s| > 0
  {
    if m < base then [DigitChar(m, upper)]
    else Numeral(m / base, base, upper) + [DigitChar(m % base, upper)]
  }

  function ReadNumeral(s: string, base: nat): nat {
    if s == [] then 0 else ReadNumeral(s[..|s| - 1], base) * base + DigitValue(s[|s| - 1])
  }

  /** A numeral reads back as its number and has no leading zeros, so there is no shorter one. */
  lemma {:induction false} NumeralReads(m: nat, base: nat, upper: bool)
    requires IsBase(base)
    ensures ReadNumeral(Numeral(m, base, upper), base) == m
    ensures Numeral(m, base, upper)[0] == '0' <==> m == 0
    ensures m == 0 ==> |Numeral(m, base, upper)| == 1
    ensures forall c | c in Numeral(m, base, upper) :: c != '-' && c != ' '
  {
    if m >= base {
      NumeralReads(m / base, base, upper);
      assert Numeral(m, base, upper)[..|Numeral(m / base, base, upper)|] == Numeral(m / base, base, upper);
    } else {
      assert ReadNumeral([], base) == 0;
    }
  }

  lemma {:induction false} LeadingZeros(n: nat, s: string, base: nat)
    ensures ReadNumeral(seq(n, i => '0') + s, base) == ReadNumeral(s, base)
  {
    var z := seq(n, i => '0');
    if s != [] {
      assert (z + s)[..|z + s| - 1] == z + s[..|s| - 1];
      LeadingZeros(n, s[..|s| - 1], base);
    } else if n > 0 {
      assert (z + s)[..n - 1] == seq(n - 1, i => '0') + [];
      LeadingZeros(n - 1, [], base);
    }
  }

  function Power(base: nat, n: nat): nat {
    if n == 0 then 1 else base * Power(base, n - 1)
  }

  /** The numeral of m with n digits. */
  function Places(m: nat, base: nat, n: nat, upper: bool): (s: string)
    requires IsBase(base)
    ensures |s| == n
  {
    if n == 0 then [] else Places(m / base, base, n - 1, upper) + [DigitChar(m % base, upper)]
  }

  /** The number with digit d in the place p and r below it. */
  function Compose(d: nat, p: nat, r: nat): nat {
    d * p + r
  }

  /** Printing starts with the digit of the largest place. */
  lemma {:induction false} LargestPlaceFirst(d: nat, r: nat, base: nat, n: nat, upper: bool)
    requires IsBase(base) && d < base && r < Power(base, n)
    ensures Places(Compose(d, Power(base, n), r), base, n + 1, upper) ==
            [DigitChar(d, upper)] + Places(r, base, n, upper)
  {
    if n == 0 {
      OnePlace(d, base, upper);
    } else {
      hide IsBase, DigitChar, Places, Compose;
      var q := Power(base, n - 1);
      BelowTimes(r, base, q);
      SplitPlaces(d, q, r, base);
      LargestPlaceFirst(d, r / base, base, n - 1, upper);
      LastPlace(Compose(d, base * q, r), base, n, upper);
      LastPlace(r, base, n - 1, upper);
    }
  }

  lemma LastPlace(m: nat, base: nat, n: nat, upper: bool)
    requires IsBase(base)
    ensures Places(m, base, n + 1, upper) == Places(m / base, base, n, upper) + [DigitChar(m % base, upper)]
  {}

  lemma OnePlace(d: nat, base: nat, upper: bool)
    requires IsBase(base) && d < base
    ensures Places(d, base, 1, upper) == [DigitChar(d, upper)]
  {}

  lemma TimesMonotone(a: nat, b: nat, p: nat)
    requires a <= b
    ensures a * p <= b * p
  {}

  lemma SplitPlaces(d: nat, q: nat, r: nat, base: nat)
    requires IsBase(base)
    ensures Compose(d, base * q, r) / base == Compose(d, q, r / base)
    ensures Compose(d, base * q, r) % base == r % base
  {
    var x := d * q;
    assert d * (base * q) == base * x;
  }

  lemma Unique(m: nat, d: nat, q: nat, r: nat)
    requires r < d && m == q * d + r
    ensures m % d == r && m / d == q
  {
    var q', r' := m / d, m % d;
    if q < q' {
      TimesMonotone(q + 1, q', d);
    } else if q' < q {
      TimesMonotone(q' + 1, q, d);
    }
  }

  /** The digit in the largest place of a number. */
  lemma TakeDigit(m: nat, base: nat, p: nat) returns (d: nat, r: nat)
    requires p > 0 && m < base * p
    ensures d == m / p && r == m % p && d < base && r < p && m == Compose(d, p, r)
  {
    d, r := m / p, m % p;
    if d >= base {
      TimesMonotone(base, d, p);
    }
  }

  /** The shortest numeral has as many digits as there are powers of the base up to m. */
  lemma {:induction false} NumeralIsPlaces(m: nat, base: nat, upper: bool)
    requires IsBase(base)
    ensures var n := |Numeral(m, base, upper)|;
            && Numeral(m, base, upper) == Places(m, base, n, upper)
            && m < Power(base, n) && (n > 1 ==> Power(base, n - 1) <= m)
  {
    var n := |Numeral(m, base, upper)|;
    if m < base {
      assert Power(base, 1) == base * Power(base, 0);
      OnePlace(m, base, upper);
    } else {
      NumeralIsPlaces(m / base, base, upper);
      BelowTimes(m, base, Power(base, n - 1));
      if n > 2 {
        BelowTimes(m, base, Power(base, n - 2));
      }
    }
  }

  lemma BelowTimes(m: nat, base: nat, p: nat)
    requires IsBase(base)
    ensures m < base * p <==> m / base < p
  {}
}
