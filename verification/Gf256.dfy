/** Arithmetic in GF(2^8) as section 4.2 of FIPS 197 defines it, and the proof that the tables
    of aes.h hold that arithmetic. Addition in the field is the exclusive or of bytes. */
module Gf256 {
  import opened AesTables

  /** Section 4.2.1: multiplication by x, a left shift reduced by {1b} when bit 7 was set. */
  function Xtime(b: bv8): bv8 {
    (b << 1) ^ ((b >> 7) * 0x1B)
  }

  /** Section 4.1: addition, the exclusive or of bytes. */
  function Add(x: bv8, y: bv8): bv8 {
    x ^ y
  }

  /** b if the bit is set, else zero. */
  function Scale(bit: bv8, b: bv8): bv8 {
    bit * b
  }

  /** Section 4.2: multiplication modulo x^8 + x^4 + x^3 + x + 1, the sum of the products of b by
      the powers of x that occur in a. */
  function Times(a: bv8, b: bv8): bv8 {
    var b1 := Xtime(b);
    var b2 := Xtime(b1);
    var b3 := Xtime(b2);
    var b4 := Xtime(b3);
    var b5 := Xtime(b4);
    var b6 := Xtime(b5);
    var b7 := Xtime(b6);
    Add(Scale(a & 1, b), Add(Scale((a >> 1) & 1, b1), Add(Scale((a >> 2) & 1, b2), Add(Scale((a >> 3) & 1, b3),
    Add(Scale((a >> 4) & 1, b4), Add(Scale((a >> 5) & 1, b5), Add(Scale((a >> 6) & 1, b6), Scale(a >> 7, b7))))))))
  }

  /** The affine map of section 5.1.1. */
  function Affine(b: bv8): bv8 {
    b ^ b.RotateLeft(1) ^ b.RotateLeft(2) ^ b.RotateLeft(3) ^ b.RotateLeft(4) ^ 0x63
  }

  function InvAffine(b: bv8): bv8 {
    b.RotateLeft(1) ^ b.RotateLeft(3) ^ b.RotateLeft(6) ^ 0x05
  }

  // ---- The tables of aes.h ----

  /** gf_mul holds the products by {02}, {03}, {09}, {0b}, {0d} and {0e}, in this order. */
  lemma GfMulIsMultiplication(x: bv8)
    ensures GfMul(x, 0) == Times(0x02, x)
    ensures GfMul(x, 1) == Times(0x03, x)
    ensures GfMul(x, 2) == Times(0x09, x)
    ensures GfMul(x, 3) == Times(0x0B, x)
    ensures GfMul(x, 4) == Times(0x0D, x)
    ensures GfMul(x, 5) == Times(0x0E, x)
  {
    hide GfColumn0, GfColumn1, GfColumn2, GfColumn3, GfColumn4, GfColumn5, Times;
    Column0(x);
    Column1(x);
    Column2(x);
    Column3(x);
    Column4(x);
    Column5(x);
  }

  lemma Column0(x: bv8)
    ensures GfColumn0(x) == Times(0x02, x)
  {}

  lemma Column1(x: bv8)
    ensures GfColumn1(x) == Times(0x03, x)
  {}

  lemma Column2(x: bv8)
    ensures GfColumn2(x) == Times(0x09, x)
  {}

  lemma Column3(x: bv8)
    ensures GfColumn3(x) == Times(0x0B, x)
  {}

  lemma Column4(x: bv8)
    ensures GfColumn4(x) == Times(0x0D, x)
  {}

  lemma Column5(x: bv8)
    ensures GfColumn5(x) == Times(0x0E, x)
  {}

  /** Section 5.1.1: aes_sbox is the affine map of the multiplicative inverse, {00} standing for
      its own inverse. */
  lemma SboxIsAffineInverse(x: bv8) returns (inverse: bv8)
    ensures if x == 0 then inverse == 0 else Times(x, inverse) == 1
    ensures AesSbox(x) == Affine(inverse)
  {
    hide AesSbox, Times;
    inverse := InvAffine(AesSbox(x));
    SboxInverts(x, inverse);
  }

  lemma SboxInverts(x: bv8, inverse: bv8)
    requires inverse == InvAffine(AesSbox(x))
    ensures if x == 0 then inverse == 0 else Times(x, inverse) == 1
  {}

  lemma InvSboxOfSbox(x: bv8)
    ensures AesInvSbox(AesSbox(x)) == x
  {}

  lemma SboxOfInvSbox(x: bv8)
    ensures AesSbox(AesInvSbox(x)) == x
  {}

  // ---- Linearity ----

  lemma AddProperties(x: bv8)
    ensures Add(x, 0) == x && Add(0, x) == x && Add(x, x) == 0
  {}

  /** Sums may be regrouped. */
  lemma Regroup(p: bv8, q: bv8, r: bv8, s: bv8)
    ensures Add(Add(p, q), Add(r, s)) == Add(Add(p, r), Add(q, s))
  {
    calc {
      Add(Add(p, q), Add(r, s));
      (p ^ q) ^ (r ^ s);
      (p ^ r) ^ (q ^ s);
      Add(Add(p, r), Add(q, s));
    }
  }

  lemma XtimeLinear(x: bv8, y: bv8)
    ensures Xtime(Add(x, y)) == Add(Xtime(x), Xtime(y))
  {}

  lemma ScaleLinear(bit: bv8, x: bv8, y: bv8)
    requires bit <= 1
    ensures Scale(bit, Add(x, y)) == Add(Scale(bit, x), Scale(bit, y))
  {
    if bit == 0 {
    } else {
      assert bit == 1;
    }
  }

  /** Multiplication distributes over addition. */
  lemma TimesLinear(a: bv8, x: bv8, y: bv8)
    ensures Times(a, Add(x, y)) == Add(Times(a, x), Times(a, y))
  {
    hide Xtime, Scale, Add;
    var x1, y1 := Xtime(x), Xtime(y);
    var x2, y2 := Xtime(x1), Xtime(y1);
    var x3, y3 := Xtime(x2), Xtime(y2);
    var x4, y4 := Xtime(x3), Xtime(y3);
    var x5, y5 := Xtime(x4), Xtime(y4);
    var x6, y6 := Xtime(x5), Xtime(y5);
    var x7, y7 := Xtime(x6), Xtime(y6);
    XtimeLinear(x, y);
    XtimeLinear(x1, y1);
    XtimeLinear(x2, y2);
    XtimeLinear(x3, y3);
    XtimeLinear(x4, y4);
    XtimeLinear(x5, y5);
    XtimeLinear(x6, y6);
    var p7, q7 := ScaledPair(a >> 7, x7, y7);
    var p6, q6 := SumOfPairs((a >> 6) & 1, x6, y6, p7, q7);
    var p5, q5 := SumOfPairs((a >> 5) & 1, x5, y5, p6, q6);
    var p4, q4 := SumOfPairs((a >> 4) & 1, x4, y4, p5, q5);
    var p3, q3 := SumOfPairs((a >> 3) & 1, x3, y3, p4, q4);
    var p2, q2 := SumOfPairs((a >> 2) & 1, x2, y2, p3, q3);
    var p1, q1 := SumOfPairs((a >> 1) & 1, x1, y1, p2, q2);
    var p0, q0 := SumOfPairs(a & 1, x, y, p1, q1);
  }

  lemma ScaledPair(bit: bv8, x: bv8, y: bv8) returns (p: bv8, q: bv8)
    requires bit <= 1
    ensures p == Scale(bit, x) && q == Scale(bit, y) && Scale(bit, Add(x, y)) == Add(p, q)
  {
    hide Scale, Add;
    p, q := Scale(bit, x), Scale(bit, y);
    ScaleLinear(bit, x, y);
  }

  lemma SumOfPairs(bit: bv8, x: bv8, y: bv8, p: bv8, q: bv8) returns (p': bv8, q': bv8)
    requires bit <= 1
    ensures p' == Add(Scale(bit, x), p) && q' == Add(Scale(bit, y), q)
    ensures Add(Scale(bit, Add(x, y)), Add(p, q)) == Add(p', q')
  {
    hide Scale, Add;
    p', q' := Add(Scale(bit, x), p), Add(Scale(bit, y), q);
    ScaleLinear(bit, x, y);
    Regroup(Scale(bit, x), Scale(bit, y), p, q);
  }

  // ---- One column of the state under MixColumns ----

  /** Sections 5.1.3 and 5.3.3: entry r of a column whose entries, from r on and cyclically, are
      a, b, c and d. */
  function Mix(a: bv8, b: bv8, c: bv8, d: bv8): bv8 {
    Add(Add(Times(0x02, a), Times(0x03, b)), Add(c, d))
  }

  function InvMix(a: bv8, b: bv8, c: bv8, d: bv8): bv8 {
    Add(Add(Times(0x0E, a), Times(0x0B, b)), Add(Times(0x0D, c), Times(0x09, d)))
  }

  lemma MixLinear(a: bv8, b: bv8, c: bv8, d: bv8, a': bv8, b': bv8, c': bv8, d': bv8)
    ensures Mix(Add(a, a'), Add(b, b'), Add(c, c'), Add(d, d')) == Add(Mix(a, b, c, d), Mix(a', b', c', d'))
  {
    hide Times, Add;
    TimesLinear(0x02, a, a');
    TimesLinear(0x03, b, b');
    Regroup(Times(0x02, a), Times(0x02, a'), Times(0x03, b), Times(0x03, b'));
    Regroup(c, c', d, d');
    Regroup(Add(Times(0x02, a), Times(0x03, b)), Add(Times(0x02, a'), Times(0x03, b')), Add(c, d), Add(c', d'));
  }

  lemma InvMixLinear(a: bv8, b: bv8, c: bv8, d: bv8, a': bv8, b': bv8, c': bv8, d': bv8)
    ensures InvMix(Add(a, a'), Add(b, b'), Add(c, c'), Add(d, d')) == Add(InvMix(a, b, c, d), InvMix(a', b', c', d'))
  {
    hide Times, Add;
    TimesLinear(0x0E, a, a');
    TimesLinear(0x0B, b, b');
    TimesLinear(0x0D, c, c');
    TimesLinear(0x09, d, d');
    Regroup(Times(0x0E, a), Times(0x0E, a'), Times(0x0B, b), Times(0x0B, b'));
    Regroup(Times(0x0D, c), Times(0x0D, c'), Times(0x09, d), Times(0x09, d'));
    Regroup(Add(Times(0x0E, a), Times(0x0B, b)), Add(Times(0x0E, a'), Times(0x0B, b')),
            Add(Times(0x0D, c), Times(0x09, d)), Add(Times(0x0D, c'), Times(0x09, d')));
  }

  /** The two compositions, entry by entry. */
  function InvMixOfMix(a: bv8, b: bv8, c: bv8, d: bv8): bv8 {
    InvMix(Mix(a, b, c, d), Mix(b, c, d, a), Mix(c, d, a, b), Mix(d, a, b, c))
  }

  function MixOfInvMix(a: bv8, b: bv8, c: bv8, d: bv8): bv8 {
    Mix(InvMix(a, b, c, d), InvMix(b, c, d, a), InvMix(c, d, a, b), InvMix(d, a, b, c))
  }

  lemma InvMixOfMixLinear(a: bv8, b: bv8, c: bv8, d: bv8, a': bv8, b': bv8, c': bv8, d': bv8)
    ensures InvMixOfMix(Add(a, a'), Add(b, b'), Add(c, c'), Add(d, d')) ==
            Add(InvMixOfMix(a, b, c, d), InvMixOfMix(a', b', c', d'))
  {
    hide Mix, InvMix, Add;
    MixLinear(a, b, c, d, a', b', c', d');
    MixLinear(b, c, d, a, b', c', d', a');
    MixLinear(c, d, a, b, c', d', a', b');
    MixLinear(d, a, b, c, d', a', b', c');
    InvMixLinear(Mix(a, b, c, d), Mix(b, c, d, a), Mix(c, d, a, b), Mix(d, a, b, c),
                 Mix(a', b', c', d'), Mix(b', c', d', a'), Mix(c', d', a', b'), Mix(d', a', b', c'));
  }

  lemma MixOfInvMixLinear(a: bv8, b: bv8, c: bv8, d: bv8, a': bv8, b': bv8, c': bv8, d': bv8)
    ensures MixOfInvMix(Add(a, a'), Add(b, b'), Add(c, c'), Add(d, d')) ==
            Add(MixOfInvMix(a, b, c, d), MixOfInvMix(a', b', c', d'))
  {
    hide Mix, InvMix, Add;
    InvMixLinear(a, b, c, d, a', b', c', d');
    InvMixLinear(b, c, d, a, b', c', d', a');
    InvMixLinear(c, d, a, b, c', d', a', b');
    InvMixLinear(d, a, b, c, d', a', b', c');
    MixLinear(InvMix(a, b, c, d), InvMix(b, c, d, a), InvMix(c, d, a, b), InvMix(d, a, b, c),
              InvMix(a', b', c', d'), InvMix(b', c', d', a'), InvMix(c', d', a', b'), InvMix(d', a', b', c'));
  }

  lemma MixUnitA(x: bv8)
    ensures InvMixOfMix(x, 0, 0, 0) == x
  {}

  lemma MixUnitB(x: bv8)
    ensures InvMixOfMix(0, x, 0, 0) == 0
  {}

  lemma MixUnitC(x: bv8)
    ensures InvMixOfMix(0, 0, x, 0) == 0
  {}

  lemma MixUnitD(x: bv8)
    ensures InvMixOfMix(0, 0, 0, x) == 0
  {}

  lemma InvMixUnitA(x: bv8)
    ensures MixOfInvMix(x, 0, 0, 0) == x
  {}

  lemma InvMixUnitB(x: bv8)
    ensures MixOfInvMix(0, x, 0, 0) == 0
  {}

  lemma InvMixUnitC(x: bv8)
    ensures MixOfInvMix(0, 0, x, 0) == 0
  {}

  lemma InvMixUnitD(x: bv8)
    ensures MixOfInvMix(0, 0, 0, x) == 0
  {}

  /** The circulant of {02} {03} {01} {01} and that of {0e} {0b} {0d} {09} are inverse to each
      other: both compositions are linear, and each gives the right answer on the four units. */
  lemma MixInverts(a: bv8, b: bv8, c: bv8, d: bv8)
    ensures InvMix(Mix(a, b, c, d), Mix(b, c, d, a), Mix(c, d, a, b), Mix(d, a, b, c)) == a
    ensures Mix(InvMix(a, b, c, d), InvMix(b, c, d, a), InvMix(c, d, a, b), InvMix(d, a, b, c)) == a
  {
    hide Mix, InvMix, Add;
    AddProperties(0);
    AddProperties(a);
    AddProperties(b);
    AddProperties(c);
    AddProperties(d);
    InvMixOfMixLinear(a, 0, 0, 0, 0, b, 0, 0);
    InvMixOfMixLinear(a, b, 0, 0, 0, 0, c, 0);
    InvMixOfMixLinear(a, b, c, 0, 0, 0, 0, d);
    MixOfInvMixLinear(a, 0, 0, 0, 0, b, 0, 0);
    MixOfInvMixLinear(a, b, 0, 0, 0, 0, c, 0);
    MixOfInvMixLinear(a, b, c, 0, 0, 0, 0, d);
    MixUnitA(a);
    MixUnitB(b);
    MixUnitC(c);
    MixUnitD(d);
    InvMixUnitA(a);
    InvMixUnitB(b);
    InvMixUnitC(c);
    InvMixUnitD(d);
    assert InvMixOfMix(a, b, c, d) == a && MixOfInvMix(a, b, c, d) == a;
  }
}
