/** The distance of the Bech32 code (src/bech32.cpp): its generator has three consecutive powers of a primitive element
    of the field with 1024 elements as roots, so up to three wrong symbols within 1023 are always detected. */
module Bech32Errors {
  import opened Hiding
  import opened Wrappers
  import opened TenBits
  import opened Bech32Checksum
  import opened Bech32

  // ----- symbols as field elements -----

  function FiveBits(b0: bool, b1: bool, b2: bool, b3: bool, b4: bool): bv10 {
    Add(Add(Add(Add(If(b0, 0x1), If(b1, 0xe)), If(b2, 0x54)), If(b3, 0x358)), If(b4, 0xbf))
  }

  /** The image of a 5-bit symbol: its lowest bits stand for 1 and a, with a^5 = a^3 + 1. */
  function Embedding(x: bv8): bv10 {
    FiveBits(x & 1 != 0, x & 2 != 0, x & 4 != 0, x & 8 != 0, x & 16 != 0)
  }

  ghost predicate IsEmbed(x: bv8, r: bv10) {
    forall n :: Look(n) ==> r == Embedding(x)
  }

  /** `Embedding`, unfolded only on demand. */
  ghost function Embed(x: bv8): bv10 {
    assert IsEmbed(x, Embedding(x));
    var r :| IsEmbed(x, r);
    r
  }

  lemma EmbedIs(x: bv8)
    ensures Embed(x) == Embedding(x)
  {
    assert Look(0);
  }

  lemma EmbedZero(x: bv8)
    requires x < 32
    ensures Embed(x) == 0 <==> x == 0
  {
    EmbedIs(x);
  }

  ghost function SumOfFive(a0: bv10, a1: bv10, a2: bv10, a3: bv10, a4: bv10): bv10 {
    Sum(Sum(Sum(Sum(a0, a1), a2), a3), a4)
  }

  lemma FiveBitsIs(b0: bool, b1: bool, b2: bool, b3: bool, b4: bool)
    ensures FiveBits(b0, b1, b2, b3, b4)
            == SumOfFive(If(b0, 0x1), If(b1, 0xe), If(b2, 0x54), If(b3, 0x358), If(b4, 0xbf))
  {
    var s1 := Sum(If(b0, 0x1), If(b1, 0xe));
    var s2 := Sum(s1, If(b2, 0x54));
    var s3 := Sum(s2, If(b3, 0x358));
    SumIsAdd(If(b0, 0x1), If(b1, 0xe));
    SumIsAdd(s1, If(b2, 0x54));
    SumIsAdd(s2, If(b3, 0x358));
    SumIsAdd(s3, If(b4, 0xbf));
  }

  lemma SumOfFiveLinear(a0: bv10, a1: bv10, a2: bv10, a3: bv10, a4: bv10, b0: bv10, b1: bv10, b2: bv10, b3: bv10,
                        b4: bv10)
    ensures SumOfFive(Sum(a0, b0), Sum(a1, b1), Sum(a2, b2), Sum(a3, b3), Sum(a4, b4))
            == Sum(SumOfFive(a0, a1, a2, a3, a4), SumOfFive(b0, b1, b2, b3, b4))
  {
    var s1, t1 := Sum(a0, a1), Sum(b0, b1);
    var s2, t2 := Sum(s1, a2), Sum(t1, b2);
    var s3, t3 := Sum(s2, a3), Sum(t2, b3);
    SumRegroup(a0, b0, a1, b1);
    SumRegroup(s1, t1, a2, b2);
    SumRegroup(s2, t2, a3, b3);
    SumRegroup(s3, t3, a4, b4);
  }

  lemma IfSum(p: bool, q: bool, c: bv10)
    ensures If(p != q, c) == Sum(If(p, c), If(q, c))
  {
    IfXor(p, q, c);
    SumIs(If(p, c), If(q, c));
  }

  lemma FiveBitsLinear(p0: bool, p1: bool, p2: bool, p3: bool, p4: bool, q0: bool, q1: bool, q2: bool, q3: bool,
                       q4: bool)
    ensures FiveBits(p0 != q0, p1 != q1, p2 != q2, p3 != q3, p4 != q4)
            == Sum(FiveBits(p0, p1, p2, p3, p4), FiveBits(q0, q1, q2, q3, q4))
  {
    IfSum(p0, q0, 0x1);
    IfSum(p1, q1, 0xe);
    IfSum(p2, q2, 0x54);
    IfSum(p3, q3, 0x358);
    IfSum(p4, q4, 0xbf);
    FiveBitsIs(p0, p1, p2, p3, p4);
    FiveBitsIs(q0, q1, q2, q3, q4);
    FiveBitsIs(p0 != q0, p1 != q1, p2 != q2, p3 != q3, p4 != q4);
    SumOfFiveLinear(If(p0, 0x1), If(p1, 0xe), If(p2, 0x54), If(p3, 0x358), If(p4, 0xbf),
                    If(q0, 0x1), If(q1, 0xe), If(q2, 0x54), If(q3, 0x358), If(q4, 0xbf));
  }

  lemma SymbolBits(x: bv8, y: bv8)
    ensures ((x ^ y) & 1 != 0) == ((x & 1 != 0) != (y & 1 != 0)) && ((x ^ y) & 2 != 0) == ((x & 2 != 0) != (y & 2 != 0))
    ensures ((x ^ y) & 4 != 0) == ((x & 4 != 0) != (y & 4 != 0)) && ((x ^ y) & 8 != 0) == ((x & 8 != 0) != (y & 8 != 0))
    ensures ((x ^ y) & 16 != 0) == ((x & 16 != 0) != (y & 16 != 0))
  {
  }

  lemma EmbedLinear(x: bv8, y: bv8)
    ensures Embed(x ^ y) == Sum(Embed(x), Embed(y))
  {
    EmbedIs(x);
    EmbedIs(y);
    EmbedIs(x ^ y);
    SymbolBits(x, y);
    FiveBitsLinear(x & 1 != 0, x & 2 != 0, x & 4 != 0, x & 8 != 0, x & 16 != 0,
                   y & 1 != 0, y & 2 != 0, y & 4 != 0, y & 8 != 0, y & 16 != 0);
  }

  // ----- lists of symbols as polynomials -----

  /** The value of the polynomial with these coefficients at z^m. */
  ghost function Eval(m: nat, d: seq<bv8>): bv10 {
    if d == [] then 0 else Sum(Power(m, Eval(m, d[..|d| - 1])), Embed(d[|d| - 1]))
  }

  lemma EvalAppend(m: nat, d: seq<bv8>, x: bv8)
    ensures Eval(m, d + [x]) == Sum(Power(m, Eval(m, d)), Embed(x))
  {
    assert (d + [x])[..|d|] == d;
  }

  lemma {:induction false} EvalLinear(m: nat, v: seq<bv8>, w: seq<bv8>)
    requires |v| == |w|
    ensures Eval(m, Difference(v, w)) == Sum(Eval(m, v), Eval(m, w))
  {
    if v == [] {
      SumZero(0);
    } else {
      var n := |v| - 1;
      EvalLinear(m, v[..n], w[..n]);
      assert Difference(v, w)[..n] == Difference(v[..n], w[..n]);
      PowerLinear(m, Eval(m, v[..n]), Eval(m, w[..n]));
      EmbedLinear(v[n], w[n]);
      SumRegroup(Power(m, Eval(m, v[..n])), Power(m, Eval(m, w[..n])), Embed(v[n]), Embed(w[n]));
    }
  }

  /** The leading coefficient. */
  lemma {:induction false} EvalHead(m: nat, x: bv8, d: seq<bv8>)
    ensures Eval(m, [x] + d) == Sum(Power(m * |d|, Embed(x)), Eval(m, d))
  {
    if d == [] {
      assert [x] + d == [] + [x];
      EvalAppend(m, [], x);
      PowerZero(m, 0);
      SumZero(Embed(x));
    } else {
      var n := |d| - 1;
      assert ([x] + d)[..n + 1] == [x] + d[..n];
      EvalHead(m, x, d[..n]);
      PowerLinear(m, Power(m * n, Embed(x)), Eval(m, d[..n]));
      PowerAdd(m, m * n, Embed(x));
      assert m + m * n == m * |d|;
      SumAssoc(Power(m * |d|, Embed(x)), Power(m, Eval(m, d[..n])), Embed(d[n]));
    }
  }

  // ----- remainders as field elements -----

  ghost predicate AreSix(c: bv32, g: seq<bv8>) {
    forall n :: Look(n) ==> g == Groups(c)
  }

  /** `Groups`, unfolded only on demand. */
  ghost function Six(c: bv32): (g: seq<bv8>)
    ensures |g| == 6
  {
    assert AreSix(c, Groups(c));
    var g: seq<bv8> :| |g| == 6 && AreSix(c, g);
    g
  }

  lemma SixIs(c: bv32)
    ensures Six(c) == Groups(c)
  {
    assert Look(0);
  }

  /** The value of a remainder, read as a polynomial with six coefficients, at z^m. */
  ghost function Value(m: nat, c: bv32): bv10 { Eval(m, Six(c)) }

  lemma GroupXor(a: bv32, b: bv32, i: nat)
    requires i < 6
    ensures Group(a ^ b, i) == Group(a, i) ^ Group(b, i)
  {
    if i == 0 {
    } else if i == 1 {
    } else if i == 2 {
    } else if i == 3 {
    } else if i == 4 {
    } else {
    }
  }

  lemma SixAt(c: bv32, i: nat)
    requires i < 6
    ensures Six(c)[i] == Group(c, i)
  {
    SixIs(c);
    GroupsAt(c, i);
  }

  lemma SixXorAt(a: bv32, b: bv32, i: nat)
    requires i < 6
    ensures Six(Xor(a, b))[i] == Six(a)[i] ^ Six(b)[i]
  {
    XorIs(a, b);
    GroupXor(a, b, i);
    SixAt(a, i);
    SixAt(b, i);
    SixAt(Xor(a, b), i);
  }

  lemma ValueLinear(m: nat, a: bv32, b: bv32)
    ensures Value(m, Xor(a, b)) == Sum(Value(m, a), Value(m, b))
  {
    forall i: nat | i < 6
      ensures Six(Xor(a, b))[i] == Six(a)[i] ^ Six(b)[i]
    {
      SixXorAt(a, b, i);
    }
    assert Six(Xor(a, b)) == Difference(Six(a), Six(b));
    EvalLinear(m, Six(a), Six(b));
  }

  // ----- the constants of the checksum -----

  /** One step of evaluation with the power z^m as a number. */
  function Horner(z: bv10, v: bv10, x: bv8): bv10 { Add(Product(z, v), Embedding(x)) }

  lemma HornerStep(m: nat, v: bv10, x: bv8)
    ensures Sum(Power(m, v), Embed(x)) == Horner(Power(m, 1), v, x)
  {
    PowerIsProduct(m, v);
    EmbedIs(x);
    SumIsAdd(Power(m, v), Embed(x));
  }

  lemma EvalStep(m: nat, z: bv10, d: seq<bv8>, n: nat, v: bv10, w: bv10)
    requires n < |d| && Power(m, 1) == z && Eval(m, d[..n]) == v && Horner(z, v, d[n]) == w
    ensures Eval(m, d[..n + 1]) == w
  {
    assert d[..n + 1] == d[..n] + [d[n]];
    EvalAppend(m, d[..n], d[n]);
    HornerStep(m, v, d[n]);
  }

  lemma EvalFirst(m: nat, d: seq<bv8>)
    requires d != []
    ensures Eval(m, d[..1]) == Embedding(d[0])
  {
    assert d[..1] == [] + [d[0]];
    EvalAppend(m, [], d[0]);
    PowerZero(m, 0);
    SumZero(Embed(d[0]));
    EmbedIs(d[0]);
  }

  /** The value of a constant with the given partial values. */
  lemma ConstantValue(m: nat, z: bv10, c: bv32, v0: bv10, v1: bv10, v2: bv10, v3: bv10, v4: bv10, v5: bv10, z6: bv10,
                      e: bv10)
    requires Power(m, 1) == z && Power(6 * m, 1) == z6 && Product(z6, e) == v5
    requires Embedding(Group(c, 0)) == v0 && Horner(z, v0, Group(c, 1)) == v1 && Horner(z, v1, Group(c, 2)) == v2
    requires Horner(z, v2, Group(c, 3)) == v3 && Horner(z, v3, Group(c, 4)) == v4 && Horner(z, v4, Group(c, 5)) == v5
    ensures Value(m, c) == Power(6 * m, e)
  {
    var d := Six(c);
    SixAt(c, 0);
    SixAt(c, 1);
    SixAt(c, 2);
    SixAt(c, 3);
    SixAt(c, 4);
    SixAt(c, 5);
    EvalFirst(m, d);
    EvalStep(m, z, d, 1, v0, v1);
    EvalStep(m, z, d, 2, v1, v2);
    EvalStep(m, z, d, 3, v2, v3);
    EvalStep(m, z, d, 4, v3, v4);
    EvalStep(m, z, d, 5, v4, v5);
    assert d[..6] == d;
    PowerIsProduct(6 * m, e);
  }

  /** The five constants of the checksum are x^6 times the five bits, at z^m. */
  ghost predicate Constants(m: nat) {
    && Value(m, 0x3b6a_57b2) == Power(6 * m, 0x1) && Value(m, 0x2650_8e6d) == Power(6 * m, 0xe)
    && Value(m, 0x1ea1_19fa) == Power(6 * m, 0x54) && Value(m, 0x3d42_33dd) == Power(6 * m, 0x358)
    && Value(m, 0x2a14_62b3) == Power(6 * m, 0xbf)
  }

  lemma Constants24(m: nat)
    requires Power(m, 1) == 0x3f0 && Power(6 * m, 1) == 0x2ba
    ensures Constants(m)
  {
    ConstantValue(m, 0x3f0, 0x3b6a_57b2, 0x3b2, 0x7d, 0x7d, 0x7c, 0xd4, 0x2ba, 0x2ba, 0x1);
    ConstantValue(m, 0x3f0, 0x2650_8e6d, 0xb0, 0x2e6, 0x2e6, 0x2e8, 0x17b, 0x1a5, 0x2ba, 0xe);
    ConstantValue(m, 0x3f0, 0x1ea1_19fa, 0x303, 0x28d, 0x28d, 0x2d9, 0x3a7, 0x2b0, 0x2ba, 0x54);
    ConstantValue(m, 0x3f0, 0x3d42_33dd, 0x3bd, 0xaf, 0xaf, 0x3f7, 0x66, 0x1c9, 0x2ba, 0x358);
    ConstantValue(m, 0x3f0, 0x2a14_62b3, 0xea, 0x3b9, 0x3b9, 0x306, 0x264, 0xb8, 0x2ba, 0xbf);
  }

  lemma Constants25(m: nat)
    requires Power(m, 1) == 0x2c3 && Power(6 * m, 1) == 0xa6
    ensures Constants(m)
  {
    ConstantValue(m, 0x2c3, 0x3b6a_57b2, 0x3b2, 0x1d5, 0x3ad, 0x69, 0x3df, 0xa6, 0xa6, 0x1);
    ConstantValue(m, 0x2c3, 0x2650_8e6d, 0xb0, 0x10, 0xa, 0x23e, 0x2b6, 0x3c7, 0xa6, 0xe);
    ConstantValue(m, 0x2c3, 0x1ea1_19fa, 0x303, 0xe0, 0x6c, 0x3be, 0x1ed, 0x226, 0xa6, 0x54);
    ConstantValue(m, 0x2c3, 0x3d42_33dd, 0x3bd, 0x63, 0x208, 0xf8, 0x140, 0x32e, 0xa6, 0x358);
    ConstantValue(m, 0x2c3, 0x2a14_62b3, 0xea, 0x252, 0x2ba, 0xf3, 0x2e5, 0x23b, 0xa6, 0xbf);
  }

  lemma Constants26(m: nat)
    requires Power(m, 1) == 0xa5 && Power(6 * m, 1) == 0x98
    ensures Constants(m)
  {
    ConstantValue(m, 0xa5, 0x3b6a_57b2, 0x3b2, 0x285, 0xaa, 0x137, 0x193, 0x98, 0x98, 0x1);
    ConstantValue(m, 0xa5, 0x2650_8e6d, 0xb0, 0xdf, 0x38f, 0x6f, 0x3b4, 0x2b3, 0x98, 0xe);
    ConstantValue(m, 0xa5, 0x1ea1_19fa, 0x303, 0x119, 0x1d6, 0x21a, 0x94, 0x1db, 0x98, 0x54);
    ConstantValue(m, 0xa5, 0x3d42_33dd, 0x3bd, 0x1fb, 0x2, 0x246, 0x2fb, 0x44, 0x98, 0x358);
    ConstantValue(m, 0xa5, 0x2a14_62b3, 0xea, 0x184, 0x1c, 0x16e, 0x22b, 0x3b8, 0x98, 0xbf);
  }

  /** z^24, z^25 and z^26 are roots of the generator. */
  lemma Roots()
    ensures Constants(24) && Constants(25) && Constants(26)
  {
    Numbers();
    MoreNumbers();
    Constants24(24);
    Constants25(25);
    Constants26(26);
  }

  // ----- one step of the remainder -----

  lemma ValueZero(m: nat)
    ensures Value(m, 0) == 0
  {
    ValueLinear(m, 0, 0);
    XorZero(0);
    SumZero(Value(m, 0));
  }

  lemma ValuePick(m: nat, c: bv32, on: bool, k: bv32, e: bv10)
    requires Value(m, k) == Power(6 * m, e)
    ensures Value(m, Xor(c, Pick(on, k))) == Sum(Value(m, c), Power(6 * m, If(on, e)))
  {
    ValueLinear(m, c, Pick(on, k));
    ValueZero(m);
    PowerZero(6 * m, 0);
  }

  lemma SumOfFiveMore(l: bv10, a0: bv10, a1: bv10, a2: bv10, a3: bv10, a4: bv10)
    ensures Sum(Sum(Sum(Sum(Sum(l, a0), a1), a2), a3), a4) == Sum(l, SumOfFive(a0, a1, a2, a3, a4))
  {
    SumAssoc(l, a0, a1);
    SumAssoc(l, Sum(a0, a1), a2);
    SumAssoc(l, Sum(Sum(a0, a1), a2), a3);
    SumAssoc(l, Sum(Sum(Sum(a0, a1), a2), a3), a4);
  }

  lemma PowerOfFive(n: nat, a0: bv10, a1: bv10, a2: bv10, a3: bv10, a4: bv10)
    ensures Power(n, SumOfFive(a0, a1, a2, a3, a4))
            == SumOfFive(Power(n, a0), Power(n, a1), Power(n, a2), Power(n, a3), Power(n, a4))
  {
    PowerLinear(n, a0, a1);
    PowerLinear(n, Sum(a0, a1), a2);
    PowerLinear(n, Sum(Sum(a0, a1), a2), a3);
    PowerLinear(n, Sum(Sum(Sum(a0, a1), a2), a3), a4);
  }

  lemma ValueMix(m: nat, l: bv32, b1: bool, b2: bool, b4: bool, b8: bool, b16: bool)
    requires Constants(m)
    ensures Value(m, Mix(l, b1, b2, b4, b8, b16)) == Sum(Value(m, l), Power(6 * m, FiveBits(b1, b2, b4, b8, b16)))
  {
    var n := 6 * m;
    var c1 := Xor(l, Pick(b1, 0x3b6a_57b2));
    var c2 := Xor(c1, Pick(b2, 0x2650_8e6d));
    var c4 := Xor(c2, Pick(b4, 0x1ea1_19fa));
    var c8 := Xor(c4, Pick(b8, 0x3d42_33dd));
    ValuePick(m, l, b1, 0x3b6a_57b2, 0x1);
    ValuePick(m, c1, b2, 0x2650_8e6d, 0xe);
    ValuePick(m, c2, b4, 0x1ea1_19fa, 0x54);
    ValuePick(m, c4, b8, 0x3d42_33dd, 0x358);
    ValuePick(m, c8, b16, 0x2a14_62b3, 0xbf);
    SumOfFiveMore(Value(m, l), Power(n, If(b1, 0x1)), Power(n, If(b2, 0xe)), Power(n, If(b4, 0x54)),
                  Power(n, If(b8, 0x358)), Power(n, If(b16, 0xbf)));
    PowerOfFive(n, If(b1, 0x1), If(b2, 0xe), If(b4, 0x54), If(b8, 0x358), If(b16, 0xbf));
    FiveBitsIs(b1, b2, b4, b8, b16);
  }

  lemma LeadBits(c: bv32)
    requires c < 0x4000_0000
    ensures Top(c) & 1 != 0 <==> Group(c, 0) & 1 != 0
    ensures Top(c) & 2 != 0 <==> Group(c, 0) & 2 != 0
    ensures Top(c) & 4 != 0 <==> Group(c, 0) & 4 != 0
    ensures Top(c) & 8 != 0 <==> Group(c, 0) & 8 != 0
    ensures Top(c) & 16 != 0 <==> Group(c, 0) & 16 != 0
  {
  }

  lemma LeadIs(c: bv32)
    requires c < 0x4000_0000
    ensures Embed(Six(c)[0]) == FiveBits(Bit(c, 1), Bit(c, 2), Bit(c, 4), Bit(c, 8), Bit(c, 16))
  {
    SixAt(c, 0);
    EmbedIs(Group(c, 0));
    LeadBits(c);
    BitIs(c, 1);
    BitIs(c, 2);
    BitIs(c, 4);
    BitIs(c, 8);
    BitIs(c, 16);
  }

  lemma LowGroup(c: bv32, i: nat)
    requires i < 5
    ensures Group(Low(c), i) == Group(c, i + 1) && Group(Low(c), 5) == 0
  {
    if i == 0 {
    } else if i == 1 {
    } else if i == 2 {
    } else if i == 3 {
    } else {
    }
  }

  lemma SixOfLowAt(c: bv32, i: nat)
    requires i < 5
    ensures Six(Low(c))[i] == Six(c)[i + 1] && Six(Low(c))[5] == 0
  {
    LowGroup(c, i);
    SixAt(Low(c), i);
    SixAt(Low(c), 5);
    SixAt(c, i + 1);
  }

  lemma ValueOfLow(m: nat, c: bv32)
    ensures Value(m, Low(c)) == Power(m, Eval(m, Six(c)[1..]))
  {
    var t := Six(c)[1..];
    forall i: nat | i < 5
      ensures Six(Low(c))[i] == t[i] && Six(Low(c))[5] == 0
    {
      SixOfLowAt(c, i);
    }
    assert Six(Low(c)) == t + [0] by {
      SixOfLowAt(c, 0);
    }
    EvalAppend(m, t, 0);
    EmbedZero(0);
    SumZero(Power(m, Eval(m, t)));
  }

  /** At a root of the generator, a step of the remainder is multiplication. */
  lemma ValueOfShift(m: nat, c: bv32)
    requires c < 0x4000_0000 && Constants(m)
    ensures Value(m, Shift(c)) == Power(m, Value(m, c))
  {
    var x, t := Six(c)[0], Six(c)[1..];
    ValueMix(m, Low(c), Bit(c, 1), Bit(c, 2), Bit(c, 4), Bit(c, 8), Bit(c, 16));
    LeadIs(c);
    ValueOfLow(m, c);
    assert Six(c) == [x] + t;
    EvalHead(m, x, t);
    PowerLinear(m, Power(m * 5, Embed(x)), Eval(m, t));
    PowerAdd(m, m * 5, Embed(x));
    assert m + m * 5 == 6 * m;
    SumComm(Power(m, Eval(m, t)), Power(6 * m, Embed(x)));
  }

  lemma {:induction false} EvalZeroes(m: nat, n: nat)
    ensures Eval(m, Zeroes(n)) == 0
  {
    if n > 0 {
      EvalZeroes(m, n - 1);
      assert Zeroes(n)[..n - 1] == Zeroes(n - 1);
      PowerZero(m, 0);
      EmbedZero(0);
      SumZero(0);
    }
  }

  lemma SymbolGroup(x: bv8, i: nat)
    requires x < 32 && i < 6
    ensures Group(x as bv32, i) == if i == 5 then x else 0
  {
    if i == 0 {
    } else if i == 1 {
    } else if i == 2 {
    } else if i == 3 {
    } else if i == 4 {
    } else {
    }
  }

  lemma SixOfSymbolAt(x: bv8, i: nat)
    requires x < 32 && i < 6
    ensures Six(x as bv32)[i] == if i == 5 then x else 0
  {
    SymbolGroup(x, i);
    SixAt(x as bv32, i);
  }

  lemma ValueOfSymbol(m: nat, x: bv8)
    requires x < 32
    ensures Value(m, x as bv32) == Embed(x)
  {
    var g := Six(x as bv32);
    forall i: nat | i < 6
      ensures g[i] == if i == 5 then x else 0
    {
      SixOfSymbolAt(x, i);
    }
    assert g == Zeroes(5) + [x];
    EvalAppend(m, Zeroes(5), x);
    EvalZeroes(m, 5);
    PowerZero(m, 0);
    SumZero(Embed(x));
  }

  lemma ValueOfStep(m: nat, c: bv32, x: bv8)
    requires c < 0x4000_0000 && x < 32 && Constants(m)
    ensures Value(m, Step(c, x)) == Sum(Power(m, Value(m, c)), Embed(x))
  {
    StepIs(c, x);
    ValueLinear(m, Shift(c), x as bv32);
    ValueOfShift(m, c);
    ValueOfSymbol(m, x);
  }

  /** At a root of the generator, the remainder of a list of symbols has the value of the list. */
  lemma {:induction false} ValueOfFold(m: nat, d: seq<bv8>)
    requires Symbols(d) && Constants(m)
    ensures Value(m, Fold(0, d)) == Eval(m, d)
  {
    if d == [] {
      ValueZero(m);
    } else {
      var n := |d| - 1;
      ValueOfFold(m, d[..n]);
      FoldRange(0, d[..n]);
      ValueOfStep(m, Fold(0, d[..n]), d[n]);
    }
  }

  // ----- three symbols -----

  lemma {:induction false} EvalSkip(m: nat, n: nat, d: seq<bv8>)
    ensures Eval(m, Zeroes(n) + d) == Eval(m, d)
  {
    if n == 0 {
      assert Zeroes(0) + d == d;
    } else {
      EvalSkip(m, n - 1, d);
      var t := Zeroes(n - 1) + d;
      assert Zeroes(n) + d == [0] + t;
      EvalHead(m, 0, t);
      EmbedZero(0);
      PowerZero(m * |t|, 0);
      SumZero(Eval(m, t));
    }
  }

  /** Three symbols with zeroes between them. */
  ghost function Sparse(x: bv8, p: nat, y: bv8, q: nat, z: bv8): seq<bv8> {
    [x] + (Zeroes(p) + ([y] + (Zeroes(q) + [z])))
  }

  lemma EvalSparse(m: nat, x: bv8, p: nat, y: bv8, q: nat, z: bv8)
    ensures Eval(m, Sparse(x, p, y, q, z))
            == Sum(Power(m * (p + q + 2), Embed(x)), Sum(Power(m * (q + 1), Embed(y)), Embed(z)))
  {
    var t := Zeroes(q) + [z];
    var u := [y] + t;
    EvalHead(m, x, Zeroes(p) + u);
    EvalSkip(m, p, u);
    EvalHead(m, y, t);
    EvalSkip(m, q, [z]);
    assert [z] == [] + [z];
    EvalAppend(m, [], z);
    PowerZero(m, 0);
    SumZero(Embed(z));
  }

  lemma SumOuter(a: bv10, b: bv10, c: bv10)
    requires Sum(a, Sum(b, c)) == 0
    ensures Sum(Sum(a, b), c) == 0
  {
    SumAssoc(a, b, c);
  }

  lemma PowerDistributes(m: nat, n: nat, a: nat, v: bv10)
    ensures Power((m + n) * a, v) == Power(n * a, Power(m * a, v))
  {
    assert (m + n) * a == n * a + m * a;
    PowerAdd(n * a, m * a, v);
  }

  /** Where a sparse list vanishes, its terms at another power, shifted. */
  lemma SparseTerms(m: nat, x: bv8, p: nat, y: bv8, q: nat, z: bv8, n: nat)
    requires Eval(m + n, Sparse(x, p, y, q, z)) == 0
    ensures var x1, x2 := Power(m * (p + q + 2), Embed(x)), Power(m * (q + 1), Embed(y));
      Sum(Sum(Power(n * (p + q + 2), x1), Power(n * (q + 1), x2)), Embed(z)) == 0
  {
    EvalSparse(m + n, x, p, y, q, z);
    PowerDistributes(m, n, p + q + 2, Embed(x));
    PowerDistributes(m, n, q + 1, Embed(y));
    SumOuter(Power((m + n) * (p + q + 2), Embed(x)), Power((m + n) * (q + 1), Embed(y)), Embed(z));
  }

  /** Three symbols within a window of 1023 that vanish at three consecutive powers: the first one is zero. */
  lemma SparseFirst(x: bv8, p: nat, y: bv8, q: nat, z: bv8)
    requires x < 32 && p + q + 2 < 1023
    requires var d := Sparse(x, p, y, q, z); Eval(24, d) == Eval(25, d) == Eval(26, d) == 0
    ensures x == 0
  {
    var a, b := p + q + 2, q + 1;
    var x1, x2 := Power(24 * a, Embed(x)), Power(24 * b, Embed(y));
    SparseTerms(24, x, p, y, q, z, 0);
    SparseTerms(24, x, p, y, q, z, 1);
    SparseTerms(24, x, p, y, q, z, 2);
    ThreeTerms(x1, x2, Embed(z), a, b);
    PowerZero(24 * a, Embed(x));
    EmbedZero(x);
  }

  lemma EvalPair(m: nat, p: nat, y: bv8, q: nat, z: bv8)
    ensures Eval(m, Sparse(0, p, y, q, z)) == Sum(Power(m * (q + 1), Embed(y)), Embed(z))
  {
    EvalSparse(m, 0, p, y, q, z);
    EmbedZero(0);
    PowerZero(m * (p + q + 2), 0);
    SumZero(Sum(Power(m * (q + 1), Embed(y)), Embed(z)));
  }

  /** Two symbols within a window of 1023 that vanish at two consecutive powers: both are zero. */
  lemma SparseRest(p: nat, y: bv8, q: nat, z: bv8)
    requires y < 32 && z < 32 && q + 1 < 1023
    requires var d := Sparse(0, p, y, q, z); Eval(24, d) == Eval(25, d) == 0
    ensures y == 0 && z == 0
  {
    var b := q + 1;
    var x2 := Power(24 * b, Embed(y));
    EvalPair(24, p, y, q, z);
    EvalPair(25, p, y, q, z);
    PowerDistributes(24, 1, b, Embed(y));
    TwoTerms(x2, Embed(z), b);
    SumEqual(x2, Embed(z));
    PowerZero(24 * b, Embed(y));
    EmbedZero(y);
    EmbedZero(z);
  }

  lemma VanishesAt(m: nat, d: seq<bv8>)
    requires Symbols(d) && Fold(0, d) == 0 && Constants(m)
    ensures Eval(m, d) == 0
  {
    ValueOfFold(m, d);
    ValueZero(m);
  }

  /** Symbols with remainder zero vanish at the roots of the generator. */
  lemma Vanishes(d: seq<bv8>)
    requires Symbols(d) && Fold(0, d) == 0
    ensures Eval(24, d) == Eval(25, d) == Eval(26, d) == 0
  {
    Roots();
    VanishesAt(24, d);
    VanishesAt(25, d);
    VanishesAt(26, d);
  }

  lemma SparseIsZero(x: bv8, p: nat, y: bv8, q: nat, z: bv8)
    requires x < 32 && y < 32 && z < 32 && p + q + 2 < 1023 && Fold(0, Sparse(x, p, y, q, z)) == 0
    ensures x == 0 && y == 0 && z == 0
  {
    Vanishes(Sparse(x, p, y, q, z));
    SparseFirst(x, p, y, q, z);
    SparseRest(p, y, q, z);
  }

  /** Equal except at three places. */
  ghost predicate AtThree<T>(s: seq<T>, t: seq<T>, i: nat, j: nat, k: nat) {
    i < j < k < |s| == |t| && forall n :: 0 <= n < |s| && n != i && n != j && n != k ==> s[n] == t[n]
  }

  lemma SparseSlice(d: seq<bv8>, i: nat, j: nat, k: nat)
    requires AtThree(d, Zeroes(|d|), i, j, k)
    ensures d[i..k + 1] == Sparse(d[i], j - i - 1, d[j], k - j - 1, d[k])
  {
  }

  lemma SparseAgrees(v: seq<bv8>, w: seq<bv8>, i: nat, j: nat, k: nat)
    requires AtThree(v, w, i, j, k) && k - i < 1023 && Symbols(v) && Symbols(w) && Fold(0, Difference(v, w)) == 0
    ensures v == w
  {
    var d := Difference(v, w);
    DifferenceRange(v, w);
    BurstIsZero(d, i, k + 1);
    SparseSlice(d, i, j, k);
    SparseIsZero(d[i], j - i - 1, d[j], k - j - 1, d[k]);
    SymbolXor(v[i], w[i]);
    SymbolXor(v[j], w[j]);
    SymbolXor(v[k], w[k]);
  }

  /** Up to three changed symbols within a window of 1023 always change the remainder, however long the list. */
  lemma ThreeChangesDetected(v: seq<bv8>, w: seq<bv8>, i: nat, j: nat, k: nat)
    requires AtThree(v, w, i, j, k) && k - i < 1023 && Symbols(v) && Symbols(w) && v != w
    ensures Fold(1, v) != Fold(1, w)
  {
    FoldLinear(1, 1, v, w);
    XorZero(1);
    XorZero(Fold(1, v));
    if Fold(0, Difference(v, w)) == 0 {
      SparseAgrees(v, w, i, j, k);
    }
  }

  /** Up to three changed symbols of a valid list, data or checksum, within a window of 1023, make verification fail. */
  lemma ThreeChangedValuesFail(hrp: Text, v: seq<bv8>, w: seq<bv8>, i: nat, j: nat, k: nat)
    requires Verifies(hrp, v) && Symbols(v) && Symbols(w) && AtThree(v, w, i, j, k) && k - i < 1023 && v != w
    ensures !Verifies(hrp, w)
  {
    var e := Expand(hrp);
    ExpandRange(hrp);
    forall n | 0 <= n < |e + v| && n != |e| + i && n != |e| + j && n != |e| + k
      ensures (e + v)[n] == (e + w)[n]
    {
      assert n >= |e| ==> v[n - |e|] == w[n - |e|];
    }
    assert (e + v)[|e|..] == v && (e + w)[|e|..] == w;
    ThreeChangesDetected(e + v, e + w, |e| + i, |e| + j, |e| + k);
  }

  lemma ThreeChangedTail(text: string, text': string, pos: nat, i: nat, j: nat, k: nat)
    requires AtThree(text, text', i, j, k) && Lower(text') != Lower(text) && pos < i
    requires InCharset(text[pos + 1..]) && InCharset(text'[pos + 1..])
    ensures var v, w := Values(text[pos + 1..]), Values(text'[pos + 1..]);
      v != w && AtThree(v, w, i - pos - 1, j - pos - 1, k - pos - 1)
  {
    var a, b := text[pos + 1..], text'[pos + 1..];
    assert exists n :: 0 <= n < |text| && Lower(text)[n] != Lower(text')[n];
    var n :| 0 <= n < |text| && Lower(text)[n] != Lower(text')[n];
    assert a[n - pos - 1] == text[n] && b[n - pos - 1] == text'[n];
    ChrOfSym(text[n]);
    ChrOfSym(text'[n]);
    assert Values(a)[n - pos - 1] != Values(b)[n - pos - 1];
    forall l | 0 <= l < |a| && l != i - pos - 1 && l != j - pos - 1 && l != k - pos - 1
      ensures Values(a)[l] == Values(b)[l]
    {
      assert a[l] == text[l + pos + 1] == text'[l + pos + 1] == b[l];
    }
  }

  /** A valid text in which up to three characters after the separator are replaced, other than by one of the other
      case, is refused, as long as the separator stays the last one. */
  lemma ThreeChangedTextRefused(text: string, text': string, i: nat, j: nat, k: nat)
    requires Decoded(text).Some? && AtThree(text, text', i, j, k) && Lower(text') != Lower(text)
    requires LastOf(text', '1') == LastOf(text, '1') < i
    ensures Decoded(text') == None
  {
    var pos := LastOf(text, '1');
    if Decoded(text').Some? {
      assert text'[..pos] == text[..pos];
      BothVerify(text, text', pos);
      ThreeChangedTail(text, text', pos, i, j, k);
      ThreeChangedValuesFail(Lower(text[..pos]), Values(text[pos + 1..]), Values(text'[pos + 1..]),
                             i - pos - 1, j - pos - 1, k - pos - 1);
    }
  }
}
