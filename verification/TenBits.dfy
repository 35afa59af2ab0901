/** Ten-bit vectors under repeated multiplication by a primitive element: the field with 1024 elements, as far as the
    distance of the Bech32 code needs it (src/bech32.cpp). */
module TenBits {
  import NatMath
  import opened Hiding

  // ----- addition, unfolded only on demand -----

  ghost predicate IsSum(a: bv10, b: bv10, r: bv10) {
    forall n :: Look(n) ==> r == a ^ b
  }

  /** `a ^ b`. */
  ghost function Sum(a: bv10, b: bv10): bv10 {
    assert IsSum(a, b, a ^ b);
    var r :| IsSum(a, b, r);
    r
  }

  lemma SumIs(a: bv10, b: bv10)
    ensures Sum(a, b) == a ^ b
  {
    assert Look(0);
  }

  lemma SumZero(a: bv10)
    ensures Sum(a, 0) == a == Sum(0, a) && Sum(a, a) == 0
  {
    SumIs(a, 0);
    SumIs(0, a);
    SumIs(a, a);
  }

  lemma SumComm(a: bv10, b: bv10)
    ensures Sum(a, b) == Sum(b, a)
  {
    SumIs(a, b);
    SumIs(b, a);
  }

  lemma SumAssoc(a: bv10, b: bv10, c: bv10)
    ensures Sum(Sum(a, b), c) == Sum(a, Sum(b, c))
  {
    SumIs(a, b);
    SumIs(b, c);
    SumIs(Sum(a, b), c);
    SumIs(a, Sum(b, c));
  }

  lemma SumRegroup(a: bv10, b: bv10, c: bv10, d: bv10)
    ensures Sum(Sum(a, b), Sum(c, d)) == Sum(Sum(a, c), Sum(b, d))
  {
    SumAssoc(a, b, Sum(c, d));
    SumAssoc(b, c, d);
    SumComm(b, c);
    SumAssoc(c, b, d);
    SumAssoc(a, c, Sum(b, d));
  }

  lemma SumEqual(a: bv10, b: bv10)
    ensures Sum(a, b) == 0 <==> a == b
  {
    SumIs(a, b);
  }

  // ----- multiplication by the primitive element z, with z^10 = z^8 + z^5 + z + 1 -----

  function If(on: bool, c: bv10): bv10 { if on then c else 0 }

  function TimesZ(v: bv10): bv10 { (v << 1) ^ If(v & 0x200 != 0, 0x123) }

  ghost predicate IsNext(v: bv10, r: bv10) {
    forall n :: Look(n) ==> r == TimesZ(v)
  }

  /** Multiplication by z. */
  ghost function Next(v: bv10): bv10 {
    assert IsNext(v, TimesZ(v));
    var r :| IsNext(v, r);
    r
  }

  lemma NextIs(v: bv10)
    ensures Next(v) == TimesZ(v)
  {
    assert Look(0);
  }

  lemma ShiftXor(a: bv10, b: bv10)
    ensures (a ^ b) << 1 == (a << 1) ^ (b << 1)
    ensures (a ^ b) & 0x200 == (a & 0x200) ^ (b & 0x200)
  {
  }

  lemma TopXor(a: bv10, b: bv10)
    ensures ((a & 0x200) ^ (b & 0x200) != 0) <==> (a & 0x200 != 0) != (b & 0x200 != 0)
  {
  }

  lemma IfXor(p: bool, q: bool, c: bv10)
    ensures If(p != q, c) == If(p, c) ^ If(q, c)
  {
  }

  lemma NextSplit(v: bv10)
    ensures Next(v) == Sum(v << 1, If(v & 0x200 != 0, 0x123))
  {
    NextIs(v);
    SumIs(v << 1, If(v & 0x200 != 0, 0x123));
  }

  lemma NextLinear(a: bv10, b: bv10)
    ensures Next(Sum(a, b)) == Sum(Next(a), Next(b))
  {
    var p, q := a & 0x200 != 0, b & 0x200 != 0;
    SumIs(a, b);
    ShiftXor(a, b);
    TopXor(a, b);
    NextSplit(a);
    NextSplit(b);
    NextSplit(a ^ b);
    IfXor(p, q, 0x123);
    SumIs(a << 1, b << 1);
    SumIs(If(p, 0x123), If(q, 0x123));
    SumRegroup(a << 1, b << 1, If(p, 0x123), If(q, 0x123));
  }

  lemma NextZero(v: bv10)
    ensures Next(v) == 0 <==> v == 0
  {
    NextIs(v);
  }

  /** Multiplication by z^n. */
  ghost function Power(n: nat, v: bv10): bv10 {
    if n == 0 then v else Next(Power(n - 1, v))
  }

  lemma {:induction false} PowerAdd(m: nat, n: nat, v: bv10)
    ensures Power(m + n, v) == Power(m, Power(n, v))
  {
    if m > 0 {
      PowerAdd(m - 1, n, v);
    }
  }

  lemma {:induction false} PowerLinear(n: nat, a: bv10, b: bv10)
    ensures Power(n, Sum(a, b)) == Sum(Power(n, a), Power(n, b))
  {
    if n > 0 {
      PowerLinear(n - 1, a, b);
      NextLinear(Power(n - 1, a), Power(n - 1, b));
    }
  }

  lemma {:induction false} PowerZero(n: nat, v: bv10)
    ensures Power(n, v) == 0 <==> v == 0
  {
    if n > 0 {
      PowerZero(n - 1, v);
      NextZero(Power(n - 1, v));
    }
  }

  lemma PowerCancel(n: nat, a: bv10, b: bv10)
    requires Power(n, a) == Power(n, b)
    ensures a == b
  {
    PowerLinear(n, a, b);
    SumEqual(Power(n, a), Power(n, b));
    PowerZero(n, Sum(a, b));
    SumEqual(a, b);
  }

  lemma PowerComm(m: nat, n: nat, v: bv10)
    ensures Power(m, Power(n, v)) == Power(n, Power(m, v))
  {
    PowerAdd(m, n, v);
    PowerAdd(n, m, v);
  }

  // ----- powers of z as numbers -----

  /** The product with `c`, by its bits. */
  function Product(x: bv10, c: bv10): bv10 {
    var x1 := TimesZ(x);
    var x2 := TimesZ(x1);
    var x3 := TimesZ(x2);
    var x4 := TimesZ(x3);
    var x5 := TimesZ(x4);
    var x6 := TimesZ(x5);
    var x7 := TimesZ(x6);
    var x8 := TimesZ(x7);
    var x9 := TimesZ(x8);
    AddTen(If(c & 1 != 0, x), If(c & 2 != 0, x1), If(c & 4 != 0, x2), If(c & 8 != 0, x3), If(c & 16 != 0, x4),
           If(c & 32 != 0, x5), If(c & 64 != 0, x6), If(c & 128 != 0, x7), If(c & 256 != 0, x8), If(c & 512 != 0, x9))
  }

  ghost function SumOfTen(a0: bv10, a1: bv10, a2: bv10, a3: bv10, a4: bv10,
                          a5: bv10, a6: bv10, a7: bv10, a8: bv10, a9: bv10): bv10
  {
    Sum(Sum(Sum(Sum(Sum(Sum(Sum(Sum(Sum(a0, a1), a2), a3), a4), a5), a6), a7), a8), a9)
  }

  function Add(a: bv10, b: bv10): bv10 { a ^ b }

  lemma SumIsAdd(a: bv10, b: bv10)
    ensures Sum(a, b) == Add(a, b)
  {
    SumIs(a, b);
  }

  function AddTen(a0: bv10, a1: bv10, a2: bv10, a3: bv10, a4: bv10,
                  a5: bv10, a6: bv10, a7: bv10, a8: bv10, a9: bv10): bv10
  {
    Add(Add(Add(Add(Add(Add(Add(Add(Add(a0, a1), a2), a3), a4), a5), a6), a7), a8), a9)
  }

  lemma SumOfTenIs(a0: bv10, a1: bv10, a2: bv10, a3: bv10, a4: bv10,
                   a5: bv10, a6: bv10, a7: bv10, a8: bv10, a9: bv10)
    ensures SumOfTen(a0, a1, a2, a3, a4, a5, a6, a7, a8, a9) == AddTen(a0, a1, a2, a3, a4, a5, a6, a7, a8, a9)
  {
    var s1 := Sum(a0, a1);
    var s2 := Sum(s1, a2);
    var s3 := Sum(s2, a3);
    var s4 := Sum(s3, a4);
    var s5 := Sum(s4, a5);
    var s6 := Sum(s5, a6);
    var s7 := Sum(s6, a7);
    var s8 := Sum(s7, a8);
    SumIsAdd(a0, a1);
    SumIsAdd(s1, a2);
    SumIsAdd(s2, a3);
    SumIsAdd(s3, a4);
    SumIsAdd(s4, a5);
    SumIsAdd(s5, a6);
    SumIsAdd(s6, a7);
    SumIsAdd(s7, a8);
    SumIsAdd(s8, a9);
  }

  lemma PowerOfTen(n: nat, a0: bv10, a1: bv10, a2: bv10, a3: bv10, a4: bv10,
                   a5: bv10, a6: bv10, a7: bv10, a8: bv10, a9: bv10)
    ensures Power(n, SumOfTen(a0, a1, a2, a3, a4, a5, a6, a7, a8, a9))
         == SumOfTen(Power(n, a0), Power(n, a1), Power(n, a2), Power(n, a3), Power(n, a4),
                     Power(n, a5), Power(n, a6), Power(n, a7), Power(n, a8), Power(n, a9))
  {
    var s1 := Sum(a0, a1);
    var s2 := Sum(s1, a2);
    var s3 := Sum(s2, a3);
    var s4 := Sum(s3, a4);
    var s5 := Sum(s4, a5);
    var s6 := Sum(s5, a6);
    var s7 := Sum(s6, a7);
    var s8 := Sum(s7, a8);
    PowerLinear(n, a0, a1);
    PowerLinear(n, s1, a2);
    PowerLinear(n, s2, a3);
    PowerLinear(n, s3, a4);
    PowerLinear(n, s4, a5);
    PowerLinear(n, s5, a6);
    PowerLinear(n, s6, a7);
    PowerLinear(n, s7, a8);
    PowerLinear(n, s8, a9);
  }

  lemma Bits(c: bv10)
    ensures c == AddTen(If(c & 1 != 0, 1), If(c & 2 != 0, 2), If(c & 4 != 0, 4), If(c & 8 != 0, 8), If(c & 16 != 0, 16),
                        If(c & 32 != 0, 32), If(c & 64 != 0, 64), If(c & 128 != 0, 128), If(c & 256 != 0, 256),
                        If(c & 512 != 0, 512))
  {
  }

  lemma PowerBelowTen(x: bv10)
    ensures Power(1, x) == TimesZ(x)
    ensures Power(2, x) == TimesZ(Power(1, x)) && Power(3, x) == TimesZ(Power(2, x))
            && Power(4, x) == TimesZ(Power(3, x))
    ensures Power(5, x) == TimesZ(Power(4, x)) && Power(6, x) == TimesZ(Power(5, x))
            && Power(7, x) == TimesZ(Power(6, x))
    ensures Power(8, x) == TimesZ(Power(7, x)) && Power(9, x) == TimesZ(Power(8, x))
  {
    assert Power(0, x) == x;
    NextIs(x);
    NextIs(Power(1, x));
    NextIs(Power(2, x));
    NextIs(Power(3, x));
    NextIs(Power(4, x));
    NextIs(Power(5, x));
    NextIs(Power(6, x));
    NextIs(Power(7, x));
    NextIs(Power(8, x));
  }

  lemma Units()
    ensures Power(0, 1) == 1 && Power(1, 1) == 2 && Power(2, 1) == 4 && Power(3, 1) == 8 && Power(4, 1) == 16
    ensures Power(5, 1) == 32 && Power(6, 1) == 64 && Power(7, 1) == 128 && Power(8, 1) == 256 && Power(9, 1) == 512
  {
    PowerBelowTen(1);
    assert TimesZ(1) == 2 && TimesZ(2) == 4 && TimesZ(4) == 8 && TimesZ(8) == 16 && TimesZ(16) == 32;
    assert TimesZ(32) == 64 && TimesZ(64) == 128 && TimesZ(128) == 256 && TimesZ(256) == 512;
  }

  /** One bit of a product. */
  lemma Term(n: nat, on: bool, i: nat, e: bv10)
    requires Power(i, 1) == e
    ensures Power(n, If(on, e)) == If(on, Power(i, Power(n, 1)))
  {
    PowerComm(n, i, 1);
    PowerZero(n, 0);
  }

  /** The product with a number, given by its bits, as a hidden sum. */
  ghost function Chosen(x: bv10, b0: bool, b1: bool, b2: bool, b3: bool, b4: bool,
                        b5: bool, b6: bool, b7: bool, b8: bool, b9: bool): bv10
  {
    SumOfTen(If(b0, x), If(b1, Power(1, x)), If(b2, Power(2, x)), If(b3, Power(3, x)), If(b4, Power(4, x)),
             If(b5, Power(5, x)), If(b6, Power(6, x)), If(b7, Power(7, x)), If(b8, Power(8, x)), If(b9, Power(9, x)))
  }

  ghost function Combined(x: bv10, c: bv10): bv10 {
    Chosen(x, c & 1 != 0, c & 2 != 0, c & 4 != 0, c & 8 != 0, c & 16 != 0, c & 32 != 0, c & 64 != 0, c & 128 != 0,
           c & 256 != 0, c & 512 != 0)
  }

  lemma CombinedIs(x: bv10, c: bv10)
    ensures Combined(x, c) == Product(x, c)
  {
    PowerBelowTen(x);
    SumOfTenIs(If(c & 1 != 0, x), If(c & 2 != 0, Power(1, x)), If(c & 4 != 0, Power(2, x)), If(c & 8 != 0, Power(3, x)),
               If(c & 16 != 0, Power(4, x)), If(c & 32 != 0, Power(5, x)), If(c & 64 != 0, Power(6, x)),
               If(c & 128 != 0, Power(7, x)), If(c & 256 != 0, Power(8, x)), If(c & 512 != 0, Power(9, x)));
  }

  lemma BitsAreSum(c: bv10)
    ensures c == SumOfTen(If(c & 1 != 0, 1), If(c & 2 != 0, 2), If(c & 4 != 0, 4), If(c & 8 != 0, 8),
                          If(c & 16 != 0, 16), If(c & 32 != 0, 32), If(c & 64 != 0, 64), If(c & 128 != 0, 128),
                          If(c & 256 != 0, 256), If(c & 512 != 0, 512))
  {
    Bits(c);
    SumOfTenIs(If(c & 1 != 0, 1), If(c & 2 != 0, 2), If(c & 4 != 0, 4), If(c & 8 != 0, 8), If(c & 16 != 0, 16),
               If(c & 32 != 0, 32), If(c & 64 != 0, 64), If(c & 128 != 0, 128), If(c & 256 != 0, 256),
               If(c & 512 != 0, 512));
  }

  lemma PowerChosen(n: nat, b0: bool, b1: bool, b2: bool, b3: bool, b4: bool,
                    b5: bool, b6: bool, b7: bool, b8: bool, b9: bool)
    ensures Power(n, SumOfTen(If(b0, 1), If(b1, 2), If(b2, 4), If(b3, 8), If(b4, 16), If(b5, 32), If(b6, 64),
                              If(b7, 128), If(b8, 256), If(b9, 512)))
            == Chosen(Power(n, 1), b0, b1, b2, b3, b4, b5, b6, b7, b8, b9)
  {
    Units();
    PowerOfTen(n, If(b0, 1), If(b1, 2), If(b2, 4), If(b3, 8), If(b4, 16), If(b5, 32), If(b6, 64), If(b7, 128),
               If(b8, 256), If(b9, 512));
    Term(n, b0, 0, 1);
    Term(n, b1, 1, 2);
    Term(n, b2, 2, 4);
    Term(n, b3, 3, 8);
    Term(n, b4, 4, 16);
    Term(n, b5, 5, 32);
    Term(n, b6, 6, 64);
    Term(n, b7, 7, 128);
    Term(n, b8, 8, 256);
    Term(n, b9, 9, 512);
  }

  lemma PowerIsCombined(n: nat, c: bv10)
    ensures Power(n, c) == Combined(Power(n, 1), c)
  {
    BitsAreSum(c);
    PowerChosen(n, c & 1 != 0, c & 2 != 0, c & 4 != 0, c & 8 != 0, c & 16 != 0, c & 32 != 0, c & 64 != 0,
                c & 128 != 0, c & 256 != 0, c & 512 != 0);
  }

  /** Multiplying by z^n is taking the product with the number z^n. */
  lemma PowerIsProduct(n: nat, c: bv10)
    ensures Power(n, c) == Product(Power(n, 1), c)
  {
    PowerIsCombined(n, c);
    CombinedIs(Power(n, 1), c);
  }

  lemma NumberAdd(m: nat, a: bv10, n: nat, b: bv10, c: bv10)
    requires Power(m, 1) == a && Power(n, 1) == b && Product(a, b) == c
    ensures Power(m + n, 1) == c
  {
    PowerAdd(m, n, 1);
    PowerIsProduct(m, b);
  }

  /** Some powers of z. */
  lemma Numbers()
    ensures Power(24, 1) == 0x3f0 && Power(25, 1) == 0x2c3 && Power(26, 1) == 0xa5
    ensures Power(33, 1) == 0xb0 && Power(64, 1) == 0xef && Power(85, 1) == 0x1f1 && Power(93, 1) == 0x36a
  {
    Units();
    NumberAdd(8, 0x100, 8, 0x100, 0x119);
    NumberAdd(16, 0x119, 8, 0x100, 0x3f0);
    NumberAdd(24, 0x3f0, 1, 0x2, 0x2c3);
    NumberAdd(25, 0x2c3, 1, 0x2, 0xa5);
    NumberAdd(16, 0x119, 16, 0x119, 0x58);
    NumberAdd(32, 0x58, 1, 0x2, 0xb0);
    NumberAdd(32, 0x58, 32, 0x58, 0xef);
    NumberAdd(4, 0x10, 1, 0x2, 0x20);
    NumberAdd(16, 0x119, 5, 0x20, 0x7e);
    NumberAdd(64, 0xef, 21, 0x7e, 0x1f1);
    NumberAdd(8, 0x100, 5, 0x20, 0x35e);
    NumberAdd(16, 0x119, 13, 0x35e, 0xb);
    NumberAdd(64, 0xef, 29, 0xb, 0x36a);
  }

  lemma LargeNumbers()
    ensures Power(341, 1) == 0x36 && Power(426, 1) == 0x36b && Power(429, 1) == 0xb1 && Power(682, 1) == 0x37
    ensures Power(1024, 1) == 2
  {
    Units();
    Numbers();
    NumberAdd(64, 0xef, 64, 0xef, 0x346);
    NumberAdd(128, 0x346, 128, 0x346, 0x1e5);
    NumberAdd(256, 0x1e5, 85, 0x1f1, 0x36);
    NumberAdd(256, 0x1e5, 256, 0x1e5, 0x21b);
    NumberAdd(512, 0x21b, 512, 0x21b, 0x2);
    NumberAdd(341, 0x36, 85, 0x1f1, 0x36b);
    NumberAdd(426, 0x36b, 3, 0x8, 0xb1);
    NumberAdd(341, 0x36, 341, 0x36, 0x37);
  }

  // ----- the order of z is 1023 -----

  lemma SumOfTenLinear(a0: bv10, a1: bv10, a2: bv10, a3: bv10, a4: bv10,
                       a5: bv10, a6: bv10, a7: bv10, a8: bv10, a9: bv10,
                       b0: bv10, b1: bv10, b2: bv10, b3: bv10, b4: bv10,
                       b5: bv10, b6: bv10, b7: bv10, b8: bv10, b9: bv10)
    ensures SumOfTen(Sum(a0, b0), Sum(a1, b1), Sum(a2, b2), Sum(a3, b3), Sum(a4, b4),
                     Sum(a5, b5), Sum(a6, b6), Sum(a7, b7), Sum(a8, b8), Sum(a9, b9))
            == Sum(SumOfTen(a0, a1, a2, a3, a4, a5, a6, a7, a8, a9), SumOfTen(b0, b1, b2, b3, b4, b5, b6, b7, b8, b9))
  {
    var s1, t1 := Sum(a0, a1), Sum(b0, b1);
    var s2, t2 := Sum(s1, a2), Sum(t1, b2);
    var s3, t3 := Sum(s2, a3), Sum(t2, b3);
    var s4, t4 := Sum(s3, a4), Sum(t3, b4);
    var s5, t5 := Sum(s4, a5), Sum(t4, b5);
    var s6, t6 := Sum(s5, a6), Sum(t5, b6);
    var s7, t7 := Sum(s6, a7), Sum(t6, b7);
    var s8, t8 := Sum(s7, a8), Sum(t7, b8);
    SumRegroup(a0, b0, a1, b1);
    SumRegroup(s1, t1, a2, b2);
    SumRegroup(s2, t2, a3, b3);
    SumRegroup(s3, t3, a4, b4);
    SumRegroup(s4, t4, a5, b5);
    SumRegroup(s5, t5, a6, b6);
    SumRegroup(s6, t6, a7, b7);
    SumRegroup(s7, t7, a8, b8);
    SumRegroup(s8, t8, a9, b9);
  }

  lemma IfLinear(on: bool, i: nat, x: bv10, y: bv10)
    ensures If(on, Power(i, Sum(x, y))) == Sum(If(on, Power(i, x)), If(on, Power(i, y)))
  {
    PowerLinear(i, x, y);
    SumZero(0);
  }

  lemma CombinedLinear(x: bv10, y: bv10, b0: bool, b1: bool, b2: bool, b3: bool, b4: bool,
                       b5: bool, b6: bool, b7: bool, b8: bool, b9: bool)
    ensures Chosen(Sum(x, y), b0, b1, b2, b3, b4, b5, b6, b7, b8, b9)
            == Sum(Chosen(x, b0, b1, b2, b3, b4, b5, b6, b7, b8, b9), Chosen(y, b0, b1, b2, b3, b4, b5, b6, b7, b8, b9))
  {
    IfLinear(b0, 0, x, y);
    IfLinear(b1, 1, x, y);
    IfLinear(b2, 2, x, y);
    IfLinear(b3, 3, x, y);
    IfLinear(b4, 4, x, y);
    IfLinear(b5, 5, x, y);
    IfLinear(b6, 6, x, y);
    IfLinear(b7, 7, x, y);
    IfLinear(b8, 8, x, y);
    IfLinear(b9, 9, x, y);
    SumOfTenLinear(If(b0, x), If(b1, Power(1, x)), If(b2, Power(2, x)), If(b3, Power(3, x)), If(b4, Power(4, x)),
                   If(b5, Power(5, x)), If(b6, Power(6, x)), If(b7, Power(7, x)), If(b8, Power(8, x)),
                   If(b9, Power(9, x)),
                   If(b0, y), If(b1, Power(1, y)), If(b2, Power(2, y)), If(b3, Power(3, y)), If(b4, Power(4, y)),
                   If(b5, Power(5, y)), If(b6, Power(6, y)), If(b7, Power(7, y)), If(b8, Power(8, y)),
                   If(b9, Power(9, y)));
  }

  /** If z^n + 1 is z^s, only zero is left alone by z^n. */
  lemma NotFixed(n: nat, s: nat, v: bv10)
    requires Sum(Power(n, 1), 1) == Power(s, 1) && Power(n, v) == v
    ensures v == 0
  {
    PowerIsCombined(n, v);
    PowerIsCombined(0, v);
    PowerIsCombined(s, v);
    CombinedLinear(Power(n, 1), 1, v & 1 != 0, v & 2 != 0, v & 4 != 0, v & 8 != 0, v & 16 != 0, v & 32 != 0,
                   v & 64 != 0, v & 128 != 0, v & 256 != 0, v & 512 != 0);
    SumZero(v);
    PowerZero(s, v);
  }

  lemma NotFixedPrimes(v: bv10)
    ensures Power(341, v) == v || Power(93, v) == v || Power(33, v) == v ==> v == 0
  {
    Numbers();
    LargeNumbers();
    SumIs(Power(341, 1), 1);
    SumIs(Power(93, 1), 1);
    SumIs(Power(33, 1), 1);
    if Power(341, v) == v {
      NotFixed(341, 682, v);
    }
    if Power(93, v) == v {
      NotFixed(93, 426, v);
    }
    if Power(33, v) == v {
      NotFixed(33, 429, v);
    }
  }

  lemma Cycle(v: bv10)
    ensures Power(1023, v) == v
  {
    Units();
    LargeNumbers();
    PowerAdd(1, 1023, 1);
    PowerCancel(1, Power(1023, 1), 1);
    PowerIsCombined(1023, v);
    PowerIsCombined(0, v);
  }

  lemma FixedMinus(a: nat, b: nat, v: bv10)
    requires b <= a && Power(a, v) == v && Power(b, v) == v
    ensures Power(a - b, v) == v
  {
    PowerAdd(b, a - b, v);
    PowerCancel(b, Power(a - b, v), v);
  }

  lemma {:induction false} FixedTimes(g: nat, m: nat, v: bv10)
    requires Power(g, v) == v
    ensures Power(g * m, v) == v
  {
    if m > 0 {
      FixedTimes(g, m - 1, v);
      PowerAdd(g, g * (m - 1), v);
      assert g * m == g + g * (m - 1);
    }
  }

  /** Euclid: what two powers leave alone, the power of their greatest common divisor leaves alone. */
  lemma {:induction false} FixedGcd(a: nat, b: nat, v: bv10) returns (g: nat, x: nat, y: nat)
    requires 0 < a && 0 < b && Power(a, v) == v && Power(b, v) == v
    ensures 0 < g && a == g * x && b == g * y && Power(g, v) == v
    decreases a + b
  {
    if a == b {
      g, x, y := a, 1, 1;
    } else if a > b {
      FixedMinus(a, b, v);
      g, x, y := FixedGcd(a - b, b, v);
      assert a == g * x + g * y == g * (x + y);
      x := x + y;
    } else {
      FixedMinus(b, a, v);
      g, x, y := FixedGcd(a, b - a, v);
      assert b == g * x + g * y == g * (x + y);
      y := x + y;
    }
  }

  /** A proper divisor of 1023 = 3 * 11 * 31 divides 341, 93 or 33. */
  lemma ProperDivisor(g: nat, h: nat) returns (m: nat)
    requires g * h == 1023 && h > 1
    ensures g * m == 341 || g * m == 93 || g * m == 33
  {
    if g <= 31 {
      SmallFactor(g, h);
      m := if g == 1 then 33 else if g == 3 then 11 else if g == 11 then 3 else 3;
    } else {
      if h >= 32 {
        MulBound(g, h);
        assert false;
      }
      SmallFactor(h, g);
      m := 1;
    }
  }

  lemma MulBound(g: nat, h: nat)
    requires g >= 32 && h >= 32
    ensures g * h >= 1024
  {
  }

  lemma SmallFactor(g: nat, h: nat)
    requires g * h == 1023 && g <= 31
    ensures g == 1 || g == 3 || g == 11 || g == 31
    ensures g == 1 ==> h == 1023
    ensures g == 3 ==> h == 341
    ensures g == 11 ==> h == 93
    ensures g == 31 ==> h == 33
  {
    assert g == 0 || g == 1 || g == 2 || g == 3 || g == 4 || g == 5 || g == 6 || g == 7 || g == 8 || g == 9 || g == 10
        || g == 11 || g == 12 || g == 13 || g == 14 || g == 15 || g == 16 || g == 17 || g == 18 || g == 19 || g == 20
        || g == 21 || g == 22 || g == 23 || g == 24 || g == 25 || g == 26 || g == 27 || g == 28 || g == 29 || g == 30
        || g == 31;
  }

  /** No smaller power of z than the 1023rd leaves anything but zero alone. */
  lemma OrderIs1023(k: nat, v: bv10)
    requires 0 < k < 1023 && Power(k, v) == v
    ensures v == 0
  {
    Cycle(v);
    var g, x, y := FixedGcd(1023, k, v);
    assert x != 1 by {
      if x == 1 {
        NatMath.MulMono(1, y, g);
      }
    }
    assert x > 1;
    var m := ProperDivisor(g, x);
    FixedTimes(g, m, v);
    NotFixedPrimes(v);
  }

  // ----- three terms -----

  lemma SumMove(a: bv10, b: bv10, c: bv10)
    requires Sum(Sum(a, b), c) == 0
    ensures c == Sum(a, b)
  {
    SumEqual(Sum(a, b), c);
  }

  /** Three terms at different places that cancel under three consecutive powers: the first is zero. */
  lemma ThreeTerms(x1: bv10, x2: bv10, x3: bv10, a: nat, b: nat)
    requires 0 < b < a < 1023 && Sum(Sum(x1, x2), x3) == 0
    requires Sum(Sum(Power(a, x1), Power(b, x2)), x3) == 0
    requires Sum(Sum(Power(2 * a, x1), Power(2 * b, x2)), x3) == 0
    ensures x1 == 0
  {
    var p, q := Power(a, x1), Power(b, x2);
    var u, v := Sum(p, x1), Sum(q, x2);
    PowerAdd(a, a, x1);
    PowerAdd(b, b, x2);
    SumMove(x1, x2, x3);
    SumMove(p, q, x3);
    SumMove(Power(a, p), Power(b, q), x3);
    SumRegroup(p, q, x1, x2);
    SumEqual(Sum(p, q), Sum(x1, x2));
    SumEqual(u, v);
    SumRegroup(Power(a, p), Power(b, q), p, q);
    SumEqual(Sum(Power(a, p), Power(b, q)), Sum(p, q));
    PowerLinear(a, p, x1);
    PowerLinear(b, q, x2);
    SumEqual(Power(a, u), Power(b, v));
    PowerAdd(b, a - b, u);
    PowerCancel(b, Power(a - b, u), u);
    OrderIs1023(a - b, u);
    SumEqual(p, x1);
    OrderIs1023(a, x1);
  }

  /** The same for two terms. */
  lemma TwoTerms(x1: bv10, x2: bv10, a: nat)
    requires 0 < a < 1023 && Sum(x1, x2) == 0 && Sum(Power(a, x1), x2) == 0
    ensures x1 == 0
  {
    SumEqual(x1, x2);
    SumEqual(Power(a, x1), x2);
    OrderIs1023(a, x1);
  }

  lemma MoreNumbers()
    ensures Power(144, 1) == 0x2ba && Power(150, 1) == 0xa6 && Power(156, 1) == 0x98
  {
    Units();
    Numbers();
    NumberAdd(8, 0x100, 8, 0x100, 0x119);
    NumberAdd(64, 0xef, 64, 0xef, 0x346);
    NumberAdd(128, 0x346, 16, 0x119, 0x2ba);
    NumberAdd(144, 0x2ba, 6, 0x40, 0xa6);
    NumberAdd(150, 0xa6, 6, 0x40, 0x98);
  }
}
