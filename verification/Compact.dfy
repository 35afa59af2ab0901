/** The compact encoding of 256-bit targets (src/arith_uint256.cpp): as a specification on numbers, a value with a
    23-bit mantissa and a base-256 exponent. */
module CompactSpec {
  import opened Hiding
  import opened NatMath
  import opened Folded
  import opened Limbs
  import opened Shifts

  ghost predicate IsWords(w: nat) {
    forall n :: Look(n) ==> w == 8
  }

  /** The number of limbs of a 256-bit number. */
  ghost function Words(): (w: nat)
    ensures w >= 2
  {
    assert IsWords(8);
    var w: nat :| w >= 2 && IsWords(w);
    w
  }

  /** 2^256. */
  ghost function Limit(): (m: nat)
    ensures m > 0
  {
    Weight(Words())
  }

  lemma LimitIs()
    ensures Words() == 8 && Limit() == Pow2(256)
  {
    assert Look(0);
    WeightIs(Words());
  }

  lemma LimitSplits(n: nat, e: nat)
    requires n + e == 256
    ensures Limit() == Pow2(n + e) == Times(Pow2(n), Pow2(e))
  {
    LimitIs();
    Pow2Add(n, e);
  }

  lemma LimitBounds()
    ensures 0x100_0000 <= Limit() && Limit() % 2 == 0
  {
    Pow2Small();
    LimitSplits(24, 232);
    TimesComm(Pow2(24), Pow2(232));
    TimesMono(1, Pow2(232), Pow2(24));
    TimesZero(Pow2(24));
    LimitSplits(1, 255);
    TimesIs(2, Pow2(255));
  }

  /** `v` divided by 2^k, rounded down; a negative `k` multiplies. */
  ghost function Scale(v: nat, k: int): nat {
    if k <= 0 then Times(v, Pow2(-k)) else Shr(v, k)
  }

  /** The number of binary digits. */
  ghost function BitLength(v: nat): (n: nat)
    ensures v < Pow2(n) && (n > 0 ==> Pow2(n - 1) <= v) && (v > 0 <==> n > 0)
  {
    LengthExists(v);
    Pow2Small();
    var n: nat :| v < Pow2(n) && (n > 0 ==> Pow2(n - 1) <= v);
    n
  }

  lemma {:induction false} LengthExists(v: nat)
    ensures exists n: nat :: v < Pow2(n) && (n > 0 ==> Pow2(n - 1) <= v)
  {
    Pow2Small();
    if v == 0 {
      assert v < Pow2(0);
    } else {
      LengthExists(v / 2);
      var n: nat :| v / 2 < Pow2(n) && (n > 0 ==> Pow2(n - 1) <= v / 2);
      Pow2Step(n);
      if n > 0 {
        Pow2Step(n - 1);
      }
      assert v < Pow2(n + 1);
    }
  }

  lemma BitLengthIs(v: nat, n: nat)
    requires v < Pow2(n) && (n > 0 ==> Pow2(n - 1) <= v)
    ensures BitLength(v) == n
  {
    BitLengthMono(v, n);
    if BitLength(v) < n {
      Pow2Mono(BitLength(v), n - 1);
    }
  }

  lemma BitLengthMono(v: nat, n: nat)
    requires v < Pow2(n)
    ensures BitLength(v) <= n
  {
    if BitLength(v) > n {
      Pow2Mono(n, BitLength(v) - 1);
      assert false;
    }
  }

  function Size(c: nat): nat { c / 0x100_0000 }

  function Mantissa(c: nat): nat { c % 0x80_0000 }

  predicate SignBit(c: nat) { c / 0x80_0000 % 2 == 1 }

  ghost predicate IsDecoded(c: nat, v: nat) {
    forall n :: Look(n) ==> v == Scale(Mantissa(c), 8 * (3 - Size(c)))
  }

  /** What a compact code stands for, before it is cut to 256 bits. */
  ghost function Decoded(c: nat): nat {
    assert IsDecoded(c, Scale(Mantissa(c), 8 * (3 - Size(c))));
    var v: nat :| IsDecoded(c, v);
    v
  }

  lemma DecodedIs(c: nat)
    ensures Decoded(c) == Scale(Mantissa(c), 8 * (3 - Size(c)))
  {
    assert Look(0);
  }

  /** The exponent: enough bytes for the number and a clear sign bit above it. */
  ghost function Exponent(v: nat): nat { if v == 0 then 0 else BitLength(v) / 8 + 1 }

  ghost predicate IsCompacted(v: nat, c: nat) {
    forall n :: Look(n) ==> c == 0x100_0000 * Exponent(v) + Scale(v, Cut(v))
  }

  /** The compact code of a number: the exponent above the leading 23 binary digits. */
  ghost function Compacted(v: nat): nat {
    assert IsCompacted(v, 0x100_0000 * Exponent(v) + Scale(v, Cut(v)));
    var c: nat :| IsCompacted(v, c);
    c
  }

  lemma CompactedIs(v: nat)
    ensures Compacted(v) == 0x100_0000 * Exponent(v) + Scale(v, Cut(v))
  {
    assert Look(0);
  }

  lemma ScaleBits(v: nat, n: nat, k: int)
    requires k < n && n > 0 && Pow2(n - 1) <= v < Pow2(n)
    ensures Pow2(n - 1 - k) <= Scale(v, k) < Pow2(n - k)
  {
    if k <= 0 {
      TimesMono(Pow2(n - 1), v, Pow2(-k));
      TimesMono(v + 1, Pow2(n), Pow2(-k));
      TimesDist(v, 1, Pow2(-k));
      TimesZero(Pow2(-k));
      Pow2Add(n - 1, -k);
      Pow2Add(n, -k);
    } else {
      ShrBound(v, n, n - k);
      ShrBelow(v, n - 1 - k, k);
    }
  }

  lemma ShrBelow(v: nat, n: nat, k: nat)
    requires Pow2(n + k) <= v
    ensures Pow2(n) <= Shr(v, k)
  {
    ShrSplit(v, k);
    Pow2Add(n, k);
    if Shr(v, k) < Pow2(n) {
      TimesMono(Shr(v, k) + 1, Pow2(n), Pow2(k));
      TimesDist(Shr(v, k), 1, Pow2(k));
      TimesZero(Pow2(k));
      assert false;
    }
  }

  /** One byte less of precision. */
  lemma ScaleByte(v: nat, k: int)
    requires k % 8 == 0
    ensures Scale(v, k) / 256 == Scale(v, k + 8)
  {
    Pow2Small();
    if k <= -8 {
      Pow2Add(-k - 8, 8);
      TimesAssoc(v, Pow2(-k - 8), 256);
      TimesIs(Times(v, Pow2(-k - 8)), 256);
    } else {
      var q := Scale(v, k);
      ShrScaled(v, k);
      ShrSplit(q, 8);
      ShrIs(q, 8);
      ShrTwice(v, k, 8);
    }
  }

  lemma ShrScaled(v: nat, k: nat)
    ensures Scale(v, k) == Shr(v, k)
  {
    if k == 0 {
      Pow2Small();
      TimesZero(v);
      ShrZero(v);
    }
  }

  lemma ShrTwice(v: nat, j: nat, k: nat)
    ensures Shr(Shr(v, j), k) == Shr(v, j + k)
  {
    var q := Shr(v, j);
    ShrSplit(v, j);
    ShrSplit(q, k);
    TimesDist(Times(Shr(q, k), Pow2(k)), Rem(q, k), Pow2(j));
    TimesAssoc(Shr(q, k), Pow2(k), Pow2(j));
    Pow2Add(k, j);
    TimesMono(Rem(q, k) + 1, Pow2(k), Pow2(j));
    TimesDist(Rem(q, k), 1, Pow2(j));
    TimesZero(Pow2(j));
    ShrUnique(v, j + k, Shr(q, k), Times(Rem(q, k), Pow2(j)) + Rem(v, j));
  }

  // ----- rounding to a 23-bit mantissa -----

  /** The exponent of the lowest binary digit that the mantissa keeps. */
  ghost function Cut(v: nat): int { 8 * (Exponent(v) - 3) }

  ghost function Rounded(v: nat): nat { Scale(Scale(v, Cut(v)), -Cut(v)) }

  lemma MantissaFits(v: nat)
    ensures Scale(v, Cut(v)) < 0x80_0000
  {
    var n, k := BitLength(v), Cut(v);
    if v == 0 {
      TimesZero(Pow2(-k));
    } else {
      ScaleBits(v, n, k);
      Pow2Mono(n - k, 23);
      Pow2Small();
    }
  }

  lemma ExponentFits(v: nat)
    requires v < Limit()
    ensures Exponent(v) <= 33
  {
    LimitIs();
    BitLengthMono(v, 256);
  }

  lemma PartsOf(e: nat, m: nat)
    requires m < 0x80_0000
    ensures Size(0x100_0000 * e + m) == e && Mantissa(0x100_0000 * e + m) == m && !SignBit(0x100_0000 * e + m)
  {
  }

  lemma DecodedCompacted(v: nat)
    ensures Decoded(Compacted(v)) == Rounded(v)
    ensures Size(Compacted(v)) == Exponent(v) && Mantissa(Compacted(v)) == Scale(v, Cut(v)) && !SignBit(Compacted(v))
  {
    CompactedIs(v);
    DecodedIs(Compacted(v));
    MantissaFits(v);
    PartsOf(Exponent(v), Scale(v, Cut(v)));
  }

  lemma RoundedParts(v: nat)
    ensures var k := Cut(v);
            if k <= 0 then Rounded(v) == v
            else
              Rounded(v) == Times(Shr(v, k), Pow2(k)) && Rounded(v) + Rem(v, k) == v && Shr(Rounded(v), k) == Shr(v, k)
  {
    var k := Cut(v);
    if k <= 0 {
      ShrScaled(Times(v, Pow2(-k)), -k);
      ShrUnique(Times(v, Pow2(-k)), -k, v, 0);
    } else {
      ShrSplit(v, k);
      ShrUnique(Times(Shr(v, k), Pow2(k)), k, Shr(v, k), 0);
    }
  }

  /** Encoding loses less than one part in 2^15. */
  lemma RelativeError(v: nat)
    ensures Rounded(v) <= v && Times(0x8000, v) <= Times(0x8000, Rounded(v)) + v
  {
    RoundedParts(v);
    var k := Cut(v);
    if k > 0 {
      RemainderSmall(v, k);
      TimesDistRight(0x8000, Rounded(v), Rem(v, k));
    }
  }

  lemma RemainderSmall(v: nat, k: nat)
    requires 0 < k == Cut(v)
    ensures Times(0x8000, Rem(v, k)) <= v
  {
    Pow2Add(15, k);
    Pow2Small();
    Pow2Mono(15 + k, BitLength(v) - 1);
    TimesComm(0x8000, Rem(v, k));
    TimesComm(0x8000, Pow2(k));
    TimesMono(Rem(v, k), Pow2(k), 0x8000);
  }

  /** The highest binary digit survives. */
  lemma KeepsTopBit(v: nat)
    requires 0 < v
    ensures Pow2(BitLength(v) - 1) <= Rounded(v) <= v
    ensures BitLength(Rounded(v)) == BitLength(v)
  {
    RoundedParts(v);
    var n, k := BitLength(v), Cut(v);
    if k > 0 {
      TopBitKept(v, n - 1, k);
    }
    BitLengthIs(Rounded(v), n);
  }

  lemma TopBitKept(v: nat, n: nat, k: nat)
    requires k <= n && Pow2(n) <= v
    ensures Pow2(n) <= Times(Shr(v, k), Pow2(k))
  {
    ShrBelow(v, n - k, k);
    TimesMono(Pow2(n - k), Shr(v, k), Pow2(k));
    Pow2Add(n - k, k);
  }

  lemma ShrMono(v: nat, w: nat, k: nat)
    requires v <= w
    ensures Shr(v, k) <= Shr(w, k)
  {
    ShrSplit(v, k);
    ShrSplit(w, k);
    if Shr(w, k) < Shr(v, k) {
      TimesMono(Shr(w, k) + 1, Shr(v, k), Pow2(k));
      TimesDist(Shr(w, k), 1, Pow2(k));
      TimesZero(Pow2(k));
      assert false;
    }
  }

  // ----- main results about the code of a number -----

  /** The code of a 256-bit number fits 32 bits, carries no sign and does not overflow; it stands for the number
      rounded down by less than one part in 2^15. */
  lemma CompactRoundsDown(v: nat)
    requires v < Limit()
    ensures Compacted(v) < 0x1_0000_0000 && !SignBit(Compacted(v))
    ensures Decoded(Compacted(v)) <= v && Times(0x8000, v) <= Times(0x8000, Decoded(Compacted(v))) + v
  {
    CompactedIs(v);
    ExponentFits(v);
    MantissaFits(v);
    DecodedCompacted(v);
    RelativeError(v);
  }

  /** Encoding what the code of a number stands for gives the same code. */
  lemma CompactIdempotent(v: nat)
    ensures Compacted(Decoded(Compacted(v))) == Compacted(v)
  {
    DecodedCompacted(v);
    RoundedSameCode(v);
    CompactedIs(v);
    CompactedIs(Rounded(v));
  }

  lemma RoundedSameCode(v: nat)
    ensures Exponent(Rounded(v)) == Exponent(v) && Scale(Rounded(v), Cut(v)) == Scale(v, Cut(v))
  {
    RoundedParts(v);
    if v > 0 {
      KeepsTopBit(v);
    }
  }

  /** Rounding through the code keeps the order of numbers. */
  lemma CompactMonotone(v: nat, w: nat)
    requires v <= w
    ensures Decoded(Compacted(v)) <= Decoded(Compacted(w))
  {
    DecodedCompacted(v);
    DecodedCompacted(w);
    RoundedParts(v);
    RoundedParts(w);
    BitLengthMono(v, BitLength(w));
    if v > 0 {
      RoundedMono(v, w);
    }
  }

  lemma RoundedMono(v: nat, w: nat)
    requires 0 < v <= w && BitLength(v) <= BitLength(w)
    ensures Rounded(v) <= Rounded(w)
  {
    RoundedParts(v);
    RoundedParts(w);
    var k := Cut(v);
    if k < Cut(w) {
      KeepsTopBit(w);
      Pow2Mono(BitLength(v), BitLength(w) - 1);
    } else if k > 0 {
      ShrMono(v, w, k);
      TimesMono(Shr(v, k), Shr(w, k), Pow2(k));
    }
  }

  // ----- the numbers that have a code -----

  /** A product of a 23-bit number and a power of 256 is not rounded. */
  lemma ShortIsExact(m: nat, j: nat)
    requires m < 0x80_0000
    ensures Rounded(Times(m, Pow2(8 * j))) == Times(m, Pow2(8 * j))
  {
    var v, e := Times(m, Pow2(8 * j)), 8 * j;
    RoundedParts(v);
    var k := Cut(v);
    if k > 0 {
      Pow2Small();
      Pow2Add(23, e);
      TimesMono(m + 1, Pow2(23), Pow2(e));
      TimesDist(m, 1, Pow2(e));
      TimesZero(Pow2(e));
      BitLengthMono(v, 23 + e);
      Pow2Add(e - k, k);
      TimesAssoc(m, Pow2(e - k), Pow2(k));
      ShrUnique(v, k, Times(m, Pow2(e - k)), 0);
    }
  }

  /** What a code stands for is not rounded. */
  lemma CodedIsExact(c: nat)
    ensures Rounded(Decoded(c)) == Decoded(c)
  {
    DecodedIs(c);
    var m, k := Mantissa(c), 8 * (3 - Size(c));
    if k <= 0 {
      ShortIsExact(m, Size(c) - 3);
    } else {
      Pow2Small();
      ShrSplit(m, k);
      TimesComm(Shr(m, k), Pow2(k));
      TimesMono(1, Pow2(k), Shr(m, k));
      TimesZero(Shr(m, k));
      ShortIsExact(Shr(m, k), 0);
    }
  }

  /** The code of a number stands for the greatest number up to it that has a code. */
  lemma CompactIsGreatest(c: nat, v: nat)
    requires Decoded(c) <= v
    ensures Decoded(c) <= Decoded(Compacted(v)) <= v
  {
    CodedIsExact(c);
    DecodedCompacted(Decoded(c));
    CompactMonotone(Decoded(c), v);
    DecodedCompacted(v);
    RelativeError(v);
  }
}
