/** Reading and writing compact targets, and the work of a block (src/arith_uint256.cpp, src/chain.cpp). */
module CompactTarget {
  import opened NatMath
  import opened Folded
  import opened Limbs
  import opened Shifts
  import opened ArithUint
  import opened CompactSpec

  /** A new 256-bit zero. */
  method New256() returns (x: Uint)
    ensures fresh(x) && fresh(x.pn) && x.Width() == Words() && x.Val() == 0
  {
    LimitIs();
    x := new Uint.Zero(8);
  }

  /** `SetCompact`: the value is cut to 256 bits, and the flags say what the code really stood for. */
  method SetCompact(x: Uint, c: nat) returns (negative: bool, overflow: bool)
    requires x.Width() == Words() && c < 0x1_0000_0000
    modifies x.pn
    ensures x.Val() == Wrap(Decoded(c), Limit())
    ensures overflow <==> Decoded(c) >= Limit()
    ensures negative <==> SignBit(c) && Decoded(c) != 0
  {
    var size, word: nat := c / 0x100_0000, c % 0x80_0000;
    if size <= 3 {
      var high := Shr32(word, 8 * (3 - size));
      SmallCode(c);
      word := high;
      x.Assign64(word);
    } else {
      LargeCode(c);
      x.Assign64(word);
      x.ShiftLeft(8 * (size - 3));
    }
    negative := word != 0 && c / 0x80_0000 % 2 == 1;
    overflow := word != 0 && (size > 34 || (word > 0xFF && size > 33) || (word > 0xFFFF && size > 32));
  }

  lemma SmallCode(c: nat)
    requires c < 0x1_0000_0000 && Size(c) <= 3
    ensures Decoded(c) == Shr(Mantissa(c), 8 * (3 - Size(c))) < 0x80_0000
    ensures Decoded(c) < Limit() && Wrap(Decoded(c), Limit()) == Decoded(c)
  {
    DecodedIs(c);
    var k := 8 * (3 - Size(c));
    ShrScaled(Mantissa(c), k);
    ShrSplit(Mantissa(c), k);
    TimesComm(Shr(Mantissa(c), k), Pow2(k));
    TimesMono(1, Pow2(k), Shr(Mantissa(c), k));
    TimesZero(Shr(Mantissa(c), k));
    LimitBounds();
    WrapSmall(Decoded(c), Limit());
  }

  lemma LargeCode(c: nat)
    requires c < 0x1_0000_0000 && Size(c) > 3
    ensures Decoded(c) == Times(Mantissa(c), Pow2(8 * (Size(c) - 3)))
    ensures Decoded(c) >= Limit() <==> LooksTooLarge(Mantissa(c), Size(c))
    ensures Decoded(c) == 0 <==> Mantissa(c) == 0
  {
    DecodedIs(c);
    var w, size := Mantissa(c), Size(c);
    var e := 8 * (size - 3);
    TimesZero(Pow2(e));
    if w > 0 {
      TimesMono(1, w, Pow2(e));
    }
    if size > 34 {
      LimitSplits(256, 0);
      Pow2Mono(256, e);
    } else {
      LimitSplits(256 - e, e);
      Reaches(w, 256 - e, e);
      TooLarge(w, size);
    }
  }

  predicate LooksTooLarge(word: nat, size: nat) {
    word != 0 && (size > 34 || (word > 0xFF && size > 33) || (word > 0xFFFF && size > 32))
  }

  lemma TooLarge(w: nat, size: nat)
    requires w < 0x80_0000 && 3 < size <= 34
    ensures w >= Pow2(256 - 8 * (size - 3)) <==> LooksTooLarge(w, size)
  {
    Pow2Small();
    if size < 33 {
      Pow2Mono(23, 256 - 8 * (size - 3));
    } else {
    }
  }

  lemma Reaches(w: nat, n: nat, e: nat)
    ensures Times(w, Pow2(e)) >= Pow2(n + e) <==> w >= Pow2(n)
  {
    Pow2Add(n, e);
    if w >= Pow2(n) {
      TimesMono(Pow2(n), w, Pow2(e));
    } else {
      TimesMono(w + 1, Pow2(n), Pow2(e));
      TimesDist(w, 1, Pow2(e));
      TimesZero(Pow2(e));
    }
  }

  /** `GetCompact`: the code of the number; the sign bit is set on request unless the mantissa is zero. */
  method GetCompact(x: Uint, negative: bool) returns (c: nat)
    requires x.Width() == Words()
    ensures c == Compacted(x.Val()) + if negative && Mantissa(Compacted(x.Val())) != 0 then 0x80_0000 else 0
    ensures c < 0x1_0000_0000
  {
    ghost var v := x.Val();
    var bits := x.Bits();
    BitLengthIs(v, bits);
    var size := (bits + 7) / 8;
    CodeOf(v, bits, size);
    c := LeadingBytes(x, size);
    if c / 0x80_0000 % 2 == 1 {
      c := c / 256;
      size := size + 1;
    }
    MantissaFits(v);
    ExponentFits(v);
    assert c < 0x80_0000 && size < 256;
    c := c + 0x100_0000 * size;
    CompactedIs(v);
    if negative && c % 0x80_0000 != 0 {
      c := c + 0x80_0000;
    }
  }

  /** The three leading bytes of a number of `size` bytes. */
  method LeadingBytes(x: Uint, size: nat) returns (m: nat)
    requires x.Width() == Words() && Scale(x.Val(), 8 * (size - 3)) < 0x100_0000
    requires size <= 3 ==> x.Val() < 0x100_0000
    ensures m == Scale(x.Val(), 8 * (size - 3))
  {
    if size <= 3 {
      Fits64(x.Val());
      var low := x.GetLow64();
      Pow2Is(8 * (3 - size));
      TimesIs(low, Pow2(8 * (3 - size)));
      m := Lo32(Product(low, TwoTo(8 * (3 - size))));
    } else {
      var bn := new Uint.Copy(x);
      bn.ShiftRight(8 * (size - 3));
      Fits64(bn.Val());
      m := bn.GetLow64();
      m := Lo32(m);
    }
  }

  lemma Fits64(v: nat)
    ensures v < 0x100_0000 ==> Wrap(v, 0x1_0000_0000_0000_0000) == v
  {
    if v < 0x100_0000 {
      TimesZero(0x1_0000_0000_0000_0000);
      WrapUnique(v, 0x1_0000_0000_0000_0000, 0, v);
    }
  }

  /** Before the sign correction the mantissa has up to 24 bits; the top one is set exactly if the number fills
      all its bytes. */
  lemma CodeOf(v: nat, bits: nat, size: nat)
    requires v < Pow2(bits) && (bits > 0 ==> Pow2(bits - 1) <= v) && bits == BitLength(v) && size == (bits + 7) / 8
    ensures Scale(v, 8 * (size - 3)) < 0x100_0000
    ensures size <= 3 ==> v < 0x100_0000
    ensures if Scale(v, 8 * (size - 3)) >= 0x80_0000
            then Exponent(v) == size + 1 && Scale(v, Cut(v)) == Scale(v, 8 * (size - 3)) / 256
            else Exponent(v) == size && Scale(v, Cut(v)) == Scale(v, 8 * (size - 3))
  {
    var k := 8 * (size - 3);
    if v == 0 {
      TimesZero(Pow2(-k));
    } else {
      ByteCount(bits, size);
      LeadingRange(v, bits, k);
      ScaleByte(v, k);
    }
  }

  lemma ByteCount(bits: nat, size: nat)
    requires bits > 0 && size == (bits + 7) / 8
    ensures bits / 8 + 1 == if bits == 8 * size then size + 1 else size
    ensures 0 < bits - 8 * (size - 3) <= 24
  {
  }

  lemma LeadingRange(v: nat, bits: nat, k: int)
    requires 0 < bits && 0 < bits - k <= 24 && Pow2(bits - 1) <= v < Pow2(bits)
    ensures Scale(v, k) < 0x100_0000
    ensures Scale(v, k) >= 0x80_0000 <==> bits - k == 24
    ensures k <= 0 ==> v < 0x100_0000
  {
    Pow2Small();
    ScaleBits(v, bits, k);
    Pow2Mono(bits - k, 24);
    if k <= 0 {
      Pow2Mono(bits, 24);
    }
    if bits - k < 24 {
      Pow2Mono(bits - k, 23);
    }
  }

  /** `GetBlockProof`: the expected number of hashes for the target, zero for a code that is no target. */
  method GetBlockProof(nBits: nat) returns (work: Uint)
    requires nBits < 0x1_0000_0000
    ensures fresh(work) && fresh(work.pn) && work.Width() == Words()
    ensures IsTarget(nBits) ==> IsQuotient(work.Val(), Limit(), Decoded(nBits) + 1)
    ensures !IsTarget(nBits) ==> work.Val() == 0
  {
    work := New256();
    var target := New256();
    var negative, overflow := SetCompact(target, nBits);
    TargetBound(nBits);
    WrapSmall(Decoded(nBits), Limit());
    var zero := target.EqualTo(0);
    if negative || overflow || zero {
      return;
    }
    work := Work(target);
  }

  /** The quotient of 2^256 and the number after the target. */
  method Work(target: Uint) returns (work: Uint)
    requires target.Width() == Words() && 0 < target.Val() && target.Val() + 1 < Limit()
    ensures fresh(work) && fresh(work.pn) && work.Width() == Words()
    ensures IsQuotient(work.Val(), Limit(), target.Val() + 1)
  {
    var next := new Uint.Copy(target);
    var one := New256();
    one.Assign64(1);
    next.AddAssign(one);
    WrapSmall(target.Val() + 1, Limit());
    work := target.Complement();
    var ok := work.DivAssign(next);
    WorkOf(target.Val(), work.Val());
    work.AddAssign(one);
  }

  /** The codes that a block may carry. */
  ghost predicate IsTarget(c: nat) { !SignBit(c) && 0 < Decoded(c) < Limit() }

  lemma WrapSmall(v: nat, m: nat)
    ensures v < m ==> Wrap(v, m) == v
  {
    if v < m {
      TimesZero(m);
      WrapUnique(v, m, 0, v);
    }
  }

  /** Adding one to a target does not overflow: no code stands for 2^256 - 1. */
  lemma TargetBound(c: nat)
    requires c < 0x1_0000_0000
    ensures Decoded(c) + 1 != Limit()
  {
    if Size(c) <= 3 {
      SmallCode(c);
      LimitBounds();
    } else {
      LargeCode(c);
      LimitBounds();
      var e := 8 * (Size(c) - 3);
      Pow2Step(e - 1);
      TimesDistRight(Mantissa(c), Pow2(e - 1), Pow2(e - 1));
      assert Decoded(c) == 2 * Times(Mantissa(c), Pow2(e - 1));
    }
  }

  /** 2^256 / (t + 1) through the complement of `t`, without leaving 256 bits. */
  lemma WorkOf(t: nat, q: nat)
    requires 0 < t && t + 1 < Limit() && IsQuotient(q, Limit() - 1 - t, t + 1)
    ensures IsQuotient(q + 1, Limit(), t + 1)
    ensures q + 1 < Limit() && Wrap(q + 1, Limit()) == q + 1
  {
    TimesDist(q, 1, t + 1);
    TimesZero(t + 1);
    TimesComm(q + 1, t + 1);
    TimesMono(2, t + 1, q + 1);
    TimesIs(2, q + 1);
    WrapSmall(q + 1, Limit());
  }
}
