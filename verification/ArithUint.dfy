/** Fixed-width unsigned integers in 32-bit limbs (src/arith_uint256.h, src/arith_uint256.cpp): each operator
    works on the limb array in place and is proved to be integer arithmetic modulo 2^(32 * width).
    `Times` is multiplication and `Wrap` is the remainder (see `Folded`). */
module ArithUint {
  import opened NatMath
  import opened Folded
  import opened Limbs
  import opened Shifts

  class Uint {
    const pn: array<Limb>

    /** The number that the limbs stand for. */
    ghost function Val(): (v: nat)
      reads pn
      ensures v < Modulus()
    {
      ValueBound(pn[..]);
      Value(pn[..])
    }

    function Width(): nat { pn.Length }

    ghost function Modulus(): (m: nat)
      ensures m > 0
    {
      Weight(pn.Length)
    }

    constructor Zero(width: nat)
      ensures Width() == width && Val() == 0 && fresh(pn)
    {
      pn := new Limb[width](i => 0);
      new;
      ValueZero(pn[..]);
    }

    constructor Copy(b: Uint)
      ensures Width() == b.Width() && Val() == b.Val() && fresh(pn) && pn[..] == b.pn[..]
    {
      pn := new Limb[b.pn.Length](i requires 0 <= i < b.pn.Length reads b.pn => b.pn[i]);
      new;
      assert pn[..] == b.pn[..];
    }

    /** `operator+=`: the carry loop. */
    method AddAssign(b: Uint)
      requires Width() == b.Width()
      modifies pn
      ensures Val() == Wrap(old(Val()) + old(b.Val()), Modulus())
    {
      ghost var a0, b0 := pn[..], b.pn[..];
      var carry: nat := 0;
      ValueNone(a0, 0);
      ValueNone(b0, 0);
      ValueNone(pn[..], 0);
      for i := 0 to pn.Length
        invariant carry <= 1
        invariant forall j :: i <= j < pn.Length ==> pn[j] == a0[j] && b.pn[j] == b0[j]
        invariant Value(pn[..i]) + Times(carry, Weight(i)) == Value(a0[..i]) + Value(b0[..i])
      {
        ghost var was := pn[..i];
        var n := carry + pn[i] + b.pn[i];
        AddStep(was, a0, b0, i, carry, n);
        pn[i] := Lo32(n);
        carry := Hi32(n);
        assert pn[..i + 1] == was + [Lo32(n)];
      }
      AddDone(pn[..], a0, b0, carry);
    }

    /** `operator~`. */
    method Complement() returns (r: Uint)
      ensures fresh(r) && fresh(r.pn) && r.Width() == Width() && r.Val() + Val() == Modulus() - 1
    {
      r := new Uint.Zero(pn.Length);
      ValueNone(pn[..], 0);
      ValueNone(r.pn[..], 0);
      WeightFirst();
      for i := 0 to pn.Length
        invariant Value(r.pn[..i]) + Value(pn[..i]) == Weight(i) - 1
      {
        ghost var was := r.pn[..i];
        var flipped: Limb := 0xFFFF_FFFF - pn[i];
        r.pn[i] := flipped;
        assert r.pn[..i + 1] == was + [0xFFFF_FFFF - pn[i]] && pn[..i + 1] == pn[..i] + [pn[i]];
        ComplementStep(was, pn[..i], pn[i]);
      }
      assert r.pn[..] == r.pn[..pn.Length] && pn[..] == pn[..pn.Length];
    }

    /** `operator++`: the carry ripples through limbs that wrap to zero. */
    method Increment()
      modifies pn
      ensures Val() == Wrap(old(Val()) + 1, Modulus())
    {
      ghost var a0 := pn[..];
      ValueNone(a0, 0);
      WeightFirst();
      var i := 0;
      while i < pn.Length
        invariant i <= pn.Length
        invariant forall j :: i <= j < pn.Length ==> pn[j] == a0[j]
        invariant Value(pn[..i]) + Weight(i) == Value(a0[..i]) + 1
      {
        ghost var was := pn[..i];
        var n: nat := pn[i];
        pn[i] := Lo32(n + 1);
        assert pn[..i + 1] == was + [pn[i]];
        RippleStep(was, a0, i, pn[i]);
        if pn[i] != 0 {
          RippleDone(pn[..], a0, i + 1);
          return;
        }
        i := i + 1;
      }
      RippleOut(pn[..], a0);
    }

    /** Unary minus. */
    method Negated() returns (r: Uint)
      ensures fresh(r) && fresh(r.pn) && r.Width() == Width()
      ensures r.Val() == Wrap(Modulus() - Val(), Modulus())
    {
      r := Complement();
      r.Increment();
    }

    /** `operator-=`: adds the negation. */
    method SubAssign(b: Uint)
      requires Width() == b.Width()
      modifies pn
      ensures Val() == if old(Val()) >= old(b.Val()) then old(Val()) - old(b.Val())
                       else old(Val()) + Modulus() - old(b.Val())
    {
      ghost var v, w, m := Val(), b.Val(), Modulus();
      var r := b.Negated();
      AddAssign(r);
      SubArith(v, w, m);
    }

    /** `operator*=` with a 32-bit factor. */
    method MulAssign32(b32: Limb)
      modifies pn
      ensures Val() == Wrap(Times(old(Val()), b32), Modulus())
    {
      ghost var a0 := pn[..];
      var carry: nat := 0;
      ValueNone(a0, b32);
      for i := 0 to pn.Length
        invariant carry < 0x1_0000_0000
        invariant forall j :: i <= j < pn.Length ==> pn[j] == a0[j]
        invariant Value(pn[..i]) + Times(carry, Weight(i)) == Times(Value(a0[..i]), b32)
      {
        ghost var was := pn[..i];
        var n := Product64(carry, 0, b32, pn[i]);
        Mul32Step(was, a0, i, carry, b32, n);
        pn[i] := Lo32(n);
        carry := Hi32(n);
        assert pn[..i + 1] == was + [Lo32(n)];
      }
      assert pn[..] == pn[..pn.Length] && a0[..pn.Length] == a0;
      WrapUnique(Times(Value(a0), b32), Modulus(), carry, Val());
    }

    /** One row of the schoolbook multiplication: adds `x * b` shifted by `j` limbs. */
    method MulRow(j: nat, x: Limb, b: Uint) returns (ghost k: nat)
      requires Width() == b.Width() && j < Width()
      modifies pn
      ensures b.pn != pn ==> b.pn[..] == old(b.pn[..])
                             && Val() + Times(k, Modulus()) == old(Val()) + Times(Times(x, Weight(j)), b.Val())
      ensures b.pn == pn && old(Val()) == 0 ==> Val() == 0
    {
      ghost var p0, b0 := pn[..], b.pn[..];
      ValueZero(p0);
      ValueNone(b0, Times(x, Weight(j)));
      TimesZero(Weight(j));
      var carry: nat := 0;
      k := 0;
      for i := 0 to pn.Length - j
        invariant carry < 0x1_0000_0000
        invariant b.pn != pn ==> b.pn[..] == b0
        invariant b.pn != pn ==>
                    Value(pn[..]) + Times(carry, Weight(i + j))
                    == Value(p0) + Times(Times(x, Weight(j)), Value(b0[..i]))
        invariant b.pn == pn && Value(p0) == 0 ==> carry == 0 && pn[..] == p0
      {
        ghost var was := pn[..];
        var n := Product64(carry, pn[i + j], x, b.pn[i]);
        if b.pn != pn {
          RowStep(Value(p0), b0, was, i, j, x, carry, n);
        } else {
          TimesZero(x);
        }
        pn[i + j] := Lo32(n);
        carry := Hi32(n);
        assert pn[..] == was[i + j := Lo32(n)];
      }
      if b.pn != pn {
        k := RowDone(b0, j, x, carry, Value(p0), Value(pn[..]));
      }
    }

    /** `operator*=`.  The factor is read while the product is built in place, so multiplying a number by
        itself through the same object gives zero. */
    method MulAssign(b: Uint)
      requires Width() == b.Width()
      modifies pn
      ensures b.pn != pn ==> Val() == Wrap(Times(old(Val()), old(b.Val())), Modulus())
      ensures b.pn == pn ==> Val() == 0
    {
      var a := new Uint.Copy(this);
      Clear();
      ghost var a0, m, vb, k := a.pn[..], Modulus(), b.Val(), 0;
      ValueNone(a0, vb);
      TimesZero(m);
      for j := 0 to pn.Length
        invariant a.pn[..] == a0 && k >= 0
        invariant b.pn != pn ==> b.Val() == vb && Val() + Times(k, m) == Times(Value(a0[..j]), vb)
        invariant b.pn == pn ==> Val() == 0
      {
        ghost var v := Val();
        ghost var k' := MulRow(j, a.pn[j], b);
        if b.pn != pn {
          ValueStep(a0, j);
          TimesDist(Value(a0[..j]), Times(a0[j], Weight(j)), vb);
          TimesDist(k, k', m);
          k := k + k';
        }
      }
      if b.pn != pn {
        assert a0[..pn.Length] == a0;
        WrapUnique(Times(Value(a0), vb), m, k, Val());
      }
    }

    /** `operator<<=`. */
    method ShiftLeft(shift: nat)
      modifies pn
      ensures Val() == Wrap(Times(old(Val()), Pow2(shift)), Modulus())
    {
      var a := new Uint.Copy(this);
      ghost var a0 := a.pn[..];
      Clear();
      var k, s := shift / 32, shift % 32;
      ghost var q := 0;
      ShiftStart(pn[..], a0, k, s);
      for i := 0 to pn.Length
        invariant a.pn[..] == a0 && q >= 0
        invariant LeftFree(pn[..], i, k, s) && ShiftedLeft(pn[..], a0, i, shift, q)
      {
        ghost var p := pn[..];
        if i + k + 1 < pn.Length && s != 0 {
          var high := Shr32(a.pn[i], 32 - s);
          pn[i + k + 1] := Or32(pn[i + k + 1], high);
        }
        if i + k < pn.Length {
          var low := Shl32(a.pn[i], s);
          pn[i + k] := Or32(pn[i + k], low);
        }
        assert pn[..] == LeftStep(p, a0[i], i, k, s);
        q := LeftStepKeeps(p, a0, i, k, s, q);
      }
      assert a0[..pn.Length] == a0;
      WrapUnique(Times(Value(a0), Pow2(shift)), Modulus(), q, Val());
    }

    /** `operator>>=`. */
    method ShiftRight(shift: nat)
      modifies pn
      ensures Val() == Shr(old(Val()), shift)
    {
      var a := new Uint.Copy(this);
      ghost var a0 := a.pn[..];
      Clear();
      var k, s := shift / 32, shift % 32;
      ghost var r := 0;
      ShiftStart(pn[..], a0, k, s);
      for i := 0 to pn.Length
        invariant a.pn[..] == a0 && r >= 0
        invariant RightFree(pn[..], i, k, s) && ShiftedRight(pn[..], a0, i, k, s, r)
      {
        ghost var p := pn[..];
        if i - k - 1 >= 0 && s != 0 {
          var low := Shl32(a.pn[i], 32 - s);
          pn[i - k - 1] := Or32(pn[i - k - 1], low);
        }
        if i - k >= 0 {
          var high := Shr32(a.pn[i], s);
          pn[i - k] := Or32(pn[i - k], high);
        }
        assert pn[..] == RightStep(p, a0[i], i, k, s);
        r := RightStepKeeps(p, a0, i, k, s, r);
      }
      assert a0[..pn.Length] == a0;
      ShrUnique(Value(a0), shift, Val(), r);
    }

    /** `bits`: the position of the highest set bit plus one. */
    method Bits() returns (n: nat)
      ensures n <= 32 * Width()
      ensures Val() < Pow2(n)
      ensures n > 0 ==> Pow2(n - 1) <= Val()
    {
      var pos := pn.Length;
      while pos > 0
        invariant 0 <= pos <= pn.Length
        invariant forall j :: pos <= j < pn.Length ==> pn[j] == 0
      {
        pos := pos - 1;
        if pn[pos] != 0 {
          var bit := 31;
          Pow2Small();
          while bit > 0
            invariant 0 <= bit <= 31 && pn[pos] < Pow2(bit + 1)
          {
            TopBit(pn[pos], bit);
            var high := Shr32(pn[pos], bit);
            if high % 2 == 1 {
              BitsFound(pn[..], pos, bit);
              return 32 * pos + bit + 1;
            }
            bit := bit - 1;
          }
          BitsFound(pn[..], pos, 0);
          return 32 * pos + 1;
        }
      }
      ValueZero(pn[..]);
      return 0;
    }

    /** Sets bit `at` of a number that has no set bit at or below it in that limb. */
    method SetBit(at: nat, ghost c: nat) returns (ghost c': nat)
      requires at / 32 < pn.Length && pn[at / 32] == Times(c, Pow2(at % 32 + 1))
      modifies pn
      ensures Val() == old(Val()) + Pow2(at)
      ensures pn[at / 32] == Times(c', Pow2(at % 32))
      ensures forall j :: 0 <= j < pn.Length && j != at / 32 ==> pn[j] == old(pn[j])
    {
      var bit := Shl32(1, at % 32);
      c' := 2 * c + 1;
      SetBitStep(pn[..], at, c);
      pn[at / 32] := Or32(pn[at / 32], bit);
      assert pn[..] == old(pn[..])[at / 32 := pn[at / 32]];
    }

    /** One round of the long division: subtracts the aligned divisor if it fits, and halves it. */
    method DivStep(num: Uint, div: Uint, shift: nat, ghost v: nat, ghost d: nat, ghost c: nat) returns (ghost c': nat)
      requires num.Width() == div.Width() == Width() && num.pn != pn && div.pn != pn && num.pn != div.pn
      requires shift < 32 * Width() && v == num.Val() + Times(Val(), d)
      requires num.Val() < Times(d, Pow2(shift + 1)) && div.Val() == Times(d, Pow2(shift))
      requires pn[shift / 32] == Times(c, Pow2(shift % 32 + 1))
      modifies pn, num.pn, div.pn
      ensures v == num.Val() + Times(Val(), d) && num.Val() < Times(d, Pow2(shift))
      ensures shift > 0 ==> div.Val() == Times(d, Pow2(shift - 1))
      ensures pn[shift / 32] == Times(c', Pow2(shift % 32))
      ensures forall j :: 0 <= j < Width() && j != shift / 32 ==> pn[j] == old(pn[j])
    {
      var order := num.CompareTo(div);
      QuotientStep(v, d, num.Val(), Val(), shift, c);
      if order >= 0 {
        num.SubAssign(div);
        c' := SetBit(shift, c);
      } else {
        c' := 2 * c;
      }
      div.ShiftRight(1);
    }

    /** `operator/=`: bitwise long division.  `false` stands for the "Division by zero" exception. */
    method DivAssign(b: Uint) returns (ok: bool)
      requires Width() == b.Width()
      modifies pn
      ensures ok <==> old(b.Val()) != 0
      ensures ok ==> IsQuotient(Val(), old(Val()), old(b.Val()))
      ensures !ok ==> Val() == 0
    {
      var div := new Uint.Copy(b);
      var num := new Uint.Copy(this);
      ghost var v, d := Val(), b.Val();
      Clear();
      TimesZero(d);
      Pow2Small();
      var numBits := num.Bits();
      var divBits := div.Bits();
      if divBits == 0 {
        return false;
      }
      if divBits > numBits {
        Pow2Mono(numBits, divBits - 1);
        return true;
      }
      Aligned(v, d, numBits, divBits, pn.Length);
      div.ShiftLeft(numBits - divBits);
      LongDivide(num, div, numBits - divBits, v, d);
      return true;
    }

    /** The loop of the long division. */
    method LongDivide(num: Uint, div: Uint, start: nat, ghost v: nat, ghost d: nat)
      requires num.Width() == div.Width() == Width() && num.pn != pn && div.pn != pn && num.pn != div.pn
      requires start < 32 * Width() && num.Val() == v && v < Times(d, Pow2(start + 1))
      requires div.Val() == Times(d, Pow2(start)) && forall i :: 0 <= i < Width() ==> pn[i] == 0
      modifies pn, num.pn, div.pn
      ensures IsQuotient(Val(), v, d)
    {
      var shift: int := start;
      ghost var c := 0;
      ValueZero(pn[..]);
      TimesZero(d);
      TimesZero(Pow2(shift % 32 + 1));
      Pow2Small();
      while shift >= 0
        invariant -1 <= shift < 32 * Width() && c >= 0
        invariant v == num.Val() + Times(Val(), d) && num.Val() < Times(d, Pow2(shift + 1))
        invariant shift >= 0 ==> div.Val() == Times(d, Pow2(shift))
        invariant shift >= 0 ==> pn[shift / 32] == Times(c, Pow2(shift % 32 + 1))
        invariant shift >= 0 ==> forall j :: 0 <= j < shift / 32 ==> pn[j] == 0
      {
        c := DivStep(num, div, shift, v, d, c);
        if shift % 32 == 0 {
          c := 0;
          TimesZero(Pow2(32));
        }
        shift := shift - 1;
      }
    }

    method Clear()
      modifies pn
      ensures Val() == 0 && forall i :: 0 <= i < pn.Length ==> pn[i] == 0
    {
      for i := 0 to pn.Length
        invariant forall j :: 0 <= j < i ==> pn[j] == 0
      {
        pn[i] := 0;
      }
      ValueZero(pn[..]);
    }

    /** `operator=(uint64_t)`. */
    method Assign64(b: nat)
      requires Width() >= 2 && b < 0x1_0000_0000_0000_0000
      modifies pn
      ensures Val() == b
    {
      pn[0] := Lo32(b);
      pn[1] := Lo32(Hi32(b));
      for i := 2 to pn.Length
        invariant pn[0] == Lo32(b) && pn[1] == Hi32(b)
        invariant forall j :: 2 <= j < i ==> pn[j] == 0
      {
        pn[i] := 0;
      }
      LowLimbs(pn[..]);
    }

    /** `GetLow64`. */
    method GetLow64() returns (r: nat)
      requires Width() >= 2
      ensures r == Wrap(Val(), 0x1_0000_0000_0000_0000)
    {
      LowestLimbs(pn[..]);
      Pow2Small();
      TimesIs(pn[1], 0x1_0000_0000);
      OrIsSum(pn[0], pn[1], 32);
      OrIs(pn[0], 0x1_0000_0000 * pn[1] as nat);
      r := BitOr(pn[0], 0x1_0000_0000 * pn[1] as nat);
    }

    /** `EqualTo`. */
    method EqualTo(b: nat) returns (r: bool)
      requires Width() >= 2 && b < 0x1_0000_0000_0000_0000
      ensures r <==> Val() == b
    {
      LowLimbs(pn[..]);
      var i := pn.Length;
      while i > 2
        invariant 2 <= i <= pn.Length
        invariant forall j :: i <= j < pn.Length ==> pn[j] == 0
      {
        i := i - 1;
        if pn[i] != 0 {
          return false;
        }
      }
      return pn[1] == Hi32(b) && pn[0] == Lo32(b);
    }

    /** `CompareTo`: from the highest limb down. */
    method CompareTo(b: Uint) returns (c: int)
      requires Width() == b.Width()
      ensures c < 0 <==> Val() < b.Val()
      ensures c > 0 <==> Val() > b.Val()
      ensures -1 <= c <= 1
    {
      var i := pn.Length;
      while i > 0
        invariant 0 <= i <= pn.Length
        invariant forall j :: i <= j < pn.Length ==> pn[j] == b.pn[j]
      {
        i := i - 1;
        if pn[i] < b.pn[i] {
          ValueOrder(pn[..], b.pn[..], i);
          return -1;
        }
        if pn[i] > b.pn[i] {
          ValueOrder(b.pn[..], pn[..], i);
          return 1;
        }
      }
      assert pn[..] == b.pn[..];
      return 0;
    }
  }

  /** The 64-bit accumulator of a multiplication step, which does not overflow. */
  function Product64(carry: nat, x: nat, y: Limb, z: Limb): (n: nat)
    requires carry < 0x1_0000_0000 && x < 0x1_0000_0000
    ensures n == carry + x + Times(y, z)
    ensures n < 0x1_0000_0000_0000_0000 && Hi32(n) < 0x1_0000_0000
  {
    TimesIs(y, z);
    TimesMono(y, 0xFFFF_FFFF, z);
    TimesIs(0xFFFF_FFFF, z);
    carry + x + y * z
  }

  lemma AddStep(p: seq<nat>, a: seq<nat>, b: seq<nat>, i: nat, carry: nat, n: nat)
    requires |p| == i < |a| == |b| && n == carry + a[i] + b[i]
    requires Value(p) + Times(carry, Weight(i)) == Value(a[..i]) + Value(b[..i])
    ensures Value(p + [Lo32(n)]) + Times(Hi32(n), Weight(i + 1)) == Value(a[..i + 1]) + Value(b[..i + 1])
  {
    ValueAppend(p, Lo32(n));
    ValueStep(a, i);
    ValueStep(b, i);
    CarrySplit(n, Weight(i));
    WeightStep(i);
    TimesDist(carry + a[i], b[i], Weight(i));
    TimesDist(carry, a[i], Weight(i));
  }

  lemma AddDone(p: seq<nat>, a: seq<nat>, b: seq<nat>, carry: nat)
    requires |p| == |a| == |b| && (forall i :: 0 <= i < |p| ==> p[i] < 0x1_0000_0000)
    requires Value(p[..|p|]) + Times(carry, Weight(|p|)) == Value(a[..|p|]) + Value(b[..|p|])
    ensures Value(p) == Wrap(Value(a) + Value(b), Weight(|p|))
  {
    assert p[..|p|] == p && a[..|p|] == a && b[..|p|] == b;
    ValueBound(p);
    WrapUnique(Value(a) + Value(b), Weight(|p|), carry, Value(p));
  }

  lemma ComplementStep(p: seq<nat>, a: seq<nat>, x: Limb)
    requires |p| == |a| && Value(p) + Value(a) == Weight(|a|) - 1
    ensures Value(p + [0xFFFF_FFFF - x]) + Value(a + [x]) == Weight(|a| + 1) - 1
  {
    ValueAppend(p, 0xFFFF_FFFF - x);
    ValueAppend(a, x);
    TimesDist(0xFFFF_FFFF - x, x, Weight(|a|));
    TimesIs(0xFFFF_FFFF, Weight(|a|));
    WeightStep(|a|);
  }

  lemma RippleStep(was: seq<nat>, a: seq<nat>, i: nat, x: nat)
    requires |was| == i < |a| && a[i] < 0x1_0000_0000 && x == Lo32(a[i] + 1)
    requires Value(was) + Weight(i) == Value(a[..i]) + 1
    ensures x == 0 ==> Value(was + [x]) + Weight(i + 1) == Value(a[..i + 1]) + 1
    ensures x != 0 ==> Value(was + [x]) == Value(a[..i + 1]) + 1
  {
    ValueAppend(was, x);
    ValueStep(a, i);
    TimesDist(a[i], 1, Weight(i));
    TimesZero(Weight(i));
    WeightStep(i);
  }

  /** Past the limb where the carry stops nothing changes. */
  lemma RippleDone(p: seq<nat>, a: seq<nat>, i: nat)
    requires |p| == |a| && i <= |a| && (forall j :: 0 <= j < |p| ==> p[j] < 0x1_0000_0000)
    requires (forall j :: i <= j < |a| ==> p[j] == a[j]) && Value(p[..i]) == Value(a[..i]) + 1
    ensures Wrap(Value(a) + 1, Weight(|a|)) == Value(p)
  {
    assert p == p[..i] + p[i..] && a == a[..i] + a[i..];
    assert p[i..] == a[i..];
    ValueConcat(p[..i], p[i..]);
    ValueConcat(a[..i], a[i..]);
    ValueBound(p);
    TimesZero(Weight(|a|));
    WrapUnique(Value(a) + 1, Weight(|a|), 0, Value(p));
  }

  lemma RippleOut(p: seq<nat>, a: seq<nat>)
    requires |p| == |a| && Value(p[..|a|]) + Weight(|a|) == Value(a[..|a|]) + 1
    requires forall j :: 0 <= j < |a| ==> a[j] < 0x1_0000_0000
    ensures Wrap(Value(a) + 1, Weight(|a|)) == Value(p)
  {
    assert p[..|a|] == p && a[..|a|] == a;
    ValueBound(a);
    TimesZero(Weight(|a|));
    WrapUnique(Value(a) + 1, Weight(|a|), 1, Value(p));
  }

  lemma SubArith(v: nat, w: nat, m: nat)
    requires v < m && w < m
    ensures Wrap(v + Wrap(m - w, m), m) == if v >= w then v - w else v + m - w
  {
    TimesZero(m);
    if w == 0 {
      WrapUnique(m, m, 1, 0);
      WrapUnique(v, m, 0, v);
    } else {
      WrapUnique(m - w, m, 0, m - w);
      if v >= w {
        WrapUnique(v + (m - w), m, 1, v - w);
      } else {
        WrapUnique(v + (m - w), m, 0, v + (m - w));
      }
    }
  }

  lemma Mul32Step(p: seq<nat>, a: seq<nat>, i: nat, carry: nat, b32: nat, n: nat)
    requires |p| == i < |a| && n == carry + Times(b32, a[i])
    requires Value(p) + Times(carry, Weight(i)) == Times(Value(a[..i]), b32)
    ensures Value(p + [Lo32(n)]) + Times(Hi32(n), Weight(i + 1)) == Times(Value(a[..i + 1]), b32)
  {
    ValueAppend(p, Lo32(n));
    ValueStep(a, i);
    CarrySplit(n, Weight(i));
    WeightStep(i);
    TimesDist(carry, Times(b32, a[i]), Weight(i));
    TimesDist(Value(a[..i]), Times(a[i], Weight(i)), b32);
    TimesAssoc(b32, a[i], Weight(i));
    TimesComm(b32, Times(a[i], Weight(i)));
  }

  lemma RowStep(v0: nat, b: seq<nat>, p: seq<nat>, i: nat, j: nat, x: nat, carry: nat, n: nat)
    requires i + j < |p| && i < |b| && n == carry + p[i + j] + Times(x, b[i])
    requires Value(p) + Times(carry, Weight(i + j)) == v0 + Times(Times(x, Weight(j)), Value(b[..i]))
    ensures Value(p[i + j := Lo32(n)]) + Times(Hi32(n), Weight(i + j + 1))
            == v0 + Times(Times(x, Weight(j)), Value(b[..i + 1]))
  {
    var w := Weight(i + j);
    ValueUpdate(p, i + j, Lo32(n));
    ValueStep(b, i);
    CarrySplit(n, w);
    WeightStep(i + j);
    TimesDist(carry + p[i + j], Times(x, b[i]), w);
    TimesDist(carry, p[i + j], w);
    TimesDistRight(Times(x, Weight(j)), Value(b[..i]), Times(b[i], Weight(i)));
    RowProduct(x, b[i], i, j);
  }

  lemma RowProduct(x: nat, y: nat, i: nat, j: nat)
    ensures Times(Times(x, y), Weight(i + j)) == Times(Times(x, Weight(j)), Times(y, Weight(i)))
  {
    WeightAdd(i, j);
    TimesFour(x, y, Weight(i), Weight(j));
  }

  lemma RowDone(b: seq<nat>, j: nat, x: nat, carry: nat, v0: nat, v: nat) returns (k: nat)
    requires j < |b| && v + Times(carry, Weight(|b| - j + j)) == v0 + Times(Times(x, Weight(j)), Value(b[..|b| - j]))
    ensures v + Times(k, Weight(|b|)) == v0 + Times(Times(x, Weight(j)), Value(b))
  {
    var r := |b| - j;
    var lo, hi := b[..r], b[r..];
    assert b == lo + hi && r + j == |b|;
    ValueConcat(lo, hi);
    k := carry + Times(x, Value(hi));
    TimesDist(carry, Times(x, Value(hi)), Weight(|b|));
    TimesDistRight(Times(x, Weight(j)), Value(lo), Times(Weight(r), Value(hi)));
    RowProduct(x, Value(hi), r, j);
    TimesComm(Weight(r), Value(hi));
  }

  lemma ShiftStart(p: seq<nat>, a: seq<nat>, k: nat, s: nat)
    requires s < 32 && |p| == |a| && Value(p) == 0 && forall i :: 0 <= i < |p| ==> p[i] == 0
    ensures LeftFree(p, 0, k, s) && ShiftedLeft(p, a, 0, 32 * k + s, 0)
    ensures RightFree(p, 0, k, s) && ShiftedRight(p, a, 0, k, s, 0)
  {
    ValueNone(a, Pow2(32 * k + s));
    TimesZero(Weight(|p|));
  }

  /** Below 2^(bit + 1), the bit `bit` decides whether the number reaches 2^bit. */
  lemma TopBit(x: nat, bit: nat)
    requires x < Pow2(bit + 1)
    ensures Shr(x, bit) % 2 == 1 <==> Pow2(bit) <= x
  {
    Pow2Small();
    ShrBound(x, bit + 1, 1);
    ShrSplit(x, bit);
    TimesZero(Pow2(bit));
  }

  lemma BitsFound(s: seq<nat>, pos: nat, bit: nat)
    requires pos < |s| && (forall j :: pos < j < |s| ==> s[j] == 0)
    requires forall j :: 0 <= j < |s| ==> s[j] < 0x1_0000_0000
    requires Pow2(bit) <= s[pos] < Pow2(bit + 1)
    ensures Pow2(32 * pos + bit) <= Value(s) < Pow2(32 * pos + bit + 1)
  {
    var w := Weight(pos);
    assert s == s[..pos + 1] + s[pos + 1..];
    ValueConcat(s[..pos + 1], s[pos + 1..]);
    ValueZero(s[pos + 1..]);
    TimesZero(Weight(pos + 1));
    ValueStep(s, pos);
    ValueBound(s[..pos]);
    TimesMono(Pow2(bit), s[pos], w);
    TimesMono(s[pos] + 1, Pow2(bit + 1), w);
    TimesDist(s[pos], 1, w);
    TimesZero(w);
    WeightIs(pos);
    Pow2Add(bit, 32 * pos);
    Pow2Add(bit + 1, 32 * pos);
  }

  lemma SetBitStep(s: seq<nat>, at: nat, c: nat)
    requires at / 32 < |s| && s[at / 32] == Times(c, Pow2(at % 32 + 1))
    ensures Shl(1, at % 32) == Pow2(at % 32)
    ensures Or(s[at / 32], Pow2(at % 32)) == Times(2 * c + 1, Pow2(at % 32))
    ensures Value(s[at / 32 := Times(2 * c + 1, Pow2(at % 32))]) == Value(s) + Pow2(at)
  {
    var t, j := at % 32, at / 32;
    OneShifted(t);
    BitJoins(c, t);
    ValueUpdate(s, j, s[j] + Pow2(t));
    TimesDist(s[j], Pow2(t), Weight(j));
    WeightIs(j);
    Pow2Add(t, 32 * j);
  }

  lemma OneShifted(t: nat)
    requires t < 32
    ensures Shl(1, t) == Pow2(t) < 0x1_0000_0000
  {
    TimesZero(Pow2(t));
    Pow2Mono(t, 31);
    Pow2Step(31);
    Pow2Small();
  }

  lemma BitJoins(c: nat, t: nat)
    ensures Or(Times(c, Pow2(t + 1)), Pow2(t)) == Times(c, Pow2(t + 1)) + Pow2(t) == Times(2 * c + 1, Pow2(t))
    ensures Times(c, Pow2(t + 1)) == Times(2 * c, Pow2(t))
  {
    Pow2Step(t);
    OrIsSum(Pow2(t), c, t + 1);
    TimesDistRight(c, Pow2(t), Pow2(t));
    TimesDist(c, c, Pow2(t));
    TimesDist(2 * c, 1, Pow2(t));
    TimesZero(Pow2(t));
  }

  /** The aligned divisor does not overflow, and twice it exceeds the numerator. */
  lemma Aligned(v: nat, d: nat, numBits: nat, divBits: nat, width: nat)
    requires 0 < divBits <= numBits <= 32 * width && v < Pow2(numBits) && Pow2(divBits - 1) <= d < Pow2(divBits)
    ensures Wrap(Times(d, Pow2(numBits - divBits)), Weight(width)) == Times(d, Pow2(numBits - divBits))
    ensures v < Times(d, Pow2(numBits - divBits + 1))
  {
    var shift := numBits - divBits;
    TimesMono(d, Pow2(divBits), Pow2(shift));
    TimesDist(d, Pow2(divBits) - d, Pow2(shift));
    TimesMono(1, Pow2(divBits) - d, Pow2(shift));
    TimesZero(Pow2(shift));
    Pow2Add(divBits, shift);
    WeightIs(width);
    Pow2Mono(numBits, 32 * width);
    TimesZero(Weight(width));
    WrapUnique(Times(d, Pow2(shift)), Weight(width), 0, Times(d, Pow2(shift)));
    TimesMono(Pow2(divBits - 1), d, Pow2(shift + 1));
    Pow2Add(divBits - 1, shift + 1);
  }

  lemma QuotientStep(v: nat, d: nat, num: nat, q: nat, shift: nat, c: nat)
    requires v == num + Times(q, d) && num < Times(d, Pow2(shift + 1))
    ensures Times(d, Pow2(shift + 1)) == Times(d, Pow2(shift)) + Times(d, Pow2(shift))
    ensures num >= Times(d, Pow2(shift)) ==> v == (num - Times(d, Pow2(shift))) + Times(q + Pow2(shift), d)
    ensures shift > 0 ==> Shr(Times(d, Pow2(shift)), 1) == Times(d, Pow2(shift - 1))
    ensures Times(c, Pow2(shift % 32 + 1)) == Times(2 * c, Pow2(shift % 32))
  {
    Pow2Step(shift);
    TimesDistRight(d, Pow2(shift), Pow2(shift));
    TimesDist(q, Pow2(shift), d);
    TimesComm(Pow2(shift), d);
    if shift > 0 {
      Pow2Step(shift - 1);
      TimesDistRight(d, Pow2(shift - 1), Pow2(shift - 1));
      HalfOfDouble(Times(d, Pow2(shift - 1)));
    }
    BitJoins(c, shift % 32);
  }

  lemma HalfOfDouble(x: nat)
    ensures Shr(x + x, 1) == x
  {
    Pow2Small();
    TimesIs(x, 2);
    ShrUnique(x + x, 1, x, 0);
  }

  /** `q` is `v / d`, rounded down. */
  ghost predicate IsQuotient(q: nat, v: nat, d: nat) {
    Times(q, d) <= v < Times(q, d) + d
  }

  lemma QuotientIs(q: nat, v: nat, d: nat)
    requires d > 0
    ensures IsQuotient(q, v, d) <==> q == v / d
  {
    TimesIs(q, d);
    DivNonNeg(v, d);
    if IsQuotient(q, v, d) {
      DivModUnique(v, d, q, v - q * d);
    }
  }

  lemma LowestLimbs(s: seq<Limb>)
    requires |s| >= 2
    ensures Wrap(Value(s), 0x1_0000_0000_0000_0000) == s[0] as nat + 0x1_0000_0000 * s[1] as nat
  {
    assert s == s[..2] + s[2..];
    ValueConcat(s[..2], s[2..]);
    ValueNone(s, 0);
    ValueStep(s, 0);
    ValueStep(s, 1);
    WeightFirst();
    WeightStep(1);
    TimesIs(s[0], 1);
    TimesIs(s[1], 0x1_0000_0000);
    TimesComm(Weight(2), Value(s[2..]));
    WrapUnique(Value(s), 0x1_0000_0000_0000_0000, Value(s[2..]), s[0] as nat + 0x1_0000_0000 * s[1] as nat);
  }

  /** The number in the two lowest limbs is the whole number exactly if the other limbs are zero. */
  lemma LowLimbs(s: seq<Limb>)
    requires |s| >= 2
    ensures Value(s) < 0x1_0000_0000_0000_0000 <==> forall i :: 2 <= i < |s| ==> s[i] == 0
    ensures Value(s) < 0x1_0000_0000_0000_0000 ==> Value(s) == s[0] as nat + 0x1_0000_0000 * s[1] as nat
  {
    assert s == s[..2] + s[2..];
    ValueConcat(s[..2], s[2..]);
    ValueNone(s, 0);
    ValueStep(s, 0);
    ValueStep(s, 1);
    WeightFirst();
    WeightStep(1);
    TimesIs(s[0], 1);
    TimesIs(s[1], 0x1_0000_0000);
    TimesIs(Weight(2), Value(s[2..]));
    ValueZero(s[2..]);
    assert (forall i :: 2 <= i < |s| ==> s[i] == 0) <==> forall i :: 0 <= i < |s| - 2 ==> s[2..][i] == 0 by {
      assert forall i :: 0 <= i < |s| - 2 ==> s[2..][i] == s[i + 2];
      assert forall i :: 2 <= i < |s| ==> s[i] == s[2..][i - 2];
    }
  }
}
