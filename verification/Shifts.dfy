/** Shifting limbs: what one step of the shift loops adds to the number. */
module Shifts {
  import opened NatMath
  import opened Folded
  import opened Limbs

  /** `x << s` in 32 bits. */
  ghost function Shl(x: nat, s: nat): nat { Lo32(Times(x, Pow2(s))) }

  method Shl32(x: Limb, s: nat) returns (r: Limb)
    ensures r == Shl(x, s)
  {
    Pow2Is(s);
    TimesIs(x, Pow2(s));
    r := Lo32(Product(x, TwoTo(s)));
  }

  method Shr32(x: Limb, s: nat) returns (r: Limb)
    ensures r == Shr(x, s)
  {
    ShrIs(x, s);
    DivNonNeg(x, Pow2(s));
    DivLe(x, Pow2(s));
    Pow2Is(s);
    r := x / TwoTo(s);
  }

  method Or32(x: Limb, y: Limb) returns (r: Limb)
    ensures r == Or(x, y)
  {
    Pow2Small();
    BitOrBound(x, y, 32);
    OrIs(x, y);
    r := BitOr(x, y);
  }

  lemma {:induction false} BitOrBound(x: nat, y: nat, n: nat)
    requires x < Pow2(n) && y < Pow2(n)
    ensures BitOr(x, y) < Pow2(n)
  {
    Pow2Step(0);
    if n > 0 && x > 0 && y > 0 {
      Pow2Step(n - 1);
      BitOrBound(x / 2, y / 2, n - 1);
    }
  }

  /** A number below 2^n shifted right by `n - s` is below 2^s. */
  lemma ShrBound(x: nat, n: nat, s: nat)
    requires s <= n && x < Pow2(n)
    ensures Shr(x, n - s) < Pow2(s)
  {
    ShrSplit(x, n - s);
    Pow2Add(s, n - s);
    if Shr(x, n - s) >= Pow2(s) {
      TimesMono(Pow2(s), Shr(x, n - s), Pow2(n - s));
      assert false;
    }
  }

  /** A limb shifted left by `s` falls apart into the limb that stays and the bits that move to the next limb. */
  lemma LimbShift(x: Limb, s: nat)
    requires s <= 32
    ensures Times(x, Pow2(s)) == Shl(x, s) + Times(Shr(x, 32 - s), 0x1_0000_0000)
    ensures Shl(x, s) == Times(Rem(x, 32 - s), Pow2(s))
    ensures Shr(x, 32 - s) < Pow2(s)
  {
    var q, r := Shr(x, 32 - s), Rem(x, 32 - s);
    Pow2Small();
    ShrBound(x, 32, s);
    ShrSplit(x, 32 - s);
    TimesDist(Times(q, Pow2(32 - s)), r, Pow2(s));
    TimesAssoc(q, Pow2(32 - s), Pow2(s));
    Pow2Add(32 - s, s);
    TimesMono(r + 1, Pow2(32 - s), Pow2(s));
    TimesDist(r, 1, Pow2(s));
    TimesZero(Pow2(s));
    TimesIs(x, Pow2(s));
    TimesIs(q, 0x1_0000_0000);
    DivModUnique(x * Pow2(s), 0x1_0000_0000, q, Times(r, Pow2(s)));
  }

  /** `x` at limb `i`, shifted left by `32 k + s` bits. */
  lemma ShiftedWeight(x: nat, i: nat, k: nat, s: nat)
    ensures Times(Times(x, Pow2(s)), Weight(i + k)) == Times(Times(x, Weight(i)), Pow2(32 * k + s))
  {
    WeightAdd(k, i);
    WeightIs(k);
    Pow2Add(s, 32 * k);
    TimesFour(x, Pow2(s), Weight(k), Weight(i));
  }

  lemma TimesFour(x: nat, y: nat, u: nat, v: nat)
    ensures Times(Times(x, y), Times(u, v)) == Times(Times(x, v), Times(y, u))
  {
    TimesIs(x, y);
    TimesIs(u, v);
    TimesIs(x, v);
    TimesIs(y, u);
    TimesIs(x * y, u * v);
    TimesIs(x * v, y * u);
    Shuffle(x, y, u, v);
  }

  lemma Shuffle(x: nat, y: nat, u: nat, v: nat)
    ensures (x * y) * (u * v) == (x * v) * (y * u)
  {
  }

  // ----- left shift -----

  /** `q` multiples of the modulus have been shifted out so far. */
  ghost predicate ShiftedLeft(p: seq<nat>, a: seq<nat>, i: nat, shift: nat, q: nat)
    requires i <= |a|
  {
    Value(p) + Times(q, Weight(|p|)) == Times(Value(a[..i]), Pow2(shift))
  }

  /** The limbs that step `i` leaves. */
  ghost function LeftStep(p: seq<nat>, x: nat, i: nat, k: nat, s: nat): seq<nat>
    requires s < 32
  {
    var p1 := if i + k + 1 < |p| && s != 0 then p[i + k + 1 := Or(p[i + k + 1], Shr(x, 32 - s))] else p;
    if i + k < |p| then p1[i + k := Or(p1[i + k], Shl(x, s))] else p1
  }

  /** Above the current limb everything is still zero, and in it only the bits moved up from below are set. */
  ghost predicate LeftFree(p: seq<nat>, i: nat, k: nat, s: nat) {
    (forall j :: i + k < j < |p| ==> p[j] == 0) && (i + k < |p| ==> p[i + k] < Pow2(s))
  }

  /** Limb `t` grows by `lo`, and the limb above it, if any, becomes `hi`. */
  ghost function LeftSum(p: seq<nat>, lo: nat, hi: nat, t: nat): seq<nat>
    requires t < |p|
  {
    if t + 1 < |p| then p[t + 1 := hi][t := p[t] + lo] else p[t := p[t] + lo]
  }

  lemma LeftStepIsSum(p: seq<Limb>, x: Limb, i: nat, k: nat, s: nat)
    requires s < 32 && i + k < |p| && LeftFree(p, i, k, s)
    ensures LeftStep(p, x, i, k, s) == LeftSum(p, Shl(x, s), Shr(x, 32 - s), i + k)
    ensures LeftFree(LeftStep(p, x, i, k, s), i + 1, k, s)
  {
    LimbShift(x, s);
    OrIsSum(p[i + k], Rem(x, 32 - s), s);
    OrZero(Shr(x, 32 - s));
    Pow2Small();
  }

  lemma LeftStepKeeps(p: seq<Limb>, a: seq<Limb>, i: nat, k: nat, s: nat, q: nat) returns (q': nat)
    requires s < 32 && |p| == |a| && i < |a| && LeftFree(p, i, k, s) && ShiftedLeft(p, a, i, 32 * k + s, q)
    ensures LeftFree(LeftStep(p, a[i], i, k, s), i + 1, k, s)
    ensures ShiftedLeft(LeftStep(p, a[i], i, k, s), a, i + 1, 32 * k + s, q')
  {
    var n, x := |p|, a[i];
    var hi, lo, p' := Shr(x, 32 - s), Shl(x, s), LeftStep(p, x, i, k, s);
    ValueStep(a, i);
    TimesDist(Value(a[..i]), Times(x, Weight(i)), Pow2(32 * k + s));
    ShiftedWeight(x, i, k, s);
    LimbShift(x, s);
    if i + k >= n {
      q' := q + Times(Times(x, Pow2(s)), Weight(i + k - n));
      WeightAdd(i + k - n, n);
      TimesAssoc(Times(x, Pow2(s)), Weight(i + k - n), Weight(n));
      TimesDist(q, Times(Times(x, Pow2(s)), Weight(i + k - n)), Weight(n));
    } else {
      LeftStepIsSum(p, x, i, k, s);
      CarriedUp(lo, hi, i + k);
      q' := LeftAdds(p, p', lo, hi, i + k, q);
    }
  }

  lemma CarriedUp(lo: nat, hi: nat, i: nat)
    ensures Times(lo + Times(hi, 0x1_0000_0000), Weight(i)) == Times(lo, Weight(i)) + Times(hi, Weight(i + 1))
  {
    TimesDist(lo, Times(hi, 0x1_0000_0000), Weight(i));
    TimesAssoc(hi, 0x1_0000_0000, Weight(i));
    WeightStep(i);
  }

  lemma LeftAdds(p: seq<nat>, p': seq<nat>, lo: nat, hi: nat, t: nat, q: nat) returns (q': nat)
    requires t < |p| && (t + 1 < |p| ==> p[t + 1] == 0) && p' == LeftSum(p, lo, hi, t)
    ensures Value(p') + Times(q', Weight(|p|)) ==
            Value(p) + Times(q, Weight(|p|)) + Times(lo, Weight(t)) + Times(hi, Weight(t + 1))
  {
    TimesDist(p[t], lo, Weight(t));
    if t + 1 < |p| {
      q' := q;
      ValueUpdate(p, t + 1, hi);
      ValueUpdate(p[t + 1 := hi], t, p[t] + lo);
      TimesZero(Weight(t + 1));
    } else {
      q' := q + hi;
      ValueUpdate(p, t, p[t] + lo);
      TimesDist(q, hi, Weight(|p|));
    }
  }

  // ----- right shift -----

  /** The part of `a` below limb `i`: quotient `p` and remainder `r`. */
  ghost predicate ShiftedRight(p: seq<nat>, a: seq<nat>, i: nat, k: nat, s: nat, r: nat)
    requires i <= |a|
  {
    Value(a[..i]) == Times(Value(p), Pow2(32 * k + s)) + r && r < Pow2(32 * k + s) && (i <= k ==> r < Weight(i))
  }

  ghost function RightStep(p: seq<nat>, x: nat, i: nat, k: nat, s: nat): seq<nat>
    requires s < 32 && i < |p|
  {
    var p1 := if i - k - 1 >= 0 && s != 0 then p[i - k - 1 := Or(p[i - k - 1], Shl(x, 32 - s))] else p;
    if i - k >= 0 then p1[i - k := Or(p1[i - k], Shr(x, s))] else p1
  }

  ghost predicate RightFree(p: seq<nat>, i: nat, k: nat, s: nat)
    requires s < 32
  {
    (forall j :: 0 <= j < |p| && i - k <= j ==> p[j] == 0) && (0 <= i - k - 1 < |p| ==> p[i - k - 1] < Pow2(32 - s))
  }

  /** Limb `t` becomes `hi`, and the limb below it, if any, grows by `lo`. */
  ghost function RightSum(p: seq<nat>, lo: nat, hi: nat, t: nat): seq<nat>
    requires t < |p|
  {
    if t > 0 then p[t - 1 := p[t - 1] + lo][t := hi] else p[t := hi]
  }

  lemma RightOr(x: Limb, y: Limb, s: nat)
    requires s < 32 && y < Pow2(32 - s)
    ensures Or(y, Shl(x, 32 - s)) == y + Times(Rem(x, s), Pow2(32 - s))
    ensures s == 0 ==> Times(Rem(x, s), Pow2(32 - s)) == 0
    ensures Shr(x, s) < Pow2(32 - s)
  {
    LimbShift(x, 32 - s);
    Pow2Small();
    ShrBound(x, 32, 32 - s);
    OrIsSum(y, Rem(x, s), 32 - s);
    TimesZero(Pow2(32 - s));
    ShrZero(x);
  }

  lemma RightStepIsSum(p: seq<Limb>, x: Limb, i: nat, k: nat, s: nat)
    requires s < 32 && k <= i < |p| && RightFree(p, i, k, s)
    ensures RightStep(p, x, i, k, s) == RightSum(p, Times(Rem(x, s), Pow2(32 - s)), Shr(x, s), i - k)
    ensures RightFree(RightStep(p, x, i, k, s), i + 1, k, s)
  {
    var hi, lo := Shr(x, s), Times(Rem(x, s), Pow2(32 - s));
    OrZero(hi);
    if i > k {
      RightOr(x, p[i - k - 1], s);
      assert RightStep(p, x, i, k, s)[i - k - 1] == p[i - k - 1] + lo;
    } else {
      RightOr(x, 0, s);
    }
  }

  lemma RightStepKeeps(p: seq<Limb>, a: seq<Limb>, i: nat, k: nat, s: nat, r: nat) returns (r': nat)
    requires s < 32 && |p| == |a| && i < |a| && RightFree(p, i, k, s) && ShiftedRight(p, a, i, k, s, r)
    ensures RightFree(RightStep(p, a[i], i, k, s), i + 1, k, s)
    ensures ShiftedRight(RightStep(p, a[i], i, k, s), a, i + 1, k, s, r')
  {
    var x := a[i];
    var hi, rem, p', two := Shr(x, s), Rem(x, s), RightStep(p, x, i, k, s), Pow2(32 * k + s);
    ValueStep(a, i);
    TimesLimb(x, Weight(i));
    if i < k {
      r' := r + Times(x, Weight(i));
      WeightIs(i + 1);
      WeightStep(i);
      Pow2Mono(32 * (i + 1), 32 * k + s);
    } else {
      RightStepIsSum(p, x, i, k, s);
      ShrSplit(x, s);
      TimesDist(Times(hi, Pow2(s)), rem, Weight(i));
      ShiftedWeight(hi, i - k, k, s);
      r' := RightAdds(p, p', rem, hi, i, k, s, r);
    }
  }

  lemma RightAdds(p: seq<nat>, p': seq<nat>, rem: nat, hi: nat, i: nat, k: nat, s: nat, r: nat) returns (r': nat)
    requires s < 32 && k <= i < |p| && p[i - k] == 0 && rem < Pow2(s)
    requires r < Pow2(32 * k + s) && (i <= k ==> r < Weight(i))
    requires p' == RightSum(p, Times(rem, Pow2(32 - s)), hi, i - k)
    ensures Times(Value(p'), Pow2(32 * k + s)) + r' ==
            Times(Value(p), Pow2(32 * k + s)) + r + Times(Times(hi, Weight(i - k)), Pow2(32 * k + s))
                + Times(rem, Weight(i))
    ensures r' < Pow2(32 * k + s)
  {
    if i > k {
      r' := r;
      CarriedDown(rem, i, k, s);
      RightSumValue(p, Times(rem, Pow2(32 - s)), hi, i - k, Pow2(32 * k + s));
    } else {
      r' := r + Times(rem, Weight(i));
      RightSumValue(p, 0, hi, i - k, Pow2(32 * k + s));
      TimesMono(rem + 1, Pow2(s), Weight(k));
      TimesDist(rem, 1, Weight(k));
      TimesZero(Weight(k));
      WeightIs(k);
      Pow2Add(s, 32 * k);
    }
  }

  lemma RightSumValue(p: seq<nat>, lo: nat, hi: nat, t: nat, two: nat)
    requires t < |p| && p[t] == 0
    ensures Times(Value(RightSum(p, lo, hi, t)), two) == Times(Value(p), two) + Times(Times(hi, Weight(t)), two)
                 + if t > 0 then Times(Times(lo, Weight(t - 1)), two) else 0
  {
    TimesZero(Weight(t));
    if t > 0 {
      ValueUpdate(p, t - 1, p[t - 1] + lo);
      TimesDist(p[t - 1], lo, Weight(t - 1));
      ValueUpdate(p[t - 1 := p[t - 1] + lo], t, hi);
      TimesDist(Value(p) + Times(lo, Weight(t - 1)), Times(hi, Weight(t)), two);
      TimesDist(Value(p), Times(lo, Weight(t - 1)), two);
    } else {
      ValueUpdate(p, t, hi);
      TimesDist(Value(p), Times(hi, Weight(t)), two);
    }
  }

  lemma CarriedDown(rem: nat, i: nat, k: nat, s: nat)
    requires s < 32 && k < i
    ensures Times(Times(Times(rem, Pow2(32 - s)), Weight(i - k - 1)), Pow2(32 * k + s)) == Times(rem, Weight(i))
  {
    ShiftedWeight(Times(rem, Pow2(32 - s)), i - k - 1, k, s);
    TimesAssoc(rem, Pow2(32 - s), Pow2(s));
    Pow2Add(32 - s, s);
    Pow2Small();
    TimesAssoc(rem, 0x1_0000_0000, Weight(i - 1));
    WeightStep(i - 1);
  }
}
