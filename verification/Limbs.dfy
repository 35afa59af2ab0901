/** Numbers as little-endian sequences of 32-bit limbs. */
module Limbs {
  import opened Hiding
  import opened NatMath
  import opened Folded

  type Limb = x: nat | x < 0x1_0000_0000

  /** The lower and upper half of a 64-bit accumulator. */
  function Lo32(n: nat): Limb { n % 0x1_0000_0000 }

  function Hi32(n: nat): nat { n / 0x1_0000_0000 }

  ghost predicate IsWeight(i: nat, w: nat) {
    forall n :: Look(n) ==> w == Pow2(32 * i)
  }

  /** The weight of limb `i`: 2^(32 i). */
  ghost function Weight(i: nat): (w: nat)
    ensures w > 0
  {
    assert IsWeight(i, Pow2(32 * i));
    var w: nat :| w > 0 && IsWeight(i, w);
    w
  }

  lemma WeightIs(i: nat)
    ensures Weight(i) == Pow2(32 * i)
  {
    assert Look(0);
  }

  lemma WeightAdd(i: nat, j: nat)
    ensures Weight(i + j) == Times(Weight(i), Weight(j))
  {
    WeightIs(i);
    WeightIs(j);
    WeightIs(i + j);
    Pow2Add(32 * i, 32 * j);
  }

  lemma WeightFirst()
    ensures Weight(0) == 1 && Weight(1) == 0x1_0000_0000
  {
    WeightIs(0);
    WeightIs(1);
    Pow2Small();
  }

  lemma WeightStep(i: nat)
    ensures Weight(i + 1) == 0x1_0000_0000 * Weight(i) == Times(0x1_0000_0000, Weight(i))
  {
    WeightFirst();
    WeightAdd(1, i);
    TimesIs(0x1_0000_0000, Weight(i));
  }

  ghost function Sum(s: seq<nat>): nat {
    if s == [] then 0 else Sum(s[..|s| - 1]) + Times(s[|s| - 1], Weight(|s| - 1))
  }

  ghost predicate IsValue(s: seq<nat>, v: nat) {
    forall n :: Look(n) ==> v == Sum(s)
  }

  /** The number that limbs stand for: `Sum`, unfolded only on demand. */
  ghost function Value(s: seq<nat>): nat {
    assert IsValue(s, Sum(s));
    var v: nat :| IsValue(s, v);
    v
  }

  lemma ValueIs(s: seq<nat>)
    ensures Value(s) == if s == [] then 0 else Value(s[..|s| - 1]) + Times(s[|s| - 1], Weight(|s| - 1))
  {
    assert Look(0);
  }

  lemma ValueNone(s: seq<nat>, x: nat)
    ensures Value(s[..0]) == 0 && Times(0, Weight(0)) == 0 && Times(x, 0) == 0 && Times(0, x) == 0
  {
    ValueIs(s[..0]);
    TimesZero(Weight(0));
    TimesZero(x);
  }

  lemma ValueAppend(p: seq<nat>, x: nat)
    ensures Value(p + [x]) == Value(p) + Times(x, Weight(|p|))
  {
    assert (p + [x])[..|p|] == p;
    ValueIs(p + [x]);
  }

  lemma ValueStep(s: seq<nat>, i: nat)
    requires i < |s|
    ensures Value(s[..i + 1]) == Value(s[..i]) + Times(s[i], Weight(i))
  {
    assert s[..i + 1][..i] == s[..i];
    ValueIs(s[..i + 1]);
  }

  lemma {:induction false} ValueUpdate(s: seq<nat>, i: nat, x: nat)
    requires i < |s|
    ensures Value(s[i := x]) + Times(s[i], Weight(i)) == Value(s) + Times(x, Weight(i))
  {
    var n := |s| - 1;
    ValueIs(s);
    ValueIs(s[i := x]);
    if i == n {
      assert s[i := x][..n] == s[..n];
    } else {
      assert s[i := x][..n] == s[..n][i := x];
      ValueUpdate(s[..n], i, x);
    }
  }

  lemma {:induction false} ValueConcat(p: seq<nat>, q: seq<nat>)
    ensures Value(p + q) == Value(p) + Times(Weight(|p|), Value(q))
  {
    ValueIs(q);
    if q == [] {
      assert p + q == p;
      TimesZero(Weight(|p|));
    } else {
      var n := |q| - 1;
      assert (p + q)[..|p| + n] == p + q[..n];
      ValueIs(p + q);
      ValueConcat(p, q[..n]);
      WeightAdd(|p|, n);
      TimesDistRight(Weight(|p|), Value(q[..n]), Times(q[n], Weight(n)));
      TimesSwap(q[n], Weight(|p|), Weight(n));
    }
  }

  lemma TimesSwap(x: nat, y: nat, z: nat)
    ensures Times(x, Times(y, z)) == Times(y, Times(x, z))
  {
    TimesAssoc(x, y, z);
    TimesAssoc(y, x, z);
    TimesComm(x, y);
  }

  lemma {:induction false} ValueZero(s: seq<nat>)
    ensures Value(s) == 0 <==> forall i :: 0 <= i < |s| ==> s[i] == 0
  {
    ValueIs(s);
    if s != [] {
      var n := |s| - 1;
      ValueZero(s[..n]);
      TimesZero(Weight(n));
      if s[n] > 0 {
        TimesMono(1, s[n], Weight(n));
      }
      assert (forall i :: 0 <= i < |s| ==> s[i] == 0) ==> forall i :: 0 <= i < n ==> s[..n][i] == 0;
      assert (forall i :: 0 <= i < n ==> s[..n][i] == 0) && s[n] == 0 ==> forall i :: 0 <= i < |s| ==> s[i] == 0 by {
        if (forall i :: 0 <= i < n ==> s[..n][i] == 0) && s[n] == 0 {
          forall i | 0 <= i < |s| ensures s[i] == 0 {
            if i < n { assert s[i] == s[..n][i]; }
          }
        }
      }
    }
  }

  lemma TimesLimb(x: Limb, w: nat)
    ensures Times(x, w) + w <= 0x1_0000_0000 * w
  {
    TimesMono(x + 1, 0x1_0000_0000, w);
    TimesDist(x, 1, w);
    TimesZero(w);
    TimesIs(0x1_0000_0000, w);
  }

  lemma {:induction false} ValueBound(s: seq<nat>)
    requires forall i :: 0 <= i < |s| ==> s[i] < 0x1_0000_0000
    ensures Value(s) < Weight(|s|)
  {
    ValueIs(s);
    if s != [] {
      var n := |s| - 1;
      ValueBound(s[..n]);
      TimesLimb(s[n], Weight(n));
      WeightStep(n);
    } else {
      WeightFirst();
    }
  }

  /** Two limb sequences with equal upper parts are ordered by the limb below. */
  lemma {:induction false} ValueOrder(s: seq<nat>, t: seq<nat>, i: nat)
    requires |s| == |t| && i < |s| && s[i] < t[i] && (forall j :: i < j < |s| ==> s[j] == t[j])
    requires forall j :: 0 <= j < |s| ==> s[j] < 0x1_0000_0000
    ensures Value(s) < Value(t)
    decreases |s|
  {
    var n := |s| - 1;
    ValueIs(s);
    ValueIs(t);
    if i == n {
      ValueBound(s[..n]);
      TimesMono(s[n] + 1, t[n], Weight(n));
      TimesDist(s[n], 1, Weight(n));
      TimesZero(Weight(n));
    } else {
      ValueOrder(s[..n], t[..n], i);
    }
  }

  /** One limb of a carry chain. */
  lemma CarrySplit(n: nat, w: nat)
    ensures Times(Lo32(n), w) + Times(Hi32(n), 0x1_0000_0000 * w) == Times(n, w)
  {
    TimesIs(Hi32(n), 0x1_0000_0000 * w);
    TimesIs(Hi32(n) * 0x1_0000_0000, w);
    TimesDist(Lo32(n), Hi32(n) * 0x1_0000_0000, w);
    ShiftFactor(Hi32(n), w);
  }

  lemma ShiftFactor(x: nat, w: nat)
    ensures x * (0x1_0000_0000 * w) == (x * 0x1_0000_0000) * w
  {
  }

  // ----- bitwise OR -----

  function BitOr(x: nat, y: nat): nat
    decreases x + y
  {
    if x == 0 then y else if y == 0 then x
    else 2 * BitOr(x / 2, y / 2) + if x % 2 == 1 || y % 2 == 1 then 1 else 0
  }

  lemma {:induction false} BitOrIsSum(x: nat, q: nat, s: nat)
    requires x < Pow2(s)
    ensures BitOr(x, Times(q, Pow2(s))) == x + Times(q, Pow2(s))
    decreases s
  {
    var y := Times(q, Pow2(s));
    Pow2Step(0);
    if s > 0 && x > 0 && y > 0 {
      Pow2Step(s - 1);
      TimesDistRight(q, Pow2(s - 1), Pow2(s - 1));
      assert y == 2 * Times(q, Pow2(s - 1));
      BitOrIsSum(x / 2, q, s - 1);
    }
  }

  lemma {:induction false} BitOrComm(x: nat, y: nat)
    ensures BitOr(x, y) == BitOr(y, x)
    decreases x + y
  {
    if x > 0 && y > 0 {
      BitOrComm(x / 2, y / 2);
    }
  }

  ghost predicate IsOr(x: nat, y: nat, r: nat) {
    forall n :: Look(n) ==> r == BitOr(x, y)
  }

  /** `x | y`: `BitOr`, unfolded only on demand. */
  ghost function Or(x: nat, y: nat): nat {
    assert IsOr(x, y, BitOr(x, y));
    var r: nat :| IsOr(x, y, r);
    r
  }

  lemma OrIs(x: nat, y: nat)
    ensures Or(x, y) == BitOr(x, y)
  {
    assert Look(0);
  }

  /** OR of numbers without a common bit is their sum: `x` is below bit `s`, and the other is a multiple of 2^s. */
  lemma OrIsSum(x: nat, q: nat, s: nat)
    requires x < Pow2(s)
    ensures Or(x, Times(q, Pow2(s))) == x + Times(q, Pow2(s)) == Or(Times(q, Pow2(s)), x)
  {
    OrIs(x, Times(q, Pow2(s)));
    OrIs(Times(q, Pow2(s)), x);
    BitOrIsSum(x, q, s);
    BitOrComm(x, Times(q, Pow2(s)));
  }

  lemma OrZero(x: nat)
    ensures Or(0, x) == x && Or(x, 0) == x
  {
    OrIs(0, x);
    OrIs(x, 0);
  }
}
