/** Numbers as big-endian digit sequences in an arbitrary base. */
module Numerals {
  import opened Hiding
  import opened NatMath
  import opened Folded

  ghost predicate IsPower(b: nat, n: nat, r: nat) {
    forall k :: Look(k) ==> r == Pow(b, n)
  }

  /** b^n: `Pow`, unfolded only on demand. */
  ghost function Power(b: nat, n: nat): nat {
    assert IsPower(b, n, Pow(b, n));
    var r: nat :| IsPower(b, n, r);
    r
  }

  lemma PowerIs(b: nat, n: nat)
    ensures Power(b, n) == Pow(b, n)
  {
    assert Look(0);
  }

  lemma PowerStep(b: nat, n: nat)
    ensures Power(b, n + 1) == Times(b, Power(b, n)) && Power(b, 0) == 1
  {
    PowerIs(b, n);
    PowerIs(b, n + 1);
    PowerIs(b, 0);
    TimesIs(b, Pow(b, n));
  }

  lemma PowerAdd(b: nat, m: nat, n: nat)
    ensures Power(b, m + n) == Times(Power(b, m), Power(b, n))
  {
    PowerIs(b, m);
    PowerIs(b, n);
    PowerIs(b, m + n);
    PowAdd(b, m, n);
    TimesIs(Pow(b, m), Pow(b, n));
  }

  lemma PowerMono(b: nat, m: nat, n: nat)
    requires b > 0 && m <= n
    ensures 0 < Power(b, m) <= Power(b, n)
  {
    PowerIs(b, m);
    PowerIs(b, n);
    PowMono(b, m, n);
    PowPos(b, m);
  }

  /** Products of ordered factors are ordered. */
  lemma TimesMono2(w: nat, x: nat, y: nat, z: nat)
    requires w <= x && y <= z
    ensures Times(w, y) <= Times(x, z)
  {
    TimesMono(w, x, y);
    TimesComm(x, y);
    TimesComm(x, z);
    TimesMono(y, z, x);
  }

  ghost function Fold(b: nat, s: seq<nat>): nat {
    if s == [] then 0 else Times(b, Fold(b, s[..|s| - 1])) + s[|s| - 1]
  }

  ghost predicate IsNum(b: nat, s: seq<nat>, v: nat) {
    forall n :: Look(n) ==> v == Fold(b, s)
  }

  /** The number that digits in base `b` stand for: `Fold`, unfolded only on demand. */
  ghost function Num(b: nat, s: seq<nat>): nat {
    assert IsNum(b, s, Fold(b, s));
    var v: nat :| IsNum(b, s, v);
    v
  }

  lemma NumIs(b: nat, s: seq<nat>)
    ensures Num(b, s) == if s == [] then 0 else Times(b, Num(b, s[..|s| - 1])) + s[|s| - 1]
  {
    assert Look(0);
  }

  lemma NumAppend(b: nat, s: seq<nat>, x: nat)
    ensures Num(b, s + [x]) == Times(b, Num(b, s)) + x
  {
    assert (s + [x])[..|s|] == s;
    NumIs(b, s + [x]);
  }

  lemma {:induction false} NumPrepend(b: nat, x: nat, s: seq<nat>)
    ensures Num(b, [x] + s) == Times(x, Power(b, |s|)) + Num(b, s)
  {
    PowerStep(b, if s == [] then 0 else |s| - 1);
    NumIs(b, s);
    NumIs(b, [x] + s);
    if s == [] {
      assert ([x] + s)[..|s|] == [];
      NumIs(b, []);
      TimesZero(b);
      TimesZero(x);
    } else {
      var n := |s| - 1;
      assert ([x] + s)[..n + 1] == [x] + s[..n];
      NumPrepend(b, x, s[..n]);
      TimesDistRight(b, Times(x, Power(b, n)), Num(b, s[..n]));
      TimesAssoc(x, Power(b, n), b);
      TimesComm(b, Times(x, Power(b, n)));
      TimesComm(Power(b, n), b);
    }
  }

  predicate AllBelow(b: nat, s: seq<nat>) {
    forall i :: 0 <= i < |s| ==> s[i] < b
  }

  lemma {:induction false} NumBound(b: nat, s: seq<nat>)
    requires AllBelow(b, s)
    ensures Num(b, s) < Power(b, |s|)
  {
    NumIs(b, s);
    if s == [] {
      PowerStep(b, 0);
    } else {
      var n := |s| - 1;
      NumBound(b, s[..n]);
      PowerStep(b, n);
      TimesMono2(b, b, Num(b, s[..n]) + 1, Power(b, n));
      TimesDistRight(b, Num(b, s[..n]), 1);
      TimesZero(b);
    }
  }

  /** Leading zeroes do not count. */
  lemma {:induction false} NumSkipsZeroes(b: nat, s: seq<nat>, k: nat)
    requires k <= |s| && forall i :: 0 <= i < k ==> s[i] == 0
    ensures Num(b, s) == Num(b, s[k..])
    decreases k
  {
    if k == 0 {
      assert s[k..] == s;
    } else {
      assert s == [s[0]] + s[1..];
      NumPrepend(b, s[0], s[1..]);
      TimesZero(Power(b, |s| - 1));
      NumSkipsZeroes(b, s[1..], k - 1);
      assert s[1..][k - 1..] == s[k..];
    }
  }

  ghost predicate Canonical(b: nat, s: seq<nat>) {
    AllBelow(b, s) && (s != [] ==> s[0] != 0)
  }

  /** Digits of the same length stand for the same number only if they are equal. */
  lemma {:induction false} SameLengthUnique(b: nat, s: seq<nat>, t: seq<nat>)
    requires AllBelow(b, s) && AllBelow(b, t) && |s| == |t| && Num(b, s) == Num(b, t)
    ensures s == t
  {
    if s != [] {
      var n := |s| - 1;
      NumIs(b, s);
      NumIs(b, t);
      var x, y := Num(b, s[..n]), Num(b, t[..n]);
      SplitUnique(b, x, s[n], y, t[n]);
      SameLengthUnique(b, s[..n], t[..n]);
      assert s == s[..n] + [s[n]] && t == t[..n] + [t[n]];
    }
  }

  lemma SplitUnique(b: nat, x: nat, d: nat, y: nat, e: nat)
    requires d < b && e < b && Times(b, x) + d == Times(b, y) + e
    ensures x == y && d == e
  {
    TimesIs(b, x);
    TimesIs(b, y);
    DivModUnique(b * x + d, b, x, d);
    DivModUnique(b * x + d, b, y, e);
  }

  /** Without leading zeroes the length is determined too. */
  lemma CanonicalUnique(b: nat, s: seq<nat>, t: seq<nat>)
    requires Canonical(b, s) && Canonical(b, t) && Num(b, s) == Num(b, t)
    ensures s == t
  {
    if |s| < |t| {
      LongerIsLarger(b, s, t);
    } else if |t| < |s| {
      LongerIsLarger(b, t, s);
    } else {
      SameLengthUnique(b, s, t);
    }
  }

  lemma LongerIsLarger(b: nat, s: seq<nat>, t: seq<nat>)
    requires Canonical(b, s) && Canonical(b, t) && |s| < |t|
    ensures Num(b, s) < Num(b, t)
  {
    NumBound(b, s);
    assert t == [t[0]] + t[1..];
    NumPrepend(b, t[0], t[1..]);
    TimesMono(1, t[0], Power(b, |t| - 1));
    TimesZero(Power(b, |t| - 1));
    PowerMono(b, |s|, |t| - 1);
  }
}
