/** Multiplication and remainder behind a predicate that the verifier unfolds only on demand.  They are equal to
    the built-in operators (`TimesIs`, `WrapIs`), but are not treated as nonlinear arithmetic; their laws are
    lemmas. */
module Folded {
  import opened Hiding
  import opened NatMath

  ghost predicate IsProduct(x: nat, y: nat, r: nat) {
    forall n :: Look(n) ==> r == x * y
  }

  /** `x * y`. */
  ghost function Times(x: nat, y: nat): nat {
    assert IsProduct(x, y, Product(x, y));
    var r: nat :| IsProduct(x, y, r);
    r
  }

  function Product(x: nat, y: nat): nat {
    MulMono(0, x, y);
    x * y
  }

  lemma TimesIs(x: nat, y: nat)
    ensures Times(x, y) == x * y
  {
    assert Look(0);
  }

  lemma TimesZero(x: nat)
    ensures Times(x, 0) == 0 && Times(0, x) == 0 && Times(x, 1) == x && Times(1, x) == x
  {
    assert Look(0);
  }

  lemma TimesComm(x: nat, y: nat)
    ensures Times(x, y) == Times(y, x)
  {
    assert Look(0);
  }

  lemma TimesDist(x: nat, y: nat, z: nat)
    ensures Times(x + y, z) == Times(x, z) + Times(y, z)
  {
    TimesIs(x, z);
    TimesIs(y, z);
    TimesIs(x + y, z);
    Distribute(x, y, z);
  }

  lemma TimesDistRight(x: nat, y: nat, z: nat)
    ensures Times(x, y + z) == Times(x, y) + Times(x, z)
  {
    TimesComm(x, y + z);
    TimesComm(x, y);
    TimesComm(x, z);
    TimesDist(y, z, x);
  }

  lemma TimesAssoc(x: nat, y: nat, z: nat)
    ensures Times(Times(x, y), z) == Times(x, Times(y, z))
  {
    TimesIs(x, y);
    TimesIs(y, z);
    TimesIs(x * y, z);
    TimesIs(x, y * z);
    Regroup(x, y, z);
  }

  lemma Regroup(x: nat, y: nat, z: nat)
    ensures x * y * z == x * (y * z)
  {
  }

  lemma TimesMono(x: nat, y: nat, z: nat)
    requires x <= y
    ensures Times(x, z) <= Times(y, z)
  {
    TimesDist(x, y - x, z);
  }

  ghost predicate IsRemainder(x: nat, m: nat, r: nat)
    requires m > 0
  {
    forall n :: Look(n) ==> r == x % m
  }

  /** `x % m`. */
  ghost function Wrap(x: nat, m: nat): (r: nat)
    requires m > 0
    ensures r < m
  {
    assert IsRemainder(x, m, x % m);
    var r: nat :| r < m && IsRemainder(x, m, r);
    r
  }

  lemma WrapIs(x: nat, m: nat)
    requires m > 0
    ensures Wrap(x, m) == x % m
  {
    assert Look(0);
  }

  lemma WrapUnique(x: nat, m: nat, q: nat, r: nat)
    requires m > 0 && r < m && x == Times(q, m) + r
    ensures Wrap(x, m) == r
  {
    WrapIs(x, m);
    TimesIs(q, m);
    DivModUnique(x, m, q, r);
  }

  function TwoTo(n: nat): (r: nat)
    ensures r > 0
  {
    if n == 0 then 1 else 2 * TwoTo(n - 1)
  }

  ghost predicate IsPow2(n: nat, r: nat) {
    forall k :: Look(k) ==> r == TwoTo(n)
  }

  /** 2^n: `TwoTo`, unfolded only on demand. */
  ghost function Pow2(n: nat): (r: nat)
    ensures r > 0
  {
    assert IsPow2(n, TwoTo(n));
    var r: nat :| r > 0 && IsPow2(n, r);
    r
  }

  lemma Pow2Is(n: nat)
    ensures Pow2(n) == TwoTo(n)
  {
    assert Look(0);
  }

  lemma Pow2Step(n: nat)
    ensures Pow2(n + 1) == Pow2(n) + Pow2(n) && Pow2(0) == 1
  {
    Pow2Is(n);
    Pow2Is(n + 1);
    Pow2Is(0);
  }

  lemma {:induction false} Pow2Add(m: nat, n: nat)
    ensures Pow2(m + n) == Times(Pow2(m), Pow2(n))
  {
    Pow2Step(0);
    if m == 0 {
      TimesZero(Pow2(n));
    } else {
      Pow2Step(m - 1);
      Pow2Step(m + n - 1);
      Pow2Add(m - 1, n);
      TimesDist(Pow2(m - 1), Pow2(m - 1), Pow2(n));
    }
  }

  lemma {:induction false} Pow2Mono(m: nat, n: nat)
    requires m <= n
    ensures Pow2(m) <= Pow2(n)
  {
    if m < n {
      Pow2Mono(m, n - 1);
      Pow2Step(n - 1);
    }
  }

  lemma Pow2Small()
    ensures Pow2(0) == 1 && Pow2(1) == 2 && Pow2(8) == 0x100 && Pow2(15) == 0x8000 && Pow2(16) == 0x1_0000
    ensures Pow2(23) == 0x80_0000 && Pow2(24) == 0x100_0000 && Pow2(32) == 0x1_0000_0000
  {
    Pow2Is(0);
    Pow2Is(1);
    Pow2Is(8);
    Pow2Is(15);
    Pow2Add(8, 8);
    TimesIs(0x100, 0x100);
    Pow2Add(8, 15);
    TimesIs(0x100, 0x8000);
    Pow2Step(23);
    Pow2Add(16, 16);
    TimesIs(0x1_0000, 0x1_0000);
  }

  ghost predicate IsShr(x: nat, s: nat, q: nat, r: nat) {
    forall n :: Look(n) ==> q == x / Pow2(s) && r == x % Pow2(s)
  }

  /** `x >> s`, and the bits it drops. */
  ghost function ShrRem(x: nat, s: nat): (p: (nat, nat))
    ensures p.1 < Pow2(s)
  {
    DivNonNeg(x, Pow2(s));
    assert IsShr(x, s, x / Pow2(s), x % Pow2(s));
    var q: nat, r: nat :| r < Pow2(s) && IsShr(x, s, q, r);
    (q, r)
  }

  ghost function Shr(x: nat, s: nat): nat { ShrRem(x, s).0 }

  ghost function Rem(x: nat, s: nat): (r: nat)
    ensures r < Pow2(s)
  {
    ShrRem(x, s).1
  }

  lemma ShrIs(x: nat, s: nat)
    ensures Shr(x, s) == x / Pow2(s) && Rem(x, s) == x % Pow2(s)
  {
    assert Look(0);
  }

  lemma ShrSplit(x: nat, s: nat)
    ensures x == Times(Shr(x, s), Pow2(s)) + Rem(x, s)
  {
    ShrIs(x, s);
    DivNonNeg(x, Pow2(s));
    TimesIs(x / Pow2(s), Pow2(s));
  }

  lemma ShrUnique(x: nat, s: nat, q: nat, r: nat)
    requires r < Pow2(s) && x == Times(q, Pow2(s)) + r
    ensures Shr(x, s) == q && Rem(x, s) == r
  {
    ShrIs(x, s);
    TimesIs(q, Pow2(s));
    DivModUnique(x, Pow2(s), q, r);
  }

  lemma ShrZero(x: nat)
    ensures Shr(x, 0) == x && Rem(x, 0) == 0
  {
    Pow2Small();
    TimesZero(x);
    ShrUnique(x, 0, x, 0);
  }
}
