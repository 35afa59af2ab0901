/** The checksum of Bech32 (src/bech32.cpp): a linear code over 5-bit symbols. */
module Bech32Checksum {
  import opened Hiding

  // ----- exclusive or, unfolded only on demand -----

  ghost predicate IsXor(a: bv32, b: bv32, r: bv32) {
    forall n :: Look(n) ==> r == a ^ b
  }

  /** `a ^ b`. */
  ghost function Xor(a: bv32, b: bv32): bv32 {
    assert IsXor(a, b, a ^ b);
    var r :| IsXor(a, b, r);
    r
  }

  lemma XorIs(a: bv32, b: bv32)
    ensures Xor(a, b) == a ^ b
  {
    assert Look(0);
  }

  lemma XorZero(a: bv32)
    ensures Xor(a, 0) == a == Xor(0, a) && Xor(a, a) == 0
  {
    XorIs(a, 0);
    XorIs(0, a);
    XorIs(a, a);
  }

  lemma XorComm(a: bv32, b: bv32)
    ensures Xor(a, b) == Xor(b, a)
  {
    XorIs(a, b);
    XorIs(b, a);
  }

  lemma XorAssoc(a: bv32, b: bv32, c: bv32)
    ensures Xor(Xor(a, b), c) == Xor(a, Xor(b, c))
  {
    XorIs(a, b);
    XorIs(b, c);
    XorIs(Xor(a, b), c);
    XorIs(a, Xor(b, c));
    Assoc(a, b, c, Xor(a, b), Xor(b, c));
  }

  lemma Assoc(a: bv32, b: bv32, c: bv32, p: bv32, q: bv32)
    requires p == a ^ b && q == b ^ c
    ensures p ^ c == a ^ q
  {
  }

  lemma XorRegroup(a: bv32, b: bv32, c: bv32, d: bv32)
    ensures Xor(Xor(a, b), Xor(c, d)) == Xor(Xor(a, c), Xor(b, d))
  {
    XorAssoc(a, b, Xor(c, d));
    XorAssoc(b, c, d);
    XorComm(b, c);
    XorAssoc(c, b, d);
    XorAssoc(a, c, Xor(b, d));
  }

  // ----- one step of the remainder -----

  function Pick(on: bool, k: bv32): bv32 { if on then k else 0 }

  lemma PickLinear(p: bool, q: bool, k: bv32)
    ensures Pick(p != q, k) == Xor(Pick(p, k), Pick(q, k))
  {
    XorZero(k);
    XorZero(0);
  }

  function Low(c: bv32): bv32 { (c & 0x1ff_ffff) << 5 }

  function Top(c: bv32): bv32 { c >> 25 }

  ghost predicate IsBit(c: bv32, mask: bv32, on: bool) {
    forall n :: Look(n) ==> on == (Top(c) & mask != 0)
  }

  /** A bit of the leading coefficient. */
  ghost predicate Bit(c: bv32, mask: bv32) {
    assert IsBit(c, mask, Top(c) & mask != 0);
    var on :| IsBit(c, mask, on);
    on
  }

  lemma BitIs(c: bv32, mask: bv32)
    ensures Bit(c, mask) <==> Top(c) & mask != 0
  {
    assert Look(0);
  }

  /** The multiples of k(x) = x^6 mod g(x) that the bits of the leading coefficient add. */
  ghost function Mix(l: bv32, b1: bool, b2: bool, b4: bool, b8: bool, b16: bool): bv32 {
    Xor(Xor(Xor(Xor(Xor(l, Pick(b1, 0x3b6a_57b2)), Pick(b2, 0x2650_8e6d)), Pick(b4, 0x1ea1_19fa)),
            Pick(b8, 0x3d42_33dd)),
        Pick(b16, 0x2a14_62b3))
  }

  /** One step without the new symbol: the remainder of c(x) * x. */
  ghost function Shift(c: bv32): bv32 {
    Mix(Low(c), Bit(c, 1), Bit(c, 2), Bit(c, 4), Bit(c, 8), Bit(c, 16))
  }

  lemma MixRange(l: bv32, b1: bool, b2: bool, b4: bool, b8: bool, b16: bool)
    requires l < 0x4000_0000
    ensures Mix(l, b1, b2, b4, b8, b16) < 0x4000_0000
  {
    var c1 := Xor(l, Pick(b1, 0x3b6a_57b2));
    var c2 := Xor(c1, Pick(b2, 0x2650_8e6d));
    var c4 := Xor(c2, Pick(b4, 0x1ea1_19fa));
    var c8 := Xor(c4, Pick(b8, 0x3d42_33dd));
    XorRange(l, Pick(b1, 0x3b6a_57b2));
    XorRange(c1, Pick(b2, 0x2650_8e6d));
    XorRange(c2, Pick(b4, 0x1ea1_19fa));
    XorRange(c4, Pick(b8, 0x3d42_33dd));
    XorRange(c8, Pick(b16, 0x2a14_62b3));
  }

  lemma XorRange(a: bv32, b: bv32)
    requires a < 0x4000_0000 && b < 0x4000_0000
    ensures Xor(a, b) < 0x4000_0000
  {
    XorIs(a, b);
  }

  lemma ShiftRange(c: bv32)
    ensures Shift(c) < 0x4000_0000
  {
    LowRange(c);
    MixRange(Low(c), Bit(c, 1), Bit(c, 2), Bit(c, 4), Bit(c, 8), Bit(c, 16));
  }

  lemma LowRange(c: bv32)
    ensures Low(c) < 0x4000_0000
  {
  }

  /** The five multiples are independent already in their lowest coefficient. */
  lemma MixInjective(l: bv32, b1: bool, b2: bool, b4: bool, b8: bool, b16: bool)
    requires l & 31 == 0 && Mix(l, b1, b2, b4, b8, b16) == 0
    ensures l == 0 && !b1 && !b2 && !b4 && !b8 && !b16
  {
    var c1 := Xor(l, Pick(b1, 0x3b6a_57b2));
    var c2 := Xor(c1, Pick(b2, 0x2650_8e6d));
    var c4 := Xor(c2, Pick(b4, 0x1ea1_19fa));
    var c8 := Xor(c4, Pick(b8, 0x3d42_33dd));
    XorIs(l, Pick(b1, 0x3b6a_57b2));
    XorIs(c1, Pick(b2, 0x2650_8e6d));
    XorIs(c2, Pick(b4, 0x1ea1_19fa));
    XorIs(c4, Pick(b8, 0x3d42_33dd));
    XorIs(c8, Pick(b16, 0x2a14_62b3));
  }

  lemma ShiftInjective(c: bv32)
    requires c < 0x4000_0000 && Shift(c) == 0
    ensures c == 0
  {
    assert Low(c) & 31 == 0;
    MixInjective(Low(c), Bit(c, 1), Bit(c, 2), Bit(c, 4), Bit(c, 8), Bit(c, 16));
    BitIs(c, 1);
    BitIs(c, 2);
    BitIs(c, 4);
    BitIs(c, 8);
    BitIs(c, 16);
  }

  lemma LowLinear(a: bv32, b: bv32)
    ensures Low(a ^ b) == Low(a) ^ Low(b)
    ensures Top(a ^ b) == Top(a) ^ Top(b)
  {
  }

  lemma BitLinear(a: bv32, b: bv32, mask: bv32)
    requires mask == 1 || mask == 2 || mask == 4 || mask == 8 || mask == 16
    ensures Bit(Xor(a, b), mask) <==> Bit(a, mask) != Bit(b, mask)
  {
    XorIs(a, b);
    LowLinear(a, b);
    BitIs(a, mask);
    BitIs(b, mask);
    BitIs(Xor(a, b), mask);
  }

  lemma MixLinear(l: bv32, p1: bool, p2: bool, p4: bool, p8: bool, p16: bool,
                  m: bv32, q1: bool, q2: bool, q4: bool, q8: bool, q16: bool)
    ensures Mix(Xor(l, m), p1 != q1, p2 != q2, p4 != q4, p8 != q8, p16 != q16)
            == Xor(Mix(l, p1, p2, p4, p8, p16), Mix(m, q1, q2, q4, q8, q16))
  {
    var l1, m1 := Xor(l, Pick(p1, 0x3b6a_57b2)), Xor(m, Pick(q1, 0x3b6a_57b2));
    var l2, m2 := Xor(l1, Pick(p2, 0x2650_8e6d)), Xor(m1, Pick(q2, 0x2650_8e6d));
    var l4, m4 := Xor(l2, Pick(p4, 0x1ea1_19fa)), Xor(m2, Pick(q4, 0x1ea1_19fa));
    var l8, m8 := Xor(l4, Pick(p8, 0x3d42_33dd)), Xor(m4, Pick(q8, 0x3d42_33dd));
    StepLinear(l, m, p1, q1, 0x3b6a_57b2);
    StepLinear(l1, m1, p2, q2, 0x2650_8e6d);
    StepLinear(l2, m2, p4, q4, 0x1ea1_19fa);
    StepLinear(l4, m4, p8, q8, 0x3d42_33dd);
    StepLinear(l8, m8, p16, q16, 0x2a14_62b3);
  }

  lemma ShiftLinear(a: bv32, b: bv32)
    ensures Shift(Xor(a, b)) == Xor(Shift(a), Shift(b))
  {
    LowXor(a, b);
    BitLinear(a, b, 1);
    BitLinear(a, b, 2);
    BitLinear(a, b, 4);
    BitLinear(a, b, 8);
    BitLinear(a, b, 16);
    MixLinear(Low(a), Bit(a, 1), Bit(a, 2), Bit(a, 4), Bit(a, 8), Bit(a, 16),
              Low(b), Bit(b, 1), Bit(b, 2), Bit(b, 4), Bit(b, 8), Bit(b, 16));
  }

  lemma LowXor(a: bv32, b: bv32)
    ensures Low(Xor(a, b)) == Xor(Low(a), Low(b))
  {
    XorIs(a, b);
    LowLinear(a, b);
    XorIs(Low(a), Low(b));
  }

  lemma StepLinear(a: bv32, b: bv32, p: bool, q: bool, k: bv32)
    ensures Xor(Xor(a, b), Pick(p != q, k)) == Xor(Xor(a, Pick(p, k)), Xor(b, Pick(q, k)))
  {
    PickLinear(p, q, k);
    XorRegroup(a, b, Pick(p, k), Pick(q, k));
  }

  // ----- whole lists of symbols -----

  ghost predicate IsStep(c: bv32, x: bv8, r: bv32) {
    forall n :: Look(n) ==> r == Xor(Shift(c), x as bv32)
  }

  /** Adds one symbol. */
  ghost function Step(c: bv32, x: bv8): bv32 {
    assert IsStep(c, x, Xor(Shift(c), x as bv32));
    var r :| IsStep(c, x, r);
    r
  }

  lemma StepIs(c: bv32, x: bv8)
    ensures Step(c, x) == Xor(Shift(c), x as bv32)
  {
    assert Look(0);
  }

  ghost function Fold(c: bv32, v: seq<bv8>): bv32 {
    if v == [] then c else Step(Fold(c, v[..|v| - 1]), v[|v| - 1])
  }

  ghost predicate Symbols(v: seq<bv8>) {
    forall i :: 0 <= i < |v| ==> v[i] < 32
  }

  lemma {:induction false} FoldConcat(c: bv32, v: seq<bv8>, w: seq<bv8>)
    ensures Fold(c, v + w) == Fold(Fold(c, v), w)
  {
    if w == [] {
      assert v + w == v;
    } else {
      var n := |w| - 1;
      assert (v + w)[..|v| + n] == v + w[..n];
      FoldConcat(c, v, w[..n]);
    }
  }

  lemma FoldAppend(c: bv32, v: seq<bv8>, x: bv8)
    ensures Fold(c, v + [x]) == Step(Fold(c, v), x)
  {
    assert (v + [x])[..|v|] == v;
  }

  lemma WidenLinear(x: bv8, y: bv8)
    ensures (x ^ y) as bv32 == Xor(x as bv32, y as bv32)
  {
    XorIs(x as bv32, y as bv32);
  }

  lemma StepIsLinear(a: bv32, b: bv32, x: bv8, y: bv8)
    ensures Step(Xor(a, b), x ^ y) == Xor(Step(a, x), Step(b, y))
  {
    StepIs(a, x);
    StepIs(b, y);
    StepIs(Xor(a, b), x ^ y);
    ShiftLinear(a, b);
    WidenLinear(x, y);
    XorRegroup(Shift(a), Shift(b), x as bv32, y as bv32);
  }

  ghost function Difference(v: seq<bv8>, w: seq<bv8>): (d: seq<bv8>)
    requires |v| == |w|
    ensures |d| == |v| && forall i :: 0 <= i < |v| ==> d[i] == v[i] ^ w[i]
  {
    seq(|v|, i requires 0 <= i < |v| => v[i] ^ w[i])
  }

  lemma {:induction false} FoldLinear(a: bv32, b: bv32, v: seq<bv8>, w: seq<bv8>)
    requires |v| == |w|
    ensures Fold(Xor(a, b), Difference(v, w)) == Xor(Fold(a, v), Fold(b, w))
  {
    if v != [] {
      var n := |v| - 1;
      var d := Difference(v, w);
      assert d[..n] == Difference(v[..n], w[..n]);
      FoldLinear(a, b, v[..n], w[..n]);
      StepIsLinear(Fold(a, v[..n]), Fold(b, w[..n]), v[n], w[n]);
    }
  }

  lemma StepRange(c: bv32, x: bv8)
    requires x < 32
    ensures Step(c, x) < 0x4000_0000
  {
    StepIs(c, x);
    ShiftRange(c);
    XorRange(Shift(c), x as bv32);
  }

  lemma {:induction false} FoldRange(c: bv32, v: seq<bv8>)
    requires c < 0x4000_0000 && Symbols(v)
    ensures Fold(c, v) < 0x4000_0000
  {
    if v != [] {
      StepRange(Fold(c, v[..|v| - 1]), v[|v| - 1]);
    }
  }

  ghost function Zeroes(n: nat): (z: seq<bv8>)
    ensures |z| == n && forall i :: 0 <= i < n ==> z[i] == 0
  {
    seq(n, _ => 0)
  }

  /** Zeroes after a nonzero remainder never bring it to zero, and zeroes after zero keep it. */
  lemma {:induction false} FoldZeroes(c: bv32, n: nat)
    requires c < 0x4000_0000
    ensures Fold(c, Zeroes(n)) == 0 <==> c == 0
  {
    if n > 0 {
      assert Zeroes(n)[..n - 1] == Zeroes(n - 1);
      FoldZeroes(c, n - 1);
      var d := Fold(c, Zeroes(n - 1));
      FoldRange(c, Zeroes(n - 1));
      StepZero(d);
    }
  }

  lemma StepZero(d: bv32)
    requires d < 0x4000_0000
    ensures Step(d, 0) == 0 <==> d == 0
  {
    StepIs(d, 0);
    XorZero(Shift(d));
    ShiftZero();
    if Shift(d) == 0 {
      ShiftInjective(d);
    }
  }

  lemma ShiftZero()
    ensures Shift(0) == 0
  {
    BitIs(0, 1);
    BitIs(0, 2);
    BitIs(0, 4);
    BitIs(0, 8);
    BitIs(0, 16);
    XorZero(0);
  }

  // ----- windows of six symbols -----

  /** 2^(5 n). */
  function Room(n: nat): bv32
    requires n <= 6
  {
    match n
    case 0 => 1
    case 1 => 0x20
    case 2 => 0x400
    case 3 => 0x8000
    case 4 => 0x10_0000
    case 5 => 0x200_0000
    case 6 => 0x4000_0000
  }

  /** While the leading coefficient is zero, a step only appends the symbol. */
  lemma SmallShift(c: bv32)
    requires c < 0x200_0000
    ensures Shift(c) == c << 5
  {
    BitIs(c, 1);
    BitIs(c, 2);
    BitIs(c, 4);
    BitIs(c, 8);
    BitIs(c, 16);
    XorZero(Low(c));
  }

  lemma SmallStep(c: bv32, x: bv8)
    requires c < 0x200_0000
    ensures Step(c, x) == (c << 5) ^ (x as bv32)
  {
    StepIs(c, x);
    SmallShift(c);
    XorIs(c << 5, x as bv32);
  }

  lemma AppendZero(c: bv32, x: bv8)
    requires c < 0x200_0000 && x < 32 && (c << 5) ^ (x as bv32) == 0
    ensures c == 0 && x == 0
  {
  }

  lemma AppendRange(c: bv32, x: bv8, n: nat)
    requires n < 6 && c < Room(n) && x < 32
    ensures c < 0x200_0000 && (c << 5) ^ (x as bv32) < Room(n + 1)
  {
    if n == 0 {
    } else if n == 1 {
    } else if n == 2 {
    } else if n == 3 {
    } else if n == 4 {
    } else {
    }
  }

  lemma StepGrows(c: bv32, x: bv8, n: nat)
    requires n < 6 && c < Room(n) && x < 32
    ensures Step(c, x) < Room(n + 1)
  {
    AppendRange(c, x, n);
    SmallStep(c, x);
  }

  lemma StepToZero(c: bv32, x: bv8, n: nat)
    requires n < 6 && c < Room(n) && x < 32 && Step(c, x) == 0
    ensures c == 0 && x == 0
  {
    AppendRange(c, x, n);
    SmallStep(c, x);
    AppendZero(c, x);
  }

  lemma {:induction false} WindowRange(v: seq<bv8>)
    requires |v| <= 6 && Symbols(v)
    ensures Fold(0, v) < Room(|v|)
  {
    if v != [] {
      WindowRange(v[..|v| - 1]);
      StepGrows(Fold(0, v[..|v| - 1]), v[|v| - 1], |v| - 1);
    }
  }

  lemma LastIsZero(v: seq<bv8>)
    requires 0 < |v| <= 6 && Symbols(v) && Fold(0, v) == 0
    ensures v[|v| - 1] == 0 && Fold(0, v[..|v| - 1]) == 0
  {
    var n := |v| - 1;
    WindowRange(v[..n]);
    StepToZero(Fold(0, v[..n]), v[n], n);
  }

  lemma {:induction false} WindowIsNonzero(v: seq<bv8>, i: nat)
    requires |v| <= 6 && Symbols(v) && Fold(0, v) == 0 && i < |v|
    ensures v[i] == 0
  {
    LastIsZero(v);
    if i < |v| - 1 {
      WindowIsNonzero(v[..|v| - 1], i);
    }
  }

  // ----- main results about the code -----

  /** A change confined to six neighbouring symbols always changes the remainder. */
  lemma BurstDetected(v: seq<bv8>, w: seq<bv8>, i: nat)
    requires |v| == |w| && i <= |v| && Symbols(v) && Symbols(w) && v != w
    requires forall j :: 0 <= j < |v| && !(i <= j < i + 6) ==> v[j] == w[j]
    ensures Fold(1, v) != Fold(1, w)
  {
    var k := if i + 6 <= |v| then i + 6 else |v|;
    FoldLinear(1, 1, v, w);
    XorZero(1);
    XorZero(Fold(1, v));
    DifferenceRange(v, w);
    if Fold(0, Difference(v, w)) == 0 {
      BurstIsZero(Difference(v, w), i, k);
      WindowAgrees(v, w, i, k);
    }
  }

  lemma BurstIsZero(d: seq<bv8>, i: nat, k: nat)
    requires Symbols(d) && i <= k <= |d| && (forall j :: 0 <= j < |d| && !(i <= j < k) ==> d[j] == 0) && Fold(0, d) == 0
    ensures Fold(0, d[i..k]) == 0
  {
    assert d == (Zeroes(i) + d[i..k]) + Zeroes(|d| - k);
    FoldConcat(0, Zeroes(i) + d[i..k], Zeroes(|d| - k));
    FoldConcat(0, Zeroes(i), d[i..k]);
    FoldZeroes(0, i);
    FoldRange(0, d[i..k]);
    FoldZeroes(Fold(0, d[i..k]), |d| - k);
  }

  lemma DifferenceRange(v: seq<bv8>, w: seq<bv8>)
    requires |v| == |w| && Symbols(v) && Symbols(w)
    ensures Symbols(Difference(v, w))
    ensures forall j :: 0 <= j < |v| && v[j] == w[j] ==> Difference(v, w)[j] == 0
  {
    forall j | 0 <= j < |v|
      ensures Difference(v, w)[j] < 32 && (v[j] == w[j] ==> Difference(v, w)[j] == 0)
    {
      SymbolXor(v[j], w[j]);
    }
  }

  lemma SymbolXor(x: bv8, y: bv8)
    requires x < 32 && y < 32
    ensures x ^ y < 32 && (x ^ y == 0 <==> x == y) && 0 ^ x == x
  {
  }

  lemma WindowAgrees(v: seq<bv8>, w: seq<bv8>, i: nat, k: nat)
    requires |v| == |w| && Symbols(v) && Symbols(w) && i <= k <= |v| && k - i <= 6
    requires forall j :: 0 <= j < |v| && !(i <= j < k) ==> v[j] == w[j]
    requires Fold(0, Difference(v, w)[i..k]) == 0
    ensures v == w
  {
    DifferenceRange(v, w);
    forall j | i <= j < k
      ensures v[j] == w[j]
    {
      WindowIsNonzero(Difference(v, w)[i..k], j - i);
      SymbolXor(v[j], w[j]);
    }
  }

  /** Changing exactly one symbol is detected, wherever it is and however long the list. */
  lemma SingleChangeDetected(v: seq<bv8>, i: nat, x: bv8)
    requires Symbols(v) && i < |v| && x < 32 && x != v[i]
    ensures Fold(1, v[i := x]) != Fold(1, v)
  {
    BurstDetected(v[i := x], v, i);
  }

  /** A 5-bit group of a remainder, highest first. */
  function Group(m: bv32, i: nat): bv8
    requires i < 6
  {
    match i
    case 0 => ((m >> 25) & 31) as bv8
    case 1 => ((m >> 20) & 31) as bv8
    case 2 => ((m >> 15) & 31) as bv8
    case 3 => ((m >> 10) & 31) as bv8
    case 4 => ((m >> 5) & 31) as bv8
    case 5 => (m & 31) as bv8
  }

  function Groups(m: bv32): (g: seq<bv8>)
    ensures |g| == 6
  {
    [Group(m, 0), Group(m, 1), Group(m, 2), Group(m, 3), Group(m, 4), Group(m, 5)]
  }

  lemma GroupsAt(m: bv32, i: nat)
    requires i < 6
    ensures Groups(m)[i] == Group(m, i)
  {
  }

  lemma GroupsRange(m: bv32)
    ensures Symbols(Groups(m))
  {
  }

  lemma ShiftBits(m: bv32)
    requires m < 0x4000_0000
    ensures (m >> 5) >> 5 == m >> 10 && (m >> 10) >> 5 == m >> 15 && (m >> 15) >> 5 == m >> 20
    ensures (m >> 20) >> 5 == m >> 25 && (m >> 25) >> 5 == 0
    ensures m >> 5 <= m && m >> 10 <= m && m >> 15 <= m && m >> 20 <= m && m >> 25 <= m
  {
  }

  lemma FiveBits(x: bv32)
    requires x < 0x4000_0000
    ensures ((x >> 5) << 5) ^ (x & 31) == x && x >> 5 < 0x200_0000
  {
  }

  /** `x` is `c` with the group `g` appended. */
  predicate Extends(c: bv32, g: bv8, x: bv32) {
    x < 0x4000_0000 && c == x >> 5 && g == (x & 31) as bv8
  }

  lemma GroupStep(c: bv32, g: bv8, x: bv32)
    requires Extends(c, g, x)
    ensures Step(c, g) == x
  {
    FiveBits(x);
    Narrow(x);
    SmallStep(c, g);
  }

  lemma GroupsExtend(m: bv32)
    requires m < 0x4000_0000
    ensures Extends(0, Group(m, 0), m >> 25) && Extends(m >> 25, Group(m, 1), m >> 20)
    ensures Extends(m >> 20, Group(m, 2), m >> 15) && Extends(m >> 15, Group(m, 3), m >> 10)
    ensures Extends(m >> 10, Group(m, 4), m >> 5) && Extends(m >> 5, Group(m, 5), m)
  {
    ShiftBits(m);
  }

  lemma Narrow(x: bv32)
    ensures ((x & 31) as bv8) as bv32 == x & 31
  {
  }

  /** Folding the groups of a remainder from zero gives it back. */
  lemma FoldGroups(m: bv32)
    requires m < 0x4000_0000
    ensures Fold(0, Groups(m)) == m
  {
    GroupsExtend(m);
    FoldSix(Group(m, 0), Group(m, 1), Group(m, 2), Group(m, 3), Group(m, 4), Group(m, 5),
            m >> 25, m >> 20, m >> 15, m >> 10, m >> 5, m);
  }

  lemma FoldSix(g0: bv8, g1: bv8, g2: bv8, g3: bv8, g4: bv8, g5: bv8, c1: bv32, c2: bv32, c3: bv32, c4: bv32, c5: bv32,
                c6: bv32)
    requires Extends(0, g0, c1) && Extends(c1, g1, c2) && Extends(c2, g2, c3)
    requires Extends(c3, g3, c4) && Extends(c4, g4, c5) && Extends(c5, g5, c6)
    ensures Fold(0, [g0, g1, g2, g3, g4, g5]) == c6
  {
    GroupStep(0, g0, c1);
    GroupStep(c1, g1, c2);
    GroupStep(c2, g2, c3);
    GroupStep(c3, g3, c4);
    GroupStep(c4, g4, c5);
    GroupStep(c5, g5, c6);
    FoldThree(0, g0, g1, g2);
    FoldThree(c3, g3, g4, g5);
    FoldConcat(0, [g0, g1, g2], [g3, g4, g5]);
    assert [g0, g1, g2] + [g3, g4, g5] == [g0, g1, g2, g3, g4, g5];
  }

  lemma FoldThree(c: bv32, x: bv8, y: bv8, z: bv8)
    ensures Fold(c, [x, y, z]) == Step(Step(Step(c, x), y), z)
  {
    assert [x, y, z] == [x, y] + [z] && [x, y] == [x] + [y] && [x] == [] + [x];
    FoldAppend(c, [x, y], z);
    FoldAppend(c, [x], y);
    FoldAppend(c, [], x);
  }

  /** The six symbols that make the remainder of a list one. */
  ghost function Checksum(v: seq<bv8>): (s: seq<bv8>)
    ensures |s| == 6
  {
    Groups(Xor(Fold(1, v + Zeroes(6)), 1))
  }

  lemma ChecksumVerifies(v: seq<bv8>)
    requires Symbols(v)
    ensures Symbols(Checksum(v)) && Fold(1, v + Checksum(v)) == 1
  {
    var c, z := Fold(1, v), Zeroes(6);
    var m := Fold(1, v + z);
    var s := Checksum(v);
    GroupsRange(Xor(m, 1));
    FoldConcat(1, v, z);
    FoldConcat(1, v, s);
    FoldRange(1, v + z);
    XorRange(m, 1);
    FoldGroups(Xor(m, 1));
    ZeroDifference(s);
    FoldLinear(c, 0, z, s);
    XorZero(c);
    XorAssoc(m, m, 1);
    XorZero(m);
    XorZero(1);
  }

  lemma ZeroDifference(s: seq<bv8>)
    requires Symbols(s)
    ensures Difference(Zeroes(|s|), s) == s
  {
    forall i | 0 <= i < |s|
      ensures Difference(Zeroes(|s|), s)[i] == s[i]
    {
      SymbolXor(s[i], s[i]);
    }
  }

  /** No other six symbols verify. */
  lemma ChecksumUnique(v: seq<bv8>, s: seq<bv8>)
    requires Symbols(v) && Symbols(s) && |s| == 6 && Fold(1, v + s) == 1
    ensures s == Checksum(v)
  {
    ChecksumVerifies(v);
    if s != Checksum(v) {
      assert (v + s)[|v|..] == s && (v + Checksum(v))[|v|..] == Checksum(v);
      BurstDetected(v + s, v + Checksum(v), |v|);
    }
  }
}

/** The Bech32 codec (src/bech32.cpp): text with a prefix, a separator and symbols with their checksum. */
module Bech32 {
  import opened Hiding
  import opened Wrappers
  import opened Bech32Checksum

  // ----- the checksum loops -----

  method AddIf(c: bv32, on: bool, k: bv32) returns (r: bv32)
    ensures r == Xor(c, Pick(on, k))
  {
    if on {
      XorIs(c, k);
      r := c ^ k;
    } else {
      XorZero(c);
      r := c;
    }
  }

  /** One round of the loop of `PolyMod`. */
  method AddSymbol(c: bv32, x: bv8) returns (r: bv32)
    ensures r == Step(c, x)
  {
    var c0 := c >> 25;
    XorIs(Low(c), x as bv32);
    r := ((c & 0x1ff_ffff) << 5) ^ (x as bv32);
    r := AddIf(r, c0 & 1 != 0, 0x3b6a_57b2);
    r := AddIf(r, c0 & 2 != 0, 0x2650_8e6d);
    r := AddIf(r, c0 & 4 != 0, 0x1ea1_19fa);
    r := AddIf(r, c0 & 8 != 0, 0x3d42_33dd);
    r := AddIf(r, c0 & 16 != 0, 0x2a14_62b3);
    StepAsMixed(c, x);
  }

  /** The order of the exclusive ors does not matter. */
  lemma StepAsMixed(c: bv32, x: bv8)
    ensures Step(c, x) == Mix(Xor(Low(c), x as bv32), Top(c) & 1 != 0, Top(c) & 2 != 0, Top(c) & 4 != 0,
                              Top(c) & 8 != 0, Top(c) & 16 != 0)
  {
    StepIs(c, x);
    BitIs(c, 1);
    BitIs(c, 2);
    BitIs(c, 4);
    BitIs(c, 8);
    BitIs(c, 16);
    MixPlain(x as bv32);
    MixLinear(Low(c), Top(c) & 1 != 0, Top(c) & 2 != 0, Top(c) & 4 != 0, Top(c) & 8 != 0, Top(c) & 16 != 0,
              x as bv32, false, false, false, false, false);
  }

  lemma MixPlain(x: bv32)
    ensures Mix(x, false, false, false, false, false) == x
  {
    XorZero(x);
  }

  function Plus(a: bv32, b: bv32): bv32 { a ^ b }

  lemma XorIsPlus(a: bv32, b: bv32)
    ensures Xor(a, b) == Plus(a, b)
  {
    XorIs(a, b);
  }

  /** A step with numbers. */
  function Direct(c: bv32, x: bv8): bv32 {
    Plus(Plus(Plus(Plus(Plus(Plus(Low(c), x as bv32),
                             Pick(Top(c) & 1 != 0, 0x3b6a_57b2)), Pick(Top(c) & 2 != 0, 0x2650_8e6d)),
                   Pick(Top(c) & 4 != 0, 0x1ea1_19fa)), Pick(Top(c) & 8 != 0, 0x3d42_33dd)),
         Pick(Top(c) & 16 != 0, 0x2a14_62b3))
  }

  lemma DirectIs(c: bv32, x: bv8)
    ensures Step(c, x) == Direct(c, x)
  {
    StepAsMixed(c, x);
    var c0 := Xor(Low(c), x as bv32);
    var c1 := Xor(c0, Pick(Top(c) & 1 != 0, 0x3b6a_57b2));
    var c2 := Xor(c1, Pick(Top(c) & 2 != 0, 0x2650_8e6d));
    var c4 := Xor(c2, Pick(Top(c) & 4 != 0, 0x1ea1_19fa));
    var c8 := Xor(c4, Pick(Top(c) & 8 != 0, 0x3d42_33dd));
    XorIsPlus(Low(c), x as bv32);
    XorIsPlus(c0, Pick(Top(c) & 1 != 0, 0x3b6a_57b2));
    XorIsPlus(c1, Pick(Top(c) & 2 != 0, 0x2650_8e6d));
    XorIsPlus(c2, Pick(Top(c) & 4 != 0, 0x1ea1_19fa));
    XorIsPlus(c4, Pick(Top(c) & 8 != 0, 0x3d42_33dd));
    XorIsPlus(c8, Pick(Top(c) & 16 != 0, 0x2a14_62b3));
  }

  lemma DirectThree(c0: bv32, x: bv8, c1: bv32, y: bv8, c2: bv32, z: bv8, c3: bv32)
    requires Direct(c0, x) == c1 && Direct(c1, y) == c2 && Direct(c2, z) == c3
    ensures Fold(c0, [x, y, z]) == c3
  {
    DirectIs(c0, x);
    DirectIs(c1, y);
    DirectIs(c2, z);
    FoldThree(c0, x, y, z);
  }

  lemma SampleFold()
    ensures Fold(1, [3, 0, 1] + [10, 28, 25] + [31, 20, 31]) == 1
  {
    DirectThree(0x0000_0001, 3, 0x0000_0023, 0, 0x0000_0460, 1, 0x0000_8c01);
    DirectThree(0x0000_8c01, 10, 0x0011_802a, 28, 0x0230_055c, 25, 0x3d6a_fc2b);
    DirectThree(0x3d6a_fc2b, 31, 0x02f8_4386, 20, 0x2462_2766, 31, 0x0000_0001);
    FoldConcat(1, [3, 0, 1] + [10, 28, 25], [31, 20, 31]);
    FoldConcat(1, [3, 0, 1], [10, 28, 25]);
  }

  /** `PolyMod`. */
  method PolyMod(v: seq<bv8>) returns (c: bv32)
    ensures c == Fold(1, v)
  {
    c := 1;
    for i := 0 to |v|
      invariant c == Fold(1, v[..i])
    {
      c := AddSymbol(c, v[i]);
      assert v[..i + 1] == v[..i] + [v[i]];
      FoldAppend(1, v[..i], v[i]);
    }
    assert v[..|v|] == v;
  }

  // ----- the character set -----

  /** The character of a symbol. */
  function CharOf(v: bv8): char {
    match v
    case 0 => 'q'
    case 1 => 'p'
    case 2 => 'z'
    case 3 => 'r'
    case 4 => 'y'
    case 5 => '9'
    case 6 => 'x'
    case 7 => '8'
    case 8 => 'g'
    case 9 => 'f'
    case 10 => '2'
    case 11 => 't'
    case 12 => 'v'
    case 13 => 'd'
    case 14 => 'w'
    case 15 => '0'
    case 16 => 's'
    case 17 => '3'
    case 18 => 'j'
    case 19 => 'n'
    case 20 => '5'
    case 21 => '4'
    case 22 => 'k'
    case 23 => 'h'
    case 24 => 'c'
    case 25 => 'e'
    case 26 => '6'
    case 27 => 'm'
    case 28 => 'u'
    case 29 => 'a'
    case 30 => '7'
    case 31 => 'l'
    case _ => '\0'
  }

  const NO_SYMBOL: bv8 := 0xFF

  /** The symbol of a lower-case character. */
  function LowerSymbol(c: char): bv8 {
    match c
    case 'q' => 0
    case 'p' => 1
    case 'z' => 2
    case 'r' => 3
    case 'y' => 4
    case '9' => 5
    case 'x' => 6
    case '8' => 7
    case 'g' => 8
    case 'f' => 9
    case '2' => 10
    case 't' => 11
    case 'v' => 12
    case 'd' => 13
    case 'w' => 14
    case '0' => 15
    case 's' => 16
    case '3' => 17
    case 'j' => 18
    case 'n' => 19
    case '5' => 20
    case '4' => 21
    case 'k' => 22
    case 'h' => 23
    case 'c' => 24
    case 'e' => 25
    case '6' => 26
    case 'm' => 27
    case 'u' => 28
    case 'a' => 29
    case '7' => 30
    case 'l' => 31
    case _ => NO_SYMBOL
  }

  /** `LowerCase`. */
  function LowerCase(c: char): char {
    if 'A' <= c <= 'Z' then 'a' + (c - 'A') else c
  }

  /** The table `CHARSET_REV`: upper-case letters count as their lower-case forms. */
  function SymbolOf(c: char): bv8 { LowerSymbol(LowerCase(c)) }

  lemma CharRange(v: bv8)
    requires v < 32
    ensures '0' <= CharOf(v) <= 'z' && CharOf(v) != '1' && !('A' <= CharOf(v) <= 'Z')
  {
  }

  lemma LowerSymbolOfChar(v: bv8)
    requires v < 32
    ensures LowerSymbol(CharOf(v)) == v
  {
    if v == 0 {} else if v == 1 {} else if v == 2 {} else if v == 3 {} else if v == 4 {} else if v == 5 {}
    else if v == 6 {} else if v == 7 {} else if v == 8 {} else if v == 9 {} else if v == 10 {} else if v == 11 {}
    else if v == 12 {} else if v == 13 {} else if v == 14 {} else if v == 15 {} else if v == 16 {} else if v == 17 {}
    else if v == 18 {} else if v == 19 {} else if v == 20 {} else if v == 21 {} else if v == 22 {} else if v == 23 {}
    else if v == 24 {} else if v == 25 {} else if v == 26 {} else if v == 27 {} else if v == 28 {} else if v == 29 {}
    else if v == 30 {}
  }

  lemma SymbolOfChar(v: bv8)
    requires v < 32
    ensures SymbolOf(CharOf(v)) == v
  {
    CharRange(v);
    LowerSymbolOfChar(v);
  }

  lemma CharOfLowerSymbol(c: char)
    requires LowerSymbol(c) != NO_SYMBOL
    ensures CharOf(LowerSymbol(c)) == c
  {
    if c == 'q' {} else if c == 'p' {} else if c == 'z' {} else if c == 'r' {} else if c == 'y' {} else if c == '9' {}
    else if c == 'x' {} else if c == '8' {} else if c == 'g' {} else if c == 'f' {} else if c == '2' {}
    else if c == 't' {}
    else if c == 'v' {} else if c == 'd' {} else if c == 'w' {} else if c == '0' {} else if c == 's' {}
    else if c == '3' {}
    else if c == 'j' {} else if c == 'n' {} else if c == '5' {} else if c == '4' {} else if c == 'k' {}
    else if c == 'h' {}
    else if c == 'c' {} else if c == 'e' {} else if c == '6' {} else if c == 'm' {} else if c == 'u' {}
    else if c == 'a' {}
    else if c == '7' {}
  }

  lemma LowerSymbolRange(c: char)
    requires LowerSymbol(c) != NO_SYMBOL
    ensures LowerSymbol(c) < 32 && c != '1'
  {
  }

  lemma CharOfSymbol(c: char)
    requires SymbolOf(c) != NO_SYMBOL
    ensures SymbolOf(c) < 32 && CharOf(SymbolOf(c)) == LowerCase(c) && c != '1'
  {
    CharOfLowerSymbol(LowerCase(c));
    LowerSymbolRange(LowerCase(c));
  }

  /** The character set, in the order of the symbols. */
  lemma CharsetIs(v: bv8)
    requires v < 32
    ensures CharOf(v) == "qpzry9x8gf2tvdw0s3jn54khce6mua7l"[v as int]
  {
    var s := "qpzry9x8gf2tvdw0s3jn54khce6mua7l";
    if v == 0 {} else if v == 1 {} else if v == 2 {} else if v == 3 {} else if v == 4 {} else if v == 5 {}
    else if v == 6 {} else if v == 7 {} else if v == 8 {} else if v == 9 {} else if v == 10 {} else if v == 11 {}
    else if v == 12 {} else if v == 13 {} else if v == 14 {} else if v == 15 {} else if v == 16 {} else if v == 17 {}
    else if v == 18 {} else if v == 19 {} else if v == 20 {} else if v == 21 {} else if v == 22 {} else if v == 23 {}
    else if v == 24 {} else if v == 25 {} else if v == 26 {} else if v == 27 {} else if v == 28 {} else if v == 29 {}
    else if v == 30 {}
  }

  ghost predicate IsChr(v: bv8, c: char) {
    forall n :: Look(n) ==> c == CharOf(v)
  }

  /** `CharOf`, unfolded only on demand. */
  ghost function Chr(v: bv8): char {
    assert IsChr(v, CharOf(v));
    var c :| IsChr(v, c);
    c
  }

  ghost predicate IsSym(c: char, v: bv8) {
    forall n :: Look(n) ==> v == SymbolOf(c)
  }

  /** `SymbolOf`, unfolded only on demand. */
  ghost function Sym(c: char): bv8 {
    assert IsSym(c, SymbolOf(c));
    var v :| IsSym(c, v);
    v
  }

  lemma ChrIs(v: bv8)
    ensures Chr(v) == CharOf(v)
  {
    assert Look(0);
  }

  lemma SymIs(c: char)
    ensures Sym(c) == SymbolOf(c)
  {
    assert Look(0);
  }

  lemma SymOfChr(v: bv8)
    requires v < 32
    ensures Sym(Chr(v)) == v && '0' <= Chr(v) <= 'z' && Chr(v) != '1' && !('A' <= Chr(v) <= 'Z')
  {
    ChrIs(v);
    SymIs(CharOf(v));
    CharRange(v);
    SymbolOfChar(v);
  }

  lemma ChrOfSym(c: char)
    requires Sym(c) != NO_SYMBOL
    ensures Sym(c) < 32 && Chr(Sym(c)) == LowerCase(c) && c != '1'
  {
    SymIs(c);
    ChrIs(SymbolOf(c));
    CharOfSymbol(c);
  }

  // ----- the prefix -----

  type Text = s: string | forall i :: 0 <= i < |s| ==> s[i] as int < 256

  function HighBits(c: bv8): bv8 { ((c as bv32) >> 5) as bv8 }

  function LowBits(c: bv8): bv8 { c & 0x1f }

  lemma PartsRange(c: bv8)
    ensures HighBits(c) < 32 && LowBits(c) < 32
  {
  }

  ghost predicate AreParts(c: char, p: (bv8, bv8))
    requires c as int < 256
  {
    forall n :: Look(n) ==> p == (HighBits(c as int as bv8), LowBits(c as int as bv8))
  }

  /** The upper three and the lower five bits of a character. */
  ghost function Parts(c: char): (p: (bv8, bv8))
    requires c as int < 256
    ensures p.0 < 32 && p.1 < 32
  {
    PartsRange(c as int as bv8);
    assert AreParts(c, (HighBits(c as int as bv8), LowBits(c as int as bv8)));
    var p: (bv8, bv8) :| p.0 < 32 && p.1 < 32 && AreParts(c, p);
    p
  }

  method SplitChar(c: char) returns (high: bv8, low: bv8)
    requires c as int < 256
    ensures (high, low) == Parts(c)
  {
    assert Look(0);
    var code := c as int as bv8;
    high, low := HighBits(code), LowBits(code);
  }

  ghost function Expand(hrp: Text): (v: seq<bv8>)
    ensures |v| == 2 * |hrp| + 1
  {
    seq(2 * |hrp| + 1, i requires 0 <= i < 2 * |hrp| + 1 =>
      if i < |hrp| then Parts(hrp[i]).0 else if i == |hrp| then 0 else Parts(hrp[i - |hrp| - 1]).1)
  }

  lemma ExpandRange(hrp: Text)
    ensures Symbols(Expand(hrp))
  {
  }

  /** `ExpandHRP`. */
  method ExpandHRP(hrp: Text) returns (v: seq<bv8>)
    ensures v == Expand(hrp)
  {
    var n := |hrp|;
    var ret := new bv8[2 * n + 1](_ => 0);
    for i := 0 to n
      invariant ret[n] == 0
      invariant forall j :: 0 <= j < i ==> ret[j] == Parts(hrp[j]).0
      invariant forall j :: n < j < i + n + 1 ==> ret[j] == Parts(hrp[j - n - 1]).1
    {
      ret[i], ret[i + n + 1] := SplitChar(hrp[i]);
    }
    v := ret[..];
  }

  /** `VerifyChecksum`. */
  ghost predicate Verifies(hrp: Text, values: seq<bv8>) {
    Fold(1, Expand(hrp) + values) == 1
  }

  method VerifyChecksum(hrp: Text, values: seq<bv8>) returns (ok: bool)
    ensures ok <==> Verifies(hrp, values)
  {
    var v := ExpandHRP(hrp);
    var c := PolyMod(v + values);
    ok := c == 1;
  }

  /** `CreateChecksum`. */
  method CreateChecksum(hrp: Text, values: seq<bv8>) returns (s: seq<bv8>)
    ensures s == Checksum(Expand(hrp) + values)
  {
    var enc := ExpandHRP(hrp);
    enc := enc + values + [0, 0, 0, 0, 0, 0];
    assert enc == Expand(hrp) + values + Zeroes(6);
    var m := PolyMod(enc);
    XorIs(m, 1);
    m := m ^ 1;
    forall i: nat | i < 6
      ensures Groups(m)[i] == Group(m, i)
    {
      GroupsAt(m, i);
    }
    s := CollectGroups(m, Groups(m));
  }

  method CollectGroups(m: bv32, ghost g: seq<bv8>) returns (s: seq<bv8>)
    requires |g| == 6 && forall i: nat :: i < 6 ==> g[i] == Group(m, i)
    ensures s == g
  {
    s := [];
    for i := 0 to 6
      invariant s == g[..i]
    {
      s := s + [Group(m, i)];
    }
  }

  // ----- the codec -----

  ghost function Chars(values: seq<bv8>): (s: string)
    ensures |s| == |values|
  {
    seq(|values|, i requires 0 <= i < |values| => Chr(values[i]))
  }

  /** What `Encode` returns. */
  ghost function Encoded(hrp: Text, values: seq<bv8>): string {
    hrp + "1" + Chars(values + Checksum(Expand(hrp) + values))
  }

  method Encode(hrp: Text, values: seq<bv8>) returns (text: string)
    requires Symbols(values)
    ensures text == Encoded(hrp, values)
  {
    var checksum := CreateChecksum(hrp, values);
    var combined := values + checksum;
    text := hrp + "1";
    for i := 0 to |combined|
      invariant text == hrp + "1" + Chars(combined)[..i]
    {
      ChrIs(combined[i]);
      text := text + [CharOf(combined[i])];
    }
    assert Chars(combined)[..|combined|] == Chars(combined);
  }

  predicate Printable(c: char) { '!' <= c <= '~' }

  ghost predicate HasLower(s: string) { exists i :: 0 <= i < |s| && 'a' <= s[i] <= 'z' }

  ghost predicate HasUpper(s: string) { exists i :: 0 <= i < |s| && 'A' <= s[i] <= 'Z' }

  ghost predicate AllPrintable(s: string) { forall i :: 0 <= i < |s| ==> Printable(s[i]) }

  /** The last position of a character, -1 if there is none. */
  function LastOf(s: string, c: char): (p: int)
    ensures -1 <= p < |s| && (p >= 0 ==> s[p] == c) && forall i :: p < i < |s| ==> s[i] != c
  {
    if s == [] then -1 else if s[|s| - 1] == c then |s| - 1 else LastOf(s[..|s| - 1], c)
  }

  ghost function Lower(s: string): (t: string)
    ensures |t| == |s|
  {
    seq(|s|, i requires 0 <= i < |s| => LowerCase(s[i]))
  }

  ghost function Values(s: string): (v: seq<bv8>)
    ensures |v| == |s|
  {
    seq(|s|, i requires 0 <= i < |s| => Sym(s[i]))
  }

  ghost predicate InCharset(s: string) { forall i :: 0 <= i < |s| ==> Sym(s[i]) != NO_SYMBOL }

  /** The form that `Decode` asks for, with the separator at `pos`. */
  ghost predicate WellFormed(text: string, pos: int) {
    && AllPrintable(text) && !(HasLower(text) && HasUpper(text)) && |text| <= 140
    && 1 <= pos <= 83 && pos + 7 <= |text| && InCharset(text[pos + 1..])
  }

  lemma LowerIsText(s: string)
    requires AllPrintable(s)
    ensures forall i :: 0 <= i < |s| ==> Lower(s)[i] as int < 256
  {
    forall i | 0 <= i < |s|
      ensures LowerCase(s[i]) as int < 256
    {
      assert Printable(s[i]);
    }
  }

  /** What `Decode` returns; `None` stands for the empty pair. */
  ghost function Decoded(text: string): Option<(string, seq<bv8>)> {
    var pos := LastOf(text, '1');
    if !WellFormed(text, pos) then None
    else
      var values := Values(text[pos + 1..]);
      LowerIsText(text[..pos]);
      if Verifies(Lower(text[..pos]), values) then Some((Lower(text[..pos]), values[..|values| - 6])) else None
  }

  method Decode(text: string) returns (r: Option<(string, seq<bv8>)>)
    ensures r == Decoded(text)
  {
    var good := CheckCharacters(text);
    if !good {
      return None;
    }
    var pos := RFind(text, '1');
    if |text| > 140 || pos == -1 || pos == 0 || pos + 7 > |text| || pos > 83 {
      return None;
    }
    var values;
    good, values := ReadValues(text[pos + 1..]);
    if !good {
      return None;
    }
    LowerIsText(text[..pos]);
    var hrp := ReadPrefix(text[..pos]);
    var ok := VerifyChecksum(hrp, values);
    if !ok {
      return None;
    }
    return Some((hrp, values[..|values| - 6]));
  }

  /** The first loop of `Decode`: printable characters, not of both cases. */
  method CheckCharacters(text: string) returns (good: bool)
    ensures good <==> AllPrintable(text) && !(HasLower(text) && HasUpper(text))
  {
    var lower, upper := false, false;
    for i := 0 to |text|
      invariant forall j :: 0 <= j < i ==> Printable(text[j])
      invariant lower <==> HasLower(text[..i])
      invariant upper <==> HasUpper(text[..i])
    {
      var c := text[i];
      if c < '!' || c > '~' {
        assert !Printable(text[i]);
        return false;
      }
      CaseSoFar(text, i);
      if 'a' <= c <= 'z' {
        lower := true;
      }
      if 'A' <= c <= 'Z' {
        upper := true;
      }
    }
    assert text[..|text|] == text;
    return !(lower && upper);
  }

  /** The second loop of `Decode`. */
  method ReadValues(s: string) returns (good: bool, values: seq<bv8>)
    ensures good <==> InCharset(s)
    ensures good ==> values == Values(s)
  {
    values := [];
    for i := 0 to |s|
      invariant values == Values(s)[..i]
      invariant forall j :: 0 <= j < i ==> Sym(s[j]) != NO_SYMBOL
    {
      var v := SymbolOf(s[i]);
      SymIs(s[i]);
      if v == NO_SYMBOL {
        return false, values;
      }
      values := values + [v];
    }
    good := true;
  }

  /** The third loop of `Decode`. */
  method ReadPrefix(s: string) returns (hrp: string)
    ensures hrp == Lower(s)
  {
    hrp := "";
    for i := 0 to |s|
      invariant hrp == Lower(s)[..i]
    {
      hrp := hrp + [LowerCase(s[i])];
    }
  }

  lemma CaseSoFar(s: string, i: nat)
    requires i < |s|
    ensures HasLower(s[..i + 1]) <==> HasLower(s[..i]) || 'a' <= s[i] <= 'z'
    ensures HasUpper(s[..i + 1]) <==> HasUpper(s[..i]) || 'A' <= s[i] <= 'Z'
  {
    var t, u := s[..i], s[..i + 1];
    assert u == t + [s[i]];
    assert u[i] == s[i];
    if HasLower(t) {
      var j :| 0 <= j < |t| && 'a' <= t[j] <= 'z';
      assert u[j] == t[j];
    }
    if HasUpper(t) {
      var j :| 0 <= j < |t| && 'A' <= t[j] <= 'Z';
      assert u[j] == t[j];
    }
  }

  /** `rfind`. */
  method RFind(s: string, c: char) returns (p: int)
    ensures p == LastOf(s, c)
  {
    var i := |s|;
    while i > 0
      invariant 0 <= i <= |s| && LastOf(s, c) == LastOf(s[..i], c)
    {
      i := i - 1;
      assert s[..i + 1][..i] == s[..i];
      if s[i] == c {
        return i;
      }
    }
    return -1;
  }

  // ----- main results about the codec -----

  lemma ValuesOfChars(v: seq<bv8>)
    requires Symbols(v)
    ensures InCharset(Chars(v)) && Values(Chars(v)) == v
    ensures forall i :: 0 <= i < |v| ==> '0' <= Chars(v)[i] <= 'z' && Chars(v)[i] != '1' && !('A' <= Chars(v)[i] <= 'Z')
  {
    forall i | 0 <= i < |v|
      ensures Sym(Chars(v)[i]) == v[i] < 32
      ensures '0' <= Chars(v)[i] <= 'z' && Chars(v)[i] != '1' && !('A' <= Chars(v)[i] <= 'Z')
    {
      SymOfChr(v[i]);
    }
  }

  lemma CharsOfValues(s: string)
    requires InCharset(s)
    ensures Symbols(Values(s)) && Chars(Values(s)) == Lower(s)
  {
    forall i | 0 <= i < |s|
      ensures Values(s)[i] < 32 && Chars(Values(s))[i] == LowerCase(s[i])
    {
      ChrOfSym(s[i]);
    }
  }

  /** An encoded text has the form that `Decode` asks for. */
  lemma EncodedIsWellFormed(hrp: Text, tail: string)
    requires AllPrintable(hrp) && !HasUpper(hrp) && 1 <= |hrp| <= 83 && |tail| >= 6 && |hrp| + 1 + |tail| <= 140
    requires InCharset(tail)
    requires forall i :: 0 <= i < |tail| ==> '0' <= tail[i] <= 'z' && tail[i] != '1' && !('A' <= tail[i] <= 'Z')
    ensures var text := hrp + "1" + tail; LastOf(text, '1') == |hrp| && WellFormed(text, |hrp|)
  {
    var text := hrp + "1" + tail;
    assert text[|hrp|] == '1' && text[|hrp| + 1..] == tail;
    forall i | 0 <= i < |text|
      ensures Printable(text[i]) && !('A' <= text[i] <= 'Z') && (i > |hrp| ==> text[i] != '1')
    {
      if i < |hrp| {
        assert text[i] == hrp[i] && Printable(hrp[i]);
      } else if i > |hrp| {
        assert text[i] == tail[i - |hrp| - 1];
      }
    }
  }

  lemma LowerOfLower(s: string)
    requires !HasUpper(s)
    ensures Lower(s) == s
  {
  }

  /** Decoding an encoded text gives back a lower-case prefix and the symbols. */
  lemma DecodeAfterEncode(hrp: Text, values: seq<bv8>)
    requires AllPrintable(hrp) && !HasUpper(hrp) && 1 <= |hrp| <= 83 && Symbols(values) && |hrp| + |values| + 7 <= 140
    ensures Decoded(Encoded(hrp, values)) == Some((hrp, values))
  {
    var all := values + Checksum(Expand(hrp) + values);
    SumVerifies(hrp, values);
    ValuesOfChars(all);
    EncodedIsWellFormed(hrp, Chars(all));
    DecodedParts(hrp, Chars(all), all);
    assert all[..|all| - 6] == values;
  }

  lemma SumVerifies(hrp: Text, values: seq<bv8>)
    requires Symbols(values)
    ensures var all := values + Checksum(Expand(hrp) + values); Symbols(all) && Verifies(hrp, all)
  {
    var e := Expand(hrp) + values;
    ExpandRange(hrp);
    ChecksumVerifies(e);
    assert Expand(hrp) + (values + Checksum(e)) == e + Checksum(e);
  }

  lemma DecodedParts(hrp: Text, tail: string, all: seq<bv8>)
    requires var text := hrp + "1" + tail; LastOf(text, '1') == |hrp| && WellFormed(text, |hrp|)
    requires !HasUpper(hrp) && |tail| >= 6 && Values(tail) == all && Verifies(hrp, all)
    ensures Decoded(hrp + "1" + tail) == Some((hrp, all[..|all| - 6]))
  {
    var text := hrp + "1" + tail;
    assert text[..|hrp|] == hrp && text[|hrp| + 1..] == tail;
    LowerOfLower(hrp);
  }

  /** Only the right checksum verifies. */
  lemma VerifiedSum(hrp: Text, all: seq<bv8>)
    requires Symbols(all) && |all| >= 6 && Verifies(hrp, all)
    ensures var values := all[..|all| - 6]; all == values + Checksum(Expand(hrp) + values)
  {
    var values, sum := all[..|all| - 6], all[|all| - 6..];
    ExpandRange(hrp);
    assert all == values + sum && Expand(hrp) + all == (Expand(hrp) + values) + sum;
    ChecksumUnique(Expand(hrp) + values, sum);
  }

  /** Encoding a decoded text gives it back in lower case: its checksum is the only one that verifies. */
  lemma EncodeAfterDecode(text: string)
    requires Decoded(text).Some?
    ensures var (hrp, values) := Decoded(text).value;
      (forall i :: 0 <= i < |hrp| ==> hrp[i] as int < 256) && Encoded(hrp, values) == Lower(text)
  {
    var pos := LastOf(text, '1');
    var tail, hrp := text[pos + 1..], Lower(text[..pos]);
    LowerIsText(text[..pos]);
    CharsOfValues(tail);
    VerifiedSum(hrp, Values(tail));
    assert text == text[..pos] + "1" + tail;
    assert Lower(text) == hrp + "1" + Lower(tail);
  }

  lemma SampleExpand()
    ensures Expand("a") == [3, 0, 1]
  {
    assert Look(0);
    var e := Expand("a");
    assert HighBits(0x61) == 3 && LowBits(0x61) == 1;
    assert ('a' as int) as bv8 == 0x61;
    assert |e| == 3 && e[0] == Parts('a').0 && e[1] == 0 && e[2] == Parts('a').1;
  }

  lemma SampleValues()
    ensures InCharset("2uel5l") && Values("2uel5l") == [10, 28, 25, 31, 20, 31]
  {
    SymIs('2');
    SymIs('u');
    SymIs('e');
    SymIs('l');
    SymIs('5');
  }

  /** The shortest of the valid texts that the tests list. */
  lemma SampleDecodes()
    ensures Decoded("a12uel5l") == Some(("a", []))
  {
    SampleExpand();
    SampleValues();
    SampleFold();
    var hrp, tail, all: seq<bv8> := "a", "2uel5l", [10, 28, 25, 31, 20, 31];
    assert [3, 0, 1] + all == [3, 0, 1] + [10, 28, 25] + [31, 20, 31];
    EncodedIsWellFormed(hrp, tail);
    DecodedParts(hrp, tail, all);
    assert hrp + "1" + tail == "a12uel5l";
    assert all[..0] == [];
  }

  // ----- what the checksum detects -----

  /** Values that differ only within six neighbouring places. */
  ghost predicate InBurst<T>(s: seq<T>, t: seq<T>, i: nat) {
    |s| == |t| && forall j :: 0 <= j < |s| && !(i <= j < i + 6) ==> s[j] == t[j]
  }

  /** Any change within six neighbouring symbols of a valid list, data or checksum, makes verification fail. */
  lemma ChangedValuesFail(hrp: Text, v: seq<bv8>, w: seq<bv8>, i: nat)
    requires Verifies(hrp, v) && Symbols(v) && Symbols(w) && InBurst(v, w, i) && v != w && i <= |v|
    ensures !Verifies(hrp, w)
  {
    var e := Expand(hrp);
    ExpandRange(hrp);
    forall j | 0 <= j < |e + v| && !(|e| + i <= j < |e| + i + 6) ensures (e + v)[j] == (e + w)[j] {
      assert j >= |e| ==> v[j - |e|] == w[j - |e|];
    }
    assert (e + v)[|e|..] == v && (e + w)[|e|..] == w;
    BurstDetected(e + v, e + w, |e| + i);
  }

  /** Changed characters are changed symbols. */
  lemma ChangedTail(text: string, text': string, pos: nat, i: nat)
    requires InBurst(text, text', i) && Lower(text') != Lower(text) && pos < i && pos < |text|
    requires InCharset(text[pos + 1..]) && InCharset(text'[pos + 1..])
    ensures var v, w := Values(text[pos + 1..]), Values(text'[pos + 1..]); v != w && InBurst(v, w, i - pos - 1)
  {
    var v, w := Values(text[pos + 1..]), Values(text'[pos + 1..]);
    assert exists j :: 0 <= j < |text| && Lower(text)[j] != Lower(text')[j];
    var j :| 0 <= j < |text| && Lower(text)[j] != Lower(text')[j];
    var a, b := text[pos + 1..], text'[pos + 1..];
    assert a[j - pos - 1] == text[j] && b[j - pos - 1] == text'[j];
    ChrOfSym(text[j]);
    ChrOfSym(text'[j]);
    assert v[j - pos - 1] != w[j - pos - 1];
    forall k | 0 <= k < |v| && !(i - pos - 1 <= k < i - pos + 5) ensures v[k] == w[k] {
      assert a[k] == text[k + pos + 1] == text'[k + pos + 1] == b[k];
    }
  }

  /** Two texts that decode and agree up to their separators. */
  lemma BothVerify(text: string, text': string, pos: nat)
    requires Decoded(text).Some? && Decoded(text').Some? && pos == LastOf(text, '1') == LastOf(text', '1')
    requires text[..pos] == text'[..pos]
    ensures forall i :: 0 <= i < pos ==> Lower(text[..pos])[i] as int < 256
    ensures InCharset(text[pos + 1..]) && InCharset(text'[pos + 1..])
    ensures var hrp, v, w := Lower(text[..pos]), Values(text[pos + 1..]), Values(text'[pos + 1..]);
      Symbols(v) && Symbols(w) && Verifies(hrp, v) && Verifies(hrp, w)
  {
    LowerIsText(text[..pos]);
    CharsOfValues(text[pos + 1..]);
    CharsOfValues(text'[pos + 1..]);
  }

  /** A valid text in which up to six neighbouring characters after the separator are replaced, other than by one of
      the other case, is refused, as long as the separator stays the last one. */
  lemma ChangedTextRefused(text: string, text': string, i: nat)
    requires Decoded(text).Some? && InBurst(text, text', i) && Lower(text') != Lower(text)
    requires LastOf(text', '1') == LastOf(text, '1') < i <= |text|
    ensures Decoded(text') == None
  {
    var pos := LastOf(text, '1');
    if Decoded(text').Some? {
      assert text'[..pos] == text[..pos];
      BothVerify(text, text', pos);
      ChangedTail(text, text', pos, i);
      ChangedValuesFail(Lower(text[..pos]), Values(text[pos + 1..]), Values(text'[pos + 1..]), i - pos - 1);
    }
  }
}
