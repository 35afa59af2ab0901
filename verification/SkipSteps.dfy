/** How many steps the walk over skip pointers takes (src/chain.cpp, GetAncestor): within a chain of 2^l blocks at most,
    and for some walk exactly, a quarter of l^2 + 8 l - 28, rounded down. */
module SkipSteps {
  import opened Hiding
  import opened NatMath
  import opened Folded
  import opened SkipList

  // ----- the definitions of the walk, unfolded only on demand -----

  ghost predicate IsCleared(n: nat, r: nat) {
    forall i :: Look(i) ==> r == InvertLowestOne(n)
  }

  /** `InvertLowestOne`. */
  ghost function Cleared(n: nat): nat {
    assert IsCleared(n, InvertLowestOne(n));
    var r :| IsCleared(n, r);
    r
  }

  lemma ClearedIs(n: nat)
    ensures Cleared(n) == InvertLowestOne(n)
  {
    assert Look(0);
  }

  lemma ClearedZero()
    ensures Cleared(0) == 0
  {
    ClearedIs(0);
  }

  lemma LowestOne(n: nat) returns (q: nat, k: nat)
    requires n > 0
    ensures n == Times(2 * q + 1, Pow2(k)) && Cleared(n) == Times(2 * q, Pow2(k)) && Cleared(n) < n
  {
    ClearedIs(n);
    q, k := LowestOneInverted(n);
  }

  /** `SkipHeight`. */
  ghost function Skip(h: nat): nat {
    if h < 2 then 0 else if h % 2 == 1 then Cleared(Cleared(h - 1)) + 1 else Cleared(h)
  }

  lemma SkipIs(h: nat)
    ensures Skip(h) == SkipHeight(h)
  {
    if h >= 2 {
      ClearedIs(h);
      ClearedIs(h - 1);
      ClearedIs(Cleared(h - 1));
    }
  }

  ghost predicate IsNext(w: nat, t: nat, h: nat)
    requires t < w
  {
    forall i :: Look(i) ==> h == NextHeight(w, t)
  }

  /** `NextHeight`. */
  ghost function Next(w: nat, t: nat): (h: nat)
    requires t < w
    ensures t <= h < w
  {
    assert IsNext(w, t, NextHeight(w, t));
    var h: nat :| t <= h < w && IsNext(w, t, h);
    h
  }

  lemma NextIs(w: nat, t: nat)
    requires t < w
    ensures Next(w, t) == NextHeight(w, t)
  {
    assert Look(0);
  }

  lemma NextCases(w: nat, t: nat)
    requires t < w
    ensures Next(w, t)
            == if Skip(w) == t || (Skip(w) > t && !(Skip(w - 1) < Skip(w) - 2 && Skip(w - 1) >= t))
               then Skip(w) else w - 1
  {
    NextIs(w, t);
    SkipIs(w);
    SkipIs(w - 1);
  }

  ghost predicate IsWalk(w: nat, t: nat, n: nat)
    requires t <= w
  {
    forall i :: Look(i) ==> n == Steps(w, t)
  }

  /** `Steps`. */
  ghost function Walk(w: nat, t: nat): nat
    requires t <= w
  {
    assert IsWalk(w, t, Steps(w, t));
    var n :| IsWalk(w, t, n);
    n
  }

  lemma WalkIs(w: nat, t: nat)
    requires t <= w
    ensures Walk(w, t) == Steps(w, t)
  {
    assert Look(0);
  }

  lemma WalkNext(w: nat, t: nat)
    requires t <= w
    ensures w == t ==> Walk(w, t) == 0
    ensures t < w ==> Walk(w, t) == 1 + Walk(Next(w, t), t)
  {
    WalkIs(w, t);
    if t < w {
      NextIs(w, t);
      WalkIs(Next(w, t), t);
    }
  }

  // ----- clearing the lowest one -----

  lemma CancelFactor(x: nat, y: nat, a: nat)
    requires a > 0 && Times(x, a) == Times(y, a)
    ensures x == y
  {
    if x < y {
      TimesMono(x + 1, y, a);
      TimesDist(x, 1, a);
      TimesZero(a);
      assert false;
    }
    if y < x {
      TimesMono(y + 1, x, a);
      TimesDist(y, 1, a);
      TimesZero(a);
      assert false;
    }
  }

  /** The lowest one of a number is at one place only. */
  lemma LowestOneUnique(q: nat, k: nat, r: nat, m: nat)
    requires Times(2 * q + 1, Pow2(k)) == Times(2 * r + 1, Pow2(m)) && k <= m
    ensures k == m && q == r
  {
    Pow2Add(m - k, k);
    TimesAssoc(2 * r + 1, Pow2(m - k), Pow2(k));
    CancelFactor(2 * q + 1, Times(2 * r + 1, Pow2(m - k)), Pow2(k));
    if k < m {
      Pow2Step(m - k - 1);
      TimesDistRight(2 * r + 1, Pow2(m - k - 1), Pow2(m - k - 1));
      assert false;
    }
    Pow2Small();
    TimesZero(2 * r + 1);
  }

  lemma InvertAt(q: nat, k: nat)
    ensures Cleared(Times(2 * q + 1, Pow2(k))) == Times(2 * q, Pow2(k))
    ensures Times(2 * q + 1, Pow2(k)) == Times(2 * q, Pow2(k)) + Pow2(k)
  {
    var n := Times(2 * q + 1, Pow2(k));
    TimesDist(2 * q, 1, Pow2(k));
    TimesZero(Pow2(k));
    var r, m := LowestOne(n);
    if k <= m {
      LowestOneUnique(q, k, r, m);
    } else {
      LowestOneUnique(r, m, q, k);
    }
  }

  /** `y` is a multiple of 2^v. */
  ghost predicate Divides(v: nat, y: nat) {
    exists q: nat :: y == Times(q, Pow2(v))
  }

  lemma DividesLess(v: nat, u: nat, y: nat)
    requires u <= v && Divides(v, y)
    ensures Divides(u, y)
  {
    var q: nat :| y == Times(q, Pow2(v));
    Pow2Add(v - u, u);
    TimesAssoc(q, Pow2(v - u), Pow2(u));
    assert y == Times(Times(q, Pow2(v - u)), Pow2(u));
  }

  lemma DividesMinus(v: nat, y: nat)
    requires Divides(v, y) && y > 0
    ensures y >= Pow2(v) && Divides(v, y - Pow2(v))
  {
    var q: nat :| y == Times(q, Pow2(v));
    TimesZero(Pow2(v));
    TimesDist(q - 1, 1, Pow2(v));
    assert y - Pow2(v) == Times(q - 1, Pow2(v));
  }

  /** Below a multiple of 2^(a + 1), the number 2^a lower has its lowest one there. */
  lemma InvertBelow(y: nat, a: nat)
    requires Divides(a + 1, y) && y > 0
    ensures y >= Pow2(a + 1) == Pow2(a) + Pow2(a) && Cleared(y - Pow2(a)) == y - Pow2(a + 1)
  {
    var q: nat :| y == Times(q, Pow2(a + 1));
    DividesMinus(a + 1, y);
    Pow2Step(a);
    TimesZero(Pow2(a + 1));
    TimesDist(q - 1, 1, Pow2(a + 1));
    TimesDistRight(q - 1, Pow2(a), Pow2(a));
    TimesDist(q - 1, q - 1, Pow2(a));
    InvertAt(q - 1, a);
  }

  /** Clearing the lowest one of a multiple of 2^v takes away at least 2^v and leaves a multiple of 2^(v + 1). */
  lemma InvertMultiple(y: nat, v: nat)
    requires Divides(v, y) && y > 0
    ensures Cleared(y) + Pow2(v) <= y && Divides(v + 1, Cleared(y))
  {
    var q: nat :| y == Times(q, Pow2(v));
    TimesZero(Pow2(v));
    var r, m := LowestOne(q);
    Pow2Add(m, v);
    TimesAssoc(2 * r + 1, Pow2(m), Pow2(v));
    InvertAt(r, m + v);
    Pow2Mono(v, m + v);
    Pow2Step(m + v);
    TimesDist(r, r, Pow2(m + v));
    TimesDistRight(r, Pow2(m + v), Pow2(m + v));
    assert Cleared(y) == Times(r, Pow2(m + v + 1));
    DividesLess(m + v + 1, v + 1, Cleared(y));
  }

  lemma DividesEven(v: nat, y: nat)
    requires v >= 1 && Divides(v, y)
    ensures y % 2 == 0
  {
    DividesLess(v, 1, y);
    var q: nat :| y == Times(q, Pow2(1));
    Pow2Small();
    TimesIs(q, 2);
  }

  lemma InvertAtMost(c: nat)
    ensures Cleared(c) <= c
  {
    ClearedZero();
    if c > 0 {
      var _, _ := LowestOne(c);
    }
  }

  lemma EvenDivides(y: nat)
    requires y % 2 == 0
    ensures Divides(1, y)
  {
    Pow2Small();
    TimesIs(y / 2, 2);
    assert y == Times(y / 2, Pow2(1));
  }

  // ----- single steps -----

  /** From an odd height the walk skips whenever that does not go too far. */
  lemma OddStep(x: nat, t: nat)
    requires x % 2 == 1 && x >= 3 && t < x
    ensures var s := Cleared(Cleared(x - 1)) + 1;
            Skip(x) == s && Next(x, t) == if s >= t then s else x - 1
  {
    var m := Cleared(x - 1);
    NextCases(x, t);
    InvertAtMost(m);
  }

  /** So it does from a multiple of eight. */
  lemma EvenStep(y: nat, t: nat)
    requires Divides(3, y) && t < y
    ensures Next(y, t) == if Cleared(y) >= t then Cleared(y) else y - 1
  {
    DividesEven(3, y);
    InvertMultiple(y, 3);
    DividesLess(3, 2, y);
    InvertBelow(y, 2);
    InvertBelow(y, 1);
    Pow2Step(0);
    Pow2Step(1);
    Pow2Step(2);
    assert Skip(y - 1) == y - 7;
    NextCases(y, t);
  }

  // ----- climbing -----

  /** The odd height below `y` from which the walk skips in steps of growing size. */
  lemma ClimbStep(y: nat, t: nat, a: nat)
    requires a >= 1 && Divides(a + 2, y) && y > 0 && y >= Pow2(a + 2) && t <= y - Pow2(a + 2) + 1
    ensures y - Pow2(a) + 1 > t && Walk(y - Pow2(a) + 1, t) == 1 + Walk(y - Pow2(a + 2) + 1, t)
  {
    Pow2Step(a);
    Pow2Step(a + 1);
    DividesLess(a + 2, a + 1, y);
    InvertBelow(y, a);
    InvertBelow(y, a + 1);
    DividesLess(a + 2, 1, y);
    DividesEven(1, y);
    Pow2Step(a - 1);
    OddStep(y - Pow2(a) + 1, t);
    WalkNext(y - Pow2(a) + 1, t);
  }

  /** `i` skips lead from `y - 1` to just above `y - 2^(2 i + 1)`. */
  lemma {:induction false} Climb(y: nat, t: nat, v: nat, i: nat)
    requires Divides(v, y) && 2 * i + 1 <= v && y >= Pow2(2 * i + 1) && t <= y - Pow2(2 * i + 1) + 1
    ensures y >= 1 && t <= y - 1
    ensures Walk(y - 1, t) == i + Walk(y - Pow2(2 * i + 1) + 1, t)
  {
    Pow2Small();
    if i > 0 {
      var a := 2 * i - 1;
      assert Pow2(a + 2) == 4 * Pow2(a) by {
        Pow2Step(a);
        Pow2Step(a + 1);
      }
      assert a == 2 * (i - 1) + 1 && a + 2 == 2 * i + 1;
      Climb(y, t, v, i - 1);
      assert Walk(y - Pow2(a) + 1, t) == 1 + Walk(y - Pow2(a + 2) + 1, t) by {
        DividesLess(v, a + 2, y);
        ClimbStep(y, t, a);
      }
    }
  }

  // ----- the bound near the goal -----

  /** Four times the number of steps for a distance of `l` binary digits. */
  ghost function Quad(l: nat): int { Times(l, l) + 6 * l - 7 }

  lemma QuadStep(l: nat)
    ensures Quad(l + 1) == Quad(l) + 2 * l + 7
  {
    TimesDist(l, 1, l + 1);
    TimesDistRight(l, l, 1);
    TimesZero(l);
    TimesZero(l + 1);
  }

  lemma {:induction false} QuadMono(l: nat, m: nat)
    requires l <= m
    ensures Quad(l) <= Quad(m)
  {
    if l < m {
      QuadMono(l, m - 1);
      QuadStep(m - 1);
    }
  }

  lemma {:induction false} QuadEven(h: nat)
    ensures Quad(2 * h) % 4 == 1
  {
    if h == 0 {
      TimesZero(0);
    } else {
      QuadEven(h - 1);
      QuadStep(2 * h - 2);
      QuadStep(2 * h - 1);
    }
  }

  lemma QuadThree(l: nat)
    requires 3 <= l
    ensures 20 <= Quad(l) && (4 <= l ==> 33 <= Quad(l))
  {
    TimesIs(3, 3);
    QuadStep(3);
    QuadMono(3, l);
    if 4 <= l {
      QuadMono(4, l);
    }
  }

  lemma {:induction false} StepsAtMost(w: nat, t: nat)
    requires t <= w
    ensures Walk(w, t) <= w - t
    decreases w
  {
    WalkNext(w, t);
    if t < w {
      StepsAtMost(Next(w, t), t);
    }
  }

  /** The odd power of two below a number. */
  lemma {:induction false} OddLog(d: nat) returns (u: nat)
    requires d >= 8
    ensures u >= 3 && u % 2 == 1 && Pow2(u) <= d < Pow2(u + 2)
  {
    Pow2Step(0);
    Pow2Step(1);
    Pow2Step(2);
    Pow2Step(3);
    Pow2Step(4);
    if d < 32 {
      u := 3;
    } else {
      u := OddLog(d / 4);
      Pow2Step(u);
      Pow2Step(u + 1);
      Pow2Step(u + 2);
      Pow2Step(u + 3);
      u := u + 2;
    }
  }

  /** After the climb the next skip would go too far, unless it leads exactly to the goal. */
  lemma Landing(y: nat, t: nat, v: nat, u: nat)
    requires Divides(v, y) && t <= y && y - t < Pow2(v) && 3 <= u < v
    requires Pow2(u) < y - t + 1 < Pow2(u + 2)
    ensures y >= Pow2(u) && t < y - Pow2(u) + 1
    ensures var x := y - Pow2(u) + 1; Next(x, t) == x - 1 || (Next(x, t) == t && t % 2 == 1)
  {
    var x := y - Pow2(u) + 1;
    Pow2Step(u);
    Pow2Step(u + 1);
    Pow2Step(u - 1);
    DividesLess(v, u + 1, y);
    InvertBelow(y, u);
    DividesLess(v, 1, y);
    DividesEven(1, y);
    OddStep(x, t);
    var m := y - Pow2(u + 1);
    DividesMinus(u + 1, y);
    if m > 0 {
      InvertMultiple(m, u + 1);
      DividesEven(u + 2, Cleared(m));
    } else {
      ClearedZero();
      DividesMinus(v, y);
    }
  }

  lemma Phase(y: nat, t: nat, v: nat, u: nat)
    requires Divides(v, y) && t <= y && 7 <= y - t < Pow2(v)
    requires u >= 3 && u % 2 == 1 && Pow2(u) <= y - t + 1 < Pow2(u + 2)
    ensures y - t + 1 == Pow2(u) ==> Walk(y, t) == (u + 1) / 2
    ensures y - t + 1 > Pow2(u) ==> u < v && t <= y - Pow2(u)
    ensures y - t + 1 > Pow2(u) ==>
              || (Walk(y, t) == (u + 3) / 2 && t % 2 == 1)
              || Walk(y, t) == (u + 3) / 2 + Walk(y - Pow2(u), t)
  {
    if u > v {
      Pow2Mono(v + 1, u);
      Pow2Step(v);
      assert false;
    }
    var i, x := u / 2, y - Pow2(u) + 1;
    DividesLess(v, 3, y);
    InvertMultiple(y, v);
    EvenStep(y, t);
    WalkNext(y, t);
    Climb(y, t, v, i);
    WalkNext(x, t);
    if x > t {
      Landing(y, t, v, u);
      WalkNext(Next(x, t), t);
    }
  }

  lemma BelowEight(y: nat)
    requires Divides(3, y) && y > 0
    ensures y >= 8 && y % 2 == 0 && Cleared(y) <= y - 8
    ensures Cleared(y - 2) == y - 4 && Cleared(y - 4) == y - 8
    ensures y > 8 ==> Cleared(y - 8) <= y - 16
  {
    DividesEven(3, y);
    DividesMinus(3, y);
    DividesLess(3, 2, y);
    InvertBelow(y, 2);
    InvertBelow(y, 1);
    InvertMultiple(y, 3);
    Pow2Small();
    Pow2Step(1);
    Pow2Step(2);
    if y > 8 {
      InvertMultiple(y - 8, 3);
    }
  }

  /** The skip pointers below a multiple of eight. */
  lemma SkipsBelow(y: nat)
    requires Divides(3, y) && y > 0
    ensures y >= 8 && Skip(y) <= y - 8 && Skip(y - 1) == y - 7
    ensures Skip(y - 2) == y - 4 && Skip(y - 3) <= y - 7 && Skip(y - 4) == y - 8
  {
    BelowEight(y);
    ClearedZero();
  }

  /** Six blocks below a multiple of eight. */
  lemma SixBack(y: nat)
    requires Divides(3, y) && y > 0
    ensures y >= 8 && Walk(y, y - 6) == 5
  {
    SkipsBelow(y);
    var t := y - 6;
    WalkNext(y, t);
    WalkNext(y - 1, t);
    WalkNext(y - 2, t);
    WalkNext(y - 4, t);
    WalkNext(y - 5, t);
    WalkNext(t, t);
    NextCases(y, t);
    NextCases(y - 1, t);
    NextCases(y - 2, t);
    NextCases(y - 4, t);
  }

  /** Close to a multiple of a power of two: each phase costs half as many steps as the distance has digits, and takes
      at least one digit away. */
  lemma {:induction false} NearBound(y: nat, t: nat, v: nat, l: nat)
    requires Divides(v, y) && t <= y && y - t < Pow2(v) && 3 <= l && y - t < Pow2(l)
    ensures 4 * Walk(y, t) <= Quad(l)
    decreases y
  {
    var d := y - t;
    QuadThree(l);
    if d < 6 {
      StepsAtMost(y, t);
    } else if d == 6 {
      EightOrMore(v);
      DividesLess(v, 3, y);
      SixBack(y);
    } else {
      var u := OddLog(d + 1);
      if u > l {
        Pow2Mono(l + 1, u);
        Pow2Step(l);
        assert false;
      }
      Phase(y, t, v, u);
      QuadMono(u, l);
      QuadAbove(u);
      if d + 1 > Pow2(u) {
        NearStep(y, t, v, u, l);
      }
    }
  }

  lemma EightOrMore(v: nat)
    requires Pow2(v) > 6
    ensures v >= 3
  {
    Pow2Step(0);
    Pow2Step(1);
    if v < 3 {
      Pow2Mono(v, 2);
    }
  }

  lemma {:induction false} QuadAbove(u: nat)
    requires 3 <= u
    ensures 2 * u + 6 <= Quad(u)
  {
    if u == 3 {
      QuadThree(3);
    } else {
      QuadAbove(u - 1);
      QuadStep(u - 1);
    }
  }

  lemma EvenRound(u: nat, n: nat)
    requires u % 2 == 1 && 4 * n <= Quad(u + 1)
    ensures 4 * n + 2 * u + 10 <= Quad(u + 2)
  {
    QuadEven((u + 1) / 2);
    QuadStep(u + 1);
  }

  lemma NearStep(y: nat, t: nat, v: nat, u: nat, l: nat)
    requires Divides(v, y) && t <= y && y - t < Pow2(v) && 3 <= u < v && y - t < Pow2(l) && u <= l && u % 2 == 1
    requires Pow2(u) < y - t + 1 < Pow2(u + 2) && t <= y - Pow2(u)
    requires Walk(y, t) == (u + 3) / 2 || Walk(y, t) == (u + 3) / 2 + Walk(y - Pow2(u), t)
    ensures 4 * Walk(y, t) <= Quad(l)
    decreases y, 0
  {
    if u == l {
      assert false;
    }
    QuadStep(u);
    QuadAbove(u);
    QuadMono(u + 1, l);
    Pow2Step(u);
    if y - t < Pow2(u + 1) {
      DividesLess(v, u, y);
      DividesMinus(u, y);
      NearBound(y - Pow2(u), t, u, u);
    } else {
      if u + 1 == l {
        assert false;
      }
      QuadMono(u + 2, l);
      SecondSkip(y, t, v, u);
      NearBound(y - Pow2(u + 1), t, u + 1, u + 1);
      EvenRound(u, Walk(y - Pow2(u + 1), t));
    }
  }

  /** If the distance is still large, one more skip makes it smaller than the next power of two. */
  lemma SecondSkip(y: nat, t: nat, v: nat, u: nat)
    requires Divides(v, y) && 3 <= u < v && t <= y && Pow2(u + 1) <= y - t && y - t + 1 < Pow2(u + 2)
    ensures t <= y - Pow2(u + 1) <= y - Pow2(u) && Divides(u + 1, y - Pow2(u + 1))
    ensures y - Pow2(u + 1) - t < Pow2(u + 1)
    ensures Walk(y - Pow2(u), t) == 1 + Walk(y - Pow2(u + 1), t)
  {
    Pow2Step(u);
    Pow2Step(u + 1);
    DividesLess(v, u + 1, y);
    DividesLess(v, u, y);
    DividesMinus(u, y);
    DividesMinus(u + 1, y);
    InvertBelow(y, u);
    DividesLess(u, 3, y - Pow2(u));
    EvenStep(y - Pow2(u), t);
    WalkNext(y - Pow2(u), t);
  }

  // ----- the way there -----

  /** From an even height where two skips would go too far, at most one skip is taken before the goal is near. */
  lemma FinalEven(z: nat, t: nat, k: nat, l: nat)
    requires 0 < z < Pow2(l) && z % 2 == 0 && t <= z && 4 <= l && Cleared(Cleared(z)) + 1 < t
    requires Divides(k, z)
    ensures 4 * Walk(z, t) <= Quad(l - 1) + 4
    ensures k + 1 >= l ==> 4 * Walk(z, t) <= Quad(l - 1)
  {
    var q, j := LowestOne(z);
    InvertAt(q, j);
    assert Divides(j, z);
    var b := Cleared(z);
    if b < t {
      NearHigh(z, t, j, l);
    } else {
      WalkNext(z, t);
      if t < z {
        SingleSkip(z, t, q, j);
      }
      var r, i := LowestOne(b);
      InvertAt(r, i);
      assert Divides(i, b);
      NearHigh(b, t, i, l);
      InvertDivides(z, k);
      DividesMinus(k + 1, b);
      BelowPower(k + 1, b, l);
    }
  }

  lemma NearHigh(y: nat, t: nat, v: nat, l: nat)
    requires Divides(v, y) && 0 < y < Pow2(l) && t <= y && y - t < Pow2(v) && 4 <= l
    ensures 4 * Walk(y, t) <= Quad(l - 1)
  {
    DividesMinus(v, y);
    BelowPower(v, y, l);
    Pow2Mono(v, l - 1);
    NearBound(y, t, v, l - 1);
  }

  lemma SingleSkip(z: nat, t: nat, q: nat, k: nat)
    requires z > 0 && z % 2 == 0 && z == Times(2 * q + 1, Pow2(k)) && t < z
    requires Cleared(z) >= t > Cleared(Cleared(z)) + 1
    ensures Next(z, t) == Cleared(z)
  {
    var b := Cleared(z);
    InvertAt(q, k);
    assert Divides(k, z);
    Pow2Small();
    Pow2Step(1);
    TimesZero(2 * q + 1);
    NextCases(z, t);
    if k == 0 {
      assert false;
    } else if k == 1 {
      var c := Cleared(b);
      InvertAtMost(c);
      assert Skip(z - 1) == Cleared(c) + 1;
    } else if k == 2 {
      InvertBelow(z, 1);
      assert Skip(z - 1) == Cleared(b) + 1;
    } else {
      DividesLess(k, 3, z);
      EvenStep(z, t);
    }
  }

  lemma InvertDivides(y: nat, v: nat)
    requires Divides(v, y)
    ensures Divides(v + 1, Cleared(y))
  {
    if y > 0 {
      InvertMultiple(y, v);
    } else {
      ClearedZero();
      TimesZero(Pow2(v + 1));
    }
  }

  /** From an odd height each skip clears two ones. */
  lemma {:induction false} OddBound(x: nat, t: nat, k: nat, l: nat)
    requires x % 2 == 1 && t <= x < Pow2(l) && Divides(k, x - 1) && 4 <= l && k <= l
    ensures 4 * Walk(x, t) <= Quad(l - 1) + 2 * (l - k) + 4
    decreases x
  {
    QuadThree(l - 1);
    if x <= 2 || x == t {
      StepsAtMost(x, t);
    } else {
      var m := Cleared(x - 1);
      var s := Cleared(m) + 1;
      OddStep(x, t);
      WalkNext(x, t);
      if s >= t {
        InvertDivides(x - 1, k);
        InvertDivides(m, k + 1);
        if s == 1 {
          StepsAtMost(1, t);
        } else {
          DividesMinus(k + 2, s - 1);
          BelowPower(k + 2, s - 1, l);
          DividesEven(k + 2, s - 1);
          OddBound(s, t, k + 2, l);
        }
      } else {
        FinalEven(x - 1, t, k, l);
      }
    }
  }

  lemma BelowPower(k: nat, y: nat, l: nat)
    requires Pow2(k) <= y < Pow2(l)
    ensures k < l
  {
    if l <= k {
      Pow2Mono(l, k);
    }
  }

  /** From a multiple of eight each skip clears one. */
  lemma {:induction false} EvenBound(y: nat, t: nat, k: nat, l: nat)
    requires 0 < y < Pow2(l) && t <= y && Divides(k, y) && 3 <= k && 4 <= l
    ensures k < l && 4 * Walk(y, t) <= Quad(l - 1) + 4 * (l - 1 - k)
    decreases y
  {
    DividesMinus(k, y);
    BelowPower(k, y, l);
    QuadThree(l - 1);
    var q, kk := LowestOne(y);
    InvertAt(q, kk);
    assert Divides(kk, y);
    var b := Cleared(y);
    if b < t {
      NearHigh(y, t, kk, l);
    } else if t < y {
      DividesLess(k, 3, y);
      EvenStep(y, t);
      WalkNext(y, t);
      if b == 0 {
        StepsAtMost(0, t);
      } else {
        InvertDivides(y, k);
        EvenBound(b, t, k + 1, l);
      }
    }
  }

  /** From any other even height the walk changes to odd heights, or the goal is near. */
  lemma LowBound(y: nat, t: nat, l: nat)
    requires 0 < y < Pow2(l) && t <= y && y % 2 == 0 && !Divides(3, y) && 4 <= l
    ensures 4 * Walk(y, t) <= Quad(l - 1) + 2 * l + 4
  {
    QuadThree(l - 1);
    var q, k := LowestOne(y);
    InvertAt(q, k);
    assert Divides(k, y);
    var b := Cleared(y);
    if b < t {
      NearHigh(y, t, k, l);
    } else if t < y {
      if Next(y, t) == b {
        StraightOn(y, t, q, k, l);
      } else {
        ChangeToOdd(y, t, q, k, l);
      }
    }
  }

  lemma StraightOn(y: nat, t: nat, q: nat, k: nat, l: nat)
    requires 0 < y < Pow2(l) && y == Times(2 * q + 1, Pow2(k)) && y % 2 == 0 && !Divides(3, y) && 4 <= l && t < y
    requires t <= Cleared(y) == Next(y, t)
    ensures 4 * Walk(y, t) <= Quad(l - 1) + 8
  {
    var b := Cleared(y);
    QuadThree(l - 1);
    WalkNext(y, t);
    WalkNext(b, t);
    if t < b {
      FarSkip(y, t, q, k);
      InvertDivides(y, k);
      DividesEven(k + 1, b);
      FinalEven(b, t, k + 1, l);
    }
  }

  /** The walk skips to `b` only if the skip from the block before would go too far. */
  lemma TooFar(y: nat, t: nat, b: nat)
    requires y % 2 == 0 && y >= 4 && Cleared(y) == b && t < b < y - 1 && Next(y, t) == b
    requires Cleared(Cleared(y - 2)) + 4 <= b
    ensures Cleared(Cleared(y - 2)) + 1 < t
  {
    NextCases(y, t);
  }

  /** So from such a height it skips only if the next two skips would go too far. */
  lemma FarSkip(y: nat, t: nat, q: nat, k: nat)
    requires y > 0 && y % 2 == 0 && y == Times(2 * q + 1, Pow2(k)) && !Divides(3, y)
    requires t < y && t < Cleared(y) == Next(y, t)
    ensures Cleared(Cleared(Cleared(y))) + 1 < t
  {
    var b := Cleared(y);
    InvertAt(q, k);
    assert Divides(k, y);
    Pow2Small();
    Pow2Step(1);
    Pow2Step(2);
    TimesZero(2 * q + 1);
    InvertDivides(y, k);
    InvertMultiple(b, k + 1);
    InvertAtMost(Cleared(b));
    if k == 0 {
      assert false;
    } else if k == 1 {
      TooFar(y, t, b);
    } else if k == 2 {
      InvertBelow(y, 1);
      TooFar(y, t, b);
    } else {
      DividesLess(k, 3, y);
      assert false;
    }
  }

  lemma ChangeToOdd(y: nat, t: nat, q: nat, k: nat, l: nat)
    requires 0 < y < Pow2(l) && y == Times(2 * q + 1, Pow2(k)) && y % 2 == 0 && 4 <= l && t < y
    requires t <= Cleared(y) && Next(y, t) != Cleared(y)
    ensures 4 * Walk(y, t) <= Quad(l - 1) + 2 * l + 4
  {
    QuadThree(l - 1);
    var s := Skip(y - 1);
    EvenDivides(y);
    InvertMultiple(y, 1);
    Pow2Small();
    NextCases(y, t);
    OddStep(y - 1, t);
    ChangedDivides(y, t, q, k);
    WalkNext(y, t);
    WalkNext(y - 1, t);
    if s == 1 {
      StepsAtMost(1, t);
    } else {
      DividesMinus(4, s - 1);
      BelowPower(4, s - 1, l);
      DividesEven(4, s - 1);
      OddBound(s, t, 4, l);
    }
  }

  /** The walk changes only from a height with its lowest one at place one or two, to one with it at four or more. */
  lemma ChangedDivides(y: nat, t: nat, q: nat, kk: nat)
    requires y > 0 && y % 2 == 0 && y == Times(2 * q + 1, Pow2(kk)) && t < y
    requires t <= Cleared(y) && Next(y, t) != Cleared(y)
    ensures kk <= 2 && Skip(y - 1) >= 1 && Divides(4, Skip(y - 1) - 1)
  {
    InvertAt(q, kk);
    assert Divides(kk, y);
    Pow2Small();
    Pow2Step(1);
    TimesZero(2 * q + 1);
    var b := Cleared(y);
    NextCases(y, t);
    ClearedZero();
    if kk == 0 {
      assert false;
    } else if kk == 1 {
      InvertDivides(y, 1);
      InvertDivides(b, 2);
      InvertDivides(Cleared(b), 3);
    } else if kk == 2 {
      InvertBelow(y, 1);
      InvertDivides(y, 2);
      InvertDivides(b, 3);
    } else {
      DividesLess(kk, 3, y);
      EvenStep(y, t);
      assert false;
    }
  }

  // ----- the longest walk -----

  lemma PowerDivides(m: nat)
    ensures Divides(m, Pow2(m))
  {
    TimesZero(Pow2(m));
    assert Pow2(m) == Times(1, Pow2(m));
  }

  lemma WorstEven(m: nat, t: nat)
    requires 4 <= m && m % 2 == 0 && t == 2 && Pow2(m) == 2 * Pow2(m - 1) >= 16
    ensures Walk(Pow2(m), t) == (m + 2) / 2 + Walk(Pow2(m - 1), t)
  {
    PowerDivides(m);
    Pow2Step(m);
    Phase(Pow2(m), t, m, m - 1);
  }

  lemma WorstOdd(m: nat, t: nat)
    requires 5 <= m && m % 2 == 1 && t == 2 && Pow2(m) == 2 * Pow2(m - 1) >= 16
    ensures Walk(Pow2(m), t) == (m + 3) / 2 + Walk(Pow2(m - 1), t)
  {
    PowerDivides(m);
    Pow2Step(m - 2);
    Phase(Pow2(m), t, m, m - 2);
    SecondSkip(Pow2(m), t, m, m - 2);
  }

  lemma WorstThree(t: nat)
    requires t == 2
    ensures Pow2(3) == 8 && 4 * Walk(Pow2(3), t) == Quad(3)
  {
    Pow2Small();
    Pow2Step(1);
    Pow2Step(2);
    PowerDivides(3);
    SixBack(Pow2(3));
    TimesIs(3, 3);
  }

  /** From 2^m down to height two. */
  lemma {:induction false} WorstNear(m: nat, t: nat)
    requires 3 <= m && t == 2
    ensures Pow2(m) >= 8 && 4 * Walk(Pow2(m), t) == Quad(m) - (if m % 2 == 0 then 1 else 0)
  {
    if m == 3 {
      WorstThree(t);
    } else {
      WorstNear(m - 1, t);
      Pow2Step(m - 1);
      QuadStep(m - 1);
      if m % 2 == 0 {
        WorstEven(m, t);
      } else {
        WorstOdd(m, t);
      }
    }
  }

  lemma {:induction false} WorstFar(l: nat, k: nat)
    requires 3 <= k < l
    ensures 2 <= Pow2(k) <= Pow2(l) - 2 && Pow2(l - 1) >= 8
    ensures Walk(Pow2(l) - Pow2(k), 2) == l - 1 - k + Walk(Pow2(l - 1), 2)
    decreases l - k
  {
    Pow2Step(0);
    Pow2Step(1);
    Pow2Step(2);
    Pow2Mono(3, k);
    Pow2Step(l - 1);
    Pow2Mono(k, l - 1);
    if k < l - 1 {
      WorstFar(l, k + 1);
      PowerDivides(l);
      DividesLess(l, k + 1, Pow2(l));
      InvertBelow(Pow2(l), k);
      DividesLess(l, k, Pow2(l));
      DividesMinus(k, Pow2(l));
      DividesLess(k, 3, Pow2(l) - Pow2(k));
      EvenStep(Pow2(l) - Pow2(k), 2);
      WalkNext(Pow2(l) - Pow2(k), 2);
    }
  }

  // ----- main result -----

  lemma WalkCases(w: nat, t: nat, l: nat)
    requires t <= w < Pow2(l) && 10 <= l
    ensures 4 * Walk(w, t) <= Quad(l - 1) + 4 * (l - 4)
  {
    QuadThree(l - 1);
    if w == 0 {
      StepsAtMost(w, t);
    } else if w % 2 == 1 {
      EvenDivides(w - 1);
      OddBound(w, t, 1, l);
    } else if Divides(3, w) {
      EvenBound(w, t, 3, l);
    } else {
      LowBound(w, t, l);
    }
  }

  /** A walk within a chain of fewer than 2^l blocks takes at most (l^2 + 8 l - 28) / 4 steps. */
  lemma WalkBound(w: nat, t: nat, l: nat)
    requires t <= w < Pow2(l) && 10 <= l
    ensures Steps(w, t) <= (l * l + 8 * l - 28) / 4
  {
    WalkIs(w, t);
    WalkCases(w, t, l);
    QuadStep(l - 1);
    TimesIs(l, l);
  }

  /** The bound is attained, for every l. */
  lemma WorstWalk(l: nat)
    requires 10 <= l
    ensures 10 <= Pow2(l) && Steps(Pow2(l) - 8, 2) == (l * l + 8 * l - 28) / 4
  {
    TimesIs(l, l);
    Pow2Small();
    Pow2Step(1);
    Pow2Step(2);
    WorstFar(l, 3);
    WalkIs(Pow2(l) - 8, 2);
    WorstNear(l - 1, 2);
    QuadStep(l - 1);
    if l % 2 == 1 {
      QuadEven((l - 1) / 2);
    } else {
      QuadEven(l / 2);
    }
  }

  /** From any block of the first 2^18 to any of its ancestors: at most 110 steps. */
  lemma WalkBound18(w: nat, t: nat)
    requires t <= w < 0x4_0000
    ensures Steps(w, t) <= 110
  {
    Pow2Small();
    Pow2Step(16);
    Pow2Step(17);
    WalkBound(w, t, 18);
  }

  /** And the last one but seven takes that many to height two. */
  lemma WorstWalk18()
    ensures Steps(0x4_0000 - 8, 2) == 110
  {
    Pow2Small();
    Pow2Step(16);
    Pow2Step(17);
    WorstWalk(18);
  }
}
