/** Facts about multiplication, division and powers that the other modules share. */
module NatMath {

  lemma Distribute(x: int, y: int, z: int)
    ensures (x + y) * z == x * z + y * z
  {
  }

  lemma MulMono(x: int, y: int, z: int)
    requires x <= y && 0 <= z
    ensures x * z <= y * z
  {
    assert (y - x) * z >= 0;
    assert y * z == x * z + (y - x) * z;
  }

  /** Quotient and remainder are the only such pair. */
  lemma DivModUnique(a: int, b: int, q: int, r: int)
    requires b > 0 && a == q * b + r && 0 <= r < b
    ensures a / b == q && a % b == r
  {
    var q', r' := a / b, a % b;
    assert a == q' * b + r';
    assert (q - q') * b == r' - r by {
      assert (q - q') * b == q * b - q' * b;
    }
    if q - q' >= 1 {
      MulMono(1, q - q', b);
      assert false;
    } else if q - q' <= -1 {
      MulMono(q - q', -1, b);
      assert false;
    }
  }

  lemma DivNonNeg(a: nat, b: nat)
    requires b > 0
    ensures a / b >= 0 && a == (a / b) * b + a % b
  {
    var q := a / b;
    assert a == q * b + a % b;
    if q < 0 {
      MulMono(q, -1, b);
      assert false;
    }
  }

  lemma DivLe(a: nat, b: nat)
    requires b > 0
    ensures a / b <= a
  {
    var q := a / b;
    assert a == q * b + a % b;
    MulMono(1, b, q);
  }

  function Pow(b: nat, n: nat): (r: nat)
    ensures b > 0 ==> r > 0
  {
    if n == 0 then 1 else b * Pow(b, n - 1)
  }

  lemma PowPos(b: nat, n: nat)
    requires b > 0
    ensures Pow(b, n) > 0
  {
  }

  lemma {:induction false} PowAdd(b: nat, m: nat, n: nat)
    ensures Pow(b, m + n) == Pow(b, m) * Pow(b, n)
  {
    if m > 0 {
      PowAdd(b, m - 1, n);
      assert b * (Pow(b, m - 1) * Pow(b, n)) == (b * Pow(b, m - 1)) * Pow(b, n);
    }
  }

  lemma {:induction false} PowMono(b: nat, m: nat, n: nat)
    requires b > 0 && m <= n
    ensures Pow(b, m) <= Pow(b, n)
  {
    PowAdd(b, m, n - m);
    PowPos(b, n - m);
    PowPos(b, m);
    MulMono(1, Pow(b, n - m), Pow(b, m));
  }
}
