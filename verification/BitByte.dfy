/** Single bits of a byte, as they are packed eight to a byte, least significant bit first. */
module BitByte {

  function Mask(k: nat): bv8
    requires k < 8
  {
    (1 as bv8) << k
  }

  predicate BitAt(b: bv8, k: nat)
    requires k < 8
  {
    b & Mask(k) != 0
  }

  lemma MaskTable(k: nat)
    requires k < 8
    ensures Mask(k) == [1 as bv8, 2, 4, 8, 16, 32, 64, 128][k]
  {
    if k == 0 { assert (1 as bv8) << 0 == 1; }
    else if k == 1 { assert (1 as bv8) << 1 == 2; }
    else if k == 2 { assert (1 as bv8) << 2 == 4; }
    else if k == 3 { assert (1 as bv8) << 3 == 8; }
    else if k == 4 { assert (1 as bv8) << 4 == 16; }
    else if k == 5 { assert (1 as bv8) << 5 == 32; }
    else if k == 6 { assert (1 as bv8) << 6 == 64; }
    else { assert (1 as bv8) << 7 == 128; }
  }

  lemma MasksDisjoint(k: nat, j: nat)
    requires k < 8 && j < 8
    ensures Mask(k) != 0 && (k != j ==> Mask(k) & Mask(j) == 0)
  {
    MaskTable(k);
    MaskTable(j);
  }

  lemma SetBit(b: bv8, k: nat, j: nat)
    requires k < 8 && j < 8
    ensures BitAt(b | Mask(k), j) <==> j == k || BitAt(b, j)
  {
    MasksDisjoint(k, j);
    OrAnd(b, Mask(k), Mask(j));
  }

  lemma OrAnd(b: bv8, x: bv8, y: bv8)
    ensures (b | x) & y == (b & y) | (x & y)
    ensures x & y == 0 ==> (b | x) & y == b & y && (b & !x) & y == b & y
    ensures y != 0 ==> (b | y) & y != 0
    ensures (b & !y) & y == 0
  {
  }

  lemma ClearBit(b: bv8, k: nat, j: nat)
    requires k < 8 && j < 8
    ensures BitAt(b & !Mask(k), j) <==> j != k && BitAt(b, j)
  {
    MasksDisjoint(k, j);
    OrAnd(b, Mask(k), Mask(j));
  }

  /** Bit `s` of packed bytes. */
  predicate BitOf(bytes: seq<bv8>, s: nat)
    requires s / 8 < |bytes|
  {
    BitAt(bytes[s / 8], s % 8)
  }

  lemma ByteUpdate(bytes: seq<bv8>, i: nat, v: bv8, j: nat)
    requires i < |bytes| && j / 8 < |bytes|
    ensures BitOf(bytes[i := v], j) <==> if j / 8 == i then BitAt(v, j % 8) else BitOf(bytes, j)
  {
  }

  lemma SetBitOf(bytes: seq<bv8>, s: nat, j: nat)
    requires s / 8 < |bytes| && j / 8 < |bytes|
    ensures BitOf(bytes[s / 8 := bytes[s / 8] | Mask(s % 8)], j) <==> j == s || BitOf(bytes, j)
  {
    ByteUpdate(bytes, s / 8, bytes[s / 8] | Mask(s % 8), j);
    SetBit(bytes[s / 8], s % 8, j % 8);
    assert j / 8 == s / 8 && j % 8 == s % 8 ==> j == s;
  }

  lemma ClearBitOf(bytes: seq<bv8>, s: nat, j: nat)
    requires s / 8 < |bytes| && j / 8 < |bytes|
    ensures BitOf(bytes[s / 8 := bytes[s / 8] & !Mask(s % 8)], j) <==> j != s && BitOf(bytes, j)
  {
    ByteUpdate(bytes, s / 8, bytes[s / 8] & !Mask(s % 8), j);
    ClearBit(bytes[s / 8], s % 8, j % 8);
    assert j / 8 == s / 8 && j % 8 == s % 8 ==> j == s;
  }
}
