/** Two bits per position, in two 64-bit words: nothing, or the number of a generation (src/bloom.cpp). */
module GenerationBits {
  import opened Hiding

  ghost predicate SingleOne(m: bv64) { m != 0 && m & (m - 1) == 0 }

  /** A mask with a single one: `SingleOne`, unfolded only on demand. */
  ghost predicate OneBit(m: bv64) {
    forall n :: Look(n) ==> SingleOne(m)
  }

  lemma OneBitIs(m: bv64)
    ensures OneBit(m) <==> SingleOne(m)
  {
    assert Look(0);
  }

  /** The mask of a generation bit: all ones or all zeroes. */
  function Full(g: bool): bv64 { if g then !0 else 0 }

  ghost predicate IsOn(w: bv64, m: bv64, on: bool) {
    forall n :: Look(n) ==> on == (w & m != 0)
  }

  /** The bit of `w` under the mask `m`. */
  ghost predicate On(w: bv64, m: bv64) {
    assert IsOn(w, m, w & m != 0);
    var on :| IsOn(w, m, on);
    on
  }

  lemma OnIs(w: bv64, m: bv64)
    ensures On(w, m) <==> w & m != 0
  {
    assert Look(0);
  }

  lemma ShiftedOneRaw(b: bv6)
    ensures SingleOne((1 as bv64) << b)
  {
  }

  ghost predicate IsMask(b: bv6, m: bv64) {
    forall n :: Look(n) ==> m == 1 << b
  }

  /** `1 << b`. */
  ghost function Mask(b: bv6): (m: bv64)
    ensures OneBit(m)
  {
    ShiftedOneRaw(b);
    OneBitIs((1 as bv64) << b);
    assert IsMask(b, 1 << b);
    var m :| OneBit(m) && IsMask(b, m);
    m
  }

  lemma MaskIs(b: bv6)
    ensures Mask(b) == 1 << b
  {
    assert Look(0);
  }

  lemma ReadSet(w: bv64, b: bv6)
    requires (w >> b) & 1 != 0
    ensures w & (1 << b) != 0
  {
  }

  lemma ReadClear(w: bv64, b: bv6)
    requires w & (1 << b) != 0
    ensures (w >> b) & 1 != 0
  {
  }

  /** `(w >> b) & 1`. */
  method Read(w: bv64, b: bv6) returns (on: bool)
    ensures on == On(w, Mask(b))
  {
    MaskIs(b);
    OnIs(w, 1 << b);
    on := (w >> b) & 1 != 0;
    if on {
      ReadSet(w, b);
    } else if w & (1 << b) != 0 {
      ReadClear(w, b);
    }
  }

  lemma OrRaw(u: bv64, w: bv64, m: bv64)
    ensures (u | w) & m == (u & m) | (w & m)
  {
  }

  lemma OrNonzero(x: bv64, y: bv64)
    ensures x | y != 0 <==> x != 0 || y != 0
  {
  }

  lemma OrBit(u: bv64, w: bv64, m: bv64)
    ensures On(u | w, m) <==> On(u, m) || On(w, m)
  {
    OnIs(u, m);
    OnIs(w, m);
    OnIs(u | w, m);
    OrRaw(u, w, m);
    OrNonzero(u & m, w & m);
  }

  method Either(u: bv64, w: bv64) returns (r: bv64)
    ensures forall m :: OneBit(m) ==> (On(r, m) <==> On(u, m) || On(w, m))
  {
    r := u | w;
    forall m | OneBit(m)
      ensures On(r, m) <==> On(u, m) || On(w, m)
    {
      OrBit(u, w, m);
    }
  }

  lemma AndRaw(p: bv64, mask: bv64, m: bv64)
    requires SingleOne(m)
    ensures (p & mask) & m != 0 <==> p & m != 0 && mask & m != 0
  {
  }

  lemma AndBit(p: bv64, mask: bv64, m: bv64)
    requires OneBit(m)
    ensures On(p & mask, m) <==> On(p, m) && On(mask, m)
  {
    OneBitIs(m);
    OnIs(p, m);
    OnIs(mask, m);
    OnIs(p & mask, m);
    AndRaw(p, mask, m);
  }

  method Both(p: bv64, mask: bv64) returns (r: bv64)
    ensures forall m :: OneBit(m) ==> (On(r, m) <==> On(p, m) && On(mask, m))
  {
    r := p & mask;
    forall m | OneBit(m)
      ensures On(r, m) <==> On(p, m) && On(mask, m)
    {
      AndBit(p, mask, m);
    }
  }

  lemma FlipRaw(p: bv64, g: bool, m: bv64)
    requires SingleOne(m)
    ensures (p ^ Full(g)) & m != 0 <==> if g then p & m == 0 else p & m != 0
  {
  }

  lemma FlipBit(p: bv64, g: bool, m: bv64)
    requires OneBit(m)
    ensures On(p ^ Full(g), m) <==> On(p, m) != g
  {
    OneBitIs(m);
    OnIs(p, m);
    OnIs(p ^ Full(g), m);
    FlipRaw(p, g, m);
  }

  method Flip(p: bv64, g: bool) returns (r: bv64)
    ensures forall m :: OneBit(m) ==> (On(r, m) <==> On(p, m) != g)
  {
    r := p ^ Full(g);
    forall m | OneBit(m)
      ensures On(r, m) <==> On(p, m) != g
    {
      FlipBit(p, g, m);
    }
  }

  /** Different masks do not meet. */
  lemma MasksDisjoint(m: bv64, n: bv64)
    requires SingleOne(m) && SingleOne(n) && m != n
    ensures m & n == 0
  {
  }

  lemma KeepsOthers(w: bv64, m: bv64, x: bv64, n: bv64)
    requires m & n == 0 && (x == 0 || x == m)
    ensures ((w & !m) | x) & n == w & n
  {
  }

  lemma SetsOne(w: bv64, m: bv64, x: bv64)
    requires x == 0 || x == m
    ensures ((w & !m) | x) & m == x
  {
  }

  lemma WriteMask(w: bv64, m: bv64, x: bv64, n: bv64)
    requires OneBit(m) && OneBit(n) && (x == 0 || x == m)
    ensures On((w & !m) | x, n) <==> if n == m then x == m else On(w, n)
  {
    OneBitIs(m);
    OneBitIs(n);
    OnIs(w, n);
    OnIs((w & !m) | x, n);
    if n == m {
      SetsOne(w, m, x);
    } else {
      MasksDisjoint(m, n);
      KeepsOthers(w, m, x, n);
    }
  }

  lemma ShiftedZero(v: bv64, b: bv6)
    requires v == 0
    ensures v << b == 0
  {
  }

  /** A generation bit moved to its position. */
  method Place(on: bool, b: bv6) returns (x: bv64)
    ensures x == if on then Mask(b) else 0
  {
    MaskIs(b);
    var v: bv64 := if on then 1 else 0;
    if !on {
      ShiftedZero(v, b);
    }
    x := v << b;
  }

  /** `(w & ~(1 << b)) | (on << b)`: writing a bit changes it and no other. */
  method Write(w: bv64, b: bv6, on: bool) returns (r: bv64)
    ensures forall n :: OneBit(n) ==> (On(r, n) <==> if n == Mask(b) then on else On(w, n))
  {
    var m := Place(true, b);
    var x := Place(on, b);
    r := (w & !m) | x;
    MaskNonzero(m);
    forall n | OneBit(n)
      ensures On(r, n) <==> if n == m then on else On(w, n)
    {
      WriteMask(w, m, x, n);
    }
  }

  lemma MaskNonzero(m: bv64)
    requires OneBit(m)
    ensures m != 0
  {
    OneBitIs(m);
  }
}

/** The rolling bloom filter (src/bloom.cpp, class CRollingBloomFilter). */
module RollingBloom {
  import opened Hiding
  import opened Folded
  import opened GenerationBits

  type Tag = (bool, bool)

  const NOTHING: Tag := (false, false)

  /** The tag of a generation: the numbers 1, 2 and 3 in turn, as two bits. */
  function LabelOf(age: nat): Tag {
    if age % 3 == 0 then (true, false) else if age % 3 == 1 then (false, true) else (true, true)
  }

  function TagOf(generation: nat): Tag { (generation % 2 == 1, generation / 2 == 1) }

  /** The numbers go round with the generations. */
  lemma NumberOf(age: nat)
    ensures TagOf(age % 3 + 1) == LabelOf(age)
    ensures (age + 1) % 3 + 1 == if age % 3 + 2 == 4 then 1 else age % 3 + 2
  {
  }

  /** The tag at mask `m` of word pair `w`. */
  ghost function LabelAt(d: seq<bv64>, w: nat, m: bv64): Tag
    requires 2 * w + 1 < |d|
  {
    (On(d[2 * w], m), On(d[2 * w + 1], m))
  }

  /** A tag of generation `born` or of a later one up to `age`, among the three that are kept. */
  ghost predicate Recent(tag: Tag, born: nat, age: nat) {
    || tag == LabelOf(age)
    || (born + 1 <= age && tag == LabelOf(age - 1))
    || (born + 2 <= age && tag == LabelOf(age - 2))
  }

  lemma RecentIsSomething(tag: Tag, born: nat, age: nat)
    requires Recent(tag, born, age)
    ensures tag != NOTHING
  {
  }

  /** Where a hash value points. */
  function Pair(h: bv32, size: nat): (w: nat)
    requires size >= 2 && size % 2 == 0
    ensures 2 * w + 1 < size
  {
    ((h >> 6) as nat % size) / 2
  }

  function BitOf(h: bv32): bv6 { (h & 0x3F) as bv6 }

  lemma SixBits(word: bv32, b: bv6) returns (h: bv32)
    requires word < 0x400_0000
    ensures h >> 6 == word && (h & 0x3F) as bv6 == b
  {
    h := (word << 6) | (b as bv32);
  }

  lemma PairOf(h: bv32, word: bv32, size: nat)
    requires size >= 2 && size % 2 == 0 && h >> 6 == word && word as nat < size
    ensures Pair(h, size) == word as nat / 2
  {
    SmallMod(word as nat, size);
  }

  lemma SmallMod(n: nat, size: nat)
    requires n < size
    ensures n % size == n
  {
  }

  /** Every bit of every word below 2^26 is the position of some hash value. */
  lemma EveryPositionReached(word: bv32, b: bv6, size: nat) returns (h: bv32)
    requires size >= 2 && size % 2 == 0 && word < 0x400_0000 && word as nat < size
    ensures Pair(h, size) == word as nat / 2 && BitOf(h) == b
  {
    h := SixBits(word, b);
    PairOf(h, word, size);
  }

  /** The lowest six bits are the bit, and the others modulo the size of the table lead to one of the two words. */
  lemma PositionIs(h: bv32, size: nat)
    requires size >= 2 && size % 2 == 0
    ensures var pos := (h >> 6) as nat % size; pos == 2 * Pair(h, size) || pos == 2 * Pair(h, size) + 1
    ensures BitOf(h) as bv32 == h & 63
  {
  }

  /** All positions of a key carry recent labels. */
  ghost predicate KeyMarked(d: seq<bv64>, hashes: seq<bv32>, born: nat, age: nat)
    requires |d| >= 2 && |d| % 2 == 0
  {
    forall n :: 0 <= n < |hashes| ==> Recent(LabelAt(d, Pair(hashes[n], |d|), Mask(BitOf(hashes[n]))), born, age)
  }

  // ----- wiping -----

  ghost predicate WipedAt(d: seq<bv64>, d': seq<bv64>, tag: Tag, w: nat)
    requires 2 * w + 1 < |d| == |d'|
  {
    forall m :: OneBit(m) ==> LabelAt(d', w, m) == if LabelAt(d, w, m) == tag then NOTHING else LabelAt(d, w, m)
  }

  ghost predicate Wiped(d: seq<bv64>, d': seq<bv64>, tag: Tag)
    requires |d| == |d'|
  {
    forall w: nat :: 2 * w + 1 < |d| ==> WipedAt(d, d', tag, w)
  }

  /** The words of one pair after wiping. */
  method WipePair(p1: bv64, p2: bv64, tag: Tag) returns (q1: bv64, q2: bv64)
    ensures WipedAt([p1, p2], [q1, q2], tag, 0)
  {
    var x := Flip(p1, tag.0);
    var y := Flip(p2, tag.1);
    var mask := Either(x, y);
    q1 := Both(p1, mask);
    q2 := Both(p2, mask);
  }

  /** Removes one tag from all positions. */
  method Wipe(data: array<bv64>, tag: Tag)
    requires data.Length % 2 == 0
    modifies data
    ensures Wiped(old(data[..]), data[..], tag)
  {
    ghost var d := data[..];
    var p := 0;
    while p < data.Length
      invariant 0 <= p <= data.Length && p % 2 == 0
      invariant forall w: nat :: 2 * w + 1 < p ==> WipedAt(d, data[..], tag, w)
      invariant forall i :: p <= i < data.Length ==> data[i] == d[i]
    {
      ghost var before := data[..];
      var q1, q2 := WipePair(data[p], data[p + 1], tag);
      data[p] := q1;
      data[p + 1] := q2;
      WipedNext(d, before, data[..], tag, p / 2, q1, q2);
      p := p + 2;
    }
  }

  lemma WipedNext(d: seq<bv64>, before: seq<bv64>, now: seq<bv64>, tag: Tag, w: nat, q1: bv64, q2: bv64)
    requires 2 * w + 1 < |d| == |before| && now == before[2 * w := q1][2 * w + 1 := q2]
    requires forall v: nat :: v < w ==> WipedAt(d, before, tag, v)
    requires WipedAt([d[2 * w], d[2 * w + 1]], [q1, q2], tag, 0)
    ensures forall v: nat :: v <= w ==> WipedAt(d, now, tag, v)
  {
    forall v: nat | v <= w
      ensures WipedAt(d, now, tag, v)
    {
      if v < w {
        assert WipedAt(d, before, tag, v);
      }
    }
  }

  /** A key that is recent enough keeps its labels when the oldest generation is wiped. */
  lemma WipeKeeps(d: seq<bv64>, d': seq<bv64>, hashes: seq<bv32>, born: nat, age: nat)
    requires |d| == |d'| >= 2 && |d| % 2 == 0 && age <= born + 1 && born <= age && KeyMarked(d, hashes, born, age)
    requires Wiped(d, d', LabelOf(age + 1))
    ensures KeyMarked(d', hashes, born, age + 1)
  {
    forall n | 0 <= n < |hashes|
      ensures Recent(LabelAt(d', Pair(hashes[n], |d|), Mask(BitOf(hashes[n]))), born, age + 1)
    {
      var w, m := Pair(hashes[n], |d|), Mask(BitOf(hashes[n]));
      assert Recent(LabelAt(d, w, m), born, age);
      assert WipedAt(d, d', LabelOf(age + 1), w);
      RecentSurvives(LabelAt(d, w, m), born, age);
    }
  }

  lemma RecentSurvives(tag: Tag, born: nat, age: nat)
    requires Recent(tag, born, age) && age <= born + 1 && born <= age
    ensures tag != LabelOf(age + 1) && Recent(tag, born, age + 1)
  {
  }

  // ----- marking -----

  ghost predicate Marked(d: seq<bv64>, d': seq<bv64>, w0: nat, m0: bv64, tag: Tag)
    requires |d| == |d'|
  {
    forall w: nat, m: bv64 :: 2 * w + 1 < |d| && OneBit(m) ==>
      LabelAt(d', w, m) == if w == w0 && m == m0 then tag else LabelAt(d, w, m)
  }

  method Mark(data: array<bv64>, h: bv32, tag: Tag)
    requires data.Length >= 2 && data.Length % 2 == 0
    modifies data
    ensures Marked(old(data[..]), data[..], Pair(h, data.Length), Mask(BitOf(h)), tag)
  {
    var w, b := Pair(h, data.Length), BitOf(h);
    data[2 * w] := Write(data[2 * w], b, tag.0);
    data[2 * w + 1] := Write(data[2 * w + 1], b, tag.1);
  }

  /** Marking a position with the current generation keeps every key marked. */
  lemma MarkKeeps(d: seq<bv64>, d': seq<bv64>, w0: nat, m0: bv64, hashes: seq<bv32>, born: nat, age: nat)
    requires |d| == |d'| >= 2 && |d| % 2 == 0 && Marked(d, d', w0, m0, LabelOf(age)) && KeyMarked(d, hashes, born, age)
    ensures KeyMarked(d', hashes, born, age)
  {
    forall n | 0 <= n < |hashes|
      ensures Recent(LabelAt(d', Pair(hashes[n], |d|), Mask(BitOf(hashes[n]))), born, age)
    {
      var w, m := Pair(hashes[n], |d|), Mask(BitOf(hashes[n]));
      assert Recent(LabelAt(d, w, m), born, age);
      assert OneBit(m);
    }
  }

  // ----- what the filter keeps -----

  /** The keys of the last three generations are marked. */
  ghost predicate Remembered(d: seq<bv64>, hashed: seq<seq<bv32>>, born: seq<nat>, age: nat)
    requires |d| >= 2 && |d| % 2 == 0
  {
    |hashed| == |born| && forall i :: 0 <= i < |born| && born[i] + 2 >= age ==> KeyMarked(d, hashed[i], born[i], age)
  }

  lemma RememberedAfterWipe(d: seq<bv64>, d': seq<bv64>, hashed: seq<seq<bv32>>, born: seq<nat>, age: nat)
    requires |d| == |d'| >= 2 && |d| % 2 == 0 && Remembered(d, hashed, born, age)
    requires forall i :: 0 <= i < |born| ==> born[i] <= age
    requires Wiped(d, d', LabelOf(age + 1))
    ensures Remembered(d', hashed, born, age + 1)
  {
    forall i | 0 <= i < |born| && born[i] + 2 >= age + 1
      ensures KeyMarked(d', hashed[i], born[i], age + 1)
    {
      WipeKeeps(d, d', hashed[i], born[i], age);
    }
  }

  lemma RememberedAfterMark(d: seq<bv64>, d': seq<bv64>, w: nat, m: bv64, hashed: seq<seq<bv32>>, born: seq<nat>,
                            age: nat)
    requires |d| == |d'| >= 2 && |d| % 2 == 0 && Remembered(d, hashed, born, age) && Marked(d, d', w, m, LabelOf(age))
    ensures Remembered(d', hashed, born, age)
  {
    forall i | 0 <= i < |born| && born[i] + 2 >= age
      ensures KeyMarked(d', hashed[i], born[i], age)
    {
      MarkKeeps(d, d', w, m, hashed[i], born[i], age);
    }
  }

  /** A key has the position with mask `m` in word pair `w`. */
  ghost predicate Points(hashes: seq<bv32>, size: nat, w: nat, m: bv64)
    requires size >= 2 && size % 2 == 0
  {
    exists n :: 0 <= n < |hashes| && Pair(hashes[n], size) == w && Mask(BitOf(hashes[n])) == m
  }

  /** Key number `i` belongs to the last three generations, has the position, and explains the label there. */
  ghost predicate Explains(hashed: seq<seq<bv32>>, born: seq<nat>, age: nat, i: nat, tag: Tag, size: nat, w: nat,
                           m: bv64)
    requires size >= 2 && size % 2 == 0 && |hashed| == |born|
  {
    i < |born| && born[i] <= age <= born[i] + 2 && tag == LabelOf(born[i]) && Points(hashed[i], size, w, m)
  }

  /** Every label in the table is explained by a key of the last three generations. */
  ghost predicate Covered(d: seq<bv64>, hashed: seq<seq<bv32>>, born: seq<nat>, age: nat)
    requires |d| >= 2 && |d| % 2 == 0
  {
    && |hashed| == |born|
    && forall w: nat, m: bv64 :: 2 * w + 1 < |d| && OneBit(m) && LabelAt(d, w, m) != NOTHING ==>
         exists i: nat :: Explains(hashed, born, age, i, LabelAt(d, w, m), |d|, w, m)
  }

  lemma CoveredAfterWipe(d: seq<bv64>, d': seq<bv64>, hashed: seq<seq<bv32>>, born: seq<nat>, age: nat)
    requires |d| == |d'| >= 2 && |d| % 2 == 0 && Covered(d, hashed, born, age) && Wiped(d, d', LabelOf(age + 1))
    ensures Covered(d', hashed, born, age + 1)
  {
    var next := age + 1;
    forall w: nat, m: bv64 | 2 * w + 1 < |d| && OneBit(m) && LabelAt(d', w, m) != NOTHING
      ensures exists i: nat :: Explains(hashed, born, next, i, LabelAt(d', w, m), |d'|, w, m)
    {
      assert WipedAt(d, d', LabelOf(age + 1), w);
      var i: nat :| Explains(hashed, born, age, i, LabelAt(d, w, m), |d|, w, m);
      LabelsDiffer(born[i], age);
      assert Explains(hashed, born, next, i, LabelAt(d', w, m), |d'|, w, m);
    }
  }

  /** Among the three generations that are kept only the oldest has the number of the next one. */
  lemma LabelsDiffer(born: nat, age: nat)
    requires born <= age <= born + 2
    ensures LabelOf(born) == LabelOf(age + 1) <==> age == born + 2
  {
  }

  /** One more position of the key that is being inserted. */
  lemma CoveredAfterMark(d: seq<bv64>, d': seq<bv64>, hashed: seq<seq<bv32>>, born: seq<nat>, age: nat, hs: seq<bv32>,
                         n: nat)
    requires |d| == |d'| >= 2 && |d| % 2 == 0 && n < |hs| && Covered(d, hashed + [hs[..n]], born + [age], age)
    requires Marked(d, d', Pair(hs[n], |d|), Mask(BitOf(hs[n])), LabelOf(age))
    ensures Covered(d', hashed + [hs[..n + 1]], born + [age], age)
  {
    var last := |born|;
    var hashed', born' := hashed + [hs[..n + 1]], born + [age];
    forall w: nat, m: bv64 | 2 * w + 1 < |d| && OneBit(m) && LabelAt(d', w, m) != NOTHING
      ensures exists i: nat :: Explains(hashed', born', age, i, LabelAt(d', w, m), |d'|, w, m)
    {
      if w == Pair(hs[n], |d|) && m == Mask(BitOf(hs[n])) {
        assert hs[..n + 1][n] == hs[n];
        assert Explains(hashed', born', age, last, LabelAt(d', w, m), |d'|, w, m);
      } else {
        var i: nat :| Explains(hashed + [hs[..n]], born', age, i, LabelAt(d, w, m), |d|, w, m);
        if i == last {
          PointsMore(hs, n, |d|, w, m);
        }
        assert Explains(hashed', born', age, i, LabelAt(d', w, m), |d'|, w, m);
      }
    }
  }

  lemma PointsMore(hs: seq<bv32>, n: nat, size: nat, w: nat, m: bv64)
    requires n < |hs| && size >= 2 && size % 2 == 0 && Points(hs[..n], size, w, m)
    ensures Points(hs[..n + 1], size, w, m)
  {
    var p := hs[..n];
    var j :| 0 <= j < |p| && Pair(p[j], size) == w && Mask(BitOf(p[j])) == m;
    assert hs[..n + 1][j] == p[j];
  }

  /** A key without positions explains nothing and disturbs nothing. */
  lemma CoveredStart(d: seq<bv64>, hashed: seq<seq<bv32>>, born: seq<nat>, age: nat, none: seq<bv32>)
    requires |d| >= 2 && |d| % 2 == 0 && Covered(d, hashed, born, age)
    ensures Covered(d, hashed + [none], born + [age], age)
  {
    forall w: nat, m: bv64 | 2 * w + 1 < |d| && OneBit(m) && LabelAt(d, w, m) != NOTHING
      ensures exists i: nat :: Explains(hashed + [none], born + [age], age, i, LabelAt(d, w, m), |d|, w, m)
    {
      var i: nat :| Explains(hashed, born, age, i, LabelAt(d, w, m), |d|, w, m);
      assert Explains(hashed + [none], born + [age], age, i, LabelAt(d, w, m), |d|, w, m);
    }
  }

  lemma CoveredEmpty(d: seq<bv64>, age: nat)
    requires |d| >= 2 && |d| % 2 == 0 && forall i :: 0 <= i < |d| ==> d[i] == 0
    ensures Covered(d, [], [], age)
  {
    forall w: nat, m: bv64 | 2 * w + 1 < |d| && OneBit(m)
      ensures LabelAt(d, w, m) == NOTHING
    {
      OnIs(0, m);
    }
  }

  /** What the table knows about the keys: nothing of the last three generations is missing, and nothing else is
      there. */
  ghost predicate Faithful(d: seq<bv64>, hashed: seq<seq<bv32>>, born: seq<nat>, age: nat)
    requires |d| >= 2 && |d| % 2 == 0
  {
    Remembered(d, hashed, born, age) && Covered(d, hashed, born, age)
  }

  ghost predicate AreKept(d: seq<bv64>, hashed: seq<seq<bv32>>, born: seq<nat>, age: nat, ok: bool)
    requires |d| >= 2 && |d| % 2 == 0
  {
    forall n :: Look(n) ==> ok == Faithful(d, hashed, born, age)
  }

  /** `Faithful`, unfolded only on demand. */
  ghost predicate Keeps(d: seq<bv64>, hashed: seq<seq<bv32>>, born: seq<nat>, age: nat)
    requires |d| >= 2 && |d| % 2 == 0
  {
    assert AreKept(d, hashed, born, age, Faithful(d, hashed, born, age));
    var ok :| AreKept(d, hashed, born, age, ok);
    ok
  }

  lemma KeepsIs(d: seq<bv64>, hashed: seq<seq<bv32>>, born: seq<nat>, age: nat)
    requires |d| >= 2 && |d| % 2 == 0
    ensures Keeps(d, hashed, born, age) <==> Faithful(d, hashed, born, age)
  {
    assert Look(0);
  }

  /** A new generation begins. */
  lemma KeepsAfterWipe(d: seq<bv64>, d': seq<bv64>, hashed: seq<seq<bv32>>, born: seq<nat>, age: nat)
    requires |d| == |d'| >= 2 && |d| % 2 == 0 && Keeps(d, hashed, born, age)
    requires forall i :: 0 <= i < |born| ==> born[i] <= age
    requires Wiped(d, d', LabelOf(age + 1))
    ensures Keeps(d', hashed, born, age + 1)
  {
    KeepsIs(d, hashed, born, age);
    KeepsIs(d', hashed, born, age + 1);
    RememberedAfterWipe(d, d', hashed, born, age);
    CoveredAfterWipe(d, d', hashed, born, age);
  }

  /** Generations are filled one after the other. */
  ghost predicate Counts(born: seq<nat>, age: nat, entries: nat, size: nat) {
    && entries <= size && |born| == Times(age, size) + entries
    && forall i :: 0 <= i < |born| ==> born[i] <= age && Times(born[i], size) <= i < Times(born[i] + 1, size)
  }

  lemma CountsNext(born: seq<nat>, age: nat, size: nat)
    requires Counts(born, age, size, size)
    ensures Counts(born, age + 1, 0, size)
  {
    TimesDist(age, 1, size);
    TimesZero(size);
  }

  lemma CountsAppend(born: seq<nat>, age: nat, entries: nat, size: nat)
    requires Counts(born, age, entries, size) && entries < size
    ensures Counts(born + [age], age, entries + 1, size)
  {
    TimesDist(age, 1, size);
    TimesZero(size);
  }

  /** The last two full generations and the current one are young enough. */
  lemma LastOnesAreYoung(born: seq<nat>, age: nat, entries: nat, size: nat, i: nat)
    requires Counts(born, age, entries, size) && |born| <= i + 2 * size + entries && i < |born|
    ensures born[i] + 2 >= age
  {
    if born[i] + 3 <= age {
      TimesMono(born[i] + 1 + 2, age, size);
      TimesDist(born[i] + 1, 2, size);
      TimesIs(2, size);
    }
  }

  /** No key before those is young enough. */
  lemma YoungOnesAreLast(born: seq<nat>, age: nat, entries: nat, size: nat, i: nat)
    requires Counts(born, age, entries, size) && i < |born| && born[i] + 2 >= age
    ensures |born| <= i + 2 * size + entries
  {
    TimesMono(age, born[i] + 2, size);
    TimesDist(born[i], 2, size);
    TimesIs(2, size);
  }

  // ----- the filter -----

  class Filter<Key(!new)> {
    /** The number of keys that the filter promises to remember. */
    ghost const elements: nat
    const perGeneration: nat
    const hashFuncs: nat
    /** The hash function with its number and tweak. */
    const hash: (nat, nat, Key) -> bv32
    const data: array<bv64>
    var entries: nat
    var generation: nat
    var tweak: nat
    /** All keys since the last reset, their hash values, the generation of each, and the number of generations. */
    ghost var history: seq<Key>
    ghost var hashed: seq<seq<bv32>>
    ghost var born: seq<nat>
    ghost var age: nat

    ghost predicate Valid()
      reads this, data
    {
      && data.Length >= 2 && data.Length % 2 == 0 && perGeneration > 0 && perGeneration == (elements + 1) / 2
      && generation == age % 3 + 1 && Counts(born, age, entries, perGeneration)
      && |hashed| == |history|
      && (forall i :: 0 <= i < |history| ==> hashed[i] == Hashes(hash, hashFuncs, tweak, history[i]))
      && Keeps(data[..], hashed, born, age)
    }

    /** The number of filter bits, which the source derives from the rate of false positives, is a parameter. */
    constructor (elements: nat, filterBits: nat, hashFuncs: nat, hash: (nat, nat, Key) -> bv32, tweak: nat)
      requires elements > 0 && filterBits > 0
      ensures Valid() && fresh(data) && history == [] && this.elements == elements
      ensures this.hashFuncs == hashFuncs && this.hash == hash && this.tweak == tweak
      ensures 32 * (data.Length - 2) < filterBits <= 32 * data.Length
    {
      this.elements := elements;
      this.perGeneration := (elements + 1) / 2;
      this.hashFuncs := hashFuncs;
      this.hash := hash;
      this.data := new bv64[(filterBits + 63) / 64 * 2](_ => 0);
      this.tweak := tweak;
      entries, generation := 0, 1;
      history, hashed, born, age := [], [], [], 0;
      new;
      TimesZero(perGeneration);
      CoveredEmpty(data[..], 0);
      KeepsIs(data[..], [], [], 0);
    }

    /** `reset`. */
    method Reset(newTweak: nat)
      requires Valid()
      modifies this, data
      ensures Valid() && history == [] && tweak == newTweak
    {
      tweak := newTweak;
      entries, generation := 0, 1;
      history, hashed, born, age := [], [], [], 0;
      TimesZero(perGeneration);
      for i := 0 to data.Length
        invariant forall j :: 0 <= j < i ==> data[j] == 0
        modifies data
      {
        data[i] := 0;
      }
      CoveredEmpty(data[..], 0);
      KeepsIs(data[..], [], [], 0);
    }

    /** Starts the next generation and wipes the positions of the one that had its number. */
    method NextGeneration()
      requires Valid() && entries == perGeneration
      modifies this, data
      ensures Valid() && history == old(history) && tweak == old(tweak) && entries == 0
    {
      ghost var d := data[..];
      CountsNext(born, age, perGeneration);
      NumberOf(age);
      NumberOf(age + 1);
      entries := 0;
      generation := generation + 1;
      if generation == 4 {
        generation := 1;
      }
      assert TagOf(generation) == LabelOf(age + 1);
      Wipe(data, TagOf(generation));
      KeepsAfterWipe(d, data[..], hashed, born, age);
      age := age + 1;
    }

    /** `insert`. */
    method Insert(key: Key)
      requires Valid()
      modifies this, data
      ensures Valid() && history == old(history) + [key] && tweak == old(tweak)
    {
      if entries == perGeneration {
        NextGeneration();
      }
      CountsAppend(born, age, entries, perGeneration);
      entries := entries + 1;
      MarkAll(key);
      ghost var hs := Hashes(hash, hashFuncs, tweak, key);
      history, hashed, born := history + [key], hashed + [hs], born + [age];
    }

    /** The loop over the hash functions. */
    method MarkAll(key: Key)
      requires data.Length >= 2 && data.Length % 2 == 0 && generation == age % 3 + 1
      requires Keeps(data[..], hashed, born, age)
      modifies data
      ensures Keeps(data[..], hashed + [Hashes(hash, hashFuncs, tweak, key)], born + [age], age)
    {
      ghost var hs := Hashes(hash, hashFuncs, tweak, key);
      NumberOf(age);
      KeepsIs(data[..], hashed, born, age);
      CoveredStart(data[..], hashed, born, age, hs[..0]);
      for n := 0 to hashFuncs
        invariant Remembered(data[..], hashed, born, age)
        invariant KeyMarked(data[..], hs[..n], age, age)
        invariant Covered(data[..], hashed + [hs[..n]], born + [age], age)
      {
        ghost var d := data[..];
        var h := hash(n, tweak, key);
        Mark(data, h, TagOf(generation));
        ghost var w, m := Pair(h, data.Length), Mask(BitOf(h));
        RememberedAfterMark(d, data[..], w, m, hashed, born, age);
        MarkKeeps(d, data[..], w, m, hs[..n], age, age);
        MarkedNext(d, data[..], hs, n, age);
        CoveredAfterMark(d, data[..], hashed, born, age, hs, n);
      }
      assert hs[..hashFuncs] == hs;
      RememberedAppend(data[..], hashed, born, age, hs);
      KeepsIs(data[..], hashed + [hs], born + [age], age);
    }

    /** Key number `i` belongs to the last two full generations or to the current one. */
    ghost predicate Kept(i: nat)
      reads this
    {
      i < |history| && |history| <= i + 2 * perGeneration + entries
    }

    /** The position of a hash value is one of those of a key that is kept. */
    ghost predicate Known(h: bv32)
      requires Valid()
      reads this, data
    {
      exists i: nat :: Kept(i) && Points(hashed[i], data.Length, Pair(h, data.Length), Mask(BitOf(h)))
    }

    /** The labels in the table are exactly the positions of the keys that are kept. */
    lemma LabelsAreKnown(h: bv32)
      requires Valid()
      ensures Somewhere(data[..], h) <==> Known(h)
    {
      var d, w, m := data[..], Pair(h, data.Length), Mask(BitOf(h));
      KeepsIs(d, hashed, born, age);
      if Somewhere(d, h) {
        var i: nat :| Explains(hashed, born, age, i, LabelAt(d, w, m), |d|, w, m);
        YoungOnesAreLast(born, age, entries, perGeneration, i);
        assert Kept(i);
      } else if Known(h) {
        var i: nat :| Kept(i) && Points(hashed[i], data.Length, w, m);
        LastOnesAreYoung(born, age, entries, perGeneration, i);
        var n :| 0 <= n < |hashed[i]| && Pair(hashed[i][n], |d|) == w && Mask(BitOf(hashed[i][n])) == m;
        RecentIsSomething(LabelAt(d, w, m), born[i], age);
      }
    }

    /** The loop of `contains`. */
    method AllLabelled(key: Key) returns (found: bool)
      requires data.Length >= 2 && data.Length % 2 == 0
      ensures found <==> Present(data[..], Hashes(hash, hashFuncs, tweak, key))
    {
      ghost var hs := Hashes(hash, hashFuncs, tweak, key);
      for n := 0 to hashFuncs
        invariant forall j :: 0 <= j < n ==> Somewhere(data[..], hs[j])
      {
        var h := hash(n, tweak, key);
        var w := Pair(h, data.Length);
        var both := Either(data[2 * w], data[2 * w + 1]);
        var on := Read(both, BitOf(h));
        assert hs[n] == h;
        if !on {
          return false;
        }
      }
      return true;
    }

    lemma PresentIsKnown(key: Key)
      requires Valid()
      ensures Present(data[..], Hashes(hash, hashFuncs, tweak, key)) <==> AllKnown(key)
    {
      var hs := Hashes(hash, hashFuncs, tweak, key);
      forall n: nat | n < hashFuncs ensures Somewhere(data[..], hs[n]) <==> Known(hash(n, tweak, key)) {
        LabelsAreKnown(hash(n, tweak, key));
      }
    }

    ghost predicate AllKnown(key: Key)
      requires Valid()
      reads this, data
    {
      forall n: nat :: n < hashFuncs ==> Known(hash(n, tweak, key))
    }

    lemma KeptIsKnown(i: nat)
      requires Valid() && Kept(i)
      ensures AllKnown(history[i])
    {
      var hs := hashed[i];
      forall n: nat | n < hashFuncs ensures Known(hash(n, tweak, history[i])) {
        assert hs[n] == hash(n, tweak, history[i]);
        assert Points(hs, data.Length, Pair(hs[n], data.Length), Mask(BitOf(hs[n])));
      }
    }

    /** `contains`: true for the last `elements` keys, and even for all of the last two full generations and the
        current one; and true only if all positions of the key are positions of those. */
    method Contains(key: Key) returns (found: bool)
      requires Valid()
      ensures forall i: nat :: i < |history| <= i + elements && history[i] == key ==> found
      ensures forall i: nat :: Kept(i) && history[i] == key ==> found
      ensures found <==> AllKnown(key)
    {
      PresentIsKnown(key);
      forall i: nat | Kept(i) && history[i] == key ensures AllKnown(key) {
        KeptIsKnown(i);
      }
      assert forall i: nat :: i < |history| <= i + elements ==> Kept(i);
      found := AllLabelled(key);
    }
  }

  ghost function Hashes<Key>(hash: (nat, nat, Key) -> bv32, n: nat, tweak: nat, key: Key): (s: seq<bv32>)
    ensures |s| == n
  {
    seq(n, (i: nat) => hash(i, tweak, key))
  }

  /** The position of a hash value has some label. */
  ghost predicate Somewhere(d: seq<bv64>, h: bv32)
    requires |d| >= 2 && |d| % 2 == 0
  {
    LabelAt(d, Pair(h, |d|), Mask(BitOf(h))) != NOTHING
  }

  ghost predicate Present(d: seq<bv64>, hashes: seq<bv32>)
    requires |d| >= 2 && |d| % 2 == 0
  {
    forall n :: 0 <= n < |hashes| ==> Somewhere(d, hashes[n])
  }

  lemma RememberedAppend(d: seq<bv64>, hashed: seq<seq<bv32>>, born: seq<nat>, age: nat, hs: seq<bv32>)
    requires |d| >= 2 && |d| % 2 == 0 && Remembered(d, hashed, born, age) && KeyMarked(d, hs, age, age)
    ensures Remembered(d, hashed + [hs], born + [age], age)
  {
  }

  lemma MarkedNext(d: seq<bv64>, d': seq<bv64>, hashes: seq<bv32>, n: nat, age: nat)
    requires |d| == |d'| >= 2 && |d| % 2 == 0 && n < |hashes| && KeyMarked(d', hashes[..n], age, age)
    requires Marked(d, d', Pair(hashes[n], |d|), Mask(BitOf(hashes[n])), LabelOf(age))
    ensures KeyMarked(d', hashes[..n + 1], age, age)
  {
    var m := Mask(BitOf(hashes[n]));
    assert OneBit(m);
    assert LabelAt(d', Pair(hashes[n], |d|), m) == LabelOf(age);
    assert hashes[..n + 1] == hashes[..n] + [hashes[n]];
  }
}
