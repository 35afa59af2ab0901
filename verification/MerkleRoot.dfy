/** The root of a block (src/consensus/merkle.cpp): the computation in constant space, what it computes, and when the
    list of transactions can be read off the root. */
module MerkleRoot {
  import opened Hiding
  import opened NatMath
  import opened MerkleSpec

  // ----- complete subtrees -----

  /** How many complete subtrees of a height `c` leaves make. */
  function Blocks(c: nat, level: nat): nat {
    if level == 0 then c else Blocks(c, level - 1) / 2
  }

  lemma {:induction false} BlocksIs(c: nat, level: nat, p: nat)
    ensures p < Blocks(c, level) <==> (p + 1) * Pow(2, level) <= c
  {
    if level == 0 {
      assert Pow(2, 0) == 1;
    } else {
      BlocksIs(c, level - 1, 2 * p + 1);
      PowDouble(level);
      assert (p + 1) * (2 * Pow(2, level - 1)) == (2 * p + 1 + 1) * Pow(2, level - 1);
    }
  }

  lemma {:induction false} BlocksMono(c: nat, n: nat, level: nat)
    requires c <= n
    ensures Blocks(c, level) <= Blocks(n, level)
  {
    if level > 0 {
      BlocksMono(c, n, level - 1);
    }
  }

  /** The last subtree of a height may be incomplete. */
  lemma {:induction false} BlocksWidth(n: nat, level: nat)
    ensures Blocks(n, level) <= Width(n, level) <= Blocks(n, level) + 1
  {
    if level == 0 {
      LeafRange(n, 0);
    } else {
      BlocksWidth(n, level - 1);
      WidthHalves(n, level - 1);
    }
  }

  /** Counting one leaf more changes only the heights whose last subtree it completes. */
  lemma {:induction false} BlocksSame(c: nat, d: nat, level: nat, l: nat)
    requires level <= l && Blocks(c, level) == Blocks(d, level)
    ensures Blocks(c, l) == Blocks(d, l)
  {
    if level < l {
      BlocksSame(c, d, level, l - 1);
    }
  }

  // ----- neighbours with the same hash -----

  ghost predicate IsNode(h: PairHash, txids: seq<Hash>, level: nat, p: nat, r: Hash) {
    forall i :: Look(i) ==> r == if p < Width(|txids|, level) then CalcHash(h, txids, level, p) else 0
  }

  /** The hash of a node, if it exists: `CalcHash`, unfolded only on demand. */
  ghost function Node(h: PairHash, txids: seq<Hash>, level: nat, p: nat): Hash {
    assert IsNode(h, txids, level, p, if p < Width(|txids|, level) then CalcHash(h, txids, level, p) else 0);
    var r :| IsNode(h, txids, level, p, r);
    r
  }

  lemma NodeIs(h: PairHash, txids: seq<Hash>, level: nat, p: nat)
    requires p < Width(|txids|, level)
    ensures Node(h, txids, level, p) == CalcHash(h, txids, level, p)
  {
    assert Look(0);
  }

  /** Two complete subtrees that are hashed together are equal. */
  ghost predicate Twins(h: PairHash, txids: seq<Hash>, n: nat, level: nat, p: nat) {
    2 * p + 1 < Blocks(n, level) && Node(h, txids, level, 2 * p) == Node(h, txids, level, 2 * p + 1)
  }

  /** What the computation reports as mutated: among the first `n` leaves there are such twins. */
  ghost predicate Mutated(h: PairHash, txids: seq<Hash>, n: nat) {
    exists level: nat, p: nat :: Twins(h, txids, n, level, p)
  }

  /** The leaves below a node. */
  ghost function Leaves(txids: seq<Hash>, height: nat, pos: nat): seq<Hash>
    requires pos < Width(|txids|, height)
  {
    WidthIsLeafCount(|txids|, height, pos);
    PowPos(2, height);
    assert (pos + 1) * Pow(2, height) == pos * Pow(2, height) + Pow(2, height);
    txids[Lo(height, pos)..Hi(|txids|, height, pos)]
  }

  lemma LeavesSplit(txids: seq<Hash>, height: nat, pos: nat)
    requires height > 0 && pos < Width(|txids|, height)
    ensures 2 * pos < Width(|txids|, height - 1)
    ensures Leaves(txids, height, pos)
            == if HasRight(|txids|, height, pos)
               then Leaves(txids, height - 1, 2 * pos) + Leaves(txids, height - 1, 2 * pos + 1)
               else Leaves(txids, height - 1, 2 * pos)
  {
    Children(|txids|, height, pos);
  }

  /** Neighbours with the same leaves are both complete. */
  lemma EqualLeavesAreTwins(h: PairHash, txids: seq<Hash>, height: nat, pos: nat)
    requires height > 0 && pos < Width(|txids|, height) && HasRight(|txids|, height, pos)
    requires 2 * pos < Width(|txids|, height - 1)
    requires Leaves(txids, height - 1, 2 * pos) == Leaves(txids, height - 1, 2 * pos + 1)
    requires CalcHash(h, txids, height - 1, 2 * pos) == CalcHash(h, txids, height - 1, 2 * pos + 1)
    ensures Mutated(h, txids, |txids|)
  {
    var n, p := |txids|, Pow(2, height - 1);
    Children(n, height, pos);
    var a, b := Leaves(txids, height - 1, 2 * pos), Leaves(txids, height - 1, 2 * pos + 1);
    assert (2 * pos + 1) * p == 2 * pos * p + p && (2 * pos + 1 + 1) * p == (2 * pos + 1) * p + p;
    assert |a| == Hi(n, height - 1, 2 * pos) - Lo(height - 1, 2 * pos) == p;
    assert |b| == Hi(n, height - 1, 2 * pos + 1) - Lo(height - 1, 2 * pos + 1);
    BlocksIs(n, height - 1, 2 * pos + 1);
    NodeIs(h, txids, height - 1, 2 * pos);
    NodeIs(h, txids, height - 1, 2 * pos + 1);
    assert Twins(h, txids, n, height - 1, pos);
  }

  /** Nodes with the same hash stand for the same transactions, unless twins give one of the lists away. */
  lemma {:induction false} EqualNodes(h: PairHash, a: seq<Hash>, b: seq<Hash>, height: nat, p: nat, q: nat)
    requires Injective(h) && p < Width(|a|, height) && q < Width(|b|, height)
    requires CalcHash(h, a, height, p) == CalcHash(h, b, height, q)
    requires !Mutated(h, a, |a|) && !Mutated(h, b, |b|)
    ensures Leaves(a, height, p) == Leaves(b, height, q)
    decreases height
  {
    if height == 0 {
      LeafRange(|a|, p);
      LeafRange(|b|, q);
    } else {
      LeavesSplit(a, height, p);
      LeavesSplit(b, height, q);
      EqualNodes(h, a, b, height - 1, 2 * p, 2 * q);
      if HasRight(|a|, height, p) && HasRight(|b|, height, q) {
        EqualNodes(h, a, b, height - 1, 2 * p + 1, 2 * q + 1);
      } else if HasRight(|a|, height, p) {
        EqualNodes(h, a, a, height - 1, 2 * p, 2 * p + 1);
        EqualLeavesAreTwins(h, a, height, p);
      } else if HasRight(|b|, height, q) {
        EqualNodes(h, b, b, height - 1, 2 * q, 2 * q + 1);
        EqualLeavesAreTwins(h, b, height, q);
      }
    }
  }

  /** The root determines the transactions: two lists with trees of the same height and the same root are equal, unless
      one of them is reported as mutated. */
  lemma RootDeterminesList(h: PairHash, a: seq<Hash>, b: seq<Hash>)
    requires Injective(h) && |a| > 0 && |b| > 0 && TreeHeight(|a|) == TreeHeight(|b|)
    requires Root(h, a) == Root(h, b) && !Mutated(h, a, |a|) && !Mutated(h, b, |b|)
    ensures a == b
  {
    var height := TreeHeight(|a|);
    EqualNodes(h, a, b, height, 0, 0);
    RootRange(|a|);
    RootRange(|b|);
    assert Leaves(a, height, 0) == a && Leaves(b, height, 0) == b;
  }

  /** A list without repetitions is never reported. */
  lemma DistinctIsNotMutated(h: PairHash, txids: seq<Hash>)
    requires Injective(h) && Distinct(txids)
    ensures !Mutated(h, txids, |txids|)
  {
    forall level: nat, p: nat
      ensures !Twins(h, txids, |txids|, level, p)
    {
      if Twins(h, txids, |txids|, level, p) {
        BlocksWidth(|txids|, level);
        WidthHalves(|txids|, level);
        NodeIs(h, txids, level, 2 * p);
        NodeIs(h, txids, level, 2 * p + 1);
        SiblingsDiffer(h, txids, level + 1, p);
      }
    }
  }

  /** Repeating the last one of an odd number of transactions does not change the root, but is reported. */
  lemma RepeatedLastIsMutated(h: PairHash, txids: seq<Hash>)
    requires |txids| > 1 && |txids| % 2 == 1
    ensures var doubled := txids + [txids[|txids| - 1]];
            LevelRoot(h, doubled) == LevelRoot(h, txids) && Mutated(h, doubled, |doubled|)
  {
    var n := |txids|;
    var doubled := txids + [txids[n - 1]];
    assert Paired(h, doubled) == Paired(h, txids);
    LeafRange(n + 1, n - 1);
    LeafRange(n + 1, n);
    NodeIs(h, doubled, 0, n - 1);
    NodeIs(h, doubled, 0, n);
    assert Blocks(n + 1, 0) == n + 1 && 2 * ((n - 1) / 2) == n - 1;
    assert Twins(h, doubled, n + 1, 0, (n - 1) / 2);
  }

  // ----- the computation -----

  /** After `c` leaves, `inner` holds the last complete subtree of every height that has an odd number of them. */
  ghost predicate Collected(h: PairHash, txids: seq<Hash>, c: nat, inner: seq<Hash>) {
    forall l: nat :: l < |inner| && Blocks(c, l) % 2 == 1 ==> inner[l] == Node(h, txids, l, Blocks(c, l) - 1)
  }

  /** The next leaf completes twins of height `l`. */
  ghost predicate NewTwins(h: PairHash, txids: seq<Hash>, c: nat, l: nat) {
    Twins(h, txids, c + 1, l, Blocks(c, l) / 2)
  }

  ghost predicate NewTwinsBelow(h: PairHash, txids: seq<Hash>, c: nat, level: nat) {
    exists l: nat :: l < level && NewTwins(h, txids, c, l)
  }

  /** From `c` leaves to `d`, one more, all heights below `level` have become even. */
  ghost predicate Carried(c: nat, d: nat, level: nat) {
    d == c + 1 && Blocks(d, level) == Blocks(c, level) + 1 && forall l: nat :: l < level ==> Blocks(d, l) % 2 == 0
  }

  lemma CarryNext(c: nat, d: nat, level: nat)
    requires Carried(c, d, level) && Blocks(d, level) % 2 == 0
    ensures Carried(c, d, level + 1)
  {
  }

  lemma LevelBound(c: nat, level: nat)
    requires Blocks(c, level) >= 2 && c <= 0x8000_0000
    ensures level + 1 < 32
  {
    BlocksIs(c, level, 1);
    PowDouble(level + 1);
    assert Pow(2, level + 1) <= c;
    if level + 1 >= 32 {
      PowMono(2, 32, level + 1);
      PowThirtyTwo();
    }
  }

  lemma PowThirtyTwo()
    ensures Pow(2, 32) == 0x1_0000_0000
  {
    assert Pow(2, 8) == 256;
    PowAdd(2, 8, 8);
    PowAdd(2, 16, 16);
  }

  /** The last complete subtree and the one before it make the next. */
  lemma Combine(h: PairHash, txids: seq<Hash>, c: nat, d: nat, level: nat)
    requires c < |txids| && Carried(c, d, level) && Blocks(d, level) % 2 == 0
    ensures var p := Blocks(c, level);
            && p % 2 == 1
            && Node(h, txids, level + 1, Blocks(c, level + 1))
               == h(Node(h, txids, level, p - 1), Node(h, txids, level, p))
            && (NewTwins(h, txids, c, level) <==> Node(h, txids, level, p - 1) == Node(h, txids, level, p))
  {
    BlocksMono(d, |txids|, level);
    BlocksWidth(|txids|, level);
    NodePaired(h, txids, level, Blocks(c, level + 1));
  }

  lemma NodePaired(h: PairHash, txids: seq<Hash>, level: nat, p: nat)
    requires 2 * p + 1 < Width(|txids|, level)
    ensures Node(h, txids, level + 1, p) == h(Node(h, txids, level, 2 * p), Node(h, txids, level, 2 * p + 1))
  {
    WidthHalves(|txids|, level);
    Children(|txids|, level + 1, p);
    NodeIs(h, txids, level, 2 * p);
    NodeIs(h, txids, level, 2 * p + 1);
    NodeIs(h, txids, level + 1, p);
  }

  lemma CollectedNext(h: PairHash, txids: seq<Hash>, c: nat, d: nat, level: nat, inner: seq<Hash>, hash: Hash)
    requires Collected(h, txids, c, inner) && Carried(c, d, level) && Blocks(d, level) % 2 == 1
    requires level < |inner| && hash == Node(h, txids, level, Blocks(c, level))
    ensures Collected(h, txids, d, inner[level := hash])
  {
    forall l: nat | l < |inner| && Blocks(d, l) % 2 == 1
      ensures inner[level := hash][l] == Node(h, txids, l, Blocks(d, l) - 1)
    {
      if l > level {
        BlocksSame(c, d, level + 1, l);
      }
    }
  }

  /** No twins are completed at the height where the carry ends, or above. */
  lemma NoTwinsAbove(h: PairHash, txids: seq<Hash>, c: nat, d: nat, level: nat, l: nat)
    requires Carried(c, d, level) && Blocks(d, level) % 2 == 1 && level <= l
    ensures !NewTwins(h, txids, c, l)
  {
    if l > level {
      BlocksSame(c, d, level + 1, l);
    }
  }

  /** The first loop, for one leaf. */
  method AddLeaf(h: PairHash, txids: seq<Hash>, c: nat, inner: array<Hash>) returns (mutated: bool)
    requires c < |txids| <= 0x8000_0000 && inner.Length == 32 && Collected(h, txids, c, inner[..])
    modifies inner
    ensures Collected(h, txids, c + 1, inner[..])
    ensures mutated <==> exists l: nat :: NewTwins(h, txids, c, l)
  {
    var hash, level, d := txids[c], 0, c + 1;
    mutated := false;
    LeafRange(|txids|, c);
    NodeIs(h, txids, 0, c);
    while Blocks(d, level) % 2 == 0
      invariant level < 32 && Carried(c, d, level) && inner[..] == old(inner[..])
      invariant hash == Node(h, txids, level, Blocks(c, level))
      invariant mutated <==> NewTwinsBelow(h, txids, c, level)
      decreases Blocks(d, level)
    {
      Combine(h, txids, c, d, level);
      LevelBound(d, level);
      assert inner[..][level] == Node(h, txids, level, Blocks(c, level) - 1);
      if inner[level] == hash {
        mutated := true;
      }
      hash := h(inner[level], hash);
      CarryNext(c, d, level);
      level := level + 1;
    }
    CollectedNext(h, txids, c, d, level, inner[..], hash);
    inner[level] := hash;
    forall l: nat | level <= l
      ensures !NewTwins(h, txids, c, l)
    {
      NoTwinsAbove(h, txids, c, d, level, l);
    }
  }

  lemma {:induction false} BlocksStep(c: nat, level: nat)
    ensures Blocks(c, level) <= Blocks(c + 1, level) <= Blocks(c, level) + 1
  {
    if level > 0 {
      BlocksStep(c, level - 1);
    }
  }

  lemma MutatedNext(h: PairHash, txids: seq<Hash>, c: nat)
    ensures Mutated(h, txids, c + 1) <==> Mutated(h, txids, c) || exists l: nat :: NewTwins(h, txids, c, l)
  {
    var d := c + 1;
    forall level: nat, p: nat
      ensures Twins(h, txids, c, level, p) ==> Twins(h, txids, d, level, p)
      ensures Twins(h, txids, d, level, p) ==> Twins(h, txids, c, level, p) || NewTwins(h, txids, c, level)
    {
      BlocksStep(c, level);
    }
    if exists l: nat :: NewTwins(h, txids, c, l) {
      var l: nat :| NewTwins(h, txids, c, l);
      assert Twins(h, txids, d, l, Blocks(c, l) / 2);
    }
  }

  // ----- the sweep over the last branch -----

  lemma WidthBound(n: nat, level: nat)
    requires Width(n, level) >= 2 && n <= 0x8000_0000
    ensures level + 1 < 32
  {
    WidthIsLeafCount(n, level, 1);
    if level >= 31 {
      PowMono(2, 31, level);
      PowDouble(32);
      PowThirtyTwo();
    }
  }

  lemma BlocksOfMultiple(w: nat, level: nat)
    ensures Blocks(w * Pow(2, level), level) == w
  {
    var c, p := w * Pow(2, level), Pow(2, level);
    PowPos(2, level);
    BlocksIs(c, level, w);
    assert (w + 1) * p == c + p;
    if w > 0 {
      BlocksIs(c, level, w - 1);
    }
  }

  /** `hash` is the last node of its height, of which there are `w`; rounded up to complete subtrees of that height the
      number of leaves is `count`. */
  ghost predicate SweptForm(h: PairHash, txids: seq<Hash>, level: nat, w: nat, count: nat, hash: Hash) {
    && w > 0 && w == Width(|txids|, level) && count == w * Pow(2, level) && hash == Node(h, txids, level, w - 1)
    && (level > 0 ==> Width(|txids|, level - 1) > 1)
  }

  ghost predicate IsSwept(h: PairHash, txids: seq<Hash>, level: nat, w: nat, count: nat, hash: Hash, ok: bool) {
    forall i :: Look(i) ==> ok == SweptForm(h, txids, level, w, count, hash)
  }

  /** `SweptForm`, unfolded only on demand. */
  ghost predicate Swept(h: PairHash, txids: seq<Hash>, level: nat, w: nat, count: nat, hash: Hash) {
    assert IsSwept(h, txids, level, w, count, hash, SweptForm(h, txids, level, w, count, hash));
    var ok :| IsSwept(h, txids, level, w, count, hash, ok);
    ok
  }

  lemma SweptIs(h: PairHash, txids: seq<Hash>, level: nat, w: nat, count: nat, hash: Hash)
    ensures Swept(h, txids, level, w, count, hash) <==> SweptForm(h, txids, level, w, count, hash)
  {
    assert Look(0);
  }

  lemma SweptBits(h: PairHash, txids: seq<Hash>, level: nat, w: nat, count: nat, hash: Hash)
    requires Swept(h, txids, level, w, count, hash)
    ensures w > 0 && Blocks(count, level) == w && (count == Pow(2, level) <==> w == 1)
    ensures w >= 2 && |txids| <= 0x8000_0000 ==> level + 1 < 32
  {
    SweptIs(h, txids, level, w, count, hash);
    if w >= 2 && |txids| <= 0x8000_0000 {
      WidthBound(|txids|, level);
    }
    BlocksOfMultiple(w, level);
    PowPos(2, level);
    if count == Pow(2, level) {
      BlocksOfMultiple(1, level);
    }
  }

  /** A last node without a neighbour is hashed with itself. */
  lemma SweepOdd(h: PairHash, txids: seq<Hash>, level: nat, w: nat, count: nat, hash: Hash)
    requires Swept(h, txids, level, w, count, hash) && w % 2 == 1 && w > 1
    ensures Swept(h, txids, level + 1, (w + 1) / 2, count + Pow(2, level), h(hash, hash))
    ensures (w + 1) / 2 == Blocks(|txids|, level + 1) + 1
  {
    var n := |txids|;
    SweptIs(h, txids, level, w, count, hash);
    SweptIs(h, txids, level + 1, (w + 1) / 2, count + Pow(2, level), h(hash, hash));
    WidthHalves(n, level);
    BlocksWidth(n, level);
    RoundedUp((w + 1) / 2, level);
    assert w + 1 == 2 * ((w + 1) / 2);
    NodeAlone(h, txids, level, (w - 1) / 2);
  }

  lemma RoundedUp(v: nat, level: nat)
    ensures v * Pow(2, level + 1) == 2 * v * Pow(2, level)
    ensures v > 0 ==> (2 * v - 1) * Pow(2, level) + Pow(2, level) == 2 * v * Pow(2, level)
  {
    PowDouble(level + 1);
    assert v * (2 * Pow(2, level)) == 2 * v * Pow(2, level);
  }

  lemma NodeAlone(h: PairHash, txids: seq<Hash>, level: nat, p: nat)
    requires Width(|txids|, level) == 2 * p + 1
    ensures Node(h, txids, level + 1, p) == h(Node(h, txids, level, 2 * p), Node(h, txids, level, 2 * p))
  {
    WidthHalves(|txids|, level);
    Children(|txids|, level + 1, p);
    NodeIs(h, txids, level, 2 * p);
    NodeIs(h, txids, level + 1, p);
  }

  /** A last node with a neighbour is hashed with it. */
  lemma SweepEven(h: PairHash, txids: seq<Hash>, level: nat, w: nat, count: nat, hash: Hash)
    requires Swept(h, txids, level, w, count, hash) && w % 2 == 0 && w == Blocks(|txids|, level) + 1
    ensures Swept(h, txids, level + 1, w / 2, count, h(Node(h, txids, level, w - 2), hash))
    ensures w / 2 == Blocks(|txids|, level + 1) + 1
  {
    SweptIs(h, txids, level, w, count, hash);
    SweptIs(h, txids, level + 1, w / 2, count, h(Node(h, txids, level, w - 2), hash));
    WidthHalves(|txids|, level);
    RoundedUp(w / 2, level);
    assert w == 2 * (w / 2);
    NodePaired(h, txids, level, w / 2 - 1);
  }

  /** Goes up while the last node has a neighbour. */
  method Climb(h: PairHash, txids: seq<Hash>, inner: array<Hash>, level0: nat, ghost w0: nat, count: nat, hash0: Hash)
    returns (level: nat, ghost w: nat, hash: Hash)
    requires |txids| <= 0x8000_0000 && inner.Length == 32 && Collected(h, txids, |txids|, inner[..])
    requires Swept(h, txids, level0, w0, count, hash0) && w0 == Blocks(|txids|, level0) + 1
    ensures Swept(h, txids, level, w, count, hash) && w == Blocks(|txids|, level) + 1 && w % 2 == 1 && w <= w0
    ensures level >= level0 && hash == Node(h, txids, level, Blocks(|txids|, level)) && Blocks(count, level) % 2 == 1
  {
    level, hash, w := level0, hash0, w0;
    SweptBits(h, txids, level, w, count, hash);
    while Blocks(count, level) % 2 == 0
      invariant Swept(h, txids, level, w, count, hash) && w == Blocks(|txids|, level) + 1 && w <= w0
      invariant Blocks(count, level) == w && level >= level0
      decreases w
    {
      SweptBits(h, txids, level, w, count, hash);
      assert inner[..][level] == Node(h, txids, level, w - 2);
      SweepEven(h, txids, level, w, count, hash);
      hash := h(inner[level], hash);
      level, w := level + 1, w / 2;
      SweptBits(h, txids, level, w, count, hash);
    }
    SweptIs(h, txids, level, w, count, hash);
  }

  /** The second loop. */
  method Sweep(h: PairHash, txids: seq<Hash>, inner: array<Hash>) returns (hash: Hash)
    requires 0 < |txids| <= 0x8000_0000 && inner.Length == 32 && Collected(h, txids, |txids|, inner[..])
    ensures hash == LevelRoot(h, txids)
  {
    var count: nat, level: nat := |txids|, 0;
    while Blocks(count, level) % 2 == 0
      invariant Blocks(count, level) > 0 && (level > 0 ==> Blocks(count, level - 1) > 1) && level < 32
      invariant count == Blocks(count, level) * Pow(2, level)
      decreases Blocks(count, level)
    {
      LevelBound(count, level);
      RoundedUp(Blocks(count, level) / 2, level);
      level := level + 1;
    }
    assert inner[..][level] == Node(h, txids, level, Blocks(count, level) - 1);
    hash := inner[level];
    ghost var w := Blocks(count, level);
    SweepStarts(h, txids, level, w, hash);
    while count != Pow(2, level)
      invariant Swept(h, txids, level, w, count, hash) && w % 2 == 1
      invariant count == Pow(2, level) <==> w == 1
      decreases w
    {
      SweepOdd(h, txids, level, w, count, hash);
      hash := h(hash, hash);
      count := count + Pow(2, level);
      level := level + 1;
      level, w, hash := Climb(h, txids, inner, level, (w + 1) / 2, count, hash);
      SweptBits(h, txids, level, w, count, hash);
    }
    SweepEnds(h, txids, level, count, hash);
  }

  lemma SweepStarts(h: PairHash, txids: seq<Hash>, level: nat, w: nat, hash: Hash)
    requires w == Blocks(|txids|, level) > 0 && |txids| == w * Pow(2, level) && hash == Node(h, txids, level, w - 1)
    requires level > 0 ==> Blocks(|txids|, level - 1) > 1
    ensures Swept(h, txids, level, w, |txids|, hash) && (|txids| == Pow(2, level) <==> w == 1)
  {
    SweptIs(h, txids, level, w, |txids|, hash);
    BlocksWidth(|txids|, level);
    WidthIsLeafCount(|txids|, level, w);
    if level > 0 {
      BlocksWidth(|txids|, level - 1);
    }
    SweptBits(h, txids, level, w, |txids|, hash);
  }

  lemma SweepEnds(h: PairHash, txids: seq<Hash>, level: nat, count: nat, hash: Hash)
    requires Swept(h, txids, level, 1, count, hash)
    ensures |txids| > 0 && hash == LevelRoot(h, txids)
  {
    SweptIs(h, txids, level, 1, count, hash);
    WidthIsLeafCount(|txids|, level, 0);
    NodeIs(h, txids, level, 0);
    RootFrom(h, txids, 0, level);
    NodesAreLeaves(h, txids);
  }

  /** `ComputeMerkleRoot`: zero for no transactions, and otherwise the hash that is left when they are paired level by
      level.  The flag tells whether two complete subtrees that are hashed together are equal. */
  method ComputeMerkleRoot(h: PairHash, txids: seq<Hash>) returns (root: Hash, mutated: bool)
    requires |txids| <= 0x8000_0000
    ensures root == if txids == [] then 0 else LevelRoot(h, txids)
    ensures mutated <==> Mutated(h, txids, |txids|)
  {
    mutated := false;
    NothingYet(h, txids);
    if |txids| == 0 {
      return 0, false;
    }
    var inner := new Hash[32](_ => 0);
    for count := 0 to |txids|
      invariant Collected(h, txids, count, inner[..])
      invariant mutated <==> Mutated(h, txids, count)
    {
      var twins := AddLeaf(h, txids, count, inner);
      MutatedNext(h, txids, count);
      mutated := mutated || twins;
    }
    root := Sweep(h, txids, inner);
  }

  lemma {:induction false} NoBlocks(level: nat)
    ensures Blocks(0, level) == 0
  {
    if level > 0 {
      NoBlocks(level - 1);
    }
  }

  lemma NothingYet(h: PairHash, txids: seq<Hash>)
    ensures !Mutated(h, txids, 0) && forall inner :: Collected(h, txids, 0, inner)
  {
    forall level: nat
      ensures Blocks(0, level) == 0
    {
      NoBlocks(level);
    }
  }
}
