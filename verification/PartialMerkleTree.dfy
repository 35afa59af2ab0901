/** Partial Merkle trees (src/merkleblock.cpp, src/merkleblock.h; the section "Partial Merkle branch format"
    of BIP 37): the value-level encoder and decoder and what they promise each other. */
module MerkleSpec {
  import opened Hiding
  import opened NatMath

  type Hash = nat
  type PairHash = (Hash, Hash) -> Hash

  ghost predicate Injective(h: PairHash) {
    forall a, b, c, d :: h(a, b) == h(c, d) ==> a == c && b == d
  }

  /** `CalcTreeWidth`: the number of nodes at a height. */
  function Width(n: nat, height: nat): (w: nat)
    ensures n > 0 ==> w > 0
  {
    PowPos(2, height);
    var p := Pow(2, height);
    WidthPositive(n, p);
    (n + p - 1) / p
  }

  lemma WidthPositive(n: nat, p: nat)
    requires p > 0
    ensures n > 0 ==> (n + p - 1) / p > 0
  {
    if n > 0 {
      var q := (n + p - 1) / p;
      assert n + p - 1 == q * p + (n + p - 1) % p;
      if q <= 0 {
        MulMono(q, 0, p);
      }
    }
  }

  /** A node exists exactly when its first leaf does. */
  lemma WidthIsLeafCount(n: nat, height: nat, pos: nat)
    ensures pos < Width(n, height) <==> pos * Pow(2, height) < n
  {
    PowPos(2, height);
    var p := Pow(2, height);
    var q, r := (n + p - 1) / p, (n + p - 1) % p;
    assert n + p - 1 == q * p + r;
    if pos < q {
      MulMono(pos + 1, q, p);
      assert (pos + 1) * p == pos * p + p;
    } else {
      MulMono(q, pos, p);
    }
  }

  lemma PowDouble(height: nat)
    requires height > 0
    ensures Pow(2, height) == 2 * Pow(2, height - 1)
  {
  }

  /** The leaves below a node: from `Lo` up to, and not including, `Hi`. */
  function Lo(height: nat, pos: nat): nat { pos * Pow(2, height) }

  function Hi(n: nat, height: nat, pos: nat): nat {
    if (pos + 1) * Pow(2, height) < n then (pos + 1) * Pow(2, height) else n
  }

  predicate HasRight(n: nat, height: nat, pos: nat)
    requires height > 0
  {
    2 * pos + 1 < Width(n, height - 1)
  }

  /** The children of a node split its leaves. */
  lemma Children(n: nat, height: nat, pos: nat)
    requires height > 0 && pos < Width(n, height)
    ensures 2 * pos < Width(n, height - 1)
    ensures Lo(height, pos) < Hi(n, height, pos) <= n
    ensures Lo(height - 1, 2 * pos) == Lo(height, pos)
    ensures HasRight(n, height, pos) ==>
              Hi(n, height - 1, 2 * pos) == Lo(height - 1, 2 * pos + 1) < Hi(n, height - 1, 2 * pos + 1)
                  == Hi(n, height, pos)
    ensures !HasRight(n, height, pos) ==> Hi(n, height - 1, 2 * pos) == Hi(n, height, pos)
  {
    var p := Pow(2, height - 1);
    PowPos(2, height - 1);
    PowDouble(height);
    WidthIsLeafCount(n, height, pos);
    WidthIsLeafCount(n, height - 1, 2 * pos);
    WidthIsLeafCount(n, height - 1, 2 * pos + 1);
    assert pos * (2 * p) == 2 * pos * p;
    assert (pos + 1) * (2 * p) == 2 * pos * p + 2 * p;
    assert (2 * pos + 1) * p == 2 * pos * p + p;
    assert (2 * pos + 1 + 1) * p == 2 * pos * p + 2 * p;
  }

  lemma LeafRange(n: nat, pos: nat)
    ensures Width(n, 0) == n && Lo(0, pos) == pos
    ensures pos < n ==> Hi(n, 0, pos) == pos + 1
  {
    assert Pow(2, 0) == 1;
  }

  /** `CalcHash`: the hash of a node. */
  function CalcHash(h: PairHash, txids: seq<Hash>, height: nat, pos: nat): Hash
    requires pos < Width(|txids|, height)
    decreases height
  {
    if height == 0 then
      LeafRange(|txids|, pos);
      txids[pos]
    else
      Children(|txids|, height, pos);
      var left := CalcHash(h, txids, height - 1, 2 * pos);
      var right := if HasRight(|txids|, height, pos) then CalcHash(h, txids, height - 1, 2 * pos + 1) else left;
      h(left, right)
  }

  function HeightFrom(n: nat, height: nat): (r: nat)
    ensures Width(n, r) <= 1 && height <= r && (r > height ==> Width(n, r - 1) > 1)
    decreases n - Pow(2, height)
  {
    WidthIsLeafCount(n, height, 1);
    PowPos(2, height);
    if Width(n, height) > 1 then HeightFrom(n, height + 1) else height
  }

  /** The height of the tree over `n` leaves: the least with a single node. */
  function TreeHeight(n: nat): (r: nat)
    ensures Width(n, r) <= 1 && (r > 0 ==> Width(n, r - 1) > 1)
  {
    HeightFrom(n, 0)
  }

  function Root(h: PairHash, txids: seq<Hash>): Hash
    requires |txids| > 0
  {
    CalcHash(h, txids, TreeHeight(|txids|), 0)
  }

  // ----- the root, level by level -----

  /** The hashes of neighbours; the last one of an odd number goes with itself. */
  function Paired(h: PairHash, level: seq<Hash>): (r: seq<Hash>)
    ensures |r| == (|level| + 1) / 2
  {
    seq((|level| + 1) / 2, i requires 0 <= i < (|level| + 1) / 2 =>
      h(level[2 * i], if 2 * i + 1 < |level| then level[2 * i + 1] else level[2 * i]))
  }

  /** The one hash that is left after pairing again and again. */
  function LevelRoot(h: PairHash, level: seq<Hash>): Hash
    requires |level| > 0
    decreases |level|
  {
    if |level| == 1 then level[0] else LevelRoot(h, Paired(h, level))
  }

  /** All nodes of one height. */
  ghost function Nodes(h: PairHash, txids: seq<Hash>, height: nat): (r: seq<Hash>)
    ensures |r| == Width(|txids|, height)
    ensures forall i :: 0 <= i < |r| ==> r[i] == CalcHash(h, txids, height, i)
  {
    seq(Width(|txids|, height), i requires 0 <= i < Width(|txids|, height) => CalcHash(h, txids, height, i))
  }

  lemma WidthHalves(n: nat, height: nat)
    ensures Width(n, height + 1) == (Width(n, height) + 1) / 2
  {
    var w, w1 := Width(n, height), Width(n, height + 1);
    PowDouble(height + 1);
    WidthIsLeafCount(n, height + 1, w1);
    WidthIsLeafCount(n, height, 2 * w1);
    assert w1 * Pow(2, height + 1) == 2 * w1 * Pow(2, height);
    if w1 > 0 {
      WidthIsLeafCount(n, height + 1, w1 - 1);
      WidthIsLeafCount(n, height, 2 * (w1 - 1));
      assert (w1 - 1) * Pow(2, height + 1) == 2 * (w1 - 1) * Pow(2, height);
    }
  }

  lemma NodesPair(h: PairHash, txids: seq<Hash>, height: nat)
    ensures Nodes(h, txids, height + 1) == Paired(h, Nodes(h, txids, height))
  {
    var n := |txids|;
    var level, next := Nodes(h, txids, height), Nodes(h, txids, height + 1);
    WidthHalves(n, height);
    forall i | 0 <= i < |next|
      ensures next[i] == Paired(h, level)[i]
    {
      Children(n, height + 1, i);
    }
  }

  lemma LevelStep(h: PairHash, level: seq<Hash>, next: seq<Hash>)
    requires |level| > 1 && next == Paired(h, level)
    ensures LevelRoot(h, level) == LevelRoot(h, next)
  {
  }

  lemma LevelDone(h: PairHash, level: seq<Hash>)
    requires |level| == 1
    ensures LevelRoot(h, level) == level[0]
  {
  }

  lemma {:induction false} RootFrom(h: PairHash, txids: seq<Hash>, height: nat, top: nat)
    requires height <= top && Width(|txids|, top) == 1 && (height < top ==> Width(|txids|, top - 1) > 1)
    ensures Width(|txids|, height) > 0
    ensures LevelRoot(h, Nodes(h, txids, height)) == CalcHash(h, txids, top, 0)
    decreases top - height
  {
    var n := |txids|;
    if height == top {
      LevelDone(h, Nodes(h, txids, top));
    } else {
      WidthShrinks(n, height, top - 1);
      RootFrom(h, txids, height + 1, top);
      NodesPair(h, txids, height);
      LevelStep(h, Nodes(h, txids, height), Nodes(h, txids, height + 1));
    }
  }

  lemma {:induction false} WidthShrinks(n: nat, a: nat, b: nat)
    requires a <= b
    ensures Width(n, b) <= Width(n, a)
    decreases b
  {
    if a < b {
      WidthShrinks(n, a, b - 1);
      WidthHalves(n, b - 1);
    }
  }

  /** The root of the tree is the hash that is left when the transactions are paired level by level. */
  lemma RootIsLevelRoot(h: PairHash, txids: seq<Hash>)
    requires |txids| > 0
    ensures Root(h, txids) == LevelRoot(h, txids)
  {
    RootFrom(h, txids, 0, TreeHeight(|txids|));
    NodesAreLeaves(h, txids);
  }

  lemma NodesAreLeaves(h: PairHash, txids: seq<Hash>)
    ensures Nodes(h, txids, 0) == txids
  {
    LeafRange(|txids|, 0);
    forall i | 0 <= i < |txids|
      ensures Nodes(h, txids, 0)[i] == txids[i]
    {
      LeafRange(|txids|, i);
    }
  }

  // ----- the encoder -----

  datatype Encoded = Encoded(bits: seq<bool>, hashes: seq<Hash>)

  ghost predicate AnyMatch(mask: seq<bool>, lo: nat, hi: nat)
    requires hi <= |mask|
  {
    exists p :: lo <= p < hi && mask[p]
  }

  /** `TraverseAndBuild`: depth first, a bit for every node visited, a hash for every node not entered. */
  ghost function Build(h: PairHash, txids: seq<Hash>, mask: seq<bool>, height: nat, pos: nat): Encoded
    requires |mask| == |txids| && pos < Width(|txids|, height)
    decreases height
  {
    var n := |txids|;
    var parent := AnyMatch(mask, Lo(height, pos), Hi(n, height, pos));
    if height == 0 || !parent then Encoded([parent], [CalcHash(h, txids, height, pos)])
    else
      Children(n, height, pos);
      var left := Build(h, txids, mask, height - 1, 2 * pos);
      if HasRight(n, height, pos) then
        var right := Build(h, txids, mask, height - 1, 2 * pos + 1);
        Encoded([true] + left.bits + right.bits, left.hashes + right.hashes)
      else Encoded([true] + left.bits, left.hashes)
  }

  // ----- the decoder -----

  datatype Extracted = Extracted(hash: Hash, bitsUsed: nat, hashUsed: nat, matches: seq<Hash>, indexes: seq<nat>,
                                 bad: bool)

  /** `TraverseAndExtract`: walks the same tree, consuming bits and hashes.  It does not stop at bad data. */
  function Extract(h: PairHash, n: nat, bits: seq<bool>, hashes: seq<Hash>, height: nat, pos: nat, nb: nat,
                   nh: nat): (r: Extracted)
    ensures |r.matches| == |r.indexes|
    decreases height
  {
    if nb >= |bits| then Extracted(0, nb, nh, [], [], true)
    else if height == 0 || !bits[nb] then
      if nh >= |hashes| then Extracted(0, nb + 1, nh, [], [], true)
      else if height == 0 && bits[nb] then Extracted(hashes[nh], nb + 1, nh + 1, [hashes[nh]], [pos], false)
      else Extracted(hashes[nh], nb + 1, nh + 1, [], [], false)
    else
      var left := Extract(h, n, bits, hashes, height - 1, 2 * pos, nb + 1, nh);
      if HasRight(n, height, pos) then
        var right := Extract(h, n, bits, hashes, height - 1, 2 * pos + 1, left.bitsUsed, left.hashUsed);
        Extracted(h(left.hash, right.hash), right.bitsUsed, right.hashUsed, left.matches + right.matches,
                  left.indexes + right.indexes, left.bad || right.bad || right.hash == left.hash)
      else left.(hash := h(left.hash, left.hash))
  }

  ghost predicate IsTraversed(r: Extracted, h: PairHash, n: nat, bits: seq<bool>, hashes: seq<Hash>, height: nat,
                              pos: nat, nb: nat, nh: nat)
  {
    forall i :: Look(i) ==> r == Extract(h, n, bits, hashes, height, pos, nb, nh)
  }

  /** `Extract`, unfolded only by the two lemmas below. */
  ghost function Traversed(h: PairHash, n: nat, bits: seq<bool>, hashes: seq<Hash>, height: nat, pos: nat, nb: nat,
                           nh: nat): Extracted
  {
    assert IsTraversed(Extract(h, n, bits, hashes, height, pos, nb, nh), h, n, bits, hashes, height, pos, nb, nh);
    var r: Extracted :| IsTraversed(r, h, n, bits, hashes, height, pos, nb, nh);
    r
  }

  lemma TraversedIs(h: PairHash, n: nat, bits: seq<bool>, hashes: seq<Hash>, height: nat, pos: nat, nb: nat, nh: nat)
    ensures Traversed(h, n, bits, hashes, height, pos, nb, nh) == Extract(h, n, bits, hashes, height, pos, nb, nh)
  {
    assert Look(0);
  }

  lemma TraversedLeaf(h: PairHash, n: nat, bits: seq<bool>, hashes: seq<Hash>, height: nat, pos: nat, nb: nat, nh: nat)
    requires nb < |bits| ==> height == 0 || !bits[nb]
    ensures Traversed(h, n, bits, hashes, height, pos, nb, nh)
              == if nb >= |bits| then Extracted(0, nb, nh, [], [], true)
                 else if nh >= |hashes| then Extracted(0, nb + 1, nh, [], [], true)
                 else if bits[nb] then Extracted(hashes[nh], nb + 1, nh + 1, [hashes[nh]], [pos], false)
                 else Extracted(hashes[nh], nb + 1, nh + 1, [], [], false)
  {
    TraversedIs(h, n, bits, hashes, height, pos, nb, nh);
  }

  lemma TraversedNode(h: PairHash, n: nat, bits: seq<bool>, hashes: seq<Hash>, height: nat, pos: nat, nb: nat, nh: nat)
    requires nb < |bits| && height > 0 && bits[nb]
    ensures var left := Traversed(h, n, bits, hashes, height - 1, 2 * pos, nb + 1, nh);
            var right := Traversed(h, n, bits, hashes, height - 1, 2 * pos + 1, left.bitsUsed, left.hashUsed);
            Traversed(h, n, bits, hashes, height, pos, nb, nh)
              == if !HasRight(n, height, pos) then left.(hash := h(left.hash, left.hash))
                 else Extracted(h(left.hash, right.hash), right.bitsUsed, right.hashUsed, left.matches + right.matches,
                                left.indexes + right.indexes, left.bad || right.bad || right.hash == left.hash)
  {
    var left := Traversed(h, n, bits, hashes, height - 1, 2 * pos, nb + 1, nh);
    TraversedIs(h, n, bits, hashes, height, pos, nb, nh);
    TraversedIs(h, n, bits, hashes, height - 1, 2 * pos, nb + 1, nh);
    TraversedIs(h, n, bits, hashes, height - 1, 2 * pos + 1, left.bitsUsed, left.hashUsed);
  }

  /** Every reported match is the transaction at the reported position. */
  ghost predicate Authentic(txids: seq<Hash>, matches: seq<Hash>, indexes: seq<nat>) {
    && |matches| == |indexes|
    && forall i :: 0 <= i < |matches| ==> indexes[i] < |txids| && txids[indexes[i]] == matches[i]
  }

  // ----- encoder and decoder together -----

  /** The matched positions in a range of leaves, in order. */
  function Matched(mask: seq<bool>, lo: nat, hi: nat): (r: seq<nat>)
    requires hi <= |mask|
    ensures forall i :: 0 <= i < |r| ==> lo <= r[i] < hi && mask[r[i]]
    decreases hi
  {
    if hi <= lo then [] else Matched(mask, lo, hi - 1) + if mask[hi - 1] then [hi - 1] else []
  }

  function Pick(txids: seq<Hash>, at: seq<nat>): (r: seq<Hash>)
    requires forall i :: 0 <= i < |at| ==> at[i] < |txids|
    ensures |r| == |at| && forall i :: 0 <= i < |at| ==> r[i] == txids[at[i]]
  {
    seq(|at|, i requires 0 <= i < |at| => txids[at[i]])
  }

  lemma {:induction false} MatchedSplit(mask: seq<bool>, lo: nat, mid: nat, hi: nat)
    requires lo <= mid <= hi <= |mask|
    ensures Matched(mask, lo, hi) == Matched(mask, lo, mid) + Matched(mask, mid, hi)
    decreases hi
  {
    if mid < hi {
      MatchedSplit(mask, lo, mid, hi - 1);
      var last := if mask[hi - 1] then [hi - 1] else [];
      assert Matched(mask, lo, mid) + (Matched(mask, mid, hi - 1) + last)
          == (Matched(mask, lo, mid) + Matched(mask, mid, hi - 1)) + last;
    }
  }

  lemma {:induction false} NothingMatched(mask: seq<bool>, lo: nat, hi: nat)
    requires hi <= |mask|
    ensures Matched(mask, lo, hi) == [] <==> !AnyMatch(mask, lo, hi)
    decreases hi
  {
    if lo < hi {
      NothingMatched(mask, lo, hi - 1);
    }
  }

  /** `Matched` lists exactly the matched positions of the range, once each and in ascending order. */
  lemma {:induction false} MatchedIsExact(mask: seq<bool>, lo: nat, hi: nat)
    requires hi <= |mask|
    ensures forall p :: lo <= p < hi && mask[p] ==> p in Matched(mask, lo, hi)
    ensures forall i, j :: 0 <= i < j < |Matched(mask, lo, hi)| ==> Matched(mask, lo, hi)[i] < Matched(mask, lo, hi)[j]
    decreases hi
  {
    if lo < hi {
      MatchedIsExact(mask, lo, hi - 1);
    }
  }

  ghost predicate Distinct(txids: seq<Hash>) {
    forall i, j :: 0 <= i < j < |txids| ==> txids[i] != txids[j]
  }

  /** Equal node hashes at one height have equal first leaves. */
  lemma {:induction false} FirstLeaf(h: PairHash, txids: seq<Hash>, height: nat, p: nat, q: nat)
    requires Injective(h) && p < Width(|txids|, height) && q < Width(|txids|, height)
    requires CalcHash(h, txids, height, p) == CalcHash(h, txids, height, q)
    ensures Lo(height, p) < |txids| && Lo(height, q) < |txids| && txids[Lo(height, p)] == txids[Lo(height, q)]
    decreases height
  {
    WidthIsLeafCount(|txids|, height, p);
    WidthIsLeafCount(|txids|, height, q);
    if height == 0 {
      LeafRange(|txids|, p);
      LeafRange(|txids|, q);
    } else {
      Children(|txids|, height, p);
      Children(|txids|, height, q);
      FirstLeaf(h, txids, height - 1, 2 * p, 2 * q);
    }
  }

  /** Siblings never have the same hash, so the decoder's check for equal branches never fires. */
  lemma SiblingsDiffer(h: PairHash, txids: seq<Hash>, height: nat, pos: nat)
    requires Injective(h) && Distinct(txids) && height > 0 && pos < Width(|txids|, height)
    requires HasRight(|txids|, height, pos)
    ensures 2 * pos < Width(|txids|, height - 1)
    ensures CalcHash(h, txids, height - 1, 2 * pos) != CalcHash(h, txids, height - 1, 2 * pos + 1)
  {
    Children(|txids|, height, pos);
    PowPos(2, height - 1);
    assert Lo(height - 1, 2 * pos + 1) == Lo(height - 1, 2 * pos) + Pow(2, height - 1);
    if CalcHash(h, txids, height - 1, 2 * pos) == CalcHash(h, txids, height - 1, 2 * pos + 1) {
      FirstLeaf(h, txids, height - 1, 2 * pos, 2 * pos + 1);
    }
  }

  // ----- soundness -----

  /** Soundness: whatever the bits and hashes are, a node hash that is the true one makes every reported
      match below that node authentic.  With distinct transactions this holds for any claimed number `n` of them,
      because equal branches are refused. */
  lemma {:induction false} ExtractIsSound(h: PairHash, txids: seq<Hash>, n: nat, bits: seq<bool>, hashes: seq<Hash>,
                                          height: nat, pos: nat, nb: nat, nh: nat)
    requires Injective(h) && pos < Width(|txids|, height) && (n == |txids| || Distinct(txids))
    requires var r := Traversed(h, n, bits, hashes, height, pos, nb, nh);
             !r.bad && r.hash == CalcHash(h, txids, height, pos)
    ensures var r := Traversed(h, n, bits, hashes, height, pos, nb, nh); Authentic(txids, r.matches, r.indexes)
    decreases height
  {
    if nb >= |bits| || height == 0 || !bits[nb] {
      LeafRange(|txids|, pos);
      TraversedLeaf(h, n, bits, hashes, height, pos, nb, nh);
    } else {
      var left := Traversed(h, n, bits, hashes, height - 1, 2 * pos, nb + 1, nh);
      TraversedNode(h, n, bits, hashes, height, pos, nb, nh);
      Children(|txids|, height, pos);
      ExtractIsSound(h, txids, n, bits, hashes, height - 1, 2 * pos, nb + 1, nh);
      if HasRight(|txids|, height, pos) {
        if n != |txids| {
          SiblingsDiffer(h, txids, height, pos);
        }
        ExtractIsSound(h, txids, n, bits, hashes, height - 1, 2 * pos + 1, left.bitsUsed, left.hashUsed);
      }
    }
  }

  // ----- positions in the encoding -----

  /** `b` occurs in `s` at position `at`. */
  ghost predicate Occurs<T>(b: seq<T>, s: seq<T>, at: nat) {
    at + |b| <= |s| && s[at..at + |b|] == b
  }

  lemma OccursSplit<T>(a: seq<T>, b: seq<T>, s: seq<T>, at: nat)
    requires Occurs(a + b, s, at)
    ensures Occurs(a, s, at) && Occurs(b, s, at + |a|)
  {
    assert a == (a + b)[..|a|];
    assert b == (a + b)[|a|..];
  }

  /** What decoding the part of an encoding that belongs to one node gives. */
  ghost function Expected(h: PairHash, txids: seq<Hash>, mask: seq<bool>, height: nat, pos: nat, nb: nat,
                          nh: nat): Extracted
    requires |mask| == |txids| && pos < Width(|txids|, height)
  {
    var at := Matched(mask, Lo(height, pos), Hi(|txids|, height, pos));
    Extracted(CalcHash(h, txids, height, pos), nb, nh, Pick(txids, at), at, false)
  }

  lemma ExpectedJoins(h: PairHash, txids: seq<Hash>, mask: seq<bool>, height: nat, pos: nat)
    requires |mask| == |txids| && height > 0 && pos < Width(|txids|, height) && HasRight(|txids|, height, pos)
    ensures 2 * pos < Width(|txids|, height - 1)
    ensures var n := |txids|;
            var l := Matched(mask, Lo(height - 1, 2 * pos), Hi(n, height - 1, 2 * pos));
            var r := Matched(mask, Lo(height - 1, 2 * pos + 1), Hi(n, height - 1, 2 * pos + 1));
            var at := Matched(mask, Lo(height, pos), Hi(n, height, pos));
            at == l + r && Pick(txids, at) == Pick(txids, l) + Pick(txids, r)
  {
    var n := |txids|;
    Children(n, height, pos);
    MatchedSplit(mask, Lo(height, pos), Hi(n, height - 1, 2 * pos), Hi(n, height, pos));
  }

  lemma ExtractJoins(h: PairHash, txids: seq<Hash>, mask: seq<bool>, height: nat, pos: nat,
                     bits: seq<bool>, hashes: seq<Hash>, nb: nat, nh: nat, nb1: nat, nh1: nat, nb2: nat, nh2: nat)
    requires Injective(h) && Distinct(txids) && |mask| == |txids| && height > 0 && pos < Width(|txids|, height)
    requires HasRight(|txids|, height, pos) && nb < |bits| && bits[nb] && 2 * pos < Width(|txids|, height - 1)
    requires Extract(h, |txids|, bits, hashes, height - 1, 2 * pos, nb + 1, nh)
          == Expected(h, txids, mask, height - 1, 2 * pos, nb1, nh1)
    requires Extract(h, |txids|, bits, hashes, height - 1, 2 * pos + 1, nb1, nh1)
          == Expected(h, txids, mask, height - 1, 2 * pos + 1, nb2, nh2)
    ensures Extract(h, |txids|, bits, hashes, height, pos, nb, nh) == Expected(h, txids, mask, height, pos, nb2, nh2)
  {
    SiblingsDiffer(h, txids, height, pos);
    ExpectedJoins(h, txids, mask, height, pos);
  }

  lemma ExtractPasses(h: PairHash, txids: seq<Hash>, mask: seq<bool>, height: nat, pos: nat,
                      bits: seq<bool>, hashes: seq<Hash>, nb: nat, nh: nat, nb1: nat, nh1: nat)
    requires |mask| == |txids| && height > 0 && pos < Width(|txids|, height)
    requires !HasRight(|txids|, height, pos) && nb < |bits| && bits[nb] && 2 * pos < Width(|txids|, height - 1)
    requires Extract(h, |txids|, bits, hashes, height - 1, 2 * pos, nb + 1, nh)
          == Expected(h, txids, mask, height - 1, 2 * pos, nb1, nh1)
    ensures Extract(h, |txids|, bits, hashes, height, pos, nb, nh) == Expected(h, txids, mask, height, pos, nb1, nh1)
  {
    Children(|txids|, height, pos);
  }

  lemma ExtractStops(h: PairHash, txids: seq<Hash>, mask: seq<bool>, height: nat, pos: nat,
                     bits: seq<bool>, hashes: seq<Hash>, nb: nat, nh: nat)
    requires |mask| == |txids| && pos < Width(|txids|, height) && nb < |bits| && nh < |hashes|
    requires bits[nb] == AnyMatch(mask, Lo(height, pos), Hi(|txids|, height, pos)) && (height == 0 || !bits[nb])
    requires hashes[nh] == CalcHash(h, txids, height, pos)
    ensures Extract(h, |txids|, bits, hashes, height, pos, nb, nh)
            == Expected(h, txids, mask, height, pos, nb + 1, nh + 1)
  {
    NothingMatched(mask, Lo(height, pos), Hi(|txids|, height, pos));
    if height == 0 {
      LeafRange(|txids|, pos);
    }
  }

  datatype End = Misfit | End(bitsUsed: nat, hashUsed: nat)

  /** Where the encoding of a node that starts at (nb, nh) ends, if the bits and hashes there are one. */
  ghost function Consume(h: PairHash, txids: seq<Hash>, mask: seq<bool>, height: nat, pos: nat,
                         bits: seq<bool>, hashes: seq<Hash>, nb: nat, nh: nat): End
    requires |mask| == |txids| && pos < Width(|txids|, height)
    decreases height
  {
    if nb >= |bits| || bits[nb] != AnyMatch(mask, Lo(height, pos), Hi(|txids|, height, pos)) then Misfit
    else if height == 0 || !bits[nb] then
      if nh < |hashes| && hashes[nh] == CalcHash(h, txids, height, pos) then End(nb + 1, nh + 1) else Misfit
    else
      Children(|txids|, height, pos);
      var left := Consume(h, txids, mask, height - 1, 2 * pos, bits, hashes, nb + 1, nh);
      if left == Misfit || !HasRight(|txids|, height, pos) then left
      else Consume(h, txids, mask, height - 1, 2 * pos + 1, bits, hashes, left.bitsUsed, left.hashUsed)
  }

  /** Decoding the encoding of a node gives back the node hash and exactly the matched transactions, in order. */
  lemma {:induction false} ExtractConsumes(h: PairHash, txids: seq<Hash>, mask: seq<bool>, height: nat, pos: nat,
                                           bits: seq<bool>, hashes: seq<Hash>, nb: nat, nh: nat)
    requires Injective(h) && Distinct(txids) && |mask| == |txids| && pos < Width(|txids|, height)
    requires Consume(h, txids, mask, height, pos, bits, hashes, nb, nh).End?
    ensures var e := Consume(h, txids, mask, height, pos, bits, hashes, nb, nh);
            Extract(h, |txids|, bits, hashes, height, pos, nb, nh)
              == Expected(h, txids, mask, height, pos, e.bitsUsed, e.hashUsed)
    decreases height
  {
    if height == 0 || !bits[nb] {
      ExtractStops(h, txids, mask, height, pos, bits, hashes, nb, nh);
    } else {
      Children(|txids|, height, pos);
      var l := Consume(h, txids, mask, height - 1, 2 * pos, bits, hashes, nb + 1, nh);
      ExtractConsumes(h, txids, mask, height - 1, 2 * pos, bits, hashes, nb + 1, nh);
      if HasRight(|txids|, height, pos) {
        var r := Consume(h, txids, mask, height - 1, 2 * pos + 1, bits, hashes, l.bitsUsed, l.hashUsed);
        ExtractConsumes(h, txids, mask, height - 1, 2 * pos + 1, bits, hashes, l.bitsUsed, l.hashUsed);
        ExtractJoins(h, txids, mask, height, pos, bits, hashes, nb, nh, l.bitsUsed, l.hashUsed, r.bitsUsed, r.hashUsed);
      } else {
        ExtractPasses(h, txids, mask, height, pos, bits, hashes, nb, nh, l.bitsUsed, l.hashUsed);
      }
    }
  }

  /** `b` is the encoding of a node. */
  ghost predicate IsBuild(b: Encoded, h: PairHash, txids: seq<Hash>, mask: seq<bool>, height: nat, pos: nat)
    requires |mask| == |txids| && pos < Width(|txids|, height)
  {
    forall n :: Look(n) ==> b == Build(h, txids, mask, height, pos)
  }

  /** From (nb, nh) to (nb', nh') there is an encoding of the node. */
  ghost predicate Holds(h: PairHash, txids: seq<Hash>, mask: seq<bool>, height: nat, pos: nat,
                        bits: seq<bool>, hashes: seq<Hash>, nb: nat, nh: nat, nb': nat, nh': nat)
    requires |mask| == |txids| && pos < Width(|txids|, height)
  {
    forall n :: Look(n) ==> Consume(h, txids, mask, height, pos, bits, hashes, nb, nh) == End(nb', nh')
  }

  lemma HoldsIs(h: PairHash, txids: seq<Hash>, mask: seq<bool>, height: nat, pos: nat,
                bits: seq<bool>, hashes: seq<Hash>, nb: nat, nh: nat, nb': nat, nh': nat)
    requires |mask| == |txids| && pos < Width(|txids|, height)
    ensures Holds(h, txids, mask, height, pos, bits, hashes, nb, nh, nb', nh')
            <==> Consume(h, txids, mask, height, pos, bits, hashes, nb, nh) == End(nb', nh')
  {
    assert Look(0);
  }

  lemma HoldsStops(h: PairHash, txids: seq<Hash>, mask: seq<bool>, height: nat, pos: nat,
                   bits: seq<bool>, hashes: seq<Hash>, nb: nat, nh: nat)
    requires |mask| == |txids| && pos < Width(|txids|, height) && nb < |bits| && nh < |hashes|
    requires bits[nb] == AnyMatch(mask, Lo(height, pos), Hi(|txids|, height, pos)) && (height == 0 || !bits[nb])
    requires hashes[nh] == CalcHash(h, txids, height, pos)
    ensures Holds(h, txids, mask, height, pos, bits, hashes, nb, nh, nb + 1, nh + 1)
  {
  }

  lemma HoldsJoins(h: PairHash, txids: seq<Hash>, mask: seq<bool>, height: nat, pos: nat,
                   bits: seq<bool>, hashes: seq<Hash>, nb: nat, nh: nat, nb1: nat, nh1: nat, nb2: nat, nh2: nat)
    requires |mask| == |txids| && height > 0 && pos < Width(|txids|, height)
    requires nb < |bits| && bits[nb] && AnyMatch(mask, Lo(height, pos), Hi(|txids|, height, pos))
    requires 2 * pos < Width(|txids|, height - 1)
    requires Holds(h, txids, mask, height - 1, 2 * pos, bits, hashes, nb + 1, nh, nb1, nh1)
    requires if HasRight(|txids|, height, pos)
             then Holds(h, txids, mask, height - 1, 2 * pos + 1, bits, hashes, nb1, nh1, nb2, nh2)
             else nb2 == nb1 && nh2 == nh1
    ensures Holds(h, txids, mask, height, pos, bits, hashes, nb, nh, nb2, nh2)
  {
    assert Look(0);
  }

  lemma Parts(b: Encoded, h: PairHash, txids: seq<Hash>, mask: seq<bool>, height: nat, pos: nat)
    returns (l: Encoded, r: Encoded)
    requires |mask| == |txids| && pos < Width(|txids|, height) && IsBuild(b, h, txids, mask, height, pos)
    ensures |b.bits| > 0 && b.bits[0] == AnyMatch(mask, Lo(height, pos), Hi(|txids|, height, pos))
    ensures height == 0 || !b.bits[0] ==> b == Encoded([b.bits[0]], [CalcHash(h, txids, height, pos)])
    ensures height > 0 && b.bits[0] ==>
              && 2 * pos < Width(|txids|, height - 1)
              && IsBuild(l, h, txids, mask, height - 1, 2 * pos)
              && (HasRight(|txids|, height, pos) ==> IsBuild(r, h, txids, mask, height - 1, 2 * pos + 1)
                                                     && b == Encoded([true] + l.bits + r.bits, l.hashes + r.hashes))
              && (!HasRight(|txids|, height, pos) ==> b == Encoded([true] + l.bits, l.hashes))
  {
    assert Look(0);
    l, r := b, b;
    if height > 0 && b.bits[0] {
      Children(|txids|, height, pos);
      l := Build(h, txids, mask, height - 1, 2 * pos);
      if HasRight(|txids|, height, pos) {
        r := Build(h, txids, mask, height - 1, 2 * pos + 1);
      }
    }
  }

  /** The encoding of a node from the encodings of its children. */
  lemma Whole(h: PairHash, txids: seq<Hash>, mask: seq<bool>, height: nat, pos: nat, l: Encoded, r: Encoded)
    returns (b: Encoded)
    requires |mask| == |txids| && pos < Width(|txids|, height)
    requires height > 0 && AnyMatch(mask, Lo(height, pos), Hi(|txids|, height, pos)) ==>
               && 2 * pos < Width(|txids|, height - 1)
               && IsBuild(l, h, txids, mask, height - 1, 2 * pos)
               && (HasRight(|txids|, height, pos) ==> IsBuild(r, h, txids, mask, height - 1, 2 * pos + 1))
    ensures IsBuild(b, h, txids, mask, height, pos)
    ensures b == if height == 0 || !AnyMatch(mask, Lo(height, pos), Hi(|txids|, height, pos))
                 then Encoded([AnyMatch(mask, Lo(height, pos), Hi(|txids|, height, pos))],
                              [CalcHash(h, txids, height, pos)])
                 else if HasRight(|txids|, height, pos) then Encoded([true] + l.bits + r.bits, l.hashes + r.hashes)
                 else Encoded([true] + l.bits, l.hashes)
  {
    assert Look(0);
    b := Build(h, txids, mask, height, pos);
  }

  /** What the encoder writes is an encoding, wherever it occurs. */
  lemma {:induction false} BuildHolds(h: PairHash, txids: seq<Hash>, mask: seq<bool>, height: nat, pos: nat, b: Encoded,
                                      bits: seq<bool>, hashes: seq<Hash>, nb: nat, nh: nat)
    requires |mask| == |txids| && pos < Width(|txids|, height) && IsBuild(b, h, txids, mask, height, pos)
    requires Occurs(b.bits, bits, nb) && Occurs(b.hashes, hashes, nh)
    ensures Holds(h, txids, mask, height, pos, bits, hashes, nb, nh, nb + |b.bits|, nh + |b.hashes|)
    decreases height, 1
  {
    var l, r := Parts(b, h, txids, mask, height, pos);
    OccursAt(b.bits, bits, nb, 0);
    if height == 0 || !b.bits[0] {
      OccursAt(b.hashes, hashes, nh, 0);
      HoldsStops(h, txids, mask, height, pos, bits, hashes, nb, nh);
    } else if HasRight(|txids|, height, pos) {
      BothHold(h, txids, mask, height, pos, l, r, bits, hashes, nb, nh);
    } else {
      OccursSplit([true], l.bits, bits, nb);
      BuildHolds(h, txids, mask, height - 1, 2 * pos, l, bits, hashes, nb + 1, nh);
      HoldsJoins(h, txids, mask, height, pos, bits, hashes, nb, nh,
                 nb + |b.bits|, nh + |b.hashes|, nb + |b.bits|, nh + |b.hashes|);
    }
  }

  lemma BothHold(h: PairHash, txids: seq<Hash>, mask: seq<bool>, height: nat, pos: nat, l: Encoded, r: Encoded,
                 bits: seq<bool>, hashes: seq<Hash>, nb: nat, nh: nat)
    requires |mask| == |txids| && height > 0 && pos < Width(|txids|, height) && HasRight(|txids|, height, pos)
    requires nb < |bits| && bits[nb] && AnyMatch(mask, Lo(height, pos), Hi(|txids|, height, pos))
    requires 2 * pos < Width(|txids|, height - 1) && IsBuild(l, h, txids, mask, height - 1, 2 * pos)
    requires IsBuild(r, h, txids, mask, height - 1, 2 * pos + 1)
    requires Occurs([true] + l.bits + r.bits, bits, nb) && Occurs(l.hashes + r.hashes, hashes, nh)
    ensures Holds(h, txids, mask, height, pos, bits, hashes, nb, nh,
                  nb + |[true] + l.bits + r.bits|, nh + |l.hashes + r.hashes|)
    decreases height, 0
  {
    BothOccur(l, r, bits, hashes, nb, nh);
    var nb1, nh1 := nb + 1 + |l.bits|, nh + |l.hashes|;
    BuildHolds(h, txids, mask, height - 1, 2 * pos, l, bits, hashes, nb + 1, nh);
    BuildHolds(h, txids, mask, height - 1, 2 * pos + 1, r, bits, hashes, nb1, nh1);
    HoldsJoins(h, txids, mask, height, pos, bits, hashes, nb, nh, nb1, nh1, nb1 + |r.bits|, nh1 + |r.hashes|);
  }

  lemma OccursAt<T>(b: seq<T>, s: seq<T>, at: nat, i: nat)
    requires Occurs(b, s, at) && i < |b|
    ensures s[at + i] == b[i]
  {
  }

  lemma BothOccur(l: Encoded, r: Encoded, bits: seq<bool>, hashes: seq<Hash>, nb: nat, nh: nat)
    requires Occurs([true] + l.bits + r.bits, bits, nb) && Occurs(l.hashes + r.hashes, hashes, nh)
    ensures Occurs(l.bits, bits, nb + 1) && Occurs(r.bits, bits, nb + 1 + |l.bits|)
    ensures Occurs(l.hashes, hashes, nh) && Occurs(r.hashes, hashes, nh + |l.hashes|)
  {
    OccursSplit([true] + l.bits, r.bits, bits, nb);
    OccursSplit([true], l.bits, bits, nb);
    OccursSplit(l.hashes, r.hashes, hashes, nh);
  }

  // ----- the size of an encoding -----

  lemma SizeJoins(l: nat, r: nat, height: nat)
    requires height > 0
    ensures (l + r) * height == l * (height - 1) + r * (height - 1) + l + r
  {
    assert (l + r) * height == l * height + r * height;
  }

  /** No more hashes than leaves, no more hashes than bits, and no more than one plus the height for every match. */
  lemma {:induction false} EncodedSize(h: PairHash, txids: seq<Hash>, mask: seq<bool>, height: nat, pos: nat)
    requires |mask| == |txids| && pos < Width(|txids|, height)
    ensures var b := Build(h, txids, mask, height, pos);
            var at := Matched(mask, Lo(height, pos), Hi(|txids|, height, pos));
            && 1 <= |b.hashes| <= |b.bits|
            && |b.hashes| <= Hi(|txids|, height, pos) - Lo(height, pos)
            && |b.hashes| <= 1 + |at| * height
    decreases height
  {
    var n := |txids|;
    var b := Build(h, txids, mask, height, pos);
    var at := Matched(mask, Lo(height, pos), Hi(n, height, pos));
    NothingMatched(mask, Lo(height, pos), Hi(n, height, pos));
    if height == 0 {
      LeafRange(n, pos);
    } else {
      Children(n, height, pos);
      if AnyMatch(mask, Lo(height, pos), Hi(n, height, pos)) {
        EncodedSize(h, txids, mask, height - 1, 2 * pos);
        var l := Matched(mask, Lo(height - 1, 2 * pos), Hi(n, height - 1, 2 * pos));
        if HasRight(n, height, pos) {
          EncodedSize(h, txids, mask, height - 1, 2 * pos + 1);
          var r := Matched(mask, Lo(height - 1, 2 * pos + 1), Hi(n, height - 1, 2 * pos + 1));
          ExpectedJoins(h, txids, mask, height, pos);
          SizeJoins(|l|, |r|, height);
        } else {
          SizeJoins(|l|, 0, height);
        }
      }
    }
  }

  // ----- whole trees -----

  const MAX_TRANSACTIONS: nat := 4000000 / 240

  /** `ExtractMatches`: the limits, the traversal and the checks that everything was consumed.  A failure
      gives the zero hash. */
  function ExtractAll(h: PairHash, n: nat, bits: seq<bool>, hashes: seq<Hash>): (r: Extracted)
    ensures |r.matches| == |r.indexes| && (r.bad ==> r.hash == 0)
  {
    if n == 0 || n > MAX_TRANSACTIONS || |hashes| > n || |bits| < |hashes| then Extracted(0, 0, 0, [], [], true)
    else
      var r := Extract(h, n, bits, hashes, TreeHeight(n), 0, 0, 0);
      if r.bad || (r.bitsUsed + 7) / 8 != (|bits| + 7) / 8 || r.hashUsed != |hashes| then r.(hash := 0, bad := true)
      else r
  }

  /** Soundness of whole trees: for arbitrary bits and hashes, if the returned root is the true root of a
      transaction list of that length, every reported (hash, index) is the transaction at that index.  If the
      transactions are distinct, the claimed number may even be wrong, as long as it gives a tree of that height. */
  lemma ExtractionIsSound(h: PairHash, txids: seq<Hash>, n: nat, bits: seq<bool>, hashes: seq<Hash>)
    requires Injective(h) && |txids| > 0
    requires n == |txids| || (Distinct(txids) && TreeHeight(n) == TreeHeight(|txids|))
    requires var r := ExtractAll(h, n, bits, hashes); r.hash == Root(h, txids) && (!r.bad || r.hash != 0)
    ensures var r := ExtractAll(h, n, bits, hashes); !r.bad && Authentic(txids, r.matches, r.indexes)
  {
    TraversedIs(h, n, bits, hashes, TreeHeight(n), 0, 0, 0);
    ExtractIsSound(h, txids, n, bits, hashes, TreeHeight(n), 0, 0, 0);
  }

  lemma RootRange(n: nat)
    requires n > 0
    ensures 0 < Width(n, TreeHeight(n)) && Lo(TreeHeight(n), 0) == 0 && Hi(n, TreeHeight(n), 0) == n
  {
    WidthIsLeafCount(n, TreeHeight(n), 1);
  }

  /** What the builder produces for a whole block. */
  ghost function BuildAll(h: PairHash, txids: seq<Hash>, mask: seq<bool>): Encoded
    requires |mask| == |txids| > 0
  {
    Build(h, txids, mask, TreeHeight(|txids|), 0)
  }

  /** `padded` is `bits` filled up with zeroes to whole bytes. */
  ghost predicate Padded(bits: seq<bool>, padded: seq<bool>) {
    |padded| == 8 * ((|bits| + 7) / 8) && padded[..|bits|] == bits
  }

  /** Decoding what was built and packed. */
  lemma BuiltDecodes(h: PairHash, txids: seq<Hash>, mask: seq<bool>, padded: seq<bool>)
    requires Injective(h) && Distinct(txids) && |mask| == |txids| > 0
    requires Padded(BuildAll(h, txids, mask).bits, padded)
    ensures 0 < Width(|txids|, TreeHeight(|txids|))
    ensures var b := BuildAll(h, txids, mask);
            Extract(h, |txids|, padded, b.hashes, TreeHeight(|txids|), 0, 0, 0)
              == Expected(h, txids, mask, TreeHeight(|txids|), 0, |b.bits|, |b.hashes|)
  {
    var height := TreeHeight(|txids|);
    var b := BuildAll(h, txids, mask);
    RootRange(|txids|);
    assert b.hashes[0..0 + |b.hashes|] == b.hashes;
    BuildHolds(h, txids, mask, height, 0, b, padded, b.hashes, 0, 0);
    HoldsIs(h, txids, mask, height, 0, padded, b.hashes, 0, 0, |b.bits|, |b.hashes|);
    ExtractConsumes(h, txids, mask, height, 0, padded, b.hashes, 0, 0);
  }

  /** The round trip: extracting from what was built and packed gives the true root and exactly the matched
      transactions with their positions, in order, and consumes every hash. */
  lemma RoundTrip(h: PairHash, txids: seq<Hash>, mask: seq<bool>, padded: seq<bool>)
    requires Injective(h) && Distinct(txids) && |mask| == |txids| && 0 < |txids| <= MAX_TRANSACTIONS
    requires Padded(BuildAll(h, txids, mask).bits, padded)
    ensures var b := BuildAll(h, txids, mask);
            var at := Matched(mask, 0, |txids|);
            ExtractAll(h, |txids|, padded, b.hashes)
              == Extracted(Root(h, txids), |b.bits|, |b.hashes|, Pick(txids, at), at, false)
  {
    RootRange(|txids|);
    EncodedSize(h, txids, mask, TreeHeight(|txids|), 0);
    BuiltDecodes(h, txids, mask, padded);
  }

  /** The number of stored hashes is at most the number of transactions and at most one plus the tree height
      for every match. */
  lemma HashCount(h: PairHash, txids: seq<Hash>, mask: seq<bool>)
    requires |mask| == |txids| > 0
    ensures var b := BuildAll(h, txids, mask);
            |b.hashes| <= |txids| && |b.hashes| <= 1 + |Matched(mask, 0, |txids|)| * TreeHeight(|txids|)
  {
    RootRange(|txids|);
    EncodedSize(h, txids, mask, TreeHeight(|txids|), 0);
  }
}

/** The class that builds, serializes and extracts partial Merkle trees. */
module PartialMerkleTree {
  import opened NatMath
  import opened BitByte
  import opened MerkleSpec
  import opened Hiding

  /** The zero padding and the bits before `p` are in place. */
  ghost predicate PackedUpTo(bits: seq<bool>, bytes: seq<bv8>, p: nat) {
    && |bytes| == (|bits| + 7) / 8
    && forall q: nat :: q / 8 < |bytes| ==> (BitOf(bytes, q) <==> q < p && q < |bits| && bits[q])
  }

  lemma PackedNext(bits: seq<bool>, bytes: seq<bv8>, p: nat)
    requires p < |bits| && PackedUpTo(bits, bytes, p) && p / 8 < |bytes|
    ensures bits[p] ==> PackedUpTo(bits, bytes[p / 8 := bytes[p / 8] | Mask(p % 8)], p + 1)
    ensures !bits[p] ==> PackedUpTo(bits, bytes, p + 1)
  {
    var next := bytes[p / 8 := bytes[p / 8] | Mask(p % 8)];
    forall q: nat | q / 8 < |bytes| ensures BitOf(next, q) <==> q == p || (q < p && bits[q]) {
      SetBitOf(bytes, p, q);
    }
  }

  /** Packs flag bits eight to a byte, least significant bit first. */
  method PackBits(bits: seq<bool>) returns (bytes: seq<bv8>)
    ensures PackedUpTo(bits, bytes, |bits|)
  {
    bytes := seq((|bits| + 7) / 8, i => 0 as bv8);
    forall q: nat | q / 8 < |bytes| ensures !BitOf(bytes, q) {
      MaskTable(q % 8);
    }
    for p := 0 to |bits|
      invariant PackedUpTo(bits, bytes, p)
    {
      PackedNext(bits, bytes, p);
      if bits[p] {
        bytes := bytes[p / 8 := bytes[p / 8] | Mask(p % 8)];
      }
    }
  }

  /** The flag bits of a byte sequence, padding included. */
  method UnpackBits(bytes: seq<bv8>) returns (bits: seq<bool>)
    ensures |bits| == 8 * |bytes|
    ensures forall p :: 0 <= p < |bits| ==> bits[p] == BitOf(bytes, p)
  {
    bits := [];
    for p := 0 to 8 * |bytes|
      invariant |bits| == p
      invariant forall q :: 0 <= q < p ==> bits[q] == BitOf(bytes, q)
    {
      bits := bits + [bytes[p / 8] & Mask(p % 8) != 0];
    }
  }

  /** The tree height, by doubling. */
  method ComputeHeight(n: nat) returns (height: nat)
    ensures height == TreeHeight(n)
    ensures n <= Pow(2, height) && (height > 0 ==> Pow(2, height - 1) < n)
  {
    height := 0;
    while Width(n, height) > 1
      invariant HeightFrom(n, height) == TreeHeight(n)
      decreases n - Pow(2, height)
    {
      WidthIsLeafCount(n, height, 1);
      PowPos(2, height);
      height := height + 1;
    }
    WidthIsLeafCount(n, height, 1);
    if height > 0 {
      WidthIsLeafCount(n, height - 1, 1);
    }
  }

  /** Whether a node is the parent of at least one matched transaction. */
  method ParentOfMatch(n: nat, mask: seq<bool>, height: nat, pos: nat) returns (parent: bool)
    requires |mask| == n
    ensures parent <==> AnyMatch(mask, Lo(height, pos), Hi(n, height, pos))
  {
    parent := false;
    var p, end := Lo(height, pos), (pos + 1) * Pow(2, height);
    while p < end && p < n
      invariant Lo(height, pos) <= p
      invariant parent <==> exists q :: Lo(height, pos) <= q < p && q < Hi(n, height, pos) && mask[q]
    {
      parent := parent || mask[p];
      p := p + 1;
    }
  }

  class Tree {
    const h: PairHash
    var nTransactions: nat
    var bits: seq<bool>
    var hashes: seq<Hash>
    var bad: bool

    /** Builds the partial tree for the transactions selected by a mask. */
    constructor (h: PairHash, txids: seq<Hash>, mask: seq<bool>)
      requires |mask| == |txids| > 0
      ensures this.h == h && nTransactions == |txids| && !bad
      ensures Encoded(bits, hashes) == BuildAll(h, txids, mask)
    {
      this.h := h;
      nTransactions, bad, bits, hashes := |txids|, false, [], [];
      new;
      var height := ComputeHeight(nTransactions);
      ghost var b := TraverseAndBuild(height, 0, txids, mask);
      assert Look(0);
    }

    /** Reads a partial tree from its serialized fields. */
    constructor FromBytes(h: PairHash, nTransactions: nat, hashes: seq<Hash>, bytes: seq<bv8>)
      ensures this.h == h && this.nTransactions == nTransactions && this.hashes == hashes && !bad
      ensures |bits| == 8 * |bytes| && forall p :: 0 <= p < |bits| ==> bits[p] == BitOf(bytes, p)
    {
      this.h, this.nTransactions, this.hashes, bad := h, nTransactions, hashes, false;
      var unpacked := UnpackBits(bytes);
      bits := unpacked;
    }

    /** Appends the encoding of a node and everything below it. */
    method TraverseAndBuild(height: nat, pos: nat, txids: seq<Hash>, mask: seq<bool>) returns (ghost b: Encoded)
      requires |mask| == |txids| == nTransactions && pos < Width(nTransactions, height)
      modifies this`bits, this`hashes
      ensures IsBuild(b, h, txids, mask, height, pos)
      ensures bits == old(bits) + b.bits && hashes == old(hashes) + b.hashes
      decreases height
    {
      var parent := ParentOfMatch(nTransactions, mask, height, pos);
      bits := bits + [parent];
      if height == 0 || !parent {
        hashes := hashes + [CalcHash(h, txids, height, pos)];
        b := Whole(h, txids, mask, height, pos, Encoded([], []), Encoded([], []));
      } else {
        Children(nTransactions, height, pos);
        ghost var l := TraverseAndBuild(height - 1, 2 * pos, txids, mask);
        ghost var r := l;
        if 2 * pos + 1 < Width(nTransactions, height - 1) {
          r := TraverseAndBuild(height - 1, 2 * pos + 1, txids, mask);
        }
        b := Whole(h, txids, mask, height, pos, l, r);
      }
    }

    /** Consumes the bits and hashes of a node; the counters and lists that the source passes by reference
        are returned. */
    method TraverseAndExtract(height: nat, pos: nat, bitsUsed: nat, hashUsed: nat, matches: seq<Hash>,
                              indexes: seq<nat>)
      returns (hash: Hash, bitsUsed': nat, hashUsed': nat, matches': seq<Hash>, indexes': seq<nat>)
      modifies this`bad
      ensures var r := Traversed(h, nTransactions, bits, hashes, height, pos, bitsUsed, hashUsed);
              && hash == r.hash && bitsUsed' == r.bitsUsed && hashUsed' == r.hashUsed
              && matches' == matches + r.matches && indexes' == indexes + r.indexes
              && bad == (old(bad) || r.bad)
      decreases height
    {
      bitsUsed', hashUsed', matches', indexes' := bitsUsed, hashUsed, matches, indexes;
      if bitsUsed < |bits| && height > 0 && bits[bitsUsed] {
        TraversedNode(h, nTransactions, bits, hashes, height, pos, bitsUsed, hashUsed);
      } else {
        TraversedLeaf(h, nTransactions, bits, hashes, height, pos, bitsUsed, hashUsed);
      }
      if bitsUsed' >= |bits| {
        bad := true;
        hash := 0;
        return;
      }
      var parent := bits[bitsUsed'];
      bitsUsed' := bitsUsed' + 1;
      if height == 0 || !parent {
        if hashUsed' >= |hashes| {
          bad := true;
          hash := 0;
          return;
        }
        hash := hashes[hashUsed'];
        hashUsed' := hashUsed' + 1;
        if height == 0 && parent {
          matches' := matches' + [hash];
          indexes' := indexes' + [pos];
        }
      } else {
        var left, right;
        left, bitsUsed', hashUsed', matches', indexes' :=
          TraverseAndExtract(height - 1, 2 * pos, bitsUsed', hashUsed', matches', indexes');
        if 2 * pos + 1 < Width(nTransactions, height - 1) {
          right, bitsUsed', hashUsed', matches', indexes' :=
            TraverseAndExtract(height - 1, 2 * pos + 1, bitsUsed', hashUsed', matches', indexes');
          if right == left {
            bad := true;
          }
        } else {
          right := left;
        }
        hash := h(left, right);
      }
    }

    /** Extracts the matched transactions and the root; zero means failure.  The list of matches is cleared
        first, the list of indexes is only appended to. */
    method ExtractMatches(indexes: seq<nat>) returns (root: Hash, matches: seq<Hash>, indexes': seq<nat>)
      modifies this`bad
      ensures var r := ExtractAll(h, nTransactions, bits, hashes);
              && matches == r.matches && indexes' == indexes + r.indexes
              && root == (if old(bad) then 0 else r.hash)
      ensures nTransactions == 0 || nTransactions > 16666 || |hashes| > nTransactions || |bits| < |hashes| ==>
                root == 0 && matches == [] && indexes' == indexes
      ensures root != 0 ==>
                var r := Traversed(h, nTransactions, bits, hashes, TreeHeight(nTransactions), 0, 0, 0);
                root == r.hash && !r.bad && r.hashUsed == |hashes| && (r.bitsUsed + 7) / 8 == (|bits| + 7) / 8
    {
      matches, indexes' := [], indexes;
      if nTransactions == 0 {
        return 0, matches, indexes';
      }
      if nTransactions > MAX_TRANSACTIONS {
        return 0, matches, indexes';
      }
      if |hashes| > nTransactions {
        return 0, matches, indexes';
      }
      if |bits| < |hashes| {
        return 0, matches, indexes';
      }
      var height := ComputeHeight(nTransactions);
      var bitsUsed, hashUsed;
      TraversedIs(h, nTransactions, bits, hashes, height, 0, 0, 0);
      root, bitsUsed, hashUsed, matches, indexes' := TraverseAndExtract(height, 0, 0, 0, matches, indexes');
      if bad {
        return 0, matches, indexes';
      }
      if (bitsUsed + 7) / 8 != (|bits| + 7) / 8 {
        return 0, matches, indexes';
      }
      if hashUsed != |hashes| {
        return 0, matches, indexes';
      }
    }
  }

  /** Building, packing, unpacking and extracting, end to end. */
  method SendAndReceive(h: PairHash, txids: seq<Hash>, mask: seq<bool>)
    returns (root: Hash, matches: seq<Hash>, indexes: seq<nat>)
    requires Injective(h) && Distinct(txids) && |mask| == |txids| && 0 < |txids| <= MAX_TRANSACTIONS
    ensures root == LevelRoot(h, txids)
    ensures indexes == Matched(mask, 0, |txids|) && matches == Pick(txids, indexes)
  {
    var sent := new Tree(h, txids, mask);
    var bytes := PackBits(sent.bits);
    var received := new Tree.FromBytes(h, sent.nTransactions, sent.hashes, bytes);
    assert received.bits[..|sent.bits|] == sent.bits;
    RoundTrip(h, txids, mask, received.bits);
    RootIsLevelRoot(h, txids);
    root, matches, indexes := received.ExtractMatches([]);
  }
}
