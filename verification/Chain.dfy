/** The skip list over block index entries (src/chain.cpp, class CBlockIndex): which height a skip pointer
    jumps to, and why the fast walk finds the same block as stepping back one block at a time. */
module SkipList {
  import opened Folded

  /** `n & m`. */
  function And(n: nat, m: nat): nat {
    if n == 0 || m == 0 then 0
    else 2 * And(n / 2, m / 2) + if n % 2 == 1 && m % 2 == 1 then 1 else 0
  }

  lemma {:induction false} AndSelf(n: nat)
    ensures And(n, n) == n
  {
    if n > 0 {
      AndSelf(n / 2);
    }
  }

  /** `n & (n - 1)`; for zero the second operand is minus one, and the result is zero. */
  function InvertLowestOne(n: nat): nat {
    if n == 0 then 0 else And(n, n - 1)
  }

  /** It turns the lowest one bit into a zero. */
  lemma {:induction false} LowestOneInverted(n: nat) returns (q: nat, k: nat)
    requires n > 0
    ensures n == Times(2 * q + 1, Pow2(k)) && InvertLowestOne(n) == Times(2 * q, Pow2(k))
    ensures InvertLowestOne(n) < n
  {
    if n % 2 == 1 {
      q, k := n / 2, 0;
      AndSelf(n / 2);
      Pow2Small();
      TimesZero(n);
      TimesZero(2 * q);
    } else {
      q, k := LowestOneInverted(n / 2);
      assert (n - 1) / 2 == n / 2 - 1;
      k := k + 1;
      Pow2Step(k - 1);
      TimesDistRight(2 * q + 1, Pow2(k - 1), Pow2(k - 1));
      TimesDistRight(2 * q, Pow2(k - 1), Pow2(k - 1));
    }
  }

  function SkipHeight(height: nat): (h: nat)
    ensures height > 0 ==> h < height
  {
    if height < 2 then 0
    else if height % 2 == 1 then
      var m := InvertLowestOne(height - 1);
      assert m < height - 1 && InvertLowestOne(m) <= m by {
        var _, _ := LowestOneInverted(height - 1);
        if m > 0 {
          var _, _ := LowestOneInverted(m);
        }
      }
      InvertLowestOne(m) + 1
    else
      assert InvertLowestOne(height) < height by {
        var _, _ := LowestOneInverted(height);
      }
      InvertLowestOne(height)
  }

  /** Whether the walk from height `w` down to `t` follows the skip pointer. */
  predicate TakesSkip(w: nat, t: nat) {
    var skip, skipPrev := SkipHeight(w), if w == 0 then 0 else SkipHeight(w - 1);
    skip == t || (skip > t && !(skipPrev < skip - 2 && skipPrev >= t))
  }

  /** The height after one step of the walk. */
  function NextHeight(w: nat, t: nat): (h: nat)
    requires t < w
    ensures t <= h < w
  {
    if TakesSkip(w, t) then SkipHeight(w) else w - 1
  }

  /** The number of steps of the walk. */
  ghost function Steps(w: nat, t: nat): nat
    requires t <= w
    decreases w
  {
    if w == t then 0 else 1 + Steps(NextHeight(w, t), t)
  }

  type Word = x: nat | x < 0x1_0000_0000

  class BlockIndex {
    const pprev: BlockIndex?
    const height: nat
    const hash: nat
    const time: Word
    const bits: Word
    var pskip: BlockIndex?

    constructor (pprev: BlockIndex?, hash: nat, time: Word, bits: Word)
      requires pprev != null ==> Linked(pprev)
      ensures Linked(this) && this.pprev == pprev && pskip == null
      ensures this.hash == hash && this.time == time && this.bits == bits
    {
      this.pprev := pprev;
      this.height := if pprev == null then 0 else pprev.height + 1;
      this.hash := hash;
      this.time := time;
      this.bits := bits;
      this.pskip := null;
    }

    /** `GetAncestor`: follows skip pointers, and finds what stepping back finds. */
    method GetAncestor(height: int, ghost tree: set<BlockIndex>) returns (r: BlockIndex?, ghost steps: nat)
      requires this in tree && ValidTree(tree)
      ensures r != null <==> 0 <= height <= this.height
      ensures r != null ==> r == Ancestor(this, height)
      ensures r != null && Built(tree) ==> steps == Steps(this.height, height)
    {
      steps := 0;
      if height > this.height || height < 0 {
        return null, 0;
      }
      var walk: BlockIndex := this;
      var heightWalk := this.height;
      while heightWalk > height
        invariant walk in tree && walk.height == heightWalk && height <= heightWalk <= this.height
        invariant Ancestor(walk, height) == Ancestor(this, height)
        invariant Built(tree) ==> steps + Steps(heightWalk, height) == Steps(this.height, height)
      {
        var heightSkip := SkipHeight(heightWalk);
        var heightSkipPrev := SkipHeight(heightWalk - 1);
        ghost var next := NextHeight(heightWalk, height);
        assert Steps(heightWalk, height) == 1 + Steps(next, height);
        steps := steps + 1;
        if walk.pskip != null && (heightSkip == height
          || (heightSkip > height && !(heightSkipPrev < heightSkip - 2 && heightSkipPrev >= height))) {
          AncestorInTree(tree, walk, heightSkip);
          AncestorOfAncestor(walk, heightSkip, height);
          walk := walk.pskip;
          heightWalk := heightSkip;
        } else {
          walk := walk.pprev;
          heightWalk := heightWalk - 1;
        }
        assert Built(tree) ==> heightWalk == next;
      }
      return walk, steps;
    }

    /** `BuildSkip`: a new block gets the right skip pointer, so the tree with it is valid. */
    method BuildSkip(ghost tree: set<BlockIndex>)
      requires ValidTree(tree) && Linked(this) && (pprev != null ==> pprev in tree)
      requires SkipOk(this)
      modifies this`pskip
      ensures ValidTree(tree + {this})
      ensures pprev != null ==> pskip == Ancestor(this, SkipHeight(height))
      ensures old(Built(tree)) ==> Built(tree + {this})
    {
      if pprev != null {
        var h := SkipHeight(height);
        var skip, _ := pprev.GetAncestor(h, tree);
        pskip := skip;
      }
    }
  }

  /** Heights count the steps to a block without a predecessor. */
  ghost predicate Linked(b: BlockIndex)
    decreases b.height
  {
    if b.pprev == null then b.height == 0
    else b.height == b.pprev.height + 1 && Linked(b.pprev)
  }

  /** The ancestor at a height, one step at a time. */
  ghost function Ancestor(b: BlockIndex, h: nat): (r: BlockIndex)
    requires Linked(b) && h <= b.height
    ensures Linked(r) && r.height == h
    decreases b.height
  {
    if b.height == h then b else Ancestor(b.pprev, h)
  }

  /** Every skip pointer that is set leads to the ancestor at the skip height. */
  ghost predicate SkipOk(b: BlockIndex)
    requires Linked(b)
    reads b
  {
    b.pskip != null ==> b.height > 0 && b.pskip == Ancestor(b, SkipHeight(b.height))
  }

  ghost predicate ValidTree(tree: set<BlockIndex>)
    reads tree
  {
    forall b :: b in tree ==> Linked(b) && SkipOk(b) && (b.pprev != null ==> b.pprev in tree)
  }

  /** Every block but the first of its chain has a skip pointer. */
  ghost predicate Built(tree: set<BlockIndex>)
    reads tree
  {
    forall b :: b in tree && b.height > 0 ==> b.pskip != null
  }

  lemma {:induction false} AncestorOfAncestor(b: BlockIndex, h: nat, g: nat)
    requires Linked(b) && g <= h <= b.height
    ensures Ancestor(Ancestor(b, h), g) == Ancestor(b, g)
    decreases b.height
  {
    if h < b.height {
      AncestorOfAncestor(b.pprev, h, g);
    }
  }

  lemma {:induction false} AncestorInTree(tree: set<BlockIndex>, b: BlockIndex, h: nat)
    requires ValidTree(tree) && b in tree && h <= b.height
    ensures Ancestor(b, h) in tree
    decreases b.height
  {
    if h < b.height {
      AncestorInTree(tree, b.pprev, h);
    }
  }

  // ----- common ancestors -----

  /** `a` and `b` have the same ancestor at height `h`. */
  ghost predicate CommonAt(a: BlockIndex, b: BlockIndex, h: nat)
    requires Linked(a) && Linked(b)
  {
    h <= a.height && h <= b.height && Ancestor(a, h) == Ancestor(b, h)
  }

  /** `r` is the highest common ancestor, null if there is none: the chains agree exactly up to it. */
  ghost predicate IsLastCommon(a: BlockIndex, b: BlockIndex, r: BlockIndex?)
    requires Linked(a) && Linked(b)
  {
    if r == null then forall h: nat :: !CommonAt(a, b, h)
    else
      && r.height <= a.height && r == Ancestor(a, r.height)
      && forall h: nat :: CommonAt(a, b, h) <==> h <= r.height
  }

  /** Below a common ancestor everything is common. */
  lemma CommonBelow(a: BlockIndex, b: BlockIndex, h: nat, g: nat)
    requires Linked(a) && Linked(b) && CommonAt(a, b, h) && g <= h
    ensures CommonAt(a, b, g)
  {
    AncestorOfAncestor(a, h, g);
    AncestorOfAncestor(b, h, g);
  }

  /** A search down the ancestors of `a` has come to `p`, and nothing above is common with `b`. */
  ghost predicate Searching(a: BlockIndex, b: BlockIndex, p: BlockIndex?)
    requires Linked(a) && Linked(b)
  {
    && (p != null ==> Linked(p) && p.height <= a.height && p == Ancestor(a, p.height))
    && forall h: nat :: (p != null ==> h > p.height) ==> !CommonAt(a, b, h)
  }

  lemma SearchDone(a: BlockIndex, b: BlockIndex, p: BlockIndex?)
    requires Linked(a) && Linked(b) && Searching(a, b, p) && (p != null ==> CommonAt(a, b, p.height))
    ensures IsLastCommon(a, b, p)
  {
    if p != null {
      forall h: nat | h <= p.height ensures CommonAt(a, b, h) {
        CommonBelow(a, b, p.height, h);
      }
    }
  }

  lemma SearchStep(a: BlockIndex, b: BlockIndex, p: BlockIndex)
    requires Linked(a) && Linked(b) && Searching(a, b, p) && !CommonAt(a, b, p.height)
    ensures Searching(a, b, p.pprev)
  {
    if p.height > 0 {
      AncestorOfAncestor(a, p.height, p.height - 1);
    }
  }

  /** `LastCommonAncestor`. */
  method LastCommonAncestor(a: BlockIndex, b: BlockIndex, ghost tree: set<BlockIndex>) returns (r: BlockIndex?)
    requires ValidTree(tree) && a in tree && b in tree
    ensures IsLastCommon(a, b, r)
  {
    var pa: BlockIndex?, pb: BlockIndex? := a, b;
    ghost var steps;
    if pa.height > pb.height {
      pa, steps := pa.GetAncestor(pb.height, tree);
    } else if pb.height > pa.height {
      pb, steps := pb.GetAncestor(pa.height, tree);
    }
    while pa != pb && pa != null && pb != null
      invariant pa == null <==> pb == null
      invariant Searching(a, b, pa) && Searching(b, a, pb) && (pa != null ==> pa.height == pb.height)
      decreases if pa == null then 0 else pa.height + 1
    {
      SearchStep(a, b, pa);
      SearchStep(b, a, pb);
      pa := pa.pprev;
      pb := pb.pprev;
    }
    assert pa == pb;
    SearchDone(a, b, pa);
    return pa;
  }
}

/** The active chain (src/chain.h, src/chain.cpp, class CChain). */
module ActiveChain {
  import opened Folded
  import opened SkipList

  /** The chain that ends in `tip`: the ancestor of `tip` at every height. */
  ghost function Branch(tip: BlockIndex): (s: seq<BlockIndex?>)
    requires Linked(tip)
    ensures |s| == tip.height + 1 && forall h :: 0 <= h < |s| ==> s[h] == Ancestor(tip, h)
  {
    seq(tip.height + 1, h requires 0 <= h <= tip.height => Ancestor(tip, h))
  }

  class Chain {
    var vChain: seq<BlockIndex?>

    /** The chain is empty or one branch of the block tree. */
    ghost predicate Valid()
      reads this
    {
      IsBranch(vChain)
    }

    constructor ()
      ensures Valid() && vChain == []
    {
      vChain := [];
    }

    function Tip(): (r: BlockIndex?)
      reads this
    {
      if |vChain| > 0 then vChain[|vChain| - 1] else null
    }

    function At(height: int): (r: BlockIndex?)
      reads this
    {
      if height < 0 || height >= |vChain| then null else vChain[height]
    }

    predicate Contains(b: BlockIndex)
      reads this
    {
      At(b.height) == b
    }

    /** A block is in the chain exactly if it is an ancestor of the tip. */
    lemma ContainsAncestors(b: BlockIndex)
      requires Valid() && Linked(b)
      ensures Contains(b) <==> Tip() != null && b.height <= Tip().height && b == Ancestor(Tip(), b.height)
    {
    }

    /** `SetTip`: rewrites only the part of the chain that changes, and leaves exactly the branch of the new tip. */
    method SetTip(tip: BlockIndex?)
      requires Valid() && (tip != null ==> Linked(tip))
      modifies this
      ensures Valid()
      ensures vChain == if tip == null then [] else Branch(tip)
    {
      if tip == null {
        vChain := [];
        return;
      }
      ghost var was := vChain;
      var n := tip.height + 1;
      vChain := if n <= |vChain| then vChain[..n] else vChain + seq(n - |vChain|, _ => null);
      var p: BlockIndex? := tip;
      while p != null && vChain[p.height] != p
        invariant Rewriting(tip, p, vChain, was)
        decreases if p == null then 0 else p.height + 1
      {
        RewriteStep(tip, p, vChain, was);
        vChain := vChain[p.height := p];
        p := p.pprev;
      }
      RewriteDone(tip, p, vChain, was);
    }

    /** `FindFork`: the last common ancestor of a block and the tip. */
    method FindFork(b: BlockIndex?, ghost tree: set<BlockIndex>) returns (r: BlockIndex?)
      requires Valid() && ValidTree(tree) && (b != null ==> b in tree)
      ensures b == null || Tip() == null ==> r == null
      ensures b != null && Tip() != null ==> IsLastCommon(b, Tip(), r)
    {
      if b == null {
        return null;
      }
      var p: BlockIndex? := b;
      ghost var tip := Tip();
      if p.height > |vChain| - 1 {
        ghost var steps;
        p, steps := p.GetAncestor(|vChain| - 1, tree);
      }
      while p != null && !Contains(p)
        invariant tip == null ==> p == null
        invariant tip != null ==> Searching(b, tip, p) && (p != null ==> p.height <= tip.height)
        decreases if p == null then 0 else p.height + 1
      {
        ContainsAncestors(p);
        SearchStep(b, tip, p);
        p := p.pprev;
      }
      if tip != null {
        if p != null {
          ContainsAncestors(p);
        }
        SearchDone(b, tip, p);
      }
      return p;
    }

    /** `GetLocator`: the hashes of the ancestors at the locator heights. */
    method GetLocator(b: BlockIndex?, ghost tree: set<BlockIndex>) returns (have: seq<nat>)
      requires Valid() && ValidTree(tree) && (b != null ==> b in tree) && (Tip() != null ==> Tip() in tree)
      ensures var start := if b == null then Tip() else b;
        if start == null then have == [] else have == HashesAt(start, LocatorHeights(start.height, 1, 0))
    {
      have := [];
      var step := 1;
      var p: BlockIndex? := if b == null then Tip() else b;
      ghost var start := p;
      while p != null
        invariant step >= 1 && (start == null ==> p == null && have == [])
        invariant start != null ==> start in tree && (p != null ==> p in tree && Listing(start, p, step, have))
        invariant start != null && p == null ==> have == HashesAt(start, LocatorHeights(start.height, 1, 0))
        decreases if p == null then 0 else p.height + 1
      {
        ListingStep(start, p, step, have);
        have := have + [p.hash];
        if p.height == 0 {
          break;
        }
        var height := if p.height > step then p.height - step else 0;
        AncestorInTree(tree, p, height);
        if Contains(p) {
          AncestorOfAncestor(Tip(), p.height, height);
          p := At(height);
        } else {
          ghost var steps;
          p, steps := p.GetAncestor(height, tree);
        }
        if |have| > 10 {
          step := step * 2;
        }
      }
    }
  }

  ghost predicate IsBranch(s: seq<BlockIndex?>) {
    |s| > 0 ==>
      var tip := s[|s| - 1];
      tip != null && Linked(tip) && s == Branch(tip)
  }

  /** Above `p` the entries are those of the new branch, from `p` down they are the old ones. */
  ghost predicate Rewriting(tip: BlockIndex, p: BlockIndex?, s: seq<BlockIndex?>, was: seq<BlockIndex?>)
    requires Linked(tip)
  {
    && |s| == tip.height + 1
    && (p != null ==> Linked(p) && p.height <= tip.height && p == Ancestor(tip, p.height))
    && (forall h :: 0 <= h <= tip.height && (p != null ==> h > p.height) ==> s[h] == Ancestor(tip, h))
    && (p != null ==> forall h :: 0 <= h <= p.height ==> s[h] == if h < |was| then was[h] else null)
  }

  lemma RewriteStep(tip: BlockIndex, p: BlockIndex, s: seq<BlockIndex?>, was: seq<BlockIndex?>)
    requires Linked(tip) && Rewriting(tip, p, s, was)
    ensures Rewriting(tip, p.pprev, s[p.height := p], was)
  {
    if p.height > 0 {
      AncestorOfAncestor(tip, p.height, p.height - 1);
    }
  }

  /** Where the new branch meets the old one, the entries below agree already. */
  lemma RewriteDone(tip: BlockIndex, p: BlockIndex?, s: seq<BlockIndex?>, was: seq<BlockIndex?>)
    requires Linked(tip) && Rewriting(tip, p, s, was) && IsBranch(was) && (p != null ==> s[p.height] == p)
    ensures s == Branch(tip)
  {
    forall h | 0 <= h <= tip.height
      ensures s[h] == Ancestor(tip, h)
    {
      if p != null && h <= p.height {
        AncestorOfAncestor(was[|was| - 1], p.height, h);
        AncestorOfAncestor(tip, p.height, h);
      }
    }
  }

  /** The locator of `start` is what is there already and what remains from `p` on. */
  ghost predicate Listing(start: BlockIndex, p: BlockIndex, step: nat, have: seq<nat>)
    requires Linked(start) && step >= 1
  {
    && p.height <= start.height && p == Ancestor(start, p.height)
    && HashesAt(start, LocatorHeights(start.height, 1, 0))
       == have + HashesAt(start, LocatorHeights(p.height, step, |have|))
  }

  lemma ListingStep(start: BlockIndex, p: BlockIndex, step: nat, have: seq<nat>)
    requires Linked(start) && step >= 1 && Listing(start, p, step, have)
    ensures p.height == 0 ==> have + [p.hash] == HashesAt(start, LocatorHeights(start.height, 1, 0))
    ensures p.height > 0 ==>
              Listing(start, Ancestor(p, if p.height > step then p.height - step else 0),
                      if |have| + 1 > 10 then step * 2 else step, have + [p.hash])
  {
    var s := LocatorHeights(p.height, step, |have|);
    assert HashesAt(start, s) == [p.hash] + HashesAt(start, s[1..]);
    assert have + ([p.hash] + HashesAt(start, s[1..])) == (have + [p.hash]) + HashesAt(start, s[1..]);
    if p.height > 0 {
      AncestorOfAncestor(start, p.height, if p.height > step then p.height - step else 0);
    } else {
      assert HashesAt(start, s[1..]) == [];
    }
  }

  /** The heights that a locator names: steps of one at first, then doubling; `count` entries are there already. */
  ghost function LocatorHeights(height: nat, step: nat, count: nat): (s: seq<nat>)
    requires step >= 1
    ensures |s| > 0 && forall i :: 0 <= i < |s| ==> s[i] <= height
    decreases height
  {
    [height] + if height == 0 then [] else
      LocatorHeights(if height > step then height - step else 0, if count + 1 > 10 then step * 2 else step, count + 1)
  }

  ghost function HashesAt(b: BlockIndex, heights: seq<nat>): seq<nat>
    requires Linked(b) && forall i :: 0 <= i < |heights| ==> heights[i] <= b.height
  {
    seq(|heights|, i requires 0 <= i < |heights| => Ancestor(b, heights[i]).hash)
  }

  /** How far the entry with index `i` lies behind the first one: eleven single steps, then 2, 4, 8, ... */
  ghost function Offset(i: nat): nat { if i <= 10 then i else 9 + Pow2(i - 10) }

  ghost function StepAt(i: nat): nat { if i <= 10 then 1 else Pow2(i - 10) }

  lemma OffsetStep(i: nat)
    ensures Offset(i + 1) == Offset(i) + StepAt(i)
    ensures StepAt(i + 1) == if i + 1 > 10 then StepAt(i) * 2 else StepAt(i)
  {
    Pow2Small();
    if i >= 10 {
      Pow2Step(i - 10);
    }
  }

  lemma LocatorTail(height: nat, count: nat) returns (h: nat)
    requires height > 0
    ensures h == if height > StepAt(count) then height - StepAt(count) else 0
    ensures LocatorHeights(height, StepAt(count), count) == [height] + LocatorHeights(h, StepAt(count + 1), count + 1)
  {
    OffsetStep(count);
    h := if height > StepAt(count) then height - StepAt(count) else 0;
  }

  /** A locator starts at the block, goes down strictly and ends at the genesis block. */
  lemma {:induction false} LocatorDescends(height: nat, step: nat, count: nat)
    requires step >= 1
    ensures var s := LocatorHeights(height, step, count);
      s[0] == height && s[|s| - 1] == 0 && forall i, j :: 0 <= i < j < |s| ==> s[j] < s[i]
    decreases height
  {
    if height > 0 {
      var h := if height > step then height - step else 0;
      var t := LocatorHeights(h, if count + 1 > 10 then step * 2 else step, count + 1);
      LocatorDescends(h, if count + 1 > 10 then step * 2 else step, count + 1);
      assert LocatorHeights(height, step, count) == [height] + t;
    }
  }

  /** All entries but the last lie at the distances of `Offset`. */
  lemma {:induction false} LocatorDistances(height: nat, count: nat, j: nat)
    requires j < |LocatorHeights(height, StepAt(count), count)| - 1
    ensures LocatorHeights(height, StepAt(count), count)[j] + Offset(count + j) == height + Offset(count)
    decreases j
  {
    if j > 0 {
      var h := LocatorTail(height, count);
      OffsetStep(count);
      LocatorDistances(h, count + 1, j - 1);
    }
  }

  /** A locator has at most 12 + log2(height) entries. */
  lemma LocatorIsShort(height: nat)
    ensures var n := |LocatorHeights(height, 1, 0)|; n >= 12 ==> Pow2(n - 12) < height
  {
    var s := LocatorHeights(height, 1, 0);
    if |s| >= 12 {
      LocatorDescends(height, 1, 0);
      assert s[|s| - 2] > s[|s| - 1];
      LocatorDistances(height, 0, |s| - 2);
      Pow2Small();
    }
  }
}
