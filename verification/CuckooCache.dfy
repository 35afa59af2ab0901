/** The collection flags of the cuckoo cache, packed eight to a byte (src/cuckoocache.h). */
module PackedFlags {
  import opened BitByte

  type Memory = seq<bv8>

  /** The number of bytes, computed in 32 bits. */
  function Bytes(size: nat): nat { (size + 7) % 0x1_0000_0000 / 8 }

  /** The most entries that get flags. */
  const MAX_SIZE: nat := 0xFFFF_FFF8

  /** Every entry has a flag if and only if rounding up does not wrap; otherwise none has. */
  lemma FlagsSuffice(size: nat)
    requires 0 < size < 0x1_0000_0000
    ensures (forall s: nat :: s < size ==> s / 8 < Bytes(size)) <==> size <= MAX_SIZE
    ensures size > MAX_SIZE ==> Bytes(size) == 0
  {
    if size > MAX_SIZE {
      assert 0 / 8 >= Bytes(size);
    }
  }

  /** All entries marked. */
  function Setup(size: nat): (mem: Memory)
    ensures |mem| == Bytes(size)
    ensures forall s: nat :: s / 8 < |mem| ==> BitIsSet(mem, s)
  {
    assert forall k: nat :: k < 8 ==> BitAt(0xFF, k) by {
      forall k: nat | k < 8 ensures BitAt(0xFF, k) { MaskTable(k); }
    }
    seq(Bytes(size), i => 0xFF as bv8)
  }

  predicate BitIsSet(mem: Memory, s: nat)
    requires s / 8 < |mem|
  {
    BitOf(mem, s)
  }

  function BitSet(mem: Memory, s: nat): (r: Memory)
    requires s / 8 < |mem|
    ensures |r| == |mem|
    ensures forall j: nat :: j / 8 < |mem| ==> (BitIsSet(r, j) <==> j == s || BitIsSet(mem, j))
  {
    var r := mem[s / 8 := mem[s / 8] | Mask(s % 8)];
    assert forall j: nat :: j / 8 < |mem| ==> (BitIsSet(r, j) <==> j == s || BitIsSet(mem, j)) by {
      forall j: nat | j / 8 < |mem| ensures BitIsSet(r, j) <==> j == s || BitIsSet(mem, j) {
        SetBitOf(mem, s, j);
      }
    }
    r
  }

  function BitUnset(mem: Memory, s: nat): (r: Memory)
    requires s / 8 < |mem|
    ensures |r| == |mem|
    ensures forall j: nat :: j / 8 < |mem| ==> (BitIsSet(r, j) <==> j != s && BitIsSet(mem, j))
  {
    var r := mem[s / 8 := mem[s / 8] & !Mask(s % 8)];
    assert forall j: nat :: j / 8 < |mem| ==> (BitIsSet(r, j) <==> j != s && BitIsSet(mem, j)) by {
      forall j: nat | j / 8 < |mem| ensures BitIsSet(r, j) <==> j != s && BitIsSet(mem, j) {
        ClearBitOf(mem, s, j);
      }
    }
    r
  }

  /** The flags as a sequence of booleans. */
  ghost function View(mem: Memory, size: nat): (v: seq<bool>)
    requires |mem| == Bytes(size) && size <= MAX_SIZE
    ensures |v| == size
  {
    seq(size, s requires 0 <= s < size => s / 8 < |mem| && BitIsSet(mem, s))
  }

  lemma ViewBitSet(mem: Memory, size: nat, s: nat)
    requires |mem| == Bytes(size) && s < size <= MAX_SIZE
    ensures s / 8 < |mem| && View(BitSet(mem, s), size) == View(mem, size)[s := true]
  {
  }

  lemma ViewBitUnset(mem: Memory, size: nat, s: nat)
    requires |mem| == Bytes(size) && s < size <= MAX_SIZE
    ensures s / 8 < |mem| && View(BitUnset(mem, s), size) == View(mem, size)[s := false]
  {
  }
}

/** The cuckoo cache (src/cuckoocache.h): eight-way displacement with lazy erasure and epochs. */
module CuckooCache {
  import PackedFlags
  import opened Bags

  const INVALID: nat := 0xFFFF_FFFF

  type U32 = x: nat | x < 0x1_0000_0000

  /** The table with its flags as booleans: `discard[i]` means slot i may be overwritten. */
  datatype Slots<E> = Slots(table: seq<E>, epoch: seq<bool>, discard: seq<bool>)

  ghost predicate Shape<E>(s: Slots<E>, size: nat) {
    |s.table| == size && |s.epoch| == size && |s.discard| == size
  }

  /** The hash functions of the cache: eight 32-bit hashes per element. */
  datatype Hasher<!E(==)> = Hasher(hash: (nat, E) -> U32, size: nat, default: E)
  {
    /** A 32-bit hash scaled down to a slot number. */
    function Loc(i: nat, e: E): nat {
      hash(i, e) * size / 0x1_0000_0000
    }

    /** The eight places where an element may be, one for each hash. */
    function Locs(e: E): (r: seq<nat>)
      ensures |r| == 8
    {
      [Loc(0, e), Loc(1, e), Loc(2, e), Loc(3, e), Loc(4, e), Loc(5, e), Loc(6, e), Loc(7, e)]
    }
  }

  lemma LocInRange<E>(h: Hasher<E>, e: E)
    requires h.size > 0
    ensures forall i :: 0 <= i < 8 ==> h.Locs(e)[i] < h.size
  {
    forall i: nat | i < 8 ensures h.Loc(i, e) < h.size {
      var x := h.hash(i, e);
      ScaleInRange(x, h.size);
    }
  }

  lemma ScaleMono(a: nat, b: nat, size: nat)
    requires a <= b
    ensures a * size <= b * size
  {
  }

  lemma ScaleInRange(x: U32, size: nat)
    requires size > 0
    ensures x * size / 0x1_0000_0000 < size
  {
    assert x * size < 0x1_0000_0000 * size;
  }

  /** Each place divides the slots as its own hash divides the 32-bit numbers. */
  lemma LocsDivide<E>(h: Hasher<E>, e: E, i: nat)
    requires i < 8
    ensures h.Locs(e)[i] * 0x1_0000_0000 <= h.hash(i, e) * h.size < (h.Locs(e)[i] + 1) * 0x1_0000_0000
  {
    var y := h.hash(i, e) * h.size;
    assert y == y / 0x1_0000_0000 * 0x1_0000_0000 + y % 0x1_0000_0000;
    assert h.Locs(e)[i] == h.Loc(i, e);
  }

  /** Every slot is the place of some hash. */
  lemma EverySlotReached(size: nat, loc: nat) returns (x: U32)
    requires loc < size <= 0x1_0000_0000
    ensures x * size / 0x1_0000_0000 == loc
  {
    var y := loc * 0x1_0000_0000 + size - 1;
    var q, r := y / size, y % size;
    assert y == q * size + r;
    assert (loc + 1) * 0x1_0000_0000 <= size * 0x1_0000_0000;
    assert q < 0x1_0000_0000 by {
      if q >= 0x1_0000_0000 {
        ScaleMono(0x1_0000_0000, q, size);
      }
    }
    x := q;
    assert loc * 0x1_0000_0000 <= x * size < (loc + 1) * 0x1_0000_0000;
  }

  // ----- what is in the table -----

  function CountTrue(v: seq<bool>): nat {
    if v == [] then 0 else CountTrue(v[..|v| - 1]) + if v[|v| - 1] then 1 else 0
  }

  lemma {:induction false} CountUpdate(v: seq<bool>, i: nat, b: bool)
    requires i < |v|
    ensures CountTrue(v[i := b]) + (if v[i] then 1 else 0) == CountTrue(v) + (if b then 1 else 0)
  {
    var n := |v| - 1;
    if i == n {
      assert v[i := b][..n] == v[..n];
    } else {
      assert v[i := b][..n] == v[..n][i := b];
      CountUpdate(v[..n], i, b);
    }
  }

  lemma CountNext(v: seq<bool>, i: nat)
    requires i < |v|
    ensures CountTrue(v[..i + 1]) == CountTrue(v[..i]) + if v[i] then 1 else 0
  {
    assert v[..i + 1][..i] == v[..i];
  }

  lemma {:induction false} CountNone(v: seq<bool>)
    requires forall i :: 0 <= i < |v| ==> !v[i]
    ensures CountTrue(v) == 0
  {
    if v != [] {
      CountNone(v[..|v| - 1]);
    }
  }

  /** Which slots hold a live element of the current epoch. */
  ghost function Current<E>(s: Slots<E>): (v: seq<bool>)
    requires Shape(s, |s.table|)
    ensures |v| == |s.table|
  {
    seq(|s.table|, i requires 0 <= i < |s.table| => s.epoch[i] && !s.discard[i])
  }

  /** Which slots hold a live element of the previous epoch. */
  ghost function Aged<E>(s: Slots<E>): (v: seq<bool>)
    requires Shape(s, |s.table|)
    ensures |v| == |s.table|
  {
    seq(|s.table|, i requires 0 <= i < |s.table| => !s.epoch[i] && !s.discard[i])
  }

  ghost function LiveAt<E>(s: Slots<E>, i: nat): multiset<E>
    requires Shape(s, |s.table|) && i < |s.table|
  {
    if s.discard[i] then multiset{} else multiset{s.table[i]}
  }

  /** The live elements of the first `n` slots. */
  ghost function Live<E>(s: Slots<E>, n: nat): multiset<E>
    requires Shape(s, |s.table|) && n <= |s.table|
  {
    if n == 0 then multiset{} else Live(s, n - 1) + LiveAt(s, n - 1)
  }

  ghost function AllLive<E>(s: Slots<E>): multiset<E>
    requires Shape(s, |s.table|)
  {
    Live(s, |s.table|)
  }

  /** Slots that differ at most at `i`. */
  ghost predicate SameBut<E>(s: Slots<E>, s': Slots<E>, i: nat) {
    && Shape(s, |s.table|) && Shape(s', |s.table|)
    && forall j :: 0 <= j < |s.table| && j != i ==>
         s'.table[j] == s.table[j] && s'.epoch[j] == s.epoch[j] && s'.discard[j] == s.discard[j]
  }

  lemma {:induction false} LiveSame<E>(s: Slots<E>, s': Slots<E>, i: nat, n: nat)
    requires SameBut(s, s', i) && n <= i < |s.table|
    ensures Live(s', n) == Live(s, n)
  {
    if n > 0 {
      LiveSame(s, s', i, n - 1);
    }
  }

  lemma {:induction false} LiveUpdate<E>(s: Slots<E>, s': Slots<E>, i: nat, n: nat)
    requires SameBut(s, s', i) && i < n <= |s.table|
    ensures Live(s', n) + LiveAt(s, i) == Live(s, n) + LiveAt(s', i)
  {
    if i == n - 1 {
      LiveSame(s, s', i, i);
      Swap(Live(s, i), LiveAt(s', i), LiveAt(s, i));
    } else {
      LiveUpdate(s, s', i, n - 1);
      Exchange(Live(s, n - 1), Live(s', n - 1), LiveAt(s, i), LiveAt(s', i), LiveAt(s, n - 1));
    }
  }

  lemma TallyUpdate<E>(s: Slots<E>, s': Slots<E>, i: nat)
    requires SameBut(s, s', i) && i < |s.table|
    ensures AllLive(s') + LiveAt(s, i) == AllLive(s) + LiveAt(s', i)
    ensures CountTrue(Current(s')) + (if Current(s)[i] then 1 else 0)
            == CountTrue(Current(s)) + (if Current(s')[i] then 1 else 0)
    ensures CountTrue(Aged(s')) + (if Aged(s)[i] then 1 else 0) == CountTrue(Aged(s)) + (if Aged(s')[i] then 1 else 0)
  {
    LiveUpdate(s, s', i, |s.table|);
    FlagsUpdate(s, s', i);
    CountUpdate(Current(s), i, Current(s')[i]);
    CountUpdate(Aged(s), i, Aged(s')[i]);
  }

  lemma FlagsUpdate<E>(s: Slots<E>, s': Slots<E>, i: nat)
    requires SameBut(s, s', i) && i < |s.table|
    ensures Current(s') == Current(s)[i := Current(s')[i]] && Aged(s') == Aged(s)[i := Aged(s')[i]]
  {
  }

  // ----- the invariant -----

  /** Every element that is live, or not the default element, sits at one of its own places. */
  ghost predicate Placed<E>(h: Hasher<E>, s: Slots<E>)
    requires Shape(s, h.size)
  {
    forall i :: 0 <= i < h.size && (s.table[i] != h.default || !s.discard[i]) ==> i in h.Locs(s.table[i])
  }

  ghost predicate Unique<E>(h: Hasher<E>, s: Slots<E>) {
    forall i, j :: 0 <= i < j < |s.table| && s.table[i] == s.table[j] ==> s.table[i] == h.default
  }

  function MaxNat(a: nat, b: nat): nat { if a < b then b else a }

  /** The most live elements one epoch can hold. */
  function Cap(epochSize: nat): nat { epochSize + MaxNat(1, epochSize / 16) }

  ghost predicate Bounded<E>(s: Slots<E>, counter: nat, epochSize: nat)
    requires Shape(s, |s.table|)
  {
    && CountTrue(Current(s)) + counter <= Cap(epochSize)
    && CountTrue(Aged(s)) <= Cap(epochSize)
  }

  /** Slot `i` taken by `e`. */
  ghost function Store<E>(s: Slots<E>, i: nat, e: E, epoch: bool): Slots<E>
    requires Shape(s, |s.table|) && i < |s.table|
  {
    Slots(s.table[i := e], s.epoch[i := epoch], s.discard[i := false])
  }

  lemma StoreKeeps<E>(h: Hasher<E>, s: Slots<E>, i: nat, e: E, epoch: bool)
    requires Shape(s, h.size) && Placed(h, s) && Unique(h, s) && i < h.size && i in h.Locs(e)
    requires e == h.default || s.table[i] == e || e !in s.table
    ensures Placed(h, Store(s, i, e, epoch)) && Unique(h, Store(s, i, e, epoch))
  {
  }

  /** An element that is not default and is somewhere in the table is at one of its places. */
  lemma FoundAtLocs<E>(h: Hasher<E>, s: Slots<E>, e: E)
    requires Shape(s, h.size) && Placed(h, s) && e != h.default && e in s.table
    ensures exists k :: 0 <= k < 8 && h.Locs(e)[k] < h.size && s.table[h.Locs(e)[k]] == e
  {
    var i :| 0 <= i < h.size && s.table[i] == e;
    assert i in h.Locs(s.table[i]);
  }

  lemma {:induction false} NothingLive<E>(s: Slots<E>, n: nat)
    requires Shape(s, |s.table|) && n <= |s.table| && forall i :: 0 <= i < n ==> s.discard[i]
    ensures Live(s, n) == multiset{}
  {
    if n > 0 {
      NothingLive(s, n - 1);
    }
  }

  /** Marking a slot discardable frees at most one live element. */
  lemma EraseKeeps<E>(h: Hasher<E>, s: Slots<E>, s': Slots<E>, i: nat, counter: nat, epochSize: nat)
    requires Shape(s, h.size) && i < h.size && Placed(h, s) && Unique(h, s) && Bounded(s, counter, epochSize)
    requires s' == s.(discard := s.discard[i := true])
    ensures Placed(h, s') && Unique(h, s') && Bounded(s', counter, epochSize)
    ensures AllLive(s') + LiveAt(s, i) == AllLive(s)
  {
    TallyUpdate(s, s', i);
    EmptyBag(AllLive(s));
  }

  ghost function IndexIn<E>(t: seq<E>, e: E): (i: nat)
    ensures i <= |t|
    ensures i < |t| ==> t[i] == e
    ensures i == |t| <==> e !in t
  {
    if t == [] then 0 else if t[0] == e then 0 else
      assert t == [t[0]] + t[1..];
      1 + IndexIn(t[1..], e)
  }

  /** An element is found at one of its places. */
  ghost predicate Present<E>(h: Hasher<E>, table: seq<E>, e: E) {
    exists k :: 0 <= k < 8 && h.Locs(e)[k] < |table| && table[h.Locs(e)[k]] == e
  }

  /** The slots after an epoch change: what was old may go, what was current is old now. */
  ghost predicate IsAged<E>(s: Slots<E>, s': Slots<E>)
    requires Shape(s, |s.table|)
  {
    && Shape(s', |s.table|) && s'.table == s.table
    && forall i :: 0 <= i < |s.table| ==> !s'.epoch[i] && (s'.discard[i] <==> s.discard[i] || !s.epoch[i])
  }

  lemma AgedKeeps<E>(h: Hasher<E>, s: Slots<E>, s': Slots<E>)
    requires Shape(s, h.size) && Placed(h, s) && Unique(h, s) && IsAged(s, s')
    ensures Placed(h, s') && Unique(h, s')
    ensures CountTrue(Current(s')) == 0 && CountTrue(Aged(s')) == CountTrue(Current(s))
  {
    CountNone(Current(s'));
    assert Aged(s') == Current(s);
  }

  function Bit(b: bool): nat { if b then 1 else 0 }

  /** One live element more. */
  ghost predicate Grown<E>(s: Slots<E>, s': Slots<E>, e: E, epoch: bool)
    requires Shape(s, |s.table|)
  {
    && Shape(s', |s.table|)
    && AllLive(s') == AllLive(s) + multiset{e}
    && CountTrue(Current(s')) == CountTrue(Current(s)) + Bit(epoch)
    && CountTrue(Aged(s')) == CountTrue(Aged(s)) + Bit(!epoch)
  }

  /** `e` went in and `e'` came out, each with its epoch. */
  ghost predicate Exchanged<E>(s: Slots<E>, s': Slots<E>, e: E, epoch: bool, e': E, epoch': bool)
    requires Shape(s, |s.table|)
  {
    && Shape(s', |s.table|)
    && AllLive(s') + multiset{e'} == AllLive(s) + multiset{e}
    && CountTrue(Current(s')) + Bit(epoch') == CountTrue(Current(s)) + Bit(epoch)
    && CountTrue(Aged(s')) + Bit(!epoch') == CountTrue(Aged(s)) + Bit(!epoch)
  }

  lemma StoreGrows<E>(s: Slots<E>, i: nat, e: E, epoch: bool)
    requires Shape(s, |s.table|) && i < |s.table| && s.discard[i]
    ensures Grown(s, Store(s, i, e, epoch), e, epoch)
  {
    TallyUpdate(s, Store(s, i, e, epoch), i);
    EmptyBag(AllLive(Store(s, i, e, epoch)));
  }

  lemma StoreExchanges<E>(s: Slots<E>, i: nat, e: E, epoch: bool)
    requires Shape(s, |s.table|) && i < |s.table| && !s.discard[i]
    ensures Exchanged(s, Store(s, i, e, epoch), e, epoch, s.table[i], s.epoch[i])
  {
    TallyUpdate(s, Store(s, i, e, epoch), i);
  }

  lemma ExchangedThenGrown<E>(s: Slots<E>, s1: Slots<E>, s2: Slots<E>, e: E, e1: E, epoch: bool)
    requires Shape(s, |s.table|) && Exchanged(s, s1, e, true, e1, epoch) && Grown(s1, s2, e1, epoch)
    ensures Grown(s, s2, e, true)
  {
  }

  lemma ExchangedTwice<E>(s: Slots<E>, s1: Slots<E>, s2: Slots<E>, e: E, e1: E, epoch1: bool, e2: E, epoch2: bool)
    requires Shape(s, |s.table|) && Exchanged(s, s1, e, true, e1, epoch1) && Exchanged(s1, s2, e1, epoch1, e2, epoch2)
    ensures Exchanged(s, s2, e, true, e2, epoch2)
  {
  }

  datatype Op<E> = Add(e: E) | Lookup(e: E, erase: bool)

  lemma {:induction false} LiveSize<E>(s: Slots<E>, n: nat)
    requires Shape(s, |s.table|) && n <= |s.table|
    ensures |Live(s, n)| == CountTrue(Current(s)[..n]) + CountTrue(Aged(s)[..n])
  {
    if n > 0 {
      LiveSize(s, n - 1);
      assert Current(s)[..n][..n - 1] == Current(s)[..n - 1];
      assert Aged(s)[..n][..n - 1] == Aged(s)[..n - 1];
    }
  }

  /** `e` was there and is live in the current epoch now; nothing else changed. */
  ghost predicate Kept<E>(s: Slots<E>, s': Slots<E>, e: E)
    requires Shape(s, |s.table|)
  {
    && Shape(s', |s.table|) && s'.table == s.table
    && AllLive(s) <= AllLive(s') <= AllLive(s) + multiset{e} && e in AllLive(s')
    && CountTrue(Current(s')) <= CountTrue(Current(s)) + 1 && CountTrue(Aged(s')) <= CountTrue(Aged(s))
  }

  /** `e` is marked as live in the current epoch where it was found, and nothing else changed. */
  ghost predicate KeptAlive<E>(h: Hasher<E>, s: Slots<E>, s': Slots<E>, e: E)
    requires Shape(s, h.size)
  {
    exists loc: nat :: loc in h.Locs(e) && loc < h.size && s.table[loc] == e && s' == Store(s, loc, e, true)
  }

  /** Keeping an element that is already there. */
  lemma KeepKeeps<E>(s: Slots<E>, i: nat, e: E)
    requires Shape(s, |s.table|) && i < |s.table| && s.table[i] == e
    ensures Kept(s, Store(s, i, e, true), e)
  {
    var s' := Store(s, i, e, true);
    TallyUpdate(s, s', i);
    EmptyBag(AllLive(s'));
    if !s.discard[i] {
      Cancel(AllLive(s'), AllLive(s), multiset{e});
      LiveHas(s, i, |s.table|);
    }
  }

  lemma {:induction false} LiveHas<E>(s: Slots<E>, i: nat, n: nat)
    requires Shape(s, |s.table|) && i < n <= |s.table| && !s.discard[i]
    ensures s.table[i] in Live(s, n)
  {
    if i < n - 1 {
      LiveHas(s, i, n - 1);
    }
  }

  /** The displacement index expression: the place after the one looked at last, wrapping around. */
  function NextPlace(locs: seq<nat>, last: nat): (k: nat)
    requires |locs| == 8
    ensures k < 8
    ensures last !in locs ==> k == 1
    ensures last in locs && (forall i, j :: 0 <= i < j < 8 ==> locs[i] != locs[j]) ==> locs[k] != last
  {
    (1 + IndexOf(locs, last)) % 8
  }

  /** The place after the first one that is the one looked at last. */
  lemma NextPlaceIs(locs: seq<nat>, last: nat, j: nat)
    requires |locs| == 8 && j < 8 && locs[j] == last && last !in locs[..j]
    ensures NextPlace(locs, last) == if j == 7 then 0 else j + 1
  {
    FirstIndex(locs, last, j);
  }

  lemma {:induction false} FirstIndex(locs: seq<nat>, x: nat, j: nat)
    requires j < |locs| && locs[j] == x && x !in locs[..j]
    ensures IndexOf(locs, x) == j
  {
    if j > 0 {
      assert locs[0] == locs[..j][0];
      assert locs[1..][..j - 1] == locs[..j][1..];
      FirstIndex(locs[1..], x, j - 1);
    }
  }

  function IndexOf(locs: seq<nat>, x: nat): (k: nat)
    ensures k <= |locs|
    ensures k < |locs| ==> locs[k] == x
    ensures k == |locs| <==> x !in locs
  {
    if locs == [] then 0
    else if locs[0] == x then 0
    else
      assert locs == [locs[0]] + locs[1..];
      1 + IndexOf(locs[1..], x)
  }

  // ----- the way of an insertion -----

  /** None of the eight places of `e` may be overwritten. */
  ghost predicate Full<E>(h: Hasher<E>, s: Slots<E>, e: E)
    requires Shape(s, h.size)
  {
    forall k :: 0 <= k < 8 ==> h.Locs(e)[k] < h.size && !s.discard[h.Locs(e)[k]]
  }

  /** `e` took the first of its places that may be overwritten. */
  ghost predicate TakesFirst<E>(h: Hasher<E>, s: Slots<E>, s': Slots<E>, e: E, epoch: bool)
    requires Shape(s, h.size)
  {
    exists k :: 0 <= k < 8 && IsFirst(h, s, s', e, epoch, k)
  }

  ghost predicate IsFirst<E>(h: Hasher<E>, s: Slots<E>, s': Slots<E>, e: E, epoch: bool, k: nat)
    requires Shape(s, h.size) && k < 8
  {
    && h.Locs(e)[k] < h.size && s.discard[h.Locs(e)[k]] && s' == Store(s, h.Locs(e)[k], e, epoch)
    && forall j :: 0 <= j < k ==> h.Locs(e)[j] < h.size && !s.discard[h.Locs(e)[j]]
  }

  /** One round of the cuckoo loop: the table, the element in hand with its epoch, and the place looked at last. */
  datatype Round<E> = Round(slots: Slots<E>, e: E, epoch: bool, last: nat)

  /** All places of the element in hand are live, and it changes places with the one at the next of them. */
  ghost predicate Displaces<E>(h: Hasher<E>, r: Round<E>, r': Round<E>) {
    && Shape(r.slots, h.size) && Full(h, r.slots, r.e)
    && r'.last == h.Locs(r.e)[NextPlace(h.Locs(r.e), r.last)] < h.size
    && r'.slots == Store(r.slots, r'.last, r.e, r.epoch)
    && r'.e == r.slots.table[r'.last] && r'.epoch == r.slots.epoch[r'.last]
  }

  /** The rounds of an insertion that finds no free place in all but the last of them. */
  ghost predicate Path<E>(h: Hasher<E>, rounds: seq<Round<E>>, s: Slots<E>, e: E) {
    && rounds != [] && rounds[0] == Round(s, e, true, INVALID)
    && (forall i :: 0 <= i < |rounds| ==> Shape(rounds[i].slots, h.size))
    && forall i :: 0 <= i < |rounds| - 1 ==> Displaces(h, rounds[i], rounds[i + 1])
  }

  /** An insertion ends with a free place for the element in hand, or after `depthLimit` displacements loses it. */
  ghost predicate Settles<E>(h: Hasher<E>, rounds: seq<Round<E>>, s': Slots<E>, depthLimit: nat, lost: seq<E>)
    requires rounds != [] && Shape(rounds[|rounds| - 1].slots, h.size)
  {
    var r := rounds[|rounds| - 1];
    if |rounds| <= depthLimit then lost == [] && TakesFirst(h, r.slots, s', r.e, r.epoch)
    else |rounds| == depthLimit + 1 && lost == [r.e] && s' == r.slots
  }

  lemma PathGrows<E>(h: Hasher<E>, rounds: seq<Round<E>>, r: Round<E>, s: Slots<E>, e: E)
    requires Path(h, rounds, s, e) && Displaces(h, rounds[|rounds| - 1], r) && Shape(r.slots, h.size)
    ensures Path(h, rounds + [r], s, e)
  {
  }

  /** With a free place, the new element is stored there at once. */
  lemma StoredAtOnce<E>(h: Hasher<E>, rounds: seq<Round<E>>, s: Slots<E>, e: E, s': Slots<E>, depthLimit: nat,
                        lost: seq<E>)
    requires Shape(s, h.size) && Path(h, rounds, s, e) && Settles(h, rounds, s', depthLimit, lost)
    requires depthLimit > 0 && !Full(h, s, e)
    ensures lost == [] && TakesFirst(h, s, s', e, true) && e in s'.table
  {
    assert |rounds| > 1 ==> Displaces(h, rounds[0], rounds[1]);
    var k :| 0 <= k < 8 && IsFirst(h, s, s', e, true, k);
    assert s'.table[h.Locs(e)[k]] == e;
  }

  /** What is live is in the table. */
  lemma {:induction false} LiveInTable<E>(s: Slots<E>, n: nat, e: E)
    requires Shape(s, |s.table|) && n <= |s.table| && e in Live(s, n)
    ensures e in s.table
  {
    if e !in LiveAt(s, n - 1) {
      LiveInTable(s, n - 1, e);
    }
  }

  lemma NothingLost<E>(s: Slots<E>, s': Slots<E>, e: E, lost: seq<E>)
    requires Shape(s, |s.table|) && Shape(s', |s'.table|) && lost == []
    requires AllLive(s') + multiset(lost) == AllLive(s) + multiset{e}
    ensures e in s'.table
  {
    assert e in AllLive(s') + multiset(lost);
    LiveInTable(s', |s'.table|, e);
  }

  class Cache<E(==)> {
    const h: Hasher<E>
    const epochSize: nat
    const depthLimit: nat
    var table: seq<E>
    var flags: PackedFlags.Memory
    var epoch: seq<bool>
    var counter: nat

    ghost predicate Sized()
      reads this
    {
      && 2 <= h.size <= PackedFlags.MAX_SIZE && 1 <= epochSize
      && |table| == h.size && |epoch| == h.size && |flags| == PackedFlags.Bytes(h.size)
    }

    ghost function Contents(): (s: Slots<E>)
      requires Sized()
      reads this
      ensures Shape(s, h.size)
    {
      Slots(table, epoch, PackedFlags.View(flags, h.size))
    }

    ghost predicate Ordered()
      reads this
    {
      Sized() && Placed(h, Contents()) && Unique(h, Contents())
    }

    ghost predicate Valid()
      reads this
    {
      Ordered() && Bounded(Contents(), counter, epochSize)
    }

    /** `setup`: every slot empty and discardable.  The seven largest sizes get no flags at all. */
    constructor (hash: (nat, E) -> U32, default: E, newSize: U32, depthLimit: nat)
      ensures h.size <= PackedFlags.MAX_SIZE ==> Valid() && AllLive(Contents()) == multiset{}
      ensures h.size > PackedFlags.MAX_SIZE ==> !Valid() && flags == []
      ensures h.size <= PackedFlags.MAX_SIZE ==> forall i :: 0 <= i < h.size ==> Contents().discard[i]
      ensures h == Hasher(hash, h.size, default) && this.depthLimit == depthLimit && counter == epochSize
      ensures h.size == MaxNat(2, newSize) && epochSize == MaxNat(1, 45 * h.size % 0x1_0000_0000 / 100)
      ensures table == seq(h.size, _ => default) && epoch == seq(h.size, _ => false)
    {
      var size := MaxNat(2, newSize);
      h := Hasher(hash, size, default);
      this.depthLimit := depthLimit;
      table := seq(size, i => default);
      flags := PackedFlags.Setup(size);
      epoch := seq(size, i => false);
      epochSize := MaxNat(1, 45 * size % 0x1_0000_0000 / 100);
      counter := MaxNat(1, 45 * size % 0x1_0000_0000 / 100);
      new;
      PackedFlags.FlagsSuffice(size);
      if size <= PackedFlags.MAX_SIZE {
        CountNone(Current(Contents()));
        CountNone(Aged(Contents()));
        NothingLive(Contents(), h.size);
      }
    }

    /** Whether an element is in the table; with `erase` the slot where it was found becomes discardable. */
    method Contains(e: E, erase: bool) returns (found: bool, ghost loc: nat)
      requires Valid()
      modifies this`flags
      ensures Valid()
      ensures found <==> Present(h, table, e)
      ensures e != h.default ==> (found <==> e in table)
      ensures !(found && erase) ==> flags == old(flags)
      ensures found ==> loc < h.size && table[loc] == e
      ensures found && erase ==> Contents() == old(Contents()).(discard := old(Contents()).discard[loc := true])
    {
      var locs := h.Locs(e);
      LocInRange(h, e);
      loc := 0;
      if e != h.default && e in table {
        FoundAtLocs(h, Contents(), e);
      }
      for k := 0 to 8
        invariant forall j :: 0 <= j < k ==> table[locs[j]] != e
      {
        if table[locs[k]] == e {
          loc := locs[k];
          if erase {
            PackedFlags.ViewBitSet(flags, h.size, loc);
            ghost var s := Contents();
            flags := PackedFlags.BitSet(flags, locs[k]);
            EraseKeeps(h, s, Contents(), loc, counter, epochSize);
          }
          return true, loc;
        }
      }
      return false, loc;
    }

    /** Counts down to the next scan; a scan may age the epochs.  Afterwards there is room for one more
        element of the current epoch. */
    method EpochCheck()
      requires Valid()
      modifies this`counter, this`epoch, this`flags
      ensures Ordered()
      ensures CountTrue(Current(Contents())) + counter + 1 <= Cap(epochSize)
              && CountTrue(Aged(Contents())) <= Cap(epochSize)
      ensures old(counter) != 0 || CountTrue(Current(old(Contents()))) < epochSize ==> Contents() == old(Contents())
      ensures old(counter) == 0 && CountTrue(Current(old(Contents()))) >= epochSize
              ==> IsAged(old(Contents()), Contents())
      ensures old(counter) != 0 ==> counter == old(counter) - 1
      ensures old(counter) == 0 ==> var unused := CountTrue(Current(old(Contents())));
                counter == if unused >= epochSize then epochSize
                           else MaxNat(1, MaxNat(epochSize / 16, epochSize - unused))
    {
      if counter != 0 {
        counter := counter - 1;
        return;
      }
      var unused := CountUnused();
      if unused >= epochSize {
        AgeEpochs();
        counter := epochSize;
      } else {
        counter := MaxNat(1, MaxNat(epochSize / 16, epochSize - unused));
      }
    }

    lemma CurrentAt(i: nat)
      requires Sized() && i < h.size
      ensures i / 8 < |flags| && (Current(Contents())[i] <==> epoch[i] && !PackedFlags.BitIsSet(flags, i))
    {
    }

    /** The number of live elements of the current epoch. */
    method CountUnused() returns (unused: nat)
      requires Sized()
      ensures unused == CountTrue(Current(Contents()))
    {
      unused := 0;
      ghost var v := Current(Contents());
      for i := 0 to h.size
        invariant unused == CountTrue(v[..i])
      {
        CountNext(v, i);
        CurrentAt(i);
        if epoch[i] && !PackedFlags.BitIsSet(flags, i) {
          unused := unused + 1;
        }
      }
      assert v[..h.size] == v;
    }

    /** Drops the previous epoch and makes the current one the previous. */
    method AgeEpochs()
      requires Ordered() && CountTrue(Current(Contents())) <= Cap(epochSize)
      modifies this`epoch, this`flags
      ensures Ordered() && IsAged(old(Contents()), Contents())
      ensures CountTrue(Current(Contents())) == 0 && CountTrue(Aged(Contents())) <= Cap(epochSize)
    {
      ghost var s := Contents();
      for i := 0 to h.size
        invariant Sized()
        invariant forall j :: 0 <= j < h.size ==>
                    if j < i then !epoch[j] && (Contents().discard[j] <==> s.discard[j] || !s.epoch[j])
                    else epoch[j] == s.epoch[j] && Contents().discard[j] == s.discard[j]
      {
        if epoch[i] {
          epoch := epoch[i := false];
        } else {
          PackedFlags.ViewBitSet(flags, h.size, i);
          flags := PackedFlags.BitSet(flags, i);
        }
      }
      AgedKeeps(h, s, Contents());
    }

    /** Puts `e` into the first of its places that may be overwritten, if there is one. */
    method TryStore(e: E, newEpoch: bool) returns (stored: bool)
      requires Ordered() && (e == h.default || e !in table)
      modifies this`table, this`epoch, this`flags
      ensures Ordered()
      ensures stored ==> Grown(old(Contents()), Contents(), e, newEpoch)
      ensures stored ==> TakesFirst(h, old(Contents()), Contents(), e, newEpoch)
      ensures !stored ==> Contents() == old(Contents()) && flags == old(flags) && Full(h, Contents(), e)
    {
      var locs := h.Locs(e);
      LocInRange(h, e);
      for k := 0 to 8
        invariant forall j :: 0 <= j < k ==> !Contents().discard[locs[j]]
      {
        var loc := locs[k];
        assert loc / 8 < |flags|;
        if PackedFlags.BitIsSet(flags, loc) {
          ghost var s := Contents();
          assert s.discard[loc];
          PackedFlags.ViewBitUnset(flags, h.size, loc);
          table := table[loc := e];
          flags := PackedFlags.BitUnset(flags, loc);
          epoch := epoch[loc := newEpoch];
          assert Contents() == Store(s, loc, e, newEpoch);
          StoreKeeps(h, s, loc, e, newEpoch);
          StoreGrows(s, loc, e, newEpoch);
          assert IsFirst(h, s, Contents(), e, newEpoch, k);
          return true;
        }
      }
      return false;
    }

    /** Exchanges the held element with the live one at `loc`. */
    method Swap(e: E, loc: nat, newEpoch: bool) returns (e': E, epoch': bool)
      requires Ordered() && (e == h.default || e !in table)
      requires loc < h.size && loc in h.Locs(e) && !Contents().discard[loc]
      modifies this`table, this`epoch
      ensures Ordered() && (e' == h.default || e' !in table) && loc in h.Locs(e')
      ensures Exchanged(old(Contents()), Contents(), e, newEpoch, e', epoch')
      ensures Contents() == Store(old(Contents()), loc, e, newEpoch)
      ensures e' == old(table)[loc] && epoch' == old(epoch)[loc]
    {
      ghost var s := Contents();
      e' := table[loc];
      table := table[loc := e];
      epoch' := epoch[loc];
      epoch := epoch[loc := newEpoch];
      assert s.discard[loc := false] == s.discard;
      assert Contents() == Store(s, loc, e, newEpoch);
      StoreKeeps(h, s, loc, e, newEpoch);
      StoreExchanges(s, loc, e, newEpoch);
    }

    /** The second half of a round: the element in hand takes the place of the one at its next place. */
    method DisplaceNext(e: E, lastLoc: nat, lastEpoch: bool) returns (e': E, loc: nat, epoch': bool)
      requires Ordered() && (e == h.default || e !in table) && Full(h, Contents(), e)
      modifies this`table, this`epoch
      ensures Ordered() && (e' == h.default || e' !in table)
      ensures Exchanged(old(Contents()), Contents(), e, lastEpoch, e', epoch')
      ensures Displaces(h, Round(old(Contents()), e, lastEpoch, lastLoc), Round(Contents(), e', epoch', loc))
    {
      var locs := h.Locs(e);
      loc := locs[NextPlace(locs, lastLoc)];
      e', epoch' := Swap(e, loc, lastEpoch);
    }

    /** The cuckoo loop for an element that is not there yet: at most one element is lost, and none before
        `depthLimit` displacements. */
    method Displace(e0: E) returns (ghost lost: seq<E>, ghost rounds: seq<Round<E>>)
      requires Ordered() && (e0 == h.default || e0 !in table)
      modifies this`table, this`epoch, this`flags
      ensures Ordered() && |lost| <= 1
      ensures Path(h, rounds, old(Contents()), e0) && Settles(h, rounds, Contents(), depthLimit, lost)
      ensures AllLive(Contents()) + multiset(lost) == AllLive(old(Contents())) + multiset{e0}
      ensures CountTrue(Current(Contents())) <= CountTrue(Current(old(Contents()))) + 1
      ensures CountTrue(Aged(Contents())) <= CountTrue(Aged(old(Contents())))
    {
      ghost var s0 := Contents();
      var e, lastLoc, lastEpoch, locs := e0, INVALID, true, h.Locs(e0);
      rounds := [Round(s0, e0, true, INVALID)];
      for depth := 0 to depthLimit
        invariant Ordered() && locs == h.Locs(e) && (e == h.default || e !in table)
        invariant Exchanged(s0, Contents(), e0, true, e, lastEpoch)
        invariant |rounds| == depth + 1 && Path(h, rounds, s0, e0)
        invariant rounds[depth] == Round(Contents(), e, lastEpoch, lastLoc)
      {
        ghost var s1 := Contents();
        var stored := TryStore(e, lastEpoch);
        if stored {
          ExchangedThenGrown(s0, s1, Contents(), e0, e, lastEpoch);
          lost := [];
          return;
        }
        ghost var e1, epoch1 := e, lastEpoch;
        e, lastLoc, lastEpoch := DisplaceNext(e, lastLoc, lastEpoch);
        ExchangedTwice(s0, s1, Contents(), e0, e1, epoch1, e, lastEpoch);
        locs := h.Locs(e);
        PathGrows(h, rounds, Round(Contents(), e, lastEpoch, lastLoc), s0, e0);
        rounds := rounds + [Round(Contents(), e, lastEpoch, lastLoc)];
      }
      lost := [e];
    }

    /** The same: with a free place the element is stored there at once, and it is stored if none is lost. */
    method InsertNew(e: E) returns (ghost lost: seq<E>, ghost rounds: seq<Round<E>>)
      requires Ordered() && (e == h.default || e !in table)
      modifies this`table, this`epoch, this`flags
      ensures Ordered() && |lost| <= 1
      ensures Path(h, rounds, old(Contents()), e) && Settles(h, rounds, Contents(), depthLimit, lost)
      ensures AllLive(Contents()) + multiset(lost) == AllLive(old(Contents())) + multiset{e}
      ensures CountTrue(Current(Contents())) <= CountTrue(Current(old(Contents()))) + 1
      ensures CountTrue(Aged(Contents())) <= CountTrue(Aged(old(Contents())))
      ensures !Full(h, old(Contents()), e) && depthLimit > 0 ==>
                lost == [] && TakesFirst(h, old(Contents()), Contents(), e, true)
      ensures lost == [] ==> e in table
    {
      ghost var s := Contents();
      lost, rounds := Displace(e);
      if depthLimit > 0 && !Full(h, s, e) {
        StoredAtOnce(h, rounds, s, e, Contents(), depthLimit, lost);
      }
      if lost == [] {
        NothingLost(s, Contents(), e, lost);
      }
    }

    /** If `e` is already at one of its places, makes sure that it is kept. */
    method KeepIfPresent(e: E) returns (found: bool)
      requires Ordered()
      modifies this`epoch, this`flags
      ensures Ordered() && (found <==> Present(h, table, e))
      ensures !found ==> Contents() == old(Contents()) && (e == h.default || e !in table)
      ensures found ==> Kept(old(Contents()), Contents(), e)
      ensures found ==> KeptAlive(h, old(Contents()), Contents(), e)
    {
      ghost var s := Contents();
      var locs := h.Locs(e);
      LocInRange(h, e);
      for k := 0 to 8
        invariant forall j :: 0 <= j < k ==> table[locs[j]] != e
      {
        var loc := locs[k];
        if table[loc] == e {
          PackedFlags.ViewBitUnset(flags, h.size, loc);
          flags := PackedFlags.BitUnset(flags, loc);
          epoch := epoch[loc := true];
          assert table[loc := e] == table;
          assert Contents() == Store(s, loc, e, true);
          StoreKeeps(h, s, loc, e, true);
          KeepKeeps(s, loc, e);
          return true;
        }
      }
      if e != h.default && e in table {
        FoundAtLocs(h, Contents(), e);
      }
      return false;
    }

    /** The rest of an insertion after the epoch check, which left room for one more element. */
    method InsertChecked(e: E) returns (ghost lost: seq<E>, ghost rounds: seq<Round<E>>)
      requires Ordered()
      requires CountTrue(Current(Contents())) + counter + 1 <= Cap(epochSize)
      requires CountTrue(Aged(Contents())) <= Cap(epochSize)
      modifies this`table, this`epoch, this`flags
      ensures Valid() && |lost| <= 1
      ensures Present(h, old(table), e) ==> lost == [] && KeptAlive(h, old(Contents()), Contents(), e)
      ensures Present(h, old(table), e) ==> Kept(old(Contents()), Contents(), e)
      ensures !Present(h, old(table), e) ==>
                AllLive(Contents()) + multiset(lost) == AllLive(old(Contents())) + multiset{e}
      ensures !Present(h, old(table), e) ==>
                Path(h, rounds, old(Contents()), e) && Settles(h, rounds, Contents(), depthLimit, lost)
      ensures !Present(h, old(table), e) && !Full(h, old(Contents()), e) && depthLimit > 0 ==>
                lost == [] && TakesFirst(h, old(Contents()), Contents(), e, true)
      ensures lost == [] ==> e in table
    {
      lost, rounds := [], [];
      var found := KeepIfPresent(e);
      if !found {
        lost, rounds := InsertNew(e);
      }
    }

    /** Inserts an element.  `s` is the table after the epoch check; every live element of it and the new
        one are kept, except for at most one, which is lost only after `depthLimit` displacements.  If the new
        element has a free place, nothing is lost. */
    method Insert(e: E) returns (ghost s: Slots<E>, ghost lost: seq<E>, ghost rounds: seq<Round<E>>)
      requires Valid()
      modifies this`table, this`epoch, this`flags, this`counter
      ensures Valid() && Shape(s, h.size) && |lost| <= 1
      ensures if old(counter) == 0 && CountTrue(Current(old(Contents()))) >= epochSize then IsAged(old(Contents()), s)
              else s == old(Contents())
      ensures Present(h, s.table, e) ==>
                lost == [] && KeptAlive(h, s, Contents(), e) && Kept(s, Contents(), e)
      ensures !Present(h, s.table, e) ==> AllLive(Contents()) + multiset(lost) == AllLive(s) + multiset{e}
      ensures !Present(h, s.table, e) ==> Path(h, rounds, s, e) && Settles(h, rounds, Contents(), depthLimit, lost)
      ensures !Present(h, s.table, e) && !Full(h, s, e) && depthLimit > 0 ==>
                lost == [] && TakesFirst(h, s, Contents(), e, true)
      ensures lost == [] ==> e in table
    {
      EpochCheck();
      s := Contents();
      lost, rounds := InsertChecked(e);
    }

    /** After an insertion, an element that is found and erased is still found: erased slots keep their elements
        until the space is needed. */
    method InsertAndErase(e: E) returns (found: bool)
      requires Valid()
      modifies this`table, this`epoch, this`flags, this`counter
      ensures Valid() && found
    {
      var _, _, _ := Insert(e);
      var there, _ := Contains(e, true);
      if there {
        var again, _ := Contains(e, false);
        found := again;
      } else {
        found := true;
      }
    }

    /** The load bound in every state. */
    lemma LoadIsBounded()
      requires Valid()
      ensures |AllLive(Contents())| <= 2 * (epochSize + if epochSize < 32 then 1 else epochSize / 16)
    {
      LiveSize(Contents(), h.size);
      assert Current(Contents())[..h.size] == Current(Contents());
      assert Aged(Contents())[..h.size] == Aged(Contents());
    }

    /** Any run of inserts and lookups keeps the load bound, although the exact number of live elements is
        counted only now and then. */
    method Run(ops: seq<Op<E>>)
      requires Valid()
      modifies this`table, this`epoch, this`flags, this`counter
      ensures Valid() && |AllLive(Contents())| <= 2 * (epochSize + if epochSize < 32 then 1 else epochSize / 16)
    {
      for i := 0 to |ops|
        invariant Valid()
      {
        match ops[i]
        case Add(e) => var _, _, _ := Insert(e);
        case Lookup(e, erase) => var _, _ := Contains(e, erase);
      }
      LoadIsBounded();
    }
  }
}
