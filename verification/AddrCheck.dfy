/** The consistency oracle of the address manager (src/addrman.cpp, `Check_`).  It returns zero exactly on the
    states with `Passes`, and that is the invariant of the address manager but for three things that the oracle
    does not look at (`PassesIsInvariant`). */
module AddrCheck {
  import opened Hiding
  import opened Sets
  import opened AddrBook
  import AM = AddrMan

  // ----- what the oracle looks at -----

  /** `mapAddr[info] == id`: looking up a missing address inserts it and yields zero. */
  predicate Found(ids: map<NetAddr, int>, a: NetAddr, id: int) {
    if a in ids then ids[a] == id else id == 0
  }

  predicate EntryOk(x: Info, ids: map<NetAddr, int>, order: seq<int>, id: int) {
    && (if x.inTried then x.lastSuccess != 0 && x.refCount == 0 else 1 <= x.refCount <= NEW_BUCKETS_PER_ADDRESS)
    && Found(ids, x.service.ip, id)
    && 0 <= x.randomPos < |order| && order[x.randomPos] == id
    && x.lastTry >= 0 && x.lastSuccess >= 0
  }

  ghost predicate EntriesOk(m: map<int, Info>, ids: map<NetAddr, int>, order: seq<int>) {
    forall id :: id in m ==> EntryOk(m[id], ids, order, id)
  }

  /** Slot (b, p) of the tried table may hold `id`. */
  predicate TriedSlot(k: Keyed, m: map<int, Info>, b: nat, p: nat, id: int) {
    id in m && m[id].inTried && k.TriedBucket(m[id].service) == b && k.BucketPosition(m[id].service, false, b) == p
  }

  /** Slot (b, p) of the new table may hold `id`. */
  predicate NewSlot(k: Keyed, m: map<int, Info>, b: nat, p: nat, id: int) {
    id in m && !m[id].inTried && k.BucketPosition(m[id].service, true, b) == p
  }

  /** Slot (b, p) is visited before slot (n, i). */
  predicate Before(b: nat, p: nat, n: nat, i: nat) {
    b < n || (b == n && p < i)
  }

  /** The slots before (n, i) of the tried table hold only what they may. */
  ghost predicate TriedSlots(k: Keyed, m: map<int, Info>, t: Table, n: nat, i: nat)
    requires Shape(t, TRIED_BUCKETS)
  {
    forall b: nat, p: nat :: b < TRIED_BUCKETS && p < BUCKET_SIZE && Before(b, p, n, i) && t[b][p] != EMPTY ==>
      TriedSlot(k, m, b, p, t[b][p])
  }

  ghost predicate NewSlots(k: Keyed, m: map<int, Info>, t: Table, n: nat, i: nat)
    requires Shape(t, NEW_BUCKETS)
  {
    forall b: nat, p: nat :: b < NEW_BUCKETS && p < BUCKET_SIZE && Before(b, p, n, i) && t[b][p] != EMPTY ==>
      NewSlot(k, m, b, p, t[b][p])
  }

  /** A tried entry has been seen in its slot, before slot (n, i). */
  ghost predicate Seen(k: Keyed, t: Table, s: Service, id: int, n: nat, i: nat)
    requires Shape(t, TRIED_BUCKETS)
  {
    var b := k.TriedBucket(s);
    var p := k.BucketPosition(s, false, b);
    id != EMPTY && Before(b, p, n, i) && t[b][p] == id
  }

  /** The buckets in which a new entry has been seen, before slot (n, i). */
  ghost function Held(k: Keyed, t: Table, s: Service, id: int, n: nat, i: nat): set<nat>
    requires Shape(t, NEW_BUCKETS)
  {
    set b: nat | b < NEW_BUCKETS && id != EMPTY && Before(b, k.BucketPosition(s, true, b), n, i)
                 && t[b][k.BucketPosition(s, true, b)] == id
  }

  ghost predicate TriedPart(k: Keyed, m: map<int, Info>, t: Table)
    requires Shape(t, TRIED_BUCKETS)
  {
    && TriedSlots(k, m, t, TRIED_BUCKETS, 0)
    && forall id :: id in m && m[id].inTried ==> Seen(k, t, m[id].service, id, TRIED_BUCKETS, 0)
  }

  ghost predicate NewPart(k: Keyed, m: map<int, Info>, t: Table)
    requires Shape(t, NEW_BUCKETS)
  {
    && NewSlots(k, m, t, NEW_BUCKETS, 0)
    && forall id :: id in m && !m[id].inTried ==> m[id].refCount == |Held(k, t, m[id].service, id, NEW_BUCKETS, 0)|
  }

  /** All that the oracle checks. */
  ghost predicate Passes(k: Keyed, bk: Book, order: seq<int>)
    requires Shape(bk.newTable, NEW_BUCKETS) && Shape(bk.triedTable, TRIED_BUCKETS)
  {
    && |order| == bk.triedCount + bk.newCount && k.key != 0
    && EntriesOk(bk.infos, bk.ids, order)
    && |TriedIds(bk.infos)| == bk.triedCount && |NewIds(bk.infos)| == bk.newCount
    && TriedPart(k, bk.infos, bk.triedTable) && NewPart(k, bk.infos, bk.newTable)
  }

  // ----- what the codes mean -----

  predicate EntryFault(code: int, x: Info, ids: map<NetAddr, int>, order: seq<int>, id: int) {
    || (code == -1 && x.inTried && x.lastSuccess == 0)
    || (code == -2 && x.inTried && x.refCount != 0)
    || (code == -3 && !x.inTried && !(0 <= x.refCount <= 8))
    || (code == -4 && !x.inTried && x.refCount == 0)
    || (code == -5 && !Found(ids, x.service.ip, id))
    || (code == -14 && !(0 <= x.randomPos < |order| && order[x.randomPos] == id))
    || (code == -6 && x.lastTry < 0)
    || (code == -8 && x.lastSuccess < 0)
  }

  /** Slot (b, p) of the tried table is at fault. */
  ghost predicate TriedFault(code: int, k: Keyed, m: map<int, Info>, t: Table, b: nat, p: nat)
    requires Shape(t, TRIED_BUCKETS) && b < TRIED_BUCKETS && p < BUCKET_SIZE
  {
    && t[b][p] != EMPTY
    && (|| (code == -11 && !TriedSlot(k, m, b, p, t[b][p]))
        || (code == -17 && t[b][p] in m && k.TriedBucket(m[t[b][p]].service) != b)
        || (code == -18 && t[b][p] in m && k.BucketPosition(m[t[b][p]].service, false, b) != p))
  }

  /** Slot (b, p) of the new table is at fault, or its entry is in more slots than it has references. */
  ghost predicate NewFault(code: int, k: Keyed, m: map<int, Info>, t: Table, b: nat, p: nat)
    requires Shape(t, NEW_BUCKETS) && b < NEW_BUCKETS && p < BUCKET_SIZE
  {
    && t[b][p] != EMPTY
    && (|| (code == -12 && (NewSlot(k, m, b, p, t[b][p]) ==>
                m[t[b][p]].refCount < |Held(k, t, m[t[b][p]].service, t[b][p], NEW_BUCKETS, 0)|))
        || (code == -19 && t[b][p] in m && k.BucketPosition(m[t[b][p]].service, true, b) != p))
  }

  ghost predicate SomeEntryFault(code: int, m: map<int, Info>, ids: map<NetAddr, int>, order: seq<int>) {
    exists id :: id in m && EntryFault(code, m[id], ids, order, id)
  }

  ghost predicate SomeTriedFault(code: int, k: Keyed, m: map<int, Info>, t: Table)
    requires Shape(t, TRIED_BUCKETS)
  {
    exists b: nat, p: nat :: b < TRIED_BUCKETS && p < BUCKET_SIZE && TriedFault(code, k, m, t, b, p)
  }

  ghost predicate SomeNewFault(code: int, k: Keyed, m: map<int, Info>, t: Table)
    requires Shape(t, NEW_BUCKETS)
  {
    exists b: nat, p: nat :: b < NEW_BUCKETS && p < BUCKET_SIZE && NewFault(code, k, m, t, b, p)
  }

  /** A tried entry is not in its slot. */
  ghost predicate TriedMissing(k: Keyed, m: map<int, Info>, t: Table)
    requires Shape(t, TRIED_BUCKETS)
  {
    exists id :: id in m && m[id].inTried && !Seen(k, t, m[id].service, id, TRIED_BUCKETS, 0)
  }

  /** A new entry has references without slots. */
  ghost predicate NewMissing(k: Keyed, m: map<int, Info>, t: Table)
    requires Shape(t, NEW_BUCKETS)
  {
    exists id :: id in m && !m[id].inTried && m[id].refCount > |Held(k, t, m[id].service, id, NEW_BUCKETS, 0)|
  }

  /** The fault that a code other than zero names. */
  ghost predicate Fault(code: int, k: Keyed, bk: Book, order: seq<int>)
    requires Shape(bk.newTable, NEW_BUCKETS) && Shape(bk.triedTable, TRIED_BUCKETS)
  {
    || (code == -7 && |order| != bk.triedCount + bk.newCount)
    || SomeEntryFault(code, bk.infos, bk.ids, order)
    || (code == -9 && |TriedIds(bk.infos)| != bk.triedCount)
    || (code == -10 && |NewIds(bk.infos)| != bk.newCount)
    || SomeTriedFault(code, k, bk.infos, bk.triedTable)
    || SomeNewFault(code, k, bk.infos, bk.newTable)
    || (code == -13 && TriedMissing(k, bk.infos, bk.triedTable))
    || (code == -15 && NewMissing(k, bk.infos, bk.newTable))
    || (code == -16 && k.key == 0)
  }

  /** Each of these faults breaks what the oracle checks. */
  lemma FaultsFail(code: int, k: Keyed, bk: Book, order: seq<int>)
    requires Shape(bk.newTable, NEW_BUCKETS) && Shape(bk.triedTable, TRIED_BUCKETS)
    requires Fault(code, k, bk, order)
    ensures code < 0 && !Passes(k, bk, order)
  {
    if SomeTriedFault(code, k, bk.infos, bk.triedTable) {
      var b: nat, p: nat :| b < TRIED_BUCKETS && p < BUCKET_SIZE && TriedFault(code, k, bk.infos, bk.triedTable, b, p);
      assert Before(b, p, TRIED_BUCKETS, 0);
    } else if SomeNewFault(code, k, bk.infos, bk.newTable) {
      var b: nat, p: nat :| b < NEW_BUCKETS && p < BUCKET_SIZE && NewFault(code, k, bk.infos, bk.newTable, b, p);
      assert Before(b, p, NEW_BUCKETS, 0);
    }
  }

  // ----- the loop over the entries -----

  /** No address lookup misses. */
  ghost predicate AllIndexed(m: map<int, Info>, ids: map<NetAddr, int>) {
    forall id :: id in m ==> m[id].service.ip in ids
  }

  /** Address lookups have added nothing but zeroes. */
  ghost predicate Looked(ids: map<NetAddr, int>, ids': map<NetAddr, int>) {
    && (forall a :: a in ids ==> a in ids' && ids'[a] == ids[a])
    && forall a :: a in ids' && a !in ids ==> ids'[a] == 0
  }

  /** The checks on one entry; `ids` is the address index with the insertions so far. */
  method CheckEntry(x: Info, id: int, ids: map<NetAddr, int>, order: seq<int>, ghost ids0: map<NetAddr, int>)
    returns (code: int, ids': map<NetAddr, int>)
    requires Looked(ids0, ids)
    ensures code == 0 <==> EntryOk(x, ids0, order, id)
    ensures code != 0 ==> EntryFault(code, x, ids0, order, id)
    ensures Looked(ids0, ids') && (x.service.ip in ids0 ==> ids' == ids)
  {
    ids' := ids;
    if x.inTried {
      if x.lastSuccess == 0 { return -1, ids'; }
      if x.refCount != 0 { return -2, ids'; }
    } else {
      if x.refCount < 0 || x.refCount > NEW_BUCKETS_PER_ADDRESS { return -3, ids'; }
      if x.refCount == 0 { return -4, ids'; }
    }
    if x.service.ip !in ids' {
      ids' := ids'[x.service.ip := 0];
    }
    if ids'[x.service.ip] != id { return -5, ids'; }
    if x.randomPos < 0 || x.randomPos >= |order| || order[x.randomPos] != id { return -14, ids'; }
    if x.lastTry < 0 { return -6, ids'; }
    if x.lastSuccess < 0 { return -8, ids'; }
    code := 0;
  }

  method Pick<T(==)>(s: set<T>) returns (x: T)
    requires s != {}
    ensures x in s
  {
    x :| x in s;
  }

  method CheckEntries(m: map<int, Info>, ids: map<NetAddr, int>, order: seq<int>)
    returns (code: int, ids': map<NetAddr, int>, tried: set<int>, refs: map<int, int>)
    ensures code == 0 <==> EntriesOk(m, ids, order)
    ensures code != 0 ==> SomeEntryFault(code, m, ids, order)
    ensures Looked(ids, ids') && (AllIndexed(m, ids) ==> ids' == ids)
    ensures code == 0 ==> forall id :: id in tried <==> id in m && m[id].inTried
    ensures code == 0 ==> forall id :: id in refs <==> id in m && !m[id].inTried
    ensures code == 0 ==> forall id :: id in refs ==> refs[id] == m[id].refCount
  {
    code, ids', tried, refs := 0, ids, {}, map[];
    var todo := m.Keys;
    while todo != {}
      invariant todo <= m.Keys && code == 0
      invariant Looked(ids, ids') && (AllIndexed(m, ids) ==> ids' == ids)
      invariant forall id :: id in m && id !in todo ==> EntryOk(m[id], ids, order, id)
      invariant forall id :: id in tried <==> id in m && id !in todo && m[id].inTried
      invariant forall id :: id in refs <==> id in m && id !in todo && !m[id].inTried
      invariant forall id :: id in refs ==> refs[id] == m[id].refCount
      decreases |todo|
    {
      var id := Pick(todo);
      code, ids' := CheckEntry(m[id], id, ids', order, ids);
      if code != 0 {
        return;
      }
      if m[id].inTried {
        tried := tried + {id};
      } else {
        refs := refs[id := m[id].refCount];
      }
      todo := todo - {id};
    }
  }

  // ----- the loop over the tried table -----

  /** What is left of the tried ids when slot (n, i) is reached. */
  ghost predicate TriedLeft(k: Keyed, m: map<int, Info>, t: Table, left: set<int>, n: nat, i: nat)
    requires Shape(t, TRIED_BUCKETS)
  {
    forall id :: id in left <==> id in m && m[id].inTried && !Seen(k, t, m[id].service, id, n, i)
  }

  lemma SeenNext(k: Keyed, t: Table, s: Service, id: int, n: nat, i: nat)
    requires Shape(t, TRIED_BUCKETS) && n < TRIED_BUCKETS && i < BUCKET_SIZE
    ensures var here := k.TriedBucket(s) == n && k.BucketPosition(s, false, n) == i;
            Seen(k, t, s, id, n, i + 1) <==> Seen(k, t, s, id, n, i) || (here && id != EMPTY && t[n][i] == id)
    ensures k.TriedBucket(s) == n && k.BucketPosition(s, false, n) == i ==> !Seen(k, t, s, id, n, i)
  {
  }

  /** A slot with what it may hold is crossed off; an empty slot changes nothing. */
  lemma TriedStep(k: Keyed, m: map<int, Info>, t: Table, left: set<int>, n: nat, i: nat)
    requires Shape(t, TRIED_BUCKETS) && n < TRIED_BUCKETS && i < BUCKET_SIZE
    requires TriedLeft(k, m, t, left, n, i)
    ensures t[n][i] == EMPTY ==> TriedLeft(k, m, t, left, n, i + 1)
    ensures t[n][i] != EMPTY ==> (TriedSlot(k, m, n, i, t[n][i]) ==> t[n][i] in left)
    ensures t[n][i] != EMPTY && TriedSlot(k, m, n, i, t[n][i]) ==> TriedLeft(k, m, t, left - {t[n][i]}, n, i + 1)
  {
    forall id | id in m
      ensures Seen(k, t, m[id].service, id, n, i + 1) <==>
                Seen(k, t, m[id].service, id, n, i)
                || (k.TriedBucket(m[id].service) == n && k.BucketPosition(m[id].service, false, n) == i
                    && id != EMPTY && t[n][i] == id)
    {
      SeenNext(k, t, m[id].service, id, n, i);
    }
    var id := t[n][i];
    if id in m {
      SeenNext(k, t, m[id].service, id, n, i);
    }
  }

  lemma TriedSlotsNext(k: Keyed, m: map<int, Info>, t: Table, n: nat, i: nat)
    requires Shape(t, TRIED_BUCKETS) && n < TRIED_BUCKETS && i < BUCKET_SIZE && TriedSlots(k, m, t, n, i)
    ensures TriedSlots(k, m, t, n, i + 1) <==> t[n][i] == EMPTY || TriedSlot(k, m, n, i, t[n][i])
  {
    assert Before(n, i, n, i + 1);
  }

  /** A wrong slot is never forgiven. */
  lemma TriedSlotsShrink(k: Keyed, m: map<int, Info>, t: Table, n: nat, i: nat)
    requires Shape(t, TRIED_BUCKETS) && n < TRIED_BUCKETS && i <= BUCKET_SIZE
    ensures TriedSlots(k, m, t, TRIED_BUCKETS, 0) ==> TriedSlots(k, m, t, n, i)
  {
  }

  /** The slots of one bucket. */
  method CheckTriedBucket(k: Keyed, m: map<int, Info>, t: Table, n: nat, tried: set<int>)
    returns (code: int, left: set<int>)
    requires Shape(t, TRIED_BUCKETS) && n < TRIED_BUCKETS && TriedSlots(k, m, t, n, 0)
    requires TriedLeft(k, m, t, tried, n, 0)
    ensures code == 0 <==> TriedSlots(k, m, t, n, BUCKET_SIZE)
    ensures code != 0 ==> SomeTriedFault(code, k, m, t)
    ensures code == 0 ==> TriedLeft(k, m, t, left, n, BUCKET_SIZE)
  {
    code, left := 0, tried;
    for i := 0 to BUCKET_SIZE
      invariant code == 0 && TriedSlots(k, m, t, n, i) && TriedLeft(k, m, t, left, n, i)
    {
      var id := t[n][i];
      TriedSlotsNext(k, m, t, n, i);
      TriedStep(k, m, t, left, n, i);
      if id != EMPTY {
        code := if id !in left then -11
                else if k.TriedBucket(m[id].service) != n then -17
                else if k.BucketPosition(m[id].service, false, n) != i then -18
                else 0;
        if code != 0 {
          TriedSlotsWithin(k, m, t, n, i + 1);
          assert TriedFault(code, k, m, t, n, i);
          return;
        }
        left := left - {id};
      }
    }
  }

  lemma TriedSlotsWithin(k: Keyed, m: map<int, Info>, t: Table, n: nat, i: nat)
    requires Shape(t, TRIED_BUCKETS) && n < TRIED_BUCKETS && i <= BUCKET_SIZE
    ensures TriedSlots(k, m, t, n, BUCKET_SIZE) ==> TriedSlots(k, m, t, n, i)
  {
  }

  lemma TriedRollover(k: Keyed, m: map<int, Info>, t: Table, left: set<int>, n: nat)
    requires Shape(t, TRIED_BUCKETS) && n < TRIED_BUCKETS
    ensures TriedSlots(k, m, t, n, BUCKET_SIZE) <==> TriedSlots(k, m, t, n + 1, 0)
    ensures TriedLeft(k, m, t, left, n, BUCKET_SIZE) <==> TriedLeft(k, m, t, left, n + 1, 0)
  {
    forall id | id in m
      ensures Seen(k, t, m[id].service, id, n, BUCKET_SIZE) <==> Seen(k, t, m[id].service, id, n + 1, 0)
    {
    }
  }

  method CheckTried(k: Keyed, m: map<int, Info>, t: Table, tried: set<int>) returns (code: int, left: set<int>)
    requires Shape(t, TRIED_BUCKETS) && forall id :: id in tried <==> id in m && m[id].inTried
    ensures code == 0 <==> TriedSlots(k, m, t, TRIED_BUCKETS, 0)
    ensures code != 0 ==> SomeTriedFault(code, k, m, t)
    ensures code == 0 ==> TriedLeft(k, m, t, left, TRIED_BUCKETS, 0)
  {
    code, left := 0, tried;
    for n := 0 to TRIED_BUCKETS
      invariant code == 0 && TriedSlots(k, m, t, n, 0) && TriedLeft(k, m, t, left, n, 0)
    {
      code, left := CheckTriedBucket(k, m, t, n, left);
      if code != 0 {
        TriedSlotsShrink(k, m, t, n, BUCKET_SIZE);
        return;
      }
      TriedRollover(k, m, t, left, n);
    }
  }

  // ----- the loop over the new table -----

  /** What is left of one entry's references when slot (n, i) is reached. */
  ghost predicate RefsLeftOf(k: Keyed, x: Info, t: Table, refs: map<int, int>, id: int, n: nat, i: nat)
    requires Shape(t, NEW_BUCKETS)
  {
    var left := x.refCount - |Held(k, t, x.service, id, n, i)|;
    left >= 0 && (id in refs <==> left > 0) && (id in refs ==> refs[id] == left)
  }

  ghost predicate RefsLeft(k: Keyed, m: map<int, Info>, t: Table, refs: map<int, int>, n: nat, i: nat)
    requires Shape(t, NEW_BUCKETS)
  {
    && (forall id :: id in refs ==> id in m && !m[id].inTried)
    && forall id :: id in m && !m[id].inTried ==> RefsLeftOf(k, m[id], t, refs, id, n, i)
  }

  lemma HeldNext(k: Keyed, t: Table, s: Service, id: int, n: nat, i: nat)
    requires Shape(t, NEW_BUCKETS) && n < NEW_BUCKETS && i < BUCKET_SIZE
    ensures var here := id != EMPTY && k.BucketPosition(s, true, n) == i && t[n][i] == id;
            && Held(k, t, s, id, n, i + 1) == (if here then Held(k, t, s, id, n, i) + {n} else Held(k, t, s, id, n, i))
            && |Held(k, t, s, id, n, i + 1)| == |Held(k, t, s, id, n, i)| + if here then 1 else 0
  {
    var held, next := Held(k, t, s, id, n, i), Held(k, t, s, id, n, i + 1);
    if id != EMPTY && k.BucketPosition(s, true, n) == i && t[n][i] == id {
      assert n !in held && next == held + {n};
    } else {
      assert next == held;
    }
  }

  lemma HeldGrows(k: Keyed, t: Table, s: Service, id: int, n: nat, i: nat)
    requires Shape(t, NEW_BUCKETS) && n < NEW_BUCKETS && i <= BUCKET_SIZE
    ensures |Held(k, t, s, id, n, i)| <= |Held(k, t, s, id, NEW_BUCKETS, 0)|
  {
    var held, all := Held(k, t, s, id, n, i), Held(k, t, s, id, NEW_BUCKETS, 0);
    assert held <= all;
    SubsetSize(held, all);
  }

  /** The reference counters after the slot of `id`. */
  function Counted(refs: map<int, int>, id: int): map<int, int>
    requires id in refs
  {
    if refs[id] - 1 == 0 then refs - {id} else refs[id := refs[id] - 1]
  }

  lemma RefsStepOf(k: Keyed, x: Info, t: Table, refs: map<int, int>, refs': map<int, int>, id: int, n: nat, i: nat)
    requires Shape(t, NEW_BUCKETS) && n < NEW_BUCKETS && i < BUCKET_SIZE
    requires RefsLeftOf(k, x, t, refs, id, n, i)
    requires if id == t[n][i] && id != EMPTY then k.BucketPosition(x.service, true, n) == i && id in refs
             && refs' == Counted(refs, id)
             else (id in refs' <==> id in refs) && (id in refs ==> refs'[id] == refs[id])
    ensures RefsLeftOf(k, x, t, refs', id, n, i + 1)
  {
    HeldNext(k, t, x.service, id, n, i);
  }

  lemma RefsStep(k: Keyed, m: map<int, Info>, t: Table, refs: map<int, int>, n: nat, i: nat)
    requires Shape(t, NEW_BUCKETS) && n < NEW_BUCKETS && i < BUCKET_SIZE
    requires RefsLeft(k, m, t, refs, n, i)
    requires t[n][i] != EMPTY ==> t[n][i] in refs && NewSlot(k, m, n, i, t[n][i])
    ensures RefsLeft(k, m, t, if t[n][i] == EMPTY then refs else Counted(refs, t[n][i]), n, i + 1)
  {
    var refs' := if t[n][i] == EMPTY then refs else Counted(refs, t[n][i]);
    forall id | id in m && !m[id].inTried ensures RefsLeftOf(k, m[id], t, refs', id, n, i + 1) {
      RefsStepOf(k, m[id], t, refs, refs', id, n, i);
    }
  }

  /** A slot whose entry has no reference left shows that the count is wrong. */
  lemma TooManySlots(k: Keyed, m: map<int, Info>, t: Table, refs: map<int, int>, n: nat, i: nat)
    requires Shape(t, NEW_BUCKETS) && n < NEW_BUCKETS && i < BUCKET_SIZE && RefsLeft(k, m, t, refs, n, i)
    requires t[n][i] != EMPTY && t[n][i] !in refs
    ensures !NewPart(k, m, t) && NewFault(-12, k, m, t, n, i)
  {
    var id := t[n][i];
    assert Before(n, i, NEW_BUCKETS, 0);
    if NewSlot(k, m, n, i, id) {
      assert RefsLeftOf(k, m[id], t, refs, id, n, i);
      HeldNext(k, t, m[id].service, id, n, i);
      HeldGrows(k, t, m[id].service, id, n, i + 1);
    }
  }

  lemma NewSlotsNext(k: Keyed, m: map<int, Info>, t: Table, n: nat, i: nat)
    requires Shape(t, NEW_BUCKETS) && n < NEW_BUCKETS && i < BUCKET_SIZE && NewSlots(k, m, t, n, i)
    ensures NewSlots(k, m, t, n, i + 1) <==> t[n][i] == EMPTY || NewSlot(k, m, n, i, t[n][i])
    ensures NewPart(k, m, t) ==> NewSlots(k, m, t, n, i + 1)
  {
    assert Before(n, i, n, i + 1) && Before(n, i, NEW_BUCKETS, 0);
  }

  /** One slot. */
  method CheckNewSlot(k: Keyed, m: map<int, Info>, t: Table, n: nat, i: nat, refs: map<int, int>)
    returns (code: int, left: map<int, int>)
    requires Shape(t, NEW_BUCKETS) && n < NEW_BUCKETS && i < BUCKET_SIZE
    requires NewSlots(k, m, t, n, i) && RefsLeft(k, m, t, refs, n, i)
    ensures code != 0 ==> !NewPart(k, m, t) && SomeNewFault(code, k, m, t)
    ensures code == 0 ==> NewSlots(k, m, t, n, i + 1) && RefsLeft(k, m, t, left, n, i + 1)
  {
    code, left := 0, refs;
    var id := t[n][i];
    NewSlotsNext(k, m, t, n, i);
    if id != EMPTY {
      if id !in left {
        TooManySlots(k, m, t, left, n, i);
        return -12, left;
      }
      if k.BucketPosition(m[id].service, true, n) != i {
        assert NewFault(-19, k, m, t, n, i);
        return -19, left;
      }
      left := Counted(left, id);
    }
    RefsStep(k, m, t, refs, n, i);
  }

  /** The slots of one bucket. */
  method CheckNewBucket(k: Keyed, m: map<int, Info>, t: Table, n: nat, refs: map<int, int>)
    returns (code: int, left: map<int, int>)
    requires Shape(t, NEW_BUCKETS) && n < NEW_BUCKETS && NewSlots(k, m, t, n, 0) && RefsLeft(k, m, t, refs, n, 0)
    ensures code != 0 ==> !NewPart(k, m, t) && SomeNewFault(code, k, m, t)
    ensures code == 0 ==> NewSlots(k, m, t, n, BUCKET_SIZE) && RefsLeft(k, m, t, left, n, BUCKET_SIZE)
  {
    code, left := 0, refs;
    for i := 0 to BUCKET_SIZE
      invariant code == 0 && NewSlots(k, m, t, n, i) && RefsLeft(k, m, t, left, n, i)
    {
      code, left := CheckNewSlot(k, m, t, n, i, left);
      if code != 0 {
        return;
      }
    }
  }

  lemma NewRollover(k: Keyed, m: map<int, Info>, t: Table, refs: map<int, int>, n: nat)
    requires Shape(t, NEW_BUCKETS) && n < NEW_BUCKETS
    requires NewSlots(k, m, t, n, BUCKET_SIZE) && RefsLeft(k, m, t, refs, n, BUCKET_SIZE)
    ensures NewSlots(k, m, t, n + 1, 0) && RefsLeft(k, m, t, refs, n + 1, 0)
  {
    forall id | id in m && !m[id].inTried ensures RefsLeftOf(k, m[id], t, refs, id, n + 1, 0) {
      assert RefsLeftOf(k, m[id], t, refs, id, n, BUCKET_SIZE);
      assert Held(k, t, m[id].service, id, n, BUCKET_SIZE) == Held(k, t, m[id].service, id, n + 1, 0);
    }
  }

  lemma RefsStart(k: Keyed, m: map<int, Info>, t: Table, refs: map<int, int>)
    requires Shape(t, NEW_BUCKETS) && forall id :: id in m && !m[id].inTried ==> m[id].refCount > 0
    requires forall id :: id in refs <==> id in m && !m[id].inTried
    requires forall id :: id in refs ==> refs[id] == m[id].refCount
    ensures RefsLeft(k, m, t, refs, 0, 0)
  {
    forall id | id in m && !m[id].inTried ensures RefsLeftOf(k, m[id], t, refs, id, 0, 0) {
      assert Held(k, t, m[id].service, id, 0, 0) == {};
    }
  }

  method CheckNew(k: Keyed, m: map<int, Info>, t: Table, refs: map<int, int>) returns (code: int, left: map<int, int>)
    requires Shape(t, NEW_BUCKETS) && RefsLeft(k, m, t, refs, 0, 0)
    ensures code != 0 ==> !NewPart(k, m, t) && SomeNewFault(code, k, m, t)
    ensures code == 0 ==> NewSlots(k, m, t, NEW_BUCKETS, 0) && RefsLeft(k, m, t, left, NEW_BUCKETS, 0)
  {
    code, left := 0, refs;
    for n := 0 to NEW_BUCKETS
      invariant code == 0 && NewSlots(k, m, t, n, 0) && RefsLeft(k, m, t, left, n, 0)
    {
      code, left := CheckNewBucket(k, m, t, n, left);
      if code != 0 {
        return;
      }
      NewRollover(k, m, t, left, n);
    }
  }

  // ----- the oracle -----

  lemma TriedVerdict(k: Keyed, m: map<int, Info>, t: Table, left: set<int>)
    requires Shape(t, TRIED_BUCKETS) && TriedSlots(k, m, t, TRIED_BUCKETS, 0)
             && TriedLeft(k, m, t, left, TRIED_BUCKETS, 0)
    ensures left == {} <==> TriedPart(k, m, t)
    ensures left != {} ==> TriedMissing(k, m, t)
  {
    if TriedPart(k, m, t) {
      SameIds(left, {});
    }
  }

  lemma NewVerdict(k: Keyed, m: map<int, Info>, t: Table, left: map<int, int>)
    requires Shape(t, NEW_BUCKETS) && NewSlots(k, m, t, NEW_BUCKETS, 0) && RefsLeft(k, m, t, left, NEW_BUCKETS, 0)
    ensures |left.Keys| == 0 <==> NewPart(k, m, t)
    ensures |left.Keys| != 0 ==> NewMissing(k, m, t)
  {
    if NewPart(k, m, t) {
      forall id ensures id !in left.Keys {
        assert id in m && !m[id].inTried ==> RefsLeftOf(k, m[id], t, left, id, NEW_BUCKETS, 0);
      }
      SameIds(left.Keys, {});
    } else {
      var id :| id in m && !m[id].inTried && m[id].refCount != |Held(k, t, m[id].service, id, NEW_BUCKETS, 0)|;
      assert RefsLeftOf(k, m[id], t, left, id, NEW_BUCKETS, 0);
      assert id in left.Keys;
    }
    if |left.Keys| != 0 {
      var id :| id in left.Keys;
      assert RefsLeftOf(k, m[id], t, left, id, NEW_BUCKETS, 0);
    }
  }

  /** `Check_`: zero exactly if everything it looks at is in order; any other code names a fault that is there.
      Address lookups may insert zeroes. */
  method Check(a: AM.AddrMan) returns (code: int)
    requires Shape(a.newTable, NEW_BUCKETS) && Shape(a.triedTable, TRIED_BUCKETS)
    modifies a`ids
    ensures code == 0 <==> Passes(a.k, old(a.State()), a.order)
    ensures code != 0 ==> Fault(code, a.k, old(a.State()), a.order)
    ensures Looked(old(a.ids), a.ids)
    ensures AllIndexed(a.infos, old(a.ids)) ==> a.ids == old(a.ids)
  {
    ghost var bk := a.State();
    if |a.order| != a.triedCount + a.newCount { return -7; }
    var tried, refs, ids;
    code, ids, tried, refs := CheckEntries(a.infos, a.ids, a.order);
    a.ids := ids;
    if code != 0 { return; }
    SameIds(tried, TriedIds(bk.infos));
    SameIds(refs.Keys, NewIds(bk.infos));
    if |tried| != a.triedCount { return -9; }
    if |refs.Keys| != a.newCount { return -10; }
    code, tried := CheckTried(a.k, a.infos, a.triedTable, tried);
    if code != 0 { return; }
    TriedVerdict(a.k, a.infos, a.triedTable, tried);
    RefsStart(a.k, a.infos, a.newTable, refs);
    code, refs := CheckNew(a.k, a.infos, a.newTable, refs);
    if code != 0 { return; }
    NewVerdict(a.k, a.infos, a.newTable, refs);
    if tried != {} { return -13; }
    if |refs.Keys| != 0 { return -15; }
    if a.k.key == 0 { return -16; }
  }

  // ----- the oracle and the invariant -----

  lemma TriedPartIs(k: Keyed, bk: Book)
    requires Shape(bk.triedTable, TRIED_BUCKETS) && EMPTY !in bk.infos
    ensures TriedPart(k, bk.infos, bk.triedTable) <==> TriedOk(k, bk)
  {
    var m, t := bk.infos, bk.triedTable;
    forall id | id in m
      ensures Seen(k, t, m[id].service, id, TRIED_BUCKETS, 0) <==>
                t[k.TriedBucket(m[id].service)][k.BucketPosition(m[id].service, false, k.TriedBucket(m[id].service))]
                == id
    {
    }
    if TriedOk(k, bk) {
      assert TriedSlots(k, m, t, TRIED_BUCKETS, 0);
    } else if TriedPart(k, m, t) {
      forall b, p | 0 <= b < TRIED_BUCKETS && 0 <= p < BUCKET_SIZE && t[b][p] != EMPTY
        ensures TriedSlot(k, m, b, p, t[b][p])
      {
        assert Before(b, p, TRIED_BUCKETS, 0);
      }
    }
  }

  lemma HeldIsBuckets(k: Keyed, t: Table, s: Service, id: int)
    requires Shape(t, NEW_BUCKETS) && id != EMPTY
    ensures Held(k, t, s, id, NEW_BUCKETS, 0) == Buckets(k, t, s, id)
  {
  }

  lemma NewSlotsIs(k: Keyed, bk: Book)
    requires Shape(bk.newTable, NEW_BUCKETS)
    ensures NewSlots(k, bk.infos, bk.newTable, NEW_BUCKETS, 0) <==> NewSlotsOk(k, bk, {})
  {
    if NewSlots(k, bk.infos, bk.newTable, NEW_BUCKETS, 0) {
      forall b, p | 0 <= b < NEW_BUCKETS && 0 <= p < BUCKET_SIZE && bk.newTable[b][p] != EMPTY
        ensures NewSlot(k, bk.infos, b, p, bk.newTable[b][p])
      {
        assert Before(b, p, NEW_BUCKETS, 0);
      }
    }
  }

  lemma NewPartIs(k: Keyed, bk: Book)
    requires Shape(bk.newTable, NEW_BUCKETS) && EMPTY !in bk.infos
    requires forall id :: id in bk.infos && !bk.infos[id].inTried ==>
               1 <= bk.infos[id].refCount <= NEW_BUCKETS_PER_ADDRESS
    ensures NewPart(k, bk.infos, bk.newTable) <==> NewSlotsOk(k, bk, {}) && RefsOk(k, bk, {})
  {
    NewSlotsIs(k, bk);
    forall id | id in bk.infos
      ensures Held(k, bk.newTable, bk.infos[id].service, id, NEW_BUCKETS, 0)
              == Buckets(k, bk.newTable, bk.infos[id].service, id)
    {
      HeldIsBuckets(k, bk.newTable, bk.infos[id].service, id);
    }
  }

  /** Every entry is either tried or new. */
  lemma TwoKinds(m: map<int, Info>)
    ensures |TriedIds(m)| + |NewIds(m)| == |m|
  {
    assert m.Keys == TriedIds(m) + NewIds(m);
  }

  /** As many positions as entries and a back-pointer for every entry: then every position is pointed to. */
  lemma Pigeonhole(m: map<int, Info>, order: seq<int>, i: nat)
    requires |order| == |m| && i < |order|
    requires forall id :: id in m ==> 0 <= m[id].randomPos < |order| && order[m[id].randomPos] == id
    ensures order[i] in m && m[order[i]].randomPos == i
  {
    var rest := order[..i] + order[i + 1..];
    forall id | id in m ensures m[id].randomPos == i || id in Elements(rest) {
      var j := m[id].randomPos;
      assert j < i ==> rest[j] == id;
      assert j > i ==> rest[j - 1] == id;
    }
    if !(order[i] in m && m[order[i]].randomPos == i) {
      Within(m.Keys, Elements(rest));
      SubsetSize(m.Keys, Elements(rest));
      assert false;
    }
  }

  lemma OrderIs(m: map<int, Info>, order: seq<int>)
    ensures AM.OrderOk(m, order) <==>
              |order| == |m| && forall id :: id in m ==> 0 <= m[id].randomPos < |order| && order[m[id].randomPos] == id
  {
    assert Look(0);
    if |order| == |m| && forall id :: id in m ==> 0 <= m[id].randomPos < |order| && order[m[id].randomPos] == id {
      forall i | 0 <= i < |order| ensures order[i] in m && m[order[i]].randomPos == i {
        Pigeonhole(m, order, i);
      }
    }
  }

  /** What the oracle does not look at: the range of the ids, addresses that lead to no entry, and whether the
      address of entry 0 is indexed at all. */
  ghost predicate Overlooked(bk: Book) {
    && IdsOk(bk)
    && (forall a :: a in bk.ids ==> bk.ids[a] in bk.infos && bk.infos[bk.ids[a]].service.ip == a)
    && (0 in bk.infos ==> bk.infos[0].service.ip in bk.ids)
  }

  lemma InvariantPasses(k: Keyed, bk: Book, order: seq<int>)
    requires Consistent(k, bk, {}, 0) && AM.OrderOk(bk.infos, order) && k.key != 0
    ensures Passes(k, bk, order) && Overlooked(bk) && AllIndexed(bk.infos, bk.ids)
  {
    assert Look(0);
    OrderIs(bk.infos, order);
    TriedPartIs(k, bk);
    NewPartIs(k, bk);
    TwoKinds(bk.infos);
    assert NewIds(bk.infos) - {} == NewIds(bk.infos);
  }

  lemma PassingIsInvariant(k: Keyed, bk: Book, order: seq<int>)
    requires Shape(bk.newTable, NEW_BUCKETS) && Shape(bk.triedTable, TRIED_BUCKETS)
    requires Passes(k, bk, order) && Overlooked(bk)
    ensures Consistent(k, bk, {}, 0) && AM.OrderOk(bk.infos, order)
  {
    PassingEntries(bk, order);
    TriedPartIs(k, bk);
    NewPartIs(k, bk);
    TwoKinds(bk.infos);
    OrderIs(bk.infos, order);
    assert NewIds(bk.infos) - {} == NewIds(bk.infos);
    Assemble(k, bk);
  }

  lemma PassingEntries(bk: Book, order: seq<int>)
    requires EntriesOk(bk.infos, bk.ids, order) && Overlooked(bk)
    ensures AddrsOk(bk) && StatsOk(bk) && EMPTY !in bk.infos
    ensures forall id :: id in bk.infos && !bk.infos[id].inTried ==>
              1 <= bk.infos[id].refCount <= NEW_BUCKETS_PER_ADDRESS
    ensures forall id :: id in bk.infos ==>
              0 <= bk.infos[id].randomPos < |order| && order[bk.infos[id].randomPos] == id
  {
    forall id | id in bk.infos ensures EntryOk(bk.infos[id], bk.ids, order, id) {
    }
  }

  lemma Assemble(k: Keyed, bk: Book)
    requires Shape(bk.newTable, NEW_BUCKETS) && Facets(k, bk, {}, 0)
    ensures Consistent(k, bk, {}, 0)
  {
    assert Look(0);
  }

  /** The oracle returns zero exactly on the states with the invariant, up to what it overlooks. */
  lemma PassesIsInvariant(k: Keyed, bk: Book, order: seq<int>)
    requires Shape(bk.newTable, NEW_BUCKETS) && Shape(bk.triedTable, TRIED_BUCKETS) && k.key != 0
    ensures Passes(k, bk, order) && Overlooked(bk) <==> Consistent(k, bk, {}, 0) && AM.OrderOk(bk.infos, order)
  {
    if Consistent(k, bk, {}, 0) && AM.OrderOk(bk.infos, order) {
      InvariantPasses(k, bk, order);
    } else if Passes(k, bk, order) && Overlooked(bk) {
      PassingIsInvariant(k, bk, order);
    }
  }

  /** An address that leads nowhere goes unnoticed. */
  lemma StaleAddressPasses(k: Keyed, a: NetAddr, id: int)
    requires k.key != 0
    ensures var bk := Book(map[], map[a := id], EmptyTable(NEW_BUCKETS), EmptyTable(TRIED_BUCKETS), 0, 0, 0);
            Passes(k, bk, []) && !Consistent(k, bk, {}, 0)
  {
    var bk := Book(map[], map[a := id], EmptyTable(NEW_BUCKETS), EmptyTable(TRIED_BUCKETS), 0, 0, 0);
    assert Look(0);
    assert TriedIds(bk.infos) == {} && NewIds(bk.infos) == {};
    assert a in bk.ids;
  }

  /** On a state that the operations can produce, the oracle returns zero and changes nothing. */
  method CheckValid(a: AM.AddrMan) returns (code: int)
    requires a.Valid() && a.k.key != 0
    modifies a`ids
    ensures code == 0 && a.ids == old(a.ids)
  {
    InvariantPasses(a.k, a.State(), a.order);
    code := Check(a);
  }
}
