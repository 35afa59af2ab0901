/** Loading what was saved gives the same address manager, up to the numbering of the entries. */
module AddrRoundTrip {
  import opened Hiding
  import opened Sets
  import opened Wrappers
  import opened AddrBook
  import opened AddrFile
  import opened AddrLoad
  import AM = AddrMan

  // ----- a written file can be loaded -----

  lemma DifferentAddresses(k: Keyed, bk: Book, i: int, j: int)
    requires Consistent(k, bk, {}, 0) && i in bk.infos && j in bk.infos && i != j
    ensures bk.infos[i].service.ip != bk.infos[j].service.ip
  {
    assert Look(0);
  }

  lemma WrittenIsLoadable(k: Keyed, bk: Book)
    requires Consistent(k, bk, {}, 0)
    ensures bk.nextId >= 0 && Loadable(Written(k.key, bk))
  {
    RolesOf(k, bk);
    var m, n := bk.infos, bk.nextId;
    var ns, ts, f := NewUpTo(m, n), TriedUpTo(m, n), Written(k.key, bk);
    UpToInMap(m, n);
    WrittenIs(k.key, bk);
    forall i | 0 <= i < |ns|
      ensures f.news[i].lastSuccess >= 0
    {
      EntryFacts(k, bk, {}, 0, ns[i]);
    }
    forall i | 0 <= i < |ts|
      ensures f.trieds[i].lastSuccess > 0
    {
      EntryFacts(k, bk, {}, 0, ts[i]);
    }
    forall i, j | 0 <= i < j < |ns|
      ensures f.news[i].service.ip != f.news[j].service.ip
    {
      Increasing(m, n, i, j);
      DifferentAddresses(k, bk, ns[i], ns[j]);
    }
    forall i, j | 0 <= i < j < |ts|
      ensures f.trieds[i].service.ip != f.trieds[j].service.ip
    {
      Increasing(m, n, i, j);
      DifferentAddresses(k, bk, ts[i], ts[j]);
    }
    forall i, j | 0 <= i < |ns| && 0 <= j < |ts|
      ensures f.news[i].service.ip != f.trieds[j].service.ip
    {
      DifferentAddresses(k, bk, ns[i], ts[j]);
    }
  }

  /** The ids in the first `n` buckets. */
  ghost function Occupants(t: Table, n: nat): set<int>
    requires n <= |t|
  {
    if n == 0 then {} else Occupants(t, n - 1) + Elements(t[n - 1])
  }

  lemma {:induction false} OccupantsBound(t: Table, n: nat)
    requires n <= |t| && forall b :: 0 <= b < |t| ==> |t[b]| == BUCKET_SIZE
    ensures |Occupants(t, n)| <= n * BUCKET_SIZE
  {
    if n > 0 {
      OccupantsBound(t, n - 1);
    }
  }

  lemma {:induction false} IsOccupant(t: Table, n: nat, b: nat, p: nat)
    requires n <= |t| && b < n && p < |t[b]|
    ensures t[b][p] in Occupants(t, n)
  {
    if b < n - 1 {
      IsOccupant(t, n - 1, b, p);
    }
  }

  /** There are no more entries than slots, so the limits of `Unserialize` are kept. */
  lemma WrittenIsSmall(k: Keyed, bk: Book)
    requires Consistent(k, bk, {}, 0)
    ensures bk.newCount <= NEW_BUCKETS * BUCKET_SIZE && bk.triedCount <= TRIED_BUCKETS * BUCKET_SIZE
  {
    RolesOf(k, bk);
    forall id | id in NewIds(bk.infos)
      ensures id in Occupants(bk.newTable, NEW_BUCKETS)
    {
      var b := NewEntryHasSlot(k, bk, {}, 0, id);
      IsOccupant(bk.newTable, NEW_BUCKETS, b, k.BucketPosition(bk.infos[id].service, true, b));
    }
    forall id | id in TriedIds(bk.infos)
      ensures id in Occupants(bk.triedTable, TRIED_BUCKETS)
    {
      var b := k.TriedBucket(bk.infos[id].service);
      TriedHasSlot(k, bk, {}, 0, id);
      IsOccupant(bk.triedTable, TRIED_BUCKETS, b, k.BucketPosition(bk.infos[id].service, false, b));
    }
    assert NewIds(bk.infos) - {} == NewIds(bk.infos);
    SubsetSize(NewIds(bk.infos), Occupants(bk.newTable, NEW_BUCKETS));
    SubsetSize(TriedIds(bk.infos), Occupants(bk.triedTable, TRIED_BUCKETS));
    OccupantsBound(bk.newTable, NEW_BUCKETS);
    OccupantsBound(bk.triedTable, TRIED_BUCKETS);
  }

  lemma TriedHasSlot(k: Keyed, bk: Book, limbo: set<int>, extra: int, id: int)
    requires Consistent(k, bk, limbo, extra) && id in bk.infos && bk.infos[id].inTried
    ensures var b := k.TriedBucket(bk.infos[id].service);
      bk.triedTable[b][k.BucketPosition(bk.infos[id].service, false, b)] == id
  {
    assert Look(0);
  }

  lemma TriedSlotFacts(k: Keyed, bk: Book, limbo: set<int>, extra: int, b: nat, p: nat)
    requires Consistent(k, bk, limbo, extra) && b < TRIED_BUCKETS && p < BUCKET_SIZE && bk.triedTable[b][p] != EMPTY
    ensures var id := bk.triedTable[b][p];
      id in bk.infos && bk.infos[id].inTried && b == k.TriedBucket(bk.infos[id].service)
      && p == k.BucketPosition(bk.infos[id].service, false, b)
  {
    assert Look(0);
  }

  // ----- no tried entry is lost -----

  /** The book holds the tried entries of the file one after the other. */
  ghost predicate AllTried(bk: Book, f: File, n: nat)
    requires n <= |f.trieds|
  {
    bk.nextId == |f.news| + n
    && forall j :: 0 <= j < n ==>
         |f.news| + j in bk.infos && bk.infos[|f.news| + j].inTried && Save(bk.infos[|f.news| + j]) == f.trieds[j]
  }

  lemma TriedSlotIsFree(k: Keyed, bk: Book, f: File, bk': Book, n: nat)
    requires Consistent(k, bk, {}, 0) && bk.nextId >= 0 && f == Written(k.key, bk) && n < |f.trieds|
    requires Reading(k, f, bk', n)
    ensures var s := f.trieds[n].service; var b := k.TriedBucket(s);
      bk'.triedTable[b][k.BucketPosition(s, false, b)] == EMPTY
  {
    ReadingIs(k, f, bk', n);
    var ts, s := TriedUpTo(bk.infos, bk.nextId), f.trieds[n].service;
    var b := k.TriedBucket(s);
    var p := k.BucketPosition(s, false, b);
    UpToInMap(bk.infos, bk.nextId);
    WrittenIs(k.key, bk);
    TriedHasSlot(k, bk, {}, 0, ts[n]);
    if bk'.triedTable[b][p] != EMPTY {
      TriedSlotFacts(k, bk', Limbo(bk'.infos), Extra(bk'), b, p);
      var id := bk'.triedTable[b][p];
      EntryFacts(k, bk', Limbo(bk'.infos), Extra(bk'), id);
      assert id >= |f.news| && Save(bk'.infos[id]) in f.trieds[..n];
      var i :| 0 <= i < n && f.trieds[i] == Save(bk'.infos[id]);
      TriedHasSlot(k, bk, {}, 0, ts[i]);
      Increasing(bk.infos, bk.nextId, i, n);
    }
  }

  lemma {:induction false} NothingLost(k: Keyed, bk: Book, f: File, n: nat)
    requires Consistent(k, bk, {}, 0) && bk.nextId >= 0 && f == Written(k.key, bk) && Loadable(f) && n <= |f.trieds|
    ensures AllTried(Trieds(k, f, n), f, n) && Trieds(k, f, n).newTable == EmptyTable(NEW_BUCKETS)
  {
    if n == 0 {
      NewsSound(k, f, |f.news|);
      ReadingNewsIs(k, f, News(k, f, |f.news|), |f.news|);
      WrittenUsesTable(k, bk);
      NewsLeaveTable(k, f, |f.news|);
    } else {
      NothingLost(k, bk, f, n - 1);
      TriedsSound(k, f, n - 1);
      NotLost(k, bk, f, Trieds(k, f, n - 1), n - 1);
    }
  }

  lemma NotLost(k: Keyed, bk: Book, f: File, bk': Book, n: nat)
    requires Consistent(k, bk, {}, 0) && bk.nextId >= 0 && f == Written(k.key, bk) && n < |f.trieds|
    requires Reading(k, f, bk', n) && AllTried(bk', f, n)
    ensures AllTried(TriedStep(k, bk', f.trieds[n]), f, n + 1)
            && TriedStep(k, bk', f.trieds[n]).newTable == bk'.newTable
  {
    ReadingIs(k, f, bk', n);
    TriedSlotIsFree(k, bk, f, bk', n);
    KeepsTried(k, bk', f, n);
  }

  lemma KeepsTried(k: Keyed, bk': Book, f: File, n: nat)
    requires Shaped(bk') && Dense(bk') && n < |f.trieds| && AllTried(bk', f, n)
    requires var s := f.trieds[n].service; var b := k.TriedBucket(s);
      bk'.triedTable[b][k.BucketPosition(s, false, b)] == EMPTY
    ensures AllTried(TriedStep(k, bk', f.trieds[n]), f, n + 1)
    ensures TriedStep(k, bk', f.trieds[n]).newTable == bk'.newTable
  {
    var bk2 := TriedStep(k, bk', f.trieds[n]);
    forall j | 0 <= j < n + 1
      ensures |f.news| + j in bk2.infos && bk2.infos[|f.news| + j].inTried
              && Save(bk2.infos[|f.news| + j]) == f.trieds[j]
    {
      if j < n {
        assert Save(bk'.infos[|f.news| + j]) == f.trieds[j];
        assert bk2.infos[|f.news| + j] == bk'.infos[|f.news| + j];
      } else {
        assert |f.news| + j == bk'.nextId;
        assert bk2.infos[bk'.nextId] == Load(f.trieds[n]).(randomPos := bk'.nextId, inTried := true);
      }
    }
  }

  lemma WrittenUsesTable(k: Keyed, bk: Book)
    requires Shape(bk.newTable, NEW_BUCKETS) && bk.nextId >= 0
    ensures UseTable(Written(k.key, bk))
  {
    WrittenIs(k.key, bk);
  }

  lemma {:induction false} NewsLeaveTable(k: Keyed, f: File, n: nat)
    requires UseTable(f) && n <= |f.news|
    ensures News(k, f, n).newTable == EmptyTable(NEW_BUCKETS)
  {
    if n > 0 {
      NewsLeaveTable(k, f, n - 1);
    }
  }

  // ----- every slot is filled again -----

  /** What stands in the loaded table for an id. */
  ghost function Target(m: map<int, Info>, id: int): int { if id == EMPTY then EMPTY else Rank(m, id) }

  /** The slots before (b, p) are filled, the others are empty. */
  ghost predicate FilledTo(bk: Book, bk': Book, b: nat, p: nat)
    requires Shaped(bk) && Shaped(bk')
  {
    forall i, j :: 0 <= i < NEW_BUCKETS && 0 <= j < BUCKET_SIZE ==>
      bk'.newTable[i][j] == if i < b || (i == b && j < p) then Target(bk.infos, bk.newTable[i][j]) else EMPTY
  }

  /** A new entry is found again at its rank. */
  lemma LoadedAtRank(k: Keyed, bk: Book, f: File, bk': Book, id: int)
    requires Consistent(k, bk, {}, 0) && bk.nextId >= 0 && f == Written(k.key, bk) && Reading(k, f, bk', |f.trieds|)
    requires id in bk.infos && !bk.infos[id].inTried
    ensures var r := Rank(bk.infos, id);
      r < |f.news| && r in bk'.infos && !bk'.infos[r].inTried && Save(bk'.infos[r]) == Save(bk.infos[id])
  {
    ReadingIs(k, f, bk', |f.trieds|);
    RolesOf(k, bk);
    WrittenIs(k.key, bk);
    AtRank(bk.infos, id, bk.nextId);
  }

  lemma RankInjective(k: Keyed, bk: Book, i: int, j: int)
    requires Consistent(k, bk, {}, 0) && i in bk.infos && j in bk.infos && !bk.infos[i].inTried && !bk.infos[j].inTried
    requires Rank(bk.infos, i) == Rank(bk.infos, j)
    ensures i == j
  {
    RolesOf(k, bk);
    AtRank(bk.infos, i, bk.nextId);
    AtRank(bk.infos, j, bk.nextId);
  }

  /** The buckets filled so far are buckets of the original entry, without the one at hand. */
  lemma StillRoom(k: Keyed, bk: Book, f: File, bk': Book, b: nat, p: nat)
    requires Consistent(k, bk, {}, 0) && bk.nextId >= 0 && f == Written(k.key, bk) && Reading(k, f, bk', |f.trieds|)
    requires b < NEW_BUCKETS && p < BUCKET_SIZE && FilledTo(bk, bk', b, p) && bk.newTable[b][p] != EMPTY
    ensures var r := Rank(bk.infos, bk.newTable[b][p]);
      r < |f.news| && r in bk'.infos && bk'.infos[r].refCount < NEW_BUCKETS_PER_ADDRESS
      && k.BucketPosition(bk'.infos[r].service, true, b) == p
  {
    ReadingIs(k, f, bk', |f.trieds|);
    var id := bk.newTable[b][p];
    SlotFacts(k, bk, {}, 0, b, p);
    SlotPosition(k, bk, b, p);
    LoadedAtRank(k, bk, f, bk', id);
    var r, s := Rank(bk.infos, id), bk.infos[id].service;
    var old', now := Buckets(k, bk.newTable, s, id), Buckets(k, bk'.newTable, s, r);
    forall i | i in now
      ensures i in old' - {b}
    {
      var j := k.BucketPosition(s, true, i);
      assert bk'.newTable[i][j] == r;
      SlotFacts(k, bk, {}, 0, i, j);
      RankInjective(k, bk, bk.newTable[i][j], id);
    }
    SubsetSize(now, old' - {b});
    RefsAre(k, bk, {}, 0, id);
    EntryFacts(k, bk, {}, 0, id);
    if r in Limbo(bk'.infos) {
      LimboFacts(k, bk', Limbo(bk'.infos), Extra(bk'), r);
    } else {
      RefsAre(k, bk', Limbo(bk'.infos), Extra(bk'), r);
    }
    assert b in old';
  }

  lemma SlotPosition(k: Keyed, bk: Book, b: nat, p: nat)
    requires Consistent(k, bk, {}, 0) && b < NEW_BUCKETS && p < BUCKET_SIZE && bk.newTable[b][p] != EMPTY
    ensures bk.newTable[b][p] in bk.infos && p == k.BucketPosition(bk.infos[bk.newTable[b][p]].service, true, b)
  {
    assert Look(0);
  }

  lemma RefsAre(k: Keyed, bk: Book, limbo: set<int>, extra: int, id: int)
    requires Consistent(k, bk, limbo, extra) && id in bk.infos && !bk.infos[id].inTried && id !in limbo
    ensures bk.infos[id].refCount == |Buckets(k, bk.newTable, bk.infos[id].service, id)|
  {
    assert Look(0);
  }

  lemma FillSlot(k: Keyed, bk: Book, f: File, bk': Book, b: nat, p: nat)
    requires Consistent(k, bk, {}, 0) && bk.nextId >= 0 && f == Written(k.key, bk) && Reading(k, f, bk', |f.trieds|)
    requires b < NEW_BUCKETS && p < BUCKET_SIZE && FilledTo(bk, bk', b, p)
    ensures bk.newTable[b][p] == EMPTY ==> FilledTo(bk, bk', b, p + 1)
    ensures bk.newTable[b][p] != EMPTY
            ==> FilledTo(bk, SlotStep(k, bk', b, Rank(bk.infos, bk.newTable[b][p]), |f.news|), b, p + 1)
  {
    if bk.newTable[b][p] != EMPTY {
      StillRoom(k, bk, f, bk', b, p);
    }
  }

  lemma {:induction false} FillRow(k: Keyed, bk: Book, f: File, bk': Book, b: nat, p: nat)
    requires Consistent(k, bk, {}, 0) && bk.nextId >= 0 && f == Written(k.key, bk) && Reading(k, f, bk', |f.trieds|)
    requires b < NEW_BUCKETS && p <= BUCKET_SIZE && FilledTo(bk, bk', b, 0)
    ensures var row := Row(bk.infos, bk.newTable[b], p); FilledTo(bk, Cells(k, f, bk', b, row, |row|), b, p)
  {
    if p > 0 {
      var row0, row := Row(bk.infos, bk.newTable[b], p - 1), Row(bk.infos, bk.newTable[b], p);
      FillRow(k, bk, f, bk', b, p - 1);
      var bk1 := Cells(k, f, bk', b, row0, |row0|);
      CellsSound(k, f, bk', b, row0, |row0|);
      FillSlot(k, bk, f, bk1, b, p - 1);
      if bk.newTable[b][p - 1] != EMPTY {
        assert row == row0 + [Rank(bk.infos, bk.newTable[b][p - 1])];
        CellsPrefix(k, f, bk', b, row, row0, |row0|);
        assert Cells(k, f, bk', b, row, |row|) == SlotStep(k, bk1, b, row[|row| - 1], |f.news|);
      } else {
        assert row == row0;
      }
    }
  }

  lemma {:induction false} CellsPrefix(k: Keyed, f: File, bk: Book, b: nat, row: seq<int>, row0: seq<int>, n: nat)
    requires Shaped(bk) && b < NEW_BUCKETS && n <= |row0| <= |row| && row0 <= row
    ensures Cells(k, f, bk, b, row, n) == Cells(k, f, bk, b, row0, n)
  {
    if n > 0 {
      CellsPrefix(k, f, bk, b, row, row0, n - 1);
    }
  }

  lemma {:induction false} FillRows(k: Keyed, bk: Book, f: File, b: nat)
    requires Consistent(k, bk, {}, 0) && bk.nextId >= 0 && f == Written(k.key, bk) && Loadable(f)
             && |f.table| == NEW_BUCKETS
    requires b <= NEW_BUCKETS
    ensures FilledTo(bk, Rows(k, f, b), b, 0)
  {
    if b == 0 {
      NothingLost(k, bk, f, |f.trieds|);
    } else {
      FillRows(k, bk, f, b - 1);
      RowsSound(k, f, b - 1);
      WrittenIs(k.key, bk);
      FillRow(k, bk, f, Rows(k, f, b - 1), b - 1, BUCKET_SIZE);
    }
  }

  // ----- the same contents -----

  /** The address whose entry a slot holds. */
  ghost function Holder(bk: Book, id: int): Option<NetAddr> {
    if id in bk.infos then Some(bk.infos[id].service.ip) else None
  }

  ghost predicate SameTables(bk: Book, bk': Book)
    requires Shaped(bk) && Shaped(bk')
  {
    && (forall b, p :: 0 <= b < NEW_BUCKETS && 0 <= p < BUCKET_SIZE ==>
          Holder(bk, bk.newTable[b][p]) == Holder(bk', bk'.newTable[b][p]))
    && (forall b, p :: 0 <= b < TRIED_BUCKETS && 0 <= p < BUCKET_SIZE ==>
          Holder(bk, bk.triedTable[b][p]) == Holder(bk', bk'.triedTable[b][p]))
  }

  /** What is kept of an entry: everything but when it was tried. */
  ghost predicate SameEntry(x: Info, y: Info) {
    && y.service == x.service && y.services == x.services && y.time == x.time && y.source == x.source
    && y.lastSuccess == x.lastSuccess && y.attempts == x.attempts
    && y.inTried == x.inTried && y.refCount == x.refCount
    && y.lastTry == 0 && y.lastCountAttempt == 0
  }

  /** What is kept of the entries, by address. */
  ghost predicate SameEntries(bk: Book, bk': Book) {
    && (forall a :: a in bk.ids <==> a in bk'.ids)
    && forall a :: a in bk.ids ==>
      && bk.ids[a] in bk.infos && bk'.ids[a] in bk'.infos
      && SameEntry(bk.infos[bk.ids[a]], bk'.infos[bk'.ids[a]])
  }

  /** The same addresses with the same data, the same occupied slots, reference counts and counters. */
  ghost predicate SameContents(bk: Book, bk': Book)
    requires Shaped(bk) && Shaped(bk')
  {
    SameEntries(bk, bk') && SameTables(bk, bk') && bk.newCount == bk'.newCount && bk.triedCount == bk'.triedCount
  }

  /** A book and the book loaded from its file. */
  ghost predicate Pair(k: Keyed, bk: Book, f: File, bk': Book) {
    && Consistent(k, bk, {}, 0) && bk.nextId >= 0 && f == Written(k.key, bk)
    && Reading(k, f, bk', |f.trieds|) && AllTried(bk', f, |f.trieds|) && FilledTo(bk, bk', NEW_BUCKETS, 0)
  }

  /** The number of an entry in the loaded book. */
  ghost function Renamed(bk: Book, f: File, id: int): int
    requires id in bk.infos
  {
    if bk.infos[id].inTried then |f.news| + |TriedUpTo(bk.infos, if id < 0 then 0 else id)| else Rank(bk.infos, id)
  }

  lemma {:induction false} AtTriedRank(m: map<int, Info>, id: nat, n: nat)
    requires id in m && m[id].inTried && id < n
    ensures |TriedUpTo(m, id)| < |TriedUpTo(m, n)| && TriedUpTo(m, n)[|TriedUpTo(m, id)|] == id
    decreases n
  {
    if id < n - 1 {
      AtTriedRank(m, id, n - 1);
    }
  }

  lemma RenamedEntry(k: Keyed, bk: Book, f: File, bk': Book, id: int)
    requires Pair(k, bk, f, bk') && id in bk.infos
    ensures var r := Renamed(bk, f, id);
      r in bk'.infos && Save(bk'.infos[r]) == Save(bk.infos[id]) && bk'.infos[r].inTried == bk.infos[id].inTried
  {
    ReadingIs(k, f, bk', |f.trieds|);
    RolesOf(k, bk);
    if bk.infos[id].inTried {
      WrittenIs(k.key, bk);
      AtTriedRank(bk.infos, id, bk.nextId);
      var j := |TriedUpTo(bk.infos, id)|;
      assert f.trieds[j] == Save(bk.infos[id]);
    } else {
      LoadedAtRank(k, bk, f, bk', id);
    }
  }

  /** Every loaded entry comes from one of the book. */
  lemma Origin(k: Keyed, bk: Book, f: File, bk': Book, r: int) returns (id: int)
    requires Pair(k, bk, f, bk') && r in bk'.infos
    ensures id in bk.infos && Save(bk'.infos[r]) == Save(bk.infos[id]) && bk'.infos[r].inTried == bk.infos[id].inTried
  {
    ReadingIs(k, f, bk', |f.trieds|);
    UpToInMap(bk.infos, bk.nextId);
    WrittenIs(k.key, bk);
    RolesOf(k, bk);
    if r < |f.news| {
      id := NewUpTo(bk.infos, bk.nextId)[r];
    } else {
      assert Save(bk'.infos[|f.news| + (r - |f.news|)]) == f.trieds[r - |f.news|];
      id := TriedUpTo(bk.infos, bk.nextId)[r - |f.news|];
    }
  }

  lemma Indexed(k: Keyed, bk: Book, limbo: set<int>, extra: int, id: int)
    requires Consistent(k, bk, limbo, extra) && id in bk.infos
    ensures bk.infos[id].service.ip in bk.ids && bk.ids[bk.infos[id].service.ip] == id
  {
    assert Look(0);
  }

  lemma SameBuckets(k: Keyed, bk: Book, f: File, bk': Book, id: int)
    requires Pair(k, bk, f, bk') && id in bk.infos && !bk.infos[id].inTried
    ensures var r, s := Rank(bk.infos, id), bk.infos[id].service;
      Buckets(k, bk.newTable, s, id) == Buckets(k, bk'.newTable, s, r)
  {
    ReadingIs(k, f, bk', |f.trieds|);
    var r, s := Rank(bk.infos, id), bk.infos[id].service;
    EntryFacts(k, bk, {}, 0, id);
    forall b: nat | b < NEW_BUCKETS
      ensures bk.newTable[b][k.BucketPosition(s, true, b)] == id <==> bk'.newTable[b][k.BucketPosition(s, true, b)] == r
    {
      var p := k.BucketPosition(s, true, b);
      var x := bk.newTable[b][p];
      assert bk'.newTable[b][p] == Target(bk.infos, x);
      if x != EMPTY && Rank(bk.infos, x) == r {
        SlotFacts(k, bk, {}, 0, b, p);
        RankInjective(k, bk, x, id);
      }
    }
  }

  lemma NotInLimbo(k: Keyed, bk: Book, f: File, bk': Book, id: int)
    requires Pair(k, bk, f, bk') && id in bk.infos && !bk.infos[id].inTried
    ensures Rank(bk.infos, id) !in Limbo(bk'.infos)
  {
    ReadingIs(k, f, bk', |f.trieds|);
    var b := NewEntryHasSlot(k, bk, {}, 0, id);
    var p := k.BucketPosition(bk.infos[id].service, true, b);
    EntryFacts(k, bk, {}, 0, id);
    assert bk'.newTable[b][p] == Target(bk.infos, bk.newTable[b][p]);
    SlotFacts(k, bk', Limbo(bk'.infos), Extra(bk'), b, p);
  }

  lemma SameRefs(k: Keyed, bk: Book, f: File, bk': Book, id: int)
    requires Pair(k, bk, f, bk') && id in bk.infos
    ensures var r := Renamed(bk, f, id); r in bk'.infos && bk'.infos[r].refCount == bk.infos[id].refCount
  {
    ReadingIs(k, f, bk', |f.trieds|);
    RenamedEntry(k, bk, f, bk', id);
    var r, limbo, extra := Renamed(bk, f, id), Limbo(bk'.infos), Extra(bk');
    if bk.infos[id].inTried {
      TriedHasNoRefs(k, bk, {}, 0, id);
      TriedHasNoRefs(k, bk', limbo, extra, r);
    } else {
      NotInLimbo(k, bk, f, bk', id);
      RefsAre(k, bk, {}, 0, id);
      RefsAre(k, bk', limbo, extra, r);
      SameBuckets(k, bk, f, bk', id);
    }
  }

  lemma TriedHasNoRefs(k: Keyed, bk: Book, limbo: set<int>, extra: int, id: int)
    requires Consistent(k, bk, limbo, extra) && id in bk.infos && bk.infos[id].inTried
    ensures bk.infos[id].refCount == 0
  {
    assert Look(0);
  }

  lemma PairEntries(k: Keyed, bk: Book, f: File, bk': Book)
    requires Pair(k, bk, f, bk') && NeverTried(bk'.infos)
    ensures SameEntries(bk, bk') && Limbo(bk'.infos) == {}
  {
    ReadingIs(k, f, bk', |f.trieds|);
    var limbo, extra := Limbo(bk'.infos), Extra(bk');
    forall a | a in bk.ids
      ensures a in bk'.ids && bk.ids[a] in bk.infos && bk'.ids[a] in bk'.infos
      ensures SameEntry(bk.infos[bk.ids[a]], bk'.infos[bk'.ids[a]])
    {
      AddrFacts(k, bk, {}, 0, a);
      RenamedEntry(k, bk, f, bk', bk.ids[a]);
      SameRefs(k, bk, f, bk', bk.ids[a]);
      Indexed(k, bk', limbo, extra, Renamed(bk, f, bk.ids[a]));
    }
    forall a | a in bk'.ids
      ensures a in bk.ids
    {
      AddrFacts(k, bk', limbo, extra, a);
      var id := Origin(k, bk, f, bk', bk'.ids[a]);
      Indexed(k, bk, {}, 0, id);
    }
    forall r
      ensures r !in limbo
    {
      if r in bk'.infos && !bk'.infos[r].inTried {
        var id := Origin(k, bk, f, bk', r);
        RenamedEntry(k, bk, f, bk', id);
        Indexed(k, bk', limbo, extra, r);
        Indexed(k, bk', limbo, extra, Rank(bk.infos, id));
        NotInLimbo(k, bk, f, bk', id);
      }
    }
    assert limbo == {};
  }

  lemma PairTables(k: Keyed, bk: Book, f: File, bk': Book)
    requires Pair(k, bk, f, bk')
    ensures SameTables(bk, bk')
  {
    ReadingIs(k, f, bk', |f.trieds|);
    var limbo, extra := Limbo(bk'.infos), Extra(bk');
    EntriesInRange(k, bk, {}, 0);
    forall b, p | 0 <= b < NEW_BUCKETS && 0 <= p < BUCKET_SIZE
      ensures Holder(bk, bk.newTable[b][p]) == Holder(bk', bk'.newTable[b][p])
    {
      assert bk'.newTable[b][p] == Target(bk.infos, bk.newTable[b][p]);
      if bk.newTable[b][p] != EMPTY {
        SlotFacts(k, bk, {}, 0, b, p);
        LoadedAtRank(k, bk, f, bk', bk.newTable[b][p]);
      }
    }
    forall b, p | 0 <= b < TRIED_BUCKETS && 0 <= p < BUCKET_SIZE
      ensures Holder(bk, bk.triedTable[b][p]) == Holder(bk', bk'.triedTable[b][p])
    {
      TriedHolder(k, bk, f, bk', b, p);
    }
  }

  lemma TriedHolder(k: Keyed, bk: Book, f: File, bk': Book, b: nat, p: nat)
    requires Pair(k, bk, f, bk') && b < TRIED_BUCKETS && p < BUCKET_SIZE
    ensures Holder(bk, bk.triedTable[b][p]) == Holder(bk', bk'.triedTable[b][p])
  {
    ReadingIs(k, f, bk', |f.trieds|);
    var limbo, extra := Limbo(bk'.infos), Extra(bk');
    EntriesInRange(k, bk, {}, 0);
    if bk.triedTable[b][p] != EMPTY {
      TriedSlotFacts(k, bk, {}, 0, b, p);
      RenamedEntry(k, bk, f, bk', bk.triedTable[b][p]);
      TriedHasSlot(k, bk', limbo, extra, Renamed(bk, f, bk.triedTable[b][p]));
    } else if bk'.triedTable[b][p] != EMPTY {
      TriedSlotFacts(k, bk', limbo, extra, b, p);
      var id := Origin(k, bk, f, bk', bk'.triedTable[b][p]);
      TriedHasSlot(k, bk, {}, 0, id);
      EntryFacts(k, bk, {}, 0, id);
    }
  }

  /** Loading the file of a consistent book gives its contents back, and leaves no entry without a bucket. */
  lemma LoadAfterSave(k: Keyed, bk: Book)
    requires Consistent(k, bk, {}, 0)
    ensures bk.nextId >= 0 && Loadable(Written(k.key, bk))
    ensures var bk' := Loaded(k, Written(k.key, bk)); Limbo(bk'.infos) == {} && Shaped(bk') && SameContents(bk, bk')
  {
    WrittenIsLoadable(k, bk);
    WrittenUsesTable(k, bk);
    CountsWritten(k, bk);
    WrittenIs(k.key, bk);
    var f := Written(k.key, bk);
    var bk' := Loaded(k, f);
    LoadedIsSound(k, f);
    ReadingIs(k, f, bk', |f.trieds|);
    FillRows(k, bk, f, NEW_BUCKETS);
    NothingLost(k, bk, f, |f.trieds|);
    RowsKeepTried(k, f, NEW_BUCKETS);
    LoadedNeverTried(k, f);
    PairEntries(k, bk, f, bk');
    PairTables(k, bk, f, bk');
  }

  lemma {:induction false} RowsKeepTried(k: Keyed, f: File, b: nat)
    requires Loadable(f) && |f.table| == NEW_BUCKETS && b <= NEW_BUCKETS
             && AllTried(Trieds(k, f, |f.trieds|), f, |f.trieds|)
    ensures AllTried(Rows(k, f, b), f, |f.trieds|)
  {
    if b > 0 {
      RowsKeepTried(k, f, b - 1);
      RowsSound(k, f, b - 1);
      CellsKeepTried(k, f, Rows(k, f, b - 1), b - 1, f.table[b - 1], |f.table[b - 1]|);
    }
  }

  lemma {:induction false} CellsKeepTried(k: Keyed, f: File, bk: Book, b: nat, row: seq<int>, n: nat)
    requires Reading(k, f, bk, |f.trieds|) && b < NEW_BUCKETS && n <= |row| && AllTried(bk, f, |f.trieds|)
    ensures AllTried(Cells(k, f, bk, b, row, n), f, |f.trieds|)
  {
    if n > 0 {
      CellsKeepTried(k, f, bk, b, row, n - 1);
      CellsSound(k, f, bk, b, row, n - 1);
      ReadingIs(k, f, Cells(k, f, bk, b, row, n - 1), |f.trieds|);
      var bk1 := Cells(k, f, bk, b, row, n - 1);
      var bk2 := SlotStep(k, bk1, b, row[n - 1], |f.news|);
      forall j | 0 <= j < |f.trieds|
        ensures |f.news| + j in bk2.infos && bk2.infos[|f.news| + j].inTried
                && Save(bk2.infos[|f.news| + j]) == f.trieds[j]
      {
        assert Save(bk1.infos[|f.news| + j]) == f.trieds[j];
        assert bk2.infos[|f.news| + j] == bk1.infos[|f.news| + j];
      }
    }
  }

  /** Saving and loading an address manager. */
  method SaveAndLoad(a: AM.AddrMan) returns (ok: bool, b: AM.AddrMan)
    requires a.Valid()
    ensures ok && fresh(b) && b.k == a.k && b.Valid() && SameContents(a.State(), b.State())
  {
    var s := Serialize(a);
    SectionsOfJoined(Written(a.k.key, a.State()));
    LoadAfterSave(a.k, a.State());
    CountsWritten(a.k, a.State());
    WrittenIsSmall(a.k, a.State());
    WrittenIs(a.k.key, a.State());
    ok, b := Unserialize(a.k, s);
  }
}
