/** What `Unserialize` builds from a file (src/addrman.h), as functions on books: every step keeps the book
    consistent. */
module AddrLoad {
  import opened Hiding
  import opened AddrBook
  import opened AddrFile
  import AM = AddrMan

  // ----- books while a file is read -----

  /** The new entries that sit in no bucket yet. */
  ghost function Limbo(m: map<int, Info>): set<int> {
    set id | id in m && !m[id].inTried && m[id].refCount == 0
  }

  ghost function Extra(bk: Book): int { bk.newCount - |NewIds(bk.infos) - Limbo(bk.infos)| }

  /** Consistent but for the entries without a bucket. */
  ghost predicate Sound(k: Keyed, bk: Book) { Consistent(k, bk, Limbo(bk.infos), Extra(bk)) }

  /** Which entries are in limbo, and by how much the counter is ahead, can be read off the book. */
  lemma SoundIfConsistent(k: Keyed, bk: Book, limbo: set<int>, extra: int)
    requires Consistent(k, bk, limbo, extra)
    ensures limbo == Limbo(bk.infos) && extra == Extra(bk) && Sound(k, bk)
  {
    forall id
      ensures id in limbo <==> id in Limbo(bk.infos)
    {
      if id in limbo {
        LimboFacts(k, bk, limbo, extra, id);
      } else if id in bk.infos {
        EntryFacts(k, bk, limbo, extra, id);
      }
    }
    assert limbo == Limbo(bk.infos);
    ExtraIs(k, bk, limbo, extra);
  }

  lemma ExtraIs(k: Keyed, bk: Book, limbo: set<int>, extra: int)
    requires Consistent(k, bk, limbo, extra)
    ensures extra == bk.newCount - |NewIds(bk.infos) - limbo|
  {
    assert Look(0);
  }

  /** Ids are numbered from zero, and the random order is that of the ids. */
  ghost predicate Dense(bk: Book) {
    && bk.nextId >= 0
    && (forall id :: id in bk.infos <==> 0 <= id < bk.nextId)
    && (forall id :: id in bk.infos ==> bk.infos[id].randomPos == id)
  }

  ghost predicate Shaped(bk: Book) { Shape(bk.newTable, NEW_BUCKETS) && Shape(bk.triedTable, TRIED_BUCKETS) }

  ghost function EmptyBook(newCount: nat): (bk: Book)
    ensures Shaped(bk)
  {
    Book(map[], map[], EmptyTable(NEW_BUCKETS), EmptyTable(TRIED_BUCKETS), newCount, 0, 0)
  }

  lemma EmptyIsSound(k: Keyed, newCount: nat)
    ensures Sound(k, EmptyBook(newCount)) && Dense(EmptyBook(newCount))
  {
    var bk := EmptyBook(newCount);
    assert Look(0);
    assert TriedIds(bk.infos) == {} && NewIds(bk.infos) == {} && Limbo(bk.infos) == {};
  }

  // ----- reading an entry -----

  ghost function EnterSaved(bk: Book, e: Saved): Book {
    bk.(infos := bk.infos[bk.nextId := Load(e).(randomPos := bk.nextId)],
        ids := bk.ids[e.service.ip := bk.nextId], nextId := bk.nextId + 1)
  }

  lemma EnterSavedKeeps(k: Keyed, bk: Book, limbo: set<int>, extra: int, e: Saved)
    requires Consistent(k, bk, limbo, extra) && e.service.ip !in bk.ids && e.lastSuccess >= 0
    ensures Consistent(k, EnterSaved(bk, e), limbo + {bk.nextId}, extra)
  {
    var a, id := Address(e.service, e.services, e.time), bk.nextId;
    EnterKeeps(k, bk, limbo, extra, a, e.source);
    var bk1 := Enter(bk, a, e.source);
    TouchKeeps(k, bk1, limbo + {id}, extra, id, Load(e).(randomPos := id));
    assert bk1.infos[id := Load(e).(randomPos := id)] == EnterSaved(bk, e).infos;
  }

  lemma EnterSavedDense(bk: Book, e: Saved)
    requires Dense(bk)
    ensures Dense(EnterSaved(bk, e)) && bk.nextId !in bk.infos
  {
  }

  /** A new entry; without a usable table it goes to its primary bucket if that is free. */
  ghost function NewStep(k: Keyed, bk: Book, e: Saved, useTable: bool): (bk': Book)
    requires Shaped(bk)
    ensures Shaped(bk')
  {
    var bk1, id := EnterSaved(bk, e), bk.nextId;
    var b := k.NewBucket(e.service, e.source);
    var p := k.BucketPosition(e.service, true, b);
    if !useTable && bk1.newTable[b][p] == EMPTY then Slot(bk1, b, p, id) else bk1
  }

  lemma EnterSavedSound(k: Keyed, bk: Book, e: Saved)
    requires Sound(k, bk) && Dense(bk) && e.service.ip !in bk.ids && e.lastSuccess >= 0
    ensures Sound(k, EnterSaved(bk, e)) && Dense(EnterSaved(bk, e))
  {
    var limbo, extra := Limbo(bk.infos), Extra(bk);
    EnterSavedKeeps(k, bk, limbo, extra, e);
    EnterSavedDense(bk, e);
    SoundIfConsistent(k, EnterSaved(bk, e), limbo + {bk.nextId}, extra);
  }

  lemma SlotSound(k: Keyed, bk: Book, b: nat, p: nat, id: int)
    requires Sound(k, bk) && Dense(bk) && b < NEW_BUCKETS && id in bk.infos && !bk.infos[id].inTried
    requires p == k.BucketPosition(bk.infos[id].service, true, b)
    requires bk.newTable[b][p] == EMPTY && bk.infos[id].refCount < NEW_BUCKETS_PER_ADDRESS
    ensures Sound(k, Slot(bk, b, p, id)) && Dense(Slot(bk, b, p, id))
  {
    var limbo, extra := Limbo(bk.infos), Extra(bk);
    SlotKeeps(k, bk, limbo, extra, b, p, id);
    SoundIfConsistent(k, Slot(bk, b, p, id), limbo - {id}, extra - if id in limbo then 1 else 0);
  }

  lemma NewStepKeeps(k: Keyed, bk: Book, e: Saved, useTable: bool)
    requires Sound(k, bk) && Dense(bk) && e.service.ip !in bk.ids && e.lastSuccess >= 0
    ensures Sound(k, NewStep(k, bk, e, useTable)) && Dense(NewStep(k, bk, e, useTable))
  {
    EnterSavedSound(k, bk, e);
    var bk1, b := EnterSaved(bk, e), k.NewBucket(e.service, e.source);
    var p := k.BucketPosition(e.service, true, b);
    if !useTable && bk1.newTable[b][p] == EMPTY {
      SlotSound(k, bk1, b, p, bk.nextId);
    }
  }

  /** A tried entry; it is lost if its slot is taken. */
  ghost function TriedStep(k: Keyed, bk: Book, e: Saved): (bk': Book)
    requires Shaped(bk)
    ensures Shaped(bk')
  {
    var b := k.TriedBucket(e.service);
    var p := k.BucketPosition(e.service, false, b);
    if bk.triedTable[b][p] == EMPTY then Try(EnterSaved(bk, e), bk.nextId, b, p) else bk
  }

  lemma TriedStepKeeps(k: Keyed, bk: Book, e: Saved)
    requires Sound(k, bk) && Dense(bk) && e.service.ip !in bk.ids && e.lastSuccess > 0
    ensures Sound(k, TriedStep(k, bk, e)) && Dense(TriedStep(k, bk, e))
  {
    var limbo, extra, id := Limbo(bk.infos), Extra(bk), bk.nextId;
    var b := k.TriedBucket(e.service);
    var p := k.BucketPosition(e.service, false, b);
    if bk.triedTable[b][p] == EMPTY {
      EnterSavedKeeps(k, bk, limbo, extra, e);
      EnterSavedDense(bk, e);
      TryKeeps(k, EnterSaved(bk, e), limbo + {id}, extra, b, p, id);
      SoundIfConsistent(k, TriedStep(k, bk, e), limbo + {id} - {id}, extra);
    }
  }

  /** One index of a bucket. */
  ghost function SlotStep(k: Keyed, bk: Book, b: nat, index: int, news: nat): (bk': Book)
    requires Shaped(bk) && b < NEW_BUCKETS
    ensures Shaped(bk')
  {
    if 0 <= index < news && index in bk.infos then
      var p := k.BucketPosition(bk.infos[index].service, true, b);
      if bk.newTable[b][p] == EMPTY && bk.infos[index].refCount < NEW_BUCKETS_PER_ADDRESS
      then Slot(bk, b, p, index)
      else bk
    else bk
  }

  lemma SlotStepKeeps(k: Keyed, bk: Book, b: nat, index: int, news: nat)
    requires Sound(k, bk) && Dense(bk) && b < NEW_BUCKETS
    requires forall id :: 0 <= id < news && id in bk.infos ==> !bk.infos[id].inTried
    ensures Sound(k, SlotStep(k, bk, b, index, news)) && Dense(SlotStep(k, bk, b, index, news))
  {
    var bk' := SlotStep(k, bk, b, index, news);
    if bk' != bk {
      SlotSound(k, bk, b, k.BucketPosition(bk.infos[index].service, true, b), index);
    }
  }

  // ----- reading a whole file -----

  /** Files that `Unserialize` turns into a consistent state: it does not recheck that addresses are different and
      that the success times make sense. */
  ghost predicate Loadable(f: File) {
    && (forall i :: 0 <= i < |f.news| ==> f.news[i].lastSuccess >= 0)
    && (forall i :: 0 <= i < |f.trieds| ==> f.trieds[i].lastSuccess > 0)
    && (forall i, j :: 0 <= i < j < |f.news| ==> f.news[i].service.ip != f.news[j].service.ip)
    && (forall i, j :: 0 <= i < j < |f.trieds| ==> f.trieds[i].service.ip != f.trieds[j].service.ip)
    && (forall i, j :: 0 <= i < |f.news| && 0 <= j < |f.trieds| ==> f.news[i].service.ip != f.trieds[j].service.ip)
  }

  /** The saved positions are used only for the same version and number of buckets. */
  predicate UseTable(f: File) { f.version == 1 && |f.table| == NEW_BUCKETS }

  /** The first `news` entries are new and come from the file in order; the others are tried, from its first `n`. */
  ghost predicate Entries(bk: Book, f: File, news: nat, n: nat)
    requires news <= |f.news| && n <= |f.trieds|
  {
    && bk.nextId >= news && bk.newCount == |f.news| && bk.triedCount == bk.nextId - news
    && (forall j :: 0 <= j < news ==> j in bk.infos && !bk.infos[j].inTried && Save(bk.infos[j]) == f.news[j])
    && (forall j :: news <= j < bk.nextId ==>
          j in bk.infos && bk.infos[j].inTried && Save(bk.infos[j]) in f.trieds[..n])
  }

  ghost function News(k: Keyed, f: File, n: nat): (bk: Book)
    requires n <= |f.news|
    ensures Shaped(bk)
  {
    if n == 0 then EmptyBook(|f.news|) else NewStep(k, News(k, f, n - 1), f.news[n - 1], UseTable(f))
  }

  lemma NewIsUnknown(k: Keyed, bk: Book, f: File, n: nat)
    requires Sound(k, bk) && Dense(bk) && Loadable(f) && n < |f.news| && Entries(bk, f, n, 0) && bk.nextId == n
    ensures f.news[n].service.ip !in bk.ids
  {
    var a := f.news[n].service.ip;
    forall j | j in bk.infos
      ensures bk.infos[j].service.ip != a
    {
      assert Save(bk.infos[j]) == f.news[j];
    }
    if a in bk.ids {
      AddrFacts(k, bk, Limbo(bk.infos), Extra(bk), a);
    }
  }

  lemma NewStepEntries(k: Keyed, bk: Book, f: File, n: nat)
    requires Shaped(bk) && Dense(bk) && n < |f.news| && Entries(bk, f, n, 0) && bk.nextId == n
    ensures var bk' := NewStep(k, bk, f.news[n], UseTable(f)); bk'.nextId == n + 1 && Entries(bk', f, n + 1, 0)
  {
    var bk' := NewStep(k, bk, f.news[n], UseTable(f));
    forall j | 0 <= j < n + 1
      ensures j in bk'.infos && !bk'.infos[j].inTried && Save(bk'.infos[j]) == f.news[j]
    {
      if j < n {
        assert bk'.infos[j] == bk.infos[j];
      } else {
        assert Save(bk'.infos[j]) == f.news[n];
      }
    }
  }

  ghost predicate NewsRead(k: Keyed, f: File, bk: Book, n: nat)
    requires n <= |f.news|
  {
    Sound(k, bk) && Dense(bk) && bk.nextId == n && Entries(bk, f, n, 0)
  }

  ghost predicate AreNewsRead(k: Keyed, f: File, bk: Book, n: nat, ok: bool)
    requires n <= |f.news|
  {
    forall i :: Look(i) ==> ok == NewsRead(k, f, bk, n)
  }

  /** `NewsRead`, unfolded only on demand. */
  ghost predicate ReadingNews(k: Keyed, f: File, bk: Book, n: nat)
    requires n <= |f.news|
  {
    assert AreNewsRead(k, f, bk, n, NewsRead(k, f, bk, n));
    var ok :| AreNewsRead(k, f, bk, n, ok);
    ok
  }

  lemma ReadingNewsIs(k: Keyed, f: File, bk: Book, n: nat)
    requires n <= |f.news|
    ensures ReadingNews(k, f, bk, n) <==> NewsRead(k, f, bk, n)
  {
    assert Look(0);
  }

  lemma NewsNext(k: Keyed, f: File, bk: Book, n: nat)
    requires Loadable(f) && n < |f.news| && Shaped(bk) && ReadingNews(k, f, bk, n)
    ensures ReadingNews(k, f, NewStep(k, bk, f.news[n], UseTable(f)), n + 1)
  {
    ReadingNewsIs(k, f, bk, n);
    NewIsUnknown(k, bk, f, n);
    NewStepKeeps(k, bk, f.news[n], UseTable(f));
    NewStepEntries(k, bk, f, n);
    ReadingNewsIs(k, f, NewStep(k, bk, f.news[n], UseTable(f)), n + 1);
  }

  lemma {:induction false} NewsSound(k: Keyed, f: File, n: nat)
    requires Loadable(f) && n <= |f.news|
    ensures ReadingNews(k, f, News(k, f, n), n)
  {
    if n == 0 {
      EmptyIsSound(k, |f.news|);
      ReadingNewsIs(k, f, News(k, f, 0), 0);
    } else {
      var bk := News(k, f, n - 1);
      NewsSound(k, f, n - 1);
      NewsNext(k, f, bk, n - 1);
    }
  }

  ghost function Trieds(k: Keyed, f: File, n: nat): (bk: Book)
    requires n <= |f.trieds|
    ensures Shaped(bk)
  {
    if n == 0 then News(k, f, |f.news|) else TriedStep(k, Trieds(k, f, n - 1), f.trieds[n - 1])
  }

  lemma TriedIsUnknown(k: Keyed, bk: Book, f: File, n: nat)
    requires Sound(k, bk) && Dense(bk) && Loadable(f) && n < |f.trieds| && Entries(bk, f, |f.news|, n)
    ensures f.trieds[n].service.ip !in bk.ids
  {
    var a := f.trieds[n].service.ip;
    forall j | j in bk.infos
      ensures bk.infos[j].service.ip != a
    {
      if j < |f.news| {
        assert Save(bk.infos[j]) == f.news[j];
      } else {
        assert Save(bk.infos[j]) in f.trieds[..n];
        var i :| 0 <= i < n && f.trieds[i] == Save(bk.infos[j]);
      }
    }
    if a in bk.ids {
      AddrFacts(k, bk, Limbo(bk.infos), Extra(bk), a);
    }
  }

  lemma TriedStepEntries(k: Keyed, bk: Book, f: File, n: nat)
    requires Shaped(bk) && Dense(bk) && n < |f.trieds| && Entries(bk, f, |f.news|, n)
    ensures Entries(TriedStep(k, bk, f.trieds[n]), f, |f.news|, n + 1)
  {
    var bk' := TriedStep(k, bk, f.trieds[n]);
    assert f.trieds[..n + 1] == f.trieds[..n] + [f.trieds[n]];
    forall j | |f.news| <= j < bk'.nextId
      ensures j in bk'.infos && bk'.infos[j].inTried && Save(bk'.infos[j]) in f.trieds[..n + 1]
    {
      if j < bk.nextId {
        assert bk'.infos[j] == bk.infos[j];
      } else {
        assert Save(bk'.infos[j]) == f.trieds[n];
      }
    }
  }

  ghost predicate Read(k: Keyed, f: File, bk: Book, n: nat)
    requires n <= |f.trieds|
  {
    Sound(k, bk) && Dense(bk) && Entries(bk, f, |f.news|, n)
  }

  ghost predicate AreRead(k: Keyed, f: File, bk: Book, n: nat, ok: bool)
    requires n <= |f.trieds|
  {
    forall i :: Look(i) ==> ok == Read(k, f, bk, n)
  }

  /** `Read`, unfolded only on demand. */
  ghost predicate Reading(k: Keyed, f: File, bk: Book, n: nat)
    requires n <= |f.trieds|
  {
    && Shaped(bk)
    && assert AreRead(k, f, bk, n, Read(k, f, bk, n));
    var ok :| AreRead(k, f, bk, n, ok);
    ok
  }

  lemma ReadingIs(k: Keyed, f: File, bk: Book, n: nat)
    requires n <= |f.trieds|
    ensures Reading(k, f, bk, n) <==> Read(k, f, bk, n)
  {
    assert Look(0);
  }

  lemma TriedsNext(k: Keyed, f: File, bk: Book, n: nat)
    requires Loadable(f) && n < |f.trieds| && Reading(k, f, bk, n)
    ensures Reading(k, f, TriedStep(k, bk, f.trieds[n]), n + 1)
  {
    ReadingIs(k, f, bk, n);
    TriedIsUnknown(k, bk, f, n);
    TriedStepKeeps(k, bk, f.trieds[n]);
    TriedStepEntries(k, bk, f, n);
    ReadingIs(k, f, TriedStep(k, bk, f.trieds[n]), n + 1);
  }

  lemma {:induction false} TriedsSound(k: Keyed, f: File, n: nat)
    requires Loadable(f) && n <= |f.trieds|
    ensures Reading(k, f, Trieds(k, f, n), n)
  {
    if n == 0 {
      NewsSound(k, f, |f.news|);
      ReadingNewsIs(k, f, News(k, f, |f.news|), |f.news|);
      ReadingIs(k, f, Trieds(k, f, 0), 0);
    } else {
      var bk := Trieds(k, f, n - 1);
      TriedsSound(k, f, n - 1);
      TriedsNext(k, f, bk, n - 1);
    }
  }

  /** The first `n` indices of a bucket. */
  ghost function Cells(k: Keyed, f: File, bk: Book, b: nat, row: seq<int>, n: nat): (bk': Book)
    requires Shaped(bk) && b < NEW_BUCKETS && n <= |row|
    ensures Shaped(bk')
  {
    if n == 0 then bk else SlotStep(k, Cells(k, f, bk, b, row, n - 1), b, row[n - 1], |f.news|)
  }

  lemma SlotStepEntries(k: Keyed, bk: Book, f: File, b: nat, index: int)
    requires Shaped(bk) && Dense(bk) && b < NEW_BUCKETS && Entries(bk, f, |f.news|, |f.trieds|)
    ensures Entries(SlotStep(k, bk, b, index, |f.news|), f, |f.news|, |f.trieds|)
  {
  }

  lemma {:induction false} CellsSound(k: Keyed, f: File, bk: Book, b: nat, row: seq<int>, n: nat)
    requires Reading(k, f, bk, |f.trieds|) && b < NEW_BUCKETS && n <= |row|
    ensures Reading(k, f, Cells(k, f, bk, b, row, n), |f.trieds|)
  {
    if n > 0 {
      CellsSound(k, f, bk, b, row, n - 1);
      var bk1 := Cells(k, f, bk, b, row, n - 1);
      ReadingIs(k, f, bk1, |f.trieds|);
      SlotStepKeeps(k, bk1, b, row[n - 1], |f.news|);
      SlotStepEntries(k, bk1, f, b, row[n - 1]);
      ReadingIs(k, f, SlotStep(k, bk1, b, row[n - 1], |f.news|), |f.trieds|);
    }
  }

  /** The first `b` buckets of the saved table. */
  ghost function Rows(k: Keyed, f: File, b: nat): (bk: Book)
    requires |f.table| == NEW_BUCKETS && b <= NEW_BUCKETS
    ensures Shaped(bk)
  {
    if b == 0 then Trieds(k, f, |f.trieds|) else Cells(k, f, Rows(k, f, b - 1), b - 1, f.table[b - 1], |f.table[b - 1]|)
  }

  lemma {:induction false} RowsSound(k: Keyed, f: File, b: nat)
    requires Loadable(f) && |f.table| == NEW_BUCKETS && b <= NEW_BUCKETS
    ensures Reading(k, f, Rows(k, f, b), |f.trieds|)
  {
    if b == 0 {
      TriedsSound(k, f, |f.trieds|);
    } else {
      RowsSound(k, f, b - 1);
      CellsSound(k, f, Rows(k, f, b - 1), b - 1, f.table[b - 1], |f.table[b - 1]|);
    }
  }

  /** The state before entries without a bucket are pruned. */
  ghost function Loaded(k: Keyed, f: File): Book {
    if UseTable(f) then Rows(k, f, NEW_BUCKETS) else Trieds(k, f, |f.trieds|)
  }

  lemma LoadedIsSound(k: Keyed, f: File)
    requires Loadable(f)
    ensures Reading(k, f, Loaded(k, f), |f.trieds|) && Extra(Loaded(k, f)) == |Limbo(Loaded(k, f).infos)|
  {
    if UseTable(f) {
      RowsSound(k, f, NEW_BUCKETS);
    } else {
      TriedsSound(k, f, |f.trieds|);
    }
    ReadingIs(k, f, Loaded(k, f), |f.trieds|);
    ExtraIsLimbo(Loaded(k, f), f);
  }

  lemma ExtraIsLimbo(bk: Book, f: File)
    requires Dense(bk) && Entries(bk, f, |f.news|, |f.trieds|)
    ensures Extra(bk) == |Limbo(bk.infos)|
  {
    assert NewIds(bk.infos) == Below(|f.news|);
    assert NewIds(bk.infos) == (NewIds(bk.infos) - Limbo(bk.infos)) + Limbo(bk.infos);
  }

  ghost function Below(n: nat): (s: set<int>)
    ensures |s| == n && forall i :: i in s <==> 0 <= i < n
  {
    if n == 0 then {} else Below(n - 1) + {n - 1}
  }

  // ----- what a loaded entry remembers -----

  /** No entry remembers a connection attempt. */
  ghost predicate NeverTried(m: map<int, Info>) {
    forall id :: id in m ==> m[id].lastTry == 0 && m[id].lastCountAttempt == 0
  }

  lemma StepsNeverTried(k: Keyed, bk: Book, e: Saved, useTable: bool)
    requires Shaped(bk) && NeverTried(bk.infos)
    ensures NeverTried(NewStep(k, bk, e, useTable).infos) && NeverTried(TriedStep(k, bk, e).infos)
  {
  }

  lemma {:induction false} NewsNeverTried(k: Keyed, f: File, n: nat)
    requires n <= |f.news|
    ensures NeverTried(News(k, f, n).infos)
  {
    if n > 0 {
      NewsNeverTried(k, f, n - 1);
      StepsNeverTried(k, News(k, f, n - 1), f.news[n - 1], UseTable(f));
    }
  }

  lemma {:induction false} TriedsNeverTried(k: Keyed, f: File, n: nat)
    requires n <= |f.trieds|
    ensures NeverTried(Trieds(k, f, n).infos)
  {
    if n == 0 {
      NewsNeverTried(k, f, |f.news|);
    } else {
      TriedsNeverTried(k, f, n - 1);
      StepsNeverTried(k, Trieds(k, f, n - 1), f.trieds[n - 1], UseTable(f));
    }
  }

  lemma {:induction false} CellsNeverTried(k: Keyed, f: File, bk: Book, b: nat, row: seq<int>, n: nat)
    requires Shaped(bk) && b < NEW_BUCKETS && n <= |row| && NeverTried(bk.infos)
    ensures NeverTried(Cells(k, f, bk, b, row, n).infos)
  {
    if n > 0 {
      CellsNeverTried(k, f, bk, b, row, n - 1);
    }
  }

  lemma {:induction false} RowsNeverTried(k: Keyed, f: File, b: nat)
    requires |f.table| == NEW_BUCKETS && b <= NEW_BUCKETS
    ensures NeverTried(Rows(k, f, b).infos)
  {
    if b == 0 {
      TriedsNeverTried(k, f, |f.trieds|);
    } else {
      RowsNeverTried(k, f, b - 1);
      CellsNeverTried(k, f, Rows(k, f, b - 1), b - 1, f.table[b - 1], |f.table[b - 1]|);
    }
  }

  lemma LoadedNeverTried(k: Keyed, f: File)
    ensures NeverTried(Loaded(k, f).infos)
  {
    if UseTable(f) {
      RowsNeverTried(k, f, NEW_BUCKETS);
    } else {
      TriedsNeverTried(k, f, |f.trieds|);
    }
  }

  // ----- files without a usable table -----

  /** The slot of an entry in the bucket of its own source. */
  ghost predicate PrimarySlot(k: Keyed, e: Saved, b: nat, p: nat) {
    b == k.NewBucket(e.service, e.source) && p == k.BucketPosition(e.service, true, b)
  }

  /** Which of the first `n` new entries a slot goes to: the first of those that have it as primary slot. */
  ghost predicate FirstClaim(k: Keyed, f: File, n: nat, b: nat, p: nat, id: int)
    requires n <= |f.news|
  {
    if id == EMPTY then forall i :: 0 <= i < n ==> !PrimarySlot(k, f.news[i], b, p)
    else 0 <= id < n && PrimarySlot(k, f.news[id], b, p) && forall i :: 0 <= i < id ==> !PrimarySlot(k, f.news[i], b, p)
  }

  lemma NewStepClaims(k: Keyed, bk: Book, e: Saved, b: nat, p: nat)
    requires Shaped(bk) && b < NEW_BUCKETS && p < BUCKET_SIZE
    ensures var bk' := NewStep(k, bk, e, false);
      && bk'.nextId == bk.nextId + 1
      && bk'.newTable[b][p]
         == if PrimarySlot(k, e, b, p) && bk.newTable[b][p] == EMPTY then bk.nextId else bk.newTable[b][p]
  {
  }

  lemma ClaimNext(k: Keyed, f: File, bk: Book, n: nat, b: nat, p: nat)
    requires 0 < n <= |f.news| && Shaped(bk) && b < NEW_BUCKETS && p < BUCKET_SIZE
    requires bk.nextId == n - 1 && FirstClaim(k, f, n - 1, b, p, bk.newTable[b][p])
    ensures var bk' := NewStep(k, bk, f.news[n - 1], false);
      bk'.nextId == n && FirstClaim(k, f, n, b, p, bk'.newTable[b][p])
  {
    NewStepClaims(k, bk, f.news[n - 1], b, p);
  }

  lemma {:induction false} NewsClaim(k: Keyed, f: File, n: nat, b: nat, p: nat)
    requires n <= |f.news| && b < NEW_BUCKETS && p < BUCKET_SIZE && !UseTable(f)
    ensures News(k, f, n).nextId == n && FirstClaim(k, f, n, b, p, News(k, f, n).newTable[b][p])
  {
    if n > 0 {
      NewsClaim(k, f, n - 1, b, p);
      ClaimNext(k, f, News(k, f, n - 1), n, b, p);
    }
  }

  lemma TriedStepKeepsNewTable(k: Keyed, bk: Book, e: Saved)
    requires Shaped(bk)
    ensures TriedStep(k, bk, e).newTable == bk.newTable
  {
  }

  lemma {:induction false} TriedsKeepNewTable(k: Keyed, f: File, n: nat)
    requires n <= |f.trieds|
    ensures Trieds(k, f, n).newTable == News(k, f, |f.news|).newTable
  {
    if n > 0 {
      TriedsKeepNewTable(k, f, n - 1);
      TriedStepKeepsNewTable(k, Trieds(k, f, n - 1), f.trieds[n - 1]);
    }
  }

  /** A file of another version, or with another number of buckets: every slot of the new table goes to the first
      entry that has it as its primary slot. */
  lemma LoadedWithoutTable(k: Keyed, f: File, b: nat, p: nat)
    requires f.version != 1 || |f.table| != 1024
    requires b < NEW_BUCKETS && p < BUCKET_SIZE
    ensures Shaped(Loaded(k, f)) && FirstClaim(k, f, |f.news|, b, p, Loaded(k, f).newTable[b][p])
  {
    NewsClaim(k, f, |f.news|, b, p);
    TriedsKeepNewTable(k, f, |f.trieds|);
  }

  // ----- `Unserialize` -----

  ghost function Upto(n: nat): (s: seq<int>)
    ensures |s| == n && forall i :: 0 <= i < n ==> s[i] == i
  {
    seq(n, i => i)
  }

  /** The object holds the book `bk`, with the counters as they were read. */
  ghost predicate Holds(a: AM.AddrMan, bk: Book, trieds: int, next: int)
    reads a
  {
    a.State() == bk.(triedCount := trieds, nextId := next) && bk.nextId >= 0 && a.order == Upto(bk.nextId)
  }

  method LoadNew(a: AM.AddrMan, e: Saved, n: nat, useTable: bool, ghost bk: Book, ghost trieds: int, ghost next: int)
    requires Shaped(bk) && bk.nextId == n && Holds(a, bk, trieds, next)
    modifies a
    ensures Holds(a, NewStep(a.k, bk, e, useTable), trieds, next) && a.lastGood == old(a.lastGood)
  {
    a.infos := a.infos[n := Load(e).(randomPos := |a.order|)];
    a.ids := a.ids[e.service.ip := n];
    a.order := a.order + [n];
    if !useTable {
      var bucket := a.k.NewBucket(e.service, e.source);
      var pos := a.k.BucketPosition(e.service, true, bucket);
      if a.newTable[bucket][pos] == EMPTY {
        a.newTable := Put(a.newTable, bucket, pos, n);
        a.infos := a.infos[n := a.infos[n].(refCount := a.infos[n].refCount + 1)];
      }
    }
  }

  method LoadTried(a: AM.AddrMan, e: Saved, ghost bk: Book, ghost trieds: int) returns (lost: nat)
    requires Shaped(bk) && Dense(bk) && Holds(a, bk, trieds, bk.nextId)
    modifies a
    ensures var bk' := TriedStep(a.k, bk, e);
      Holds(a, bk', trieds, bk'.nextId) && bk'.triedCount == bk.triedCount + 1 - lost && a.lastGood == old(a.lastGood)
  {
    lost := 0;
    var bucket := a.k.TriedBucket(e.service);
    var pos := a.k.BucketPosition(e.service, false, bucket);
    if a.triedTable[bucket][pos] == EMPTY {
      var info := Load(e).(randomPos := |a.order|, inTried := true);
      a.order := a.order + [a.nextId];
      a.infos := a.infos[a.nextId := info];
      a.ids := a.ids[e.service.ip := a.nextId];
      a.triedTable := Put(a.triedTable, bucket, pos, a.nextId);
      a.nextId := a.nextId + 1;
    } else {
      lost := 1;
    }
  }

  method LoadIndex(a: AM.AddrMan, bucket: nat, index: int, news: nat, ghost bk: Book)
    requires Shaped(bk) && Dense(bk) && bucket < NEW_BUCKETS && news <= bk.nextId
             && Holds(a, bk, bk.triedCount, bk.nextId)
    modifies a
    ensures Holds(a, SlotStep(a.k, bk, bucket, index, news), bk.triedCount, bk.nextId) && a.lastGood == old(a.lastGood)
  {
    if 0 <= index < news {
      var info := a.infos[index];
      var pos := a.k.BucketPosition(info.service, true, bucket);
      if a.newTable[bucket][pos] == EMPTY && info.refCount < NEW_BUCKETS_PER_ADDRESS {
        a.infos := a.infos[index := info.(refCount := info.refCount + 1)];
        a.newTable := Put(a.newTable, bucket, pos, index);
      }
    }
  }

  ghost function From(s: set<int>, id: int): set<int> {
    set i | i in s && i >= id
  }

  lemma EntriesInRange(k: Keyed, bk: Book, limbo: set<int>, extra: int)
    requires Consistent(k, bk, limbo, extra)
    ensures bk.nextId >= 0 && forall id :: id in bk.infos ==> 0 <= id < bk.nextId
  {
    assert Look(0);
  }

  /** The test of the loop finds exactly the entries in limbo. */
  lemma PruneStep(m: map<int, Info>, all: set<int>, limbo: set<int>, now: map<int, Info>, id: int)
    requires all == Limbo(m) && limbo == From(all, id) && AM.SameButPos(now, m - (all - limbo))
    ensures (id in now && !now[id].inTried && now[id].refCount == 0) <==> id in limbo
    ensures id in limbo ==> limbo - {id} == From(all, id + 1)
    ensures id !in limbo ==> limbo == From(all, id + 1)
  {
    var kept := m - (all - limbo);
    assert id in now <==> id in kept;
    if id in now {
      AM.SameButPosAt(now, kept, id);
    }
  }

  lemma PruneDone(m: map<int, Info>, all: set<int>, limbo: set<int>, before: map<int, Info>, now: map<int, Info>,
                  id: int)
    requires id in limbo && limbo <= all && AM.SameButPos(before, m - (all - limbo))
             && AM.SameButPos(now, before - {id})
    ensures AM.SameButPos(now, m - (all - (limbo - {id})))
  {
    var kept := m - (all - limbo);
    DropBoth(before, kept, id);
    AM.SameButPosTrans(now, before - {id}, kept - {id});
    assert all - (limbo - {id}) == (all - limbo) + {id};
    assert kept - {id} == m - (all - (limbo - {id}));
  }

  lemma DropBoth(m: map<int, Info>, m': map<int, Info>, id: int)
    requires AM.SameButPos(m, m')
    ensures AM.SameButPos(m - {id}, m' - {id})
  {
    assert Look(0);
  }

  ghost predicate Pruning(a: AM.AddrMan, m: map<int, Info>, all: set<int>, id: int)
    reads a
  {
    var limbo := From(all, id);
    all == Limbo(m) && a.Inv(limbo, |limbo|) && AM.SameButPos(a.infos, m - (all - limbo))
  }

  /** Deletes an entry if it is new and has no bucket. */
  method PruneOne(a: AM.AddrMan, id: int, ghost m: map<int, Info>, ghost all: set<int>)
    requires Pruning(a, m, all, id)
    modifies a`infos, a`ids, a`order, a`newCount
    ensures Pruning(a, m, all, id + 1)
    ensures all == {} ==> a.State() == old(a.State())
  {
    ghost var limbo := From(all, id);
    PruneStep(m, all, limbo, a.infos, id);
    if id in a.infos && !a.infos[id].inTried && a.infos[id].refCount == 0 {
      ghost var before := a.infos;
      a.Delete(id, limbo, |limbo|);
      PruneDone(m, all, limbo, before, a.infos, id);
    }
  }

  /** Deletes the new entries without a bucket. */
  method Prune(a: AM.AddrMan)
    requires a.Inv(Limbo(a.infos), |Limbo(a.infos)|)
    modifies a`infos, a`ids, a`order, a`newCount
    ensures a.Valid() && AM.SameButPos(a.infos, old(a.infos) - Limbo(old(a.infos)))
    ensures Limbo(old(a.infos)) == {} ==> a.State() == old(a.State())
  {
    ghost var m := a.infos;
    ghost var all := Limbo(m);
    PruneStart(a, m, all);
    for id := 0 to a.nextId
      invariant Pruning(a, m, all, id)
      invariant all == {} ==> a.State() == old(a.State())
    {
      PruneOne(a, id, m, all);
    }
    PruneEnd(a, m, all);
  }

  lemma PruneStart(a: AM.AddrMan, m: map<int, Info>, all: set<int>)
    requires m == a.infos && all == Limbo(m) && a.Inv(all, |all|)
    ensures a.nextId >= 0 && Pruning(a, m, all, 0) && From(all, a.nextId) == {}
  {
    EntriesInRange(a.k, a.State(), all, |all|);
    AM.SameButPosRefl(m);
    assert From(all, 0) == all && m - (all - all) == m;
  }

  lemma PruneEnd(a: AM.AddrMan, m: map<int, Info>, all: set<int>)
    requires Pruning(a, m, all, a.nextId) && From(all, a.nextId) == {}
    ensures a.Valid() && AM.SameButPos(a.infos, m - all)
  {
    assert all - {} == all;
  }

  /** `Unserialize`: `false` stands for the exceptions about the key size, the counters and the end of the entries. */
  method Unserialize(k: Keyed, s: Stream) returns (ok: bool, a: AM.AddrMan)
    requires 0 <= s.newCount && 0 <= s.triedCount && (Complete(s) ==> Loadable(Sections(s)))
    ensures fresh(a) && a.k == k.(key := s.key)
    ensures ok <==>
              && s.keySize == 32 && s.newCount <= NEW_BUCKETS * BUCKET_SIZE
              && s.triedCount <= TRIED_BUCKETS * BUCKET_SIZE && Complete(s)
    ensures ok ==> var m := Loaded(a.k, Sections(s)).infos; a.Valid() && AM.SameButPos(a.infos, m - Limbo(m))
    ensures ok && Limbo(Loaded(a.k, Sections(s)).infos) == {} ==> a.State() == Loaded(a.k, Sections(s))
    ensures ok ==> NeverTried(a.infos)
  {
    a := new AM.AddrMan(k.(key := s.key));
    ok := false;
    if s.keySize != 32 {
      return;
    }
    a.newCount, a.triedCount := s.newCount, s.triedCount;
    if a.newCount > NEW_BUCKETS * BUCKET_SIZE || a.triedCount > TRIED_BUCKETS * BUCKET_SIZE {
      return;
    }
    if !Complete(s) {
      return;
    }
    var f := Sections(s);
    LoadEntries(a, f);
    if UseTable(f) {
      LoadTable(a, f);
    }
    LoadedIsSound(a.k, f);
    ReadingIs(a.k, f, Loaded(a.k, f), |f.trieds|);
    DenseOrder(Loaded(a.k, f), a.order);
    Prune(a);
    LoadedNeverTried(a.k, f);
    PrunedNeverTried(a.infos, Loaded(a.k, f).infos, Limbo(Loaded(a.k, f).infos));
    ok := true;
  }

  lemma PrunedNeverTried(m: map<int, Info>, all: map<int, Info>, limbo: set<int>)
    requires AM.SameButPos(m, all - limbo) && NeverTried(all)
    ensures NeverTried(m)
  {
    forall id | id in m
      ensures m[id].lastTry == 0 && m[id].lastCountAttempt == 0
    {
      AM.SameButPosAt(m, all - limbo, id);
    }
  }

  /** The two loops over the entries. */
  method LoadEntries(a: AM.AddrMan, f: File)
    requires Loadable(f) && Holds(a, EmptyBook(|f.news|), |f.trieds|, 0)
    modifies a
    ensures var bk := Trieds(a.k, f, |f.trieds|); Holds(a, bk, bk.triedCount, bk.nextId)
  {
    LoadNews(a, f);
    NewsSound(a.k, f, |f.news|);
    ReadingNewsIs(a.k, f, News(a.k, f, |f.news|), |f.news|);
    a.nextId := |f.news|;
    LoadTrieds(a, f);
  }

  method LoadNews(a: AM.AddrMan, f: File)
    requires Loadable(f) && Holds(a, EmptyBook(|f.news|), |f.trieds|, 0)
    modifies a
    ensures Holds(a, News(a.k, f, |f.news|), |f.trieds|, 0)
  {
    for n := 0 to |f.news|
      invariant Holds(a, News(a.k, f, n), |f.trieds|, 0)
    {
      NewsSound(a.k, f, n);
      ReadingNewsIs(a.k, f, News(a.k, f, n), n);
      LoadNew(a, f.news[n], n, UseTable(f), News(a.k, f, n), |f.trieds|, 0);
    }
  }

  method LoadTrieds(a: AM.AddrMan, f: File)
    requires Loadable(f) && Holds(a, Trieds(a.k, f, 0), |f.trieds|, |f.news|)
    requires Trieds(a.k, f, 0).nextId == |f.news| && Trieds(a.k, f, 0).triedCount == 0
    modifies a
    ensures var bk := Trieds(a.k, f, |f.trieds|); Holds(a, bk, bk.triedCount, bk.nextId)
  {
    var lost := 0;
    ghost var bk := Trieds(a.k, f, 0);
    for n := 0 to |f.trieds|
      invariant bk == Trieds(a.k, f, n) && Holds(a, bk, |f.trieds|, bk.nextId) && bk.triedCount == n - lost
    {
      TriedsDense(a.k, f, n);
      var l := LoadTried(a, f.trieds[n], bk, |f.trieds|);
      lost := lost + l;
      bk := TriedStep(a.k, bk, f.trieds[n]);
    }
    a.triedCount := a.triedCount - lost;
  }

  lemma TriedsDense(k: Keyed, f: File, n: nat)
    requires Loadable(f) && n <= |f.trieds|
    ensures Dense(Trieds(k, f, n))
  {
    TriedsSound(k, f, n);
    ReadingIs(k, f, Trieds(k, f, n), n);
  }

  /** The loop over the buckets of the saved table. */
  method LoadTable(a: AM.AddrMan, f: File)
    requires Loadable(f) && |f.table| == NEW_BUCKETS
    requires var bk := Rows(a.k, f, 0); Holds(a, bk, bk.triedCount, bk.nextId)
    modifies a
    ensures var bk := Rows(a.k, f, NEW_BUCKETS); Holds(a, bk, bk.triedCount, bk.nextId)
  {
    for bucket := 0 to NEW_BUCKETS
      invariant var bk := Rows(a.k, f, bucket); Holds(a, bk, bk.triedCount, bk.nextId)
    {
      RowsSound(a.k, f, bucket);
      LoadBucket(a, f, Rows(a.k, f, bucket), bucket, f.table[bucket]);
    }
  }

  method LoadBucket(a: AM.AddrMan, f: File, ghost bk: Book, bucket: nat, row: seq<int>)
    requires Reading(a.k, f, bk, |f.trieds|) && bucket < NEW_BUCKETS && Holds(a, bk, bk.triedCount, bk.nextId)
    modifies a
    ensures var bk' := Cells(a.k, f, bk, bucket, row, |row|); Holds(a, bk', bk'.triedCount, bk'.nextId)
  {
    for n := 0 to |row|
      invariant var bk' := Cells(a.k, f, bk, bucket, row, n); Holds(a, bk', bk'.triedCount, bk'.nextId)
    {
      CellsSound(a.k, f, bk, bucket, row, n);
      ReadingIs(a.k, f, Cells(a.k, f, bk, bucket, row, n), |f.trieds|);
      LoadIndex(a, bucket, row[n], |f.news|, Cells(a.k, f, bk, bucket, row, n));
    }
  }

  lemma DenseOrder(bk: Book, order: seq<int>)
    requires Dense(bk) && order == Upto(bk.nextId)
    ensures AM.OrderOk(bk.infos, order)
  {
    assert bk.infos.Keys == Below(bk.nextId);
    assert Look(0);
  }
}
