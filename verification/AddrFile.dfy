/** Saving and loading the address manager (src/addrman.h: Serialize, Unserialize).  A `Stream` holds what is written,
    record by record; how a record is laid out in bytes is not part of the model. */
module AddrFile {
  import opened Hiding
  import opened AddrBook
  import AM = AddrMan

  /** What the stream keeps of an entry. */
  datatype Saved = Saved(service: Service, services: bv64, time: nat, source: NetAddr, lastSuccess: int, attempts: int)

  /** The records of a stream in order; only the two counters tell the new entries from the tried ones. */
  datatype Stream = Stream(version: nat, keySize: nat, key: nat, newCount: int, triedCount: int,
                           entries: seq<Saved>, table: seq<seq<int>>)

  /** A stream with its entries told apart. */
  datatype File = File(version: nat, keySize: nat, key: nat, news: seq<Saved>, trieds: seq<Saved>,
                       table: seq<seq<int>>)

  function Joined(f: File): Stream {
    Stream(f.version, f.keySize, f.key, |f.news|, |f.trieds|, f.news + f.trieds, f.table)
  }

  /** There is a record for every entry that the counters announce. */
  predicate Complete(s: Stream) {
    0 <= s.newCount && 0 <= s.triedCount && s.newCount + s.triedCount <= |s.entries|
  }

  function Sections(s: Stream): File
    requires Complete(s)
  {
    File(s.version, s.keySize, s.key, s.entries[..s.newCount], s.entries[s.newCount..s.newCount + s.triedCount],
         s.table)
  }

  lemma SectionsOfJoined(f: File)
    ensures Complete(Joined(f)) && Sections(Joined(f)) == f
  {
    var s := Joined(f);
    assert s.entries[..s.newCount] == f.news;
    assert s.entries[s.newCount..s.newCount + s.triedCount] == f.trieds;
  }

  function Save(x: Info): Saved { Saved(x.service, x.services, x.time, x.source, x.lastSuccess, x.attempts) }

  /** An entry as it is read: everything that is kept only in memory starts anew. */
  function Load(s: Saved): Info {
    Info(s.service, s.services, s.time, s.source, 0, 0, s.lastSuccess, s.attempts, 0, false, -1)
  }

  // ----- what is written -----

  /** The ids below `n` of entries with references, in order. */
  ghost function NewUpTo(m: map<int, Info>, n: nat): seq<int> {
    if n == 0 then [] else NewUpTo(m, n - 1) + if n - 1 in m && m[n - 1].refCount != 0 then [n - 1] else []
  }

  ghost function TriedUpTo(m: map<int, Info>, n: nat): seq<int> {
    if n == 0 then [] else TriedUpTo(m, n - 1) + if n - 1 in m && m[n - 1].inTried then [n - 1] else []
  }

  /** The index of an entry among the new ones. */
  ghost function Rank(m: map<int, Info>, id: int): nat {
    if id < 0 then 0 else |NewUpTo(m, id)|
  }

  ghost function Saves(m: map<int, Info>, s: seq<int>): (r: seq<Saved>)
    requires forall i :: 0 <= i < |s| ==> s[i] in m
    ensures |r| == |s| && forall i :: 0 <= i < |s| ==> r[i] == Save(m[s[i]])
  {
    seq(|s|, i requires 0 <= i < |s| => Save(m[s[i]]))
  }

  /** The indices of the entries in the first `p` slots of a bucket. */
  ghost function Row(m: map<int, Info>, row: seq<int>, p: nat): seq<int>
    requires p <= |row|
  {
    if p == 0 then [] else Row(m, row, p - 1) + if row[p - 1] != EMPTY then [Rank(m, row[p - 1])] else []
  }

  lemma {:induction false} UpToInMap(m: map<int, Info>, n: nat)
    ensures forall i :: 0 <= i < |NewUpTo(m, n)| ==>
              0 <= NewUpTo(m, n)[i] < n && NewUpTo(m, n)[i] in m && m[NewUpTo(m, n)[i]].refCount != 0
    ensures forall i :: 0 <= i < |TriedUpTo(m, n)| ==>
              0 <= TriedUpTo(m, n)[i] < n && TriedUpTo(m, n)[i] in m && m[TriedUpTo(m, n)[i]].inTried
  {
    if n > 0 {
      UpToInMap(m, n - 1);
    }
  }

  ghost predicate IsWritten(key: nat, bk: Book, f: File)
    requires Shape(bk.newTable, NEW_BUCKETS) && bk.nextId >= 0
  {
    forall n :: Look(n) ==> Parts(key, bk, f)
  }

  ghost predicate Parts(key: nat, bk: Book, f: File)
    requires Shape(bk.newTable, NEW_BUCKETS) && bk.nextId >= 0
  {
    UpToInMap(bk.infos, bk.nextId);
    && f.version == 1 && f.keySize == 32 && f.key == key
    && f.news == Saves(bk.infos, NewUpTo(bk.infos, bk.nextId))
    && f.trieds == Saves(bk.infos, TriedUpTo(bk.infos, bk.nextId))
    && |f.table| == NEW_BUCKETS
    && forall b :: 0 <= b < NEW_BUCKETS ==> f.table[b] == Row(bk.infos, bk.newTable[b], BUCKET_SIZE)
  }

  /** The file of a book; `Parts` says what it holds. */
  ghost function Written(key: nat, bk: Book): File
    requires Shape(bk.newTable, NEW_BUCKETS) && bk.nextId >= 0
  {
    UpToInMap(bk.infos, bk.nextId);
    assert IsWritten(key, bk, File(1, 32, key, Saves(bk.infos, NewUpTo(bk.infos, bk.nextId)),
                                   Saves(bk.infos, TriedUpTo(bk.infos, bk.nextId)),
                                   seq(NEW_BUCKETS, b requires 0 <= b < NEW_BUCKETS =>
                                     Row(bk.infos, bk.newTable[b], BUCKET_SIZE))));
    var f :| IsWritten(key, bk, f);
    f
  }

  lemma WrittenIs(key: nat, bk: Book)
    requires Shape(bk.newTable, NEW_BUCKETS) && bk.nextId >= 0
    ensures Parts(key, bk, Written(key, bk))
  {
    assert Look(0);
  }

  /** An id with references stands at its rank. */
  lemma {:induction false} AtRank(m: map<int, Info>, id: nat, n: nat)
    requires id in m && m[id].refCount != 0 && id < n
    ensures Rank(m, id) < |NewUpTo(m, n)| && NewUpTo(m, n)[Rank(m, id)] == id
    decreases n
  {
    if id < n - 1 {
      AtRank(m, id, n - 1);
    }
  }

  /** The list is strictly increasing. */
  lemma {:induction false} Increasing(m: map<int, Info>, n: nat, i: nat, j: nat)
    requires i < j
    ensures j < |NewUpTo(m, n)| ==> NewUpTo(m, n)[i] < NewUpTo(m, n)[j]
    ensures j < |TriedUpTo(m, n)| ==> TriedUpTo(m, n)[i] < TriedUpTo(m, n)[j]
  {
    if n > 0 {
      Increasing(m, n - 1, i, j);
      UpToInMap(m, n - 1);
    }
  }

  ghost function Referenced(m: map<int, Info>, n: nat): set<int> {
    set id | id in m && 0 <= id < n && m[id].refCount != 0
  }

  ghost function Promoted(m: map<int, Info>, n: nat): set<int> {
    set id | id in m && 0 <= id < n && m[id].inTried
  }

  /** The lengths of the lists are the numbers of entries. */
  lemma {:induction false} CountNew(m: map<int, Info>, n: nat)
    ensures |NewUpTo(m, n)| == |Referenced(m, n)|
  {
    if n > 0 {
      CountNew(m, n - 1);
      if n - 1 in m && m[n - 1].refCount != 0 {
        assert Referenced(m, n) == Referenced(m, n - 1) + {n - 1};
      } else {
        assert Referenced(m, n) == Referenced(m, n - 1);
      }
    } else {
      assert Referenced(m, n) == {};
    }
  }

  lemma {:induction false} CountTried(m: map<int, Info>, n: nat)
    ensures |TriedUpTo(m, n)| == |Promoted(m, n)|
  {
    if n > 0 {
      CountTried(m, n - 1);
      if n - 1 in m && m[n - 1].inTried {
        assert Promoted(m, n) == Promoted(m, n - 1) + {n - 1};
      } else {
        assert Promoted(m, n) == Promoted(m, n - 1);
      }
    } else {
      assert Promoted(m, n) == {};
    }
  }

  /** In a consistent book the lists have as many entries as the counters say. */
  lemma CountsWritten(k: Keyed, bk: Book)
    requires Consistent(k, bk, {}, 0)
    ensures bk.nextId >= 0 && |NewUpTo(bk.infos, bk.nextId)| == bk.newCount
            && |TriedUpTo(bk.infos, bk.nextId)| == bk.triedCount
    ensures forall id :: id in bk.infos ==> (bk.infos[id].refCount != 0 <==> !bk.infos[id].inTried)
  {
    RolesOf(k, bk);
    var m, n := bk.infos, bk.nextId;
    CountNew(m, n);
    CountTried(m, n);
    assert Referenced(m, n) == NewIds(m) == NewIds(m) - {};
    assert Promoted(m, n) == TriedIds(m);
  }

  lemma RolesOf(k: Keyed, bk: Book)
    requires Consistent(k, bk, {}, 0)
    ensures bk.nextId >= 0 && forall id :: id in bk.infos ==> 0 <= id < bk.nextId
    ensures forall id :: id in bk.infos ==> (bk.infos[id].refCount != 0 <==> !bk.infos[id].inTried)
    ensures bk.triedCount == |TriedIds(bk.infos)| && bk.newCount == |NewIds(bk.infos) - {}|
  {
    assert Look(0);
  }

  /** `Serialize`. */
  method Serialize(a: AM.AddrMan) returns (s: Stream)
    requires a.Valid()
    ensures a.nextId >= 0 && s == Joined(Written(a.k.key, a.State()))
  {
    CountsWritten(a.k, a.State());
    var news, ranks := WriteNews(a);
    var trieds := WriteTrieds(a);
    var table := WriteTable(a, ranks);
    s := Stream(1, 32, a.k.key, a.newCount, a.triedCount, news + trieds, table);
    ghost var f := File(1, 32, a.k.key, news, trieds, table);
    WrittenIs(a.k.key, a.State());
    WrittenOnly(a.k.key, a.State(), f, Written(a.k.key, a.State()));
  }

  lemma WrittenOnly(key: nat, bk: Book, f: File, g: File)
    requires Shape(bk.newTable, NEW_BUCKETS) && bk.nextId >= 0 && Parts(key, bk, f) && Parts(key, bk, g)
    ensures f == g
  {
    assert f.table == g.table;
  }

  /** The loop over the buckets. */
  method WriteTable(a: AM.AddrMan, ranks: map<int, nat>) returns (table: seq<seq<int>>)
    requires a.Valid() && a.nextId >= 0
    requires forall id :: 0 <= id < a.nextId && id in a.infos ==> id in ranks && ranks[id] == Rank(a.infos, id)
    ensures |table| == NEW_BUCKETS && forall b :: 0 <= b < NEW_BUCKETS ==>
                                        table[b] == Row(a.infos, a.newTable[b], BUCKET_SIZE)
  {
    table := [];
    for bucket := 0 to NEW_BUCKETS
      invariant |table| == bucket && forall b :: 0 <= b < bucket ==>
                                       table[b] == Row(a.infos, a.newTable[b], BUCKET_SIZE)
    {
      SlotsAreRanked(a, ranks, bucket);
      var row := WriteBucket(a.newTable[bucket], ranks, a.infos);
      table := table + [row];
    }
  }

  /** The first loop of `Serialize`: the entries with references, and the index of each. */
  method WriteNews(a: AM.AddrMan) returns (news: seq<Saved>, ranks: map<int, nat>)
    requires a.Valid() && a.nextId >= 0
    ensures (forall i :: 0 <= i < |NewUpTo(a.infos, a.nextId)| ==> NewUpTo(a.infos, a.nextId)[i] in a.infos)
            && news == Saves(a.infos, NewUpTo(a.infos, a.nextId))
    ensures forall id :: 0 <= id < a.nextId && id in a.infos ==> id in ranks && ranks[id] == Rank(a.infos, id)
  {
    news, ranks := [], map[];
    UpToInMap(a.infos, a.nextId);
    CountsWritten(a.k, a.State());
    for id := 0 to a.nextId
      invariant forall i :: 0 <= i < |NewUpTo(a.infos, id)| ==> NewUpTo(a.infos, id)[i] in a.infos
      invariant news == Saves(a.infos, NewUpTo(a.infos, id))
      invariant forall j :: 0 <= j < id && j in a.infos ==> j in ranks && ranks[j] == Rank(a.infos, j)
    {
      UpToInMap(a.infos, id + 1);
      if id in a.infos {
        ranks := ranks[id := |news|];
        if a.infos[id].refCount != 0 {
          AtRank(a.infos, id, a.nextId);
          assert |news| != a.newCount;
          news := news + [Save(a.infos[id])];
        }
      }
    }
  }

  /** The second loop of `Serialize`. */
  method WriteTrieds(a: AM.AddrMan) returns (trieds: seq<Saved>)
    requires a.Valid() && a.nextId >= 0
    ensures (forall i :: 0 <= i < |TriedUpTo(a.infos, a.nextId)| ==> TriedUpTo(a.infos, a.nextId)[i] in a.infos)
            && trieds == Saves(a.infos, TriedUpTo(a.infos, a.nextId))
  {
    trieds := [];
    UpToInMap(a.infos, a.nextId);
    CountsWritten(a.k, a.State());
    for id := 0 to a.nextId
      invariant forall i :: 0 <= i < |TriedUpTo(a.infos, id)| ==> TriedUpTo(a.infos, id)[i] in a.infos
      invariant trieds == Saves(a.infos, TriedUpTo(a.infos, id))
    {
      UpToInMap(a.infos, id + 1);
      if id in a.infos && a.infos[id].inTried {
        TriedGrows(a.infos, id, a.nextId);
        assert |trieds| != a.triedCount;
        trieds := trieds + [Save(a.infos[id])];
      }
    }
  }

  lemma {:induction false} TriedGrows(m: map<int, Info>, id: nat, n: nat)
    requires id in m && m[id].inTried && id < n
    ensures |TriedUpTo(m, id)| < |TriedUpTo(m, n)|
    decreases n
  {
    if id < n - 1 {
      TriedGrows(m, id, n - 1);
    }
  }

  /** The indices of one bucket. */
  method WriteBucket(bucket: seq<int>, ranks: map<int, nat>, ghost m: map<int, Info>) returns (row: seq<int>)
    requires forall p :: 0 <= p < |bucket| && bucket[p] != EMPTY ==>
               bucket[p] in ranks && ranks[bucket[p]] == Rank(m, bucket[p])
    ensures row == Row(m, bucket, |bucket|)
  {
    row := [];
    for i := 0 to |bucket|
      invariant row == Row(m, bucket, i)
    {
      if bucket[i] != EMPTY {
        row := row + [ranks[bucket[i]]];
      }
    }
  }

  lemma SlotsAreRanked(a: AM.AddrMan, ranks: map<int, nat>, b: nat)
    requires a.Valid() && b < NEW_BUCKETS
    requires forall id :: 0 <= id < a.nextId && id in a.infos ==> id in ranks && ranks[id] == Rank(a.infos, id)
    ensures forall p :: 0 <= p < BUCKET_SIZE && a.newTable[b][p] != EMPTY ==>
      a.newTable[b][p] in ranks && ranks[a.newTable[b][p]] == Rank(a.infos, a.newTable[b][p])
  {
    forall p | 0 <= p < BUCKET_SIZE && a.newTable[b][p] != EMPTY
      ensures a.newTable[b][p] in ranks && ranks[a.newTable[b][p]] == Rank(a.infos, a.newTable[b][p])
    {
      SlotFacts(a.k, a.State(), {}, 0, b, p);
      EntryFacts(a.k, a.State(), {}, 0, a.newTable[b][p]);
    }
  }
}
