/** The value-level state of the address manager and the invariant that its own
    consistency oracle checks (src/addrman.cpp, src/addrman.h).

    A `Book` is the address manager without `vRandom`: the entries by id (`mapInfo`), the ids by
    network address (`mapAddr`), the two bucket tables (`vvNew`, `vvTried`) and the counters.
    Operations break the invariant part-way.  The broken states are described exactly by
    `Consistent(k, bk, limbo, extra)`: `limbo` holds the ids that currently sit in no table, and
    `extra` is by how much the counter of new entries is ahead of the table. */
module AddrBook {
  import opened Hiding

  const NEW_BUCKETS: nat := 1024
  const TRIED_BUCKETS: nat := 256
  const BUCKET_SIZE: nat := 64
  const TRIED_BUCKETS_PER_GROUP: nat := 8
  const NEW_BUCKETS_PER_SOURCE_GROUP: nat := 64
  const NEW_BUCKETS_PER_ADDRESS: nat := 8
  const HORIZON_DAYS: nat := 30
  const RETRIES: nat := 3
  const MAX_FAILURES: nat := 10
  const MIN_FAIL_DAYS: nat := 7
  const EMPTY := -1

  type NetAddr = nat

  /** An address with its port (`CService`). */
  datatype Service = Service(ip: NetAddr, port: nat)

  /** What a peer announces (`CAddress`). */
  datatype Address = Address(service: Service, services: bv64, time: nat)

  /** One entry (`CAddrInfo`). */
  datatype Info = Info(service: Service, services: bv64, time: nat, source: NetAddr,
                       lastTry: int, lastCountAttempt: int, lastSuccess: int, attempts: int,
                       refCount: int, inTried: bool, randomPos: int)

  /** Everything that is hashed, by the place where it is hashed. */
  datatype Preimage =
    | TriedKey(key: nat, service: Service)
    | TriedGroup(key: nat, group: nat, n: nat)
    | NewGroup(key: nat, group: nat, sourceGroup: nat)
    | NewSource(key: nat, sourceGroup: nat, n: nat)
    | Position(key: nat, isNew: bool, bucket: nat, service: Service)

  /** The keyed hash, the address grouping and the routability test: arbitrary functions. */
  datatype Keyed = Keyed(key: nat, cheapHash: Preimage -> nat, group: NetAddr -> nat, routable: NetAddr -> bool)
  {
    function TriedBucket(s: Service): (b: nat)
      ensures b < TRIED_BUCKETS
    {
      var h1 := cheapHash(TriedKey(key, s));
      cheapHash(TriedGroup(key, group(s.ip), h1 % TRIED_BUCKETS_PER_GROUP)) % TRIED_BUCKETS
    }

    function NewBucket(s: Service, source: NetAddr): (b: nat)
      ensures b < NEW_BUCKETS
    {
      var h1 := cheapHash(NewGroup(key, group(s.ip), group(source)));
      cheapHash(NewSource(key, group(source), h1 % NEW_BUCKETS_PER_SOURCE_GROUP)) % NEW_BUCKETS
    }

    function BucketPosition(s: Service, isNew: bool, bucket: nat): (p: nat)
      ensures p < BUCKET_SIZE
    {
      cheapHash(Position(key, isNew, bucket, s)) % BUCKET_SIZE
    }
  }

  /** The tried buckets that addresses of one group can reach. */
  ghost function TriedReach(k: Keyed, group: nat, n: nat): (r: set<nat>)
    ensures |r| <= n && forall i :: 0 <= i < n ==> k.cheapHash(TriedGroup(k.key, group, i)) % TRIED_BUCKETS in r
  {
    if n == 0 then {} else TriedReach(k, group, n - 1) + {k.cheapHash(TriedGroup(k.key, group, n - 1)) % TRIED_BUCKETS}
  }

  /** The addresses of one group share eight of the tried buckets. */
  lemma TriedSpread(k: Keyed, group: nat) returns (reach: set<nat>)
    ensures |reach| <= 8 && forall s: Service :: k.group(s.ip) == group ==> k.TriedBucket(s) in reach
  {
    reach := TriedReach(k, group, 8);
  }

  /** The new buckets that announcements from one source group can reach. */
  ghost function NewReach(k: Keyed, group: nat, n: nat): (r: set<nat>)
    ensures |r| <= n && forall i :: 0 <= i < n ==> k.cheapHash(NewSource(k.key, group, i)) % NEW_BUCKETS in r
  {
    if n == 0 then {} else NewReach(k, group, n - 1) + {k.cheapHash(NewSource(k.key, group, n - 1)) % NEW_BUCKETS}
  }

  /** What one source group announces shares 64 of the new buckets. */
  lemma NewSpread(k: Keyed, group: nat) returns (reach: set<nat>)
    ensures |reach| <= 64
    ensures forall s: Service, source: NetAddr :: k.group(source) == group ==> k.NewBucket(s, source) in reach
  {
    reach := NewReach(k, group, 64);
  }

  /** The hash places every address on its own: any two tried buckets are possible for two different addresses. */
  lemma TriedBucketsAreFree(key: nat, group: NetAddr -> nat, routable: NetAddr -> bool,
                            s: Service, s': Service, b: nat, b': nat) returns (k: Keyed)
    requires s != s' && b < 256 && b' < 256
    ensures k.key == key && k.group == group && k.routable == routable
    ensures k.TriedBucket(s) == b && k.TriedBucket(s') == b'
  {
    var hash := (x: Preimage) =>
      if x == TriedKey(key, s') then 1
      else if x == TriedGroup(key, group(s.ip), 0) then b
      else if x == TriedGroup(key, group(s'.ip), 1) then b' else 0;
    k := Keyed(key, hash, group, routable);
  }

  /** The new bucket depends on the two groups alone; and any two are possible for different pairs of groups. */
  lemma NewBucketsAreFree(key: nat, group: NetAddr -> nat, routable: NetAddr -> bool,
                          s: Service, source: NetAddr, s': Service, source': NetAddr, b: nat, b': nat)
    returns (k: Keyed)
    requires b < 1024 && b' < 1024
    requires (group(s.ip), group(source)) != (group(s'.ip), group(source')) || b == b'
    ensures k.key == key && k.group == group && k.routable == routable
    ensures k.NewBucket(s, source) == b && k.NewBucket(s', source') == b'
    ensures forall c: Keyed, t: Service, from: NetAddr ::
              c.group(t.ip) == c.group(s.ip) && c.group(from) == c.group(source) ==>
                c.NewBucket(t, from) == c.NewBucket(s, source)
  {
    var first := NewGroup(key, group(s.ip), group(source));
    var hash := (x: Preimage) =>
      if x == first then 1
      else if x == NewSource(key, group(source), 1) then b
      else if x == NewSource(key, group(source'), 0) then b' else 0;
    k := Keyed(key, hash, group, routable);
  }

  /** A position depends on the table, the bucket and the address: any two are possible if one of these differs. */
  lemma PositionsAreFree(key: nat, group: NetAddr -> nat, routable: NetAddr -> bool,
                         s: Service, isNew: bool, bucket: nat, s': Service, isNew': bool, bucket': nat,
                         p: nat, p': nat) returns (k: Keyed)
    requires p < 64 && p' < 64 && (s, isNew, bucket) != (s', isNew', bucket')
    ensures k.key == key && k.group == group && k.routable == routable
    ensures k.BucketPosition(s, isNew, bucket) == p && k.BucketPosition(s', isNew', bucket') == p'
  {
    var hash := (x: Preimage) =>
      if x == Position(key, isNew, bucket, s) then p
      else if x == Position(key, isNew', bucket', s') then p' else 0;
    k := Keyed(key, hash, group, routable);
  }

  function NewInfo(a: Address, source: NetAddr): Info {
    Info(a.service, a.services, a.time, source, 0, 0, 0, 0, 0, false, -1)
  }

  /** Whether an entry is not worth keeping: it was not tried within the last minute, and its time is missing, in the
      future or more than 30 days ago, or it failed three times without ever a success, or ten times and not once
      successfully within a week. */
  predicate IsTerrible(info: Info, now: int): (terrible: bool)
    ensures terrible <==>
              && (info.lastTry == 0 || info.lastTry < now - 60)
              && (|| info.time == 0 || info.time > now + 600 || info.time < now - 2592000
                  || (info.lastSuccess == 0 && info.attempts >= 3)
                  || (info.lastSuccess < now - 604800 && info.attempts >= 10))
  {
    if info.lastTry != 0 && info.lastTry >= now - 60 then false
    else if info.time > now + 10 * 60 then true
    else if info.time == 0 || now - info.time > HORIZON_DAYS * 24 * 60 * 60 then true
    else if info.lastSuccess == 0 && info.attempts >= RETRIES then true
    else now - info.lastSuccess > MIN_FAIL_DAYS * 24 * 60 * 60 && info.attempts >= MAX_FAILURES
  }

  type Table = seq<seq<int>>

  datatype Book = Book(infos: map<int, Info>, ids: map<NetAddr, int>, newTable: Table, triedTable: Table,
                       newCount: int, triedCount: int, nextId: int)

  ghost predicate Shape(t: Table, buckets: nat) {
    |t| == buckets && forall b :: 0 <= b < buckets ==> |t[b]| == BUCKET_SIZE
  }

  function Put(t: Table, b: nat, p: nat, id: int): Table
    requires b < |t| && p < |t[b]|
  {
    t[b := t[b][p := id]]
  }

  /** The ids in a bucket. */
  ghost function Elements(s: seq<int>): (r: set<int>)
    ensures |r| <= |s| && forall x :: x in r <==> x in s
  {
    if s == [] then {} else
      var r := Elements(s[..|s| - 1]) + {s[|s| - 1]};
      assert s == s[..|s| - 1] + [s[|s| - 1]];
      r
  }

  function EmptyTable(n: nat): (t: Table)
    ensures Shape(t, n) && forall b, p :: 0 <= b < n && 0 <= p < BUCKET_SIZE ==> t[b][p] == EMPTY
  {
    seq(n, b => seq(BUCKET_SIZE, p => EMPTY))
  }

  ghost predicate IdsOk(bk: Book) {
    && 0 <= bk.nextId
    && forall id :: id in bk.infos ==> 0 <= id < bk.nextId
  }

  /** `mapAddr` is exactly the inverse of the addresses in `mapInfo`. */
  ghost predicate AddrsOk(bk: Book) {
    && (forall id :: id in bk.infos ==> bk.infos[id].service.ip in bk.ids && bk.ids[bk.infos[id].service.ip] == id)
    && (forall a :: a in bk.ids ==> bk.ids[a] in bk.infos && bk.infos[bk.ids[a]].service.ip == a)
  }

  ghost predicate StatsOk(bk: Book) {
    forall id :: id in bk.infos ==>
      && bk.infos[id].lastTry >= 0 && bk.infos[id].lastSuccess >= 0
      && (bk.infos[id].inTried ==> bk.infos[id].lastSuccess != 0 && bk.infos[id].refCount == 0)
  }

  /** Each tried entry has exactly its one computed slot, and no other slot is taken. */
  ghost predicate TriedOk(k: Keyed, bk: Book) {
    && Shape(bk.triedTable, TRIED_BUCKETS)
    && (forall b, p :: 0 <= b < TRIED_BUCKETS && 0 <= p < BUCKET_SIZE && bk.triedTable[b][p] != EMPTY ==>
          var id := bk.triedTable[b][p];
          && id in bk.infos && bk.infos[id].inTried
          && b == k.TriedBucket(bk.infos[id].service)
          && p == k.BucketPosition(bk.infos[id].service, false, b))
    && (forall id :: id in bk.infos && bk.infos[id].inTried ==>
          var b := k.TriedBucket(bk.infos[id].service);
          bk.triedTable[b][k.BucketPosition(bk.infos[id].service, false, b)] == id)
  }

  /** The new-table buckets that hold `id` at the position computed for service `s`. */
  ghost function Buckets(k: Keyed, t: Table, s: Service, id: int): set<nat>
    requires Shape(t, NEW_BUCKETS)
  {
    set b: nat | 0 <= b < NEW_BUCKETS && t[b][k.BucketPosition(s, true, b)] == id
  }

  ghost predicate NewSlotsOk(k: Keyed, bk: Book, limbo: set<int>) {
    && Shape(bk.newTable, NEW_BUCKETS)
    && (forall b, p :: 0 <= b < NEW_BUCKETS && 0 <= p < BUCKET_SIZE && bk.newTable[b][p] != EMPTY ==>
          var id := bk.newTable[b][p];
          && id in bk.infos && !bk.infos[id].inTried && id !in limbo
          && p == k.BucketPosition(bk.infos[id].service, true, b))
  }

  /** A new entry's reference count is 1..8 and equals its number of slots; a limbo entry has none. */
  ghost predicate RefsOk(k: Keyed, bk: Book, limbo: set<int>)
    requires Shape(bk.newTable, NEW_BUCKETS)
  {
    && (forall id :: id in limbo ==> id in bk.infos && !bk.infos[id].inTried && bk.infos[id].refCount == 0)
    && (forall id :: id in bk.infos && !bk.infos[id].inTried && id !in limbo ==>
          && 1 <= bk.infos[id].refCount <= NEW_BUCKETS_PER_ADDRESS
          && bk.infos[id].refCount == |Buckets(k, bk.newTable, bk.infos[id].service, id)|)
  }

  ghost function TriedIds(m: map<int, Info>): set<int> {
    set id | id in m && m[id].inTried
  }

  ghost function NewIds(m: map<int, Info>): set<int> {
    set id | id in m && !m[id].inTried
  }

  ghost predicate CountsOk(bk: Book, limbo: set<int>, extra: int) {
    && bk.triedCount == |TriedIds(bk.infos)|
    && bk.newCount == |NewIds(bk.infos) - limbo| + extra
  }

  ghost predicate Facets(k: Keyed, bk: Book, limbo: set<int>, extra: int)
    requires Shape(bk.newTable, NEW_BUCKETS)
  {
    && IdsOk(bk)
    && AddrsOk(bk)
    && StatsOk(bk)
    && TriedOk(k, bk)
    && NewSlotsOk(k, bk, limbo)
    && RefsOk(k, bk, limbo)
    && CountsOk(bk, limbo, extra)
  }

  ghost predicate AreFacets(k: Keyed, bk: Book, limbo: set<int>, extra: int, ok: bool)
    requires Shape(bk.newTable, NEW_BUCKETS)
  {
    forall n :: Look(n) ==> ok == Facets(k, bk, limbo, extra)
  }

  /** All facets of the invariant, unfolded only on demand. */
  ghost predicate Consistent(k: Keyed, bk: Book, limbo: set<int>, extra: int) {
    && Shape(bk.newTable, NEW_BUCKETS)
    && Shape(bk.triedTable, TRIED_BUCKETS)
    && limbo <= bk.infos.Keys
    && assert AreFacets(k, bk, limbo, extra, Facets(k, bk, limbo, extra));
    var ok :| AreFacets(k, bk, limbo, extra, ok);
    ok
  }

  /** Two entry maps that agree on what the address index, the tried table and the counters look at. */
  ghost predicate Agree(m: map<int, Info>, m': map<int, Info>) {
    && (forall id :: id in m <==> id in m')
    && forall id :: id in m ==> m[id].service == m'[id].service && m[id].inTried == m'[id].inTried
  }

  lemma AgreeFrame(k: Keyed, bk: Book, bk': Book)
    requires IdsOk(bk) && AddrsOk(bk) && Agree(bk.infos, bk'.infos)
    requires bk'.ids == bk.ids && bk'.nextId == bk.nextId
    ensures IdsOk(bk') && AddrsOk(bk')
    ensures TriedIds(bk'.infos) == TriedIds(bk.infos)
    ensures NewIds(bk'.infos) == NewIds(bk.infos)
  {
    var m, m' := bk.infos, bk'.infos;
    assert forall id :: id in m' ==> id in m;
    assert forall id :: id in m' ==> m[id].inTried == m'[id].inTried;
    assert forall id :: id in TriedIds(m') ==> id in TriedIds(m);
    assert forall id :: id in TriedIds(m) ==> id in TriedIds(m');
    assert forall id :: id in NewIds(m') ==> id in NewIds(m);
    assert forall id :: id in NewIds(m) ==> id in NewIds(m');
    forall a | a in bk.ids ensures bk.ids[a] in m' && m'[bk.ids[a]].service.ip == a {
      var id := bk.ids[a];
      assert id in m;
      assert id in m';
    }
  }

  lemma AgreeTried(k: Keyed, bk: Book, bk': Book)
    requires TriedOk(k, bk) && Agree(bk.infos, bk'.infos) && bk'.triedTable == bk.triedTable
    ensures TriedOk(k, bk')
  {
  }

  // ----- one lemma per elementary change -----

  /** The book after entry `id` loses the new slot (b, p). */
  function Unslot(bk: Book, b: nat, p: nat, id: int): Book
    requires b < |bk.newTable| && p < |bk.newTable[b]| && id in bk.infos
  {
    bk.(newTable := Put(bk.newTable, b, p, EMPTY),
        infos := bk.infos[id := bk.infos[id].(refCount := bk.infos[id].refCount - 1)])
  }

  /** The entries left in limbo when `id` loses a slot. */
  ghost function UnslotLimbo(bk: Book, limbo: set<int>, id: int): set<int>
    requires id in bk.infos
  {
    if bk.infos[id].refCount > 1 then limbo else limbo + {id}
  }

  lemma UnslotBuckets(k: Keyed, t: Table, b: nat, p: nat, s: Service, id: int)
    requires Shape(t, NEW_BUCKETS) && b < NEW_BUCKETS && p < BUCKET_SIZE && id != EMPTY
    requires t[b][p] == id ==> p == k.BucketPosition(s, true, b)
    ensures Shape(Put(t, b, p, EMPTY), NEW_BUCKETS)
    ensures Buckets(k, Put(t, b, p, EMPTY), s, id)
         == if t[b][p] == id then Buckets(k, t, s, id) - {b} else Buckets(k, t, s, id)
    ensures t[b][p] == id ==> |Buckets(k, t, s, id)| == |Buckets(k, Put(t, b, p, EMPTY), s, id)| + 1
  {
    if t[b][p] == id {
      assert b in Buckets(k, t, s, id);
      assert Buckets(k, Put(t, b, p, EMPTY), s, id) == Buckets(k, t, s, id) - {b};
    }
  }

  lemma UnslotRefs(k: Keyed, bk: Book, limbo: set<int>, b: nat, p: nat, id: int)
    requires NewSlotsOk(k, bk, limbo) && RefsOk(k, bk, limbo) && IdsOk(bk)
    requires b < NEW_BUCKETS && p < BUCKET_SIZE && bk.newTable[b][p] == id != EMPTY
    ensures id in bk.infos && bk.infos[id].refCount > 0
    ensures Shape(Unslot(bk, b, p, id).newTable, NEW_BUCKETS)
    ensures RefsOk(k, Unslot(bk, b, p, id), UnslotLimbo(bk, limbo, id))
  {
    var bk' := Unslot(bk, b, p, id);
    forall i | i in bk.infos && !bk.infos[i].inTried && i !in UnslotLimbo(bk, limbo, id)
      ensures bk'.infos[i].refCount == |Buckets(k, bk'.newTable, bk'.infos[i].service, i)|
    {
      UnslotBuckets(k, bk.newTable, b, p, bk.infos[i].service, i);
    }
  }

  lemma UnslotSlots(k: Keyed, bk: Book, limbo: set<int>, b: nat, p: nat, id: int)
    requires NewSlotsOk(k, bk, limbo) && RefsOk(k, bk, limbo) && IdsOk(bk)
    requires b < NEW_BUCKETS && p < BUCKET_SIZE && bk.newTable[b][p] == id != EMPTY
    ensures id in bk.infos && NewSlotsOk(k, Unslot(bk, b, p, id), UnslotLimbo(bk, limbo, id))
  {
    var t' := Unslot(bk, b, p, id).newTable;
    UnslotBuckets(k, bk.newTable, b, p, bk.infos[id].service, id);
    if bk.infos[id].refCount <= 1 {
      var held := Buckets(k, t', bk.infos[id].service, id);
      assert held == {};
      forall b', p' | 0 <= b' < NEW_BUCKETS && 0 <= p' < BUCKET_SIZE && t'[b'][p'] != EMPTY
        ensures t'[b'][p'] != id
      {
        assert t'[b'][p'] == id ==> b' in held;
      }
    }
  }

  lemma UnslotCounts(bk: Book, limbo: set<int>, extra: int, b: nat, p: nat, id: int)
    requires CountsOk(bk, limbo, extra) && b < |bk.newTable| && p < |bk.newTable[b]|
    requires id in bk.infos && !bk.infos[id].inTried && id !in limbo
    ensures var bk' := Unslot(bk, b, p, id);
            && TriedIds(bk'.infos) == TriedIds(bk.infos) && NewIds(bk'.infos) == NewIds(bk.infos)
            && CountsOk(bk', UnslotLimbo(bk, limbo, id), extra + if bk.infos[id].refCount > 1 then 0 else 1)
  {
    var bk' := Unslot(bk, b, p, id);
    assert TriedIds(bk'.infos) == TriedIds(bk.infos);
    assert NewIds(bk'.infos) == NewIds(bk.infos);
    assert id in NewIds(bk.infos) - limbo;
    assert NewIds(bk.infos) - (limbo + {id}) == (NewIds(bk.infos) - limbo) - {id};
  }

  /** Clearing a slot keeps the book consistent; when that was the last slot, the entry enters limbo
      while the counter still counts it. */
  lemma UnslotKeeps(k: Keyed, bk: Book, limbo: set<int>, extra: int, b: nat, p: nat, id: int)
    requires Consistent(k, bk, limbo, extra)
    requires b < NEW_BUCKETS && p < BUCKET_SIZE && bk.newTable[b][p] == id != EMPTY
    ensures id in bk.infos && bk.infos[id].refCount > 0
    ensures Consistent(k, Unslot(bk, b, p, id), UnslotLimbo(bk, limbo, id),
                       extra + if bk.infos[id].refCount > 1 then 0 else 1)
  {
    assert Look(0);
    UnslotRefs(k, bk, limbo, b, p, id);
    UnslotSlots(k, bk, limbo, b, p, id);
    UnslotCounts(bk, limbo, extra, b, p, id);
    AgreeFrame(k, bk, Unslot(bk, b, p, id));
    AgreeTried(k, bk, Unslot(bk, b, p, id));
  }

  /** The book after `id` takes the empty new slot (b, p). */
  function Slot(bk: Book, b: nat, p: nat, id: int): Book
    requires b < |bk.newTable| && p < |bk.newTable[b]| && id in bk.infos
  {
    bk.(newTable := Put(bk.newTable, b, p, id),
        infos := bk.infos[id := bk.infos[id].(refCount := bk.infos[id].refCount + 1)])
  }

  lemma SlotBuckets(k: Keyed, t: Table, b: nat, p: nat, s: Service, id: int, i: int)
    requires Shape(t, NEW_BUCKETS) && b < NEW_BUCKETS && p < BUCKET_SIZE && t[b][p] == EMPTY && i != EMPTY
    requires id == i ==> p == k.BucketPosition(s, true, b)
    ensures Shape(Put(t, b, p, id), NEW_BUCKETS)
    ensures |Buckets(k, Put(t, b, p, id), s, i)| == |Buckets(k, t, s, i)| + if id == i then 1 else 0
  {
    if id == i {
      assert b !in Buckets(k, t, s, i);
      assert Buckets(k, Put(t, b, p, id), s, i) == Buckets(k, t, s, i) + {b};
    } else {
      assert Buckets(k, Put(t, b, p, id), s, i) == Buckets(k, t, s, i);
    }
  }

  lemma LimboHasNoBuckets(k: Keyed, bk: Book, limbo: set<int>, id: int)
    requires NewSlotsOk(k, bk, limbo) && id in limbo && id in bk.infos && id != EMPTY
    ensures |Buckets(k, bk.newTable, bk.infos[id].service, id)| == 0
  {
    forall b: nat | b < NEW_BUCKETS ensures b !in Buckets(k, bk.newTable, bk.infos[id].service, id) {
      assert bk.newTable[b][k.BucketPosition(bk.infos[id].service, true, b)] != id;
    }
    assert Buckets(k, bk.newTable, bk.infos[id].service, id) == {};
  }

  lemma SlotRefs(k: Keyed, bk: Book, limbo: set<int>, b: nat, p: nat, id: int)
    requires NewSlotsOk(k, bk, limbo) && RefsOk(k, bk, limbo) && IdsOk(bk)
    requires b < NEW_BUCKETS && id in bk.infos && !bk.infos[id].inTried
    requires p == k.BucketPosition(bk.infos[id].service, true, b)
    requires bk.newTable[b][p] == EMPTY && bk.infos[id].refCount < NEW_BUCKETS_PER_ADDRESS
    ensures Shape(Slot(bk, b, p, id).newTable, NEW_BUCKETS)
    ensures RefsOk(k, Slot(bk, b, p, id), limbo - {id})
  {
    var bk' := Slot(bk, b, p, id);
    if id in limbo {
      LimboHasNoBuckets(k, bk, limbo, id);
    }
    forall i | i in bk.infos && !bk.infos[i].inTried && i !in limbo - {id}
      ensures bk'.infos[i].refCount == |Buckets(k, bk'.newTable, bk'.infos[i].service, i)|
    {
      SlotBuckets(k, bk.newTable, b, p, bk.infos[i].service, id, i);
    }
  }

  lemma SlotCounts(bk: Book, limbo: set<int>, extra: int, b: nat, p: nat, id: int)
    requires CountsOk(bk, limbo, extra) && b < |bk.newTable| && p < |bk.newTable[b]|
    requires id in bk.infos && !bk.infos[id].inTried
    ensures CountsOk(Slot(bk, b, p, id), limbo - {id}, extra - if id in limbo then 1 else 0)
  {
    var bk' := Slot(bk, b, p, id);
    assert TriedIds(bk'.infos) == TriedIds(bk.infos);
    assert NewIds(bk'.infos) == NewIds(bk.infos);
    assert NewIds(bk.infos) - (limbo - {id}) == (NewIds(bk.infos) - limbo) + {id};
    if id !in limbo {
      assert limbo - {id} == limbo;
    }
  }

  lemma SlotSlots(k: Keyed, bk: Book, limbo: set<int>, b: nat, p: nat, id: int)
    requires NewSlotsOk(k, bk, limbo)
    requires b < NEW_BUCKETS && id in bk.infos && !bk.infos[id].inTried
    requires p == k.BucketPosition(bk.infos[id].service, true, b)
    ensures NewSlotsOk(k, Slot(bk, b, p, id), limbo - {id})
  {
  }

  /** Filling an empty slot keeps the book consistent and takes the entry out of limbo. */
  lemma SlotKeeps(k: Keyed, bk: Book, limbo: set<int>, extra: int, b: nat, p: nat, id: int)
    requires Consistent(k, bk, limbo, extra)
    requires b < NEW_BUCKETS && id in bk.infos && !bk.infos[id].inTried
    requires p == k.BucketPosition(bk.infos[id].service, true, b)
    requires bk.newTable[b][p] == EMPTY && bk.infos[id].refCount < NEW_BUCKETS_PER_ADDRESS
    ensures Consistent(k, Slot(bk, b, p, id), limbo - {id}, extra - if id in limbo then 1 else 0)
  {
    assert Look(0);
    SlotRefs(k, bk, limbo, b, p, id);
    SlotSlots(k, bk, limbo, b, p, id);
    SlotCounts(bk, limbo, extra, b, p, id);
    AgreeFrame(k, bk, Slot(bk, b, p, id));
    AgreeTried(k, bk, Slot(bk, b, p, id));
  }

  /** The book without the limbo entry `id`. */
  function Drop(bk: Book, id: int): Book
    requires id in bk.infos
  {
    bk.(infos := bk.infos - {id}, ids := bk.ids - {bk.infos[id].service.ip}, newCount := bk.newCount - 1)
  }

  lemma DropTables(k: Keyed, bk: Book, id: int)
    requires AddrsOk(bk) && TriedOk(k, bk)
    requires id in bk.infos && !bk.infos[id].inTried
    ensures var bk' := Drop(bk, id); AddrsOk(bk') && TriedOk(k, bk')
  {
  }

  lemma DropCounts(bk: Book, limbo: set<int>, extra: int, id: int)
    requires CountsOk(bk, limbo, extra)
    requires id in limbo && id in bk.infos && !bk.infos[id].inTried
    ensures CountsOk(Drop(bk, id), limbo - {id}, extra - 1)
  {
    var bk' := Drop(bk, id);
    assert TriedIds(bk'.infos) == TriedIds(bk.infos);
    assert NewIds(bk'.infos) - (limbo - {id}) == NewIds(bk.infos) - limbo;
  }

  lemma DropNew(k: Keyed, bk: Book, limbo: set<int>, id: int)
    requires NewSlotsOk(k, bk, limbo) && RefsOk(k, bk, limbo) && id in limbo && id in bk.infos
    ensures NewSlotsOk(k, Drop(bk, id), limbo - {id}) && RefsOk(k, Drop(bk, id), limbo - {id})
  {
  }

  /** Deleting a limbo entry that the counter still counts. */
  lemma DropKeeps(k: Keyed, bk: Book, limbo: set<int>, extra: int, id: int)
    requires Consistent(k, bk, limbo, extra)
    requires id in limbo
    ensures Consistent(k, Drop(bk, id), limbo - {id}, extra - 1)
  {
    assert Look(0);
    DropTables(k, bk, id);
    DropCounts(bk, limbo, extra, id);
    DropNew(k, bk, limbo, id);
  }

  /** The book with a new entry for an unknown address: it starts in limbo. */
  function Enter(bk: Book, a: Address, source: NetAddr): Book {
    bk.(infos := bk.infos[bk.nextId := NewInfo(a, source)],
        ids := bk.ids[a.service.ip := bk.nextId],
        nextId := bk.nextId + 1)
  }

  lemma EnterTables(k: Keyed, bk: Book, a: Address, source: NetAddr)
    requires IdsOk(bk) && AddrsOk(bk) && TriedOk(k, bk)
    requires a.service.ip !in bk.ids
    ensures var bk' := Enter(bk, a, source); IdsOk(bk') && AddrsOk(bk') && TriedOk(k, bk')
  {
  }

  lemma EnterCounts(bk: Book, limbo: set<int>, extra: int, a: Address, source: NetAddr)
    requires IdsOk(bk) && CountsOk(bk, limbo, extra)
    ensures CountsOk(Enter(bk, a, source), limbo + {bk.nextId}, extra)
  {
    var bk' := Enter(bk, a, source);
    assert TriedIds(bk'.infos) == TriedIds(bk.infos);
    assert NewIds(bk'.infos) - (limbo + {bk.nextId}) == NewIds(bk.infos) - limbo;
  }

  lemma EnterNew(k: Keyed, bk: Book, limbo: set<int>, a: Address, source: NetAddr)
    requires IdsOk(bk) && NewSlotsOk(k, bk, limbo) && RefsOk(k, bk, limbo)
    ensures NewSlotsOk(k, Enter(bk, a, source), limbo + {bk.nextId})
    ensures RefsOk(k, Enter(bk, a, source), limbo + {bk.nextId})
  {
  }

  lemma EnterKeeps(k: Keyed, bk: Book, limbo: set<int>, extra: int, a: Address, source: NetAddr)
    requires Consistent(k, bk, limbo, extra)
    requires a.service.ip !in bk.ids
    ensures Consistent(k, Enter(bk, a, source), limbo + {bk.nextId}, extra)
  {
    assert Look(0);
    EnterTables(k, bk, a, source);
    EnterCounts(bk, limbo, extra, a, source);
    EnterNew(k, bk, limbo, a, source);
  }

  /** The book after tried entry `id` leaves its slot. */
  function Untry(bk: Book, id: int, b: nat, p: nat): Book
    requires id in bk.infos && b < |bk.triedTable| && p < |bk.triedTable[b]|
  {
    bk.(infos := bk.infos[id := bk.infos[id].(inTried := false)],
        triedTable := Put(bk.triedTable, b, p, EMPTY), triedCount := bk.triedCount - 1)
  }

  lemma UntryTables(k: Keyed, bk: Book, b: nat, p: nat, id: int)
    requires IdsOk(bk) && AddrsOk(bk) && TriedOk(k, bk)
    requires b < TRIED_BUCKETS && p < BUCKET_SIZE && bk.triedTable[b][p] == id != EMPTY
    ensures var bk' := Untry(bk, id, b, p); AddrsOk(bk') && TriedOk(k, bk')
  {
  }

  lemma UntryCounts(bk: Book, limbo: set<int>, extra: int, b: nat, p: nat, id: int)
    requires CountsOk(bk, limbo, extra) && b < |bk.triedTable| && p < |bk.triedTable[b]|
    requires id in bk.infos && bk.infos[id].inTried
    ensures CountsOk(Untry(bk, id, b, p), limbo + {id}, extra)
  {
    var bk' := Untry(bk, id, b, p);
    assert TriedIds(bk'.infos) == TriedIds(bk.infos) - {id};
    assert NewIds(bk'.infos) - (limbo + {id}) == NewIds(bk.infos) - limbo;
  }

  lemma UntryNew(k: Keyed, bk: Book, limbo: set<int>, b: nat, p: nat, id: int)
    requires NewSlotsOk(k, bk, limbo) && RefsOk(k, bk, limbo) && StatsOk(bk)
    requires id in bk.infos && bk.infos[id].inTried && b < |bk.triedTable| && p < |bk.triedTable[b]|
    ensures id !in limbo
    ensures NewSlotsOk(k, Untry(bk, id, b, p), limbo + {id}) && RefsOk(k, Untry(bk, id, b, p), limbo + {id})
  {
  }

  lemma UntryKeeps(k: Keyed, bk: Book, limbo: set<int>, extra: int, b: nat, p: nat, id: int)
    requires Consistent(k, bk, limbo, extra)
    requires b < TRIED_BUCKETS && p < BUCKET_SIZE && bk.triedTable[b][p] == id != EMPTY
    ensures id in bk.infos && bk.infos[id].inTried && id !in limbo
    ensures Consistent(k, Untry(bk, id, b, p), limbo + {id}, extra)
  {
    assert Look(0);
    UntryTables(k, bk, b, p, id);
    UntryCounts(bk, limbo, extra, b, p, id);
    UntryNew(k, bk, limbo, b, p, id);
  }

  /** The book after `id` takes the tried slot (b, p). */
  function Try(bk: Book, id: int, b: nat, p: nat): Book
    requires id in bk.infos && b < |bk.triedTable| && p < |bk.triedTable[b]|
  {
    bk.(infos := bk.infos[id := bk.infos[id].(inTried := true)],
        triedTable := Put(bk.triedTable, b, p, id), triedCount := bk.triedCount + 1)
  }

  lemma TryTables(k: Keyed, bk: Book, b: nat, p: nat, id: int)
    requires IdsOk(bk) && AddrsOk(bk) && TriedOk(k, bk)
    requires id in bk.infos && !bk.infos[id].inTried
    requires b == k.TriedBucket(bk.infos[id].service) && p == k.BucketPosition(bk.infos[id].service, false, b)
    requires bk.triedTable[b][p] == EMPTY
    ensures var bk' := Try(bk, id, b, p); AddrsOk(bk') && TriedOk(k, bk')
  {
  }

  lemma TryCounts(bk: Book, limbo: set<int>, extra: int, b: nat, p: nat, id: int)
    requires CountsOk(bk, limbo, extra) && b < |bk.triedTable| && p < |bk.triedTable[b]|
    requires id in limbo && id in bk.infos && !bk.infos[id].inTried
    ensures CountsOk(Try(bk, id, b, p), limbo - {id}, extra)
  {
    var bk' := Try(bk, id, b, p);
    assert TriedIds(bk'.infos) == TriedIds(bk.infos) + {id};
    assert NewIds(bk'.infos) - (limbo - {id}) == NewIds(bk.infos) - limbo;
  }

  lemma TryNew(k: Keyed, bk: Book, limbo: set<int>, b: nat, p: nat, id: int)
    requires NewSlotsOk(k, bk, limbo) && RefsOk(k, bk, limbo)
    requires id in limbo && b < |bk.triedTable| && p < |bk.triedTable[b]|
    ensures NewSlotsOk(k, Try(bk, id, b, p), limbo - {id}) && RefsOk(k, Try(bk, id, b, p), limbo - {id})
  {
  }

  lemma TryKeeps(k: Keyed, bk: Book, limbo: set<int>, extra: int, b: nat, p: nat, id: int)
    requires Consistent(k, bk, limbo, extra)
    requires id in limbo && bk.infos[id].lastSuccess != 0
    requires b == k.TriedBucket(bk.infos[id].service) && p == k.BucketPosition(bk.infos[id].service, false, b)
    requires bk.triedTable[b][p] == EMPTY
    ensures Consistent(k, Try(bk, id, b, p), limbo - {id}, extra)
  {
    assert Look(0);
    TryTables(k, bk, b, p, id);
    TryCounts(bk, limbo, extra, b, p, id);
    TryNew(k, bk, limbo, b, p, id);
  }

  /** Bookkeeping that touches neither the tables nor what is hashed. */
  ghost predicate SamePlace(x: Info, y: Info) {
    x.service == y.service && x.source == y.source && x.refCount == y.refCount && x.inTried == y.inTried
  }

  lemma TouchNew(k: Keyed, bk: Book, limbo: set<int>, id: int, y: Info)
    requires NewSlotsOk(k, bk, limbo) && RefsOk(k, bk, limbo)
    requires id in bk.infos && SamePlace(bk.infos[id], y)
    ensures var bk' := bk.(infos := bk.infos[id := y]);
            NewSlotsOk(k, bk', limbo) && RefsOk(k, bk', limbo)
  {
  }

  lemma TouchKeeps(k: Keyed, bk: Book, limbo: set<int>, extra: int, id: int, y: Info)
    requires Consistent(k, bk, limbo, extra)
    requires id in bk.infos && SamePlace(bk.infos[id], y)
    requires y.lastTry >= 0 && y.lastSuccess >= 0 && (y.inTried ==> y.lastSuccess != 0)
    ensures Consistent(k, bk.(infos := bk.infos[id := y]), limbo, extra)
  {
    assert Look(0);
    var bk' := bk.(infos := bk.infos[id := y]);
    TouchNew(k, bk, limbo, id, y);
    AgreeFrame(k, bk, bk');
    AgreeTried(k, bk, bk');
  }

  /** Shifting the counter of new entries shifts `extra`. */
  lemma RecountKeeps(k: Keyed, bk: Book, limbo: set<int>, extra: int, d: int)
    requires Consistent(k, bk, limbo, extra)
    ensures Consistent(k, bk.(newCount := bk.newCount + d), limbo, extra + d)
  {
    assert Look(0);
    var bk' := bk.(newCount := bk.newCount + d);
    AgreeFrame(k, bk, bk');
    AgreeTried(k, bk, bk');
    assert NewSlotsOk(k, bk', limbo) && RefsOk(k, bk', limbo);
  }

  // ----- facts read off the invariant -----

  lemma LimboFacts(k: Keyed, bk: Book, limbo: set<int>, extra: int, id: int)
    requires Consistent(k, bk, limbo, extra) && id in limbo
    ensures id in bk.infos && !bk.infos[id].inTried && bk.infos[id].refCount == 0 && id != EMPTY
  {
    assert Look(0);
  }

  lemma SlotFacts(k: Keyed, bk: Book, limbo: set<int>, extra: int, b: nat, p: nat)
    requires Consistent(k, bk, limbo, extra) && b < NEW_BUCKETS && p < BUCKET_SIZE && bk.newTable[b][p] != EMPTY
    ensures var id := bk.newTable[b][p];
            id in bk.infos && !bk.infos[id].inTried && id !in limbo && bk.infos[id].refCount >= 1
  {
    assert Look(0);
  }

  lemma EntryFacts(k: Keyed, bk: Book, limbo: set<int>, extra: int, id: int)
    requires Consistent(k, bk, limbo, extra) && id in bk.infos
    ensures 0 <= id < bk.nextId
    ensures bk.infos[id].lastTry >= 0 && bk.infos[id].lastSuccess >= 0
    ensures bk.infos[id].inTried ==> bk.infos[id].lastSuccess != 0
    ensures 0 <= bk.infos[id].refCount <= NEW_BUCKETS_PER_ADDRESS
    ensures id !in limbo && !bk.infos[id].inTried ==> 1 <= bk.infos[id].refCount
  {
    assert Look(0);
  }

  lemma AddrFacts(k: Keyed, bk: Book, limbo: set<int>, extra: int, a: NetAddr)
    requires Consistent(k, bk, limbo, extra) && a in bk.ids
    ensures bk.ids[a] in bk.infos && bk.infos[bk.ids[a]].service.ip == a
  {
    assert Look(0);
  }

  /** An entry of the new table is found by scanning its computed positions. */
  lemma NewEntryHasSlot(k: Keyed, bk: Book, limbo: set<int>, extra: int, id: int) returns (b: nat)
    requires Consistent(k, bk, limbo, extra) && id in bk.infos && !bk.infos[id].inTried && id !in limbo
    ensures b < NEW_BUCKETS && bk.newTable[b][k.BucketPosition(bk.infos[id].service, true, b)] == id
  {
    assert Look(0);
    var held := Buckets(k, bk.newTable, bk.infos[id].service, id);
    assert |held| > 0;
    b :| b in held;
  }

  /** The address index finds exactly the entry with that service, if there is one. */
  lemma FindIsExact(k: Keyed, bk: Book, s: Service)
    requires Consistent(k, bk, {}, 0)
    ensures s.ip in bk.ids ==> bk.ids[s.ip] in bk.infos && bk.ids[s.ip] != EMPTY
    ensures forall i :: i in bk.infos && bk.infos[i].service == s ==> s.ip in bk.ids && bk.ids[s.ip] == i
  {
    assert Look(0);
  }
}
