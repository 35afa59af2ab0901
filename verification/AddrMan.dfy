/** The address manager's operations (src/addrman.cpp): an object whose methods update the entry map,
    the address index, the random order, the two bucket tables and the counters in place.

    Every public operation keeps `Valid()`, so none of the assertions of the source can fail. */
module AddrMan {
  import NatMath
  import opened Hiding
  import opened AddrBook

  /** Entry maps that are equal up to the back-pointers into the random order. */
  ghost predicate EqualButPos(m: map<int, Info>, m': map<int, Info>)
    requires m.Keys == m'.Keys
  {
    forall id :: id in m.Keys ==> m[id].(randomPos := 0) == m'[id].(randomPos := 0)
  }

  ghost predicate AreEqualButPos(m: map<int, Info>, m': map<int, Info>, ok: bool)
    requires m.Keys == m'.Keys
  {
    forall n :: Look(n) ==> ok == EqualButPos(m, m')
  }

  /** `EqualButPos`, unfolded only on demand. */
  ghost predicate SameButPos(m: map<int, Info>, m': map<int, Info>) {
    && m.Keys == m'.Keys
    && assert AreEqualButPos(m, m', EqualButPos(m, m'));
    var ok :| AreEqualButPos(m, m', ok);
    ok
  }

  /** `order` lists every id once, and every entry knows its own index. */
  ghost predicate Indexed(infos: map<int, Info>, order: seq<int>) {
    && (forall i :: 0 <= i < |order| ==> order[i] in infos && infos[order[i]].randomPos == i)
    && (forall id :: id in infos ==> 0 <= infos[id].randomPos < |order| && order[infos[id].randomPos] == id)
  }

  ghost predicate AreIndexed(infos: map<int, Info>, order: seq<int>, ok: bool) {
    forall n :: Look(n) ==> ok == Indexed(infos, order)
  }

  /** `Indexed`, unfolded only on demand. */
  ghost predicate OrderOk(infos: map<int, Info>, order: seq<int>) {
    && |order| == |infos|
    && assert AreIndexed(infos, order, Indexed(infos, order));
    var ok :| AreIndexed(infos, order, ok);
    ok
  }

  lemma SameButPosNew(k: Keyed, bk: Book, m: map<int, Info>, limbo: set<int>)
    requires NewSlotsOk(k, bk, limbo) && RefsOk(k, bk, limbo) && StatsOk(bk) && SameButPos(m, bk.infos)
    ensures var bk' := bk.(infos := m); NewSlotsOk(k, bk', limbo) && RefsOk(k, bk', limbo) && StatsOk(bk')
  {
    assert Look(0);
    forall id | id in m ensures id in bk.infos && SamePlace(m[id], bk.infos[id])
      && m[id].lastTry == bk.infos[id].lastTry && m[id].lastSuccess == bk.infos[id].lastSuccess
    {
      assert m[id].(randomPos := 0) == bk.infos[id].(randomPos := 0);
    }
  }

  lemma SameButPosAgree(m: map<int, Info>, m': map<int, Info>)
    requires SameButPos(m, m')
    ensures Agree(m, m')
  {
    assert Look(0);
    forall id | id in m ensures m[id].service == m'[id].service && m[id].inTried == m'[id].inTried {
      assert m[id].(randomPos := 0) == m'[id].(randomPos := 0);
    }
  }

  lemma SameButPosKeeps(k: Keyed, bk: Book, m: map<int, Info>, limbo: set<int>, extra: int)
    requires Consistent(k, bk, limbo, extra) && SameButPos(m, bk.infos)
    ensures Consistent(k, bk.(infos := m), limbo, extra)
  {
    assert Look(0);
    SameButPosNew(k, bk, m, limbo);
    SameButPosAgree(m, bk.infos);
    AgreeFrame(k, bk, bk.(infos := m));
    AgreeTried(k, bk, bk.(infos := m));
  }

  lemma SwapOrder(infos: map<int, Info>, order: seq<int>, i: nat, j: nat)
    requires OrderOk(infos, order) && i < |order| && j < |order| && i != j
    ensures order[i] in infos && order[j] in infos
    ensures var m := infos[order[i] := infos[order[i]].(randomPos := j)];
            order[j] in m
            && var m' := m[order[j] := m[order[j]].(randomPos := i)];
            OrderOk(m', order[i := order[j]][j := order[i]]) && SameButPos(m', infos)
  {
    assert Look(0);
    var m := infos[order[i] := infos[order[i]].(randomPos := j)];
    var m' := m[order[j] := m[order[j]].(randomPos := i)];
    assert order[i] != order[j];
    assert m.Keys == infos.Keys && m'.Keys == infos.Keys;
  }

  lemma PopOrder(infos: map<int, Info>, order: seq<int>, id: int)
    requires OrderOk(infos, order) && id in infos && infos[id].randomPos == |order| - 1
    ensures OrderOk(infos - {id}, order[..|order| - 1])
  {
    assert Look(0);
    assert (infos - {id}).Keys == infos.Keys - {id};
    assert |(infos - {id}).Keys| == |infos.Keys| - 1;
  }

  /** Removing a limbo entry whose id was moved to the end of the order. */
  lemma DeleteKeeps(k: Keyed, bk: Book, m: map<int, Info>, order: seq<int>, limbo: set<int>, extra: int, id: int)
    requires Consistent(k, bk, limbo, extra) && id in limbo && SameButPos(m, bk.infos)
    requires OrderOk(m, order) && |order| > 0 && order[|order| - 1] == id
    ensures id in m && id in bk.infos && m[id].service == bk.infos[id].service
    ensures Consistent(k, Drop(bk.(infos := m), id), limbo - {id}, extra - 1)
    ensures OrderOk(m - {id}, order[..|order| - 1])
    ensures SameButPos(m - {id}, bk.infos - {id})
  {
    assert Look(0);
    SameButPosKeeps(k, bk, m, limbo, extra);
    DropKeeps(k, bk.(infos := m), limbo, extra, id);
    PopOrder(m, order, id);
    SameButPosAgree(m, bk.infos);
  }

  lemma TouchOrder(infos: map<int, Info>, order: seq<int>, id: int, y: Info)
    requires OrderOk(infos, order) && id in infos && y.randomPos == infos[id].randomPos
    ensures OrderOk(infos[id := y], order)
  {
    assert Look(0);
    assert infos[id := y].Keys == infos.Keys;
  }

  /** What happens to the entries when a new-table slot that holds `id` is cleared. */
  ghost function Cleared(m: map<int, Info>, id: int): map<int, Info> {
    if id == EMPTY || id !in m then m
    else if m[id].refCount > 1 then m[id := m[id].(refCount := m[id].refCount - 1)]
    else m - {id}
  }

  /** `t` with every slot of the first `n` buckets that holds `id` emptied. */
  ghost predicate Emptied(t: Table, t': Table, id: int, n: nat)
    requires Shape(t, NEW_BUCKETS) && Shape(t', NEW_BUCKETS)
  {
    forall b, p :: 0 <= b < NEW_BUCKETS && 0 <= p < BUCKET_SIZE ==>
      t'[b][p] == if b < n && t[b][p] == id then EMPTY else t[b][p]
  }

  /** `t` without `id`. */
  function Without(t: Table, id: int): (t': Table)
    ensures |t'| == |t|
    ensures forall b :: 0 <= b < |t| ==> |t'[b]| == |t[b]|
  {
    seq(|t|, b requires 0 <= b < |t| =>
      seq(|t[b]|, p requires 0 <= p < |t[b]| => if t[b][p] == id then EMPTY else t[b][p]))
  }

  lemma EmptiedAll(t: Table, t': Table, id: int)
    requires Shape(t, NEW_BUCKETS) && Shape(t', NEW_BUCKETS) && Emptied(t, t', id, NEW_BUCKETS)
    ensures t' == Without(t, id)
  {
    forall b | 0 <= b < NEW_BUCKETS ensures t'[b] == Without(t, id)[b] {
    }
  }

  /** One bucket more of the sweep: only the computed position can hold `id`. */
  lemma EmptiedStep(k: Keyed, bk: Book, t: Table, id: int, n: nat, limbo: set<int>, extra: int)
    requires Consistent(k, bk, limbo, extra) && Shape(t, NEW_BUCKETS) && n < NEW_BUCKETS
    requires id in bk.infos && id != EMPTY && Emptied(t, bk.newTable, id, n)
    ensures var p := k.BucketPosition(bk.infos[id].service, true, n);
            && (bk.newTable[n][p] == id ==>
                  Shape(Put(bk.newTable, n, p, EMPTY), NEW_BUCKETS)
                  && Emptied(t, Put(bk.newTable, n, p, EMPTY), id, n + 1))
            && (bk.newTable[n][p] != id ==> Emptied(t, bk.newTable, id, n + 1))
  {
    assert Look(0);
  }

  /** Re-entering an evicted entry commutes with clearing the slot of another entry. */
  lemma ClearedThenSlotted(m: map<int, Info>, m': map<int, Info>, o: int, e: int, y: Info)
    requires SameButPos(m', Cleared(m, o)) && e in m && e in m' && o != e
    requires y.(randomPos := 0) == m[e].(refCount := 1, randomPos := 0)
    ensures SameButPos(m'[e := y], Cleared(m[e := m[e].(refCount := 1)], o))
  {
    assert Look(0);
  }

  /** The last step of an eviction: the limbo entry `id` takes its free new slot and is counted. */
  lemma ReEnter(k: Keyed, bk: Book, bk': Book, order: seq<int>, keep: set<int>, b: nat, p: nat, id: int,
                m: map<int, Info>, o: int)
    requires Consistent(k, bk, keep + {id}, 0) && OrderOk(bk.infos, order) && b < NEW_BUCKETS
    requires id in m && id !in keep && o != id && SameButPos(bk.infos, Cleared(m, o))
    requires p == k.BucketPosition(m[id].service, true, b) && bk.newTable[b][p] == EMPTY
    requires bk' == bk.(infos := bk.infos[id := bk.infos[id].(refCount := 1)],
                        newTable := Put(bk.newTable, b, p, id), newCount := bk.newCount + 1)
    ensures Consistent(k, bk', keep, 0)
    ensures OrderOk(bk'.infos, order)
    ensures SameButPos(bk'.infos, Cleared(m[id := m[id].(refCount := 1)], o))
  {
    ReEnterBook(k, bk, bk', keep, b, p, id, m, o);
    SameButPosAt(bk.infos, Cleared(m, o), id);
    TouchOrder(bk.infos, order, id, bk.infos[id].(refCount := 1));
    ClearedThenSlotted(m, bk.infos, o, id, bk.infos[id].(refCount := 1));
  }

  lemma ReEnterBook(k: Keyed, bk: Book, bk': Book, keep: set<int>, b: nat, p: nat, id: int, m: map<int, Info>, o: int)
    requires Consistent(k, bk, keep + {id}, 0) && b < NEW_BUCKETS
    requires id in m && id !in keep && o != id && SameButPos(bk.infos, Cleared(m, o))
    requires p == k.BucketPosition(m[id].service, true, b) && bk.newTable[b][p] == EMPTY
    requires bk' == bk.(infos := bk.infos[id := bk.infos[id].(refCount := 1)],
                        newTable := Put(bk.newTable, b, p, id), newCount := bk.newCount + 1)
    ensures Consistent(k, bk', keep, 0)
  {
    var limbo := keep + {id};
    assert limbo - {id} == keep;
    SameButPosAt(bk.infos, Cleared(m, o), id);
    LimboFacts(k, bk, limbo, 0, id);
    SlotKeeps(k, bk, limbo, 0, b, p, id);
    var bk1 := Slot(bk, b, p, id);
    assert bk1.infos[id] == bk.infos[id].(refCount := 1);
    RecountKeeps(k, bk1, keep, -1, 1);
  }

  lemma RecountDone(k: Keyed, bk: Book, bk': Book, limbo: set<int>, extra: int, d: int)
    requires Consistent(k, bk, limbo, extra) && bk' == bk.(newCount := bk.newCount + d)
    ensures Consistent(k, bk', limbo, extra + d)
  {
    RecountKeeps(k, bk, limbo, extra, d);
  }

  lemma TryDone(k: Keyed, bk: Book, bk': Book, order: seq<int>, b: nat, p: nat, id: int)
    requires Consistent(k, bk, {id}, 0) && OrderOk(bk.infos, order) && bk.infos[id].lastSuccess != 0
    requires b == k.TriedBucket(bk.infos[id].service) && p == k.BucketPosition(bk.infos[id].service, false, b)
    requires bk.triedTable[b][p] == EMPTY && bk' == Try(bk, id, b, p)
    ensures Consistent(k, bk', {}, 0) && OrderOk(bk'.infos, order)
  {
    TryKeeps(k, bk, {id}, 0, b, p, id);
    assert {id} - {id} == {};
    TouchOrder(bk.infos, order, id, bk.infos[id].(inTried := true));
  }

  /** An entry that was moved to the tried table. */
  ghost function Promoted(m: map<int, Info>, id: int): map<int, Info>
    requires id in m
  {
    m[id := m[id].(refCount := 0, inTried := true)]
  }

  /** An entry that went back from the tried table to one new bucket. */
  ghost function Demoted(m: map<int, Info>, e: int): map<int, Info>
    requires e in m
  {
    m[e := m[e].(inTried := false, refCount := 1)]
  }

  /** The entries while `id` is in limbo and the eviction, if any, is over. */
  ghost predicate Settled(m: map<int, Info>, m': map<int, Info>, id: int, e: int, o: int) {
    && id in m && o != id
    && var m1 := m[id := m[id].(refCount := 0)];
    if e == EMPTY then o == EMPTY && SameButPos(m', m1)
    else e != id && e in m && SameButPos(m', Cleared(m1[e := m1[e].(inTried := false, refCount := 1)], o))
  }

  lemma SettledFacts(m: map<int, Info>, m': map<int, Info>, id: int, e: int, o: int)
    requires Settled(m, m', id, e, o)
    ensures id in m' && m'[id].(randomPos := 0) == m[id].(refCount := 0, randomPos := 0)
  {
    assert Look(0);
    assert id in m'.Keys;
  }

  lemma PromoteCommutes(m: map<int, Info>, m': map<int, Info>, id: int, e: int, o: int)
    requires Settled(m, m', id, e, o) && id in m' && !m[id].inTried
    ensures var m2 := m'[id := m'[id].(inTried := true)];
            if e == EMPTY then SameButPos(m2, Promoted(m, id))
            else e in Promoted(m, id) && SameButPos(m2, Cleared(Demoted(Promoted(m, id), e), o))
  {
    SettledFacts(m, m', id, e, o);
    var m1 := m[id := m[id].(refCount := 0)];
    var y := m1[id].(inTried := true);
    if e == EMPTY {
      SameButPosPut(m', m1, id, m'[id].(inTried := true), y);
      assert m1[id := y] == Promoted(m, id);
    } else {
      var c := Cleared(m1[e := m1[e].(inTried := false, refCount := 1)], o);
      SameButPosPut(m', c, id, m'[id].(inTried := true), y);
      assert c[id := y] == Cleared(Demoted(Promoted(m, id), e), o);
    }
  }

  lemma SameButPosPut(m: map<int, Info>, m': map<int, Info>, id: int, x: Info, y: Info)
    requires SameButPos(m, m') && x.(randomPos := 0) == y.(randomPos := 0)
    ensures SameButPos(m[id := x], m'[id := y])
  {
    assert Look(0);
  }

  lemma TouchDone(k: Keyed, bk: Book, bk': Book, order: seq<int>, id: int, y: Info)
    requires Consistent(k, bk, {}, 0) && OrderOk(bk.infos, order) && id in bk.infos
    requires SamePlace(bk.infos[id], y) && y.randomPos == bk.infos[id].randomPos
    requires y.lastTry >= 0 && y.lastSuccess >= 0 && (y.inTried ==> y.lastSuccess != 0)
    requires bk' == bk.(infos := bk.infos[id := y])
    ensures Consistent(k, bk', {}, 0) && OrderOk(bk'.infos, order)
  {
    TouchKeeps(k, bk, {}, 0, id, y);
    TouchOrder(bk.infos, order, id, y);
  }

  /** A time clamped at zero and stored in 32 bits. */
  function ClampTime(t: int): (r: nat)
    ensures r < 0x1_0000_0000 && (0 <= t < 0x1_0000_0000 ==> r == t) && (t < 0 ==> r == 0)
  {
    (if t < 0 then 0 else t) % 0x1_0000_0000
  }

  /** The time of a known address after a new announcement of it. */
  function RefreshedTime(known: nat, announced: nat, timePenalty: int, now: int): nat {
    var interval := if now - announced < 24 * 60 * 60 then 60 * 60 else 24 * 60 * 60;
    if announced != 0 && (known == 0 || known < announced - interval - timePenalty)
    then ClampTime(announced - timePenalty) else known
  }

  /** When that time changes: not without a time; if there was none; and otherwise if it is behind by more than the
      penalty and an hour, or a day for an address that was not seen within a day.  It never goes back. */
  lemma RefreshRule(known: nat, announced: nat, timePenalty: nat, now: int)
    requires announced < 0x1_0000_0000
    ensures var r := RefreshedTime(known, announced, timePenalty, now);
            var taken := if announced < timePenalty then 0 else announced - timePenalty;
            var slack := timePenalty + if announced > now - 86400 then 3600 else 86400;
            && (announced == 0 ==> r == known)
            && (announced != 0 && known == 0 ==> r == taken)
            && (announced != 0 && known != 0 ==> r == if announced - known > slack then taken else known)
            && r >= known
  {
  }

  /** The entry of a known address after a new announcement of it. */
  function Refreshed(y: Info, a: Address, timePenalty: int, now: int): (r: Info)
    ensures SamePlace(y, r) && r.(time := y.time, services := y.services) == y
    ensures r.services == y.services | a.services
  {
    y.(time := RefreshedTime(y.time, a.time, timePenalty, now), services := y.services | a.services)
  }

  /** Whether an announcement is newer than what the entry knows. */
  predicate NewsFor(y: Info, a: Address) {
    !(a.time == 0 || (y.time != 0 && a.time <= y.time))
  }

  /** Whether a known entry should be tried in one more new bucket. */
  ghost predicate WantsMore(y: Info, a: Address, rnd: nat) {
    NewsFor(y, a) && !y.inTried && 0 <= y.refCount < NEW_BUCKETS_PER_ADDRESS && rnd % NatMath.Pow(2, y.refCount) == 0
  }

  /** No further bucket without news, for a tried entry or with eight references; and otherwise for one of 2^refCount
      random draws. */
  lemma MoreRule(y: Info, a: Address, rnd: nat)
    requires 0 <= y.refCount <= 8
    ensures a.time == 0 || (y.time != 0 && a.time <= y.time) || y.inTried || y.refCount == 8 ==> !WantsMore(y, a, rnd)
    ensures a.time != 0 && (y.time == 0 || a.time > y.time) && !y.inTried && y.refCount < 8 ==>
              (WantsMore(y, a, rnd) <==> rnd % NatMath.Pow(2, y.refCount) == 0)
  {
  }

  /** With `refCount` references, each further one is 2^refCount times harder to get. */
  method StochasticTest(refCount: nat, rnd: nat) returns (pass: bool)
    ensures pass <==> rnd % NatMath.Pow(2, refCount) == 0
  {
    var factor := 1;
    for n := 0 to refCount
      invariant factor == NatMath.Pow(2, n)
    {
      factor := factor * 2;
    }
    NatMath.PowPos(2, refCount);
    pass := !(factor > 1 && rnd % factor != 0);
  }

  /** Whether the occupant `o` of a new slot may be overwritten by `id`. */
  predicate Replaceable(m: map<int, Info>, o: int, id: int, now: int) {
    || o == EMPTY
    || (o in m && id in m && (IsTerrible(m[o], now) || (m[o].refCount > 1 && m[id].refCount == 0)))
  }

  /** A free slot is taken; so is that of a terrible entry; and an entry without a reference takes the slot of one that
      has others.  No other slot is. */
  lemma ReplaceRule(m: map<int, Info>, o: int, id: int, now: int)
    requires id in m && (o != EMPTY ==> o in m)
    ensures o == EMPTY ==> Replaceable(m, o, id, now)
    ensures o != EMPTY && IsTerrible(m[o], now) ==> Replaceable(m, o, id, now)
    ensures o != EMPTY && !IsTerrible(m[o], now) ==>
              (Replaceable(m, o, id, now) <==> m[o].refCount >= 2 && m[id].refCount == 0)
  {
  }

  /** No slot is taken from an entry that has no other slot and was tried within the last minute, or that was seen
      within 30 days and has not failed too often. */
  ghost predicate KeepsDecent(m: map<int, Info>, t: Table, t': Table, now: int) {
    && |t'| == |t|
    && forall b, p :: 0 <= b < |t| && 0 <= p < |t[b]| && t[b][p] in m && m[t[b][p]].refCount == 1 ==>
         && |t'[b]| == |t[b]|
         && var y := m[t[b][p]];
         (|| (y.lastTry != 0 && now - 60 <= y.lastTry)
          || (y.time != 0 && now - 30 * 24 * 60 * 60 <= y.time <= now + 10 * 60
              && (y.lastSuccess == 0 ==> y.attempts < 3)
              && (y.lastSuccess < now - 7 * 24 * 60 * 60 ==> y.attempts < 10)))
         ==> t'[b][p] == t[b][p]
  }

  lemma NoEmptyId(k: Keyed, bk: Book)
    requires Consistent(k, bk, {}, 0)
    ensures EMPTY !in bk.infos
  {
    if EMPTY in bk.infos {
      EntryFacts(k, bk, {}, 0, EMPTY);
    }
  }

  lemma PutKeepsDecent(m: map<int, Info>, m': map<int, Info>, t: Table, b: nat, p: nat, id: int, now: int)
    requires b < |t| && p < |t[b]| && Replaceable(m', t[b][p], id, now) && t[b][p] != id
    requires t[b][p] in m' ==> t[b][p] in m && m'[t[b][p]] == m[t[b][p]]
    requires EMPTY !in m
    ensures KeepsDecent(m, t, Put(t, b, p, id), now)
  {
  }

  /** An entry with one more reference. */
  ghost function Referenced(m: map<int, Info>, id: int): map<int, Info>
    requires id in m
  {
    m[id := m[id].(refCount := m[id].refCount + 1)]
  }

  lemma SlotOrLimbo(k: Keyed, bk: Book, limbo: set<int>, extra: int, b: nat, p: nat, id: int)
    requires Consistent(k, bk, limbo, extra) && b < NEW_BUCKETS && p < BUCKET_SIZE
    requires id in bk.infos && !bk.infos[id].inTried
    requires (limbo == {id} && extra == 1) || (limbo == {} && extra == 0)
    ensures id != EMPTY && (bk.infos[id].refCount == 0 <==> limbo == {id})
    ensures bk.newTable[b][p] != EMPTY ==> bk.newTable[b][p] in bk.infos
    ensures bk.newTable[b][p] == id ==> limbo == {} && extra == 0
  {
    EntryFacts(k, bk, limbo, extra, id);
    if id in limbo { LimboFacts(k, bk, limbo, extra, id); }
    if bk.newTable[b][p] != EMPTY { SlotFacts(k, bk, limbo, extra, b, p); }
  }

  lemma ClearedOther(m: map<int, Info>, m': map<int, Info>, o: int, id: int)
    requires SameButPos(m', Cleared(m, o)) && id in m && id != o
    ensures id in m' && m'[id].(randomPos := 0) == m[id].(randomPos := 0)
  {
    assert id in m'.Keys;
    SameButPosAt(m', Cleared(m, o), id);
  }

  lemma ReferencedCommutes(m: map<int, Info>, m': map<int, Info>, o: int, id: int)
    requires SameButPos(m', Cleared(m, o)) && id in m && id in m' && id != o
    ensures SameButPos(Referenced(m', id), Cleared(Referenced(m, id), o))
  {
    assert Look(0);
  }

  lemma PlaceDone(k: Keyed, bk: Book, bk': Book, order: seq<int>, limbo: set<int>, extra: int, b: nat, p: nat,
                  id: int, m: map<int, Info>, o: int)
    requires Consistent(k, bk, limbo, extra) && OrderOk(bk.infos, order) && b < NEW_BUCKETS && p < BUCKET_SIZE
    requires (limbo == {id} && extra == 1) || (limbo == {} && extra == 0)
    requires id in m && id != o && SameButPos(bk.infos, Cleared(m, o))
    requires !m[id].inTried && m[id].refCount < NEW_BUCKETS_PER_ADDRESS
    requires p == k.BucketPosition(m[id].service, true, b) && bk.newTable[b][p] == EMPTY
    requires id in bk.infos && bk' == Slot(bk, b, p, id)
    ensures Consistent(k, bk', {}, 0) && OrderOk(bk'.infos, order)
    ensures SameButPos(bk'.infos, Cleared(Referenced(m, id), o))
  {
    ClearedOther(m, bk.infos, o, id);
    SlotKeeps(k, bk, limbo, extra, b, p, id);
    assert limbo - {id} == {};
    TouchOrder(bk.infos, order, id, bk.infos[id].(refCount := bk.infos[id].refCount + 1));
    ReferencedCommutes(m, bk.infos, o, id);
  }

  /** The entry of an address that was announced for the first time. */
  function Announced(a: Address, source: NetAddr, timePenalty: int, pos: nat): (y: Info)
    ensures y.service == a.service && y.source == source && y.refCount == 0 && !y.inTried
  {
    NewInfo(a, source).(time := ClampTime(a.time - timePenalty), randomPos := pos)
  }

  /** An entry that was just added: in one bucket, as announced, and never tried. */
  ghost predicate IsNewcomer(y: Info, a: Address, source: NetAddr, timePenalty: int) {
    && y.service == a.service && y.services == a.services && y.source == source
    && (0 <= a.time - timePenalty < 0x1_0000_0000 ==> y.time == a.time - timePenalty)
    && (a.time < timePenalty ==> y.time == 0)
    && y.lastTry == y.lastCountAttempt == y.lastSuccess == y.attempts == 0
    && y.refCount == 1 && !y.inTried
  }

  lemma AnnouncedIsNewcomer(m: map<int, Info>, m': map<int, Info>, id: int, o: int, a: Address, source: NetAddr,
                            timePenalty: int, pos: nat)
    requires id !in m && o != id
    requires var m1 := m[id := Announced(a, source, timePenalty, pos)];
      SameButPos(m', Cleared(Referenced(m1, id), o)) || SameButPos(m', m)
    ensures id in m' ==> IsNewcomer(m'[id], a, source, timePenalty)
  {
    var m1 := m[id := Announced(a, source, timePenalty, pos)];
    if id in m' {
      if SameButPos(m', m) {
        SameButPosAt(m', m, id);
      } else {
        SameButPosAt(m', Cleared(Referenced(m1, id), o), id);
      }
    }
  }

  lemma IntroduceDone(k: Keyed, bk: Book, bk': Book, order: seq<int>, id: int, y: Info)
    requires Consistent(k, bk, {id}, 0) && OrderOk(bk.infos, order)
    requires SamePlace(bk.infos[id], y) && y.randomPos == bk.infos[id].randomPos
    requires y.lastTry >= 0 && y.lastSuccess >= 0 && !y.inTried
    requires bk' == bk.(infos := bk.infos[id := y], newCount := bk.newCount + 1)
    ensures Consistent(k, bk', {id}, 1) && OrderOk(bk'.infos, order)
  {
    TouchKeeps(k, bk, {id}, 0, id, y);
    RecountKeeps(k, bk.(infos := bk.infos[id := y]), {id}, 0, 1);
    TouchOrder(bk.infos, order, id, y);
  }

  const GETADDR_MAX_PCT: nat := 23
  const GETADDR_MAX: nat := 2500

  /** At most 23 percent, and at most 2500. */
  function ListLimit(size: nat): (n: nat)
    ensures n <= 2500 && 100 * n <= 23 * size && (n < 2500 ==> 23 * size < 100 * (n + 1))
  {
    var n := GETADDR_MAX_PCT * size / 100;
    if n > GETADDR_MAX then GETADDR_MAX else n
  }

  function AddressOf(y: Info): Address {
    Address(y.service, y.services, y.time)
  }

  ghost predicate Distinct<T>(s: seq<T>) {
    forall i, j :: 0 <= i < j < |s| ==> s[i] != s[j]
  }

  /** `out` lists, in order, the entries of `seen` that are not terrible. */
  ghost predicate Listed(m: map<int, Info>, seen: seq<int>, picked: seq<int>, out: seq<Address>, now: int) {
    && |picked| == |out|
    && Distinct(seen) && Distinct(picked)
    && (forall i :: 0 <= i < |picked| ==> picked[i] in seen && picked[i] in m && !IsTerrible(m[picked[i]], now)
                                          && out[i] == AddressOf(m[picked[i]]))
    && (forall i :: 0 <= i < |seen| ==> seen[i] in m && (IsTerrible(m[seen[i]], now) || seen[i] in picked))
  }

  lemma ListedStep(m: map<int, Info>, seen: seq<int>, id: int, picked: seq<int>, out: seq<Address>, now: int)
    requires Listed(m, seen, picked, out, now) && id in m && id !in seen
    ensures if IsTerrible(m[id], now) then Listed(m, seen + [id], picked, out, now)
            else Listed(m, seen + [id], picked + [id], out + [AddressOf(m[id])], now)
  {
    var seen', picked' := seen + [id], picked + [id];
    assert forall x :: x in seen ==> x in seen';
    assert forall x :: x in picked ==> x in picked';
    assert seen'[|seen|] == id && picked'[|picked|] == id;
  }

  lemma OrderedAt(infos: map<int, Info>, order: seq<int>, n: nat)
    requires OrderOk(infos, order) && n < |order|
    ensures order[n] in infos && order[n] !in order[..n]
  {
    assert Look(0);
  }

  lemma SameButPosTrans(m: map<int, Info>, m1: map<int, Info>, m2: map<int, Info>)
    requires SameButPos(m, m1) && SameButPos(m1, m2)
    ensures SameButPos(m, m2)
  {
    assert Look(0);
  }

  lemma CreateDone(k: Keyed, bk: Book, bk': Book, order: seq<int>, a: Address, source: NetAddr)
    requires Consistent(k, bk, {}, 0) && OrderOk(bk.infos, order) && a.service.ip !in bk.ids
    requires bk' == Enter(bk, a, source).(infos := bk.infos[bk.nextId := NewInfo(a, source).(randomPos := |order|)])
    ensures bk.nextId !in bk.infos
    ensures Consistent(k, bk', {bk.nextId}, 0) && OrderOk(bk'.infos, order + [bk.nextId])
  {
    var id := bk.nextId;
    if id in bk.infos { EntryFacts(k, bk, {}, 0, id); }
    EnterKeeps(k, bk, {}, 0, a, source);
    assert {} + {id} == {id};
    CreateOrder(bk.infos, order, id, NewInfo(a, source).(randomPos := |order|));
    SameButPosUpdate(bk.infos, id, NewInfo(a, source).(randomPos := |order|), NewInfo(a, source));
    SameButPosKeeps(k, Enter(bk, a, source), bk'.infos, {id}, 0);
  }

  lemma CreateOrder(infos: map<int, Info>, order: seq<int>, id: int, y: Info)
    requires OrderOk(infos, order) && id !in infos && y.randomPos == |order|
    ensures OrderOk(infos[id := y], order + [id])
  {
    assert Look(0);
    assert infos[id := y].Keys == infos.Keys + {id};
  }

  lemma SameButPosAt(m: map<int, Info>, m': map<int, Info>, id: int)
    requires SameButPos(m, m') && id in m
    ensures id in m' && m[id].(randomPos := 0) == m'[id].(randomPos := 0)
  {
    assert Look(0);
  }

  lemma PutPut(t: Table, b: nat, p: nat, id: int)
    requires b < |t| && p < |t[b]|
    ensures Put(Put(t, b, p, EMPTY), b, p, id) == Put(t, b, p, id)
  {
    assert Put(Put(t, b, p, EMPTY), b, p, id)[b] == Put(t, b, p, id)[b];
  }

  lemma OrderFacts(infos: map<int, Info>, order: seq<int>, id: int)
    requires OrderOk(infos, order) && id in infos
    ensures 0 <= infos[id].randomPos < |order| && order[infos[id].randomPos] == id
  {
    assert Look(0);
  }

  lemma SameButPosRefl(m: map<int, Info>)
    ensures SameButPos(m, m)
  {
    assert Look(0);
  }

  lemma SameButPosUpdate(m: map<int, Info>, id: int, x: Info, y: Info)
    requires x.(randomPos := 0) == y.(randomPos := 0)
    ensures SameButPos(m[id := x], m[id := y])
  {
    assert Look(0);
  }

  /** From `bk` to `bk'` entry `id` moves to its tried slot.  Whoever was there goes back to its own new bucket, and
      whatever was in the way there loses that slot. */
  ghost predicate IsPromotion(k: Keyed, bk: Book, bk': Book, id: int)
    requires Shape(bk.newTable, NEW_BUCKETS) && Shape(bk.triedTable, TRIED_BUCKETS) && id in bk.infos
  {
    var s := bk.infos[id].service;
    var b := k.TriedBucket(s);
    var p := k.BucketPosition(s, false, b);
    var e := bk.triedTable[b][p];
    var t := Without(bk.newTable, id);
    && bk'.triedTable == Put(bk.triedTable, b, p, id)
    && (e == EMPTY ==> bk'.newTable == t && SameButPos(bk'.infos, Promoted(bk.infos, id)))
    && (e != EMPTY ==>
          && e in bk.infos && e != id
          && var ub := k.NewBucket(bk.infos[e].service, bk.infos[e].source);
          var up := k.BucketPosition(bk.infos[e].service, true, ub);
          && bk'.newTable == Put(t, ub, up, e)
          && SameButPos(bk'.infos, Cleared(Demoted(Promoted(bk.infos, id), e), t[ub][up])))
  }

  /** What `Good_` records about an entry before it looks at the tables. */
  function Noted(infos: map<int, Info>, id: int, time: int): map<int, Info>
    requires id in infos
  {
    infos[id := infos[id].(lastSuccess := time, lastTry := time, attempts := 0)]
  }

  class AddrMan {
    const k: Keyed
    var infos: map<int, Info>      // mapInfo
    var ids: map<NetAddr, int>     // mapAddr
    var order: seq<int>            // vRandom
    var newTable: Table            // vvNew
    var triedTable: Table          // vvTried
    var newCount: int              // nNew
    var triedCount: int            // nTried
    var nextId: int                // nIdCount
    var lastGood: int              // nLastGood

    ghost function State(): Book
      reads this
    {
      Book(infos, ids, newTable, triedTable, newCount, triedCount, nextId)
    }

    /** The invariant between the elementary changes of one operation. */
    ghost predicate Inv(limbo: set<int>, extra: int)
      reads this
    {
      Consistent(k, State(), limbo, extra) && OrderOk(infos, order)
    }

    ghost predicate Valid()
      reads this
    {
      Inv({}, 0)
    }

    method SwapRandom(i: nat, j: nat)
      requires OrderOk(infos, order)
      requires i == j || (i < |order| && j < |order|)
      modifies this`infos, this`order
      ensures OrderOk(infos, order) && SameButPos(infos, old(infos))
      ensures |order| == |old(order)|
      ensures i < |order| && j < |order| ==> order == old(order)[i := old(order)[j]][j := old(order)[i]]
      ensures i == j ==> order == old(order)
    {
      if i == j {
        SameButPosRefl(infos);
        return;
      }
      SwapOrder(infos, order, i, j);
      var id1 := order[i];
      var id2 := order[j];
      assert id1 in infos && id2 in infos;
      infos := infos[id1 := infos[id1].(randomPos := j)];
      infos := infos[id2 := infos[id2].(randomPos := i)];
      order := order[i := id2];
      order := order[j := id1];
    }

    method Delete(id: int, ghost limbo: set<int>, ghost extra: int)
      requires Inv(limbo, extra) && id in limbo
      modifies this`infos, this`order, this`ids, this`newCount
      ensures Inv(limbo - {id}, extra - 1)
      ensures SameButPos(infos, old(infos) - {id})
      ensures ids == old(ids) - {old(infos)[id].service.ip}
      ensures newCount == old(newCount) - 1
    {
      LimboFacts(k, State(), limbo, extra, id);
      OrderFacts(infos, order, id);
      assert id in infos && !infos[id].inTried && infos[id].refCount == 0;
      ghost var bk := State();
      SwapRandom(infos[id].randomPos, |order| - 1);
      DeleteKeeps(k, bk, infos, order, limbo, extra, id);
      ghost var bk' := Drop(State(), id);
      order := order[..|order| - 1];
      ids := ids - {infos[id].service.ip};
      infos := infos - {id};
      newCount := newCount - 1;
      assert State() == bk';
    }

    method ClearNew(b: nat, p: nat, ghost limbo: set<int>, ghost extra: int)
      requires Inv(limbo, extra) && b < NEW_BUCKETS && p < BUCKET_SIZE
      modifies this`infos, this`order, this`ids, this`newCount, this`newTable
      ensures Inv(limbo, extra)
      ensures old(newTable)[b][p] !in limbo
      ensures newTable == Put(old(newTable), b, p, EMPTY)
      ensures SameButPos(infos, Cleared(old(infos), old(newTable)[b][p]))
    {
      forall id | id in limbo ensures newTable[b][p] != id {
        LimboFacts(k, State(), limbo, extra, id);
        if newTable[b][p] != EMPTY { SlotFacts(k, State(), limbo, extra, b, p); }
      }
      SameButPosRefl(infos);
      assert newTable[b][p] == EMPTY ==> newTable[b][p := EMPTY] == newTable[b];
      if newTable[b][p] != EMPTY {
        var id := newTable[b][p];
        UnslotKeeps(k, State(), limbo, extra, b, p, id);
        assert infos[id].refCount > 0;
        TouchOrder(infos, order, id, infos[id].(refCount := infos[id].refCount - 1));
        infos := infos[id := infos[id].(refCount := infos[id].refCount - 1)];
        newTable := Put(newTable, b, p, EMPTY);
        SameButPosRefl(infos);
        if infos[id].refCount == 0 {
          assert limbo + {id} - {id} == limbo;
          assert infos - {id} == old(infos) - {id};
          Delete(id, limbo + {id}, extra + 1);
        }
      }
    }

    /** Removes an entry from all new buckets; it ends up in limbo, still counted. */
    method LeaveNewTable(id: int)
      requires Valid() && id in infos && !infos[id].inTried
      modifies this`infos, this`newTable
      ensures Inv({id}, 1)
      ensures infos == old(infos)[id := old(infos)[id].(refCount := 0)]
      ensures newTable == Without(old(newTable), id)
    {
      EntryFacts(k, State(), {}, 0, id);
      ghost var limbo: set<int>, extra := {}, 0;
      for bucket := 0 to NEW_BUCKETS
        invariant Inv(limbo, extra) && id in infos
        invariant if infos[id].refCount == 0 then limbo == {id} && extra == 1 else limbo == {} && extra == 0
        invariant infos == old(infos)[id := old(infos)[id].(refCount := infos[id].refCount)]
        invariant Emptied(old(newTable), newTable, id, bucket)
      {
        var pos := k.BucketPosition(infos[id].service, true, bucket);
        EmptiedStep(k, State(), old(newTable), id, bucket, limbo, extra);
        if newTable[bucket][pos] == id {
          SlotFacts(k, State(), limbo, extra, bucket, pos);
          UnslotKeeps(k, State(), limbo, extra, bucket, pos, id);
          TouchOrder(infos, order, id, infos[id].(refCount := infos[id].refCount - 1));
          ghost var bk' := Unslot(State(), bucket, pos, id);
          newTable := Put(newTable, bucket, pos, EMPTY);
          infos := infos[id := infos[id].(refCount := infos[id].refCount - 1)];
          assert State() == bk';
          if infos[id].refCount == 0 {
            assert limbo + {id} == {id};
            limbo, extra := {id}, 1;
          }
        }
      }
      EmptiedAll(old(newTable), newTable, id);
      if infos[id].refCount != 0 {
        var b := NewEntryHasSlot(k, State(), {}, 0, id);
        assert false;
      }
    }

    /** Removes the to-be-evicted entry from the tried set. */
    method TakeFromTried(b: nat, p: nat, ghost limbo: set<int>) returns (id: int)
      requires Inv(limbo, 0) && b < TRIED_BUCKETS && p < BUCKET_SIZE && triedTable[b][p] != EMPTY
      modifies this`infos, this`triedTable, this`triedCount
      ensures id == old(triedTable)[b][p] && id in old(infos) && id !in limbo
      ensures Inv(limbo + {id}, 0)
      ensures infos == old(infos)[id := old(infos)[id].(inTried := false)]
      ensures triedTable == Put(old(triedTable), b, p, EMPTY)
    {
      id := triedTable[b][p];
      UntryKeeps(k, State(), limbo, 0, b, p, id);
      TouchOrder(infos, order, id, infos[id].(inTried := false));
      ghost var bk' := Untry(State(), id, b, p);
      infos := infos[id := infos[id].(inTried := false)];
      triedTable := Put(triedTable, b, p, EMPTY);
      triedCount := triedCount - 1;
      assert State() == bk';
    }

    /** Moves the tried entry in slot (b, p) back to its own new bucket.  `keep` stays in limbo. */
    method Evict(b: nat, p: nat, ghost keep: int)
      requires Inv({keep}, 0) && b < TRIED_BUCKETS && p < BUCKET_SIZE && triedTable[b][p] != EMPTY
      modifies this`infos, this`order, this`ids, this`newCount, this`newTable, this`triedTable, this`triedCount
      ensures Inv({keep}, 0)
      ensures triedTable == Put(old(triedTable), b, p, EMPTY)
      ensures var e := old(triedTable)[b][p];
              && e in old(infos) && e != keep
              && var ub := k.NewBucket(old(infos)[e].service, old(infos)[e].source);
              var up := k.BucketPosition(old(infos)[e].service, true, ub);
              && old(newTable)[ub][up] != keep
              && newTable == Put(old(newTable), ub, up, e)
              && SameButPos(infos, Cleared(old(infos)[e := old(infos)[e].(inTried := false, refCount := 1)],
                                           old(newTable)[ub][up]))
    {
      var id := TakeFromTried(b, p, {keep});
      var ub := k.NewBucket(infos[id].service, infos[id].source);
      var up := k.BucketPosition(infos[id].service, true, ub);
      ghost var m := infos;
      ClearNew(ub, up, {keep} + {id}, 0);
      assert newTable[ub][up] == EMPTY;
      ghost var bk := State();
      PutPut(old(newTable), ub, up, id);
      infos := infos[id := infos[id].(refCount := 1)];
      newTable := Put(newTable, ub, up, id);
      newCount := newCount + 1;
      ReEnter(k, bk, State(), order, {keep}, ub, up, id, m, old(newTable)[ub][up]);
      assert m[id := m[id].(refCount := 1)] == old(infos)[id := old(infos)[id].(inTried := false, refCount := 1)];
    }

    /** Enters a limbo entry into its free tried slot. */
    method TakeTriedSlot(b: nat, p: nat, id: int)
      requires Inv({id}, 0) && id in infos && infos[id].lastSuccess != 0 && b < TRIED_BUCKETS && p < BUCKET_SIZE
      requires b == k.TriedBucket(infos[id].service) && p == k.BucketPosition(infos[id].service, false, b)
      requires triedTable[b][p] == EMPTY
      modifies this`infos, this`triedTable, this`triedCount
      ensures Valid()
      ensures infos == old(infos)[id := old(infos)[id].(inTried := true)]
      ensures triedTable == Put(old(triedTable), b, p, id)
    {
      ghost var bk := State();
      triedTable := Put(triedTable, b, p, id);
      triedCount := triedCount + 1;
      infos := infos[id := infos[id].(inTried := true)];
      TryDone(k, bk, State(), order, b, p, id);
    }

    /** Moves an entry from the new table to its tried slot.  Whoever is there goes back to its own new
        bucket, and whatever is in the way there loses that slot. */
    method MakeTried(id: int)
      requires Valid() && id in infos && !infos[id].inTried && infos[id].lastSuccess != 0
      modifies this`infos, this`order, this`ids, this`newCount, this`newTable, this`triedTable, this`triedCount
      ensures Valid()
      ensures id in infos && infos[id].(randomPos := 0)
              == old(infos)[id].(refCount := 0, inTried := true, randomPos := 0)
      ensures IsPromotion(k, old(State()), State(), id)
    {
      var b := k.TriedBucket(infos[id].service);
      var p := k.BucketPosition(infos[id].service, false, b);
      ghost var m := infos;
      EntryFacts(k, State(), {}, 0, id);
      LeaveNewTable(id);
      ghost var bk := State();
      newCount := newCount - 1;
      RecountDone(k, bk, State(), {id}, 1, -1);
      assert infos[id].refCount == 0;
      ghost var e := triedTable[b][p];
      ghost var o := EMPTY;
      if triedTable[b][p] != EMPTY {
        ghost var t := newTable;
        Evict(b, p, id);
        o := t[k.NewBucket(m[e].service, m[e].source)]
              [k.BucketPosition(m[e].service, true, k.NewBucket(m[e].service, m[e].source))];
        PutPut(old(triedTable), b, p, id);
      } else {
        SameButPosRefl(infos);
      }
      assert triedTable[b][p] == EMPTY;
      bk := State();
      assert Settled(m, infos, id, e, o);
      SettledFacts(m, infos, id, e, o);
      TakeTriedSlot(b, p, id);
      PromoteCommutes(m, bk.infos, id, e, o);
    }

    /** `Find` followed by the comparison of the whole service: the id of the entry, or EMPTY. */
    function FindService(s: Service): (id: int)
      requires Valid()
      reads this
      ensures id == EMPTY <==> !exists i :: i in infos && infos[i].service == s
      ensures id != EMPTY ==> id in infos && infos[id].service == s
    {
      FindIsExact(k, State(), s);
      if s.ip in ids && ids[s.ip] in infos && infos[ids[s.ip]].service == s then ids[s.ip] else EMPTY
    }

    method NoteSuccess(id: int, time: int)
      requires Valid() && id in infos && time > 0
      modifies this`infos
      ensures Valid()
      ensures infos == Noted(old(infos), id, time)
    {
      ghost var bk := State();
      var y := infos[id].(lastSuccess := time, lastTry := time, attempts := 0);
      infos := infos[id := y];
      TouchDone(k, bk, State(), order, id, y);
    }

    /** Scans the new buckets from a random start for one that holds `id`. */
    method FindNewBucket(id: int, rnd: nat) returns (bucket: int)
      requires Valid() && id in infos && !infos[id].inTried
      ensures 0 <= bucket < NEW_BUCKETS
      ensures newTable[bucket][k.BucketPosition(infos[id].service, true, bucket)] == id
    {
      ghost var held := NewEntryHasSlot(k, State(), {}, 0, id);
      var start := rnd % NEW_BUCKETS;
      ghost var off := if held >= start then held - start else held + NEW_BUCKETS - start;
      bucket := -1;
      for n := 0 to NEW_BUCKETS
        invariant bucket == -1 && n <= off
      {
        var b := (n + start) % NEW_BUCKETS;
        assert n == off ==> b == held;
        if newTable[b][k.BucketPosition(infos[id].service, true, b)] == id {
          bucket := b;
          break;
        }
      }
    }

    /** Marks an address good.  The exit for an entry that is found in no bucket is unreachable. */
    method Good(s: Service, time: int, rnd: nat)
      requires Valid() && time > 0
      modifies this
      ensures Valid() && lastGood == time
      ensures old(FindService(s)) == EMPTY ==> State() == old(State()) && order == old(order)
      ensures var id := old(FindService(s));
              var bk := old(State());
              id != EMPTY ==>
                && id in infos && infos[id].inTried && infos[id].lastSuccess == infos[id].lastTry == time
                && infos[id].attempts == 0 && infos[id].time == bk.infos[id].time && infos[id].service == s
                && (bk.infos[id].inTried ==> State() == bk.(infos := Noted(bk.infos, id, time)))
                && (!bk.infos[id].inTried ==> IsPromotion(k, bk.(infos := Noted(bk.infos, id, time)), State(), id))
    {
      lastGood := time;
      var id := FindService(s);
      if id == EMPTY {
        return;
      }
      NoteSuccess(id, time);
      if infos[id].inTried {
        return;
      }
      var bucket := FindNewBucket(id, rnd);
      MakeTried(id);
    }

    /** Enters an unknown address; it is in no table yet, and not counted. */
    method Create(a: Address, source: NetAddr) returns (id: int)
      requires Valid() && a.service.ip !in ids
      modifies this`infos, this`ids, this`order, this`nextId
      ensures id == old(nextId) && nextId == old(nextId) + 1 && id !in old(infos)
      ensures Inv({id}, 0)
      ensures ids == old(ids)[a.service.ip := id]
      ensures infos == old(infos)[id := NewInfo(a, source).(randomPos := |old(order)|)]
    {
      ghost var bk := State();
      id := nextId;
      nextId := nextId + 1;
      infos := infos[id := NewInfo(a, source)];
      ids := ids[a.service.ip := id];
      infos := infos[id := infos[id].(randomPos := |order|)];
      order := order + [id];
      CreateDone(k, bk, State(), old(order), a, source);
    }

    /** The part of `Add_` for a known address: refresh time and services, and decide whether to try for
        one more new bucket.  `rnd` is the random draw of the stochastic test. */
    method Refresh(id: int, a: Address, timePenalty: int, now: int, rnd: nat) returns (more: bool)
      requires Valid() && id in infos
      modifies this`infos
      ensures Valid() && id in infos
      ensures infos == old(infos)[id := Refreshed(old(infos)[id], a, timePenalty, now)]
      ensures more <==> WantsMore(infos[id], a, rnd)
      ensures more ==> 1 <= infos[id].refCount
    {
      ghost var bk := State();
      EntryFacts(k, bk, {}, 0, id);
      var y := Refreshed(infos[id], a, timePenalty, now);
      infos := infos[id := y];
      TouchDone(k, bk, State(), order, id, y);
      if !NewsFor(y, a) {
        return false;
      }
      if y.inTried {
        return false;
      }
      if y.refCount == NEW_BUCKETS_PER_ADDRESS {
        return false;
      }
      more := StochasticTest(y.refCount, rnd);
    }

    /** Gives the new slot (ub, up) to `id`, whoever has it. */
    method TakeSlot(id: int, ub: nat, up: nat, ghost limbo: set<int>, ghost extra: int)
      requires Inv(limbo, extra) && id in infos && !infos[id].inTried && ub < NEW_BUCKETS
      requires infos[id].refCount < NEW_BUCKETS_PER_ADDRESS && up == k.BucketPosition(infos[id].service, true, ub)
      requires (limbo == {id} && extra == 1) || (limbo == {} && extra == 0)
      requires newTable[ub][up] != id
      modifies this`infos, this`order, this`ids, this`newCount, this`newTable
      ensures Valid()
      ensures newTable == Put(old(newTable), ub, up, id)
      ensures SameButPos(infos, Cleared(Referenced(old(infos), id), old(newTable)[ub][up]))
    {
      ghost var o := newTable[ub][up];
      ghost var m := infos;
      SlotOrLimbo(k, State(), limbo, extra, ub, up, id);
      ClearNew(ub, up, limbo, extra);
      ghost var bk := State();
      ClearedOther(m, infos, o, id);
      PutPut(old(newTable), ub, up, id);
      infos := infos[id := infos[id].(refCount := infos[id].refCount + 1)];
      newTable := Put(newTable, ub, up, id);
      PlaceDone(k, bk, State(), order, limbo, extra, ub, up, id, m, o);
    }

    /** The last part of `Add_`: tries to place `id` in the new bucket chosen by the announcing source.
        An entry that was just created (in limbo, already counted) and finds no place is deleted again. */
    method Place(id: int, source: NetAddr, now: int, ghost limbo: set<int>, ghost extra: int)
      requires Inv(limbo, extra) && id in infos && !infos[id].inTried
      requires infos[id].refCount < NEW_BUCKETS_PER_ADDRESS
      requires (limbo == {id} && extra == 1) || (limbo == {} && extra == 0)
      modifies this`infos, this`order, this`ids, this`newCount, this`newTable
      ensures Valid()
      ensures var ub := k.NewBucket(old(infos)[id].service, source);
              var up := k.BucketPosition(old(infos)[id].service, true, ub);
              var o := old(newTable)[ub][up];
              && (o == id ==> State() == old(State()))
              && (o != id && Replaceable(old(infos), o, id, now) ==>
                    && newTable == Put(old(newTable), ub, up, id)
                    && SameButPos(infos, Cleared(Referenced(old(infos), id), o)))
              && (o != id && !Replaceable(old(infos), o, id, now) ==>
                    && newTable == old(newTable)
                    && SameButPos(infos, if old(infos)[id].refCount == 0 then old(infos) - {id} else old(infos)))
    {
      var ub := k.NewBucket(infos[id].service, source);
      var up := k.BucketPosition(infos[id].service, true, ub);
      ghost var o := newTable[ub][up];
      ghost var m := infos;
      SlotOrLimbo(k, State(), limbo, extra, ub, up, id);
      if newTable[ub][up] != id {
        var insert := newTable[ub][up] == EMPTY;
        if !insert {
          var existing := infos[newTable[ub][up]];
          if IsTerrible(existing, now) || (existing.refCount > 1 && infos[id].refCount == 0) {
            insert := true;
          }
        }
        assert insert == Replaceable(m, o, id, now);
        if insert {
          TakeSlot(id, ub, up, limbo, extra);
        } else if infos[id].refCount == 0 {
          assert {id} - {id} == {};
          Delete(id, limbo, extra);
        } else {
          SameButPosRefl(infos);
        }
      }
    }

    /** `Create` with the penalised time, counted as a new entry. */
    method Introduce(a: Address, source: NetAddr, timePenalty: int) returns (id: int)
      requires Valid() && a.service.ip !in ids
      modifies this`infos, this`ids, this`order, this`nextId, this`newCount
      ensures id == old(nextId) && nextId == old(nextId) + 1 && id !in old(infos)
      ensures Inv({id}, 1) && id in infos
      ensures infos == old(infos)[id := Announced(a, source, timePenalty, |old(order)|)]
    {
      id := Create(a, source);
      ghost var bk := State();
      var y := infos[id].(time := ClampTime(infos[id].time - timePenalty));
      infos := infos[id := y];
      newCount := newCount + 1;
      IntroduceDone(k, bk, State(), order, id, y);
    }

    /** `Add_` for a known address. */
    method AddKnown(id: int, a: Address, source: NetAddr, timePenalty: int, now: int, rnd: nat)
      requires Valid() && id in infos
      modifies this`infos, this`order, this`ids, this`newCount, this`newTable
      ensures Valid()
      ensures var y := Refreshed(old(infos)[id], a, timePenalty, now);
              var m := old(infos)[id := y];
              var ub := k.NewBucket(y.service, source);
              var up := k.BucketPosition(y.service, true, ub);
              var o := old(newTable)[ub][up];
              if WantsMore(y, a, rnd) && o != id && Replaceable(m, o, id, now)
              then newTable == Put(old(newTable), ub, up, id) && SameButPos(infos, Cleared(Referenced(m, id), o))
              else newTable == old(newTable) && SameButPos(infos, m)
      ensures KeepsDecent(old(infos), old(newTable), newTable, now)
    {
      NoEmptyId(k, State());
      var more := Refresh(id, a, timePenalty, now, rnd);
      ghost var m := infos;
      SameButPosRefl(infos);
      if more {
        Place(id, source, now, {}, 0);
        ghost var ub := k.NewBucket(m[id].service, source);
        ghost var up := k.BucketPosition(m[id].service, true, ub);
        ghost var o := old(newTable)[ub][up];
        if o != id && Replaceable(m, o, id, now) {
          PutKeepsDecent(old(infos), m, old(newTable), ub, up, id, now);
        }
      }
    }

    /** `Add_` for an unknown address. */
    method AddUnknown(a: Address, source: NetAddr, timePenalty: int, now: int)
      requires Valid() && a.service.ip !in ids
      modifies this`infos, this`order, this`ids, this`nextId, this`newCount, this`newTable
      ensures Valid()
      ensures var id := old(nextId);
              var m := old(infos)[id := Announced(a, source, timePenalty, |old(order)|)];
              var ub := k.NewBucket(a.service, source);
              var up := k.BucketPosition(a.service, true, ub);
              var o := old(newTable)[ub][up];
              && id !in old(infos)
              && (Replaceable(m, o, id, now) ==> newTable == Put(old(newTable), ub, up, id)
                                                 && SameButPos(infos, Cleared(Referenced(m, id), o)))
              && (!Replaceable(m, o, id, now) ==> newTable == old(newTable) && SameButPos(infos, old(infos)))
      ensures old(nextId) in infos ==> IsNewcomer(infos[old(nextId)], a, source, timePenalty)
      ensures KeepsDecent(old(infos), old(newTable), newTable, now)
    {
      NoEmptyId(k, State());
      var id := Introduce(a, source, timePenalty);
      assert infos - {id} == old(infos);
      ghost var m := infos;
      ghost var ub := k.NewBucket(a.service, source);
      ghost var up := k.BucketPosition(a.service, true, ub);
      ghost var o := newTable[ub][up];
      SlotOrLimbo(k, State(), {id}, 1, ub, up, id);
      Place(id, source, now, {id}, 1);
      AnnouncedIsNewcomer(old(infos), infos, id, o, a, source, timePenalty, |old(order)|);
      if Replaceable(m, o, id, now) {
        PutKeepsDecent(old(infos), m, old(newTable), ub, up, id, now);
      }
    }

    /** Adds an announced address.  The result says whether the address was unknown, even when the new
        entry found no place and was dropped again. */
    method Add(a: Address, source: NetAddr, timePenalty: int, now: int, rnd: nat) returns (isNew: bool)
      requires Valid()
      modifies this
      ensures Valid()
      ensures isNew <==> k.routable(a.service.ip) && a.service.ip !in old(ids)
      ensures !k.routable(a.service.ip) ==> State() == old(State()) && order == old(order)
      ensures isNew ==>
                var id := old(nextId);
                var penalty := if a.service.ip == source then 0 else timePenalty;
                var m := old(infos)[id := Announced(a, source, penalty, |old(order)|)];
                var ub := k.NewBucket(a.service, source);
                var up := k.BucketPosition(a.service, true, ub);
                var o := old(newTable)[ub][up];
                && id !in old(infos)
                && (Replaceable(m, o, id, now) ==> newTable == Put(old(newTable), ub, up, id)
                                                   && SameButPos(infos, Cleared(Referenced(m, id), o)))
                && (!Replaceable(m, o, id, now) ==> newTable == old(newTable) && SameButPos(infos, old(infos)))
      ensures isNew && old(nextId) in infos ==>
                IsNewcomer(infos[old(nextId)], a, source, if a.service.ip == source then 0 else timePenalty)
      ensures k.routable(a.service.ip) && !isNew ==>
                var penalty := if a.service.ip == source then 0 else timePenalty;
                && old(ids)[a.service.ip] in old(infos)
                && var id := old(ids)[a.service.ip];
                var y := Refreshed(old(infos)[id], a, penalty, now);
                var m := old(infos)[id := y];
                var ub := k.NewBucket(y.service, source);
                var up := k.BucketPosition(y.service, true, ub);
                var o := old(newTable)[ub][up];
                if WantsMore(y, a, rnd) && o != id && Replaceable(m, o, id, now)
                then newTable == Put(old(newTable), ub, up, id) && SameButPos(infos, Cleared(Referenced(m, id), o))
                else newTable == old(newTable) && SameButPos(infos, m)
      ensures KeepsDecent(old(infos), old(newTable), newTable, now)
      ensures triedTable == old(triedTable) && triedCount == old(triedCount) && lastGood == old(lastGood)
    {
      if !k.routable(a.service.ip) {
        return false;
      }
      var penalty := if a.service.ip == source then 0 else timePenalty;
      if a.service.ip in ids {
        AddrFacts(k, State(), {}, 0, a.service.ip);
        var id := ids[a.service.ip];
        AddKnown(id, a, source, penalty, now, rnd);
        isNew := false;
      } else {
        AddUnknown(a, source, penalty, now);
        isNew := true;
      }
    }

    /** Marks a connection attempt. */
    method Attempt(s: Service, countFailure: bool, time: int)
      requires Valid() && time >= 0
      modifies this`infos
      ensures Valid()
      ensures var id := old(FindService(s));
              if id == EMPTY then infos == old(infos)
              else var y := old(infos)[id].(lastTry := time);
                   infos == old(infos)[id :=
                     if countFailure && y.lastCountAttempt < lastGood
                     then y.(lastCountAttempt := time, attempts := y.attempts + 1) else y]
    {
      var id := FindService(s);
      if id == EMPTY {
        return;
      }
      ghost var bk := State();
      EntryFacts(k, bk, {}, 0, id);
      var y := infos[id].(lastTry := time);
      if countFailure && y.lastCountAttempt < lastGood {
        y := y.(lastCountAttempt := time, attempts := y.attempts + 1);
      }
      infos := infos[id := y];
      TouchDone(k, bk, State(), order, id, y);
    }

    /** Marks an entry as currently connected to. */
    method Connected(s: Service, time: nat)
      requires Valid()
      modifies this`infos
      ensures Valid()
      ensures var id := old(FindService(s));
              if id != EMPTY && time - old(infos)[id].time > 20 * 60
              then infos == old(infos)[id := old(infos)[id].(time := ClampTime(time))]
              else infos == old(infos)
    {
      var id := FindService(s);
      if id == EMPTY {
        return;
      }
      if time - infos[id].time > 20 * 60 {
        ghost var bk := State();
        EntryFacts(k, bk, {}, 0, id);
        var y := infos[id].(time := ClampTime(time));
        infos := infos[id := y];
        TouchDone(k, bk, State(), order, id, y);
      }
    }

    /** Empties everything. */
    constructor (k: Keyed)
      ensures Valid() && this.k == k && lastGood == 1 && order == []
      ensures State() == Book(map[], map[], EmptyTable(NEW_BUCKETS), EmptyTable(TRIED_BUCKETS), 0, 0, 0)
    {
      this.k := k;
      infos, ids, order := map[], map[], [];
      newTable := EmptyTable(NEW_BUCKETS);
      triedTable := EmptyTable(TRIED_BUCKETS);
      newCount, triedCount, nextId, lastGood := 0, 0, 0, 1;
      new;
      assert Look(0);
    }

    /** Lists some addresses in random order.  `rnds` are the random draws. */
    method GetAddr(now: int, rnds: nat -> nat) returns (out: seq<Address>, ghost picked: seq<int>)
      requires Valid()
      modifies this`infos, this`order
      ensures Valid() && SameButPos(infos, old(infos))
      ensures |out| <= ListLimit(|old(infos)|)
      ensures |picked| == |out| && Distinct(picked)
      ensures forall i :: 0 <= i < |out| ==>
                && picked[i] in old(infos)
                && var y := old(infos)[picked[i]];
                && out[i].service == y.service && out[i].services == y.services && out[i].time == y.time
                && ((y.lastTry != 0 && now - 60 <= y.lastTry)
                    || (y.time != 0 && now - 30 * 24 * 60 * 60 <= y.time <= now + 10 * 60
                        && (y.lastSuccess == 0 ==> y.attempts < 3)
                        && (y.lastSuccess < now - 7 * 24 * 60 * 60 ==> y.attempts < 10)))
      ensures |out| < ListLimit(|old(infos)|) ==>
                forall id :: id in old(infos) ==>
                  var y := old(infos)[id];
                  ((y.lastTry != 0 && now - 60 <= y.lastTry)
                   || (y.time != 0 && now - 30 * 24 * 60 * 60 <= y.time <= now + 10 * 60
                       && (y.lastSuccess == 0 ==> y.attempts < 3)
                       && (y.lastSuccess < now - 7 * 24 * 60 * 60 ==> y.attempts < 10))) ==> id in picked
    {
      var limit := ListLimit(|order|);
      ghost var bk := State();
      ghost var m := infos;
      SameButPosRefl(infos);
      out, picked := [], [];
      var n := 0;
      while n < |order| && |out| < limit
        invariant OrderOk(infos, order) && SameButPos(infos, m) && |order| == |old(order)| && n <= |order|
        invariant |out| <= limit
        invariant Listed(m, order[..n], picked, out, now)
      {
        var pos := rnds(n) % (|order| - n) + n;
        ghost var before := order[..n];
        ghost var m1 := infos;
        SwapRandom(n, pos);
        SameButPosTrans(infos, m1, m);
        assert order[..n] == before;
        OrderedAt(infos, order, n);
        SameButPosAt(infos, m, order[n]);
        var ai := infos[order[n]];
        assert order[..n + 1] == before + [order[n]];
        ListedStep(m, before, order[n], picked, out, now);
        if !IsTerrible(ai, now) {
          out := out + [AddressOf(ai)];
          picked := picked + [order[n]];
        }
        n := n + 1;
      }
      SameButPosKeeps(k, bk, infos, {}, 0);
      if |out| < limit {
        assert order[..n] == order;
        forall id | id in m && !IsTerrible(m[id], now) ensures id in picked {
          assert id in infos.Keys;
          OrderFacts(infos, order, id);
        }
      }
    }
  }
}
