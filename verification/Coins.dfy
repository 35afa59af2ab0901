/** The stack of unspent-output caches (src/coins.cpp, src/coins.h).

    A view is either the database (`base` is null; an abstract map) or a write-back cache on top of
    another view.  `Look` is what a view means: for every outpoint, the unspent coin there, if any.
    A cached entry that is not DIRTY agrees with the base, and a FRESH entry has no unspent coin below. */
module Coins {
  import opened Wrappers

  datatype OutPoint = OutPoint(hash: nat, n: nat)

  /** An unspent output; a value of -1 marks a spent (cleared) one. */
  datatype Coin = Coin(value: int, script: seq<nat>, height: nat, coinBase: bool)
  {
    predicate IsSpent() { value == -1 }
    predicate IsUnspendable() { (|script| > 0 && script[0] == 0x6a) || |script| > 10000 }
    function View(): Option<Coin> { if IsSpent() then None else Some(this) }
  }

  const SPENT: Coin := Coin(-1, [], 0, false)

  datatype Entry = Entry(coin: Coin, isDirty: bool, isFresh: bool)

  /** An entry that the base view allows. */
  ghost predicate EntryOk(e: Entry, below: Option<Coin>) {
    (e.isFresh ==> below == None) && (!e.isDirty ==> e.coin.View() == below)
  }

  function At<V>(m: map<OutPoint, V>, o: OutPoint): Option<V> {
    if o in m then Some(m[o]) else None
  }

  /** What a cache holds for an outpoint after a child entry was written back to it. */
  function Merged(mine: Option<Entry>, e: Entry): Option<Entry> {
    if !e.isDirty then mine
    else if mine == None then (if e.isFresh && e.coin.IsSpent() then None else Some(Entry(e.coin, true, e.isFresh)))
    else if mine.value.isFresh && e.coin.IsSpent() then None
    else Some(Entry(e.coin, true, mine.value.isFresh))
  }

  /** The check of the source that throws: FRESH on an entry whose parent entry is unspent. */
  predicate Misapplied(mine: Option<Entry>, e: Entry) {
    e.isDirty && mine.Some? && e.isFresh && !mine.value.coin.IsSpent()
  }

  /** What the database holds after a child entry was written to it. */
  function Stored(mine: Option<Coin>, e: Entry): Option<Coin> {
    if e.isDirty then e.coin.View() else mine
  }

  /** The view after the dirty entries of `m` replace what is there. */
  ghost function Overlaid(below: Option<Coin>, m: map<OutPoint, Entry>, o: OutPoint): Option<Coin> {
    if o in m && m[o].isDirty then m[o].coin.View() else below
  }

  /** Merging an honest entry gives the overlaid view and again an entry the view below allows. */
  lemma MergedIsSound(mine: Option<Entry>, e: Entry, below: Option<Coin>)
    requires mine.Some? ==> EntryOk(mine.value, below)
    requires var seen := if mine.Some? then mine.value.coin.View() else below;
             e.isDirty && e.isFresh ==> seen == None
    ensures !Misapplied(mine, e)
    ensures var r := Merged(mine, e);
            && (r.Some? ==> EntryOk(r.value, below))
            && (e.isDirty ==> (if r.Some? then r.value.coin.View() else below) == e.coin.View())
            && (!e.isDirty ==> r == mine)
  {
  }

  /** Whether an entry stays fresh, and when it goes away altogether, is decided by the first cache that has it. */
  lemma MergedFlags(mine: Option<Entry>, e: Entry)
    requires e.isDirty
    ensures var first := if mine.Some? then mine.value.isFresh else e.isFresh;
            Merged(mine, e) == if first && e.coin.value == -1 then None else Some(Entry(e.coin, true, first))
  {
  }

  /** Writes a child's entries into a cache, one at a time, in any order.  Fails where the source throws. */
  method MergeInto(cache: map<OutPoint, Entry>, m: map<OutPoint, Entry>) returns (ok: bool, r: map<OutPoint, Entry>)
    ensures ok <==> forall o :: o in m ==> !Misapplied(At(cache, o), m[o])
    ensures ok ==> forall o :: At(r, o) == if o in m then Merged(At(cache, o), m[o]) else At(cache, o)
  {
    var todo := m;
    r := cache;
    while todo != map[]
      invariant forall o :: o in todo ==> o in m && todo[o] == m[o]
      invariant forall o :: o in m && o !in todo ==> !Misapplied(At(cache, o), m[o])
      invariant forall o :: At(r, o) == if o in m && o !in todo then Merged(At(cache, o), m[o]) else At(cache, o)
      decreases |todo|
    {
      var o :| o in todo;
      var e := todo[o];
      assert At(r, o) == At(cache, o);
      if e.isDirty {
        if o !in r {
          if !(e.isFresh && e.coin.IsSpent()) {
            r := r[o := Entry(e.coin, true, e.isFresh)];
          }
        } else {
          if e.isFresh && !r[o].coin.IsSpent() {
            return false, r;
          }
          if r[o].isFresh && e.coin.IsSpent() {
            r := r - {o};
          } else {
            r := r[o := Entry(e.coin, true, r[o].isFresh)];
          }
        }
      }
      assert (todo - {o}).Keys == todo.Keys - {o};
      todo := todo - {o};
    }
    return true, r;
  }

  /** Writes a child's entries to the database. */
  method StoreInto(db: map<OutPoint, Coin>, m: map<OutPoint, Entry>) returns (r: map<OutPoint, Coin>)
    ensures forall o :: At(r, o) == if o in m then Stored(At(db, o), m[o]) else At(db, o)
  {
    var todo := m;
    r := db;
    while todo != map[]
      invariant forall o :: o in todo ==> o in m && todo[o] == m[o]
      invariant forall o :: At(r, o) == if o in m && o !in todo then Stored(At(db, o), m[o]) else At(db, o)
      decreases |todo|
    {
      var o :| o in todo;
      var e := todo[o];
      assert At(r, o) == At(db, o);
      if e.isDirty {
        if e.coin.IsSpent() {
          r := r - {o};
        } else {
          r := r[o := e.coin];
        }
      }
      assert (todo - {o}).Keys == todo.Keys - {o};
      todo := todo - {o};
    }
  }

  /** A transaction output as it becomes a coin. */
  datatype TxOut = TxOut(value: int, script: seq<nat>)

  function CoinOf(out: TxOut, height: nat, coinBase: bool): Coin {
    Coin(out.value, out.script, height, coinBase)
  }

  /** The flat map of unspent coins that a stack of caches stands for. */
  type Flat = imap<OutPoint, Option<Coin>>

  /** The flat map after the first `n` outputs of a transaction were added. */
  ghost function WithOutputs(below: Option<Coin>, txid: nat, outs: seq<TxOut>, height: nat, coinBase: bool, n: nat,
                             o: OutPoint): Option<Coin>
    requires n <= |outs|
  {
    if o.hash == txid && o.n < n && !CoinOf(outs[o.n], height, coinBase).IsUnspendable()
    then Some(CoinOf(outs[o.n], height, coinBase)) else below
  }

  /** What a caller can do with the top view. */
  datatype Op =
    | Fetch(o: OutPoint)
    | Forget(o: OutPoint)
    | Push
    | Add(o: OutPoint, coin: Coin, possibleOverwrite: bool)
    | Spend(o: OutPoint)

  ghost predicate Full(f: Flat) { forall o :: o in f }

  /** The effect of an operation on the flat map: only adding and spending change it, at one outpoint. */
  ghost function Effect(f: Flat, op: Op): (f': Flat)
    requires Full(f)
    ensures Full(f')
  {
    match op
    case Add(o, coin, _) => if coin.IsUnspendable() then f else f[o := Some(coin)]
    case Spend(o) => f[o := None]
    case _ => f
  }

  ghost function Effects(f: Flat, ops: seq<Op>): (f': Flat)
    requires Full(f)
    ensures Full(f')
  {
    if ops == [] then f else Effect(Effects(f, ops[..|ops| - 1]), ops[|ops| - 1])
  }

  /** The caller's part: coins that are added are unspent, and a coin that is said to be new is new. */
  ghost predicate Honest(f: Flat, ops: seq<Op>)
    requires Full(f)
  {
    forall i :: 0 <= i < |ops| && ops[i].Add? ==>
      && !ops[i].coin.IsSpent()
      && (ops[i].possibleOverwrite || ops[i].coin.IsUnspendable() || Effects(f, ops[..i])[ops[i].o] == None)
  }

  class CoinsView {
    const base: CoinsView?
    ghost const depth: nat
    ghost const repr: set<CoinsView>
    var cache: map<OutPoint, Entry>
    var db: map<OutPoint, Coin>

    ghost predicate Linked()
      decreases depth
    {
      if base == null then repr == {this}
      else this in repr && base.depth < depth && base.repr == repr - {this} && base.Linked()
    }

    ghost function Look(o: OutPoint): Option<Coin>
      requires Linked()
      reads repr
      decreases depth
    {
      if base == null then (if o in db then Some(db[o]) else None)
      else if o in cache then cache[o].coin.View()
      else base.Look(o)
    }

    ghost predicate Valid()
      requires Linked()
      reads repr
      decreases depth
    {
      if base == null then forall o :: o in db ==> !db[o].IsSpent()
      else base.Valid() && forall o :: o in cache ==> EntryOk(cache[o], base.Look(o))
    }

    /** The database view. */
    constructor Database(db: map<OutPoint, Coin>)
      requires forall o :: o in db ==> !db[o].IsSpent()
      ensures Linked() && Valid() && base == null && fresh(repr)
      ensures forall o :: Look(o) == At(db, o)
    {
      base, depth, repr := null, 0, {this};
      this.db, cache := db, map[];
    }

    /** An empty cache shows what its base shows. */
    constructor OnTop(b: CoinsView)
      requires b.Linked() && b.Valid()
      ensures Linked() && Valid() && base == b && repr == {this} + b.repr
      ensures forall o :: Look(o) == b.Look(o)
    {
      base, depth, repr := b, b.depth + 1, {this} + b.repr;
      db, cache := map[], map[];
    }

    /** A view never shows a spent coin. */
    lemma LookUnspent(o: OutPoint)
      requires Linked() && Valid()
      ensures Look(o).Some? ==> !Look(o).value.IsSpent()
      decreases depth
    {
      if base != null {
        base.LookUnspent(o);
      }
    }

    /** Brings the entry for an outpoint into the cache, if some view below has an unspent coin there. */
    method FetchCoin(o: OutPoint) returns (found: bool)
      requires Linked() && Valid() && base != null
      modifies repr
      ensures Valid() && forall x :: Look(x) == old(Look(x))
      ensures found <==> o in cache
      ensures o in old(cache) ==> cache == old(cache)
      ensures o !in old(cache) && !found ==> cache == old(cache) && Look(o) == None
      ensures o !in old(cache) && found ==>
                old(Look(o)).Some? && cache == old(cache)[o := Entry(old(Look(o)).value, false, false)]
      decreases depth, 0
    {
      if o in cache {
        return true;
      }
      var have, coin := base.GetCoin(o);
      base.LookUnspent(o);
      if !have {
        return false;
      }
      cache := cache[o := Entry(coin, false, coin.IsSpent())];
      return true;
    }

    /** The unspent coin at an outpoint, looked up through every level below. */
    method GetCoin(o: OutPoint) returns (have: bool, coin: Coin)
      requires Linked() && Valid()
      modifies repr
      ensures Valid() && forall x :: Look(x) == old(Look(x))
      ensures have <==> Look(o).Some?
      ensures have ==> Look(o) == Some(coin)
      decreases depth, 1
    {
      if base == null {
        if o in db {
          return true, db[o];
        }
        return false, SPENT;
      }
      var found := FetchCoin(o);
      if found {
        coin := cache[o].coin;
        return !coin.IsSpent(), coin;
      }
      return false, SPENT;
    }

    method HaveCoin(o: OutPoint) returns (have: bool)
      requires Linked() && Valid()
      modifies repr
      ensures Valid() && forall x :: Look(x) == old(Look(x))
      ensures have <==> Look(o).Some?
      decreases depth, 2
    {
      if base == null {
        return o in db;
      }
      var found := FetchCoin(o);
      have := found && !cache[o].coin.IsSpent();
    }

    /** Adds a coin.  The result is false when the source throws: a coin that was promised not to be there
        is in the cache.  The view stays consistent exactly when the overwrite flag was honest. */
    method AddCoin(o: OutPoint, coin: Coin, possibleOverwrite: bool) returns (ok: bool)
      requires Linked() && Valid() && base != null && !coin.IsSpent()
      modifies this`cache
      ensures !ok <==> !coin.IsUnspendable() && !possibleOverwrite && o in old(cache) && !old(cache)[o].coin.IsSpent()
      ensures !ok || coin.IsUnspendable() ==> cache == old(cache)
      ensures ok && !coin.IsUnspendable() ==>
                && Look(o) == Some(coin)
                && (forall x :: x != o ==> Look(x) == old(Look(x)))
                && var e := if o in old(cache) then old(cache)[o] else Entry(SPENT, false, false);
                cache == old(cache)[o := Entry(coin, true, e.isFresh || (!possibleOverwrite && !e.isDirty))]
      ensures Valid() <==> coin.IsUnspendable() || possibleOverwrite || o in old(cache) || old(Look(o)) == None
    {
      if coin.IsUnspendable() {
        return true;
      }
      var e := if o in cache then cache[o] else Entry(SPENT, false, false);
      var isFresh := false;
      if !possibleOverwrite {
        if !e.coin.IsSpent() {
          return false;
        }
        isFresh := !e.isDirty;
      }
      cache := cache[o := Entry(coin, true, e.isFresh || isFresh)];
      return true;
    }

    /** Spends a coin and returns it. */
    method SpendCoin(o: OutPoint) returns (found: bool, moved: Coin)
      requires Linked() && Valid() && base != null
      modifies repr
      ensures Valid() && Look(o) == None
      ensures forall x :: x != o ==> Look(x) == old(Look(x))
      ensures old(Look(o)).Some? ==> found && moved == old(Look(o)).value
      ensures found && !moved.IsSpent() ==> old(Look(o)) == Some(moved)
      ensures !found ==> cache == old(cache)
      ensures found ==>
                cache == if o in old(cache) && old(cache)[o].isFresh then old(cache) - {o}
                         else old(cache)[o := Entry(SPENT, true, false)]
    {
      found := FetchCoin(o);
      if !found {
        return false, SPENT;
      }
      moved := cache[o].coin;
      if cache[o].isFresh {
        cache := cache - {o};
      } else {
        cache := cache[o := Entry(SPENT, true, false)];
      }
    }

    /** Drops an unmodified entry. */
    method Uncache(o: OutPoint)
      requires Linked() && Valid() && base != null
      modifies this`cache
      ensures Valid() && forall x :: Look(x) == old(Look(x))
      ensures cache == if o in old(cache) && !old(cache)[o].isDirty && !old(cache)[o].isFresh then old(cache) - {o}
              else old(cache)
    {
      if o in cache && !cache[o].isDirty && !cache[o].isFresh {
        cache := cache - {o};
      }
    }

    /** A bulk write from a child.  If the child's FRESH flags are honest it cannot throw, and the view
        becomes exactly the child's dirty entries over the old view. */
    method BatchWrite(m: map<OutPoint, Entry>) returns (ok: bool)
      requires Linked() && Valid()
      modifies this`cache, this`db
      ensures base != null ==> (ok <==> forall o :: o in m ==> !Misapplied(At(old(cache), o), m[o]))
      ensures (forall o :: o in m && m[o].isDirty && m[o].isFresh ==> old(Look(o)) == None) ==>
                ok && Valid() && forall o :: Look(o) == Overlaid(old(Look(o)), m, o)
    {
      if base == null {
        var r := StoreInto(db, m);
        db := r;
        ok := true;
        assert forall o :: o in db ==> At(db, o) == Some(db[o]);
      } else {
        var r;
        ok, r := MergeInto(cache, m);
        cache := r;
        if forall o :: o in m && m[o].isDirty && m[o].isFresh ==> old(Look(o)) == None {
          forall o ensures o in m ==> !Misapplied(At(old(cache), o), m[o]) {
            if o in m { MergedIsSound(At(old(cache), o), m[o], old(base.Look(o))); }
          }
          forall o ensures Look(o) == Overlaid(old(Look(o)), m, o)
                   ensures o in cache ==> EntryOk(cache[o], base.Look(o))
          {
            assert At(cache, o) == if o in m then Merged(At(old(cache), o), m[o]) else At(old(cache), o);
            if o in m { MergedIsSound(At(old(cache), o), m[o], old(base.Look(o))); }
          }
        }
      }
    }

    /** Pushes everything to the base: the base then shows what this cache showed, and so does the
        emptied cache.  The FRESH check of the base cannot fail. */
    method Flush() returns (ok: bool)
      requires Linked() && Valid() && base != null
      modifies repr
      ensures ok && cache == map[] && Valid()
      ensures forall o :: base.Look(o) == old(Look(o))
      ensures forall o :: Look(o) == old(Look(o))
    {
      ok := base.BatchWrite(cache);
      cache := map[];
    }

    /** Adds all outputs of a transaction. */
    method AddCoins(txid: nat, outs: seq<TxOut>, height: nat, coinBase: bool, check: bool) returns (ok: bool)
      requires Linked() && Valid() && base != null
      requires forall i :: 0 <= i < |outs| ==> outs[i].value != -1
      requires check || coinBase || forall i: nat :: i < |outs| ==> Look(OutPoint(txid, i)) == None
      modifies repr
      ensures ok && Valid()
      ensures forall o :: Look(o) == WithOutputs(old(Look(o)), txid, outs, height, coinBase, |outs|, o)
      ensures forall i: nat :: i < |outs| ==>
                var o, script := OutPoint(txid, i), outs[i].script;
                Look(o) == if (script != [] && script[0] == 0x6a) || |script| > 10000 then old(Look(o))
                           else Some(Coin(outs[i].value, script, height, coinBase))
      ensures forall o: OutPoint :: o.hash != txid || o.n >= |outs| ==> Look(o) == old(Look(o))
    {
      for i := 0 to |outs|
        invariant Valid()
        invariant forall o :: Look(o) == WithOutputs(old(Look(o)), txid, outs, height, coinBase, i, o)
      {
        var o := OutPoint(txid, i);
        var overwrite := coinBase;
        if check {
          overwrite := HaveCoin(o);
        }
        ok := AddCoin(o, CoinOf(outs[i], height, coinBase), overwrite);
        assert ok;
      }
      ok := true;
    }

    /** The flat map this view stands for. */
    ghost function Meaning(): (f: Flat)
      requires Linked()
      reads repr
      ensures Full(f)
    {
      imap o | true :: Look(o)
    }

    /** One operation of an honest caller: it never throws and has exactly its effect on the flat map. */
    method Perform(op: Op)
      requires Linked() && Valid() && base != null && Honest(Meaning(), [op])
      modifies repr
      ensures Valid() && Meaning() == Effect(old(Meaning()), op)
    {
      assert Effects(Meaning(), [op][..0]) == Meaning();
      match op
      case Fetch(o) => var _ := FetchCoin(o);
      case Forget(o) => Uncache(o);
      case Push => var _ := Flush();
      case Add(o, coin, possibleOverwrite) =>
        var ok := AddCoin(o, coin, possibleOverwrite);
        assert ok;
      case Spend(o) => var _, _ := SpendCoin(o);
    }

    /** Any run of honest operations on a stack of any depth acts on the flat map as if there were no caches. */
    method Run(ops: seq<Op>)
      requires Linked() && Valid() && base != null && Honest(Meaning(), ops)
      modifies repr
      ensures Valid() && Meaning() == Effects(old(Meaning()), ops)
    {
      assert ops[..0] == [];
      for i := 0 to |ops|
        invariant Valid() && Meaning() == Effects(old(Meaning()), ops[..i])
      {
        assert ops[..i + 1][..i] == ops[..i];
        Perform(ops[i]);
      }
      assert ops[..|ops|] == ops;
    }
  }
}
