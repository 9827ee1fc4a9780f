/** The proxy's type tables beside a VM that hands out references and takes them back. */
module ReftypeRuns {
  import opened Wrappers
  import opened SplayTrees
  import opened ReftypeTable

  /** What the VM calls each class it has loaded, and how many references to it the proxy holds. */
  datatype World = World(t: Table, names: map<Key, Class>, held: map<Key, nat>)

  function Held(held: map<Key, nat>, id: Key): nat {
    if id in held then held[id] else 0
  }

  function TakenBack(held: nat, count: int): (n: nat)
    ensures n <= held
  {
    if count < 0 then 0 else if count <= held then count else held
  }

  /** The VM takes references back, though never more than it has given, nor less than none. */
  function GiveBack(held: map<Key, nat>, ds: seq<Disposal>): map<Key, nat> {
    if ds == [] then held
    else
      var rest, d := GiveBack(held, ds[..|ds| - 1]), ds[|ds| - 1];
      rest[d.id := Held(rest, d.id) - TakenBack(Held(rest, d.id), d.count)]
  }

  predicate Injective(names: map<Key, Class>) {
    forall i, j | i in names && j in names && i != j :: names[i] != names[j]
  }

  predicate SmallCounts(t: Table) {
    forall e | e in t.entries :: e.refcount < UINT32_SIZE / 2
  }

  datatype Event =
    | Rename(names: map<Key, Class>)     // classes are loaded and unloaded
    | Receive(id: Key)                   // the VM sends an ID, and the proxy translates it
    | MarkUnloaded(fake: nat)

  predicate Possible(w: World, e: Event) {
    match e
    case Rename(names) =>
      Injective(names) && forall id | Held(w.held, id) > 0 && id in w.names :: id in names && names[id] == w.names[id]
    case Receive(id) => id in w.names && SmallCounts(w.t)
    case MarkUnloaded(f) => f in w.t.fakes
  }

  /** What the VM still counts once the proxy has made room for an ID it has received. */
  function HeldAfter(w: World, id: Key, cacheMax: nat): map<Key, nat> {
    var given := w.held[id := Held(w.held, id) + 1];
    if !IsCached(w.t.entries, id) && |w.t.entries| >= cacheMax then GiveBack(given, Disposals(w.t.entries)) else given
  }

  function Next(w: World, e: Event, cacheMax: nat): World
    requires Possible(w, e) && HaveFakes(w.t.entries, w.t.fakes) && NamesFakes(w.t)
  {
    match e
    case Rename(names) => w.(names := names)
    case Receive(id) => w.(t := Translated(w.t, id, w.names[id], cacheMax), held := HeldAfter(w, id, cacheMax))
    case MarkUnloaded(f) => w.(t := w.t.(fakes := w.t.fakes[f := w.t.fakes[f].(wasUnloaded := true)]))
  }

  /** The proxy's counts are the VM's, and it knows the classes of the IDs it holds. */
  predicate WorldOk(w: World) {
    && TableOk(w.t) && Injective(w.names)
    && (forall e | e in w.t.entries :: Held(w.held, e.id) == e.refcount)
    && (forall e | e in w.t.entries :: e.id in w.names && w.names[e.id] == w.t.fakes[e.fake].cls)
    && (forall id | Held(w.held, id) > 0 :: IsCached(w.t.entries, id))
  }

  lemma {:induction false} NamesConsistent(w: World, id: Key)
    requires WorldOk(w) && id in w.names
    ensures Consistent(w.t, id, w.names[id])
  {
  }

  predicate Lists(entries: seq<Cached>, id: Key) {
    exists e :: e in entries && e.id == id
  }

  lemma {:induction false} ListsLast(entries: seq<Cached>, id: Key)
    requires Sorted(entries) && entries != []
    ensures var rest, last := entries[..|entries| - 1], entries[|entries| - 1];
            && Sorted(rest) && !Lists(rest, last.id)
            && (Lists(entries, id) <==> Lists(rest, id) || id == last.id)
            && Disposals(entries) == Disposals(rest) + [Disposal(last.id, AsInt32(last.refcount))]
  {
    var rest, last := entries[..|entries| - 1], entries[|entries| - 1];
    assert forall e :: e in entries <==> e in rest || e == last;
  }

  lemma {:induction false} GiveBackOne(held: map<Key, nat>, ds: seq<Disposal>, d: Disposal, id: Key)
    ensures var rest := GiveBack(held, ds);
            Held(GiveBack(held, ds + [d]), id) ==
              if id == d.id then Held(rest, id) - TakenBack(Held(rest, id), d.count) else Held(rest, id)
  {
    assert (ds + [d])[..|ds|] == ds;
  }

  /** Of a reference count, what is not given back when it is sent as a signed number. */
  function Leaked(n: nat): nat {
    n - TakenBack(n, AsInt32(n))
  }

  lemma {:induction false} NothingLeaked(n: nat)
    ensures Leaked(n) == 0 <==> n < UINT32_SIZE / 2
  {
  }

  /** Giving back what a cache holds leaves of it what its counts leak, and touches nothing else. */
  lemma {:induction false} GiveBackAll(held: map<Key, nat>, entries: seq<Cached>, id: Key)
    requires Sorted(entries) && forall e | e in entries :: Held(held, e.id) == e.refcount
    ensures Held(GiveBack(held, Disposals(entries)), id) == if Lists(entries, id) then Leaked(Held(held, id)) else Held(held, id)
  {
    hide Sorted;
    hide AsInt32;
    hide TakenBack;
    if entries != [] {
      var rest, last := entries[..|entries| - 1], entries[|entries| - 1];
      ListsLast(entries, id);
      assert forall e | e in rest :: e in entries;
      hide Lists;
      hide Disposals;
      hide GiveBack;
      GiveBackAll(held, rest, id);
      GiveBackAll(held, rest, last.id);
      GiveBackOne(held, Disposals(rest), Disposal(last.id, AsInt32(last.refcount)), id);
    }
  }

  lemma {:induction false} AddedEntries(t: Table, id: Key, cls: Class, x: Cached)
    requires TableOk(t)
    ensures cls in t.bySignature ==> t.bySignature[cls] in t.fakes
    ensures var u := Added(t, id, cls); x in u.entries <==> x in t.entries || x == Cached(id, 1, Named(t, cls).bySignature[cls])
  {
    InsertedMembers(t.entries, Place(t.entries, id), Cached(id, 1, Named(t, cls).bySignature[cls]), x);
  }

  lemma {:induction false} BumpedEntries(entries: seq<Cached>, i: nat, x: Cached)
    requires Sorted(entries) && i < |entries|
    ensures x in Bumped(entries, i) <==> (x in entries && x.id != entries[i].id) || x == Bumped(entries, i)[i]
  {
    var r := Bumped(entries, i);
    if x in r && x != r[i] {
      var j :| 0 <= j < |r| && r[j] == x;
      assert entries[j] == x;
    }
    if x in entries && x.id != entries[i].id {
      var j :| 0 <= j < |entries| && entries[j] == x;
      assert r[j] == x;
    }
  }

  lemma {:induction false} SortedTable(t: Table)
    requires TableOk(t)
    ensures Sorted(t.entries)
  {
  }

  lemma {:induction false} ReceiveCached(w: World, id: Key, cacheMax: nat)
    requires WorldOk(w) && Possible(w, Receive(id)) && IsCached(w.t.entries, id)
    ensures HaveFakes(w.t.entries, w.t.fakes) && NamesFakes(w.t)
    ensures WorldOk(Next(w, Receive(id), cacheMax))
  {
    hide Place;
    hide NamesOk;
    hide Consistent;
    hide Lasting;
    HaveNames(w.t);
    NamesConsistent(w, id);
    TranslatedOk(w.t, id, w.names[id], cacheMax);
    SortedTable(w.t);
    var v := Next(w, Receive(id), cacheMax);
    SortedTable(v.t);
    hide Sorted;
    hide IsCached;
    var i := Place(w.t.entries, id);
    var e0 := w.t.entries[i];
    assert e0 in w.t.entries;
    forall e | e in v.t.entries
      ensures Held(v.held, e.id) == e.refcount && e.id in v.names && v.names[e.id] == v.t.fakes[e.fake].cls
    {
      BumpedEntries(w.t.entries, i, e);
    }
    forall x | Held(v.held, x) > 0
      ensures IsCached(v.t.entries, x)
    {
      BumpedCached(w.t.entries, i, x);
    }
  }

  lemma {:induction false} KnownFake(t: Table, cls: Class)
    requires TableOk(t) && cls in t.bySignature
    ensures t.bySignature[cls] in t.fakes && t.fakes[t.bySignature[cls]].cls == cls
  {
  }

  /** A new ID finds its place, in a cache that has just been flushed or has room. */
  lemma {:induction false} ReceiveNew(w: World, id: Key, cls: Class, held: map<Key, nat>)
    requires TableOk(w.t) && Injective(w.names) && id in w.names && w.names[id] == cls && !IsCached(w.t.entries, id)
    requires forall e | e in w.t.entries :: Held(held, e.id) == e.refcount && e.id in w.names && w.names[e.id] == w.t.fakes[e.fake].cls
    requires forall x | Held(held, x) > 0 :: x == id || IsCached(w.t.entries, x)
    requires Held(held, id) == 1
    ensures cls in w.t.bySignature ==> w.t.bySignature[cls] in w.t.fakes
    ensures WorldOk(World(Added(w.t, id, cls), w.names, held))
  {
    hide Place;
    hide Sorted;
    hide NamesOk;
    SortedTable(w.t);
    CachedIn(w.t.entries, id);
    if cls in w.t.bySignature {
      KnownFake(w.t, cls);
    }
    AddedOk(w.t, id, cls);
    var u := Added(w.t, id, cls);
    forall e
      ensures e in u.entries <==> e in w.t.entries || e == Cached(id, 1, Named(w.t, cls).bySignature[cls])
    {
      AddedEntries(w.t, id, cls, e);
    }
    KnownFake(u, cls);
    forall x | Held(held, x) > 0
      ensures IsCached(u.entries, x)
    {
      SortedTable(u);
      SortedTable(w.t);
      CachedIn(w.t.entries, x);
      CachedIn(u.entries, x);
    }
  }

  /** What the VM counts of any type once the cache has been flushed for one that it has just sent. */
  lemma {:induction false} HeldAfterFlush(w: World, id: Key, x: Key)
    requires WorldOk(w) && !IsCached(w.t.entries, id)
    ensures Held(GiveBack(w.held[id := Held(w.held, id) + 1], Disposals(w.t.entries)), x)
         == if x == id then 1 else Leaked(Held(w.held, x))
  {
    hide Place;
    hide NamesOk;
    hide AsInt32;
    NothingLeaked(0);
    CachedIn(w.t.entries, id);
    CachedIn(w.t.entries, x);
    hide Leaked;
    GiveBackAll(w.held[id := Held(w.held, id) + 1], w.t.entries, x);
  }

  lemma {:induction false} CountSmall(w: World, x: Key)
    requires WorldOk(w) && SmallCounts(w.t)
    ensures Held(w.held, x) < UINT32_SIZE / 2
  {
    hide Place;
    hide NamesOk;
    CachedIn(w.t.entries, x);
  }

  lemma {:induction false} FlushLeaks(w: World, id: Key) returns (x: Key)
    requires WorldOk(w) && !IsCached(w.t.entries, id) && !SmallCounts(w.t)
    ensures x != id && Held(GiveBack(w.held[id := Held(w.held, id) + 1], Disposals(w.t.entries)), x) > 0
  {
    hide Place;
    hide NamesOk;
    hide GiveBack;
    hide Disposals;
    hide Leaked;
    CachedIn(w.t.entries, id);
    var e :| e in w.t.entries && e.refcount >= UINT32_SIZE / 2;
    x := e.id;
    HeldAfterFlush(w, id, x);
    NothingLeaked(Held(w.held, x));
  }

  ghost predicate OnlyHeld(held: map<Key, nat>, id: Key) {
    forall x: Key :: Held(held, x) == if x == id then 1 else 0
  }

  /**
    After a flush the VM holds nothing for the proxy but what it has just sent,
    exactly if no count was too large for a signed number.
   */
  lemma {:induction false} FlushGivesBack(w: World, id: Key)
    requires WorldOk(w) && !IsCached(w.t.entries, id)
    ensures var held := GiveBack(w.held[id := Held(w.held, id) + 1], Disposals(w.t.entries));
            SmallCounts(w.t) <==> OnlyHeld(held, id)
  {
    hide WorldOk;
    hide SmallCounts;
    hide IsCached;
    hide GiveBack;
    hide Disposals;
    hide Leaked;
    hide Held;
    var held := GiveBack(w.held[id := Held(w.held, id) + 1], Disposals(w.t.entries));
    if SmallCounts(w.t) {
      forall x: Key
        ensures Held(held, x) == if x == id then 1 else 0
      {
        HeldAfterFlush(w, id, x);
        CountSmall(w, x);
        NothingLeaked(Held(w.held, x));
      }
    } else {
      var x := FlushLeaks(w, id);
    }
  }

  lemma {:induction false} ReceiveFlushing(w: World, id: Key, cacheMax: nat)
    requires WorldOk(w) && Possible(w, Receive(id)) && !IsCached(w.t.entries, id) && |w.t.entries| >= cacheMax
    ensures HaveFakes(w.t.entries, w.t.fakes) && NamesFakes(w.t)
    ensures WorldOk(Next(w, Receive(id), cacheMax))
  {
    hide TableOk;
    hide GiveBack;
    hide Disposals;
    hide Held;
    HaveNames(w.t);
    FlushedOk(w.t);
    EmptyCache(Flushed(w.t).entries, id);
    var held := HeldAfter(w, id, cacheMax);
    FlushGivesBack(w, id);
    ReceiveNew(w.(t := Flushed(w.t)), id, w.names[id], held);
  }

  lemma {:induction false} NotHeld(w: World, id: Key)
    requires WorldOk(w) && !IsCached(w.t.entries, id)
    ensures Held(w.held, id) == 0 && forall e | e in w.t.entries :: e.id != id
  {
    CachedIn(w.t.entries, id);
  }

  lemma {:induction false} ReceiveWithRoom(w: World, id: Key, cacheMax: nat)
    requires WorldOk(w) && Possible(w, Receive(id)) && !IsCached(w.t.entries, id) && |w.t.entries| < cacheMax
    ensures HaveFakes(w.t.entries, w.t.fakes) && NamesFakes(w.t)
    ensures WorldOk(Next(w, Receive(id), cacheMax))
  {
    HaveNames(w.t);
    NotHeld(w, id);
    hide TableOk;
    hide IsCached;
    ReceiveNew(w, id, w.names[id], HeldAfter(w, id, cacheMax));
  }

  lemma {:induction false} ReceiveKeeps(w: World, id: Key, cacheMax: nat)
    requires WorldOk(w) && Possible(w, Receive(id))
    ensures HaveFakes(w.t.entries, w.t.fakes) && NamesFakes(w.t)
    ensures WorldOk(Next(w, Receive(id), cacheMax)) && Lasting(w.t, Next(w, Receive(id), cacheMax).t)
  {
    NamesConsistent(w, id);
    TranslatedOk(w.t, id, w.names[id], cacheMax);
    hide WorldOk;
    hide IsCached;
    if IsCached(w.t.entries, id) {
      ReceiveCached(w, id, cacheMax);
    } else if |w.t.entries| >= cacheMax {
      ReceiveFlushing(w, id, cacheMax);
    } else {
      ReceiveWithRoom(w, id, cacheMax);
    }
  }

  lemma {:induction false} RenameKeeps(w: World, names: map<Key, Class>)
    requires WorldOk(w) && Possible(w, Rename(names))
    ensures WorldOk(w.(names := names))
  {
  }

  lemma {:induction false} MarkTable(t: Table, f: nat)
    requires TableOk(t) && f in t.fakes
    ensures TableOk(t.(fakes := t.fakes[f := t.fakes[f].(wasUnloaded := true)]))
  {
    hide Sorted;
  }

  lemma {:induction false} MarkKeeps(w: World, f: nat)
    requires WorldOk(w) && f in w.t.fakes
    ensures var t := w.t.(fakes := w.t.fakes[f := w.t.fakes[f].(wasUnloaded := true)]);
            WorldOk(w.(t := t)) && Lasting(w.t, t)
  {
    hide IsCached;
    MarkTable(w.t, f);
  }

  lemma {:induction false} EventKeeps(w: World, e: Event, cacheMax: nat)
    requires WorldOk(w) && Possible(w, e)
    ensures HaveFakes(w.t.entries, w.t.fakes) && NamesFakes(w.t)
    ensures WorldOk(Next(w, e, cacheMax)) && Lasting(w.t, Next(w, e, cacheMax).t)
  {
    HaveNames(w.t);
    hide WorldOk;
    match e {
      case Rename(names) => RenameKeeps(w, names);
      case Receive(id) => ReceiveKeeps(w, id, cacheMax);
      case MarkUnloaded(f) => MarkKeeps(w, f);
    }
  }

  // ----- Main results -----

  ghost function Run(es: seq<Event>, cacheMax: nat): Option<World>
    decreases |es|
  {
    if es == [] then Some(World(Table([], map[], map[], 0), map[], map[]))
    else match Run(es[..|es| - 1], cacheMax)
      case None => None
      case Some(w) =>
        if Possible(w, es[|es| - 1]) && HaveFakes(w.t.entries, w.t.fakes) && NamesFakes(w.t)
        then Some(Next(w, es[|es| - 1], cacheMax)) else None
  }

  lemma {:induction false} NothingOk()
    ensures WorldOk(World(Table([], map[], map[], 0), map[], map[]))
  {
  }

  lemma {:induction false} RunOk(es: seq<Event>, cacheMax: nat)
    requires Run(es, cacheMax).Some?
    ensures WorldOk(Run(es, cacheMax).value)
    decreases |es|
  {
    hide WorldOk;
    if es == [] {
      NothingOk();
    } else {
      RunOk(es[..|es| - 1], cacheMax);
      EventKeeps(Run(es[..|es| - 1], cacheMax).value, es[|es| - 1], cacheMax);
    }
  }

  lemma {:induction false} LastingSame(t: Table)
    ensures Lasting(t, t)
  {
  }

  /** A fake ID, once given to a class, is that class's for the rest of the run, and no other's. */
  lemma {:induction false} FakesLast(es: seq<Event>, more: seq<Event>, cacheMax: nat)
    requires Run(es, cacheMax).Some? && Run(es + more, cacheMax).Some?
    ensures Lasting(Run(es, cacheMax).value.t, Run(es + more, cacheMax).value.t)
    decreases |more|
  {
    hide WorldOk;
    hide Lasting;
    if more == [] {
      assert es + more == es;
      LastingSame(Run(es, cacheMax).value.t);
    } else {
      var butLast := more[..|more| - 1];
      assert (es + more)[..|es + more| - 1] == es + butLast;
      FakesLast(es, butLast, cacheMax);
      var w := Run(es + butLast, cacheMax).value;
      RunOk(es + butLast, cacheMax);
      EventKeeps(w, more[|more| - 1], cacheMax);
      LastingTogether(Run(es, cacheMax).value.t, w.t, Run(es + more, cacheMax).value.t);
    }
  }

  /** A real ID that is cached has a fake, and that fake stands for it: translating there and back is the identity. */
  lemma {:induction false} CachedBothWays(es: seq<Event>, cacheMax: nat, e: Cached)
    requires Run(es, cacheMax).Some? && e in Run(es, cacheMax).value.t.entries
    ensures var w := Run(es, cacheMax).value;
            && e.fake in w.t.fakes && w.t.fakes[e.fake].realId == Some(e.id)
            && e.id in w.names && w.t.fakes[e.fake].cls == w.names[e.id]
            && w.names[e.id] in w.t.bySignature && w.t.bySignature[w.names[e.id]] == e.fake
  {
    RunOk(es, cacheMax);
  }

  /** The proxy's reference counts are exactly what the VM counts, whatever has been flushed. */
  lemma {:induction false} CountsAgree(es: seq<Event>, cacheMax: nat, id: Key)
    requires Run(es, cacheMax).Some?
    ensures var w := Run(es, cacheMax).value;
            Held(w.held, id) == if IsCached(w.t.entries, id) then w.t.entries[Place(w.t.entries, id)].refcount else 0
  {
    RunOk(es, cacheMax);
    var w := Run(es, cacheMax).value;
    if IsCached(w.t.entries, id) {
      assert w.t.entries[Place(w.t.entries, id)] in w.t.entries;
    }
  }
}
