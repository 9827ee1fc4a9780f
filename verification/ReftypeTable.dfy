/**
  The tables by which the JDWP proxy shows the debugger fake reference-type IDs
  that last for ever, in place of the app's real ones, which it soon gives back.
 */
module ReftypeTable {
  import opened Wrappers
  import opened SplayTrees

  const UINT32_SIZE := 0x1_0000_0000

  /** A class as the VM names it: its class loader and its signature. */
  datatype Class = Class(loader: nat, signature: string)

  /** A fake type, and the real one it stands for while that is known. */
  datatype Fake = Fake(cls: Class, realId: Option<Key>, wasUnloaded: bool)

  /** A real type, how often the app has sent it since it was last given back, and its fake. */
  datatype Cached = Cached(id: Key, refcount: nat, fake: nat)

  /** One entry of a command that gives objects back. */
  datatype Disposal = Disposal(id: Key, count: int)

  datatype Table = Table(
    entries: seq<Cached>,           // the cache in order of ID
    fakes: map<nat, Fake>,
    bySignature: map<Class, nat>,
    next: nat)

  // ----- Giving real types back -----

  /** jdwp_builder_i32 keeps 32 bits of a count, and they are a signed number. */
  function AsInt32(n: nat): int {
    var low := n % UINT32_SIZE;
    if low < UINT32_SIZE / 2 then low else low - UINT32_SIZE
  }

  function Disposals(entries: seq<Cached>): (r: seq<Disposal>)
    ensures |r| == |entries|
  {
    seq(|entries|, i requires 0 <= i < |entries| => Disposal(entries[i].id, AsInt32(entries[i].refcount)))
  }

  predicate HaveFakes(entries: seq<Cached>, fakes: map<nat, Fake>) {
    forall e | e in entries :: e.fake in fakes
  }

  /** The fake types of these entries no longer know their real type. */
  function Forget(fakes: map<nat, Fake>, entries: seq<Cached>): (r: map<nat, Fake>)
    requires HaveFakes(entries, fakes)
    ensures r.Keys == fakes.Keys
  {
    if entries == [] then fakes
    else
      var r, f := Forget(fakes, entries[..|entries| - 1]), entries[|entries| - 1].fake;
      r[f := r[f].(realId := None)]
  }

  function Flushed(t: Table): Table
    requires HaveFakes(t.entries, t.fakes)
  {
    t.(entries := [], fakes := Forget(t.fakes, t.entries))
  }

  // ----- Translating a real type -----

  /** The number of entries with a smaller ID. */
  function Place(entries: seq<Cached>, id: Key): (i: nat)
    ensures i <= |entries|
  {
    if entries == [] || entries[0].id >= id then 0 else 1 + Place(entries[1..], id)
  }

  predicate IsCached(entries: seq<Cached>, id: Key) {
    var i := Place(entries, id);
    i < |entries| && entries[i].id == id
  }

  /** The fake type of a class, made up if there is none. */
  function Named(t: Table, cls: Class): Table {
    if cls in t.bySignature then t
    else t.(fakes := t.fakes[t.next + 1 := Fake(cls, None, false)], bySignature := t.bySignature[cls := t.next + 1], next := t.next + 1)
  }

  function Added(t: Table, id: Key, cls: Class): Table
    requires cls in t.bySignature ==> t.bySignature[cls] in t.fakes
  {
    var u := Named(t, cls);
    var f, i := u.bySignature[cls], Place(t.entries, id);
    u.(entries := t.entries[..i] + [Cached(id, 1, f)] + t.entries[i..], fakes := u.fakes[f := u.fakes[f].(realId := Some(id))])
  }

  function Bumped(entries: seq<Cached>, i: nat): seq<Cached>
    requires i < |entries|
  {
    entries[i := entries[i].(refcount := entries[i].refcount + 1)]
  }

  predicate NamesFakes(t: Table) {
    forall c | c in t.bySignature :: t.bySignature[c] in t.fakes
  }

  /** translate_and_cache_real_reftype, for a type that the VM says is of this class. */
  function Translated(t: Table, id: Key, cls: Class, cacheMax: nat): Table
    requires HaveFakes(t.entries, t.fakes) && NamesFakes(t)
  {
    if IsCached(t.entries, id) then t.(entries := Bumped(t.entries, Place(t.entries, id)))
    else if |t.entries| >= cacheMax then Added(Flushed(t), id, cls)
    else Added(t, id, cls)
  }

  // ----- What every translation keeps -----

  predicate Sorted(entries: seq<Cached>) {
    forall i, j | 0 <= i < j < |entries| :: entries[i].id < entries[j].id
  }

  predicate NamesOk(t: Table) {
    && (forall f | f in t.fakes :: 0 < f <= t.next && t.fakes[f].cls in t.bySignature && t.bySignature[t.fakes[f].cls] == f)
    && (forall c | c in t.bySignature :: t.bySignature[c] in t.fakes && t.fakes[t.bySignature[c]].cls == c)
  }

  /** Real and fake types that know each other do so mutually; fake types and classes correspond one to one. */
  predicate TableOk(t: Table) {
    && Sorted(t.entries)
    && (forall e | e in t.entries :: e.refcount > 0 && e.fake in t.fakes && t.fakes[e.fake].realId == Some(e.id))
    && (forall f | f in t.fakes && t.fakes[f].realId.Some? ::
          exists e :: e in t.entries && e.fake == f && e.id == t.fakes[f].realId.value)
    && NamesOk(t)
  }

  /** The VM does not rename a class while the proxy holds its ID, nor give two IDs to one class. */
  predicate Consistent(t: Table, id: Key, cls: Class) {
    forall e | e in t.entries && e.fake in t.fakes :: e.id == id <==> t.fakes[e.fake].cls == cls
  }

  /** Every fake type there was is still there, under the same ID, for the same class. */
  predicate Lasting(t: Table, u: Table) {
    && (forall c | c in t.bySignature :: c in u.bySignature && u.bySignature[c] == t.bySignature[c])
    && (forall f | f in t.fakes :: f in u.fakes && u.fakes[f].cls == t.fakes[f].cls)
    && t.next <= u.next && (forall f | f in u.fakes && f !in t.fakes :: f > t.next)
  }

  lemma {:induction false} PlaceSplits(entries: seq<Cached>, id: Key)
    requires Sorted(entries)
    ensures forall i | 0 <= i < |entries| :: entries[i].id < id <==> i < Place(entries, id)
  {
    if entries != [] && entries[0].id < id {
      PlaceSplits(entries[1..], id);
      assert forall i | 1 <= i < |entries| :: entries[i] == entries[1..][i - 1];
    }
  }

  lemma {:induction false} CachedIn(entries: seq<Cached>, id: Key)
    requires Sorted(entries)
    ensures IsCached(entries, id) <==> exists e :: e in entries && e.id == id
  {
    PlaceSplits(entries, id);
    if exists e :: e in entries && e.id == id {
      var e :| e in entries && e.id == id;
      var i :| 0 <= i < |entries| && entries[i] == e;
    }
  }

  lemma {:induction false} ForgetIs(fakes: map<nat, Fake>, entries: seq<Cached>)
    requires HaveFakes(entries, fakes)
    ensures forall f | f in fakes ::
              Forget(fakes, entries)[f] == if exists e :: e in entries && e.fake == f then fakes[f].(realId := None) else fakes[f]
  {
    if entries != [] {
      var rest, last := entries[..|entries| - 1], entries[|entries| - 1];
      ForgetIs(fakes, rest);
      assert forall e :: e in entries <==> e in rest || e == last;
    }
  }

  /** Flushing forgets every real type, and nothing else. */
  lemma {:induction false} FlushedOk(t: Table)
    requires TableOk(t)
    ensures TableOk(Flushed(t)) && Lasting(t, Flushed(t))
    ensures forall f | f in t.fakes :: Flushed(t).fakes[f] == t.fakes[f].(realId := None)
  {
    ForgetIs(t.fakes, t.entries);
  }

  lemma {:induction false} NamedOk(t: Table, cls: Class)
    requires TableOk(t)
    ensures TableOk(Named(t, cls)) && Lasting(t, Named(t, cls)) && cls in Named(t, cls).bySignature
    ensures Named(t, cls).entries == t.entries
  {
  }

  lemma {:induction false} InsertedSorted(entries: seq<Cached>, e: Cached)
    requires Sorted(entries) && !IsCached(entries, e.id)
    ensures var i := Place(entries, e.id); Sorted(entries[..i] + [e] + entries[i..])
  {
    PlaceSplits(entries, e.id);
    var i := Place(entries, e.id);
    var r := entries[..i] + [e] + entries[i..];
    forall j, k | 0 <= j < k < |r|
      ensures r[j].id < r[k].id
    {
      assert j != i ==> r[j] == entries[if j < i then j else j - 1];
      assert k != i ==> r[k] == entries[if k < i then k else k - 1];
    }
  }

  lemma {:induction false} InsertedMembers(entries: seq<Cached>, i: nat, e: Cached, x: Cached)
    requires i <= |entries|
    ensures x in entries[..i] + [e] + entries[i..] <==> x in entries || x == e
  {
    assert entries == entries[..i] + entries[i..];
  }

  /** The fake type of a class whose real type is not cached knows no real type: translate_and_cache_real_reftype asserts it. */
  lemma {:induction false} FakeIsFree(t: Table, cls: Class)
    requires TableOk(t) && forall e | e in t.entries :: t.fakes[e.fake].cls != cls
    ensures var u := Named(t, cls); u.fakes[u.bySignature[cls]].realId == None
  {
    NamedOk(t, cls);
  }

  lemma {:induction false} AddedMutual(u: Table, v: Table, id: Key, f: nat)
    requires TableOk(u) && Sorted(v.entries) && f in u.fakes && u.fakes[f].realId == None
    requires forall x :: x in v.entries <==> x in u.entries || x == Cached(id, 1, f)
    requires v.fakes == u.fakes[f := u.fakes[f].(realId := Some(id))] && v.bySignature == u.bySignature && v.next == u.next
    ensures TableOk(v)
  {
    hide Sorted;
    assert Cached(id, 1, f) in v.entries;
    forall g | g in v.fakes && v.fakes[g].realId.Some?
      ensures exists e :: e in v.entries && e.fake == g && e.id == v.fakes[g].realId.value
    {
      if g != f {
        var e :| e in u.entries && e.fake == g && e.id == u.fakes[g].realId.value;
        assert e in v.entries;
      }
    }
  }

  lemma {:induction false} AddedOk(t: Table, id: Key, cls: Class)
    requires TableOk(t) && !IsCached(t.entries, id) && forall e | e in t.entries :: t.fakes[e.fake].cls != cls
    ensures TableOk(Added(t, id, cls)) && Lasting(t, Added(t, id, cls))
    ensures var u := Added(t, id, cls); cls in u.bySignature && Cached(id, 1, u.bySignature[cls]) in u.entries
  {
    hide Sorted;
    hide Place;
    hide IsCached;
    NamedOk(t, cls);
    FakeIsFree(t, cls);
    var u, v := Named(t, cls), Added(t, id, cls);
    var f, i := u.bySignature[cls], Place(t.entries, id);
    var added := Cached(id, 1, f);
    InsertedSorted(t.entries, added);
    forall x
      ensures x in v.entries <==> x in t.entries || x == added
    {
      InsertedMembers(t.entries, i, added, x);
    }
    AddedMutual(u, v, id, f);
  }

  lemma {:induction false} BumpedOk(t: Table, i: nat)
    requires TableOk(t) && i < |t.entries|
    ensures TableOk(t.(entries := Bumped(t.entries, i)))
  {
    var u := t.(entries := Bumped(t.entries, i));
    assert forall j | 0 <= j < |t.entries| :: u.entries[j].id == t.entries[j].id && u.entries[j].fake == t.entries[j].fake;
    forall e | e in u.entries
      ensures e.refcount > 0 && e.fake in u.fakes && u.fakes[e.fake].realId == Some(e.id)
    {
      var j :| 0 <= j < |u.entries| && u.entries[j] == e;
      assert t.entries[j] in t.entries;
    }
    forall f | f in u.fakes && u.fakes[f].realId.Some?
      ensures exists e :: e in u.entries && e.fake == f && e.id == u.fakes[f].realId.value
    {
      var e :| e in t.entries && e.fake == f && e.id == t.fakes[f].realId.value;
      var j :| 0 <= j < |t.entries| && t.entries[j] == e;
      assert u.entries[j] in u.entries;
    }
  }

  lemma {:induction false} EmptyCache(entries: seq<Cached>, id: Key)
    requires entries == []
    ensures !IsCached(entries, id)
  {
  }

  lemma {:induction false} HaveNames(t: Table)
    requires TableOk(t)
    ensures HaveFakes(t.entries, t.fakes) && NamesFakes(t)
  {
  }

  lemma {:induction false} KnownClass(t: Table, e: Cached, cls: Class)
    requires TableOk(t) && e in t.entries && t.fakes[e.fake].cls == cls
    ensures cls in t.bySignature && t.bySignature[cls] == e.fake
  {
  }

  lemma {:induction false} LastingTogether(t: Table, u: Table, v: Table)
    requires Lasting(t, u) && Lasting(u, v)
    ensures Lasting(t, v)
  {
  }

  /** Every translation keeps the tables consistent, and no fake ID ever changes its meaning. */
  lemma {:induction false} TranslatedOk(t: Table, id: Key, cls: Class, cacheMax: nat)
    requires TableOk(t) && Consistent(t, id, cls)
    ensures HaveFakes(t.entries, t.fakes) && NamesFakes(t)
    ensures var u := Translated(t, id, cls, cacheMax);
            && TableOk(u) && Lasting(t, u) && IsCached(u.entries, id)
            && cls in u.bySignature && u.bySignature[cls] in u.fakes && u.fakes[u.bySignature[cls]].realId == Some(id)
  {
    hide Sorted;
    hide Place;
    hide NamesOk;
    HaveNames(t);
    var u := Translated(t, id, cls, cacheMax);
    CachedIn(t.entries, id);
    if IsCached(t.entries, id) {
      var i := Place(t.entries, id);
      BumpedOk(t, i);
      assert u.entries[i] in u.entries;
      KnownClass(t, t.entries[i], cls);
    } else {
      FlushedOk(t);
      if |t.entries| >= cacheMax {
        EmptyCache(Flushed(t).entries, id);
        AddedOk(Flushed(t), id, cls);
        LastingTogether(t, Flushed(t), u);
      } else {
        AddedOk(t, id, cls);
      }
    }
    CachedIn(u.entries, id);
  }

  lemma {:induction false} BumpedCached(entries: seq<Cached>, i: nat, x: Key)
    requires Sorted(entries) && i < |entries|
    ensures Sorted(Bumped(entries, i)) && (IsCached(Bumped(entries, i), x) <==> IsCached(entries, x))
  {
    var r := Bumped(entries, i);
    assert forall j | 0 <= j < |r| :: r[j].id == entries[j].id;
    CachedIn(entries, x);
    CachedIn(r, x);
    if j :| 0 <= j < |r| && r[j].id == x {
      assert r[j] in r && entries[j] in entries;
    }
  }
}
