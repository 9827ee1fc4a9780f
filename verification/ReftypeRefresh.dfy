/**
  Translating a fake type back to a real one. When the real type has been given
  back, the VM is asked for all classes with the signature; caching its answer
  may flush the cache again, and with it the very type that was wanted.
 */
module ReftypeRefresh {
  import opened Wrappers
  import opened SplayTrees
  import opened ReftypeTable

  datatype Answer = Real(id: Key) | InvalidObject | InvalidClass

  /** One of the classes that the VM lists for a signature. */
  datatype Listed = Listed(id: Key, cls: Class)

  /** The list names each class once, and agrees with what is cached. */
  predicate ListOk(t: Table, list: seq<Listed>) {
    && (forall l | l in list :: Consistent(t, l.id, l.cls))
    && (forall i, j | 0 <= i < j < |list| :: list[i].id != list[j].id && list[i].cls != list[j].cls)
  }

  lemma {:induction false} TranslatedEntry(t: Table, id: Key, cls: Class, cacheMax: nat, x: Cached)
    requires TableOk(t) && Consistent(t, id, cls) && HaveFakes(t.entries, t.fakes) && NamesFakes(t)
    requires x in Translated(t, id, cls, cacheMax).entries
    ensures x.id != id ==> x in t.entries
  {
    if IsCached(t.entries, id) {
      var j :| 0 <= j < |t.entries| && Bumped(t.entries, Place(t.entries, id))[j] == x;
      assert t.entries[j] in t.entries;
    } else {
      var u := if |t.entries| >= cacheMax then Flushed(t) else t;
      InsertedMembers(u.entries, Place(u.entries, id), Cached(id, 1, Named(u, cls).bySignature[cls]), x);
    }
  }

  lemma {:induction false} TranslatedClass(t: Table, id: Key, cls: Class, cacheMax: nat, e: Cached)
    requires TableOk(t) && Consistent(t, id, cls) && HaveFakes(t.entries, t.fakes) && NamesFakes(t)
    requires e in Translated(t, id, cls, cacheMax).entries && e.id == id
    ensures var u := Translated(t, id, cls, cacheMax);
            e.fake in u.fakes && u.fakes[e.fake].cls == cls
  {
    TranslatedOk(t, id, cls, cacheMax);
    var u := Translated(t, id, cls, cacheMax);
    var f := u.bySignature[cls];
    var e' :| e' in u.entries && e'.fake == f && e'.id == id;
    OneEntry(u.entries, e, e');
  }

  lemma {:induction false} ConsistentKept(t: Table, id: Key, cls: Class, cacheMax: nat, id': Key, cls': Class)
    requires TableOk(t) && Consistent(t, id, cls) && Consistent(t, id', cls') && id != id' && cls != cls'
    requires HaveFakes(t.entries, t.fakes) && NamesFakes(t)
    ensures Consistent(Translated(t, id, cls, cacheMax), id', cls')
  {
    hide Translated;
    hide Sorted;
    TranslatedOk(t, id, cls, cacheMax);
    var u := Translated(t, id, cls, cacheMax);
    forall e | e in u.entries && e.fake in u.fakes
      ensures e.id == id' <==> u.fakes[e.fake].cls == cls'
    {
      TranslatedEntry(t, id, cls, cacheMax, e);
      if e.id == id {
        TranslatedClass(t, id, cls, cacheMax, e);
      }
    }
  }

  lemma {:induction false} ListTail(t: Table, list: seq<Listed>, cacheMax: nat)
    requires TableOk(t) && ListOk(t, list) && list != [] && HaveFakes(t.entries, t.fakes) && NamesFakes(t)
    ensures ListOk(Translated(t, list[0].id, list[0].cls, cacheMax), list[1..])
  {
    hide TableOk;
    hide Consistent;
    hide Translated;
    var u := Translated(t, list[0].id, list[0].cls, cacheMax);
    forall l | l in list[1..]
      ensures Consistent(u, l.id, l.cls)
    {
      var j :| 1 <= j < |list| && list[j] == l;
      ConsistentKept(t, list[0].id, list[0].cls, cacheMax, l.id, l.cls);
    }
  }

  /** refresh_classes_with_signature, for what the VM lists. */
  function Refreshed(t: Table, list: seq<Listed>, cacheMax: nat): Table
    requires TableOk(t) && ListOk(t, list)
    decreases |list|
  {
    if list == [] then t
    else
      TranslatedOk(t, list[0].id, list[0].cls, cacheMax);
      ListTail(t, list, cacheMax);
      Refreshed(Translated(t, list[0].id, list[0].cls, cacheMax), list[1..], cacheMax)
  }

  /** translate_fake_reftype_to_real_reftype; the list is what the VM would answer if it were asked. */
  function TranslatedBack(t: Table, fake: nat, list: seq<Listed>, cacheMax: nat): (Table, Answer)
    requires TableOk(t) && ListOk(t, list)
  {
    if fake !in t.fakes then (t, InvalidObject)
    else
      var u := if t.fakes[fake].realId.None? && !t.fakes[fake].wasUnloaded then Refreshed(t, list, cacheMax) else t;
      if fake !in u.fakes then (u, InvalidObject)
      else if u.fakes[fake].realId.None? then (u.(fakes := u.fakes[fake := u.fakes[fake].(wasUnloaded := true)]), InvalidClass)
      else (u, Real(u.fakes[fake].realId.value))
  }

  // ----- One translation, seen from the other types -----

  lemma {:induction false} OneEntry(entries: seq<Cached>, a: Cached, b: Cached)
    requires Sorted(entries) && a in entries && b in entries && a.id == b.id
    ensures a == b
  {
  }

  lemma {:induction false} AddedCaches(t: Table, id: Key, cls: Class, x: Key)
    requires TableOk(t) && !IsCached(t.entries, id) && (cls in t.bySignature ==> t.bySignature[cls] in t.fakes)
    requires Sorted(Added(t, id, cls).entries)
    ensures IsCached(Added(t, id, cls).entries, x) <==> x == id || IsCached(t.entries, x)
    ensures |Added(t, id, cls).entries| == |t.entries| + 1
  {
    hide Place;
    hide NamesOk;
    var added := Cached(id, 1, Named(t, cls).bySignature[cls]);
    var u := Added(t, id, cls);
    CachedIn(t.entries, x);
    CachedIn(u.entries, x);
    hide Sorted;
    hide IsCached;
    forall e
      ensures e in u.entries <==> e in t.entries || e == added
    {
      InsertedMembers(t.entries, Place(t.entries, id), added, e);
    }
    assert added in u.entries;
  }

  /** Which IDs are cached after a translation, and how many. */
  lemma {:induction false} TranslatedCaches(t: Table, id: Key, cls: Class, cacheMax: nat, x: Key)
    requires TableOk(t) && Consistent(t, id, cls) && HaveFakes(t.entries, t.fakes) && NamesFakes(t)
    ensures var u, flush := Translated(t, id, cls, cacheMax), !IsCached(t.entries, id) && |t.entries| >= cacheMax;
            && (x != id ==> (IsCached(u.entries, x) <==> !flush && IsCached(t.entries, x)))
            && |u.entries| == if flush then 1 else |t.entries| + if IsCached(t.entries, id) then 0 else 1
  {
    hide Place;
    hide NamesOk;
    hide Sorted;
    hide Added;
    TranslatedOk(t, id, cls, cacheMax);
    if IsCached(t.entries, id) {
      BumpedCached(t.entries, Place(t.entries, id), x);
    } else if |t.entries| >= cacheMax {
      FlushedOk(t);
      EmptyCache(Flushed(t).entries, id);
      EmptyCache(Flushed(t).entries, x);
      AddedCaches(Flushed(t), id, cls, x);
    } else {
      AddedCaches(t, id, cls, x);
    }
  }

  // ----- When the wanted type survives -----

  function CountNew(entries: seq<Cached>, list: seq<Listed>): nat {
    if list == [] then 0 else (if IsCached(entries, list[0].id) then 0 else 1) + CountNew(entries, list[1..])
  }

  predicate InList(list: seq<Listed>, id: Key) {
    exists l :: l in list && l.id == id
  }

  lemma {:induction false} CountNewSame(a: seq<Cached>, b: seq<Cached>, list: seq<Listed>)
    requires forall l | l in list :: IsCached(a, l.id) <==> IsCached(b, l.id)
    ensures CountNew(a, list) == CountNew(b, list)
  {
    hide IsCached;
    if list != [] {
      assert list[0] in list;
      CountNewSame(a, b, list[1..]);
    }
  }

  /** What one listed class does to the cache and to the count of those still to come. */
  lemma {:induction false} ListStep(t: Table, list: seq<Listed>, cacheMax: nat, id: Key)
    requires TableOk(t) && ListOk(t, list) && list != [] && !InList(list, id)
    ensures HaveFakes(t.entries, t.fakes) && NamesFakes(t)
    ensures var u, rest := Translated(t, list[0].id, list[0].cls, cacheMax), list[1..];
            var known := IsCached(t.entries, list[0].id);
            var flush := !known && |t.entries| >= cacheMax;
            && TableOk(u) && ListOk(u, rest) && !InList(rest, id)
            && (IsCached(u.entries, id) <==> !flush && IsCached(t.entries, id))
            && |u.entries| == (if flush then 1 else |t.entries| + if known then 0 else 1)
            && (!flush ==> CountNew(u.entries, rest) == CountNew(t.entries, rest))
  {
    hide TableOk;
    hide Consistent;
    hide IsCached;
    hide Translated;
    HaveNames(t);
    var x := list[0];
    assert x in list;
    TranslatedOk(t, x.id, x.cls, cacheMax);
    ListTail(t, list, cacheMax);
    var u, rest := Translated(t, x.id, x.cls, cacheMax), list[1..];
    TranslatedCaches(t, x.id, x.cls, cacheMax, id);
    if IsCached(t.entries, x.id) || |t.entries| < cacheMax {
      forall l | l in rest
        ensures IsCached(t.entries, l.id) <==> IsCached(u.entries, l.id)
      {
        var j :| 1 <= j < |list| && list[j] == l;
        TranslatedCaches(t, x.id, x.cls, cacheMax, l.id);
      }
      CountNewSame(t.entries, u.entries, rest);
    }
  }

  lemma {:induction false} Lost(t: Table, list: seq<Listed>, cacheMax: nat, id: Key)
    requires TableOk(t) && ListOk(t, list) && !InList(list, id) && !IsCached(t.entries, id)
    ensures !IsCached(Refreshed(t, list, cacheMax).entries, id)
    decreases |list|
  {
    hide TableOk;
    hide ListOk;
    hide IsCached;
    hide Translated;
    hide InList;
    if list != [] {
      ListStep(t, list, cacheMax, id);
      Lost(Translated(t, list[0].id, list[0].cls, cacheMax), list[1..], cacheMax, id);
    }
  }

  /** A cached type is still cached after a refresh exactly if everything new in the list fits in beside it. */
  lemma {:induction false} Survives(t: Table, list: seq<Listed>, cacheMax: nat, id: Key)
    requires TableOk(t) && ListOk(t, list) && !InList(list, id)
    requires IsCached(t.entries, id) && |t.entries| <= cacheMax
    ensures IsCached(Refreshed(t, list, cacheMax).entries, id) <==> |t.entries| + CountNew(t.entries, list) <= cacheMax
    decreases |list|
  {
    hide TableOk;
    hide ListOk;
    hide IsCached;
    hide Translated;
    hide InList;
    if list != [] {
      ListStep(t, list, cacheMax, id);
      var u := Translated(t, list[0].id, list[0].cls, cacheMax);
      if IsCached(t.entries, list[0].id) || |t.entries| < cacheMax {
        Survives(u, list[1..], cacheMax, id);
      } else {
        Lost(u, list[1..], cacheMax, id);
      }
    }
  }

  // ----- Main results -----

  /** A type that the VM names by this ID is known to its fake exactly while it is cached. */
  lemma {:induction false} KnownWhileCached(t: Table, id: Key, cls: Class)
    requires TableOk(t) && Consistent(t, id, cls) && cls in t.bySignature
    ensures var f := t.bySignature[cls];
            f in t.fakes && t.fakes[f].realId == if IsCached(t.entries, id) then Some(id) else None
  {
    hide Place;
    CachedIn(t.entries, id);
    var f := t.bySignature[cls];
    if IsCached(t.entries, id) {
      var e :| e in t.entries && e.id == id;
      assert t.bySignature[t.fakes[e.fake].cls] == e.fake;
    }
    if t.fakes[f].realId.Some? {
      var e :| e in t.entries && e.fake == f && e.id == t.fakes[f].realId.value;
    }
  }

  lemma {:induction false} ListHead(t: Table, list: seq<Listed>)
    requires ListOk(t, list) && list != []
    ensures Consistent(t, list[0].id, list[0].cls)
  {
  }

  lemma {:induction false} LastingSame(t: Table)
    ensures Lasting(t, t)
  {
  }

  lemma {:induction false} RefreshKeeps(t: Table, list: seq<Listed>, cacheMax: nat)
    requires TableOk(t) && ListOk(t, list)
    ensures TableOk(Refreshed(t, list, cacheMax)) && Lasting(t, Refreshed(t, list, cacheMax))
    decreases |list|
  {
    hide TableOk;
    hide ListOk;
    hide Translated;
    hide Lasting;
    if list == [] {
      LastingSame(t);
    } else {
      ListHead(t, list);
      TranslatedOk(t, list[0].id, list[0].cls, cacheMax);
      ListTail(t, list, cacheMax);
      var u := Translated(t, list[0].id, list[0].cls, cacheMax);
      RefreshKeeps(u, list[1..], cacheMax);
      LastingTogether(t, u, Refreshed(t, list, cacheMax));
    }
  }

  lemma {:induction false} RefreshConsistent(t: Table, list: seq<Listed>, cacheMax: nat, id: Key, cls: Class)
    requires TableOk(t) && ListOk(t, list) && Consistent(t, id, cls)
    requires forall l | l in list :: l.id != id && l.cls != cls
    ensures TableOk(Refreshed(t, list, cacheMax)) && Consistent(Refreshed(t, list, cacheMax), id, cls)
    decreases |list|
  {
    hide TableOk;
    hide Consistent;
    hide Translated;
    if list != [] {
      assert list[0] in list;
      TranslatedOk(t, list[0].id, list[0].cls, cacheMax);
      ListTail(t, list, cacheMax);
      ConsistentKept(t, list[0].id, list[0].cls, cacheMax, id, cls);
      RefreshConsistent(Translated(t, list[0].id, list[0].cls, cacheMax), list[1..], cacheMax, id, cls);
    }
  }

  lemma {:induction false} ListStart(t: Table, list: seq<Listed>, n: nat)
    requires ListOk(t, list) && n <= |list|
    ensures ListOk(t, list[..n])
  {
  }

  /** The list up to one of its classes, and from there on. */
  lemma {:induction false} RefreshSplit(t: Table, list: seq<Listed>, n: nat, cacheMax: nat)
    requires TableOk(t) && ListOk(t, list) && n <= |list|
    ensures ListOk(t, list[..n])
    ensures var u := Refreshed(t, list[..n], cacheMax);
            TableOk(u) && ListOk(u, list[n..]) && Refreshed(t, list, cacheMax) == Refreshed(u, list[n..], cacheMax)
    decreases |list|
  {
    hide TableOk;
    hide ListOk;
    hide Translated;
    hide IsCached;
    hide Lasting;
    hide HaveFakes;
    hide NamesFakes;
    hide Consistent;
    ListStart(t, list, n);
    if n == 0 {
      assert list[n..] == list && list[..n] == [];
    } else {
      var x := list[0];
      ListHead(t, list);
      TranslatedOk(t, x.id, x.cls, cacheMax);
      ListTail(t, list, cacheMax);
      RefreshSplit(Translated(t, x.id, x.cls, cacheMax), list[1..], n - 1, cacheMax);
      assert list[..n][1..] == list[1..][..n - 1] && list[1..][n - 1..] == list[n..];
    }
  }

  lemma {:induction false} RefreshSize(t: Table, list: seq<Listed>, cacheMax: nat)
    requires TableOk(t) && ListOk(t, list) && |t.entries| <= cacheMax && 0 < cacheMax
    ensures |Refreshed(t, list, cacheMax).entries| <= cacheMax
    decreases |list|
  {
    hide TableOk;
    hide Translated;
    hide Consistent;
    if list != [] {
      assert list[0] in list;
      TranslatedOk(t, list[0].id, list[0].cls, cacheMax);
      TranslatedCaches(t, list[0].id, list[0].cls, cacheMax, list[0].id);
      ListTail(t, list, cacheMax);
      RefreshSize(Translated(t, list[0].id, list[0].cls, cacheMax), list[1..], cacheMax);
    }
  }

  lemma {:induction false} ConsistentSelf(t: Table, id: Key, cls: Class, cacheMax: nat)
    requires TableOk(t) && Consistent(t, id, cls) && HaveFakes(t.entries, t.fakes) && NamesFakes(t)
    ensures Consistent(Translated(t, id, cls, cacheMax), id, cls)
  {
    hide Translated;
    hide Sorted;
    TranslatedOk(t, id, cls, cacheMax);
    var u := Translated(t, id, cls, cacheMax);
    forall e | e in u.entries && e.fake in u.fakes
      ensures e.id == id <==> u.fakes[e.fake].cls == cls
    {
      TranslatedEntry(t, id, cls, cacheMax, e);
      if e.id == id {
        TranslatedClass(t, id, cls, cacheMax, e);
      }
    }
  }

  lemma {:induction false} RefreshOnly(t: Table, x: Listed, cacheMax: nat)
    requires TableOk(t) && ListOk(t, [x])
    ensures var u := Refreshed(t, [x], cacheMax);
            TableOk(u) && IsCached(u.entries, x.id) && Consistent(u, x.id, x.cls) && x.cls in u.bySignature
  {
    assert x in [x];
    TranslatedOk(t, x.id, x.cls, cacheMax);
    ListTail(t, [x], cacheMax);
    hide TableOk;
    hide Translated;
    hide IsCached;
    hide Lasting;
    var u := Translated(t, x.id, x.cls, cacheMax);
    assert Refreshed(t, [x], cacheMax) == u;
    ConsistentSelf(t, x.id, x.cls, cacheMax);
  }

  /** After its own turn the class is cached, and nothing later in the list names it. */
  lemma {:induction false} RefreshOne(t: Table, list: seq<Listed>, p: nat, cacheMax: nat)
    requires TableOk(t) && ListOk(t, list) && p < |list|
    ensures ListOk(t, list[..p + 1])
    ensures var u := Refreshed(t, list[..p + 1], cacheMax);
            && TableOk(u) && IsCached(u.entries, list[p].id) && Consistent(u, list[p].id, list[p].cls)
            && list[p].cls in u.bySignature
    ensures !InList(list[p + 1..], list[p].id) && forall l | l in list[p + 1..] :: l.id != list[p].id && l.cls != list[p].cls
  {
    ListStart(t, list, p + 1);
    hide TableOk;
    hide Consistent;
    hide Translated;
    hide IsCached;
    var head, x := list[..p + 1], list[p];
    RefreshSplit(t, head, p, cacheMax);
    assert head[p..] == [x];
    var before := Refreshed(t, head[..p], cacheMax);
    RefreshOnly(before, x, cacheMax);
    forall l | l in list[p + 1..]
      ensures l.id != x.id && l.cls != x.cls
    {
      var j :| p + 1 <= j < |list| && list[j] == l;
    }
  }

  /**
    A fake type whose class the VM lists is translated to the real one exactly if
    what the list names after it fits into the cache beside what is there by then.
    Otherwise the cache is flushed on the way, and the class is taken for unloaded.
   */
  lemma {:induction false} FoundIfItFits(t: Table, fake: nat, list: seq<Listed>, p: nat, cacheMax: nat)
    requires TableOk(t) && ListOk(t, list) && |t.entries| <= cacheMax && 0 < cacheMax
    requires fake in t.fakes && t.fakes[fake].realId.None? && !t.fakes[fake].wasUnloaded
    requires p < |list| && list[p].cls == t.fakes[fake].cls
    ensures ListOk(t, list[..p + 1])
    ensures var u := Refreshed(t, list[..p + 1], cacheMax);
            var fits := |u.entries| + CountNew(u.entries, list[p + 1..]) <= cacheMax;
            TranslatedBack(t, fake, list, cacheMax).1 == if fits then Real(list[p].id) else InvalidClass
  {
    var x := list[p];
    RefreshSplit(t, list, p, cacheMax);
    RefreshSplit(t, list, p + 1, cacheMax);
    var before, u := Refreshed(t, list[..p], cacheMax), Refreshed(t, list[..p + 1], cacheMax);
    RefreshOne(t, list, p, cacheMax);
    RefreshSize(t, list[..p + 1], cacheMax);
    Survives(u, list[p + 1..], cacheMax, x.id);
    RefreshConsistent(u, list[p + 1..], cacheMax, x.id, x.cls);
    RefreshKeeps(t, list, cacheMax);
    KnownWhileCached(Refreshed(t, list, cacheMax), x.id, x.cls);
  }

  // ----- The same, from the table there was and the list alone -----

  /** The first place in the list where the cache overflows, if it has that much room; the list's length if it does nowhere. */
  function FirstFlush(entries: seq<Cached>, list: seq<Listed>, room: nat): (f: nat)
    ensures f <= |list|
  {
    if list == [] then 0
    else if IsCached(entries, list[0].id) then 1 + FirstFlush(entries, list[1..], room)
    else if room == 0 then 0
    else 1 + FirstFlush(entries, list[1..], room - 1)
  }

  lemma {:induction false} FlushIfFull(entries: seq<Cached>, list: seq<Listed>, room: nat)
    ensures FirstFlush(entries, list, room) == |list| <==> CountNew(entries, list) <= room
  {
    hide IsCached;
    if list != [] {
      if IsCached(entries, list[0].id) {
        FlushIfFull(entries, list[1..], room);
      } else if room > 0 {
        FlushIfFull(entries, list[1..], room - 1);
      }
    }
  }

  lemma {:induction false} FlushInPart(entries: seq<Cached>, list: seq<Listed>, room: nat, n: nat)
    requires n <= |list|
    ensures var f := FirstFlush(entries, list, room); FirstFlush(entries, list[..n], room) == if f < n then f else n
  {
    hide IsCached;
    if n > 0 {
      assert list[..n][1..] == list[1..][..n - 1];
      if IsCached(entries, list[0].id) {
        FlushInPart(entries, list[1..], room, n - 1);
      } else if room > 0 {
        FlushInPart(entries, list[1..], room - 1, n - 1);
      }
    }
  }

  lemma {:induction false} FirstFlushSame(a: seq<Cached>, b: seq<Cached>, list: seq<Listed>, room: nat)
    requires forall l | l in list :: IsCached(a, l.id) <==> IsCached(b, l.id)
    ensures FirstFlush(a, list, room) == FirstFlush(b, list, room)
  {
    hide IsCached;
    if list != [] {
      assert list[0] in list;
      FirstFlushSame(a, b, list[1..], room);
      if room > 0 {
        FirstFlushSame(a, b, list[1..], room - 1);
      }
    }
  }

  lemma {:induction false} AllNew(entries: seq<Cached>, list: seq<Listed>, room: nat)
    requires forall l | l in list :: !IsCached(entries, l.id)
    ensures CountNew(entries, list) == |list|
    ensures FirstFlush(entries, list, room) == if |list| <= room then |list| else room
  {
    hide IsCached;
    if list != [] {
      assert list[0] in list;
      AllNew(entries, list[1..], room);
      if room > 0 {
        AllNew(entries, list[1..], room - 1);
      }
    }
  }

  lemma {:induction false} CountInTwo(entries: seq<Cached>, list: seq<Listed>, n: nat)
    requires n <= |list|
    ensures CountNew(entries, list) == CountNew(entries, list[..n]) + CountNew(entries, list[n..])
  {
    hide IsCached;
    if n > 0 {
      assert list[..n][1..] == list[1..][..n - 1] && list[n..] == list[1..][n - 1..];
      CountInTwo(entries, list[1..], n - 1);
    }
  }

  /** A refresh makes of what is cached of types that it does not list: all, or nothing once the cache has overflowed. */
  lemma {:induction false} CachedElsewhere(t: Table, list: seq<Listed>, cacheMax: nat, id: Key)
    requires TableOk(t) && ListOk(t, list) && |t.entries| <= cacheMax && !InList(list, id)
    ensures IsCached(Refreshed(t, list, cacheMax).entries, id)
       <==> FirstFlush(t.entries, list, cacheMax - |t.entries|) == |list| && IsCached(t.entries, id)
  {
    hide IsCached;
    hide FirstFlush;
    hide Refreshed;
    FlushIfFull(t.entries, list, cacheMax - |t.entries|);
    if IsCached(t.entries, id) {
      Survives(t, list, cacheMax, id);
    } else {
      Lost(t, list, cacheMax, id);
    }
  }

  lemma {:induction false} NotInRest(t: Table, list: seq<Listed>, n: nat, l: Listed)
    requires ListOk(t, list) && n <= |list| && l in list[n..]
    ensures !InList(list[..n], l.id)
  {
    var j :| n <= j < |list| && list[j] == l;
    forall k | 0 <= k < n
      ensures list[k].id != l.id
    {
    }
  }

  lemma {:induction false} MoreTimes(a: int, b: int, d: nat)
    requires a < b
    ensures a * d + d <= b * d
  {
    var k := b - a;
    assert b * d == a * d + k * d;
    assert k * d == (k - 1) * d + d;
    assert (k - 1) * d >= 0;
  }

  lemma {:induction false} DivUnique(n: nat, d: nat, q: nat, r: nat)
    requires n == q * d + r && r < d
    ensures n / d == q && n % d == r
  {
    var k, m := n / d, n % d;
    assert n == k * d + m;
    if k < q {
      MoreTimes(k, q, d);
    } else if k > q {
      MoreTimes(q, k, d);
    }
  }

  lemma {:induction false} BlockMore(n: nat, cacheMax: nat)
    requires 0 < cacheMax <= n
    ensures (n - cacheMax) % cacheMax == n % cacheMax
  {
    var q, r := n / cacheMax, n % cacheMax;
    assert n == q * cacheMax + r;
    assert n - cacheMax == (q - 1) * cacheMax + r;
    DivUnique(n - cacheMax, cacheMax, q - 1, r);
  }

  /** How much is cached once n more types have followed the one that made the cache overflow. */
  function SizeAfter(n: nat, cacheMax: nat): nat
    requires 0 < cacheMax
  {
    n % cacheMax + 1
  }

  lemma {:induction false} SizeAfterFlush(n: nat, cacheMax: nat)
    requires 0 < cacheMax
    ensures n < cacheMax ==> SizeAfter(n, cacheMax) == n + 1
    ensures n >= cacheMax ==> SizeAfter(n - cacheMax, cacheMax) == SizeAfter(n, cacheMax)
  {
    if n >= cacheMax {
      BlockMore(n, cacheMax);
    } else {
      DivUnique(n, cacheMax, 0, n);
    }
  }

  lemma {:induction false} RestAllNew(t: Table, list: seq<Listed>, cacheMax: nat)
    requires TableOk(t) && ListOk(t, list) && list != [] && !IsCached(t.entries, list[0].id) && |t.entries| >= cacheMax
    ensures HaveFakes(t.entries, t.fakes) && NamesFakes(t)
    ensures forall l | l in list[1..] :: !IsCached(Translated(t, list[0].id, list[0].cls, cacheMax).entries, l.id)
  {
    hide TableOk;
    hide Consistent;
    hide IsCached;
    hide Translated;
    HaveNames(t);
    assert list[0] in list;
    forall l | l in list[1..]
      ensures !IsCached(Translated(t, list[0].id, list[0].cls, cacheMax).entries, l.id)
    {
      var j :| 1 <= j < |list| && list[j] == l;
      TranslatedCaches(t, list[0].id, list[0].cls, cacheMax, l.id);
    }
  }

  lemma {:induction false} RestSame(t: Table, list: seq<Listed>, cacheMax: nat)
    requires TableOk(t) && ListOk(t, list) && list != [] && (IsCached(t.entries, list[0].id) || |t.entries| < cacheMax)
    ensures HaveFakes(t.entries, t.fakes) && NamesFakes(t)
    ensures var u := Translated(t, list[0].id, list[0].cls, cacheMax);
            forall l | l in list[1..] :: IsCached(u.entries, l.id) <==> IsCached(t.entries, l.id)
  {
    hide TableOk;
    hide Consistent;
    hide IsCached;
    hide Translated;
    HaveNames(t);
    assert list[0] in list;
    forall l | l in list[1..]
      ensures IsCached(Translated(t, list[0].id, list[0].cls, cacheMax).entries, l.id) <==> IsCached(t.entries, l.id)
    {
      var j :| 1 <= j < |list| && list[j] == l;
      TranslatedCaches(t, list[0].id, list[0].cls, cacheMax, l.id);
    }
  }

  lemma {:induction false} SizeStep(t: Table, list: seq<Listed>, cacheMax: nat)
    requires TableOk(t) && ListOk(t, list) && list != [] && |t.entries| <= cacheMax && 0 < cacheMax
    ensures HaveFakes(t.entries, t.fakes) && NamesFakes(t)
    ensures var u := Translated(t, list[0].id, list[0].cls, cacheMax);
            var known := IsCached(t.entries, list[0].id);
            && TableOk(u) && ListOk(u, list[1..])
            && |u.entries| == (if !known && |t.entries| >= cacheMax then 1 else |t.entries| + if known then 0 else 1)
  {
    hide TableOk;
    hide Consistent;
    hide IsCached;
    hide Translated;
    HaveNames(t);
    var x := list[0];
    assert x in list;
    TranslatedOk(t, x.id, x.cls, cacheMax);
    ListTail(t, list, cacheMax);
    TranslatedCaches(t, x.id, x.cls, cacheMax, x.id);
  }

  /** How much is cached after a refresh. */
  lemma {:induction false} SizeRefreshed(t: Table, list: seq<Listed>, cacheMax: nat)
    requires TableOk(t) && ListOk(t, list) && |t.entries| <= cacheMax && 0 < cacheMax
    ensures var f := FirstFlush(t.entries, list, cacheMax - |t.entries|);
            |Refreshed(t, list, cacheMax).entries| ==
              if f == |list| then |t.entries| + CountNew(t.entries, list) else SizeAfter(|list| - 1 - f, cacheMax)
    decreases |list|
  {
    hide SizeAfter;
    hide TableOk;
    hide ListOk;
    hide IsCached;
    hide Translated;
    if list != [] {
      SizeStep(t, list, cacheMax);
      var u, rest := Translated(t, list[0].id, list[0].cls, cacheMax), list[1..];
      SizeRefreshed(u, rest, cacheMax);
      if IsCached(t.entries, list[0].id) || |t.entries| < cacheMax {
        RestSame(t, list, cacheMax);
        CountNewSame(t.entries, u.entries, rest);
        FirstFlushSame(t.entries, u.entries, rest, cacheMax - |u.entries|);
      } else {
        RestAllNew(t, list, cacheMax);
        AllNew(u.entries, rest, cacheMax - 1);
        SizeAfterFlush(|rest|, cacheMax);
      }
    }
  }

  lemma {:induction false} SameBlock(a: nat, b: nat, cacheMax: nat)
    requires 0 < cacheMax && a <= b
    ensures a % cacheMax + 1 + (b - a) <= cacheMax <==> a / cacheMax == b / cacheMax
  {
    var q, r := a / cacheMax, a % cacheMax;
    assert a == q * cacheMax + r;
    if r + (b - a) < cacheMax {
      DivUnique(b, cacheMax, q, r + (b - a));
    } else {
      assert b == b / cacheMax * cacheMax + b % cacheMax;
    }
  }

  /** After part of the list, of the others all is cached that was, or nothing after an overflow. */
  lemma {:induction false} RestCached(t: Table, list: seq<Listed>, n: nat, cacheMax: nat)
    requires TableOk(t) && ListOk(t, list) && |t.entries| <= cacheMax && n <= |list| && ListOk(t, list[..n])
    ensures var u, kept := Refreshed(t, list[..n], cacheMax), FirstFlush(t.entries, list[..n], cacheMax - |t.entries|) == n;
            forall l | l in list[n..] :: IsCached(u.entries, l.id) <==> kept && IsCached(t.entries, l.id)
  {
    hide TableOk;
    hide ListOk;
    hide IsCached;
    hide FirstFlush;
    hide Refreshed;
    hide InList;
    forall l | l in list[n..]
      ensures IsCached(Refreshed(t, list[..n], cacheMax).entries, l.id)
         <==> FirstFlush(t.entries, list[..n], cacheMax - |t.entries|) == n && IsCached(t.entries, l.id)
    {
      NotInRest(t, list, n, l);
      CachedElsewhere(t, list[..n], cacheMax, l.id);
    }
  }

  lemma {:induction false} FitsInLastPart(t: Table, list: seq<Listed>, p: nat, cacheMax: nat)
    requires TableOk(t) && ListOk(t, list) && |t.entries| <= cacheMax && 0 < cacheMax && p < |list| && ListOk(t, list[..p + 1])
    ensures var u, f := Refreshed(t, list[..p + 1], cacheMax), FirstFlush(t.entries, list, cacheMax - |t.entries|);
            (|u.entries| + CountNew(u.entries, list[p + 1..]) <= cacheMax) <==>
              f == |list| || (p >= f && (p - f) / cacheMax == (|list| - 1 - f) / cacheMax)
  {
    hide TableOk;
    hide ListOk;
    hide IsCached;
    hide FirstFlush;
    hide CountNew;
    hide Refreshed;
    var room := cacheMax - |t.entries|;
    var f, start, rest := FirstFlush(t.entries, list, room), list[..p + 1], list[p + 1..];
    FlushInPart(t.entries, list, room, p + 1);
    SizeRefreshed(t, start, cacheMax);
    RestCached(t, list, p + 1, cacheMax);
    var u := Refreshed(t, start, cacheMax);
    if f > p {
      CountNewSame(u.entries, t.entries, rest);
      CountInTwo(t.entries, list, p + 1);
      FlushIfFull(t.entries, list, room);
    } else {
      AllNew(u.entries, rest, 0);
      SameBlock(p - f, |list| - 1 - f, cacheMax);
    }
  }

  /**
    The class is found exactly if the list overflows the cache nowhere, or is in
    the part of the list that starts with the last overflow: the first one, and
    then one every cacheMax places.
   */
  lemma {:induction false} FoundInLastPart(t: Table, fake: nat, list: seq<Listed>, p: nat, cacheMax: nat)
    requires TableOk(t) && ListOk(t, list) && |t.entries| <= cacheMax && 0 < cacheMax
    requires fake in t.fakes && t.fakes[fake].realId.None? && !t.fakes[fake].wasUnloaded
    requires p < |list| && list[p].cls == t.fakes[fake].cls
    ensures var f := FirstFlush(t.entries, list, cacheMax - |t.entries|);
            var found := f == |list| || (p >= f && (p - f) / cacheMax == (|list| - 1 - f) / cacheMax);
            TranslatedBack(t, fake, list, cacheMax).1 == if found then Real(list[p].id) else InvalidClass
  {
    hide TableOk;
    hide ListOk;
    hide IsCached;
    hide FirstFlush;
    hide CountNew;
    hide Refreshed;
    hide TranslatedBack;
    hide InList;
    FoundIfItFits(t, fake, list, p, cacheMax);
    FitsInLastPart(t, list, p, cacheMax);
  }

  /** A fake type whose real type is cached is translated at once, and translating changes nothing. */
  lemma {:induction false} FoundIfCached(t: Table, id: Key, cls: Class, list: seq<Listed>, cacheMax: nat)
    requires TableOk(t) && ListOk(t, list) && Consistent(t, id, cls) && IsCached(t.entries, id)
    ensures cls in t.bySignature && TranslatedBack(t, t.bySignature[cls], list, cacheMax) == (t, Real(id))
  {
    hide Place;
    CachedIn(t.entries, id);
    var e :| e in t.entries && e.id == id;
    assert t.bySignature[t.fakes[e.fake].cls] == e.fake;
    KnownWhileCached(t, id, cls);
  }

  lemma {:induction false} NotCached(t: Table, id: Key, cls: Class, fake: nat)
    requires TableOk(t) && Consistent(t, id, cls) && fake in t.fakes && t.fakes[fake].cls == cls && t.fakes[fake].realId.None?
    ensures !IsCached(t.entries, id)
  {
    CachedIn(t.entries, id);
  }

  lemma {:induction false} ListPair(x: Listed, y: Listed)
    ensures [x, y][..1] == [x] && [x, y][1..] == [y] && [x][1..] == []
  {
  }

  /**
    Two classes have one signature, and the cache has one free place: the first
    takes it when it is looked up, the second flushes the cache, and the first is
    never found again.
   */
  lemma {:induction false} LostToTheNext(t: Table, fake: nat, x: Listed, y: Listed, cacheMax: nat)
    requires TableOk(t) && ListOk(t, [x, y]) && |t.entries| + 1 == cacheMax && !IsCached(t.entries, y.id)
    requires fake in t.fakes && t.fakes[fake] == Fake(x.cls, None, false)
    ensures var (u, answer) := TranslatedBack(t, fake, [x, y], cacheMax);
            answer == InvalidClass && fake in u.fakes && u.fakes[fake].wasUnloaded
  {
    hide TableOk;
    hide Translated;
    hide IsCached;
    var list := [x, y];
    ListPair(x, y);
    assert x == list[0] && y == list[1];
    assert Consistent(t, x.id, x.cls);
    NotCached(t, x.id, x.cls, fake);
    hide Consistent;
    hide ListOk;
    FoundIfItFits(t, fake, list, 0, cacheMax);
    HaveNames(t);
    TranslatedCaches(t, x.id, x.cls, cacheMax, y.id);
    ListTail(t, [x], cacheMax);
    var u := Refreshed(t, [x], cacheMax);
    assert u == Translated(t, x.id, x.cls, cacheMax);
    assert CountNew(u.entries, [y]) == 1 + CountNew(u.entries, []);
    RefreshKeeps(t, list, cacheMax);
  }

  function ClassNumber(n: nat): Class {
    Class(n, "")
  }

  /** A table with n types cached, and a fake type that is not among them. */
  function Used(n: nat): Table
    requires n < KEY_SIZE
  {
    var classes := set f: nat | 1 <= f <= n + 1 :: ClassNumber(f);
    Table(seq(n, i requires 0 <= i < n => Cached(i, 1, i + 1)),
          map f: nat | 1 <= f <= n + 1 :: Fake(ClassNumber(f), if f <= n then Some(f - 1) else None, false),
          map c | c in classes :: c.loader,
          n + 1)
  }

  lemma {:induction false} UsedNames(n: nat)
    requires n < KEY_SIZE
    ensures NamesOk(Used(n))
  {
  }

  lemma {:induction false} UsedOk(n: nat)
    requires n < KEY_SIZE
    ensures TableOk(Used(n)) && |Used(n).entries| == n
    ensures n + 1 in Used(n).fakes && Used(n).fakes[n + 1] == Fake(ClassNumber(n + 1), None, false)
  {
    UsedNames(n);
    hide NamesOk;
    var t := Used(n);
    forall f | f in t.fakes && t.fakes[f].realId.Some?
      ensures exists e :: e in t.entries && e.fake == f && e.id == t.fakes[f].realId.value
    {
      assert t.entries[f - 1] in t.entries;
    }
  }

  lemma {:induction false} UsedList(n: nat, list: seq<Listed>)
    requires n + 1 < KEY_SIZE && list == [Listed(n, ClassNumber(n + 1)), Listed(n + 1, ClassNumber(n + 2))]
    ensures ListOk(Used(n), list) && !IsCached(Used(n).entries, n + 1)
  {
  }

  /** That can happen with a cache of any size, up to the number of IDs there are. */
  lemma {:induction false} LostByItsOwnLookup(cacheMax: nat)
    requires 0 < cacheMax < KEY_SIZE
    ensures TableOk(Used(cacheMax - 1))
    ensures var list := [Listed(cacheMax - 1, ClassNumber(cacheMax)), Listed(cacheMax, ClassNumber(cacheMax + 1))];
            && ListOk(Used(cacheMax - 1), list)
            && var (u, answer) := TranslatedBack(Used(cacheMax - 1), cacheMax, list, cacheMax);
            answer == InvalidClass && cacheMax in u.fakes && u.fakes[cacheMax].wasUnloaded
  {
    hide Used;
    hide TableOk;
    hide ListOk;
    hide TranslatedBack;
    hide IsCached;
    var n := cacheMax - 1;
    var x, y := Listed(n, ClassNumber(n + 1)), Listed(n + 1, ClassNumber(n + 2));
    UsedOk(n);
    UsedList(n, [x, y]);
    LostToTheNext(Used(n), n + 1, x, y, cacheMax);
  }
}
