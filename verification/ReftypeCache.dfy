/**
  The JDWP proxy's cache of the app's reference-type IDs, and how it is emptied:
  every ID is given back to the app with the number of times it was received.
 */
module ReftypeCache {
  import opened Wrappers
  import opened SplayTrees
  import opened SplayOps
  import opened ReftypeTable
  import opened ReftypeRefresh

  const HEADER := 11

  function Flatten<T>(ss: seq<seq<T>>): seq<T> {
    if ss == [] then [] else Flatten(ss[..|ss| - 1]) + ss[|ss| - 1]
  }

  class RealReftype {
    const realId: Key
    var refcount: nat
    var fake: nat

    constructor (realId: Key)
      ensures this.realId == realId && refcount == 0 && fake == 0
    {
      this.realId, refcount, fake := realId, 0, 0;
    }
  }

  function Reftypes(s: seq<Node<RealReftype>>): set<RealReftype> {
    set n | n in s :: n.elm
  }

  ghost function Entry(n: Node<RealReftype>): Cached
    reads n.elm`refcount, n.elm`fake
  {
    Cached(n.key, n.elm.refcount, n.elm.fake)
  }

  /** The nodes, in order, carry what the entries say. */
  ghost predicate Describes(s: seq<Node<RealReftype>>, entries: seq<Cached>)
    reads Reftypes(s)`refcount, Reftypes(s)`fake
  {
    && |s| == |entries|
    && forall i | 0 <= i < |s| :: s[i].elm.realId == s[i].key && entries[i] == Entry(s[i])
  }

  /** The nodes carry what the entries say, except that an extra one at place i carries rr. */
  ghost predicate Described(s: seq<Node<RealReftype>>, entries: seq<Cached>, i: nat, rr: RealReftype)
    reads Reftypes(s)`refcount, Reftypes(s)`fake
  {
    && i <= |entries| && |s| == |entries| + 1 && s[i].elm == rr && s[i].key == rr.realId
    && Describes(s[..i] + s[i + 1..], entries)
    && rr !in Reftypes(s[..i] + s[i + 1..])
  }

  lemma {:induction false} DescribedLength(s: seq<Node<RealReftype>>, entries: seq<Cached>)
    requires Describes(s, entries)
    ensures |s| == |entries|
  {
  }

  lemma {:induction false} DescribedAround(all: seq<Node<RealReftype>>, entries: seq<Cached>, i: nat, node: Node<RealReftype>, s: seq<Node<RealReftype>>)
    requires Describes(all, entries) && i <= |all| && s == all[..i] + [node] + all[i..]
    requires node.elm.realId == node.key && node.elm !in Reftypes(all)
    ensures Described(s, entries, i, node.elm)
    ensures Reftypes(s) == Reftypes(all) + {node.elm}
  {
    hide Describes;
    assert s[..i] + s[i + 1..] == all;
    DescribedLength(all, entries);
    assert forall n :: n in s <==> n in all || n == node;
  }

  /** What is new since the beginning was new in the first step or in the second. */
  lemma {:induction false} NewOnes<T>(a: set<T>, b: set<T>, c: set<T>)
    ensures forall x | x in c - a :: x in b - a || x in c - b
  {
  }

  lemma {:induction false} StillUncached(entries: seq<Cached>, id: Key)
    ensures entries == [] ==> !IsCached(entries, id)
  {
  }

  lemma {:induction false} RefreshNothing(t: Table, cacheMax: nat)
    ensures TableOk(t) && ListOk(t, []) ==> Refreshed(t, [], cacheMax) == t
  {
  }

  lemma {:induction false} DescribedWhole(s: seq<Node<RealReftype>>, entries: seq<Cached>, i: nat, rr: RealReftype, es: seq<Cached>)
    requires Described(s, entries, i, rr)
    requires es == entries[..i] + [Cached(rr.realId, rr.refcount, rr.fake)] + entries[i..]
    ensures Describes(s, es)
  {
    var rest := s[..i] + s[i + 1..];
    forall j | 0 <= j < |s|
      ensures s[j].elm.realId == s[j].key && es[j] == Entry(s[j])
    {
      assert j < i ==> s[j] == rest[j];
      assert j > i ==> s[j] == rest[j - 1];
    }
  }

  lemma {:induction false} PlaceIsRank(s: seq<Node<RealReftype>>, entries: seq<Cached>, id: Key)
    requires Describes(s, entries)
    ensures |s| == |entries| && Rank(s, id) == Place(entries, id)
    ensures Lookup(s, id) == if IsCached(entries, id) then s[Place(entries, id)] else null
  {
    if s != [] && s[0].key < id {
      PlaceIsRank(s[1..], entries[1..], id);
    }
  }

  lemma {:induction false} RemovedFirst<V>(s: seq<Node<V>>)
    requires Ascending(s) && s != []
    ensures Removed(s, s[0].key) == s[1..]
  {
    RankIs(s, s[0].key, 0);
  }

  lemma {:induction false} ForgetNone(fakes: map<nat, Fake>, entries: seq<Cached>)
    ensures HaveFakes(entries[..0], fakes) && Forget(fakes, entries[..0]) == fakes
  {
  }

  lemma {:induction false} ForgetOne(fakes: map<nat, Fake>, entries: seq<Cached>, i: nat)
    requires HaveFakes(entries, fakes) && i < |entries|
    ensures HaveFakes(entries[..i], fakes) && HaveFakes(entries[..i + 1], fakes)
    ensures var r, f := Forget(fakes, entries[..i]), entries[i].fake;
            f in r && Forget(fakes, entries[..i + 1]) == r[f := r[f].(realId := None)]
  {
    assert entries[..i + 1][..i] == entries[..i];
    assert entries[i] in entries;
  }

  lemma {:induction false} ForgetAppend(fakes: map<nat, Fake>, a: seq<Cached>, b: seq<Cached>)
    requires HaveFakes(a + b, fakes)
    ensures HaveFakes(a, fakes) && HaveFakes(b, Forget(fakes, a))
    ensures Forget(Forget(fakes, a), b) == Forget(fakes, a + b)
    decreases |b|
  {
    assert forall e | e in a :: e in a + b;
    assert forall e | e in b :: e in a + b;
    if b == [] {
      assert a + b == a;
    } else {
      var rest := b[..|b| - 1];
      assert (a + b)[..|a + b| - 1] == a + rest;
      assert forall e | e in a + rest :: e in a + b;
      ForgetAppend(fakes, a, rest);
    }
  }

  lemma {:induction false} ForgottenMore(fakes: map<nat, Fake>, all: seq<Cached>, done: nat, n: nat)
    requires done + n <= |all| && HaveFakes(all, fakes)
    ensures HaveFakes(all[..done], fakes) && HaveFakes(all[..done + n], fakes)
    ensures var f := Forget(fakes, all[..done]);
            HaveFakes(all[done..][..n], f) && Forget(f, all[done..][..n]) == Forget(fakes, all[..done + n])
    ensures HaveFakes(all[done + n..], Forget(fakes, all[..done + n])) && all[done..][n..] == all[done + n..]
  {
    var a, b := all[..done], all[done..][..n];
    assert a + b == all[..done + n];
    ForgetAppend(fakes, a, b);
    assert all[..done + n] + all[done + n..] == all;
    ForgetAppend(fakes, all[..done + n], all[done + n..]);
  }

  lemma {:induction false} DisposalsMore(all: seq<Cached>, done: nat, n: nat, packets: seq<seq<Disposal>>, packet: seq<Disposal>)
    requires done + n <= |all|
    requires Flatten(packets) == Disposals(all[..done]) && packet == Disposals(all[done..][..n])
    ensures Flatten(packets + [packet]) == Disposals(all[..done + n])
  {
    var a, b := all[..done], all[done..][..n];
    assert a + b == all[..done + n];
    assert (packets + [packet])[..|packets|] == packets;
    assert Disposals(a) + Disposals(b) == Disposals(a + b);
  }

  lemma {:induction false} ForgetPart(fakes: map<nat, Fake>, entries: seq<Cached>, n: nat)
    requires HaveFakes(entries, fakes) && n <= |entries|
    ensures HaveFakes(entries[..n], fakes)
  {
  }

  lemma {:induction false} EmptyTree<V>(t: Tree<V>)
    requires InOrder(t) == []
    ensures t.Leaf?
  {
  }

  lemma {:induction false} DescribedRest(s: seq<Node<RealReftype>>, entries: seq<Cached>, n: nat)
    requires Describes(s, entries) && n <= |s|
    ensures |s| == |entries| && Describes(s[n..], entries[n..])
  {
  }

  /** As many entries as the length limit allows for, or fewer, fit. */
  lemma {:induction false} PacketFits(limit: nat, width: nat, n: nat)
    requires limit >= HEADER + 4 && width > 0 && n <= (limit - (HEADER + 4)) / width
    ensures HEADER + 4 + n * width <= limit
  {
    var most := (limit - (HEADER + 4)) / width;
    assert n * width <= most * width;
  }

  lemma {:induction false} ReftypesAllocated(t: Tree<RealReftype>)
    ensures allocated(NodesOf(t)) && allocated(Reftypes(InOrder(t)))
  {
    NodesAllocated(t);
    forall n | n in InOrder(t)
      ensures allocated(n.elm)
    {
      InOrderHas(t, n);
    }
  }

  lemma {:induction false} DescribedAt(s: seq<Node<RealReftype>>, entries: seq<Cached>, i: nat)
    requires Describes(s, entries) && i < |s|
    ensures |entries| == |s| && entries[i] == Entry(s[i])
    ensures Disposals(entries[..i + 1]) == Disposals(entries[..i]) + [Disposal(s[i].key, AsInt32(s[i].elm.refcount))]
  {
  }

  lemma {:induction false} TreeAscending<V>(t: Tree<V>)
    requires Ordered(t, -1, KEY_SIZE)
    ensures Ascending(InOrder(t))
  {
    OrderedAscending(t, -1, KEY_SIZE);
  }

  lemma {:induction false} FollowerAt<V>(s: seq<Node<V>>, i: nat)
    requires Ascending(s) && i < |s|
    ensures Follower(s, s[i]) == if i + 1 < |s| then s[i + 1] else null
  {
    RankIs(s, s[i].key, i);
  }

  class Proxy {
    const cache: SplayTree<RealReftype>
    var cacheSize: nat
    const cacheMax: nat
    const packetSizeLimit: nat
    const idWidth: nat
    var fakes: map<nat, Fake>
    var bySignature: map<Class, nat>
    var nextFakeId: nat
    ghost var entries: seq<Cached>   // the cache's contents in order of ID

    ghost predicate Valid()
      reads this, cache, NodesOf(cache.tree)`left, NodesOf(cache.tree)`right, Reftypes(cache.Elements())`refcount, Reftypes(cache.Elements())`fake
    {
      && cache.Valid()
      && cacheSize == |entries| && Describes(cache.Elements(), entries)
    }

    constructor (cacheMax: nat, packetSizeLimit: nat, idWidth: nat)
      ensures Valid() && entries == [] && fakes == map[] && bySignature == map[] && nextFakeId == 0
      ensures this.cacheMax == cacheMax && this.packetSizeLimit == packetSizeLimit && this.idWidth == idWidth
    {
      cache := new SplayTree();
      this.cacheMax, this.packetSizeLimit, this.idWidth := cacheMax, packetSizeLimit, idWidth;
      cacheSize, fakes, bySignature, nextFakeId, entries := 0, map[], map[], 0, [];
    }

    /** The first half of flush_reftype_cache_1: lists the first entries of the cache. */
    method ListDisposals(n: nat) returns (first: Node<RealReftype>, packet: seq<Disposal>)
      requires Valid() && n <= cacheSize && cacheSize > 0
      modifies cache, NodesOf(cache.tree)
      ensures Valid() && cache.Elements() == old(cache.Elements()) && NodesOf(cache.tree) == old(NodesOf(cache.tree))
      ensures packet == Disposals(entries[..n])
      ensures first == cache.Elements()[0]
    {
      hide Linked;
      hide Ordered;
      hide NodesOf;
      hide Describes;
      ghost var all := cache.Elements();
      TreeAscending(cache.tree);
      ReftypesAllocated(cache.tree);
      DescribedLength(all, entries);
      first := cache.MinMax(true);
      var rr: Node?<RealReftype> := first;
      packet := [];
      for i := 0 to n
        invariant cache.Valid() && cache.Elements() == all && NodesOf(cache.tree) == old(NodesOf(cache.tree))
        invariant Describes(all, entries)
        invariant packet == Disposals(entries[..i])
        invariant rr == if i < |all| then all[i] else null
      {
        DescribedAt(all, entries, i);
        ReftypesAllocated(cache.tree);
        packet := packet + [Disposal(rr.key, AsInt32(rr.elm.refcount))];
        FollowerAt(all, i);
        rr := cache.Next(rr);
      }
    }

    /** Removes the first node, having looked up the next one. */
    method RemoveOne(rr: Node<RealReftype>, ghost es: seq<Cached>) returns (rrNext: Node?<RealReftype>)
      requires cache.Valid() && cache.Elements() != [] && rr == cache.Elements()[0]
      requires Describes(cache.Elements(), es) && es != [] && es[0].fake in fakes
      modifies this`fakes, cache, NodesOf(cache.tree)
      ensures cache.Valid() && NodesOf(cache.tree) <= old(NodesOf(cache.tree))
      ensures cache.Elements() == old(cache.Elements())[1..] && Describes(cache.Elements(), es[1..])
      ensures rrNext == if cache.Elements() != [] then cache.Elements()[0] else null
      ensures fakes == old(fakes)[es[0].fake := old(fakes)[es[0].fake].(realId := None)]
    {
      hide Linked;
      hide Ordered;
      hide InOrder;
      hide NodesOf;
      hide Describes;
      hide Removed;
      hide Follower;
      hide Ascending;
      ghost var all := cache.Elements();
      TreeAscending(cache.tree);
      ReftypesAllocated(cache.tree);
      DescribedAt(all, es, 0);
      FollowerAt(all, 0);
      RemovedFirst(all);
      rrNext := cache.Next(rr);
      ReftypesAllocated(cache.tree);
      var _ := cache.Remove(rr);
      DescribedRest(all, es, 1);
      fakes := fakes[rr.elm.fake := fakes[rr.elm.fake].(realId := None)];
    }

    /** The second half: removes them one after another. */
    method RemoveFirst(first: Node<RealReftype>, n: nat)
      requires Valid() && n <= cacheSize && cacheSize > 0 && first == cache.Elements()[0]
      requires HaveFakes(entries, fakes)
      modifies this`fakes, cache, NodesOf(cache.tree)
      ensures cache.Valid() && NodesOf(cache.tree) <= old(NodesOf(cache.tree))
      ensures |cache.Elements()| == |entries| - n
      ensures Describes(cache.Elements(), entries[n..])
      ensures fakes == Forget(old(fakes), entries[..n])
    {
      hide Describes;
      hide Forget;
      hide HaveFakes;
      DescribedLength(cache.Elements(), entries);
      ForgetNone(fakes, entries);
      var rrNext: Node?<RealReftype> := first;
      for i := 0 to n
        invariant cache.Valid() && NodesOf(cache.tree) <= old(NodesOf(cache.tree))
        invariant |cache.Elements()| == |entries| - i
        invariant Describes(cache.Elements(), entries[i..])
        invariant HaveFakes(entries[..i], old(fakes)) && fakes == Forget(old(fakes), entries[..i])
        invariant rrNext == if cache.Elements() != [] then cache.Elements()[0] else null
      {
        ForgetOne(old(fakes), entries, i);
        rrNext := RemoveOne(rrNext, entries[i..]);
      }
      ForgetPart(old(fakes), entries, n);
    }

    /** flush_reftype_cache_1 */
    method FlushPart(maxToKill: nat) returns (packet: seq<Disposal>)
      requires Valid() && HaveFakes(entries, fakes) && 0 < maxToKill && cacheSize > 0
      modifies this`fakes, this`cacheSize, this`entries, cache, NodesOf(cache.tree)
      ensures Valid() && NodesOf(cache.tree) <= old(NodesOf(cache.tree))
      ensures 0 < |packet| <= maxToKill && |packet| <= |old(entries)|
      ensures packet == Disposals(old(entries)[..|packet|]) && entries == old(entries)[|packet|..]
      ensures fakes == Forget(old(fakes), old(entries)[..|packet|])
    {
      hide Describes;
      hide Forget;
      var toKill := if maxToKill < cacheSize then maxToKill else cacheSize;
      var first;
      first, packet := ListDisposals(toKill);
      RemoveFirst(first, toKill);
      cacheSize := cacheSize - toKill;
      entries := entries[toKill..];
    }

    /** The length of a command that disposes of n objects. */
    function PacketSize(n: nat): nat {
      HEADER + 4 + n * (idWidth + 4)
    }

    /** flush_reftype_cache: nothing if no packet can hold a single entry. */
    method Flush() returns (ok: bool, packets: seq<seq<Disposal>>)
      requires Valid() && HaveFakes(entries, fakes)
      modifies this`fakes, this`cacheSize, this`entries, cache, NodesOf(cache.tree)
      ensures Valid() && NodesOf(cache.tree) <= old(NodesOf(cache.tree))
      ensures ok <==> packetSizeLimit >= PacketSize(1)
      ensures !ok ==> entries == old(entries) && fakes == old(fakes) && packets == [] && cache.tree == old(cache.tree)
      ensures ok ==> cacheSize == 0 && entries == [] && cache.root == null && cache.tree.Leaf?
      ensures ok ==> Flatten(packets) == Disposals(old(entries)) && fakes == Forget(old(fakes), old(entries))
      ensures forall p | p in packets :: p != [] && PacketSize(|p|) <= packetSizeLimit
    {
      hide Linked;
      hide Ordered;
      hide InOrder;
      hide NodesOf;
      hide Describes;
      hide Forget;
      hide HaveFakes;
      packets := [];
      if packetSizeLimit < HEADER + 4 + (idWidth + 4) {
        return false, [];
      }
      ok := true;
      var maxDisposes := (packetSizeLimit - (HEADER + 4)) / (idWidth + 4);
      ghost var done: nat := 0;
      ghost var all := entries;
      ForgetNone(fakes, entries);
      while cacheSize > 0
        invariant Valid() && NodesOf(cache.tree) <= old(NodesOf(cache.tree))
        invariant done <= |all| && entries == all[done..]
        invariant Flatten(packets) == Disposals(all[..done])
        invariant HaveFakes(all, old(fakes)) && HaveFakes(entries, fakes)
        invariant HaveFakes(all[..done], old(fakes)) && fakes == Forget(old(fakes), all[..done])
        invariant forall p | p in packets :: p != [] && PacketSize(|p|) <= packetSizeLimit
        decreases cacheSize
      {
        var packet := FlushPart(maxDisposes);
        PacketFits(packetSizeLimit, idWidth + 4, |packet|);
        ForgottenMore(old(fakes), all, done, |packet|);
        DisposalsMore(all, done, |packet|, packets, packet);
        done := done + |packet|;
        packets := packets + [packet];
      }
      DescribedLength(cache.Elements(), entries);
      EmptyTree(cache.tree);
      assert all[..done] == all;
    }

    ghost function State(): Table
      reads this
    {
      Table(entries, fakes, bySignature, nextFakeId)
    }

    /** find_real_reftype_by_real_id */
    method FindCached(id: Key) returns (rr: RealReftype?)
      requires Valid()
      modifies cache, NodesOf(cache.tree)
      ensures Valid() && cache.Elements() == old(cache.Elements()) && NodesOf(cache.tree) == old(NodesOf(cache.tree))
      ensures rr == null <==> !IsCached(entries, id)
      ensures rr != null ==> |entries| == |cache.Elements()| && rr == cache.Elements()[Place(entries, id)].elm
    {
      hide Describes;
      ReftypesAllocated(cache.tree);
      PlaceIsRank(cache.Elements(), entries, id);
      var node := cache.Find(id);
      rr := if node == null then null else node.elm;
    }

    /** The cached type has been received once more. */
    method Bump(rr: RealReftype, ghost i: nat)
      requires Valid() && i < |entries| == |cache.Elements()| && rr == cache.Elements()[i].elm
      modifies this`entries, rr`refcount
      ensures Valid() && entries == Bumped(old(entries), i) && rr.fake == entries[i].fake
    {
      ghost var all := cache.Elements();
      TreeAscending(cache.tree);
      forall j | 0 <= j < |all| && j != i
        ensures all[j].elm != rr
      {
        assert all[j].elm.realId == all[j].key && all[j].key != all[i].key;
      }
      rr.refcount := rr.refcount + 1;
      entries := Bumped(entries, i);
    }

    /** Counts the first reference to a new type and tells it its fake. */
    method SetEntry(rr: RealReftype, fake: nat) returns (ghost es: seq<Cached>)
      requires cache.Valid() && Described(cache.Elements(), entries, Place(entries, rr.realId), rr) && rr.refcount == 0
      modifies rr
      ensures var i := Place(entries, rr.realId);
              es == entries[..i] + [Cached(rr.realId, 1, fake)] + entries[i..]
      ensures cache.Valid() && Describes(cache.Elements(), es)
    {
      hide Describes;
      ghost var i := Place(entries, rr.realId);
      ghost var s := cache.Elements();
      rr.refcount := rr.refcount + 1;
      rr.fake := fake;
      assert Describes(s[..i] + s[i + 1..], entries);
      es := entries[..i] + [Cached(rr.realId, 1, fake)] + entries[i..];
      DescribedWhole(s, entries, i, rr, es);
    }

    /** The fake type of a class. */
    method NameFake(cls: Class) returns (fake: nat)
      modifies this`fakes, this`bySignature, this`nextFakeId
      ensures State() == Named(old(State()), cls) && cls in bySignature && fake == bySignature[cls]
      ensures old(NamesFakes(State())) ==> fake in fakes
    {
      if cls in bySignature {
        fake := bySignature[cls];
      } else {
        nextFakeId := nextFakeId + 1;
        fake := nextFakeId;
        fakes := fakes[fake := Fake(cls, None, false)];
        bySignature := bySignature[cls := fake];
      }
    }

    method InsertNew(id: Key) returns (rr: RealReftype)
      requires Valid() && !IsCached(entries, id)
      modifies this`cacheSize, cache, NodesOf(cache.tree)
      ensures cache.Valid() && fresh(cache.Nodes() - old(cache.Nodes())) && fresh(rr)
      ensures cacheSize == old(cacheSize) + 1
      ensures rr.realId == id && rr.refcount == 0 && rr.fake == 0
      ensures Described(cache.Elements(), entries, Place(entries, id), rr)
      ensures fresh(Reftypes(cache.Elements()) - old(Reftypes(cache.Elements())))
    {
      hide Linked;
      hide Ordered;
      hide InOrder;
      hide NodesOf;
      hide Describes;
      ReftypesAllocated(cache.tree);
      PlaceIsRank(cache.Elements(), entries, id);
      ghost var all := cache.Elements();
      rr := new RealReftype(id);
      var node := new Node(id, rr);
      var _ := cache.Insert(node);
      cacheSize := cacheSize + 1;
      DescribedAround(all, entries, Place(entries, id), node, cache.Elements());
    }

    /** Caches a type that is not cached yet, with its fake. */
    method AddNew(id: Key, cls: Class) returns (fake: nat)
      requires Valid() && !IsCached(entries, id) && NamesFakes(State())
      modifies this`entries, this`fakes, this`bySignature, this`nextFakeId, this`cacheSize, cache, NodesOf(cache.tree)
      ensures Valid() && fresh(cache.Nodes() - old(cache.Nodes()))
      ensures fresh(Reftypes(cache.Elements()) - old(Reftypes(cache.Elements())))
      ensures State() == Added(old(State()), id, cls)
      ensures cls in bySignature && fake == bySignature[cls]
    {
      hide Linked;
      hide Ordered;
      hide InOrder;
      hide NodesOf;
      hide Describes;
      hide Described;
      hide Place;
      hide IsCached;
      var rr := InsertNew(id);
      ReftypesAllocated(cache.tree);
      fake := NameFake(cls);
      fakes := fakes[fake := fakes[fake].(realId := Some(id))];
      entries := SetEntry(rr, fake);
    }

    /** Flushes the cache if it is full. */
    method MakeRoom() returns (ok: bool, packets: seq<seq<Disposal>>)
      requires Valid() && HaveFakes(entries, fakes)
      modifies this`fakes, this`cacheSize, this`entries, cache, NodesOf(cache.tree)
      ensures Valid() && NodesOf(cache.tree) <= old(NodesOf(cache.tree))
      ensures Reftypes(cache.Elements()) <= old(Reftypes(cache.Elements()))
      ensures !ok ==> |old(entries)| >= cacheMax && packetSizeLimit < PacketSize(1)
      ensures ok ==> State() == if |old(entries)| >= cacheMax then Flushed(old(State())) else old(State())
      ensures ok ==> Flatten(packets) == if |old(entries)| >= cacheMax then Disposals(old(entries)) else []
      ensures forall p | p in packets :: p != [] && PacketSize(|p|) <= packetSizeLimit
    {
      hide Describes;
      hide Forget;
      hide Disposals;
      ok, packets := true, [];
      if cacheSize >= cacheMax {
        ok, packets := Flush();
      }
    }

    /** Caches a type that was not, if need be after a flush. */
    method CacheNew(id: Key, cls: Class) returns (ok: bool, fake: nat, packets: seq<seq<Disposal>>)
      requires Valid() && HaveFakes(entries, fakes) && NamesFakes(State()) && !IsCached(entries, id)
      modifies this`entries, this`fakes, this`bySignature, this`nextFakeId, this`cacheSize, cache, NodesOf(cache.tree)
      ensures Valid() && fresh(cache.Nodes() - old(cache.Nodes()))
      ensures fresh(Reftypes(cache.Elements()) - old(Reftypes(cache.Elements())))
      ensures !ok ==> |old(entries)| >= cacheMax && packetSizeLimit < PacketSize(1)
      ensures ok ==> State() == Added(if |old(entries)| >= cacheMax then Flushed(old(State())) else old(State()), id, cls)
      ensures ok ==> cls in bySignature && fake == bySignature[cls]
      ensures ok ==> Flatten(packets) == if |old(entries)| >= cacheMax then Disposals(old(entries)) else []
      ensures forall p | p in packets :: p != [] && PacketSize(|p|) <= packetSizeLimit
    {
      hide Linked;
      hide Ordered;
      hide InOrder;
      hide NodesOf;
      hide Describes;
      hide Forget;
      hide Disposals;
      hide Place;
      hide Added;
      fake := 0;
      ok, packets := MakeRoom();
      if !ok {
        return;
      }
      StillUncached(entries, id);
      ghost var nodes, reftypes := cache.Nodes(), Reftypes(cache.Elements());
      label before:
      fake := AddNew(id, cls);
      assert fresh@before(cache.Nodes() - nodes);
      assert forall n | n in cache.Nodes() && n !in nodes :: fresh@before(n);
      assert forall n | n in cache.Nodes() && n !in nodes :: fresh(n);
      NewOnes(old(cache.Nodes()), nodes, cache.Nodes());
      NewOnes(old(Reftypes(cache.Elements())), reftypes, Reftypes(cache.Elements()));
    }

    /** Looks a type up and, if it is cached, counts it. */
    method CountCached(id: Key) returns (found: bool, fake: nat)
      requires Valid()
      modifies this`entries, cache, NodesOf(cache.tree), Reftypes(cache.Elements())
      ensures Valid() && cache.Elements() == old(cache.Elements()) && NodesOf(cache.tree) == old(NodesOf(cache.tree))
      ensures found <==> IsCached(old(entries), id)
      ensures entries == if found then Bumped(old(entries), Place(old(entries), id)) else old(entries)
      ensures found ==> fake == old(entries)[Place(old(entries), id)].fake
    {
      hide Describes;
      hide Place;
      var rr := FindCached(id);
      found, fake := rr != null, 0;
      if rr != null {
        ghost var all := cache.Elements();
        assert all[Place(entries, id)] in all;
        Bump(rr, Place(entries, id));
        fake := rr.fake;
      }
    }

    /** translate_and_cache_real_reftype, for a type that the VM says is of this class. */
    method Translate(id: Key, cls: Class) returns (ok: bool, fake: nat, packets: seq<seq<Disposal>>)
      requires Valid() && HaveFakes(entries, fakes) && NamesFakes(State())
      modifies this`entries, this`fakes, this`bySignature, this`nextFakeId, this`cacheSize, cache, NodesOf(cache.tree)
      modifies Reftypes(cache.Elements())
      ensures Valid() && fresh(cache.Nodes() - old(cache.Nodes()))
      ensures fresh(Reftypes(cache.Elements()) - old(Reftypes(cache.Elements())))
      ensures !ok ==> !IsCached(old(entries), id) && |old(entries)| >= cacheMax && packetSizeLimit < PacketSize(1)
      ensures ok ==> State() == Translated(old(State()), id, cls, cacheMax)
      ensures ok && !IsCached(old(entries), id) ==> cls in bySignature && fake == bySignature[cls]
      ensures ok && IsCached(old(entries), id) ==> fake == old(entries)[Place(old(entries), id)].fake
      ensures ok ==> Flatten(packets) ==
                       if !IsCached(old(entries), id) && |old(entries)| >= cacheMax then Disposals(old(entries)) else []
      ensures forall p | p in packets :: p != [] && PacketSize(|p|) <= packetSizeLimit
    {
      hide Describes;
      hide Forget;
      hide Disposals;
      hide Place;
      hide Added;
      ok, packets := true, [];
      var found;
      found, fake := CountCached(id);
      if !found {
        ghost var nodes, reftypes := cache.Nodes(), Reftypes(cache.Elements());
        assert nodes == old(cache.Nodes()) && reftypes == old(Reftypes(cache.Elements()));
        label before:
        ok, fake, packets := CacheNew(id, cls);
        assert fresh@before(cache.Nodes() - nodes) && fresh@before(Reftypes(cache.Elements()) - reftypes);
        assert forall n | n in cache.Nodes() && n !in nodes :: fresh@before(n);
        assert forall n | n in cache.Nodes() && n !in nodes :: fresh(n);
        assert forall r | r in Reftypes(cache.Elements()) && r !in reftypes :: fresh@before(r);
        assert forall r | r in Reftypes(cache.Elements()) && r !in reftypes :: fresh(r);
      }
    }

    method TakeListed(list: seq<Listed>) returns (ok: bool)
      requires Valid() && TableOk(State()) && ListOk(State(), list) && list != []
      modifies this`entries, this`fakes, this`bySignature, this`nextFakeId, this`cacheSize, cache, NodesOf(cache.tree)
      modifies Reftypes(cache.Elements())
      ensures Valid() && fresh(cache.Nodes() - old(cache.Nodes()))
      ensures fresh(Reftypes(cache.Elements()) - old(Reftypes(cache.Elements())))
      ensures packetSizeLimit >= PacketSize(1) ==> ok
      ensures ok ==> TableOk(State()) && ListOk(State(), list[1..])
      ensures ok ==> Refreshed(State(), list[1..], cacheMax) == Refreshed(old(State()), list, cacheMax)
    {
      hide TableOk;
      hide ListOk;
      hide Translated;
      hide Describes;
      ListHead(State(), list);
      HaveNames(State());
      ListTail(State(), list, cacheMax);
      TranslatedOk(State(), list[0].id, list[0].cls, cacheMax);
      var fake, packets;
      ok, fake, packets := Translate(list[0].id, list[0].cls);
    }

    /** refresh_classes_with_signature, for the classes that the VM lists. */
    method Refresh(list: seq<Listed>) returns (ok: bool)
      requires Valid() && TableOk(State()) && ListOk(State(), list)
      modifies this`entries, this`fakes, this`bySignature, this`nextFakeId, this`cacheSize, cache, NodesOf(cache.tree)
      modifies Reftypes(cache.Elements())
      ensures Valid()
      ensures packetSizeLimit >= PacketSize(1) ==> ok
      ensures ok ==> State() == Refreshed(old(State()), list, cacheMax)
    {
      hide TableOk;
      hide ListOk;
      hide Describes;
      hide Refreshed;
      hide Ordered;
      hide Linked;
      ok := true;
      RefreshNothing(State(), cacheMax);
      assert list[0..] == list;
      for i := 0 to |list|
        invariant Valid() && TableOk(State()) && ListOk(State(), list[i..])
        invariant Refreshed(State(), list[i..], cacheMax) == Refreshed(old(State()), list, cacheMax)
        invariant fresh(cache.Nodes() - old(cache.Nodes()))
        invariant fresh(Reftypes(cache.Elements()) - old(Reftypes(cache.Elements())))
      {
        assert list[i..][1..] == list[i + 1..];
        ghost var nodes, reftypes := cache.Nodes(), Reftypes(cache.Elements());
        label before:
        ok := TakeListed(list[i..]);
        assert fresh@before(cache.Nodes() - nodes);
        assert forall n | n in cache.Nodes() && n !in nodes :: fresh@before(n);
        assert forall n | n in cache.Nodes() && n !in nodes :: fresh(n);
        NewOnes(old(cache.Nodes()), nodes, cache.Nodes());
        NewOnes(old(Reftypes(cache.Elements())), reftypes, Reftypes(cache.Elements()));
        if !ok {
          return;
        }
      }
      RefreshNothing(State(), cacheMax);
    }

    /** translate_fake_reftype_to_real_reftype; the list is what the VM answers if it is asked. */
    method TranslateBack(fake: nat, list: seq<Listed>) returns (ok: bool, answer: Answer)
      requires Valid() && TableOk(State()) && ListOk(State(), list)
      modifies this`entries, this`fakes, this`bySignature, this`nextFakeId, this`cacheSize, cache, NodesOf(cache.tree)
      modifies Reftypes(cache.Elements())
      ensures Valid()
      ensures packetSizeLimit >= PacketSize(1) ==> ok
      ensures ok ==> (State(), answer) == TranslatedBack(old(State()), fake, list, cacheMax)
    {
      hide TableOk;
      hide ListOk;
      hide Refreshed;
      hide Describes;
      ok := true;
      if fake !in fakes {
        return true, InvalidObject;
      }
      if fakes[fake].realId.None? && !fakes[fake].wasUnloaded {
        ok := Refresh(list);
        if !ok || fake !in fakes {
          return ok, InvalidObject;
        }
      }
      if fakes[fake].realId.None? {
        fakes := fakes[fake := fakes[fake].(wasUnloaded := true)];
        return true, InvalidClass;
      }
      answer := Real(fakes[fake].realId.value);
    }
  }
}
