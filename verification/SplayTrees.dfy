/** Binary search trees of nodes as values: the shapes that the pointers in tree.h spell out. */
module SplayTrees {
  const KEY_SIZE := 0x1_0000_0000_0000_0000

  type Key = x: int | 0 <= x < KEY_SIZE

  class Node<V> {
    const key: Key
    const elm: V
    var left: Node?<V>
    var right: Node?<V>

    constructor (key: Key, elm: V)
      ensures this.key == key && this.elm == elm && left == null && right == null
    {
      this.key, this.elm, left, right := key, elm, null, null;
    }
  }

  datatype Tree<V> = Leaf | Branch(left: Tree<V>, node: Node<V>, right: Tree<V>)

  function Root<V>(t: Tree<V>): Node?<V> {
    if t.Leaf? then null else t.node
  }

  function NodesOf<V>(t: Tree<V>): set<Node<V>> {
    if t.Leaf? then {} else NodesOf(t.left) + {t.node} + NodesOf(t.right)
  }

  function Size<V>(t: Tree<V>): nat {
    if t.Leaf? then 0 else Size(t.left) + 1 + Size(t.right)
  }

  function InOrder<V>(t: Tree<V>): seq<Node<V>> {
    if t.Leaf? then [] else InOrder(t.left) + [t.node] + InOrder(t.right)
  }

  /** The tree's nodes point to each other as its shape says. */
  ghost predicate Linked<V>(t: Tree<V>)
    reads NodesOf(t)`left, NodesOf(t)`right
  {
    t.Branch? ==>
      && t.node.left == Root(t.left) && t.node.right == Root(t.right)
      && Linked(t.left) && Linked(t.right)
  }

  /** A search tree with all keys strictly between two bounds. */
  ghost predicate Ordered<V>(t: Tree<V>, lo: int, hi: int) {
    t.Branch? ==> lo < t.node.key < hi && Ordered(t.left, lo, t.node.key) && Ordered(t.right, t.node.key, hi)
  }

  lemma {:induction false} NodesWithin<V>(t: Tree<V>, lo: int, hi: int)
    requires Ordered(t, lo, hi)
    ensures forall n | n in NodesOf(t) :: lo < n.key < hi
  {
    if t.Branch? {
      NodesWithin(t.left, lo, t.node.key);
      NodesWithin(t.right, t.node.key, hi);
    }
  }

  lemma {:induction false} OrderedWider<V>(t: Tree<V>, lo: int, hi: int, lo': int, hi': int)
    requires Ordered(t, lo, hi) && lo' <= lo && hi <= hi'
    ensures Ordered(t, lo', hi')
  {
    if t.Branch? {
      OrderedWider(t.left, lo, t.node.key, lo', t.node.key);
      OrderedWider(t.right, t.node.key, hi, t.node.key, hi');
    }
  }

  lemma {:induction false} InOrderNodes<V>(t: Tree<V>)
    ensures forall n :: n in InOrder(t) <==> n in NodesOf(t)
  {
    if t.Branch? {
      InOrderNodes(t.left);
      InOrderNodes(t.right);
    }
  }

  lemma {:induction false} InOrderHas<V>(t: Tree<V>, n: Node<V>)
    ensures n in InOrder(t) <==> n in NodesOf(t)
  {
    InOrderNodes(t);
  }

  ghost predicate Ascending<V>(s: seq<Node<V>>) {
    forall i, j | 0 <= i < j < |s| :: s[i].key < s[j].key
  }

  lemma {:induction false} OrderedAscending<V>(t: Tree<V>, lo: int, hi: int)
    requires Ordered(t, lo, hi)
    ensures Ascending(InOrder(t)) && forall n | n in InOrder(t) :: lo < n.key < hi
  {
    if t.Branch? {
      OrderedAscending(t.left, lo, t.node.key);
      OrderedAscending(t.right, t.node.key, hi);
      var a, b := InOrder(t.left), InOrder(t.right);
      assert InOrder(t) == a + [t.node] + b;
      forall i, j | 0 <= i < j < |InOrder(t)|
        ensures InOrder(t)[i].key < InOrder(t)[j].key
      {
        if i < |a| { assert a[i] in a; }
        if j > |a| { assert b[j - |a| - 1] in b; }
      }
    }
  }

  // ----- Trees taken apart while splaying -----

  /** The nodes that have been passed on the way down on one side, each with the subtree beyond it. */
  datatype Path<V> = Top | Down(from: Path<V>, node: Node<V>, sub: Tree<V>)

  /** The nodes below the sought key, the tree still to be searched, and the nodes above the key. */
  datatype Split<V> = Split(ls: Path<V>, mid: Tree<V>, rs: Path<V>)

  /** The node that the next one will be hung below. */
  function End<V>(header: Node<V>, p: Path<V>): Node<V> {
    if p.Top? then header else p.node
  }

  function KeyAtEnd<V>(bound: int, p: Path<V>): int {
    if p.Top? then bound else p.node.key
  }

  /** The tree got by hanging t below the last node of the left path. */
  function FillLeft<V>(ls: Path<V>, t: Tree<V>): Tree<V> {
    if ls.Top? then t else FillLeft(ls.from, Branch(ls.sub, ls.node, t))
  }

  function FillRight<V>(rs: Path<V>, t: Tree<V>): Tree<V> {
    if rs.Top? then t else FillRight(rs.from, Branch(t, rs.node, rs.sub))
  }

  /** The whole tree, if it were put together now. */
  function Whole<V>(s: Split<V>): Tree<V>
    requires s.mid.Branch?
  {
    Branch(FillLeft(s.ls, s.mid.left), s.mid.node, FillRight(s.rs, s.mid.right))
  }

  function PathNodes<V>(p: Path<V>): set<Node<V>> {
    if p.Top? then {} else PathNodes(p.from) + {p.node} + NodesOf(p.sub)
  }

  function SplitNodes<V>(s: Split<V>): set<Node<V>> {
    PathNodes(s.ls) + NodesOf(s.mid) + PathNodes(s.rs)
  }

  function InOrderLeft<V>(ls: Path<V>): seq<Node<V>> {
    if ls.Top? then [] else InOrderLeft(ls.from) + (InOrder(ls.sub) + [ls.node])
  }

  function InOrderRight<V>(rs: Path<V>): seq<Node<V>> {
    if rs.Top? then [] else [rs.node] + InOrder(rs.sub) + InOrderRight(rs.from)
  }

  /** All nodes of a split in order. */
  function InOrderSplit<V>(s: Split<V>): seq<Node<V>> {
    InOrderLeft(s.ls) + InOrder(s.mid) + InOrderRight(s.rs)
  }

  lemma {:induction false} FillLeftInOrder<V>(ls: Path<V>, t: Tree<V>)
    ensures InOrder(FillLeft(ls, t)) == InOrderLeft(ls) + InOrder(t)
    ensures NodesOf(FillLeft(ls, t)) == PathNodes(ls) + NodesOf(t)
    decreases ls
  {
    if ls.Down? {
      FillLeftInOrder(ls.from, Branch(ls.sub, ls.node, t));
    }
  }

  lemma {:induction false} FillRightInOrder<V>(rs: Path<V>, t: Tree<V>)
    ensures InOrder(FillRight(rs, t)) == InOrder(t) + InOrderRight(rs)
    ensures NodesOf(FillRight(rs, t)) == PathNodes(rs) + NodesOf(t)
    decreases rs
  {
    if rs.Down? {
      FillRightInOrder(rs.from, Branch(t, rs.node, rs.sub));
    }
  }

  lemma {:induction false} WholeInOrder<V>(s: Split<V>)
    requires s.mid.Branch?
    ensures InOrder(Whole(s)) == InOrderSplit(s) && NodesOf(Whole(s)) == SplitNodes(s)
  {
    hide FillLeft;
    hide FillRight;
    hide InOrderLeft;
    hide InOrderRight;
    hide PathNodes;
    FillLeftInOrder(s.ls, s.mid.left);
    FillRightInOrder(s.rs, s.mid.right);
  }

  lemma {:induction false} NodesAllocated<V>(t: Tree<V>)
    ensures allocated(NodesOf(t))
  {
    if t.Branch? {
      NodesAllocated(t.left);
      NodesAllocated(t.right);
    }
  }

  lemma {:induction false} PathAllocated<V>(p: Path<V>)
    ensures allocated(PathNodes(p))
  {
    if p.Down? {
      PathAllocated(p.from);
      NodesAllocated(p.sub);
    }
  }

  // ----- What splitting keeps -----

  ghost predicate LeftOrdered<V>(ls: Path<V>) {
    ls.Down? ==>
      && LeftOrdered(ls.from) && KeyAtEnd(-1, ls.from) < ls.node.key
      && Ordered(ls.sub, KeyAtEnd(-1, ls.from), ls.node.key)
  }

  ghost predicate RightOrdered<V>(rs: Path<V>) {
    rs.Down? ==>
      && RightOrdered(rs.from) && rs.node.key < KeyAtEnd(KEY_SIZE, rs.from)
      && Ordered(rs.sub, rs.node.key, KeyAtEnd(KEY_SIZE, rs.from))
  }

  /** Everything to the left of the tree in the middle is below the key, everything to the right above it. */
  ghost predicate SplitAt<V>(s: Split<V>, key: int) {
    && s.mid.Branch?
    && LeftOrdered(s.ls) && RightOrdered(s.rs)
    && (s.ls.Down? ==> s.ls.node.key < key) && (s.rs.Down? ==> key < s.rs.node.key)
    && Ordered(s.mid, KeyAtEnd(-1, s.ls), KeyAtEnd(KEY_SIZE, s.rs))
  }

  lemma {:induction false} LeftBelow<V>(ls: Path<V>)
    requires LeftOrdered(ls)
    ensures forall n | n in PathNodes(ls) :: n.key <= KeyAtEnd(-1, ls)
  {
    if ls.Down? {
      LeftBelow(ls.from);
      NodesWithin(ls.sub, KeyAtEnd(-1, ls.from), ls.node.key);
    }
  }

  lemma {:induction false} RightAbove<V>(rs: Path<V>)
    requires RightOrdered(rs)
    ensures forall n | n in PathNodes(rs) :: KeyAtEnd(KEY_SIZE, rs) <= n.key
  {
    if rs.Down? {
      RightAbove(rs.from);
      NodesWithin(rs.sub, rs.node.key, KeyAtEnd(KEY_SIZE, rs.from));
    }
  }

  lemma {:induction false} FillLeftOrdered<V>(ls: Path<V>, t: Tree<V>, hi: int)
    requires LeftOrdered(ls) && Ordered(t, KeyAtEnd(-1, ls), hi) && KeyAtEnd(-1, ls) < hi
    ensures Ordered(FillLeft(ls, t), -1, hi)
    decreases ls
  {
    if ls.Down? {
      FillLeftOrdered(ls.from, Branch(ls.sub, ls.node, t), hi);
    }
  }

  lemma {:induction false} FillRightOrdered<V>(rs: Path<V>, t: Tree<V>, lo: int)
    requires RightOrdered(rs) && Ordered(t, lo, KeyAtEnd(KEY_SIZE, rs)) && lo < KeyAtEnd(KEY_SIZE, rs)
    ensures Ordered(FillRight(rs, t), lo, KEY_SIZE)
    decreases rs
  {
    if rs.Down? {
      FillRightOrdered(rs.from, Branch(t, rs.node, rs.sub), lo);
    }
  }

  lemma {:induction false} WholeOrdered<V>(s: Split<V>, key: int)
    requires SplitAt(s, key)
    ensures Ordered(Whole(s), -1, KEY_SIZE)
  {
    FillLeftOrdered(s.ls, s.mid.left, s.mid.node.key);
    FillRightOrdered(s.rs, s.mid.right, s.mid.node.key);
  }

  // ----- The links of a tree taken apart -----

  ghost predicate LeftLinked<V>(header: Node<V>, ls: Path<V>)
    reads header`right, PathNodes(ls)`left, PathNodes(ls)`right
  {
    ls.Down? ==>
      && LeftLinked(header, ls.from) && End(header, ls.from).right == ls.node
      && ls.node.left == Root(ls.sub) && Linked(ls.sub)
  }

  ghost predicate RightLinked<V>(header: Node<V>, rs: Path<V>)
    reads header`left, PathNodes(rs)`left, PathNodes(rs)`right
  {
    rs.Down? ==>
      && RightLinked(header, rs.from) && End(header, rs.from).left == rs.node
      && rs.node.right == Root(rs.sub) && Linked(rs.sub)
  }

  lemma {:induction false} FillLeftLinked<V>(header: Node<V>, ls: Path<V>, t: Tree<V>)
    requires LeftLinked(header, ls) && Linked(t) && End(header, ls).right == Root(t)
    ensures Linked(FillLeft(ls, t)) && header.right == Root(FillLeft(ls, t))
    decreases ls
  {
    if ls.Down? {
      FillLeftLinked(header, ls.from, Branch(ls.sub, ls.node, t));
    }
  }

  lemma {:induction false} FillRightLinked<V>(header: Node<V>, rs: Path<V>, t: Tree<V>)
    requires RightLinked(header, rs) && Linked(t) && End(header, rs).left == Root(t)
    ensures Linked(FillRight(rs, t)) && header.left == Root(FillRight(rs, t))
    decreases rs
  {
    if rs.Down? {
      FillRightLinked(header, rs.from, Branch(t, rs.node, rs.sub));
    }
  }
}
