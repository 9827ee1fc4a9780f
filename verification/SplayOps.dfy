/** The splay tree of tree.h: every operation first brings the sought key to the root, top down. */
module SplayOps {
  import opened SplayTrees

  ghost predicate TreeApart<V>(t: Tree<V>) {
    t.Branch? ==> NodesOf(t.left) !! NodesOf(t.right) && t.node !in NodesOf(t.left) && t.node !in NodesOf(t.right)
  }

  lemma {:induction false} ApartWithin<V>(t: Tree<V>, lo: int, hi: int)
    requires Ordered(t, lo, hi)
    ensures TreeApart(t)
  {
    if t.Branch? {
      NodesWithin(t.left, lo, t.node.key);
      NodesWithin(t.right, t.node.key, hi);
    }
  }

  /** No two parts of a split share a node. */
  ghost predicate AllApart<V>(s: Split<V>) {
    && s.mid.Branch?
    && PathNodes(s.ls) !! NodesOf(s.mid) && PathNodes(s.rs) !! NodesOf(s.mid) && PathNodes(s.ls) !! PathNodes(s.rs)
    && (s.ls.Down? ==> s.ls.node !in PathNodes(s.ls.from) && s.ls.node !in NodesOf(s.ls.sub))
    && (s.rs.Down? ==> s.rs.node !in PathNodes(s.rs.from) && s.rs.node !in NodesOf(s.rs.sub))
    && TreeApart(s.mid)
  }

  lemma {:induction false} Apart<V>(s: Split<V>, key: int)
    requires SplitAt(s, key)
    ensures AllApart(s) && TreeApart(s.mid.left) && TreeApart(s.mid.right)
  {
    var lo, hi := KeyAtEnd(-1, s.ls), KeyAtEnd(KEY_SIZE, s.rs);
    LeftBelow(s.ls);
    RightAbove(s.rs);
    NodesWithin(s.mid, lo, hi);
    if s.ls.Down? {
      LeftBelow(s.ls.from);
      NodesWithin(s.ls.sub, KeyAtEnd(-1, s.ls.from), s.ls.node.key);
    }
    if s.rs.Down? {
      RightAbove(s.rs.from);
      NodesWithin(s.rs.sub, s.rs.node.key, KeyAtEnd(KEY_SIZE, s.rs.from));
    }
    ApartWithin(s.mid, lo, hi);
    ApartWithin(s.mid.left, lo, s.mid.node.key);
    ApartWithin(s.mid.right, s.mid.node.key, hi);
  }

  lemma {:induction false} HasMiddle<V>(s: Split<V>, key: int)
    requires SplitAt(s, key)
    ensures s.mid.Branch?
  {
  }

  function RotatedRight<V>(t: Tree<V>): Tree<V>
    requires t.Branch? && t.left.Branch?
  {
    Branch(t.left.left, t.left.node, Branch(t.left.right, t.node, t.right))
  }

  function RotatedLeft<V>(t: Tree<V>): Tree<V>
    requires t.Branch? && t.right.Branch?
  {
    Branch(Branch(t.left, t.node, t.right.left), t.right.node, t.right.right)
  }

  function LinkedLeft<V>(s: Split<V>): Split<V>
    requires s.mid.Branch?
  {
    Split(s.ls, s.mid.left, Down(s.rs, s.mid.node, s.mid.right))
  }

  function LinkedRight<V>(s: Split<V>): Split<V>
    requires s.mid.Branch?
  {
    Split(Down(s.ls, s.mid.node, s.mid.left), s.mid.right, s.rs)
  }

  lemma {:induction false} RotatedRightKeeps<V>(s: Split<V>, key: int)
    requires SplitAt(s, key) && s.mid.left.Branch?
    ensures var r := s.(mid := RotatedRight(s.mid));
            SplitAt(r, key) && InOrderSplit(r) == InOrderSplit(s) && SplitNodes(r) == SplitNodes(s)
  {
    var t := s.mid;
    var lo, hi := KeyAtEnd(-1, s.ls), KeyAtEnd(KEY_SIZE, s.rs);
    assert Ordered(t, lo, hi) && Ordered(t.left, lo, t.node.key);
    assert Ordered(RotatedRight(t).right, t.left.node.key, hi);
    assert InOrder(RotatedRight(t)) == InOrder(t);
    assert NodesOf(RotatedRight(t)) == NodesOf(t);
  }

  lemma {:induction false} RotatedLeftKeeps<V>(s: Split<V>, key: int)
    requires SplitAt(s, key) && s.mid.right.Branch?
    ensures var r := s.(mid := RotatedLeft(s.mid));
            SplitAt(r, key) && InOrderSplit(r) == InOrderSplit(s) && SplitNodes(r) == SplitNodes(s)
  {
    var t := s.mid;
    var lo, hi := KeyAtEnd(-1, s.ls), KeyAtEnd(KEY_SIZE, s.rs);
    assert Ordered(t, lo, hi) && Ordered(t.right, t.node.key, hi);
    assert Ordered(RotatedLeft(t).left, lo, t.right.node.key);
    assert InOrder(RotatedLeft(t)) == InOrder(t);
    assert NodesOf(RotatedLeft(t)) == NodesOf(t);
  }

  lemma {:induction false} LinkedLeftKeeps<V>(s: Split<V>, key: int)
    requires SplitAt(s, key) && s.mid.left.Branch? && key < s.mid.node.key
    ensures var r := LinkedLeft(s);
            SplitAt(r, key) && InOrderSplit(r) == InOrderSplit(s) && SplitNodes(r) == SplitNodes(s)
  {
    var a, b, c := InOrder(s.mid.left), [s.mid.node] + InOrder(s.mid.right), InOrderRight(s.rs);
    assert InOrder(s.mid) == a + b;
    assert InOrderLeft(s.ls) + (a + b) + c == InOrderLeft(s.ls) + a + (b + c);
  }

  lemma {:induction false} LinkedRightKeeps<V>(s: Split<V>, key: int)
    requires SplitAt(s, key) && s.mid.right.Branch? && s.mid.node.key < key
    ensures var r := LinkedRight(s);
            SplitAt(r, key) && InOrderSplit(r) == InOrderSplit(s) && SplitNodes(r) == SplitNodes(s)
  {
    var a, b, c := InOrder(s.mid.left) + [s.mid.node], InOrder(s.mid.right), InOrderLeft(s.ls);
    assert InOrder(s.mid) == a + b;
    assert c + (a + b) + InOrderRight(s.rs) == (c + a) + b + InOrderRight(s.rs);
  }

  /** The assignments of SPLAY_ROTATE_RIGHT to links. */
  method TurnRight<V>(root: Node<V>, tmp: Node<V>, ghost t: Tree<V>)
    requires t.Branch? && t.left.Branch? && Linked(t) && TreeApart(t) && TreeApart(t.left)
    requires root == t.node && tmp == t.left.node
    modifies root, tmp
    ensures Linked(RotatedRight(t))
  {
    ghost var a, b, c := t.left.left, t.left.right, t.right;
    assert Linked(t.left);
    root.left := tmp.right;
    tmp.right := root;
    assert Linked(a) && Linked(b) && Linked(c);
  }

  function InsertedAt<V>(t: Tree<V>, n: Node<V>): Tree<V>
    requires t.Branch?
  {
    if n.key < t.node.key then Branch(t.left, n, Branch(Leaf, t.node, t.right))
    else Branch(Branch(t.left, t.node, Leaf), n, t.right)
  }

  /** Makes a node the root of a splayed tree, with what was the root below it. */
  method LinkInserted<V>(elm: Node<V>, root: Node<V>, ghost t: Tree<V>)
    requires t.Branch? && root == t.node && Linked(t) && TreeApart(t) && elm !in NodesOf(t) && elm.key != root.key
    modifies elm, root
    ensures Linked(InsertedAt(t, elm))
  {
    if elm.key < root.key {
      elm.left := root.left;
      elm.right := root;
      root.left := null;
    } else {
      elm.right := root.right;
      elm.left := root;
      root.right := null;
    }
    assert Linked(t.left) && Linked(t.right);
  }

  /** Both paths end in the subtrees of the tree in the middle. */
  method Join<V>(header: Node<V>, left: Node<V>, right: Node<V>, root: Node<V>, ghost s: Split<V>)
    requires AllApart(s) && header !in SplitNodes(s)
    requires left == End(header, s.ls) && right == End(header, s.rs) && root == s.mid.node
    requires Linked(s.mid) && LeftLinked(header, s.ls) && RightLinked(header, s.rs)
    modifies left`right, right`left
    ensures header.right == Root(FillLeft(s.ls, s.mid.left)) && Linked(FillLeft(s.ls, s.mid.left))
    ensures header.left == Root(FillRight(s.rs, s.mid.right)) && Linked(FillRight(s.rs, s.mid.right))
  {
    hide InOrder;
    hide FillLeft;
    hide FillRight;
    left.right := root.left;
    right.left := root.right;
    FillLeftLinked(header, s.ls, s.mid.left);
    FillRightLinked(header, s.rs, s.mid.right);
  }

  method JoinRoot<V>(header: Node<V>, root: Node<V>, ghost t: Tree<V>)
    requires t.Branch? && root == t.node && header.right == Root(t.left) && header.left == Root(t.right)
    requires Linked(t.left) && Linked(t.right) && TreeApart(t) && header != root
    modifies root
    ensures Linked(t)
  {
    root.left := header.right;
    root.right := header.left;
  }

  /** The assignments of SPLAY_ROTATE_LEFT to links. */
  method TurnLeft<V>(root: Node<V>, tmp: Node<V>, ghost t: Tree<V>)
    requires t.Branch? && t.right.Branch? && Linked(t) && TreeApart(t) && TreeApart(t.right)
    requires root == t.node && tmp == t.right.node
    modifies root, tmp
    ensures Linked(RotatedLeft(t))
  {
    ghost var a, b, c := t.left, t.right.left, t.right.right;
    assert Linked(t.right);
    root.right := tmp.left;
    tmp.left := root;
    assert Linked(a) && Linked(b) && Linked(c);
  }

  /** The tree in the middle is hung below the last node of the right path. */
  method HangLeft<V>(root: Node<V>, ghost header: Node<V>, right: Node<V>, ghost s: Split<V>)
    requires AllApart(s) && header !in SplitNodes(s) && right == End(header, s.rs) && root == s.mid.node
    requires Linked(s.mid) && RightLinked(header, s.rs)
    modifies right`left
    ensures RightLinked(header, Down(s.rs, s.mid.node, s.mid.right))
  {
    hide LeftLinked;
    hide InOrder;
    right.left := root;
    assert RightLinked(header, s.rs) && Linked(s.mid.right);
  }

  /** ... and below the last node of the left path. */
  method HangRight<V>(root: Node<V>, ghost header: Node<V>, left: Node<V>, ghost s: Split<V>)
    requires AllApart(s) && header !in SplitNodes(s) && left == End(header, s.ls) && root == s.mid.node
    requires Linked(s.mid) && LeftLinked(header, s.ls)
    modifies left`right
    ensures LeftLinked(header, Down(s.ls, s.mid.node, s.mid.left))
  {
    hide RightLinked;
    hide InOrder;
    left.right := root;
    assert LeftLinked(header, s.ls) && Linked(s.mid.left);
  }

  lemma {:induction false} MiddleNodes<V>(t: Tree<V>)
    requires t.Branch?
    ensures t.node in NodesOf(t)
    ensures t.left.Branch? ==> t.left.node in NodesOf(t)
    ensures t.right.Branch? ==> t.right.node in NodesOf(t)
  {
    assert t.left.Branch? ==> t.left.node in NodesOf(t.left);
    assert t.right.Branch? ==> t.right.node in NodesOf(t.right);
  }

  lemma {:induction false} ChildInside<V>(s: Split<V>)
    requires s.mid.Branch?
    ensures s.mid.node in SplitNodes(s)
    ensures s.mid.left.Branch? ==> s.mid.left.node in SplitNodes(s)
    ensures s.mid.right.Branch? ==> s.mid.right.node in SplitNodes(s)
  {
    assert s.mid.left.Branch? ==> s.mid.left.node in NodesOf(s.mid.left);
    assert s.mid.right.Branch? ==> s.mid.right.node in NodesOf(s.mid.right);
  }

  lemma {:induction false} EndsApart<V>(header: Node<V>, s: Split<V>)
    requires AllApart(s) && header !in SplitNodes(s)
    ensures End(header, s.ls) in {header} + PathNodes(s.ls) && End(header, s.rs) in {header} + PathNodes(s.rs)
    ensures End(header, s.ls) !in NodesOf(s.mid) + PathNodes(s.rs) && End(header, s.rs) !in NodesOf(s.mid) + PathNodes(s.ls)
  {
  }

  lemma {:induction false} EndInside<V>(header: Node<V>, s: Split<V>)
    ensures End(header, s.ls) in {header} + SplitNodes(s) && End(header, s.rs) in {header} + SplitNodes(s)
  {
  }

  lemma {:induction false} StartSplit<V>(t: Tree<V>, key: int)
    requires t.Branch? && Ordered(t, -1, KEY_SIZE)
    ensures var s := Split(Top, t, Top);
            SplitAt(s, key) && InOrderSplit(s) == InOrder(t) && SplitNodes(s) == NodesOf(t)
  {
  }

  /** The loop has found the key, or no node to go on to. */
  predicate Settled<V>(s: Split<V>, key: int) {
    && s.mid.Branch?
    && (key < s.mid.node.key ==> s.mid.left.Leaf?)
    && (key > s.mid.node.key ==> s.mid.right.Leaf?)
  }

  /** No key lies between the sought one and the root's. */
  ghost predicate Splayed<V>(t: Tree<V>, key: int) {
    && t.Branch?
    && (key < t.node.key ==> forall n | n in NodesOf(t.left) :: n.key < key)
    && (key > t.node.key ==> forall n | n in NodesOf(t.right) :: key < n.key)
  }

  lemma {:induction false} SettledSplayed<V>(s: Split<V>, key: int)
    requires SplitAt(s, key) && Settled(s, key)
    ensures Splayed(Whole(s), key)
  {
    LeftBelow(s.ls);
    RightAbove(s.rs);
    FillLeftInOrder(s.ls, s.mid.left);
    FillRightInOrder(s.rs, s.mid.right);
  }

  // ----- The tree as a sorted sequence -----

  /** The number of nodes below a key. */
  function Rank<V>(s: seq<Node<V>>, key: int): (i: nat)
    ensures i <= |s|
  {
    if s == [] || s[0].key >= key then 0 else 1 + Rank(s[1..], key)
  }

  function Lookup<V>(s: seq<Node<V>>, key: int): Node?<V> {
    var i := Rank(s, key);
    if i < |s| && s[i].key == key then s[i] else null
  }

  function Inserted<V>(s: seq<Node<V>>, n: Node<V>): seq<Node<V>> {
    var i := Rank(s, n.key);
    s[..i] + [n] + s[i..]
  }

  function Removed<V>(s: seq<Node<V>>, key: int): seq<Node<V>> {
    var i := Rank(s, key);
    if Lookup(s, key) == null then s else s[..i] + s[i + 1..]
  }

  function Follower<V>(s: seq<Node<V>>, n: Node<V>): Node?<V> {
    var i := Rank(s, n.key) + 1;
    if i < |s| then s[i] else null
  }

  lemma {:induction false} RankIs<V>(s: seq<Node<V>>, key: int, i: nat)
    requires i <= |s| && (forall j | 0 <= j < i :: s[j].key < key) && (i < |s| ==> s[i].key >= key)
    ensures Rank(s, key) == i
  {
    if i > 0 {
      RankIs(s[1..], key, i - 1);
    }
  }

  lemma {:induction false} SplayedRank<V>(t: Tree<V>, key: int)
    requires Ordered(t, -1, KEY_SIZE) && Splayed(t, key)
    ensures Rank(InOrder(t), key) == |InOrder(t.left)| + if key > t.node.key then 1 else 0
  {
    var a, b := InOrder(t.left), InOrder(t.right);
    OrderedAscending(t.left, -1, t.node.key);
    OrderedAscending(t.right, t.node.key, KEY_SIZE);
    InOrderNodes(t.left);
    InOrderNodes(t.right);
    assert InOrder(t) == a + [t.node] + b;
    forall j | 0 <= j < |a|
      ensures a[j].key < t.node.key && a[j].key < key
    {
      assert a[j] in a;
      InOrderHas(t.left, a[j]);
    }
    if b != [] {
      InOrderHas(t.right, b[0]);
    }
    RankIs(InOrder(t), key, |a| + if key > t.node.key then 1 else 0);
  }

  lemma {:induction false} SplayedLookup<V>(t: Tree<V>, key: int)
    requires Ordered(t, -1, KEY_SIZE) && Splayed(t, key)
    ensures Lookup(InOrder(t), key) == if key == t.node.key then t.node else null
  {
    SplayedRank(t, key);
    var b := InOrder(t.right);
    InOrderNodes(t.right);
    assert b != [] ==> b[0] in b;
  }

  /** An element is found at the root, and its follower at the left end of the right subtree. */
  lemma {:induction false} SplayedFollower<V>(t: Tree<V>, elm: Node<V>)
    requires Ordered(t, -1, KEY_SIZE) && Splayed(t, elm.key) && elm in InOrder(t)
    ensures t.node == elm
    ensures Follower(InOrder(t), elm) == if t.right.Leaf? then null else InOrder(t.right)[0]
  {
    InOrderNodes(t);
    NodesWithin(t.left, -1, t.node.key);
    NodesWithin(t.right, t.node.key, KEY_SIZE);
    SplayedRank(t, elm.key);
  }

  /** A tree is ordered between whatever bounds its keys lie in. */
  lemma {:induction false} Between<V>(t: Tree<V>, lo: int, hi: int, lo': int, hi': int)
    requires Ordered(t, lo, hi) && forall n | n in NodesOf(t) :: lo' < n.key < hi'
    ensures Ordered(t, lo', hi')
  {
    if t.Branch? {
      assert t.node in NodesOf(t);
      NodesWithin(t.left, lo, t.node.key);
      NodesWithin(t.right, t.node.key, hi);
      Between(t.left, lo, t.node.key, lo', t.node.key);
      Between(t.right, t.node.key, hi, t.node.key, hi');
    }
  }

  lemma {:induction false} InsertedBefore<V>(t: Tree<V>, n: Node<V>)
    requires Ordered(t, -1, KEY_SIZE) && Splayed(t, n.key) && n.key < t.node.key
    ensures Ordered(InsertedAt(t, n), -1, KEY_SIZE) && NodesOf(InsertedAt(t, n)) == NodesOf(t) + {n}
    ensures InOrder(InsertedAt(t, n)) == InOrder(t.left) + [n] + ([t.node] + InOrder(t.right))
  {
    NodesWithin(t.left, -1, t.node.key);
    Between(t.left, -1, t.node.key, -1, n.key);
    var above := Branch(Leaf, t.node, t.right);
    assert InOrder(above) == [t.node] + InOrder(t.right);
    assert NodesOf(above) == NodesOf(above.left) + {t.node} + NodesOf(t.right);
  }

  lemma {:induction false} InsertedAfter<V>(t: Tree<V>, n: Node<V>)
    requires Ordered(t, -1, KEY_SIZE) && Splayed(t, n.key) && t.node.key < n.key
    ensures Ordered(InsertedAt(t, n), -1, KEY_SIZE) && NodesOf(InsertedAt(t, n)) == NodesOf(t) + {n}
    ensures InOrder(InsertedAt(t, n)) == InOrder(t.left) + [t.node] + [n] + InOrder(t.right)
  {
    NodesWithin(t.right, t.node.key, KEY_SIZE);
    Between(t.right, t.node.key, KEY_SIZE, n.key, KEY_SIZE);
    var below := Branch(t.left, t.node, Leaf);
    assert InOrder(below) == InOrder(t.left) + [t.node];
    assert NodesOf(below) == NodesOf(t.left) + {t.node} + NodesOf(below.right);
    assert Ordered(below, -1, n.key);
  }

  lemma {:induction false} SplayedInsert<V>(t: Tree<V>, n: Node<V>)
    requires Ordered(t, -1, KEY_SIZE) && Splayed(t, n.key) && n.key != t.node.key
    ensures TreeApart(t) && Ordered(InsertedAt(t, n), -1, KEY_SIZE)
    ensures InOrder(InsertedAt(t, n)) == Inserted(InOrder(t), n)
    ensures NodesOf(InsertedAt(t, n)) == NodesOf(t) + {n}
  {
    hide Ordered;
    hide NodesOf;
    hide Rank;
    hide InsertedAt;
    ApartWithin(t, -1, KEY_SIZE);
    SplayedRank(t, n.key);
    var a, b := InOrder(t.left), InOrder(t.right);
    assert InOrder(t) == a + [t.node] + b;
    if n.key < t.node.key {
      InsertedBefore(t, n);
    } else {
      InsertedAfter(t, n);
    }
  }

  lemma {:induction false} SplayedRemove<V>(t: Tree<V>, key: int)
    requires Ordered(t, -1, KEY_SIZE) && Splayed(t, key) && t.node.key == key
    ensures Removed(InOrder(t), key) == InOrder(t.left) + InOrder(t.right)
    ensures Ordered(t.left, -1, KEY_SIZE) && Ordered(t.right, -1, KEY_SIZE)
  {
    SplayedLookup(t, key);
    SplayedRank(t, key);
    OrderedWider(t.left, -1, key, -1, KEY_SIZE);
    OrderedWider(t.right, key, KEY_SIZE, -1, KEY_SIZE);
  }

  lemma {:induction false} NothingAbove<V>(t: Tree<V>, key: int)
    requires Splayed(t, key) && forall n | n in NodesOf(t) :: n.key < key
    ensures t.right.Leaf?
  {
    if t.right.Branch? {
      assert t.right.node in NodesOf(t.right);
      assert t.right.node in NodesOf(t);
    }
  }

  lemma {:induction false} SplayedExtreme<V>(t: Tree<V>)
    requires t.Branch? && Ordered(t, -1, KEY_SIZE)
    ensures InOrder(t) != []
    ensures Splayed(t, -1) ==> InOrder(t)[0] == t.node
    ensures Splayed(t, KEY_SIZE) ==> InOrder(t)[|InOrder(t)| - 1] == t.node
  {
    assert t.left.Branch? ==> t.left.node in NodesOf(t.left);
    assert t.right.Branch? ==> t.right.node in NodesOf(t.right);
  }

  class SplayTree<V> {
    var root: Node?<V>
    ghost var tree: Tree<V>

    ghost predicate Valid()
      reads this, NodesOf(tree)`left, NodesOf(tree)`right
    {
      root == Root(tree) && Linked(tree) && Ordered(tree, -1, KEY_SIZE)
    }

    /** A splay in progress: the header's right link leads to the left path, its left link to the right one. */
    ghost predicate Splitting(header: Node<V>, left: Node<V>, right: Node<V>, s: Split<V>, key: int)
      reads this`root, header, SplitNodes(s)`left, SplitNodes(s)`right
    {
      && header !in SplitNodes(s) && SplitAt(s, key)
      && left == End(header, s.ls) && right == End(header, s.rs) && root == s.mid.node
      && Linked(s.mid) && LeftLinked(header, s.ls) && RightLinked(header, s.rs)
    }

    /** SPLAY_ROTATE_RIGHT */
    method RotateRight(tmp: Node<V>, ghost header: Node<V>, ghost left: Node<V>, ghost right: Node<V>,
                       ghost s: Split<V>, ghost key: int)
        returns (ghost r: Split<V>)
      requires Splitting(header, left, right, s, key) && s.mid.left.Branch? && tmp == s.mid.left.node
      modifies this`root, s.mid.node, tmp
      ensures r == s.(mid := RotatedRight(s.mid)) && Splitting(header, left, right, r, key)
      ensures InOrderSplit(r) == InOrderSplit(s) && SplitNodes(r) == SplitNodes(s)
    {
      hide SplitAt;
      hide InOrderSplit;
      hide Linked;
      hide LeftLinked;
      hide RightLinked;
      hide NodesOf;
      hide PathNodes;
      hide TreeApart;
      Apart(s, key);
      RotatedRightKeeps(s, key);
      HasMiddle(s, key);
      MiddleNodes(s.mid);
      PathAllocated(s.ls);
      PathAllocated(s.rs);
      TurnRight(root, tmp, s.mid);
      root := tmp;
      r := s.(mid := RotatedRight(s.mid));
    }

    /** SPLAY_LINKLEFT */
    method LinkLeft(ghost header: Node<V>, ghost left: Node<V>, right: Node<V>, ghost s: Split<V>, ghost key: int)
        returns (right': Node<V>, ghost r: Split<V>)
      requires Splitting(header, left, right, s, key) && s.mid.left.Branch? && key < s.mid.node.key
      modifies this`root, right
      ensures r == LinkedLeft(s) && Splitting(header, left, right', r, key)
      ensures InOrderSplit(r) == InOrderSplit(s) && SplitNodes(r) == SplitNodes(s)
    {
      hide SplitAt;
      hide InOrderSplit;
      hide LeftLinked;
      hide RightLinked;
      hide PathNodes;
      hide TreeApart;
      Apart(s, key);
      LinkedLeftKeeps(s, key);
      HasMiddle(s, key);
      EndsApart(header, s);
      PathAllocated(s.ls);
      NodesAllocated(s.mid.left);
      HangLeft(root, header, right, s);
      right' := root;
      root := root.left;
      r := LinkedLeft(s);
    }

    /** SPLAY_ROTATE_LEFT */
    method RotateLeft(tmp: Node<V>, ghost header: Node<V>, ghost left: Node<V>, ghost right: Node<V>,
                      ghost s: Split<V>, ghost key: int)
        returns (ghost r: Split<V>)
      requires Splitting(header, left, right, s, key) && s.mid.right.Branch? && tmp == s.mid.right.node
      modifies this`root, s.mid.node, tmp
      ensures r == s.(mid := RotatedLeft(s.mid)) && Splitting(header, left, right, r, key)
      ensures InOrderSplit(r) == InOrderSplit(s) && SplitNodes(r) == SplitNodes(s)
    {
      hide SplitAt;
      hide InOrderSplit;
      hide Linked;
      hide LeftLinked;
      hide RightLinked;
      hide NodesOf;
      hide PathNodes;
      hide TreeApart;
      Apart(s, key);
      RotatedLeftKeeps(s, key);
      HasMiddle(s, key);
      MiddleNodes(s.mid);
      PathAllocated(s.ls);
      PathAllocated(s.rs);
      TurnLeft(root, tmp, s.mid);
      root := tmp;
      r := s.(mid := RotatedLeft(s.mid));
    }

    /** SPLAY_LINKRIGHT */
    method LinkRight(ghost header: Node<V>, left: Node<V>, ghost right: Node<V>, ghost s: Split<V>, ghost key: int)
        returns (left': Node<V>, ghost r: Split<V>)
      requires Splitting(header, left, right, s, key) && s.mid.right.Branch? && s.mid.node.key < key
      modifies this`root, left
      ensures r == LinkedRight(s) && Splitting(header, left', right, r, key)
      ensures InOrderSplit(r) == InOrderSplit(s) && SplitNodes(r) == SplitNodes(s)
    {
      hide SplitAt;
      hide InOrderSplit;
      hide LeftLinked;
      hide RightLinked;
      hide PathNodes;
      hide TreeApart;
      Apart(s, key);
      LinkedRightKeeps(s, key);
      HasMiddle(s, key);
      EndsApart(header, s);
      PathAllocated(s.rs);
      NodesAllocated(s.mid.right);
      HangRight(root, header, left, s);
      left' := root;
      root := root.right;
      r := LinkedRight(s);
    }

    /** SPLAY_ASSEMBLE */
    method Assemble(header: Node<V>, left: Node<V>, right: Node<V>, ghost s: Split<V>, ghost key: int)
      requires Splitting(header, left, right, s, key)
      modifies this, header, SplitNodes(s)
      ensures tree == Whole(s) && Valid()
      ensures InOrder(tree) == InOrderSplit(s) && NodesOf(tree) == SplitNodes(s)
    {
      hide SplitAt;
      hide InOrderSplit;
      hide InOrder;
      hide Linked;
      hide LeftLinked;
      hide RightLinked;
      hide FillLeft;
      hide FillRight;
      hide PathNodes;
      Apart(s, key);
      HasMiddle(s, key);
      EndInside(header, s);
      Join(header, left, right, root, s);
      FillLeftInOrder(s.ls, s.mid.left);
      FillRightInOrder(s.rs, s.mid.right);
      JoinRoot(header, root, Whole(s));
      tree := Whole(s);
      WholeInOrder(s);
      WholeOrdered(s, key);
    }

    // ----- SPLAY -----

    /** One turn of the loop when the key is below the root's. */
    method StepLeft(header: Node<V>, left: Node<V>, right: Node<V>, ghost s: Split<V>, key: int)
        returns (done: bool, right': Node<V>, ghost r: Split<V>)
      requires Splitting(header, left, right, s, key) && key < root.key
      modifies this`root, header, SplitNodes(s)
      ensures Splitting(header, left, right', r, key)
      ensures InOrderSplit(r) == InOrderSplit(s) && SplitNodes(r) == SplitNodes(s)
      ensures if done then key < root.key && r.mid.left.Leaf? else Size(r.mid) < Size(s.mid)
    {
      hide InOrderSplit;
      right', r := right, s;
      ChildInside(s);
      var tmp := root.left;
      if tmp == null {
        return true, right, s;
      }
      if key < tmp.key {
        r := RotateRight(tmp, header, left, right, s, key);
        if root.left == null {
          return true, right, r;
        }
      }
      done := false;
      EndInside(header, r);
      right', r := LinkLeft(header, left, right, r, key);
    }

    /** One turn of the loop when the key is above the root's. */
    method StepRight(header: Node<V>, left: Node<V>, right: Node<V>, ghost s: Split<V>, key: int)
        returns (done: bool, left': Node<V>, ghost r: Split<V>)
      requires Splitting(header, left, right, s, key) && root.key < key
      modifies this`root, header, SplitNodes(s)
      ensures Splitting(header, left', right, r, key)
      ensures InOrderSplit(r) == InOrderSplit(s) && SplitNodes(r) == SplitNodes(s)
      ensures if done then root.key < key && r.mid.right.Leaf? else Size(r.mid) < Size(s.mid)
    {
      hide InOrderSplit;
      left', r := left, s;
      ChildInside(s);
      var tmp := root.right;
      if tmp == null {
        return true, left, s;
      }
      if tmp.key < key {
        r := RotateLeft(tmp, header, left, right, s, key);
        if root.right == null {
          return true, left, r;
        }
      }
      done := false;
      EndInside(header, r);
      left', r := LinkRight(header, left, right, r, key);
    }

    /** SPLAY: brings the node with the key to the root, or else one that no other key lies between. */
    method Splay(key: int)
      requires Valid() && root != null
      modifies this, NodesOf(tree)
      ensures Valid() && InOrder(tree) == old(InOrder(tree)) && NodesOf(tree) == old(NodesOf(tree))
      ensures Splayed(tree, key)
    {
      hide InOrderSplit;
      hide SplitNodes;
      hide SplitAt;
      NodesAllocated(tree);
      var header := new Node(root.key, root.elm);
      var left, right := header, header;
      ghost var s := Split(Top, tree, Top);
      StartSplit(tree, key);
      var done := false;
      while !done && root.key != key
        invariant s.mid.Branch? && root == s.mid.node && Splitting(header, left, right, s, key)
        invariant InOrderSplit(s) == old(InOrder(tree)) && SplitNodes(s) == old(NodesOf(tree))
        invariant done ==> Settled(s, key)
        decreases !done, Size(s.mid)
      {
        if key < root.key {
          done, right, s := StepLeft(header, left, right, s, key);
        } else {
          done, left, s := StepRight(header, left, right, s, key);
        }
        HasMiddle(s, key);
      }
      SettledSplayed(s, key);
      Assemble(header, left, right, s, key);
    }

    // ----- The operations -----

    ghost function Elements(): seq<Node<V>>
      reads this
    {
      InOrder(tree)
    }

    ghost function Nodes(): set<Node<V>>
      reads this
    {
      NodesOf(tree)
    }

    constructor ()
      ensures Valid() && Elements() == []
    {
      root, tree := null, Leaf;
    }

    /** SPLAY_FIND */
    method Find(key: Key) returns (r: Node?<V>)
      requires Valid()
      modifies this, NodesOf(tree)
      ensures Valid() && Elements() == old(Elements()) && NodesOf(tree) == old(NodesOf(tree))
      ensures r == Lookup(Elements(), key)
    {
      if root == null {
        return null;
      }
      Splay(key);
      SplayedLookup(tree, key);
      return if key == root.key then root else null;
    }

    /** Follows left links to the end. */
    static method Leftmost(from: Node<V>, ghost t: Tree<V>) returns (r: Node<V>)
      requires t.Branch? && from == t.node && Linked(t)
      ensures InOrder(t)[0] == r
    {
      r := from;
      ghost var u := t;
      while r.left != null
        invariant u.Branch? && r == u.node && Linked(u) && InOrder(u)[0] == InOrder(t)[0]
        decreases u
      {
        r := r.left;
        u := u.left;
      }
    }

    /** SPLAY_NEXT */
    method Next(elm: Node<V>) returns (r: Node?<V>)
      requires Valid() && elm in Elements()
      modifies this, NodesOf(tree)
      ensures Valid() && Elements() == old(Elements()) && NodesOf(tree) == old(NodesOf(tree))
      ensures r == Follower(Elements(), elm)
    {
      InOrderNodes(tree);
      assert tree.Branch?;
      Splay(elm.key);
      SplayedFollower(tree, elm);
      NodesAllocated(tree);
      if elm.right != null {
        r := Leftmost(elm.right, tree.right);
      } else {
        r := null;
      }
    }

    /** SPLAY_INSERT: null, or the node that has the key already. */
    method Insert(elm: Node<V>) returns (r: Node?<V>)
      requires Valid() && elm !in NodesOf(tree)
      modifies this, NodesOf(tree), elm
      ensures Valid()
      ensures r == Lookup(old(Elements()), elm.key)
      ensures Elements() == if r == null then Inserted(old(Elements()), elm) else old(Elements())
      ensures NodesOf(tree) == old(NodesOf(tree)) + if r == null then {elm} else {}
    {
      if root == null {
        elm.left, elm.right := null, null;
        tree := Branch(Leaf, elm, Leaf);
      } else {
        Splay(elm.key);
        SplayedLookup(tree, elm.key);
        if elm.key == root.key {
          return root;
        }
        SplayedInsert(tree, elm);
        LinkInserted(elm, root, tree);
        tree := InsertedAt(tree, elm);
      }
      root := elm;
      r := null;
    }

    /** Hangs a tree with greater keys below a root that has no right subtree. */
    method HangRest(tmp: Node?<V>, ghost r: Tree<V>, ghost key: int)
      requires Valid() && root != null && tree.right.Leaf? && forall n | n in NodesOf(tree) :: n.key < key
      requires Linked(r) && tmp == Root(r) && Ordered(r, key, KEY_SIZE) && NodesOf(r) !! NodesOf(tree)
      modifies this, root`right
      ensures Valid() && tree == Branch(old(tree.left), old(tree.node), r)
    {
      ApartWithin(tree, -1, KEY_SIZE);
      NodesWithin(r, key, KEY_SIZE);
      NodesAllocated(r);
      root.right := tmp;
      Between(r, key, KEY_SIZE, tree.node.key, KEY_SIZE);
      tree := Branch(tree.left, tree.node, r);
    }

    /** The root has a left subtree: its last node becomes the root. */
    method RemoveRoot(key: Key)
      requires Valid() && root != null && root.key == key && root.left != null
      requires Ordered(tree.left, -1, KEY_SIZE) && Ordered(tree.right, -1, KEY_SIZE)
      modifies this, NodesOf(tree)
      ensures Valid() && NodesOf(tree) <= old(NodesOf(tree))
      ensures Elements() == InOrder(old(tree).left) + InOrder(old(tree).right)
    {
      ghost var l, r := tree.left, tree.right;
      ApartWithin(tree, -1, KEY_SIZE);
      NodesWithin(l, -1, key);
      NodesWithin(r, key, KEY_SIZE);
      NodesAllocated(r);
      var tmp := root.right;
      root, tree := root.left, tree.left;
      Splay(key);
      NothingAbove(tree, key);
      HangRest(tmp, r, key);
    }

    /** SPLAY_REMOVE: the argument, if its key was in the tree. */
    method Remove(elm: Node<V>) returns (r: Node?<V>)
      requires Valid()
      modifies this, NodesOf(tree)
      ensures Valid()
      ensures r == if Lookup(old(Elements()), elm.key) == null then null else elm
      ensures Elements() == Removed(old(Elements()), elm.key)
      ensures NodesOf(tree) <= old(NodesOf(tree))
    {
      if root == null {
        return null;
      }
      Splay(elm.key);
      SplayedLookup(tree, elm.key);
      if elm.key != root.key {
        return null;
      }
      SplayedRemove(tree, elm.key);
      if root.left == null {
        root, tree := root.right, tree.right;
      } else {
        RemoveRoot(elm.key);
      }
      r := elm;
    }

    /** SPLAY_MINMAX: the same loop as SPLAY with every comparison going one way. */
    method MinMax(smallest: bool) returns (r: Node?<V>)
      requires Valid() && root != null
      modifies this, NodesOf(tree)
      ensures Valid() && Elements() == old(Elements()) && NodesOf(tree) == old(NodesOf(tree))
      ensures Elements() != [] && r == if smallest then Elements()[0] else Elements()[|Elements()| - 1]
    {
      Splay(if smallest then -1 else KEY_SIZE);
      SplayedExtreme(tree);
      return root;
    }
  }

  // ----- The tree as a finite map -----

  /** The sequence holds exactly the nodes that the map assigns to keys. */
  ghost predicate Spells<V>(s: seq<Node<V>>, m: map<Key, Node<V>>) {
    && (forall n | n in s :: n.key in m && m[n.key] == n)
    && (forall k | k in m :: m[k] in s && m[k].key == k)
  }

  lemma {:induction false} RankSplits<V>(s: seq<Node<V>>, key: int)
    requires Ascending(s)
    ensures forall j | 0 <= j < |s| :: s[j].key < key <==> j < Rank(s, key)
  {
    if s != [] && s[0].key < key {
      RankSplits(s[1..], key);
      assert forall j | 1 <= j < |s| :: s[j] == s[1..][j - 1];
    }
  }

  /** Looking a key up in the sequence is looking it up in the map. */
  lemma {:induction false} LookupIsMap<V>(s: seq<Node<V>>, m: map<Key, Node<V>>, key: Key)
    requires Ascending(s) && Spells(s, m)
    ensures Lookup(s, key) == if key in m then m[key] else null
  {
    RankSplits(s, key);
    if key in m {
      var j :| 0 <= j < |s| && s[j] == m[key];
      assert Rank(s, key) <= j;
    }
  }

  lemma {:induction false} InsertedAscending<V>(s: seq<Node<V>>, n: Node<V>)
    requires Ascending(s) && Lookup(s, n.key) == null
    ensures Ascending(Inserted(s, n))
  {
    RankSplits(s, n.key);
    var i, r := Rank(s, n.key), Inserted(s, n);
    forall j, k | 0 <= j < k < |r|
      ensures r[j].key < r[k].key
    {
      var j', k' := if j < i then j else j - 1, if k < i then k else k - 1;
      assert j != i ==> r[j] == s[j'];
      assert k != i ==> r[k] == s[k'];
    }
  }

  lemma {:induction false} InsertedHolds<V>(s: seq<Node<V>>, n: Node<V>, x: Node<V>)
    ensures x in Inserted(s, n) <==> x in s || x == n
  {
    var i := Rank(s, n.key);
    assert s == s[..i] + s[i..];
  }

  lemma {:induction false} SpellsMore<V>(s: seq<Node<V>>, m: map<Key, Node<V>>, n: Node<V>, r: seq<Node<V>>)
    requires Spells(s, m) && n.key !in m && forall x: Node<V> :: x in r <==> x in s || x == n
    ensures Spells(r, m[n.key := n])
  {
    var m' := m[n.key := n];
    forall k | k in m'
      ensures m'[k] in r && m'[k].key == k
    {
      assert k == n.key || k in m;
    }
    forall x | x in r
      ensures x.key in m' && m'[x.key] == x
    {
      assert x in s || x == n;
    }
  }

  lemma {:induction false} SpellsLess<V>(s: seq<Node<V>>, m: map<Key, Node<V>>, key: Key, r: seq<Node<V>>)
    requires Spells(s, m) && forall x: Node<V> :: x in r <==> x in s && x.key != key
    ensures Spells(r, m - {key})
  {
    var m' := m - {key};
    forall k | k in m'
      ensures m'[k] in r && m'[k].key == k
    {
      assert k in m && k != key;
    }
    forall x | x in r
      ensures x.key in m' && m'[x.key] == x
    {
      assert x in s && x.key != key;
    }
  }

  lemma {:induction false} InsertedIsMap<V>(s: seq<Node<V>>, m: map<Key, Node<V>>, n: Node<V>)
    requires Ascending(s) && Spells(s, m) && Lookup(s, n.key) == null
    ensures Ascending(Inserted(s, n)) && Spells(Inserted(s, n), m[n.key := n])
  {
    hide Ascending;
    hide Inserted;
    hide Lookup;
    InsertedAscending(s, n);
    LookupIsMap(s, m, n.key);
    hide Spells;
    forall x: Node<V>
      ensures x in Inserted(s, n) <==> x in s || x == n
    {
      InsertedHolds(s, n, x);
    }
    SpellsMore(s, m, n, Inserted(s, n));
  }

  lemma {:induction false} RemovedAscending<V>(s: seq<Node<V>>, key: Key)
    requires Ascending(s)
    ensures Ascending(Removed(s, key))
  {
    var i, r := Rank(s, key), Removed(s, key);
    if Lookup(s, key) != null {
      forall j, k | 0 <= j < k < |r|
        ensures r[j].key < r[k].key
      {
        assert r[j] == s[if j < i then j else j + 1];
        assert r[k] == s[if k < i then k else k + 1];
      }
    }
  }

  lemma {:induction false} RemovedHolds<V>(s: seq<Node<V>>, key: Key, x: Node<V>)
    requires Ascending(s)
    ensures x in Removed(s, key) <==> x in s && x.key != key
  {
    RankSplits(s, key);
    var i := Rank(s, key);
    if Lookup(s, key) != null {
      assert s == s[..i] + [s[i]] + s[i + 1..];
      if x in s && x.key != key {
        var j :| 0 <= j < |s| && s[j] == x;
        assert x in s[..i] || x in s[i + 1..];
      }
      if x in s[i + 1..] {
        var j :| i + 1 <= j < |s| && s[j] == x;
      }
    } else if x in s {
      var j :| 0 <= j < |s| && s[j] == x;
      assert j >= i ==> s[i].key <= s[j].key;
    }
  }

  lemma {:induction false} RemovedIsMap<V>(s: seq<Node<V>>, m: map<Key, Node<V>>, key: Key)
    requires Ascending(s) && Spells(s, m)
    ensures Ascending(Removed(s, key)) && Spells(Removed(s, key), m - {key})
  {
    hide Ascending;
    hide Removed;
    RemovedAscending(s, key);
    hide Spells;
    forall x: Node<V>
      ensures x in Removed(s, key) <==> x in s && x.key != key
    {
      RemovedHolds(s, key, x);
    }
    SpellsLess(s, m, key, Removed(s, key));
  }

  /** The follower has the least key above the node's. */
  lemma {:induction false} FollowerIsNext<V>(s: seq<Node<V>>, n: Node<V>)
    requires Ascending(s) && n in s
    ensures var f := Follower(s, n);
            if f == null then forall m | m in s :: m.key <= n.key
            else f in s && n.key < f.key && forall m | m in s :: m.key <= n.key || f.key <= m.key
  {
    RankSplits(s, n.key);
    var i := Rank(s, n.key);
    assert s[i] == n;
  }
}
