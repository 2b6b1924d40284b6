/** The top-down splay tree of tree.h, on heap nodes. */
module SplayTree {
  import opened SplayShape

  /** The links are what the fields hold. */
  ghost predicate Mirror(m: Links)
    reads m.Keys`left, m.Keys`right
  {
    forall x {:trigger m[x]} | x in m :: x.left == m[x].left && x.right == m[x].right
  }

  method SetLeft(x: Node, y: Node?, ghost m: Links) returns (ghost m': Links)
    requires Mirror(m) && x in m
    modifies x`left
    ensures m' == m[x := Link(y, m[x].right)] && Mirror(m')
  {
    x.left := y;
    m' := m[x := Link(y, m[x].right)];
  }

  method SetRight(x: Node, y: Node?, ghost m: Links) returns (ghost m': Links)
    requires Mirror(m) && x in m
    modifies x`right
    ensures m' == m[x := Link(m[x].left, y)] && Mirror(m')
  {
    x.right := y;
    m' := m[x := Link(m[x].left, y)];
  }

  lemma {:induction false} SplayStarts(m: Links, m': Links, t: Tree, top: Node)
    requires t.Fork? && Shape(m, t) && Sorted(InOrder(t)) && top !in m && m' == m[top := Link(null, null)]
    requires forall x | x in InOrder(t) :: x in m
    ensures Splaying(m', InOrder(t), [], t, [], top)
  {
    ShapeFrame(m, m', t);
  }

  /** The node on the stack that the two outer trees hang off. */
  method LocalNode(ghost m: Links, ghost t: Tree) returns (node: Node, ghost m': Links)
    requires Mirror(m) && t.Fork? && Shape(m, t) && Sorted(InOrder(t)) && Lists(InOrder(t), m.Keys)
    ensures fresh(node) && node !in m && m'.Keys == m.Keys + {node}
    ensures Mirror(m') && Splaying(m', InOrder(t), [], t, [], node)
  {
    node := new Node(0);
    m' := m[node := Link(null, null)];
    SplayStarts(m, m', t, node);
  }

  // ---- Where the key is ----

  /** The root splits the tree at the key: it has the key if any node does, and is its predecessor
    * or successor otherwise. */
  predicate SplitAt(t: Tree, key: int) {
    t.Fork? && AllBelow(InOrder(t.left), key) && AllAbove(InOrder(t.right), key)
  }

  /** What a splay says about its key. */
  lemma {:induction false} SplitMeans(t: Tree, key: int)
    requires SplitAt(t, key) && Sorted(InOrder(t))
    ensures (exists x :: x in InOrder(t) && x.key == key) <==> t.node.key == key
    ensures t.node.key < key ==> forall x | x in InOrder(t) && x.key < key :: x.key <= t.node.key
    ensures t.node.key > key ==> forall x | x in InOrder(t) && x.key > key :: x.key >= t.node.key
  {
    NodesOf(t);
    SortedAround(InOrder(t.left), t.node, InOrder(t.right));
  }

  lemma {:induction false} LinkLeftAbove(s: seq<Node>, l: seq<Frame>, t: Tree, r: seq<Frame>, key: int)
    requires t.Fork? && Sorted(InOrder(t)) && AllAbove(RightOrder(r), key) && key < t.node.key
    ensures AllAbove(RightOrder(r + [Frame(t.node, t.right)]), key)
    ensures |InOrder(t.left)| < |InOrder(t)|
  {
    SortedAround(InOrder(t.left), t.node, InOrder(t.right));
    assert (r + [Frame(t.node, t.right)])[..|r|] == r;
  }

  lemma {:induction false} LinkRightBelow(s: seq<Node>, l: seq<Frame>, t: Tree, r: seq<Frame>, key: int)
    requires t.Fork? && Sorted(InOrder(t)) && AllBelow(LeftOrder(l), key) && t.node.key < key
    ensures AllBelow(LeftOrder(l + [Frame(t.node, t.left)]), key)
    ensures |InOrder(t.right)| < |InOrder(t)|
  {
    SortedAround(InOrder(t.left), t.node, InOrder(t.right));
    assert (l + [Frame(t.node, t.left)])[..|l|] == l;
  }

  predicate Lists(s: seq<Node>, nodes: set<Node>) {
    (forall x | x in nodes :: x in s) && (forall x | x in s :: x in nodes)
  }

  /** The loop's picture, with the key between the two outer trees. */
  ghost predicate InLoop(m: Links, s: seq<Node>, l: seq<Frame>, t: Tree, r: seq<Frame>, top: Node, key: int) {
    Splaying(m, s, l, t, r, top) && AllBelow(LeftOrder(l), key) && AllAbove(RightOrder(r), key)
  }

  lemma {:induction false} AssembledSplits(s: seq<Node>, l: seq<Frame>, t: Tree, r: seq<Frame>, key: int)
    requires t.Fork? && Sorted(InOrder(t)) && AllBelow(LeftOrder(l), key) && AllAbove(RightOrder(r), key)
    requires t.node.key == key || (key < t.node.key && t.left.Nil?) || (key > t.node.key && t.right.Nil?)
    ensures SplitAt(Assembled(l, t, r), key)
  {
    SortedAround(InOrder(t.left), t.node, InOrder(t.right));
    PlugOrder(l, t.left);
    PlugOrder(r, t.right);
  }

  lemma RotateRightReady(m: Links, s: seq<Node>, l: seq<Frame>, t: Tree, r: seq<Frame>, top: Node)
    requires Splaying(m, s, l, t, r, top) && t.left.Fork?
    ensures t.node != t.left.node && Holds(m, t.node, Link(t.left.node, Root(t.right)))
    ensures Holds(m, t.left.node, Link(Root(t.left.left), Root(t.left.right)))
  {
    Apart(s, LeftOrder(l), InOrder(t), RightOrder(r));
    SortedAround(InOrder(t.left), t.node, InOrder(t.right));
    NodesOf(t.left);
    assert Shape(m, t.left);
  }

  lemma RotateLeftReady(m: Links, s: seq<Node>, l: seq<Frame>, t: Tree, r: seq<Frame>, top: Node)
    requires Splaying(m, s, l, t, r, top) && t.right.Fork?
    ensures t.node != t.right.node && Holds(m, t.node, Link(Root(t.left), t.right.node))
    ensures Holds(m, t.right.node, Link(Root(t.right.left), Root(t.right.right)))
  {
    Apart(s, LeftOrder(l), InOrder(t), RightOrder(r));
    SortedAround(InOrder(t.left), t.node, InOrder(t.right));
    NodesOf(t.right);
    assert Shape(m, t.right);
  }

  lemma {:induction false} SplayEnds(m: Links, s: seq<Node>, l: seq<Frame>, t: Tree, r: seq<Frame>, top: Node, key: int)
    requires Sorted(s) && top !in s && t.Fork? && s == LeftOrder(l) + InOrder(t) + RightOrder(r)
    requires Shape(m, Assembled(l, t, r)) && InOrder(Assembled(l, t, r)) == s
    requires AllBelow(LeftOrder(l), key) && AllAbove(RightOrder(r), key)
    requires t.node.key == key || (key < t.node.key && t.left.Nil?) || (key > t.node.key && t.right.Nil?)
    ensures Shape(m - {top}, Assembled(l, t, r)) && SplitAt(Assembled(l, t, r), key)
  {
    Apart(s, LeftOrder(l), InOrder(t), RightOrder(r));
    AssembledSplits(s, l, t, r, key);
    ShapeInLinks(m, Assembled(l, t, r));
    ShapeFrame(m, m - {top}, Assembled(l, t, r));
  }

  function PutBefore(t: Tree, elm: Node): Tree
    requires t.Fork?
  {
    Fork(t.left, elm, Fork(Nil, t.node, t.right))
  }

  function PutAfter(t: Tree, elm: Node): Tree
    requires t.Fork?
  {
    Fork(Fork(t.left, t.node, Nil), elm, t.right)
  }

  lemma PutOrder(a: seq<Node>, x: Node, b: seq<Node>, elm: Node)
    requires Sorted(a + [x] + b) && AllBelow(a, elm.key) && AllAbove(b, elm.key)
    ensures elm.key < x.key ==> Sorted(a + [elm] + ([x] + b))
    ensures elm.key > x.key ==> Sorted(a + [x] + [elm] + b)
  {
    SortedAround(a, x, b);
    if elm.key < x.key {
      SortedJoin([x], b);
      SortedJoin(a, [elm]);
      SortedJoin(a + [elm], [x] + b);
    } else if elm.key > x.key {
      SortedJoin(a, [x]);
      SortedJoin(a + [x], [elm]);
      SortedJoin(a + [x] + [elm], b);
    }
  }

  lemma {:induction false} PutKeepsOrder(t: Tree, elm: Node)
    requires SplitAt(t, elm.key) && Sorted(InOrder(t))
    ensures elm.key < t.node.key ==> Sorted(InOrder(PutBefore(t, elm)))
    ensures elm.key > t.node.key ==> Sorted(InOrder(PutAfter(t, elm)))
  {
    PutOrder(InOrder(t.left), t.node, InOrder(t.right), elm);
    assert InOrder(Fork(Nil, t.node, t.right)) == [t.node] + InOrder(t.right);
    assert InOrder(Fork(t.left, t.node, Nil)) == InOrder(t.left) + [t.node];
  }

  lemma {:induction false} PutLists(t: Tree, elm: Node, nodes: set<Node>)
    requires t.Fork? && Lists(InOrder(t), nodes)
    ensures Lists(InOrder(PutBefore(t, elm)), nodes + {elm}) && Lists(InOrder(PutAfter(t, elm)), nodes + {elm})
  {
    NodesOf(t);
    NodesOf(PutBefore(t, elm));
    NodesOf(PutBefore(t, elm).right);
    NodesOf(PutAfter(t, elm));
    NodesOf(PutAfter(t, elm).left);
  }

  lemma {:induction false} PutShape(m: Links, m': Links, t: Tree, elm: Node)
    requires t.Fork? && Sorted(InOrder(t)) && Shape(m, t) && elm !in m && t.node != elm
    requires m' == m[elm := Link(Root(t.left), t.node)][t.node := Link(null, Root(t.right))]
    ensures Shape(m', PutBefore(t, elm))
  {
    SortedAround(InOrder(t.left), t.node, InOrder(t.right));
    NodesOf(t);
    ShapeInLinks(m, t);
    ShapeFrame(m, m', t.left);
    ShapeFrame(m, m', t.right);
  }

  lemma {:induction false} PutAfterShape(m: Links, m': Links, t: Tree, elm: Node)
    requires t.Fork? && Sorted(InOrder(t)) && Shape(m, t) && elm !in m && t.node != elm
    requires m' == m[elm := Link(t.node, Root(t.right))][t.node := Link(Root(t.left), null)]
    ensures Shape(m', PutAfter(t, elm))
  {
    SortedAround(InOrder(t.left), t.node, InOrder(t.right));
    NodesOf(t);
    ShapeInLinks(m, t);
    ShapeFrame(m, m', t.left);
    ShapeFrame(m, m', t.right);
  }

  function Restrict(m: Links, s: seq<Node>): Links {
    map x | x in m && x in s :: m[x]
  }

  lemma {:induction false} RestrictShape(m: Links, t: Tree)
    requires Shape(m, t)
    ensures Shape(Restrict(m, InOrder(t)), t) && Lists(InOrder(t), Restrict(m, InOrder(t)).Keys)
  {
    ShapeInLinks(m, t);
    ShapeFrame(m, Restrict(m, InOrder(t)), t);
  }

  lemma RestrictParts(m: Links, a: seq<Node>, x: Node, b: seq<Node>)
    requires Sorted(a + [x] + b) && Lists(a + [x] + b, m.Keys)
    ensures Restrict(m, a).Keys !! Restrict(m, b).Keys
    ensures Restrict(m, a).Keys + Restrict(m, b).Keys == m.Keys - {x}
  {
    SortedAround(a, x, b);
    assert forall y | y in a || y == x || y in b :: y in a + [x] + b;
    assert forall y | y in a + [x] + b :: y in a || y == x || y in b;
  }

  /** The subtrees of the root stand by themselves. */
  lemma {:induction false} RemovalParts(m: Links, t: Tree)
    requires t.Fork? && Shape(m, t) && Sorted(InOrder(t)) && Lists(InOrder(t), m.Keys)
    ensures Shape(Restrict(m, InOrder(t.left)), t.left) && Shape(Restrict(m, InOrder(t.right)), t.right)
    ensures Sorted(InOrder(t.left)) && AllBelow(InOrder(t.left), t.node.key)
    ensures Lists(InOrder(t.left), Restrict(m, InOrder(t.left)).Keys)
            && Lists(InOrder(t.right), Restrict(m, InOrder(t.right)).Keys)
    ensures Restrict(m, InOrder(t.left)).Keys !! Restrict(m, InOrder(t.right)).Keys
    ensures Restrict(m, InOrder(t.left)).Keys + Restrict(m, InOrder(t.right)).Keys == m.Keys - {t.node}
  {
    RestrictShape(m, t.left);
    RestrictShape(m, t.right);
    RestrictParts(m, InOrder(t.left), t.node, InOrder(t.right));
    SortedAround(InOrder(t.left), t.node, InOrder(t.right));
  }

  lemma {:induction false} NoLeftPart(m: Links, t: Tree, ml: Links, mr: Links)
    requires t.Fork? && t.left.Nil? && ml == Restrict(m, InOrder(t.left)) && ml.Keys + mr.Keys == m.Keys - {t.node}
    ensures InOrder(t.left) + InOrder(t.right) == InOrder(t.right) && mr.Keys == m.Keys - {t.node}
  {
    assert ml.Keys == {};
  }

  lemma {:induction false} NoneAbove(t: Tree, key: int)
    requires SplitAt(t, key) && AllBelow(InOrder(t), key)
    ensures t.right.Nil?
  {
    NodesOf(t);
    if t.right.Fork? {
      NodesOf(t.right);
      assert false;
    }
  }

  lemma {:induction false} RejoinOrder(l: Tree, r: Tree, a: set<Node>, b: set<Node>)
    requires l.Fork? && l.right.Nil? && Lists(InOrder(l), a) && Lists(InOrder(r), b)
    ensures InOrder(Fork(l.left, l.node, r)) == InOrder(l) + InOrder(r)
    ensures Lists(InOrder(Fork(l.left, l.node, r)), a + b)
  {
    assert InOrder(l) == InOrder(l.left) + [l.node];
    assert forall x | x in InOrder(l) + InOrder(r) :: x in InOrder(l) || x in InOrder(r);
  }

  /** A left tree without a right child at its root takes the right tree there. */
  lemma {:induction false} Rejoin(ml: Links, mr: Links, m': Links, l: Tree, r: Tree)
    requires l.Fork? && l.right.Nil? && Shape(ml, l) && Shape(mr, r) && ml.Keys !! mr.Keys && Sorted(InOrder(l))
    requires m' == (ml + mr)[l.node := Link(Root(l.left), Root(r))]
    ensures Shape(m', Fork(l.left, l.node, r)) && m'.Keys == ml.Keys + mr.Keys
  {
    assert InOrder(l) == InOrder(l.left) + [l.node] + [];
    SortedAround(InOrder(l.left), l.node, []);
    NodesOf(l);
    ShapeInLinks(ml, l);
    ShapeInLinks(mr, r);
    ShapeFrame(ml, m', l.left);
    ShapeFrame(mr, m', r);
  }

  lemma SortedWithout(a: seq<Node>, x: Node, b: seq<Node>)
    requires Sorted(a + [x] + b)
    ensures Sorted(a + b)
  {
    SortedAround(a, x, b);
    SortedJoin(a, b);
  }

  /** Keys are unique. */
  lemma {:induction false} SameKey(t: Tree, elm: Node)
    requires t.Fork? && Sorted(InOrder(t)) && elm in InOrder(t)
    ensures elm.key == t.node.key ==> elm == t.node
  {
    SortedAround(InOrder(t.left), t.node, InOrder(t.right));
    NodesOf(t);
  }

  /** The first and the last of a sorted sequence have its least and greatest key. */
  lemma SortedEnds(s: seq<Node>)
    requires Sorted(s)
    ensures forall x | x in s :: s[0].key <= x.key <= s[|s| - 1].key
  {
    forall x | x in s ensures s[0].key <= x.key <= s[|s| - 1].key {
      var i :| 0 <= i < |s| && s[i] == x;
      assert (i > 0 ==> Before(s[0], s[i])) && (i < |s| - 1 ==> Before(s[i], s[|s| - 1]));
    }
  }

  /** What comes after the root is the first of its right subtree. */
  lemma {:induction false} AfterTop(t: Tree, elm: Node)
    requires Sorted(InOrder(t)) && elm in InOrder(t) && SplitAt(t, elm.key)
    ensures elm == t.node
    ensures t.right.Nil? ==> forall x | x in InOrder(t) :: x.key <= elm.key
    ensures t.right.Fork? ==>
              var s := InOrder(t.right);
              && s != [] && s[0] in InOrder(t) && s[0].key > elm.key
              && forall x | x in InOrder(t) && x.key > elm.key :: x.key >= s[0].key
  {
    SplitMeans(t, elm.key);
    SameKey(t, elm);
    NodesOf(t);
    SortedAround(InOrder(t.left), t.node, InOrder(t.right));
    SortedEnds(InOrder(t.right));
  }

  /** A tree split at a key beyond its nodes has its first or last node at the root. */
  lemma {:induction false} EndIsRoot(t: Tree, key: int)
    requires SplitAt(t, key)
    ensures AllAbove(InOrder(t), key) ==> t.node == InOrder(t)[0]
    ensures AllBelow(InOrder(t), key) ==> t.node == InOrder(t)[|InOrder(t)| - 1]
  {
    NodesOf(t);
    var a, b := InOrder(t.left), InOrder(t.right);
    assert (a != [] ==> a[0] in a) && (b != [] ==> b[0] in b);
  }

  /** A key beyond the first or last node. */
  lemma {:induction false} FarKey(t: Tree, min: bool) returns (key: int)
    requires t.Fork? && Sorted(InOrder(t))
    ensures InOrder(t) != [] && if min then AllAbove(InOrder(t), key) else AllBelow(InOrder(t), key)
  {
    var s := InOrder(t);
    SortedEnds(s);
    key := if min then s[0].key - 1 else s[|s| - 1].key + 1;
  }

  /** The root's fields are its children. */
  lemma {:induction false} ChildFields(m: Links, t: Tree)
    requires Mirror(m) && t.Fork? && Shape(m, t)
    ensures t.node in m && t.node.left == Root(t.left) && t.node.right == Root(t.right)
  {
    ShapeInLinks(m, t);
    NodesOf(t);
  }

  class Head {
    var root: Node?
    ghost var links: Links
    ghost var tree: Tree

    ghost predicate Valid()
      reads this, links.Keys`left, links.Keys`right
    {
      && Mirror(links) && Shape(links, tree) && root == Root(tree) && Sorted(InOrder(tree))
      && Lists(InOrder(tree), links.Keys)
    }

    constructor ()
      ensures Valid() && InOrder(tree) == [] && links == map[]
    {
      root, links, tree := null, map[], Nil;
    }

    /** SPLAY_ROTATE_RIGHT */
    method RotateRight(tmp: Node, ghost m: Links, ghost s: seq<Node>, ghost l: seq<Frame>, ghost t: Tree,
                       ghost r: seq<Frame>, ghost top: Node)
      returns (ghost m': Links)
      requires Mirror(m) && Splaying(m, s, l, t, r, top) && root == t.node && t.left.Fork? && tmp == t.left.node
      modifies this`root, m.Keys`left, m.Keys`right
      ensures m'.Keys == m.Keys && Mirror(m') && root == tmp && Splaying(m', s, l, RotatedRight(t), r, top)
    {
      RotateRightReady(m, s, l, t, r, top);
      m' := SetLeft(root, tmp.right, m);
      m' := SetRight(tmp, root, m');
      root := tmp;
      RotateRightKeeps(m, m', s, l, t, r, top);
    }

    /** SPLAY_ROTATE_LEFT */
    method RotateLeft(tmp: Node, ghost m: Links, ghost s: seq<Node>, ghost l: seq<Frame>, ghost t: Tree,
                      ghost r: seq<Frame>, ghost top: Node)
      returns (ghost m': Links)
      requires Mirror(m) && Splaying(m, s, l, t, r, top) && root == t.node && t.right.Fork? && tmp == t.right.node
      modifies this`root, m.Keys`left, m.Keys`right
      ensures m'.Keys == m.Keys && Mirror(m') && root == tmp && Splaying(m', s, l, RotatedLeft(t), r, top)
    {
      RotateLeftReady(m, s, l, t, r, top);
      m' := SetRight(root, tmp.left, m);
      m' := SetLeft(tmp, root, m');
      root := tmp;
      RotateLeftKeeps(m, m', s, l, t, r, top);
    }

    /** SPLAY_LINKLEFT(head, right) */
    method LinkLeft(right: Node, ghost m: Links, ghost s: seq<Node>, ghost l: seq<Frame>, ghost t: Tree,
                    ghost r: seq<Frame>, ghost top: Node)
      returns (right': Node, ghost m': Links)
      requires Mirror(m) && Splaying(m, s, l, t, r, top) && root == t.node && t.left.Fork? && right == Tail(r, top)
      modifies this`root, m.Keys`left
      ensures m'.Keys == m.Keys && Mirror(m') && right' == t.node && root == t.left.node
      ensures Splaying(m', s, l, t.left, r + [Frame(t.node, t.right)], top)
    {
      TailsApart(m, s, l, t, r, top);
      NodesOf(t);
      m' := SetLeft(right, root, m);
      right' := root;
      root := root.left;
      LinkLeftKeeps(m, m', s, l, t, r, top);
    }

    /** SPLAY_LINKRIGHT(head, left) */
    method LinkRight(left: Node, ghost m: Links, ghost s: seq<Node>, ghost l: seq<Frame>, ghost t: Tree,
                     ghost r: seq<Frame>, ghost top: Node)
      returns (left': Node, ghost m': Links)
      requires Mirror(m) && Splaying(m, s, l, t, r, top) && root == t.node && t.right.Fork? && left == Tail(l, top)
      modifies this`root, m.Keys`right
      ensures m'.Keys == m.Keys && Mirror(m') && left' == t.node && root == t.right.node
      ensures Splaying(m', s, l + [Frame(t.node, t.left)], t.right, r, top)
    {
      TailsApart(m, s, l, t, r, top);
      NodesOf(t);
      m' := SetRight(left, root, m);
      left' := root;
      root := root.right;
      LinkRightKeeps(m, m', s, l, t, r, top);
    }

    /** SPLAY_ASSEMBLE(head, node, left, right) */
    method Assemble(node: Node, left: Node, right: Node, ghost m: Links, ghost s: seq<Node>, ghost l: seq<Frame>,
                    ghost t: Tree, ghost r: seq<Frame>)
      returns (ghost m': Links)
      requires Mirror(m) && Splaying(m, s, l, t, r, node) && root == t.node && left == Tail(l, node)
               && right == Tail(r, node)
      modifies m.Keys`left, m.Keys`right
      ensures m'.Keys == m.Keys && Mirror(m')
      ensures Shape(m', Assembled(l, t, r)) && InOrder(Assembled(l, t, r)) == s
    {
      TailsApart(m, s, l, t, r, node);
      NodesOf(t);
      ghost var m1 := SetRight(left, root.left, m);
      ghost var m2 := SetLeft(right, root.right, m1);
      m' := SetLeft(root, node.right, m2);
      m' := SetRight(root, node.left, m');
      AssembleKeeps(m, m1, m2, m', s, l, t, r, node);
    }

    /** A rotation inside the loop keeps the key between the outer trees. */
    method TurnRight(tmp: Node, ghost key: int, ghost m: Links, ghost s: seq<Node>, ghost l: seq<Frame>, ghost t: Tree,
                     ghost r: seq<Frame>, ghost top: Node)
      returns (ghost m': Links)
      requires Mirror(m) && InLoop(m, s, l, t, r, top, key) && root == t.node && t.left.Fork? && tmp == t.left.node
      modifies this`root, m.Keys`left, m.Keys`right
      ensures m'.Keys == m.Keys && Mirror(m') && root == tmp && InLoop(m', s, l, RotatedRight(t), r, top, key)
      ensures InOrder(RotatedRight(t)) == InOrder(t)
    {
      m' := RotateRight(tmp, m, s, l, t, r, top);
      RotateRightOrder(t);
    }

    method TurnLeft(tmp: Node, ghost key: int, ghost m: Links, ghost s: seq<Node>, ghost l: seq<Frame>, ghost t: Tree,
                    ghost r: seq<Frame>, ghost top: Node)
      returns (ghost m': Links)
      requires Mirror(m) && InLoop(m, s, l, t, r, top, key) && root == t.node && t.right.Fork? && tmp == t.right.node
      modifies this`root, m.Keys`left, m.Keys`right
      ensures m'.Keys == m.Keys && Mirror(m') && root == tmp && InLoop(m', s, l, RotatedLeft(t), r, top, key)
      ensures InOrder(RotatedLeft(t)) == InOrder(t)
    {
      m' := RotateLeft(tmp, m, s, l, t, r, top);
      RotateLeftOrder(t);
    }

    /** Moving a root above the key to the right outer tree. */
    method StepLeft(right: Node, ghost key: int, ghost m: Links, ghost s: seq<Node>, ghost l: seq<Frame>, ghost t: Tree,
                    ghost r: seq<Frame>, ghost top: Node)
      returns (right': Node, ghost m': Links, ghost r': seq<Frame>)
      requires Mirror(m) && InLoop(m, s, l, t, r, top, key) && root == t.node && right == Tail(r, top)
      requires t.left.Fork? && key < t.node.key
      modifies this`root, m.Keys`left, m.Keys`right
      ensures m'.Keys == m.Keys && Mirror(m') && InLoop(m', s, l, t.left, r', top, key)
      ensures root == t.left.node && right' == Tail(r', top) && |InOrder(t.left)| < |InOrder(t)|
    {
      TailsApart(m, s, l, t, r, top);
      LinkLeftAbove(s, l, t, r, key);
      right', m' := LinkLeft(right, m, s, l, t, r, top);
      r' := r + [Frame(t.node, t.right)];
    }

    /** Moving a root below the key to the left outer tree. */
    method StepRight(left: Node, ghost key: int, ghost m: Links, ghost s: seq<Node>, ghost l: seq<Frame>, ghost t: Tree,
                     ghost r: seq<Frame>, ghost top: Node)
      returns (left': Node, ghost m': Links, ghost l': seq<Frame>)
      requires Mirror(m) && InLoop(m, s, l, t, r, top, key) && root == t.node && left == Tail(l, top)
      requires t.right.Fork? && key > t.node.key
      modifies this`root, m.Keys`left, m.Keys`right
      ensures m'.Keys == m.Keys && Mirror(m') && InLoop(m', s, l', t.right, r, top, key)
      ensures root == t.right.node && left' == Tail(l', top) && |InOrder(t.right)| < |InOrder(t)|
    {
      TailsApart(m, s, l, t, r, top);
      LinkRightBelow(s, l, t, r, key);
      left', m' := LinkRight(left, m, s, l, t, r, top);
      l' := l + [Frame(t.node, t.left)];
    }

    /** The loop's step towards a smaller key; `done` is its break. */
    method GoLeft(key: int, right: Node, ghost m: Links, ghost s: seq<Node>, ghost l: seq<Frame>, ghost t: Tree,
                  ghost r: seq<Frame>, ghost top: Node)
      returns (done: bool, right': Node, ghost m': Links, ghost t': Tree, ghost r': seq<Frame>)
      requires Mirror(m) && InLoop(m, s, l, t, r, top, key) && root == t.node && right == Tail(r, top)
               && key < t.node.key
      modifies this`root, m.Keys`left, m.Keys`right
      ensures m'.Keys == m.Keys && Mirror(m') && InLoop(m', s, l, t', r', top, key)
      ensures root == t'.node && right' == Tail(r', top)
      ensures if done then key < t'.node.key && t'.left.Nil? else |InOrder(t')| < |InOrder(t)|
    {
      done, right', m', t', r' := false, right, m, t, r;
      ChildFields(m, t);
      var tmp := root.left;
      if tmp == null { done := true; return; }
      if key < tmp.key {
        m' := TurnRight(tmp, key, m, s, l, t, r, top);
        t' := RotatedRight(t);
        ChildFields(m', t');
        if root.left == null { done := true; return; }
      }
      right', m', r' := StepLeft(right, key, m', s, l, t', r, top);
      t' := t'.left;
    }

    /** The loop's step towards a greater key. */
    method GoRight(key: int, left: Node, ghost m: Links, ghost s: seq<Node>, ghost l: seq<Frame>, ghost t: Tree,
                   ghost r: seq<Frame>, ghost top: Node)
      returns (done: bool, left': Node, ghost m': Links, ghost t': Tree, ghost l': seq<Frame>)
      requires Mirror(m) && InLoop(m, s, l, t, r, top, key) && root == t.node && left == Tail(l, top)
               && key > t.node.key
      modifies this`root, m.Keys`left, m.Keys`right
      ensures m'.Keys == m.Keys && Mirror(m') && InLoop(m', s, l', t', r, top, key)
      ensures root == t'.node && left' == Tail(l', top)
      ensures if done then key > t'.node.key && t'.right.Nil? else |InOrder(t')| < |InOrder(t)|
    {
      done, left', m', t', l' := false, left, m, t, l;
      ChildFields(m, t);
      var tmp := root.right;
      if tmp == null { done := true; return; }
      if key > tmp.key {
        m' := TurnLeft(tmp, key, m, s, l, t, r, top);
        t' := RotatedLeft(t);
        ChildFields(m', t');
        if root.right == null { done := true; return; }
      }
      left', m', l' := StepRight(left, key, m', s, l, t', r, top);
      t' := t'.right;
    }

    /** The loop of SPLAY. */
    method Descend(key: int, node: Node, ghost m0: Links, ghost s: seq<Node>, ghost t0: Tree)
      returns (left: Node, right: Node, ghost m: Links, ghost l: seq<Frame>, ghost t: Tree, ghost r: seq<Frame>)
      requires Mirror(m0) && Splaying(m0, s, [], t0, [], node) && root == t0.node
      modifies this`root, m0.Keys`left, m0.Keys`right
      ensures m.Keys == m0.Keys && Mirror(m) && InLoop(m, s, l, t, r, node, key)
      ensures root == t.node && left == Tail(l, node) && right == Tail(r, node)
      ensures t.node.key == key || (key < t.node.key && t.left.Nil?) || (key > t.node.key && t.right.Nil?)
    {
      var done := false;
      left, right, m, l, t, r := node, node, m0, [], t0, [];
      while root.key != key
        invariant m.Keys == m0.Keys && Mirror(m) && InLoop(m, s, l, t, r, node, key) && root == t.node
        invariant left == Tail(l, node) && right == Tail(r, node)
        decreases |InOrder(t)|
      {
        if key < root.key {
          done, right, m, t, r := GoLeft(key, right, m, s, l, t, r, node);
        } else {
          done, left, m, t, l := GoRight(key, left, m, s, l, t, r, node);
        }
        if done { break; }
      }
    }

    /** SPLAY but for its local node; m0 are the links with that node. */
    method SplayWith(key: int, node: Node, ghost m0: Links, ghost t0: Tree, ghost nodes: set<Node>)
      returns (ghost m: Links, ghost t: Tree)
      requires Mirror(m0) && Splaying(m0, InOrder(t0), [], t0, [], node) && root == t0.node
      requires m0.Keys == nodes + {node} && node !in nodes
      modifies this`root, nodes`left, nodes`right, node`left, node`right
      ensures m.Keys == nodes && Mirror(m)
      ensures Shape(m, t) && root == Root(t) && InOrder(t) == InOrder(t0) && SplitAt(t, key)
    {
      ghost var s := InOrder(t0);
      var left, right;
      ghost var l, mid, r;
      left, right, m, l, mid, r := Descend(key, node, m0, s, t0);
      m := Assemble(node, left, right, m, s, l, mid, r);
      t := Assembled(l, mid, r);
      SplayEnds(m, s, l, mid, r, node, key);
      m := m - {node};
    }

    /** SPLAY on a tree given by its links. */
    method SplayAlone(key: int, ghost m0: Links, ghost t0: Tree) returns (ghost m: Links, ghost t: Tree)
      requires Mirror(m0) && t0.Fork? && Shape(m0, t0) && root == t0.node && Sorted(InOrder(t0))
               && Lists(InOrder(t0), m0.Keys)
      modifies this`root, m0.Keys`left, m0.Keys`right
      ensures m.Keys == m0.Keys && Mirror(m)
      ensures Shape(m, t) && root == Root(t) && InOrder(t) == InOrder(t0) && SplitAt(t, key)
    {
      var node;
      ghost var m1;
      node, m1 := LocalNode(m0, t0);
      m, t := SplayWith(key, node, m1, t0, m0.Keys);
    }

    /** SPLAY: moves the node with the key, or a neighbour of where it would be, to the root. */
    method Splay(key: int)
      requires Valid() && root != null
      modifies this, links.Keys`left, links.Keys`right
      ensures Valid() && links.Keys == old(links.Keys) && InOrder(tree) == old(InOrder(tree)) && SplitAt(tree, key)
    {
      ghost var m, t := SplayAlone(key, links, tree);
      links, tree := m, t;
    }

    /** SPLAY_FIND */
    method Find(key: int) returns (r: Node?)
      requires Valid()
      modifies this, links.Keys`left, links.Keys`right
      ensures Valid() && links.Keys == old(links.Keys) && InOrder(tree) == old(InOrder(tree))
      ensures if r == null then forall x | x in InOrder(tree) :: x.key != key else r in InOrder(tree) && r.key == key
    {
      if root == null { return null; }
      Splay(key);
      SplitMeans(tree, key);
      NodesOf(tree);
      r := if key == root.key then root else null;
    }

    method PutRootRight(elm: Node, ghost m: Links, ghost t: Tree) returns (ghost m': Links)
      requires Mirror(m) && elm !in m && t.Fork? && root == t.node && Shape(m, t)
      modifies elm`left, elm`right, root`left
      ensures m' == m[elm := Link(Root(t.left), t.node)][t.node := Link(null, Root(t.right))] && Mirror(m')
    {
      m' := SetLeft(elm, root.left, m[elm := Link(elm.left, elm.right)]);
      m' := SetRight(elm, root, m');
      m' := SetLeft(root, null, m');
    }

    method PutRootLeft(elm: Node, ghost m: Links, ghost t: Tree) returns (ghost m': Links)
      requires Mirror(m) && elm !in m && t.Fork? && root == t.node && Shape(m, t)
      modifies elm`left, elm`right, root`right
      ensures m' == m[elm := Link(t.node, Root(t.right))][t.node := Link(Root(t.left), null)] && Mirror(m')
    {
      m' := SetRight(elm, root.right, m[elm := Link(elm.left, elm.right)]);
      m' := SetLeft(elm, root, m');
      m' := SetRight(root, null, m');
    }

    /** Makes elm the root between the parts of a split tree. */
    method SplitBy(elm: Node, ghost m: Links, ghost t: Tree) returns (ghost m': Links, ghost t': Tree)
      requires Mirror(m) && Shape(m, t) && Sorted(InOrder(t)) && Lists(InOrder(t), m.Keys) && root == Root(t)
      requires SplitAt(t, elm.key) && elm !in m && t.node.key != elm.key
      modifies this`root, elm`left, elm`right, root`left, root`right
      ensures root == Root(t') && m'.Keys == m.Keys + {elm} && Mirror(m') && Shape(m', t') && Sorted(InOrder(t'))
      ensures Lists(InOrder(t'), m'.Keys)
    {
      PutKeepsOrder(t, elm);
      PutLists(t, elm, m.Keys);
      if elm.key < root.key {
        m' := PutRootRight(elm, m, t);
        t' := PutBefore(t, elm);
        PutShape(m, m', t, elm);
      } else {
        m' := PutRootLeft(elm, m, t);
        t' := PutAfter(t, elm);
        PutAfterShape(m, m', t, elm);
      }
      root := elm;
      assert m'.Keys == m.Keys + {elm};
    }

    method InsertAtSplit(elm: Node)
      requires Valid() && SplitAt(tree, elm.key) && elm !in links && tree.node.key != elm.key
      modifies this, elm`left, elm`right, root`left, root`right
      ensures Valid() && links.Keys == old(links.Keys) + {elm}
    {
      NodesOf(tree);
      ghost var m, t := SplitBy(elm, links, tree);
      links, tree := m, t;
    }

    method InsertFirst(elm: Node)
      requires root == null
      modifies this, elm`left, elm`right
      ensures Valid() && links.Keys == {elm}
    {
      elm.left, elm.right := null, null;
      root, tree, links := elm, Fork(Nil, elm, Nil), map[elm := Link(null, null)];
    }

    /** SPLAY_INSERT: adds the node, or returns the one that has the key already, be it elm itself. */
    method Insert(elm: Node) returns (r: Node?)
      requires Valid()
      modifies this, elm`left, elm`right, links.Keys`left, links.Keys`right
      ensures Valid() && (elm in old(links) ==> r == elm)
      ensures if r == null then links.Keys == old(links.Keys) + {elm}
              && forall x | x in old(InOrder(tree)) :: x.key != elm.key
              else r in old(InOrder(tree)) && r.key == elm.key
                   && links.Keys == old(links.Keys) && InOrder(tree) == old(InOrder(tree))
    {
      if root == null {
        InsertFirst(elm);
        return null;
      }
      Splay(elm.key);
      SplitMeans(tree, elm.key);
      NodesOf(tree);
      if elm in links { SameKey(tree, elm); }
      if elm.key == root.key { return root; }
      InsertAtSplit(elm);
      r := null;
    }

    /** Splays the left subtree of the root for a key above all of it: its greatest node comes up,
      * with no right child. */
    method SplayLeft(key: int, ghost ml: Links, ghost l: Tree) returns (ghost m: Links, ghost l': Tree)
      requires Mirror(ml) && l.Fork? && Shape(ml, l) && root == l.node && Sorted(InOrder(l))
               && AllBelow(InOrder(l), key)
      requires Lists(InOrder(l), ml.Keys)
      modifies this`root, ml.Keys`left, ml.Keys`right
      ensures m.Keys == ml.Keys && Mirror(m) && Shape(m, l') && root == Root(l') && InOrder(l') == InOrder(l)
      ensures l'.Fork? && l'.right.Nil?
    {
      m, l' := SplayAlone(key, ml, l);
      NoneAbove(l', key);
    }

    /** The case of SPLAY_REMOVE in which the root has a left child. */
    method RemoveJoining(key: int, ghost ml: Links, ghost mr: Links, ghost t: Tree)
      returns (ghost m': Links, ghost t': Tree)
      requires Mirror(ml) && Mirror(mr) && t.Fork? && t.left.Fork? && root == t.node && ml.Keys !! mr.Keys
      requires t.node !in ml && t.node !in mr && t.node.left == Root(t.left) && t.node.right == Root(t.right)
      requires Shape(ml, t.left) && Shape(mr, t.right) && Sorted(InOrder(t.left)) && AllBelow(InOrder(t.left), key)
      requires Lists(InOrder(t.left), ml.Keys) && Lists(InOrder(t.right), mr.Keys)
      modifies this`root, ml.Keys`left, ml.Keys`right
      ensures Mirror(m') && Shape(m', t') && root == Root(t') && Lists(InOrder(t'), m'.Keys)
      ensures InOrder(t') == InOrder(t.left) + InOrder(t.right) && m'.Keys == ml.Keys + mr.Keys
    {
      var tmp := root.right;
      root := root.left;
      ghost var m, l := SplayLeft(key, ml, t.left);
      assert Mirror(m + mr);
      m' := SetRight(root, tmp, m + mr);
      t' := Fork(l.left, l.node, t.right);
      Rejoin(m, mr, m', l, t.right);
      RejoinOrder(l, t.right, m.Keys, mr.Keys);
    }

    /** Takes the root out of a tree; the key is the root's. */
    method RemoveRoot(key: int, ghost m: Links, ghost t: Tree) returns (ghost m': Links, ghost t': Tree)
      requires Mirror(m) && t.Fork? && Shape(m, t) && root == t.node && Sorted(InOrder(t)) && t.node.key == key
      requires Lists(InOrder(t), m.Keys)
      modifies this`root, m.Keys`left, m.Keys`right
      ensures Mirror(m') && Shape(m', t') && root == Root(t') && Lists(InOrder(t'), m'.Keys)
      ensures InOrder(t') == InOrder(t.left) + InOrder(t.right) && m'.Keys == m.Keys - {t.node}
    {
      ghost var ml, mr := Restrict(m, InOrder(t.left)), Restrict(m, InOrder(t.right));
      RemovalParts(m, t);
      ChildFields(m, t);
      if root.left == null {
        root := root.right;
        m', t' := mr, t.right;
        NoLeftPart(m, t, ml, mr);
      } else {
        m', t' := RemoveJoining(key, ml, mr, t);
      }
    }

    method RemoveTop(key: int)
      requires Valid() && tree.Fork? && tree.node.key == key
      modifies this, links.Keys`left, links.Keys`right
      ensures Valid() && links.Keys == old(links.Keys) - {old(tree).node}
      ensures InOrder(tree) == InOrder(old(tree).left) + InOrder(old(tree).right)
    {
      SortedWithout(InOrder(tree.left), tree.node, InOrder(tree.right));
      ghost var m, t := RemoveRoot(key, links, tree);
      links, tree := m, t;
    }

    /** SPLAY_REMOVE: takes out the node with elm's key, which is elm itself if it is in the tree. */
    method Remove(elm: Node) returns (r: Node?, ghost gone: Node?)
      requires Valid()
      modifies this, links.Keys`left, links.Keys`right
      ensures Valid()
      ensures if gone == null then r == null && links.Keys == old(links.Keys) && InOrder(tree) == old(InOrder(tree))
                   && forall x | x in InOrder(tree) :: x.key != elm.key
              else r == elm && gone in old(links) && gone.key == elm.key && links.Keys == old(links.Keys) - {gone}
      ensures elm in old(links) ==> gone == elm
    {
      if root == null { return null, null; }
      Splay(elm.key);
      SplitMeans(tree, elm.key);
      if elm in links { SameKey(tree, elm); }
      if elm.key == root.key {
        gone := root;
        RemoveTop(elm.key);
        r := elm;
      } else {
        r, gone := null, null;
      }
    }

    /** SPLAY_NEXT: the node after elm in order, or null. */
    method Next(elm: Node) returns (r: Node?)
      requires Valid() && elm in links
      modifies this, links.Keys`left, links.Keys`right
      ensures Valid() && links.Keys == old(links.Keys) && InOrder(tree) == old(InOrder(tree))
      ensures if r == null then forall x | x in InOrder(tree) :: x.key <= elm.key
              else r in links && r.key > elm.key && forall x | x in InOrder(tree) && x.key > elm.key :: x.key >= r.key
    {
      Splay(elm.key);
      AfterTop(tree, elm);
      if elm.right == null { return null; }
      r := LeftEnd(elm.right, links, tree.right);
    }

    /** The leftmost node of a subtree is its first in order. */
    method LeftEnd(top: Node, ghost m: Links, ghost t: Tree) returns (r: Node)
      requires Mirror(m) && t.Fork? && Shape(m, t) && top == t.node
      ensures InOrder(t) != [] && r == InOrder(t)[0]
    {
      r := top;
      ghost var u := t;
      while r.left != null
        invariant u.Fork? && Shape(m, u) && r == u.node && InOrder(u)[0] == InOrder(t)[0]
        decreases u
      {
        u := u.left;
        r := r.left;
      }
    }

    /** The loop of SPLAY_MINMAX for the minimum; no key is as small as the one it splays for. */
    method GoFarLeft(right: Node, ghost key: int, ghost m: Links, ghost s: seq<Node>, ghost l: seq<Frame>,
                     ghost t: Tree, ghost r: seq<Frame>, ghost top: Node)
      returns (done: bool, right': Node, ghost m': Links, ghost t': Tree, ghost r': seq<Frame>)
      requires Mirror(m) && InLoop(m, s, l, t, r, top, key) && root == t.node && right == Tail(r, top)
      requires AllAbove(InOrder(t), key)
      modifies this`root, m.Keys`left, m.Keys`right
      ensures m'.Keys == m.Keys && Mirror(m') && InLoop(m', s, l, t', r', top, key) && AllAbove(InOrder(t'), key)
      ensures root == t'.node && right' == Tail(r', top)
      ensures if done then t'.left.Nil? else |InOrder(t')| < |InOrder(t)|
    {
      done, right', m', t', r' := false, right, m, t, r;
      ChildFields(m, t);
      var tmp := root.left;
      if tmp == null { done := true; return; }
      m' := TurnRight(tmp, key, m, s, l, t, r, top);
      t' := RotatedRight(t);
      ChildFields(m', t');
      if root.left == null { done := true; return; }
      NodesOf(t');
      right', m', r' := StepLeft(right, key, m', s, l, t', r, top);
      t' := t'.left;
    }

    /** The loop of SPLAY_MINMAX for the maximum. */
    method GoFarRight(left: Node, ghost key: int, ghost m: Links, ghost s: seq<Node>, ghost l: seq<Frame>,
                      ghost t: Tree, ghost r: seq<Frame>, ghost top: Node)
      returns (done: bool, left': Node, ghost m': Links, ghost t': Tree, ghost l': seq<Frame>)
      requires Mirror(m) && InLoop(m, s, l, t, r, top, key) && root == t.node && left == Tail(l, top)
      requires AllBelow(InOrder(t), key)
      modifies this`root, m.Keys`left, m.Keys`right
      ensures m'.Keys == m.Keys && Mirror(m') && InLoop(m', s, l', t', r, top, key) && AllBelow(InOrder(t'), key)
      ensures root == t'.node && left' == Tail(l', top)
      ensures if done then t'.right.Nil? else |InOrder(t')| < |InOrder(t)|
    {
      done, left', m', t', l' := false, left, m, t, l;
      ChildFields(m, t);
      var tmp := root.right;
      if tmp == null { done := true; return; }
      m' := TurnLeft(tmp, key, m, s, l, t, r, top);
      t' := RotatedLeft(t);
      ChildFields(m', t');
      if root.right == null { done := true; return; }
      NodesOf(t');
      left', m', l' := StepRight(left, key, m', s, l, t', r, top);
      t' := t'.right;
    }

    method DescendMinMax(min: bool, ghost key: int, node: Node, ghost m0: Links, ghost s: seq<Node>, ghost t0: Tree)
      returns (left: Node, right: Node, ghost m: Links, ghost l: seq<Frame>, ghost t: Tree, ghost r: seq<Frame>)
      requires Mirror(m0) && Splaying(m0, s, [], t0, [], node) && root == t0.node
      requires if min then AllAbove(InOrder(t0), key) else AllBelow(InOrder(t0), key)
      modifies this`root, m0.Keys`left, m0.Keys`right
      ensures m.Keys == m0.Keys && Mirror(m) && InLoop(m, s, l, t, r, node, key)
      ensures root == t.node && left == Tail(l, node) && right == Tail(r, node)
      ensures if min then t.left.Nil? && AllAbove(InOrder(t), key) else t.right.Nil? && AllBelow(InOrder(t), key)
    {
      var done := false;
      left, right, m, l, t, r := node, node, m0, [], t0, [];
      while true
        invariant m.Keys == m0.Keys && Mirror(m) && InLoop(m, s, l, t, r, node, key) && root == t.node
        invariant left == Tail(l, node) && right == Tail(r, node)
        invariant if min then AllAbove(InOrder(t), key) else AllBelow(InOrder(t), key)
        decreases |InOrder(t)|
      {
        if min {
          done, right, m, t, r := GoFarLeft(right, key, m, s, l, t, r, node);
        } else {
          done, left, m, t, l := GoFarRight(left, key, m, s, l, t, r, node);
        }
        if done { break; }
      }
    }

    method MinMaxWith(min: bool, ghost key: int, node: Node, ghost m0: Links, ghost t0: Tree, ghost nodes: set<Node>)
      returns (ghost m: Links, ghost t: Tree)
      requires Mirror(m0) && Splaying(m0, InOrder(t0), [], t0, [], node) && root == t0.node
      requires m0.Keys == nodes + {node} && node !in nodes
      requires if min then AllAbove(InOrder(t0), key) else AllBelow(InOrder(t0), key)
      modifies this`root, nodes`left, nodes`right, node`left, node`right
      ensures m.Keys == nodes && Mirror(m)
      ensures Shape(m, t) && root == Root(t) && InOrder(t) == InOrder(t0) && SplitAt(t, key)
    {
      ghost var s := InOrder(t0);
      var left, right;
      ghost var l, mid, r;
      left, right, m, l, mid, r := DescendMinMax(min, key, node, m0, s, t0);
      NodesOf(mid);
      m := Assemble(node, left, right, m, s, l, mid, r);
      t := Assembled(l, mid, r);
      SplayEnds(m, s, l, mid, r, node, key);
      m := m - {node};
    }

    method MinMaxAlone(min: bool, ghost key: int, ghost m0: Links, ghost t0: Tree)
      returns (ghost m: Links, ghost t: Tree)
      requires Mirror(m0) && t0.Fork? && Shape(m0, t0) && root == t0.node && Sorted(InOrder(t0))
               && Lists(InOrder(t0), m0.Keys)
      requires if min then AllAbove(InOrder(t0), key) else AllBelow(InOrder(t0), key)
      modifies this`root, m0.Keys`left, m0.Keys`right
      ensures m.Keys == m0.Keys && Mirror(m)
      ensures Shape(m, t) && root == Root(t) && InOrder(t) == InOrder(t0) && SplitAt(t, key)
    {
      var node;
      ghost var m1;
      node, m1 := LocalNode(m0, t0);
      m, t := MinMaxWith(min, key, node, m1, t0, m0.Keys);
    }

    /** SPLAY_MINMAX with a negative or positive argument: the first or last node becomes the root. */
    method MinMax(min: bool)
      requires Valid() && root != null
      modifies this, links.Keys`left, links.Keys`right
      ensures Valid() && links.Keys == old(links.Keys) && InOrder(tree) == old(InOrder(tree)) && InOrder(tree) != []
      ensures root == if min then InOrder(tree)[0] else InOrder(tree)[|InOrder(tree)| - 1]
    {
      ghost var key := FarKey(tree, min);
      ghost var m, t := MinMaxAlone(min, key, links, tree);
      links, tree := m, t;
      EndIsRoot(tree, key);
    }
  }
}
