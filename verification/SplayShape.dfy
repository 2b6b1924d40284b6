/** The shape of a splay tree while it is taken apart and put together again. Links are what the
  * nodes' fields hold; trees and frames say how they hang together. */
module SplayShape {

  class Node {
    const key: int
    var left: Node?
    var right: Node?

    constructor (key: int)
      ensures this.key == key && left == null && right == null
    {
      this.key, left, right := key, null, null;
    }
  }

  datatype Link = Link(left: Node?, right: Node?)
  type Links = map<Node, Link>

  datatype Tree = Nil | Fork(left: Tree, node: Node, right: Tree)

  function Root(t: Tree): Node? {
    if t.Nil? then null else t.node
  }

  function InOrder(t: Tree): seq<Node> {
    if t.Nil? then [] else InOrder(t.left) + [t.node] + InOrder(t.right)
  }

  /** The links hold the tree. */
  ghost predicate Shape(m: Links, t: Tree) {
    t.Fork? ==>
      && t.node in m && m[t.node] == Link(Root(t.left), Root(t.right))
      && Shape(m, t.left) && Shape(m, t.right)
  }

  predicate Before(x: Node, y: Node) {
    x.key < y.key
  }

  /** Strictly increasing keys; so no node comes twice. */
  predicate Sorted(s: seq<Node>) {
    forall i, j {:trigger Before(s[i], s[j])} | 0 <= i < j < |s| :: Before(s[i], s[j])
  }

  predicate AllBefore(a: seq<Node>, b: seq<Node>) {
    forall x, y {:trigger Before(x, y)} | x in a && y in b :: Before(x, y)
  }

  predicate Disjoint(a: seq<Node>, b: seq<Node>) {
    (forall x | x in a :: x !in b) && forall x | x in b :: x !in a
  }

  predicate AllBelow(s: seq<Node>, key: int) {
    forall x | x in s :: x.key < key
  }

  predicate AllAbove(s: seq<Node>, key: int) {
    forall x | x in s :: x.key > key
  }

  // ---- Sorted sequences ----

  lemma SortedParts(a: seq<Node>, b: seq<Node>)
    requires Sorted(a + b)
    ensures Sorted(a) && Sorted(b)
    ensures AllBefore(a, b) && Disjoint(a, b)
  {
    var s := a + b;
    forall i, j | 0 <= i < j < |a| ensures Before(a[i], a[j]) {
      assert Before(s[i], s[j]);
    }
    forall i, j | 0 <= i < j < |b| ensures Before(b[i], b[j]) {
      assert Before(s[|a| + i], s[|a| + j]);
    }
    forall x, y | x in a && y in b ensures Before(x, y) {
      var i :| 0 <= i < |a| && a[i] == x;
      var j :| 0 <= j < |b| && b[j] == y;
      assert Before(s[i], s[|a| + j]);
    }
    assert forall x | x in a && x in b :: Before(x, x);
  }

  lemma SortedJoin(a: seq<Node>, b: seq<Node>)
    requires Sorted(a) && Sorted(b) && AllBefore(a, b)
    ensures Sorted(a + b)
  {
  }

  /** The parts of a sorted sequence around one node. */
  lemma SortedAround(a: seq<Node>, x: Node, b: seq<Node>)
    requires Sorted(a + [x] + b)
    ensures Sorted(a) && Sorted(b) && AllBelow(a, x.key) && AllAbove(b, x.key)
    ensures x !in a && x !in b && forall y | y in a :: y !in b
  {
    SortedParts(a + [x], b);
    SortedParts(a, [x]);
    assert x in a + [x] && x in [x] && forall y | y in a :: y in a + [x];
    assert forall y | y in a :: Before(y, x);
    assert forall y | y in b :: Before(x, y);
  }

  // ---- Frames ----

  lemma {:induction false} ShapeFrame(m: Links, m': Links, t: Tree)
    requires Shape(m, t) && forall x | x in InOrder(t) :: x in m && x in m' && m'[x] == m[x]
    ensures Shape(m', t)
  {
    if t.Fork? {
      ShapeFrame(m, m', t.left);
      ShapeFrame(m, m', t.right);
    }
  }

  /** A node taken off the middle tree, with the subtree it keeps. */
  datatype Frame = Frame(node: Node, side: Tree)

  /** The node whose free field the next frame is linked to. */
  function Tail(fs: seq<Frame>, top: Node): Node {
    if fs == [] then top else fs[|fs| - 1].node
  }

  /** The left tree hangs off top.right along right fields; the last is free. */
  ghost predicate LeftSpine(m: Links, fs: seq<Frame>, top: Node) {
    && top in m
    && (fs != [] ==>
          var f, rest := fs[|fs| - 1], fs[..|fs| - 1];
          && LeftSpine(m, rest, top) && f.node in m && m[f.node].left == Root(f.side) && Shape(m, f.side)
          && Tail(rest, top) in m && m[Tail(rest, top)].right == f.node)
  }

  ghost predicate RightSpine(m: Links, fs: seq<Frame>, top: Node) {
    && top in m
    && (fs != [] ==>
          var f, rest := fs[|fs| - 1], fs[..|fs| - 1];
          && RightSpine(m, rest, top) && f.node in m && m[f.node].right == Root(f.side) && Shape(m, f.side)
          && Tail(rest, top) in m && m[Tail(rest, top)].left == f.node)
  }

  function LeftOrder(fs: seq<Frame>): seq<Node> {
    if fs == [] then []
    else var f := fs[|fs| - 1]; LeftOrder(fs[..|fs| - 1]) + (InOrder(f.side) + [f.node])
  }

  function RightOrder(fs: seq<Frame>): seq<Node> {
    if fs == [] then []
    else var f := fs[|fs| - 1]; ([f.node] + InOrder(f.side)) + RightOrder(fs[..|fs| - 1])
  }

  lemma {:induction false} TailInOrder(fs: seq<Frame>, top: Node)
    requires fs != []
    ensures Tail(fs, top) in LeftOrder(fs) && Tail(fs, top) in RightOrder(fs)
  {
    var f := fs[|fs| - 1];
    assert f.node in InOrder(f.side) + [f.node];
    assert f.node in [f.node] + InOrder(f.side);
  }

  lemma {:induction false} LeftSpineFrame(m: Links, m': Links, fs: seq<Frame>, top: Node)
    requires LeftSpine(m, fs, top) && top in m' && (fs != [] ==> m'[top].right == m[top].right)
    requires forall x | x in LeftOrder(fs) :: x in m && x in m' && m'[x] == m[x]
    ensures LeftSpine(m', fs, top)
  {
    if fs != [] {
      var f, rest := fs[|fs| - 1], fs[..|fs| - 1];
      LeftSpineFrame(m, m', rest, top);
      ShapeFrame(m, m', f.side);
      if rest != [] { TailInOrder(rest, top); }
    }
  }

  lemma {:induction false} RightSpineFrame(m: Links, m': Links, fs: seq<Frame>, top: Node)
    requires RightSpine(m, fs, top) && top in m' && (fs != [] ==> m'[top].left == m[top].left)
    requires forall x | x in RightOrder(fs) :: x in m && x in m' && m'[x] == m[x]
    ensures RightSpine(m', fs, top)
  {
    if fs != [] {
      var f, rest := fs[|fs| - 1], fs[..|fs| - 1];
      RightSpineFrame(m, m', rest, top);
      ShapeFrame(m, m', f.side);
      if rest != [] { TailInOrder(rest, top); }
    }
  }

  // ---- The loop ----

  /** The nodes s in order: those of the left tree, the middle tree and the right tree. */
  ghost predicate Splaying(m: Links, s: seq<Node>, l: seq<Frame>, t: Tree, r: seq<Frame>, top: Node) {
    && Sorted(s) && top !in s && t.Fork?
    && s == LeftOrder(l) + InOrder(t) + RightOrder(r)
    && Shape(m, t) && LeftSpine(m, l, top) && RightSpine(m, r, top)
  }

  /** The three trees share no node. */
  lemma Apart(s: seq<Node>, a: seq<Node>, b: seq<Node>, c: seq<Node>)
    requires Sorted(s) && s == a + b + c
    ensures Sorted(a) && Sorted(b) && Sorted(c)
    ensures Disjoint(a, b) && Disjoint(b, c) && Disjoint(a, c)
  {
    SortedParts(a + b, c);
    SortedParts(a, b);
    assert forall x | x in a || x in b :: x in a + b;
  }

  lemma {:induction false} ShapeInLinks(m: Links, t: Tree)
    requires Shape(m, t)
    ensures forall x | x in InOrder(t) :: x in m
  {
    if t.Fork? {
      ShapeInLinks(m, t.left);
      ShapeInLinks(m, t.right);
    }
  }

  /** m' has the two fields of x and y changed, at most. */
  ghost predicate ChangesAt(m: Links, m': Links, x: Node, y: Node) {
    m'.Keys == m.Keys && forall z {:trigger m'[z]} | z in m && z != x && z != y :: m'[z] == m[z]
  }

  predicate Holds(m: Links, x: Node, link: Link) {
    x in m && m[x] == link
  }

  /** A tree without x and y keeps its shape when those change. */
  lemma {:induction false} ShapeKept(m: Links, m': Links, t: Tree, x: Node, y: Node)
    requires Shape(m, t) && ChangesAt(m, m', x, y) && x !in InOrder(t) && y !in InOrder(t)
    ensures Shape(m', t)
  {
    ShapeInLinks(m, t);
    ShapeFrame(m, m', t);
  }

  function RotatedRight(t: Tree): Tree
    requires t.Fork? && t.left.Fork?
  {
    Fork(t.left.left, t.left.node, Fork(t.left.right, t.node, t.right))
  }

  function RotatedLeft(t: Tree): Tree
    requires t.Fork? && t.right.Fork?
  {
    Fork(Fork(t.left, t.node, t.right.left), t.right.node, t.right.right)
  }

  /** In a sorted fork of a fork, neither node is in one of the three subtrees. */
  lemma ForksApart(a: seq<Node>, y: Node, b: seq<Node>, x: Node, c: seq<Node>)
    requires Sorted(a + [y] + b + [x] + c)
    ensures x != y && x !in a && x !in b && x !in c && y !in a && y !in b && y !in c
  {
    SortedAround(a + [y] + b, x, c);
    SortedAround(a, y, b);
    var left := a + [y] + b;
    assert y in left && forall z | z in a || z in b :: z in left;
  }

  lemma {:induction false} RotateRightOrder(t: Tree)
    requires t.Fork? && t.left.Fork?
    ensures InOrder(RotatedRight(t)) == InOrder(t)
            == InOrder(t.left.left) + [t.left.node] + InOrder(t.left.right) + [t.node] + InOrder(t.right)
  {
    Regroup(InOrder(t.left.left), t.left.node, InOrder(t.left.right), t.node, InOrder(t.right));
    assert InOrder(Fork(t.left.right, t.node, t.right)) == InOrder(t.left.right) + [t.node] + InOrder(t.right);
  }

  lemma {:induction false} RotateLeftOrder(t: Tree)
    requires t.Fork? && t.right.Fork?
    ensures InOrder(RotatedLeft(t)) == InOrder(t)
            == InOrder(t.left) + [t.node] + InOrder(t.right.left) + [t.right.node] + InOrder(t.right.right)
  {
    Regroup(InOrder(t.left), t.node, InOrder(t.right.left), t.right.node, InOrder(t.right.right));
  }

  lemma Regroup(a: seq<Node>, x: Node, b: seq<Node>, y: Node, c: seq<Node>)
    ensures a + [x] + (b + [y] + c) == a + [x] + b + [y] + c
  {
  }

  lemma {:induction false} RotateRightShape(m: Links, m': Links, t: Tree)
    requires t.Fork? && t.left.Fork? && Shape(m, t) && Sorted(InOrder(t))
    requires var x, y := t.node, t.left.node;
             && ChangesAt(m, m', x, y) && Holds(m', x, Link(Root(t.left.right), Root(t.right)))
             && Holds(m', y, Link(Root(t.left.left), x))
    ensures Shape(m', RotatedRight(t))
  {
    RotateRightOrder(t);
    ForksApart(InOrder(t.left.left), t.left.node, InOrder(t.left.right), t.node, InOrder(t.right));
    ShapeKept(m, m', t.left.left, t.node, t.left.node);
    ShapeKept(m, m', t.left.right, t.node, t.left.node);
    ShapeKept(m, m', t.right, t.node, t.left.node);
  }

  lemma {:induction false} RotateLeftShape(m: Links, m': Links, t: Tree)
    requires t.Fork? && t.right.Fork? && Shape(m, t) && Sorted(InOrder(t))
    requires var x, y := t.node, t.right.node;
             && ChangesAt(m, m', x, y) && Holds(m', x, Link(Root(t.left), Root(t.right.left)))
             && Holds(m', y, Link(x, Root(t.right.right)))
    ensures Shape(m', RotatedLeft(t))
  {
    RotateLeftOrder(t);
    ForksApart(InOrder(t.left), t.node, InOrder(t.right.left), t.right.node, InOrder(t.right.right));
    ShapeKept(m, m', t.left, t.node, t.right.node);
    ShapeKept(m, m', t.right.left, t.node, t.right.node);
    ShapeKept(m, m', t.right.right, t.node, t.right.node);
  }

  lemma {:induction false} SpineInLinks(m: Links, fs: seq<Frame>, top: Node)
    ensures LeftSpine(m, fs, top) ==> forall x | x in LeftOrder(fs) :: x in m
    ensures RightSpine(m, fs, top) ==> forall x | x in RightOrder(fs) :: x in m
  {
    if fs != [] {
      var f := fs[|fs| - 1];
      SpineInLinks(m, fs[..|fs| - 1], top);
      if LeftSpine(m, fs, top) || RightSpine(m, fs, top) { ShapeInLinks(m, f.side); }
    }
  }

  lemma {:induction false} LeftSpineKept(m: Links, m': Links, fs: seq<Frame>, top: Node, x: Node, y: Node)
    requires LeftSpine(m, fs, top) && ChangesAt(m, m', x, y) && x !in LeftOrder(fs) && y !in LeftOrder(fs)
    requires m'[top].right == m[top].right
    ensures LeftSpine(m', fs, top)
  {
    SpineInLinks(m, fs, top);
    LeftSpineFrame(m, m', fs, top);
  }

  lemma {:induction false} RightSpineKept(m: Links, m': Links, fs: seq<Frame>, top: Node, x: Node, y: Node)
    requires RightSpine(m, fs, top) && ChangesAt(m, m', x, y) && x !in RightOrder(fs) && y !in RightOrder(fs)
    requires m'[top].left == m[top].left
    ensures RightSpine(m', fs, top)
  {
    SpineInLinks(m, fs, top);
    RightSpineFrame(m, m', fs, top);
  }

  /** SPLAY_ROTATE_RIGHT on the middle tree keeps the loop's picture. */
  lemma RotateRightKeeps(m: Links, m': Links, s: seq<Node>, l: seq<Frame>, t: Tree, r: seq<Frame>, top: Node)
    requires Splaying(m, s, l, t, r, top) && t.left.Fork?
    requires var x, y := t.node, t.left.node;
             && ChangesAt(m, m', x, y) && Holds(m', x, Link(Root(t.left.right), Root(t.right)))
             && Holds(m', y, Link(Root(t.left.left), x))
    ensures Splaying(m', s, l, RotatedRight(t), r, top)
  {
    Apart(s, LeftOrder(l), InOrder(t), RightOrder(r));
    RotateRightOrder(t);
    RotateRightShape(m, m', t);
    NodesOf(t);
    NodesOf(t.left);
    LeftSpineKept(m, m', l, top, t.node, t.left.node);
    RightSpineKept(m, m', r, top, t.node, t.left.node);
  }

  lemma {:induction false} NodesOf(t: Tree)
    requires t.Fork?
    ensures t.node in InOrder(t)
    ensures forall x | x in InOrder(t.left) || x in InOrder(t.right) :: x in InOrder(t)
    ensures forall x | x in InOrder(t) :: x == t.node || x in InOrder(t.left) || x in InOrder(t.right)
  {
  }

  lemma RotateLeftKeeps(m: Links, m': Links, s: seq<Node>, l: seq<Frame>, t: Tree, r: seq<Frame>, top: Node)
    requires Splaying(m, s, l, t, r, top) && t.right.Fork?
    requires var x, y := t.node, t.right.node;
             && ChangesAt(m, m', x, y) && Holds(m', x, Link(Root(t.left), Root(t.right.left)))
             && Holds(m', y, Link(x, Root(t.right.right)))
    ensures Splaying(m', s, l, RotatedLeft(t), r, top)
  {
    Apart(s, LeftOrder(l), InOrder(t), RightOrder(r));
    RotateLeftOrder(t);
    RotateLeftShape(m, m', t);
    NodesOf(t);
    NodesOf(t.right);
    LeftSpineKept(m, m', l, top, t.node, t.right.node);
    RightSpineKept(m, m', r, top, t.node, t.right.node);
  }

  /** The free field at the end of a spine may change. */
  lemma {:induction false} LeftSpineTail(m: Links, m': Links, fs: seq<Frame>, top: Node)
    requires LeftSpine(m, fs, top) && Sorted(LeftOrder(fs)) && top !in LeftOrder(fs)
    requires var tail := Tail(fs, top); ChangesAt(m, m', tail, tail) && tail in m && m'[tail].left == m[tail].left
    ensures LeftSpine(m', fs, top)
  {
    if fs != [] {
      var f, rest := fs[|fs| - 1], fs[..|fs| - 1];
      SortedParts(LeftOrder(rest), InOrder(f.side) + [f.node]);
      SortedParts(InOrder(f.side), [f.node]);
      assert f.node in InOrder(f.side) + [f.node] && f.node in [f.node];
      TailInOrder(fs, top);
      ShapeKept(m, m', f.side, f.node, f.node);
      LeftSpineKept(m, m', rest, top, f.node, f.node);
      if rest != [] { TailInOrder(rest, top); }
    }
  }

  lemma {:induction false} RightSpineTail(m: Links, m': Links, fs: seq<Frame>, top: Node)
    requires RightSpine(m, fs, top) && Sorted(RightOrder(fs)) && top !in RightOrder(fs)
    requires var tail := Tail(fs, top); ChangesAt(m, m', tail, tail) && tail in m && m'[tail].right == m[tail].right
    ensures RightSpine(m', fs, top)
  {
    if fs != [] {
      var f, rest := fs[|fs| - 1], fs[..|fs| - 1];
      SortedParts([f.node] + InOrder(f.side), RightOrder(rest));
      SortedParts([f.node], InOrder(f.side));
      assert f.node in [f.node] + InOrder(f.side) && f.node in [f.node];
      TailInOrder(fs, top);
      ShapeKept(m, m', f.side, f.node, f.node);
      RightSpineKept(m, m', rest, top, f.node, f.node);
      if rest != [] { TailInOrder(rest, top); }
    }
  }

  /** The ends of the two spines are not in the middle tree, nor in the other spine. */
  lemma {:induction false} TailsApart(m: Links, s: seq<Node>, l: seq<Frame>, t: Tree, r: seq<Frame>, top: Node)
    requires Splaying(m, s, l, t, r, top)
    ensures Sorted(LeftOrder(l)) && Sorted(RightOrder(r)) && Sorted(InOrder(t))
    ensures top !in LeftOrder(l) && top !in RightOrder(r) && top !in InOrder(t)
    ensures Tail(l, top) in m && Tail(l, top) !in InOrder(t) && Tail(l, top) !in RightOrder(r)
    ensures Tail(r, top) in m && Tail(r, top) !in InOrder(t) && Tail(r, top) !in LeftOrder(l)
    ensures forall x | x in InOrder(t) :: x !in LeftOrder(l) && x !in RightOrder(r)
  {
    Apart(s, LeftOrder(l), InOrder(t), RightOrder(r));
    assert forall x | x in LeftOrder(l) || x in InOrder(t) || x in RightOrder(r) :: x in s;
    if l != [] { TailInOrder(l, top); }
    if r != [] { TailInOrder(r, top); }
  }

  lemma RegroupRight(a: seq<Node>, b: seq<Node>, x: Node, c: seq<Node>, d: seq<Node>)
    ensures a + (b + [x] + c) + d == a + b + (([x] + c) + d)
  {
  }

  lemma RegroupLeft(a: seq<Node>, b: seq<Node>, x: Node, c: seq<Node>, d: seq<Node>)
    ensures a + (b + [x] + c) + d == (a + (b + [x])) + c + d
  {
  }

  /** SPLAY_LINKLEFT: the root and its right subtree go to the right tree. */
  lemma LinkLeftKeeps(m: Links, m': Links, s: seq<Node>, l: seq<Frame>, t: Tree, r: seq<Frame>, top: Node)
    requires Splaying(m, s, l, t, r, top) && t.left.Fork?
    requires var tail := Tail(r, top);
             tail in m && ChangesAt(m, m', tail, tail) && Holds(m', tail, Link(t.node, m[tail].right))
    ensures Splaying(m', s, l, t.left, r + [Frame(t.node, t.right)], top)
  {
    var tail, f := Tail(r, top), Frame(t.node, t.right);
    TailsApart(m, s, l, t, r, top);
    NodesOf(t);
    ShapeKept(m, m', t, tail, tail);
    LeftSpineKept(m, m', l, top, tail, tail);
    RightSpineTail(m, m', r, top);
    assert (r + [f])[..|r|] == r;
    RegroupRight(LeftOrder(l), InOrder(t.left), t.node, InOrder(t.right), RightOrder(r));
  }

  /** SPLAY_LINKRIGHT: the root and its left subtree go to the left tree. */
  lemma LinkRightKeeps(m: Links, m': Links, s: seq<Node>, l: seq<Frame>, t: Tree, r: seq<Frame>, top: Node)
    requires Splaying(m, s, l, t, r, top) && t.right.Fork?
    requires var tail := Tail(l, top);
             tail in m && ChangesAt(m, m', tail, tail) && Holds(m', tail, Link(m[tail].left, t.node))
    ensures Splaying(m', s, l + [Frame(t.node, t.left)], t.right, r, top)
  {
    var tail, f := Tail(l, top), Frame(t.node, t.left);
    TailsApart(m, s, l, t, r, top);
    NodesOf(t);
    ShapeKept(m, m', t, tail, tail);
    RightSpineKept(m, m', r, top, tail, tail);
    LeftSpineTail(m, m', l, top);
    assert (l + [f])[..|l|] == l;
    RegroupLeft(LeftOrder(l), InOrder(t.left), t.node, InOrder(t.right), RightOrder(r));
  }

  // ---- Putting the trees together ----

  function PlugLeft(fs: seq<Frame>, t: Tree): Tree {
    if fs == [] then t
    else var f := fs[|fs| - 1]; PlugLeft(fs[..|fs| - 1], Fork(f.side, f.node, t))
  }

  function PlugRight(fs: seq<Frame>, t: Tree): Tree {
    if fs == [] then t
    else var f := fs[|fs| - 1]; PlugRight(fs[..|fs| - 1], Fork(t, f.node, f.side))
  }

  lemma Associate(a: seq<Node>, b: seq<Node>, c: seq<Node>)
    ensures a + (b + c) == (a + b) + c
  {
  }

  lemma {:induction false} PlugOrder(fs: seq<Frame>, t: Tree)
    ensures InOrder(PlugLeft(fs, t)) == LeftOrder(fs) + InOrder(t)
    ensures InOrder(PlugRight(fs, t)) == InOrder(t) + RightOrder(fs)
  {
    if fs != [] {
      var f, rest := fs[|fs| - 1], fs[..|fs| - 1];
      PlugOrder(rest, Fork(f.side, f.node, t));
      PlugOrder(rest, Fork(t, f.node, f.side));
      Associate(LeftOrder(rest), InOrder(f.side) + [f.node], InOrder(t));
      Associate(InOrder(t), [f.node] + InOrder(f.side), RightOrder(rest));
      Associate(InOrder(t), [f.node], InOrder(f.side));
    }
  }

  lemma {:induction false} PlugLeftShape(m: Links, fs: seq<Frame>, top: Node, t: Tree)
    requires LeftSpine(m, fs, top) && Shape(m, t) && Tail(fs, top) in m && m[Tail(fs, top)].right == Root(t)
    ensures Shape(m, PlugLeft(fs, t)) && m[top].right == Root(PlugLeft(fs, t))
    decreases |fs|
  {
    if fs != [] {
      var f, rest := fs[|fs| - 1], fs[..|fs| - 1];
      PlugLeftShape(m, rest, top, Fork(f.side, f.node, t));
    }
  }

  lemma {:induction false} PlugRightShape(m: Links, fs: seq<Frame>, top: Node, t: Tree)
    requires RightSpine(m, fs, top) && Shape(m, t) && Tail(fs, top) in m && m[Tail(fs, top)].left == Root(t)
    ensures Shape(m, PlugRight(fs, t)) && m[top].left == Root(PlugRight(fs, t))
    decreases |fs|
  {
    if fs != [] {
      var f, rest := fs[|fs| - 1], fs[..|fs| - 1];
      PlugRightShape(m, rest, top, Fork(t, f.node, f.side));
    }
  }

  function Assembled(l: seq<Frame>, t: Tree, r: seq<Frame>): Tree
    requires t.Fork?
  {
    Fork(PlugLeft(l, t.left), t.node, PlugRight(r, t.right))
  }

  lemma {:induction false} AssembledOrder(l: seq<Frame>, t: Tree, r: seq<Frame>)
    requires t.Fork?
    ensures InOrder(Assembled(l, t, r)) == LeftOrder(l) + InOrder(t) + RightOrder(r)
  {
    PlugOrder(l, t.left);
    PlugOrder(r, t.right);
    var lo, a, x, c, ro := LeftOrder(l), InOrder(t.left), [t.node], InOrder(t.right), RightOrder(r);
    Associate(lo, a, x);
    Associate(lo, a + x, c);
    Associate(lo + (a + x), c, ro);
  }

  /** The first half of SPLAY_ASSEMBLE: the root's left subtree goes to the end of the left tree. */
  lemma {:induction false} AssembleLeft(m: Links, m': Links, s: seq<Node>, l: seq<Frame>, t: Tree, r: seq<Frame>,
                                        top: Node)
    requires Splaying(m, s, l, t, r, top)
    requires var tail := Tail(l, top);
             tail in m && ChangesAt(m, m', tail, tail) && Holds(m', tail, Link(m[tail].left, Root(t.left)))
    ensures Shape(m', PlugLeft(l, t.left)) && m'[top].right == Root(PlugLeft(l, t.left))
    ensures Shape(m', t.right) && RightSpine(m', r, top)
  {
    var tail := Tail(l, top);
    TailsApart(m, s, l, t, r, top);
    NodesOf(t);
    ShapeKept(m, m', t, tail, tail);
    RightSpineKept(m, m', r, top, tail, tail);
    LeftSpineTail(m, m', l, top);
    PlugLeftShape(m', l, top, t.left);
  }

  lemma {:induction false} AssembleRight(m: Links, m': Links, pl: Tree, t: Tree, r: seq<Frame>, top: Node)
    requires Shape(m, pl) && top in m && m[top].right == Root(pl) && top !in InOrder(pl) && top !in InOrder(t)
    requires Shape(m, t) && RightSpine(m, r, top) && Sorted(RightOrder(r)) && top !in RightOrder(r)
    requires Tail(r, top) !in InOrder(pl) && Tail(r, top) !in InOrder(t)
    requires var tail := Tail(r, top);
             tail in m && ChangesAt(m, m', tail, tail) && Holds(m', tail, Link(Root(t), m[tail].right))
    ensures Shape(m', pl) && m'[top].right == Root(pl)
    ensures Shape(m', PlugRight(r, t)) && m'[top].left == Root(PlugRight(r, t))
  {
    var tail := Tail(r, top);
    ShapeKept(m, m', pl, tail, tail);
    ShapeKept(m, m', t, tail, tail);
    RightSpineTail(m, m', r, top);
    PlugRightShape(m', r, top, t);
  }

  /** SPLAY_ASSEMBLE makes one tree of the three, in the same order. */
  lemma {:induction false} AssembleKeeps(m: Links, m1: Links, m2: Links, m3: Links, s: seq<Node>, l: seq<Frame>,
                                         t: Tree, r: seq<Frame>, top: Node)
    requires Splaying(m, s, l, t, r, top)
    requires var tail := Tail(l, top);
             tail in m && ChangesAt(m, m1, tail, tail) && Holds(m1, tail, Link(m[tail].left, Root(t.left)))
    requires var tail := Tail(r, top);
             tail in m1 && ChangesAt(m1, m2, tail, tail) && Holds(m2, tail, Link(Root(t.right), m1[tail].right))
    requires ChangesAt(m2, m3, t.node, t.node) && top in m2 && Holds(m3, t.node, Link(m2[top].right, m2[top].left))
    ensures Shape(m3, Assembled(l, t, r)) && InOrder(Assembled(l, t, r)) == s
  {
    var pl, pr := PlugLeft(l, t.left), PlugRight(r, t.right);
    TailsApart(m, s, l, t, r, top);
    NodesOf(t);
    PlugOrder(l, t.left);
    PlugOrder(r, t.right);
    AssembledOrder(l, t, r);
    SortedAround(InOrder(t.left), t.node, InOrder(t.right));
    AssembleLeft(m, m1, s, l, t, r, top);
    AssembleRight(m1, m2, pl, t.right, r, top);
    ShapeKept(m2, m3, pl, t.node, t.node);
    ShapeKept(m2, m3, pr, t.node, t.node);
  }
}
