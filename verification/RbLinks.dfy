/**
 The pointer structure of a red-black tree as a value: what every node's three
 links hold, and which stretch of the in-order sequence its subtree occupies.
 The stretches make "these pointers form one search tree" a condition on each
 node and its neighbours, which a rotation changes at four nodes only.
*/
module RbLinks {
  import opened CString

  /** An element of the tree: the map record of one loaded file. */
  class Node {
    const path: Str
    var baseAddr: nat
    var left: Node?
    var right: Node?
    var parent: Node?
    var red: bool

    /** malloc of a record: it goes on the books of the arena it comes from. */
    constructor (path: Str, baseAddr: nat, ghost arena: Arena)
      modifies arena`made
      ensures this.path == path && this.baseAddr == baseAddr && arena.made == old(arena.made) + {this}
    {
      this.path, this.baseAddr := path, baseAddr;
      left, right, parent, red := null, null, null, false;
      new;
      arena.made := arena.made + {this};
    }
  }

  /** The records handed out by malloc and those given back by free. */
  class Arena {
    ghost var made: set<Node>
    ghost var freed: set<Node>

    constructor ()
      ensures made == {} && freed == {}
    {
      made, freed := {}, {};
    }

    /** free: of a record that was made, was not freed before and is not in use. */
    method Free(mi: Node, ghost inUse: set<Node>)
      requires mi in made && mi !in freed && mi !in inUse
      modifies this`freed
      ensures freed == old(freed) + {mi}
    {
      freed := freed + {mi};
    }
  }

  /** A node's links; its subtree is the in-order stretch lo..hi with the node itself at pos. */
  datatype Link = Link(left: Node?, right: Node?, parent: Node?, lo: int, pos: int, hi: int)
  type Links = map<Node, Link>

  /** n's stretch is made up of its children's stretches and n itself, and its children point back at n. */
  ghost predicate Below(m: Links, size: int, n: Node)
    requires n in m
  {
    var c := m[n];
    && 0 <= c.lo <= c.pos < c.hi <= size
    && (if c.left == null then c.lo == c.pos
        else c.left in m && m[c.left].parent == n && m[c.left].lo == c.lo && m[c.left].hi == c.pos)
    && (if c.right == null then c.hi == c.pos + 1
        else c.right in m && m[c.right].parent == n && m[c.right].lo == c.pos + 1 && m[c.right].hi == c.hi)
  }

  /** n is the root or a child of its parent. */
  ghost predicate Above(m: Links, root: Node?, n: Node)
    requires n in m
  {
    var up := m[n].parent;
    if up == null then n == root else up in m && (n == m[up].left || n == m[up].right)
  }

  /** The links at n and at its neighbours agree. */
  ghost predicate Local(m: Links, root: Node?, size: int, n: Node)
    requires n in m
  {
    Below(m, size, n) && Above(m, root, n)
  }

  /** The links form one tree under root, over the whole in-order sequence of the given size. */
  ghost predicate Linked(m: Links, root: Node?, size: int)
  {
    && (forall n {:trigger Local(m, root, size, n)} | n in m :: Local(m, root, size, n))
    && (if root == null then m == map[] && size == 0
        else root in m && m[root].parent == null && m[root].lo == 0 && m[root].hi == size)
  }

  /** Everything known about one node and the nodes next to it. */
  lemma Around(m: Links, root: Node?, size: int, n: Node)
    requires Linked(m, root, size) && n in m
    ensures Local(m, root, size, n)
    ensures m[n].left != null ==> Local(m, root, size, m[n].left)
    ensures m[n].right != null ==> Local(m, root, size, m[n].right)
    ensures m[n].parent != null ==> Local(m, root, size, m[n].parent)
    ensures m[n].left != n && m[n].right != n && m[n].parent != n
    ensures m[n].left != null ==> m[n].left != m[n].right
    ensures m[n].parent != null ==> m[n].parent != m[n].left && m[n].parent != m[n].right
    ensures m[n].parent == null <==> n == root
  {
    assert Local(m, root, size, n);
    assert m[n].left != null ==> Local(m, root, size, m[n].left);
    assert m[n].right != null ==> Local(m, root, size, m[n].right);
    assert m[n].parent != null ==> Local(m, root, size, m[n].parent);
  }

  // ----- mirror image

  ghost function FlipLink(c: Link, size: int): Link {
    Link(c.right, c.left, c.parent, size - c.hi, size - 1 - c.pos, size - c.lo)
  }

  ghost function Flip(m: Links, size: int): Links {
    map n | n in m :: FlipLink(m[n], size)
  }

  lemma FlipLocal(m: Links, root: Node?, size: int, n: Node)
    requires n in m
    ensures Local(Flip(m, size), root, size, n) <==> Local(m, root, size, n)
  {
  }

  lemma FlipLinked(m: Links, root: Node?, size: int)
    requires Linked(m, root, size)
    ensures Linked(Flip(m, size), root, size)
  {
    var f := Flip(m, size);
    forall n | n in f
      ensures Local(f, root, size, n)
    {
      assert Local(m, root, size, n);
      FlipLocal(m, root, size, n);
    }
  }

  lemma FlipFlip(m: Links, size: int)
    ensures Flip(Flip(m, size), size) == m
  {
  }

  // ----- rotations

  /** m' is m after the left rotation at elm, whose right child tmp comes up. */
  ghost predicate RotL(m: Links, m': Links, elm: Node, tmp: Node, mid: Node?, up: Node?)
  {
    && elm in m && tmp in m && m'.Keys == m.Keys
    && m[elm].right == tmp && m[tmp].left == mid && m[elm].parent == up
    && m'[elm] == Link(m[elm].left, mid, tmp, m[elm].lo, m[elm].pos, m[tmp].pos)
    && m'[tmp] == Link(elm, m[tmp].right, up, m[elm].lo, m[tmp].pos, m[tmp].hi)
    && (mid != null ==> mid in m && m'[mid] == m[mid].(parent := elm))
    && (up != null ==> up in m && m'[up] == (if m[up].left == elm then m[up].(left := tmp) else m[up].(right := tmp)))
    && (forall n {:trigger m'[n]} | n in m && n != elm && n != tmp && n != mid && n != up :: m'[n] == m[n])
  }

  /** m' is m after the right rotation at elm, whose left child tmp comes up. */
  ghost predicate RotR(m: Links, m': Links, elm: Node, tmp: Node, mid: Node?, up: Node?)
  {
    && elm in m && tmp in m && m'.Keys == m.Keys
    && m[elm].left == tmp && m[tmp].right == mid && m[elm].parent == up
    && m'[elm] == Link(mid, m[elm].right, tmp, m[tmp].pos + 1, m[elm].pos, m[elm].hi)
    && m'[tmp] == Link(m[tmp].left, elm, up, m[tmp].lo, m[tmp].pos, m[elm].hi)
    && (mid != null ==> mid in m && m'[mid] == m[mid].(parent := elm))
    && (up != null ==> up in m && m'[up] == (if m[up].left == elm then m[up].(left := tmp) else m[up].(right := tmp)))
    && (forall n {:trigger m'[n]} | n in m && n != elm && n != tmp && n != mid && n != up :: m'[n] == m[n])
  }

  lemma RotLDistinct(m: Links, root: Node?, size: int, elm: Node, tmp: Node, mid: Node?, up: Node?)
    requires Linked(m, root, size) && elm in m && m[elm].right == tmp && m[elm].parent == up
    requires Local(m, root, size, elm) && m[tmp].left == mid
    ensures elm != tmp && elm != mid && elm != up && tmp != mid && tmp != up
    ensures tmp in m && m[tmp].parent == elm && (mid != null ==> mid in m && m[mid].parent == tmp)
    ensures up != null ==>
              up in m && up != mid && m[up].left != m[up].right && (elm == m[up].left || elm == m[up].right)
  {
    Around(m, root, size, elm);
    Around(m, root, size, tmp);
    if up != null {
      Around(m, root, size, up);
    }
  }

  lemma RotLOther(m: Links, m': Links, root: Node?, root': Node?, size: int, elm: Node, tmp: Node, mid: Node?,
                  up: Node?, n: Node)
    requires Linked(m, root, size) && RotL(m, m', elm, tmp, mid, up) && Local(m, root, size, elm)
    requires root' == if root == elm then tmp else root
    requires n in m && n != elm && n != tmp && n != mid && n != up
    ensures Local(m', root', size, n)
  {
    RotLDistinct(m, root, size, elm, tmp, mid, up);
    assert Local(m, root, size, n);
    assert Local(m, root, size, tmp);
    assert mid != null ==> Local(m, root, size, mid);
    assert up != null ==> Local(m, root, size, up);
  }

  lemma RotLPair(m: Links, m': Links, root: Node?, root': Node?, size: int, elm: Node, tmp: Node, mid: Node?, up: Node?)
    requires Linked(m, root, size) && RotL(m, m', elm, tmp, mid, up) && Local(m, root, size, elm)
    requires root' == if root == elm then tmp else root
    ensures Local(m', root', size, elm) && Local(m', root', size, tmp)
  {
    RotLDistinct(m, root, size, elm, tmp, mid, up);
    Around(m, root, size, elm);
    Around(m, root, size, tmp);
  }

  lemma RotLMid(m: Links, m': Links, root: Node?, root': Node?, size: int, elm: Node, tmp: Node, mid: Node, up: Node?)
    requires Linked(m, root, size) && RotL(m, m', elm, tmp, mid, up) && Local(m, root, size, elm)
    requires root' == if root == elm then tmp else root
    ensures Local(m', root', size, mid)
  {
    RotLDistinct(m, root, size, elm, tmp, mid, up);
    Around(m, root, size, mid);
  }

  lemma RotLUp(m: Links, m': Links, root: Node?, root': Node?, size: int, elm: Node, tmp: Node, mid: Node?, up: Node)
    requires Linked(m, root, size) && RotL(m, m', elm, tmp, mid, up) && Local(m, root, size, elm)
    requires root' == if root == elm then tmp else root
    ensures Local(m', root', size, up)
  {
    RotLDistinct(m, root, size, elm, tmp, mid, up);
    Around(m, root, size, up);
  }

  /** A left rotation keeps the tree, hence the in-order sequence. */
  lemma RotLLinked(m: Links, m': Links, root: Node?, root': Node?, size: int, elm: Node, tmp: Node, mid: Node?,
                   up: Node?)
    requires Linked(m, root, size) && RotL(m, m', elm, tmp, mid, up)
    requires root' == if root == elm then tmp else root
    ensures Linked(m', root', size)
  {
    assert Local(m, root, size, elm);
    forall n | n in m'
      ensures Local(m', root', size, n)
    {
      if n == elm || n == tmp {
        RotLPair(m, m', root, root', size, elm, tmp, mid, up);
      } else if n == mid {
        RotLMid(m, m', root, root', size, elm, tmp, n, up);
      } else if n == up {
        RotLUp(m, m', root, root', size, elm, tmp, mid, n);
      } else {
        RotLOther(m, m', root, root', size, elm, tmp, mid, up, n);
      }
    }
    RotLDistinct(m, root, size, elm, tmp, mid, up);
    assert Local(m, root, size, root);
  }

  lemma FlipRot(m: Links, m': Links, size: int, elm: Node, tmp: Node, mid: Node?, up: Node?)
    requires RotR(m, m', elm, tmp, mid, up)
             && (up != null ==> m[up].left != m[up].right && (m[up].left == elm || m[up].right == elm))
    ensures RotL(Flip(m, size), Flip(m', size), elm, tmp, mid, up)
  {
  }

  lemma RotRLinked(m: Links, m': Links, root: Node?, root': Node?, size: int, elm: Node, tmp: Node, mid: Node?,
                   up: Node?)
    requires Linked(m, root, size) && RotR(m, m', elm, tmp, mid, up)
    requires root' == if root == elm then tmp else root
    ensures Linked(m', root', size)
  {
    Around(m, root, size, elm);
    if up != null {
      Around(m, root, size, up);
    }
    FlipRot(m, m', size, elm, tmp, mid, up);
    FlipLinked(m, root, size);
    RotLLinked(Flip(m, size), Flip(m', size), root, root', size, elm, tmp, mid, up);
    FlipLinked(Flip(m', size), root', size);
    FlipFlip(m', size);
  }
}
