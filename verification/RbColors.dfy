/**
 Colours and black heights over the links of a red-black tree, and what each
 step of the two colour fix-up loops does to them.
*/
module RbColors {
  import opened RbLinks

  /** A node's colour, and the number of black nodes from it down to any empty place. */
  datatype Paint = Paint(red: bool, bh: nat)
  type Colors = map<Node, Paint>

  ghost function Bh(c: Colors, n: Node?): nat {
    if n == null || n !in c then 0 else c[n].bh
  }

  ghost predicate IsRed(c: Colors, n: Node?) {
    n != null && n in c && c[n].red
  }

  ghost function Weight(red: bool): nat {
    if red then 0 else 1
  }

  /** Both sides of n have the same black height. */
  ghost predicate Even(m: Links, c: Colors, n: Node)
    requires n in m && n in c
  {
    Bh(c, m[n].left) == Bh(c, m[n].right) && c[n].bh == Bh(c, m[n].left) + Weight(c[n].red)
  }

  /** If n is red its children are not, except that the child exc may be. */
  ghost predicate NoRedRed(m: Links, c: Colors, n: Node, exc: Node?)
    requires n in m && n in c
  {
    c[n].red ==> (m[n].left == exc || !IsRed(c, m[n].left)) && (m[n].right == exc || !IsRed(c, m[n].right))
  }

  /** The colour rules of a red-black tree. */
  ghost predicate Balanced(m: Links, c: Colors, root: Node?)
  {
    && c.Keys == m.Keys
    && (forall n {:trigger Even(m, c, n)} | n in m :: Even(m, c, n))
    && (forall n {:trigger NoRedRed(m, c, n, null)} | n in m :: NoRedRed(m, c, n, null))
    && !IsRed(c, root)
  }

  // ----- after an insertion

  /** The colour rules, except that the red node elm may have a red parent or be the root. */
  ghost predicate RedAt(m: Links, c: Colors, root: Node?, elm: Node)
  {
    && c.Keys == m.Keys && IsRed(c, elm)
    && (forall n {:trigger Even(m, c, n)} | n in m :: Even(m, c, n))
    && (forall n {:trigger NoRedRed(m, c, n, elm)} | n in m :: NoRedRed(m, c, n, elm))
    && (root == elm || !IsRed(c, root))
  }

  /** A red parent is not the root, and its own parent is black. */
  lemma Grandparent(m: Links, c: Colors, root: Node?, size: int, elm: Node)
    requires Linked(m, root, size) && RedAt(m, c, root, elm) && IsRed(c, m[elm].parent)
    ensures var p := m[elm].parent;
            Local(m, root, size, elm) && m[p].parent != null && m[p].parent in m && !c[m[p].parent].red
    ensures var p := m[elm].parent; Local(m, root, size, p) && (p == m[m[p].parent].left || p == m[m[p].parent].right)
  {
    Around(m, root, size, elm);
    Around(m, root, size, m[elm].parent);
    assert NoRedRed(m, c, m[m[elm].parent].parent, elm);
  }

  /** A node whose own paint and whose children's paints are as before keeps the rules. */
  lemma Kept(m: Links, m': Links, c: Colors, c': Colors, n: Node, exc: Node?, exc': Node?)
    requires n in m && n in m' && n in c && n in c' && Even(m, c, n) && NoRedRed(m, c, n, exc)
    requires c'[n] == c[n]
    requires Bh(c', m'[n].left) == Bh(c, m[n].left) && Bh(c', m'[n].right) == Bh(c, m[n].right)
    requires IsRed(c', m'[n].left) ==> m'[n].left == exc' || (IsRed(c, m[n].left) && m[n].left != exc)
    requires IsRed(c', m'[n].right) ==> m'[n].right == exc' || (IsRed(c, m[n].right) && m[n].right != exc)
    ensures Even(m', c', n) && NoRedRed(m', c', n, exc')
  {
  }

  /** A child belongs to one node only. */
  lemma OnlyParent(m: Links, root: Node?, size: int, n: Node, x: Node?)
    requires Linked(m, root, size) && n in m && x != null && (m[n].left == x || m[n].right == x)
    ensures x in m && m[x].parent == n && n != x
  {
    Around(m, root, size, n);
  }

  ghost predicate Repaint(c: Colors, c': Colors, p: Node, g: Node, u: Node)
  {
    p in c && g in c && u in c &&
    c' == c[u := Paint(false, c[u].bh + 1)][p := Paint(false, c[p].bh + 1)][g := Paint(true, c[g].bh)]
  }

  lemma RepaintedElsewhere(m: Links, c: Colors, c': Colors, root: Node?, size: int, elm: Node, p: Node, g: Node,
                           u: Node, n: Node)
    requires Linked(m, root, size) && RedAt(m, c, root, elm) && m[elm].parent == p && Repaint(c, c', p, g, u)
    requires m[p].parent == g && m[u].parent == g && n in m && n != g && n != p && n != u
    ensures Even(m, c', n) && NoRedRed(m, c', n, g)
  {
    assert Even(m, c, n) && NoRedRed(m, c, n, elm);
    if m[n].left != null {
      OnlyParent(m, root, size, n, m[n].left);
    }
    if m[n].right != null {
      OnlyParent(m, root, size, n, m[n].right);
    }
    Kept(m, m, c, c', n, elm, g);
  }

  lemma RepaintedChild(m: Links, c: Colors, c': Colors, root: Node?, size: int, elm: Node, p: Node, g: Node, u: Node,
                       n: Node)
    requires Linked(m, root, size) && RedAt(m, c, root, elm) && Repaint(c, c', p, g, u)
    requires m[p].parent == g && m[u].parent == g && (n == p || n == u) && g != p && g != u && IsRed(c, n)
    requires m[g].parent != p && m[g].parent != u
    ensures Even(m, c', n) && NoRedRed(m, c', n, g)
  {
    assert Even(m, c, n);
    if m[n].left != null {
      OnlyParent(m, root, size, n, m[n].left);
    }
    if m[n].right != null {
      OnlyParent(m, root, size, n, m[n].right);
    }
  }

  lemma RepaintedTop(m: Links, c: Colors, c': Colors, root: Node?, size: int, elm: Node, p: Node, g: Node, u: Node)
    requires Linked(m, root, size) && RedAt(m, c, root, elm) && m[elm].parent == p && IsRed(c, p)
    requires Siblings(m, g, p, u) && IsRed(c, u) && Repaint(c, c', p, g, u)
    ensures Even(m, c', g) && NoRedRed(m, c', g, g) && !c[g].red
  {
    Family(m, root, size, p, g, u);
    Grandparent(m, c, root, size, elm);
    assert Even(m, c, g);
  }

  ghost predicate Siblings(m: Links, g: Node, p: Node, u: Node) {
    g in m && ((p == m[g].left && u == m[g].right) || (p == m[g].right && u == m[g].left))
  }

  lemma Family(m: Links, root: Node?, size: int, p: Node, g: Node, u: Node)
    requires Linked(m, root, size) && Siblings(m, g, p, u)
    ensures p in m && u in m && m[p].parent == g && m[u].parent == g
    ensures g != p && g != u && p != u && m[g].parent != p && m[g].parent != u
  {
    Around(m, root, size, g);
  }

  /** Parent and uncle red: repainting moves the red-red edge two levels up. */
  lemma Repainted(m: Links, c: Colors, c': Colors, root: Node?, size: int, elm: Node, p: Node, g: Node, u: Node)
    requires Linked(m, root, size) && RedAt(m, c, root, elm) && m[elm].parent == p && IsRed(c, p)
    requires Siblings(m, g, p, u) && IsRed(c, u) && Repaint(c, c', p, g, u)
    ensures RedAt(m, c', root, g)
  {
    Family(m, root, size, p, g, u);
    forall n | n in m
      ensures Even(m, c', n) && NoRedRed(m, c', n, g)
    {
      if n == p || n == u {
        RepaintedChild(m, c, c', root, size, elm, p, g, u, n);
      } else if n == g {
        RepaintedTop(m, c, c', root, size, elm, p, g, u);
      } else {
        RepaintedElsewhere(m, c, c', root, size, elm, p, g, u, n);
      }
    }
  }

  /** elm is the inner grandchild: rotating at its red parent makes it the parent. */
  lemma InnerRotated(m: Links, m': Links, c: Colors, root: Node?, size: int, elm: Node, p: Node, mid: Node?, g: Node)
    requires Linked(m, root, size) && RedAt(m, c, root, elm) && m[elm].parent == p && IsRed(c, p)
    requires RotL(m, m', p, elm, mid, g)
    ensures RedAt(m', c, root, p)
  {
    Grandparent(m, c, root, size, elm);
    RotLDistinct(m, root, size, p, elm, mid, g);
    forall n | n in m'
      ensures Even(m', c, n) && NoRedRed(m', c, n, p)
    {
      Around(m, root, size, n);
      assert Even(m, c, n) && NoRedRed(m, c, n, elm);
      assert Even(m, c, elm) && Even(m, c, p) && NoRedRed(m, c, elm, elm) && NoRedRed(m, c, p, elm);
    }
  }

  /** elm is the outer grandchild and the uncle is black: repainting and rotating at the grandparent ends the loop. */
  lemma OuterRotated(m: Links, m': Links, c: Colors, c': Colors, root: Node?, root': Node?, size: int, elm: Node,
                     p: Node, g: Node, mid: Node?, up: Node?)
    requires Linked(m, root, size) && RedAt(m, c, root, elm) && m[elm].parent == p && IsRed(c, p)
    requires RotR(m, m', g, p, mid, up) && m[p].left == elm && !IsRed(c, m[g].right)
    requires root' == if root == g then p else root
    requires c[g].bh > 0 && c' == c[p := Paint(false, c[p].bh + 1)][g := Paint(true, c[g].bh - 1)]
    ensures RedAt(m', c', root', elm) && !IsRed(c', m'[elm].parent)
  {
    Grandparent(m, c, root, size, elm);
    Around(m, root, size, p);
    Around(m, root, size, g);
    assert Even(m, c, g) && Even(m, c, p) && NoRedRed(m, c, p, elm);
    forall n | n in m'
      ensures Even(m', c', n) && NoRedRed(m', c', n, elm)
    {
      if n != g && n != p {
        OuterElsewhere(m, m', c, c', root, size, elm, p, g, mid, up, n);
      }
    }
  }

  lemma OuterElsewhere(m: Links, m': Links, c: Colors, c': Colors, root: Node?, size: int, elm: Node, p: Node, g: Node,
                       mid: Node?, up: Node?, n: Node)
    requires Linked(m, root, size) && RedAt(m, c, root, elm) && m[elm].parent == p
    requires RotR(m, m', g, p, mid, up) && n in m && n != g && n != p && IsRed(c, p) && !c[g].red
    requires c[g].bh > 0 && c' == c[p := Paint(false, c[p].bh + 1)][g := Paint(true, c[g].bh - 1)]
    ensures Even(m', c', n) && NoRedRed(m', c', n, elm)
  {
    Around(m, root, size, n);
    Around(m, root, size, g);
    Around(m, root, size, p);
    assert Even(m, c, n) && NoRedRed(m, c, n, elm) && Even(m, c, p) && Even(m, c, g);
    assert m'[n].left == if n == up && m[n].left == g then p else m[n].left;
    assert m'[n].right == if n == up && m[n].left != g then p else m[n].right;
    Kept(m, m', c, c', n, elm, elm);
  }

  /** Painting the root black once elm has no red parent restores the rules. */
  lemma RootPainted(m: Links, c: Colors, c': Colors, root: Node, size: int, elm: Node)
    requires Linked(m, root, size) && RedAt(m, c, root, elm) && elm in m && !IsRed(c, m[elm].parent)
    requires root in c && c' == c[root := Paint(false, c[root].bh + 1 - Weight(c[root].red))]
    ensures Balanced(m, c', root)
  {
    forall n | n in m
      ensures Even(m, c', n) && NoRedRed(m, c', n, null)
    {
      Around(m, root, size, n);
      assert Even(m, c, n) && NoRedRed(m, c, n, elm);
    }
  }
}
