/** The one-sided step lemmas of RbColors and RbDeficit, for the other side. */
module RbMirror {
  import opened RbLinks
  import opened RbColors
  import opened RbDeficit

  lemma FlipSides(m: Links, c: Colors, size: int, n: Node, exc: Node?)
    requires n in m && n in c
    ensures var f := Flip(m, size); Even(f, c, n) == Even(m, c, n) && NoRedRed(f, c, n, exc) == NoRedRed(m, c, n, exc)
  {
  }

  lemma FlipRedAt(m: Links, c: Colors, root: Node?, size: int, elm: Node)
    requires RedAt(m, c, root, elm)
    ensures RedAt(Flip(m, size), c, root, elm)
  {
    forall n | n in m
      ensures Even(Flip(m, size), c, n) && NoRedRed(Flip(m, size), c, n, elm)
    {
      assert Even(m, c, n) && NoRedRed(m, c, n, elm);
      FlipSides(m, c, size, n, elm);
    }
  }

  lemma FlipShortAt(m: Links, c: Colors, root: Node?, size: int, parent: Node?, elm: Node?)
    requires ShortAt(m, c, root, parent, elm)
    ensures ShortAt(Flip(m, size), c, root, parent, elm)
  {
    forall n | n in m
      ensures n == parent || Even(Flip(m, size), c, n)
      ensures n == elm || NoRedRed(Flip(m, size), c, n, elm)
    {
      if n != parent { assert Even(m, c, n); }
      if n != elm { assert NoRedRed(m, c, n, elm); }
      FlipSides(m, c, size, n, elm);
    }
  }

  lemma FlipBalanced(m: Links, c: Colors, root: Node?, size: int)
    requires Balanced(m, c, root)
    ensures Balanced(Flip(m, size), c, root)
  {
    forall n | n in m
      ensures Even(Flip(m, size), c, n) && NoRedRed(Flip(m, size), c, n, null)
    {
      assert Even(m, c, n) && NoRedRed(m, c, n, null);
      FlipSides(m, c, size, n, null);
    }
  }

  lemma FlipTurnL(m: Links, m': Links, size: int, elm: Node, tmp: Node, mid: Node?, up: Node?)
    requires RotL(m, m', elm, tmp, mid, up)
    requires up != null ==> m[up].left != m[up].right && (m[up].left == elm || m[up].right == elm)
    ensures RotR(Flip(m, size), Flip(m', size), elm, tmp, mid, up)
  {
  }

  lemma FlipRotL(m: Links, m': Links, root: Node?, size: int, elm: Node, tmp: Node, mid: Node?, up: Node?)
    requires Linked(m, root, size) && RotL(m, m', elm, tmp, mid, up)
    ensures RotR(Flip(m, size), Flip(m', size), elm, tmp, mid, up)
    ensures Linked(Flip(m, size), root, size)
  {
    Around(m, root, size, elm);
    if up != null {
      Around(m, root, size, up);
    }
    FlipTurnL(m, m', size, elm, tmp, mid, up);
    FlipLinked(m, root, size);
  }

  lemma FlipRotR(m: Links, m': Links, root: Node?, size: int, elm: Node, tmp: Node, mid: Node?, up: Node?)
    requires Linked(m, root, size) && RotR(m, m', elm, tmp, mid, up)
    ensures RotL(Flip(m, size), Flip(m', size), elm, tmp, mid, up)
    ensures Linked(Flip(m, size), root, size)
  {
    Around(m, root, size, elm);
    if up != null {
      Around(m, root, size, up);
    }
    FlipRot(m, m', size, elm, tmp, mid, up);
    FlipLinked(m, root, size);
  }

  lemma InnerRotatedR(m: Links, m': Links, c: Colors, root: Node?, size: int, elm: Node, p: Node, mid: Node?, g: Node)
    requires Linked(m, root, size) && RedAt(m, c, root, elm) && m[elm].parent == p && IsRed(c, p)
    requires RotR(m, m', p, elm, mid, g)
    ensures RedAt(m', c, root, p)
  {
    FlipRotR(m, m', root, size, p, elm, mid, g);
    FlipRedAt(m, c, root, size, elm);
    InnerRotated(Flip(m, size), Flip(m', size), c, root, size, elm, p, mid, g);
    FlipRedAt(Flip(m', size), c, root, size, p);
    FlipFlip(m', size);
  }

  lemma OuterRotatedR(m: Links, m': Links, c: Colors, c': Colors, root: Node?, root': Node?, size: int, elm: Node,
                      p: Node, g: Node, mid: Node?, up: Node?)
    requires Linked(m, root, size) && RedAt(m, c, root, elm) && m[elm].parent == p && IsRed(c, p)
    requires RotL(m, m', g, p, mid, up) && m[p].right == elm && !IsRed(c, m[g].left)
    requires root' == if root == g then p else root
    requires c[g].bh > 0 && c' == c[p := Paint(false, c[p].bh + 1)][g := Paint(true, c[g].bh - 1)]
    ensures RedAt(m', c', root', elm) && !IsRed(c', m'[elm].parent)
  {
    FlipRotL(m, m', root, size, g, p, mid, up);
    FlipRedAt(m, c, root, size, elm);
    OuterRotated(Flip(m, size), Flip(m', size), c, c', root, root', size, elm, p, g, mid, up);
    FlipRedAt(Flip(m', size), c', root', size, elm);
    FlipFlip(m', size);
  }

  lemma RedSiblingR(m: Links, m': Links, c: Colors, c': Colors, root: Node?, root': Node?, size: int, parent: Node,
                    elm: Node?, tmp: Node, mid: Node?, up: Node?)
    requires Linked(m, root, size) && ShortAt(m, c, root, parent, elm)
    requires RotR(m, m', parent, tmp, mid, up) && m[parent].right == elm && !IsRed(c, elm) && IsRed(c, tmp)
    requires root' == if root == parent then tmp else root
    requires Swapped(c, c', parent, tmp)
    ensures ShortAt(m', c', root', parent, elm) && m'[parent].right == elm && !IsRed(c', m'[parent].left)
  {
    FlipRotR(m, m', root, size, parent, tmp, mid, up);
    FlipShortAt(m, c, root, size, parent, elm);
    RedSibling(Flip(m, size), Flip(m', size), c, c', root, root', size, parent, elm, tmp, mid, up);
    FlipShortAt(Flip(m', size), c', root', size, parent, elm);
    FlipFlip(m', size);
  }

  lemma NearRedR(m: Links, m': Links, c: Colors, c': Colors, root: Node?, size: int, parent: Node, elm: Node?,
                 tmp: Node, near: Node, mid: Node?)
    requires Linked(m, root, size) && ShortAt(m, c, root, parent, elm) && tmp in m
    requires RotL(m, m', tmp, near, mid, parent) && m[parent].right == elm && m[parent].left == tmp
    requires !IsRed(c, elm) && !IsRed(c, tmp) && IsRed(c, near) && !IsRed(c, m[tmp].left)
    requires Swapped(c, c', tmp, near)
    ensures ShortAt(m', c', root, parent, elm)
    ensures m'[parent].right == elm && m'[parent].left == near && !IsRed(c', near) && m'[near].left == tmp
            && IsRed(c', tmp)
  {
    FlipRotL(m, m', root, size, tmp, near, mid, parent);
    FlipShortAt(m, c, root, size, parent, elm);
    NearRed(Flip(m, size), Flip(m', size), c, c', root, size, parent, elm, tmp, near, mid);
    FlipShortAt(Flip(m', size), c', root, size, parent, elm);
    FlipFlip(m', size);
  }

  lemma FarRedR(m: Links, m': Links, c: Colors, c': Colors, root: Node?, root': Node?, size: int, parent: Node,
                elm: Node?, tmp: Node, far: Node, mid: Node?, up: Node?)
    requires Linked(m, root, size) && ShortAt(m, c, root, parent, elm)
    requires RotR(m, m', parent, tmp, mid, up) && m[parent].right == elm && m[tmp].left == far
    requires root' == if root == parent then tmp else root
    requires !IsRed(c, elm) && !IsRed(c, tmp) && IsRed(c, far) && Lifted(c, c', parent, tmp, far)
    ensures Balanced(m', c', root')
  {
    FlipRotR(m, m', root, size, parent, tmp, mid, up);
    FlipShortAt(m, c, root, size, parent, elm);
    FarRed(Flip(m, size), Flip(m', size), c, c', root, root', size, parent, elm, tmp, far, mid, up);
    FlipBalanced(Flip(m', size), c', root', size);
    FlipFlip(m', size);
  }

  lemma NearRedFactsR(m: Links, c: Colors, root: Node?, size: int, parent: Node, elm: Node?, tmp: Node, near: Node)
    requires Linked(m, root, size) && ShortAt(m, c, root, parent, elm)
    requires parent in m && m[parent].right == elm && m[parent].left == tmp && !IsRed(c, elm) && !IsRed(c, tmp)
    requires tmp in m && m[tmp].right == near && IsRed(c, near)
    ensures m[tmp].parent == parent && parent != tmp && elm != tmp && elm != parent && near != elm && near != parent
            && near != tmp
    ensures near in m && m[near].parent == tmp && tmp != root && near != root && c[tmp].bh == Bh(c, elm) + 1
  {
    FlipLinked(m, root, size);
    FlipShortAt(m, c, root, size, parent, elm);
    NearRedFacts(Flip(m, size), c, root, size, parent, elm, tmp, near);
  }

  lemma FarRedFactsR(m: Links, c: Colors, root: Node?, size: int, parent: Node, elm: Node?, tmp: Node, far: Node)
    requires Linked(m, root, size) && ShortAt(m, c, root, parent, elm)
    requires parent in m && m[parent].right == elm && m[parent].left == tmp && !IsRed(c, elm) && !IsRed(c, tmp)
    requires tmp in m && m[tmp].left == far && IsRed(c, far)
    ensures m[tmp].parent == parent && parent != tmp && elm != tmp && elm != parent && far != elm && far != parent
            && far != tmp
    ensures far in m && c[parent].bh == Bh(c, elm) + 1 + Weight(c[parent].red)
  {
    FlipLinked(m, root, size);
    FlipShortAt(m, c, root, size, parent, elm);
    FarRedFacts(Flip(m, size), c, root, size, parent, elm, tmp, far);
  }
}
