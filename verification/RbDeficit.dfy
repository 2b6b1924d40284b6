/**
 The steps of the removal fix-up. A removed black node leaves the place below
 parent that holds elm one black node short; every other node keeps the black
 height it had, as if the missing one were still there.
*/
module RbDeficit {
  import opened RbLinks
  import opened RbColors

  /** The side of parent that holds elm is one short of the other. */
  ghost predicate Short(m: Links, c: Colors, parent: Node, elm: Node?)
    requires parent in m && parent in c
  {
    && ((m[parent].left == elm && Bh(c, m[parent].right) == Bh(c, elm) + 1)
        || (m[parent].right == elm && Bh(c, m[parent].left) == Bh(c, elm) + 1))
    && c[parent].bh == Bh(c, elm) + 1 + Weight(c[parent].red)
  }

  /** The colour rules, except for the shortage at elm; elm may be red next to red nodes. */
  ghost predicate ShortAt(m: Links, c: Colors, root: Node?, parent: Node?, elm: Node?)
  {
    && c.Keys == m.Keys
    && (elm != null ==> elm in m && m[elm].parent == parent)
    && (if parent == null then elm == root else parent in m && Short(m, c, parent, elm))
    && (forall n {:trigger Even(m, c, n)} | n in m :: n == parent || Even(m, c, n))
    && (forall n {:trigger NoRedRed(m, c, n, elm)} | n in m :: n == elm || NoRedRed(m, c, n, elm))
    && (root == elm || !IsRed(c, root))
  }

  /** elm and tmp are the two children of parent. */
  ghost predicate Beside(m: Links, parent: Node, elm: Node?, tmp: Node) {
    parent in m && ((m[parent].left == elm && m[parent].right == tmp)
                    || (m[parent].right == elm && m[parent].left == tmp))
  }

  lemma BesideFacts(m: Links, c: Colors, root: Node?, size: int, parent: Node, elm: Node?, tmp: Node)
    requires Linked(m, root, size) && ShortAt(m, c, root, parent, elm) && Beside(m, parent, elm, tmp)
    ensures tmp in m && m[tmp].parent == parent && tmp != parent && tmp != elm && elm != parent
            && m[parent].parent != tmp
    ensures Bh(c, tmp) == Bh(c, elm) + 1 && m[parent].parent != parent
    ensures m[parent].parent == null <==> parent == root
    ensures tmp != root && (elm != null ==> elm != root)
  {
    Around(m, root, size, parent);
  }

  // ----- case 2: a black sibling with black children

  ghost predicate SiblingReddened(c: Colors, c': Colors, parent: Node, tmp: Node) {
    && parent in c && tmp in c && c[tmp].bh > 0 && c[parent].bh > 0
    && c' == c[tmp := Paint(true, c[tmp].bh - 1)][parent := Paint(c[parent].red, c[parent].bh - 1)]
  }

  lemma ReddenedElsewhere(m: Links, c: Colors, c': Colors, root: Node?, size: int, parent: Node, elm: Node?, tmp: Node,
                          n: Node)
    requires Linked(m, root, size) && ShortAt(m, c, root, parent, elm) && Beside(m, parent, elm, tmp)
    requires !IsRed(c, elm) && SiblingReddened(c, c', parent, tmp)
    requires n in m && n != parent && n != tmp && n != m[parent].parent
    ensures Even(m, c', n) && NoRedRed(m, c', n, parent)
  {
    BesideFacts(m, c, root, size, parent, elm, tmp);
    assert Even(m, c, n);
    if n != elm { assert NoRedRed(m, c, n, elm); }
    if m[n].left != null {
      OnlyParent(m, root, size, n, m[n].left);
    }
    if m[n].right != null {
      OnlyParent(m, root, size, n, m[n].right);
    }
  }

  lemma ReddenedAbove(m: Links, c: Colors, c': Colors, root: Node?, size: int, parent: Node, elm: Node?, tmp: Node,
                      up: Node)
    requires Linked(m, root, size) && ShortAt(m, c, root, parent, elm) && Beside(m, parent, elm, tmp)
    requires !IsRed(c, elm) && SiblingReddened(c, c', parent, tmp) && m[parent].parent == up
    ensures up in m && up in c' && Short(m, c', up, parent) && NoRedRed(m, c', up, parent)
  {
    BesideFacts(m, c, root, size, parent, elm, tmp);
    Around(m, root, size, parent);
    Around(m, root, size, up);
    assert Even(m, c, up);
    if up != elm { assert NoRedRed(m, c, up, elm); }
  }

  lemma ReddenedTmp(m: Links, c: Colors, c': Colors, root: Node?, size: int, parent: Node, elm: Node?, tmp: Node)
    requires Linked(m, root, size) && ShortAt(m, c, root, parent, elm) && Beside(m, parent, elm, tmp)
    requires SiblingReddened(c, c', parent, tmp) && !IsRed(c, tmp) && !IsRed(c, m[tmp].left) && !IsRed(c, m[tmp].right)
    ensures tmp in m && Even(m, c', tmp) && NoRedRed(m, c', tmp, parent) && Even(m, c', parent)
  {
    BesideFacts(m, c, root, size, parent, elm, tmp);
    Around(m, root, size, tmp);
    assert Even(m, c, tmp);
  }

  /** The shortage moves to the parent. */
  lemma Reddened(m: Links, c: Colors, c': Colors, root: Node?, size: int, parent: Node, elm: Node?, tmp: Node)
    requires Linked(m, root, size) && ShortAt(m, c, root, parent, elm) && Beside(m, parent, elm, tmp)
    requires !IsRed(c, elm) && !IsRed(c, tmp) && tmp in m && !IsRed(c, m[tmp].left) && !IsRed(c, m[tmp].right)
    requires SiblingReddened(c, c', parent, tmp)
    ensures ShortAt(m, c', root, m[parent].parent, parent)
  {
    BesideFacts(m, c, root, size, parent, elm, tmp);
    var up := m[parent].parent;
    ReddenedTmp(m, c, c', root, size, parent, elm, tmp);
    if up != null {
      ReddenedAbove(m, c, c', root, size, parent, elm, tmp, up);
    }
    forall n | n in m && n != parent
      ensures (n == up || Even(m, c', n)) && NoRedRed(m, c', n, parent)
    {
      if n != tmp && n != up {
        ReddenedElsewhere(m, c, c', root, size, parent, elm, tmp, n);
      }
    }
  }

  // ----- case 1: a red sibling

  ghost predicate Swapped(c: Colors, c': Colors, top: Node, tmp: Node) {
    && top in c && tmp in c && c[top].bh > 0
    && c' == c[tmp := Paint(false, c[tmp].bh + 1)][top := Paint(true, c[top].bh - 1)]
  }

  /** Away from a rotation of top and its red child tmp that trades their colours, nothing changes. */
  lemma SwappedElsewhere(m: Links, m': Links, c: Colors, c': Colors, root: Node?, size: int, parent: Node, elm: Node?,
                         top: Node, tmp: Node, n: Node)
    requires Linked(m, root, size) && ShortAt(m, c, root, parent, elm) && Swapped(c, c', top, tmp) && n in m && n in m'
    requires n != top && n != tmp && !IsRed(c, elm) && IsRed(c, tmp) && !IsRed(c, top) && top in m && Even(m, c, n)
    requires m[tmp].parent == top && c[top].bh == c[tmp].bh + 1
    requires m'[n].left == (if n == m[top].parent && m[n].left == top then tmp else m[n].left)
    requires m'[n].right == (if n == m[top].parent && m[n].left != top then tmp else m[n].right)
    ensures Even(m', c', n) && NoRedRed(m', c', n, elm)
  {
    if n != elm { assert NoRedRed(m, c, n, elm); }
    Around(m, root, size, top);
    Around(m, root, size, n);
  }

  lemma RedSiblingFacts(m: Links, c: Colors, root: Node?, size: int, parent: Node, elm: Node?, tmp: Node)
    requires Linked(m, root, size) && ShortAt(m, c, root, parent, elm)
    requires parent in m && m[parent].left == elm && m[parent].right == tmp && !IsRed(c, elm) && IsRed(c, tmp)
    ensures tmp in m && m[tmp].parent == parent && parent != tmp && elm != tmp && elm != parent
    ensures !c[parent].red && c[tmp].bh == Bh(c, elm) + 1 && c[parent].bh == c[tmp].bh + 1
    ensures Bh(c, m[tmp].left) == c[tmp].bh && Bh(c, m[tmp].right) == c[tmp].bh
    ensures m[tmp].left != null && m[tmp].left != elm && !IsRed(c, m[tmp].left)
    ensures m[tmp].right != tmp && m[tmp].right != parent
  {
    BesideFacts(m, c, root, size, parent, elm, tmp);
    Around(m, root, size, tmp);
    assert NoRedRed(m, c, parent, elm) && NoRedRed(m, c, tmp, elm) && Even(m, c, tmp);
  }

  /** Rotating the red sibling up leaves the shortage where it is, beside a black sibling. */
  lemma RedSibling(m: Links, m': Links, c: Colors, c': Colors, root: Node?, root': Node?, size: int, parent: Node,
                   elm: Node?, tmp: Node, mid: Node?, up: Node?)
    requires Linked(m, root, size) && ShortAt(m, c, root, parent, elm)
    requires RotL(m, m', parent, tmp, mid, up) && m[parent].left == elm && !IsRed(c, elm) && IsRed(c, tmp)
    requires root' == if root == parent then tmp else root
    requires Swapped(c, c', parent, tmp)
    ensures ShortAt(m', c', root', parent, elm) && m'[parent].left == elm && !IsRed(c', m'[parent].right)
  {
    RedSiblingFacts(m, c, root, size, parent, elm, tmp);
    assert Local(m, root, size, parent);
    RotLDistinct(m, root, size, parent, tmp, mid, up);
    forall n | n in m'
      ensures n == parent || Even(m', c', n)
      ensures n == elm || NoRedRed(m', c', n, elm)
    {
      if n != parent && n != tmp {
        assert Even(m, c, n);
        SwappedElsewhere(m, m', c, c', root, size, parent, elm, parent, tmp, n);
      }
    }
  }

  // ----- case 3: a black sibling whose near child is red and far child black

  lemma NearRedFacts(m: Links, c: Colors, root: Node?, size: int, parent: Node, elm: Node?, tmp: Node, near: Node)
    requires Linked(m, root, size) && ShortAt(m, c, root, parent, elm)
    requires parent in m && m[parent].left == elm && m[parent].right == tmp && !IsRed(c, elm) && !IsRed(c, tmp)
    requires tmp in m && m[tmp].left == near && IsRed(c, near)
    ensures m[tmp].parent == parent && parent != tmp && elm != tmp && elm != parent && near != elm && near != parent
            && near != tmp
    ensures near in m && m[near].parent == tmp && tmp != root && near != root
    ensures c[near].bh == Bh(c, elm) && c[tmp].bh == Bh(c, elm) + 1
    ensures Bh(c, m[near].left) == c[near].bh && Bh(c, m[near].right) == c[near].bh && Bh(c, m[tmp].right) == c[near].bh
    ensures !IsRed(c, m[near].left) && !IsRed(c, m[near].right)
  {
    BesideFacts(m, c, root, size, parent, elm, tmp);
    Around(m, root, size, tmp);
    Around(m, root, size, near);
    assert NoRedRed(m, c, near, elm) && Even(m, c, tmp) && Even(m, c, near);
  }

  /** Rotating the near child up makes the far child red. */
  lemma NearRed(m: Links, m': Links, c: Colors, c': Colors, root: Node?, size: int, parent: Node, elm: Node?,
                tmp: Node, near: Node, mid: Node?)
    requires Linked(m, root, size) && ShortAt(m, c, root, parent, elm) && tmp in m
    requires RotR(m, m', tmp, near, mid, parent) && m[parent].left == elm && m[parent].right == tmp
    requires !IsRed(c, elm) && !IsRed(c, tmp) && IsRed(c, near) && !IsRed(c, m[tmp].right)
    requires Swapped(c, c', tmp, near)
    ensures ShortAt(m', c', root, parent, elm)
    ensures m'[parent].left == elm && m'[parent].right == near && !IsRed(c', near) && m'[near].right == tmp
            && IsRed(c', tmp)
  {
    NearRedFacts(m, c, root, size, parent, elm, tmp, near);
    Around(m, root, size, near);
    forall n | n in m'
      ensures n == parent || Even(m', c', n)
      ensures n == elm || NoRedRed(m', c', n, elm)
    {
      if n == parent {
        assert NoRedRed(m, c, parent, elm);
      } else if n != near && n != tmp {
        assert Even(m, c, n);
        SwappedElsewhere(m, m', c, c', root, size, parent, elm, tmp, near, n);
      }
    }
  }

  // ----- case 4: a black sibling whose far child is red

  ghost predicate Lifted(c: Colors, c': Colors, parent: Node, tmp: Node, far: Node) {
    && parent in c && tmp in c && far in c && c[parent].bh >= Weight(c[parent].red)
    && c' == c[tmp := Paint(c[parent].red, c[parent].bh)]
              [parent := Paint(false, c[parent].bh - Weight(c[parent].red))][far := Paint(false, c[far].bh + 1)]
  }

  lemma FarRedFacts(m: Links, c: Colors, root: Node?, size: int, parent: Node, elm: Node?, tmp: Node, far: Node)
    requires Linked(m, root, size) && ShortAt(m, c, root, parent, elm)
    requires parent in m && m[parent].left == elm && m[parent].right == tmp && !IsRed(c, elm) && !IsRed(c, tmp)
    requires tmp in m && m[tmp].right == far && IsRed(c, far)
    ensures m[tmp].parent == parent && parent != tmp && elm != tmp && elm != parent && far != elm && far != parent
            && far != tmp
    ensures far in m && m[far].parent == tmp && tmp != root && far != root && m[tmp].left != far
            && (elm == root ==> elm == null)
    ensures c[far].bh == Bh(c, elm) && c[tmp].bh == Bh(c, elm) + 1
            && c[parent].bh == Bh(c, elm) + 1 + Weight(c[parent].red)
    ensures Bh(c, m[far].left) == c[far].bh && Bh(c, m[far].right) == c[far].bh && Bh(c, m[tmp].left) == c[far].bh
    ensures m[tmp].left != null ==> m[tmp].left in m && m[tmp].left != parent && m[tmp].left != tmp
    ensures m[far].left != far && m[far].right != far && m[far].left != tmp && m[far].right != tmp
            && m[far].left != parent && m[far].right != parent
  {
    BesideFacts(m, c, root, size, parent, elm, tmp);
    Around(m, root, size, tmp);
    Around(m, root, size, far);
    Around(m, root, size, parent);
    assert Even(m, c, tmp) && Even(m, c, far);
  }

  lemma LiftedElsewhere(m: Links, m': Links, c: Colors, c': Colors, root: Node?, size: int, parent: Node, elm: Node?,
                        tmp: Node, far: Node, mid: Node?, up: Node?, n: Node)
    requires Linked(m, root, size) && ShortAt(m, c, root, parent, elm)
    requires RotL(m, m', parent, tmp, mid, up) && m[parent].left == elm && m[tmp].right == far
    requires !IsRed(c, elm) && !IsRed(c, tmp) && IsRed(c, far) && Lifted(c, c', parent, tmp, far)
    requires n in m && n != parent && n != tmp && n != far
    ensures Even(m', c', n) && NoRedRed(m', c', n, null)
  {
    FarRedFacts(m, c, root, size, parent, elm, tmp, far);
    assert Even(m, c, n);
    if n != elm { assert NoRedRed(m, c, n, elm); }
    assert Local(m, root, size, parent);
    if m[n].left != null {
      OnlyParent(m, root, size, n, m[n].left);
    }
    if m[n].right != null {
      OnlyParent(m, root, size, n, m[n].right);
    }
    RotLDistinct(m, root, size, parent, tmp, mid, up);
    if n == up {
      assert m[n].left == parent || m[n].right == parent;
    } else {
      assert m'[n].left == m[n].left && m'[n].right == m[n].right;
    }
    Kept(m, m', c, c', n, elm, null);
  }

  /** Rotating the sibling up with the parent's colour gives the short side its black node back. */
  lemma FarRed(m: Links, m': Links, c: Colors, c': Colors, root: Node?, root': Node?, size: int, parent: Node,
               elm: Node?, tmp: Node, far: Node, mid: Node?, up: Node?)
    requires Linked(m, root, size) && ShortAt(m, c, root, parent, elm)
    requires RotL(m, m', parent, tmp, mid, up) && m[parent].left == elm && m[tmp].right == far
    requires root' == if root == parent then tmp else root
    requires !IsRed(c, elm) && !IsRed(c, tmp) && IsRed(c, far) && Lifted(c, c', parent, tmp, far)
    ensures Balanced(m', c', root')
  {
    FarRedFacts(m, c, root, size, parent, elm, tmp, far);
    assert Local(m, root, size, parent);
    RotLDistinct(m, root, size, parent, tmp, mid, up);
    forall n | n in m'
      ensures Even(m', c', n) && NoRedRed(m', c', n, null)
    {
      if n != parent && n != tmp && n != far {
        LiftedElsewhere(m, m', c, c', root, size, parent, elm, tmp, far, mid, up, n);
      }
    }
  }

  /** Painting the short place black, or reaching the root, makes up the shortage. */
  lemma Settled(m: Links, c: Colors, c': Colors, root: Node?, size: int, parent: Node?, elm: Node)
    requires Linked(m, root, size) && ShortAt(m, c, root, parent, elm) && (IsRed(c, elm) || elm == root)
    requires elm in c && c' == c[elm := Paint(false, c[elm].bh + 1 - Weight(c[elm].red))]
    ensures Balanced(m, c', root)
  {
    forall n | n in m
      ensures Even(m, c', n) && NoRedRed(m, c', n, null)
    {
      SettledAt(m, c, c', root, size, parent, elm, n);
    }
  }

  lemma SettledAt(m: Links, c: Colors, c': Colors, root: Node?, size: int, parent: Node?, elm: Node, n: Node)
    requires Linked(m, root, size) && ShortAt(m, c, root, parent, elm) && (IsRed(c, elm) || elm == root)
    requires elm in c && c' == c[elm := Paint(false, c[elm].bh + 1 - Weight(c[elm].red))]
    requires n in m
    ensures Even(m, c', n) && NoRedRed(m, c', n, null)
  {
    Around(m, root, size, n);
    Around(m, root, size, elm);
    if n != parent { assert Even(m, c, n); }
    if n != elm { assert NoRedRed(m, c, n, elm); }
  }
}
