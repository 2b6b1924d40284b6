/** What linking in, splicing out and replacing a node do to the links of a tree. */
module RbEdits {
  import opened RbLinks

  /** order lists the nodes of m by their in-order position. */
  ghost predicate Indexed(m: Links, order: seq<Node>)
  {
    && (forall n {:trigger m[n]} | n in m :: 0 <= m[n].pos < |order| && order[m[n].pos] == n)
    && (forall i | 0 <= i < |order| :: order[i] in m && m[order[i]].pos == i)
  }

  ghost function InsertAt(order: seq<Node>, k: nat, n: Node): seq<Node>
    requires k <= |order|
  {
    order[..k] + [n] + order[k..]
  }

  ghost function RemoveAt(order: seq<Node>, k: nat): seq<Node>
    requires k < |order|
  {
    order[..k] + order[k + 1..]
  }

  // ----- linking in a new leaf

  /** The empty place under p, on its left or right, that comes at position k in order. */
  ghost predicate IsSlot(m: Links, p: Node?, left: bool, k: int)
  {
    if p == null then m == map[] && k == 0
    else p in m && (if left then m[p].left == null && m[p].pos == k else m[p].right == null && m[p].hi == k)
  }

  /** Positions after a node is put in at k; a stretch starting or ending at k grows on the side the slot is on. */
  ghost function Bump(c: Link, k: int, left: bool): Link {
    c.(lo := if c.lo > k || (!left && c.lo == k) then c.lo + 1 else c.lo,
       pos := if c.pos >= k then c.pos + 1 else c.pos,
       hi := if c.hi > k || (!left && c.hi == k) then c.hi + 1 else c.hi)
  }

  ghost predicate Grown(m: Links, m': Links, elm: Node, p: Node?, left: bool, k: int)
  {
    && elm !in m && m'.Keys == m.Keys + {elm} && IsSlot(m, p, left, k)
    && m'[elm] == Link(null, null, p, k, k, k + 1)
    && (p != null ==> m'[p] == (if left then Bump(m[p], k, left).(left := elm) else Bump(m[p], k, left).(right := elm)))
    && (forall n {:trigger m'[n]} | n in m && n != p :: m'[n] == Bump(m[n], k, left))
  }

  lemma GrownOther(m: Links, m': Links, root: Node, size: nat, elm: Node, p: Node, left: bool, k: int, n: Node)
    requires Linked(m, root, size) && Grown(m, m', elm, p, left, k)
    requires n in m && n != p && m[n].pos != m[p].pos
    ensures Local(m', root, size + 1, n)
  {
    assert Local(m, root, size, p);
    assert Local(m, root, size, n);
  }

  lemma GrownSlot(m: Links, m': Links, root: Node, size: nat, elm: Node, p: Node, left: bool, k: int)
    requires Linked(m, root, size) && Grown(m, m', elm, p, left, k)
    ensures 0 <= k <= size
    ensures Local(m', root, size + 1, p) && Local(m', root, size + 1, elm)
  {
    Around(m, root, size, p);
  }

  lemma GrownLinked(m: Links, m': Links, root: Node?, order: seq<Node>, elm: Node, p: Node?, left: bool, k: nat)
    requires Linked(m, root, |order|) && Indexed(m, order) && Grown(m, m', elm, p, left, k)
    ensures k <= |order|
    ensures Linked(m', if root == null then elm else root, |order| + 1)
  {
    var root' := if root == null then elm else root;
    if p != null {
      GrownSlot(m, m', root, |order|, elm, p, left, k);
      forall n | n in m'
        ensures Local(m', root', |order| + 1, n)
      {
        if n in m && n != p {
          assert order[m[n].pos] == n && order[m[p].pos] == p;
          GrownOther(m, m', root, |order|, elm, p, left, k, n);
        }
      }
    }
  }

  lemma GrownPositions(m: Links, m': Links, order: seq<Node>, elm: Node, p: Node?, left: bool, k: nat, n: Node)
    requires Indexed(m, order) && Grown(m, m', elm, p, left, k) && k <= |order| && n in m
    ensures 0 <= m'[n].pos < |order| + 1 && InsertAt(order, k, elm)[m'[n].pos] == n
    ensures m'[n].pos == if m[n].pos >= k then m[n].pos + 1 else m[n].pos
  {
    assert order[m[n].pos] == n;
  }

  lemma GrownIndexed(m: Links, m': Links, order: seq<Node>, elm: Node, p: Node?, left: bool, k: nat)
    requires Indexed(m, order) && Grown(m, m', elm, p, left, k) && k <= |order|
    ensures Indexed(m', InsertAt(order, k, elm))
  {
    var order' := InsertAt(order, k, elm);
    forall n | n in m'
      ensures 0 <= m'[n].pos < |order'| && order'[m'[n].pos] == n
    {
      if n != elm {
        GrownPositions(m, m', order, elm, p, left, k, n);
      }
    }
    forall i | 0 <= i < |order'|
      ensures order'[i] in m' && m'[order'[i]].pos == i
    {
      if i != k {
        var n := order[if i < k then i else i - 1];
        assert order'[i] == n;
        GrownPositions(m, m', order, elm, p, left, k, n);
      }
    }
  }

  // ----- splicing out a node with at most one child

  /** Positions after the node at j is taken out. */
  ghost function Drop(c: Link, j: int): Link {
    c.(lo := if c.lo > j then c.lo - 1 else c.lo,
       pos := if c.pos > j then c.pos - 1 else c.pos,
       hi := if c.hi > j then c.hi - 1 else c.hi)
  }

  /** A parent's links once its child from is replaced by to. */
  ghost function Reattach(c: Link, from: Node, to: Node?): Link {
    if c.left == from then c.(left := to) else c.(right := to)
  }

  ghost predicate Spliced(m: Links, m': Links, y: Node, child: Node?, up: Node?)
  {
    && y in m && m'.Keys == m.Keys - {y} && up == m[y].parent
    && ((m[y].left == null && child == m[y].right) || (m[y].right == null && child == m[y].left))
    && (child != null ==> child in m' && m'[child] == Drop(m[child], m[y].pos).(parent := up))
    && (up != null ==> up in m' && m'[up] == Reattach(Drop(m[up], m[y].pos), y, child))
    && (forall n {:trigger m'[n]} | n in m && n != y && n != child && n != up :: m'[n] == Drop(m[n], m[y].pos))
  }

  /** The fields a splice leaves as they were, up to positions. */
  lemma SplicedFields(m: Links, m': Links, y: Node, child: Node?, up: Node?, n: Node)
    requires Spliced(m, m', y, child, up) && n in m && n != y && up != y && (child != null ==> child != up)
    ensures var c := Drop(m[n], m[y].pos); m'[n].lo == c.lo && m'[n].pos == c.pos && m'[n].hi == c.hi
    ensures n != child ==> m'[n].parent == m[n].parent
    ensures n != up ==> m'[n].left == m[n].left && m'[n].right == m[n].right
  {
  }

  lemma SplicedBelow(m: Links, m': Links, root: Node?, size: nat, y: Node, child: Node?, up: Node?, n: Node)
    requires Linked(m, root, size) && Spliced(m, m', y, child, up) && up != y && (child != null ==> child != up)
    requires child != null ==> m[child].parent == y
    requires n in m && n != y && n != up && m[n].pos != m[y].pos
    ensures Below(m', size - 1, n)
  {
    assert Local(m, root, size, n) && Local(m, root, size, y);
    SplicedFields(m, m', y, child, up, n);
    if m[n].left != null {
      SplicedFields(m, m', y, child, up, m[n].left);
    }
    if m[n].right != null {
      SplicedFields(m, m', y, child, up, m[n].right);
    }
  }

  lemma SplicedAbove(m: Links, m': Links, root: Node?, root': Node?, size: nat, y: Node, child: Node?, up: Node?,
                     n: Node)
    requires Linked(m, root, size) && Spliced(m, m', y, child, up)
    requires root' == if root == y then child else root
    requires n in m && n != y && n != child
    ensures Above(m', root', n)
  {
    assert Local(m, root, size, n);
    Around(m, root, size, y);
  }

  lemma SplicedChild(m: Links, m': Links, root: Node?, root': Node?, size: nat, y: Node, child: Node, up: Node?)
    requires Linked(m, root, size) && Spliced(m, m', y, child, up)
    requires root' == if root == y then child else root
    ensures Above(m', root', child)
  {
    Around(m, root, size, y);
  }

  lemma SplicedUp(m: Links, m': Links, root: Node?, size: nat, y: Node, child: Node?, up: Node)
    requires Linked(m, root, size) && Spliced(m, m', y, child, up)
    requires m[up].pos != m[y].pos
    ensures Below(m', size - 1, up)
  {
    Around(m, root, size, up);
    Around(m, root, size, y);
  }

  lemma SplicedLinked(m: Links, m': Links, root: Node?, root': Node?, order: seq<Node>, y: Node, child: Node?,
                      up: Node?)
    requires Linked(m, root, |order|) && Indexed(m, order) && Spliced(m, m', y, child, up)
    requires root' == if root == y then child else root
    ensures Linked(m', root', |order| - 1)
  {
    Around(m, root, |order|, y);
    Around(m, root, |order|, root);
    forall n | n in m'
      ensures Local(m', root', |order| - 1, n)
    {
      assert order[m[n].pos] == n && order[m[y].pos] == y;
      if n == child {
        SplicedChild(m, m', root, root', |order|, y, n, up);
      } else {
        SplicedAbove(m, m', root, root', |order|, y, child, up, n);
      }
      if n == up {
        SplicedUp(m, m', root, |order|, y, child, n);
      } else {
        SplicedBelow(m, m', root, |order|, y, child, up, n);
      }
    }
    if root' == null {
      SplicedLast(m, m', order, y, child, up);
    }
  }

  lemma SplicedLast(m: Links, m': Links, order: seq<Node>, y: Node, child: Node?, up: Node?)
    requires Indexed(m, order) && Spliced(m, m', y, child, up) && |order| == 1
    ensures m' == map[]
  {
    assert forall n | n in m :: 0 <= m[n].pos < 1 && order[m[n].pos] == n;
  }

  lemma SplicedPositions(m: Links, m': Links, order: seq<Node>, y: Node, child: Node?, up: Node?, n: Node)
    requires Indexed(m, order) && Spliced(m, m', y, child, up) && n in m && n != y
    ensures 0 <= m'[n].pos < |order| - 1 && RemoveAt(order, m[y].pos)[m'[n].pos] == n
    ensures m'[n].pos == if m[n].pos > m[y].pos then m[n].pos - 1 else m[n].pos
  {
    assert order[m[n].pos] == n && order[m[y].pos] == y;
  }

  lemma SplicedIndexed(m: Links, m': Links, order: seq<Node>, y: Node, child: Node?, up: Node?)
    requires Indexed(m, order) && Spliced(m, m', y, child, up)
    ensures Indexed(m', RemoveAt(order, m[y].pos))
  {
    var j := m[y].pos;
    var order' := RemoveAt(order, j);
    forall n | n in m'
      ensures 0 <= m'[n].pos < |order'| && order'[m'[n].pos] == n
    {
      SplicedPositions(m, m', order, y, child, up, n);
    }
    forall i | 0 <= i < |order'|
      ensures order'[i] in m' && m'[order'[i]].pos == i
    {
      var n := order[if i < j then i else i + 1];
      assert order'[i] == n;
      SplicedPositions(m, m', order, y, child, up, n);
    }
  }

  // ----- putting a node in another's place

  ghost predicate Replaced(m: Links, m': Links, was: Node, y: Node)
  {
    && was in m && y !in m && m'.Keys == m.Keys - {was} + {y}
    && m'[y] == m[was]
    && (m[was].left != null ==>
        m[was].left in m' && m[was].left in m && m'[m[was].left] == m[m[was].left].(parent := y))
    && (m[was].right != null ==>
        m[was].right in m' && m[was].right in m && m'[m[was].right] == m[m[was].right].(parent := y))
    && (m[was].parent != null ==>
        m[was].parent in m' && m[was].parent in m && m'[m[was].parent] == Reattach(m[m[was].parent], was, y))
    && (forall n {:trigger m'[n]} | n in m && n != was && n != m[was].left && n != m[was].right
        && n != m[was].parent :: m'[n] == m[n])
  }

  /** The fields a replacement leaves as they were. */
  lemma ReplacedFields(m: Links, m': Links, was: Node, y: Node, n: Node)
    requires Replaced(m, m', was, y) && n in m && n != was
    requires m[was].parent == null || (m[was].parent != m[was].left && m[was].parent != m[was].right)
    ensures m'[n].lo == m[n].lo && m'[n].pos == m[n].pos && m'[n].hi == m[n].hi
    ensures n != m[was].left && n != m[was].right ==> m'[n].parent == m[n].parent
    ensures n != m[was].parent ==> m'[n].left == m[n].left && m'[n].right == m[n].right
  {
  }

  lemma ReplacedBelow(m: Links, m': Links, root: Node?, size: int, was: Node, y: Node, n: Node)
    requires Linked(m, root, size) && Replaced(m, m', was, y)
    requires n in m && n != was && n != m[was].parent
    ensures Below(m', size, n)
  {
    assert Local(m, root, size, n);
    Around(m, root, size, was);
    ReplacedFields(m, m', was, y, n);
    if m[n].left != null {
      ReplacedFields(m, m', was, y, m[n].left);
    }
    if m[n].right != null {
      ReplacedFields(m, m', was, y, m[n].right);
    }
  }

  lemma ReplacedUp(m: Links, m': Links, root: Node?, size: int, was: Node, y: Node, up: Node)
    requires Linked(m, root, size) && Replaced(m, m', was, y)
    requires was in m && up == m[was].parent
    ensures Below(m', size, up)
  {
    Around(m, root, size, was);
    Around(m, root, size, up);
  }

  lemma ReplacedAbove(m: Links, m': Links, root: Node?, root': Node?, size: int, was: Node, y: Node, n: Node)
    requires Linked(m, root, size) && Replaced(m, m', was, y)
    requires root' == if root == was then y else root
    requires n in m && n != was
    ensures Above(m', root', n)
  {
    assert Local(m, root, size, n);
    Around(m, root, size, was);
  }

  lemma ReplacedSelf(m: Links, m': Links, root: Node?, root': Node?, size: int, was: Node, y: Node)
    requires Linked(m, root, size) && Replaced(m, m', was, y)
    requires root' == if root == was then y else root
    ensures Local(m', root', size, y)
  {
    Around(m, root, size, was);
  }

  lemma ReplacedLinked(m: Links, m': Links, root: Node?, root': Node?, size: int, was: Node, y: Node)
    requires Linked(m, root, size) && Replaced(m, m', was, y)
    requires root' == if root == was then y else root
    ensures Linked(m', root', size)
  {
    Around(m, root, size, was);
    forall n | n in m'
      ensures Local(m', root', size, n)
    {
      if n == y {
        ReplacedSelf(m, m', root, root', size, was, y);
      } else {
        if n == m[was].parent {
          ReplacedUp(m, m', root, size, was, y, n);
        } else {
          ReplacedBelow(m, m', root, size, was, y, n);
        }
        ReplacedAbove(m, m', root, root', size, was, y, n);
      }
    }
    Around(m, root, size, root);
  }

  lemma ReplacedIndexed(m: Links, m': Links, order: seq<Node>, was: Node, y: Node)
    requires Indexed(m, order) && Replaced(m, m', was, y)
    ensures 0 <= m[was].pos < |order| && Indexed(m', order[m[was].pos := y])
  {
    var order' := order[m[was].pos := y];
    forall n | n in m'
      ensures 0 <= m'[n].pos < |order'| && order'[m'[n].pos] == n
    {
      if n != y {
        assert order[m[n].pos] == n && order[m[was].pos] == was;
      }
    }
    forall i | 0 <= i < |order'|
      ensures order'[i] in m' && m'[order'[i]].pos == i
    {
      if i != m[was].pos {
        assert order'[i] == order[i];
      }
    }
  }
}
