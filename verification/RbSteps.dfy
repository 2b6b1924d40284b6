/** The whole steps of the red-black operations, as facts about links and colours. */
module RbSteps {
  import opened CString
  import opened RbLinks
  import opened RbEdits
  import opened RbColors
  import opened RbDeficit
  import opened RbMirror

  ghost predicate Sorted(order: seq<Node>) {
    forall i, j {:trigger StrCmp(order[i].path, order[j].path)} | 0 <= i < j < |order|
      :: StrCmp(order[i].path, order[j].path) < 0
  }

  /** Every key before lo is smaller than path and every key from hi on is larger. */
  ghost predicate Apart(order: seq<Node>, lo: int, hi: int, path: Str) {
    && (forall i | 0 <= i < lo && i < |order| :: StrCmp(order[i].path, path) < 0)
    && (forall i | 0 <= i < |order| && hi <= i :: StrCmp(path, order[i].path) < 0)
  }

  /** The keys before k are smaller than path, the others larger. */
  ghost predicate Splits(order: seq<Node>, k: nat, path: Str) {
    k <= |order| && Apart(order, k, k, path)
  }

  /** k is the first place whose key is not below path. */
  ghost predicate Ceiling(order: seq<Node>, k: nat, path: Str) {
    && k <= |order|
    && (forall i | 0 <= i < k :: StrCmp(order[i].path, path) < 0)
    && (forall i | k <= i < |order| :: StrCmp(path, order[i].path) <= 0)
  }

  lemma CeilingAt(order: seq<Node>, k: nat, path: Str)
    requires Sorted(order) && k < |order| && order[k].path == path
    ensures Ceiling(order, k, path)
  {
  }

  lemma CeilingBetween(order: seq<Node>, k: nat, path: Str)
    requires k <= |order| && Apart(order, k, k, path)
    ensures Ceiling(order, k, path)
  {
  }

  lemma {:induction false} Narrow(order: seq<Node>, lo: int, hi: int, pos: int, path: Str)
    requires Sorted(order) && Apart(order, lo, hi, path) && 0 <= pos < |order|
    ensures StrCmp(path, order[pos].path) < 0 ==> Apart(order, lo, pos, path)
    ensures StrCmp(path, order[pos].path) > 0 ==> Apart(order, pos + 1, hi, path)
  {
    StrCmpFlips(path, order[pos].path);
    forall i | 0 <= i < |order| && StrCmp(path, order[pos].path) < 0 && pos < i
      ensures StrCmp(path, order[i].path) < 0
    {
      StrCmpTransitive(path, order[pos].path, order[i].path);
    }
    forall i | 0 <= i < pos && StrCmp(path, order[pos].path) > 0
      ensures StrCmp(order[i].path, path) < 0
    {
      StrCmpTransitive(order[i].path, order[pos].path, path);
    }
  }

  lemma InsertSorted(order: seq<Node>, k: nat, elm: Node)
    requires Sorted(order) && Splits(order, k, elm.path)
    ensures Sorted(InsertAt(order, k, elm))
  {
    var order' := InsertAt(order, k, elm);
    forall i, j | 0 <= i < j < |order'|
      ensures StrCmp(order'[i].path, order'[j].path) < 0
    {
      if i != k { assert order'[i] == order[if i < k then i else i - 1]; }
      if j != k { assert order'[j] == order[if j < k then j else j - 1]; }
    }
  }

  /** The links after hanging the leaf elm in the empty place at k. */
  lemma Growth(m: Links, c: Colors, root: Node?, order: seq<Node>, elm: Node, p: Node?, left: bool, k: nat)
    returns (m': Links)
    requires Linked(m, root, |order|) && Indexed(m, order) && Balanced(m, c, root)
    requires elm !in m && IsSlot(m, p, left, k) && k <= |order|
    ensures Grown(m, m', elm, p, left, k)
    ensures Linked(m', if root == null then elm else root, |order| + 1) && Indexed(m', InsertAt(order, k, elm))
    ensures (root == null <==> p == null)
            && RedAt(m', c[elm := Paint(true, 0)], if root == null then elm else root, elm)
  {
    var m1 := map n | n in m :: Bump(m[n], k, left);
    if p != null {
      m1 := m1[p := if left then Bump(m[p], k, left).(left := elm) else Bump(m[p], k, left).(right := elm)];
    }
    m' := m1[elm := Link(null, null, p, k, k, k + 1)];
    assert m'.Keys == m.Keys + {elm};
    GrownLinked(m, m', root, order, elm, p, left, k);
    GrownIndexed(m, m', order, elm, p, left, k);
    GrownRed(m, m', c, root, |order|, elm, p, left, k);
  }

  lemma GrownRed(m: Links, m': Links, c: Colors, root: Node?, size: nat, elm: Node, p: Node?, left: bool, k: nat)
    requires Linked(m, root, size) && Balanced(m, c, root) && Grown(m, m', elm, p, left, k)
    ensures RedAt(m', c[elm := Paint(true, 0)], if root == null then elm else root, elm)
  {
    var c' := c[elm := Paint(true, 0)];
    forall n | n in m'
      ensures Even(m', c', n) && NoRedRed(m', c', n, elm)
    {
      if n in m {
        assert Even(m, c, n) && NoRedRed(m, c, n, null) && Local(m, root, size, n);
      }
    }
  }

  /** c' differs from c in n's colour and in black heights only. */
  ghost predicate Recolored(c: Colors, c': Colors, n: Node, red: bool) {
    && n in c && c'.Keys == c.Keys && c'[n].red == red
    && forall x {:trigger c'[x]} | x in c && x != n :: c'[x].red == c[x].red
  }

  ghost predicate BlackRed(c: Colors, c': Colors, black: Node, red: Node) {
    && black in c && red in c && c'.Keys == c.Keys && !c'[black].red && c'[red].red
    && forall x {:trigger c'[x]} | x in c && x != black && x != red :: c'[x].red == c[x].red
  }

  ghost predicate Passed(c: Colors, c': Colors, parent: Node, tmp: Node, far: Node) {
    && parent in c && tmp in c && far in c && c'.Keys == c.Keys
    && c'[tmp].red == c[parent].red && !c'[parent].red && !c'[far].red
    && forall x {:trigger c'[x]} | x in c && x != parent && x != tmp && x != far :: c'[x].red == c[x].red
  }

  lemma OuterStepLeft(m: Links, c: Colors, root: Node?, size: int, elm: Node, p: Node, g: Node) returns (c': Colors)
    requires Linked(m, root, size) && RedAt(m, c, root, elm) && IsRed(c, p) && m[elm].parent == p && p in m
             && m[p].left == elm
    requires g in m && m[g].left == p && !IsRed(c, m[g].right)
    ensures p != g && BlackRed(c, c', p, g)
    ensures forall m': Links {:trigger RotatedRight(m, m', g)} | RotatedRight(m, m', g) ::
              RedAt(m', c', if root == g then p else root, elm) && !IsRed(c', m'[elm].parent)
  {
    assert Even(m, c, g) && Local(m, root, size, g) && m[p].parent == g;
    Grandparent(m, c, root, size, elm);
    c' := c[p := Paint(false, c[p].bh + 1)][g := Paint(true, c[g].bh - 1)];
    forall m': Links | RotatedRight(m, m', g)
      ensures RedAt(m', c', if root == g then p else root, elm) && !IsRed(c', m'[elm].parent)
    {
      OuterRotated(m, m', c, c', root, if root == g then p else root, size, elm, p, g, m[p].right, m[g].parent);
    }
  }

  lemma RedSiblingStepLeft(m: Links, c: Colors, root: Node?, size: int, parent: Node, tmp: Node, elm: Node?)
    returns (c': Colors)
    requires Linked(m, root, size) && ShortAt(m, c, root, parent, elm) && !IsRed(c, elm)
    requires parent in m && m[parent].left == elm && m[parent].right == tmp && IsRed(c, tmp)
    ensures tmp != parent && BlackRed(c, c', tmp, parent) && !IsRed(c', elm)
    ensures forall m': Links {:trigger RotatedLeft(m, m', parent)} | RotatedLeft(m, m', parent) ::
              && ShortAt(m', c', if root == parent then tmp else root, parent, elm)
              && m'[parent].left == elm && !IsRed(c', m'[parent].right)
  {
    BesideFacts(m, c, root, size, parent, elm, tmp);
    c' := c[tmp := Paint(false, c[tmp].bh + 1)][parent := Paint(true, c[parent].bh - 1)];
    forall m': Links | RotatedLeft(m, m', parent)
      ensures ShortAt(m', c', if root == parent then tmp else root, parent, elm)
      ensures m'[parent].left == elm && !IsRed(c', m'[parent].right)
    {
      RedSibling(m, m', c, c', root, if root == parent then tmp else root,
                 size, parent, elm, tmp, m[tmp].left, m[parent].parent);
    }
  }

  lemma NearStepLeft(m: Links, c: Colors, root: Node?, size: int, parent: Node, tmp: Node, elm: Node?)
    returns (c': Colors)
    requires Linked(m, root, size) && ShortAt(m, c, root, parent, elm) && !IsRed(c, elm) && !IsRed(c, tmp)
    requires parent in m && m[parent].left == elm && m[parent].right == tmp
    requires tmp in m && IsRed(c, m[tmp].left) && !IsRed(c, m[tmp].right)
    ensures var near := m[tmp].left; near != tmp && tmp != root && BlackRed(c, c', near, tmp) && !IsRed(c', elm)
    ensures forall m': Links {:trigger RotatedRight(m, m', tmp)} | RotatedRight(m, m', tmp) ::
              && ShortAt(m', c', root, parent, elm) && m'[parent].left == elm && !IsRed(c', m'[parent].right)
              && m'[parent].right in m' && IsRed(c', m'[m'[parent].right].right)
  {
    var near: Node := m[tmp].left;
    NearRedFacts(m, c, root, size, parent, elm, tmp, near);
    c' := c[near := Paint(false, c[near].bh + 1)][tmp := Paint(true, c[tmp].bh - 1)];
    forall m': Links | RotatedRight(m, m', tmp)
      ensures ShortAt(m', c', root, parent, elm) && m'[parent].left == elm && !IsRed(c', m'[parent].right)
      ensures m'[parent].right in m' && IsRed(c', m'[m'[parent].right].right)
    {
      NearRed(m, m', c, c', root, size, parent, elm, tmp, near, m[near].right);
    }
  }

  lemma FarStepLeft(m: Links, c: Colors, root: Node?, size: int, parent: Node, tmp: Node, elm: Node?)
    returns (c': Colors)
    requires Linked(m, root, size) && ShortAt(m, c, root, parent, elm) && !IsRed(c, elm) && !IsRed(c, tmp)
    requires parent in m && m[parent].left == elm && m[parent].right == tmp && tmp in m && IsRed(c, m[tmp].right)
    ensures var far := m[tmp].right; parent != tmp && tmp != far && parent != far && Passed(c, c', parent, tmp, far)
    ensures forall m': Links {:trigger RotatedLeft(m, m', parent)} | RotatedLeft(m, m', parent) ::
              Balanced(m', c', if root == parent then tmp else root)
  {
    var far: Node := m[tmp].right;
    FarRedFacts(m, c, root, size, parent, elm, tmp, far);
    c' := c[tmp := Paint(c[parent].red, c[parent].bh)]
           [parent := Paint(false, c[parent].bh - Weight(c[parent].red))][far := Paint(false, c[far].bh + 1)];
    forall m': Links | RotatedLeft(m, m', parent)
      ensures Balanced(m', c', if root == parent then tmp else root)
    {
      FarRed(m, m', c, c', root, if root == parent then tmp else root,
             size, parent, elm, tmp, far, m[tmp].left, m[parent].parent);
    }
  }

  lemma OuterStepRight(m: Links, c: Colors, root: Node?, size: int, elm: Node, p: Node, g: Node) returns (c': Colors)
    requires Linked(m, root, size) && RedAt(m, c, root, elm) && IsRed(c, p) && m[elm].parent == p && p in m
             && m[p].right == elm
    requires g in m && m[g].right == p && !IsRed(c, m[g].left)
    ensures p != g && BlackRed(c, c', p, g)
    ensures forall m': Links {:trigger RotatedLeft(m, m', g)} | RotatedLeft(m, m', g) ::
              RedAt(m', c', if root == g then p else root, elm) && !IsRed(c', m'[elm].parent)
  {
    assert Even(m, c, g) && Local(m, root, size, g) && m[p].parent == g;
    Grandparent(m, c, root, size, elm);
    c' := c[p := Paint(false, c[p].bh + 1)][g := Paint(true, c[g].bh - 1)];
    forall m': Links | RotatedLeft(m, m', g)
      ensures RedAt(m', c', if root == g then p else root, elm) && !IsRed(c', m'[elm].parent)
    {
      OuterRotatedR(m, m', c, c', root, if root == g then p else root, size, elm, p, g, m[p].left, m[g].parent);
    }
  }

  lemma RedSiblingStepRight(m: Links, c: Colors, root: Node?, size: int, parent: Node, tmp: Node, elm: Node?)
    returns (c': Colors)
    requires Linked(m, root, size) && ShortAt(m, c, root, parent, elm) && !IsRed(c, elm)
    requires parent in m && m[parent].right == elm && m[parent].left == tmp && IsRed(c, tmp)
    ensures tmp != parent && BlackRed(c, c', tmp, parent) && !IsRed(c', elm)
    ensures forall m': Links {:trigger RotatedRight(m, m', parent)} | RotatedRight(m, m', parent) ::
              && ShortAt(m', c', if root == parent then tmp else root, parent, elm)
              && m'[parent].right == elm && !IsRed(c', m'[parent].left)
  {
    BesideFacts(m, c, root, size, parent, elm, tmp);
    c' := c[tmp := Paint(false, c[tmp].bh + 1)][parent := Paint(true, c[parent].bh - 1)];
    forall m': Links | RotatedRight(m, m', parent)
      ensures ShortAt(m', c', if root == parent then tmp else root, parent, elm)
      ensures m'[parent].right == elm && !IsRed(c', m'[parent].left)
    {
      RedSiblingR(m, m', c, c', root, if root == parent then tmp else root,
                  size, parent, elm, tmp, m[tmp].right, m[parent].parent);
    }
  }

  lemma NearStepRight(m: Links, c: Colors, root: Node?, size: int, parent: Node, tmp: Node, elm: Node?)
    returns (c': Colors)
    requires Linked(m, root, size) && ShortAt(m, c, root, parent, elm) && !IsRed(c, elm) && !IsRed(c, tmp)
    requires parent in m && m[parent].right == elm && m[parent].left == tmp
    requires tmp in m && IsRed(c, m[tmp].right) && !IsRed(c, m[tmp].left)
    ensures var near := m[tmp].right; near != tmp && tmp != root && BlackRed(c, c', near, tmp) && !IsRed(c', elm)
    ensures forall m': Links {:trigger RotatedLeft(m, m', tmp)} | RotatedLeft(m, m', tmp) ::
              && ShortAt(m', c', root, parent, elm) && m'[parent].right == elm && !IsRed(c', m'[parent].left)
              && m'[parent].left in m' && IsRed(c', m'[m'[parent].left].left)
  {
    var near: Node := m[tmp].right;
    NearRedFactsR(m, c, root, size, parent, elm, tmp, near);
    c' := c[near := Paint(false, c[near].bh + 1)][tmp := Paint(true, c[tmp].bh - 1)];
    forall m': Links | RotatedLeft(m, m', tmp)
      ensures ShortAt(m', c', root, parent, elm) && m'[parent].right == elm && !IsRed(c', m'[parent].left)
      ensures m'[parent].left in m' && IsRed(c', m'[m'[parent].left].left)
    {
      NearRedR(m, m', c, c', root, size, parent, elm, tmp, near, m[near].left);
    }
  }

  lemma FarStepRight(m: Links, c: Colors, root: Node?, size: int, parent: Node, tmp: Node, elm: Node?)
    returns (c': Colors)
    requires Linked(m, root, size) && ShortAt(m, c, root, parent, elm) && !IsRed(c, elm) && !IsRed(c, tmp)
    requires parent in m && m[parent].right == elm && m[parent].left == tmp && tmp in m && IsRed(c, m[tmp].left)
    ensures var far := m[tmp].left; parent != tmp && tmp != far && parent != far && Passed(c, c', parent, tmp, far)
    ensures forall m': Links {:trigger RotatedRight(m, m', parent)} | RotatedRight(m, m', parent) ::
              Balanced(m', c', if root == parent then tmp else root)
  {
    var far: Node := m[tmp].left;
    FarRedFactsR(m, c, root, size, parent, elm, tmp, far);
    c' := c[tmp := Paint(c[parent].red, c[parent].bh)]
           [parent := Paint(false, c[parent].bh - Weight(c[parent].red))][far := Paint(false, c[far].bh + 1)];
    forall m': Links | RotatedRight(m, m', parent)
      ensures Balanced(m', c', if root == parent then tmp else root)
    {
      FarRedR(m, m', c, c', root, if root == parent then tmp else root,
              size, parent, elm, tmp, far, m[tmp].right, m[parent].parent);
    }
  }

  lemma RepaintStep(m: Links, c: Colors, root: Node?, size: int, elm: Node, p: Node, g: Node, u: Node)
    returns (c1: Colors, c': Colors)
    requires Linked(m, root, size) && RedAt(m, c, root, elm) && m[elm].parent == p && IsRed(c, p)
    requires Siblings(m, g, p, u) && IsRed(c, u)
    ensures p in m && u in m && p != g && Recolored(c, c1, u, false) && BlackRed(c1, c', p, g) && RedAt(m, c', root, g)
  {
    Family(m, root, size, p, g, u);
    c1 := c[u := Paint(false, c[u].bh + 1)];
    c' := c1[p := Paint(false, c[p].bh + 1)][g := Paint(true, c[g].bh)];
    Repainted(m, c, c', root, size, elm, p, g, u);
  }

  lemma SiblingLeft(m: Links, c: Colors, root: Node?, size: int, parent: Node, elm: Node?)
    requires Linked(m, root, size) && ShortAt(m, c, root, parent, elm) && parent in m && m[parent].left == elm
    ensures m[parent].right != null && m[parent].right in m && Beside(m, parent, elm, m[parent].right)
  {
    Around(m, root, size, parent);
  }

  lemma SiblingRight(m: Links, c: Colors, root: Node?, size: int, parent: Node, elm: Node?)
    requires Linked(m, root, size) && ShortAt(m, c, root, parent, elm) && parent in m && m[parent].right == elm
    requires elm == null ==> m[parent].left != null
    ensures m[parent].left != null && m[parent].left in m && Beside(m, parent, elm, m[parent].left)
  {
    Around(m, root, size, parent);
  }

  lemma Reddening(m: Links, c: Colors, root: Node?, size: int, parent: Node, elm: Node?, tmp: Node) returns (c': Colors)
    requires Linked(m, root, size) && ShortAt(m, c, root, parent, elm) && !IsRed(c, elm) && !IsRed(c, tmp)
    requires Beside(m, parent, elm, tmp) && tmp in m && !IsRed(c, m[tmp].left) && !IsRed(c, m[tmp].right)
    ensures Recolored(c, c', tmp, true)
    ensures ShortAt(m, c', root, m[parent].parent, parent)
    ensures m[parent].parent != null ==> Span(m, m[parent].parent) > Span(m, parent)
    ensures m[parent].parent == null ==> parent == root
  {
    BesideFacts(m, c, root, size, parent, elm, tmp);
    c' := c[tmp := Paint(true, c[tmp].bh - 1)][parent := Paint(c[parent].red, c[parent].bh - 1)];
    Reddened(m, c, c', root, size, parent, elm, tmp);
    Around(m, root, size, parent);
  }

  lemma BalancedShort(m: Links, c: Colors, root: Node?, size: int)
    requires Linked(m, root, size) && Balanced(m, c, root)
    ensures ShortAt(m, c, root, null, root)
  {
    forall n | n in m
      ensures Even(m, c, n) && NoRedRed(m, c, n, root)
    {
      assert Even(m, c, n) && NoRedRed(m, c, n, null);
    }
  }

  ghost predicate RotatedLeft(m: Links, m': Links, elm: Node) {
    && elm in m && m[elm].right != null && m[elm].right in m
    && RotL(m, m', elm, m[elm].right, m[m[elm].right].left, m[elm].parent)
  }

  ghost predicate RotatedRight(m: Links, m': Links, elm: Node) {
    && elm in m && m[elm].left != null && m[elm].left in m
    && RotR(m, m', elm, m[elm].left, m[m[elm].left].right, m[elm].parent)
  }

  ghost function Span(m: Links, n: Node): int
  {
    if n in m then m[n].hi - m[n].lo else 0
  }

  lemma RotatedIndexed(m: Links, m': Links, order: seq<Node>)
    requires Indexed(m, order) && m'.Keys == m.Keys && forall n | n in m :: m'[n].pos == m[n].pos
    ensures Indexed(m', order)
  {
    assert forall n | n in m' :: m[n].pos == m'[n].pos && order[m[n].pos] == n;
  }

  /** The links after a left rotation, and what the rotation's assignments rely on. */
  lemma LeftRotation(m: Links, root: Node?, order: seq<Node>, elm: Node, tmp: Node, mid: Node?, up: Node?)
    returns (m': Links)
    requires Linked(m, root, |order|) && Indexed(m, order) && elm in m && m[elm].right == tmp && m[elm].parent == up
    requires tmp in m ==> m[tmp].left == mid
    ensures elm != tmp && elm != mid && elm != up && tmp != mid && tmp != up && (up != null ==> up in m && up != mid)
    ensures tmp in m && (mid != null ==> mid in m)
    ensures up == null <==> elm == root
    ensures RotL(m, m', elm, tmp, mid, up)
    ensures Linked(m', if root == elm then tmp else root, |order|) && Indexed(m', order)
  {
    Around(m, root, |order|, elm);
    RotLDistinct(m, root, |order|, elm, tmp, mid, up);
    m' := m[elm := m[elm].(right := mid, parent := tmp, hi := m[tmp].pos)]
          [tmp := m[tmp].(left := elm, parent := up, lo := m[elm].lo)];
    if mid != null {
      m' := m'[mid := m[mid].(parent := elm)];
    }
    if up != null {
      m' := m'[up := if m[up].left == elm then m[up].(left := tmp) else m[up].(right := tmp)];
    }
    RotLLinked(m, m', root, if root == elm then tmp else root, |order|, elm, tmp, mid, up);
    RotatedIndexed(m, m', order);
  }

  lemma RightRotation(m: Links, root: Node?, order: seq<Node>, elm: Node, tmp: Node, mid: Node?, up: Node?)
    returns (m': Links)
    requires Linked(m, root, |order|) && Indexed(m, order) && elm in m && m[elm].left == tmp && m[elm].parent == up
    requires tmp in m ==> m[tmp].right == mid
    ensures elm != tmp && elm != mid && elm != up && tmp != mid && tmp != up && (up != null ==> up in m && up != mid)
    ensures tmp in m && (mid != null ==> mid in m)
    ensures up == null <==> elm == root
    ensures RotR(m, m', elm, tmp, mid, up)
    ensures Linked(m', if root == elm then tmp else root, |order|) && Indexed(m', order)
  {
    Around(m, root, |order|, elm);
    Around(m, root, |order|, tmp);
    m' := m[elm := m[elm].(left := mid, parent := tmp, lo := m[tmp].pos + 1)]
          [tmp := m[tmp].(right := elm, parent := up, hi := m[elm].hi)];
    if mid != null {
      m' := m'[mid := m[mid].(parent := elm)];
    }
    if up != null {
      m' := m'[up := if m[up].left == elm then m[up].(left := tmp) else m[up].(right := tmp)];
    }
    RotRLinked(m, m', root, if root == elm then tmp else root, |order|, elm, tmp, mid, up);
    RotatedIndexed(m, m', order);
  }

  // ----- removal

  /** The links and colours once y, which has at most one child, is spliced out. */
  lemma Splicing(m: Links, c: Colors, root: Node?, order: seq<Node>, y: Node, child: Node?) returns (m': Links)
    requires Linked(m, root, |order|) && Indexed(m, order) && Balanced(m, c, root) && y in m
    requires (m[y].left == null && child == m[y].right) || (m[y].right == null && child == m[y].left)
    ensures Spliced(m, m', y, child, m[y].parent) && 0 <= m[y].pos < |order|
    ensures y != child && y != m[y].parent && (child != null ==> child != m[y].parent)
            && (m[y].parent == null <==> y == root)
    ensures var root' := if y == root then child else root;
      && Linked(m', root', |order| - 1) && Indexed(m', RemoveAt(order, m[y].pos))
      && (c[y].red ==> Balanced(m', c - {y}, root'))
      && (!c[y].red ==> ShortAt(m', c - {y}, root', m[y].parent, child))
  {
    var up := m[y].parent;
    Around(m, root, |order|, y);
    m' := map n | n in m && n != y :: Drop(m[n], m[y].pos);
    if child != null {
      m' := m'[child := m'[child].(parent := up)];
    }
    if up != null {
      m' := m'[up := Reattach(m'[up], y, child)];
    }
    var root' := if y == root then child else root;
    SplicedLinked(m, m', root, root', order, y, child, up);
    SplicedIndexed(m, m', order, y, child, up);
    SplicedColors(m, m', c, root, root', |order|, y, child, up);
  }

  lemma SplicedElsewhere(m: Links, m': Links, c: Colors, root: Node?, size: int, y: Node, child: Node?, up: Node?,
                         n: Node)
    requires Linked(m, root, size) && Balanced(m, c, root) && Spliced(m, m', y, child, up) && n in m && n != y
             && n != up
    requires up != y && (child != null ==> child != up)
    ensures Even(m', c - {y}, n) && NoRedRed(m', c - {y}, n, null) && NoRedRed(m', c - {y}, n, child)
  {
    assert Even(m, c, n) && NoRedRed(m, c, n, null);
    SplicedFields(m, m', y, child, up, n);
    if m[n].left != null {
      OnlyParent(m, root, size, n, m[n].left);
    }
    if m[n].right != null {
      OnlyParent(m, root, size, n, m[n].right);
    }
  }

  lemma SplicedAtUp(m: Links, m': Links, c: Colors, root: Node?, size: int, y: Node, child: Node?, up: Node)
    requires Linked(m, root, size) && Balanced(m, c, root) && Spliced(m, m', y, child, up)
    ensures up in m && NoRedRed(m', c - {y}, up, child)
    ensures c[y].red ==> Even(m', c - {y}, up) && NoRedRed(m', c - {y}, up, null) && child == null
    ensures !c[y].red ==> Short(m', c - {y}, up, child)
  {
    Around(m, root, size, y);
    OnlyChild(m, c, root, size, y, child);
    assert Even(m, c, up) && NoRedRed(m, c, up, null);
    assert m[up].left != m[up].right;
  }

  /** A red node with at most one child has none; a black one is one black node taller than its child. */
  lemma OnlyChild(m: Links, c: Colors, root: Node?, size: int, y: Node, child: Node?)
    requires Linked(m, root, size) && Balanced(m, c, root) && y in m
    requires (m[y].left == null && child == m[y].right) || (m[y].right == null && child == m[y].left)
    ensures c[y].bh == Bh(c, child) + Weight(c[y].red)
    ensures c[y].red ==> child == null
  {
    assert Even(m, c, y) && NoRedRed(m, c, y, null) && Local(m, root, size, y);
    if child != null {
      assert Even(m, c, child);
    }
  }

  lemma SplicedColors(m: Links, m': Links, c: Colors, root: Node?, root': Node?, size: int, y: Node, child: Node?,
                      up: Node?)
    requires Linked(m, root, size) && Balanced(m, c, root) && Spliced(m, m', y, child, up)
    requires root' == if y == root then child else root
    ensures c[y].red ==> Balanced(m', c - {y}, root')
    ensures !c[y].red ==> ShortAt(m', c - {y}, root', up, child)
  {
    Around(m, root, size, y);
    OnlyChild(m, c, root, size, y, child);
    if up != null {
      SplicedAtUp(m, m', c, root, size, y, child, up);
    }
    forall n | n in m' && n != up
      ensures Even(m', c - {y}, n) && NoRedRed(m', c - {y}, n, null) && NoRedRed(m', c - {y}, n, child)
    {
      SplicedElsewhere(m, m', c, root, size, y, child, up, n);
    }
  }

  /** The links and colours once y stands where was stood. */
  lemma Replacing(m: Links, c: Colors, root: Node?, order: seq<Node>, was: Node, y: Node, p: Node?, x: Node?)
    returns (m': Links, c': Colors)
    requires Linked(m, root, |order|) && Indexed(m, order) && was in m && y !in m && c.Keys == m.Keys && x != was
    ensures Replaced(m, m', was, y) && c' == (c - {was})[y := c[was]] && 0 <= m[was].pos < |order|
    ensures m[was].parent == null <==> was == root
    ensures m[was].left != null ==>
              m[was].left in m && m[was].left != was && m[was].left != m[was].right && m[was].left != m[was].parent
    ensures m[was].right != null ==> m[was].right in m && m[was].right != was && m[was].right != m[was].parent
    ensures m[was].parent != null ==> m[was].parent in m && m[was].parent != was
    ensures var root' := if root == was then y else root;
      && Linked(m', root', |order|) && Indexed(m', order[m[was].pos := y])
      && (Balanced(m, c, root) ==> Balanced(m', c', root'))
      && (ShortAt(m, c, root, p, x) ==> ShortAt(m', c', root', if p == was then y else p, x))
  {
    Around(m, root, |order|, was);
    m' := map n | n in m && n != was :: m[n];
    if m[was].left != null {
      m' := m'[m[was].left := m[m[was].left].(parent := y)];
    }
    if m[was].right != null {
      m' := m'[m[was].right := m[m[was].right].(parent := y)];
    }
    if m[was].parent != null {
      m' := m'[m[was].parent := Reattach(m[m[was].parent], was, y)];
    }
    m' := m'[y := m[was]];
    c' := (c - {was})[y := c[was]];
    var root' := if root == was then y else root;
    ReplacedLinked(m, m', root, root', |order|, was, y);
    ReplacedIndexed(m, m', order, was, y);
    if Balanced(m, c, root) {
      ReplacedBalanced(m, m', c, c', root, root', |order|, was, y);
    }
    if ShortAt(m, c, root, p, x) {
      ReplacedShort(m, m', c, c', root, root', |order|, was, y, p, x);
    }
  }

  /** n, or y if n is the node it replaces. */
  ghost function Instead(was: Node, y: Node, n: Node?): Node? {
    if n == was then y else n
  }

  lemma ReplacedChildren(m: Links, m': Links, root: Node?, size: int, was: Node, y: Node, n: Node)
    requires Linked(m, root, size) && Replaced(m, m', was, y) && n in m'
    ensures var o := if n == y then was else n;
      o in m && m'[n].left == Instead(was, y, m[o].left) && m'[n].right == Instead(was, y, m[o].right)
  {
    var o := if n == y then was else n;
    Around(m, root, size, was);
    if m[o].left != null {
      OnlyParent(m, root, size, o, m[o].left);
    }
    if m[o].right != null {
      OnlyParent(m, root, size, o, m[o].right);
    }
    if n != y {
      Around(m, root, size, n);
      if n != m[was].parent {
        ReplacedFields(m, m', was, y, n);
      }
    }
  }

  lemma ReplacedSides(m: Links, m': Links, c: Colors, c': Colors, root: Node?, size: int, was: Node, y: Node, n: Node,
                      x: Node?)
    requires Linked(m, root, size) && Replaced(m, m', was, y) && c.Keys == m.Keys && c' == (c - {was})[y := c[was]]
    requires n in m' && x != was && x != y
    ensures var o := if n == y then was else n;
      o in m && c'[n] == c[o] && Even(m, c, o) == Even(m', c', n) && NoRedRed(m, c, o, x) == NoRedRed(m', c', n, x)
    ensures var o := if n == y then was else n;
            o in m && m'[n].left == Instead(was, y, m[o].left) && m'[n].right == Instead(was, y, m[o].right)
  {
    var o := if n == y then was else n;
    ReplacedChildren(m, m', root, size, was, y, n);
    assert Local(m, root, size, o);
  }

  lemma ReplacedBalanced(m: Links, m': Links, c: Colors, c': Colors, root: Node?, root': Node?, size: int, was: Node,
                         y: Node)
    requires Linked(m, root, size) && Replaced(m, m', was, y) && Balanced(m, c, root) && c' == (c - {was})[y := c[was]]
    requires root' == if root == was then y else root
    ensures Balanced(m', c', root')
  {
    forall n | n in m'
      ensures Even(m', c', n) && NoRedRed(m', c', n, null)
    {
      ReplacedSides(m, m', c, c', root, size, was, y, n, null);
    }
  }

  lemma ReplacedShort(m: Links, m': Links, c: Colors, c': Colors, root: Node?, root': Node?, size: int, was: Node,
                      y: Node, p: Node?, x: Node?)
    requires Linked(m, root, size) && Replaced(m, m', was, y) && ShortAt(m, c, root, p, x)
             && c' == (c - {was})[y := c[was]]
    requires root' == (if root == was then y else root) && x != was
    ensures ShortAt(m', c', root', if p == was then y else p, x)
  {
    forall n | n in m'
      ensures n == Instead(was, y, p) || Even(m', c', n)
      ensures n == x || NoRedRed(m', c', n, x)
    {
      var o := if n == y then was else n;
      ReplacedSides(m, m', c, c', root, size, was, y, n, x);
      assert o == p || Even(m, c, o);
      assert o == x || NoRedRed(m, c, o, x);
    }
    ReplacedShortAt(m, m', c, c', root, root', size, was, y, p, x);
  }

  lemma ReplacedAbove(m: Links, m': Links, c: Colors, c': Colors, root: Node?, root': Node?, size: int, was: Node,
                      y: Node, p: Node?, x: Node?)
    requires Linked(m, root, size) && Replaced(m, m', was, y) && ShortAt(m, c, root, p, x)
             && c' == (c - {was})[y := c[was]]
    requires root' == (if root == was then y else root) && x != was
    ensures var p' := Instead(was, y, p); if p' == null then x == root' else p' in m' && Short(m', c', p', x)
  {
    if p != null {
      ReplacedSides(m, m', c, c', root, size, was, y, Instead(was, y, p), x);
      assert Local(m, root, size, p);
    }
  }

  lemma ReplacedBelow(m: Links, m': Links, c: Colors, root: Node?, size: int, was: Node, y: Node, p: Node?, x: Node?)
    requires Linked(m, root, size) && Replaced(m, m', was, y) && ShortAt(m, c, root, p, x) && x != was
    ensures x != null ==> x in m' && m'[x].parent == Instead(was, y, p)
  {
    if x != null {
      Around(m, root, size, was);
      assert Local(m, root, size, x);
    }
  }

  lemma ReplacedShortAt(m: Links, m': Links, c: Colors, c': Colors, root: Node?, root': Node?, size: int, was: Node,
                        y: Node, p: Node?, x: Node?)
    requires Linked(m, root, size) && Replaced(m, m', was, y) && ShortAt(m, c, root, p, x)
             && c' == (c - {was})[y := c[was]]
    requires root' == (if root == was then y else root) && x != was
    ensures var p' := Instead(was, y, p); if p' == null then x == root' else p' in m' && Short(m', c', p', x)
    ensures x != null ==> x in m' && m'[x].parent == Instead(was, y, p)
    ensures root' == x || !IsRed(c', root')
  {
    ReplacedAbove(m, m', c, c', root, root', size, was, y, p, x);
    ReplacedBelow(m, m', c, root, size, was, y, p, x);
  }

  lemma SuccessorFacts(m: Links, root: Node?, order: seq<Node>, was: Node, y: Node)
    requires Linked(m, root, |order|) && Indexed(m, order) && was in m && m[was].left != null && m[was].right != null
    requires y in m && m[y].left == null && m[y].pos == m[was].pos + 1
    ensures y != was && m[was].left != y && m[y].right != was
    ensures m[was].pos + 1 < |order| && order[m[was].pos] == was && order[m[was].pos + 1] == y
  {
    assert Local(m, root, |order|, was) && Local(m, root, |order|, y) && Local(m, root, |order|, m[was].left);
    if m[y].right != null {
      assert Local(m, root, |order|, m[y].right);
    }
  }

  lemma SuccessorSpliced(m: Links, m': Links, was: Node, y: Node, child: Node?, up: Node?)
    requires Spliced(m, m', y, child, up) && was in m && was != y && m[was].left != y && child != was
    requires m[y].pos == m[was].pos + 1
    ensures was in m' && m'[was].left == m[was].left && m'[was].pos == m[was].pos
  {
  }

  lemma SuccessorOrder(order: seq<Node>, k: nat, y: Node)
    requires k + 1 < |order| && order[k + 1] == y
    ensures RemoveAt(order, k + 1)[k := y] == RemoveAt(order, k)
  {
  }

  lemma TradePlaces(all: set<Node>, rest: set<Node>, now: set<Node>, was: Node, y: Node)
    requires y in all && y != was && rest == all - {y} && now == rest - {was} + {y}
    ensures now == all - {was}
  {
  }

  lemma FirstRemoved(order: seq<Node>)
    requires order != []
    ensures RemoveAt(order, 0) == order[1..]
  {
  }

  /** The nodes visited so far, followed by those still in order, are all. */
  ghost predicate Visited(visited: seq<Node>, order: seq<Node>, all: seq<Node>) {
    if visited == [] then all == order
    else all != [] && all[0] == visited[0] && Visited(visited[1..], order, all[1..])
  }

  lemma {:induction false} VisitedNext(visited: seq<Node>, order: seq<Node>, all: seq<Node>)
    requires Visited(visited, order, all) && order != []
    ensures Visited(visited + [order[0]], order[1..], all)
  {
    if visited != [] {
      VisitedNext(visited[1..], order, all[1..]);
      assert (visited + [order[0]])[1..] == visited[1..] + [order[0]];
    }
  }

  lemma {:induction false} VisitedAll(visited: seq<Node>, all: seq<Node>)
    requires Visited(visited, [], all)
    ensures visited == all
  {
    if visited != [] {
      VisitedAll(visited[1..], all[1..]);
      assert visited == [visited[0]] + visited[1..] && all == [all[0]] + all[1..];
    }
  }

  lemma JoinStretch(order: seq<Node>, lo: int, pos: int, hi: int, before: seq<Node>, after: seq<Node>)
    requires 0 <= lo <= pos < hi <= |order| && before == order[lo..pos] && after == order[pos + 1..hi]
    ensures before + [order[pos]] + after == order[lo..hi]
  {
  }

  lemma IndexedKeys(m: Links, order: seq<Node>)
    requires Indexed(m, order)
    ensures m.Keys == set n | n in order
  {
    forall n | n in m
      ensures n in order
    {
      assert order[m[n].pos] == n;
    }
  }

  lemma SplitsAbsent(m: Links, order: seq<Node>, k: nat, path: Str)
    requires Indexed(m, order) && Splits(order, k, path)
    ensures forall n {:trigger n.path} | n in m :: n.path != path
  {
    forall n | n in m
      ensures n.path != path
    {
      assert order[m[n].pos] == n;
    }
  }

  /** Keys are unique. */
  lemma SamePath(m: Links, order: seq<Node>, a: Node, b: Node)
    requires Indexed(m, order) && Sorted(order) && a in m && b in m && a.path == b.path
    ensures a == b
  {
    assert order[m[a].pos] == a && order[m[b].pos] == b;
    assert StrCmp(a.path, b.path) == 0 && StrCmp(b.path, a.path) == 0;
  }

  lemma EmptyOrder(m: Links, order: seq<Node>)
    requires Indexed(m, order) && order == []
    ensures m == map[]
  {
    assert forall n | n in m :: 0 <= m[n].pos < 0;
  }

  lemma RemoveSorted(order: seq<Node>, k: nat)
    requires Sorted(order) && k < |order|
    ensures Sorted(RemoveAt(order, k))
  {
    var order' := RemoveAt(order, k);
    forall i, j | 0 <= i < j < |order'|
      ensures StrCmp(order'[i].path, order'[j].path) < 0
    {
      assert order'[i] == order[if i < k then i else i + 1] && order'[j] == order[if j < k then j else j + 1];
    }
  }
}
