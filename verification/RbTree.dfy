/** The red-black tree of tree.h: linked heap nodes, updated in place. */
module RbTree {
  import opened CString
  import opened RbLinks
  import opened RbEdits
  import opened RbColors
  import opened RbDeficit
  import opened RbMirror
  import opened RbSteps
  import opened Powers

  class Tree {
    var root: Node?
    ghost var links: Links
    ghost var colors: Colors
    ghost var order: seq<Node>

    /** links and colors record what the nodes' fields hold. */
    ghost predicate Mirrors()
      reads this`root, this`links, this`colors, this`order, links.Keys`left, links.Keys`right, links.Keys`parent,
            links.Keys`red
    {
      && colors.Keys == links.Keys
      && forall n {:trigger links[n]} | n in links ::
           n.left == links[n].left && n.right == links[n].right && n.parent == links[n].parent && n.red == colors[n].red
    }

    /** The nodes form one tree in the given order. */
    ghost predicate Shaped()
      reads this`root, this`links, this`colors, this`order, links.Keys`left, links.Keys`right, links.Keys`parent,
            links.Keys`red
    {
      Mirrors() && Linked(links, root, |order|) && Indexed(links, order)
    }

    ghost predicate Valid()
      reads this`root, this`links, this`colors, this`order, links.Keys`left, links.Keys`right, links.Keys`parent,
            links.Keys`red
    {
      Shaped() && Balanced(links, colors, root) && Sorted(order)
    }

    constructor ()
      ensures Valid() && order == [] && links == map[]
    {
      root, links, colors, order := null, map[], map[], [];
    }

    /** Colours n; c' are the colours and black heights this is to leave. */
    method SetColor(n: Node, red: bool, ghost c': Colors)
      requires Mirrors() && n in links && Recolored(colors, c', n, red)
      modifies this`colors, n`red
      ensures Mirrors() && colors == c'
    {
      n.red := red;
      colors := c';
    }

    /** RB_SET_BLACKRED; c' are the colours and black heights it is to leave. */
    method SetBlackRed(black: Node, red: Node, ghost c': Colors)
      requires Mirrors() && black in links && red in links && black != red
      requires BlackRed(colors, c', black, red)
      modifies this`colors, black`red, red`red
      ensures Mirrors() && colors == c'
    {
      black.red := false;
      red.red := true;
      colors := c';
    }

    // ----- rotations

    method AssignLeft(elm: Node, ghost mid: Node?, ghost up: Node?, ghost nodes: set<Node>)
      requires elm in nodes && elm.right != null && elm.right in nodes && elm.right.left == mid && elm.parent == up
      requires elm != elm.right && elm != mid && elm != up && elm.right != mid && elm.right != up
      requires (mid != null ==> mid in nodes) && (up != null ==> up in nodes && up != mid)
      modifies this`root, nodes`left, nodes`right, nodes`parent
      ensures root == if up == null then old(elm.right) else old(root)
      ensures forall n {:trigger n.left} | n in nodes ::
                n.left == if n == old(elm.right) then elm
                          else if n == up && old(n.left) == elm then old(elm.right) else old(n.left)
      ensures forall n {:trigger n.right} | n in nodes ::
                n.right == if n == elm then mid
                           else if n == up && old(n.left) != elm then old(elm.right) else old(n.right)
      ensures forall n {:trigger n.parent} | n in nodes ::
                n.parent == if n == elm then old(elm.right) else if n == old(elm.right) then up
                            else if n == mid then elm else old(n.parent)
    {
      var tmp := elm.right;
      elm.right := tmp.left;
      if elm.right != null {
        tmp.left.parent := elm;
      }
      tmp.parent := elm.parent;
      if tmp.parent != null {
        if elm == elm.parent.left {
          elm.parent.left := tmp;
        } else {
          elm.parent.right := tmp;
        }
      } else {
        root := tmp;
      }
      tmp.left := elm;
      elm.parent := tmp;
    }

    method AssignRight(elm: Node, ghost mid: Node?, ghost up: Node?, ghost nodes: set<Node>)
      requires elm in nodes && elm.left != null && elm.left in nodes && elm.left.right == mid && elm.parent == up
      requires elm != elm.left && elm != mid && elm != up && elm.left != mid && elm.left != up
      requires (mid != null ==> mid in nodes) && (up != null ==> up in nodes && up != mid)
      modifies this`root, nodes`left, nodes`right, nodes`parent
      ensures root == if up == null then old(elm.left) else old(root)
      ensures forall n {:trigger n.left} | n in nodes ::
                n.left == if n == elm then mid else if n == up && old(n.left) == elm then old(elm.left) else old(n.left)
      ensures forall n {:trigger n.right} | n in nodes ::
                n.right == if n == old(elm.left) then elm
                           else if n == up && old(n.left) != elm then old(elm.left) else old(n.right)
      ensures forall n {:trigger n.parent} | n in nodes ::
                n.parent == if n == elm then old(elm.left) else if n == old(elm.left) then up
                            else if n == mid then elm else old(n.parent)
    {
      var tmp := elm.left;
      elm.left := tmp.right;
      if elm.left != null {
        tmp.right.parent := elm;
      }
      tmp.parent := elm.parent;
      if tmp.parent != null {
        if elm == elm.parent.left {
          elm.parent.left := tmp;
        } else {
          elm.parent.right := tmp;
        }
      } else {
        root := tmp;
      }
      tmp.right := elm;
      elm.parent := tmp;
    }

    method TurnLeft(elm: Node, ghost m': Links, ghost mid: Node?, ghost up: Node?)
      requires Mirrors() && elm.right != null && RotL(links, m', elm, elm.right, mid, up)
      requires elm != elm.right && elm != mid && elm != up && elm.right != mid && elm.right != up
               && (up != null ==> up != mid)
      modifies this`root, this`links, links.Keys`left, links.Keys`right, links.Keys`parent
      ensures Mirrors() && links == m'
      ensures root == if up == null then old(elm.right) else old(root)
    {
      AssignLeft(elm, mid, up, links.Keys);
      links := m';
    }

    method TurnRight(elm: Node, ghost m': Links, ghost mid: Node?, ghost up: Node?)
      requires Mirrors() && elm.left != null && RotR(links, m', elm, elm.left, mid, up)
      requires elm != elm.left && elm != mid && elm != up && elm.left != mid && elm.left != up
               && (up != null ==> up != mid)
      modifies this`root, this`links, links.Keys`left, links.Keys`right, links.Keys`parent
      ensures Mirrors() && links == m'
      ensures root == if up == null then old(elm.left) else old(root)
    {
      AssignRight(elm, mid, up, links.Keys);
      links := m';
    }

    /** RB_ROTATE_LEFT: elm's right child comes up in its place; the order of the nodes stays. */
    method RotateLeft(elm: Node)
      requires Shaped() && elm in links && links[elm].right != null
      modifies this`root, this`links, links.Keys`left, links.Keys`right, links.Keys`parent
      ensures Shaped() && RotatedLeft(old(links), links, elm)
      ensures root == if old(root) == elm then old(links)[elm].right else old(root)
    {
      ghost var m, tmp := links, links[elm].right;
      assert Local(m, root, |order|, elm);
      ghost var mid, up := m[tmp].left, m[elm].parent;
      ghost var m' := LeftRotation(m, root, order, elm, tmp, mid, up);
      assert elm.right == tmp;
      TurnLeft(elm, m', mid, up);
    }

    /** RB_ROTATE_RIGHT: elm's left child comes up in its place; the order of the nodes stays. */
    method RotateRight(elm: Node)
      requires Shaped() && elm in links && links[elm].left != null
      modifies this`root, this`links, links.Keys`left, links.Keys`right, links.Keys`parent
      ensures Shaped() && RotatedRight(old(links), links, elm)
      ensures root == if old(root) == elm then old(links)[elm].left else old(root)
    {
      ghost var m, tmp := links, links[elm].left;
      assert Local(m, root, |order|, elm);
      ghost var mid, up := m[tmp].right, m[elm].parent;
      ghost var m' := RightRotation(m, root, order, elm, tmp, mid, up);
      assert elm.left == tmp;
      TurnRight(elm, m', mid, up);
    }

    // ----- insertion

    /** Paints the parent and the uncle of a red-red edge black and the grandparent red. */
    method Repaint(p: Node, g: Node, u: Node, ghost elm: Node)
      requires Shaped() && RedAt(links, colors, root, elm) && links[elm].parent == p && IsRed(colors, p)
      requires Siblings(links, g, p, u) && IsRed(colors, u)
      modifies this`colors, p`red, g`red, u`red
      ensures Shaped() && RedAt(links, colors, root, g)
    {
      ghost var c1, c' := RepaintStep(links, colors, root, |order|, elm, p, g, u);
      SetColor(u, false, c1);
      SetBlackRed(p, g, c');
    }

    /** The insertion fix-up step for a red parent on the left of its own parent. */
    method ClimbLeft(elm: Node, parent: Node, gparent: Node) returns (next: Node)
      requires Shaped() && RedAt(links, colors, root, elm)
      requires elm.parent == parent && parent.red && parent.parent == gparent && gparent.left == parent
      modifies this`root, this`links, this`colors, links.Keys`left, links.Keys`right, links.Keys`parent, links.Keys`red
      ensures Shaped() && RedAt(links, colors, root, next) && links.Keys == old(links.Keys)
      ensures IsRed(colors, links[next].parent) ==> Span(links, next) > Span(old(links), elm)
    {
      assert links[elm].parent == parent;
      assert Local(links, root, |order|, elm);
      assert colors[parent].red == parent.red;
      Grandparent(links, colors, root, |order|, elm);
      assert links[elm].parent == parent && links[parent].parent == gparent && links[gparent].left == parent;
      var tmp := gparent.right;
      assert tmp == links[gparent].right;
      assert Local(links, root, |order|, gparent);
      if tmp != null && tmp.red {
        assert links[tmp].parent == gparent && colors[tmp].red;
        Repaint(parent, gparent, tmp, elm);
        next := gparent;
      } else {
        next := LiftLeft(elm, parent, gparent);
      }
    }

    method LiftLeft(elm: Node, parent: Node, gparent: Node) returns (next: Node)
      requires Shaped() && RedAt(links, colors, root, elm) && IsRed(colors, parent)
      requires links[elm].parent == parent && parent in links && links[parent].parent == gparent
      requires gparent in links && links[gparent].left == parent && !IsRed(colors, links[gparent].right)
      modifies this`root, this`links, this`colors, links.Keys`left, links.Keys`right, links.Keys`parent, links.Keys`red
      ensures Shaped() && RedAt(links, colors, root, next) && links.Keys == old(links.Keys)
      ensures !IsRed(colors, links[next].parent)
    {
      ghost var m, c, r := links, colors, root;
      Grandparent(m, c, r, |order|, elm);
      Around(m, r, |order|, parent);
      var p := parent;
      next := elm;
      assert parent.right == m[parent].right;
      if parent.right == elm {
        ghost var mid := m[elm].left;
        RotateLeft(parent);
        InnerRotated(m, links, c, r, |order|, elm, parent, mid, gparent);
        next, p := parent, elm;
      }
      OuterLeft(next, p, gparent);
    }

    method OuterLeft(elm: Node, parent: Node, gparent: Node)
      requires Shaped() && RedAt(links, colors, root, elm) && IsRed(colors, parent)
      requires links[elm].parent == parent && parent in links && links[parent].left == elm
      requires gparent in links && links[gparent].left == parent && !IsRed(colors, links[gparent].right)
      modifies this`root, this`links, this`colors, links.Keys`left, links.Keys`right, links.Keys`parent, links.Keys`red
      ensures Shaped() && RedAt(links, colors, root, elm) && links.Keys == old(links.Keys)
      ensures !IsRed(colors, links[elm].parent)
    {
      ghost var c' := OuterStepLeft(links, colors, root, |order|, elm, parent, gparent);
      SetBlackRed(parent, gparent, c');
      RotateRight(gparent);
    }

    /** The insertion fix-up step for a red parent on the right of its own parent. */
    method ClimbRight(elm: Node, parent: Node, gparent: Node) returns (next: Node)
      requires Shaped() && RedAt(links, colors, root, elm)
      requires elm.parent == parent && parent.red && parent.parent == gparent && gparent.left != parent
      modifies this`root, this`links, this`colors, links.Keys`left, links.Keys`right, links.Keys`parent, links.Keys`red
      ensures Shaped() && RedAt(links, colors, root, next) && links.Keys == old(links.Keys)
      ensures IsRed(colors, links[next].parent) ==> Span(links, next) > Span(old(links), elm)
    {
      assert links[elm].parent == parent;
      assert Local(links, root, |order|, elm);
      assert colors[parent].red == parent.red;
      Grandparent(links, colors, root, |order|, elm);
      assert links[elm].parent == parent && links[parent].parent == gparent && links[gparent].right == parent;
      var tmp := gparent.left;
      assert tmp == links[gparent].left;
      assert Local(links, root, |order|, gparent);
      if tmp != null && tmp.red {
        assert links[tmp].parent == gparent && colors[tmp].red;
        Repaint(parent, gparent, tmp, elm);
        next := gparent;
      } else {
        next := LiftRight(elm, parent, gparent);
      }
    }

    method LiftRight(elm: Node, parent: Node, gparent: Node) returns (next: Node)
      requires Shaped() && RedAt(links, colors, root, elm) && IsRed(colors, parent)
      requires links[elm].parent == parent && parent in links && links[parent].parent == gparent
      requires gparent in links && links[gparent].right == parent && !IsRed(colors, links[gparent].left)
      modifies this`root, this`links, this`colors, links.Keys`left, links.Keys`right, links.Keys`parent, links.Keys`red
      ensures Shaped() && RedAt(links, colors, root, next) && links.Keys == old(links.Keys)
      ensures !IsRed(colors, links[next].parent)
    {
      ghost var m, c, r := links, colors, root;
      Grandparent(m, c, r, |order|, elm);
      Around(m, r, |order|, parent);
      Around(m, r, |order|, gparent);
      var p := parent;
      next := elm;
      assert parent.left == m[parent].left;
      if parent.left == elm {
        ghost var mid := m[elm].right;
        RotateRight(parent);
        InnerRotatedR(m, links, c, r, |order|, elm, parent, mid, gparent);
        next, p := parent, elm;
      }
      OuterRight(next, p, gparent);
    }

    method OuterRight(elm: Node, parent: Node, gparent: Node)
      requires Shaped() && RedAt(links, colors, root, elm) && IsRed(colors, parent)
      requires links[elm].parent == parent && parent in links && links[parent].right == elm
      requires gparent in links && links[gparent].right == parent && !IsRed(colors, links[gparent].left)
      modifies this`root, this`links, this`colors, links.Keys`left, links.Keys`right, links.Keys`parent, links.Keys`red
      ensures Shaped() && RedAt(links, colors, root, elm) && links.Keys == old(links.Keys)
      ensures !IsRed(colors, links[elm].parent)
    {
      ghost var c' := OuterStepRight(links, colors, root, |order|, elm, parent, gparent);
      SetBlackRed(parent, gparent, c');
      RotateLeft(gparent);
    }

    /** What the fields of x and of its parent hold. */
    lemma Seen(x: Node)
      requires Shaped() && x in links
      ensures x.left == links[x].left && x.right == links[x].right && x.parent == links[x].parent
              && x.red == colors[x].red
      ensures x.left != null ==> x.left in links && x.left.red == colors[x.left].red
      ensures x.right != null ==> x.right in links && x.right.red == colors[x.right].red
      ensures x.parent != null ==> x.parent in links && x.parent.red == colors[x.parent].red
    {
      assert Local(links, root, |order|, x);
      assert x.left == links[x].left;
      assert x.left != null ==> links[x.left].left == x.left.left;
      assert x.right != null ==> links[x.right].left == x.right.left;
      assert x.parent != null ==> links[x.parent].left == x.parent.left;
    }

    method Climb(elm: Node) returns (next: Node)
      requires Shaped() && RedAt(links, colors, root, elm) && IsRed(colors, links[elm].parent)
      modifies this`root, this`links, this`colors, links.Keys`left, links.Keys`right, links.Keys`parent, links.Keys`red
      ensures Shaped() && RedAt(links, colors, root, next) && links.Keys == old(links.Keys)
      ensures IsRed(colors, links[next].parent) ==> Span(links, next) > Span(old(links), elm)
    {
      Grandparent(links, colors, root, |order|, elm);
      Seen(elm);
      Seen(elm.parent);
      var parent := elm.parent;
      var gparent := parent.parent;
      if parent == gparent.left {
        next := ClimbLeft(elm, parent, gparent);
      } else {
        next := ClimbRight(elm, parent, gparent);
      }
    }

    /** RB_INSERT_COLOR: restores the colour rules after the red leaf elm was linked in. */
    method InsertColor(elm: Node)
      requires Shaped() && RedAt(links, colors, root, elm)
      modifies this`root, this`links, this`colors, links.Keys`left, links.Keys`right, links.Keys`parent, links.Keys`red
      ensures Shaped() && Balanced(links, colors, root) && links.Keys == old(links.Keys)
    {
      var x := elm;
      Seen(x);
      while x.parent != null && x.parent.red
        invariant Shaped() && RedAt(links, colors, root, x) && links.Keys == old(links.Keys)
        invariant (x.parent != null && x.parent.red) <==> IsRed(colors, links[x].parent)
        decreases IsRed(colors, links[x].parent), |order| - Span(links, x)
      {
        assert Local(links, root, |order|, x);
        x := Climb(x);
        Seen(x);
      }
      BlackenRoot(x);
    }

    method BlackenRoot(ghost elm: Node)
      requires Shaped() && RedAt(links, colors, root, elm) && !IsRed(colors, links[elm].parent)
      modifies this`colors, links.Keys`red
      ensures Shaped() && Balanced(links, colors, root)
    {
      ghost var c := colors;
      SetColor(root, false, c[root := Paint(false, c[root].bh + 1 - Weight(c[root].red))]);
      RootPainted(links, c, colors, root, |order|, elm);
    }

    /** RB_SET, then hanging elm under parent. */
    method AssignLeaf(elm: Node, parent: Node?, left: bool, ghost nodes: set<Node>)
      requires elm !in nodes && (parent != null ==> parent in nodes)
      modifies this`root, nodes`left, nodes`right, elm`left, elm`right, elm`parent, elm`red
      ensures elm.parent == parent && elm.left == null && elm.right == null && elm.red
      ensures forall n {:trigger n.left} | n in nodes :: n.left == if n == parent && left then elm else old(n.left)
      ensures forall n {:trigger n.right} | n in nodes :: n.right == if n == parent && !left then elm else old(n.right)
      ensures root == if parent == null then elm else old(root)
    {
      elm.parent := parent;
      elm.left := null;
      elm.right := null;
      elm.red := true;
      if parent != null {
        if left {
          parent.left := elm;
        } else {
          parent.right := elm;
        }
      } else {
        root := elm;
      }
    }

    method AttachLeaf(elm: Node, parent: Node?, left: bool, ghost k: int, ghost m': Links, ghost c': Colors,
                      ghost order': seq<Node>)
      requires Mirrors() && Grown(links, m', elm, parent, left, k) && c' == colors[elm := Paint(true, 0)]
      modifies this`root, this`links, this`colors, this`order, links.Keys`left, links.Keys`right
      modifies elm`left, elm`right, elm`parent, elm`red
      ensures Mirrors() && links == m' && colors == c' && order == order'
      ensures root == if parent == null then elm else old(root)
    {
      AssignLeaf(elm, parent, left, links.Keys);
      forall n | n in m'
        ensures n.left == m'[n].left && n.right == m'[n].right && n.parent == m'[n].parent && n.red == c'[n].red
      {
        if n != elm {
          assert old(n.left == links[n].left);
        }
      }
      links, colors, order := m', c', order';
    }

    /** The descent of RB_INSERT: the node with elm's key, or the empty place where it belongs. */
    method FindSlot(elm: Node) returns (dup: Node?, parent: Node?, comp: int, ghost k: nat)
      requires Valid()
      ensures dup != null ==> dup in links && dup.path == elm.path
      ensures dup == null ==> IsSlot(links, parent, comp < 0, k) && Splits(order, k, elm.path)
    {
      var tmp := root;
      dup, parent, comp, k := null, null, 0, 0;
      ghost var lo, hi := 0, |order|;
      while tmp != null
        invariant 0 <= lo <= hi <= |order| && Apart(order, lo, hi, elm.path)
        invariant tmp != null ==> tmp in links && links[tmp].lo == lo && links[tmp].hi == hi
        invariant tmp == null ==> lo == hi && IsSlot(links, parent, comp < 0, lo)
        decreases hi - lo
      {
        Seen(tmp);
        assert Local(links, root, |order|, tmp);
        parent := tmp;
        comp := StrCmp(elm.path, parent.path);
        ghost var pos := links[tmp].pos;
        assert order[pos] == tmp;
        if comp < 0 {
          Narrow(order, lo, hi, pos, elm.path);
          tmp := tmp.left;
          hi := pos;
        } else if comp > 0 {
          Narrow(order, lo, hi, pos, elm.path);
          tmp := tmp.right;
          lo := pos + 1;
        } else {
          return tmp, null, 0, 0;
        }
      }
      k := lo;
    }

    method Place(elm: Node, parent: Node?, left: bool, ghost k: nat)
      requires Mirrors() && elm !in links && IsSlot(links, parent, left, k) && k <= |order|
      requires Linked(links, root, |order|) && Indexed(links, order) && Balanced(links, colors, root)
      modifies this`root, this`links, this`colors, this`order, links.Keys`left, links.Keys`right
      modifies elm`left, elm`right, elm`parent, elm`red
      ensures Mirrors() && Linked(links, root, |order|) && Indexed(links, order) && RedAt(links, colors, root, elm)
      ensures links.Keys == old(links.Keys) + {elm} && order == InsertAt(old(order), k, elm)
    {
      ghost var m' := Growth(links, colors, root, order, elm, parent, left, k);
      AttachLeaf(elm, parent, left, k, m', colors[elm := Paint(true, 0)], InsertAt(order, k, elm));
    }

    /** Links elm in at its place and mends the colours. */
    method InsertAtSlot(elm: Node, parent: Node?, left: bool, ghost k: nat)
      requires Shaped() && Balanced(links, colors, root) && elm !in links && IsSlot(links, parent, left, k)
               && k <= |order|
      modifies this`root, this`links, this`colors, this`order, links.Keys`left, links.Keys`right, links.Keys`parent,
               links.Keys`red
      modifies elm`left, elm`right, elm`parent, elm`red
      ensures Shaped() && Balanced(links, colors, root)
      ensures links.Keys == old(links.Keys) + {elm} && order == InsertAt(old(order), k, elm)
    {
      Place(elm, parent, left, k);
      InsertColor(elm);
    }

    /** RB_INSERT: links elm in, or hands back the node that already has its key and changes nothing. */
    method Insert(elm: Node) returns (dup: Node?, ghost k: nat)
      requires Valid()
      modifies this`root, this`links, this`colors, this`order, links.Keys`left, links.Keys`right, links.Keys`parent,
               links.Keys`red
      modifies elm`left, elm`right, elm`parent, elm`red
      ensures Valid()
      ensures dup != null ==> dup in links && dup.path == elm.path && (elm in links ==> dup == elm)
      ensures dup != null ==> root == old(root) && links == old(links) && colors == old(colors) && order == old(order)
      ensures dup == null ==> links.Keys == old(links.Keys) + {elm} && elm !in old(links)
      ensures dup == null ==> k <= |old(order)| && order == InsertAt(old(order), k, elm)
      ensures dup == null ==> forall n {:trigger n.path} | n in old(links).Keys :: n.path != elm.path
    {
      var parent, comp;
      dup, parent, comp, k := FindSlot(elm);
      if dup != null {
        if elm in links { SamePath(links, order, dup, elm); }
        return;
      }
      SplitsAbsent(links, order, k, elm.path);
      InsertSorted(order, k, elm);
      InsertAtSlot(elm, parent, comp < 0, k);
    }

    // ----- removal

    /** Case 4's colours: tmp takes parent's, parent and far turn black. */
    method PassColor(parent: Node, tmp: Node, far: Node, ghost c': Colors)
      requires Mirrors() && parent in links && tmp in links && far in links && parent != tmp && tmp != far
               && parent != far
      requires Passed(colors, c', parent, tmp, far)
      modifies this`colors, parent`red, tmp`red, far`red
      ensures Mirrors() && colors == c'
    {
      assert parent.left == links[parent].left;
      tmp.red := parent.red;
      parent.red := false;
      far.red := false;
      colors := c';
    }

    /** Case 2: a black sibling without red children turns red, and the shortage moves up. */
    method Redden(parent: Node, tmp: Node, ghost elm: Node?) returns (elm': Node?, parent': Node?)
      requires Shaped() && ShortAt(links, colors, root, parent, elm) && !IsRed(colors, elm) && !IsRed(colors, tmp)
      requires Beside(links, parent, elm, tmp) && tmp in links
      requires !IsRed(colors, links[tmp].left) && !IsRed(colors, links[tmp].right)
      modifies this`colors, links.Keys`red
      ensures Shaped() && ShortAt(links, colors, root, parent', elm') && elm' == parent
              && IsRed(colors, parent) == old(IsRed(colors, parent))
      ensures parent' != null ==> Span(links, parent') > Span(links, parent)
      ensures parent' == null ==> elm' == root
    {
      ghost var c' := Reddening(links, colors, root, |order|, parent, elm, tmp);
      SetColor(tmp, true, c');
      elm' := parent;
      Seen(elm');
      parent' := elm'.parent;
    }

    /** Case 1: a red sibling is rotated up. */
    method RaiseRedLeft(parent: Node, tmp: Node, ghost elm: Node?)
      requires Shaped() && ShortAt(links, colors, root, parent, elm) && !IsRed(colors, elm)
      requires parent in links && links[parent].left == elm && links[parent].right == tmp && IsRed(colors, tmp)
      modifies this`root, this`links, this`colors, links.Keys`left, links.Keys`right, links.Keys`parent, links.Keys`red
      ensures Shaped() && links.Keys == old(links.Keys) && ShortAt(links, colors, root, parent, elm)
      ensures !IsRed(colors, elm) && parent in links && links[parent].left == elm
              && !IsRed(colors, links[parent].right) && IsRed(colors, parent)
    {
      ghost var c' := RedSiblingStepLeft(links, colors, root, |order|, parent, tmp, elm);
      SetBlackRed(tmp, parent, c');
      RotateLeft(parent);
    }

    /** Case 3: the sibling's near child is rotated up. */
    method RaiseNearLeft(parent: Node, tmp: Node, ghost elm: Node?)
      requires Shaped() && ShortAt(links, colors, root, parent, elm) && !IsRed(colors, elm) && !IsRed(colors, tmp)
      requires parent in links && links[parent].left == elm && links[parent].right == tmp
      requires tmp in links && IsRed(colors, links[tmp].left) && !IsRed(colors, links[tmp].right)
      modifies this`root, this`links, this`colors, links.Keys`left, links.Keys`right, links.Keys`parent, links.Keys`red
      ensures Shaped() && links.Keys == old(links.Keys) && ShortAt(links, colors, root, parent, elm)
      ensures !IsRed(colors, elm) && parent in links && links[parent].left == elm && !IsRed(colors, links[parent].right)
      ensures links[parent].right in links && IsRed(colors, links[links[parent].right].right)
    {
      ghost var c' := NearStepLeft(links, colors, root, |order|, parent, tmp, elm);
      Seen(tmp);
      SetBlackRed(tmp.left, tmp, c');
      RotateRight(tmp);
    }

    /** Case 4: the sibling is rotated up with the parent's colour. */
    method RaiseFarLeft(parent: Node, tmp: Node, ghost elm: Node?)
      requires Shaped() && ShortAt(links, colors, root, parent, elm) && !IsRed(colors, elm) && !IsRed(colors, tmp)
      requires parent in links && links[parent].left == elm && links[parent].right == tmp
      requires tmp in links && IsRed(colors, links[tmp].right)
      modifies this`root, this`links, this`colors, links.Keys`left, links.Keys`right, links.Keys`parent, links.Keys`red
      ensures Shaped() && links.Keys == old(links.Keys) && Balanced(links, colors, root)
    {
      ghost var c' := FarStepLeft(links, colors, root, |order|, parent, tmp, elm);
      Seen(tmp);
      PassColor(parent, tmp, tmp.right, c');
      RotateLeft(parent);
    }

    /** The removal fix-up step for a shortage on the left of parent. */
    method RefillLeft(elm: Node?, parent: Node) returns (elm': Node?, parent': Node?)
      requires Shaped() && ShortAt(links, colors, root, parent, elm) && !IsRed(colors, elm)
      requires parent in links && links[parent].left == elm
      modifies this`root, this`links, this`colors, links.Keys`left, links.Keys`right, links.Keys`parent, links.Keys`red
      ensures Shaped() && links.Keys == old(links.Keys) && ShortAt(links, colors, root, parent', elm')
      ensures IsRed(colors, elm') || elm' == root
              || (parent' != null && Span(links, parent') > Span(old(links), parent))
    {
      SiblingLeft(links, colors, root, |order|, parent, elm);
      Seen(parent);
      var tmp := parent.right;
      if tmp.red {
        RaiseRedLeft(parent, tmp, elm);
      }
      elm', parent' := FillLeft(elm, parent);
    }

    method FillLeft(elm: Node?, parent: Node) returns (elm': Node?, parent': Node?)
      requires Shaped() && ShortAt(links, colors, root, parent, elm) && !IsRed(colors, elm)
      requires parent in links && links[parent].left == elm && !IsRed(colors, links[parent].right)
      requires elm == null ==> links[parent].right != null
      modifies this`root, this`links, this`colors, links.Keys`left, links.Keys`right, links.Keys`parent, links.Keys`red
      ensures Shaped() && links.Keys == old(links.Keys) && ShortAt(links, colors, root, parent', elm')
      ensures old(IsRed(colors, parent)) ==> IsRed(colors, elm') || elm' == root
      ensures IsRed(colors, elm') || elm' == root
              || (parent' != null && Span(links, parent') > Span(old(links), parent))
    {
      SiblingLeft(links, colors, root, |order|, parent, elm);
      Seen(parent);
      var tmp := parent.right;
      Seen(tmp);
      if (tmp.left == null || !tmp.left.red) && (tmp.right == null || !tmp.right.red) {
        elm', parent' := Redden(parent, tmp, elm);
      } else {
        if tmp.right == null || !tmp.right.red {
          RaiseNearLeft(parent, tmp, elm);
        }
        LastRaiseLeft(parent, elm);
        elm', parent' := root, null;
      }
    }

    method LastRaiseLeft(parent: Node, ghost elm: Node?)
      requires Shaped() && ShortAt(links, colors, root, parent, elm) && !IsRed(colors, elm)
      requires parent in links && links[parent].left == elm && links[parent].right in links
      requires !IsRed(colors, links[parent].right) && IsRed(colors, links[links[parent].right].right)
      modifies this`root, this`links, this`colors, links.Keys`left, links.Keys`right, links.Keys`parent, links.Keys`red
      ensures Shaped() && links.Keys == old(links.Keys) && ShortAt(links, colors, root, null, root)
    {
      Seen(parent);
      var tmp := parent.right;
      RaiseFarLeft(parent, tmp, elm);
      BalancedShort(links, colors, root, |order|);
    }

    /** Case 1: a red sibling is rotated up. */
    method RaiseRedRight(parent: Node, tmp: Node, ghost elm: Node?)
      requires Shaped() && ShortAt(links, colors, root, parent, elm) && !IsRed(colors, elm)
      requires parent in links && links[parent].right == elm && links[parent].left == tmp && IsRed(colors, tmp)
      modifies this`root, this`links, this`colors, links.Keys`left, links.Keys`right, links.Keys`parent, links.Keys`red
      ensures Shaped() && links.Keys == old(links.Keys) && ShortAt(links, colors, root, parent, elm)
      ensures !IsRed(colors, elm) && parent in links && links[parent].right == elm
              && !IsRed(colors, links[parent].left) && IsRed(colors, parent)
    {
      ghost var c' := RedSiblingStepRight(links, colors, root, |order|, parent, tmp, elm);
      SetBlackRed(tmp, parent, c');
      RotateRight(parent);
    }

    /** Case 3: the sibling's near child is rotated up. */
    method RaiseNearRight(parent: Node, tmp: Node, ghost elm: Node?)
      requires Shaped() && ShortAt(links, colors, root, parent, elm) && !IsRed(colors, elm) && !IsRed(colors, tmp)
      requires parent in links && links[parent].right == elm && links[parent].left == tmp
      requires tmp in links && IsRed(colors, links[tmp].right) && !IsRed(colors, links[tmp].left)
      modifies this`root, this`links, this`colors, links.Keys`left, links.Keys`right, links.Keys`parent, links.Keys`red
      ensures Shaped() && links.Keys == old(links.Keys) && ShortAt(links, colors, root, parent, elm)
      ensures !IsRed(colors, elm) && parent in links && links[parent].right == elm && !IsRed(colors, links[parent].left)
      ensures links[parent].left in links && IsRed(colors, links[links[parent].left].left)
    {
      ghost var c' := NearStepRight(links, colors, root, |order|, parent, tmp, elm);
      Seen(tmp);
      SetBlackRed(tmp.right, tmp, c');
      RotateLeft(tmp);
    }

    /** Case 4: the sibling is rotated up with the parent's colour. */
    method RaiseFarRight(parent: Node, tmp: Node, ghost elm: Node?)
      requires Shaped() && ShortAt(links, colors, root, parent, elm) && !IsRed(colors, elm) && !IsRed(colors, tmp)
      requires parent in links && links[parent].right == elm && links[parent].left == tmp
      requires tmp in links && IsRed(colors, links[tmp].left)
      modifies this`root, this`links, this`colors, links.Keys`left, links.Keys`right, links.Keys`parent, links.Keys`red
      ensures Shaped() && links.Keys == old(links.Keys) && Balanced(links, colors, root)
    {
      ghost var c' := FarStepRight(links, colors, root, |order|, parent, tmp, elm);
      Seen(tmp);
      PassColor(parent, tmp, tmp.left, c');
      RotateRight(parent);
    }

    /** The removal fix-up step for a shortage on the right of parent. */
    method RefillRight(elm: Node?, parent: Node) returns (elm': Node?, parent': Node?)
      requires Shaped() && ShortAt(links, colors, root, parent, elm) && !IsRed(colors, elm)
      requires parent in links && links[parent].right == elm && links[parent].left != elm
      modifies this`root, this`links, this`colors, links.Keys`left, links.Keys`right, links.Keys`parent, links.Keys`red
      ensures Shaped() && links.Keys == old(links.Keys) && ShortAt(links, colors, root, parent', elm')
      ensures IsRed(colors, elm') || elm' == root
              || (parent' != null && Span(links, parent') > Span(old(links), parent))
    {
      SiblingRight(links, colors, root, |order|, parent, elm);
      Seen(parent);
      var tmp := parent.left;
      if tmp.red {
        RaiseRedRight(parent, tmp, elm);
      }
      elm', parent' := FillRight(elm, parent);
    }

    method FillRight(elm: Node?, parent: Node) returns (elm': Node?, parent': Node?)
      requires Shaped() && ShortAt(links, colors, root, parent, elm) && !IsRed(colors, elm)
      requires parent in links && links[parent].right == elm && !IsRed(colors, links[parent].left)
      requires elm == null ==> links[parent].left != null
      modifies this`root, this`links, this`colors, links.Keys`left, links.Keys`right, links.Keys`parent, links.Keys`red
      ensures Shaped() && links.Keys == old(links.Keys) && ShortAt(links, colors, root, parent', elm')
      ensures old(IsRed(colors, parent)) ==> IsRed(colors, elm') || elm' == root
      ensures IsRed(colors, elm') || elm' == root
              || (parent' != null && Span(links, parent') > Span(old(links), parent))
    {
      SiblingRight(links, colors, root, |order|, parent, elm);
      Seen(parent);
      var tmp := parent.left;
      Seen(tmp);
      if (tmp.left == null || !tmp.left.red) && (tmp.right == null || !tmp.right.red) {
        elm', parent' := Redden(parent, tmp, elm);
      } else {
        if tmp.left == null || !tmp.left.red {
          RaiseNearRight(parent, tmp, elm);
        }
        LastRaiseRight(parent, elm);
        elm', parent' := root, null;
      }
    }

    method LastRaiseRight(parent: Node, ghost elm: Node?)
      requires Shaped() && ShortAt(links, colors, root, parent, elm) && !IsRed(colors, elm)
      requires parent in links && links[parent].right == elm && links[parent].left in links
      requires !IsRed(colors, links[parent].left) && IsRed(colors, links[links[parent].left].left)
      modifies this`root, this`links, this`colors, links.Keys`left, links.Keys`right, links.Keys`parent, links.Keys`red
      ensures Shaped() && links.Keys == old(links.Keys) && ShortAt(links, colors, root, null, root)
    {
      Seen(parent);
      var tmp := parent.left;
      RaiseFarRight(parent, tmp, elm);
      BalancedShort(links, colors, root, |order|);
    }

    method Refill(elm: Node?, parent: Node) returns (elm': Node?, parent': Node?)
      requires Shaped() && ShortAt(links, colors, root, parent, elm) && !IsRed(colors, elm)
      modifies this`root, this`links, this`colors, links.Keys`left, links.Keys`right, links.Keys`parent, links.Keys`red
      ensures Shaped() && links.Keys == old(links.Keys) && ShortAt(links, colors, root, parent', elm')
      ensures IsRed(colors, elm') || elm' == root
              || (parent' != null && Span(links, parent') > Span(old(links), parent))
    {
      Seen(parent);
      if parent.left == elm {
        elm', parent' := RefillLeft(elm, parent);
      } else {
        elm', parent' := RefillRight(elm, parent);
      }
    }

    /** RB_REMOVE_COLOR: makes up the missing black node on the path through parent to elm. */
    method RemoveColor(parent: Node?, elm: Node?)
      requires Shaped() && ShortAt(links, colors, root, parent, elm)
      modifies this`root, this`links, this`colors, links.Keys`left, links.Keys`right, links.Keys`parent, links.Keys`red
      ensures Shaped() && Balanced(links, colors, root) && links.Keys == old(links.Keys)
    {
      var x, p := elm, parent;
      ghost var open := ShortOpen(x);
      while (x == null || !x.red) && x != root
        invariant Shaped() && links.Keys == old(links.Keys) && ShortAt(links, colors, root, p, x)
        invariant open == ((x == null || !x.red) && x != root) == (!IsRed(colors, x) && x != root)
        decreases open, if p == null then 0 else |order| - Span(links, p)
      {
        assert Local(links, root, |order|, p);
        x, p := Refill(x, p);
        open := ShortOpen(x);
      }
      if x != null {
        Settle(p, x);
      } else {
        assert root == null;
      }
    }

    ghost method ShortOpen(x: Node?) returns (open: bool)
      requires Shaped() && (x != null ==> x in links)
      ensures open == ((x == null || !x.red) && x != root) == (!IsRed(colors, x) && x != root)
    {
      open := !IsRed(colors, x) && x != root;
      if x != null {
        Seen(x);
      }
    }

    method Settle(ghost parent: Node?, elm: Node)
      requires Shaped() && ShortAt(links, colors, root, parent, elm) && (IsRed(colors, elm) || elm == root)
      modifies this`colors, links.Keys`red
      ensures Shaped() && Balanced(links, colors, root)
    {
      ghost var c := colors;
      SetColor(elm, false, c[elm := Paint(false, c[elm].bh + 1 - Weight(c[elm].red))]);
      Settled(links, c, colors, root, |order|, parent, elm);
    }

    method AssignSplice(y: Node, child: Node?, parent: Node?, ghost nodes: set<Node>)
      requires y in nodes && y.parent == parent && (child != null ==> child in nodes)
               && (parent != null ==> parent in nodes)
      requires child != null ==> child != y && child != parent
      modifies this`root, nodes`left, nodes`right, nodes`parent
      ensures root == if parent == null then child else old(root)
      ensures forall n {:trigger n.left} | n in nodes ::
                n.left == if n == parent && old(n.left) == y then child else old(n.left)
      ensures forall n {:trigger n.right} | n in nodes ::
                n.right == if n == parent && old(n.left) != y then child else old(n.right)
      ensures forall n {:trigger n.parent} | n in nodes :: n.parent == if n == child then parent else old(n.parent)
    {
      if child != null {
        child.parent := parent;
      }
      if parent != null {
        if parent.left == y {
          parent.left := child;
        } else {
          parent.right := child;
        }
      } else {
        root := child;
      }
    }

    method CutOut(y: Node, child: Node?, parent: Node?, ghost m': Links, ghost order': seq<Node>)
      requires Mirrors() && y in links && links[y].parent == parent && Spliced(links, m', y, child, parent)
      requires y != child && y != parent && (child != null ==> child != parent)
      modifies this`root, this`links, this`colors, this`order, links.Keys`left, links.Keys`right, links.Keys`parent
      ensures Mirrors() && links == m' && colors == old(colors) - {y} && order == order'
      ensures root == if parent == null then child else old(root)
      ensures y.parent == old(y.parent)
    {
      assert y.parent == links[y].parent;
      AssignSplice(y, child, parent, links.Keys);
      links, colors, order := m', colors - {y}, order';
    }

    /** Takes y, which has at most the one child, out of the tree. */
    method Splice(y: Node, child: Node?, parent: Node?)
      requires Shaped() && Balanced(links, colors, root) && y in links && links[y].parent == parent
      requires (links[y].left == null && child == links[y].right) || (links[y].right == null && child == links[y].left)
      modifies this`root, this`links, this`colors, this`order, links.Keys`left, links.Keys`right, links.Keys`parent
      ensures Shaped() && colors == old(colors) - {y} && y.parent == parent
      ensures Spliced(old(links), links, y, child, parent) && 0 <= old(links)[y].pos < |old(order)|
      ensures order == RemoveAt(old(order), old(links)[y].pos)
      ensures if old(colors)[y].red then Balanced(links, colors, root) else ShortAt(links, colors, root, parent, child)
    {
      ghost var m' := Splicing(links, colors, root, order, y, child);
      CutOut(y, child, parent, m', RemoveAt(order, links[y].pos));
    }

    method AssignPlace(was: Node, y: Node, ghost nodes: set<Node>)
      requires was in nodes && y !in nodes && was.left != null && was.left in nodes && was.left != was
      requires was.right != null ==>
                 was.right in nodes && was.right != was && was.right != was.left && was.right != was.parent
      requires was.parent != null ==> was.parent in nodes && was.parent != was && was.parent != was.left
      modifies this`root, nodes`left, nodes`right, nodes`parent, y`left, y`right, y`parent, y`red
      ensures root == if old(was.parent) == null then y else old(root)
      ensures y.left == old(was.left) && y.right == old(was.right) && y.parent == old(was.parent)
              && y.red == old(was.red)
      ensures forall n {:trigger n.left} | n in nodes ::
                n.left == if n == old(was.parent) && old(n.left) == was then y else old(n.left)
      ensures forall n {:trigger n.right} | n in nodes ::
                n.right == if n == old(was.parent) && old(n.left) != was then y else old(n.right)
      ensures forall n {:trigger n.parent} | n in nodes ::
                n.parent == if n == old(was.left) || n == old(was.right) then y else old(n.parent)
    {
      y.left, y.right, y.parent, y.red := was.left, was.right, was.parent, was.red;
      if was.parent != null {
        if was.parent.left == was {
          was.parent.left := y;
        } else {
          was.parent.right := y;
        }
      } else {
        root := y;
      }
      was.left.parent := y;
      if was.right != null {
        was.right.parent := y;
      }
    }

    method PutInPlace(was: Node, y: Node, ghost m': Links, ghost c': Colors, ghost order': seq<Node>)
      requires Mirrors() && Replaced(links, m', was, y) && c' == (colors - {was})[y := colors[was]]
      requires links[was].left != null && links[was].left != was
      requires links[was].right != null ==>
                 && links[was].right != was && links[was].right != links[was].left
                 && links[was].right != links[was].parent
      requires links[was].parent != null ==> links[was].parent != was && links[was].parent != links[was].left
      modifies this`root, this`links, this`colors, this`order, links.Keys`left, links.Keys`right, links.Keys`parent
      modifies y`left, y`right, y`parent, y`red
      ensures Mirrors() && links == m' && colors == c' && order == order'
      ensures root == if old(links)[was].parent == null then y else old(root)
    {
      ghost var m := links;
      assert was.left == m[was].left;
      AssignPlace(was, y, m.Keys);
      forall n | n in m'
        ensures n.left == m'[n].left && n.right == m'[n].right && n.parent == m'[n].parent && n.red == c'[n].red
      {
        if n != y {
          assert old(n.left == links[n].left);
          ReplacedFields(m, m', was, y, n);
        }
      }
      links, colors, order := m', c', order';
    }

    /** Moves y, which is not in the tree, to where was stands. */
    method TakePlace(was: Node, y: Node, ghost red: bool, ghost parent: Node?, ghost child: Node?)
      requires Shaped() && was in links && y !in links && links[was].left != null && child != was
      requires if red then Balanced(links, colors, root) else ShortAt(links, colors, root, parent, child)
      modifies this`root, this`links, this`colors, this`order, links.Keys`left, links.Keys`right, links.Keys`parent
      modifies y`left, y`right, y`parent, y`red
      ensures Shaped() && links.Keys == old(links.Keys) - {was} + {y}
      ensures 0 <= old(links)[was].pos < |old(order)| && order == old(order)[old(links)[was].pos := y]
      ensures if red then Balanced(links, colors, root)
              else ShortAt(links, colors, root, if parent == was then y else parent, child)
    {
      assert links.Keys == colors.Keys;
      ghost var m', c' := Replacing(links, colors, root, order, was, y, parent, child);
      PutInPlace(was, y, m', c', order[links[was].pos := y]);
    }

    /** The first node of the subtree at n. */
    method Leftmost(n: Node) returns (y: Node)
      requires Shaped() && n in links
      ensures y in links && links[y].left == null && links[y].pos == links[n].lo
    {
      y := n;
      Seen(y);
      assert Local(links, root, |order|, y);
      while y.left != null
        invariant y in links && links[y].lo == links[n].lo && y.left == links[y].left && Local(links, root, |order|, y)
        decreases links[y].hi - links[y].lo
      {
        y := y.left;
        Seen(y);
        assert Local(links, root, |order|, y);
      }
    }

    /** The last node of the subtree at n. */
    method Rightmost(n: Node) returns (y: Node)
      requires Shaped() && n in links
      ensures y in links && links[y].right == null && links[y].pos + 1 == links[n].hi
    {
      y := n;
      Seen(y);
      assert Local(links, root, |order|, y);
      while y.right != null
        invariant y in links && links[y].hi == links[n].hi && y.right == links[y].right
                  && Local(links, root, |order|, y)
        decreases links[y].hi - links[y].lo
      {
        y := y.right;
        Seen(y);
        assert Local(links, root, |order|, y);
      }
    }

    /** Splices out the successor y of was. */
    method SpliceSuccessor(was: Node, y: Node) returns (parent: Node?, child: Node?, red: bool)
      requires Shaped() && Balanced(links, colors, root) && was in links && links[was].left != null
               && links[was].right != null
      requires y in links && links[y].left == null && links[y].pos == links[was].pos + 1
      modifies this`root, this`links, this`colors, this`order, links.Keys`left, links.Keys`right, links.Keys`parent
      ensures Shaped() && links.Keys == old(links.Keys) - {y} && y != was && child != was && y.parent == parent
      ensures was in links && links[was].left != null && links[was].pos == old(links)[was].pos
      ensures 0 <= links[was].pos < |order| && RemoveAt(old(order), links[was].pos) == order[links[was].pos := y]
      ensures if red then Balanced(links, colors, root) else ShortAt(links, colors, root, parent, child)
    {
      ghost var m, k := links, links[was].pos;
      Seen(y);
      SuccessorFacts(m, root, order, was, y);
      child := y.right;
      parent := y.parent;
      red := y.red;
      SuccessorOrder(order, k, y);
      Splice(y, child, parent);
      SuccessorSpliced(m, links, was, y, child, parent);
    }

    /** Splices out the successor y of was and lets it stand in for was. */
    method ReplaceBySuccessor(was: Node, y: Node) returns (parent: Node?, child: Node?, red: bool)
      requires Shaped() && Balanced(links, colors, root) && was in links && links[was].left != null
               && links[was].right != null
      requires y in links && links[y].left == null && links[y].pos == links[was].pos + 1
      modifies this`root, this`links, this`colors, this`order, links.Keys`left, links.Keys`right, links.Keys`parent,
               links.Keys`red
      ensures Shaped() && links.Keys == old(links.Keys) - {was}
      ensures 0 <= old(links)[was].pos < |old(order)| && order == RemoveAt(old(order), old(links)[was].pos)
      ensures if red then Balanced(links, colors, root) else ShortAt(links, colors, root, parent, child)
    {
      ghost var all := links.Keys;
      parent, child, red := SpliceSuccessor(was, y);
      ghost var p0 := parent;
      if y.parent == was {
        parent := y;
      }
      ghost var rest := links.Keys;
      TakePlace(was, y, red, p0, child);
      TradePlaces(all, rest, links.Keys, was, y);
    }

    /** RB_REMOVE for a node with two children. */
    method RemoveInner(was: Node)
      requires Shaped() && Balanced(links, colors, root) && was in links && links[was].left != null
               && links[was].right != null
      modifies this`root, this`links, this`colors, this`order, links.Keys`left, links.Keys`right, links.Keys`parent,
               links.Keys`red
      ensures Shaped() && Balanced(links, colors, root) && links.Keys == old(links.Keys) - {was}
      ensures 0 <= old(links)[was].pos < |old(order)| && order == RemoveAt(old(order), old(links)[was].pos)
    {
      Seen(was);
      assert Local(links, root, |order|, was);
      var y := Leftmost(was.right);
      var parent, child, red := ReplaceBySuccessor(was, y);
      if !red {
        RemoveColor(parent, child);
      }
    }

    method RemoveOuter(was: Node, child: Node?)
      requires Shaped() && Balanced(links, colors, root) && was in links
      requires (links[was].left == null && child == links[was].right)
               || (links[was].right == null && child == links[was].left)
      modifies this`root, this`links, this`colors, this`order, links.Keys`left, links.Keys`right, links.Keys`parent,
               links.Keys`red
      ensures Shaped() && Balanced(links, colors, root) && links.Keys == old(links.Keys) - {was}
      ensures 0 <= old(links)[was].pos < |old(order)| && order == RemoveAt(old(order), old(links)[was].pos)
    {
      Seen(was);
      var parent := was.parent;
      var red := was.red;
      Splice(was, child, parent);
      if !red {
        RemoveColor(parent, child);
      }
    }

    /** RB_REMOVE: takes the node elm out; no other node leaves, enters or is copied. */
    method Remove(elm: Node) returns (was: Node)
      requires Valid() && elm in links
      modifies this`root, this`links, this`colors, this`order, links.Keys`left, links.Keys`right, links.Keys`parent,
               links.Keys`red
      ensures Valid() && was == elm && links.Keys == old(links.Keys) - {elm}
      ensures var k := old(links)[elm].pos;
              0 <= k < |old(order)| && old(order)[k] == elm && order == RemoveAt(old(order), k)
    {
      was := elm;
      ghost var k := links[elm].pos;
      assert order[k] == elm;
      RemoveSorted(order, k);
      Seen(elm);
      if elm.left == null {
        RemoveOuter(elm, elm.right);
      } else if elm.right == null {
        RemoveOuter(elm, elm.left);
      } else {
        RemoveInner(elm);
      }
    }

    // ----- lookups and traversal

    /** RB_FIND: the node with the key, if there is one. */
    method Find(path: Str) returns (res: Node?)
      requires Shaped() && Sorted(order)
      ensures res != null ==> res in links && res.path == path
      ensures res == null ==> forall n | n in links :: n.path != path
    {
      var tmp := root;
      ghost var lo, hi := 0, |order|;
      while tmp != null
        invariant 0 <= lo <= hi <= |order| && Apart(order, lo, hi, path)
        invariant if tmp == null then lo == hi else tmp in links && links[tmp].lo == lo && links[tmp].hi == hi
        decreases hi - lo
      {
        Seen(tmp);
        assert Local(links, root, |order|, tmp);
        var comp := StrCmp(path, tmp.path);
        ghost var pos := links[tmp].pos;
        assert order[pos] == tmp;
        Narrow(order, lo, hi, pos, path);
        if comp < 0 {
          tmp := tmp.left;
          hi := pos;
        } else if comp > 0 {
          tmp := tmp.right;
          lo := pos + 1;
        } else {
          return tmp;
        }
      }
      res := null;
      forall n | n in links
        ensures n.path != path
      {
        assert order[links[n].pos] == n;
      }
    }

    /** RB_NFIND: the first node whose key is not below the given one. */
    method NFind(path: Str) returns (res: Node?)
      requires Shaped() && Sorted(order)
      ensures exists k: nat :: Ceiling(order, k, path) && res == if k < |order| then order[k] else null
    {
      var tmp := root;
      res := null;
      ghost var lo, hi := 0, |order|;
      while tmp != null
        invariant 0 <= lo <= hi <= |order| && Apart(order, lo, hi, path)
        invariant res == if hi < |order| then order[hi] else null
        invariant if tmp == null then lo == hi else tmp in links && links[tmp].lo == lo && links[tmp].hi == hi
        decreases hi - lo
      {
        Seen(tmp);
        assert Local(links, root, |order|, tmp);
        var comp := StrCmp(path, tmp.path);
        ghost var pos := links[tmp].pos;
        assert order[pos] == tmp;
        Narrow(order, lo, hi, pos, path);
        if comp < 0 {
          res := tmp;
          tmp := tmp.left;
          hi := pos;
        } else if comp > 0 {
          tmp := tmp.right;
          lo := pos + 1;
        } else {
          CeilingAt(order, pos, path);
          return tmp;
        }
      }
      CeilingBetween(order, lo, path);
    }

    /** RB_NEXT: the node after elm in key order. */
    method Next(elm: Node) returns (next: Node?)
      requires Shaped() && elm in links
      ensures 0 <= links[elm].pos < |order|
      ensures next == if links[elm].pos + 1 < |order| then order[links[elm].pos + 1] else null
    {
      Seen(elm);
      assert Local(links, root, |order|, elm);
      assert order[links[elm].pos] == elm;
      if elm.right != null {
        assert Local(links, root, |order|, elm.right);
        next := Leftmost(elm.right);
        assert order[links[next].pos] == next;
      } else if elm.parent != null && elm == elm.parent.left {
        next := elm.parent;
        Seen(next);
        assert Local(links, root, |order|, next);
        assert order[links[next].pos] == next;
      } else {
        next := ClimbFromRight(elm);
      }
    }

    method ClimbFromRight(elm: Node) returns (next: Node?)
      requires Shaped() && elm in links
      ensures next == if 0 <= links[elm].hi < |order| then order[links[elm].hi] else null
    {
      var x := elm;
      Seen(x);
      assert Local(links, root, |order|, x);
      while x.parent != null && x == x.parent.right
        invariant x in links && links[x].hi == links[elm].hi && Local(links, root, |order|, x)
                  && x.parent == links[x].parent
        decreases |order| - (links[x].hi - links[x].lo)
      {
        Seen(x.parent);
        assert Local(links, root, |order|, x.parent);
        x := x.parent;
        Seen(x);
      }
      next := x.parent;
      if next != null {
        Seen(next);
        assert Local(links, root, |order|, next);
        assert order[links[next].pos] == next;
      }
    }

    /** RB_PREV: the node before elm in key order. */
    method Prev(elm: Node) returns (prev: Node?)
      requires Shaped() && elm in links
      ensures 0 <= links[elm].pos < |order|
      ensures prev == if links[elm].pos > 0 then order[links[elm].pos - 1] else null
    {
      Seen(elm);
      assert Local(links, root, |order|, elm);
      assert order[links[elm].pos] == elm;
      if elm.left != null {
        assert Local(links, root, |order|, elm.left);
        prev := Rightmost(elm.left);
        assert order[links[prev].pos] == prev;
      } else if elm.parent != null && elm == elm.parent.right {
        prev := elm.parent;
        Seen(prev);
        assert Local(links, root, |order|, prev);
        assert order[links[prev].pos] == prev;
      } else {
        prev := ClimbFromLeft(elm);
      }
    }

    method ClimbFromLeft(elm: Node) returns (prev: Node?)
      requires Shaped() && elm in links
      ensures prev == if 0 < links[elm].lo <= |order| then order[links[elm].lo - 1] else null
    {
      var x := elm;
      Seen(x);
      assert Local(links, root, |order|, x);
      while x.parent != null && x == x.parent.left
        invariant x in links && links[x].lo == links[elm].lo && Local(links, root, |order|, x)
                  && x.parent == links[x].parent
        decreases |order| - (links[x].hi - links[x].lo)
      {
        Seen(x.parent);
        assert Local(links, root, |order|, x.parent);
        x := x.parent;
        Seen(x);
      }
      prev := x.parent;
      if prev != null {
        Seen(prev);
        assert Local(links, root, |order|, prev);
        assert order[links[prev].pos] == prev;
      }
    }

    /** RB_MINMAX: the first node for a negative val, the last one otherwise. */
    method MinMax(val: int) returns (res: Node?)
      requires Shaped()
      ensures order == [] ==> res == null
      ensures order != [] ==> res == if val < 0 then order[0] else order[|order| - 1]
    {
      var tmp := root;
      res := null;
      ghost var lo, hi := 0, |order|;
      while tmp != null
        invariant 0 <= lo <= hi <= |order|
        invariant tmp != null ==> tmp in links && links[tmp].lo == lo && links[tmp].hi == hi
        invariant tmp != null ==> if val < 0 then lo == 0 else hi == |order|
        invariant tmp == null ==> if order == [] then res == null
                                  else res == if val < 0 then order[0] else order[|order| - 1]
        decreases hi - lo
      {
        Seen(tmp);
        assert Local(links, root, |order|, tmp);
        ghost var pos := links[tmp].pos;
        assert order[pos] == tmp;
        res := tmp;
        if val < 0 {
          tmp := tmp.left;
          hi := pos;
        } else {
          tmp := tmp.right;
          lo := pos + 1;
        }
      }
    }

    /**
     RB_FOREACH_SAFE with RB_REMOVE of the visited node: every node is visited once,
     in key order, the successor saved before each removal stays the next one to
     visit, and the tree ends up empty.
    */
    method Drain() returns (visited: seq<Node>)
      requires Valid()
      modifies this`root, this`links, this`colors, this`order, links.Keys`left, links.Keys`right, links.Keys`parent,
               links.Keys`red
      ensures Valid() && order == [] && links == map[]
      ensures visited == old(order)
    {
      visited := [];
      ghost var all := order;
      var x := MinMax(-1);
      while x != null
        invariant Valid() && links.Keys <= old(links.Keys) && Visited(visited, order, all)
        invariant x == if order == [] then null else order[0]
        decreases |order|
      {
        VisitedNext(visited, order, all);
        visited := visited + [x];
        x := RemoveFirst(x);
      }
      VisitedAll(visited, all);
      NoNodes();
    }

    lemma FirstIn()
      requires Valid() && order != []
      ensures order[0] in links
    {
    }

    lemma NoNodes()
      requires Valid() && order == []
      ensures links == map[]
    {
      EmptyOrder(links, order);
    }

    /** One turn of that loop: the successor is saved, then the node is removed. */
    method RemoveFirst(x: Node) returns (y: Node?)
      requires Valid() && order != [] && x == order[0]
      modifies this`root, this`links, this`colors, this`order, links.Keys`left, links.Keys`right, links.Keys`parent,
               links.Keys`red
      ensures Valid() && links.Keys == old(links.Keys) - {x} && x in old(links)
      ensures order == old(order)[1..] && y == if order == [] then null else order[0]
    {
      assert order[0] in links && links[x].pos == 0;
      y := Next(x);
      FirstRemoved(order);
      var was := Remove(x);
    }

    /** RB_FOREACH: from the first node on, RB_NEXT meets every node once, in key order, and then null. */
    method ForEach() returns (visited: seq<Node>)
      requires Valid()
      ensures visited == order
    {
      visited := [];
      var x := MinMax(-1);
      while x != null
        invariant |visited| <= |order| && visited == order[..|visited|]
        invariant x == if |visited| < |order| then order[|visited|] else null
        decreases |order| - |visited|
      {
        assert order[|visited|] in links && links[x].pos == |visited|;
        var y := Next(x);
        visited := visited + [x];
        x := y;
      }
    }

    // ----- what Valid() says about the nodes' own fields

    /** n's children are nodes of the tree, over the stretches before and after n. */
    lemma Children(n: Node)
      requires Shaped() && n in links
      ensures n.left == links[n].left && n.right == links[n].right && n.red == colors[n].red
      ensures n.left != null ==> n.left in links && links[n.left].lo == links[n].lo && links[n.left].hi == links[n].pos
      ensures n.right != null ==>
                n.right in links && links[n.right].lo == links[n].pos + 1 && links[n.right].hi == links[n].hi
      ensures n.left == null ==> links[n].lo == links[n].pos
      ensures n.right == null ==> links[n].pos + 1 == links[n].hi
      ensures 0 <= links[n].lo <= links[n].pos < links[n].hi <= |order| && order[links[n].pos] == n
    {
      Seen(n);
      assert Local(links, root, |order|, n);
      assert order[links[n].pos] == n;
    }

    ghost function Size(n: Node?): nat
      requires Shaped() && (n != null ==> n in links)
      reads this`root, this`links, this`colors, this`order, links.Keys`left, links.Keys`right, links.Keys`parent,
            links.Keys`red
    {
      if n == null then 0 else assert Local(links, root, |order|, n); links[n].hi - links[n].lo
    }

    /** The nodes below n as a walk over the child links meets them. */
    ghost function InOrder(n: Node?): seq<Node>
      requires Shaped() && (n != null ==> n in links)
      reads this`root, this`links, this`colors, this`order, links.Keys`left, links.Keys`right, links.Keys`parent,
            links.Keys`red
      decreases Size(n)
    {
      if n == null then []
      else
        Children(n);
        InOrder(n.left) + [n] + InOrder(n.right)
    }

    /** The numbers of black nodes on the ways from n down to an empty place. */
    ghost function BlackCounts(n: Node?): set<nat>
      requires Shaped() && (n != null ==> n in links)
      reads this`root, this`links, this`colors, this`order, links.Keys`left, links.Keys`right, links.Keys`parent,
            links.Keys`red
      decreases Size(n)
    {
      if n == null then {0}
      else
        Children(n);
        Plus(BlackCounts(n.left) + BlackCounts(n.right), Weight(n.red))
    }

    ghost function Height(n: Node?): nat
      requires Shaped() && (n != null ==> n in links)
      reads this`root, this`links, this`colors, this`order, links.Keys`left, links.Keys`right, links.Keys`parent,
            links.Keys`red
      decreases Size(n)
    {
      if n == null then 0
      else
        Children(n);
        1 + Max(Height(n.left), Height(n.right))
    }

    lemma {:induction false} InOrderStretch(n: Node)
      requires Shaped() && n in links
      ensures 0 <= links[n].lo <= links[n].hi <= |order| && InOrder(n) == order[links[n].lo..links[n].hi]
      decreases Size(n)
    {
      Children(n);
      if n.left != null {
        InOrderStretch(n.left);
      }
      if n.right != null {
        InOrderStretch(n.right);
      }
      JoinStretch(order, links[n].lo, links[n].pos, links[n].hi, InOrder(n.left), InOrder(n.right));
    }

    /** A walk from the root meets exactly the nodes of the tree, in strictly increasing key order. */
    lemma {:induction false} WalkIsSorted()
      requires Valid()
      ensures InOrder(root) == order && Sorted(InOrder(root)) && links.Keys == set n | n in InOrder(root)
    {
      if root != null {
        InOrderStretch(root);
      }
      IndexedKeys(links, order);
    }

    /** All ways down from a node have the same number of black nodes. */
    lemma {:induction false} SameBlackCount(n: Node?)
      requires Shaped() && Balanced(links, colors, root) && (n != null ==> n in links)
      ensures BlackCounts(n) == {Bh(colors, n)}
      decreases Size(n)
    {
      if n != null {
        Children(n);
        assert Even(links, colors, n);
        SameBlackCount(n.left);
        SameBlackCount(n.right);
        PlusSingle(Bh(colors, n.left), Weight(n.red));
      }
    }

    lemma {:induction false} Bushy(n: Node?)
      requires Shaped() && Balanced(links, colors, root) && (n != null ==> n in links)
      ensures Pow2(Bh(colors, n)) <= 1 + Size(n)
      ensures Height(n) <= 2 * Bh(colors, n) + (if IsRed(colors, n) then 1 else 0)
      decreases Size(n)
    {
      if n != null {
        Children(n);
        assert Even(links, colors, n) && NoRedRed(links, colors, n, null);
        Bushy(n.left);
        Bushy(n.right);
        assert Size(n) == Size(n.left) + 1 + Size(n.right);
      }
    }

    /** The height is at most 2 lg(n + 1). */
    lemma {:induction false} HeightBound()
      requires Valid()
      ensures Pow2(Height(root)) <= (|order| + 1) * (|order| + 1)
    {
      Bushy(root);
      var b := Bh(colors, root);
      Pow2Monotonic(Height(root), 2 * b);
      Pow2Sum(b, b);
      MulMonotonic(Pow2(b), |order| + 1);
    }
  }

  ghost function Plus(s: set<nat>, w: nat): set<nat> {
    set b | b in s :: b + w
  }

  lemma PlusSingle(b: nat, w: nat)
    ensures Plus({b} + {b}, w) == {b + w}
  {
  }

  ghost function Max(a: nat, b: nat): nat {
    if a < b then b else a
  }

  lemma MulMonotonic(a: nat, b: nat)
    requires a <= b
    ensures a * a <= b * b
  {
    assert a * a <= a * b <= b * b;
  }
}
