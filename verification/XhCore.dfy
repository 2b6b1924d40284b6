/** The refresh engine of xh_core: merges maps lines into the tree of known files, moving or freeing every record. */
module XhCore {
  import opened CString
  import opened Wrappers
  import opened RbLinks
  import opened RbTree
  import opened HookFilter
  import opened RefreshSpec

  /** index has n as the record of its path. */
  ghost predicate Lists(index: map<Str, Node>, n: Node) {
    n.path in index && index[n.path] == n
  }

  /** index lists the nodes by path: one record for each path. */
  ghost predicate View(nodes: set<Node>, index: map<Str, Node>)
  {
    && (forall n {:trigger Lists(index, n)} | n in nodes :: Lists(index, n))
    && (forall p {:trigger p in index} | p in index :: index[p] in nodes && index[p].path == p)
  }

  /**
   The books of a refresh: the old tree and the refreshed one as maps from paths to
   records, what the old tree was at the start, and the base address of every record.
  */
  datatype Books = Books(before: map<Str, Node>, after: map<Str, Node>, start: map<Str, Node>, addr: map<Node, nat>)

  /** The nodes of the two trees are those on the books, no record is in both or in one and freed, and none is lost. */
  ghost predicate Balance(T: set<Node>, R: set<Node>, b: Books, made: set<Node>, freed: set<Node>) {
    && View(T, b.before) && View(R, b.after) && T !! R && freed !! T && freed !! R
    && made == T + R + freed && b.addr.Keys == made
  }

  /** The base addresses on the books are those in the records. */
  ghost predicate Addressed(addr: map<Node, nat>)
    reads addr.Keys`baseAddr
  {
    forall n {:trigger addr[n]} | n in addr :: n.baseAddr == addr[n]
  }

  /** index holds exactly the paths of bases, each at its base. */
  ghost predicate Based(index: map<Str, Node>, addr: map<Node, nat>, bases: map<Str, nat>) {
    && (forall p {:trigger p in index} {:trigger p in bases} :: p in index <==> p in bases)
    && (forall p {:trigger index[p]} | p in index && p in bases :: index[p] in addr && addr[index[p]] == bases[p])
  }

  /** Known paths not yet met are as before the refresh; met ones are as its lines have made them. */
  ghost predicate Tracks(b: Books, bases: map<Str, nat>, at: Merge) {
    && Based(b.before, b.addr, bases - at.bases.Keys) && Based(b.after, b.addr, at.bases)
    && (forall p {:trigger p in b.start} {:trigger p in bases} :: p in b.start <==> p in bases)
    && SameRecords(b.start, b.before) && SameRecords(b.start, b.after)
  }

  /** A path that is in both has one record in both. */
  ghost predicate SameRecords(before: map<Str, Node>, after: map<Str, Node>) {
    forall p {:trigger after[p]} | p in after && p in before :: after[p] == before[p]
  }

  ghost function HookIf(cond: bool, path: Str, base: nat): seq<Call> {
    if cond then [Call(path, base)] else []
  }

  /** The books after mi moved over with the base. */
  ghost function Moved(b: Books, mi: Node, base: nat): Books {
    Books(b.before - {mi.path}, b.after[mi.path := mi], b.start, b.addr[mi := base])
  }

  /** The books after mi was made and put in the refreshed tree. */
  ghost function Made(b: Books, mi: Node, base: nat): Books {
    Books(b.before, b.after[mi.path := mi], b.start, b.addr[mi := base])
  }

  lemma ViewWithout(nodes: set<Node>, index: map<Str, Node>, mi: Node)
    requires View(nodes, index) && mi in nodes
    ensures View(nodes - {mi}, index - {mi.path}) && Lists(index, mi)
  {
    assert Lists(index, mi);
    forall n | n in nodes - {mi}
      ensures Lists(index - {mi.path}, n)
    {
      assert Lists(index, n);
    }
  }

  lemma ViewWith(nodes: set<Node>, index: map<Str, Node>, mi: Node)
    requires View(nodes, index) && mi.path !in index
    ensures View(nodes + {mi}, index[mi.path := mi]) && mi !in nodes
    ensures forall n {:trigger n.path} | n in nodes :: n.path != mi.path
  {
    forall n | n in nodes
      ensures Lists(index[mi.path := mi], n) && n.path != mi.path && n != mi
    {
      assert Lists(index, n);
    }
  }

  lemma BalanceMoved(T: set<Node>, R: set<Node>, b: Books, made: set<Node>, freed: set<Node>, mi: Node, base: nat)
    requires Balance(T, R, b, made, freed) && mi in T && mi.path !in b.after
    ensures Balance(T - {mi}, R + {mi}, Moved(b, mi, base), made, freed)
    ensures forall n {:trigger n.path} | n in R :: n.path != mi.path
  {
    ViewWithout(T, b.before, mi);
    ViewWith(R, b.after, mi);
    assert Moved(b, mi, base).addr.Keys == b.addr.Keys;
  }

  lemma BalanceMade(T: set<Node>, R: set<Node>, b: Books, made: set<Node>, freed: set<Node>, mi: Node, base: nat)
    requires Balance(T, R, b, made, freed) && mi !in made && mi.path !in b.after
    ensures Balance(T, R + {mi}, Made(b, mi, base), made + {mi}, freed)
  {
    ViewWith(R, b.after, mi);
    assert Made(b, mi, base).addr.Keys == b.addr.Keys + {mi};
  }

  lemma BalanceDiscarded(T: set<Node>, R: set<Node>, b: Books, made: set<Node>, freed: set<Node>, mi: Node, base: nat)
    requires Balance(T, R, b, made, freed) && mi !in made
    ensures Balance(T, R, b.(addr := b.addr[mi := base]), made + {mi}, freed + {mi})
  {
    assert b.addr[mi := base].Keys == b.addr.Keys + {mi};
  }

  /** What is left in the old tree when it is freed. */
  lemma BalanceSwept(T: set<Node>, R: set<Node>, b: Books, made: set<Node>, freed: set<Node>)
    requires Balance(T, R, b, made, freed)
    ensures Balance({}, R, b.(before := map[]), made, freed + T)
  {
  }

  lemma TracksMoved(T: set<Node>, R: set<Node>, b: Books, made: set<Node>, freed: set<Node>, bases: map<Str, nat>,
                    at: Merge, mi: Node, base: nat)
    requires Balance(T, R, b, made, freed) && Tracks(b, bases, at) && mi in T
    ensures mi.path !in b.after && Tracks(Moved(b, mi, base), bases, Add(bases, at, mi.path, base))
    ensures Add(bases, at, mi.path, base).calls == at.calls + HookIf(b.addr[mi] != base, mi.path, base)
  {
    assert Lists(b.before, mi);
    assert mi.path in b.before;
    var b', at' := Moved(b, mi, base), Add(bases, at, mi.path, base);
    forall p | p in b'.before
      ensures b'.before[p] in b.addr && b'.before[p] != mi
    {
      assert p in b.before;
    }
    forall p | p in b.after
      ensures b.after[p] != mi
    {
      assert b.after[p] in R;
    }
  }

  /** A record that moves over: the books after it, and the hook call it asks for. */
  lemma MovedBooks(T: set<Node>, R: set<Node>, b: Books, made: set<Node>, freed: set<Node>, bases: map<Str, nat>,
                   at: Merge, mi: Node, base: nat, calls: seq<Call>) returns (b': Books)
    requires Balance(T, R, b, made, freed) && Tracks(b, bases, at) && mi in T
    ensures Balance(T - {mi}, R + {mi}, b', made, freed) && Tracks(b', bases, Add(bases, at, mi.path, base))
    ensures calls + Add(bases, at, mi.path, base).calls == calls + at.calls + HookIf(b.addr[mi] != base, mi.path, base)
    ensures b'.addr == b.addr[mi := base] && b'.addr.Keys == b.addr.Keys && b'.start == b.start && mi in b.addr
    ensures forall n {:trigger n.path} | n in R :: n.path != mi.path
  {
    TracksMoved(T, R, b, made, freed, bases, at, mi, base);
    BalanceMoved(T, R, b, made, freed, mi, base);
    b' := Moved(b, mi, base);
  }

  /** A new record, kept unless the refreshed tree has its path: the books after it, what is made and freed then, and
    * the hook call it asks for. */
  lemma CreatedBooks(T: set<Node>, R: set<Node>, b: Books, made: set<Node>, freed: set<Node>, bases: map<Str, nat>,
                     at: Merge, mi: Node, base: nat, dup: Node?, calls: seq<Call>) returns (b': Books)
    requires Balance(T, R, b, made, freed) && Tracks(b, bases, at) && mi !in made
    requires forall n {:trigger n.path} | n in T :: n.path != mi.path
    requires if dup == null then forall n {:trigger n.path} | n in R :: n.path != mi.path
             else dup in R && dup.path == mi.path
    ensures Tracks(b', bases, Add(bases, at, mi.path, base)) && b'.addr == b.addr[mi := base] && b'.start == b.start
    ensures dup == null ==> Balance(T, R + {mi}, b', made + {mi}, freed)
    ensures dup != null ==> Balance(T, R, b', made + {mi}, freed + {mi})
    ensures calls + Add(bases, at, mi.path, base).calls == calls + at.calls + HookIf(dup == null, mi.path, base)
  {
    assert mi.path !in b.before;
    if dup != null {
      assert Lists(b.after, dup);
      BalanceDiscarded(T, R, b, made, freed, mi, base);
      b' := b.(addr := b.addr[mi := base]);
    } else {
      assert mi.path !in b.after;
      BalanceMade(T, R, b, made, freed, mi, base);
      b' := Made(b, mi, base);
    }
  }

  /** The base address of every path. */
  ghost function Bases(index: map<Str, Node>, addr: map<Node, nat>): map<Str, nat> {
    map p | p in index && index[p] in addr :: addr[index[p]]
  }

  ghost function Opening(index: map<Str, Node>, addr: map<Node, nat>): Books {
    Books(index, map[], index, addr)
  }

  lemma Opened(T: set<Node>, index: map<Str, Node>, addr: map<Node, nat>, made: set<Node>, freed: set<Node>)
    requires Balance(T, {}, Opening(index, addr), made, freed)
    ensures Tracks(Opening(index, addr), Bases(index, addr), Merge(map[], []))
  {
    assert Bases(index, addr) - {} == Bases(index, addr);
  }

  lemma Closed(T: set<Node>, R: set<Node>, b: Books, made: set<Node>, freed: set<Node>, bases: map<Str, nat>, at: Merge)
    requires Balance(T, R, b, made, freed) && Tracks(b, bases, at)
    ensures Bases(b.after, b.addr) == at.bases
    ensures SameRecords(b.start, b.after)
  {
  }

  /** The books once the old tree's records are freed. */
  lemma Sweeping(T: set<Node>, R: set<Node>, b: Books, made: set<Node>, freed: set<Node>)
    requires Balance(T, R, b, made, freed)
    ensures Balance(R, {}, Opening(b.after, b.addr), made, freed + T)
  {
  }

  /** Of all records, those not left are freed on top of those freed before. */
  ghost predicate Freed(before: set<Node>, all: set<Node>, left: set<Node>, now: set<Node>) {
    left <= all && now == before + (all - left)
  }

  lemma FreedNext(before: set<Node>, all: set<Node>, left: set<Node>, now: set<Node>, made: set<Node>,
                  others: set<Node>, mi: Node)
    requires Freed(before, all, left, now) && mi in left && all <= made && before !! all && others !! all
    ensures mi in made && mi !in now && mi !in others && Freed(before, all, left - {mi}, now + {mi})
  {
  }

  lemma FreedAll(before: set<Node>, all: set<Node>, now: set<Node>)
    requires Freed(before, all, {}, now)
    ensures now == before + all
  {
  }

  lemma {:induction false} IndexNamesFiles(T: set<Node>, index: map<Str, Node>, addr: map<Node, nat>, made: set<Node>,
                                           freed: set<Node>, bases: map<Str, nat>)
    requires Balance(T, {}, Opening(index, addr), made, freed) && Bases(index, addr) == bases
    requires forall p | p in bases :: NamesFile(p)
    ensures forall p | p in index :: NamesFile(p)
  {
    forall p | p in index ensures NamesFile(p) {
      assert index[p] in T;
      assert p in Bases(index, addr);
    }
  }

  lemma {:induction false} CallsNameFiles(before: seq<Call>, added: seq<Call>)
    requires forall c | c in added :: NamesFile(c.path)
    ensures forall i | |before| <= i < |before + added| :: NamesFile((before + added)[i].path)
  {
    forall i | |before| <= i < |before + added| ensures NamesFile((before + added)[i].path) {
      assert (before + added)[i] in added;
    }
  }

  class Core {
    const setup: Setup
    /** Where records come from and go back to. */
    const arena: Arena
    var tree: Tree
    /** The calls of xh_core_hook so far. */
    var calls: seq<Call>
    /** The tree seen as a map from paths to records, and the base address of every record made. */
    ghost var index: map<Str, Node>
    ghost var addr: map<Node, nat>

    constructor (setup: Setup)
      ensures Valid() && this.setup == setup && index == map[] && addr == map[] && calls == []
      ensures fresh(tree) && fresh(arena) && arena.made == {}
    {
      this.setup := setup;
      arena := new Arena();
      tree := new Tree();
      index, addr, calls := map[], map[], [];
    }

    /** The tree is valid and holds one record per path, and every record made is in it or freed, and not both. */
    ghost predicate Valid()
      reads this`tree, this`index, this`addr, arena`made, arena`freed, addr.Keys`baseAddr
      reads tree`root, tree`links, tree`colors, tree`order, tree.links.Keys`left, tree.links.Keys`right,
            tree.links.Keys`parent, tree.links.Keys`red
    {
      tree.Valid() && Balance(tree.links.Keys, {}, Opening(index, addr), arena.made, arena.freed) && Addressed(addr)
    }

    /** xh_core_hook */
    method XhCoreHook(mi: Node)
      modifies this`calls
      ensures calls == old(calls) + [Call(mi.path, mi.baseAddr)]
    {
      calls := calls + [Call(mi.path, mi.baseAddr)];
    }

    /** One turn of the loops that empty a tree: the record is taken out and freed. */
    method FreeFirst(t: Tree, mi: Node, ghost others: set<Node>) returns (next: Node?)
      requires t.Valid() && t.order != [] && mi == t.order[0] && mi in t.links
      requires mi in arena.made && mi !in arena.freed && mi !in others
      modifies t`root, t`links, t`colors, t`order, t.links.Keys`left, t.links.Keys`right, t.links.Keys`parent,
               t.links.Keys`red
      modifies arena`freed
      ensures t.Valid() && t.links.Keys == old(t.links.Keys) - {mi} && arena.freed == old(arena.freed) + {mi}
      ensures t.order == old(t.order)[1..] && next == if t.order == [] then null else t.order[0]
    {
      next := t.RemoveFirst(mi);
      arena.Free(mi, t.links.Keys + others);
    }

    /** The loops that empty a tree. Records of others are left alone. */
    method FreeAll(t: Tree, ghost others: set<Node>)
      requires t.Valid() && t.links.Keys <= arena.made && arena.freed !! t.links.Keys && others !! t.links.Keys
      modifies t`root, t`links, t`colors, t`order, t.links.Keys`left, t.links.Keys`right, t.links.Keys`parent,
               t.links.Keys`red
      modifies arena`freed
      ensures t.Valid() && t.links.Keys == {} && arena.freed == old(arena.freed) + old(t.links.Keys)
    {
      ghost var made, before, all, left := arena.made, arena.freed, t.links.Keys, t.links.Keys;
      var mi := t.MinMax(-1);
      while mi != null
        invariant t.Valid() && t.links.Keys == left && Freed(before, all, left, arena.freed)
        invariant mi == if t.order == [] then null else t.order[0]
        decreases |t.order|
      {
        t.FirstIn();
        FreedNext(before, all, left, arena.freed, made, others, mi);
        left := left - {mi};
        mi := FreeFirst(t, mi, others);
      }
      t.NoNodes();
      assert left == {};
      FreedAll(before, all, arena.freed);
    }

    /** Takes mi out of the tree t; another tree with other nodes is as before. */
    static method TakeOut(t: Tree, other: Tree, mi: Node, ghost addr: map<Node, nat>)
      requires t != other && t.Valid() && other.Valid() && t.links.Keys !! other.links.Keys && mi in t.links
               && Addressed(addr)
      modifies t`root, t`links, t`colors, t`order, t.links.Keys`left, t.links.Keys`right, t.links.Keys`parent,
               t.links.Keys`red
      ensures t.Valid() && other.Valid() && t.links.Keys == old(t.links.Keys) - {mi} && Addressed(addr)
    {
      var was := t.Remove(mi);
    }

    static method PutIn(t: Tree, other: Tree, mi: Node, ghost addr: map<Node, nat>) returns (dup: Node?)
      requires t != other && t.Valid() && other.Valid() && t.links.Keys !! other.links.Keys && Addressed(addr)
      requires mi !in t.links && mi !in other.links
      modifies t`root, t`links, t`colors, t`order, t.links.Keys`left, t.links.Keys`right, t.links.Keys`parent,
               t.links.Keys`red
      modifies mi`left, mi`right, mi`parent, mi`red
      ensures t.Valid() && other.Valid() && Addressed(addr)
      ensures dup == null ==> t.links.Keys == old(t.links.Keys) + {mi}
      ensures dup == null ==> forall n {:trigger n.path} | n in old(t.links.Keys) :: n.path != mi.path
      ensures dup != null ==> t.links.Keys == old(t.links.Keys) && dup in t.links && dup.path == mi.path
    {
      ghost var k;
      dup, k := t.Insert(mi);
    }

    /** The record mi moves from the old tree to the refreshed one. */
    static method Shift(t: Tree, refreshed: Tree, mi: Node, ghost addr: map<Node, nat>)
      requires t != refreshed && t.Valid() && refreshed.Valid() && t.links.Keys !! refreshed.links.Keys
               && Addressed(addr)
      requires mi in t.links && forall n {:trigger n.path} | n in refreshed.links.Keys :: n.path != mi.path
      modifies t`root, t`links, t`colors, t`order, refreshed`root, refreshed`links, refreshed`colors, refreshed`order
      modifies t.links.Keys`left, t.links.Keys`right, t.links.Keys`parent, t.links.Keys`red
      modifies refreshed.links.Keys`left, refreshed.links.Keys`right, refreshed.links.Keys`parent,
               refreshed.links.Keys`red
      ensures t.Valid() && refreshed.Valid() && Addressed(addr)
      ensures t.links.Keys == old(t.links.Keys) - {mi} && refreshed.links.Keys == old(refreshed.links.Keys) + {mi}
    {
      TakeOut(t, refreshed, mi, addr);
      var dup := PutIn(refreshed, t, mi, addr);
      if dup != null {
        assert false;  // "repeated when update" cannot happen
      }
    }

    /** A known record gets the base of its line, and is hooked again if that is another one. */
    method Rehook(mi: Node, base: nat)
      modifies mi`baseAddr, this`calls
      ensures mi.baseAddr == base && calls == old(calls) + HookIf(old(mi.baseAddr) != base, mi.path, base)
    {
      if mi.baseAddr != base {
        mi.baseAddr := base;
        XhCoreHook(mi);
      }
    }

    method SetBase(t: Tree, refreshed: Tree, mi: Node, base: nat, ghost addr: map<Node, nat>)
      requires t.Valid() && refreshed.Valid() && Addressed(addr) && mi in addr
      modifies mi`baseAddr, this`calls
      ensures t.Valid() && refreshed.Valid() && Addressed(addr[mi := base])
      ensures calls == old(calls) + HookIf(addr[mi] != base, mi.path, base)
    {
      assert mi.baseAddr == addr[mi];
      Rehook(mi, base);
    }

    /** Moves mi over, sets its base, and hooks it again if the base changed. */
    method Rebase(t: Tree, refreshed: Tree, mi: Node, base: nat, ghost addr: map<Node, nat>)
      requires t != refreshed && t.Valid() && refreshed.Valid() && t.links.Keys !! refreshed.links.Keys && mi in addr
      requires mi in t.links && (forall n {:trigger n.path} | n in refreshed.links.Keys :: n.path != mi.path)
               && Addressed(addr)
      modifies t`root, t`links, t`colors, t`order, refreshed`root, refreshed`links, refreshed`colors, refreshed`order,
               mi`baseAddr
      modifies t.links.Keys`left, t.links.Keys`right, t.links.Keys`parent, t.links.Keys`red
      modifies refreshed.links.Keys`left, refreshed.links.Keys`right, refreshed.links.Keys`parent,
               refreshed.links.Keys`red
      modifies this`calls
      ensures t.Valid() && refreshed.Valid() && Addressed(addr[mi := base])
      ensures t.links.Keys == old(t.links.Keys) - {mi} && refreshed.links.Keys == old(refreshed.links.Keys) + {mi}
      ensures calls == old(calls) + HookIf(addr[mi] != base, mi.path, base)
    {
      Shift(t, refreshed, mi, addr);
      SetBase(t, refreshed, mi, base, addr);
    }

    /** A known path: its record moves over, rehooked if its base changed. */
    method MoveOver(t: Tree, refreshed: Tree, mi: Node, base: nat, ghost b: Books, ghost bases: map<Str, nat>,
                    ghost at: Merge, ghost before: seq<Call>) returns (ghost b': Books)
      requires t != refreshed && t.Valid() && refreshed.Valid() && mi in t.links && calls == before + at.calls
      requires Balance(t.links.Keys, refreshed.links.Keys, b, arena.made, arena.freed) && Addressed(b.addr)
               && Tracks(b, bases, at)
      modifies t`root, t`links, t`colors, t`order, refreshed`root, refreshed`links, refreshed`colors, refreshed`order
      modifies b.addr.Keys`left, b.addr.Keys`right, b.addr.Keys`parent, b.addr.Keys`red, b.addr.Keys`baseAddr
      modifies this`calls
      ensures t.Valid() && refreshed.Valid() && calls == before + Add(bases, at, mi.path, base).calls
      ensures Balance(t.links.Keys, refreshed.links.Keys, b', arena.made, arena.freed) && Addressed(b'.addr)
      ensures Tracks(b', bases, Add(bases, at, mi.path, base))
      ensures b'.addr.Keys == b.addr.Keys && b'.start == b.start
    {
      b' := MovedBooks(t.links.Keys, refreshed.links.Keys, b, arena.made, arena.freed, bases, at, mi, base, before);
      Rebase(t, refreshed, mi, base, b.addr);
    }

    /** What becomes of a new record after RB_INSERT: freed if it is a repeat, else hooked. */
    method Settle(t: Tree, refreshed: Tree, mi: Node, dup: Node?)
      requires dup != null ==> mi in arena.made && mi !in arena.freed && mi !in t.links && mi !in refreshed.links
      modifies arena`freed, this`calls
      ensures dup == null ==> arena.freed == old(arena.freed)
      ensures dup != null ==> arena.freed == old(arena.freed) + {mi}
      ensures calls == old(calls) + HookIf(dup == null, mi.path, mi.baseAddr)
    {
      if dup != null {
        arena.Free(mi, t.links.Keys + refreshed.links.Keys);
        return;
      }
      XhCoreHook(mi);
    }

    method SettleIn(t: Tree, refreshed: Tree, mi: Node, dup: Node?, ghost addr: map<Node, nat>)
      requires t.Valid() && refreshed.Valid() && Addressed(addr)
      requires dup != null ==> mi in arena.made && mi !in arena.freed && mi !in t.links && mi !in refreshed.links
      modifies arena`freed, this`calls
      ensures t.Valid() && refreshed.Valid() && Addressed(addr)
      ensures dup == null ==> arena.freed == old(arena.freed)
      ensures dup != null ==> arena.freed == old(arena.freed) + {mi}
      ensures calls == old(calls) + HookIf(dup == null, mi.path, mi.baseAddr)
    {
      Settle(t, refreshed, mi, dup);
    }

    /** Puts a new record into the refreshed tree and hooks it, or frees it if the tree has its path already. */
    method Admit(t: Tree, refreshed: Tree, mi: Node, ghost addr: map<Node, nat>) returns (dup: Node?)
      requires t != refreshed && t.Valid() && refreshed.Valid() && t.links.Keys !! refreshed.links.Keys
               && Addressed(addr)
      requires mi !in t.links && mi !in refreshed.links && mi in arena.made && mi !in arena.freed
      modifies refreshed`root, refreshed`links, refreshed`colors, refreshed`order
      modifies refreshed.links.Keys`left, refreshed.links.Keys`right, refreshed.links.Keys`parent,
               refreshed.links.Keys`red
      modifies mi`left, mi`right, mi`parent, mi`red, arena`freed, this`calls
      ensures t.Valid() && refreshed.Valid() && Addressed(addr)
      ensures dup == null ==> refreshed.links.Keys == old(refreshed.links.Keys) + {mi}
      ensures dup == null ==> forall n {:trigger n.path} | n in old(refreshed.links.Keys) :: n.path != mi.path
      ensures dup != null ==>
                refreshed.links.Keys == old(refreshed.links.Keys) && dup in refreshed.links && dup.path == mi.path
      ensures dup == null ==> arena.freed == old(arena.freed)
      ensures dup != null ==> arena.freed == old(arena.freed) + {mi}
      ensures calls == old(calls) + HookIf(dup == null, mi.path, mi.baseAddr)
    {
      dup := PutIn(refreshed, t, mi, addr);
      SettleIn(t, refreshed, mi, dup, addr);
    }

    /** malloc and the filling in of a new record. */
    method Make(t: Tree, refreshed: Tree, path: Str, base: nat, ghost addr: map<Node, nat>) returns (mi: Node)
      requires t.Valid() && refreshed.Valid() && Addressed(addr)
      modifies arena`made
      ensures t.Valid() && refreshed.Valid() && Addressed(addr[mi := base])
      ensures fresh(mi) && mi.path == path && mi.baseAddr == base && arena.made == old(arena.made) + {mi}
      ensures mi !in t.links.Keys && mi !in refreshed.links.Keys && mi !in arena.freed && mi !in addr.Keys
    {
      mi := new Node(path, base, arena);
    }

    /** A new record is made, and put in and hooked, or freed. */
    method Enter(t: Tree, refreshed: Tree, path: Str, base: nat, ghost addr: map<Node, nat>)
      returns (mi: Node, dup: Node?)
      requires t != refreshed && t.Valid() && refreshed.Valid() && t.links.Keys !! refreshed.links.Keys
               && Addressed(addr)
      requires arena.freed <= addr.Keys
      modifies refreshed`root, refreshed`links, refreshed`colors, refreshed`order
      modifies refreshed.links.Keys`left, refreshed.links.Keys`right, refreshed.links.Keys`parent,
               refreshed.links.Keys`red
      modifies arena`made, arena`freed, this`calls
      ensures t.Valid() && refreshed.Valid() && Addressed(addr[mi := base])
      ensures fresh(mi) && mi.path == path && arena.made == old(arena.made) + {mi}
      ensures dup == null ==> refreshed.links.Keys == old(refreshed.links.Keys) + {mi}
      ensures dup == null ==> forall n {:trigger n.path} | n in old(refreshed.links.Keys) :: n.path != path
      ensures dup != null ==>
                refreshed.links.Keys == old(refreshed.links.Keys) && dup in refreshed.links && dup.path == path
      ensures dup == null ==> arena.freed == old(arena.freed)
      ensures dup != null ==> arena.freed == old(arena.freed) + {mi}
      ensures calls == old(calls) + HookIf(dup == null, path, base)
    {
      mi := Make(t, refreshed, path, base, addr);
      dup := Admit(t, refreshed, mi, addr[mi := base]);
    }

    /** A path without an old record: one is made, and freed again if the refreshed tree has the path already. */
    method Create(t: Tree, refreshed: Tree, path: Str, base: nat, ghost b: Books, ghost bases: map<Str, nat>,
                  ghost at: Merge, ghost before: seq<Call>) returns (ghost b': Books)
      requires t != refreshed && t.Valid() && refreshed.Valid() && calls == before + at.calls
      requires forall n {:trigger n.path} | n in t.links.Keys :: n.path != path
      requires Balance(t.links.Keys, refreshed.links.Keys, b, arena.made, arena.freed) && Addressed(b.addr)
               && Tracks(b, bases, at)
      modifies refreshed`root, refreshed`links, refreshed`colors, refreshed`order
      modifies b.addr.Keys`left, b.addr.Keys`right, b.addr.Keys`parent, b.addr.Keys`red
      modifies arena`made, arena`freed, this`calls
      ensures t.Valid() && refreshed.Valid() && calls == before + Add(bases, at, path, base).calls
      ensures Balance(t.links.Keys, refreshed.links.Keys, b', arena.made, arena.freed) && Addressed(b'.addr)
      ensures Tracks(b', bases, Add(bases, at, path, base))
      ensures forall n {:trigger n in b'.addr} | n in b'.addr :: n in b.addr || fresh(n)
      ensures b'.start == b.start && arena.freed >= old(arena.freed)
    {
      ghost var T, R, made, freed := t.links.Keys, refreshed.links.Keys, arena.made, arena.freed;
      var mi, dup := Enter(t, refreshed, path, base, b.addr);
      b' := CreatedBooks(T, R, b, made, freed, bases, at, mi, base, dup, before);
    }

    /** One qualifying line. */
    method MergeEntry(t: Tree, refreshed: Tree, path: Str, base: nat, ghost b: Books, ghost bases: map<Str, nat>,
                      ghost at: Merge, ghost before: seq<Call>) returns (ghost b': Books)
      requires t != refreshed && t.Valid() && refreshed.Valid() && calls == before + at.calls
      requires Balance(t.links.Keys, refreshed.links.Keys, b, arena.made, arena.freed) && Addressed(b.addr)
               && Tracks(b, bases, at)
      modifies t`root, t`links, t`colors, t`order, refreshed`root, refreshed`links, refreshed`colors, refreshed`order
      modifies b.addr.Keys`left, b.addr.Keys`right, b.addr.Keys`parent, b.addr.Keys`red, b.addr.Keys`baseAddr,
               arena`made, arena`freed, this`calls
      ensures t.Valid() && refreshed.Valid() && calls == before + Add(bases, at, path, base).calls
      ensures Balance(t.links.Keys, refreshed.links.Keys, b', arena.made, arena.freed) && Addressed(b'.addr)
      ensures Tracks(b', bases, Add(bases, at, path, base))
      ensures forall n {:trigger n in b'.addr} | n in b'.addr :: n in b.addr || fresh(n)
      ensures b'.start == b.start && arena.freed >= old(arena.freed)
    {
      var mi := t.Find(path);
      if mi != null {
        b' := MoveOver(t, refreshed, mi, base, b, bases, at, before);
      } else {
        b' := Create(t, refreshed, path, base, b, bases, at, before);
      }
    }

    /** The path of a line: past the white space, without the newline at the end, and not in brackets. */
    static method ReadPath(text: Str) returns (path: Str, named: bool)
      ensures PathOf(text) == if named then Some(path) else None
    {
      path, named := [], false;
      var pos := 0;
      assert text[0..] == text;
      while pos < |text| && IsSpace(text[pos])
        invariant 0 <= pos <= |text| && SkipSpace(text) == SkipSpace(text[pos..])
      {
        assert text[pos..][1..] == text[pos + 1..];
        pos := pos + 1;
      }
      path := text[pos..];
      if path == [] { return; }
      if path[|path| - 1] == 10 {
        path := path[..|path| - 1];
      }
      if path == [] || path[0] == 91 { return; }
      named := true;
    }

    /** The checks on one line. */
    method Accept(line: Line) returns (path: Str, base: nat, ok: bool)
      ensures ok == Qualifies(setup, line)
      ensures ok ==> path == Path(line) && base == line.base
    {
      path, base, ok := [], 0, false;
      if line.Unreadable? || |line.perm| != 4 { return; }
      if line.perm[0] != 'r' { return; }
      if line.perm[3] != 'p' { return; }
      if line.offset != 0 { return; }
      var named;
      path, named := ReadPath(line.text);
      if !named { return; }
      base := line.base;
      var matched := Match(setup.matches, setup.hooks, setup.ignores, path);
      if !matched { return; }
      ok := setup.goodElf(base);
    }

    method AcceptFor(line: Line, ghost bases: map<Str, nat>, ghost at: Merge) returns (path: Str, base: nat, ok: bool)
      ensures MergeLine(setup, bases, at, line) == if ok then Add(bases, at, path, base) else at
    {
      path, base, ok := Accept(line);
    }

    /** One line. */
    method TryLine(t: Tree, refreshed: Tree, line: Line, ghost b: Books, ghost bases: map<Str, nat>, ghost at: Merge,
                   ghost before: seq<Call>) returns (ghost b': Books)
      requires t != refreshed && t.Valid() && refreshed.Valid() && calls == before + at.calls
      requires Balance(t.links.Keys, refreshed.links.Keys, b, arena.made, arena.freed) && Addressed(b.addr)
               && Tracks(b, bases, at)
      modifies t`root, t`links, t`colors, t`order, refreshed`root, refreshed`links, refreshed`colors, refreshed`order
      modifies b.addr.Keys`left, b.addr.Keys`right, b.addr.Keys`parent, b.addr.Keys`red, b.addr.Keys`baseAddr,
               arena`made, arena`freed, this`calls
      ensures t.Valid() && refreshed.Valid() && calls == before + MergeLine(setup, bases, at, line).calls
      ensures Balance(t.links.Keys, refreshed.links.Keys, b', arena.made, arena.freed) && Addressed(b'.addr)
      ensures Tracks(b', bases, MergeLine(setup, bases, at, line))
      ensures forall n {:trigger n in b'.addr} | n in b'.addr :: n in b.addr || fresh(n)
      ensures b'.start == b.start && arena.freed >= old(arena.freed)
    {
      var path, base, ok := AcceptFor(line, bases, at);
      b' := b;
      if ok {
        b' := MergeEntry(t, refreshed, path, base, b, bases, at, before);
      }
    }

    /** One turn of the line loop. */
    method MergeNext(t: Tree, refreshed: Tree, lines: seq<Line>, i: nat, ghost b: Books, ghost bases: map<Str, nat>,
                     ghost at: Merge, ghost before: seq<Call>) returns (ghost b': Books, ghost at': Merge)
      requires i < |lines| && at == MergeAll(setup, bases, lines[..i])
      requires t != refreshed && t.Valid() && refreshed.Valid() && calls == before + at.calls
      requires Balance(t.links.Keys, refreshed.links.Keys, b, arena.made, arena.freed) && Addressed(b.addr)
               && Tracks(b, bases, at)
      modifies t`root, t`links, t`colors, t`order, refreshed`root, refreshed`links, refreshed`colors, refreshed`order
      modifies b.addr.Keys`left, b.addr.Keys`right, b.addr.Keys`parent, b.addr.Keys`red, b.addr.Keys`baseAddr
      modifies arena`made, arena`freed, this`calls
      ensures at' == MergeAll(setup, bases, lines[..i + 1])
      ensures t.Valid() && refreshed.Valid() && calls == before + at'.calls
      ensures Balance(t.links.Keys, refreshed.links.Keys, b', arena.made, arena.freed) && Addressed(b'.addr)
      ensures Tracks(b', bases, at')
      ensures forall n {:trigger n in b'.addr} | n in b'.addr :: n in b.addr || fresh(n)
      ensures b'.start == b.start && arena.freed >= old(arena.freed)
    {
      MergeSnoc(setup, bases, lines, i);
      at' := MergeLine(setup, bases, at, lines[i]);
      b' := TryLine(t, refreshed, lines[i], b, bases, at, before);
    }

    /** The line loop. */
    method MergeLines(t: Tree, refreshed: Tree, lines: seq<Line>, ghost b: Books, ghost bases: map<Str, nat>,
                      ghost at: Merge, ghost before: seq<Call>) returns (ghost b': Books, ghost at': Merge)
      requires at == MergeAll(setup, bases, [])
      requires t != refreshed && t.Valid() && refreshed.Valid() && calls == before + at.calls
      requires Balance(t.links.Keys, refreshed.links.Keys, b, arena.made, arena.freed) && Addressed(b.addr)
               && Tracks(b, bases, at)
      modifies t`root, t`links, t`colors, t`order, refreshed`root, refreshed`links, refreshed`colors, refreshed`order
      modifies b.addr.Keys`left, b.addr.Keys`right, b.addr.Keys`parent, b.addr.Keys`red, b.addr.Keys`baseAddr
      modifies arena`made, arena`freed, this`calls
      ensures at' == MergeAll(setup, bases, lines)
      ensures t.Valid() && refreshed.Valid() && calls == before + at'.calls
      ensures Balance(t.links.Keys, refreshed.links.Keys, b', arena.made, arena.freed) && Addressed(b'.addr)
      ensures Tracks(b', bases, at')
      ensures forall n {:trigger n in b'.addr} | n in b'.addr :: n in b.addr || fresh(n)
      ensures b'.start == b.start && arena.freed >= old(arena.freed)
    {
      b', at' := b, at;
      var i := 0;
      assert lines[..0] == [];
      while i < |lines|
        invariant 0 <= i <= |lines| && at' == MergeAll(setup, bases, lines[..i])
        invariant t.Valid() && refreshed.Valid() && calls == before + at'.calls
        invariant Balance(t.links.Keys, refreshed.links.Keys, b', arena.made, arena.freed) && Addressed(b'.addr)
        invariant Tracks(b', bases, at')
        invariant forall n {:trigger n in b'.addr} | n in b'.addr :: n in b.addr || fresh(n)
        invariant b'.start == b.start && arena.freed >= old(arena.freed)
      {
        b', at' := MergeNext(t, refreshed, lines, i, b', bases, at', before);
        i := i + 1;
      }
      assert lines[..i] == lines;
    }

    /** Frees the records missing from the lines; the refreshed tree is left as it is. */
    method Sweep(t: Tree, refreshed: Tree, ghost b: Books)
      requires t != refreshed && t.Valid() && refreshed.Valid() && Addressed(b.addr)
      requires Balance(t.links.Keys, refreshed.links.Keys, b, arena.made, arena.freed)
      modifies t`root, t`links, t`colors, t`order, t.links.Keys`left, t.links.Keys`right, t.links.Keys`parent,
               t.links.Keys`red
      modifies arena`freed
      ensures refreshed.Valid() && Addressed(b.addr) && arena.freed == old(arena.freed) + old(t.links.Keys)
    {
      FreeAll(t, refreshed.links.Keys);
    }

    /** The refreshed tree takes the old one's place. */
    method Install(refreshed: Tree, ghost after: map<Str, Node>, ghost addr': map<Node, nat>)
      requires refreshed.Valid() && Balance(refreshed.links.Keys, {}, Opening(after, addr'), arena.made, arena.freed)
      requires Addressed(addr')
      modifies this`tree, this`index, this`addr
      ensures Valid() && tree == refreshed && index == after && addr == addr'
    {
      tree := refreshed;
      index, addr := after, addr';
    }

    /** What follows the lines: the sweep, and the exchange of the trees. */
    method Finish(refreshed: Tree, ghost b: Books)
      requires tree != refreshed && tree.Valid() && refreshed.Valid()
      requires Balance(tree.links.Keys, refreshed.links.Keys, b, arena.made, arena.freed) && Addressed(b.addr)
      modifies this`tree, this`index, this`addr, arena`freed
      modifies tree`root, tree`links, tree`colors, tree`order
      modifies b.addr.Keys`left, b.addr.Keys`right, b.addr.Keys`parent, b.addr.Keys`red
      ensures Valid() && tree == refreshed && index == b.after && addr == b.addr && arena.freed >= old(arena.freed)
    {
      Sweeping(tree.links.Keys, refreshed.links.Keys, b, arena.made, arena.freed);
      Sweep(tree, refreshed, b);
      Install(refreshed, b.after, b.addr);
    }

    /** The lines merged into an empty refreshed tree. */
    method MergeFrom(refreshed: Tree, lines: seq<Line>, ghost was: map<Str, Node>, ghost bases: map<Str, nat>)
      returns (ghost b: Books, ghost at: Merge)
      requires Valid() && was == index && bases == Bases(index, addr) && refreshed != tree && refreshed.Valid()
               && refreshed.links.Keys == {}
      modifies tree`root, tree`links, tree`colors, tree`order, refreshed`root, refreshed`links, refreshed`colors,
               refreshed`order
      modifies addr.Keys`left, addr.Keys`right, addr.Keys`parent, addr.Keys`red, addr.Keys`baseAddr
      modifies arena`made, arena`freed, this`calls
      ensures at == MergeAll(setup, bases, lines) && calls == old(calls) + at.calls
      ensures tree.Valid() && refreshed.Valid()
      ensures Balance(tree.links.Keys, refreshed.links.Keys, b, arena.made, arena.freed) && Addressed(b.addr)
      ensures Bases(b.after, b.addr) == at.bases && arena.freed >= old(arena.freed)
      ensures SameRecords(was, b.after)
      ensures forall n {:trigger n in b.addr} | n in b.addr :: n in addr || fresh(n)
    {
      Opened(tree.links.Keys, index, addr, arena.made, arena.freed);
      b, at := MergeLines(tree, refreshed, lines, Opening(index, addr), bases, Merge(map[], []), calls);
      Closed(tree.links.Keys, refreshed.links.Keys, b, arena.made, arena.freed, bases, at);
    }

    /** The refresh with its local tree in place. */
    method RefreshInto(refreshed: Tree, lines: seq<Line>, ghost was: map<Str, Node>, ghost bases: map<Str, nat>)
      returns (ghost b: Books, ghost at: Merge)
      requires Valid() && was == index && bases == Bases(index, addr) && refreshed != tree && refreshed.Valid()
               && refreshed.links.Keys == {}
      modifies this`tree, this`index, this`addr, this`calls, arena`made, arena`freed
      modifies tree`root, tree`links, tree`colors, tree`order, refreshed`root, refreshed`links, refreshed`colors,
               refreshed`order
      modifies addr.Keys`left, addr.Keys`right, addr.Keys`parent, addr.Keys`red, addr.Keys`baseAddr
      ensures Valid() && tree == refreshed
      ensures at == MergeAll(setup, bases, lines) && Bases(b.after, b.addr) == at.bases
      ensures calls == old(calls) + at.calls
      ensures SameRecords(was, b.after) && index == b.after && addr == b.addr
      ensures arena.freed >= old(arena.freed)
    {
      b, at := MergeFrom(refreshed, lines, was, bases);
      Finish(refreshed, b);
    }

    /**
     xh_core_refresh_impl. Afterwards the tree maps each path with a qualifying line
     to the base of its first such line, known paths keep their records, xh_core_hook
     was called for new and changed paths only, and every other record is freed.
    */
    method Refresh(lines: seq<Line>)
      requires Valid()
      modifies this`tree, this`index, this`addr, this`calls, arena`made, arena`freed
      modifies tree`root, tree`links, tree`colors, tree`order
      modifies addr.Keys`left, addr.Keys`right, addr.Keys`parent, addr.Keys`red, addr.Keys`baseAddr
      ensures Valid()
      ensures Bases(index, addr) == MergeAll(setup, old(Bases(index, addr)), lines).bases
      ensures calls == old(calls) + MergeAll(setup, old(Bases(index, addr)), lines).calls
      ensures SameRecords(old(index), index)
      ensures forall p | p in index :: NamesFile(p)
      ensures forall i | |old(calls)| <= i < |calls| :: NamesFile(calls[i].path)
      ensures arena.freed >= old(arena.freed)
    {
      var refreshed := new Tree();
      ghost var bases, before := Bases(index, addr), calls;
      ghost var b, at := RefreshInto(refreshed, lines, index, bases);
      MergeNamesFiles(setup, bases, lines);
      IndexNamesFiles(tree.links.Keys, index, addr, arena.made, arena.freed, at.bases);
      CallsNameFiles(before, at.calls);
    }

    /** xh_core_clear's part on the records: all are freed and none remains. */
    method Clear()
      requires Valid()
      modifies this`index, arena`freed, tree`root, tree`links, tree`colors, tree`order
      modifies tree.links.Keys`left, tree.links.Keys`right, tree.links.Keys`parent, tree.links.Keys`red
      ensures Valid() && index == map[] && tree.links.Keys == {} && arena.freed == arena.made == old(arena.made)
    {
      BalanceSwept(tree.links.Keys, {}, Opening(index, addr), arena.made, arena.freed);
      FreeAll(tree, {});
      index := map[];
    }
  }
}
