/** Tail queues: doubly linked lists whose back pointers address the cell that points at the
  * element, be it the head's first field or the previous element's next field. */
module TailQueue {

  /** The address of a cell that points at an element. */
  datatype Cell = FirstOf(queue: Queue) | NextOf(entry: Entry)

  class Entry {
    var next: Entry?
    var prev: Cell

    constructor (prev: Cell)
      ensures next == null
    {
      next, this.prev := null, prev;
    }
  }

  class Queue {
    var first: Entry?
    var last: Cell

    /** TAILQ_INIT on a new head */
    constructor ()
      ensures Holds(this, [])
    {
      first, last := null, FirstOf(this);
    }
  }

  /** The cell that points at element i of s, or that holds the final null. */
  ghost function CellAt(q: Queue, s: seq<Entry>, i: nat): Cell
    requires i <= |s|
  {
    if i == 0 then FirstOf(q) else NextOf(s[i - 1])
  }

  ghost function Target(s: seq<Entry>, i: nat): Entry?
    requires i <= |s|
  {
    if i < |s| then s[i] else null
  }

  predicate Distinct(s: seq<Entry>) {
    forall i, j | 0 <= i < j < |s| :: s[i] != s[j]
  }

  /** *c */
  function Deref(c: Cell): Entry?
    reads if c.FirstOf? then {c.queue} else {}, if c.NextOf? then {c.entry} else {}
  {
    match c
    case FirstOf(q) => q.first
    case NextOf(e) => e.next
  }

  /** Element i is linked from its cell and back to it. */
  ghost predicate Linked(q: Queue, s: seq<Entry>, i: nat)
    requires i <= |s|
    reads q, s
  {
    && (if i == 0 then q.first == Target(s, i) else s[i - 1].next == Target(s, i))
    && (if i == |s| then q.last == CellAt(q, s, i) else s[i].prev == CellAt(q, s, i))
  }

  /** The queue holds exactly these elements in this order. */
  ghost predicate Holds(q: Queue, s: seq<Entry>)
    reads q, s
  {
    Distinct(s) && forall i: nat {:trigger Linked(q, s, i)} | i <= |s| :: Linked(q, s, i)
  }

  /** *c = e */
  method Store(c: Cell, e: Entry?)
    modifies if c.FirstOf? then {c.queue} else {}, if c.NextOf? then {c.entry} else {}
    ensures Deref(c) == e
    ensures c.FirstOf? ==> c.queue.last == old(c.queue.last)
    ensures c.NextOf? ==> c.entry.prev == old(c.entry.prev)
  {
    match c
    case FirstOf(q) => q.first := e;
    case NextOf(n) => n.next := e;
  }

  method InsertHead(q: Queue, elm: Entry, ghost s: seq<Entry>)
    requires Holds(q, s) && elm !in s
    modifies q, s, elm
    ensures Holds(q, [elm] + s)
  {
    assert Linked(q, s, 0);
    elm.next := q.first;
    if elm.next != null {
      q.first.prev := NextOf(elm);
    } else {
      q.last := NextOf(elm);
    }
    q.first := elm;
    elm.prev := FirstOf(q);
    ghost var s' := [elm] + s;
    forall i: nat | i <= |s'| ensures Linked(q, s', i) {
      if i > 0 { assert old(Linked(q, s, i - 1)); }
    }
  }

  method InsertTail(q: Queue, elm: Entry, ghost s: seq<Entry>)
    requires Holds(q, s) && elm !in s
    modifies q, s, elm
    ensures Holds(q, s + [elm])
  {
    assert Linked(q, s, |s|);
    elm.next := null;
    elm.prev := q.last;
    Store(q.last, elm);
    q.last := NextOf(elm);
    ghost var s' := s + [elm];
    forall i: nat | i <= |s'| ensures Linked(q, s', i) {
      if i <= |s| { assert old(Linked(q, s, i)); }
    }
  }

  /** TAILQ_INSERT_BEFORE needs no head: elm goes before element k. */
  method InsertBefore(listelm: Entry, elm: Entry, ghost q: Queue, ghost s: seq<Entry>, ghost k: nat)
    requires Holds(q, s) && k < |s| && listelm == s[k] && elm !in s
    modifies q, s, elm
    ensures Holds(q, s[..k] + [elm] + s[k..])
  {
    assert Linked(q, s, k);
    elm.prev := listelm.prev;
    elm.next := listelm;
    Store(listelm.prev, elm);
    listelm.prev := NextOf(elm);
    ghost var s' := s[..k] + [elm] + s[k..];
    forall i: nat | i <= |s'| ensures Linked(q, s', i) {
      assert old(Linked(q, s, if i <= k then i else i - 1));
    }
  }

  /** TAILQ_INSERT_AFTER: elm goes after element k. */
  method InsertAfter(q: Queue, listelm: Entry, elm: Entry, ghost s: seq<Entry>, ghost k: nat)
    requires Holds(q, s) && k < |s| && listelm == s[k] && elm !in s
    modifies q, s, elm
    ensures Holds(q, s[..k + 1] + [elm] + s[k + 1..])
  {
    assert Linked(q, s, k + 1);
    elm.next := listelm.next;
    if elm.next != null {
      elm.next.prev := NextOf(elm);
    } else {
      q.last := NextOf(elm);
    }
    listelm.next := elm;
    elm.prev := NextOf(listelm);
    ghost var s' := s[..k + 1] + [elm] + s[k + 1..];
    forall i: nat | i <= |s'| ensures Linked(q, s', i) {
      assert old(Linked(q, s, if i <= k + 1 then i else i - 1));
    }
  }

  /** TAILQ_REMOVE of element k, whose own fields keep what they hold. */
  method Remove(q: Queue, elm: Entry, ghost s: seq<Entry>, ghost k: nat)
    requires Holds(q, s) && k < |s| && elm == s[k]
    modifies q, s
    ensures Holds(q, s[..k] + s[k + 1..])
    ensures elm.next == old(elm.next) && elm.prev == old(elm.prev)
  {
    assert Linked(q, s, k) && Linked(q, s, k + 1);
    if elm.next != null {
      elm.next.prev := elm.prev;
    } else {
      q.last := elm.prev;
    }
    Store(elm.prev, elm.next);
    ghost var s' := s[..k] + s[k + 1..];
    forall i: nat | i <= |s'| ensures Linked(q, s', i) {
      assert old(Linked(q, s, i)) && old(Linked(q, s, i + 1));
    }
  }

  lemma ConcatParts(s1: seq<Entry>, s2: seq<Entry>)
    requires Distinct(s1 + s2)
    ensures Distinct(s1) && Distinct(s2) && forall i, j | 0 <= i < |s1| && 0 <= j < |s2| :: s1[i] != s2[j]
  {
    var s := s1 + s2;
    assert forall i | 0 <= i < |s1| :: s[i] == s1[i];
    assert forall j | 0 <= j < |s2| :: s[|s1| + j] == s2[j];
  }

  /** No element is in two queues: its back pointer leads to the cell before it, and so on to one head. */
  lemma {:induction false} InOneQueue(q1: Queue, q2: Queue, s1: seq<Entry>, s2: seq<Entry>, i: nat, j: nat)
    requires Holds(q1, s1) && Holds(q2, s2) && i < |s1| && j < |s2| && s1[i] == s2[j]
    ensures q1 == q2 && i == j
  {
    assert Linked(q1, s1, i) && Linked(q2, s2, j);
    if i > 0 && j > 0 {
      InOneQueue(q1, q2, s1, s2, i - 1, j - 1);
    }
  }

  lemma {:induction false} QueuesApart(q1: Queue, q2: Queue, s1: seq<Entry>, s2: seq<Entry>)
    requires Holds(q1, s1) && Holds(q2, s2) && q1 != q2
    ensures Distinct(s1 + s2)
  {
    forall i, j | 0 <= i < |s1| && 0 <= j < |s2| ensures s1[i] != s2[j] {
      if s1[i] == s2[j] {
        InOneQueue(q1, q2, s1, s2, i, j);
      }
    }
  }

  /** What a queue holds is determined by its cells. */
  lemma {:induction false} SameElements(q: Queue, s: seq<Entry>, t: seq<Entry>, i: nat)
    requires Holds(q, s) && Holds(q, t) && i <= |s| && i <= |t| && s[..i] == t[..i]
    ensures s == t
    decreases |s| - i
  {
    assert Linked(q, s, i) && Linked(q, t, i);
    assert i > 0 ==> s[i - 1] == s[..i][i - 1] && t[i - 1] == t[..i][i - 1];
    if i < |s| && i < |t| {
      assert s[..i + 1] == s[..i] + [s[i]] && t[..i + 1] == t[..i] + [t[i]];
      SameElements(q, s, t, i + 1);
    } else {
      assert s == s[..i] && t == t[..i];
    }
  }

  /** TAILQ_CONCAT: head2's elements go to the end of head1. */
  method Concat(q1: Queue, q2: Queue, ghost s1: seq<Entry>, ghost s2: seq<Entry>)
    requires Holds(q1, s1) && Holds(q2, s2) && q1 != q2
    modifies q1, q2, s1, s2
    ensures Holds(q1, s1 + s2) && Holds(q2, [])
  {
    assert Linked(q1, s1, |s1|) && Linked(q2, s2, 0) && Linked(q2, s2, |s2|);
    QueuesApart(q1, q2, s1, s2);
    ConcatParts(s1, s2);
    if q2.first != null {
      Store(q1.last, q2.first);
      q2.first.prev := q1.last;
      q1.last := q2.last;
      q2.first := null;
      q2.last := FirstOf(q2);
    }
    ghost var s' := s1 + s2;
    forall i: nat | i <= |s'| ensures Linked(q1, s', i) {
      assert i <= |s1| ==> old(Linked(q1, s1, i));
      assert i >= |s1| ==> old(Linked(q2, s2, i - |s1|));
    }
  }

  /** TAILQ_SWAP, also of a queue with itself. */
  method Swap(q1: Queue, q2: Queue, ghost s1: seq<Entry>, ghost s2: seq<Entry>)
    requires Holds(q1, s1) && Holds(q2, s2)
    modifies q1, q2, s1, s2
    ensures Holds(q1, s2) && Holds(q2, s1)
  {
    assert Linked(q1, s1, 0) && Linked(q2, s2, 0);
    if q1 == q2 {
      SameElements(q1, s1, s2, 0);
    } else {
      QueuesApart(q1, q2, s1, s2);
      ConcatParts(s1, s2);
    }
    var swapFirst, swapLast := q1.first, q1.last;
    q1.first := q2.first;
    q1.last := q2.last;
    q2.first := swapFirst;
    q2.last := swapLast;
    swapFirst := q1.first;
    if swapFirst != null {
      swapFirst.prev := FirstOf(q1);
    } else {
      q1.last := FirstOf(q1);
    }
    swapFirst := q2.first;
    if swapFirst != null {
      swapFirst.prev := FirstOf(q2);
    } else {
      q2.last := FirstOf(q2);
    }
    forall i: nat | i <= |s1| ensures Linked(q2, s1, i) { assert old(Linked(q1, s1, i)); }
    forall i: nat | i <= |s2| ensures Linked(q1, s2, i) { assert old(Linked(q2, s2, i)); }
  }

  /** The second field of the head or entry that c is the first field of: both are laid out alike,
    * which lets TAILQ_PREV and TAILQ_LAST treat an entry as a head. */
  function Second(c: Cell): Cell
    reads if c.FirstOf? then {c.queue} else {}, if c.NextOf? then {c.entry} else {}
  {
    match c
    case FirstOf(q) => q.last
    case NextOf(e) => e.prev
  }

  /** TAILQ_PREV: the element before, or null for the first. */
  method Prev(elm: Entry, ghost q: Queue, ghost s: seq<Entry>, ghost k: nat) returns (r: Entry?)
    requires Holds(q, s) && k < |s| && elm == s[k]
    ensures r == if k == 0 then null else s[k - 1]
  {
    assert Linked(q, s, k);
    if k == 0 { assert Linked(q, s, |s|); } else { assert Linked(q, s, k - 1); }
    var second := Second(elm.prev);
    r := Deref(second);
  }

  /** TAILQ_LAST */
  method Last(q: Queue, ghost s: seq<Entry>) returns (r: Entry?)
    requires Holds(q, s)
    ensures r == if s == [] then null else s[|s| - 1]
  {
    assert Linked(q, s, |s|);
    if s != [] { assert Linked(q, s, |s| - 1); }
    var second := Second(q.last);
    r := Deref(second);
  }

  /** One turn of the loop below: the next element is read before this one is removed. */
  method RemoveFirst(q: Queue, elm: Entry, ghost s: seq<Entry>) returns (tmp: Entry?)
    requires s != [] && Holds(q, s) && elm == s[0]
    modifies q, s
    ensures Holds(q, s[1..]) && tmp == Target(s, 1)
  {
    assert Linked(q, s, 1) && s[..0] + s[1..] == s[1..];
    tmp := elm.next;
    Remove(q, elm, s, 0);
  }

  /** TAILQ_FOREACH_SAFE with TAILQ_REMOVE of each element, as xh_core_clear empties its lists:
    * every element is visited once, in order, and the queue ends empty. */
  method Drain(q: Queue, ghost s: seq<Entry>) returns (visited: seq<Entry>)
    requires Holds(q, s)
    modifies q, s
    ensures visited == s && Holds(q, [])
  {
    visited := [];
    assert Linked(q, s, 0) && s[0..] == s;
    var elm := q.first;
    while elm != null
      invariant |visited| <= |s| && visited == s[..|visited|]
      invariant Holds(q, s[|visited|..]) && elm == Target(s[|visited|..], 0)
      decreases |s| - |visited|
    {
      ghost var left := s[|visited|..];
      Suffix(s, |visited|);
      var tmp := RemoveFirst(q, elm, left);
      visited := visited + [elm];
      elm := tmp;
    }
    assert s[|visited|..] == [];
  }

  lemma Suffix(s: seq<Entry>, n: nat)
    requires n < |s|
    ensures s[n..][1..] == s[n + 1..] && s[..n] + [s[n]] == s[..n + 1]
    ensures forall i | 0 <= i < |s| - n :: s[n..][i] in s
  {
  }
}
