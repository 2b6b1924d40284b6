/** Page protections: what /proc/self/maps says about a range, and the pages a word lies on. */
module MemProtect {
  import opened Wrappers
  import opened Powers
  import opened Bits

  datatype Prot = Prot(read: bool, write: bool, exec: bool)

  /** A parsed maps line; `named` when the line contains the path asked for (or none is asked for). */
  datatype Row = Row(start: nat, end: nat, perm: Prot, private: bool, named: bool)

  /** Row j counts and holds address a. */
  predicate Holds(rows: seq<Row>, j: nat, a: nat) {
    j < |rows| && rows[j].private && rows[j].named && rows[j].start <= a < rows[j].end
  }

  /** The kernel lists mappings in address order. */
  predicate Sorted(rows: seq<Row>) {
    && (forall j | 0 <= j < |rows| :: rows[j].start < rows[j].end)
    && (forall i, j | 0 <= i < j < |rows| :: rows[i].end <= rows[j].start)
  }

  ghost predicate Held(rows: seq<Row>, a: nat) {
    exists j: nat :: Holds(rows, j, a)
  }

  /** The counting rows leave no gap in lo..hi. */
  ghost predicate Covers(rows: seq<Row>, lo: nat, hi: nat) {
    forall a: nat {:trigger Held(rows, a)} :: lo <= a < hi ==> Held(rows, a)
  }

  predicate Meets(rows: seq<Row>, j: nat, lo: nat, hi: nat) {
    j < |rows| && rows[j].private && rows[j].named && rows[j].start < hi && lo < rows[j].end
  }

  /** prot is what the first n rows that meet lo..hi all allow. */
  predicate Common(rows: seq<Row>, n: nat, lo: nat, hi: nat, prot: Prot) {
    && (prot.read <==> forall j: nat {:trigger Meets(rows, j, lo, hi)} ::
          j < n && Meets(rows, j, lo, hi) ==> rows[j].perm.read)
    && (prot.write <==> forall j: nat {:trigger Meets(rows, j, lo, hi)} ::
          j < n && Meets(rows, j, lo, hi) ==> rows[j].perm.write)
    && (prot.exec <==> forall j: nat {:trigger Meets(rows, j, lo, hi)} ::
          j < n && Meets(rows, j, lo, hi) ==> rows[j].perm.exec)
  }

  lemma CoversOn(rows: seq<Row>, i: nat, lo: nat, mid: nat)
    requires Covers(rows, lo, mid) && Holds(rows, i, mid)
    ensures Covers(rows, lo, rows[i].end)
  {
    forall a: nat | lo <= a < rows[i].end ensures Held(rows, a) {
      if mid <= a { assert Holds(rows, i, a); }
    }
  }

  /** What the first n rows that meet lo..hi say: nothing if none does, else what they all allow. */
  predicate Narrowed(rows: seq<Row>, n: nat, lo: nat, hi: nat, none: bool, prot: Prot) {
    if none then forall j: nat {:trigger Meets(rows, j, lo, hi)} :: j < n ==> !Meets(rows, j, lo, hi)
    else Common(rows, n, lo, hi, prot)
  }

  function Both(a: Prot, b: Prot): Prot {
    Prot(a.read && b.read, a.write && b.write, a.exec && b.exec)
  }

  /** A counting row that meets the range narrows the common protection; no other row does. */
  lemma NarrowedNext(rows: seq<Row>, i: nat, lo: nat, hi: nat, none: bool, prot: Prot)
    requires i < |rows| && Narrowed(rows, i, lo, hi, none, prot)
    ensures Meets(rows, i, lo, hi) ==>
              Narrowed(rows, i + 1, lo, hi, false, if none then rows[i].perm else Both(prot, rows[i].perm))
    ensures !Meets(rows, i, lo, hi) ==> Narrowed(rows, i + 1, lo, hi, none, prot)
  {
  }

  lemma CommonEnds(rows: seq<Row>, i: nat, lo: nat, hi: nat, prot: Prot)
    requires Sorted(rows) && i < |rows| && hi <= rows[i].end && Common(rows, i + 1, lo, hi, prot)
    ensures Common(rows, |rows|, lo, hi, prot)
  {
    assert forall j: nat {:trigger Meets(rows, j, lo, hi)} :: i < j ==> !Meets(rows, j, lo, hi);
  }

  /** None of the first n rows holds a. */
  predicate NoneHolds(rows: seq<Row>, n: nat, a: nat) {
    forall j: nat {:trigger Holds(rows, j, a)} :: j < n ==> !Holds(rows, j, a)
  }

  lemma NoneHoldsNext(rows: seq<Row>, i: nat, a: nat)
    requires NoneHolds(rows, i, a) && !Holds(rows, i, a)
    ensures NoneHolds(rows, i + 1, a)
  {
  }

  lemma NoneHoldsEnd(rows: seq<Row>, i: nat)
    requires Sorted(rows) && i < |rows|
    ensures NoneHolds(rows, i + 1, rows[i].end)
  {
  }

  /** A counting row that begins beyond a leaves a gap there. */
  lemma GapHere(rows: seq<Row>, i: nat, a: nat)
    requires Sorted(rows) && i < |rows| && a < rows[i].start && NoneHolds(rows, i, a)
    ensures !Held(rows, a)
  {
  }

  /** Where the loop stands before row i: all of lo..at is held, by rows before i. */
  ghost predicate Reached(rows: seq<Row>, i: nat, lo: nat, hi: nat, at: nat, none: bool) {
    && lo <= at < hi && Covers(rows, lo, at) && i <= |rows|
    && if none then at == lo else exists last | 0 <= last < i :: at == rows[last].end
  }

  lemma StartsBeyond(rows: seq<Row>, i: nat, lo: nat, hi: nat, at: nat, none: bool)
    requires Sorted(rows) && Reached(rows, i, lo, hi, at, none) && Meets(rows, i, lo, hi) && !Holds(rows, i, at)
    ensures at < rows[i].start
  {
    if !none {
      var last :| 0 <= last < i && at == rows[last].end;
    }
  }

  lemma HeldMeets(rows: seq<Row>, i: nat, lo: nat, hi: nat, at: nat, none: bool)
    requires Reached(rows, i, lo, hi, at, none) && Holds(rows, i, at)
    ensures Meets(rows, i, lo, hi) && Covers(rows, lo, rows[i].end)
    ensures rows[i].end < hi ==> Reached(rows, i + 1, lo, hi, rows[i].end, false)
  {
    CoversOn(rows, i, lo, at);
  }

  /** A row that does not hold startAddr: it meets the range beyond a gap, or not at all. */
  lemma PassedRow(rows: seq<Row>, i: nat, lo: nat, hi: nat, at: nat, none: bool, prot: Prot) returns (missed: bool)
    requires Sorted(rows) && i < |rows| && Reached(rows, i, lo, hi, at, none) && !Holds(rows, i, at)
    requires NoneHolds(rows, i, at) && Narrowed(rows, i, lo, hi, none, prot)
    ensures if missed then !Held(rows, at)
            else NoneHolds(rows, i + 1, at) && Narrowed(rows, i + 1, lo, hi, none, prot)
  {
    missed := Meets(rows, i, lo, hi);
    if missed {
      StartsBeyond(rows, i, lo, hi, at, none);
      GapHere(rows, i, at);
    } else {
      NarrowedNext(rows, i, lo, hi, none, prot);
      NoneHoldsNext(rows, i, at);
    }
  }

  /** xh_util_get_mem_protect: the common protection of a range, or None (XH_ERRNO_SEGVERR). */
  method GetMemProtect(rows: seq<Row>, addr: nat, len: nat) returns (r: Option<Prot>)
    requires Sorted(rows) && len > 0
    ensures r.Some? <==> Covers(rows, addr, addr + len)
    ensures r.Some? ==> Common(rows, |rows|, addr, addr + len, r.value)
  {
    var startAddr: nat, endAddr: nat := addr, addr + len;
    var load0, foundAll, prot := true, false, Prot(false, false, false);
    ghost var missed := false;    // a counting row began beyond startAddr
    var i: nat := 0;
    while i < |rows|
      invariant Reached(rows, i, addr, endAddr, startAddr, load0)
      invariant if missed then !Held(rows, startAddr)
                else NoneHolds(rows, i, startAddr) && Narrowed(rows, i, addr, endAddr, load0, prot)
    {
      var row := rows[i];
      if row.named && row.private && row.start <= startAddr < row.end {
        assert Holds(rows, i, startAddr);
        HeldMeets(rows, i, addr, endAddr, startAddr, load0);
        NarrowedNext(rows, i, addr, endAddr, load0, prot);
        if load0 {
          prot := row.perm;
          load0 := false;
        } else {
          prot := Both(prot, row.perm);
        }
        if endAddr <= row.end {
          CommonEnds(rows, i, addr, endAddr, prot);
          foundAll := true;
          break;
        }
        startAddr := row.end;
        NoneHoldsEnd(rows, i);
      } else if !missed {
        missed := PassedRow(rows, i, addr, endAddr, startAddr, load0, prot);
      }
      i := i + 1;
    }
    if !foundAll {
      assert !Held(rows, startAddr);
      return None;
    }
    r := Some(prot);
  }

  // ---- The page macros, for w-bit addresses and pages of Pow2(k) bytes ----

  /** PAGE_START: the address with its low k bits masked off. */
  function PageStart(addr: nat, k: nat, w: nat): nat
    requires k <= w
  {
    Pow2Monotonic(k, w);
    BitAnd(addr, Pow2(w) - Pow2(k))
  }

  function PageEnd(addr: nat, word: nat, k: nat, w: nat): nat
    requires k <= w && word > 0
  {
    PageStart(addr + word - 1, k, w) + Pow2(k)
  }

  function PageCover(addr: nat, word: nat, k: nat, w: nat): int
    requires k <= w && word > 0
  {
    PageEnd(addr, word, k, w) - PageStart(addr, k, w)
  }

  lemma {:induction false} MaskAll(addr: nat, w: nat)
    requires addr < Pow2(w)
    ensures BitAnd(addr, Pow2(w) - 1) == addr
  {
    AndMask(addr, w);
    ModUnique(addr, 0, addr, Pow2(w));
  }

  lemma {:induction false} RoundHalf(addr: nat, mask: nat, half: nat, page: nat, p: nat)
    requires p > 0 && mask == 2 * half && page == 2 * p && BitAnd(addr / 2, half) == addr / 2 - addr / 2 % p
    ensures BitAnd(addr, mask) == addr - addr % page
  {
    assert BitAnd(addr, mask) == 2 * BitAnd(addr / 2, half);
    ModDouble(addr, p);
  }

  lemma {:induction false} MaskRounds(addr: nat, k: nat, w: nat, mask: nat)
    requires k <= w && addr < Pow2(w) && mask == Pow2(w) - Pow2(k)
    ensures BitAnd(addr, mask) == addr - addr % Pow2(k)
    decreases k
  {
    if k == 0 {
      MaskAll(addr, w);
    } else {
      var half := Pow2(w - 1) - Pow2(k - 1);
      MaskRounds(addr / 2, k - 1, w - 1, half);
      RoundHalf(addr, mask, half, Pow2(k), Pow2(k - 1));
    }
  }

  /** Masking rounds down to a page boundary. */
  lemma {:induction false} PageStartRounds(addr: nat, k: nat, w: nat)
    requires k <= w && addr < Pow2(w)
    ensures PageStart(addr, k, w) == addr - addr % Pow2(k)
  {
    Pow2Monotonic(k, w);
    MaskRounds(addr, k, w, Pow2(w) - Pow2(k));
  }

  lemma {:induction false} Rounded(a: nat, p: nat)
    requires p > 0
    ensures 0 <= a - a % p <= a < a - a % p + p
    ensures (a - a % p) % p == 0 && (a - a % p + p) % p == 0
  {
    RoundsToMultiple(a, p);
    ModMultiple(a - a % p, 1, p);
    assert a == (a / p) * p + a % p;
    MultipleBound(a / p, p);
  }

  lemma {:induction false} PageHolds(a: nat, k: nat, w: nat)
    requires k <= w && a < Pow2(w)
    ensures PageStart(a, k, w) <= a < PageStart(a, k, w) + Pow2(k)
    ensures PageStart(a, k, w) % Pow2(k) == 0 && (PageStart(a, k, w) + Pow2(k)) % Pow2(k) == 0
  {
    PageStartRounds(a, k, w);
    Rounded(a, Pow2(k));
  }

  /** The pages from PAGE_START to PAGE_END hold every byte of the word at addr, and begin and end
    * on the pages of its first and last byte. */
  lemma {:induction false} PageCoversWord(addr: nat, word: nat, k: nat, w: nat)
    requires k <= w && word > 0 && addr + word <= Pow2(w)
    ensures PageStart(addr, k, w) <= addr < PageStart(addr, k, w) + Pow2(k)
    ensures PageEnd(addr, word, k, w) - Pow2(k) < addr + word <= PageEnd(addr, word, k, w)
    ensures PageStart(addr, k, w) % Pow2(k) == 0 && PageEnd(addr, word, k, w) % Pow2(k) == 0
  {
    PageHolds(addr, k, w);
    PageHolds(addr + word - 1, k, w);
  }

  lemma RoundsToMultiple(a: nat, p: nat)
    requires p > 0
    ensures (a - a % p) % p == 0
  {
    ModUnique(a - a % p, a / p, 0, p);
  }

  lemma RemainderOfMultiple(a: nat, u: nat, m: nat)
    requires u > 0 && m > 0 && a % u == 0 && m * u > 0
    ensures a % (m * u) % u == 0
  {
    var q, r := a / (m * u), a % (m * u);
    assert a == q * (m * u) + r;
    assert q * (m * u) == (q * m) * u;
    ModMultiple(r, q * m, u);
  }

  lemma MultipleBelow(r: nat, u: nat, m: nat)
    requires u > 0 && r % u == 0 && r < m * u
    ensures r + u <= m * u
  {
    var d := m - r / u;
    assert d * u == m * u - r;
    MultipleBound(d, u);
  }

  /** A multiple of Pow2(c) is at least Pow2(c) short of the next multiple of Pow2(k). */
  lemma {:induction false} WithinMultiple(a: nat, c: nat, k: nat)
    requires c <= k && a % Pow2(c) == 0
    ensures a % Pow2(k) + Pow2(c) <= Pow2(k)
  {
    Pow2Sum(k - c, c);
    RemainderOfMultiple(a, Pow2(c), Pow2(k - c));
    MultipleBelow(a % Pow2(k), Pow2(c), Pow2(k - c));
  }

  lemma SameRound(addr: nat, a: nat, p: nat)
    requires p > 0 && addr <= a && addr % p + (a - addr) < p
    ensures a - a % p == addr - addr % p
  {
    ModUnique(a, addr / p, addr % p + (a - addr), p);
  }

  lemma {:induction false} AlignedFits(addr: nat, c: nat, w: nat)
    requires c <= w && addr < Pow2(w) && addr % Pow2(c) == 0
    ensures addr + Pow2(c) <= Pow2(w)
  {
    WithinMultiple(addr, c, w);
    ModUnique(addr, 0, addr, Pow2(w));
  }

  /** Every byte of a pointer-aligned word lies on the page of the first. */
  lemma {:induction false} AlignedSamePage(addr: nat, a: nat, c: nat, k: nat, w: nat)
    requires c <= k <= w && addr < Pow2(w) && addr % Pow2(c) == 0 && addr <= a < addr + Pow2(c)
    ensures a < Pow2(w) && PageStart(a, k, w) == PageStart(addr, k, w)
  {
    AlignedFits(addr, c, w);
    WithinMultiple(addr, c, k);
    SameRound(addr, a, Pow2(k));
    PageStartRounds(addr, k, w);
    PageStartRounds(a, k, w);
  }

  /** A pointer-aligned word lies on exactly one page. */
  lemma {:induction false} AlignedOnOnePage(addr: nat, c: nat, k: nat, w: nat)
    requires c <= k <= w && addr < Pow2(w) && addr % Pow2(c) == 0
    ensures PageCover(addr, Pow2(c), k, w) == Pow2(k)
  {
    AlignedSamePage(addr, addr + Pow2(c) - 1, c, k, w);
  }

  // ---- A listing of pages ----

  /** The rows show exactly these private pages, keyed by their start, with their protections. */
  ghost predicate Lists(rows: seq<Row>, pages: map<nat, Prot>, k: nat, w: nat)
    requires k <= w
  {
    && Sorted(rows)
    && (forall j: nat, a: nat {:trigger Holds(rows, j, a)} :: Holds(rows, j, a) ==>
          PageStart(a, k, w) in pages && pages[PageStart(a, k, w)] == rows[j].perm)
    && (forall a: nat {:trigger Held(rows, a)} :: a < Pow2(w) && PageStart(a, k, w) in pages ==> Held(rows, a))
  }

  /** For a pointer-aligned word the listing answers with the protection of its page. */
  lemma {:induction false} ListedWord(rows: seq<Row>, pages: map<nat, Prot>, addr: nat, c: nat, k: nat, w: nat,
                                      r: Option<Prot>)
    requires c <= k <= w && addr < Pow2(w) && addr % Pow2(c) == 0 && Lists(rows, pages, k, w)
    requires r.Some? <==> Covers(rows, addr, addr + Pow2(c))
    requires r.Some? ==> Common(rows, |rows|, addr, addr + Pow2(c), r.value)
    ensures r == if PageStart(addr, k, w) in pages then Some(pages[PageStart(addr, k, w)]) else None
  {
    var start, hi := PageStart(addr, k, w), addr + Pow2(c);
    forall a: nat | addr <= a < hi ensures Held(rows, a) <==> start in pages {
      AlignedSamePage(addr, a, c, k, w);
      if Held(rows, a) {
        var j: nat :| Holds(rows, j, a);
      }
    }
    assert Covers(rows, addr, hi) ==> Held(rows, addr);
    if start in pages {
      forall j: nat | Meets(rows, j, addr, hi) ensures rows[j].perm == pages[start] {
        var a := if rows[j].start < addr then addr else rows[j].start;
        AlignedSamePage(addr, a, c, k, w);
        assert Holds(rows, j, a);
      }
      var j: nat :| Holds(rows, j, addr);
      assert Meets(rows, j, addr, hi);
    }
  }

  /** One row for each of the first n pages that is mapped. */
  function Listing(pages: map<nat, Prot>, n: nat, k: nat): seq<Row> {
    if n == 0 then []
    else
      var start := (n - 1) * Pow2(k);
      Listing(pages, n - 1, k)
      + if start in pages then [Row(start, start + Pow2(k), pages[start], true, true)] else []
  }

  /** The row of a mapped page below the n-th. */
  predicate PageRow(row: Row, pages: map<nat, Prot>, n: nat, k: nat) {
    && row.private && row.named && row.start in pages && row.perm == pages[row.start]
    && row.end == row.start + Pow2(k) <= n * Pow2(k) && row.start % Pow2(k) == 0
  }

  lemma {:induction false} PageNext(n: nat, p: nat)
    requires p > 0
    ensures (n * p) % p == 0 && n * p + p == (n + 1) * p
  {
    ModMultiple(0, n, p);
    assert 0 % p == 0;
  }

  lemma {:induction false} ListingRows(pages: map<nat, Prot>, n: nat, k: nat)
    ensures Sorted(Listing(pages, n, k))
    ensures forall j | 0 <= j < |Listing(pages, n, k)| :: PageRow(Listing(pages, n, k)[j], pages, n, k)
  {
    if n > 0 {
      ListingRows(pages, n - 1, k);
      PageNext(n - 1, Pow2(k));
    }
  }

  lemma {:induction false} ListingHas(pages: map<nat, Prot>, n: nat, k: nat, q: nat) returns (j: nat)
    requires q < n && q * Pow2(k) in pages
    ensures j < |Listing(pages, n, k)| && Listing(pages, n, k)[j].start == q * Pow2(k)
  {
    if q == n - 1 {
      j := |Listing(pages, n - 1, k)|;
    } else {
      j := ListingHas(pages, n - 1, k, q);
    }
  }

  lemma {:induction false} QuotientBelow(a: nat, n: nat, p: nat)
    requires p > 0 && a < n * p
    ensures a / p < n && a - a % p == (a / p) * p
  {
    MultipleBound(a / p - n, p);
    assert (a / p - n) * p == (a / p) * p - n * p;
  }

  lemma {:induction false} PageOf(start: nat, a: nat, k: nat, w: nat)
    requires k <= w && start <= a < start + Pow2(k) && start % Pow2(k) == 0 && a < Pow2(w)
    ensures PageStart(a, k, w) == start
  {
    SameRound(start, a, Pow2(k));
    PageStartRounds(a, k, w);
  }

  lemma {:induction false} PageNumber(a: nat, k: nat, w: nat) returns (q: nat)
    requires k <= w && a < Pow2(w)
    ensures q < Pow2(w - k) && PageStart(a, k, w) == q * Pow2(k) <= a < q * Pow2(k) + Pow2(k)
  {
    q := a / Pow2(k);
    Pow2Sum(w - k, k);
    PageStartRounds(a, k, w);
    QuotientBelow(a, Pow2(w - k), Pow2(k));
    Rounded(a, Pow2(k));
  }

  /** Such a listing exists for any pages: of all page starts, the mapped ones. */
  lemma {:induction false} ListingLists(pages: map<nat, Prot>, k: nat, w: nat)
    requires k <= w
    ensures Lists(Listing(pages, Pow2(w - k), k), pages, k, w)
  {
    var n, rows := Pow2(w - k), Listing(pages, Pow2(w - k), k);
    Pow2Sum(w - k, k);
    ListingRows(pages, n, k);
    forall j: nat, a: nat | Holds(rows, j, a)
      ensures PageStart(a, k, w) in pages && pages[PageStart(a, k, w)] == rows[j].perm
    {
      assert PageRow(rows[j], pages, n, k);
      PageOf(rows[j].start, a, k, w);
    }
    forall a: nat | a < Pow2(w) && PageStart(a, k, w) in pages
      ensures Held(rows, a)
    {
      var q := PageNumber(a, k, w);
      var j := ListingHas(pages, n, k, q);
      assert PageRow(rows[j], pages, n, k);
      assert Holds(rows, j, a);
    }
  }
}
