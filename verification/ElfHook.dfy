/** Hooking a symbol of a loaded ELF file: the words its relocations name are made to point to a
  * new function, under page protections that the kernel may refuse to change. */
module ElfHook {
  import opened CString
  import opened Wrappers
  import opened Powers
  import opened Sleb128
  import opened PackedReloc
  import opened SymbolIndex
  import opened MemProtect

  // The code returns these; specifications name the numbers of xh_errno.h.
  const ERRNO_UNKNOWN := 1001
  const ERRNO_INVAL := 1002
  const ERRNO_FORMAT := 1007
  const ERRNO_ELFINIT := 1008
  const ERRNO_SEGVERR := 1009

  const READ_WRITE := Prot(true, true, false)

  // ---- The file ----

  /** The relocation types of the machine. */
  datatype Types = Types(jumpSlot: nat, globDat: nat, abs: nat)

  /** An initialised xh_elf_t: tables that are absent are empty. */
  datatype Elf = Elf(pathname: Option<Str>, base: nat, bias: nat, rela: bool, types: Types,
                     plt: seq<Reloc>, dyn: seq<Reloc>, android: seq<Byte>,
                     symbols: Symbols, index: Index, bloomBits: nat)

  /** XH_ELF_R_SYM */
  function SymOf(info: nat, w: nat): nat {
    if w == 64 then info / 0x1_0000_0000 else info / 0x100
  }

  /** XH_ELF_R_TYPE */
  function TypeOf(info: nat, w: nat): nat {
    if w == 64 then info % 0x1_0000_0000 else info % 0x100
  }

  /** The hash table indexes the symbols. */
  ghost predicate Indexed(elf: Elf, lists: seq<seq<nat>>) {
    Indexes(elf.symbols, elf.index, elf.bloomBits, lists)
  }

  /** An indexed symbol has the name. */
  predicate Names(elf: Elf, symbol: Str) {
    exists i | (if elf.index.Gnu? then 0 else 1) <= i < |elf.symbols.stName| :: elf.symbols.Name(i) == symbol
  }

  /** ELF32_R_INFO and ELF64_R_INFO: the symbol above a type of 8 or 32 bits. */
  function RInfo(sym: nat, rType: nat, w: nat): nat {
    if w == 64 then sym * 0x1_0000_0000 + rType else sym * 0x100 + rType
  }

  predicate IsInfo(info: nat, sym: nat, rType: nat, w: nat) {
    rType < (if w == 64 then 0x1_0000_0000 else 0x100) && info == RInfo(sym, rType, w)
  }

  /** The two macros take a relocation's info apart again. */
  lemma {:induction false} InfoParts(info: nat, sym: nat, rType: nat, w: nat)
    ensures SymOf(info, w) == sym && TypeOf(info, w) == rType <==> IsInfo(info, sym, rType, w)
  {
  }

  /** A relocation to be replaced: its info is that of the symbol with a type that fits its table. */
  predicate Wants(elf: Elf, isPlt: bool, symidx: nat, rel: Reloc, w: nat) {
    if isPlt then IsInfo(rel.info, symidx, elf.types.jumpSlot, w)
    else IsInfo(rel.info, symidx, elf.types.globDat, w) || IsInfo(rel.info, symidx, elf.types.abs, w)
  }

  function Slot(elf: Elf, rel: Reloc, w: nat): nat {
    Word(elf.bias + rel.offset, w)
  }

  /** The slots of all fitting relocations, in order. */
  function AllSlots(elf: Elf, isPlt: bool, symidx: nat, rels: seq<Reloc>, w: nat): seq<nat> {
    if rels == [] then []
    else (if Wants(elf, isPlt, symidx, rels[0], w) then [Slot(elf, rels[0], w)] else [])
         + AllSlots(elf, isPlt, symidx, rels[1..], w)
  }

  /** The slot of the first fitting relocation. */
  function FirstSlot(elf: Elf, symidx: nat, rels: seq<Reloc>, w: nat): seq<nat> {
    if rels == [] then []
    else if Wants(elf, true, symidx, rels[0], w) then [Slot(elf, rels[0], w)]
    else FirstSlot(elf, symidx, rels[1..], w)
  }

  /** The slots a hook replaces: the first in the PLT table, all in the other two. */
  function Wanted(elf: Elf, symidx: nat, w: nat): seq<nat> {
    FirstSlot(elf, symidx, elf.plt, w) + AllSlots(elf, false, symidx, elf.dyn, w)
    + AllSlots(elf, false, symidx, Relocs(elf.android, elf.rela, w), w)
  }

  // ---- Memory ----

  /** The kernel: which mprotect call it grants, what errno a refused one sets, and how it lists
    * protections. Pages have Pow2(k) bytes. */
  datatype Kernel = Kernel(k: nat, grants: nat -> bool, errnos: nat -> nat, listing: map<nat, Prot> -> seq<Row>)

  /** Words by address, private pages of the file by start, the number of mprotect calls so far,
    * and *old_func if it has been written. */
  datatype World = World(words: map<nat, nat>, pages: map<nat, Prot>, calls: nat, saved: Option<nat>)

  datatype Outcome = Outcome(world: World, err: nat)

  /** The words that may be read are there. */
  predicate Readable(words: map<nat, nat>, base: nat, addrs: seq<nat>) {
    forall a | a in addrs && base <= a :: a in words
  }

  function Errno(kernel: Kernel, call: nat): (r: nat)
    ensures r > 0
  {
    if kernel.errnos(call) == 0 then 1001 else kernel.errnos(call)
  }

  /** What replacing one slot comes to. */
  function ReplaceOne(kernel: Kernel, w: nat, x: World, base: nat, addr: nat, newFunc: nat, keep: bool): (r: Outcome)
    requires kernel.k <= w && (base <= addr ==> addr in x.words)
    ensures r.world.words.Keys == x.words.Keys
  {
    if addr < base then Outcome(x, 1007)
    else if x.words[addr] == newFunc then Outcome(x, 0)
    else
      var page := PageStart(addr, kernel.k, w);
      var hooked := x.(words := x.words[addr := newFunc], saved := if keep then Some(x.words[addr]) else x.saved);
      if page !in x.pages then Outcome(x, 1009)
      else if x.pages[page] == Prot(true, true, false) then Outcome(hooked, 0)
      else if !kernel.grants(x.calls) then Outcome(x.(calls := x.calls + 1), Errno(kernel, x.calls))
      else
        var restored := if kernel.grants(x.calls + 1) then x.pages else x.pages[page := Prot(true, true, false)];
        Outcome(hooked.(calls := x.calls + 2, pages := restored), 0)
  }

  /** Slot after slot, up to the first error. */
  function ReplaceAll(kernel: Kernel, w: nat, x: World, base: nat, addrs: seq<nat>, newFunc: nat,
                      keep: bool): (r: Outcome)
    requires kernel.k <= w && Readable(x.words, base, addrs)
    ensures r.world.words.Keys == x.words.Keys
    decreases |addrs|
  {
    if addrs == [] then Outcome(x, 0)
    else
      var one := ReplaceOne(kernel, w, x, base, addrs[0], newFunc, keep);
      if one.err != 0 then one else ReplaceAll(kernel, w, one.world, base, addrs[1..], newFunc, keep)
  }

  // ---- What a hook does ----

  /** The words with the slots replaced and nothing else. */
  function Patched(words: map<nat, nat>, addrs: seq<nat>, newFunc: nat): map<nat, nat> {
    map a | a in words :: if a in addrs then newFunc else words[a]
  }

  lemma PatchedCons(words: map<nat, nat>, a: nat, addrs: seq<nat>, newFunc: nat)
    requires a in words
    ensures Patched(words[a := newFunc], addrs, newFunc) == Patched(words, [a] + addrs, newFunc)
  {
  }

  lemma OneReplaces(kernel: Kernel, w: nat, x: World, base: nat, addr: nat, newFunc: nat, keep: bool)
    requires kernel.k <= w && (base <= addr ==> addr in x.words)
    ensures var r := ReplaceOne(kernel, w, x, base, addr, newFunc, keep);
            if r.err == 0 then base <= addr && r.world.words == x.words[addr := newFunc]
            else r.world.words == x.words && r.world.saved == x.saved
  {
  }

  /** On success exactly the wanted slots hold the new function; after an error, exactly the n
    * before the failing one. */
  lemma {:induction false} ReplacesExactly(kernel: Kernel, w: nat, x: World, base: nat, addrs: seq<nat>, newFunc: nat,
                                           keep: bool) returns (n: nat)
    requires kernel.k <= w && Readable(x.words, base, addrs)
    ensures n <= |addrs| && forall i | 0 <= i < n :: base <= addrs[i]
    ensures var r := ReplaceAll(kernel, w, x, base, addrs, newFunc, keep);
            r.world.words == Patched(x.words, addrs[..n], newFunc) && (r.err == 0 <==> n == |addrs|)
    decreases |addrs|
  {
    n := 0;
    if addrs != [] {
      OneReplaces(kernel, w, x, base, addrs[0], newFunc, keep);
      var one := ReplaceOne(kernel, w, x, base, addrs[0], newFunc, keep);
      if one.err == 0 {
        var m := ReplacesExactly(kernel, w, one.world, base, addrs[1..], newFunc, keep);
        n := m + 1;
        PatchedCons(x.words, addrs[0], addrs[1..][..m], newFunc);
        assert addrs[..n] == [addrs[0]] + addrs[1..][..m];
      }
    }
  }

  lemma {:induction false} OneRestores(kernel: Kernel, w: nat, x: World, base: nat, addr: nat, newFunc: nat, keep: bool)
    requires kernel.k <= w && (base <= addr ==> addr in x.words)
    ensures var r := ReplaceOne(kernel, w, x, base, addr, newFunc, keep);
            && x.calls <= r.world.calls && r.world.pages.Keys == x.pages.Keys
            && ((forall i: nat :: x.calls <= i < r.world.calls ==> kernel.grants(i)) ==>
                  r.world.pages == x.pages && r.err in {0, 1007, 1009})
  {
    var r := ReplaceOne(kernel, w, x, base, addr, newFunc, keep);
    if x.calls < r.world.calls && kernel.grants(x.calls) {
      assert x.calls + 1 < r.world.calls;
    }
  }

  /** When the kernel grants every change, all pages have their protections back. */
  lemma {:induction false} RestoresPages(kernel: Kernel, w: nat, x: World, base: nat, addrs: seq<nat>, newFunc: nat,
                                         keep: bool)
    requires kernel.k <= w && Readable(x.words, base, addrs)
    ensures var r := ReplaceAll(kernel, w, x, base, addrs, newFunc, keep);
            && x.calls <= r.world.calls && r.world.pages.Keys == x.pages.Keys
            && ((forall i: nat :: x.calls <= i < r.world.calls ==> kernel.grants(i)) ==>
                  r.world.pages == x.pages && r.err in {0, 1007, 1009})
    decreases |addrs|
  {
    if addrs != [] {
      OneRestores(kernel, w, x, base, addrs[0], newFunc, keep);
      var one := ReplaceOne(kernel, w, x, base, addrs[0], newFunc, keep);
      if one.err == 0 {
        RestoresPages(kernel, w, one.world, base, addrs[1..], newFunc, keep);
      }
    }
  }

  /** Replacing two lists of slots is replacing one list and, unless that fails, the other. */
  lemma {:induction false} ReplaceAppend(kernel: Kernel, w: nat, x: World, base: nat, a: seq<nat>, b: seq<nat>,
                                         newFunc: nat, keep: bool)
    requires kernel.k <= w && Readable(x.words, base, a) && Readable(x.words, base, b) && Readable(x.words, base, a + b)
    ensures var r := ReplaceAll(kernel, w, x, base, a, newFunc, keep);
            ReplaceAll(kernel, w, x, base, a + b, newFunc, keep)
            == if r.err != 0 then r else ReplaceAll(kernel, w, r.world, base, b, newFunc, keep)
    decreases |a|
  {
    if a == [] {
      assert a + b == b;
    } else {
      var one := ReplaceOne(kernel, w, x, base, a[0], newFunc, keep);
      assert (a + b)[1..] == a[1..] + b;
      if one.err == 0 {
        ReplaceAppend(kernel, w, one.world, base, a[1..], b, newFunc, keep);
      }
    }
  }

  /** The original word of the last slot that is replaced: a slot that already holds the new
    * function, or came before, is not replaced. */
  function LastReplaced(words: map<nat, nat>, addrs: seq<nat>, newFunc: nat): (r: Option<nat>)
    ensures r.Some? ==> r.value != newFunc && exists a :: a in addrs && a in words && words[a] == r.value
  {
    if addrs == [] then None
    else
      var n := |addrs| - 1;
      if addrs[n] in words && words[addrs[n]] != newFunc && addrs[n] !in addrs[..n] then Some(words[addrs[n]])
      else LastReplaced(words, addrs[..n], newFunc)
  }

  /** *old_func after the first n slots: the last word replaced, or untouched. */
  predicate SavedAfter(x: World, y: World, addrs: seq<nat>, n: nat, newFunc: nat, keep: bool) {
    n <= |addrs| &&
    y.saved == (if keep && LastReplaced(x.words, addrs[..n], newFunc).Some?
                then LastReplaced(x.words, addrs[..n], newFunc)
                else x.saved)
  }

  lemma SavesOne(kernel: Kernel, w: nat, x: World, y: World, base: nat, addrs: seq<nat>, n: nat, newFunc: nat,
                 keep: bool)
    requires kernel.k <= w && n < |addrs| && (base <= addrs[n] ==> addrs[n] in x.words)
    requires y.words == Patched(x.words, addrs[..n], newFunc) && SavedAfter(x, y, addrs, n, newFunc, keep)
    ensures var r := ReplaceOne(kernel, w, y, base, addrs[n], newFunc, keep);
            SavedAfter(x, r.world, addrs, if r.err == 0 then n + 1 else n, newFunc, keep)
  {
    assert addrs[..n + 1][..n] == addrs[..n];
  }

  lemma {:induction false} SavesUpTo(kernel: Kernel, w: nat, x: World, base: nat, addrs: seq<nat>, m: nat, newFunc: nat,
                                     keep: bool) returns (n: nat)
    requires kernel.k <= w && m <= |addrs| && Readable(x.words, base, addrs[..m])
    ensures var r := ReplaceAll(kernel, w, x, base, addrs[..m], newFunc, keep);
            n <= m && (r.err == 0 <==> n == m) && SavedAfter(x, r.world, addrs, n, newFunc, keep)
  {
    n := 0;
    if m > 0 {
      var init := addrs[..m - 1];
      assert addrs[..m] == init + [addrs[m - 1]];
      ReplaceAppend(kernel, w, x, base, init, [addrs[m - 1]], newFunc, keep);
      n := SavesUpTo(kernel, w, x, base, addrs, m - 1, newFunc, keep);
      var r := ReplaceAll(kernel, w, x, base, init, newFunc, keep);
      if r.err == 0 {
        var all := ReplacesExactly(kernel, w, x, base, init, newFunc, keep);
        assert init[..m - 1] == init;
        SavesOne(kernel, w, x, r.world, base, addrs, n, newFunc, keep);
        n := if ReplaceOne(kernel, w, r.world, base, addrs[n], newFunc, keep).err == 0 then m else n;
      }
    }
  }

  /** On success *old_func holds the original word of the last slot that was replaced; it is
    * untouched when none was, or when the caller wants none. */
  lemma {:induction false} SavesLast(kernel: Kernel, w: nat, x: World, base: nat, addrs: seq<nat>, newFunc: nat,
                                     keep: bool)
    requires kernel.k <= w && Readable(x.words, base, addrs)
    requires ReplaceAll(kernel, w, x, base, addrs, newFunc, keep).err == 0
    ensures ReplaceAll(kernel, w, x, base, addrs, newFunc, keep).world.saved
            == if keep && LastReplaced(x.words, addrs, newFunc).Some? then LastReplaced(x.words, addrs, newFunc)
              else x.saved
  {
    assert addrs[..|addrs|] == addrs;
    var n := SavesUpTo(kernel, w, x, base, addrs, |addrs|, newFunc, keep);
  }

  lemma {:induction false} AlreadyHooked(kernel: Kernel, w: nat, x: World, base: nat, addrs: seq<nat>, newFunc: nat,
                                         keep: bool)
    requires kernel.k <= w && Readable(x.words, base, addrs)
    requires forall a | a in addrs :: base <= a && a in x.words && x.words[a] == newFunc
    ensures ReplaceAll(kernel, w, x, base, addrs, newFunc, keep) == Outcome(x, 0)
    decreases |addrs|
  {
    if addrs != [] {
      assert addrs[0] in addrs && forall a | a in addrs[1..] :: a in addrs;
      AlreadyHooked(kernel, w, x, base, addrs[1..], newFunc, keep);
    }
  }

  /** After a hook that succeeds, the same hook again changes nothing and asks the kernel for nothing. */
  lemma {:induction false} HookAgain(kernel: Kernel, w: nat, x: World, base: nat, addrs: seq<nat>, newFunc: nat,
                                     keep: bool)
    requires kernel.k <= w && Readable(x.words, base, addrs)
    requires ReplaceAll(kernel, w, x, base, addrs, newFunc, keep).err == 0
    ensures var r := ReplaceAll(kernel, w, x, base, addrs, newFunc, keep);
            ReplaceAll(kernel, w, r.world, base, addrs, newFunc, keep) == r
  {
    var r := ReplaceAll(kernel, w, x, base, addrs, newFunc, keep);
    var n := ReplacesExactly(kernel, w, x, base, addrs, newFunc, keep);
    assert addrs[..n] == addrs;
    AlreadyHooked(kernel, w, r.world, base, addrs, newFunc, keep);
  }

  /** The wanted slots are those of fitting relocations. */
  lemma {:induction false} AllSlotsMeans(elf: Elf, isPlt: bool, symidx: nat, rels: seq<Reloc>, w: nat, a: nat)
    ensures a in AllSlots(elf, isPlt, symidx, rels, w) <==>
            exists rel :: rel in rels && Wants(elf, isPlt, symidx, rel, w) && Slot(elf, rel, w) == a
  {
    if rels != [] {
      AllSlotsMeans(elf, isPlt, symidx, rels[1..], w, a);
      assert forall rel :: rel in rels <==> rel == rels[0] || rel in rels[1..];
    }
  }

  lemma {:induction false} FirstSlotMeans(elf: Elf, symidx: nat, rels: seq<Reloc>, w: nat) returns (i: nat)
    ensures i <= |rels| && forall j | 0 <= j < i :: !Wants(elf, true, symidx, rels[j], w)
    ensures if i == |rels| then FirstSlot(elf, symidx, rels, w) == []
            else Wants(elf, true, symidx, rels[i], w) && FirstSlot(elf, symidx, rels, w) == [Slot(elf, rels[i], w)]
  {
    i := 0;
    if rels != [] && !Wants(elf, true, symidx, rels[0], w) {
      var k := FirstSlotMeans(elf, symidx, rels[1..], w);
      i := k + 1;
    }
  }

  lemma {:induction false} AllSlotsCons(elf: Elf, symidx: nat, rels: seq<Reloc>, w: nat)
    requires rels != []
    ensures var slots := AllSlots(elf, false, symidx, rels, w);
            var rest := AllSlots(elf, false, symidx, rels[1..], w);
            if Wants(elf, false, symidx, rels[0], w)
            then slots != [] && slots[0] == Slot(elf, rels[0], w) && slots[1..] == rest
            else slots == rest
  {
  }

  // ---- The code ----

  /** Words are 2^c bytes, w bits, and pages are no smaller. */
  ghost predicate Machine(kernel: Kernel, c: nat, w: nat) {
    && c <= kernel.k <= w
    && forall pages {:trigger kernel.listing(pages)} :: Lists(kernel.listing(pages), pages, kernel.k, w)
  }

  class Memory {
    const kernel: Kernel
    const c: nat
    const w: nat
    var words: map<nat, nat>
    var pages: map<nat, Prot>
    var calls: nat
    var saved: Option<nat>

    /** A process whose kernel lists every mapped page, and refuses mprotect calls as given. */
    constructor (c: nat, k: nat, w: nat, grants: nat -> bool, errnos: nat -> nat, words: map<nat, nat>,
                 pages: map<nat, Prot>)
      requires c <= k <= w && forall a | a in words :: a < Pow2(w) && a % Pow2(c) == 0
      ensures Valid() && kernel.k == k && this.c == c && this.w == w && Value() == World(words, pages, 0, None)
      ensures kernel.grants == grants && kernel.errnos == errnos
    {
      var n := Pow2(w - k);
      this.c, this.w, this.words, this.pages, calls, saved := c, w, words, pages, 0, None;
      kernel := Kernel(k, grants, errnos, mapped => Listing(mapped, n, k));
      new;
      forall mapped {:trigger kernel.listing(mapped)} ensures Lists(kernel.listing(mapped), mapped, k, w) {
        ListingLists(mapped, k, w);
      }
    }

    ghost predicate Valid()
      reads this
    {
      Machine(kernel, c, w) && forall a | a in words :: a < Pow2(w) && a % Pow2(c) == 0
    }

    ghost function Value(): World
      reads this
    {
      World(words, pages, calls, saved)
    }

    /** Writing faults unless the page may be written. */
    method Store(addr: nat, value: nat)
      requires Valid() && addr in words
      requires PageStart(addr, kernel.k, w) in pages && pages[PageStart(addr, kernel.k, w)].write
      modifies this`words
      ensures Valid() && words == old(words)[addr := value]
    {
      words := words[addr := value];
    }

    /** xh_util_get_addr_protect */
    method AddrProtect(addr: nat) returns (r: Option<Prot>)
      requires Valid() && addr in words
      ensures r == if PageStart(addr, kernel.k, w) in pages then Some(pages[PageStart(addr, kernel.k, w)]) else None
    {
      var rows := kernel.listing(pages);
      r := GetMemProtect(rows, addr, Pow2(c));
      ListedWord(rows, pages, addr, c, kernel.k, w, r);
    }

    /** xh_util_set_addr_protect: mprotect on the page of a pointer-aligned word. */
    method SetAddrProtect(addr: nat, prot: Prot) returns (r: nat)
      requires Valid() && addr in words && PageStart(addr, kernel.k, w) in pages
      modifies this`pages, this`calls
      ensures Valid() && calls == old(calls) + 1
      ensures r == if kernel.grants(old(calls)) then 0 else Errno(kernel, old(calls))
      ensures pages == if r == 0 then old(pages)[PageStart(addr, kernel.k, w) := prot] else old(pages)
    {
      AlignedOnOnePage(addr, c, kernel.k, w);
      assert PageCover(addr, Pow2(c), kernel.k, w) == Pow2(kernel.k);
      var call := calls;
      calls := calls + 1;
      if !kernel.grants(call) {
        return if kernel.errnos(call) == 0 then ERRNO_UNKNOWN else kernel.errnos(call);
      }
      pages := pages[PageStart(addr, kernel.k, w) := prot];
      r := 0;
    }

    /** xh_elf_replace_function */
    method ReplaceFunction(addr: nat, newFunc: nat, keep: bool, ghost base: nat) returns (r: nat)
      requires Valid() && addr in words && base <= addr
      modifies this
      ensures Valid() && Outcome(Value(), r) == ReplaceOne(kernel, w, old(Value()), base, addr, newFunc, keep)
    {
      if words[addr] == newFunc { return 0; }
      var prot := AddrProtect(addr);
      if prot.None? { return ERRNO_SEGVERR; }
      var oldProt := prot.value;
      if oldProt != READ_WRITE {
        r := SetAddrProtect(addr, READ_WRITE);
        if r != 0 { return; }
      }
      if keep {
        saved := Some(words[addr]);
      }
      Store(addr, newFunc);
      if oldProt != READ_WRITE {
        var ignored := SetAddrProtect(addr, oldProt);
        assert old(pages)[PageStart(addr, kernel.k, w) := READ_WRITE][PageStart(addr, kernel.k, w) := oldProt]
          == old(pages);
      }
      r := 0;
    }

    /** The checks of a relocation's symbol and type. */
    method CheckInfo(elf: Elf, isPlt: bool, symidx: nat, rel: Reloc) returns (fits: bool)
      ensures fits == Wants(elf, isPlt, symidx, rel, w)
    {
      InfoParts(rel.info, symidx, elf.types.jumpSlot, w);
      InfoParts(rel.info, symidx, elf.types.globDat, w);
      InfoParts(rel.info, symidx, elf.types.abs, w);
      if SymOf(rel.info, w) != symidx { return false; }
      var rType := TypeOf(rel.info, w);
      if isPlt && rType != elf.types.jumpSlot { return false; }
      if !isPlt && rType != elf.types.globDat && rType != elf.types.abs { return false; }
      fits := true;
    }

    /** xh_elf_find_and_replace_func */
    method FindAndReplaceFunc(elf: Elf, isPlt: bool, symidx: nat, rel: Reloc, newFunc: nat, keep: bool)
      returns (r: nat, found: bool)
      requires Valid() && (Wants(elf, isPlt, symidx, rel, w) ==> Readable(words, elf.base, [Slot(elf, rel, w)]))
      modifies this
      ensures Valid() && found == Wants(elf, isPlt, symidx, rel, w)
      ensures Outcome(Value(), r)
              == if found then ReplaceOne(kernel, w, old(Value()), elf.base, Slot(elf, rel, w), newFunc, keep)
                 else Outcome(old(Value()), 0)
    {
      found := false;
      var fits := CheckInfo(elf, isPlt, symidx, rel);
      if !fits { return 0, false; }
      found := true;
      var addr := Word(elf.bias + rel.offset, w);
      if addr < elf.base { return ERRNO_FORMAT, true; }
      assert addr in [addr];
      r := ReplaceFunction(addr, newFunc, keep, elf.base);
    }

    /** The loop over .rel(a).plt. */
    method HookPlt(elf: Elf, symidx: nat, newFunc: nat, keep: bool) returns (r: nat)
      requires Valid() && Readable(words, elf.base, FirstSlot(elf, symidx, elf.plt, w))
      modifies this
      ensures Valid()
      ensures Outcome(Value(), r)
              == ReplaceAll(kernel, w, old(Value()), elf.base, FirstSlot(elf, symidx, elf.plt, w), newFunc, keep)
    {
      var cur, found := 0, false;
      while cur < |elf.plt|
        invariant cur <= |elf.plt| && Valid() && Value() == old(Value())
        invariant FirstSlot(elf, symidx, elf.plt, w) == FirstSlot(elf, symidx, elf.plt[cur..], w)
      {
        var rel := elf.plt[cur];
        cur := cur + 1;
        assert elf.plt[cur - 1..][1..] == elf.plt[cur..];
        r, found := FindAndReplaceFunc(elf, true, symidx, rel, newFunc, keep);
        if r != 0 || found { return; }
      }
      r := 0;
    }

    /** The loop over .rel(a).dyn. */
    method HookDyn(elf: Elf, symidx: nat, newFunc: nat, keep: bool) returns (r: nat)
      requires Valid() && Readable(words, elf.base, AllSlots(elf, false, symidx, elf.dyn, w))
      modifies this
      ensures Valid() && words.Keys == old(words).Keys
      ensures Outcome(Value(), r)
              == ReplaceAll(kernel, w, old(Value()), elf.base, AllSlots(elf, false, symidx, elf.dyn, w), newFunc, keep)
    {
      var cur, found := 0, false;
      ghost var all := AllSlots(elf, false, symidx, elf.dyn, w);
      assert elf.dyn[0..] == elf.dyn;
      while cur < |elf.dyn|
        invariant cur <= |elf.dyn| && Valid() && words.Keys == old(words).Keys
        invariant Readable(words, elf.base, AllSlots(elf, false, symidx, elf.dyn[cur..], w))
        invariant ReplaceAll(kernel, w, old(Value()), elf.base, all, newFunc, keep)
                  == ReplaceAll(kernel, w, Value(), elf.base, AllSlots(elf, false, symidx, elf.dyn[cur..], w), newFunc,
                                keep)
      {
        AllSlotsCons(elf, symidx, elf.dyn[cur..], w);
        assert elf.dyn[cur..][1..] == elf.dyn[cur + 1..];
        r, found := FindAndReplaceFunc(elf, false, symidx, elf.dyn[cur], newFunc, keep);
        cur := cur + 1;
        if r != 0 { return; }
      }
      r := 0;
    }

    /** The loop over the packed .rel(a).android. */
    method HookAndroid(elf: Elf, symidx: nat, newFunc: nat, keep: bool) returns (r: nat)
      requires Valid() && Readable(words, elf.base, AllSlots(elf, false, symidx, Relocs(elf.android, elf.rela, w), w))
      modifies this
      ensures Valid() && words.Keys == old(words).Keys
      ensures Outcome(Value(), r)
              == ReplaceAll(kernel, w, old(Value()), elf.base,
                            AllSlots(elf, false, symidx, Relocs(elf.android, elf.rela, w), w),
                            newFunc, keep)
    {
      var iter := new Iterator(elf.android, w, elf.rela);
      ghost var all := Relocs(elf.android, elf.rela, w);
      ghost var left := all;
      var found := false;
      var rel := iter.NextOfRun();
      while rel.Some?
        invariant iter.Valid() && iter.rela == elf.rela && iter.decoder.w == w && fresh(iter) && fresh(iter.decoder)
        invariant rel.Some? ==> iter.index <= iter.count
        invariant left == if rel.Some? then [rel.value] + Run(iter.Value(), elf.rela, w) else []
        invariant Valid() && words.Keys == old(words).Keys
        invariant Readable(words, elf.base, AllSlots(elf, false, symidx, left, w))
        invariant ReplaceAll(kernel, w, old(Value()), elf.base, AllSlots(elf, false, symidx, all, w), newFunc, keep)
                  == ReplaceAll(kernel, w, Value(), elf.base, AllSlots(elf, false, symidx, left, w), newFunc, keep)
        decreases rel.Some?, if iter.index <= iter.count then iter.count - iter.index else 0
      {
        AllSlotsCons(elf, symidx, left, w);
        left := left[1..];
        r, found := FindAndReplaceFunc(elf, false, symidx, rel.value, newFunc, keep);
        if r != 0 { return; }
        rel := iter.NextOfRun();
      }
      r := 0;
    }

    /** xh_elf_hook, with *old_func in `saved` (keep is false for a null old_func). */
    method Hook(elf: Elf, symbol: Option<Str>, newFunc: nat, keep: bool, ghost lists: seq<seq<nat>>)
      returns (r: nat, ghost found: Option<nat>)
      requires Valid() && Indexed(elf, lists)
      requires symbol.Some? ==>
                 var f := Named(elf.symbols, elf.index, elf.bloomBits, symbol.value, lists);
                 f.Some? ==> Readable(words, elf.base, Wanted(elf, f.value, w))
      modifies this
      ensures Valid()
      ensures elf.pathname.None? ==> r == 1008
      ensures elf.pathname.Some? && (symbol.None? || newFunc == 0) ==> r == 1002
      ensures elf.pathname.None? || symbol.None? || newFunc == 0 ==> found.None? && Value() == old(Value())
      ensures elf.pathname.Some? && symbol.Some? && newFunc != 0 ==>
                found == Named(elf.symbols, elf.index, elf.bloomBits, symbol.value, lists)
      ensures elf.pathname.Some? && symbol.Some? && newFunc != 0 ==>
                match found
                case None => r == 0 && Value() == old(Value()) && !Names(elf, symbol.value)
                case Some(symidx) =>
                  && symidx < |elf.symbols.stName| && elf.symbols.Name(symidx) == symbol.value
                  && Outcome(Value(), r)
                     == ReplaceAll(kernel, w, old(Value()), elf.base, Wanted(elf, symidx, w), newFunc, keep)
    {
      found := None;
      if elf.pathname.None? { return ERRNO_ELFINIT, None; }
      if symbol.None? || newFunc == 0 { return ERRNO_INVAL, None; }
      var symidx := FindSymidxByName(elf.symbols, elf.index, elf.bloomBits, symbol.value, lists);
      if symidx.None? { return 0, None; }
      found := symidx;
      r := HookTables(elf, symidx.value, newFunc, keep);
    }

    method HookTables(elf: Elf, symidx: nat, newFunc: nat, keep: bool) returns (r: nat)
      requires Valid() && Readable(words, elf.base, Wanted(elf, symidx, w))
      modifies this
      ensures Valid()
      ensures Outcome(Value(), r)
              == ReplaceAll(kernel, w, old(Value()), elf.base, Wanted(elf, symidx, w), newFunc, keep)
    {
      ghost var plt := FirstSlot(elf, symidx, elf.plt, w);
      ghost var dyn := AllSlots(elf, false, symidx, elf.dyn, w);
      ghost var android := AllSlots(elf, false, symidx, Relocs(elf.android, elf.rela, w), w);
      assert Readable(words, elf.base, plt + dyn) && Readable(words, elf.base, android);
      ReplaceAppend(kernel, w, Value(), elf.base, plt + dyn, android, newFunc, keep);
      assert Readable(words, elf.base, plt) && Readable(words, elf.base, dyn);
      ReplaceAppend(kernel, w, Value(), elf.base, plt, dyn, newFunc, keep);
      r := HookPlt(elf, symidx, newFunc, keep);
      if r != 0 { return; }
      r := HookDyn(elf, symidx, newFunc, keep);
      if r != 0 { return; }
      r := HookAndroid(elf, symidx, newFunc, keep);
    }

    /** The same call twice: once the first has succeeded the second one changes nothing, neither a word nor
      * *old_func nor a protection, and makes no mprotect call. */
    method HookTwice(elf: Elf, symbol: Option<Str>, newFunc: nat, keep: bool, ghost lists: seq<seq<nat>>)
      returns (first: nat, second: nat, ghost between: World)
      requires Valid() && Indexed(elf, lists)
      requires symbol.Some? ==>
                 var f := Named(elf.symbols, elf.index, elf.bloomBits, symbol.value, lists);
                 f.Some? ==> Readable(words, elf.base, Wanted(elf, f.value, w))
      modifies this
      ensures Valid()
      ensures first == 0 ==> second == 0 && Value() == between
      ensures elf.pathname.None? || symbol.None? || newFunc == 0
              ==> second == first != 0 && Value() == between == old(Value())
      ensures elf.pathname.Some? && symbol.Some? && newFunc != 0 ==>
                var found := Named(elf.symbols, elf.index, elf.bloomBits, symbol.value, lists);
                Outcome(between, first)
                == if found.None? then Outcome(old(Value()), 0)
                   else ReplaceAll(kernel, w, old(Value()), elf.base, Wanted(elf, found.value, w), newFunc, keep)
    {
      ghost var found, again;
      first, found := Hook(elf, symbol, newFunc, keep, lists);
      between := Value();
      second, again := Hook(elf, symbol, newFunc, keep, lists);
      if first == 0 && found.Some? {
        HookAgain(kernel, w, old(Value()), elf.base, Wanted(elf, found.value, w), newFunc, keep);
      }
    }
  }
}
