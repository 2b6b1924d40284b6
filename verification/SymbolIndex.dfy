/** Symbol lookup by name: xhook's and whale's walks over the GNU and System V hash tables. */
module SymbolIndex {
  import opened CString
  import opened Wrappers
  import opened Powers
  import opened Bits
  import opened SymbolHash

  /** A dynamic symbol table: per symbol, where its name starts in the string table. */
  datatype Symbols = Symbols(strtab: seq<Byte>, stName: seq<nat>) {
    function Name(i: nat): Str
      requires i < |stName|
    {
      CStr(strtab, stName[i])
    }
  }

  /** The C string that starts at offset k of the string table. */
  function CStr(s: seq<Byte>, k: nat): Str
    decreases |s| - k
  {
    if k >= |s| || s[k] == 0 then [] else [s[k]] + CStr(s, k + 1)
  }

  /** It is the bytes from k on, up to the first zero byte or the end of the table. */
  lemma {:induction false} CStrMeans(s: seq<Byte>, k: nat, p: Str)
    requires k + |p| <= |s| && p == s[k..k + |p|] && (forall i | 0 <= i < |p| :: p[i] != 0)
    requires k + |p| < |s| ==> s[k + |p|] == 0
    ensures CStr(s, k) == p
    decreases |p|
  {
    if p != [] {
      assert p[0] == s[k] && p[1..] == s[k + 1..k + 1 + |p[1..]|];
      CStrMeans(s, k + 1, p[1..]);
    }
  }

  /** The plain scan: the first symbol in lo..hi with the name. */
  function FirstNamed(t: Symbols, name: Str, lo: nat, hi: nat): Option<nat>
    requires hi <= |t.stName|
    decreases hi - lo
  {
    if lo >= hi then None
    else if t.Name(lo) == name then Some(lo)
    else FirstNamed(t, name, lo + 1, hi)
  }

  lemma {:induction false} FirstNamedMeans(t: Symbols, name: Str, lo: nat, hi: nat)
    requires hi <= |t.stName|
    ensures match FirstNamed(t, name, lo, hi)
            case None => forall j | lo <= j < hi :: t.Name(j) != name
            case Some(i) => lo <= i < hi && t.Name(i) == name && forall j | lo <= j < i :: t.Name(j) != name
    decreases hi - lo
  {
    if lo < hi && t.Name(lo) != name {
      FirstNamedMeans(t, name, lo + 1, hi);
    }
  }

  // ----- the GNU table

  datatype GnuTable = GnuTable(symoffset: nat, bloom: seq<nat>, bloomShift: nat, bucket: seq<nat>, chain: seq<nat>)

  ghost function Hash(t: Symbols, i: nat): nat
    requires i < |t.stName|
  {
    GnuHash(t.Name(i))
  }

  ghost function Bucket(t: Symbols, g: GnuTable, i: nat): nat
    requires i < |t.stName| && |g.bucket| > 0
  {
    Hash(t, i) % |g.bucket|
  }

  /** The Bloom filter word and its two bits for a hash, for words of the given number of bits. */
  ghost predicate InBloom(g: GnuTable, hash: nat, bits: nat)
    requires |g.bloom| > 0 && bits > 0
  {
    var word := g.bloom[hash / bits % |g.bloom|];
    Bit(word, hash % bits) && Bit(word, ShiftRight(hash, g.bloomShift) % bits)
  }

  /** Symbol i's entry: its hash but for the lowest bit, and its bits in the filter. */
  ghost predicate EntryOf(t: Symbols, g: GnuTable, bits: nat, i: nat)
    requires bits > 0 && |g.bloom| > 0 && g.symoffset <= i < |t.stName| && |g.chain| == |t.stName| - g.symoffset
  {
    g.chain[i - g.symoffset] / 2 == Hash(t, i) / 2 && InBloom(g, Hash(t, i), bits)
  }

  /** The lowest bit of symbol i's entry marks the last symbol of its bucket. */
  ghost predicate MarksLast(t: Symbols, g: GnuTable, i: nat)
    requires |g.bucket| > 0 && g.symoffset <= i < |t.stName| && |g.chain| == |t.stName| - g.symoffset
  {
    g.chain[i - g.symoffset] % 2 == 1 <==> i == |t.stName| - 1 || Bucket(t, g, i) != Bucket(t, g, i + 1)
  }

  /** A well-formed table: indexed symbols sorted by bucket, each with its hash in the chain and its bits in the
    * filter. */
  ghost predicate WellFormed(t: Symbols, g: GnuTable, bits: nat)
  {
    var n := |t.stName|;
    && bits > 0 && |g.bloom| > 0 && |g.bucket| > 0
    && 1 <= g.symoffset <= n && |g.chain| == n - g.symoffset
    && (forall i | g.symoffset <= i < n :: EntryOf(t, g, bits, i))
    && (forall i | g.symoffset <= i < n :: MarksLast(t, g, i))
    && (forall i, j {:trigger Bucket(t, g, i), Bucket(t, g, j)} | g.symoffset <= i <= j < n
        :: Bucket(t, g, i) <= Bucket(t, g, j))
    && (forall b | 0 <= b < |g.bucket| :: HeadOf(t, g, b))
  }

  /** bucket[b] is the first symbol of bucket b, or 0 if it has none. */
  ghost predicate HeadOf(t: Symbols, g: GnuTable, b: nat)
    requires b < |g.bucket| && g.symoffset <= |t.stName|
  {
    var h := g.bucket[b];
    if h == 0 then forall i | g.symoffset <= i < |t.stName| :: Bucket(t, g, i) != b
    else
      && g.symoffset <= h < |t.stName| && Bucket(t, g, h) == b
      && forall i | g.symoffset <= i < h :: Bucket(t, g, i) != b
  }

  /** A symbol with the name shares its hash, so it is in the filter and in the hash's bucket. */
  lemma NamedFacts(t: Symbols, g: GnuTable, bits: nat, name: Str, i: nat)
    requires WellFormed(t, g, bits) && g.symoffset <= i < |t.stName| && t.Name(i) == name
    ensures InBloom(g, GnuHash(name), bits)
    ensures Bucket(t, g, i) == GnuHash(name) % |g.bucket|
    ensures g.chain[i - g.symoffset] / 2 == GnuHash(name) / 2
    ensures g.bucket[GnuHash(name) % |g.bucket|] != 0 && g.bucket[GnuHash(name) % |g.bucket|] <= i
  {
    assert EntryOf(t, g, bits, i) && Hash(t, i) == GnuHash(name);
    assert HeadOf(t, g, GnuHash(name) % |g.bucket|);
  }

  /** Where a chain ends no later symbol is in the bucket. */
  lemma ChainEnds(t: Symbols, g: GnuTable, bits: nat, i: nat, j: nat)
    requires WellFormed(t, g, bits) && g.symoffset <= i < j < |t.stName| && g.chain[i - g.symoffset] % 2 == 1
    ensures Bucket(t, g, i) < Bucket(t, g, j)
  {
    assert MarksLast(t, g, i) && Bucket(t, g, i) != Bucket(t, g, i + 1);
    assert Bucket(t, g, i) <= Bucket(t, g, i + 1) <= Bucket(t, g, j);
  }

  /** What the walk has established when it stands at i. */
  ghost predicate Walking(t: Symbols, g: GnuTable, name: Str, i: nat)
    requires |g.bucket| > 0
  {
    && g.symoffset <= i < |t.stName| && Bucket(t, g, i) == GnuHash(name) % |g.bucket|
    && forall j | g.symoffset <= j < i :: t.Name(j) != name
  }

  lemma WalkStarts(t: Symbols, g: GnuTable, bits: nat, name: Str)
    requires WellFormed(t, g, bits) && g.bucket[GnuHash(name) % |g.bucket|] != 0
    ensures Walking(t, g, name, g.bucket[GnuHash(name) % |g.bucket|])
  {
    var b := GnuHash(name) % |g.bucket|;
    assert HeadOf(t, g, b);
    forall j | g.symoffset <= j < g.bucket[b]
      ensures t.Name(j) != name
    {
      if t.Name(j) == name {
        NamedFacts(t, g, bits, name, j);
      }
    }
  }

  lemma {:induction false} WalkGoesOn(t: Symbols, g: GnuTable, bits: nat, name: Str, i: nat)
    requires WellFormed(t, g, bits) && Walking(t, g, name, i) && t.Name(i) != name
    ensures g.chain[i - g.symoffset] % 2 != 1 ==> Walking(t, g, name, i + 1)
    ensures g.chain[i - g.symoffset] % 2 == 1 ==> FirstNamed(t, name, g.symoffset, |t.stName|) == None
  {
    FirstNamedMeans(t, name, g.symoffset, |t.stName|);
    assert MarksLast(t, g, i);
    if g.chain[i - g.symoffset] % 2 == 1 {
      forall j | i < j < |t.stName|
        ensures t.Name(j) != name
      {
        ChainEnds(t, g, bits, i, j);
        if t.Name(j) == name {
          NamedFacts(t, g, bits, name, j);
        }
      }
    }
  }

  lemma {:induction false} NotIndexed(t: Symbols, g: GnuTable, bits: nat, name: Str)
    requires WellFormed(t, g, bits)
    requires !InBloom(g, GnuHash(name), bits) || g.bucket[GnuHash(name) % |g.bucket|] == 0
    ensures FirstNamed(t, name, g.symoffset, |t.stName|) == None
  {
    FirstNamedMeans(t, name, g.symoffset, |t.stName|);
    forall j | g.symoffset <= j < |t.stName|
      ensures t.Name(j) != name
    {
      if t.Name(j) == name {
        NamedFacts(t, g, bits, name, j);
      }
    }
  }

  lemma {:induction false} WalkFound(t: Symbols, g: GnuTable, name: Str, i: nat)
    requires |g.bucket| > 0 && Walking(t, g, name, i) && t.Name(i) == name
    ensures FirstNamed(t, name, g.symoffset, |t.stName|) == Some(i)
  {
    FirstNamedMeans(t, name, g.symoffset, |t.stName|);
  }

  /** xh_elf_gnu_hash_lookup_def: the same symbol as a plain scan of the indexed symbols. */
  method GnuLookupDef(t: Symbols, g: GnuTable, bits: nat, symbol: Str) returns (r: Option<nat>)
    requires WellFormed(t, g, bits)
    ensures r == FirstNamed(t, symbol, g.symoffset, |t.stName|)
  {
    var hash := ComputeGnuHash(symbol);
    var word := g.bloom[hash / bits % |g.bloom|];
    var a, b := hash % bits, ShiftRight(hash, g.bloomShift) % bits;
    var mask := BitOr(Pow2(a), Pow2(b));
    AndTwoBits(word, a, b);
    if BitAnd(word, mask) != mask {
      NotIndexed(t, g, bits, symbol);
      return None;
    }
    var i := g.bucket[hash % |g.bucket|];
    if i < g.symoffset {
      assert HeadOf(t, g, hash % |g.bucket|);
      NotIndexed(t, g, bits, symbol);
      return None;
    }
    WalkStarts(t, g, bits, symbol);
    while true
      invariant Walking(t, g, symbol, i)
      decreases |t.stName| - i
    {
      var symhash := g.chain[i - g.symoffset];
      OrOneCompares(hash, symhash);
      if BitOr(hash, 1) == BitOr(symhash, 1) && StrCmp(symbol, t.Name(i)) == 0 {
        WalkFound(t, g, symbol, i);
        return Some(i);
      }
      if t.Name(i) == symbol {
        NamedFacts(t, g, bits, symbol, i);
      }
      WalkGoesOn(t, g, bits, symbol, i);
      if BitAnd(symhash, 1) != 0 {
        AndLowest(symhash);
        return None;
      }
      AndLowest(symhash);
      i := i + 1;
    }
  }

  lemma {:induction false} AndLowest(x: nat)
    ensures BitAnd(x, 1) == x % 2
  {
    AndMask(x, 1);
    assert Pow2(1) == 2;
  }

  /** xh_elf_gnu_hash_lookup_undef: a plain scan of the symbols before the indexed ones. */
  method GnuLookupUndef(t: Symbols, g: GnuTable, symbol: Str) returns (r: Option<nat>)
    requires g.symoffset <= |t.stName|
    ensures r == FirstNamed(t, symbol, 0, g.symoffset)
  {
    var i := 0;
    while i < g.symoffset
      invariant 0 <= i <= g.symoffset
      invariant FirstNamed(t, symbol, 0, g.symoffset) == FirstNamed(t, symbol, i, g.symoffset)
    {
      if StrCmp(t.Name(i), symbol) == 0 {
        return Some(i);
      }
      i := i + 1;
    }
    r := None;
  }

  /** The symbol of a name in a GNU table: the first defined one, else the first undefined one. */
  function GnuNamed(t: Symbols, g: GnuTable, name: Str): Option<nat>
    requires g.symoffset <= |t.stName|
  {
    var r := FirstNamed(t, name, g.symoffset, |t.stName|);
    if r.Some? then r else FirstNamed(t, name, 0, g.symoffset)
  }

  /** xh_elf_gnu_hash_lookup */
  method GnuLookup(t: Symbols, g: GnuTable, bits: nat, symbol: Str) returns (r: Option<nat>)
    requires WellFormed(t, g, bits)
    ensures r == GnuNamed(t, g, symbol)
    ensures r.Some? <==> exists i | 0 <= i < |t.stName| :: t.Name(i) == symbol
    ensures r.Some? ==> r.value < |t.stName| && t.Name(r.value) == symbol
  {
    FirstNamedMeans(t, symbol, g.symoffset, |t.stName|);
    FirstNamedMeans(t, symbol, 0, g.symoffset);
    r := GnuLookupDef(t, g, bits, symbol);
    if r.Some? { return; }
    r := GnuLookupUndef(t, g, symbol);
  }

  /**
   whale's GnuLookup, for words of 32 bits and a filter whose size is a power of
   two: the filter index masks where xhook divides, hashes are compared by xor and
   shift, and the chain is indexed by symbol.
  */
  method WhaleGnuLookup(t: Symbols, g: GnuTable, symbol: Str, k: nat) returns (r: Option<nat>)
    requires WellFormed(t, g, 32) && |g.bloom| == Pow2(k)
    ensures r == FirstNamed(t, symbol, g.symoffset, |t.stName|)
  {
    var hash := ComputeGnuHash(symbol);
    var maskwords := |g.bloom| - 1;
    AndMask(hash / 32, k);
    var word := g.bloom[BitAnd(hash / 32, maskwords)];
    var hash2 := ShiftRight(hash, g.bloomShift);
    ShiftTwoBits(word, hash % 32, hash2 % 32);
    if BitAnd(BitAnd(1, ShiftRight(word, hash % 32)), ShiftRight(word, hash2 % 32)) != 0 {
      var symIndex := g.bucket[hash % |g.bucket|];
      if symIndex != 0 {
        WalkStarts(t, g, 32, symbol);
        var more := true;
        while more
          invariant more ==> Walking(t, g, symbol, symIndex)
          invariant !more ==> FirstNamed(t, symbol, g.symoffset, |t.stName|) == None
          decreases more, |t.stName| - symIndex
        {
          var chain := g.chain[symIndex - g.symoffset];
          XorCompares(chain, hash);
          if ShiftRight(BitXor(chain, hash), 1) == 0 && StrCmp(t.Name(symIndex), symbol) == 0 {
            WalkFound(t, g, symbol, symIndex);
            return Some(symIndex);
          }
          if t.Name(symIndex) == symbol {
            NamedFacts(t, g, 32, symbol, symIndex);
          }
          WalkGoesOn(t, g, 32, symbol, symIndex);
          AndLowest(chain);
          more := BitAnd(chain, 1) == 0;
          symIndex := symIndex + 1;
        }
        return None;
      }
    }
    NotIndexed(t, g, 32, symbol);
    r := None;
  }

  // ----- the System V table

  datatype SysvTable = SysvTable(bucket: seq<nat>, chain: seq<nat>)

  /** lists[b] is the chain of bucket b, and every symbol but the first is on its bucket's chain. */
  ghost predicate Chained(t: Symbols, s: SysvTable, lists: seq<seq<nat>>)
  {
    && |lists| == |s.bucket| > 0 && |s.chain| == |t.stName|
    && (forall b | 0 <= b < |lists| :: Chain(s, s.bucket[b], lists[b]))
    && (forall i | 1 <= i < |t.stName| :: i in lists[SysvHash(t.Name(i)) % |s.bucket|])
  }

  /** Following the chain from i visits the symbols of list and ends at 0. */
  ghost predicate Chain(s: SysvTable, i: nat, list: seq<nat>)
    decreases |list|
  {
    if list == [] then i == 0 else i == list[0] && 0 < i < |s.chain| && Chain(s, s.chain[i], list[1..])
  }

  lemma {:induction false} ChainInRange(s: SysvTable, i: nat, list: seq<nat>, x: nat)
    requires Chain(s, i, list) && x in list
    ensures 0 < x < |s.chain|
    decreases |list|
  {
    if x != list[0] {
      ChainInRange(s, s.chain[i], list[1..], x);
    }
  }

  /** The first symbol of a chain with the name. */
  function FirstOn(t: Symbols, name: Str, list: seq<nat>): (r: Option<nat>)
    ensures match r
            case None => forall x | x in list && x < |t.stName| :: t.Name(x) != name
            case Some(i) => i in list && i < |t.stName| && t.Name(i) == name
  {
    if list == [] then None
    else if list[0] < |t.stName| && t.Name(list[0]) == name then Some(list[0])
    else FirstOn(t, name, list[1..])
  }

  /** The chain that a name's hash selects. */
  ghost function ChainOf(s: SysvTable, name: Str, lists: seq<seq<nat>>): seq<nat>
    requires |lists| == |s.bucket| > 0
  {
    lists[SysvHash(name) % |s.bucket|]
  }

  /** A name is on the chain that its hash selects exactly when a symbol but the first has it. */
  lemma {:induction false} ChainHolds(t: Symbols, s: SysvTable, name: Str, lists: seq<seq<nat>>)
    requires Chained(t, s, lists)
    ensures FirstOn(t, name, ChainOf(s, name, lists)).Some? <==> exists i | 1 <= i < |t.stName| :: t.Name(i) == name
    ensures forall x | x in ChainOf(s, name, lists) :: 1 <= x < |t.stName|
  {
    var b := SysvHash(name) % |s.bucket|;
    forall x | x in lists[b] ensures 1 <= x < |t.stName| {
      ChainInRange(s, s.bucket[b], lists[b], x);
    }
  }

  /** xh_elf_hash_lookup and ElfLookup: the first symbol on its chain, found exactly when some symbol but the first
    * has the name. */
  method SysvLookup(t: Symbols, s: SysvTable, symbol: Str, ghost lists: seq<seq<nat>>) returns (r: Option<nat>)
    requires Chained(t, s, lists)
    ensures r == FirstOn(t, symbol, ChainOf(s, symbol, lists))
    ensures r.Some? <==> exists i | 1 <= i < |t.stName| :: t.Name(i) == symbol
    ensures r.Some? ==> 1 <= r.value < |t.stName| && t.Name(r.value) == symbol
  {
    var hash := ElfHash(symbol);
    var i := s.bucket[hash % |s.bucket|];
    ghost var all: seq<nat> := ChainOf(s, symbol, lists);
    ghost var list: seq<nat> := all;
    ChainHolds(t, s, symbol, lists);
    while i != 0
      invariant Chain(s, i, list) && FirstOn(t, symbol, all) == FirstOn(t, symbol, list)
      decreases |list|
    {
      if StrCmp(symbol, t.Name(i)) == 0 {
        return Some(i);
      }
      list := list[1..];
      i := s.chain[i];
    }
    r := None;
  }

  // ----- the choice between the tables

  datatype Index = Gnu(gnu: GnuTable) | Sysv(sysv: SysvTable)

  /** The table indexes the symbols. */
  ghost predicate Indexes(t: Symbols, index: Index, bits: nat, lists: seq<seq<nat>>) {
    match index
    case Gnu(g) => WellFormed(t, g, bits)
    case Sysv(s) => Chained(t, s, lists)
  }

  /** The symbol that the file's table gives for a name. */
  ghost function Named(t: Symbols, index: Index, bits: nat, name: Str, lists: seq<seq<nat>>): Option<nat>
    requires Indexes(t, index, bits, lists)
  {
    match index
    case Gnu(g) => GnuNamed(t, g, name)
    case Sysv(s) => FirstOn(t, name, ChainOf(s, name, lists))
  }

  /** xh_elf_find_symidx_by_name */
  method FindSymidxByName(t: Symbols, index: Index, bits: nat, symbol: Str, ghost lists: seq<seq<nat>>)
    returns (r: Option<nat>)
    requires Indexes(t, index, bits, lists)
    ensures r == Named(t, index, bits, symbol, lists)
    ensures r.Some? ==> r.value < |t.stName| && t.Name(r.value) == symbol
    ensures r.Some? <==> exists i | (if index.Gnu? then 0 else 1) <= i < |t.stName| :: t.Name(i) == symbol
  {
    match index
    case Gnu(g) => r := GnuLookup(t, g, bits, symbol);
    case Sysv(s) => r := SysvLookup(t, s, symbol, lists);
  }
}
