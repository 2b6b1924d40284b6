/** The two hash functions of ELF symbol tables. */
module SymbolHash {
  import opened CString
  import opened Powers

  const WORD: nat := 0x1_0000_0000

  // ----- the System V hash (chapter 5 of the System V gABI, "Hash Table")

  /** The gABI's folding of the top bits g of h: exclusive-or them in lower down, then clear them. */
  function FoldWith(h: bv32, g: bv32): bv32 {
    (if g != 0 then h ^ (g >> 24) else h) & !g
  }

  function Top(h: bv32): bv32 {
    h & 0xf0000000
  }

  function SysvStep(h: bv32, c: bv32): bv32 {
    var h1 := (h << 4) + c;
    FoldWith(h1, Top(h1))
  }

  function SysvFrom(h: bv32, name: Str): bv32
    decreases |name|
  {
    if name == [] then h else SysvFrom(SysvStep(h, name[0] as bv32), name[1..])
  }

  function SysvHash(name: Str): nat {
    SysvFrom(0, name) as nat
  }

  /** The folding of xh_elf_hash and ElfHash: the exclusive-or form without a test. */
  function CodeFold(h: bv32, g: bv32): bv32 {
    (h ^ g) ^ (g >> 24)
  }

  function CodeStep(h: bv32, c: bv32): bv32 {
    var h1 := (h << 4) + c;
    CodeFold(h1, Top(h1))
  }

  /** g holds nothing but top bits of h. */
  predicate TopBits(h: bv32, g: bv32) {
    g & 0x0fffffff == 0 && h & !g == h ^ g
  }

  lemma TopIsTop(h: bv32)
    ensures TopBits(h, Top(h))
  {
  }

  lemma FoldsAgree(h: bv32, g: bv32)
    requires TopBits(h, g)
    ensures FoldWith(h, g) == CodeFold(h, g)
  {
    if g == 0 {
      assert FoldWith(h, 0) == h;
    } else {
      assert (g >> 24) & !g == g >> 24;
    }
  }

  lemma TopFoldsAgree(h: bv32, g: bv32)
    requires g == Top(h)
    ensures FoldWith(h, g) == CodeFold(h, g)
  {
    TopIsTop(h);
    FoldsAgree(h, g);
  }

  /** One step of the code's loop is one step of the gABI's. */
  lemma CodeStepAgrees(h: bv32, c: bv32)
    ensures CodeStep(h, c) == SysvStep(h, c)
  {
    var h1 := (h << 4) + c;
    TopFoldsAgree(h1, Top(h1));
  }

  lemma FoldClears(h: bv32)
    ensures FoldWith(h, Top(h)) & 0xf0000000 == 0
  {
  }

  /** The top four bits of a hash are clear. */
  lemma {:induction false} SysvTopClear(h: bv32, name: Str)
    requires h & 0xf0000000 == 0
    ensures SysvFrom(h, name) & 0xf0000000 == 0
    decreases |name|
  {
    if name != [] {
      FoldClears((h << 4) + (name[0] as bv32));
      SysvTopClear(SysvStep(h, name[0] as bv32), name[1..]);
    }
  }

  lemma {:induction false} SysvUnfold(h: bv32, name: Str, i: nat)
    requires i < |name|
    ensures SysvFrom(h, name[i..]) == SysvFrom(CodeStep(h, name[i] as bv32), name[i + 1..])
  {
    CodeStepAgrees(h, name[i] as bv32);
    assert name[i..][1..] == name[i + 1..];
  }

  /** xh_elf_hash and ElfHash */
  method ElfHash(name: Str) returns (hash: nat)
    ensures hash == SysvHash(name)
  {
    var h: bv32 := 0;
    var i := 0;
    while i < |name|
      invariant 0 <= i <= |name|
      invariant SysvFrom(h, name[i..]) == SysvFrom(0, name)
    {
      SysvUnfold(h, name, i);
      h := CodeStep(h, name[i] as bv32);
      i := i + 1;
    }
    hash := h as nat;
  }

  // ----- the GNU hash

  function GnuFrom(h: nat, name: Str): nat
    decreases |name|
  {
    if name == [] then h else GnuFrom((33 * h + name[0]) % 0x1_0000_0000, name[1..])
  }

  /** 33 * h + c over the bytes from 5381, modulo 2^32. */
  function GnuHash(name: Str): nat {
    GnuFrom(5381, name)
  }

  lemma {:induction false} GnuHashWord(h: nat, name: Str)
    requires h < 0x1_0000_0000
    ensures GnuFrom(h, name) < 0x1_0000_0000
    decreases |name|
  {
    if name != [] {
      GnuHashWord((33 * h + name[0]) % 0x1_0000_0000, name[1..]);
    }
  }

  lemma WrapStep(h: nat, c: nat, m: nat)
    requires m > 0
    ensures (h + (h * 32 % m + c) % m) % m == (33 * h + c) % m
  {
    var y := h * 32 % m;
    ModAddMod(h, y + c, m);
    var z := h + c;
    ModAddMod(z, h * 32, m);
    assert h + (y + c) == z + y && z + h * 32 == 33 * h + c;
  }

  /** xh_elf_gnu_hash and GnuHash: h += (h << 5) + c on words. */
  method ComputeGnuHash(name: Str) returns (hash: nat)
    ensures hash == GnuHash(name) && hash < WORD
  {
    hash := 5381;
    var i := 0;
    while i < |name|
      invariant 0 <= i <= |name| && hash < WORD
      invariant GnuFrom(hash, name[i..]) == GnuHash(name)
    {
      assert name[i..][1..] == name[i + 1..];
      WrapStep(hash, name[i], WORD);
      hash := (hash + (hash * 32 % WORD + name[i]) % WORD) % WORD;
      i := i + 1;
    }
  }
}
