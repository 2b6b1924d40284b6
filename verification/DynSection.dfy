/** Reading the dynamic section of a loaded ELF file: which entries set which fields, and what
  * their order does and does not change. */
module DynSection {
  import opened Wrappers
  import opened Powers
  import opened Sleb128

  const ERRNO_FORMAT := 1007

  const DT_NULL := 0
  const DT_PLTRELSZ := 2
  const DT_HASH := 4
  const DT_STRTAB := 5
  const DT_SYMTAB := 6
  const DT_RELA := 7
  const DT_RELASZ := 8
  const DT_REL := 17
  const DT_RELSZ := 18
  const DT_PLTREL := 20
  const DT_JMPREL := 23
  const DT_ANDROID_REL := 0x6000000f
  const DT_ANDROID_RELSZ := 0x60000010
  const DT_ANDROID_RELA := 0x60000011
  const DT_ANDROID_RELASZ := 0x60000012
  const DT_GNU_HASH := 0x6ffffef5

  datatype Dyn = Dyn(tag: int, val: nat)

  /** What an entry sets. */
  datatype Field =
    StrTab | SymTab | PltRel | JmpRel | PltRelSz | RelDyn | RelDynSz | Android | AndroidSz | Sysv | Gnu | NoField

  function FieldOf(tag: int): Field {
    if tag == DT_STRTAB then StrTab
    else if tag == DT_SYMTAB then SymTab
    else if tag == DT_PLTREL then PltRel
    else if tag == DT_JMPREL then JmpRel
    else if tag == DT_PLTRELSZ then PltRelSz
    else if tag == DT_REL || tag == DT_RELA then RelDyn
    else if tag == DT_RELSZ || tag == DT_RELASZ then RelDynSz
    else if tag == DT_ANDROID_REL || tag == DT_ANDROID_RELA then Android
    else if tag == DT_ANDROID_RELSZ || tag == DT_ANDROID_RELASZ then AndroidSz
    else if tag == DT_HASH then Sysv
    else if tag == DT_GNU_HASH then Gnu
    else NoField
  }

  /** The first k entries are those before DT_NULL. */
  predicate Ends(es: seq<Dyn>, k: nat) {
    k <= |es| && (forall i | 0 <= i < k :: es[i].tag != 0) && (k < |es| ==> es[k].tag == 0)
  }

  /** Sizes are 32-bit fields. */
  function Size32(v: nat): nat {
    v % 0x1_0000_0000
  }

  datatype Values = Values(strTab: Option<nat>, symTab: Option<nat>, pltRel: Option<nat>, jmpRel: Option<nat>,
                           pltRelSz: Option<nat>, relDyn: Option<nat>, relDynSz: Option<nat>, android: Option<nat>,
                           androidSz: Option<nat>, sysv: Option<nat>, gnu: Option<nat>)

  const NO_VALUES := Values(None, None, None, None, None, None, None, None, None, None, None)

  function Put(m: Values, f: Field, v: nat): Values {
    Values(if f.StrTab? then Some(v) else m.strTab,
           if f.SymTab? then Some(v) else m.symTab,
           if f.PltRel? then Some(v) else m.pltRel,
           if f.JmpRel? then Some(v) else m.jmpRel,
           if f.PltRelSz? then Some(v) else m.pltRelSz,
           if f.RelDyn? then Some(v) else m.relDyn,
           if f.RelDynSz? then Some(v) else m.relDynSz,
           if f.Android? then Some(v) else m.android,
           if f.AndroidSz? then Some(v) else m.androidSz,
           if f.Sysv? then Some(v) else m.sysv,
           if f.Gnu? then Some(v) else m.gnu)
  }

  function Get(m: Values, f: Field): Option<nat> {
    match f
    case StrTab => m.strTab
    case SymTab => m.symTab
    case PltRel => m.pltRel
    case JmpRel => m.jmpRel
    case PltRelSz => m.pltRelSz
    case RelDyn => m.relDyn
    case RelDynSz => m.relDynSz
    case Android => m.android
    case AndroidSz => m.androidSz
    case Sysv => m.sysv
    case Gnu => m.gnu
    case NoField => None
  }

  /** The value of the last entry for each field. */
  function Look(es: seq<Dyn>): Values {
    if es == [] then NO_VALUES
    else
      var n := |es| - 1;
      Put(Look(es[..n]), FieldOf(es[n].tag), es[n].val)
  }

  predicate IsPointer(f: Field) {
    f.StrTab? || f.SymTab? || f.JmpRel? || f.RelDyn? || f.Android? || f.Sysv? || f.Gnu?
  }

  /** The entry points below the file, and is not a DT_HASH hidden by a DT_GNU_HASH. */
  predicate Rejected(f: Field, hidden: bool, ptr: nat, base: nat) {
    IsPointer(f) && ptr < base && !(f.Sysv? && hidden)
  }

  /** Entry i is rejected; a DT_HASH is hidden by a DT_GNU_HASH before it. */
  predicate Bad(es: seq<Dyn>, i: nat, base: nat, bias: nat, w: nat)
    requires i < |es|
  {
    Rejected(FieldOf(es[i].tag), Look(es[..i]).gnu.Some?, Word(bias + es[i].val, w), base)
  }

  /** The value of the last entry with one of the tags. */
  function LastOf(es: seq<Dyn>, tags: set<int>): Option<nat> {
    if es == [] then None
    else
      var n := |es| - 1;
      if es[n].tag in tags then Some(es[n].val) else LastOf(es[..n], tags)
  }

  lemma {:induction false} LastOfMeans(es: seq<Dyn>, tags: set<int>) returns (i: nat)
    ensures i <= |es| && forall j | i < j < |es| :: es[j].tag !in tags
    ensures match LastOf(es, tags)
            case None => i == |es| && forall j | 0 <= j < |es| :: es[j].tag !in tags
            case Some(v) => i < |es| && es[i].tag in tags && es[i].val == v
  {
    i := |es|;
    if es != [] {
      var n := |es| - 1;
      if es[n].tag in tags {
        i := n;
      } else {
        var k := LastOfMeans(es[..n], tags);
        assert forall j | 0 <= j < n :: es[..n][j] == es[j];
        i := if k == n then |es| else k;
      }
    }
  }

  lemma {:induction false} FieldIsLast(es: seq<Dyn>, f: Field, tags: set<int>)
    requires !f.NoField? && forall t: int :: FieldOf(t) == f <==> t in tags
    ensures Get(Look(es), f) == LastOf(es, tags)
  {
    if es != [] {
      FieldIsLast(es[..|es| - 1], f, tags);
    }
  }

  /** By its tag, entry i is a pointer below the file, and not a DT_HASH after a DT_GNU_HASH. */
  predicate TagRejected(es: seq<Dyn>, i: nat, base: nat, bias: nat, w: nat)
    requires i < |es|
  {
    && es[i].tag in {4, 5, 6, 7, 17, 23, 0x6000000f, 0x60000011, 0x6ffffef5}
    && Word(bias + es[i].val, w) < base
    && (es[i].tag == 4 ==> LastOf(es[..i], {0x6ffffef5}).None?)
  }

  lemma {:induction false} BadTag(es: seq<Dyn>, i: nat, base: nat, bias: nat, w: nat)
    requires i < |es|
    ensures Bad(es, i, base, bias, w) <==> TagRejected(es, i, base, bias, w)
  {
    FieldIsLast(es[..i], Gnu, {0x6ffffef5});
  }

  /** The parser reads these entries without an error. */
  predicate Accepts(es: seq<Dyn>, base: nat, bias: nat, w: nat) {
    es == [] || (Accepts(es[..|es| - 1], base, bias, w) && !Bad(es, |es| - 1, base, bias, w))
  }

  lemma {:induction false} AcceptsNext(es: seq<Dyn>, k: nat, base: nat, bias: nat, w: nat)
    requires k < |es|
    ensures Accepts(es[..k + 1], base, bias, w) <==> Accepts(es[..k], base, bias, w) && !Bad(es, k, base, bias, w)
  {
    assert es[..k + 1][..k] == es[..k];
  }

  lemma {:induction false} AcceptsAll(es: seq<Dyn>, base: nat, bias: nat, w: nat)
    ensures Accepts(es, base, bias, w) <==> forall i | 0 <= i < |es| :: !Bad(es, i, base, bias, w)
  {
    if es != [] {
      var n := |es| - 1;
      AcceptsAll(es[..n], base, bias, w);
      forall i | 0 <= i < n ensures Bad(es[..n], i, base, bias, w) == Bad(es, i, base, bias, w) {
        assert es[..n][..i] == es[..i];
      }
    }
  }

  lemma {:induction false} NoneRejected(es: seq<Dyn>, k: nat, base: nat, bias: nat, w: nat)
    requires k <= |es| && Accepts(es[..k], base, bias, w)
    ensures forall j | 0 <= j < k :: !TagRejected(es, j, base, bias, w)
  {
    AcceptsAll(es[..k], base, bias, w);
    forall j | 0 <= j < k ensures !TagRejected(es, j, base, bias, w) {
      assert es[..k][..j] == es[..j] && !Bad(es[..k], j, base, bias, w);
      BadTag(es, j, base, bias, w);
    }
  }

  // ---- The parser ----

  class XhElf {
    const base: nat
    const bias: nat
    const w: nat
    const raw: nat -> nat      // the 32-bit word at an address
    var strtab: nat
    var symtab: nat
    var isUseRela: bool
    var relplt: nat
    var relpltSz: nat
    var reldyn: nat
    var reldynSz: nat
    var relandroid: nat
    var relandroidSz: nat
    var bucketCnt: nat
    var chainCnt: nat
    var bucket: nat
    var chain: nat
    var symoffset: nat
    var bloomSz: nat
    var bloomShift: nat
    var bloom: nat
    var isUseGnuHash: bool

    function Ptr(v: nat): nat {
      Word(bias + v, w)
    }

    /** An absent pointer is null. */
    ghost function PtrOf(v: Option<nat>): nat {
      if v.Some? then Ptr(v.value) else 0
    }

    ghost function SizeOf(v: Option<nat>): nat {
      if v.Some? then v.value % 0x1_0000_0000 else 0
    }

    ghost predicate TablesMatch(m: Values)
      reads this`strtab, this`symtab, this`isUseRela, this`relplt, this`relpltSz, this`reldyn, this`reldynSz,
            this`relandroid, this`relandroidSz
    {
      && strtab == PtrOf(m.strTab) && symtab == PtrOf(m.symTab)
      && isUseRela == (m.pltRel.Some? && m.pltRel.value == DT_RELA)
      && relplt == PtrOf(m.jmpRel) && relpltSz == SizeOf(m.pltRelSz)
      && reldyn == PtrOf(m.relDyn) && reldynSz == SizeOf(m.relDynSz)
      && relandroid == PtrOf(m.android) && relandroidSz == SizeOf(m.androidSz)
    }

    ghost predicate GnuAt(at: nat)
      reads this`bucketCnt, this`bucket, this`chain, this`symoffset, this`bloomSz, this`bloomShift, this`bloom
    {
      && bucketCnt == raw(at) && symoffset == raw(at + 4) && bloomSz == raw(at + 8) && bloomShift == raw(at + 12)
      && bloom == at + 16 && bucket == bloom + bloomSz * (w / 8) && chain == bucket + 4 * bucketCnt
    }

    ghost predicate SysvAt(at: nat)
      reads this`bucketCnt, this`bucket, this`chain
    {
      bucketCnt == raw(at) && bucket == at + 8 && chain == bucket + 4 * bucketCnt
    }

    ghost predicate NoBloom()
      reads this`symoffset, this`bloomSz, this`bloomShift, this`bloom
    {
      symoffset == 0 && bloomSz == 0 && bloomShift == 0 && bloom == 0
    }

    /** GNU's table if there is one, else System V's. */
    ghost predicate HashMatches(m: Values)
      reads this`bucketCnt, this`bucket, this`chain, this`symoffset, this`bloomSz, this`bloomShift, this`bloom,
            this`isUseGnuHash
    {
      && isUseGnuHash == (m.gnu.Some?)
      && (if m.gnu.Some? then GnuAt(Ptr(m.gnu.value))
          else NoBloom() && if m.sysv.Some? then SysvAt(Ptr(m.sysv.value))
                            else bucketCnt == 0 && bucket == 0 && chain == 0)
    }

    constructor (base: nat, bias: nat, w: nat, raw: nat -> nat)
      ensures this.base == base && this.bias == bias && this.w == w && this.raw == raw
      ensures ReadsAs([])
    {
      this.base, this.bias, this.w, this.raw := base, bias, w, raw;
      strtab, symtab, isUseRela, relplt, relpltSz, reldyn, reldynSz := 0, 0, false, 0, 0, 0, 0;
      relandroid, relandroidSz, bucketCnt, chainCnt, bucket, chain := 0, 0, 0, 0, 0, 0;
      symoffset, bloomSz, bloomShift, bloom, isUseGnuHash := 0, 0, 0, 0, false;
    }

    /** The cases DT_STRTAB to DT_ANDROID_RELASZ. */
    method ReadTable(tag: int, val: nat, ghost m: Values) returns (r: nat)
      requires TablesMatch(m) && tag != DT_HASH && tag != DT_GNU_HASH
      modifies this`strtab, this`symtab, this`isUseRela, this`relplt, this`relpltSz, this`reldyn, this`reldynSz,
               this`relandroid, this`relandroidSz
      ensures if IsPointer(FieldOf(tag)) && Ptr(val) < base then r == ERRNO_FORMAT
              else r == 0 && TablesMatch(Put(m, FieldOf(tag), val))
    {
      r := 0;
      var p := Ptr(val);
      if tag == DT_STRTAB {
        strtab := p;
        if strtab < base { return ERRNO_FORMAT; }
      } else if tag == DT_SYMTAB {
        symtab := p;
        if symtab < base { return ERRNO_FORMAT; }
      } else if tag == DT_PLTREL {
        isUseRela := val == DT_RELA;
      } else if tag == DT_JMPREL {
        relplt := p;
        if relplt < base { return ERRNO_FORMAT; }
      } else if tag == DT_PLTRELSZ {
        relpltSz := Size32(val);
      } else if tag == DT_REL || tag == DT_RELA {
        reldyn := p;
        if reldyn < base { return ERRNO_FORMAT; }
      } else if tag == DT_RELSZ || tag == DT_RELASZ {
        reldynSz := Size32(val);
      } else if tag == DT_ANDROID_REL || tag == DT_ANDROID_RELA {
        relandroid := p;
        if relandroid < base { return ERRNO_FORMAT; }
      } else if tag == DT_ANDROID_RELSZ || tag == DT_ANDROID_RELASZ {
        relandroidSz := Size32(val);
      }
    }

    /** The cases DT_HASH and DT_GNU_HASH. */
    method ReadHash(tag: int, val: nat, ghost m: Values) returns (r: nat)
      requires HashMatches(m) && (tag == DT_HASH || tag == DT_GNU_HASH)
      modifies this`bucketCnt, this`chainCnt, this`bucket, this`chain, this`symoffset, this`bloomSz, this`bloomShift,
               this`bloom, this`isUseGnuHash
      ensures if (tag == DT_GNU_HASH || m.gnu.None?) && Ptr(val) < base then r == ERRNO_FORMAT
              else r == 0 && HashMatches(Put(m, FieldOf(tag), val))
                   && chainCnt == if tag == DT_HASH && m.gnu.None? then raw(Ptr(val) + 4) else old(chainCnt)
    {
      r := 0;
      var at := Ptr(val);
      if tag == DT_HASH {
        if isUseGnuHash { return; }
        if at < base { return ERRNO_FORMAT; }
        bucketCnt := raw(at);
        chainCnt := raw(at + 4);
        bucket := at + 8;
        chain := bucket + 4 * bucketCnt;
      } else {
        if at < base { return ERRNO_FORMAT; }
        ReadGnu(at);
        isUseGnuHash := true;
      }
    }

    method ReadGnu(at: nat)
      modifies this`bucketCnt, this`bucket, this`chain, this`symoffset, this`bloomSz, this`bloomShift, this`bloom
      ensures GnuAt(at)
    {
      bucketCnt := raw(at);
      symoffset := raw(at + 4);
      bloomSz := raw(at + 8);
      bloomShift := raw(at + 12);
      bloom := at + 16;
      bucket := bloom + bloomSz * (w / 8);
      chain := bucket + 4 * bucketCnt;
    }

    /** The chain count of the last DT_HASH that no DT_GNU_HASH comes before. */
    ghost function ChainCount(es: seq<Dyn>): nat {
      if es == [] then 0
      else
        var n := |es| - 1;
        if FieldOf(es[n].tag).Sysv? && Look(es[..n]).gnu.None? then raw(Ptr(es[n].val) + 4) else ChainCount(es[..n])
    }

    /** The fields are those the entries set. */
    ghost predicate ReadsAs(es: seq<Dyn>)
      reads this
    {
      TablesMatch(Look(es)) && HashMatches(Look(es)) && chainCnt == ChainCount(es)
    }

    /** The fields, by the tags of the entries that set them. */
    ghost predicate TagsRead(es: seq<Dyn>)
      reads this
    {
      && strtab == PtrOf(LastOf(es, {5})) && symtab == PtrOf(LastOf(es, {6}))
      && isUseRela == (LastOf(es, {20}) == Some(7))
      && relplt == PtrOf(LastOf(es, {23})) && relpltSz == SizeOf(LastOf(es, {2}))
      && reldyn == PtrOf(LastOf(es, {17, 7})) && reldynSz == SizeOf(LastOf(es, {18, 8}))
      && relandroid == PtrOf(LastOf(es, {0x6000000f, 0x60000011}))
      && relandroidSz == SizeOf(LastOf(es, {0x60000010, 0x60000012}))
      && HashTagsRead(LastOf(es, {4}), LastOf(es, {0x6ffffef5})) && chainCnt == TagCount(es)
    }

    ghost predicate HashTagsRead(sysv: Option<nat>, gnu: Option<nat>)
      reads this`bucketCnt, this`bucket, this`chain, this`symoffset, this`bloomSz, this`bloomShift, this`bloom,
            this`isUseGnuHash
    {
      match gnu
      case Some(v) => isUseGnuHash && GnuAt(Ptr(v))
      case None =>
        && !isUseGnuHash && NoBloom()
        && match sysv
           case Some(v) => SysvAt(Ptr(v))
           case None => bucketCnt == 0 && bucket == 0 && chain == 0
    }

    /** The chain count of the last entry with tag 4 that none with tag 0x6ffffef5 comes before. */
    ghost function TagCount(es: seq<Dyn>): nat {
      if es == [] then 0
      else
        var n := |es| - 1;
        if es[n].tag == 4 && LastOf(es[..n], {0x6ffffef5}).None? then raw(Ptr(es[n].val) + 4) else TagCount(es[..n])
    }

    lemma {:induction false} CountOfTags(es: seq<Dyn>)
      ensures ChainCount(es) == TagCount(es)
    {
      if es != [] {
        CountOfTags(es[..|es| - 1]);
        FieldIsLast(es[..|es| - 1], Gnu, {0x6ffffef5});
      }
    }

    lemma {:induction false} LastTables(es: seq<Dyn>)
      ensures Look(es).strTab == LastOf(es, {5})
      ensures Look(es).symTab == LastOf(es, {6})
      ensures Look(es).jmpRel == LastOf(es, {23})
    {
      FieldIsLast(es, StrTab, {5});
      FieldIsLast(es, SymTab, {6});
      FieldIsLast(es, JmpRel, {23});
    }

    lemma {:induction false} LastPlt(es: seq<Dyn>)
      ensures Look(es).pltRel == LastOf(es, {20})
      ensures Look(es).pltRelSz == LastOf(es, {2})
    {
      FieldIsLast(es, PltRel, {20});
      FieldIsLast(es, PltRelSz, {2});
    }

    lemma {:induction false} LastDyn(es: seq<Dyn>)
      ensures Look(es).relDyn == LastOf(es, {17, 7})
      ensures Look(es).relDynSz == LastOf(es, {18, 8})
    {
      FieldIsLast(es, RelDyn, {17, 7});
      FieldIsLast(es, RelDynSz, {18, 8});
    }

    lemma {:induction false} LastAndroid(es: seq<Dyn>)
      ensures Look(es).android == LastOf(es, {0x6000000f, 0x60000011})
      ensures Look(es).androidSz == LastOf(es, {0x60000010, 0x60000012})
    {
      FieldIsLast(es, Android, {0x6000000f, 0x60000011});
      FieldIsLast(es, AndroidSz, {0x60000010, 0x60000012});
    }

    lemma {:induction false} LastHash(es: seq<Dyn>)
      ensures Look(es).sysv == LastOf(es, {4})
      ensures Look(es).gnu == LastOf(es, {0x6ffffef5})
    {
      FieldIsLast(es, Sysv, {4});
      FieldIsLast(es, Gnu, {0x6ffffef5});
    }

    lemma {:induction false} FieldsOfTags(es: seq<Dyn>)
      requires ReadsAs(es)
      ensures TagsRead(es)
    {
      LastTables(es);
      LastPlt(es);
      LastDyn(es);
      LastAndroid(es);
      LastHash(es);
      CountOfTags(es);
    }

    lemma {:induction false} TablesKept(f: Field, val: nat, m: Values)
      requires f.Sysv? || f.Gnu?
      ensures TablesMatch(m) == TablesMatch(Put(m, f, val))
    {
    }

    lemma {:induction false} HashKept(f: Field, val: nat, m: Values)
      requires !f.Sysv? && !f.Gnu?
      ensures HashMatches(m) == HashMatches(Put(m, f, val))
    {
    }

    /** The switch on one entry's tag. */
    method ReadField(tag: int, val: nat, ghost m: Values) returns (r: nat)
      requires TablesMatch(m) && HashMatches(m)
      modifies this
      ensures if Rejected(FieldOf(tag), m.gnu.Some?, Ptr(val), base) then r == ERRNO_FORMAT
              else
                && r == 0 && TablesMatch(Put(m, FieldOf(tag), val)) && HashMatches(Put(m, FieldOf(tag), val))
                && chainCnt == if FieldOf(tag).Sysv? && m.gnu.None? then raw(Ptr(val) + 4) else old(chainCnt)
    {
      if tag == DT_HASH || tag == DT_GNU_HASH {
        TablesKept(FieldOf(tag), val, m);
        r := ReadHash(tag, val, m);
      } else {
        HashKept(FieldOf(tag), val, m);
        r := ReadTable(tag, val, m);
      }
    }

    /** One entry of the loop. */
    method ReadEntry(es: seq<Dyn>, i: nat) returns (r: nat)
      requires i < |es| && Accepts(es[..i], base, bias, w) && ReadsAs(es[..i])
      modifies this
      ensures if Bad(es, i, base, bias, w) then r == ERRNO_FORMAT
              else r == 0 && Accepts(es[..i + 1], base, bias, w) && ReadsAs(es[..i + 1])
    {
      assert es[..i + 1][..i] == es[..i];
      AcceptsNext(es, i, base, bias, w);
      assert Look(es[..i + 1]) == Put(Look(es[..i]), FieldOf(es[i].tag), es[i].val);
      r := ReadField(es[i].tag, es[i].val, Look(es[..i]));
    }

    /** The loop over the dynamic section; k entries are read. */
    method ReadEntries(es: seq<Dyn>) returns (r: nat, ghost k: nat)
      requires ReadsAs([])
      modifies this
      ensures r == 0 ==> Ends(es, k) && Accepts(es[..k], base, bias, w) && ReadsAs(es[..k])
      ensures r != 0 ==>
                && r == ERRNO_FORMAT && k < |es| && Bad(es, k, base, bias, w)
                && forall j | 0 <= j < k :: es[j].tag != DT_NULL
    {
      var dyn := 0;
      k := 0;
      assert es[..0] == [];
      while dyn < |es|
        invariant k == dyn <= |es| && forall j | 0 <= j < k :: es[j].tag != DT_NULL
        invariant Accepts(es[..k], base, bias, w) && ReadsAs(es[..k])
      {
        if es[dyn].tag == DT_NULL { return 0, k; }
        r := ReadEntry(es, dyn);
        if r != 0 { return; }
        dyn, k := dyn + 1, k + 1;
      }
      r := 0;
    }

    /** The dynamic section: what its entries set, by their tags and by the fields they are for. */
    method ParseDynamic(es: seq<Dyn>) returns (r: nat, ghost k: nat)
      requires ReadsAs([])
      modifies this
      ensures r == 0 ==> Ends(es, k) && Accepts(es[..k], base, bias, w) && ReadsAs(es[..k]) && TagsRead(es[..k])
      ensures r == 0 ==> forall j | 0 <= j < k :: !TagRejected(es, j, base, bias, w)
      ensures r != 0 ==>
                && r == 1007 && k < |es| && Bad(es, k, base, bias, w) && TagRejected(es, k, base, bias, w)
                && forall j | 0 <= j < k :: es[j].tag != DT_NULL
    {
      r, k := ReadEntries(es);
      if r == 0 {
        FieldsOfTags(es[..k]);
        NoneRejected(es, k, base, bias, w);
      } else {
        BadTag(es, k, base, bias, w);
      }
    }
  }

  // ---- The order of the entries ----

  /** No two entries set one field. */
  predicate AtMostOne(es: seq<Dyn>) {
    forall i, j | 0 <= i < j < |es| && FieldOf(es[i].tag) == FieldOf(es[j].tag) :: FieldOf(es[i].tag).NoField?
  }

  /** A value is that of some entry, and an entry gives its field a value. */
  lemma {:induction false} LookFinds(es: seq<Dyn>, f: Field) returns (i: nat)
    requires Get(Look(es), f).Some?
    ensures i < |es| && FieldOf(es[i].tag) == f && Get(Look(es), f) == Some(es[i].val)
  {
    i := |es| - 1;
    if FieldOf(es[i].tag) != f {
      i := LookFinds(es[..i], f);
    }
  }

  lemma {:induction false} LookHits(es: seq<Dyn>, i: nat)
    requires i < |es| && !FieldOf(es[i].tag).NoField?
    ensures Get(Look(es), FieldOf(es[i].tag)).Some?
  {
    var n := |es| - 1;
    if i < n {
      LookHits(es[..n], i);
    }
  }

  /** Reordering the entries changes no field but chain_cnt. */
  lemma {:induction false} OrderIrrelevant(elf: XhElf, a: seq<Dyn>, b: seq<Dyn>)
    requires multiset(a) == multiset(b) && AtMostOne(a)
    ensures Look(a) == Look(b)
    ensures elf.TablesMatch(Look(a)) <==> elf.TablesMatch(Look(b))
    ensures elf.HashMatches(Look(a)) <==> elf.HashMatches(Look(b))
  {
    forall f: Field ensures Get(Look(a), f) == Get(Look(b), f) {
      if !f.NoField? {
        SameLook(a, b, f);
      }
    }
    SameGets(Look(a), Look(b));
  }

  lemma {:induction false} SameGets(m: Values, n: Values)
    requires forall f: Field :: Get(m, f) == Get(n, f)
    ensures m == n
  {
    assert Get(m, StrTab) == Get(n, StrTab) && Get(m, SymTab) == Get(n, SymTab) && Get(m, PltRel) == Get(n, PltRel);
    assert Get(m, JmpRel) == Get(n, JmpRel) && Get(m, PltRelSz) == Get(n, PltRelSz);
    assert Get(m, RelDyn) == Get(n, RelDyn) && Get(m, RelDynSz) == Get(n, RelDynSz);
    assert Get(m, Android) == Get(n, Android) && Get(m, AndroidSz) == Get(n, AndroidSz);
    assert Get(m, Sysv) == Get(n, Sysv) && Get(m, Gnu) == Get(n, Gnu);
  }

  lemma {:induction false} SameLook(a: seq<Dyn>, b: seq<Dyn>, f: Field)
    requires multiset(a) == multiset(b) && AtMostOne(a) && !f.NoField?
    ensures Get(Look(a), f) == Get(Look(b), f)
  {
    if Get(Look(a), f).Some? {
      var i := LookFinds(a, f);
      var j := Elsewhere(a, b, i);
      LookHits(b, j);
      var k := LookFinds(b, f);
      var l := Elsewhere(b, a, k);
      assert i == l;
    } else if Get(Look(b), f).Some? {
      var k := LookFinds(b, f);
      var l := Elsewhere(b, a, k);
      LookHits(a, l);
    }
  }

  lemma {:induction false} Elsewhere(a: seq<Dyn>, b: seq<Dyn>, i: nat) returns (j: nat)
    requires multiset(a) == multiset(b) && i < |a|
    ensures j < |b| && b[j] == a[i]
  {
    assert a[i] in multiset(b);
    j :| 0 <= j < |b| && b[j] == a[i];
  }

  /** chain_cnt depends on the order: it is the count of DT_HASH when that entry comes before any
    * DT_GNU_HASH, and stays 0 otherwise. */
  lemma {:induction false} ChainCountMeans(elf: XhElf, es: seq<Dyn>, i: nat)
    requires AtMostOne(es) && i < |es| && FieldOf(es[i].tag).Sysv?
    ensures elf.ChainCount(es) == if Look(es[..i]).gnu.Some? then 0 else elf.raw(elf.Ptr(es[i].val) + 4)
  {
    var n := |es| - 1;
    if i == n {
      NoSysv(elf, es[..n]);
    } else {
      ChainCountMeans(elf, es[..n], i);
      assert es[..n][..i] == es[..i];
      assert !FieldOf(es[n].tag).Sysv?;
    }
  }

  lemma {:induction false} NoSysv(elf: XhElf, es: seq<Dyn>)
    requires forall d | d in es :: !FieldOf(d.tag).Sysv?
    ensures elf.ChainCount(es) == 0
  {
    if es != [] {
      assert es[|es| - 1] in es;
      NoSysv(elf, es[..|es| - 1]);
    }
  }

  /** The two orders of the hash tables give different counts unless the count word is 0. */
  lemma ChainCountOrder(elf: XhElf, sysv: nat, gnu: nat)
    ensures elf.ChainCount([Dyn(DT_HASH, sysv), Dyn(DT_GNU_HASH, gnu)]) == elf.raw(elf.Ptr(sysv) + 4)
    ensures elf.ChainCount([Dyn(DT_GNU_HASH, gnu), Dyn(DT_HASH, sysv)]) == 0
    ensures elf.ChainCount([Dyn(DT_HASH, sysv), Dyn(DT_GNU_HASH, gnu)])
            != elf.ChainCount([Dyn(DT_GNU_HASH, gnu), Dyn(DT_HASH, sysv)])
            <==> elf.raw(elf.Ptr(sysv) + 4) != 0
  {
    var a, b := Dyn(DT_HASH, sysv), Dyn(DT_GNU_HASH, gnu);
    ChainCountMeans(elf, [a, b], 0);
    ChainCountMeans(elf, [b, a], 1);
    assert [a, b][..0] == [] && [b, a][..1] == [b] && [b][..0] == [];
    assert Look([b]) == Put(Look([]), Gnu, gnu);
  }

  // ---- What the order changes ----

  /** A DT_GNU_HASH comes before a DT_HASH. */
  predicate GnuFirst(es: seq<Dyn>) {
    exists i, j | 0 <= i < j < |es| :: FieldOf(es[i].tag).Gnu? && FieldOf(es[j].tag).Sysv?
  }

  /** A pointer below the file. */
  predicate Below(d: Dyn, base: nat, bias: nat, w: nat) {
    IsPointer(FieldOf(d.tag)) && Word(bias + d.val, w) < base
  }

  predicate NoneBelow(es: seq<Dyn>, base: nat, bias: nat, w: nat) {
    forall d | d in es :: !Below(d, base, bias, w)
  }

  /** Of all entries only a DT_HASH points below the file. */
  predicate OnlySysvBelow(es: seq<Dyn>, base: nat, bias: nat, w: nat) {
    && (exists d | d in es :: Below(d, base, bias, w))
    && forall d | d in es && Below(d, base, bias, w) :: FieldOf(d.tag).Sysv?
  }

  lemma {:induction false} HiddenMeans(es: seq<Dyn>, j: nat)
    requires AtMostOne(es) && j < |es| && FieldOf(es[j].tag).Sysv?
    ensures Look(es[..j]).gnu.Some? <==> GnuFirst(es)
  {
    if Look(es[..j]).gnu.Some? {
      var i := LookFinds(es[..j], Gnu);
      assert es[i] == es[..j][i];
    }
    if GnuFirst(es) {
      var i, k :| 0 <= i < k < |es| && FieldOf(es[i].tag).Gnu? && FieldOf(es[k].tag).Sysv?;
      assert k == j;
      LookHits(es[..j], i);
    }
  }

  /** Entry i of a list that sets each field once is rejected if it points below the file, unless it is
    * a DT_HASH and DT_GNU_HASH comes before. */
  lemma {:induction false} BadMeans(es: seq<Dyn>, i: nat, base: nat, bias: nat, w: nat)
    requires AtMostOne(es) && i < |es|
    ensures Bad(es, i, base, bias, w) <==>
            Below(es[i], base, bias, w) && !(FieldOf(es[i].tag).Sysv? && GnuFirst(es))
  {
    if FieldOf(es[i].tag).Sysv? {
      HiddenMeans(es, i);
    }
  }

  /** Which entry lists are read without an error, by what they hold and where DT_GNU_HASH stands. */
  lemma {:induction false} AcceptsMeans(es: seq<Dyn>, base: nat, bias: nat, w: nat)
    requires AtMostOne(es)
    ensures Accepts(es, base, bias, w) <==>
            NoneBelow(es, base, bias, w) || (OnlySysvBelow(es, base, bias, w) && GnuFirst(es))
  {
    AcceptsAll(es, base, bias, w);
    forall i | 0 <= i < |es|
      ensures Bad(es, i, base, bias, w) <==>
              Below(es[i], base, bias, w) && !(FieldOf(es[i].tag).Sysv? && GnuFirst(es))
    {
      BadMeans(es, i, base, bias, w);
    }
  }

  /** A reordering of entries that set each field once does so too. */
  lemma {:induction false} AtMostOneReordered(a: seq<Dyn>, b: seq<Dyn>)
    requires multiset(a) == multiset(b) && AtMostOne(a)
    ensures AtMostOne(b)
  {
    forall i, j | 0 <= i < j < |b| && FieldOf(b[i].tag) == FieldOf(b[j].tag)
      ensures FieldOf(b[i].tag).NoField?
    {
      TwiceInMultiset(b, i, j);
      assert b[i] in multiset(a) && b[j] in multiset(a);
      if b[i] == b[j] {
        var p, q := TwiceInSeq(a, b[i]);
      } else {
        var p :| 0 <= p < |a| && a[p] == b[i];
        var q :| 0 <= q < |a| && a[q] == b[j];
      }
    }
  }

  lemma {:induction false} TwiceInMultiset(s: seq<Dyn>, i: nat, j: nat)
    requires i < j < |s|
    ensures s[i] in multiset(s) && s[j] in multiset(s)
    ensures s[i] == s[j] ==> multiset(s)[s[i]] >= 2
  {
    assert s == s[..j] + [s[j]] + s[j + 1..];
    assert s[i] in multiset(s[..j]);
  }

  lemma {:induction false} TwiceInSeq(s: seq<Dyn>, d: Dyn) returns (p: nat, q: nat)
    requires multiset(s)[d] >= 2
    ensures p < q < |s| && s[p] == d && s[q] == d
  {
    var n := |s| - 1;
    assert s == s[..n] + [s[n]];
    if s[n] == d {
      q := n;
      assert d in multiset(s[..n]);
      p :| 0 <= p < n && s[..n][p] == d;
    } else {
      p, q := TwiceInSeq(s[..n], d);
    }
  }

  lemma {:induction false} SameBelow(a: seq<Dyn>, b: seq<Dyn>, base: nat, bias: nat, w: nat)
    requires multiset(a) == multiset(b)
    ensures NoneBelow(a, base, bias, w) <==> NoneBelow(b, base, bias, w)
    ensures OnlySysvBelow(a, base, bias, w) <==> OnlySysvBelow(b, base, bias, w)
  {
    assert forall d :: d in a <==> d in multiset(a);
    assert forall d :: d in b <==> d in multiset(b);
  }

  /** Reordering the entries changes the outcome exactly when the one bad pointer is that of a DT_HASH,
    * and it comes after DT_GNU_HASH in one order only. */
  lemma {:induction false} OrderMatters(a: seq<Dyn>, b: seq<Dyn>, base: nat, bias: nat, w: nat)
    requires multiset(a) == multiset(b) && AtMostOne(a)
    ensures Accepts(a, base, bias, w) != Accepts(b, base, bias, w)
            <==> OnlySysvBelow(a, base, bias, w) && GnuFirst(a) != GnuFirst(b)
    ensures NoneBelow(a, base, bias, w) ==> Accepts(a, base, bias, w) && Accepts(b, base, bias, w)
  {
    AtMostOneReordered(a, b);
    AcceptsMeans(a, base, bias, w);
    AcceptsMeans(b, base, bias, w);
    SameBelow(a, b, base, bias, w);
  }

  lemma {:induction false} ExampleWords()
    ensures Word(8 + 1, 32) == 9 && Word(8 + 64, 32) == 72
  {
    Pow2Monotonic(7, 32);
    assert Pow2(7) == 8 * Pow2(4) && Pow2(4) == 4 * Pow2(2);
    WordUnique(9, 0, 9, 32);
    WordUnique(72, 0, 72, 32);
  }

  lemma {:induction false} ExampleOrders(hash: Dyn, gnu: Dyn, base: nat, bias: nat, w: nat)
    requires FieldOf(hash.tag).Sysv? && FieldOf(gnu.tag).Gnu?
    requires Below(hash, base, bias, w) && !Below(gnu, base, bias, w)
    ensures multiset([hash, gnu]) == multiset([gnu, hash]) && AtMostOne([hash, gnu])
    ensures !Accepts([hash, gnu], base, bias, w) && Accepts([gnu, hash], base, bias, w)
  {
    var a, b := [hash, gnu], [gnu, hash];
    AcceptsMeans(a, base, bias, w);
    AcceptsMeans(b, base, bias, w);
    assert a[0] == hash && a[1] == gnu && hash in a && !GnuFirst(a);
    assert b[0] == gnu && b[1] == hash && GnuFirst(b);
  }

  /** There is such a reordering: a DT_HASH at 9 in a file that begins at 16, and a DT_GNU_HASH at 72. The
    * parse fails with DT_HASH first, and succeeds with DT_GNU_HASH first. */
  lemma {:induction false} OrderExample()
    ensures var a, b := [Dyn(DT_HASH, 1), Dyn(DT_GNU_HASH, 64)], [Dyn(DT_GNU_HASH, 64), Dyn(DT_HASH, 1)];
            multiset(a) == multiset(b) && AtMostOne(a) && !Accepts(a, 16, 8, 32) && Accepts(b, 16, 8, 32)
  {
    ExampleWords();
    ExampleOrders(Dyn(DT_HASH, 1), Dyn(DT_GNU_HASH, 64), 16, 8, 32);
  }

  /** Every field of the two is the same, but for chain_cnt. */
  ghost predicate SameFields(x: XhElf, y: XhElf)
    reads x, y
  {
    && x.strtab == y.strtab && x.symtab == y.symtab && x.isUseRela == y.isUseRela
    && x.relplt == y.relplt && x.relpltSz == y.relpltSz && x.reldyn == y.reldyn && x.reldynSz == y.reldynSz
    && x.relandroid == y.relandroid && x.relandroidSz == y.relandroidSz
    && x.bucketCnt == y.bucketCnt && x.bucket == y.bucket && x.chain == y.chain && x.symoffset == y.symoffset
    && x.bloomSz == y.bloomSz && x.bloomShift == y.bloomShift && x.bloom == y.bloom
    && x.isUseGnuHash == y.isUseGnuHash
  }

  /** The hash tables change places, and the word at DT_HASH that holds the chain count is not 0. */
  ghost predicate CountsDiffer(a: seq<Dyn>, b: seq<Dyn>, bias: nat, w: nat, raw: nat -> nat) {
    && GnuFirst(a) != GnuFirst(b) && Look(a).sysv.Some?
    && raw(Word(bias + Look(a).sysv.value, w) + 4) != 0
  }

  /** One file, mapped once and read twice. */
  ghost predicate SameImage(x: XhElf, y: XhElf) {
    x.base == y.base && x.bias == y.bias && x.w == y.w && x.raw == y.raw
  }

  /** chain_cnt of a file with a DT_HASH, in terms of the order of the two tables. */
  lemma {:induction false} ChainCountBy(elf: XhElf, es: seq<Dyn>)
    requires AtMostOne(es)
    ensures elf.ChainCount(es)
            == if Look(es).sysv.Some? && !GnuFirst(es) then elf.raw(elf.Ptr(Look(es).sysv.value) + 4) else 0
  {
    if Look(es).sysv.Some? {
      var i := LookFinds(es, Sysv);
      ChainCountMeans(elf, es, i);
      HiddenMeans(es, i);
    } else {
      forall i: nat | i < |es| ensures !FieldOf(es[i].tag).Sysv? {
        if FieldOf(es[i].tag).Sysv? { LookHits(es, i); }
      }
      NoSysv(elf, es);
    }
  }

  lemma {:induction false} MatchingFields(x: XhElf, y: XhElf, m: Values)
    requires SameImage(x, y) && x.TablesMatch(m) && x.HashMatches(m) && y.TablesMatch(m) && y.HashMatches(m)
    ensures SameFields(x, y)
  {
  }

  lemma {:induction false} ReorderedFields(x: XhElf, y: XhElf, a: seq<Dyn>, b: seq<Dyn>)
    requires SameImage(x, y) && multiset(a) == multiset(b) && AtMostOne(a)
    requires x.ReadsAs(a) && y.ReadsAs(b)
    ensures SameFields(x, y)
  {
    OrderIrrelevant(y, a, b);
    MatchingFields(x, y, Look(a));
  }

  /** Reordering the entries changes chain_cnt exactly when the two hash tables change places and the count
    * of DT_HASH is not 0. */
  lemma {:induction false} ReorderedCount(x: XhElf, y: XhElf, a: seq<Dyn>, b: seq<Dyn>)
    requires SameImage(x, y) && multiset(a) == multiset(b) && AtMostOne(a)
    requires x.ReadsAs(a) && y.ReadsAs(b)
    ensures x.chainCnt != y.chainCnt <==> CountsDiffer(a, b, x.bias, x.w, x.raw)
  {
    AtMostOneReordered(a, b);
    ChainCountBy(x, a);
    ChainCountBy(y, b);
    OrderIrrelevant(x, a, b);
  }

  /** What a finished parse says about the entries before DT_NULL. */
  lemma {:induction false} Outcome(es: seq<Dyn>, n: nat, ok: bool, k: nat, base: nat, bias: nat, w: nat)
    requires Ends(es, n)
    requires ok ==> Ends(es, k) && Accepts(es[..k], base, bias, w)
    requires !ok ==> k < |es| && Bad(es, k, base, bias, w) && forall j | 0 <= j < k :: es[j].tag != DT_NULL
    ensures ok <==> Accepts(es[..n], base, bias, w)
    ensures ok ==> k == n
  {
    if !ok {
      assert es[k].tag != DT_NULL;
      AcceptsAll(es[..n], base, bias, w);
      assert es[..n][..k] == es[..k];
      assert Bad(es[..n], k, base, bias, w);
    }
  }

  /** One parse, of a file with n entries before DT_NULL. */
  method ParseFile(base: nat, bias: nat, w: nat, raw: nat -> nat, es: seq<Dyn>, ghost n: nat)
    returns (elf: XhElf, r: nat)
    requires Ends(es, n)
    ensures fresh(elf) && elf.base == base && elf.bias == bias && elf.w == w && elf.raw == raw
    ensures r == (if Accepts(es[..n], base, bias, w) then 0 else ERRNO_FORMAT)
    ensures r == 0 ==> elf.ReadsAs(es[..n])
  {
    elf := new XhElf(base, bias, w, raw);
    ghost var k;
    r, k := elf.ParseDynamic(es);
    Outcome(es, n, r == 0, k, base, bias, w);
  }

  /** Two parses of one file whose entries stand in two orders, na and nb of them before DT_NULL. They end
    * alike unless the only bad pointer is that of a DT_HASH which only one order puts after DT_GNU_HASH;
    * and if both succeed they leave the same fields but for chain_cnt, which differs exactly when the two
    * hash tables change places and the count of DT_HASH is not 0. */
  method ParseReordered(base: nat, bias: nat, w: nat, raw: nat -> nat, a: seq<Dyn>, ghost na: nat,
                        b: seq<Dyn>, ghost nb: nat) returns (x: XhElf, y: XhElf, rx: nat, ry: nat)
    requires Ends(a, na) && Ends(b, nb) && multiset(a[..na]) == multiset(b[..nb]) && AtMostOne(a[..na])
    ensures fresh(x) && fresh(y) && x != y
    ensures rx in {0, ERRNO_FORMAT} && ry in {0, ERRNO_FORMAT}
    ensures rx != ry <==> OnlySysvBelow(a[..na], base, bias, w) && GnuFirst(a[..na]) != GnuFirst(b[..nb])
    ensures NoneBelow(a[..na], base, bias, w) ==> rx == 0 && ry == 0
    ensures rx == 0 && ry == 0 ==> SameFields(x, y)
    ensures rx == 0 && ry == 0 ==> (x.chainCnt != y.chainCnt <==> CountsDiffer(a[..na], b[..nb], bias, w, raw))
  {
    x, rx := ParseFile(base, bias, w, raw, a, na);
    y, ry := ParseFile(base, bias, w, raw, b, nb);
    OrderMatters(a[..na], b[..nb], base, bias, w);
    if rx == 0 && ry == 0 {
      ReorderedFields(x, y, a[..na], b[..nb]);
      ReorderedCount(x, y, a[..na], b[..nb]);
    }
  }
}
