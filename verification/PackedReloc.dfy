/** Android's packed relocations: groups of relocations that share fields, written as signed LEB128 numbers. */
module PackedReloc {
  import opened CString
  import opened Wrappers
  import opened Powers
  import opened Bits
  import opened Sleb128

  datatype Reloc = Rel(offset: nat, info: nat) | Rela(offset: nat, info: nat, addend: nat)

  // ----- what a packed section says

  datatype Entry = Entry(delta: int, info: int, addend: int)

  const RELOCATION_GROUPED_BY_INFO_FLAG := 1
  const RELOCATION_GROUPED_BY_OFFSET_DELTA_FLAG := 2
  const RELOCATION_GROUPED_BY_ADDEND_FLAG := 4
  const RELOCATION_GROUP_HAS_ADDEND_FLAG := 8

  /** The four bits of a group's flag word that the iterator tests. */
  datatype Flags = Flags(byInfo: bool, byDelta: bool, byAddend: bool, hasAddend: bool) {
    /** The word with these bits set. */
    function Number(): nat {
      (if byInfo then RELOCATION_GROUPED_BY_INFO_FLAG else 0)
      + (if byDelta then RELOCATION_GROUPED_BY_OFFSET_DELTA_FLAG else 0)
      + (if byAddend then RELOCATION_GROUPED_BY_ADDEND_FLAG else 0)
      + if hasAddend then RELOCATION_GROUP_HAS_ADDEND_FLAG else 0
    }
  }

  const NO_FLAGS := Flags(false, false, false, false)

  /** The bits of a word, as the iterator tests them. */
  function FlagBits(word: nat): Flags {
    Flags(BitAnd(word, RELOCATION_GROUPED_BY_INFO_FLAG) != 0,
          BitAnd(word, RELOCATION_GROUPED_BY_OFFSET_DELTA_FLAG) != 0,
          BitAnd(word, RELOCATION_GROUPED_BY_ADDEND_FLAG) != 0,
          BitAnd(word, RELOCATION_GROUP_HAS_ADDEND_FLAG) != 0)
  }

  lemma {:induction false} NextBit(b: nat, rest: nat, x: nat, k: nat)
    requires b < 2 && x == b + 2 * rest
    ensures Bit(x, 0) == (b == 1) && Bit(x, k + 1) == Bit(rest, k)
  {
    assert x % 2 == b && x / 2 == rest;
  }

  lemma {:induction false} FourBits(a: nat, b: nat, c: nat, d: nat, k: nat, w1: nat, w2: nat, w3: nat, word: nat)
    requires a < 2 && b < 2 && c < 2 && d < 2
    requires word == a + 2 * w1 && w1 == b + 2 * w2 && w2 == c + 2 * w3 && w3 == d + 2 * k
    ensures Bit(word, 0) == (a == 1) && Bit(word, 1) == (b == 1) && Bit(word, 2) == (c == 1) && Bit(word, 3) == (d == 1)
  {
    NextBit(a, w1, word, 0);
    NextBit(a, w1, word, 1);
    NextBit(a, w1, word, 2);
    NextBit(b, w2, w1, 0);
    NextBit(b, w2, w1, 1);
    NextBit(c, w3, w2, 0);
    NextBit(d, k, w3, 0);
  }

  /** A bit is set if and-ing with its power of two leaves something. */
  lemma {:induction false} TestBit(word: nat, k: nat)
    ensures BitAnd(word, Pow2(k)) != 0 <==> Bit(word, k)
  {
    AndPower(word, k);
  }

  /** The four tests of the iterator are those of the four lowest bits. */
  lemma {:induction false} FourTests(word: nat)
    ensures FlagBits(word) == Flags(Bit(word, 0), Bit(word, 1), Bit(word, 2), Bit(word, 3))
  {
    assert Pow2(1) == 2 && Pow2(2) == 4 && Pow2(3) == 2 * Pow2(2);
    TestBit(word, 0);
    TestBit(word, 1);
    TestBit(word, 2);
    TestBit(word, 3);
  }

  /** Which bit of the flag word means what, whatever the bits above the four. */
  lemma {:induction false} FlagBitsMean(a: nat, b: nat, c: nat, d: nat, k: nat)
    requires a < 2 && b < 2 && c < 2 && d < 2
    ensures FlagBits(a + 2 * b + 4 * c + 8 * d + 16 * k) == Flags(a == 1, b == 1, c == 1, d == 1)
  {
    var w3 := d + 2 * k;
    var w2 := c + 2 * w3;
    var w1 := b + 2 * w2;
    var word := a + 2 * w1;
    assert word == a + 2 * b + 4 * c + 8 * d + 16 * k;
    FourBits(a, b, c, d, k, w1, w2, w3, word);
    FourTests(word);
  }

  /** Relocations under one group header; `extra` holds the bits of the flag word above the four. */
  datatype Group = Group(flags: Flags, extra: nat, delta: int, info: int, addend: int, entries: seq<Entry>) {
    function FlagWord(): nat {
      flags.Number() + 16 * extra
    }
  }

  /** The iterator finds the flags that a header was written with. */
  lemma {:induction false} FlagsRead(g: Group)
    ensures FlagBits(g.FlagWord()) == g.flags
  {
    FlagBitsMean(if g.flags.byInfo then 1 else 0, if g.flags.byDelta then 1 else 0,
                 if g.flags.byAddend then 1 else 0, if g.flags.hasAddend then 1 else 0, g.extra);
  }

  /** The fields that carry over from one relocation to the next. */
  datatype Running = Running(offset: nat, info: nat, addend: nat)

  function Header(at: Running, g: Group, w: nat): Running {
    Running(at.offset,
            if g.flags.byInfo then Word(g.info, w) else at.info,
            if !g.flags.hasAddend then 0
            else if g.flags.byAddend then Word(at.addend + g.addend, w) else at.addend)
  }

  function Advance(at: Running, g: Group, e: Entry, rela: bool, w: nat): Running {
    Running(Word(at.offset + (if g.flags.byDelta then g.delta else e.delta), w),
            if g.flags.byInfo then at.info else Word(e.info, w),
            if EntryAddend(g.flags, rela) then Word(at.addend + e.addend, w) else at.addend)
  }

  function Current(at: Running, rela: bool): Reloc {
    if rela then Rela(at.offset, at.info, at.addend) else Rel(at.offset, at.info)
  }

  function EntryRelocs(at: Running, g: Group, es: seq<Entry>, rela: bool, w: nat): seq<Reloc>
    decreases |es|
  {
    if es == [] then []
    else
      var now := Advance(at, g, es[0], rela, w);
      [Current(now, rela)] + EntryRelocs(now, g, es[1..], rela, w)
  }

  function After(at: Running, g: Group, es: seq<Entry>, rela: bool, w: nat): Running
    decreases |es|
  {
    if es == [] then at else After(Advance(at, g, es[0], rela, w), g, es[1..], rela, w)
  }

  /** The relocations the groups stand for, in order. */
  function Flatten(at: Running, gs: seq<Group>, rela: bool, w: nat): seq<Reloc>
    decreases |gs|
  {
    if gs == [] then []
    else
      var start := Header(at, gs[0], w);
      EntryRelocs(start, gs[0], gs[0].entries, rela, w)
      + Flatten(After(start, gs[0], gs[0].entries, rela, w), gs[1..], rela, w)
  }

  function Total(gs: seq<Group>): nat {
    if gs == [] then 0 else |gs[0].entries| + Total(gs[1..])
  }

  // ----- how it is written: as numbers, each put in front of those that follow

  function PutIf(cond: bool, v: int, tail: seq<int>): seq<int> {
    if cond then [v] + tail else tail
  }

  predicate EntryAddend(flags: Flags, rela: bool) {
    rela && flags.hasAddend && !flags.byAddend
  }

  function PutEntry(g: Group, e: Entry, rela: bool, tail: seq<int>): seq<int> {
    PutIf(!g.flags.byDelta, e.delta,
          PutIf(!g.flags.byInfo, e.info, PutIf(EntryAddend(g.flags, rela), e.addend, tail)))
  }

  function PutEntries(g: Group, es: seq<Entry>, rela: bool, tail: seq<int>): seq<int>
    decreases |es|
  {
    if es == [] then tail else PutEntry(g, es[0], rela, PutEntries(g, es[1..], rela, tail))
  }

  function PutHeader(g: Group, tail: seq<int>): seq<int> {
    [|g.entries|] + ([g.FlagWord()] +
      PutIf(g.flags.byDelta, g.delta, PutIf(g.flags.byInfo, g.info,
        PutIf(g.flags.hasAddend && g.flags.byAddend, g.addend, tail))))
  }

  function PutGroups(gs: seq<Group>, rela: bool): seq<int> {
    if gs == [] then [] else PutHeader(gs[0], PutEntries(gs[0], gs[0].entries, rela, PutGroups(gs[1..], rela)))
  }

  /** The bytes of a section. */
  function EncodeSection(offset: int, gs: seq<Group>, rela: bool): seq<Byte> {
    EncodeAll([Total(gs)] + ([offset] + PutGroups(gs, rela)))
  }

  /** Sizes and flags fit a word, and a rel section has no group addends. */
  predicate Framed(gs: seq<Group>, rela: bool, w: nat) {
    forall i | 0 <= i < |gs| ::
      && |gs[i].entries| < Pow2(w) && gs[i].FlagWord() < Pow2(w)
      && (!rela ==> !(gs[i].flags.hasAddend && gs[i].flags.byAddend))
  }

  /** No empty group comes before one that is not empty. */
  predicate Clean(gs: seq<Group>) {
    forall i, j | 0 <= i < j < |gs| :: gs[j].entries != [] ==> gs[i].entries != []
  }

  /** The same flag words and sizes, with any deltas, infos and addends. */
  predicate SameShape(a: seq<Group>, b: seq<Group>) {
    && |a| == |b|
    && forall i | 0 <= i < |a| ::
         a[i].flags == b[i].flags && a[i].extra == b[i].extra && |a[i].entries| == |b[i].entries|
  }

  // ----- the iterator as a state

  datatype State = State(ahead: seq<nat>, count: nat, size: nat, flags: Flags, delta: nat,
                         index: nat, groupIndex: nat, at: Running)

  function Start(ahead: seq<nat>): State {
    State(if |ahead| < 2 then [] else ahead[2..], if |ahead| < 1 then 0 else ahead[0], 0, NO_FLAGS, 0, 0, 0,
          Running(if |ahead| < 2 then 0 else ahead[1], 0, 0))
  }

  /** A group's size, flags and shared delta and info. */
  function ReadShape(s: State): Option<State> {
    if |s.ahead| < 2 then None
    else
      var flags := FlagBits(s.ahead[1]);
      match TakeIf(flags.byDelta, s.ahead[2..], s.delta)
      case None => None
      case Some((delta, a3)) =>
      match TakeIf(flags.byInfo, a3, s.at.info)
      case None => None
      case Some((info, a4)) => Some(s.(ahead := a4, size := s.ahead[0], flags := flags, delta := delta,
                                       at := s.at.(info := info)))
  }

  /** A group's addend, shared, absent or left to the entries. */
  function ReadGroupAddend(s: State, rela: bool, w: nat): Option<State> {
    if s.flags.hasAddend && s.flags.byAddend then
      if !rela || s.ahead == [] then None
      else Some(s.(ahead := s.ahead[1..], groupIndex := 0, at := s.at.(addend := Word(s.at.addend + s.ahead[0], w))))
    else
      Some(s.(groupIndex := 0, at := s.at.(addend := if s.flags.hasAddend then s.at.addend else 0)))
  }

  function ReadGroup(s: State, rela: bool, w: nat): Option<State> {
    match ReadShape(s)
    case None => None
    case Some(t) => ReadGroupAddend(t, rela, w)
  }

  datatype Fields = Fields(delta: nat, info: nat, addend: nat, ahead: seq<nat>)

  /** The fields of the next entry, read or shared with its group. */
  function TakeEntry(s: State, rela: bool): Option<Fields> {
    match TakeIf(!s.flags.byDelta, s.ahead, s.delta)
    case None => None
    case Some((delta, a1)) =>
    match TakeIf(!s.flags.byInfo, a1, s.at.info)
    case None => None
    case Some((info, a2)) =>
    match TakeIf(EntryAddend(s.flags, rela), a2, 0)
    case None => None
    case Some((addend, a3)) => Some(Fields(delta, info, addend, a3))
  }

  function ReadEntry(s: State, rela: bool, w: nat): Option<State> {
    match TakeEntry(s, rela)
    case None => None
    case Some(f) =>
      Some(s.(ahead := f.ahead, index := s.index + 1, groupIndex := s.groupIndex + 1,
              at := Running(Word(s.at.offset + f.delta, w), f.info,
                            if EntryAddend(s.flags, rela) then Word(s.at.addend + f.addend, w) else s.at.addend)))
  }

  /** One call of the iterator: the next state and relocation, or None for NULL. */
  function Step(s: State, rela: bool, w: nat): Option<State> {
    if s.index >= s.count then None
    else if s.groupIndex == s.size then
      match ReadGroup(s, rela, w)
      case None => None
      case Some(s') => ReadEntry(s', rela, w)
    else ReadEntry(s, rela, w)
  }

  /** All relocations the iterator yields before its first NULL. */
  function Run(s: State, rela: bool, w: nat): seq<Reloc>
    decreases s.count - s.index
  {
    match Step(s, rela, w)
    case None => []
    case Some(s') =>
      StepCounts(s, rela, w);
      [Current(s'.at, rela)] + Run(s', rela, w)
  }

  /** The relocations of a packed section of bytes. */
  function Relocs(bytes: seq<Byte>, rela: bool, w: nat): seq<Reloc> {
    Run(Start(Numbers(bytes, w)), rela, w)
  }

  lemma StepCounts(s: State, rela: bool, w: nat)
    ensures Step(s, rela, w).Some? ==>
              Step(s, rela, w).value.count == s.count && Step(s, rela, w).value.index == s.index + 1 <= s.count
  {
  }

  // ----- the round trip

  lemma WordSum(a: int, b: int, w: nat)
    ensures Word(a + Word(b, w), w) == Word(a + b, w)
  {
    WordIsMod(b, w);
    WordIsMod(a + b, w);
    WordIsMod(a + b % Pow2(w), w);
    ModAddMod(a, b, Pow2(w));
  }

  lemma {:induction false} TakeIfBack(cond: bool, v: int, keep: nat, tail: seq<int>, w: nat)
    ensures TakeIf(cond, Words(PutIf(cond, v, tail), w), keep)
            == Some((if cond then Word(v, w) else keep, Words(tail, w)))
  {
  }

  /** Entry by entry, the iterator reads back the group. */
  lemma {:induction false} ReadEntryBack(s: State, g: Group, e: Entry, tail: seq<int>, rela: bool, w: nat)
    requires s.flags == g.flags && s.ahead == Words(PutEntry(g, e, rela, tail), w)
    requires g.flags.byDelta ==> s.delta == Word(g.delta, w)
    ensures ReadEntry(s, rela, w) == Some(s.(ahead := Words(tail, w), index := s.index + 1,
                                             groupIndex := s.groupIndex + 1,
                                             at := Advance(s.at, g, e, rela, w)))
  {
    var f := g.flags;
    var t3 := PutIf(EntryAddend(f, rela), e.addend, tail);
    var t2 := PutIf(!f.byInfo, e.info, t3);
    TakeIfBack(!f.byDelta, e.delta, s.delta, t2, w);
    TakeIfBack(!f.byInfo, e.info, s.at.info, t3, w);
    TakeIfBack(EntryAddend(f, rela), e.addend, 0, tail, w);
    WordSum(s.at.offset, if f.byDelta then g.delta else e.delta, w);
    WordSum(s.at.addend, e.addend, w);
  }

  lemma {:induction false} ReadGroupBack(s: State, g: Group, tail: seq<int>, rela: bool, w: nat)
    requires s.ahead == Words(PutHeader(g, tail), w) && |g.entries| < Pow2(w) && g.FlagWord() < Pow2(w)
    requires !rela ==> !(g.flags.hasAddend && g.flags.byAddend)
    ensures ReadGroup(s, rela, w) ==
            Some(s.(ahead := Words(tail, w), size := |g.entries|, flags := g.flags, groupIndex := 0,
                    at := Header(s.at, g, w),
                    delta := if g.flags.byDelta then Word(g.delta, w) else s.delta))
  {
    ReadShapeBack(s, g, PutIf(g.flags.hasAddend && g.flags.byAddend, g.addend, tail), w);
    WordSum(s.at.addend, g.addend, w);
  }

  lemma {:induction false} ReadShapeBack(s: State, g: Group, t5: seq<int>, w: nat)
    requires s.ahead == Words([|g.entries|]
                              + ([g.FlagWord()]
                                 + PutIf(g.flags.byDelta, g.delta, PutIf(g.flags.byInfo, g.info, t5))), w)
    requires |g.entries| < Pow2(w) && g.FlagWord() < Pow2(w)
    ensures ReadShape(s) ==
            Some(s.(ahead := Words(t5, w), size := |g.entries|, flags := g.flags,
                    at := s.at.(info := if g.flags.byInfo then Word(g.info, w) else s.at.info),
                    delta := if g.flags.byDelta then Word(g.delta, w) else s.delta))
  {
    var t4 := PutIf(g.flags.byInfo, g.info, t5);
    var t3 := PutIf(g.flags.byDelta, g.delta, t4);
    SmallWord(|g.entries|, w);
    SmallWord(g.FlagWord(), w);
    FlagsRead(g);
    assert s.ahead == [|g.entries|] + ([g.FlagWord()] + Words(t3, w));
    assert s.ahead[2..] == Words(t3, w);
    TakeIfBack(g.flags.byDelta, g.delta, s.delta, t4, w);
    TakeIfBack(g.flags.byInfo, g.info, s.at.info, t5, w);
  }

  lemma {:induction false} SmallWord(v: nat, w: nat)
    requires v < Pow2(w)
    ensures Word(v, w) == v
  {
    WordUnique(v, 0, v, w);
  }

  /** What the iterator's state holds inside group g with the entries es still to come. */
  ghost predicate Inside(s: State, g: Group, es: seq<Entry>, gs: seq<Group>, rela: bool, w: nat) {
    && s.flags == g.flags && (g.flags.byDelta ==> s.delta == Word(g.delta, w))
    && s.ahead == Words(PutEntries(g, es, rela, PutGroups(gs, rela)), w) && Framed(gs, rela, w)
    && s.size == s.groupIndex + |es| && s.count == s.index + |es| + Total(gs)
  }

  lemma StepInside(s: State, g: Group, es: seq<Entry>, gs: seq<Group>, rela: bool, w: nat) returns (s': State)
    requires Inside(s, g, es, gs, rela, w) && es != []
    ensures Step(s, rela, w) == Some(s') && Inside(s', g, es[1..], gs, rela, w)
    ensures s'.at == Advance(s.at, g, es[0], rela, w)
    ensures Run(s, rela, w) == [Current(s'.at, rela)] + Run(s', rela, w)
    ensures s'.count - s'.index == s.count - s.index - 1
  {
    ReadEntryBack(s, g, es[0], PutEntries(g, es[1..], rela, PutGroups(gs, rela)), rela, w);
    s' := Step(s, rela, w).value;
  }

  lemma StepAcross(s: State, g: Group, gs: seq<Group>, rela: bool, w: nat) returns (s': State)
    requires Inside(s, g, [], gs, rela, w) && gs != [] && gs[0].entries != []
    ensures Step(s, rela, w) == Some(s') && Inside(s', gs[0], gs[0].entries[1..], gs[1..], rela, w)
    ensures s'.at == Advance(Header(s.at, gs[0], w), gs[0], gs[0].entries[0], rela, w)
    ensures Run(s, rela, w) == [Current(s'.at, rela)] + Run(s', rela, w)
    ensures s'.count - s'.index == s.count - s.index - 1
  {
    var h, gs' := gs[0], gs[1..];
    assert Framed(gs', rela, w);
    ReadGroupBack(s, h, PutEntries(h, h.entries, rela, PutGroups(gs', rela)), rela, w);
    ReadEntryBack(ReadGroup(s, rela, w).value, h, h.entries[0],
                  PutEntries(h, h.entries[1..], rela, PutGroups(gs', rela)), rela, w);
    s' := Step(s, rela, w).value;
  }

  /** How many groups come before the first empty one. */
  function Lead(gs: seq<Group>): (n: nat)
    ensures n <= |gs| && (n < |gs| ==> gs[n].entries == [])
  {
    if gs == [] || gs[0].entries == [] then 0 else 1 + Lead(gs[1..])
  }

  /** What a section stands for from inside group g on. */
  function Ahead(at: Running, g: Group, es: seq<Entry>, gs: seq<Group>, rela: bool, w: nat): seq<Reloc> {
    EntryRelocs(at, g, es, rela, w) + Flatten(After(at, g, es, rela, w), gs, rela, w)
  }

  lemma AheadInside(at: Running, g: Group, es: seq<Entry>, gs: seq<Group>, rela: bool, w: nat)
    requires es != []
    ensures var now := Advance(at, g, es[0], rela, w);
            Ahead(at, g, es, gs, rela, w) == [Current(now, rela)] + Ahead(now, g, es[1..], gs, rela, w)
  {
    var now := Advance(at, g, es[0], rela, w);
    Regroup(Current(now, rela), EntryRelocs(now, g, es[1..], rela, w), Flatten(After(at, g, es, rela, w), gs, rela, w));
  }

  lemma {:induction false} AheadAcross(at: Running, g: Group, gs: seq<Group>, rela: bool, w: nat)
    ensures Ahead(at, g, [], gs, rela, w) == Flatten(at, gs, rela, w)
    ensures gs != [] ==>
              Ahead(at, g, [], gs, rela, w) == Ahead(Header(at, gs[0], w), gs[0], gs[0].entries, gs[1..], rela, w)
  {
  }

  lemma ConsSame(r: Reloc, a: seq<Reloc>, b: seq<Reloc>)
    ensures [r] + a == [r] + b <==> a == b
  {
    assert ([r] + a)[1..] == a && ([r] + b)[1..] == b;
  }

  lemma Regroup(r: Reloc, a: seq<Reloc>, b: seq<Reloc>)
    ensures [r] + (a + b) == ([r] + a) + b
  {
  }

  /** Up to the first empty group the iterator yields what the groups say; from there on it has yet to be seen. */
  lemma {:induction false} RunLead(s: State, g: Group, es: seq<Entry>, gs: seq<Group>, rela: bool, w: nat)
    returns (s': State, g': Group)
    requires Inside(s, g, es, gs, rela, w)
    ensures Inside(s', g', [], gs[Lead(gs)..], rela, w)
    ensures Run(s, rela, w) == Ahead(s.at, g, es, gs, rela, w)
            <==> Run(s', rela, w) == Flatten(s'.at, gs[Lead(gs)..], rela, w)
    decreases s.count - s.index
  {
    if es != [] {
      var s1 := StepInside(s, g, es, gs, rela, w);
      s', g' := RunLead(s1, g, es[1..], gs, rela, w);
      AheadInside(s.at, g, es, gs, rela, w);
      ConsSame(Current(s1.at, rela), Run(s1, rela, w), Ahead(s1.at, g, es[1..], gs, rela, w));
    } else if Lead(gs) > 0 {
      var s1 := StepAcross(s, g, gs, rela, w);
      var h, es1 := gs[0], gs[0].entries[1..];
      s', g' := RunLead(s1, h, es1, gs[1..], rela, w);
      AheadAcross(s.at, g, gs, rela, w);
      AheadInside(Header(s.at, h, w), h, h.entries, gs[1..], rela, w);
      ConsSame(Current(s1.at, rela), Run(s1, rela, w), Ahead(s1.at, h, es1, gs[1..], rela, w));
      assert gs[1..][Lead(gs[1..])..] == gs[Lead(gs)..];
    } else {
      s', g' := s, g;
      AheadAcross(s.at, g, gs, rela, w);
      assert gs[0..] == gs;
    }
  }

  /** The iterator undoes the encoding: over the section's bytes it yields exactly its relocations, in order. */
  predicate ReadsBack(offset: int, gs: seq<Group>, rela: bool, w: nat) {
    Relocs(EncodeSection(offset, gs, rela), rela, w) == Flatten(Running(Word(offset, w), 0, 0), gs, rela, w)
  }

  /** A section comes down to what happens from its first empty group on. */
  lemma ReadsBackFrom(offset: int, gs: seq<Group>, rela: bool, w: nat) returns (s: State, g: Group)
    requires Framed(gs, rela, w) && Total(gs) < Pow2(w)
    ensures Inside(s, g, [], gs[Lead(gs)..], rela, w)
    ensures ReadsBack(offset, gs, rela, w) <==> Run(s, rela, w) == Flatten(s.at, gs[Lead(gs)..], rela, w)
  {
    SectionNumbers(offset, gs, rela, w);
    var start, none := Start(Numbers(EncodeSection(offset, gs, rela), w)), Group(NO_FLAGS, 0, 0, 0, 0, []);
    AheadAcross(start.at, none, gs, rela, w);
    s, g := RunLead(start, none, [], gs, rela, w);
  }

  lemma {:induction false} TotalZero(gs: seq<Group>)
    ensures Total(gs) == 0 <==> forall i | 0 <= i < |gs| :: gs[i].entries == []
  {
    if gs != [] {
      TotalZero(gs[1..]);
      assert forall i | 1 <= i < |gs| :: gs[i] == gs[1..][i - 1];
    }
  }

  lemma {:induction false} LeadFull(gs: seq<Group>, i: nat)
    requires i < Lead(gs)
    ensures gs[i].entries != []
  {
    if i > 0 {
      LeadFull(gs[1..], i - 1);
    }
  }

  lemma RestEmpty(gs: seq<Group>, n: nat)
    requires n <= |gs|
    ensures Total(gs[n..]) == 0 <==> forall i | n <= i < |gs| :: gs[i].entries == []
  {
    TotalZero(gs[n..]);
    assert forall i | n <= i < |gs| :: gs[n..][i - n] == gs[i];
  }

  /** Clean sections have nothing to yield from their first empty group on, and only those. */
  lemma {:induction false} CleanEnds(gs: seq<Group>)
    ensures Clean(gs) <==> Total(gs[Lead(gs)..]) == 0
  {
    RestEmpty(gs, Lead(gs));
    forall i | 0 <= i < Lead(gs) ensures gs[i].entries != [] {
      LeadFull(gs, i);
    }
  }

  /** Running the iterator over an encoded clean section yields exactly its relocations, in order. */
  lemma {:induction false} RoundTrip(offset: int, gs: seq<Group>, rela: bool, w: nat)
    requires Framed(gs, rela, w) && Total(gs) < Pow2(w) && Clean(gs)
    ensures ReadsBack(offset, gs, rela, w)
  {
    var s, g := ReadsBackFrom(offset, gs, rela, w);
    CleanEnds(gs);
    FlattenLength(s.at, gs[Lead(gs)..], rela, w);
    assert Step(s, rela, w) == None;
  }

  lemma {:induction false} SectionNumbers(offset: int, gs: seq<Group>, rela: bool, w: nat)
    requires Total(gs) < Pow2(w)
    ensures Start(Numbers(EncodeSection(offset, gs, rela), w)) ==
            State(Words(PutGroups(gs, rela), w), Total(gs), 0, NO_FLAGS, 0, 0, 0, Running(Word(offset, w), 0, 0))
  {
    HeadNumbers(Total(gs), offset, PutGroups(gs, rela), w);
  }

  lemma {:induction false} HeadNumbers(total: nat, offset: int, rest: seq<int>, w: nat)
    requires total < Pow2(w)
    ensures Numbers(EncodeAll([total] + ([offset] + rest)), w) == [total] + ([Word(offset, w)] + Words(rest, w))
  {
    NumbersEncoded([total] + ([offset] + rest), w);
    SmallWord(total, w);
    WordsCons(total, [offset] + rest, w);
    WordsCons(offset, rest, w);
  }

  lemma {:induction false} WordsCons(v: int, vs: seq<int>, w: nat)
    ensures Words([v] + vs, w) == [Word(v, w)] + Words(vs, w)
  {
    assert ([v] + vs)[1..] == vs;
  }

  lemma {:induction false} EntryRelocsLength(at: Running, g: Group, es: seq<Entry>, rela: bool, w: nat)
    ensures |EntryRelocs(at, g, es, rela, w)| == |es|
    decreases |es|
  {
    if es != [] {
      EntryRelocsLength(Advance(at, g, es[0], rela, w), g, es[1..], rela, w);
    }
  }

  /** As many relocations come out as the section counts. */
  lemma {:induction false} FlattenLength(at: Running, gs: seq<Group>, rela: bool, w: nat)
    ensures |Flatten(at, gs, rela, w)| == Total(gs)
    decreases |gs|
  {
    if gs != [] {
      var start := Header(at, gs[0], w);
      EntryRelocsLength(start, gs[0], gs[0].entries, rela, w);
      FlattenLength(After(start, gs[0], gs[0].entries, rela, w), gs[1..], rela, w);
    }
  }

  // ----- empty groups

  /** The delta of the first relocation that the groups stand for. */
  function FirstDelta(gs: seq<Group>): int
    requires Total(gs) > 0
  {
    if gs[0].entries == [] then FirstDelta(gs[1..])
    else if gs[0].flags.byDelta then gs[0].delta else gs[0].entries[0].delta
  }

  /** Empty groups stand for nothing: the first relocation is that of the first entry there is. */
  lemma {:induction false} EmptyGroupFlatten(at: Running, gs: seq<Group>, rela: bool, w: nat)
    requires Total(gs) > 0
    ensures Flatten(at, gs, rela, w) != []
    ensures Flatten(at, gs, rela, w)[0].offset == Word(at.offset + FirstDelta(gs), w)
    decreases |gs|
  {
    if gs[0].entries == [] {
      EmptyGroupFlatten(Header(at, gs[0], w), gs[1..], rela, w);
    }
  }

  /** The delta that the iterator takes at an empty group: the group's, or the size of the group after it. */
  function EmptyDelta(gs: seq<Group>): int
    requires |gs| > 1
  {
    if gs[0].flags.byDelta then gs[0].delta else |gs[1].entries|
  }

  /** An empty group is not skipped: once read it yields a relocation of its own, or the iterator ends there. */
  lemma {:induction false} EmptyGroupYields(s: State, g: Group, gs: seq<Group>, rela: bool, w: nat)
    requires Inside(s, g, [], gs, rela, w) && |gs| > 1 && gs[0].entries == [] && Total(gs) > 0
    ensures Run(s, rela, w) == [] || Run(s, rela, w)[0].offset == Word(s.at.offset + EmptyDelta(gs), w)
  {
    ReadGroupBack(s, gs[0], PutGroups(gs[1..], rela), rela, w);
    var t := ReadGroup(s, rela, w).value;
    EmptyEntry(t, s.at, gs, rela, w);
    RunReads(s, t, rela, w);
  }

  lemma {:induction false} RunReads(s: State, t: State, rela: bool, w: nat)
    requires s.index < s.count && s.groupIndex == s.size && ReadGroup(s, rela, w) == Some(t)
    ensures match ReadEntry(t, rela, w)
            case None => Run(s, rela, w) == []
            case Some(u) => Run(s, rela, w) != [] && Run(s, rela, w)[0].offset == u.at.offset
  {
  }

  lemma {:induction false} EmptyEntry(t: State, at: Running, gs: seq<Group>, rela: bool, w: nat)
    requires |gs| > 1 && |gs[1].entries| < Pow2(w) && t.at.offset == at.offset && t.flags == gs[0].flags
    requires t.ahead == Words(PutGroups(gs[1..], rela), w) && (gs[0].flags.byDelta ==> t.delta == Word(gs[0].delta, w))
    ensures match ReadEntry(t, rela, w)
            case None => true
            case Some(u) => u.at.offset == Word(at.offset + EmptyDelta(gs), w)
  {
    SmallWord(|gs[1].entries|, w);
    WordsHead(PutGroups(gs[1..], rela), w);
    WordSum(at.offset, EmptyDelta(gs), w);
  }

  lemma {:induction false} WordsHead(vs: seq<int>, w: nat)
    requires vs != []
    ensures Words(vs, w) != [] && Words(vs, w)[0] == Word(vs[0], w)
  {
  }

  lemma {:induction false} SameShapeMeans(a: seq<Group>, b: seq<Group>, rela: bool, w: nat)
    requires SameShape(a, b)
    ensures Total(a) == Total(b) && Lead(a) == Lead(b) && Framed(a, rela, w) == Framed(b, rela, w)
  {
    if a != [] {
      SameShapeMeans(a[1..], b[1..], rela, w);
      assert forall i | 1 <= i < |a| :: a[i] == a[1..][i - 1] && b[i] == b[1..][i - 1];
    }
  }

  lemma SameClean(a: seq<Group>, b: seq<Group>)
    requires SameShape(a, b) && Clean(a)
    ensures Clean(b)
  {
    assert forall i | 0 <= i < |a| :: |a[i].entries| == |b[i].entries|;
  }

  /** The groups with d for the delta of the first relocation. */
  function WithDelta(gs: seq<Group>, d: int): (r: seq<Group>)
    requires Total(gs) > 0
    ensures SameShape(gs, r)
  {
    if gs[0].entries == [] then [gs[0]] + WithDelta(gs[1..], d)
    else
      var es := gs[0].entries;
      [gs[0].(delta := d, entries := [es[0].(delta := d)] + es[1..])] + gs[1..]
  }

  lemma {:induction false} FirstDeltaSet(gs: seq<Group>, d: int)
    requires Total(gs) > 0
    ensures Total(WithDelta(gs, d)) > 0 && FirstDelta(WithDelta(gs, d)) == d
    ensures gs[0].entries == [] ==> |gs| > 1 && EmptyDelta(WithDelta(gs, d)) == EmptyDelta(gs)
  {
    if gs[0].entries == [] {
      FirstDeltaSet(gs[1..], d);
      assert WithDelta(gs, d)[1..] == WithDelta(gs[1..], d);
    }
  }

  lemma WordDiffers(v: int, w: nat)
    requires w > 0
    ensures Word(v, w) != Word(v + 1, w)
  {
  }

  /** Behind an empty group some delta is not read back. */
  lemma {:induction false} DeltaLost(s: State, g: Group, gs: seq<Group>, d: int, rela: bool, w: nat)
    requires w > 0 && Total(gs) > 0 && gs[0].entries == [] && |gs| > 1 && d == EmptyDelta(gs) + 1
    requires Inside(s, g, [], WithDelta(gs, d), rela, w)
    ensures Run(s, rela, w) != Flatten(s.at, WithDelta(gs, d), rela, w)
  {
    FirstDeltaSet(gs, d);
    EmptyGroupYields(s, g, WithDelta(gs, d), rela, w);
    EmptyGroupFlatten(s.at, WithDelta(gs, d), rela, w);
    WordDiffers(s.at.offset + EmptyDelta(gs), w);
  }

  /** The groups with another first delta from the n-th on. */
  lemma {:induction false} ShapeSpoiled(gs: seq<Group>, n: nat, d: int) returns (r: seq<Group>)
    requires n <= |gs| && Total(gs[n..]) > 0
    ensures SameShape(gs, r) && r[n..] == WithDelta(gs[n..], d)
  {
    var rest := WithDelta(gs[n..], d);
    r := gs[..n] + rest;
    assert r[n..] == rest;
    forall i | 0 <= i < |gs|
      ensures gs[i].flags == r[i].flags && gs[i].extra == r[i].extra && |gs[i].entries| == |r[i].entries|
    {
      if i >= n {
        assert gs[n..][i - n] == gs[i] && rest[i - n] == r[i];
      }
    }
  }

  /** A section that is not clean has deltas with which the iterator does not read it back, in any mode. */
  lemma {:induction false} NotReadBack(offset: int, gs: seq<Group>, rela: bool, w: nat) returns (gs': seq<Group>)
    requires w > 0 && Framed(gs, rela, w) && Total(gs) < Pow2(w) && !Clean(gs)
    ensures SameShape(gs, gs') && !ReadsBack(offset, gs', rela, w)
  {
    CleanEnds(gs);
    var n, rest := Lead(gs), gs[Lead(gs)..];
    FirstDeltaSet(rest, 0);
    var d := EmptyDelta(rest) + 1;
    gs' := ShapeSpoiled(gs, n, d);
    SameShapeMeans(gs, gs', rela, w);
    var s, g := ReadsBackFrom(offset, gs', rela, w);
    DeltaLost(s, g, rest, d, rela, w);
  }

  /** Every section of this shape is read back, whatever its offset, deltas, infos and addends. */
  ghost predicate AllReadBack(gs: seq<Group>, rela: bool, w: nat) {
    forall offset, gs' {:trigger ReadsBack(offset, gs', rela, w)} ::
      SameShape(gs, gs') ==> ReadsBack(offset, gs', rela, w)
  }

  /** The round trip holds for all sections of a shape exactly when no empty group comes before a full one. */
  lemma {:induction false} RoundTripsExactly(gs: seq<Group>, rela: bool, w: nat)
    requires w > 0 && Framed(gs, rela, w) && Total(gs) < Pow2(w)
    ensures Clean(gs) <==> AllReadBack(gs, rela, w)
  {
    if Clean(gs) {
      forall offset, gs' | SameShape(gs, gs') ensures ReadsBack(offset, gs', rela, w) {
        SameShapeMeans(gs, gs', rela, w);
        SameClean(gs, gs');
        RoundTrip(offset, gs', rela, w);
      }
    } else {
      var gs' := NotReadBack(0, gs, rela, w);
    }
  }

  /** Delta and info shared. */
  const SHARED := Flags(true, true, false, false)

  lemma {:induction false} DigitWord(v: nat, w: nat)
    requires w > 2 && v < 8
    ensures Word(v, w) == v
  {
    Pow2Monotonic(3, w);
    assert Pow2(3) == 2 * Pow2(2);
    SmallWord(v, w);
  }

  lemma {:induction false} ExampleSays(gs: seq<Group>, w: nat)
    requires w > 2 && gs == [Group(SHARED, 0, 1, 7, 0, []), Group(SHARED, 0, 2, 7, 0, [Entry(0, 0, 0)])]
    ensures Flatten(Running(0, 0, 0), gs, false, w) == [Rel(2, 7)]
  {
    DigitWord(7, w);
    DigitWord(2, w);
    assert gs[1..] == [gs[1]] && [gs[1]][1..] == [] && gs[1].entries[1..] == [];
    assert Flatten(Running(0, 7, 0), [gs[1]], false, w) == [Rel(2, 7)];
  }

  lemma {:induction false} ExampleYields(gs: seq<Group>, w: nat)
    requires w > 2 && gs == [Group(SHARED, 0, 1, 7, 0, []), Group(SHARED, 0, 2, 7, 0, [Entry(0, 0, 0)])]
    ensures Relocs(EncodeSection(0, gs, false), false, w) == [Rel(1, 7)]
  {
    forall v: nat | v < 8 ensures Word(v, w) == v {
      DigitWord(v, w);
    }
    assert gs[1..] == [gs[1]] && Total(gs[1..]) == 1 && Total(gs) == 1;
    SectionNumbers(0, gs, false, w);
    var s := Start(Numbers(EncodeSection(0, gs, false), w));
    ReadGroupBack(s, gs[0], PutGroups(gs[1..], false), false, w);
    var t := Step(s, false, w).value;
    assert t.at == Running(1, 7, 0) && Run(t, false, w) == [];
    assert Run(s, false, w) == [Current(t.at, false)] + Run(t, false, w);
  }

  /** An empty group with the delta 1, then a relocation at 2: the iterator reads back one at 1. */
  lemma {:induction false} EmptyGroupExample(w: nat)
    requires w > 2
    ensures var gs := [Group(SHARED, 0, 1, 7, 0, []), Group(SHARED, 0, 2, 7, 0, [Entry(0, 0, 0)])];
            && Flatten(Running(0, 0, 0), gs, false, w) == [Rel(2, 7)]
            && Relocs(EncodeSection(0, gs, false), false, w) == [Rel(1, 7)]
            && !ReadsBack(0, gs, false, w)
  {
    var gs := [Group(SHARED, 0, 1, 7, 0, []), Group(SHARED, 0, 2, 7, 0, [Entry(0, 0, 0)])];
    ExampleSays(gs, w);
    ExampleYields(gs, w);
    DigitWord(0, w);
  }

  // ----- sections written out

  /** Small numbers are bytes of their own. */
  lemma {:induction false} SmallBytes(vs: seq<int>, bytes: seq<Byte>)
    requires |vs| == |bytes| && forall i | 0 <= i < |vs| :: vs[i] == bytes[i] < 64
    ensures EncodeAll(vs) == bytes
  {
    if vs != [] {
      SmallBytes(vs[1..], bytes[1..]);
      assert Encode(vs[0]) == [bytes[0]];
      assert bytes == [bytes[0]] + bytes[1..];
    }
  }

  lemma {:induction false} OneEntryNumbers(g: Group, e: Entry, rela: bool)
    requires g.entries == [e]
    ensures PutGroups([g], rela) == PutHeader(g, PutEntry(g, e, rela, [])) && Total([g]) == 1
  {
    var es, gs := g.entries, [g];
    assert gs[1..] == [] && es[1..] == [] && Total(gs[1..]) == 0;
    assert PutGroups(gs[1..], rela) == [] && PutEntries(g, es[1..], rela, []) == [];
    assert PutEntries(g, es, rela, []) == PutEntry(g, es[0], rela, PutEntries(g, es[1..], rela, []));
  }

  lemma {:induction false} OneEntryBytes(g: Group, e: Entry, rela: bool, bytes: seq<Byte>)
    requires g.entries == [e]
    requires bytes == [1, 0] + PutHeader(g, PutEntry(g, e, rela, [])) && forall i | 0 <= i < |bytes| :: bytes[i] < 64
    ensures EncodeSection(0, [g], rela) == bytes && Total([g]) == 1
  {
    OneEntryNumbers(g, e, rela);
    var h := PutHeader(g, PutEntry(g, e, rela, []));
    var nums := [1] + ([0] + h);
    assert nums == [1, 0] + h;
    forall i | 0 <= i < |nums| ensures nums[i] == bytes[i] {
    }
    SmallBytes(nums, bytes);
  }

  lemma {:induction false} OneEntryFlatten(at: Running, g: Group, e: Entry, rela: bool, w: nat)
    requires g.entries == [e]
    ensures Flatten(at, [g], rela, w) == [Current(Advance(Header(at, g, w), g, e, rela, w), rela)]
  {
    assert [g][1..] == [] && [e][1..] == [];
    assert Flatten(at, [g], rela, w) == EntryRelocs(Header(at, g, w), g, [e], rela, w) + [];
  }

  lemma {:induction false} OneEntrySection(g: Group, e: Entry, rela: bool, w: nat, bytes: seq<Byte>)
    requires w > 3 && g.entries == [e] && g.FlagWord() < 16
    requires !rela ==> !(g.flags.hasAddend && g.flags.byAddend)
    requires bytes == [1, 0] + PutHeader(g, PutEntry(g, e, rela, [])) && forall i | 0 <= i < |bytes| :: bytes[i] < 64
    ensures Relocs(bytes, rela, w) == [Current(Advance(Header(Running(0, 0, 0), g, w), g, e, rela, w), rela)]
  {
    Pow2Monotonic(4, w);
    assert Pow2(4) == 4 * Pow2(2);
    OneEntryBytes(g, e, rela, bytes);
    DigitWord(0, w);
    RoundTrip(0, [g], rela, w);
    OneEntryFlatten(Running(0, 0, 0), g, e, rela, w);
  }

  /** One relocation in a group of size 1, its delta shared, in a rel section. */
  lemma {:induction false} SharedDeltaBytes(w: nat)
    requires w > 3
    ensures Relocs([1, 0, 1, 2, 5, 7], false, w) == [Rel(5, 7)]
  {
    var e := Entry(0, 7, 0);
    var g := Group(Flags(false, true, false, false), 0, 5, 0, 0, [e]);
    assert g.FlagWord() == 2 && PutEntry(g, e, false, []) == [7];
    assert PutHeader(g, [7]) == [1, 2, 5, 7];
    OneEntrySection(g, e, false, w, [1, 0, 1, 2, 5, 7]);
    DigitWord(5, w);
    DigitWord(7, w);
  }

  /** In a rela section: info shared and an addend for each entry. */
  lemma {:induction false} SharedInfoBytes(w: nat)
    requires w > 3
    ensures Relocs([1, 0, 1, 9, 7, 5, 3], true, w) == [Rela(5, 7, 3)]
  {
    var e := Entry(5, 0, 3);
    var g := Group(Flags(true, false, false, true), 0, 0, 7, 0, [e]);
    assert g.FlagWord() == 9 && PutEntry(g, e, true, []) == [5, 3];
    assert PutHeader(g, [5, 3]) == [1, 9, 7, 5, 3];
    OneEntrySection(g, e, true, w, [1, 0, 1, 9, 7, 5, 3]);
    DigitWord(5, w);
    DigitWord(7, w);
    DigitWord(3, w);
  }

  /** In a rela section: the addend shared. */
  lemma {:induction false} SharedAddendBytes(w: nat)
    requires w > 3
    ensures Relocs([1, 0, 1, 12, 3, 5, 7], true, w) == [Rela(5, 7, 3)]
  {
    var e := Entry(5, 7, 0);
    var g := Group(Flags(false, false, true, true), 0, 0, 0, 3, [e]);
    assert g.FlagWord() == 12 && PutEntry(g, e, true, []) == [5, 7];
    assert PutHeader(g, [5, 7]) == [1, 12, 3, 5, 7];
    OneEntrySection(g, e, true, w, [1, 0, 1, 12, 3, 5, 7]);
    DigitWord(5, w);
    DigitWord(7, w);
    DigitWord(3, w);
  }

  // ----- the iterator itself

  class Iterator {
    const decoder: Decoder
    const rela: bool
    var count: nat
    var size: nat
    var flags: Flags
    var delta: nat
    var index: nat
    var groupIndex: nat
    var offset: nat
    var info: nat
    var addend: nat

    ghost predicate Valid()
      reads this, decoder
    {
      decoder.Valid()
    }

    ghost function Value(): State
      requires Valid()
      reads this, decoder
    {
      State(decoder.Ahead(), count, size, flags, delta, index, groupIndex, Running(offset, info, addend))
    }

    constructor (buf: seq<Byte>, w: nat, rela: bool)
      ensures Valid() && fresh(decoder) && decoder.w == w && this.rela == rela
      ensures Value() == Start(Numbers(buf, w))
    {
      this.rela := rela;
      decoder := new Decoder(buf, w);
      count, size, flags, delta, index, groupIndex, offset, info, addend := 0, 0, NO_FLAGS, 0, 0, 0, 0, 0, 0;
      new;
      assert decoder.buf[0..] == buf;
      var ok, val := decoder.Next();
      if ok {
        count := val;
        ok, val := decoder.Next();
        if ok {
          offset := val;
        }
      }
    }

    method ReadGroupShape() returns (ok: bool)
      requires Valid()
      modifies this`size, this`flags, this`delta, this`info, decoder`cur
      ensures Valid() && ReadShape(old(Value())) == if ok then Some(Value()) else None
    {
      ok, size := decoder.Next();
      if !ok { return; }
      var word;
      ok, word := decoder.Next();
      if !ok { return; }
      flags := FlagBits(word);
      ok, delta := decoder.NextIf(flags.byDelta, delta);
      if !ok { return; }
      ok, info := decoder.NextIf(flags.byInfo, info);
    }

    /** The group's addend, and the start of its entries. */
    method ReadGroupRest() returns (ok: bool)
      requires Valid()
      modifies this`groupIndex, this`addend, decoder`cur
      ensures Valid() && ReadGroupAddend(old(Value()), rela, decoder.w) == if ok then Some(Value()) else None
    {
      ok := true;
      if flags.hasAddend && flags.byAddend {
        if !rela { return false; }
        var val;
        ok, val := decoder.Next();
        if !ok { return; }
        addend := Word(addend + val, decoder.w);
      } else if !flags.hasAddend {
        addend := 0;
      }
      groupIndex := 0;
    }

    method ReadGroupFields() returns (ok: bool)
      requires Valid()
      modifies this, decoder`cur
      ensures Valid() && ReadGroup(old(Value()), rela, decoder.w) == if ok then Some(Value()) else None
    {
      ok := ReadGroupShape();
      if !ok { return; }
      ok := ReadGroupRest();
    }

    method TakeEntryFields() returns (ok: bool, d: nat, i: nat, a: nat)
      requires Valid()
      modifies decoder`cur
      ensures Valid()
      ensures TakeEntry(old(Value()), rela) == if ok then Some(Fields(d, i, a, decoder.Ahead())) else None
    {
      d, i, a := 0, 0, 0;
      ok, d := decoder.NextIf(!flags.byDelta, delta);
      if !ok { return; }
      ok, i := decoder.NextIf(!flags.byInfo, info);
      if !ok { return; }
      ok, a := decoder.NextIf(rela && flags.hasAddend && !flags.byAddend, 0);
    }

    method ReadEntryFields() returns (ok: bool)
      requires Valid()
      modifies this, decoder`cur
      ensures Valid() && ReadEntry(old(Value()), rela, decoder.w) == if ok then Some(Value()) else None
    {
      var d, i, a;
      ok, d, i, a := TakeEntryFields();
      if !ok { return; }
      offset := Word(offset + d, decoder.w);
      info := i;
      if rela && flags.hasAddend && !flags.byAddend {
        addend := Word(addend + a, decoder.w);
      }
      index := index + 1;
      groupIndex := groupIndex + 1;
    }

    /** The next relocation, or None for NULL. */
    method Next() returns (r: Option<Reloc>)
      requires Valid()
      modifies this, decoder`cur
      ensures Valid()
      ensures match Step(old(Value()), rela, decoder.w)
              case None => r == None
              case Some(s) => Value() == s && r == Some(Current(s.at, rela))
    {
      if index >= count {
        return None;
      }
      if groupIndex == size {
        var ok := ReadGroupFields();
        if !ok { return None; }
      }
      var ok := ReadEntryFields();
      if !ok { return None; }
      r := Some(if rela then Rela(offset, info, addend) else Rel(offset, info));
    }

    method NextOfRun() returns (r: Option<Reloc>)
      requires Valid()
      modifies this, decoder`cur
      ensures Valid()
      ensures Run(old(Value()), rela, decoder.w) == if r.Some? then [r.value] + Run(Value(), rela, decoder.w) else []
      ensures r.Some? ==> old(index) < old(count) && count == old(count) && index == old(index) + 1
    {
      ghost var s := Value();
      StepCounts(s, rela, decoder.w);
      r := Next();
    }

    lemma {:induction false} Collected(rs: seq<Reloc>, r: Reloc, rest: seq<Reloc>)
      ensures rs + ([r] + rest) == (rs + [r]) + rest
    {
    }

    /** The loop every user of the iterator runs: relocations up to the first NULL. */
    method Collect() returns (rs: seq<Reloc>)
      requires Valid()
      modifies this, decoder`cur
      ensures rs == Run(old(Value()), rela, decoder.w)
    {
      rs := [];
      var r := NextOfRun();
      while r.Some?
        invariant Valid() && (r.Some? ==> index <= count)
        invariant Run(old(Value()), rela, decoder.w)
                  == rs + if r.Some? then [r.value] + Run(Value(), rela, decoder.w) else []
        decreases r.Some?, if index <= count then count - index else 0
      {
        Collected(rs, r.value, Run(Value(), rela, decoder.w));
        rs := rs + [r.value];
        r := NextOfRun();
      }
    }
  }
}
