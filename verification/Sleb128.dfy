/** Signed LEB128 numbers (section 7.6 of DWARF 4) read into machine words. */
module Sleb128 {
  import opened CString
  import opened Wrappers
  import opened Powers
  import opened Bits

  // ----- word operations

  /** Two's complement: the low w bits of v. */
  function Word(v: int, w: nat): nat
    decreases w
  {
    if w == 0 then 0 else v % 2 + 2 * Word(v / 2, w - 1)
  }

  /** The word is the number modulo 2^w. */
  lemma {:induction false} WordIsMod(v: int, w: nat)
    ensures Word(v, w) == v % Pow2(w)
    decreases w
  {
    if w > 0 {
      WordIsMod(v / 2, w - 1);
      ModDouble(v, Pow2(w - 1));
    }
  }

  /** x << s in a word of w bits. */
  function ShiftLeft(x: nat, s: nat, w: nat): nat {
    Word(x * Pow2(s), w)
  }

  // ----- the format

  /** The seven payload bits of each byte, least significant group first. */
  function Payload(s: seq<Byte>): nat {
    if s == [] then 0 else s[0] % 128 + 128 * Payload(s[1..])
  }

  /** s is one number: the continuation bit is set on every byte but the last. */
  predicate Complete(s: seq<Byte>) {
    s != [] && if |s| == 1 then s[0] < 128 else s[0] >= 128 && Complete(s[1..])
  }

  /** The number a complete encoding stands for: the payload, sign-extended from the last byte's bit 6. */
  function SignedValue(s: seq<Byte>): int
    requires s != []
  {
    if |s| == 1 then (if s[0] % 128 >= 64 then s[0] % 128 - 128 else s[0] % 128)
    else s[0] % 128 + 128 * SignedValue(s[1..])
  }

  /** The canonical (shortest) encoding. */
  function Encode(v: int): (s: seq<Byte>)
    ensures s != []
    decreases if v < 0 then -v else v
  {
    if -64 <= v < 64 then [v % 128] else [v % 128 + 128] + Encode(v / 128)
  }

  function EncodeAll(vs: seq<int>): seq<Byte> {
    if vs == [] then [] else Encode(vs[0]) + EncodeAll(vs[1..])
  }

  /** v fits a signed word of w bits. */
  predicate Fits(v: int, w: nat)
    requires w > 0
  {
    -(Pow2(w - 1) as int) <= v < Pow2(w - 1)
  }

  /** The length of the first complete number in s, if there is one. */
  function FirstLength(s: seq<Byte>): (k: nat)
    ensures k <= |s| && (k > 0 ==> Complete(s[..k]))
  {
    if s == [] then 0
    else if s[0] < 128 then 1
    else
      var k := FirstLength(s[1..]);
      if k == 0 then 0
      else
        assert s[..k + 1] == [s[0]] + s[1..][..k];
        k + 1
  }

  /** Reading one number from the front of s: its word and the bytes after it. */
  function Read(s: seq<Byte>, w: nat): Option<(nat, seq<Byte>)> {
    var k := FirstLength(s);
    if k == 0 then None else Some((Word(SignedValue(s[..k]), w), s[k..]))
  }

  /** The words of all numbers at the front of s, up to where the bytes end or break off. */
  function Numbers(s: seq<Byte>, w: nat): seq<nat> {
    match Read(s, w)
    case None => []
    case Some((v, rest)) => [v] + Numbers(rest, w)
  }

  // ----- encoding and reading are inverse

  lemma {:induction false} EncodeComplete(v: int)
    ensures Complete(Encode(v)) && SignedValue(Encode(v)) == v
    decreases if v < 0 then -v else v
  {
    if !(-64 <= v < 64) {
      EncodeComplete(v / 128);
      ConsComplete(v % 128, Encode(v / 128));
    }
  }

  lemma {:induction false} ConsComplete(b: nat, rest: seq<Byte>)
    requires b < 128 && Complete(rest)
    ensures Complete([b + 128] + rest) && SignedValue([b + 128] + rest) == b + 128 * SignedValue(rest)
  {
    assert ([b + 128] + rest)[1..] == rest;
  }

  lemma {:induction false} FirstLengthComplete(s: seq<Byte>, tail: seq<Byte>)
    requires Complete(s)
    ensures FirstLength(s + tail) == |s|
  {
    if |s| > 1 {
      assert (s + tail)[1..] == s[1..] + tail;
      FirstLengthComplete(s[1..], tail);
    }
  }

  /** Reading an encoded number gives its two's-complement word and consumes exactly its bytes. */
  lemma {:induction false} ReadEncoded(v: int, tail: seq<Byte>, w: nat)
    ensures Read(Encode(v) + tail, w) == Some((Word(v, w), tail))
  {
    EncodeComplete(v);
    FirstLengthComplete(Encode(v), tail);
    assert (Encode(v) + tail)[..|Encode(v)|] == Encode(v);
    assert (Encode(v) + tail)[|Encode(v)|..] == tail;
  }

  lemma Pow2Small()
    ensures Pow2(6) == 64 && Pow2(7) == 128
  {
    assert Pow2(3) == 8;
    assert Pow2(6) == 8 * Pow2(3);
  }

  /** A number of w bits takes so few bytes that no payload is shifted by w or more. */
  lemma {:induction false} EncodeShort(v: int, w: nat)
    requires w > 0 && Fits(v, w)
    ensures 7 * (|Encode(v)| - 1) < w
    decreases w
  {
    Pow2Small();
    if w <= 7 {
      Pow2Monotonic(w - 1, 6);
    } else if !(-64 <= v < 64) {
      Pow2Sum(7, w - 8);
      EncodeShort(v / 128, w - 7);
    }
  }

  function Words(vs: seq<int>, w: nat): seq<nat> {
    if vs == [] then [] else [Word(vs[0], w)] + Words(vs[1..], w)
  }

  /** Repeated reading gives back every number as a word. */
  lemma {:induction false} NumbersEncoded(vs: seq<int>, w: nat)
    ensures Numbers(EncodeAll(vs), w) == Words(vs, w)
  {
    if vs != [] {
      ReadEncoded(vs[0], EncodeAll(vs[1..]), w);
      NumbersEncoded(vs[1..], w);
    }
  }

  /** A number read if it is due, else the one to keep; and the numbers after it. */
  function TakeIf(cond: bool, ahead: seq<nat>, keep: nat): Option<(nat, seq<nat>)> {
    if !cond then Some((keep, ahead)) else if ahead == [] then None else Some((ahead[0], ahead[1..]))
  }

  // ----- the decoder

  lemma {:induction false} PayloadSnoc(s: seq<Byte>, b: Byte)
    ensures Payload(s + [b]) == Payload(s) + (b % 128) * Pow2(7 * |s|)
  {
    if s == [] {
      assert [b][1..] == [];
    } else {
      PayloadSnoc(s[1..], b);
      assert (s + [b])[1..] == s[1..] + [b];
      Pow2Sum(7, 7 * |s| - 7);
      assert Pow2(7) == 128;
      ShiftGroup(Payload(s[1..]), b % 128, Pow2(7 * |s| - 7));
    }
  }

  lemma ShiftGroup(x: int, y: int, p: int)
    ensures 128 * (x + y * p) == 128 * x + y * (128 * p)
  {
    assert 128 * (y * p) == y * (128 * p);
  }

  lemma {:induction false} PayloadBound(s: seq<Byte>)
    ensures Payload(s) < Pow2(7 * |s|)
  {
    if s != [] {
      PayloadBound(s[1..]);
      Pow2Sum(7, 7 * |s| - 7);
      assert Pow2(7) == 128;
    }
  }

  lemma {:induction false} SignedPayload(s: seq<Byte>)
    requires s != []
    ensures SignedValue(s) == Payload(s) - (if s[|s| - 1] % 128 >= 64 then Pow2(7 * |s|) else 0)
  {
    assert Pow2(7) == 128;
    if |s| > 1 {
      SignedPayload(s[1..]);
      Pow2Sum(7, 7 * |s| - 7);
    } else {
      assert s[1..] == [];
    }
  }

  lemma {:induction false} OrLowGroup(p: nat, x: nat, shift: nat, w: nat)
    requires p < Pow2(shift) && shift < w
    ensures BitOr(p % Pow2(w), (x * Pow2(shift)) % Pow2(w)) == (p + x * Pow2(shift)) % Pow2(w)
  {
    Pow2Sum(shift, w - shift);
    LowGroupMod(x, Pow2(w - shift), Pow2(shift), Pow2(w), p);
    OrDisjoint(p, x % Pow2(w - shift), shift);
  }

  lemma LowGroupMod(x: nat, d: nat, t: nat, m: nat, p: nat)
    requires d > 0 && m == t * d && p < t
    ensures p % m == p && (x * t) % m == (x % d) * t && (p + x * t) % m == p + (x % d) * t
  {
    var q, r := x / d, x % d;
    LowGroupSplit(x, q, r, d, t, m, p);
    assert 0 <= r * t;
    ModUnique(p, 0, p, m);
    ModUnique(x * t, q, r * t, m);
    ModUnique(p + x * t, q, p + r * t, m);
  }

  lemma LowGroupSplit(x: nat, q: nat, r: nat, d: nat, t: nat, m: nat, p: nat)
    requires x == q * d + r && r < d && m == t * d && p < t
    ensures x * t == q * m + r * t && r * t < m && p + r * t < m
  {
    assert x * t == q * d * t + r * t;
    assert q * d * t == q * (t * d);
    MultipleBound(d - r, t);
    assert (d - r) * t == d * t - r * t;
  }

  lemma {:induction false} OrHighGroup(p: nat, x: nat, shift: nat, w: nat)
    requires shift >= w
    ensures BitOr(p % Pow2(w), (x * Pow2(shift)) % Pow2(w)) == (p + x * Pow2(shift)) % Pow2(w)
  {
    Pow2Sum(w, shift - w);
    var k, m := x * Pow2(shift - w), Pow2(w);
    assert x * Pow2(shift) == k * m;
    ModMultiple(0, k, m);
    ModMultiple(p, k, m);
  }

  /** Adding a shifted payload group by or-ing keeps the word equal to the payload read so far. */
  lemma OrGroup(p: nat, x: nat, shift: nat, w: nat)
    requires p < Pow2(shift)
    ensures BitOr(Word(p, w), ShiftLeft(x, shift, w)) == Word(p + x * Pow2(shift), w)
  {
    WordIsMod(p, w);
    WordIsMod(x * Pow2(shift), w);
    WordIsMod(p + x * Pow2(shift), w);
    if shift < w {
      OrLowGroup(p, x, shift, w);
    } else {
      OrHighGroup(p, x, shift, w);
    }
  }

  lemma OneLess(t: nat, d: nat, m: nat)
    requires m == t * d
    ensures m - t == (d - 1) * t
  {
  }

  lemma {:induction false} OrTop(p: nat, q: nat, sh: nat, top: nat)
    requires p < Pow2(sh) && top == q * Pow2(sh)
    ensures BitOr(p, top) == p + top
  {
    OrDisjoint(p, q, sh);
  }

  lemma {:induction false} SignOr(p: nat, sh: nat, w: nat)
    requires sh < w && p < Pow2(sh)
    ensures Pow2(sh) <= Pow2(w) && BitOr(p, Pow2(w) - Pow2(sh)) == p + Pow2(w) - Pow2(sh)
  {
    Pow2Monotonic(sh, w);
    Pow2Sum(sh, w - sh);
    OneLess(Pow2(sh), Pow2(w - sh), Pow2(w));
    OrTop(p, Pow2(w - sh) - 1, sh, Pow2(w) - Pow2(sh));
  }

  lemma {:induction false} SignBits(p: nat, sh: nat, w: nat)
    requires sh < w && p < Pow2(sh)
    ensures Pow2(sh) <= Pow2(w) && Word(p, w) == p
    ensures BitOr(p, Pow2(w) - Pow2(sh)) == Word(p - Pow2(sh), w)
  {
    SignOr(p, sh, w);
    WordUnique(p, 0, p, w);
    WordUnique(p - Pow2(sh), -1, p + Pow2(w) - Pow2(sh), w);
  }

  lemma {:induction false} WordUnique(x: int, q: int, r: nat, w: nat)
    requires r < Pow2(w) && x == q * Pow2(w) + r
    ensures Word(x, w) == r
  {
    WordIsMod(x, w);
    ModUnique(x, q, r, Pow2(w));
  }

  lemma SignLost(p: nat, sh: nat, w: nat)
    requires sh >= w
    ensures Word(p - Pow2(sh), w) == Word(p, w)
  {
    Pow2Sum(w, sh - w);
    ModLess(p, Pow2(sh - w), Pow2(w));
    WordIsMod(p - Pow2(sh), w);
    WordIsMod(p, w);
  }

  lemma {:induction false} SignedWord(p: nat, sh: nat, negative: bool, w: nat)
    requires p < Pow2(sh)
    ensures sh < w ==> Pow2(sh) <= Pow2(w)
    ensures Word(p - (if negative then Pow2(sh) else 0), w)
            == if sh < w && negative then BitOr(Word(p, w), Pow2(w) - Pow2(sh)) else Word(p, w)
  {
    if sh < w {
      SignBits(p, sh, w);
    } else {
      SignLost(p, sh, w);
    }
  }

  /** -((size_t)1 << shift): the bits from shift up. */
  function SignMask(shift: nat, w: nat): nat
    requires shift < w
  {
    Pow2Monotonic(shift, w);
    Pow2(w) - Pow2(shift)
  }

  /** Or-ing in the sign bits gives the two's-complement word. */
  lemma {:induction false} SignExtended(s: seq<Byte>, w: nat)
    requires Complete(s)
    ensures 7 * |s| < w ==> Pow2(7 * |s|) <= Pow2(w)
    ensures Word(SignedValue(s), w) ==
            if 7 * |s| < w && s[|s| - 1] % 128 >= 64 then BitOr(Word(Payload(s), w), Pow2(w) - Pow2(7 * |s|))
            else Word(Payload(s), w)
  {
    SignedPayload(s);
    PayloadBound(s);
    SignedWord(Payload(s), 7 * |s|, s[|s| - 1] % 128 >= 64, w);
  }

  /** One turn of the decoder's loop. */
  lemma {:induction false} GroupAppended(s: seq<Byte>, byte: Byte, w: nat)
    ensures BitOr(Word(Payload(s), w), ShiftLeft(byte % 128, 7 * |s|, w)) == Word(Payload(s + [byte]), w)
  {
    PayloadBound(s);
    OrGroup(Payload(s), byte % 128, 7 * |s|, w);
    PayloadSnoc(s, byte);
  }

  /** What the loop puts together: the groups shifted to their places, one after the other. */
  function Gathered(s: seq<Byte>, w: nat): nat {
    if s == [] then 0
    else
      var n := |s| - 1;
      BitOr(Gathered(s[..n], w), ShiftLeft(s[n] % 128, 7 * n, w))
  }

  lemma {:induction false} GatheredPayload(s: seq<Byte>, w: nat)
    ensures Gathered(s, w) == Word(Payload(s), w)
  {
    if s == [] {
      WordUnique(0, 0, 0, w);
    } else {
      var n := |s| - 1;
      GatheredPayload(s[..n], w);
      GroupAppended(s[..n], s[n], w);
      assert s == s[..n] + [s[n]];
    }
  }

  lemma {:induction false} FirstLengthNext(s: seq<Byte>, byte: Byte)
    requires FirstLength(s) == 0
    ensures if byte < 128 then Complete(s + [byte]) else FirstLength(s + [byte]) == 0
  {
    if s == [] {
      assert [byte][1..] == [];
    } else {
      FirstLengthNext(s[1..], byte);
      assert (s + [byte])[1..] == s[1..] + [byte];
    }
  }

  lemma {:induction false} GatheredSnoc(s: seq<Byte>, byte: Byte, w: nat)
    ensures Gathered(s + [byte], w) == BitOr(Gathered(s, w), ShiftLeft(byte % 128, 7 * |s|, w))
  {
    assert (s + [byte])[..|s|] == s;
  }

  /** What follows the loop: the sign is extended unless all bits are set by then. */
  lemma {:induction false} ReadComplete(one: seq<Byte>, rest: seq<Byte>, w: nat)
    requires Complete(one)
    ensures var value := Gathered(one, w);
            var signed := 7 * |one| < w && one[|one| - 1] % 128 >= 64;
            Read(one + rest, w) == Some((if signed then BitOr(value, SignMask(7 * |one|, w)) else value, rest))
  {
    GatheredPayload(one, w);
    FirstLengthComplete(one, rest);
    SignExtended(one, w);
  }

  /** xh_elf_sleb128_decoder over the bytes of buf, for words of w bits. */
  class Decoder {
    const buf: seq<Byte>
    const w: nat
    var cur: nat

    constructor (buf: seq<Byte>, w: nat)
      ensures this.buf == buf && this.w == w && cur == 0
    {
      this.buf, this.w, cur := buf, w, 0;
    }

    ghost predicate Valid()
      reads this
    {
      cur <= |buf|
    }

    /** The numbers still to be read. */
    ghost function Ahead(): seq<nat>
      requires Valid()
      reads this
    {
      Numbers(buf[cur..], w)
    }

    /** Reads one number, or fails when the bytes run out first. */
    method Next() returns (ok: bool, ret: nat)
      requires Valid()
      modifies this`cur
      ensures Valid() && ok == (old(Ahead()) != []) && (ok ==> ret == old(Ahead())[0])
      ensures Ahead() == if ok then old(Ahead())[1..] else []
    {
      ok, ret := ReadOne();
    }

    /** value |= (size_t)(byte & 127) << shift, after the bytes s. */
    method AddGroup(value: nat, byte: Byte, shift: nat, ghost s: seq<Byte>) returns (sum: nat)
      requires value == Gathered(s, w) && shift == 7 * |s|
      ensures sum == Gathered(s + [byte], w)
    {
      GatheredSnoc(s, byte, w);
      sum := BitOr(value, ShiftLeft(byte % 128, shift, w));
    }

    /** The loop over the bytes of one number. */
    method ReadGroups() returns (ok: bool, value: nat, shift: nat, byte: Byte)
      requires Valid()
      modifies this`cur
      ensures Valid() && old(cur) <= cur
      ensures ok ==> Complete(buf[old(cur)..cur]) && shift == 7 * (cur - old(cur)) && byte == buf[cur - 1]
                     && value == Gathered(buf[old(cur)..cur], w)
      ensures !ok ==> cur == |buf| && FirstLength(buf[old(cur)..]) == 0
    {
      ghost var start := cur;
      value, shift, byte := 0, 0, 128;
      while byte >= 128
        invariant start <= cur <= |buf| && shift == 7 * (cur - start)
        invariant value == Gathered(buf[start..cur], w)
        invariant if byte < 128 then start < cur && Complete(buf[start..cur]) && byte == buf[cur - 1]
                  else FirstLength(buf[start..cur]) == 0
        decreases |buf| - cur, byte
      {
        if cur >= |buf| {
          assert buf[start..] == buf[start..cur];
          return false, 0, 0, 0;
        }
        byte := buf[cur];
        ghost var s := buf[start..cur];
        FirstLengthNext(s, byte);
        value := AddGroup(value, byte, shift, s);
        cur := cur + 1;
        shift := shift + 7;
        assert buf[start..cur] == s + [byte];
      }
      ok := true;
    }

    /** xh_elf_sleb128_decoder_next */
    method ReadOne() returns (ok: bool, ret: nat)
      requires Valid()
      modifies this`cur
      ensures Valid()
      ensures Read(buf[old(cur)..], w) == if ok then Some((ret, buf[cur..])) else None
      ensures !ok ==> cur == |buf|
    {
      ghost var start := cur;
      var value, shift, byte;
      ok, value, shift, byte := ReadGroups();
      if !ok {
        return false, 0;
      }
      ghost var one := buf[start..cur];
      assert buf[start..] == one + buf[cur..];
      ReadComplete(one, buf[cur..], w);
      if shift < w && byte % 128 >= 64 {
        value := BitOr(value, SignMask(shift, w));
      }
      ret := value;
    }

    /** if(cond) decoder_next(&field): field holds keep before. */
    method NextIf(cond: bool, keep: nat) returns (ok: bool, ret: nat)
      requires Valid()
      modifies this`cur
      ensures Valid() && TakeIf(cond, old(Ahead()), keep) == if ok then Some((ret, Ahead())) else None
      ensures !ok ==> Ahead() == []
    {
      ok, ret := true, keep;
      if cond {
        ok, ret := Next();
      }
    }
  }
}
