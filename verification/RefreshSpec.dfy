/** What a refresh is to make of the lines of a maps file. */
module RefreshSpec {
  import opened CString
  import opened Wrappers
  import opened HookFilter

  /** A line of /proc/self/maps: unreadable, or its base address, four permission characters, offset and the text
    * after them. */
  datatype Line = Unreadable | Line(base: nat, perm: seq<char>, offset: nat, text: Str)

  /** The registered hooks and ignore entries, and the two judgements taken from outside. */
  datatype Setup = Setup(matches: Matcher, goodElf: nat -> bool, hooks: seq<Hook>, ignores: seq<Ignore>)

  predicate IsSpace(b: Byte) {
    b == 32 || 9 <= b <= 13
  }

  function SkipSpace(s: Str): Str {
    if s != [] && IsSpace(s[0]) then SkipSpace(s[1..]) else s
  }

  function CutNewline(s: Str): Str {
    if s != [] && s[|s| - 1] == 10 then s[..|s| - 1] else s
  }

  /** The path a line names, if any: neither empty nor in brackets. */
  function PathOf(text: Str): Option<Str> {
    var p := CutNewline(SkipSpace(text));
    if p == [] || p[0] == 91 then None else Some(p)
  }

  /** A file's path: not empty, and beginning neither with white space nor with '['. */
  predicate NamesFile(p: Str) {
    p != [] && p[0] != 32 && !(9 <= p[0] <= 13) && p[0] != 91
  }

  predicate AllBlank(s: Str) {
    forall i | 0 <= i < |s| :: s[i] == 32 || 9 <= s[i] <= 13
  }

  lemma {:induction false} SkipsBlanks(sp: Str, rest: Str)
    requires AllBlank(sp) && (rest == [] || !(rest[0] == 32 || 9 <= rest[0] <= 13))
    ensures SkipSpace(sp + rest) == rest
  {
    if sp == [] {
      assert sp + rest == rest;
    } else {
      assert (sp + rest)[1..] == sp[1..] + rest;
      SkipsBlanks(sp[1..], rest);
    }
  }

  /** The path of a line is what stands between the white space before it and the newline at its end. */
  lemma {:induction false} PathOfText(sp: Str, p: Str)
    requires AllBlank(sp) && NamesFile(p) && p[|p| - 1] != 10
    ensures PathOf(sp + p) == Some(p) && PathOf(sp + p + [10]) == Some(p)
  {
    SkipsBlanks(sp, p);
    SkipsBlanks(sp, p + [10]);
    assert sp + p + [10] == sp + (p + [10]);
    assert (p + [10])[..|p|] == p;
  }

  /** Every text is white space and a rest that does not begin with any. */
  lemma {:induction false} SplitBlanks(text: Str) returns (sp: Str, rest: Str)
    ensures text == sp + rest && AllBlank(sp) && (rest == [] || !(rest[0] == 32 || 9 <= rest[0] <= 13))
    ensures SkipSpace(text) == rest
  {
    if text != [] && (text[0] == 32 || 9 <= text[0] <= 13) {
      sp, rest := SplitBlanks(text[1..]);
      sp := [text[0]] + sp;
      assert text == [text[0]] + text[1..];
    } else {
      sp, rest := [], text;
    }
  }

  /** A line names no file exactly when nothing, or something that begins with '[', follows the white space;
    * else it names what follows, without a newline at the end. */
  lemma {:induction false} PathOfMeans(text: Str) returns (sp: Str, rest: Str)
    ensures text == sp + rest && AllBlank(sp) && (rest == [] || !(rest[0] == 32 || 9 <= rest[0] <= 13))
    ensures PathOf(text) == None <==> rest == [] || rest[0] == 91
    ensures PathOf(text).Some? ==>
              var p := PathOf(text).value;
              NamesFile(p) && rest == if rest[|rest| - 1] == 10 then p + [10] else p
  {
    sp, rest := SplitBlanks(text);
  }

  predicate Qualifies(s: Setup, l: Line) {
    && l.Line? && |l.perm| == 4 && l.perm[0] == 'r' && l.perm[3] == 'p' && l.offset == 0
    && PathOf(l.text).Some?
    && Prefilter(s.matches, s.hooks, s.ignores, PathOf(l.text).value)
    && s.goodElf(l.base)
  }

  function Path(l: Line): Str
    requires l.Line? && PathOf(l.text).Some?
  {
    PathOf(l.text).value
  }

  /** A call of xh_core_hook. */
  datatype Call = Call(path: Str, base: nat)

  datatype Merge = Merge(bases: map<Str, nat>, calls: seq<Call>)

  /** One qualifying line: the first line of a path sets its base, and hooks it unless it was there at that base
    * before. */
  function Add(before: map<Str, nat>, at: Merge, path: Str, base: nat): Merge {
    if path in at.bases then at
    else Merge(at.bases[path := base],
               if path in before && before[path] == base then at.calls else at.calls + [Call(path, base)])
  }

  function MergeLine(s: Setup, before: map<Str, nat>, at: Merge, l: Line): Merge {
    if Qualifies(s, l) then Add(before, at, Path(l), l.base) else at
  }

  function MergeAll(s: Setup, before: map<Str, nat>, lines: seq<Line>): Merge {
    if lines == [] then Merge(map[], [])
    else MergeLine(s, before, MergeAll(s, before, lines[..|lines| - 1]), lines[|lines| - 1])
  }

  /** Only files are merged. */
  lemma {:induction false} MergeNamesFiles(s: Setup, before: map<Str, nat>, lines: seq<Line>)
    ensures forall p | p in MergeAll(s, before, lines).bases :: NamesFile(p)
    ensures forall c | c in MergeAll(s, before, lines).calls :: NamesFile(c.path)
  {
    if lines != [] {
      var l := lines[|lines| - 1];
      MergeNamesFiles(s, before, lines[..|lines| - 1]);
      if Qualifies(s, l) {
        var sp, rest := PathOfMeans(l.text);
      }
    }
  }

  lemma {:induction false} MergeSnoc(s: Setup, before: map<Str, nat>, lines: seq<Line>, i: nat)
    requires i < |lines|
    ensures MergeAll(s, before, lines[..i + 1]) == MergeLine(s, before, MergeAll(s, before, lines[..i]), lines[i])
  {
    assert lines[..i + 1][..i] == lines[..i];
  }

  /** i is the first line that qualifies for path. */
  predicate FirstFor(s: Setup, lines: seq<Line>, path: Str, i: int) {
    && 0 <= i < |lines| && Qualifies(s, lines[i]) && Path(lines[i]) == path
    && forall j | 0 <= j < i :: !(Qualifies(s, lines[j]) && Path(lines[j]) == path)
  }

  /** The paths kept are those with a qualifying line, each at the base of its first such line. */
  lemma {:induction false} BasesAreFirst(s: Setup, before: map<Str, nat>, lines: seq<Line>, path: Str)
    ensures var m := MergeAll(s, before, lines).bases;
            if path in m then exists i :: FirstFor(s, lines, path, i) && m[path] == lines[i].base
            else forall i | 0 <= i < |lines| :: !(Qualifies(s, lines[i]) && Path(lines[i]) == path)
  {
    if lines != [] {
      var init, k := lines[..|lines| - 1], |lines| - 1;
      BasesAreFirst(s, before, init, path);
      var m := MergeAll(s, before, init).bases;
      if path in m {
        var i :| FirstFor(s, init, path, i) && m[path] == init[i].base;
        assert FirstFor(s, lines, path, i);
      } else {
        assert forall j | 0 <= j < k :: lines[j] == init[j];
        if Qualifies(s, lines[k]) && Path(lines[k]) == path {
          assert FirstFor(s, lines, path, k);
        }
      }
    }
  }

  /** The calls for one path. */
  function CallsFor(calls: seq<Call>, path: Str): seq<Call> {
    if calls == [] then []
    else
      var n := |calls| - 1;
      CallsFor(calls[..n], path) + if calls[n].path == path then [calls[n]] else []
  }

  lemma {:induction false} CallsForSnoc(calls: seq<Call>, c: Call, path: Str)
    ensures CallsFor(calls + [c], path) == CallsFor(calls, path) + if c.path == path then [c] else []
  {
    assert (calls + [c])[..|calls|] == calls;
  }

  /** A path is hooked exactly once, at the base it is kept at, if it is new or its base changed;
    * and else not at all. */
  lemma {:induction false} HookedOnce(s: Setup, before: map<Str, nat>, lines: seq<Line>, path: Str)
    ensures Once(before, MergeAll(s, before, lines), path)
  {
    if lines != [] {
      var m := MergeAll(s, before, lines[..|lines| - 1]);
      var l := lines[|lines| - 1];
      HookedOnce(s, before, lines[..|lines| - 1], path);
      if Qualifies(s, l) {
        AddOnce(before, m, Path(l), l.base, path);
      }
    }
  }

  predicate Once(before: map<Str, nat>, m: Merge, path: Str) {
    CallsFor(m.calls, path) ==
    if path in m.bases && !(path in before && before[path] == m.bases[path]) then [Call(path, m.bases[path])] else []
  }

  lemma AddOnce(before: map<Str, nat>, m: Merge, p: Str, base: nat, path: Str)
    requires Once(before, m, path)
    ensures Once(before, Add(before, m, p, base), path)
  {
    CallsForSnoc(m.calls, Call(p, base), path);
  }
}
