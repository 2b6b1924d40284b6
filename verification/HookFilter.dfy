/** Which hooks xh_core applies to a loaded file: the filter of the hook loop and the coarser one of the
  * refresh loop. */
module HookFilter {
  import opened CString
  import opened Wrappers

  /** A registered hook: where (a pattern on path names), which symbol, and the replacement. */
  datatype Hook = Hook(pattern: Str, symbol: Str, newFunc: nat)

  /** An ignore entry; no symbol means all symbols. */
  datatype Ignore = Ignore(pattern: Str, symbol: Option<Str>)

  /** Regular-expression matching of (pattern, path). */
  type Matcher = (Str, Str) -> bool

  predicate Covers(m: Matcher, ii: Ignore, h: Hook, path: Str) {
    m(ii.pattern, path) && (ii.symbol == None || ii.symbol == Some(h.symbol))
  }

  /** Some ignore entry takes h out for this path. */
  predicate Ignored(m: Matcher, ignores: seq<Ignore>, h: Hook, path: Str) {
    exists ii | ii in ignores :: Covers(m, ii, h, path)
  }

  predicate Applies(m: Matcher, ignores: seq<Ignore>, h: Hook, path: Str) {
    m(h.pattern, path) && !Ignored(m, ignores, h, path)
  }

  /** The hooks that apply to path, in registration order. */
  function Applicable(m: Matcher, hooks: seq<Hook>, ignores: seq<Ignore>, path: Str): (r: seq<Hook>)
    ensures forall h :: h in r <==> h in hooks && Applies(m, ignores, h, path)
  {
    if hooks == [] then []
    else (if Applies(m, ignores, hooks[0], path) then [hooks[0]] else []) + Applicable(m, hooks[1..], ignores, path)
  }

  lemma {:induction false} ApplicableSnoc(m: Matcher, hooks: seq<Hook>, h: Hook, ignores: seq<Ignore>, path: Str)
    ensures Applicable(m, hooks + [h], ignores, path) ==
            Applicable(m, hooks, ignores, path) + if Applies(m, ignores, h, path) then [h] else []
  {
    if hooks == [] {
      assert [h][1..] == [];
    } else {
      assert (hooks + [h])[1..] == hooks[1..] + [h];
      ApplicableSnoc(m, hooks[1..], h, ignores, path);
    }
  }

  /** An entry for all symbols leaves nothing to apply. */
  lemma {:induction false} AllIgnored(m: Matcher, hooks: seq<Hook>, ignores: seq<Ignore>, path: Str, ii: Ignore)
    requires ii in ignores && m(ii.pattern, path) && ii.symbol == None
    ensures Applicable(m, hooks, ignores, path) == []
  {
    if hooks != [] {
      assert Covers(m, ii, hooks[0], path);
      AllIgnored(m, hooks[1..], ignores, path, ii);
    }
  }

  datatype Verdict = Apply | Skip | Stop

  /** The inner loop over the ignore entries for one matching hook. */
  method Scan(m: Matcher, ignores: seq<Ignore>, h: Hook, path: Str) returns (v: Verdict)
    ensures v == Apply <==> !Ignored(m, ignores, h, path)
    ensures v == Stop ==> exists ii | ii in ignores :: m(ii.pattern, path) && ii.symbol == None
  {
    var i := 0;
    while i < |ignores|
      invariant 0 <= i <= |ignores|
      invariant forall j | 0 <= j < i :: !Covers(m, ignores[j], h, path)
    {
      var ii := ignores[i];
      if m(ii.pattern, path) {
        if ii.symbol == None {
          assert Covers(m, ii, h, path);
          return Stop;
        }
        if StrCmp(ii.symbol.value, h.symbol) == 0 {
          assert Covers(m, ii, h, path);
          return Skip;
        }
      }
      i := i + 1;
    }
    v := Apply;
  }

  /** xh_core_hook_impl after a successful initialisation: attempts exactly the applicable hooks, in order. */
  method Attempts(m: Matcher, hooks: seq<Hook>, ignores: seq<Ignore>, path: Str) returns (r: seq<Hook>)
    ensures r == Applicable(m, hooks, ignores, path)
  {
    r := [];
    var i := 0;
    while i < |hooks|
      invariant 0 <= i <= |hooks| && r == Applicable(m, hooks[..i], ignores, path)
    {
      var h := hooks[i];
      assert hooks[..i + 1] == hooks[..i] + [h];
      ApplicableSnoc(m, hooks[..i], h, ignores, path);
      if m(h.pattern, path) {
        var v := Scan(m, ignores, h, path);
        if v == Stop {
          var ii :| ii in ignores && m(ii.pattern, path) && ii.symbol == None;
          AllIgnored(m, hooks, ignores, path, ii);
          AllIgnored(m, hooks[..i], ignores, path, ii);
          return;
        }
        if v == Apply {
          r := r + [h];
        }
      }
      i := i + 1;
    }
    assert hooks[..i] == hooks;
  }

  /** The first hook whose pattern matches the path. */
  function FirstMatching(m: Matcher, hooks: seq<Hook>, path: Str): Option<Hook> {
    if hooks == [] then None
    else if m(hooks[0].pattern, path) then Some(hooks[0])
    else FirstMatching(m, hooks[1..], path)
  }

  /** What the refresh loop asks of a path: only its first matching hook is looked at. */
  predicate Prefilter(m: Matcher, hooks: seq<Hook>, ignores: seq<Ignore>, path: Str) {
    match FirstMatching(m, hooks, path)
    case None => false
    case Some(h) => !Ignored(m, ignores, h, path)
  }

  /** The match loop of xh_core_refresh_impl, which leaves at its first matching hook. */
  method Match(m: Matcher, hooks: seq<Hook>, ignores: seq<Ignore>, path: Str) returns (matched: bool)
    ensures matched == Prefilter(m, hooks, ignores, path)
  {
    matched := false;
    var i := 0;
    while i < |hooks|
      invariant 0 <= i <= |hooks| && FirstMatching(m, hooks, path) == FirstMatching(m, hooks[i..], path)
    {
      if m(hooks[i].pattern, path) {
        var v := Scan(m, ignores, hooks[i], path);
        matched := v == Apply;
        return;
      }
      i := i + 1;
    }
  }

  lemma {:induction false} FirstMatchingIn(m: Matcher, hooks: seq<Hook>, path: Str)
    ensures var f := FirstMatching(m, hooks, path); f.Some? ==> f.value in hooks && m(f.value.pattern, path)
    ensures FirstMatching(m, hooks, path) == None ==> forall h | h in hooks :: !m(h.pattern, path)
  {
    if hooks != [] && !m(hooks[0].pattern, path) {
      FirstMatchingIn(m, hooks[1..], path);
    }
  }

  /** The coarse filter is sound: a path it lets through has a hook to apply. */
  lemma {:induction false} PrefilterSound(m: Matcher, hooks: seq<Hook>, ignores: seq<Ignore>, path: Str)
    requires Prefilter(m, hooks, ignores, path)
    ensures Applicable(m, hooks, ignores, path) != []
  {
    FirstMatchingIn(m, hooks, path);
    assert FirstMatching(m, hooks, path).value in Applicable(m, hooks, ignores, path);
  }

  /** It keeps out a path with hooks to apply exactly when the first matching hook is itself ignored. */
  lemma {:induction false} PrefilterMisses(m: Matcher, hooks: seq<Hook>, ignores: seq<Ignore>, path: Str)
    requires Applicable(m, hooks, ignores, path) != []
    ensures FirstMatching(m, hooks, path).Some?
    ensures !Prefilter(m, hooks, ignores, path) <==> Ignored(m, ignores, FirstMatching(m, hooks, path).value, path)
  {
    FirstMatchingIn(m, hooks, path);
    var h := Applicable(m, hooks, ignores, path)[0];
    assert h in Applicable(m, hooks, ignores, path);
  }

  /** Two hooks on one path, the first of them ignored by symbol: the second is never reached. */
  lemma PrefilterIncomplete()
    ensures var m: Matcher := (a, b) => true;
            var first, second := Hook([], [97], 1), Hook([], [98], 2);
            var ignores := [Ignore([], Some([97]))];
            && second in Applicable(m, [first, second], ignores, [47])
            && !Prefilter(m, [first, second], ignores, [47])
  {
    var m: Matcher := (a, b) => true;
    var ignores := [Ignore([], Some([97]))];
    assert Covers(m, ignores[0], Hook([], [97], 1), [47]);
    assert [97][0] != [98][0];
    assert !Ignored(m, ignores, Hook([], [98], 2), [47]);
  }
}
