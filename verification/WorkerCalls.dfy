/** What a call of xh_core_refresh has done when it returns, and what xh_core_clear leaves. */
module WorkerCalls {
  import opened Wrappers
  import opened WorkerSteps
  import opened WorkerInvariant

  /** Where a refresh call can stand; the worker is asked when it is asynchronous. */
  predicate OfCall(pc: Pc, async: bool) {
    match pc
    case Returned(_) => true
    case Initialising(_, a) => a == async
    case Starting(_) => async
    case Posting(p) =>
      if async then p.PostLock? || p.Post? || p.Signal? || p.PostUnlock? else p.SyncLock? || p.SyncRefresh?
    case Working(_) => false
    case Clearing(_) => false
  }

  /** The call is past its post, or past the start of its own refresh. */
  predicate Done(pc: Pc) {
    pc in {Posting(Signal), Posting(PostUnlock), Posting(SyncRefresh), Returned(true)}
  }

  /** In this step thread i posts a request, or starts the refresh itself. */
  predicate Serves(s: State, s': State, i: nat, async: bool) {
    if async then At(s, i, Posting(Post)) && At(s', i, Posting(Signal)) && s'.log == s.log + [Posted]
    else At(s, i, Posting(SyncLock)) && At(s', i, Posting(SyncRefresh)) && s'.log == s.log + [Started]
  }

  /** A step keeps the call on its way, and completes its task exactly by serving it. */
  predicate Advances(s: State, s': State, i: nat, async: bool) {
    && i < |s.threads| && i < |s'.threads| && OfCall(s'.threads[i], async)
    && (Done(s'.threads[i]) <==> Done(s.threads[i]) || Serves(s, s', i, async))
  }

  lemma InitAdvances(s: State, i: nat, p: InitPoint, a: bool, s': State)
    requires At(s, i, Initialising(p, a)) && InitStep(s, i, p, a, s')
    ensures Advances(s, s', i, a)
  {
  }

  lemma AsyncAdvances(s: State, i: nat, p: AsyncPoint, s': State)
    requires At(s, i, Starting(p)) && AsyncStep(s, i, p, s')
    ensures Advances(s, s', i, true)
  {
  }

  lemma PostAdvances(s: State, i: nat, p: PostPoint, async: bool, s': State)
    requires At(s, i, Posting(p)) && PostStep(s, i, p, s') && OfCall(Posting(p), async)
    ensures Advances(s, s', i, async)
  {
  }

  lemma CallAdvances(s: State, i: nat, async: bool, s': State)
    requires Step(s, i, s') && OfCall(s.threads[i], async)
    ensures Advances(s, s', i, async)
  {
    match s.threads[i]
    case Initialising(p, a) => InitAdvances(s, i, p, a, s');
    case Starting(p) => AsyncAdvances(s, i, p, s');
    case Posting(p) => PostAdvances(s, i, p, async, s');
  }

  /** A step of another thread leaves the call where it is; only waiting workers are moved by others. */
  predicate Stays(s: State, s': State, i: nat) {
    i < |s.threads| <= |s'.threads| && s'.threads[i] == s.threads[i]
  }

  lemma InitElsewhere(s: State, t: nat, p: InitPoint, a: bool, s': State, i: nat)
    requires t < |s.threads| && i < |s.threads| && i != t && InitStep(s, t, p, a, s')
    ensures Stays(s, s', i) && s.log <= s'.log
  {
  }

  lemma AsyncElsewhere(s: State, t: nat, p: AsyncPoint, s': State, i: nat)
    requires t < |s.threads| && i < |s.threads| && i != t && AsyncStep(s, t, p, s')
    ensures Stays(s, s', i) && s.log <= s'.log
  {
  }

  lemma PostElsewhere(s: State, t: nat, p: PostPoint, s': State, i: nat)
    requires t < |s.threads| && i < |s.threads| && i != t && PostStep(s, t, p, s') && !s.threads[i].Working?
    ensures Stays(s, s', i) && s.log <= s'.log
  {
  }

  lemma WorkElsewhere(s: State, t: nat, p: WorkPoint, s': State, i: nat)
    requires t < |s.threads| && i < |s.threads| && i != t && WorkStep(s, t, p, s')
    ensures Stays(s, s', i) && s.log <= s'.log
  {
  }

  lemma ClearElsewhere(s: State, t: nat, p: ClearPoint, s': State, i: nat)
    requires t < |s.threads| && i < |s.threads| && i != t && ClearStep(s, t, p, s') && !s.threads[i].Working?
    ensures Stays(s, s', i) && s.log <= s'.log
  {
  }

  lemma StepElsewhere(s: State, t: nat, s': State, i: nat)
    requires Step(s, t, s') && i < |s.threads| && i != t && !s.threads[i].Working?
    ensures Stays(s, s', i) && s.log <= s'.log
  {
    match s.threads[t]
    case Initialising(p, a) => InitElsewhere(s, t, p, a, s', i);
    case Starting(p) => AsyncElsewhere(s, t, p, s', i);
    case Posting(p) => PostElsewhere(s, t, p, s', i);
    case Working(p) => WorkElsewhere(s, t, p, s', i);
    case Clearing(p) => ClearElsewhere(s, t, p, s', i);
  }

  lemma CallLog(s: State, i: nat, async: bool, s': State)
    requires Step(s, i, s') && OfCall(s.threads[i], async)
    ensures s.log <= s'.log
  {
  }

  lemma StayingAdvances(s: State, s': State, i: nat, async: bool)
    requires Stays(s, s', i) && OfCall(s.threads[i], async)
    ensures Advances(s, s', i, async)
  {
  }

  lemma StepAdvances(s: State, t: nat, s': State, i: nat, async: bool)
    requires Step(s, t, s') && i < |s.threads| && OfCall(s.threads[i], async)
    ensures Advances(s, s', i, async) && s.log <= s'.log
  {
    if t == i {
      CallAdvances(s, i, async, s');
      CallLog(s, i, async, s');
    } else {
      StepElsewhere(s, t, s', i);
      StayingAdvances(s, s', i, async);
    }
  }

  lemma ArrivalElsewhere(s: State, pc: Pc, s': State, i: nat)
    requires Arrives(s, pc, s') && i < |s.threads|
    ensures Stays(s, s', i) && s.log <= s'.log
  {
  }

  lemma WakingElsewhere(s: State, w: nat, s': State, i: nat)
    requires Wakes(s, w, s') && i < |s.threads| && !s.threads[i].Working?
    ensures Stays(s, s', i) && s.log <= s'.log
  {
  }

  lemma NextAdvances(s: State, s': State, i: nat, async: bool)
    requires Next(s, s') && i < |s.threads| && OfCall(s.threads[i], async)
    ensures Advances(s, s', i, async) && s.log <= s'.log
  {
    if pc: Pc :| Arrives(s, pc, s') {
      ArrivalElsewhere(s, pc, s', i);
      StayingAdvances(s, s', i, async);
    } else if w: nat :| Wakes(s, w, s') {
      WakingElsewhere(s, w, s', i);
      StayingAdvances(s, s', i, async);
    } else {
      var t: nat :| Step(s, t, s');
      StepAdvances(s, t, s', i, async);
    }
  }

  /** Between j and k the call has served its task. */
  ghost predicate Served(run: seq<State>, i: nat, async: bool, j: nat, k: nat)
    requires k < |run|
  {
    exists m: nat {:trigger Serves(run[m], run[m + 1], i, async)} :: j <= m < k && Serves(run[m], run[m + 1], i, async)
  }

  /** A call that came at j is done at k exactly if it has served its task in between. */
  lemma {:induction false} CallRuns(run: seq<State>, i: nat, async: bool, j: nat, k: nat)
    requires IsRun(run) && j <= k < |run| && At(run[j], i, Initialising(InitCheck, async))
    ensures i < |run[k].threads| && OfCall(run[k].threads[i], async) && run[j].log <= run[k].log
    ensures Done(run[k].threads[i]) <==> Served(run, i, async, j, k)
  {
    if j < k {
      CallRuns(run, i, async, j, k - 1);
      assert Follows(run, k);
      NextAdvances(run[k - 1], run[k], i, async);
      var m: nat := k - 1;
      assert Serves(run[m], run[m + 1], i, async) ==> Served(run, i, async, j, k);
    }
  }

  lemma {:induction false} LogGrows(run: seq<State>, i: nat, async: bool, j: nat, m: nat, k: nat)
    requires IsRun(run) && j <= m <= k < |run| && At(run[j], i, Initialising(InitCheck, async))
    ensures run[m].log <= run[k].log
    decreases k - m
  {
    if m < k {
      LogGrows(run, i, async, j, m, k - 1);
      CallRuns(run, i, async, j, k - 1);
      assert Follows(run, k);
      NextAdvances(run[k - 1], run[k], i, async);
    }
  }

  /** A call that has returned 0 has posted a request of its own since it came, if it was asynchronous, and
    * has run a refresh of its own if not; one that was refused has done neither. */
  lemma {:induction false} ReturnedServed(run: seq<State>, i: nat, async: bool, j: nat, k: nat, ok: bool)
    requires IsRun(run) && j <= k < |run| && At(run[j], i, Initialising(InitCheck, async))
    requires At(run[k], i, Returned(ok))
    ensures ok <==> Served(run, i, async, j, k)
    ensures run[j].log <= run[k].log
    ensures ok ==> (if async then Posted else Started) in run[k].log[|run[j].log|..]
  {
    CallRuns(run, i, async, j, k);
    if ok {
      var m: nat :| j <= m < k && Serves(run[m], run[m + 1], i, async);
      LogGrows(run, i, async, j, j, m);
      LogGrows(run, i, async, j, m + 1, k);
      var e, n := if async then Posted else Started, |run[m].log|;
      assert run[m + 1].log[n] == e;
      assert run[k].log[|run[j].log|..][n - |run[j].log|] == e;
    }
  }

  /** When xh_core_clear is about to return nothing is initialised and no worker lives. */
  lemma ClearLeaves(s: State)
    requires Inv(s) && SoloAt(s, FreeUnlock)
    ensures !s.inited && !s.initOk && !s.asyncInited && !s.asyncInitOk && !s.handlerFailed && !s.createFailed
    ensures !s.running && forall i: nat :: !Live(s, i)
  {
    var c := s.solo.value;
    assert Knows(s, c) && Owns(s, c);
    assert s.mutex == Some(c);
    forall i: nat ensures !Live(s, i) {
      assert Owns(s, i);
    }
  }
}
