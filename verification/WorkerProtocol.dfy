/** What every run of the refresh worker's protocol offers: mutual exclusion, no lost request, no
  * deadlock, and an end once calls stop coming; and when a call is refused. */
module WorkerProtocol {
  import opened Wrappers
  import opened WorkerSteps
  import opened WorkerInvariant

  // ---- What every reachable state offers ----

  predicate HoldsRefresh(s: State, i: nat) {
    i < |s.threads| && HoldsRefreshMutex(s.threads[i])
  }

  /** At most one worker lives, and no two of a refresh, another refresh and clear's freeing of
    * the records go on together. */
  lemma Exclusion(run: seq<State>, k: nat, i: nat, j: nat)
    requires IsRun(run) && k < |run|
    ensures Live(run[k], i) && Live(run[k], j) ==> i == j
    ensures HoldsRefresh(run[k], i) && HoldsRefresh(run[k], j) ==> i == j
  {
    Reachable(run, k);
    assert Owns(run[k], i) && Owns(run[k], j);
  }

  predicate FollowedBy(log: seq<Event>, i: nat, e: Event) {
    exists j: nat :: i < j < |log| && log[j] == e
  }

  lemma {:induction false} UnservedMeans(log: seq<Event>)
    ensures Unserved(log) <==> exists i: nat :: i < |log| && log[i] == Posted && !FollowedBy(log, i, Started)
  {
    if |log| > 0 {
      var n := |log| - 1;
      var rest := log[..n];
      UnservedMeans(rest);
      match log[n] {
        case Posted =>
          assert !FollowedBy(log, n, Started);
        case Started =>
          forall i: nat | i < |log| && log[i] == Posted ensures FollowedBy(log, i, Started) { assert i < n; }
        case Stopped =>
          forall i: nat | i < n ensures FollowedBy(log, i, Started) <==> FollowedBy(rest, i, Started) {
            if FollowedBy(log, i, Started) {
              var j: nat :| i < j < |log| && log[j] == Started;
              assert rest[j] == Started;
            }
            if FollowedBy(rest, i, Started) {
              var j: nat :| i < j < |rest| && rest[j] == Started;
              assert log[j] == Started;
            }
          }
          if i: nat :| i < |log| && log[i] == Posted && !FollowedBy(log, i, Started) {
            assert rest[i] == Posted;
          }
          if i: nat :| i < |rest| && rest[i] == Posted && !FollowedBy(rest, i, Started) {
            assert log[i] == Posted;
          }
      }
    }
  }

  /** No posted request is lost: until a refresh starts after it, it is still flagged, or the
    * worker has taken it and is on its way to the refresh. */
  lemma PostsAreKept(run: seq<State>, k: nat, i: nat)
    requires IsRun(run) && k < |run|
    requires i < |run[k].log| && run[k].log[i] == Posted
    ensures FollowedBy(run[k].log, i, Started) || run[k].flagged || Taken(run[k])
  {
    Reachable(run, k);
    UnservedMeans(run[k].log);
  }

  /** The exact condition for XH_ERRNO_UNKNOWN at the two checks of xh_core_refresh: a failure
    * since the last clear, or another call that is just then between its two flags. */
  lemma UnknownWhen(run: seq<State>, k: nat, i: nat)
    requires IsRun(run) && k < |run| && i < |run[k].threads|
    ensures run[k].threads[i].Initialising? && run[k].threads[i].init.InitOkCheck? ==>
              (!run[k].initOk <==> run[k].handlerFailed || Registering(run[k]))
    ensures run[k].threads[i] == Starting(AsyncOkCheck) ==>
              (!run[k].asyncInitOk <==> run[k].createFailed || Creating(run[k]))
  {
    Reachable(run, k);
    var s := run[k];
    assert Owns(s, i) && Knows(s, i);
    assert s.mutex.Some? ==> Knows(s, s.mutex.value);
  }

  // ---- No deadlock ----

  /** A thread that cannot take a step. */
  predicate Blocked(s: State, t: nat)
    requires t < |s.threads|
  {
    match s.threads[t]
    case Returned(_) => true
    case Initialising(p, _) => p.InitLock? && s.mutex.Some?
    case Starting(p) => p.AsyncLock? && s.mutex.Some?
    case Posting(p) => (p.PostLock? && s.mutex.Some?) || (p.SyncLock? && s.refreshMutex.Some?)
    case Working(p) =>
      || p.Waiting? || p.Exited?
      || ((p.WorkLock? || p.Woken?) && s.mutex.Some?)
      || (p.WorkRefreshLock? && s.refreshMutex.Some?)
    case Clearing(p) =>
      || ((p.StopLock? || p.FreeLock?) && s.mutex.Some?)
      || (p.Join? && !At(s, s.tid, Working(Exited)))
      || (p.FreeRefreshLock? && s.refreshMutex.Some?)
  }

  /** Every call has returned and the worker, if there is one, sleeps with nothing to do. */
  predicate Quiet(s: State) {
    && s.mutex.None? && s.refreshMutex.None? && s.solo.None?
    && (forall t: nat :: t < |s.threads| ==>
          s.threads[t].Returned? || s.threads[t] == Working(Exited)
          || (s.threads[t] == Working(Waiting) && s.running && !s.flagged))
  }

  lemma HolderSteps(s: State, h: nat)
    requires h < |s.threads|
    requires HoldsRefreshMutex(s.threads[h]) || (HoldsMutex(s.threads[h]) && s.refreshMutex.None?)
    ensures !Blocked(s, h)
  {
  }

  /** A clear that joins a worker is never left with one that sleeps. */
  lemma JoinEnds(s: State)
    requires Inv(s) && s.mutex.None? && s.refreshMutex.None? && s.solo.Some?
    ensures !Blocked(s, s.solo.value) || (s.tid < |s.threads| && !Blocked(s, s.tid))
  {
    assert Owns(s, s.solo.value) && Knows(s, s.solo.value) && Owns(s, s.tid) && Knows(s, s.tid);
  }

  lemma AtRest(s: State)
    requires Inv(s)
    requires forall t: nat {:trigger Blocked(s, t)} :: t < |s.threads| ==> Blocked(s, t)
    ensures Quiet(s)
  {
    if s.refreshMutex.Some? {
      assert Owns(s, s.refreshMutex.value);
      HolderSteps(s, s.refreshMutex.value);
      assert false;
    }
    if s.mutex.Some? {
      assert Owns(s, s.mutex.value);
      HolderSteps(s, s.mutex.value);
      assert false;
    }
    if s.solo.Some? {
      JoinEnds(s);
      assert false;
    }
    forall t: nat | t < |s.threads|
      ensures s.threads[t].Returned? || s.threads[t] == Working(Exited)
              || (s.threads[t] == Working(Waiting) && s.running && !s.flagged)
    {
      assert Owns(s, t) && Knows(s, t) && Blocked(s, t);
    }
  }

  lemma RestServes(s: State, i: nat)
    requires Inv(s) && Quiet(s) && i < |s.log| && s.log[i] == Posted
    ensures FollowedBy(s.log, i, Started) || FollowedBy(s.log, i, Stopped)
  {
    UnservedMeans(s.log);
    var n := |s.log| - 1;
    if s.log[n] == Posted {
      assert false;
    } else {
      assert i < n && FollowedBy(s.log, i, s.log[n]);
    }
  }

  /** When no thread can step, the run has come to rest: nobody waits for a lock, no clear is
    * left joining a worker that sleeps, and each post was followed by a refresh, unless a clear
    * stopped the worker after it. */
  lemma NoDeadlock(run: seq<State>, k: nat)
    requires IsRun(run) && k < |run|
    requires forall t: nat, s': State {:trigger Step(run[k], t, s')} :: !Step(run[k], t, s')
    ensures Quiet(run[k])
    ensures forall i: nat :: i < |run[k].log| && run[k].log[i] == Posted ==>
              FollowedBy(run[k].log, i, Started) || FollowedBy(run[k].log, i, Stopped)
  {
    var s := run[k];
    Reachable(run, k);
    forall t: nat | t < |s.threads| ensures Blocked(s, t) {
      if !Blocked(s, t) {
        var s' := Unblocked(s, t);
        assert false;
      }
    }
    AtRest(s);
    forall i: nat | i < |s.log| && s.log[i] == Posted
      ensures FollowedBy(s.log, i, Started) || FollowedBy(s.log, i, Stopped)
    {
      RestServes(s, i);
    }
  }

  lemma CanTest(s: State, t: nat, pc: Pc) returns (s': State)
    requires t < |s.threads|
    ensures Tests(s, t, pc, s')
  {
    s' := s.(threads := s.threads[t := pc]);
  }

  lemma CanLock(s: State, t: nat, pc: Pc) returns (s': State)
    requires t < |s.threads| && s.mutex.None?
    ensures Locks(s, t, pc, s')
  {
    s' := s.(threads := s.threads[t := pc], mutex := Some(t));
  }

  lemma CanUnlock(s: State, t: nat, pc: Pc) returns (s': State)
    requires t < |s.threads|
    ensures Unlocks(s, t, pc, s')
  {
    s' := s.(threads := s.threads[t := pc], mutex := None);
  }

  lemma CanLockRefresh(s: State, t: nat, pc: Pc, log: seq<Event>) returns (s': State)
    requires t < |s.threads| && s.refreshMutex.None?
    ensures LocksRefresh(s, t, pc, s') && s'.log == log
  {
    s' := s.(threads := s.threads[t := pc], refreshMutex := Some(t), log := log);
  }

  lemma CanUnlockRefresh(s: State, t: nat, pc: Pc) returns (s': State)
    requires t < |s.threads|
    ensures UnlocksRefresh(s, t, pc, s')
  {
    s' := s.(threads := s.threads[t := pc], refreshMutex := None);
  }

  lemma CanSignal(s: State, t: nat, pc: Pc) returns (s': State)
    requires t < |s.threads|
    ensures Signals(s, t, pc, s')
  {
    if w: nat :| At(s, w, Working(Waiting)) {
      s' := s.(threads := s.threads[t := pc][w := Working(Woken)]);
    } else {
      s' := s.(threads := s.threads[t := pc]);
    }
  }

  lemma CanSetInit(s: State, t: nat, pc: Pc, inited: bool, initOk: bool, failed: bool) returns (s': State)
    requires t < |s.threads|
    ensures Goes(s, t, pc, s') && SameAsync(s, s') && SameWork(s, s')
    ensures s'.inited == inited && s'.initOk == initOk && s'.handlerFailed == failed
  {
    s' := s.(threads := s.threads[t := pc], inited := inited, initOk := initOk, handlerFailed := failed);
  }

  lemma CanSetAsync(s: State, t: nat, pc: Pc, inited: bool, initOk: bool, failed: bool) returns (s': State)
    requires t < |s.threads|
    ensures Goes(s, t, pc, s') && SameInit(s, s') && SameWork(s, s') && s'.tid == s.tid
    ensures s'.asyncInited == inited && s'.asyncInitOk == initOk && s'.createFailed == failed
  {
    s' := s.(threads := s.threads[t := pc], asyncInited := inited, asyncInitOk := initOk, createFailed := failed);
  }

  lemma CanSetWork(s: State, t: nat, pc: Pc, running: bool, flagged: bool, log: seq<Event>) returns (s': State)
    requires t < |s.threads|
    ensures Goes(s, t, pc, s') && SameInit(s, s') && SameAsync(s, s')
    ensures s'.running == running && s'.flagged == flagged && s'.log == log
  {
    s' := s.(threads := s.threads[t := pc], running := running, flagged := flagged, log := log);
  }

  lemma CanLeave(s: State, t: nat) returns (s': State)
    requires t < |s.threads|
    ensures s'.mutex.None? && s'.refreshMutex == s.refreshMutex && s'.solo.None?
    ensures s'.threads == s.threads[t := Returned(true)] && Same(s, s')
  {
    s' := s.(threads := s.threads[t := Returned(true)], mutex := None, solo := None);
  }

  lemma InitUnblocked(s: State, t: nat, p: InitPoint, a: bool) returns (s': State)
    requires At(s, t, Initialising(p, a)) && !Blocked(s, t)
    ensures InitStep(s, t, p, a, s')
  {
    match p
    case InitCheck => s' := CanTest(s, t, Initialising(if s.inited then InitOkCheck else InitLock, a));
    case InitLock => s' := CanLock(s, t, Initialising(InitRecheck, a));
    case InitRecheck =>
      if s.inited { s' := CanTest(s, t, Initialising(InitUnlock, a)); }
      else { s' := CanSetInit(s, t, Initialising(InitHandler, a), true, s.initOk, s.handlerFailed); }
    case InitHandler => s' := CanSetInit(s, t, Initialising(InitUnlock, a), s.inited, true, s.handlerFailed);
    case InitUnlock => s' := CanUnlock(s, t, Initialising(InitOkCheck, a));
    case InitOkCheck =>
      s' := CanTest(s, t, if !s.initOk then Returned(false) else if a then Starting(AsyncCheck) else Posting(SyncLock));
  }

  lemma AsyncUnblocked(s: State, t: nat, p: AsyncPoint) returns (s': State)
    requires At(s, t, Starting(p)) && !Blocked(s, t)
    ensures AsyncStep(s, t, p, s')
  {
    match p
    case AsyncCheck => s' := CanTest(s, t, Starting(if s.asyncInited then AsyncOkCheck else AsyncLock));
    case AsyncLock => s' := CanLock(s, t, Starting(AsyncRecheck));
    case AsyncRecheck =>
      if s.asyncInited { s' := CanTest(s, t, Starting(AsyncUnlock)); }
      else { s' := CanSetAsync(s, t, Starting(AsyncRun), true, s.asyncInitOk, s.createFailed); }
    case AsyncRun => s' := CanSetWork(s, t, Starting(AsyncCreate), true, s.flagged, s.log);
    case AsyncCreate => s' := CanSetAsync(s, t, Starting(AsyncFail), s.asyncInited, s.asyncInitOk, true);
    case AsyncFail => s' := CanSetWork(s, t, Starting(AsyncUnlock), false, s.flagged, s.log);
    case AsyncOk => s' := CanSetAsync(s, t, Starting(AsyncUnlock), s.asyncInited, true, s.createFailed);
    case AsyncUnlock => s' := CanUnlock(s, t, Starting(AsyncOkCheck));
    case AsyncOkCheck => s' := CanTest(s, t, if s.asyncInitOk then Posting(PostLock) else Returned(false));
  }

  lemma PostUnblocked(s: State, t: nat, p: PostPoint) returns (s': State)
    requires At(s, t, Posting(p)) && !Blocked(s, t)
    ensures PostStep(s, t, p, s')
  {
    match p
    case PostLock => s' := CanLock(s, t, Posting(Post));
    case Post => s' := CanSetWork(s, t, Posting(Signal), s.running, true, s.log + [Posted]);
    case Signal => s' := CanSignal(s, t, Posting(PostUnlock));
    case PostUnlock => s' := CanUnlock(s, t, Returned(true));
    case SyncLock => s' := CanLockRefresh(s, t, Posting(SyncRefresh), s.log + [Started]);
    case SyncRefresh => s' := CanUnlockRefresh(s, t, Returned(true));
  }

  lemma WorkUnblocked(s: State, t: nat, p: WorkPoint) returns (s': State)
    requires At(s, t, Working(p)) && !Blocked(s, t)
    ensures WorkStep(s, t, p, s')
  {
    match p
    case LoopTest => s' := CanTest(s, t, Working(if s.running then WorkLock else Exited));
    case WorkLock => s' := CanLock(s, t, Working(WaitTest));
    case WaitTest =>
      if !s.flagged && s.running { s' := CanUnlock(s, t, Working(Waiting)); }
      else { s' := CanTest(s, t, Working(ExitTest)); }
    case Woken => s' := CanLock(s, t, Working(WaitTest));
    case ExitTest => s' := CanTest(s, t, Working(if s.running then Take else Leave));
    case Take => s' := CanSetWork(s, t, Working(TakeUnlock), s.running, false, s.log);
    case TakeUnlock => s' := CanUnlock(s, t, Working(WorkRefreshLock));
    case WorkRefreshLock => s' := CanLockRefresh(s, t, Working(WorkRefresh), s.log + [Started]);
    case WorkRefresh => s' := CanUnlockRefresh(s, t, Working(LoopTest));
    case Leave => s' := CanUnlock(s, t, Working(Exited));
  }

  lemma ClearUnblocked(s: State, t: nat, p: ClearPoint) returns (s': State)
    requires At(s, t, Clearing(p)) && !Blocked(s, t)
    ensures ClearStep(s, t, p, s')
  {
    match p
    case ClearTest => s' := CanTest(s, t, Clearing(if s.asyncInitOk then StopLock else ClearAsyncInited));
    case StopLock => s' := CanLock(s, t, Clearing(Stop));
    case Stop => s' := CanSetWork(s, t, Clearing(StopSignal), false, s.flagged, s.log + [Stopped]);
    case StopSignal => s' := CanSignal(s, t, Clearing(StopUnlock));
    case StopUnlock => s' := CanUnlock(s, t, Clearing(Join));
    case Join => s' := CanTest(s, t, Clearing(ClearAsyncOk));
    case ClearAsyncOk => s' := CanSetAsync(s, t, Clearing(ClearAsyncInited), s.asyncInited, false, s.createFailed);
    case ClearAsyncInited => s' := CanSetAsync(s, t, Clearing(ClearInitOk), false, s.asyncInitOk, false);
    case ClearInitOk => s' := CanSetInit(s, t, Clearing(ClearInited), s.inited, false, s.handlerFailed);
    case ClearInited => s' := CanSetInit(s, t, Clearing(FreeLock), false, s.initOk, false);
    case FreeLock => s' := CanLock(s, t, Clearing(FreeRefreshLock));
    case FreeRefreshLock => s' := CanLockRefresh(s, t, Clearing(Free), s.log);
    case Free => s' := CanUnlockRefresh(s, t, Clearing(FreeUnlock));
    case FreeUnlock => s' := CanLeave(s, t);
  }

  /** What is not blocked can step. */
  lemma Unblocked(s: State, t: nat) returns (s': State)
    requires t < |s.threads| && !Blocked(s, t)
    ensures Step(s, t, s')
  {
    match s.threads[t]
    case Initialising(p, a) => s' := InitUnblocked(s, t, p, a);
    case Starting(p) => s' := AsyncUnblocked(s, t, p);
    case Posting(p) => s' := PostUnblocked(s, t, p);
    case Working(p) => s' := WorkUnblocked(s, t, p);
    case Clearing(p) => s' := ClearUnblocked(s, t, p);
  }

  // ---- Every run without new calls ends ----

  function Weight(pc: Pc): nat {
    match pc
    case Returned(_) => 0
    case Working(p) => (
      match p
      case Exited => 0 case Waiting => 0 case Leave => 1 case Take => 2 case ExitTest => 3
      case WaitTest => 4 case Woken => 5 case WorkLock => 5 case LoopTest => 6 case WorkRefresh => 7
      case WorkRefreshLock => 8 case TakeUnlock => 9)
    case Posting(p) => (
      match p
      case PostUnlock => 1 case Signal => 7 case Post => 16 case PostLock => 17
      case SyncRefresh => 1 case SyncLock => 2)
    case Starting(p) => (
      match p
      case AsyncOkCheck => 18 case AsyncUnlock => 19 case AsyncOk => 20 case AsyncFail => 20
      case AsyncCreate => 27 case AsyncRun => 28 case AsyncRecheck => 29 case AsyncLock => 30
      case AsyncCheck => 31)
    case Initialising(p, _) => (
      match p
      case InitOkCheck => 32 case InitUnlock => 33 case InitHandler => 34 case InitRecheck => 35
      case InitLock => 36 case InitCheck => 37)
    case Clearing(p) => (
      match p
      case FreeUnlock => 1 case Free => 2 case FreeRefreshLock => 3 case FreeLock => 4
      case ClearInited => 5 case ClearInitOk => 6 case ClearAsyncInited => 7 case ClearAsyncOk => 8
      case Join => 9 case StopUnlock => 10 case StopSignal => 16 case Stop => 17 case StopLock => 18
      case ClearTest => 19)
  }

  function TotalWeight(threads: seq<Pc>): nat {
    if threads == [] then 0 else TotalWeight(threads[..|threads| - 1]) + Weight(threads[|threads| - 1])
  }

  /** How many steps can still be taken before something new arrives. */
  function Rank(s: State): nat {
    TotalWeight(s.threads) + if s.flagged then 8 else 0
  }

  lemma {:induction false} WeightMoves(threads: seq<Pc>, t: nat, pc: Pc)
    requires t < |threads|
    ensures TotalWeight(threads[t := pc]) == TotalWeight(threads) - Weight(threads[t]) + Weight(pc)
  {
    var n := |threads| - 1;
    if t == n {
      assert threads[t := pc][..n] == threads[..n];
    } else {
      WeightMoves(threads[..n], t, pc);
      assert threads[t := pc][..n] == threads[..n][t := pc];
    }
  }

  lemma {:induction false} WeightGrows(threads: seq<Pc>, pc: Pc)
    ensures TotalWeight(threads + [pc]) == TotalWeight(threads) + Weight(pc)
  {
    assert (threads + [pc])[..|threads|] == threads;
  }

  lemma InitLowersRank(s: State, t: nat, p: InitPoint, a: bool, s': State)
    requires At(s, t, Initialising(p, a)) && InitStep(s, t, p, a, s')
    ensures Rank(s') < Rank(s)
  {
    assert s'.threads == s.threads[t := s'.threads[t]];
    WeightMoves(s.threads, t, s'.threads[t]);
  }

  lemma AsyncLowersRank(s: State, t: nat, p: AsyncPoint, s': State)
    requires At(s, t, Starting(p)) && AsyncStep(s, t, p, s') && !p.AsyncCreate?
    ensures Rank(s') < Rank(s)
  {
    assert s'.threads == s.threads[t := s'.threads[t]];
    WeightMoves(s.threads, t, s'.threads[t]);
  }

  lemma CreateLowersRank(s: State, t: nat, s': State)
    requires At(s, t, Starting(AsyncCreate)) && AsyncStep(s, t, AsyncCreate, s')
    ensures Rank(s') < Rank(s)
  {
    WeightMoves(s.threads, t, Starting(AsyncOk));
    WeightMoves(s.threads, t, Starting(AsyncFail));
    WeightGrows(s.threads[t := Starting(AsyncOk)], Working(LoopTest));
  }

  lemma SignalLowersRank(s: State, t: nat, pc: Pc, s': State)
    requires t < |s.threads| && Signals(s, t, pc, s') && Weight(pc) + 5 < Weight(s.threads[t])
    ensures Rank(s') < Rank(s)
  {
    var moved := s.threads[t := pc];
    WeightMoves(s.threads, t, pc);
    if w: nat :| At(s, w, Working(Waiting)) && s'.threads == moved[w := Working(Woken)] {
      WeightMoves(moved, w, Working(Woken));
    }
  }

  lemma PostLowersRank(s: State, t: nat, p: PostPoint, s': State)
    requires At(s, t, Posting(p)) && PostStep(s, t, p, s')
    ensures Rank(s') < Rank(s)
  {
    if p.Signal? {
      SignalLowersRank(s, t, Posting(PostUnlock), s');
    } else {
      assert s'.threads == s.threads[t := s'.threads[t]];
      WeightMoves(s.threads, t, s'.threads[t]);
    }
  }

  lemma WorkLowersRank(s: State, t: nat, p: WorkPoint, s': State)
    requires At(s, t, Working(p)) && WorkStep(s, t, p, s') && WorkKnows(s, p)
    ensures Rank(s') < Rank(s)
  {
    assert s'.threads == s.threads[t := s'.threads[t]];
    WeightMoves(s.threads, t, s'.threads[t]);
  }

  lemma ClearLowersRank(s: State, t: nat, p: ClearPoint, s': State)
    requires At(s, t, Clearing(p)) && ClearStep(s, t, p, s')
    ensures Rank(s') < Rank(s)
  {
    if p.StopSignal? {
      SignalLowersRank(s, t, Clearing(StopUnlock), s');
    } else {
      var pc := s'.threads[t];
      assert s'.threads == s.threads[t := pc];
      assert Weight(pc) < Weight(s.threads[t]);
      WeightMoves(s.threads, t, pc);
    }
  }

  lemma StartLowersRank(s: State, t: nat, p: AsyncPoint, s': State)
    requires At(s, t, Starting(p)) && AsyncStep(s, t, p, s')
    ensures Rank(s') < Rank(s)
  {
    if p.AsyncCreate? {
      CreateLowersRank(s, t, s');
    } else {
      AsyncLowersRank(s, t, p, s');
    }
  }

  lemma StepLowersRank(s: State, t: nat, s': State)
    requires Inv(s) && Step(s, t, s')
    ensures Rank(s') < Rank(s)
  {
    assert Knows(s, t);
    match s.threads[t]
    case Initialising(p, a) => InitLowersRank(s, t, p, a, s');
    case Starting(p) => StartLowersRank(s, t, p, s');
    case Posting(p) => PostLowersRank(s, t, p, s');
    case Working(p) => WorkLowersRank(s, t, p, s');
    case Clearing(p) => ClearLowersRank(s, t, p, s');
  }

  lemma StepsLowerRank(s: State, s': State)
    requires Inv(s) && Steps(s, s')
    ensures Rank(s') < Rank(s)
  {
    var t: nat :| Step(s, t, s');
    StepLowersRank(s, t, s');
  }

  lemma WakeRaisesRank(s: State, w: nat, s': State)
    requires Wakes(s, w, s')
    ensures Rank(s') == Rank(s) + 5
  {
    WeightMoves(s.threads, w, Working(Woken));
  }

  ghost predicate Wakened(s: State, s': State) {
    exists w: nat :: Wakes(s, w, s')
  }

  ghost predicate IsTurn(run: seq<State>, n: nat) {
    0 < n < |run| ==> Steps(run[n - 1], run[n]) || Wakened(run[n - 1], run[n])
  }

  /** From position k on no new call comes: the threads step, and waits may end without a signal. */
  ghost predicate NoNewCalls(run: seq<State>, k: nat)
    requires IsRun(run)
  {
    forall n: nat {:trigger IsTurn(run, n)} :: k < n ==> IsTurn(run, n)
  }

  /** How many waits end without a signal after position k. */
  ghost function WakeUps(run: seq<State>, k: nat): nat
    requires k < |run|
    decreases |run| - k
  {
    if k + 1 == |run| then 0
    else (if Steps(run[k], run[k + 1]) then 0 else 1) + WakeUps(run, k + 1)
  }

  /** Once calls stop coming, the threads come to rest within Rank steps and six more for each spurious
    * wake-up, however they are scheduled. With NoDeadlock: every call returns, and every request
    * is served. */
  lemma {:induction false} ComesToRest(run: seq<State>, k: nat)
    requires IsRun(run) && k < |run| && NoNewCalls(run, k)
    ensures |run| - 1 - k <= Rank(run[k]) - Rank(run[|run| - 1]) + 6 * WakeUps(run, k)
    decreases |run| - k
  {
    if k + 1 < |run| {
      Reachable(run, k);
      assert IsTurn(run, k + 1);
      if Steps(run[k], run[k + 1]) {
        StepsLowerRank(run[k], run[k + 1]);
      } else {
        var w: nat :| Wakes(run[k], w, run[k + 1]);
        WakeRaisesRank(run[k], w, run[k + 1]);
      }
      ComesToRest(run, k + 1);
    }
  }

  // ---- A caller can be refused while initialisation is still succeeding ----

  /** Two calls, whatever the worker's side holds: nothing of it has happened yet. */
  function Race(first: Pc, second: Pc, locked: bool, inited: bool, initOk: bool): State {
    Init().(threads := [first, second], mutex := if locked then Some(0) else None, inited := inited, initOk := initOk)
  }

  lemma RaceStarts(a: State, b: State, c: State, d: State)
    requires a == Init().(threads := [Initialising(InitCheck, false)])
    requires b == Race(Initialising(InitCheck, false), Initialising(InitCheck, false), false, false, false)
    requires c == Race(Initialising(InitLock, false), Initialising(InitCheck, false), false, false, false)
    requires d == Race(Initialising(InitRecheck, false), Initialising(InitCheck, false), true, false, false)
    ensures Next(Init(), a) && Next(a, b) && Next(b, c) && Next(c, d)
  {
    assert Arrives(Init(), Initialising(InitCheck, false), a);
    assert Arrives(a, Initialising(InitCheck, false), b);
    assert Step(b, 0, c);
    assert Step(c, 0, d);
  }

  lemma RaceEnds(d: State, e: State, f: State, g: State, h: State)
    requires d == Race(Initialising(InitRecheck, false), Initialising(InitCheck, false), true, false, false)
    requires e == Race(Initialising(InitHandler, false), Initialising(InitCheck, false), true, true, false)
    requires f == Race(Initialising(InitHandler, false), Initialising(InitOkCheck, false), true, true, false)
    requires g == Race(Initialising(InitHandler, false), Returned(false), true, true, false)
    requires h == Race(Initialising(InitUnlock, false), Returned(false), true, true, true)
    ensures Next(d, e) && Next(e, f) && Next(f, g) && Next(g, h)
  {
    assert Step(d, 0, e);
    assert Step(e, 1, f);
    assert Step(f, 1, g);
    assert Step(g, 0, h);
  }

  lemma RaceIsRun(a: State, b: State, c: State, d: State, e: State, f: State, g: State, h: State)
    requires Next(Init(), a) && Next(a, b) && Next(b, c) && Next(c, d)
    requires Next(d, e) && Next(e, f) && Next(f, g) && Next(g, h)
    ensures IsRun([Init(), a, b, c, d, e, f, g, h])
  {
    var run := [Init(), a, b, c, d, e, f, g, h];
    forall k: nat ensures Follows(run, k) {
      assert k < |run| ==> k in {0, 1, 2, 3, 4, 5, 6, 7, 8};
    }
  }

  /** A call returns XH_ERRNO_UNKNOWN although nothing failed: it reads inited before the other
    * call has set init_ok, and that call's initialisation succeeds right afterwards. */
  lemma RefusedWithoutFailure() returns (run: seq<State>)
    ensures IsRun(run)
    ensures var end := run[|run| - 1];
            end.threads == [Initialising(InitUnlock, false), Returned(false)] && end.initOk && !end.handlerFailed
  {
    var check := Initialising(InitCheck, false);
    var a := Init().(threads := [check]);
    var b := Race(check, check, false, false, false);
    var c := Race(Initialising(InitLock, false), check, false, false, false);
    var d := Race(Initialising(InitRecheck, false), check, true, false, false);
    var e := Race(Initialising(InitHandler, false), check, true, true, false);
    var f := Race(Initialising(InitHandler, false), Initialising(InitOkCheck, false), true, true, false);
    var g := Race(Initialising(InitHandler, false), Returned(false), true, true, false);
    var h := Race(Initialising(InitUnlock, false), Returned(false), true, true, true);
    RaceStarts(a, b, c, d);
    RaceEnds(d, e, f, g, h);
    RaceIsRun(a, b, c, d, e, f, g, h);
    run := [Init(), a, b, c, d, e, f, g, h];
  }
}
