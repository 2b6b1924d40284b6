/** The refresh worker: the mutexes, flags and condition variable shared by xh_core_refresh,
  * the worker thread and xh_core_clear, as a state machine over atomic steps. Any number of
  * refresh calls interleave; a call of xh_core_clear has no other call beside it. */
module WorkerSteps {
  import opened Wrappers

  // ---- Program points: each names the point before one atomic step ----

  // xh_core_init_once
  datatype InitPoint = InitCheck | InitLock | InitRecheck | InitHandler | InitUnlock | InitOkCheck

  // xh_core_init_async_once
  datatype AsyncPoint =
    AsyncCheck | AsyncLock | AsyncRecheck | AsyncRun | AsyncCreate | AsyncFail | AsyncOk
    | AsyncUnlock | AsyncOkCheck

  // the rest of xh_core_refresh: posting a request, or refreshing in the caller's own thread
  datatype PostPoint = PostLock | Post | Signal | PostUnlock | SyncLock | SyncRefresh

  // xh_core_refresh_thread_func
  datatype WorkPoint =
    LoopTest | WorkLock | WaitTest | Waiting | Woken | ExitTest | Take | TakeUnlock
    | WorkRefreshLock | WorkRefresh | Leave | Exited

  // xh_core_clear
  datatype ClearPoint =
    ClearTest | StopLock | Stop | StopSignal | StopUnlock | Join | ClearAsyncOk
    | ClearAsyncInited | ClearInitOk | ClearInited | FreeLock | FreeRefreshLock | Free | FreeUnlock

  datatype Pc =
    | Returned(ok: bool)          // the call is over: 0, or XH_ERRNO_UNKNOWN
    | Initialising(init: InitPoint, async: bool)
    | Starting(start: AsyncPoint)
    | Posting(post: PostPoint)
    | Working(work: WorkPoint)
    | Clearing(clear: ClearPoint)

  datatype Event = Posted | Started | Stopped

  /** The threads are numbered in the order they came; `log` is the history of posts, refresh
    * starts and stops; `solo` is the running xh_core_clear, if any; `handlerFailed` and
    * `createFailed` remember the failures since the last clear. */
  datatype State = State(
    threads: seq<Pc>,
    mutex: Option<nat>,
    refreshMutex: Option<nat>,
    inited: bool,
    initOk: bool,
    asyncInited: bool,
    asyncInitOk: bool,
    running: bool,
    flagged: bool,
    tid: nat,
    solo: Option<nat>,
    handlerFailed: bool,
    createFailed: bool,
    log: seq<Event>)

  predicate IsCall(pc: Pc) {
    pc.Initialising? || pc.Starting? || pc.Posting?
  }

  predicate HoldsMutex(pc: Pc) {
    match pc
    case Returned(_) => false
    case Initialising(p, _) => p.InitRecheck? || p.InitHandler? || p.InitUnlock?
    case Starting(p) => !p.AsyncCheck? && !p.AsyncLock? && !p.AsyncOkCheck?
    case Posting(p) => p.Post? || p.Signal? || p.PostUnlock?
    case Working(p) => p.WaitTest? || p.ExitTest? || p.Take? || p.TakeUnlock? || p.Leave?
    case Clearing(p) =>
      p.Stop? || p.StopSignal? || p.StopUnlock? || p.FreeRefreshLock? || p.Free? || p.FreeUnlock?
  }

  /** Inside xh_core_refresh_impl. */
  predicate InRefresh(pc: Pc) {
    pc == Posting(SyncRefresh) || pc == Working(WorkRefresh)
  }

  predicate HoldsRefreshMutex(pc: Pc) {
    InRefresh(pc) || pc == Clearing(Free)
  }

  predicate At(s: State, i: nat, pc: Pc) {
    i < |s.threads| && s.threads[i] == pc
  }

  predicate Live(s: State, i: nat) {
    i < |s.threads| && s.threads[i].Working? && s.threads[i].work != Exited
  }

  // ---- Steps ----

  predicate SameLocks(s: State, s': State) {
    s'.mutex == s.mutex && s'.refreshMutex == s.refreshMutex && s'.solo == s.solo
  }

  predicate SameInit(s: State, s': State) {
    s'.inited == s.inited && s'.initOk == s.initOk && s'.handlerFailed == s.handlerFailed
  }

  predicate SameAsync(s: State, s': State) {
    && s'.asyncInited == s.asyncInited && s'.asyncInitOk == s.asyncInitOk
    && s'.createFailed == s.createFailed && s'.tid == s.tid
  }

  predicate SameWork(s: State, s': State) {
    s'.running == s.running && s'.flagged == s.flagged && s'.log == s.log
  }

  predicate Same(s: State, s': State) {
    SameInit(s, s') && SameAsync(s, s') && SameWork(s, s')
  }

  /** Thread t goes on to pc; no other thread moves and no lock changes hands. */
  predicate Goes(s: State, t: nat, pc: Pc, s': State)
    requires t < |s.threads|
  {
    s'.threads == s.threads[t := pc] && SameLocks(s, s')
  }

  /** A step that only tests. */
  predicate Tests(s: State, t: nat, pc: Pc, s': State)
    requires t < |s.threads|
  {
    Goes(s, t, pc, s') && Same(s, s')
  }

  predicate Locks(s: State, t: nat, pc: Pc, s': State)
    requires t < |s.threads|
  {
    && s.mutex.None? && s'.mutex == Some(t) && s'.refreshMutex == s.refreshMutex && s'.solo == s.solo
    && s'.threads == s.threads[t := pc] && Same(s, s')
  }

  predicate Unlocks(s: State, t: nat, pc: Pc, s': State)
    requires t < |s.threads|
  {
    && s'.mutex.None? && s'.refreshMutex == s.refreshMutex && s'.solo == s.solo
    && s'.threads == s.threads[t := pc] && Same(s, s')
  }

  /** Taking the refresh mutex. */
  predicate LocksRefresh(s: State, t: nat, pc: Pc, s': State)
    requires t < |s.threads|
  {
    && s.refreshMutex.None? && s'.refreshMutex == Some(t) && s'.mutex == s.mutex && s'.solo == s.solo
    && s'.threads == s.threads[t := pc] && SameInit(s, s') && SameAsync(s, s')
    && s'.running == s.running && s'.flagged == s.flagged
  }

  predicate UnlocksRefresh(s: State, t: nat, pc: Pc, s': State)
    requires t < |s.threads|
  {
    && s'.refreshMutex.None? && s'.mutex == s.mutex && s'.solo == s.solo
    && s'.threads == s.threads[t := pc] && Same(s, s')
  }

  /** pthread_cond_signal wakes one of the waiting threads, if there is one. */
  ghost predicate Signals(s: State, t: nat, pc: Pc, s': State)
    requires t < |s.threads|
  {
    && SameLocks(s, s') && Same(s, s')
    && (|| ((forall w: nat :: !At(s, w, Working(Waiting))) && s'.threads == s.threads[t := pc])
        || (exists w: nat :: At(s, w, Working(Waiting)) && s'.threads == s.threads[t := pc][w := Working(Woken)]))
  }

  predicate InitStep(s: State, t: nat, p: InitPoint, a: bool, s': State)
    requires t < |s.threads|
  {
    match p
    case InitCheck => Tests(s, t, Initialising(if s.inited then InitOkCheck else InitLock, a), s')
    case InitLock => Locks(s, t, Initialising(InitRecheck, a), s')
    case InitRecheck =>
      if s.inited then Tests(s, t, Initialising(InitUnlock, a), s')
      else
        && Goes(s, t, Initialising(InitHandler, a), s') && SameAsync(s, s') && SameWork(s, s')
        && s'.inited && s'.initOk == s.initOk && s'.handlerFailed == s.handlerFailed
    case InitHandler =>   // registering the handler succeeds or fails
      && Goes(s, t, Initialising(InitUnlock, a), s') && SameAsync(s, s') && SameWork(s, s')
      && s'.inited == s.inited
      && (|| (s'.initOk && s'.handlerFailed == s.handlerFailed)
          || (s'.initOk == s.initOk && s'.handlerFailed))
    case InitUnlock => Unlocks(s, t, Initialising(InitOkCheck, a), s')
    case InitOkCheck =>
      Tests(s, t, if !s.initOk then Returned(false) else if a then Starting(AsyncCheck) else Posting(SyncLock), s')
  }

  predicate AsyncStep(s: State, t: nat, p: AsyncPoint, s': State)
    requires t < |s.threads|
  {
    match p
    case AsyncCheck => Tests(s, t, Starting(if s.asyncInited then AsyncOkCheck else AsyncLock), s')
    case AsyncLock => Locks(s, t, Starting(AsyncRecheck), s')
    case AsyncRecheck =>
      if s.asyncInited then Tests(s, t, Starting(AsyncUnlock), s')
      else
        && Goes(s, t, Starting(AsyncRun), s') && SameInit(s, s') && SameWork(s, s')
        && s'.asyncInited && s'.asyncInitOk == s.asyncInitOk && s'.createFailed == s.createFailed
        && s'.tid == s.tid
    case AsyncRun =>
      && Goes(s, t, Starting(AsyncCreate), s') && SameInit(s, s') && SameAsync(s, s')
      && s'.running && s'.flagged == s.flagged && s'.log == s.log
    case AsyncCreate =>   // pthread_create succeeds with a new thread, or fails
      && SameLocks(s, s') && SameInit(s, s') && SameWork(s, s')
      && s'.asyncInited == s.asyncInited && s'.asyncInitOk == s.asyncInitOk
      && (|| (&& s'.tid == |s.threads| && s'.createFailed == s.createFailed
              && s'.threads == s.threads[t := Starting(AsyncOk)] + [Working(LoopTest)])
          || (s'.tid == s.tid && s'.createFailed && s'.threads == s.threads[t := Starting(AsyncFail)]))
    case AsyncFail =>
      && Goes(s, t, Starting(AsyncUnlock), s') && SameInit(s, s') && SameAsync(s, s')
      && !s'.running && s'.flagged == s.flagged && s'.log == s.log
    case AsyncOk =>
      && Goes(s, t, Starting(AsyncUnlock), s') && SameInit(s, s') && SameWork(s, s')
      && s'.asyncInited == s.asyncInited && s'.asyncInitOk && s'.createFailed == s.createFailed
      && s'.tid == s.tid
    case AsyncUnlock => Unlocks(s, t, Starting(AsyncOkCheck), s')
    case AsyncOkCheck => Tests(s, t, if s.asyncInitOk then Posting(PostLock) else Returned(false), s')
  }

  ghost predicate PostStep(s: State, t: nat, p: PostPoint, s': State)
    requires t < |s.threads|
  {
    match p
    case PostLock => Locks(s, t, Posting(Post), s')
    case Post =>
      && Goes(s, t, Posting(Signal), s') && SameInit(s, s') && SameAsync(s, s')
      && s'.running == s.running && s'.flagged && s'.log == s.log + [Posted]
    case Signal => Signals(s, t, Posting(PostUnlock), s')
    case PostUnlock => Unlocks(s, t, Returned(true), s')
    case SyncLock => LocksRefresh(s, t, Posting(SyncRefresh), s') && s'.log == s.log + [Started]
    case SyncRefresh => UnlocksRefresh(s, t, Returned(true), s')
  }

  predicate WorkStep(s: State, t: nat, p: WorkPoint, s': State)
    requires t < |s.threads|
  {
    match p
    case LoopTest => Tests(s, t, Working(if s.running then WorkLock else Exited), s')
    case WorkLock => Locks(s, t, Working(WaitTest), s')
    case WaitTest =>
      if !s.flagged && s.running then Unlocks(s, t, Working(Waiting), s')
      else Tests(s, t, Working(ExitTest), s')
    case Waiting => false
    case Woken => Locks(s, t, Working(WaitTest), s')
    case ExitTest => Tests(s, t, Working(if s.running then Take else Leave), s')
    case Take =>
      && Goes(s, t, Working(TakeUnlock), s') && SameInit(s, s') && SameAsync(s, s')
      && s'.running == s.running && !s'.flagged && s'.log == s.log
    case TakeUnlock => Unlocks(s, t, Working(WorkRefreshLock), s')
    case WorkRefreshLock => LocksRefresh(s, t, Working(WorkRefresh), s') && s'.log == s.log + [Started]
    case WorkRefresh => UnlocksRefresh(s, t, Working(LoopTest), s')
    case Leave => Unlocks(s, t, Working(Exited), s')
    case Exited => false
  }

  ghost predicate ClearStep(s: State, t: nat, p: ClearPoint, s': State)
    requires t < |s.threads|
  {
    match p
    case ClearTest => Tests(s, t, Clearing(if s.asyncInitOk then StopLock else ClearAsyncInited), s')
    case StopLock => Locks(s, t, Clearing(Stop), s')
    case Stop =>
      && Goes(s, t, Clearing(StopSignal), s') && SameInit(s, s') && SameAsync(s, s')
      && !s'.running && s'.flagged == s.flagged && s'.log == s.log + [Stopped]
    case StopSignal => Signals(s, t, Clearing(StopUnlock), s')
    case StopUnlock => Unlocks(s, t, Clearing(Join), s')
    case Join => At(s, s.tid, Working(Exited)) && Tests(s, t, Clearing(ClearAsyncOk), s')
    case ClearAsyncOk =>
      && Goes(s, t, Clearing(ClearAsyncInited), s') && SameInit(s, s') && SameWork(s, s')
      && s'.asyncInited == s.asyncInited && !s'.asyncInitOk && s'.createFailed == s.createFailed
      && s'.tid == s.tid
    case ClearAsyncInited =>
      && Goes(s, t, Clearing(ClearInitOk), s') && SameInit(s, s') && SameWork(s, s')
      && !s'.asyncInited && s'.asyncInitOk == s.asyncInitOk && !s'.createFailed && s'.tid == s.tid
    case ClearInitOk =>
      && Goes(s, t, Clearing(ClearInited), s') && SameAsync(s, s') && SameWork(s, s')
      && s'.inited == s.inited && !s'.initOk && s'.handlerFailed == s.handlerFailed
    case ClearInited =>
      && Goes(s, t, Clearing(FreeLock), s') && SameAsync(s, s') && SameWork(s, s')
      && !s'.inited && s'.initOk == s.initOk && !s'.handlerFailed
    case FreeLock => Locks(s, t, Clearing(FreeRefreshLock), s')
    case FreeRefreshLock => LocksRefresh(s, t, Clearing(Free), s') && s'.log == s.log
    case Free => UnlocksRefresh(s, t, Clearing(FreeUnlock), s')
    case FreeUnlock =>
      && s'.mutex.None? && s'.refreshMutex == s.refreshMutex && s'.solo.None?
      && s'.threads == s.threads[t := Returned(true)] && Same(s, s')
  }

  /** One step of thread t. */
  ghost predicate Step(s: State, t: nat, s': State) {
    t < |s.threads| &&
    match s.threads[t]
    case Returned(_) => false
    case Initialising(p, a) => InitStep(s, t, p, a, s')
    case Starting(p) => AsyncStep(s, t, p, s')
    case Posting(p) => PostStep(s, t, p, s')
    case Working(p) => WorkStep(s, t, p, s')
    case Clearing(p) => ClearStep(s, t, p, s')
  }

  /** A refresh call arrives, or a clear arrives while nobody else is calling. */
  ghost predicate Arrives(s: State, pc: Pc, s': State) {
    && s'.mutex == s.mutex && s'.refreshMutex == s.refreshMutex && Same(s, s')
    && s.solo.None? && s'.threads == s.threads + [pc]
    && (|| (pc.Initialising? && pc.init.InitCheck? && s'.solo.None?)
        || (&& pc == Clearing(ClearTest) && s'.solo == Some(|s.threads|)
            && (forall i: nat :: i < |s.threads| ==> !IsCall(s.threads[i]))))
  }

  /** A wait ends without a signal. */
  predicate Wakes(s: State, w: nat, s': State) {
    && At(s, w, Working(Waiting)) && s'.threads == s.threads[w := Working(Woken)]
    && SameLocks(s, s') && Same(s, s')
  }

  ghost predicate Steps(s: State, s': State) {
    exists t: nat :: Step(s, t, s')
  }

  ghost predicate Next(s: State, s': State) {
    || (exists pc :: Arrives(s, pc, s'))
    || (exists w: nat :: Wakes(s, w, s'))
    || Steps(s, s')
  }

  function Init(): State {
    State([], None, None, false, false, false, false, false, false, 0, None, false, false, [])
  }

  /** State k comes from the one before it. */
  ghost predicate Follows(run: seq<State>, k: nat) {
    0 < k < |run| ==> Next(run[k - 1], run[k])
  }

  ghost predicate IsRun(run: seq<State>) {
    && |run| > 0
    && run[0] == Init()
    && forall k: nat {:trigger Follows(run, k)} :: Follows(run, k)
  }
}
