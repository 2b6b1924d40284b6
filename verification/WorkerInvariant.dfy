/** The invariant of the refresh worker's protocol, and that every step keeps it. */
module WorkerInvariant {
  import opened Wrappers
  import opened WorkerSteps

  // ---- The invariant ----

  predicate HolderAt(s: State, pc: Pc) {
    s.mutex.Some? && At(s, s.mutex.value, pc)
  }

  /** The thread that holds the mutex is about to signal the condition variable. */
  predicate SignalDue(s: State) {
    HolderAt(s, Posting(Signal)) || HolderAt(s, Clearing(StopSignal))
  }

  /** The holder of the mutex is between setting async_inited and setting async_init_ok. */
  predicate Creating(s: State) {
    HolderAt(s, Starting(AsyncRun)) || HolderAt(s, Starting(AsyncCreate)) || HolderAt(s, Starting(AsyncOk))
  }

  /** The holder of the mutex is between setting inited and setting init_ok. */
  predicate Registering(s: State) {
    HolderAt(s, Initialising(InitHandler, true)) || HolderAt(s, Initialising(InitHandler, false))
  }

  predicate SoloAt(s: State, p: ClearPoint) {
    s.solo.Some? && At(s, s.solo.value, Clearing(p))
  }

  /** The worker has cleared the flag and not yet started the refresh it stands for. */
  predicate Taken(s: State) {
    At(s, s.tid, Working(TakeUnlock)) || At(s, s.tid, Working(WorkRefreshLock))
  }

  /** A live worker that is not on its way out. */
  predicate Serving(s: State) {
    Live(s, s.tid) && s.threads[s.tid].work != Leave
  }

  /** Some post has no refresh start after it. */
  predicate Unserved(log: seq<Event>) {
    |log| > 0 &&
    match log[|log| - 1]
    case Posted => true
    case Started => false
    case Stopped => Unserved(log[..|log| - 1])
  }

  predicate Owns(s: State, i: nat) {
    i < |s.threads| ==>
      && (s.mutex == Some(i) <==> HoldsMutex(s.threads[i]))
      && (s.refreshMutex == Some(i) <==> HoldsRefreshMutex(s.threads[i]))
      && (s.solo == Some(i) <==> s.threads[i].Clearing?)
      && (s.solo.Some? ==> !IsCall(s.threads[i]))
      && (Live(s, i) ==> i == s.tid)
  }

  predicate InitKnows(s: State, p: InitPoint) {
    && (p.InitHandler? ==> s.inited && !s.initOk && !s.handlerFailed)
    && (p.InitUnlock? || p.InitOkCheck? ==> s.inited)
  }

  predicate AsyncKnows(s: State, p: AsyncPoint) {
    match p
    case AsyncCheck => true
    case AsyncLock => true
    case AsyncRecheck => true
    case AsyncRun => s.asyncInited && !s.asyncInitOk && !Live(s, s.tid) && !s.createFailed
    case AsyncCreate => s.asyncInited && !s.asyncInitOk && !Live(s, s.tid) && !s.createFailed && s.running
    case AsyncFail => s.asyncInited && !s.asyncInitOk && !Live(s, s.tid)
    case AsyncOk => s.asyncInited && !s.asyncInitOk && Serving(s) && !s.createFailed && s.running
    case AsyncUnlock => s.asyncInited
    case AsyncOkCheck => s.asyncInited
  }

  predicate PostKnows(s: State, p: PostPoint) {
    p.PostLock? || p.Post? || p.Signal? || p.PostUnlock? ==> s.asyncInitOk
  }

  predicate WorkKnows(s: State, p: WorkPoint) {
    && (p.Waiting? ==> (!s.flagged && s.running) || SignalDue(s))
    && (p.ExitTest? ==> s.flagged || !s.running)
    && (p.Take? ==> s.flagged)
    && (p.Leave? ==> !s.running)
  }

  predicate ClearKnows(s: State, p: ClearPoint) {
    match p
    case ClearTest => true
    case StopLock => s.asyncInitOk
    case Stop => s.asyncInitOk
    case StopSignal => s.asyncInitOk && !s.running
    case StopUnlock => s.asyncInitOk && !s.running
    case Join => s.asyncInitOk && !s.running
    case ClearAsyncOk => s.asyncInitOk && !s.running && !Live(s, s.tid)
    case ClearAsyncInited => !s.asyncInitOk && !Live(s, s.tid)
    case ClearInitOk => !s.asyncInitOk && !s.asyncInited
    case ClearInited => !s.asyncInitOk && !s.asyncInited && !s.initOk
    case FreeLock => !s.asyncInited && !s.inited
    case FreeRefreshLock => !s.asyncInited && !s.inited
    case Free => !s.asyncInited && !s.inited
    case FreeUnlock => !s.asyncInited && !s.inited
  }

  /** What a thread can rely on where it stands. */
  predicate Knows(s: State, i: nat) {
    i < |s.threads| ==>
    match s.threads[i]
    case Returned(_) => true
    case Initialising(p, _) => InitKnows(s, p)
    case Starting(p) => AsyncKnows(s, p)
    case Posting(p) => PostKnows(s, p)
    case Working(p) => WorkKnows(s, p)
    case Clearing(p) => ClearKnows(s, p)
  }

  predicate Stopping(s: State) {
    SoloAt(s, StopSignal) || SoloAt(s, StopUnlock) || SoloAt(s, Join) || SoloAt(s, ClearAsyncOk)
  }

  predicate InitFlags(s: State) {
    && (s.initOk ==> s.inited && !s.handlerFailed)
    && (s.handlerFailed ==> s.inited)
    && (s.inited && !s.initOk ==> s.handlerFailed || Registering(s) || SoloAt(s, ClearInited))
  }

  predicate AsyncFlags(s: State) {
    && (s.asyncInitOk ==> s.asyncInited && !s.createFailed)
    && (s.asyncInitOk ==> s.tid < |s.threads| && s.threads[s.tid].Working?)
    && (s.createFailed ==> s.asyncInited)
    && (s.asyncInited && !s.asyncInitOk ==> s.createFailed || Creating(s) || SoloAt(s, ClearAsyncInited))
  }

  predicate WorkFlags(s: State) {
    && (s.asyncInitOk && s.running ==> Serving(s))
    && (s.asyncInitOk && !s.running ==> Stopping(s))
    && (s.running ==> s.asyncInitOk || Creating(s) || HolderAt(s, Starting(AsyncFail)))
    && (Live(s, s.tid) ==> s.asyncInitOk || HolderAt(s, Starting(AsyncOk)))
  }

  predicate Requests(s: State) {
    && (Unserved(s.log) ==> s.flagged || Taken(s))
    && (|s.log| > 0 && s.log[|s.log| - 1].Posted? ==> s.asyncInitOk && s.running)
  }

  /** The lock holders are threads. */
  predicate Held(s: State) {
    && (s.mutex.Some? ==> s.mutex.value < |s.threads|)
    && (s.refreshMutex.Some? ==> s.refreshMutex.value < |s.threads|)
    && (s.solo.Some? ==> s.solo.value < |s.threads|)
  }

  ghost predicate Inv(s: State) {
    && Held(s)
    && (forall i: nat {:trigger Owns(s, i)} :: Owns(s, i))
    && (forall i: nat {:trigger Knows(s, i)} :: Knows(s, i))
    && InitFlags(s)
    && AsyncFlags(s)
    && WorkFlags(s)
    && Requests(s)
  }

  /** Only the worker waits on the condition variable. */
  ghost predicate OneWaits(s: State) {
    forall w: nat {:trigger At(s, w, Working(Waiting))} :: At(s, w, Working(Waiting)) ==> w == s.tid
  }

  /** The first half of xh_core_clear: stopping the worker. */
  predicate InStop(p: ClearPoint) {
    p.ClearTest? || p.StopLock? || p.Stop? || p.StopSignal? || p.StopUnlock? || p.Join? || p.ClearAsyncOk?
  }

  // ---- Every step keeps the invariant ----

  lemma WorkerWaits(s: State)
    requires Inv(s)
    ensures OneWaits(s)
  {
    forall w: nat | At(s, w, Working(Waiting)) ensures w == s.tid {
      assert Owns(s, w) && Live(s, w);
    }
  }

  lemma InitOwnsMover(s: State, t: nat, p: InitPoint, a: bool, s': State)
    requires At(s, t, Initialising(p, a)) && InitStep(s, t, p, a, s')
    requires Owns(s, t) && Knows(s, t) && Held(s)
    ensures Owns(s', t) && Held(s')
  {
  }

  lemma InitOwnsOther(s: State, t: nat, p: InitPoint, a: bool, s': State, i: nat)
    requires i != t && At(s, t, Initialising(p, a)) && InitStep(s, t, p, a, s')
    requires Owns(s, t) && Owns(s, i) && Knows(s, t) && Held(s)
    ensures Owns(s', i)
  {
  }

  lemma InitKeepsOwns(s: State, t: nat, p: InitPoint, a: bool, s': State, i: nat)
    requires At(s, t, Initialising(p, a)) && InitStep(s, t, p, a, s')
    requires Owns(s, t) && Owns(s, i) && Knows(s, t) && Held(s)
    ensures Owns(s', i) && Held(s')
  {
    InitOwnsMover(s, t, p, a, s');
    if i != t {
      InitOwnsOther(s, t, p, a, s', i);
    }
  }

  lemma InitKnowsMover(s: State, t: nat, p: InitPoint, a: bool, s': State)
    requires At(s, t, Initialising(p, a)) && InitStep(s, t, p, a, s')
    requires Owns(s, t) && Knows(s, t) && Held(s)
    requires InitFlags(s) && AsyncFlags(s) && WorkFlags(s)
    requires s.mutex.Some? ==> Owns(s, s.mutex.value)
    ensures Knows(s', t)
  {
  }

  lemma InitKnowsStarting(s: State, t: nat, p: InitPoint, a: bool, s': State, i: nat)
    requires i != t && At(s, t, Initialising(p, a)) && InitStep(s, t, p, a, s')
    requires Owns(s, t) && Owns(s, i) && Knows(s, t) && Knows(s, i) && Held(s)
    requires InitFlags(s) && AsyncFlags(s) && WorkFlags(s)
    requires s.mutex.Some? ==> Owns(s, s.mutex.value)
    requires i < |s.threads| && s.threads[i].Starting?
    ensures Knows(s', i)
  {
  }

  lemma InitKnowsWorking(s: State, t: nat, p: InitPoint, a: bool, s': State, i: nat)
    requires i != t && At(s, t, Initialising(p, a)) && InitStep(s, t, p, a, s')
    requires Owns(s, t) && Owns(s, i) && Knows(s, t) && Knows(s, i) && Held(s)
    requires InitFlags(s) && AsyncFlags(s) && WorkFlags(s)
    requires s.mutex.Some? ==> Owns(s, s.mutex.value)
    requires i < |s.threads| && s.threads[i].Working?
    ensures Knows(s', i)
  {
  }

  lemma InitKnowsOther(s: State, t: nat, p: InitPoint, a: bool, s': State, i: nat)
    requires i != t && At(s, t, Initialising(p, a)) && InitStep(s, t, p, a, s')
    requires Owns(s, t) && Owns(s, i) && Knows(s, t) && Knows(s, i) && Held(s)
    requires InitFlags(s) && AsyncFlags(s) && WorkFlags(s)
    requires s.mutex.Some? ==> Owns(s, s.mutex.value)
    requires i < |s.threads| ==> !s.threads[i].Starting? && !s.threads[i].Working?
    ensures Knows(s', i)
  {
  }

  lemma InitKeepsKnows(s: State, t: nat, p: InitPoint, a: bool, s': State, i: nat)
    requires At(s, t, Initialising(p, a)) && InitStep(s, t, p, a, s')
    requires Owns(s, t) && Owns(s, i) && Knows(s, t) && Knows(s, i) && Held(s)
    requires InitFlags(s) && AsyncFlags(s) && WorkFlags(s)
    requires s.mutex.Some? ==> Owns(s, s.mutex.value)
    ensures Knows(s', i)
  {
    if i == t {
      InitKnowsMover(s, t, p, a, s');
    } else if i < |s.threads| && s.threads[i].Starting? {
      InitKnowsStarting(s, t, p, a, s', i);
    } else if i < |s.threads| && s.threads[i].Working? {
      InitKnowsWorking(s, t, p, a, s', i);
    } else {
      InitKnowsOther(s, t, p, a, s', i);
    }
  }

  lemma InitKeepsFlags(s: State, t: nat, p: InitPoint, a: bool, s': State)
    requires At(s, t, Initialising(p, a)) && InitStep(s, t, p, a, s')
    requires Owns(s, t) && Knows(s, t) && Held(s)
    requires InitFlags(s) && AsyncFlags(s) && WorkFlags(s)
    ensures InitFlags(s') && AsyncFlags(s') && WorkFlags(s')
  {
  }

  lemma InitKeepsRequests(s: State, t: nat, p: InitPoint, a: bool, s': State)
    requires At(s, t, Initialising(p, a)) && InitStep(s, t, p, a, s')
    requires Owns(s, t) && Knows(s, t) && Held(s) && Requests(s) && WorkFlags(s)
    ensures Requests(s')
  {
  }

  lemma AsyncOwnsMover(s: State, t: nat, p: AsyncPoint, s': State)
    requires At(s, t, Starting(p)) && AsyncStep(s, t, p, s')
    requires Owns(s, t) && Knows(s, t) && Held(s)
    ensures Owns(s', t) && Held(s')
  {
  }

  lemma AsyncOwnsOther(s: State, t: nat, p: AsyncPoint, s': State, i: nat)
    requires i != t && At(s, t, Starting(p)) && AsyncStep(s, t, p, s')
    requires Owns(s, t) && Owns(s, i) && Knows(s, t) && Held(s)
    ensures Owns(s', i)
  {
  }

  lemma AsyncKeepsOwns(s: State, t: nat, p: AsyncPoint, s': State, i: nat)
    requires At(s, t, Starting(p)) && AsyncStep(s, t, p, s')
    requires Owns(s, t) && Owns(s, i) && Knows(s, t) && Held(s)
    ensures Owns(s', i) && Held(s')
  {
    AsyncOwnsMover(s, t, p, s');
    if i != t {
      AsyncOwnsOther(s, t, p, s', i);
    }
  }

  lemma AsyncKnowsMover(s: State, t: nat, p: AsyncPoint, s': State)
    requires At(s, t, Starting(p)) && AsyncStep(s, t, p, s')
    requires Owns(s, t) && Knows(s, t) && Held(s)
    requires InitFlags(s) && AsyncFlags(s) && WorkFlags(s)
    requires s.mutex.Some? ==> Owns(s, s.mutex.value)
    ensures Knows(s', t)
  {
  }

  lemma AsyncKnowsStarting(s: State, t: nat, p: AsyncPoint, s': State, i: nat)
    requires i != t && At(s, t, Starting(p)) && AsyncStep(s, t, p, s')
    requires Owns(s, t) && Owns(s, i) && Knows(s, t) && Knows(s, i) && Held(s)
    requires InitFlags(s) && AsyncFlags(s) && WorkFlags(s)
    requires s.mutex.Some? ==> Owns(s, s.mutex.value)
    requires i < |s.threads| && s.threads[i].Starting?
    ensures Knows(s', i)
  {
  }

  lemma AsyncKnowsWorking(s: State, t: nat, p: AsyncPoint, s': State, i: nat)
    requires i != t && At(s, t, Starting(p)) && AsyncStep(s, t, p, s')
    requires Owns(s, t) && Owns(s, i) && Knows(s, t) && Knows(s, i) && Held(s)
    requires InitFlags(s) && AsyncFlags(s) && WorkFlags(s)
    requires s.mutex.Some? ==> Owns(s, s.mutex.value)
    requires i < |s.threads| && s.threads[i].Working?
    ensures Knows(s', i)
  {
  }

  lemma AsyncKnowsOther(s: State, t: nat, p: AsyncPoint, s': State, i: nat)
    requires i != t && At(s, t, Starting(p)) && AsyncStep(s, t, p, s')
    requires Owns(s, t) && Owns(s, i) && Knows(s, t) && Knows(s, i) && Held(s)
    requires InitFlags(s) && AsyncFlags(s) && WorkFlags(s)
    requires s.mutex.Some? ==> Owns(s, s.mutex.value)
    requires i < |s.threads| ==> !s.threads[i].Starting? && !s.threads[i].Working?
    ensures Knows(s', i)
  {
  }

  lemma AsyncKeepsKnows(s: State, t: nat, p: AsyncPoint, s': State, i: nat)
    requires At(s, t, Starting(p)) && AsyncStep(s, t, p, s')
    requires Owns(s, t) && Owns(s, i) && Knows(s, t) && Knows(s, i) && Held(s)
    requires InitFlags(s) && AsyncFlags(s) && WorkFlags(s)
    requires s.mutex.Some? ==> Owns(s, s.mutex.value)
    ensures Knows(s', i)
  {
    if i == t {
      AsyncKnowsMover(s, t, p, s');
    } else if i < |s.threads| && s.threads[i].Starting? {
      AsyncKnowsStarting(s, t, p, s', i);
    } else if i < |s.threads| && s.threads[i].Working? {
      AsyncKnowsWorking(s, t, p, s', i);
    } else {
      AsyncKnowsOther(s, t, p, s', i);
    }
  }

  lemma AsyncKeepsFlags(s: State, t: nat, p: AsyncPoint, s': State)
    requires At(s, t, Starting(p)) && AsyncStep(s, t, p, s')
    requires Owns(s, t) && Knows(s, t) && Held(s)
    requires InitFlags(s) && AsyncFlags(s) && WorkFlags(s)
    ensures InitFlags(s') && AsyncFlags(s') && WorkFlags(s')
  {
  }

  lemma AsyncKeepsRequests(s: State, t: nat, p: AsyncPoint, s': State)
    requires At(s, t, Starting(p)) && AsyncStep(s, t, p, s')
    requires Owns(s, t) && Knows(s, t) && Held(s) && Requests(s) && WorkFlags(s)
    ensures Requests(s')
  {
  }

  lemma PostOwnsMover(s: State, t: nat, p: PostPoint, s': State)
    requires At(s, t, Posting(p)) && PostStep(s, t, p, s') && !p.Signal?
    requires Owns(s, t) && Knows(s, t) && Held(s)
    ensures Owns(s', t) && Held(s')
  {
  }

  lemma PostOwnsOther(s: State, t: nat, p: PostPoint, s': State, i: nat)
    requires i != t && At(s, t, Posting(p)) && PostStep(s, t, p, s') && !p.Signal?
    requires Owns(s, t) && Owns(s, i) && Knows(s, t) && Held(s)
    ensures Owns(s', i)
  {
  }

  lemma PostKeepsOwns(s: State, t: nat, p: PostPoint, s': State, i: nat)
    requires At(s, t, Posting(p)) && PostStep(s, t, p, s') && !p.Signal?
    requires Owns(s, t) && Owns(s, i) && Knows(s, t) && Held(s)
    ensures Owns(s', i) && Held(s')
  {
    PostOwnsMover(s, t, p, s');
    if i != t {
      PostOwnsOther(s, t, p, s', i);
    }
  }

  lemma PostKnowsMover(s: State, t: nat, p: PostPoint, s': State)
    requires At(s, t, Posting(p)) && PostStep(s, t, p, s') && !p.Signal?
    requires Owns(s, t) && Knows(s, t) && Held(s)
    requires InitFlags(s) && AsyncFlags(s) && WorkFlags(s)
    requires s.mutex.Some? ==> Owns(s, s.mutex.value)
    ensures Knows(s', t)
  {
  }

  lemma PostKnowsStarting(s: State, t: nat, p: PostPoint, s': State, i: nat)
    requires i != t && At(s, t, Posting(p)) && PostStep(s, t, p, s') && !p.Signal?
    requires Owns(s, t) && Owns(s, i) && Knows(s, t) && Knows(s, i) && Held(s)
    requires InitFlags(s) && AsyncFlags(s) && WorkFlags(s)
    requires s.mutex.Some? ==> Owns(s, s.mutex.value)
    requires i < |s.threads| && s.threads[i].Starting?
    ensures Knows(s', i)
  {
  }

  lemma PostKnowsWorking(s: State, t: nat, p: PostPoint, s': State, i: nat)
    requires i != t && At(s, t, Posting(p)) && PostStep(s, t, p, s') && !p.Signal?
    requires Owns(s, t) && Owns(s, i) && Knows(s, t) && Knows(s, i) && Held(s)
    requires InitFlags(s) && AsyncFlags(s) && WorkFlags(s)
    requires s.mutex.Some? ==> Owns(s, s.mutex.value)
    requires i < |s.threads| && s.threads[i].Working?
    ensures Knows(s', i)
  {
  }

  lemma PostKnowsOther(s: State, t: nat, p: PostPoint, s': State, i: nat)
    requires i != t && At(s, t, Posting(p)) && PostStep(s, t, p, s') && !p.Signal?
    requires Owns(s, t) && Owns(s, i) && Knows(s, t) && Knows(s, i) && Held(s)
    requires InitFlags(s) && AsyncFlags(s) && WorkFlags(s)
    requires s.mutex.Some? ==> Owns(s, s.mutex.value)
    requires i < |s.threads| ==> !s.threads[i].Starting? && !s.threads[i].Working?
    ensures Knows(s', i)
  {
  }

  lemma PostKeepsKnows(s: State, t: nat, p: PostPoint, s': State, i: nat)
    requires At(s, t, Posting(p)) && PostStep(s, t, p, s') && !p.Signal?
    requires Owns(s, t) && Owns(s, i) && Knows(s, t) && Knows(s, i) && Held(s)
    requires InitFlags(s) && AsyncFlags(s) && WorkFlags(s)
    requires s.mutex.Some? ==> Owns(s, s.mutex.value)
    ensures Knows(s', i)
  {
    if i == t {
      PostKnowsMover(s, t, p, s');
    } else if i < |s.threads| && s.threads[i].Starting? {
      PostKnowsStarting(s, t, p, s', i);
    } else if i < |s.threads| && s.threads[i].Working? {
      PostKnowsWorking(s, t, p, s', i);
    } else {
      PostKnowsOther(s, t, p, s', i);
    }
  }

  lemma PostKeepsFlags(s: State, t: nat, p: PostPoint, s': State)
    requires At(s, t, Posting(p)) && PostStep(s, t, p, s') && !p.Signal?
    requires Owns(s, t) && Knows(s, t) && Held(s)
    requires InitFlags(s) && AsyncFlags(s) && WorkFlags(s)
    ensures InitFlags(s') && AsyncFlags(s') && WorkFlags(s')
  {
  }

  lemma PostKeepsRequests(s: State, t: nat, p: PostPoint, s': State)
    requires At(s, t, Posting(p)) && PostStep(s, t, p, s') && !p.Signal?
    requires Owns(s, t) && Knows(s, t) && Held(s) && Requests(s) && WorkFlags(s)
    ensures Requests(s')
  {
  }

  lemma WorkOwnsMover(s: State, t: nat, p: WorkPoint, s': State)
    requires At(s, t, Working(p)) && WorkStep(s, t, p, s')
    requires Owns(s, t) && Knows(s, t) && Held(s)
    ensures Owns(s', t) && Held(s')
  {
  }

  lemma WorkOwnsOther(s: State, t: nat, p: WorkPoint, s': State, i: nat)
    requires i != t && At(s, t, Working(p)) && WorkStep(s, t, p, s')
    requires Owns(s, t) && Owns(s, i) && Knows(s, t) && Held(s)
    ensures Owns(s', i)
  {
  }

  lemma WorkKeepsOwns(s: State, t: nat, p: WorkPoint, s': State, i: nat)
    requires At(s, t, Working(p)) && WorkStep(s, t, p, s')
    requires Owns(s, t) && Owns(s, i) && Knows(s, t) && Held(s)
    ensures Owns(s', i) && Held(s')
  {
    WorkOwnsMover(s, t, p, s');
    if i != t {
      WorkOwnsOther(s, t, p, s', i);
    }
  }

  lemma WorkKnowsMover(s: State, t: nat, p: WorkPoint, s': State)
    requires At(s, t, Working(p)) && WorkStep(s, t, p, s')
    requires Owns(s, t) && Knows(s, t) && Held(s)
    requires InitFlags(s) && AsyncFlags(s) && WorkFlags(s)
    requires s.mutex.Some? ==> Owns(s, s.mutex.value)
    ensures Knows(s', t)
  {
  }

  lemma WorkKnowsStarting(s: State, t: nat, p: WorkPoint, s': State, i: nat)
    requires i != t && At(s, t, Working(p)) && WorkStep(s, t, p, s')
    requires Owns(s, t) && Owns(s, i) && Knows(s, t) && Knows(s, i) && Held(s)
    requires InitFlags(s) && AsyncFlags(s) && WorkFlags(s)
    requires s.mutex.Some? ==> Owns(s, s.mutex.value)
    requires i < |s.threads| && s.threads[i].Starting?
    ensures Knows(s', i)
  {
  }

  lemma WorkKnowsWorking(s: State, t: nat, p: WorkPoint, s': State, i: nat)
    requires i != t && At(s, t, Working(p)) && WorkStep(s, t, p, s')
    requires Owns(s, t) && Owns(s, i) && Knows(s, t) && Knows(s, i) && Held(s)
    requires InitFlags(s) && AsyncFlags(s) && WorkFlags(s)
    requires s.mutex.Some? ==> Owns(s, s.mutex.value)
    requires i < |s.threads| && s.threads[i].Working?
    ensures Knows(s', i)
  {
  }

  lemma WorkKnowsOther(s: State, t: nat, p: WorkPoint, s': State, i: nat)
    requires i != t && At(s, t, Working(p)) && WorkStep(s, t, p, s')
    requires Owns(s, t) && Owns(s, i) && Knows(s, t) && Knows(s, i) && Held(s)
    requires InitFlags(s) && AsyncFlags(s) && WorkFlags(s)
    requires s.mutex.Some? ==> Owns(s, s.mutex.value)
    requires i < |s.threads| ==> !s.threads[i].Starting? && !s.threads[i].Working?
    ensures Knows(s', i)
  {
  }

  lemma WorkKeepsKnows(s: State, t: nat, p: WorkPoint, s': State, i: nat)
    requires At(s, t, Working(p)) && WorkStep(s, t, p, s')
    requires Owns(s, t) && Owns(s, i) && Knows(s, t) && Knows(s, i) && Held(s)
    requires InitFlags(s) && AsyncFlags(s) && WorkFlags(s)
    requires s.mutex.Some? ==> Owns(s, s.mutex.value)
    ensures Knows(s', i)
  {
    if i == t {
      WorkKnowsMover(s, t, p, s');
    } else if i < |s.threads| && s.threads[i].Starting? {
      WorkKnowsStarting(s, t, p, s', i);
    } else if i < |s.threads| && s.threads[i].Working? {
      WorkKnowsWorking(s, t, p, s', i);
    } else {
      WorkKnowsOther(s, t, p, s', i);
    }
  }

  lemma WorkKeepsFlags(s: State, t: nat, p: WorkPoint, s': State)
    requires At(s, t, Working(p)) && WorkStep(s, t, p, s')
    requires Owns(s, t) && Knows(s, t) && Held(s)
    requires InitFlags(s) && AsyncFlags(s) && WorkFlags(s)
    ensures InitFlags(s') && AsyncFlags(s') && WorkFlags(s')
  {
  }

  lemma WorkKeepsRequests(s: State, t: nat, p: WorkPoint, s': State)
    requires At(s, t, Working(p)) && WorkStep(s, t, p, s')
    requires Owns(s, t) && Knows(s, t) && Held(s) && Requests(s) && WorkFlags(s)
    ensures Requests(s')
  {
  }

  lemma StopOwnsMover(s: State, t: nat, p: ClearPoint, s': State)
    requires At(s, t, Clearing(p)) && ClearStep(s, t, p, s') && InStop(p) && !p.StopSignal?
    requires Owns(s, t) && Knows(s, t) && Held(s)
    ensures Owns(s', t) && Held(s')
  {
  }

  lemma StopOwnsOther(s: State, t: nat, p: ClearPoint, s': State, i: nat)
    requires i != t && At(s, t, Clearing(p)) && ClearStep(s, t, p, s') && InStop(p) && !p.StopSignal?
    requires Owns(s, t) && Owns(s, i) && Knows(s, t) && Held(s)
    ensures Owns(s', i)
  {
  }

  lemma StopKeepsOwns(s: State, t: nat, p: ClearPoint, s': State, i: nat)
    requires At(s, t, Clearing(p)) && ClearStep(s, t, p, s') && InStop(p) && !p.StopSignal?
    requires Owns(s, t) && Owns(s, i) && Knows(s, t) && Held(s)
    ensures Owns(s', i) && Held(s')
  {
    StopOwnsMover(s, t, p, s');
    if i != t {
      StopOwnsOther(s, t, p, s', i);
    }
  }

  lemma StopKnowsMover(s: State, t: nat, p: ClearPoint, s': State)
    requires At(s, t, Clearing(p)) && ClearStep(s, t, p, s') && InStop(p) && !p.StopSignal?
    requires Owns(s, t) && Knows(s, t) && Held(s)
    requires InitFlags(s) && AsyncFlags(s) && WorkFlags(s)
    requires s.mutex.Some? ==> Owns(s, s.mutex.value)
    ensures Knows(s', t)
  {
  }

  lemma StopKnowsOther(s: State, t: nat, p: ClearPoint, s': State, i: nat)
    requires i != t && At(s, t, Clearing(p)) && ClearStep(s, t, p, s') && InStop(p) && !p.StopSignal?
    requires Owns(s, t) && Owns(s, i) && Knows(s, t) && Knows(s, i) && Held(s)
    requires InitFlags(s) && AsyncFlags(s) && WorkFlags(s)
    requires s.mutex.Some? ==> Owns(s, s.mutex.value)
    ensures Knows(s', i)
  {
  }

  lemma StopKeepsKnows(s: State, t: nat, p: ClearPoint, s': State, i: nat)
    requires At(s, t, Clearing(p)) && ClearStep(s, t, p, s') && InStop(p) && !p.StopSignal?
    requires Owns(s, t) && Owns(s, i) && Knows(s, t) && Knows(s, i) && Held(s)
    requires InitFlags(s) && AsyncFlags(s) && WorkFlags(s)
    requires s.mutex.Some? ==> Owns(s, s.mutex.value)
    ensures Knows(s', i)
  {
    StopKnowsMover(s, t, p, s');
    if i != t {
      StopKnowsOther(s, t, p, s', i);
    }
  }

  lemma StopKeepsFlags(s: State, t: nat, p: ClearPoint, s': State)
    requires At(s, t, Clearing(p)) && ClearStep(s, t, p, s') && InStop(p) && !p.StopSignal?
    requires Owns(s, t) && Knows(s, t) && Held(s)
    requires InitFlags(s) && AsyncFlags(s) && WorkFlags(s)
    ensures InitFlags(s') && AsyncFlags(s') && WorkFlags(s')
  {
  }

  lemma StopKeepsRequests(s: State, t: nat, p: ClearPoint, s': State)
    requires At(s, t, Clearing(p)) && ClearStep(s, t, p, s') && InStop(p) && !p.StopSignal?
    requires Owns(s, t) && Knows(s, t) && Held(s) && Requests(s) && WorkFlags(s)
    ensures Requests(s')
  {
  }

  lemma ResetOwnsMover(s: State, t: nat, p: ClearPoint, s': State)
    requires At(s, t, Clearing(p)) && ClearStep(s, t, p, s') && !InStop(p)
    requires Owns(s, t) && Knows(s, t) && Held(s)
    ensures Owns(s', t) && Held(s')
  {
  }

  lemma ResetOwnsOther(s: State, t: nat, p: ClearPoint, s': State, i: nat)
    requires i != t && At(s, t, Clearing(p)) && ClearStep(s, t, p, s') && !InStop(p)
    requires Owns(s, t) && Owns(s, i) && Knows(s, t) && Held(s)
    ensures Owns(s', i)
  {
  }

  lemma ResetKeepsOwns(s: State, t: nat, p: ClearPoint, s': State, i: nat)
    requires At(s, t, Clearing(p)) && ClearStep(s, t, p, s') && !InStop(p)
    requires Owns(s, t) && Owns(s, i) && Knows(s, t) && Held(s)
    ensures Owns(s', i) && Held(s')
  {
    ResetOwnsMover(s, t, p, s');
    if i != t {
      ResetOwnsOther(s, t, p, s', i);
    }
  }

  lemma ResetKnowsMover(s: State, t: nat, p: ClearPoint, s': State)
    requires At(s, t, Clearing(p)) && ClearStep(s, t, p, s') && !InStop(p)
    requires Owns(s, t) && Knows(s, t) && Held(s)
    requires InitFlags(s) && AsyncFlags(s) && WorkFlags(s)
    requires s.mutex.Some? ==> Owns(s, s.mutex.value)
    ensures Knows(s', t)
  {
  }

  lemma ResetKnowsOther(s: State, t: nat, p: ClearPoint, s': State, i: nat)
    requires i != t && At(s, t, Clearing(p)) && ClearStep(s, t, p, s') && !InStop(p)
    requires Owns(s, t) && Owns(s, i) && Knows(s, t) && Knows(s, i) && Held(s)
    requires InitFlags(s) && AsyncFlags(s) && WorkFlags(s)
    requires s.mutex.Some? ==> Owns(s, s.mutex.value)
    ensures Knows(s', i)
  {
  }

  lemma ResetKeepsKnows(s: State, t: nat, p: ClearPoint, s': State, i: nat)
    requires At(s, t, Clearing(p)) && ClearStep(s, t, p, s') && !InStop(p)
    requires Owns(s, t) && Owns(s, i) && Knows(s, t) && Knows(s, i) && Held(s)
    requires InitFlags(s) && AsyncFlags(s) && WorkFlags(s)
    requires s.mutex.Some? ==> Owns(s, s.mutex.value)
    ensures Knows(s', i)
  {
    ResetKnowsMover(s, t, p, s');
    if i != t {
      ResetKnowsOther(s, t, p, s', i);
    }
  }

  lemma ResetKeepsFlags(s: State, t: nat, p: ClearPoint, s': State)
    requires At(s, t, Clearing(p)) && ClearStep(s, t, p, s') && !InStop(p)
    requires Owns(s, t) && Knows(s, t) && Held(s)
    requires InitFlags(s) && AsyncFlags(s) && WorkFlags(s)
    ensures InitFlags(s') && AsyncFlags(s') && WorkFlags(s')
  {
  }

  lemma ResetKeepsRequests(s: State, t: nat, p: ClearPoint, s': State)
    requires At(s, t, Clearing(p)) && ClearStep(s, t, p, s') && !InStop(p)
    requires Owns(s, t) && Knows(s, t) && Held(s) && Requests(s) && WorkFlags(s)
    ensures Requests(s')
  {
  }

  lemma SignalKeepsOwns(s: State, t: nat, pc: Pc, s': State, i: nat)
    requires (At(s, t, Posting(Signal)) && pc == Posting(PostUnlock))
             || (At(s, t, Clearing(StopSignal)) && pc == Clearing(StopUnlock))
    requires Signals(s, t, pc, s')
    requires Owns(s, t) && Owns(s, i) && Knows(s, t) && Held(s)
    ensures Owns(s', i) && Held(s')
  {
  }

  lemma SignalKeepsKnows(s: State, t: nat, pc: Pc, s': State, i: nat)
    requires (At(s, t, Posting(Signal)) && pc == Posting(PostUnlock))
             || (At(s, t, Clearing(StopSignal)) && pc == Clearing(StopUnlock))
    requires Signals(s, t, pc, s')
    requires Owns(s, t) && Owns(s, i) && Knows(s, t) && Knows(s, i) && Held(s)
    requires InitFlags(s) && AsyncFlags(s) && WorkFlags(s) && OneWaits(s)
    requires s.mutex.Some? ==> Owns(s, s.mutex.value)
    ensures Knows(s', i)
  {
    var waits := At(s, i, Working(Waiting));
  }

  lemma SignalKeepsFlags(s: State, t: nat, pc: Pc, s': State)
    requires (At(s, t, Posting(Signal)) && pc == Posting(PostUnlock))
             || (At(s, t, Clearing(StopSignal)) && pc == Clearing(StopUnlock))
    requires Signals(s, t, pc, s')
    requires Owns(s, t) && Knows(s, t) && Held(s)
    requires InitFlags(s) && AsyncFlags(s) && WorkFlags(s)
    ensures InitFlags(s') && AsyncFlags(s') && WorkFlags(s')
  {
  }

  lemma SignalKeepsRequests(s: State, t: nat, pc: Pc, s': State)
    requires (At(s, t, Posting(Signal)) && pc == Posting(PostUnlock))
             || (At(s, t, Clearing(StopSignal)) && pc == Clearing(StopUnlock))
    requires Signals(s, t, pc, s')
    requires Owns(s, t) && Knows(s, t) && Held(s) && Requests(s) && WorkFlags(s)
    ensures Requests(s')
  {
  }

  lemma InitKeeps(s: State, t: nat, p: InitPoint, a: bool, s': State)
    requires Inv(s) && At(s, t, Initialising(p, a)) && InitStep(s, t, p, a, s')
    ensures Inv(s')
  {
    assert Owns(s, t) && Knows(s, t) && (s.mutex.Some? ==> Owns(s, s.mutex.value));
    InitKeepsFlags(s, t, p, a, s');
    InitKeepsRequests(s, t, p, a, s');
    InitKeepsOwns(s, t, p, a, s', t);
    forall i: nat ensures Owns(s', i) && Knows(s', i) {
      assert Owns(s, i) && Knows(s, i);
      InitKeepsOwns(s, t, p, a, s', i);
      InitKeepsKnows(s, t, p, a, s', i);
    }
  }

  lemma AsyncKeeps(s: State, t: nat, p: AsyncPoint, s': State)
    requires Inv(s) && At(s, t, Starting(p)) && AsyncStep(s, t, p, s')
    ensures Inv(s')
  {
    assert Owns(s, t) && Knows(s, t) && (s.mutex.Some? ==> Owns(s, s.mutex.value));
    AsyncKeepsFlags(s, t, p, s');
    AsyncKeepsRequests(s, t, p, s');
    AsyncKeepsOwns(s, t, p, s', t);
    forall i: nat ensures Owns(s', i) && Knows(s', i) {
      assert Owns(s, i) && Knows(s, i);
      AsyncKeepsOwns(s, t, p, s', i);
      AsyncKeepsKnows(s, t, p, s', i);
    }
  }

  lemma PostKeeps(s: State, t: nat, p: PostPoint, s': State)
    requires Inv(s) && At(s, t, Posting(p)) && PostStep(s, t, p, s') && !p.Signal?
    ensures Inv(s')
  {
    assert Owns(s, t) && Knows(s, t) && (s.mutex.Some? ==> Owns(s, s.mutex.value));
    PostKeepsFlags(s, t, p, s');
    PostKeepsRequests(s, t, p, s');
    PostKeepsOwns(s, t, p, s', t);
    forall i: nat ensures Owns(s', i) && Knows(s', i) {
      assert Owns(s, i) && Knows(s, i);
      PostKeepsOwns(s, t, p, s', i);
      PostKeepsKnows(s, t, p, s', i);
    }
  }

  lemma WorkKeeps(s: State, t: nat, p: WorkPoint, s': State)
    requires Inv(s) && At(s, t, Working(p)) && WorkStep(s, t, p, s')
    ensures Inv(s')
  {
    assert Owns(s, t) && Knows(s, t) && (s.mutex.Some? ==> Owns(s, s.mutex.value));
    WorkKeepsFlags(s, t, p, s');
    WorkKeepsRequests(s, t, p, s');
    WorkKeepsOwns(s, t, p, s', t);
    forall i: nat ensures Owns(s', i) && Knows(s', i) {
      assert Owns(s, i) && Knows(s, i);
      WorkKeepsOwns(s, t, p, s', i);
      WorkKeepsKnows(s, t, p, s', i);
    }
  }

  lemma StopKeeps(s: State, t: nat, p: ClearPoint, s': State)
    requires Inv(s) && At(s, t, Clearing(p)) && ClearStep(s, t, p, s') && InStop(p) && !p.StopSignal?
    ensures Inv(s')
  {
    assert Owns(s, t) && Knows(s, t) && (s.mutex.Some? ==> Owns(s, s.mutex.value));
    StopKeepsFlags(s, t, p, s');
    StopKeepsRequests(s, t, p, s');
    StopKeepsOwns(s, t, p, s', t);
    forall i: nat ensures Owns(s', i) && Knows(s', i) {
      assert Owns(s, i) && Knows(s, i);
      StopKeepsOwns(s, t, p, s', i);
      StopKeepsKnows(s, t, p, s', i);
    }
  }

  lemma ResetKeeps(s: State, t: nat, p: ClearPoint, s': State)
    requires Inv(s) && At(s, t, Clearing(p)) && ClearStep(s, t, p, s') && !InStop(p)
    ensures Inv(s')
  {
    assert Owns(s, t) && Knows(s, t) && (s.mutex.Some? ==> Owns(s, s.mutex.value));
    ResetKeepsFlags(s, t, p, s');
    ResetKeepsRequests(s, t, p, s');
    ResetKeepsOwns(s, t, p, s', t);
    forall i: nat ensures Owns(s', i) && Knows(s', i) {
      assert Owns(s, i) && Knows(s, i);
      ResetKeepsOwns(s, t, p, s', i);
      ResetKeepsKnows(s, t, p, s', i);
    }
  }

  lemma SignalKeeps(s: State, t: nat, pc: Pc, s': State)
    requires Inv(s) && t < |s.threads| && Signals(s, t, pc, s')
    requires (At(s, t, Posting(Signal)) && pc == Posting(PostUnlock))
             || (At(s, t, Clearing(StopSignal)) && pc == Clearing(StopUnlock))
    ensures Inv(s')
  {
    assert Owns(s, t) && Knows(s, t) && (s.mutex.Some? ==> Owns(s, s.mutex.value));
    WorkerWaits(s);
    SignalKeepsFlags(s, t, pc, s');
    SignalKeepsRequests(s, t, pc, s');
    SignalKeepsOwns(s, t, pc, s', t);
    forall i: nat ensures Owns(s', i) && Knows(s', i) {
      assert Owns(s, i) && Knows(s, i);
      SignalKeepsOwns(s, t, pc, s', i);
      SignalKeepsKnows(s, t, pc, s', i);
    }
  }

  lemma PostingKeeps(s: State, t: nat, p: PostPoint, s': State)
    requires Inv(s) && At(s, t, Posting(p)) && PostStep(s, t, p, s')
    ensures Inv(s')
  {
    if p.Signal? {
      SignalKeeps(s, t, Posting(PostUnlock), s');
    } else {
      PostKeeps(s, t, p, s');
    }
  }

  lemma ClearingKeeps(s: State, t: nat, p: ClearPoint, s': State)
    requires Inv(s) && At(s, t, Clearing(p)) && ClearStep(s, t, p, s')
    ensures Inv(s')
  {
    if p.StopSignal? {
      SignalKeeps(s, t, Clearing(StopUnlock), s');
    } else if InStop(p) {
      StopKeeps(s, t, p, s');
    } else {
      ResetKeeps(s, t, p, s');
    }
  }

  lemma StepKeeps(s: State, t: nat, s': State)
    requires Inv(s) && Step(s, t, s')
    ensures Inv(s')
  {
    match s.threads[t]
    case Initialising(p, a) => InitKeeps(s, t, p, a, s');
    case Starting(p) => AsyncKeeps(s, t, p, s');
    case Posting(p) => PostingKeeps(s, t, p, s');
    case Working(p) => WorkKeeps(s, t, p, s');
    case Clearing(p) => ClearingKeeps(s, t, p, s');
  }

  lemma ArrivalKeeps(s: State, pc: Pc, s': State)
    requires Inv(s) && Arrives(s, pc, s')
    ensures Inv(s')
  {
    forall i: nat ensures Owns(s', i) && Knows(s', i) {
      assert Owns(s, i) && Knows(s, i);
      ArrivalKeepsThread(s, pc, s', i);
    }
  }

  lemma ArrivalKeepsThread(s: State, pc: Pc, s': State, i: nat)
    requires Held(s) && Owns(s, i) && Knows(s, i) && Arrives(s, pc, s') && WorkFlags(s)
    ensures Owns(s', i) && Knows(s', i)
  {
  }

  lemma WakingKeeps(s: State, w: nat, s': State)
    requires Inv(s) && Wakes(s, w, s')
    ensures Inv(s')
  {
    assert Owns(s, w);
    forall i: nat ensures Owns(s', i) && Knows(s', i) {
      assert Owns(s, i) && Knows(s, i);
      WakingKeepsOwns(s, w, s', i);
      WakingKeepsKnows(s, w, s', i);
    }
  }

  lemma WakingKeepsOwns(s: State, w: nat, s': State, i: nat)
    requires Held(s) && Owns(s, i) && Owns(s, w) && Wakes(s, w, s')
    ensures Owns(s', i)
  {
  }

  lemma WakingKeepsKnows(s: State, w: nat, s': State, i: nat)
    requires Held(s) && Knows(s, i) && Owns(s, w) && Wakes(s, w, s')
    ensures Knows(s', i)
  {
  }

  lemma NextKeeps(s: State, s': State)
    requires Inv(s) && Next(s, s')
    ensures Inv(s')
  {
    if pc: Pc :| Arrives(s, pc, s') {
      ArrivalKeeps(s, pc, s');
    } else if w: nat :| Wakes(s, w, s') {
      WakingKeeps(s, w, s');
    } else {
      var t: nat :| Step(s, t, s');
      StepKeeps(s, t, s');
    }
  }

  /** Every state of every run keeps the invariant. */
  lemma {:induction false} Reachable(run: seq<State>, k: nat)
    requires IsRun(run) && k < |run|
    ensures Inv(run[k])
  {
    if k > 0 {
      Reachable(run, k - 1);
      assert Follows(run, k);
      NextKeeps(run[k - 1], run[k]);
    }
  }
}
