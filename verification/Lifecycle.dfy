/** The thread life cycle of the blocking engine (zcm/blocking.cpp): user threads calling start,
    handle, publish, pause, resume and stop(true), and the handler, receiver and sender threads those
    calls spawn and join, as a step system. A step is what one thread does under one mutex; steps of
    different threads interleave freely. Waits on the queues end only when the queue is disabled or a
    message is there (zcm/util/threadsafe_queue.hpp); messages come in by steps of the environment. */
module Lifecycle {
  import opened Options
  import opened Threads

  type UserId = nat
  type ThreadId = nat

  datatype RecvMode = ModeNone | ModeSpawn | ModeHandle

  /** Where a user thread stands inside a call. Before StartSpawning and HandleSpawning it holds
      recvModeMutex, there it holds the state mutex; stop holds recvModeMutex throughout; a handle call
      that waits for a message holds dispOneMutex or waits for it. */
  datatype UserPc =
    | StartLocking | StartSpawning
    | HandleLocking | HandleSpawning | HandleWanting | HandleInTop
    | StopHandler | JoinHandler | MarkHandler
    | StopReceiver | JoinReceiver | MarkReceiver
    | StopSender | JoinSender | MarkSender
    | StopFinishing

  /** hndlThreadFunc: Looping waits on hndlPauseCond, Acquiring on dispOneMutex, InTop on the queue. */
  datatype HandlerPc = Begin | Looping | Acquiring | InTop | Closing | Joining | Closed | HandlerDone

  /** recvThreadFunc: Busy is the transport's receive call with its timeout, Blocked the push. And
      sendThreadFunc: Busy is not used, Blocked is the wait in top. */
  datatype WorkerPc = Checking | Busy | Blocked | Exiting | WorkerDone

  datatype DispOwner = Nobody | ByUser(u: UserId) | ByHandler(h: ThreadId)

  /** The sending side: sendThreadState, sendThread, the threads that exist and are not joined, and
      the queue. */
  datatype Sending = Sending(
    state: ThreadState, thread: Option<ThreadId>, threads: map<ThreadId, WorkerPc>, on: bool, queued: nat)

  datatype State = State(
    mode: RecvMode,
    hndlState: ThreadState,
    recvState: ThreadState,
    modeOwner: Option<UserId>,          // recvModeMutex
    hndlOwner: Option<UserId>,          // hndlStateMutex, where it is held across steps
    recvOwner: Option<UserId>,          // recvStateMutex, where it is held across steps
    dispOwner: DispOwner,               // dispOneMutex
    users: map<UserId, UserPc>,
    handlers: map<ThreadId, HandlerPc>, // every handler thread that exists and is not joined
    receivers: map<ThreadId, WorkerPc>,
    hndlThread: Option<ThreadId>,       // the std::thread objects: None is not joinable
    recvThread: Option<ThreadId>,
    recvOn: bool,                       // recvQueue is enabled
    recvRoom: nat,                      // free places and messages in recvQueue
    recvQueued: nat,
    paused: bool,
    tx: Sending,
    aborted: bool)                      // a joinable object was overwritten or a non-joinable one joined

  datatype Step =
    | Start(u: UserId) | StartLock(u: UserId) | StartSpawn(u: UserId, t: ThreadId)
    | Handle(u: UserId) | HandleLock(u: UserId) | HandleSpawn(u: UserId, t: ThreadId)
    | HandleAcquire(u: UserId) | HandleReturn(u: UserId)
    | Publish(t: ThreadId) | Pause | Resume
    | Stop(u: UserId) | StopNext(u: UserId)
    | HandlerStep(h: ThreadId, t: ThreadId)
    | ReceiverStep(r: ThreadId) | Arrive(r: ThreadId)
    | SenderStep(d: ThreadId)

  predicate Init(s: State) {
    && s.mode == ModeNone && s.hndlState == Stopped && s.recvState == Stopped
    && s.modeOwner == None && s.hndlOwner == None && s.recvOwner == None && s.dispOwner == Nobody
    && s.users == map[] && s.handlers == map[] && s.receivers == map[]
    && s.hndlThread == None && s.recvThread == None && !s.aborted
    && s.tx.state == Stopped && s.tx.thread == None && s.tx.threads == map[]
  }

  /* ---------- spawning and joining ---------- */

  /** hndlThread = thread{...}: overwriting a joinable object terminates the program. */
  function SpawnHandler(s: State, t: ThreadId): State {
    s.(aborted := s.aborted || s.hndlThread.Some?, hndlState := Running, recvOn := true,
       hndlThread := Some(t), handlers := s.handlers[t := Begin])
  }

  function SpawnReceiver(s: State, t: ThreadId): State {
    s.(aborted := s.aborted || s.recvThread.Some?, recvState := Running,
       recvThread := Some(t), receivers := s.receivers[t := Checking])
  }

  /** A join returns when its thread is done; joining an object without a thread throws. */
  predicate HandlerJoinable(s: State) {
    s.hndlThread == None || (s.hndlThread.value in s.handlers && s.handlers[s.hndlThread.value] == HandlerDone)
  }

  predicate Joinable(thread: Option<ThreadId>, workers: map<ThreadId, WorkerPc>) {
    thread == None || (thread.value in workers && workers[thread.value] == WorkerDone)
  }

  function JoinHandlerThread(s: State): State {
    if s.hndlThread == None then s.(aborted := true)
    else s.(hndlThread := None, handlers := s.handlers - {s.hndlThread.value})
  }

  function JoinReceiverThread(s: State): State {
    if s.recvThread == None then s.(aborted := true)
    else s.(recvThread := None, receivers := s.receivers - {s.recvThread.value})
  }

  /* ---------- steps ---------- */

  predicate StopEnabled(s: State, pc: UserPc) {
    match pc
    case StopHandler => s.hndlOwner == None
    case JoinHandler => HandlerJoinable(s)
    case MarkHandler => s.hndlOwner == None
    case StopReceiver => s.recvOwner == None
    case JoinReceiver => Joinable(s.recvThread, s.receivers)
    case MarkReceiver => s.recvOwner == None
    case JoinSender => Joinable(s.tx.thread, s.tx.threads)
    case StopSender => true
    case MarkSender => true
    case StopFinishing => true
    case _ => false
  }

  /** top() returns: the queue is disabled or has a message. */
  predicate TopReturns(s: State) {
    !s.recvOn || s.recvQueued > 0
  }

  predicate HandlerEnabled(s: State, pc: HandlerPc, t: ThreadId) {
    match pc
    case Begin => s.recvOwner == None && t !in s.receivers
    case Looping => s.hndlOwner == None && ((!s.paused && s.recvOn) || s.hndlState == Halting)
    case Acquiring => s.dispOwner == Nobody
    case InTop => s.hndlOwner == None && TopReturns(s)
    case Closing => s.recvOwner == None
    case Joining => Joinable(s.recvThread, s.receivers)
    case Closed => s.hndlOwner == None
    case HandlerDone => false
  }

  predicate ReceiverEnabled(s: State, pc: WorkerPc) {
    match pc
    case Checking => s.recvOwner == None
    case Busy => true
    case Blocked => !s.recvOn || s.recvRoom > 0
    case Exiting => s.recvOwner == None
    case WorkerDone => false
  }

  predicate SenderEnabled(s: State, pc: WorkerPc) {
    match pc
    case Checking => (!s.paused && s.tx.on) || s.tx.state == Halting
    case Busy => false
    case Blocked => !s.tx.on || s.tx.queued > 0
    case Exiting => true
    case WorkerDone => false
  }

  /** Whether a step can happen in a state. */
  predicate Enabled(s: State, step: Step) {
    match step
    case Start(u) => u !in s.users && s.modeOwner == None
    case StartLock(u) => u in s.users && s.users[u] == StartLocking && s.hndlOwner == None
    case StartSpawn(u, t) => u in s.users && s.users[u] == StartSpawning && t !in s.handlers
    case Handle(u) => u !in s.users && s.modeOwner == None
    case HandleLock(u) => u in s.users && s.users[u] == HandleLocking && s.recvOwner == None
    case HandleSpawn(u, t) => u in s.users && s.users[u] == HandleSpawning && t !in s.receivers
    case HandleAcquire(u) => u in s.users && s.users[u] == HandleWanting && s.dispOwner == Nobody
    case HandleReturn(u) => u in s.users && s.users[u] == HandleInTop && TopReturns(s)
    case Publish(t) => t !in s.tx.threads
    case Pause => true
    case Resume => true
    case Stop(u) => u !in s.users && s.modeOwner == None
    case StopNext(u) => u in s.users && StopEnabled(s, s.users[u])
    case HandlerStep(h, t) => h in s.handlers && HandlerEnabled(s, s.handlers[h], t)
    case ReceiverStep(r) => r in s.receivers && ReceiverEnabled(s, s.receivers[r])
    case Arrive(r) => r in s.receivers && s.receivers[r] == Busy
    case SenderStep(d) => d in s.tx.threads && SenderEnabled(s, s.tx.threads[d])
  }

  /** Where a stop goes from a position, before it returns. */
  function StopTarget(s: State, pc: UserPc): UserPc {
    match pc
    case StopHandler => if s.hndlState == Running then JoinHandler else StopSender
    case JoinHandler => MarkHandler
    case StopReceiver => if s.recvState == Running then JoinReceiver else StopSender
    case JoinReceiver => MarkReceiver
    case StopSender => if s.tx.state == Running then JoinSender else StopFinishing
    case JoinSender => MarkSender
    case MarkSender => StopFinishing
    case _ => StopSender
  }

  predicate SameThreads(s: State, n: State) {
    && n.handlers == s.handlers && n.hndlThread == s.hndlThread && n.receivers == s.receivers && n.recvThread == s.recvThread
    && n.tx.threads == s.tx.threads && n.tx.thread == s.tx.thread
  }

  /** The part of stop that ends the handler thread. */
  function ApplyStopHandler(s: State, u: UserId): (n: State)
    requires u in s.users && s.users[u] in {StopHandler, JoinHandler, MarkHandler}
    ensures n.hndlOwner == s.hndlOwner && n.recvOwner == s.recvOwner && n.dispOwner == s.dispOwner
    ensures n.users == s.users[u := StopTarget(s, s.users[u])] && n.modeOwner == s.modeOwner && n.mode == s.mode
    ensures s.users[u] !in {JoinHandler, JoinReceiver, JoinSender} ==> SameThreads(s, n)
  {
    match s.users[u]
    case StopHandler =>
      if s.hndlState == Running then s.(hndlState := Halting, recvOn := false, users := s.users[u := JoinHandler])
      else s.(users := s.users[u := StopSender])
    case JoinHandler => JoinHandlerThread(s).(users := s.users[u := MarkHandler])
    case MarkHandler => s.(hndlState := Stopped, users := s.users[u := StopSender])
  }

  /** The part that ends the receiver thread of handle calls. */
  function ApplyStopReceiver(s: State, u: UserId): (n: State)
    requires u in s.users && s.users[u] in {StopReceiver, JoinReceiver, MarkReceiver}
    ensures n.hndlOwner == s.hndlOwner && n.recvOwner == s.recvOwner && n.dispOwner == s.dispOwner
    ensures n.users == s.users[u := StopTarget(s, s.users[u])] && n.modeOwner == s.modeOwner && n.mode == s.mode
    ensures s.users[u] !in {JoinHandler, JoinReceiver, JoinSender} ==> SameThreads(s, n)
  {
    match s.users[u]
    case StopReceiver =>
      if s.recvState == Running then s.(recvState := Halting, recvOn := false, users := s.users[u := JoinReceiver])
      else s.(users := s.users[u := StopSender])
    case JoinReceiver => JoinReceiverThread(s).(users := s.users[u := MarkReceiver])
    case MarkReceiver => s.(recvState := Stopped, users := s.users[u := StopSender])
  }

  /** The part that ends the sender thread. */
  function StopTx(tx: Sending, pc: UserPc): Sending {
    match pc
    case StopSender => if tx.state == Running then tx.(state := Halting, on := false) else tx
    case JoinSender => if tx.thread == None then tx else tx.(thread := None, threads := tx.threads - {tx.thread.value})
    case _ => tx.(state := Stopped)
  }

  function ApplyStopSender(s: State, u: UserId): (n: State)
    requires u in s.users && s.users[u] in {StopSender, JoinSender, MarkSender}
    ensures n.hndlOwner == s.hndlOwner && n.recvOwner == s.recvOwner && n.dispOwner == s.dispOwner
    ensures n.users == s.users[u := StopTarget(s, s.users[u])] && n.modeOwner == s.modeOwner && n.mode == s.mode
    ensures s.users[u] != JoinSender ==> SameThreads(s, n)
  {
    s.(tx := StopTx(s.tx, s.users[u]), users := s.users[u := StopTarget(s, s.users[u])],
       aborted := s.aborted || (s.users[u] == JoinSender && s.tx.thread == None))
  }

  /** One step of stop(true) by user u, who holds recvModeMutex. */
  function ApplyStop(s: State, u: UserId): (n: State)
    requires u in s.users && StopEnabled(s, s.users[u])
  {
    var pc := s.users[u];
    if pc in {StopHandler, JoinHandler, MarkHandler} then ApplyStopHandler(s, u)
    else if pc in {StopReceiver, JoinReceiver, MarkReceiver} then ApplyStopReceiver(s, u)
    else if pc in {StopSender, JoinSender, MarkSender} then ApplyStopSender(s, u)
    else s.(mode := ModeNone, modeOwner := None, users := s.users - {u})
  }

  /** dispatchOneMessage behind top(): a message is taken unless the queue is disabled, the engine is
      paused or the handler halts. */
  function Dispatched(s: State): State {
    if s.recvOn && s.recvQueued > 0 && !s.paused && s.hndlState != Halting
    then s.(recvQueued := s.recvQueued - 1, recvRoom := s.recvRoom + 1) else s
  }

  /** One step of handler thread h; t names the receiver it spawns. */
  function ApplyHandler(s: State, h: ThreadId, t: ThreadId): (n: State)
    requires h in s.handlers && HandlerEnabled(s, s.handlers[h], t)
    ensures n.users == s.users && n.modeOwner == s.modeOwner && n.mode == s.mode && (n.recvOn ==> s.recvOn)
  {
    match s.handlers[h]
    case Begin => SpawnReceiver(s, t).(handlers := s.handlers[h := Looping])
    case Looping => s.(handlers := s.handlers[h := if s.hndlState == Halting then Closing else Acquiring])
    case Acquiring => s.(dispOwner := ByHandler(h), handlers := s.handlers[h := InTop])
    case InTop => Dispatched(s).(dispOwner := Nobody, handlers := s.handlers[h := Looping])
    case Closing => s.(recvState := Halting, recvOn := false, handlers := s.handlers[h := Joining])
    case Joining => JoinReceiverThread(s).(handlers := s.handlers[h := Closed])
    case Closed => s.(hndlState := Halted, handlers := s.handlers[h := HandlerDone])
  }

  function ApplyReceiver(s: State, r: ThreadId): (n: State)
    requires r in s.receivers && ReceiverEnabled(s, s.receivers[r])
    ensures n.users == s.users && n.modeOwner == s.modeOwner && n.mode == s.mode && n.recvOn == s.recvOn
  {
    match s.receivers[r]
    case Checking => s.(receivers := s.receivers[r := if s.recvState == Halting then Exiting else Busy])
    case Busy => s.(receivers := s.receivers[r := Checking])
    case Blocked =>
      (if s.recvRoom > 0 then s.(recvRoom := s.recvRoom - 1, recvQueued := s.recvQueued + 1) else s)
        .(receivers := s.receivers[r := Checking])
    case Exiting => s.(recvState := Halted, receivers := s.receivers[r := WorkerDone])
  }

  function ApplySender(tx: Sending, d: ThreadId): Sending
    requires d in tx.threads && tx.threads[d] in {Checking, Blocked, Exiting}
  {
    match tx.threads[d]
    case Checking => tx.(threads := tx.threads[d := if tx.state == Halting then Exiting else Blocked])
    case Blocked => tx.(threads := tx.threads[d := Checking], queued := if tx.on && tx.queued > 0 then tx.queued - 1 else tx.queued)
    case Exiting => tx.(state := Halted, threads := tx.threads[d := WorkerDone])
  }

  /** publish: a stopped sender is started; the message is queued. */
  function ApplyPublish(s: State, t: ThreadId): State {
    var tx := s.tx.(queued := s.tx.queued + 1);
    if s.tx.state == Stopped
    then s.(aborted := s.aborted || s.tx.thread.Some?,
            tx := tx.(state := Running, thread := Some(t), threads := s.tx.threads[t := Checking]))
    else s.(tx := tx)
  }

  function Apply(s: State, step: Step): State
    requires Enabled(s, step)
  {
    match step
    case Start(u) =>
      if s.mode != ModeNone then s
      else s.(mode := ModeSpawn, modeOwner := Some(u), users := s.users[u := StartLocking])
    case StartLock(u) => s.(hndlOwner := Some(u), modeOwner := None, users := s.users[u := StartSpawning])
    case StartSpawn(u, t) => SpawnHandler(s, t).(hndlOwner := None, users := s.users - {u})
    case Handle(u) =>
      (match s.mode
       case ModeSpawn => s
       case ModeHandle => s.(users := s.users[u := HandleWanting])
       case ModeNone => s.(mode := ModeHandle, modeOwner := Some(u), users := s.users[u := HandleLocking]))
    case HandleLock(u) => s.(recvOwner := Some(u), modeOwner := None, users := s.users[u := HandleSpawning])
    case HandleSpawn(u, t) => SpawnReceiver(s, t).(recvOn := true, recvOwner := None, users := s.users[u := HandleWanting])
    case HandleAcquire(u) => s.(dispOwner := ByUser(u), users := s.users[u := HandleInTop])
    case HandleReturn(u) => Dispatched(s).(dispOwner := Nobody, users := s.users - {u})
    case Publish(t) => ApplyPublish(s, t)
    case Pause => s.(paused := true)
    case Resume => s.(paused := false)
    case Stop(u) =>
      s.(modeOwner := Some(u),
         users := s.users[u := match s.mode case ModeSpawn => StopHandler case ModeHandle => StopReceiver case ModeNone => StopSender])
    case StopNext(u) => ApplyStop(s, u)
    case HandlerStep(h, t) => ApplyHandler(s, h, t)
    case ReceiverStep(r) => ApplyReceiver(s, r)
    case Arrive(r) => s.(receivers := s.receivers[r := Blocked])
    case SenderStep(d) => s.(tx := ApplySender(s.tx, d))
  }

  predicate CanRun(s: State, steps: seq<Step>)
    decreases |steps|
  {
    steps == [] || (Enabled(s, steps[0]) && CanRun(Apply(s, steps[0]), steps[1..]))
  }

  function Run(s: State, steps: seq<Step>): State
    requires CanRun(s, steps)
    decreases |steps|
  {
    if steps == [] then s else Run(Apply(s, steps[0]), steps[1..])
  }

  /* ---------- the invariant ---------- */

  predicate Waiting(pc: UserPc) {
    pc == HandleWanting || pc == HandleInTop
  }

  /** Who holds which mutex across steps. */
  ghost predicate Owners(users: map<UserId, UserPc>, modeOwner: Option<UserId>, hndlOwner: Option<UserId>, recvOwner: Option<UserId>) {
    && (forall u | u in users ::
          && (users[u] == StartSpawning <==> hndlOwner == Some(u))
          && (users[u] == HandleSpawning <==> recvOwner == Some(u))
          && (users[u] != StartSpawning && users[u] != HandleSpawning && !Waiting(users[u]) <==> modeOwner == Some(u)))
    && (modeOwner.Some? ==> modeOwner.value in users)
    && (hndlOwner.Some? ==> hndlOwner.value in users)
    && (recvOwner.Some? ==> recvOwner.value in users)
  }

  ghost predicate DispInv(users: map<UserId, UserPc>, handlers: map<ThreadId, HandlerPc>, dispOwner: DispOwner) {
    && (forall u | u in users :: users[u] == HandleInTop <==> dispOwner == ByUser(u))
    && (forall h | h in handlers :: handlers[h] == InTop <==> dispOwner == ByHandler(h))
    && (dispOwner.ByUser? ==> dispOwner.u in users)
    && (dispOwner.ByHandler? ==> dispOwner.h in handlers)
  }

  /** What the holder of recvModeMutex is doing. */
  function Doing(users: map<UserId, UserPc>, modeOwner: Option<UserId>): (r: Option<UserPc>) {
    if modeOwner.Some? && modeOwner.value in users then Some(users[modeOwner.value]) else None
  }

  /** The threads that exist are those the thread object holds. */
  ghost predicate Held<T>(threads: map<ThreadId, T>, thread: Option<ThreadId>) {
    forall t :: t in threads <==> thread == Some(t)
  }

  /** The handler's own position decides what it knows of its state and of its receiver. */
  predicate HandlerAgrees(pc: HandlerPc, hndlState: ThreadState, recvThread: Option<ThreadId>, recvState: ThreadState) {
    match pc
    case Begin => hndlState in {Running, Halting} && recvThread == None
    case Looping => hndlState in {Running, Halting} && recvThread.Some? && recvState == Running
    case Acquiring => hndlState in {Running, Halting} && recvThread.Some? && recvState == Running
    case InTop => hndlState in {Running, Halting} && recvThread.Some? && recvState == Running
    case Closing => hndlState == Halting && recvThread.Some? && recvState == Running
    case Joining => hndlState == Halting && recvThread.Some? && recvState in {Halting, Halted}
    case Closed => hndlState == Halting && recvThread == None
    case HandlerDone => hndlState == Halted && recvThread == None
  }

  predicate WorkerAgrees(pc: WorkerPc, state: ThreadState) {
    match pc
    case Checking => state in {Running, Halting}
    case Busy => state in {Running, Halting}
    case Blocked => state in {Running, Halting}
    case Exiting => state == Halting
    case WorkerDone => state == Halted
  }

  /** The receiving side, by mode and by what the holder of recvModeMutex is doing. */
  predicate ModeInv(mode: RecvMode, doing: Option<UserPc>, hndlOwner: Option<UserId>, recvOwner: Option<UserId>,
                    hndlThread: Option<ThreadId>, hndlState: ThreadState, recvThread: Option<ThreadId>, recvState: ThreadState,
                    recvOn: bool)
  {
    match mode
    case ModeNone =>
      hndlThread == None && recvThread == None && hndlOwner == None && recvOwner == None
      && (doing.Some? ==> doing.value in {StopSender, JoinSender, MarkSender, StopFinishing})
    case ModeSpawn =>
      recvOwner == None
      && (match doing
          case None => if hndlOwner.Some? then hndlThread == None && recvThread == None else hndlThread.Some? && hndlState == Running
          case Some(StopHandler) => if hndlOwner.Some? then hndlThread == None && recvThread == None else hndlThread.Some? && hndlState == Running
          case Some(JoinHandler) => hndlOwner == None && hndlThread.Some? && hndlState in {Halting, Halted} && !recvOn
          case Some(pc) => hndlOwner == None && hndlThread == None && recvThread == None
                           && (pc == StartLocking || (pc in {MarkHandler, StopSender, JoinSender, MarkSender, StopFinishing} && !recvOn)))
    case ModeHandle =>
      hndlOwner == None && hndlThread == None
      && (match doing
          case None => if recvOwner.Some? then recvThread == None else recvThread.Some? && recvState == Running
          case Some(StopReceiver) => if recvOwner.Some? then recvThread == None else recvThread.Some? && recvState == Running
          case Some(JoinReceiver) => recvOwner == None && recvThread.Some? && recvState in {Halting, Halted} && !recvOn
          case Some(pc) => recvOwner == None && recvThread == None
                           && (pc == HandleLocking || (pc in {MarkReceiver, StopSender, JoinSender, MarkSender, StopFinishing} && !recvOn)))
  }

  /** The sender thread against sendThreadState and what a stop in progress is doing. */
  ghost predicate SenderInv(doing: Option<UserPc>, tx: Sending) {
    && Held(tx.threads, tx.thread)
    && (tx.thread.Some? ==> tx.threads[tx.thread.value] != Busy && WorkerAgrees(tx.threads[tx.thread.value], tx.state))
    && match doing
       case Some(JoinSender) => tx.thread.Some? && tx.state in {Halting, Halted} && !tx.on
       case Some(MarkSender) => tx.thread == None && tx.state == Halted
       case _ => if tx.thread.Some? then tx.state == Running else tx.state == Stopped
  }

  ghost predicate ThreadsInv(handlers: map<ThreadId, HandlerPc>, hndlThread: Option<ThreadId>, hndlState: ThreadState,
                             receivers: map<ThreadId, WorkerPc>, recvThread: Option<ThreadId>, recvState: ThreadState)
  {
    && Held(handlers, hndlThread) && Held(receivers, recvThread)
    && (hndlThread.Some? ==> HandlerAgrees(handlers[hndlThread.value], hndlState, recvThread, recvState))
    && (recvThread.Some? ==> WorkerAgrees(receivers[recvThread.value], recvState))
  }

  ghost predicate ModeOk(s: State) {
    ModeInv(s.mode, Doing(s.users, s.modeOwner), s.hndlOwner, s.recvOwner, s.hndlThread, s.hndlState, s.recvThread, s.recvState, s.recvOn)
  }

  ghost predicate Inv(s: State) {
    && !s.aborted
    && Owners(s.users, s.modeOwner, s.hndlOwner, s.recvOwner)
    && DispInv(s.users, s.handlers, s.dispOwner)
    && ThreadsInv(s.handlers, s.hndlThread, s.hndlState, s.receivers, s.recvThread, s.recvState) && ModeOk(s)
    && SenderInv(Doing(s.users, s.modeOwner), s.tx)
  }

  lemma InitInv(s: State)
    requires Init(s)
    ensures Inv(s)
  {
  }

  /* ---------- moves of users ---------- */

  /** Positions at which a user holds recvModeMutex. */
  predicate HoldsMode(pc: UserPc) {
    pc != StartSpawning && pc != HandleSpawning && !Waiting(pc)
  }

  lemma UserDoing(users: map<UserId, UserPc>, mo: Option<UserId>, ho: Option<UserId>, ro: Option<UserId>, u: UserId)
    requires Owners(users, mo, ho, ro) && u in users
    ensures HoldsMode(users[u]) ==> mo == Some(u) && Doing(users, mo) == Some(users[u])
    ensures users[u] == StartSpawning ==> ho == Some(u)
    ensures users[u] == HandleSpawning ==> ro == Some(u)
    ensures !HoldsMode(users[u]) ==> mo != Some(u)
    ensures users[u] != StartSpawning ==> ho != Some(u)
    ensures users[u] != HandleSpawning ==> ro != Some(u)
  {
  }

  /** A call that takes recvModeMutex, or moves on while it holds it. */
  lemma OwnersMove(users: map<UserId, UserPc>, mo: Option<UserId>, ho: Option<UserId>, ro: Option<UserId>, u: UserId, pc: UserPc)
    requires Owners(users, mo, ho, ro) && HoldsMode(pc) && (if u in users then HoldsMode(users[u]) else mo == None)
    ensures Owners(users[u := pc], Some(u), ho, ro) && Doing(users[u := pc], Some(u)) == Some(pc)
  {
  }

  /** It passes from recvModeMutex to a state mutex. */
  lemma OwnersPass(users: map<UserId, UserPc>, mo: Option<UserId>, ho: Option<UserId>, ro: Option<UserId>, u: UserId)
    requires Owners(users, mo, ho, ro) && u in users && HoldsMode(users[u])
    ensures ho == None ==> Owners(users[u := StartSpawning], None, Some(u), ro)
    ensures ro == None ==> Owners(users[u := HandleSpawning], None, ho, Some(u))
    ensures Doing(users[u := StartSpawning], None) == Doing(users[u := HandleSpawning], None) == None
  {
  }

  /** It lets go of what it holds and returns, or goes on to wait. */
  lemma OwnersDrop(users: map<UserId, UserPc>, mo: Option<UserId>, ho: Option<UserId>, ro: Option<UserId>, u: UserId, pc: UserPc)
    requires Owners(users, mo, ho, ro) && Waiting(pc)
    ensures var mo' := if mo == Some(u) then None else mo;
            var ho', ro' := if ho == Some(u) then None else ho, if ro == Some(u) then None else ro;
            && Owners(users - {u}, mo', ho', ro') && Owners(users[u := pc], mo', ho', ro')
            && (mo != Some(u) ==> Doing(users - {u}, mo) == Doing(users, mo) && Doing(users[u := pc], mo) == Doing(users, mo))
            && Doing(users - {u}, None) == None
  {
  }

  /** Users that are not at the queue come, go and move without touching dispOneMutex. */
  lemma DispUser(users: map<UserId, UserPc>, handlers: map<ThreadId, HandlerPc>, d: DispOwner, u: UserId, pc: UserPc)
    requires DispInv(users, handlers, d) && (u in users ==> users[u] != HandleInTop) && pc != HandleInTop
    ensures DispInv(users[u := pc], handlers, d) && DispInv(users - {u}, handlers, d)
  {
  }

  lemma DispTake(users: map<UserId, UserPc>, handlers: map<ThreadId, HandlerPc>, u: UserId)
    requires DispInv(users, handlers, Nobody) && u in users
    ensures DispInv(users[u := HandleInTop], handlers, ByUser(u))
  {
  }

  lemma DispLeave(users: map<UserId, UserPc>, handlers: map<ThreadId, HandlerPc>, d: DispOwner, u: UserId)
    requires DispInv(users, handlers, d) && u in users && users[u] == HandleInTop
    ensures d == ByUser(u) && DispInv(users - {u}, handlers, Nobody)
  {
  }

  lemma DispHandler(users: map<UserId, UserPc>, handlers: map<ThreadId, HandlerPc>, d: DispOwner, h: ThreadId, pc: HandlerPc)
    requires DispInv(users, handlers, d)
    ensures (h in handlers ==> handlers[h] != InTop) && pc != InTop ==>
              DispInv(users, handlers[h := pc], d) && DispInv(users, handlers - {h}, d)
    ensures h in handlers && d == Nobody ==> DispInv(users, handlers[h := InTop], ByHandler(h))
    ensures h in handlers && handlers[h] == InTop && pc != InTop ==> d == ByHandler(h) && DispInv(users, handlers[h := pc], Nobody)
  {
  }

  lemma HeldMoves<T>(threads: map<ThreadId, T>, thread: Option<ThreadId>, t: ThreadId, pc: T)
    requires Held(threads, thread)
    ensures t in threads ==> thread == Some(t) && Held(threads[t := pc], thread)
    ensures thread == None ==> Held(threads[t := pc], Some(t))
    ensures thread.Some? ==> Held(threads - {thread.value}, None)
  {
  }

  /* ---------- every step keeps the invariant ---------- */

  lemma NobodyDoing(s: State)
    ensures s.modeOwner == None ==> Doing(s.users, s.modeOwner) == None
  {
  }

  lemma StartInv(s: State, u: UserId)
    requires Inv(s) && Enabled(s, Start(u))
    ensures Inv(Apply(s, Start(u)))
  {
    hide Owners, DispInv, Held, Doing;
    NobodyDoing(s);
    OwnersMove(s.users, s.modeOwner, s.hndlOwner, s.recvOwner, u, StartLocking);
    DispUser(s.users, s.handlers, s.dispOwner, u, StartLocking);
  }

  lemma StartLockInv(s: State, u: UserId)
    requires Inv(s) && Enabled(s, StartLock(u))
    ensures Inv(Apply(s, StartLock(u)))
  {
    hide Owners, DispInv, Held, Doing;
    UserDoing(s.users, s.modeOwner, s.hndlOwner, s.recvOwner, u);
    OwnersPass(s.users, s.modeOwner, s.hndlOwner, s.recvOwner, u);
    DispUser(s.users, s.handlers, s.dispOwner, u, StartSpawning);
  }

  lemma StartSpawnInv(s: State, u: UserId, t: ThreadId)
    requires Inv(s) && Enabled(s, StartSpawn(u, t))
    ensures Inv(Apply(s, StartSpawn(u, t)))
  {
    hide Owners, DispInv, Held, Doing;
    UserDoing(s.users, s.modeOwner, s.hndlOwner, s.recvOwner, u);
    OwnersDrop(s.users, s.modeOwner, s.hndlOwner, s.recvOwner, u, HandleWanting);
    DispUser(s.users, s.handlers, s.dispOwner, u, HandleWanting);
    DispHandler(s.users - {u}, s.handlers, s.dispOwner, t, Begin);
    HeldMoves(s.handlers, s.hndlThread, t, Begin);
  }

  lemma HandleInv(s: State, u: UserId)
    requires Inv(s) && Enabled(s, Handle(u))
    ensures Inv(Apply(s, Handle(u)))
  {
    hide Owners, DispInv, Held, Doing;
    NobodyDoing(s);
    OwnersMove(s.users, s.modeOwner, s.hndlOwner, s.recvOwner, u, HandleLocking);
    NotHolding(s.users, s.modeOwner, s.hndlOwner, s.recvOwner, u);
    OwnersDrop(s.users, s.modeOwner, s.hndlOwner, s.recvOwner, u, HandleWanting);
    DispUser(s.users, s.handlers, s.dispOwner, u, HandleLocking);
    DispUser(s.users, s.handlers, s.dispOwner, u, HandleWanting);
  }

  lemma NotHolding(users: map<UserId, UserPc>, mo: Option<UserId>, ho: Option<UserId>, ro: Option<UserId>, u: UserId)
    requires Owners(users, mo, ho, ro) && u !in users
    ensures mo != Some(u) && ho != Some(u) && ro != Some(u)
  {
  }

  lemma HandleLockInv(s: State, u: UserId)
    requires Inv(s) && Enabled(s, HandleLock(u))
    ensures Inv(Apply(s, HandleLock(u)))
  {
    hide Owners, DispInv, Held, Doing;
    UserDoing(s.users, s.modeOwner, s.hndlOwner, s.recvOwner, u);
    OwnersPass(s.users, s.modeOwner, s.hndlOwner, s.recvOwner, u);
    DispUser(s.users, s.handlers, s.dispOwner, u, HandleSpawning);
  }

  lemma HandleSpawnInv(s: State, u: UserId, t: ThreadId)
    requires Inv(s) && Enabled(s, HandleSpawn(u, t))
    ensures Inv(Apply(s, HandleSpawn(u, t)))
  {
    hide Owners, DispInv, Held, Doing;
    UserDoing(s.users, s.modeOwner, s.hndlOwner, s.recvOwner, u);
    OwnersDrop(s.users, s.modeOwner, s.hndlOwner, s.recvOwner, u, HandleWanting);
    DispUser(s.users, s.handlers, s.dispOwner, u, HandleWanting);
    HeldMoves(s.receivers, s.recvThread, t, Checking);
  }

  lemma HandleAcquireInv(s: State, u: UserId)
    requires Inv(s) && Enabled(s, HandleAcquire(u))
    ensures Inv(Apply(s, HandleAcquire(u)))
  {
    hide Owners, DispInv, Held, Doing;
    UserDoing(s.users, s.modeOwner, s.hndlOwner, s.recvOwner, u);
    OwnersDrop(s.users, s.modeOwner, s.hndlOwner, s.recvOwner, u, HandleInTop);
    DispTake(s.users, s.handlers, u);
  }

  lemma HandleReturnInv(s: State, u: UserId)
    requires Inv(s) && Enabled(s, HandleReturn(u))
    ensures Inv(Apply(s, HandleReturn(u)))
  {
    hide Owners, DispInv, Held, Doing, ThreadsInv, ModeInv, SenderInv;
    UserDoing(s.users, s.modeOwner, s.hndlOwner, s.recvOwner, u);
    OwnersDrop(s.users, s.modeOwner, s.hndlOwner, s.recvOwner, u, HandleInTop);
    DispLeave(s.users, s.handlers, s.dispOwner, u);
  }

  lemma PublishInv(s: State, t: ThreadId)
    requires Inv(s) && Enabled(s, Publish(t))
    ensures Inv(Apply(s, Publish(t)))
  {
    hide Owners, DispInv, Held, Doing, ThreadsInv, ModeInv, SenderInv;
    SenderStarts(Doing(s.users, s.modeOwner), s.tx, t);
  }

  lemma SenderStarts(doing: Option<UserPc>, tx: Sending, t: ThreadId)
    requires SenderInv(doing, tx)
    ensures SenderInv(doing, tx.(queued := tx.queued + 1))
    ensures tx.state == Stopped ==>
              tx.thread == None
              && SenderInv(doing, tx.(queued := tx.queued + 1, state := Running, thread := Some(t), threads := tx.threads[t := Checking]))
  {
    hide Held;
    HeldMoves(tx.threads, tx.thread, t, Checking);
  }

  lemma StopCallInv(s: State, u: UserId)
    requires Inv(s) && Enabled(s, Stop(u))
    ensures Inv(Apply(s, Stop(u)))
  {
    hide Owners, DispInv, Held, Doing, ThreadsInv;
    var pc := match s.mode case ModeSpawn => StopHandler case ModeHandle => StopReceiver case ModeNone => StopSender;
    NobodyDoing(s);
    OwnersMove(s.users, s.modeOwner, s.hndlOwner, s.recvOwner, u, pc);
    DispUser(s.users, s.handlers, s.dispOwner, u, pc);
  }

  /** A step of stop moves its user to pc. */
  lemma StopMoves(s: State, u: UserId, pc: UserPc)
    requires Inv(s) && u in s.users && HoldsMode(s.users[u]) && HoldsMode(pc)
    ensures s.modeOwner == Some(u) && Doing(s.users, s.modeOwner) == Some(s.users[u])
    ensures Owners(s.users[u := pc], s.modeOwner, s.hndlOwner, s.recvOwner) && DispInv(s.users[u := pc], s.handlers, s.dispOwner)
    ensures Doing(s.users[u := pc], s.modeOwner) == Some(pc)
  {
    hide Owners, DispInv, Held, Doing, ThreadsInv, ModeInv, SenderInv;
    UserDoing(s.users, s.modeOwner, s.hndlOwner, s.recvOwner, u);
    OwnersMove(s.users, s.modeOwner, s.hndlOwner, s.recvOwner, u, pc);
    DispUser(s.users, s.handlers, s.dispOwner, u, pc);
  }

  lemma StopHandlerInv(s: State, u: UserId)
    requires Inv(s) && u in s.users && StopEnabled(s, s.users[u]) && s.users[u] == StopHandler
    ensures Inv(ApplyStop(s, u))
  {
    hide Owners, DispInv, Held, Doing;
    StopMoves(s, u, JoinHandler);
  }

  lemma JoinHandlerInv(s: State, u: UserId)
    requires Inv(s) && u in s.users && StopEnabled(s, s.users[u]) && s.users[u] == JoinHandler
    ensures Inv(ApplyStop(s, u))
  {
    hide Owners, DispInv, Held, Doing;
    StopMoves(s, u, MarkHandler);
    HeldMoves(s.handlers, s.hndlThread, 0, Begin);
    DispHandler(s.users[u := MarkHandler], s.handlers, s.dispOwner, s.hndlThread.value, Begin);
  }

  lemma MarkHandlerInv(s: State, u: UserId)
    requires Inv(s) && u in s.users && StopEnabled(s, s.users[u]) && s.users[u] == MarkHandler
    ensures Inv(ApplyStop(s, u))
  {
    hide Owners, DispInv, Held, Doing;
    StopMoves(s, u, StopSender);
  }

  lemma StopReceiverInv(s: State, u: UserId)
    requires Inv(s) && u in s.users && StopEnabled(s, s.users[u]) && s.users[u] == StopReceiver
    ensures Inv(ApplyStop(s, u))
  {
    hide Owners, DispInv, Held, Doing;
    StopMoves(s, u, JoinReceiver);
  }

  lemma JoinReceiverInv(s: State, u: UserId)
    requires Inv(s) && u in s.users && StopEnabled(s, s.users[u]) && s.users[u] == JoinReceiver
    ensures Inv(ApplyStop(s, u))
  {
    hide Owners, DispInv, Held, Doing;
    StopMoves(s, u, MarkReceiver);
    HeldMoves(s.receivers, s.recvThread, 0, Checking);
  }

  lemma MarkReceiverInv(s: State, u: UserId)
    requires Inv(s) && u in s.users && StopEnabled(s, s.users[u]) && s.users[u] == MarkReceiver
    ensures Inv(ApplyStop(s, u))
  {
    hide Owners, DispInv, Held, Doing, HandlerAgrees;
    StopMoves(s, u, StopSender);
  }

  lemma StopSenderInv(s: State, u: UserId)
    requires Inv(s) && u in s.users && StopEnabled(s, s.users[u]) && s.users[u] == StopSender
    ensures Inv(ApplyStop(s, u))
  {
    hide Owners, DispInv, Held, Doing, ThreadsInv;
    StopMoves(s, u, JoinSender);
    StopMoves(s, u, StopFinishing);
  }

  lemma JoinSenderInv(s: State, u: UserId)
    requires Inv(s) && u in s.users && StopEnabled(s, s.users[u]) && s.users[u] == JoinSender
    ensures Inv(ApplyStop(s, u))
  {
    hide Owners, DispInv, Held, Doing, ThreadsInv;
    StopMoves(s, u, MarkSender);
    HeldMoves(s.tx.threads, s.tx.thread, 0, Checking);
  }

  lemma MarkSenderInv(s: State, u: UserId)
    requires Inv(s) && u in s.users && StopEnabled(s, s.users[u]) && s.users[u] == MarkSender
    ensures Inv(ApplyStop(s, u))
  {
    hide Owners, DispInv, Held, Doing, ThreadsInv;
    StopMoves(s, u, StopFinishing);
  }

  lemma StopFinishingInv(s: State, u: UserId)
    requires Inv(s) && u in s.users && s.users[u] == StopFinishing
    ensures Inv(ApplyStop(s, u))
  {
    hide Owners, DispInv, Held, Doing, ThreadsInv;
    UserDoing(s.users, s.modeOwner, s.hndlOwner, s.recvOwner, u);
    OwnersDrop(s.users, s.modeOwner, s.hndlOwner, s.recvOwner, u, HandleWanting);
    DispUser(s.users, s.handlers, s.dispOwner, u, HandleWanting);
  }

  lemma StopInv(s: State, u: UserId)
    requires Inv(s) && u in s.users && StopEnabled(s, s.users[u])
    ensures Inv(ApplyStop(s, u))
  {
    hide Inv, ApplyStop;
    match s.users[u]
    case StopHandler => StopHandlerInv(s, u);
    case JoinHandler => JoinHandlerInv(s, u);
    case MarkHandler => MarkHandlerInv(s, u);
    case StopReceiver => StopReceiverInv(s, u);
    case JoinReceiver => JoinReceiverInv(s, u);
    case MarkReceiver => MarkReceiverInv(s, u);
    case StopSender => StopSenderInv(s, u);
    case JoinSender => JoinSenderInv(s, u);
    case MarkSender => MarkSenderInv(s, u);
    case _ => StopFinishingInv(s, u);
  }

  lemma HandlerBeginInv(s: State, h: ThreadId, t: ThreadId)
    requires Inv(s) && h in s.handlers && s.handlers[h] == Begin && HandlerEnabled(s, Begin, t)
    ensures Inv(ApplyHandler(s, h, t))
  {
    hide Owners, DispInv, Held, Doing, SenderInv;
    DispHandler(s.users, s.handlers, s.dispOwner, h, Looping);
    HeldMoves(s.handlers, s.hndlThread, h, Looping);
    HeldMoves(s.receivers, s.recvThread, t, Checking);
  }

  lemma HandlerLoopInv(s: State, h: ThreadId, t: ThreadId)
    requires Inv(s) && h in s.handlers && s.handlers[h] in {Looping, Acquiring, InTop} && HandlerEnabled(s, s.handlers[h], t)
    ensures Inv(ApplyHandler(s, h, t))
  {
    hide Owners, DispInv, Held, Doing, SenderInv, ModeInv;
    var pc := ApplyHandler(s, h, t).handlers[h];
    DispHandler(s.users, s.handlers, s.dispOwner, h, pc);
    HeldMoves(s.handlers, s.hndlThread, h, pc);
  }

  lemma HandlerClosingInv(s: State, h: ThreadId, t: ThreadId)
    requires Inv(s) && h in s.handlers && s.handlers[h] == Closing && HandlerEnabled(s, Closing, t)
    ensures Inv(ApplyHandler(s, h, t))
  {
    hide Owners, DispInv, Held, Doing, SenderInv;
    DispHandler(s.users, s.handlers, s.dispOwner, h, Joining);
    HeldMoves(s.handlers, s.hndlThread, h, Joining);
  }

  lemma HandlerJoiningInv(s: State, h: ThreadId, t: ThreadId)
    requires Inv(s) && h in s.handlers && s.handlers[h] == Joining && HandlerEnabled(s, Joining, t)
    ensures Inv(ApplyHandler(s, h, t))
  {
    hide Owners, DispInv, Held, Doing, SenderInv;
    DispHandler(s.users, s.handlers, s.dispOwner, h, Closed);
    HeldMoves(s.handlers, s.hndlThread, h, Closed);
    HeldMoves(s.receivers, s.recvThread, t, Checking);
  }

  lemma HandlerClosedInv(s: State, h: ThreadId, t: ThreadId)
    requires Inv(s) && h in s.handlers && s.handlers[h] == Closed && HandlerEnabled(s, Closed, t)
    ensures Inv(ApplyHandler(s, h, t))
  {
    hide Owners, DispInv, Held, Doing, SenderInv;
    DispHandler(s.users, s.handlers, s.dispOwner, h, HandlerDone);
    HeldMoves(s.handlers, s.hndlThread, h, HandlerDone);
  }

  lemma HandlerInv(s: State, h: ThreadId, t: ThreadId)
    requires Inv(s) && h in s.handlers && HandlerEnabled(s, s.handlers[h], t)
    ensures Inv(ApplyHandler(s, h, t))
  {
    hide Inv, ApplyHandler;
    match s.handlers[h]
    case Begin => HandlerBeginInv(s, h, t);
    case Closing => HandlerClosingInv(s, h, t);
    case Joining => HandlerJoiningInv(s, h, t);
    case Closed => HandlerClosedInv(s, h, t);
    case _ => HandlerLoopInv(s, h, t);
  }

  lemma ReceiverLoopInv(s: State, r: ThreadId)
    requires Inv(s) && r in s.receivers && ReceiverEnabled(s, s.receivers[r]) && s.receivers[r] != Exiting
    ensures Inv(ApplyReceiver(s, r))
  {
    hide Owners, DispInv, Held, Doing, SenderInv, ModeInv, HandlerAgrees;
    HeldMoves(s.receivers, s.recvThread, r, ApplyReceiver(s, r).receivers[r]);
  }

  lemma ReceiverExitInv(s: State, r: ThreadId)
    requires Inv(s) && r in s.receivers && s.receivers[r] == Exiting && ReceiverEnabled(s, Exiting)
    ensures Inv(ApplyReceiver(s, r))
  {
    hide Owners, DispInv, Held, Doing, SenderInv;
    HeldMoves(s.receivers, s.recvThread, r, WorkerDone);
  }

  lemma ReceiverInv(s: State, r: ThreadId)
    requires Inv(s) && r in s.receivers && ReceiverEnabled(s, s.receivers[r])
    ensures Inv(ApplyReceiver(s, r))
  {
    hide Inv, ApplyReceiver;
    if s.receivers[r] == Exiting { ReceiverExitInv(s, r); } else { ReceiverLoopInv(s, r); }
  }

  lemma ArriveInv(s: State, r: ThreadId)
    requires Inv(s) && Enabled(s, Arrive(r))
    ensures Inv(Apply(s, Arrive(r)))
  {
    hide Owners, DispInv, Held, Doing, SenderInv, ModeInv;
    HeldMoves(s.receivers, s.recvThread, r, Blocked);
  }

  lemma SenderStepInv(s: State, d: ThreadId)
    requires Inv(s) && Enabled(s, SenderStep(d))
    ensures Inv(Apply(s, SenderStep(d)))
  {
    hide Owners, DispInv, Held, Doing, ThreadsInv, ModeInv;
    HeldMoves(s.tx.threads, s.tx.thread, d, ApplySender(s.tx, d).threads[d]);
  }

  lemma PauseInv(s: State, step: Step)
    requires Inv(s) && (step.Pause? || step.Resume?)
    ensures Inv(Apply(s, step))
  {
    hide Owners, DispInv, Held, Doing, ThreadsInv, ModeInv, SenderInv;
  }

  lemma StepInv(s: State, step: Step)
    requires Inv(s) && Enabled(s, step)
    ensures Inv(Apply(s, step))
  {
    hide Inv, ApplyStop, ApplyHandler, ApplyReceiver, ApplySender, ApplyPublish, SpawnHandler, SpawnReceiver, Dispatched;
    match step
    case Start(u) => StartInv(s, u);
    case StartLock(u) => StartLockInv(s, u);
    case StartSpawn(u, t) => StartSpawnInv(s, u, t);
    case Handle(u) => HandleInv(s, u);
    case HandleLock(u) => HandleLockInv(s, u);
    case HandleSpawn(u, t) => HandleSpawnInv(s, u, t);
    case HandleAcquire(u) => HandleAcquireInv(s, u);
    case HandleReturn(u) => HandleReturnInv(s, u);
    case Publish(t) => PublishInv(s, t);
    case Pause => PauseInv(s, step);
    case Resume => PauseInv(s, step);
    case Stop(u) => StopCallInv(s, u);
    case StopNext(u) => StopInv(s, u);
    case HandlerStep(h, t) => HandlerInv(s, h, t);
    case ReceiverStep(r) => ReceiverInv(s, r);
    case Arrive(r) => ArriveInv(s, r);
    case SenderStep(d) => SenderStepInv(s, d);
  }

  lemma {:induction false} RunInv(s: State, steps: seq<Step>)
    requires Inv(s) && CanRun(s, steps)
    ensures Inv(Run(s, steps))
    decreases |steps|
  {
    hide Inv, Enabled, Apply;
    if steps != [] {
      StepInv(s, steps[0]);
      RunInv(Apply(s, steps[0]), steps[1..]);
    }
  }

  /** In every run at most one handler, one receiver and one sender thread exist (running or not yet
      joined), no joinable thread object is overwritten and none that has no thread is joined, and
      whenever the receive mode is NONE there is neither a handler nor a receiver. */
  lemma ThreadSafety(s: State, steps: seq<Step>)
    requires Init(s) && CanRun(s, steps)
    ensures var t := Run(s, steps);
            && !t.aborted
            && (forall a, b | a in t.handlers && b in t.handlers :: a == b)
            && (forall a, b | a in t.receivers && b in t.receivers :: a == b)
            && (forall a, b | a in t.tx.threads && b in t.tx.threads :: a == b)
            && (t.mode == ModeNone ==> t.handlers == map[] && t.receivers == map[])
  {
    hide Enabled, Apply, CanRun, Run, Owners, DispInv, Doing, HandlerAgrees, WorkerAgrees;
    InitInv(s);
    RunInv(s, steps);
  }

  /* ---------- every call can return ---------- */

  function UserWeight(pc: UserPc): nat {
    match pc
    case StartLocking => 3
    case StartSpawning => 2
    case HandleLocking => 3
    case HandleSpawning => 2
    case HandleWanting => 0
    case HandleInTop => 0
    case StopHandler => 8
    case JoinHandler => 7
    case MarkHandler => 6
    case StopReceiver => 8
    case JoinReceiver => 7
    case MarkReceiver => 6
    case StopSender => 5
    case JoinSender => 4
    case MarkSender => 3
    case StopFinishing => 2
  }

  function OwnerWeight(users: map<UserId, UserPc>, owner: Option<UserId>): nat {
    if owner.Some? && owner.value in users then 200 * UserWeight(users[owner.value]) else 0
  }

  function HandlerWeight(handlers: map<ThreadId, HandlerPc>, thread: Option<ThreadId>): nat {
    if thread == None || thread.value !in handlers then 0 else
    match handlers[thread.value]
    case Begin => 80
    case Looping => 40
    case Acquiring => 60
    case InTop => 50
    case Closing => 30
    case Joining => 20
    case Closed => 10
    case HandlerDone => 0
  }

  function WorkerWeight(workers: map<ThreadId, WorkerPc>, thread: Option<ThreadId>): nat {
    if thread == None || thread.value !in workers then 0 else
    match workers[thread.value]
    case Checking => 3
    case Busy => 4
    case Blocked => 4
    case Exiting => 2
    case WorkerDone => 0
  }

  function UsersWeight(s: State): nat {
    OwnerWeight(s.users, s.modeOwner) + OwnerWeight(s.users, s.hndlOwner) + OwnerWeight(s.users, s.recvOwner)
  }

  /** How much the calls in progress have left to do. */
  function Rank(s: State): nat {
    UsersWeight(s) + (if s.dispOwner.ByUser? then 5 else 0)
    + HandlerWeight(s.handlers, s.hndlThread) + WorkerWeight(s.receivers, s.recvThread) + WorkerWeight(s.tx.threads, s.tx.thread)
  }

  predicate NewCall(step: Step) {
    step.Start? || step.Handle? || step.Publish? || step.Stop? || step.Pause? || step.Resume?
  }

  /** A step that neither begins a call nor brings a message. */
  predicate Internal(step: Step) {
    !NewCall(step) && !step.Arrive?
  }

  ghost predicate Helps(s: State, step: Step) {
    Enabled(s, step) && Internal(step) && Rank(Apply(s, step)) < Rank(s)
  }

  /** A receiver that was told to halt, with the queue disabled, can go on. */
  lemma ReceiverHelps(s: State)
    requires Inv(s) && s.recvThread.Some? && s.recvState in {Halting, Halted} && !s.recvOn && s.recvOwner == None
    requires !Joinable(s.recvThread, s.receivers)
    ensures Helps(s, ReceiverStep(s.recvThread.value))
  {
    hide Owners, DispInv, Doing, SenderInv, ModeInv, HandlerWeight, OwnerWeight, HandlerAgrees;
    var n := Apply(s, ReceiverStep(s.recvThread.value));
    assert UsersWeight(n) == UsersWeight(s);
  }

  lemma SenderHelps(s: State)
    requires Inv(s) && s.tx.thread.Some? && s.tx.state in {Halting, Halted} && !s.tx.on && !Joinable(s.tx.thread, s.tx.threads)
    ensures Helps(s, SenderStep(s.tx.thread.value))
  {
    hide Owners, DispInv, Doing, ModeInv, HandlerWeight, OwnerWeight, ThreadsInv;
    var n := Apply(s, SenderStep(s.tx.thread.value));
    assert UsersWeight(n) == UsersWeight(s);
  }

  /** A handler that was told to halt, with the queue disabled, can go on, or the handle call or the
      receiver it waits for can. */
  lemma HandlerHelps(s: State) returns (step: Step)
    requires Inv(s) && s.hndlThread.Some? && s.hndlState in {Halting, Halted} && !s.recvOn
    requires s.hndlOwner == None && s.recvOwner == None && !HandlerJoinable(s)
    ensures Helps(s, step)
  {
    hide Owners, Doing, SenderInv, ModeInv, OwnerWeight, DispInv, WorkerWeight;
    var h := s.hndlThread.value;
    step := HandlerStep(h, 0);
    if s.handlers[h] == Acquiring {
      step := AcquiringHelps(s);
    } else if s.handlers[h] == Joining {
      step := JoiningHelps(s);
    } else {
      HandlerStepHelps(s, h);
    }
  }

  lemma HandlerStepHelps(s: State, h: ThreadId)
    requires Inv(s) && s.hndlThread == Some(h) && s.hndlState in {Halting, Halted} && !s.recvOn
    requires s.hndlOwner == None && s.recvOwner == None
    requires s.handlers[h] in {Begin, Looping, InTop, Closing, Closed}
    ensures Helps(s, HandlerStep(h, 0))
  {
    hide Owners, Doing, SenderInv, ModeInv, OwnerWeight, DispInv;
    var n := Apply(s, HandlerStep(h, 0));
    assert UsersWeight(n) == UsersWeight(s);
  }

  lemma AcquiringHelps(s: State) returns (step: Step)
    requires Inv(s) && s.hndlThread.Some? && s.handlers[s.hndlThread.value] == Acquiring && !s.recvOn
    ensures Helps(s, step)
  {
    hide Doing, SenderInv, ModeInv, OwnerWeight, WorkerWeight;
    if s.dispOwner.ByUser? {
      var u := s.dispOwner.u;
      step := HandleReturn(u);
      WeightDrop(s, u);
    } else {
      step := HandlerStep(s.hndlThread.value, 0);
    }
    var n := Apply(s, step);
    assert UsersWeight(n) == UsersWeight(s);
  }

  lemma WeightDrop(s: State, u: UserId)
    requires Inv(s) && u in s.users && Waiting(s.users[u])
    ensures OwnerWeight(s.users - {u}, s.modeOwner) == OwnerWeight(s.users, s.modeOwner)
    ensures OwnerWeight(s.users - {u}, s.hndlOwner) == OwnerWeight(s.users, s.hndlOwner)
    ensures OwnerWeight(s.users - {u}, s.recvOwner) == OwnerWeight(s.users, s.recvOwner)
  {
    hide Owners, DispInv, Doing, SenderInv, ModeInv, ThreadsInv;
    UserDoing(s.users, s.modeOwner, s.hndlOwner, s.recvOwner, u);
  }

  lemma JoiningHelps(s: State) returns (step: Step)
    requires Inv(s) && s.hndlThread.Some? && s.handlers[s.hndlThread.value] == Joining && !s.recvOn && s.recvOwner == None
    ensures Helps(s, step)
  {
    hide Owners, Doing, SenderInv, ModeInv, OwnerWeight, DispInv;
    if Joinable(s.recvThread, s.receivers) {
      step := HandlerStep(s.hndlThread.value, 0);
      var n := Apply(s, step);
      assert UsersWeight(n) == UsersWeight(s);
    } else {
      step := ReceiverStep(s.recvThread.value);
      ReceiverHelps(s);
    }
  }

  /** No call is between taking recvModeMutex and returning; handle calls may wait for a message. */
  predicate Settled(s: State) {
    s.modeOwner == None && s.hndlOwner == None && s.recvOwner == None
  }

  lemma SettledUsers(s: State)
    requires Inv(s)
    ensures Settled(s) ==> forall u | u in s.users :: Waiting(s.users[u])
  {
    hide DispInv, ThreadsInv, ModeInv, SenderInv, Doing;
  }

  lemma StartSpawnHelps(s: State, u: UserId)
    requires Inv(s) && s.hndlOwner == Some(u)
    ensures Helps(s, StartSpawn(u, 0))
  {
    hide DispInv, SenderInv, WorkerWeight, Doing;
    OwnersDrop(s.users, s.modeOwner, s.hndlOwner, s.recvOwner, u, HandleWanting);
  }

  lemma HandleSpawnHelps(s: State, u: UserId)
    requires Inv(s) && s.recvOwner == Some(u)
    ensures Helps(s, HandleSpawn(u, 0))
  {
    hide DispInv, SenderInv, HandlerWeight, Doing;
    OwnersDrop(s.users, s.modeOwner, s.hndlOwner, s.recvOwner, u, HandleWanting);
  }

  lemma ModeHolder(s: State) returns (u: UserId)
    requires Inv(s) && s.modeOwner.Some?
    ensures s.modeOwner == Some(u) && u in s.users && HoldsMode(s.users[u]) && Doing(s.users, s.modeOwner) == Some(s.users[u])
  {
    hide DispInv, ThreadsInv, ModeInv, SenderInv;
    u := s.modeOwner.value;
  }

  /** The holder of recvModeMutex makes its own next step. */
  lemma LockHelps(s: State, u: UserId)
    requires Inv(s) && s.modeOwner == Some(u) && u in s.users && s.hndlOwner == None && s.recvOwner == None
    ensures s.users[u] == StartLocking ==> Helps(s, StartLock(u))
    ensures s.users[u] == HandleLocking ==> Helps(s, HandleLock(u))
  {
    hide DispInv, ThreadsInv, ModeInv, SenderInv, Owners, Doing, HandlerWeight, WorkerWeight;
  }

  lemma OneOwner(users: map<UserId, UserPc>, u: UserId, pc: UserPc)
    requires u in users
    ensures OwnerWeight(users, Some(u)) == 200 * UserWeight(users[u]) && OwnerWeight(users, None) == 0
    ensures OwnerWeight(users[u := pc], Some(u)) == 200 * UserWeight(pc) && OwnerWeight(users[u := pc], None) == 0
    ensures OwnerWeight(users - {u}, None) == 0
  {
  }

  /** Stop's own steps that do not join. */
  lemma StopStepHelps(s: State, u: UserId)
    requires Inv(s) && s.modeOwner == Some(u) && u in s.users && s.hndlOwner == None && s.recvOwner == None
    requires s.users[u] in {StopHandler, MarkHandler, StopReceiver, MarkReceiver, StopSender, MarkSender, StopFinishing}
    ensures Helps(s, StopNext(u))
  {
    hide Inv, OwnerWeight, HandlerWeight, WorkerWeight, ApplyStopHandler, ApplyStopReceiver, ApplyStopSender;
    OneOwner(s.users, u, StopTarget(s, s.users[u]));
  }

  lemma JoinHandlerHelps(s: State, u: UserId)
    requires s.modeOwner == Some(u) && u in s.users && s.hndlOwner == None && s.recvOwner == None
    requires s.users[u] == JoinHandler && StopEnabled(s, JoinHandler)
    ensures Helps(s, StopNext(u))
  {
    hide OwnerWeight, WorkerWeight;
    OneOwner(s.users, u, StopTarget(s, JoinHandler));
  }

  lemma JoinReceiverHelps(s: State, u: UserId)
    requires s.modeOwner == Some(u) && u in s.users && s.hndlOwner == None && s.recvOwner == None
    requires s.users[u] == JoinReceiver && StopEnabled(s, JoinReceiver)
    ensures Helps(s, StopNext(u))
  {
    hide OwnerWeight, HandlerWeight;
    OneOwner(s.users, u, StopTarget(s, JoinReceiver));
  }

  lemma JoinSenderHelps(s: State, u: UserId)
    requires s.modeOwner == Some(u) && u in s.users && s.hndlOwner == None && s.recvOwner == None
    requires s.users[u] == JoinSender && StopEnabled(s, JoinSender)
    ensures Helps(s, StopNext(u))
  {
    hide OwnerWeight, HandlerWeight;
    OneOwner(s.users, u, StopTarget(s, JoinSender));
  }

  /** What a stop waits for when it cannot make its own step. */
  lemma JoinWaits(s: State, u: UserId) returns (step: Step)
    requires Inv(s) && s.modeOwner == Some(u) && u in s.users && s.hndlOwner == None && s.recvOwner == None
    requires s.users[u] in {JoinHandler, JoinReceiver, JoinSender} && !StopEnabled(s, s.users[u])
    ensures Helps(s, step)
  {
    hide DispInv, ThreadsInv, Owners, Held, WorkerAgrees, Helps;
    match s.users[u]
    case JoinHandler => step := HandlerHelps(s);
    case JoinReceiver => step := ReceiverStep(s.recvThread.value); ReceiverHelps(s);
    case JoinSender => step := SenderStep(s.tx.thread.value); SenderHelps(s);
  }

  /** While some call is between taking recvModeMutex and returning, a step brings one nearer its end. */
  lemma SomethingHelps(s: State) returns (step: Step)
    requires Inv(s) && !Settled(s)
    ensures Helps(s, step)
  {
    hide Inv, Helps, StopEnabled, Doing;
    if s.hndlOwner.Some? {
      step := StartSpawn(s.hndlOwner.value, 0);
      StartSpawnHelps(s, s.hndlOwner.value);
    } else if s.recvOwner.Some? {
      step := HandleSpawn(s.recvOwner.value, 0);
      HandleSpawnHelps(s, s.recvOwner.value);
    } else {
      var u := ModeHolder(s);
      match s.users[u] {
        case StartLocking => step := StartLock(u); LockHelps(s, u);
        case HandleLocking => step := HandleLock(u); LockHelps(s, u);
        case JoinHandler => if StopEnabled(s, JoinHandler) { step := StopNext(u); JoinHandlerHelps(s, u); } else { step := JoinWaits(s, u); }
        case JoinReceiver => if StopEnabled(s, JoinReceiver) { step := StopNext(u); JoinReceiverHelps(s, u); } else { step := JoinWaits(s, u); }
        case JoinSender => if StopEnabled(s, JoinSender) { step := StopNext(u); JoinSenderHelps(s, u); } else { step := JoinWaits(s, u); }
        case _ => step := StopNext(u); StopStepHelps(s, u);
      }
    }
  }

  /** Some user is inside stop. */
  predicate Stopping(s: State) {
    var d := Doing(s.users, s.modeOwner);
    d.Some? && d.value != StartLocking && d.value != HandleLocking
  }

  /** A stop goes on until it returns, and then the receive mode is NONE. */
  lemma StopGoesOn(s: State, step: Step)
    requires Inv(s) && Stopping(s) && Enabled(s, step) && Internal(step)
    ensures var n := Apply(s, step); Stopping(n) || (Settled(n) && n.mode == ModeNone)
  {
    hide DispInv, ThreadsInv, SenderInv, ModeInv, Owners, Doing, ApplyHandler, ApplyReceiver, ApplySender, ApplyStop;
    match step
    case StartLock(u) => UserDoing(s.users, s.modeOwner, s.hndlOwner, s.recvOwner, u);
    case HandleLock(u) => UserDoing(s.users, s.modeOwner, s.hndlOwner, s.recvOwner, u);
    case StartSpawn(u, _) => OthersGoOn(s, u, HandleWanting);
    case HandleSpawn(u, _) => OthersGoOn(s, u, HandleWanting);
    case HandleAcquire(u) => OthersGoOn(s, u, HandleInTop);
    case HandleReturn(u) => OthersGoOn(s, u, HandleInTop);
    case StopNext(u) => StopNextGoesOn(s, u);
    case _ =>
  }

  lemma OthersGoOn(s: State, u: UserId, pc: UserPc)
    requires Inv(s) && u in s.users && !HoldsMode(s.users[u]) && Waiting(pc)
    ensures Doing(s.users - {u}, s.modeOwner) == Doing(s.users[u := pc], s.modeOwner) == Doing(s.users, s.modeOwner)
  {
    hide DispInv, ThreadsInv, SenderInv, ModeInv, Owners, Doing;
    UserDoing(s.users, s.modeOwner, s.hndlOwner, s.recvOwner, u);
    OwnersDrop(s.users, s.modeOwner, s.hndlOwner, s.recvOwner, u, pc);
  }

  lemma StopNextGoesOn(s: State, u: UserId)
    requires Inv(s) && u in s.users && StopEnabled(s, s.users[u])
    ensures var n := ApplyStop(s, u); Stopping(n) || (Settled(n) && n.mode == ModeNone)
  {
    hide DispInv, ThreadsInv, SenderInv, Owners, Doing, ApplyStopHandler, ApplyStopReceiver, ApplyStopSender;
    if s.users[u] == StopFinishing {
      UserDoing(s.users, s.modeOwner, s.hndlOwner, s.recvOwner, u);
    } else {
      StopMoves(s, u, StopTarget(s, s.users[u]));
    }
  }

  lemma {:induction false} FinishingRun(s: State) returns (steps: seq<Step>)
    requires Inv(s)
    ensures CanRun(s, steps) && Settled(Run(s, steps)) && forall i | 0 <= i < |steps| :: Internal(steps[i])
    ensures Stopping(s) ==> Run(s, steps).mode == ModeNone
    decreases Rank(s)
  {
    hide Inv, Apply, Enabled, Rank, Internal, Settled, Stopping;
    if Settled(s) {
      SettledNotStopping(s);
      return [];
    }
    var step := SomethingHelps(s);
    StepInv(s, step);
    var n := Apply(s, step);
    if Stopping(s) { StopGoesOn(s, step); }
    if Settled(n) {
      SettledNotStopping(n);
      return [step];
    }
    var rest := FinishingRun(n);
    steps := [step] + rest;
    assert steps[1..] == rest;
  }

  lemma SettledNotStopping(s: State)
    ensures Settled(s) ==> !Stopping(s)
  {
  }

  /* ---------- handle calls that wait ---------- */

  ghost predicate NobodyWaits(users: map<UserId, UserPc>) {
    forall u | u in users :: !Waiting(users[u])
  }

  /** In mode NONE nobody waits at an enabled queue. */
  ghost predicate Idle(s: State) {
    s.mode == ModeNone && s.recvOn ==> NobodyWaits(s.users)
  }

  lemma NobodyWaitsMoves(users: map<UserId, UserPc>, u: UserId, pc: UserPc)
    requires NobodyWaits(users) && !Waiting(pc)
    ensures NobodyWaits(users[u := pc]) && NobodyWaits(users - {u})
  {
  }

  lemma IdleStep(s: State, step: Step)
    requires Inv(s) && Idle(s) && Enabled(s, step)
    ensures Idle(Apply(s, step))
  {
    hide DispInv, ThreadsInv, SenderInv, Owners, Doing, NobodyWaits, ApplySender, ApplyHandler, ApplyReceiver, ApplyStop;
    match step
    case Start(u) =>
    case StartLock(u) => NotIdleLock(s, u);
    case StartSpawn(u, t) => UserDoing(s.users, s.modeOwner, s.hndlOwner, s.recvOwner, u);
    case Handle(u) =>
    case HandleLock(u) => NotIdleLock(s, u);
    case HandleSpawn(u, t) => UserDoing(s.users, s.modeOwner, s.hndlOwner, s.recvOwner, u);
    case HandleAcquire(u) => IdleWaiter(s, u);
    case HandleReturn(u) => IdleWaiter(s, u);
    case Stop(u) => IdleStop(s, u);
    case StopNext(u) => IdleStopNext(s, u);
    case _ =>
  }

  lemma NotIdleLock(s: State, u: UserId)
    requires Inv(s) && u in s.users && s.users[u] in {StartLocking, HandleLocking}
    ensures s.mode != ModeNone
  {
    hide DispInv, ThreadsInv, SenderInv, Owners, Doing;
    UserDoing(s.users, s.modeOwner, s.hndlOwner, s.recvOwner, u);
  }

  lemma IdleWaiter(s: State, u: UserId)
    requires Idle(s) && u in s.users && Waiting(s.users[u])
    ensures s.mode == ModeNone ==> !s.recvOn
  {
  }

  lemma IdleStop(s: State, u: UserId)
    requires Idle(s) && Enabled(s, Stop(u))
    ensures Idle(Apply(s, Stop(u)))
  {
    hide NobodyWaits;
    if NobodyWaits(s.users) { NobodyWaitsMoves(s.users, u, StopSender); }
  }

  lemma IdleStopNext(s: State, u: UserId)
    requires Inv(s) && Idle(s) && u in s.users && StopEnabled(s, s.users[u])
    ensures Idle(ApplyStop(s, u))
  {
    hide DispInv, ThreadsInv, SenderInv, Owners, Doing, NobodyWaits;
    UserDoing(s.users, s.modeOwner, s.hndlOwner, s.recvOwner, u);
    if NobodyWaits(s.users) {
      NobodyWaitsMoves(s.users, u, StopTarget(s, s.users[u]));
    }
  }

  lemma {:induction false} RunIdle(s: State, steps: seq<Step>)
    requires Inv(s) && Idle(s) && CanRun(s, steps)
    ensures Inv(Run(s, steps)) && Idle(Run(s, steps))
    decreases |steps|
  {
    hide Inv, Idle, Enabled, Apply;
    if steps != [] {
      StepInv(s, steps[0]);
      IdleStep(s, steps[0]);
      RunIdle(Apply(s, steps[0]), steps[1..]);
    }
  }

  /** When the mode is NONE and no other call is in progress, the handle calls that still wait return. */
  lemma {:induction false} WaitersReturn(s: State) returns (steps: seq<Step>)
    requires Inv(s) && Idle(s) && Settled(s) && s.mode == ModeNone
    ensures CanRun(s, steps) && Run(s, steps).users == map[] && forall i | 0 <= i < |steps| :: Internal(steps[i])
    decreases |s.users|, if s.dispOwner == Nobody then 1 else 0
  {
    hide Inv, Enabled, Apply, Internal;
    if s.users == map[] { return []; }
    var step := WaiterStep(s);
    var n := Apply(s, step);
    StepInv(s, step);
    IdleStep(s, step);
    var rest := WaitersReturn(n);
    steps := [step] + rest;
    assert steps[1..] == rest;
  }

  lemma WaiterStep(s: State) returns (step: Step)
    requires Inv(s) && Idle(s) && Settled(s) && s.mode == ModeNone && s.users != map[]
    ensures Enabled(s, step) && Internal(step)
    ensures var n := Apply(s, step);
            && Settled(n) && n.mode == ModeNone
            && (|n.users| < |s.users| || (|n.users| == |s.users| && s.dispOwner == Nobody && n.dispOwner != Nobody))
  {
    hide SenderInv, Doing, ThreadsInv, ModeInv, Owners, DispInv, Dispatched;
    SettledUsers(s);
    AtTheQueue(s);
    if s.dispOwner == Nobody {
      var u :| u in s.users;
      step := HandleAcquire(u);
      assert s.users[u := HandleInTop].Keys == s.users.Keys;
      SameSize(s.users, s.users[u := HandleInTop]);
    } else {
      step := HandleReturn(s.dispOwner.u);
      IdleWaiter(s, s.dispOwner.u);
      DispatchedFrame(s);
      Smaller(s.users, s.dispOwner.u);
    }
  }

  lemma DispatchedFrame(s: State)
    ensures var n := Dispatched(s);
            n.modeOwner == s.modeOwner && n.hndlOwner == s.hndlOwner && n.recvOwner == s.recvOwner && n.mode == s.mode
  {
  }

  /** In mode NONE dispOneMutex is free or held by a handle call at the queue. */
  lemma AtTheQueue(s: State)
    requires Inv(s) && s.mode == ModeNone
    ensures s.dispOwner != Nobody ==> s.dispOwner.ByUser? && s.dispOwner.u in s.users && s.users[s.dispOwner.u] == HandleInTop
    ensures s.dispOwner == Nobody ==> forall u | u in s.users :: s.users[u] != HandleInTop
  {
    hide SenderInv, Doing, Owners;
  }

  lemma SameSize(a: map<UserId, UserPc>, b: map<UserId, UserPc>)
    requires a.Keys == b.Keys
    ensures |a| == |b|
  {
    assert |a.Keys| == |a| && |b.Keys| == |b|;
  }

  lemma Smaller(a: map<UserId, UserPc>, u: UserId)
    requires u in a
    ensures |a - {u}| < |a|
  {
    assert (a - {u}).Keys == a.Keys - {u};
    assert |a.Keys - {u}| == |a.Keys| - 1;
    assert |(a - {u}).Keys| == |a - {u}| && |a.Keys| == |a|;
  }

  /* ---------- no deadlock ---------- */

  /** From every reachable state there is a continuation, without any new call and without any message,
      in which every start and stop has returned, and every handle has returned or waits for a message. */
  lemma StartAndStopReturn(s: State, steps: seq<Step>)
    requires Init(s) && CanRun(s, steps)
    ensures exists more :: CanRun(Run(s, steps), more) && Settled(Run(Run(s, steps), more))
                           && forall i | 0 <= i < |more| :: Internal(more[i])
  {
    hide *;
    InitInv(s);
    RunInv(s, steps);
    var more := FinishingRun(Run(s, steps));
  }

  /** With a stop in progress every call returns, those handle calls included. */
  lemma StopReleasesEverybody(s: State, steps: seq<Step>)
    requires Init(s) && CanRun(s, steps) && Stopping(Run(s, steps))
    ensures exists more :: CanRun(Run(s, steps), more) && Run(Run(s, steps), more).users == map[]
                           && forall i | 0 <= i < |more| :: Internal(more[i])
  {
    hide *;
    InitInv(s);
    InitIdle(s);
    RunIdle(s, steps);
    var t := Run(s, steps);
    var a := FinishingRun(t);
    RunIdle(t, a);
    var b := WaitersReturn(Run(t, a));
    RunConcat(t, a, b);
    var more := a + b;
  }

  lemma InitIdle(s: State)
    requires Init(s)
    ensures Idle(s)
  {
  }

  lemma {:induction false} RunConcat(s: State, a: seq<Step>, b: seq<Step>)
    requires CanRun(s, a) && CanRun(Run(s, a), b)
    ensures CanRun(s, a + b) && Run(s, a + b) == Run(Run(s, a), b)
    decreases |a|
  {
    hide Enabled, Apply;
    if a == [] {
      assert a + b == b;
    } else {
      RunConcat(Apply(s, a[0]), a[1..], b);
      assert (a + b)[1..] == a[1..] + b && (a + b)[0] == a[0];
    }
  }

  /* ---------- what the calls achieve ---------- */

  /** A run in two parts. */
  lemma {:induction false} RunParts(s: State, steps: seq<Step>, p: nat)
    requires p <= |steps| && CanRun(s, steps)
    ensures CanRun(s, steps[..p]) && CanRun(Run(s, steps[..p]), steps[p..]) && Run(Run(s, steps[..p]), steps[p..]) == Run(s, steps)
    decreases |steps|
  {
    hide Enabled, Apply;
    if p == 0 {
      assert steps[..0] == [] && steps[0..] == steps;
    } else {
      RunParts(Apply(s, steps[0]), steps[1..], p - 1);
      assert steps[..p][1..] == steps[1..][..p - 1] && steps[1..][p - 1..] == steps[p..];
    }
  }

  predicate InStop(pc: UserPc) {
    pc in {StopHandler, JoinHandler, MarkHandler, StopReceiver, JoinReceiver, MarkReceiver, StopSender, JoinSender, MarkSender,
           StopFinishing}
  }

  /** Nobody is inside a stop. */
  predicate NoStop(s: State) {
    NoneIn(s.users)
  }

  predicate NoneIn(users: map<UserId, UserPc>) {
    forall u | u in users :: !InStop(users[u])
  }

  lemma NoneMoves(users: map<UserId, UserPc>, u: UserId, pc: UserPc)
    requires NoneIn(users) && !InStop(pc)
    ensures NoneIn(users[u := pc]) && NoneIn(users - {u})
  {
  }

  lemma NoStopEnds(s: State, u: UserId)
    requires NoStop(s) && u in s.users
    ensures !StopEnabled(s, s.users[u])
  {
  }

  /** A step of the engine's own threads. */
  predicate ThreadStep(step: Step) {
    step.HandlerStep? || step.ReceiverStep? || step.Arrive? || step.SenderStep?
  }

  lemma ThreadFrame(s: State, step: Step)
    requires Enabled(s, step) && ThreadStep(step)
    ensures Apply(s, step).users == s.users && Apply(s, step).mode == s.mode
    ensures !step.SenderStep? ==> Apply(s, step).tx == s.tx
  {
    hide HandlerEnabled, ReceiverEnabled, ApplyHandler, ApplyReceiver, ApplySender;
    match step {
      case HandlerStep(h, t) => HandlerTx(s, h, t);
      case ReceiverStep(r) => ReceiverTx(s, r);
      case _ =>
    }
  }

  lemma NoStopStep(s: State, step: Step)
    requires NoStop(s) && Enabled(s, step) && !step.Stop?
    ensures NoStop(Apply(s, step)) && (s.mode != ModeNone ==> Apply(s, step).mode == s.mode)
  {
    if ThreadStep(step) {
      hide Enabled, Apply;
      ThreadFrame(s, step);
    } else {
      NoStopUser(s, step);
    }
  }

  lemma NoStopUser(s: State, step: Step)
    requires NoStop(s) && Enabled(s, step) && !step.Stop? && !ThreadStep(step)
    ensures NoStop(Apply(s, step)) && (s.mode != ModeNone ==> Apply(s, step).mode == s.mode)
  {
    hide Dispatched, SpawnReceiver, SpawnHandler, ApplyStop, HandlerEnabled, ReceiverEnabled, SenderEnabled, StopEnabled, NoneIn;
    match step {
      case Start(u) => NoneMoves(s.users, u, StartLocking);
      case StartLock(u) => NoneMoves(s.users, u, StartSpawning);
      case StartSpawn(u, t) => SpawnFrame(s, t); NoneMoves(s.users, u, StartLocking);
      case Handle(u) => NoneMoves(s.users, u, HandleWanting); NoneMoves(s.users, u, HandleLocking);
      case HandleLock(u) => NoneMoves(s.users, u, HandleSpawning);
      case HandleSpawn(u, t) => SpawnFrame(s, t); NoneMoves(s.users, u, HandleWanting);
      case HandleAcquire(u) => NoneMoves(s.users, u, HandleInTop);
      case HandleReturn(u) => DispatchedFrame(s); NoneMoves(s.users, u, HandleInTop);
      case StopNext(u) => NoStopEnds(s, u);
      case _ =>
    }
  }

  /** A mode has been entered and nobody is leaving it. */
  ghost predicate InMode(s: State, mode: RecvMode) {
    s.mode == mode != ModeNone && NoStop(s)
  }

  lemma SpawnFrame(s: State, t: ThreadId)
    ensures SpawnHandler(s, t).users == s.users && SpawnHandler(s, t).mode == s.mode
    ensures SpawnReceiver(s, t).users == s.users && SpawnReceiver(s, t).mode == s.mode
  {
  }

  lemma {:induction false} InModeRun(s: State, steps: seq<Step>, mode: RecvMode)
    requires InMode(s, mode) && CanRun(s, steps) && forall i | 0 <= i < |steps| :: !steps[i].Stop?
    ensures InMode(Run(s, steps), mode)
    decreases |steps|
  {
    hide NoStop, Enabled, Apply;
    if steps != [] {
      NoStopStep(s, steps[0]);
      InModeRun(Apply(s, steps[0]), steps[1..], mode);
    }
  }

  /** A thread of its kind exists and its state is RUNNING. */
  ghost predicate Runs<T>(threads: map<ThreadId, T>, thread: Option<ThreadId>, state: ThreadState) {
    thread.Some? && thread.value in threads && state == Running
  }

  /** Nobody is between its decision to spawn a thread and the spawning. */
  predicate AllSpawned(s: State) {
    s.modeOwner == None && s.hndlOwner == None && s.recvOwner == None
  }

  lemma ModeRuns(s: State)
    requires Inv(s) && AllSpawned(s)
    ensures s.mode == ModeSpawn ==> Runs(s.handlers, s.hndlThread, s.hndlState)
    ensures s.mode == ModeHandle ==> Runs(s.receivers, s.recvThread, s.recvState)
  {
    hide Owners, DispInv, HandlerAgrees, WorkerAgrees, SenderInv;
  }

  lemma StartCall(s: State, u: UserId)
    requires Inv(s) && Enabled(s, Start(u))
    ensures InMode(Apply(s, Start(u)), if s.mode == ModeNone then ModeSpawn else s.mode)
  {
    hide ModeInv, DispInv, ThreadsInv, SenderInv;
  }

  lemma HandleCall(s: State, u: UserId)
    requires Inv(s) && Enabled(s, Handle(u))
    ensures InMode(Apply(s, Handle(u)), if s.mode == ModeNone then ModeHandle else s.mode)
  {
    hide ModeInv, DispInv, ThreadsInv, SenderInv;
  }

  /** In every run: behind a start that no stop follows, with no call about to spawn a thread, the handler
      thread exists and runs, unless handle calls had taken the engine before. */
  lemma StartStarts(s: State, steps: seq<Step>, p: nat, u: UserId)
    requires Init(s) && CanRun(s, steps) && p < |steps| && steps[p] == Start(u) && forall i | p < i < |steps| :: !steps[i].Stop?
    requires AllSpawned(Run(s, steps))
    ensures CanRun(s, steps[..p])
    ensures var t := Run(s, steps);
            Run(s, steps[..p]).mode != ModeHandle ==> t.mode == ModeSpawn && Runs(t.handlers, t.hndlThread, t.hndlState)
  {
    hide Init, Enabled, Inv, InMode, Apply, AllSpawned, Runs;
    InitInv(s);
    RunParts(s, steps, p);
    RunInv(s, steps[..p]);
    RunInv(s, steps);
    var s1, rest := Run(s, steps[..p]), steps[p..];
    StartCall(s1, u);
    assert forall i | 0 <= i < |rest[1..]| :: rest[1..][i] == steps[p + 1 + i];
    InModeRun(Apply(s1, Start(u)), rest[1..], if s1.mode == ModeNone then ModeSpawn else s1.mode);
    ModeRuns(Run(s, steps));
    ModeOf(Run(s, steps), if s1.mode == ModeNone then ModeSpawn else s1.mode);
  }

  lemma ModeOf(s: State, mode: RecvMode)
    requires InMode(s, mode)
    ensures s.mode == mode
  {
  }

  /** The same for handle and the receiver thread, unless a start had taken the engine before. */
  lemma HandleStarts(s: State, steps: seq<Step>, p: nat, u: UserId)
    requires Init(s) && CanRun(s, steps) && p < |steps| && steps[p] == Handle(u) && forall i | p < i < |steps| :: !steps[i].Stop?
    requires AllSpawned(Run(s, steps))
    ensures CanRun(s, steps[..p])
    ensures var t := Run(s, steps);
            Run(s, steps[..p]).mode != ModeSpawn ==> t.mode == ModeHandle && Runs(t.receivers, t.recvThread, t.recvState)
  {
    hide Init, Enabled, Inv, InMode, Apply, AllSpawned, Runs;
    InitInv(s);
    RunParts(s, steps, p);
    RunInv(s, steps[..p]);
    RunInv(s, steps);
    var s1, rest := Run(s, steps[..p]), steps[p..];
    HandleCall(s1, u);
    assert forall i | 0 <= i < |rest[1..]| :: rest[1..][i] == steps[p + 1 + i];
    InModeRun(Apply(s1, Handle(u)), rest[1..], if s1.mode == ModeNone then ModeHandle else s1.mode);
    ModeRuns(Run(s, steps));
    ModeOf(Run(s, steps), if s1.mode == ModeNone then ModeHandle else s1.mode);
  }

  /** When a stop returns there is neither a handler nor a receiver thread. */
  lemma StopStops(s: State, steps: seq<Step>, u: UserId)
    requires Init(s) && CanRun(s, steps) && Enabled(Run(s, steps), StopNext(u))
    requires u !in Apply(Run(s, steps), StopNext(u)).users
    ensures var t := Apply(Run(s, steps), StopNext(u));
            t.mode == ModeNone && t.handlers == map[] && t.receivers == map[]
  {
    hide Init, CanRun, Run, Inv;
    InitInv(s);
    RunInv(s, steps);
    var s1 := Run(s, steps);
    StepInv(s1, StopNext(u));
    StopReturns(s1, u);
    NoThreads(Apply(s1, StopNext(u)));
  }

  lemma StopReturns(s: State, u: UserId)
    requires Enabled(s, StopNext(u)) && u !in Apply(s, StopNext(u)).users
    ensures Apply(s, StopNext(u)).mode == ModeNone
  {
  }

  lemma NoThreads(s: State)
    requires Inv(s) && s.mode == ModeNone
    ensures s.handlers == map[] && s.receivers == map[]
  {
    hide Owners, DispInv, HandlerAgrees, WorkerAgrees, SenderInv, Doing;
  }

  /** The sender thread exists and runs, and nobody is about to stop it. */
  ghost predicate Sends(s: State) {
    Runs(s.tx.threads, s.tx.thread, s.tx.state) && NoStop(s)
  }

  lemma SendsStep(s: State, step: Step)
    requires Inv(s) && Sends(s) && Enabled(s, step) && !step.Stop?
    ensures Sends(Apply(s, step))
  {
    hide NoStop;
    NoStopStep(s, step);
    if step.SenderStep? {
      hide Owners, DispInv, ThreadsInv, ModeOk;
    } else if ThreadStep(step) {
      hide Enabled, Apply, Inv;
      ThreadFrame(s, step);
    } else {
      hide Inv, ApplyStop, StopEnabled;
      match step {
        case StopNext(u) => NoStopEnds(s, u);
        case _ =>
      }
    }
  }

  lemma HandlerTx(s: State, h: ThreadId, t: ThreadId)
    requires h in s.handlers && HandlerEnabled(s, s.handlers[h], t)
    ensures ApplyHandler(s, h, t).tx == s.tx
    ensures ApplyHandler(s, h, t).paused == s.paused && (s.paused ==> ApplyHandler(s, h, t).recvQueued == s.recvQueued)
  {
    hide HandlerEnabled, SpawnReceiver, JoinReceiverThread, Dispatched;
    match s.handlers[h] {
      case Begin => SpawnTx(s, t);
      case InTop => DispatchedTx(s);
      case Joining => JoinTx(s);
      case _ =>
    }
  }

  lemma JoinTx(s: State)
    ensures JoinReceiverThread(s).tx == s.tx && JoinReceiverThread(s).paused == s.paused
    ensures JoinReceiverThread(s).recvQueued == s.recvQueued
  {
  }

  lemma ReceiverTx(s: State, r: ThreadId)
    requires r in s.receivers && ReceiverEnabled(s, s.receivers[r])
    ensures ApplyReceiver(s, r).tx == s.tx
  {
    hide ReceiverEnabled;
  }

  lemma {:induction false} SendsRun(s: State, steps: seq<Step>)
    requires Inv(s) && Sends(s) && CanRun(s, steps) && forall i | 0 <= i < |steps| :: !steps[i].Stop?
    ensures Sends(Run(s, steps))
    decreases |steps|
  {
    hide Inv, Sends, Enabled, Apply;
    if steps != [] {
      SendsStep(s, steps[0]);
      StepInv(s, steps[0]);
      SendsRun(Apply(s, steps[0]), steps[1..]);
    }
  }

  lemma PublishCall(s: State, t: ThreadId)
    requires Inv(s) && NoStop(s) && Enabled(s, Publish(t))
    ensures Sends(Apply(s, Publish(t)))
  {
    hide DispInv, ThreadsInv, ModeOk;
  }

  /** In every run: behind a publish, if no stop is under way then or begins later, the sender thread runs. */
  lemma PublishStarts(s: State, steps: seq<Step>, p: nat, t: ThreadId)
    requires Init(s) && CanRun(s, steps) && p < |steps| && steps[p] == Publish(t) && forall i | p < i < |steps| :: !steps[i].Stop?
    ensures CanRun(s, steps[..p])
    ensures NoStop(Run(s, steps[..p])) ==> Sends(Run(s, steps))
  {
    hide Init, Enabled, Inv, Apply, NoStop, Sends;
    InitInv(s);
    RunParts(s, steps, p);
    RunInv(s, steps[..p]);
    var s1, rest := Run(s, steps[..p]), steps[p..];
    assert forall i | 0 <= i < |rest[1..]| :: rest[1..][i] == steps[p + 1 + i];
    if NoStop(s1) {
      PublishCall(s1, t);
      StepInv(s1, Publish(t));
      SendsRun(Apply(s1, Publish(t)), rest[1..]);
    }
  }

  /** User u is not at the end of a stop, or the sender thread is gone. */
  ghost predicate SenderGone(s: State, u: UserId) {
    u in s.users && s.users[u] == StopFinishing ==> s.tx.thread == None
  }

  lemma SenderGoneStep(s: State, step: Step, u: UserId)
    requires Inv(s) && SenderGone(s, u) && Enabled(s, step) && !step.Publish?
    ensures SenderGone(Apply(s, step), u)
  {
    if step.StopNext? {
      hide Inv;
      SenderGoneStop(s, step.u, u);
    } else if ThreadStep(step) && !step.SenderStep? {
      hide Enabled, Apply, Inv;
      ThreadFrame(s, step);
    } else {
      hide Inv, SpawnHandler, SpawnReceiver, Dispatched;
      match step {
        case StartSpawn(_, t) => SpawnTx(s, t);
        case HandleSpawn(_, t) => SpawnTx(s, t);
        case HandleReturn(_) => DispatchedTx(s);
        case _ =>
      }
    }
  }

  lemma SpawnTx(s: State, t: ThreadId)
    ensures SpawnHandler(s, t).tx == s.tx && SpawnReceiver(s, t).tx == s.tx
    ensures SpawnReceiver(s, t).paused == s.paused && SpawnReceiver(s, t).recvQueued == s.recvQueued
  {
  }

  lemma DispatchedTx(s: State)
    ensures Dispatched(s).tx == s.tx && Dispatched(s).paused == s.paused
    ensures s.paused ==> Dispatched(s).recvQueued == s.recvQueued
  {
  }

  lemma SenderGoneStop(s: State, w: UserId, u: UserId)
    requires Inv(s) && SenderGone(s, u) && w in s.users && StopEnabled(s, s.users[w])
    ensures SenderGone(ApplyStop(s, w), u)
  {
    hide DispInv, ThreadsInv, ModeOk;
    UserDoing(s.users, s.modeOwner, s.hndlOwner, s.recvOwner, w);
    if u in s.users { UserDoing(s.users, s.modeOwner, s.hndlOwner, s.recvOwner, u); }
    hide Owners;
  }

  lemma {:induction false} SenderGoneRun(s: State, steps: seq<Step>, u: UserId)
    requires Inv(s) && SenderGone(s, u) && CanRun(s, steps) && forall i | 0 <= i < |steps| :: !steps[i].Publish?
    ensures SenderGone(Run(s, steps), u)
    decreases |steps|
  {
    hide Inv, SenderGone, Enabled, Apply;
    if steps != [] {
      SenderGoneStep(s, steps[0], u);
      StepInv(s, steps[0]);
      SenderGoneRun(Apply(s, steps[0]), steps[1..], u);
    }
  }

  /** In every run: a stop with no publish during it leaves no sender thread. */
  lemma StopStopsSender(s: State, steps: seq<Step>, p: nat, u: UserId)
    requires Init(s) && CanRun(s, steps) && p < |steps| && steps[p] == Stop(u) && forall i | p < i < |steps| :: !steps[i].Publish?
    requires Enabled(Run(s, steps), StopNext(u)) && u !in Apply(Run(s, steps), StopNext(u)).users
    ensures Apply(Run(s, steps), StopNext(u)).tx.threads == map[]
  {
    hide Init, Inv, Apply, Enabled, SenderGone;
    InitInv(s);
    RunParts(s, steps, p);
    RunInv(s, steps[..p]);
    RunInv(s, steps);
    var s1, rest := Run(s, steps[..p]), steps[p..];
    assert forall i | 0 <= i < |rest[1..]| :: rest[1..][i] == steps[p + 1 + i];
    StopBegins(s1, u);
    StepInv(s1, Stop(u));
    SenderGoneRun(Apply(s1, Stop(u)), rest[1..], u);
    LastOfStop(Run(s, steps), u);
  }

  lemma StopBegins(s: State, u: UserId)
    requires Enabled(s, Stop(u))
    ensures SenderGone(Apply(s, Stop(u)), u)
  {
  }

  lemma LastOfStop(s: State, u: UserId)
    requires Inv(s) && SenderGone(s, u) && Enabled(s, StopNext(u)) && u !in Apply(s, StopNext(u)).users
    ensures Apply(s, StopNext(u)).tx.threads == map[]
  {
    hide Owners, DispInv, ThreadsInv, ModeOk;
  }

  lemma PausedStep(s: State, step: Step)
    requires s.paused && Enabled(s, step) && !step.Resume?
    ensures Apply(s, step).paused && Apply(s, step).recvQueued >= s.recvQueued
  {
    hide ApplyStop, ApplyHandler, ApplyReceiver, HandlerEnabled, ReceiverEnabled, SenderEnabled, StopEnabled, ApplySender;
    match step {
      case StopNext(u) => PausedStop(s, u);
      case HandlerStep(h, t) => HandlerTx(s, h, t);
      case ReceiverStep(r) => PausedReceiver(s, r);
      case _ =>
    }
  }

  lemma PausedStop(s: State, u: UserId)
    requires u in s.users && StopEnabled(s, s.users[u])
    ensures ApplyStop(s, u).paused == s.paused && ApplyStop(s, u).recvQueued == s.recvQueued
  {
    hide ApplyStopHandler, ApplyStopReceiver, ApplyStopSender, SameThreads, StopTarget;
    if s.users[u] in {StopHandler, JoinHandler, MarkHandler} {
      PausedStopHandler(s, u);
    } else if s.users[u] in {StopReceiver, JoinReceiver, MarkReceiver} {
      PausedStopReceiver(s, u);
    } else if s.users[u] in {StopSender, JoinSender, MarkSender} {
      PausedStopSender(s, u);
    }
  }

  lemma PausedStopHandler(s: State, u: UserId)
    requires u in s.users && s.users[u] in {StopHandler, JoinHandler, MarkHandler}
    ensures ApplyStopHandler(s, u).paused == s.paused && ApplyStopHandler(s, u).recvQueued == s.recvQueued
  {
    hide SameThreads, StopTarget;
  }

  lemma PausedStopReceiver(s: State, u: UserId)
    requires u in s.users && s.users[u] in {StopReceiver, JoinReceiver, MarkReceiver}
    ensures ApplyStopReceiver(s, u).paused == s.paused && ApplyStopReceiver(s, u).recvQueued == s.recvQueued
  {
    hide SameThreads, StopTarget;
  }

  lemma PausedStopSender(s: State, u: UserId)
    requires u in s.users && s.users[u] in {StopSender, JoinSender, MarkSender}
    ensures ApplyStopSender(s, u).paused == s.paused && ApplyStopSender(s, u).recvQueued == s.recvQueued
  {
    hide SameThreads, StopTarget, StopTx;
  }

  lemma PausedReceiver(s: State, r: ThreadId)
    requires r in s.receivers && ReceiverEnabled(s, s.receivers[r])
    ensures ApplyReceiver(s, r).paused == s.paused && ApplyReceiver(s, r).recvQueued >= s.recvQueued
  {
    hide ReceiverEnabled;
  }

  lemma {:induction false} PausedRun(s: State, steps: seq<Step>)
    requires s.paused && CanRun(s, steps) && forall i | 0 <= i < |steps| :: !steps[i].Resume?
    ensures Run(s, steps).recvQueued >= s.recvQueued
    decreases |steps|
  {
    hide Enabled, Apply;
    if steps != [] {
      PausedStep(s, steps[0]);
      PausedRun(Apply(s, steps[0]), steps[1..]);
    }
  }

  /** In every run: behind a pause that no resume follows no message is taken from the receive queue. */
  lemma PauseKeepsMessages(s: State, steps: seq<Step>, p: nat)
    requires CanRun(s, steps) && p < |steps| && steps[p] == Pause && forall i | p < i < |steps| :: !steps[i].Resume?
    ensures CanRun(s, steps[..p]) && Run(s, steps).recvQueued >= Run(s, steps[..p]).recvQueued
  {
    hide Enabled;
    RunParts(s, steps, p);
    var s1, rest := Run(s, steps[..p]), steps[p..];
    assert rest[0] == Pause && Apply(s1, Pause).paused && Apply(s1, Pause).recvQueued == s1.recvQueued;
    hide Apply;
    assert forall i | 0 <= i < |rest[1..]| :: rest[1..][i] == steps[p + 1 + i];
    PausedRun(Apply(s1, Pause), rest[1..]);
  }

  /** The steps in which handler thread h takes one message. */
  function TakeOne(h: ThreadId): seq<Step> {
    [HandlerStep(h, h), HandlerStep(h, h), HandlerStep(h, h)]
  }

  /** After a resume, a handler thread that waits takes a message that is there in its next three steps. */
  lemma ResumeDispatches(s: State, h: ThreadId)
    requires Inv(s) && AllSpawned(s) && s.mode == ModeSpawn && s.dispOwner == Nobody && s.recvOn && s.recvQueued > 0
    requires h in s.handlers && s.handlers[h] == Looping
    ensures var t := Apply(s, Resume);
            && CanRun(t, TakeOne(h))
            && Run(t, TakeOne(h)).recvQueued == s.recvQueued - 1 && Run(t, TakeOne(h)).handlers == s.handlers
  {
    ModeRuns(s);
    hide Inv, CanRun, Run;
    var t := Apply(s, Resume);
    var t1 := Apply(t, HandlerStep(h, h));
    var t2 := Apply(t1, HandlerStep(h, h));
    var t3 := Apply(t2, HandlerStep(h, h));
    var steps := TakeOne(h);
    LastStep(t3, steps);
    OneStep(t2, t3, steps, 2);
    OneStep(t1, t2, steps, 1);
    OneStep(t, t1, steps, 0);
    assert steps[0..] == steps;
  }

  /** A message that arrives is in the receive queue two steps later, if there is room, and a handle call
      that waits there takes it and returns, unless the engine is paused. */
  lemma HandleReceives(s: State, r: ThreadId, u: UserId)
    requires Enabled(s, Arrive(r)) && s.recvOn && s.recvRoom > 0 && s.mode == ModeHandle && s.hndlState == Stopped
    requires u in s.users && s.users[u] == HandleInTop
    ensures var s1 := Apply(s, Arrive(r));
            && Enabled(s1, ReceiverStep(r))
            && var s2 := Apply(s1, ReceiverStep(r));
               && s2.recvQueued == s.recvQueued + 1 && s2.recvRoom == s.recvRoom - 1 && Enabled(s2, HandleReturn(u))
               && var s3 := Apply(s2, HandleReturn(u));
                  s3.users == s.users - {u} && s3.recvQueued == if s.paused then s.recvQueued + 1 else s.recvQueued
  {
  }

  lemma LastStep(s: State, steps: seq<Step>)
    ensures CanRun(s, steps[|steps|..]) && Run(s, steps[|steps|..]) == s
  {
  }

  lemma OneStep(s: State, t: State, steps: seq<Step>, i: nat)
    requires i < |steps| && Enabled(s, steps[i]) && t == Apply(s, steps[i]) && CanRun(t, steps[i + 1..])
    ensures CanRun(s, steps[i..]) && Run(s, steps[i..]) == Run(t, steps[i + 1..])
  {
    hide Enabled, Apply;
    assert steps[i..][1..] == steps[i + 1..];
  }
}
