/** The sending side of the blocking engine (zcm/blocking.cpp): any number of publishers and
    flushers, the sender thread, pause, resume and stop, as a step system. A step is what one thread
    does under one mutex; steps of different threads interleave freely. The queue is a bounded FIFO
    with an enabled flag. */
module Sender {
  import opened Threads

  /** A message; only its identity matters here. */
  type Msg = int
  type FlusherId = nat

  /** Where the sender thread stands in sendThreadFunc and sendOneMessage. */
  datatype SenderPc =
    | NotStarted
    | Waiting                 // on sendPauseCond
    | Acquiring               // about to lock sendOneMutex
    | AtTop                   // in sendQueue.top()
    | Checking(msg: Msg)      // about to look at `paused`
    | Sending(msg: Msg)       // about to hand the message to the transport
    | Popping(msg: Msg)       // about to pop it from the queue
    | Exiting
    | Done

  /** Where a flush() call stands in its sending half. */
  datatype FlushPc =
    | WantLock
    | Locked
    | Counting
    | Looping(left: nat)
    | FlushSending(msg: Msg, left: nat)
    | FlushPopping(msg: Msg, left: nat)

  datatype Owner = Nobody | TheSender | Flusher(id: FlusherId)

  datatype State = State(
    capacity: nat,
    queue: seq<Msg>,
    enabled: bool,
    paused: bool,
    thread: ThreadState,
    sender: SenderPc,
    flushers: map<FlusherId, FlushPc>,
    sendOne: Owner,           // sendOneMutex
    accepted: seq<Msg>,       // publishes that returned success, in order
    handed: seq<Msg>)         // messages given to the transport, in order

  datatype Step =
    | Spawn                   // publish: start the sender thread if it is stopped
    | Push(m: Msg)            // publish: pushIfRoom
    | Pause
    | Resume
    | StopBegin               // stop: ask the thread to halt
    | StopJoin                // stop: join it
    | SenderWake
    | SenderLock
    | SenderTop
    | SenderCheck
    | SenderSend
    | SenderPop
    | SenderExit
    | FlushStart(f: FlusherId)
    | FlushLock(f: FlusherId)
    | FlushGiveUp(f: FlusherId)
    | FlushEnable(f: FlusherId)
    | FlushCount(f: FlusherId)
    | FlushTop(f: FlusherId)
    | FlushSend(f: FlusherId)
    | FlushPop(f: FlusherId)
    | FlushDone(f: FlusherId)

  predicate Init(s: State) {
    && s.queue == [] && s.enabled && !s.paused && s.thread == Stopped && s.sender == NotStarted
    && s.flushers == map[] && s.sendOne == Nobody && s.accepted == [] && s.handed == []
  }

  /** Whether a step can happen in a state. */
  predicate Enabled(s: State, step: Step) {
    match step
    case Spawn => true
    case Push(_) => true
    case Pause => true
    case Resume => true
    case StopBegin => s.thread == Running
    case StopJoin => s.thread == Halted && s.sender == Done
    case SenderWake => s.sender == Waiting && ((!s.paused && s.enabled) || s.thread == Halting)
    case SenderLock => s.sender == Acquiring && s.sendOne == Nobody
    case SenderTop => s.sender == AtTop && (!s.enabled || s.queue != [])
    case SenderCheck => s.sender.Checking?
    case SenderSend => s.sender.Sending?
    case SenderPop => s.sender.Popping? && s.queue != []
    case SenderExit => s.sender == Exiting
    case FlushStart(f) => f !in s.flushers
    case FlushLock(f) => f in s.flushers && s.flushers[f] == WantLock && s.sendOne == Nobody
    case FlushGiveUp(f) => f in s.flushers && s.flushers[f] == WantLock && s.sendOne != Nobody
    case FlushEnable(f) => f in s.flushers && s.flushers[f] == Locked
    case FlushCount(f) => f in s.flushers && s.flushers[f] == Counting
    case FlushTop(f) => f in s.flushers && s.flushers[f].Looping? && s.flushers[f].left > 0 && (!s.enabled || s.queue != [])
    case FlushSend(f) => f in s.flushers && s.flushers[f].FlushSending?
    case FlushPop(f) => f in s.flushers && s.flushers[f].FlushPopping? && s.queue != []
    case FlushDone(f) => f in s.flushers && s.flushers[f] == Looping(0)
  }

  /** What it does. */
  function Apply(s: State, step: Step): State
    requires Enabled(s, step)
  {
    match step
    case Spawn => if s.thread == Stopped then s.(thread := Running, sender := Waiting) else s
    case Push(m) =>
      if |s.queue| < s.capacity then s.(queue := s.queue + [m], accepted := s.accepted + [m]) else s
    case Pause => s.(paused := true)
    case Resume => s.(paused := false)
    case StopBegin => s.(thread := Halting, enabled := false)
    case StopJoin => s.(thread := Stopped, sender := NotStarted)
    case SenderWake => s.(sender := if s.thread == Halting then Exiting else Acquiring)
    case SenderLock => s.(sendOne := TheSender, sender := AtTop)
    case SenderTop =>
      if !s.enabled then s.(sendOne := Nobody, sender := Waiting) else s.(sender := Checking(s.queue[0]))
    case SenderCheck =>
      if s.paused || s.thread == Halting then s.(sendOne := Nobody, sender := Waiting)
      else s.(sender := Sending(s.sender.msg))
    case SenderSend => s.(handed := s.handed + [s.sender.msg], sender := Popping(s.sender.msg))
    case SenderPop => s.(queue := s.queue[1..], sendOne := Nobody, sender := Waiting)
    case SenderExit => s.(thread := Halted, sender := Done)
    case FlushStart(f) => s.(enabled := false, flushers := s.flushers[f := WantLock])
    case FlushLock(f) => s.(sendOne := Flusher(f), flushers := s.flushers[f := Locked])
    case FlushGiveUp(f) => s.(enabled := true, flushers := s.flushers - {f})
    case FlushEnable(f) => s.(enabled := true, flushers := s.flushers[f := Counting])
    case FlushCount(f) => s.(flushers := s.flushers[f := Looping(|s.queue|)])
    case FlushTop(f) =>
      var left := s.flushers[f].left - 1;
      s.(flushers := s.flushers[f := if !s.enabled then Looping(left) else FlushSending(s.queue[0], left)])
    case FlushSend(f) =>
      var pc := s.flushers[f];
      s.(handed := s.handed + [pc.msg], flushers := s.flushers[f := FlushPopping(pc.msg, pc.left)])
    case FlushPop(f) => s.(queue := s.queue[1..], flushers := s.flushers[f := Looping(s.flushers[f].left)])
    case FlushDone(f) => s.(sendOne := Nobody, flushers := s.flushers - {f})
  }

  /* ---------- runs ---------- */

  /** The steps can be taken one after the other from s. */
  predicate CanRun(s: State, steps: seq<Step>)
    decreases |steps|
  {
    steps == [] || (Enabled(s, steps[0]) && CanRun(Apply(s, steps[0]), steps[1..]))
  }

  function Run(s: State, steps: seq<Step>): State
    requires CanRun(s, steps)
    decreases |steps|
  {
    if steps == [] then s else Run(Apply(s, steps[0]), steps[1..])
  }

  /* ---------- order and delivery ---------- */

  predicate HoldsLock(pc: FlushPc) {
    !pc.WantLock?
  }

  /** A message has been handed over and is about to be popped. */
  predicate BetweenSendAndPop(s: State) {
    match s.sendOne
    case Nobody => false
    case TheSender => s.sender.Popping?
    case Flusher(f) => f in s.flushers && s.flushers[f].FlushPopping?
  }

  /** The messages accepted and not yet handed over. */
  function Pending(s: State): seq<Msg> {
    if BetweenSendAndPop(s) && s.queue != [] then s.queue[1..] else s.queue
  }

  /** What every step keeps. */
  ghost predicate Inv(s: State) {
    && |s.queue| <= s.capacity
    && s.handed + Pending(s) == s.accepted
    && (s.sendOne == TheSender <==> s.sender in {AtTop} || s.sender.Checking? || s.sender.Sending? || s.sender.Popping?)
    && (forall f | f in s.flushers :: HoldsLock(s.flushers[f]) <==> s.sendOne == Flusher(f))
    && (s.sendOne.Flusher? ==> s.sendOne.id in s.flushers)
    && (s.sender.Checking? || s.sender.Sending? || s.sender.Popping? ==> s.queue != [] && s.queue[0] == s.sender.msg)
    && (forall f | f in s.flushers && (s.flushers[f].FlushSending? || s.flushers[f].FlushPopping?) ::
          s.queue != [] && s.queue[0] == s.flushers[f].msg)
    && (s.sender in {NotStarted, Exiting, Done} || s.thread in {Running, Halting})
    && (s.thread == Stopped <==> s.sender == NotStarted)
    && (s.thread == Halted <==> s.sender == Done)
    && (s.sender == Exiting ==> s.thread == Halting)
    && (BetweenSendAndPop(s) ==> s.handed != [])
  }

  lemma InitInv(s: State)
    requires Init(s)
    ensures Inv(s)
  {
  }

  /** A step of the sender thread. */
  predicate SenderStep(step: Step) {
    step.SenderWake? || step.SenderLock? || step.SenderTop? || step.SenderCheck? || step.SenderSend? || step.SenderPop?
    || step.SenderExit?
  }

  lemma SenderStepInv(s: State, step: Step)
    requires Inv(s) && Enabled(s, step) && SenderStep(step)
    ensures Inv(Apply(s, step))
  {
    match step
    case SenderSend =>
      assert s.queue == [s.queue[0]] + s.queue[1..];
      assert s.handed + [s.queue[0]] + s.queue[1..] == s.handed + s.queue;
    case _ =>
  }

  lemma UserStepInv(s: State, step: Step)
    requires Inv(s) && Enabled(s, step)
    requires step.Spawn? || step.Push? || step.Pause? || step.Resume? || step.StopBegin? || step.StopJoin?
    ensures Inv(Apply(s, step))
  {
    var t := Apply(s, step);
    if step.Push? && |s.queue| < s.capacity {
      assert Pending(t) == Pending(s) + [step.m];
      assert s.handed + (Pending(s) + [step.m]) == s.handed + Pending(s) + [step.m];
    }
  }

  lemma FlushBeginInv(s: State, step: Step)
    requires Inv(s) && Enabled(s, step) && (step.FlushStart? || step.FlushLock? || step.FlushGiveUp?)
    ensures Inv(Apply(s, step))
  {
  }

  lemma FlushCountInv(s: State, step: Step)
    requires Inv(s) && Enabled(s, step) && (step.FlushEnable? || step.FlushCount? || step.FlushDone?)
    ensures Inv(Apply(s, step))
  {
  }

  lemma FlushTopInv(s: State, step: Step)
    requires Inv(s) && Enabled(s, step) && (step.FlushTop? || step.FlushPop?)
    ensures Inv(Apply(s, step))
  {
  }

  lemma FlushSendInv(s: State, step: Step)
    requires Inv(s) && Enabled(s, step) && step.FlushSend?
    ensures Inv(Apply(s, step))
  {
    assert s.queue == [s.queue[0]] + s.queue[1..];
    assert s.handed + [s.queue[0]] + s.queue[1..] == s.handed + s.queue;
  }

  lemma StepInv(s: State, step: Step)
    requires Inv(s) && Enabled(s, step)
    ensures Inv(Apply(s, step))
  {
    hide Inv, Apply, Enabled;
    match step
    case Spawn => UserStepInv(s, step);
    case Push(_) => UserStepInv(s, step);
    case Pause => UserStepInv(s, step);
    case Resume => UserStepInv(s, step);
    case StopBegin => UserStepInv(s, step);
    case StopJoin => UserStepInv(s, step);
    case SenderWake => SenderStepInv(s, step);
    case SenderLock => SenderStepInv(s, step);
    case SenderTop => SenderStepInv(s, step);
    case SenderCheck => SenderStepInv(s, step);
    case SenderSend => SenderStepInv(s, step);
    case SenderPop => SenderStepInv(s, step);
    case SenderExit => SenderStepInv(s, step);
    case FlushStart(_) => FlushBeginInv(s, step);
    case FlushLock(_) => FlushBeginInv(s, step);
    case FlushGiveUp(_) => FlushBeginInv(s, step);
    case FlushTop(_) => FlushTopInv(s, step);
    case FlushPop(_) => FlushTopInv(s, step);
    case FlushSend(_) => FlushSendInv(s, step);
    case _ => FlushCountInv(s, step);
  }

  lemma {:induction false} RunInv(s: State, steps: seq<Step>)
    requires Inv(s) && CanRun(s, steps)
    ensures Inv(Run(s, steps))
    decreases |steps|
  {
    hide Inv, Enabled, Apply;
    if steps != [] {
      StepInv(s, steps[0]);
      RunInv(Apply(s, steps[0]), steps[1..]);
    }
  }

  /** In every interleaving the messages handed to the transport, followed by those still queued,
      are the accepted publishes in order: none lost, none duplicated, none reordered. */
  lemma DeliveredInOrder(s: State, steps: seq<Step>)
    requires Init(s) && CanRun(s, steps)
    ensures var t := Run(s, steps);
            && t.handed + Pending(t) == t.accepted && t.handed <= t.accepted
            && (t.sendOne == Nobody ==> t.handed + t.queue == t.accepted)
            && |t.queue| <= t.capacity
  {
    hide Enabled, Apply, CanRun, Run;
    InitInv(s);
    RunInv(s, steps);
    var t := Run(s, steps);
    assert t.handed == (t.handed + Pending(t))[..|t.handed|];
  }

  /* ---------- pause ---------- */

  function SenderSends(steps: seq<Step>): nat {
    if steps == [] then 0 else (if steps[0].SenderSend? then 1 else 0) + SenderSends(steps[1..])
  }

  /** Between a pause and the next resume the sender thread hands over at most one more message, and
      only if it had already looked at the flag when the pause came. */
  lemma {:induction false} PausedSendsAtMostOne(s: State, steps: seq<Step>)
    requires s.paused && CanRun(s, steps) && forall i | 0 <= i < |steps| :: !steps[i].Resume?
    ensures SenderSends(steps) <= (if s.sender.Sending? then 1 else 0)
    decreases |steps|
  {
    if steps != [] {
      PausedStep(s, steps[0]);
      PausedSendsAtMostOne(Apply(s, steps[0]), steps[1..]);
    }
  }

  /** A step taken while paused: no step but a resume unpauses, and none reaches Sending. */
  lemma PausedStep(s: State, step: Step)
    requires s.paused && Enabled(s, step) && !step.Resume?
    ensures Apply(s, step).paused
    ensures Apply(s, step).sender.Sending? ==> s.sender.Sending? && !step.SenderSend?
  {
  }

  /** A run in two parts. */
  lemma {:induction false} RunParts(s: State, steps: seq<Step>, p: nat)
    requires p <= |steps| && CanRun(s, steps)
    ensures CanRun(s, steps[..p]) && CanRun(Run(s, steps[..p]), steps[p..]) && Run(Run(s, steps[..p]), steps[p..]) == Run(s, steps)
    decreases |steps|
  {
    hide Enabled, Apply;
    if p == 0 {
      assert steps[..0] == [] && steps[0..] == steps;
    } else {
      RunParts(Apply(s, steps[0]), steps[1..], p - 1);
      assert steps[..p][1..] == steps[1..][..p - 1] && steps[1..][p - 1..] == steps[p..];
    }
  }

  /** In every run, behind a pause that no resume follows the sender thread hands over at most one message. */
  lemma PauseHolds(s: State, steps: seq<Step>, p: nat)
    requires Init(s) && CanRun(s, steps) && p < |steps| && steps[p] == Pause
    requires forall i | p < i < |steps| :: !steps[i].Resume?
    ensures SenderSends(steps[p..]) <= 1
  {
    hide Init, Enabled;
    RunParts(s, steps, p);
    var s1, rest := Run(s, steps[..p]), steps[p..];
    assert rest[0] == Pause && Apply(s1, Pause).paused;
    hide Apply;
    assert forall i | 0 <= i < |rest[1..]| :: rest[1..][i] == steps[p + 1 + i];
    PausedSendsAtMostOne(Apply(s1, Pause), rest[1..]);
  }

  /* ---------- stop and disabled queues ---------- */

  /** A step taken while the thread is asked to halt. */
  lemma HaltingStep(s: State, step: Step)
    requires Inv(s) && s.thread in {Halting, Halted} && Enabled(s, step) && !step.StopJoin?
    ensures Apply(s, step).thread in {Halting, Halted}
    ensures Apply(s, step).sender.Sending? ==> s.sender.Sending? && !step.SenderSend?
  {
  }

  lemma {:induction false} HaltingSendsAtMostOne(s: State, steps: seq<Step>)
    requires Inv(s) && s.thread in {Halting, Halted} && CanRun(s, steps) && forall i | 0 <= i < |steps| :: !steps[i].StopJoin?
    ensures SenderSends(steps) <= (if s.sender.Sending? then 1 else 0)
    decreases |steps|
  {
    hide Inv;
    if steps != [] {
      HaltingStep(s, steps[0]);
      StepInv(s, steps[0]);
      HaltingSendsAtMostOne(Apply(s, steps[0]), steps[1..]);
    }
  }

  /** In every run: between the start of a stop and its join the sender thread hands over at most one
      message, and only if it was about to when the stop began. */
  lemma StopHolds(s: State, steps: seq<Step>, p: nat)
    requires Init(s) && CanRun(s, steps) && p < |steps| && steps[p] == StopBegin && forall i | p < i < |steps| :: !steps[i].StopJoin?
    ensures CanRun(s, steps[..p])
    ensures SenderSends(steps[p..]) <= (if Run(s, steps[..p]).sender.Sending? then 1 else 0)
  {
    hide Inv, Enabled;
    InitInv(s);
    RunParts(s, steps, p);
    RunInv(s, steps[..p]);
    var s1, rest := Run(s, steps[..p]), steps[p..];
    StepInv(s1, StopBegin);
    assert rest[0] == StopBegin && Apply(s1, StopBegin).thread == Halting && Apply(s1, StopBegin).sender == s1.sender;
    hide Apply;
    assert forall i | 0 <= i < |rest[1..]| :: rest[1..][i] == steps[p + 1 + i];
    HaltingSendsAtMostOne(Apply(s1, StopBegin), rest[1..]);
  }

  /** The holder of sendOneMutex has a message that it got before the queue was disabled. */
  function InFlight(s: State): nat {
    match s.sendOne
    case Nobody => 0
    case TheSender => if s.sender.Checking? || s.sender.Sending? then 1 else 0
    case Flusher(f) => if f in s.flushers && s.flushers[f].FlushSending? then 1 else 0
  }

  predicate Enables(step: Step) {
    step.FlushEnable? || step.FlushGiveUp?
  }

  lemma DisabledStep(s: State, step: Step)
    requires Inv(s) && !s.enabled && Enabled(s, step) && !Enables(step)
    ensures !Apply(s, step).enabled && |Apply(s, step).handed| + InFlight(Apply(s, step)) <= |s.handed| + InFlight(s)
  {
  }

  /** While the queue is disabled at most one more message is handed over, by whichever thread, and only
      one that was taken from the queue before. */
  lemma {:induction false} DisabledSendsAtMostOne(s: State, steps: seq<Step>)
    requires Inv(s) && !s.enabled && CanRun(s, steps) && forall i | 0 <= i < |steps| :: !Enables(steps[i])
    ensures |Run(s, steps).handed| <= |s.handed| + InFlight(s) <= |s.handed| + 1
    decreases |steps|
  {
    hide Inv, Enabled, Apply;
    if steps != [] {
      DisabledStep(s, steps[0]);
      StepInv(s, steps[0]);
      DisabledSendsAtMostOne(Apply(s, steps[0]), steps[1..]);
    }
  }

  /* ---------- publish ---------- */

  /** The messages of a run's publishes. */
  function Pushes(steps: seq<Step>): seq<Msg> {
    if steps == [] then [] else (if steps[0].Push? then [steps[0].m] else []) + Pushes(steps[1..])
  }

  lemma PushStep(s: State, step: Step)
    requires Inv(s) && Enabled(s, step) && |s.accepted| + |Pushes([step])| <= s.capacity
    ensures Apply(s, step).capacity == s.capacity
    ensures Apply(s, step).accepted == s.accepted + if step.Push? then [step.m] else []
  {
    assert [step][1..] == [];
    assert s.accepted + [] == s.accepted;
    if step.Push? { assert |s.queue| <= |s.accepted|; }
  }

  /** As many publishes as the queue can hold are all accepted, whatever the other threads do. */
  lemma {:induction false} NoneRefused(s: State, steps: seq<Step>)
    requires Inv(s) && CanRun(s, steps) && |s.accepted| + |Pushes(steps)| <= s.capacity
    ensures Run(s, steps).accepted == s.accepted + Pushes(steps)
    decreases |steps|
  {
    hide Inv, Enabled, Apply;
    if steps == [] {
      assert s.accepted + [] == s.accepted;
    } else {
      assert [steps[0]][1..] == [];
      PushStep(s, steps[0]);
      StepInv(s, steps[0]);
      NoneRefused(Apply(s, steps[0]), steps[1..]);
    }
  }

  /* ---------- flush ---------- */

  /** Flusher f holds the lock and has this many messages left to hand over. */
  function Remaining(pc: FlushPc): nat {
    match pc
    case Looping(left) => left
    case FlushSending(_, left) => left + 1
    case FlushPopping(_, left) => left
    case _ => 0
  }

  ghost predicate Draining(s: State, f: FlusherId, total: nat) {
    && s.enabled && f in s.flushers && s.sendOne == Flusher(f)
    && (s.flushers[f].Looping? || s.flushers[f].FlushSending? || s.flushers[f].FlushPopping?)
    && |s.handed| + Remaining(s.flushers[f]) == total
  }

  /** Steps that disable the queue. */
  predicate Disables(step: Step) {
    step.FlushStart? || step.StopBegin?
  }

  lemma DrainStep(s: State, step: Step, f: FlusherId, total: nat)
    requires Inv(s) && Draining(s, f, total) && Enabled(s, step) && !Disables(step) && step != FlushDone(f)
    ensures Draining(Apply(s, step), f, total)
    ensures s.accepted <= Apply(s, step).accepted
  {
  }

  lemma {:induction false} DrainRun(s: State, steps: seq<Step>, f: FlusherId, total: nat)
    requires Inv(s) && Draining(s, f, total) && CanRun(s, steps)
    requires forall i | 0 <= i < |steps| :: !Disables(steps[i]) && steps[i] != FlushDone(f)
    ensures Draining(Run(s, steps), f, total) && s.accepted <= Run(s, steps).accepted
    decreases |steps|
  {
    hide Inv, Enabled, Apply, Draining;
    if steps != [] {
      StepInv(s, steps[0]);
      DrainStep(s, steps[0], f, total);
      DrainRun(Apply(s, steps[0]), steps[1..], f, total);
    }
  }

  lemma DrainStart(s: State, f: FlusherId)
    requires Inv(s) && s.enabled && Enabled(s, FlushCount(f))
    ensures Draining(Apply(s, FlushCount(f)), f, |s.accepted|) && Apply(s, FlushCount(f)).accepted == s.accepted
  {
    assert Pending(s) == s.queue;
  }

  lemma DrainEnd(t: State, f: FlusherId, total: nat)
    requires Draining(t, f, total) && Enabled(t, FlushDone(f))
    ensures |t.handed| == total && Apply(t, FlushDone(f)).handed == t.handed
  {
  }

  /** When a flush ends that no other flush or stop disturbed since it counted the queue, exactly the
      messages accepted before it counted have been handed over, in order. */
  lemma FlushDrains(s: State, f: FlusherId, steps: seq<Step>)
    requires Inv(s) && s.enabled && Enabled(s, FlushCount(f)) && CanRun(Apply(s, FlushCount(f)), steps)
    requires forall i | 0 <= i < |steps| :: !Disables(steps[i]) && steps[i] != FlushDone(f)
    requires Enabled(Run(Apply(s, FlushCount(f)), steps), FlushDone(f))
    ensures Apply(Run(Apply(s, FlushCount(f)), steps), FlushDone(f)).handed == s.accepted
  {
    hide CanRun, Run, Apply, Enabled, Draining;
    var s0 := Apply(s, FlushCount(f));
    StepInv(s, FlushCount(f));
    DrainStart(s, f);
    DrainRun(s0, steps, f, |s.accepted|);
    RunInv(s0, steps);
    var t := Run(s0, steps);
    DrainEnd(t, f, |s.accepted|);
    assert t.handed == (t.handed + Pending(t))[..|t.handed|] == t.accepted[..|s.accepted|] == s.accepted;
  }

  /* ---------- when an accepted message is handed over ---------- */

  predicate SenderOnly(steps: seq<Step>) {
    forall i | 0 <= i < |steps| :: SenderStep(steps[i])
  }

  /** Nobody flushes, and nothing keeps the sender thread from sending. */
  ghost predicate Active(s: State) {
    Inv(s) && s.enabled && !s.paused && s.thread == Running && s.flushers == map[]
  }

  /** Steps that the sender thread has left before it waits for a message in an empty queue. */
  function StepsLeft(s: State): int {
    6 * |s.queue| + match s.sender
                    case Waiting => 2
                    case Acquiring => 1
                    case Checking(_) => -1
                    case Sending(_) => -2
                    case Popping(_) => -3
                    case _ => 0
  }

  lemma ActiveStep(s: State, step: Step)
    requires Active(s) && SenderStep(step) && Enabled(s, step)
    ensures Active(Apply(s, step)) && Apply(s, step).accepted == s.accepted
    ensures 0 <= StepsLeft(Apply(s, step)) < StepsLeft(s)
  {
    StepInv(s, step);
  }

  /** Alone, an active sender thread makes only so many steps. */
  lemma {:induction false} ActiveRun(s: State, steps: seq<Step>)
    requires Active(s) && SenderOnly(steps) && CanRun(s, steps)
    ensures Active(Run(s, steps)) && Run(s, steps).accepted == s.accepted && |steps| <= StepsLeft(s)
    decreases |steps|
  {
    hide Active, Enabled, Apply, StepsLeft, SenderStep;
    if steps == [] {
      LeftOver(s);
    } else {
      assert SenderStep(steps[0]);
      ActiveStep(s, steps[0]);
      assert SenderOnly(steps[1..]);
      ActiveRun(Apply(s, steps[0]), steps[1..]);
    }
  }

  lemma LeftOver(s: State)
    requires Active(s)
    ensures StepsLeft(s) >= 0
  {
  }

  /** The sender thread cannot go on. */
  ghost predicate Stuck(s: State) {
    forall step | SenderStep(step) :: !Enabled(s, step)
  }

  /** An active one gets stuck only when everything is handed over. */
  lemma StuckActive(s: State)
    requires Active(s) && Stuck(s)
    ensures s.handed == s.accepted
  {
    assert !Enabled(s, SenderWake) && !Enabled(s, SenderLock) && !Enabled(s, SenderTop);
    assert !Enabled(s, SenderCheck) && !Enabled(s, SenderSend) && !Enabled(s, SenderPop) && !Enabled(s, SenderExit);
    assert s.handed + [] == s.handed;
  }

  /** With messages pending and no flush or stop under way, a waiting sender thread that runs as long as
      it can hands over all accepted messages exactly when the queue is enabled and the engine not paused. */
  lemma HandedOverExactly(s: State, steps: seq<Step>)
    requires Inv(s) && s.thread == Running && s.sender == Waiting && s.flushers == map[] && s.queue != []
    requires SenderOnly(steps) && CanRun(s, steps) && Stuck(Run(s, steps))
    ensures Run(s, steps).accepted == s.accepted
    ensures Run(s, steps).handed == s.accepted <==> s.enabled && !s.paused
  {
    if s.enabled && !s.paused {
      ActiveRun(s, steps);
      StuckActive(Run(s, steps));
    } else {
      if steps != [] { assert false; }
      assert |s.accepted| == |s.handed| + |s.queue|;
    }
  }

  /** A resume is enough: with the queue enabled and no flush or stop under way, a sender thread that runs
      as long as it can after it has handed over every accepted message. */
  lemma ResumeDelivers(s: State, steps: seq<Step>)
    requires Inv(s) && s.enabled && s.thread == Running && s.flushers == map[]
    requires SenderOnly(steps) && CanRun(Apply(s, Resume), steps) && Stuck(Run(Apply(s, Resume), steps))
    ensures Run(Apply(s, Resume), steps).handed == s.accepted
  {
    var t := Apply(s, Resume);
    StepInv(s, Resume);
    assert Active(t) && t.accepted == s.accepted;
    hide Active, Apply, Stuck;
    ActiveRun(t, steps);
    StuckActive(Run(t, steps));
  }

  /** The queue is disabled only while a flush is about to enable it again. */
  ghost predicate FlushEnables(s: State) {
    !s.enabled ==> exists f :: f in s.flushers && s.flushers[f] in {WantLock, Locked}
  }

  lemma FlushEnablesStep(s: State, step: Step)
    requires FlushEnables(s) && Enabled(s, step) && !step.StopBegin?
    ensures FlushEnables(Apply(s, step))
  {
    var t := Apply(s, step);
    if !t.enabled {
      if step.FlushStart? {
        assert t.flushers[step.f] == WantLock;
      } else {
        var f :| f in s.flushers && s.flushers[f] in {WantLock, Locked};
        assert f in t.flushers && t.flushers[f] in {WantLock, Locked};
      }
    }
  }

  lemma {:induction false} FlushEnablesRun(s: State, steps: seq<Step>)
    requires FlushEnables(s) && CanRun(s, steps) && forall i | 0 <= i < |steps| :: !steps[i].StopBegin?
    ensures FlushEnables(Run(s, steps))
    decreases |steps|
  {
    hide FlushEnables, Enabled, Apply;
    if steps != [] {
      FlushEnablesStep(s, steps[0]);
      FlushEnablesRun(Apply(s, steps[0]), steps[1..]);
    }
  }

  /** In every run without a stop, whenever no flush is under way the queue is enabled. */
  lemma FlushLeavesEnabled(s: State, steps: seq<Step>)
    requires Init(s) && CanRun(s, steps) && forall i | 0 <= i < |steps| :: !steps[i].StopBegin?
    ensures Run(s, steps).flushers == map[] ==> Run(s, steps).enabled
  {
    hide CanRun, Run;
    FlushEnablesRun(s, steps);
  }

  /** The queue is disabled and nobody is about to enable it or to send. */
  predicate Stranded(s: State) {
    !s.enabled && s.flushers == map[] && s.sender in {NotStarted, Waiting, Exiting, Done}
  }

  lemma StrandedStep(s: State, step: Step)
    requires Stranded(s) && Enabled(s, step) && !step.FlushStart?
    ensures Stranded(Apply(s, step)) && Apply(s, step).handed == s.handed
  {
  }

  /** Then, whatever is published, paused, resumed, stopped and started again, nothing is handed over
      until somebody flushes. */
  lemma {:induction false} StrandedRun(s: State, steps: seq<Step>)
    requires Stranded(s) && CanRun(s, steps) && forall i | 0 <= i < |steps| :: !steps[i].FlushStart?
    ensures Stranded(Run(s, steps)) && Run(s, steps).handed == s.handed
    decreases |steps|
  {
    hide Enabled, Apply, Stranded;
    if steps != [] {
      StrandedStep(s, steps[0]);
      StrandedRun(Apply(s, steps[0]), steps[1..]);
    }
  }

  /** Disabled with no flush under way, and it stays so. */
  lemma {:induction false} DisabledRun(s: State, steps: seq<Step>)
    requires !s.enabled && s.flushers == map[] && CanRun(s, steps) && forall i | 0 <= i < |steps| :: !steps[i].FlushStart?
    ensures !Run(s, steps).enabled && Run(s, steps).flushers == map[]
    decreases |steps|
  {
    if steps != [] { DisabledRun(Apply(s, steps[0]), steps[1..]); }
  }

  /** A stop without a flush leaves that state behind: a publish after it starts a sender thread, and its
      message is accepted and stays in the queue. */
  lemma StopStrands(s: State, steps: seq<Step>)
    requires s.flushers == map[] && Enabled(s, StopBegin) && CanRun(Apply(s, StopBegin), steps)
    requires forall i | 0 <= i < |steps| :: !steps[i].FlushStart?
    requires Enabled(Run(Apply(s, StopBegin), steps), StopJoin)
    ensures Stranded(Apply(Run(Apply(s, StopBegin), steps), StopJoin))
  {
    DisabledRun(Apply(s, StopBegin), steps);
  }

  /** A publish that starts the sender thread, and a stop whose sender thread ends before it sends. */
  function PublishSteps(m: Msg): seq<Step> {
    [Spawn, Push(m)]
  }

  function StopSteps(): seq<Step> {
    [StopBegin, SenderWake, SenderExit, StopJoin]
  }

  /** publish, stop, publish: neither message is handed over. */
  lemma PublishedAfterStop(s: State, m: Msg, n: Msg)
    requires Init(s) && s.capacity >= 2
    ensures CanRun(s, PublishSteps(m)) && CanRun(Run(s, PublishSteps(m)), StopSteps())
    ensures var t := Run(Run(s, PublishSteps(m)), StopSteps());
            && CanRun(t, PublishSteps(n))
            && var u := Run(t, PublishSteps(n));
               Stranded(u) && u.thread == Running && u.accepted == [m, n] && u.handed == []
  {
    hide CanRun, Run, PublishSteps, StopSteps;
    PublishRun(s, m);
    StopRun(Run(s, PublishSteps(m)));
    PublishRun(Run(Run(s, PublishSteps(m)), StopSteps()), n);
    assert [] + [m] + [n] == [m, n];
  }

  lemma PublishRun(s: State, m: Msg)
    requires s.thread == Stopped && |s.queue| < s.capacity
    ensures CanRun(s, PublishSteps(m))
    ensures Run(s, PublishSteps(m))
            == s.(thread := Running, sender := Waiting, queue := s.queue + [m], accepted := s.accepted + [m])
  {
    hide CanRun, Run;
    var steps := PublishSteps(m);
    var s1 := Apply(s, Spawn);
    var s2 := Apply(s1, Push(m));
    LastStep(s2, steps);
    OneStep(s1, s2, steps, 1);
    OneStep(s, s1, steps, 0);
    assert steps[0..] == steps;
  }

  lemma StopRun(s: State)
    requires s.thread == Running && s.sender == Waiting
    ensures CanRun(s, StopSteps())
    ensures Run(s, StopSteps()) == s.(thread := Stopped, sender := NotStarted, enabled := false)
  {
    hide CanRun, Run;
    var steps := StopSteps();
    var s1 := Apply(s, StopBegin);
    var s2 := Apply(s1, SenderWake);
    var s3 := Apply(s2, SenderExit);
    var s4 := Apply(s3, StopJoin);
    LastStep(s4, steps);
    OneStep(s3, s4, steps, 3);
    OneStep(s2, s3, steps, 2);
    OneStep(s1, s2, steps, 1);
    OneStep(s, s1, steps, 0);
    assert steps[0..] == steps;
  }

  lemma LastStep(s: State, steps: seq<Step>)
    ensures CanRun(s, steps[|steps|..]) && Run(s, steps[|steps|..]) == s
  {
  }

  lemma OneStep(s: State, t: State, steps: seq<Step>, i: nat)
    requires i < |steps| && Enabled(s, steps[i]) && t == Apply(s, steps[i]) && CanRun(t, steps[i + 1..])
    ensures CanRun(s, steps[i..]) && Run(s, steps[i..]) == Run(t, steps[i + 1..])
  {
    hide Enabled, Apply;
    assert steps[i..][1..] == steps[i + 1..];
  }
}
