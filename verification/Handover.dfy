/**
 Leaving: the shutdown latch of `crates/app/src/shutdown.rs`, the update handover of
 `crates/app/src/update.rs` and the exit path of `crates/app/src/main.rs`, as one machine
 whose threads interleave step by step in a sequentially consistent order.

 The latch is a watch channel: firing replaces the value, and only then notifies; a wait
 checks the value, arms itself for a notification, checks the version again, and only then
 parks.
 */
module Handover {
  import opened Basics

  const ACTIVATE_EXIT_CODE := 87

  // ---------------------------------------------------------------------------
  // The machine
  // ---------------------------------------------------------------------------

  /** A task inside `Shutdown::wait`. `seen` is the version it last compared with, `token`
      the number of notifications there had been when it armed itself. */
  datatype Waiter =
    | Fresh
    | Checking
    | Arming(seen: nat)
    | Armed(seen: nat, token: nat)
    | Parked(seen: nat, token: nat)
    | Released

  /** A task that asks the process to stop: the updater once it has something to activate,
      or the stop signal. Each step is one line of its body. */
  datatype Stopper = Dormant | Storing | Flagging | Waking | Firing | Notifying | Finished

  /** Why the kiosk loop returned. `updated` is whether the updater had set the flag. */
  datatype Reason = Asked(updated: bool) | WindowClosed | LoopFailed

  /** The main thread: the kiosk loop, asleep or awake, and the lines after it. */
  datatype Main =
    | Awake
    | Asleep
    | Returned(why: Reason)
    | Notified(why: Reason)
    | Stopping(why: Reason)
    | Exited(why: Reason, status: int)

  datatype State = State(
    fired: bool, version: nat, notifications: nat, waiters: seq<Waiter>,
    updater: Stopper, signal: Stopper, main: Main,
    code: int, flagByUpdater: bool, flagBySignal: bool, wakePending: bool)

  function Start(): State {
    State(false, 0, 0, [], Dormant, Dormant, Awake, 0, false, false, false)
  }

  predicate Flag(s: State) {
    s.flagByUpdater || s.flagBySignal
  }

  datatype Action =
    | Join                      // a task calls `wait` for the first time
    | WaiterStep(waiter: nat)
    | UpdaterStep
    | SignalStep
    | KioskStep                 // one pass of the loop, or being woken
    | CloseWindow
    | FailLoop
    | MainStep                  // one line after the loop

  function WaiterNext(s: State, w: Waiter): Waiter {
    match w
    case Fresh => Checking
    case Checking => if s.fired then Released else Arming(s.version)
    case Arming(seen) => Armed(seen, s.notifications)
    case Armed(seen, token) => if s.version != seen then Checking else Parked(seen, token)
    case Parked(seen, token) => Arming(seen)
    case Released => Released
  }

  function Fire(s: State): State {
    s.(fired := true, version := s.version + 1)
  }

  function Notify(s: State): State {
    s.(notifications := s.notifications + 1)
  }

  /** The updater's lines: it stores the code first. */
  function UpdaterNext(s: State): State {
    match s.updater
    case Dormant => s.(updater := Storing)
    case Storing => s.(code := ACTIVATE_EXIT_CODE, updater := Flagging)
    case Flagging => s.(flagByUpdater := true, updater := Waking)
    case Waking => s.(wakePending := true, updater := Firing)
    case Firing => Fire(s).(updater := Notifying)
    case Notifying => Notify(s).(updater := Finished)
    case Finished => s
  }

  /** The stop signal's lines: it has no code to store. */
  function SignalNext(s: State): State {
    match s.signal
    case Dormant => s.(signal := Flagging)
    case Storing => s
    case Flagging => s.(flagBySignal := true, signal := Waking)
    case Waking => s.(wakePending := true, signal := Firing)
    case Firing => Fire(s).(signal := Notifying)
    case Notifying => Notify(s).(signal := Finished)
    case Finished => s
  }

  predicate Enabled(s: State, a: Action) {
    match a
    case Join => true
    case WaiterStep(i) =>
      i < |s.waiters| && !s.waiters[i].Released? && (s.waiters[i].Parked? ==> s.notifications > s.waiters[i].token)
    case UpdaterStep => !s.updater.Finished?
    case SignalStep => !s.signal.Finished?
    case KioskStep => s.main == Awake || (s.main == Asleep && s.wakePending)
    case CloseWindow => s.main == Awake || s.main == Asleep
    case FailLoop => s.main == Awake || s.main == Asleep
    case MainStep => s.main.Returned? || s.main.Notified? || s.main.Stopping?
  }

  /** The status `hand_over_if_updating` and the line after it leave with. */
  function Status(code: int, why: Reason): int {
    if code != 0 then code else if why.LoopFailed? then 1 else 0
  }

  function Step(s: State, a: Action): State
    requires Enabled(s, a)
  {
    match a
    case Join => s.(waiters := s.waiters + [Fresh])
    case WaiterStep(i) => s.(waiters := s.waiters[i := WaiterNext(s, s.waiters[i])])
    case UpdaterStep => UpdaterNext(s)
    case SignalStep => SignalNext(s)
    case KioskStep =>
      if s.main == Asleep then s.(main := Awake, wakePending := false)
      else if Flag(s) then s.(main := Returned(Asked(s.flagByUpdater)))
      else s.(main := Asleep)
    case CloseWindow => s.(main := Returned(WindowClosed))
    case FailLoop => s.(main := Returned(LoopFailed))
    case MainStep =>
      match s.main {
        case Returned(why) => Fire(s).(main := Notified(why))
        case Notified(why) => Notify(s).(main := Stopping(why))
        case Stopping(why) => s.(main := Exited(why, Status(s.code, why)))
        case _ => s
      }
  }

  ghost predicate Run(s: State, actions: seq<Action>, end: State)
    decreases |actions|
  {
    if actions == [] then s == end
    else Enabled(s, actions[0]) && Run(Step(s, actions[0]), actions[1..], end)
  }

  // ---------------------------------------------------------------------------
  // The exit code
  // ---------------------------------------------------------------------------

  /** The updater stores the code before it raises the flag, so whoever saw its flag will
      read its code. */
  ghost predicate CodeBeforeFlag(s: State) {
    && (s.code == if s.updater.Dormant? || s.updater.Storing? then 0 else ACTIVATE_EXIT_CODE)
    && (s.flagByUpdater ==> s.code == ACTIVATE_EXIT_CODE)
    && !s.signal.Storing?
    && (Why(s.main).Some? && Why(s.main).value == Asked(true) ==> s.flagByUpdater)
    && (Why(s.main).Some? && Why(s.main).value == Asked(false) ==> s.flagBySignal)
    && (s.main.Exited? ==>
          && s.main.status in {0, 1, ACTIVATE_EXIT_CODE}
          && (s.main.why == Asked(true) ==> s.main.status == ACTIVATE_EXIT_CODE)
          && (s.main.status == ACTIVATE_EXIT_CODE ==> s.code == ACTIVATE_EXIT_CODE)
          && (s.main.status != ACTIVATE_EXIT_CODE ==> (s.main.status == 1 <==> s.main.why.LoopFailed?)))
  }

  function Why(m: Main): Option<Reason> {
    match m
    case Awake => None
    case Asleep => None
    case Returned(why) => Some(why)
    case Notified(why) => Some(why)
    case Stopping(why) => Some(why)
    case Exited(why, _) => Some(why)
  }

  lemma CodeUpdater(s: State)
    requires CodeBeforeFlag(s)
    ensures CodeBeforeFlag(UpdaterNext(s))
  {
  }

  lemma CodeSignal(s: State)
    requires CodeBeforeFlag(s)
    ensures CodeBeforeFlag(SignalNext(s))
  {
  }

  lemma CodeMain(s: State)
    requires CodeBeforeFlag(s) && Enabled(s, MainStep)
    ensures CodeBeforeFlag(Step(s, MainStep))
  {
  }

  lemma CodeStep(s: State, a: Action)
    requires CodeBeforeFlag(s) && Enabled(s, a)
    ensures CodeBeforeFlag(Step(s, a))
  {
    match a
    case UpdaterStep => CodeUpdater(s);
    case SignalStep => CodeSignal(s);
    case MainStep => CodeMain(s);
    case Join =>
    case WaiterStep(_) =>
    case KioskStep =>
    case CloseWindow =>
    case FailLoop =>
  }

  lemma {:induction false} CodeAlways(s: State, actions: seq<Action>, end: State)
    requires CodeBeforeFlag(s) && Run(s, actions, end)
    ensures CodeBeforeFlag(end)
    decreases |actions|
  {
    if actions != [] {
      CodeStep(s, actions[0]);
      CodeAlways(Step(s, actions[0]), actions[1..], end);
    }
  }

  /** In every interleaving: a kiosk loop stopped by the updater's flag ends with the
      activation code; a run in which nothing was activated never does; and a failed loop
      reports itself unless an update is handing over. */
  lemma ExitStatus(actions: seq<Action>, end: State)
    requires Run(Start(), actions, end) && end.main.Exited?
    ensures end.main.why == Asked(true) ==> end.main.status == 87
    ensures end.updater.Dormant? || end.updater.Storing? ==> end.main.status != 87
    ensures end.main.status == 87
            || end.main.status == (if end.main.why.LoopFailed? then 1 else 0)
    ensures end.main.why == Asked(false) ==> end.flagBySignal
  {
    CodeAlways(Start(), actions, end);
  }

  /** The code that decides is the one stored when the main thread reads it. */
  lemma StatusIsCodeAtTheEnd(s: State)
    requires CodeBeforeFlag(s) && s.main.Stopping?
    ensures Step(s, MainStep).main.status == ACTIVATE_EXIT_CODE <==> !s.updater.Dormant? && !s.updater.Storing?
  {
  }

  lemma WhyStep(s: State, a: Action)
    requires Enabled(s, a)
    ensures var t := Step(s, a);
            if Why(s.main).Some? then Why(t.main) == Why(s.main) && a != FailLoop && a != CloseWindow
            else
              && (Why(t.main) == Some(LoopFailed) <==> a == FailLoop)
              && (Why(t.main) == Some(WindowClosed) <==> a == CloseWindow)
  {
  }

  /** In every interleaving the loop failed, or its window closed, if and only if that is what
      happened to it; otherwise it was asked. */
  lemma {:induction false} WhyExactly(s: State, actions: seq<Action>, end: State)
    requires Run(s, actions, end) && Why(s.main) == None
    ensures Why(end.main) == Some(LoopFailed) <==> FailLoop in actions
    ensures Why(end.main) == Some(WindowClosed) <==> CloseWindow in actions
    decreases |actions|
  {
    if actions != [] {
      var a, t := actions[0], Step(s, actions[0]);
      assert actions == [a] + actions[1..];
      WhyStep(s, a);
      if Why(t.main) == None {
        WhyExactly(t, actions[1..], end);
      } else {
        WhyStays(t, actions[1..], end);
      }
    }
  }

  lemma {:induction false} WhyStays(s: State, actions: seq<Action>, end: State)
    requires Run(s, actions, end) && Why(s.main).Some?
    ensures Why(end.main) == Why(s.main) && FailLoop !in actions && CloseWindow !in actions
    decreases |actions|
  {
    if actions != [] {
      WhyStep(s, actions[0]);
      WhyStays(Step(s, actions[0]), actions[1..], end);
      assert actions == [actions[0]] + actions[1..];
    }
  }

  // ---------------------------------------------------------------------------
  // The kiosk hears the flag
  // ---------------------------------------------------------------------------

  /** Some stopper has raised the flag and not yet woken the loop. */
  predicate WakeComing(s: State) {
    (s.flagByUpdater && s.updater.Waking?) || (s.flagBySignal && s.signal.Waking?)
  }

  ghost predicate KioskHears(s: State) {
    && (s.main == Asleep && Flag(s) ==> s.wakePending || WakeComing(s))
    && (s.flagByUpdater <==> s.updater.Waking? || s.updater.Firing? || s.updater.Notifying? || s.updater.Finished?)
    && (s.flagBySignal <==> s.signal.Waking? || s.signal.Firing? || s.signal.Notifying? || s.signal.Finished?)
  }

  lemma KioskStepKeeps(s: State, a: Action)
    requires KioskHears(s) && Enabled(s, a)
    ensures KioskHears(Step(s, a))
  {
    if a.UpdaterStep? {
      KioskHearsUpdater(s);
    } else if a.SignalStep? {
      KioskHearsSignal(s);
    }
  }

  lemma KioskHearsUpdater(s: State)
    requires KioskHears(s)
    ensures KioskHears(UpdaterNext(s))
  {
  }

  lemma KioskHearsSignal(s: State)
    requires KioskHears(s)
    ensures KioskHears(SignalNext(s))
  {
  }

  lemma {:induction false} KioskAlways(s: State, actions: seq<Action>, end: State)
    requires KioskHears(s) && Run(s, actions, end)
    ensures KioskHears(end)
    decreases |actions|
  {
    if actions != [] {
      KioskStepKeeps(s, actions[0]);
      KioskAlways(Step(s, actions[0]), actions[1..], end);
    }
  }

  /** Once a stopper has woken the loop, the loop can never sleep through it: asleep or
      awake, at most two of its own passes later it has returned because it was asked to. */
  lemma AskedKioskReturns(actions: seq<Action>, end: State)
    requires Run(Start(), actions, end) && Flag(end) && !WakeComing(end)
    requires end.main == Awake || end.main == Asleep
    ensures Enabled(end, KioskStep)
    ensures var once := Step(end, KioskStep);
            end.main == Awake ==> once.main == Returned(Asked(end.flagByUpdater))
    ensures var once := Step(end, KioskStep);
            end.main == Asleep ==>
              Enabled(once, KioskStep) && Step(once, KioskStep).main == Returned(Asked(end.flagByUpdater))
  {
    KioskAlways(Start(), actions, end);
  }

  // ---------------------------------------------------------------------------
  // No waiter is left behind
  // ---------------------------------------------------------------------------

  /** Some thread has replaced the value and not yet notified. */
  predicate NotifyComing(s: State) {
    s.updater.Notifying? || s.signal.Notifying? || s.main.Notified?
  }

  /** A waiter's version is from before the firing, and one that parked before the firing
      has a notification behind it or on the way. */
  ghost predicate WaiterSafe(s: State, w: Waiter) {
    && (w.Arming? || w.Armed? || w.Parked? ==> w.seen <= s.version && (s.fired ==> w.seen < s.version))
    && (w.Armed? || w.Parked? ==> w.token <= s.notifications)
    && (w.Parked? && w.seen < s.version ==> s.notifications > w.token || NotifyComing(s))
  }

  ghost predicate FiredFirst(s: State) {
    && (s.updater.Notifying? || s.updater.Finished? ==> s.fired)
    && (s.signal.Notifying? || s.signal.Finished? ==> s.fired)
    && (s.main.Notified? || s.main.Stopping? || s.main.Exited? ==> s.fired)
  }

  ghost predicate LatchSafe(s: State) {
    FiredFirst(s) && forall i :: 0 <= i < |s.waiters| ==> WaiterSafe(s, s.waiters[i])
  }

  /** A waiter that does not move stays safe while the rest of the machine does. */
  ghost predicate Moves(s: State, t: State) {
    && (s.fired ==> t.fired) && s.version <= t.version && s.notifications <= t.notifications
    && (t.fired && !s.fired ==> t.version > s.version)
    && (t.version > s.version ==> NotifyComing(t))
    && (NotifyComing(s) ==> NotifyComing(t) || t.notifications > s.notifications)
  }

  lemma SafeWhileOthersMove(s: State, t: State, w: Waiter)
    requires WaiterSafe(s, w) && Moves(s, t)
    ensures WaiterSafe(t, w)
  {
  }

  lemma UpdaterMoves(s: State)
    requires FiredFirst(s)
    ensures FiredFirst(UpdaterNext(s)) && Moves(s, UpdaterNext(s)) && UpdaterNext(s).waiters == s.waiters
  {
  }

  lemma SignalMoves(s: State)
    requires FiredFirst(s)
    ensures FiredFirst(SignalNext(s)) && Moves(s, SignalNext(s)) && SignalNext(s).waiters == s.waiters
  {
  }

  lemma MainMoves(s: State, a: Action)
    requires FiredFirst(s) && Enabled(s, a) && (a.KioskStep? || a.CloseWindow? || a.FailLoop? || a.MainStep?)
    ensures FiredFirst(Step(s, a)) && Moves(s, Step(s, a)) && Step(s, a).waiters == s.waiters
  {
  }

  lemma WaiterMoves(s: State, w: Waiter)
    requires WaiterSafe(s, w) && (w.Parked? ==> s.notifications > w.token)
    ensures WaiterSafe(s, WaiterNext(s, w))
  {
  }

  lemma LatchStep(s: State, a: Action)
    requires LatchSafe(s) && Enabled(s, a)
    ensures LatchSafe(Step(s, a))
  {
    var t := Step(s, a);
    if a.WaiterStep? {
      WaiterMoves(s, s.waiters[a.waiter]);
      assert forall w :: WaiterSafe(t, w) <==> WaiterSafe(s, w);
    } else if !a.Join? {
      if a.UpdaterStep? {
        UpdaterMoves(s);
      } else if a.SignalStep? {
        SignalMoves(s);
      } else {
        MainMoves(s, a);
      }
      forall i | 0 <= i < |t.waiters|
        ensures WaiterSafe(t, t.waiters[i])
      {
        SafeWhileOthersMove(s, t, s.waiters[i]);
      }
    }
  }

  lemma {:induction false} LatchAlways(s: State, actions: seq<Action>, end: State)
    requires LatchSafe(s) && Run(s, actions, end)
    ensures LatchSafe(end)
    decreases |actions|
  {
    if actions != [] {
      LatchStep(s, actions[0]);
      LatchAlways(Step(s, actions[0]), actions[1..], end);
    }
  }

  /** How many of its own steps a waiter still needs once the latch has fired. */
  function StepsLeft(w: Waiter): nat {
    match w
    case Released => 0
    case Checking => 1
    case Fresh => 2
    case Armed(_, _) => 2
    case Arming(_) => 3
    case Parked(_, _) => 4
  }

  /** Once the latch has fired and every firing has notified, no waiter is left parked,
      whenever it registered: each one that has not returned can move, and each of its own
      steps brings it closer to returning, four at the most. */
  lemma NoWaiterLeftParked(actions: seq<Action>, end: State, i: nat)
    requires Run(Start(), actions, end) && end.fired && !NotifyComing(end)
    requires i < |end.waiters| && !end.waiters[i].Released?
    ensures Enabled(end, WaiterStep(i))
    ensures StepsLeft(Step(end, WaiterStep(i)).waiters[i]) < StepsLeft(end.waiters[i]) <= 4
  {
    LatchAlways(Start(), actions, end);
    assert WaiterSafe(end, end.waiters[i]);
  }

  /** A process that has left fired the latch first, and notified, whyever it left. */
  lemma LeavesFired(s: State, actions: seq<Action>, end: State)
    requires LatchSafe(s) && Run(s, actions, end) && (end.main.Stopping? || end.main.Exited?)
    ensures end.fired
  {
    LatchAlways(s, actions, end);
  }

  /** Nobody is released before the latch has fired, and it stays fired. */
  ghost predicate ReleasedOnlyIfFired(s: State) {
    forall i :: 0 <= i < |s.waiters| && s.waiters[i].Released? ==> s.fired
  }

  lemma ReleaseStep(s: State, a: Action)
    requires ReleasedOnlyIfFired(s) && Enabled(s, a)
    ensures ReleasedOnlyIfFired(Step(s, a)) && (s.fired ==> Step(s, a).fired)
  {
    if !a.Join? && !a.WaiterStep? {
      assert Step(s, a).waiters == s.waiters;
    }
  }

  lemma {:induction false} ReleaseNeedsFiring(s: State, actions: seq<Action>, end: State)
    requires ReleasedOnlyIfFired(s) && Run(s, actions, end)
    ensures ReleasedOnlyIfFired(end) && (s.fired ==> end.fired)
    decreases |actions|
  {
    if actions != [] {
      ReleaseStep(s, actions[0]);
      ReleaseNeedsFiring(Step(s, actions[0]), actions[1..], end);
    }
  }

  /** Somebody who fires has fired it, and the updater had stored its code by then. */
  ghost predicate FiredBySomeone(s: State) {
    && (s.fired ==>
          || s.updater.Notifying? || s.updater.Finished?
          || s.signal.Notifying? || s.signal.Finished?
          || s.main.Notified? || s.main.Stopping? || s.main.Exited?)
    && (!s.updater.Dormant? && !s.updater.Storing? ==> s.code == ACTIVATE_EXIT_CODE)
  }

  lemma {:induction false} FiredBySomeoneAlways(s: State, actions: seq<Action>, end: State)
    requires FiredBySomeone(s) && Run(s, actions, end)
    ensures FiredBySomeone(end)
    decreases |actions|
  {
    if actions != [] {
      FiredBySomeoneStep(s, actions[0]);
      FiredBySomeoneAlways(Step(s, actions[0]), actions[1..], end);
    }
  }

  lemma FiredBySomeoneStep(s: State, a: Action)
    requires FiredBySomeone(s) && Enabled(s, a)
    ensures FiredBySomeone(Step(s, a))
  {
  }

  /** The build without a screen, whose main thread is itself a waiter and reads the code
      when its wait returns: released by nobody but the updater, it hands over. */
  lemma HeadlessHandsOver(actions: seq<Action>, end: State, i: nat)
    requires Run(Start(), actions, end) && i < |end.waiters| && end.waiters[i].Released?
    requires !end.signal.Notifying? && !end.signal.Finished? && (end.main == Awake || end.main == Asleep)
    ensures end.code == ACTIVATE_EXIT_CODE
  {
    ReleaseNeedsFiring(Start(), actions, end);
    FiredBySomeoneAlways(Start(), actions, end);
  }

  // ---------------------------------------------------------------------------
  // The latch, as code
  // ---------------------------------------------------------------------------

  /** The watch channel behind `Shutdown`, and the waits on it. */
  class Shutdown {
    var fired: bool
    var version: nat
    var notifications: nat
    var waiters: seq<Waiter>

    /** The machine with this latch in it, and everything else as in `s`. */
    ghost function Model(s: State): State
      reads this
    {
      s.(fired := fired, version := version, notifications := notifications, waiters := waiters)
    }

    /** A wait as every run leaves it once no notification is still to come. */
    ghost predicate Settled(i: nat)
      reads this
    {
      i < |waiters| && WaiterSafe(Model(Start()), waiters[i]) && (waiters[i].Released? ==> fired)
    }

    constructor ()
      ensures forall s: State :: Model(s) == s.(fired := false, version := 0, notifications := 0, waiters := [])
    {
      fired, version, notifications, waiters := false, 0, 0, [];
    }

    /** The first half of `send_replace`: the new value and its version. */
    method Replace()
      modifies this
      ensures forall s: State :: Model(s) == Fire(old(Model(s)))
    {
      fired := true;
      version := version + 1;
    }

    /** The second half: whoever armed itself before this is let go. */
    method NotifyWaiters()
      modifies this
      ensures forall s: State :: Model(s) == Notify(old(Model(s)))
    {
      notifications := notifications + 1;
    }

    method FireLatch()
      modifies this
      ensures forall s: State :: Model(s) == Notify(Fire(old(Model(s))))
    {
      Replace();
      NotifyWaiters();
    }

    method Subscribe() returns (i: nat)
      modifies this
      ensures i == old(|waiters|) < |waiters|
      ensures forall s: State :: Model(s) == Step(old(Model(s)), Join)
    {
      i := |waiters|;
      waiters := waiters + [Fresh];
    }

    /** One step of a wait. */
    method Advance(i: nat)
      requires i < |waiters| && !waiters[i].Released? && (waiters[i].Parked? ==> notifications > waiters[i].token)
      modifies this
      ensures forall s: State :: Enabled(old(Model(s)), WaiterStep(i)) && Model(s) == Step(old(Model(s)), WaiterStep(i))
    {
      var next := match waiters[i]
        case Fresh => Checking
        case Checking => if fired then Released else Arming(version)
        case Arming(seen) => Armed(seen, notifications)
        case Armed(seen, token) => if version != seen then Checking else Parked(seen, token)
        case Parked(seen, token) => Arming(seen);
      waiters := waiters[i := next];
    }

    /** Steps a wait can still take before it returns or parks for good. */
    ghost function StepsToRest(w: Waiter): nat
      reads this
    {
      match w
      case Released => 0
      case Parked(seen, token) => if notifications <= token then 0 else if seen == version then 3 else 6
      case Armed(seen, token) => if seen == version && notifications <= token then 1 else 4
      case Arming(seen) => if seen == version then 2 else 5
      case Checking => 3
      case Fresh => 4
    }

    /** Polling a wait, with nothing happening meanwhile: it returns if and only if the latch
        has fired, whenever the wait was first made; otherwise it parks, to be let go by the
        next notification. */
    method Poll(i: nat) returns (ready: bool)
      requires Settled(i)
      modifies this
      ensures Settled(i) && ready == fired && (ready <==> waiters[i].Released?)
      ensures !ready ==> waiters[i].Parked? && waiters[i].token == notifications
      ensures waiters == old(waiters)[i := waiters[i]]
      ensures fired == old(fired) && version == old(version) && notifications == old(notifications)
    {
      while !waiters[i].Released? && (waiters[i].Parked? ==> notifications > waiters[i].token)
        invariant Settled(i) && waiters == old(waiters)[i := waiters[i]]
        invariant fired == old(fired) && version == old(version) && notifications == old(notifications)
        decreases StepsToRest(waiters[i])
      {
        WaiterMoves(Model(Start()), waiters[i]);
        label before:
        Advance(i);
        assert Model(Start()) == Step(old@before(Model(Start())), WaiterStep(i));
      }
      ready := waiters[i].Released?;
    }
  }
}
