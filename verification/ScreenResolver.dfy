/**
 The screen-id resolver's lifecycle, `crates/app/src/screen.rs`: one pump handling DIAL
 events step by step, resolver tasks polled in between on other threads, and a slot only
 the right one of them may still write. A poll is atomic, and an abort takes effect
 between polls.
 */
module ScreenResolver {
  import opened Basics

  /** A launch carries a pairing code to resolve or it does not; a stop carries nothing. */
  datatype DialEvent = Launched(hasCode: bool) | Stopped

  /** A spawned resolver, and the number of the event it was spawned for. */
  datatype Task = Task(event: nat, aborted: bool, finished: bool)

  predicate Alive(t: Task) {
    !t.aborted && !t.finished
  }

  /** Where the pump is in handling an event. */
  datatype Pump =
    | Waiting
    | Retiring(event: DialEvent)   // about to take and abort the old resolver
    | Spawning(event: DialEvent)   // about to start the new one
    | Storing(task: nat)           // it is started; its handle is not stored yet
    | Telling                      // about to tell the panel

  /** `seen` counts the events received and `latest` is the last of them; `writes` lists
      the tasks that have written the slot, in order. */
  datatype State = State(
    pump: Pump,
    resolver: Option<nat>,
    tasks: seq<Task>,
    slot: Option<nat>,
    writes: seq<nat>,
    seen: nat,
    latest: DialEvent)

  datatype PollResult = Pending | Wrote(done: bool) | GaveUp

  datatype Action =
    | Receive(event: DialEvent)
    | Retire
    | Spawn
    | Store
    | Tell
    | Poll(task: nat, result: PollResult)
    | ClearSlot

  predicate Enabled(s: State, a: Action) {
    match a
    case Receive(_) => s.pump == Waiting
    case Retire => s.pump.Retiring?
    case Spawn => s.pump.Spawning?
    case Store => s.pump.Storing?
    case Tell => s.pump == Telling
    case Poll(t, _) => t < |s.tasks| && Alive(s.tasks[t])
    case ClearSlot => true
  }

  function Step(s: State, a: Action): State
    requires Enabled(s, a)
  {
    match a
    case Receive(event) => s.(pump := Retiring(event), seen := s.seen + 1, latest := event)
    case Retire =>
      var next := if s.pump.event.Launched? then Spawning(s.pump.event) else Telling;
      (match s.resolver
       case Some(t) =>
         s.(tasks := if t < |s.tasks| then s.tasks[t := s.tasks[t].(aborted := true)] else s.tasks, resolver := None)
       case None => s).(pump := next)
    case Spawn =>
      if s.pump.event.Launched? && s.pump.event.hasCode
      then s.(tasks := s.tasks + [Task(s.seen, false, false)], pump := Storing(|s.tasks|))
      else s.(pump := Telling)
    case Store => s.(resolver := Some(s.pump.task), pump := Telling)
    case Tell => s.(pump := Waiting)
    case Poll(t, result) =>
      match result {
        case Pending => s
        case GaveUp => s.(tasks := s.tasks[t := s.tasks[t].(finished := true)])
        case Wrote(done) =>
          s.(slot := Some(t), writes := s.writes + [t], tasks := s.tasks[t := s.tasks[t].(finished := done)])
      }
    case ClearSlot => s.(slot := None)
  }

  const START := State(Waiting, None, [], None, [], 0, Stopped)

  ghost predicate Run(s: State, actions: seq<Action>, end: State)
    decreases |actions|
  {
    if actions == [] then s == end
    else Enabled(s, actions[0]) && Run(Step(s, actions[0]), actions[1..], end)
  }

  // ---------------------------------------------------------------------------
  // At most one live resolver, and it is the latest launch's
  // ---------------------------------------------------------------------------

  /** The one task that may be alive: the stored resolver, or one about to be stored. */
  function Current(s: State): Option<nat> {
    if s.pump.Storing? then Some(s.pump.task) else s.resolver
  }

  /** While the old resolver has been retired and no new one started, nothing is current;
      otherwise the current task was spawned for the latest event that got that far. */
  ghost predicate Inv(s: State) {
    && (forall t :: 0 <= t < |s.tasks| && Alive(s.tasks[t]) ==> Current(s) == Some(t))
    && (s.pump.Storing? ==> s.resolver == None)
    && (Current(s).Some? ==> Current(s).value < |s.tasks| && s.tasks[Current(s).value].event == Handled(s))
    && (s.pump.Spawning? ==> s.resolver == None)
    && (s.pump.Retiring? ==> s.pump.event == s.latest && s.seen > 0)
    && (s.pump.Spawning? ==> s.pump.event == s.latest && s.latest.Launched?)
    && (!s.pump.Retiring? && s.latest == Stopped ==> Current(s) == None)
    && (!s.pump.Retiring? && s.latest == Launched(false) ==> Current(s) == None)
    && (s.pump.Storing? ==> s.latest == Launched(true))
  }

  /** The event whose handling has got past retiring the old resolver. */
  function Handled(s: State): int {
    if s.pump.Retiring? then s.seen - 1 else s.seen
  }

  lemma StepKeepsInv(s: State, a: Action)
    requires Inv(s) && Enabled(s, a)
    ensures Inv(Step(s, a))
  {
  }

  lemma {:induction false} InvAlways(s: State, actions: seq<Action>, end: State)
    requires Inv(s) && Run(s, actions, end)
    ensures Inv(end)
    decreases |actions|
  {
    if actions != [] {
      StepKeepsInv(s, actions[0]);
      InvAlways(Step(s, actions[0]), actions[1..], end);
    }
  }

  /** In every interleaving at most one resolver is unaborted and unfinished. */
  lemma AtMostOneAlive(actions: seq<Action>, end: State, t: nat, u: nat)
    requires Run(START, actions, end)
    requires t < |end.tasks| && u < |end.tasks| && Alive(end.tasks[t]) && Alive(end.tasks[u])
    ensures t == u
  {
    InvAlways(START, actions, end);
  }

  /** Once the pump has handled an event, only a resolver spawned for that very event can
      be alive, and after a stop, or a launch with nothing to resolve, none is. */
  lemma OnlyLatestAlive(actions: seq<Action>, end: State, t: nat)
    requires Run(START, actions, end) && end.pump == Waiting
    requires t < |end.tasks| && Alive(end.tasks[t])
    ensures end.latest == Launched(true) && end.tasks[t].event == end.seen
  {
    InvAlways(START, actions, end);
  }

  // ---------------------------------------------------------------------------
  // Who writes the slot
  // ---------------------------------------------------------------------------

  /** Until the next event is taken up, every write is by the latest launch's resolver. */
  lemma {:induction false} WritesByLatest(s: State, actions: seq<Action>, end: State, event: nat)
    requires Inv(s) && (s.pump == Waiting || s.pump.Retiring?) && Handled(s) == event
    requires Run(s, actions, end) && Retire !in actions
    ensures s.writes <= end.writes && |s.tasks| == |end.tasks|
    ensures forall k :: |s.writes| <= k < |end.writes| ==> end.writes[k] < |end.tasks| && end.tasks[end.writes[k]].event == event
    ensures Handled(end) == event && (forall i :: 0 <= i < |s.tasks| ==> end.tasks[i].event == s.tasks[i].event)
    decreases |actions|
  {
    if actions != [] {
      var t := Step(s, actions[0]);
      StepKeepsInv(s, actions[0]);
      WritesByLatest(t, actions[1..], end, event);
      assert forall k :: 0 <= k < |t.writes| ==> end.writes[k] == t.writes[k];
    }
  }

  /** In every run: after event number `seen` has been handled and until the pump takes up
      the next one, whatever is written to the slot is written by its resolver. */
  lemma OnlyLatestWrites(before: seq<Action>, s: State, after: seq<Action>, end: State)
    requires Run(START, before, s) && s.pump == Waiting
    requires Run(s, after, end) && Retire !in after
    ensures s.writes <= end.writes
    ensures forall k :: |s.writes| <= k < |end.writes| ==> end.writes[k] < |end.tasks| && end.tasks[end.writes[k]].event == s.seen
  {
    InvAlways(START, before, s);
    WritesByLatest(s, after, end, s.seen);
  }

  ghost predicate NoneAlive(s: State) {
    forall t :: 0 <= t < |s.tasks| ==> !Alive(s.tasks[t])
  }

  lemma {:induction false} TasksOnlyGrow(s: State, actions: seq<Action>, end: State)
    requires Run(s, actions, end)
    ensures |s.tasks| <= |end.tasks|
    decreases |actions|
  {
    if actions != [] {
      TasksOnlyGrow(Step(s, actions[0]), actions[1..], end);
    }
  }

  lemma {:induction false} ClearUntilSpawn(s: State, actions: seq<Action>, end: State)
    requires NoneAlive(s) && s.slot == None && Run(s, actions, end) && |end.tasks| == |s.tasks|
    ensures end.slot == None && end.writes == s.writes
    decreases |actions|
  {
    if actions != [] {
      TasksOnlyGrow(Step(s, actions[0]), actions[1..], end);
      ClearUntilSpawn(Step(s, actions[0]), actions[1..], end);
    }
  }

  /** In every run: once a stop, or a launch with nothing to resolve, has been handled, a
      clear slot stays clear until a resolver is spawned, whatever other events come. */
  lemma StoppedStaysClear(before: seq<Action>, s: State, after: seq<Action>, end: State)
    requires Run(START, before, s) && s.pump == Waiting && s.latest != Launched(true) && s.slot == None
    requires Run(s, after, end) && |end.tasks| == |s.tasks|
    ensures end.slot == None && end.writes == s.writes
  {
    InvAlways(START, before, s);
    ClearUntilSpawn(s, after, end);
  }

  // ---------------------------------------------------------------------------
  // What a launch brings about
  // ---------------------------------------------------------------------------

  /** A run with the states it goes through. */
  ghost predicate Chain(actions: seq<Action>, ss: seq<State>) {
    && |ss| == |actions| + 1 && ss[0] == START
    && forall k :: 0 <= k < |actions| ==> Enabled(ss[k], actions[k]) && ss[k + 1] == Step(ss[k], actions[k])
  }

  /** Every run has them. */
  lemma RunHasChain(actions: seq<Action>, end: State) returns (ss: seq<State>)
    requires Run(START, actions, end)
    ensures Chain(actions, ss) && ss[|actions|] == end
  {
    ss := StatesOf(START, actions, end);
  }

  lemma {:induction false} StatesOf(s: State, actions: seq<Action>, end: State) returns (ss: seq<State>)
    requires Run(s, actions, end)
    ensures |ss| == |actions| + 1 && ss[0] == s && ss[|actions|] == end
    ensures forall k :: 0 <= k < |actions| ==> Enabled(ss[k], actions[k]) && ss[k + 1] == Step(ss[k], actions[k])
    decreases |actions|
  {
    if actions == [] {
      ss := [s];
    } else {
      var rest := StatesOf(Step(s, actions[0]), actions[1..], end);
      ss := [s] + rest;
      forall k | 0 <= k < |actions|
        ensures Enabled(ss[k], actions[k]) && ss[k + 1] == Step(ss[k], actions[k])
      {
        if k > 0 {
          assert ss[k] == rest[k - 1] && ss[k + 1] == rest[k] && actions[k] == actions[1..][k - 1];
        }
      }
    }
  }

  /** A poll that ends its task. */
  predicate Ends(a: Action, t: nat) {
    a.Poll? && a.task == t && (a.result == GaveUp || a.result == Wrote(true))
  }

  /** A poll in which its task wrote the slot. */
  predicate Writes(a: Action, t: nat) {
    a.Poll? && a.task == t && a.result.Wrote?
  }

  /** The task of the launch handled last: the newest, spawned for that event, never aborted. */
  ghost predicate LatestRuns(s: State) {
    s.latest == Launched(true) && (s.pump == Waiting || s.pump.Storing? || s.pump == Telling) ==>
      && s.tasks != [] && var t := |s.tasks| - 1; Current(s) == Some(t) && s.tasks[t].event == s.seen && !s.tasks[t].aborted
  }

  lemma LatestRunsStep(s: State, a: Action)
    requires Inv(s) && LatestRuns(s) && Enabled(s, a)
    ensures LatestRuns(Step(s, a))
  {
  }

  lemma FinishedStep(s: State, a: Action, t: nat)
    requires Enabled(s, a) && (forall u :: 0 <= u < |s.tasks| && Current(s) == Some(u) ==> u < |s.tasks|)
    ensures var s' := Step(s, a);
            t < |s'.tasks| ==> (s'.tasks[t].finished <==> (t < |s.tasks| && s.tasks[t].finished) || (t < |s.tasks| && Ends(a, t)))
    ensures |s.tasks| <= |Step(s, a).tasks|
  {
  }

  lemma {:induction false} ChainInv(actions: seq<Action>, ss: seq<State>, n: nat)
    requires Chain(actions, ss) && n <= |actions|
    ensures Inv(ss[n]) && LatestRuns(ss[n])
  {
    if n > 0 {
      ChainInv(actions, ss, n - 1);
      assert Enabled(ss[n - 1], actions[n - 1]) && ss[n - 1 + 1] == Step(ss[n - 1], actions[n - 1]);
      StepKeepsInv(ss[n - 1], actions[n - 1]);
      LatestRunsStep(ss[n - 1], actions[n - 1]);
    }
  }

  /** In every run a task is finished if and only if a poll of its own has ended it. */
  lemma {:induction false} FinishedExactly(actions: seq<Action>, ss: seq<State>, n: nat, t: nat)
    requires Chain(actions, ss) && n <= |actions| && t < |ss[n].tasks|
    ensures ss[n].tasks[t].finished <==> exists k :: 0 <= k < n && Ends(actions[k], t)
    decreases n
  {
    if n > 0 {
      var s, a := ss[n - 1], actions[n - 1];
      assert Enabled(s, a) && ss[n - 1 + 1] == Step(s, a);
      FinishedStep(s, a, t);
      if t < |s.tasks| {
        FinishedExactly(actions, ss, n - 1, t);
      } else {
        NotBefore(actions, ss, n - 1, t);
        assert !Ends(a, t);
      }
    }
  }

  /** No poll precedes its task. */
  lemma {:induction false} NotBefore(actions: seq<Action>, ss: seq<State>, n: nat, t: nat)
    requires Chain(actions, ss) && n <= |actions| && |ss[n].tasks| <= t
    ensures forall k :: 0 <= k < n ==> !(actions[k].Poll? && actions[k].task == t)
  {
    if n > 0 {
      var s, a := ss[n - 1], actions[n - 1];
      assert Enabled(s, a) && ss[n - 1 + 1] == Step(s, a);
      FinishedStep(s, a, t);
      NotBefore(actions, ss, n - 1, t);
    }
  }

  /** In every run, once a launch with a code has been handled, its resolver is there: a task
      of that very event, the newest, which is alive unless a poll of its own has ended it. */
  lemma LaunchIsAlive(actions: seq<Action>, ss: seq<State>, n: nat)
    requires Chain(actions, ss) && n <= |actions| && ss[n].pump == Waiting && ss[n].latest == Launched(true)
    ensures |ss[n].tasks| > 0
    ensures var t := |ss[n].tasks| - 1;
            && ss[n].tasks[t].event == ss[n].seen
            && (Alive(ss[n].tasks[t]) <==> forall k :: 0 <= k < n ==> !Ends(actions[k], t))
  {
    ChainInv(actions, ss, n);
    FinishedExactly(actions, ss, n, |ss[n].tasks| - 1);
  }

  /** And it stays alive until one does, or the pump retires it for the next event. */
  lemma {:induction false} AliveUntilRetired(s: State, actions: seq<Action>, end: State, t: nat)
    requires Run(s, actions, end) && t < |s.tasks| && Alive(s.tasks[t]) && Retire !in actions
    requires forall k :: 0 <= k < |actions| ==> !Ends(actions[k], t)
    ensures t < |end.tasks| && Alive(end.tasks[t])
    decreases |actions|
  {
    if actions != [] {
      AliveUntilRetired(Step(s, actions[0]), actions[1..], end, t);
    }
  }

  /** `seen` counts the events received, and `latest` is the last of them. */
  lemma {:induction false} EventsCounted(actions: seq<Action>, ss: seq<State>, n: nat)
    requires Chain(actions, ss) && n <= |actions|
    ensures ss[n].seen == |Received(actions[..n])|
    ensures ss[n].latest == if Received(actions[..n]) == [] then Stopped else Received(actions[..n])[ss[n].seen - 1]
  {
    if n > 0 {
      EventsCounted(actions, ss, n - 1);
      assert Enabled(ss[n - 1], actions[n - 1]) && ss[n - 1 + 1] == Step(ss[n - 1], actions[n - 1]);
      assert actions[..n][..n - 1] == actions[..n - 1];
    }
  }

  ghost function Received(actions: seq<Action>): seq<DialEvent> {
    if actions == [] then []
    else
      var a := actions[|actions| - 1];
      Received(actions[..|actions| - 1]) + (if a.Receive? then [a.event] else [])
  }

  /** In every run the slot holds a task's writing if and only if that task wrote it, and it
      has not been written or cleared since. */
  lemma {:induction false} SlotExactly(actions: seq<Action>, ss: seq<State>, n: nat, t: nat)
    requires Chain(actions, ss) && n <= |actions|
    ensures ss[n].slot == Some(t) <==>
            exists k :: 0 <= k < n && Writes(actions[k], t) && forall m :: k < m < n ==> LeavesSlot(actions[m])
  {
    if n > 0 {
      SlotExactly(actions, ss, n - 1, t);
      var s, a := ss[n - 1], actions[n - 1];
      assert Enabled(s, a) && ss[n - 1 + 1] == Step(s, a);
      assert Step(s, a).slot == Some(t) <==> Writes(a, t) || (LeavesSlot(a) && s.slot == Some(t));
      if LeavesSlot(a) && s.slot == Some(t) {
        var k :| 0 <= k < n - 1 && Writes(actions[k], t) && forall m :: k < m < n - 1 ==> LeavesSlot(actions[m]);
        assert forall m :: k < m < n ==> LeavesSlot(actions[m]);
      }
    }
  }

  predicate LeavesSlot(a: Action) {
    a != ClearSlot && !(a.Poll? && a.result.Wrote?)
  }

  // ---------------------------------------------------------------------------
  // The code
  // ---------------------------------------------------------------------------

  /** `pump_dial` and what it owns, between two receives. */
  class DialPump {
    var resolver: Option<nat>
    var tasks: seq<Task>
    var seen: nat
    var latest: DialEvent
    var slot: Option<nat>
    var writes: seq<nat>

    ghost function Model(): State
      reads this
    {
      State(Waiting, resolver, tasks, slot, writes, seen, latest)
    }

    constructor ()
      ensures Model() == START
    {
      resolver, tasks, seen, latest, slot, writes := None, [], 0, Stopped, None, [];
    }

    method AbortOld()
      modifies this
      ensures var old' := old(resolver);
              && resolver == None
              && tasks == (if old'.Some? && old'.value < |old(tasks)|
                           then old(tasks)[old'.value := old(tasks)[old'.value].(aborted := true)] else old(tasks))
              && seen == old(seen) && latest == old(latest) && slot == old(slot) && writes == old(writes)
    {
      if resolver.Some? {
        var t := resolver.value;
        resolver := None;
        if t < |tasks| {
          tasks := tasks[t := tasks[t].(aborted := true)];
        }
      }
    }

    /** Handling one event without interference is its steps one after the other. */
    method HandleEvent(event: DialEvent)
      modifies this
      ensures event == Launched(true) ==>
                Model() == Step(Step(Step(Step(Step(old(Model()), Receive(event)), Retire), Spawn), Store), Tell)
      ensures event == Launched(false) ==>
                Model() == Step(Step(Step(Step(old(Model()), Receive(event)), Retire), Spawn), Tell)
      ensures event == Stopped ==>
                Model() == Step(Step(Step(old(Model()), Receive(event)), Retire), Tell)
    {
      seen, latest := seen + 1, event;
      match event {
        case Launched(hasCode) =>
          AbortOld();
          if hasCode {
            tasks := tasks + [Task(seen, false, false)];
            resolver := Some(|tasks| - 1);
          } else {
            resolver := None;
          }
        case Stopped =>
          AbortOld();
      }
    }
  }
}
