/**
 The panel's one-at-a-time pairing, `crates/app/src/shell_nav.rs`: a navigation loop that
 awaits a host's answer in the middle of handling an event, and a spawned task that
 finishes, or times out, whenever it likes and queues its outcome.
 */
module PairingLoop {
  import opened Basics
  import opened Text

  /** The channel the pairing task reports through holds this many outcomes. */
  const CAPACITY := 4

  type Host = string
  type Pin = nat

  datatype Pairing = Pairing(host: Host, pin: Pin)

  datatype Verdict = Paired | TimedOut | Failed

  datatype Outcome = Outcome(host: Host, verdict: Verdict)

  /** The screens this file's functions put on the glass, as far as pairing can tell. */
  datatype Screen =
    | PinScreen(host: Host, pin: Pin)
    | BusyScreen(host: Host, busyWith: Host)
    | FailedScreen(host: Host)
    | OtherScreen

  /** What the loop is in the middle of: nothing, or waiting for a host to list its apps. */
  datatype Phase = Idle | Asking(host: Host)

  /** `tasks` are the spawned pairing tasks that have not reported yet. */
  datatype State = State(
    adapter: bool,
    pairing: Option<Pairing>,
    chosenHost: Option<Host>,
    phase: Phase,
    tasks: seq<Pairing>,
    outcomes: seq<Outcome>,
    shown: seq<Screen>)

  /** `eq_ignore_ascii_case`. */
  predicate SameHost(a: Host, b: Host) {
    |a| == |b| && forall i :: 0 <= i < |a| ==> Lower(a[i]) == Lower(b[i])
  }

  function Show(s: State, screen: Screen): State {
    s.(shown := s.shown + [screen])
  }

  /** A press that asks for a pairing. With none in flight it starts one, under the PIN that
      would be drawn now; otherwise it only answers with a screen. */
  function StartPairing(s: State, host: Host, pin: Pin): State {
    if !s.adapter then s
    else match s.pairing
      case Some(active) =>
        if SameHost(active.host, host) then Show(s, PinScreen(host, active.pin))
        else Show(s, BusyScreen(host, active.host))
      case None =>
        Show(s, PinScreen(host, pin)).(pairing := Some(Pairing(host, pin)), tasks := s.tasks + [Pairing(host, pin)])
  }

  // ---------------------------------------------------------------------------
  // Interleavings
  // ---------------------------------------------------------------------------

  /** The loop handles an event, an outcome or the answer it was waiting for; a task
      finishes. The loop is sequential, a task finishes at any point of it. */
  datatype Event =
    | PressHost(host: Host)
    | PressRetry(retry: Host, pin: Pin)
    | PressOther(chosen: Option<Host>)
    | Answered(notPaired: bool, fresh': Pin)
    | TakeOutcome
    | Finish(task: nat, verdict: Verdict)

  predicate Enabled(s: State, e: Event) {
    match e
    case PressHost(_) => s.phase == Idle
    case PressRetry(_, _) => s.phase == Idle
    case PressOther(_) => s.phase == Idle
    case Answered(_, _) => s.phase.Asking?
    case TakeOutcome => s.phase == Idle && s.outcomes != []
    case Finish(i, _) => i < |s.tasks| && |s.outcomes| < CAPACITY
  }

  function Step(s: State, e: Event): State
    requires Enabled(s, e)
  {
    match e
    case PressHost(host) => Show(s, OtherScreen).(chosenHost := Some(host), phase := Asking(host))
    case PressRetry(host, pin) => StartPairing(s.(chosenHost := Some(host)), host, pin)
    case PressOther(chosen) => Show(s, OtherScreen).(chosenHost := chosen)
    case Answered(notPaired, pin) =>
      var t := s.(phase := Idle);
      if notPaired && s.adapter then StartPairing(t, s.phase.host, pin) else Show(t, OtherScreen)
    case TakeOutcome =>
      var outcome := s.outcomes[0];
      var t := s.(pairing := None, outcomes := s.outcomes[1..]);
      if outcome.verdict == Paired
      then Show(t, OtherScreen).(chosenHost := Some(outcome.host), phase := Asking(outcome.host))
      else Show(t, FailedScreen(outcome.host))
    case Finish(i, verdict) =>
      s.(tasks := s.tasks[..i] + s.tasks[i + 1..], outcomes := s.outcomes + [Outcome(s.tasks[i].host, verdict)])
  }

  function Start(adapter: bool): State {
    State(adapter, None, None, Idle, [], [], [])
  }

  /** A run: every event possible where it happens, from the start to `end`. */
  ghost predicate Run(s: State, es: seq<Event>, end: State)
    decreases |es|
  {
    if es == [] then s == end
    else Enabled(s, es[0]) && Run(Step(s, es[0]), es[1..], end)
  }

  // ---------------------------------------------------------------------------
  // One pairing at a time
  // ---------------------------------------------------------------------------

  /** `pairing` is set exactly when one pairing task is running or has its outcome queued,
      and that task is the one stored. */
  ghost predicate OneAtATime(s: State) {
    match s.pairing
    case None => s.tasks == [] && s.outcomes == []
    case Some(p) =>
      || (s.tasks == [p] && s.outcomes == [])
      || (s.tasks == [] && |s.outcomes| == 1 && s.outcomes[0].host == p.host)
  }

  lemma StepKeepsOne(s: State, e: Event)
    requires OneAtATime(s) && Enabled(s, e)
    ensures OneAtATime(Step(s, e))
  {
    if e.Finish? {
      assert s.tasks[..0] + s.tasks[1..] == [];
    }
  }

  /** In every interleaving, at every point of it. */
  lemma {:induction false} OneAtATimeAlways(s: State, es: seq<Event>, end: State)
    requires OneAtATime(s) && Run(s, es, end)
    ensures OneAtATime(end)
    decreases |es|
  {
    if es != [] {
      StepKeepsOne(s, es[0]);
      OneAtATimeAlways(Step(s, es[0]), es[1..], end);
    }
  }

  lemma EveryRunPairsOneAtATime(adapter: bool, es: seq<Event>, end: State)
    requires Run(Start(adapter), es, end)
    ensures OneAtATime(end)
    ensures |end.tasks| + |end.outcomes| == (if end.pairing.Some? then 1 else 0)
    ensures |end.outcomes| < CAPACITY
  {
    OneAtATimeAlways(Start(adapter), es, end);
  }

  // ---------------------------------------------------------------------------
  // The PIN on the glass
  // ---------------------------------------------------------------------------

  /** Every PIN screen shown from position `from` on carries this PIN, for this host. */
  ghost predicate PinScreensCarry(shown: seq<Screen>, from: nat, p: Pairing) {
    forall k :: from <= k < |shown| && shown[k].PinScreen? ==> shown[k].pin == p.pin && SameHost(p.host, shown[k].host)
  }

  lemma {:induction false} PinStaysOnGlass(s: State, es: seq<Event>, end: State, p: Pairing)
    requires s.pairing == Some(p) && Run(s, es, end) && TakeOutcome !in es
    ensures end.pairing == Some(p)
    ensures s.shown <= end.shown && PinScreensCarry(end.shown, |s.shown|, p)
    decreases |es|
  {
    if es != [] {
      var t := Step(s, es[0]);
      assert t.pairing == Some(p) && s.shown <= t.shown && PinScreensCarry(t.shown, |s.shown|, p);
      PinStaysOnGlass(t, es[1..], end, p);
      assert forall k :: |s.shown| <= k < |t.shown| ==> end.shown[k] == t.shown[k];
    }
  }

  /** Whatever is pressed, and however often, from the moment a pairing starts until its
      outcome is taken: the stored pairing does not change and every PIN screen, the first
      one included, carries the PIN its one task was given. */
  lemma SamePinUntilOutcome(s: State, e: Event, es: seq<Event>, end: State)
    requires OneAtATime(s) && s.pairing == None && Enabled(s, e) && Step(s, e).pairing.Some?
    requires Run(Step(s, e), es, end) && TakeOutcome !in es
    ensures var p := Step(s, e).pairing.value;
            && Step(s, e).tasks == [p]
            && end.pairing == Some(p) && (end.tasks == [p] || (end.tasks == [] && |end.outcomes| == 1))
            && |s.shown| < |end.shown| && end.shown[|s.shown|] == PinScreen(p.host, p.pin)
            && PinScreensCarry(end.shown, |s.shown|, p)
  {
    var t := Step(s, e);
    var p := t.pairing.value;
    StepKeepsOne(s, e);
    PinStaysOnGlass(t, es, end, p);
    OneAtATimeAlways(t, es, end);
    assert t.shown == s.shown + [PinScreen(p.host, p.pin)];
    assert SameHost(p.host, p.host);
  }

  /** While a pairing is in flight, and until its outcome is taken, nothing starts another:
      whatever is pressed, however often and for whichever host, the stored pairing stays,
      no task appears, and tasks only ever turn into outcomes by finishing. */
  lemma {:induction false} BusyPressStartsNothing(s: State, es: seq<Event>, end: State)
    requires s.pairing.Some? && Run(s, es, end) && TakeOutcome !in es
    ensures end.pairing == s.pairing && |end.tasks| + |end.outcomes| == |s.tasks| + |s.outcomes|
    ensures forall t :: t in end.tasks ==> t in s.tasks
    ensures (forall i :: 0 <= i < |es| ==> !es[i].Finish?) ==> end.tasks == s.tasks && end.outcomes == s.outcomes
    decreases |es|
  {
    if es != [] {
      BusyPressStartsNothing(Step(s, es[0]), es[1..], end);
    }
  }

  // ---------------------------------------------------------------------------
  // What the panel makes of an outcome, a press and an answer
  // ---------------------------------------------------------------------------

  /** A run with the states it goes through. */
  ghost predicate Chain(adapter: bool, es: seq<Event>, ss: seq<State>) {
    && |ss| == |es| + 1 && ss[0] == Start(adapter)
    && forall k :: 0 <= k < |es| ==> Enabled(ss[k], es[k]) && ss[k + 1] == Step(ss[k], es[k])
  }

  /** Every run has them. */
  lemma RunHasChain(adapter: bool, es: seq<Event>, end: State) returns (ss: seq<State>)
    requires Run(Start(adapter), es, end)
    ensures Chain(adapter, es, ss) && ss[|es|] == end
  {
    ss := StatesOf(Start(adapter), es, end);
  }

  lemma {:induction false} StatesOf(s: State, es: seq<Event>, end: State) returns (ss: seq<State>)
    requires Run(s, es, end)
    ensures |ss| == |es| + 1 && ss[0] == s && ss[|es|] == end
    ensures forall k :: 0 <= k < |es| ==> Enabled(ss[k], es[k]) && ss[k + 1] == Step(ss[k], es[k])
    decreases |es|
  {
    if es == [] {
      ss := [s];
    } else {
      var rest := StatesOf(Step(s, es[0]), es[1..], end);
      ss := [s] + rest;
      forall k | 0 <= k < |es|
        ensures Enabled(ss[k], es[k]) && ss[k + 1] == Step(ss[k], es[k])
      {
        if k > 0 {
          assert ss[k] == rest[k - 1] && ss[k + 1] == rest[k] && es[k] == es[1..][k - 1];
        }
      }
    }
  }

  /** The outcomes of the first `n` events, read off the tasks that finished. */
  ghost function Reported(es: seq<Event>, ss: seq<State>, n: nat): seq<Outcome>
    requires n <= |es| <= |ss|
  {
    if n == 0 then []
    else
      Reported(es, ss, n - 1)
      + (match es[n - 1]
         case Finish(i, verdict) => if i < |ss[n - 1].tasks| then [Outcome(ss[n - 1].tasks[i].host, verdict)] else []
         case _ => [])
  }

  /** How many of the first `n` events took an outcome. */
  ghost function TakenBy(es: seq<Event>, n: nat): nat
    requires n <= |es|
  {
    if n == 0 then 0 else TakenBy(es, n - 1) + (if es[n - 1] == TakeOutcome then 1 else 0)
  }

  /** The hosts of outcomes that were not a success. */
  ghost function Failures(os: seq<Outcome>): seq<Host> {
    if os == [] then []
    else Failures(os[..|os| - 1]) + (if os[|os| - 1].verdict == Paired then [] else [os[|os| - 1].host])
  }

  /** The hosts on the screens that say a pairing failed. */
  ghost function FailedOn(shown: seq<Screen>): seq<Host> {
    if shown == [] then []
    else FailedOn(shown[..|shown| - 1]) + (if shown[|shown| - 1].FailedScreen? then [shown[|shown| - 1].host] else [])
  }

  lemma FailedSnoc(shown: seq<Screen>, x: Screen)
    ensures FailedOn(shown + [x]) == FailedOn(shown) + (if x.FailedScreen? then [x.host] else [])
  {
    assert (shown + [x])[..|shown|] == shown;
  }

  lemma FailuresSnoc(os: seq<Outcome>, o: Outcome)
    ensures Failures(os + [o]) == Failures(os) + (if o.verdict == Paired then [] else [o.host])
  {
    assert (os + [o])[..|os|] == os;
  }

  /** Outcomes are taken in the order they were reported. */
  lemma {:induction false} TakenInOrder(adapter: bool, es: seq<Event>, ss: seq<State>, n: nat)
    requires Chain(adapter, es, ss) && n <= |es|
    ensures TakenBy(es, n) <= |Reported(es, ss, n)| && ss[n].outcomes == Reported(es, ss, n)[TakenBy(es, n)..]
  {
    if n > 0 {
      TakenInOrder(adapter, es, ss, n - 1);
      assert Enabled(ss[n - 1], es[n - 1]) && ss[n - 1 + 1] == Step(ss[n - 1], es[n - 1]);
      OutcomesStep(ss[n - 1], es[n - 1]);
    }
  }

  lemma OutcomesStep(s: State, e: Event)
    requires Enabled(s, e)
    ensures Step(s, e).outcomes
            == match e
               case TakeOutcome => s.outcomes[1..]
               case Finish(i, verdict) => s.outcomes + [Outcome(s.tasks[i].host, verdict)]
               case _ => s.outcomes
  {
  }

  lemma FailedStep(s: State, e: Event)
    requires Enabled(s, e)
    ensures FailedOn(Step(s, e).shown)
            == FailedOn(s.shown) + (if e == TakeOutcome && s.outcomes[0].verdict != Paired then [s.outcomes[0].host] else [])
  {
    var new' := ShownStep(s, e);
    if new' == [] {
      assert s.shown + new' == s.shown;
    } else {
      FailedSnoc(s.shown, new'[0]);
      assert new' == [new'[0]];
    }
  }

  lemma ShownStep(s: State, e: Event) returns (new': seq<Screen>)
    requires Enabled(s, e)
    ensures Step(s, e).shown == s.shown + new' && |new'| <= 1
    ensures (new' != [] && new'[0].FailedScreen?) <==> (e == TakeOutcome && s.outcomes[0].verdict != Paired)
    ensures new' != [] && new'[0].FailedScreen? ==> new'[0].host == s.outcomes[0].host
  {
    var t := Step(s, e);
    new' := t.shown[|s.shown|..];
  }

  /** In every run the screens that say a pairing failed are exactly those of the unsuccessful
      outcomes taken, in order, each for its own host. */
  lemma {:induction false} FailuresShown(adapter: bool, es: seq<Event>, ss: seq<State>, n: nat)
    requires Chain(adapter, es, ss) && n <= |es|
    ensures TakenBy(es, n) <= |Reported(es, ss, n)|
    ensures FailedOn(ss[n].shown) == Failures(Reported(es, ss, n)[..TakenBy(es, n)])
  {
    TakenInOrder(adapter, es, ss, n);
    if n > 0 {
      FailuresShown(adapter, es, ss, n - 1);
      TakenInOrder(adapter, es, ss, n - 1);
      assert Enabled(ss[n - 1], es[n - 1]) && ss[n - 1 + 1] == Step(ss[n - 1], es[n - 1]);
      FailedStep(ss[n - 1], es[n - 1]);
      TakenPrefix(es, ss, n);
    }
  }

  lemma TakenPrefix(es: seq<Event>, ss: seq<State>, n: nat)
    requires 0 < n <= |es| <= |ss| && TakenBy(es, n - 1) <= |Reported(es, ss, n - 1)| && TakenBy(es, n) <= |Reported(es, ss, n)|
    requires es[n - 1] == TakeOutcome ==> ss[n - 1].outcomes == Reported(es, ss, n - 1)[TakenBy(es, n - 1)..] != []
    ensures Failures(Reported(es, ss, n)[..TakenBy(es, n)])
            == Failures(Reported(es, ss, n - 1)[..TakenBy(es, n - 1)])
               + (if es[n - 1] == TakeOutcome && ss[n - 1].outcomes[0].verdict != Paired then [ss[n - 1].outcomes[0].host] else [])
  {
    var was, taken := Reported(es, ss, n - 1), TakenBy(es, n - 1);
    if es[n - 1] == TakeOutcome {
      assert Reported(es, ss, n) == was;
      assert was[..taken + 1] == was[..taken] + [was[taken]] && was[taken] == ss[n - 1].outcomes[0];
      FailuresSnoc(was[..taken], was[taken]);
    } else {
      assert Reported(es, ss, n)[..taken] == was[..taken];
    }
  }

  /** Event `k` asks `host` for its apps: a press on it, or taking the outcome of a pairing
      with it that succeeded. */
  ghost predicate Asks(es: seq<Event>, ss: seq<State>, k: nat, host: Host)
    requires k < |es| <= |ss|
  {
    || es[k] == PressHost(host)
    || (&& es[k] == TakeOutcome && TakenBy(es, k) < |Reported(es, ss, k)|
        && Reported(es, ss, k)[TakenBy(es, k)] == Outcome(host, Paired))
  }

  /** In every run the loop is waiting for a host's answer if and only if it asked that very
      host, and nothing but pairing tasks finishing has happened since. */
  lemma {:induction false} AskingExactly(adapter: bool, es: seq<Event>, ss: seq<State>, n: nat, host: Host)
    requires Chain(adapter, es, ss) && n <= |es|
    ensures ss[n].phase == Asking(host) <==>
            exists k: nat :: k < n && Asks(es, ss, k, host) && forall m :: k < m < n ==> es[m].Finish?
  {
    if n > 0 {
      AskingExactly(adapter, es, ss, n - 1, host);
      AskingStep(adapter, es, ss, n - 1, host);
    }
  }

  lemma AskingStep(adapter: bool, es: seq<Event>, ss: seq<State>, k: nat, host: Host)
    requires Chain(adapter, es, ss) && k < |es|
    ensures ss[k + 1].phase == Asking(host) <==> Asks(es, ss, k, host) || (es[k].Finish? && ss[k].phase == Asking(host))
  {
    TakenInOrder(adapter, es, ss, k);
    PhaseStep(ss[k], es[k], host);
  }

  lemma PhaseStep(s: State, e: Event, host: Host)
    requires Enabled(s, e)
    ensures Step(s, e).phase == Asking(host) <==>
            || e == PressHost(host)
            || (e == TakeOutcome && s.outcomes[0] == Outcome(host, Paired))
            || (e.Finish? && s.phase == Asking(host))
  {
  }

  /** And the host an app would be launched on is the one last asked, retried or chosen. */
  lemma ChosenStep(adapter: bool, es: seq<Event>, ss: seq<State>, k: nat, host: Host)
    requires Chain(adapter, es, ss) && k < |es|
    ensures Asks(es, ss, k, host) ==> ss[k + 1].chosenHost == Some(host)
    ensures es[k].PressRetry? ==> ss[k + 1].chosenHost == Some(es[k].retry)
    ensures es[k].PressOther? ==> ss[k + 1].chosenHost == es[k].chosen
    ensures (forall h :: !Asks(es, ss, k, h)) && !es[k].PressRetry? && !es[k].PressOther? ==> ss[k + 1].chosenHost == ss[k].chosenHost
  {
    TakenInOrder(adapter, es, ss, k);
    assert Enabled(ss[k], es[k]) && ss[k + 1] == Step(ss[k], es[k]);
    match es[k]
    case TakeOutcome =>
      var o := Reported(es, ss, k)[TakenBy(es, k)];
      assert o == ss[k].outcomes[0];
      assert o.verdict == Paired ==> Asks(es, ss, k, o.host);
    case PressHost(h) =>
      assert Asks(es, ss, k, h);
    case _ =>
  }

  /** Event `k` asks for a pairing with `host`: a retry, or the answer of a host that was
      asked and is not paired. `pin` is what would be drawn. */
  ghost predicate Requests(es: seq<Event>, ss: seq<State>, k: nat, host: Host, pin: Pin)
    requires k < |es| <= |ss|
  {
    es[k] == PressRetry(host, pin) || (es[k] == Answered(true, pin) && ss[k].phase == Asking(host))
  }

  /** In every run with an adapter, each request shows one screen: the PIN, if nothing was
      running or queued, and then a task of just that host and PIN has started; and
      otherwise the PIN in flight for the same host, and for another that the panel is busy. */
  lemma RequestsAreAnswered(es: seq<Event>, ss: seq<State>, k: nat, host: Host, pin: Pin)
    requires Chain(true, es, ss) && k < |es| && Requests(es, ss, k, host, pin)
    ensures |ss[k + 1].shown| == |ss[k].shown| + 1
    ensures var screen := ss[k + 1].shown[|ss[k].shown|];
            if ss[k].tasks == [] && ss[k].outcomes == [] then
              && screen == PinScreen(host, pin)
              && ss[k + 1].tasks == [Pairing(host, pin)] && ss[k + 1].pairing == Some(Pairing(host, pin))
            else
              && ss[k].pairing.Some? && ss[k + 1].tasks == ss[k].tasks && ss[k + 1].pairing == ss[k].pairing
              && var p := ss[k].pairing.value;
                 screen == if SameHost(p.host, host) then PinScreen(host, p.pin) else BusyScreen(host, p.host)
  {
    ChainAdapter(true, es, ss, k);
    assert Enabled(ss[k], es[k]) && ss[k + 1] == Step(ss[k], es[k]);
  }

  lemma {:induction false} ChainAdapter(adapter: bool, es: seq<Event>, ss: seq<State>, k: nat)
    requires Chain(adapter, es, ss) && k <= |es|
    ensures ss[k].adapter == adapter && OneAtATime(ss[k])
  {
    if k > 0 {
      ChainAdapter(adapter, es, ss, k - 1);
      assert Enabled(ss[k - 1], es[k - 1]) && ss[k - 1 + 1] == Step(ss[k - 1], es[k - 1]);
      StepKeepsOne(ss[k - 1], es[k - 1]);
    }
  }

  /** Nothing else starts one, and only taking its outcome ends one. */
  lemma NothingElsePairs(adapter: bool, es: seq<Event>, ss: seq<State>, k: nat)
    requires Chain(adapter, es, ss) && k < |es|
    ensures ss[k].pairing == None && ss[k + 1].pairing.Some? ==>
              adapter && Requests(es, ss, k, ss[k + 1].pairing.value.host, ss[k + 1].pairing.value.pin)
    ensures ss[k].pairing.Some? ==> ss[k + 1].pairing == if es[k] == TakeOutcome then None else ss[k].pairing
  {
    ChainAdapter(adapter, es, ss, k);
    assert Enabled(ss[k], es[k]) && ss[k + 1] == Step(ss[k], es[k]);
  }

  /** Two hosts are the same when their names agree but for the case of ASCII letters. */
  lemma SameHostExactly(a: Host, b: Host)
    ensures SameHost(a, b) <==>
            |a| == |b| && forall i :: 0 <= i < |a| ==> EqualButForCase(a[i], b[i])
  {
    assert forall x, y :: Lower(x) == Lower(y) <==> EqualButForCase(x, y);
  }

  // ---------------------------------------------------------------------------
  // The code
  // ---------------------------------------------------------------------------

  /** The navigation state one `run` owns. */
  class Nav {
    const adapter: bool
    var pairing: Option<Pairing>
    var chosenHost: Option<Host>
    var tasks: seq<Pairing>
    var outcomes: seq<Outcome>
    var shown: seq<Screen>
    var phase: Phase

    ghost function Model(): State
      reads this
    {
      State(adapter, pairing, chosenHost, phase, tasks, outcomes, shown)
    }

    constructor (adapter: bool)
      ensures Model() == Start(adapter)
    {
      this.adapter := adapter;
      pairing, chosenHost, tasks, outcomes, shown, phase := None, None, [], [], [], Idle;
    }

    method BeginPairing(host: Host, pin: Pin)
      modifies this
      ensures Model() == StartPairing(old(Model()), host, pin)
    {
      if !adapter {
        return;
      }
      if pairing.Some? {
        var active := pairing.value;
        if SameHost(active.host, host) {
          shown := shown + [PinScreen(host, active.pin)];
        } else {
          shown := shown + [BusyScreen(host, active.host)];
        }
        return;
      }
      shown := shown + [PinScreen(host, pin)];
      pairing := Some(Pairing(host, pin));
      tasks := tasks + [Pairing(host, pin)];
    }

    /** The part of `on_pairing_outcome` before it awaits the host's apps. */
    method OnPairingOutcome()
      requires phase == Idle && outcomes != []
      modifies this
      ensures Model() == Step(old(Model()), TakeOutcome)
    {
      var outcome := outcomes[0];
      outcomes := outcomes[1..];
      pairing := None;
      if outcome.verdict == Paired {
        chosenHost := Some(outcome.host);
        shown := shown + [OtherScreen];
        phase := Asking(outcome.host);
      } else {
        shown := shown + [FailedScreen(outcome.host)];
      }
    }

    /** The part of either handler after the host has answered. */
    method OnAnswer(notPaired: bool, pin: Pin)
      requires phase.Asking?
      modifies this
      ensures Model() == Step(old(Model()), Answered(notPaired, pin))
    {
      var host := phase.host;
      phase := Idle;
      if notPaired && adapter {
        BeginPairing(host, pin);
      } else {
        shown := shown + [OtherScreen];
      }
    }
  }
}

/**
 Frames of a settings action, numbered by drill-in: the epoch of
 `crates/app/src/shell_nav.rs`, which wraps at 64 bits.
 */
module ActionFrames {
  import opened Arithmetic

  const U64: int := 0x1_0000_0000_0000_0000

  /** `drills` counts every drill-in ever; the code keeps only `epoch`. */
  datatype Nav = Nav(epoch: int, drills: nat)

  /** A stream of frames keeps the epoch it was started with; `born` is the drill-in that
      started it. */
  datatype Stream = Stream(epoch: int, born: nat)

  function DrillIn(n: Nav): Nav {
    Nav((n.epoch + 1) % U64, n.drills + 1)
  }

  function Follow(n: Nav): Stream {
    Stream(n.epoch, n.drills)
  }

  /** The test `on_action_report` makes before it paints a frame. */
  predicate Painted(n: Nav, s: Stream) {
    s.epoch == n.epoch
  }

  function DrillIns(n: Nav, k: nat): Nav {
    if k == 0 then n else DrillIn(DrillIns(n, k - 1))
  }

  lemma {:induction false} EpochCounts(k: nat)
    ensures DrillIns(Nav(0, 0), k) == Nav(k % U64, k)
  {
    if k > 0 {
      EpochCounts(k - 1);
      SuccessorRemainder(k - 1, U64);
    }
  }

  /** A frame of the stream started by drill-in `born` is painted after `now` drill-ins if
      and only if a multiple of 2^64 drill-ins happened in between: so, short of that many,
      only the frames of the latest drill-in are painted, and all of those are. */
  lemma OnlyLatestIsPainted(born: nat, now: nat)
    requires born <= now
    ensures var s := Follow(DrillIns(Nav(0, 0), born));
            Painted(DrillIns(Nav(0, 0), now), s) <==> (now - born) % 0x1_0000_0000_0000_0000 == 0
    ensures now - born < U64 ==>
              (Painted(DrillIns(Nav(0, 0), now), Follow(DrillIns(Nav(0, 0), born))) <==> now == born)
  {
    EpochCounts(born);
    EpochCounts(now);
    SameRemainder(born, now, U64);
  }
}
