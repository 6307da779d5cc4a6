/**
 The watchdog's reporting, `crates/app/src/watchdog.rs`: what it says over a whole run of
 looks at a clock that does not go backwards. Instants and ages are in milliseconds.
 */
module Watchdog {
  import opened Basics

  const RUNTIME_STALL := 5_000
  const REPEAT := 15_000

  /** One look: the clock, and the ages of the two heartbeats. */
  datatype Look = Look(now: nat, runtime: nat, render: nat)

  datatype Say = Nothing | Stalled(runtime: nat, render: nat) | Recovered(sinceFirstLine: nat)

  /** When the current stall was first and last reported. */
  type Memory = Option<(nat, nat)>

  function Since(now: nat, earlier: nat): nat {
    if now < earlier then 0 else now - earlier
  }

  /** One look's answer and the memory it leaves. */
  function Answer(m: Memory, l: Look): (Say, Memory) {
    if l.runtime < RUNTIME_STALL then
      (if m.Some? then Recovered(Since(l.now, m.value.0)) else Nothing, None)
    else if m.Some? && Since(l.now, m.value.1) < REPEAT then (Nothing, m)
    else (Stalled(l.runtime, l.render), Some((if m.Some? then m.value.0 else l.now, l.now)))
  }

  class Reporter {
    var reported: Memory

    constructor ()
      ensures reported == None
    {
      reported := None;
    }

    method Look(l: Look) returns (say: Say)
      modifies this
      ensures (say, reported) == Answer(old(reported), l)
    {
      if l.runtime < RUNTIME_STALL {
        var before := reported;
        reported := None;
        match before
        case Some((first, _)) => return Recovered(Since(l.now, first));
        case None => return Nothing;
      }
      if reported.Some? && Since(l.now, reported.value.1) < REPEAT {
        return Nothing;
      }
      var first := if reported.Some? then reported.value.0 else l.now;
      reported := Some((first, l.now));
      return Stalled(l.runtime, l.render);
    }
  }

  // ---------------------------------------------------------------------------
  // Runs
  // ---------------------------------------------------------------------------

  function MemoryAfter(looks: seq<Look>, n: nat): Memory
    requires n <= |looks|
  {
    if n == 0 then None else Answer(MemoryAfter(looks, n - 1), looks[n - 1]).1
  }

  /** What is said at look `i` of a run. */
  function SaidAt(looks: seq<Look>, i: nat): Say
    requires i < |looks|
  {
    Answer(MemoryAfter(looks, i), looks[i]).0
  }

  predicate Line(looks: seq<Look>, i: int) {
    0 <= i < |looks| && SaidAt(looks, i).Stalled?
  }

  predicate Recovery(looks: seq<Look>, i: int) {
    0 <= i < |looks| && SaidAt(looks, i).Recovered?
  }

  method Watch(looks: seq<Look>) returns (says: seq<Say>)
    ensures |says| == |looks| && forall i :: 0 <= i < |looks| ==> says[i] == SaidAt(looks, i)
  {
    var reporter := new Reporter();
    says := [];
    for n := 0 to |looks|
      invariant reporter.reported == MemoryAfter(looks, n)
      invariant |says| == n && forall i :: 0 <= i < n ==> says[i] == SaidAt(looks, i)
    {
      var say := reporter.Look(looks[n]);
      says := says + [say];
    }
  }

  ghost predicate ClockForward(looks: seq<Look>) {
    forall i, j :: 0 <= i <= j < |looks| ==> looks[i].now <= looks[j].now
  }

  /** No recovery at any look from `i` up to but not including `j`. */
  ghost predicate NoRecovery(looks: seq<Look>, i: int, j: int) {
    forall k :: i <= k < j ==> !Recovery(looks, k)
  }

  ghost predicate NoLine(looks: seq<Look>, i: int, j: int) {
    forall k :: i <= k < j ==> !Line(looks, k)
  }

  /** `first` opens the stall that is still open before look `n`: it is a line, nothing has
      recovered since, and no line before it belongs to the same stall. */
  ghost predicate Opens(looks: seq<Look>, first: int, n: int) {
    && 0 <= first < n && Line(looks, first) && NoRecovery(looks, first, n)
    && (forall k :: 0 <= k < first && Line(looks, k) ==> !NoRecovery(looks, k, first))
  }

  /** `last` is the latest line of the stall that is still open before look `n`. */
  ghost predicate Latest(looks: seq<Look>, last: int, n: int) {
    0 <= last < n && Line(looks, last) && NoRecovery(looks, last, n) && NoLine(looks, last + 1, n)
  }

  /** The memory is the history: empty when every line has been recovered from, and
      otherwise the times of the open stall's first and latest line. */
  ghost predicate Remembers(looks: seq<Look>, n: nat, first: int, last: int)
    requires n <= |looks|
  {
    match MemoryAfter(looks, n)
    case None => forall k :: 0 <= k < n && Line(looks, k) ==> !NoRecovery(looks, k, n)
    case Some((f, l)) =>
      && Opens(looks, first, n) && looks[first].now == f
      && Latest(looks, last, n) && looks[last].now == l
  }

  lemma {:induction false} MemoryIsHistory(looks: seq<Look>, n: nat) returns (first: int, last: int)
    requires n <= |looks|
    ensures Remembers(looks, n, first, last)
  {
    first, last := 0, 0;
    if n > 0 {
      var f, l := MemoryIsHistory(looks, n - 1);
      var before, say := MemoryAfter(looks, n - 1), SaidAt(looks, n - 1);
      match say
      case Nothing =>
        first, last := f, l;
        assert !Line(looks, n - 1) && !Recovery(looks, n - 1);
        assert forall k :: NoRecovery(looks, k, n - 1) ==> NoRecovery(looks, k, n);
        assert NoLine(looks, l + 1, n - 1) ==> NoLine(looks, l + 1, n);
      case Stalled(_, _) =>
        last := n - 1;
        assert !Recovery(looks, n - 1);
        if before.None? {
          first := n - 1;
        } else {
          first := f;
          assert NoRecovery(looks, f, n);
        }
      case Recovered(_) =>
        assert Recovery(looks, n - 1);
    }
  }

  // ---------------------------------------------------------------------------
  // Main results
  // ---------------------------------------------------------------------------

  /** Two lines of one stall are at least `REPEAT` apart. */
  lemma LinesApart(looks: seq<Look>, i: nat, j: nat)
    requires ClockForward(looks) && i < j < |looks| && Line(looks, i) && Line(looks, j) && NoRecovery(looks, i, j)
    ensures looks[j].now - looks[i].now >= 15_000
  {
    var first, last := MemoryIsHistory(looks, j);
    assert MemoryAfter(looks, j).Some?;
    assert i <= last;
  }

  /** And a stall is never left unreported for longer: as long as nothing recovers, a look
      without a line is within `REPEAT` of the latest line. So the next line comes at the
      first look past that, at most the gap between two looks late. */
  lemma SilenceIsShort(looks: seq<Look>, i: nat, j: nat)
    requires ClockForward(looks) && i <= j < |looks|
    requires Line(looks, i) && NoRecovery(looks, i, j + 1) && NoLine(looks, i + 1, j + 1)
    ensures looks[j].now - looks[i].now < 15_000
  {
    if i < j {
      var first, last := MemoryIsHistory(looks, j);
      assert NoRecovery(looks, i, j) && NoLine(looks, i + 1, j);
      assert MemoryAfter(looks, j).Some?;
      assert last == i;
      assert !Line(looks, j) && !Recovery(looks, j);
    }
  }

  /** Between consecutive lines of one stall: at least `REPEAT`, and less than `REPEAT` plus
      the last gap between looks. */
  lemma ConsecutiveLines(looks: seq<Look>, i: nat, j: nat)
    requires ClockForward(looks) && i < j < |looks|
    requires Line(looks, i) && Line(looks, j) && NoRecovery(looks, i, j) && NoLine(looks, i + 1, j)
    ensures 15_000 <= looks[j].now - looks[i].now < 15_000 + (looks[j].now - looks[j - 1].now)
  {
    LinesApart(looks, i, j);
    SilenceIsShort(looks, i, j - 1);
  }

  /** A stall is reported at the very look that finds it, and recovered from at the first
      look that does not, whenever a line was said and not before. */
  lemma WhenSomethingIsSaid(looks: seq<Look>, j: nat)
    requires ClockForward(looks) && j < |looks|
    ensures Recovery(looks, j) <==>
              looks[j].runtime < 5_000 && exists i :: 0 <= i < j && Line(looks, i) && NoRecovery(looks, i, j)
    ensures Line(looks, j) <==>
              looks[j].runtime >= 5_000
              && forall i :: 0 <= i < j && Line(looks, i) && NoRecovery(looks, i, j) ==> looks[j].now - looks[i].now >= 15_000
  {
    var first, last := MemoryIsHistory(looks, j);
    if MemoryAfter(looks, j).Some? {
      assert Line(looks, last) && NoRecovery(looks, last, j);
      assert forall i :: 0 <= i < j && Line(looks, i) ==> i <= last;
    }
  }

  /** A line carries the ages seen at its own look. */
  lemma LineCarriesAges(looks: seq<Look>, j: nat)
    requires j < |looks| && Line(looks, j)
    ensures SaidAt(looks, j) == Stalled(looks[j].runtime, looks[j].render)
  {
  }

  /** A recovery closes the stall that is open, and is measured from its first line. */
  lemma RecoveryMeasured(looks: seq<Look>, j: nat) returns (first: int)
    requires ClockForward(looks) && j < |looks| && Recovery(looks, j)
    ensures Opens(looks, first, j)
    ensures SaidAt(looks, j) == Recovered(looks[j].now - looks[first].now)
  {
    var last;
    first, last := MemoryIsHistory(looks, j);
  }

  /** Two recoveries have a line between them. */
  lemma LineBetweenRecoveries(looks: seq<Look>, i: nat, j: nat)
    requires ClockForward(looks) && i < j < |looks| && Recovery(looks, i) && Recovery(looks, j)
    ensures exists k :: i < k < j && Line(looks, k)
  {
    var first := RecoveryMeasured(looks, j);
    assert first != i;
    assert first > i;
  }

  /** The same run with other render ages. */
  ghost predicate SameButRender(looks: seq<Look>, other: seq<Look>) {
    |looks| == |other| && forall i :: 0 <= i < |looks| ==> other[i] == looks[i].(render := other[i].render)
  }

  lemma {:induction false} RenderNotRemembered(looks: seq<Look>, other: seq<Look>, n: nat)
    requires SameButRender(looks, other) && n <= |looks|
    ensures MemoryAfter(looks, n) == MemoryAfter(other, n)
  {
    if n > 0 {
      RenderNotRemembered(looks, other, n - 1);
    }
  }

  /** The render age rides along and is never judged. */
  lemma RenderIsNeverJudged(looks: seq<Look>, other: seq<Look>, i: nat)
    requires SameButRender(looks, other) && i < |looks|
    ensures match SaidAt(looks, i)
            case Stalled(runtime, _) => SaidAt(other, i) == Stalled(runtime, other[i].render)
            case say => SaidAt(other, i) == say
  {
    RenderNotRemembered(looks, other, i);
  }
}
