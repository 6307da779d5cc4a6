/**
 Finding audio in a recording, `nix/bluetooth-a2dp-signal.py`: the runs of a mask by its
 edges, the padding a mixer inserted, and the measurement windows cut from what is left.
 */
module AudioSpans {
  // At 48 000 samples a second: half a millisecond, ten milliseconds and one millisecond.
  const MIN_GAP := 24
  const WINDOW := 480
  const TRIM := 48

  type Mask = seq<bool>

  datatype Span = Span(start: int, end: int)

  // ---------------------------------------------------------------------------
  // Runs by their edges
  // ---------------------------------------------------------------------------

  /** The mask, false outside itself. */
  predicate Bit(mask: Mask, i: int) {
    0 <= i < |mask| && mask[i]
  }

  /** The padded mask changes between `i - 1` and `i`. */
  predicate Edge(mask: Mask, i: int) {
    Bit(mask, i - 1) != Bit(mask, i)
  }

  /** The edges before `n`, in order. */
  function EdgesBefore(mask: Mask, n: nat): seq<int> {
    if n == 0 then []
    else EdgesBefore(mask, n - 1) + (if Edge(mask, n - 1) then [n - 1] else [])
  }

  function Edges(mask: Mask): seq<int> {
    EdgesBefore(mask, |mask| + 1)
  }

  /** Even edges zipped with odd ones. */
  function Spans(mask: Mask): (r: seq<Span>)
    ensures |r| == |Edges(mask)| / 2
  {
    var e := Edges(mask);
    seq(|e| / 2, k requires 0 <= k < |e| / 2 => Span(e[2 * k], e[2 * k + 1]))
  }

  /** A maximal run of true. */
  ghost predicate IsRun(mask: Mask, s: Span) {
    && 0 <= s.start < s.end <= |mask|
    && (forall i :: s.start <= i < s.end ==> mask[i])
    && !Bit(mask, s.start - 1) && !Bit(mask, s.end)
  }

  lemma {:induction false} EdgesBeforeSpec(mask: Mask, n: nat)
    ensures var e := EdgesBefore(mask, n);
            && (forall k :: 0 <= k < |e| ==> 0 <= e[k] < n && Edge(mask, e[k]))
            && (forall j, k :: 0 <= j < k < |e| ==> e[j] < e[k])
            && (forall i :: 0 <= i < n && Edge(mask, i) ==> i in e)
            && (forall k :: 0 <= k < |e| ==> (Bit(mask, e[k]) <==> k % 2 == 0))
            && (Bit(mask, n - 1) <==> |e| % 2 == 1)
  {
    if n > 0 {
      EdgesBeforeSpec(mask, n - 1);
    }
  }

  /** Between edges the mask does not change. */
  lemma {:induction false} ConstantBetweenEdges(mask: Mask, a: int, b: int)
    requires a <= b && forall i :: a < i <= b ==> !Edge(mask, i)
    ensures Bit(mask, b) == Bit(mask, a)
    decreases b - a
  {
    if a < b {
      ConstantBetweenEdges(mask, a, b - 1);
      assert !Edge(mask, b);
    }
  }

  /** No edge lies strictly between two consecutive ones. */
  lemma NoEdgeBetween(mask: Mask, k: nat, i: int)
    requires k + 1 < |Edges(mask)| && Edges(mask)[k] < i < Edges(mask)[k + 1]
    ensures !Edge(mask, i)
  {
    var e := Edges(mask);
    EdgesBeforeSpec(mask, |mask| + 1);
    assert forall j :: 0 <= j < |e| ==> e[j] <= e[k] || e[j] >= e[k + 1];
    assert i !in e;
  }

  /** Every pair of edges bounds a maximal run. */
  lemma SpanIsRun(mask: Mask, k: nat)
    requires k < |Spans(mask)|
    ensures IsRun(mask, Spans(mask)[k])
  {
    var e := Edges(mask);
    EdgesBeforeSpec(mask, |mask| + 1);
    var a, b := e[2 * k], e[2 * k + 1];
    forall i | a <= i < b
      ensures 0 <= i < |mask| && mask[i]
    {
      forall j | a < j <= i
        ensures !Edge(mask, j)
      {
        NoEdgeBetween(mask, 2 * k, j);
      }
      ConstantBetweenEdges(mask, a, i);
    }
  }

  /** The spans are in order and do not even touch. */
  lemma SpansSeparated(mask: Mask, j: nat, k: nat)
    requires j < k < |Spans(mask)|
    ensures Spans(mask)[j].end < Spans(mask)[k].start
  {
    EdgesBeforeSpec(mask, |mask| + 1);
  }

  lemma NextIsLater(e: seq<int>, f: seq<int>)
    requires f <= e && |f| < |e| && forall j, k :: 0 <= j < k < |e| ==> e[j] < e[k]
    ensures e[|f|] !in f
  {
    assert forall j :: 0 <= j < |f| ==> f[j] == e[j] < e[|f|];
  }

  /** Up to a true position there is an odd number of edges, and the next edge is past it. */
  lemma EdgesAround(mask: Mask, i: nat)
    requires i < |mask| && mask[i]
    ensures var e, n := Edges(mask), |EdgesBefore(mask, i + 1)|;
            n % 2 == 1 && n < |e| && e[n - 1] <= i < e[n]
  {
    var e, f := Edges(mask), EdgesBefore(mask, i + 1);
    EdgesArePrefix(mask, i + 1, |mask| + 1);
    assert |f| % 2 == 1 && f[|f| - 1] <= i by { EdgesBeforeSpec(mask, i + 1); }
    assert |e| % 2 == 0 by { EdgesBeforeSpec(mask, |mask| + 1); }
    assert e[|f|] !in f && Edge(mask, e[|f|]) && e[|f|] >= 0 by {
      EdgesBeforeSpec(mask, |mask| + 1);
      NextIsLater(e, f);
    }
    assert e[|f|] > i by { EdgesBeforeSpec(mask, i + 1); }
  }

  /** Every true position is in a span. */
  lemma TrueIsSpanned(mask: Mask, i: nat) returns (k: nat)
    requires i < |mask| && mask[i]
    ensures k < |Spans(mask)| && Spans(mask)[k].start <= i < Spans(mask)[k].end
  {
    EdgesAround(mask, i);
    k := |EdgesBefore(mask, i + 1)| / 2;
  }

  lemma {:induction false} EdgesArePrefix(mask: Mask, m: nat, n: nat)
    requires m <= n
    ensures EdgesBefore(mask, m) <= EdgesBefore(mask, n)
    decreases n
  {
    if m < n {
      EdgesArePrefix(mask, m, n - 1);
    }
  }

  /** `_spans` returns exactly the maximal runs of true. */
  lemma SpansAreTheRuns(mask: Mask, s: Span)
    ensures s in Spans(mask) <==> IsRun(mask, s)
  {
    if s in Spans(mask) {
      var k :| 0 <= k < |Spans(mask)| && Spans(mask)[k] == s;
      SpanIsRun(mask, k);
    }
    if IsRun(mask, s) {
      var k := TrueIsSpanned(mask, s.start);
      SpanIsRun(mask, k);
      RunsThatMeetAreEqual(mask, s, Spans(mask)[k], s.start);
    }
  }

  lemma RunsThatMeetAreEqual(mask: Mask, s: Span, t: Span, i: int)
    requires IsRun(mask, s) && IsRun(mask, t)
    requires s.start <= i < s.end && t.start <= i < t.end
    ensures s == t
  {
    assert !Bit(mask, s.start - 1) && !Bit(mask, t.start - 1) && !Bit(mask, s.end) && !Bit(mask, t.end);
    assert s.start <= t.start && t.start <= s.start;
    assert s.end <= t.end && t.end <= s.end;
  }

  // ---------------------------------------------------------------------------
  // Padding and audio
  // ---------------------------------------------------------------------------

  type Recording = seq<(int, int)>

  /** Exact zeros in both channels. */
  function Silent(rec: Recording): (m: Mask)
    ensures |m| == |rec|
  {
    seq(|rec|, i requires 0 <= i < |rec| => rec[i].0 == 0 && rec[i].1 == 0)
  }

  ghost predicate InLongRun(silent: Mask, i: int) {
    exists s: Span :: IsRun(silent, s) && s.end - s.start >= MIN_GAP && s.start <= i < s.end
  }

  /** Padding is the long runs of silence and nothing else. */
  ghost function Padding(silent: Mask): (padding: Mask)
    ensures |padding| == |silent|
  {
    seq(|silent|, i requires 0 <= i < |silent| => InLongRun(silent, i))
  }

  function Not(mask: Mask): (m: Mask)
    ensures |m| == |mask|
  {
    seq(|mask|, i requires 0 <= i < |mask| => !mask[i])
  }

  /** Fill the padding mask, span by span, in place. */
  method FillPadding(silent: Mask) returns (padding: array<bool>)
    ensures fresh(padding) && padding[..] == Padding(silent)
  {
    padding := new bool[|silent|](_ => false);
    var spans := Spans(silent);
    for k := 0 to |spans|
      invariant padding.Length == |silent| && fresh(padding)
      invariant forall i :: 0 <= i < |silent| ==>
                  (padding[i] <==> exists j :: 0 <= j < k && Long(spans[j]) && InSpan(spans[j], i))
    {
      SpanIsRun(silent, k);
      if Long(spans[k]) {
        var at := spans[k].start;
        while at < spans[k].end
          invariant spans[k].start <= at <= spans[k].end
          invariant forall i :: 0 <= i < |silent| ==>
                      (padding[i] <==>
                         || (exists j :: 0 <= j < k && Long(spans[j]) && InSpan(spans[j], i))
                         || spans[k].start <= i < at)
        {
          padding[at] := true;
          at := at + 1;
        }
      }
    }
    forall i | 0 <= i < |silent|
      ensures padding[i] <==> InLongRun(silent, i)
    {
      LongSpansAreLongRuns(silent, i);
    }
  }

  predicate Long(s: Span) {
    s.end - s.start >= MIN_GAP
  }

  predicate InSpan(s: Span, i: int) {
    s.start <= i < s.end
  }

  lemma LongSpansAreLongRuns(silent: Mask, i: int)
    ensures var spans := Spans(silent);
            (exists j :: 0 <= j < |spans| && Long(spans[j]) && InSpan(spans[j], i)) <==> InLongRun(silent, i)
  {
    var spans := Spans(silent);
    if j :| 0 <= j < |spans| && Long(spans[j]) && InSpan(spans[j], i) {
      SpanIsRun(silent, j);
    }
    if s: Span :| IsRun(silent, s) && s.end - s.start >= MIN_GAP && s.start <= i < s.end {
      SpansAreTheRuns(silent, s);
      var j :| 0 <= j < |spans| && spans[j] == s;
      assert Long(spans[j]) && InSpan(spans[j], i);
    }
  }

  ghost function Audio(rec: Recording): (audio: Mask)
    ensures |audio| == |rec|
  {
    Not(Padding(Silent(rec)))
  }

  /** The audio of a recording: the maximal runs of what is not padding. */
  method Bursts(rec: Recording) returns (spans: seq<Span>)
    ensures spans == Spans(Audio(rec))
    ensures forall s: Span :: s in spans <==> IsRun(Audio(rec), s)
  {
    var mask := FillPadding(Silent(rec));
    forall s: Span
      ensures s in Spans(Audio(rec)) <==> IsRun(Audio(rec), s)
    {
      SpansAreTheRuns(Audio(rec), s);
    }
    spans := Spans(Not(mask[..]));
  }

  /** Sample `i` is in a stretch of at least `MIN_GAP` samples that are zero in both
      channels. */
  ghost predicate InZeros(rec: Recording, i: int) {
    exists a, b :: ZeroStretch(rec, a, b) && a <= i < b
  }

  ghost predicate ZeroStretch(rec: Recording, a: int, b: int) {
    0 <= a && a + 24 <= b <= |rec| && forall k :: a <= k < b ==> rec[k] == (0, 0)
  }

  lemma PaddingIsZeros(rec: Recording, i: int)
    requires 0 <= i < |rec|
    ensures Padding(Silent(rec))[i] <==> InZeros(rec, i)
  {
    var silent := Silent(rec);
    assert forall k :: 0 <= k < |rec| ==> (silent[k] <==> rec[k] == (0, 0));
    if InLongRun(silent, i) {
      var s: Span :| IsRun(silent, s) && s.end - s.start >= MIN_GAP && s.start <= i < s.end;
      assert ZeroStretch(rec, s.start, s.end);
    }
    if a, b :| ZeroStretch(rec, a, b) && a <= i < b {
      StretchIsInRun(silent, a, b, i);
    }
  }

  lemma StretchIsInRun(silent: Mask, a: int, b: int, i: int)
    requires 0 <= a <= i < b <= |silent| && b - a >= MIN_GAP && forall k :: a <= k < b ==> silent[k]
    ensures InLongRun(silent, i)
  {
    var k := TrueIsSpanned(silent, a);
    SpanIsRun(silent, k);
    var s := Spans(silent)[k];
    assert !Bit(silent, s.end);
    assert s.end >= b;
  }

  /** The audio of any recording: a span is returned if and only if it is a stretch without a
      padded sample, and with one, or the end of the recording, on either side. */
  lemma BurstsOfRecording(rec: Recording, s: Span)
    ensures s in Spans(Audio(rec)) <==>
            && 0 <= s.start < s.end <= |rec|
            && (forall i :: s.start <= i < s.end ==> !InZeros(rec, i))
            && (s.start == 0 || InZeros(rec, s.start - 1))
            && (s.end == |rec| || InZeros(rec, s.end))
  {
    var audio := Audio(rec);
    SpansAreTheRuns(audio, s);
    forall i | 0 <= i < |rec|
      ensures audio[i] <==> !InZeros(rec, i)
    {
      PaddingIsZeros(rec, i);
    }
  }

  // ---------------------------------------------------------------------------
  // Windows
  // ---------------------------------------------------------------------------

  /** `range(lo, hi, WINDOW)`. */
  function Steps(lo: int, hi: int): seq<int>
    decreases hi - lo
  {
    if lo >= hi then [] else [lo] + Steps(lo + WINDOW, hi)
  }

  function WindowsOf(s: Span): seq<int> {
    Steps(s.start + TRIM, s.end - TRIM - WINDOW + 1)
  }

  function Windows(spans: seq<Span>): seq<int> {
    if spans == [] then [] else WindowsOf(spans[0]) + Windows(spans[1..])
  }

  lemma {:induction false} StepsAt(lo: int, hi: int, k: nat)
    requires k < |Steps(lo, hi)|
    ensures Steps(lo, hi)[k] == lo + k * WINDOW && lo <= Steps(lo, hi)[k] < hi
    decreases k
  {
    if k > 0 {
      StepsAt(lo + WINDOW, hi, k - 1);
    }
  }

  lemma {:induction false} StepsCount(lo: int, hi: int)
    requires lo < hi
    ensures |Steps(lo, hi)| == (hi - lo - 1) / WINDOW + 1
    decreases hi - lo
  {
    if lo + WINDOW < hi {
      StepsCount(lo + WINDOW, hi);
      assert (hi - lo - 1) / WINDOW == (hi - (lo + WINDOW) - 1) / WINDOW + 1;
    } else {
      assert Steps(lo + WINDOW, hi) == [];
    }
  }

  /** The windows of a span lie in it, `TRIM` from either end, side by side, and there are
      as many of them as fit. */
  lemma WindowsInSpan(s: Span, k: nat)
    requires k < |WindowsOf(s)|
    ensures var at := WindowsOf(s)[k];
            && s.start + TRIM <= at && at + WINDOW <= s.end - TRIM
            && at == s.start + TRIM + k * WINDOW
  {
    StepsAt(s.start + TRIM, s.end - TRIM - WINDOW + 1, k);
  }

  lemma WindowCount(s: Span)
    ensures var room := s.end - s.start - 2 * TRIM;
            |WindowsOf(s)| == if room < WINDOW then 0 else room / WINDOW
  {
    var room := s.end - s.start - 2 * TRIM;
    if room >= WINDOW {
      StepsCount(s.start + TRIM, s.end - TRIM - WINDOW + 1);
      assert (room - WINDOW) / WINDOW + 1 == room / WINDOW;
    }
  }

  ghost predicate InOrder(spans: seq<Span>) {
    forall j, k :: 0 <= j < k < |spans| ==> spans[j].end <= spans[k].start
  }

  /** `at` is a window of span `j`. */
  ghost predicate From(spans: seq<Span>, j: int, at: int) {
    0 <= j < |spans| && spans[j].start + TRIM <= at && at + WINDOW <= spans[j].end - TRIM
  }

  lemma {:induction false} StepsExactly(lo: int, hi: int, at: int)
    ensures at in Steps(lo, hi) <==> lo <= at < hi && (at - lo) % WINDOW == 0
    decreases hi - lo
  {
    if lo < hi {
      StepsExactly(lo + WINDOW, hi, at);
      assert (at - lo) % WINDOW == (at - (lo + WINDOW)) % WINDOW;
    }
  }

  /** Every window of every span is measured, and nothing else: the starts at a whole number
      of windows behind the trimmed start of a span, as long as they fit before its trimmed
      end. */
  lemma {:induction false} WindowsExactly(spans: seq<Span>, at: int)
    ensures at in Windows(spans) <==>
            exists j :: Measured(spans, j, at)
  {
    if spans != [] {
      WindowsExactly(spans[1..], at);
      WindowsOfExactly(spans, at);
      MeasuredInRest(spans, at);
    }
  }

  /** `at` starts a window of span `j`. */
  ghost predicate Measured(spans: seq<Span>, j: int, at: int) {
    From(spans, j, at) && (at - spans[j].start - 48) % 480 == 0
  }

  lemma WindowsOfExactly(spans: seq<Span>, at: int)
    requires spans != []
    ensures at in WindowsOf(spans[0]) <==> Measured(spans, 0, at)
  {
    var s := spans[0];
    StepsExactly(s.start + TRIM, s.end - TRIM - WINDOW + 1, at);
  }

  lemma MeasuredInRest(spans: seq<Span>, at: int)
    requires spans != []
    ensures (exists j :: Measured(spans, j, at)) <==> Measured(spans, 0, at) || exists j :: Measured(spans[1..], j, at)
  {
    var rest := spans[1..];
    if j :| Measured(spans, j, at) && j > 0 {
      assert Measured(rest, j - 1, at);
    }
    if j :| Measured(rest, j, at) {
      assert Measured(spans, j + 1, at);
    }
  }

  /** Every window lies in one span, clear of its ends, */
  lemma {:induction false} WindowOrigin(spans: seq<Span>, k: nat) returns (j: nat)
    requires k < |Windows(spans)|
    ensures From(spans, j, Windows(spans)[k])
  {
    var here := WindowsOf(spans[0]);
    if k < |here| {
      WindowsInSpan(spans[0], k);
      j := 0;
    } else {
      j := WindowOrigin(spans[1..], k - |here|);
      j := j + 1;
    }
  }

  /** and windows never overlap. */
  lemma {:induction false} WindowsDisjoint(spans: seq<Span>, i: nat, k: nat)
    requires InOrder(spans) && i < k < |Windows(spans)|
    ensures Windows(spans)[i] + WINDOW <= Windows(spans)[k]
  {
    var here, rest := WindowsOf(spans[0]), spans[1..];
    var n := |here|;
    if k < n {
      WindowsInSpan(spans[0], i);
      WindowsInSpan(spans[0], k);
    } else if i >= n {
      assert Windows(spans)[i] == Windows(rest)[i - n] && Windows(spans)[k] == Windows(rest)[k - n];
      WindowsDisjoint(rest, i - n, k - n);
    } else {
      WindowsInSpan(spans[0], i);
      var j := WindowOrigin(rest, k - n);
      assert rest[j] == spans[j + 1];
    }
  }

  /** No measurement window of a recording contains `MIN_GAP` consecutive silent samples. */
  lemma WindowsHaveNoGap(rec: Recording, at: int, gap: int)
    requires at in Windows(Spans(Audio(rec)))
    requires at <= gap && gap + MIN_GAP <= at + WINDOW
    ensures 0 <= gap && gap + MIN_GAP <= |rec|
    ensures exists i :: gap <= i < gap + MIN_GAP && rec[i] != (0, 0)
  {
    var audio, silent := Audio(rec), Silent(rec);
    var spans := Spans(audio);
    var w :| 0 <= w < |Windows(spans)| && Windows(spans)[w] == at;
    var j := WindowOrigin(spans, w);
    SpanIsRun(audio, j);
    assert audio[gap] && !InLongRun(silent, gap);
    if forall i :: gap <= i < gap + MIN_GAP ==> rec[i] == (0, 0) {
      SilenceIsLongRun(silent, gap);
      assert false;
    }
  }

  lemma SilenceIsLongRun(silent: Mask, gap: int)
    requires 0 <= gap && gap + MIN_GAP <= |silent| && forall i :: gap <= i < gap + MIN_GAP ==> silent[i]
    ensures InLongRun(silent, gap)
  {
    var k := TrueIsSpanned(silent, gap);
    SpanIsRun(silent, k);
    var s := Spans(silent)[k];
    assert !Bit(silent, s.end);
    assert s.end >= gap + MIN_GAP;
  }

  /** The spans of any mask are in order, so its windows never overlap. */
  lemma MeasurementsDisjoint(mask: Mask, i: nat, k: nat)
    requires i < k < |Windows(Spans(mask))|
    ensures Windows(Spans(mask))[i] + WINDOW <= Windows(Spans(mask))[k]
  {
    SpansInOrder(mask);
    WindowsDisjoint(Spans(mask), i, k);
  }

  lemma SpansInOrder(mask: Mask)
    ensures InOrder(Spans(mask))
  {
    forall j, k | 0 <= j < k < |Spans(mask)|
      ensures Spans(mask)[j].end <= Spans(mask)[k].start
    {
      SpansSeparated(mask, j, k);
    }
  }
}
