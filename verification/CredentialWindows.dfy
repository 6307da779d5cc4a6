/**
 Which credential window covers an instant: the bundled table's arithmetic lookup of
 `crates/cast-replay/src/airserver.rs`, against the filter-then-latest-end scan of
 `crates/cast-replay/src/airserver_db.rs`, for any table of evenly stepped windows.
 */
module CredentialWindows {
  import opened Basics
  import opened Arithmetic

  const U32: int := 0x1_0000_0000

  /** A half-open validity window in Unix seconds. */
  datatype Window = Window(start: int, end: int)

  predicate Contains(w: Window, unix: int) {
    w.start <= unix < w.end
  }

  /** The table's four constants. */
  datatype Table = Table(epoch: int, step: int, validity: int, count: int)

  /** Windows of positive length, one step apart, without a gap between them, and as many
      as a 32-bit index can number. */
  predicate ValidTable(t: Table) {
    0 < t.step <= t.validity && 0 < t.count <= U32
  }

  const AIRSERVER := Table(1_710_892_800, 86_400, 172_800, 1095)

  // ---------------------------------------------------------------------------
  // The table's lookup
  // ---------------------------------------------------------------------------

  function WindowAt(t: Table, index: int): Option<Window> {
    if index >= t.count then None
    else
      var start := t.epoch + index * t.step;
      if start + t.validity <= start then None else Some(Window(start, start + t.validity))
  }

  function Horizon(t: Table): int {
    t.epoch + (t.count - 1) * t.step + t.validity
  }

  /** The index of the best window: the quotient, refused if it leaves 32 bits, clamped to
      the last window, and kept if that window contains the instant. */
  function IndexAt(t: Table, unix: int): Option<int>
    requires 0 < t.step
  {
    if unix < t.epoch then None
    else
      var raw := (unix - t.epoch) / t.step;
      if raw >= U32 then None
      else
        var index := if raw < t.count - 1 then raw else t.count - 1;
        match WindowAt(t, index)
        case Some(w) => if Contains(w, unix) then Some(index) else None
        case None => None
  }

  // ---------------------------------------------------------------------------
  // The specification: every window, by inspection
  // ---------------------------------------------------------------------------

  predicate Covers(t: Table, i: int, unix: int) {
    0 <= i < t.count && t.epoch + i * t.step <= unix < t.epoch + i * t.step + t.validity
  }

  ghost predicate IsGreatestCovering(t: Table, i: int, unix: int) {
    Covers(t, i, unix) && forall j :: Covers(t, j, unix) ==> j <= i
  }

  /** Before the horizon the clamped quotient is the greatest covering index. */
  lemma ClampedQuotient(t: Table, unix: int)
    requires ValidTable(t) && t.epoch <= unix < Horizon(t)
    ensures var raw := (unix - t.epoch) / t.step;
            IsGreatestCovering(t, if raw < t.count - 1 then raw else t.count - 1, unix)
  {
    var raw := (unix - t.epoch) / t.step;
    var i := if raw < t.count - 1 then raw else t.count - 1;
    assert raw * t.step <= unix - t.epoch < raw * t.step + t.step;
    MulMono(i, raw, t.step);
    forall j | Covers(t, j, unix)
      ensures j <= i
    {
      assert t.step * (j - raw) == j * t.step - raw * t.step;
      LessThanOneMultiple(t.step, j - raw);
    }
  }

  /** Outside them no window covers anything. */
  lemma NothingOutside(t: Table, unix: int, j: int)
    requires ValidTable(t) && Covers(t, j, unix)
    ensures t.epoch <= unix < Horizon(t)
  {
    MulMono(0, j, t.step);
    MulMono(j, t.count - 1, t.step);
  }

  /** What the lookup computes, for any table: the greatest index among all the windows that
      contain the instant, and nothing outside `[epoch, horizon)` or once the quotient
      leaves 32 bits. */
  lemma IndexAtIsGreatest(t: Table, unix: int)
    requires ValidTable(t)
    ensures var r := IndexAt(t, unix);
            && (r.Some? <==> t.epoch <= unix < Horizon(t) && (unix - t.epoch) / t.step < U32)
            && (r.Some? ==> IsGreatestCovering(t, r.value, unix))
  {
    if t.epoch <= unix {
      var raw := (unix - t.epoch) / t.step;
      var i := if raw < t.count - 1 then raw else t.count - 1;
      if unix < Horizon(t) {
        ClampedQuotient(t, unix);
      } else if Covers(t, i, unix) {
        NothingOutside(t, unix, i);
      }
    }
  }

  /** So it answers exactly on `[epoch, horizon)` if and only if the horizon is within
      2^32 steps of the epoch. */
  lemma AnswersUpToHorizon(t: Table)
    requires ValidTable(t)
    ensures (forall unix :: IndexAt(t, unix).Some? <==> t.epoch <= unix < Horizon(t))
            <==> Horizon(t) <= t.epoch + U32 * t.step
  {
    if Horizon(t) <= t.epoch + U32 * t.step {
      forall unix
        ensures IndexAt(t, unix).Some? <==> t.epoch <= unix < Horizon(t)
      {
        IndexAtIsGreatest(t, unix);
        if t.epoch <= unix < Horizon(t) {
          QuotientBelow(unix - t.epoch, t.step, U32);
        }
      }
    } else {
      var unix := t.epoch + U32 * t.step;
      IndexAtIsGreatest(t, unix);
      assert (unix - t.epoch) / t.step == U32 by {
        DivIs(U32 * t.step, t.step, U32);
      }
      MulMono(0, U32, t.step);
    }
  }

  /** The shipped table answers on all of its range. */
  lemma AirServerCovers(unix: int)
    ensures IndexAt(AIRSERVER, unix).Some? <==> 1_710_892_800 <= unix < 1_805_587_200
    ensures IndexAt(AIRSERVER, unix).Some? ==> IsGreatestCovering(AIRSERVER, IndexAt(AIRSERVER, unix).value, unix)
  {
    assert Horizon(AIRSERVER) == 1_805_587_200;
    AnswersUpToHorizon(AIRSERVER);
    IndexAtIsGreatest(AIRSERVER, unix);
  }

  // ---------------------------------------------------------------------------
  // The database's scan
  // ---------------------------------------------------------------------------

  /** `filter(contains).max_by_key(end)`: the last of the latest-ending covering windows. */
  function BestOf(ws: seq<Window>, unix: int): Option<Window> {
    if ws == [] then None
    else
      var last, init := ws[|ws| - 1], BestOf(ws[..|ws| - 1], unix);
      if !Contains(last, unix) then init
      else if init.Some? && init.value.end > last.end then init
      else Some(last)
  }

  /** `map(end).max().unwrap_or(0)`. */
  function CoversUntil(ws: seq<Window>): int {
    if ws == [] then 0
    else if |ws| == 1 then ws[0].end
    else
      var init, last := CoversUntil(ws[..|ws| - 1]), ws[|ws| - 1].end;
      if init > last then init else last
  }

  lemma {:induction false} BestOfIsLatest(ws: seq<Window>, unix: int)
    ensures var r := BestOf(ws, unix);
            && (r.Some? <==> exists i :: 0 <= i < |ws| && Contains(ws[i], unix))
            && (r.Some? ==>
                  && r.value in ws && Contains(r.value, unix)
                  && forall i :: 0 <= i < |ws| && Contains(ws[i], unix) ==> ws[i].end <= r.value.end)
  {
    if ws != [] {
      var n := |ws| - 1;
      BestOfIsLatest(ws[..n], unix);
      assert forall i :: 0 <= i < n ==> ws[..n][i] == ws[i];
    }
  }

  lemma {:induction false} CoversUntilIsMax(ws: seq<Window>)
    requires ws != []
    ensures (exists i :: 0 <= i < |ws| && ws[i].end == CoversUntil(ws))
    ensures forall i :: 0 <= i < |ws| ==> ws[i].end <= CoversUntil(ws)
  {
    var n := |ws| - 1;
    if n == 0 {
      assert ws[0].end == CoversUntil(ws);
    } else {
      CoversUntilIsMax(ws[..n]);
      assert forall i :: 0 <= i < n ==> ws[..n][i] == ws[i];
      var k :| 0 <= k < n && ws[..n][k].end == CoversUntil(ws[..n]);
      assert ws[k].end == CoversUntil(ws) || ws[n].end == CoversUntil(ws);
    }
  }

  function WindowOf(t: Table, i: int): Window {
    Window(t.epoch + i * t.step, t.epoch + i * t.step + t.validity)
  }

  /** `ws` holds the table's windows and no others, in any order and any number of times. */
  ghost predicate SameWindows(t: Table, ws: seq<Window>) {
    && (forall i :: 0 <= i < t.count ==> WindowOf(t, i) in ws)
    && (forall w :: w in ws ==> exists i :: 0 <= i < t.count && w == WindowOf(t, i))
  }

  /** Of two windows, the one with the greater index ends later. */
  lemma LaterEndsLater(t: Table, i: int, j: int)
    requires 0 < t.step
    ensures WindowOf(t, i).end <= WindowOf(t, j).end <==> i <= j
  {
    if i <= j {
      MulMono(i, j, t.step);
    } else {
      MulMono(j + 1, i, t.step);
      assert (j + 1) * t.step == j * t.step + t.step;
    }
  }

  /** A covering window of the list that ends latest is the one of greatest index. */
  lemma LatestIsGreatest(t: Table, ws: seq<Window>, unix: int, w: Window, index: int)
    requires ValidTable(t) && SameWindows(t, ws) && IsGreatestCovering(t, index, unix)
    requires w in ws && Contains(w, unix)
    requires forall i :: 0 <= i < |ws| && Contains(ws[i], unix) ==> ws[i].end <= w.end
    ensures w == WindowOf(t, index)
  {
    var i :| 0 <= i < t.count && w == WindowOf(t, i);
    assert Covers(t, i, unix);
    assert WindowOf(t, index) in ws;
    LaterEndsLater(t, index, i);
  }

  /** Over the same windows, however the database lists them, the scan picks the window the
      table's arithmetic points at, exactly where the quotient fits 32 bits or nothing is
      covered any more; and the horizons agree. */
  lemma ScanAgreesWithTable(t: Table, ws: seq<Window>, unix: int)
    requires ValidTable(t) && SameWindows(t, ws)
    ensures BestOf(ws, unix) == PickedBy(t, unix) <==> (unix - t.epoch) / t.step < U32 || Horizon(t) <= unix
    ensures CoversUntil(ws) == Horizon(t)
  {
    BestOfIsLatest(ws, unix);
    IndexAtIsGreatest(t, unix);
    HorizonsAgree(t, ws);
    var best, index := BestOf(ws, unix), IndexAt(t, unix);
    if index.Some? {
      CoveringIsListed(t, ws, unix, index.value);
      LatestIsGreatest(t, ws, unix, best.value, index.value);
    } else if t.epoch <= unix < Horizon(t) {
      ClampedQuotient(t, unix);
      var raw := (unix - t.epoch) / t.step;
      CoveringIsListed(t, ws, unix, if raw < t.count - 1 then raw else t.count - 1);
    } else {
      if best.Some? {
        var i :| 0 <= i < t.count && best.value == WindowOf(t, i);
        NothingOutside(t, unix, i);
      }
      if unix < t.epoch {
        NegativeQuotient(unix - t.epoch, t.step);
      }
    }
  }

  lemma CoveringIsListed(t: Table, ws: seq<Window>, unix: int, i: int)
    requires SameWindows(t, ws) && Covers(t, i, unix)
    ensures exists k :: 0 <= k < |ws| && Contains(ws[k], unix)
  {
    assert WindowOf(t, i) in ws && Contains(WindowOf(t, i), unix);
  }

  lemma NegativeQuotient(x: int, s: int)
    requires x < 0 < s
    ensures x / s < 0
  {
  }

  function PickedBy(t: Table, unix: int): Option<Window>
    requires 0 < t.step
  {
    match IndexAt(t, unix)
    case None => None
    case Some(i) => WindowAt(t, i)
  }

  lemma HorizonsAgree(t: Table, ws: seq<Window>)
    requires ValidTable(t) && SameWindows(t, ws)
    ensures CoversUntil(ws) == Horizon(t)
  {
    assert WindowOf(t, t.count - 1) in ws;
    CoversUntilIsMax(ws);
    var k :| 0 <= k < |ws| && ws[k].end == CoversUntil(ws);
    assert ws[k] in ws;
    var i :| 0 <= i < t.count && ws[k] == WindowOf(t, i);
    MulMono(i, t.count - 1, t.step);
    var m :| 0 <= m < |ws| && ws[m] == WindowOf(t, t.count - 1);
  }

  // ---------------------------------------------------------------------------
  // The slices
  // ---------------------------------------------------------------------------

  /** Rows of one length, one after the other. */
  function Flat<T>(rows: seq<seq<T>>): seq<T> {
    if rows == [] then [] else rows[0] + Flat(rows[1..])
  }

  ghost predicate AllOfLength<T>(rows: seq<seq<T>>, stride: nat) {
    forall i :: 0 <= i < |rows| ==> |rows[i]| == stride
  }

  /** What the table slices out for row `i`. */
  function Row<T>(blob: seq<T>, stride: nat, i: nat): seq<T>
    requires i * stride + stride <= |blob|
  {
    blob[i * stride..i * stride + stride]
  }

  lemma {:induction false} FlatLength<T>(rows: seq<seq<T>>, stride: nat)
    requires AllOfLength(rows, stride)
    ensures |Flat(rows)| == |rows| * stride
  {
    if rows != [] {
      FlatLength(rows[1..], stride);
      assert |rows| * stride == stride + (|rows| - 1) * stride;
    }
  }

  lemma RowInBounds(count: nat, stride: nat, i: nat)
    requires i < count
    ensures i * stride + stride <= count * stride
  {
    MulMono(i + 1, count, stride);
    assert (i + 1) * stride == i * stride + stride;
  }

  /** Every slice is in bounds and is the very row that was written there. */
  lemma {:induction false} RowsRecovered<T>(rows: seq<seq<T>>, stride: nat, i: nat)
    requires AllOfLength(rows, stride) && i < |rows|
    ensures i * stride + stride <= |Flat(rows)| && Row(Flat(rows), stride, i) == rows[i]
    decreases i
  {
    FlatLength(rows, stride);
    RowInBounds(|rows|, stride, i);
    var first, rest := rows[0], Flat(rows[1..]);
    if i > 0 {
      RowsRecovered(rows[1..], stride, i - 1);
      assert i * stride == (i - 1) * stride + stride;
      RowShift(first, rest, (i - 1) * stride, stride);
    } else {
      assert (first + rest)[..stride] == first;
    }
  }

  lemma RowShift<T>(first: seq<T>, rest: seq<T>, at: nat, stride: nat)
    requires |first| == stride && at + stride <= |rest|
    ensures (first + rest)[at + stride..at + stride + stride] == rest[at..at + stride]
  {
  }

  /** And a blob of the length the table insists on is nothing but its rows. */
  lemma {:induction false} RowsPartitionBlob<T>(blob: seq<T>, count: nat, stride: nat) returns (rows: seq<seq<T>>)
    requires |blob| == count * stride
    ensures |rows| == count && AllOfLength(rows, stride) && Flat(rows) == blob
    decreases count
  {
    if count == 0 {
      rows := [];
    } else {
      assert count * stride == stride + (count - 1) * stride;
      var rest := RowsPartitionBlob(blob[stride..], count - 1, stride);
      rows := [blob[..stride]] + rest;
      assert rows[1..] == rest && blob == blob[..stride] + blob[stride..];
    }
  }

  /** Whenever a credential is found, its parts are those of the latest window that covers
      the instant. */
  lemma CredentialIsTheWindows<T>(t: Table, rows: seq<seq<T>>, stride: nat, unix: int)
    requires ValidTable(t) && |rows| == t.count && AllOfLength(rows, stride) && IndexAt(t, unix).Some?
    ensures var i := IndexAt(t, unix).value;
            && IsGreatestCovering(t, i, unix)
            && i * stride + stride <= |Flat(rows)| && Row(Flat(rows), stride, i) == rows[i]
  {
    IndexAtIsGreatest(t, unix);
    RowsRecovered(rows, stride, IndexAt(t, unix).value);
  }
}
