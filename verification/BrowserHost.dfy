/**
 The browser host of `browser-host/main.js` as a state machine over its events: textures
 painted by a window are lent to the receiver under a per-window budget and come back by
 id, commands arrive on a control stream cut anywhere, and the host shuts down by
 returning what is still lent.
 */
module BrowserHost {
  import opened Basics
  import opened Text

  const MAX_INFLIGHT := 4

  type Texture = nat
  type Window = nat

  datatype Lent = Lent(texture: Texture, win: Window)

  datatype Paint = NoTexture | Unusable(texture: Texture) | Usable(texture: Texture)

  /** A command, as far as the texture bookkeeping can tell them apart. */
  datatype Command = Release(id: int) | Quit | Other(kind: nat)

  /** The texture bookkeeping. `lent` is each window's `__lent`; `released` counts the
      calls made to `texture.release()`. */
  datatype Lender = Lender(
    inflight: map<int, Lent>,
    paintSeq: nat,
    drops: nat,
    lent: map<Window, int>,
    destroyed: set<Window>,
    released: multiset<Texture>,
    shuttingDown: bool)

  /** The whole host. `handled` records the calls made to `handle()`, and `buffered` is the
      unfinished line of the control stream. */
  datatype Host = Host(lender: Lender, appReady: bool, queued: seq<Command>, handled: seq<Command>, buffered: string)

  const START := Host(Lender(map[], 0, 0, map[], {}, multiset{}, false), false, [], [], "")

  type Parser = string -> Option<Command>

  // ---------------------------------------------------------------------------
  // The handlers
  // ---------------------------------------------------------------------------

  function OnPaint(l: Lender, w: Window, p: Paint): Lender
    requires w in l.lent
  {
    match p
    case NoTexture => l
    case Unusable(t) => l.(released := l.released + multiset{t})
    case Usable(t) =>
      if l.lent[w] >= MAX_INFLIGHT then l.(drops := l.drops + 1, released := l.released + multiset{t})
      else
        var id := l.paintSeq + 1;
        l.(paintSeq := id, lent := l.lent[w := l.lent[w] + 1], inflight := l.inflight[id := Lent(t, w)])
  }

  function OnRelease(l: Lender, id: int): Lender {
    if id !in l.inflight then l
    else
      var Lent(t, w) := l.inflight[id];
      l.(inflight := l.inflight - {id},
         released := l.released + multiset{t},
         lent := if w in l.lent && w !in l.destroyed then l.lent[w := l.lent[w] - 1] else l.lent)
  }

  /** The textures lent under ids `1..n`. */
  function LentUpTo(m: map<int, Lent>, n: nat): multiset<Texture> {
    if n == 0 then multiset{}
    else if n in m then LentUpTo(m, n - 1) + multiset{m[n].texture}
    else LentUpTo(m, n - 1)
  }

  function OnShutdown(l: Lender): Lender {
    if l.shuttingDown then l
    else l.(shuttingDown := true, released := l.released + LentUpTo(l.inflight, l.paintSeq), inflight := map[])
  }

  /** What a command does to the textures. */
  function Obey(l: Lender, c: Command): Lender {
    match c
    case Release(id) => OnRelease(l, id)
    case Quit => OnShutdown(l)
    case Other(_) => l
  }

  function ObeyAll(l: Lender, cs: seq<Command>): Lender
    decreases |cs|
  {
    if cs == [] then l else ObeyAll(Obey(l, cs[0]), cs[1..])
  }

  function Handle(h: Host, c: Command): Host {
    h.(lender := Obey(h.lender, c), handled := h.handled + [c])
  }

  function HandleAll(h: Host, cs: seq<Command>): Host {
    h.(lender := ObeyAll(h.lender, cs), handled := h.handled + cs)
  }

  function OnReady(h: Host): Host {
    HandleAll(h.(appReady := true, queued := []), h.queued)
  }

  /** What one line of the control stream asks for, if anything. */
  function CommandOf(parse: Parser, line: string): seq<Command> {
    var text := Trim(JsSpace, line);
    if text == "" then []
    else match parse(text)
      case None => []
      case Some(c) => [c]
  }

  function Commands(parse: Parser, lines: seq<string>): seq<Command> {
    if lines == [] then [] else CommandOf(parse, lines[0]) + Commands(parse, lines[1..])
  }

  /** Commands are handled once the app is ready, and parked until then. */
  function Accept(h: Host, cs: seq<Command>): Host {
    if h.appReady then HandleAll(h, cs) else h.(queued := h.queued + cs)
  }

  /** Take every complete line out of the buffer. */
  function Drain(parse: Parser, h: Host): Host {
    Accept(h, Commands(parse, CompleteLines(h.buffered))).(buffered := Remainder(h.buffered))
  }

  function OnData(parse: Parser, h: Host, chunk: string): Host {
    Drain(parse, h.(buffered := h.buffered + chunk))
  }

  // ---------------------------------------------------------------------------
  // Lines
  // ---------------------------------------------------------------------------

  /** The complete lines of a text: every piece but the one after the last newline. */
  function CompleteLines(s: string): seq<string> {
    var pieces := Split(s, '\n');
    pieces[..|pieces| - 1]
  }

  function Remainder(s: string): string {
    var pieces := Split(s, '\n');
    pieces[|pieces| - 1]
  }

  lemma LineFirst(line: string, rest: string)
    requires '\n' !in line
    ensures var s := line + ['\n'] + rest;
            CompleteLines(s) == [line] + CompleteLines(rest) && Remainder(s) == Remainder(rest)
  {
    SplitFirst(line, rest, '\n');
    var pieces := Split(rest, '\n');
    assert ([line] + pieces)[..|pieces|] == [line] + pieces[..|pieces| - 1];
  }

  lemma CutLine(a: string, i: nat, b: string)
    requires i < |a| && a[i] == '\n'
    ensures a == a[..i] + ['\n'] + a[i + 1..] && a + b == a[..i] + ['\n'] + (a[i + 1..] + b)
  {
  }

  lemma LineBefore(line: string, a: seq<string>, b: seq<string>)
    ensures [line] + (a + b) == [line] + a + b
  {
  }

  lemma NoLine(s: string)
    requires '\n' !in s
    ensures CompleteLines(s) == [] && Remainder(s) == s
  {
    assert Split(s, '\n') == [s];
  }

  /** Cutting a stream anywhere and carrying the remainder over finds the same lines. */
  lemma {:induction false} LinesOfConcatenation(a: string, b: string)
    ensures CompleteLines(a + b) == CompleteLines(a) + CompleteLines(Remainder(a) + b)
    ensures Remainder(a + b) == Remainder(Remainder(a) + b)
    decreases |a|
  {
    if '\n' in a {
      var i := IndexOf(a, '\n');
      var line, rest := a[..i], a[i + 1..];
      LinesOfConcatenation(rest, b);
      CutLine(a, i, b);
      LineFirst(line, rest);
      LineFirst(line, rest + b);
      LineBefore(line, CompleteLines(rest), CompleteLines(Remainder(rest) + b));
    } else {
      NoLine(a);
    }
  }

  lemma {:induction false} CommandsOfConcatenation(parse: Parser, a: seq<string>, b: seq<string>)
    ensures Commands(parse, a + b) == Commands(parse, a) + Commands(parse, b)
  {
    if a == [] {
      assert a + b == b;
    } else {
      assert (a + b)[1..] == a[1..] + b;
      CommandsOfConcatenation(parse, a[1..], b);
    }
  }

  // ---------------------------------------------------------------------------
  // Runs
  // ---------------------------------------------------------------------------

  datatype Event =
    | Opened(created: Window)
    | Destroyed(gone: Window)
    | Painted(win: Window, paint: Paint)
    | Data(chunk: string)
    | Ready
    | WireClosed

  /** Window objects are new when opened, and only existing ones paint or go away. */
  predicate Possible(h: Host, e: Event) {
    match e
    case Opened(w) => w !in h.lender.lent
    case Destroyed(w) => w in h.lender.lent
    case Painted(w, _) => w in h.lender.lent
    case _ => true
  }

  function Step(parse: Parser, h: Host, e: Event): Host
    requires Possible(h, e)
  {
    var l := h.lender;
    match e
    case Opened(w) => h.(lender := l.(lent := l.lent[w := 0]))
    case Destroyed(w) => h.(lender := l.(destroyed := l.destroyed + {w}))
    case Painted(w, p) => h.(lender := OnPaint(l, w, p))
    case Data(chunk) => OnData(parse, h, chunk)
    case Ready => OnReady(h)
    case WireClosed => h.(lender := OnShutdown(l))
  }

  /** `h` is the host after the events `es`, from start-up. */
  ghost predicate Reaches(parse: Parser, es: seq<Event>, h: Host)
    decreases |es|
  {
    if es == [] then h == START
    else
      var init, e := es[..|es| - 1], es[|es| - 1];
      exists before: Host :: Reaches(parse, init, before) && Possible(before, e) && h == Step(parse, before, e)
  }

  // What a run has seen, read off its events alone.

  ghost function TexturesPainted(es: seq<Event>): multiset<Texture> {
    if es == [] then multiset{} else TexturesPainted(es[..|es| - 1]) + PaintedBy(es[|es| - 1])
  }

  ghost function PaintedBy(e: Event): multiset<Texture> {
    if e.Painted? && !e.paint.NoTexture? then multiset{e.paint.texture} else multiset{}
  }

  ghost function UsablePaints(es: seq<Event>): nat {
    if es == [] then 0
    else
      var e := es[|es| - 1];
      UsablePaints(es[..|es| - 1]) + (if e.Painted? && e.paint.Usable? then 1 else 0)
  }

  ghost function Stream(es: seq<Event>): string {
    if es == [] then ""
    else
      var e := es[|es| - 1];
      Stream(es[..|es| - 1]) + (if e.Data? then e.chunk else "")
  }

  ghost predicate BecameReady(es: seq<Event>) {
    es != [] && (es[|es| - 1].Ready? || BecameReady(es[..|es| - 1]))
  }

  // ---------------------------------------------------------------------------
  // Textures
  // ---------------------------------------------------------------------------

  /** How many of the ids `1..n` are lent to `w`. */
  ghost function LentTo(m: map<int, Lent>, w: Window, n: nat): nat {
    if n == 0 then 0 else LentTo(m, w, n - 1) + (if n in m && m[n].win == w then 1 else 0)
  }

  /** Ids are the sequence numbers of paints, and every window's count covers its lent
      textures, exactly so while the window lives and the host is not shutting down. */
  ghost predicate Balanced(l: Lender) {
    && (forall id :: id in l.inflight ==> 1 <= id <= l.paintSeq && l.inflight[id].win in l.lent)
    && (forall w :: w in l.lent ==> BudgetKept(l, w))
  }

  ghost predicate BudgetKept(l: Lender, w: Window)
    requires w in l.lent
  {
    var out := LentTo(l.inflight, w, l.paintSeq);
    && out <= l.lent[w] <= MAX_INFLIGHT
    && (!l.shuttingDown && w !in l.destroyed ==> l.lent[w] == out)
  }

  /** Every texture the host was ever given, by where it is now. */
  ghost function Held(l: Lender): multiset<Texture> {
    LentUpTo(l.inflight, l.paintSeq) + l.released
  }

  lemma {:induction false} SameBelow(m: map<int, Lent>, m': map<int, Lent>, w: Window, n: nat)
    requires forall id :: 1 <= id <= n ==> (id in m <==> id in m') && (id in m ==> m[id] == m'[id])
    ensures LentUpTo(m, n) == LentUpTo(m', n)
    ensures LentTo(m, w, n) == LentTo(m', w, n)
  {
    if n > 0 {
      SameBelow(m, m', w, n - 1);
    }
  }

  lemma {:induction false} WithoutOne(m: map<int, Lent>, id: int, w: Window, n: nat)
    requires id in m && 1 <= id <= n
    ensures LentUpTo(m, n) == LentUpTo(m - {id}, n) + multiset{m[id].texture}
    ensures LentTo(m, w, n) == LentTo(m - {id}, w, n) + (if m[id].win == w then 1 else 0)
  {
    if n == id {
      SameBelow(m, m - {id}, w, n - 1);
    } else {
      WithoutOne(m, id, w, n - 1);
    }
  }

  lemma {:induction false} NothingLentTo(m: map<int, Lent>, w: Window, n: nat)
    requires forall id :: id in m ==> m[id].win != w
    ensures LentTo(m, w, n) == 0
    ensures m == map[] ==> LentUpTo(m, n) == multiset{}
  {
    if n > 0 {
      NothingLentTo(m, w, n - 1);
    }
  }

  lemma PaintBalance(l: Lender, w: Window, p: Paint)
    requires Balanced(l) && w in l.lent
    ensures Balanced(OnPaint(l, w, p))
    ensures Held(OnPaint(l, w, p)) == Held(l) + PaintedBy(Painted(w, p))
  {
    var l' := OnPaint(l, w, p);
    if p.Usable? && l.lent[w] < MAX_INFLIGHT {
      SameBelow(l.inflight, l'.inflight, w, l.paintSeq);
    }
    forall v | v in l'.lent
      ensures BudgetKept(l', v)
    {
      assert BudgetKept(l, v);
      if p.Usable? && l.lent[w] < MAX_INFLIGHT {
        SameBelow(l.inflight, l'.inflight, v, l.paintSeq);
      }
    }
  }

  lemma ReleaseBalance(l: Lender, id: int)
    requires Balanced(l)
    ensures Balanced(OnRelease(l, id)) && Held(OnRelease(l, id)) == Held(l)
  {
    if id in l.inflight {
      var l' := OnRelease(l, id);
      WithoutOne(l.inflight, id, 0, l.paintSeq);
      forall v | v in l'.lent
        ensures BudgetKept(l', v)
      {
        assert BudgetKept(l, v);
        WithoutOne(l.inflight, id, v, l.paintSeq);
      }
    }
  }

  lemma ShutdownBalance(l: Lender)
    requires Balanced(l)
    ensures Balanced(OnShutdown(l)) && Held(OnShutdown(l)) == Held(l)
  {
    var l' := OnShutdown(l);
    NothingLentTo(map[], 0, l.paintSeq);
    if !l.shuttingDown {
      forall v | v in l'.lent
        ensures BudgetKept(l', v)
      {
        assert BudgetKept(l, v);
        NothingLentTo(l'.inflight, v, l.paintSeq);
      }
    }
  }

  lemma {:induction false} ObeyAllBalance(l: Lender, cs: seq<Command>)
    requires Balanced(l)
    ensures var l' := ObeyAll(l, cs);
            Balanced(l') && Held(l') == Held(l) && l'.paintSeq == l.paintSeq && l'.drops == l.drops
    decreases |cs|
  {
    if cs != [] {
      if cs[0].Release? {
        ReleaseBalance(l, cs[0].id);
      } else {
        ShutdownBalance(l);
      }
      ObeyAllBalance(Obey(l, cs[0]), cs[1..]);
    }
  }

  lemma LenderStep(parse: Parser, h: Host, e: Event)
    requires Possible(h, e) && Balanced(h.lender)
    ensures var l, l' := h.lender, Step(parse, h, e).lender;
            && Balanced(l') && Held(l') == Held(l) + PaintedBy(e)
            && l'.paintSeq + l'.drops == l.paintSeq + l.drops + (if e.Painted? && e.paint.Usable? then 1 else 0)
  {
    var l := h.lender;
    match e
    case Opened(w) =>
      NothingLentTo(l.inflight, w, l.paintSeq);
      var l' := l.(lent := l.lent[w := 0]);
      forall v | v in l'.lent
        ensures BudgetKept(l', v)
      {
        assert v != w ==> BudgetKept(l, v);
      }
    case Destroyed(w) =>
      var l' := l.(destroyed := l.destroyed + {w});
      forall v | v in l'.lent
        ensures BudgetKept(l', v)
      {
        assert BudgetKept(l, v);
      }
    case Painted(w, p) =>
      PaintBalance(l, w, p);
    case Data(chunk) =>
      ObeyAllBalance(l, Commands(parse, CompleteLines(h.buffered + chunk)));
    case Ready =>
      ObeyAllBalance(l, h.queued);
    case WireClosed =>
      ShutdownBalance(l);
  }

  // ---------------------------------------------------------------------------
  // Commands
  // ---------------------------------------------------------------------------

  /** The host has handled, then parked, exactly the commands of the stream so far. */
  ghost predicate InStep(parse: Parser, h: Host, stream: string) {
    && h.buffered == Remainder(stream)
    && h.handled + h.queued == Commands(parse, CompleteLines(stream))
    && (h.appReady ==> h.queued == [])
  }

  lemma AcceptKeepsOrder(h: Host, cs: seq<Command>)
    requires h.appReady ==> h.queued == []
    ensures var h' := Accept(h, cs);
            && h'.handled + h'.queued == h.handled + h.queued + cs
            && h'.appReady == h.appReady && (h'.appReady ==> h'.queued == [])
  {
    assert h.handled + (h.queued + cs) == h.handled + h.queued + cs;
    assert (h.handled + cs) + [] == (h.handled + []) + cs;
  }

  lemma DataInStep(parse: Parser, h: Host, stream: string, chunk: string)
    requires InStep(parse, h, stream)
    ensures InStep(parse, OnData(parse, h, chunk), stream + chunk)
  {
    var old', more := CompleteLines(stream), CompleteLines(h.buffered + chunk);
    LinesOfConcatenation(stream, chunk);
    assert CompleteLines(stream + chunk) == old' + more;
    CommandsOfConcatenation(parse, old', more);
    AcceptKeepsOrder(h, Commands(parse, more));
  }

  lemma CommandStep(parse: Parser, h: Host, e: Event, stream: string)
    requires Possible(h, e) && InStep(parse, h, stream)
    ensures InStep(parse, Step(parse, h, e), stream + (if e.Data? then e.chunk else ""))
    ensures Step(parse, h, e).appReady == (h.appReady || e.Ready?)
  {
    assert stream + "" == stream;
    if e.Data? {
      DataInStep(parse, h, stream, e.chunk);
    }
  }

  // ---------------------------------------------------------------------------
  // Main results: every run
  // ---------------------------------------------------------------------------

  /** In every run the textures ever painted are exactly those still lent and those
      released, with multiplicity; usable paints are the lent ones and the dropped ones; and
      every window's count is the number of its textures, never above the budget. */
  lemma {:induction false} TexturesConserved(parse: Parser, es: seq<Event>, h: Host)
    requires Reaches(parse, es, h)
    ensures Balanced(h.lender)
    ensures LentUpTo(h.lender.inflight, h.lender.paintSeq) + h.lender.released == TexturesPainted(es)
    ensures UsablePaints(es) == h.lender.paintSeq + h.lender.drops
    decreases |es|
  {
    if es != [] {
      var init, e := es[..|es| - 1], es[|es| - 1];
      var before: Host :| Reaches(parse, init, before) && Possible(before, e) && h == Step(parse, before, e);
      TexturesConserved(parse, init, before);
      LenderStep(parse, before, e);
    }
  }

  /** A texture painted once is either still lent, and not yet released, or has been
      released exactly once; after a shutdown with nothing painted since, it has been. */
  lemma ReleasedExactlyOnce(parse: Parser, es: seq<Event>, h: Host, t: Texture)
    requires Reaches(parse, es, h) && TexturesPainted(es)[t] == 1
    ensures var lent := LentUpTo(h.lender.inflight, h.lender.paintSeq)[t];
            var released := h.lender.released[t];
            (lent == 1 && released == 0) || (lent == 0 && released == 1)
    ensures h.lender.inflight == map[] ==> h.lender.released[t] == 1
  {
    TexturesConserved(parse, es, h);
    NothingLentTo(map[], 0, h.lender.paintSeq);
    var lent := LentUpTo(h.lender.inflight, h.lender.paintSeq);
    assert (lent + h.lender.released)[t] == lent[t] + h.lender.released[t];
  }

  lemma {:induction false} ObeyAllShutsDown(l: Lender, cs: seq<Command>)
    ensures ObeyAll(l, cs).shuttingDown <==> l.shuttingDown || Quit in cs
    decreases |cs|
  {
    if cs != [] {
      ObeyAllShutsDown(Obey(l, cs[0]), cs[1..]);
    }
  }

  lemma ShutsDownStep(parse: Parser, h: Host, e: Event) returns (cs: seq<Command>)
    requires Possible(h, e)
    ensures var g := Step(parse, h, e);
            && g.handled == h.handled + cs
            && (g.lender.shuttingDown <==> h.lender.shuttingDown || e == WireClosed || Quit in cs)
  {
    cs := [];
    match e
    case Data(chunk) =>
      var more := Commands(parse, CompleteLines(h.buffered + chunk));
      ObeyAllShutsDown(h.lender, more);
      if h.appReady {
        cs := more;
      }
    case Ready =>
      ObeyAllShutsDown(h.lender, h.queued);
      cs := h.queued;
    case _ =>
  }

  lemma EndsWithEvent(es: seq<Event>, e: Event)
    requires es != [] && es[|es| - 1] == e
    ensures WireClosed in es <==> WireClosed in es[..|es| - 1] || e == WireClosed
  {
    assert es == es[..|es| - 1] + [e];
  }

  /** In every run, the host is shutting down if and only if the wire has closed or a quit
      has been handled. */
  lemma {:induction false} ShuttingDownExactly(parse: Parser, es: seq<Event>, h: Host)
    requires Reaches(parse, es, h)
    ensures h.lender.shuttingDown <==> WireClosed in es || Quit in h.handled
    decreases |es|
  {
    if es != [] {
      var init, e := es[..|es| - 1], es[|es| - 1];
      var before: Host :| Reaches(parse, init, before) && Possible(before, e) && h == Step(parse, before, e);
      ShuttingDownExactly(parse, init, before);
      var cs := ShutsDownStep(parse, before, e);
      EndsWithEvent(es, e);
    }
  }

  /** The first shutdown returns everything: whatever was painted before it has then been
      released, exactly as often as it was painted. A second one releases nothing. */
  lemma ShutdownReturnsEverything(parse: Parser, es: seq<Event>, h: Host)
    requires Reaches(parse, es, h)
    ensures var l := Step(parse, h, WireClosed).lender;
            if h.lender.shuttingDown then l == h.lender
            else l.inflight == map[] && l.released == TexturesPainted(es)
  {
    TexturesConserved(parse, es, h);
  }

  // ---------------------------------------------------------------------------
  // What is in flight
  // ---------------------------------------------------------------------------

  /** A run with the states it goes through. */
  ghost predicate Trace(parse: Parser, es: seq<Event>, hs: seq<Host>) {
    && |hs| == |es| + 1 && hs[0] == START
    && forall i :: 0 <= i < |es| ==> Possible(hs[i], es[i]) && hs[i + 1] == Step(parse, hs[i], es[i])
  }

  lemma {:induction false} TraceReaches(parse: Parser, es: seq<Event>, hs: seq<Host>, n: nat)
    requires Trace(parse, es, hs) && n <= |es|
    ensures Reaches(parse, es[..n], hs[n])
  {
    if n > 0 {
      TraceReaches(parse, es, hs, n - 1);
      assert es[..n][..n - 1] == es[..n - 1];
    }
  }

  /** Every run has one. */
  lemma {:induction false} ReachesHasTrace(parse: Parser, es: seq<Event>, h: Host) returns (hs: seq<Host>)
    requires Reaches(parse, es, h)
    ensures Trace(parse, es, hs) && hs[|es|] == h
    decreases |es|
  {
    if es == [] {
      hs := [h];
    } else {
      var init, e := es[..|es| - 1], es[|es| - 1];
      var before: Host :| Reaches(parse, init, before) && Possible(before, e) && h == Step(parse, before, e);
      hs := ReachesHasTrace(parse, init, before);
      hs := hs + [h];
    }
  }

  /** `id` was lent by event `i`. */
  ghost predicate LentBy(hs: seq<Host>, i: nat, id: int)
    requires i + 1 < |hs|
  {
    hs[i].lender.paintSeq < id <= hs[i + 1].lender.paintSeq
  }

  /** No release of `id` was handled between two states, and no shutdown began. */
  ghost predicate Undisturbed(h: Host, g: Host, id: int) {
    && h.handled <= g.handled && Release(id) !in g.handled[|h.handled|..]
    && h.lender.shuttingDown == g.lender.shuttingDown
  }

  /** Commands take an id out of flight by releasing it, or by starting the shutdown. */
  lemma {:induction false} ObeyAllInFlight(l: Lender, cs: seq<Command>, id: int)
    ensures var l' := ObeyAll(l, cs);
            && (id in l'.inflight <==> id in l.inflight && Release(id) !in cs && l'.shuttingDown == l.shuttingDown)
            && (l.shuttingDown ==> l'.shuttingDown) && l'.paintSeq == l.paintSeq
    decreases |cs|
  {
    if cs != [] {
      ObeyAllInFlight(Obey(l, cs[0]), cs[1..], id);
      assert cs == [cs[0]] + cs[1..];
    }
  }

  lemma HandledTail(h: Host, cs: seq<Command>)
    ensures h.handled <= HandleAll(h, cs).handled && HandleAll(h, cs).handled[|h.handled|..] == cs
  {
  }

  /** From one state to the next: an id that is lent is then in flight; another stays in
      flight exactly if it is undisturbed. */
  ghost predicate OneStep(h: Host, g: Host, id: int) {
    && h.handled <= g.handled && (h.lender.shuttingDown ==> g.lender.shuttingDown)
    && h.lender.paintSeq <= g.lender.paintSeq
    && (if h.lender.paintSeq < id <= g.lender.paintSeq then
          id in g.lender.inflight && g.handled == h.handled && g.lender.shuttingDown == h.lender.shuttingDown
        else
          id in g.lender.inflight <==> id in h.lender.inflight && Undisturbed(h, g, id))
  }

  ghost predicate Steps(hs: seq<Host>, id: int) {
    forall i :: 0 <= i < |hs| - 1 ==> OneStep(hs[i], hs[i + 1], id)
  }

  lemma StepInFlight(parse: Parser, h: Host, e: Event, id: int)
    requires Possible(h, e) && Balanced(h.lender)
    ensures OneStep(h, Step(parse, h, e), id)
  {
    match e
    case Data(chunk) =>
      var cs := Commands(parse, CompleteLines(h.buffered + chunk));
      HandledTail(h.(buffered := h.buffered + chunk), cs);
      ObeyAllInFlight(h.lender, cs, id);
    case Ready =>
      HandledTail(h.(appReady := true, queued := []), h.queued);
      ObeyAllInFlight(h.lender, h.queued, id);
    case _ =>
  }

  lemma TraceSteps(parse: Parser, es: seq<Event>, hs: seq<Host>, id: int)
    requires Trace(parse, es, hs)
    ensures Steps(hs, id) && id !in hs[0].lender.inflight
  {
    forall i | 0 <= i < |hs| - 1
      ensures OneStep(hs[i], hs[i + 1], id)
    {
      TraceReaches(parse, es, hs, i);
      TexturesConserved(parse, es[..i], hs[i]);
      StepInFlight(parse, hs[i], es[i], id);
    }
  }

  lemma UndisturbedChain(a: Host, b: Host, c: Host, id: int)
    requires a.handled <= b.handled <= c.handled
    requires (a.lender.shuttingDown ==> b.lender.shuttingDown) && (b.lender.shuttingDown ==> c.lender.shuttingDown)
    ensures Undisturbed(a, c, id) <==> Undisturbed(a, b, id) && Undisturbed(b, c, id)
  {
    assert c.handled[|a.handled|..] == b.handled[|a.handled|..] + c.handled[|b.handled|..];
  }

  lemma {:induction false} StepsGrow(hs: seq<Host>, id: int, i: nat, n: nat)
    requires Steps(hs, id) && i <= n < |hs|
    ensures hs[i].handled <= hs[n].handled && (hs[i].lender.shuttingDown ==> hs[n].lender.shuttingDown)
    decreases n - i
  {
    if i < n {
      StepsGrow(hs, id, i, n - 1);
      assert OneStep(hs[n - 1], hs[n - 1 + 1], id);
    }
  }

  /** Lent by an event of the first `n`, and undisturbed from then to state `n`. */
  ghost predicate Outstanding(hs: seq<Host>, n: nat, id: int)
    requires n < |hs|
  {
    exists i: nat :: i < n && LentBy(hs, i, id) && Undisturbed(hs[i + 1], hs[n], id)
  }

  lemma OutstandingStep(hs: seq<Host>, n: nat, id: int)
    requires Steps(hs, id) && 0 < n < |hs|
    ensures Outstanding(hs, n, id) <==> LentBy(hs, n - 1, id) || (Outstanding(hs, n - 1, id) && Undisturbed(hs[n - 1], hs[n], id))
  {
    assert Undisturbed(hs[n], hs[n], id);
    if Outstanding(hs, n, id) {
      var i: nat :| i < n && LentBy(hs, i, id) && Undisturbed(hs[i + 1], hs[n], id);
      if i < n - 1 {
        ChainAt(hs, id, i + 1, n);
      }
    }
    if Outstanding(hs, n - 1, id) && Undisturbed(hs[n - 1], hs[n], id) {
      var i: nat :| i < n - 1 && LentBy(hs, i, id) && Undisturbed(hs[i + 1], hs[n - 1], id);
      ChainAt(hs, id, i + 1, n);
    }
  }

  lemma ChainAt(hs: seq<Host>, id: int, i: nat, n: nat)
    requires Steps(hs, id) && i < n < |hs|
    ensures Undisturbed(hs[i], hs[n], id) <==> Undisturbed(hs[i], hs[n - 1], id) && Undisturbed(hs[n - 1], hs[n], id)
  {
    StepsGrow(hs, id, i, n - 1);
    StepsGrow(hs, id, n - 1, n);
    UndisturbedChain(hs[i], hs[n - 1], hs[n], id);
  }

  lemma {:induction false} InFlightBySteps(hs: seq<Host>, n: nat, id: int)
    requires Steps(hs, id) && n < |hs| && id !in hs[0].lender.inflight
    ensures id in hs[n].lender.inflight <==> Outstanding(hs, n, id)
  {
    if n > 0 {
      InFlightBySteps(hs, n - 1, id);
      OutstandingStep(hs, n, id);
      assert OneStep(hs[n - 1], hs[n - 1 + 1], id);
    }
  }

  /** In every run, at every point of it: in flight are exactly the ids that were lent, not
      released by id since, and not overtaken by the start of the shutdown. */
  lemma InFlightExactly(parse: Parser, es: seq<Event>, hs: seq<Host>, n: nat, id: int)
    requires Trace(parse, es, hs) && n <= |es|
    ensures id in hs[n].lender.inflight <==> Outstanding(hs, n, id)
  {
    TraceSteps(parse, es, hs, id);
    InFlightBySteps(hs, n, id);
  }

  /** The same of a run by where it ends: it has a history, and that says what is in flight. */
  lemma EveryRunHasHistory(parse: Parser, es: seq<Event>, h: Host) returns (hs: seq<Host>)
    requires Reaches(parse, es, h)
    ensures Trace(parse, es, hs) && hs[|es|] == h
    ensures forall id :: id in h.lender.inflight <==> Outstanding(hs, |es|, id)
  {
    hs := ReachesHasTrace(parse, es, h);
    forall id
      ensures id in h.lender.inflight <==> Outstanding(hs, |es|, id)
    {
      InFlightExactly(parse, es, hs, |es|, id);
    }
  }

  lemma {:induction false} LentIsCounted(m: map<int, Lent>, n: nat, id: int)
    requires id in m && 1 <= id <= n
    ensures m[id].texture in LentUpTo(m, n)
  {
    if id < n {
      LentIsCounted(m, n - 1, id);
    }
  }

  lemma NothingCounted(m: map<int, Lent>, n: nat)
    requires forall id :: id in m ==> 1 <= id <= n
    ensures LentUpTo(m, n) == multiset{} <==> forall id :: id !in m
  {
    if id :| id in m {
      LentIsCounted(m, n, id);
    } else {
      SameBelow(m, map[], 0, n);
      NothingLentTo(map[], 0, n);
    }
  }

  /** In every run, everything painted so far has been released if and only if no id is
      outstanding; and once the host is shutting down, an outstanding one was lent after the
      shutdown began. */
  lemma ReleasedUnlessOutstanding(parse: Parser, es: seq<Event>, hs: seq<Host>)
    requires Trace(parse, es, hs)
    ensures var n := |es|;
            && (hs[n].lender.released == TexturesPainted(es) <==> forall id :: !Outstanding(hs, n, id))
            && (hs[n].lender.shuttingDown ==>
                  forall id, i: nat :: i < n && LentBy(hs, i, id) && Undisturbed(hs[i + 1], hs[n], id) ==> hs[i].lender.shuttingDown)
  {
    var n := |es|;
    var l := hs[n].lender;
    TraceReaches(parse, es, hs, n);
    assert es[..n] == es;
    TexturesConserved(parse, es, hs[n]);
    NothingCounted(l.inflight, l.paintSeq);
    forall id
      ensures id in l.inflight <==> Outstanding(hs, n, id)
    {
      InFlightExactly(parse, es, hs, n, id);
    }
    forall id, i: nat | i < n && LentBy(hs, i, id) && Undisturbed(hs[i + 1], hs[n], id) && l.shuttingDown
      ensures hs[i].lender.shuttingDown
    {
      TraceSteps(parse, es, hs, id);
      assert OneStep(hs[i], hs[i + 1], id);
    }
  }

  lemma {:induction false} ObeyAllReleases(l: Lender, cs: seq<Command>)
    ensures l.released <= ObeyAll(l, cs).released
    decreases |cs|
  {
    if cs != [] {
      ObeyAllReleases(Obey(l, cs[0]), cs[1..]);
    }
  }

  lemma ReleasesStep(parse: Parser, h: Host, e: Event)
    requires Possible(h, e)
    ensures h.lender.released <= Step(parse, h, e).lender.released
  {
    match e
    case Data(chunk) =>
      ObeyAllReleases(h.lender, Commands(parse, CompleteLines(h.buffered + chunk)));
    case Ready =>
      ObeyAllReleases(h.lender, h.queued);
    case _ =>
  }

  lemma {:induction false} ReleasesGrow(parse: Parser, es: seq<Event>, hs: seq<Host>, i: nat, n: nat)
    requires Trace(parse, es, hs) && i <= n <= |es|
    ensures hs[i].lender.released <= hs[n].lender.released
    decreases n - i
  {
    if i < n {
      ReleasesGrow(parse, es, hs, i, n - 1);
      ReleasesStep(parse, hs[n - 1], es[n - 1]);
    }
  }

  lemma {:induction false} ShutdownBegins(hs: seq<Host>, i: nat, n: nat) returns (f: nat)
    requires i <= n < |hs| && !hs[i].lender.shuttingDown && hs[n].lender.shuttingDown
    ensures i <= f < n && !hs[f].lender.shuttingDown && hs[f + 1].lender.shuttingDown
    decreases n
  {
    f := n - 1;
    if hs[n - 1].lender.shuttingDown {
      f := ShutdownBegins(hs, i, n - 1);
    }
  }

  lemma ShutdownEmpties(parse: Parser, es: seq<Event>, hs: seq<Host>, f: nat)
    requires Trace(parse, es, hs) && f < |es| && !hs[f].lender.shuttingDown && hs[f + 1].lender.shuttingDown
    ensures hs[f + 1].lender.inflight == map[] && hs[f + 1].lender.released == TexturesPainted(es[..f + 1])
  {
    var l := hs[f + 1].lender;
    TraceReaches(parse, es, hs, f + 1);
    TexturesConserved(parse, es[..f + 1], hs[f + 1]);
    forall id
      ensures id !in l.inflight
    {
      TraceSteps(parse, es, hs, id);
      assert OneStep(hs[f], hs[f + 1], id);
    }
    NothingCounted(l.inflight, l.paintSeq);
  }

  lemma {:induction false} PaintSeqGrows(parse: Parser, es: seq<Event>, hs: seq<Host>, i: nat, n: nat)
    requires Trace(parse, es, hs) && i <= n <= |es|
    ensures hs[i].lender.paintSeq <= hs[n].lender.paintSeq
    decreases n - i
  {
    if i < n {
      PaintSeqGrows(parse, es, hs, i, n - 1);
      TraceSteps(parse, es, hs, 0);
      assert OneStep(hs[n - 1], hs[n - 1 + 1], 0);
    }
  }

  /** Once a quit has been handled, or the wire has closed, whatever was painted before is
      back: some event, after any state `i` in which neither had happened, began the
      shutdown; at its end everything painted by then had been released, exactly as often
      as it was painted; that stays released, and no id lent by state `i` is in flight. */
  lemma QuitReturnsEverything(parse: Parser, es: seq<Event>, hs: seq<Host>, i: nat, n: nat) returns (f: nat)
    requires Trace(parse, es, hs) && i <= n <= |es|
    requires WireClosed !in es[..i] && Quit !in hs[i].handled
    requires WireClosed in es[..n] || Quit in hs[n].handled
    ensures i <= f < n && hs[f + 1].lender.released == TexturesPainted(es[..f + 1])
    ensures hs[f + 1].lender.released <= hs[n].lender.released
    ensures forall id :: id <= hs[i].lender.paintSeq ==> id !in hs[n].lender.inflight
  {
    TraceReaches(parse, es, hs, i);
    TraceReaches(parse, es, hs, n);
    ShuttingDownExactly(parse, es[..i], hs[i]);
    ShuttingDownExactly(parse, es[..n], hs[n]);
    f := ShutdownBegins(hs, i, n);
    ShutdownEmpties(parse, es, hs, f);
    ReleasesGrow(parse, es, hs, f + 1, n);
    forall id | id <= hs[i].lender.paintSeq
      ensures id !in hs[n].lender.inflight
    {
      EarlierIsBack(parse, es, hs, i, n, id);
    }
  }

  lemma EarlierIsBack(parse: Parser, es: seq<Event>, hs: seq<Host>, i: nat, n: nat, id: int)
    requires Trace(parse, es, hs) && i <= n <= |es| && id <= hs[i].lender.paintSeq
    requires !hs[i].lender.shuttingDown && hs[n].lender.shuttingDown
    ensures id !in hs[n].lender.inflight
  {
    InFlightExactly(parse, es, hs, n, id);
    TraceSteps(parse, es, hs, id);
    if Outstanding(hs, n, id) {
      var k: nat :| k < n && LentBy(hs, k, id) && Undisturbed(hs[k + 1], hs[n], id);
      if k + 1 <= i {
        StepsGrow(hs, id, k + 1, i);
      } else {
        PaintSeqGrows(parse, es, hs, i, k);
      }
    }
  }

  /** A usable paint is lent if and only if its window has fewer textures out than the budget,
      for as long as the window lives and the host is not shutting down. */
  lemma LentWithinBudget(parse: Parser, es: seq<Event>, h: Host, w: Window, t: Texture)
    requires Reaches(parse, es, h) && w in h.lender.lent && w !in h.lender.destroyed && !h.lender.shuttingDown
    ensures var g := Step(parse, h, Painted(w, Usable(t)));
            var id := h.lender.paintSeq + 1;
            if LentTo(h.lender.inflight, w, h.lender.paintSeq) < 4
            then g.lender.inflight == h.lender.inflight[id := Lent(t, w)] && g.lender.drops == h.lender.drops
            else g.lender.inflight == h.lender.inflight && g.lender.drops == h.lender.drops + 1
  {
    TexturesConserved(parse, es, h);
    CountIsOut(h.lender, w);
    LentIfRoom(h.lender, w, t);
  }

  lemma CountIsOut(l: Lender, w: Window)
    requires Balanced(l) && w in l.lent && w !in l.destroyed && !l.shuttingDown
    ensures l.lent[w] == LentTo(l.inflight, w, l.paintSeq)
  {
    assert BudgetKept(l, w);
  }

  lemma LentIfRoom(l: Lender, w: Window, t: Texture)
    requires w in l.lent
    ensures var g := OnPaint(l, w, Usable(t));
            if l.lent[w] < 4 then g.inflight == l.inflight[l.paintSeq + 1 := Lent(t, w)] && g.drops == l.drops
            else g.inflight == l.inflight && g.drops == l.drops + 1
  {
  }

  lemma {:induction false} ObeyAllSparesDestroyed(l: Lender, cs: seq<Command>, w: Window)
    requires w in l.lent && w in l.destroyed
    ensures var l' := ObeyAll(l, cs); w in l'.lent && l'.lent[w] == l.lent[w] && l'.destroyed == l.destroyed
    decreases |cs|
  {
    if cs != [] {
      ObeyAllSparesDestroyed(Obey(l, cs[0]), cs[1..], w);
    }
  }

  /** The count of a destroyed window is never lowered again, by any event. */
  lemma DestroyedNeverLowered(parse: Parser, h: Host, e: Event, w: Window)
    requires Possible(h, e) && w in h.lender.lent && w in h.lender.destroyed
    ensures var l := Step(parse, h, e).lender;
            && w in l.lent && w in l.destroyed && l.lent[w] >= h.lender.lent[w]
            && (!e.Painted? ==> l.lent[w] == h.lender.lent[w])
  {
    match e
    case Data(chunk) =>
      ObeyAllSparesDestroyed(h.lender, Commands(parse, CompleteLines(h.buffered + chunk)), w);
    case Ready =>
      ObeyAllSparesDestroyed(h.lender, h.queued, w);
    case _ =>
  }

  /** A texture painted after the shutdown began, within budget, is lent all the same; and
      whatever happens then, further shutdowns included, it is still lent, and not
      everything has been released, until a release of its id is handled. */
  lemma LatePaintIsStuck(parse: Parser, es: seq<Event>, hs: seq<Host>, i: nat)
    requires Trace(parse, es, hs) && i < |es| && hs[i].lender.shuttingDown
    requires es[i].Painted? && es[i].paint.Usable? && es[i].win in hs[i].lender.lent && hs[i].lender.lent[es[i].win] < MAX_INFLIGHT
    ensures var id, end := hs[i].lender.paintSeq + 1, hs[|es|];
            && hs[i].handled <= end.handled
            && (Release(id) !in end.handled[|hs[i].handled|..] ==>
                  id in end.lender.inflight && end.lender.released != TexturesPainted(es))
  {
    var id, n := hs[i].lender.paintSeq + 1, |es|;
    TraceSteps(parse, es, hs, id);
    LateLent(parse, hs[i], es[i]);
    StepsGrow(hs, id, i, n);
    StepsGrow(hs, id, i + 1, n);
    assert LentBy(hs, i, id);
    InFlightBySteps(hs, n, id);
    ReleasedUnlessOutstanding(parse, es, hs);
  }

  lemma LateLent(parse: Parser, h: Host, e: Event)
    requires Possible(h, e) && e.Painted? && e.paint.Usable? && h.lender.lent[e.win] < MAX_INFLIGHT
    ensures var g := Step(parse, h, e);
            && g.lender.paintSeq == h.lender.paintSeq + 1
            && g.handled == h.handled && g.lender.shuttingDown == h.lender.shuttingDown
  {
  }

  /** The shortest such run: a window opens, the wire closes, the window paints. */
  lemma LatePaintHappens(parse: Parser, w: Window, t: Texture)
    ensures var es := [Opened(w), WireClosed, Painted(w, Usable(t)), WireClosed];
            exists hs: seq<Host> ::
              && Trace(parse, es, hs)
              && hs[4].lender.inflight == map[1 := Lent(t, w)] && hs[4].lender.released == multiset{}
  {
    var es := [Opened(w), WireClosed, Painted(w, Usable(t)), WireClosed];
    var a := Step(parse, START, es[0]);
    var b := Step(parse, a, es[1]);
    var c := Step(parse, b, es[2]);
    var d := Step(parse, c, es[3]);
    assert Trace(parse, es, [START, a, b, c, d]);
  }

  /** However the stream was cut, and whenever the app became ready: handled, then parked,
      commands are the in-order parse of the complete lines received. Nothing is lost,
      repeated or reordered, and nothing stays parked once the app is ready. */
  lemma {:induction false} CommandsInOrder(parse: Parser, es: seq<Event>, h: Host)
    requires Reaches(parse, es, h)
    ensures h.handled + h.queued == Commands(parse, CompleteLines(Stream(es)))
    ensures h.buffered == Remainder(Stream(es))
    ensures h.appReady <==> BecameReady(es)
    ensures BecameReady(es) ==> h.queued == []
    decreases |es|
  {
    if es != [] {
      var init, e := es[..|es| - 1], es[|es| - 1];
      var before: Host :| Reaches(parse, init, before) && Possible(before, e) && h == Step(parse, before, e);
      CommandsInOrder(parse, init, before);
      CommandStep(parse, before, e, Stream(init));
    }
  }

  /** Newline-ended texts, one after the other. */
  function Terminated(texts: seq<string>): string {
    if texts == [] then "" else texts[0] + ['\n'] + Terminated(texts[1..])
  }

  lemma {:induction false} LinesTerminated(texts: seq<string>)
    requires forall i :: 0 <= i < |texts| ==> '\n' !in texts[i]
    ensures CompleteLines(Terminated(texts)) == texts && Remainder(Terminated(texts)) == ""
  {
    if texts == [] {
      NoLine("");
    } else {
      LinesTerminated(texts[1..]);
      LineFirst(texts[0], Terminated(texts[1..]));
      assert texts == [texts[0]] + texts[1..];
    }
  }

  lemma {:induction false} CommandsAsked(parse: Parser, texts: seq<string>, asked: seq<Option<Command>>)
    requires |texts| == |asked|
    requires forall i :: 0 <= i < |texts| ==>
               asked[i] == if Trim(JsSpace, texts[i]) == "" then None else parse(Trim(JsSpace, texts[i]))
    ensures Commands(parse, texts) == Somes(asked)
  {
    if texts != [] {
      CommandsAsked(parse, texts[1..], asked[1..]);
    }
  }

  /** The values there are, in order. */
  function Somes<T>(xs: seq<Option<T>>): seq<T> {
    if xs == [] then [] else (match xs[0] case None => [] case Some(x) => [x]) + Somes(xs[1..])
  }

  /** What a run makes of a stream of newline-ended texts, if each of them, trimmed, either
      is blank or unparseable and asks for nothing, or parses and asks for that command: it
      has handled, then parked, exactly those commands, in order, whatever the chunks. */
  lemma StreamIsObeyed(parse: Parser, es: seq<Event>, h: Host, texts: seq<string>, asked: seq<Option<Command>>)
    requires Reaches(parse, es, h) && Stream(es) == Terminated(texts) && |texts| == |asked|
    requires forall i :: 0 <= i < |texts| ==>
               && '\n' !in texts[i]
               && asked[i] == if Trim(JsSpace, texts[i]) == "" then None else parse(Trim(JsSpace, texts[i]))
    ensures h.handled + h.queued == Somes(asked) && h.buffered == ""
    ensures BecameReady(es) ==> h.handled == Somes(asked)
  {
    CommandsInOrder(parse, es, h);
    LinesTerminated(texts);
    CommandsAsked(parse, texts, asked);
    assert h.handled + [] == h.handled;
  }

  /** Two runs that received the same bytes and are both ready have handled the same
      commands, whatever the chunks and whenever readiness came. */
  lemma ChunkingDoesNotMatter(parse: Parser, es: seq<Event>, h: Host, fs: seq<Event>, g: Host)
    requires Reaches(parse, es, h) && Reaches(parse, fs, g)
    requires Stream(es) == Stream(fs) && BecameReady(es) && BecameReady(fs)
    ensures h.handled == g.handled && h.buffered == g.buffered
  {
    CommandsInOrder(parse, es, h);
    CommandsInOrder(parse, fs, g);
    assert h.handled + [] == h.handled && g.handled + [] == g.handled;
  }

  // ---------------------------------------------------------------------------
  // The code
  // ---------------------------------------------------------------------------

  lemma HandleFirst(h: Host, c: Command, cs: seq<Command>)
    ensures HandleAll(Handle(h, c), cs) == HandleAll(h, [c] + cs)
  {
    assert ([c] + cs)[1..] == cs;
    assert (h.handled + [c]) + cs == h.handled + ([c] + cs);
  }

  lemma AcceptNothing(h: Host)
    ensures Accept(h, []) == h
  {
    assert h.handled + [] == h.handled && h.queued + [] == h.queued;
  }

  lemma AcceptFirst(h: Host, cs: seq<Command>, ds: seq<Command>)
    requires |cs| <= 1
    ensures Accept(Accept(h, cs), ds) == Accept(h, cs + ds)
  {
    if cs == [] {
      AcceptNothing(h);
      assert cs + ds == ds;
    } else if h.appReady {
      HandleFirst(h, cs[0], ds);
      HandleFirst(h, cs[0], []);
      assert HandleAll(Handle(h, cs[0]), []) == Handle(h, cs[0]) by { AcceptNothing(Handle(h, cs[0])); }
      assert [cs[0]] + [] == cs;
    } else {
      assert (h.queued + cs) + ds == h.queued + (cs + ds);
    }
  }

  lemma AcceptInTurn(h: Host, cs: seq<Command>, ds: seq<Command>, tail: string, rest: string)
    requires |cs| <= 1
    ensures var h' := Accept(h.(buffered := tail), cs);
            h'.buffered == tail && Accept(h', ds).(buffered := rest) == Accept(h, cs + ds).(buffered := rest)
  {
    AcceptFirst(h.(buffered := tail), cs, ds);
  }

  lemma FirstCommand(parse: Parser, line: string, rest: string)
    requires '\n' !in line
    ensures var text := line + ['\n'] + rest;
            && Commands(parse, CompleteLines(text)) == CommandOf(parse, line) + Commands(parse, CompleteLines(rest))
            && Remainder(text) == Remainder(rest)
  {
    LineFirst(line, rest);
    assert ([line] + CompleteLines(rest))[1..] == CompleteLines(rest);
  }

  lemma DrainTurn(parse: Parser, h: Host, cs: seq<Command>, tail: string)
    requires |cs| <= 1 && Commands(parse, CompleteLines(h.buffered)) == cs + Commands(parse, CompleteLines(tail))
    requires Remainder(h.buffered) == Remainder(tail)
    ensures Drain(parse, h) == Drain(parse, Accept(h.(buffered := tail), cs))
  {
    AcceptInTurn(h, cs, Commands(parse, CompleteLines(tail)), tail, Remainder(tail));
  }

  lemma AtMostOneCommand(parse: Parser, line: string)
    ensures |CommandOf(parse, line)| <= 1
  {
  }

  /** One turn of the framing loop. */
  lemma DrainFirst(parse: Parser, h: Host, line: string, rest: string)
    requires '\n' !in line && h.buffered == line + ['\n'] + rest
    ensures Drain(parse, h) == Drain(parse, Accept(h.(buffered := rest), CommandOf(parse, line)))
  {
    FirstCommand(parse, line, rest);
    AtMostOneCommand(parse, line);
    DrainTurn(parse, h, CommandOf(parse, line), rest);
  }

  lemma DrainNothing(parse: Parser, h: Host)
    requires '\n' !in h.buffered
    ensures Drain(parse, h) == h
  {
    assert Split(h.buffered, '\n') == [h.buffered];
    AcceptNothing(h);
  }

  /** The module-level variables of `main.js` and the handlers that change them. The ghost
      fields log the calls into Electron the rest of the model counts. */
  class Process {
    const parse: Parser
    var inflight: map<int, Lent>
    var paintSeq: nat
    var drops: nat
    var lent: map<Window, int>
    var destroyed: set<Window>
    var shuttingDown: bool
    var appReady: bool
    var queued: seq<Command>
    var buffered: string
    ghost var released: multiset<Texture>
    ghost var handled: seq<Command>

    ghost function Books(): Lender
      reads this
    {
      Lender(inflight, paintSeq, drops, lent, destroyed, released, shuttingDown)
    }

    ghost function Model(): Host
      reads this
    {
      Host(Books(), appReady, queued, handled, buffered)
    }

    constructor (parse: Parser)
      ensures Model() == START && this.parse == parse
    {
      this.parse := parse;
      inflight, paintSeq, drops, lent, destroyed := map[], 0, 0, map[], {};
      shuttingDown, appReady, queued, buffered := false, false, [], "";
      released, handled := multiset{}, [];
    }

    method CreateWindow(w: Window)
      requires w !in lent
      modifies this
      ensures Model() == Step(parse, old(Model()), Opened(w))
    {
      lent := lent[w := 0];
    }

    method WindowDestroyed(w: Window)
      requires w in lent
      modifies this
      ensures Model() == Step(parse, old(Model()), Destroyed(w))
    {
      destroyed := destroyed + {w};
    }

    method OnPaintEvent(w: Window, p: Paint)
      requires w in lent
      modifies this
      ensures Model() == Step(parse, old(Model()), Painted(w, p))
    {
      if p.NoTexture? {
        return;
      }
      if p.Unusable? {
        released := released + multiset{p.texture};
        return;
      }
      if lent[w] >= MAX_INFLIGHT {
        drops := drops + 1;
        released := released + multiset{p.texture};
        return;
      }
      paintSeq := paintSeq + 1;
      lent := lent[w := lent[w] + 1];
      inflight := inflight[paintSeq := Lent(p.texture, w)];
    }

    /** Map iteration is by insertion, and ids are inserted in increasing order. */
    method ShutDown()
      modifies this
      ensures Model() == Step(parse, old(Model()), WireClosed)
    {
      if shuttingDown {
        return;
      }
      shuttingDown := true;
      for id := 0 to paintSeq
        modifies `released
        invariant released == old(released) + LentUpTo(inflight, id)
      {
        if id + 1 in inflight {
          released := released + multiset{inflight[id + 1].texture};
        }
      }
      inflight := map[];
    }

    method HandleCommand(c: Command)
      modifies this
      ensures Model() == Handle(old(Model()), c)
    {
      handled := handled + [c];
      match c {
        case Release(id) =>
          if id in inflight {
            var Lent(t, w) := inflight[id];
            inflight := inflight - {id};
            if w in lent && w !in destroyed {
              lent := lent[w := lent[w] - 1];
            }
            released := released + multiset{t};
          }
        case Quit =>
          ShutDown();
        case Other(_) =>
      }
    }

    /** The body of the framing loop, given the line it cut off. */
    method OnLine(raw: string)
      modifies this
      ensures Model() == Accept(old(Model()), CommandOf(parse, raw))
    {
      AcceptNothing(Model());
      var line := Trim(JsSpace, raw);
      if line == "" {
        return;
      }
      var msg := parse(line);
      if msg.None? {
        return;
      }
      if !appReady {
        queued := queued + [msg.value];
        return;
      }
      HandleFirst(Model(), msg.value, []);
      assert [msg.value] + [] == [msg.value];
      HandleCommand(msg.value);
      AcceptNothing(Model());
    }

    method OnDataEvent(chunk: string)
      modifies this
      ensures Model() == Step(parse, old(Model()), Data(chunk))
    {
      buffered := buffered + chunk;
      ghost var target := Drain(parse, Model());
      while '\n' in buffered
        invariant Drain(parse, Model()) == target
        decreases |buffered|
      {
        var newline := IndexOf(buffered, '\n');
        var line := buffered[..newline];
        CutLine(buffered, newline, "");
        DrainFirst(parse, Model(), line, buffered[newline + 1..]);
        buffered := buffered[newline + 1..];
        label cut:
        OnLine(line);
        assert buffered == old@cut(buffered);
      }
      DrainNothing(parse, Model());
    }

    method OnReadyEvent()
      modifies this
      ensures Model() == Step(parse, old(Model()), Ready)
    {
      appReady := true;
      var waiting := queued;
      queued := [];
      ghost var target := HandleAll(Model(), waiting);
      for i := 0 to |waiting|
        invariant appReady && HandleAll(Model(), waiting[i..]) == target
      {
        HandleFirst(Model(), waiting[i], waiting[i + 1..]);
        assert [waiting[i]] + waiting[i + 1..] == waiting[i..];
        HandleCommand(waiting[i]);
      }
      AcceptNothing(Model());
    }
  }
}
