/**
 The content-security-policy rewrite of `browser-host/main.js`, which lets a page load a
 worklet from a blob, as a transformation of text: what it does to the pieces of a policy,
 and that doing it twice is doing it once.
 */
module CspRewrite {
  import opened Text

  const SCRIPT_SRC := "script-src"
  const DEFAULT_SRC := "default-src"
  const BLOB := "blob:"

  // ---------------------------------------------------------------------------
  // The rewrite
  // ---------------------------------------------------------------------------

  /** `d.trim().toLowerCase().startsWith(name)`. Only two characters outside ASCII lower to
      anything in ASCII, a `k` and an `i` with a dot after it, and neither can complete
      either of the names used here. */
  predicate Matches(ws: Space, name: string, d: string) {
    StartsWith(name, Trim(ws, d))
  }

  /** The first directive that matches, or the length. */
  function Find(ws: Space, name: string, ds: seq<string>): (k: nat)
    ensures k <= |ds|
    ensures k < |ds| ==> Matches(ws, name, ds[k])
    ensures forall i :: 0 <= i < k ==> !Matches(ws, name, ds[i])
  {
    if ds == [] || Matches(ws, name, ds[0]) then 0 else 1 + Find(ws, name, ds[1..])
  }

  lemma {:induction false} FindIs(ws: Space, name: string, ds: seq<string>, k: nat)
    requires k <= |ds| && (k < |ds| ==> Matches(ws, name, ds[k])) && forall i :: 0 <= i < k ==> !Matches(ws, name, ds[i])
    ensures Find(ws, name, ds) == k
  {
    var f := Find(ws, name, ds);
    assert f >= k && k >= f;
  }

  /** The expression `/(^|\s)blob:/`. */
  predicate HasBlob(ws: Space, d: string) {
    exists i: nat :: i <= |d| && Begins(ws, d, i, BLOB)
  }

  function WithBlob(ws: Space, d: string): string {
    TrimEnd(ws, d) + " " + BLOB
  }

  function DropSemicolon(s: string): string {
    if s != "" && s[|s| - 1] == ';' then s[..|s| - 1] else s
  }

  /** The sources of the directive the new `script-src` is derived from. */
  function Sources(ws: Space, d: string): string
    requires Matches(ws, DEFAULT_SRC, d)
  {
    Trim(ws, Trim(ws, d)[|DEFAULT_SRC|..])
  }

  function Derived(ws: Space, d: string): string
    requires Matches(ws, DEFAULT_SRC, d)
  {
    " " + SCRIPT_SRC + " " + Sources(ws, d) + " " + BLOB
  }

  function Rewrite(ws: Space, policy: string): string {
    var ds := Split(policy, ';');
    var script := Find(ws, SCRIPT_SRC, ds);
    if script < |ds| then
      if HasBlob(ws, ds[script]) then policy else Join(ds[script := WithBlob(ws, ds[script])], ';')
    else
      var fallback := Find(ws, DEFAULT_SRC, ds);
      if fallback == |ds| then policy
      else DropSemicolon(TrimEnd(ws, policy)) + ";" + Derived(ws, ds[fallback])
  }

  // ---------------------------------------------------------------------------
  // The pieces of a rewritten policy
  // ---------------------------------------------------------------------------

  /** The pieces of a policy once its end is tidied: the last piece loses trailing white
      space, and a last piece that is blank goes altogether. */
  function TidyEnd(ws: Space, ds: seq<string>): seq<string>
    requires |ds| > 0
  {
    var n := |ds| - 1;
    var last := TrimEnd(ws, ds[n]);
    if last == "" && n > 0 then ds[..n] else ds[n := last]
  }

  /** What the rewrite does, piece by piece. */
  function RewritePieces(ws: Space, ds: seq<string>): seq<string>
    requires |ds| > 0
  {
    var script, fallback := Find(ws, SCRIPT_SRC, ds), Find(ws, DEFAULT_SRC, ds);
    if script < |ds| then (if HasBlob(ws, ds[script]) then ds else ds[script := WithBlob(ws, ds[script])])
    else if fallback < |ds| then TidyEnd(ws, ds) + [Derived(ws, ds[fallback])]
    else ds
  }

  /** All the rewrite needs of an idea of white space. */
  ghost predicate Sane(ws: Space) {
    ws(' ') && !ws(';') && !ws(':') && !ws('s')
  }

  lemma TrimMembers(ws: Space, s: string, c: char)
    requires c !in s
    ensures c !in Trim(ws, s) && c !in TrimEnd(ws, s)
  {
    TrimStartSpec(ws, s);
    TrimEndSpec(ws, s);
    TrimEndSpec(ws, TrimStart(ws, s));
  }

  lemma {:induction false} JoinSnoc(ds: seq<string>, d: string, c: char)
    requires |ds| > 0
    ensures Join(ds + [d], c) == Join(ds, c) + [c] + d
  {
    assert (ds + [d])[0] == ds[0];
    if |ds| > 1 {
      assert (ds + [d])[1..] == ds[1..] + [d];
      JoinSnoc(ds[1..], d, c);
    } else {
      assert (ds + [d])[1..] == [d];
    }
  }

  lemma {:induction false} TrimEndAfter(ws: Space, a: string, c: char, b: string)
    requires !ws(c)
    ensures TrimEnd(ws, a + [c] + b) == a + [c] + TrimEnd(ws, b)
  {
    TrimEndSpec(ws, b);
    TrimEndUnique(ws, a + [c] + b, a + [c] + TrimEnd(ws, b));
  }

  lemma TidyText(ws: Space, head: string, d: string)
    requires ';' !in d && Sane(ws)
    ensures var last := TrimEnd(ws, d);
            DropSemicolon(TrimEnd(ws, head + [';'] + d)) == if last == "" then head else head + [';'] + last
  {
    var last := TrimEnd(ws, d);
    TrimEndAfter(ws, head, ';', d);
    TrimEndSpec(ws, d);
    var t := head + [';'] + last;
    if last == "" {
      assert t[..|head|] == head;
    } else {
      assert t[|t| - 1] == last[|last| - 1] && last[|last| - 1] in d;
    }
  }

  lemma JoinLast(ds: seq<string>, last: string, c: char)
    requires |ds| > 1
    ensures var n := |ds| - 1;
            Join(ds[n := last], c) == Join(ds[..n], c) + [c] + last
  {
    var n := |ds| - 1;
    assert ds[n := last] == ds[..n] + [last];
    JoinSnoc(ds[..n], last, c);
  }

  lemma JoinTidyEnd(ws: Space, ds: seq<string>)
    requires |ds| > 1
    ensures var n := |ds| - 1;
            var head, last := Join(ds[..n], ';'), TrimEnd(ws, ds[n]);
            && Join(ds, ';') == head + [';'] + ds[n]
            && Join(TidyEnd(ws, ds), ';') == if last == "" then head else head + [';'] + last
  {
    var n := |ds| - 1;
    assert ds[n := ds[n]] == ds;
    JoinLast(ds, ds[n], ';');
    JoinLast(ds, TrimEnd(ws, ds[n]), ';');
  }

  lemma TidyEndText(ws: Space, ds: seq<string>)
    requires |ds| > 0 && Separated(ds, ';') && Sane(ws)
    requires |ds| == 1 ==> TrimEnd(ws, ds[0]) != ""
    ensures Join(TidyEnd(ws, ds), ';') == DropSemicolon(TrimEnd(ws, Join(ds, ';')))
  {
    var n := |ds| - 1;
    if n > 0 {
      JoinTidyEnd(ws, ds);
      TidyText(ws, Join(ds[..n], ';'), ds[n]);
    } else {
      TrimMembers(ws, ds[0], ';');
    }
  }

  /** A character the rewrite does not write of itself. */
  predicate Unwritten(c: char) {
    c !in SCRIPT_SRC && c !in BLOB && c != ' '
  }

  lemma NamesClean()
    ensures Unwritten(';') && Unwritten(',')
  {
  }

  lemma SpellClean(name: string, sources: string, word: string, c: char)
    requires c !in name && c !in sources && c !in word && c != ' '
    ensures c !in " " + name + " " + sources + " " + word
  {
  }

  lemma SourcesClean(ws: Space, d: string, c: char)
    requires Matches(ws, DEFAULT_SRC, d) && c !in d
    ensures c !in Sources(ws, d)
  {
    var t := Trim(ws, d);
    TrimMembers(ws, d, c);
    var rest := t[|DEFAULT_SRC|..];
    assert c !in rest;
    TrimMembers(ws, rest, c);
  }

  lemma TidyEndSeparated(ws: Space, ds: seq<string>, c: char)
    requires |ds| > 0 && Separated(ds, c)
    ensures |TidyEnd(ws, ds)| > 0 && Separated(TidyEnd(ws, ds), c)
  {
    TrimMembers(ws, ds[|ds| - 1], c);
  }

  lemma PiecesSeparated(ws: Space, ds: seq<string>, c: char)
    requires |ds| > 0 && Separated(ds, c) && Unwritten(c)
    ensures |RewritePieces(ws, ds)| > 0 && Separated(RewritePieces(ws, ds), c)
  {
    var script, fallback := Find(ws, SCRIPT_SRC, ds), Find(ws, DEFAULT_SRC, ds);
    if script < |ds| {
      TrimMembers(ws, ds[script], c);
      var d := WithBlob(ws, ds[script]);
      assert c !in d;
      assert Separated(ds[script := d], c);
    } else if fallback < |ds| {
      TidyEndSeparated(ws, ds, c);
      SourcesClean(ws, ds[fallback], c);
      SpellClean(SCRIPT_SRC, Sources(ws, ds[fallback]), BLOB, c);
      assert Separated(TidyEnd(ws, ds) + [Derived(ws, ds[fallback])], c);
    }
  }

  /** The rewrite on text is the rewrite on pieces: nothing else in the policy moves. */
  lemma RewriteIsByPieces(ws: Space, policy: string)
    requires Sane(ws)
    ensures Split(Rewrite(ws, policy), ';') == RewritePieces(ws, Split(policy, ';'))
  {
    var ds := Split(policy, ';');
    JoinSplit(policy, ';');
    NamesClean();
    PiecesSeparated(ws, ds, ';');
    SplitJoin(RewritePieces(ws, ds), ';');
    var script, fallback := Find(ws, SCRIPT_SRC, ds), Find(ws, DEFAULT_SRC, ds);
    if script == |ds| && fallback < |ds| {
      if |ds| == 1 {
        TrimBlankIsEmpty(ws, ds[0]);
      }
      TidyEndText(ws, ds);
      JoinSnoc(TidyEnd(ws, ds), Derived(ws, ds[fallback]), ';');
    }
  }

  lemma {:induction false} SplitWithout(s: string, c: char)
    requires c !in s
    ensures Separated(Split(s, ';'), c)
    decreases |s|
  {
    var i := IndexOf(s, ';');
    if i < |s| {
      SplitWithout(s[i + 1..], c);
    }
  }

  lemma {:induction false} JoinWithout(ds: seq<string>, c: char)
    requires |ds| > 0 && Separated(ds, c) && c != ';'
    ensures c !in Join(ds, ';')
  {
    if |ds| > 1 {
      JoinWithout(ds[1..], c);
    }
  }

  /** The rewrite brings in no character but those it writes. */
  lemma RewriteWithout(ws: Space, policy: string, c: char)
    requires Sane(ws) && Unwritten(c) && c != ';' && c !in policy
    ensures c !in Rewrite(ws, policy)
  {
    var ds := Split(policy, ';');
    SplitWithout(policy, c);
    PiecesSeparated(ws, ds, c);
    JoinWithout(RewritePieces(ws, ds), c);
    RewriteIsByPieces(ws, policy);
    JoinSplit(Rewrite(ws, policy), ';');
  }

  lemma TrimBlankIsEmpty(ws: Space, d: string)
    ensures TrimEnd(ws, d) == "" ==> Trim(ws, d) == ""
  {
    TrimEndSpec(ws, d);
    if TrimEnd(ws, d) == "" {
      TrimBlankEnd(ws, d, "");
    }
  }

  // ---------------------------------------------------------------------------
  // Idempotence
  // ---------------------------------------------------------------------------

  lemma TrimOfTrimEnd(ws: Space, d: string)
    ensures Trim(ws, TrimEnd(ws, d)) == Trim(ws, d)
  {
    TrimEndSpec(ws, d);
    TrimBlankEnd(ws, d, TrimEnd(ws, d));
  }

  lemma {:induction false} TrimStartBefore(ws: Space, a: string, b: string)
    requires exists i :: 0 <= i < |a| && !ws(a[i])
    ensures TrimStart(ws, a + b) == TrimStart(ws, a) + b
  {
    if ws(a[0]) {
      assert (a + b)[1..] == a[1..] + b;
      TrimStartBefore(ws, a[1..], b);
    }
  }

  lemma {:induction false} TrimStartLast(ws: Space, s: string)
    requires s != "" && !ws(s[|s| - 1])
    ensures var t := TrimStart(ws, s); t != "" && t[|t| - 1] == s[|s| - 1]
  {
    if |s| > 1 && ws(s[0]) {
      TrimStartLast(ws, s[1..]);
    }
  }

  lemma TrimEndNothing(ws: Space, s: string)
    requires s != "" ==> !ws(s[|s| - 1])
    ensures TrimEnd(ws, s) == s
  {
  }

  lemma TrimTail(ws: Space, e: string, tail: string)
    requires e != "" && !ws(e[|e| - 1]) && tail != "" && !ws(tail[|tail| - 1])
    ensures Trim(ws, e + tail) == Trim(ws, e) + tail
  {
    TrimStartBefore(ws, e, tail);
    TrimStartLast(ws, e);
    TrimEndNothing(ws, TrimStart(ws, e));
    TrimEndNothing(ws, TrimStart(ws, e) + tail);
  }

  /** Appending to a directive leaves its beginning alone. */
  lemma TrimBeforeTail(ws: Space, d: string, tail: string)
    requires Trim(ws, d) != "" && tail != "" && !ws(tail[|tail| - 1])
    ensures Trim(ws, TrimEnd(ws, d) + tail) == Trim(ws, d) + tail
  {
    TrimOfTrimEnd(ws, d);
    TrimEndSpec(ws, d);
    TrimTail(ws, TrimEnd(ws, d), tail);
  }

  lemma TailKeepsName(ws: Space, name: string, d: string, tail: string)
    requires Matches(ws, name, d) && name != "" && tail != "" && !ws(tail[|tail| - 1])
    ensures Matches(ws, name, TrimEnd(ws, d) + tail)
  {
    TrimBeforeTail(ws, d, tail);
  }

  lemma WordIsFound(ws: Space, d: string, word: string)
    requires ws(' ')
    ensures Begins(ws, d + [' '] + word, |d| + 1, word)
  {
    var s := d + [' '] + word;
    assert s[|d| + 1..|d| + 1 + |word|] == word;
  }

  lemma WithBlobIsScript(ws: Space, d: string)
    requires Matches(ws, SCRIPT_SRC, d) && Sane(ws)
    ensures Matches(ws, SCRIPT_SRC, WithBlob(ws, d)) && HasBlob(ws, WithBlob(ws, d))
  {
    var e := TrimEnd(ws, d);
    var tail := " " + BLOB;
    assert WithBlob(ws, d) == e + tail && tail[|tail| - 1] == ':';
    TailKeepsName(ws, SCRIPT_SRC, d, tail);
    WordIsFound(ws, e, BLOB);
    assert WithBlob(ws, d) == e + [' '] + BLOB;
  }

  /** A directive spelled out after a space has the name it begins with. */
  lemma SpelledOut(ws: Space, name: string, rest: string)
    requires ws(' ') && name != "" && StartsWith(name, name) && !ws(name[0])
    requires rest != "" && !ws(rest[|rest| - 1])
    ensures Trim(ws, [' '] + (name + rest)) == name + rest
    ensures Matches(ws, name, [' '] + (name + rest))
  {
    var body := name + rest;
    assert ([' '] + body)[1..] == body;
    assert TrimStart(ws, [' '] + body) == TrimStart(ws, body) == body;
    TrimEndUnique(ws, body, body);
  }

  lemma ScriptSrcSpelling()
    ensures SCRIPT_SRC != "" && SCRIPT_SRC[0] == 's' && StartsWith(SCRIPT_SRC, SCRIPT_SRC)
    ensures BLOB != "" && BLOB[|BLOB| - 1] == ':'
  {
  }

  lemma SpelledScript(ws: Space, sources: string, name: string, word: string)
    requires ws(' ') && name != "" && StartsWith(name, name) && !ws(name[0]) && word != "" && !ws(word[|word| - 1])
    ensures var d := " " + name + " " + sources + " " + word;
            && Matches(ws, name, d)
            && Begins(ws, d, |d| - |word|, word)
  {
    var d := " " + name + " " + sources + " " + word;
    var rest := " " + sources + " " + word;
    assert rest[|rest| - 1] == word[|word| - 1];
    SpelledOut(ws, name, rest);
    assert d == [' '] + (name + rest);
    var before := " " + name + " " + sources;
    WordIsFound(ws, before, word);
    assert d == before + [' '] + word;
  }

  lemma DerivedIsScript(ws: Space, d: string)
    requires Matches(ws, DEFAULT_SRC, d) && Sane(ws)
    ensures Matches(ws, SCRIPT_SRC, Derived(ws, d)) && HasBlob(ws, Derived(ws, d))
  {
    ScriptSrcSpelling();
    SpelledScript(ws, Sources(ws, d), SCRIPT_SRC, BLOB);
  }

  lemma TrimEndKeepsName(ws: Space, name: string, d: string)
    ensures Matches(ws, name, TrimEnd(ws, d)) == Matches(ws, name, d)
  {
    TrimOfTrimEnd(ws, d);
  }

  lemma TidyEndKeepsNames(ws: Space, name: string, ds: seq<string>)
    requires |ds| > 0 && Find(ws, name, ds) == |ds|
    ensures forall i :: 0 <= i < |TidyEnd(ws, ds)| ==> !Matches(ws, name, TidyEnd(ws, ds)[i])
  {
    var n := |ds| - 1;
    TrimEndKeepsName(ws, name, ds[n]);
    assert TidyEnd(ws, ds) == ds[..n] || TidyEnd(ws, ds) == ds[n := TrimEnd(ws, ds[n])];
  }

  lemma PiecesIdempotent(ws: Space, ds: seq<string>)
    requires |ds| > 0 && Sane(ws)
    ensures RewritePieces(ws, ds) != [] && RewritePieces(ws, RewritePieces(ws, ds)) == RewritePieces(ws, ds)
  {
    var script, fallback := Find(ws, SCRIPT_SRC, ds), Find(ws, DEFAULT_SRC, ds);
    var ds' := RewritePieces(ws, ds);
    if script < |ds| && !HasBlob(ws, ds[script]) {
      WithBlobIsScript(ws, ds[script]);
      FindIs(ws, SCRIPT_SRC, ds', script);
    } else if script == |ds| && fallback < |ds| {
      DerivedIsScript(ws, ds[fallback]);
      TidyEndKeepsNames(ws, SCRIPT_SRC, ds);
      FindIs(ws, SCRIPT_SRC, ds', |ds'| - 1);
    }
  }

  /** For every policy text, rewriting twice is rewriting once. */
  lemma RewriteIdempotent(policy: string)
    ensures Rewrite(JsSpace, Rewrite(JsSpace, policy)) == Rewrite(JsSpace, policy)
  {
    var once := Rewrite(JsSpace, policy);
    RewriteIsByPieces(JsSpace, policy);
    RewriteIsByPieces(JsSpace, once);
    PiecesIdempotent(JsSpace, Split(policy, ';'));
    JoinSplit(once, ';');
    JoinSplit(Rewrite(JsSpace, once), ';');
  }

  // ---------------------------------------------------------------------------
  // The code
  // ---------------------------------------------------------------------------

  ghost predicate Changes(ws: Space, ds: seq<string>)
    requires |ds| > 0
  {
    var script := Find(ws, SCRIPT_SRC, ds);
    if script < |ds| then !HasBlob(ws, ds[script]) else Find(ws, DEFAULT_SRC, ds) < |ds|
  }

  lemma ChangesPieces(ws: Space, ds: seq<string>)
    requires |ds| > 0 && Sane(ws)
    ensures Changes(ws, ds) <==> RewritePieces(ws, ds) != ds
  {
    var script, fallback := Find(ws, SCRIPT_SRC, ds), Find(ws, DEFAULT_SRC, ds);
    var ds' := RewritePieces(ws, ds);
    if script < |ds| && !HasBlob(ws, ds[script]) {
      WithBlobIsScript(ws, ds[script]);
      assert ds'[script] != ds[script];
    } else if script == |ds| && fallback < |ds| {
      DerivedIsScript(ws, ds[fallback]);
      assert Matches(ws, SCRIPT_SRC, ds'[|ds'| - 1]);
    }
  }

  lemma ChangesText(policy: string)
    ensures Changes(JsSpace, Split(policy, ';')) <==> Rewrite(JsSpace, policy) != policy
  {
    RewriteIsByPieces(JsSpace, policy);
    ChangesPieces(JsSpace, Split(policy, ';'));
    JoinSplit(policy, ';');
    JoinSplit(Rewrite(JsSpace, policy), ';');
  }

  method FindIndex(name: string, directives: seq<string>) returns (k: nat)
    ensures k == Find(JsSpace, name, directives)
  {
    k := 0;
    while k < |directives| && !Matches(JsSpace, name, directives[k])
      invariant k <= |directives|
      invariant forall i :: 0 <= i < k ==> !Matches(JsSpace, name, directives[i])
    {
      k := k + 1;
    }
    FindIs(JsSpace, name, directives, k);
  }

  /** The map over one header value; `amended` is what decides whether the headers are
      handed back to the browser at all. */
  method RewritePolicy(policy: string) returns (r: string, amended: bool)
    ensures r == Rewrite(JsSpace, policy)
    ensures amended <==> r != policy
  {
    ChangesText(policy);
    var directives := Split(policy, ';');
    var script := FindIndex(SCRIPT_SRC, directives);
    if script < |directives| {
      if HasBlob(JsSpace, directives[script]) {
        return policy, false;
      }
      directives := directives[script := WithBlob(JsSpace, directives[script])];
      return Join(directives, ';'), true;
    }
    var fallback := FindIndex(DEFAULT_SRC, directives);
    if fallback == |directives| {
      return policy, false;
    }
    r := DropSemicolon(TrimEnd(JsSpace, policy)) + ";" + Derived(JsSpace, directives[fallback]);
    amended := true;
  }
}
