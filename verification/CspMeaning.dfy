/**
 What the policy rewrite of `browser-host/main.js` means: the rewritten text and the text it
 came from, both read by section 2.2.1 of Content Security Policy Level 3, for every text.

 The standard separates words at ASCII white space and passes over a directive that is not
 ASCII; JavaScript trims more than that. Each result says exactly where the two differ.
 */
module CspMeaning {
  import opened Basics
  import opened Text
  import opened CspWords
  import opened CspRewrite

  // ---------------------------------------------------------------------------
  // Policies as the standard reads them
  // ---------------------------------------------------------------------------

  /** A directive: its name as written, and its value. */
  datatype Directive = Directive(raw: string, value: seq<string>)

  predicate Ascii(s: string) {
    forall i :: 0 <= i < |s| ==> s[i] < 128 as char
  }

  /** One piece of a serialized policy: nothing if it is blank or not ASCII. */
  function ParsePiece(d: string): seq<Directive> {
    var words := Words(AsciiSpace, d);
    if words == [] || !Ascii(d) then [] else [Directive(words[0], words[1..])]
  }

  function ParsePieces(ds: seq<string>): seq<Directive> {
    if ds == [] then [] else ParsePiece(ds[0]) + ParsePieces(ds[1..])
  }

  function ParsePolicy(policy: string): seq<Directive> {
    ParsePieces(Split(policy, ';'))
  }

  predicate Named(name: string, d: Directive) {
    |d.raw| == |name| && StartsWith(name, d.raw)
  }

  /** The standard keeps the first directive of each name. */
  function Effective(name: string, ds: seq<Directive>): Option<seq<string>> {
    if ds == [] then None
    else if Named(name, ds[0]) then Some(ds[0].value)
    else Effective(name, ds[1..])
  }

  function Allow(d: Directive): Directive {
    d.(value := d.value + [BLOB])
  }

  /** The scheme source `blob:`, in any case. Anything longer is another source, or none. */
  predicate BlobSource(w: string) {
    |w| == |BLOB| && StartsWith(BLOB, w)
  }

  predicate AllowsBlob(value: seq<string>) {
    exists i :: 0 <= i < |value| && BlobSource(value[i])
  }

  /** The policy has an effective `script-src`, and that allows blobs. */
  predicate ScriptAllowsBlob(policy: string) {
    var script := Effective(SCRIPT_SRC, ParsePolicy(policy));
    script.Some? && AllowsBlob(script.value)
  }

  /** A header value, as section 2.2.2 reads it: a list of policies between commas. */
  function ParseList(value: string): seq<seq<Directive>> {
    var policies := Split(value, ',');
    seq(|policies|, i requires 0 <= i < |policies| => ParsePolicy(policies[i]))
  }

  lemma {:induction false} ParseConcatenation(a: seq<string>, b: seq<string>)
    ensures ParsePieces(a + b) == ParsePieces(a) + ParsePieces(b)
  {
    if a == [] {
      assert a + b == b;
    } else {
      assert (a + b)[1..] == a[1..] + b;
      ParseConcatenation(a[1..], b);
    }
  }

  lemma ParseSnoc(ds: seq<string>, d: string)
    ensures ParsePieces(ds + [d]) == ParsePieces(ds) + ParsePiece(d)
  {
    ParseConcatenation(ds, [d]);
    assert [d][1..] == [];
  }

  lemma ParseAt(ds: seq<string>, k: nat, d: string)
    requires k < |ds|
    ensures ParsePieces(ds[k := d]) == ParsePieces(ds[..k]) + ParsePiece(d) + ParsePieces(ds[k + 1..])
  {
    assert ds[k := d] == ds[..k] + ([d] + ds[k + 1..]);
    ParseConcatenation(ds[..k], [d] + ds[k + 1..]);
    assert ([d] + ds[k + 1..])[1..] == ds[k + 1..];
  }

  lemma ParseUnchanged(ds: seq<string>, k: nat)
    requires k < |ds|
    ensures ParsePieces(ds) == ParsePieces(ds[..k]) + ParsePiece(ds[k]) + ParsePieces(ds[k + 1..])
  {
    ParseAt(ds, k, ds[k]);
    assert ds[k := ds[k]] == ds;
  }

  lemma {:induction false} EffectiveConcatenation(name: string, a: seq<Directive>, b: seq<Directive>)
    ensures Effective(name, a + b) == if Effective(name, a).Some? then Effective(name, a) else Effective(name, b)
  {
    if a == [] {
      assert a + b == b;
    } else {
      assert (a + b)[1..] == a[1..] + b;
      EffectiveConcatenation(name, a[1..], b);
    }
  }

  lemma EffectiveAround(name: string, a: seq<Directive>, x: seq<Directive>, b: seq<Directive>)
    ensures Effective(name, a + x + b)
            == if Effective(name, a).Some? then Effective(name, a)
               else if Effective(name, x).Some? then Effective(name, x) else Effective(name, b)
  {
    EffectiveConcatenation(name, a + x, b);
    EffectiveConcatenation(name, a, x);
  }

  // ---------------------------------------------------------------------------
  // One piece
  // ---------------------------------------------------------------------------

  lemma SpellScript()
    ensures SolidName(JsSpace, SCRIPT_SRC) && Unspaced(AsciiSpace, SCRIPT_SRC) && Ascii(SCRIPT_SRC)
  {
  }

  lemma BlobIsNoScript(w: string)
    requires StartsWith(SCRIPT_SRC, w)
    ensures !(BLOB <= w)
  {
    assert Lower(w[0]) == 's' && BLOB[0] == 'b';
  }

  lemma SpellDefault()
    ensures SolidName(JsSpace, DEFAULT_SRC) && Unspaced(AsciiSpace, DEFAULT_SRC) && Ascii(DEFAULT_SRC)
  {
  }

  lemma SpellBlob()
    ensures Unspaced(AsciiSpace, BLOB) && Ascii(BLOB) && Ascii(" ") && AsciiSpace(' ')
  {
  }

  lemma AsciiIsJs()
    ensures Narrower(AsciiSpace, JsSpace)
  {
  }

  /** Appending the source appends a word, to what trimming leaves. */
  lemma WithBlobParsed(d: string)
    ensures var e := TrimEnd(JsSpace, d);
            var words := Words(AsciiSpace, e) + [BLOB];
            ParsePiece(WithBlob(JsSpace, d)) == if Ascii(e) then [Directive(words[0], words[1..])] else []
  {
    var e := TrimEnd(JsSpace, d);
    SpellBlob();
    WordsAppend(AsciiSpace, e, ' ', BLOB);
    OneWord(AsciiSpace, BLOB);
    AsciiAround(e, BLOB);
    assert WithBlob(JsSpace, d) == e + [' '] + BLOB;
  }

  lemma AsciiAround(a: string, b: string)
    requires Ascii(b)
    ensures Ascii(a + [' '] + b) <==> Ascii(a)
  {
    var s := a + [' '] + b;
    assert forall i :: 0 <= i < |a| ==> s[i] == a[i];
  }

  lemma DerivedParsed(d: string)
    requires Matches(JsSpace, DEFAULT_SRC, d)
    ensures var sources := Sources(JsSpace, d);
            ParsePiece(Derived(JsSpace, d))
            == if Ascii(sources) then [Directive(SCRIPT_SRC, Words(AsciiSpace, sources) + [BLOB])] else []
  {
    var sources := Sources(JsSpace, d);
    SpellScript();
    SpellBlob();
    SpelledWords(AsciiSpace, SCRIPT_SRC, sources, BLOB);
    FirstOfThree(SCRIPT_SRC, Words(AsciiSpace, sources), BLOB);
    AsciiSpelled(SCRIPT_SRC, sources, BLOB);
  }

  lemma AsciiSpelled(name: string, sources: string, word: string)
    requires Ascii(name) && Ascii(word)
    ensures Ascii(" " + name + " " + sources + " " + word) <==> Ascii(sources)
  {
    var s := " " + name + " " + sources + " " + word;
    assert forall i :: 0 <= i < |sources| ==> s[|name| + 2 + i] == sources[i];
  }

  /** Only ASCII white space is trimmed from it, at either end, and it is ASCII itself. */
  predicate Clean(d: string) {
    Ascii(d) && Blank(AsciiSpace, Lead(JsSpace, d)) && Blank(AsciiSpace, Tail(JsSpace, d))
  }

  /** The standard sees the directive that the code looked for. */
  predicate Seen(name: string, d: string) {
    ParsePiece(d) != [] && StartsWith(name, ParsePiece(d)[0].raw)
  }

  lemma SeenIs(name: string, d: string)
    requires SolidName(JsSpace, name)
    ensures Seen(name, d) <==> Ascii(d) && Matches(JsSpace, name, d) && Blank(AsciiSpace, Lead(JsSpace, d))
  {
    AsciiIsJs();
    NameIsFirstWord(AsciiSpace, JsSpace, name, d);
  }

  lemma ConsSnoc(words: seq<string>, word: string)
    requires words != []
    ensures (words + [word])[0] == words[0] && (words + [word])[1..] == words[1..] + [word]
  {
  }

  lemma ConsEqual(a: seq<string>, b: seq<string>)
    requires a != [] && b != []
    ensures a == b <==> a[0] == b[0] && a[1..] == b[1..]
  {
    assert a == [a[0]] + a[1..] && b == [b[0]] + b[1..];
  }

  lemma SnocEqual(a: seq<string>, b: seq<string>, word: string)
    ensures a + [word] == b + [word] <==> a == b
  {
    if a + [word] == b + [word] {
      assert a == (a + [word])[..|a|] && b == (b + [word])[..|b|];
    }
  }

  lemma MatchedHasWords(name: string, d: string)
    requires SolidName(JsSpace, name) && Matches(JsSpace, name, d)
    ensures Words(AsciiSpace, TrimEnd(JsSpace, d)) != []
  {
    AsciiIsJs();
    var e := TrimEnd(JsSpace, d);
    TrimEndSpec(JsSpace, d);
    TrimBlankIsEmpty(JsSpace, d);
    WordsLastChar(AsciiSpace, e);
  }

  /** The selected piece is read as a directive of the name looked for, and gains exactly
      the one source, if and only if it is ASCII and only ASCII white space surrounds it. */
  lemma SelectedGainsBlob(d: string)
    requires Matches(JsSpace, SCRIPT_SRC, d)
    ensures (Seen(SCRIPT_SRC, d) && ParsePiece(WithBlob(JsSpace, d)) == [Allow(ParsePiece(d)[0])]) <==> Clean(d)
  {
    var e := TrimEnd(JsSpace, d);
    var was, words := Words(AsciiSpace, d), Words(AsciiSpace, e);
    SpellScript();
    SeenIs(SCRIPT_SRC, d);
    WithBlobParsed(d);
    MatchedHasWords(SCRIPT_SRC, d);
    ConsSnoc(words, BLOB);
    AsciiIsJs();
    TailKeepsWords(AsciiSpace, JsSpace, d);
    TrimEndSpec(JsSpace, d);
    if Seen(SCRIPT_SRC, d) {
      SnocEqual(words[1..], was[1..], BLOB);
      ConsEqual(words, was);
    }
  }

  lemma SourcesAfter(d: string)
    requires Matches(JsSpace, DEFAULT_SRC, d)
    ensures Sources(JsSpace, d) == Trim(JsSpace, After(JsSpace, DEFAULT_SRC, d))
  {
    var y := TrimStart(JsSpace, d);
    var rest, after := Trim(JsSpace, d)[|DEFAULT_SRC|..], After(JsSpace, DEFAULT_SRC, d);
    TrimEndSpec(JsSpace, y);
    assert forall i :: 0 <= i < |after| ==> after[i] == y[|DEFAULT_SRC| + i];
    TrimBlankEnd(JsSpace, after, rest);
  }

  /** The piece is ASCII and has exactly the name `default-src`. */
  predicate NamesDefault(d: string) {
    Ascii(d) && NameAlone(AsciiSpace, JsSpace, DEFAULT_SRC, d)
  }

  /** The same of the piece a new directive is derived from: it has the very name, and only
      ASCII white space stands before the name, after it and at the end. */
  predicate CleanDefault(d: string)
    requires Matches(JsSpace, DEFAULT_SRC, d)
  {
    var after := After(JsSpace, DEFAULT_SRC, d);
    && NamesDefault(d)
    && Blank(AsciiSpace, Lead(JsSpace, after)) && Blank(AsciiSpace, Tail(JsSpace, after))
  }

  lemma ParsedNamed(name: string, d: string)
    requires SolidName(JsSpace, name)
    ensures Effective(name, ParsePiece(d)).Some? <==> Ascii(d) && NameAlone(AsciiSpace, JsSpace, name, d)
    ensures Ascii(d) && NameAlone(AsciiSpace, JsSpace, name, d) ==>
              Effective(name, ParsePiece(d)) == Some(Words(AsciiSpace, After(JsSpace, name, d)))
  {
    AsciiIsJs();
    NameIsWholeWord(AsciiSpace, JsSpace, name, d);
    EffectiveOne(name, d);
  }

  lemma EffectiveOne(name: string, d: string)
    ensures var p := ParsePiece(d);
            Effective(name, p) == if p != [] && Named(name, p[0]) then Some(p[0].value) else None
  {
    var p := ParsePiece(d);
    if p != [] {
      assert p[1..] == [];
    }
  }

  /** The derived directive has exactly the sources of the `default-src` it was derived
      from, and `blob:`, if and only if that piece is such. */
  lemma DerivedTakesDefault(d: string)
    requires Matches(JsSpace, DEFAULT_SRC, d)
    ensures (exists value :: Effective(DEFAULT_SRC, ParsePiece(d)) == Some(value)
                             && ParsePiece(Derived(JsSpace, d)) == [Directive(SCRIPT_SRC, value + [BLOB])])
            <==> CleanDefault(d)
  {
    SpellDefault();
    ParsedNamed(DEFAULT_SRC, d);
    DerivedParsed(d);
    if NamesDefault(d) {
      SourcesCopied(d);
      assert Effective(DEFAULT_SRC, ParsePiece(d)) == Some(Words(AsciiSpace, After(JsSpace, DEFAULT_SRC, d)));
    }
  }

  lemma SourcesCopied(d: string)
    requires Matches(JsSpace, DEFAULT_SRC, d) && NamesDefault(d)
    ensures var sources, after := Words(AsciiSpace, Sources(JsSpace, d)), Words(AsciiSpace, After(JsSpace, DEFAULT_SRC, d));
            && Ascii(Sources(JsSpace, d))
            && (sources + [BLOB] == after + [BLOB] <==> CleanDefault(d))
  {
    var after := After(JsSpace, DEFAULT_SRC, d);
    AsciiIsJs();
    SourcesAfter(d);
    TrimKeepsWords(AsciiSpace, JsSpace, after);
    SnocEqual(Words(AsciiSpace, Sources(JsSpace, d)), Words(AsciiSpace, after), BLOB);
    AsciiSources(d);
  }

  lemma AsciiSources(d: string)
    requires Matches(JsSpace, DEFAULT_SRC, d) && Ascii(d)
    ensures Ascii(Sources(JsSpace, d))
  {
    AsciiTrim(d);
    AsciiTrim(Trim(JsSpace, d)[|DEFAULT_SRC|..]);
  }

  lemma AsciiTrim(s: string)
    requires Ascii(s)
    ensures Ascii(Trim(JsSpace, s)) && Ascii(TrimEnd(JsSpace, s))
  {
    TrimStartSpec(JsSpace, s);
    TrimEndSpec(JsSpace, s);
    TrimEndSpec(JsSpace, TrimStart(JsSpace, s));
  }

  // ---------------------------------------------------------------------------
  // The piece whose end is trimmed
  // ---------------------------------------------------------------------------

  /** Nothing but ASCII white space ends it; or it is passed over anyway, because what comes
      before that is not ASCII, or is nothing and the white space is not ASCII. */
  predicate EndKept(d: string) {
    var e := TrimEnd(JsSpace, d);
    Blank(AsciiSpace, Tail(JsSpace, d)) || !Ascii(e) || (e == "" && !Ascii(d))
  }

  lemma BlankTailAscii(d: string)
    requires Blank(AsciiSpace, Tail(JsSpace, d))
    ensures Ascii(d) <==> Ascii(TrimEnd(JsSpace, d))
  {
    TrimEndSpec(JsSpace, d);
    BlankTail(AsciiSpace, JsSpace, d);
    var e := TrimEnd(JsSpace, d);
    assert forall i :: 0 <= i < |e| ==> d[i] == e[i];
    assert forall i :: |e| <= i < |d| ==> d[i] < 128 as char;
  }

  lemma TrimmedWords(d: string)
    ensures var e := TrimEnd(JsSpace, d); Words(AsciiSpace, e) == [] <==> e == ""
  {
    AsciiIsJs();
    var e := TrimEnd(JsSpace, d);
    TrimEndSpec(JsSpace, d);
    if e != "" {
      WordsLastChar(AsciiSpace, e);
    }
  }

  /** Trimming the end of a piece keeps what the standard reads exactly then. */
  lemma EndKeptIs(d: string)
    ensures ParsePiece(TrimEnd(JsSpace, d)) == ParsePiece(d) <==> EndKept(d)
  {
    var e := TrimEnd(JsSpace, d);
    AsciiIsJs();
    TailKeepsWords(AsciiSpace, JsSpace, d);
    TrimmedWords(d);
    if Ascii(d) {
      AsciiTrim(d);
    }
    if Blank(AsciiSpace, Tail(JsSpace, d)) {
      BlankTailAscii(d);
    } else if Words(AsciiSpace, e) != [] && Words(AsciiSpace, d) != [] {
      ConsEqual(Words(AsciiSpace, e), Words(AsciiSpace, d));
    }
  }

  /** A name without white space of any kind in it. */
  predicate ProperName(name: string) {
    forall i :: 0 <= i < |name| ==> !JsSpace(name[i])
  }

  lemma NamedIsClean(name: string, raw: string)
    requires ProperName(name) && |raw| == |name| && StartsWith(name, raw)
    ensures forall i :: 0 <= i < |raw| ==> !JsSpace(raw[i])
  {
    assert forall c :: JsSpace(c) ==> Lower(c) == c;
  }

  lemma NamedSurvives(name: string, d: string)
    requires ProperName(name) && Effective(name, ParsePiece(d)).Some?
    ensures var e := TrimEnd(JsSpace, d);
            ParsePiece(e) != [] && ParsePiece(e)[0].raw == ParsePiece(d)[0].raw && Effective(name, ParsePiece(e)).Some?
  {
    EffectiveOne(name, d);
    EffectiveOne(name, TrimEnd(JsSpace, d));
    NamedIsClean(name, ParsePiece(d)[0].raw);
    AsciiTrim(d);
    TrimEndSpec(JsSpace, d);
    FirstWordSurvives(AsciiSpace, JsSpace, d, TrimEnd(JsSpace, d));
  }

  /** For one name: kept exactly if the piece is kept, or does not speak of the name. */
  lemma EndKeptFor(name: string, d: string)
    requires ProperName(name)
    ensures var e := TrimEnd(JsSpace, d);
            Effective(name, ParsePiece(e)) == Effective(name, ParsePiece(d))
            <==> EndKept(d) || Effective(name, ParsePiece(e)) == None
  {
    var e := TrimEnd(JsSpace, d);
    EndKeptIs(d);
    EffectiveOne(name, d);
    EffectiveOne(name, e);
    if Effective(name, ParsePiece(d)).Some? {
      NamedSurvives(name, d);
    }
  }

  /** A piece the code takes for a `script-src` sets no directive of another name. */
  lemma NotAnother(name: string, d: string)
    requires ProperName(name) && !StartsWith(SCRIPT_SRC, name) && Matches(JsSpace, SCRIPT_SRC, d)
    ensures Effective(name, ParsePiece(d)) == None
  {
    EffectiveOne(name, d);
    if Effective(name, ParsePiece(d)).Some? {
      var raw := ParsePiece(d)[0].raw;
      NamedIsClean(name, raw);
      SpellScript();
      AsciiIsJs();
      WordsNonempty(AsciiSpace, d);
      CleanFirstWord(AsciiSpace, JsSpace, d);
      SeenIs(SCRIPT_SRC, d);
      NotNamed(name, raw);
    }
  }

  lemma NotNamed(name: string, raw: string)
    requires StartsWith(SCRIPT_SRC, raw) && !StartsWith(SCRIPT_SRC, name)
    ensures !(|raw| == |name| && StartsWith(name, raw))
  {
    assert forall i :: 0 <= i < |raw| ==> Lower(Lower(raw[i])) == Lower(raw[i]);
  }

  lemma {:induction false} NoneEffective(name: string, ds: seq<string>)
    requires SolidName(JsSpace, name) && forall i :: 0 <= i < |ds| ==> !Matches(JsSpace, name, ds[i])
    ensures Effective(name, ParsePieces(ds)) == None
  {
    if ds != [] {
      NoneEffective(name, ds[1..]);
      ParsedNamed(name, ds[0]);
      EffectiveConcatenation(name, ParsePiece(ds[0]), ParsePieces(ds[1..]));
    }
  }

  // ---------------------------------------------------------------------------
  // Main results: every policy
  // ---------------------------------------------------------------------------

  lemma ParseTidyEnd(ds: seq<string>)
    requires |ds| > 0
    ensures var n := |ds| - 1;
            ParsePieces(TidyEnd(JsSpace, ds)) == ParsePieces(ds[..n]) + ParsePiece(TrimEnd(JsSpace, ds[n]))
  {
    var n := |ds| - 1;
    var last := TrimEnd(JsSpace, ds[n]);
    if last == "" && n > 0 {
      assert ParsePiece(last) == [];
      assert ParsePieces(ds[..n]) + [] == ParsePieces(ds[..n]);
    } else {
      assert ds[n := last] == ds[..n] + [last];
      ParseSnoc(ds[..n], last);
    }
  }

  lemma LastApart(ds: seq<string>)
    requires |ds| > 0
    ensures ds == ds[..|ds| - 1] + [ds[|ds| - 1]]
  {
  }

  lemma ParseLast(ds: seq<string>)
    requires |ds| > 0
    ensures ParsePieces(ds) == ParsePieces(ds[..|ds| - 1]) + ParsePiece(ds[|ds| - 1])
  {
    LastApart(ds);
    ParseSnoc(ds[..|ds| - 1], ds[|ds| - 1]);
  }

  lemma CancelAround(a: seq<Directive>, x: seq<Directive>, y: seq<Directive>, b: seq<Directive>)
    requires |x| <= 1 && |y| <= 1
    ensures a + x + b == a + y + b <==> x == y
  {
    if a + x + b == a + y + b {
      assert |x| == |y|;
      assert x == (a + x + b)[|a|..|a| + |x|] && y == (a + y + b)[|a|..|a| + |y|];
    }
  }

  lemma RewriteParsed(policy: string)
    ensures ParsePolicy(Rewrite(JsSpace, policy)) == ParsePieces(RewritePieces(JsSpace, Split(policy, ';')))
  {
    AsciiIsJs();
    RewriteIsByPieces(JsSpace, policy);
  }

  /** For every text: the rewritten policy reads as the original one with nothing changed but
      what the selected piece reads as; or with what the derived piece reads as at its end,
      and nothing else changed if and only if the end of the last piece was kept. */
  lemma RewriteAmends(policy: string)
    ensures var ds := Split(policy, ';');
            var k, f, n := Find(JsSpace, SCRIPT_SRC, ds), Find(JsSpace, DEFAULT_SRC, ds), |ds| - 1;
            var before, after := ParsePolicy(policy), ParsePolicy(Rewrite(JsSpace, policy));
            if k < |ds| then
              var d := if HasBlob(JsSpace, ds[k]) then ds[k] else WithBlob(JsSpace, ds[k]);
              && before == ParsePieces(ds[..k]) + ParsePiece(ds[k]) + ParsePieces(ds[k + 1..])
              && after == ParsePieces(ds[..k]) + ParsePiece(d) + ParsePieces(ds[k + 1..])
            else if f < |ds| then
              var added := ParsePiece(Derived(JsSpace, ds[f]));
              && before == ParsePieces(ds[..n]) + ParsePiece(ds[n])
              && after == ParsePieces(ds[..n]) + ParsePiece(TrimEnd(JsSpace, ds[n])) + added
              && (after == before + added <==> EndKept(ds[n]))
            else after == before
  {
    var ds := Split(policy, ';');
    var k, f, n := Find(JsSpace, SCRIPT_SRC, ds), Find(JsSpace, DEFAULT_SRC, ds), |ds| - 1;
    RewriteParsed(policy);
    if k < |ds| {
      ParseUnchanged(ds, k);
      ParseAt(ds, k, WithBlob(JsSpace, ds[k]));
    } else if f < |ds| {
      ParseLast(ds);
      ParseTidyEnd(ds);
      ParseSnoc(TidyEnd(JsSpace, ds), Derived(JsSpace, ds[f]));
      EndKeptIs(ds[n]);
      CancelAround(ParsePieces(ds[..n]), ParsePiece(ds[n]), ParsePiece(TrimEnd(JsSpace, ds[n])), ParsePiece(Derived(JsSpace, ds[f])));
    }
  }

  lemma WithBlobMatches(d: string)
    requires Matches(JsSpace, SCRIPT_SRC, d)
    ensures Matches(JsSpace, SCRIPT_SRC, WithBlob(JsSpace, d))
  {
    WithBlobIsScript(JsSpace, d);
  }

  /** The last piece is the one that decides what `name` means, once its end is trimmed. */
  predicate LastDecides(name: string, ds: seq<string>)
    requires |ds| > 0
  {
    var n := |ds| - 1;
    && Effective(name, ParsePieces(ds[..n])) == None
    && Effective(name, ParsePiece(TrimEnd(JsSpace, ds[n]))).Some?
  }

  /** For every text and every name but those that begin with `script-src`: the directive
      keeps its value, unless a directive is derived, the name is decided by the last piece,
      and that piece's end is not kept; and then it does not. */
  lemma OtherDirectivesKept(policy: string, name: string)
    requires ProperName(name) && !StartsWith(SCRIPT_SRC, name)
    ensures var ds := Split(policy, ';');
            var derives := Find(JsSpace, SCRIPT_SRC, ds) == |ds| && Find(JsSpace, DEFAULT_SRC, ds) < |ds|;
            Effective(name, ParsePolicy(Rewrite(JsSpace, policy))) == Effective(name, ParsePolicy(policy))
            <==> !(derives && LastDecides(name, ds) && !EndKept(ds[|ds| - 1]))
  {
    var ds := Split(policy, ';');
    var k, f, n := Find(JsSpace, SCRIPT_SRC, ds), Find(JsSpace, DEFAULT_SRC, ds), |ds| - 1;
    RewriteAmends(policy);
    if k < |ds| {
      var d := if HasBlob(JsSpace, ds[k]) then ds[k] else WithBlob(JsSpace, ds[k]);
      WithBlobMatches(ds[k]);
      NotAnother(name, ds[k]);
      NotAnother(name, d);
      EffectiveAround(name, ParsePieces(ds[..k]), ParsePiece(ds[k]), ParsePieces(ds[k + 1..]));
      EffectiveAround(name, ParsePieces(ds[..k]), ParsePiece(d), ParsePieces(ds[k + 1..]));
    } else if f < |ds| {
      var e := TrimEnd(JsSpace, ds[n]);
      DerivedMatches(ds[f]);
      NotAnother(name, Derived(JsSpace, ds[f]));
      EffectiveAround(name, ParsePieces(ds[..n]), ParsePiece(e), ParsePiece(Derived(JsSpace, ds[f])));
      EffectiveConcatenation(name, ParsePieces(ds[..n]), ParsePiece(ds[n]));
      EndKeptFor(name, ds[n]);
    }
  }

  lemma DerivedMatches(d: string)
    requires Matches(JsSpace, DEFAULT_SRC, d)
    ensures Matches(JsSpace, SCRIPT_SRC, Derived(JsSpace, d))
  {
    DerivedIsScript(JsSpace, d);
  }

  /** What remains of the selected piece is ASCII and has exactly the name `script-src`. */
  predicate NamesScript(d: string) {
    var e := TrimEnd(JsSpace, d);
    Ascii(e) && NameAlone(AsciiSpace, JsSpace, SCRIPT_SRC, e)
  }

  lemma SelectedEffective(d: string)
    requires Matches(JsSpace, SCRIPT_SRC, d)
    ensures var e := TrimEnd(JsSpace, d);
            && Words(AsciiSpace, e) != []
            && Effective(SCRIPT_SRC, ParsePiece(WithBlob(JsSpace, d)))
               == (if NamesScript(d) then Some(Words(AsciiSpace, e)[1..] + [BLOB]) else None)
            && (!NamesScript(d) ==> Effective(SCRIPT_SRC, ParsePiece(d)) == None)
            && (NamesScript(d) && Clean(d) ==> Effective(SCRIPT_SRC, ParsePiece(d)) == Some(Words(AsciiSpace, e)[1..]))
  {
    var e := TrimEnd(JsSpace, d);
    SpellScript();
    AsciiIsJs();
    MatchedHasWords(SCRIPT_SRC, d);
    WithBlobParsed(d);
    ConsSnoc(Words(AsciiSpace, e), BLOB);
    EffectiveOne(SCRIPT_SRC, WithBlob(JsSpace, d));
    NameIsWholeWord(AsciiSpace, JsSpace, SCRIPT_SRC, e);
    EffectiveOne(SCRIPT_SRC, d);
    TailKeepsWords(AsciiSpace, JsSpace, d);
    ScriptIsProper();
    if Effective(SCRIPT_SRC, ParsePiece(d)).Some? {
      NamedSurvives(SCRIPT_SRC, d);
    }
  }

  lemma ScriptIsProper()
    ensures ProperName(SCRIPT_SRC)
  {
  }

  /** The effective `script-src` when a piece is selected. */
  lemma SelectedSource(policy: string, ds: seq<string>, k: nat)
    requires ds == Split(policy, ';') && k == Find(JsSpace, SCRIPT_SRC, ds) < |ds| && !HasBlob(JsSpace, ds[k])
    ensures var before := Effective(SCRIPT_SRC, ParsePolicy(policy));
            var after := Effective(SCRIPT_SRC, ParsePolicy(Rewrite(JsSpace, policy)));
            var words := Words(AsciiSpace, TrimEnd(JsSpace, ds[k]));
            if NamesScript(ds[k]) then
              && words != [] && after == Some(words[1..] + [BLOB])
              && (Clean(ds[k]) ==> before == Some(words[1..]))
            else after == before
  {
    SpellScript();
    RewriteAmends(policy);
    NoneEffective(SCRIPT_SRC, ds[..k]);
    SelectedEffective(ds[k]);
    var a, b := ParsePieces(ds[..k]), ParsePieces(ds[k + 1..]);
    EffectiveAround(SCRIPT_SRC, a, ParsePiece(ds[k]), b);
    EffectiveAround(SCRIPT_SRC, a, ParsePiece(WithBlob(JsSpace, ds[k])), b);
  }

  /** And when one is derived. */
  lemma DerivedSource(policy: string, ds: seq<string>, f: nat)
    requires ds == Split(policy, ';') && Find(JsSpace, SCRIPT_SRC, ds) == |ds| && f == Find(JsSpace, DEFAULT_SRC, ds) < |ds|
    ensures var sources := Sources(JsSpace, ds[f]);
            && Effective(SCRIPT_SRC, ParsePolicy(policy)) == None
            && Effective(SCRIPT_SRC, ParsePolicy(Rewrite(JsSpace, policy)))
               == if Ascii(sources) then Some(Words(AsciiSpace, sources) + [BLOB]) else None
  {
    var n := |ds| - 1;
    SpellScript();
    RewriteAmends(policy);
    NoneEffective(SCRIPT_SRC, ds);
    NoneEffective(SCRIPT_SRC, ds[..n]);
    DerivedEffective(ds[..n], ds[n], ds[f]);
  }

  /** What the effective `script-src` becomes, for every text. When one is selected it
      becomes the sources of the trimmed piece and `blob:` if that piece names it, which is
      what it was before and `blob:` when the piece is clean; and it stays what it was if
      the piece does not name it. When one is derived there was none, and it has the sources
      of the piece it is derived from, and `blob:`, if those are ASCII. */
  lemma ScriptSourceGainsBlob(policy: string)
    ensures var ds := Split(policy, ';');
            var k, f := Find(JsSpace, SCRIPT_SRC, ds), Find(JsSpace, DEFAULT_SRC, ds);
            var before := Effective(SCRIPT_SRC, ParsePolicy(policy));
            var after := Effective(SCRIPT_SRC, ParsePolicy(Rewrite(JsSpace, policy)));
            if k < |ds| && !HasBlob(JsSpace, ds[k]) then
              var words := Words(AsciiSpace, TrimEnd(JsSpace, ds[k]));
              if NamesScript(ds[k]) then
                && words != [] && after == Some(words[1..] + [BLOB])
                && (Clean(ds[k]) ==> before.Some? && after == Some(before.value + [BLOB]))
              else after == before
            else if k == |ds| && f < |ds| then
              var sources := Sources(JsSpace, ds[f]);
              before == None && after == if Ascii(sources) then Some(Words(AsciiSpace, sources) + [BLOB]) else None
            else after == before
  {
    var ds := Split(policy, ';');
    var k, f := Find(JsSpace, SCRIPT_SRC, ds), Find(JsSpace, DEFAULT_SRC, ds);
    if k < |ds| && !HasBlob(JsSpace, ds[k]) {
      SelectedSource(policy, ds, k);
    } else if k == |ds| && f < |ds| {
      DerivedSource(policy, ds, f);
    }
  }

  lemma DerivedEffective(before: seq<string>, last: string, d: string)
    requires Effective(SCRIPT_SRC, ParsePieces(before)) == None
    requires !Matches(JsSpace, SCRIPT_SRC, last) && Matches(JsSpace, DEFAULT_SRC, d)
    ensures var sources := Sources(JsSpace, d);
            var after := ParsePieces(before) + ParsePiece(TrimEnd(JsSpace, last)) + ParsePiece(Derived(JsSpace, d));
            Effective(SCRIPT_SRC, after) == if Ascii(sources) then Some(Words(AsciiSpace, sources) + [BLOB]) else None
  {
    TrimmedIsNoScript(last);
    DerivedNamesScript(d);
    AddedDecides(SCRIPT_SRC, ParsePieces(before), ParsePiece(TrimEnd(JsSpace, last)), ParsePiece(Derived(JsSpace, d)));
  }

  lemma AddedDecides(name: string, a: seq<Directive>, x: seq<Directive>, b: seq<Directive>)
    requires Effective(name, a) == None && Effective(name, x) == None
    ensures Effective(name, a + x + b) == Effective(name, b)
  {
    EffectiveAround(name, a, x, b);
  }

  lemma TrimmedIsNoScript(d: string)
    requires !Matches(JsSpace, SCRIPT_SRC, d)
    ensures Effective(SCRIPT_SRC, ParsePiece(TrimEnd(JsSpace, d))) == None
  {
    SpellScript();
    TrimEndKeepsName(JsSpace, SCRIPT_SRC, d);
    ParsedNamed(SCRIPT_SRC, TrimEnd(JsSpace, d));
  }

  lemma DerivedNamesScript(d: string)
    requires Matches(JsSpace, DEFAULT_SRC, d)
    ensures var sources := Sources(JsSpace, d);
            Effective(SCRIPT_SRC, ParsePiece(Derived(JsSpace, d)))
            == if Ascii(sources) then Some(Words(AsciiSpace, sources) + [BLOB]) else None
  {
    DerivedParsed(d);
    EffectiveOne(SCRIPT_SRC, Derived(JsSpace, d));
    ScriptNamesItself();
  }

  lemma ScriptNamesItself()
    ensures StartsWith(SCRIPT_SRC, SCRIPT_SRC)
  {
  }

  /** Where the sources of a derived `script-src` come from. If the piece has the very name
      `default-src`, it decides the effective `default-src`, and the new directive has
      exactly those sources and `blob:` if and only if the piece is clean. If it does not,
      the effective `default-src` is some later piece's, or there is none. */
  lemma DefaultSourceCopied(policy: string, ds: seq<string>, f: nat)
    requires ds == Split(policy, ';') && Find(JsSpace, SCRIPT_SRC, ds) == |ds| && f == Find(JsSpace, DEFAULT_SRC, ds) < |ds|
    ensures var default' := Effective(DEFAULT_SRC, ParsePolicy(policy));
            var script := Effective(SCRIPT_SRC, ParsePolicy(Rewrite(JsSpace, policy)));
            if NamesDefault(ds[f]) then
              && default' == Some(Words(AsciiSpace, After(JsSpace, DEFAULT_SRC, ds[f])))
              && (script == Some(default'.value + [BLOB]) <==> CleanDefault(ds[f]))
            else default' == Effective(DEFAULT_SRC, ParsePieces(ds[f + 1..]))
  {
    DerivedSource(policy, ds, f);
    DefaultEffective(ds, f);
    if NamesDefault(ds[f]) {
      SourcesCopied(ds[f]);
    }
  }

  lemma DefaultEffective(ds: seq<string>, f: nat)
    requires f == Find(JsSpace, DEFAULT_SRC, ds) < |ds|
    ensures Effective(DEFAULT_SRC, ParsePieces(ds))
            == if NamesDefault(ds[f])
               then Some(Words(AsciiSpace, After(JsSpace, DEFAULT_SRC, ds[f])))
               else Effective(DEFAULT_SRC, ParsePieces(ds[f + 1..]))
  {
    SpellDefault();
    ParseUnchanged(ds, f);
    NoneEffective(DEFAULT_SRC, ds[..f]);
    EffectiveAround(DEFAULT_SRC, ParsePieces(ds[..f]), ParsePiece(ds[f]), ParsePieces(ds[f + 1..]));
    ParsedNamed(DEFAULT_SRC, ds[f]);
  }

  /** `blob:` is at `i`, in any case, as a word of its own. */
  predicate BlobAt(d: string, i: nat) {
    WordAt(AsciiSpace, d, i, i + |BLOB|) && BlobSource(d[i..i + |BLOB|])
  }

  lemma InTail(words: seq<string>, w: string)
    requires words != [] && w in words && w != words[0]
    ensures w in words[1..]
  {
  }

  /** Whether the selected piece allows blobs, as the standard reads it: exactly if the word
      `blob:`, in any case, stands in it between ASCII white space. What the code looks for
      instead, before it leaves the piece alone, is the five characters in lower case after
      any white space, whatever follows them. */
  lemma BlobAllowedExactly(d: string)
    requires Seen(SCRIPT_SRC, d)
    ensures AllowsBlob(ParsePiece(d)[0].value) <==> exists i: nat :: BlobAt(d, i)
  {
    var words := Words(AsciiSpace, d);
    if AllowsBlob(words[1..]) {
      var k :| 0 <= k < |words[1..]| && BlobSource(words[1..][k]);
      assert words[1..][k] == words[k + 1];
      var i := BlobHasPlace(d, words[k + 1]);
    }
    if i: nat :| BlobAt(d, i) {
      BlobInPlace(d, i);
      InTail(words, d[i..i + |BLOB|]);
    }
  }

  lemma BlobHasPlace(d: string, w: string) returns (i: nat)
    requires w in Words(AsciiSpace, d) && BlobSource(w)
    ensures BlobAt(d, i)
  {
    var j;
    i, j := WordHasPlace(AsciiSpace, d, w);
    assert j == i + |BLOB|;
  }

  lemma BlobInPlace(d: string, i: nat)
    requires BlobAt(d, i)
    ensures d[i..i + |BLOB|] in Words(AsciiSpace, d)
  {
    PlaceIsWord(AsciiSpace, d, i, i + |BLOB|, d[i..i + |BLOB|]);
  }

  lemma AddedAllows(value: seq<string>)
    ensures AllowsBlob(value + [BLOB])
  {
    assert BlobSource(BLOB);
    assert (value + [BLOB])[|value|] == BLOB;
  }

  /** What the rewrite is for, over whole policies: afterwards the effective `script-src`
      allows blobs if and only if the selected piece was amended and names it, or one was
      derived from ASCII sources, or none was derived and it allowed them before. */
  lemma RewriteAllowsBlob(policy: string, ds: seq<string>, k: nat, f: nat)
    requires ds == Split(policy, ';') && k == Find(JsSpace, SCRIPT_SRC, ds) && f == Find(JsSpace, DEFAULT_SRC, ds)
    ensures ScriptAllowsBlob(Rewrite(JsSpace, policy))
            <==> || (k < |ds| && !HasBlob(JsSpace, ds[k]) && NamesScript(ds[k]))
                 || (k == |ds| && f < |ds| && Ascii(Sources(JsSpace, ds[f])))
                 || (!(k == |ds| && f < |ds|) && ScriptAllowsBlob(policy))
  {
    if k < |ds| && !HasBlob(JsSpace, ds[k]) {
      SelectedSource(policy, ds, k);
      if NamesScript(ds[k]) {
        AddedAllows(Words(AsciiSpace, TrimEnd(JsSpace, ds[k]))[1..]);
      }
    } else if k == |ds| && f < |ds| {
      DerivedSource(policy, ds, f);
      AddedAllows(Words(AsciiSpace, Sources(JsSpace, ds[f])));
    } else {
      RewriteAmends(policy);
    }
  }

  /** A value without a comma is one policy, before the rewrite and after it, so that all of
      this is about header values then. */
  lemma OnePolicy(value: string)
    requires ',' !in value
    ensures ParseList(value) == [ParsePolicy(value)]
    ensures ParseList(Rewrite(JsSpace, value)) == [ParsePolicy(Rewrite(JsSpace, value))]
  {
    NamesClean();
    RewriteWithout(JsSpace, value, ',');
    assert Split(value, ',') == [value];
    assert Split(Rewrite(JsSpace, value), ',') == [Rewrite(JsSpace, value)];
  }
}
