/**
 Where the policy rewrite of `browser-host/main.js` goes astray: one family of policies for
 each condition in the results on its meaning.
 */
module CspDivergence {
  import opened Basics
  import opened Text
  import opened CspWords
  import opened CspRewrite
  import opened CspMeaning

  /** A word that neither reading would take apart, and that can stand in a policy. */
  ghost predicate Token(w: string) {
    Unspaced(JsSpace, w) && Ascii(w) && ';' !in w
  }

  function Line(name: string, a: string): string {
    name + [' '] + a
  }

  lemma Trimmed(d: string)
    requires d != "" && !JsSpace(d[0]) && !JsSpace(d[|d| - 1])
    ensures TrimStart(JsSpace, d) == d && TrimEnd(JsSpace, d) == d && Trim(JsSpace, d) == d
  {
  }

  lemma LineWords(ws: Space, name: string, a: string)
    requires ws(' ') && Unspaced(ws, name) && Unspaced(ws, a)
    ensures Words(ws, Line(name, a)) == [name, a]
  {
    WordsAppend(ws, name, ' ', a);
    OneWord(ws, name);
    OneWord(ws, a);
    assert [name] + [a] == [name, a];
  }

  lemma NarrowToken(w: string)
    requires Unspaced(JsSpace, w)
    ensures Unspaced(AsciiSpace, w)
  {
    AsciiIsJs();
  }

  lemma LineParsed(name: string, a: string)
    requires Unspaced(AsciiSpace, name) && Unspaced(AsciiSpace, a) && Ascii(name)
    ensures ParsePiece(Line(name, a)) == if Ascii(a) then [Directive(name, [a])] else []
  {
    SpellBlob();
    LineWords(AsciiSpace, name, a);
    assert [name, a][1..] == [a];
    var d := Line(name, a);
    assert forall i :: 0 <= i < |a| ==> d[|name| + 1 + i] == a[i];
  }

  lemma LineTrimmed(name: string, a: string)
    requires Token(name) && Token(a)
    ensures var d := Line(name, a);
            TrimStart(JsSpace, d) == d && TrimEnd(JsSpace, d) == d && Trim(JsSpace, d) == d && ';' !in d
    ensures ParsePiece(Line(name, a)) == [Directive(name, [a])]
  {
    var d := Line(name, a);
    assert d[0] == name[0] && d[|d| - 1] == a[|a| - 1];
    Trimmed(d);
    NarrowToken(name);
    NarrowToken(a);
    LineParsed(name, a);
  }

  lemma LineHasBlob(name: string, a: string)
    requires Token(name) && Token(a)
    ensures HasBlob(JsSpace, Line(name, a)) <==> BLOB <= name || BLOB <= a
  {
    assert Unspaced(JsSpace, BLOB) && JsSpace(' ');
    BeginsIsWord(JsSpace, Line(name, a), BLOB);
    LineWords(JsSpace, name, a);
    assert name in [name, a] && a in [name, a];
  }

  lemma SplitTwo(a: string, b: string)
    requires ';' !in a && ';' !in b
    ensures Split(a + ";" + b, ';') == [a, b]
  {
    SplitFirst(a, b, ';');
    assert a + [';'] + b == a + ";" + b;
    assert Split(b, ';') == [b];
    assert [a] + [b] == [a, b];
  }

  lemma ParseTwo(a: string, b: string)
    ensures ParsePieces([a]) == ParsePiece(a) && ParsePieces([a, b]) == ParsePiece(a) + ParsePiece(b)
  {
    ParseSnoc([], a);
    ParseSnoc([a], b);
    assert [] + [a] == [a] && [a] + [b] == [a, b];
    assert ParsePieces([]) + ParsePiece(a) == ParsePiece(a);
  }

  lemma FindIn(name: string, a: string, b: string)
    ensures Find(JsSpace, name, [a, b])
            == if Matches(JsSpace, name, a) then 0 else if Matches(JsSpace, name, b) then 1 else 2
  {
    FindIs(JsSpace, name, [a, b], if Matches(JsSpace, name, a) then 0 else if Matches(JsSpace, name, b) then 1 else 2);
  }

  lemma TokenScript()
    ensures StartsWith(SCRIPT_SRC, SCRIPT_SRC) && Token(SCRIPT_SRC)
  {
  }

  lemma TokenDefault()
    ensures StartsWith(DEFAULT_SRC, DEFAULT_SRC) && Token(DEFAULT_SRC)
  {
  }

  lemma TokenBlob()
    ensures Token(BLOB)
  {
  }

  lemma NamesApart(w: string)
    requires StartsWith(DEFAULT_SRC, w)
    ensures !StartsWith(SCRIPT_SRC, w)
  {
    assert Lower(w[0]) == 'd' && SCRIPT_SRC[0] == 's';
  }

  /** Two pieces, the first of them selected. */
  lemma ScriptFirst(first: string, second: string)
    requires ';' !in first && ';' !in second && Matches(JsSpace, SCRIPT_SRC, first) && !HasBlob(JsSpace, first)
    ensures var policy := first + ";" + second;
            && ParsePolicy(policy) == ParsePiece(first) + ParsePiece(second)
            && ParsePolicy(Rewrite(JsSpace, policy)) == ParsePiece(WithBlob(JsSpace, first)) + ParsePiece(second)
  {
    SplitTwo(first, second);
    FindIn(SCRIPT_SRC, first, second);
    RewriteParsed(first + ";" + second);
    ParseTwo(first, second);
    ParseTwo(WithBlob(JsSpace, first), second);
    assert [first, second][0 := WithBlob(JsSpace, first)] == [WithBlob(JsSpace, first), second];
  }

  /** One piece, selected. */
  lemma ScriptAlone(d: string)
    requires ';' !in d && Matches(JsSpace, SCRIPT_SRC, d)
    ensures ParsePolicy(d) == ParsePiece(d)
    ensures if HasBlob(JsSpace, d) then Rewrite(JsSpace, d) == d
            else ParsePolicy(Rewrite(JsSpace, d)) == ParsePiece(WithBlob(JsSpace, d))
  {
    assert Split(d, ';') == [d];
    FindIs(JsSpace, SCRIPT_SRC, [d], 0);
    RewriteParsed(d);
    ParseTwo(d, d);
    ParseTwo(WithBlob(JsSpace, d), d);
    assert [d][0 := WithBlob(JsSpace, d)] == [WithBlob(JsSpace, d)];
  }

  /** Two pieces, a directive derived from the first. */
  lemma DefaultFirst(first: string, second: string)
    requires ';' !in first && ';' !in second && Matches(JsSpace, DEFAULT_SRC, first)
    requires !Matches(JsSpace, SCRIPT_SRC, first) && !Matches(JsSpace, SCRIPT_SRC, second)
    ensures var policy := first + ";" + second;
            && ParsePolicy(policy) == ParsePiece(first) + ParsePiece(second)
            && ParsePolicy(Rewrite(JsSpace, policy))
               == ParsePiece(first) + ParsePiece(TrimEnd(JsSpace, second)) + ParsePiece(Derived(JsSpace, first))
  {
    SplitTwo(first, second);
    FindIn(SCRIPT_SRC, first, second);
    FindIn(DEFAULT_SRC, first, second);
    RewriteAmends(first + ";" + second);
    ParseTwo(first, second);
    assert [first, second][..1] == [first];
  }

  /** One piece, a directive derived from it. */
  lemma DefaultAlone(d: string)
    requires ';' !in d && Matches(JsSpace, DEFAULT_SRC, d) && !Matches(JsSpace, SCRIPT_SRC, d)
    ensures ParsePolicy(d) == ParsePiece(d)
    ensures ParsePolicy(Rewrite(JsSpace, d)) == ParsePiece(TrimEnd(JsSpace, d)) + ParsePiece(Derived(JsSpace, d))
  {
    assert Split(d, ';') == [d];
    FindIs(JsSpace, SCRIPT_SRC, [d], 1);
    FindIs(JsSpace, DEFAULT_SRC, [d], 0);
    RewriteAmends(d);
    ParseTwo(d, d);
    assert [d][..0] == [];
    assert ParsePieces([]) + ParsePiece(TrimEnd(JsSpace, d)) == ParsePiece(TrimEnd(JsSpace, d));
  }

  lemma LongerStarts(name: string, more: string, a: string)
    requires StartsWith(name, name)
    ensures StartsWith(name, name + more) && StartsWith(name, Line(name + more, a))
  {
  }

  lemma LongerToken(name: string, more: string)
    requires Token(name) && Token(more)
    ensures Token(name + more)
  {
  }

  // ---------------------------------------------------------------------------
  // Names that only begin like the one looked for
  // ---------------------------------------------------------------------------

  /** A name that only begins with `script-src`, such as `script-src-elem`, takes the new
      source from the real one after it. */
  lemma LongerNameTakesTheSource(more: string, a: string, b: string)
    requires Token(more) && Token(a) && Token(b) && !(BLOB <= a)
    ensures var policy := Line(SCRIPT_SRC + more, a) + ";" + Line(SCRIPT_SRC, b);
            && ParsePolicy(policy) == [Directive(SCRIPT_SRC + more, [a]), Directive(SCRIPT_SRC, [b])]
            && ParsePolicy(Rewrite(JsSpace, policy)) == [Directive(SCRIPT_SRC + more, [a, BLOB]), Directive(SCRIPT_SRC, [b])]
  {
    var long := SCRIPT_SRC + more;
    TokenScript();
    LongerToken(SCRIPT_SRC, more);
    LongerStarts(SCRIPT_SRC, more, a);
    LineTrimmed(long, a);
    LineTrimmed(SCRIPT_SRC, b);
    LineHasBlob(long, a);
    BlobIsNoScript(long);
    ScriptFirst(Line(long, a), Line(SCRIPT_SRC, b));
    LineWithBlob(long, a, Line(long, a));
  }

  lemma LineWithBlob(name: string, a: string, d: string)
    requires Token(name) && Token(a) && TrimEnd(JsSpace, d) == Line(name, a)
    ensures ParsePiece(WithBlob(JsSpace, d)) == [Directive(name, [a, BLOB])]
  {
    WithBlobParsed(d);
    NarrowToken(name);
    NarrowToken(a);
    SpellBlob();
    LineWords(AsciiSpace, name, a);
    assert ([name, a] + [BLOB])[1..] == [a, BLOB];
    AsciiAround(name, a);
  }

  lemma ElemIsSuch()
    ensures SCRIPT_SRC + "-elem" == "script-src-elem" && Token("-elem") && Token("'self'") && !(BLOB <= "'self'")
  {
    assert "'self'"[0] != BLOB[0];
  }

  /** A name that only begins with `default-src` is derived from in place of the real one
      after it: what is left of the name becomes a source. */
  lemma LongerDefaultIsCopied(more: string, a: string, b: string)
    requires Token(more) && Token(a) && Token(b)
    ensures var policy := Line(DEFAULT_SRC + more, a) + ";" + Line(DEFAULT_SRC, b);
            && ParsePolicy(policy) == [Directive(DEFAULT_SRC + more, [a]), Directive(DEFAULT_SRC, [b])]
            && ParsePolicy(Rewrite(JsSpace, policy)) == ParsePolicy(policy) + [Directive(SCRIPT_SRC, [more, a, BLOB])]
  {
    LongerDefault(more, a);
    DefaultLine(b);
    DefaultFirst(Line(DEFAULT_SRC + more, a), Line(DEFAULT_SRC, b));
  }

  /** And although there is no real one. */
  lemma LongerDefaultAlone(more: string, a: string)
    requires Token(more) && Token(a)
    ensures var policy := Line(DEFAULT_SRC + more, a);
            && ParsePolicy(policy) == [Directive(DEFAULT_SRC + more, [a])]
            && ParsePolicy(Rewrite(JsSpace, policy)) == ParsePolicy(policy) + [Directive(SCRIPT_SRC, [more, a, BLOB])]
  {
    LongerDefault(more, a);
    DefaultAlone(Line(DEFAULT_SRC + more, a));
  }

  lemma LongerDefault(more: string, a: string)
    requires Token(more) && Token(a)
    ensures var d := Line(DEFAULT_SRC + more, a);
            && ';' !in d && TrimEnd(JsSpace, d) == d && ParsePiece(d) == [Directive(DEFAULT_SRC + more, [a])]
            && Matches(JsSpace, DEFAULT_SRC, d) && !Matches(JsSpace, SCRIPT_SRC, d)
            && ParsePiece(Derived(JsSpace, d)) == [Directive(SCRIPT_SRC, [more, a, BLOB])]
  {
    var long := DEFAULT_SRC + more;
    TokenDefault();
    LongerToken(DEFAULT_SRC, more);
    LongerStarts(DEFAULT_SRC, more, a);
    LineTrimmed(long, a);
    NamesApart(Line(long, a));
    LongerSources(more, a);
    DerivedParsed(Line(long, a));
    assert [more, a] + [BLOB] == [more, a, BLOB];
  }

  lemma DefaultLine(b: string)
    requires Token(b)
    ensures var d := Line(DEFAULT_SRC, b);
            && TrimEnd(JsSpace, d) == d && Trim(JsSpace, d) == d && ';' !in d && ParsePiece(d) == [Directive(DEFAULT_SRC, [b])]
            && StartsWith(DEFAULT_SRC, d) && !StartsWith(SCRIPT_SRC, d)
  {
    var d := Line(DEFAULT_SRC, b);
    TokenDefault();
    LineTrimmed(DEFAULT_SRC, b);
    LongerStarts(DEFAULT_SRC, "", b);
    assert DEFAULT_SRC + "" == DEFAULT_SRC;
    NamesApart(d);
  }

  lemma LongerSources(more: string, a: string)
    requires Token(more) && Token(a) && Matches(JsSpace, DEFAULT_SRC, Line(DEFAULT_SRC + more, a))
    requires Trim(JsSpace, Line(DEFAULT_SRC + more, a)) == Line(DEFAULT_SRC + more, a)
    ensures var sources := Sources(JsSpace, Line(DEFAULT_SRC + more, a));
            Ascii(sources) && Words(AsciiSpace, sources) == [more, a]
  {
    var d, rest := Line(DEFAULT_SRC + more, a), Line(more, a);
    assert d == DEFAULT_SRC + rest && d[|DEFAULT_SRC|..] == rest;
    LineTrimmed(more, a);
    NarrowToken(more);
    NarrowToken(a);
    SpellBlob();
    LineWords(AsciiSpace, more, a);
    AsciiAround(more, a);
  }

  // ---------------------------------------------------------------------------
  // White space that only JavaScript trims
  // ---------------------------------------------------------------------------

  /** White space to JavaScript and not to the standard: the vertical tab, and what is not
      ASCII. */
  predicate Foreign(c: char) {
    JsSpace(c) && !AsciiSpace(c)
  }

  lemma ForeignEnd(name: string, a: string, c: char)
    requires Token(name) && Token(a) && Foreign(c)
    ensures TrimEnd(JsSpace, Line(name, a + [c])) == Line(name, a)
    ensures Trim(JsSpace, Line(name, a + [c])) == Line(name, a)
    ensures ParsePiece(Line(name, a + [c])) == if c < 128 as char then [Directive(name, [a + [c]])] else []
    ensures ';' !in Line(name, a + [c])
  {
    var d, e := Line(name, a + [c]), Line(name, a);
    LineTrimmed(name, a);
    assert d == e + [c];
    TrimEndUnique(JsSpace, d, e);
    TrimOfTrimEnd(JsSpace, d);
    NarrowToken(name);
    NarrowToken(a);
    assert (a + [c])[|a|] == c;
    assert Ascii(a + [c]) <==> c < 128 as char;
    LineParsed(name, a + [c]);
  }

  lemma LineNamed(name: string, prefix: string, a: string)
    requires Token(name) && |prefix| > 0 && ' ' !in prefix
    ensures StartsWith(prefix, Line(name, a)) <==> StartsWith(prefix, name)
  {
    var d := Line(name, a);
    assert forall i :: 0 <= i < |name| ==> d[i] == name[i];
    assert d[|name|] == ' ' && Lower(' ') == ' ';
  }

  /** A directive the rewrite has nothing to do with: written last in a policy from which a
      `script-src` is derived, it loses foreign white space from the end of its value. A
      vertical tab was part of the source; anything else had the directive passed over. */
  lemma ForeignSpaceIsLost(name: string, a: string, b: string, c: char)
    requires Token(name) && Token(a) && Token(b) && Foreign(c)
    requires !StartsWith(SCRIPT_SRC, name) && !StartsWith(DEFAULT_SRC, name)
    ensures var policy := Line(DEFAULT_SRC, b) + ";" + Line(name, a + [c]);
            var first := Directive(DEFAULT_SRC, [b]);
            && ParsePolicy(policy) == [first] + (if c < 128 as char then [Directive(name, [a + [c]])] else [])
            && ParsePolicy(Rewrite(JsSpace, policy)) == [first, Directive(name, [a]), Directive(SCRIPT_SRC, [b, BLOB])]
  {
    var second := Line(name, a + [c]);
    DefaultLine(b);
    DefaultDerived(b);
    ForeignEnd(name, a, c);
    LineTrimmed(name, a);
    NoName(name, a);
    DefaultFirst(Line(DEFAULT_SRC, b), second);
    ThreeParts(ParsePiece(Line(DEFAULT_SRC, b)), Directive(DEFAULT_SRC, [b]), Directive(name, [a]), Directive(SCRIPT_SRC, [b, BLOB]));
  }

  lemma ThreeParts(p: seq<Directive>, x: Directive, y: Directive, z: Directive)
    requires p == [x]
    ensures p + [y] + [z] == [x, y, z]
  {
  }

  lemma DefaultDerived(b: string)
    requires Token(b) && Matches(JsSpace, DEFAULT_SRC, Line(DEFAULT_SRC, b))
    requires Trim(JsSpace, Line(DEFAULT_SRC, b)) == Line(DEFAULT_SRC, b)
    ensures ParsePiece(Derived(JsSpace, Line(DEFAULT_SRC, b))) == [Directive(SCRIPT_SRC, [b, BLOB])]
  {
    DefaultSources(b);
    DerivedParsed(Line(DEFAULT_SRC, b));
    assert [b] + [BLOB] == [b, BLOB];
  }

  lemma NoName(name: string, a: string)
    requires Token(name) && !StartsWith(SCRIPT_SRC, name) && !StartsWith(DEFAULT_SRC, name)
    ensures !StartsWith(SCRIPT_SRC, Line(name, a)) && !StartsWith(DEFAULT_SRC, Line(name, a))
  {
    LineNamed(name, SCRIPT_SRC, a);
    LineNamed(name, DEFAULT_SRC, a);
  }

  lemma DefaultSources(b: string)
    requires Token(b) && Matches(JsSpace, DEFAULT_SRC, Line(DEFAULT_SRC, b))
    requires Trim(JsSpace, Line(DEFAULT_SRC, b)) == Line(DEFAULT_SRC, b)
    ensures var sources := Sources(JsSpace, Line(DEFAULT_SRC, b));
            Ascii(sources) && Words(AsciiSpace, sources) == [b]
  {
    var d := Line(DEFAULT_SRC, b);
    assert d[|DEFAULT_SRC|..] == [' '] + b;
    Trimmed(b);
    assert ([' '] + b)[1..] == b && JsSpace(' ');
    assert TrimStart(JsSpace, [' '] + b) == b;
    NarrowToken(b);
    OneWord(AsciiSpace, b);
  }

  lemma ImgIsSuch()
    ensures Token("img-src") && !StartsWith(SCRIPT_SRC, "img-src") && !StartsWith(DEFAULT_SRC, "img-src")
    ensures Foreign('\U{000B}') && Foreign('\U{00A0}')
  {
  }

  /** The selected `script-src` itself loses it too. */
  lemma SelectedLosesForeignSpace(a: string, c: char)
    requires Token(a) && Foreign(c) && !(BLOB <= a)
    ensures var policy := Line(SCRIPT_SRC, a + [c]);
            && ParsePolicy(policy) == (if c < 128 as char then [Directive(SCRIPT_SRC, [a + [c]])] else [])
            && ParsePolicy(Rewrite(JsSpace, policy)) == [Directive(SCRIPT_SRC, [a, BLOB])]
  {
    TokenScript();
    ScriptLine(a);
    ForeignEnd(SCRIPT_SRC, a, c);
    NoBlobAtEnd(a, c);
    ScriptAlone(Line(SCRIPT_SRC, a + [c]));
    LineWithBlob(SCRIPT_SRC, a, Line(SCRIPT_SRC, a + [c]));
  }

  lemma ScriptLine(a: string)
    ensures StartsWith(SCRIPT_SRC, Line(SCRIPT_SRC, a))
  {
    TokenScript();
    LongerStarts(SCRIPT_SRC, "", a);
    assert SCRIPT_SRC + "" == SCRIPT_SRC;
  }

  lemma NoBlobAtEnd(a: string, c: char)
    requires Token(a) && Foreign(c) && !(BLOB <= a)
    ensures !HasBlob(JsSpace, Line(SCRIPT_SRC, a + [c]))
  {
    var d, e := Line(SCRIPT_SRC, a + [c]), Line(SCRIPT_SRC, a);
    TokenScript();
    TokenBlob();
    BlobIsNoScript(SCRIPT_SRC);
    assert JsSpace(' ') && d == e + [c] + "";
    BeginsIsWord(JsSpace, d, BLOB);
    WordsAppend(JsSpace, e, c, "");
    LineWords(JsSpace, SCRIPT_SRC, a);
    assert [SCRIPT_SRC, a] + [] == [SCRIPT_SRC, a];
  }

  /** And before a `blob:` it hides that source from the standard and not from the code,
      which then leaves the policy alone: the source is part of another one, or the whole
      directive is passed over. */
  lemma ForeignSpaceHidesBlob(a: string, c: char)
    requires Token(a) && Foreign(c)
    ensures var word := a + [c] + BLOB;
            var policy := Line(SCRIPT_SRC, word);
            && Rewrite(JsSpace, policy) == policy && !ScriptAllowsBlob(policy)
            && ParsePolicy(policy) == if c < 128 as char then [Directive(SCRIPT_SRC, [word])] else []
  {
    var word := a + [c] + BLOB;
    var policy := Line(SCRIPT_SRC, word);
    TokenScript();
    NarrowToken(SCRIPT_SRC);
    HiddenWord(a, c);
    LineParsed(SCRIPT_SRC, word);
    SolidEnds(SCRIPT_SRC, word);
    ScriptLine(word);
    BlobAfter(SCRIPT_SRC, a, c);
    ScriptAlone(policy);
    OneSource(policy, word);
  }

  lemma OneSource(policy: string, word: string)
    requires ParsePolicy(policy) == [Directive(SCRIPT_SRC, [word])] || ParsePolicy(policy) == []
    ensures ScriptAllowsBlob(policy) <==> ParsePolicy(policy) != [] && BlobSource(word)
  {
    TokenScript();
    if ParsePolicy(policy) != [] {
      assert Effective(SCRIPT_SRC, ParsePolicy(policy)) == Some([word]);
      assert [word][0] == word;
    }
  }

  lemma SolidEnds(name: string, word: string)
    requires Token(name) && word != "" && !JsSpace(word[|word| - 1]) && ';' !in word
    ensures Trim(JsSpace, Line(name, word)) == Line(name, word) && ';' !in Line(name, word)
  {
    var d := Line(name, word);
    assert d[0] == name[0] && d[|d| - 1] == word[|word| - 1];
    Trimmed(d);
  }

  lemma BlobAfter(name: string, a: string, c: char)
    requires JsSpace(c)
    ensures HasBlob(JsSpace, Line(name, a + [c] + BLOB))
  {
    var s, i := Line(name, a + [c] + BLOB), |name| + 1 + |a| + 1;
    assert s[i..i + |BLOB|] == BLOB && s[i - 1] == c;
    assert Begins(JsSpace, s, i, BLOB);
  }

  lemma HiddenWord(a: string, c: char)
    requires Token(a) && Foreign(c)
    ensures var word := a + [c] + BLOB;
            && Unspaced(AsciiSpace, word) && (Ascii(word) <==> c < 128 as char) && ';' !in word && |word| > |BLOB|
            && !JsSpace(word[|word| - 1])
  {
    var word := a + [c] + BLOB;
    assert word[|word| - 1] == BLOB[|BLOB| - 1] && word[|a|] == c;
    TokenBlob();
    NarrowToken(a);
    NarrowToken(BLOB);
  }

  // ---------------------------------------------------------------------------
  // Sources that only begin like the one looked for, and one in another case
  // ---------------------------------------------------------------------------

  /** A source that only begins with `blob:`, such as `blob:*`, is taken for it. */
  lemma LongerSourceHidesBlob(more: string)
    requires Token(more)
    ensures var policy := Line(SCRIPT_SRC, BLOB + more);
            && Rewrite(JsSpace, policy) == policy && !ScriptAllowsBlob(policy)
            && ParsePolicy(policy) == [Directive(SCRIPT_SRC, [BLOB + more])]
  {
    var policy := Line(SCRIPT_SRC, BLOB + more);
    TokenScript();
    TokenBlob();
    LongerToken(BLOB, more);
    LineTrimmed(SCRIPT_SRC, BLOB + more);
    LineHasBlob(SCRIPT_SRC, BLOB + more);
    ScriptLine(BLOB + more);
    ScriptAlone(policy);
    OneSource(policy, BLOB + more);
  }

  /** The source itself in another case is not taken for it, and is followed by another. */
  lemma OtherCaseIsRepeated(a: string)
    requires Token(a) && BlobSource(a) && a != BLOB
    ensures var policy := Line(SCRIPT_SRC, a);
            ScriptAllowsBlob(policy) && ParsePolicy(Rewrite(JsSpace, policy)) == [Directive(SCRIPT_SRC, [a, BLOB])]
  {
    var policy := Line(SCRIPT_SRC, a);
    TokenScript();
    LineTrimmed(SCRIPT_SRC, a);
    LineHasBlob(SCRIPT_SRC, a);
    BlobIsNoScript(SCRIPT_SRC);
    ScriptLine(a);
    ScriptAlone(policy);
    OneSource(policy, a);
    LineWithBlob(SCRIPT_SRC, a, policy);
  }

  lemma SuchSources()
    ensures Token("*") && Token("BLOB:") && BlobSource("BLOB:") && "BLOB:" != BLOB
  {
    assert "BLOB:"[0] != BLOB[0];
  }

  // ---------------------------------------------------------------------------
  // Values that hold more than one policy
  // ---------------------------------------------------------------------------

  lemma CommaWord(a: string, name: string)
    requires Token(a) && Token(name) && !(BLOB <= a)
    ensures var word := a + [','] + name; Token(word) && !(BLOB <= word)
  {
    assert ',' !in BLOB && !JsSpace(',');
    PrefixBefore(BLOB, a, ',', name);
  }

  /** A word without `c` that begins a text begins what comes before the first `c`. */
  lemma PrefixBefore(w: string, a: string, c: char, b: string)
    requires c !in w
    ensures w <= a + [c] + b <==> w <= a
  {
    var s := a + [c] + b;
    assert s[|a|] == c && s[..|a|] == a;
    if w <= s && |w| <= |a| {
      assert w == s[..|w|] == s[..|a|][..|w|];
    }
  }

  lemma ListOfTwo(a: string, b: string)
    requires ',' !in a && ',' !in b && ';' !in a && ';' !in b
    ensures ParseList(a + [','] + b) == [ParsePiece(a), ParsePiece(b)]
  {
    SplitFirst(a, b, ',');
    assert Split(b, ',') == [b];
    assert [a] + [b] == [a, b];
    assert Split(a, ';') == [a] && Split(b, ';') == [b];
    ParseTwo(a, a);
    ParseTwo(b, b);
  }

  lemma ThreeWords(ws: Space, x: string, y: string, z: string)
    requires ws(' ') && Unspaced(ws, x) && Unspaced(ws, y) && Unspaced(ws, z)
    ensures Words(ws, Line(Line(x, y), z)) == [x, y] + [z]
  {
    WordsAppend(ws, Line(x, y), ' ', z);
    LineWords(ws, x, y);
    OneWord(ws, z);
  }

  /** The code does not know that a comma begins another policy: the source goes to the last
      directive before the first semicolon, in whichever policy that is. */
  lemma CommaTakesTheSource(name: string, a: string, b: string)
    requires Token(name) && Token(a) && Token(b) && ',' !in name && ',' !in a && ',' !in b
    requires !(BLOB <= a) && !(BLOB <= b)
    ensures var value := Line(SCRIPT_SRC, a) + [','] + Line(name, b);
            && ParseList(value) == [[Directive(SCRIPT_SRC, [a])], [Directive(name, [b])]]
            && ParseList(Rewrite(JsSpace, value)) == [[Directive(SCRIPT_SRC, [a])], [Directive(name, [b, BLOB])]]
  {
    var first, second := Line(SCRIPT_SRC, a), Line(name, b);
    var value := first + [','] + second;
    TokenScript();
    LineTrimmed(SCRIPT_SRC, a);
    LineTrimmed(name, b);
    NoCommas(a, name, b);
    ListOfTwo(first, second);
    CommaValue(name, a, b);
    ListOfTwo(first, WithBlob(JsSpace, second));
    LineWithBlob(name, b, second);
  }

  lemma NoCommas(a: string, name: string, b: string)
    requires Token(name) && Token(a) && Token(b) && ',' !in name && ',' !in a && ',' !in b
    requires TrimEnd(JsSpace, Line(name, b)) == Line(name, b)
    ensures ',' !in Line(SCRIPT_SRC, a) && ',' !in Line(name, b)
    ensures ',' !in WithBlob(JsSpace, Line(name, b)) && ';' !in WithBlob(JsSpace, Line(name, b))
  {
    NamesClean();
  }

  /** Seen as one policy, the value is one piece, and the source goes to its end. */
  lemma CommaValue(name: string, a: string, b: string)
    requires Token(name) && Token(a) && Token(b) && !(BLOB <= a) && !(BLOB <= b)
    ensures Rewrite(JsSpace, Line(SCRIPT_SRC, a) + [','] + Line(name, b))
            == Line(SCRIPT_SRC, a) + [','] + (Line(name, b) + " " + BLOB)
  {
    var word := a + [','] + name;
    var value := Line(Line(SCRIPT_SRC, word), b);
    assert value == Line(SCRIPT_SRC, a) + [','] + Line(name, b);
    TokenScript();
    CommaWord(a, name);
    CommaEnds(word, b);
    CommaNoBlob(word, b);
    FindIs(JsSpace, SCRIPT_SRC, [value], 0);
    assert Split(value, ';') == [value];
    assert [value][0 := WithBlob(JsSpace, value)] == [WithBlob(JsSpace, value)];
    assert value + " " + BLOB == Line(SCRIPT_SRC, a) + [','] + (Line(name, b) + " " + BLOB);
  }

  lemma CommaEnds(word: string, b: string)
    requires Token(word) && Token(b)
    ensures var value := Line(Line(SCRIPT_SRC, word), b);
            && TrimEnd(JsSpace, value) == value && Matches(JsSpace, SCRIPT_SRC, value) && ';' !in value
  {
    var value := Line(Line(SCRIPT_SRC, word), b);
    TokenScript();
    assert value[0] == SCRIPT_SRC[0] && value[|value| - 1] == b[|b| - 1];
    Trimmed(value);
    ScriptLine(word);
    assert StartsWith(SCRIPT_SRC, value);
  }

  lemma CommaNoBlob(word: string, b: string)
    requires Token(word) && Token(b) && !(BLOB <= word) && !(BLOB <= b)
    ensures !HasBlob(JsSpace, Line(Line(SCRIPT_SRC, word), b))
  {
    TokenScript();
    TokenBlob();
    assert JsSpace(' ');
    ThreeWords(JsSpace, SCRIPT_SRC, word, b);
    BlobIsNoScript(SCRIPT_SRC);
    BeginsIsWord(JsSpace, Line(Line(SCRIPT_SRC, word), b), BLOB);
  }
}
