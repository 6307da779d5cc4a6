/**
 The words of a text, under two ideas of white space: the narrow one that separates words,
 and a wider one that trims. Where they differ, trimming can change the words; this says
 exactly when.
 */
module CspWords {
  import opened Text

  /** The words of a text, between runs of white space. */
  function Words(ws: Space, s: string): seq<string>
    decreases |s|
  {
    if s == "" then []
    else
      var i := FirstSpace(ws, s);
      if i == 0 then Words(ws, s[1..]) else [s[..i]] + Words(ws, s[i..])
  }

  lemma CutAppend(a: string, b: string, i: nat)
    requires i <= |a|
    ensures (a + b)[..i] == a[..i] && (a + b)[i..] == a[i..] + b
  {
  }

  lemma WordsStep(ws: Space, s: string, i: nat)
    requires i == FirstSpace(ws, s) && s != ""
    ensures Words(ws, s) == if i == 0 then Words(ws, s[1..]) else [s[..i]] + Words(ws, s[i..])
  {
  }

  lemma FirstSpaceAppend(ws: Space, a: string, b: string)
    requires b != "" && ws(b[0])
    ensures FirstSpace(ws, a + b) == FirstSpace(ws, a)
  {
    FirstSpaceIs(ws, a + b, FirstSpace(ws, a));
  }

  lemma ConsAppend(x: string, a: seq<string>, b: seq<string>)
    ensures [x] + (a + b) == [x] + a + b
  {
  }

  lemma WordsBeforeStep(ws: Space, a: string, b: string, i: nat, cut: nat)
    requires a != "" && b != "" && ws(b[0]) && i == FirstSpace(ws, a) && cut == if i == 0 then 1 else i
    ensures Words(ws, a) == (if i == 0 then [] else [a[..i]]) + Words(ws, a[cut..])
    ensures Words(ws, a + b) == (if i == 0 then [] else [a[..i]]) + Words(ws, a[cut..] + b)
  {
    FirstSpaceAppend(ws, a, b);
    WordsStep(ws, a, i);
    WordsStep(ws, a + b, i);
    CutAppend(a, b, cut);
    CutAppend(a, b, i);
  }

  lemma {:induction false} WordsBefore(ws: Space, a: string, b: string)
    requires b != "" && ws(b[0])
    ensures Words(ws, a + b) == Words(ws, a) + Words(ws, b)
    decreases |a|
  {
    if a == "" {
      assert a + b == b;
    } else {
      var i := FirstSpace(ws, a);
      var cut := if i == 0 then 1 else i;
      WordsBefore(ws, a[cut..], b);
      WordsBeforeStep(ws, a, b, i, cut);
      if i > 0 {
        ConsAppend(a[..i], Words(ws, a[cut..]), Words(ws, b));
      }
    }
  }

  lemma WordsAppend(ws: Space, a: string, c: char, b: string)
    requires ws(c)
    ensures Words(ws, a + [c] + b) == Words(ws, a) + Words(ws, b)
  {
    var tail := [c] + b;
    WordsBefore(ws, a, tail);
    FirstSpaceIs(ws, tail, 0);
    WordsStep(ws, tail, 0);
    assert tail[1..] == b && a + [c] + b == a + tail;
  }

  lemma OneWord(ws: Space, s: string)
    requires s != "" && forall i :: 0 <= i < |s| ==> !ws(s[i])
    ensures Words(ws, s) == [s]
  {
    FirstSpaceIs(ws, s, |s|);
    assert s[..|s|] == s && s[|s|..] == "";
  }

  lemma {:induction false} WordsTrimStart(ws: Space, s: string)
    ensures Words(ws, TrimStart(ws, s)) == Words(ws, s)
  {
    if s != "" && ws(s[0]) {
      FirstSpaceIs(ws, s, 0);
      WordsTrimStart(ws, s[1..]);
    }
  }

  lemma {:induction false} WordsTrimEnd(ws: Space, s: string)
    ensures Words(ws, TrimEnd(ws, s)) == Words(ws, s)
  {
    if s != "" && ws(s[|s| - 1]) {
      var a := s[..|s| - 1];
      WordsTrimEnd(ws, a);
      WordsAppend(ws, a, s[|s| - 1], "");
      assert a + [s[|s| - 1]] + "" == s;
    }
  }

  ghost predicate Unspaced(ws: Space, word: string) {
    word != "" && forall i :: 0 <= i < |word| ==> !ws(word[i])
  }

  /** A word by its place: an unspaced run with white space or nothing on either side. */
  predicate WordAt(ws: Space, s: string, i: nat, j: nat) {
    && i < j <= |s| && (forall k :: i <= k < j ==> !ws(s[k]))
    && (i == 0 || ws(s[i - 1])) && (j == |s| || ws(s[j]))
  }

  lemma SliceOfCut(s: string, cut: nat, i: nat, j: nat)
    requires cut <= i <= j <= |s|
    ensures s[cut..][i - cut..j - cut] == s[i..j]
  {
  }

  /** A cut beside white space takes no word apart. */
  lemma WordAtCut(ws: Space, s: string, cut: nat, i: nat, j: nat)
    requires 0 < cut <= i <= j <= |s| && (ws(s[cut - 1]) || (cut < |s| && ws(s[cut])))
    ensures WordAt(ws, s, i, j) <==> WordAt(ws, s[cut..], i - cut, j - cut)
  {
    var t := s[cut..];
    assert forall k :: cut <= k < |s| ==> s[k] == t[k - cut];
    assert forall k :: 0 <= k < |t| ==> t[k] == s[cut + k];
  }

  /** Where the words of a text after its first are to be found. */
  function Cut(ws: Space, s: string): (cut: nat)
    requires s != ""
    ensures 0 < cut <= |s| && (ws(s[cut - 1]) || cut == |s| || ws(s[cut]))
  {
    if FirstSpace(ws, s) == 0 then 1 else FirstSpace(ws, s)
  }

  lemma WordsCut(ws: Space, s: string, w: string)
    requires s != ""
    ensures var f := FirstSpace(ws, s);
            w in Words(ws, s) <==> (f > 0 && w == s[..f]) || w in Words(ws, s[Cut(ws, s)..])
  {
    WordsStep(ws, s, FirstSpace(ws, s));
  }

  /** The word `w` by its place. */
  predicate PlacedAt(ws: Space, s: string, i: nat, j: nat, w: string) {
    WordAt(ws, s, i, j) && s[i..j] == w
  }

  lemma PlacedAfterCut(ws: Space, s: string, i: nat, j: nat, w: string)
    requires s != "" && Cut(ws, s) <= i <= j <= |s|
    ensures var cut := Cut(ws, s); PlacedAt(ws, s, i, j, w) <==> PlacedAt(ws, s[cut..], i - cut, j - cut, w)
  {
    var cut := Cut(ws, s);
    if cut < |s| || ws(s[cut - 1]) {
      WordAtCut(ws, s, cut, i, j);
    }
    SliceOfCut(s, cut, i, j);
  }

  lemma FirstPlace(ws: Space, s: string, i: nat, j: nat, w: string)
    requires PlacedAt(ws, s, i, j, w) && i < Cut(ws, s)
    ensures FirstSpace(ws, s) > 0 && w == s[..FirstSpace(ws, s)]
  {
    assert i == 0 && j == FirstSpace(ws, s);
  }

  lemma {:induction false} PlaceIsWord(ws: Space, s: string, i: nat, j: nat, w: string)
    requires PlacedAt(ws, s, i, j, w)
    ensures w in Words(ws, s)
    decreases |s|
  {
    var cut := Cut(ws, s);
    if cut <= i {
      PlacedAfterCut(ws, s, i, j, w);
      var rest := s[cut..];
      PlaceIsWord(ws, rest, i - cut, j - cut, w);
    }
    PlacedHere(ws, s, i, j, w);
  }

  lemma PlacedHere(ws: Space, s: string, i: nat, j: nat, w: string)
    requires PlacedAt(ws, s, i, j, w) && (Cut(ws, s) <= i ==> w in Words(ws, s[Cut(ws, s)..]))
    ensures w in Words(ws, s)
  {
    WordsCut(ws, s, w);
    if i < Cut(ws, s) {
      FirstPlace(ws, s, i, j, w);
    }
  }

  lemma {:induction false} WordHasPlace(ws: Space, s: string, w: string) returns (i: nat, j: nat)
    requires w in Words(ws, s)
    ensures PlacedAt(ws, s, i, j, w)
    decreases |s|
  {
    var f := FirstSpace(ws, s);
    if f > 0 && w == s[..f] {
      i, j := 0, f;
    } else {
      var cut := Cut(ws, s);
      var rest := s[cut..];
      WordsCut(ws, s, w);
      i, j := WordHasPlace(ws, rest, w);
      i, j := cut + i, cut + j;
      PlacedAfterCut(ws, s, i, j, w);
    }
  }

  /** Occurrences at the start of a word are words with that start. */
  lemma BeginsIsWord(ws: Space, d: string, word: string)
    requires Unspaced(ws, word)
    ensures (exists i: nat :: i <= |d| && Begins(ws, d, i, word)) <==> exists w :: w in Words(ws, d) && word <= w
  {
    if i: nat :| i <= |d| && Begins(ws, d, i, word) {
      var w := WordAround(ws, d, i, word);
      assert w in Words(ws, d) && word <= w;
    }
    if w :| w in Words(ws, d) && word <= w {
      var i := WordBegins(ws, d, w, word);
    }
  }

  lemma WordBegins(ws: Space, d: string, w: string, word: string) returns (i: nat)
    requires w in Words(ws, d) && word <= w
    ensures i <= |d| && Begins(ws, d, i, word)
  {
    var j;
    i, j := WordHasPlace(ws, d, w);
    assert d[i..i + |word|] == d[i..j][..|word|];
  }

  lemma WordAround(ws: Space, d: string, i: nat, word: string) returns (w: string)
    requires Unspaced(ws, word) && Begins(ws, d, i, word)
    ensures w in Words(ws, d) && word <= w
  {
    var rest := d[i..];
    w := rest[..FirstSpace(ws, rest)];
    LongestRun(ws, rest, word);
    RunHasPlace(ws, d, i);
    PlaceIsWord(ws, d, i, i + |w|, w);
  }

  lemma LongestRun(ws: Space, rest: string, word: string)
    requires Unspaced(ws, word) && word <= rest
    ensures word <= rest[..FirstSpace(ws, rest)]
  {
    assert forall k :: 0 <= k < |word| ==> rest[k] == word[k];
    assert FirstSpace(ws, rest) >= |word|;
  }

  lemma RunHasPlace(ws: Space, d: string, i: nat)
    requires i < |d| && !ws(d[i]) && (i == 0 || ws(d[i - 1]))
    ensures var w := d[i..][..FirstSpace(ws, d[i..])]; PlacedAt(ws, d, i, i + |w|, w)
  {
    var rest := d[i..];
    assert forall k :: i <= k < |d| ==> d[k] == rest[k - i];
  }

  lemma SpelledWords(ws: Space, name: string, src: string, word: string)
    requires ws(' ') && Unspaced(ws, name) && Unspaced(ws, word)
    ensures Words(ws, " " + name + " " + src + " " + word) == [name] + Words(ws, src) + [word]
  {
    var a := " " + name;
    var b := a + [' '] + src;
    assert " " + name + " " + src + " " + word == b + [' '] + word;
    WordsAppend(ws, b, ' ', word);
    WordsAppend(ws, a, ' ', src);
    WordsAppend(ws, "", ' ', name);
    assert "" + [' '] + name == a;
    OneWord(ws, name);
    OneWord(ws, word);
    assert Words(ws, "") + [name] == [name];
  }

  lemma FirstOfThree(a: string, b: seq<string>, c: string)
    ensures ([a] + b + [c])[0] == a && ([a] + b + [c])[1..] == b + [c]
  {
  }

  // ---------------------------------------------------------------------------
  // Two ideas of white space
  // ---------------------------------------------------------------------------

  /** Everything narrow white space is also white space in the wide sense. */
  ghost predicate Narrower(narrow: Space, wide: Space) {
    forall c :: narrow(c) ==> wide(c)
  }

  predicate Blank(ws: Space, s: string) {
    forall i :: 0 <= i < |s| ==> ws(s[i])
  }

  /** What trimming takes off the front, */
  function Lead(ws: Space, s: string): string {
    TrimStartSpec(ws, s);
    s[..|s| - |TrimStart(ws, s)|]
  }

  /** and off the end. */
  function Tail(ws: Space, s: string): string {
    TrimEndSpec(ws, s);
    s[|TrimEnd(ws, s)|..]
  }

  lemma WordsFirstChar(ws: Space, t: string)
    requires t != "" && !ws(t[0])
    ensures var words := Words(ws, t); words != [] && words[0] != "" && words[0][0] == t[0]
  {
    WordsStep(ws, t, FirstSpace(ws, t));
  }

  /** The last character of the last word. */
  predicate EndIn(words: seq<string>, c: char) {
    words != [] && var last := words[|words| - 1]; last != "" && last[|last| - 1] == c
  }

  lemma {:induction false} WordsLastChar(ws: Space, t: string)
    requires t != "" && !ws(t[|t| - 1])
    ensures EndIn(Words(ws, t), t[|t| - 1])
    decreases |t|
  {
    var i := FirstSpace(ws, t);
    WordsStep(ws, t, i);
    var cut := if i == 0 then 1 else i;
    if cut < |t| {
      WordsLastChar(ws, t[cut..]);
    }
  }

  /** Trimming the end in the wide sense keeps the words exactly when it takes off nothing
      but narrow white space: anything else ends the last word. */
  lemma TailKeepsWords(narrow: Space, wide: Space, s: string)
    requires Narrower(narrow, wide)
    ensures Words(narrow, TrimEnd(wide, s)) == Words(narrow, s) <==> Blank(narrow, Tail(wide, s))
  {
    var e, t := TrimEnd(wide, s), TrimEnd(narrow, s);
    TrimEndSpec(wide, s);
    TrimEndSpec(narrow, s);
    WordsTrimEnd(narrow, s);
    BlankTail(narrow, wide, s);
    if Blank(narrow, Tail(wide, s)) {
      TrimEndUnique(narrow, s, e);
    } else {
      assert t[|t| - 1] == s[|t| - 1];
      EndsDiffer(narrow, wide, e, t);
    }
  }

  lemma BlankTail(narrow: Space, wide: Space, s: string)
    ensures Blank(narrow, Tail(wide, s)) <==> forall i :: |TrimEnd(wide, s)| <= i < |s| ==> narrow(s[i])
  {
    TrimEndSpec(wide, s);
    var n, tail := |TrimEnd(wide, s)|, Tail(wide, s);
    assert forall i :: 0 <= i < |tail| ==> tail[i] == s[n + i];
    assert forall i :: n <= i < |s| ==> s[i] == tail[i - n];
  }

  lemma EndsDiffer(narrow: Space, wide: Space, e: string, t: string)
    requires Narrower(narrow, wide) && t != "" && !narrow(t[|t| - 1]) && wide(t[|t| - 1])
    requires e != "" ==> !wide(e[|e| - 1])
    ensures Words(narrow, e) != Words(narrow, t)
  {
    WordsLastChar(narrow, t);
    if e != "" {
      WordsLastChar(narrow, e);
      EndsApart(Words(narrow, e), e[|e| - 1], Words(narrow, t), t[|t| - 1]);
    }
  }

  lemma EndsApart(a: seq<string>, x: char, b: seq<string>, y: char)
    requires EndIn(a, x) && EndIn(b, y) && x != y
    ensures a != b
  {
  }

  lemma NarrowLead(narrow: Space, wide: Space, s: string)
    requires Narrower(narrow, wide) && Blank(narrow, Lead(wide, s))
    ensures TrimStart(narrow, s) == TrimStart(wide, s) && Words(narrow, TrimStart(wide, s)) == Words(narrow, s)
  {
    var y := TrimStart(wide, s);
    TrimStartSpec(wide, s);
    assert forall i :: 0 <= i < |s| - |y| ==> Lead(wide, s)[i] == s[i];
    TrimStartUnique(narrow, s, y);
    WordsTrimStart(narrow, s);
  }

  /** A first word that does not begin with wide white space has only narrow before it. */
  lemma CleanFirstWord(narrow: Space, wide: Space, s: string)
    requires Narrower(narrow, wide) && Words(narrow, s) != [] && Words(narrow, s)[0] != "" && !wide(Words(narrow, s)[0][0])
    ensures Blank(narrow, Lead(wide, s))
  {
    var t := TrimStart(narrow, s);
    TrimStartSpec(narrow, s);
    WordsTrimStart(narrow, s);
    assert t != "";
    WordsFirstChar(narrow, t);
    TrimStartUnique(wide, s, t);
  }

  lemma WordsNonempty(ws: Space, s: string)
    ensures Words(ws, s) != [] ==> Words(ws, s)[0] != ""
  {
    var t := TrimStart(ws, s);
    TrimStartSpec(ws, s);
    WordsTrimStart(ws, s);
    if t != "" {
      WordsFirstChar(ws, t);
    }
  }

  /** The same at the front. */
  lemma LeadKeepsWords(narrow: Space, wide: Space, s: string)
    requires Narrower(narrow, wide)
    ensures Words(narrow, TrimStart(wide, s)) == Words(narrow, s) <==> Blank(narrow, Lead(wide, s))
  {
    var y := TrimStart(wide, s);
    TrimStartSpec(wide, s);
    if Blank(narrow, Lead(wide, s)) {
      NarrowLead(narrow, wide, s);
    } else if y != "" {
      WordsFirstChar(narrow, y);
      if Words(narrow, y) == Words(narrow, s) {
        CleanFirstWord(narrow, wide, s);
      }
    } else {
      NoWordsIsBlank(narrow, s);
      assert y == "" && Lead(wide, s) == s;
    }
  }

  lemma NoWordsIsBlank(ws: Space, s: string)
    ensures Words(ws, s) == [] <==> Blank(ws, s)
  {
    var t := TrimStart(ws, s);
    TrimStartSpec(ws, s);
    WordsTrimStart(ws, s);
    if t != "" {
      WordsFirstChar(ws, t);
      assert t[0] == s[|s| - |t|];
    }
  }

  lemma TailAfterLead(ws: Space, s: string)
    requires TrimStart(ws, s) != ""
    ensures Tail(ws, TrimStart(ws, s)) == Tail(ws, s)
  {
    var y := TrimStart(ws, s);
    var e, n := TrimEnd(ws, y), |s| - |y|;
    TrimStartSpec(ws, s);
    TrimEndSpec(ws, y);
    assert e != "";
    EndOfSuffix(ws, s, n, e);
    CutTwice(s, n, |e|);
  }

  lemma EndOfSuffix(ws: Space, s: string, n: nat, e: string)
    requires n <= |s| && e <= s[n..] && e != "" && !ws(e[|e| - 1]) && forall i :: |e| <= i < |s[n..]| ==> ws(s[n..][i])
    ensures TrimEnd(ws, s) == s[..n + |e|]
  {
    var y, r := s[n..], s[..n + |e|];
    assert r[|r| - 1] == y[|e| - 1] == e[|e| - 1];
    assert forall i :: n + |e| <= i < |s| ==> s[i] == y[i - n];
    TrimEndUnique(ws, s, r);
  }

  /** And at both ends together. */
  lemma TrimKeepsWords(narrow: Space, wide: Space, s: string)
    requires Narrower(narrow, wide)
    ensures Words(narrow, Trim(wide, s)) == Words(narrow, s) <==> Blank(narrow, Lead(wide, s)) && Blank(narrow, Tail(wide, s))
  {
    var y, u := TrimStart(wide, s), Trim(wide, s);
    TrimStartSpec(wide, s);
    TrimEndSpec(wide, s);
    TrimEndSpec(wide, y);
    LeadKeepsWords(narrow, wide, s);
    TailKeepsWords(narrow, wide, y);
    if y == "" {
      BlankEnds(narrow, wide, s);
    } else {
      TailAfterLead(wide, s);
      assert u[0] == y[0];
      WordsFirstChar(narrow, u);
      if Words(narrow, u) == Words(narrow, s) {
        CleanFirstWord(narrow, wide, s);
      }
    }
  }

  lemma BlankEnds(narrow: Space, wide: Space, s: string)
    requires TrimStart(wide, s) == ""
    ensures Lead(wide, s) == s && Tail(wide, s) == s
  {
    TrimStartSpec(wide, s);
    TrimEndUnique(wide, s, "");
  }

  /** A first word without wide white space in it survives trimming the end. */
  lemma {:induction false} FirstWordSurvives(narrow: Space, wide: Space, s: string, e: string)
    requires e <= s && (forall i :: |e| <= i < |s| ==> wide(s[i]))
    requires Words(narrow, s) != [] && forall i :: 0 <= i < |Words(narrow, s)[0]| ==> !wide(Words(narrow, s)[0][i])
    ensures Words(narrow, e) != [] && Words(narrow, e)[0] == Words(narrow, s)[0]
    decreases |s|
  {
    var f := FirstSpace(narrow, s);
    WordsStep(narrow, s, f);
    if f == 0 {
      var rest := if e == "" then "" else e[1..];
      assert forall i :: 0 <= i < |s| - 1 ==> s[1..][i] == s[i + 1];
      FirstWordSurvives(narrow, wide, s[1..], rest);
      FirstSpaceIs(narrow, e, 0);
      WordsStep(narrow, e, 0);
    } else {
      assert Words(narrow, s)[0] == s[..f] && !wide(s[..f][f - 1]);
      assert |e| >= f;
      FirstSpaceIs(narrow, e, f);
      WordsStep(narrow, e, f);
    }
  }

  /** No way to write the name has wide white space in it. */
  ghost predicate SolidName(wide: Space, name: string) {
    name != "" && forall c, i :: 0 <= i < |name| && Lower(c) == name[i] ==> !wide(c)
  }

  /** The trimmed text begins with the name and nothing but narrow white space is before. */
  predicate NameLeads(narrow: Space, wide: Space, name: string, d: string) {
    StartsWith(name, Trim(wide, d)) && Blank(narrow, Lead(wide, d))
  }

  lemma PrefixStarts(name: string, t: string, u: string)
    requires u <= t && |name| <= |u|
    ensures StartsWith(name, t) <==> StartsWith(name, u)
  {
  }

  lemma SolidSurvives(wide: Space, name: string, t: string)
    requires SolidName(wide, name) && StartsWith(name, t)
    ensures StartsWith(name, TrimEnd(wide, t)) && !wide(t[0])
  {
    TrimEndSpec(wide, t);
    assert Lower(t[|name| - 1]) == name[|name| - 1];
    assert |TrimEnd(wide, t)| >= |name|;
    PrefixStarts(name, t, TrimEnd(wide, t));
  }

  /** Which is what it takes for the first word to begin with it. */
  lemma NameIsFirstWord(narrow: Space, wide: Space, name: string, d: string)
    requires Narrower(narrow, wide) && SolidName(wide, name)
    ensures (Words(narrow, d) != [] && StartsWith(name, Words(narrow, d)[0])) <==> NameLeads(narrow, wide, name, d)
  {
    if NameLeads(narrow, wide, name, d) {
      NameLeadsFirst(narrow, wide, name, d);
    }
    if Words(narrow, d) != [] && StartsWith(name, Words(narrow, d)[0]) {
      FirstWordLeads(narrow, wide, name, d);
    }
  }

  lemma FirstWordLeads(narrow: Space, wide: Space, name: string, d: string)
    requires Narrower(narrow, wide) && SolidName(wide, name) && Words(narrow, d) != [] && StartsWith(name, Words(narrow, d)[0])
    ensures NameLeads(narrow, wide, name, d)
  {
    var t := TrimStart(narrow, d);
    var f := FirstSpace(narrow, t);
    WordsTrimStart(narrow, d);
    TrimStartSpec(narrow, d);
    WordsStep(narrow, t, f);
    assert f > 0;
    PrefixStarts(name, t, t[..f]);
    SolidSurvives(wide, name, t);
    TrimStartUnique(wide, d, t);
  }

  lemma NameLeadsFirst(narrow: Space, wide: Space, name: string, d: string)
    requires Narrower(narrow, wide) && SolidName(wide, name) && NameLeads(narrow, wide, name, d)
    ensures var y := TrimStart(wide, d);
            var f := FirstSpace(narrow, y);
            && StartsWith(name, y) && |name| <= f
            && Words(narrow, d) == [y[..f]] + Words(narrow, y[f..])
  {
    var y := TrimStart(wide, d);
    NarrowLead(narrow, wide, d);
    TrimEndSpec(wide, y);
    PrefixStarts(name, y, TrimEnd(wide, y));
    var f := FirstSpace(narrow, y);
    assert forall i :: 0 <= i < |name| ==> !narrow(y[i]);
    WordsStep(narrow, y, f);
  }

  /** What follows the name. */
  function After(wide: Space, name: string, d: string): string
    requires StartsWith(name, Trim(wide, d))
  {
    TrimEndSpec(wide, TrimStart(wide, d));
    TrimStart(wide, d)[|name|..]
  }

  /** The name leads, and ends there. */
  predicate NameAlone(narrow: Space, wide: Space, name: string, d: string) {
    NameLeads(narrow, wide, name, d) && (var rest := After(wide, name, d); rest == "" || narrow(rest[0]))
  }

  lemma NameIsWholeWord(narrow: Space, wide: Space, name: string, d: string)
    requires Narrower(narrow, wide) && SolidName(wide, name)
    ensures (Words(narrow, d) != [] && StartsWith(name, Words(narrow, d)[0]) && |Words(narrow, d)[0]| == |name|)
            <==> NameAlone(narrow, wide, name, d)
    ensures NameAlone(narrow, wide, name, d) ==> Words(narrow, d)[1..] == Words(narrow, After(wide, name, d))
  {
    NameIsFirstWord(narrow, wide, name, d);
    if NameLeads(narrow, wide, name, d) {
      NameLeadsFirst(narrow, wide, name, d);
      var y, rest := TrimStart(wide, d), After(wide, name, d);
      var f := FirstSpace(narrow, y);
      assert rest != "" ==> rest[0] == y[|name|];
      assert f == |name| <==> rest == "" || narrow(rest[0]);
      assert f == |name| ==> y[f..] == rest;
    }
  }
}
