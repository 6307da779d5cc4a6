/** String operations the sources share, each over a caller's idea of white space. */
module Text {
  import opened Basics

  type Space = char -> bool

  /** What JavaScript's `trim` strips and its `\s` matches. */
  predicate JsSpace(c: char) {
    || c in {'\t', '\n', '\U{000B}', '\U{000C}', '\r', ' ', '\U{00A0}', '\U{1680}'}
    || '\U{2000}' <= c <= '\U{200A}'
    || c in {'\U{2028}', '\U{2029}', '\U{202F}', '\U{205F}', '\U{3000}', '\U{FEFF}'}
  }

  /** Rust's `char::is_whitespace`: the Unicode `White_Space` property. */
  predicate RustSpace(c: char) {
    || c in {'\t', '\n', '\U{000B}', '\U{000C}', '\r', ' ', '\U{0085}', '\U{00A0}', '\U{1680}'}
    || '\U{2000}' <= c <= '\U{200A}'
    || c in {'\U{2028}', '\U{2029}', '\U{202F}', '\U{205F}', '\U{3000}'}
  }

  /** ASCII white space of the web platform, and Rust's `is_ascii_whitespace`. */
  predicate AsciiSpace(c: char) {
    c in {'\t', '\n', '\U{000C}', '\r', ' '}
  }

  /** How the three differ: JavaScript knows the byte order mark and not the next-line
      character, and the web platform only what is ASCII, and no vertical tab. */
  lemma SpacesCompared(c: char)
    ensures JsSpace(c) <==> (RustSpace(c) && c != '\U{0085}') || c == '\U{FEFF}'
    ensures AsciiSpace(c) <==> RustSpace(c) && c < 128 as char && c != '\U{000B}'
  {
  }

  function Lower(c: char): char {
    if 'A' <= c <= 'Z' then c + 32 as char else c
  }

  /** Begins with a lower-case name, whatever the case it is written in. */
  predicate StartsWith(name: string, t: string) {
    |name| <= |t| && forall i :: 0 <= i < |name| ==> Lower(t[i]) == name[i]
  }

  predicate EqualButForCase(x: char, y: char) {
    || x == y
    || ('a' <= x <= 'z' && x as int - y as int == 32)
    || ('a' <= y <= 'z' && y as int - x as int == 32)
  }

  /** Letter by letter, a lower-case name or its capitals. */
  lemma StartsWithExactly(name: string, t: string)
    requires forall i :: 0 <= i < |name| ==> !('A' <= name[i] <= 'Z')
    ensures StartsWith(name, t) <==>
            |name| <= |t| && forall i :: 0 <= i < |name| ==> EqualButForCase(name[i], t[i])
  {
    assert forall x, y :: !('A' <= x <= 'Z') ==> (Lower(y) == x <==> EqualButForCase(x, y));
  }

  function TrimStart(ws: Space, s: string): string {
    if s != "" && ws(s[0]) then TrimStart(ws, s[1..]) else s
  }

  function TrimEnd(ws: Space, s: string): string {
    if s != "" && ws(s[|s| - 1]) then TrimEnd(ws, s[..|s| - 1]) else s
  }

  function Trim(ws: Space, s: string): string {
    TrimEnd(ws, TrimStart(ws, s))
  }

  lemma CutTwice(s: string, i: nat, j: nat)
    requires i + j <= |s|
    ensures s[i..][j..] == s[i + j..]
  {
  }

  lemma {:induction false} TrimStartSpec(ws: Space, s: string)
    ensures var r := TrimStart(ws, s);
            && |r| <= |s| && r == s[|s| - |r|..]
            && (r != "" ==> !ws(r[0]))
            && (forall i :: 0 <= i < |s| - |r| ==> ws(s[i]))
  {
    if s != "" && ws(s[0]) {
      var rest, r := s[1..], TrimStart(ws, s[1..]);
      TrimStartSpec(ws, rest);
      CutTwice(s, 1, |rest| - |r|);
      assert forall i :: 1 <= i < |s| - |r| ==> s[i] == rest[i - 1];
    }
  }

  lemma TrimStartUnique(ws: Space, s: string, r: string)
    requires |r| <= |s| && r == s[|s| - |r|..] && (forall i :: 0 <= i < |s| - |r| ==> ws(s[i]))
    requires r != "" ==> !ws(r[0])
    ensures TrimStart(ws, s) == r
  {
    TrimStartSpec(ws, s);
    var t := TrimStart(ws, s);
    assert r != "" ==> r[0] == s[|s| - |r|];
    assert t != "" ==> t[0] == s[|s| - |t|];
    assert |t| <= |r| && |r| <= |t|;
  }

  lemma {:induction false} TrimEndSpec(ws: Space, s: string)
    ensures var r := TrimEnd(ws, s);
            && r <= s
            && (r != "" ==> !ws(r[|r| - 1]))
            && (forall i :: |r| <= i < |s| ==> ws(s[i]))
  {
    if s != "" && ws(s[|s| - 1]) {
      TrimEndSpec(ws, s[..|s| - 1]);
    }
  }

  lemma TrimEndUnique(ws: Space, s: string, r: string)
    requires r <= s && (forall i :: |r| <= i < |s| ==> ws(s[i]))
    requires r != "" ==> !ws(r[|r| - 1])
    ensures TrimEnd(ws, s) == r
  {
    TrimEndSpec(ws, s);
    var t := TrimEnd(ws, s);
    assert |t| <= |r|;
    assert |r| <= |t|;
  }

  lemma TrimNothing(ws: Space, s: string)
    requires forall i :: 0 <= i < |s| ==> !ws(s[i])
    ensures Trim(ws, s) == s
  {
  }

  /** White space after a text is trimmed with it. */
  lemma TrimBlankEnd(ws: Space, s: string, t: string)
    requires t <= s && forall i :: |t| <= i < |s| ==> ws(s[i])
    ensures Trim(ws, s) == Trim(ws, t)
  {
    var a, b := TrimStart(ws, s), TrimStart(ws, t);
    TrimStartSpec(ws, s);
    TrimStartSpec(ws, t);
    TrimEndSpec(ws, b);
    if b != "" {
      assert |s| - |a| == |t| - |b|;
      TrimEndUnique(ws, a, TrimEnd(ws, b));
    } else {
      assert forall i :: 0 <= i < |s| ==> ws(s[i]);
    }
  }

  /** The first index of white space, or the length. */
  function FirstSpace(ws: Space, s: string): (i: nat)
    ensures i <= |s|
    ensures i < |s| ==> ws(s[i])
    ensures forall k :: 0 <= k < i ==> !ws(s[k])
  {
    if s == "" || ws(s[0]) then 0 else 1 + FirstSpace(ws, s[1..])
  }

  lemma {:induction false} FirstSpaceIs(ws: Space, s: string, i: nat)
    requires i <= |s| && (i < |s| ==> ws(s[i])) && forall k :: 0 <= k < i ==> !ws(s[k])
    ensures FirstSpace(ws, s) == i
  {
    var j := FirstSpace(ws, s);
    assert j >= i && i >= j;
  }

  /** The text before the first white space and the text after it, each trimmed. */
  function SplitWords(ws: Space, s: string): Option<(string, string)> {
    var i := FirstSpace(ws, s);
    if i == |s| then None else Some((Trim(ws, s[..i]), Trim(ws, s[i + 1..])))
  }

  lemma PrefixCut(s: string, t: string, i: nat)
    requires t <= s && i < |t|
    ensures t[..i] == s[..i] && t[i + 1..] <= s[i + 1..]
  {
    assert forall k :: 0 <= k < |t| ==> t[k] == s[k];
  }

  /** White space in the part that stays: both words are found as before. */
  lemma SplitWithin(ws: Space, s: string, t: string, i: nat)
    requires t <= s && i == FirstSpace(ws, s) < |t| && forall k :: |t| <= k < |s| ==> ws(s[k])
    ensures SplitWords(ws, s) == SplitWords(ws, t)
  {
    PrefixCut(s, t, i);
    FirstSpaceIs(ws, t, i);
    var after := s[i + 1..];
    assert forall k :: |t| - i - 1 <= k < |after| ==> after[k] == s[i + 1 + k];
    TrimBlankEnd(ws, after, t[i + 1..]);
  }

  /** White space only in the part that goes: there never were two words. */
  lemma SplitBeyond(ws: Space, s: string, t: string, i: nat)
    requires t <= s && i == FirstSpace(ws, s) >= |t| && forall k :: |t| <= k < |s| ==> ws(s[k])
    ensures SplitWords(ws, t) == None
    ensures SplitWords(ws, s) == if i == |s| then None else Some((Trim(ws, s[..i]), ""))
  {
    FirstSpaceIs(ws, t, |t|);
    if i < |s| {
      var after := s[i + 1..];
      assert forall k :: 0 <= k < |after| ==> after[k] == s[i + 1 + k];
      TrimBlankEnd(ws, after, "");
    }
  }

  /** White space at the end changes nothing, except that it may end a lone first word. */
  lemma SplitTrimmedEnd(ws: Space, s: string)
    ensures var words, trimmed := SplitWords(ws, s), SplitWords(ws, TrimEnd(ws, s));
            words == trimmed || (trimmed.None? && words.Some? && words.value.1 == "")
  {
    var t, i := TrimEnd(ws, s), FirstSpace(ws, s);
    TrimEndSpec(ws, s);
    if i < |t| {
      SplitWithin(ws, s, t, i);
    } else {
      SplitBeyond(ws, s, t, i);
    }
  }

  lemma SplitTwoWords(ws: Space, a: string, sep: char, b: string)
    requires ws(sep) && (forall i :: 0 <= i < |a| ==> !ws(a[i])) && (forall i :: 0 <= i < |b| ==> !ws(b[i]))
    ensures SplitWords(ws, a + [sep] + b) == Some((a, b))
  {
    var s := a + [sep] + b;
    FirstSpaceIs(ws, s, |a|);
    assert s[..|a|] == a && s[|a| + 1..] == b;
    TrimNothing(ws, a);
    TrimNothing(ws, b);
  }

  lemma SplitFirstWord(ws: Space, s: string)
    requires s != "" && !ws(s[0])
    ensures var words := SplitWords(ws, s);
            words.Some? ==> words.value.0 != "" && words.value.0[0] == s[0]
  {
    var i := FirstSpace(ws, s);
    var word := s[..i];
    assert i > 0 && word[0] == s[0];
    TrimNothing(ws, word);
  }

  /** The first index of `c`, or the length. */
  function IndexOf(s: string, c: char): (i: nat)
    ensures i <= |s|
    ensures i < |s| ==> s[i] == c
    ensures c !in s[..i]
    ensures i == |s| <==> c !in s
  {
    if s == "" then 0
    else if s[0] == c then 0
    else
      var i := 1 + IndexOf(s[1..], c);
      assert s[..i] == [s[0]] + s[1..][..i - 1];
      i
  }

  /** `word` occurs in `s` at `i`. */
  predicate At(s: string, i: nat, word: string) {
    i + |word| <= |s| && s[i..i + |word|] == word
  }

  /** `word` occurs at `i`, at the start or after white space. */
  predicate Begins(ws: Space, s: string, i: nat, word: string) {
    At(s, i, word) && (i == 0 || ws(s[i - 1]))
  }

  /** An occurrence in what is left after a cut is the shifted occurrence in the whole. */
  lemma AtCut(s: string, cut: nat, i: nat, word: string)
    requires cut <= |s|
    ensures At(s[cut..], i, word) <==> At(s, cut + i, word)
  {
    if cut + i + |word| <= |s| {
      assert s[cut..][i..i + |word|] == s[cut + i..cut + i + |word|];
    }
  }

  /** `s` cut at every `c`: one more piece than there are `c`s. */
  function Split(s: string, c: char): (pieces: seq<string>)
    ensures |pieces| > 0
    decreases |s|
  {
    var i := IndexOf(s, c);
    if i == |s| then [s] else [s[..i]] + Split(s[i + 1..], c)
  }

  function Join(pieces: seq<string>, c: char): string
    requires |pieces| > 0
  {
    if |pieces| == 1 then pieces[0] else pieces[0] + [c] + Join(pieces[1..], c)
  }

  /** No piece contains the separator. */
  ghost predicate Separated(pieces: seq<string>, c: char) {
    forall i :: 0 <= i < |pieces| ==> c !in pieces[i]
  }

  lemma {:induction false} IndexOfAppend(a: string, b: string, c: char)
    requires c !in a
    ensures IndexOf(a + [c] + b, c) == |a|
  {
    if a != "" {
      assert (a + [c] + b)[1..] == a[1..] + [c] + b;
      IndexOfAppend(a[1..], b, c);
    }
  }

  lemma {:induction false} JoinSplit(s: string, c: char)
    ensures Join(Split(s, c), c) == s && Separated(Split(s, c), c)
    decreases |s|
  {
    var i := IndexOf(s, c);
    if i < |s| {
      JoinSplit(s[i + 1..], c);
      assert s == s[..i] + [c] + s[i + 1..];
      assert Split(s, c)[1..] == Split(s[i + 1..], c);
    }
  }

  lemma SplitFirst(a: string, b: string, c: char)
    requires c !in a
    ensures Split(a + [c] + b, c) == [a] + Split(b, c)
  {
    var s := a + [c] + b;
    IndexOfAppend(a, b, c);
    assert s[..|a|] == a && s[|a| + 1..] == b;
  }

  /** Splitting and joining are inverse, so the pieces are determined by the text. */
  lemma {:induction false} SplitJoin(pieces: seq<string>, c: char)
    requires |pieces| > 0 && Separated(pieces, c)
    ensures Split(Join(pieces, c), c) == pieces
  {
    if |pieces| == 1 {
      assert c !in pieces[0];
      assert pieces == [pieces[0]];
    } else {
      SplitJoin(pieces[1..], c);
      SplitFirst(pieces[0], Join(pieces[1..], c), c);
      assert pieces == [pieces[0]] + pieces[1..];
    }
  }
}
