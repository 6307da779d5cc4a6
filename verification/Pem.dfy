/**
 The PEM reader of `crates/cast-replay/src/pem.rs`: base64 between two labelled markers, in
 the framing of section 2 of RFC 7468, found by searching for the markers.
 */
module Pem {
  import opened Basics
  import opened Text
  import Base64

  datatype Error = Unterminated | NotBase64 | WrongCount(found: nat)

  function Begin(name: string): string {
    "-----BEGIN " + name + "-----"
  }

  function End(name: string): string {
    "-----END " + name + "-----"
  }

  /** The first occurrence of `word` in `s` at or after `from`, or `|s| + 1`. */
  function FindFrom(s: string, word: string, from: nat): nat
    requires from <= |s| + 1
    decreases |s| + 1 - from
  {
    if from == |s| + 1 || At(s, from, word) then from else FindFrom(s, word, from + 1)
  }

  lemma {:induction false} FindFromSpec(s: string, word: string, from: nat)
    requires from <= |s| + 1
    ensures var i := FindFrom(s, word, from);
            && from <= i <= |s| + 1
            && (i <= |s| ==> At(s, i, word))
            && (forall k :: from <= k < i ==> !At(s, k, word))
    decreases |s| + 1 - from
  {
    if from <= |s| && !At(s, from, word) {
      FindFromSpec(s, word, from + 1);
    }
  }

  lemma FindFromIs(s: string, word: string, from: nat, i: nat)
    requires from <= i <= |s| && At(s, i, word) && forall k :: from <= k < i ==> !At(s, k, word)
    ensures FindFrom(s, word, from) == i
  {
    FindFromSpec(s, word, from);
    var f := FindFrom(s, word, from);
    assert f <= i;
    assert f >= i;
  }

  function Strip(s: string): string {
    if s == "" then "" else (if AsciiSpace(s[0]) then "" else [s[0]]) + Strip(s[1..])
  }

  type BodyReader = string -> Option<seq<byte>>

  /** A body: base64 once the white space is out of it. */
  function DecodeBody(body: string): Option<seq<byte>> {
    Base64.Decode(Strip(body))
  }

  /** What the next search finds: no opening marker, one without a closing marker, or the
      bounds of a body. */
  datatype Found = Nothing | Open | Body(from: nat, to: nat)

  function Next(rest: string, begin: string, end: string): (r: Found)
    ensures r.Body? ==> |begin| <= r.from <= r.to && r.to + |end| <= |rest|
  {
    FindFromSpec(rest, begin, 0);
    var start := FindFrom(rest, begin, 0);
    if start > |rest| then Nothing
    else
      FindFromSpec(rest, end, start + |begin|);
      var bodyEnd := FindFrom(rest, end, start + |begin|);
      if bodyEnd > |rest| then Open else Body(start + |begin|, bodyEnd)
  }

  /** The scan of what is left of the text. It shrinks by at least the two markers. */
  function Scan(read: BodyReader, rest: string, begin: string, end: string): Result<seq<seq<byte>>, Error>
    requires begin != ""
    decreases |rest|
  {
    match Next(rest, begin, end)
    case Nothing => Ok([])
    case Open => Err(Unterminated)
    case Body(from, to) =>
      match read(rest[from..to])
      case None => Err(NotBase64)
      case Some(block) => Prepend([block], Scan(read, rest[to + |end|..], begin, end))
  }

  /** Blocks already found, in front of what the rest of the scan gives. */
  function Prepend(out: seq<seq<byte>>, r: Result<seq<seq<byte>>, Error>): Result<seq<seq<byte>>, Error> {
    match r
    case Err(e) => Err(e)
    case Ok(blocks) => Ok(out + blocks)
  }

  function DecodeAll(pem: string, name: string): Result<seq<seq<byte>>, Error> {
    Scan(DecodeBody, pem, Begin(name), End(name))
  }

  function DecodeOne(pem: string, name: string): Result<seq<byte>, Error> {
    match DecodeAll(pem, name)
    case Err(e) => Err(e)
    case Ok(blocks) => if |blocks| == 1 then Ok(blocks[0]) else Err(WrongCount(|blocks|))
  }

  // ---------------------------------------------------------------------------
  // Documents
  // ---------------------------------------------------------------------------

  /** Text before a block, and the block's body as written between its markers. */
  datatype Block = Block(noise: string, body: string)

  function Document(begin: string, end: string, blocks: seq<Block>, trailer: string): string {
    if blocks == [] then trailer
    else blocks[0].noise + begin + blocks[0].body + end + Document(begin, end, blocks[1..], trailer)
  }

  ghost predicate Absent(s: string, word: string) {
    forall i: nat :: i <= |s| ==> !At(s, i, word)
  }

  /** The marker after this noise is the first one: none starts in the noise, not even one
      that runs over into the marker. */
  ghost predicate MarkerFirst(noise: string, begin: string) {
    forall k: nat :: k < |noise| ==> !At(noise + begin, k, begin)
  }

  /** Noise without the opening marker, empty or ended by a newline. */
  ghost predicate CleanNoise(noise: string, begin: string) {
    Absent(noise, begin) && (noise == "" || noise[|noise| - 1] == '\n')
  }

  /** The blocks read as `data`, and each one's marker is the first after what precedes it. */
  ghost predicate Carries(read: BodyReader, blocks: seq<Block>, begin: string, data: seq<seq<byte>>) {
    && |blocks| == |data|
    && (forall i :: 0 <= i < |blocks| ==> MarkerFirst(blocks[i].noise, begin) && read(blocks[i].body) == Some(data[i]))
  }

  /** An occurrence in a suffix is the shifted occurrence in the whole. */
  lemma AtShift(a: string, b: string, i: nat, word: string)
    ensures At(a + b, |a| + i, word) <==> At(b, i, word)
  {
    if i + |word| <= |b| {
      assert (a + b)[|a| + i..|a| + i + |word|] == b[i..i + |word|];
    }
  }

  lemma AtPrefix(a: string, b: string, i: nat, word: string)
    requires i + |word| <= |a|
    ensures At(a + b, i, word) <==> At(a, i, word)
  {
    assert (a + b)[i..i + |word|] == a[i..i + |word|];
  }

  /** The newline that clean noise ends with keeps markers from running over. */
  lemma CleanIsFirst(noise: string, begin: string)
    requires CleanNoise(noise, begin) && '\n' !in begin
    ensures MarkerFirst(noise, begin)
  {
    var s := noise + begin;
    forall k: nat | k < |noise|
      ensures !At(s, k, begin)
    {
      if k + |begin| <= |noise| {
        AtPrefix(noise, begin, k, begin);
      } else if k + |begin| <= |s| {
        assert s[k..k + |begin|][|noise| - 1 - k] == s[|noise| - 1] == '\n';
      }
    }
  }

  /** Then the search stops at it, whatever follows. */
  lemma FirstBegin(noise: string, begin: string, rest: string)
    requires MarkerFirst(noise, begin)
    ensures FindFrom(noise + (begin + rest), begin, 0) == |noise|
  {
    var s := noise + (begin + rest);
    assert s == (noise + begin) + rest;
    AtShift(noise, begin + rest, 0, begin);
    assert (begin + rest)[0..|begin|] == begin;
    forall k: nat | k < |noise|
      ensures !At(s, k, begin)
    {
      AtPrefix(noise + begin, rest, k, begin);
    }
    FindFromIs(s, begin, 0, |noise|);
  }

  /** The closing marker is found where it comes first after what is behind already. */
  lemma FirstEnd(head: string, body: string, end: string, rest: string)
    requires MarkerFirst(body, end)
    ensures FindFrom(head + (body + (end + rest)), end, |head|) == |head| + |body|
  {
    var tail := body + (end + rest);
    var s := head + tail;
    FirstBegin(body, end, rest);
    FindFromSpec(tail, end, 0);
    AtShift(head, tail, |body|, end);
    forall k: nat | |head| <= k < |head| + |body|
      ensures !At(s, k, end)
    {
      AtShift(head, tail, k - |head|, end);
    }
    FindFromIs(s, end, |head|, |head| + |body|);
  }

  /** A body without a dash has none that could begin a marker. */
  lemma DashlessFirst(body: string, end: string)
    requires '-' !in body && end != "" && end[0] == '-'
    ensures MarkerFirst(body, end)
  {
    var s := body + end;
    forall k: nat | k < |body|
      ensures !At(s, k, end)
    {
      if k + |end| <= |s| {
        assert s[k..k + |end|][0] == s[k] == body[k];
      }
    }
  }

  /** Stripping goes character by character, and takes out exactly the ASCII white space. */
  lemma {:induction false} StripIsFilter(a: string, c: char, b: string)
    ensures Strip(a + [c] + b) == Strip(a) + (if c in "\t\n\U{000C}\r " then "" else [c]) + Strip(b)
  {
    var s := a + [c] + b;
    if a == "" {
      assert s[1..] == b;
    } else {
      assert s[1..] == a[1..] + [c] + b;
      StripIsFilter(a[1..], c, b);
    }
  }

  lemma {:induction false} StripMembers(s: string)
    ensures forall c :: c in s ==> AsciiSpace(c) || c in Strip(s)
  {
    if s != "" {
      StripMembers(s[1..]);
    }
  }

  /** A reader that refuses every body with a dash in it. */
  ghost predicate RefusesDash(read: BodyReader) {
    forall body: string :: '-' in body ==> read(body) == None
  }

  lemma DecodeBodyRefusesDash()
    ensures RefusesDash(DecodeBody)
  {
    forall body: string | '-' in body
      ensures DecodeBody(body) == None
    {
      StripMembers(body);
      DashIsNotBase64(Strip(body));
    }
  }

  lemma DashIsNotBase64(s: string)
    requires '-' in s
    ensures Base64.Decode(s) == None
  {
    if Base64.Decode(s).Some? {
      Base64.DecodedAlphabet(s);
      assert false;
    }
  }

  lemma Markers(name: string)
    ensures var begin, end := Begin(name), End(name);
            && begin != "" && end != "" && end[0] == '-'
            && ('\n' !in name ==> '\n' !in begin)
  {
  }

  lemma NextIs(s: string, begin: string, end: string, start: nat, bodyEnd: nat)
    requires FindFrom(s, begin, 0) == start <= |s| && start + |begin| <= |s|
    requires FindFrom(s, end, start + |begin|) == bodyEnd <= |s|
    ensures Next(s, begin, end) == Body(start + |begin|, bodyEnd)
  {
  }

  lemma Regrouped(noise: string, begin: string, body: string, end: string, rest: string)
    ensures var s := noise + begin + body + end + rest;
            && s == noise + (begin + (body + (end + rest)))
            && s == (noise + begin) + (body + (end + rest))
            && s == (noise + begin + body + end) + rest
            && s[|noise + begin|..|noise + begin| + |body|] == body
            && s[|noise + begin| + |body| + |end|..] == rest
  {
  }

  lemma NextBlock(s: string, noise: string, begin: string, body: string, end: string, rest: string)
    requires MarkerFirst(noise, begin) && MarkerFirst(body, end)
    requires s == noise + begin + body + end + rest
    ensures Next(s, begin, end) == Body(|noise + begin|, |noise + begin| + |body|)
  {
    Regrouped(noise, begin, body, end, rest);
    FirstBegin(noise, begin, body + (end + rest));
    FirstEnd(noise + begin, body, end, rest);
    NextIs(s, begin, end, |noise|, |noise + begin| + |body|);
  }

  lemma ScanStep(read: BodyReader, s: string, begin: string, end: string, from: nat, to: nat, rest: string, data: seq<byte>)
    requires begin != "" && Next(s, begin, end) == Body(from, to)
    requires s[to + |end|..] == rest && read(s[from..to]) == Some(data)
    ensures Scan(read, s, begin, end) == Prepend([data], Scan(read, rest, begin, end))
  {
  }

  /** One block at the front of a text. */
  lemma ScanBlock(read: BodyReader, noise: string, begin: string, body: string, end: string, rest: string, data: seq<byte>)
    requires MarkerFirst(noise, begin) && begin != "" && end != "" && end[0] == '-'
    requires RefusesDash(read) && read(body) == Some(data)
    ensures Scan(read, noise + begin + body + end + rest, begin, end) == Prepend([data], Scan(read, rest, begin, end))
  {
    var s := noise + begin + body + end + rest;
    var n := |noise + begin|;
    DashlessFirst(body, end);
    NextBlock(s, noise, begin, body, end, rest);
    Regrouped(noise, begin, body, end, rest);
    ScanStep(read, s, begin, end, n, n + |body|, rest, data);
  }

  /** The blocks of a document are read off, and the scan goes on with what follows. */
  lemma {:induction false} ScanPrefix(read: BodyReader, begin: string, end: string, blocks: seq<Block>, trailer: string, data: seq<seq<byte>>)
    requires begin != "" && end != "" && end[0] == '-'
    requires RefusesDash(read) && Carries(read, blocks, begin, data)
    ensures Scan(read, Document(begin, end, blocks, trailer), begin, end) == Prepend(data, Scan(read, trailer, begin, end))
    decreases |blocks|
  {
    var last := Scan(read, trailer, begin, end);
    if blocks == [] {
      PrependNothing(last);
    } else {
      ScanPrefix(read, begin, end, blocks[1..], trailer, data[1..]);
      ScanBlock(read, blocks[0].noise, begin, blocks[0].body, end, Document(begin, end, blocks[1..], trailer), data[0]);
      PrependFirst(data, last);
    }
  }

  lemma PrependFirst(data: seq<seq<byte>>, r: Result<seq<seq<byte>>, Error>)
    requires data != []
    ensures Prepend([data[0]], Prepend(data[1..], r)) == Prepend(data, r)
  {
    if r.Ok? {
      assert [data[0]] + (data[1..] + r.value) == data + r.value;
    }
  }

  lemma ScanNothing(read: BodyReader, trailer: string, begin: string, end: string)
    requires begin != ""
    ensures Next(trailer, begin, end) == Nothing <==> Absent(trailer, begin)
    ensures Absent(trailer, begin) ==> Scan(read, trailer, begin, end) == Ok([])
  {
    FindFromSpec(trailer, begin, 0);
  }

  lemma ScanDocument(read: BodyReader, begin: string, end: string, blocks: seq<Block>, trailer: string, data: seq<seq<byte>>)
    requires begin != "" && end != "" && end[0] == '-'
    requires RefusesDash(read) && Carries(read, blocks, begin, data) && Absent(trailer, begin)
    ensures Scan(read, Document(begin, end, blocks, trailer), begin, end) == Ok(data)
  {
    ScanPrefix(read, begin, end, blocks, trailer, data);
    ScanNothing(read, trailer, begin, end);
    assert data + [] == data;
  }

  /** For every list of byte strings, a document that carries them, with noise between the
      blocks and white space anywhere in the bodies, decodes to exactly them, in order. */
  lemma DocumentDecodes(name: string, blocks: seq<Block>, trailer: string, data: seq<seq<byte>>)
    requires '\n' !in name && |blocks| == |data|
    requires forall i :: 0 <= i < |blocks| ==>
               CleanNoise(blocks[i].noise, Begin(name)) && Strip(blocks[i].body) == Base64.Encode(data[i])
    requires Absent(trailer, Begin(name))
    ensures DecodeAll(Document(Begin(name), End(name), blocks, trailer), name) == Ok(data)
  {
    Markers(name);
    DecodeBodyRefusesDash();
    forall i | 0 <= i < |blocks|
      ensures MarkerFirst(blocks[i].noise, Begin(name)) && DecodeBody(blocks[i].body) == Some(data[i])
    {
      CleanIsFirst(blocks[i].noise, Begin(name));
      Base64.DecodeEncode(data[i]);
    }
    ScanDocument(DecodeBody, Begin(name), End(name), blocks, trailer, data);
  }

  lemma CutBlock(rest: string, begin: string, end: string, start: nat, bodyEnd: nat)
    requires At(rest, start, begin) && start + |begin| <= bodyEnd && At(rest, bodyEnd, end)
    ensures rest == rest[..start] + begin + rest[start + |begin|..bodyEnd] + end + rest[bodyEnd + |end|..]
    ensures rest[..start] + begin == rest[..start + |begin|]
  {
    assert rest[..start] + begin == rest[..start + |begin|];
    assert rest[..start + |begin|] + rest[start + |begin|..bodyEnd] == rest[..bodyEnd];
    assert rest[..bodyEnd] + end == rest[..bodyEnd + |end|];
  }

  lemma FoundFirst(rest: string, begin: string, start: nat)
    requires start + |begin| <= |rest| && At(rest, start, begin) && forall k :: 0 <= k < start ==> !At(rest, k, begin)
    ensures MarkerFirst(rest[..start], begin)
  {
    var head, tail := rest[..start + |begin|], rest[start + |begin|..];
    assert rest[..start] + begin == head && head + tail == rest;
    forall k: nat | k < start
      ensures !At(head, k, begin)
    {
      AtPrefix(head, tail, k, begin);
    }
  }

  /** `word` is at `i` and nowhere from `from` up to there. */
  ghost predicate FoundAt(s: string, word: string, from: nat, i: nat) {
    from <= i && At(s, i, word) && forall k :: from <= k < i ==> !At(s, k, word)
  }

  lemma NextFinds(rest: string, begin: string, end: string)
    requires Next(rest, begin, end).Body?
    ensures var r := Next(rest, begin, end);
            FoundAt(rest, begin, 0, r.from - |begin|) && FoundAt(rest, end, r.from, r.to)
  {
    FindFromSpec(rest, begin, 0);
    FindFromSpec(rest, end, FindFrom(rest, begin, 0) + |begin|);
  }

  lemma NextCuts(rest: string, begin: string, end: string)
    requires Next(rest, begin, end).Body?
    ensures var r := Next(rest, begin, end);
            && MarkerFirst(rest[..r.from - |begin|], begin) && MarkerFirst(rest[r.from..r.to], end)
            && rest == rest[..r.from - |begin|] + begin + rest[r.from..r.to] + end + rest[r.to + |end|..]
  {
    var r := Next(rest, begin, end);
    NextFinds(rest, begin, end);
    FoundFirst(rest, begin, r.from - |begin|);
    FoundAfter(rest, end, r.from, r.to);
    CutBlock(rest, begin, end, r.from - |begin|, r.to);
  }

  lemma FoundAfter(rest: string, end: string, from: nat, to: nat)
    requires from <= to && At(rest, to, end) && forall k :: from <= k < to ==> !At(rest, k, end)
    ensures MarkerFirst(rest[from..to], end)
  {
    var tail := rest[from..];
    AtCut(rest, from, to - from, end);
    forall k | 0 <= k < to - from
      ensures !At(tail, k, end)
    {
      AtCut(rest, from, k, end);
    }
    FoundFirst(tail, end, to - from);
    assert tail[..to - from] == rest[from..to];
  }

  lemma CarriesMore(read: BodyReader, block: Block, blocks: seq<Block>, begin: string, datum: seq<byte>, data: seq<seq<byte>>)
    requires Carries(read, blocks, begin, data) && MarkerFirst(block.noise, begin) && read(block.body) == Some(datum)
    ensures Carries(read, [block] + blocks, begin, [datum] + data)
  {
  }

  lemma DocumentMore(begin: string, end: string, block: Block, blocks: seq<Block>, trailer: string)
    ensures Document(begin, end, [block] + blocks, trailer)
            == block.noise + begin + block.body + end + Document(begin, end, blocks, trailer)
  {
    assert ([block] + blocks)[1..] == blocks;
  }

  /** What a scan stops at: no opening marker, one left open, or a body it cannot read. */
  ghost predicate StopsAt(read: BodyReader, rest: string, begin: string, end: string) {
    match Next(rest, begin, end)
    case Nothing => true
    case Open => true
    case Body(from, to) => read(rest[from..to]) == None
  }

  /** Every text is the document of the blocks a scan reads off it, and what it stops at. */
  lemma {:induction false} ScanIsDocument(read: BodyReader, rest: string, begin: string, end: string)
    returns (blocks: seq<Block>, trailer: string, data: seq<seq<byte>>)
    requires begin != ""
    ensures rest == Document(begin, end, blocks, trailer) && Carries(read, blocks, begin, data)
    ensures StopsAt(read, trailer, begin, end)
    decreases |rest|
  {
    if StopsAt(read, rest, begin, end) {
      blocks, trailer, data := [], rest, [];
    } else {
      var r := Next(rest, begin, end);
      NextCuts(rest, begin, end);
      var block := Block(rest[..r.from - |begin|], rest[r.from..r.to]);
      var datum := read(block.body).value;
      blocks, trailer, data := ScanIsDocument(read, rest[r.to + |end|..], begin, end);
      DocumentMore(begin, end, block, blocks, trailer);
      CarriesMore(read, block, blocks, begin, datum, data);
      blocks, data := [block] + blocks, [datum] + data;
    }
  }

  /** The text is the document of these blocks and this trailer, carrying `data`. */
  ghost predicate Spells(pem: string, name: string, blocks: seq<Block>, trailer: string, data: seq<seq<byte>>) {
    && pem == Document(Begin(name), End(name), blocks, trailer)
    && Carries(DecodeBody, blocks, Begin(name), data) && Absent(trailer, Begin(name))
  }

  lemma SpelledDecodes(pem: string, name: string, blocks: seq<Block>, trailer: string, data: seq<seq<byte>>)
    requires Spells(pem, name, blocks, trailer, data)
    ensures DecodeAll(pem, name) == Ok(data)
  {
    Markers(name);
    DecodeBodyRefusesDash();
    ScanDocument(DecodeBody, Begin(name), End(name), blocks, trailer, data);
  }

  /** The blocks of any text, and how it decodes by what comes after them. */
  lemma Dissected(pem: string, name: string) returns (blocks: seq<Block>, trailer: string, data: seq<seq<byte>>)
    ensures pem == Document(Begin(name), End(name), blocks, trailer) && Carries(DecodeBody, blocks, Begin(name), data)
    ensures StopsAt(DecodeBody, trailer, Begin(name), End(name))
    ensures DecodeAll(pem, name)
            == match Next(trailer, Begin(name), End(name))
               case Nothing => Ok(data)
               case Open => Err(Unterminated)
               case Body(_, _) => Err(NotBase64)
  {
    Markers(name);
    DecodeBodyRefusesDash();
    blocks, trailer, data := ScanIsDocument(DecodeBody, pem, Begin(name), End(name));
    ScanPrefix(DecodeBody, Begin(name), End(name), blocks, trailer, data);
    assert data + [] == data;
  }

  lemma DecodedIsSpelled(pem: string, name: string) returns (blocks: seq<Block>, trailer: string)
    requires DecodeAll(pem, name).Ok?
    ensures Spells(pem, name, blocks, trailer, DecodeAll(pem, name).value)
  {
    Markers(name);
    var data;
    blocks, trailer, data := Dissected(pem, name);
    ScanNothing(DecodeBody, trailer, Begin(name), End(name));
  }

  /** Exactly what decodes, and to what, for every text and label: the documents whose
      bodies are base64 and whose markers are each the first there is; nothing else. */
  lemma DecodesExactlyDocuments(pem: string, name: string, data: seq<seq<byte>>)
    ensures DecodeAll(pem, name) == Ok(data) <==>
            exists blocks: seq<Block>, trailer: string :: Spells(pem, name, blocks, trailer, data)
  {
    if DecodeAll(pem, name) == Ok(data) {
      var blocks, trailer := DecodedIsSpelled(pem, name);
    }
    if blocks: seq<Block>, trailer: string :| Spells(pem, name, blocks, trailer, data) {
      SpelledDecodes(pem, name, blocks, trailer, data);
    }
  }

  /** `DecodeOne` succeeds exactly on a document of one block, and gives that block. */
  lemma OneBlock(pem: string, name: string, data: seq<byte>)
    ensures DecodeOne(pem, name) == Ok(data) <==>
            exists block: Block, trailer: string :: Spells(pem, name, [block], trailer, [data])
  {
    var all := DecodeAll(pem, name);
    assert all.Ok? && |all.value| == 1 ==> all.value == [all.value[0]];
    if DecodeOne(pem, name) == Ok(data) {
      var blocks, trailer := DecodedIsSpelled(pem, name);
      assert blocks == [blocks[0]];
    }
    if block: Block, trailer: string :| Spells(pem, name, [block], trailer, [data]) {
      SpelledDecodes(pem, name, [block], trailer, [data]);
    }
  }

  /** A text that leaves a block open: some blocks, an opening marker, the first after the
      noise before it, and no closing marker after that. */
  ghost predicate LeavesOpen(pem: string, name: string, blocks: seq<Block>, data: seq<seq<byte>>, noise: string, tail: string) {
    && pem == Document(Begin(name), End(name), blocks, noise + Begin(name) + tail)
    && Carries(DecodeBody, blocks, Begin(name), data) && MarkerFirst(noise, Begin(name)) && Absent(tail, End(name))
  }

  /** A text with a bad body: some blocks, and then one whose body is not base64. */
  ghost predicate HasBadBody(pem: string, name: string, blocks: seq<Block>, data: seq<seq<byte>>, bad: Block, rest: string) {
    && pem == Document(Begin(name), End(name), blocks, bad.noise + Begin(name) + bad.body + End(name) + rest)
    && Carries(DecodeBody, blocks, Begin(name), data)
    && MarkerFirst(bad.noise, Begin(name)) && MarkerFirst(bad.body, End(name)) && DecodeBody(bad.body) == None
  }

  lemma OpenIs(noise: string, begin: string, tail: string, end: string)
    requires MarkerFirst(noise, begin) && Absent(tail, end)
    ensures Next(noise + begin + tail, begin, end) == Open
  {
    var s := noise + begin + tail;
    assert s == noise + (begin + tail);
    FirstBegin(noise, begin, tail);
    NotFound(noise + begin, tail, end);
    NextCases(s, begin, end, |noise|);
  }

  lemma NotFound(head: string, tail: string, end: string)
    requires Absent(tail, end)
    ensures FindFrom(head + tail, end, |head|) > |head + tail|
  {
    var f := FindFrom(head + tail, end, |head|);
    FindFromSpec(head + tail, end, |head|);
    AtShift(head, tail, f - |head|, end);
  }

  lemma OpenFinds(rest: string, begin: string, end: string)
    requires Next(rest, begin, end) == Open
    ensures var start := FindFrom(rest, begin, 0);
            FoundAt(rest, begin, 0, start) && forall k :: start + |begin| <= k <= |rest| ==> !At(rest, k, end)
  {
    var start := FindFrom(rest, begin, 0);
    FindFromSpec(rest, begin, 0);
    NextOpen(rest, begin, end, start);
    FindFromSpec(rest, end, start + |begin|);
  }

  lemma NextOpen(rest: string, begin: string, end: string, start: nat)
    requires Next(rest, begin, end) == Open && start == FindFrom(rest, begin, 0)
    ensures start + |begin| <= |rest| && FindFrom(rest, end, start + |begin|) > |rest|
  {
    FindFromSpec(rest, begin, 0);
  }

  lemma OpenCuts(rest: string, begin: string, end: string) returns (noise: string, tail: string)
    requires Next(rest, begin, end) == Open
    ensures rest == noise + begin + tail && MarkerFirst(noise, begin) && Absent(tail, end)
  {
    var start := FindFrom(rest, begin, 0);
    var cut := start + |begin|;
    OpenFinds(rest, begin, end);
    FoundFirst(rest, begin, start);
    noise, tail := rest[..start], rest[cut..];
    assert rest == noise + rest[start..cut] + tail;
    AbsentAfter(rest, cut, end);
  }

  lemma AbsentAfter(rest: string, cut: nat, end: string)
    requires cut <= |rest| && forall k :: cut <= k <= |rest| ==> !At(rest, k, end)
    ensures Absent(rest[cut..], end)
  {
    forall i: nat | i <= |rest| - cut
      ensures !At(rest[cut..], i, end)
    {
      AtCut(rest, cut, i, end);
    }
  }

  /** A text is reported as unterminated if and only if it leaves a block open. */
  lemma UnterminatedExactly(pem: string, name: string)
    ensures DecodeAll(pem, name) == Err(Unterminated) <==>
            exists blocks: seq<Block>, data: seq<seq<byte>>, noise: string, tail: string ::
              LeavesOpen(pem, name, blocks, data, noise, tail)
  {
    if DecodeAll(pem, name) == Err(Unterminated) {
      var blocks, trailer, data := Dissected(pem, name);
      var noise, tail := OpenCuts(trailer, Begin(name), End(name));
      assert LeavesOpen(pem, name, blocks, data, noise, tail);
    }
    if blocks: seq<Block>, data: seq<seq<byte>>, noise: string, tail: string :| LeavesOpen(pem, name, blocks, data, noise, tail) {
      OpenFails(pem, name, blocks, data, noise, tail);
    }
  }

  lemma OpenFails(pem: string, name: string, blocks: seq<Block>, data: seq<seq<byte>>, noise: string, tail: string)
    requires LeavesOpen(pem, name, blocks, data, noise, tail)
    ensures DecodeAll(pem, name) == Err(Unterminated)
  {
    Markers(name);
    DecodeBodyRefusesDash();
    OpenIs(noise, Begin(name), tail, End(name));
    ScanPrefix(DecodeBody, Begin(name), End(name), blocks, noise + Begin(name) + tail, data);
  }

  /** And as not base64 if and only if it has a bad body after good blocks. */
  lemma NotBase64Exactly(pem: string, name: string)
    ensures DecodeAll(pem, name) == Err(NotBase64) <==>
            exists blocks: seq<Block>, data: seq<seq<byte>>, bad: Block, rest: string ::
              HasBadBody(pem, name, blocks, data, bad, rest)
  {
    if DecodeAll(pem, name) == Err(NotBase64) {
      var blocks, data, bad, rest := BadBodyFound(pem, name);
    }
    if blocks: seq<Block>, data: seq<seq<byte>>, bad: Block, rest: string :| HasBadBody(pem, name, blocks, data, bad, rest) {
      BadBodyFails(pem, name, blocks, data, bad, rest);
    }
  }

  lemma BadBodyFound(pem: string, name: string) returns (blocks: seq<Block>, data: seq<seq<byte>>, bad: Block, rest: string)
    requires DecodeAll(pem, name) == Err(NotBase64)
    ensures HasBadBody(pem, name, blocks, data, bad, rest)
  {
    var trailer;
    blocks, trailer, data := Dissected(pem, name);
    bad, rest := BadBodyCut(DecodeBody, trailer, Begin(name), End(name));
  }

  lemma BadBodyCut(read: BodyReader, trailer: string, begin: string, end: string) returns (bad: Block, rest: string)
    requires Next(trailer, begin, end).Body? && StopsAt(read, trailer, begin, end)
    ensures trailer == bad.noise + begin + bad.body + end + rest
    ensures MarkerFirst(bad.noise, begin) && MarkerFirst(bad.body, end) && read(bad.body) == None
  {
    var r := Next(trailer, begin, end);
    NextCuts(trailer, begin, end);
    bad, rest := Block(trailer[..r.from - |begin|], trailer[r.from..r.to]), trailer[r.to + |end|..];
  }

  lemma BadBodyFails(pem: string, name: string, blocks: seq<Block>, data: seq<seq<byte>>, bad: Block, rest: string)
    requires HasBadBody(pem, name, blocks, data, bad, rest)
    ensures DecodeAll(pem, name) == Err(NotBase64)
  {
    Markers(name);
    DecodeBodyRefusesDash();
    ScanBadBody(DecodeBody, bad.noise, Begin(name), bad.body, End(name), rest);
    ScanPrefix(DecodeBody, Begin(name), End(name), blocks, bad.noise + Begin(name) + bad.body + End(name) + rest, data);
  }

  lemma ScanBadBody(read: BodyReader, noise: string, begin: string, body: string, end: string, rest: string)
    requires begin != "" && MarkerFirst(noise, begin) && MarkerFirst(body, end) && read(body) == None
    ensures Scan(read, noise + begin + body + end + rest, begin, end) == Err(NotBase64)
  {
    var s := noise + begin + body + end + rest;
    NextBlock(s, noise, begin, body, end, rest);
    Regrouped(noise, begin, body, end, rest);
  }

  // ---------------------------------------------------------------------------
  // Unterminated blocks
  // ---------------------------------------------------------------------------

  /** No marker begins before `p` and runs past it. */
  ghost predicate Unstraddled(pem: string, p: nat, begin: string, end: string) {
    forall q: nat :: q < p ==> !(At(pem, q, begin) && q + |begin| > p) && !(At(pem, q, end) && q + |end| > p)
  }

  /** Two markers that differ in their sixth character do not start together. */
  lemma MarkersApart(pem: string, p: nat, q: nat, begin: string, end: string)
    requires |begin| > 5 && |end| > 5 && begin[5] != end[5] && At(pem, p, begin) && At(pem, q, end)
    ensures p != q
  {
    assert pem[p + 5] == pem[p..p + |begin|][5] == begin[5];
    assert pem[q + 5] == pem[q..q + |end|][5] == end[5];
  }

  /** The opening marker at `p` is entangled with no other and no closing marker follows. */
  ghost predicate LeftOpen(rest: string, p: nat, begin: string, end: string) {
    && p <= |rest| && At(rest, p, begin) && Unstraddled(rest, p, begin, end)
    && (forall q: nat :: p + |begin| <= q <= |rest| ==> !At(rest, q, end))
  }

  /** It is still there when what comes before it has been cut off. */
  lemma UnterminatedSuffix(rest: string, p: nat, begin: string, end: string, c: nat)
    requires LeftOpen(rest, p, begin, end) && c <= p
    ensures LeftOpen(rest[c..], p - c, begin, end)
  {
    forall i: nat
      ensures At(rest[c..], i, begin) <==> At(rest, c + i, begin)
      ensures At(rest[c..], i, end) <==> At(rest, c + i, end)
    {
      AtCut(rest, c, i, begin);
      AtCut(rest, c, i, end);
    }
  }

  /** The first opening marker comes no later than the one left open. */
  lemma FirstOpens(rest: string, begin: string, end: string, p: nat)
    requires LeftOpen(rest, p, begin, end)
    ensures var start := FindFrom(rest, begin, 0);
            start <= p && start + |begin| <= |rest| && (start < p ==> start + |begin| <= p)
  {
    FindFromSpec(rest, begin, 0);
  }

  /** No closing marker after it lies across the one left open. */
  lemma FirstCloses(rest: string, begin: string, end: string, p: nat, start: nat)
    requires |begin| > 5 && |end| > 5 && begin[5] != end[5] && LeftOpen(rest, p, begin, end)
    requires start + |begin| <= |rest| && (start == p || start + |begin| <= p)
    ensures var bodyEnd := FindFrom(rest, end, start + |begin|);
            bodyEnd > |rest| || (start < p && (bodyEnd + |end| <= p || p < bodyEnd))
  {
    var bodyEnd := FindFrom(rest, end, start + |begin|);
    FindFromSpec(rest, end, start + |begin|);
    if bodyEnd <= |rest| {
      MarkersApart(rest, p, bodyEnd, begin, end);
    }
  }

  lemma NextCases(rest: string, begin: string, end: string, start: nat)
    requires start == FindFrom(rest, begin, 0) && start + |begin| <= |rest|
    ensures var bodyEnd := FindFrom(rest, end, start + |begin|);
            Next(rest, begin, end) == if bodyEnd > |rest| then Open else Body(start + |begin|, bodyEnd)
  {
  }

  /** Where the next search can get to, before an unterminated block at `p`. */
  lemma NextBefore(rest: string, begin: string, end: string, p: nat)
    requires |begin| > 5 && |end| > 5 && begin[5] != end[5] && LeftOpen(rest, p, begin, end)
    ensures var r := Next(rest, begin, end);
            r == Open || (r.Body? && r.from <= p && (r.to + |end| <= p || p < r.to))
  {
    FirstOpens(rest, begin, end, p);
    var start := FindFrom(rest, begin, 0);
    FirstCloses(rest, begin, end, p, start);
    NextCases(rest, begin, end, start);
  }

  lemma DashRefused(read: BodyReader, rest: string, begin: string, p: nat, from: nat, to: nat)
    requires RefusesDash(read) && begin != "" && begin[0] == '-' && At(rest, p, begin) && from <= p < to <= |rest|
    ensures read(rest[from..to]) == None
  {
    assert rest[from..to][p - from] == rest[p] == rest[p..p + |begin|][0] == '-';
  }

  lemma {:induction false} UnterminatedScan(read: BodyReader, rest: string, begin: string, end: string, p: nat)
    requires RefusesDash(read) && |begin| > 5 && |end| > 5 && begin[0] == '-' && begin[5] != end[5]
    requires LeftOpen(rest, p, begin, end)
    ensures Scan(read, rest, begin, end).Err?
    decreases |rest|
  {
    NextBefore(rest, begin, end, p);
    var r := Next(rest, begin, end);
    if r.Body? && r.to + |end| <= p {
      UnterminatedSuffix(rest, p, begin, end, r.to + |end|);
      UnterminatedScan(read, rest[r.to + |end|..], begin, end, p - r.to - |end|);
    } else if r.Body? {
      DashRefused(read, rest, begin, p, r.from, r.to);
    }
    ScanFails(read, rest, begin, end);
  }

  /** The three ways for a scan to fail. */
  lemma ScanFails(read: BodyReader, rest: string, begin: string, end: string)
    requires begin != ""
    requires var r := Next(rest, begin, end);
             || r == Open
             || (r.Body? && (read(rest[r.from..r.to]) == None || Scan(read, rest[r.to + |end|..], begin, end).Err?))
    ensures Scan(read, rest, begin, end).Err?
  {
  }

  /** A block whose opening marker is not entangled with another marker, and that no closing
      marker follows, makes the whole document an error: it is never silently truncated. */
  lemma UnterminatedIsError(pem: string, name: string, p: nat)
    requires p <= |pem| && At(pem, p, Begin(name)) && Unstraddled(pem, p, Begin(name), End(name))
    requires forall q: nat :: p + |Begin(name)| <= q <= |pem| ==> !At(pem, q, End(name))
    ensures DecodeAll(pem, name).Err?
  {
    assert Begin(name)[5] == 'B' && End(name)[5] == 'E' && Begin(name)[0] == '-';
    DecodeBodyRefusesDash();
    UnterminatedScan(DecodeBody, pem, Begin(name), End(name), p);
  }

  /** A marker at the start of a line is not entangled with another one. */
  lemma LineStartUnstraddled(pem: string, name: string, p: nat)
    requires '\n' !in name && p <= |pem| && (p == 0 || pem[p - 1] == '\n')
    ensures Unstraddled(pem, p, Begin(name), End(name))
  {
    NoNewlineStraddles(pem, p, Begin(name));
    NoNewlineStraddles(pem, p, End(name));
  }

  lemma NoNewlineStraddles(pem: string, p: nat, word: string)
    requires '\n' !in word && p <= |pem| && (p == 0 || pem[p - 1] == '\n')
    ensures forall q: nat :: q < p ==> !(At(pem, q, word) && q + |word| > p)
  {
    forall q: nat | q < p
      ensures !(At(pem, q, word) && q + |word| > p)
    {
      if q + |word| > p && q + |word| <= |pem| {
        assert pem[q..q + |word|][p - 1 - q] == pem[p - 1] == '\n';
      }
    }
  }

  /** Why not entangled: a closing and an opening marker can share their dashes, and then
      the scan never sees the opening one. */
  lemma SharedDashesHideABlock(name: string)
    ensures var begin, end := Begin(name), End(name);
            var pem := begin + end + begin[5..];
            At(pem, |begin| + |end| - 5, begin) && DecodeAll(pem, name) == Ok([[]])
  {
    var begin, end := Begin(name), End(name);
    SharedMarker(begin, end);
    Markers(name);
    DecodeBodyRefusesDash();
    EmptyBlock(DecodeBody, begin, end, begin[5..], begin + end + begin[5..]);
  }

  /** Two opening markers can share theirs too, and a closing one the second's: then the
      second is read as the body of the first, if it happens to be base64. */
  lemma SharedDashesMakeABody(name: string, block: seq<byte>)
    requires DecodeBody("BEGIN " + name) == Some(block)
    ensures var begin, end := Begin(name), End(name);
            var pem, p := begin + ("BEGIN " + name) + end, |begin| - 5;
            && At(pem, p, begin) && (forall q: nat :: p + |begin| <= q <= |pem| ==> !At(pem, q, end))
            && DecodeAll(pem, name) == Ok([block])
  {
    var begin, end, body := Begin(name), End(name), "BEGIN " + name;
    var pem := begin + body + end;
    OverlappedOpening(name);
    EmptyNoise(begin, end, body, pem);
    TooShort("", begin);
    SpelledDecodes(pem, name, [Block("", body)], "", [block]);
  }

  lemma OverlappedOpening(name: string)
    ensures var begin, end := Begin(name), End(name);
            var pem, p := begin + ("BEGIN " + name) + end, |begin| - 5;
            At(pem, p, begin) && forall q: nat :: p + |begin| <= q <= |pem| ==> !At(pem, q, end)
  {
    var begin, end, body := Begin(name), End(name), "BEGIN " + name;
    var pem, p := begin + body + end, |begin| - 5;
    assert begin == "-----" + body + "-----";
    assert pem[p..p + |begin|] == "-----" + body + "-----";
    assert |begin| == 16 + |name| && |end| == 14 + |name| && |body| == 6 + |name|;
  }

  lemma EmptyNoise(begin: string, end: string, body: string, pem: string)
    requires pem == begin + body + end
    ensures Document(begin, end, [Block("", body)], "") == pem
  {
    var blocks := [Block("", body)];
    assert blocks[1..] == [];
    assert "" + begin == begin && pem + "" == pem;
  }

  /** The label `ABC` is such. */
  lemma AbcIsSuch()
    ensures DecodeBody("BEGIN" + [' '] + "ABC") == Some([0x04, 0x41, 0x88] + [0x34, 0x00, 0x42])
    ensures "BEGIN " + "ABC" == "BEGIN" + [' '] + "ABC"
  {
    AbcSpelling();
    AbcPrinted();
    TwoWordBody("BEGIN", ' ', "ABC", [0x04, 0x41, 0x88], [0x34, 0x00, 0x42]);
  }

  lemma TwoWordBody(a: string, c: char, b: string, x: seq<byte>, y: seq<byte>)
    requires NoSpaces(a) && NoSpaces(b) && AsciiSpace(c) && |x| == 3 && |y| == 3
    requires a + b == Base64.Print(Base64.Regroup(x[0], x[1], x[2])) + Base64.Print(Base64.Regroup(y[0], y[1], y[2]))
    ensures DecodeBody(a + [c] + b) == Some(x + y)
  {
    StripWords(a, c, b);
    EncodeSix(x, y);
    Base64.DecodeEncode(x + y);
  }

  lemma AbcSpelling()
    ensures NoSpaces("BEGIN") && NoSpaces("ABC") && AsciiSpace(' ') && "BEGIN" + "ABC" == "BEGI" + "NABC"
  {
  }

  lemma AbcPrinted()
    ensures Base64.Print(Base64.Regroup(0x04, 0x41, 0x88)) == "BEGI"
    ensures Base64.Print(Base64.Regroup(0x34, 0x00, 0x42)) == "NABC"
  {
  }

  lemma EncodeSix(a: seq<byte>, b: seq<byte>)
    requires |a| == 3 && |b| == 3
    ensures Base64.Encode(a + b)
            == Base64.Print(Base64.Regroup(a[0], a[1], a[2])) + Base64.Print(Base64.Regroup(b[0], b[1], b[2]))
  {
    Base64.LongEncoding(a + b);
    assert (a + b)[3..] == b && b[3..] == [];
    Base64.LongEncoding(b);
    assert Base64.Print(Base64.Regroup(b[0], b[1], b[2])) + "" == Base64.Print(Base64.Regroup(b[0], b[1], b[2]));
  }

  predicate NoSpaces(a: string) {
    forall i :: 0 <= i < |a| ==> !AsciiSpace(a[i])
  }

  lemma StripWords(a: string, c: char, b: string)
    requires NoSpaces(a) && NoSpaces(b) && AsciiSpace(c)
    ensures Strip(a + [c] + b) == a + b
  {
    var tail := [c] + b;
    StripNothing(a, tail);
    assert tail[1..] == b;
    assert Strip(tail) == Strip(b);
    StripNothing(b, "");
    assert b + "" == b;
    assert a + tail == a + [c] + b;
  }

  lemma {:induction false} StripNothing(a: string, rest: string)
    requires NoSpaces(a)
    ensures Strip(a + rest) == a + Strip(rest)
  {
    if a == "" {
      assert a + rest == rest;
    } else {
      assert (a + rest)[1..] == a[1..] + rest;
      StripNothing(a[1..], rest);
      assert a == [a[0]] + a[1..];
    }
  }

  lemma SharedMarker(begin: string, end: string)
    requires |begin| >= 5 && |end| >= 5 && end[|end| - 5..] == begin[..5]
    ensures At(begin + end + begin[5..], |begin| + |end| - 5, begin)
  {
    var pem, p := begin + end + begin[5..], |begin| + |end| - 5;
    assert pem[p..p + |begin|] == end[|end| - 5..] + begin[5..];
    assert begin[..5] + begin[5..] == begin;
  }

  lemma EmptyDocument(begin: string, end: string, tail: string, pem: string)
    requires pem == begin + end + tail
    ensures Document(begin, end, [Block("", "")], tail) == pem
  {
    var blocks := [Block("", "")];
    assert blocks[1..] == [];
    assert "" + begin == begin;
    assert begin + "" == begin;
  }

  lemma TooShort(s: string, word: string)
    requires |s| < |word|
    ensures Absent(s, word)
  {
  }

  lemma EmptyBlock(read: BodyReader, begin: string, end: string, tail: string, pem: string)
    requires begin != "" && end != "" && end[0] == '-' && |tail| < |begin|
    requires RefusesDash(read) && read("") == Some([]) && pem == begin + end + tail
    ensures Scan(read, pem, begin, end) == Ok([[]])
  {
    TooShort(tail, begin);
    TooShort("", begin);
    EmptyDocument(begin, end, tail, pem);
    ScanDocument(read, begin, end, [Block("", "")], tail, [[]]);
  }

  // ---------------------------------------------------------------------------
  // The code
  // ---------------------------------------------------------------------------

  method DecodeAllBlocks(pem: string, name: string) returns (r: Result<seq<seq<byte>>, Error>)
    ensures r == DecodeAll(pem, name)
  {
    r := ScanAll(DecodeBody, pem, Begin(name), End(name));
  }

  /** The loop of `decode_all`, given how it reads a body. */
  method ScanAll(read: BodyReader, pem: string, begin: string, end: string) returns (r: Result<seq<seq<byte>>, Error>)
    requires begin != "" && end != ""
    ensures r == Scan(read, pem, begin, end)
  {
    var out: seq<seq<byte>> := [];
    var rest := pem;
    PrependNothing(Scan(read, pem, begin, end));
    while true
      invariant Remains(read, pem, begin, end, out, rest)
      decreases |rest|
    {
      LastTurn(read, pem, begin, end, out, rest);
      var found := Next(rest, begin, end);
      if !found.Body? {
        return if found == Nothing then Ok(out) else Err(Unterminated);
      }
      var block := read(rest[found.from..found.to]);
      if block.None? {
        return Err(NotBase64);
      }
      ScanTurn(read, pem, begin, end, out, rest, found, block.value, rest[found.to + |end|..]);
      out := out + [block.value];
      rest := rest[found.to + |end|..];
    }
  }

  /** The scan of the whole text is the blocks found so far and the scan of the rest. */
  ghost predicate Remains(read: BodyReader, pem: string, begin: string, end: string, out: seq<seq<byte>>, rest: string)
    requires begin != ""
  {
    Scan(read, pem, begin, end) == Prepend(out, Scan(read, rest, begin, end))
  }

  /** A turn that leaves the loop has the answer. */
  lemma LastTurn(read: BodyReader, pem: string, begin: string, end: string, out: seq<seq<byte>>, rest: string)
    requires begin != "" && Remains(read, pem, begin, end, out, rest)
    ensures var r := Next(rest, begin, end);
            && (r == Nothing ==> Scan(read, pem, begin, end) == Ok(out))
            && (r == Open ==> Scan(read, pem, begin, end) == Err(Unterminated))
            && (r.Body? && read(rest[r.from..r.to]) == None ==> Scan(read, pem, begin, end) == Err(NotBase64))
  {
    assert out + [] == out;
  }

  /** A turn that goes on moves a block over to what has been found already. */
  lemma ScanTurn(read: BodyReader, pem: string, begin: string, end: string, out: seq<seq<byte>>, rest: string, found: Found, block: seq<byte>, later: string)
    requires begin != "" && Remains(read, pem, begin, end, out, rest) && found == Next(rest, begin, end)
    requires found.Body? && read(rest[found.from..found.to]) == Some(block) && later == rest[found.to + |end|..]
    ensures Remains(read, pem, begin, end, out + [block], later)
  {
    ScanStep(read, rest, begin, end, found.from, found.to, later, block);
    Moved(Scan(read, pem, begin, end), out, Scan(read, rest, begin, end), block, Scan(read, later, begin, end));
  }

  lemma Moved(all: Result<seq<seq<byte>>, Error>, out: seq<seq<byte>>, now: Result<seq<seq<byte>>, Error>, block: seq<byte>, later: Result<seq<seq<byte>>, Error>)
    requires all == Prepend(out, now) && now == Prepend([block], later)
    ensures all == Prepend(out + [block], later)
  {
    PrependStep(out, block, later);
  }

  lemma PrependNothing(r: Result<seq<seq<byte>>, Error>)
    ensures Prepend([], r) == r
  {
    if r.Ok? {
      assert [] + r.value == r.value;
    }
  }

  lemma PrependStep(out: seq<seq<byte>>, block: seq<byte>, r: Result<seq<seq<byte>>, Error>)
    ensures Prepend(out, Prepend([block], r)) == Prepend(out + [block], r)
  {
    if r.Ok? {
      assert out + ([block] + r.value) == (out + [block]) + r.value;
    }
  }

  method DecodeOneBlock(pem: string, name: string) returns (r: Result<seq<byte>, Error>)
    ensures r == DecodeOne(pem, name)
    ensures r.Ok? <==> DecodeAll(pem, name).Ok? && |DecodeAll(pem, name).value| == 1
  {
    var blocks := DecodeAllBlocks(pem, name);
    match blocks
    case Err(e) => return Err(e);
    case Ok(list) =>
      if |list| == 1 {
        return Ok(list[0]);
      }
      return Err(WrongCount(|list|));
  }
}
