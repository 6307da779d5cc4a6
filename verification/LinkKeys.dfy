/**
 The link-key file of `crates/app/src/bluetooth.rs` as a finite map: its line grammar, the
 read-modify-write that stores or forgets one peer's key, and the single task that owns
 the file.

 A file is its text, or `None` when it is absent or unreadable.
 */
module LinkKeys {
  import opened Basics
  import opened Text

  type Addr = s: seq<byte> | |s| == 6 witness [0, 0, 0, 0, 0, 0]
  type Key = s: seq<byte> | |s| == 16 witness seq(16, _ => 0)

  datatype Entry = Entry(addr: Addr, key: Key)

  // ---------------------------------------------------------------------------
  // Hexadecimal numbers
  // ---------------------------------------------------------------------------

  function DigitValue(c: char): Option<nat> {
    if '0' <= c <= '9' then Some((c - '0') as nat)
    else if 'a' <= c <= 'f' then Some((c - 'a') as nat + 10)
    else if 'A' <= c <= 'F' then Some((c - 'A') as nat + 10)
    else None
  }

  function Digits(s: string, acc: byte): Option<byte> {
    if s == "" then Some(acc)
    else match DigitValue(s[0])
      case None => None
      case Some(v) => if acc as int * 16 + v > 255 then None else Digits(s[1..], acc as int * 16 + v)
  }

  /** `u8::from_str_radix(s, 16)`: any number of digits that stay below 256, and an
      optional plus sign. */
  function ParseOctet(s: string): Option<byte> {
    var digits := if s != "" && s[0] == '+' then s[1..] else s;
    if digits == "" then None else Digits(digits, 0)
  }

  datatype Case = Lower | Upper

  function PrintDigit(k: Case, v: nat): (c: char)
    requires v < 16
    ensures DigitValue(c) == Some(v)
  {
    if v < 10 then '0' + v as char else (if k.Upper? then 'A' else 'a') + (v - 10) as char
  }

  function PrintOctet(k: Case, b: byte): (s: string)
    ensures |s| == 2
  {
    [PrintDigit(k, b / 16), PrintDigit(k, b % 16)]
  }

  lemma OctetRoundTrip(k: Case, b: byte)
    ensures ParseOctet(PrintOctet(k, b)) == Some(b)
  {
    var s := PrintOctet(k, b);
    assert s[1..] == [s[1]] && s[1..][1..] == "";
    assert Digits(s[1..], b / 16) == Some(b);
  }

  // ---------------------------------------------------------------------------
  // One line
  // ---------------------------------------------------------------------------

  function ParseOctets(parts: seq<string>): (r: Option<seq<byte>>)
    ensures r.Some? ==> |r.value| == |parts|
  {
    if parts == [] then Some([])
    else match (ParseOctet(parts[0]), ParseOctets(parts[1..]))
      case (Some(b), Some(bs)) => Some([b] + bs)
      case _ => None
  }

  /** `BdAddr::from_str`: six octets between colons. */
  function ParseAddr(s: string): Option<Addr> {
    var parts := Split(s, ':');
    if |parts| != 6 then None
    else match ParseOctets(parts)
      case Some(bs) => Some(bs)
      case None => None
  }

  function Pairs(s: string): (r: seq<string>)
    requires |s| % 2 == 0
    ensures |r| == |s| / 2
  {
    if s == "" then [] else [s[..2]] + Pairs(s[2..])
  }

  /** Thirty-two characters, two to an octet. The source measures bytes; a key with a
      character outside ASCII is refused either way, by its length or by its digits. */
  function ParseKey(s: string): Option<Key> {
    if |s| != 32 then None
    else match ParseOctets(Pairs(s))
      case Some(bs) => Some(bs)
      case None => None
  }

  function ParseLinkKey(line: string): Option<Entry> {
    match SplitWords(RustSpace, line)
    case None => None
    case Some((addr, key)) => ParseWords(addr, key)
  }

  function ParseWords(addr: string, key: string): Option<Entry> {
    match (ParseAddr(addr), ParseKey(key))
    case (Some(a), Some(k)) => Some(Entry(a, k))
    case _ => None
  }

  /** What `load_link_keys` makes of a line: trimmed, and comments skipped. */
  function LoadLine(line: string): Option<Entry> {
    var t := Trim(RustSpace, line);
    if t == "" || t[0] == '#' then None else ParseLinkKey(t)
  }

  predicate Indented(line: string) {
    line != "" && RustSpace(line[0])
  }

  function PrintOctets(k: Case, bs: seq<byte>): seq<string> {
    if bs == [] then [] else [PrintOctet(k, bs[0])] + PrintOctets(k, bs[1..])
  }

  function Concat(parts: seq<string>): string {
    if parts == [] then "" else parts[0] + Concat(parts[1..])
  }

  lemma CommentIsNoAddress(s: string)
    requires s != "" && s[0] == '#'
    ensures ParseAddr(s) == None
  {
    var j := IndexOf(s, ':');
    var first := if j == |s| then s else s[..j];
    assert Split(s, ':')[0] == first && first[0] == '#';
    assert ParseOctet(first) == None;
  }

  lemma CommentIsNoEntry(line: string)
    requires line != "" && line[0] == '#'
    ensures ParseLinkKey(line) == None
  {
    var words := SplitWords(RustSpace, line);
    if words.Some? {
      SplitFirstWord(RustSpace, line);
      CommentIsNoAddress(words.value.0);
    }
  }

  /** The two readers of a line differ exactly on indentation: the replacement filter sees
      nothing in an indented line, and elsewhere what loading sees. */
  lemma FilterSeesUnindented(line: string)
    ensures ParseLinkKey(line) == if Indented(line) then None else LoadLine(line)
  {
    if Indented(line) {
      FirstSpaceIs(RustSpace, line, 0);
      assert ParseAddr("") == None by {
        assert Split("", ':') == [""];
      }
    } else {
      var t := TrimEnd(RustSpace, line);
      SplitTrimmedEnd(RustSpace, line);
      assert ParseKey("") == None;
      assert ParseLinkKey(t) == ParseLinkKey(line);
      if t != "" && t[0] == '#' {
        CommentIsNoEntry(t);
      }
    }
  }

  // Printing

  /** Nothing in the text of an octet is a separator or white space. */
  ghost predicate Hexadecimal(s: string) {
    forall i :: 0 <= i < |s| ==> DigitValue(s[i]).Some?
  }

  lemma HexadecimalHasNoSpace(s: string)
    requires Hexadecimal(s)
    ensures ':' !in s && '\n' !in s && forall c :: c in s ==> !RustSpace(c)
  {
  }

  lemma {:induction false} PrintedOctets(k: Case, bs: seq<byte>)
    ensures var parts := PrintOctets(k, bs);
            && |parts| == |bs| && ParseOctets(parts) == Some(bs)
            && (forall i :: 0 <= i < |parts| ==> Hexadecimal(parts[i]) && |parts[i]| == 2)
  {
    if bs != [] {
      PrintedOctets(k, bs[1..]);
      OctetRoundTrip(k, bs[0]);
      assert PrintOctets(k, bs)[1..] == PrintOctets(k, bs[1..]);
      assert bs == [bs[0]] + bs[1..];
    }
  }

  lemma {:induction false} ConcatPairs(parts: seq<string>)
    requires forall i :: 0 <= i < |parts| ==> |parts[i]| == 2 && Hexadecimal(parts[i])
    ensures var s := Concat(parts); |s| == 2 * |parts| && Pairs(s) == parts && Hexadecimal(s)
  {
    if parts != [] {
      ConcatPairs(parts[1..]);
      assert Concat(parts)[..2] == parts[0] && Concat(parts)[2..] == Concat(parts[1..]);
    }
  }

  lemma {:induction false} JoinChars(parts: seq<string>)
    requires |parts| > 0 && forall i :: 0 <= i < |parts| ==> Hexadecimal(parts[i])
    ensures forall c :: c in Join(parts, ':') ==> !RustSpace(c)
    ensures parts[0] <= Join(parts, ':')
  {
    HexadecimalHasNoSpace(parts[0]);
    if |parts| > 1 {
      JoinChars(parts[1..]);
    }
  }

  function PrintAddr(addr: Addr): string {
    PrintedOctets(Upper, addr);
    Join(PrintOctets(Upper, addr), ':')
  }

  function PrintKey(key: Key): string {
    Concat(PrintOctets(Lower, key))
  }

  ghost predicate Spaceless(s: string) {
    s != "" && forall i :: 0 <= i < |s| ==> !RustSpace(s[i])
  }

  lemma AddrRoundTrip(addr: Addr)
    ensures ParseAddr(PrintAddr(addr)) == Some(addr) && Spaceless(PrintAddr(addr))
  {
    var parts := PrintOctets(Upper, addr);
    PrintedOctets(Upper, addr);
    JoinChars(parts);
    forall i | 0 <= i < |parts|
      ensures ':' !in parts[i]
    {
      HexadecimalHasNoSpace(parts[i]);
    }
    SplitJoin(parts, ':');
  }

  lemma KeyRoundTrip(key: Key)
    ensures ParseKey(PrintKey(key)) == Some(key) && Spaceless(PrintKey(key))
  {
    var parts := PrintOctets(Lower, key);
    PrintedOctets(Lower, key);
    ConcatPairs(parts);
    HexadecimalHasNoSpace(Concat(parts));
  }

  function PrintEntry(e: Entry): string {
    PrintAddr(e.addr) + " " + PrintKey(e.key)
  }

  lemma EntryWords(a: string, k: string)
    requires Spaceless(a) && Spaceless(k)
    ensures ParseLinkKey(a + " " + k) == ParseWords(a, k)
    ensures !Indented(a + " " + k) && '\n' !in a + " " + k && StripCr(a + " " + k) == a + " " + k
  {
    SplitTwoWords(RustSpace, a, ' ', k);
    assert RustSpace('\n') && RustSpace('\r');
    assert '\n' !in a && '\n' !in k;
    var line := a + " " + k;
    assert line[|line| - 1] == k[|k| - 1] && line[0] == a[0];
  }

  /** Every printed line parses back to its address and key, and is not indented. */
  lemma EntryRoundTrip(e: Entry)
    ensures ParseLinkKey(PrintEntry(e)) == Some(e)
    ensures LoadLine(PrintEntry(e)) == Some(e)
    ensures !Indented(PrintEntry(e)) && '\n' !in PrintEntry(e) && StripCr(PrintEntry(e)) == PrintEntry(e)
  {
    AddrRoundTrip(e.addr);
    KeyRoundTrip(e.key);
    EntryWords(PrintAddr(e.addr), PrintKey(e.key));
    FilterSeesUnindented(PrintEntry(e));
  }

  // ---------------------------------------------------------------------------
  // The file
  // ---------------------------------------------------------------------------

  type File = Option<string>

  function StripCr(line: string): string {
    if line != "" && line[|line| - 1] == '\r' then line[..|line| - 1] else line
  }

  function StripCrs(lines: seq<string>): (r: seq<string>)
    ensures |r| == |lines|
  {
    seq(|lines|, i requires 0 <= i < |lines| => StripCr(lines[i]))
  }

  /** `str::lines`: terminated lines lose a carriage return, a last unterminated line does
      not, and there is no empty last line. */
  function Lines(text: string): seq<string> {
    var pieces := Split(text, '\n');
    var n := |pieces| - 1;
    StripCrs(pieces[..n]) + (if pieces[n] == "" then [] else [pieces[n]])
  }

  function LinesOf(file: File): seq<string> {
    match file
    case None => []
    case Some(text) => Lines(text)
  }

  function WriteLines(lines: seq<string>): string {
    if lines == [] then "" else lines[0] + "\n" + WriteLines(lines[1..])
  }

  /** How a reader sees a line: as an entry or not. */
  type Reader = string -> Option<Entry>

  function Entries(see: Reader, lines: seq<string>): seq<Entry> {
    if lines == [] then []
    else
      (match see(lines[0]) case None => [] case Some(e) => [e]) + Entries(see, lines[1..])
  }

  function Load(file: File): seq<Entry> {
    Entries(LoadLine, LinesOf(file))
  }

  /** The lines that survive an update for `addr`: all but those seen as its entries. */
  function Kept(see: Reader, lines: seq<string>, addr: Addr): seq<string> {
    if lines == [] then []
    else
      var e := see(lines[0]);
      (if e.None? || e.value.addr != addr then [lines[0]] else []) + Kept(see, lines[1..], addr)
  }

  function NewLines(addr: Addr, key: Option<Key>): seq<string> {
    match key case None => [] case Some(k) => [PrintEntry(Entry(addr, k))]
  }

  function Store(file: File, addr: Addr, key: Option<Key>): File {
    Some(WriteLines(Kept(ParseLinkKey, LinesOf(file), addr) + NewLines(addr, key)))
  }

  // ---------------------------------------------------------------------------
  // Exactly what is read and written
  // ---------------------------------------------------------------------------

  const LOWER_HEX := "0123456789abcdef"
  const UPPER_HEX := "0123456789ABCDEF"

  lemma DigitExactly(c: char, v: nat)
    ensures DigitValue(c) == Some(v) <==> v < 16 && (c == LOWER_HEX[v] || c == UPPER_HEX[v])
  {
  }

  /** The number that hexadecimal digits spell after `acc`. */
  function Spelled(acc: nat, s: string): Option<nat>
    decreases |s|
  {
    if s == "" then Some(acc)
    else match DigitValue(s[0])
      case None => None
      case Some(v) => Spelled(16 * acc + v, s[1..])
  }

  lemma {:induction false} SpelledGrows(acc: nat, s: string)
    ensures Spelled(acc, s).Some? ==> Spelled(acc, s).value >= acc
    decreases |s|
  {
    if s != "" && DigitValue(s[0]).Some? {
      SpelledGrows(16 * acc + DigitValue(s[0]).value, s[1..]);
    }
  }

  lemma {:induction false} DigitsExactly(s: string, acc: byte, b: byte)
    ensures Digits(s, acc) == Some(b) <==> Spelled(acc, s) == Some(b as nat)
    decreases |s|
  {
    if s != "" && DigitValue(s[0]).Some? {
      var next := 16 * (acc as nat) + DigitValue(s[0]).value;
      if next > 255 {
        SpelledGrows(next, s[1..]);
      } else {
        DigitsExactly(s[1..], next, b);
      }
    }
  }

  /** How an octet can be written: a plus sign or not, and at least one digit. */
  ghost predicate SpellsOctet(s: string, digits: string, b: byte) {
    (s == digits || s == ['+'] + digits) && digits != "" && Spelled(0, digits) == Some(b as nat)
  }

  /** An octet is read exactly from such a text. */
  lemma OctetExactly(s: string, b: byte)
    ensures ParseOctet(s) == Some(b) <==> exists digits :: SpellsOctet(s, digits, b)
  {
    var digits := if s != "" && s[0] == '+' then s[1..] else s;
    DigitsExactly(digits, 0, b);
    if ParseOctet(s) == Some(b) {
      assert s == digits || s == ['+'] + digits;
      assert SpellsOctet(s, digits, b);
    }
    if other :| SpellsOctet(s, other, b) {
      PlusIsNoDigit(other);
      assert other == digits;
    }
  }

  lemma PlusIsNoDigit(digits: string)
    requires digits != "" && Spelled(0, digits).Some?
    ensures digits[0] != '+'
  {
  }

  lemma {:induction false} OctetsExactly(parts: seq<string>, bs: seq<byte>)
    ensures ParseOctets(parts) == Some(bs) <==> |parts| == |bs| && forall i :: 0 <= i < |bs| ==> ParseOctet(parts[i]) == Some(bs[i])
  {
    if parts != [] {
      var rest := ParseOctets(parts[1..]);
      if bs != [] {
        OctetsExactly(parts[1..], bs[1..]);
        assert bs == [bs[0]] + bs[1..];
        assert forall i :: 1 <= i < |parts| ==> parts[i] == parts[1..][i - 1];
        assert forall i :: 1 <= i < |bs| ==> bs[i] == bs[1..][i - 1];
      }
      if ParseOctets(parts) == Some(bs) {
        assert bs == [ParseOctet(parts[0]).value] + rest.value;
      }
    }
  }

  lemma {:induction false} PairsAt(s: string, i: nat)
    requires |s| % 2 == 0 && 2 * i + 2 <= |s|
    ensures Pairs(s)[i] == s[2 * i..2 * i + 2]
  {
    if i > 0 {
      PairsAt(s[2..], i - 1);
      assert s[2..][2 * (i - 1)..2 * (i - 1) + 2] == s[2 * i..2 * i + 2];
    }
  }

  /** An address: six octets between five colons. */
  ghost predicate SpellsAddr(s: string, parts: seq<string>, addr: Addr) {
    && |parts| == 6 && Separated(parts, ':') && s == Join(parts, ':')
    && forall i :: 0 <= i < 6 ==> ParseOctet(parts[i]) == Some(addr[i])
  }

  lemma AddrExactly(s: string, addr: Addr)
    ensures ParseAddr(s) == Some(addr) <==> exists parts :: SpellsAddr(s, parts, addr)
  {
    JoinSplit(s, ':');
    OctetsExactly(Split(s, ':'), addr);
    if ParseAddr(s) == Some(addr) {
      assert SpellsAddr(s, Split(s, ':'), addr);
    }
    if parts :| SpellsAddr(s, parts, addr) {
      SplitJoin(parts, ':');
    }
  }

  /** A key: thirty-two characters, two to an octet. */
  ghost predicate SpellsKey(s: string, key: Key) {
    |s| == 32 && forall i :: 0 <= i < 16 ==> ParseOctet(s[2 * i..2 * i + 2]) == Some(key[i])
  }

  lemma KeyExactly(s: string, key: Key)
    ensures ParseKey(s) == Some(key) <==> SpellsKey(s, key)
  {
    if |s| == 32 {
      OctetsExactly(Pairs(s), key);
      forall i | 0 <= i < 16
        ensures Pairs(s)[i] == s[2 * i..2 * i + 2]
      {
        PairsAt(s, i);
      }
    }
  }

  /** An entry: an address without white space in it, then white space, then a key with
      white space around it or not. */
  ghost predicate SpellsEntry(line: string, addr: string, sep: char, rest: string, e: Entry) {
    && line == addr + [sep] + rest && RustSpace(sep) && (forall i :: 0 <= i < |addr| ==> !RustSpace(addr[i]))
    && ParseAddr(addr) == Some(e.addr) && SpellsKey(Trim(RustSpace, rest), e.key)
  }

  /** Exactly the lines the filter takes for an entry, and for which, */
  lemma EntryExactly(line: string, e: Entry)
    ensures ParseLinkKey(line) == Some(e) <==> exists addr, sep, rest :: SpellsEntry(line, addr, sep, rest, e)
  {
    var i := FirstSpace(RustSpace, line);
    if i < |line| {
      var addr, rest := line[..i], line[i + 1..];
      TrimNothing(RustSpace, addr);
      KeyExactly(Trim(RustSpace, rest), e.key);
      assert line == addr + [line[i]] + rest;
      if ParseLinkKey(line) == Some(e) {
        assert SpellsEntry(line, addr, line[i], rest, e);
      }
    }
    if addr, sep, rest :| SpellsEntry(line, addr, sep, rest, e) {
      assert line[|addr|] == sep;
      FirstSpaceIs(RustSpace, line, |addr|);
      assert line[..|addr|] == addr && line[|addr| + 1..] == rest;
    }
  }

  /** and those that loading takes for one: the same, trimmed. Comments are none anyway. */
  lemma LoadedExactly(line: string)
    ensures LoadLine(line) == ParseLinkKey(Trim(RustSpace, line))
  {
    var t := Trim(RustSpace, line);
    if t == "" {
      assert FirstSpace(RustSpace, t) == |t|;
    } else if t[0] == '#' {
      CommentIsNoEntry(t);
    }
  }

  /** The text of an entry, character by character: capitals in the address, small letters in
      the key. */
  lemma PrintedOctet(k: Case, b: byte)
    ensures PrintOctet(k, b) == if k == Upper then [UPPER_HEX[b / 16], UPPER_HEX[b % 16]] else [LOWER_HEX[b / 16], LOWER_HEX[b % 16]]
  {
    DigitIsPrinted(k, b / 16);
    DigitIsPrinted(k, b % 16);
  }

  lemma DigitIsPrinted(k: Case, v: nat)
    requires v < 16
    ensures PrintDigit(k, v) == if k == Upper then UPPER_HEX[v] else LOWER_HEX[v]
  {
  }

  lemma {:induction false} PrintedAt(k: Case, bs: seq<byte>, i: nat)
    requires i < |bs|
    ensures |PrintOctets(k, bs)| == |bs| && PrintOctets(k, bs)[i] == PrintOctet(k, bs[i])
  {
    if i > 0 {
      PrintedAt(k, bs[1..], i - 1);
    } else if |bs| > 1 {
      PrintedAt(k, bs[1..], 0);
    }
  }

  lemma {:induction false} ConcatAt(parts: seq<string>, i: nat)
    requires i < |parts| && forall j :: 0 <= j < |parts| ==> |parts[j]| == 2
    ensures 2 * i + 2 <= |Concat(parts)| && Concat(parts)[2 * i..2 * i + 2] == parts[i]
  {
    if i > 0 {
      ConcatAt(parts[1..], i - 1);
      assert Concat(parts)[2 * i..2 * i + 2] == Concat(parts[1..])[2 * (i - 1)..2 * (i - 1) + 2];
    }
  }

  lemma PrintedEntry(e: Entry)
    ensures exists parts ::
              && SpellsAddr(PrintAddr(e.addr), parts, e.addr) && PrintEntry(e) == Join(parts, ':') + " " + PrintKey(e.key)
              && forall i :: 0 <= i < 6 ==> parts[i] == [UPPER_HEX[e.addr[i] / 16], UPPER_HEX[e.addr[i] % 16]]
    ensures |PrintKey(e.key)| == 32
    ensures forall i :: 0 <= i < 16 ==> PrintKey(e.key)[2 * i..2 * i + 2] == [LOWER_HEX[e.key[i] / 16], LOWER_HEX[e.key[i] % 16]]
  {
    var parts := PrintOctets(Upper, e.addr);
    PrintedOctets(Upper, e.addr);
    PrintedOctets(Lower, e.key);
    ConcatPairs(PrintOctets(Lower, e.key));
    forall i | 0 <= i < 6
      ensures parts[i] == [UPPER_HEX[e.addr[i] / 16], UPPER_HEX[e.addr[i] % 16]]
    {
      PrintedAt(Upper, e.addr, i);
      PrintedOctet(Upper, e.addr[i]);
    }
    forall i | 0 <= i < 16
      ensures PrintKey(e.key)[2 * i..2 * i + 2] == [LOWER_HEX[e.key[i] / 16], LOWER_HEX[e.key[i] % 16]]
    {
      PrintedAt(Lower, e.key, i);
      PrintedOctet(Lower, e.key[i]);
      ConcatAt(PrintOctets(Lower, e.key), i);
    }
    OctetsExactly(parts, e.addr);
    HexSeparated(parts);
    assert SpellsAddr(PrintAddr(e.addr), parts, e.addr);
  }

  lemma HexSeparated(parts: seq<string>)
    requires forall i :: 0 <= i < |parts| ==> Hexadecimal(parts[i])
    ensures Separated(parts, ':')
  {
    forall i | 0 <= i < |parts|
      ensures ':' !in parts[i]
    {
      HexadecimalHasNoSpace(parts[i]);
    }
  }

  /** The lines of a text, with or without a carriage return before each newline, and with
      or without a last line that no newline ends. */
  lemma LinesExactly(raw: seq<string>, lines: seq<string>, last: string)
    requires |raw| == |lines| && NoNewlines(raw) && '\n' !in last
    requires forall i :: 0 <= i < |raw| ==>
               || raw[i] == lines[i] + "\r"
               || (raw[i] == lines[i] && (lines[i] == "" || lines[i][|lines[i]| - 1] != '\r'))
    ensures Lines(WriteLines(raw) + last) == lines + (if last == "" then [] else [last])
  {
    var pieces := raw + [last];
    WriteThenLast(raw, last);
    SplitJoin(pieces, '\n');
    assert pieces[..|raw|] == raw;
    CrsStripped(raw, lines);
  }

  lemma {:induction false} CrsStripped(raw: seq<string>, lines: seq<string>)
    requires |raw| == |lines|
    requires forall i :: 0 <= i < |raw| ==>
               || raw[i] == lines[i] + "\r"
               || (raw[i] == lines[i] && (lines[i] == "" || lines[i][|lines[i]| - 1] != '\r'))
    ensures StripCrs(raw) == lines
  {
    if raw != [] {
      CrsStripped(raw[1..], lines[1..]);
      CrStripped(raw[0], lines[0]);
      assert lines == [lines[0]] + lines[1..];
    }
  }

  lemma CrStripped(raw: string, line: string)
    requires raw == line + "\r" || (raw == line && (line == "" || line[|line| - 1] != '\r'))
    ensures StripCr(raw) == line
  {
    if raw != line {
      assert raw[..|raw| - 1] == line;
    }
  }

  lemma {:induction false} WriteThenLast(lines: seq<string>, last: string)
    ensures WriteLines(lines) + last == Join(lines + [last], '\n')
  {
    if lines != [] {
      WriteThenLast(lines[1..], last);
      assert (lines + [last])[1..] == lines[1..] + [last];
      assert WriteLines(lines) + last == lines[0] + "\n" + (WriteLines(lines[1..]) + last);
    } else {
      assert [] + [last] == [last];
    }
  }

  /** What an update keeps, line by line: a line goes if and only if the filter takes it for
      an entry of the peer, and all the others, comments too, stay as and where they were. */
  lemma {:induction false} KeptExactly(see: Reader, lines: seq<string>, addr: Addr, i: nat)
    requires i < |lines|
    ensures var gone := see(lines[i]).Some? && see(lines[i]).value.addr == addr;
            Kept(see, lines, addr)
            == Kept(see, lines[..i], addr) + (if gone then [] else [lines[i]]) + Kept(see, lines[i + 1..], addr)
  {
    var line, rest := lines[0], lines[1..];
    if i > 0 {
      KeptExactly(see, rest, addr, i - 1);
      assert lines[..i][1..] == rest[..i - 1] && rest[i - 1 + 1..] == lines[i + 1..];
      assert lines[..i][0] == line;
    } else {
      assert lines[..0] == [];
    }
  }

  // ---------------------------------------------------------------------------
  // What a store does to the entries
  // ---------------------------------------------------------------------------

  /** The entries with every one for `addr` taken out. */
  function Without(es: seq<Entry>, addr: Addr): seq<Entry> {
    if es == [] then []
    else (if es[0].addr == addr then [] else [es[0]]) + Without(es[1..], addr)
  }

  function Added(addr: Addr, key: Option<Key>): seq<Entry> {
    match key case None => [] case Some(k) => [Entry(addr, k)]
  }

  /** A line that loads as an entry for `addr` and that the filter cannot see. */
  predicate Hidden(line: string, addr: Addr) {
    Indented(line) && LoadLine(line).Some? && LoadLine(line).value.addr == addr
  }

  ghost predicate NoneHidden(lines: seq<string>, addr: Addr) {
    forall i :: 0 <= i < |lines| ==> !Hidden(lines[i], addr)
  }

  ghost predicate NoNewlines(lines: seq<string>) {
    forall i :: 0 <= i < |lines| ==> '\n' !in lines[i]
  }

  lemma {:induction false} WriteIsJoin(lines: seq<string>)
    ensures WriteLines(lines) == Join(lines + [""], '\n')
  {
    if lines != [] {
      WriteIsJoin(lines[1..]);
      assert (lines + [""])[1..] == lines[1..] + [""];
    }
  }

  /** Reading back what was written strips at most a carriage return from each line. */
  lemma LinesOfWritten(lines: seq<string>)
    requires NoNewlines(lines)
    ensures Lines(WriteLines(lines)) == StripCrs(lines)
  {
    WriteIsJoin(lines);
    SplitJoin(lines + [""], '\n');
    assert (lines + [""])[..|lines|] == lines;
  }

  lemma LinesHaveNoNewlines(file: File)
    ensures NoNewlines(LinesOf(file))
  {
    if file.Some? {
      JoinSplit(file.value, '\n');
    }
  }

  lemma StripCrKeepsEntry(line: string)
    ensures LoadLine(StripCr(line)) == LoadLine(line)
    ensures Indented(StripCr(line)) ==> Indented(line)
  {
    TrimBlankEnd(RustSpace, line, StripCr(line));
  }

  lemma {:induction false} StripCrsKeepEntries(lines: seq<string>)
    ensures Entries(LoadLine, StripCrs(lines)) == Entries(LoadLine, lines)
  {
    if lines != [] {
      assert StripCrs(lines)[1..] == StripCrs(lines[1..]);
      StripCrKeepsEntry(lines[0]);
      StripCrsKeepEntries(lines[1..]);
    }
  }

  lemma {:induction false} EntriesOfConcatenation(see: Reader, a: seq<string>, b: seq<string>)
    ensures Entries(see, a + b) == Entries(see, a) + Entries(see, b)
  {
    if a == [] {
      assert a + b == b;
    } else {
      assert (a + b)[1..] == a[1..] + b;
      EntriesOfConcatenation(see, a[1..], b);
    }
  }

  /** Filtering lines by one reader filters the entries of another, when the first misses
      no entry for `addr` that the second sees. */
  lemma {:induction false} KeptEntries(load: Reader, see: Reader, lines: seq<string>, addr: Addr)
    requires forall i :: 0 <= i < |lines| ==>
               || see(lines[i]) == load(lines[i])
               || (see(lines[i]) == None && !(load(lines[i]).Some? && load(lines[i]).value.addr == addr))
    ensures Entries(load, Kept(see, lines, addr)) == Without(Entries(load, lines), addr)
  {
    if lines != [] {
      var line, rest := lines[0], lines[1..];
      KeptEntries(load, see, rest, addr);
      if see(line).None? || see(line).value.addr != addr {
        assert ([line] + Kept(see, rest, addr))[1..] == Kept(see, rest, addr);
      } else {
        assert [] + Kept(see, rest, addr) == Kept(see, rest, addr);
      }
      WithoutFirst(load(line), Entries(load, rest), addr);
    }
  }

  lemma WithoutFirst(e: Option<Entry>, es: seq<Entry>, addr: Addr)
    ensures var head := match e case None => [] case Some(x) => [x];
            Without(head + es, addr)
            == (if e.Some? && e.value.addr != addr then [e.value] else []) + Without(es, addr)
  {
    if e.None? {
      assert [] + es == es;
    } else {
      assert ([e.value] + es)[1..] == es;
    }
  }

  /** An entry the filter misses is still there afterwards. */
  lemma {:induction false} MissedEntryStays(load: Reader, see: Reader, lines: seq<string>, addr: Addr, i: nat)
    requires i < |lines| && see(lines[i]).None? && load(lines[i]).Some? && load(lines[i]).value.addr == addr
    ensures load(lines[i]).value in Entries(load, Kept(see, lines, addr))
  {
    var line, rest := lines[0], lines[1..];
    if see(line).None? || see(line).value.addr != addr {
      assert ([line] + Kept(see, rest, addr))[1..] == Kept(see, rest, addr);
    } else {
      assert [] + Kept(see, rest, addr) == Kept(see, rest, addr);
    }
    if i > 0 {
      MissedEntryStays(load, see, rest, addr, i - 1);
    }
  }

  lemma {:induction false} KeptLines(see: Reader, lines: seq<string>, addr: Addr)
    ensures forall line :: line in Kept(see, lines, addr) ==> line in lines
  {
    if lines != [] {
      KeptLines(see, lines[1..], addr);
    }
  }

  lemma OneEntry(see: Reader, line: string, e: Entry)
    requires see(line) == Some(e)
    ensures Entries(see, [line]) == [e]
  {
    assert [line][1..] == [];
  }

  lemma NewLinesLoad(addr: Addr, key: Option<Key>)
    ensures NoNewlines(NewLines(addr, key))
    ensures Entries(LoadLine, NewLines(addr, key)) == Added(addr, key)
  {
    if key.Some? {
      var e := Entry(addr, key.value);
      EntryRoundTrip(e);
      OneEntry(LoadLine, PrintEntry(e), e);
    }
  }

  lemma StoredLines(file: File, addr: Addr, key: Option<Key>)
    ensures NoNewlines(Kept(ParseLinkKey, LinesOf(file), addr) + NewLines(addr, key))
  {
    var lines := LinesOf(file);
    LinesHaveNoNewlines(file);
    KeptLines(ParseLinkKey, lines, addr);
    NewLinesLoad(addr, key);
    var kept := Kept(ParseLinkKey, lines, addr);
    forall i | 0 <= i < |kept|
      ensures '\n' !in kept[i]
    {
      assert kept[i] in lines;
    }
  }

  /** The file after a store reads as the kept lines' entries and the new one. */
  lemma LoadAfterStore(file: File, addr: Addr, key: Option<Key>)
    ensures LinesOf(Store(file, addr, key))
            == StripCrs(Kept(ParseLinkKey, LinesOf(file), addr) + NewLines(addr, key))
    ensures Load(Store(file, addr, key))
            == Entries(LoadLine, Kept(ParseLinkKey, LinesOf(file), addr)) + Added(addr, key)
  {
    var kept, more := Kept(ParseLinkKey, LinesOf(file), addr), NewLines(addr, key);
    StoredLines(file, addr, key);
    NewLinesLoad(addr, key);
    LinesOfWritten(kept + more);
    StripCrsKeepEntries(kept + more);
    EntriesOfConcatenation(LoadLine, kept, more);
  }

  lemma {:induction false} WithoutMembers(es: seq<Entry>, addr: Addr)
    ensures forall e :: e in Without(es, addr) ==> e.addr != addr
  {
    if es != [] {
      WithoutMembers(es[1..], addr);
    }
  }

  lemma ReadersAgree(lines: seq<string>)
    ensures forall i :: 0 <= i < |lines| ==>
              ParseLinkKey(lines[i]) == if Indented(lines[i]) then None else LoadLine(lines[i])
  {
    forall i | 0 <= i < |lines| {
      FilterSeesUnindented(lines[i]);
    }
  }

  lemma KeptWhenNoneHidden(lines: seq<string>, addr: Addr)
    ensures Entries(LoadLine, Kept(ParseLinkKey, lines, addr)) == Without(Entries(LoadLine, lines), addr)
            <==> NoneHidden(lines, addr)
  {
    ReadersAgree(lines);
    if NoneHidden(lines, addr) {
      KeptEntries(LoadLine, ParseLinkKey, lines, addr);
    } else {
      var i :| 0 <= i < |lines| && Hidden(lines[i], addr);
      MissedEntryStays(LoadLine, ParseLinkKey, lines, addr, i);
      WithoutMembers(Entries(LoadLine, lines), addr);
    }
  }

  /** One update, exactly: the peer's old entries go, every other entry stays where it was
      and the new one is last, if and only if no indented line holds an entry for the peer. */
  lemma StoreReplaces(file: File, addr: Addr, key: Option<Key>)
    ensures Load(Store(file, addr, key)) == Without(Load(file), addr) + Added(addr, key)
            <==> NoneHidden(LinesOf(file), addr)
  {
    LoadAfterStore(file, addr, key);
    KeptWhenNoneHidden(LinesOf(file), addr);
    SameEnd(Entries(LoadLine, Kept(ParseLinkKey, LinesOf(file), addr)), Without(Load(file), addr), Added(addr, key));
  }

  lemma SameEnd(a: seq<Entry>, b: seq<Entry>, end: seq<Entry>)
    ensures a + end == b + end <==> a == b
  {
    if a + end == b + end {
      assert |a| == |b| && a == (a + end)[..|a|] && b == (b + end)[..|b|];
    }
  }

  // ---------------------------------------------------------------------------
  // Whole runs
  // ---------------------------------------------------------------------------

  /** One message to the writer: a key to store, or a peer to forget. */
  datatype Op = Op(addr: Addr, key: Option<Key>)

  function RunOps(file: File, ops: seq<Op>): File {
    if ops == [] then file
    else
      var last := ops[|ops| - 1];
      Store(RunOps(file, ops[..|ops| - 1]), last.addr, last.key)
  }

  /** The same on entry lists: forget, then append. */
  function Fold(es: seq<Entry>, ops: seq<Op>): seq<Entry> {
    if ops == [] then es
    else
      var last := ops[|ops| - 1];
      Without(Fold(es, ops[..|ops| - 1]), last.addr) + Added(last.addr, last.key)
  }

  /** The specification: a map in which the last write wins. */
  ghost function LastWrites(ops: seq<Op>): map<Addr, Key> {
    if ops == [] then map[]
    else
      var m, last := LastWrites(ops[..|ops| - 1]), ops[|ops| - 1];
      match last.key
      case None => m - {last.addr}
      case Some(k) => m[last.addr := k]
  }

  /** No indented line holds an entry. */
  ghost predicate Tidy(lines: seq<string>) {
    forall i :: 0 <= i < |lines| ==> Indented(lines[i]) ==> LoadLine(lines[i]).None?
  }

  lemma TidyIsNoneHidden(lines: seq<string>)
    ensures Tidy(lines) <==> forall addr :: NoneHidden(lines, addr)
  {
    if !Tidy(lines) {
      var i :| 0 <= i < |lines| && Indented(lines[i]) && LoadLine(lines[i]).Some?;
      assert Hidden(lines[i], LoadLine(lines[i]).value.addr);
      assert !NoneHidden(lines, LoadLine(lines[i]).value.addr);
    }
  }

  lemma StoreKeepsTidy(file: File, addr: Addr, key: Option<Key>)
    requires Tidy(LinesOf(file))
    ensures Tidy(LinesOf(Store(file, addr, key)))
  {
    var kept := Kept(ParseLinkKey, LinesOf(file), addr);
    var all := kept + NewLines(addr, key);
    LoadAfterStore(file, addr, key);
    KeptLines(ParseLinkKey, LinesOf(file), addr);
    forall i | 0 <= i < |all| && Indented(StripCr(all[i]))
      ensures LoadLine(StripCr(all[i])).None?
    {
      StripCrKeepsEntry(all[i]);
      if i < |kept| {
        assert kept[i] in LinesOf(file);
      } else {
        EntryRoundTrip(Entry(addr, key.value));
      }
    }
  }

  /** From any file without indented entries, a run through the single writer is the fold
      of its messages over the entries loaded at the start. */
  lemma {:induction false} RunIsFold(file: File, ops: seq<Op>)
    requires Tidy(LinesOf(file))
    ensures Tidy(LinesOf(RunOps(file, ops)))
    ensures Load(RunOps(file, ops)) == Fold(Load(file), ops)
  {
    if ops != [] {
      var init, last := ops[..|ops| - 1], ops[|ops| - 1];
      RunIsFold(file, init);
      var before := RunOps(file, init);
      TidyIsNoneHidden(LinesOf(before));
      StoreKeepsTidy(before, last.addr, last.key);
      StoreReplaces(before, last.addr, last.key);
    }
  }

  /** And only from those: a file with an indented entry has a one-message run that is not. */
  lemma IndentedEntryBreaksRuns(file: File)
    requires !Tidy(LinesOf(file))
    ensures exists op: Op :: Load(RunOps(file, [op])) != Fold(Load(file), [op])
  {
    TidyIsNoneHidden(LinesOf(file));
    var addr :| !NoneHidden(LinesOf(file), addr);
    StoreReplaces(file, addr, None);
    var op := Op(addr, None);
    assert [op][..0] == [];
    assert RunOps(file, [op]) == Store(file, addr, None);
    assert Fold(Load(file), [op]) == Without(Load(file), addr) + Added(addr, None);
  }

  /** An entry list that is a map: one entry per peer, with the peer's key. */
  ghost predicate Represents(es: seq<Entry>, m: map<Addr, Key>) {
    && (forall i, j :: 0 <= i < j < |es| ==> es[i].addr != es[j].addr)
    && (forall e :: e in es ==> e.addr in m && m[e.addr] == e.key)
    && (forall a :: a in m ==> Entry(a, m[a]) in es)
  }

  lemma {:induction false} WithoutRepresents(es: seq<Entry>, addr: Addr)
    requires forall i, j :: 0 <= i < j < |es| ==> es[i].addr != es[j].addr
    ensures var r := Without(es, addr);
            && (forall i, j :: 0 <= i < j < |r| ==> r[i].addr != r[j].addr)
            && (forall e :: e in r <==> e in es && e.addr != addr)
  {
    if es != [] {
      WithoutRepresents(es[1..], addr);
    }
  }

  lemma {:induction false} FoldRepresents(ops: seq<Op>)
    ensures Represents(Fold([], ops), LastWrites(ops))
  {
    if ops != [] {
      var init, last := ops[..|ops| - 1], ops[|ops| - 1];
      FoldRepresents(init);
      var es := Fold([], init);
      WithoutRepresents(es, last.addr);
    }
  }

  /** Starting from no file: whatever was stored and forgotten, in whatever order, loading
      gives exactly the map in which the last write wins, one entry per peer. */
  lemma StoreIsLastWriteWins(ops: seq<Op>)
    ensures Represents(Load(RunOps(None, ops)), LastWrites(ops))
  {
    RunIsFold(None, ops);
    FoldRepresents(ops);
  }

  // ---------------------------------------------------------------------------
  // The code
  // ---------------------------------------------------------------------------

  lemma EntriesStep(see: Reader, lines: seq<string>, n: nat, out: seq<Entry>)
    requires n < |lines|
    ensures out + Entries(see, lines[n..])
            == (match see(lines[n]) case None => out case Some(e) => out + [e]) + Entries(see, lines[n + 1..])
  {
    assert lines[n..][0] == lines[n] && lines[n..][1..] == lines[n + 1..];
  }

  lemma KeptStep(see: Reader, lines: seq<string>, n: nat, addr: Addr, out: seq<string>)
    requires n < |lines|
    ensures var e := see(lines[n]);
            out + Kept(see, lines[n..], addr)
            == (if e.None? || e.value.addr != addr then out + [lines[n]] else out) + Kept(see, lines[n + 1..], addr)
  {
    assert lines[n..][0] == lines[n] && lines[n..][1..] == lines[n + 1..];
  }

  /** The file on disk and the functions that read and rewrite it. */
  class KeyFile {
    var file: File

    constructor ()
      ensures file == None
    {
      file := None;
    }

    method LoadLinkKeys() returns (out: seq<Entry>)
      ensures out == Load(file)
    {
      out := [];
      if file.None? {
        return;
      }
      var lines := Lines(file.value);
      ghost var all := Entries(LoadLine, lines);
      assert lines[0..] == lines;
      for n := 0 to |lines|
        invariant out + Entries(LoadLine, lines[n..]) == all
      {
        EntriesStep(LoadLine, lines, n, out);
        var line := Trim(RustSpace, lines[n]);
        if line == "" || line[0] == '#' {
          continue;
        }
        var entry := ParseLinkKey(line);
        if entry.Some? {
          out := out + [entry.value];
        }
      }
      assert lines[|lines|..] == [];
    }

    method StoreLinkKey(addr: Addr, key: Option<Key>)
      modifies this
      ensures file == Store(old(file), addr, key)
    {
      var existing := if file.Some? then Lines(file.value) else [];
      var kept := KeepOthers(existing, addr);
      kept := kept + NewLines(addr, key);
      file := Some(WriteLines(kept));
    }

    method KeepOthers(lines: seq<string>, addr: Addr) returns (kept: seq<string>)
      ensures kept == Kept(ParseLinkKey, lines, addr)
    {
      kept := [];
      ghost var all := Kept(ParseLinkKey, lines, addr);
      assert lines[0..] == lines;
      for n := 0 to |lines|
        invariant kept + Kept(ParseLinkKey, lines[n..], addr) == all
      {
        KeptStep(ParseLinkKey, lines, n, addr, kept);
        var entry := ParseLinkKey(lines[n]);
        if entry.None? || entry.value.addr != addr {
          kept := kept + [lines[n]];
        }
      }
      assert lines[|lines|..] == [];
    }

    /** The writer task: one message at a time, in arrival order. */
    method Drain(queue: seq<Op>)
      modifies this
      ensures file == RunOps(old(file), queue)
    {
      for n := 0 to |queue|
        invariant file == RunOps(old(file), queue[..n])
      {
        assert queue[..n + 1][..n] == queue[..n];
        StoreLinkKey(queue[n].addr, queue[n].key);
      }
      assert queue[..|queue|] == queue;
    }
  }
}
