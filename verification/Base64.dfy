/**
 Base64 as section 4 of RFC 4648 defines it, padded, and decoded strictly: a text decodes
 exactly when it is the encoding of something.
 */
module Base64 {
  import opened Basics
  import opened Arithmetic

  function Digit(v: nat): char
    requires v < 64
  {
    if v < 26 then 'A' + v as char
    else if v < 52 then 'a' + (v - 26) as char
    else if v < 62 then '0' + (v - 52) as char
    else if v == 62 then '+'
    else '/'
  }

  function Value(c: char): Option<nat> {
    if 'A' <= c <= 'Z' then Some((c - 'A') as nat)
    else if 'a' <= c <= 'z' then Some((c - 'a') as nat + 26)
    else if '0' <= c <= '9' then Some((c - '0') as nat + 52)
    else if c == '+' then Some(62)
    else if c == '/' then Some(63)
    else None
  }

  lemma DigitValue(v: nat)
    requires v < 64
    ensures Value(Digit(v)) == Some(v) && Digit(v) != '='
  {
  }

  lemma ValueDigit(c: char)
    requires Value(c).Some?
    ensures Value(c).value < 64 && Digit(Value(c).value) == c
  {
  }

  /** The alphabet of the standard, in its order: table 1 of section 4. */
  function Alphabet(row: nat): (digits: string)
    requires row < 4
    ensures |digits| == 16
  {
    if row == 0 then "ABCDEFGHIJKLMNOP"
    else if row == 1 then "QRSTUVWXYZabcdef"
    else if row == 2 then "ghijklmnopqrstuv"
    else "wxyz0123456789+/"
  }

  lemma DigitIsAlphabet(v: nat)
    requires v < 64
    ensures Digit(v) == Alphabet(v / 16)[v % 16]
  {
    var row, k := v / 16, v % 16;
    assert v == 16 * row + k;
    if row == 0 {
      assert Digit(v) == 'A' + k as char;
    } else if row == 1 {
    } else if row == 2 {
    } else {
    }
  }

  /** Three octets as four six-bit groups, and back. */
  datatype Sextets = Sextets(a: nat, b: nat, c: nat, d: nat)

  predicate Small(x: Sextets) {
    x.a < 64 && x.b < 64 && x.c < 64 && x.d < 64
  }

  function Regroup(x: byte, y: byte, z: byte): (s: Sextets)
    ensures Small(s)
  {
    Sextets(x / 4, x % 4 * 16 + y / 16, y % 16 * 4 + z / 64, z % 64)
  }

  function Octets(s: Sextets): (r: (byte, byte, byte))
    requires Small(s)
  {
    (s.a * 4 + s.b / 16, s.b % 16 * 16 + s.c / 4, s.c % 4 * 64 + s.d)
  }

  /** The groups are the digits in base 64 of the number the octets spell in base 256. */
  lemma SameNumber(x: byte, y: byte, z: byte)
    ensures var s := Regroup(x, y, z);
            0x1_0000 * (x as nat) + 0x100 * (y as nat) + z as nat == 0x4_0000 * s.a + 0x1000 * s.b + 0x40 * s.c + s.d
  {
  }

  lemma RegroupOctets(x: byte, y: byte, z: byte)
    ensures Octets(Regroup(x, y, z)) == (x, y, z)
  {
    ModIs(x % 4 * 16 + y / 16, 16, x % 4, y / 16);
    ModIs(y % 16 * 4 + z / 64, 4, y % 16, z / 64);
  }

  lemma OctetsRegroup(s: Sextets)
    requires Small(s)
    ensures var (x, y, z) := Octets(s); Regroup(x, y, z) == s
  {
    ModIs(s.a * 4 + s.b / 16, 4, s.a, s.b / 16);
    ModIs(s.b % 16 * 16 + s.c / 4, 16, s.b % 16, s.c / 4);
    ModIs(s.c % 4 * 64 + s.d, 64, s.c % 4, s.d);
  }

  function Print(s: Sextets): (r: string)
    requires Small(s)
    ensures |r| == 4
  {
    [Digit(s.a), Digit(s.b), Digit(s.c), Digit(s.d)]
  }

  /** Four digits, read as sextets; padding is read as zero where it is allowed. */
  function Read(s: string, pads: nat): (r: Option<Sextets>)
    requires |s| == 4 && pads <= 2
    ensures r.Some? ==> Small(r.value)
  {
    match (Value(s[0]), Value(s[1]), if pads > 1 then Some(0) else Value(s[2]), if pads > 0 then Some(0) else Value(s[3]))
    case (Some(a), Some(b), Some(c), Some(d)) =>
      ReadSmall(s);
      Some(Sextets(a, b, c, d))
    case _ => None
  }

  lemma ReadSmall(s: string)
    requires |s| == 4
    ensures forall i :: 0 <= i < 4 && Value(s[i]).Some? ==> Value(s[i]).value < 64
  {
  }

  function Encode(bs: seq<byte>): string
    decreases |bs|
  {
    if bs == [] then ""
    else if |bs| == 1 then Print(Regroup(bs[0], 0, 0))[..2] + "=="
    else if |bs| == 2 then Print(Regroup(bs[0], bs[1], 0))[..3] + "="
    else Print(Regroup(bs[0], bs[1], bs[2])) + Encode(bs[3..])
  }

  function DecodeFour(s: string): Option<seq<byte>>
    requires |s| == 4
  {
    match Read(s, 0)
    case None => None
    case Some(x) => var (a, b, c) := Octets(x); Some([a, b, c])
  }

  /** The last group may be padded, and then the bits it leaves over must be zero. */
  function DecodeLast(s: string): Option<seq<byte>>
    requires |s| == 4
  {
    if s[3] != '=' then DecodeFour(s)
    else
      var pads := if s[2] != '=' then 1 else 2;
      match Read(s, pads)
      case None => None
      case Some(x) =>
        var (a, b, c) := Octets(x);
        if pads == 1 then (if c == 0 then Some([a, b]) else None)
        else if b == 0 then Some([a]) else None
  }

  function Decode(s: string): Option<seq<byte>>
    decreases |s|
  {
    if s == "" then Some([])
    else if |s| < 4 then None
    else if |s| == 4 then DecodeLast(s)
    else match (DecodeFour(s[..4]), Decode(s[4..]))
      case (Some(head), Some(tail)) => Some(head + tail)
      case _ => None
  }

  lemma ReadPrint(x: Sextets)
    requires Small(x)
    ensures Read(Print(x), 0) == Some(x) && forall i :: 0 <= i < 4 ==> Print(x)[i] != '='
  {
    DigitValue(x.a);
    DigitValue(x.b);
    DigitValue(x.c);
    DigitValue(x.d);
  }

  lemma FourRoundTrip(a: byte, b: byte, c: byte)
    ensures DecodeFour(Print(Regroup(a, b, c))) == Some([a, b, c])
    ensures DecodeLast(Print(Regroup(a, b, c))) == Some([a, b, c])
  {
    ReadPrint(Regroup(a, b, c));
    RegroupOctets(a, b, c);
  }

  lemma PaddedRoundTrip(a: byte, b: byte)
    ensures |Encode([a])| == 4 && DecodeLast(Encode([a])) == Some([a])
    ensures |Encode([a, b])| == 4 && DecodeLast(Encode([a, b])) == Some([a, b])
  {
    ReadPrint(Regroup(a, 0, 0));
    RegroupOctets(a, 0, 0);
    ReadPrint(Regroup(a, b, 0));
    RegroupOctets(a, b, 0);
    assert Read(Encode([a]), 2) == Some(Regroup(a, 0, 0));
    assert Read(Encode([a, b]), 1) == Some(Regroup(a, b, 0));
  }

  lemma DecodeStep(head: string, rest: string, hs: seq<byte>, ts: seq<byte>)
    requires |head| == 4 && DecodeFour(head) == DecodeLast(head) == Some(hs) && Decode(rest) == Some(ts)
    ensures Decode(head + rest) == Some(hs + ts)
  {
    var s := head + rest;
    assert s[..4] == head && s[4..] == rest;
    if rest == "" {
      assert s == head && hs + ts == hs;
    }
  }

  lemma DecodeOfFour(s: string)
    requires |s| == 4
    ensures Decode(s) == DecodeLast(s)
  {
  }

  lemma ShortRoundTrip(bs: seq<byte>)
    requires 1 <= |bs| <= 2
    ensures Decode(Encode(bs)) == Some(bs)
  {
    var a, b := bs[0], bs[|bs| - 1];
    PaddedRoundTrip(a, b);
    DecodeOfFour(Encode([a]));
    DecodeOfFour(Encode([a, b]));
    assert bs == [a] || bs == [a, b];
  }

  lemma LongEncoding(bs: seq<byte>)
    requires |bs| >= 3
    ensures Encode(bs) == Print(Regroup(bs[0], bs[1], bs[2])) + Encode(bs[3..])
  {
  }

  lemma LongRoundTrip(bs: seq<byte>, rest: seq<byte>)
    requires |bs| >= 3 && rest == bs[3..] && Decode(Encode(rest)) == Some(rest)
    ensures Decode(Encode(bs)) == Some(bs)
  {
    var head := [bs[0], bs[1], bs[2]];
    LongEncoding(bs);
    FourRoundTrip(bs[0], bs[1], bs[2]);
    DecodeStep(Print(Regroup(bs[0], bs[1], bs[2])), Encode(rest), head, rest);
    assert bs == head + rest;
  }

  /** Decoding undoes encoding, on every byte string. */
  lemma {:induction false} DecodeEncode(bs: seq<byte>)
    ensures Decode(Encode(bs)) == Some(bs)
    decreases |bs|
  {
    if 1 <= |bs| <= 2 {
      ShortRoundTrip(bs);
    } else if |bs| >= 3 {
      var rest := bs[3..];
      DecodeEncode(rest);
      LongRoundTrip(bs, rest);
    }
  }

  lemma PrintRead(s: string)
    requires |s| == 4 && Read(s, 0).Some?
    ensures Print(Read(s, 0).value) == s
  {
    ValueDigit(s[0]);
    ValueDigit(s[1]);
    ValueDigit(s[2]);
    ValueDigit(s[3]);
  }

  lemma FourCanonical(s: string)
    requires |s| == 4 && DecodeFour(s).Some?
    ensures var bs := DecodeFour(s).value; |bs| == 3 && Print(Regroup(bs[0], bs[1], bs[2])) == s
  {
    PrintRead(s);
    OctetsRegroup(Read(s, 0).value);
  }

  lemma PaddedCanonical(s: string)
    requires |s| == 4 && s[3] == '=' && DecodeLast(s).Some?
    ensures Encode(DecodeLast(s).value) == s && DecodeLast(s).value != []
  {
    ValueDigit(s[0]);
    ValueDigit(s[1]);
    if s[2] != '=' {
      ValueDigit(s[2]);
      OctetsRegroup(Read(s, 1).value);
      assert s == s[..3] + "=";
    } else {
      OctetsRegroup(Read(s, 2).value);
      assert s == s[..2] + "==";
    }
  }

  /** And encoding undoes decoding: no two texts decode to the same bytes. */
  lemma {:induction false} EncodeDecode(s: string)
    requires Decode(s).Some?
    ensures Encode(Decode(s).value) == s
    decreases |s|
  {
    if |s| == 4 && s[3] == '=' {
      PaddedCanonical(s);
    } else if |s| == 4 {
      FourCanonical(s);
      var bs := DecodeFour(s).value;
      assert bs[3..] == [];
    } else if |s| > 4 {
      FourCanonical(s[..4]);
      EncodeDecode(s[4..]);
      var head, tail := DecodeFour(s[..4]).value, Decode(s[4..]).value;
      assert (head + tail)[3..] == tail;
      assert s == s[..4] + s[4..];
    }
  }

  /** The characters of an encoding. */
  predicate InAlphabet(c: char) {
    Value(c).Some? || c == '='
  }

  lemma {:induction false} DecodedAlphabet(s: string)
    requires Decode(s).Some?
    ensures forall i :: 0 <= i < |s| ==> InAlphabet(s[i])
    decreases |s|
  {
    if |s| > 4 {
      DecodedAlphabet(s[4..]);
      assert forall i :: 4 <= i < |s| ==> s[i] == s[4..][i - 4];
      assert forall i :: 0 <= i < 4 ==> s[i] == s[..4][i];
    }
  }
}
