/**
 The name one protocol advertises under, `crates/app/src/config.rs`: the friendly name, cut
 to fit a label of 63 octets (section 4.1.1 of RFC 6763) at a character boundary, and the
 protocol's suffix whole. Text is UTF-8 (section 3 of RFC 3629).
 */
module AdvertisedName {
  import opened Basics

  type Bytes = seq<byte>

  const MAX_ADVERTISED_LEN := 63
  const HASH: byte := 0x23

  // ---------------------------------------------------------------------------
  // UTF-8
  // ---------------------------------------------------------------------------

  /** A Unicode scalar value. */
  type Scalar = x: int | 0 <= x < 0xD800 || 0xE000 <= x < 0x11_0000

  function EncodeScalar(c: Scalar): Bytes {
    if c < 0x80 then [c]
    else if c < 0x800 then [0xC0 + c / 0x40, 0x80 + c % 0x40]
    else if c < 0x1_0000 then [0xE0 + c / 0x1000, 0x80 + c / 0x40 % 0x40, 0x80 + c % 0x40]
    else [0xF0 + c / 0x4_0000, 0x80 + c / 0x1000 % 0x40, 0x80 + c / 0x40 % 0x40, 0x80 + c % 0x40]
  }

  function Utf8(cs: seq<Scalar>): Bytes {
    if cs == [] then [] else EncodeScalar(cs[0]) + Utf8(cs[1..])
  }

  predicate Continuation(b: byte) {
    0x80 <= b < 0xC0
  }

  /** `str::is_char_boundary`. */
  predicate IsBoundary(s: Bytes, i: nat)
    requires i <= |s|
  {
    i == 0 || i == |s| || !Continuation(s[i])
  }

  lemma ScalarShape(c: Scalar)
    ensures var e := EncodeScalar(c);
            && 1 <= |e| <= 4 && !Continuation(e[0])
            && (forall i :: 1 <= i < |e| ==> Continuation(e[i]))
            && (c < 0x80 <==> e == [c]) && (HASH in e <==> c == HASH)
  {
  }

  lemma {:induction false} Utf8Concatenation(a: seq<Scalar>, b: seq<Scalar>)
    ensures Utf8(a + b) == Utf8(a) + Utf8(b)
  {
    if a == [] {
      assert a + b == b;
    } else {
      assert (a + b)[1..] == a[1..] + b;
      Utf8Concatenation(a[1..], b);
    }
  }

  // ---------------------------------------------------------------------------
  // The name
  // ---------------------------------------------------------------------------

  /** The last boundary at or before `end`. */
  function StepDown(s: Bytes, end: nat): (r: nat)
    requires end <= |s|
    ensures r <= end
  {
    if end > 0 && !IsBoundary(s, end) then StepDown(s, end - 1) else end
  }

  function Room(suffix: Bytes): nat {
    if |suffix| > MAX_ADVERTISED_LEN then 0 else MAX_ADVERTISED_LEN - |suffix|
  }

  function Name(base: Bytes, slug: Bytes): Bytes {
    var suffix := [HASH] + slug;
    var room := Room(suffix);
    if |base| <= room then base + suffix else base[..StepDown(base, room)] + suffix
  }

  // ---------------------------------------------------------------------------
  // The specification: as many whole characters as fit
  // ---------------------------------------------------------------------------

  function Fit(cs: seq<Scalar>, room: nat): (k: nat)
    ensures k <= |cs|
  {
    if cs == [] || |EncodeScalar(cs[0])| > room then 0
    else 1 + Fit(cs[1..], room - |EncodeScalar(cs[0])|)
  }

  lemma {:induction false} FitIsLongest(cs: seq<Scalar>, room: nat)
    ensures var k := Fit(cs, room);
            && |Utf8(cs[..k])| <= room
            && (k < |cs| ==> |Utf8(cs[..k + 1])| > room)
            && (k == |cs| <==> |Utf8(cs)| <= room)
  {
    if cs != [] {
      var n := |EncodeScalar(cs[0])|;
      ScalarShape(cs[0]);
      if n <= room {
        FitIsLongest(cs[1..], room - n);
        var k := Fit(cs, room);
        assert cs[..k][1..] == cs[1..][..k - 1];
        if k < |cs| {
          assert cs[..k + 1][1..] == cs[1..][..k];
        }
      } else {
        assert cs[..1][1..] == [];
      }
    }
  }

  lemma Utf8Cons(c: Scalar, rest: seq<Scalar>)
    ensures Utf8([c] + rest) == EncodeScalar(c) + Utf8(rest)
  {
    assert ([c] + rest)[1..] == rest;
  }

  lemma Utf8One(c: Scalar)
    ensures Utf8([c]) == EncodeScalar(c)
  {
    assert [c][1..] == [];
  }

  lemma Utf8Around(a: seq<Scalar>, c: Scalar, b: seq<Scalar>)
    ensures Utf8(a + ([c] + b)) == Utf8(a) + (EncodeScalar(c) + Utf8(b))
    ensures Utf8(a + [c]) == Utf8(a) + EncodeScalar(c)
  {
    Utf8Cons(c, b);
    Utf8Concatenation(a, [c] + b);
    Utf8One(c);
    Utf8Concatenation(a, [c]);
  }

  lemma Utf8Split(cs: seq<Scalar>, k: nat)
    requires k < |cs|
    ensures Utf8(cs) == Utf8(cs[..k]) + (EncodeScalar(cs[k]) + Utf8(cs[k + 1..]))
    ensures Utf8(cs[..k + 1]) == Utf8(cs[..k]) + EncodeScalar(cs[k])
  {
    Around(cs, k);
    Utf8Around(cs[..k], cs[k], cs[k + 1..]);
  }

  lemma Around(cs: seq<Scalar>, k: nat)
    requires k < |cs|
    ensures cs == cs[..k] + ([cs[k]] + cs[k + 1..]) && cs[..k + 1] == cs[..k] + [cs[k]]
  {
  }

  /** Stepping down from anywhere inside a character lands on its first octet. */
  lemma {:induction false} StepDownLands(s: Bytes, end: nat, from: nat)
    requires from <= end < |s| && (from == 0 || !Continuation(s[from]))
    requires forall i :: from < i <= end ==> Continuation(s[i])
    ensures StepDown(s, end) == from
    decreases end
  {
    if end > from {
      StepDownLands(s, end - 1, from);
    }
  }

  lemma LandsBefore(pre: Bytes, e: Bytes, post: Bytes, end: nat)
    requires |pre| <= end < |pre| + |e| && !Continuation(e[0]) && forall i :: 1 <= i < |e| ==> Continuation(e[i])
    ensures StepDown(pre + (e + post), end) == |pre|
  {
    var s := pre + (e + post);
    assert forall i :: |pre| <= i <= end ==> s[i] == e[i - |pre|];
    StepDownLands(s, end, |pre|);
  }

  /** The cut is at the end of the last character that fits, and at most three octets of
      the room are left. */
  lemma CutIsLongestFit(cs: seq<Scalar>, room: nat)
    requires |Utf8(cs)| > room
    ensures var k := Fit(cs, room);
            && StepDown(Utf8(cs), room) == |Utf8(cs[..k])|
            && Utf8(cs)[..|Utf8(cs[..k])|] == Utf8(cs[..k])
            && room - |Utf8(cs[..k])| <= 3
  {
    FitIsLongest(cs, room);
    var k := Fit(cs, room);
    Utf8Split(cs, k);
    ScalarShape(cs[k]);
    LandsBefore(Utf8(cs[..k]), EncodeScalar(cs[k]), Utf8(cs[k + 1..]), room);
  }

  ghost predicate IsUtf8(s: Bytes) {
    exists cs: seq<Scalar> :: s == Utf8(cs)
  }

  /** For every friendly name and every slug: the advertised name is the longest run
      of whole characters that fits and then the whole suffix; it is UTF-8; it is at most
      63 octets exactly when the suffix is; and a truncated one is at most 3 octets short. */
  lemma NameIsLongestFit(cs: seq<Scalar>, slug: seq<Scalar>)
    ensures var suffix: Bytes := [HASH] + Utf8(slug);
            var name := Name(Utf8(cs), Utf8(slug));
            && name == Utf8(cs[..Fit(cs, Room(suffix))]) + suffix
            && IsUtf8(name)
            && (|name| <= 63 <==> |suffix| <= 63)
            && (|suffix| <= 63 && |Utf8(cs)| > Room(suffix) ==> |name| >= 63 - 3)
  {
    var suffix: Bytes := [HASH] + Utf8(slug);
    var room := Room(suffix);
    var k := Fit(cs, room);
    FitIsLongest(cs, room);
    if |Utf8(cs)| > room {
      CutIsLongestFit(cs, room);
    } else {
      assert cs[..k] == cs;
    }
    HashSuffix(slug);
    Utf8Concatenation(cs[..k], [HASH] + slug);
    assert Name(Utf8(cs), Utf8(slug)) == Utf8(cs[..k] + ([HASH] + slug));
  }

  lemma HashSuffix(slug: seq<Scalar>)
    ensures Utf8([HASH] + slug) == [HASH] + Utf8(slug)
  {
    assert ([HASH] + slug)[1..] == slug;
    ScalarShape(HASH);
  }

  // ---------------------------------------------------------------------------
  // Different protocols, different names
  // ---------------------------------------------------------------------------

  /** Two texts that end in a hash and a hash-free slug have the same slug if equal. */
  lemma SuffixDetermined(a: Bytes, s: Bytes, b: Bytes, t: Bytes)
    requires HASH !in s && HASH !in t && a + ([HASH] + s) == b + ([HASH] + t)
    ensures s == t
  {
    var x := a + ([HASH] + s);
    assert x == b + ([HASH] + t);
    assert x[|a|] == HASH && x[|b|] == HASH;
    assert forall i :: |a| < i < |x| ==> x[i] == s[i - |a| - 1];
    assert forall i :: |b| < i < |x| ==> x[i] == t[i - |b| - 1];
    assert |a| == |b|;
    assert s == x[|a| + 1..] && t == x[|b| + 1..];
  }

  /** Two protocols never share a name, whatever the friendly names behind them. */
  lemma NamesDiffer(base: Bytes, slug: Bytes, base': Bytes, slug': Bytes)
    requires HASH !in slug && HASH !in slug' && slug != slug'
    ensures Name(base, slug) != Name(base', slug')
  {
    var a := if |base| <= Room([HASH] + slug) then base else base[..StepDown(base, Room([HASH] + slug))];
    var b := if |base'| <= Room([HASH] + slug') then base' else base'[..StepDown(base', Room([HASH] + slug'))];
    assert Name(base, slug) == a + ([HASH] + slug) && Name(base', slug') == b + ([HASH] + slug');
    if Name(base, slug) == Name(base', slug') {
      SuffixDetermined(a, slug, b, slug');
      assert false;
    }
  }

  datatype ProtocolKind =
    | AirPlay | Cast | Miracast | Dlna | YouTubeLounge | Spotify | Bluetooth | GameStream | MatterCast | FCast

  function Slug(kind: ProtocolKind): string {
    match kind
    case AirPlay => "airplay"
    case Cast => "cast"
    case Miracast => "miracast"
    case Dlna => "dlna"
    case YouTubeLounge => "youtube"
    case Spotify => "spotify"
    case Bluetooth => "bluetooth"
    case GameStream => "gamestream"
    case MatterCast => "matter"
    case FCast => "fcast"
  }

  function Codes(s: string): (codes: seq<Scalar>)
    ensures |codes| == |s|
  {
    seq(|s|, i requires 0 <= i < |s| => s[i] as int)
  }

  lemma {:induction false} AsciiIsUtf8(slug: seq<Scalar>)
    requires forall i :: 0 <= i < |slug| ==> slug[i] < 0x80
    ensures Utf8(slug) == slug
  {
    if slug != [] {
      AsciiIsUtf8(slug[1..]);
      assert slug == [slug[0]] + slug[1..];
    }
  }

  lemma SlugShape(kind: ProtocolKind)
    ensures 4 <= |Slug(kind)| <= 10
    ensures forall i :: 0 <= i < |Slug(kind)| ==> 'a' <= Slug(kind)[i] <= 'z'
  {
  }

  /** First letter and length tell any two apart. */
  lemma SlugsApart(kind: ProtocolKind, other: ProtocolKind)
    requires kind != other
    ensures |Slug(kind)| != |Slug(other)| || Slug(kind)[0] != Slug(other)[0]
  {
  }

  lemma SlugOctets(kind: ProtocolKind)
    ensures Utf8(Codes(Slug(kind))) == Codes(Slug(kind)) && HASH !in Codes(Slug(kind))
  {
    SlugShape(kind);
    AsciiIsUtf8(Codes(Slug(kind)));
  }

  ghost function NameOf(cs: seq<Scalar>, kind: ProtocolKind): Bytes {
    Name(Utf8(cs), Utf8(Codes(Slug(kind))))
  }

  /** For every friendly name, each protocol's name is UTF-8, fits a label, and is no other
      protocol's. */
  lemma EveryProtocolNamed(cs: seq<Scalar>, kind: ProtocolKind, other: ProtocolKind)
    requires kind != other
    ensures IsUtf8(NameOf(cs, kind)) && |NameOf(cs, kind)| <= 63
    ensures NameOf(cs, kind) != NameOf(cs, other)
  {
    SlugShape(kind);
    SlugOctets(kind);
    SlugOctets(other);
    NameIsLongestFit(cs, Codes(Slug(kind)));
    SlugShape(other);
    SlugsApart(kind, other);
    assert Codes(Slug(kind))[0] == Slug(kind)[0] as int && Codes(Slug(other))[0] == Slug(other)[0] as int;
    NamesDiffer(Utf8(cs), Codes(Slug(kind)), Utf8(cs), Codes(Slug(other)));
  }

  // ---------------------------------------------------------------------------
  // The code
  // ---------------------------------------------------------------------------

  method AdvertisedName(base: Bytes, slug: Bytes) returns (name: Bytes)
    ensures name == Name(base, slug)
  {
    var suffix: Bytes := [HASH] + slug;
    var room := Room(suffix);
    if |base| <= room {
      return base + suffix;
    }
    var end := room;
    while end > 0 && !IsBoundary(base, end)
      invariant 0 <= end <= room && StepDown(base, end) == StepDown(base, room)
    {
      end := end - 1;
    }
    name := base[..end] + suffix;
  }
}
