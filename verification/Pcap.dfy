/**
 The capture reader of `nix/android-cast-rtp.py`: libpcap records in either byte order, and
 the UDP payload of an Ethernet/IPv4 frame (section 3.1 of RFC 791, and RFC 768).
 */
module Pcap {
  import opened Basics
  import opened Text

  type Bytes = seq<byte>

  datatype Endian = Little | Big

  datatype Error = TooShort | NotPcap | NotEthernet

  const HEADER := 24
  const RECORD := 16
  const LINKTYPE_ETHERNET := 1
  const MAGIC_MICROS := 0xA1B2C3D4
  const MAGIC_NANOS := 0xA1B23C4D

  // ---------------------------------------------------------------------------
  // Integers
  // ---------------------------------------------------------------------------

  /** The number with these octets, least significant first. */
  function Number(b0: nat, b1: nat, b2: nat, b3: nat): nat {
    b0 + 0x100 * b1 + 0x1_0000 * b2 + 0x100_0000 * b3
  }

  function Read32(e: Endian, b: Bytes): nat
    requires |b| == 4
  {
    match e
    case Little => Number(b[0], b[1], b[2], b[3])
    case Big => Number(b[3], b[2], b[1], b[0])
  }

  function Write32(e: Endian, v: nat): (b: Bytes)
    requires v < 0x1_0000_0000
    ensures |b| == 4
  {
    var b0, b1, b2, b3 := v % 0x100, v / 0x100 % 0x100, v / 0x1_0000 % 0x100, v / 0x100_0000;
    match e
    case Little => [b0, b1, b2, b3]
    case Big => [b3, b2, b1, b0]
  }

  function Read16(b: Bytes): nat
    requires |b| == 2
  {
    Number(b[1], b[0], 0, 0)
  }

  function Write16(v: nat): (b: Bytes)
    requires v < 0x1_0000
    ensures |b| == 2
  {
    [v / 0x100, v % 0x100]
  }

  lemma ReadWrite32(e: Endian, v: nat)
    requires v < 0x1_0000_0000
    ensures Read32(e, Write32(e, v)) == v
  {
    var a := v / 0x100;
    var b := a / 0x100;
    assert v == 0x100 * a + v % 0x100 && a == 0x100 * b + a % 0x100 && b == 0x100 * (b / 0x100) + b % 0x100;
    assert v / 0x1_0000 == b && v / 0x100_0000 == b / 0x100;
  }

  lemma ReadWrite16(v: nat)
    requires v < 0x1_0000
    ensures Read16(Write16(v)) == v
  {
  }

  // ---------------------------------------------------------------------------
  // The file
  // ---------------------------------------------------------------------------

  /** The byte order a magic number announces, as the little-endian reader sees it. */
  function Order(magic: nat): Option<Endian> {
    if magic == 0xA1B2C3D4 || magic == 0xA1B23C4D then Some(Little)
    else if magic == 0xD4C3B2A1 || magic == 0x4D3CB2A1 then Some(Big)
    else None
  }

  /** The whole records of what follows the header; a cut-off one ends the list. */
  function Records(e: Endian, rest: Bytes): seq<Bytes>
    decreases |rest|
  {
    if |rest| < RECORD then []
    else
      var captured := Read32(e, rest[8..12]);
      if |rest| - RECORD < captured then []
      else [rest[RECORD..RECORD + captured]] + Records(e, rest[RECORD + captured..])
  }

  function Packets(file: Bytes): Result<seq<Bytes>, Error> {
    if |file| < HEADER then Err(TooShort)
    else match Order(Read32(Little, file[..4]))
      case None => Err(NotPcap)
      case Some(e) =>
        if Read32(e, file[20..24]) != LINKTYPE_ETHERNET then Err(NotEthernet)
        else Ok(Records(e, file[HEADER..]))
  }

  /** A record as a capture writes it: a time stamp, the length on the wire, the frame. */
  datatype Record = Record(stamp: Bytes, wire: Bytes, frame: Bytes)

  predicate ValidRecord(r: Record) {
    |r.stamp| == 8 && |r.wire| == 4 && |r.frame| < 0x1_0000_0000
  }

  predicate ValidRecords(rs: seq<Record>) {
    forall i :: 0 <= i < |rs| ==> ValidRecord(rs[i])
  }

  function WriteRecord(e: Endian, r: Record): Bytes
    requires ValidRecord(r)
  {
    r.stamp + Write32(e, |r.frame|) + r.wire + r.frame
  }

  function WriteRecords(e: Endian, rs: seq<Record>): Bytes
    requires ValidRecords(rs)
  {
    if rs == [] then [] else WriteRecord(e, rs[0]) + WriteRecords(e, rs[1..])
  }

  /** A file header: one of the two magic numbers, version and zone fields, the link type. */
  function WriteHeader(e: Endian, magic: nat, fields: Bytes): Bytes
    requires magic == MAGIC_MICROS || magic == MAGIC_NANOS
  {
    Write32(e, magic) + fields + Write32(e, LINKTYPE_ETHERNET)
  }

  function Frames(rs: seq<Record>): (fs: seq<Bytes>)
    ensures |fs| == |rs|
  {
    seq(|rs|, i requires 0 <= i < |rs| => rs[i].frame)
  }

  /** The octets the first `k` records take. */
  function Size(rs: seq<Record>, k: nat): nat
    requires k <= |rs|
  {
    if k == 0 then 0 else RECORD + |rs[0].frame| + Size(rs[1..], k - 1)
  }

  /** How many whole records the first `room` octets hold. */
  function Whole(rs: seq<Record>, room: nat): (k: nat)
    ensures k <= |rs|
  {
    if rs == [] || room < RECORD + |rs[0].frame| then 0
    else 1 + Whole(rs[1..], room - RECORD - |rs[0].frame|)
  }

  /** It is the greatest number that fits. */
  lemma {:induction false} WholeIsLongest(rs: seq<Record>, room: nat)
    ensures var k := Whole(rs, room);
            Size(rs, k) <= room && (k < |rs| ==> Size(rs, k + 1) > room)
  {
    if rs != [] && room >= RECORD + |rs[0].frame| {
      WholeIsLongest(rs[1..], room - RECORD - |rs[0].frame|);
    }
  }

  lemma RecordLayout(e: Endian, r: Record, rest: Bytes)
    requires ValidRecord(r)
    ensures var b := WriteRecord(e, r) + rest;
            && |WriteRecord(e, r)| == RECORD + |r.frame|
            && b[8..12] == Write32(e, |r.frame|)
            && b[RECORD..RECORD + |r.frame|] == r.frame
            && b[RECORD + |r.frame|..] == rest
  {
  }

  lemma OneRecord(e: Endian, r: Record, rest: Bytes)
    requires ValidRecord(r)
    ensures Records(e, WriteRecord(e, r) + rest) == [r.frame] + Records(e, rest)
  {
    RecordLayout(e, r, rest);
    ReadWrite32(e, |r.frame|);
  }

  /** A record cut short yields nothing. */
  lemma CutRecord(e: Endian, r: Record, n: nat)
    requires ValidRecord(r) && n < RECORD + |r.frame|
    requires n <= |WriteRecord(e, r)|
    ensures Records(e, WriteRecord(e, r)[..n]) == []
  {
    RecordLayout(e, r, []);
    ReadWrite32(e, |r.frame|);
    var b := WriteRecord(e, r);
    assert b + [] == b;
    if n >= RECORD {
      assert b[..n][8..12] == b[8..12];
    }
  }

  lemma CutInRest(a: Bytes, b: Bytes, n: nat)
    requires n <= |a| + |b|
    ensures (a + b)[..n] == if n < |a| then a[..n] else a + b[..n - |a|]
  {
  }

  /** A cut before or after the end of the first record. */
  lemma CutAtFirst(e: Endian, r: Record, rest: Bytes, n: nat)
    requires ValidRecord(r) && n <= RECORD + |r.frame| + |rest|
    ensures |WriteRecord(e, r)| == RECORD + |r.frame|
    ensures var size := RECORD + |r.frame|;
            Records(e, (WriteRecord(e, r) + rest)[..n])
            == if n < size then [] else [r.frame] + Records(e, rest[..n - size])
  {
    var size := RECORD + |r.frame|;
    RecordLayout(e, r, []);
    CutInRest(WriteRecord(e, r), rest, n);
    if n < size {
      CutRecord(e, r, n);
    } else {
      OneRecord(e, r, rest[..n - size]);
    }
  }

  lemma FramesPrefix(rs: seq<Record>, k: nat)
    requires rs != [] && k < |rs|
    ensures Frames(rs)[..k + 1] == [rs[0].frame] + Frames(rs[1..])[..k]
  {
  }

  /** Written records, cut after any number of octets, read as the whole ones that remain. */
  lemma {:induction false} RecordsOfCut(e: Endian, rs: seq<Record>, n: nat)
    requires ValidRecords(rs) && n <= |WriteRecords(e, rs)|
    ensures Records(e, WriteRecords(e, rs)[..n]) == Frames(rs)[..Whole(rs, n)]
  {
    if rs != [] {
      var size, rest := RECORD + |rs[0].frame|, WriteRecords(e, rs[1..]);
      WrittenSize(e, rs[0], rest);
      if n >= size {
        RecordsOfCut(e, rs[1..], n - size);
      }
      CutStep(e, rs, rest, n, size);
    }
  }

  lemma WrittenSize(e: Endian, r: Record, rest: Bytes)
    requires ValidRecord(r)
    ensures |WriteRecord(e, r) + rest| == RECORD + |r.frame| + |rest|
  {
    RecordLayout(e, r, []);
  }

  lemma CutStep(e: Endian, rs: seq<Record>, rest: Bytes, n: nat, size: nat)
    requires rs != [] && ValidRecords(rs) && size == RECORD + |rs[0].frame| && rest == WriteRecords(e, rs[1..]) && n <= size + |rest|
    requires n >= size ==> Records(e, rest[..n - size]) == Frames(rs[1..])[..Whole(rs[1..], n - size)]
    ensures n <= |WriteRecords(e, rs)| && Records(e, WriteRecords(e, rs)[..n]) == Frames(rs)[..Whole(rs, n)]
  {
    WrittenSize(e, rs[0], rest);
    CutAtFirst(e, rs[0], rest, n);
    if n >= size {
      FramesPrefix(rs, Whole(rs[1..], n - size));
    }
  }

  lemma {:induction false} WholeOfAll(e: Endian, rs: seq<Record>)
    requires ValidRecords(rs)
    ensures Whole(rs, |WriteRecords(e, rs)|) == |rs|
  {
    if rs != [] {
      RecordLayout(e, rs[0], []);
      WholeOfAll(e, rs[1..]);
    }
  }

  lemma MagicOrder(e: Endian, magic: nat)
    requires magic == MAGIC_MICROS || magic == MAGIC_NANOS
    ensures Order(Read32(Little, Write32(e, magic))) == Some(e)
  {
    if e == Little {
      ReadWrite32(e, magic);
    } else {
      assert Write32(Big, MAGIC_MICROS) == [0xA1, 0xB2, 0xC3, 0xD4];
      assert Write32(Big, MAGIC_NANOS) == [0xA1, 0xB2, 0x3C, 0x4D];
    }
  }

  lemma HeaderLayout(a: Bytes, fields: Bytes, b: Bytes, rest: Bytes)
    requires |a| == 4 && |fields| == 16 && |b| == 4
    ensures var file := a + fields + b + rest;
            file[..4] == a && file[20..24] == b && file[HEADER..] == rest
  {
  }

  lemma HeaderIsRead(e: Endian, magic: nat, fields: Bytes, rest: Bytes)
    requires (magic == MAGIC_MICROS || magic == MAGIC_NANOS) && |fields| == 16
    ensures Packets(WriteHeader(e, magic, fields) + rest) == Ok(Records(e, rest))
  {
    HeaderLayout(Write32(e, magic), fields, Write32(e, LINKTYPE_ETHERNET), rest);
    ReadWrite32(e, LINKTYPE_ETHERNET);
    MagicOrder(e, magic);
  }

  lemma CutAfter(header: Bytes, body: Bytes, n: nat)
    requires |header| <= n <= |header| + |body|
    ensures (header + body)[..n] == header + body[..n - |header|]
  {
  }

  lemma CutBodyReads(e: Endian, magic: nat, fields: Bytes, rs: seq<Record>, m: nat)
    requires (magic == MAGIC_MICROS || magic == MAGIC_NANOS) && |fields| == 16 && ValidRecords(rs)
    requires m <= |WriteRecords(e, rs)|
    ensures Packets(WriteHeader(e, magic, fields) + WriteRecords(e, rs)[..m]) == Ok(Frames(rs)[..Whole(rs, m)])
  {
    HeaderIsRead(e, magic, fields, WriteRecords(e, rs)[..m]);
    RecordsOfCut(e, rs, m);
  }

  /** For every list of frames, both byte orders and both resolutions: a file cut anywhere
      after its header gives the longest prefix of whole frames, */
  lemma CutFileReadsPrefix(e: Endian, magic: nat, fields: Bytes, rs: seq<Record>, n: nat)
    requires (magic == MAGIC_MICROS || magic == MAGIC_NANOS) && |fields| == 16 && ValidRecords(rs)
    requires HEADER <= n <= HEADER + |WriteRecords(e, rs)|
    ensures var file := WriteHeader(e, magic, fields) + WriteRecords(e, rs);
            n <= |file| && Packets(file[..n]) == Ok(Frames(rs)[..Whole(rs, n - HEADER)])
    ensures var k := Whole(rs, n - HEADER);
            HEADER + Size(rs, k) <= n && (k < |rs| ==> HEADER + Size(rs, k + 1) > n)
  {
    CutAfter(WriteHeader(e, magic, fields), WriteRecords(e, rs), n);
    CutBodyReads(e, magic, fields, rs, n - HEADER);
    WholeIsLongest(rs, n - HEADER);
  }

  /** and an uncut one gives them all. */
  lemma FileRoundTrip(e: Endian, magic: nat, fields: Bytes, rs: seq<Record>)
    requires (magic == MAGIC_MICROS || magic == MAGIC_NANOS) && |fields| == 16 && ValidRecords(rs)
    ensures Packets(WriteHeader(e, magic, fields) + WriteRecords(e, rs)) == Ok(Frames(rs))
  {
    var body := WriteRecords(e, rs);
    HeaderIsRead(e, magic, fields, body);
    RecordsOfCut(e, rs, |body|);
    WholeOfAll(e, rs);
    assert body[..|body|] == body && Frames(rs)[..|rs|] == Frames(rs);
  }

  // ---------------------------------------------------------------------------
  // Every file
  // ---------------------------------------------------------------------------

  /** Four octets and the number they spell determine each other. */
  lemma NumberUnique(a: byte, b: byte, c: byte, d: byte, a': byte, b': byte, c': byte, d': byte)
    requires Number(a, b, c, d) == Number(a', b', c', d')
    ensures a == a' && b == b' && c == c' && d == d'
  {
    var n, n' := b + 0x100 * c + 0x1_0000 * d, b' + 0x100 * c' + 0x1_0000 * d';
    LowOctet(a, n, a', n');
    var m, m' := c + 0x100 * d, c' + 0x100 * d';
    LowOctet(b, m, b', m');
    LowOctet(c, d, c', d');
  }

  lemma LowOctet(a: byte, n: int, a': byte, n': int)
    requires a + 0x100 * n == a' + 0x100 * n'
    ensures a == a' && n == n'
  {
  }

  lemma Read32Unique(e: Endian, b: Bytes, c: Bytes)
    requires |b| == 4 && |c| == 4 && Read32(e, b) == Read32(e, c)
    ensures b == c
  {
    match e
    case Little => NumberUnique(b[0], b[1], b[2], b[3], c[0], c[1], c[2], c[3]);
    case Big => NumberUnique(b[3], b[2], b[1], b[0], c[3], c[2], c[1], c[0]);
  }

  lemma NumberBelow(e: Endian, b: Bytes)
    requires |b| == 4
    ensures Read32(e, b) < 0x1_0000_0000
  {
  }

  lemma WriteRead32(e: Endian, b: Bytes)
    requires |b| == 4
    ensures Read32(e, b) < 0x1_0000_0000 && Write32(e, Read32(e, b)) == b
  {
    NumberBelow(e, b);
    ReadWrite32(e, Read32(e, b));
    Read32Unique(e, Write32(e, Read32(e, b)), b);
  }

  /** The four ways a file can begin, octet by octet. */
  ghost predicate BeginsAs(e: Endian, b: Bytes) {
    match e
    case Little => b == [0xD4, 0xC3, 0xB2, 0xA1] || b == [0x4D, 0x3C, 0xB2, 0xA1]
    case Big => b == [0xA1, 0xB2, 0xC3, 0xD4] || b == [0xA1, 0xB2, 0x3C, 0x4D]
  }

  lemma OneMagic(b: Bytes, m: Bytes)
    requires |b| == 4 && |m| == 4
    ensures Read32(Little, b) == Read32(Little, m) <==> b == m
  {
    if Read32(Little, b) == Read32(Little, m) {
      Read32Unique(Little, b, m);
    }
  }

  lemma MagicExactly(b: Bytes, e: Endian)
    requires |b| == 4
    ensures Order(Read32(Little, b)) == Some(e) <==> BeginsAs(e, b)
  {
    OneMagic(b, [0xD4, 0xC3, 0xB2, 0xA1]);
    OneMagic(b, [0x4D, 0x3C, 0xB2, 0xA1]);
    OneMagic(b, [0xA1, 0xB2, 0xC3, 0xD4]);
    OneMagic(b, [0xA1, 0xB2, 0x3C, 0x4D]);
  }

  /** The link type of an Ethernet capture, octet by octet. */
  function EthernetField(e: Endian): Bytes {
    match e
    case Little => [1, 0, 0, 0]
    case Big => [0, 0, 0, 1]
  }

  lemma LinkExactly(e: Endian, b: Bytes)
    requires |b| == 4
    ensures Read32(e, b) == LINKTYPE_ETHERNET <==> b == EthernetField(e)
  {
    assert Read32(e, EthernetField(e)) == 1;
    if Read32(e, b) == 1 {
      Read32Unique(e, b, EthernetField(e));
    }
  }

  /** Less than a record: no whole header, or not the frame the header announces. */
  ghost predicate CutOff(e: Endian, tail: Bytes) {
    |tail| < 16 || |tail| - 16 < Read32(e, tail[8..12])
  }

  lemma RecordAgain(e: Endian, rest: Bytes) returns (r: Record)
    requires !CutOff(e, rest)
    ensures ValidRecord(r) && |WriteRecord(e, r)| == RECORD + |r.frame| <= |rest|
    ensures rest == WriteRecord(e, r) + rest[RECORD + |r.frame|..]
  {
    var c := Read32(e, rest[8..12]);
    WriteRead32(e, rest[8..12]);
    r := Record(rest[..8], rest[12..16], rest[16..16 + c]);
    RecordLayout(e, r, []);
    SixParts(rest, c);
  }

  lemma SixParts(rest: Bytes, c: nat)
    requires 16 + c <= |rest|
    ensures rest == rest[..8] + rest[8..12] + rest[12..16] + rest[16..16 + c] + rest[16 + c..]
  {
  }

  lemma WriteMore(e: Endian, r: Record, rs: seq<Record>, tail: Bytes)
    requires ValidRecord(r) && ValidRecords(rs)
    ensures ValidRecords([r] + rs)
    ensures WriteRecords(e, [r] + rs) + tail == WriteRecord(e, r) + (WriteRecords(e, rs) + tail)
  {
    assert ([r] + rs)[1..] == rs;
  }

  /** Whatever follows the header is records and what is left of one. */
  lemma {:induction false} RecordsOfAny(e: Endian, rest: Bytes) returns (rs: seq<Record>, tail: Bytes)
    ensures ValidRecords(rs) && rest == WriteRecords(e, rs) + tail && CutOff(e, tail)
    decreases |rest|
  {
    if CutOff(e, rest) {
      rs, tail := [], rest;
      assert [] + rest == rest;
    } else {
      var r := RecordAgain(e, rest);
      var more := rest[RECORD + |r.frame|..];
      var rs';
      rs', tail := RecordsOfAny(e, more);
      rs := [r] + rs';
      WriteMore(e, r, rs', tail);
    }
  }

  lemma FirstFrame(rs: seq<Record>)
    requires rs != []
    ensures Frames(rs) == [rs[0].frame] + Frames(rs[1..])
  {
  }

  lemma {:induction false} RecordsThenTail(e: Endian, rs: seq<Record>, tail: Bytes)
    requires ValidRecords(rs) && CutOff(e, tail)
    ensures Records(e, WriteRecords(e, rs) + tail) == Frames(rs)
  {
    if rs == [] {
      assert [] + tail == tail;
    } else {
      var rest := WriteRecords(e, rs[1..]) + tail;
      RecordsThenTail(e, rs[1..], tail);
      assert [rs[0]] + rs[1..] == rs;
      WriteMore(e, rs[0], rs[1..], tail);
      OneRecord(e, rs[0], rest);
      FirstFrame(rs);
    }
  }

  /** A capture: a header in one byte order, of Ethernet, then records, then what is left. */
  ghost predicate IsCapture(file: Bytes, e: Endian, rs: seq<Record>, tail: Bytes) {
    && |file| >= 24 && BeginsAs(e, file[..4]) && file[20..24] == EthernetField(e)
    && ValidRecords(rs) && file[24..] == WriteRecords(e, rs) + tail && CutOff(e, tail)
  }

  /** Exactly which files are read, for every file, and as what; and which are refused, each
      for the first of three reasons. */
  lemma PacketsExactly(file: Bytes, frames: seq<Bytes>)
    ensures Packets(file) == Err(TooShort) <==> |file| < 24
    ensures Packets(file) == Err(NotPcap) <==> |file| >= 24 && forall e :: !BeginsAs(e, file[..4])
    ensures Packets(file) == Err(NotEthernet) <==>
            |file| >= 24 && exists e :: BeginsAs(e, file[..4]) && file[20..24] != EthernetField(e)
    ensures Packets(file) == Ok(frames) <==>
            exists e: Endian, rs: seq<Record>, tail: Bytes :: IsCapture(file, e, rs, tail) && frames == Frames(rs)
  {
    if |file| >= 24 {
      HeaderExactly(file);
      if Packets(file).Ok? {
        var e := Order(Read32(Little, file[..4])).value;
        var rs, tail := RecordsOfAny(e, file[24..]);
        RecordsThenTail(e, rs, tail);
        assert IsCapture(file, e, rs, tail);
      }
    }
    if e: Endian, rs: seq<Record>, tail: Bytes :| IsCapture(file, e, rs, tail) && frames == Frames(rs) {
      RecordsThenTail(e, rs, tail);
    }
  }

  lemma HeaderExactly(file: Bytes)
    requires |file| >= 24
    ensures forall e :: Order(Read32(Little, file[..4])) == Some(e) <==> BeginsAs(e, file[..4])
    ensures forall e :: Read32(e, file[20..24]) == LINKTYPE_ETHERNET <==> file[20..24] == EthernetField(e)
  {
    forall e
      ensures Order(Read32(Little, file[..4])) == Some(e) <==> BeginsAs(e, file[..4])
      ensures Read32(e, file[20..24]) == LINKTYPE_ETHERNET <==> file[20..24] == EthernetField(e)
    {
      MagicExactly(file[..4], e);
      LinkExactly(e, file[20..24]);
    }
  }

  // ---------------------------------------------------------------------------
  // The datagram
  // ---------------------------------------------------------------------------

  const ETHERTYPE_IPV4 := 0x0800
  const IPPROTO_UDP := 17

  /** `str(b)` of an octet. */
  function Decimal(b: byte): string {
    var digit := (d: int) requires 0 <= d < 10 => '0' + d as char;
    if b < 10 then [digit(b)]
    else if b < 100 then [digit(b / 10), digit(b % 10)]
    else [digit(b / 100), digit(b / 10 % 10), digit(b % 10)]
  }

  function Quad(addr: Bytes): seq<string>
    requires |addr| == 4
  {
    [Decimal(addr[0]), Decimal(addr[1]), Decimal(addr[2]), Decimal(addr[3])]
  }

  function Dotted(addr: Bytes): string
    requires |addr| == 4
  {
    Join(Quad(addr), '.')
  }

  function UdpPayload(frame: Bytes, src: string, dst: string, port: nat): Option<Bytes> {
    if |frame| < 14 || Read16(frame[12..14]) != ETHERTYPE_IPV4 then None
    else
      var ip := frame[14..];
      if |ip| < 20 || ip[0] / 16 != 4 then None
      else
        var ihl := ip[0] % 16 * 4;
        if ip[9] != IPPROTO_UDP || |ip| < ihl + 8 then None
        else if Dotted(ip[12..16]) != src || Dotted(ip[16..20]) != dst then None
        else
          var udp := ip[ihl..];
          if Read16(udp[2..4]) != port then None
          else
            var length := Read16(udp[4..6]);
            Some(if 8 <= length <= |udp| then udp[8..length] else udp[8..])
  }

  /** A UDP datagram in an IPv4 packet in an Ethernet frame. `macs`, `lead` (the octets from
      the type of service to the time to live), the checksums, the source port and the
      options are whatever they are; `padding` is what the link added at the end. */
  datatype Datagram = Datagram(
    macs: Bytes, lead: Bytes, ipSum: Bytes, src: Bytes, dst: Bytes, options: Bytes,
    sport: Bytes, port: nat, udpSum: Bytes, payload: Bytes, padding: Bytes)

  /** Legal: a header of five to fifteen words and a length that fits its field. */
  predicate ValidDatagram(d: Datagram) {
    && |d.macs| == 12 && |d.lead| == 8 && |d.ipSum| == 2 && |d.src| == 4 && |d.dst| == 4
    && |d.options| % 4 == 0 && |d.options| <= 40
    && |d.sport| == 2 && d.port < 0x1_0000 && |d.udpSum| == 2
    && 8 + |d.payload| < 0x1_0000
  }

  function IpHeader(d: Datagram): Bytes
    requires ValidDatagram(d)
  {
    [0x40 + 5 + |d.options| / 4] + d.lead + [IPPROTO_UDP] + d.ipSum + d.src + d.dst + d.options
  }

  function UdpHeader(d: Datagram): Bytes
    requires ValidDatagram(d)
  {
    d.sport + Write16(d.port) + Write16(8 + |d.payload|) + d.udpSum
  }

  function WriteFrame(d: Datagram): Bytes
    requires ValidDatagram(d)
  {
    d.macs + Write16(ETHERTYPE_IPV4) + (IpHeader(d) + (UdpHeader(d) + (d.payload + d.padding)))
  }

  lemma DecimalDigits(b: byte)
    ensures Decimal(b) != "" && '.' !in Decimal(b)
  {
  }

  /** The number a string of digits spells. */
  function Spelled(s: string): int {
    if s == "" then 0 else 10 * Spelled(s[..|s| - 1]) + (s[|s| - 1] as int - '0' as int)
  }

  lemma SpelledDecimal(b: byte)
    ensures Spelled(Decimal(b)) == b
  {
    var s := Decimal(b);
    assert Spelled(s[..|s| - 1]) == b / 10 by {
      if b >= 10 {
        var t := s[..|s| - 1];
        assert t[..|t| - 1] == if b < 100 then "" else [s[0]];
        if b >= 100 {
          assert [s[0]][..0] == "";
          assert Spelled([s[0]]) == b / 100;
        }
      }
    }
  }

  lemma DecimalInjective(a: byte, b: byte)
    requires Decimal(a) == Decimal(b)
    ensures a == b
  {
    SpelledDecimal(a);
    SpelledDecimal(b);
  }

  lemma QuadSeparated(a: Bytes)
    requires |a| == 4
    ensures Separated(Quad(a), '.')
  {
    DecimalDigits(a[0]);
    DecimalDigits(a[1]);
    DecimalDigits(a[2]);
    DecimalDigits(a[3]);
  }

  lemma QuadInjective(a: Bytes, b: Bytes)
    requires |a| == 4 && |b| == 4 && Quad(a) == Quad(b)
    ensures a == b
  {
    forall i | 0 <= i < 4
      ensures a[i] == b[i]
    {
      assert Quad(a)[i] == Decimal(a[i]) && Quad(b)[i] == Decimal(b[i]);
      DecimalInjective(a[i], b[i]);
    }
  }

  lemma DottedInjective(a: Bytes, b: Bytes)
    requires |a| == 4 && |b| == 4 && Dotted(a) == Dotted(b)
    ensures a == b
  {
    QuadSeparated(a);
    QuadSeparated(b);
    SplitJoin(Quad(a), '.');
    SplitJoin(Quad(b), '.');
    QuadInjective(a, b);
  }

  lemma IpLayout(d: Datagram, rest: Bytes)
    requires ValidDatagram(d)
    ensures var ip := IpHeader(d) + rest;
            && |IpHeader(d)| == 20 + |d.options| == ip[0] % 16 * 4 && ip[0] / 16 == 4 && ip[9] == IPPROTO_UDP
            && ip[12..16] == d.src && ip[16..20] == d.dst
            && ip[20 + |d.options|..] == rest
  {
    var n := |d.options| / 4;
    assert (0x45 + n) / 16 == 4 && (0x45 + n) % 16 == 5 + n;
  }

  lemma UdpLayout(d: Datagram, rest: Bytes)
    requires ValidDatagram(d)
    ensures var udp := UdpHeader(d) + rest;
            && |UdpHeader(d)| == 8
            && udp[2..4] == Write16(d.port) && udp[4..6] == Write16(8 + |d.payload|)
            && udp[8..] == rest
  {
  }

  /** Whatever the header length and the padding, the payload recovered is the one sent, and
      only for the datagrams asked for. */
  lemma PayloadRecovered(d: Datagram, src: Bytes, dst: Bytes, port: nat)
    requires ValidDatagram(d) && |src| == 4 && |dst| == 4
    ensures UdpPayload(WriteFrame(d), Dotted(src), Dotted(dst), port)
            == if src == d.src && dst == d.dst && port == d.port then Some(d.payload) else None
  {
    var rest := d.payload + d.padding;
    var udp := UdpHeader(d) + rest;
    var ip := IpHeader(d) + udp;
    var frame := WriteFrame(d);
    assert frame[12..14] == Write16(ETHERTYPE_IPV4) && frame[14..] == ip;
    ReadWrite16(ETHERTYPE_IPV4);
    IpLayout(d, udp);
    UdpLayout(d, rest);
    ReadWrite16(d.port);
    ReadWrite16(8 + |d.payload|);
    if Dotted(d.src) == Dotted(src) {
      DottedInjective(d.src, src);
    }
    if Dotted(d.dst) == Dotted(dst) {
      DottedInjective(d.dst, dst);
    }
    PayloadFirst(udp, d.payload, d.padding);
  }

  lemma PayloadFirst(udp: Bytes, payload: Bytes, padding: Bytes)
    requires |udp| >= 8 && udp[8..] == payload + padding
    ensures |udp| >= 8 + |payload| && udp[8..8 + |payload|] == payload
  {
    assert udp[8..8 + |payload|] == udp[8..][..|payload|];
  }

  // ---------------------------------------------------------------------------
  // Every frame
  // ---------------------------------------------------------------------------

  /** The digits of an octet: its value, and no zero in front. */
  lemma DecimalIs(b: byte)
    ensures var d := Decimal(b);
            && Spelled(d) == b && (forall i :: 0 <= i < |d| ==> '0' <= d[i] <= '9')
            && (d[0] == '0' ==> d == "0")
  {
    SpelledDecimal(b);
  }

  function BigEndian(high: byte, low: byte): nat {
    0x100 * (high as nat) + low
  }

  /** Octets 12 and on of a frame, by their places in it. `u` is where its UDP header is:
      after the Ethernet header and as many words as the IPv4 header says it has. */
  ghost predicate IsDatagram(frame: Bytes, src: string, dst: string, port: nat, u: nat) {
    && |frame| >= 34 && frame[12] == 0x08 && frame[13] == 0x00
    && 0x40 <= frame[14] < 0x50 && u == 14 + 4 * (frame[14] - 0x40)
    && frame[23] == 17 && u + 8 <= |frame|
    && Dotted(frame[26..30]) == src && Dotted(frame[30..34]) == dst
    && port == BigEndian(frame[u + 2], frame[u + 3])
  }

  /** What its length field delimits, if that fits; otherwise all the rest. */
  ghost function Delimited(frame: Bytes, u: nat): Bytes
    requires u + 8 <= |frame|
  {
    var length := BigEndian(frame[u + 4], frame[u + 5]);
    if 8 <= length && u + length <= |frame| then frame[u + 8..u + length] else frame[u + 8..]
  }

  /** For every frame: a payload is recovered if and only if the frame is an IPv4 packet with
      protocol 17, the two addresses asked for and room for a UDP header, with the port asked
      for; and then it is the one delimited. */
  lemma PayloadExactly(frame: Bytes, src: string, dst: string, port: nat)
    ensures UdpPayload(frame, src, dst, port).Some? <==> exists u: nat :: IsDatagram(frame, src, dst, port, u)
    ensures forall u: nat :: IsDatagram(frame, src, dst, port, u) ==>
              UdpPayload(frame, src, dst, port) == Some(Delimited(frame, u))
  {
    if |frame| >= 34 {
      var u := 14 + frame[14] % 16 * 4;
      HeaderFields(frame);
      PayloadAt(frame, src, dst, port, u);
      assert forall v: nat :: IsDatagram(frame, src, dst, port, v) ==> v == u;
    }
  }

  lemma PayloadAt(frame: Bytes, src: string, dst: string, port: nat, u: nat)
    requires |frame| >= 34 && u == 14 + frame[14] % 16 * 4
    ensures UdpPayload(frame, src, dst, port)
            == if IsDatagram(frame, src, dst, port, u) then Some(Delimited(frame, u)) else None
  {
    HeaderFields(frame);
    if u + 8 <= |frame| {
      UdpFields(frame, u);
    }
  }

  lemma HeaderFields(frame: Bytes)
    requires |frame| >= 34
    ensures Read16(frame[12..14]) == ETHERTYPE_IPV4 <==> frame[12] == 0x08 && frame[13] == 0x00
    ensures var ip := frame[14..];
            && ip[0] == frame[14] && ip[9] == frame[23] && ip[12..16] == frame[26..30] && ip[16..20] == frame[30..34]
    ensures frame[14] / 16 == 4 <==> 0x40 <= frame[14] < 0x50
    ensures frame[14] / 16 == 4 ==> frame[14] % 16 == frame[14] - 0x40
  {
  }

  lemma UdpFields(frame: Bytes, u: nat)
    requires 14 <= u && u + 8 <= |frame|
    ensures var udp := frame[14..][u - 14..];
            && |udp| == |frame| - u
            && Read16(udp[2..4]) == BigEndian(frame[u + 2], frame[u + 3])
            && Read16(udp[4..6]) == BigEndian(frame[u + 4], frame[u + 5])
            && udp[8..] == frame[u + 8..]
            && forall length: nat :: 8 <= length <= |udp| ==> udp[8..length] == frame[u + 8..u + length]
  {
    var udp := frame[14..][u - 14..];
    assert udp == frame[u..];
  }

  /** A header that says it has fewer than its five words is read all the same, with the UDP
      header taken from inside it: here, from a header of no words, with none behind it. */
  lemma ShortHeaderIsRead(macs: Bytes, lead: Bytes, ipSum: Bytes, src: Bytes, dst: Bytes)
    requires |macs| == 12 && |lead| == 8 && |ipSum| == 2 && |src| == 4 && |dst| == 4
    ensures var frame := macs + [0x08, 0x00, 0x40] + lead + [17] + ipSum + src + dst;
            UdpPayload(frame, Dotted(src), Dotted(dst), BigEndian(lead[1], lead[2])).Some?
  {
    var frame := macs + [0x08, 0x00, 0x40] + lead + [17] + ipSum + src + dst;
    assert frame[26..30] == src && frame[30..34] == dst;
    assert frame[16] == lead[1] && frame[17] == lead[2];
    assert IsDatagram(frame, Dotted(src), Dotted(dst), BigEndian(lead[1], lead[2]), 14);
    PayloadExactly(frame, Dotted(src), Dotted(dst), BigEndian(lead[1], lead[2]));
  }

  // ---------------------------------------------------------------------------
  // The code
  // ---------------------------------------------------------------------------

  /** `f.read(n)` at position `at`: up to `n` octets. */
  function ReadAt(file: Bytes, at: nat, n: nat): Bytes
    requires at <= |file|
  {
    if at + n <= |file| then file[at..at + n] else file[at..]
  }

  method ReadPackets(file: Bytes) returns (r: Result<seq<Bytes>, Error>)
    ensures r == Packets(file)
  {
    var header := ReadAt(file, 0, HEADER);
    if |header| < HEADER {
      return Err(TooShort);
    }
    assert header[..4] == file[..4] && header[20..24] == file[20..24];
    var order := Order(Read32(Little, header[..4]));
    if order.None? {
      return Err(NotPcap);
    }
    var e := order.value;
    if Read32(e, header[20..24]) != LINKTYPE_ETHERNET {
      return Err(NotEthernet);
    }
    var frames := ReadRecords(file, e, HEADER);
    return Ok(frames);
  }

  lemma Slices(file: Bytes, at: nat, c: nat)
    requires at + RECORD + c <= |file|
    ensures file[at..][8..12] == file[at..at + RECORD][8..12]
    ensures file[at..][RECORD..RECORD + c] == file[at + RECORD..at + RECORD + c]
    ensures file[at..][RECORD + c..] == file[at + RECORD + c..]
  {
    assert file[at..][8..12] == file[at + 8..at + 12];
    var head := file[at..at + RECORD];
    assert forall k :: 8 <= k < 12 ==> head[k] == file[at + k];
  }

  lemma RecordsCut(e: Endian, rest: Bytes)
    requires |rest| < RECORD || |rest| - RECORD < Read32(e, rest[8..12])
    ensures Records(e, rest) == []
  {
  }

  lemma RecordsNext(e: Endian, rest: Bytes, c: nat)
    requires |rest| >= RECORD && c == Read32(e, rest[8..12]) <= |rest| - RECORD
    ensures Records(e, rest) == [rest[RECORD..RECORD + c]] + Records(e, rest[RECORD + c..])
  {
  }

  lemma NextRecord(e: Endian, file: Bytes, at: nat)
    requires at <= |file|
    ensures var record := ReadAt(file, at, RECORD);
            if |record| < RECORD then Records(e, file[at..]) == []
            else
              var captured := Read32(e, record[8..12]);
              var data := ReadAt(file, at + RECORD, captured);
              Records(e, file[at..])
              == if |data| < captured then [] else [data] + Records(e, file[at + RECORD + captured..])
  {
    if at + RECORD <= |file| {
      Slices(file, at, 0);
      var captured := Read32(e, file[at..][8..12]);
      if at + RECORD + captured <= |file| {
        Slices(file, at, captured);
        RecordsNext(e, file[at..], captured);
      } else {
        RecordsCut(e, file[at..]);
      }
    } else {
      RecordsCut(e, file[at..]);
    }
  }

  /** One turn of the reading loop, in front of what it has read already. */
  lemma OneTurn(e: Endian, file: Bytes, at: nat, out: seq<Bytes>)
    requires at <= |file|
    ensures var record := ReadAt(file, at, RECORD);
            if |record| < RECORD then out + Records(e, file[at..]) == out
            else
              var captured := Read32(e, record[8..12]);
              var data := ReadAt(file, at + RECORD, captured);
              if |data| < captured then out + Records(e, file[at..]) == out
              else (out + [data]) + Records(e, file[at + RECORD + captured..]) == out + Records(e, file[at..])
  {
    NextRecord(e, file, at);
  }

  /** The reading loop, from the octet after the header. */
  method ReadRecords(file: Bytes, e: Endian, start: nat) returns (out: seq<Bytes>)
    requires start <= |file|
    ensures out == Records(e, file[start..])
  {
    out := [];
    var at := start;
    ghost var all := Records(e, file[start..]);
    while true
      invariant at <= |file|
      invariant out + Records(e, file[at..]) == all
      decreases |file| - at
    {
      OneTurn(e, file, at, out);
      var record := ReadAt(file, at, RECORD);
      if |record| < RECORD {
        return;
      }
      var captured := Read32(e, record[8..12]);
      var data := ReadAt(file, at + RECORD, captured);
      if |data| < captured {
        return;
      }
      at := at + RECORD + captured;
      out := out + [data];
    }
  }
}
