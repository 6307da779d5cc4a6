/**
 Machines that turn one byte into another and move on, and what a whole stream through
 one of them is. A machine that undoes another byte by byte undoes it stream by stream.
 */
module ByteStream {
  import opened Basics

  type Machine<!S> = (S, byte) -> (byte, S)

  function Run<S>(f: Machine<S>, s: S, xs: seq<byte>): (r: (seq<byte>, S))
    ensures |r.0| == |xs|
    decreases |xs|
  {
    if xs == [] then ([], s)
    else
      var (y, s') := f(s, xs[0]);
      var (ys, end) := Run(f, s', xs[1..]);
      ([y] + ys, end)
  }

  /** In every state, `g` takes the byte `f` made back to the byte it came from, and both
      end up in the same state. */
  ghost predicate Undoes<S(!new)>(g: Machine<S>, f: Machine<S>) {
    forall s: S, x: byte :: g(s, f(s, x).0) == (x, f(s, x).1)
  }

  /** Inverse machines are inverse at every length, and leave the same state behind. */
  lemma {:induction false} RunUndone<S(!new)>(g: Machine<S>, f: Machine<S>, s: S, xs: seq<byte>)
    requires Undoes(g, f)
    ensures var (ys, end) := Run(f, s, xs); Run(g, s, ys) == (xs, end)
    decreases |xs|
  {
    if xs != [] {
      var (y, s') := f(s, xs[0]);
      var (ys, end) := Run(f, s', xs[1..]);
      RunUndone(g, f, s', xs[1..]);
      assert ([y] + ys)[1..] == ys;
      assert g(s, y) == (xs[0], s');
      assert [xs[0]] + xs[1..] == xs;
    }
  }

  lemma RunInjective<S(!new)>(g: Machine<S>, f: Machine<S>, s: S, xs: seq<byte>, zs: seq<byte>)
    requires Undoes(g, f)
    requires Run(f, s, xs).0 == Run(f, s, zs).0
    ensures xs == zs
  {
    RunUndone(g, f, s, xs);
    RunUndone(g, f, s, zs);
  }

  /** What a prefix turns into does not depend on what follows it. */
  lemma {:induction false} RunPrefixStable<S>(f: Machine<S>, s: S, xs: seq<byte>, more: seq<byte>)
    ensures var (ys, mid) := Run(f, s, xs);
            var (zs, end) := Run(f, mid, more);
            Run(f, s, xs + more) == (ys + zs, end)
    decreases |xs|
  {
    if xs == [] {
      assert xs + more == more;
      assert [] + Run(f, s, more).0 == Run(f, s, more).0;
    } else {
      var (y, s') := f(s, xs[0]);
      var (ys, mid) := Run(f, s', xs[1..]);
      assert (xs + more)[1..] == xs[1..] + more;
      RunPrefixStable(f, s', xs[1..], more);
      assert [y] + (ys + Run(f, mid, more).0) == ([y] + ys) + Run(f, mid, more).0;
    }
  }

  lemma RunSnoc<S>(f: Machine<S>, s: S, xs: seq<byte>, x: byte)
    ensures var (ys, mid) := Run(f, s, xs);
            Run(f, s, xs + [x]) == (ys + [f(mid, x).0], f(mid, x).1)
  {
    var (ys, mid) := Run(f, s, xs);
    RunPrefixStable(f, s, xs, [x]);
    assert [x][1..] == [];
    assert Run(f, mid, [x]) == ([f(mid, x).0] + [], f(mid, x).1);
    assert [f(mid, x).0] + [] == [f(mid, x).0];
  }
}

/**
 The string stream cipher of `nix/airreceiver-carve.py`, as an array algorithm: a keyed
 shuffle of 256 cells, a four-way rotation whose indices may coincide, and feedback of
 both the ciphertext and the plaintext byte.

 The state is the source's list of 261 cells: the table in cells 0..255 and five
 registers behind it.
 */
module StringCipher {
  import opened Basics
  import opened ByteStream

  const I := 0x100
  const J := 0x101
  const K := 0x102
  const C := 0x103
  const A := 0x104
  const CELLS := 0x105
  const RETRIES := 12

  type Cells = s: seq<byte> | |s| == CELLS witness seq(CELLS, _ => 0)
  type Key = k: seq<byte> | |k| > 0 witness [0]

  /** The source's sums, all of which it masks to a byte. */
  function Add(x: byte, y: byte): byte {
    (x as int + y as int) % 256
  }

  function Power(bits: nat): nat {
    if bits == 0 then 1 else 2 * Power(bits - 1)
  }

  /** Exclusive or of the low `bits` bits. */
  function XorBits(x: nat, y: nat, bits: nat): (r: nat)
    ensures r < Power(bits)
    decreases bits, x
  {
    if bits == 0 then 0
    else 2 * XorBits(x / 2, y / 2, bits - 1) + (if x % 2 == y % 2 then 0 else 1)
  }

  function Xor(x: byte, y: byte): byte {
    assert Power(8) == 256;
    XorBits(x, y, 8)
  }

  lemma XorHalves(x: nat, y: nat, bits: nat)
    requires bits > 0
    ensures XorBits(x, y, bits) / 2 == XorBits(x / 2, y / 2, bits - 1)
    ensures XorBits(x, y, bits) % 2 == if x % 2 == y % 2 then 0 else 1
  {
  }

  lemma SameHalves(x: nat, y: nat)
    requires x / 2 == y / 2 && x % 2 == y % 2
    ensures x == y
  {
  }

  lemma {:induction false} MaskBitsTwice(b1: nat, x: nat, b2: nat, bits: nat)
    requires x < Power(bits)
    ensures XorBits(XorBits(b1, XorBits(XorBits(b1, x, bits), b2, bits), bits), b2, bits) == x
    decreases bits
  {
    if bits > 0 {
      var r1 := XorBits(b1, x, bits);
      var r2 := XorBits(r1, b2, bits);
      var r3 := XorBits(b1, r2, bits);
      XorHalves(b1, x, bits);
      XorHalves(r1, b2, bits);
      XorHalves(b1, r2, bits);
      XorHalves(r3, b2, bits);
      MaskBitsTwice(b1 / 2, x / 2, b2 / 2, bits - 1);
      SameHalves(XorBits(r3, b2, bits), x);
    }
  }

  /** Masking a byte twice with the same pair of bytes gives it back. */
  lemma MaskTwice(b1: byte, x: byte, b2: byte)
    ensures Xor(Xor(b1, Xor(Xor(b1, x), b2)), b2) == x
  {
    assert Power(8) == 256;
    MaskBitsTwice(b1, x, b2, 8);
  }

  /** Bit `i` of a number. */
  function Bit(x: nat, i: nat): nat
    decreases i, x
  {
    if i == 0 then x % 2 else Bit(x / 2, i - 1)
  }

  lemma {:induction false} XorBitsBit(x: nat, y: nat, bits: nat, i: nat)
    requires i < bits
    ensures Bit(XorBits(x, y, bits), i) == if Bit(x, i) == Bit(y, i) then 0 else 1
    decreases bits, x
  {
    var rest := XorBits(x / 2, y / 2, bits - 1);
    assert XorBits(x, y, bits) / 2 == rest;
    if i > 0 {
      XorBitsBit(x / 2, y / 2, bits - 1, i - 1);
    }
  }

  /** A bit of the exclusive or is set exactly when the two bits differ. */
  lemma XorBit(x: byte, y: byte, i: nat)
    requires i < 8
    ensures Bit(Xor(x, y), i) == if Bit(x, i) == Bit(y, i) then 0 else 1
  {
    XorBitsBit(x, y, 8, i);
  }

  // ---------------------------------------------------------------------------
  // Permutations of the table
  // ---------------------------------------------------------------------------

  ghost predicate IsPermutation(table: seq<byte>) {
    |table| == 256 && forall v: byte :: multiset(table)[v] == 1
  }

  function Swap(s: seq<byte>, x: nat, y: nat): (r: seq<byte>)
    requires x < |s| && y < |s|
    ensures |r| == |s|
  {
    s[x := s[y]][y := s[x]]
  }

  lemma SwapKeepsPermutation(s: seq<byte>, x: nat, y: nat)
    requires x < |s| && y < |s|
    ensures multiset(Swap(s, x, y)) == multiset(s)
  {
  }

  function Identity(n: nat): (s: seq<byte>)
    requires n <= 256
  {
    seq(n, i => if 0 <= i < 256 then i else 0)
  }

  lemma {:induction false} IdentityCounts(n: nat, v: byte)
    requires n <= 256
    ensures multiset(Identity(n))[v] == if v < n then 1 else 0
  {
    if n > 0 {
      IdentityCounts(n - 1, v);
      assert Identity(n) == Identity(n - 1) + [n - 1];
    }
  }

  // ---------------------------------------------------------------------------
  // The keyed shuffle
  // ---------------------------------------------------------------------------

  datatype KeyCursor = KeyCursor(value: byte, at: nat)

  /** The least `2^k - 1` that is not below `n`. */
  function MaskFrom(n: nat, mask: nat): (r: nat)
    requires mask in {1, 3, 7, 15, 31, 63, 127, 255} && n < 256
    ensures n <= r < 256 && (r == mask || r < 2 * n)
    ensures r in {1, 3, 7, 15, 31, 63, 127, 255}
    decreases 255 - mask, n
  {
    if mask < n then MaskFrom(n, 2 * mask + 1) else mask
  }

  /** Draw from the key until a masked value is at most `n` or the tries run out. Since the
      mask is one less than a power of two, masking is the remainder. */
  function Draw(s: Cells, n: nat, mask: nat, key: Key, v: nat, cursor: KeyCursor, r: byte, tries: nat):
    (res: (byte, KeyCursor))
    requires n <= mask < 256 && cursor.at < |key| && r <= mask
    ensures res.0 <= mask && res.1.at < |key|
    decreases tries, |key|
  {
    if tries == 0 then (r, cursor)
    else
      var sum: nat := key[cursor.at] as int + s[v % 256] as int;
      var wraps := cursor.at + 1 >= |key|;
      var v' := if wraps then sum % 256 + |key| else sum;
      var cursor' := KeyCursor(v' % 256, if wraps then 0 else cursor.at + 1);
      var r' := v' % (mask + 1);
      if r' <= n then (r', cursor') else Draw(s, n, mask, key, v', cursor', r', tries - 1)
  }

  function ShuffleIndex(s: Cells, n: nat, key: Key, cursor: KeyCursor): (res: (byte, KeyCursor))
    requires n < 256 && cursor.at < |key|
    ensures res.1.at < |key|
  {
    Draw(s, n, MaskFrom(n, 1), key, cursor.value, cursor, 0, RETRIES)
  }

  /** Fisher-Yates from cell `n` down to cell 1. */
  function Shuffle(s: Cells, n: nat, key: Key, cursor: KeyCursor): (Cells, KeyCursor)
    requires n < 256 && cursor.at < |key|
    decreases n, |key|
  {
    if n == 0 then (s, cursor)
    else
      var (idx, cursor') := ShuffleIndex(s, n, key, cursor);
      Shuffle(Swap(s, n, idx), n - 1, key, cursor')
  }

  function Fresh(): Cells {
    seq(CELLS, i => if 0 <= i < 256 then i else 0)
  }

  function Init(key: Key): Cells {
    var (s, cursor) := Shuffle(Fresh(), 255, key, KeyCursor(0, 0));
    s[I := s[1]][J := s[3]][K := s[5]][C := s[7]][A := s[cursor.value]]
  }

  lemma SwapInTable(s: Cells, x: nat, y: nat)
    requires x < 256 && y < 256
    ensures Swap(s, x, y)[..256] == Swap(s[..256], x, y)
  {
  }

  /** Whatever the draws were, exhausted retries included, a shuffle only swaps cells. */
  lemma {:induction false} ShuffleKeepsPermutation(s: Cells, n: nat, key: Key, cursor: KeyCursor)
    requires n < 256 && cursor.at < |key| && IsPermutation(s[..256])
    ensures IsPermutation(Shuffle(s, n, key, cursor).0[..256])
    decreases n
  {
    if n > 0 {
      var (idx, cursor') := ShuffleIndex(s, n, key, cursor);
      SwapInTable(s, n, idx);
      SwapKeepsPermutation(s[..256], n, idx);
      ShuffleKeepsPermutation(Swap(s, n, idx), n - 1, key, cursor');
    }
  }

  lemma InitIsPermutation(key: Key)
    ensures IsPermutation(Init(key)[..256])
  {
    assert Fresh()[..256] == Identity(256);
    forall v: byte {
      IdentityCounts(256, v);
    }
    ShuffleKeepsPermutation(Fresh(), 255, key, KeyCursor(0, 0));
    var (s, cursor) := Shuffle(Fresh(), 255, key, KeyCursor(0, 0));
    assert Init(key)[..256] == s[..256];
  }

  // ---------------------------------------------------------------------------
  // What is drawn, and what the registers start with
  // ---------------------------------------------------------------------------

  ghost predicate IsMask(n: nat, mask: nat) {
    mask in {1, 3, 7, 15, 31, 63, 127, 255} && n <= mask && (mask == 1 || mask < 2 * n)
  }

  /** One sum from the key: its byte at `p`, and the byte of the table that the sum before
      points at. At the key's last byte the low byte of that and the key's length count, and
      the key begins again. */
  ghost predicate Sums(s: Cells, key: Key, p: nat, v: nat, p': nat, v': nat) {
    p < |key| && p' < |key| && var sum := key[p] as nat + s[v % 256] as nat;
    if p == |key| - 1 then p' == 0 && v' == sum % 256 + |key| else p' == p + 1 && v' == sum
  }

  /** A draw written out: the places in the key it visits and the sums it makes there, from
      the sum `v` on. The index drawn is the first of the masked sums that is at most `n`,
      or the last of as many as it may try. */
  ghost predicate DrawnFrom(s: Cells, n: nat, mask: nat, key: Key, v: nat, at: seq<nat>, sums: seq<nat>, idx: nat, after: KeyCursor, tries: nat) {
    && 1 <= |sums| <= tries && |at| == |sums| + 1
    && (forall t :: 0 <= t < |sums| ==> Sums(s, key, at[t], if t == 0 then v else sums[t - 1], at[t + 1], sums[t]))
    && (forall t :: 0 <= t < |sums| - 1 ==> sums[t] % (mask + 1) > n)
    && idx == sums[|sums| - 1] % (mask + 1) && (idx <= n || |sums| == tries)
    && after == KeyCursor(sums[|sums| - 1] % 256, at[|sums|])
  }

  /** A whole draw has twelve tries, and begins where the cursor was left. */
  ghost predicate Drawn(s: Cells, n: nat, mask: nat, key: Key, before: KeyCursor, at: seq<nat>, sums: seq<nat>, idx: nat, after: KeyCursor) {
    DrawnFrom(s, n, mask, key, before.value, at, sums, idx, after, 12) && at[0] == before.at
  }

  lemma DrawnMore(s: Cells, n: nat, mask: nat, key: Key, v: nat, p: nat, v': nat, at: seq<nat>, sums: seq<nat>, idx: nat, after: KeyCursor, tries: nat)
    requires DrawnFrom(s, n, mask, key, v', at, sums, idx, after, tries)
    requires v' % (mask + 1) > n && Sums(s, key, p, v, at[0], v')
    ensures DrawnFrom(s, n, mask, key, v, [p] + at, [v'] + sums, idx, after, tries + 1)
  {
    var at', sums' := [p] + at, [v'] + sums;
    forall t | 0 <= t < |sums'|
      ensures Sums(s, key, at'[t], if t == 0 then v else sums'[t - 1], at'[t + 1], sums'[t])
    {
      if t > 0 {
        assert Sums(s, key, at[t - 1], if t == 1 then v' else sums[t - 2], at[t], sums[t - 1]);
      }
    }
  }

  lemma {:induction false} DrawIsDrawn(s: Cells, n: nat, mask: nat, key: Key, v: nat, cursor: KeyCursor, r: byte, tries: nat)
    returns (at: seq<nat>, sums: seq<nat>)
    requires n <= mask < 256 && cursor.at < |key| && r <= mask && tries > 0
    ensures var (idx, after) := Draw(s, n, mask, key, v, cursor, r, tries);
            |at| > 0 && at[0] == cursor.at && DrawnFrom(s, n, mask, key, v, at, sums, idx, after, tries)
    decreases tries
  {
    var v', next := DrawOnce(s, n, mask, key, v, cursor, r, tries);
    if v' % (mask + 1) <= n || tries == 1 {
      at, sums := [cursor.at, next], [v'];
      OneSum(s, n, mask, key, v, cursor.at, v', next, tries);
    } else {
      var (idx, after) := Draw(s, n, mask, key, v', KeyCursor(v' % 256, next), v' % (mask + 1), tries - 1);
      at, sums := DrawIsDrawn(s, n, mask, key, v', KeyCursor(v' % 256, next), v' % (mask + 1), tries - 1);
      DrawnMore(s, n, mask, key, v, cursor.at, v', at, sums, idx, after, tries - 1);
      at, sums := [cursor.at] + at, [v'] + sums;
    }
  }

  lemma DrawOnce(s: Cells, n: nat, mask: nat, key: Key, v: nat, cursor: KeyCursor, r: byte, tries: nat) returns (v': nat, next: nat)
    requires n <= mask < 256 && cursor.at < |key| && r <= mask && tries > 0
    ensures Sums(s, key, cursor.at, v, next, v') && v' % (mask + 1) <= mask
    ensures var r', cursor' := v' % (mask + 1), KeyCursor(v' % 256, next);
            Draw(s, n, mask, key, v, cursor, r, tries)
            == if r' <= n || tries == 1 then (r', cursor') else Draw(s, n, mask, key, v', cursor', r', tries - 1)
  {
    var sum: nat := key[cursor.at] as int + s[v % 256] as int;
    v' := if cursor.at == |key| - 1 then sum % 256 + |key| else sum;
    next := if cursor.at == |key| - 1 then 0 else cursor.at + 1;
    DrawStops(s, n, mask, key, v', KeyCursor(v' % 256, next), v' % (mask + 1));
  }

  lemma OneSum(s: Cells, n: nat, mask: nat, key: Key, v: nat, p: nat, v': nat, p': nat, tries: nat)
    requires Sums(s, key, p, v, p', v') && tries > 0 && (v' % (mask + 1) <= n || tries == 1)
    ensures DrawnFrom(s, n, mask, key, v, [p, p'], [v'], v' % (mask + 1), KeyCursor(v' % 256, p'), tries)
  {
  }

  lemma DrawStops(s: Cells, n: nat, mask: nat, key: Key, v: nat, cursor: KeyCursor, r: byte)
    requires n <= mask < 256 && cursor.at < |key| && r <= mask
    ensures Draw(s, n, mask, key, v, cursor, r, 0) == (r, cursor)
  {
  }

  /** What the code draws is that. */
  lemma IndexIsDrawn(s: Cells, n: nat, key: Key, before: KeyCursor) returns (mask: nat, at: seq<nat>, sums: seq<nat>)
    requires n < 256 && before.at < |key|
    ensures var (idx, after) := ShuffleIndex(s, n, key, before);
            IsMask(n, mask) && Drawn(s, n, mask, key, before, at, sums, idx, after)
  {
    mask := MaskFrom(n, 1);
    at, sums := DrawIsDrawn(s, n, mask, key, before.value, before, 0, 12);
  }

  ghost predicate DrawnSomehow(s: Cells, n: nat, key: Key, before: KeyCursor, idx: nat, after: KeyCursor) {
    exists mask: nat, at: seq<nat>, sums: seq<nat> :: IsMask(n, mask) && Drawn(s, n, mask, key, before, at, sums, idx, after)
  }

  ghost predicate Exchanged(s: Cells, x: nat, y: nat, s': Cells)
    requires x < 256 && y < 256
  {
    && s'[x] == s[y] && s'[y] == s[x]
    && forall i :: 0 <= i < CELLS && i != x && i != y ==> s'[i] == s[i]
  }

  /** One turn of the shuffle: cell `n` changes places with the one drawn. */
  ghost predicate Turn(s: Cells, n: nat, key: Key, before: KeyCursor, idx: byte, s': Cells, after: KeyCursor)
    requires n < 256
  {
    DrawnSomehow(s, n, key, before, idx, after) && Exchanged(s, n, idx, s')
  }

  /** A shuffle by its turns: from cell `n` down to cell 1. */
  ghost predicate Turns(key: Key, n: nat, tables: seq<Cells>, cursors: seq<KeyCursor>, drawn: seq<byte>)
    requires n < 256
  {
    && |tables| == |cursors| == n + 1 && |drawn| == n
    && forall k :: 0 <= k < n ==> Turn(tables[k], n - k, key, cursors[k], drawn[k], tables[k + 1], cursors[k + 1])
  }

  lemma TurnsMore(key: Key, n: nat, s: Cells, cursor: KeyCursor, idx: byte, tables: seq<Cells>, cursors: seq<KeyCursor>, drawn: seq<byte>)
    requires 0 < n < 256 && Turns(key, n - 1, tables, cursors, drawn) && Turn(s, n, key, cursor, idx, tables[0], cursors[0])
    ensures Turns(key, n, [s] + tables, [cursor] + cursors, [idx] + drawn)
  {
    var ts, cs, ds := [s] + tables, [cursor] + cursors, [idx] + drawn;
    forall k | 0 <= k < n
      ensures Turn(ts[k], n - k, key, cs[k], ds[k], ts[k + 1], cs[k + 1])
    {
      if k > 0 {
        assert Turn(tables[k - 1], n - 1 - (k - 1), key, cursors[k - 1], drawn[k - 1], tables[k], cursors[k]);
      }
    }
  }

  lemma {:induction false} ShuffleTurns(s: Cells, n: nat, key: Key, cursor: KeyCursor)
    returns (tables: seq<Cells>, cursors: seq<KeyCursor>, drawn: seq<byte>)
    requires n < 256 && cursor.at < |key|
    ensures Turns(key, n, tables, cursors, drawn) && tables[0] == s && cursors[0] == cursor
    ensures Shuffle(s, n, key, cursor) == (tables[n], cursors[n])
    decreases n
  {
    if n == 0 {
      tables, cursors, drawn := [s], [cursor], [];
    } else {
      var (idx, after) := ShuffleIndex(s, n, key, cursor);
      var mask, at, sums := IndexIsDrawn(s, n, key, cursor);
      tables, cursors, drawn := ShuffleTurns(Swap(s, n, idx), n - 1, key, after);
      assert Turn(s, n, key, cursor, idx, tables[0], cursors[0]);
      TurnsMore(key, n, s, cursor, idx, tables, cursors, drawn);
      tables, cursors, drawn := [s] + tables, [cursor] + cursors, [idx] + drawn;
    }
  }

  /** `init` written out: from the identity and an unused key, 255 turns; and then five
      cells of the finished table seed the registers, the last of them the one the key's
      cursor was left at. */
  lemma InitIsKeyed(key: Key) returns (tables: seq<Cells>, cursors: seq<KeyCursor>, drawn: seq<byte>)
    ensures Turns(key, 255, tables, cursors, drawn) && cursors[0] == KeyCursor(0, 0)
    ensures forall i :: 0 <= i < CELLS ==> tables[0][i] == if i < 256 then i else 0
    ensures var s, done := Init(key), tables[255];
            && s[..256] == done[..256]
            && s[0x100] == done[1] && s[0x101] == done[3] && s[0x102] == done[5] && s[0x103] == done[7]
            && s[0x104] == done[cursors[255].value]
  {
    tables, cursors, drawn := ShuffleTurns(Fresh(), 255, key, KeyCursor(0, 0));
  }

  // ---------------------------------------------------------------------------
  // One step of the generator
  // ---------------------------------------------------------------------------

  /** The source's eight assignments, in order. */
  function Step(s: Cells): Cells {
    var i := s[I];
    var t := s[s[A]];
    var s := s[I := Add(i, 1)];
    var s := s[J := Add(s[i], s[J])];
    var s := s[s[A] := s[s[J]]];
    var s := s[s[J] := s[s[C]]];
    var s := s[s[C] := s[s[I]]];
    var s := s[s[I] := t];
    s[K := Add(s[t], s[K])]
  }

  function Rotation(s: Cells, i: nat, j: nat): (table: seq<byte>)
    requires i < 256 && j < 256
    ensures |table| == 256
  {
    Swap(Swap(Swap(s[..256], s[A], j), j, s[C]), s[C], i)
  }

  /** The rotation is three swaps, in sequence, of the four indexed cells, however many of
      the indices coincide; the registers move as written and nothing else changes. */
  lemma StepIsThreeSwaps(s: Cells)
    ensures var i := Add(s[I], 1);
            var j := Add(s[s[I]], s[J]);
            var table := Rotation(s, i, j);
            && Step(s)[..256] == table
            && Step(s)[I] == i && Step(s)[J] == j
            && Step(s)[K] == Add(table[s[s[A]]], s[K])
            && Step(s)[C] == s[C] && Step(s)[A] == s[A]
  {
  }

  lemma StepKeepsPermutation(s: Cells)
    requires IsPermutation(s[..256])
    ensures IsPermutation(Step(s)[..256])
  {
    var i := Add(s[I], 1);
    var j := Add(s[s[I]], s[J]);
    StepIsThreeSwaps(s);
    var p := s[..256];
    SwapKeepsPermutation(p, s[A], j);
    SwapKeepsPermutation(Swap(p, s[A], j), j, s[C]);
    SwapKeepsPermutation(Swap(Swap(p, s[A], j), j, s[C]), s[C], i);
  }

  // ---------------------------------------------------------------------------
  // The cipher as a feedback stream
  // ---------------------------------------------------------------------------

  /** The two table bytes that mask one byte of text, read after a step. */
  function MaskBytes(s: Cells): (byte, byte) {
    (s[Add(s[s[I]], s[s[J]])],
     s[s[Add(Add(s[s[K]], s[s[C]]), s[s[A]])]])
  }

  /** The registers remember the last ciphertext and the last plaintext byte. */
  function Feed(s: Cells, c: byte, p: byte): Cells {
    s[A := c][C := p]
  }

  /** What follows the step. */
  function Unmask(s: Cells, c: byte): (byte, Cells) {
    var (b1, b2) := MaskBytes(s);
    var out := Xor(Xor(b1, c), b2);
    (out, Feed(s, c, out))
  }

  function DecryptByte(s: Cells, c: byte): (byte, Cells) {
    Unmask(Step(s), c)
  }

  /** The sender's side: the same step and feedback, with the plaintext byte masked. */
  function EncryptByte(s: Cells, p: byte): (byte, Cells) {
    var s := Step(s);
    var (b1, b2) := MaskBytes(s);
    var c := Xor(Xor(b1, p), b2);
    (c, Feed(s, c, p))
  }

  /** The byte of the table that two others add up to, */
  function FirstMask(table: seq<byte>, i: byte, j: byte): byte
    requires |table| == 256
  {
    table[(table[i] as nat + table[j] as nat) % 256]
  }

  /** and the one that three add up to, looked up once more. */
  function SecondMask(table: seq<byte>, k: byte, c: byte, a: byte): byte
    requires |table| == 256
  {
    table[table[(table[k] as nat + table[c] as nat + table[a] as nat) % 256]]
  }

  /** The registers and the table after a step, from those before it. */
  ghost predicate Stepped(s: Cells, i: byte, j: byte, k: byte, table: seq<byte>) {
    && i as nat == (s[0x100] as nat + 1) % 256
    && j as nat == (s[s[0x100]] as nat + s[0x101] as nat) % 256
    && table == Rotation(s, i, j) && |table| == 256
    && k as nat == (table[s[s[0x104]]] as nat + s[0x102] as nat) % 256
  }

  /** A byte made from the byte read: two bytes of the table mask it, bit by bit; and the
      last two registers keep the byte made and the byte read. */
  ghost predicate MadeFrom(x: byte, i: byte, j: byte, k: byte, c: byte, a: byte, table: seq<byte>, made: (byte, Cells))
    requires |table| == 256
  {
    var b1, b2 := FirstMask(table, i, j), SecondMask(table, k, c, a);
    var (out, s') := made;
    && (forall n :: 0 <= n < 8 ==> Bit(out, n) == (Bit(b1, n) + Bit(x, n) + Bit(b2, n)) % 2)
    && s'[..256] == table
    && s'[0x100] == i && s'[0x101] == j && s'[0x102] == k && s'[0x103] == out && s'[0x104] == x
  }

  /** One byte decrypted, written out: a step, and then that. */
  lemma DecryptedByte(s: Cells, x: byte, i: byte, j: byte, k: byte, table: seq<byte>)
    requires Stepped(s, i, j, k, table)
    ensures MadeFrom(x, i, j, k, s[0x103], s[0x104], table, DecryptByte(s, x))
  {
    SteppedIs(s, i, j, k, table);
    var t := Step(s);
    Unmasked(t, x, i, j, k, s[0x103], s[0x104], table);
    DecryptIs(s, x, t);
  }

  lemma DecryptIs(s: Cells, x: byte, t: Cells)
    requires t == Step(s)
    ensures DecryptByte(s, x) == Unmask(t, x)
  {
  }

  lemma SteppedIs(s: Cells, i: byte, j: byte, k: byte, table: seq<byte>)
    requires Stepped(s, i, j, k, table)
    ensures var t := Step(s);
            t[..256] == table && t[I] == i && t[J] == j && t[K] == k && t[C] == s[0x103] && t[A] == s[0x104]
  {
    StepIsThreeSwaps(s);
  }

  lemma Unmasked(t: Cells, x: byte, i: byte, j: byte, k: byte, c: byte, a: byte, table: seq<byte>)
    requires table == t[..256] && t[I] == i && t[J] == j && t[K] == k && t[C] == c && t[A] == a
    ensures MadeFrom(x, i, j, k, c, a, table, Unmask(t, x))
  {
    MaskBytesOf(t, table, i, j, k, c, a);
    ThreeWay(FirstMask(table, i, j), x, SecondMask(table, k, c, a));
  }

  lemma MaskBytesOf(t: Cells, table: seq<byte>, i: byte, j: byte, k: byte, c: byte, a: byte)
    requires t[..256] == table && t[I] == i && t[J] == j && t[K] == k && t[C] == c && t[A] == a
    ensures MaskBytes(t) == (FirstMask(table, i, j), SecondMask(table, k, c, a))
  {
    assert forall m :: 0 <= m < 256 ==> t[m] == table[m];
    AddThree(t[k], t[c], t[a]);
  }

  lemma AddThree(x: byte, y: byte, z: byte)
    ensures Add(Add(x, y), z) == (x as nat + y as nat + z as nat) % 256
  {
  }

  lemma ThreeWay(x: byte, y: byte, z: byte)
    ensures forall n :: 0 <= n < 8 ==> Bit(Xor(Xor(x, y), z), n) == (Bit(x, n) + Bit(y, n) + Bit(z, n)) % 2
  {
    forall n | 0 <= n < 8
      ensures Bit(Xor(Xor(x, y), z), n) == (Bit(x, n) + Bit(y, n) + Bit(z, n)) % 2
    {
      ThreeBits(x, y, z, n);
    }
  }

  lemma ThreeBits(x: byte, y: byte, z: byte, n: nat)
    requires n < 8
    ensures Bit(Xor(Xor(x, y), z), n) == (Bit(x, n) + Bit(y, n) + Bit(z, n)) % 2
  {
    var xy := Xor(x, y);
    XorBit(x, y, n);
    XorBit(xy, z, n);
    BitIsBit(x, n);
    BitIsBit(y, n);
    BitIsBit(z, n);
    Parity(Bit(x, n), Bit(y, n), Bit(z, n));
  }

  lemma Parity(a: nat, b: nat, c: nat)
    requires a <= 1 && b <= 1 && c <= 1
    ensures var ab := if a == b then 0 else 1; (if ab == c then 0 else 1) == (a + b + c) % 2
  {
  }

  lemma {:induction false} BitIsBit(x: nat, i: nat)
    ensures Bit(x, i) == 0 || Bit(x, i) == 1
    decreases i
  {
    if i > 0 {
      BitIsBit(x / 2, i - 1);
    }
  }

  lemma CipherInverse()
    ensures Undoes(DecryptByte, EncryptByte)
    ensures Undoes(EncryptByte, DecryptByte)
  {
    forall s: Cells, x: byte
      ensures DecryptByte(s, EncryptByte(s, x).0) == (x, EncryptByte(s, x).1)
      ensures EncryptByte(s, DecryptByte(s, x).0) == (x, DecryptByte(s, x).1)
    {
      var (b1, b2) := MaskBytes(Step(s));
      MaskTwice(b1, x, b2);
    }
  }

  function DecryptAll(s: Cells, cs: seq<byte>): (seq<byte>, Cells) {
    Run(DecryptByte, s, cs)
  }

  function EncryptAll(s: Cells, ps: seq<byte>): (seq<byte>, Cells) {
    Run(EncryptByte, s, ps)
  }

  /** Decryption undoes encryption at every length, and encryption undoes decryption. */
  lemma StreamInverse(s: Cells, text: seq<byte>)
    ensures var (cs, end) := EncryptAll(s, text); DecryptAll(s, cs) == (text, end)
    ensures var (ps, end) := DecryptAll(s, text); EncryptAll(s, ps) == (text, end)
  {
    CipherInverse();
    RunUndone(DecryptByte, EncryptByte, s, text);
    RunUndone(EncryptByte, DecryptByte, s, text);
  }

  lemma DecryptInjective(s: Cells, cs: seq<byte>, ds: seq<byte>)
    requires DecryptAll(s, cs).0 == DecryptAll(s, ds).0
    ensures cs == ds
  {
    CipherInverse();
    RunInjective(EncryptByte, DecryptByte, s, cs, ds);
  }

  lemma DecryptPrefixStable(s: Cells, cs: seq<byte>, more: seq<byte>)
    ensures DecryptAll(s, cs).0 <= DecryptAll(s, cs + more).0
  {
    RunPrefixStable(DecryptByte, s, cs, more);
  }

  /** The invariant over whole runs: after any ciphertext the table is a permutation. */
  lemma {:induction false} RunKeepsPermutation(s: Cells, cs: seq<byte>)
    requires IsPermutation(s[..256])
    ensures IsPermutation(DecryptAll(s, cs).1[..256])
    decreases |cs|
  {
    if cs != [] {
      var (p, s') := DecryptByte(s, cs[0]);
      StepKeepsPermutation(s);
      assert s'[..256] == Step(s)[..256];
      RunKeepsPermutation(s', cs[1..]);
    }
  }

  // ---------------------------------------------------------------------------
  // Encoded strings
  // ---------------------------------------------------------------------------

  function Pack(raw: seq<byte>): (packed: seq<byte>)
    requires |raw| % 2 == 0
    ensures |packed| == |raw| / 2
  {
    seq(|raw| / 2, i requires 0 <= i < |raw| / 2 => raw[2 * i] % 16 * 16 + raw[2 * i + 1] % 16)
  }

  function Decode(raw: seq<byte>, key: Key): Option<seq<byte>> {
    if |raw| <= 2 || |raw| % 2 == 1 then None
    else
      Some(DecryptAll(Init(key), Pack(raw)).0[1..])
  }

  /** `raw` carries `bytes` in its low nibbles, high half first. */
  ghost predicate Carries(raw: seq<byte>, bytes: seq<byte>) {
    |raw| == 2 * |bytes| && forall i :: 0 <= i < |bytes| ==> raw[2 * i] % 16 == bytes[i] / 16 && raw[2 * i + 1] % 16 == bytes[i] % 16
  }

  /** A string encrypted behind any salt byte and spelled in nibbles comes back exactly,
      whatever the high nibbles are, unless it is empty, which `Decode` refuses. */
  lemma DecodeRecovers(key: Key, salt: byte, text: seq<byte>, raw: seq<byte>)
    requires Carries(raw, EncryptAll(Init(key), [salt] + text).0)
    ensures Decode(raw, key) == if text == [] then None else Some(text)
  {
    var cs := EncryptAll(Init(key), [salt] + text).0;
    StreamInverse(Init(key), [salt] + text);
    DecodeAs(raw, key, cs, [salt] + text);
    assert ([salt] + text)[1..] == text;
  }

  lemma PackCarries(raw: seq<byte>, bytes: seq<byte>)
    requires Carries(raw, bytes)
    ensures |raw| % 2 == 0 && Pack(raw) == bytes
  {
  }

  /** `decode` on every input: refused exactly when it is too short or odd, and otherwise the
      decryption of what it carries, without the first byte. */
  lemma DecodeExactly(raw: seq<byte>, key: Key, bytes: seq<byte>)
    ensures Decode(raw, key) == None <==> |raw| <= 2 || |raw| % 2 == 1
    ensures Carries(raw, bytes) && |raw| > 2 ==> Decode(raw, key) == Some(DecryptAll(Init(key), bytes).0[1..])
  {
    if Carries(raw, bytes) {
      PackCarries(raw, bytes);
    }
  }

  lemma DecodeAs(raw: seq<byte>, key: Key, cs: seq<byte>, text: seq<byte>)
    requires Carries(raw, cs) && DecryptAll(Init(key), cs).0 == text && |cs| == |text| > 0
    ensures Decode(raw, key) == if |text| == 1 then None else Some(text[1..])
  {
    PackCarries(raw, cs);
  }

  // ---------------------------------------------------------------------------
  // The code, in place
  // ---------------------------------------------------------------------------

  method MaskFor(n: nat) returns (mask: nat)
    requires n < 256
    ensures mask == MaskFrom(n, 1)
  {
    mask := 1;
    while mask < n
      invariant mask in {1, 3, 7, 15, 31, 63, 127, 255} && MaskFrom(n, mask) == MaskFrom(n, 1)
      decreases 255 - mask
    {
      mask := mask * 2 + 1;
    }
  }

  method ShuffleIndexInPlace(S: array<byte>, n: nat, key: Key, state: array<nat>) returns (idx: byte)
    requires S.Length == CELLS && n < 256
    requires state.Length == 2 && state[0] < 256 && state[1] < |key|
    modifies state
    ensures state[0] < 256 && state[1] < |key|
    ensures (idx, KeyCursor(state[0], state[1])) == ShuffleIndex(S[..], n, key, old(KeyCursor(state[0], state[1])))
  {
    var mask := MaskFor(n);
    var v: nat := state[0];
    var r: byte := 0;
    ghost var want := ShuffleIndex(S[..], n, key, KeyCursor(state[0], state[1]));
    for tries := 0 to RETRIES
      invariant n <= mask < 256 && r <= mask
      invariant state[0] < 256 && state[1] < |key|
      invariant Draw(S[..], n, mask, key, v, KeyCursor(state[0], state[1]), r, RETRIES - tries) == want
    {
      var b := S[v % 256];
      var kp := state[1];
      state[1] := kp + 1;
      v := key[kp] as int + b as int;
      state[0] := v % 256;
      if state[1] >= |key| {
        state[1] := 0;
        v := state[0] + |key|;
        state[0] := v % 256;
      }
      r := v % (mask + 1);
      if r <= n {
        return r;
      }
    }
    return r;
  }

  method InitInPlace(key: Key) returns (S: array<byte>)
    ensures fresh(S) && S.Length == CELLS
    ensures S[..] == Init(key)
    ensures IsPermutation(S[..256])
  {
    S := new byte[CELLS](i => if 0 <= i < 256 then i else 0);
    assert S[..] == Fresh();
    var state := new nat[2](_ => 0);
    var n := 255;
    while n > 0
      invariant S.Length == CELLS && state.Length == 2 && fresh(S) && fresh(state) && 0 <= n < 256
      invariant state[0] < 256 && state[1] < |key|
      invariant Shuffle(S[..], n, key, KeyCursor(state[0], state[1])) == Shuffle(Fresh(), 255, key, KeyCursor(0, 0))
    {
      ghost var before := S[..];
      var idx := ShuffleIndexInPlace(S, n, key, state);
      S[n], S[idx] := S[idx], S[n];
      assert S[..] == Swap(before, n, idx);
      n := n - 1;
    }
    S[I], S[J], S[K], S[C], S[A] := S[1], S[3], S[5], S[7], S[state[0]];
    InitIsPermutation(key);
    assert S[..256] == Init(key)[..256];
  }

  method StepInPlace(S: array<byte>)
    requires S.Length == CELLS
    modifies S
    ensures S[..] == Step(old(S[..]))
  {
    var i := S[I];
    var t := S[S[A]];
    S[I] := Add(i, 1);
    S[J] := Add(S[i], S[J]);
    S[S[A]] := S[S[J]];
    S[S[J]] := S[S[C]];
    S[S[C]] := S[S[I]];
    S[S[I]] := t;
    S[K] := Add(S[t], S[K]);
  }

  method DecryptByteInPlace(S: array<byte>, c: byte) returns (out: byte)
    requires S.Length == CELLS
    modifies S
    ensures (out, S[..]) == DecryptByte(old(S[..]), c)
  {
    StepInPlace(S);
    var b1 := S[Add(S[S[I]], S[S[J]])];
    var b2 := S[S[Add(Add(S[S[K]], S[S[C]]), S[S[A]])]];
    S[A] := c;
    out := Xor(Xor(b1, c), b2);
    S[C] := out;
  }

  method DecryptStreamInPlace(S: array<byte>, cs: seq<byte>) returns (out: seq<byte>)
    requires S.Length == CELLS
    modifies S
    ensures (out, S[..]) == DecryptAll(old(S[..]), cs)
  {
    out := [];
    ghost var start: Cells := S[..];
    for i := 0 to |cs|
      invariant (out, S[..]) == DecryptAll(start, cs[..i])
    {
      RunSnoc<Cells>(DecryptByte, start, cs[..i], cs[i]);
      assert cs[..i] + [cs[i]] == cs[..i + 1];
      var p := DecryptByteInPlace(S, cs[i]);
      out := out + [p];
    }
    assert cs[..|cs|] == cs;
  }

  method DecodeString(raw: seq<byte>, key: Key) returns (r: Option<seq<byte>>)
    ensures r == Decode(raw, key)
  {
    if |raw| <= 2 || |raw| % 2 == 1 {
      return None;
    }
    var packed := Pack(raw);
    var S := InitInPlace(key);
    var out := DecryptStreamInPlace(S, packed);
    return Some(out[1..]);
  }
}
