/** UUID v7 with a twelve-bit counter: the packing, the text, and when an id sorts after the last. */
module UuidV7 {
  // Sections 5.7 and 6.2 of RFC 9562.

  import opened Texts

  const COUNTER_MAX := 0xfff
  const MILLISECONDS_END := 0x1_0000_0000_0000

  type Byte = n: int | 0 <= n < 256

  /** The module's state: the millisecond and the counter of the last id. */
  datatype Stamp = Stamp(milliseconds: int, counter: int)

  /** One draw: the process clock and the two bytes a new counter would be seeded from. */
  datatype Draw = Draw(now: int, seed: int)

  /** `seed & 0x7ff` keeps the low eleven bits. */
  function Seeded(seed: int): int { seed % ((COUNTER_MAX + 1) / 2) }

  /** A counter past its twelve bits borrows the next millisecond: after 4096 ids, less the seed. */
  function Next(last: Stamp, d: Draw): Stamp {
    if d.now != last.milliseconds then Stamp(d.now, Seeded(d.seed))
    else if last.counter + 1 > COUNTER_MAX then Stamp(d.now + 1, 0)
    else Stamp(d.now, last.counter + 1)
  }

  predicate Packable(s: Stamp) { 0 <= s.milliseconds < MILLISECONDS_END && 0 <= s.counter <= COUNTER_MAX }

  /** Big-endian bytes; the byte at `i` of six. */
  function TimeByte(milliseconds: int, i: nat): Byte
    requires i < 6
  {
    match i
    case 0 => milliseconds / 0x100_0000_0000 % 256
    case 1 => milliseconds / 0x1_0000_0000 % 256
    case 2 => milliseconds / 0x100_0000 % 256
    case 3 => milliseconds / 0x1_0000 % 256
    case 4 => milliseconds / 0x100 % 256
    case 5 => milliseconds % 256
  }

  function Packed(s: Stamp, random: seq<Byte>): seq<Byte>
    requires Packable(s) && |random| == 8
  {
    seq(6, i requires 0 <= i < 6 => TimeByte(s.milliseconds, i))
    + [0x70 + s.counter / 256, s.counter % 256, 0x80 + random[0] % 0x40] + random[1..]
  }

  // ---------------------------------------------------------------------------------------------
  // What the bytes say
  // ---------------------------------------------------------------------------------------------

  function TimeOf(bytes: seq<Byte>): int
    requires |bytes| == 16
  {
    var b: seq<int> := bytes;
    ((((b[0] * 256 + b[1]) * 256 + b[2]) * 256 + b[3]) * 256 + b[4]) * 256 + b[5]
  }

  function CounterOf(bytes: seq<Byte>): int
    requires |bytes| == 16
  {
    var b: seq<int> := bytes;
    b[6] % 16 * 256 + b[7]
  }

  lemma Digits(m: int)
    requires 0 <= m < MILLISECONDS_END
    ensures var a, b, c := m / 256, m / 256 / 256, m / 256 / 256 / 256;
            var d, e := c / 256, c / 256 / 256;
            && m == a * 256 + m % 256 && a == b * 256 + a % 256 && b == c * 256 + b % 256
            && c == d * 256 + c % 256 && d == e * 256 + d % 256 && 0 <= e < 256
            && m / 0x1_0000 == b && m / 0x100_0000 == c && m / 0x1_0000_0000 == d && m / 0x100_0000_0000 == e
  {
  }

  /** Version 7, the variant 10 of the RFC, and the time and counter back out of the bytes. */
  lemma PackedSaysItsStamp(s: Stamp, random: seq<Byte>)
    requires Packable(s) && |random| == 8
    ensures var b := Packed(s, random);
            && |b| == 16 && b[6] / 16 == 7 && b[8] / 64 == 2
            && TimeOf(b) == s.milliseconds && CounterOf(b) == s.counter
            && b[8] % 64 == random[0] % 64 && b[9..] == random[1..]
  {
    Digits(s.milliseconds);
  }

  // ---------------------------------------------------------------------------------------------
  // Order
  // ---------------------------------------------------------------------------------------------

  predicate Before(s: Stamp, t: Stamp) {
    s.milliseconds < t.milliseconds || (s.milliseconds == t.milliseconds && s.counter < t.counter)
  }

  /** They agree before `i` and differ upwards at `i`. */
  predicate LessAt(a: seq<Byte>, b: seq<Byte>, i: nat) {
    i < |a| && i < |b| && a[i] < b[i] && forall j :: 0 <= j < i ==> a[j] == b[j]
  }

  ghost predicate BytesLess(a: seq<Byte>, b: seq<Byte>) {
    exists i: nat :: LessAt(a, b, i)
  }

  lemma FirstDifference(a: seq<Byte>, b: seq<Byte>, n: nat) returns (i: nat)
    requires n <= |a| && n <= |b|
    ensures i <= n && (forall j :: 0 <= j < i ==> a[j] == b[j]) && (i < n ==> a[i] != b[i])
  {
    i := 0;
    while i < n && a[i] == b[i]
      invariant i <= n && forall j :: 0 <= j < i ==> a[j] == b[j]
    {
      i := i + 1;
    }
  }

  lemma SharedTimePrefix(a: seq<Byte>, b: seq<Byte>, i: nat)
    requires |a| == 16 && |b| == 16 && i < 6 && a[i] < b[i] && forall j :: 0 <= j < i ==> a[j] == b[j]
    ensures TimeOf(a) < TimeOf(b)
  {
  }

  /** The order of the bytes is the order of the stamps, whatever the random bits. */
  lemma PackingKeepsOrder(s: Stamp, r: seq<Byte>, t: Stamp, q: seq<Byte>)
    requires Packable(s) && Packable(t) && |r| == 8 && |q| == 8 && Before(s, t)
    ensures BytesLess(Packed(s, r), Packed(t, q))
  {
    var a, b := Packed(s, r), Packed(t, q);
    PackedSaysItsStamp(s, r);
    PackedSaysItsStamp(t, q);
    var i := FirstDifference(a, b, 6);
    if i < 6 {
      if a[i] > b[i] {
        SharedTimePrefix(b, a, i);
      }
      assert LessAt(a, b, i);
    } else {
      assert s.milliseconds == t.milliseconds;
      if s.counter / 256 < t.counter / 256 {
        assert LessAt(a, b, 6);
      } else {
        assert LessAt(a, b, 7);
      }
    }
  }

  // ---------------------------------------------------------------------------------------------
  // Text
  // ---------------------------------------------------------------------------------------------

  function HexDigit(n: int): char
    requires 0 <= n < 16
  {
    if n < 10 then (n + '0' as int) as char else (n - 10 + 'a' as int) as char
  }

  function HexAt(bytes: seq<Byte>, k: nat): char
    requires k < 2 * |bytes|
  {
    HexDigit(if k % 2 == 0 then bytes[k / 2] / 16 else bytes[k / 2] % 16)
  }

  function Hex(bytes: seq<Byte>): string {
    seq(2 * |bytes|, k requires 0 <= k < 2 * |bytes| => HexAt(bytes, k))
  }

  function Dashed(hex: string): string
    requires |hex| == 32
  {
    hex[..8] + "-" + hex[8..12] + "-" + hex[12..16] + "-" + hex[16..20] + "-" + hex[20..]
  }

  predicate TextLessAt(a: string, b: string, i: nat) {
    i < |a| && i < |b| && a[i] < b[i] && forall j :: 0 <= j < i ==> a[j] == b[j]
  }

  ghost predicate TextLess(a: string, b: string) {
    exists i: nat :: TextLessAt(a, b, i)
  }

  /** Where the digit `k` of 32 stands among the dashes. */
  function Place(k: nat): nat {
    if k < 8 then k else if k < 12 then k + 1 else if k < 16 then k + 2 else if k < 20 then k + 3 else k + 4
  }

  lemma DigitsInPlace(a: string, b: string, k: nat)
    requires |a| == 32 && |b| == 32 && k < 32 && forall j :: 0 <= j < k ==> a[j] == b[j]
    ensures Dashed(a)[Place(k)] == a[k] && Dashed(b)[Place(k)] == b[k]
    ensures forall p :: 0 <= p < Place(k) ==> Dashed(a)[p] == Dashed(b)[p]
  {
  }

  function HexValue(c: char): int {
    if '0' <= c <= '9' then c as int - '0' as int
    else if 'a' <= c <= 'f' then c as int - 'a' as int + 10 else -1
  }

  predicate IsLowerHex(c: char) { '0' <= c <= '9' || 'a' <= c <= 'f' }

  lemma DigitReads(bytes: seq<Byte>, k: nat)
    requires |bytes| == 16 && k < 32
    ensures var c := Dashed(Hex(bytes))[Place(k)];
            IsLowerHex(c) && HexValue(c) == if k % 2 == 0 then bytes[k / 2] / 16 else bytes[k / 2] % 16
  {
    DigitsInPlace(Hex(bytes), Hex(bytes), k);
  }

  /** Which digit stands at a place that holds no dash. */
  function DigitAt(p: nat): (k: nat)
    requires p < 36 && p != 8 && p != 13 && p != 18 && p != 23
    ensures k < 32 && Place(k) == p
  {
    if p < 8 then p else if p < 13 then p - 1 else if p < 18 then p - 2 else if p < 23 then p - 3 else p - 4
  }

  lemma CharAt(bytes: seq<Byte>, p: nat)
    requires |bytes| == 16 && p < 36
    ensures |Dashed(Hex(bytes))| == 36
    ensures var c := Dashed(Hex(bytes))[p];
            if p == 8 || p == 13 || p == 18 || p == 23 then c == '-' else IsLowerHex(c)
  {
    if p != 8 && p != 13 && p != 18 && p != 23 {
      DigitReads(bytes, DigitAt(p));
    }
  }

  lemma TextIsAUuid(bytes: seq<Byte>)
    requires |bytes| == 16
    ensures IsUuid(Dashed(Hex(bytes))) && ToLowerCase(Dashed(Hex(bytes))) == Dashed(Hex(bytes))
  {
    var id := Dashed(Hex(bytes));
    forall p: nat | p < 36
      ensures |id| == 36 && if p == 8 || p == 13 || p == 18 || p == 23 then id[p] == '-' else IsLowerHex(id[p])
    {
      CharAt(bytes, p);
    }
    UuidShape(id);
    LowerCaseMeans(id);
  }

  lemma ByteReads(bytes: seq<Byte>, i: nat)
    requires |bytes| == 16 && i < 16
    ensures bytes[i] == 16 * HexValue(Dashed(Hex(bytes))[Place(2 * i)])
                        + HexValue(Dashed(Hex(bytes))[Place(2 * i + 1)])
  {
    Halves(i);
    DigitReads(bytes, 2 * i);
    DigitReads(bytes, 2 * i + 1);
  }

  lemma Halves(i: nat)
    ensures 2 * i / 2 == i && 2 * i % 2 == 0 && (2 * i + 1) / 2 == i && (2 * i + 1) % 2 == 1
  {
  }

  /** The text has a uuid's shape, in lower case, and its 32 digits, two a byte, read back as the bytes. */
  lemma TextReadsBack(bytes: seq<Byte>)
    requires |bytes| == 16
    ensures IsUuid(Dashed(Hex(bytes))) && ToLowerCase(Dashed(Hex(bytes))) == Dashed(Hex(bytes))
    ensures forall i: nat :: i < 16 ==>
              bytes[i] == 16 * HexValue(Dashed(Hex(bytes))[Place(2 * i)])
                          + HexValue(Dashed(Hex(bytes))[Place(2 * i + 1)])
  {
    TextIsAUuid(bytes);
    forall i: nat | i < 16 {
      ByteReads(bytes, i);
    }
  }

  lemma NibblesOrder(x: Byte, y: Byte)
    requires x < y
    ensures x / 16 < y / 16 || (x / 16 == y / 16 && x % 16 < y % 16)
  {
  }

  /** The counter rule: a clock that has moved is taken over, with the seed's low eleven bits. */
  lemma NextMeans(last: Stamp, d: Draw)
    requires 0 <= last.counter <= 0xfff && 0 <= d.seed < 0x1_0000
    ensures var next := Next(last, d);
            if d.now == last.milliseconds
            then next == if last.counter == 0xfff then Stamp(d.now + 1, 0) else Stamp(d.now, last.counter + 1)
            else && next.milliseconds == d.now && 0 <= next.counter < 0x800
                 && exists high: int :: d.seed == 0x800 * high + next.counter
  {
    assert d.seed == 0x800 * (d.seed / 0x800) + d.seed % 0x800;
  }

  lemma SamePrefix(a: seq<Byte>, b: seq<Byte>, i: nat, k: nat)
    requires |a| == 16 && |b| == 16 && i < 16 && forall j :: 0 <= j < i ==> a[j] == b[j]
    requires k == 2 * i || (k == 2 * i + 1 && a[i] / 16 == b[i] / 16)
    ensures forall j :: 0 <= j < k ==> Hex(a)[j] == Hex(b)[j]
  {
    forall j | 0 <= j < k ensures HexAt(a, j) == HexAt(b, j) {
      assert j / 2 < i ==> a[j / 2] == b[j / 2];
    }
  }

  /** The text of ids sorts as their bytes do. */
  lemma HexKeepsOrder(a: seq<Byte>, b: seq<Byte>)
    requires |a| == 16 && |b| == 16 && BytesLess(a, b)
    ensures TextLess(Dashed(Hex(a)), Dashed(Hex(b)))
  {
    var i: nat :| LessAt(a, b, i);
    NibblesOrder(a[i], b[i]);
    var k := if a[i] / 16 < b[i] / 16 then 2 * i else 2 * i + 1;
    var x, y := Hex(a), Hex(b);
    assert x[k] < y[k];
    SamePrefix(a, b, i, k);
    DigitsInPlace(x, y, k);
    assert TextLessAt(Dashed(x), Dashed(y), Place(k));
  }

  lemma TextLessAsymmetric(a: string, b: string)
    requires TextLess(a, b)
    ensures !TextLess(b, a)
  {
    var i: nat :| TextLessAt(a, b, i);
    forall j: nat ensures !TextLessAt(b, a, j) {
      if j < i && j < |a| && j < |b| {
        assert a[j] == b[j];
      }
    }
  }

  // ---------------------------------------------------------------------------------------------
  // The source's form: module variables and one shared buffer
  // ---------------------------------------------------------------------------------------------

  class Generator {
    const bytes: array<Byte>
    var lastMilliseconds: int
    var counter: int

    constructor ()
      ensures bytes.Length == 16 && Last() == Stamp(-1, 0) && fresh(bytes)
    {
      bytes := new Byte[16](_ => 0);
      lastMilliseconds, counter := -1, 0;
    }

    ghost function Last(): Stamp
      reads this
    {
      Stamp(lastMilliseconds, counter)
    }

    method WriteTime(milliseconds: int)
      requires bytes.Length == 16 && 0 <= milliseconds < MILLISECONDS_END
      modifies bytes
      ensures bytes[6..] == old(bytes[6..])
      ensures forall i :: 0 <= i < 6 ==> bytes[i] == TimeByte(milliseconds, i)
    {
      for i := 0 to 6
        invariant forall j :: 0 <= j < i ==> bytes[j] == TimeByte(milliseconds, j)
        invariant bytes[6..] == old(bytes[6..])
      {
        bytes[i] := TimeByte(milliseconds, i);
      }
    }

    /** `random` fills bytes 8 to 15; the bytes left over from the last call show nowhere. */
    method UuidV7(d: Draw, random: seq<Byte>) returns (id: string)
      requires bytes.Length == 16 && |random| == 8
      requires 0 <= d.now < MILLISECONDS_END - 1 && 0 <= d.seed < 0x1_0000 && 0 <= counter <= COUNTER_MAX
      modifies this, bytes
      ensures Last() == Next(old(Last()), d) && Packable(Last())
      ensures id == Dashed(Hex(Packed(Last(), random)))
    {
      var milliseconds := d.now;
      if milliseconds == lastMilliseconds {
        counter := counter + 1;
        if counter > COUNTER_MAX {
          milliseconds := milliseconds + 1;
          lastMilliseconds := milliseconds;
          counter := 0;
        }
      } else {
        lastMilliseconds := milliseconds;
        counter := Seeded(d.seed);
      }
      for i := 0 to 8
        modifies bytes
        invariant forall j :: 0 <= j < i ==> bytes[8 + j] == random[j]
      {
        bytes[8 + i] := random[i];
      }
      WriteTime(milliseconds);
      assert bytes[6..][2..] == bytes[8..];
      bytes[6], bytes[7] := 0x70 + counter / 256, counter % 256;
      bytes[8] := 0x80 + bytes[8] % 0x40;
      assert bytes[..] == Packed(Stamp(milliseconds, counter), random);
      id := Dashed(Hex(bytes[..]));
    }
  }

  function IdOf(s: Stamp, random: seq<Byte>): string
    requires Packable(s) && |random| == 8
  {
    PackedSaysItsStamp(s, random);
    Dashed(Hex(Packed(s, random)))
  }

  /** An id sorts after the one before it exactly when the clock has not fallen behind that one's time. */
  lemma NextSortsAfterIffClockKeptUp(last: Stamp, r: seq<Byte>, d: Draw, q: seq<Byte>)
    requires Packable(last) && |r| == 8 && |q| == 8
    requires 0 <= d.now < MILLISECONDS_END - 1 && 0 <= d.seed < 0x1_0000
    ensures Packable(Next(last, d))
    ensures TextLess(IdOf(last, r), IdOf(Next(last, d), q)) <==> d.now >= last.milliseconds
  {
    var next := Next(last, d);
    PackedSaysItsStamp(last, r);
    PackedSaysItsStamp(next, q);
    if d.now >= last.milliseconds {
      PackingKeepsOrder(last, r, next, q);
      HexKeepsOrder(Packed(last, r), Packed(next, q));
    } else {
      PackingKeepsOrder(next, q, last, r);
      HexKeepsOrder(Packed(next, q), Packed(last, r));
      TextLessAsymmetric(IdOf(next, q), IdOf(last, r));
    }
  }

  // ---------------------------------------------------------------------------------------------
  // Runs
  // ---------------------------------------------------------------------------------------------

  const START := Stamp(-1, 0)

  function After(draws: seq<Draw>): Stamp {
    if draws == [] then START else Next(After(draws[..|draws| - 1]), draws[|draws| - 1])
  }

  /** A clock that never goes back, in range. */
  ghost predicate Ticking(draws: seq<Draw>) {
    && (forall i :: 0 <= i < |draws| ==> 0 <= draws[i].now < MILLISECONDS_END - 1 && 0 <= draws[i].seed < 0x1_0000)
    && (forall i, j :: 0 <= i < j < |draws| ==> draws[i].now <= draws[j].now)
  }

  /** At most 2050 draws share a millisecond. */
  ghost predicate Paced(draws: seq<Draw>) {
    forall i, j :: 0 <= i && i + 2050 <= j < |draws| ==> draws[i].now < draws[j].now
  }

  /** No borrow for the last draw's millisecond, which `first` opened; or one, by its 2050th draw. */
  ghost predicate Kept(draws: seq<Draw>, first: nat)
    requires draws != []
  {
    var s, now, drawn := After(draws), draws[|draws| - 1].now, |draws| - first;
    && first < |draws| && draws[first].now == now
    && ((s.milliseconds == now && 0 <= s.counter <= 2046 + drawn && s.counter <= COUNTER_MAX)
        || (s == Stamp(now + 1, 0) && drawn == 2050))
  }

  lemma {:induction false} PacedBorrowsLast(draws: seq<Draw>) returns (first: nat)
    requires draws != [] && Ticking(draws) && Paced(draws)
    ensures Kept(draws, first)
  {
    var front, last := draws[..|draws| - 1], draws[|draws| - 1];
    if front == [] {
      first := 0;
    } else {
      first := PacedBorrowsLast(front);
      if front[|front| - 1].now != last.now {
        first := |draws| - 1;
      }
    }
  }

  /** STRICTLY INCREASING at up to 2050 ids a millisecond, whatever the seeds and the random bits. */
  lemma PacedIdsIncrease(draws: seq<Draw>, r: seq<Byte>, d: Draw, q: seq<Byte>)
    requires draws != [] && Ticking(draws + [d]) && Paced(draws + [d]) && |r| == 8 && |q| == 8
    ensures Packable(After(draws)) && Packable(After(draws + [d]))
    ensures TextLess(IdOf(After(draws), r), IdOf(After(draws + [d]), q))
  {
    var all := draws + [d];
    assert forall i :: 0 <= i < |draws| ==> draws[i] == all[i];
    assert all[|draws|] == d && all[..|all| - 1] == draws;
    var first := PacedBorrowsLast(draws);
    assert d.now >= After(draws).milliseconds by {
      assert all[|draws| - 1].now <= all[|draws|].now;
      assert |draws| - first == 2050 ==> all[first].now < all[|draws|].now;
    }
    NextSortsAfterIffClockKeptUp(After(draws), r, d, q);
  }

  function Repeat(d: Draw, n: nat): seq<Draw> {
    if n == 0 then [] else Repeat(d, n - 1) + [d]
  }

  lemma {:induction false} AfterRepeat(now: int, n: nat)
    requires 0 <= now && 1 <= n <= 2049
    ensures |Repeat(Draw(now, 0x7ff), n)| == n
    ensures After(Repeat(Draw(now, 0x7ff), n)) == Stamp(now, 0x7ff + (n - 1))
  {
    var d := Draw(now, 0x7ff);
    var draws := Repeat(d, n);
    if n > 1 {
      AfterRepeat(now, n - 1);
      assert draws[..|draws| - 1] == Repeat(d, n - 1);
    } else {
      assert Repeat(d, 1) == [d];
      assert [d][..0] == [];
    }
  }

  /**
   One draw more than that and the promise is gone: seeded as high as seeding goes, the 2050th id of a
   millisecond borrows the next one, and the 2051st falls back to the clock and sorts before it.
   */
  lemma OneMoreDrawFallsBack(now: int, r: seq<Byte>, q: seq<Byte>)
    requires 0 <= now < MILLISECONDS_END - 1 && |r| == 8 && |q| == 8
    ensures var d := Draw(now, 0x7ff);
            var borrowed := After(Repeat(d, 2049) + [d]);
            var fallen := After(Repeat(d, 2049) + [d, d]);
            && borrowed == Stamp(now + 1, 0) && fallen == Stamp(now, 0x7ff)
            && TextLess(IdOf(fallen, q), IdOf(borrowed, r))
  {
    BorrowedAndFallen(now);
    PackedSaysItsStamp(Stamp(now + 1, 0), r);
    PackedSaysItsStamp(Stamp(now, 0x7ff), q);
    PackingKeepsOrder(Stamp(now, 0x7ff), q, Stamp(now + 1, 0), r);
    HexKeepsOrder(Packed(Stamp(now, 0x7ff), q), Packed(Stamp(now + 1, 0), r));
  }

  lemma BorrowedAndFallen(now: int)
    requires 0 <= now
    ensures After(Repeat(Draw(now, 0x7ff), 2049) + [Draw(now, 0x7ff)]) == Stamp(now + 1, 0)
    ensures After(Repeat(Draw(now, 0x7ff), 2049) + [Draw(now, 0x7ff), Draw(now, 0x7ff)]) == Stamp(now, 0x7ff)
  {
    var d := Draw(now, 0x7ff);
    AfterRepeat(now, 2049);
    AfterSnoc(Repeat(d, 2049), d);
    AfterSnoc(Repeat(d, 2049) + [d], d);
    assert Repeat(d, 2049) + [d] + [d] == Repeat(d, 2049) + [d, d];
  }

  lemma AfterSnoc(draws: seq<Draw>, d: Draw)
    ensures After(draws + [d]) == Next(After(draws), d)
  {
    assert (draws + [d])[..|draws|] == draws;
  }
}
