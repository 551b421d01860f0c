/**
 * struct termios and struct termio of include/termios.h as the bytes they are, and
 * the second as a window onto the first.
 */
module Termios {
  import opened Bytes

  const TERMIOS_SIZE := 36  // four longs, the line, 17 control characters, 2 bytes of padding
  const TERMIO_SIZE := 18   // four shorts, the line, 8 control characters, 1 byte of padding
  const VIEW_SIZE := 17
  const NCC := 8

  /** Little-endian loads and stores. */
  function Short(b: seq<byte>, i: nat): (v: nat)
    requires i + 2 <= |b|
    ensures v < 0x1_0000
  {
    b[i] as int + 0x100 * (b[i + 1] as int)
  }

  function Long(b: seq<byte>, i: nat): (v: word)
    requires i + 4 <= |b|
  {
    Short(b, i) + 0x1_0000 * Short(b, i + 2)
  }

  function ShortBytes(v: nat): (b: seq<byte>)
    requires v < 0x1_0000
    ensures |b| == 2
  {
    [v % 0x100, v / 0x100]
  }

  function LongBytes(v: word): (b: seq<byte>)
    ensures |b| == 4
  {
    ShortBytes(v % 0x1_0000) + ShortBytes(v / 0x1_0000)
  }

  lemma BytesOfShort(lo: byte, hi: byte)
    ensures (lo + 0x100 * hi) % 0x100 == lo && (lo + 0x100 * hi) / 0x100 == hi
  {
  }

  lemma HalvesOfLong(lo: nat, hi: nat)
    requires lo < 0x1_0000
    ensures (lo + 0x1_0000 * hi) % 0x1_0000 == lo && (lo + 0x1_0000 * hi) / 0x1_0000 == hi
  {
  }

  lemma ShortRoundTrip(b: seq<byte>, i: nat)
    requires i + 2 <= |b|
    ensures ShortBytes(Short(b, i)) == [b[i], b[i + 1]]
  {
    BytesOfShort(b[i], b[i + 1]);
  }

  lemma LongHalves(b: seq<byte>, i: nat)
    requires i + 4 <= |b|
    ensures Long(b, i) % 0x1_0000 == Short(b, i) && Long(b, i) / 0x1_0000 == Short(b, i + 2)
  {
    var lo, hi := Short(b, i), Short(b, i + 2);
    HalvesOfLong(lo, hi);
  }

  lemma LongRoundTrip(b: seq<byte>)
    requires |b| == 4
    ensures LongBytes(Long(b, 0)) == b
  {
    LongHalves(b, 0);
    ShortRoundTrip(b, 0);
    ShortRoundTrip(b, 2);
  }

  /** A short assigned from a long keeps its two low bytes. */
  lemma LowHalf(b: seq<byte>, i: nat)
    requires i + 4 <= |b|
    ensures Long(b, i) % 0x1_0000 == Short(b, i)
    ensures ShortBytes(Long(b, i) % 0x1_0000) == b[i..i + 2]
  {
    LongHalves(b, i);
    ShortRoundTrip(b, i);
  }

  /** Where byte i of struct termio lives in struct termios. */
  function Place(i: nat): (p: nat)
    requires i < VIEW_SIZE
    ensures p < TERMIOS_SIZE && !Hidden(p) && Shown(p) == i
  {
    if i < 8 then i / 2 * 4 + i % 2 else i + 8
  }

  /** The bytes of struct termios that struct termio does not have: upper halves, c_cc from 8 on, padding. */
  predicate Hidden(p: nat) {
    (p < 16 && p % 4 >= 2) || 25 <= p
  }

  /** Which byte of struct termio shows byte p of struct termios. */
  function Shown(p: nat): (i: nat)
    requires !Hidden(p)
    ensures i < VIEW_SIZE
  {
    if p < 16 then p / 4 * 2 + p % 4 else p - 8
  }

  /** The 17 meaningful bytes of struct termio that a struct termios shows. */
  function View(t: seq<byte>): (v: seq<byte>)
    requires |t| == TERMIOS_SIZE
    ensures |v| == VIEW_SIZE
  {
    seq(VIEW_SIZE, i requires 0 <= i < VIEW_SIZE => t[Place(i)])
  }

  /** A struct termios written through that window. */
  function Update(t: seq<byte>, v: seq<byte>): (t': seq<byte>)
    requires |t| == TERMIOS_SIZE && |v| == VIEW_SIZE
    ensures |t'| == TERMIOS_SIZE
  {
    seq(TERMIOS_SIZE, p requires 0 <= p < TERMIOS_SIZE => if Hidden(p) then t[p] else v[Shown(p)])
  }

  lemma PlaceOfShown(p: nat)
    requires p < TERMIOS_SIZE && !Hidden(p)
    ensures Place(Shown(p)) == p
  {
  }

  /** Writing back what is seen changes nothing. */
  lemma ViewThenUpdate(t: seq<byte>)
    requires |t| == TERMIOS_SIZE
    ensures Update(t, View(t)) == t
  {
    forall p | 0 <= p < TERMIOS_SIZE ensures Update(t, View(t))[p] == t[p] {
      if !Hidden(p) { PlaceOfShown(p); }
    }
  }

  /** What was written is seen. */
  lemma UpdateThenView(t: seq<byte>, v: seq<byte>)
    requires |t| == TERMIOS_SIZE && |v| == VIEW_SIZE
    ensures View(Update(t, v)) == v
  {
  }

  /** The last writer wins. */
  lemma UpdateTwice(t: seq<byte>, v: seq<byte>, w: seq<byte>)
    requires |t| == TERMIOS_SIZE && |v| == |w| == VIEW_SIZE
    ensures Update(Update(t, v), w) == Update(t, w)
  {
  }

  lemma UpdateKeepsHidden(t: seq<byte>, v: seq<byte>, p: nat)
    requires |t| == TERMIOS_SIZE && |v| == VIEW_SIZE && Hidden(p) && p < TERMIOS_SIZE
    ensures Update(t, v)[p] == t[p]
  {
  }

  /** What the window shows of the four flag words, the line and the control characters. */
  lemma ViewMeans(t: seq<byte>)
    requires |t| == TERMIOS_SIZE
    ensures Short(View(t), 0) == Long(t, 0) % 0x1_0000 && Short(View(t), 2) == Long(t, 4) % 0x1_0000
    ensures Short(View(t), 4) == Long(t, 8) % 0x1_0000 && Short(View(t), 6) == Long(t, 12) % 0x1_0000
    ensures View(t)[8] == t[16] && View(t)[9..9 + NCC] == t[17..17 + NCC]
  {
    LowHalf(t, 0);
    LowHalf(t, 4);
    LowHalf(t, 8);
    LowHalf(t, 12);
  }
}
