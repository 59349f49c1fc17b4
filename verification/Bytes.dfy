/**
 * Bytes, their bitwise OR and AND, and the little-endian memory images of the
 * integers the driver stores.
 */
module Bytes {
  import opened Uids

  type Byte = x: int | 0 <= x < 0x100

  // ----- Bitwise OR and AND, bit by bit -----

  function Or(x: nat, y: nat): nat {
    if x == 0 && y == 0 then 0
    else (if x % 2 == 1 || y % 2 == 1 then 1 else 0) + 2 * Or(x / 2, y / 2)
  }

  function And(x: nat, y: nat): nat {
    if x == 0 || y == 0 then 0
    else (if x % 2 == 1 && y % 2 == 1 then 1 else 0) + 2 * And(x / 2, y / 2)
  }

  /** The masks have no bit in common and together cover the low `width` bits. */
  ghost predicate Complementary(m: nat, m': nat, width: nat) {
    if width == 0 then m == 0 && m' == 0
    else m % 2 + m' % 2 == 1 && Complementary(m / 2, m' / 2, width - 1)
  }

  lemma OrStep(x: nat, y: nat)
    ensures Or(x, y) / 2 == Or(x / 2, y / 2)
    ensures Or(x, y) % 2 == if x % 2 == 1 || y % 2 == 1 then 1 else 0
  {
  }

  lemma AndStep(x: nat, y: nat)
    ensures And(x, y) == (if x % 2 == 1 && y % 2 == 1 then 1 else 0) + 2 * And(x / 2, y / 2)
  {
  }

  /**
   * A number is recovered from its ORs with two complementary masks, and the
   * ORs add up to the number plus all ones.
   */
  lemma {:induction false} MaskedPair(x: nat, m: nat, m': nat, width: nat)
    requires Complementary(m, m', width)
    requires x <= m + m'
    ensures And(Or(x, m), Or(x, m')) == x
    ensures Or(x, m) + Or(x, m') == x + m + m'
    ensures Or(x, m) <= m + m' && Or(x, m') <= m + m'
    decreases width
  {
    if width > 0 {
      MaskedPair(x / 2, m / 2, m' / 2, width - 1);
      OrStep(x, m);
      OrStep(x, m');
      AndStep(Or(x, m), Or(x, m'));
      hide Or, And;
    }
  }

  const EUID_HIGH: Byte := 0xaa
  const EUID_LOW: Byte := 0x55

  lemma Halves(m: nat)
    ensures (2 * m) / 2 == m && (2 * m) % 2 == 0 && (2 * m + 1) / 2 == m && (2 * m + 1) % 2 == 1
  {
  }

  lemma {:induction false} AlternatingComplementary(m: nat, m': nat, width: nat)
    requires Complementary(m, m', width)
    ensures Complementary(4 * m + 2, 4 * m' + 1, width + 2)
  {
    Halves(m);
    Halves(m');
    Halves(2 * m + 1);
    Halves(2 * m');
    var h, l := 2 * m + 1, 2 * m';
    assert Complementary(h, l, width + 1);
    assert 4 * m + 2 == 2 * h && 4 * m' + 1 == 2 * l + 1;
  }

  lemma EuidMasksComplementary()
    ensures Complementary(EUID_HIGH, EUID_LOW, 8)
  {
    AlternatingComplementary(0x00, 0x00, 0);
    AlternatingComplementary(0x02, 0x01, 2);
    AlternatingComplementary(0x0a, 0x05, 4);
    AlternatingComplementary(0x2a, 0x15, 6);
  }

  /** The pair of bytes that carries x in a discovery response. */
  lemma EuidPair(x: Byte)
    ensures And(Or(x, EUID_HIGH), Or(x, EUID_LOW)) == x
    ensures Or(x, EUID_HIGH) + Or(x, EUID_LOW) == x + 0xff
    ensures Or(x, EUID_HIGH) < 0x100 && Or(x, EUID_LOW) < 0x100
  {
    EuidMasksComplementary();
    MaskedPair(x, EUID_HIGH, EUID_LOW, 8);
    hide Or, And, Complementary;
  }

  // ----- Memory images -----

  function Le16(n: Word16): (s: seq<Byte>)
    ensures |s| == 2
  {
    [n % 0x100, n / 0x100]
  }

  function Le32(n: Word32): (s: seq<Byte>)
    ensures |s| == 4
  {
    var n1 := n / 0x100;
    var n2 := n1 / 0x100;
    [n % 0x100, n1 % 0x100, n2 % 0x100, n2 / 0x100]
  }

  function FromLe16(s: seq<Byte>): Word16
    requires |s| == 2
  {
    var low: int, high: int := s[0], s[1];
    low + 0x100 * high
  }

  function FromLe32(s: seq<Byte>): Word32
    requires |s| == 4
  {
    var b0: int, b1: int, b2: int, b3: int := s[0], s[1], s[2], s[3];
    b0 + 0x100 * (b1 + 0x100 * (b2 + 0x100 * b3))
  }

  lemma Le16RoundTrip(n: Word16)
    ensures FromLe16(Le16(n)) == n
  {
  }

  lemma Le32RoundTrip(n: Word32)
    ensures FromLe32(Le32(n)) == n
  {
  }

  /** A UID struct in memory: two little-endian integers, packed. */
  function UidMemory(u: Uid): (s: seq<Byte>)
    ensures |s| == 6
  {
    Le16(u.manId) + Le32(u.devId)
  }

  function UidFromMemory(s: seq<Byte>): Uid
    requires |s| == 6
  {
    Uid(FromLe16(s[..2]), FromLe32(s[2..]))
  }

  lemma UidMemoryRoundTrip(u: Uid)
    ensures UidFromMemory(UidMemory(u)) == u
  {
    assert UidMemory(u)[..2] == Le16(u.manId) && UidMemory(u)[2..] == Le32(u.devId);
    Le16RoundTrip(u.manId);
    Le32RoundTrip(u.devId);
  }

  // ----- Byte swaps, as the bytes they move -----

  function Swap16(s: seq<Byte>): (r: seq<Byte>)
    requires |s| == 2
    ensures |r| == 2
  {
    [s[1], s[0]]
  }

  function Swap32(s: seq<Byte>): (r: seq<Byte>)
    requires |s| == 4
    ensures |r| == 4
  {
    [s[3], s[2], s[1], s[0]]
  }

  /** Both fields of a UID swapped in place. */
  function SwapUid(s: seq<Byte>): (r: seq<Byte>)
    requires |s| == 6
    ensures |r| == 6
  {
    [s[1], s[0], s[5], s[4], s[3], s[2]]
  }
}
