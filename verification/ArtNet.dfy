/**
 * Art-Net mirroring between nodes (ArtDmx packets of the Art-Net 4
 * specification): `sendArtNetOut` on one side, `pollArtNet` and the output
 * engine on the other.
 */
module ArtNet {
  import opened Uids
  import opened Bytes
  import opened Output
  import opened Options

  const HEADER_LENGTH := 18
  const PACKET_LENGTH := 530
  const PACKET_BUDGET := 10

  const ID: seq<Byte> := [0x41, 0x72, 0x74, 0x2d, 0x4e, 0x65, 0x74, 0x00]     // "Art-Net" and a null

  // ----- Universes -----

  datatype Universe = Universe(net: Byte, subnet: Byte, uni: Byte)

  /** The ranges the configuration accepts. */
  predicate InRange(u: Universe) {
    u.net < 0x80 && u.subnet < 0x10 && u.uni < 0x10
  }

  /** `packUniverse`, cast to 16 bits. */
  function PackUniverse(u: Universe): Word16 {
    Or(Or(u.net as int * 0x100, u.subnet as int * 0x10), u.uni as int % 0x10) % 0x1_0000
  }

  lemma {:induction false} OrZero(x: nat)
    ensures Or(x, 0) == x
  {
    if x > 0 {
      OrZero(x / 2);
    }
  }

  lemma OrEven(x: nat, y: nat)
    ensures Or(2 * x, y) == 2 * Or(x, y / 2) + y % 2
  {
    OrStep(2 * x, y);
    Halves(x);
    hide Or;
  }

  lemma OrByFour(x: nat, y: nat)
    ensures Or(4 * x, y) == 4 * Or(x, y / 4) + y % 4
  {
    OrEven(2 * x, y);
    OrEven(x, y / 2);
    hide Or;
  }

  lemma OrBySixteen(x: nat, y: nat)
    ensures Or(16 * x, y) == 16 * Or(x, y / 16) + y % 16
  {
    OrByFour(4 * x, y);
    OrByFour(x, y / 4);
    hide Or;
  }

  /** OR with a shifted number is addition when the other fits below the shift. */
  lemma OrNibble(high: nat, low: nat)
    requires low < 0x10
    ensures Or(high * 0x10, low) == high * 0x10 + low
  {
    OrBySixteen(high, low);
    OrZero(high);
    hide Or;
  }

  lemma OrByte(high: nat, low: nat)
    requires low < 0x100
    ensures Or(high * 0x100, low) == high * 0x100 + low
  {
    OrBySixteen(16 * high, low);
    OrNibble(high, low / 16);
    hide Or;
  }

  lemma PackedDigits(n: nat, s: nat, i: nat)
    requires n < 0x80 && s < 0x10 && i < 0x10
    ensures Or(Or(n * 0x100, s * 0x10), i % 0x10) % 0x1_0000 == n * 0x100 + s * 0x10 + i
  {
    hide Or;
    OrByte(n, s * 0x10);
    var high := n * 0x10 + s;
    assert n * 0x100 + s * 0x10 == high * 0x10;
    OrNibble(high, i);
  }

  /** In range the packed universe is a number whose digits are the three parts. */
  lemma PackedInRange(u: Universe)
    requires InRange(u)
    ensures PackUniverse(u) == u.net as int * 0x100 + u.subnet as int * 0x10 + u.uni
  {
    hide Or;
    PackedDigits(u.net, u.subnet, u.uni);
  }

  lemma DigitsDistinct(n: nat, s: nat, i: nat, n': nat, s': nat, i': nat)
    requires s < 0x10 && i < 0x10 && s' < 0x10 && i' < 0x10
    requires n * 0x100 + s * 0x10 + i == n' * 0x100 + s' * 0x10 + i'
    ensures n == n' && s == s' && i == i'
  {
  }

  lemma UniversesDistinct(u: Universe, w: Universe)
    requires InRange(u) && InRange(w) && PackUniverse(u) == PackUniverse(w)
    ensures u == w
  {
    hide PackUniverse;
    PackedInRange(u);
    PackedInRange(w);
    DigitsDistinct(u.net, u.subnet, u.uni, w.net, w.subnet, w.uni);
  }

  // ----- Packets -----

  /** `sendArtNetOut`: the packet for a frame of 512 levels. */
  function SendPacket(levels: Levels, sequence: Byte, u: Universe): (p: seq<Byte>)
    ensures |p| == PACKET_LENGTH
  {
    ID + [0x00, 0x50, 0x00, 0x0e, sequence, 0, Or(u.subnet as int * 0x10, u.uni) % 0x100, u.net, 0x02, 0x00] + levels
  }

  /** The levels `pollArtNet` takes from one datagram, if it takes any. */
  function ParsePacket(datagram: seq<Byte>, universe: Word16): Option<Levels> {
    var n := if |datagram| < PACKET_LENGTH then |datagram| else PACKET_LENGTH;
    if n < HEADER_LENGTH then None
    else if datagram[..8] != ID then None
    else if datagram[8] != 0x00 || datagram[9] != 0x50 then None
    else if Or(datagram[14], datagram[15] as int % 0x80 * 0x100) != universe then None
    else
      var len: int := datagram[16] as int * 0x100 + datagram[17];
      if len == 0 || HEADER_LENGTH + len > n then None
      else
        var dmxLen := if len < MAX_CH then len else MAX_CH;
        Some(datagram[18..18 + dmxLen] + seq(MAX_CH - dmxLen, _ => 0))
  }

  lemma {:induction false} OrCommutes(x: nat, y: nat)
    ensures Or(x, y) == Or(y, x)
  {
    if x != 0 || y != 0 {
      OrCommutes(x / 2, y / 2);
    }
  }

  /** The universe a receiver reads from a packet is the sender's. */
  lemma UniverseSurvives(u: Universe)
    requires InRange(u)
    ensures Or(Or(u.subnet as int * 0x10, u.uni) % 0x100, u.net as int % 0x80 * 0x100) == PackUniverse(u)
  {
    hide Or, PackUniverse;
    var n: int, s: int, i: int := u.net, u.subnet, u.uni;
    PackedInRange(u);
    OrNibble(s, i);
    OrCommutes(s * 0x10 + i, n * 0x100);
    OrByte(n, s * 0x10 + i);
    assert (s * 0x10 + i) % 0x100 == s * 0x10 + i && n % 0x80 == n;
  }

  lemma PacketFields(levels: Levels, sequence: Byte, u: Universe)
    ensures var p := SendPacket(levels, sequence, u);
            && p[..8] == ID && p[8] == 0x00 && p[9] == 0x50
            && p[14] == Or(u.subnet as int * 0x10, u.uni) % 0x100 && p[15] == u.net
            && p[16] == 0x02 && p[17] == 0x00 && p[18..] == levels
  {
    hide Or;
  }

  /** A node of the same universe takes exactly the levels sent; any other in range ignores the packet. */
  lemma SentIsParsed(levels: Levels, sequence: Byte, u: Universe, receiver: Universe)
    requires InRange(u) && InRange(receiver)
    ensures ParsePacket(SendPacket(levels, sequence, u), PackUniverse(receiver))
         == if receiver == u then Some(levels) else None
  {
    hide Or, PackUniverse, SendPacket;
    PacketFields(levels, sequence, u);
    UniverseSurvives(u);
    if PackUniverse(receiver) == PackUniverse(u) {
      UniversesDistinct(u, receiver);
    }
    var p := SendPacket(levels, sequence, u);
    assert p[18..18 + MAX_CH] == p[18..];
    assert levels + [] == levels;
  }

  /** The datagram is an ArtDmx packet for the universe, and as long as it says. */
  ghost predicate IsArtDmx(d: seq<Byte>, universe: Word16) {
    && |d| >= 18
    && d[0] == 'A' as int && d[1] == 'r' as int && d[2] == 't' as int && d[3] == '-' as int
    && d[4] == 'N' as int && d[5] == 'e' as int && d[6] == 't' as int && d[7] == 0
    && d[8] == 0x00 && d[9] == 0x50
    && d[14] as int + 0x100 * (d[15] as int % 0x80) == universe
    && 1 <= LevelsIn(d) <= 512 && |d| >= 18 + LevelsIn(d)
  }

  /** The number of levels the datagram says it has. */
  function LevelsIn(d: seq<Byte>): int
    requires |d| >= 18
  {
    d[16] as int * 0x100 + d[17]
  }

  /**
   * Exactly the ArtDmx packets for the universe are taken, short ones too: the
   * levels they have, and zero for all other channels.
   */
  lemma ParsedExactly(d: seq<Byte>, universe: Word16)
    ensures ParsePacket(d, universe).Some? <==> IsArtDmx(d, universe)
    ensures IsArtDmx(d, universe) ==>
              forall i :: 0 <= i < 512 ==>
                ParsePacket(d, universe).value[i] == if i < LevelsIn(d) then d[18 + i] else 0
  {
    if |d| >= 18 {
      var high := d[15] as int % 0x80;
      OrByte(high, d[14]);
      OrCommutes(d[14], high * 0x100);
      hide Or;
      assert d[..8] == ID <==> forall k :: 0 <= k < 8 ==> d[k] == ID[k];
    }
  }

  /** What a node sends, byte by byte. */
  lemma SentLayout(levels: Levels, sequence: Byte, u: Universe)
    requires InRange(u)
    ensures var p := SendPacket(levels, sequence, u);
            && IsArtDmx(p, PackUniverse(u)) && LevelsIn(p) == 512 && p[10] == 0 && p[11] == 14 && p[12] == sequence
            && p[13] == 0 && forall i :: 0 <= i < 512 ==> p[18 + i] == levels[i]
  {
    SentIsParsed(levels, sequence, u, u);
    ParsedExactly(SendPacket(levels, sequence, u), PackUniverse(u));
    hide ParsePacket, PackUniverse, Or, IsArtDmx;
  }

  // ----- Polling -----

  /** The levels after the datagrams, in order; one that is not taken changes nothing. */
  function Polled(levels: Levels, datagrams: seq<seq<Byte>>, universe: Word16): Levels {
    if datagrams == [] then levels
    else
      var before := Polled(levels, datagrams[..|datagrams| - 1], universe);
      match ParsePacket(datagrams[|datagrams| - 1], universe)
      case Some(taken) => taken
      case None => before
  }

  /** The last datagram taken decides, and if none is taken the levels stay. */
  lemma {:induction false} PolledIsLast(levels: Levels, datagrams: seq<seq<Byte>>, universe: Word16, k: nat)
    requires k <= |datagrams| && forall j :: k <= j < |datagrams| ==> !IsArtDmx(datagrams[j], universe)
    ensures k == 0 ==> Polled(levels, datagrams, universe) == levels
    ensures k > 0 && IsArtDmx(datagrams[k - 1], universe) ==>
              var d := datagrams[k - 1];
              forall i :: 0 <= i < 512 ==>
                Polled(levels, datagrams, universe)[i] == if i < LevelsIn(d) then d[18 + i] else 0
    decreases |datagrams|
  {
    if datagrams != [] {
      var n := |datagrams| - 1;
      ParsedExactly(datagrams[n], universe);
      hide ParsePacket, IsArtDmx;
      if k <= n {
        PolledIsLast(levels, datagrams[..n], universe, k);
      }
    }
  }

  /** The datagrams one poll handles: ten at most, and none from an empty one on. */
  function Handled(waiting: seq<seq<Byte>>, budget: nat): (n: nat)
    ensures n <= budget && n <= |waiting|
    ensures forall k :: 0 <= k < n ==> waiting[k] != []
    ensures n < budget && n < |waiting| ==> waiting[n] == []
    decreases budget
  {
    if budget == 0 || waiting == [] || waiting[0] == [] then 0 else 1 + Handled(waiting[1..], budget - 1)
  }

  lemma HandledUnique(waiting: seq<seq<Byte>>, budget: nat, n: nat)
    requires n <= budget && n <= |waiting| && forall k :: 0 <= k < n ==> waiting[k] != []
    requires n < budget && n < |waiting| ==> waiting[n] == []
    ensures n == Handled(waiting, budget)
  {
  }

  /** The copy of all levels, with zeroes for those a datagram does not have. */
  method TakeLevels(artVals: array<Byte>, levels: Levels)
    requires artVals.Length == MAX_CH
    modifies artVals
    ensures artVals[..] == levels
  {
    var i := 0;
    while i < MAX_CH
      invariant 0 <= i <= MAX_CH
      invariant forall j :: 0 <= j < i ==> artVals[j] == levels[j]
    {
      artVals[i] := levels[i];
      i := i + 1;
    }
  }

  /**
   * `pollArtNet`: handles at most ten waiting datagrams. An empty datagram is
   * consumed and ends the poll, as if nothing more was waiting.
   */
  method PollArtNet(artVals: array<Byte>, waiting: seq<seq<Byte>>, universe: Word16)
    returns (left: seq<seq<Byte>>, heard: bool)
    requires artVals.Length == MAX_CH
    modifies artVals
    ensures var n := Handled(waiting, 10);
            && left == (if n < 10 && n < |waiting| then waiting[n + 1..] else waiting[n..])
            && artVals[..] == Polled(old(artVals[..]), waiting[..n], universe)
            && (heard <==> exists k :: 0 <= k < n && ParsePacket(waiting[k], universe).Some?)
  {
    heard := false;
    var processed := 0;
    while processed < PACKET_BUDGET && processed < |waiting|
      invariant 0 <= processed <= PACKET_BUDGET && processed <= |waiting|
      invariant forall k :: 0 <= k < processed ==> waiting[k] != []
      invariant artVals[..] == Polled(old(artVals[..]), waiting[..processed], universe)
      invariant heard <==> exists k :: 0 <= k < processed && ParsePacket(waiting[k], universe).Some?
    {
      hide ParsePacket;
      if waiting[processed] == [] {
        HandledUnique(waiting, PACKET_BUDGET, processed);
        left := waiting[processed + 1..];
        return;
      }
      assert waiting[..processed + 1][..processed] == waiting[..processed];
      var taken := ParsePacket(waiting[processed], universe);
      if taken.Some? {
        heard := true;
        TakeLevels(artVals, taken.value);
      }
      processed := processed + 1;
    }
    HandledUnique(waiting, PACKET_BUDGET, processed);
    left := waiting[processed..];
  }

  // ----- Mirroring -----

  /** A frame of a receiver that shows the network and nothing else. */
  ghost predicate ShowsNetwork(f: Frame, levels: Levels) {
    && f.mode == ArtNetOnly && f.master == 255 && !f.burnSafe
    && f.artNetActive && !f.sacnActive && f.artNet == levels && f.fx == seq(MAX_CH, _ => 255)
  }

  lemma {:induction false} ShownFrames(out: Levels, frames: seq<Frame>, levels: Levels, i: nat)
    requires i < MAX_CH && levels[i] <= SAFE_MAX_LEVEL
    requires forall k :: 0 <= k < |frames| ==> ShowsNetwork(frames[k], levels)
    ensures Run(out, frames)[i] == SlewTimes(out[i], levels[i], SAFE_SLEW_STEP, |frames|)
    decreases |frames|
  {
    if frames != [] {
      var n := |frames| - 1;
      ShownFrames(out, frames[..n], levels, i);
      assert ShowsNetwork(frames[n], levels);
      assert frames[n].fx[i] == 255;
      hide SlewToward;
    }
  }

  /**
   * What one node puts out, from boot and through any run, a node of the same
   * universe that shows the network puts out too, within fourteen frames,
   * whatever it showed before.
   */
  lemma MirrorsWithinFourteen(sent: seq<Frame>, shown: seq<Frame>, frames: seq<Frame>, sequence: Byte, u: Universe,
                              heard: Levels)
    requires InRange(u) && ParsePacket(SendPacket(Run(BLACKOUT, sent), sequence, u), PackUniverse(u)) == Some(heard)
    requires |frames| >= 14 && forall k :: 0 <= k < |frames| ==> ShowsNetwork(frames[k], heard)
    ensures Run(BLACKOUT, shown + frames) == Run(BLACKOUT, sent)
  {
    SentIsParsed(Run(BLACKOUT, sent), sequence, u, u);
    assert heard == Run(BLACKOUT, sent);
    RunIsSafe(sent);
    RunIsSafe(shown);
    RunSplits(BLACKOUT, shown, frames);
    var out := Run(BLACKOUT, shown);
    hide ParsePacket, SendPacket, PackUniverse, Run, ShowsNetwork;
    forall i | 0 <= i < MAX_CH
      ensures Run(out, frames)[i] == heard[i]
    {
      ShownFrames(out, frames, heard, i);
      SlewTimesIsClamp(out[i], heard[i], SAFE_SLEW_STEP, |frames|);
    }
  }
}
