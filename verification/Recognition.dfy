/**
 * What receiving promises, over whole packets and whole runs of interrupts:
 * recognition does not depend on how a packet is cut into interrupts, and a
 * waiting task hears of each packet at most once.
 */
module Recognition {
  import opened Options
  import opened Uids
  import opened Bytes
  import opened Packets
  import opened Receive
  import opened Layout
  import Transmit

  // ----- Whole packets -----

  /** A DMX packet of the expected size. */
  predicate DmxPacket(p: seq<Byte>, size: int) {
    && 1 <= |p| == size <= PACKET_MAX
    && p[0] != RDM_SC && p[0] != PREAMBLE && p[0] != DELIMITER
  }

  /** A valid standard RDM packet, checksum included. */
  predicate RdmPacket(p: seq<Byte>) {
    && HEADER_SIZE + 2 <= |p| <= PACKET_MAX
    && p[0] == RDM_SC && p[1] == RDM_SUB_SC && CcIsValid(p[20])
    && p[2] >= HEADER_SIZE && |p| == p[2] as int + 2
    && Checksum(p[..p[2]]) == FromLe16(Swap16(p[p[2]..]))
  }

  /** A valid discovery response with n preamble bytes. */
  predicate DiscoveryPacket(p: seq<Byte>, n: nat) {
    && n <= 7 && |p| == n + 17
    && (forall k :: 0 <= k < n ==> p[k] == PREAMBLE) && p[n] == DELIMITER
    && Checksum(p[n + 1..][..12]) == 0x100 * Masked(p[n + 1..], 6) + Masked(p[n + 1..], 7)
  }

  /** A packet the interrupt is meant to recognise while it expects `size` slots. */
  ghost predicate Recognisable(p: seq<Byte>, size: int) {
    size >= 1 && (DmxPacket(p, size) || RdmPacket(p) || exists n: nat :: DiscoveryPacket(p, n))
  }

  /** The first k bytes of the buffer are those of the packet, as far as it reaches. */
  ghost predicate Holds(buf: Buffer, p: seq<Byte>, k: int) {
    |p| <= PACKET_MAX && forall i :: 0 <= i < k && i < |p| ==> buf[i] == p[i]
  }

  lemma RdmRecognised(p: seq<Byte>, buf: Buffer, k: nat, size: int)
    requires RdmPacket(p) && Holds(buf, p, k) && size >= 1
    ensures PacketComplete(buf, k, size) <==> k >= |p|
  {
    hide Checksum, FromLe16;
    if k >= |p| {
      var len := p[2];
      assert buf[..len] == p[..len];
      assert buf[len..len + 2] == p[len..];
    }
  }

  lemma {:induction false} DelimiterAt(buf: Buffer, n: nat, i: nat)
    requires i <= n <= 7 && buf[n] == DELIMITER && forall k :: i <= k < n ==> buf[k] == PREAMBLE
    ensures DelimiterIndex(buf, i) == n && PreambleLength(buf, i) == n
    decreases n - i
  {
    if i < n {
      DelimiterAt(buf, n, i + 1);
    }
  }

  lemma DiscoveryRecognised(p: seq<Byte>, n: nat, buf: Buffer, k: nat, size: int)
    requires DiscoveryPacket(p, n) && Holds(buf, p, k) && size >= 1
    ensures PacketComplete(buf, k, size) <==> k >= |p|
  {
    if k >= 17 {
      DelimiterAt(buf, n, 0);
      hide Checksum, And, DelimiterIndex, PreambleLength, EuidDecode;
      if k >= |p| {
        var euid, pairs := buf[n + 1..], p[n + 1..];
        assert euid[..12] == pairs[..12];
        assert Masked(euid, 6) == Masked(pairs, 6) && Masked(euid, 7) == Masked(pairs, 7);
      }
    }
  }

  /**
   * A recognisable packet is complete exactly when all of it is in the buffer,
   * whatever stale bytes lie beyond the head.
   */
  lemma RecognisedExactly(p: seq<Byte>, buf: Buffer, k: nat, size: int)
    requires Recognisable(p, size) && Holds(buf, p, k)
    ensures PacketComplete(buf, k, size) <==> k >= |p|
  {
    if RdmPacket(p) {
      RdmRecognised(p, buf, k, size);
    } else if DmxPacket(p, size) {
    } else {
      var n: nat :| DiscoveryPacket(p, n);
      DiscoveryRecognised(p, n, buf, k, size);
    }
  }

  // ----- Exactly when any packet is complete -----

  /**
   * A packet that starts like a standard one is complete once all of it is in
   * and its bytes add up; if they do not, or it is malformed, it is taken for
   * DMX and complete at the expected size, but not before its own length.
   */
  lemma StandardCompletesExactly(data: Buffer, head: nat, size: int)
    requires data[0] == 0xcc
    ensures PacketComplete(data, head, size) <==>
              && head >= 26
              && if data[1] == 0x01 && data[20] % 0x10 < 2 && data[2] >= 24
                 then head >= data[2] as int + 2 && (AddsUp(data) || head >= size)
                 else head >= size
  {
    if data[1] == 0x01 {
      StandardRead(data);
    }
    hide ReadHeader, AddsUp;
  }

  /** A discovery response is complete once all of it is in and its pairs add up; if they do not, like DMX. */
  lemma ResponseCompletesExactly(data: Buffer, head: nat, size: int, n: nat)
    requires n <= 7 && data[n] == 0xaa && forall k :: 0 <= k < n ==> data[k] == 0xfe
    ensures PacketComplete(data, head, size) <==> head >= n + 17 && (PairsAddUp(data, n) || head >= size)
  {
    DelimiterAt(data, n, 0);
    ResponseRead(data, n);
    hide ReadHeader, PairsAddUp, DelimiterIndex;
  }

  /** Without a delimiter after at most seven preamble bytes it is complete at the expected size, like DMX. */
  lemma BrokenResponseCompletesExactly(data: Buffer, head: nat, size: int, n: nat)
    requires 1 <= n <= 8 && (forall k :: 0 <= k < n ==> data[k] == 0xfe)
    requires n < 8 ==> data[n] != 0xfe && data[n] != 0xaa
    ensures PacketComplete(data, head, size) <==> head >= size && head >= if n == 8 then 25 else 17
  {
    NoDelimiterAt(data, n, 0);
    hide DelimiterIndex;
    if n == 8 {
      ReadExactly(data);
      hide ReadHeader;
    }
  }

  lemma {:induction false} NoDelimiterAt(data: Buffer, n: nat, i: nat)
    requires i <= n <= 8 && (forall k :: i <= k < n ==> data[k] == 0xfe)
    requires n < 8 ==> data[n] != 0xfe && data[n] != 0xaa
    ensures DelimiterIndex(data, i) == if n == 8 then 8 else 9
    decreases n - i
  {
    if i < n {
      NoDelimiterAt(data, n, i + 1);
    }
  }

  /** A standard packet with a byte changed, other than start code and length, is never taken for RDM. */
  lemma CorruptedTakenForDmx(data: Buffer, i: nat, b: Byte, head: nat, size: int)
    requires AddsUp(data) && i < data[2] as int + 2 && i != 0 && i != 2 && b != data[i]
    ensures PacketComplete(data[i := b], head, size) ==> head >= size
    ensures head >= 257 ==> (PacketComplete(data[i := b], head, size) <==> head >= size)
  {
    ChangedByteUnread(data, i, b);
    ReadExactly(data[i := b]);
    hide ReadHeader, PacketComplete;
    StandardCompletesExactly(data[i := b], head, size);
    hide AddsUp;
  }

  // ----- A packet cut into interrupts -----

  ghost function Flatten(chunks: seq<seq<Byte>>): seq<Byte> {
    if chunks == [] then [] else Flatten(chunks[..|chunks| - 1]) + chunks[|chunks| - 1]
  }

  /** The driver after the chunks arrived, one interrupt each, and what a waiting task was told. */
  ghost function Feed(s: Rx, chunks: seq<seq<Byte>>): (Rx, seq<Err>) {
    if chunks == [] then (s, [])
    else
      var (before, notes) := Feed(s, chunks[..|chunks| - 1]);
      var (after, note) := OnInterrupt(before, Interrupt(chunks[|chunks| - 1], false, false, false, true));
      (after, notes + if note.Some? then [note.value] else [])
  }

  ghost predicate Comparable(p: seq<Byte>, q: seq<Byte>) {
    forall i :: 0 <= i < |p| && i < |q| ==> p[i] == q[i]
  }

  /** Ready for the first byte of a packet, after a break or after a discovery request. */
  ghost predicate ReadyForPacket(s: Rx) {
    s.head == 0 && s.fifo == [] && (s.progress == InBreak || s.progress == InData)
  }

  /** Some of the packet has arrived, all of it in the buffer, and nobody was told. */
  ghost predicate Arriving(s: Rx, notes: seq<Err>, p: seq<Byte>, arrived: int) {
    && s.head == arrived < |p| && s.fifo == [] && (s.progress == InBreak || s.progress == InData)
    && Holds(s.data, p, arrived) && notes == []
  }

  /** The packet is in the buffer, marked complete, and the waiting task was told exactly once. */
  ghost predicate Arrived(s: Rx, notes: seq<Err>, p: seq<Byte>) {
    s.head >= |p| && s.progress == Complete && Holds(s.data, p, |p|) && notes == [Ok]
  }

  lemma SpliceIndex(data: seq<Byte>, h: nat, arrived: seq<Byte>, n: nat, i: nat)
    requires h + n <= |data| && n <= |arrived| && i < h + n
    ensures (data[..h] + arrived[..n] + data[h + n..])[i] == if i < h then data[i] else arrived[i - h]
  {
  }

  lemma DrainShape(s: Rx, chunk: seq<Byte>)
    requires 0 <= s.head < PACKET_MAX && s.fifo == []
    ensures var d := Drain(s, chunk);
            && d.size == s.size && d.progress == s.progress
            && d.head == (if s.head + |chunk| < PACKET_MAX then s.head + |chunk| else PACKET_MAX)
            && (s.head + |chunk| <= PACKET_MAX ==> d.fifo == [])
  {
  }

  lemma SpliceKeeps(data: seq<Byte>, h: nat, chunk: seq<Byte>, n: nat, p: seq<Byte>)
    requires |data| == PACKET_MAX && h + n <= PACKET_MAX && n <= |chunk| && Holds(data, p, h)
    requires forall i :: 0 <= i < |chunk| && h + i < |p| ==> chunk[i] == p[h + i]
    ensures Holds(data[..h] + chunk[..n] + data[h + n..], p, h + n)
  {
    forall i: nat | i < h + n && i < |p|
      ensures (data[..h] + chunk[..n] + data[h + n..])[i] == p[i]
    {
      SpliceIndex(data, h, chunk, n, i);
    }
  }

  lemma DrainHolds(s: Rx, chunk: seq<Byte>, p: seq<Byte>)
    requires 0 <= s.head < PACKET_MAX && s.fifo == [] && Holds(s.data, p, s.head)
    requires forall i :: 0 <= i < |chunk| && s.head + i < |p| ==> chunk[i] == p[s.head + i]
    ensures Holds(Drain(s, chunk).data, p, Drain(s, chunk).head)
  {
    hide Holds;
    assert s.fifo + chunk == chunk;
    var room := PACKET_MAX - s.head;
    SpliceKeeps(s.data, s.head, chunk, if |chunk| < room then |chunk| else room, p);
  }

  lemma ChunkArrives(s: Rx, chunk: seq<Byte>, p: seq<Byte>, arrived: int)
    requires 0 <= arrived && Arriving(s, [], p, arrived) && Recognisable(p, s.size)
    requires forall i :: 0 <= i < |chunk| && arrived + i < |p| ==> chunk[i] == p[arrived + i]
    ensures var (t, note) := OnInterrupt(s, Interrupt(chunk, false, false, false, true));
            && t.size == s.size
            && (arrived + |chunk| < |p| ==>
                  Arriving(t, [], p, arrived + |chunk|) && t.progress == InData && note == None)
            && (arrived + |chunk| >= |p| ==> Arrived(t, [Ok], p) && note == Some(Ok))
  {
    DrainShape(s, chunk);
    DrainHolds(s, chunk, p);
    var d := Drain(s, chunk);
    hide Recognisable, PacketComplete, Drain;
    RecognisedExactly(p, d.data, d.head, d.size);
  }

  lemma ArrivedStays(s: Rx, chunk: seq<Byte>, p: seq<Byte>)
    requires Arrived(s, [Ok], p)
    ensures var (t, note) := OnInterrupt(s, Interrupt(chunk, false, false, false, true));
            Arrived(t, [Ok], p) && note == None && t.size == s.size
  {
  }

  lemma ComparableSplit(p: seq<Byte>, q: seq<Byte>, chunk: seq<Byte>)
    requires Comparable(p, q + chunk)
    ensures Comparable(p, q)
    ensures forall i :: 0 <= i < |chunk| && |q| + i < |p| ==> chunk[i] == p[|q| + i]
  {
    assert forall i :: 0 <= i < |q| ==> (q + chunk)[i] == q[i];
    assert forall i :: 0 <= i < |chunk| ==> (q + chunk)[|q| + i] == chunk[i];
  }

  /** The first n bytes of the packet's stream are in: it is complete, and the task told, exactly if all of it is. */
  ghost predicate InSoFar(s: Rx, notes: seq<Err>, p: seq<Byte>, n: int, size: int) {
    && s.size == size
    && (n < |p| ==> Arriving(s, notes, p, n))
    && (n >= |p| ==> Arrived(s, notes, p))
  }

  lemma NextChunk(s: Rx, notes: seq<Err>, chunk: seq<Byte>, p: seq<Byte>, n: nat)
    requires InSoFar(s, notes, p, n, s.size) && Recognisable(p, s.size)
    requires forall i :: 0 <= i < |chunk| && n + i < |p| ==> chunk[i] == p[n + i]
    ensures var (t, note) := OnInterrupt(s, Interrupt(chunk, false, false, false, true));
            InSoFar(t, notes + if note.Some? then [note.value] else [], p, n + |chunk|, s.size)
  {
    hide Recognisable, OnInterrupt, Holds;
    if n < |p| {
      ChunkArrives(s, chunk, p, n);
    } else {
      ArrivedStays(s, chunk, p);
    }
  }

  /**
   * However a recognisable packet is cut into interrupts, and whatever stale
   * bytes the buffer held, the packet is complete once its last byte is in and
   * never before, and a waiting task is told exactly then.
   */
  lemma {:induction false} ChunkingIrrelevant(s: Rx, chunks: seq<seq<Byte>>, p: seq<Byte>)
    requires ReadyForPacket(s) && Recognisable(p, s.size) && Comparable(p, Flatten(chunks))
    ensures InSoFar(Feed(s, chunks).0, Feed(s, chunks).1, p, |Flatten(chunks)|, s.size)
    decreases |chunks|
  {
    if chunks == [] {
      assert |p| > 0;
    } else {
      var before, chunk := chunks[..|chunks| - 1], chunks[|chunks| - 1];
      ComparableSplit(p, Flatten(before), chunk);
      hide Recognisable, OnInterrupt, Comparable, InSoFar;
      ChunkingIrrelevant(s, before, p);
      var (m, notes) := Feed(s, before);
      assert m.size == s.size by {
        SameSize(m, notes, p, |Flatten(before)|, s.size);
      }
      NextChunk(m, notes, chunk, p, |Flatten(before)|);
    }
  }

  lemma SameSize(s: Rx, notes: seq<Err>, p: seq<Byte>, n: int, size: int)
    requires InSoFar(s, notes, p, n, size)
    ensures s.size == size
  {
  }

  // ----- Any run of interrupts -----

  /** What happens to the receive state: interrupts, tasks that read, resize or turn the bus, and sending. */
  datatype Event =
    | Receives(i: Interrupt)
    | TakesPacket                       // a task has parsed the packet
    | Resizes(size: int)                // a task expects another packet size
    | TurnsBus                          // a task flips the bus to read mode
    | Sends(packet: Buffer, slots: nat) // what was in the buffer has been sent, to the last byte

  /** What the end of sending prepares for. */
  datatype Answer = NoAnswer | AfterBreak | WithoutBreak

  /** The answer the driver expects to what it sent: only a controller's requests that are not broadcast have one. */
  function Expected(packet: Buffer): Answer {
    match ReadHeader(packet)
    case None => NoAnswer
    case Some(h) =>
      if !CcIsValid(h.cc) || !CcIsRequest(h.cc) || h.pid == 0 then NoAnswer
      else if h.pid == PID_DISC_UNIQUE_BRANCH then WithoutBreak
      else if IsBroadcast(h.destUid) then NoAnswer
      else AfterBreak
  }

  /** The receive state once everything was sent: the bus is turned around if an answer is expected. */
  function AfterSending(s: Rx, packet: Buffer, slots: nat): Rx {
    var n := Transmit.SendSize(packet, slots);
    var done := s.(data := packet, size := n, head := n, progress := Complete, status := Idle);
    match Expected(packet)
    case NoAnswer => done
    case AfterBreak => done.(head := WAITING_FOR_BREAK, progress := Stale, fifo := [])
    case WithoutBreak => done.(head := 0, progress := InData, fifo := [])
  }

  /** The state after an event, and what a waiting task was told of a packet. */
  ghost function OnEvent(s: Rx, e: Event): (Rx, Option<Err>) {
    match e
    case Receives(i) => OnInterrupt(s, i)
    case TakesPacket => (s.(progress := Stale), None)
    case Resizes(size) =>
      var reached := size != s.size && s.progress != Stale && s.head >= size;
      (s.(size := size, progress := if reached then Complete else s.progress), None)
    case TurnsBus => (s.(progress := Stale, head := WAITING_FOR_BREAK), None)
    case Sends(packet, slots) => (AfterSending(s, packet, slots), None)
  }

  ghost function Events(s: Rx, es: seq<Event>): (Rx, seq<Err>) {
    if es == [] then (s, [])
    else
      var (before, notes) := Events(s, es[..|es| - 1]);
      var (after, note) := OnEvent(before, es[|es| - 1]);
      (after, notes + if note.Some? then [note.value] else [])
  }

  /** A packet starts with a break, or with the end of a branch request, whose answers have none. */
  predicate StartsPacket(e: Event) {
    match e
    case Receives(i) => i.isBreak
    case Sends(packet, _) => Expected(packet) == WithoutBreak
    case _ => false
  }

  function Starts(es: seq<Event>): nat {
    if es == [] then 0 else Starts(es[..|es| - 1]) + if StartsPacket(es[|es| - 1]) then 1 else 0
  }

  /** A packet has started that nobody was told of. */
  predicate IsOpen(s: Rx) {
    s.progress != Complete && s.progress != Stale
  }

  function Count(b: bool): nat {
    if b then 1 else 0
  }

  /** An event tells only of an open packet, and opens none but the one it starts. */
  lemma EventNote(s: Rx, e: Event)
    ensures var (t, note) := OnEvent(s, e);
            && Count(note.Some?) + Count(IsOpen(t)) <= Count(StartsPacket(e)) + Count(IsOpen(s))
            && (note.Some? ==> IsOpen(s))
  {
    hide Drain, PacketComplete, Expected, Transmit.SendSize;
    if e.Receives? {
      DrainKeepsProgress(s, e.i.arrived);
    }
  }

  lemma DrainKeepsProgress(s: Rx, arrived: seq<Byte>)
    ensures Drain(s, arrived).progress == s.progress
  {
  }

  /**
   * In every run of interrupts, tasks and sending, a waiting task is told of no
   * more packets than were started, or were open when the run began; a packet
   * still open at the end has not been told of.
   */
  lemma {:induction false} NotesPerStart(s: Rx, es: seq<Event>)
    ensures var (t, notes) := Events(s, es);
            |notes| + Count(IsOpen(t)) <= Starts(es) + Count(IsOpen(s))
    decreases |es|
  {
    if es != [] {
      NotesPerStart(s, es[..|es| - 1]);
      EventNote(Events(s, es[..|es| - 1]).0, es[|es| - 1]);
      hide OnEvent, StartsPacket, IsOpen;
    }
  }

  /** From one packet's start to the next, which may bring the news that the first was short, a task is told once. */
  lemma OneNotePerPacket(s: Rx, es: seq<Event>, closing: Event)
    requires Starts(es) == 0 && StartsPacket(closing)
    ensures |Events(s, es + [closing]).1| <= 1
  {
    var all := es + [closing];
    assert all[..|all| - 1] == es;
    NotesPerStart(s, es);
    EventNote(Events(s, es).0, closing);
    hide OnEvent, StartsPacket;
  }

  /** Once a branch request is sent the driver is ready for a discovery response, with no break before it. */
  lemma BranchRequestOpens(s: Rx, packet: Buffer, slots: nat)
    requires Expected(packet) == WithoutBreak
    ensures ReadyForPacket(AfterSending(s, packet, slots))
  {
    hide Expected, Transmit.SendSize;
  }

  /** A framing error or an overflow completes the packet at once, and the task is told which; overflow comes first. */
  lemma ErrorsTold(s: Rx, i: Interrupt)
    requires !i.isBreak && (i.framing || i.overflow)
    ensures var (t, note) := OnInterrupt(s, i);
            if IsOpen(s)
            then t.progress == Complete && t.status == Idle
                 && note == (if !i.waiting then None else if i.overflow then Some(UartOverflow) else Some(ImproperSlot))
            else t.progress == s.progress && note == None
  {
    DrainKeepsProgress(s, i.arrived);
    hide Drain;
  }

  /**
   * A task that asks for another size while a DMX packet is arriving is treated
   * as the next interrupt would: the packet is complete if that many slots are in.
   */
  lemma ResizeAgrees(s: Rx, size: int)
    requires IsOpen(s) && s.data[0] !in {0xcc, 0xfe, 0xaa} && !PacketComplete(s.data, s.head, s.size)
    ensures var t := OnEvent(s, Resizes(size)).0;
            && (t.progress == Complete <==> PacketComplete(t.data, t.head, t.size))
            && (t.progress != Complete ==> t.progress == s.progress)
            && t == s.(size := size, progress := t.progress)
  {
  }

  /** While the driver waits for a break, nothing but a start is heard: no byte is kept and no task is told. */
  lemma {:induction false} DeafUntilStart(s: Rx, es: seq<Event>)
    requires s.head == WAITING_FOR_BREAK && s.progress == Stale
    requires Starts(es) == 0 && forall e :: e in es ==> !e.Sends?
    ensures var (t, notes) := Events(s, es);
            t.data == s.data && t.head == WAITING_FOR_BREAK && t.progress == Stale && notes == []
    decreases |es|
  {
    if es != [] {
      assert forall e :: e in es[..|es| - 1] ==> e in es;
      DeafUntilStart(s, es[..|es| - 1]);
      assert es[|es| - 1] in es;
    }
  }

  // ----- What the buffer holds -----

  /** All bytes that arrived in the events. */
  ghost function Stream(es: seq<Event>): seq<Byte> {
    if es == [] then []
    else
      var e := es[|es| - 1];
      Stream(es[..|es| - 1]) + if e.Receives? then e.i.arrived else []
  }

  ghost function Stored(s: Rx): int {
    if s.head < PACKET_MAX then s.head else PACKET_MAX
  }

  /** Nothing but interrupts without a break, and tasks that read or resize. */
  predicate Undisturbed(es: seq<Event>) {
    forall e :: e in es ==> (e.Receives? && !e.i.isBreak) || e.TakesPacket? || e.Resizes?
  }

  /** The buffer holds the start of the stream; head and FIFO account for every byte of it. */
  ghost predicate Tracks(s: Rx, stream: seq<Byte>) {
    && 0 <= s.head && s.head + |s.fifo| == |stream|
    && (s.head < PACKET_MAX ==> s.fifo == [])
    && s.data[..Stored(s)] == stream[..Stored(s)]
  }

  lemma SpliceHolds(data: seq<Byte>, stream: seq<Byte>, arrived: seq<Byte>, n: nat)
    requires |stream| + n <= |data| && n <= |arrived| && data[..|stream|] == stream
    ensures var h := |stream|;
            (data[..h] + arrived[..n] + data[h + n..])[..h + n] == (stream + arrived)[..h + n]
  {
  }

  lemma DrainTracks(s: Rx, stream: seq<Byte>, arrived: seq<Byte>)
    requires Tracks(s, stream)
    ensures Tracks(Drain(s, arrived), stream + arrived)
  {
    if s.head < PACKET_MAX {
      assert s.fifo + arrived == arrived && stream[..s.head] == stream;
      var room := PACKET_MAX - s.head;
      SpliceHolds(s.data, stream, arrived, if |arrived| < room then |arrived| else room);
    } else {
      assert (stream + arrived)[..PACKET_MAX] == stream[..PACKET_MAX];
    }
  }

  lemma InterruptKeepsBytes(s: Rx, i: Interrupt)
    requires !i.isBreak
    ensures var t, d := OnInterrupt(s, i).0, Drain(s, i.arrived);
            t.data == d.data && t.head == d.head && t.fifo == d.fifo
  {
    hide Drain, PacketComplete;
  }

  /**
   * From a start that left the FIFO empty, the buffer holds exactly the first
   * bytes since then, as many as were counted and fit, whatever the
   * interrupts, the errors and the reading tasks.
   */
  lemma {:induction false} BufferHoldsStream(s: Rx, es: seq<Event>)
    requires s.head == 0 && s.fifo == [] && Undisturbed(es)
    ensures Tracks(Events(s, es).0, Stream(es))
    decreases |es|
  {
    if es != [] {
      var before, e := es[..|es| - 1], es[|es| - 1];
      assert forall x :: x in before ==> x in es;
      BufferHoldsStream(s, before);
      var t := Events(s, before).0;
      hide Drain, PacketComplete, OnInterrupt, Tracks;
      if e.Receives? {
        DrainTracks(t, Stream(before), e.i.arrived);
        InterruptKeepsBytes(t, e.i);
        TracksBytes(Drain(t, e.i.arrived), OnInterrupt(t, e.i).0, Stream(es));
      } else {
        assert Stream(es) == Stream(before);
        TracksBytes(t, OnEvent(t, e).0, Stream(es));
      }
    }
  }

  lemma TracksBytes(s: Rx, t: Rx, stream: seq<Byte>)
    requires Tracks(s, stream) && t.data == s.data && t.head == s.head && t.fifo == s.fifo
    ensures Tracks(t, stream)
  {
  }

  /**
   * A break that comes while a packet is still arriving ends it: the task is
   * told that it was short, and from then on expects one slot fewer than the
   * bytes that came.
   */
  lemma ShortPacketTold(s: Rx, es: seq<Event>, closing: Interrupt)
    requires s.head == 0 && s.fifo == [] && Undisturbed(es) && closing.isBreak
    requires Events(s, es).0.progress == InData && 0 < |Stream(es) + closing.arrived| <= PACKET_MAX
    ensures var (t, note) := OnInterrupt(Events(s, es).0, closing);
            && t.size == |Stream(es) + closing.arrived| - 1 && t.head == 0 && t.progress == InBreak
            && note == if closing.waiting then Some(NotEnoughSlots) else None
  {
    BufferHoldsStream(s, es);
    var m := Events(s, es).0;
    DrainTracks(m, Stream(es), closing.arrived);
    DrainKeepsProgress(m, closing.arrived);
    hide Events, Stream, Drain;
  }

  /**
   * A break leaves bytes of the old packet in the FIFO exactly when the buffer
   * was not yet full and the FIFO held more than the room left.
   */
  lemma BreakLeavesFifoEmpty(s: Rx, i: Interrupt)
    requires i.isBreak
    ensures OnInterrupt(s, i).0.head == 0 && OnInterrupt(s, i).0.progress == InBreak
    ensures OnInterrupt(s, i).0.status == Receiving
    ensures OnInterrupt(s, i).0.fifo == [] <==>
              !(0 <= s.head < PACKET_MAX && |s.fifo| + |i.arrived| > PACKET_MAX - s.head)
  {
  }
}
